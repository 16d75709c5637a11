/**
 Merging RDF graphs that name the same country differently: which names count as the
 same, the substitution the merge applies, and when a replaced name survives it.
 A graph is a set of triples.
 */
module Federation {
  import Levenshtein

  datatype Term = Uri(text: string) | Literal(text: string)

  datatype Triple = Triple(s: Term, p: Term, o: Term)

  type Graph = set<Triple>

  // ---------------------------------------------------------------- which countries are the same

  /** Everything after the last occurrence of `sep`; all of s when there is none. */
  function AfterLast(s: string, sep: char): (r: string)
    ensures sep !in r && |r| <= |s| && r == s[|s| - |r|..]
    ensures |r| < |s| ==> s[|s| - |r| - 1] == sep
  {
    if sep in s then
      var r := AfterLast(s[1..], sep);
      assert s[|s| - |r|..] == s[1..][|s| - 1 - |r|..];
      r
    else s
  }

  function CountryName(subject: string): string {
    if '#' in subject then AfterLast(subject, '#') else AfterLast(subject, '/')
  }

  predicate OccursAt(s: string, part: string, i: nat) {
    i + |part| <= |s| && s[i..i + |part|] == part
  }

  predicate Contains(s: string, part: string) {
    exists i :: 0 <= i <= |s| && OccursAt(s, part, i)
  }

  /** `replace`: the two subjects have similar names, up to letter case. */
  predicate Similar(lower: string -> string, s1: string, s2: string) {
    var seq1, seq2 := lower(CountryName(s1)), lower(CountryName(s2));
    Contains(seq2, seq1) || Contains(seq1, seq2) || Levenshtein.Distance(seq1, seq2) < 4
  }

  /** The order in which two subjects are compared does not matter. */
  lemma SimilarIsSymmetric(lower: string -> string, s1: string, s2: string)
    ensures Similar(lower, s1, s2) <==> Similar(lower, s2, s1)
  {
    hide CountryName, Contains, Levenshtein.Distance;
    Levenshtein.Symmetric(lower(CountryName(s1)), lower(CountryName(s2)));
  }

  /** The name is what follows the last '#', or without one the last '/'. */
  lemma NameAfterHash(source: string, name: string)
    requires '#' !in name
    ensures CountryName(source + "#" + name) == name
  {
    hide AfterLast;
    AfterLastOf(source, '#', name);
    assert (source + "#" + name)[|source|] == '#';
  }

  lemma NameAfterSlash(source: string, name: string)
    requires '#' !in source && '#' !in name && '/' !in name
    ensures CountryName(source + "/" + name) == name && CountryName(name) == name
  {
    AfterLastOf(source, '/', name);
  }

  lemma {:induction false} AfterLastOf(a: string, sep: char, b: string)
    requires sep !in b
    ensures AfterLast(a + [sep] + b, sep) == b
  {
    var s := a + [sep] + b;
    if a == [] {
      assert s[0] == sep && s[1..] == b;
    } else {
      assert s[|a|] == sep && s[1..] == a[1..] + [sep] + b;
      AfterLastOf(a[1..], sep, b);
    }
  }

  lemma PartIsContained(before: string, part: string, after: string)
    ensures Contains(before + part + after, part)
  {
    assert OccursAt(before + part + after, part, |before|);
  }

  lemma ContainedPart(s: string, part: string) returns (before: string, after: string)
    requires Contains(s, part)
    ensures s == before + part + after
  {
    var i :| 0 <= i <= |s| && OccursAt(s, part, i);
    before, after := s[..i], s[i + |part|..];
  }

  /** Names are similar when one is part of the other, or three single-character edits turn one into the other. */
  lemma SimilarIff(lower: string -> string, s1: string, s2: string)
    ensures var n1, n2 := lower(CountryName(s1)), lower(CountryName(s2));
      Similar(lower, s1, s2) <==>
        (Contains(n1, n2) || Contains(n2, n1) || exists edits :: Levenshtein.Turns(n1, edits, n2) && |edits| <= 3)
  {
    hide CountryName, Contains, Levenshtein.Distance;
    var n1, n2 := lower(CountryName(s1)), lower(CountryName(s2));
    if edits :| Levenshtein.Turns(n1, edits, n2) && |edits| <= 3 {
      Levenshtein.NoShorterScript(n1, edits, n2);
    }
    var shortest := Levenshtein.ShortestScript(n1, n2);
    assert Levenshtein.Turns(n1, shortest, n2);
  }

  const DBPEDIA := "dbpedia"

  /** `choose_replacement`: the subject to replace, and its replacement. */
  function Choose(s1: Term, s2: Term): (Term, Term) {
    if Contains(s1.text, DBPEDIA) then (s2, s1) else (s1, s2)
  }

  // ---------------------------------------------------------------- merge_graphs

  const TYPE_TAG := Uri("rdf:type")
  const COUNTRY_TAG := Uri("dbo:Country")

  function Countries(g: Graph): set<Term> {
    set t | t in g && t.p == TYPE_TAG && t.o == COUNTRY_TAG :: t.s
  }

  /** The pair is compared by the nested loops over both country lists and found similar. */
  predicate Matched(lower: string -> string, c1: set<Term>, c2: set<Term>, s1: Term, s2: Term) {
    s1 in c1 && s2 in c2 && Similar(lower, s1.text, s2.text)
  }

  ghost predicate Produces(lower: string -> string, c1: set<Term>, c2: set<Term>, key: Term, value: Term) {
    exists s1, s2 :: Matched(lower, c1, c2, s1, s2) && Choose(s1, s2) == (key, value)
  }

  /** The dictionary after comparing s1 with the listed countries of the second graph. */
  function RowMap(lower: string -> string, m: map<Term, Term>, s1: Term, l2: seq<Term>): map<Term, Term> {
    if l2 == [] then m else
      var before, s2 := RowMap(lower, m, s1, l2[..|l2| - 1]), l2[|l2| - 1];
      if Similar(lower, s1.text, s2.text) then before[Choose(s1, s2).0 := Choose(s1, s2).1] else before
  }

  /** The dictionary the nested loops fill when the countries come in these orders; later pairs overwrite
      earlier ones. */
  function FillMap(lower: string -> string, l1: seq<Term>, l2: seq<Term>): map<Term, Term> {
    if l1 == [] then map[] else RowMap(lower, FillMap(lower, l1[..|l1| - 1], l2), l1[|l1| - 1], l2)
  }

  /** What holds of the dictionary in whatever order the countries came: an entry for every pair's key, holding
      the replacement of one of the pairs with that key. */
  ghost predicate Mapping(lower: string -> string, c1: set<Term>, c2: set<Term>, m: map<Term, Term>) {
    && (forall k :: k in m ==> Produces(lower, c1, c2, k, m[k]))
    && (forall s1, s2 :: Matched(lower, c1, c2, s1, s2) ==> Choose(s1, s2).0 in m)
  }

  /** The dictionary after all pairs of `done` with the second list and of `now` with `seen`. */
  ghost predicate PartMapping(lower: string -> string, c1: set<Term>, c2: set<Term>, m: map<Term, Term>,
                              done: set<Term>, now: set<Term>, seen: set<Term>) {
    && (forall k :: k in m ==> Produces(lower, c1, c2, k, m[k]))
    && (forall s1, s2 :: Matched(lower, c1, c2, s1, s2) && (s1 in done || (s1 in now && s2 in seen)) ==>
       Choose(s1, s2).0 in m)
  }

  function Elements(l: seq<Term>): set<Term> { set x | x in l }

  ghost predicate Lists(l: seq<Term>, s: set<Term>) {
    Elements(l) == s && forall i, j :: 0 <= i < j < |l| ==> l[i] != l[j]
  }

  lemma ElementsStep(l: seq<Term>, i: nat)
    requires i < |l|
    ensures l[..i + 1][..i] == l[..i] && Elements(l[..i + 1]) == Elements(l[..i]) + {l[i]}
  {
    assert l[..i + 1] == l[..i] + [l[i]];
  }

  lemma ListsStep(l: seq<Term>, s: set<Term>, x: Term)
    requires Lists(l, s) && x !in s
    ensures Lists(l + [x], s + {x})
  {
    var r := l + [x];
    forall y | y in s + {x} ensures y in r {
      if y == x {
        assert r[|l|] == x;
      } else {
        assert y in Elements(l);
      }
    }
    assert forall y :: y in r ==> y in l || y == x;
    assert forall i :: 0 <= i < |l| ==> l[i] in Elements(l);
  }

  lemma {:induction false} RowMapHolds(lower: string -> string, c1: set<Term>, c2: set<Term>, m: map<Term, Term>,
                                       s1: Term, l2: seq<Term>, done: set<Term>)
    requires s1 in c1 && Elements(l2) <= c2 && PartMapping(lower, c1, c2, m, done, {}, {})
    ensures PartMapping(lower, c1, c2, RowMap(lower, m, s1, l2), done, {s1}, Elements(l2))
  {
    hide Similar, Choose;
    if l2 != [] {
      var n := |l2| - 1;
      ElementsStep(l2, n);
      assert l2[..n + 1] == l2;
      RowMapHolds(lower, c1, c2, m, s1, l2[..n], done);
      assert l2[n] in c2;
      if Similar(lower, s1.text, l2[n].text) {
        assert Matched(lower, c1, c2, s1, l2[n]);
        assert Produces(lower, c1, c2, Choose(s1, l2[n]).0, Choose(s1, l2[n]).1);
      }
    }
  }

  lemma {:induction false} FillMapHolds(lower: string -> string, l1: seq<Term>, l2: seq<Term>, c1: set<Term>)
    requires Elements(l1) <= c1
    ensures PartMapping(lower, c1, Elements(l2), FillMap(lower, l1, l2), Elements(l1), {}, {})
  {
    hide Similar, Choose;
    if l1 != [] {
      var n := |l1| - 1;
      ElementsStep(l1, n);
      assert l1[..n + 1] == l1;
      FillMapHolds(lower, l1[..n], l2, c1);
      RowMapHolds(lower, c1, Elements(l2), FillMap(lower, l1[..n], l2), l1[n], l2, Elements(l1[..n]));
    }
  }

  /** In whatever orders the countries come, the dictionary is a mapping of the matched pairs. */
  lemma FillMapIsMapping(lower: string -> string, l1: seq<Term>, l2: seq<Term>)
    ensures Mapping(lower, Elements(l1), Elements(l2), FillMap(lower, l1, l2))
  {
    hide Similar, Choose;
    FillMapHolds(lower, l1, l2, Elements(l1));
  }

  function Substitute(m: map<Term, Term>, t: Triple): Triple {
    if t.s in m then t.(s := m[t.s]) else t
  }

  function Rewritten(m: map<Term, Term>, g: Graph): Graph {
    set t | t in g :: Substitute(m, t)
  }

  /** The loop that copies a graph into the merged one, subject by subject. */
  method Copy(g: Graph, mappings: map<Term, Term>, merged0: Graph) returns (merged: Graph)
    ensures merged == merged0 + Rewritten(mappings, g)
  {
    merged := merged0;
    var rest := g;
    while rest != {}
      invariant rest <= g && merged == merged0 + Rewritten(mappings, g - rest)
      decreases rest
    {
      var t :| t in rest;
      assert g - (rest - {t}) == (g - rest) + {t};
      if t.s in mappings {
        merged := merged + {Triple(mappings[t.s], t.p, t.o)};
      } else {
        merged := merged + {t};
      }
      rest := rest - {t};
    }
    assert g - rest == g;
  }

  /** The order in which a graph yields its countries is not known. */
  method Enumerate(s: set<Term>) returns (l: seq<Term>)
    ensures Lists(l, s)
  {
    l := [];
    var rest := s;
    while rest != {}
      invariant rest <= s && Lists(l, s - rest)
      decreases rest
    {
      var x :| x in rest;
      ListsStep(l, s - rest, x);
      assert s - (rest - {x}) == (s - rest) + {x};
      l, rest := l + [x], rest - {x};
    }
  }

  /** `merge_graphs` */
  method MergeGraphs(lower: string -> string, g1: Graph, g2: Graph)
    returns (merged: Graph, mappings: map<Term, Term>, l1: seq<Term>, l2: seq<Term>)
    ensures Lists(l1, Countries(g1)) && Lists(l2, Countries(g2)) && mappings == FillMap(lower, l1, l2)
    ensures Mapping(lower, Countries(g1), Countries(g2), mappings)
    ensures merged == Rewritten(mappings, g1) + Rewritten(mappings, g2)
    ensures forall s1, s2 :: IsCountry(g1, s1) && IsCountry(g2, s2) && Similar(lower, s1.text, s2.text) ==>
      (if Contains(s1.text, "dbpedia") then s2 else s1) in mappings
    ensures Countries(g1) !! Countries(g2) ==> forall k :: k in mappings ==>
      if IsCountry(g2, k)
      then IsCountry(g1, mappings[k]) && Contains(mappings[k].text, "dbpedia")
        && Similar(lower, mappings[k].text, k.text)
      else IsCountry(g1, k) && !Contains(k.text, "dbpedia")
           && IsCountry(g2, mappings[k]) && Similar(lower, k.text, mappings[k].text)
    ensures Countries(g1) !! Countries(g2) ==> forall s :: IsCountry(g1, s) && Contains(s.text, "dbpedia") ==>
      s !in mappings && IsCountry(merged, s)
  {
    hide Similar, Choose, Contains;
    mappings := map[];
    l1 := Enumerate(Countries(g1));
    l2 := Enumerate(Countries(g2));
    for i := 0 to |l1|
      invariant mappings == FillMap(lower, l1[..i], l2)
    {
      ghost var before := mappings;
      for j := 0 to |l2|
        invariant mappings == RowMap(lower, before, l1[i], l2[..j])
      {
        ElementsStep(l2, j);
        if Similar(lower, l1[i].text, l2[j].text) {
          var (key, replacement) := Choose(l1[i], l2[j]);
          mappings := mappings[key := replacement];
        }
      }
      ElementsStep(l1, i);
      assert l2[..|l2|] == l2;
    }
    assert l1[..|l1|] == l1;
    FillMapIsMapping(lower, l1, l2);
    merged := Copy(g1, mappings, {});
    merged := Copy(g2, mappings, merged);
    assert {} + Rewritten(mappings, g1) == Rewritten(mappings, g1);
    DbpediaNamesWin(lower, g1, g2, mappings);
  }

  /** A subject typed as a country. */
  predicate IsCountry(g: Graph, s: Term)
    ensures IsCountry(g, s) <==> Triple(s, Uri("rdf:type"), Uri("dbo:Country")) in g
  {
    s in Countries(g)
  }

  /** Of two similar names the dbpedia one of the first graph is kept, and otherwise the one of the second graph. */
  lemma DbpediaNamesWin(lower: string -> string, g1: Graph, g2: Graph, m: map<Term, Term>)
    requires Mapping(lower, Countries(g1), Countries(g2), m)
    ensures forall s1, s2 :: IsCountry(g1, s1) && IsCountry(g2, s2) && Similar(lower, s1.text, s2.text) ==>
      (if Contains(s1.text, "dbpedia") then s2 else s1) in m
    ensures Countries(g1) !! Countries(g2) ==> forall k :: k in m ==>
      if IsCountry(g2, k)
      then IsCountry(g1, m[k]) && Contains(m[k].text, "dbpedia") && Similar(lower, m[k].text, k.text)
      else IsCountry(g1, k) && !Contains(k.text, "dbpedia") && IsCountry(g2, m[k]) && Similar(lower, k.text, m[k].text)
    ensures Countries(g1) !! Countries(g2) ==> forall s :: IsCountry(g1, s) && Contains(s.text, "dbpedia") ==>
      s !in m && IsCountry(Rewritten(m, g1) + Rewritten(m, g2), s)
  {
    hide Similar, Contains;
    var c1, c2 := Countries(g1), Countries(g2);
    forall s1, s2 | IsCountry(g1, s1) && IsCountry(g2, s2) && Similar(lower, s1.text, s2.text)
      ensures (if Contains(s1.text, "dbpedia") then s2 else s1) in m
    {
      assert Matched(lower, c1, c2, s1, s2);
    }
    if Countries(g1) !! Countries(g2) {
      forall k | k in m
        ensures if IsCountry(g2, k)
          then IsCountry(g1, m[k]) && Contains(m[k].text, "dbpedia") && Similar(lower, m[k].text, k.text)
          else IsCountry(g1, k) && !Contains(k.text, "dbpedia")
               && IsCountry(g2, m[k]) && Similar(lower, k.text, m[k].text)
      {
        assert Produces(lower, c1, c2, k, m[k]);
      }
      forall s | IsCountry(g1, s) && Contains(s.text, "dbpedia")
        ensures s !in m && IsCountry(Rewritten(m, g1) + Rewritten(m, g2), s)
      {
        var t := Triple(s, TYPE_TAG, COUNTRY_TAG);
        assert t in g1 && Substitute(m, t) == t;
      }
    }
  }

  // ---------------------------------------------------------------- replaced subjects

  function Subjects(g: Graph): set<Term> { set t | t in g :: t.s }

  /** Predicate and object of every triple. */
  function Statements(g: Graph): set<(Term, Term)> { set t | t in g :: (t.p, t.o) }

  lemma KeysAreCountries(lower: string -> string, c1: set<Term>, c2: set<Term>, m: map<Term, Term>, k: Term)
    requires Mapping(lower, c1, c2, m) && k in m
    ensures k in c1 || k in c2
  {
    assert Produces(lower, c1, c2, k, m[k]);
  }

  /** A replaced subject is still a subject of the merged graph exactly when it replaces another one. */
  lemma {:induction false} SubjectSurvives(lower: string -> string, g1: Graph, g2: Graph, m: map<Term, Term>, k: Term)
    requires Mapping(lower, Countries(g1), Countries(g2), m) && k in m
    ensures k in Subjects(Rewritten(m, g1) + Rewritten(m, g2)) <==> k in m.Values
  {
    var merged := Rewritten(m, g1) + Rewritten(m, g2);
    if k in m.Values {
      var k' :| k' in m && m[k'] == k;
      KeysAreCountries(lower, Countries(g1), Countries(g2), m, k');
      var t :| (t in g1 || t in g2) && t.s == k';
      assert Substitute(m, t) in merged && Substitute(m, t).s == k;
    }
    if k in Subjects(merged) {
      var t' :| t' in merged && t'.s == k;
      var t :| (t in g1 || t in g2) && t' == Substitute(m, t);
      assert t.s in m && m[t.s] == k;
    }
  }

  /** Predicates and objects are never rewritten, and none is lost. */
  lemma {:induction false} StatementsKept(g1: Graph, g2: Graph, m: map<Term, Term>)
    ensures Statements(Rewritten(m, g1) + Rewritten(m, g2)) == Statements(g1) + Statements(g2)
  {
    forall x | x in Statements(g1) + Statements(g2) ensures x in Statements(Rewritten(m, g1) + Rewritten(m, g2)) {
      var t :| (t in g1 || t in g2) && (t.p, t.o) == x;
      assert Substitute(m, t) in Rewritten(m, g1) + Rewritten(m, g2);
    }
  }

  function AllStatements(graphs: seq<Graph>): set<(Term, Term)> {
    if graphs == [] then {} else AllStatements(graphs[..|graphs| - 1]) + Statements(graphs[|graphs| - 1])
  }

  /** One merge, with the countries in these orders. */
  function Merged(lower: string -> string, g1: Graph, g2: Graph, l1: seq<Term>, l2: seq<Term>): Graph {
    Rewritten(FillMap(lower, l1, l2), g1) + Rewritten(FillMap(lower, l1, l2), g2)
  }

  ghost predicate MergeStep(lower: string -> string, g1: Graph, g2: Graph, g: Graph) {
    exists l1, l2 :: Lists(l1, Countries(g1)) && Lists(l2, Countries(g2)) && g == Merged(lower, g1, g2, l1, l2)
  }

  /** The graphs can merge to g, each with what the ones before it merged to. */
  ghost predicate MergesTo(lower: string -> string, graphs: seq<Graph>, g: Graph)
    requires graphs != []
  {
    if |graphs| == 1 then g == graphs[0] else
      var front, last := Levenshtein.Front(graphs), Levenshtein.Last(graphs);
      exists before :: MergesTo(lower, front, before) && MergeStep(lower, before, last, g)
  }

  /** The merge of all of a query's inputs, one after the other, loses no statement and adds none. */
  method MergeAll(lower: string -> string, inputs: seq<Graph>) returns (g: Graph)
    requires inputs != []
    ensures MergesTo(lower, inputs, g)
    ensures Statements(g) == AllStatements(inputs)
  {
    hide FillMap, Rewritten, Statements, Lists;
    g := inputs[0];
    assert inputs[..1] == [g] && [g][..0] == [] && AllStatements([g]) == {} + Statements(g);
    for i := 1 to |inputs|
      invariant MergesTo(lower, inputs[..i], g) && Statements(g) == AllStatements(inputs[..i])
    {
      var merged, mappings, l1, l2 := MergeGraphs(lower, g, inputs[i]);
      assert merged == Merged(lower, g, inputs[i], l1, l2);
      assert MergeStep(lower, g, inputs[i], merged);
      StatementsKept(g, inputs[i], mappings);
      assert inputs[..i + 1][..i] == inputs[..i];
      assert Levenshtein.Front(inputs[..i + 1]) == inputs[..i] && Levenshtein.Last(inputs[..i + 1]) == inputs[i];
      g := merged;
    }
    assert inputs[..|inputs|] == inputs;
  }

  /** A dbpedia name of the first graph that no other graph has as a country is never replaced. */
  lemma {:induction false} FirstNamesStay(lower: string -> string, graphs: seq<Graph>, g: Graph, s: Term)
    requires graphs != [] && MergesTo(lower, graphs, g)
    requires IsCountry(graphs[0], s) && Contains(s.text, "dbpedia")
    requires forall i :: 0 < i < |graphs| ==> !IsCountry(graphs[i], s)
    ensures IsCountry(g, s)
  {
    hide FillMap, Contains, Similar;
    if |graphs| > 1 {
      var front, last := Levenshtein.Front(graphs), Levenshtein.Last(graphs);
      var before :| MergesTo(lower, front, before) && MergeStep(lower, before, last, g);
      FirstNamesStay(lower, front, before, s);
      var l1, l2 :| Lists(l1, Countries(before)) && Lists(l2, Countries(last))
        && g == Merged(lower, before, last, l1, l2);
      NotReplaced(lower, before, last, l1, l2, s);
    }
  }

  lemma NotReplaced(lower: string -> string, g1: Graph, g2: Graph, l1: seq<Term>, l2: seq<Term>, s: Term)
    requires Lists(l1, Countries(g1)) && Lists(l2, Countries(g2))
    requires IsCountry(g1, s) && !IsCountry(g2, s) && Contains(s.text, "dbpedia")
    ensures IsCountry(Merged(lower, g1, g2, l1, l2), s)
  {
    hide FillMap, Contains, Similar;
    var m := FillMap(lower, l1, l2);
    FillMapIsMapping(lower, l1, l2);
    assert s in m ==> Produces(lower, Countries(g1), Countries(g2), s, m[s]);
    var t := Triple(s, TYPE_TAG, COUNTRY_TAG);
    assert t in g1 && Substitute(m, t) == t;
  }

  // ---------------------------------------------------------------- graphs without countries

  /** Where one graph has no subject typed as a country by the unexpanded names, the merge is the plain union. */
  lemma UntypedGraphsAreUnited(lower: string -> string, g1: Graph, g2: Graph, l1: seq<Term>, l2: seq<Term>)
    requires Lists(l1, Countries(g1)) && Lists(l2, Countries(g2))
    requires (forall t :: t in g1 ==> t.p != TYPE_TAG) || (forall t :: t in g2 ==> t.p != TYPE_TAG)
    ensures FillMap(lower, l1, l2) == map[] && Merged(lower, g1, g2, l1, l2) == g1 + g2
  {
    hide FillMap, Similar, Choose;
    var m := FillMap(lower, l1, l2);
    FillMapIsMapping(lower, l1, l2);
    if k :| k in m {
      assert false;
    }
    assert m == map[];
    NothingRewritten(g1);
    NothingRewritten(g2);
  }

  lemma NothingRewritten(g: Graph)
    ensures Rewritten(map[], g) == g
  {
    forall t | t in g ensures t in Rewritten(map[], g) {
      assert Substitute(map[], t) == t;
    }
  }

  function Union(data: seq<Graph>): (r: Graph)
    ensures forall t :: t in r <==> exists i :: 0 <= i < |data| && t in data[i]
  {
    if data == [] then {} else
      var front := data[..|data| - 1];
      assert forall i :: 0 <= i < |front| ==> data[i] == front[i];
      Union(front) + data[|data| - 1]
  }

  /** So is the merge of any number of such graphs. */
  lemma {:induction false} UntypedInputsAreUnited(lower: string -> string, graphs: seq<Graph>, g: Graph)
    requires graphs != [] && MergesTo(lower, graphs, g)
    requires forall i, t :: 0 <= i < |graphs| && t in graphs[i] ==> t.p != TYPE_TAG
    ensures g == Union(graphs)
  {
    hide Merged, FillMap;
    if |graphs| == 1 {
      assert Union(graphs[..0]) == {};
    } else {
      var front, last := Levenshtein.Front(graphs), Levenshtein.Last(graphs);
      var before :| MergesTo(lower, front, before) && MergeStep(lower, before, last, g);
      assert forall i, t :: 0 <= i < |front| && t in front[i] ==> t in graphs[i];
      UntypedInputsAreUnited(lower, front, before);
      var l1, l2 :| Lists(l1, Countries(before)) && Lists(l2, Countries(last))
        && g == Merged(lower, before, last, l1, l2);
      assert last == graphs[|graphs| - 1];
      UntypedGraphsAreUnited(lower, before, last, l1, l2);
    }
  }

  // ---------------------------------------------------------------- replaced subjects that survive

  /** A country of the second graph is similar both to a dbpedia and to another country of the first. */
  ghost predicate Conflicting(lower: string -> string, c1: set<Term>, c2: set<Term>) {
    exists s1, s1', s2 ::
      Matched(lower, c1, c2, s1, s2) && Matched(lower, c1, c2, s1', s2)
      && Contains(s1.text, DBPEDIA) && !Contains(s1'.text, DBPEDIA)
  }

  /** In no order of the countries is a replacement itself to be replaced. */
  ghost predicate NeverChains(lower: string -> string, c1: set<Term>, c2: set<Term>) {
    forall l1, l2 :: Lists(l1, c1) && Lists(l2, c2) ==> Unchained(FillMap(lower, l1, l2))
  }

  ghost predicate Unchained(m: map<Term, Term>) {
    m.Keys !! m.Values
  }

  lemma NeverChainsIff(lower: string -> string, c1: set<Term>, c2: set<Term>)
    ensures NeverChains(lower, c1, c2) <==> c1 !! c2 && !Conflicting(lower, c1, c2)
  {
    hide Similar, FillMap, Contains;
    if !(c1 !! c2) {
      SharedCountryChains(lower, c1, c2);
    } else if Conflicting(lower, c1, c2) {
      ConflictChains(lower, c1, c2);
    } else {
      forall l1, l2 | Lists(l1, c1) && Lists(l2, c2) ensures Unchained(FillMap(lower, l1, l2)) {
        FillMapIsMapping(lower, l1, l2);
        NoConflictNoChain(lower, c1, c2, FillMap(lower, l1, l2));
      }
    }
  }

  /** In no order of the countries is a replaced subject still a subject of the merged graph. */
  ghost predicate NoneSurvives(lower: string -> string, g1: Graph, g2: Graph) {
    forall l1, l2 :: Lists(l1, Countries(g1)) && Lists(l2, Countries(g2)) ==>
      FillMap(lower, l1, l2).Keys !! Subjects(Merged(lower, g1, g2, l1, l2))
  }

  /** No replaced subject survives, in whatever order the countries come, exactly when the graphs have no country
      in common and there is no conflicting one. */
  lemma NoSurvivorsIff(lower: string -> string, g1: Graph, g2: Graph)
    ensures NoneSurvives(lower, g1, g2) <==>
      Countries(g1) !! Countries(g2) && !Conflicting(lower, Countries(g1), Countries(g2))
  {
    hide Similar, FillMap, Contains, Conflicting, Countries, Rewritten;
    var c1, c2 := Countries(g1), Countries(g2);
    forall l1, l2 | Lists(l1, c1) && Lists(l2, c2)
      ensures Unchained(FillMap(lower, l1, l2))
        <==> FillMap(lower, l1, l2).Keys !! Subjects(Merged(lower, g1, g2, l1, l2))
    {
      var m := FillMap(lower, l1, l2);
      FillMapIsMapping(lower, l1, l2);
      forall k | k in m ensures k in Subjects(Merged(lower, g1, g2, l1, l2)) <==> k in m.Values {
        SubjectSurvives(lower, g1, g2, m, k);
      }
    }
    NeverChainsIff(lower, c1, c2);
  }

  lemma SameNameIsSimilar(lower: string -> string, s1: string, s2: string)
    requires CountryName(s1) == CountryName(s2)
    ensures Similar(lower, s1, s2)
  {
    hide CountryName;
    var name := lower(CountryName(s1));
    assert OccursAt(name, name, 0);
  }

  /** A country of both graphs that comes last in both orders is replaced by itself. */
  lemma SharedCountryChains(lower: string -> string, c1: set<Term>, c2: set<Term>)
    requires !(c1 !! c2)
    ensures !NeverChains(lower, c1, c2)
  {
    hide Similar, Contains;
    var x :| x in c1 && x in c2;
    var l1 := ListWithLast(c1, x);
    var l2 := ListWithLast(c2, x);
    SameNameIsSimilar(lower, x.text, x.text);
    var m := FillMap(lower, l1, l2);
    assert x in m && m[x] == x;
    assert x in m.Keys && x in m.Values;
    assert !Unchained(m);
  }

  lemma NoConflictNoChain(lower: string -> string, c1: set<Term>, c2: set<Term>, m: map<Term, Term>)
    requires c1 !! c2 && !Conflicting(lower, c1, c2) && Mapping(lower, c1, c2, m)
    ensures Unchained(m)
  {
    hide Similar, Contains;
    forall k, k' | k in m && k' in m ensures m[k'] != k {
      assert Produces(lower, c1, c2, k, m[k]) && Produces(lower, c1, c2, k', m[k']);
      var s1, s2 :| Matched(lower, c1, c2, s1, s2) && Choose(s1, s2) == (k, m[k]);
      var s1', s2' :| Matched(lower, c1, c2, s1', s2') && Choose(s1', s2') == (k', m[k']);
    }
  }

  /** A conflicting pair that comes last in both orders leaves a chain. */
  lemma ConflictChains(lower: string -> string, c1: set<Term>, c2: set<Term>)
    requires c1 !! c2 && Conflicting(lower, c1, c2)
    ensures !NeverChains(lower, c1, c2)
  {
    hide Similar, Contains;
    var s1, s1', s2 :|
      Matched(lower, c1, c2, s1, s2) && Matched(lower, c1, c2, s1', s2)
      && Contains(s1.text, DBPEDIA) && !Contains(s1'.text, DBPEDIA);
    var l1 := ListWithLast(c1, s1');
    var l2 := ListWithLast(c2, s2);
    var m := FillMap(lower, l1, l2);
    FillMapIsMapping(lower, l1, l2);
    assert Choose(s1, s2).0 == s2 && Choose(s1', s2) == (s1', s2);
    assert m[s1'] == s2;
    assert s2 in m.Keys && s2 in m.Values;
    assert !Unchained(m);
  }

  lemma {:induction false} ListWithLast(s: set<Term>, last: Term) returns (l: seq<Term>)
    requires last in s
    ensures Lists(l, s) && l != [] && l[|l| - 1] == last
  {
    var rest := s - {last};
    l := [];
    if rest != {} {
      var x :| x in rest;
      l := ListWithLast(rest, x);
    }
    ListsStep(l, rest, last);
    assert rest + {last} == s;
    l := l + [last];
  }

  /** Country A as some source names it. */
  function NameAt(source: string): string { source + "/" + "A" }

  const EXAMPLE_DBPEDIA := Uri(NameAt("dbpedia"))
  const EXAMPLE_OTHER := Uri(NameAt("geo"))
  const EXAMPLE_SECOND := Uri(NameAt("eu"))

  /** One country under a dbpedia and another name, and under a third name. */
  function ExampleFirstGraph(): Graph {
    {Triple(EXAMPLE_DBPEDIA, TYPE_TAG, COUNTRY_TAG), Triple(EXAMPLE_OTHER, TYPE_TAG, COUNTRY_TAG)}
  }

  function ExampleSecondGraph(): Graph { {Triple(EXAMPLE_SECOND, TYPE_TAG, COUNTRY_TAG)} }

  lemma NameAtIsA(source: string)
    requires '#' !in source
    ensures CountryName(NameAt(source)) == "A"
  {
    hide AfterLast;
    AfterLastOf(source, '/', "A");
  }

  lemma ExampleSources()
    ensures Contains(NameAt("dbpedia"), DBPEDIA) && !Contains(NameAt("geo"), DBPEDIA)
  {
    assert OccursAt(NameAt("dbpedia"), DBPEDIA, 0);
  }

  /** In the example a replaced subject survives: the third name gives way to the dbpedia one and replaces the other. */
  lemma ExampleSubjectSurvives(lower: string -> string)
    ensures !NoneSurvives(lower, ExampleFirstGraph(), ExampleSecondGraph())
  {
    hide NoneSurvives, Similar, CountryName, Contains, NameAt;
    var c1, c2 := Countries(ExampleFirstGraph()), Countries(ExampleSecondGraph());
    NameAtIsA("dbpedia");
    NameAtIsA("geo");
    NameAtIsA("eu");
    ExampleSources();
    SameNameIsSimilar(lower, EXAMPLE_DBPEDIA.text, EXAMPLE_SECOND.text);
    SameNameIsSimilar(lower, EXAMPLE_OTHER.text, EXAMPLE_SECOND.text);
    assert Triple(EXAMPLE_DBPEDIA, TYPE_TAG, COUNTRY_TAG) in ExampleFirstGraph();
    assert Triple(EXAMPLE_OTHER, TYPE_TAG, COUNTRY_TAG) in ExampleFirstGraph();
    assert Triple(EXAMPLE_SECOND, TYPE_TAG, COUNTRY_TAG) in ExampleSecondGraph();
    assert Matched(lower, c1, c2, EXAMPLE_DBPEDIA, EXAMPLE_SECOND)
      && Matched(lower, c1, c2, EXAMPLE_OTHER, EXAMPLE_SECOND);
    assert Conflicting(lower, c1, c2);
    NoSurvivorsIff(lower, ExampleFirstGraph(), ExampleSecondGraph());
  }

  /** When every country of the first graph is a dbpedia one, or none is, there is no conflict. */
  lemma UniformSourcesDoNotConflict(lower: string -> string, c1: set<Term>, c2: set<Term>)
    requires (forall s :: s in c1 ==> Contains(s.text, DBPEDIA)) || (forall s :: s in c1 ==> !Contains(s.text, DBPEDIA))
    ensures !Conflicting(lower, c1, c2)
  {
  }
}
