/**
 Cutting a query into one subquery per class and one per pair of classes, asking every
 endpoint each of them, and joining the answers: which triples come back, when that is
 enough to answer the query, and the cache that asks each subquery once.
 */
module QueryPartition {
  import opened Federation

  // ---------------------------------------------------------------- queries

  datatype Node = Var(name: string) | Const(term: Term)

  /** A triple pattern of the query, as parsed. */
  datatype Pattern = Pattern(s: Node, p: Node, o: Node)

  const RDF_TYPE := Uri("http://www.w3.org/1999/02/22-rdf-syntax-ns#type")

  /** A CONSTRUCT query for one class, or for an ordered pair of classes. */
  datatype SubQuery = Entity(prefix: string, cls: Node) | Pair(prefix: string, sub: Node, obj: Node)

  predicate IsTypePattern(pat: Pattern) {
    pat.p == Const(RDF_TYPE)
  }

  /** The classes in the order of their first type pattern. */
  function Entities(patterns: seq<Pattern>): (e: seq<Node>)
    ensures forall n :: n in e <==> exists pat :: pat in patterns && IsTypePattern(pat) && pat.o == n
    ensures forall i, j :: 0 <= i < j < |e| ==> e[i] != e[j]
  {
    if patterns == [] then [] else
      var front, pat := patterns[..|patterns| - 1], patterns[|patterns| - 1];
      assert patterns == front + [pat];
      var e := Entities(front);
      assert forall n :: n in e <==> exists q :: q in front && IsTypePattern(q) && q.o == n;
      assert forall q :: q in patterns <==> q in front || q == pat;
      if IsTypePattern(pat) && pat.o !in e then e + [pat.o] else e
  }

  function EntityQueries(prefix: string, e: seq<Node>): seq<SubQuery> {
    seq(|e|, i requires 0 <= i < |e| => Entity(prefix, e[i]))
  }

  /** The pairs (i, j) for fixed i and i < j < upto. */
  function PairRow(prefix: string, e: seq<Node>, i: nat, upto: nat): seq<SubQuery>
    requires i < upto <= |e|
  {
    seq(upto - i - 1, j requires 0 <= j < upto - i - 1 => Pair(prefix, e[i], e[i + 1 + j]))
  }

  function PairQueries(prefix: string, e: seq<Node>, rows: nat): seq<SubQuery>
    requires rows <= |e|
  {
    if rows == 0 then [] else PairQueries(prefix, e, rows - 1) + PairRow(prefix, e, rows - 1, |e|)
  }

  /** `partition_query`, from the parsed patterns on. */
  method PartitionQuery(prefix: string, patterns: seq<Pattern>) returns (queries: seq<SubQuery>)
    ensures queries == Partition(prefix, patterns)
  {
    hide Entities, EntityQueries, PairRow, PairQueries;
    queries := [];
    var entities: seq<Node> := [];
    NoQueries(prefix, patterns);
    for k := 0 to |patterns|
      invariant entities == Entities(patterns[..k]) && queries == EntityQueries(prefix, entities)
    {
      EntitiesStep(prefix, patterns, k);
      var pat := patterns[k];
      if IsTypePattern(pat) && pat.o !in entities {
        queries := queries + [Entity(prefix, pat.o)];
        entities := entities + [pat.o];
      }
    }
    assert patterns[..|patterns|] == patterns;
    ghost var first := queries;
    NoPairs(prefix, entities);
    for i := 0 to |entities|
      invariant queries == first + PairQueries(prefix, entities, i)
    {
      ghost var before := queries;
      PairsStep(prefix, entities, i);
      for j := i + 1 to |entities|
        invariant queries == before + PairRow(prefix, entities, i, j)
      {
        PairRowStep(prefix, entities, i, j);
        queries := queries + [Pair(prefix, entities[i], entities[j])];
      }
    }
  }

  lemma NoQueries(prefix: string, patterns: seq<Pattern>)
    ensures Entities(patterns[..0]) == [] && EntityQueries(prefix, []) == []
  {
  }

  lemma EntitiesStep(prefix: string, patterns: seq<Pattern>, k: nat)
    requires k < |patterns|
    ensures var e, pat := Entities(patterns[..k]), patterns[k];
      Entities(patterns[..k + 1]) == if IsTypePattern(pat) && pat.o !in e then e + [pat.o] else e
    ensures forall e, n :: EntityQueries(prefix, e + [n]) == EntityQueries(prefix, e) + [Entity(prefix, n)]
  {
    assert patterns[..k + 1][..k] == patterns[..k];
  }

  lemma NoPairs(prefix: string, e: seq<Node>)
    ensures PairQueries(prefix, e, 0) == []
  {
  }

  lemma PairsStep(prefix: string, e: seq<Node>, i: nat)
    requires i < |e|
    ensures PairRow(prefix, e, i, i + 1) == []
    ensures PairQueries(prefix, e, i + 1) == PairQueries(prefix, e, i) + PairRow(prefix, e, i, |e|)
  {
  }

  lemma PairRowStep(prefix: string, e: seq<Node>, i: nat, j: nat)
    requires i < j < |e|
    ensures PairRow(prefix, e, i, j + 1) == PairRow(prefix, e, i, j) + [Pair(prefix, e[i], e[j])]
  {
  }

  function Partition(prefix: string, patterns: seq<Pattern>): seq<SubQuery> {
    var e := Entities(patterns);
    EntityQueries(prefix, e) + PairQueries(prefix, e, |e|)
  }

  ghost predicate IsEntityQuery(prefix: string, e: seq<Node>, q: SubQuery) {
    exists i :: 0 <= i < |e| && q == Entity(prefix, e[i])
  }

  /** q pairs one of the first `rows` classes with a later one. */
  ghost predicate IsPairQuery(prefix: string, e: seq<Node>, rows: nat, q: SubQuery)
    requires rows <= |e|
  {
    exists i, j :: 0 <= i < rows && i < j < |e| && q == Pair(prefix, e[i], e[j])
  }

  lemma {:induction false} PairQueriesHold(prefix: string, e: seq<Node>, rows: nat, q: SubQuery)
    requires rows <= |e|
    ensures q in PairQueries(prefix, e, rows) <==> IsPairQuery(prefix, e, rows, q)
  {
    if rows > 0 {
      PairQueriesHold(prefix, e, rows - 1, q);
      var row := PairRow(prefix, e, rows - 1, |e|);
      if j :| rows - 1 < j < |e| && q == Pair(prefix, e[rows - 1], e[j]) {
        assert row[j - rows] == q;
      }
    }
  }

  lemma EntityQueriesHold(prefix: string, e: seq<Node>, q: SubQuery)
    ensures q in EntityQueries(prefix, e) <==> IsEntityQuery(prefix, e, q)
  {
    if i :| 0 <= i < |e| && q == Entity(prefix, e[i]) {
      assert EntityQueries(prefix, e)[i] == q;
    }
  }

  /** One subquery per class and one per pair of different classes, earlier-listed first. */
  lemma PartitionHolds(prefix: string, patterns: seq<Pattern>, q: SubQuery)
    ensures q in Partition(prefix, patterns) <==>
      IsEntityQuery(prefix, Entities(patterns), q) || IsPairQuery(prefix, Entities(patterns), |Entities(patterns)|, q)
  {
    hide PairQueries, EntityQueries, Entities, IsEntityQuery, IsPairQuery;
    var e := Entities(patterns);
    PairQueriesHold(prefix, e, |e|, q);
    EntityQueriesHold(prefix, e, q);
    assert q in Partition(prefix, patterns) <==> q in EntityQueries(prefix, e) || q in PairQueries(prefix, e, |e|);
  }

  // ---------------------------------------------------------------- answers

  /** s has class n in g; a variable stands for any class. */
  predicate HasClass(g: Graph, s: Term, n: Node) {
    match n
    case Const(t) => Triple(s, RDF_TYPE, t) in g
    case Var(_) => exists t :: t in g && t.s == s && t.p == RDF_TYPE
  }

  function Flip(t: Triple): Triple { Triple(t.o, t.p, t.s) }

  /** The triple a subquery constructs from each solution: the second branch of a pair query turns edges round. */
  predicate Constructs(q: SubQuery, g: Graph, t: Triple) {
    match q
    case Entity(_, cls) =>
      t in g && HasClass(g, t.s, cls) && (t.o.Literal? || Triple(t.s, RDF_TYPE, t.o) in g)
    case Pair(_, sub, obj) =>
      || (t in g && HasClass(g, t.s, sub) && HasClass(g, t.o, obj))
      || (Flip(t) in g && HasClass(g, t.s, sub) && HasClass(g, t.o, obj))
  }

  function Answer(q: SubQuery, g: Graph): (r: Graph)
    ensures forall t :: t in r <==> Constructs(q, g, t)
  {
    var turned: Graph := set t | t in g :: Flip(t);
    assert forall t: Triple :: t == Flip(Flip(t));
    set t | t in g + turned && Constructs(q, g, t)
  }

  /** `join_triplets` over the answers of all endpoints. */
  method JoinTriplets(data: seq<Graph>) returns (result: Graph)
    ensures result == Union(data)
  {
    result := {};
    assert data[..0] == [];
    for i := 0 to |data|
      invariant result == Union(data[..i])
    {
      assert data[..i + 1][..i] == data[..i];
      result := result + data[i];
    }
    assert data[..|data|] == data;
  }

  function Joined(q: SubQuery, endpoints: seq<Graph>): Graph {
    Union(seq(|endpoints|, i requires 0 <= i < |endpoints| => Answer(q, endpoints[i])))
  }

  /** All that the subqueries of a query bring back. */
  ghost predicate Retrieved(prefix: string, patterns: seq<Pattern>, endpoints: seq<Graph>, t: Triple) {
    exists q :: q in Partition(prefix, patterns) && t in Joined(q, endpoints)
  }

  lemma JoinedHolds(q: SubQuery, endpoints: seq<Graph>, t: Triple)
    ensures t in Joined(q, endpoints) <==> exists i :: 0 <= i < |endpoints| && Constructs(q, endpoints[i], t)
  {
    var answers := seq(|endpoints|, i requires 0 <= i < |endpoints| => Answer(q, endpoints[i]));
    if i :| 0 <= i < |endpoints| && Constructs(q, endpoints[i], t) {
      assert t in answers[i];
    }
    if t in Joined(q, endpoints) {
      var i :| 0 <= i < |answers| && t in answers[i];
      assert Constructs(q, endpoints[i], t);
    }
  }

  /** One endpoint alone holds what is needed to bring back its triple t for classes e. */
  ghost predicate Supported(e: seq<Node>, g: Graph, t: Triple) {
    || (exists i :: 0 <= i < |e| && HasClass(g, t.s, e[i]) && (t.o.Literal? || Triple(t.s, RDF_TYPE, t.o) in g))
    || (exists i, j :: 0 <= i < j < |e| && HasClass(g, t.s, e[i]) && HasClass(g, t.o, e[j]))
  }

  /** The reversal of an edge that runs from a later-listed to an earlier-listed class. */
  ghost predicate Reversed(e: seq<Node>, g: Graph, t: Triple) {
    Flip(t) in g && exists i, j :: 0 <= i < j < |e| && HasClass(g, t.s, e[i]) && HasClass(g, t.o, e[j])
  }

  /** Exactly the supported triples come back, together with reversed later-to-earlier edges. */
  lemma RetrievedIff(prefix: string, patterns: seq<Pattern>, endpoints: seq<Graph>, t: Triple)
    ensures var e := Entities(patterns);
            Retrieved(prefix, patterns, endpoints, t) <==>
              exists k :: 0 <= k < |endpoints| &&
                ((t in endpoints[k] && Supported(e, endpoints[k], t)) || Reversed(e, endpoints[k], t))
  {
    hide Partition, Joined, Entities, HasClass;
    var e := Entities(patterns);
    if Retrieved(prefix, patterns, endpoints, t) {
      var q :| q in Partition(prefix, patterns) && t in Joined(q, endpoints);
      JoinedHolds(q, endpoints, t);
      PartitionHolds(prefix, patterns, q);
      var k :| 0 <= k < |endpoints| && Constructs(q, endpoints[k], t);
      assert (t in endpoints[k] && Supported(e, endpoints[k], t)) || Reversed(e, endpoints[k], t);
    }
    if k :|
      0 <= k < |endpoints| &&
      ((t in endpoints[k] && Supported(e, endpoints[k], t)) || Reversed(e, endpoints[k], t)) {
      var g := endpoints[k];
      if i :| t in g && 0 <= i < |e| && HasClass(g, t.s, e[i]) && (t.o.Literal? || Triple(t.s, RDF_TYPE, t.o) in g) {
        EntityBringsBack(prefix, patterns, endpoints, t, i, k);
      } else {
        var i, j :| 0 <= i < j < |e| && HasClass(g, t.s, e[i]) && HasClass(g, t.o, e[j]);
        PairBringsBack(prefix, patterns, endpoints, t, i, j, k);
      }
    }
  }

  /** What it is to have a class. */
  lemma ClassIs(g: Graph, s: Term, t: Term)
    ensures HasClass(g, s, Const(t)) <==> Triple(s, Uri("http://www.w3.org/1999/02/22-rdf-syntax-ns#type"), t) in g
  {
  }

  /** What an endpoint must have for a triple to come back, written out. */
  lemma SupportedIs(e: seq<Node>, g: Graph, t: Triple)
    ensures ((t in g && Supported(e, g, t)) || Reversed(e, g, t)) <==>
      ((t in g && exists i :: 0 <= i < |e| && HasClass(g, t.s, e[i]) && (t.o.Literal? || HasClass(g, t.s, Const(t.o))))
       || (exists i, j :: 0 <= i < j < |e| && HasClass(g, t.s, e[i]) && HasClass(g, t.o, e[j])
            && (t in g || Triple(t.o, t.p, t.s) in g)))
  {
  }

  lemma EntityBringsBack(prefix: string, patterns: seq<Pattern>, endpoints: seq<Graph>, t: Triple, i: nat, k: nat)
    requires k < |endpoints| && i < |Entities(patterns)|
    requires Constructs(Entity(prefix, Entities(patterns)[i]), endpoints[k], t)
    ensures Retrieved(prefix, patterns, endpoints, t)
  {
    hide Partition, Joined, Entities, Constructs;
    var q := Entity(prefix, Entities(patterns)[i]);
    PartitionHolds(prefix, patterns, q);
    JoinedHolds(q, endpoints, t);
  }

  lemma PairBringsBack(prefix: string, patterns: seq<Pattern>, endpoints: seq<Graph>, t: Triple, i: nat, j: nat, k: nat)
    requires k < |endpoints| && i < j < |Entities(patterns)|
    requires Constructs(Pair(prefix, Entities(patterns)[i], Entities(patterns)[j]), endpoints[k], t)
    ensures Retrieved(prefix, patterns, endpoints, t)
  {
    hide Partition, Joined, Entities, Constructs;
    var q := Pair(prefix, Entities(patterns)[i], Entities(patterns)[j]);
    PartitionHolds(prefix, patterns, q);
    JoinedHolds(q, endpoints, t);
  }

  // ---------------------------------------------------------------- solutions

  type Binding = map<string, Term>

  function Value(b: Binding, n: Node): Term
    requires n.Var? ==> n.name in b
  {
    match n
    case Var(x) => b[x]
    case Const(t) => t
  }

  ghost predicate Binds(b: Binding, patterns: seq<Pattern>) {
    forall pat :: pat in patterns ==>
      (pat.s.Var? ==> pat.s.name in b) && (pat.p.Var? ==> pat.p.name in b) && (pat.o.Var? ==> pat.o.name in b)
  }

  function Instance(b: Binding, pat: Pattern): Triple
    requires pat.s.Var? ==> pat.s.name in b
    requires pat.p.Var? ==> pat.p.name in b
    requires pat.o.Var? ==> pat.o.name in b
  {
    Triple(Value(b, pat.s), Value(b, pat.p), Value(b, pat.o))
  }

  /** b solves the patterns over the graph that holds exactly the triples of `data`. */
  ghost predicate Solves(b: Binding, patterns: seq<Pattern>, data: Triple -> bool) {
    Binds(b, patterns) && forall pat :: pat in patterns ==> data(Instance(b, pat))
  }

  ghost function InUnion(endpoints: seq<Graph>): Triple -> bool {
    t => t in Union(endpoints)
  }

  ghost function Returned(prefix: string, patterns: seq<Pattern>, endpoints: seq<Graph>): Triple -> bool {
    t => Retrieved(prefix, patterns, endpoints, t)
  }

  /** Some endpoint has the triple together with the class triples a subquery needs, or the edge it reverses. */
  ghost predicate BroughtBack(e: seq<Node>, endpoints: seq<Graph>, t: Triple) {
    exists k :: 0 <= k < |endpoints| &&
      ((t in endpoints[k] && Supported(e, endpoints[k], t)) || Reversed(e, endpoints[k], t))
  }

  /** A solution over the endpoints' union is one over what the subqueries bring back exactly if each triple it
      matches is supported within one endpoint, or is the reversal of some endpoint's edge. */
  lemma PartitionIsCompleteIff(prefix: string, patterns: seq<Pattern>, endpoints: seq<Graph>, b: Binding)
    requires Solves(b, patterns, InUnion(endpoints))
    ensures Solves(b, patterns, Returned(prefix, patterns, endpoints)) <==>
      forall pat :: pat in patterns ==> BroughtBack(Entities(patterns), endpoints, Instance(b, pat))
  {
    hide Retrieved, Entities, Supported, Reversed;
    forall pat | pat in patterns
      ensures Retrieved(prefix, patterns, endpoints, Instance(b, pat))
         <==> BroughtBack(Entities(patterns), endpoints, Instance(b, pat))
    {
      RetrievedIff(prefix, patterns, endpoints, Instance(b, pat));
    }
  }

  /** Each triple the solution matches lies in one endpoint with the class triples its subquery needs:
      literal values have a classed subject, and class-to-class edges run from an earlier-listed class. */
  ghost predicate LocallySupported(b: Binding, patterns: seq<Pattern>, endpoints: seq<Graph>) {
    Binds(b, patterns) && forall pat :: pat in patterns ==> PatternSupported(b, pat, Entities(patterns), endpoints)
  }

  ghost predicate PatternSupported(b: Binding, pat: Pattern, e: seq<Node>, endpoints: seq<Graph>)
    requires (pat.s.Var? ==> pat.s.name in b) && (pat.p.Var? ==> pat.p.name in b) && (pat.o.Var? ==> pat.o.name in b)
  {
    var t := Instance(b, pat);
    exists k :: 0 <= k < |endpoints| && t in endpoints[k] &&
      (IsTypePattern(pat)
       || (t.o.Literal? && exists i :: 0 <= i < |e| && HasClass(endpoints[k], t.s, e[i]))
       || (exists i, j :: 0 <= i < j < |e| && HasClass(endpoints[k], t.s, e[i]) && HasClass(endpoints[k], t.o, e[j])))
  }

  /** In particular a locally supported solution comes back. */
  lemma PartitionIsComplete(prefix: string, patterns: seq<Pattern>, endpoints: seq<Graph>, b: Binding)
    requires Solves(b, patterns, InUnion(endpoints)) && LocallySupported(b, patterns, endpoints)
    ensures Solves(b, patterns, Returned(prefix, patterns, endpoints))
  {
    hide Retrieved;
    forall pat | pat in patterns ensures BroughtBack(Entities(patterns), endpoints, Instance(b, pat)) {
      PatternBroughtBack(patterns, endpoints, b, pat);
    }
    PartitionIsCompleteIff(prefix, patterns, endpoints, b);
  }

  lemma PatternBroughtBack(patterns: seq<Pattern>, endpoints: seq<Graph>, b: Binding, pat: Pattern)
    requires Binds(b, patterns) && pat in patterns && PatternSupported(b, pat, Entities(patterns), endpoints)
    ensures BroughtBack(Entities(patterns), endpoints, Instance(b, pat))
  {
    var e, t := Entities(patterns), Instance(b, pat);
    var k :| 0 <= k < |endpoints| && t in endpoints[k] &&
      (IsTypePattern(pat)
       || (t.o.Literal? && exists i :: 0 <= i < |e| && HasClass(endpoints[k], t.s, e[i]))
       || (exists i, j :: 0 <= i < j < |e| && HasClass(endpoints[k], t.s, e[i]) && HasClass(endpoints[k], t.o, e[j])));
    if IsTypePattern(pat) {
      assert pat.o in e;
      var i :| 0 <= i < |e| && e[i] == pat.o;
      assert t == Triple(t.s, RDF_TYPE, t.o) && HasClass(endpoints[k], t.s, e[i]);
    }
    assert Supported(e, endpoints[k], t);
  }

  /** Only triples of the endpoints come back exactly if every reversed edge is a triple of some endpoint anyway. */
  lemma PartitionIsSoundIff(prefix: string, patterns: seq<Pattern>, endpoints: seq<Graph>)
    ensures (forall t :: Retrieved(prefix, patterns, endpoints, t) ==> t in Union(endpoints)) <==>
      (forall k, t :: 0 <= k < |endpoints| && Reversed(Entities(patterns), endpoints[k], t) ==> t in Union(endpoints))
  {
    hide Retrieved, Entities, Supported, Reversed;
    forall t
      ensures Retrieved(prefix, patterns, endpoints, t) <==> BroughtBack(Entities(patterns), endpoints, t)
    {
      RetrievedIff(prefix, patterns, endpoints, t);
    }
    if forall t :: Retrieved(prefix, patterns, endpoints, t) ==> t in Union(endpoints) {
      forall k, t | 0 <= k < |endpoints| && Reversed(Entities(patterns), endpoints[k], t)
        ensures t in Union(endpoints)
      {
        assert BroughtBack(Entities(patterns), endpoints, t);
      }
    }
  }

  /** In that case every solution over what comes back is one over the union. */
  lemma PartitionIsSound(prefix: string, patterns: seq<Pattern>, endpoints: seq<Graph>, b: Binding)
    requires Solves(b, patterns, Returned(prefix, patterns, endpoints))
    requires forall k, t :: 0 <= k < |endpoints| && Reversed(Entities(patterns), endpoints[k], t) ==>
      t in Union(endpoints)
    ensures Solves(b, patterns, InUnion(endpoints))
  {
    hide Retrieved, Entities, Supported, Reversed;
    PartitionIsSoundIff(prefix, patterns, endpoints);
  }

  // ---------------------------------------------------------------- an edge the wrong way round

  const CITY := Uri("City")
  const COUNTRY := Uri("Country")
  const LIES_IN := Uri("in")
  const X := Uri("x")
  const Y := Uri("y")

  /** x is a City, y is a Country, and y is in x. */
  function ExampleGraph(): Graph { {Triple(X, RDF_TYPE, CITY), Triple(Y, RDF_TYPE, COUNTRY), Triple(Y, LIES_IN, X)} }

  /** ?a a City . ?b a Country . and one more pattern. */
  function ExampleQuery(last: Pattern): seq<Pattern> {
    [Pattern(Var("a"), Const(RDF_TYPE), Const(CITY)), Pattern(Var("b"), Const(RDF_TYPE), Const(COUNTRY)), last]
  }

  function BInA(): Pattern { Pattern(Var("b"), Const(LIES_IN), Var("a")) }

  function AInB(): Pattern { Pattern(Var("a"), Const(LIES_IN), Var("b")) }

  function ExampleBinding(): Binding { map["a" := X, "b" := Y] }

  lemma ExampleEntities(last: Pattern)
    requires !IsTypePattern(last)
    ensures Entities(ExampleQuery(last)) == [Const(CITY), Const(COUNTRY)]
  {
    var p, q := ExampleQuery(last)[0], ExampleQuery(last)[1];
    assert [p, q, last][..2] == [p, q] && [p, q][..1] == [p] && [p][..0] == [];
    assert Entities([p]) == [p.o];
    assert Entities([p, q]) == [p.o, q.o];
  }

  lemma ExampleRetrieved(last: Pattern, t: Triple)
    requires !IsTypePattern(last)
    ensures var e, g := [Const(CITY), Const(COUNTRY)], ExampleGraph();
            Retrieved("", ExampleQuery(last), [g], t) <==> (t in g && Supported(e, g, t)) || Reversed(e, g, t)
  {
    hide Retrieved, Supported, Reversed, Entities, ExampleGraph, ExampleQuery;
    ExampleEntities(last);
    RetrievedIff("", ExampleQuery(last), [ExampleGraph()], t);
    assert [ExampleGraph()][0] == ExampleGraph();
  }

  lemma ExampleClasses()
    ensures var e, g := [Const(CITY), Const(COUNTRY)], ExampleGraph();
            && HasClass(g, X, e[0]) && !HasClass(g, X, e[1]) && !HasClass(g, Y, e[0]) && HasClass(g, Y, e[1])
            && !HasClass(g, CITY, e[1]) && !HasClass(g, COUNTRY, e[1])
            && Triple(Y, RDF_TYPE, X) !in g && Triple(X, LIES_IN, Y) !in g && Triple(Y, LIES_IN, X) in g
  {
  }

  lemma ExampleTriples()
    ensures var e, g := [Const(CITY), Const(COUNTRY)], ExampleGraph();
            && !Supported(e, g, Triple(Y, LIES_IN, X)) && !Reversed(e, g, Triple(Y, LIES_IN, X))
            && Reversed(e, g, Triple(X, LIES_IN, Y))
            && Supported(e, g, Triple(X, RDF_TYPE, CITY)) && Supported(e, g, Triple(Y, RDF_TYPE, COUNTRY))
  {
    hide ExampleGraph, HasClass;
    ExampleClasses();
    ExampleTypes();
  }

  lemma ExampleTypes()
    ensures Triple(X, RDF_TYPE, CITY) in ExampleGraph() && Triple(Y, RDF_TYPE, COUNTRY) in ExampleGraph()
  {
  }

  /** The example's edge runs from the second-listed class to the first. It is lost: a solution over the
      endpoint is none over what comes back. Its reversal comes back instead, and with it a solution that
      the endpoint does not have. */
  lemma LaterToEarlierEdgeIsTurned()
    ensures var g, b := ExampleGraph(), ExampleBinding();
            && Solves(b, ExampleQuery(BInA()), InUnion([g]))
            && !Solves(b, ExampleQuery(BInA()), Returned("", ExampleQuery(BInA()), [g]))
            && Solves(b, ExampleQuery(AInB()), Returned("", ExampleQuery(AInB()), [g]))
            && !Solves(b, ExampleQuery(AInB()), InUnion([g]))
  {
    hide Retrieved, Supported, Reversed, Entities, HasClass;
    var g, b := ExampleGraph(), ExampleBinding();
    assert [g][0] == g;
    assert Instance(b, BInA()) == Triple(Y, LIES_IN, X) && BInA() in ExampleQuery(BInA());
    assert Instance(b, AInB()) == Triple(X, LIES_IN, Y) && AInB() in ExampleQuery(AInB());
    ExampleTriples();
    ExampleClasses();
    ExampleRetrieved(BInA(), Triple(Y, LIES_IN, X));
    ExampleRetrieved(AInB(), Triple(X, LIES_IN, Y));
    ExampleRetrieved(AInB(), Triple(X, RDF_TYPE, CITY));
    ExampleRetrieved(AInB(), Triple(Y, RDF_TYPE, COUNTRY));
  }

  // ---------------------------------------------------------------- after the merge

  ghost function InGraph(g: Graph): Triple -> bool {
    t => t in g
  }

  /** What a query's inputs are before they are merged. */
  function Inputs(prefix: string, patterns: seq<Pattern>, endpoints: seq<Graph>): seq<Graph> {
    var qs := Partition(prefix, patterns);
    seq(|qs|, i requires 0 <= i < |qs| => Joined(qs[i], endpoints))
  }

  lemma InputsAreRetrieved(prefix: string, patterns: seq<Pattern>, endpoints: seq<Graph>, t: Triple)
    ensures t in Union(Inputs(prefix, patterns, endpoints)) <==> Retrieved(prefix, patterns, endpoints, t)
  {
    hide Partition, Joined;
    var qs, inputs := Partition(prefix, patterns), Inputs(prefix, patterns, endpoints);
    if q :| q in qs && t in Joined(q, endpoints) {
      var i :| 0 <= i < |qs| && qs[i] == q;
      assert t in inputs[i];
    }
  }

  /** No subquery constructs a predicate that no endpoint uses. */
  lemma PredicatesAreKept(q: SubQuery, endpoints: seq<Graph>, t: Triple)
    requires t in Joined(q, endpoints)
    requires forall k, t' :: 0 <= k < |endpoints| && t' in endpoints[k] ==> t'.p != TYPE_TAG
    ensures t.p != TYPE_TAG
  {
    hide Joined, HasClass;
    JoinedHolds(q, endpoints, t);
    var k :| 0 <= k < |endpoints| && Constructs(q, endpoints[k], t);
    assert t in endpoints[k] || Flip(t) in endpoints[k];
  }

  /** Over endpoints that type their data with full names only, merging changes nothing: the merged graph has
      exactly the solutions of what came back. */
  lemma MergeOfTypedDataIsUnion(lower: string -> string, prefix: string, patterns: seq<Pattern>, endpoints: seq<Graph>,
                                g: Graph, b: Binding)
    requires Inputs(prefix, patterns, endpoints) != [] && MergesTo(lower, Inputs(prefix, patterns, endpoints), g)
    requires forall k, t :: 0 <= k < |endpoints| && t in endpoints[k] ==> t.p != TYPE_TAG
    ensures Solves(b, patterns, InGraph(g)) <==> Solves(b, patterns, Returned(prefix, patterns, endpoints))
  {
    hide Partition, Joined, MergesTo, Retrieved;
    var inputs := Inputs(prefix, patterns, endpoints);
    forall i, t: Triple | 0 <= i < |inputs| && t in inputs[i] ensures t.p != TYPE_TAG {
      PredicatesAreKept(Partition(prefix, patterns)[i], endpoints, t);
    }
    UntypedInputsAreUnited(lower, inputs, g);
    forall t ensures t in g <==> Retrieved(prefix, patterns, endpoints, t) {
      InputsAreRetrieved(prefix, patterns, endpoints, t);
    }
  }

  /** The solution with replaced subjects renamed. */
  function Renamed(m: map<Term, Term>, b: Binding): Binding {
    map x | x in b :: if b[x] in m then m[b[x]] else b[x]
  }

  /** Where subjects are replaced, a solution over both graphs is, renamed, one over the merged graph, as long as it
      binds no variable at an object or predicate to a replaced subject, and the query names none as a subject. */
  lemma RenamedSolution(m: map<Term, Term>, g1: Graph, g2: Graph, patterns: seq<Pattern>, b: Binding)
    requires Solves(b, patterns, InGraph(g1 + g2))
    requires forall pat :: pat in patterns ==>
      && (pat.s.Const? ==> pat.s.term !in m)
      && (pat.p.Var? ==> b[pat.p.name] !in m) && (pat.o.Var? ==> b[pat.o.name] !in m)
    ensures Solves(Renamed(m, b), patterns, InGraph(Rewritten(m, g1) + Rewritten(m, g2)))
  {
    forall pat | pat in patterns
      ensures Instance(Renamed(m, b), pat) in Rewritten(m, g1) + Rewritten(m, g2)
    {
      assert Instance(Renamed(m, b), pat) == Substitute(m, Instance(b, pat));
    }
  }

  /** A link to a replaced subject is left dangling: the triple that names it as object stays, but no triple has it
      as subject. */
  lemma ReplacedObjectDangles(lower: string -> string, g1: Graph, g2: Graph, m: map<Term, Term>, t: Triple)
    requires Mapping(lower, Countries(g1), Countries(g2), m) && t in g1 + g2 && t.o in m && t.o !in m.Values
    ensures Substitute(m, t) in Rewritten(m, g1) + Rewritten(m, g2) && Substitute(m, t).o == t.o
    ensures t.o !in Subjects(Rewritten(m, g1) + Rewritten(m, g2))
  {
    SubjectSurvives(lower, g1, g2, m, t.o);
  }

  // ---------------------------------------------------------------- the cache

  datatype Query = Query(prefix: string, patterns: seq<Pattern>)

  /** `get_consolidated_triplets`: ask every endpoint in turn. */
  method GetConsolidatedTriplets(q: SubQuery, endpoints: seq<Graph>) returns (g: Graph)
    ensures g == Joined(q, endpoints)
  {
    var data: seq<Graph> := [];
    for i := 0 to |endpoints|
      invariant |data| == i && forall k :: 0 <= k < i ==> data[k] == Answer(q, endpoints[k])
    {
      data := data + [Answer(q, endpoints[i])];
    }
    assert data == seq(|endpoints|, i requires 0 <= i < |endpoints| => Answer(q, endpoints[i]));
    g := JoinTriplets(data);
  }

  ghost predicate CacheHolds(cache: map<SubQuery, Graph>, asked: seq<SubQuery>, endpoints: seq<Graph>) {
    && (forall q :: q in cache ==> cache[q] == Joined(q, endpoints))
    && (forall q :: q in asked <==> q in cache)
    && (forall i, j :: 0 <= i < j < |asked| ==> asked[i] != asked[j])
  }

  /** One query of the cached loop. */
  method CollectInputs(query: Query, endpoints: seq<Graph>, cache0: map<SubQuery, Graph>, asked0: seq<SubQuery>)
    returns (inputs: seq<Graph>, cache: map<SubQuery, Graph>, asked: seq<SubQuery>)
    requires CacheHolds(cache0, asked0, endpoints)
    ensures CacheHolds(cache, asked, endpoints)
    ensures forall q :: q in cache <==> q in cache0 || q in Partition(query.prefix, query.patterns)
    ensures |inputs| == |Partition(query.prefix, query.patterns)|
    ensures forall i :: 0 <= i < |inputs| ==> inputs[i] == Joined(Partition(query.prefix, query.patterns)[i], endpoints)
  {
    hide Partition, Joined;
    var subqueries := PartitionQuery(query.prefix, query.patterns);
    inputs, cache, asked := [], cache0, asked0;
    for i := 0 to |subqueries|
      invariant CacheHolds(cache, asked, endpoints)
      invariant forall q :: q in cache <==> q in cache0 || q in subqueries[..i]
      invariant |inputs| == i && forall k :: 0 <= k < i ==> inputs[k] == Joined(subqueries[k], endpoints)
    {
      var q := subqueries[i];
      if q !in cache {
        var g := GetConsolidatedTriplets(q, endpoints);
        cache := cache[q := g];
        asked := asked + [q];
      }
      assert subqueries[..i + 1] == subqueries[..i] + [q];
      inputs := inputs + [cache[q]];
    }
    assert subqueries[..|subqueries|] == subqueries;
  }

  /** The loop over all queries, with one cache: every query gets what asking all its subqueries afresh would
      give it, and the endpoints are asked each subquery that occurs once. */
  method ProcessQueries(queries: seq<Query>, endpoints: seq<Graph>)
    returns (inputs: seq<seq<Graph>>, asked: seq<SubQuery>)
    ensures |inputs| == |queries|
    ensures forall n :: 0 <= n < |queries| ==>
      |inputs[n]| == |Partition(queries[n].prefix, queries[n].patterns)|
      && forall i :: 0 <= i < |inputs[n]| ==>
         inputs[n][i] == Joined(Partition(queries[n].prefix, queries[n].patterns)[i], endpoints)
    ensures forall i, j :: 0 <= i < j < |asked| ==> asked[i] != asked[j]
    ensures forall q :: q in asked <==>
      exists n :: 0 <= n < |queries| && q in Partition(queries[n].prefix, queries[n].patterns)
  {
    hide Partition, Joined;
    inputs, asked := [], [];
    var cache: map<SubQuery, Graph> := map[];
    for n := 0 to |queries|
      invariant |inputs| == n && CacheHolds(cache, asked, endpoints)
      invariant forall m :: 0 <= m < n ==>
        |inputs[m]| == |Partition(queries[m].prefix, queries[m].patterns)|
        && forall i :: 0 <= i < |inputs[m]| ==>
           inputs[m][i] == Joined(Partition(queries[m].prefix, queries[m].patterns)[i], endpoints)
      invariant forall q :: q in cache <==>
        exists m :: 0 <= m < n && q in Partition(queries[m].prefix, queries[m].patterns)
    {
      var one;
      one, cache, asked := CollectInputs(queries[n], endpoints, cache, asked);
      inputs := inputs + [one];
    }
  }
}
