/**
 Edit distance. `Levenshtein` is the row-by-row computation; `Distance` is the recurrence
 it fills in. The recurrence is proved to be the least number of single-character
 insertions, deletions and substitutions, and to be a metric.
 */
module Levenshtein {

  // ---------------------------------------------------------------- the recurrence

  function Min3(a: nat, b: nat, c: nat): nat {
    if a <= b && a <= c then a else if b <= c then b else c
  }

  function Front<T>(s: seq<T>): seq<T>
    requires s != []
  {
    s[..|s| - 1]
  }

  function Last<T>(s: seq<T>): T
    requires s != []
  {
    s[|s| - 1]
  }

  function Distance<T(==)>(a: seq<T>, b: seq<T>): nat
    decreases |a| + |b|
  {
    if a == [] then |b|
    else if b == [] then |a|
    else Min3(Distance(Front(a), b) + 1,
              Distance(a, Front(b)) + 1,
              Distance(Front(a), Front(b)) + if Last(a) != Last(b) then 1 else 0)
  }

  // ---------------------------------------------------------------- the program

  /** A Python list index: negative indices count from the end. */
  function At(list: seq<nat>, i: int): nat
    requires -|list| <= i < |list|
  {
    if i < 0 then list[|list| + i] else list[i]
  }

  /** Cells 0..upto-1 hold distances to non-empty prefixes of b, and cell -1 the one to the empty prefix. */
  ghost predicate Row(row: seq<nat>, a: string, b: string, upto: nat)
    requires upto <= |b|
  {
    && |row| == |b| + 1
    && At(row, -1) == Distance(a, [])
    && forall y :: 0 <= y < upto ==> row[y] == Distance(a, b[..y + 1])
  }

  lemma DistanceStep<T>(a: seq<T>, b: seq<T>, c: T, d: T)
    ensures Distance(a + [c], b + [d])
         == Min3(Distance(a, b + [d]) + 1, Distance(a + [c], b) + 1, Distance(a, b) + if c != d then 1 else 0)
  {
    assert Front(a + [c]) == a && Front(b + [d]) == b;
  }

  lemma PrefixStep(a: string, b: string, x: nat, y: nat)
    requires x < |a| && y < |b|
    ensures Distance(a[..x + 1], b[..y + 1])
         == Min3(Distance(a[..x], b[..y + 1]) + 1, Distance(a[..x + 1], b[..y]) + 1,
                 Distance(a[..x], b[..y]) + if a[x] != b[y] then 1 else 0)
  {
    hide Distance;
    assert a[..x + 1] == a[..x] + [a[x]] && b[..y + 1] == b[..y] + [b[y]];
    DistanceStep(a[..x], b[..y], a[x], b[y]);
  }

  lemma RowAt(row: seq<nat>, a: string, b: string, upto: nat, y: nat)
    requires y <= upto <= |b| && Row(row, a, b, upto)
    ensures At(row, y - 1) == Distance(a, b[..y])
  {
    assert b[..0] == [];
  }

  lemma EmptyDistance<T>(a: seq<T>)
    ensures Distance(a, []) == |a| && Distance([], a) == |a|
  {
  }

  lemma FirstRow(row: seq<nat>, a: string, b: string)
    requires |row| == |b| + 1 && row[|b|] == 0 && forall y :: 0 <= y < |b| ==> row[y] == y + 1
    ensures Row(row, a[..0], b, |b|)
  {
    assert a[..0] == [];
    forall y | 0 <= y < |b| ensures row[y] == Distance(a[..0], b[..y + 1]) {
      EmptyDistance(b[..y + 1]);
    }
  }

  method Levenshtein(seq1: string, seq2: string) returns (d: nat)
    ensures d == Distance(seq1, seq2)
  {
    hide Distance;
    var thisrow: seq<nat> := seq(|seq2|, i requires i >= 0 => i + 1) + [0];
    FirstRow(thisrow, seq1, seq2);
    for x := 0 to |seq1|
      invariant Row(thisrow, seq1[..x], seq2, |seq2|)
    {
      var oneago := thisrow;
      thisrow := seq<nat>(|seq2|, _ => 0) + [x + 1];
      EmptyDistance(seq1[..x + 1]);
      for y := 0 to |seq2|
        invariant Row(thisrow, seq1[..x + 1], seq2, y)
      {
        RowAt(oneago, seq1[..x], seq2, |seq2|, y);
        RowAt(thisrow, seq1[..x + 1], seq2, y, y);
        PrefixStep(seq1, seq2, x, y);
        var delcost := At(oneago, y) + 1;
        var addcost := At(thisrow, y - 1) + 1;
        var subcost := At(oneago, y - 1) + if seq1[x] != seq2[y] then 1 else 0;
        thisrow := thisrow[y := Min3(delcost, addcost, subcost)];
      }
    }
    assert seq1[..|seq1|] == seq1 && seq2[..|seq2|] == seq2;
    RowAt(thisrow, seq1, seq2, |seq2|, |seq2|);
    d := At(thisrow, |seq2| - 1);
  }

  // ---------------------------------------------------------------- alignments

  datatype Op<T> = Keep(c: T) | Change(c: T, d: T) | Insert(d: T) | Delete(c: T)

  /** Operations from left to right, turning `Source` into `Target`. */
  datatype Alignment<T> = Empty | Then(front: Alignment<T>, op: Op<T>)

  ghost function Source<T>(t: Alignment<T>): seq<T> {
    match t
    case Empty => []
    case Then(front, Insert(_)) => Source(front)
    case Then(front, op) => Source(front) + [op.c]
  }

  ghost function Target<T>(t: Alignment<T>): seq<T> {
    match t
    case Empty => []
    case Then(front, Delete(_)) => Target(front)
    case Then(front, Keep(c)) => Target(front) + [c]
    case Then(front, op) => Target(front) + [op.d]
  }

  ghost function Cost<T>(t: Alignment<T>): nat {
    match t
    case Empty => 0
    case Then(front, op) => Cost(front) + if op.Keep? then 0 else 1
  }

  lemma AppendSteps<T>(a: seq<T>, b: seq<T>, c: T, d: T)
    ensures Distance(a + [c], b) <= Distance(a, b) + 1
    ensures Distance(a, b + [d]) <= Distance(a, b) + 1
    ensures Distance(a + [c], b + [d]) <= Distance(a, b) + if c == d then 0 else 1
  {
    assert Front(a + [c]) == a && Front(b + [d]) == b;
  }

  /** No alignment is cheaper than the distance. */
  lemma {:induction false} NoCheaperAlignment<T>(t: Alignment<T>)
    ensures Distance(Source(t), Target(t)) <= Cost(t)
  {
    hide Distance;
    match t
    case Empty =>
      EmptyDistance<T>([]);
    case Then(front, op) =>
      NoCheaperAlignment(front);
      var a, b := Source(front), Target(front);
      match op {
        case Keep(c) => AppendSteps(a, b, c, c);
        case Change(c, d) => AppendSteps(a, b, c, d);
        case Insert(d) => AppendSteps(a, b, d, d);
        case Delete(c) => AppendSteps(a, b, c, c);
      }
  }

  lemma SplitLast<T>(s: seq<T>)
    requires s != []
    ensures s == Front(s) + [Last(s)]
  {
  }

  /** Some alignment costs exactly the distance. */
  lemma {:induction false} BestAlignment<T>(a: seq<T>, b: seq<T>) returns (t: Alignment<T>)
    ensures Source(t) == a && Target(t) == b && Cost(t) == Distance(a, b)
    decreases |a| + |b|
  {
    if a == [] && b == [] {
      t := Empty;
    } else if a == [] || (b != [] && Distance(a, b) == Distance(a, Front(b)) + 1) {
      t := BestAlignment(a, Front(b));
      t := Then(t, Insert(Last(b)));
      SplitLast(b);
    } else if b == [] || Distance(a, b) == Distance(Front(a), b) + 1 {
      t := BestAlignment(Front(a), b);
      t := Then(t, Delete(Last(a)));
      SplitLast(a);
    } else {
      t := BestAlignment(Front(a), Front(b));
      t := Then(t, if Last(a) == Last(b) then Keep(Last(a)) else Change(Last(a), Last(b)));
      SplitLast(a);
      SplitLast(b);
    }
  }

  /** Two alignments meeting in the middle combine into one that costs no more than both. */
  lemma {:induction false} Combine<T>(s: Alignment<T>, t: Alignment<T>) returns (r: Alignment<T>)
    requires Target(s) == Source(t)
    ensures Source(r) == Source(s) && Target(r) == Target(t) && Cost(r) <= Cost(s) + Cost(t)
    decreases s, t
  {
    if s.Then? && s.op.Delete? {
      r := Combine(s.front, t);
      r := Then(r, s.op);
    } else if t.Then? && t.op.Insert? {
      r := Combine(s, t.front);
      r := Then(r, t.op);
    } else if s.Empty? || t.Empty? {
      assert s.Then? ==> Target(s) != [];
      assert t.Then? ==> Source(t) != [];
      r := Empty;
    } else {
      assert Front(Target(s)) == Target(s.front) && Front(Source(t)) == Source(t.front);
      r := Combine(s.front, t.front);
      match s.op {
        case Keep(_) => r := Then(r, t.op);
        case Insert(_) =>
          match t.op {
            case Delete(_) =>
            case Keep(d) => r := Then(r, Insert(d));
            case Change(_, d) => r := Then(r, Insert(d));
          }
        case Change(c, _) =>
          match t.op {
            case Delete(_) => r := Then(r, Delete(c));
            case Keep(d) => r := Then(r, Change(c, d));
            case Change(_, d) => r := Then(r, Change(c, d));
          }
      }
    }
  }

  // ---------------------------------------------------------------- a metric

  lemma {:induction false} ZeroIffEqual<T>(a: seq<T>, b: seq<T>)
    ensures Distance(a, b) == 0 <==> a == b
    decreases |a| + |b|
  {
    if a != [] && b != [] {
      ZeroIffEqual(Front(a), Front(b));
      SplitLast(a);
      SplitLast(b);
    }
  }

  lemma {:induction false} Symmetric<T>(a: seq<T>, b: seq<T>)
    ensures Distance(a, b) == Distance(b, a)
    decreases |a| + |b|
  {
    if a != [] && b != [] {
      Symmetric(Front(a), b);
      Symmetric(a, Front(b));
      Symmetric(Front(a), Front(b));
    }
  }

  lemma {:induction false} Triangle<T>(a: seq<T>, b: seq<T>, c: seq<T>)
    ensures Distance(a, c) <= Distance(a, b) + Distance(b, c)
  {
    var s := BestAlignment(a, b);
    var t := BestAlignment(b, c);
    var r := Combine(s, t);
    NoCheaperAlignment(r);
  }

  lemma {:induction false} Bounds<T>(a: seq<T>, b: seq<T>)
    ensures |a| - |b| <= Distance(a, b) && |b| - |a| <= Distance(a, b)
    ensures Distance(a, b) <= |a| || Distance(a, b) <= |b|
    decreases |a| + |b|
  {
    if a != [] && b != [] {
      Bounds(Front(a), b);
      Bounds(a, Front(b));
      Bounds(Front(a), Front(b));
    }
  }

  // ---------------------------------------------------------------- edit scripts

  /** One edit at a position of the current sequence. */
  datatype Edit<T> = InsertAt(i: nat, c: T) | DeleteAt(i: nat) | SubstituteAt(i: nat, c: T)

  ghost predicate Fits<T>(a: seq<T>, e: Edit<T>) {
    if e.InsertAt? then e.i <= |a| else e.i < |a|
  }

  ghost function Edited<T>(a: seq<T>, e: Edit<T>): seq<T>
    requires Fits(a, e)
  {
    match e
    case InsertAt(i, c) => a[..i] + [c] + a[i..]
    case DeleteAt(i) => a[..i] + a[i + 1..]
    case SubstituteAt(i, c) => a[i := c]
  }

  /** The edits, applied one after the other, turn a into b. */
  ghost predicate Turns<T>(a: seq<T>, edits: seq<Edit<T>>, b: seq<T>)
    decreases |edits|
  {
    if edits == [] then a == b else Fits(a, edits[0]) && Turns(Edited(a, edits[0]), edits[1..], b)
  }

  ghost function KeepAll<T>(t: Alignment<T>, s: seq<T>): Alignment<T>
    decreases |s|
  {
    if s == [] then t else KeepAll(Then(t, Keep(s[0])), s[1..])
  }

  lemma {:induction false} KeepAllAligns<T>(t: Alignment<T>, s: seq<T>)
    ensures Source(KeepAll(t, s)) == Source(t) + s && Target(KeepAll(t, s)) == Target(t) + s
      && Cost(KeepAll(t, s)) == Cost(t)
    decreases |s|
  {
    if s != [] {
      KeepAllAligns(Then(t, Keep(s[0])), s[1..]);
      assert Source(t) + s == Source(t) + [s[0]] + s[1..];
      assert Target(t) + s == Target(t) + [s[0]] + s[1..];
    } else {
      assert Source(t) + s == Source(t) && Target(t) + s == Target(t);
    }
  }

  ghost function OpSource<T>(op: Op<T>): seq<T> { if op.Insert? then [] else [op.c] }

  ghost function OpTarget<T>(op: Op<T>): seq<T> {
    match op
    case Keep(c) => [c]
    case Delete(_) => []
    case Change(_, d) => [d]
    case Insert(d) => [d]
  }

  lemma OneOp<T>(p: seq<T>, op: Op<T>, q: seq<T>)
    ensures Distance(p + OpSource(op) + q, p + OpTarget(op) + q) <= 1
  {
    hide Distance;
    var t := KeepAll(Empty, p);
    KeepAllAligns(Empty, p);
    assert [] + p == p;
    KeepAllAligns(Then(t, op), q);
    assert Source(Then(t, op)) == p + OpSource(op) && Target(Then(t, op)) == p + OpTarget(op);
    NoCheaperAlignment(KeepAll(Then(t, op), q));
  }

  lemma OneEdit<T>(a: seq<T>, e: Edit<T>)
    requires Fits(a, e)
    ensures Distance(a, Edited(a, e)) <= 1
  {
    hide Distance;
    match e {
      case InsertAt(i, c) =>
        OneOp(a[..i], Insert(c), a[i..]);
        assert a == a[..i] + [] + a[i..];
      case DeleteAt(i) =>
        OneOp(a[..i], Delete(a[i]), a[i + 1..]);
        assert a == a[..i] + [a[i]] + a[i + 1..] && a[..i] + a[i + 1..] == a[..i] + [] + a[i + 1..];
      case SubstituteAt(i, c) =>
        OneOp(a[..i], Change(a[i], c), a[i + 1..]);
        assert a == a[..i] + [a[i]] + a[i + 1..] && a[i := c] == a[..i] + [c] + a[i + 1..];
    }
  }

  /** No edit script is shorter than the distance. */
  lemma {:induction false} NoShorterScript<T>(a: seq<T>, edits: seq<Edit<T>>, b: seq<T>)
    requires Turns(a, edits, b)
    ensures Distance(a, b) <= |edits|
    decreases |edits|
  {
    if edits == [] {
      ZeroIffEqual(a, b);
    } else {
      var a' := Edited(a, edits[0]);
      OneEdit(a, edits[0]);
      NoShorterScript(a', edits[1..], b);
      Triangle(a, a', b);
    }
  }

  lemma {:induction false} TurnsWithSuffix<T>(a: seq<T>, edits: seq<Edit<T>>, b: seq<T>, s: seq<T>)
    requires Turns(a, edits, b)
    ensures Turns(a + s, edits, b + s)
    decreases |edits|
  {
    if edits != [] {
      TurnsWithSuffix(Edited(a, edits[0]), edits[1..], b, s);
      EditedWithSuffix(a, edits[0], s);
    }
  }

  lemma EditedWithSuffix<T>(a: seq<T>, e: Edit<T>, s: seq<T>)
    requires Fits(a, e)
    ensures Fits(a + s, e) && Edited(a + s, e) == Edited(a, e) + s
  {
    match e {
      case InsertAt(i, c) => assert (a + s)[..i] == a[..i] && (a + s)[i..] == a[i..] + s;
      case DeleteAt(i) => assert (a + s)[..i] == a[..i] && (a + s)[i + 1..] == a[i + 1..] + s;
      case SubstituteAt(i, c) =>
    }
  }

  /** An alignment as an edit script, last operation first. */
  lemma {:induction false} ScriptOf<T>(t: Alignment<T>) returns (edits: seq<Edit<T>>)
    ensures Turns(Source(t), edits, Target(t)) && |edits| == Cost(t)
  {
    match t
    case Empty =>
      edits := [];
    case Then(front, op) =>
      var rest := ScriptOf(front);
      var a, b := Source(front), Target(front);
      match op {
        case Keep(c) =>
          TurnsWithSuffix(a, rest, b, [c]);
          edits := rest;
        case Change(c, d) =>
          TurnsWithSuffix(a, rest, b, [d]);
          edits := [SubstituteAt(|a|, d)] + rest;
          assert Edited(a + [c], edits[0]) == a + [d];
        case Insert(d) =>
          TurnsWithSuffix(a, rest, b, [d]);
          edits := [InsertAt(|a|, d)] + rest;
          assert Edited(a, edits[0]) == a + [d];
        case Delete(c) =>
          edits := [DeleteAt(|a|)] + rest;
          assert Edited(a + [c], edits[0]) == a;
      }
      assert edits != rest ==> edits[1..] == rest;
  }

  /** Some edit script is exactly as long as the distance. */
  lemma ShortestScript<T>(a: seq<T>, b: seq<T>) returns (edits: seq<Edit<T>>)
    ensures Turns(a, edits, b) && |edits| == Distance(a, b)
  {
    var t := BestAlignment(a, b);
    edits := ScriptOf(t);
  }
}
