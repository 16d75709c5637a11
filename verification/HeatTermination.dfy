/**
 Over real numbers the heat programs always stop: one iteration brings two grids with the
 same boundary closer together by a fixed factor, so the changes from one iteration to the
 next, and with them the residuals, go to zero.
 */
module HeatTermination {
  import opened Grids
  import opened RowMajor
  import opened Blocks
  import opened HeatSequential
  import opened MaximumPrinciple
  import opened Solver

  // ---------------------------------------------------------------- a bound for each row

  /** 0 on the boundary rows, and concave between them. */
  function Weight(n: nat, i: nat): int {
    i * (n - 1 - i)
  }

  lemma WeightFacts(n: nat, i: nat)
    requires i < n
    ensures 0 <= Weight(n, i) <= n * n
    ensures 1 <= i && i + 1 < n ==> Weight(n, i) >= 1
    ensures 1 <= i && i + 1 < n ==> Weight(n, i - 1) + Weight(n, i + 1) == 2 * Weight(n, i) - 2
  {
    ProductRange(i, n - 1 - i, n);
    if 1 <= i && i + 1 < n {
      NeighbourProducts(i, n - 1 - i);
      assert n - 1 - (i - 1) == n - 1 - i + 1 && n - 1 - (i + 1) == n - 1 - i - 1;
    }
  }

  lemma ProductRange(a: nat, b: nat, n: nat)
    requires a <= n && b <= n
    ensures 0 <= a * b <= n * n
    ensures a >= 1 && b >= 1 ==> a * b >= 1
  {
    assert a * b <= n * b;
    assert n * b <= n * n;
  }

  lemma NeighbourProducts(a: int, b: int)
    ensures (a - 1) * (b + 1) + (a + 1) * (b - 1) == 2 * (a * b) - 2
  {
  }

  /** What one iteration takes off, as a fraction. */
  function Rate(n: nat): real
    requires n > 0
  {
    assert n * n > 0;
    1.0 / (2 * (n * n)) as real
  }

  lemma RateFacts(n: nat, i: nat)
    requires i < n
    ensures 0.0 < Rate(n) <= 0.5
    ensures Times(Rate(n), Weight(n, i) as real) <= 0.5
  {
    WeightFacts(n, i);
    var q := n * n;
    assert q >= 1;
    RateOf(q, Weight(n, i));
  }

  lemma RateOf(q: int, w: int)
    requires q >= 1 && 0 <= w <= q
    ensures 0.0 < 1.0 / (2 * q) as real <= 0.5
    ensures Times(1.0 / (2 * q) as real, w as real) <= 0.5
  {
    var x := (2 * q) as real;
    var p := 1.0 / x;
    assert p * x == 1.0;
    assert x >= 2.0 && w as real * 2.0 <= x;
    assert p > 0.0;
    assert p * (w as real * 2.0) <= p * x;
    assert p * 2.0 <= p * x;
  }

  function Bound(n: nat, s: real, i: nat): real {
    Times(s, Weight(n, i) as real)
  }

  function Shrunk(n: nat, s: real): real
    requires n > 0
  {
    Times(s, 1.0 - Rate(n))
  }

  /** The mean of the neighbours' bounds is within the shrunk bound. */
  lemma BoundShrinks(n: nat, s: real, i: nat)
    requires s >= 0.0 && i < n
    ensures 0.0 <= Shrunk(n, s) <= s && 0.0 <= Bound(n, Shrunk(n, s), i) <= Bound(n, s, i)
    ensures 1 <= i && i + 1 < n ==>
      0.25 * (Bound(n, s, i) + Bound(n, s, i) + Bound(n, s, i - 1) + Bound(n, s, i + 1)) <= Bound(n, Shrunk(n, s), i)
  {
    RateFacts(n, i);
    WeightFacts(n, i);
    ShrunkBound(s, Rate(n), Weight(n, i) as real);
    if 1 <= i && i + 1 < n {
      MeanBound(s, Rate(n), Weight(n, i) as real, Weight(n, i - 1) as real, Weight(n, i + 1) as real);
    }
  }

  lemma ShrunkBound(s: real, p: real, w: real)
    requires s >= 0.0 && 0.0 < p <= 0.5 && w >= 0.0
    ensures 0.0 <= Times(s, 1.0 - p) <= s
    ensures 0.0 <= Times(Times(s, 1.0 - p), w) <= Times(s, w)
  {
    var r := Times(s, 1.0 - p);
    assert r == s - s * p && s * p >= 0.0;
    assert s * (1.0 - p) >= 0.0;
    assert r * w >= 0.0 && (s - r) * w >= 0.0;
  }

  lemma MeanBound(s: real, p: real, w: real, above: real, below: real)
    requires s >= 0.0 && above + below == 2.0 * w - 2.0 && Times(p, w) <= 0.5
    ensures 0.25 * (Times(s, w) + Times(s, w) + Times(s, above) + Times(s, below)) <= Times(Times(s, 1.0 - p), w)
  {
    assert s * above + s * below == s * (2.0 * w - 2.0) == 2.0 * (s * w) - 2.0 * s;
    assert s * (1.0 - p) * w == s * w - s * (p * w);
    assert s * (p * w) <= s * 0.5;
  }

  // ---------------------------------------------------------------- one iteration

  /** The grids differ by no more than the row's bound. */
  ghost predicate Close(g: Grid<real>, g': Grid<real>, n: nat, s: real)
    requires Rect(g, n, n) && Rect(g', n, n)
  {
    forall i: nat, j: nat :: i < n && j < n ==> Near(g[i][j], g'[i][j], Bound(n, s, i))
  }

  predicate Near(x: real, y: real, e: real) {
    -e <= x - y <= e
  }

  lemma MeanIsNear(n: nat, s: real, i: nat, l: real, l': real, r: real, r': real, t: real, t': real, b: real, b': real)
    requires s >= 0.0 && 1 <= i && i + 1 < n
    requires Near(l, l', Bound(n, s, i)) && Near(r, r', Bound(n, s, i))
    requires Near(t, t', Bound(n, s, i - 1)) && Near(b, b', Bound(n, s, i + 1))
    ensures Near(Heat5().mean(l, r, t, b), Heat5().mean(l', r', t', b'), Bound(n, Shrunk(n, s), i))
  {
    BoundShrinks(n, s, i);
    hide Bound, Shrunk;
  }

  lemma NearerIsNear(x: real, y: real, n: nat, s: real, i: nat)
    requires s >= 0.0 && i < n && Near(x, y, Bound(n, Shrunk(n, s), i))
    ensures Near(x, y, Bound(n, s, i))
  {
    BoundShrinks(n, s, i);
  }

  /** After a sweep relaxed cells are closer, and the others as they were. */
  lemma {:induction false} ValueShrinks(g: Grid<real>, g': Grid<real>, n: nat, m: set<Cell>, s: real, i: nat, j: nat)
    requires Rect(g, n, n) && Rect(g', n, n) && Interior(m, n, n) && s >= 0.0 && Close(g, g', n, s) && i < n && j < n
    ensures var v, v' := Value(Heat5(), g, n, n, m, i, j), Value(Heat5(), g', n, n, m, i, j);
      Near(v, v', Bound(n, s, i)) && (Cell(i, j) in m ==> Near(v, v', Bound(n, Shrunk(n, s), i)))
    decreases i, j
  {
    hide Bound, Shrunk, Near, Heat5;
    if Cell(i, j) in m {
      ValueShrinks(g, g', n, m, s, i, j - 1);
      ValueShrinks(g, g', n, m, s, i - 1, j);
      MeanIsNear(n, s, i, Value(Heat5(), g, n, n, m, i, j - 1), Value(Heat5(), g', n, n, m, i, j - 1),
                 g[i][j + 1], g'[i][j + 1],
                 Value(Heat5(), g, n, n, m, i - 1, j), Value(Heat5(), g', n, n, m, i - 1, j),
                 g[i + 1][j], g'[i + 1][j]);
      NearerIsNear(Value(Heat5(), g, n, n, m, i, j), Value(Heat5(), g', n, n, m, i, j), n, s, i);
    }
  }

  ghost predicate CloserOn(g: Grid<real>, g': Grid<real>, n: nat, s: real, m: set<Cell>)
    requires n > 0 && Rect(g, n, n) && Rect(g', n, n)
  {
    forall i: nat, j: nat :: i < n && j < n && Cell(i, j) in m ==> Near(g[i][j], g'[i][j], Bound(n, Shrunk(n, s), i))
  }

  lemma SweepShrinks(g: Grid<real>, g': Grid<real>, n: nat, m: set<Cell>, s: real)
    requires n > 0 && Rect(g, n, n) && Rect(g', n, n) && Interior(m, n, n) && s >= 0.0 && Close(g, g', n, s)
    ensures var r, r' := Sweep(Heat5(), g, n, n, m), Sweep(Heat5(), g', n, n, m);
      Close(r, r', n, s) && CloserOn(r, r', n, s, m)
  {
    hide Bound, Shrunk, Near, Heat5;
    forall i: nat, j: nat | i < n && j < n
      ensures var v, v' := Value(Heat5(), g, n, n, m, i, j), Value(Heat5(), g', n, n, m, i, j);
        Near(v, v', Bound(n, s, i)) && (Cell(i, j) in m ==> Near(v, v', Bound(n, Shrunk(n, s), i)))
    {
      ValueShrinks(g, g', n, m, s, i, j);
    }
  }

  lemma JacobiShrinks(g: Grid<real>, g': Grid<real>, n: nat, m: set<Cell>, s: real)
    requires n > 0 && Rect(g, n, n) && Rect(g', n, n) && Interior(m, n, n) && s >= 0.0 && Close(g, g', n, s)
    ensures CloserOn(Jacobi(Heat5(), g, g, n, n, m), Jacobi(Heat5(), g', g', n, n, m), n, s, m)
  {
    hide Bound, Shrunk, Near, Heat5;
    forall i: nat, j: nat | i < n && j < n && Cell(i, j) in m
      ensures Near(JacobiValue(Heat5(), g, g, n, n, m, i, j), JacobiValue(Heat5(), g', g', n, n, m, i, j),
                   Bound(n, Shrunk(n, s), i))
    {
      MeanIsNear(n, s, i, g[i][j - 1], g'[i][j - 1], g[i][j + 1], g'[i][j + 1],
                 g[i - 1][j], g'[i - 1][j], g[i + 1][j], g'[i + 1][j]);
    }
  }

  lemma RedBlackShrinks(g: Grid<real>, g': Grid<real>, n: nat, red: set<Cell>, black: set<Cell>, s: real)
    requires n > 0 && Rect(g, n, n) && Rect(g', n, n) && Interior(red, n, n) && Interior(black, n, n) && red !! black
    requires s >= 0.0 && Close(g, g', n, s)
    ensures CloserOn(Sweep(Heat5(), Sweep(Heat5(), g, n, n, red), n, n, black),
                     Sweep(Heat5(), Sweep(Heat5(), g', n, n, red), n, n, black), n, s, red + black)
  {
    hide Bound, Shrunk, Near, Heat5;
    var r, r' := Sweep(Heat5(), g, n, n, red), Sweep(Heat5(), g', n, n, red);
    SweepShrinks(g, g', n, red, s);
    SweepShrinks(r, r', n, black, s);
    UnsweptCells(r, n, black);
    UnsweptCells(r', n, black);
  }

  lemma UnsweptCells(g: Grid<real>, n: nat, m: set<Cell>)
    requires Rect(g, n, n) && Interior(m, n, n)
    ensures forall i: nat, j: nat :: i < n && j < n && Cell(i, j) !in m ==> Sweep(Heat5(), g, n, n, m)[i][j] == g[i][j]
  {
  }

  /** One iteration of any solver brings two grids that agree outside the swept rectangle closer together. */
  lemma NextShrinks(alg: Algorithm, g: Grid<real>, g': Grid<real>, n: nat, s: real)
    requires n >= 2 && Rect(g, n, n) && Rect(g', n, n) && s >= 0.0 && Close(g, g', n, s)
    requires SameOutside(g, g', n, n, Swept(PartitionOf(alg, n)))
    ensures Close(Next(Heat5(), alg, g, n), Next(Heat5(), alg, g', n), n, Shrunk(n, s))
    ensures SameOutside(Next(Heat5(), alg, g, n), Next(Heat5(), alg, g', n), n, n, Swept(PartitionOf(alg, n)))
  {
    var m := Swept(PartitionOf(alg, n));
    NextOutside(alg, g, n);
    NextOutside(alg, g', n);
    NextCloser(alg, g, g', n, s);
    hide Bound, Shrunk, Heat5, Next;
    var r, r' := Next(Heat5(), alg, g, n), Next(Heat5(), alg, g', n);
    forall i: nat, j: nat | i < n && j < n ensures Near(r[i][j], r'[i][j], Bound(n, Shrunk(n, s), i)) {
      BoundShrinks(n, s, i);
    }
  }

  lemma NextCloser(alg: Algorithm, g: Grid<real>, g': Grid<real>, n: nat, s: real)
    requires n >= 2 && Rect(g, n, n) && Rect(g', n, n) && s >= 0.0 && Close(g, g', n, s)
    ensures CloserOn(Next(Heat5(), alg, g, n), Next(Heat5(), alg, g', n), n, s, Swept(PartitionOf(alg, n)))
  {
    hide CloserOn, Close, Heat5, Swept, Sweep, Jacobi;
    PartitionValid(alg, n);
    var p := PartitionOf(alg, n);
    match alg {
      case JacobiSolver =>
        JacobiShrinks(g, g', n, Swept(p), s);
      case GaussSolver =>
        SweepShrinks(g, g', n, Swept(p), s);
      case RedBlackSolver =>
        ColoursPartition(p);
        RedBlackShrinks(g, g', n, Cover(p, ColourIds(p, 0)), Cover(p, ColourIds(p, 1)), s);
    }
  }

  lemma NextOutside(alg: Algorithm, g: Grid<real>, n: nat)
    requires n >= 2 && Rect(g, n, n)
    ensures SameOutside(g, Next(Heat5(), alg, g, n), n, n, Swept(PartitionOf(alg, n)))
  {
    var hi := SomeRange(g, n, n);
    NextInRange(alg, g, n, -hi, hi);
  }

  lemma {:induction false} RowRange(row: seq<real>) returns (hi: real)
    ensures hi >= 0.0 && forall j :: 0 <= j < |row| ==> -hi <= row[j] <= hi
  {
    if row == [] {
      hi := 0.0;
    } else {
      var x := row[|row| - 1];
      hi := RowRange(row[..|row| - 1]);
      hi := if x > hi then x else if -x > hi then -x else hi;
    }
  }

  lemma {:induction false} SomeRange(g: Grid<real>, h: nat, w: nat) returns (hi: real)
    requires Rect(g, h, w)
    ensures hi >= 0.0 && InRange(g, h, w, -hi, hi)
  {
    if h == 0 {
      hi := 0.0;
    } else {
      hi := SomeRange(g[..h - 1], h - 1, w);
      var x := RowRange(g[h - 1]);
      hi := if x > hi then x else hi;
    }
  }

  // ---------------------------------------------------------------- all iterations

  /** How far iterations t and t + 1 can be apart. */
  function Scale(n: nat, s: real, t: nat): real
    requires n > 0
  {
    if t == 0 then s else Shrunk(n, Scale(n, s, t - 1))
  }

  lemma {:induction false} ScaleDecays(n: nat, s: real, t: nat)
    requires n > 0 && s >= 0.0
    ensures Scale(n, s, t) >= 0.0
    ensures Times(Scale(n, s, t), 1.0 + Times(Rate(n), t as real)) <= s
  {
    RateFacts(n, 0);
    if t > 0 {
      ScaleDecays(n, s, t - 1);
      BoundShrinks(n, Scale(n, s, t - 1), 0);
      DecayStep(Scale(n, s, t - 1), Rate(n), (t - 1) as real);
      assert t as real == (t - 1) as real + 1.0;
    }
  }

  lemma DecayStep(x: real, p: real, t: real)
    requires x >= 0.0 && p > 0.0 && t >= 0.0
    ensures Times(Times(x, 1.0 - p), 1.0 + Times(p, t + 1.0)) <= Times(x, 1.0 + Times(p, t))
  {
    var d := p * p * (t + 1.0);
    assert (1.0 - p) * (1.0 + p * (t + 1.0)) == 1.0 + p * t - d;
    assert d >= 0.0;
    assert x * (1.0 - p) * (1.0 + p * (t + 1.0)) == x * ((1.0 - p) * (1.0 + p * (t + 1.0)));
    assert x * (1.0 + p * t - d) == x * (1.0 + p * t) - x * d;
  }

  lemma {:induction false} IteratesClose(alg: Algorithm, g: Grid<real>, n: nat, s: real, t: nat)
    requires n >= 2 && Rect(g, n, n) && s >= 0.0 && Close(g, Next(Heat5(), alg, g, n), n, s)
    ensures Scale(n, s, t) >= 0.0
    ensures var a, b := Iterate(Heat5(), alg, g, n, t), Iterate(Heat5(), alg, g, n, t + 1);
      Close(a, b, n, Scale(n, s, t)) && SameOutside(a, b, n, n, Swept(PartitionOf(alg, n)))
  {
    hide Close, SameOutside, Next, Heat5, Shrunk;
    ScaleDecays(n, s, t);
    if t == 0 {
      NextOutside(alg, g, n);
    } else {
      IteratesClose(alg, g, n, s, t - 1);
      NextShrinks(alg, Iterate(Heat5(), alg, g, n, t - 1), Iterate(Heat5(), alg, g, n, t), n, Scale(n, s, t - 1));
    }
  }

  // ---------------------------------------------------------------- residuals go to zero

  lemma SquareWithin(d: real, e: real)
    requires -e <= d <= e
    ensures Times(d, d) <= Times(e, e)
  {
    assert (e - d) * (e + d) >= 0.0;
    assert (e - d) * (e + d) == e * e - d * d;
  }

  lemma OneMore(k: nat, x: real)
    ensures Times((k + 1) as real, x) == Times(k as real, x) + x
  {
    assert (k + 1) as real == k as real + 1.0;
  }

  lemma NearGap(unew: real, u: real, e: real)
    requires Near(u, unew, e)
    ensures Heat5().gap(unew, u) <= Times(e, e)
  {
    hide Times;
    SquareWithin(unew - u, e);
  }

  lemma {:induction false} GapSumBound(g: Grid<real>, r: Grid<real>, h: nat, w: nat, m: set<Cell>, e: real)
    requires Rect(g, h, w) && Rect(r, h, w) && Interior(m, h, w)
    requires forall c :: c in m ==> Near(g[c.i][c.j], r[c.i][c.j], e)
    ensures GapSum(Heat5(), g, r, h, w, m) <= Times(|m| as real, Times(e, e))
  {
    hide Heat5, Times, Near, GapSum;
    if m == {} {
      GapSumNone(Heat5(), g, r, h, w, m);
      ZeroProduct(Times(e, e));
    } else {
      var c :| c in m;
      GapSumTake(Heat5(), g, r, h, w, m, c);
      NearGap(r[c.i][c.j], g[c.i][c.j], e);
      GapSumBound(g, r, h, w, m - {c}, e);
      OneMore(|m - {c}|, Times(e, e));
    }
  }

  lemma BoundWithin(n: nat, s: real, i: nat)
    requires s >= 0.0 && i < n
    ensures Bound(n, s, i) <= Times(s, (n * n) as real)
  {
    WeightFacts(n, i);
    var w, q := Weight(n, i) as real, (n * n) as real;
    assert s * (q - w) >= 0.0;
  }

  /** The residual of an iteration, by how far it moves the grid. */
  lemma ResidualBound(alg: Algorithm, g: Grid<real>, n: nat, s: real)
    requires n >= 2 && Rect(g, n, n) && s >= 0.0 && Close(g, Next(Heat5(), alg, g, n), n, s)
    ensures var e := Times(s, (n * n) as real);
      HeatSequential.Residual(Heat5(), alg, g, n) <= Times(|Swept(PartitionOf(alg, n))| as real, Times(e, e))
  {
    hide Heat5, Times, Next, Swept, Bound;
    PartitionValid(alg, n);
    var e, r, m := Times(s, (n * n) as real), Next(Heat5(), alg, g, n), Swept(PartitionOf(alg, n));
    forall c | c in m ensures Near(g[c.i][c.j], r[c.i][c.j], e) {
      BoundWithin(n, s, c.i);
    }
    GapSumBound(g, r, n, n, m, e);
  }

  /** Some iteration number that leaves the remainder 9 has a scale below any bound. */
  lemma SmallScale(n: nat, s: real, area: real, e: real) returns (t: nat)
    requires n > 0 && s >= 0.0 && area >= 0.0 && e > 0.0
    ensures t % 10 == 9 && 0.0 <= Times(Scale(n, s, t), area) <= e
  {
    hide Times, Rate, Scale;
    RateFacts(n, 0);
    var p := Rate(n);
    PositiveProduct(e, p);
    ProductSign(s, area);
    var far := Times(s, area) / Times(e, p);
    FarFacts(Times(s, area), Times(e, p));
    QuotientSign(Times(s, area), Times(e, p));
    t := TurnsPast(far);
    ScaleDecays(n, s, t);
    FarEnough(Scale(n, s, t), s, area, e, p, t as real, far);
  }

  lemma ProductSign(x: real, y: real)
    requires x >= 0.0 && y >= 0.0
    ensures Times(x, y) >= 0.0
  {
  }

  lemma TurnsPast(x: real) returns (t: nat)
    requires x >= 0.0
    ensures t % 10 == 9 && t as real >= x
  {
    t := 10 * x.Floor + 9;
  }

  lemma QuotientSign(x: real, y: real)
    requires x >= 0.0 && y > 0.0
    ensures x / y >= 0.0 && (x > 0.0 ==> x / y > 0.0)
  {
  }

  lemma FarFacts(x: real, y: real)
    requires y > 0.0
    ensures Times(x / y, y) == x
  {
  }

  lemma FarEnough(x: real, s: real, area: real, e: real, p: real, t: real, far: real)
    requires x >= 0.0 && area >= 0.0 && e > 0.0 && p > 0.0 && t >= far >= 0.0
    requires Times(far, Times(e, p)) == Times(s, area)
    requires Times(x, 1.0 + Times(p, t)) <= s
    ensures 0.0 <= Times(x, area) <= e
  {
    var f := 1.0 + p * t;
    assert p * t >= 0.0;
    assert x * area >= 0.0;
    assert (x * f) * area <= s * area;
    assert (t - far) * (e * p) >= 0.0;
    assert t * (e * p) == e * (p * t);
    assert s * area <= e * (p * t);
    assert e * f == e + e * (p * t);
    assert (x * area) * f == (x * f) * area;
    NoLarger(x * area, e, f);
  }

  lemma NoLarger(x: real, e: real, f: real)
    requires f > 0.0 && Times(x, f) <= Times(e, f)
    ensures x <= e
  {
    if x > e {
      PositiveProduct(x - e, f);
    }
  }

  /** A small enough change makes the residual small enough. */
  lemma SmallResidual(count: nat, d: real, e: real, tolerance: real)
    requires tolerance > 0.0 && 0.0 <= d <= e <= 1.0 && Times(count as real + 1.0, e) < tolerance
    ensures Times(count as real, Times(d, d)) < tolerance
  {
    var k := count as real;
    SquareBelow(d, e);
    assert k * (e - d * d) >= 0.0;
    assert (k + 1.0) * e == k * e + e;
  }

  lemma SquareBelow(d: real, e: real)
    requires 0.0 <= d <= e <= 1.0
    ensures d * d <= e
  {
    if 0.0 < d < 1.0 {
      PositiveProduct(d, 1.0 - d);
      assert d * (1.0 - d) == d - d * d;
    }
  }

  lemma SmallEnough(count: nat, tolerance: real) returns (e: real)
    requires tolerance > 0.0
    ensures 0.0 < e <= 1.0 && Times(count as real + 1.0, e) < tolerance
  {
    var y := count as real + 1.0;
    var q := tolerance / (2.0 * y);
    QuotientSign(tolerance, 2.0 * y);
    FarFacts(tolerance, 2.0 * y);
    assert q * y == tolerance / 2.0;
    e := if q < 1.0 then q else 1.0;
    assert y * (q - e) >= 0.0;
  }

  /** Over reals every solver meets the exit test from every grid, with and without an iteration limit. */
  lemma AlwaysStops(alg: Algorithm, g: Grid<real>, n: nat, maxiter: nat) returns (stop: nat)
    requires n >= 2 && Rect(g, n, n)
    ensures StopsAt(Heat5(), alg, g, n, maxiter, stop)
  {
    hide Heat5, Times, Next, Swept, Scale, HeatSequential.Residual;
    var count := |Swept(PartitionOf(alg, n))|;
    var s := FirstScale(alg, g, n);
    var e := SmallEnough(count, TOLERANCE);
    var t := SmallScale(n, s, (n * n) as real, e);
    IteratesClose(alg, g, n, s, t);
    IterateStep(alg, g, n, t);
    ResidualBound(alg, Iterate(Heat5(), alg, g, n, t), n, Scale(n, s, t));
    SmallResidual(count, Times(Scale(n, s, t), (n * n) as real), e, TOLERANCE);
    stop := t + 1;
  }

  lemma IterateStep(alg: Algorithm, g: Grid<real>, n: nat, t: nat)
    requires n >= 2 && Rect(g, n, n)
    ensures Iterate(Heat5(), alg, g, n, t + 1) == Next(Heat5(), alg, Iterate(Heat5(), alg, g, n, t), n)
  {
    hide Next, Heat5;
  }

  /** A scale for the first iteration: the boundary rows do not move, and the others have at least weight 1. */
  lemma FirstScale(alg: Algorithm, g: Grid<real>, n: nat) returns (s: real)
    requires n >= 2 && Rect(g, n, n)
    ensures s >= 0.0 && Close(g, Next(Heat5(), alg, g, n), n, s)
  {
    hide Heat5, Next, Swept, Bound;
    var hi := SomeRange(g, n, n);
    NextInRange(alg, g, n, -hi, hi);
    PartitionValid(alg, n);
    s := 2.0 * hi;
    var r := Next(Heat5(), alg, g, n);
    forall i: nat, j: nat | i < n && j < n ensures Near(g[i][j], r[i][j], Bound(n, s, i)) {
      FirstBound(n, s, i);
      assert Cell(i, j) in Swept(PartitionOf(alg, n)) ==> 1 <= i && i + 1 < n;
    }
  }

  lemma FirstBound(n: nat, s: real, i: nat)
    requires s >= 0.0 && i < n
    ensures Bound(n, s, i) >= 0.0
    ensures 1 <= i && i + 1 < n ==> Bound(n, s, i) >= s
  {
    WeightFacts(n, i);
    var w := Weight(n, i) as real;
    assert s * w >= 0.0;
    if 1 <= i && i + 1 < n {
      assert s * (w - 1.0) >= 0.0;
    }
  }

  // ---------------------------------------------------------------- the programs

  /** The sequential program over reals: it ends for every grid, every solver and every iteration limit, 0 included. */
  method HeatOverReals(alg: Algorithm, u: array<real>, uhelp: array<real>, resolution: nat, maxiter: nat)
    returns (iter: nat)
    requires u != uhelp && u[..] == uhelp[..] && RowStart(resolution + 2, resolution + 2) <= u.Length
    modifies u, uhelp
    ensures StopsAt(Heat5(), alg, Stored(old(u[..]), resolution), resolution + 2, maxiter, iter)
    ensures RunsPast(Heat5(), alg, Stored(old(u[..]), resolution), resolution + 2, maxiter, iter - 1)
    ensures Stored(u[..], resolution) == Iterate(Heat5(), alg, Stored(old(u[..]), resolution), resolution + 2, iter)
    ensures iter > 0 && iter % 10 == 0
    ensures IterationResidual(Heat5(), alg, Stored(old(u[..]), resolution), iter - 1) < 0.00005 || 0 < maxiter <= iter
    ensures forall q: nat :: q + 1 < iter && (q + 1) % 10 == 0 ==>
      !(IterationResidual(Heat5(), alg, Stored(old(u[..]), resolution), q) < 0.00005 || 0 < maxiter <= q + 1)
  {
    hide Heat5, Stored;
    ghost var stop := AlwaysStops(alg, Stored(u[..], resolution), resolution + 2, maxiter);
    ghost var g := Stored(u[..], resolution);
    iter := Heat(Heat5(), alg, u, uhelp, resolution, maxiter, stop);
  }

  // ---------------------------------------------------------------- other arithmetic

  /** An arithmetic whose changes never count as small. */
  function Restless(): Kernel<int> {
    Kernel((left: int, right: int, top: int, bottom: int) => left, (unew: int, u: int) => 1.0)
  }

  lemma {:induction false} RestlessGapSum(g: Grid<int>, r: Grid<int>, h: nat, w: nat, m: set<Cell>)
    requires Rect(g, h, w) && Rect(r, h, w) && Interior(m, h, w)
    ensures m != {} ==> GapSum(Restless(), g, r, h, w, m) >= 1.0
    ensures GapSum(Restless(), g, r, h, w, m) >= 0.0
  {
    if m != {} {
      var c :| c in m;
      GapSumTake(Restless(), g, r, h, w, m, c);
      RestlessGapSum(g, r, h, w, m - {c});
    }
  }

  /** In such an arithmetic, with a whole block to relax and no iteration limit, the exit test is never met. */
  lemma RestlessNeverStops(alg: Algorithm, g: Grid<int>, n: nat, t: nat)
    requires n >= NB && Rect(g, n, n)
    ensures !StopsAt(Restless(), alg, g, n, 0, t)
  {
    hide Restless, GapSum, Next, Swept;
    PartitionValid(alg, n);
    SweptCell(alg, n);
    if t > 0 {
      var g := Iterate(Restless(), alg, g, n, t - 1);
      RestlessGapSum(g, Next(Restless(), alg, g, n), n, n, Swept(PartitionOf(alg, n)));
    }
  }

  lemma SweptCell(alg: Algorithm, n: nat)
    requires n >= NB
    ensures Cell(1, 1) in Swept(PartitionOf(alg, n))
  {
    hide RowStart;
    RowStartIsProduct(n / 1, 1);
    RowStartIsProduct(n / NB, NB);
  }
}
