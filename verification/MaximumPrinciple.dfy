/**
 The solvers over real numbers: relaxation never leaves the range of the values it
 started from, never touches a cell outside the swept rectangle, and has residual
 zero exactly at the grids it does not change.
 */
module MaximumPrinciple {
  import opened Grids
  import opened Blocks
  import opened HeatSequential

  /** A quarter of the sum of the four neighbours; squared differences as residual. */
  function Heat5(): Kernel<real> {
    Kernel((left: real, right: real, top: real, bottom: real) => 0.25 * (left + right + top + bottom),
           (unew: real, u: real) => Times(unew - u, unew - u))
  }

  function Times(a: real, b: real): real { a * b }

  lemma HeatKernel(left: real, right: real, top: real, bottom: real, unew: real, u: real)
    ensures Heat5().mean(left, right, top, bottom) == (left + right + top + bottom) / 4.0
    ensures Heat5().gap(unew, u) == (unew - u) * (unew - u)
  {
    TimesIs(unew - u, unew - u);
    hide Times;
    assert Heat5().gap(unew, u) == Times(unew - u, unew - u);
  }

  lemma TimesIs(a: real, b: real)
    ensures Times(a, b) == a * b
  {
  }

  ghost predicate InRange(g: Grid<real>, h: nat, w: nat, lo: real, hi: real)
    requires Rect(g, h, w)
  {
    forall i, j :: 0 <= i < h && 0 <= j < w ==> lo <= g[i][j] <= hi
  }

  ghost predicate SameOutside(g: Grid<real>, r: Grid<real>, h: nat, w: nat, m: set<Cell>)
    requires Rect(g, h, w) && Rect(r, h, w)
  {
    forall i: nat, j: nat :: i < h && j < w && Cell(i, j) !in m ==> r[i][j] == g[i][j]
  }

  lemma {:induction false} ValueInRange(g: Grid<real>, h: nat, w: nat, m: set<Cell>, i: nat, j: nat, lo: real, hi: real)
    requires Rect(g, h, w) && Interior(m, h, w) && InRange(g, h, w, lo, hi) && i < h && j < w
    ensures lo <= Value(Heat5(), g, h, w, m, i, j) <= hi
    decreases i, j
  {
    if Cell(i, j) in m {
      ValueInRange(g, h, w, m, i, j - 1, lo, hi);
      ValueInRange(g, h, w, m, i - 1, j, lo, hi);
    }
  }

  lemma SweepInRange(g: Grid<real>, h: nat, w: nat, m: set<Cell>, lo: real, hi: real)
    requires Rect(g, h, w) && Interior(m, h, w) && InRange(g, h, w, lo, hi)
    ensures InRange(Sweep(Heat5(), g, h, w, m), h, w, lo, hi)
    ensures SameOutside(g, Sweep(Heat5(), g, h, w, m), h, w, m)
  {
    forall i: nat, j: nat | i < h && j < w ensures lo <= Value(Heat5(), g, h, w, m, i, j) <= hi {
      ValueInRange(g, h, w, m, i, j, lo, hi);
    }
  }

  /** One iteration of any solver stays in range and changes swept cells only. */
  lemma NextInRange(alg: Algorithm, g: Grid<real>, n: nat, lo: real, hi: real)
    requires n >= 2 && Rect(g, n, n) && InRange(g, n, n, lo, hi)
    ensures InRange(Next(Heat5(), alg, g, n), n, n, lo, hi)
    ensures SameOutside(g, Next(Heat5(), alg, g, n), n, n, Swept(PartitionOf(alg, n)))
  {
    PartitionValid(alg, n);
    var p := PartitionOf(alg, n);
    match alg {
      case JacobiSolver =>
      case GaussSolver =>
        SweepInRange(g, n, n, Swept(p), lo, hi);
      case RedBlackSolver =>
        var red, black := Cover(p, ColourIds(p, 0)), Cover(p, ColourIds(p, 1));
        SweepInRange(g, n, n, red, lo, hi);
        SweepInRange(Sweep(Heat5(), g, n, n, red), n, n, black, lo, hi);
        ColoursPartition(p);
    }
  }

  /** Iterations of possibly different solvers, first one first. */
  ghost function Run(algs: seq<Algorithm>, g: Grid<real>, n: nat): (r: Grid<real>)
    requires n >= 2 && Rect(g, n, n)
    ensures Rect(r, n, n)
  {
    if algs == [] then g else Next(Heat5(), algs[|algs| - 1], Run(algs[..|algs| - 1], g, n), n)
  }

  ghost predicate Boundary(n: nat, i: nat, j: nat) { i == 0 || i == n - 1 || j == 0 || j == n - 1 }

  /** Any number of iterations, of any solvers, keeps every cell within the initial range and the boundary as it was. */
  lemma {:induction false} DiscreteMaximumPrinciple(algs: seq<Algorithm>, g: Grid<real>, n: nat, lo: real, hi: real)
    requires n >= 2 && Rect(g, n, n) && InRange(g, n, n, lo, hi)
    ensures InRange(Run(algs, g, n), n, n, lo, hi)
    ensures forall i: nat, j: nat :: i < n && j < n && Boundary(n, i, j) ==> Run(algs, g, n)[i][j] == g[i][j]
  {
    if algs != [] {
      var front, alg := algs[..|algs| - 1], algs[|algs| - 1];
      DiscreteMaximumPrinciple(front, g, n, lo, hi);
      NextInRange(alg, Run(front, g, n), n, lo, hi);
      PartitionValid(alg, n);
      forall i: nat, j: nat | i < n && j < n && Boundary(n, i, j)
        ensures Cell(i, j) !in Swept(PartitionOf(alg, n))
      {
      }
    }
  }

  // ---------------------------------------------------------------- residual zero

  /** The cell already is the mean of its four neighbours. */
  ghost predicate Settled(g: Grid<real>, h: nat, w: nat, c: Cell)
    requires Rect(g, h, w) && 1 <= c.i && c.i + 1 < h && 1 <= c.j && c.j + 1 < w
  {
    g[c.i][c.j] == 0.25 * (g[c.i][c.j - 1] + g[c.i][c.j + 1] + g[c.i - 1][c.j] + g[c.i + 1][c.j])
  }

  ghost predicate AllSettled(g: Grid<real>, h: nat, w: nat, m: set<Cell>)
    requires Rect(g, h, w) && Interior(m, h, w)
  {
    forall c :: c in m ==> Settled(g, h, w, c)
  }

  lemma PositiveProduct(a: real, b: real)
    requires a > 0.0 && b > 0.0
    ensures Times(a, b) > 0.0
  {
  }

  lemma ZeroProduct(a: real)
    ensures Times(0.0, a) == 0.0
  {
  }

  lemma MirrorProduct(a: real, b: real)
    ensures Times(-a, -b) == Times(a, b)
  {
  }

  lemma PositiveSquare(d: real)
    requires d != 0.0
    ensures Times(d, d) > 0.0
  {
    hide Times;
    if d > 0.0 {
      PositiveProduct(d, d);
    } else {
      PositiveProduct(-d, -d);
      MirrorProduct(d, d);
    }
  }

  lemma GapZero(k: Kernel<real>, unew: real, u: real)
    requires k == Heat5()
    ensures k.gap(unew, u) >= 0.0 && (k.gap(unew, u) == 0.0 <==> unew == u)
  {
    hide Times;
    assert k.gap(unew, u) == Times(unew - u, unew - u);
    if unew != u {
      PositiveSquare(unew - u);
    } else {
      ZeroProduct(0.0);
    }
  }

  lemma {:induction false} GapSumZero(g: Grid<real>, r: Grid<real>, h: nat, w: nat, m: set<Cell>)
    requires Rect(g, h, w) && Rect(r, h, w) && Interior(m, h, w)
    ensures GapSum(Heat5(), g, r, h, w, m) >= 0.0
    ensures GapSum(Heat5(), g, r, h, w, m) == 0.0 <==> forall c :: c in m ==> r[c.i][c.j] == g[c.i][c.j]
  {
    hide Heat5;
    if m != {} {
      var c :| c in m;
      GapSumTake(Heat5(), g, r, h, w, m, c);
      GapSumZero(g, r, h, w, m - {c});
      GapZero(Heat5(), r[c.i][c.j], g[c.i][c.j]);
      assert forall d :: d in m <==> d in m - {c} || d == c;
    }
  }

  lemma {:induction false} SettledValue(g: Grid<real>, h: nat, w: nat, m: set<Cell>, i: nat, j: nat)
    requires Rect(g, h, w) && Interior(m, h, w) && AllSettled(g, h, w, m) && i < h && j < w
    ensures Value(Heat5(), g, h, w, m, i, j) == g[i][j]
    decreases i, j
  {
    if Cell(i, j) in m {
      SettledValue(g, h, w, m, i, j - 1);
      SettledValue(g, h, w, m, i - 1, j);
      assert Settled(g, h, w, Cell(i, j));
    }
  }

  /** A sweep leaves a grid alone exactly when every cell of the sweep is settled. */
  lemma FixedIffSettled(g: Grid<real>, h: nat, w: nat, m: set<Cell>)
    requires Rect(g, h, w) && Interior(m, h, w)
    ensures Sweep(Heat5(), g, h, w, m) == g <==> AllSettled(g, h, w, m)
  {
    var r := Sweep(Heat5(), g, h, w, m);
    if AllSettled(g, h, w, m) {
      forall i: nat, j: nat | i < h && j < w ensures r[i][j] == g[i][j] {
        SettledValue(g, h, w, m, i, j);
      }
      SameGrid(r, g, h, w);
    }
    if r == g {
      forall c | c in m ensures Settled(g, h, w, c) {
        assert r[c.i][c.j] == Value(Heat5(), g, h, w, m, c.i, c.j);
        assert r[c.i][c.j - 1] == Value(Heat5(), g, h, w, m, c.i, c.j - 1);
        assert r[c.i - 1][c.j] == Value(Heat5(), g, h, w, m, c.i - 1, c.j);
      }
    }
  }

  lemma SweepGapZero(g: Grid<real>, h: nat, w: nat, m: set<Cell>)
    requires Rect(g, h, w) && Interior(m, h, w)
    ensures GapSum(Heat5(), g, Sweep(Heat5(), g, h, w, m), h, w, m) == 0.0 <==> AllSettled(g, h, w, m)
    ensures AllSettled(g, h, w, m) ==> Sweep(Heat5(), g, h, w, m) == g
    ensures GapSum(Heat5(), g, Sweep(Heat5(), g, h, w, m), h, w, m) >= 0.0
  {
    var r := Sweep(Heat5(), g, h, w, m);
    GapSumZero(g, r, h, w, m);
    FixedIffSettled(g, h, w, m);
    if forall c :: c in m ==> r[c.i][c.j] == g[c.i][c.j] {
      forall i: nat, j: nat | i < h && j < w ensures r[i][j] == g[i][j] {
        if Cell(i, j) in m {
          var c := Cell(i, j);
          assert r[c.i][c.j] == g[c.i][c.j];
        }
      }
      SameGrid(r, g, h, w);
    }
  }

  /** An iteration has residual zero exactly when every swept cell of its input is the mean of its neighbours. */
  lemma ResidualZeroIffSettled(alg: Algorithm, g: Grid<real>, n: nat)
    requires n >= 2 && Rect(g, n, n)
    ensures Interior(Swept(PartitionOf(alg, n)), n, n)
    ensures Residual(Heat5(), alg, g, n) == 0.0 <==> AllSettled(g, n, n, Swept(PartitionOf(alg, n)))
  {
    PartitionValid(alg, n);
    var p := PartitionOf(alg, n);
    match alg {
      case JacobiSolver =>
        GapSumZero(g, Next(Heat5(), alg, g, n), n, n, Swept(p));
        forall c | c in Swept(p)
          ensures Next(Heat5(), alg, g, n)[c.i][c.j] == g[c.i][c.j] <==> Settled(g, n, n, c)
        {
          assert Next(Heat5(), alg, g, n)[c.i][c.j] == JacobiValue(Heat5(), g, g, n, n, Swept(p), c.i, c.j);
        }
      case GaussSolver =>
        SweepGapZero(g, n, n, Swept(p));
      case RedBlackSolver =>
        var red, black := Cover(p, ColourIds(p, 0)), Cover(p, ColourIds(p, 1));
        ColoursPartition(p);
        RedBlackResidualZero(g, n, red, black);
    }
  }

  lemma RedBlackResidualZero(g: Grid<real>, n: nat, red: set<Cell>, black: set<Cell>)
    requires Rect(g, n, n) && Interior(red, n, n) && Interior(black, n, n) && red !! black
    ensures Interior(red + black, n, n)
    ensures var g1 := Sweep(Heat5(), g, n, n, red); var g2 := Sweep(Heat5(), g1, n, n, black);
            GapSum(Heat5(), g, g2, n, n, red + black) == 0.0 <==> AllSettled(g, n, n, red + black)
  {
    var g1 := Sweep(Heat5(), g, n, n, red);
    ComposeGapSum(Heat5(), g, n, n, red, black);
    SweepGapZero(g, n, n, red);
    SweepGapZero(g1, n, n, black);
    assert AllSettled(g, n, n, red + black) <==> AllSettled(g, n, n, red) && AllSettled(g, n, n, black);
  }
}
