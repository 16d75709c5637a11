/**
 The distributed program refines the sequential one: in every reachable state all
 ranks are in the same iteration, every band and every halo row that has been exchanged
 equals the matching rows of the sequential grid, and the gathered grid is the one the
 sequential program ends with.
 */
module HeatMpiRefinement {
  import opened Grids
  import opened RowMajor
  import opened Blocks
  import opened Solver
  import opened HeatSequential
  import opened HeatMpi

  // ---------------------------------------------------------------- the sequential program

  /** The sequential grid after t iterations. */
  ghost function G<T>(c: Config<T>, t: nat): (g: Grid<T>)
    requires c.Valid()
    ensures Rect(g, c.Np(), c.Np())
  {
    Iterate(c.k, JacobiSolver, c.g0, c.Np(), t)
  }

  ghost predicate Stops<T>(c: Config<T>, t: nat)
    requires c.Valid()
  {
    StopsAt(c.k, JacobiSolver, c.g0, c.Np(), c.maxiter, t)
  }

  ghost predicate Past<T>(c: Config<T>, t: nat)
    requires c.Valid()
  {
    forall q: nat :: q <= t ==> !Stops(c, q)
  }

  /** The columns the Jacobi step relaxes are 1..Columns. */
  ghost function Columns<T>(c: Config<T>): nat {
    Min(RowStart(c.Np() / NB, NB), LastInner(c.Np()))
  }

  lemma SweptBoxes<T>(c: Config<T>, rows: nat)
    ensures LocalSwept(c, rows) == Box(0, rows, 0, Columns(c))
    ensures Swept(PartitionOf(JacobiSolver, c.Np())) == Box(0, c.res, 0, Columns(c))
    ensures Interior(Box(0, c.res, 0, Columns(c)), c.Np(), c.Np())
  {
    assert RowStart(rows + 2, 1) == rows + 2 && RowStart(c.Np(), 1) == c.Np();
    assert (rows + 2) / 1 == rows + 2 && c.Np() / 1 == c.Np();
    PartitionValid(JacobiSolver, c.Np());
  }

  lemma ColumnsFit<T>(c: Config<T>)
    ensures Columns(c) > 0 ==> Columns(c) + 1 < c.Np()
  {
    SplitValid(c.Np(), c.Np(), NB, NB);
  }

  // ---------------------------------------------------------------- one rank's share of an iteration

  /** Rows f..f+rows-1 of a grid, with the halo row on either side. */
  ghost function Band<T>(g: Grid<T>, f: nat, rows: nat): (b: Grid<T>)
    requires 1 <= f && f + rows < |g|
    ensures |b| == rows + 2
    ensures forall i :: 0 <= i < rows + 2 ==> b[i] == g[f - 1 + i]
  {
    g[f - 1..f + rows + 1]
  }

  ghost function BandCells<T>(c: Config<T>, f: nat, rows: nat): (m: set<Cell>)
    requires 1 <= f && f + rows <= c.res + 1
    ensures Interior(m, c.Np(), c.Np())
  {
    SweptBoxes(c, 0);
    Box(f - 1, f - 1 + rows, 0, Columns(c))
  }

  /** The residual of iteration t + 1 over some rows. */
  ghost function Part<T>(c: Config<T>, f: nat, rows: nat, t: nat): real
    requires c.Valid() && 1 <= f && f + rows <= c.res + 1
  {
    GapSum(c.k, G(c, t), G(c, t + 1), c.Np(), c.Np(), BandCells(c, f, rows))
  }

  lemma {:induction false} RowGapSum<T>(k: Kernel<T>, g: Grid<T>, r: Grid<T>, h: nat, b: Grid<T>, s: Grid<T>, h': nat,
                                        w: nat, i': nat, i: nat, j: nat)
    requires Rect(g, h, w) && Rect(r, h, w) && Rect(b, h', w) && Rect(s, h', w)
    requires 1 <= i && i + 1 < h && 1 <= i' && i' + 1 < h' && (j > 0 ==> j + 1 < w)
    requires b[i'] == g[i] && s[i'] == r[i]
    ensures GapSum(k, b, s, h', w, Box(i' - 1, i', 0, j)) == GapSum(k, g, r, h, w, Box(i - 1, i, 0, j))
  {
    hide GapSum, Rect, Interior;
    BoxInterior(i - 1, i, 0, j, h, w);
    BoxInterior(i' - 1, i', 0, j, h', w);
    if j == 0 {
      GapSumNone(k, g, r, h, w, Box(i - 1, i, 0, 0));
      GapSumNone(k, b, s, h', w, Box(i' - 1, i', 0, 0));
    } else {
      RowGapSum(k, g, r, h, b, s, h', w, i', i, j - 1);
      GapSumTake(k, g, r, h, w, Box(i - 1, i, 0, j), Cell(i, j));
      GapSumTake(k, b, s, h', w, Box(i' - 1, i', 0, j), Cell(i', j));
      assert Box(i - 1, i, 0, j) - {Cell(i, j)} == Box(i - 1, i, 0, j - 1);
      assert Box(i' - 1, i', 0, j) - {Cell(i', j)} == Box(i' - 1, i', 0, j - 1);
    }
  }

  /** The residual over some rows does not depend on where the rows are stored. */
  lemma {:induction false} GapSumShift<T>(k: Kernel<T>, g: Grid<T>, r: Grid<T>, h: nat, b: Grid<T>, s: Grid<T>,
                                          h': nat, w: nat, rows: nat, d: nat, j: nat)
    requires Rect(g, h, w) && Rect(r, h, w) && Rect(b, h', w) && Rect(s, h', w)
    requires (rows > 0 ==> rows + 1 < h' && d + rows + 1 < h) && (j > 0 ==> j + 1 < w)
    requires forall i :: 1 <= i <= rows ==> b[i] == g[d + i] && s[i] == r[d + i]
    ensures GapSum(k, b, s, h', w, Box(0, rows, 0, j)) == GapSum(k, g, r, h, w, Box(d, d + rows, 0, j))
  {
    hide GapSum, Rect, Interior;
    if rows == 0 {
      GapSumNone(k, g, r, h, w, Box(d, d, 0, j));
      GapSumNone(k, b, s, h', w, Box(0, 0, 0, j));
    } else {
      BoxInterior(0, rows - 1, 0, j, h', w);
      BoxInterior(rows - 1, rows, 0, j, h', w);
      BoxInterior(d, d + rows - 1, 0, j, h, w);
      BoxInterior(d + rows - 1, d + rows, 0, j, h, w);
      GapSumShift(k, g, r, h, b, s, h', w, rows - 1, d, j);
      RowGapSum(k, g, r, h, b, s, h', w, rows, d + rows, j);
      assert Box(0, rows, 0, j) == Box(0, rows - 1, 0, j) + Box(rows - 1, rows, 0, j);
      assert Box(d, d + rows, 0, j) == Box(d, d + rows - 1, 0, j) + Box(d + rows - 1, d + rows, 0, j);
      GapSumUnion(k, b, s, h', w, Box(0, rows - 1, 0, j), Box(rows - 1, rows, 0, j));
      GapSumUnion(k, g, r, h, w, Box(d, d + rows - 1, 0, j), Box(d + rows - 1, d + rows, 0, j));
    }
  }

  /** Relaxing a band gives the band's interior rows of the next sequential grid and leaves the halo rows. */
  lemma {:induction false} LocalRows<T>(c: Config<T>, f: nat, rows: nat, t: nat)
    requires c.Valid() && 1 <= f && f + rows <= c.res + 1
    ensures var b := Band(G(c, t), f, rows);
            Rect(b, rows + 2, c.Np())
            && var j := Jacobi(c.k, b, b, rows + 2, c.Np(), LocalSwept(c, rows));
               (forall i :: 1 <= i <= rows ==> j[i] == G(c, t + 1)[f - 1 + i])
               && j[0] == b[0] && j[rows + 1] == b[rows + 1]
  {
    var np, g, g' := c.Np(), G(c, t), G(c, t + 1);
    SweptBoxes(c, rows);
    var b := Band(g, f, rows);
    var m, all := LocalSwept(c, rows), Box(0, c.res, 0, Columns(c));
    var j := Jacobi(c.k, b, b, rows + 2, np, m);
    assert g' == Jacobi(c.k, g, g, np, np, all);
    hide G, LocalSwept, Columns;
    forall i, q | 0 <= i < rows + 2 && 0 <= q < np
      ensures j[i][q] == if 1 <= i <= rows then g'[f - 1 + i][q] else b[i][q]
    {
      assert j[i][q] == JacobiValue(c.k, b, b, rows + 2, np, m, i, q);
      assert g'[f - 1 + i][q] == JacobiValue(c.k, g, g, np, np, all, f - 1 + i, q);
    }
    forall i | 1 <= i <= rows ensures j[i] == g'[f - 1 + i] {
      assert forall q :: 0 <= q < np ==> j[i][q] == g'[f - 1 + i][q];
    }
    assert j[0] == b[0] && j[rows + 1] == b[rows + 1];
  }

  /** ... and yields the band's part of the residual. */
  lemma LocalResidual<T>(c: Config<T>, f: nat, rows: nat, t: nat)
    requires c.Valid() && 1 <= f && f + rows <= c.res + 1
    ensures var b := Band(G(c, t), f, rows); var m := LocalSwept(c, rows);
            Rect(b, rows + 2, c.Np())
            && GapSum(c.k, b, Jacobi(c.k, b, b, rows + 2, c.Np(), m), rows + 2, c.Np(), m) == Part(c, f, rows, t)
  {
    hide G, LocalSwept, Columns, GapSum, Jacobi, Interior;
    LocalRows(c, f, rows, t);
    var b, m := Band(G(c, t), f, rows), LocalSwept(c, rows);
    SweptBoxes(c, rows);
    ColumnsFit(c);
    GapSumShift(c.k, G(c, t), G(c, t + 1), c.Np(), b, Jacobi(c.k, b, b, rows + 2, c.Np(), m), rows + 2, c.Np(), rows,
      f - 1, Columns(c));
  }

  /** Boundary rows never change. */
  lemma {:induction false} BoundaryRows<T>(c: Config<T>, t: nat)
    requires c.Valid()
    ensures G(c, t)[0] == c.g0[0] && G(c, t)[c.res + 1] == c.g0[c.res + 1]
  {
    if t > 0 {
      BoundaryRows(c, t - 1);
      var np, g := c.Np(), G(c, t - 1);
      SweptBoxes(c, 0);
      var all := Box(0, c.res, 0, Columns(c));
      assert G(c, t) == Jacobi(c.k, g, g, np, np, all);
      forall q | 0 <= q < np ensures G(c, t)[0][q] == g[0][q] && G(c, t)[c.res + 1][q] == g[c.res + 1][q] {
        assert G(c, t)[0][q] == JacobiValue(c.k, g, g, np, np, all, 0, q);
        assert G(c, t)[c.res + 1][q] == JacobiValue(c.k, g, g, np, np, all, c.res + 1, q);
      }
    }
  }

  /** The parts of ranks 0..r-1. */
  ghost function PartsUpTo<T>(c: Config<T>, r: nat, t: nat): real
    requires c.Valid() && r <= c.n
  {
    if r == 0 then 0.0 else
      BandInside(c, r - 1);
      PartsUpTo(c, r - 1, t) + Part(c, First(c, r - 1), Rows(c, r - 1), t)
  }

  lemma AddBand<T>(c: Config<T>, f: nat, rows: nat, t: nat)
    requires c.Valid() && 1 <= f && f + rows <= c.res + 1
    ensures Interior(Box(0, f - 1, 0, Columns(c)), c.Np(), c.Np())
      && Interior(Box(0, f + rows - 1, 0, Columns(c)), c.Np(), c.Np())
    ensures GapSum(c.k, G(c, t), G(c, t + 1), c.Np(), c.Np(), Box(0, f + rows - 1, 0, Columns(c)))
         == GapSum(c.k, G(c, t), G(c, t + 1), c.Np(), c.Np(), Box(0, f - 1, 0, Columns(c))) + Part(c, f, rows, t)
  {
    hide G, Columns, GapSum, Rect, Interior;
    ColumnsFit(c);
    BoxInterior(0, f - 1, 0, Columns(c), c.Np(), c.Np());
    BoxInterior(0, f + rows - 1, 0, Columns(c), c.Np(), c.Np());
    var before, band := Box(0, f - 1, 0, Columns(c)), BandCells(c, f, rows);
    assert Box(0, f + rows - 1, 0, Columns(c)) == before + band;
    GapSumUnion(c.k, G(c, t), G(c, t + 1), c.Np(), c.Np(), before, band);
  }

  lemma {:induction false} PartsAddUp<T>(c: Config<T>, r: nat, t: nat)
    requires c.Valid() && r <= c.n
    ensures 1 <= First(c, r) <= c.res + 1
    ensures Interior(Box(0, First(c, r) - 1, 0, Columns(c)), c.Np(), c.Np())
    ensures PartsUpTo(c, r, t)
         == GapSum(c.k, G(c, t), G(c, t + 1), c.Np(), c.Np(), Box(0, First(c, r) - 1, 0, Columns(c)))
  {
    hide G, Columns, GapSum, Rect, Interior, Part, Rows;
    if r == 0 {
      AddBand(c, 1, 0, t);
      GapSumNone(c.k, G(c, t), G(c, t + 1), c.Np(), c.Np(), Box(0, 0, 0, Columns(c)));
    } else {
      BandInside(c, r - 1);
      PartsAddUp(c, r - 1, t);
      AddBand(c, First(c, r - 1), Rows(c, r - 1), t);
    }
  }

  /** The ranks' parts add up to the sequential residual. */
  lemma PartsAreResidual<T>(c: Config<T>, t: nat)
    requires c.Valid()
    ensures PartsUpTo(c, c.n, t) == HeatSequential.Residual(c.k, JacobiSolver, G(c, t), c.Np())
  {
    hide PartsUpTo, First, Rows, GapSum, Swept, Columns, LocalSwept, Next, PartitionOf;
    PartsAddUp(c, c.n, t);
    BandsEnd(c);
    SweptBoxes(c, 0);
    GridStep(c, t);
  }

  lemma GridStep<T>(c: Config<T>, t: nat)
    requires c.Valid()
    ensures G(c, t + 1) == Next(c.k, JacobiSolver, G(c, t), c.Np())
  {
    hide Next;
  }
}
