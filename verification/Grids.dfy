/**
 Grids of cells and the in-place relaxation sweeps the heat solvers perform on them.

 A sweep is described by the set of cells it relaxes. `Value` is the reference
 definition: a relaxed cell is computed from the new values of its left and top
 neighbours and the old values of its right and bottom neighbours. `Compose` says
 when two in-place sweeps run one after the other act like a single one; every
 result about visiting orders comes from it.

 The element type and the stencil are parameters, so nothing here depends on the
 arithmetic of the cell values.
 */
module Grids {

  /** Row i, column j. */
  datatype Cell = Cell(i: nat, j: nat)

  type Grid<T> = seq<seq<T>>

  /** The solver's arithmetic: `mean(left, right, top, bottom)` is the stencil, and
      `gap(new, old)` is what one cell adds to the residual. */
  datatype Kernel<!T> = Kernel(mean: (T, T, T, T) -> T, gap: (T, T) -> real)

  ghost predicate Rect<T>(g: Grid<T>, h: nat, w: nat) {
    |g| == h && forall i :: 0 <= i < h ==> |g[i]| == w
  }

  ghost predicate Interior(m: set<Cell>, h: nat, w: nat) {
    forall c :: c in m ==> 1 <= c.i && c.i + 1 < h && 1 <= c.j && c.j + 1 < w
  }

  ghost predicate IsBox(m: set<Cell>, r0: nat, r1: nat, c0: nat, c1: nat) {
    forall c :: c in m <==> r0 < c.i <= r1 && c0 < c.j <= c1
  }

  /** The cells of rows r0+1..r1 and columns c0+1..c1. */
  ghost function Box(r0: nat, r1: nat, c0: nat, c1: nat): (m: set<Cell>)
    ensures forall c :: c in m <==> r0 < c.i <= r1 && c0 < c.j <= c1
  {
    BoxExists(r0, r1, c0, c1);
    var m :| IsBox(m, r0, r1, c0, c1);
    m
  }

  lemma BoxExists(r0: nat, r1: nat, c0: nat, c1: nat)
    ensures exists m :: IsBox(m, r0, r1, c0, c1)
  {
    var m := set a: nat, b: nat | r0 < a <= r1 && c0 < b <= c1 :: Cell(a, b);
    assert IsBox(m, r0, r1, c0, c1);
  }

  lemma BoxInterior(r0: nat, r1: nat, c0: nat, c1: nat, h: nat, w: nat)
    requires (r1 > 0 ==> r1 + 1 < h) && (c1 > 0 ==> c1 + 1 < w)
    ensures Interior(Box(r0, r1, c0, c1), h, w)
  {
  }

  // ---------------------------------------------------------------- sweeps

  ghost function Value<T>(k: Kernel<T>, g: Grid<T>, h: nat, w: nat, m: set<Cell>, i: nat, j: nat): T
    requires Rect(g, h, w) && Interior(m, h, w) && i < h && j < w
    decreases i, j
  {
    if Cell(i, j) in m then
      k.mean(Value(k, g, h, w, m, i, j - 1), g[i][j + 1], Value(k, g, h, w, m, i - 1, j), g[i + 1][j])
    else
      g[i][j]
  }

  ghost function Sweep<T>(k: Kernel<T>, g: Grid<T>, h: nat, w: nat, m: set<Cell>): (r: Grid<T>)
    requires Rect(g, h, w) && Interior(m, h, w)
    ensures Rect(r, h, w)
    ensures forall i, j :: 0 <= i < h && 0 <= j < w ==> r[i][j] == Value(k, g, h, w, m, i, j)
  {
    seq(h, i requires 0 <= i < h => seq(w, j requires 0 <= j < w => Value(k, g, h, w, m, i, j)))
  }

  lemma SameGrid<T>(a: Grid<T>, b: Grid<T>, h: nat, w: nat)
    requires Rect(a, h, w) && Rect(b, h, w)
    requires forall i, j :: 0 <= i < h && 0 <= j < w ==> a[i][j] == b[i][j]
    ensures a == b
  {
    forall i | 0 <= i < h ensures a[i] == b[i] {
      assert forall j :: 0 <= j < w ==> a[i][j] == b[i][j];
    }
  }

  /** Relaxing c reads the old value of d: c itself, its right or its bottom neighbour. */
  predicate ReadsOld(c: Cell, d: Cell) {
    d == c || (d.i == c.i && d.j == c.j + 1) || (d.i == c.i + 1 && d.j == c.j)
  }

  /** A sweep of `b` may follow a sweep of `m` when no cell of `b` needs an old value that `m` overwrote. */
  ghost predicate MayFollow(m: set<Cell>, b: set<Cell>) {
    forall c, d :: c in b && d in m ==> !ReadsOld(c, d)
  }

  lemma {:induction false} ValueCompose<T>(k: Kernel<T>, g: Grid<T>, h: nat, w: nat, m: set<Cell>, b: set<Cell>,
                                           i: nat, j: nat)
    requires Rect(g, h, w) && Interior(m, h, w) && Interior(b, h, w) && MayFollow(m, b)
    requires i < h && j < w
    ensures Interior(m + b, h, w)
    ensures Value(k, Sweep(k, g, h, w, m), h, w, b, i, j) == Value(k, g, h, w, m + b, i, j)
    decreases i, j
  {
    if Cell(i, j) in m || Cell(i, j) in b {
      ValueCompose(k, g, h, w, m, b, i, j - 1);
      ValueCompose(k, g, h, w, m, b, i - 1, j);
      assert Cell(i, j) in m ==> ReadsOld(Cell(i, j - 1), Cell(i, j)) && ReadsOld(Cell(i - 1, j), Cell(i, j));
      assert Cell(i, j) in b ==>
        && ReadsOld(Cell(i, j), Cell(i, j + 1)) && ReadsOld(Cell(i, j), Cell(i + 1, j))
        && ReadsOld(Cell(i, j), Cell(i, j));
    }
  }

  /** Two sweeps in a row are one sweep of both cell sets. */
  lemma Compose<T>(k: Kernel<T>, g: Grid<T>, h: nat, w: nat, m: set<Cell>, b: set<Cell>)
    requires Rect(g, h, w) && Interior(m, h, w) && Interior(b, h, w) && MayFollow(m, b)
    ensures Interior(m + b, h, w)
    ensures Sweep(k, Sweep(k, g, h, w, m), h, w, b) == Sweep(k, g, h, w, m + b)
  {
    forall i: nat, j: nat | i < h && j < w
      ensures Value(k, Sweep(k, g, h, w, m), h, w, b, i, j) == Value(k, g, h, w, m + b, i, j)
    {
      ValueCompose(k, g, h, w, m, b, i, j);
    }
    SameGrid(Sweep(k, Sweep(k, g, h, w, m), h, w, b), Sweep(k, g, h, w, m + b), h, w);
  }

  lemma SweepNothing<T>(k: Kernel<T>, g: Grid<T>, h: nat, w: nat)
    requires Rect(g, h, w)
    ensures Sweep(k, g, h, w, {}) == g
  {
    SameGrid(Sweep(k, g, h, w, {}), g, h, w);
  }

  // ---------------------------------------------------------------- one cell at a time

  /** One assignment of the innermost loop: cell `c` becomes the mean of its neighbours as they are now. */
  function RelaxCell<T>(k: Kernel<T>, g: Grid<T>, c: Cell): (r: Grid<T>)
    requires 1 <= c.i && c.i + 1 < |g| && 1 <= c.j
    requires c.j + 1 < |g[c.i]| && c.j < |g[c.i - 1]| && c.j < |g[c.i + 1]|
  {
    var v := k.mean(g[c.i][c.j - 1], g[c.i][c.j + 1], g[c.i - 1][c.j], g[c.i + 1][c.j]);
    g[c.i := g[c.i][c.j := v]]
  }

  lemma RelaxCellIsSweep<T>(k: Kernel<T>, g: Grid<T>, h: nat, w: nat, c: Cell)
    requires Rect(g, h, w) && Interior({c}, h, w)
    ensures c in {c}
    ensures Rect(RelaxCell(k, g, c), h, w) && RelaxCell(k, g, c) == Sweep(k, g, h, w, {c})
  {
    assert c in {c};
    assert Cell(c.i, c.j - 1) !in {c} && Cell(c.i - 1, c.j) !in {c};
    assert Value(k, g, h, w, {c}, c.i, c.j) == RelaxCell(k, g, c)[c.i][c.j];
    SameGrid(RelaxCell(k, g, c), Sweep(k, g, h, w, {c}), h, w);
  }

  function Listed(cells: seq<Cell>): set<Cell> {
    set c | c in cells
  }

  /** Relaxes the listed cells in order, in place. */
  ghost function RelaxAll<T>(k: Kernel<T>, g: Grid<T>, h: nat, w: nat, cells: seq<Cell>): (r: Grid<T>)
    requires Rect(g, h, w) && Interior(Listed(cells), h, w)
    ensures Rect(r, h, w)
  {
    if cells == [] then g else
      var n := |cells| - 1;
      assert cells[n] in cells && forall c :: c in cells[..n] ==> c in cells;
      RelaxCellIsSweep(k, RelaxAll(k, g, h, w, cells[..n]), h, w, cells[n]);
      RelaxCell(k, RelaxAll(k, g, h, w, cells[..n]), cells[n])
  }

  /** No cell is listed twice, and no cell comes after its right or bottom neighbour. */
  ghost predicate DependencyOrder(cells: seq<Cell>) {
    forall p, q :: 0 <= p < q < |cells| ==> !ReadsOld(cells[q], cells[p])
  }

  lemma LastMayFollow(front: seq<Cell>, last: Cell)
    requires DependencyOrder(front + [last])
    ensures DependencyOrder(front) && MayFollow(Listed(front), {last})
    ensures Listed(front + [last]) == Listed(front) + {last}
  {
    var cells := front + [last];
    assert forall p :: 0 <= p < |front| ==> cells[p] == front[p];
    assert cells[|front|] == last;
    forall c | c in front ensures !ReadsOld(last, c) {
      var p :| 0 <= p < |front| && front[p] == c;
      assert cells[p] == c;
    }
  }

  /** Every visiting order that respects the dependencies leaves the same grid. */
  lemma {:induction false} AnyDependencyOrder<T>(k: Kernel<T>, g: Grid<T>, h: nat, w: nat, cells: seq<Cell>)
    requires Rect(g, h, w) && Interior(Listed(cells), h, w) && DependencyOrder(cells)
    ensures RelaxAll(k, g, h, w, cells) == Sweep(k, g, h, w, Listed(cells))
  {
    if cells == [] {
      assert Listed(cells) == {};
      SweepNothing(k, g, h, w);
    } else {
      var front, last := cells[..|cells| - 1], cells[|cells| - 1];
      assert cells == front + [last];
      LastMayFollow(front, last);
      AnyDependencyOrder(k, g, h, w, front);
      assert Interior(Listed(front), h, w) && Interior({last}, h, w);
      RelaxCellIsSweep(k, Sweep(k, g, h, w, Listed(front)), h, w, last);
      Compose(k, g, h, w, Listed(front), {last});
    }
  }

  /** Row i, columns 1..j, left to right. */
  ghost function PlainRow<T>(k: Kernel<T>, g: Grid<T>, h: nat, w: nat, i: nat, j: nat): (r: Grid<T>)
    requires Rect(g, h, w) && 1 <= i && i + 1 < h && (j > 0 ==> j + 1 < w)
    ensures Rect(r, h, w)
  {
    if j == 0 then g else RelaxCell(k, PlainRow(k, g, h, w, i, j - 1), Cell(i, j))
  }

  /** The textbook Gauss-Seidel sweep: rows 1..r top to bottom, each from column 1 to column c. */
  ghost function PlainSweep<T>(k: Kernel<T>, g: Grid<T>, h: nat, w: nat, r: nat, c: nat): (res: Grid<T>)
    requires Rect(g, h, w) && (r > 0 ==> r + 1 < h) && (c > 0 ==> c + 1 < w)
    ensures Rect(res, h, w)
  {
    if r == 0 then g else PlainRow(k, PlainSweep(k, g, h, w, r - 1, c), h, w, r, c)
  }

  lemma {:induction false} PlainRowIsSweep<T>(k: Kernel<T>, g: Grid<T>, h: nat, w: nat, i: nat, j: nat)
    requires Rect(g, h, w) && 1 <= i && i + 1 < h && (j > 0 ==> j + 1 < w)
    ensures PlainRow(k, g, h, w, i, j) == Sweep(k, g, h, w, Box(i - 1, i, 0, j))
  {
    hide Sweep, Value, RelaxCell, Rect;
    if j == 0 {
      assert Box(i - 1, i, 0, 0) == {};
      SweepNothing(k, g, h, w);
    } else {
      PlainRowIsSweep(k, g, h, w, i, j - 1);
      RelaxCellIsSweep(k, PlainRow(k, g, h, w, i, j - 1), h, w, Cell(i, j));
      Compose(k, g, h, w, Box(i - 1, i, 0, j - 1), {Cell(i, j)});
      assert Box(i - 1, i, 0, j) == Box(i - 1, i, 0, j - 1) + {Cell(i, j)};
    }
  }

  lemma {:induction false} PlainSweepIsSweep<T>(k: Kernel<T>, g: Grid<T>, h: nat, w: nat, r: nat, c: nat)
    requires Rect(g, h, w) && (r > 0 ==> r + 1 < h) && (c > 0 ==> c + 1 < w)
    ensures PlainSweep(k, g, h, w, r, c) == Sweep(k, g, h, w, Box(0, r, 0, c))
  {
    if r == 0 {
      assert Box(0, 0, 0, c) == {};
      SweepNothing(k, g, h, w);
    } else {
      PlainSweepIsSweep(k, g, h, w, r - 1, c);
      PlainRowIsSweep(k, PlainSweep(k, g, h, w, r - 1, c), h, w, r, c);
      Compose(k, g, h, w, Box(0, r - 1, 0, c), Box(r - 1, r, 0, c));
      assert Box(0, r, 0, c) == Box(0, r - 1, 0, c) + Box(r - 1, r, 0, c);
    }
  }

  // ---------------------------------------------------------------- the Jacobi step

  /** Relaxed cells are the mean of their old neighbours; all others keep what `help` holds. */
  function JacobiValue<T>(k: Kernel<T>, g: Grid<T>, help: Grid<T>, h: nat, w: nat, m: set<Cell>, i: nat, j: nat): T
    requires Rect(g, h, w) && Rect(help, h, w) && Interior(m, h, w) && i < h && j < w
  {
    if Cell(i, j) in m then k.mean(g[i][j - 1], g[i][j + 1], g[i - 1][j], g[i + 1][j]) else help[i][j]
  }

  function Jacobi<T>(k: Kernel<T>, g: Grid<T>, help: Grid<T>, h: nat, w: nat, m: set<Cell>): (r: Grid<T>)
    requires Rect(g, h, w) && Rect(help, h, w) && Interior(m, h, w)
    ensures Rect(r, h, w)
    ensures forall i, j :: 0 <= i < h && 0 <= j < w ==> r[i][j] == JacobiValue(k, g, help, h, w, m, i, j)
  {
    seq(h, i requires 0 <= i < h => seq(w, j requires 0 <= j < w => JacobiValue(k, g, help, h, w, m, i, j)))
  }

  // ---------------------------------------------------------------- residuals

  /** The residual of a step from grid `g` to grid `r`, over the cells of `m`, in no particular order. */
  ghost function GapSum<T>(k: Kernel<T>, g: Grid<T>, r: Grid<T>, h: nat, w: nat, m: set<Cell>): real
    requires Rect(g, h, w) && Rect(r, h, w) && Interior(m, h, w)
  {
    if m == {} then 0.0 else
      var c :| c in m;
      k.gap(r[c.i][c.j], g[c.i][c.j]) + GapSum(k, g, r, h, w, m - {c})
  }

  lemma GapSumNone<T>(k: Kernel<T>, g: Grid<T>, r: Grid<T>, h: nat, w: nat, m: set<Cell>)
    requires Rect(g, h, w) && Rect(r, h, w) && m == {}
    ensures GapSum(k, g, r, h, w, m) == 0.0
  {
  }

  /** Any cell of the set may be counted first. */
  lemma {:induction false} GapSumTake<T>(k: Kernel<T>, g: Grid<T>, r: Grid<T>, h: nat, w: nat, m: set<Cell>, c: Cell)
    requires Rect(g, h, w) && Rect(r, h, w) && Interior(m, h, w) && c in m
    ensures GapSum(k, g, r, h, w, m) == k.gap(r[c.i][c.j], g[c.i][c.j]) + GapSum(k, g, r, h, w, m - {c})
  {
    var d :| d in m && GapSum(k, g, r, h, w, m) == k.gap(r[d.i][d.j], g[d.i][d.j]) + GapSum(k, g, r, h, w, m - {d});
    if c != d {
      GapSumTake(k, g, r, h, w, m - {d}, c);
      GapSumTake(k, g, r, h, w, m - {c}, d);
      assert m - {d} - {c} == m - {c} - {d};
    }
  }

  lemma {:induction false} GapSumUnion<T>(k: Kernel<T>, g: Grid<T>, r: Grid<T>, h: nat, w: nat, m: set<Cell>,
                                          b: set<Cell>)
    requires Rect(g, h, w) && Rect(r, h, w) && Interior(m, h, w) && Interior(b, h, w) && m !! b
    ensures GapSum(k, g, r, h, w, m + b) == GapSum(k, g, r, h, w, m) + GapSum(k, g, r, h, w, b)
  {
    if b == {} {
      assert m + b == m;
    } else {
      var c :| c in b;
      GapSumTake(k, g, r, h, w, b, c);
      GapSumTake(k, g, r, h, w, m + b, c);
      GapSumUnion(k, g, r, h, w, m, b - {c});
      assert m + b - {c} == m + (b - {c});
    }
  }

  lemma {:induction false} GapSumAgree<T>(k: Kernel<T>, g: Grid<T>, r: Grid<T>, g': Grid<T>, r': Grid<T>, h: nat,
                                          w: nat, m: set<Cell>)
    requires Rect(g, h, w) && Rect(r, h, w) && Rect(g', h, w) && Rect(r', h, w) && Interior(m, h, w)
    requires forall c :: c in m ==> g[c.i][c.j] == g'[c.i][c.j] && r[c.i][c.j] == r'[c.i][c.j]
    ensures GapSum(k, g, r, h, w, m) == GapSum(k, g', r', h, w, m)
  {
    if m != {} {
      var c :| c in m;
      GapSumTake(k, g, r, h, w, m, c);
      GapSumTake(k, g', r', h, w, m, c);
      GapSumAgree(k, g, r, g', r', h, w, m - {c});
    }
  }

  /** The residual of two sweeps in a row is the residual of the combined sweep. */
  lemma ComposeGapSum<T>(k: Kernel<T>, g: Grid<T>, h: nat, w: nat, m: set<Cell>, b: set<Cell>)
    requires Rect(g, h, w) && Interior(m, h, w) && Interior(b, h, w) && m !! b
    ensures var g1 := Sweep(k, g, h, w, m); var g2 := Sweep(k, g1, h, w, b);
            Interior(m + b, h, w)
            && GapSum(k, g, g2, h, w, m + b) == GapSum(k, g, g1, h, w, m) + GapSum(k, g1, g2, h, w, b)
  {
    var g1 := Sweep(k, g, h, w, m);
    var g2 := Sweep(k, g1, h, w, b);
    GapSumUnion(k, g, g2, h, w, m, b);
    GapSumAgree(k, g, g2, g, g1, h, w, m);
    GapSumAgree(k, g, g2, g1, g2, h, w, b);
  }

  // ---------------------------------------------------------------- the residual of the textbook sweep

  /** What row i adds to the residual, from column 1 to column j, each cell before it is overwritten. */
  ghost function PlainRowGap<T>(k: Kernel<T>, g: Grid<T>, h: nat, w: nat, i: nat, j: nat): real
    requires Rect(g, h, w) && 1 <= i && i + 1 < h && (j > 0 ==> j + 1 < w)
  {
    if j == 0 then 0.0 else
      var before, after := PlainRow(k, g, h, w, i, j - 1), PlainRow(k, g, h, w, i, j);
      PlainRowGap(k, g, h, w, i, j - 1) + k.gap(after[i][j], before[i][j])
  }

  /** The residual the textbook sweep accumulates. */
  ghost function PlainGap<T>(k: Kernel<T>, g: Grid<T>, h: nat, w: nat, r: nat, c: nat): real
    requires Rect(g, h, w) && (r > 0 ==> r + 1 < h) && (c > 0 ==> c + 1 < w)
  {
    if r == 0 then 0.0 else
      PlainGap(k, g, h, w, r - 1, c) + PlainRowGap(k, PlainSweep(k, g, h, w, r - 1, c), h, w, r, c)
  }

  lemma CellInterior(h: nat, w: nat, i: nat, j: nat)
    requires 1 <= i && i + 1 < h && 1 <= j && j + 1 < w
    ensures Interior({Cell(i, j)}, h, w)
  {
  }

  lemma CellGap<T>(k: Kernel<T>, g: Grid<T>, h: nat, w: nat, c: Cell)
    requires Rect(g, h, w) && Interior({c}, h, w)
    ensures c in {c}
    ensures var r := Sweep(k, g, h, w, {c}); GapSum(k, g, r, h, w, {c}) == k.gap(r[c.i][c.j], g[c.i][c.j])
  {
    assert c in {c} && {c} - {c} == {};
    GapSumTake(k, g, Sweep(k, g, h, w, {c}), h, w, {c}, c);
  }

  lemma {:induction false} PlainRowGapIsGapSum<T>(k: Kernel<T>, g: Grid<T>, h: nat, w: nat, i: nat, j: nat)
    requires Rect(g, h, w) && 1 <= i && i + 1 < h && (j > 0 ==> j + 1 < w)
    ensures PlainRowGap(k, g, h, w, i, j) == GapSum(k, g, PlainRow(k, g, h, w, i, j), h, w, Box(i - 1, i, 0, j))
  {
    hide GapSum, Sweep, Value, Rect, Interior, RelaxCell;
    BoxInterior(i - 1, i, 0, j, h, w);
    if j == 0 {
      assert Box(i - 1, i, 0, 0) == {};
      GapSumNone(k, g, g, h, w, Box(i - 1, i, 0, 0));
    } else {
      BoxInterior(i - 1, i, 0, j - 1, h, w);
      CellInterior(h, w, i, j);
      var m, c := Box(i - 1, i, 0, j - 1), Cell(i, j);
      PlainRowGapIsGapSum(k, g, h, w, i, j - 1);
      PlainRowIsSweep(k, g, h, w, i, j - 1);
      var before := PlainRow(k, g, h, w, i, j - 1);
      RelaxCellIsSweep(k, before, h, w, c);
      CellGap(k, before, h, w, c);
      ComposeGapSum(k, g, h, w, m, {c});
      assert Box(i - 1, i, 0, j) == m + {c};
    }
  }

  lemma {:induction false} PlainGapIsGapSum<T>(k: Kernel<T>, g: Grid<T>, h: nat, w: nat, r: nat, c: nat)
    requires Rect(g, h, w) && (r > 0 ==> r + 1 < h) && (c > 0 ==> c + 1 < w)
    ensures PlainGap(k, g, h, w, r, c) == GapSum(k, g, PlainSweep(k, g, h, w, r, c), h, w, Box(0, r, 0, c))
  {
    hide GapSum, Sweep, Value, Rect, Interior, PlainRow, PlainRowGap;
    BoxInterior(0, r, 0, c, h, w);
    if r == 0 {
      assert Box(0, 0, 0, c) == {};
      GapSumNone(k, g, g, h, w, Box(0, 0, 0, c));
    } else {
      BoxInterior(0, r - 1, 0, c, h, w);
      BoxInterior(r - 1, r, 0, c, h, w);
      var m, b := Box(0, r - 1, 0, c), Box(r - 1, r, 0, c);
      PlainGapIsGapSum(k, g, h, w, r - 1, c);
      PlainSweepIsSweep(k, g, h, w, r - 1, c);
      var before := PlainSweep(k, g, h, w, r - 1, c);
      PlainRowIsSweep(k, before, h, w, r, c);
      PlainRowGapIsGapSum(k, before, h, w, r, c);
      ComposeGapSum(k, g, h, w, m, b);
      assert Box(0, r, 0, c) == m + b;
    }
  }
}
