/**
 The three relaxation solvers over a row-major array, as `relax_jacobi`,
 `relax_redblack` and `relax_gauss` run them: blocks of a fixed partition, each
 swept row by row, the residual accumulated along the way.
 */
module Solver {
  import opened Grids
  import opened RowMajor
  import opened Blocks

  const NB: nat := 8

  lemma ReadCell<T>(s: seq<T>, h: nat, w: nat, i: nat, j: nat)
    requires RowStart(w, h) <= |s| && i < h && j < w
    ensures RowStart(w, i) + j < RowStart(w, h)
    ensures s[RowStart(w, i) + j] == Unflatten(s, h, w)[i][j]
  {
    hide Unflatten, RowStart;
    RowStartMonotone(w, i, h);
  }

  /** The array index of a cell, as the C code computes it. */
  method Index(w: nat, i: nat, j: nat) returns (p: nat)
    ensures p == RowStart(w, i) + j
  {
    RowStartIsProduct(w, i);
    p := i * w + j;
  }

  lemma WriteCell<T>(k: Kernel<T>, s: seq<T>, h: nat, w: nat, i: nat, j: nat, v: T)
    requires RowStart(w, h) <= |s| && 1 <= i && i + 1 < h && 1 <= j && j + 1 < w
    requires var g := Unflatten(s, h, w); v == k.mean(g[i][j - 1], g[i][j + 1], g[i - 1][j], g[i + 1][j])
    ensures Interior({Cell(i, j)}, h, w) && RowStart(w, i) + j < RowStart(w, h)
    ensures Unflatten(s[RowStart(w, i) + j := v], h, w) == Sweep(k, Unflatten(s, h, w), h, w, {Cell(i, j)})
  {
    var g := Unflatten(s, h, w);
    assert RelaxCell(k, g, Cell(i, j)) == g[i := g[i][j := v]];
    UnflattenUpdate(s, h, w, i, j, v);
    assert Interior({Cell(i, j)}, h, w);
    RelaxCellIsSweep(k, g, h, w, Cell(i, j));
  }

  /** Array contents `now` come from `was` by relaxing the cells of m in place, with residual `gap`. */
  ghost predicate Relaxed<T>(k: Kernel<T>, was: seq<T>, now: seq<T>, h: nat, w: nat, m: set<Cell>, gap: real) {
    && RowStart(w, h) <= |was| && |now| == |was| && Interior(m, h, w)
    && Unflatten(now, h, w) == Sweep(k, Unflatten(was, h, w), h, w, m)
    && gap == GapSum(k, Unflatten(was, h, w), Unflatten(now, h, w), h, w, m)
    && now[RowStart(w, h)..] == was[RowStart(w, h)..]
  }

  lemma RelaxedNothing<T>(k: Kernel<T>, was: seq<T>, h: nat, w: nat)
    requires RowStart(w, h) <= |was|
    ensures Relaxed(k, was, was, h, w, {}, 0.0)
  {
    SweepNothing(k, Unflatten(was, h, w), h, w);
  }

  lemma RelaxedThen<T>(k: Kernel<T>, was: seq<T>, mid: seq<T>, now: seq<T>, h: nat, w: nat,
                       m: set<Cell>, b: set<Cell>, gap: real, gap': real)
    requires Relaxed(k, was, mid, h, w, m, gap) && Relaxed(k, mid, now, h, w, b, gap') && MayFollow(m, b)
    ensures Relaxed(k, was, now, h, w, m + b, gap + gap')
  {
    Compose(k, Unflatten(was, h, w), h, w, m, b);
    ComposeGapSum(k, Unflatten(was, h, w), h, w, m, b);
  }

  lemma CellRelaxed<T>(k: Kernel<T>, was: seq<T>, h: nat, w: nat, i: nat, j: nat, v: T)
    requires RowStart(w, h) <= |was| && 1 <= i && i + 1 < h && 1 <= j && j + 1 < w
    requires var g := Unflatten(was, h, w); v == k.mean(g[i][j - 1], g[i][j + 1], g[i - 1][j], g[i + 1][j])
    ensures RowStart(w, i) + j < RowStart(w, h)
    ensures Relaxed(k, was, was[RowStart(w, i) + j := v], h, w, {Cell(i, j)}, k.gap(v, Unflatten(was, h, w)[i][j]))
  {
    var g, r := Unflatten(was, h, w), RelaxCell(k, Unflatten(was, h, w), Cell(i, j));
    WriteCell(k, was, h, w, i, j, v);
    assert Cell(i, j) in {Cell(i, j)} && {Cell(i, j)} - {Cell(i, j)} == {};
    RelaxCellIsSweep(k, g, h, w, Cell(i, j));
    GapSumTake(k, g, r, h, w, {Cell(i, j)}, Cell(i, j));
    assert r[i][j] == v;
  }

  /** The innermost loop body of the in-place solvers. Like the methods that loop over it, it
      extends what was relaxed so far: `m`, starting from the contents `was` with residual `base`. */
  method RelaxAt<T>(k: Kernel<T>, u: array<T>, h: nat, w: nat, i: nat, j: nat, sum0: real,
                    ghost was: seq<T>, ghost m: set<Cell>, ghost base: real) returns (sum: real)
    requires Relaxed(k, was, u[..], h, w, m, sum0 - base)
    requires 1 <= i && i + 1 < h && 1 <= j && j + 1 < w && MayFollow(m, {Cell(i, j)})
    modifies u
    ensures Relaxed(k, was, u[..], h, w, m + {Cell(i, j)}, sum - base)
  {
    ghost var mid := u[..];
    var unew, gap := RelaxOne(k, u, h, w, i, j);
    sum := sum0 + gap;
    RelaxedThen(k, was, mid, u[..], h, w, m, {Cell(i, j)}, sum0 - base, gap);
  }

  method RelaxOne<T>(k: Kernel<T>, u: array<T>, h: nat, w: nat, i: nat, j: nat) returns (unew: T, gap: real)
    requires RowStart(w, h) <= u.Length && 1 <= i && i + 1 < h && 1 <= j && j + 1 < w
    modifies u
    ensures Relaxed(k, old(u[..]), u[..], h, w, {Cell(i, j)}, gap)
  {
    hide Unflatten, RowStart, Relaxed;
    ghost var mid := u[..];
    ReadCell(mid, h, w, i, j);
    ReadCell(mid, h, w, i, j - 1);
    ReadCell(mid, h, w, i, j + 1);
    ReadCell(mid, h, w, i - 1, j);
    ReadCell(mid, h, w, i + 1, j);
    var here := Index(w, i, j);
    var left := Index(w, i, j - 1);
    var right := Index(w, i, j + 1);
    var top := Index(w, i - 1, j);
    var bottom := Index(w, i + 1, j);
    unew := k.mean(u[left], u[right], u[top], u[bottom]);
    gap := k.gap(unew, u[here]);
    CellRelaxed(k, mid, h, w, i, j, unew);
    u[here] := unew;
    assert u[..] == mid[here := unew];
  }

  lemma NextColumn(m: set<Cell>, i: nat, c0: nat, c1: nat, j: nat)
    requires 0 < i && c0 < j <= c1 && MayFollow(m, Box(i - 1, i, c0, c1))
    ensures m + Box(i - 1, i, c0, j) == m + Box(i - 1, i, c0, j - 1) + {Cell(i, j)}
    ensures MayFollow(m + Box(i - 1, i, c0, j - 1), {Cell(i, j)})
  {
    assert Cell(i, j) in Box(i - 1, i, c0, c1);
    assert Box(i - 1, i, c0, j) == Box(i - 1, i, c0, j - 1) + {Cell(i, j)};
  }

  /** The innermost loop: columns c0+1..c1 of row i. */
  method RelaxRow<T>(k: Kernel<T>, u: array<T>, h: nat, w: nat, i: nat, c0: nat, c1: nat, sum0: real,
                     ghost was: seq<T>, ghost m: set<Cell>, ghost base: real) returns (sum: real)
    requires Relaxed(k, was, u[..], h, w, m, sum0 - base)
    requires 0 < i && i + 1 < h && (c1 > 0 ==> c1 + 1 < w) && MayFollow(m, Box(i - 1, i, c0, c1))
    modifies u
    ensures Relaxed(k, was, u[..], h, w, m + Box(i - 1, i, c0, c1), sum - base)
  {
    hide Relaxed;
    sum := sum0;
    ghost var done := m;
    var j: nat := 1 + c0;
    while j <= c1
      invariant j == 1 + c0 || 1 + c0 <= j <= c1 + 1
      invariant done == m + Box(i - 1, i, c0, j - 1)
      invariant Relaxed(k, was, u[..], h, w, done, sum - base)
    {
      NextColumn(m, i, c0, c1, j);
      sum := RelaxAt(k, u, h, w, i, j, sum, was, done, base);
      done := done + {Cell(i, j)};
      j := j + 1;
    }
    assert done == m + Box(i - 1, i, c0, c1);
  }

  lemma NextRow(m: set<Cell>, r0: nat, r1: nat, c0: nat, c1: nat, i: nat)
    requires r0 < i <= r1 && MayFollow(m, Box(r0, r1, c0, c1))
    ensures m + Box(r0, i, c0, c1) == m + Box(r0, i - 1, c0, c1) + Box(i - 1, i, c0, c1)
    ensures MayFollow(m + Box(r0, i - 1, c0, c1), Box(i - 1, i, c0, c1))
  {
    assert Box(i - 1, i, c0, c1) <= Box(r0, r1, c0, c1);
    assert Box(r0, i, c0, c1) == Box(r0, i - 1, c0, c1) + Box(i - 1, i, c0, c1);
  }

  /** The two inner loops of the in-place solvers, over rows r0+1..r1 and columns c0+1..c1. */
  method RelaxBox<T>(k: Kernel<T>, u: array<T>, h: nat, w: nat, r0: nat, r1: nat, c0: nat, c1: nat, sum0: real,
                     ghost was: seq<T>, ghost m: set<Cell>, ghost base: real) returns (sum: real)
    requires Relaxed(k, was, u[..], h, w, m, sum0 - base)
    requires (r1 > 0 ==> r1 + 1 < h) && (c1 > 0 ==> c1 + 1 < w) && MayFollow(m, Box(r0, r1, c0, c1))
    modifies u
    ensures Relaxed(k, was, u[..], h, w, m + Box(r0, r1, c0, c1), sum - base)
  {
    hide Relaxed;
    sum := sum0;
    ghost var done := m;
    var i: nat := 1 + r0;
    while i <= r1
      invariant i == 1 + r0 || 1 + r0 <= i <= r1 + 1
      invariant done == m + Box(r0, i - 1, c0, c1)
      invariant Relaxed(k, was, u[..], h, w, done, sum - base)
    {
      NextRow(m, r0, r1, c0, c1, i);
      sum := RelaxRow(k, u, h, w, i, c0, c1, sum, was, done, base);
      done := done + Box(i - 1, i, c0, c1);
      i := i + 1;
    }
    assert done == m + Box(r0, r1, c0, c1);
  }

  /** Block BlockId(ii, jj) of an in-place solver, with the loop bounds the C code computes,
      after the blocks of `ids`. */
  method RelaxBlock<T>(k: Kernel<T>, u: array<T>, p: Partition, ii: nat, jj: nat, sum0: real,
                       ghost was: seq<T>, ghost ids: set<BlockId>, ghost base: real) returns (sum: real)
    requires p.Valid() && ii < p.nbx && jj < p.nby && BlockMayFollow(ids, BlockId(ii, jj))
    requires Relaxed(k, was, u[..], p.h, p.w, Cover(p, ids), sum0 - base)
    modifies u
    ensures Relaxed(k, was, u[..], p.h, p.w, Cover(p, ids + {BlockId(ii, jj)}), sum - base)
  {
    hide Relaxed;
    RowStartIsProduct(p.dx, ii); RowStartIsProduct(p.dx, ii + 1);
    RowStartIsProduct(p.dy, jj); RowStartIsProduct(p.dy, jj + 1);
    var r0, r1 := ii * p.dx, Min((ii + 1) * p.dx, LastInner(p.h));
    var c0, c1 := jj * p.dy, Min((jj + 1) * p.dy, LastInner(p.w));
    assert Block(p, BlockId(ii, jj)) == Box(r0, r1, c0, c1);
    BlockLines(p, ii, jj);
    BlocksMayFollow(p, ids, BlockId(ii, jj));
    CoverAdd(p, ids, BlockId(ii, jj));
    sum := RelaxBox(k, u, p.h, p.w, r0, r1, c0, c1, sum0, was, Cover(p, ids), base);
  }

  lemma BlockLines(p: Partition, ii: nat, jj: nat)
    requires p.Valid() && ii < p.nbx && jj < p.nby
    ensures var r1 := Min(RowStart(p.dx, ii + 1), LastInner(p.h)); r1 > 0 ==> r1 + 1 < p.h
    ensures var c1 := Min(RowStart(p.dy, jj + 1), LastInner(p.w)); c1 > 0 ==> c1 + 1 < p.w
  {
    if ii + 1 < p.nbx { RowStartMonotone(p.dx, ii + 1, p.nbx); }
    if jj + 1 < p.nby { RowStartMonotone(p.dy, jj + 1, p.nby); }
  }

  ghost predicate GaussDone(ids: set<BlockId>, p: Partition, ii: nat, jj: nat) {
    forall b: BlockId :: b in ids <==> b.jj < p.nby && (b.ii < ii || (b.ii == ii && b.jj < jj))
  }

  /** `relax_gauss`: all blocks in row-major block order. */
  method RelaxGauss<T>(k: Kernel<T>, u: array<T>, sizex: nat, sizey: nat) returns (sum: real)
    requires RowStart(sizey, sizex) <= u.Length
    modifies u
    ensures Relaxed(k, old(u[..]), u[..], sizex, sizey, Swept(Split(sizex, sizey, NB, NB)), sum)
  {
    hide Relaxed;
    var p := Split(sizex, sizey, NB, NB);
    SplitValid(sizex, sizey, NB, NB);
    ghost var was := u[..];
    ghost var ids: set<BlockId> := {};
    assert Cover(p, {}) == {};
    RelaxedNothing(k, was, sizex, sizey);
    sum := 0.0;
    var ii: nat := 0;
    while ii < p.nbx
      invariant ii <= p.nbx && GaussDone(ids, p, ii, 0)
      invariant Relaxed(k, was, u[..], sizex, sizey, Cover(p, ids), sum - 0.0)
    {
      var jj: nat := 0;
      while jj < p.nby
        invariant jj <= p.nby && GaussDone(ids, p, ii, jj)
        invariant Relaxed(k, was, u[..], sizex, sizey, Cover(p, ids), sum - 0.0)
      {
        sum := RelaxBlock(k, u, p, ii, jj, sum, was, ids, 0.0);
        ids := ids + {BlockId(ii, jj)};
        jj := jj + 1;
      }
      ii := ii + 1;
    }
    assert ids == AllIds(p);
    BlocksCoverSwept(p);
  }

  ghost predicate ColourDone(ids: set<BlockId>, p: Partition, colour: nat, ii: nat, jj: nat) {
    ids == set b | b in ColourIds(p, colour) && (b.ii < ii || (b.ii == ii && b.jj < jj))
  }

  lemma ColourNext(ids: set<BlockId>, p: Partition, colour: nat, ii: nat, jj: nat)
    requires ColourDone(ids, p, colour, ii, jj) && (ii + jj) % 2 == colour && ii < p.nbx && jj < p.nby
    ensures BlockMayFollow(ids, BlockId(ii, jj)) && Within(ids, p)
    ensures ColourDone(ids + {BlockId(ii, jj)}, p, colour, ii, jj + 2)
  {
    assert (ii + (jj + 1)) % 2 != colour;
    assert BlockId(ii, jj) in ColourIds(p, colour);
  }

  lemma ColourRow(ids: set<BlockId>, p: Partition, colour: nat, ii: nat, jj: nat)
    requires ColourDone(ids, p, colour, ii, jj)
    ensures jj == 0 && colour < 2 ==> ColourDone(ids, p, colour, ii, (ii + colour) % 2)
    ensures jj >= p.nby ==> ColourDone(ids, p, colour, ii + 1, 0)
    ensures ii >= p.nbx ==> ids == ColourIds(p, colour)
  {
  }

  /** One colour of `relax_redblack`: in block row ii, every second block from column (ii + colour) % 2. */
  method RelaxColour<T>(k: Kernel<T>, u: array<T>, p: Partition, colour: nat, sum0: real) returns (sum: real)
    requires p.Valid() && RowStart(p.w, p.h) <= u.Length && colour < 2
    modifies u
    ensures Relaxed(k, old(u[..]), u[..], p.h, p.w, Cover(p, ColourIds(p, colour)), sum - sum0)
  {
    hide Relaxed;
    ghost var was := u[..];
    ghost var ids: set<BlockId> := {};
    assert Cover(p, {}) == {};
    RelaxedNothing(k, was, p.h, p.w);
    sum := sum0;
    var ii: nat := 0;
    while ii < p.nbx
      invariant ii <= p.nbx && ColourDone(ids, p, colour, ii, 0)
      invariant Relaxed(k, was, u[..], p.h, p.w, Cover(p, ids), sum - sum0)
    {
      var lsw := (ii + colour) % 2;
      var jj: nat := lsw;
      ColourRow(ids, p, colour, ii, 0);
      while jj < p.nby
        invariant (ii + jj) % 2 == colour && ColourDone(ids, p, colour, ii, jj)
        invariant Relaxed(k, was, u[..], p.h, p.w, Cover(p, ids), sum - sum0)
      {
        ColourNext(ids, p, colour, ii, jj);
        sum := RelaxBlock(k, u, p, ii, jj, sum, was, ids, sum0);
        ids := ids + {BlockId(ii, jj)};
        jj := jj + 2;
      }
      ColourRow(ids, p, colour, ii, jj);
      ii := ii + 1;
    }
    ColourRow(ids, p, colour, ii, 0);
  }

  /** Two passes over disjoint cell sets: the residuals add up to that of the whole step. */
  lemma TwoPasses<T>(k: Kernel<T>, was: seq<T>, mid: seq<T>, now: seq<T>, h: nat, w: nat,
                     red: set<Cell>, black: set<Cell>, gap: real, gap': real)
    requires Relaxed(k, was, mid, h, w, red, gap) && Relaxed(k, mid, now, h, w, black, gap') && red !! black
    ensures Interior(red + black, h, w)
    ensures gap + gap' == GapSum(k, Unflatten(was, h, w), Unflatten(now, h, w), h, w, red + black)
  {
    ComposeGapSum(k, Unflatten(was, h, w), h, w, red, black);
  }

  /** `relax_redblack`: the red blocks, then the black ones, which see the red blocks' new values. */
  method RelaxRedBlack<T>(k: Kernel<T>, u: array<T>, sizex: nat, sizey: nat) returns (sum: real)
    requires RowStart(sizey, sizex) <= u.Length
    modifies u
    ensures RedBlackStep(k, old(u[..]), u[..], sizex, sizey, sum)
  {
    var p := Split(sizex, sizey, NB, NB);
    SplitValid(sizex, sizey, NB, NB);
    ghost var was := u[..];
    sum := RelaxColour(k, u, p, 0, 0.0);
    ghost var mid, first := u[..], sum;
    sum := RelaxColour(k, u, p, 1, sum);
    ColoursPartition(p);
    TwoPasses(k, was, mid, u[..], sizex, sizey, Cover(p, ColourIds(p, 0)), Cover(p, ColourIds(p, 1)), first,
      sum - first);
  }

  /** What one red-black iteration does: black cells over the grid the red pass left, and one residual for both. */
  ghost predicate RedBlackStep<T>(k: Kernel<T>, was: seq<T>, now: seq<T>, h: nat, w: nat, sum: real) {
    var p := Split(h, w, NB, NB);
    var red, black := Cover(p, ColourIds(p, 0)), Cover(p, ColourIds(p, 1));
    && RowStart(w, h) <= |was| && |now| == |was| && now[RowStart(w, h)..] == was[RowStart(w, h)..]
    && Interior(red, h, w) && Interior(black, h, w) && Interior(Swept(p), h, w)
    && Unflatten(now, h, w) == Sweep(k, Sweep(k, Unflatten(was, h, w), h, w, red), h, w, black)
    && sum == GapSum(k, Unflatten(was, h, w), Unflatten(now, h, w), h, w, Swept(p))
  }

  /** Blocked Gauss-Seidel is the plain row-major sweep of the same rectangle, with the residual that accumulates. */
  lemma GaussIsPlainSweep<T>(k: Kernel<T>, was: seq<T>, now: seq<T>, sizex: nat, sizey: nat, sum: real)
    requires Relaxed(k, was, now, sizex, sizey, Swept(Split(sizex, sizey, NB, NB)), sum)
    ensures var p := Split(sizex, sizey, NB, NB);
            var r, c := Min(RowStart(p.dx, NB), LastInner(sizex)), Min(RowStart(p.dy, NB), LastInner(sizey));
            (r > 0 ==> r + 1 < sizex) && (c > 0 ==> c + 1 < sizey)
            && Unflatten(now, sizex, sizey) == PlainSweep(k, Unflatten(was, sizex, sizey), sizex, sizey, r, c)
            && sum == PlainGap(k, Unflatten(was, sizex, sizey), sizex, sizey, r, c)
  {
    SplitValid(sizex, sizey, NB, NB);
    var p := Split(sizex, sizey, NB, NB);
    var r, c := Min(RowStart(p.dx, NB), LastInner(sizex)), Min(RowStart(p.dy, NB), LastInner(sizey));
    PlainSweepIsSweep(k, Unflatten(was, sizex, sizey), sizex, sizey, r, c);
    PlainGapIsGapSum(k, Unflatten(was, sizex, sizey), sizex, sizey, r, c);
  }

  // ---------------------------------------------------------------- relax_jacobi

  /** `now` is `was` with the cells of m set to the mean of their neighbours in `src`. */
  ghost predicate Averaged<T>(k: Kernel<T>, src: seq<T>, was: seq<T>, now: seq<T>, h: nat, w: nat, m: set<Cell>,
                              gap: real) {
    && RowStart(w, h) <= |src| && RowStart(w, h) <= |was| && |now| == |was| && Interior(m, h, w)
    && Unflatten(now, h, w) == Jacobi(k, Unflatten(src, h, w), Unflatten(was, h, w), h, w, m)
    && gap == GapSum(k, Unflatten(src, h, w), Unflatten(now, h, w), h, w, m)
    && now[RowStart(w, h)..] == was[RowStart(w, h)..]
  }

  lemma AveragedNothing<T>(k: Kernel<T>, src: seq<T>, was: seq<T>, h: nat, w: nat)
    requires RowStart(w, h) <= |src| && RowStart(w, h) <= |was|
    ensures Averaged(k, src, was, was, h, w, {}, 0.0)
  {
    SameGrid(Unflatten(was, h, w), Jacobi(k, Unflatten(src, h, w), Unflatten(was, h, w), h, w, {}), h, w);
  }

  lemma JacobiCell<T>(k: Kernel<T>, g: Grid<T>, help: Grid<T>, h: nat, w: nat, m: set<Cell>, i: nat, j: nat)
    requires Rect(g, h, w) && Rect(help, h, w) && Interior(m, h, w) && Cell(i, j) !in m
    requires 1 <= i && i + 1 < h && 1 <= j && j + 1 < w
    ensures Interior(m + {Cell(i, j)}, h, w)
    ensures var v := k.mean(g[i][j - 1], g[i][j + 1], g[i - 1][j], g[i + 1][j]);
            var r := Jacobi(k, g, help, h, w, m);
            var r' := r[i := r[i][j := v]];
            r' == Jacobi(k, g, help, h, w, m + {Cell(i, j)})
            && GapSum(k, g, r', h, w, m + {Cell(i, j)}) == GapSum(k, g, r, h, w, m) + k.gap(v, g[i][j])
  {
    var v := k.mean(g[i][j - 1], g[i][j + 1], g[i - 1][j], g[i + 1][j]);
    var r := Jacobi(k, g, help, h, w, m);
    var r' := r[i := r[i][j := v]];
    var m' := m + {Cell(i, j)};
    assert Interior(m', h, w);
    SameGrid(r', Jacobi(k, g, help, h, w, m'), h, w);
    GapSumTake(k, g, r', h, w, m', Cell(i, j));
    assert m' - {Cell(i, j)} == m;
    GapSumAgree(k, g, r', g, r, h, w, m);
  }

  lemma AveragedThen<T>(k: Kernel<T>, src: seq<T>, was: seq<T>, now: seq<T>, h: nat, w: nat, m: set<Cell>, gap: real,
                        i: nat, j: nat, v: T)
    requires Averaged(k, src, was, now, h, w, m, gap) && Cell(i, j) !in m
    requires 1 <= i && i + 1 < h && 1 <= j && j + 1 < w
    requires var g := Unflatten(src, h, w); v == k.mean(g[i][j - 1], g[i][j + 1], g[i - 1][j], g[i + 1][j])
    ensures RowStart(w, i) + j < RowStart(w, h)
    ensures Averaged(k, src, was, now[RowStart(w, i) + j := v], h, w, m + {Cell(i, j)},
      gap + k.gap(v, Unflatten(src, h, w)[i][j]))
  {
    UnflattenUpdate(now, h, w, i, j, v);
    JacobiCell(k, Unflatten(src, h, w), Unflatten(was, h, w), h, w, m, i, j);
  }

  /** The innermost loop body of `relax_jacobi`. */
  method AverageOne<T>(k: Kernel<T>, u: array<T>, utmp: array<T>, h: nat, w: nat, i: nat, j: nat)
    returns (unew: T, gap: real)
    requires u != utmp && RowStart(w, h) <= u.Length && RowStart(w, h) <= utmp.Length
    requires 1 <= i && i + 1 < h && 1 <= j && j + 1 < w
    modifies utmp
    ensures RowStart(w, i) + j < RowStart(w, h)
    ensures utmp[..] == old(utmp[..])[RowStart(w, i) + j := unew]
    ensures var g := Unflatten(u[..], h, w);
            unew == k.mean(g[i][j - 1], g[i][j + 1], g[i - 1][j], g[i + 1][j]) && gap == k.gap(unew, g[i][j])
  {
    hide Unflatten, RowStart;
    ghost var src := u[..];
    ReadCell(src, h, w, i, j);
    ReadCell(src, h, w, i, j - 1);
    ReadCell(src, h, w, i, j + 1);
    ReadCell(src, h, w, i - 1, j);
    ReadCell(src, h, w, i + 1, j);
    var here := Index(w, i, j);
    var left := Index(w, i, j - 1);
    var right := Index(w, i, j + 1);
    var top := Index(w, i - 1, j);
    var bottom := Index(w, i + 1, j);
    unew := k.mean(u[left], u[right], u[top], u[bottom]);
    gap := k.gap(unew, u[here]);
    utmp[here] := unew;
    assert u[..] == src;
  }

  /** The same, after the cells of m. `src` is what `u` holds throughout. */
  method AverageAt<T>(k: Kernel<T>, u: array<T>, utmp: array<T>, h: nat, w: nat, i: nat, j: nat, sum0: real,
                      ghost src: seq<T>, ghost was: seq<T>, ghost m: set<Cell>, ghost base: real) returns (sum: real)
    requires u != utmp && src == u[..] && Averaged(k, src, was, utmp[..], h, w, m, sum0 - base)
    requires 1 <= i && i + 1 < h && 1 <= j && j + 1 < w && Cell(i, j) !in m
    modifies utmp
    ensures Averaged(k, src, was, utmp[..], h, w, m + {Cell(i, j)}, sum - base)
  {
    ghost var mid := utmp[..];
    var unew, gap := AverageOne(k, u, utmp, h, w, i, j);
    assert u[..] == src;
    sum := sum0 + gap;
    AveragedThen(k, src, was, mid, h, w, m, sum0 - base, i, j, unew);
    assert sum - base == sum0 - base + gap;
  }

  method AverageRow<T>(k: Kernel<T>, u: array<T>, utmp: array<T>, h: nat, w: nat, i: nat, c0: nat, c1: nat, sum0: real,
                       ghost src: seq<T>, ghost was: seq<T>, ghost m: set<Cell>, ghost base: real) returns (sum: real)
    requires u != utmp && src == u[..] && Averaged(k, src, was, utmp[..], h, w, m, sum0 - base)
    requires 0 < i && i + 1 < h && (c1 > 0 ==> c1 + 1 < w) && MayFollow(m, Box(i - 1, i, c0, c1))
    modifies utmp
    ensures Averaged(k, src, was, utmp[..], h, w, m + Box(i - 1, i, c0, c1), sum - base)
  {
    hide Averaged;
    sum := sum0;
    ghost var done := m;
    var j: nat := 1 + c0;
    while j <= c1
      invariant j == 1 + c0 || 1 + c0 <= j <= c1 + 1
      invariant u[..] == src && done == m + Box(i - 1, i, c0, j - 1)
      invariant Averaged(k, src, was, utmp[..], h, w, done, sum - base)
    {
      NextColumn(m, i, c0, c1, j);
      sum := AverageAt(k, u, utmp, h, w, i, j, sum, src, was, done, base);
      done := done + {Cell(i, j)};
      j := j + 1;
    }
    assert done == m + Box(i - 1, i, c0, c1);
  }

  method AverageBox<T>(k: Kernel<T>, u: array<T>, utmp: array<T>, h: nat, w: nat, r0: nat, r1: nat, c0: nat, c1: nat,
                       ghost src: seq<T>, ghost was: seq<T>, ghost m: set<Cell>, ghost sum: real)
    returns (local_sum: real)
    requires u != utmp && src == u[..] && Averaged(k, src, was, utmp[..], h, w, m, sum)
    requires (r1 > 0 ==> r1 + 1 < h) && (c1 > 0 ==> c1 + 1 < w) && MayFollow(m, Box(r0, r1, c0, c1))
    modifies utmp
    ensures Averaged(k, src, was, utmp[..], h, w, m + Box(r0, r1, c0, c1), sum + local_sum)
  {
    hide Averaged;
    local_sum := 0.0;
    ghost var done, base := m, 0.0 - sum;
    var i: nat := 1 + r0;
    while i <= r1
      invariant i == 1 + r0 || 1 + r0 <= i <= r1 + 1
      invariant u[..] == src && done == m + Box(r0, i - 1, c0, c1)
      invariant Averaged(k, src, was, utmp[..], h, w, done, local_sum - base)
    {
      NextRow(m, r0, r1, c0, c1, i);
      local_sum := AverageRow(k, u, utmp, h, w, i, c0, c1, local_sum, src, was, done, base);
      done := done + Box(i - 1, i, c0, c1);
      i := i + 1;
    }
    assert done == m + Box(r0, r1, c0, c1);
    assert local_sum - base == sum + local_sum;
  }

  /** Block BlockId(ii, jj) of `relax_jacobi`, after the blocks of `ids`. */
  method AverageBlock<T>(k: Kernel<T>, u: array<T>, utmp: array<T>, p: Partition, ii: nat, jj: nat, sum0: real,
                         ghost src: seq<T>, ghost was: seq<T>, ghost ids: set<BlockId>) returns (sum: real)
    requires p.Valid() && ii < p.nbx && jj < p.nby && BlockMayFollow(ids, BlockId(ii, jj))
    requires u != utmp && src == u[..] && Averaged(k, src, was, utmp[..], p.h, p.w, Cover(p, ids), sum0)
    modifies utmp
    ensures Averaged(k, src, was, utmp[..], p.h, p.w, Cover(p, ids + {BlockId(ii, jj)}), sum)
  {
    hide Averaged;
    RowStartIsProduct(p.dx, ii); RowStartIsProduct(p.dx, ii + 1);
    RowStartIsProduct(p.dy, jj); RowStartIsProduct(p.dy, jj + 1);
    var r0, r1 := ii * p.dx, Min((ii + 1) * p.dx, LastInner(p.h));
    var c0, c1 := jj * p.dy, Min((jj + 1) * p.dy, LastInner(p.w));
    assert Block(p, BlockId(ii, jj)) == Box(r0, r1, c0, c1);
    BlockLines(p, ii, jj);
    BlocksMayFollow(p, ids, BlockId(ii, jj));
    CoverAdd(p, ids, BlockId(ii, jj));
    var local_sum := AverageBox(k, u, utmp, p.h, p.w, r0, r1, c0, c1, src, was, Cover(p, ids), sum0);
    sum := sum0 + local_sum;
  }

  /** `relax_jacobi`: one block row, NB block columns, results written to `utmp`. The size of at
      least two rows is what every caller passes (the rows of a slab plus two). */
  method RelaxJacobi<T>(k: Kernel<T>, u: array<T>, utmp: array<T>, sizex: nat, sizey: nat) returns (sum: real)
    requires u != utmp && sizex >= 2
    requires RowStart(sizey, sizex) <= u.Length && RowStart(sizey, sizex) <= utmp.Length
    modifies utmp
    ensures Averaged(k, u[..], old(utmp[..]), utmp[..], sizex, sizey, Swept(Split(sizex, sizey, 1, NB)), sum)
  {
    hide Averaged;
    var p := Split(sizex, sizey, 1, NB);
    SplitValid(sizex, sizey, 1, NB);
    ghost var src, was := u[..], utmp[..];
    ghost var ids: set<BlockId> := {};
    assert Cover(p, {}) == {};
    AveragedNothing(k, src, was, sizex, sizey);
    sum := 0.0;
    var ii: nat := 0;
    while ii < p.nbx
      invariant ii <= p.nbx && u[..] == src && GaussDone(ids, p, ii, 0)
      invariant Averaged(k, src, was, utmp[..], sizex, sizey, Cover(p, ids), sum)
    {
      var jj: nat := 0;
      while jj < p.nby
        invariant jj <= p.nby && u[..] == src && GaussDone(ids, p, ii, jj)
        invariant Averaged(k, src, was, utmp[..], sizex, sizey, Cover(p, ids), sum)
      {
        sum := AverageBlock(k, u, utmp, p, ii, jj, sum, src, was, ids);
        ids := ids + {BlockId(ii, jj)};
        jj := jj + 1;
      }
      ii := ii + 1;
    }
    assert ids == AllIds(p);
    BlocksCoverSwept(p);
  }

  // ---------------------------------------------------------------- every element after an iteration

  /** Cell (i, j) is element i * w + j of the array. */
  lemma ElementIndex<T>(s: seq<T>, h: nat, w: nat, i: nat, j: nat)
    requires RowStart(w, h) <= |s| && i < h && j < w
    ensures i * w + j < |s| && Unflatten(s, h, w)[i][j] == s[i * w + j]
  {
    ReadCell(s, h, w, i, j);
    RowStartIsProduct(w, i);
  }

  lemma SweptLines(n: nat, a: nat)
    ensures 0 < a <= Min(RowStart(n / 8, 8), LastInner(n)) <==> 1 <= a <= 8 * (n / 8) && a + 2 <= n
  {
    RowStartIsProduct(n / 8, 8);
  }

  /** The cells blocks of an eighth of the lines cover. */
  lemma SweptCells(sizex: nat, sizey: nat, i: nat, j: nat)
    ensures Cell(i, j) in Swept(Split(sizex, sizey, NB, NB))
       <==> (1 <= i <= 8 * (sizex / 8) && i + 2 <= sizex && 1 <= j <= 8 * (sizey / 8) && j + 2 <= sizey)
  {
    hide RowStart, Min, LastInner;
    SweptLines(sizex, i);
    SweptLines(sizey, j);
  }

  lemma SweptElement<T>(k: Kernel<T>, was: Grid<T>, now: Grid<T>, h: nat, w: nat, m: set<Cell>, i: nat, j: nat)
    requires Rect(was, h, w) && Interior(m, h, w) && now == Sweep(k, was, h, w, m) && i < h && j < w
    ensures if Cell(i, j) in m
            then 1 <= i && i + 1 < h && 1 <= j && j + 1 < w
              && now[i][j] == k.mean(now[i][j - 1], was[i][j + 1], now[i - 1][j], was[i + 1][j])
            else now[i][j] == was[i][j]
  {
  }

  /** `relax_gauss`: elements of the rows and columns in whole eighths become the mean of their new left and top and
      their old right and bottom element; all others keep their value. */
  lemma GaussElement<T>(k: Kernel<T>, s: seq<T>, t: seq<T>, sizex: nat, sizey: nat, sum: real, i: nat, j: nat)
    requires Relaxed(k, s, t, sizex, sizey, Swept(Split(sizex, sizey, NB, NB)), sum)
    requires i < sizex && j < sizey
    ensures var was, now := Unflatten(s, sizex, sizey), Unflatten(t, sizex, sizey);
      now[i][j] == if 1 <= i <= 8 * (sizex / 8) && i + 2 <= sizex && 1 <= j <= 8 * (sizey / 8) && j + 2 <= sizey
                   then k.mean(now[i][j - 1], was[i][j + 1], now[i - 1][j], was[i + 1][j]) else was[i][j]
  {
    hide Unflatten, Sweep, Swept, GapSum, RowStart;
    SweptCells(sizex, sizey, i, j);
    SweptElement(k, Unflatten(s, sizex, sizey), Unflatten(t, sizex, sizey), sizex, sizey,
                 Swept(Split(sizex, sizey, NB, NB)), i, j);
  }

  /** Its result is the residual over those elements. */
  lemma GaussSum<T>(k: Kernel<T>, s: seq<T>, t: seq<T>, sizex: nat, sizey: nat, sum: real, m: set<Cell>)
    requires Relaxed(k, s, t, sizex, sizey, Swept(Split(sizex, sizey, NB, NB)), sum)
    requires forall c: Cell :: c in m <==>
      (1 <= c.i <= 8 * (sizex / 8) && c.i + 2 <= sizex && 1 <= c.j <= 8 * (sizey / 8) && c.j + 2 <= sizey)
    ensures Interior(m, sizex, sizey)
    ensures sum == GapSum(k, Unflatten(s, sizex, sizey), Unflatten(t, sizex, sizey), sizex, sizey, m)
  {
    SweptIs(sizex, sizey, m);
  }

  lemma SweptIs(sizex: nat, sizey: nat, m: set<Cell>)
    requires forall c: Cell :: c in m <==>
      (1 <= c.i <= 8 * (sizex / 8) && c.i + 2 <= sizex && 1 <= c.j <= 8 * (sizey / 8) && c.j + 2 <= sizey)
    ensures m == Swept(Split(sizex, sizey, NB, NB))
  {
    hide Swept;
    forall c: Cell ensures c in m <==> c in Swept(Split(sizex, sizey, NB, NB)) {
      SweptCells(sizex, sizey, c.i, c.j);
      assert c == Cell(c.i, c.j);
    }
  }

  /** The cells one block row of an eighth of the columns each covers. */
  lemma SweptColumns(sizex: nat, sizey: nat, i: nat, j: nat)
    requires sizex >= 2
    ensures Cell(i, j) in Swept(Split(sizex, sizey, 1, NB))
       <==> (1 <= i && i + 2 <= sizex && 1 <= j <= 8 * (sizey / 8) && j + 2 <= sizey)
  {
    SweptLines(sizey, j);
    RowStartIsProduct(sizex / 1, 1);
    assert sizex / 1 == sizex;
  }

  /** `relax_jacobi`: elements of all inner rows and of the columns in whole eighths become the mean of the four old
      neighbours; all others of `utmp` keep their value. */
  lemma JacobiElement<T>(k: Kernel<T>, u: seq<T>, s: seq<T>, t: seq<T>, sizex: nat, sizey: nat, sum: real, i: nat,
                         j: nat)
    requires sizex >= 2 && Averaged(k, u, s, t, sizex, sizey, Swept(Split(sizex, sizey, 1, NB)), sum)
    requires i < sizex && j < sizey
    ensures var src, was, now := Unflatten(u, sizex, sizey), Unflatten(s, sizex, sizey), Unflatten(t, sizex, sizey);
      now[i][j] == if 1 <= i && i + 2 <= sizex && 1 <= j <= 8 * (sizey / 8) && j + 2 <= sizey
                   then k.mean(src[i][j - 1], src[i][j + 1], src[i - 1][j], src[i + 1][j]) else was[i][j]
  {
    hide Unflatten, Swept, GapSum, RowStart;
    SweptColumns(sizex, sizey, i, j);
  }

  lemma JacobiSum<T>(k: Kernel<T>, u: seq<T>, s: seq<T>, t: seq<T>, sizex: nat, sizey: nat, sum: real, m: set<Cell>)
    requires sizex >= 2 && Averaged(k, u, s, t, sizex, sizey, Swept(Split(sizex, sizey, 1, NB)), sum)
    requires forall c: Cell :: c in m <==>
      (1 <= c.i && c.i + 2 <= sizex && 1 <= c.j <= 8 * (sizey / 8) && c.j + 2 <= sizey)
    ensures Interior(m, sizex, sizey)
    ensures sum == GapSum(k, Unflatten(u, sizex, sizey), Unflatten(t, sizex, sizey), sizex, sizey, m)
  {
    hide Swept, Unflatten, GapSum, RowStart, Jacobi;
    forall c: Cell ensures c in m <==> c in Swept(Split(sizex, sizey, 1, NB)) {
      SweptColumns(sizex, sizey, c.i, c.j);
      assert c == Cell(c.i, c.j);
    }
    assert m == Swept(Split(sizex, sizey, 1, NB));
  }

  // ---------------------------------------------------------------- red and black elements

  /** Line a of a block of d lines each lies in block (a - 1) / d. */
  lemma BlockOfLine(d: nat, b: nat, a: nat)
    requires RowStart(d, b) < a <= RowStart(d, b + 1)
    ensures d > 0 && b == (a - 1) / d
  {
    RowStartIsProduct(d, b);
    RowStartIsProduct(d, b + 1);
    assert d > 0;
    QuotientIs(a - 1, d, b);
  }

  lemma QuotientIs(x: nat, d: nat, b: nat)
    requires d > 0 && b * d <= x < (b + 1) * d
    ensures x / d == b
  {
    assert x == d * (x / d) + x % d;
    QuotientUnique(x / d, x % d, b, d);
  }

  lemma QuotientUnique(q: nat, r: nat, b: nat, d: nat)
    requires r < d && b * d <= q * d + r < (b + 1) * d
    ensures q == b
  {
    if q < b {
      TimesMonotone(q + 1, b, d);
    } else if b < q {
      TimesMonotone(b + 1, q, d);
    }
  }

  lemma TimesMonotone(a: nat, b: nat, d: nat)
    requires a <= b
    ensures a * d <= b * d
  {
  }

  /** The next line is in the same block, or in the next block exactly after the last line of one. */
  lemma NextLine(d: nat, a: nat)
    requires d > 0 && a >= 1
    ensures a / d == (a - 1) / d + if a % d == 0 then 1 else 0
  {
    var q, r := (a - 1) / d, (a - 1) % d;
    assert a - 1 == d * q + r;
    if r + 1 == d {
      QuotientIs(a, d, q + 1);
      assert a == d * (q + 1);
      assert a == d * (a / d) + a % d;
    } else {
      QuotientIs(a, d, q);
      assert a == d * (a / d) + a % d;
    }
  }

  /** The cells of a colour, by the block they lie in. */
  lemma ColourOfCell(sizex: nat, sizey: nat, colour: nat, i: nat, j: nat)
    ensures Cell(i, j) in Cover(Split(sizex, sizey, NB, NB), ColourIds(Split(sizex, sizey, NB, NB), colour))
       <==> (1 <= i <= 8 * (sizex / 8) && i + 2 <= sizex && 1 <= j <= 8 * (sizey / 8) && j + 2 <= sizey
             && ((i - 1) / (sizex / 8) + (j - 1) / (sizey / 8)) % 2 == colour)
  {
    hide Swept, RowStart, Block, Interior;
    var p := Split(sizex, sizey, NB, NB);
    SplitValid(sizex, sizey, NB, NB);
    SweptCells(sizex, sizey, i, j);
    BlocksCoverSwept(p);
    CoverInterior(p, ColourIds(p, colour));
    if b :| b in AllIds(p) && Cell(i, j) in Block(p, b) {
      BlockOfCell(p, b, i, j);
      assert Cell(i, j) in Cover(p, ColourIds(p, colour)) <==> (b.ii + b.jj) % 2 == colour by {
        if b' :| b' in ColourIds(p, colour) && Cell(i, j) in Block(p, b') {
          BlockOfCell(p, b', i, j);
        }
      }
    }
  }

  lemma BlockOfCell(p: Partition, b: BlockId, i: nat, j: nat)
    requires Cell(i, j) in Block(p, b)
    ensures i >= 1 && j >= 1 && p.dx > 0 && p.dy > 0 && b == BlockId((i - 1) / p.dx, (j - 1) / p.dy)
  {
    BlockOfLine(p.dx, b.ii, i);
    BlockOfLine(p.dy, b.jj, j);
  }

  /** Between the passes, a red cell already has its final value, and any other still the old one. */
  lemma BetweenPasses<T>(k: Kernel<T>, was: Grid<T>, mid: Grid<T>, now: Grid<T>, h: nat, w: nat,
                         red: set<Cell>, black: set<Cell>, i: nat, j: nat)
    requires Rect(was, h, w) && Interior(red, h, w) && Interior(black, h, w) && red !! black && i < h && j < w
    requires mid == Sweep(k, was, h, w, red) && now == Sweep(k, mid, h, w, black)
    ensures Cell(i, j) !in black ==> mid[i][j] == now[i][j]
    ensures Cell(i, j) !in red ==> mid[i][j] == was[i][j]
  {
    hide Sweep;
    SweptElement(k, was, mid, h, w, red, i, j);
    SweptElement(k, mid, now, h, w, black, i, j);
  }

  /** `relax_redblack`: elements of the rows and columns in whole eighths become the mean of their neighbours. A red
      element reads new values of its own block and old ones of the black blocks around, a black element reads new
      values of the red blocks around; within a block it is left and top that are new. */
  lemma RedBlackElement<T>(k: Kernel<T>, s: seq<T>, t: seq<T>, sizex: nat, sizey: nat, sum: real, i: nat, j: nat)
    requires RedBlackStep(k, s, t, sizex, sizey, sum) && i < sizex && j < sizey
    ensures var was, now := Unflatten(s, sizex, sizey), Unflatten(t, sizex, sizey);
      var dx, dy := sizex / 8, sizey / 8;
      now[i][j] ==
        if !(1 <= i <= 8 * dx && i + 2 <= sizex && 1 <= j <= 8 * dy && j + 2 <= sizey) then was[i][j]
        else if ((i - 1) / dx + (j - 1) / dy) % 2 == 0 then
          k.mean(if (j - 1) % dy == 0 then was[i][j - 1] else now[i][j - 1], was[i][j + 1],
                 if (i - 1) % dx == 0 then was[i - 1][j] else now[i - 1][j], was[i + 1][j])
        else
          k.mean(now[i][j - 1], if j % dy == 0 then now[i][j + 1] else was[i][j + 1],
                 now[i - 1][j], if i % dx == 0 then now[i + 1][j] else was[i + 1][j])
  {
    hide Unflatten, Sweep, GapSum, Cover, ColourIds, Swept, Interior;
    var p := Split(sizex, sizey, NB, NB);
    var red, black := Cover(p, ColourIds(p, 0)), Cover(p, ColourIds(p, 1));
    SplitValid(sizex, sizey, NB, NB);
    ColoursPartition(p);
    var was, now := Unflatten(s, sizex, sizey), Unflatten(t, sizex, sizey);
    var mid := Sweep(k, was, sizex, sizey, red);
    ColourOfCell(sizex, sizey, 0, i, j);
    ColourOfCell(sizex, sizey, 1, i, j);
    BetweenPasses(k, was, mid, now, sizex, sizey, red, black, i, j);
    SweptElement(k, was, mid, sizex, sizey, red, i, j);
    SweptElement(k, mid, now, sizex, sizey, black, i, j);
    if Cell(i, j) in red {
      NeighbourBefore(k, was, mid, now, sizex, sizey, i, j);
    } else if Cell(i, j) in black {
      NeighbourAfter(k, was, mid, now, sizex, sizey, i, j);
    }
  }

  ghost predicate Passes<T>(k: Kernel<T>, was: Grid<T>, mid: Grid<T>, now: Grid<T>, sizex: nat, sizey: nat) {
    var p := Split(sizex, sizey, NB, NB);
    var red, black := Cover(p, ColourIds(p, 0)), Cover(p, ColourIds(p, 1));
    && Rect(was, sizex, sizey) && Interior(red, sizex, sizey) && Interior(black, sizex, sizey) && red !! black
    && mid == Sweep(k, was, sizex, sizey, red) && now == Sweep(k, mid, sizex, sizey, black)
  }

  lemma CellBetween<T>(k: Kernel<T>, was: Grid<T>, mid: Grid<T>, now: Grid<T>, sizex: nat, sizey: nat, i: nat, j: nat)
    requires Passes(k, was, mid, now, sizex, sizey) && i < sizex && j < sizey
    ensures Rect(mid, sizex, sizey) && Rect(now, sizex, sizey)
    ensures !(1 <= i <= 8 * (sizex / 8) && i + 2 <= sizex && 1 <= j <= 8 * (sizey / 8) && j + 2 <= sizey)
            ==> was[i][j] == mid[i][j] == now[i][j]
    ensures (1 <= i <= 8 * (sizex / 8) && i + 2 <= sizex && 1 <= j <= 8 * (sizey / 8) && j + 2 <= sizey)
            ==> if ((i - 1) / (sizex / 8) + (j - 1) / (sizey / 8)) % 2 == 0
                then mid[i][j] == now[i][j] else mid[i][j] == was[i][j]
  {
    hide Sweep, Cover, ColourIds, Interior;
    ColourOfCell(sizex, sizey, 0, i, j);
    ColourOfCell(sizex, sizey, 1, i, j);
    var p := Split(sizex, sizey, NB, NB);
    BetweenPasses(k, was, mid, now, sizex, sizey, Cover(p, ColourIds(p, 0)), Cover(p, ColourIds(p, 1)), i, j);
  }

  /** What a red cell finds to its left and above. */
  lemma NeighbourBefore<T>(k: Kernel<T>, was: Grid<T>, mid: Grid<T>, now: Grid<T>, sizex: nat, sizey: nat, i: nat,
                           j: nat)
    requires Passes(k, was, mid, now, sizex, sizey)
    requires 1 <= i <= 8 * (sizex / 8) && i + 2 <= sizex && 1 <= j <= 8 * (sizey / 8) && j + 2 <= sizey
    requires ((i - 1) / (sizex / 8) + (j - 1) / (sizey / 8)) % 2 == 0
    ensures Rect(mid, sizex, sizey) && Rect(now, sizex, sizey)
    ensures mid[i][j - 1] == if (j - 1) % (sizey / 8) == 0 then was[i][j - 1] else now[i][j - 1]
    ensures mid[i - 1][j] == if (i - 1) % (sizex / 8) == 0 then was[i - 1][j] else now[i - 1][j]
  {
    hide Passes;
    CellBetween(k, was, mid, now, sizex, sizey, i, j - 1);
    CellBetween(k, was, mid, now, sizex, sizey, i - 1, j);
    if j > 1 {
      NextLine(sizey / 8, j - 1);
    }
    if i > 1 {
      NextLine(sizex / 8, i - 1);
    }
  }

  /** What a black cell finds to its right and below. */
  lemma NeighbourAfter<T>(k: Kernel<T>, was: Grid<T>, mid: Grid<T>, now: Grid<T>, sizex: nat, sizey: nat, i: nat,
                          j: nat)
    requires Passes(k, was, mid, now, sizex, sizey)
    requires 1 <= i <= 8 * (sizex / 8) && i + 2 <= sizex && 1 <= j <= 8 * (sizey / 8) && j + 2 <= sizey
    requires ((i - 1) / (sizex / 8) + (j - 1) / (sizey / 8)) % 2 == 1
    ensures Rect(mid, sizex, sizey) && Rect(now, sizex, sizey)
    ensures mid[i][j + 1] == if j % (sizey / 8) == 0 then now[i][j + 1] else was[i][j + 1]
    ensures mid[i + 1][j] == if i % (sizex / 8) == 0 then now[i + 1][j] else was[i + 1][j]
  {
    hide Passes;
    CellBetween(k, was, mid, now, sizex, sizey, i, j + 1);
    CellBetween(k, was, mid, now, sizex, sizey, i + 1, j);
    NextLine(sizey / 8, j);
    NextLine(sizex / 8, i);
  }

  lemma RedBlackSum<T>(k: Kernel<T>, s: seq<T>, t: seq<T>, sizex: nat, sizey: nat, sum: real, m: set<Cell>)
    requires RedBlackStep(k, s, t, sizex, sizey, sum)
    requires forall c: Cell :: c in m <==>
      (1 <= c.i <= 8 * (sizex / 8) && c.i + 2 <= sizex && 1 <= c.j <= 8 * (sizey / 8) && c.j + 2 <= sizey)
    ensures Interior(m, sizex, sizey)
    ensures sum == GapSum(k, Unflatten(s, sizex, sizey), Unflatten(t, sizex, sizey), sizex, sizey, m)
  {
    hide GapSum, Sweep, Cover, ColourIds, Swept, Unflatten;
    SweptIs(sizex, sizey, m);
  }
}
