/**
 The blocks the solvers cut a grid into, and the orders the blocks may be relaxed in.
 */
module Blocks {
  import opened Grids
  import opened RowMajor

  /** Block row and block column. */
  datatype BlockId = BlockId(ii: nat, jj: nat)

  /** How a solver cuts an h by w grid: nbx by nby blocks of dx rows by dy columns. */
  datatype Partition = Partition(h: nat, w: nat, nbx: nat, nby: nat, dx: nat, dy: nat)
  {
    /** The blocks fit the grid, and a grid with less than two lines has only empty blocks. */
    ghost predicate Valid() {
      && nbx > 0 && nby > 0
      && RowStart(dx, nbx) <= h && (RowStart(dx, nbx) > 0 ==> h >= 2)
      && RowStart(dy, nby) <= w && (RowStart(dy, nby) > 0 ==> w >= 2)
    }
  }

  /** `n - 2` in unsigned 32-bit arithmetic. */
  function LastInner(n: nat): nat {
    if n >= 2 then n - 2 else n + 0x1_0000_0000 - 2
  }

  function Min(a: nat, b: nat): nat { if a < b then a else b }

  /** The partition into nbx by nby blocks, each as large as integer division allows. */
  function Split(h: nat, w: nat, nbx: nat, nby: nat): Partition
    requires nbx > 0 && nby > 0
  {
    Partition(h, w, nbx, nby, h / nbx, w / nby)
  }

  lemma LinesFit(n: nat, nb: nat)
    requires nb > 1 || (nb == 1 && n >= 2)
    ensures RowStart(n / nb, nb) <= n && (RowStart(n / nb, nb) > 0 ==> n >= 2)
  {
    RowStartIsProduct(n / nb, nb);
    if n < nb {
      assert n / nb == 0 && nb * 0 == 0;
    }
  }

  /** NB blocks fit every size; a single block needs the two boundary lines that `n - 2` takes away. */
  lemma SplitValid(h: nat, w: nat, nbx: nat, nby: nat)
    requires (nbx > 1 || (nbx == 1 && h >= 2)) && (nby > 1 || (nby == 1 && w >= 2))
    ensures Split(h, w, nbx, nby).Valid()
  {
    LinesFit(h, nbx);
    LinesFit(w, nby);
  }

  /** The cells block `b` relaxes. */
  ghost function Block(p: Partition, b: BlockId): set<Cell> {
    Box(RowStart(p.dx, b.ii), Min(RowStart(p.dx, b.ii + 1), LastInner(p.h)),
        RowStart(p.dy, b.jj), Min(RowStart(p.dy, b.jj + 1), LastInner(p.w)))
  }

  ghost function Cover(p: Partition, ids: set<BlockId>): (m: set<Cell>)
    ensures forall c: Cell :: c in m <==> exists b :: b in ids && c in Block(p, b)
  {
    set b, c | b in ids && c in Block(p, b) :: c
  }

  /** What all blocks together relax: rows and columns past the last whole block are left out. */
  ghost function Swept(p: Partition): set<Cell> {
    Box(0, Min(RowStart(p.dx, p.nbx), LastInner(p.h)), 0, Min(RowStart(p.dy, p.nby), LastInner(p.w)))
  }

  lemma SweptInterior(p: Partition)
    requires p.Valid()
    ensures Interior(Swept(p), p.h, p.w)
  {
  }

  lemma BlockInSwept(p: Partition, b: BlockId)
    requires b.ii < p.nbx && b.jj < p.nby
    ensures Block(p, b) <= Swept(p)
  {
    if b.ii + 1 < p.nbx { RowStartMonotone(p.dx, b.ii + 1, p.nbx); }
    if b.jj + 1 < p.nby { RowStartMonotone(p.dy, b.jj + 1, p.nby); }
  }

  ghost predicate Within(ids: set<BlockId>, p: Partition) {
    forall b :: b in ids ==> b.ii < p.nbx && b.jj < p.nby
  }

  lemma CoverInterior(p: Partition, ids: set<BlockId>)
    requires p.Valid() && Within(ids, p)
    ensures Cover(p, ids) <= Swept(p) && Interior(Cover(p, ids), p.h, p.w)
  {
    forall c | c in Cover(p, ids) ensures c in Swept(p) {
      var b :| b in ids && c in Block(p, b);
      BlockInSwept(p, b);
    }
    SweptInterior(p);
  }

  lemma BlockInterior(p: Partition, b: BlockId)
    requires p.Valid() && b.ii < p.nbx && b.jj < p.nby
    ensures Interior(Block(p, b), p.h, p.w)
  {
    BlockInSwept(p, b);
    SweptInterior(p);
  }

  lemma CoverAdd(p: Partition, ids: set<BlockId>, b: BlockId)
    ensures Cover(p, ids + {b}) == Cover(p, ids) + Block(p, b)
  {
  }

  /** Line a lies in block p, and line a or a + 1 in block q: then q is p or the next block. */
  lemma NextLineNextBlock(d: nat, p: nat, q: nat, a: nat, a': nat)
    requires RowStart(d, p) < a <= RowStart(d, p + 1) && RowStart(d, q) < a' <= RowStart(d, q + 1)
    requires a' == a || a' == a + 1
    ensures q == p || (q == p + 1 && a' == a + 1)
  {
    if q < p {
      if q + 1 < p { RowStartMonotone(d, q + 1, p); }
    } else if p < q {
      if p + 1 < q {
        RowStartMonotone(d, p + 1, q);
      }
    }
  }

  /** Block b may be relaxed after `ids` when neither it nor its right or bottom neighbour was. */
  ghost predicate BlockMayFollow(ids: set<BlockId>, b: BlockId) {
    b !in ids && BlockId(b.ii, b.jj + 1) !in ids && BlockId(b.ii + 1, b.jj) !in ids
  }

  lemma TouchingBlocks(p: Partition, b: BlockId, c: Cell, b': BlockId, c': Cell)
    requires c in Block(p, b) && c' in Block(p, b')
    ensures c' == c ==> b' == b
    ensures c' == Cell(c.i, c.j + 1) ==> b' == b || b' == BlockId(b.ii, b.jj + 1)
    ensures c' == Cell(c.i + 1, c.j) ==> b' == b || b' == BlockId(b.ii + 1, b.jj)
  {
    if c'.i == c.i || c'.i == c.i + 1 {
      NextLineNextBlock(p.dx, b.ii, b'.ii, c.i, c'.i);
    }
    if c'.j == c.j || c'.j == c.j + 1 {
      NextLineNextBlock(p.dy, b.jj, b'.jj, c.j, c'.j);
    }
  }

  lemma BlocksMayFollow(p: Partition, ids: set<BlockId>, b: BlockId)
    requires BlockMayFollow(ids, b)
    ensures MayFollow(Cover(p, ids), Block(p, b))
  {
    forall c: Cell, b': BlockId, c': Cell | c in Block(p, b) && b' in ids && c' in Block(p, b')
      ensures !ReadsOld(c, c')
    {
      TouchingBlocks(p, b, c, b', c');
    }
  }

  // ---------------------------------------------------------------- block orders

  function Ids(blocks: seq<BlockId>): set<BlockId> { set b | b in blocks }

  /** Relaxes the listed blocks one after the other. */
  ghost function RelaxBlocks<T>(k: Kernel<T>, g: Grid<T>, p: Partition, blocks: seq<BlockId>): (r: Grid<T>)
    requires p.Valid() && Rect(g, p.h, p.w) && Within(Ids(blocks), p)
    ensures Rect(r, p.h, p.w)
  {
    if blocks == [] then g else
      var front, last := blocks[..|blocks| - 1], blocks[|blocks| - 1];
      assert last in Ids(blocks) && Ids(front) <= Ids(blocks);
      BlockInterior(p, last);
      Sweep(k, RelaxBlocks(k, g, p, front), p.h, p.w, Block(p, last))
  }

  /** No block is listed twice or after its right or bottom neighbour. */
  ghost predicate BlockOrder(blocks: seq<BlockId>) {
    forall q :: 0 <= q < |blocks| ==> BlockMayFollow(Ids(blocks[..q]), blocks[q])
  }

  /** Every block order that respects the dependencies leaves the same grid. */
  lemma {:induction false} AnyBlockOrder<T>(k: Kernel<T>, g: Grid<T>, p: Partition, blocks: seq<BlockId>)
    requires p.Valid() && Rect(g, p.h, p.w) && Within(Ids(blocks), p) && BlockOrder(blocks)
    ensures Interior(Cover(p, Ids(blocks)), p.h, p.w)
    ensures RelaxBlocks(k, g, p, blocks) == Sweep(k, g, p.h, p.w, Cover(p, Ids(blocks)))
  {
    hide Sweep;
    CoverInterior(p, Ids(blocks));
    if blocks == [] {
      assert Cover(p, Ids(blocks)) == {};
      SweepNothing(k, g, p.h, p.w);
    } else {
      var front, last := blocks[..|blocks| - 1], blocks[|blocks| - 1];
      assert last in Ids(blocks) && Ids(front) <= Ids(blocks);
      assert forall q :: 0 <= q < |front| ==> front[..q] == blocks[..q];
      AnyBlockOrder(k, g, p, front);
      BlockInterior(p, last);
      BlocksMayFollow(p, Ids(front), last);
      Compose(k, g, p.h, p.w, Cover(p, Ids(front)), Block(p, last));
      CoverAdd(p, Ids(front), last);
      assert Ids(blocks) == Ids(front) + {last};
    }
  }

  /** Distinct blocks of one colour: row plus column has the given parity. */
  ghost predicate OneColour(blocks: seq<BlockId>, colour: nat) {
    (forall p :: 0 <= p < |blocks| ==> (blocks[p].ii + blocks[p].jj) % 2 == colour)
    && forall p, q :: 0 <= p < q < |blocks| ==> blocks[p] != blocks[q]
  }

  lemma OneColourIsBlockOrder(blocks: seq<BlockId>, colour: nat)
    requires OneColour(blocks, colour)
    ensures BlockOrder(blocks)
  {
    forall p, q | 0 <= p < q < |blocks|
      ensures blocks[p] != BlockId(blocks[q].ii, blocks[q].jj + 1)
        && blocks[p] != BlockId(blocks[q].ii + 1, blocks[q].jj)
    {
      assert (blocks[p].ii + blocks[p].jj) % 2 == (blocks[q].ii + blocks[q].jj) % 2;
    }
  }

  /** The blocks of one colour may run in any order, with the same final grid. */
  lemma ColourOrderIrrelevant<T>(k: Kernel<T>, g: Grid<T>, p: Partition, b: seq<BlockId>, b': seq<BlockId>, colour: nat)
    requires p.Valid() && Rect(g, p.h, p.w) && Within(Ids(b), p)
    requires OneColour(b, colour) && OneColour(b', colour) && Ids(b) == Ids(b')
    ensures RelaxBlocks(k, g, p, b) == RelaxBlocks(k, g, p, b')
  {
    OneColourIsBlockOrder(b, colour);
    OneColourIsBlockOrder(b', colour);
    AnyBlockOrder(k, g, p, b);
    AnyBlockOrder(k, g, p, b');
  }

  // ---------------------------------------------------------------- the blocks cover the swept rectangle

  lemma {:induction false} LineInSomeBlock(d: nat, n: nat, a: nat) returns (p: nat)
    requires 0 < a <= RowStart(d, n)
    ensures p < n && RowStart(d, p) < a <= RowStart(d, p + 1)
  {
    if a > RowStart(d, n - 1) {
      p := n - 1;
    } else {
      p := LineInSomeBlock(d, n - 1, a);
    }
  }

  ghost function AllIds(p: Partition): (ids: set<BlockId>)
    ensures forall b: BlockId :: b in ids <==> b.ii < p.nbx && b.jj < p.nby
  {
    set i: nat, j: nat | i < p.nbx && j < p.nby :: BlockId(i, j)
  }

  ghost function ColourIds(p: Partition, colour: nat): set<BlockId> {
    set b | b in AllIds(p) && (b.ii + b.jj) % 2 == colour
  }

  lemma BlocksCoverSwept(p: Partition)
    requires p.Valid()
    ensures Cover(p, AllIds(p)) == Swept(p)
  {
    forall c: Cell | c in Swept(p) ensures c in Cover(p, AllIds(p)) {
      var i := LineInSomeBlock(p.dx, p.nbx, c.i);
      var j := LineInSomeBlock(p.dy, p.nby, c.j);
      assert BlockId(i, j) in AllIds(p) && c in Block(p, BlockId(i, j));
    }
    CoverInterior(p, AllIds(p));
  }

  /** The red and the black pass together relax every swept cell, none of them twice. */
  lemma ColoursPartition(p: Partition)
    requires p.Valid()
    ensures Cover(p, ColourIds(p, 0)) !! Cover(p, ColourIds(p, 1))
    ensures Cover(p, ColourIds(p, 0)) + Cover(p, ColourIds(p, 1)) == Swept(p)
  {
    forall b, b', c: Cell | b in ColourIds(p, 0) && b' in ColourIds(p, 1) && c in Block(p, b)
      ensures c !in Block(p, b')
    {
      if c in Block(p, b') {
        TouchingBlocks(p, b, c, b', c);
      }
    }
    BlocksCoverSwept(p);
    assert AllIds(p) == ColourIds(p, 0) + ColourIds(p, 1);
  }

  // ---------------------------------------------------------------- what the blocks leave out

  /** Lines 1..n-2 are all in whole blocks exactly if the division leaves at most the two boundary lines. */
  lemma InnerLinesIff(n: nat, nb: nat)
    requires n >= 3 && nb > 0
    ensures Min(RowStart(n / nb, nb), LastInner(n)) == n - 2 <==> n % nb <= 2
  {
    RowStartIsProduct(n / nb, nb);
    assert n == nb * (n / nb) + n % nb;
  }

  /** Every interior cell is relaxed exactly if neither size leaves more than two lines over. */
  lemma SweptIsInteriorIff(h: nat, w: nat, nbx: nat, nby: nat)
    requires h >= 3 && w >= 3 && nbx > 0 && nby > 0
    ensures Swept(Split(h, w, nbx, nby)) == Box(0, h - 2, 0, w - 2) <==> h % nbx <= 2 && w % nby <= 2
  {
    hide RowStart;
    InnerLinesIff(h, nbx);
    InnerLinesIff(w, nby);
    var swept, interior := Swept(Split(h, w, nbx, nby)), Box(0, h - 2, 0, w - 2);
    if swept == interior {
      assert Cell(h - 2, 1) in interior && Cell(1, w - 2) in interior;
      assert Cell(h - 2, 1) in swept && Cell(1, w - 2) in swept;
    }
  }

  /** Of a grid of 11 by 11 cells the eight by eight blocks never relax the ninth interior row and column. */
  lemma NinthLineIsLeftOut()
    ensures Cell(9, 9) !in Swept(Split(11, 11, 8, 8)) && Cell(1, 9) !in Swept(Split(11, 11, 1, 8))
    ensures Cell(9, 9) in Box(0, 9, 0, 9) && Cell(1, 9) in Box(0, 9, 0, 9)
  {
    hide RowStart;
    RowStartIsProduct(1, 8);
    assert 11 / 8 == 1;
  }
}
