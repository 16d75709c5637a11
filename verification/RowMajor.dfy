/** Flat arrays read as grids: cell (i, j) of rows of w elements is element i * w + j. */
module RowMajor {
  import opened Grids

  /** Where row i starts in rows of w elements: i * w, kept out of non-linear arithmetic. */
  ghost function RowStart(w: nat, i: nat): nat {
    if i == 0 then 0 else RowStart(w, i - 1) + w
  }

  lemma {:induction false} RowStartIsProduct(w: nat, i: nat)
    ensures RowStart(w, i) == i * w
  {
    if i > 0 {
      RowStartIsProduct(w, i - 1);
      assert i * w == (i - 1) * w + w;
    }
  }

  lemma {:induction false} RowStartMonotone(w: nat, i: nat, a: nat)
    requires i < a
    ensures RowStart(w, i) + w <= RowStart(w, a)
  {
    if i < a - 1 {
      RowStartMonotone(w, i, a - 1);
    }
  }

  lemma RowsFit(w: nat, h: nat)
    ensures forall i: nat :: i < h ==> RowStart(w, i) + w <= RowStart(w, h)
  {
    forall i: nat | i < h ensures RowStart(w, i) + w <= RowStart(w, h) {
      RowStartMonotone(w, i, h);
    }
  }

  lemma DistinctCells(w: nat, i: nat, j: nat, a: nat, b: nat)
    requires j < w && b < w && RowStart(w, i) + j == RowStart(w, a) + b
    ensures i == a && j == b
  {
    if i < a {
      RowStartMonotone(w, i, a);
    } else if a < i {
      RowStartMonotone(w, a, i);
    }
  }

  /** The first h rows of w elements of an array. */
  ghost function Unflatten<T>(s: seq<T>, h: nat, w: nat): (g: Grid<T>)
    requires RowStart(w, h) <= |s|
    ensures Rect(g, h, w)
    ensures forall i: nat, j: nat :: i < h && j < w ==> RowStart(w, i) + j < |s| && g[i][j] == s[RowStart(w, i) + j]
  {
    RowsFit(w, h);
    if h == 0 then [] else
      Unflatten(s, h - 1, w) + [s[RowStart(w, h - 1)..RowStart(w, h)]]
  }

  lemma UnflattenUpdate<T>(s: seq<T>, h: nat, w: nat, i: nat, j: nat, v: T)
    requires RowStart(w, h) <= |s| && i < h && j < w
    ensures RowStart(w, i) + j < RowStart(w, h)
    ensures var g := Unflatten(s, h, w);
            Unflatten(s[RowStart(w, i) + j := v], h, w) == g[i := g[i][j := v]]
  {
    RowStartMonotone(w, i, h);
    var g := Unflatten(s, h, w);
    var r := Unflatten(s[RowStart(w, i) + j := v], h, w);
    forall a: nat, b: nat | a < h && b < w ensures r[a][b] == g[i := g[i][j := v]][a][b] {
      if RowStart(w, a) + b == RowStart(w, i) + j {
        DistinctCells(w, i, j, a, b);
      }
    }
    SameGrid(r, g[i := g[i][j := v]], h, w);
  }
}
