/**
 The array loops of one rank: relaxing its band and copying it back do to the flat arrays
 what the steps of the state machine do to the rank's grids.
 */
module HeatMpiLoops {
  import opened Grids
  import opened RowMajor
  import opened Blocks
  import opened Solver
  import opened HeatSequential
  import opened HeatMpi

  /** The arrays hold the rank's grids. */
  ghost predicate Holds<T>(c: Config<T>, x: Rank<T>, u: seq<T>, uhelp: seq<T>) {
    && Sized(c, x) && RowStart(c.Np(), |x.u|) <= |u| && RowStart(c.Np(), |x.u|) <= |uhelp|
    && Unflatten(u, |x.u|, c.Np()) == x.u && Unflatten(uhelp, |x.u|, c.Np()) == x.uhelp
  }

  lemma FirstRows<T>(s: seq<T>, h: nat, a: nat, w: nat)
    requires h <= a && RowStart(w, a) <= |s|
    ensures RowStart(w, h) <= |s| && Unflatten(s, h, w) == Unflatten(s, a, w)[..h]
  {
    if h < a {
      RowStartMonotone(w, h, a);
    }
    SameGrid(Unflatten(s, h, w), Unflatten(s, a, w)[..h], h, w);
  }

  /** Changing the first h rows of an array leaves the rows after them. */
  lemma OtherRows<T>(was: seq<T>, now: seq<T>, h: nat, a: nat, w: nat)
    requires h <= a && RowStart(w, a) <= |was| == |now| && RowStart(w, h) <= |was|
    requires now[RowStart(w, h)..] == was[RowStart(w, h)..]
    ensures Unflatten(now, a, w) == Unflatten(now, h, w) + Unflatten(was, a, w)[h..]
  {
    hide Unflatten, RowStart;
    FirstRows(now, h, a, w);
    var r := Unflatten(now, h, w) + Unflatten(was, a, w)[h..];
    forall i: nat | i < a ensures Unflatten(now, a, w)[i] == r[i] {
      if i >= h {
        SameRow(was, now, h, a, w, i);
      } else {
        assert Unflatten(now, a, w)[..h][i] == Unflatten(now, a, w)[i];
      }
    }
    assert Unflatten(now, a, w) == r;
  }

  lemma SameRow<T>(was: seq<T>, now: seq<T>, h: nat, a: nat, w: nat, i: nat)
    requires h <= i < a && RowStart(w, a) <= |was| == |now| && RowStart(w, h) <= |was|
    requires now[RowStart(w, h)..] == was[RowStart(w, h)..]
    ensures Unflatten(now, a, w)[i] == Unflatten(was, a, w)[i]
  {
    hide Unflatten, RowStart;
    forall j: nat | j < w ensures Unflatten(now, a, w)[i][j] == Unflatten(was, a, w)[i][j] {
      ReadCell(was, a, w, i, j);
      SameElement(was, now, h, w, i, j);
    }
    assert |Unflatten(now, a, w)[i]| == |Unflatten(was, a, w)[i]| == w;
  }

  lemma SameElement<T>(was: seq<T>, now: seq<T>, h: nat, w: nat, i: nat, j: nat)
    requires RowStart(w, h) <= |was| == |now| && now[RowStart(w, h)..] == was[RowStart(w, h)..]
    requires h <= i && RowStart(w, i) + j < |was|
    ensures now[RowStart(w, i) + j] == was[RowStart(w, i) + j]
  {
    if h < i {
      RowStartMonotone(w, h, i);
    }
    var p := RowStart(w, i) + j - RowStart(w, h);
    assert now[RowStart(w, h)..][p] == was[RowStart(w, h)..][p];
  }

  lemma LocalSweptIs<T>(c: Config<T>, rows: nat)
    ensures LocalSwept(c, rows) == Swept(Split(rows + 2, c.Np(), 1, NB))
  {
  }

  /** `relax_jacobi` on the first rows + 2 rows. */
  method ComputeBand<T>(c: Config<T>, r: nat, ghost x: Rank<T>, u: array<T>, uhelp: array<T>, rows: nat)
    returns (residual: real)
    requires u != uhelp && rows == x.rows && Holds(c, x, u[..], uhelp[..])
    modifies uhelp
    ensures residual == Relaxing(c, x, r).residual
    ensures Holds(c, Relaxing(c, x, r), u[..], uhelp[..])
  {
    hide Unflatten, Jacobi, GapSum, LocalSwept, Swept;
    LocalSweptIs(c, rows);
    ghost var was := uhelp[..];
    FirstRows(u[..], rows + 2, |x.u|, c.Np());
    FirstRows(was, rows + 2, |x.u|, c.Np());
    residual := RelaxJacobi(c.k, u, uhelp, rows + 2, c.Np());
    OtherRows(was, uhelp[..], rows + 2, |x.u|, c.Np());
  }

  /** Copying uhelp into u. */
  method CopyBand<T>(c: Config<T>, ghost x: Rank<T>, u: array<T>, uhelp: array<T>, rows: nat)
    requires u != uhelp && rows == x.rows && Holds(c, x, u[..], uhelp[..])
    modifies u
    ensures Holds(c, x.(u := x.uhelp[..x.rows + 2] + x.u[x.rows + 2..]), u[..], uhelp[..])
  {
    hide Unflatten;
    ghost var was := u[..];
    FirstRows(was, rows + 2, |x.u|, c.Np());
    FirstRows(uhelp[..], rows + 2, |x.u|, c.Np());
    CopyRows(u, uhelp, rows + 2, c.Np());
    UnflattenPrefix(u[..], uhelp[..], rows + 2, c.Np());
    OtherRows(was, u[..], rows + 2, |x.u|, c.Np());
  }
}
