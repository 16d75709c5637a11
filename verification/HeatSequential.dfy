/**
 The sequential heat program: repeat one solver step until, at an iteration that is
 a multiple of ten, the residual is small enough or the iteration limit is reached.
 */
module HeatSequential {
  import opened Grids
  import opened RowMajor
  import opened Blocks
  import opened Solver

  datatype Algorithm = JacobiSolver | RedBlackSolver | GaussSolver

  const TOLERANCE: real := 0.00005

  function PartitionOf(alg: Algorithm, n: nat): Partition {
    if alg.JacobiSolver? then Split(n, n, 1, NB) else Split(n, n, NB, NB)
  }

  lemma PartitionValid(alg: Algorithm, n: nat)
    requires n >= 2
    ensures PartitionOf(alg, n).Valid()
    ensures Interior(Swept(PartitionOf(alg, n)), n, n)
    ensures forall colour :: Interior(Cover(PartitionOf(alg, n), ColourIds(PartitionOf(alg, n), colour)), n, n)
  {
    var p := PartitionOf(alg, n);
    SplitValid(n, n, if alg.JacobiSolver? then 1 else NB, NB);
    SweptInterior(p);
    forall colour ensures Interior(Cover(p, ColourIds(p, colour)), n, n) {
      CoverInterior(p, ColourIds(p, colour));
    }
  }

  /** The grid after one iteration. The Jacobi step leaves unswept cells as they are, because
      `uhelp` starts as a copy of `u` and is copied back whole. */
  ghost function Next<T>(k: Kernel<T>, alg: Algorithm, g: Grid<T>, n: nat): (r: Grid<T>)
    requires n >= 2 && Rect(g, n, n)
    ensures Rect(r, n, n)
  {
    PartitionValid(alg, n);
    var p := PartitionOf(alg, n);
    match alg
    case JacobiSolver => Jacobi(k, g, g, n, n, Swept(p))
    case RedBlackSolver => Sweep(k, Sweep(k, g, n, n, Cover(p, ColourIds(p, 0))), n, n, Cover(p, ColourIds(p, 1)))
    case GaussSolver => Sweep(k, g, n, n, Swept(p))
  }

  /** The residual of the iteration that starts from g. */
  ghost function Residual<T>(k: Kernel<T>, alg: Algorithm, g: Grid<T>, n: nat): real
    requires n >= 2 && Rect(g, n, n)
  {
    PartitionValid(alg, n);
    GapSum(k, g, Next(k, alg, g, n), n, n, Swept(PartitionOf(alg, n)))
  }

  ghost function Iterate<T>(k: Kernel<T>, alg: Algorithm, g: Grid<T>, n: nat, t: nat): (r: Grid<T>)
    requires n >= 2 && Rect(g, n, n)
    ensures Rect(r, n, n)
  {
    if t == 0 then g else Next(k, alg, Iterate(k, alg, g, n, t - 1), n)
  }

  /** The loop's exit test after `iter` iterations, the last of which had the given residual. */
  predicate ExitTest(iter: nat, residual: real, maxiter: nat) {
    iter % 10 == 0 && (residual < TOLERANCE || (maxiter > 0 && iter >= maxiter))
  }

  ghost predicate StopsAt<T>(k: Kernel<T>, alg: Algorithm, g: Grid<T>, n: nat, maxiter: nat, t: nat)
    requires n >= 2 && Rect(g, n, n)
  {
    t > 0 && ExitTest(t, Residual(k, alg, Iterate(k, alg, g, n, t - 1), n), maxiter)
  }

  ghost predicate RunsPast<T>(k: Kernel<T>, alg: Algorithm, g: Grid<T>, n: nat, maxiter: nat, t: nat)
    requires n >= 2 && Rect(g, n, n)
  {
    forall q: nat :: q <= t ==> !StopsAt(k, alg, g, n, maxiter, q)
  }

  /** The residual of iteration q + 1. */
  ghost function IterationResidual<T>(k: Kernel<T>, alg: Algorithm, g: Grid<T>, q: nat): real
    requires |g| >= 2 && Rect(g, |g|, |g|)
  {
    Residual(k, alg, Iterate(k, alg, g, |g|, q), |g|)
  }

  /** The program stops after the first multiple of ten iterations the last of which had a residual below 0.00005, or
      that reaches a limit above 0. */
  lemma FirstExit<T>(k: Kernel<T>, alg: Algorithm, g: Grid<T>, n: nat, maxiter: nat, iter: nat)
    requires n >= 2 && Rect(g, n, n)
    requires StopsAt(k, alg, g, n, maxiter, iter) && RunsPast(k, alg, g, n, maxiter, iter - 1)
    ensures iter > 0 && iter % 10 == 0
    ensures IterationResidual(k, alg, g, iter - 1) < 0.00005 || 0 < maxiter <= iter
    ensures forall q: nat :: q + 1 < iter && (q + 1) % 10 == 0 ==>
      !(IterationResidual(k, alg, g, q) < 0.00005 || 0 < maxiter <= q + 1)
  {
    hide Residual, Iterate;
    forall q: nat | q + 1 < iter && (q + 1) % 10 == 0
      ensures !(IterationResidual(k, alg, g, q) < 0.00005 || 0 < maxiter <= q + 1)
    {
      assert !StopsAt(k, alg, g, n, maxiter, q + 1);
    }
  }

  /** With an iteration limit the program stops, at the first multiple of ten from the limit on at the latest. */
  lemma LimitStops<T>(k: Kernel<T>, alg: Algorithm, g: Grid<T>, n: nat, maxiter: nat) returns (t: nat)
    requires n >= 2 && Rect(g, n, n) && maxiter > 0
    ensures StopsAt(k, alg, g, n, maxiter, t) && maxiter <= t < maxiter + 10
  {
    t := (maxiter + 9) / 10 * 10;
  }

  /** Copies the first `lines` rows, element by element. */
  method CopyRows<T>(dst: array<T>, src: array<T>, lines: nat, n: nat)
    requires dst != src && RowStart(n, lines) <= dst.Length && RowStart(n, lines) <= src.Length
    modifies dst
    ensures dst[..RowStart(n, lines)] == src[..RowStart(n, lines)]
    ensures dst[RowStart(n, lines)..] == old(dst[RowStart(n, lines)..])
  {
    ghost var end := RowStart(n, lines);
    var i: nat := 0;
    while i < lines
      invariant i <= lines && RowStart(n, i) <= end
      invariant dst[..RowStart(n, i)] == src[..RowStart(n, i)]
      invariant dst[end..] == old(dst[end..])
    {
      RowStartMonotone(n, i, lines);
      ghost var start := RowStart(n, i);
      var j: nat := 0;
      while j < n
        invariant j <= n && dst[..start + j] == src[..start + j]
        invariant dst[end..] == old(dst[end..])
      {
        var p := Index(n, i, j);
        dst[p] := src[p];
        assert dst[..start + j + 1] == dst[..start + j] + [src[start + j]];
        j := j + 1;
      }
      i := i + 1;
    }
  }

  lemma UnflattenPrefix<T>(a: seq<T>, b: seq<T>, h: nat, w: nat)
    requires RowStart(w, h) <= |a| && RowStart(w, h) <= |b| && a[..RowStart(w, h)] == b[..RowStart(w, h)]
    ensures Unflatten(a, h, w) == Unflatten(b, h, w)
  {
    hide Unflatten, RowStart;
    forall i: nat, j: nat | i < h && j < w ensures Unflatten(a, h, w)[i][j] == Unflatten(b, h, w)[i][j] {
      ReadCell(a, h, w, i, j);
      ReadCell(b, h, w, i, j);
      var p := RowStart(w, i) + j;
      assert a[p] == a[..RowStart(w, h)][p] && b[p] == b[..RowStart(w, h)][p];
    }
    SameGrid(Unflatten(a, h, w), Unflatten(b, h, w), h, w);
  }

  /** One turn of the loop body up to `iter++`. */
  method Step<T>(k: Kernel<T>, alg: Algorithm, u: array<T>, uhelp: array<T>, n: nat) returns (residual: real)
    requires n >= 2 && u != uhelp && RowStart(n, n) <= u.Length && RowStart(n, n) <= uhelp.Length
    requires alg.JacobiSolver? ==> Unflatten(uhelp[..], n, n) == Unflatten(u[..], n, n)
    modifies u, uhelp
    ensures Unflatten(u[..], n, n) == Next(k, alg, Unflatten(old(u[..]), n, n), n)
    ensures residual == Residual(k, alg, Unflatten(old(u[..]), n, n), n)
    ensures alg.JacobiSolver? ==> Unflatten(uhelp[..], n, n) == Unflatten(u[..], n, n)
  {
    PartitionValid(alg, n);
    match alg {
      case JacobiSolver =>
        residual := RelaxJacobi(k, u, uhelp, n, n);
        CopyRows(u, uhelp, n, n);
        UnflattenPrefix(u[..], uhelp[..], n, n);
      case RedBlackSolver =>
        residual := RelaxRedBlack(k, u, n, n);
      case GaussSolver =>
        residual := RelaxGauss(k, u, n, n);
    }
  }

  /** The whole grid, boundary included, as the program stores it. */
  ghost function Stored<T>(s: seq<T>, resolution: nat): (g: Grid<T>)
    requires RowStart(resolution + 2, resolution + 2) <= |s|
    ensures Rect(g, resolution + 2, resolution + 2)
  {
    Unflatten(s, resolution + 2, resolution + 2)
  }

  /** The iteration loop. It terminates exactly when some iteration meets the exit test; `stop` is one. */
  method Heat<T>(k: Kernel<T>, alg: Algorithm, u: array<T>, uhelp: array<T>, resolution: nat, maxiter: nat,
                 ghost stop: nat)
    returns (iter: nat)
    requires u != uhelp && u[..] == uhelp[..] && RowStart(resolution + 2, resolution + 2) <= u.Length
    requires StopsAt(k, alg, Stored(u[..], resolution), resolution + 2, maxiter, stop)
    modifies u, uhelp
    ensures StopsAt(k, alg, Stored(old(u[..]), resolution), resolution + 2, maxiter, iter)
    ensures RunsPast(k, alg, Stored(old(u[..]), resolution), resolution + 2, maxiter, iter - 1)
    ensures Stored(u[..], resolution) == Iterate(k, alg, Stored(old(u[..]), resolution), resolution + 2, iter)
    ensures iter > 0 && iter % 10 == 0
    ensures IterationResidual(k, alg, Stored(old(u[..]), resolution), iter - 1) < 0.00005 || 0 < maxiter <= iter
    ensures forall q: nat :: q + 1 < iter && (q + 1) % 10 == 0 ==>
      !(IterationResidual(k, alg, Stored(old(u[..]), resolution), q) < 0.00005 || 0 < maxiter <= q + 1)
  {
    hide Next, Residual, Unflatten;
    var n := resolution + 2;
    ghost var g := Stored(u[..], resolution);
    iter := 0;
    while true
      invariant Unflatten(u[..], n, n) == Iterate(k, alg, g, n, iter)
      invariant alg.JacobiSolver? ==> Unflatten(uhelp[..], n, n) == Unflatten(u[..], n, n)
      invariant RunsPast(k, alg, g, n, maxiter, iter)
      decreases stop - iter
    {
      var residual := Step(k, alg, u, uhelp, n);
      iter := iter + 1;
      if iter % 10 == 0 {
        if residual < TOLERANCE { break; }
        if maxiter > 0 && iter >= maxiter { break; }
      }
    }
    FirstExit(k, alg, g, n, maxiter, iter);
  }
}
