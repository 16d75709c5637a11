/**
 What every reachable state of the distributed heat program satisfies, and what the
 final state holds.
 */
module HeatMpiSafety {
  import opened Grids
  import opened HeatSequential
  import opened HeatMpi
  import opened HeatMpiRefinement

  // ---------------------------------------------------------------- the invariant

  /** The rows a rank works on are those of its band; rank 0 keeps them in front of its copy of the rest. */
  ghost predicate Shape<T>(c: Config<T>, r: nat, x: Rank<T>)
    requires c.Valid() && r < c.n
  {
    && Sized(c, x) && x.rows == Rows(c, r)
    && if r == 0 then |x.u| == c.Np() && x.u[x.rows + 2..] == c.g0[x.rows + 2..] else |x.u| == x.rows + 2
  }

  /** Both arrays hold the rank's band of grid g. */
  ghost predicate HoldsBand<T>(c: Config<T>, r: nat, x: Rank<T>, g: Grid<T>)
    requires c.Valid() && r < c.n && |g| == c.Np() && Shape(c, r, x)
  {
    BandInside(c, r);
    x.u[..x.rows + 2] == Band(g, First(c, r), x.rows) && x.uhelp[..x.rows + 2] == Band(g, First(c, r), x.rows)
  }

  ghost predicate HoldsPart<T>(c: Config<T>, r: nat, x: Rank<T>, t: nat)
    requires c.Valid() && r < c.n && Shape(c, r, x)
  {
    BandInside(c, r);
    x.residual == Part(c, First(c, r), Rows(c, r), t)
  }

  ghost predicate Exchanging(pc: Pc) { pc.WithNext? || pc.WithPrev? || pc.Copying? }

  /** Between relaxing and copying: interior rows are new, and so is each halo row once it has been exchanged. */
  ghost predicate HoldsNew<T>(c: Config<T>, r: nat, x: Rank<T>, t: nat)
    requires c.Valid() && r < c.n && Shape(c, r, x)
  {
    BandInside(c, r);
    var f, g := First(c, r), G(c, t + 1);
    && x.iter == t && HoldsPart(c, r, x, t)
    && (forall i :: 1 <= i <= x.rows ==> x.uhelp[i] == g[f - 1 + i])
    && (r == 0 || x.pc.Copying? ==> x.uhelp[0] == g[f - 1])
    && (!x.pc.WithNext? ==> x.uhelp[x.rows + 1] == g[f + x.rows])
  }

  /** The data rank r holds during iteration t + 1. */
  ghost predicate ActiveRank<T>(c: Config<T>, r: nat, x: Rank<T>, t: nat)
    requires c.Valid() && r < c.n
  {
    if x.pc.Receiving? then t == 0 else
      && Shape(c, r, x)
      && (x.pc.Scattering? ==> t == 0 && x.u == c.g0 && x.uhelp == c.g0)
      && (x.pc.Scattering? || x.pc.Computing? ==> x.iter == t && HoldsBand(c, r, x, G(c, t)))
      && (Exchanging(x.pc) ==> HoldsNew(c, r, x, t))
      && (x.pc.Reducing? ==> x.iter == t + 1 && HoldsPart(c, r, x, t) && HoldsBand(c, r, x, G(c, t + 1)))
  }

  ghost predicate PcAllowed(n: nat, r: nat, pc: Pc) {
    && (pc.Computing? || pc.WithNext? || pc.WithPrev? || pc.Copying? || pc.Reducing?
       || (if r == 0 then pc.Scattering? else pc.Receiving?))
    && (pc.WithNext? ==> r + 1 < n) && (pc.WithPrev? ==> r > 0)
  }

  ghost predicate PastNext(r: nat, pc: Pc) { pc.WithPrev? || pc.Copying? || pc.Reducing? }

  ghost predicate PastPrev(pc: Pc) { pc.Copying? || pc.Reducing? }

  /** Where the ranks are relative to one another: who still waits for data, and neighbours that
      have or have not met. */
  ghost predicate InStep<T>(c: Config<T>, s: System<T>)
    requires c.Valid() && |s| == c.n
  {
    && (forall r :: 0 <= r < c.n ==> PcAllowed(c.n, r, s[r].pc))
    && (forall r :: 0 <= r < c.n - 1 ==> (PastNext(r, s[r].pc) <==> PastPrev(s[r + 1].pc)))
    && (s[0].pc.Scattering? ==> 1 <= s[0].pc.next < c.n && s[0].pc.first == First(c, s[0].pc.next))
    && (forall r :: 1 <= r < c.n ==> (s[r].pc.Receiving? <==> s[0].pc.Scattering? && r >= s[0].pc.next))
  }

  /** Iteration t + 1 is under way, and the sequential program has not stopped by iteration t. */
  ghost predicate Active<T>(c: Config<T>, s: System<T>, t: nat)
    requires c.Valid()
  {
    && |s| == c.n && Past(c, t) && InStep(c, s)
    && forall r :: 0 <= r < c.n ==> ActiveRank(c, r, s[r], t)
  }

  ghost predicate WorkerDone<T>(c: Config<T>, r: nat, x: Rank<T>, t: nat)
    requires c.Valid() && 1 <= r < c.n
  {
    BandInside(c, r);
    x.iter == t && x.u == Band(G(c, t), First(c, r), Rows(c, r))
  }

  /** Rank 0 has the rows before `first`, and the last boundary row, of the final grid. */
  ghost predicate GatheredUpTo<T>(c: Config<T>, x: Rank<T>, t: nat, first: nat)
    requires c.Valid()
  {
    && Sized(c, x) && |x.u| == c.Np() && x.iter == t && first <= c.res + 1
    && x.u[..first] == G(c, t)[..first] && x.u[c.res + 1] == G(c, t)[c.res + 1]
  }

  /** All ranks have left the loop after iteration t, the first at which the sequential program stops. */
  ghost predicate Stopped<T>(c: Config<T>, s: System<T>, t: nat)
    requires c.Valid()
  {
    && |s| == c.n && t > 0 && Stops(c, t) && Past(c, t - 1)
    && (forall r :: 1 <= r < c.n ==> WorkerDone(c, r, s[r], t))
    && (s[0].pc.Gathering? || s[0].pc.Finished?)
    && (forall r :: 1 <= r < c.n ==>
         s[r].pc == if s[0].pc.Gathering? && r >= s[0].pc.next then Delivering else Finished)
    && (s[0].pc.Gathering? ==>
          1 <= s[0].pc.next < c.n && s[0].pc.first == First(c, s[0].pc.next) && GatheredUpTo(c, s[0], t, s[0].pc.first))
    && (s[0].pc.Finished? ==> GatheredUpTo(c, s[0], t, c.res + 1))
  }

  ghost predicate Invariant<T>(c: Config<T>, s: System<T>, t: nat)
    requires c.Valid()
  {
    Active(c, s, t) || Stopped(c, s, t)
  }

  // ---------------------------------------------------------------- one rank at a time

  lemma InitActive<T>(c: Config<T>, s: System<T>)
    requires c.Valid() && Init(c, s)
    ensures Active(c, s, 0)
  {
    BandInside(c, 0);
    FirstStep(c, 0);
  }

  lemma FreshWorker<T>(c: Config<T>, r: nat, residual: real)
    requires c.Valid() && 1 <= r < c.n
    ensures var f, rows := First(c, r), Rows(c, r);
            1 <= f && f + rows < c.Np()
            && var b := c.g0[f - 1..f + rows + 1]; ActiveRank(c, r, Rank(Computing, rows, b, b, 0, residual), 0)
  {
    hide G, First, Rows, Part;
    FirstGrid(c);
    BandInside(c, r);
    var b := Band(c.g0, First(c, r), Rows(c, r));
    assert b[..Rows(c, r) + 2] == b;
  }

  lemma FirstGrid<T>(c: Config<T>)
    requires c.Valid()
    ensures G(c, 0) == c.g0
  {
  }

  /** What a rank computes from its band of grid t. */
  lemma RelaxesBand<T>(c: Config<T>, r: nat, x: Rank<T>, t: nat)
    requires c.Valid() && r < c.n && Shape(c, r, x) && HoldsBand(c, r, x, G(c, t))
    ensures 1 <= First(c, r) && First(c, r) + x.rows <= c.res + 1
    ensures var f, j, y := First(c, r), Relaxation(c, x), Relaxing(c, x, r);
            (forall i :: 1 <= i <= x.rows ==> j[i] == G(c, t + 1)[f - 1 + i])
            && j[0] == G(c, t)[f - 1] && j[x.rows + 1] == G(c, t)[f + x.rows]
            && y.residual == Part(c, f, x.rows, t)
  {
    hide G, First, Rows, Part, GapSum, Jacobi, LocalSwept, Rect;
    BandInside(c, r);
    LocalRows(c, First(c, r), x.rows, t);
    LocalResidual(c, First(c, r), x.rows, t);
  }

  lemma RelaxingShape<T>(c: Config<T>, r: nat, x: Rank<T>)
    requires c.Valid() && r < c.n && Shape(c, r, x)
    ensures var y := Relaxing(c, x, r);
            Shape(c, r, y) && forall i :: 0 <= i < x.rows + 2 ==> y.uhelp[i] == Relaxation(c, x)[i]
  {
    hide First, Rows, GapSum, Relaxation, LocalSwept;
    var y := Relaxing(c, x, r);
    assert y.uhelp == Relaxation(c, x) + x.uhelp[x.rows + 2..];
    forall i | 0 <= i < |x.u| ensures |y.uhelp[i]| == c.Np() {
      assert y.uhelp[i] == if i < x.rows + 2 then Relaxation(c, x)[i] else x.uhelp[i];
    }
  }

  lemma RelaxingKeeps<T>(c: Config<T>, r: nat, x: Rank<T>, t: nat)
    requires c.Valid() && r < c.n && x.pc.Computing? && ActiveRank(c, r, x, t)
    ensures Sized(c, x) && ActiveRank(c, r, Relaxing(c, x, r), t)
  {
    hide G, First, Rows, Part, GapSum, Relaxation, LocalSwept, Rect;
    BandInside(c, r);
    RelaxesBand(c, r, x, t);
    RelaxingShape(c, r, x);
    BoundaryRows(c, t);
    BoundaryRows(c, t + 1);
    FirstStep(c, r);
  }

  lemma CopyingKeeps<T>(c: Config<T>, r: nat, x: Rank<T>, t: nat)
    requires c.Valid() && r < c.n && x.pc.Copying? && ActiveRank(c, r, x, t)
    ensures ActiveRank(c, r, x.(u := x.uhelp[..x.rows + 2] + x.u[x.rows + 2..], iter := x.iter + 1, pc := Reducing), t)
  {
    hide G, First, Rows, Part;
    BandInside(c, r);
    var x' := x.(u := x.uhelp[..x.rows + 2] + x.u[x.rows + 2..], iter := x.iter + 1, pc := Reducing);
    assert x.uhelp[..x.rows + 2] == Band(G(c, t + 1), First(c, r), x.rows);
    assert x'.u[..x.rows + 2] == x.uhelp[..x.rows + 2] && x'.u[x.rows + 2..] == x.u[x.rows + 2..];
    forall i | 0 <= i < |x'.u| ensures |x'.u[i]| == c.Np() {
      assert x'.u[i] == if i < x.rows + 2 then x.uhelp[i] else x.u[i];
    }
  }

  /** Both ranks of an exchange receive the other's edge row, which is their own halo row of the next grid. */
  lemma SwapKeeps<T>(c: Config<T>, r: nat, a: Rank<T>, b: Rank<T>, t: nat)
    requires c.Valid() && r + 1 < c.n && a.pc.WithNext? && b.pc.WithPrev?
    requires ActiveRank(c, r, a, t) && ActiveRank(c, r + 1, b, t)
    ensures ActiveRank(c, r,
              a.(uhelp := a.uhelp[a.rows + 1 := b.uhelp[1]], pc := if r == 0 then Copying else WithPrev), t)
    ensures ActiveRank(c, r + 1, b.(uhelp := b.uhelp[0 := a.uhelp[a.rows]], pc := Copying), t)
  {
    hide G, First, Rows, Part;
    BandInside(c, r);
    BandInside(c, r + 1);
    FirstStep(c, r);
  }

  // ---------------------------------------------------------------- every step keeps the invariant

  lemma ComputeKeeps<T>(c: Config<T>, s: System<T>, t: nat, r: nat)
    requires c.Valid() && Active(c, s, t) && Enabled(c, s, Compute(r))
    ensures Active(c, Do(c, s, Compute(r)), t)
  {
    hide ActiveRank, Past, First, Rows, Sized;
    assert ActiveRank(c, r, s[r], t);
    RelaxingKeeps(c, r, s[r], t);
  }

  lemma CopyKeeps<T>(c: Config<T>, s: System<T>, t: nat, r: nat)
    requires c.Valid() && Active(c, s, t) && Enabled(c, s, Copy(r))
    ensures Active(c, Do(c, s, Copy(r)), t)
  {
    hide ActiveRank, Past, First, Rows;
    assert ActiveRank(c, r, s[r], t);
    CopyingKeeps(c, r, s[r], t);
  }

  lemma ExchangeKeeps<T>(c: Config<T>, s: System<T>, t: nat, r: nat)
    requires c.Valid() && Active(c, s, t) && Enabled(c, s, Swap(r))
    ensures Active(c, Do(c, s, Swap(r)), t)
  {
    hide ActiveRank, Past, First, Rows;
    assert ActiveRank(c, r, s[r], t) && ActiveRank(c, r + 1, s[r + 1], t);
    SwapKeeps(c, r, s[r], s[r + 1], t);
  }

  lemma ScatteringRank<T>(c: Config<T>, s: System<T>, t: nat)
    requires c.Valid() && Active(c, s, t) && s[0].pc.Scattering?
    ensures t == 0 && s[0].u == c.g0 && s[0].uhelp == c.g0
    ensures forall i: nat, f: nat :: ActiveRank(c, 0, s[0].(pc := Scattering(i, f)), t)
    ensures ActiveRank(c, 0, s[0].(pc := Computing), t)
  {
    hide G, Part, First, Rows;
    assert ActiveRank(c, 0, s[0], t);
  }

  lemma ScatterKeeps<T>(c: Config<T>, s: System<T>, t: nat)
    requires c.Valid() && Active(c, s, t) && Enabled(c, s, Scatter)
    ensures Active(c, Do(c, s, Scatter), t)
  {
    hide ActiveRank, Past, First, Rows, Sized;
    ScatteringRank(c, s, t);
    var i := s[0].pc.next;
    FirstStep(c, i);
    FreshWorker(c, i, s[i].residual);
    var s' := Do(c, s, Scatter);
    assert s'[i].pc == Computing
      && s'[0].pc == if i + 1 < c.n then Scattering(i + 1, First(c, i + 1)) else Computing;
    assert InStep(c, s');
    forall r | 0 <= r < c.n ensures ActiveRank(c, r, s'[r], t) {
    }
  }

  /** The residual the ranks reduce to is the sequential one. */
  lemma {:induction false} TotalIsParts<T>(c: Config<T>, s: System<T>, t: nat, r: nat)
    requires c.Valid() && |s| == c.n && r <= c.n
    requires forall q :: 0 <= q < c.n ==> ActiveRank(c, q, s[q], t) && s[q].pc.Reducing?
    ensures Total(s[..r]) == PartsUpTo(c, r, t)
  {
    hide G, Part, First, Rows;
    if r > 0 {
      TotalIsParts(c, s, t, r - 1);
      assert s[..r][..r - 1] == s[..r - 1] && s[..r][r - 1] == s[r - 1];
      assert ActiveRank(c, r - 1, s[r - 1], t);
    }
  }

  lemma ReducedTotal<T>(c: Config<T>, s: System<T>, t: nat)
    requires c.Valid() && Active(c, s, t) && Enabled(c, s, Reduce)
    ensures ExitTest(t + 1, Total(s), c.maxiter) <==> Stops(c, t + 1)
  {
    hide ActiveRank, PartsUpTo, HeatSequential.Residual;
    TotalIsParts(c, s, t, c.n);
    assert s[..c.n] == s;
    PartsAreResidual(c, t);
  }

  /** A rank that goes on starts the next iteration with the band of the next grid. */
  lemma ReducedActive<T>(c: Config<T>, r: nat, x: Rank<T>, t: nat, total: real)
    requires c.Valid() && r < c.n && x.pc.Reducing? && ActiveRank(c, r, x, t) && !ExitTest(t + 1, total, c.maxiter)
    ensures Reduced(c, x, r, total).pc == Computing && ActiveRank(c, r, Reduced(c, x, r, total), t + 1)
  {
    hide G, Part, First, Rows;
  }

  lemma ReducedWorker<T>(c: Config<T>, r: nat, x: Rank<T>, t: nat, total: real)
    requires c.Valid() && 0 < r < c.n && x.pc.Reducing? && ActiveRank(c, r, x, t) && ExitTest(t + 1, total, c.maxiter)
    ensures Reduced(c, x, r, total).pc == Delivering && WorkerDone(c, r, Reduced(c, x, r, total), t + 1)
  {
    hide G, Part, First, Rows, Sized;
    assert x.u[..x.rows + 2] == x.u;
  }

  lemma ReducedFirst<T>(c: Config<T>, x: Rank<T>, t: nat, total: real)
    requires c.Valid() && x.pc.Reducing? && ActiveRank(c, 0, x, t) && ExitTest(t + 1, total, c.maxiter)
    ensures Reduced(c, x, 0, total).pc == Gathering(1, First(c, 1))
    ensures GatheredUpTo(c, Reduced(c, x, 0, total), t + 1, First(c, 1))
  {
    hide G, Part, First, Rows;
    FirstStep(c, 0);
    BandInside(c, 0);
    BoundaryRows(c, t + 1);
    FirstBandRows(x.u, G(c, t + 1), x.rows);
    LastRow(x.u, c.g0, x.rows + 2, c.res + 1);
  }

  lemma FirstBandRows<T>(u: Grid<T>, g: Grid<T>, rows: nat)
    requires rows + 2 <= |u| && 1 + rows < |g| && u[..rows + 2] == Band(g, 1, rows)
    ensures u[..rows + 1] == g[..rows + 1]
  {
    forall i | 0 <= i < rows + 1 ensures u[i] == g[i] {
      assert u[i] == u[..rows + 2][i];
    }
  }

  lemma LastRow<T>(u: Grid<T>, g: Grid<T>, n: nat, last: nat)
    requires n <= last < |u| == |g| && u[n..] == g[n..]
    ensures u[last] == g[last]
  {
    assert u[n..][last - n] == g[n..][last - n];
  }

  lemma ReduceKeeps<T>(c: Config<T>, s: System<T>, t: nat)
    requires c.Valid() && Active(c, s, t) && Enabled(c, s, Reduce)
    ensures if Stops(c, t + 1) then Stopped(c, Do(c, s, Reduce), t + 1) else Active(c, Do(c, s, Reduce), t + 1)
  {
    hide ActiveRank, First, Rows, WorkerDone, GatheredUpTo, Total, Stops;
    ReducedTotal(c, s, t);
    var s' := Do(c, s, Reduce);
    forall r | 0 <= r < c.n
      ensures ActiveRank(c, r, s[r], t) && s[r].pc.Reducing? && s'[r] == Reduced(c, s[r], r, Total(s))
    {
    }
    if Stops(c, t + 1) {
      forall r: nat | r < c.n
        ensures if r == 0 then s'[r].pc == Gathering(1, First(c, 1)) && GatheredUpTo(c, s'[r], t + 1, First(c, 1))
                else s'[r].pc == Delivering && WorkerDone(c, r, s'[r], t + 1)
      {
        if r == 0 {
          ReducedFirst(c, s[0], t, Total(s));
        } else {
          ReducedWorker(c, r, s[r], t, Total(s));
        }
      }
    } else {
      forall r: nat | r < c.n ensures s'[r].pc == Computing && ActiveRank(c, r, s'[r], t + 1) {
        ReducedActive(c, r, s[r], t, Total(s));
      }
    }
  }

  lemma GatherBand<T>(c: Config<T>, x: Rank<T>, y: Rank<T>, t: nat, i: nat)
    requires c.Valid() && 1 <= i < c.n && GatheredUpTo(c, x, t, First(c, i)) && WorkerDone(c, i, y, t)
    ensures First(c, i) + Rows(c, i) <= c.res + 1 && 1 + Rows(c, i) <= |y.u|
    ensures var f, rows := First(c, i), Rows(c, i);
            GatheredUpTo(c, x.(u := x.u[..f] + y.u[1..1 + rows] + x.u[f + rows..]), t, f + rows)
  {
    hide G, First, Rows;
    BandInside(c, i);
    GatheredRows(x.u, y.u, G(c, t), First(c, i), Rows(c, i));
  }

  lemma GatheredRows<T>(x: Grid<T>, y: Grid<T>, g: Grid<T>, f: nat, rows: nat)
    requires 1 <= f && f + rows < |g| == |x| && x[..f] == g[..f] && y == Band(g, f, rows)
    ensures var u := x[..f] + y[1..1 + rows] + x[f + rows..];
      && |u| == |x| && u[..f + rows] == g[..f + rows]
      && forall q :: f + rows <= q < |x| ==> u[q] == x[q]
  {
    var u := x[..f] + y[1..1 + rows] + x[f + rows..];
    forall q | 0 <= q < f + rows ensures u[q] == g[q] {
      if q < f {
        assert u[q] == x[..f][q];
      } else {
        assert u[q] == y[1 + q - f];
      }
    }
  }

  lemma GatherKeeps<T>(c: Config<T>, s: System<T>, t: nat)
    requires c.Valid() && Stopped(c, s, t) && Enabled(c, s, Gather)
    ensures Stopped(c, Do(c, s, Gather), t)
  {
    hide GatheredUpTo, WorkerDone, First, Rows, Stops, Past, Sized;
    var i := s[0].pc.next;
    assert WorkerDone(c, i, s[i], t);
    GatherBand(c, s[0], s[i], t, i);
    FirstStep(c, i);
    BandsEnd(c);
    PcDoesNotMatter(c, i, s[i], t);
    GatherPc(c, s[0].(u := Do(c, s, Gather)[0].u), t, First(c, i + 1));
  }

  lemma PcDoesNotMatter<T>(c: Config<T>, r: nat, x: Rank<T>, t: nat)
    requires c.Valid() && 1 <= r < c.n && WorkerDone(c, r, x, t)
    ensures WorkerDone(c, r, x.(pc := Finished), t)
  {
    hide G, First, Rows;
  }

  lemma GatherPc<T>(c: Config<T>, x: Rank<T>, t: nat, first: nat)
    requires c.Valid() && GatheredUpTo(c, x, t, first)
    ensures forall pc :: GatheredUpTo(c, x.(pc := pc), t, first)
  {
    hide G;
  }

  /** One step of any kind: the same iteration, or the next one after a reduction. */
  lemma StepKeeps<T>(c: Config<T>, s: System<T>, t: nat, step: Step) returns (t': nat)
    requires c.Valid() && Invariant(c, s, t) && Enabled(c, s, step)
    ensures Invariant(c, Do(c, s, step), t')
    ensures t' == if step.Reduce? then t + 1 else t
    ensures step.Gather? <==> Stopped(c, s, t)
  {
    hide ActiveRank, GatheredUpTo, WorkerDone, First, Rows, Stops, Past, Sized, Do;
    t' := if step.Reduce? then t + 1 else t;
    if Active(c, s, t) {
      assert !s[0].pc.Gathering?;
      match step {
        case Scatter => ScatterKeeps(c, s, t);
        case Compute(r) => ComputeKeeps(c, s, t, r);
        case Swap(r) => ExchangeKeeps(c, s, t, r);
        case Copy(r) => CopyKeeps(c, s, t, r);
        case Reduce => ReduceKeeps(c, s, t);
        case Gather => assert false;
      }
    } else {
      assert step.Gather? by {
        assert !s[0].pc.Scattering? && !s[0].pc.Reducing?;
      }
      GatherKeeps(c, s, t);
    }
  }

  // ---------------------------------------------------------------- whole runs

  /** Every state of every run satisfies the invariant for some iteration; iterations are counted by reductions. */
  lemma {:induction false} RunsKeepInvariant<T>(c: Config<T>, run: seq<System<T>>, steps: seq<Step>, i: nat)
    returns (t: nat)
    requires c.Valid() && Run(c, run, steps) && i <= |steps|
    ensures Invariant(c, run[i], t)
  {
    hide Invariant, Do, Enabled;
    if i == 0 {
      InitInvariant(c, run[0]);
      t := 0;
    } else {
      t := RunsKeepInvariant(c, run, steps, i - 1);
      t := StepKeeps(c, run[i - 1], t, steps[i - 1]);
    }
  }

  lemma InitInvariant<T>(c: Config<T>, s: System<T>)
    requires c.Valid() && Init(c, s)
    ensures Invariant(c, s, 0)
  {
    InitActive(c, s);
  }

  /** In every reachable state, a rank about to relax has in both arrays its band, halo rows included, of the
      sequential grid, and all such ranks are in the same iteration. */
  lemma BandsAgree<T>(c: Config<T>, run: seq<System<T>>, steps: seq<Step>) returns (t: nat)
    requires c.Valid() && Run(c, run, steps)
    ensures |run[|steps|]| == c.n
    ensures forall r :: 0 <= r < c.n && run[|steps|][r].pc.Computing? ==> ComputingAgrees(c, r, run[|steps|][r], t)
  {
    hide ComputingAgrees, Do, Enabled, ActiveRank, WorkerDone, InStep, GatheredUpTo, Stops, Past;
    t := RunsKeepInvariant(c, run, steps, |steps|);
    forall r | 0 <= r < c.n && run[|steps|][r].pc.Computing? ensures ComputingAgrees(c, r, run[|steps|][r], t) {
      ComputingRank(c, run[|steps|], t, r);
    }
  }

  ghost predicate ComputingAgrees<T>(c: Config<T>, r: nat, x: Rank<T>, t: nat)
    requires c.Valid()
  {
    var f, rows := First(c, r), Rows(c, r);
    && x.iter == t && 1 <= f && f + rows < c.Np() && rows + 2 <= |x.u| == |x.uhelp|
    && x.u[..rows + 2] == x.uhelp[..rows + 2] == G(c, t)[f - 1..f + rows + 1]
  }

  lemma ComputingRank<T>(c: Config<T>, s: System<T>, t: nat, r: nat)
    requires c.Valid() && Invariant(c, s, t) && r < c.n && s[r].pc.Computing?
    ensures ComputingAgrees(c, r, s[r], t)
  {
    hide G, First, Rows, Stops, Past;
    if Active(c, s, t) {
      assert ActiveRank(c, r, s[r], t);
      BandInside(c, r);
    }
  }

  /** When a run has finished, rank 0 holds the grid the sequential program ends with, and every rank
      left the loop at the iteration at which the sequential program stops first. */
  lemma FinishedRunsAgree<T>(c: Config<T>, run: seq<System<T>>, steps: seq<Step>) returns (t: nat)
    requires c.Valid() && Run(c, run, steps) && AllFinished(run[|steps|])
    ensures |run[|steps|]| == c.n && t > 0 && Stops(c, t) && Past(c, t - 1)
    ensures forall r :: 0 <= r < c.n ==> run[|steps|][r].iter == t
    ensures run[|steps|][0].u == Iterate(c.k, JacobiSolver, c.g0, c.Np(), t)
    ensures t % 10 == 0
    ensures IterationResidual(c.k, JacobiSolver, c.g0, t - 1) < 0.00005 || 0 < c.maxiter <= t
    ensures forall q: nat :: q + 1 < t && (q + 1) % 10 == 0 ==>
      !(IterationResidual(c.k, JacobiSolver, c.g0, q) < 0.00005 || 0 < c.maxiter <= q + 1)
  {
    hide HeatSequential.Residual, Iterate, Run, Invariant, AllFinished, Stops, Past, Stopped;
    RunLength(c, run, steps);
    t := RunsKeepInvariant(c, run, steps, |steps|);
    RunsHaveAllRanks(c, run[|steps|], t);
    FinalGrid(c, run[|steps|], t);
    StoppedFacts(c, run[|steps|], t);
    ExitIteration(c, t);
  }

  lemma RunLength<T>(c: Config<T>, run: seq<System<T>>, steps: seq<Step>)
    requires c.Valid() && Run(c, run, steps)
    ensures |run| == |steps| + 1
  {
  }

  /** The iteration all ranks leave at is the first multiple of ten with a small residual, or at the limit. */
  lemma ExitIteration<T>(c: Config<T>, t: nat)
    requires c.Valid() && t > 0 && Stops(c, t) && Past(c, t - 1)
    ensures t % 10 == 0
    ensures IterationResidual(c.k, JacobiSolver, c.g0, t - 1) < 0.00005 || 0 < c.maxiter <= t
    ensures forall q: nat :: q + 1 < t && (q + 1) % 10 == 0 ==>
      !(IterationResidual(c.k, JacobiSolver, c.g0, q) < 0.00005 || 0 < c.maxiter <= q + 1)
  {
    hide HeatSequential.Residual, Iterate, StopsAt;
    forall q: nat | q <= t - 1 ensures !StopsAt(c.k, JacobiSolver, c.g0, c.Np(), c.maxiter, q) {
      assert !Stops(c, q);
    }
    FirstExit(c.k, JacobiSolver, c.g0, c.Np(), c.maxiter, t);
  }

  lemma StoppedFacts<T>(c: Config<T>, s: System<T>, t: nat)
    requires c.Valid() && Stopped(c, s, t)
    ensures t > 0 && Stops(c, t) && Past(c, t - 1)
  {
    hide WorkerDone, GatheredUpTo, Stops, Past;
  }

  lemma RunsHaveAllRanks<T>(c: Config<T>, s: System<T>, t: nat)
    requires c.Valid() && Invariant(c, s, t)
    ensures |s| == c.n
  {
    hide InStep, ActiveRank, WorkerDone, GatheredUpTo;
  }

  lemma FinalGrid<T>(c: Config<T>, s: System<T>, t: nat)
    requires c.Valid() && Invariant(c, s, t) && AllFinished(s)
    ensures Stopped(c, s, t)
    ensures s[0].u == G(c, t) && forall r :: 0 <= r < c.n ==> s[r].iter == t
  {
    hide G, First, Rows, Stops, Past, ActiveRank;
    assert s[0].pc.Finished?;
    var u, g := s[0].u, G(c, t);
    forall i | 0 <= i < c.Np() ensures u[i] == g[i] {
      if i <= c.res {
        assert u[i] == u[..c.res + 1][i] && g[i] == g[..c.res + 1][i];
      }
    }
    forall r | 0 <= r < c.n ensures s[r].iter == t {
      if r > 0 {
        assert WorkerDone(c, r, s[r], t);
      }
    }
  }
}
