/**
 The distributed heat program neither deadlocks nor runs on: in every reachable state
 with an unfinished rank some step is enabled, and when the sequential program stops,
 every step, whichever is taken, brings the end nearer.
 */
module HeatMpiProgress {
  import opened RowMajor
  import opened HeatSequential
  import opened HeatMpi
  import opened HeatMpiRefinement
  import opened HeatMpiSafety

  // ---------------------------------------------------------------- no deadlock

  /** The rank with the highest number that has not reached the reduction. */
  lemma {:induction false} LastNotReducing<T>(s: System<T>, n: nat) returns (r: nat)
    requires n <= |s| && exists q :: 0 <= q < n && !s[q].pc.Reducing?
    ensures r < n && !s[r].pc.Reducing? && forall q :: r < q < n ==> s[q].pc.Reducing?
  {
    if !s[n - 1].pc.Reducing? {
      r := n - 1;
    } else {
      r := LastNotReducing(s, n - 1);
    }
  }

  lemma SizedRank<T>(c: Config<T>, s: System<T>, t: nat, r: nat)
    requires c.Valid() && Active(c, s, t) && r < c.n && !s[r].pc.Receiving?
    ensures Sized(c, s[r])
  {
    hide First, Rows, G, Part;
    assert ActiveRank(c, r, s[r], t);
  }

  lemma ScatterEnabled<T>(c: Config<T>, s: System<T>, t: nat)
    requires c.Valid() && Active(c, s, t) && s[0].pc.Scattering?
    ensures Enabled(c, s, Scatter)
  {
    hide First, Rows, ActiveRank, Sized;
    SizedRank(c, s, t, 0);
    BandInside(c, s[0].pc.next);
    ScatteringRank(c, s, t);
  }

  lemma NextStillExchanging<T>(c: Config<T>, s: System<T>, r: nat)
    requires c.Valid() && |s| == c.n && InStep(c, s) && r < c.n && s[r].pc.WithNext?
    ensures r + 1 < c.n && !s[r + 1].pc.Reducing?
  {
    assert PcAllowed(c.n, r, s[r].pc);
    assert PastNext(r, s[r].pc) <==> PastPrev(s[r + 1].pc);
  }

  /** During an iteration some rank can move: the chain of exchanges unwinds from the last rank. */
  lemma ActiveNotStuck<T>(c: Config<T>, s: System<T>, t: nat) returns (step: Step)
    requires c.Valid() && Active(c, s, t)
    ensures Enabled(c, s, step)
  {
    hide First, Rows, ActiveRank, Sized, Past;
    if s[0].pc.Scattering? {
      ScatterEnabled(c, s, t);
      step := Scatter;
    } else if r :| 0 <= r < c.n && s[r].pc.Computing? {
      SizedRank(c, s, t, r);
      step := Compute(r);
    } else if r :| 0 <= r < c.n && s[r].pc.Copying? {
      SizedRank(c, s, t, r);
      step := Copy(r);
    } else if forall r :: 0 <= r < c.n ==> s[r].pc.Reducing? {
      step := Reduce;
    } else {
      var r := LastNotReducing(s, c.n);
      assert PcAllowed(c.n, r, s[r].pc);
      if s[r].pc.WithNext? {
        NextStillExchanging(c, s, r);
      }
      assert s[r].pc.WithPrev? && PcAllowed(c.n, r - 1, s[r - 1].pc);
      assert PastNext(r - 1, s[r - 1].pc) <==> PastPrev(s[r].pc);
      assert s[r - 1].pc.WithNext?;
      SizedRank(c, s, t, r - 1);
      SizedRank(c, s, t, r);
      step := Swap(r - 1);
    }
  }

  lemma StoppedNotStuck<T>(c: Config<T>, s: System<T>, t: nat)
    requires c.Valid() && Stopped(c, s, t) && !AllFinished(s)
    ensures Enabled(c, s, Gather)
  {
    hide First, Rows, G, Stops, Past;
    assert s[0].pc.Gathering?;
    var i := s[0].pc.next;
    BandInside(c, i);
    assert WorkerDone(c, i, s[i], t);
  }

  /** No reachable state with an unfinished rank is stuck. */
  lemma NeverStuck<T>(c: Config<T>, run: seq<System<T>>, steps: seq<Step>) returns (step: Step)
    requires c.Valid() && Run(c, run, steps) && !AllFinished(run[|steps|])
    ensures |run[|steps|]| == c.n && Enabled(c, run[|steps|], step)
  {
    var t := RunsKeepInvariant(c, run, steps, |steps|);
    if Active(c, run[|steps|], t) {
      step := ActiveNotStuck(c, run[|steps|], t);
    } else {
      StoppedNotStuck(c, run[|steps|], t);
      step := Gather;
    }
  }

  // ---------------------------------------------------------------- termination

  /** How far a rank is from its end within the current iteration. */
  ghost function Phase(pc: Pc): nat {
    match pc
    case Finished => 0
    case Delivering => 1
    case Gathering(_, _) => 1
    case Reducing => 2
    case Copying => 3
    case WithPrev => 4
    case WithNext => 5
    case Computing => 6
    case Receiving => 7
    case Scattering(_, _) => 7
  }

  ghost function Phases<T>(s: System<T>): nat {
    if s == [] then 0 else Phases(s[..|s| - 1]) + Phase(s[|s| - 1].pc)
  }

  lemma {:induction false} PhasesUpdate<T>(s: System<T>, r: nat, x: Rank<T>)
    requires r < |s|
    ensures Phases(s[r := x]) == Phases(s) - Phase(s[r].pc) + Phase(x.pc)
  {
    var n := |s| - 1;
    if r == n {
      assert s[r := x][..n] == s[..n];
    } else {
      assert s[r := x][..n] == s[..n][r := x];
      PhasesUpdate(s[..n], r, x);
    }
  }

  lemma {:induction false} PhasesConstant<T>(s: System<T>, p: nat)
    requires forall r :: 0 <= r < |s| ==> Phase(s[r].pc) <= p
    ensures Phases(s) <= RowStart(p, |s|)
    ensures (forall r :: 0 <= r < |s| ==> Phase(s[r].pc) == p) ==> Phases(s) == RowStart(p, |s|)
  {
    if s != [] {
      PhasesConstant(s[..|s| - 1], p);
    }
  }

  /** Steps left, at most, when iteration t + 1 (or, stopped, t) is under way and the program stops at `stop`. */
  ghost function Distance<T>(c: Config<T>, s: System<T>, t: nat, stop: nat): nat
    requires t <= stop
  {
    RowStart(4 * c.n + 1, stop - t) + Phases(s)
  }

  lemma OneRankMoves<T>(s: System<T>, r: nat, x: Rank<T>)
    requires r < |s| && Phase(x.pc) < Phase(s[r].pc)
    ensures Phases(s[r := x]) < Phases(s)
  {
    PhasesUpdate(s, r, x);
  }

  lemma TwoRanksMove<T>(s: System<T>, r: nat, x: Rank<T>, q: nat, y: Rank<T>)
    requires r < |s| && q < |s| && r != q && Phase(x.pc) < Phase(s[r].pc) && Phase(y.pc) <= Phase(s[q].pc)
    ensures Phases(s[r := x][q := y]) < Phases(s)
  {
    PhasesUpdate(s, r, x);
    PhasesUpdate(s[r := x], q, y);
  }

  /** Every step but a reduction lowers the phases. */
  lemma StepLowersPhases<T>(c: Config<T>, s: System<T>, t: nat, step: Step)
    requires c.Valid() && Invariant(c, s, t) && Enabled(c, s, step) && !step.Reduce?
    ensures Phases(Do(c, s, step)) < Phases(s)
  {
    hide First, Rows, ActiveRank, WorkerDone, GatheredUpTo, Sized, Relaxation, Stops, Past;
    var s' := Do(c, s, step);
    match step {
      case Scatter =>
        var i := s[0].pc.next;
        assert s' == s[i := s'[i]][0 := s'[0]];
        TwoRanksMove(s, i, s'[i], 0, s'[0]);
      case Compute(r) =>
        OneRankMoves(s, r, s'[r]);
      case Swap(r) =>
        assert s' == s[r := s'[r]][r + 1 := s'[r + 1]];
        TwoRanksMove(s, r, s'[r], r + 1, s'[r + 1]);
      case Copy(r) =>
        OneRankMoves(s, r, s'[r]);
      case Gather =>
        var i := s[0].pc.next;
        assert s' == s[i := s'[i]][0 := s'[0]];
        TwoRanksMove(s, i, s'[i], 0, s'[0]);
    }
  }

  lemma ReducePhases<T>(c: Config<T>, s: System<T>)
    requires c.Valid() && |s| == c.n && Enabled(c, s, Reduce)
    ensures Phases(s) == 2 * c.n && Phases(Do(c, s, Reduce)) <= 6 * c.n
  {
    hide First, Rows, Total;
    PhasesConstant(s, 2);
    PhasesConstant(Do(c, s, Reduce), 6);
    RowStartIsProduct(2, c.n);
    RowStartIsProduct(6, c.n);
  }

  lemma BeforeStop<T>(c: Config<T>, s: System<T>, t: nat, stop: nat)
    requires c.Valid() && Invariant(c, s, t) && Stops(c, stop)
    ensures t <= stop && (Active(c, s, t) ==> t < stop)
  {
    hide First, Rows, ActiveRank, WorkerDone, GatheredUpTo, Sized, Stops, InStep;
  }

  /** When the sequential program stops at `stop`, every step brings the distributed one nearer to its end. */
  lemma StepsComeNearer<T>(c: Config<T>, s: System<T>, t: nat, step: Step, stop: nat) returns (t': nat)
    requires c.Valid() && Invariant(c, s, t) && Enabled(c, s, step) && Stops(c, stop)
    ensures t <= stop && t' <= stop && Invariant(c, Do(c, s, step), t')
    ensures Distance(c, Do(c, s, step), t', stop) < Distance(c, s, t, stop)
  {
    hide Do, Stops, ActiveRank, WorkerDone, InStep, GatheredUpTo;
    t' := StepKeeps(c, s, t, step);
    BeforeStop(c, s, t, stop);
    BeforeStop(c, Do(c, s, step), t', stop);
    if step.Reduce? {
      ReducePhases(c, s);
    } else {
      StepLowersPhases(c, s, t, step);
    }
  }

  lemma {:induction false} RunDistance<T>(c: Config<T>, run: seq<System<T>>, steps: seq<Step>, stop: nat, i: nat)
    returns (t: nat)
    requires c.Valid() && Run(c, run, steps) && Stops(c, stop) && i <= |steps|
    ensures t <= stop && Invariant(c, run[i], t)
    ensures Distance(c, run[i], t, stop) + i <= Distance(c, run[0], 0, stop)
  {
    hide Invariant, Do, Enabled, Stops, Distance;
    if i == 0 {
      InitInvariant(c, run[0]);
      InitialDistance(c, run[0], stop);
      t := 0;
    } else {
      t := RunDistance(c, run, steps, stop, i - 1);
      t := StepsComeNearer(c, run[i - 1], t, steps[i - 1], stop);
    }
  }

  lemma InitialDistance<T>(c: Config<T>, s: System<T>, stop: nat)
    requires c.Valid() && Init(c, s)
    ensures Distance(c, s, 0, stop) == stop * (4 * c.n + 1) + 7 * c.n
  {
    PhasesConstant(s, 7);
    RowStartIsProduct(7, c.n);
    RowStartIsProduct(4 * c.n + 1, stop);
  }

  /** Every run is bounded: with an exit iteration `stop`, no run is longer than this. */
  lemma RunsAreBounded<T>(c: Config<T>, run: seq<System<T>>, steps: seq<Step>, stop: nat)
    requires c.Valid() && Run(c, run, steps) && Stops(c, stop)
    ensures |steps| <= stop * (4 * c.n + 1) + 7 * c.n
  {
    hide Stops, Invariant;
    var t := RunDistance(c, run, steps, stop, |steps|);
    InitialDistance(c, run[0], stop);
  }

  /** So every run can be continued to one in which all ranks have finished. */
  lemma {:induction false} RunsCanFinish<T>(c: Config<T>, run: seq<System<T>>, steps: seq<Step>, stop: nat)
    returns (run': seq<System<T>>, steps': seq<Step>)
    requires c.Valid() && Stops(c, stop) && Run(c, run, steps)
    ensures Run(c, run', steps') && |steps| <= |steps'| && steps'[..|steps|] == steps && AllFinished(run'[|steps'|])
    decreases stop * (4 * c.n + 1) + 7 * c.n - |steps|
  {
    hide Run, Stops, Enabled, Do, AllFinished;
    RunsAreBounded(c, run, steps, stop);
    RunLength(c, run, steps);
    if AllFinished(run[|steps|]) {
      run', steps' := run, steps;
    } else {
      var step := NeverStuck(c, run, steps);
      LongerRun(c, run, steps, step);
      var longer, more := run + [Do(c, run[|steps|], step)], steps + [step];
      RunsAreBounded(c, longer, more, stop);
      run', steps' := RunsCanFinish(c, longer, more, stop);
      assert more[..|steps|] == steps && steps'[..|steps|] == steps'[..|more|][..|steps|];
    }
  }

  lemma LongerRun<T>(c: Config<T>, run: seq<System<T>>, steps: seq<Step>, step: Step)
    requires c.Valid() && Run(c, run, steps) && |run[|steps|]| == c.n && Enabled(c, run[|steps|], step)
    ensures Run(c, run + [Do(c, run[|steps|], step)], steps + [step])
  {
    hide Do, Enabled, Init;
  }

  /** Without one, no run finishes. */
  lemma EndlessWhenSequentialIs<T>(c: Config<T>, run: seq<System<T>>, steps: seq<Step>)
    requires c.Valid() && Run(c, run, steps) && forall t: nat :: !Stops(c, t)
    ensures !AllFinished(run[|steps|])
  {
    if AllFinished(run[|steps|]) {
      var t := FinishedRunsAgree(c, run, steps);
    }
  }
}
