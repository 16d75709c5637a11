/** Over real numbers the distributed heat program always ends, with the sequential result. */
module HeatMpiTermination {
  import opened HeatMpi
  import opened HeatMpiRefinement
  import HeatMpiProgress
  import HeatMpiSafety
  import HeatSequential
  import HeatTermination
  import MaximumPrinciple

  /** One bound holds for all runs, whatever the grid, the number of ranks and the iteration limit. */
  lemma RunsEnd(c: Config<real>) returns (stop: nat)
    requires c.Valid() && c.k == MaximumPrinciple.Heat5()
    ensures Stops(c, stop)
    ensures forall run, steps :: Run(c, run, steps) ==> |steps| <= stop * (4 * c.n + 1) + 7 * c.n
  {
    hide MaximumPrinciple.Heat5, Run;
    stop := HeatTermination.AlwaysStops(HeatSequential.JacobiSolver, c.g0, c.Np(), c.maxiter);
    forall run, steps | Run(c, run, steps) ensures |steps| <= stop * (4 * c.n + 1) + 7 * c.n {
      HeatMpiProgress.RunsAreBounded(c, run, steps, stop);
    }
  }

  /** Every run, however its steps were chosen, goes on to one in which all ranks have finished, and rank 0 then holds
      the grid the sequential program ends with. */
  lemma RunsGiveTheResult(c: Config<real>, run: seq<System<real>>, steps: seq<Step>)
    returns (run': seq<System<real>>, steps': seq<Step>, t: nat)
    requires c.Valid() && c.k == MaximumPrinciple.Heat5() && Run(c, run, steps)
    ensures Run(c, run', steps') && |steps| <= |steps'| && steps'[..|steps|] == steps && AllFinished(run'[|steps'|])
    ensures |run'[|steps'|]| == c.n && t > 0 && Stops(c, t) && Past(c, t - 1)
    ensures run'[|steps'|][0].u == HeatSequential.Iterate(c.k, HeatSequential.JacobiSolver, c.g0, c.Np(), t)
  {
    hide MaximumPrinciple.Heat5, Run, Stops, Past, AllFinished;
    var stop := RunsEnd(c);
    run', steps' := HeatMpiProgress.RunsCanFinish(c, run, steps, stop);
    t := HeatMpiSafety.FinishedRunsAgree(c, run', steps');
  }
}
