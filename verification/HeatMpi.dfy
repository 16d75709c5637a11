/**
 The distributed heat program with the Jacobi solver, as a state machine over the MPI
 ranks. Rank 0 scatters bands of rows; every rank relaxes its band, swaps halo rows
 with its neighbours and takes part in the all-reduce; after the last iteration rank 0
 gathers the bands. Blocking calls are rendezvous: a step needs every rank it
 involves to be at the matching call. Any enabled step may come next.
 */
module HeatMpi {
  import opened Grids
  import opened RowMajor
  import opened Blocks
  import opened Solver
  import opened HeatSequential

  datatype Config<!T> = Config(k: Kernel<T>, n: nat, res: nat, maxiter: nat, g0: Grid<T>)
  {
    /** Rows including the two boundary rows. */
    function Np(): nat { res + 2 }

    ghost predicate Valid() {
      2 <= n <= res && Rect(g0, Np(), Np())
    }
  }

  // ---------------------------------------------------------------- the row split

  /** How many rows rank r relaxes. */
  function Rows<T>(c: Config<T>, r: nat): nat
    requires c.n > 0
  {
    c.res / c.n + if r < c.res % c.n then 1 else 0
  }

  function First<T>(c: Config<T>, r: nat): nat
    requires c.n > 0
  {
    if r == 0 then 1 else First(c, r - 1) + Rows(c, r - 1)
  }

  /** The loop that computes the first and last row of every rank. */
  method SplitRows<T>(c: Config<T>) returns (first: seq<nat>, last: seq<nat>)
    requires c.Valid()
    ensures |first| == |last| == c.n
    ensures forall r :: 0 <= r < c.n ==> first[r] == First(c, r) && last[r] + 1 == First(c, r + 1)
    ensures first[0] == 1 && last[c.n - 1] == c.res
    ensures forall r :: 0 <= r < c.n - 1 ==> first[r + 1] == last[r] + 1
    ensures forall r :: 0 <= r < c.n ==> last[r] + 1 == first[r] + c.res / c.n + if r < c.res % c.n then 1 else 0
  {
    hide First, Rows;
    first, last := [], [];
    var first_row := 1;
    FirstStep(c, 0);
    for i := 0 to c.n
      invariant |first| == |last| == i && first_row == First(c, i)
      invariant forall r :: 0 <= r < i ==> first[r] == First(c, r) && last[r] + 1 == First(c, r + 1)
    {
      AtLeastOneRow(c, i);
      FirstStep(c, i);
      var last_row := first_row + c.res / c.n - 1;
      last_row := if i < c.res % c.n then last_row + 1 else last_row;
      first, last := first + [first_row], last + [last_row];
      first_row := last_row + 1;
    }
    BandsEnd(c);
    forall r | 0 <= r < c.n
      ensures last[r] + 1 == first[r] + c.res / c.n + if r < c.res % c.n then 1 else 0
    {
      FirstStep(c, r);
    }
  }

  lemma FirstStep<T>(c: Config<T>, r: nat)
    requires c.n > 0
    ensures First(c, 0) == 1 && First(c, r + 1) == First(c, r) + Rows(c, r)
    ensures Rows(c, r) == if r < c.res % c.n then c.res / c.n + 1 else c.res / c.n
  {
  }

  lemma AtLeastOneEach(res: nat, n: nat)
    requires 0 < n <= res
    ensures res / n >= 1
  {
  }

  lemma {:induction false} FirstIsPositive<T>(c: Config<T>, r: nat)
    requires c.n > 0
    ensures First(c, r) >= 1
  {
    hide Rows;
    if r > 0 {
      FirstIsPositive(c, r - 1);
    }
  }

  lemma AtLeastOneRow<T>(c: Config<T>, r: nat)
    requires c.Valid()
    ensures Rows(c, r) >= 1 && First(c, r) >= 1
  {
    hide First;
    AtLeastOneEach(c.res, c.n);
    FirstIsPositive(c, r);
  }

  lemma {:induction false} FirstFormula<T>(c: Config<T>, r: nat)
    requires c.Valid()
    ensures First(c, r) == 1 + RowStart(c.res / c.n, r) + Min(r, c.res % c.n)
  {
    if r > 0 {
      FirstFormula(c, r - 1);
    }
  }

  /** The bands end where the interior rows end. */
  lemma BandsEnd<T>(c: Config<T>)
    requires c.Valid()
    ensures First(c, c.n) == c.res + 1
  {
    FirstFormula(c, c.n);
    RowStartIsProduct(c.res / c.n, c.n);
    assert c.res == c.n * (c.res / c.n) + c.res % c.n;
  }

  lemma {:induction false} BandsInOrder<T>(c: Config<T>, r: nat, q: nat)
    requires c.Valid() && r < q
    ensures First(c, r) + Rows(c, r) <= First(c, q)
  {
    if r < q - 1 {
      BandsInOrder(c, r, q - 1);
    }
  }

  lemma NextBand<T>(c: Config<T>, r: nat)
    requires c.n > 0
    ensures First(c, r + 1) == First(c, r) + Rows(c, r)
  {
    hide Rows;
  }

  lemma BandInside<T>(c: Config<T>, r: nat)
    requires c.Valid() && r < c.n
    ensures Rows(c, r) >= 1 && First(c, r) >= 1
    ensures First(c, r) + Rows(c, r) <= c.res + 1
    ensures r + 1 < c.n ==> First(c, r) + Rows(c, r) <= c.res
    ensures r + 1 == c.n ==> First(c, r) + Rows(c, r) == c.res + 1
  {
    hide First, Rows;
    AtLeastOneRow(c, r);
    BandsEnd(c);
    NextBand(c, r);
    if r + 1 < c.n {
      BandsInOrder(c, r, c.n - 1);
      NextBand(c, c.n - 1);
      AtLeastOneRow(c, c.n - 1);
    }
  }

  /** Every interior row belongs to exactly one rank. */
  lemma EveryRowHasOneOwner<T>(c: Config<T>, a: nat) returns (r: nat)
    requires c.Valid() && 1 <= a <= c.res
    ensures r < c.n && First(c, r) <= a < First(c, r) + Rows(c, r)
    ensures forall q: nat :: q < c.n && First(c, q) <= a < First(c, q) + Rows(c, q) ==> q == r
  {
    BandsEnd(c);
    r := OwnerBelow(c, a, c.n);
    forall q: nat | q < c.n && First(c, q) <= a < First(c, q) + Rows(c, q) ensures q == r {
      hide First, Rows;
      if q < r {
        BandsInOrder(c, q, r);
      } else if r < q {
        BandsInOrder(c, r, q);
      }
    }
  }

  lemma {:induction false} OwnerBelow<T>(c: Config<T>, a: nat, n: nat) returns (r: nat)
    requires c.Valid() && 1 <= a < First(c, n)
    ensures r < n && First(c, r) <= a < First(c, r) + Rows(c, r)
  {
    if a >= First(c, n - 1) {
      r := n - 1;
    } else {
      r := OwnerBelow(c, a, n - 1);
    }
  }

  // ---------------------------------------------------------------- states and steps

  /** Where a rank's program is. Scattering and Gathering hold the next worker and its first row. */
  datatype Pc =
    | Scattering(next: nat, first: nat) | Receiving
    | Computing | WithNext | WithPrev | Copying | Reducing
    | Gathering(next: nat, first: nat) | Delivering | Finished

  datatype Rank<T> = Rank(pc: Pc, rows: nat, u: Grid<T>, uhelp: Grid<T>, iter: nat, residual: real)

  type System<T> = seq<Rank<T>>

  datatype Step = Scatter | Compute(r: nat) | Swap(r: nat) | Copy(r: nat) | Reduce | Gather

  /** Rank 0 has the whole grid in both arrays and has not sent anything; the others wait. */
  ghost predicate Init<T>(c: Config<T>, s: System<T>)
    requires c.Valid()
  {
    && |s| == c.n
    && s[0] == Rank(Scattering(1, 1 + Rows(c, 0)), Rows(c, 0), c.g0, c.g0, 0, 0.0)
    && forall r :: 1 <= r < c.n ==> s[r].pc == Receiving
  }

  /** A rank relaxes and copies the first rows + 2 rows of its arrays: all of them on a worker. */
  ghost predicate Sized<T>(c: Config<T>, x: Rank<T>) {
    && x.rows >= 1 && x.rows + 2 <= |x.u| && |x.uhelp| == |x.u|
    && Rect(x.u, |x.u|, c.Np()) && Rect(x.uhelp, |x.u|, c.Np())
  }

  ghost function LocalSwept<T>(c: Config<T>, rows: nat): (m: set<Cell>)
    ensures Interior(m, rows + 2, c.Np())
  {
    SplitValid(rows + 2, c.Np(), 1, NB);
    SweptInterior(Split(rows + 2, c.Np(), 1, NB));
    Swept(Split(rows + 2, c.Np(), 1, NB))
  }

  ghost function Relaxation<T>(c: Config<T>, x: Rank<T>): (r: Grid<T>)
    requires Sized(c, x)
    ensures Rect(r, x.rows + 2, c.Np())
  {
    Jacobi(c.k, x.u[..x.rows + 2], x.uhelp[..x.rows + 2], x.rows + 2, c.Np(), LocalSwept(c, x.rows))
  }

  ghost function Relaxing<T>(c: Config<T>, x: Rank<T>, r: nat): Rank<T>
    requires Sized(c, x)
  {
    x.(uhelp := Relaxation(c, x) + x.uhelp[x.rows + 2..],
       residual := GapSum(c.k, x.u[..x.rows + 2], Relaxation(c, x), x.rows + 2, c.Np(), LocalSwept(c, x.rows)),
       pc := if r + 1 < c.n then WithNext else WithPrev)
  }

  ghost function Total<T>(s: System<T>): real {
    if s == [] then 0.0 else Total(s[..|s| - 1]) + s[|s| - 1].residual
  }

  /** What a rank does with the reduced residual: each decides on its own whether to leave the loop. */
  ghost function Reduced<T>(c: Config<T>, x: Rank<T>, r: nat, total: real): Rank<T>
    requires c.n > 0
  {
    x.(residual := total,
       pc := if !ExitTest(x.iter, total, c.maxiter) then Computing
             else if r == 0 then Gathering(1, 1 + Rows(c, 0)) else Delivering)
  }

  ghost predicate Enabled<T>(c: Config<T>, s: System<T>, step: Step)
    requires c.n > 0 && |s| == c.n
  {
    match step
    case Scatter =>
      && s[0].pc.Scattering? && Sized(c, s[0])
      && var i, first := s[0].pc.next, s[0].pc.first;
         i < c.n && i != 0 && s[i].pc.Receiving? && 1 <= first && first + Rows(c, i) < |s[0].u|
    case Compute(r) => r < c.n && s[r].pc.Computing? && Sized(c, s[r])
    case Swap(r) => r + 1 < c.n && s[r].pc.WithNext? && s[r + 1].pc.WithPrev? && Sized(c, s[r]) && Sized(c, s[r + 1])
    case Copy(r) => r < c.n && s[r].pc.Copying? && Sized(c, s[r])
    case Reduce => forall r :: 0 <= r < c.n ==> s[r].pc.Reducing?
    case Gather =>
      && s[0].pc.Gathering? && Sized(c, s[0])
      && var i, first := s[0].pc.next, s[0].pc.first;
         i < c.n && i != 0 && s[i].pc.Delivering? && first + Rows(c, i) <= |s[0].u| && 1 + Rows(c, i) <= |s[i].u|
  }

  ghost function Do<T>(c: Config<T>, s: System<T>, step: Step): (s': System<T>)
    requires c.n > 0 && |s| == c.n && Enabled(c, s, step)
    ensures |s'| == c.n
  {
    match step
    case Scatter =>
      var i, first := s[0].pc.next, s[0].pc.first;
      var rows := Rows(c, i);
      var band, help := s[0].u[first - 1..first + rows + 1], s[0].uhelp[first - 1..first + rows + 1];
      s[i := Rank(Computing, rows, band, help, 0, s[i].residual)]
       [0 := s[0].(pc := if i + 1 < c.n then Scattering(i + 1, first + rows) else Computing)]
    case Compute(r) =>
      s[r := Relaxing(c, s[r], r)]
    case Swap(r) =>
      var a, b := s[r], s[r + 1];
      s[r := a.(uhelp := a.uhelp[a.rows + 1 := b.uhelp[1]], pc := if r == 0 then Copying else WithPrev)]
       [r + 1 := b.(uhelp := b.uhelp[0 := a.uhelp[a.rows]], pc := Copying)]
    case Copy(r) =>
      var x := s[r];
      s[r := x.(u := x.uhelp[..x.rows + 2] + x.u[x.rows + 2..], iter := x.iter + 1, pc := Reducing)]
    case Reduce =>
      seq(c.n, r requires 0 <= r < c.n => Reduced(c, s[r], r, Total(s)))
    case Gather =>
      var i, first := s[0].pc.next, s[0].pc.first;
      var rows := Rows(c, i);
      s[i := s[i].(pc := Finished)]
       [0 := s[0].(u := s[0].u[..first] + s[i].u[1..1 + rows] + s[0].u[first + rows..],
                   pc := if i + 1 < c.n then Gathering(i + 1, first + rows) else Finished)]
  }

  /** A run: states from an initial one, each reached by an enabled step. */
  ghost predicate Run<T>(c: Config<T>, run: seq<System<T>>, steps: seq<Step>)
    requires c.Valid()
  {
    && |run| == |steps| + 1 && Init(c, run[0])
    && forall i :: 0 <= i < |steps| ==>
         |run[i]| == c.n && Enabled(c, run[i], steps[i]) && run[i + 1] == Do(c, run[i], steps[i])
  }

  ghost predicate AllFinished<T>(s: System<T>) {
    forall r :: 0 <= r < |s| ==> s[r].pc.Finished?
  }
}
