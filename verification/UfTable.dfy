/**
 The bounded open-addressing hash table of instrumented routine addresses: linear
 probing with wrap-around over at most 65 slots. Address 0 (NULL) marks an empty slot.
 */
module UfTable {

  /** 64-bit addresses: a table of 2^17 slots. */
  const MAX_UFS: nat := 0x2_0000
  const LOOKAHEAD: nat := 64

  type Table = seq<nat>

  function Hash(address: nat): (h: nat)
    ensures h < MAX_UFS
  {
    address / 8 % MAX_UFS
  }

  /** The slot probed after `count` steps. */
  function Slot(address: nat, count: nat): (p: nat)
    ensures p < MAX_UFS
  {
    (Hash(address) + count) % MAX_UFS
  }

  /** How many steps slot p is from the home slot of an address. */
  function Displacement(address: nat, p: nat): (d: nat)
    requires p < MAX_UFS
    ensures d < MAX_UFS && Slot(address, d) == p
  {
    if p >= Hash(address) then p - Hash(address) else p + MAX_UFS - Hash(address)
  }

  lemma HomeSlot(address: nat)
    ensures Slot(address, 0) == Hash(address)
  {
  }

  lemma DisplacementOfSlot(address: nat, count: nat)
    requires count < MAX_UFS
    ensures Displacement(address, Slot(address, count)) == count
  {
  }

  // ---------------------------------------------------------------- adding and looking up

  /** Where the probe for an empty slot ends: the first empty one from `count` on, or the last one probed. */
  function ProbeEnd(t: Table, address: nat, count: nat): (c: nat)
    requires |t| == MAX_UFS && count <= LOOKAHEAD
    ensures count <= c <= LOOKAHEAD
    ensures forall k :: count <= k < c ==> t[Slot(address, k)] != 0
    ensures c < LOOKAHEAD ==> t[Slot(address, c)] == 0
    decreases LOOKAHEAD - count
  {
    if t[Slot(address, count)] == 0 || count == LOOKAHEAD then count else ProbeEnd(t, address, count + 1)
  }

  lemma ProbeStep(t: Table, address: nat, count: nat)
    requires |t| == MAX_UFS && count <= LOOKAHEAD
    ensures ProbeEnd(t, address, count)
         == if t[Slot(address, count)] == 0 || count == LOOKAHEAD then count else ProbeEnd(t, address, count + 1)
  {
  }

  predicate Accepts(t: Table, address: nat)
    requires |t| == MAX_UFS
  {
    t[Slot(address, ProbeEnd(t, address, 0))] == 0
  }

  function Insert(t: Table, address: nat): (t': Table)
    requires |t| == MAX_UFS
    ensures |t'| == MAX_UFS
  {
    if Accepts(t, address) then t[Slot(address, ProbeEnd(t, address, 0)) := address] else t
  }

  /** Where the search for an address ends: at the address, at an empty slot, or at the last slot probed. */
  function SearchEnd(t: Table, address: nat, count: nat): (c: nat)
    requires |t| == MAX_UFS && count <= LOOKAHEAD
    ensures count <= c <= LOOKAHEAD
    ensures forall k :: count <= k < c ==> t[Slot(address, k)] != address && t[Slot(address, k)] != 0
    ensures c < LOOKAHEAD ==> t[Slot(address, c)] == address || t[Slot(address, c)] == 0
    decreases LOOKAHEAD - count
  {
    var p := Slot(address, count);
    if t[p] == address || t[p] == 0 || count == LOOKAHEAD then count else SearchEnd(t, address, count + 1)
  }

  lemma SearchStep(t: Table, address: nat, count: nat)
    requires |t| == MAX_UFS && count <= LOOKAHEAD
    ensures var p := Slot(address, count);
            SearchEnd(t, address, count)
              == if t[p] == address || t[p] == 0 || count == LOOKAHEAD then count else SearchEnd(t, address, count + 1)
  {
  }

  predicate Found(t: Table, address: nat)
    requires |t| == MAX_UFS
  {
    t[Slot(address, SearchEnd(t, address, 0))] == address
  }

  // ---------------------------------------------------------------- the table as a set

  /** Every entry is within reach of its home slot, with no empty slot in between. */
  ghost predicate Reachable(t: Table)
    requires |t| == MAX_UFS
  {
    forall p :: 0 <= p < MAX_UFS && t[p] != 0 ==> EntryReachable(t, p)
  }

  ghost predicate EntryReachable(t: Table, p: nat)
    requires |t| == MAX_UFS && p < MAX_UFS
  {
    var d := Displacement(t[p], p);
    d <= LOOKAHEAD && forall k :: 0 <= k < d ==> t[Slot(t[p], k)] != 0
  }

  ghost function Contents(t: Table): set<nat> { set a | a in t && a != 0 }

  /** An address is accepted exactly when one of the 65 slots probed for it is empty. */
  lemma {:induction false} AcceptsIffRoom(t: Table, address: nat)
    requires |t| == MAX_UFS
    ensures Accepts(t, address) <==> exists k :: 0 <= k <= 64 && t[Slot(address, k)] == 0
  {
    hide ProbeEnd, SearchEnd, Slot, StatsOf;
    var c := ProbeEnd(t, address, 0);
    if k :| 0 <= k <= LOOKAHEAD && t[Slot(address, k)] == 0 {
      assert k >= c;
    }
  }

  /** The slots probed for an address: its eighth, and the ones after it, modulo the table size. */
  lemma ProbedSlot(address: nat, count: nat)
    ensures Slot(address, count) == (address / 8 + count) % 0x2_0000
  {
  }

  /** An accepted address goes to the first empty slot probed. */
  lemma InsertsAtFirstEmpty(t: Table, address: nat) returns (c: nat)
    requires |t| == MAX_UFS && Accepts(t, address)
    ensures c <= 64 && t[Slot(address, c)] == 0 && forall k :: 0 <= k < c ==> t[Slot(address, k)] != 0
    ensures Insert(t, address) == t[Slot(address, c) := address]
  {
    hide ProbeEnd, Slot;
    c := ProbeEnd(t, address, 0);
  }

  /** The search looks at no more than 65 slots, and at none behind an empty one. */
  lemma FoundWithin(t: Table, address: nat)
    requires |t| == MAX_UFS && address != 0
    ensures Found(t, address) <==> exists k ::
      0 <= k <= 64 && t[Slot(address, k)] == address && forall q :: 0 <= q < k ==> t[Slot(address, q)] != 0
  {
    hide SearchEnd, Slot;
    var c := SearchEnd(t, address, 0);
    if Found(t, address) {
      assert t[Slot(address, c)] == address;
    }
    if k :| 0 <= k <= 64 && t[Slot(address, k)] == address && forall q :: 0 <= q < k ==> t[Slot(address, q)] != 0 {
      assert c <= k;
    }
  }

  /** Adding keeps every entry reachable and adds the address to the contents if it is accepted. */
  lemma InsertKeeps(t: Table, address: nat)
    requires |t| == MAX_UFS && Reachable(t)
    ensures Reachable(Insert(t, address))
    ensures Contents(Insert(t, address))
         == if Accepts(t, address) && address != 0 then Contents(t) + {address} else Contents(t)
  {
    hide ProbeEnd, SearchEnd, Slot, StatsOf;
    if Accepts(t, address) {
      var c := ProbeEnd(t, address, 0);
      var slot := Slot(address, c);
      var t' := Insert(t, address);
      DisplacementOfSlot(address, c);
      forall p | 0 <= p < MAX_UFS && t'[p] != 0 ensures EntryReachable(t', p) {
        if p != slot {
          assert EntryReachable(t, p);
        }
      }
      forall a | a in Contents(t) ensures a in t' {
        var p :| 0 <= p < |t| && t[p] == a;
        assert t'[p] == a;
      }
      assert t'[slot] == address;
    }
  }

  /** The search finds exactly the addresses in the table. */
  lemma {:induction false} FoundIffContained(t: Table, address: nat)
    requires |t| == MAX_UFS && Reachable(t) && address != 0
    ensures Found(t, address) <==> address in Contents(t)
  {
    hide ProbeEnd, SearchEnd, Slot, StatsOf;
    if address in Contents(t) {
      var p :| 0 <= p < |t| && t[p] == address;
      assert EntryReachable(t, p);
      var d := Displacement(address, p);
      assert SearchEnd(t, address, 0) <= d;
    }
  }

  /** Searching for NULL says whether a probe for it would find room. */
  lemma {:induction false} FoundNull(t: Table)
    requires |t| == MAX_UFS
    ensures Found(t, 0) <==> Accepts(t, 0)
  {
    hide SearchEnd, ProbeEnd, Slot;
    var c, d := SearchEnd(t, 0, 0), ProbeEnd(t, 0, 0);
  }

  // ---------------------------------------------------------------- runs

  datatype Op = Reset | Add(address: nat)

  function EmptyTable(): (t: Table)
    ensures |t| == MAX_UFS && forall p :: 0 <= p < MAX_UFS ==> t[p] == 0
  {
    seq(MAX_UFS, _ => 0)
  }

  /** The table after the operations, last one last. */
  function Replay(ops: seq<Op>): (t: Table)
    ensures |t| == MAX_UFS
  {
    if ops == [] then EmptyTable() else
      var before, op := Replay(ops[..|ops| - 1]), ops[|ops| - 1];
      if op.Reset? then EmptyTable() else Insert(before, op.address)
  }

  lemma ReplayStep(ops: seq<Op>, op: Op)
    ensures Replay(ops + [op]) == if op.Reset? then EmptyTable() else Insert(Replay(ops), op.address)
  {
    assert (ops + [op])[..|ops|] == ops;
  }

  /** The addresses accepted since the last reset. */
  function Accepted(ops: seq<Op>): set<nat> {
    if ops == [] then {} else
      var front, op := ops[..|ops| - 1], ops[|ops| - 1];
      if op.Reset? then {}
      else if Accepts(Replay(front), op.address) then Accepted(front) + {op.address}
      else Accepted(front)
  }

  lemma {:induction false} ReplayKeeps(ops: seq<Op>)
    ensures Reachable(Replay(ops)) && Contents(Replay(ops)) == Accepted(ops) - {0}
  {
    if ops != [] {
      var front, op := ops[..|ops| - 1], ops[|ops| - 1];
      ReplayKeeps(front);
      if op.Add? {
        InsertKeeps(Replay(front), op.address);
      }
    }
  }

  /** After any resets and adds, lookup answers true exactly for the addresses accepted since the last reset. */
  lemma LookupAfterAnyRun(ops: seq<Op>, address: nat)
    requires address != 0
    ensures Found(Replay(ops), address) <==> address in Accepted(ops)
  {
    ReplayKeeps(ops);
    FoundIffContained(Replay(ops), address);
  }

  // ---------------------------------------------------------------- statistics

  datatype Stats = Stats(count: nat, collisions: nat, distance: nat)
  {
    function Plus(other: Stats): Stats {
      Stats(count + other.count, collisions + other.collisions, distance + other.distance)
    }
  }

  const NO_STATS := Stats(0, 0, 0)

  /** What one entry `d` steps from home counts for. */
  function EntryStats(d: nat): Stats { Stats(1, if d > 0 then 1 else 0, d) }

  /** The occupied slots among the first n, those away from home, and their total displacement. */
  ghost function StatsOf(t: Table, n: nat): Stats
    requires |t| == MAX_UFS && n <= MAX_UFS
  {
    if n == 0 then NO_STATS
    else if t[n - 1] == 0 then StatsOf(t, n - 1)
    else StatsOf(t, n - 1).Plus(EntryStats(Displacement(t[n - 1], n - 1)))
  }

  ghost function TableStats(t: Table): Stats
    requires |t| == MAX_UFS
  {
    StatsOf(t, |t|)
  }

  lemma {:induction false} StatsOfEmpty(n: nat)
    requires n <= MAX_UFS
    ensures StatsOf(EmptyTable(), n) == NO_STATS
  {
    if n > 0 {
      StatsOfEmpty(n - 1);
    }
  }

  lemma {:induction false} StatsOfUpdate(t: Table, n: nat, p: nat, address: nat)
    requires |t| == MAX_UFS && n <= MAX_UFS && p < MAX_UFS && t[p] == 0 && address != 0
    ensures StatsOf(t[p := address], n)
         == if p < n then StatsOf(t, n).Plus(EntryStats(Displacement(address, p))) else StatsOf(t, n)
  {
    if n > 0 {
      StatsOfUpdate(t, n - 1, p, address);
    }
  }

  /** Adding an accepted address adds one entry, as far from home as the probe went. */
  lemma InsertStats(t: Table, address: nat)
    requires |t| == MAX_UFS
    ensures TableStats(Insert(t, address))
         == if Accepts(t, address) && address != 0 then TableStats(t).Plus(EntryStats(ProbeEnd(t, address, 0)))
           else TableStats(t)
  {
    hide ProbeEnd, SearchEnd, Slot, StatsOf;
    var c := ProbeEnd(t, address, 0);
    DisplacementOfSlot(address, c);
    if Accepts(t, address) {
      if address != 0 {
        StatsOfUpdate(t, |t|, Slot(address, c), address);
      } else {
        assert t[Slot(address, c) := address] == t;
      }
    }
  }

  /** The statistics count the occupied slots. */
  lemma {:induction false} OccupiedSlots(t: Table, n: nat)
    requires |t| == MAX_UFS && n <= |t|
    ensures StatsOf(t, n).count == |set p | 0 <= p < n && t[p] != 0|
  {
    hide Displacement, Slot;
    if n > 0 {
      OccupiedSlots(t, n - 1);
      assert (set p | 0 <= p < n && t[p] != 0)
          == (set p | 0 <= p < n - 1 && t[p] != 0) + if t[n - 1] != 0 then {n - 1} else {};
    }
  }

  lemma AwayFromHomeIff(address: nat, p: nat)
    requires p < MAX_UFS
    ensures Displacement(address, p) > 0 <==> p != address / 8 % 0x2_0000
  {
  }

  /** And those whose entry is not in its home slot. */
  lemma {:induction false} DisplacedEntries(t: Table, n: nat)
    requires |t| == MAX_UFS && n <= |t|
    ensures StatsOf(t, n).collisions == |set p | 0 <= p < n && t[p] != 0 && p != t[p] / 8 % 0x2_0000|
  {
    hide Displacement, Slot;
    if n > 0 {
      DisplacedEntries(t, n - 1);
      AwayFromHomeIff(t[n - 1], n - 1);
      assert (set p | 0 <= p < n && t[p] != 0 && p != t[p] / 8 % 0x2_0000)
          == (set p | 0 <= p < n - 1 && t[p] != 0 && p != t[p] / 8 % 0x2_0000)
             + if t[n - 1] != 0 && n - 1 != t[n - 1] / 8 % 0x2_0000 then {n - 1} else {};
    }
  }

  /** An accepted address adds its distance from its home slot, c steps with wrap-around, to the total. */
  lemma DistanceGrows(t: Table, address: nat) returns (c: nat)
    requires |t| == MAX_UFS && Accepts(t, address) && address != 0
    ensures c <= 64 && t[Slot(address, c)] == 0 && Insert(t, address) == t[Slot(address, c) := address]
    ensures TableStats(Insert(t, address)).distance == TableStats(t).distance + c
  {
    hide ProbeEnd, Slot, StatsOf;
    c := ProbeEnd(t, address, 0);
    InsertStats(t, address);
  }

  /** UF_count, UF_collisions and UF_distance after the operations: an accepted NULL counts like any other address. */
  function Counters(ops: seq<Op>): Stats {
    if ops == [] then NO_STATS else
      var front, op := ops[..|ops| - 1], ops[|ops| - 1];
      if op.Reset? then NO_STATS
      else if Accepts(Replay(front), op.address)
      then Counters(front).Plus(EntryStats(ProbeEnd(Replay(front), op.address, 0)))
      else Counters(front)
  }

  lemma CountersStep(ops: seq<Op>, op: Op)
    ensures Counters(ops + [op])
         == if op.Reset? then NO_STATS
            else if Accepts(Replay(ops), op.address)
            then Counters(ops).Plus(EntryStats(ProbeEnd(Replay(ops), op.address, 0)))
            else Counters(ops)
  {
    assert (ops + [op])[..|ops|] == ops;
  }

  /** The counters never fall short of the table, and agree with it until a NULL is accepted. */
  lemma {:induction false} CountersCoverTable(ops: seq<Op>)
    ensures 0 !in Accepted(ops) ==> Counters(ops) == TableStats(Replay(ops))
    ensures 0 in Accepted(ops) ==> Counters(ops).count > TableStats(Replay(ops)).count
  {
    hide ProbeEnd, Slot, StatsOf, EmptyTable;
    if ops == [] {
      StatsOfEmpty(MAX_UFS);
    } else {
      var front, op := ops[..|ops| - 1], ops[|ops| - 1];
      CountersCoverTable(front);
      if op.Reset? {
        StatsOfEmpty(MAX_UFS);
      } else {
        InsertStats(Replay(front), op.address);
      }
    }
  }

  /** The counters are the table's occupied slots, displaced entries and total displacement exactly if no NULL
      has been accepted since the last reset; the count alone tells. */
  lemma CountersAreTableStatsIff(ops: seq<Op>)
    ensures Counters(ops) == TableStats(Replay(ops)) <==> 0 !in Accepted(ops)
    ensures Counters(ops).count == TableStats(Replay(ops)).count <==> 0 !in Accepted(ops)
  {
    hide *;
    CountersCoverTable(ops);
  }

  /** A file that lists address 0 leaves one routine counted and the table empty. */
  lemma CountedNull()
    ensures Counters([Reset, Add(0)]).count == 1 && Contents(Replay([Reset, Add(0)])) == {}
  {
    hide Slot, EmptyTable, Replay, Counters, ProbeEnd, Insert, Accepts, Reachable, Contents;
    ReplayStep([], Reset);
    ReplayStep([Reset], Add(0));
    CountersStep([], Reset);
    CountersStep([Reset], Add(0));
    assert [] + [Reset] == [Reset] && [Reset] + [Add(0)] == [Reset, Add(0)];
    AcceptsIffRoom(EmptyTable(), 0);
    assert EmptyTable()[Slot(0, 0)] == 0;
    NothingContained();
    InsertKeeps(EmptyTable(), 0);
  }

  lemma NothingContained()
    ensures Reachable(EmptyTable()) && Contents(EmptyTable()) == {}
  {
    hide EmptyTable;
  }

  // ---------------------------------------------------------------- the program

  lemma ZeroedTable(t: Table)
    requires |t| == MAX_UFS && forall p :: 0 <= p < MAX_UFS ==> t[p] == 0
    ensures t == EmptyTable()
  {
  }

  /** The static table and counters, and, as a ghost, the operations so far. */
  class UserFunctions {
    var UF_addresses: array<nat>
    var UF_collisions: nat
    var UF_count: nat
    var UF_distance: nat
    var UF_tracing_enabled: bool
    ghost var ops: seq<Op>

    ghost predicate Valid()
      reads this, UF_addresses
    {
      && UF_addresses.Length == MAX_UFS && UF_addresses[..] == Replay(ops)
      && Stats(UF_count, UF_collisions, UF_distance) == Counters(ops)
    }

    /** Static storage starts out zeroed. */
    constructor ()
      ensures Valid() && fresh(UF_addresses) && ops == [] && !UF_tracing_enabled
    {
      hide EmptyTable;
      UF_addresses := new nat[MAX_UFS](_ => 0);
      UF_collisions, UF_count, UF_distance := 0, 0, 0;
      UF_tracing_enabled := false;
      ops := [];
      new;
      ZeroedTable(UF_addresses[..]);
    }

    method ResetUFtoInstrument()
      requires Valid()
      modifies this, UF_addresses
      ensures Valid() && UF_addresses == old(UF_addresses) && UF_tracing_enabled == old(UF_tracing_enabled)
      ensures ops == old(ops) + [Reset] && UF_addresses[..] == EmptyTable() && UF_count == 0
    {
      hide EmptyTable, Replay, Counters;
      for i := 0 to MAX_UFS
        invariant UF_addresses == old(UF_addresses) && UF_addresses.Length == MAX_UFS
        invariant forall p :: 0 <= p < i ==> UF_addresses[p] == 0
        modifies UF_addresses
      {
        UF_addresses[i] := 0;
      }
      UF_distance, UF_count, UF_collisions := 0, 0, 0;
      ReplayStep(ops, Reset);
      CountersStep(ops, Reset);
      ZeroedTable(UF_addresses[..]);
      ops := ops + [Reset];
    }

    method AddUFtoInstrument(address: nat) returns (added: bool)
      requires Valid()
      modifies this, UF_addresses
      ensures Valid() && UF_addresses == old(UF_addresses) && UF_tracing_enabled == old(UF_tracing_enabled)
      ensures ops == old(ops) + [Add(address)] && UF_addresses[..] == Insert(old(UF_addresses[..]), address)
      ensures added == Accepts(old(UF_addresses[..]), address)
    {
      hide ProbeEnd, Slot, Replay, Counters;
      ghost var t := UF_addresses[..];
      ReplayStep(ops, Add(address));
      CountersStep(ops, Add(address));
      ops := ops + [Add(address)];
      var i := Hash(address);
      HomeSlot(address);
      ProbeStep(t, address, 0);
      added := true;
      if UF_addresses[i] == 0 {
        UF_addresses[i] := address;
        UF_count := UF_count + 1;
        assert UF_addresses[..] == t[i := address];
      } else {
        var count := 1;
        while UF_addresses[Slot(address, count)] != 0 && count < LOOKAHEAD
          invariant 1 <= count <= LOOKAHEAD
          invariant ProbeEnd(t, address, count) == ProbeEnd(t, address, 0)
          modifies {}
          decreases LOOKAHEAD - count
        {
          ProbeStep(t, address, count);
          count := count + 1;
        }
        ProbeStep(t, address, count);
        if UF_addresses[Slot(address, count)] == 0 {
          UF_addresses[Slot(address, count)] := address;
          UF_collisions := UF_collisions + 1;
          UF_count := UF_count + 1;
          UF_distance := UF_distance + count;
          assert UF_addresses[..] == t[Slot(address, count) := address];
        } else {
          added := false;
        }
      }
    }

    method LookForUFaddress(address: nat) returns (found: bool)
      requires Valid()
      ensures found == Found(UF_addresses[..], address)
      ensures address != 0 ==>
        (found <==> address in Accepted(ops)) && (found <==> address in Contents(UF_addresses[..]))
    {
      hide SearchEnd, Slot, Replay, Counters, Accepted;
      ghost var t := UF_addresses[..];
      var count := 0;
      while UF_addresses[Slot(address, count)] != address && UF_addresses[Slot(address, count)] != 0
        && count < LOOKAHEAD
        invariant count <= LOOKAHEAD
        invariant SearchEnd(t, address, count) == SearchEnd(t, address, 0)
        decreases LOOKAHEAD - count
      {
        SearchStep(t, address, count);
        count := count + 1;
      }
      SearchStep(t, address, count);
      found := UF_addresses[Slot(address, count)] == address;
      if address != 0 {
        ReplayKeeps(ops);
        FoundIffContained(t, address);
      }
    }

    /** `InstrumentUFroutines_GCC`, for the addresses listed in a file. Without the file nothing is reset. */
    method InstrumentRoutines(readable: bool, addresses: seq<nat>)
      requires Valid()
      modifies this, UF_addresses
      ensures Valid() && UF_addresses == old(UF_addresses)
      ensures ops == if readable then old(ops) + [Reset] + Adds(addresses) else old(ops)
      ensures UF_addresses[..] == if readable then Replay([Reset] + Adds(addresses)) else old(UF_addresses[..])
      ensures UF_tracing_enabled == (old(UF_tracing_enabled) || UF_count > 0)
    {
      hide Replay, Counters, Insert;
      if readable {
        ResetUFtoInstrument();
        ghost var start := ops;
        assert start + Adds(addresses[..0]) == start;
        for k := 0 to |addresses|
          invariant Valid() && UF_addresses == old(UF_addresses) && UF_tracing_enabled == old(UF_tracing_enabled)
          invariant ops == start + Adds(addresses[..k])
        {
          var added := AddUFtoInstrument(addresses[k]);
          assert Adds(addresses[..k + 1]) == Adds(addresses[..k]) + [Add(addresses[k])];
        }
        assert addresses[..|addresses|] == addresses;
        FileForgetsThePast(old(ops), addresses);
      }
      if UF_count > 0 {
        UF_tracing_enabled := true;
      }
    }
  }

  function Adds(addresses: seq<nat>): seq<Op> {
    seq(|addresses|, k requires 0 <= k < |addresses| => Add(addresses[k]))
  }

  /** What the table was before a file was read does not matter after it. */
  lemma {:induction false} FileForgetsThePast(past: seq<Op>, addresses: seq<nat>)
    ensures Replay(past + [Reset] + Adds(addresses)) == Replay([Reset] + Adds(addresses))
    ensures Accepted(past + [Reset] + Adds(addresses)) == Accepted([Reset] + Adds(addresses))
    ensures Counters(past + [Reset] + Adds(addresses)) == Counters([Reset] + Adds(addresses))
  {
    hide Insert, Accepts, ProbeEnd, EmptyTable;
    var ops, ops' := past + [Reset] + Adds(addresses), [Reset] + Adds(addresses);
    if addresses == [] {
      assert ops == past + [Reset] && ops' == [Reset];
    } else {
      var front := addresses[..|addresses| - 1];
      FileForgetsThePast(past, front);
      assert ops[..|ops| - 1] == past + [Reset] + Adds(front) && ops'[..|ops'| - 1] == [Reset] + Adds(front);
    }
  }
}
