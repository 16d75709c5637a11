/**
 Bringing the clocks of all tasks of a trace together: each task gets a latency that is added
 to its times, so that synchronisation points coincide and the earliest task starts at 0.
 */
module TimeSync {

  datatype Strategy = TS_NODE | TS_TASK | TS_DEFAULT | TS_NOSYNC

  /** What is known about one task; times are unsigned 64-bit. */
  datatype SyncInfo = SyncInfo(init: bool, initTime: nat, syncTime: nat, nodeId: nat)

  /** One row an application, one entry a task. */
  type Table<T> = seq<seq<T>>

  ghost predicate At<T>(t: Table<T>, i: nat, j: nat) {
    i < |t| && j < |t[i]|
  }

  ghost predicate SameShape<S, T>(s: Table<S>, t: Table<T>) {
    |s| == |t| && forall i :: 0 <= i < |s| ==> |s[i]| == |t[i]|
  }

  // ---------------------------------------------------------------- 64-bit arithmetic

  const TWO64: nat := 0x1_0000_0000_0000_0000
  const TWO62: nat := 0x4000_0000_0000_0000

  function Unsigned(x: int): nat {
    x % TWO64
  }

  function Signed(x: int): int {
    if x % TWO64 < TWO64 / 2 then x % TWO64 else x % TWO64 - TWO64
  }

  function Max(a: nat, b: nat): nat { if a > b then a else b }
  function Min(a: nat, b: nat): nat { if a < b then a else b }

  /** `TimeSync` and `TimeDesync` of a task with the given latency. */
  function Sync(latency: int, time: nat): nat { Unsigned(Signed(time) + latency) }
  function Desync(latency: int, time: nat): nat { Unsigned(Signed(time) - latency) }

  /** Desynchronising undoes synchronising and the other way round, whatever wraps. */
  lemma DesyncUndoesSync(latency: int, time: nat)
    requires time < 0x1_0000_0000_0000_0000
    ensures Desync(latency, Sync(latency, time)) == time
    ensures Sync(latency, Desync(latency, time)) == time
  {
    hide Unsigned, Signed;
    Wraps(time, 0);
    Wraps(Sync(latency, time), -latency);
    Wraps(Signed(time) + latency, -latency);
    Wraps(Desync(latency, time), latency);
    Wraps(Signed(time) - latency, latency);
  }

  /** A synchronised time is the sum, modulo 2^64. */
  lemma SyncIsSum(latency: int, time: nat)
    ensures Sync(latency, time) == (time + latency) % 0x1_0000_0000_0000_0000
    ensures Desync(latency, time) == (time - latency) % 0x1_0000_0000_0000_0000
  {
    hide Unsigned, Signed;
    Wraps(time, latency);
    Wraps(time, -latency);
    UnsignedIs(time + latency);
    UnsignedIs(time - latency);
  }

  lemma UnsignedIs(x: int)
    ensures Unsigned(x) == x % 0x1_0000_0000_0000_0000
  {
  }

  /** Wrapping before an addition that wraps makes no difference. */
  lemma Wraps(x: int, y: int)
    ensures Unsigned(Signed(x) + y) == Unsigned(Unsigned(x) + y) == Unsigned(x + y)
    ensures Unsigned(Signed(y) + Signed(x)) == Unsigned(y + x)
    ensures 0 <= x < TWO64 ==> Unsigned(x) == x
  {
    hide Unsigned, Signed;
    UnsignedAdds(x, y);
    UnsignedAdds(Signed(x), y);
    UnsignedAdds(Signed(y), Signed(x));
    UnsignedAdds(y, Signed(x));
    SignedIsCongruent(x);
    SignedIsCongruent(y);
  }

  lemma UnsignedAdds(x: int, y: int)
    ensures Unsigned(Unsigned(x) + y) == Unsigned(x + y)
  {
  }

  lemma SignedIsCongruent(x: int)
    ensures Unsigned(Signed(x)) == Unsigned(x)
    ensures 0 <= x < TWO64 ==> Unsigned(x) == x
  {
  }

  // ---------------------------------------------------------------- what the latencies are to be

  datatype Scope = Everyone | OnNode(id: nat)

  predicate Within(s: SyncInfo, scope: Scope) {
    scope == Everyone || s.nodeId == scope.id
  }

  ghost predicate Before(a: nat, b: nat, i: nat, j: nat) {
    a < i || (a == i && b < j)
  }

  /** m is the latest synchronisation time in the scope among the tasks before (i, j), or 0 if there is none. */
  ghost predicate IsLatestBefore(info: Table<SyncInfo>, scope: Scope, i: nat, j: nat, m: nat) {
    && (forall a: nat, b: nat :: At(info, a, b) && Before(a, b, i, j) && Within(info[a][b], scope) ==>
       info[a][b].syncTime <= m)
    && (m != 0 ==> exists a: nat, b: nat ::
         At(info, a, b) && Before(a, b, i, j) && Within(info[a][b], scope) && info[a][b].syncTime == m)
  }

  ghost predicate IsLatest(info: Table<SyncInfo>, scope: Scope, m: nat) {
    IsLatestBefore(info, scope, |info|, 0, m)
  }

  function Start(info: Table<SyncInfo>, latency: Table<int>, i: nat, j: nat): nat
    requires i < |info| && j < |info[i]| && SameShape(info, latency)
  {
    Unsigned(info[i][j].initTime + latency[i][j])
  }

  /** m is the earliest start among task (0, 0) and the tasks before (i, j). */
  ghost predicate IsEarliestBefore(info: Table<SyncInfo>, latency: Table<int>, i: nat, j: nat, m: nat)
    requires SameShape(info, latency)
  {
    && (forall a: nat, b: nat :: At(info, a, b) && Before(a, b, i, j) ==> m <= Start(info, latency, a, b))
    && (exists a: nat, b: nat :: At(info, a, b) && Start(info, latency, a, b) == m)
  }

  ghost predicate IsEarliest(info: Table<SyncInfo>, latency: Table<int>, m: nat)
    requires SameShape(info, latency)
  {
    IsEarliestBefore(info, latency, |info|, 0, m)
  }

  /** All tasks before (i, j) moved right so that their own synchronisation points meet at `latest`. */
  ghost predicate TasksMoved(info: Table<SyncInfo>, latest: nat, moved: Table<int>, i: nat, j: nat)
    requires SameShape(info, moved)
  {
    forall a: nat, b: nat :: At(info, a, b) && Before(a, b, i, j) ==>
      moved[a][b] == Signed(latest - info[a][b].syncTime)
  }

  /** All tasks before (i, j) moved right with their nodes, so that the latest synchronisation points of the nodes
      meet. */
  ghost predicate NodesMoved(info: Table<SyncInfo>, latest: nat, perNode: seq<nat>, moved: Table<int>, i: nat, j: nat)
    requires SameShape(info, moved)
  {
    forall a: nat, b: nat :: At(info, a, b) && Before(a, b, i, j) ==>
      info[a][b].nodeId < |perNode| && moved[a][b] == Signed(latest - perNode[info[a][b].nodeId])
  }

  ghost predicate LatestPerNode(info: Table<SyncInfo>, perNode: seq<nat>, i: nat, j: nat) {
    forall n :: 0 <= n < |perNode| ==> IsLatestBefore(info, OnNode(n), i, j, perNode[n])
  }

  ghost predicate Moved(strategy: Strategy, info: Table<SyncInfo>, before: Table<int>, moved: Table<int>)
    requires SameShape(info, before) && SameShape(info, moved)
  {
    match strategy
    case TS_TASK => exists latest: nat :: IsLatest(info, Everyone, latest) && TasksMoved(info, latest, moved, |info|, 0)
    case TS_NOSYNC => moved == before
    case _ => exists latest: nat, perNode ::
      IsLatest(info, Everyone, latest) && LatestPerNode(info, perNode, |info|, 0)
        && NodesMoved(info, latest, perNode, moved, |info|, 0)
  }

  /** `after` is `moved` shifted left as a whole. */
  ghost predicate ShiftedBefore(moved: Table<int>, earliest: nat, after: Table<int>, i: nat, j: nat)
    requires SameShape(moved, after)
  {
    forall a: nat, b: nat :: At(moved, a, b) && Before(a, b, i, j) ==> after[a][b] == Signed(moved[a][b] - earliest)
  }

  /** What `TimeSync_CalculateLatencies` makes of the latencies `before`. */
  ghost predicate Synchronised(strategy: Strategy, info: Table<SyncInfo>, before: Table<int>, after: Table<int>) {
    && SameShape(info, before) && SameShape(info, after)
    && exists moved, earliest: nat :: SameShape(info, moved) && Moved(strategy, info, before, moved)
         && IsEarliest(info, moved, earliest) && ShiftedBefore(moved, earliest, after, |moved|, 0)
  }

  ghost predicate AllSet(info: Table<SyncInfo>) {
    forall i: nat, j: nat :: At(info, i, j) ==> info[i][j].init
  }

  ghost predicate NodesKnown(info: Table<SyncInfo>, nodes: nat) {
    forall i: nat, j: nat :: At(info, i, j) && info[i][j].init ==> info[i][j].nodeId < nodes
  }

  // ---------------------------------------------------------------- the module's state

  class Clocks {
    var latencyTable: Table<int>
    var syncInfo: Table<SyncInfo>
    var nodeList: seq<string>

    ghost predicate Valid()
      reads this
    {
      && SameShape(syncInfo, latencyTable)
      && NodesKnown(syncInfo, |nodeList|)
      && forall i, j :: 0 <= i < j < |nodeList| ==> nodeList[i] != nodeList[j]
    }

    /** Known names keep their number, and a new name gets the next one. */
    method GetNodeId(node: string) returns (id: nat)
      requires Valid()
      modifies this`nodeList
      ensures Valid() && id < |nodeList| && nodeList[id] == node
      ensures nodeList == if node in old(nodeList) then old(nodeList) else old(nodeList) + [node]
    {
      var i := 0;
      while i < |nodeList|
        invariant i <= |nodeList| && node !in nodeList[..i]
      {
        if node == nodeList[i] {
          return i;
        }
        i := i + 1;
      }
      nodeList := nodeList + [node];
      return |nodeList| - 1;
    }

    method Initialize(numTasks: seq<nat>)
      requires |numTasks| > 0
      requires forall i, j :: 0 <= i < j < |nodeList| ==> nodeList[i] != nodeList[j]
      modifies this
      ensures Valid() && nodeList == old(nodeList)
      ensures |syncInfo| == |numTasks| && forall i :: 0 <= i < |numTasks| ==> |syncInfo[i]| == numTasks[i]
      ensures forall i: nat, j: nat :: At(syncInfo, i, j) ==> !syncInfo[i][j].init && latencyTable[i][j] == 0
    {
      latencyTable := seq(|numTasks|, i requires 0 <= i < |numTasks| => seq(numTasks[i], _ => 0));
      syncInfo := seq(|numTasks|, i requires 0 <= i < |numTasks| => seq(numTasks[i], _ => SyncInfo(false, 0, 0, 0)));
    }

    method SetInitialTime(app: nat, task: nat, initTime: nat, syncTime: nat, node: string)
      requires Valid() && At(syncInfo, app, task)
      modifies this`syncInfo, this`nodeList
      ensures Valid() && SameShape(syncInfo, old(syncInfo))
      ensures nodeList == if node in old(nodeList) then old(nodeList) else old(nodeList) + [node]
      ensures forall i: nat, j: nat :: At(syncInfo, i, j) ==>
        if i == app && j == task
        then syncInfo[i][j].init && syncInfo[i][j].initTime == initTime && syncInfo[i][j].syncTime == syncTime
          && syncInfo[i][j].nodeId < |nodeList| && nodeList[syncInfo[i][j].nodeId] == node
        else syncInfo[i][j] == old(syncInfo)[i][j]
    {
      var id := GetNodeId(node);
      syncInfo := syncInfo[app := syncInfo[app][task := SyncInfo(true, initTime, syncTime, id)]];
    }

    method CalculateLatencies(strategy: Strategy) returns (ok: bool)
      requires Valid() && At(syncInfo, 0, 0)
      modifies this`latencyTable
      ensures Valid() && ok == AllSet(syncInfo)
      ensures ok ==> Synchronised(strategy, syncInfo, old(latencyTable), latencyTable)
      ensures !ok ==> latencyTable == old(latencyTable)
    {
      hide IsLatestBefore, IsEarliestBefore, TasksMoved, NodesMoved, LatestPerNode, ShiftedBefore;
      ok := CheckSet();
      if !ok { return; }
      if strategy == TS_TASK {
        var latest := LatestSync();
        MoveTasks(latest);
      } else if strategy == TS_NODE || strategy == TS_DEFAULT {
        var perNode := LatestSyncPerNode();
        var latest := LatestOfNodes(perNode);
        MoveNodes(latest, perNode);
      }
      ghost var moved := latencyTable;
      assert Moved(strategy, syncInfo, old(latencyTable), moved);
      var earliest := EarliestStart();
      MoveLeft(earliest);
    }

    method CheckSet() returns (ok: bool)
      ensures ok == AllSet(syncInfo)
    {
      var i := 0;
      while i < |syncInfo|
        invariant i <= |syncInfo|
        invariant forall a: nat, b: nat :: At(syncInfo, a, b) && Before(a, b, i, 0) ==> syncInfo[a][b].init
      {
        var j := 0;
        while j < |syncInfo[i]|
          invariant j <= |syncInfo[i]|
          invariant forall a: nat, b: nat :: At(syncInfo, a, b) && Before(a, b, i, j) ==> syncInfo[a][b].init
        {
          if !syncInfo[i][j].init {
            assert At(syncInfo, i, j);
            return false;
          }
          j := j + 1;
        }
        i := i + 1;
      }
      return true;
    }

    method LatestSync() returns (latest: nat)
      ensures IsLatest(syncInfo, Everyone, latest)
    {
      latest := 0;
      var i := 0;
      while i < |syncInfo|
        invariant i <= |syncInfo| && IsLatestBefore(syncInfo, Everyone, i, 0, latest)
      {
        var j := 0;
        while j < |syncInfo[i]|
          invariant j <= |syncInfo[i]| && IsLatestBefore(syncInfo, Everyone, i, j, latest)
        {
          LatestStep(syncInfo, Everyone, i, j, latest);
          latest := Max(latest, syncInfo[i][j].syncTime);
          j := j + 1;
        }
        LatestRow(syncInfo, Everyone, i, latest);
        i := i + 1;
      }
    }

    method LatestSyncPerNode() returns (perNode: seq<nat>)
      requires Valid() && AllSet(syncInfo)
      ensures |perNode| == |nodeList| && LatestPerNode(syncInfo, perNode, |syncInfo|, 0)
    {
      hide IsLatestBefore;
      perNode := seq(|nodeList|, _ => 0);
      forall n | 0 <= n < |perNode| ensures IsLatestBefore(syncInfo, OnNode(n), 0, 0, 0) {
        LatestOfNone(syncInfo, OnNode(n));
      }
      var i := 0;
      while i < |syncInfo|
        invariant i <= |syncInfo| && |perNode| == |nodeList| && LatestPerNode(syncInfo, perNode, i, 0)
      {
        var j := 0;
        while j < |syncInfo[i]|
          invariant j <= |syncInfo[i]| && |perNode| == |nodeList| && LatestPerNode(syncInfo, perNode, i, j)
        {
          assert At(syncInfo, i, j);
          var id := syncInfo[i][j].nodeId;
          forall n | 0 <= n < |perNode|
            ensures IsLatestBefore(syncInfo, OnNode(n), i, j + 1,
                      if n == id then Max(perNode[n], syncInfo[i][j].syncTime) else perNode[n])
          {
            LatestStep(syncInfo, OnNode(n), i, j, perNode[n]);
          }
          perNode := perNode[id := Max(perNode[id], syncInfo[i][j].syncTime)];
          j := j + 1;
        }
        forall n | 0 <= n < |perNode| ensures IsLatestBefore(syncInfo, OnNode(n), i + 1, 0, perNode[n]) {
          LatestRow(syncInfo, OnNode(n), i, perNode[n]);
        }
        i := i + 1;
      }
    }

    method LatestOfNodes(perNode: seq<nat>) returns (latest: nat)
      requires Valid() && AllSet(syncInfo) && |perNode| == |nodeList| && LatestPerNode(syncInfo, perNode, |syncInfo|, 0)
      ensures IsLatest(syncInfo, Everyone, latest)
    {
      latest := 0;
      var i := 0;
      while i < |perNode|
        invariant i <= |perNode|
        invariant forall n :: 0 <= n < i ==> perNode[n] <= latest
        invariant latest != 0 ==> exists n :: 0 <= n < i && perNode[n] == latest
      {
        latest := Max(latest, perNode[i]);
        i := i + 1;
      }
      LatestNodeIsLatest(syncInfo, perNode, latest);
    }

    method MoveTasks(latest: nat)
      requires SameShape(syncInfo, latencyTable)
      modifies this`latencyTable
      ensures SameShape(syncInfo, latencyTable) && TasksMoved(syncInfo, latest, latencyTable, |syncInfo|, 0)
    {
      var i := 0;
      while i < |syncInfo|
        invariant i <= |syncInfo| && SameShape(syncInfo, latencyTable)
          && TasksMoved(syncInfo, latest, latencyTable, i, 0)
      {
        var j := 0;
        while j < |syncInfo[i]|
          invariant j <= |syncInfo[i]| && SameShape(syncInfo, latencyTable)
            && TasksMoved(syncInfo, latest, latencyTable, i, j)
        {
          latencyTable := latencyTable[i := latencyTable[i][j := Signed(latest - syncInfo[i][j].syncTime)]];
          j := j + 1;
        }
        i := i + 1;
      }
    }

    method MoveNodes(latest: nat, perNode: seq<nat>)
      requires Valid() && AllSet(syncInfo) && |perNode| == |nodeList|
      modifies this`latencyTable
      ensures SameShape(syncInfo, latencyTable) && NodesMoved(syncInfo, latest, perNode, latencyTable, |syncInfo|, 0)
    {
      var i := 0;
      while i < |syncInfo|
        invariant i <= |syncInfo| && SameShape(syncInfo, latencyTable)
          && NodesMoved(syncInfo, latest, perNode, latencyTable, i, 0)
      {
        var j := 0;
        while j < |syncInfo[i]|
          invariant j <= |syncInfo[i]| && SameShape(syncInfo, latencyTable)
            && NodesMoved(syncInfo, latest, perNode, latencyTable, i, j)
        {
          assert At(syncInfo, i, j);
          latencyTable := latencyTable[i := latencyTable[i][j := Signed(latest - perNode[syncInfo[i][j].nodeId])]];
          j := j + 1;
        }
        i := i + 1;
      }
    }

    method EarliestStart() returns (earliest: nat)
      requires SameShape(syncInfo, latencyTable) && At(syncInfo, 0, 0)
      ensures IsEarliest(syncInfo, latencyTable, earliest)
    {
      earliest := Start(syncInfo, latencyTable, 0, 0);
      var i := 0;
      while i < |syncInfo|
        invariant i <= |syncInfo| && IsEarliestBefore(syncInfo, latencyTable, i, 0, earliest)
      {
        var j := 0;
        while j < |syncInfo[i]|
          invariant j <= |syncInfo[i]| && IsEarliestBefore(syncInfo, latencyTable, i, j, earliest)
        {
          EarliestStep(syncInfo, latencyTable, i, j, earliest);
          earliest := Min(earliest, Start(syncInfo, latencyTable, i, j));
          j := j + 1;
        }
        EarliestRow(syncInfo, latencyTable, i, earliest);
        i := i + 1;
      }
    }

    method MoveLeft(earliest: nat)
      requires SameShape(syncInfo, latencyTable)
      modifies this`latencyTable
      ensures SameShape(syncInfo, latencyTable) && SameShape(old(latencyTable), latencyTable)
      ensures ShiftedBefore(old(latencyTable), earliest, latencyTable, |old(latencyTable)|, 0)
    {
      ghost var moved := latencyTable;
      var i := 0;
      while i < |syncInfo|
        invariant i <= |syncInfo| && SameShape(moved, latencyTable)
          && ShiftedBefore(moved, earliest, latencyTable, i, 0)
        invariant latencyTable[i..] == moved[i..]
      {
        var j := 0;
        while j < |syncInfo[i]|
          invariant j <= |syncInfo[i]| && SameShape(moved, latencyTable)
            && ShiftedBefore(moved, earliest, latencyTable, i, j)
          invariant latencyTable[i][j..] == moved[i][j..] && latencyTable[i + 1..] == moved[i + 1..]
        {
          assert latencyTable[i][j] == latencyTable[i][j..][0] == moved[i][j];
          latencyTable := latencyTable[i := latencyTable[i][j := Signed(latencyTable[i][j] - earliest)]];
          j := j + 1;
        }
        i := i + 1;
      }
    }
  }

  // ---------------------------------------------------------------- the loops

  lemma LatestOfNone(info: Table<SyncInfo>, scope: Scope)
    ensures IsLatestBefore(info, scope, 0, 0, 0)
  {
  }

  lemma LatestStep(info: Table<SyncInfo>, scope: Scope, i: nat, j: nat, m: nat)
    requires At(info, i, j) && IsLatestBefore(info, scope, i, j, m)
    ensures IsLatestBefore(info, scope, i, j + 1, if Within(info[i][j], scope) then Max(m, info[i][j].syncTime) else m)
  {
  }

  lemma LatestRow(info: Table<SyncInfo>, scope: Scope, i: nat, m: nat)
    requires i < |info| && IsLatestBefore(info, scope, i, |info[i]|, m)
    ensures IsLatestBefore(info, scope, i + 1, 0, m)
  {
  }

  lemma EarliestStep(info: Table<SyncInfo>, latency: Table<int>, i: nat, j: nat, m: nat)
    requires SameShape(info, latency) && At(info, i, j) && IsEarliestBefore(info, latency, i, j, m)
    ensures IsEarliestBefore(info, latency, i, j + 1, Min(m, Start(info, latency, i, j)))
  {
  }

  lemma EarliestRow(info: Table<SyncInfo>, latency: Table<int>, i: nat, m: nat)
    requires SameShape(info, latency) && i < |info| && IsEarliestBefore(info, latency, i, |info[i]|, m)
    ensures IsEarliestBefore(info, latency, i + 1, 0, m)
  {
  }

  /** The latest of the nodes' latest points is the latest point of all tasks. */
  lemma LatestNodeIsLatest(info: Table<SyncInfo>, perNode: seq<nat>, latest: nat)
    requires AllSet(info) && NodesKnown(info, |perNode|) && LatestPerNode(info, perNode, |info|, 0)
    requires forall n :: 0 <= n < |perNode| ==> perNode[n] <= latest
    requires latest != 0 ==> exists n :: 0 <= n < |perNode| && perNode[n] == latest
    ensures IsLatest(info, Everyone, latest)
  {
    forall a: nat, b: nat | At(info, a, b) ensures info[a][b].syncTime <= latest {
      LatestHolds(info, OnNode(info[a][b].nodeId), perNode[info[a][b].nodeId], a, b);
    }
  }

  lemma LatestHolds(info: Table<SyncInfo>, scope: Scope, m: nat, i: nat, j: nat)
    requires IsLatest(info, scope, m) && At(info, i, j) && Within(info[i][j], scope)
    ensures info[i][j].syncTime <= m
  {
  }

  // ---------------------------------------------------------------- what the latencies achieve

  lemma LatestIsUnique(info: Table<SyncInfo>, scope: Scope, m: nat, n: nat)
    requires IsLatest(info, scope, m) && IsLatest(info, scope, n)
    ensures m == n
  {
  }

  lemma EarliestIsUnique(info: Table<SyncInfo>, latency: Table<int>, m: nat, n: nat)
    requires SameShape(info, latency) && IsEarliest(info, latency, m) && IsEarliest(info, latency, n)
    ensures m == n
  {
    hide Start;
  }

  /** What all tasks have in common: where they meet, and how far left the trace is moved. */
  datatype Meeting = Meeting(latest: nat, perNode: seq<nat>, earliest: nat, moved: Table<int>)

  ghost predicate Meets(strategy: Strategy, info: Table<SyncInfo>, after: Table<int>, m: Meeting) {
    && SameShape(info, after) && SameShape(info, m.moved)
    && IsLatest(info, Everyone, m.latest) && IsEarliest(info, m.moved, m.earliest)
    && (forall i: nat, j: nat :: At(info, i, j) ==> after[i][j] == Signed(m.moved[i][j] - m.earliest))
    && (forall i: nat, j: nat :: At(info, i, j) ==>
       m.moved[i][j] == Signed(m.latest - MeetingPoint(strategy, info, m, i, j)))
    && (strategy != TS_TASK ==> forall i: nat, j: nat :: At(info, i, j) ==>
          info[i][j].nodeId < |m.perNode| && IsLatest(info, OnNode(info[i][j].nodeId), m.perNode[info[i][j].nodeId]))
  }

  /** The point of the task (i, j) that is moved to the meeting point. */
  function MeetingPoint(strategy: Strategy, info: Table<SyncInfo>, m: Meeting, i: nat, j: nat): nat
    requires i < |info| && j < |info[i]|
  {
    if strategy == TS_TASK then info[i][j].syncTime
    else if info[i][j].nodeId < |m.perNode| then m.perNode[info[i][j].nodeId]
    else 0
  }

  lemma TheMeeting(strategy: Strategy, info: Table<SyncInfo>, before: Table<int>, after: Table<int>)
    returns (m: Meeting)
    requires Synchronised(strategy, info, before, after) && strategy != TS_NOSYNC
    ensures Meets(strategy, info, after, m)
  {
    hide Signed, Unsigned, IsLatestBefore, IsEarliestBefore;
    var moved, earliest: nat :| SameShape(info, moved) && Moved(strategy, info, before, moved)
         && IsEarliest(info, moved, earliest) && ShiftedBefore(moved, earliest, after, |moved|, 0);
    if strategy == TS_TASK {
      var latest: nat :| IsLatest(info, Everyone, latest) && TasksMoved(info, latest, moved, |info|, 0);
      m := Meeting(latest, [], earliest, moved);
    } else {
      var latest: nat, perNode :|
        IsLatest(info, Everyone, latest) && LatestPerNode(info, perNode, |info|, 0)
          && NodesMoved(info, latest, perNode, moved, |info|, 0);
      m := Meeting(latest, perNode, earliest, moved);
    }
  }

  /** Under TS_TASK all synchronisation points become one time. */
  lemma TaskPointsMeet(info: Table<SyncInfo>, before: Table<int>, after: Table<int>, i: nat, j: nat, k: nat, l: nat)
    requires Synchronised(TS_TASK, info, before, after) && At(info, i, j) && At(info, k, l)
    ensures Sync(after[i][j], info[i][j].syncTime) == Sync(after[k][l], info[k][l].syncTime)
  {
    hide Synchronised, IsEarliestBefore, IsLatestBefore, Unsigned, Signed, Sync;
    var m := TheMeeting(TS_TASK, info, before, after);
    SyncMeets(m.latest, info[i][j].syncTime, m.earliest);
    SyncMeets(m.latest, info[k][l].syncTime, m.earliest);
  }

  /** A task moved by a meeting takes its meeting point to the common one. */
  lemma SyncMeets(latest: nat, point: nat, earliest: nat)
    ensures Sync(Signed(Signed(latest - point) - earliest), point) == Unsigned(latest - earliest)
  {
    hide Unsigned, Signed;
    Wraps(Signed(latest - point) - earliest, point);
    Wraps(point, Signed(Signed(latest - point) - earliest));
    Wraps(latest - point, point - earliest);
  }

  lemma LatestOnNode(info: Table<SyncInfo>, i: nat, j: nat)
    requires At(info, i, j)
    requires forall a: nat, b: nat :: At(info, a, b) && info[a][b].nodeId == info[i][j].nodeId ==>
      info[a][b].syncTime <= info[i][j].syncTime
    ensures IsLatest(info, OnNode(info[i][j].nodeId), info[i][j].syncTime)
  {
  }

  /** Under TS_NODE and TS_DEFAULT the latest synchronisation points of the nodes become one time. */
  lemma NodePointsMeet(strategy: Strategy, info: Table<SyncInfo>, before: Table<int>, after: Table<int>, i: nat,
                       j: nat, k: nat, l: nat)
    requires strategy == TS_NODE || strategy == TS_DEFAULT
    requires Synchronised(strategy, info, before, after) && At(info, i, j) && At(info, k, l)
    requires forall a: nat, b: nat :: At(info, a, b) ==>
      && (info[a][b].nodeId == info[i][j].nodeId ==> info[a][b].syncTime <= info[i][j].syncTime)
      && (info[a][b].nodeId == info[k][l].nodeId ==> info[a][b].syncTime <= info[k][l].syncTime)
    ensures Sync(after[i][j], info[i][j].syncTime) == Sync(after[k][l], info[k][l].syncTime)
  {
    hide Synchronised, IsEarliestBefore, IsLatestBefore, Unsigned, Signed, Sync;
    var m := TheMeeting(strategy, info, before, after);
    LatestOnNode(info, i, j);
    LatestOnNode(info, k, l);
    LatestIsUnique(info, OnNode(info[i][j].nodeId), info[i][j].syncTime, m.perNode[info[i][j].nodeId]);
    LatestIsUnique(info, OnNode(info[k][l].nodeId), info[k][l].syncTime, m.perNode[info[k][l].nodeId]);
    SyncMeets(m.latest, info[i][j].syncTime, m.earliest);
    SyncMeets(m.latest, info[k][l].syncTime, m.earliest);
  }

  /** Under TS_NODE and TS_DEFAULT the tasks of a node keep their distances. */
  lemma SameNodeSameShift(strategy: Strategy, info: Table<SyncInfo>, before: Table<int>, after: Table<int>, i: nat,
                          j: nat, k: nat, l: nat)
    requires strategy == TS_NODE || strategy == TS_DEFAULT
    requires Synchronised(strategy, info, before, after) && At(info, i, j) && At(info, k, l)
    requires info[i][j].nodeId == info[k][l].nodeId
    ensures after[i][j] == after[k][l]
  {
    hide Synchronised, IsEarliestBefore, IsLatestBefore, Unsigned, Signed;
    var m := TheMeeting(strategy, info, before, after);
  }

  /** Under every strategy some task starts at 0. */
  lemma EarliestStartsAtZero(strategy: Strategy, info: Table<SyncInfo>, before: Table<int>, after: Table<int>)
    returns (i: nat, j: nat)
    requires Synchronised(strategy, info, before, after)
    ensures At(info, i, j) && Sync(after[i][j], info[i][j].initTime) == 0
  {
    hide Unsigned, Signed, Moved, Sync;
    var moved, earliest: nat :| SameShape(info, moved) && Moved(strategy, info, before, moved)
         && IsEarliest(info, moved, earliest) && ShiftedBefore(moved, earliest, after, |moved|, 0);
    i, j :| At(info, i, j) && Start(info, moved, i, j) == earliest;
    assert At(moved, i, j);
    SyncOfStart(info[i][j].initTime, moved[i][j], earliest);
  }

  lemma SyncOfStart(init: nat, moved: int, earliest: nat)
    requires earliest <= Unsigned(init + moved)
    ensures Sync(Signed(moved - earliest), init) == Unsigned(init + moved) - earliest
  {
    hide Unsigned, Signed;
    UnsignedPair(init, moved, earliest);
    WithinWord(init + moved, earliest);
    Wraps(init, Signed(moved - earliest));
    Wraps(moved - earliest, init);
  }

  lemma UnsignedPair(init: nat, moved: int, earliest: nat)
    ensures Unsigned(init + (moved - earliest)) == Unsigned(Unsigned(init + moved) - earliest)
  {
  }

  lemma WithinWord(x: int, earliest: nat)
    requires earliest <= Unsigned(x)
    ensures Unsigned(Unsigned(x) - earliest) == Unsigned(x) - earliest
  {
  }

  ghost predicate Bounded(info: Table<SyncInfo>) {
    forall i: nat, j: nat :: At(info, i, j) ==>
      info[i][j].initTime < 0x4000_0000_0000_0000 && info[i][j].syncTime < 0x4000_0000_0000_0000
  }

  /** With times below 2^62 nothing wraps: from its start on, a task's times are all moved by the same amount, and
      none before 0. For TS_NOSYNC this is about the first calculation, on latencies that are all 0. */
  lemma TimesMoveExactly(strategy: Strategy, info: Table<SyncInfo>, before: Table<int>, after: Table<int>, i: nat,
                         j: nat, time: nat)
    requires Synchronised(strategy, info, before, after) && Bounded(info)
    requires strategy == TS_NOSYNC ==> AllZero(before)
    requires At(info, i, j) && info[i][j].initTime <= time < 0x4000_0000_0000_0000
    ensures 0 <= time + after[i][j] == Sync(after[i][j], time) < 0x8000_0000_0000_0000
  {
    hide Synchronised, IsLatestBefore, Unsigned, Signed, Sync, Start, MeetingPoint;
    if strategy == TS_NOSYNC {
      var earliest := NoSyncShiftsTogether(info, before, after);
      assert info[i][j].initTime >= earliest;
      MoveIsExact(0, 0, info[i][j].initTime, earliest, time);
      NegativeFits(earliest);
      return;
    }
    var m := TheMeeting(strategy, info, before, after);
    PointInBounds(strategy, info, after, m, i, j);
    var k: nat, l: nat :| At(info, k, l) && Start(info, m.moved, k, l) == m.earliest;
    PointInBounds(strategy, info, after, m, k, l);
    assert m.earliest <= Start(info, m.moved, i, j);
    MoveIsExact(m.latest, MeetingPoint(strategy, info, m, i, j), info[i][j].initTime, m.earliest, time);
    MoveIsExact(m.latest, MeetingPoint(strategy, info, m, k, l), info[k][l].initTime, m.earliest, info[k][l].initTime);
    StartIs(info, m.moved, i, j);
    StartIs(info, m.moved, k, l);
  }

  ghost predicate AllZero(t: Table<int>) {
    forall i: nat, j: nat :: At(t, i, j) ==> t[i][j] == 0
  }

  /** TS_NOSYNC on fresh latencies moves all tasks left by the earliest start, and does nothing else. */
  lemma NoSyncShiftsTogether(info: Table<SyncInfo>, before: Table<int>, after: Table<int>) returns (earliest: nat)
    requires Synchronised(TS_NOSYNC, info, before, after) && AllZero(before) && Bounded(info)
    ensures forall i: nat, j: nat :: At(info, i, j) ==> after[i][j] == 0 - earliest && earliest <= info[i][j].initTime
    ensures exists i: nat, j: nat :: At(info, i, j) && info[i][j].initTime == earliest
  {
    hide Unsigned, Signed, Sync;
    var moved, first: nat :| SameShape(info, moved) && Moved(TS_NOSYNC, info, before, moved)
         && IsEarliest(info, moved, first) && ShiftedBefore(moved, first, after, |moved|, 0);
    earliest := first;
    forall i: nat, j: nat | At(info, i, j) ensures Start(info, moved, i, j) == info[i][j].initTime {
      assert At(before, i, j);
      MoveIsExact(0, 0, info[i][j].initTime, 0, info[i][j].initTime);
    }
    var k: nat, l: nat :| At(info, k, l) && Start(info, moved, k, l) == first;
    MoveIsExact(0, 0, info[k][l].initTime, first, info[k][l].initTime);
    forall i: nat, j: nat | At(info, i, j) ensures after[i][j] == 0 - earliest && earliest <= info[i][j].initTime {
      assert At(moved, i, j) && At(before, i, j) && Start(info, moved, i, j) == info[i][j].initTime;
      NegativeFits(earliest);
    }
  }

  lemma NegativeFits(x: nat)
    requires x < TWO62
    ensures Signed(0 - x) == 0 - x
  {
  }

  lemma StartIs(info: Table<SyncInfo>, latency: Table<int>, i: nat, j: nat)
    requires i < |info| && j < |info[i]| && SameShape(info, latency)
    ensures Start(info, latency, i, j) == Unsigned(info[i][j].initTime + latency[i][j])
  {
  }

  lemma PointInBounds(strategy: Strategy, info: Table<SyncInfo>, after: Table<int>, m: Meeting, i: nat, j: nat)
    requires Meets(strategy, info, after, m) && Bounded(info) && At(info, i, j)
    ensures MeetingPoint(strategy, info, m, i, j) <= m.latest < TWO62
  {
    hide Signed, Unsigned, IsEarliestBefore;
  }

  lemma MoveIsExact(latest: nat, point: nat, init: nat, earliest: nat, time: nat)
    requires point <= latest < TWO62 && init <= time < TWO62
    ensures Signed(latest - point) == latest - point
    ensures Unsigned(init + Signed(latest - point)) == init + latest - point
    ensures earliest <= init + latest - point ==>
      var l := Signed(Signed(latest - point) - earliest); 0 <= time + l == Sync(l, time) < TWO64 / 2
  {
    hide Unsigned, Signed, Sync;
    SmallSigned(latest - point);
    SmallUnsigned(init + latest - point);
    if earliest <= init + latest - point {
      SmallSigned(latest - point - earliest);
      SmallSync(latest - point - earliest, time);
    }
  }

  lemma SmallSigned(x: int)
    requires -(TWO64 / 2) <= x < TWO64 / 2
    ensures Signed(x) == x
  {
  }

  lemma SmallUnsigned(x: nat)
    requires x < TWO64
    ensures Unsigned(x) == x
  {
  }

  lemma SmallSync(latency: int, time: nat)
    requires time < TWO62 && 0 <= time + latency < TWO64 / 2
    ensures Sync(latency, time) == time + latency
  {
    hide Unsigned, Signed;
    SmallSigned(time);
    SmallUnsigned(time + latency);
  }

  /** Apart from TS_NOSYNC the latencies do not depend on the ones before. */
  lemma LatenciesForgetThePast(strategy: Strategy, info: Table<SyncInfo>, before: Table<int>, after: Table<int>,
                               before': Table<int>, after': Table<int>)
    requires strategy != TS_NOSYNC
    requires Synchronised(strategy, info, before, after) && Synchronised(strategy, info, before', after')
    ensures after == after'
  {
    hide Synchronised, IsEarliestBefore, IsLatestBefore, Unsigned, Signed, Bounded;
    var m := TheMeeting(strategy, info, before, after);
    var m' := TheMeeting(strategy, info, before', after');
    SameMoves(strategy, info, after, m, after', m');
    EarliestIsUnique(info, m.moved, m.earliest, m'.earliest);
    SameTables(after, after');
  }

  lemma SameMoves(strategy: Strategy, info: Table<SyncInfo>, after: Table<int>, m: Meeting, after': Table<int>,
                  m': Meeting)
    requires Meets(strategy, info, after, m) && Meets(strategy, info, after', m')
    ensures m.moved == m'.moved
  {
    hide IsEarliestBefore, IsLatestBefore, Unsigned, Signed;
    LatestIsUnique(info, Everyone, m.latest, m'.latest);
    forall i: nat, j: nat | At(m.moved, i, j) ensures m.moved[i][j] == m'.moved[i][j] {
      assert At(info, i, j);
      if strategy != TS_TASK {
        var id := info[i][j].nodeId;
        LatestIsUnique(info, OnNode(id), m.perNode[id], m'.perNode[id]);
      }
    }
    SameTables(m.moved, m'.moved);
  }

  lemma SameTables(s: Table<int>, t: Table<int>)
    requires SameShape(s, t)
    requires forall i: nat, j: nat :: At(s, i, j) ==> s[i][j] == t[i][j]
    ensures s == t
  {
    forall i | 0 <= i < |s| ensures s[i] == t[i] {
      assert forall j: nat :: j < |s[i]| ==> At(s, i, j);
    }
  }

  /** TS_NOSYNC after any strategy leaves the latencies as they are: it does not undo a synchronisation. */
  lemma NoSyncKeepsLatencies(strategy: Strategy, info: Table<SyncInfo>, before: Table<int>, after: Table<int>,
                             again: Table<int>)
    requires Synchronised(strategy, info, before, after) && Synchronised(TS_NOSYNC, info, after, again)
    ensures again == after
  {
    hide Unsigned, Signed, Sync, Start, Synchronised;
    var i, j := EarliestStartsAtZero(strategy, info, before, after);
    var earliest := NoSyncMoves(info, after, again);
    StartIsSync(info, after, i, j);
    assert earliest <= Start(info, after, i, j) == 0;
    forall k: nat, l: nat | At(after, k, l) ensures after[k][l] == again[k][l] {
      LatencyIsSigned(strategy, info, before, after, k, l);
    }
    SameTables(after, again);
  }

  /** TS_NOSYNC only moves all tasks left together. */
  lemma NoSyncMoves(info: Table<SyncInfo>, before: Table<int>, after: Table<int>) returns (earliest: nat)
    requires Synchronised(TS_NOSYNC, info, before, after)
    ensures SameShape(info, before) && SameShape(before, after)
    ensures IsEarliest(info, before, earliest) && ShiftedBefore(before, earliest, after, |before|, 0)
  {
    hide Signed, IsEarliestBefore;
    var moved, first: nat :| SameShape(info, moved) && Moved(TS_NOSYNC, info, before, moved)
         && IsEarliest(info, moved, first) && ShiftedBefore(moved, first, after, |moved|, 0);
    earliest := first;
  }

  /** All tasks have one latency. */
  ghost predicate Uniform(t: Table<int>) {
    forall i: nat, j: nat, k: nat, l: nat :: At(t, i, j) && At(t, k, l) ==> t[i][j] == t[k][l]
  }

  ghost predicate UniformWrapped(t: Table<int>) {
    forall i: nat, j: nat, k: nat, l: nat :: At(t, i, j) && At(t, k, l) ==> Unsigned(t[i][j]) == Unsigned(t[k][l])
  }

  /** TS_NOSYNC leaves the tasks unsynchronised, with one common latency, exactly if they had one before,
      modulo 2^64. */
  lemma NoSyncUniformIff(info: Table<SyncInfo>, before: Table<int>, after: Table<int>)
    requires Synchronised(TS_NOSYNC, info, before, after)
    ensures Uniform(after) <==> UniformWrapped(before)
  {
    hide Unsigned, Signed, IsEarliestBefore;
    var moved, earliest: nat :| SameShape(info, moved) && Moved(TS_NOSYNC, info, before, moved)
         && IsEarliest(info, moved, earliest) && ShiftedBefore(moved, earliest, after, |moved|, 0);
    forall i: nat, j: nat, k: nat, l: nat | At(before, i, j) && At(before, k, l)
      ensures At(after, i, j) && At(after, k, l)
      ensures after[i][j] == after[k][l] <==> Unsigned(before[i][j]) == Unsigned(before[k][l])
    {
      assert At(moved, i, j) && At(moved, k, l);
      SameShift(before[i][j], before[k][l], earliest);
    }
    assert forall i: nat, j: nat :: At(after, i, j) ==> At(before, i, j);
  }

  lemma SameShift(x: int, y: int, earliest: nat)
    ensures Signed(x - earliest) == Signed(y - earliest) <==> Unsigned(x) == Unsigned(y)
  {
  }

  /** Two tasks on two nodes, the second of which passes its synchronisation point 10 later. */
  function TwoNodes(): Table<SyncInfo> { [[SyncInfo(true, 0, 0, 0), SyncInfo(true, 0, 10, 1)]] }

  /** A second calculation with TS_NOSYNC, after one with TS_NODE, leaves the tasks moved against each other; alone it
      would not move them at all. */
  lemma NoSyncDoesNotUndo()
    ensures Synchronised(TS_NODE, TwoNodes(), [[0, 0]], [[10, 0]])
    ensures Synchronised(TS_NOSYNC, TwoNodes(), [[10, 0]], [[10, 0]]) && !Uniform([[10, 0]])
    ensures Synchronised(TS_NOSYNC, TwoNodes(), [[0, 0]], [[0, 0]]) && Uniform([[0, 0]])
  {
    hide Synchronised, TwoNodes, Uniform;
    TwoNodesMeet();
    TwoNodesStay(10);
    TwoNodesStay(0);
    TwoLatencies(10);
    TwoLatencies(0);
  }

  lemma TwoLatencies(x: int)
    ensures Uniform([[x, 0]]) <==> x == 0
  {
    var t := [[x, 0]];
    assert At(t, 0, 0) && At(t, 0, 1) && t[0][0] == x && t[0][1] == 0;
  }

  lemma TwoNodesMeet()
    ensures Synchronised(TS_NODE, TwoNodes(), [[0, 0]], [[10, 0]])
  {
    hide IsEarliestBefore, Signed, Unsigned;
    var info, before, moved, perNode := TwoNodes(), [[0, 0]], [[10, 0]], [0, 10];
    TwoNodesEarliest(10);
    TwoNodesLatest();
    TwoNodesMoved();
    assert Moved(TS_NODE, info, before, moved) by {
      assert LatestPerNode(info, perNode, |info|, 0);
    }
  }

  lemma TwoNodesLatest()
    ensures IsLatest(TwoNodes(), Everyone, 10)
    ensures LatestPerNode(TwoNodes(), [0, 10], |TwoNodes()|, 0)
  {
    var info: Table<SyncInfo> := TwoNodes();
    assert At(info, 0, 0) && At(info, 0, 1) && info[0][1].syncTime == 10;
  }

  lemma TwoNodesMoved()
    ensures NodesMoved(TwoNodes(), 10, [0, 10], [[10, 0]], |TwoNodes()|, 0)
  {
    hide IsLatestBefore;
  }

  lemma TwoNodesStay(x: nat)
    requires x < TWO62
    ensures Synchronised(TS_NOSYNC, TwoNodes(), [[x, 0]], [[x, 0]])
  {
    TwoNodesEarliest(x);
    assert Moved(TS_NOSYNC, TwoNodes(), [[x, 0]], [[x, 0]]);
  }

  lemma TwoNodesEarliest(x: nat)
    requires x < TWO62
    ensures IsEarliest(TwoNodes(), [[x, 0]], 0) && ShiftedBefore([[x, 0]], 0, [[x, 0]], 1, 0)
  {
    var info, moved := TwoNodes(), [[x, 0]];
    assert At(info, 0, 1) && Start(info, moved, 0, 1) == 0;
  }

  lemma StartIsSync(info: Table<SyncInfo>, latency: Table<int>, i: nat, j: nat)
    requires SameShape(info, latency) && At(info, i, j)
    ensures Start(info, latency, i, j) == Sync(latency[i][j], info[i][j].initTime)
  {
    hide Unsigned, Signed;
    Wraps(info[i][j].initTime, latency[i][j]);
  }

  /** Latencies are signed 64-bit. */
  lemma LatencyIsSigned(strategy: Strategy, info: Table<SyncInfo>, before: Table<int>, after: Table<int>, i: nat,
                        j: nat)
    requires Synchronised(strategy, info, before, after) && At(after, i, j)
    ensures Signed(after[i][j]) == after[i][j]
    ensures -0x8000_0000_0000_0000 <= after[i][j] < 0x8000_0000_0000_0000
  {
    hide Unsigned, Moved, Signed, IsEarliestBefore;
    var moved, earliest: nat :| SameShape(info, moved) && Moved(strategy, info, before, moved)
         && IsEarliest(info, moved, earliest) && ShiftedBefore(moved, earliest, after, |moved|, 0);
    assert At(moved, i, j);
    SignedTwice(moved[i][j] - earliest);
  }

  lemma SignedTwice(x: int)
    ensures Signed(Signed(x)) == Signed(x) && -0x8000_0000_0000_0000 <= Signed(x) < 0x8000_0000_0000_0000
  {
  }

  /** Repeating a strategy changes nothing. */
  lemma RepeatingChangesNothing(strategy: Strategy, info: Table<SyncInfo>, before: Table<int>, after: Table<int>,
                                again: Table<int>)
    requires Synchronised(strategy, info, before, after) && Synchronised(strategy, info, after, again)
    ensures again == after
  {
    hide *;
    if strategy == TS_NOSYNC {
      NoSyncKeepsLatencies(strategy, info, before, after, again);
    } else {
      LatenciesForgetThePast(strategy, info, before, after, after, again);
    }
  }

  /** When no two tasks share a node, synchronising by node is synchronising by task. */
  lemma OneTaskPerNode(info: Table<SyncInfo>, before: Table<int>, byNode: Table<int>, byTask: Table<int>)
    requires Synchronised(TS_NODE, info, before, byNode) && Synchronised(TS_TASK, info, before, byTask)
    requires forall i: nat, j: nat, k: nat, l: nat ::
      At(info, i, j) && At(info, k, l) && info[i][j].nodeId == info[k][l].nodeId ==> i == k && j == l
    ensures byNode == byTask
  {
    hide Synchronised, IsEarliestBefore, IsLatestBefore, Unsigned, Signed;
    var m := TheMeeting(TS_NODE, info, before, byNode);
    var m' := TheMeeting(TS_TASK, info, before, byTask);
    forall i: nat, j: nat | At(info, i, j)
      ensures MeetingPoint(TS_NODE, info, m, i, j) == MeetingPoint(TS_TASK, info, m', i, j)
    {
      AloneIsLatest(info, i, j);
      LatestIsUnique(info, OnNode(info[i][j].nodeId), m.perNode[info[i][j].nodeId], info[i][j].syncTime);
    }
    LatestIsUnique(info, Everyone, m.latest, m'.latest);
    assert forall i: nat, j: nat :: At(m.moved, i, j) ==> At(info, i, j);
    SameTables(m.moved, m'.moved);
    EarliestIsUnique(info, m.moved, m.earliest, m'.earliest);
    assert forall i: nat, j: nat :: At(byNode, i, j) ==> At(info, i, j);
    SameTables(byNode, byTask);
  }

  lemma AloneIsLatest(info: Table<SyncInfo>, i: nat, j: nat)
    requires At(info, i, j)
    requires forall k: nat, l: nat :: At(info, k, l) && info[i][j].nodeId == info[k][l].nodeId ==> i == k && j == l
    ensures IsLatest(info, OnNode(info[i][j].nodeId), info[i][j].syncTime)
  {
  }
}
