/**
 The exhaustive search for the largest valid counter sets: a binary counter in an array
 runs through all non-empty sets, and the best sets found so far are kept. Whether the
 counters of a mask can be counted together is a fixed oracle.
 */
module ExhaustiveCounters {
  import opened Masks

  /** Adding one: the leading ones become zeros and the first zero a one. */
  ghost function Increment(s: seq<int>): (r: seq<int>)
    requires IsMask(s) && !AllOnes(s)
    ensures |r| == |s| && IsMask(r) && Value(r) == Value(s) + 1
  {
    if s[0] == 0 then
      assert ([1] + s[1..])[1..] == s[1..];
      [1] + s[1..]
    else
      assert !AllOnes(s[1..]) by {
        var i :| 0 <= i < |s| && s[i] != 1;
        assert s[1..][i - 1] != 1;
      }
      assert ([0] + Increment(s[1..]))[1..] == Increment(s[1..]);
      [0] + Increment(s[1..])
  }

  /** What incrementing does to the bits when the first zero is bit i. */
  lemma {:induction false} IncrementBits(s: seq<int>, i: nat)
    requires IsMask(s) && i < |s| && s[i] == 0 && forall k :: 0 <= k < i ==> s[k] == 1
    ensures !AllOnes(s)
    ensures forall k :: 0 <= k < |s| ==> Increment(s)[k] == if k < i then 0 else if k == i then 1 else s[k]
  {
    if i > 0 {
      assert forall k :: 0 <= k < |s| - 1 ==> s[1..][k] == s[k + 1];
      IncrementBits(s[1..], i - 1);
      assert Increment(s) == [0] + Increment(s[1..]);
    }
  }

  /** `Bitmask_NextValue`. The loop reads a bit before it checks the bound, so a zero bit is needed. */
  method NextValue(bitmask: array<int>)
    requires IsMask(bitmask[..]) && !AllOnes(bitmask[..])
    modifies bitmask
    ensures bitmask[..] == Increment(old(bitmask[..]))
  {
    hide Increment;
    ghost var s := bitmask[..];
    ghost var zero :| 0 <= zero < |s| && s[zero] != 1;
    var i := 0;
    while bitmask[i] == 1 && i < bitmask.Length
      invariant i <= zero
      invariant forall k :: 0 <= k < i ==> bitmask[k] == 0 && s[k] == 1
      invariant forall k :: i <= k < |s| ==> bitmask[k] == s[k]
    {
      bitmask[i] := 0;
      i := i + 1;
    }
    IncrementBits(s, i);
    if i < bitmask.Length {
      bitmask[i] := 1;
    }
    assert forall k :: 0 <= k < |s| ==> bitmask[k] == Increment(s)[k];
  }

  /** `Bitmask_CountActiveBits` */
  method CountActiveBits(bitmask: seq<int>) returns (active: nat)
    ensures active == Count(bitmask) == |set i | 0 <= i < |bitmask| && bitmask[i] != 0|
  {
    CountIsPositions(bitmask);
    active := 0;
    for i := 0 to |bitmask|
      invariant active == Count(bitmask[..i])
    {
      assert bitmask[..i + 1][..i] == bitmask[..i];
      if bitmask[i] != 0 {
        active := active + 1;
      }
    }
    assert bitmask[..|bitmask|] == bitmask;
  }

  /** `Bitmask_isLastValue` */
  method IsLastValue(bitmask: seq<int>) returns (isLast: bool)
    requires IsMask(bitmask)
    ensures isLast <==> forall k :: 0 <= k < |bitmask| ==> bitmask[k] == 1
  {
    isLast := true;
    for i := 0 to |bitmask|
      invariant isLast <==> forall k :: 0 <= k < i ==> bitmask[k] == 1
    {
      isLast := isLast && bitmask[i] != 0;
    }
  }

  // ---------------------------------------------------------------- the search

  /** w is one of the sets with value 1..upto, and valid. */
  ghost predicate Candidate(valid: seq<int> -> bool, n: nat, upto: nat, w: seq<int>) {
    IsMask(w) && |w| == n && 1 <= Value(w) <= upto && valid(w)
  }

  ghost predicate Best(valid: seq<int> -> bool, n: nat, upto: nat, w: seq<int>) {
    Candidate(valid, n, upto, w) && forall v :: Candidate(valid, n, upto, v) ==> Count(v) <= Count(w)
  }

  /** The list holds exactly the best sets with value 1..upto, by increasing value, so once each. */
  ghost predicate HoldsBest(valid: seq<int> -> bool, n: nat, upto: nat, maxs: seq<seq<int>>) {
    && (forall i :: 0 <= i < |maxs| ==> Best(valid, n, upto, maxs[i]))
    && (forall w :: Best(valid, n, upto, w) ==> w in maxs)
    && (forall i, j :: 0 <= i < j < |maxs| ==> Value(maxs[i]) < Value(maxs[j]))
  }

  lemma OneMore(valid: seq<int> -> bool, n: nat, w: seq<int>, v: seq<int>)
    requires IsMask(w) && |w| == n && Value(w) > 0
    ensures Candidate(valid, n, Value(w), v) <==> Candidate(valid, n, Value(w) - 1, v) || (v == w && valid(w))
  {
    if Candidate(valid, n, Value(w), v) && Value(v) == Value(w) {
      ValueInjective(v, w);
    }
  }

  ghost function AfterSet(valid: seq<int> -> bool, maxs: seq<seq<int>>, w: seq<int>): seq<seq<int>> {
    if !valid(w) then maxs
    else if maxs == [] || Count(w) > Count(maxs[0]) then [w]
    else if Count(w) == Count(maxs[0]) then maxs + [w]
    else maxs
  }

  lemma SomeBest(valid: seq<int> -> bool, n: nat, upto: nat, maxs: seq<seq<int>>, v: seq<int>)
    requires HoldsBest(valid, n, upto, maxs) && Candidate(valid, n, upto, v)
    ensures maxs != [] && Count(v) <= Count(maxs[0])
  {
    var b := Largest(valid, n, upto, v);
    assert b in maxs;
    assert Best(valid, n, upto, maxs[0]);
  }

  /** Starting from a candidate, some candidate is best. */
  lemma Largest(valid: seq<int> -> bool, n: nat, upto: nat, v: seq<int>) returns (b: seq<int>)
    requires Candidate(valid, n, upto, v)
    ensures Best(valid, n, upto, b)
    decreases n - Count(v)
  {
    CountBound(v);
    if w :| Candidate(valid, n, upto, w) && Count(w) > Count(v) {
      CountBound(w);
      b := Largest(valid, n, upto, w);
    } else {
      b := v;
    }
  }

  lemma {:induction false} CountBound(s: seq<int>)
    ensures Count(s) <= |s|
  {
    if s != [] {
      CountBound(s[..|s| - 1]);
    }
  }

  /** Taking the next set into account keeps the list right. */
  lemma AfterSetHolds(valid: seq<int> -> bool, n: nat, maxs: seq<seq<int>>, w: seq<int>)
    requires IsMask(w) && |w| == n && Value(w) > 0 && HoldsBest(valid, n, Value(w) - 1, maxs)
    ensures HoldsBest(valid, n, Value(w), AfterSet(valid, maxs, w))
  {
    hide Count, IsMask, Candidate, Best, Grows, Topped, AfterSet;
    var u, r := Value(w), AfterSet(valid, maxs, w);
    Growing(valid, n, w);
    Topping(valid, n, u - 1, maxs);
    forall v ensures Best(valid, n, u, v) <==> v in r {
      BestAfter(valid, n, maxs, w, v);
    }
    AfterSetIncreasing(valid, n, maxs, w);
    assert forall i :: 0 <= i < |r| ==> r[i] in r;
  }

  ghost predicate Grows(valid: seq<int> -> bool, n: nat, w: seq<int>)
    requires IsMask(w) && Value(w) > 0
  {
    forall v :: Candidate(valid, n, Value(w), v) <==> Candidate(valid, n, Value(w) - 1, v) || (v == w && valid(w))
  }

  ghost predicate Topped(valid: seq<int> -> bool, n: nat, upto: nat, maxs: seq<seq<int>>) {
    forall v :: Candidate(valid, n, upto, v) ==> maxs != [] && Count(v) <= Count(maxs[0])
  }

  lemma Growing(valid: seq<int> -> bool, n: nat, w: seq<int>)
    requires IsMask(w) && |w| == n && Value(w) > 0
    ensures Grows(valid, n, w)
  {
    forall v
      ensures Candidate(valid, n, Value(w), v) <==> Candidate(valid, n, Value(w) - 1, v) || (v == w && valid(w))
    {
      OneMore(valid, n, w, v);
    }
  }

  lemma Topping(valid: seq<int> -> bool, n: nat, upto: nat, maxs: seq<seq<int>>)
    requires HoldsBest(valid, n, upto, maxs)
    ensures Topped(valid, n, upto, maxs)
  {
    hide HoldsBest, Candidate;
    forall v | Candidate(valid, n, upto, v) ensures maxs != [] && Count(v) <= Count(maxs[0]) {
      SomeBest(valid, n, upto, maxs, v);
    }
  }

  lemma AfterSetIncreasing(valid: seq<int> -> bool, n: nat, maxs: seq<seq<int>>, w: seq<int>)
    requires IsMask(w) && Value(w) > 0 && HoldsBest(valid, n, Value(w) - 1, maxs)
    ensures var r := AfterSet(valid, maxs, w);
            (forall i :: 0 <= i < |r| ==> IsMask(r[i])) && forall i, j :: 0 <= i < j < |r| ==> Value(r[i]) < Value(r[j])
  {
    hide IsMask, Count;
    forall i | 0 <= i < |maxs| ensures IsMask(maxs[i]) && Value(maxs[i]) < Value(w) {
      assert Best(valid, n, Value(w) - 1, maxs[i]);
    }
  }

  lemma BestAfter(valid: seq<int> -> bool, n: nat, maxs: seq<seq<int>>, w: seq<int>, v: seq<int>)
    requires IsMask(w) && Value(w) > 0 && HoldsBest(valid, n, Value(w) - 1, maxs)
    requires Grows(valid, n, w) && Topped(valid, n, Value(w) - 1, maxs)
    ensures Best(valid, n, Value(w), v) <==> v in AfterSet(valid, maxs, w)
  {
    hide Count, IsMask, Candidate;
    if maxs != [] {
      assert Best(valid, n, Value(w) - 1, maxs[0]);
    }
    if v in maxs {
      var i :| 0 <= i < |maxs| && maxs[i] == v;
      assert Best(valid, n, Value(w) - 1, maxs[i]);
    }
  }

  /** The body of the search, for one set. */
  method TakeIntoAccount(valid: seq<int> -> bool, maxs0: seq<seq<int>>, bitmask: seq<int>) returns (maxs: seq<seq<int>>)
    ensures maxs == AfterSet(valid, maxs0, bitmask)
  {
    maxs := maxs0;
    if valid(bitmask) {
      if |maxs| > 0 {
        var count := CountActiveBits(bitmask);
        var best := CountActiveBits(maxs[0]);
        if count > best {
          maxs := [bitmask];
        } else if count == best {
          maxs := maxs + [bitmask];
        }
      } else {
        maxs := [bitmask];
      }
    }
  }

  /** `CheckMaxEventSet`: with at least one counter, every non-empty set is tested once, by increasing value,
      the all-ones mask is never incremented, and the list ends up with exactly the largest valid sets. */
  method CheckMaxEventSet(ncounters: nat, valid: seq<int> -> bool)
    returns (maxs: seq<seq<int>>, ghost visited: seq<nat>)
    requires ncounters >= 1
    ensures HoldsBest(valid, ncounters, Pow2(ncounters) - 1, maxs)
    ensures |visited| == Pow2(ncounters) - 1 && forall k :: 0 <= k < |visited| ==> visited[k] == k + 1
  {
    hide Increment, HoldsBest, AfterSet;
    var bitmask := new int[ncounters](_ => 0);
    ZeroMask(bitmask[..]);
    maxs, visited := [], [];
    NothingBest(valid, ncounters);
    while true
      invariant fresh(bitmask) && IsMask(bitmask[..]) && !AllOnes(bitmask[..])
      invariant HoldsBest(valid, ncounters, Value(bitmask[..]), maxs)
      invariant |visited| == Value(bitmask[..]) && forall k :: 0 <= k < |visited| ==> visited[k] == k + 1
      decreases Pow2(ncounters) - Value(bitmask[..])
    {
      ghost var before := maxs;
      NextValue(bitmask);
      var w := bitmask[..];
      ValueBound(w);
      visited := visited + [Value(w)];
      maxs := TakeIntoAccount(valid, maxs, w);
      AfterSetHolds(valid, ncounters, before, w);
      var last := IsLastValue(w);
      if last { break; }
    }
    ValueBound(bitmask[..]);
  }

  lemma {:induction false} ZeroMask(s: seq<int>)
    requires forall i :: 0 <= i < |s| ==> s[i] == 0
    ensures Value(s) == 0
  {
    if s != [] {
      ZeroMask(s[1..]);
    }
  }

  lemma NothingBest(valid: seq<int> -> bool, n: nat)
    ensures HoldsBest(valid, n, 0, [])
  {
  }

  /** With any valid set at all, the list is not empty and all its sets have one size. */
  lemma BestSetsExist(valid: seq<int> -> bool, n: nat, maxs: seq<seq<int>>, v: seq<int>)
    requires HoldsBest(valid, n, Pow2(n) - 1, maxs)
    requires IsMask(v) && |v| == n && !(forall i :: 0 <= i < n ==> v[i] == 0) && valid(v)
    ensures maxs != [] && forall i :: 0 <= i < |maxs| ==> Count(v) <= Count(maxs[i]) == Count(maxs[0])
  {
    ValueBound(v);
    NonZeroIff(v);
    SomeBest(valid, n, Pow2(n) - 1, maxs, v);
    forall i | 0 <= i < |maxs| ensures Count(v) <= Count(maxs[i]) == Count(maxs[0]) {
      assert Best(valid, n, Pow2(n) - 1, maxs[i]) && Best(valid, n, Pow2(n) - 1, maxs[0]);
    }
  }

  /** What is listed: valid sets, not empty, that no valid set exceeds in size, and all of that size. */
  lemma ListedIsLargest(valid: seq<int> -> bool, n: nat, maxs: seq<seq<int>>, i: nat, w: seq<int>)
    requires HoldsBest(valid, n, Pow2(n) - 1, maxs) && i < |maxs|
    requires |w| == n && (forall p :: 0 <= p < n ==> w[p] == 0 || w[p] == 1) && (exists p :: 0 <= p < n && w[p] == 1)
    requires valid(w)
    ensures |maxs[i]| == n && (forall p :: 0 <= p < n ==> maxs[i][p] == 0 || maxs[i][p] == 1)
    ensures valid(maxs[i]) && exists p :: 0 <= p < n && maxs[i][p] == 1
    ensures |set p | 0 <= p < n && w[p] == 1| <= |set p | 0 <= p < n && maxs[i][p] == 1|
    ensures |set p | 0 <= p < n && w[p] == 1| == |set p | 0 <= p < n && maxs[i][p] == 1| ==> w in maxs
  {
    hide Count, Value;
    assert Best(valid, n, Pow2(n) - 1, maxs[i]);
    ValueBound(w);
    NonZeroIff(w);
    NonZeroIff(maxs[i]);
    CountIsOnes(w);
    CountIsOnes(maxs[i]);
    assert Candidate(valid, n, Pow2(n) - 1, w);
    if Count(w) == Count(maxs[i]) {
      assert Best(valid, n, Pow2(n) - 1, w);
    }
  }

  /** Something is listed as soon as there is a valid set. */
  lemma SomethingIsListed(valid: seq<int> -> bool, n: nat, maxs: seq<seq<int>>, w: seq<int>)
    requires HoldsBest(valid, n, Pow2(n) - 1, maxs)
    requires |w| == n && (forall p :: 0 <= p < n ==> w[p] == 0 || w[p] == 1) && (exists p :: 0 <= p < n && w[p] == 1)
    requires valid(w)
    ensures maxs != []
  {
    NonZeroIff(w);
    ValueBound(w);
    SomeBest(valid, n, Pow2(n) - 1, maxs, w);
  }
}
