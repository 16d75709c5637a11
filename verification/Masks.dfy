/** Binary counters: a mask of n bits, lowest bit first, as the number it stands for. */
module Masks {

  function Pow2(n: nat): (p: nat)
    ensures p > 0
  {
    if n == 0 then 1 else 2 * Pow2(n - 1)
  }

  lemma {:induction false} Pow2Monotone(m: nat, n: nat)
    requires m <= n
    ensures Pow2(m) <= Pow2(n)
  {
    if m < n {
      Pow2Monotone(m, n - 1);
    }
  }

  ghost predicate IsMask(s: seq<int>) {
    forall i :: 0 <= i < |s| ==> s[i] == 0 || s[i] == 1
  }

  function Value(s: seq<int>): nat
    requires IsMask(s)
  {
    if s == [] then 0 else s[0] + 2 * Value(s[1..])
  }

  ghost predicate AllOnes(s: seq<int>) {
    forall i :: 0 <= i < |s| ==> s[i] == 1
  }

  /** Masks of n bits have the values below 2^n, all ones the largest. */
  lemma {:induction false} ValueBound(s: seq<int>)
    requires IsMask(s)
    ensures Value(s) < Pow2(|s|)
    ensures AllOnes(s) <==> Value(s) == Pow2(|s|) - 1
  {
    if s != [] {
      ValueBound(s[1..]);
      assert AllOnes(s) <==> s[0] == 1 && AllOnes(s[1..]) by {
        assert forall i :: 1 <= i < |s| ==> s[i] == s[1..][i - 1];
      }
    }
  }

  /** A mask is determined by its value. */
  lemma {:induction false} ValueInjective(s: seq<int>, t: seq<int>)
    requires IsMask(s) && IsMask(t) && |s| == |t| && Value(s) == Value(t)
    ensures s == t
  {
    if s != [] {
      assert s[0] == Value(s) % 2 && t[0] == Value(t) % 2;
      ValueInjective(s[1..], t[1..]);
      assert s == [s[0]] + s[1..] && t == [t[0]] + t[1..];
    }
  }

  function Count(s: seq<int>): nat {
    if s == [] then 0 else (if s[|s| - 1] != 0 then 1 else 0) + Count(s[..|s| - 1])
  }

  /** The number of positions that are set. */
  lemma {:induction false} CountIsPositions(s: seq<int>)
    ensures Count(s) == |set i | 0 <= i < |s| && s[i] != 0|
  {
    var positions := set i | 0 <= i < |s| && s[i] != 0;
    if s != [] {
      var n := |s| - 1;
      CountIsPositions(s[..n]);
      var before := set i | 0 <= i < |s[..n]| && s[..n][i] != 0;
      assert forall i :: 0 <= i < n ==> s[..n][i] == s[i];
      assert positions == if s[n] != 0 then before + {n} else before;
    } else {
      assert positions == {};
    }
  }

  /** In a mask the set positions are those with a 1. */
  lemma CountIsOnes(s: seq<int>)
    requires IsMask(s)
    ensures Count(s) == |set i | 0 <= i < |s| && s[i] == 1|
  {
    CountIsPositions(s);
    assert (set i | 0 <= i < |s| && s[i] != 0) == (set i | 0 <= i < |s| && s[i] == 1);
  }

  /** A mask has value 0 exactly if no position is set. */
  lemma {:induction false} NonZeroIff(s: seq<int>)
    requires IsMask(s)
    ensures Value(s) > 0 <==> exists i :: 0 <= i < |s| && s[i] == 1
  {
    if s != [] {
      NonZeroIff(s[1..]);
      if i :| 0 <= i < |s[1..]| && s[1..][i] == 1 {
        assert s[i + 1] == 1;
      }
      if i :| 0 < i < |s| && s[i] == 1 {
        assert s[1..][i - 1] == 1;
      }
    }
  }
}
