/**
 The greedy grouping of counters: pick a largest valid set among the counters left,
 remove it, and go on until none is left or no set can be formed. A set is a bit mask over
 the list of counters; whether a list of counters, the omnipresent ones first, can be
 counted together is a fixed oracle.
 */
module GreedyCounters {
  import opened Masks

  type Counter = string

  const EXTRAE_LIMIT: nat := 8

  /** Counters a group may have beside the omnipresent ones, in unsigned 64-bit arithmetic. */
  function Limit(omni: seq<Counter>): nat {
    if |omni| <= EXTRAE_LIMIT then EXTRAE_LIMIT - |omni|
    else 0x1_0000_0000_0000_0000 + EXTRAE_LIMIT - |omni| % 0x1_0000_0000_0000_0000
  }

  // ---------------------------------------------------------------- masks over the counters

  /** The counters whose bit is set, in order. */
  function Selected(cs: seq<Counter>, v: nat): seq<Counter> {
    if cs == [] then [] else (if v % 2 == 1 then [cs[0]] else []) + Selected(cs[1..], v / 2)
  }

  /** The counters whose bit is not set, in order. */
  function Rest(cs: seq<Counter>, v: nat): seq<Counter> {
    if cs == [] then [] else (if v % 2 == 1 then [] else [cs[0]]) + Rest(cs[1..], v / 2)
  }

  predicate Bit(v: nat, i: nat) {
    if i == 0 then v % 2 == 1 else Bit(v / 2, i - 1)
  }

  lemma {:induction false} SplitCounters(cs: seq<Counter>, v: nat)
    ensures multiset(Selected(cs, v)) + multiset(Rest(cs, v)) == multiset(cs)
    ensures |Selected(cs, v)| + |Rest(cs, v)| == |cs|
  {
    if cs != [] {
      SplitCounters(cs[1..], v / 2);
      assert cs == [cs[0]] + cs[1..];
    }
  }

  lemma {:induction false} NoBitsSelectNothing(cs: seq<Counter>)
    ensures Selected(cs, 0) == [] && Rest(cs, 0) == cs
  {
    if cs != [] {
      NoBitsSelectNothing(cs[1..]);
    }
  }

  /** Bits past the end of the list are not set in a mask below 2^n. */
  lemma {:induction false} HighBitsClear(v: nat, n: nat, i: nat)
    requires v < Pow2(n) && n <= i
    ensures !Bit(v, i)
  {
    if i > 0 {
      if n > 0 {
        HighBitsClear(v / 2, n - 1, i - 1);
      } else {
        HighBitsClear(v / 2, 0, i - 1);
      }
    }
  }

  /** Removing the counters of the set bits from index i on, the others stay. */
  function RestFrom(cs: seq<Counter>, v: nat, i: nat): seq<Counter>
    requires i <= |cs|
    decreases i
  {
    if i == 0 then Rest(cs, v) else [cs[0]] + RestFrom(cs[1..], v / 2, i - 1)
  }

  lemma {:induction false} RestFromEnd(cs: seq<Counter>, v: nat)
    ensures RestFrom(cs, v, |cs|) == cs
  {
    if cs != [] {
      RestFromEnd(cs[1..], v / 2);
    }
  }

  /** One `erase` of the removal loop. */
  lemma {:induction false} RestFromStep(cs: seq<Counter>, v: nat, i: nat)
    requires i < |cs|
    ensures i < |RestFrom(cs, v, i + 1)|
    ensures var r := RestFrom(cs, v, i + 1); RestFrom(cs, v, i) == if Bit(v, i) then r[..i] + r[i + 1..] else r
  {
    if i > 0 {
      RestFromStep(cs[1..], v / 2, i - 1);
    } else {
      assert RestFrom(cs, v, 1) == [cs[0]] + Rest(cs[1..], v / 2);
    }
  }

  // ---------------------------------------------------------------- one group

  /** Mask v is within the limit and its counters can be counted together with the omnipresent ones. */
  predicate Fits(valid: seq<Counter> -> bool, omni: seq<Counter>, cs: seq<Counter>, v: nat) {
    |Selected(cs, v)| <= Limit(omni) && valid(omni + Selected(cs, v))
  }

  /** No fitting mask below `upto` selects more than b does, and b fits or selects nothing. */
  ghost predicate BestBelow(valid: seq<Counter> -> bool, omni: seq<Counter>, cs: seq<Counter>, upto: nat, b: nat) {
    && b < Pow2(|cs|) && (Selected(cs, b) == [] ==> b == 0)
    && (b != 0 ==> Fits(valid, omni, cs, b))
    && forall v: nat :: v < upto && Fits(valid, omni, cs, v) ==> |Selected(cs, v)| <= |Selected(cs, b)|
  }

  /** The first of the best fitting masks below `upto`, 0 if there is none. */
  function BestOf(valid: seq<Counter> -> bool, omni: seq<Counter>, cs: seq<Counter>, upto: nat): nat {
    if upto == 0 then 0 else
      var best, mask := BestOf(valid, omni, cs, upto - 1), upto - 1;
      if Fits(valid, omni, cs, mask) && |Selected(cs, mask)| > |Selected(cs, best)| then mask else best
  }

  /** Once the limit is reached, no later mask is better. */
  lemma {:induction false} LimitReached(valid: seq<Counter> -> bool, omni: seq<Counter>, cs: seq<Counter>, k: nat,
                                        upto: nat)
    requires k <= upto && |Selected(cs, BestOf(valid, omni, cs, k))| == Limit(omni)
    ensures BestOf(valid, omni, cs, upto) == BestOf(valid, omni, cs, k)
    decreases upto
  {
    if k < upto {
      LimitReached(valid, omni, cs, k, upto - 1);
    }
  }

  /** The mask the search returns. */
  function Largest(valid: seq<Counter> -> bool, omni: seq<Counter>, cs: seq<Counter>): nat {
    BestOf(valid, omni, cs, Pow2(|cs|))
  }

  lemma {:induction false} BestOfHolds(valid: seq<Counter> -> bool, omni: seq<Counter>, cs: seq<Counter>, upto: nat)
    requires upto <= Pow2(|cs|)
    ensures BestBelow(valid, omni, cs, upto, BestOf(valid, omni, cs, upto))
  {
    hide Selected;
    NoBitsSelectNothing(cs);
    if upto > 0 {
      BestOfHolds(valid, omni, cs, upto - 1);
    }
  }

  const WORD: nat := 0x1_0000_0000

  /** Some mask the 32-bit copy can hold already selects as many counters as the limit allows. */
  ghost predicate LimitWithinWord(valid: seq<Counter> -> bool, omni: seq<Counter>, cs: seq<Counter>) {
    Limit(omni) == 0 || exists v: nat :: v < WORD && Fits(valid, omni, cs, v) && |Selected(cs, v)| == Limit(omni)
  }

  /** The search of `CheckMaxEventSet`, with its 32-bit copy of the mask. */
  method FindLargest(valid: seq<Counter> -> bool, omni: seq<Counter>, cs: seq<Counter>) returns (max_combination: nat)
    requires |cs| < 32 || LimitWithinWord(valid, omni, cs)
    ensures BestBelow(valid, omni, cs, Pow2(|cs|), max_combination)
    ensures max_combination == Largest(valid, omni, cs)
  {
    hide Selected, BestBelow, BestOf, Pow2, LimitWithinWord;
    WordPower(|cs|);
    BestOfStep(valid, omni, cs, 0);
    var bitmask, max_value := 0, Pow2(|cs|);
    max_combination := 0;
    while bitmask != max_value
      invariant bitmask <= max_value && bitmask < WORD
      invariant max_combination == BestOf(valid, omni, cs, bitmask)
      decreases max_value - bitmask
    {
      var bitvalue := bitmask % WORD;
      BestOfStep(valid, omni, cs, bitmask);
      if |Selected(cs, bitmask)| <= Limit(omni) {
        if valid(omni + Selected(cs, bitmask)) {
          if |Selected(cs, bitmask)| > |Selected(cs, max_combination)| {
            max_combination := bitmask;
          }
        }
      }
      if |Selected(cs, max_combination)| == Limit(omni) {
        LimitReached(valid, omni, cs, bitmask + 1, max_value);
        break;
      }
      StaysInWord(valid, omni, cs, bitmask);
      bitmask := (bitvalue + 1) % WORD;
    }
    BestOfHolds(valid, omni, cs, max_value);
  }

  lemma BestOfStep(valid: seq<Counter> -> bool, omni: seq<Counter>, cs: seq<Counter>, k: nat)
    ensures BestOf(valid, omni, cs, 0) == 0
    ensures var best := BestOf(valid, omni, cs, k);
      BestOf(valid, omni, cs, k + 1)
        == if Fits(valid, omni, cs, k) && |Selected(cs, k)| > |Selected(cs, best)| then k else best
  {
  }

  /** If the limit can be reached within a word, the search does not leave it before reaching the limit. */
  lemma StaysInWord(valid: seq<Counter> -> bool, omni: seq<Counter>, cs: seq<Counter>, k: nat)
    requires |cs| < 32 || LimitWithinWord(valid, omni, cs)
    requires k < WORD && k < Pow2(|cs|) && |Selected(cs, BestOf(valid, omni, cs, k + 1))| != Limit(omni)
    ensures k + 1 < WORD
  {
    hide Selected, BestOf, Pow2, Limit;
    WordPower(|cs|);
    BestOfHolds(valid, omni, cs, k + 1);
    NoBitsSelectNothing(cs);
  }

  lemma {:induction false} WordPower(n: nat)
    ensures n < 32 ==> Pow2(n) < WORD
    ensures n >= 32 ==> Pow2(n) >= WORD
  {
    assert Pow2(31) == 0x8000_0000 && Pow2(32) == WORD by {
      assert Pow2(8) == 256;
      assert Pow2(16) == 65536;
      assert Pow2(24) == 0x100_0000;
    }
    hide Pow2;
    if n < 32 {
      Pow2Monotone(n, 31);
    } else {
      Pow2Monotone(32, n);
    }
  }

  /** The loop's mask after k turns, none of which left it early. */
  function MaskAfter(k: nat): nat {
    if k == 0 then 0 else (MaskAfter(k - 1) % WORD + 1) % WORD
  }

  /** The best mask after k turns. */
  function BestAfter(valid: seq<Counter> -> bool, omni: seq<Counter>, cs: seq<Counter>, k: nat): nat {
    if k == 0 then 0 else
      var best, mask := BestAfter(valid, omni, cs, k - 1), MaskAfter(k - 1);
      if Fits(valid, omni, cs, mask) && |Selected(cs, mask)| > |Selected(cs, best)| then mask else best
  }

  /** After k turns the loop is left, by its guard or by the test of the limit. */
  ghost predicate LeavesAfter(valid: seq<Counter> -> bool, omni: seq<Counter>, cs: seq<Counter>, k: nat) {
    MaskAfter(k) == Pow2(|cs|) || (k > 0 && |Selected(cs, BestAfter(valid, omni, cs, k))| == Limit(omni))
  }

  ghost predicate SearchEnds(valid: seq<Counter> -> bool, omni: seq<Counter>, cs: seq<Counter>) {
    exists k: nat :: LeavesAfter(valid, omni, cs, k)
  }

  lemma {:induction false} MaskCounts(k: nat)
    ensures MaskAfter(k) < WORD
    ensures k < WORD ==> MaskAfter(k) == k
  {
    if k > 0 {
      MaskCounts(k - 1);
    }
  }

  /** The best mask selects no more than the limit, and no less than any fitting mask seen. */
  lemma {:induction false} BestSoFar(valid: seq<Counter> -> bool, omni: seq<Counter>, cs: seq<Counter>, k: nat, v: nat)
    ensures var best := BestAfter(valid, omni, cs, k);
      && best < WORD
      && (Selected(cs, best) == [] || Fits(valid, omni, cs, best))
      && (v < k <= WORD && Fits(valid, omni, cs, v) ==> |Selected(cs, v)| <= |Selected(cs, best)|)
  {
    if k > 0 {
      MaskCounts(k - 1);
      BestSoFar(valid, omni, cs, k - 1, v);
    } else {
      NoBitsSelectNothing(cs);
    }
  }

  /** The search ends exactly for fewer than 32 counters, or when the limit is reached within 32 bits. */
  lemma SearchEndsIff(valid: seq<Counter> -> bool, omni: seq<Counter>, cs: seq<Counter>)
    ensures SearchEnds(valid, omni, cs) <==> |cs| < 32 || LimitWithinWord(valid, omni, cs)
  {
    hide Selected, MaskAfter, BestAfter, Pow2, Fits;
    WordPower(|cs|);
    if |cs| < 32 {
      MaskCounts(Pow2(|cs|));
      assert LeavesAfter(valid, omni, cs, Pow2(|cs|));
    } else if Limit(omni) == 0 {
      BestSoFar(valid, omni, cs, 1, 0);
      FitsFact(valid, omni, cs, BestAfter(valid, omni, cs, 1));
      assert LeavesAfter(valid, omni, cs, 1);
    } else if LimitWithinWord(valid, omni, cs) {
      var v: nat :| v < WORD && Fits(valid, omni, cs, v) && |Selected(cs, v)| == Limit(omni);
      BestSoFar(valid, omni, cs, WORD, v);
      FitsFact(valid, omni, cs, BestAfter(valid, omni, cs, WORD));
      assert LeavesAfter(valid, omni, cs, WORD);
    } else {
      forall k: nat ensures !LeavesAfter(valid, omni, cs, k) {
        MaskCounts(k);
        BestSoFar(valid, omni, cs, k, 0);
      }
    }
  }

  lemma FitsFact(valid: seq<Counter> -> bool, omni: seq<Counter>, cs: seq<Counter>, v: nat)
    ensures Fits(valid, omni, cs, v) ==> |Selected(cs, v)| <= Limit(omni)
  {
  }

  /** The removal loop: from the highest bit down, so that earlier indices stay right. */
  method EraseSelected(cs: seq<Counter>, max: nat) returns (counters: seq<Counter>)
    requires max < Pow2(|cs|) && |cs| < 128
    ensures counters == Rest(cs, max)
  {
    counters := cs;
    RestFromEnd(cs, max);
    var i := 127;
    while true
      invariant 0 <= i <= 127
      invariant counters == if i + 1 <= |cs| then RestFrom(cs, max, i + 1) else cs
      decreases i
    {
      if i < |cs| {
        RestFromStep(cs, max, i);
      } else {
        HighBitsClear(max, |cs|, i);
      }
      if Bit(max, i) {
        counters := counters[..i] + counters[i + 1..];
      }
      if i > 0 {
        i := i - 1;
      } else {
        break;
      }
    }
  }

  // ---------------------------------------------------------------- all groups

  /** `group` is a largest fitting set of the counters cs, and `left` are the others. */
  ghost predicate Group(valid: seq<Counter> -> bool, omni: seq<Counter>, cs: seq<Counter>, group: seq<Counter>,
                        left: seq<Counter>) {
    exists b: nat :: BestBelow(valid, omni, cs, Pow2(|cs|), b) && b != 0 && group == Selected(cs, b)
      && left == Rest(cs, b)
  }

  /** No non-empty set of the counters fits. */
  ghost predicate NothingFits(valid: seq<Counter> -> bool, omni: seq<Counter>, cs: seq<Counter>) {
    forall v: nat :: v < Pow2(|cs|) && Selected(cs, v) != [] ==> !Fits(valid, omni, cs, v)
  }

  function Front(sets: seq<seq<Counter>>): seq<seq<Counter>>
    requires sets != []
  {
    sets[..|sets| - 1]
  }

  function Last(sets: seq<seq<Counter>>): seq<Counter>
    requires sets != []
  {
    sets[|sets| - 1]
  }

  /** The groups, each taken from the counters the ones before left over. */
  ghost predicate Groups(valid: seq<Counter> -> bool, omni: seq<Counter>, cs: seq<Counter>, sets: seq<seq<Counter>>,
                         left: seq<Counter>)
    decreases |sets|
  {
    if sets == [] then left == cs else
      exists before :: Groups(valid, omni, cs, Front(sets), before) && Group(valid, omni, before, Last(sets), left)
  }

  /** `CheckMaxEventSet` and the loop of `main` around it. */
  method GroupCounters(valid: seq<Counter> -> bool, omni: seq<Counter>, cs: seq<Counter>)
    returns (sets: seq<seq<Counter>>, counters: seq<Counter>)
    requires |cs| < 63 && SearchesEnd(valid, omni, cs)
    ensures Groups(valid, omni, cs, sets, counters)
    ensures counters == [] || NothingFits(valid, omni, counters)
    ensures |omni| <= 8 ==> forall i :: 0 <= i < |sets| ==> |omni| + |sets[i]| <= 8
  {
    hide Selected, Rest, BestBelow, Groups, Largest, Left, SearchEnds;
    counters, sets := cs, [];
    NoGroups(valid, omni, cs);
    LeftAtFirst(valid, omni, cs);
    ghost var turn: nat := 0;
    var prevncounters := |counters|;
    while true
      invariant |counters| < 63 && prevncounters == |counters| && Groups(valid, omni, cs, sets, counters)
      invariant counters == Left(valid, omni, cs, turn)
      decreases |counters|
    {
      ghost var before := counters;
      SearchEndsIff(valid, omni, counters);
      var max := FindLargest(valid, omni, counters);
      BestFacts(valid, omni, counters, max);
      SplitCounters(counters, max);
      LeftStep(valid, omni, cs, turn);
      turn := turn + 1;
      if |Selected(counters, max)| > 0 {
        sets := sets + [Selected(counters, max)];
        counters := EraseSelected(counters, max);
        assert Group(valid, omni, before, Last(sets), counters);
        OneMoreGroup(valid, omni, cs, sets, before, counters);
      }
      if prevncounters == |counters| && prevncounters > 0 {
        break;
      } else {
        prevncounters := |counters|;
      }
      if |counters| == 0 { break; }
    }
    if |omni| <= 8 {
      forall i | 0 <= i < |sets| ensures |omni| + |sets[i]| <= 8 {
        GroupsOfEight(valid, omni, cs, sets, counters, i, []);
      }
    }
  }

  /** The counters left after n turns; after the last turn they stay the same. */
  function Left(valid: seq<Counter> -> bool, omni: seq<Counter>, cs: seq<Counter>, n: nat): seq<Counter> {
    if n == 0 then cs else
      var before := Left(valid, omni, cs, n - 1);
      Rest(before, Largest(valid, omni, before))
  }

  /** The search of every turn ends. */
  ghost predicate SearchesEnd(valid: seq<Counter> -> bool, omni: seq<Counter>, cs: seq<Counter>) {
    forall n: nat :: SearchEnds(valid, omni, Left(valid, omni, cs, n))
  }

  lemma LeftAtFirst(valid: seq<Counter> -> bool, omni: seq<Counter>, cs: seq<Counter>)
    ensures Left(valid, omni, cs, 0) == cs
  {
  }

  lemma LeftStep(valid: seq<Counter> -> bool, omni: seq<Counter>, cs: seq<Counter>, n: nat)
    ensures var before := Left(valid, omni, cs, n);
      Left(valid, omni, cs, n + 1) == Rest(before, Largest(valid, omni, before))
      && (Selected(before, Largest(valid, omni, before)) == [] ==> Left(valid, omni, cs, n + 1) == before)
  {
    hide Largest, Pow2;
    var before := Left(valid, omni, cs, n);
    LargestFacts(valid, omni, before);
    NoBitsSelectNothing(before);
  }

  lemma LargestFacts(valid: seq<Counter> -> bool, omni: seq<Counter>, cs: seq<Counter>)
    ensures var b := Largest(valid, omni, cs);
      && (b == 0 <==> Selected(cs, b) == []) && |Selected(cs, b)| <= Limit(omni)
      && |Selected(cs, b)| + |Rest(cs, b)| == |cs|
      && (|cs| >= 32 && LimitWithinWord(valid, omni, cs) ==> |Selected(cs, b)| == Limit(omni))
  {
    hide Selected, Rest, BestOf, Pow2;
    var b := Largest(valid, omni, cs);
    BestOfHolds(valid, omni, cs, Pow2(|cs|));
    NoBitsSelectNothing(cs);
    SplitCounters(cs, b);
    WordPower(|cs|);
  }

  /** A turn takes as many counters as the limit allows, as long as the limit is within 32 bits. */
  lemma {:induction false} LeftLength(valid: seq<Counter> -> bool, omni: seq<Counter>, cs: seq<Counter>, n: nat)
    ensures |cs| <= |Left(valid, omni, cs, n)| + n * Limit(omni)
    ensures FullTurns(valid, omni, cs) && |Left(valid, omni, cs, n)| >= 32 ==>
      |cs| == |Left(valid, omni, cs, n)| + n * Limit(omni)
  {
    hide Largest, Limit, LimitWithinWord, Selected, Rest;
    if n > 0 {
      LeftLength(valid, omni, cs, n - 1);
      LargestFacts(valid, omni, Left(valid, omni, cs, n - 1));
      assert n * Limit(omni) == (n - 1) * Limit(omni) + Limit(omni);
    }
  }

  /** The first turns, those that full groups leave 32 counters or more to, each find a full group. */
  ghost predicate FullTurns(valid: seq<Counter> -> bool, omni: seq<Counter>, cs: seq<Counter>) {
    forall n: nat :: n * Limit(omni) + 32 <= |cs| ==> LimitWithinWord(valid, omni, Left(valid, omni, cs, n))
  }

  /** The grouping ends exactly if its first turns, until fewer than 32 counters are left, all find groups as
      large as the limit within 32 bits. */
  lemma SearchesEndIff(valid: seq<Counter> -> bool, omni: seq<Counter>, cs: seq<Counter>)
    ensures SearchesEnd(valid, omni, cs) <==> FullTurns(valid, omni, cs)
  {
    hide Left, Limit, LimitWithinWord, SearchEnds;
    if SearchesEnd(valid, omni, cs) {
      forall n: nat | n * Limit(omni) + 32 <= |cs| ensures LimitWithinWord(valid, omni, Left(valid, omni, cs, n)) {
        LeftLength(valid, omni, cs, n);
        SearchEndsIff(valid, omni, Left(valid, omni, cs, n));
      }
    }
    if FullTurns(valid, omni, cs) {
      forall n: nat ensures SearchEnds(valid, omni, Left(valid, omni, cs, n)) {
        LeftLength(valid, omni, cs, n);
        SearchEndsIff(valid, omni, Left(valid, omni, cs, n));
      }
    }
  }

  /** Fewer than 32 counters, or no room beside the omnipresent ones: the grouping ends whatever the oracle says. */
  lemma FewCountersEnd(valid: seq<Counter> -> bool, omni: seq<Counter>, cs: seq<Counter>)
    requires |cs| < 32 || Limit(omni) == 0
    ensures SearchesEnd(valid, omni, cs)
  {
    hide SearchesEnd, Left, Limit;
    SearchesEndIff(valid, omni, cs);
  }

  /** On hardware that counts four events at a time, no search over 32 or more counters ends. */
  lemma FourEventsNeverEnd(cs: seq<Counter>)
    requires |cs| >= 32
    ensures var valid := (events: seq<Counter>) => |events| <= 4;
      !SearchEnds(valid, [], cs) && !SearchesEnd(valid, [], cs)
  {
    hide Selected, SearchEnds;
    var valid := (events: seq<Counter>) => |events| <= 4;
    SearchEndsIff(valid, [], cs);
    LeftAtFirst(valid, [], cs);
  }

  lemma NoGroups(valid: seq<Counter> -> bool, omni: seq<Counter>, cs: seq<Counter>)
    ensures Groups(valid, omni, cs, [], cs)
  {
  }

  lemma BestFacts(valid: seq<Counter> -> bool, omni: seq<Counter>, cs: seq<Counter>, b: nat)
    requires BestBelow(valid, omni, cs, Pow2(|cs|), b)
    ensures b < Pow2(|cs|)
    ensures b == 0 <==> Selected(cs, b) == []
    ensures b == 0 ==> NothingFits(valid, omni, cs)
  {
    NoBitsSelectNothing(cs);
  }

  lemma OneMoreGroup(valid: seq<Counter> -> bool, omni: seq<Counter>, cs: seq<Counter>, sets: seq<seq<Counter>>,
                     before: seq<Counter>, left: seq<Counter>)
    requires sets != [] && Groups(valid, omni, cs, Front(sets), before) && Group(valid, omni, before, Last(sets), left)
    ensures Groups(valid, omni, cs, sets, left)
  {
  }

  // ---------------------------------------------------------------- what the groups are

  /** a is b with some elements left out. */
  ghost predicate Subsequence(a: seq<Counter>, b: seq<Counter>) {
    if a == [] then true
    else if b == [] then false
    else (a[0] == b[0] && Subsequence(a[1..], b[1..])) || Subsequence(a, b[1..])
  }

  lemma {:induction false} MaskIsSubsequence(cs: seq<Counter>, v: nat)
    ensures Subsequence(Selected(cs, v), cs) && Subsequence(Rest(cs, v), cs)
  {
    if cs != [] {
      MaskIsSubsequence(cs[1..], v / 2);
      assert v % 2 == 1 ==> Selected(cs, v)[1..] == Selected(cs[1..], v / 2) && Rest(cs, v) == Rest(cs[1..], v / 2);
      assert v % 2 == 0 ==> Rest(cs, v)[1..] == Rest(cs[1..], v / 2) && Selected(cs, v) == Selected(cs[1..], v / 2);
    }
  }

  lemma {:induction false} SubsequenceTransitive(a: seq<Counter>, b: seq<Counter>, c: seq<Counter>)
    requires Subsequence(a, b) && Subsequence(b, c)
    ensures Subsequence(a, c)
    decreases |b| + |c|
  {
    if a != [] && c != [] {
      if b[0] == c[0] && Subsequence(b[1..], c[1..]) {
        if a[0] == b[0] && Subsequence(a[1..], b[1..]) {
          SubsequenceTransitive(a[1..], b[1..], c[1..]);
        } else {
          SubsequenceTransitive(a, b[1..], c[1..]);
        }
      } else {
        SubsequenceTransitive(a, b, c[1..]);
      }
    }
  }

  lemma GroupFacts(valid: seq<Counter> -> bool, omni: seq<Counter>, cs: seq<Counter>, group: seq<Counter>,
                   left: seq<Counter>)
    requires Group(valid, omni, cs, group, left)
    ensures group != [] && |group| <= Limit(omni) && valid(omni + group)
    ensures Subsequence(group, cs) && Subsequence(left, cs)
    ensures multiset(group) + multiset(left) == multiset(cs)
  {
    hide Selected, Rest, Subsequence, Pow2;
    var b: nat :| BestBelow(valid, omni, cs, Pow2(|cs|), b) && b != 0 && group == Selected(cs, b)
      && left == Rest(cs, b);
    MaskIsSubsequence(cs, b);
    SplitCounters(cs, b);
  }

  ghost function All(sets: seq<seq<Counter>>): multiset<Counter> {
    if sets == [] then multiset{} else All(Front(sets)) + multiset(Last(sets))
  }

  /** Grouped and left-over counters together are the given ones, no more and no fewer. */
  lemma {:induction false} GroupsPartition(valid: seq<Counter> -> bool, omni: seq<Counter>, cs: seq<Counter>,
                                           sets: seq<seq<Counter>>, left: seq<Counter>)
    requires Groups(valid, omni, cs, sets, left)
    ensures All(sets) + multiset(left) == multiset(cs)
    decreases |sets|
  {
    if sets != [] {
      var before :| Groups(valid, omni, cs, Front(sets), before) && Group(valid, omni, before, Last(sets), left);
      GroupsPartition(valid, omni, cs, Front(sets), before);
      GroupFacts(valid, omni, before, Last(sets), left);
    }
  }

  /** Each group can be counted together, keeps to the limit, is not empty, and like the left-over
      counters keeps the given order. */
  lemma {:induction false} GroupsAreValid(valid: seq<Counter> -> bool, omni: seq<Counter>, cs: seq<Counter>,
                                          sets: seq<seq<Counter>>, left: seq<Counter>)
    requires Groups(valid, omni, cs, sets, left)
    ensures Subsequence(left, cs)
    ensures forall i :: 0 <= i < |sets| ==>
      sets[i] != [] && |sets[i]| <= Limit(omni) && valid(omni + sets[i]) && Subsequence(sets[i], cs)
    decreases |sets|
  {
    hide Subsequence, Limit, Group;
    if sets == [] {
      SubsequenceOfItself(cs);
    } else {
      var before :| Groups(valid, omni, cs, Front(sets), before) && Group(valid, omni, before, Last(sets), left);
      GroupsAreValid(valid, omni, cs, Front(sets), before);
      GroupFacts(valid, omni, before, Last(sets), left);
      SubsequenceTransitive(left, before, cs);
      SubsequenceTransitive(Last(sets), before, cs);
      assert forall i :: 0 <= i < |sets| - 1 ==> sets[i] == Front(sets)[i];
    }
  }

  lemma {:induction false} SubsequenceOfItself(s: seq<Counter>)
    ensures Subsequence(s, s)
  {
    if s != [] {
      SubsequenceOfItself(s[1..]);
    }
  }

  /** Every subsequence of the counters is the selection of some mask. */
  lemma {:induction false} EverySubsequenceIsAMask(s: seq<Counter>, cs: seq<Counter>) returns (v: nat)
    requires Subsequence(s, cs)
    ensures v < Pow2(|cs|) && Selected(cs, v) == s
    decreases |cs|
  {
    hide Selected, Pow2;
    if cs == [] {
      v := 0;
      NoBitsSelectNothing(cs);
    } else if s != [] && s[0] == cs[0] && Subsequence(s[1..], cs[1..]) {
      v := EverySubsequenceIsAMask(s[1..], cs[1..]);
      OneMoreBit(cs, v);
      v := 2 * v + 1;
      assert s == [s[0]] + s[1..];
    } else {
      v := EverySubsequenceIsAMask(s, cs[1..]);
      OneMoreBit(cs, v);
      v := 2 * v;
    }
  }

  lemma OneMoreBit(cs: seq<Counter>, v: nat)
    requires cs != [] && v < Pow2(|cs| - 1)
    ensures 2 * v + 1 < Pow2(|cs|)
    ensures Selected(cs, 2 * v + 1) == [cs[0]] + Selected(cs[1..], v) && Selected(cs, 2 * v) == Selected(cs[1..], v)
  {
    assert (2 * v + 1) / 2 == v && (2 * v) / 2 == v;
  }

  /** Each group is as large as any list of the counters left at its turn that could be counted together. */
  lemma GroupIsLargest(valid: seq<Counter> -> bool, omni: seq<Counter>, before: seq<Counter>, group: seq<Counter>,
                       left: seq<Counter>, s: seq<Counter>)
    requires Group(valid, omni, before, group, left)
    requires Subsequence(s, before) && |s| <= Limit(omni) && valid(omni + s)
    ensures |s| <= |group|
  {
    var v := EverySubsequenceIsAMask(s, before);
    assert Fits(valid, omni, before, v);
  }

  /** When the grouping stops early, no non-empty list of the left-over counters can be counted together. */
  lemma LeftoversFitNowhere(valid: seq<Counter> -> bool, omni: seq<Counter>, left: seq<Counter>, s: seq<Counter>)
    requires NothingFits(valid, omni, left) && Subsequence(s, left) && s != [] && |s| <= Limit(omni)
    ensures !valid(omni + s)
  {
    var v := EverySubsequenceIsAMask(s, left);
    assert !Fits(valid, omni, left, v);
  }

  ghost predicate NoRepeats(cs: seq<Counter>) {
    forall i, j :: 0 <= i < j < |cs| ==> cs[i] != cs[j]
  }

  /** For distinct counters, no counter is in two groups, or in a group and left over. */
  lemma GroupsAreDisjoint(valid: seq<Counter> -> bool, omni: seq<Counter>, cs: seq<Counter>, sets: seq<seq<Counter>>,
                          left: seq<Counter>, i: nat, j: nat, c: Counter)
    requires Groups(valid, omni, cs, sets, left) && NoRepeats(cs) && i < j < |sets| && c in sets[i]
    ensures c !in sets[j] && c !in left
  {
    GroupsPartition(valid, omni, cs, sets, left);
    OccursOnce(cs, c);
    AllSplits(sets, i, j);
  }

  lemma {:induction false} OccursOnce(cs: seq<Counter>, c: Counter)
    requires NoRepeats(cs)
    ensures multiset(cs)[c] <= 1
  {
    if cs != [] {
      var front := cs[..|cs| - 1];
      OccursOnce(front, c);
      assert cs == front + [cs[|cs| - 1]];
      assert forall i :: 0 <= i < |front| ==> front[i] == cs[i];
    }
  }

  lemma {:induction false} AllHolds(sets: seq<seq<Counter>>, i: nat)
    requires i < |sets|
    ensures multiset(sets[i]) <= All(sets)
  {
    if i < |sets| - 1 {
      AllHolds(Front(sets), i);
    }
  }

  lemma {:induction false} AllSplits(sets: seq<seq<Counter>>, i: nat, j: nat)
    requires i < j < |sets|
    ensures multiset(sets[i]) + multiset(sets[j]) <= All(sets)
  {
    if j < |sets| - 1 {
      AllSplits(Front(sets), i, j);
    } else {
      AllHolds(Front(sets), i);
      assert Front(sets)[i] == sets[i];
    }
  }

  // ---------------------------------------------------------------- eight counters

  /** What eight counters in all leave room for; with more omnipresent ones than that the difference wraps around, and
      there is room for any number. */
  lemma LimitIsEightInAll(omni: seq<Counter>, size: nat)
    requires size < 63
    ensures |omni| <= 8 ==> (size <= Limit(omni) <==> |omni| + size <= 8)
    ensures 8 < |omni| <= 0x8000_0000_0000_0000 ==> size <= Limit(omni)
  {
  }

  /** Counters that are not selected stay, in order. */
  lemma {:induction false} NotSelectedStays(s: seq<Counter>, cs: seq<Counter>, v: nat)
    requires Subsequence(s, cs) && forall c :: c in s ==> c !in Selected(cs, v)
    ensures Subsequence(s, Rest(cs, v))
    decreases |cs|
  {
    if s != [] && cs != [] {
      if s[0] == cs[0] && Subsequence(s[1..], cs[1..]) {
        assert s[0] in s && v % 2 == 0;
        assert Selected(cs, v) == Selected(cs[1..], v / 2);
        assert forall c :: c in s[1..] ==> c in s;
        NotSelectedStays(s[1..], cs[1..], v / 2);
        assert Rest(cs, v)[1..] == Rest(cs[1..], v / 2);
      } else {
        NotSelectedStays(s, cs[1..], v / 2);
        if v % 2 == 0 {
          assert Rest(cs, v)[1..] == Rest(cs[1..], v / 2);
        } else {
          assert Rest(cs, v) == Rest(cs[1..], v / 2);
        }
      }
    }
  }

  lemma StaysLeft(valid: seq<Counter> -> bool, omni: seq<Counter>, before: seq<Counter>, group: seq<Counter>,
                  left: seq<Counter>, s: seq<Counter>)
    requires Group(valid, omni, before, group, left)
    requires Subsequence(s, before) && forall c :: c in s ==> c !in group
    ensures Subsequence(s, left)
  {
    hide Subsequence, BestBelow, Pow2;
    var b: nat :| BestBelow(valid, omni, before, Pow2(|before|), b) && b != 0
      && group == Selected(before, b) && left == Rest(before, b);
    NotSelectedStays(s, before, b);
  }

  /** Counters in no group are left. */
  lemma {:induction false} UngroupedAreLeft(valid: seq<Counter> -> bool, omni: seq<Counter>, cs: seq<Counter>,
                                            sets: seq<seq<Counter>>, left: seq<Counter>, s: seq<Counter>)
    requires Groups(valid, omni, cs, sets, left)
    requires Subsequence(s, cs) && forall i, c :: 0 <= i < |sets| && c in sets[i] ==> c !in s
    ensures Subsequence(s, left)
    decreases |sets|
  {
    hide Group, Subsequence;
    if sets != [] {
      var before :| Groups(valid, omni, cs, Front(sets), before) && Group(valid, omni, before, Last(sets), left);
      assert forall i, c :: 0 <= i < |Front(sets)| && c in Front(sets)[i] ==> c in sets[i];
      UngroupedAreLeft(valid, omni, cs, Front(sets), before, s);
      assert Last(sets) == sets[|sets| - 1];
      StaysLeft(valid, omni, before, Last(sets), left, s);
    }
  }

  /** Each group and the omnipresent counters are at most eight, and of the counters in no earlier group no list that
      makes at most eight with the omnipresent ones and can be counted with them is longer. */
  lemma {:induction false} GroupsOfEight(valid: seq<Counter> -> bool, omni: seq<Counter>, cs: seq<Counter>,
                                         sets: seq<seq<Counter>>, left: seq<Counter>, i: nat, s: seq<Counter>)
    requires Groups(valid, omni, cs, sets, left) && |cs| < 63 && i < |sets| && |omni| <= 0x8000_0000_0000_0000
    ensures |omni| <= 8 ==> |omni| + |sets[i]| <= 8
    ensures
      (valid(omni + s) && (|omni| <= 8 ==> |omni| + |s| <= 8) && Subsequence(s, cs)
       && forall j, c :: 0 <= j < i && c in sets[j] ==> c !in s)
      ==> |s| <= |sets[i]|
    decreases |sets|
  {
    hide Group, Subsequence, Limit, Groups;
    LastGroup(valid, omni, cs, sets, left);
    var before := BeforeLast(valid, omni, cs, sets, left);
    if i < |sets| - 1 {
      assert Front(sets)[i] == sets[i] && forall j :: 0 <= j < i ==> Front(sets)[j] == sets[j];
      GroupsOfEight(valid, omni, cs, Front(sets), before, i, s);
    } else {
      GroupsAreValid(valid, omni, cs, sets, left);
      SubsequenceLength(sets[i], cs);
      LimitIsEightInAll(omni, |sets[i]|);
      if valid(omni + s) && (|omni| <= 8 ==> |omni| + |s| <= 8) && Subsequence(s, cs)
         && (forall j, c :: 0 <= j < i && c in sets[j] ==> c !in s) {
        SubsequenceLength(s, cs);
        LimitIsEightInAll(omni, |s|);
        assert forall j, c :: 0 <= j < |Front(sets)| && c in Front(sets)[j] ==> c in sets[j];
        UngroupedAreLeft(valid, omni, cs, Front(sets), before, s);
        GroupIsLargest(valid, omni, before, sets[i], left, s);
      }
    }
  }

  lemma LastGroup(valid: seq<Counter> -> bool, omni: seq<Counter>, cs: seq<Counter>, sets: seq<seq<Counter>>,
                  left: seq<Counter>)
    requires Groups(valid, omni, cs, sets, left) && sets != []
    ensures Last(sets) == sets[|sets| - 1]
  {
  }

  lemma BeforeLast(valid: seq<Counter> -> bool, omni: seq<Counter>, cs: seq<Counter>, sets: seq<seq<Counter>>,
                   left: seq<Counter>) returns (before: seq<Counter>)
    requires Groups(valid, omni, cs, sets, left) && sets != []
    ensures Groups(valid, omni, cs, Front(sets), before) && Group(valid, omni, before, sets[|sets| - 1], left)
  {
    before :| Groups(valid, omni, cs, Front(sets), before) && Group(valid, omni, before, Last(sets), left);
  }

  lemma {:induction false} SubsequenceLength(a: seq<Counter>, b: seq<Counter>)
    requires Subsequence(a, b)
    ensures |a| <= |b|
    decreases |b|
  {
    if a != [] {
      if a[0] == b[0] && Subsequence(a[1..], b[1..]) {
        SubsequenceLength(a[1..], b[1..]);
      } else {
        SubsequenceLength(a, b[1..]);
      }
    }
  }

  /** When the grouping stops early, no list of counters in no group that makes at most eight with the omnipresent ones
      can be counted with them. */
  lemma NoneOfEightLeft(valid: seq<Counter> -> bool, omni: seq<Counter>, cs: seq<Counter>, sets: seq<seq<Counter>>,
                        left: seq<Counter>, s: seq<Counter>)
    requires Groups(valid, omni, cs, sets, left) && NothingFits(valid, omni, left)
    requires |cs| < 63 && |omni| <= 0x8000_0000_0000_0000
    requires s != [] && (|omni| <= 8 ==> |omni| + |s| <= 8) && Subsequence(s, cs)
    requires forall i, c :: 0 <= i < |sets| && c in sets[i] ==> c !in s
    ensures !valid(omni + s)
  {
    hide Groups, NothingFits, Limit, Subsequence;
    SubsequenceLength(s, cs);
    LimitIsEightInAll(omni, |s|);
    UngroupedAreLeft(valid, omni, cs, sets, left, s);
    LeftoversFitNowhere(valid, omni, left, s);
  }
}
