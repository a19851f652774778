/**
 The statistics both leak variants run on the measured latencies: the mean
 and the hit threshold, the scan for the two best scores, the confidence
 rule, and the conversion of the winning slot to a `char`.
 */
module Scoring {
  import opened Probe

  /** Rounds per leaked byte. */
  const MaxRounds := 100
  /** The early exit fires when best > 2 * runnerUp + ConfidenceMargin. */
  const ConfidenceMargin := 400
  /** Bound of a signed 64-bit accumulator. */
  const Int64Limit := 0x8000_0000_0000_0000

  /** A signed `char`, as on x86. */
  type Char = c: int | -128 <= c < 128

  /** `std::accumulate` from the first entry to the last. */
  function Sum(s: seq<int>): int
  {
    if s == [] then 0 else Sum(s[..|s| - 1]) + s[|s| - 1]
  }

  lemma {:induction false} SumBounded(s: seq<Cycles>)
    ensures 0 <= Sum(s) <= |s| * (MaxCycles - 1)
  {
    if s != [] {
      SumBounded(s[..|s| - 1]);
    }
  }

  /** The sum of one round's latencies fits the 64-bit accumulator, so it never wraps. */
  lemma SumFitsInt64(lat: seq<Cycles>)
    requires |lat| == SlotCount
    ensures 0 <= Sum(lat) < Int64Limit
  {
    SumBounded(lat);
  }

  /** Three quarters of the integer mean of latencies that add up to `total`. */
  function ThresholdOf(total: int): int
  {
    (total / SlotCount) * 3 / 4
  }

  /** A slot whose latency is below this counts as a cache hit. */
  function Threshold(lat: seq<int>): int
  {
    ThresholdOf(Sum(lat))
  }

  function Zeros(): (s: seq<int>)
    ensures |s| == SlotCount && forall i :: 0 <= i < SlotCount ==> s[i] == 0
  {
    seq(SlotCount, _ => 0)
  }

  /** `j` is the first index holding the largest value of `s`. */
  ghost predicate IsFirstMax(s: seq<int>, j: int)
  {
    && 0 <= j < |s|
    && (forall i :: 0 <= i < |s| ==> s[i] <= s[j])
    && (forall i :: 0 <= i < j ==> s[i] < s[j])
  }

  /**
   `k` is a runner-up to `j`: `s[k] <= s[j]`, no value outside index `j`
   exceeds `s[k]`, and no index before `k` other than `j` reaches it. So
   `k != j` is the first index other than `j` holding the largest value
   outside `j`, while `k == j` is allowed whenever `j` is a first maximum;
   `TopTwoIndices` says when that happens.
   */
  ghost predicate IsRunnerUp(s: seq<int>, j: int, k: int)
  {
    && 0 <= j < |s| && 0 <= k < |s|
    && s[k] <= s[j]
    && (forall m :: 0 <= m < |s| && m != j ==> s[m] <= s[k])
    && (forall m :: 0 <= m < k && m != j ==> s[m] < s[k])
  }

  /** The first index of the maximum, as a reference definition. */
  function FirstMax(s: seq<int>): (j: int)
    requires |s| > 0
    ensures 0 <= j < |s|
  {
    if |s| == 1 then 0
    else
      var j' := FirstMax(s[..|s| - 1]);
      if s[|s| - 1] > s[j'] then |s| - 1 else j'
  }

  lemma {:induction false} FirstMaxIsFirstMax(s: seq<int>)
    requires |s| > 0
    ensures IsFirstMax(s, FirstMax(s))
  {
    if |s| > 1 {
      FirstMaxIsFirstMax(s[..|s| - 1]);
    }
  }

  /** The first maximum is unique, so any index that is one is the one `FirstMax` picks. */
  lemma FirstMaxUnique(s: seq<int>, j: int)
    requires IsFirstMax(s, j)
    ensures j == FirstMax(s)
  {
    FirstMaxIsFirstMax(s);
  }

  /**
   `top_two_indices`: one pass keeping the index `j` of the first maximum and
   a runner-up `k`. Both start at 0, so when the maximum is at index 0 the
   runner-up never moves and `k == j`; otherwise `k` is a different index.
   */
  method TopTwoIndices(a: array<int>) returns (j: int, k: int)
    ensures a.Length == 0 ==> j == 0 && k == 0
    ensures a.Length > 0 ==> IsFirstMax(a[..], j) && IsRunnerUp(a[..], j, k)
    ensures k == j <==> j == 0
  {
    j, k := 0, 0;
    for i := 0 to a.Length
      invariant 0 <= j && (j < i || j == 0)
      invariant 0 <= k && (k < i || k == 0)
      invariant k == j <==> j == 0
      invariant a.Length > 0 ==> forall m :: 0 <= m < i ==> a[m] <= a[j]
      invariant a.Length > 0 ==> forall m :: 0 <= m < j ==> a[m] < a[j]
      invariant a.Length > 0 ==> a[k] <= a[j]
      invariant a.Length > 0 ==> forall m :: 0 <= m < i && m != j ==> a[m] <= a[k]
      invariant a.Length > 0 ==> forall m :: 0 <= m < k && m != j ==> a[m] < a[k]
    {
      if a[i] > a[j] {
        k := j;
        j := i;
      } else if a[i] > a[k] {
        k := i;
      }
    }
  }

  /** The early-exit test after each round. */
  predicate Confident(best: int, runnerUp: int)
  {
    best > 2 * runnerUp + ConfidenceMargin
  }

  /** Scores that never exceed the round cap can never pass the early-exit test. */
  lemma NeverConfidentWithinCap(best: int, runnerUp: int)
    requires best <= MaxRounds && 0 <= runnerUp
    ensures !Confident(best, runnerUp)
  {
  }

  /**
   The decision step after a round: the two best scores and the early-exit
   test. While every score is between 0 and the round cap, the best index is
   the first maximum, the runner-up is as `TopTwoIndices` finds it, and the
   early exit does not fire.
   */
  method Decide(scores: array<int>) returns (best: int, runnerUp: int, confident: bool)
    requires scores.Length == SlotCount
    requires forall i :: 0 <= i < SlotCount ==> 0 <= scores[i] <= MaxRounds
    ensures IsSlot(best) && IsSlot(runnerUp)
    ensures best == FirstMax(scores[..])
    ensures IsRunnerUp(scores[..], best, runnerUp) && (runnerUp == best <==> best == 0)
    ensures confident == Confident(scores[best], scores[runnerUp])
    ensures !confident
  {
    best, runnerUp := TopTwoIndices(scores);
    FirstMaxUnique(scores[..], best);
    NeverConfidentWithinCap(scores[best], scores[runnerUp]);
    confident := Confident(scores[best], scores[runnerUp]);
  }

  /** `char(v)`: the signed `char` with the same low eight bits as the slot number. */
  function ToChar(v: Byte): (c: Char)
    ensures (c - v) % 256 == 0
  {
    if v < 128 then v else v - 256
  }
}
