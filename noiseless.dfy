/**
 An ideal, noise-free cycle counter, under which the scoring rule can be
 checked exactly: a slot scores in a round precisely when it was cached.
 */
module NoiselessTiming {
  import opened Probe
  import opened Scoring

  /** Every cached read takes `hit` cycles and every other read `miss` cycles. */
  function Noiseless(hit: Cycles, miss: Cycles): Timer
  {
    (run, slot, cached) => if cached then hit else miss
  }

  /** How many of the slots below `n` are cached. */
  function HitsBelow(n: nat, cached: set<int>): nat
  {
    if n == 0 then 0 else HitsBelow(n - 1, cached) + (if n - 1 in cached then 1 else 0)
  }

  lemma {:induction false} HitsBelowOne(n: nat, a: int)
    requires 0 <= a
    ensures HitsBelow(n, {a}) == if a < n then 1 else 0
  {
    if n > 0 {
      HitsBelowOne(n - 1, a);
    }
  }

  lemma {:induction false} HitsBelowTwo(n: nat, a: int, b: int)
    requires 0 <= a && 0 <= b && a != b
    ensures HitsBelow(n, {a, b}) == (if a < n then 1 else 0) + (if b < n then 1 else 0)
  {
    if n > 0 {
      HitsBelowTwo(n - 1, a, b);
    }
  }

  /** The latencies of a noiseless round add up to `hit` per cached slot and `miss` per other slot. */
  lemma {:induction false} SumNoiselessPrefix(hit: Cycles, miss: Cycles, run: int, cached: set<int>, n: nat)
    requires n <= SlotCount
    ensures Sum(Sample(Noiseless(hit, miss), run, cached)[..n])
         == HitsBelow(n, cached) * hit + (n - HitsBelow(n, cached)) * miss
  {
    var lat := Sample(Noiseless(hit, miss), run, cached);
    if n > 0 {
      SumNoiselessPrefix(hit, miss, run, cached, n - 1);
      assert lat[..n][..n - 1] == lat[..n - 1];
      var h := HitsBelow(n - 1, cached);
      if n - 1 in cached {
        assert (h + 1) * hit + (n - (h + 1)) * miss == h * hit + (n - 1 - h) * miss + hit;
      } else {
        assert h * hit + (n - h) * miss == h * hit + (n - 1 - h) * miss + miss;
      }
    }
  }

  /** A cached read is fast enough to score in a round where `hits` slots were cached. */
  predicate Detectable(hit: Cycles, miss: Cycles, hits: nat)
    requires hits <= SlotCount
  {
    hit < ThresholdOf(hits * hit + (SlotCount - hits) * miss)
  }

  /**
   In a noiseless round with one or two cached slots, and a hit latency that
   clears the threshold, a slot's latency is below the threshold exactly when
   the slot was cached: misses never score.
   */
  lemma NoiselessRoundScoresCached(hit: Cycles, miss: Cycles, run: int, cached: set<int>)
    requires HitsBelow(SlotCount, cached) == 1 || HitsBelow(SlotCount, cached) == 2
    requires Detectable(hit, miss, HitsBelow(SlotCount, cached))
    ensures forall s :: 0 <= s < SlotCount ==>
              (Sample(Noiseless(hit, miss), run, cached)[s] < Threshold(Sample(Noiseless(hit, miss), run, cached))
               <==> s in cached)
  {
    var lat := Sample(Noiseless(hit, miss), run, cached);
    var h := HitsBelow(SlotCount, cached);
    SumNoiselessPrefix(hit, miss, run, cached, SlotCount);
    assert lat[..SlotCount] == lat;
    var t := Threshold(lat);
    if h == 1 {
      assert t == ThresholdOf(hit + 255 * miss);
    } else {
      assert t == ThresholdOf(2 * hit + 254 * miss);
    }
    assert hit < t <= miss;
  }
}
