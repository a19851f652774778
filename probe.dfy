/**
 The timing probe array shared by both leak variants: 256 slots, one per
 possible byte value, each `Stride` bytes apart; the cache abstracted as the
 set of slots read or written since they were last flushed; the fixed probe order; and
 the measure step that times one read of every slot.
 */
module Probe {

  /** One slot per possible byte value. */
  const SlotCount := 256
  /** Distance in bytes between two slots; it only spaces them in memory. */
  const Stride := 512
  /** How often the secret-dependent read is repeated per round. */
  const DataDependentReads := 100
  /** The probe order is i |-> (i * MixMultiplier + MixOffset) mod 256 ... */
  const MixMultiplier := 167
  const MixOffset := 13
  /** ... and 23 is the inverse of 167 modulo 256 (167 * 23 == 15 * 256 + 1). */
  const MixInverse := 23
  /** Bound on one measured latency: 256 of them sum to less than 2^63. */
  const MaxCycles := 0x80_0000_0000_0000

  type Byte = b: int | 0 <= b < 256
  type Cycles = c: int | 0 <= c < MaxCycles

  /**
   The cycle counter around one probe read: given the round, the slot and
   whether that slot was cached just before the read, the number of cycles
   measured. Noise is whatever the function does with the round and slot.
   */
  type Timer = (int, int, bool) -> Cycles

  predicate IsSlot(s: int)
  {
    0 <= s < SlotCount
  }

  function AllSlots(): set<Byte>
  {
    set s: Byte | IsSlot(s)
  }

  /**
   The static `timing_array`: SlotCount * Stride bytes, and the set of its
   slots that are in the cache, that is, read or written since they were last
   flushed.
   */
  class ProbeArray {
    const bytes: array<Byte>
    var cached: set<Byte>

    ghost predicate Valid()
      reads this
    {
      bytes.Length == SlotCount * Stride
    }

    /** A zero-initialised static array that nothing has read yet. */
    constructor ()
      ensures Valid() && fresh(bytes) && cached == {}
      ensures forall i :: 0 <= i < bytes.Length ==> bytes[i] == 0
    {
      bytes := new Byte[SlotCount * Stride](_ => 0);
      cached := {};
    }

    /** `memset(timing_array, 1, ...)`: every byte becomes 1, and the written slots are all in the cache. */
    method Reset()
      requires Valid()
      modifies this, bytes
      ensures Valid()
      ensures forall i :: 0 <= i < bytes.Length ==> bytes[i] == 1
      ensures cached == AllSlots()
    {
      var i := 0;
      while i < bytes.Length
        invariant 0 <= i <= bytes.Length
        invariant forall k :: 0 <= k < i ==> bytes[k] == 1
      {
        bytes[i] := 1;
        i := i + 1;
      }
      cached := AllSlots();
    }

    /** `_mm_clflush` of one slot. */
    method Flush(slot: int)
      requires Valid()
      modifies this
      ensures Valid()
      ensures cached == old(cached) - {slot}
    {
      cached := cached - {slot};
    }

    /** The flush loop that opens every round: no slot stays cached. */
    method FlushAll()
      requires Valid()
      modifies this
      ensures Valid()
      ensures cached == {}
    {
      for i := 0 to SlotCount
        invariant Valid()
        invariant forall s :: s in cached <==> s in old(cached) && s >= i
      {
        Flush(i);
      }
    }

    /** `force_read` of the first byte of a slot: the read is in bounds and caches the slot. */
    method Touch(slot: int)
      requires Valid()
      requires 0 <= slot < SlotCount
      modifies this
      ensures Valid()
      ensures cached == old(cached) + {slot}
    {
      var _ := bytes[slot * Stride];
      cached := cached + {slot};
    }
  }

  /** `((i * 167) + 13) & 0xff`; for the non-negative loop counter `& 0xff` is `% 256`. */
  function Mix(i: int): int
  {
    (i * MixMultiplier + MixOffset) % SlotCount
  }

  /** The position in the probe order at which slot `s` is measured. */
  function Unmix(s: int): int
  {
    ((s - MixOffset) * MixInverse) % SlotCount
  }

  /** Adding a multiple of 256 does not change a slot number modulo 256. */
  lemma ModSlotShift(s: int, y: int)
    requires IsSlot(s)
    ensures (s + SlotCount * y) % SlotCount == s
  {
  }

  lemma UnmixMix(i: int)
    requires IsSlot(i)
    ensures IsSlot(Mix(i))
    ensures Unmix(Mix(i)) == i
  {
    var q := (i * MixMultiplier + MixOffset) / SlotCount;
    var m := Mix(i);
    assert m == i * MixMultiplier + MixOffset - SlotCount * q;
    var y := 15 * i - 23 * q;
    assert (m - MixOffset) * MixInverse == i + SlotCount * y;
    ModSlotShift(i, y);
  }

  lemma MixUnmix(s: int)
    requires IsSlot(s)
    ensures IsSlot(Unmix(s))
    ensures Mix(Unmix(s)) == s
  {
    var q := ((s - MixOffset) * MixInverse) / SlotCount;
    var u := Unmix(s);
    assert u == (s - MixOffset) * MixInverse - SlotCount * q;
    var y := 15 * s - 195 - 167 * q;
    assert u * MixMultiplier + MixOffset == s + SlotCount * y;
    ModSlotShift(s, y);
  }

  /** The slots measured by the first `n` steps of the probe loop. */
  function ProbedSlots(n: int): set<int>
  {
    set k | 0 <= k < n :: Mix(k)
  }

  /** No two steps of the probe loop measure the same slot. */
  lemma ProbeOrderInjective(i: int, k: int)
    requires 0 <= i < SlotCount && 0 <= k < SlotCount && i != k
    ensures Mix(i) != Mix(k)
  {
    UnmixMix(i);
    UnmixMix(k);
  }

  /** The 256 steps of the probe loop measure every slot, so they are a permutation of the slots. */
  lemma ProbeOrderCoversAllSlots()
    ensures ProbedSlots(SlotCount) == AllSlots()
  {
    forall s | 0 <= s < SlotCount
      ensures s in ProbedSlots(SlotCount)
    {
      MixUnmix(s);
    }
    forall k | 0 <= k < SlotCount
      ensures Mix(k) in AllSlots()
    {
      UnmixMix(k);
    }
  }

  /** The latencies one measure step records when the slots in `cached` were cached before it. */
  function Sample(timer: Timer, run: int, cached: set<int>): (lat: seq<Cycles>)
    ensures |lat| == SlotCount
  {
    seq(SlotCount, s => timer(run, s, s in cached))
  }

  /**
   The measure step: slots are read in the probe order, and each read is timed
   by `timer`. Because no slot is read twice in a round, each latency reflects
   the cache state left by the encode step, and every entry is written.
   */
  method Measure(probe: ProbeArray, latencies: array<Cycles>, timer: Timer, run: int)
    requires probe.Valid()
    requires latencies.Length == SlotCount
    modifies probe, latencies
    ensures probe.Valid()
    ensures probe.cached == AllSlots()
    ensures latencies[..] == Sample(timer, run, old(probe.cached))
  {
    ghost var encoded := probe.cached;
    for i := 0 to SlotCount
      invariant probe.Valid()
      invariant probe.cached == encoded + ProbedSlots(i)
      invariant forall k :: 0 <= k < i ==> latencies[Mix(k)] == timer(run, Mix(k), Mix(k) in encoded)
    {
      var mixed := Mix(i);
      forall k | 0 <= k < i
        ensures Mix(k) != mixed
      {
        ProbeOrderInjective(k, i);
      }
      assert ProbedSlots(i + 1) == ProbedSlots(i) + {mixed};
      var hit := mixed in probe.cached;
      probe.Touch(mixed);
      latencies[mixed] := timer(run, mixed, hit);
    }
    forall s | 0 <= s < SlotCount
      ensures latencies[s] == timer(run, s, s in encoded)
    {
      MixUnmix(s);
    }
    ProbeOrderCoversAllSlots();
  }

  /** The secret-dependent reads: the same slot read `DataDependentReads` times. */
  method DirectReads(probe: ProbeArray, slot: int)
    requires probe.Valid()
    requires 0 <= slot < SlotCount
    modifies probe
    ensures probe.Valid()
    ensures probe.cached == old(probe.cached) + {slot}
  {
    for i := 0 to DataDependentReads
      invariant probe.Valid()
      invariant probe.cached == old(probe.cached) + (if i == 0 then {} else {slot})
    {
      probe.Touch(slot);
    }
  }
}
