/**
 `leak_byte` of the speculative variant: besides the direct reads of the
 target byte, every round runs a bounds-checked training loop over a safe
 in-bounds index, and the slot of the safe byte is left out of scoring.
 Only the architectural effect of the bounds check is modelled.
 */
module SpectreV1 {
  import opened Probe
  import opened Scoring
  import opened NoiselessTiming

  /** Iterations of the bounds-checked training loop per round. */
  const TrainingIterations := 500
  /** One iteration in every `TrainingPeriod` uses the target index. */
  const TrainingPeriod := 10

  /** `run % text.size()`: the in-bounds index used for training in round `run`. */
  function SafeIndex(run: nat, size: int): (i: nat)
    requires size > 0
    ensures i < size && i <= run
  {
    run % size
  }

  /** When the text is no longer than the round cap, every in-bounds index trains some round. */
  lemma SafeIndexCoversText(size: int, p: nat)
    requires 0 < size <= MaxRounds && p < size
    ensures exists run: nat :: run < MaxRounds && SafeIndex(run, size) == p
  {
    assert p % size == p;
    assert p < MaxRounds && SafeIndex(p, size) == p;
  }

  /** Iteration `i` of the training loop uses the target index. */
  predicate PicksTarget(i: int)
  {
    (i + 1) % TrainingPeriod == 0
  }

  /** `((i + 1) % 10) ? safe_index : index`. */
  function LocalIndex(i: int, safe: int, index: int): int
  {
    if PicksTarget(i) then index else safe
  }

  /** How many of the first `n` training iterations use the target index. */
  function TargetPicks(n: nat): nat
  {
    if n == 0 then 0 else TargetPicks(n - 1) + (if PicksTarget(n - 1) then 1 else 0)
  }

  lemma {:induction false} TargetPicksCount(n: nat)
    ensures TargetPicks(n) == n / TrainingPeriod
  {
    if n > 0 {
      TargetPicksCount(n - 1);
    }
  }

  /**
   The training schedule: when the target differs from the safe index, an
   iteration uses the target exactly when `(i + 1) % 10 == 0`, which is 50 of
   the 500 iterations; the other 450 use the safe index.
   */
  lemma TrainingSchedule(safe: int, index: int)
    requires safe != index
    ensures forall i :: LocalIndex(i, safe, index) == index <==> PicksTarget(i)
    ensures TargetPicks(TrainingIterations) == 50
    ensures TrainingIterations - TargetPicks(TrainingIterations) == 450
  {
    TargetPicksCount(TrainingIterations);
  }

  /** The slots the first `n` iterations of the bounds-checked loop read architecturally. */
  function GatedSlots(n: nat, mem: seq<Char>, size: int, index: nat, safe: nat): set<int>
    requires safe < size <= |mem| && index < |mem|
  {
    if n == 0 then {}
    else
      var local := LocalIndex(n - 1, safe, index);
      GatedSlots(n - 1, mem, size, index, safe) + (if local < size then {mem[local] as int} else {})
  }

  lemma {:induction false} GatedSlotsWithin(n: nat, mem: seq<Char>, size: int, index: nat, safe: nat)
    requires safe < size <= |mem| && index < |mem|
    ensures GatedSlots(n, mem, size, index, safe) <= {mem[safe] as int} + (if index < size then {mem[index] as int} else {})
  {
    if n > 0 {
      GatedSlotsWithin(n - 1, mem, size, index, safe);
    }
  }

  lemma {:induction false} GatedSlotsGrow(m: nat, n: nat, mem: seq<Char>, size: int, index: nat, safe: nat)
    requires m <= n
    requires safe < size <= |mem| && index < |mem|
    ensures GatedSlots(m, mem, size, index, safe) <= GatedSlots(n, mem, size, index, safe)
  {
    if m < n {
      GatedSlotsGrow(m, n - 1, mem, size, index, safe);
    }
  }

  /**
   After the whole training loop the bounds check has let through the safe
   byte's slot, and the target byte's slot exactly when the target is in
   bounds: for an out-of-bounds target only the safe slot is read.
   */
  lemma TrainingSlots(mem: seq<Char>, size: int, index: nat, safe: nat)
    requires safe < size <= |mem| && index < |mem|
    ensures GatedSlots(TrainingIterations, mem, size, index, safe)
         == {mem[safe] as int} + (if index < size then {mem[index] as int} else {})
  {
    GatedSlotsWithin(TrainingIterations, mem, size, index, safe);
    GatedSlotsGrow(1, TrainingIterations, mem, size, index, safe);
    GatedSlotsGrow(TrainingPeriod, TrainingIterations, mem, size, index, safe);
    assert PicksTarget(TrainingPeriod - 1);
    assert GatedSlots(TrainingPeriod, mem, size, index, safe)
        == GatedSlots(TrainingPeriod - 1, mem, size, index, safe) + (if index < size then {mem[index] as int} else {});
  }

  /** The bounds-checked loop: `if (local_index < *size_in_heap) force_read(...)`, 500 times. */
  method Train(probe: ProbeArray, mem: seq<Char>, size: int, index: nat, safe: nat)
    requires probe.Valid()
    requires safe < size <= |mem| && index < |mem|
    requires 0 <= mem[safe] && (index < size ==> 0 <= mem[index])
    modifies probe
    ensures probe.Valid()
    ensures probe.cached == old(probe.cached) + GatedSlots(TrainingIterations, mem, size, index, safe)
  {
    for i := 0 to TrainingIterations
      invariant probe.Valid()
      invariant probe.cached == old(probe.cached) + GatedSlots(i, mem, size, index, safe)
    {
      var localIndex := if (i + 1) % TrainingPeriod != 0 then safe else index;
      if localIndex < size {
        probe.Touch(mem[localIndex]);
      }
    }
  }

  /** The slots cached when measuring starts: the direct reads and then the bounds-checked loop. */
  function EncodedSlots(mem: seq<Char>, size: int, index: nat, safe: nat): set<int>
    requires safe < size <= |mem| && index < |mem|
  {
    {mem[index] as int} + GatedSlots(TrainingIterations, mem, size, index, safe)
  }

  /**
   The unconditional reads put the target byte's slot in the cache whatever
   the bounds check decides, so before measuring exactly the target's and the
   safe byte's slots are cached, in bounds or not.
   */
  lemma EncodedSlotsAre(mem: seq<Char>, size: int, index: nat, safe: nat)
    requires safe < size <= |mem| && index < |mem|
    ensures EncodedSlots(mem, size, index, safe) == {mem[index] as int, mem[safe] as int}
  {
    TrainingSlots(mem, size, index, safe);
  }

  /** The scores after one round: every slot faster than the threshold gains a point, except `excluded`. */
  function ScoredExcluding(scores: seq<int>, lat: seq<int>, excluded: int): (r: seq<int>)
    requires |scores| == SlotCount && |lat| == SlotCount
    ensures |r| == SlotCount
  {
    seq(SlotCount, i requires 0 <= i < SlotCount =>
      if lat[i] < Threshold(lat) && i != excluded then scores[i] + 1 else scores[i])
  }

  /** The score step of one round, in place, skipping the slot of the safe byte. */
  method ScoreRound(scores: array<int>, latencies: array<Cycles>, excluded: int)
    requires scores.Length == SlotCount && latencies.Length == SlotCount
    modifies scores
    ensures forall i :: 0 <= i < SlotCount ==>
              scores[i] == old(scores[i]) + (if latencies[i] < Threshold(latencies[..]) && i != excluded then 1 else 0)
    ensures scores[..] == ScoredExcluding(old(scores[..]), latencies[..], excluded)
  {
    SumFitsInt64(latencies[..]);
    var avg := Sum(latencies[..]) / SlotCount;
    for i := 0 to SlotCount
      invariant forall k :: 0 <= k < i ==>
                  scores[k] == old(scores[k]) + (if latencies[k] < Threshold(latencies[..]) && k != excluded then 1 else 0)
      invariant forall k :: i <= k < SlotCount ==> scores[k] == old(scores[k])
    {
      if latencies[i] < avg * 3 / 4 && i != excluded {
        scores[i] := scores[i] + 1;
      }
    }
  }

  /** The score board after `rounds` rounds against the text `mem[..size]` and target `index`. */
  function ScoresAfter(rounds: nat, timer: Timer, mem: seq<Char>, size: int, index: nat): (s: seq<int>)
    requires 0 < size <= |mem| && index < |mem|
    ensures |s| == SlotCount
  {
    if rounds == 0 then Zeros()
    else
      var safe := SafeIndex(rounds - 1, size);
      ScoredExcluding(ScoresAfter(rounds - 1, timer, mem, size, index),
                      Sample(timer, rounds - 1, EncodedSlots(mem, size, index, safe)),
                      mem[safe])
  }

  /** Scores never decrease, and over `r2 - r1` rounds each rises by at most `r2 - r1`. */
  lemma {:induction false} ScoresMonotone(r1: nat, r2: nat, timer: Timer, mem: seq<Char>, size: int, index: nat)
    requires 0 < size <= |mem| && index < |mem|
    requires r1 <= r2
    ensures forall i :: 0 <= i < SlotCount ==>
              ScoresAfter(r1, timer, mem, size, index)[i] <= ScoresAfter(r2, timer, mem, size, index)[i]
                                                          <= ScoresAfter(r1, timer, mem, size, index)[i] + (r2 - r1)
  {
    if r1 < r2 {
      ScoresMonotone(r1, r2 - 1, timer, mem, size, index);
    }
  }

  /** After `rounds` rounds every score lies between 0 and `rounds`. */
  lemma {:induction false} ScoresBoundedByRounds(rounds: nat, timer: Timer, mem: seq<Char>, size: int, index: nat)
    requires 0 < size <= |mem| && index < |mem|
    ensures forall i :: 0 <= i < SlotCount ==> 0 <= ScoresAfter(rounds, timer, mem, size, index)[i] <= rounds
  {
    if rounds > 0 {
      ScoresBoundedByRounds(rounds - 1, timer, mem, size, index);
    }
  }

  /**
   `mem` holds the text's `size` bytes and the target byte at `index`, and
   every byte a round turns into a slot number is a non-negative `char`: the
   target byte and the text bytes that are the safe byte of one of the
   `MaxRounds` rounds.
   */
  predicate ReadsInProbe(mem: seq<Char>, size: int, index: nat)
  {
    && 0 < size <= |mem| && index < |mem|
    && 0 <= mem[index]
    && forall i :: 0 <= i < size && i < MaxRounds ==> 0 <= mem[i]
  }

  /** Flush every slot, then the direct reads of the target and the training loop. */
  method Encode(probe: ProbeArray, mem: seq<Char>, size: int, index: nat, safe: nat)
    requires probe.Valid()
    requires ReadsInProbe(mem, size, index) && safe < size && safe < MaxRounds
    modifies probe
    ensures probe.Valid()
    ensures probe.cached == EncodedSlots(mem, size, index, safe)
  {
    probe.FlushAll();
    DirectReads(probe, mem[index]);
    Train(probe, mem, size, index, safe);
  }

  /**
   One round and the decision after it: encode, measure, score, and pick the
   two best scores. The scores stay within the round count, so the early exit
   is not taken.
   */
  method PlayRound(probe: ProbeArray, latencies: array<Cycles>, scores: array<int>,
                   mem: seq<Char>, size: int, index: nat, timer: Timer, run: nat)
    returns (best: int, runnerUp: int, confident: bool)
    requires probe.Valid()
    requires ReadsInProbe(mem, size, index)
    requires latencies.Length == SlotCount && scores.Length == SlotCount
    requires run < MaxRounds && scores[..] == ScoresAfter(run, timer, mem, size, index)
    modifies probe, latencies, scores
    ensures probe.Valid()
    ensures scores[..] == ScoresAfter(run + 1, timer, mem, size, index)
    ensures IsSlot(best) && best == FirstMax(scores[..]) && !confident
    ensures forall s :: IsSlot(s) ==> s in probe.cached
  {
    var safe := SafeIndex(run, size);
    Encode(probe, mem, size, index, safe);
    Measure(probe, latencies, timer, run);
    ScoreRound(scores, latencies, mem[safe]);
    ghost var board := ScoresAfter(run + 1, timer, mem, size, index);
    assert scores[..] == board;
    ScoresBoundedByRounds(run + 1, timer, mem, size, index);
    assert forall i :: 0 <= i < SlotCount ==> 0 <= scores[i] <= MaxRounds by {
      forall i | 0 <= i < SlotCount
        ensures 0 <= scores[i] <= MaxRounds
      {
        assert scores[i] == board[i];
      }
    }
    best, runnerUp, confident := Decide(scores);
  }

  /**
   The round loop of `leak_byte`: up to `MaxRounds` rounds, each followed by
   the decision step. The early exit never fires, so every round is played
   and the winner is the first best-scoring slot after the last round.
   */
  method PlayRounds(probe: ProbeArray, mem: seq<Char>, size: int, index: nat, timer: Timer)
    returns (best: int, ghost rounds: nat)
    requires probe.Valid()
    requires ReadsInProbe(mem, size, index)
    modifies probe
    ensures probe.Valid()
    ensures rounds == MaxRounds
    ensures forall s :: IsSlot(s) ==> s in probe.cached
    ensures IsSlot(best) && best == FirstMax(ScoresAfter(MaxRounds, timer, mem, size, index))
  {
    var latencies := new Cycles[SlotCount](_ => 0);
    var scores := new int[SlotCount](_ => 0);
    best := 0;
    var runnerUp := 0;
    rounds := 0;
    var run := 0;
    while run < MaxRounds
      invariant 0 <= run <= MaxRounds && rounds == run
      invariant probe.Valid()
      invariant run > 0 ==> forall s :: IsSlot(s) ==> s in probe.cached
      modifies probe, latencies, scores
      invariant scores[..] == ScoresAfter(run, timer, mem, size, index)
      invariant IsSlot(best) && (run > 0 ==> best == FirstMax(scores[..]))
    {
      var confident;
      best, runnerUp, confident := PlayRound(probe, latencies, scores, mem, size, index, timer, run);
      rounds := rounds + 1;
      if confident {
        break;
      }
      run := run + 1;
    }
  }

  /**
   One call of `leak_byte`: `mem` is the memory from `&text[0]` on, `size`
   is `text.size()` and `index` may lie beyond it. The probe array is set
   to ones, all rounds are played, and the result is the first best-scoring
   slot after the last round, as a `char`.
   */
  method LeakByte(probe: ProbeArray, mem: seq<Char>, size: int, index: nat, timer: Timer) returns (c: Char)
    requires probe.Valid()
    requires ReadsInProbe(mem, size, index)
    modifies probe, probe.bytes
    ensures probe.Valid()
    ensures forall i :: 0 <= i < probe.bytes.Length ==> probe.bytes[i] == 1
    ensures forall s :: IsSlot(s) ==> s in probe.cached
    ensures c == ToChar(FirstMax(ScoresAfter(MaxRounds, timer, mem, size, index)))
  {
    probe.Reset();
    var best, rounds := PlayRounds(probe, mem, size, index, timer);
    c := ToChar(best);
  }

  /** How many of the first `rounds` rounds train on a safe byte that differs from the target byte. */
  function Unmasked(rounds: nat, mem: seq<Char>, size: int, index: nat): nat
    requires 0 < size <= |mem| && index < |mem|
  {
    if rounds == 0 then 0
    else
      Unmasked(rounds - 1, mem, size, index)
      + (if mem[SafeIndex(rounds - 1, size)] != mem[index] then 1 else 0)
  }

  /** Some of the first `rounds` rounds is unmasked exactly when one of them has a safe byte other than the target. */
  lemma {:induction false} UnmaskedSomeRound(rounds: nat, mem: seq<Char>, size: int, index: nat)
    requires 0 < size <= |mem| && index < |mem|
    ensures Unmasked(rounds, mem, size, index) > 0
            <==> exists run: nat :: run < rounds && mem[SafeIndex(run, size)] != mem[index]
  {
    if rounds > 0 {
      UnmaskedSomeRound(rounds - 1, mem, size, index);
      if mem[SafeIndex(rounds - 1, size)] != mem[index] {
        var run: nat := rounds - 1;
        assert run < rounds && mem[SafeIndex(run, size)] != mem[index];
      } else if Unmasked(rounds, mem, size, index) == 0 {
        forall run: nat | run < rounds
          ensures mem[SafeIndex(run, size)] == mem[index]
        {
        }
      }
    }
  }

  /**
   With a noiseless timer, the target's slot scores in every round whose
   safe byte differs from the target byte, and no other slot ever scores:
   in such a round the safe slot is cached but excluded, and in a round whose
   safe byte is the target byte the one cached slot is the excluded one. This
   holds for in-bounds and out-of-bounds targets alike.
   */
  lemma {:induction false} NoiselessScores(rounds: nat, hit: Cycles, miss: Cycles, mem: seq<Char>, size: int, index: nat)
    requires ReadsInProbe(mem, size, index) && rounds <= MaxRounds
    requires Detectable(hit, miss, 1) && Detectable(hit, miss, 2)
    ensures forall s :: 0 <= s < SlotCount ==>
              ScoresAfter(rounds, Noiseless(hit, miss), mem, size, index)[s]
              == if s == mem[index] then Unmasked(rounds, mem, size, index) else 0
  {
    if rounds > 0 {
      NoiselessScores(rounds - 1, hit, miss, mem, size, index);
      var safe := SafeIndex(rounds - 1, size);
      EncodedSlotsAre(mem, size, index, safe);
      if mem[safe] != mem[index] {
        HitsBelowTwo(SlotCount, mem[index], mem[safe]);
      } else {
        assert EncodedSlots(mem, size, index, safe) == {mem[index] as int};
        HitsBelowOne(SlotCount, mem[index]);
      }
      NoiselessRoundScoresCached(hit, miss, rounds - 1, EncodedSlots(mem, size, index, safe));
    }
  }

  /** With a noiseless timer, `leak_byte` returns the target byte as soon as one round is unmasked. */
  lemma NoiselessRecovery(hit: Cycles, miss: Cycles, mem: seq<Char>, size: int, index: nat)
    requires ReadsInProbe(mem, size, index)
    requires Detectable(hit, miss, 1) && Detectable(hit, miss, 2)
    requires Unmasked(MaxRounds, mem, size, index) > 0
    ensures ToChar(FirstMax(ScoresAfter(MaxRounds, Noiseless(hit, miss), mem, size, index))) == mem[index]
  {
    var s := ScoresAfter(MaxRounds, Noiseless(hit, miss), mem, size, index);
    NoiselessScores(MaxRounds, hit, miss, mem, size, index);
    assert IsFirstMax(s, mem[index]);
    FirstMaxUnique(s, mem[index]);
  }

  /**
   The exclusion's blind spot: with a noiseless timer, when every round's
   safe byte is the target byte, nothing ever scores and `leak_byte` returns
   slot 0, the NUL character.
   */
  lemma MaskedTargetLeaksNul(hit: Cycles, miss: Cycles, mem: seq<Char>, size: int, index: nat)
    requires ReadsInProbe(mem, size, index)
    requires Detectable(hit, miss, 1) && Detectable(hit, miss, 2)
    requires Unmasked(MaxRounds, mem, size, index) == 0
    ensures ToChar(FirstMax(ScoresAfter(MaxRounds, Noiseless(hit, miss), mem, size, index))) == 0
  {
    var s := ScoresAfter(MaxRounds, Noiseless(hit, miss), mem, size, index);
    NoiselessScores(MaxRounds, hit, miss, mem, size, index);
    assert IsFirstMax(s, 0);
    FirstMaxUnique(s, 0);
  }

  /** A text made of the target byte alone masks every round. */
  lemma {:induction false} MaskedTargetUnmaskedNone(rounds: nat, mem: seq<Char>, size: int, index: nat)
    requires 0 < size <= |mem| && index < |mem|
    requires forall i :: 0 <= i < size ==> mem[i] == mem[index]
    ensures Unmasked(rounds, mem, size, index) == 0
  {
    if rounds > 0 {
      MaskedTargetUnmaskedNone(rounds - 1, mem, size, index);
    }
  }

  /** An in-bounds target: from the text "AB", target index 0 leaks 'A', since round 1 trains on 'B'. */
  lemma InBoundsRecovery(hit: Cycles, miss: Cycles)
    requires Detectable(hit, miss, 1) && Detectable(hit, miss, 2)
    ensures ToChar(FirstMax(ScoresAfter(MaxRounds, Noiseless(hit, miss), [65, 66], 2, 0))) == 65
  {
    var mem: seq<Char> := [65, 66];
    assert mem[SafeIndex(1, 2)] != mem[0];
    UnmaskedSomeRound(MaxRounds, mem, 2, 0);
    NoiselessRecovery(hit, miss, mem, 2, 0);
  }

  /**
   With a noiseless timer, `leak_byte` returns the target byte exactly when
   some round is unmasked or the target byte is NUL, which a fully masked
   call returns anyway.
   */
  lemma NoiselessLeaksTarget(hit: Cycles, miss: Cycles, mem: seq<Char>, size: int, index: nat)
    requires ReadsInProbe(mem, size, index)
    requires Detectable(hit, miss, 1) && Detectable(hit, miss, 2)
    ensures ToChar(FirstMax(ScoresAfter(MaxRounds, Noiseless(hit, miss), mem, size, index))) == mem[index]
            <==> Unmasked(MaxRounds, mem, size, index) > 0 || mem[index] == 0
  {
    if Unmasked(MaxRounds, mem, size, index) > 0 {
      NoiselessRecovery(hit, miss, mem, size, index);
    } else {
      MaskedTargetLeaksNul(hit, miss, mem, size, index);
    }
  }

  /**
   For a text of at most `MaxRounds` bytes every byte is some round's safe
   byte, so a call with no unmasked round has a text made only of the target
   byte: the converse of `MaskedTargetUnmaskedNone`.
   */
  lemma MaskedTargetOnlyWhenTextIsTarget(mem: seq<Char>, size: int, index: nat)
    requires 0 < size <= |mem| && index < |mem| && size <= MaxRounds
    requires Unmasked(MaxRounds, mem, size, index) == 0
    ensures forall i :: 0 <= i < size ==> mem[i] == mem[index]
  {
    UnmaskedSomeRound(MaxRounds, mem, size, index);
    forall p | 0 <= p < size
      ensures mem[p] == mem[index]
    {
      SafeIndexCoversText(size, p);
    }
  }
}
