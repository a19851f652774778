/**
 `leak_byte` of the plain cache side channel: each round flushes the probe
 array, reads the slot of the secret byte, times a read of every slot, scores
 the fast ones and picks the two best scores.
 */
module SideChannel {
  import opened Probe
  import opened Scoring
  import opened NoiselessTiming

  /** The scores after one round: every slot faster than the threshold gains a point. */
  function Scored(scores: seq<int>, lat: seq<int>): (r: seq<int>)
    requires |scores| == SlotCount && |lat| == SlotCount
    ensures |r| == SlotCount
  {
    seq(SlotCount, i requires 0 <= i < SlotCount => if lat[i] < Threshold(lat) then scores[i] + 1 else scores[i])
  }

  /** The score step of one round, in place. */
  method ScoreRound(scores: array<int>, latencies: array<Cycles>)
    requires scores.Length == SlotCount && latencies.Length == SlotCount
    modifies scores
    ensures forall i :: 0 <= i < SlotCount ==>
              scores[i] == old(scores[i]) + (if latencies[i] < Threshold(latencies[..]) then 1 else 0)
    ensures scores[..] == Scored(old(scores[..]), latencies[..])
  {
    SumFitsInt64(latencies[..]);
    var avg := Sum(latencies[..]) / SlotCount;
    for i := 0 to SlotCount
      invariant forall k :: 0 <= k < i ==>
                  scores[k] == old(scores[k]) + (if latencies[k] < Threshold(latencies[..]) then 1 else 0)
      invariant forall k :: i <= k < SlotCount ==> scores[k] == old(scores[k])
    {
      if latencies[i] < avg * 3 / 4 {
        scores[i] := scores[i] + 1;
      }
    }
  }

  /** The score board after `rounds` rounds in which only the slot `secret` was read before measuring. */
  function ScoresAfter(rounds: nat, timer: Timer, secret: int): (s: seq<int>)
    ensures |s| == SlotCount
  {
    if rounds == 0 then Zeros()
    else Scored(ScoresAfter(rounds - 1, timer, secret), Sample(timer, rounds - 1, {secret}))
  }

  /** Scores never decrease, and over `r2 - r1` rounds each rises by at most `r2 - r1`. */
  lemma {:induction false} ScoresMonotone(r1: nat, r2: nat, timer: Timer, secret: int)
    requires r1 <= r2
    ensures forall i :: 0 <= i < SlotCount ==>
              ScoresAfter(r1, timer, secret)[i] <= ScoresAfter(r2, timer, secret)[i]
                                                <= ScoresAfter(r1, timer, secret)[i] + (r2 - r1)
  {
    if r1 < r2 {
      ScoresMonotone(r1, r2 - 1, timer, secret);
    }
  }

  /** After `rounds` rounds every score lies between 0 and `rounds`. */
  lemma {:induction false} ScoresBoundedByRounds(rounds: nat, timer: Timer, secret: int)
    ensures forall i :: 0 <= i < SlotCount ==> 0 <= ScoresAfter(rounds, timer, secret)[i] <= rounds
  {
    if rounds > 0 {
      ScoresBoundedByRounds(rounds - 1, timer, secret);
    }
  }

  /**
   One round and the decision after it: flush, read the secret's slot,
   measure, score, and pick the two best scores. The scores stay within the
   round count, so the early exit is not taken.
   */
  method PlayRound(probe: ProbeArray, latencies: array<Cycles>, scores: array<int>, secret: int, timer: Timer, run: nat)
    returns (best: int, runnerUp: int, confident: bool)
    requires probe.Valid()
    requires 0 <= secret < SlotCount
    requires latencies.Length == SlotCount && scores.Length == SlotCount
    requires run < MaxRounds && scores[..] == ScoresAfter(run, timer, secret)
    modifies probe, latencies, scores
    ensures probe.Valid()
    ensures scores[..] == ScoresAfter(run + 1, timer, secret)
    ensures IsSlot(best) && best == FirstMax(scores[..]) && !confident
    ensures forall s :: IsSlot(s) ==> s in probe.cached
  {
    probe.FlushAll();
    DirectReads(probe, secret);
    assert probe.cached == {secret};
    Measure(probe, latencies, timer, run);
    ScoreRound(scores, latencies);
    ghost var board := ScoresAfter(run + 1, timer, secret);
    assert scores[..] == board;
    ScoresBoundedByRounds(run + 1, timer, secret);
    assert forall i :: 0 <= i < SlotCount ==> 0 <= scores[i] <= MaxRounds by {
      forall i | 0 <= i < SlotCount
        ensures 0 <= scores[i] <= MaxRounds
      {
        assert scores[i] == board[i];
      }
    }
    best, runnerUp, confident := Decide(scores);
  }

  /**
   The round loop of `leak_byte`: up to `MaxRounds` rounds, each followed by
   the decision step. The early exit never fires, so every round is played
   and the winner is the first best-scoring slot after the last round.
   */
  method PlayRounds(probe: ProbeArray, secret: int, timer: Timer) returns (best: int, ghost rounds: nat)
    requires probe.Valid()
    requires 0 <= secret < SlotCount
    modifies probe
    ensures probe.Valid()
    ensures rounds == MaxRounds
    ensures forall s :: IsSlot(s) ==> s in probe.cached
    ensures IsSlot(best) && best == FirstMax(ScoresAfter(MaxRounds, timer, secret))
  {
    var latencies := new Cycles[SlotCount](_ => 0);
    var scores := new int[SlotCount](_ => 0);
    best := 0;
    var runnerUp := 0;
    rounds := 0;
    var run := 0;
    while run < MaxRounds
      invariant 0 <= run <= MaxRounds && rounds == run
      invariant probe.Valid()
      invariant run > 0 ==> forall s :: IsSlot(s) ==> s in probe.cached
      modifies probe, latencies, scores
      invariant scores[..] == ScoresAfter(run, timer, secret)
      invariant IsSlot(best) && (run > 0 ==> best == FirstMax(scores[..]))
    {
      var confident;
      best, runnerUp, confident := PlayRound(probe, latencies, scores, secret, timer, run);
      rounds := rounds + 1;
      if confident {
        break;
      }
      run := run + 1;
    }
  }

  /**
   One call of `leak_byte`: `mem` is the memory from `&text[0]` on, `index`
   the byte to leak. The probe array is set to ones, all rounds are played,
   and the result is the first best-scoring slot after the last round, as a
   `char`.
   */
  method LeakByte(probe: ProbeArray, mem: seq<Char>, index: int, timer: Timer) returns (c: Char)
    requires probe.Valid()
    requires 0 <= index < |mem| && 0 <= mem[index]
    modifies probe, probe.bytes
    ensures probe.Valid()
    ensures forall i :: 0 <= i < probe.bytes.Length ==> probe.bytes[i] == 1
    ensures forall s :: IsSlot(s) ==> s in probe.cached
    ensures c == ToChar(FirstMax(ScoresAfter(MaxRounds, timer, mem[index])))
  {
    probe.Reset();
    var best, rounds := PlayRounds(probe, mem[index], timer);
    c := ToChar(best);
  }

  /**
   With a noiseless timer whose hits clear the threshold, the secret slot
   scores in every round and no other slot ever scores.
   */
  lemma {:induction false} NoiselessScores(rounds: nat, hit: Cycles, miss: Cycles, secret: int)
    requires 0 <= secret < SlotCount
    requires Detectable(hit, miss, 1)
    ensures forall i :: 0 <= i < SlotCount ==>
              ScoresAfter(rounds, Noiseless(hit, miss), secret)[i] == if i == secret then rounds else 0
  {
    if rounds > 0 {
      NoiselessScores(rounds - 1, hit, miss, secret);
      HitsBelowOne(SlotCount, secret);
      NoiselessRoundScoresCached(hit, miss, rounds - 1, {secret});
    }
  }

  /** With a noiseless timer, `leak_byte` returns the secret byte. */
  lemma NoiselessRecovery(hit: Cycles, miss: Cycles, mem: seq<Char>, index: int)
    requires 0 <= index < |mem| && 0 <= mem[index]
    requires Detectable(hit, miss, 1)
    ensures ToChar(FirstMax(ScoresAfter(MaxRounds, Noiseless(hit, miss), mem[index]))) == mem[index]
  {
    var s := ScoresAfter(MaxRounds, Noiseless(hit, miss), mem[index]);
    NoiselessScores(MaxRounds, hit, miss, mem[index]);
    assert IsFirstMax(s, mem[index]);
    FirstMaxUnique(s, mem[index]);
  }
}
