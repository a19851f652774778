# Cache-timing byte oracle

A model of the bookkeeping in the two `leak_byte` routines of a Spectre /
FLUSH+RELOAD demonstration: the plain cache side channel
(`side_channel/side_channel.cpp`) and the speculative, bounds-check-bypass
variant (`spectre_v1/spectre_v1.cpp`), together with the `top_two_indices`
scan both of them use.

Each call of `leak_byte` plays up to 100 rounds. A round flushes a probe
array of 256 slots (one per byte value, 512 bytes apart), reads the slot
named by the target byte, times one read of every slot in a fixed
pseudo-random order, and gives a point to every slot read faster than
three quarters of the mean latency. After each round the two best scores
are compared against an early-exit margin. The speculative variant also runs a
500-step bounds-checked training loop each round, and it does not score the
slot of that round's in-bounds training byte.

The hardware is abstracted:

- The cache is the set of probe slots read or written since they were last
  flushed (`Probe.ProbeArray.cached`).
- The cycle counter is a `Timer`: a function of the round, the slot, and
  whether the slot was cached just before it was read. Noise is whatever
  that function does with the round and slot.
- Memory from `&text[0]` on is a sequence of signed `char`s, long enough to
  hold the target byte, which may lie past the end of the text.

Modules:

- `Probe` (`probe.dfy`): the static `timing_array` as a class; flush, read,
  and the `memset` reset; the probe order and its inverse; the measure loop;
  the secret-dependent read loop.
- `Scoring` (`scoring.dfy`): the latency sum and the hit threshold;
  `top_two_indices` and its reference definition `FirstMax`; the early-exit
  test; the final conversion to `char`.
- `NoiselessTiming` (`noiseless.dfy`): an ideal timer with fixed hit and
  miss latencies. Under it, a slot scores exactly when it was cached.
- `SideChannel` (`side_channel.dfy`) and `SpectreV1` (`spectre_v1.dfy`): the
  two `leak_byte` routines. Each round is specified by a score-board function
  `ScoresAfter`, and the result is proved to be the first maximum of the
  board after round 100.

`top_two_indices` and the probe, flush, direct-read, and measure code are
the same text in both sources. They are modelled once, and the rows below cite
`side_channel.cpp`. The same lines are `spectre_v1.cpp:42-55` for
`top_two_indices`, 69-70 for the array and its reset, 81-82 for the flush,
88-89 for the direct reads, and 111-117 for the measure loop.

What the proofs show beyond the comments in the source:

- The comment at `side_channel.cpp:133` (and `spectre_v1.cpp:126`) speaks
  of stopping once one score is significantly better than the rest, but the
  early exit never fires. A score rises by at most one per round, so no
  score exceeds 100, and `best > 2 * runnerUp + 400` cannot hold. Every call
  plays all 100 rounds.
- The comments at `spectre_v1.cpp:97-104` rely on speculation to leak an
  out-of-bounds byte, but the speculative variant does not depend on
  speculation to reach its target. Besides the bounds-checked training
  loop, it reads `data[index]` directly, 100 times per round, with no bounds check
  (`spectre_v1.cpp:88-89`). So the target's slot is cached architecturally
  whether or not the index is in bounds (`SpectreV1.EncodedSlotsAre`).
- In the speculative variant, the scoring step leaves out the slot of the
  round's safe byte. In a round whose safe byte equals the target byte, the
  target cannot score. With an ideal timer, the result is the target byte
  when some round has a different safe byte. Otherwise the result is
  `char(0)`, which is the target only when the target byte is NUL
  (`SpectreV1.NoiselessLeaksTarget`). For a text of at most 100 bytes, the
  second case means the text consists of the target byte alone
  (`SpectreV1.MaskedTargetOnlyWhenTextIsTarget`).

## Model

| member | source | states |
|---|---|---|
| Probe.ProbeArray.constructor | side_channel/side_channel.cpp:94 | The static probe array holds 256 * 512 bytes, all zero, and no slot is cached. |
| Probe.ProbeArray.Reset | side_channel/side_channel.cpp:95 | After the `memset`, every byte of the probe array is 1 and every slot, having been written, is cached. |
| Probe.ProbeArray.Flush | side_channel/side_channel.cpp:106 | Flushing a slot removes exactly that slot from the cached set. |
| Probe.ProbeArray.FlushAll | side_channel/side_channel.cpp:105-106 | After the flush loop, no slot is cached. |
| Probe.ProbeArray.Touch | side_channel/side_channel.cpp:33-40 | A read of slot `s` at offset `s * 512` is in bounds, and it caches exactly that slot. |
| Probe.UnmixMix | side_channel/side_channel.cpp:117 | `((i * 167) + 13) & 0xff` maps 0..255 into 0..255, and multiplying by 23 after subtracting 13 undoes it. |
| Probe.MixUnmix | side_channel/side_channel.cpp:117 | Every slot is `mixed_i` for the position computed by the inverse map. |
| Probe.ProbeOrderInjective | side_channel/side_channel.cpp:116-117 | Two different steps of the measure loop never measure the same slot. |
| Probe.ProbeOrderCoversAllSlots | side_channel/side_channel.cpp:116-117 | The 256 steps of the measure loop measure every slot, so the probe order is a permutation. |
| Probe.Measure | side_channel/side_channel.cpp:116-123 | Each `latencies[s]` is written once, with the timing of slot `s` as cached or not before the loop began; afterwards every slot is cached. |
| Probe.DirectReads | side_channel/side_channel.cpp:110-111 | The 100 data-dependent reads add exactly the target byte's slot to the cached set. |
| Scoring.SumBounded | side_channel/side_channel.cpp:126 | The accumulated latencies are non-negative and at most the count times the latency bound. |
| Scoring.SumFitsInt64 | side_channel/side_channel.cpp:126 | The sum of one round's 256 latencies fits a signed 64-bit accumulator, so `std::accumulate` does not wrap. |
| Scoring.FirstMaxIsFirstMax | side_channel/side_channel.cpp:48-60 | The reference definition picks an index whose value is at least every other value and strictly above every value before it. |
| Scoring.FirstMaxUnique | side_channel/side_channel.cpp:48-60 | Any index that is the first maximum is the one the reference definition picks. |
| Scoring.TopTwoIndices | side_channel/side_channel.cpp:47-60 | `j` is the first index of the maximum. `k == j` exactly when the maximum is at index 0. Otherwise `k` is the first index other than `j` holding the largest value outside `j`. An empty range gives `(0, 0)`. |
| Scoring.NeverConfidentWithinCap | side_channel/side_channel.cpp:135 | A best score of at most 100 never exceeds twice a non-negative runner-up plus 400. |
| Scoring.Decide | side_channel/side_channel.cpp:134-136 | With every score in 0..100, the best index is the first maximum, the runner-up is a runner-up to it that equals it exactly when the best index is 0, and the early exit is not taken. |
| Scoring.ToChar | side_channel/side_channel.cpp:148 | `char(best_value)` is the signed `char` congruent to the slot number modulo 256. |
| NoiselessTiming.SumNoiselessPrefix | side_channel/side_channel.cpp:126 | Under a noiseless timer, the latency sum is `hit` per cached slot plus `miss` per other slot. |
| NoiselessTiming.NoiselessRoundScoresCached | side_channel/side_channel.cpp:126-131 | With one or two cached slots and a hit latency below the threshold, a slot is below the threshold exactly when it was cached. |
| SideChannel.ScoreRound | side_channel/side_channel.cpp:126-131 | Each score rises by one exactly when its latency is below three quarters of the integer mean, and is otherwise unchanged. |
| SideChannel.ScoresMonotone | side_channel/side_channel.cpp:103-131 | Scores never decrease, and between rounds `r1` and `r2` each rises by at most `r2 - r1`. |
| SideChannel.ScoresBoundedByRounds | side_channel/side_channel.cpp:103-131 | After `r` rounds, every score is between 0 and `r`. |
| SideChannel.PlayRound | side_channel/side_channel.cpp:104-136 | One round takes the score board from round `run` to round `run + 1` and leaves every slot cached; the best index is then the board's first maximum, and the early exit is not taken. |
| SideChannel.PlayRounds | side_channel/side_channel.cpp:99-137 | The round loop plays all 100 rounds and leaves every slot cached, and the best index is the first maximum of the board after round 100. |
| SideChannel.LeakByte | side_channel/side_channel.cpp:89-148 | The probe array ends with every byte 1 and every slot cached, and the result is `char` of the first maximum of the score board after 100 rounds. |
| SideChannel.NoiselessScores | side_channel/side_channel.cpp:103-131 | Under a noiseless timer whose hits clear the threshold, after `r` rounds the secret's slot scores `r` and every other slot 0. |
| SideChannel.NoiselessRecovery | side_channel/side_channel.cpp:89-148 | Under such a timer, `leak_byte` returns the secret byte. |
| SpectreV1.SafeIndex | spectre_v1/spectre_v1.cpp:84 | `run % text.size()` is in bounds for a non-empty text, and at most `run`. |
| SpectreV1.SafeIndexCoversText | spectre_v1/spectre_v1.cpp:79-84 | For a text of at most 100 bytes, every in-bounds index is the safe index of some round. |
| SpectreV1.TargetPicksCount | spectre_v1/spectre_v1.cpp:91-105 | Among the first `n` training iterations, `n / 10` choose the target index. |
| SpectreV1.TrainingSchedule | spectre_v1/spectre_v1.cpp:91-105 | An iteration uses the target exactly when `(i + 1) % 10 == 0`: 50 of the 500 iterations, with 450 using the safe index. |
| SpectreV1.GatedSlotsWithin | spectre_v1/spectre_v1.cpp:105-107 | The bounds-checked reads touch only the safe byte's slot, and the target's slot only when the target is in bounds. |
| SpectreV1.TrainingSlots | spectre_v1/spectre_v1.cpp:91-108 | The whole training loop touches exactly the safe byte's slot, plus the target's slot when `index < size`. |
| SpectreV1.Train | spectre_v1/spectre_v1.cpp:91-108 | The training loop adds to the cached set exactly the slots its bounds check lets through. |
| SpectreV1.EncodedSlotsAre | spectre_v1/spectre_v1.cpp:88-108 | Before measuring, exactly the target byte's and the safe byte's slots are cached, whether or not the target is in bounds. |
| SpectreV1.Encode | spectre_v1/spectre_v1.cpp:81-108 | Flush, direct reads and training leave exactly the encoded slots cached. |
| SpectreV1.ScoreRound | spectre_v1/spectre_v1.cpp:119-124 | The safe byte's slot never gains a point; every other score rises by one exactly when its latency is below the threshold. |
| SpectreV1.ScoresMonotone | spectre_v1/spectre_v1.cpp:79-124 | Scores never decrease, and between rounds `r1` and `r2` each rises by at most `r2 - r1`. |
| SpectreV1.ScoresBoundedByRounds | spectre_v1/spectre_v1.cpp:79-124 | After `r` rounds, every score is between 0 and `r`. |
| SpectreV1.PlayRound | spectre_v1/spectre_v1.cpp:80-129 | One round takes the score board from round `run` to round `run + 1` and leaves every slot cached; the best index is then the board's first maximum, and the early exit is not taken. |
| SpectreV1.PlayRounds | spectre_v1/spectre_v1.cpp:75-130 | The round loop plays all 100 rounds and leaves every slot cached, and the best index is the first maximum of the board after round 100. |
| SpectreV1.LeakByte | spectre_v1/spectre_v1.cpp:64-132 | The probe array ends with every byte 1 and every slot cached, and the result is `char` of the first maximum of the score board after 100 rounds. |
| SpectreV1.UnmaskedSomeRound | spectre_v1/spectre_v1.cpp:84 | Some round is unmasked exactly when some round's safe byte `data[run % size]` differs from the target byte. |
| SpectreV1.NoiselessScores | spectre_v1/spectre_v1.cpp:79-124 | Under a noiseless timer, after `r` rounds the target's slot has scored once per round whose safe byte differs from it, and every other slot is 0, whether the target is in bounds or not. |
| SpectreV1.NoiselessRecovery | spectre_v1/spectre_v1.cpp:64-132 | Under such a timer, `leak_byte` returns the target byte whenever at least one of the 100 rounds is unmasked. |
| SpectreV1.MaskedTargetLeaksNul | spectre_v1/spectre_v1.cpp:119-132 | When no round is unmasked, nothing ever scores and `leak_byte` returns `char(0)`, which is the target byte only when the target is NUL. |
| SpectreV1.NoiselessLeaksTarget | spectre_v1/spectre_v1.cpp:64-132 | Under a noiseless timer, `leak_byte` returns the target byte exactly when some round is unmasked or the target byte is NUL. |
| SpectreV1.MaskedTargetUnmaskedNone | spectre_v1/spectre_v1.cpp:84 | A text made only of the target byte masks every round. |
| SpectreV1.MaskedTargetOnlyWhenTextIsTarget | spectre_v1/spectre_v1.cpp:79-84 | Conversely, for a text of at most 100 bytes, if every round is masked then every text byte is the target byte. |
| SpectreV1.InBoundsRecovery | spectre_v1/spectre_v1.cpp:64-132 | An in-bounds target is recovered as well: text "AB" with index 0 leaks 'A'. |

## Left out

- `_mm_clflush`, `__rdtscp` and the inline-assembly `force_read` are hardware intrinsics. A flush removes a slot from the cached set, a read adds one, and every timing comes from the `Timer` parameter.
- The timer sees only the round, the slot, and whether the slot was cached. Prefetching, eviction by other data, and effects of measuring one slot on later slots are not modelled.
- Speculative execution and branch-predictor training are not modelled. The bounds check at `spectre_v1.cpp:106` is an ordinary `if`, so only its architectural reads appear.
- The `_mm_clflush(size_in_heap)` in the training loop only slows down the bounds check, and the `new int` holding the size is never freed. The model keeps the size as a plain value.
- Latencies are modelled as below 2^55 cycles, so 256 of them never overflow an `int64_t` accumulator. `spectre_v1.cpp:120` accumulates in `uint64_t` and converts to `int64_t`, which gives the same value for such sums.
- Bytes above 127 are negative `char`s, and they would make `data[index] * stride` point before the probe array. `LeakByte`, `PlayRound` and `Train` require every byte used as a slot number to be non-negative. In the speculative variant these are the target byte and the text bytes at positions below 100, which are the only ones that can be a safe byte.
- An empty text makes `run % text.size()` (`spectre_v1.cpp:84`) divide by zero. The speculative model requires a non-empty text.
- Latencies are modelled as non-negative. A negative `read_tsc() - start` would make C++'s truncating `/ 256` and the `uint64_t` accumulation at `spectre_v1.cpp:120` differ from the model's sum and division.
- A negative `index` is not modelled. The spectre model takes `index` as a `nat`.
- `ToChar` follows the modulo-256 conversion that C++20 fixes. Older standards leave it implementation-defined for values above 127.
- Both `main` drivers are console output loops. The spectre driver's index range depends on the linker placing string literals next to each other.
- `leak/leak.cpp` is command-line parsing and bounds-checking glue around `leak_byte`. It is not part of this model.
- The `#if 0` debug printing at `side_channel.cpp:139-146` is not modelled.
- The ghost `rounds` result of `PlayRounds` counts completed rounds. It is not a variable of the source.
