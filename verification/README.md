# pcmemtest memory-test algorithms in Dafny

This project models three memory tests of pcmemtest together with the
helpers they share. The tests are the moving inversions test with fixed
patterns, the moving inversions test with a walking one, and the bit fade
test. Each test is written as a pure function over an abstract memory
(`map<nat, bv64>` from word address to test word). It yields the final
memory, the list of `data_error` reports `(address, expected, actual, true)`
it issued, and the tick count it returns.

The model is of the 64-bit build, where `testword_t` is 64 bits wide. The
fixed-pattern init pass is the x86_64 `rep stosq` path. The portable fill
loop is modelled beside it and proved equivalent for non-empty chunks.
On an empty chunk the two differ (see "## Left out").

The modules follow the program's structure:

- `Helpers` holds `SPIN_SIZE`, the test word, and `round_down`/`round_up`
  of `tests/test_helper.h` as bit-vector functions.
- `Walker` holds the forward and reverse stride loops. Every test repeats
  them. Each is a function producing the list of `(lo, hi)` strides, and a
  loop method replays the C loop turn by turn.
- `Memory` covers one visit to a word: read, compare, report, store. A
  sequence of visits is compared against a reference definition of the
  reports (`Mismatches`).
- `Rotation` holds the walking-one pattern: one-bit rotations and their
  inverses.
- `Engine` is the loop body all tests share. It counts one tick per stride
  and skips memory for a negative vcpu (the `continue`). After each stride
  it polls the bail flag, and `BAILOUT` stops the test. The bail flag is an
  oracle: a sequence of booleans, indexed by how many polls the test has
  made.
- `Passes` covers a pass over the memory map. It is one walk per chunk,
  bottom-up in map order or top-down in reverse map order.
- `MovInvFixed`, `MovInvWalk1` and `BitFade` hold the three tests.
  `test_bit_fade` gets its `static last_stage` passed in and handed back.
  Each moving inversions test also exists with its top-down loop exactly
  as written; the Findings section says where the two differ.

Chunk bounds are inputs. They are inclusive word ranges, as
`calculate_chunk` and `vm_map` provide them. The properties about whole
passes assume non-empty chunks in ascending, non-overlapping address order
(`Passes.Ordered`). They fail on an empty chunk [a + 1, a]: the do-while
loops still make one stride there and visit a word outside the chunk
(`MovInvFixed.FalseReportOnEmptyChunk`, `MovInvWalk1.FalseReportOnEmptyChunk`).

## Model

| member | source | states |
|---|---|---|
| Helpers.RoundDown | tests/test_helper.h:36-39 | Definition: `value & ~(align - 1)` on 64-bit words. No requires. Its properties are the Helpers lemmas below. |
| Helpers.RoundUp | tests/test_helper.h:44-47 | Definition: `(value + (align - 1)) & ~(align - 1)` on 64-bit words, so the sum wraps around. No requires. |
| Helpers.RoundDownBounds | tests/test_helper.h:36-39 | For a power-of-two alignment a, round_down(v, a) has every bit below a clear (the mask form of a multiple of a), is at most v, and lies less than a below v. |
| Helpers.RoundUpBounds | tests/test_helper.h:44-47 | For a power-of-two alignment a, round_up(v, a) has every bit below a clear. When v + a - 1 does not overflow, it is at least v and less than a above v. |
| Helpers.WordAlignmentIsDivisibility | tests/test_helper.h:36-47 | For the test-word alignment of 8 that every chunk is computed with, clear low bits are exactly divisibility by 8, and both helpers return a value divisible by 8. |
| Helpers.RoundingIdempotent | tests/test_helper.h:36-47 | Rounding down an already rounded-down value changes nothing, for any alignment. For a power-of-two alignment, the same holds for rounding up. |
| Helpers.RoundingFixesMultiples | tests/test_helper.h:36-47 | A value whose bits below the alignment are clear is left unchanged by round_down, for any alignment. It is left unchanged by round_up for a power-of-two alignment. |
| Helpers.RoundingSandwich | tests/test_helper.h:36-47 | For a power-of-two alignment a, and when v + a - 1 does not overflow: round_down(v) <= v <= round_up(v), and the two agree exactly when the bits of v below the alignment are clear. |
| Helpers.RoundUpCarries | tests/test_helper.h:36-47 | For a power-of-two alignment, and a value with some bit below the alignment set, round_up is exactly one alignment above round_down. |
| Walker.ForwardStrides | tests/mov_inv_fixed.c:48-56 | Definition: the strides of the forward do-while, one per turn, each [pe, pe + SPIN_SIZE - 1] until fewer than SPIN_SIZE words remain, then [pe, end]. No requires. |
| Walker.ForwardEnds | tests/mov_inv_fixed.c:48-56 | The forward walk starts at `start` and its last stride ends at `end`. An empty chunk yields the single stride the do-while always makes. |
| Walker.ForwardShape | tests/mov_inv_fixed.c:48-56 | The strides are consecutive. Stride i starts i * SPIN_SIZE words after `start`. Every stride but the last holds exactly SPIN_SIZE words and ends before `end`. The last stride holds 1 to SPIN_SIZE words. |
| Walker.ForwardWithinRange | tests/mov_inv_fixed.c:49-56 | Every stride lies within [start, end], so `pe` never passes `end`. Every `++pe` that continues the loop lands strictly inside the address space, so the loop's NULL test never fires. |
| Walker.ForwardCount | tests/mov_inv_fixed.c:49-56 | A forward walk over n > 0 words takes ceil(n / SPIN_SIZE) strides. |
| Walker.ForwardCovers | tests/mov_inv_fixed.c:105-127 | The inner loops of the forward walk visit every word of [start, end] exactly once, in ascending order. |
| Walker.ReverseStrides | tests/mov_inv_fixed.c:138-145 | Definition: the strides of the reverse do-while without the `--ps` NULL test (the corrected walk). No requires. |
| Walker.ReverseStridesAsWritten | tests/mov_inv_fixed.c:137-160 | Definition: the strides of the reverse do-while including the `--ps` NULL test. No requires. |
| Walker.ReverseEnds | tests/mov_inv_fixed.c:138-145 | The reverse walk starts at `end` and its last stride ends at `start`. |
| Walker.ReverseShape | tests/mov_inv_fixed.c:138-145 | The reverse strides tile the range from the top. Every stride but the last holds SPIN_SIZE words and starts above `start`. The last stride holds 1 to SPIN_SIZE words. |
| Walker.ReverseWithinRange | tests/mov_inv_fixed.c:140-144 | Every reverse stride lies within [start, end], so `ps` never goes below `start`. |
| Walker.ReverseCount | tests/mov_inv_fixed.c:138-145 | A reverse walk over n > 0 words takes ceil(n / SPIN_SIZE) strides. |
| Walker.SameStrideCount | tests/mov_inv_fixed.c:138-145 | The reverse walk of a chunk takes as many strides as the forward walk of the same chunk, including an empty chunk. |
| Walker.ReverseCovers | tests/mov_inv_fixed.c:134-160 | Without the NULL test, the inner loops of the reverse walk visit every word of [start, end] exactly once, from `end` down to `start`. |
| Walker.AsWrittenAgreesAboveNull | tests/mov_inv_fixed.c:160 | For any chunk not starting at address 0, the loop as written takes exactly the strides of the reverse walk. |
| Walker.AsWrittenSkipsNull | tests/mov_inv_fixed.c:160 | On [0, SPIN_SIZE] the loop as written stops after the stride [1, SPIN_SIZE], so word 0 is never visited top-down. The forward walk of the same chunk does visit word 0. |
| Walker.WalkForward | tests/mov_inv_fixed.c:48-91 | The forward do-while loop, including the `++pe` NULL test, yields exactly the forward walk's strides for any range inside the address space. |
| Walker.WalkReverse | tests/mov_inv_fixed.c:137-160 | The reverse do-while loop, including the `--ps` NULL test, yields exactly the strides of the loop as written. |
| Memory.Visit | tests/mov_inv_fixed.c:119-123 | Definition of one inner-loop turn: read the word, report (p, expected, actual, true) when it differs, then store. No requires. |
| Memory.MismatchesSound | tests/mov_inv_fixed.c:119-122 | Every report is (p, expected, actual, true) for a visited word whose read-back differed from the expected value. |
| Memory.MismatchesComplete | tests/mov_inv_fixed.c:119-122 | Every visited word whose read-back differed is reported. |
| Memory.MismatchesOrdered | tests/mov_inv_fixed.c:118-124 | Over ascending addresses the reports come in ascending address order. |
| Memory.MismatchesEmpty | tests/mov_inv_fixed.c:119-122 | Nothing is reported exactly when every read-back matches. |
| Memory.MismatchesSingle | tests/mov_inv_fixed.c:119-122 | A single failing read-back yields exactly one report. |
| Memory.UniformReports | tests/mov_inv_fixed.c:119-122 | With one expected value for every word, the reports are exactly (a, expected, actual, true) for the visited words a that do not hold it. |
| Memory.ExecOpsEffect | tests/mov_inv_fixed.c:118-124 | Visiting distinct words in order leaves each visited word as its store leaves it and touches no other word. The reports are those of the reference definition, taken on the memory before the visits. |
| Memory.StoresEffect | tests/mov_inv_fixed.c:85-87 | Store-only visits leave the stored value in every visited word and nothing else changed, even when words repeat. They report nothing. |
| Memory.ChecksEffect | tests/bit_fade.c:97-102 | Check-only visits leave memory unchanged and issue exactly the reference reports. |
| Rotation.RotrUndoesRotl | tests/mov_inv_walk1.c:133 | Rotating right undoes a left rotation. |
| Rotation.RotlUndoesRotr | tests/mov_inv_walk1.c:64 | Rotating left undoes a right rotation. |
| Rotation.RotlKeepsOneBit | tests/mov_inv_walk1.c:64 | A left rotation keeps a single set bit single. |
| Rotation.RotrKeepsOneBit | tests/mov_inv_walk1.c:133 | A right rotation keeps a single set bit single. |
| Rotation.FirstPatternOneBit | tests/mov_inv_walk1.c:34 | For 0 <= offset < 64, `1 << offset` has exactly one bit set. |
| Rotation.RotlNKeepsOneBit | tests/mov_inv_walk1.c:64 | Any number of left rotations keeps a single set bit single. |
| Rotation.RotrStepsBack | tests/mov_inv_walk1.c:133 | One right rotation of rotl^(n+1)(p) gives rotl^n(p). |
| Engine.ShownIsConditionalComplement | tests/mov_inv_walk1.c:63 | The shown pattern is `inverse ? ~pattern : pattern`. |
| Engine.UpExpectsShown | tests/mov_inv_walk1.c:98 | The bottom-up pass expects `inverse ? ~pattern : pattern`. |
| Engine.UpWritesComplement | tests/mov_inv_walk1.c:103 | The bottom-up pass writes `~expect`. |
| Engine.DownExpectsComplement | tests/mov_inv_walk1.c:134 | The top-down pass expects `inverse ? pattern : ~pattern`. |
| Engine.DownWritesShown | tests/mov_inv_walk1.c:139 | The top-down pass writes `~expect`. |
| Engine.StepWordsIsExecOps | tests/mov_inv_walk1.c:97-105 | The inner loop is its precomputed schedule of per-word ops applied in order, and it leaves the pattern the schedule ends at. |
| Engine.InitSchedule | tests/mov_inv_walk1.c:62-65 | Init gives word k the shown rotl^k(p), and the pattern ends at rotl^n(p). |
| Engine.UpSchedule | tests/mov_inv_walk1.c:97-105 | The bottom-up pass checks word k against the shown rotl^k(p) and writes its complement. The pattern ends at rotl^n(p). |
| Engine.DownSchedule | tests/mov_inv_walk1.c:132-140 | Started at rotl^n(p), the top-down pass rotates right before each word, so its k-th word gets the op for rotl^(n-1-k)(p). The right rotations retrace the left ones, and the pattern ends at p. |
| Engine.StepBlock | tests/mov_inv_fixed.c:113-126 | Definition of one stride: count a tick, skip memory for a negative vcpu, otherwise run the inner loop and poll the bail flag. No requires. |
| Engine.Walk | tests/mov_inv_fixed.c:105-127 | Definition of a pass: one StepBlock per stride, in order, stopping after the stride that saw the bail flag. No requires. |
| Engine.WalkQuiet | tests/mov_inv_fixed.c:105-127 | Without bailout, a pass runs the inner loop over all its words in order and counts one tick and one poll per stride. |
| Engine.WalkOneWord | tests/mov_inv_fixed.c:105-127 | Without bailout, a pass over a single one-word stride is one visit to that word, with one tick and one poll. |
| Engine.WalkInactive | tests/mov_inv_fixed.c:113-116 | For a negative vcpu, a pass touches neither memory nor the bail flag but still counts one tick per stride. |
| Engine.WalkStopsAtBail | tests/test_helper.h:31 | A bail flag raised at the first poll ends the pass after its first stride. That stride's writes and its tick are kept. |
| Engine.WalkAfterBail | tests/test_helper.h:31 | After a bailout, no later pass does anything. |
| Passes.PassCounts | tests/mov_inv_fixed.c:105-113 | The bottom-up, corrected top-down and `rep stos` passes each take the per-map stride total (empty chunks included), which is the ticks a pass adds. |
| Passes.ReverseBlocksAgree | tests/mov_inv_fixed.c:130-161 | When no chunk starts at address 0, the top-down pass with the loop as written makes exactly the strides of the corrected pass. |
| Passes.AsWrittenPassAtNull | tests/mov_inv_fixed.c:160 | On the single chunk [0, SPIN_SIZE], the top-down pass as written makes one stride over words SPIN_SIZE down to 1 and misses word 0. The bottom-up pass makes two strides and covers word 0. |
| Passes.ForwardPassCovers | tests/mov_inv_fixed.c:97-127 | The bottom-up pass visits the words of the map in map order, each once. |
| Passes.ReversePassCovers | tests/mov_inv_fixed.c:130-161 | The corrected top-down pass visits exactly the bottom-up sequence reversed: chunks last to first, each from `end` down to `start`. |
| Passes.RepStosCovers | tests/mov_inv_fixed.c:62-72 | The `rep stos` strides together store into exactly the words of the map. They restart at the previous stride's last word, so some words are stored twice. |
| Passes.ChunkWordsMembers | tests/mov_inv_fixed.c:41-43 | A word belongs to the map exactly when some chunk holds it. |
| Passes.ForwardPassQuiet | tests/mov_inv_fixed.c:97-127 | Without bailout, the bottom-up pass runs the inner loop over the words of the map and counts StrideTotal ticks. |
| Passes.ReversePassQuiet | tests/mov_inv_fixed.c:130-161 | Without bailout, the corrected top-down pass runs the inner loop over the words of the map in reverse and counts StrideTotal ticks. |
| Passes.CheckThenStoreEffect | tests/mov_inv_fixed.c:118-124 | Check-then-store over distinct words leaves the replacement in every visited word and changes no other word. The new reports are those of the words that did not hold the expected value. |
| MovInvFixed.TestMovInvFixed | tests/mov_inv_fixed.c:32-165 | Definition: `rep stos` init, then `iterations` rounds of the bottom-up and corrected top-down passes. Requires `Fillable`: no chunk length end - start + 1 is negative. |
| MovInvFixed.TestMovInvFixedAsWritten | tests/mov_inv_fixed.c:32-165 | Definition: the same test with the top-down loop as written. Requires `Fillable`. |
| MovInvFixed.InitFills | tests/mov_inv_fixed.c:40-92 | The `rep stos` init pass leaves pattern1 in every word of the map and changes no other word. It reports nothing and counts one tick per stride. |
| MovInvFixed.RepStosMatchesPortable | tests/mov_inv_fixed.c:62-88 | For non-empty chunks, the `rep stos` fill and the portable fill loop leave the same memory, the same reports and the same ticks. |
| MovInvFixed.FillsDifferOnEmptyChunk | tests/mov_inv_fixed.c:62-88 | On an empty chunk [a + 1, a], `rep stos` with a count of 0 leaves word a + 1 as it was, while the portable do-while stores pattern1 into it. |
| MovInvFixed.UpPassEffect | tests/mov_inv_fixed.c:97-128 | From any memory, the bottom-up pass writes pattern2 into every word of the map, changes no other word and counts StrideTotal ticks. Its reports are the reference reports against pattern1. |
| MovInvFixed.UpPassReports | tests/mov_inv_fixed.c:118-124 | The bottom-up reports are exactly (p, pattern1, actual, true) for the words not holding pattern1, in ascending address order. |
| MovInvFixed.DownPassEffect | tests/mov_inv_fixed.c:130-161 | From any memory, the corrected top-down pass visits the map from the top against pattern2. It leaves pattern1 in every word of the map and changes no other word. |
| MovInvFixed.IterationEffect | tests/mov_inv_fixed.c:96-162 | One iteration from any memory reports exactly the bottom-up mismatches. The top-down pass finds pattern2 everywhere, and the map ends holding pattern1. |
| MovInvFixed.IterationsKeepPattern | tests/mov_inv_fixed.c:96-162 | When the map holds pattern1, any number of iterations reports nothing, leaves memory as it was and adds 2 * n * StrideTotal ticks. |
| MovInvFixed.FaultFree | tests/mov_inv_fixed.c:32-165 | Without faults or bailout, the test reports nothing and leaves pattern1 in the map and every other word as it was. It returns (1 + 2 * iterations) * StrideTotal ticks. |
| MovInvFixed.IterationsInactive | tests/mov_inv_fixed.c:113-116 | For a negative vcpu, iterations change nothing but the tick count, which grows by 2 * n * StrideTotal. |
| MovInvFixed.Inactive | tests/mov_inv_fixed.c:58-60 | For a negative vcpu, the test leaves memory as it was and reports nothing. It returns the same ticks as a real vcpu. |
| MovInvFixed.IterationsAfterBail | tests/mov_inv_fixed.c:89-90 | Once bailed out, no further iteration does anything. |
| MovInvFixed.IterationsAsWrittenAgree | tests/mov_inv_fixed.c:96-162 | When no chunk starts at address 0, iterations with the top-down loop as written are the corrected iterations. |
| MovInvFixed.AsWrittenAgrees | tests/mov_inv_fixed.c:32-165 | When no chunk starts at address 0, the test with the top-down loop as written returns exactly what the corrected test returns. |
| MovInvFixed.FaultFreeAsWritten | tests/mov_inv_fixed.c:32-165 | The test as written, over a map that does not start at address 0, behaves as `MovInvFixed.FaultFree` states: no report, pattern1 in the map, (1 + 2 * iterations) * StrideTotal ticks. |
| MovInvFixed.DownPassAsWrittenAtNull | tests/mov_inv_fixed.c:137-160 | On [0, SPIN_SIZE] the top-down pass as written checks words SPIN_SIZE down to 1 against pattern2, writes pattern1 there in one stride and leaves word 0 as it was. |
| MovInvFixed.FalseReportAtNull | tests/mov_inv_fixed.c:96-162 | With the loop as written, two fault-free iterations over [0, SPIN_SIZE] with pattern1 != pattern2 report (0, pattern1, pattern2, true) and leave pattern2 in word 0. The corrected test reports nothing on the same input. |
| MovInvFixed.UpPassOnEmptyChunk | tests/mov_inv_fixed.c:105-127 | On an empty chunk [a + 1, a], the bottom-up pass still checks word a + 1 and reports it when it does not hold pattern1. |
| MovInvFixed.DownPassOnEmptyChunk | tests/mov_inv_fixed.c:138-160 | On an empty chunk [a + 1, a], the top-down pass checks word a, below the chunk, against pattern2. |
| MovInvFixed.FalseReportOnEmptyChunk | tests/mov_inv_fixed.c:32-165 | With one iteration over an empty chunk [a + 1, a], a word a + 1 that does not hold pattern1 is reported as (a + 1, pattern1, actual, true). `rep stos` never wrote it, so memory without faults is reported. The test as written does the same. |
| MovInvFixed.BailAtFirstStride | tests/mov_inv_fixed.c:57-90 | A bail flag raised at the first poll makes the test return 1 tick, with no report and pattern1 in the first stride's words only. |
| MovInvWalk1.TestMovInvWalk1 | tests/mov_inv_walk1.c:30-148 | Definition: init, then `iterations` rounds of the bottom-up and corrected top-down passes, each round restarting the pattern at `1 << offset`. Requires 0 <= offset < 64. |
| MovInvWalk1.TestMovInvWalk1AsWritten | tests/mov_inv_walk1.c:30-148 | Definition: the same test with the top-down loop as written. Requires 0 <= offset < 64. |
| MovInvWalk1.PatternsOneBit | tests/mov_inv_walk1.c:34 | Every pattern the test uses, rotl^k(1 << offset), has exactly one bit set. |
| MovInvWalk1.InitWritesImage | tests/mov_inv_walk1.c:41-69 | Init writes the shown rotl^k(first) to the k-th word of the map (chunk-then-address order), with the pattern carrying across strides and chunks. It touches no other word, reports nothing, and leaves the pattern at rotl^N(first). |
| MovInvWalk1.UpPassEffect | tests/mov_inv_walk1.c:73-109 | From any memory, the bottom-up pass checks word k against the shown rotl^k(first) and writes the complement of the image. Its reports are the reference reports of those checks, and the pattern ends at rotl^N(first). |
| MovInvWalk1.UpPassOverImage | tests/mov_inv_walk1.c:97-105 | The bottom-up pass expects exactly what init wrote, so it reports nothing on that image. |
| MovInvWalk1.DownWords | tests/mov_inv_walk1.c:132-140 | The top-down inner loop, started at rotl^N(first), writes the image back, touches no other word and ends at `first`. It reports nothing over the complement image. |
| MovInvWalk1.DownPassEffect | tests/mov_inv_walk1.c:111-144 | From any memory, the corrected top-down pass visits the map from the top and reports the reference mismatches against the complement image. It writes the image back and ends the pattern at `first`. |
| MovInvWalk1.DownPassOverComplement | tests/mov_inv_walk1.c:132-140 | Each word is expected to hold exactly what the bottom-up pass wrote, so nothing is reported. |
| MovInvWalk1.IterationKeepsImage | tests/mov_inv_walk1.c:73-145 | An iteration over the init image restarts the pattern at `1 << offset`, reports nothing, keeps the image and adds 2 * StrideTotal ticks. |
| MovInvWalk1.IterationsKeepImage | tests/mov_inv_walk1.c:73-145 | Any number of iterations over the image reports nothing and keeps memory as it was. |
| MovInvWalk1.FaultFree | tests/mov_inv_walk1.c:30-148 | Without faults or bailout, the test reports nothing and ends with the init image in the map. It returns (1 + 2 * iterations) * StrideTotal ticks. |
| MovInvWalk1.IterationsInactive | tests/mov_inv_walk1.c:92-95 | For a negative vcpu, iterations leave memory and reports alone and count 2 * n * StrideTotal ticks. |
| MovInvWalk1.Inactive | tests/mov_inv_walk1.c:57-60 | For a negative vcpu, the test leaves memory as it was, reports nothing and returns the same ticks as a real vcpu. |
| MovInvWalk1.IterationsAsWrittenAgree | tests/mov_inv_walk1.c:73-145 | When no chunk starts at address 0, iterations with the top-down loop as written are the corrected iterations. |
| MovInvWalk1.AsWrittenAgrees | tests/mov_inv_walk1.c:30-148 | When no chunk starts at address 0, the test with the top-down loop as written returns exactly what the corrected test returns. |
| MovInvWalk1.FaultFreeAsWritten | tests/mov_inv_walk1.c:30-148 | The test as written, over a map that does not start at address 0, behaves as `MovInvWalk1.FaultFree` states. |
| MovInvWalk1.TicksAtNull | tests/mov_inv_walk1.c:111-144 | For a negative vcpu and one iteration over [0, SPIN_SIZE], the test as written returns 5 ticks and the corrected test 6: the loop as written stops one stride early. |
| MovInvWalk1.InitAndUpOnEmptyChunk | tests/mov_inv_walk1.c:41-109 | On an empty chunk [a + 1, a], init and the bottom-up pass visit only word a + 1. Word a is left as it was, and the pattern ends one rotation on. |
| MovInvWalk1.DownOnEmptyChunk | tests/mov_inv_walk1.c:111-144 | On an empty chunk [a + 1, a], the top-down pass rotates right and checks word a, below the chunk, against the complement of the shown pattern. It reports that word when it differs. |
| MovInvWalk1.IterationOnEmptyChunk | tests/mov_inv_walk1.c:73-145 | After init over an empty chunk [a + 1, a], one iteration reports word a unless it holds the complement of the shown first pattern. |
| MovInvWalk1.TestOnEmptyChunk | tests/mov_inv_walk1.c:30-148 | The corrected test with one iteration over an empty chunk [a + 1, a] reports word a unless it holds the complement of the shown `1 << offset`. |
| MovInvWalk1.FalseReportOnEmptyChunk | tests/mov_inv_walk1.c:30-148 | Both the corrected test and the test as written report word a, below an empty chunk [a + 1, a] and never initialised, unless it happens to hold the complement of the shown first pattern. So memory without faults is reported. |
| BitFade.FadeDelay | tests/bit_fade.c:111-130 | The delay never touches memory or reports. Without bailout, and always for a negative vcpu, it counts max(sleep_secs, 0) ticks and does not bail out. |
| BitFade.DelayStopsAtBail | tests/bit_fade.c:118-127 | A bail flag first seen at the k-th poll ends the delay after k + 1 seconds. |
| BitFade.TestBitFade | tests/bit_fade.c:136-176 | Every call records its stage as the last stage. An out-of-range stage, or a repeated sleeping stage, does nothing and returns 0 ticks. |
| BitFade.PatternFill | tests/bit_fade.c:32-70 | Definition of pattern_fill: a forward walk over every segment storing `pattern`. No requires. |
| BitFade.PatternCheck | tests/bit_fade.c:72-109 | Definition of pattern_check: a forward walk over every segment comparing each word with `pattern`. No requires. |
| BitFade.FillEffect | tests/bit_fade.c:32-70 | pattern_fill leaves `pattern` in every word of every whole segment and every other word as it was. It reports nothing and counts one tick per stride. |
| BitFade.CheckWalkKeepsMemory | tests/bit_fade.c:97-102 | pattern_check never writes memory, whatever the vcpu and bail flag. |
| BitFade.CheckEffect | tests/bit_fade.c:72-109 | pattern_check reports (a, pattern, actual, true) for exactly the segment words not holding `pattern`, in ascending order. It reports nothing exactly when all of them hold it. |
| BitFade.FillStage | tests/bit_fade.c:146-160 | Stage 0 fills the segments with zeros and stage 3 with all ones. |
| BitFade.CheckStage | tests/bit_fade.c:155-169 | Stage 2 checks for zeros and stage 5 for all ones. Memory is left as it was, and exactly the mismatching words are reported. |
| BitFade.DelayStage | tests/bit_fade.c:149-166 | Stages 1 and 4, entered from another stage, only count max(sleep_secs, 0) ticks. |
| BitFade.FirstDelaySleeps | tests/bit_fade.c:141-153 | `last_stage` starts at -1, so the first call of stage 1 or 4 sleeps: max(sleep_secs, 0) ticks, nothing else. |
| BitFade.RevisitSleepsAgain | tests/bit_fade.c:149-173 | Only the previous call's stage is remembered, so over the stages 1, 2, 1 both calls of stage 1 sleep. |
| BitFade.DecayDetected | tests/bit_fade.c:146-157 | A word that decayed to w != 0 between stage 0 and stage 2 is reported by stage 2 as (a, 0, w, true). |
| BitFade.FadeCycleClean | tests/bit_fade.c:145-173 | Stages 0 to 5 in order, with no decay, report nothing at stages 2 and 5. The map ends all ones, and the last stage is 5. |

## Left out

- `calculate_chunk` is not part of this model. Chunk bounds are inputs, and partition coverage across vcpus is not stated.
- `random` and `random_seed` are not part of this model.
- `display_test_pattern_value`, `display_test_stage_description`, `do_tick`, `sleep(1)` and the `test_addr[]` publishing are left out. They are I/O or advisory side channels. Only the tick count is kept.
- The `rep stosl` 32-bit path and 32-bit `testword_t` are left out. Only the 64-bit build is modelled.
- `volatile` hardware semantics and real faults are left out. A read returns the stored word. A fault is represented by the state a pass starts from, or by a changed word between calls (`BitFade.DecayDetected`).
- Concurrency between vcpus is left out. So is `last_stage` being one static variable shared by all vcpus. The model is one vcpu, with the last stage passed in and returned.
- The bail flag is an oracle indexed by the number of polls a test has made. The model does not represent it changing under a concurrent writer.
- `int ticks` is an unbounded `nat`, so overflow of the tick counter is not modelled.
- MovInvFixed.FaultFree: stated for a non-negative vcpu, no bailout, and chunks that are non-empty, ascending and disjoint (`Passes.Ordered`). The same holds for the other whole-pass lemmas. The other whole-pass lemmas assume the same. An empty chunk [a + 1, a] is still modelled by the pass functions, and there the property fails. The bottom-up do-while checks word a + 1, which `rep stos` never wrote. The top-down do-while checks word a, below the chunk (`MovInvFixed.FalseReportOnEmptyChunk`). The property is also stated for the corrected top-down walk. `MovInvFixed.FaultFreeAsWritten` states it for the loop as written when no chunk starts at address 0. On a chunk from address 0 it fails for the loop as written (`MovInvFixed.FalseReportAtNull`).
- Passes.PassCounts: the top-down clause is about the corrected walk. The loop as written takes the same strides when no chunk starts at address 0 (`Passes.ReverseBlocksAgree`). On [0, SPIN_SIZE] it takes one stride instead of two (`Passes.AsWrittenPassAtNull`).
- Passes.ReversePassCovers: about the corrected walk. The loop as written visits the same words when no chunk starts at address 0 (`Passes.ReverseBlocksAgree`). It misses word 0 of [0, SPIN_SIZE] (`Passes.AsWrittenPassAtNull`).
- Passes.ReversePassQuiet: about the corrected walk. It carries over to the loop as written exactly as `Passes.ReversePassCovers` does.
- MovInvFixed.DownPassEffect: about the corrected pass. `MovInvFixed.DownPassAsWritten` is the same pass when no chunk starts at address 0 (`Passes.ReverseBlocksAgree`). On [0, SPIN_SIZE] it leaves word 0 alone (`MovInvFixed.DownPassAsWrittenAtNull`).
- MovInvFixed.IterationEffect: about the corrected top-down pass. It carries over to the loop as written when no chunk starts at address 0 (`MovInvFixed.IterationsAsWrittenAgree`).
- MovInvFixed.IterationsKeepPattern: about the corrected top-down pass. It carries over to the loop as written when no chunk starts at address 0 (`MovInvFixed.IterationsAsWrittenAgree`). On [0, SPIN_SIZE] it fails for the loop as written (`MovInvFixed.FalseReportAtNull`).
- MovInvFixed.IterationsInactive: about the corrected top-down pass. It carries over to the loop as written when no chunk starts at address 0 (`MovInvFixed.IterationsAsWrittenAgree`). On a chunk from address 0 the loop as written counts fewer ticks.
- MovInvFixed.Inactive: about the corrected test. It holds for the test as written when no chunk starts at address 0 (`MovInvFixed.AsWrittenAgrees`). On a chunk from address 0 the test as written returns fewer ticks.
- MovInvWalk1.DownPassEffect: about the corrected pass. `MovInvWalk1.DownPassAsWritten` is the same pass when no chunk starts at address 0 (`Passes.ReverseBlocksAgree`).
- MovInvWalk1.IterationKeepsImage: about the corrected top-down pass. It carries over to the loop as written when no chunk starts at address 0 (`MovInvWalk1.IterationsAsWrittenAgree`).
- MovInvWalk1.IterationsKeepImage: about the corrected top-down pass. It carries over to the loop as written when no chunk starts at address 0 (`MovInvWalk1.IterationsAsWrittenAgree`).
- MovInvWalk1.FaultFree: stated for chunks that are non-empty, ascending and disjoint (`Passes.Ordered`). On an empty chunk [a + 1, a] it fails: the top-down do-while checks word a, below the chunk and never initialised (`MovInvWalk1.FalseReportOnEmptyChunk`). It is also about the corrected test. `MovInvWalk1.FaultFreeAsWritten` states it for the loop as written when no chunk starts at address 0.
- MovInvWalk1.IterationsInactive: about the corrected top-down pass. It carries over to the loop as written when no chunk starts at address 0 (`MovInvWalk1.IterationsAsWrittenAgree`). On [0, SPIN_SIZE] the loop as written counts one tick fewer per iteration (`MovInvWalk1.TicksAtNull`).
- MovInvWalk1.Inactive: about the corrected test. It holds for the test as written when no chunk starts at address 0 (`MovInvWalk1.AsWrittenAgrees`). It fails on [0, SPIN_SIZE] (`MovInvWalk1.TicksAtNull`).
- MovInvFixed.RepStosMatchesPortable: requires non-empty chunks. On an empty chunk [a + 1, a] the portable do-while stores pattern1 into word a + 1, while `rep stos` with a count of 0 leaves it as it was (`MovInvFixed.FillsDifferOnEmptyChunk`).
- Helpers.RoundDownBounds: states that the bits below the alignment are clear, not divisibility by it. The two coincide for a power of two. The link is proved only for the alignment 8 that every chunk uses (`Helpers.WordAlignmentIsDivisibility`), because a 64-bit remainder by a symbolic divisor is out of reach of the bit-vector proofs.
- Helpers.RoundUpBounds: states that the bits below the alignment are clear, not divisibility by it, for the same reason as `Helpers.RoundDownBounds`.
- MovInvFixed.TestMovInvFixed: requires every chunk length end - start + 1 to be non-negative. A chunk with end < start - 1 would make `rep stos` store a wrapped-around count.
- MovInvWalk1.TestMovInvWalk1: requires 0 <= offset < 64, because `1 << offset` is undefined in C for other offsets.
- BitFade.CheckStage: states which records are reported but not their order. `BitFade.CheckEffect` states the order.

## Findings

| source | as written | input that shows it | evidently intended | confidence | as-written member | corrected member |
|---|---|---|---|---|---|---|
| tests/mov_inv_fixed.c:160 | The reverse loop continues `while (!at_start && --ps)`, so it also stops when `--ps` yields address 0. The same loop is at tests/mov_inv_walk1.c:143. | A chunk from word 0 to word SPIN_SIZE. The first stride is [1, SPIN_SIZE], then `--ps` yields NULL and the loop ends. Word 0 is never checked or rewritten by the top-down pass, although the bottom-up pass visits it. Two iterations of test_mov_inv_fixed over that chunk, on memory without faults, report (0, pattern1, pattern2, true). | The top-down pass visits every word from `end` down to `start`, like the bottom-up pass. | medium; not executed | Walker.ReverseStridesAsWritten, Walker.AsWrittenSkipsNull, MovInvFixed.FalseReportAtNull | Walker.ReverseStrides, Walker.ReverseCovers, MovInvFixed.FaultFree |

The tests `MovInvFixed.TestMovInvFixed` and `MovInvWalk1.TestMovInvWalk1`
use the corrected reverse walk (`Walker.ReverseStrides`).
`MovInvFixed.TestMovInvFixedAsWritten` and
`MovInvWalk1.TestMovInvWalk1AsWritten` use the loop as written, which
`Walker.WalkReverse` replays turn by turn. `Walker.AsWrittenAgreesAboveNull`
shows the two walks agree for every chunk that does not start at address 0.
The `AsWrittenAgrees` lemma of each test module lifts that agreement to the
whole test.
