# Verified models of the bpf-verify algorithms

The repository compiles kernel code to BPF, checks it with the verifier, and compares it with
native runs. This project models the algorithms whose bodies live in the repository itself and
proves what they are relied on for, for all inputs and all runs.

| files | what they model |
|---|---|
| `LivenessModel`, `LivenessProofs`, `LivenessSolver`, `LivenessTight` | register liveness: the transfer step, the descending in-place sweep, its meaning as paths and as execution |
| `Ratelimit`, `RatelimitRuns`, `RatelimitWindow`, `RatelimitInterleaving`, `RatelimitFlag`, `RatelimitOff` | the rate limiter: one call, what whole runs are answered, spans of time, any number of interleaved callers |
| `BitWord`, `Bitmap`, `BitmapWeight`, `BitmapStore` | 64-bit-word bitmaps: range writers, search, weights, set tests and stores |
| `MinHeap` | the integer heap with four-iteration sift loops |
| `Words64`, `Generator`, `GeneratorStream`, `MulOverflow` | 64-bit arithmetic, the deterministic input generator in C, Python and stateful form, the 128-bit-free overflow test |
| `Hex`, `Unescape`, `UnescapeLaws`, `UnescapeRoundTrip`, `UnescapeInPlace`, `SeqBuf`, `SeqBufLayout` | the hexadecimal codec, the unescaper, the bounded append buffer |
| `ListRing` | the circular doubly linked list |
| `Ints`, `Wrappers` | the machine integers as ranges, and the option type |

Each loop or state change of the source is a method proved equal to a function on values; the
theorems are lemmas about those functions.

## What the proofs found

- **Liveness.** After m sweeps a live-in mask holds exactly the registers with a live path of fewer
  than m retreating edges (`SweepsFindExactly`). So a cap equal to the program length never loses a
  live-in register, and for every length some program needs the whole cap (`CapTight`). The
  live-out masks are complete at the cap too, except for one program: a single instruction that
  jumps to itself and reads a register (`CapSolves`). A register is live exactly when some execution
  that keeps to the masks tells two of its values apart (`LiveExactlyRelevant`).
- **Rate limiter.** With interval zero, or a negative interval and a positive burst, every call of
  every run is granted; with any other limit that is not positive, none is (`UnlimitedRun`,
  `RefusedRun`). In one window, with the lock or without it, calls are granted exactly while tokens
  last (`WindowRun`). In any closed span of one interval at most `2 * burst - 1` calls are granted,
  and that is reached for every burst and interval (`SpanBound`, `SpanBoundReached`). The bound
  holds across clock wrap-around. The claim that a call after the window's end is always granted
  is false once the clock has run half its period past that end; `LateCallExactly` gives the exact
  condition and `LateCallRefused` an input.
- **Heap.** The four-iteration cap keeps heap order on every push exactly up to 30 elements before
  the push, and on every pop exactly up to 32 before the pop (`PushCap`, `PopCap`).
- **Bitmap range writers.** For a length that is not negative the word-at-a-time and bit-at-a-time
  writers agree exactly when the range ends within 2^32, or the stretches that only one of them
  writes have the value already: past 2^32 the bit loop's 32-bit position starts over at bit 0
  (`WritersAgree`, `WrapDiffers`). For a negative length the first still writes under its end mask
  and the second writes nothing; `NegativeAgrees` says exactly when they coincide and
  `NegativeDiffers` gives an input where they do not.
- **Weight stubs.** The unmasked stub counts the last word's tail as well, and for a length above
  2^32 - 64 its rounding wraps and it counts nothing. It returns the shim's weight exactly when that
  tail is clear, or in the second case the whole map (`UnmaskedAgrees`, `UnmaskedWraps`).
- **Generator.** The stream position of the last input of iteration 2^61 - 1 no longer fits a signed
  64-bit long, and neither does that of an iteration below -2^61, so iterations are bounded by
  `InRange`.
- **Unescaping.** For bytes written in hexadecimal, in octal, or with the letter escapes, the round
  trip needs two units of size per escape, one per plain byte and one for the terminator; one unit
  less still succeeds when the last byte is itself a backslash (`UnescapeRoundTrip.RoundTrip`).
- **Append buffer.** After an overflow the buffer keeps the text of exactly the pieces before the
  first that did not fit, and nothing is written any more (`RunsHoldAllPieces`, `Replay`).
  A hexadecimal append that overflows has added the whole chunks that fit, seventeen characters
  each (`HexExact`).
  `seq_buf_putmem_hex` of zero bytes returns 0 even on an overflowed buffer
  (`SeqBuf.SeqBuffer.PutmemHex`).

## Reading the model

- `unsigned long` words are `bv64`, register masks `bv16`, bytes `bv8`; 64-bit arithmetic in the
  generator and the overflow test is written with explicit remainders modulo 2^64. `int` and
  `unsigned int` parameters of the bitmap routines are the ranges `I32` and `U32`, `long` is `I64`;
  unsigned wrap-around is written out, and inputs on which signed arithmetic would overflow, which
  C leaves undefined, are excluded and listed under "Left out".
- The successor lists of the liveness solver are an input, at most two long and inside the program.
- The rate limiter's clock, its trylock outcome and its configuration are inputs; in the interleaved
  model every read and every write of a shared field, every atomic update, and every read of the
  clock is a step of its own; only setting or clearing the flag bit, a read and a write under the
  lock, is one step. The shim's header says that locks
  become no-ops and atomics plain accesses; the model keeps a lock that a trylock may fail to take
  and atomic steps, as the code's two paths require.
- The liveness semantics is any function from an instruction, the registers and a memory of any
  type to the next instruction, registers and memory.
- `hweight_long` and `__builtin_popcountl` are the number of set bits. The sequence buffer marks
  overflow by a length of size plus one and reports it when the length exceeds the size.
- Methods with a `value` parameter stand for the set and the clear version of a bitmap routine, and
  methods with an `Op` parameter for the routines that differ only in the word operator.
- `hide` statements in proofs only keep function definitions away from the solver where they are not needed.

## Model

| member | source | states |
|---|---|---|
| LivenessSolver.Solve | targets/liveness_live_registers/preamble.h:78-85 | for every program, the live-in masks end up as exactly the registers with a path to a use and no earlier overwrite; the live-out equations hold too unless the program is a single self-looping reader; with forward edges only, the loop ends within two sweeps |
| LivenessSolver.RunSweep | targets/liveness_live_registers/preamble.h:160-169 | one descending sweep, and its change flag, which is false exactly when the masks already solve the equations |
| LivenessSolver.Step | targets/liveness_live_registers/preamble.h:76 | one transfer step in place; it reports a change exactly when a mask of that instruction changed |
| LivenessSolver.JoinSuccessors | targets/liveness_live_registers/preamble.h:76 | the inner loop collects the union of the successors' live-in masks |
| LivenessProofs.LiveEquation | targets/liveness_live_registers/preamble.h:76 | the path meaning of liveness obeys the step equation |
| LivenessProofs.SweepsSound | targets/liveness_live_registers/preamble.h:78-85 | no number of sweeps puts a register in a mask that is not live there |
| LivenessProofs.SweepsFindExactly | targets/liveness_live_registers/preamble.h:78-85 | m sweeps find exactly the registers with a live path of fewer than m edges that do not go forward |
| LivenessProofs.SweepsExactIns | targets/liveness_live_registers/preamble.h:79 | as many sweeps as instructions complete every live-in mask |
| LivenessProofs.CapTight | targets/liveness_live_registers/preamble.h:79 | for every n some program of n instructions is not complete after n - 1 sweeps |
| LivenessProofs.SweepsExactOuts | targets/liveness_live_registers/preamble.h:79 | with two or more instructions the live-out masks are complete at the cap as well |
| LivenessProofs.CapSolves | targets/liveness_live_registers/preamble.h:79-85 | the capped result solves all equations if and only if the program is not a single self-looping reader |
| LivenessProofs.ExactIsLeast | targets/liveness_live_registers/preamble.h:76-85 | the path masks are contained in every solution of the step equations |
| LivenessProofs.SweepStable | targets/liveness_live_registers/preamble.h:80-84 | a sweep leaves the masks alone exactly when they solve the equations it visits |
| LivenessProofs.ForwardOnePass | targets/liveness_live_registers/preamble.h:160-169 | with forward edges only, the first sweep is final and exact and the second changes nothing |
| LivenessProofs.LivenessSound | targets/liveness_live_registers/preamble.h:69-91 | for any semantics whose register reads are in the use mask and register writes in the def mask, loads and stores included, and any masks closed under the step: register files that agree on the live-in mask, with the same memory, run alike for ever: same places, same memory and agreement on the live registers at each, same R0 at the exit |
| LivenessProofs.FixpointCloses | targets/liveness_live_registers/preamble.h:76 | every solution of the step equations is closed in that sense |
| LivenessProofs.ExactCloses | targets/liveness_live_registers/preamble.h:76 | so are the exact live-in masks that the solver returns |
| LivenessTight.LiveExactlyRelevant | targets/liveness_live_registers/preamble.h:69-91 | where exits read R0, a register is live if and only if some execution that reads only use and writes only def behaves differently for two of its values |
| Ratelimit.RatelimitState.Limit | shims/lib/ratelimit.c:24-86 | one call on the shared structure, along every path, is the call of the value model |
| RatelimitRuns.UnlimitedRun | shims/lib/ratelimit.c:31-43 | with interval 0, or a negative interval and a positive burst, every call of every run is granted, no miss is counted, and only the flag changes: a call that gets the lock clears it unless both are 0 |
| RatelimitRuns.RefusedRun | shims/lib/ratelimit.c:31-43 | with a burst that is not positive and an interval that is not 0, no call of any run is granted and each is counted; tokens and window stay, and a call that gets the lock clears the flag |
| RatelimitRuns.UnlockedRun | shims/lib/ratelimit.c:45-51 | on an initialised structure, m consecutive calls that miss the lock grant exactly min(m, max(nLeft, 0)) |
| RatelimitRuns.UnopenedRun | shims/lib/ratelimit.c:45-51 | on a structure that is not initialised, calls that miss the lock are refused and counted |
| RatelimitRuns.WindowRun | shims/lib/ratelimit.c:45-76 | inside a window, with the lock or without it, exactly the first calls are granted while tokens last, and the others are counted as missed |
| RatelimitRuns.FirstWindow | shims/lib/ratelimit.c:53-76 | the run that opens a window grants burst calls in it and no more |
| RatelimitOff.NothingRefused | shims/lib/ratelimit.c:31-43 | with interval 0 throughout, under every interleaving every completed call was granted and tokens, window and miss counter are never touched |
| RatelimitInterleaving.AloneIsCall | shims/lib/ratelimit.c:24-86 | a caller that is not interrupted makes exactly the value model's call, access by access, along every path |
| RatelimitInterleaving.AlwaysSafe | shims/lib/ratelimit.c:26-85 | under every interleaving, with the clock and configuration changing at will: grants since a refill are the refill minus what is left, no completed call is lost, and the critical section has one caller |
| RatelimitFlag.FlagAlwaysHeld | shims/lib/ratelimit.c:53-76 | under every interleaving the flag is clear until the owner of the lock sets it, set before the first tokens are stored, and set while the owner decides |
| RatelimitInterleaving.NeverOverspent | shims/lib/ratelimit.c:45-63 | with a fixed burst, grants since the last refill are burst minus the tokens left and never exceed burst |
| RatelimitInterleaving.NoCallLost | shims/lib/ratelimit.c:65-85 | completed calls are the granted ones, the current miss counter and the misses taken at refills |
| RatelimitInterleaving.CounterNeverWraps | shims/lib/ratelimit.c:47-48 | racing decrements leave the counter above minus the number of callers, so a 32-bit counter does not wrap with up to 2^31 of them |
| RatelimitWindow.CallInWindow | shims/lib/ratelimit.c:59-85 | a locked call on an open window is granted exactly when a token is left or the window counts as expired; the resulting window, tokens and miss counter |
| RatelimitWindow.SpanBound | shims/lib/ratelimit.c:53-76 | in every run of locked calls any closed span of one interval has at most 2 * burst - 1 grants |
| RatelimitWindow.SpanBoundReached | shims/lib/ratelimit.c:53-76 | for every burst and interval a run whose clock never goes back reaches that number |
| RatelimitWindow.LateCallGranted | shims/lib/ratelimit.c:59-76 | a call more than an interval after the window began is granted while the clock has not run half its period past the window's end |
| RatelimitWindow.LateCallExactly | targets/ratelimit/pre_include.h:27 | with no token left, such a call is granted if and only if the clock is in the first half of its period since the window's end |
| RatelimitWindow.LateCallRefused | targets/ratelimit/pre_include.h:27 | one tick beyond that half period it is refused, in a state that one call on an unused structure leaves |
| MinHeap.IntHeap.Push | targets/min_heap/preamble.h:40-49 | refused exactly when full; otherwise the contents are those of the value model |
| MinHeap.IntHeap.Pop | targets/min_heap/preamble.h:50-60 | refused exactly when empty; otherwise the contents are those of the value model |
| MinHeap.IntHeap.SiftUpLoop | targets/min_heap/preamble.h:10-21 | the capped loop in place, leaving everything behind the start alone |
| MinHeap.IntHeap.SiftDownLoop | targets/min_heap/preamble.h:22-39 | the capped loop in place, leaving everything past n alone |
| MinHeap.PushedContents | targets/min_heap/preamble.h:40-49 | whatever the order, a push adds its value to the multiset of contents |
| MinHeap.PoppedContents | targets/min_heap/preamble.h:50-60 | whatever the order, a pop removes the root from the multiset of contents |
| MinHeap.PushCap | targets/min_heap/preamble.h:12-21 | pushing keeps heap order on all heaps of n elements if and only if n is at most 30 |
| MinHeap.PopCap | targets/min_heap/preamble.h:24-38 | popping keeps heap order on all heaps of n elements if and only if n is at most 32 |
| MinHeap.RepliesAgree | targets/min_heap/preamble.h:40-60 | every run of pushes and pops on at most 31 slots is answered as by a sorted list |
| MinHeap.DrainSorted | targets/min_heap/preamble.h:50-60 | popping until empty gives the contents in ascending order |
| Bitmap.PutRangeByBit | targets/bitmap_parselist/preamble.h:9-16 | the bit-at-a-time loop on its 32-bit position, one step per bit, nothing for a negative length |
| Bitmap.ByBitsInRange | targets/bitmap_parselist/preamble.h:9-16 | a range that ends within 2^32 is written as such |
| Bitmap.ByBitsWrapped | targets/bitmap_parselist/preamble.h:9-16 | a range that passes 2^32 is written up to there and then again from bit 0 |
| Bitmap.PutRangeByWord | shims/lib/bitmap.c:217-255 | writes the range for every length that is not negative; for a negative one writes under the end mask |
| Bitmap.WritersAgree | shims/lib/bitmap.c:217-255 | for a length that is not negative the two writers leave the same map if and only if the range ends within 2^32 or the stretches only one of them writes have the value already |
| Bitmap.WrapDiffers | targets/bitmap_parselist/preamble.h:9-16 | two bits from the last 32-bit position: the writers differ |
| Bitmap.PutRangeWritten | targets/bitmap_parselist/preamble.h:9-16 | exactly the positions of the range take the value; every other bit keeps its own |
| Bitmap.NegativeAgrees | shims/lib/bitmap.c:224-234 | for a negative length on which the first subtraction does not overflow, the two writers agree if and only if the bits under the end mask already have the value |
| Bitmap.PutNegativeBit | shims/lib/bitmap.c:231-234 | which bits a negative length writes, and that all others stay |
| Bitmap.EndMaskBit | shims/lib/bitmap.c:222-232 | which bits the first-word and last-word masks leave together |
| Bitmap.NegativeDiffers | shims/lib/bitmap.c:231-234 | a negative length for which the writers differ |
| Bitmap.FindNextBit | targets/bitmap_parselist/preamble.h:17-26 | the least set position from start on, or nbits |
| BitmapWeight.CountIsCardinality | shims/lib/bitmap.c:136-147 | the weight's specification is the size of the set of set positions |
| BitmapWeight.Weight | shims/lib/bitmap.c:136-147 | the number of set positions below bits |
| BitmapWeight.WeightOf | shims/lib/bitmap.c:149-177 | the number of positions below bits in both maps, or in the first only |
| BitmapWeight.WeightedStore | shims/lib/bitmap.c:179-215 | the same for union and symmetric difference, and the words stored in dst, also when dst is one of the inputs |
| BitmapWeight.WeightIdentities | shims/lib/bitmap.c:136-215 | the four combined weights obey inclusion and exclusion |
| BitmapWeight.WeightMaskedStub | targets/find_bit/pre_include.h:4-12 | the masked stub returns the shim's weight |
| BitmapWeight.WeightUnmaskedStub | targets/memweight/preamble.h:1-9 | the unmasked stub counts to the end of the last word, or nothing when its rounding up wraps |
| BitmapWeight.UnmaskedExcess | targets/memweight/preamble.h:4 | up to length 2^32 - 64 it exceeds the shim by the set positions past nbits in the last word |
| BitmapWeight.UnmaskedAgrees | targets/memweight/preamble.h:4 | it agrees with the shim if and only if that tail is clear, or, for a longer map, the whole map is |
| BitmapWeight.UnmaskedWraps | targets/memweight/preamble.h:4 | at the greatest length it counts nothing of a map with bit 0 set |
| BitmapStore.Intersects | shims/lib/bitmap.c:106-119 | false exactly when no position below bits is in both maps |
| BitmapStore.Subset | shims/lib/bitmap.c:121-134 | true exactly when every position below bits of the first map is in the second |
| BitmapStore.Equal | shims/lib/bitmap.c:15-28 | true exactly when the maps have the same positions below bits |
| BitmapStore.StoreMasked | shims/lib/bitmap.c:56-104 | the masked and / and-not stored in dst, aliased or not; the result is true exactly when the combined weight is positive |
| BitmapStore.MaskedZipBit | shims/lib/bitmap.c:65-67 | the stored map has the combination's positions below bits and none above |
| BitmapStore.MaskedZipWeight | shims/lib/bitmap.c:56-69 | the whole stored map weighs what the weight function of the combination returns |
| Generator.CornersInSync | tools/diff_compare.py:15-20 | the Python table, the C table and the fuzzing table list the same values in the same order, none twice |
| GeneratorStream.CornerValues | tools/diff_seed.h:19-24 | the corners are 0 to 3, -1 and -2 in 64 bits, and 2^63, 2^32, 2^31, 2^8 and 2^16 with the number before each |
| Generator.MixUndone | tools/diff_seed.h:27-32 | mixing has a left inverse on all 64-bit words |
| Generator.MixReached | tools/diff_seed.h:27-32 | mixing reaches every 64-bit word |
| Generator.MixC | tools/diff_seed.h:27-32 | the C statements compute the mix |
| GeneratorStream.FirstValue | userspace/fuzz.h:25-31 | the stream from state 0 starts with 0xe220a8397b1dcdaf, the first value of SplitMix64 |
| Generator.DiffGenInputs | tools/diff_seed.h:36-49 | fills the four words of an iteration, negative ones included: two swept corners first, then draws |
| GeneratorStream.DrawnWord | tools/diff_seed.h:36-48 | a drawn word k of an iteration is value 4 * iter + k of the stream that successive steps yield from the base |
| GeneratorStream.DrawnIteration | tools/diff_seed.h:46-48 | from iteration 256 on, all four words are consecutive values of that stream |
| GeneratorStream.SweptWords | tools/diff_seed.h:38-40 | below iteration 256 the first two words are the corners iter % 16 and iter / 16 % 16 |
| Generator.InputsDistinct | tools/diff_seed.h:36-49 | all drawn words of all iterations are pairwise different |
| Generator.CornersSwept | tools/diff_seed.h:34-40 | the first 256 iterations meet every pair of corner values |
| Generator.PyMix | tools/diff_compare.py:24-28 | the Python mix on any integer is the C mix of its low 64 bits |
| Generator.PyGenInputs | tools/diff_compare.py:31-42 | the mirror gives the same four words as the C generator for every integer base and iteration |
| Generator.SeedFor | userspace/fuzz_main.c:9-15 | the driver's seed is the draw at position iter + 1 |
| Generator.SeedsDistinct | userspace/fuzz_main.c:9-15 | no two iterations start from the same state |
| Generator.FuzzInput.Next | userspace/fuzz.h:25-31 | advances the state by the constant and mixes it |
| Generator.FuzzInput.DrawU64 | userspace/fuzz.h:44-54 | the first two draws of an iteration below 256 are corners and leave the state alone; all others advance the stream |
| GeneratorStream.DrawAll | userspace/fuzz.h:44-54 | the draws of an iteration are the stream's values in order, from iteration 256 on from the first draw, before that after two corners |
| Generator.FuzzInput.Stream | userspace/fuzz.h:25-31 | the i-th of n successive values is the draw at position i + 1 from the starting state, the same draws the differential generator makes |
| MulOverflow.OverflowExact | targets/kstrtox/pre_include.h:36-51 | no intermediate wraps, the high word is the exact quotient, the stored word the product modulo 2^64, and the answer is nonzero exactly when the product does not fit |
| Hex.BranchFreeIsStub | shims/lib/hexdump.c:22-28 | the branch-free digit decoder equals the branching one of targets/bitmap_parselist/preamble.h for every byte |
| Hex.HexToBinExact | shims/lib/hexdump.c:22-28 | it returns the digit's value, and a negative number exactly for all other characters |
| Hex.DigitIsPlace | shims/lib/hexdump.c:22-28 | a character's value is its place among the sixteen digits of either case |
| Hex.ByteText | shims/lib/hexdump.c:12-20 | a byte's two characters are its lower-case base-16 digits, the high one first |
| Hex.Bin2Hex | shims/lib/hexdump.c:47-54 | writes the encoding and nothing past it, and returns where it ends |
| Hex.Hex2Bin | shims/lib/hexdump.c:30-45 | succeeds exactly when all 2 * count characters are digits, and in either case has written the bytes of the leading pairs, also when decoding in place |
| Hex.DecodeEncode | shims/lib/hexdump.c:30-54 | decoding inverts encoding |
| Hex.DecodeComplete | shims/lib/hexdump.c:30-45 | every pair decodes exactly when all characters are digits, and encoding again gives the text in lower case |
| Unescape.OutputBounded | shims/lib/string_helpers.c:97-125 | the output is no longer than the input and leaves room for the terminator |
| Unescape.NoFlagsCopies | shims/lib/string_helpers.c:100-125 | with no class enabled the string is copied, cut to the room there is |
| UnescapeLaws.SpaceLetters | shims/lib/string_helpers.c:20-27 | t, n, v, f, r stand for 9 to 13 and nothing else is a space escape |
| UnescapeLaws.SpecialChars | shims/lib/string_helpers.c:80-86 | quote and backslash stand for themselves, a for 7, e for 27, and nothing else is special |
| UnescapeLaws.OctalMeaning | shims/lib/string_helpers.c:33-50 | one to three digits and their value; another digit is taken exactly while there is one, the value is below 32 and there are fewer than three |
| UnescapeLaws.HexMeaning | shims/lib/string_helpers.c:52-74 | one or two digits after the x and their value |
| UnescapeLaws.EscapeByClass | shims/lib/string_helpers.c:105-119 | the classes begin with different characters, so each depends on its own flag only |
| UnescapeLaws.KeptAsIs | shims/lib/string_helpers.c:121-123 | a backslash before a character of no class stays with that character |
| UnescapeLaws.EightAndNineKept | shims/lib/string_helpers.c:11-14 | so does a backslash before 8 or 9 |
| UnescapeLaws.SizeZeroCutsNothing | shims/lib/string_helpers.c:97-98 | with size 0 no text shorter than 2^64 - 1 is cut |
| UnescapeRoundTrip.RoundTrip | shims/lib/string_helpers.c:16-125 | writing bytes as hexadecimal, octal or letter escapes and unescaping restores them if and only if the size suffices, up to one coincidence at the last byte |
| UnescapeInPlace.OctalFits | shims/lib/string_helpers.c:42-45 | an octal step below 32 does not wrap the byte |
| UnescapeInPlace.UnescapeSpace | shims/lib/string_helpers.c:16-31 | stores the space escape's byte and advances, or does nothing |
| UnescapeInPlace.ScanOctal | shims/lib/string_helpers.c:41-45 | the byte arithmetic gives the unbounded octal value of up to three digits |
| UnescapeInPlace.UnescapeOctal | shims/lib/string_helpers.c:33-50 | stores that value and advances past its digits, or does nothing |
| UnescapeInPlace.UnescapeHex | shims/lib/string_helpers.c:52-74 | one or two digits after the x, or nothing |
| UnescapeInPlace.UnescapeSpecial | shims/lib/string_helpers.c:76-90 | stores the special escape's byte and advances, or does nothing |
| UnescapeInPlace.EscapeStep | shims/lib/string_helpers.c:101-123 | the classes in their order, else the backslash and the next character as they are |
| UnescapeInPlace.StringUnescape | shims/lib/string_helpers.c:92-128 | terminates with the specified output and a terminator, within a nonzero size, touching nothing past the terminator, whether or not dst is src |
| SeqBuf.SeqBuffer.Puts | shims/lib/seq_buf.c:89-101 | appends the string if it fits with its terminator, which is stored behind the text, else overflows and writes nothing |
| SeqBuf.SeqBuffer.Strlen | shims/lib/seq_buf.c:32-33 | the place of the first NUL |
| SeqBuf.SeqBuffer.Copy | shims/lib/seq_buf.c:34-36 | copies to the end of the text, touching nothing before or after |
| SeqBuf.SeqBuffer.Putc | shims/lib/seq_buf.c:103-112 | appends the character if it fits, else overflows and writes nothing |
| SeqBuf.SeqBuffer.Putmem | shims/lib/seq_buf.c:114-124 | appends the bytes if they fit, else overflows and writes nothing; the accepted text stays |
| SeqBuf.SeqBuffer.FillHex | shims/lib/seq_buf.c:158-170 | the scratch text of a chunk: last byte first, two digits each, a space |
| SeqBuf.SeqBuffer.PutmemHex | shims/lib/seq_buf.c:129-178 | appends chunk by chunk up to the first that does not fit, keeping all earlier text; fails exactly when something was to be appended and the buffer has overflowed; writes nothing once overflowed and nothing past the text |
| SeqBufLayout.HexPlaces | shims/lib/seq_buf.c:158-175 | byte i, in chunk c of n bytes, has its digits at 17 * c + 2 * (n - 1 - i % 8), and the chunk its space at 17 * c + 2 * n |
| SeqBufLayout.ChunksLaidOut | shims/lib/seq_buf.c:158-175 | the whole text is the one laid out place by place |
| SeqBufLayout.HexExact | shims/lib/seq_buf.c:129-178 | an append adds all of that text if it fits, and else its first 17 * (room / 17) characters and overflows |
| SeqBuf.SeqBuffer.Replay | shims/lib/seq_buf.c:89-178 | after any run of appends the buffer starts with the text of the value model's run, and a run on an overflowed buffer writes nothing |
| SeqBuf.OverflowSticks | shims/lib/seq_buf.c:69-72 | an overflowed buffer, its text included, stays as it is through every later append |
| SeqBuf.RunsHoldAllPieces | shims/lib/seq_buf.c:89-178 | a run of appends overflows if and only if some piece does not fit behind all earlier ones, and ends with the text of exactly the pieces before the first such, in order |
| SeqBuf.HexAppend | shims/lib/seq_buf.c:129-178 | a successful hexadecimal append grows the text by 2 * len + ceil(len / 8), and what it added reads back as the bytes |
| SeqBuf.ReadBackChunks | shims/lib/seq_buf.c:158-170 | splitting the text at spaces, decoding and reversing each part gives the bytes |
| ListRing.InitAll | targets/bpf_iter/pre_include.h:249-253 | initialising a head and its nodes gives the empty list with every node alone |
| ListRing.ListAdd | targets/bpf_iter/pre_include.h:254-260 | the new node follows the head and the ring is whole; other nodes are untouched |
| ListRing.ListDel | targets/bpf_iter/pre_include.h:261-267 | the ring without the node is whole and the node is alone on its own; a node already alone keeps its links |
| ListRing.Traverse | targets/bpf_iter/pre_include.h:268 | visits every node of the ring but the head, once, in order, and stops |
| ListRing.Step | targets/bpf_iter/pre_include.h:254-267 | either operation keeps the list hanging off the head and all other nodes alone |
| ListRing.Replay | targets/bpf_iter/pre_include.h:254-268 | after every legal run of additions and deletions the links are those of the sequence the run computes, and walking them gives that sequence |
| ListRing.DeleteTwice | targets/bpf_iter/pre_include.h:261-267 | deleting a node again changes nothing |

## Left out

- Kernel sources that the targets compile are not part of this model; neither are the pipeline, runner, build and curation scripts.
- Bitmap: `__bitmap_or`, `__bitmap_xor`, `__bitmap_complement`, `__bitmap_replace` and `__bitmap_or_equal` would add only word-by-word members.
- LivenessSolver.Solve: does not model `bpf_insn_successors`; its body is not in the repository and successor lists are an input.
- Ratelimit.RatelimitState.Limit: the miss counter is unbounded, the two flag bits are booleans, the message flag does not change during a run, and the warning texts are not modelled.
- RatelimitInterleaving.AlwaysSafe: every access is sequentially consistent; weaker memory orders are not modelled.
- MinHeap.IntHeap.Push: elements are unbounded integers, since they are only compared and moved.
- SeqBuf.SeqBuffer.Putmem: sums of lengths do not wrap at 2^64, and `seq_buf_vprintf` and big-endian chunk order are not modelled.
- Bitmap.PutRangeByBit: the length -2^31, whose decrement overflows an `int`, is excluded.
- Bitmap.PutRangeByWord: negative lengths with len - (64 - start % 64) below -2^31, where the loop's first subtraction overflows an `int`, are excluded (`WriterFits`); so they are in `NegativeAgrees`.
- Generator.DiffGenInputs: iterations whose position overflows a signed long are excluded (`InRange`); `fuzz_bytes` and `fuzz_range` are not modelled.
- Generator.SeedFor: the iteration 2^63 - 1, whose successor overflows a signed long, is excluded.
- Generator.FuzzInput.DrawU64: a draw counter of 2^63 - 1, whose increment overflows, is excluded.
- Hex.Hex2Bin: source and destination start at the same place or are disjoint; partly overlapping buffers are not modelled.
- UnescapeInPlace.StringUnescape: source and destination start at the same place or are disjoint; partly overlapping buffers are not modelled.
- ListRing.Replay: adding a node that is already on the list, which corrupts the ring, is excluded by `Legal`.
