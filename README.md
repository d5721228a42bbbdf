# rademacher: fast Bernoulli and Rademacher samplers, modelled in Dafny

The `rademacher` R package draws long vectors of fair coin flips. Each sampler spreads one
random word over many output values. A request for `n >= 1` values draws `ceil(n / W)`
words, and a request for `n == 0` draws one word. Bits `0 .. W-1` of each word are read,
low bit first, and each bit becomes one output value. Every word but the last is used in
full. A final, unconditional draw supplies the remaining bits. A bit `b` is returned as `b`
(`sample_0_1`, `sample_0_1_64bit`), as the truth value `b == 1` (`sample_logical`), or as
`b * 2 - 1` (`sample_rademacher`, `sample_rademacher_64bit`).

There are two word sources:

- `R_random_bits`: a C++ `int` built from R's uniform generator. The 31-bit samplers in
  `src/rademacher.cpp` read bits 0..30 of it (`W = 31`).
- `Splitmix64`: a 64-bit generator with one state word, advanced by `0x9e3779b97f4a7c15`
  on every call and passed through a fixed xor-shift-multiply mixing. The samplers in
  `src/rademacher_64.cpp` read it with `W = 63` (`sample_0_1_64bit`) or `W = 31`
  (`sample_rademacher_64bit`).

The project has three modules:

- `unpack.dfy` (module `Unpack`): the scheme shared by every sampler. It gives the word
  counts (`NumWords`, `FullWords`, `WordsDrawn`, `LastWordBits`), bit extraction (`Bit`),
  and the specification function `Unpacked(word, n, w, f)`: slot `k` holds `f` of bit
  `k % w` of word `k / w`. It also holds the three bit mappings and the bit loop
  `WriteBits` that every fill runs.
- `rademacher.dfy` (module `Rademacher`): `R_random_bits` as the class `HostRng` over an
  abstract stream of `int`s, and the four entry points of `src/rademacher.cpp`.
- `rademacher_64.dfy` (module `Rademacher64`): the class `Splitmix64`, its mixing `Mix`,
  and the two 64-bit entry points.

Every entry point is an imperative method. It rejects a negative `n` with
`Err(NegativeCount)` before anything else happens. Otherwise it allocates the output array
and runs a `Fill` method. `Fill` has the loop structure of the C++: an outer loop over the
full words, with `k == i * w` and the slots written so far already holding their specified
values as invariants, then the final draw. Each `Fill` is proved against `Unpacked` and
against the exact number of words drawn.

Two behaviours of the code deserve a note:

- For `n == 0` the result is empty, but the unconditional final draw
  (src/rademacher.cpp:84, src/rademacher_64.cpp:84 and 139) still takes one word.
  `WordsDrawn(0, w) == 1` and `EmptyStillDraws` state this.
- `R_random_bits` returns a signed `int`, and `(bits >> j) & 1` of a negative `int` is an
  arithmetic shift. `Bit(x, j) = (x / 2^j) % 2`, with Dafny's floor division, is exactly
  that. The words are modelled as `int32` values, and `SignBitUnread` shows that the sign
  bit never reaches the output.

The mixing of `next_int` is written on integers below 2^64. Every product is reduced
modulo 2^64, `>>` is `Shr` (floor division by 2^s, see `ShrIsDivision`), and `^` is `Xor`,
defined bit by bit from the low end (see `XorBit`).

## Model

| member | source | states |
|---|---|---|
| Unpack.NumWords | src/rademacher.cpp:68 | `ceil(n / W)` as integer division: zero exactly when `n == 0`, and the least count of `w`-bit words holding `n` bits (`c * w >= n`, `(c - 1) * w < n`) |
| Unpack.FullWords | src/rademacher.cpp:74 | the outer loop runs `num_integers - 1` times (0 when `n == 0`); those words hold at most `n` bits, and for `n > 0` strictly fewer than `n`, leaving 1..`w` for the final word |
| Unpack.WordsDrawn | src/rademacher.cpp:74-84 | a fill draws `ceil(n / w)` words for `n > 0`, and one word for `n == 0` |
| Unpack.LastWordBits | src/rademacher.cpp:84-88 | the final word supplies `n - (ceil(n/w) - 1) * w` bits, between 1 and `w` for `n > 0`, and none for `n == 0` |
| Unpack.Bit | src/rademacher.cpp:80 | `(bits >> j) & 1` is 0 or 1 |
| Unpack.LowBitsOnly | src/rademacher.cpp:78-81 | bit `j < w` of a word depends only on the word modulo 2^w |
| Unpack.SlotReadsDrawnBit | src/rademacher.cpp:74-88 | every slot `k < n` reads a drawn word: a full word at any bit, or the final word at one of its first `LastWordBits` bits |
| Unpack.DrawnBitFillsSlot | src/rademacher.cpp:74-88 | conversely, every bit a fill reads lands in slot `i * w + j < n`, which reads back word `i`, bit `j` |
| Unpack.LastWordSlots | src/rademacher.cpp:84-88 | the slots the final word fills are exactly those from `FullWords * w` on |
| Unpack.UnpackedLength | src/rademacher.cpp:65 | a fill returns exactly `n` values |
| Unpack.UnpackedAt | src/rademacher.cpp:78-81 | slot `i * w + j` holds the mapping of bit `j` of word `i` (low bit first) |
| Unpack.WordSlots | src/rademacher.cpp:78-81 | the `w` (or fewer) slots after `i * w` hold word `i`'s bits in order |
| Unpack.WriteBits | src/rademacher.cpp:78-88 | the bit loop writes `f` of bits `0 .. count-1` of `bits` into slots `base ..`, and leaves every other slot unchanged |
| Unpack.Bernoulli | src/rademacher.cpp:80 | `sample_0_1` stores a bit as itself: 0 as 0 and 1 as 1 |
| Unpack.Rademacher | src/rademacher.cpp:185 | `bit * 2 - 1` sends 0 to -1 and 1 to +1 |
| Unpack.Logical | src/rademacher.cpp:132 | the 0/1 value stored into a logical vector reads back false for 0 and true for 1 |
| Unpack.BernoulliValues | src/rademacher.cpp:80 | the 0/1 fill holds only 0s and 1s |
| Unpack.RademacherFromBernoulli | src/rademacher.cpp:185 | on the same words, the Rademacher fill is `2 * b - 1` of the 0/1 fill, and is always -1 or +1 |
| Unpack.LogicalFromBernoulli | src/rademacher.cpp:132 | on the same words, the logical fill is true exactly where the 0/1 fill holds 1 |
| Unpack.UnpackedLowBits | src/rademacher.cpp:72-88 | a width-`w` fill depends on each word only modulo 2^w |
| Unpack.HighBitsUnread | src/rademacher.cpp:78-88 | a width-`w` fill of any words equals the fill of those words reduced modulo 2^w: bits from `w` up are never read |
| Unpack.LowBitFirst | src/rademacher.cpp:78-81 | low bit first: a first word 5 opens a 0/1 sample with 1, 0, 1 |
| Unpack.OneFullWord31 | src/rademacher.cpp:68-88 | at width 31, `n = 31` draws one word and uses all 31 bits |
| Unpack.SpillOneBit31 | src/rademacher.cpp:68-88 | at width 31, `n = 32` draws two words, the second giving one bit |
| Unpack.TwoFullWords31 | src/rademacher.cpp:68-88 | at width 31, `n = 62` draws exactly two words, both used in full |
| Unpack.EmptyStillDraws | src/rademacher.cpp:84 | `n = 0` still draws one word and takes no bit of it |
| Rademacher.HostRng.Next | src/rademacher.cpp:7-12 | `R_random_bits()` returns the next word of the stream and advances the stream by one |
| Rademacher.Fill | src/rademacher.cpp:68-88 | the nested loops and final draw fill the array with exactly `Unpacked` of the words drawn, and draw exactly `WordsDrawn(n, w)` words |
| Rademacher.SampleRandomBits | src/rademacher.cpp:22-39 | rejects `n < 0` without drawing; otherwise returns `n` values, slot `j` holding the `j`-th word drawn, and draws `n` words |
| Rademacher.SampleZeroOne | src/rademacher.cpp:54-91 | rejects `n < 0` without drawing; otherwise returns the 0/1 unpacking of the next `WordsDrawn(n, 31)` words at width 31 |
| Rademacher.SampleLogical | src/rademacher.cpp:106-143 | the same as `sample_0_1`, into a logical vector |
| Rademacher.SampleRademacher | src/rademacher.cpp:159-196 | the same as `sample_0_1`, with values `bit * 2 - 1` |
| Rademacher.SignBitUnread | src/rademacher.cpp:80 | the 31-bit samplers see each `int` only modulo 2^31: the sign bit never reaches the output |
| Rademacher.HostSampleValues | src/rademacher.cpp:183-186 | on one stream, `sample_0_1` yields 0s and 1s, `sample_rademacher` yields `2 * b - 1` of them, and `sample_logical` is true exactly where `b == 1` |
| Rademacher64.Xor | src/rademacher_64.cpp:29-31 | `^` on non-negative words; `XorBit` proves it is bitwise exclusive or and `XorBelow` that it stays within a width |
| Rademacher64.XorBit | src/rademacher_64.cpp:29 | bit `j` of `a ^ b` is 1 exactly where bits `j` of `a` and `b` differ |
| Rademacher64.XorBelow | src/rademacher_64.cpp:31 | the xor of two words below 2^k is below 2^k |
| Rademacher64.Shr | src/rademacher_64.cpp:29-31 | `z >> s` never exceeds `z`; `ShrIsDivision` gives its exact value |
| Rademacher64.ShrIsDivision | src/rademacher_64.cpp:29 | `z >> s` is floor division by 2^s |
| Rademacher64.Mix | src/rademacher_64.cpp:29-31 | the output mixing of `next_int`: `z ^= z >> 30`, times `0xbf58476d1ce4e5b9`; `z ^= z >> 27`, times `0x94d049bb133111eb`; then `z ^ (z >> 31)`, each product reduced modulo 2^64; `MixFits` bounds its result |
| Rademacher64.MixFits | src/rademacher_64.cpp:29-31 | the mixed word is again a `uint64_t` |
| Rademacher64.Advance | src/rademacher_64.cpp:28 | `state += 0x9e3779b97f4a7c15` on a `uint64_t`, wrapping modulo 2^64 |
| Rademacher64.StateAfter | src/rademacher_64.cpp:26-28 | the state after `m` calls of `next_int` from state `s`; `StateAfterClosedForm` gives it in closed form |
| Rademacher64.StateAfterClosedForm | src/rademacher_64.cpp:28 | after `m` calls from state `s` the state is `s + m * 0x9e3779b97f4a7c15` modulo 2^64 |
| Rademacher64.Output | src/rademacher_64.cpp:26-32 | the word returned by call `i + 1` after seeding: `Mix` of the state after `i + 1` advances; `NthOutput` gives it in closed form |
| Rademacher64.NthOutput | src/rademacher_64.cpp:26-32 | the `m`-th call after `seed(s)` returns `Mix(s + m * 0x9e3779b97f4a7c15 mod 2^64)`: it depends on the seed and the call count only |
| Rademacher64.Splitmix64.constructor | src/rademacher_64.cpp:18 | the default constructor sets the state to 0 |
| Rademacher64.Splitmix64.FromSeed | src/rademacher_64.cpp:19 | the seeded constructor sets the state to the seed |
| Rademacher64.Splitmix64.Seed | src/rademacher_64.cpp:21-24 | `seed(s)` sets the state to exactly `s` and restarts the word sequence at the outputs of `s` |
| Rademacher64.Splitmix64.NextInt | src/rademacher_64.cpp:26-32 | `next_int()` advances the state by `0x9e3779b97f4a7c15` modulo 2^64 and returns the next seeded word, `Mix` of the new state |
| Rademacher64.Fill | src/rademacher_64.cpp:67-88 | the nested loops and final draw fill the array with exactly `Unpacked` of the next generator words, and make exactly `WordsDrawn(n, w)` calls |
| Rademacher64.SampleZeroOne64 | src/rademacher_64.cpp:51-91 | rejects `n < 0`; otherwise returns the 0/1 unpacking at width 63 of the words the generator seeded with `seed` returns |
| Rademacher64.SampleRademacher64 | src/rademacher_64.cpp:107-146 | rejects `n < 0`; otherwise returns the `bit * 2 - 1` unpacking at width 31 of the seeded words |
| Rademacher64.Reproducible | src/rademacher_64.cpp:62-120 | two calls of `sample_0_1_64bit`, and two of `sample_rademacher_64bit`, with the same `n` and seed succeed together, exactly when `n >= 0`, and return the same values |
| Rademacher64.Bit63Unread | src/rademacher_64.cpp:78-81 | `sample_0_1_64bit` never reads bit 63: its sample of the seeded words equals the sample of those words reduced modulo 2^63 |
| Rademacher64.HighBitsUnread31 | src/rademacher_64.cpp:133-136 | `sample_rademacher_64bit` reads only bits 0..30 of each 64-bit word: its sample of the seeded words equals the sample of those words reduced modulo 2^31 |
| Rademacher64.SeededSampleValues | src/rademacher_64.cpp:133-136 | the 64-bit 0/1 sample holds 0s and 1s, and the 64-bit Rademacher sample holds -1s and +1s, `2 * b - 1` of a width-31 0/1 fill of the same words |

## Left out

- `R_random_bits` internals: its two `R::unif_rand()` draws, the floating-point
  `floor(u * 65536)` and the signed `int` arithmetic that builds the word are foreign code.
  The model takes the results as an arbitrary stream of `int` values.
- R's process-wide generator state is the `HostRng` object passed to each 31-bit sampler.
- The Rcpp glue is not modelled: vector types, `Rcpp::no_init`, the export annotations and
  the error message text. `Rcpp::stop` is the result `Err(NegativeCount)`.
- The `n > 2147483647` checks cannot fire for an `int` `n`, and are not modelled.
- `ceil(n / 31.0)` and `ceil(n / 63.0)` use floating point. For an `int` `n` they equal
  integer ceiling division, which the model uses.
- The unused field `twoPower64` is not modelled.
- The default seed argument `seed = R_random_bits()` and the conversion of the `int` seed
  to `uint64_t` are not modelled. The 64-bit samplers take the seed as a value below 2^64.
- Statistical properties are not modelled: uniformity, independence, sample means.
- Rademacher64.Splitmix64.NextInt: its contract does not say `r == Mix(state)` in those
  words. It says `r` is word number `old(calls)` of `words`, and `Valid()` ties that word to
  `Output(seed, old(calls))`, which is `Mix` of the new state. This keeps the mixing out of
  every caller's proof.
- Rademacher64.Splitmix64.FromSeed: no entry point constructs a generator this way. It is
  modelled for completeness of the class.
- No concrete output vector of `Mix` is proved. The verifier does not evaluate the
  bit-by-bit `Xor` on 64-bit constants.
- That `Mix` is a bijection on 64-bit words is not proved.
- Rademacher64.SampleRademacher64: `((bits >> j) & 1) * 2 - 1` is computed in `uint64_t`, so a 0 bit gives 2^64 - 1, narrowed to the `int` -1 when stored. The model computes -1 directly in integer arithmetic, which is the same stored value.
- Unpack.WriteBits: each sampler's two bit loops are one method. The full-word loop
  `for (j = 0; j <= J; ...)` writes `J + 1 = w` bits. The final loop `for (...; k < n; ...)`
  writes `n - k` bits.
