/** The bit-unpacking scheme shared by every sampler: how many words a request for `n`
    values draws, which word and bit each output slot is read from, and the two ways a
    bit becomes an output value. */
module Unpack {

  /** A C++ `int`, the type of the requested count `n` at every entry point. */
  newtype int32 = x: int | -0x8000_0000 <= x < 0x8000_0000

  /** The one error the samplers raise: `n` is negative ("n must be a positive integer"). */
  datatype Error = NegativeCount

  datatype Result<T> = Ok(value: T) | Err(error: Error)

  /** Usable bits per word on the 31-bit paths (`J = 30`). */
  const Width31: nat := 31

  /** Usable bits per word on the 64-bit Bernoulli path (`J = 62`). */
  const Width63: nat := 63

  /** `num_integers = ceil(n / W)`: the least number of `w`-bit words that hold `n` bits. */
  function NumWords(n: nat, w: nat): (c: nat)
    requires w > 0
    ensures n == 0 <==> c == 0
    ensures c * w >= n
    ensures c > 0 ==> (c - 1) * w < n
  {
    (n + w - 1) / w
  }

  /** Iterations of the outer loop `for (i = 0; i < num_integers - 1; i++)`: the words
      whose `w` low bits are all used. */
  function FullWords(n: nat, w: nat): (f: nat)
    requires w > 0
    ensures f * w <= n
    ensures n > 0 ==> n - f * w <= w
    ensures n > 0 ==> n > f * w
  {
    if NumWords(n, w) > 0 then NumWords(n, w) - 1 else 0
  }

  /** Words one fill draws: the full words plus the unconditional final draw. */
  function WordsDrawn(n: nat, w: nat): (d: nat)
    requires w > 0
    ensures d == if n == 0 then 1 else NumWords(n, w)
  {
    FullWords(n, w) + 1
  }

  /** Bits the final draw contributes: what is left of `n` after the full words. */
  function LastWordBits(n: nat, w: nat): (b: nat)
    requires w > 0
    ensures n == 0 ==> b == 0
    ensures n > 0 ==> 1 <= b <= w
  {
    n - FullWords(n, w) * w
  }

  lemma MulMono(a: int, b: int, w: nat)
    requires a <= b
    ensures a * w <= b * w
  {
  }

  /** A product with a positive factor orders like the other factor. */
  lemma MulCancel(a: int, b: int, w: nat)
    requires w > 0
    ensures a * w < b * w ==> a < b
  {
    if a >= b {
      MulMono(b, a, w);
    }
  }

  /** Quotient and remainder are the only pair that rebuilds `x`. */
  lemma DivUnique(x: int, d: nat, q: int, r: int)
    requires 0 <= r < d && x == q * d + r
    ensures x / d == q && x % d == r
  {
    var q', r' := x / d, x % d;
    assert x == q' * d + r' && 0 <= r' < d;
    assert (q + 1) * d == q * d + d && (q' + 1) * d == q' * d + d;
    MulCancel(q', q + 1, d);
    MulCancel(q, q' + 1, d);
  }

  /** Dividing by `a * b` is dividing by `a`, then by `b`. */
  lemma DivDiv(x: int, a: nat, b: nat)
    requires a > 0 && b > 0
    ensures x / (a * b) == (x / a) / b
  {
    var q, r := x / a, x % a;
    var q2, r2 := q / b, q % b;
    assert x == q * a + r && q == q2 * b + r2;
    assert x == q2 * (a * b) + (r2 * a + r);
    MulMono(r2 + 1, b, a);
    assert (r2 + 1) * a == r2 * a + a;
    DivUnique(x, a * b, q2, r2 * a + r);
  }

  /** Slot `i * w + j` reads word `i`, bit `j`. */
  lemma DivMod(i: nat, j: nat, w: nat)
    requires j < w
    ensures (i * w + j) / w == i && (i * w + j) % w == j
  {
    DivUnique(i * w + j, w, i, j);
  }

  function Pow2(j: nat): (p: nat)
    ensures p > 0
  {
    if j == 0 then 1 else 2 * Pow2(j - 1)
  }

  lemma {:induction false} Pow2Add(a: nat, b: nat)
    ensures Pow2(a + b) == Pow2(a) * Pow2(b)
  {
    if a > 0 {
      Pow2Add(a - 1, b);
      assert Pow2(a + b) == 2 * Pow2(a - 1 + b);
      assert Pow2(a) * Pow2(b) == 2 * (Pow2(a - 1) * Pow2(b));
    }
  }

  /** `(x >> j) & 1`. A right shift of a non-negative word, or the arithmetic right shift of
      a negative `int`, is floor division by 2^j, which is what Dafny's `/` computes for a
      positive divisor; the lowest bit of the result is its remainder modulo 2. */
  function Bit(x: int, j: nat): (b: int)
    ensures b == 0 || b == 1
  {
    (x / Pow2(j)) % 2
  }

  lemma BitOfRemainder(x: int, a: nat, b: nat, m: nat)
    requires a > 0 && b > 0 && m == a * (2 * b)
    ensures (x / a) % 2 == ((x % m) / a) % 2
  {
    var q, r := x / m, x % m;
    var t, s := r / a, r % a;
    assert x == q * m + r;
    assert r == t * a + s;
    assert q * m == (q * 2 * b) * a;
    assert x == (q * 2 * b + t) * a + s;
    DivUnique(x, a, q * 2 * b + t, s);
    DivUnique(q * 2 * b + t, 2, q * b + t / 2, t % 2);
  }

  /** Bit `j` of a word depends only on the word's low `w` bits for any `w > j`: reading
      bits below `w` never sees bit `w` or above. */
  lemma LowBitsOnly(x: int, w: nat, j: nat)
    requires j < w
    ensures Bit(x, j) == Bit(x % Pow2(w), j)
  {
    var a, b := Pow2(j), Pow2(w - j - 1);
    assert Pow2(w - j) == 2 * b;
    Pow2Add(j, w - j);
    BitOfRemainder(x, a, b, Pow2(w));
  }

  /** Every output slot reads a drawn word: one of the full words at any of its `w` bit
      positions, or the final word at one of its first LastWordBits positions. */
  lemma SlotReadsDrawnBit(n: nat, w: nat, k: nat)
    requires w > 0 && k < n
    ensures k / w < WordsDrawn(n, w)
    ensures k / w < FullWords(n, w) || (k / w == FullWords(n, w) && k % w < LastWordBits(n, w))
  {
    var f := FullWords(n, w);
    assert k == (k / w) * w + k % w;
    assert (f + 1) * w == f * w + w;
    MulCancel(k / w, f + 1, w);
  }

  /** Conversely, every drawn bit position is read by exactly the slot `i * w + j`, and that
      slot lies in the output: no drawn bit is skipped and every slot is written. */
  lemma DrawnBitFillsSlot(n: nat, w: nat, i: nat, j: nat)
    requires j < w
    requires i < FullWords(n, w) || (i == FullWords(n, w) && j < LastWordBits(n, w))
    ensures i * w + j < n
    ensures (i * w + j) / w == i && (i * w + j) % w == j
  {
    DivMod(i, j, w);
    if i < FullWords(n, w) {
      MulMono(i + 1, FullWords(n, w), w);
    }
  }

  /** The slots fed by the final word are exactly those from `FullWords(n, w) * w` on. */
  lemma LastWordSlots(n: nat, w: nat, k: nat)
    requires w > 0 && k < n
    ensures k / w == FullWords(n, w) <==> k >= FullWords(n, w) * w
  {
    var f := FullWords(n, w);
    SlotReadsDrawnBit(n, w, k);
    assert k == (k / w) * w + k % w;
    assert (k / w + 1) * w == (k / w) * w + w;
    MulCancel(f, k / w + 1, w);
    MulMono(k / w, f, w);
  }


  /** The identity mapping of `sample_0_1`: a bit is returned as 0 or 1. */
  function Bernoulli(b: int): (r: int)
    ensures b == 0 ==> r == 0
    ensures b == 1 ==> r == 1
  {
    b
  }

  /** The mapping of `sample_rademacher`: `bit * 2 - 1`. */
  function Rademacher(b: int): (r: int)
    ensures b == 0 ==> r == -1
    ensures b == 1 ==> r == 1
  {
    b * 2 - 1
  }

  /** The mapping of `sample_logical`: the 0/1 int stored into a logical vector, read back
      as a truth value. */
  function Logical(b: int): (r: bool)
    ensures b == 0 ==> !r
    ensures b == 1 ==> r
  {
    b != 0
  }

  /** What a fill of `n` slots produces from the words it draws, `word(0)`, `word(1)`, ...:
      slot `k` holds `f` of bit `k % w` of word `k / w`. */
  function Unpacked<T>(word: nat -> int, n: nat, w: nat, f: int -> T): seq<T>
    requires w > 0
  {
    seq(n, k requires 0 <= k < n => f(Bit(word(k / w), k % w)))
  }

  /** A fill returns exactly `n` values. */
  lemma UnpackedLength<T>(word: nat -> int, n: nat, w: nat, f: int -> T)
    requires w > 0
    ensures |Unpacked(word, n, w, f)| == n
  {
  }

  /** Bits from `w` up are never read: a fill of the words is the fill of those words cut
      down to their low `w` bits. */
  lemma HighBitsUnread<T>(word: nat -> int, n: nat, w: nat, f: int -> T)
    requires w > 0
    ensures Unpacked(word, n, w, f) == Unpacked((i: nat) => word(i) % Pow2(w), n, w, f)
  {
    var low := (i: nat) => word(i) % Pow2(w);
    forall i ensures word(i) % Pow2(w) == low(i) % Pow2(w) {
      ModOfMod(word(i), Pow2(w));
    }
    UnpackedLowBits(word, low, n, w, f);
  }

  lemma ModOfMod(x: int, p: int)
    requires p > 0
    ensures x % p % p == x % p
  {
  }

  /** Low bit first: slot `k = i * w + j` holds bit `j` of word `i`. */
  lemma UnpackedAt<T>(word: nat -> int, n: nat, w: nat, f: int -> T, k: nat, i: nat, j: nat)
    requires j < w && k == i * w + j && k < n
    ensures Unpacked(word, n, w, f)[k] == f(Bit(word(i), j))
  {
    DivMod(i, j, w);
  }

  /** The words of `word` after the first `start`. */
  function Drop(word: nat -> int, start: nat): nat -> int
  {
    (i: nat) => word(start + i)
  }

  /** The unpacking depends on the words' values only. */
  lemma SameWords<T>(word: nat -> int, word': nat -> int, n: nat, w: nat, f: int -> T)
    requires w > 0
    requires forall i :: word(i) == word'(i)
    ensures Unpacked(word, n, w, f) == Unpacked(word', n, w, f)
  {
  }

  /** The slots word `i` fills, from `base == i * w` on, hold its bits in order, low bit first. */
  lemma WordSlots<T>(word: nat -> int, n: nat, w: nat, f: int -> T, i: nat, base: nat, count: nat)
    requires base == i * w && count <= w && base + count <= n
    ensures forall m :: base <= m < base + count ==>
      Unpacked(word, n, w, f)[m] == f(Bit(word(i), m - base))
  {
    forall m | base <= m < base + count
      ensures Unpacked(word, n, w, f)[m] == f(Bit(word(i), m - base))
    {
      UnpackedAt(word, n, w, f, m, i, m - base);
    }
  }

  /** The bit loop of every fill: `res[base + j] = f((bits >> j) & 1)` for `j` from 0 while
      `j < count`, leaving every other slot as it was. */
  method WriteBits<T>(res: array<T>, base: nat, count: nat, bits: int, f: int -> T)
    requires base + count <= res.Length
    modifies res
    ensures forall m :: 0 <= m < res.Length ==>
      res[m] == if base <= m < base + count then f(Bit(bits, m - base)) else old(res[m])
  {
    var k := base;
    var j := 0;
    while j < count
      invariant j <= count && k == base + j
      invariant forall m :: 0 <= m < res.Length ==>
        res[m] == if base <= m < k then f(Bit(bits, m - base)) else old(res[m])
    {
      res[k] := f(Bit(bits, j));
      j, k := j + 1, k + 1;
    }
  }

  /** The Bernoulli fill holds only 0s and 1s. */
  lemma BernoulliValues(word: nat -> int, n: nat, w: nat)
    requires w > 0
    ensures forall k :: 0 <= k < n ==> Unpacked(word, n, w, Bernoulli)[k] in {0, 1}
  {
    forall k | 0 <= k < n
      ensures Unpacked(word, n, w, Bernoulli)[k] in {0, 1}
    {
      var b := Bit(word(k / w), k % w);
      assert Unpacked(word, n, w, Bernoulli)[k] == b;
    }
  }

  /** On the same words, the Rademacher fill is `2 * b - 1` of the Bernoulli fill, so it holds
      only -1s and +1s. */
  lemma RademacherFromBernoulli(word: nat -> int, n: nat, w: nat)
    requires w > 0
    ensures forall k :: 0 <= k < n ==>
      Unpacked(word, n, w, Rademacher)[k] == 2 * Unpacked(word, n, w, Bernoulli)[k] - 1
    ensures forall k :: 0 <= k < n ==> Unpacked(word, n, w, Rademacher)[k] in {-1, 1}
  {
    forall k | 0 <= k < n
      ensures Unpacked(word, n, w, Rademacher)[k] == 2 * Unpacked(word, n, w, Bernoulli)[k] - 1
      ensures Unpacked(word, n, w, Rademacher)[k] in {-1, 1}
    {
      var b := Bit(word(k / w), k % w);
      assert Unpacked(word, n, w, Bernoulli)[k] == b;
      assert Unpacked(word, n, w, Rademacher)[k] == b * 2 - 1;
    }
  }

  /** On the same words, the logical fill is true exactly where the Bernoulli fill holds 1. */
  lemma LogicalFromBernoulli(word: nat -> int, n: nat, w: nat)
    requires w > 0
    ensures forall k :: 0 <= k < n ==>
      (Unpacked(word, n, w, Logical)[k] <==> Unpacked(word, n, w, Bernoulli)[k] == 1)
  {
    forall k | 0 <= k < n
      ensures Unpacked(word, n, w, Logical)[k] <==> Unpacked(word, n, w, Bernoulli)[k] == 1
    {
      var b := Bit(word(k / w), k % w);
      assert Unpacked(word, n, w, Bernoulli)[k] == b;
      assert Unpacked(word, n, w, Logical)[k] == (b != 0);
    }
  }

  /** A fill at width `w` depends on each word only through its low `w` bits: words that
      agree modulo 2^w give the same sample. */
  lemma UnpackedLowBits<T>(word: nat -> int, word': nat -> int, n: nat, w: nat, f: int -> T)
    requires w > 0
    requires forall i :: word(i) % Pow2(w) == word'(i) % Pow2(w)
    ensures Unpacked(word, n, w, f) == Unpacked(word', n, w, f)
  {
    forall k | 0 <= k < n
      ensures Unpacked(word, n, w, f)[k] == Unpacked(word', n, w, f)[k]
    {
      LowBitsOnly(word(k / w), w, k % w);
      LowBitsOnly(word'(k / w), w, k % w);
    }
  }

  /** Low bit first: a first word 5 (binary 101) opens a Bernoulli sample with 1, 0, 1. */
  lemma LowBitFirst(word: nat -> int, w: nat)
    requires w >= 3 && word(0) == 5
    ensures Unpacked(word, 3, w, Bernoulli) == [1, 0, 1]
  {
    DivMod(0, 1, w);
    DivMod(0, 2, w);
    assert Pow2(2) == 4;
  }

  /** At width 31, 31 values draw one word and use all of its bits. */
  lemma OneFullWord31()
    ensures WordsDrawn(31, Width31) == 1 && LastWordBits(31, Width31) == 31
  {
    assert NumWords(31, 31) == 1;
  }

  /** At width 31, 32 values draw a second word and take one bit of it. */
  lemma SpillOneBit31()
    ensures WordsDrawn(32, Width31) == 2 && LastWordBits(32, Width31) == 1
  {
    assert FullWords(32, 31) == 1 by { assert NumWords(32, 31) == 2; }
  }

  /** At width 31, 62 values draw exactly two words, both used in full. */
  lemma TwoFullWords31()
    ensures WordsDrawn(62, Width31) == 2 && LastWordBits(62, Width31) == 31
  {
    assert FullWords(62, 31) == 1 by { assert NumWords(62, 31) == 2; }
  }

  /** No values still cost the one unconditional final draw, and take no bit of it. */
  lemma EmptyStillDraws(w: nat)
    requires w > 0
    ensures WordsDrawn(0, w) == 1 && LastWordBits(0, w) == 0
  {
  }
}
