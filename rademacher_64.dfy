/** The samplers backed by the splitmix64 generator: `sample_0_1_64bit`, reading 63 bits per
    64-bit word, and `sample_rademacher_64bit`, reading 31 bits per 64-bit word. */
module Rademacher64 {
  import opened Unpack

  /** 2^64: `uint64_t` arithmetic wraps modulo this. */
  const Modulus: int := 0x1_0000_0000_0000_0000

  /** A `uint64_t` value. */
  type uint64 = x: int | 0 <= x < 0x1_0000_0000_0000_0000

  /** The increment `next_int` adds to the state on every call. */
  const Golden: uint64 := 0x9e3779b97f4a7c15

  /** Bitwise exclusive or of two non-negative words, one bit at a time from the low end. */
  function Xor(a: nat, b: nat): nat
    decreases a + b
  {
    if a == 0 then b
    else if b == 0 then a
    else 2 * Xor(a / 2, b / 2) + (if a % 2 == b % 2 then 0 else 1)
  }

  /** Bit `j` of `a ^ b` is 1 exactly where the bits of `a` and `b` differ. */
  lemma {:induction false} XorBit(a: nat, b: nat, j: nat)
    ensures Bit(Xor(a, b), j) == if Bit(a, j) == Bit(b, j) then 0 else 1
    decreases j
  {
    if a == 0 || b == 0 {
      ZeroBit(j);
    } else {
      var x, low := Xor(a / 2, b / 2), if a % 2 == b % 2 then 0 else 1;
      HalveBit(x * 2 + low, j);
      HalveBit(a, j);
      HalveBit(b, j);
      DivMod(x, low, 2);
      if j > 0 {
        XorBit(a / 2, b / 2, j - 1);
      }
    }
  }

  lemma ZeroBit(j: nat)
    ensures Bit(0, j) == 0
  {
  }

  /** Bit 0 of `x` is its parity; bit `j + 1` of `x` is bit `j` of `x / 2`. */
  lemma HalveBit(x: nat, j: nat)
    ensures Bit(x, 0) == x % 2
    ensures j > 0 ==> Bit(x, j) == Bit(x / 2, j - 1)
  {
    if j > 0 {
      var p := Pow2(j - 1);
      assert Pow2(j) == 2 * p;
      DivDiv(x, 2, p);
    }
  }

  /** `a ^ b` of two words below 2^k is below 2^k. */
  lemma {:induction false} XorBelow(a: nat, b: nat, k: nat)
    requires a < Pow2(k) && b < Pow2(k)
    ensures Xor(a, b) < Pow2(k)
    decreases k
  {
    if a != 0 && b != 0 {
      assert k > 0;
      XorBelow(a / 2, b / 2, k - 1);
    }
  }

  lemma Pow2Is64()
    ensures Pow2(64) == Modulus
  {
    assert Pow2(4) == 16;
    Pow2Add(4, 4);
    assert Pow2(8) == 0x100;
    Pow2Add(8, 8);
    assert Pow2(16) == 0x1_0000;
    Pow2Add(16, 16);
    assert Pow2(32) == 0x1_0000_0000;
    Pow2Add(32, 32);
  }

  /** `z >> s` on a non-negative word. */
  function Shr(z: nat, s: nat): (r: nat)
    ensures r <= z
  {
    if s == 0 then z else Shr(z / 2, s - 1)
  }

  /** Shifting right by `s` is floor division by 2^s, the reading `Bit` takes of `>>`. */
  lemma {:induction false} ShrIsDivision(z: nat, s: nat)
    ensures Shr(z, s) == z / Pow2(s)
  {
    if s > 0 {
      ShrIsDivision(z / 2, s - 1);
      DivDiv(z, 2, Pow2(s - 1));
    }
  }

  /** `z ^ (z >> s)` on a `uint64_t`. */
  function XorShift(z: nat, s: nat): nat
  {
    Xor(z, Shr(z, s))
  }

  /** The output mixing of `next_int`, applied to the freshly advanced state `z`: two
      xor-shift-multiply rounds and a final xor-shift, every product wrapping modulo 2^64. */
  function Mix(z: uint64): nat
  {
    var z1 := XorShift(z, 30) * 0xbf58476d1ce4e5b9 % Modulus;
    var z2 := XorShift(z1, 27) * 0x94d049bb133111eb % Modulus;
    XorShift(z2, 31)
  }

  /** The mixed word is again a `uint64_t`: the last xor-shift combines two words below 2^64. */
  lemma MixFits(z: uint64)
    ensures Mix(z) < Modulus
  {
    var z1 := XorShift(z, 30) * 0xbf58476d1ce4e5b9 % Modulus;
    var z2 := XorShift(z1, 27) * 0x94d049bb133111eb % Modulus;
    Pow2Is64();
    XorBelow(z2, Shr(z2, 31), 64);
  }

  /** `state += 0x9e3779b97f4a7c15` on a `uint64_t`. */
  function Advance(s: uint64): uint64
  {
    (s + Golden) % Modulus
  }

  /** The state after `m` calls of `next_int` from state `s`. */
  function StateAfter(s: uint64, m: nat): uint64
  {
    if m == 0 then s else Advance(StateAfter(s, m - 1))
  }

  lemma ModAdd(a: int, b: int)
    ensures (a % Modulus + b) % Modulus == (a + b) % Modulus
  {
  }

  /** After `m` calls from state `s` the state is `s + m * 0x9e3779b97f4a7c15` modulo 2^64. */
  lemma {:induction false} StateAfterClosedForm(s: uint64, m: nat)
    ensures StateAfter(s, m) == (s + m * Golden) % Modulus
  {
    if m > 0 {
      StateAfterClosedForm(s, m - 1);
      ModAdd(s + (m - 1) * Golden, Golden);
    }
  }

  /** The word returned by call number `i + 1` after seeding with `seed`. */
  function Output(seed: uint64, i: nat): nat
  {
    Mix(StateAfter(seed, i + 1))
  }

  /** The `m`-th call (counting from 1) after `seed(s)` returns the mix of
      `s + m * 0x9e3779b97f4a7c15` modulo 2^64: the output depends on the seed and the
      number of calls only. */
  lemma NthOutput(s: uint64, m: nat)
    requires m >= 1
    ensures Output(s, m - 1) == Mix((s + m * Golden) % Modulus)
  {
    StateAfterClosedForm(s, m);
  }

  /** The words a generator seeded with `seed` returns, in order. */
  function SeededWords(seed: uint64): nat -> int
  {
    (i: nat) => Output(seed, i) as int
  }

  /** The generator: one 64-bit state word that `seed` overwrites and `next_int` advances.
      The ghost fields record the seed last set, the number of `next_int` calls since, and
      the words those calls return: `Valid()` makes `words` exactly `SeededWords(seed)`,
      held as a field so that callers can speak of the words drawn without unfolding the
      mixing. */
  class Splitmix64 {
    var state: uint64
    ghost var seed: uint64
    ghost var calls: nat
    ghost var words: nat -> int

    /** The state is the seed advanced once per call, and `words` are the seeded outputs.
        Both conjuncts are quantified so that they only come into play where the state
        arithmetic or the mixing is mentioned, not in every proof about a caller. */
    ghost predicate Valid()
      reads this
    {
      (forall c {:trigger StateAfter(seed, c)} :: c == calls ==> state == StateAfter(seed, c)) &&
      forall i {:trigger Output(seed, i)} :: words(i) == Output(seed, i)
    }

    /** `Splitmix64()`: the state starts at 0. */
    constructor ()
      ensures Valid() && state == 0
      ensures seed == 0 && calls == 0 && words == SeededWords(0)
    {
      state := 0;
      seed, calls, words := 0, 0, SeededWords(0);
    }

    /** `Splitmix64(seed)`: the state starts at the seed. */
    constructor FromSeed(seed: uint64)
      ensures Valid() && state == seed
      ensures this.seed == seed && calls == 0 && words == SeededWords(seed)
    {
      state := seed;
      this.seed, calls, words := seed, 0, SeededWords(seed);
    }

    /** `seed(seed)`: the state becomes exactly the seed, whatever it was. */
    method Seed(seed: uint64)
      modifies this
      ensures Valid() && state == seed
      ensures this.seed == seed && calls == 0 && words == SeededWords(seed)
    {
      state := seed;
      this.seed, calls, words := seed, 0, SeededWords(seed);
    }

    /** `next_int()`: advance the state, then return the mixed new state, which is the next
        of the seeded words. */
    method NextInt() returns (r: uint64)
      requires Valid()
      modifies this
      ensures Valid() && state == Advance(old(state))
      ensures seed == old(seed) && words == old(words) && calls == old(calls) + 1
      ensures r as int == words(old(calls))
    {
      state := Advance(state);
      calls := calls + 1;
      MixFits(state);
      r := Mix(state);
      assert state == StateAfter(seed, calls);
      assert r as int == Output(seed, calls - 1);
    }
  }

  /** The fill loop shared by both 64-bit samplers, at `w` usable bits per word: as in the
      31-bit samplers, full words first, then one unconditional final draw for the rest. */
  method Fill<T>(random: Splitmix64, res: array<T>, w: nat, f: int -> T)
    requires 1 <= w <= 64 && random.Valid()
    modifies random, res
    ensures random.Valid() && random.seed == old(random.seed) && random.words == old(random.words)
    ensures random.calls == old(random.calls) + WordsDrawn(res.Length, w)
    ensures res[..] == Unpacked(Drop(random.words, old(random.calls)), res.Length, w, f)
  {
    var n := res.Length;
    ghost var start := random.calls;
    ghost var spec := Unpacked(Drop(random.words, start), n, w, f);
    var numIntegers := NumWords(n, w);
    var k := 0;
    var J := w - 1;
    var i := 0;
    while i < numIntegers - 1
      invariant i <= FullWords(n, w)
      invariant k == i * w <= n
      invariant random.Valid() && random.seed == old(random.seed) && random.words == old(random.words)
      invariant random.calls == start + i
      invariant forall m :: 0 <= m < k ==> res[m] == spec[m]
    {
      var bits := random.NextInt();
      MulMono(i + 1, FullWords(n, w), w);
      assert (i + 1) * w == k + w;
      // the inner loop runs j = 0 .. J, that is all w bits of the word
      WriteBits(res, k, J + 1, bits as int, f);
      WordSlots(Drop(random.words, start), n, w, f, i, k, w);
      k, i := k + w, i + 1;
    }
    assert i == FullWords(n, w);
    var bits := random.NextInt();
    // the final loop runs while k < n
    WriteBits(res, k, n - k, bits as int, f);
    WordSlots(Drop(random.words, start), n, w, f, i, k, n - k);
  }

  /** `sample_0_1_64bit(n, seed)`: `n` Bernoulli values, 63 per word of a generator seeded
      with `seed`. */
  method SampleZeroOne64(n: int32, seed: uint64) returns (r: Result<array<int>>)
    ensures n < 0 ==> r == Err(NegativeCount)
    ensures n >= 0 ==> r.Ok? && fresh(r.value)
    ensures n >= 0 ==> r.value[..] == Unpacked(SeededWords(seed), n as nat, Width63, Bernoulli)
  {
    if n < 0 {
      return Err(NegativeCount);
    }
    var res := new int[n as int];
    var random := new Splitmix64();
    random.Seed(seed);
    Fill(random, res, Width63, Bernoulli);
    SameWords(Drop(SeededWords(seed), 0), SeededWords(seed), n as nat, Width63, Bernoulli);
    return Ok(res);
  }

  /** `sample_rademacher_64bit(n, seed)`: `n` Rademacher values, 31 per word of a generator
      seeded with `seed`. */
  method SampleRademacher64(n: int32, seed: uint64) returns (r: Result<array<int>>)
    ensures n < 0 ==> r == Err(NegativeCount)
    ensures n >= 0 ==> r.Ok? && fresh(r.value)
    ensures n >= 0 ==> r.value[..] == Unpacked(SeededWords(seed), n as nat, Width31, Rademacher)
  {
    if n < 0 {
      return Err(NegativeCount);
    }
    var res := new int[n as int];
    var random := new Splitmix64();
    random.Seed(seed);
    Fill(random, res, Width31, Rademacher);
    SameWords(Drop(SeededWords(seed), 0), SeededWords(seed), n as nat, Width31, Rademacher);
    return Ok(res);
  }

  /** Two calls of either 64-bit sampler with the same `n` and seed return the same values:
      `a` and `b` come from `sample_0_1_64bit`, `c` and `d` from `sample_rademacher_64bit`. */
  method Reproducible(n: int32, seed: uint64)
    returns (a: Result<array<int>>, b: Result<array<int>>, c: Result<array<int>>, d: Result<array<int>>)
    ensures a.Ok? <==> n >= 0
    ensures a.Ok? == b.Ok? && (a.Ok? ==> a.value[..] == b.value[..])
    ensures c.Ok? <==> n >= 0
    ensures c.Ok? == d.Ok? && (c.Ok? ==> c.value[..] == d.value[..])
  {
    a := SampleZeroOne64(n, seed);
    b := SampleZeroOne64(n, seed);
    c := SampleRademacher64(n, seed);
    d := SampleRademacher64(n, seed);
  }

  /** `sample_0_1_64bit` never reads bit 63 of a word: the sample of the seeded words is the
      sample of those words cut down to bits 0..62. */
  lemma Bit63Unread(seed: uint64, n: nat)
    ensures Unpacked(SeededWords(seed), n, Width63, Bernoulli)
         == Unpacked((i: nat) => SeededWords(seed)(i) % Pow2(63), n, Width63, Bernoulli)
  {
    HighBitsUnread(SeededWords(seed), n, Width63, Bernoulli);
  }

  /** `sample_rademacher_64bit` reads only bits 0..30 of each word: its sample of the seeded
      words is the sample of those words cut down to bits 0..30. */
  lemma HighBitsUnread31(seed: uint64, n: nat)
    ensures Unpacked(SeededWords(seed), n, Width31, Rademacher)
         == Unpacked((i: nat) => SeededWords(seed)(i) % Pow2(31), n, Width31, Rademacher)
  {
    HighBitsUnread(SeededWords(seed), n, Width31, Rademacher);
  }

  /** The value lemmas of the unpacking for the 64-bit samplers: `sample_0_1_64bit` yields 0s
      and 1s, and `sample_rademacher_64bit` yields -1s and +1s, `2 * b - 1` of the bits
      a 31-bit Bernoulli fill of the same words would give. */
  lemma SeededSampleValues(seed: uint64, n: nat)
    ensures forall k :: 0 <= k < n ==>
      Unpacked(SeededWords(seed), n, Width63, Bernoulli)[k] in {0, 1}
    ensures forall k :: 0 <= k < n ==>
      Unpacked(SeededWords(seed), n, Width31, Rademacher)[k] in {-1, 1}
    ensures forall k :: 0 <= k < n ==>
      Unpacked(SeededWords(seed), n, Width31, Rademacher)[k]
        == 2 * Unpacked(SeededWords(seed), n, Width31, Bernoulli)[k] - 1
  {
    BernoulliValues(SeededWords(seed), n, Width63);
    RademacherFromBernoulli(SeededWords(seed), n, Width31);
  }
}
