/** The samplers backed by R's uniform generator: `sample_random_bits`, `sample_0_1`,
    `sample_logical` and `sample_rademacher`, each reading 31 bits per 32-bit word. */
module Rademacher {
  import opened Unpack

  /** R's uniform generator as seen through `R_random_bits`: an abstract stream of the
      `int`s that function returns, of which `drawn` have been taken so far. The stream
      stands for the generator's process-wide state; how each `int` is built from two
      uniform draws is not modelled. */
  class HostRng {
    const stream: nat -> int32
    var drawn: nat

    constructor (stream: nat -> int32)
      ensures this.stream == stream && drawn == 0
    {
      this.stream := stream;
      drawn := 0;
    }

    /** `R_random_bits()`: the next word of the stream. */
    method Next() returns (bits: int32)
      modifies this
      ensures bits == stream(old(drawn))
      ensures drawn == old(drawn) + 1
    {
      bits := stream(drawn);
      drawn := drawn + 1;
    }
  }

  /** The words a fill draws from `stream` once `start` words have been taken. */
  function HostWords(stream: nat -> int32, start: nat): nat -> int
  {
    (i: nat) => stream(start + i) as int
  }

  /** The fill loop shared by `sample_0_1`, `sample_logical` and `sample_rademacher`: the
      outer loop runs over the words used in full and writes their `w` low bits, low bit
      first; then one more word is drawn, unconditionally, and its bits fill the slots that
      remain. */
  method Fill<T>(rng: HostRng, res: array<T>, w: nat, f: int -> T)
    requires 1 <= w <= 32
    modifies rng, res
    ensures rng.drawn == old(rng.drawn) + WordsDrawn(res.Length, w)
    ensures res[..] == Unpacked(HostWords(rng.stream, old(rng.drawn)), res.Length, w, f)
  {
    var n := res.Length;
    ghost var start := rng.drawn;
    ghost var spec := Unpacked(HostWords(rng.stream, start), n, w, f);
    var numIntegers := NumWords(n, w);
    var k := 0;
    var J := w - 1;
    var i := 0;
    while i < numIntegers - 1
      invariant i <= FullWords(n, w)
      invariant k == i * w <= n
      invariant rng.drawn == start + i
      invariant forall m :: 0 <= m < k ==> res[m] == spec[m]
    {
      var bits := rng.Next();
      MulMono(i + 1, FullWords(n, w), w);
      assert (i + 1) * w == k + w;
      // the inner loop runs j = 0 .. J, that is all w bits of the word
      WriteBits(res, k, J + 1, bits as int, f);
      WordSlots(HostWords(rng.stream, start), n, w, f, i, k, w);
      k, i := k + w, i + 1;
    }
    assert i == FullWords(n, w);
    var bits := rng.Next();
    // the final loop runs while k < n
    WriteBits(res, k, n - k, bits as int, f);
    WordSlots(HostWords(rng.stream, start), n, w, f, i, k, n - k);
  }

  /** `sample_random_bits(n)`: `n` raw words, the `j`-th slot holding the `j`-th word drawn. */
  method SampleRandomBits(rng: HostRng, n: int32) returns (r: Result<array<int>>)
    modifies rng
    ensures n < 0 ==> r == Err(NegativeCount) && rng.drawn == old(rng.drawn)
    ensures n >= 0 ==> r.Ok? && fresh(r.value) && r.value.Length == n as int
    ensures n >= 0 ==> forall j :: 0 <= j < n as int ==> r.value[j] == rng.stream(old(rng.drawn) + j) as int
    ensures n >= 0 ==> rng.drawn == old(rng.drawn) + n as int
  {
    if n < 0 {
      return Err(NegativeCount);
    }
    var res := new int[n as int];
    for j := 0 to n as int
      invariant rng.drawn == old(rng.drawn) + j
      invariant forall m :: 0 <= m < j ==> res[m] == rng.stream(old(rng.drawn) + m) as int
    {
      var bits := rng.Next();
      res[j] := bits as int;
    }
    return Ok(res);
  }

  /** `sample_0_1(n)`: `n` Bernoulli values, 31 per word. */
  method SampleZeroOne(rng: HostRng, n: int32) returns (r: Result<array<int>>)
    modifies rng
    ensures n < 0 ==> r == Err(NegativeCount) && rng.drawn == old(rng.drawn)
    ensures n >= 0 ==> r.Ok? && fresh(r.value)
    ensures n >= 0 ==> r.value[..] == Unpacked(HostWords(rng.stream, old(rng.drawn)), n as nat, Width31, Bernoulli)
    ensures n >= 0 ==> rng.drawn == old(rng.drawn) + WordsDrawn(n as nat, Width31)
  {
    if n < 0 {
      return Err(NegativeCount);
    }
    var res := new int[n as int];
    Fill(rng, res, Width31, Bernoulli);
    return Ok(res);
  }

  /** `sample_logical(n)`: the same fill as `sample_0_1`, into a logical vector. */
  method SampleLogical(rng: HostRng, n: int32) returns (r: Result<array<bool>>)
    modifies rng
    ensures n < 0 ==> r == Err(NegativeCount) && rng.drawn == old(rng.drawn)
    ensures n >= 0 ==> r.Ok? && fresh(r.value)
    ensures n >= 0 ==> r.value[..] == Unpacked(HostWords(rng.stream, old(rng.drawn)), n as nat, Width31, Logical)
    ensures n >= 0 ==> rng.drawn == old(rng.drawn) + WordsDrawn(n as nat, Width31)
  {
    if n < 0 {
      return Err(NegativeCount);
    }
    var res := new bool[n as int];
    Fill(rng, res, Width31, Logical);
    return Ok(res);
  }

  /** `sample_rademacher(n)`: `n` Rademacher values `bit * 2 - 1`, 31 per word. */
  method SampleRademacher(rng: HostRng, n: int32) returns (r: Result<array<int>>)
    modifies rng
    ensures n < 0 ==> r == Err(NegativeCount) && rng.drawn == old(rng.drawn)
    ensures n >= 0 ==> r.Ok? && fresh(r.value)
    ensures n >= 0 ==> r.value[..] == Unpacked(HostWords(rng.stream, old(rng.drawn)), n as nat, Width31, Rademacher)
    ensures n >= 0 ==> rng.drawn == old(rng.drawn) + WordsDrawn(n as nat, Width31)
  {
    if n < 0 {
      return Err(NegativeCount);
    }
    var res := new int[n as int];
    Fill(rng, res, Width31, Rademacher);
    return Ok(res);
  }

  /** Only bits 0..30 of each word are read: the 31-bit samplers see each `int` only
      modulo 2^31, so in particular its sign bit never reaches the output. */
  lemma SignBitUnread<T>(stream: nat -> int32, stream': nat -> int32, start: nat, n: nat, f: int -> T)
    requires forall i :: stream(i) as int % Pow2(31) == stream'(i) as int % Pow2(31)
    ensures Unpacked(HostWords(stream, start), n, Width31, f)
         == Unpacked(HostWords(stream', start), n, Width31, f)
  {
    UnpackedLowBits(HostWords(stream, start), HostWords(stream', start), n, Width31, f);
  }

  /** The value lemmas of the unpacking, for the 31-bit samplers on one stream:
      `sample_0_1` yields 0s and 1s, `sample_rademacher` yields `2 * b - 1` of those, and
      `sample_logical` is true exactly where `sample_0_1` yields 1. */
  lemma HostSampleValues(stream: nat -> int32, start: nat, n: nat)
    ensures forall k :: 0 <= k < n ==>
      Unpacked(HostWords(stream, start), n, Width31, Bernoulli)[k] in {0, 1}
    ensures forall k :: 0 <= k < n ==>
      Unpacked(HostWords(stream, start), n, Width31, Rademacher)[k]
        == 2 * Unpacked(HostWords(stream, start), n, Width31, Bernoulli)[k] - 1
    ensures forall k :: 0 <= k < n ==>
      (Unpacked(HostWords(stream, start), n, Width31, Logical)[k]
       <==> Unpacked(HostWords(stream, start), n, Width31, Bernoulli)[k] == 1)
  {
    BernoulliValues(HostWords(stream, start), n, Width31);
    RademacherFromBernoulli(HostWords(stream, start), n, Width31);
    LogicalFromBernoulli(HostWords(stream, start), n, Width31);
  }
}
