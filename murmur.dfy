/**
 * MurmurHash2, 64-bit variant for 64-bit platforms (MurmurHash64A), the
 * bucket-selection hash of the string table. Every operation on `bv64` is
 * modulo 2^64, as on `uint64_t`. Words are read little-endian.
 */
module Murmur {

  /** The mixing multiplier `m`. */
  const M: bv64 := 0xc6a4a7935bd1e995

  /** The mixing shift `r`. */
  const R: bv64 := 47

  /** The largest C `int`: the hash takes the key length as an `int`. */
  const INT_MAX: nat := 0x7fff_ffff

  /** The 64-bit word whose little-endian encoding is the 8 bytes `b`. */
  function LoadLE(b: seq<bv8>): bv64
    requires |b| == 8
  {
    (b[0] as bv64)
    | ((b[1] as bv64) << 8)
    | ((b[2] as bv64) << 16)
    | ((b[3] as bv64) << 24)
    | ((b[4] as bv64) << 32)
    | ((b[5] as bv64) << 40)
    | ((b[6] as bv64) << 48)
    | ((b[7] as bv64) << 56)
  }

  /** The low byte of `w`. */
  function Low(w: bv64): bv8
  {
    (w & 0xff) as bv8
  }

  /** The little-endian encoding of `w`: the inverse of `LoadLE`. */
  function StoreLE(w: bv64): (b: seq<bv8>)
    ensures |b| == 8
  {
    [Low(w), Low(w >> 8), Low(w >> 16), Low(w >> 24),
     Low(w >> 32), Low(w >> 40), Low(w >> 48), Low(w >> 56)]
  }

  /** Reading a word back byte by byte gives the bytes it was loaded from. */
  lemma LoadLEBytes(b: seq<bv8>)
    requires |b| == 8
    ensures StoreLE(LoadLE(b)) == b
  {
  }

  /** Loading the little-endian bytes of a word gives the word back. */
  lemma StoreLEWord(w: bv64)
    ensures LoadLE(StoreLE(w)) == w
  {
  }

  /** `x *= m` on a `uint64_t`: the product modulo 2^64. */
  function MulM(x: bv64): bv64
  {
    x * M
  }

  /** `x ^= x >> r`. */
  function XorShift(x: bv64): bv64
  {
    x ^ (x >> R)
  }

  /** `h ^= k`. */
  function Xor(h: bv64, k: bv64): bv64
  {
    h ^ k
  }

  /** `h ^= (uint64_t)b << s`: one case of the tail switch. */
  function XorAt(h: bv64, b: bv8, s: bv64): bv64
    requires s <= 56
  {
    h ^ ((b as bv64) << s)
  }

  /** One iteration of the main loop: mix the word `k` and fold it into `h`. */
  function Step(h: bv64, k: bv64): bv64
  {
    MulM(Xor(h, MulM(XorShift(MulM(k)))))
  }

  /** The main loop over the whole 8-byte words of `data`, starting from `h`. */
  function Body(h: bv64, data: seq<bv8>): bv64
    decreases |data|
  {
    if |data| < 8 then h else Body(Step(h, LoadLE(data[..8])), data[8..])
  }

  /** The xors of the fall-through `switch (len & 7)` on the 0 to 7 trailing bytes `t`. */
  function TailXor(h: bv64, t: seq<bv8>): bv64
    requires |t| < 8
  {
    var n := |t|;
    var h7 := if n >= 7 then XorAt(h, t[6], 48) else h;
    var h6 := if n >= 6 then XorAt(h7, t[5], 40) else h7;
    var h5 := if n >= 5 then XorAt(h6, t[4], 32) else h6;
    var h4 := if n >= 4 then XorAt(h5, t[3], 24) else h5;
    var h3 := if n >= 3 then XorAt(h4, t[2], 16) else h4;
    var h2 := if n >= 2 then XorAt(h3, t[1], 8) else h3;
    if n >= 1 then XorAt(h2, t[0], 0) else h2
  }

  /** The whole switch: the xors, then `h *= m` in `case 1`, which every non-empty tail reaches. */
  function Tail(h: bv64, t: seq<bv8>): bv64
    requires |t| < 8
  {
    if |t| >= 1 then MulM(TailXor(h, t)) else h
  }

  /** The final avalanche: xor-shift, multiply, xor-shift. */
  function Finalize(h: bv64): bv64
  {
    XorShift(MulM(XorShift(h)))
  }

  /** The C `int` length `len` converted to `uint64_t`. */
  function LenWord(len: nat): bv64
    requires len <= INT_MAX
  {
    len as bv64
  }

  /** The initial accumulator: the seed folded with the length times `m`. */
  function Init(len: nat, seed: bv64): bv64
    requires len <= INT_MAX
  {
    Xor(seed, MulM(LenWord(len)))
  }

  /** MurmurHash64A of `key` with `seed`, as a function of the bytes. */
  function Murmur64A(key: seq<bv8>, seed: bv64): bv64
    requires |key| <= INT_MAX
  {
    Finalize(Tail(Body(Init(|key|, seed), key), key[|key| / 8 * 8..]))
  }

  /** `t` padded with zero bytes to a whole word. */
  function ZeroPad(t: seq<bv8>): (w: seq<bv8>)
    requires |t| <= 8
    ensures |w| == 8 && w[..|t|] == t
    ensures forall j :: 0 <= j < |t| ==> w[j] == t[j]
    ensures forall j :: |t| <= j < 8 ==> w[j] == 0
  {
    [PadByte(t, 0), PadByte(t, 1), PadByte(t, 2), PadByte(t, 3),
     PadByte(t, 4), PadByte(t, 5), PadByte(t, 6), PadByte(t, 7)]
  }

  /** Byte `j` of `t` padded with zeros. */
  function PadByte(t: seq<bv8>, j: nat): bv8
  {
    if j < |t| then t[j] else 0
  }

  /*
   * The xors of the tail switch, one tail length at a time: the solver proves
   * each length on its own far more cheaply than all of them at once.
   */
  lemma PaddedTail1(h: bv64, t: seq<bv8>)
    requires |t| == 1
    ensures TailXor(h, t) == Xor(h, LoadLE(ZeroPad(t)))
  {
  }

  lemma PaddedTail2(h: bv64, t: seq<bv8>)
    requires |t| == 2
    ensures TailXor(h, t) == Xor(h, LoadLE(ZeroPad(t)))
  {
  }

  lemma PaddedTail3(h: bv64, t: seq<bv8>)
    requires |t| == 3
    ensures TailXor(h, t) == Xor(h, LoadLE(ZeroPad(t)))
  {
  }

  lemma PaddedTail4(h: bv64, t: seq<bv8>)
    requires |t| == 4
    ensures TailXor(h, t) == Xor(h, LoadLE(ZeroPad(t)))
  {
  }

  lemma PaddedTail5(h: bv64, t: seq<bv8>)
    requires |t| == 5
    ensures TailXor(h, t) == Xor(h, LoadLE(ZeroPad(t)))
  {
  }

  lemma PaddedTail6(h: bv64, t: seq<bv8>)
    requires |t| == 6
    ensures TailXor(h, t) == Xor(h, LoadLE(ZeroPad(t)))
  {
  }

  lemma PaddedTail7(h: bv64, t: seq<bv8>)
    requires |t| == 7
    ensures TailXor(h, t) == Xor(h, LoadLE(ZeroPad(t)))
  {
  }

  /** The xors of the tail switch add in the trailing bytes as the zero-padded little-endian word they start. */
  lemma TailXorIsPaddedWord(h: bv64, t: seq<bv8>)
    requires |t| < 8
    ensures TailXor(h, t) == Xor(h, LoadLE(ZeroPad(t)))
  {
    match |t|
    case 0 =>
    case 1 => PaddedTail1(h, t);
    case 2 => PaddedTail2(h, t);
    case 3 => PaddedTail3(h, t);
    case 4 => PaddedTail4(h, t);
    case 5 => PaddedTail5(h, t);
    case 6 => PaddedTail6(h, t);
    case 7 => PaddedTail7(h, t);
  }

  /**
   * The tail switch folds the trailing bytes in as one zero-padded word, and
   * multiplies by `m` only when there is a tail.
   */
  lemma TailIsPaddedWord(h: bv64, t: seq<bv8>)
    requires |t| < 8
    ensures Tail(h, t) == if |t| == 0 then h else MulM(Xor(h, LoadLE(ZeroPad(t))))
  {
    TailXorIsPaddedWord(h, t);
  }

  /** A key of length 0 hashes to the final mix of the seed alone. */
  lemma EmptyKey(seed: bv64)
    ensures Murmur64A([], seed) == Finalize(seed)
  {
    assert MulM(LenWord(0)) == 0;
    assert Init(0, seed) == seed;
  }

  /** The main loop consumes exactly the whole words: bytes past them do not reach it. */
  lemma {:induction false} BodyIgnoresTail(h: bv64, data: seq<bv8>)
    ensures Body(h, data) == Body(h, data[..|data| / 8 * 8])
    decreases |data|
  {
    if |data| >= 8 {
      var rest := data[8..];
      BodyIgnoresTail(Step(h, LoadLE(data[..8])), rest);
      WholeWordsStep(|data|);
      var cut := data[..|data| / 8 * 8];
      assert cut[..8] == data[..8];
      assert cut[8..] == rest[..|rest| / 8 * 8];
    }
  }

  /** Dropping one word from a length of at least one word drops one word from its whole-word part. */
  lemma {:induction false} WholeWordsStep(len: nat)
    requires len >= 8
    ensures 8 <= len / 8 * 8 <= len && len / 8 * 8 == (len - 8) / 8 * 8 + 8
  {
  }

  /** The whole-word part of `len`: where the tail starts. */
  lemma {:induction false} TailSplit(len: nat)
    ensures 0 <= len / 8 * 8 <= len && len - len / 8 * 8 == len % 8 < 8
  {
  }

  /**
   * The main loop of MurmurHash64A (lines 35-48): fold every whole word of
   * `key` into `h`. `data` counts words, as the `uint64_t` pointer does.
   */
  method MixWords(key: seq<bv8>, h0: bv64) returns (h: bv64)
    ensures h == Body(h0, key)
  {
    TailSplit(|key|);
    h := h0;
    var data := 0;
    var end := |key| / 8;
    while data != end
      invariant 0 <= data <= end
      invariant Body(h, key[8 * data..]) == Body(h0, key)
      decreases end - data
    {
      ghost var rest := key[8 * data..];
      assert rest[..8] == key[8 * data..8 * data + 8];
      assert rest[8..] == key[8 * (data + 1)..];
      var k := LoadLE(key[8 * data..8 * data + 8]);
      k := MulM(k);
      k := XorShift(k);
      k := MulM(k);
      h := Xor(h, k);
      h := MulM(h);
      data := data + 1;
    }
  }

  /**
   * The fall-through `switch (len & 7)` of MurmurHash64A (lines 50-62) on the
   * bytes `data2` after the last whole word; `n` is `len & 7`.
   */
  method MixTail(data2: seq<bv8>, n: nat, h0: bv64) returns (h: bv64)
    requires n == |data2| < 8
    ensures h == Tail(h0, data2)
  {
    h := h0;
    if n >= 7 { h := XorAt(h, data2[6], 48); }
    if n >= 6 { h := XorAt(h, data2[5], 40); }
    if n >= 5 { h := XorAt(h, data2[4], 32); }
    if n >= 4 { h := XorAt(h, data2[3], 24); }
    if n >= 3 { h := XorAt(h, data2[2], 16); }
    if n >= 2 { h := XorAt(h, data2[1], 8); }
    if n >= 1 {
      h := XorAt(h, data2[0], 0);
      h := MulM(h);
    }
  }

  /**
   * MurmurHash64A as the C code computes it: the seeded start, the loop over
   * the whole words, the switch on the tail and the final mix.
   */
  method MurmurHash64A(key: seq<bv8>, seed: bv64) returns (h: bv64)
    requires |key| <= INT_MAX
    ensures h == Murmur64A(key, seed)
  {
    h := Xor(seed, MulM(LenWord(|key|)));
    h := MixWords(key, h);
    TailSplit(|key|);
    h := MixTail(key[|key| / 8 * 8..], |key| % 8, h);
    h := XorShift(h);
    h := MulM(h);
    h := XorShift(h);
  }
}
