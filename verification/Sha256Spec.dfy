/** SHA-256 as FIPS 180-4 defines it: padding (5.1.1), parsing (5.2.1), initial value (5.3.3) and
    hash computation (6.2.2), over whole messages. */
module Sha256Spec {
  import opened Common

  type word = bv32

  const BLOCK := 64
  const DIGEST := 32
  const TWO_64 := 0x1_0000_0000_0000_0000

  const K_TABLE: seq<seq<word>> := [
    [0x428a2f98, 0x71374491, 0xb5c0fbcf, 0xe9b5dba5, 0x3956c25b, 0x59f111f1, 0x923f82a4, 0xab1c5ed5],
    [0xd807aa98, 0x12835b01, 0x243185be, 0x550c7dc3, 0x72be5d74, 0x80deb1fe, 0x9bdc06a7, 0xc19bf174],
    [0xe49b69c1, 0xefbe4786, 0x0fc19dc6, 0x240ca1cc, 0x2de92c6f, 0x4a7484aa, 0x5cb0a9dc, 0x76f988da],
    [0x983e5152, 0xa831c66d, 0xb00327c8, 0xbf597fc7, 0xc6e00bf3, 0xd5a79147, 0x06ca6351, 0x14292967],
    [0x27b70a85, 0x2e1b2138, 0x4d2c6dfc, 0x53380d13, 0x650a7354, 0x766a0abb, 0x81c2c92e, 0x92722c85],
    [0xa2bfe8a1, 0xa81a664b, 0xc24b8b70, 0xc76c51a3, 0xd192e819, 0xd6990624, 0xf40e3585, 0x106aa070],
    [0x19a4c116, 0x1e376c08, 0x2748774c, 0x34b0bcb5, 0x391c0cb3, 0x4ed8aa4a, 0x5b9cca4f, 0x682e6ff3],
    [0x748f82ee, 0x78a5636f, 0x84c87814, 0x8cc70208, 0x90befffa, 0xa4506ceb, 0xbef9a3f7, 0xc67178f2]]

  function K(t: nat): word
    requires t < 64
  {
    K_TABLE[t / 8][t % 8]
  }

  /** The eight working variables, and also the eight words of a hash value. */
  datatype Vars = Vars(a: word, b: word, c: word, d: word, e: word, f: word, g: word, h: word)

  const H0 := Vars(0x6a09e667, 0xbb67ae85, 0x3c6ef372, 0xa54ff53a, 0x510e527f, 0x9b05688c, 0x1f83d9ab, 0x5be0cd19)

  /** Addition modulo 2^32. */
  function Plus(x: word, y: word): word { x + y }

  function Rotr(x: word, n: bv6): word
    requires n < 32
  {
    (x >> n) | (x << (32 - n))
  }

  function Ch(x: word, y: word, z: word): word { (x & y) ^ (!x & z) }

  function Maj(x: word, y: word, z: word): word { (x & y) ^ (x & z) ^ (y & z) }

  function BigSigma0(x: word): word { Rotr(x, 2) ^ Rotr(x, 13) ^ Rotr(x, 22) }

  function BigSigma1(x: word): word { Rotr(x, 6) ^ Rotr(x, 11) ^ Rotr(x, 25) }

  function SmallSigma0(x: word): word { Rotr(x, 7) ^ Rotr(x, 18) ^ (x >> 3) }

  function SmallSigma1(x: word): word { Rotr(x, 17) ^ Rotr(x, 19) ^ (x >> 10) }

  /** Four bytes as a big-endian word. */
  function JoinBytes(b0: byte, b1: byte, b2: byte, b3: byte): word {
    ((b0 as word) << 24) | ((b1 as word) << 16) | ((b2 as word) << 8) | (b3 as word)
  }

  /** Word t of a block. */
  function BlockWord(block: seq<byte>, t: nat): word
    requires |block| == BLOCK && t < 16
  {
    JoinBytes(block[4 * t], block[4 * t + 1], block[4 * t + 2], block[4 * t + 3])
  }

  /** FIPS 180-4, 6.2.2 step 1, for t >= 16: from the words t - 2, t - 7, t - 15 and t - 16. */
  function ExpandWord(w2: word, w7: word, w15: word, w16: word): word {
    SmallSigma1(w2) + w7 + SmallSigma0(w15) + w16
  }

  /** Word t of the message schedule, from the words before it. */
  function NextWord(block: seq<byte>, w: seq<word>): word
    requires |block| == BLOCK && |w| < 64
  {
    var t := |w|;
    if t < 16 then BlockWord(block, t)
    else ExpandWord(w[t - 2], w[t - 7], w[t - 15], w[t - 16])
  }

  /** The first n words of the message schedule. */
  function Schedule(block: seq<byte>, n: nat): (w: seq<word>)
    requires |block| == BLOCK && n <= 64
    ensures |w| == n
  {
    if n == 0 then [] else Schedule(block, n - 1) + [NextWord(block, Schedule(block, n - 1))]
  }

  /** Every word follows from those before it. */
  lemma {:induction false} ScheduleAt(block: seq<byte>, n: nat, t: nat)
    requires |block| == BLOCK && t < n <= 64
    ensures Schedule(block, n)[t] == NextWord(block, Schedule(block, n)[..t])
  {
    hide NextWord;
    var before := Schedule(block, n - 1);
    if t < n - 1 {
      ScheduleAt(block, n - 1, t);
      assert Schedule(block, n)[..t] == before[..t];
    } else {
      assert Schedule(block, n)[..t] == before;
    }
  }

  /** FIPS 180-4, 6.2.2 step 3: the two temporaries of a round. */
  function T1(e: word, f: word, g: word, h: word, k: word, w: word): word {
    h + BigSigma1(e) + Ch(e, f, g) + k + w
  }

  function T2(a: word, b: word, c: word): word {
    BigSigma0(a) + Maj(a, b, c)
  }

  function Round(v: Vars, k: word, w: word): Vars {
    var t1, t2 := T1(v.e, v.f, v.g, v.h, k, w), T2(v.a, v.b, v.c);
    Vars(Plus(t1, t2), v.a, v.b, v.c, Plus(v.d, t1), v.e, v.f, v.g)
  }

  function Rounds(v: Vars, w: seq<word>, n: nat): Vars
    requires |w| == 64 && n <= 64
  {
    if n == 0 then v else Round(Rounds(v, w, n - 1), K(n - 1), w[n - 1])
  }

  function Add(x: Vars, y: Vars): Vars {
    Vars(Plus(x.a, y.a), Plus(x.b, y.b), Plus(x.c, y.c), Plus(x.d, y.d),
         Plus(x.e, y.e), Plus(x.f, y.f), Plus(x.g, y.g), Plus(x.h, y.h))
  }

  function Compress(v: Vars, block: seq<byte>): Vars
    requires |block| == BLOCK
  {
    Add(v, Rounds(v, Schedule(block, 64), 64))
  }

  /** The hash value after all blocks of s. */
  function HashBlocks(s: seq<byte>): Vars
    requires |s| % BLOCK == 0
  {
    if s == [] then H0 else Compress(HashBlocks(s[..|s| - BLOCK]), s[|s| - BLOCK..])
  }

  lemma HashOneMore(whole: seq<byte>, block: seq<byte>)
    requires |whole| % BLOCK == 0 && |block| == BLOCK
    ensures HashBlocks(whole + block) == Compress(HashBlocks(whole), block)
  {
    hide Compress;
    assert (whole + block)[..|whole + block| - BLOCK] == whole;
    assert (whole + block)[|whole + block| - BLOCK..] == block;
  }

  function Zeros(n: nat): seq<byte> { seq(n, _ => 0) }

  /** The 64-bit big-endian representation of x. */
  function BigEndian64(x: nat): (s: seq<byte>)
    requires x < TWO_64
    ensures |s| == 8
  {
    [x / 0x100_0000_0000_0000, (x / 0x1_0000_0000_0000) % 256, (x / 0x100_0000_0000) % 256, (x / 0x1_0000_0000) % 256,
     (x / 0x100_0000) % 256, (x / 0x1_0000) % 256, (x / 0x100) % 256, x % 256]
  }

  /** A message of n bytes, the byte 0x80, z zero bytes and the 8 length bytes fill whole blocks. */
  predicate FillsBlocks(n: nat, z: nat) {
    (n + 1 + z + 8) % BLOCK == 0
  }

  /** The least number of zero bytes that, after the byte 0x80, leaves room for exactly the length. */
  function ZeroCount(n: nat): (z: nat)
    ensures FillsBlocks(n, z) && forall y: nat :: y < z ==> !FillsBlocks(n, y)
  {
    (119 - n % BLOCK) % BLOCK
  }

  /** The length in bits. FIPS 180-4 admits messages of fewer than 2^64 bits; longer ones wrap around. */
  function BitLength(n: nat): (l: nat)
    ensures l < TWO_64 && (8 * n < TWO_64 ==> l == 8 * n)
  {
    (8 * n) % TWO_64
  }

  function Pad(m: seq<byte>): (p: seq<byte>)
    ensures |p| % BLOCK == 0
  {
    m + [0x80] + Zeros(ZeroCount(|m|)) + BigEndian64(BitLength(|m|))
  }

  /** The two padding cases: the length fits in the last, partial block, or it needs a block of its own. */
  lemma PadShort(whole: seq<byte>, tail: seq<byte>, blocks: nat)
    requires |whole| == BLOCK * blocks && |tail| < 56
    ensures Pad(whole + tail) == whole + (tail + [0x80] + Zeros(55 - |tail|) + BigEndian64(BitLength(|whole| + |tail|)))
  {
    assert (BLOCK * blocks + |tail|) % BLOCK == |tail|;
    assert ZeroCount(|whole + tail|) == 55 - |tail|;
  }

  lemma PadLong(whole: seq<byte>, tail: seq<byte>, blocks: nat)
    requires |whole| == BLOCK * blocks && 56 <= |tail| < BLOCK
    ensures Pad(whole + tail) ==
      (whole + (tail + [0x80] + Zeros(63 - |tail|))) + (Zeros(56) + BigEndian64(BitLength(|whole| + |tail|)))
  {
    assert (BLOCK * blocks + |tail|) % BLOCK == |tail|;
    assert ZeroCount(|whole + tail|) == 119 - |tail|;
    assert Zeros(119 - |tail|) == Zeros(63 - |tail|) + Zeros(56);
  }

  /** Byte i of a word, most significant first. */
  function OutByte(w: word, i: nat): byte
    requires i < 4
  {
    ((w >> (24 - 8 * i)) & 0xff) as bv8 as int
  }

  function WordOf(v: Vars, w: nat): word
    requires w < 8
  {
    if w == 0 then v.a else if w == 1 then v.b else if w == 2 then v.c else if w == 3 then v.d
    else if w == 4 then v.e else if w == 5 then v.f else if w == 6 then v.g else v.h
  }

  /** The hash value as bytes: word after word, each big-endian. */
  function Digest(v: Vars): (s: seq<byte>)
    ensures |s| == DIGEST
  {
    seq(DIGEST, n requires 0 <= n < DIGEST => OutByte(WordOf(v, n / 4), n % 4))
  }

  /** Byte j of the first four words, and of the last four, is in place. */
  predicate LeftAt(s: seq<byte>, v: Vars, j: nat)
    requires |s| >= DIGEST && j < 4
  {
    && s[j] == OutByte(v.a, j) && s[j + 4] == OutByte(v.b, j)
    && s[j + 8] == OutByte(v.c, j) && s[j + 12] == OutByte(v.d, j)
  }

  predicate RightAt(s: seq<byte>, v: Vars, j: nat)
    requires |s| >= DIGEST && j < 4
  {
    && s[j + 16] == OutByte(v.e, j) && s[j + 20] == OutByte(v.f, j)
    && s[j + 24] == OutByte(v.g, j) && s[j + 28] == OutByte(v.h, j)
  }

  ghost predicate LeftWritten(s: seq<byte>, v: Vars, k: nat) {
    |s| >= DIGEST && forall j :: 0 <= j < k && j < 4 ==> LeftAt(s, v, j)
  }

  ghost predicate RightWritten(s: seq<byte>, v: Vars, k: nat) {
    |s| >= DIGEST && forall j :: 0 <= j < k && j < 4 ==> RightAt(s, v, j)
  }

  lemma AllWordsWritten(s: seq<byte>, v: Vars)
    requires LeftWritten(s, v, 4) && RightWritten(s, v, 4)
    ensures s[..DIGEST] == Digest(v)
  {
    hide OutByte;
    forall n | 0 <= n < DIGEST ensures s[n] == Digest(v)[n] {
      var j := n % 4;
      assert n == 4 * (n / 4) + j;
      assert LeftAt(s, v, j) && RightAt(s, v, j);
    }
  }

  function Sha256(m: seq<byte>): (s: seq<byte>)
    ensures |s| == DIGEST
  {
    Digest(HashBlocks(Pad(m)))
  }

  // ------------------------------------------------------ HMAC, RFC 2104 section 2

  /** K0: the key, hashed if longer than a block, filled with zeros to a block. */
  function KeyBlock(key: seq<byte>): (k: seq<byte>)
    ensures |k| == BLOCK
  {
    var k := if |key| > BLOCK then Sha256(key) else key;
    k + Zeros(BLOCK - |k|)
  }

  function XorByte(x: byte, y: byte): byte {
    ((x as bv8) ^ (y as bv8)) as int
  }

  function XorAll(s: seq<byte>, pad: byte): (r: seq<byte>)
    ensures |r| == |s|
  {
    seq(|s|, i requires 0 <= i < |s| => XorByte(s[i], pad))
  }

  function Hmac(key: seq<byte>, text: seq<byte>): (s: seq<byte>)
    ensures |s| == DIGEST
  {
    Sha256(XorAll(KeyBlock(key), 0x5c) + Sha256(XorAll(KeyBlock(key), 0x36) + text))
  }
}
