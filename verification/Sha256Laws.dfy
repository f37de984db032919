/** What the functions and constants of FIPS 180-4 (sections 4.1.2, 4.2.2 and 5.3.3) are, said in other terms than
    those that define them. */
module Sha256Laws {
  import opened Common
  import opened Sha256Spec

  /** Bit by bit, x chooses between y and z. */
  lemma ChChooses(x: word, y: word, z: word)
    ensures Ch(x, y, z) & x == y & x && Ch(x, y, z) & !x == z & !x
  {
  }

  /** Where two of the three agree, the majority is with them; which two does not matter. */
  lemma MajVotes(x: word, y: word, z: word)
    ensures Maj(x, y, z) & !(x ^ y) == x & !(x ^ y)
    ensures Maj(x, y, z) == Maj(y, z, x) == Maj(y, x, z)
  {
    MajAgrees(x, y, z);
    MajTurns(x, y, z);
  }

  lemma MajAgrees(x: word, y: word, z: word)
    ensures Maj(x, y, z) & !(x ^ y) == x & !(x ^ y)
  {
  }

  lemma MajTurns(x: word, y: word, z: word)
    ensures Maj(x, y, z) == Maj(y, z, x) == Maj(y, x, z)
  {
  }

  const PRIMES: seq<seq<nat>> := [
    [2, 3, 5, 7, 11, 13, 17, 19], [23, 29, 31, 37, 41, 43, 47, 53],
    [59, 61, 67, 71, 73, 79, 83, 89], [97, 101, 103, 107, 109, 113, 127, 131],
    [137, 139, 149, 151, 157, 163, 167, 173], [179, 181, 191, 193, 197, 199, 211, 223],
    [227, 229, 233, 239, 241, 251, 257, 263], [269, 271, 277, 281, 283, 293, 307, 311]]

  function Prime(t: nat): nat
    requires t < 64
  {
    PRIMES[t / 8][t % 8]
  }

  const TWO_32 := 0x1_0000_0000

  function Square(x: int): int { x * x }

  function Cube(x: int): int { x * x * x }

  /** f is the first 32 bits of the fractional part of the square root of p, which is i and a fraction. */
  predicate SquareRootBits(p: nat, i: nat, f: word) {
    Square(i * TWO_32 + f as int) <= p * Square(TWO_32) < Square(i * TWO_32 + f as int + 1)
  }

  predicate CubeRootBits(p: nat, i: nat, f: word) {
    Cube(i * TWO_32 + f as int) <= p * Cube(TWO_32) < Cube(i * TWO_32 + f as int + 1)
  }

  lemma H0IsSquareRoots()
    ensures SquareRootBits(2, 1, H0.a) && SquareRootBits(3, 1, H0.b)
    ensures SquareRootBits(5, 2, H0.c) && SquareRootBits(7, 2, H0.d)
    ensures SquareRootBits(11, 3, H0.e) && SquareRootBits(13, 3, H0.f)
    ensures SquareRootBits(17, 4, H0.g) && SquareRootBits(19, 4, H0.h)
  {
  }

  function CubeFloor(p: nat): nat {
    if p < 8 then 1 else if p < 27 then 2 else if p < 64 then 3 else if p < 125 then 4 else if p < 216 then 5 else 6
  }

  predicate RowIs(r: nat)
    requires r < 8
  {
    forall c :: 0 <= c < 8 ==> CubeRootBits(PRIMES[r][c], CubeFloor(PRIMES[r][c]), K_TABLE[r][c])
  }

  lemma Roots0()
    ensures CubeRootBits(2, 1, 0x428a2f98) && CubeRootBits(3, 1, 0x71374491)
    ensures CubeRootBits(5, 1, 0xb5c0fbcf) && CubeRootBits(7, 1, 0xe9b5dba5)
    ensures CubeRootBits(11, 2, 0x3956c25b) && CubeRootBits(13, 2, 0x59f111f1)
    ensures CubeRootBits(17, 2, 0x923f82a4) && CubeRootBits(19, 2, 0xab1c5ed5)
  {
  }

  lemma Roots1()
    ensures CubeRootBits(23, 2, 0xd807aa98) && CubeRootBits(29, 3, 0x12835b01)
    ensures CubeRootBits(31, 3, 0x243185be) && CubeRootBits(37, 3, 0x550c7dc3)
    ensures CubeRootBits(41, 3, 0x72be5d74) && CubeRootBits(43, 3, 0x80deb1fe)
    ensures CubeRootBits(47, 3, 0x9bdc06a7) && CubeRootBits(53, 3, 0xc19bf174)
  {
  }

  lemma Roots2()
    ensures CubeRootBits(59, 3, 0xe49b69c1) && CubeRootBits(61, 3, 0xefbe4786)
    ensures CubeRootBits(67, 4, 0x0fc19dc6) && CubeRootBits(71, 4, 0x240ca1cc)
    ensures CubeRootBits(73, 4, 0x2de92c6f) && CubeRootBits(79, 4, 0x4a7484aa)
    ensures CubeRootBits(83, 4, 0x5cb0a9dc) && CubeRootBits(89, 4, 0x76f988da)
  {
  }

  lemma Roots3()
    ensures CubeRootBits(97, 4, 0x983e5152) && CubeRootBits(101, 4, 0xa831c66d)
    ensures CubeRootBits(103, 4, 0xb00327c8) && CubeRootBits(107, 4, 0xbf597fc7)
    ensures CubeRootBits(109, 4, 0xc6e00bf3) && CubeRootBits(113, 4, 0xd5a79147)
    ensures CubeRootBits(127, 5, 0x06ca6351) && CubeRootBits(131, 5, 0x14292967)
  {
  }

  lemma Roots4()
    ensures CubeRootBits(137, 5, 0x27b70a85) && CubeRootBits(139, 5, 0x2e1b2138)
    ensures CubeRootBits(149, 5, 0x4d2c6dfc) && CubeRootBits(151, 5, 0x53380d13)
    ensures CubeRootBits(157, 5, 0x650a7354) && CubeRootBits(163, 5, 0x766a0abb)
    ensures CubeRootBits(167, 5, 0x81c2c92e) && CubeRootBits(173, 5, 0x92722c85)
  {
  }

  lemma Roots5()
    ensures CubeRootBits(179, 5, 0xa2bfe8a1) && CubeRootBits(181, 5, 0xa81a664b)
    ensures CubeRootBits(191, 5, 0xc24b8b70) && CubeRootBits(193, 5, 0xc76c51a3)
    ensures CubeRootBits(197, 5, 0xd192e819) && CubeRootBits(199, 5, 0xd6990624)
    ensures CubeRootBits(211, 5, 0xf40e3585) && CubeRootBits(223, 6, 0x106aa070)
  {
  }

  lemma Roots6()
    ensures CubeRootBits(227, 6, 0x19a4c116) && CubeRootBits(229, 6, 0x1e376c08)
    ensures CubeRootBits(233, 6, 0x2748774c) && CubeRootBits(239, 6, 0x34b0bcb5)
    ensures CubeRootBits(241, 6, 0x391c0cb3) && CubeRootBits(251, 6, 0x4ed8aa4a)
    ensures CubeRootBits(257, 6, 0x5b9cca4f) && CubeRootBits(263, 6, 0x682e6ff3)
  {
  }

  lemma Roots7()
    ensures CubeRootBits(269, 6, 0x748f82ee) && CubeRootBits(271, 6, 0x78a5636f)
    ensures CubeRootBits(277, 6, 0x84c87814) && CubeRootBits(281, 6, 0x8cc70208)
    ensures CubeRootBits(283, 6, 0x90befffa) && CubeRootBits(293, 6, 0xa4506ceb)
    ensures CubeRootBits(307, 6, 0xbef9a3f7) && CubeRootBits(311, 6, 0xc67178f2)
  {
  }

  lemma FirstRows()
    ensures RowIs(0) && RowIs(1) && RowIs(2) && RowIs(3)
  {
    hide CubeRootBits;
    assert RowIs(0) by { Roots0(); }
    assert RowIs(1) by { Roots1(); }
    assert RowIs(2) by { Roots2(); }
    assert RowIs(3) by { Roots3(); }
  }

  lemma LastRows()
    ensures RowIs(4) && RowIs(5) && RowIs(6) && RowIs(7)
  {
    hide CubeRootBits;
    assert RowIs(4) by { Roots4(); }
    assert RowIs(5) by { Roots5(); }
    assert RowIs(6) by { Roots6(); }
    assert RowIs(7) by { Roots7(); }
  }

  /** The constant of round t is the first 32 bits of the fractional part of the cube root of the t-th prime. */
  lemma KIsCubeRoots(t: nat)
    requires t < 64
    ensures CubeRootBits(Prime(t), CubeFloor(Prime(t)), K(t))
  {
    hide CubeRootBits, CubeFloor;
    FirstRows();
    LastRows();
    assert RowIs(t / 8);
  }

  // -------------------------------------------------------------------------- HMAC

  predicate IsXor(r: byte, x: byte, y: byte) {
    r as bv8 == (x as bv8) ^ (y as bv8)
  }

  /** The key, filled with zeros to a block, and every byte of that combined with the constant. */
  predicate IsPad(pad: seq<byte>, key: seq<byte>, constant: byte) {
    |pad| == BLOCK && forall i :: 0 <= i < BLOCK ==> IsXor(pad[i], if i < |key| then key[i] else 0, constant)
  }

  /** RFC 2104, section 2: the inner pad repeats 0x36 and the outer 0x5c; a key of more than a block is hashed. */
  lemma HmacMeans(key: seq<byte>, text: seq<byte>, inner: seq<byte>, outer: seq<byte>)
    requires var k := if |key| > BLOCK then Sha256(key) else key; IsPad(inner, k, 0x36) && IsPad(outer, k, 0x5c)
    ensures Hmac(key, text) == Sha256(outer + Sha256(inner + text))
  {
    hide Sha256, XorAll, KeyBlock, IsPad;
    PadIs(inner, key, 0x36);
    PadIs(outer, key, 0x5c);
  }

  lemma PadIs(pad: seq<byte>, key: seq<byte>, constant: byte)
    requires IsPad(pad, if |key| > BLOCK then Sha256(key) else key, constant)
    ensures pad == XorAll(KeyBlock(key), constant)
  {
    hide Sha256, XorByte, IsXor;
    var k := KeyBlock(key);
    forall i | 0 <= i < BLOCK ensures pad[i] == XorByte(k[i], constant) {
      XorByteIs(pad[i], k[i], constant);
    }
  }

  lemma XorByteIs(r: byte, x: byte, y: byte)
    requires IsXor(r, x, y)
    ensures XorByte(x, y) == r
  {
    ByteIsBits(r);
  }
}
