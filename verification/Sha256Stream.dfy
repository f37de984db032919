/** The streaming SHA-256 context and HMAC of src/auth.c, proved against Sha256Spec. */
module Sha256Stream {
  import opened Common
  import opened Sha256Spec

  lemma ScheduleStep(block: seq<byte>, n: nat)
    requires |block| == BLOCK && n < 64
    ensures Schedule(block, n + 1) == Schedule(block, n) + [NextWord(block, Schedule(block, n))]
    ensures Schedule(block, 0) == []
  {
  }

  /** The two loops of `fp_sha256_transform` that fill the message schedule. */
  method ExpandBlock(data: array<byte>) returns (m: array<word>)
    requires data.Length == BLOCK
    ensures fresh(m) && m[..] == Schedule(data[..], 64)
  {
    hide JoinBytes, ExpandWord, Schedule;
    m := new word[64](_ => 0);
    ScheduleStep(data[..], 0);
    for i := 0 to 16
      invariant m[..i] == Schedule(data[..], i)
      modifies m
    {
      ScheduleStep(data[..], i);
      var j := 4 * i;
      ghost var done := m[..i];
      m[i] := JoinBytes(data[j], data[j + 1], data[j + 2], data[j + 3]);
      assert m[..i + 1] == done + [NextWord(data[..], done)];
    }
    for i := 16 to 64
      invariant m[..i] == Schedule(data[..], i)
      modifies m
    {
      ScheduleStep(data[..], i);
      ghost var done := m[..i];
      m[i] := ExpandWord(m[i - 2], m[i - 7], m[i - 15], m[i - 16]);
      assert m[..i + 1] == done + [NextWord(data[..], done)];
    }
    assert m[..64] == m[..];
  }

  /** The 64 rounds of `fp_sha256_transform`. */
  method RunRounds(v: Vars, m: array<word>) returns (r: Vars)
    requires m.Length == 64
    ensures r == Rounds(v, m[..], 64)
  {
    hide K, T1, T2, Plus;
    var a, b, c, d := v.a, v.b, v.c, v.d;
    var e, f, g, h := v.e, v.f, v.g, v.h;
    for i := 0 to 64
      invariant Vars(a, b, c, d, e, f, g, h) == Rounds(v, m[..], i)
    {
      var t1 := T1(e, f, g, h, K(i), m[i]);
      var t2 := T2(a, b, c);
      ghost var w := Vars(a, b, c, d, e, f, g, h);
      h := g;
      g := f;
      f := e;
      e := Plus(d, t1);
      d := c;
      c := b;
      b := a;
      a := Plus(t1, t2);
      assert Vars(a, b, c, d, e, f, g, h) == Round(w, K(i), m[i]);
    }
    r := Vars(a, b, c, d, e, f, g, h);
  }

  lemma BitLengthAfterBlock(blocks: nat)
    ensures ((512 * blocks) % TWO_64 + 512) % TWO_64 == (512 * (blocks + 1)) % TWO_64
  {
    ModPlus(512 * blocks, 512, TWO_64);
  }

  lemma BitLengthAtEnd(blocks: nat, n: nat)
    ensures ((512 * blocks) % TWO_64 + n * 8) % TWO_64 == BitLength(BLOCK * blocks + n)
  {
    ModPlus(512 * blocks, n * 8, TWO_64);
    assert 8 * (BLOCK * blocks + n) == 512 * blocks + n * 8;
  }

  lemma WholeBlocks(blocks: nat)
    ensures (BLOCK * blocks) % BLOCK == 0 && (BLOCK * blocks + BLOCK) % BLOCK == 0
  {
    DivModUnique(BLOCK * blocks, blocks, 0, BLOCK);
    DivModUnique(BLOCK * blocks + BLOCK, blocks + 1, 0, BLOCK);
  }

  lemma TopByte(x: nat)
    requires x < TWO_64
    ensures (x / 0x100_0000_0000_0000) % 256 == x / 0x100_0000_0000_0000
  {
  }

  /** `fp_sha256_ctx`. */
  class Context {
    const data: array<byte>
    var datalen: nat
    /** A `uint64_t`. */
    var bitlen: nat
    var state: Vars
    /** Everything passed to Update so far, and how many full blocks of it there are. */
    ghost var fed: seq<byte>
    ghost var blocks: nat

    /** The full blocks fed so far are in `state` and `bitlen`, the rest is in `data`. */
    ghost predicate Valid()
      reads this, data
    {
      && data.Length == BLOCK
      && datalen < BLOCK && |fed| == BLOCK * blocks + datalen
      && bitlen == (512 * blocks) % TWO_64
      && (WholeBlocks(blocks); state == HashBlocks(fed[..BLOCK * blocks]))
      && data[..datalen] == fed[BLOCK * blocks..]
    }

    /** `fp_sha256_init`. */
    constructor ()
      ensures Valid() && fed == [] && fresh(data)
    {
      data := new byte[BLOCK](_ => 0);
      datalen := 0;
      bitlen := 0;
      state := H0;
      fed := [];
      blocks := 0;
    }

    /** `fp_sha256_transform`. */
    method Transform()
      requires data.Length == BLOCK
      modifies this`state
      ensures state == Compress(old(state), data[..])
    {
      var m := ExpandBlock(data);
      var v := RunRounds(state, m);
      state := Add(state, v);
    }

    /** `fp_sha256_update`. */
    method Update(chunk: seq<byte>)
      requires Valid()
      modifies this, data
      ensures Valid() && fed == old(fed) + chunk
    {
      hide HashBlocks;
      for i := 0 to |chunk|
        invariant Valid() && fed == old(fed) + chunk[..i]
      {
        Reassociated(old(fed), chunk[..i], [chunk[i]]);
        assert chunk[..i + 1] == chunk[..i] + [chunk[i]];
        Absorb(chunk[i]);
      }
      assert chunk[..|chunk|] == chunk;
    }

    /** The body of the update loop. */
    method Absorb(x: byte)
      requires Valid()
      modifies this, data
      ensures Valid() && fed == old(fed) + [x]
    {
      hide HashBlocks, Compress;
      ghost var whole := fed[..BLOCK * blocks];
      data[datalen] := x;
      datalen := datalen + 1;
      fed := fed + [x];
      assert fed[..BLOCK * blocks] == whole;
      assert data[..datalen] == fed[BLOCK * blocks..];
      if datalen == 64 {
        TakeBlock();
      }
    }

    /** A full buffer becomes one more hashed block. */
    method TakeBlock()
      requires data.Length == BLOCK == datalen && |fed| == BLOCK * (blocks + 1)
      requires bitlen == (512 * blocks) % TWO_64
      requires state == HashBlocks(fed[..BLOCK * blocks]) && data[..] == fed[BLOCK * blocks..]
      modifies this
      ensures Valid() && fed == old(fed)
    {
      hide HashBlocks, Compress;
      HashOneMore(fed[..BLOCK * blocks], data[..]);
      assert fed == fed[..BLOCK * blocks] + data[..];
      Transform();
      BitLengthAfterBlock(blocks);
      bitlen := (bitlen + 512) % TWO_64;
      datalen := 0;
      blocks := blocks + 1;
      assert fed[..BLOCK * blocks] == fed;
    }

    /** Append the byte 0x80 and zeros up to position `end`. */
    method Fill(end: nat)
      requires datalen < end <= data.Length
      modifies data
      ensures data[..end] == old(data[..datalen]) + [0x80] + Zeros(end - datalen - 1)
    {
      var i := datalen;
      data[i] := 0x80;
      i := i + 1;
      while i < end
        invariant datalen < i <= end
        invariant data[..i] == old(data[..datalen]) + [0x80] + Zeros(i - datalen - 1)
      {
        data[i] := 0;
        i := i + 1;
      }
    }

    method WriteLength()
      requires data.Length == BLOCK && bitlen < TWO_64
      modifies data
      ensures data[..56] == old(data[..56]) && data[56..] == BigEndian64(bitlen)
    {
      TopByte(bitlen);
      data[63] := bitlen % 256;
      data[62] := (bitlen / 0x100) % 256;
      data[61] := (bitlen / 0x1_0000) % 256;
      data[60] := (bitlen / 0x100_0000) % 256;
      data[59] := (bitlen / 0x1_0000_0000) % 256;
      data[58] := (bitlen / 0x100_0000_0000) % 256;
      data[57] := (bitlen / 0x1_0000_0000_0000) % 256;
      data[56] := (bitlen / 0x100_0000_0000_0000) % 256;
      assert data[56..] == [data[56], data[57], data[58], data[59], data[60], data[61], data[62], data[63]];
    }

    /** The two padding branches of `fp_sha256_final`: afterwards only the length is missing from the last block. */
    method PadBranches() returns (ghost hashed: seq<byte>)
      requires Valid()
      modifies this`state, data
      ensures |hashed| % BLOCK == 0 && state == HashBlocks(hashed)
      ensures Pad(fed) == hashed + (data[..56] + BigEndian64(BitLength(|fed|)))
    {
      hide HashBlocks, Compress, Pad, BigEndian64, BitLength;
      ghost var whole, tail := fed[..BLOCK * blocks], fed[BLOCK * blocks..];
      assert fed == whole + tail;
      WholeBlocks(blocks);
      if datalen < 56 {
        PadShort(whole, tail, blocks);
        Fill(56);
        assert data[..56] == tail + [0x80] + Zeros(55 - datalen);
        hashed := whole;
      } else {
        PadLong(whole, tail, blocks);
        Fill(64);
        ghost var first := data[..];
        assert first == tail + [0x80] + Zeros(63 - datalen);
        HashOneMore(whole, first);
        hashed := whole + first;
        Transform();
        forall j | 0 <= j < 56 { data[j] := 0; }
        assert data[..56] == Zeros(56);
      }
    }

    /** `fp_sha256_final` up to its output loop. */
    method PadAndTransform()
      requires Valid()
      modifies this, data
      ensures state == HashBlocks(Pad(old(fed)))
    {
      hide HashBlocks, Compress, Pad, BigEndian64;
      ghost var hashed := PadBranches();
      ghost var front := data[..56];
      BitLengthAtEnd(blocks, datalen);
      bitlen := (bitlen + datalen * 8) % TWO_64;
      hide BitLength;
      WriteLength();
      assert data[..] == data[..56] + data[56..];
      HashOneMore(hashed, data[..]);
      Transform();
    }

    /** `fp_sha256_final`: the first 32 bytes of `hash` become the digest of everything fed. */
    method Final(hash: array<byte>)
      requires Valid() && hash != data && hash.Length >= DIGEST
      modifies this, data, hash
      ensures hash[..DIGEST] == Sha256(old(fed)) && hash[DIGEST..] == old(hash[DIGEST..])
    {
      hide HashBlocks, Pad, Digest;
      PadAndTransform();
      WriteDigest(state, hash);
    }
  }

  /** The output loop of `fp_sha256_final`. */
  method WriteDigest(v: Vars, hash: array<byte>)
    requires hash.Length >= DIGEST
    modifies hash
    ensures hash[..DIGEST] == Digest(v) && hash[DIGEST..] == old(hash[DIGEST..])
  {
    hide OutByte, Digest;
    for i := 0 to 4
      invariant LeftWritten(hash[..], v, i) && RightWritten(hash[..], v, i)
      invariant hash[DIGEST..] == old(hash[DIGEST..])
    {
      ghost var before := hash[..];
      WriteLeft(v, hash, i);
      ghost var middle := hash[..];
      forall j | 0 <= j < i ensures RightAt(middle, v, j) { assert RightAt(before, v, j); }
      WriteRight(v, hash, i);
      forall j | 0 <= j < i + 1 ensures LeftAt(hash[..], v, j) { assert LeftAt(middle, v, j); }
      assert hash[DIGEST..] == old(hash[DIGEST..]);
    }
    AllWordsWritten(hash[..], v);
  }

  /** The body of the output loop: byte i of the first four words, then of the last four. */
  method WriteLeft(v: Vars, hash: array<byte>, i: nat)
    requires hash.Length >= DIGEST && i < 4 && LeftWritten(hash[..], v, i)
    modifies hash
    ensures LeftWritten(hash[..], v, i + 1)
    ensures forall n :: 16 <= n < hash.Length ==> hash[n] == old(hash[n])
  {
    hide OutByte;
    hash[i] := OutByte(v.a, i);
    hash[i + 4] := OutByte(v.b, i);
    hash[i + 8] := OutByte(v.c, i);
    hash[i + 12] := OutByte(v.d, i);
    forall j | 0 <= j < i ensures LeftAt(hash[..], v, j) { assert LeftAt(old(hash[..]), v, j); }
  }

  method WriteRight(v: Vars, hash: array<byte>, i: nat)
    requires hash.Length >= DIGEST && i < 4 && RightWritten(hash[..], v, i)
    modifies hash
    ensures RightWritten(hash[..], v, i + 1)
    ensures forall n :: 0 <= n < hash.Length && (n < 16 || DIGEST <= n) ==> hash[n] == old(hash[n])
  {
    hide OutByte;
    hash[i + 16] := OutByte(v.e, i);
    hash[i + 20] := OutByte(v.f, i);
    hash[i + 24] := OutByte(v.g, i);
    hash[i + 28] := OutByte(v.h, i);
    forall j | 0 <= j < i ensures RightAt(hash[..], v, j) { assert RightAt(old(hash[..]), v, j); }
  }

  function Concat(chunks: seq<seq<byte>>): seq<byte> {
    if chunks == [] then [] else Concat(chunks[..|chunks| - 1]) + chunks[|chunks| - 1]
  }

  /** However a message is cut into updates, the digest is the digest of the whole. */
  method HashChunks(chunks: seq<seq<byte>>) returns (digest: seq<byte>)
    ensures digest == Sha256(Concat(chunks))
  {
    hide Sha256, HashBlocks;
    var ctx := new Context();
    for i := 0 to |chunks|
      invariant ctx.Valid() && ctx.fed == Concat(chunks[..i]) && fresh(ctx) && fresh(ctx.data)
    {
      assert chunks[..i + 1][..i] == chunks[..i];
      ctx.Update(chunks[i]);
    }
    assert chunks[..|chunks|] == chunks;
    var hash := new byte[DIGEST](_ => 0);
    ctx.Final(hash);
    digest := hash[..DIGEST];
  }

  /** The key block of `fp_hmac_sha256`. */
  method FillKeyBlock(key: seq<byte>) returns (keyBlock: array<byte>)
    ensures fresh(keyBlock) && keyBlock[..] == KeyBlock(key)
  {
    hide Sha256, HashBlocks;
    keyBlock := new byte[BLOCK](_ => 0);
    if |key| > BLOCK {
      var keyCtx := new Context();
      keyCtx.Update(key);
      assert keyCtx.fed == key;
      keyCtx.Final(keyBlock);
      assert keyBlock[..] == keyBlock[..DIGEST] + keyBlock[DIGEST..];
    } else {
      forall i | 0 <= i < |key| { keyBlock[i] := key[i]; }
    }
  }

  method XorPads(keyBlock: array<byte>) returns (outerPad: array<byte>, innerPad: array<byte>)
    requires keyBlock.Length == BLOCK
    ensures fresh(outerPad) && fresh(innerPad)
    ensures outerPad[..] == XorAll(keyBlock[..], 0x5c) && innerPad[..] == XorAll(keyBlock[..], 0x36)
  {
    hide XorByte;
    outerPad, innerPad := new byte[BLOCK](_ => 0), new byte[BLOCK](_ => 0);
    for i := 0 to BLOCK
      invariant forall j :: 0 <= j < i ==>
        outerPad[j] == XorByte(keyBlock[j], 0x5c) && innerPad[j] == XorByte(keyBlock[j], 0x36)
      modifies outerPad, innerPad
    {
      outerPad[i] := XorByte(keyBlock[i], 0x5c);
      innerPad[i] := XorByte(keyBlock[i], 0x36);
    }
  }

  /** One of the two hashes of HMAC: a pad followed by a text. */
  method HashTwo(first: seq<byte>, second: seq<byte>) returns (digest: seq<byte>)
    ensures digest == Sha256(first + second)
  {
    hide Sha256, HashBlocks;
    var ctx := new Context();
    ctx.Update(first);
    ctx.Update(second);
    assert ctx.fed == first + second;
    var hash := new byte[DIGEST](_ => 0);
    ctx.Final(hash);
    digest := hash[..DIGEST];
  }

  /** `fp_hmac_sha256`. */
  method HmacSha256(key: seq<byte>, text: seq<byte>) returns (out: seq<byte>)
    ensures out == Hmac(key, text)
  {
    hide Sha256, XorAll, KeyBlock;
    var keyBlock := FillKeyBlock(key);
    var outerPad, innerPad := XorPads(keyBlock);
    var innerHash := HashTwo(innerPad[..], text);
    out := HashTwo(outerPad[..], innerHash);
  }
}
