/** The example of FIPS 180-4 for a message of one block: the digest of "abc". It pins every rotation, table entry and
    byte order of Sha256Spec. */
module Sha256Example {
  import opened Common
  import opened Sha256Spec

  const ABC: seq<byte> := [0x61, 0x62, 0x63]

  // ------------------------------------------------------------------ the schedule

  /** Words 8r to 8r + 7. */
  predicate Row(w: seq<word>, r: nat, x0: word, x1: word, x2: word, x3: word, x4: word, x5: word, x6: word, x7: word)
    requires r < 8 && |w| == 64
  {
    && w[8 * r] == x0 && w[8 * r + 1] == x1 && w[8 * r + 2] == x2 && w[8 * r + 3] == x3
    && w[8 * r + 4] == x4 && w[8 * r + 5] == x5 && w[8 * r + 6] == x6 && w[8 * r + 7] == x7
  }

  ghost predicate IsSchedule(w: seq<word>, block: seq<byte>) {
    |block| == BLOCK && |w| == 64 && w == Schedule(block, |w|)
  }

  lemma Word(w: seq<word>, block: seq<byte>, t: nat, x2: word, x7: word, x15: word, x16: word, x: word)
    requires IsSchedule(w, block) && 16 <= t < 64 && ExpandWord(x2, x7, x15, x16) == x
    requires w[t - 2] == x2 && w[t - 7] == x7 && w[t - 15] == x15 && w[t - 16] == x16
    ensures w[t] == x
  {
    hide ExpandWord, Schedule;
    ScheduleAt(block, |w|, t);
    var before := w[..t];
    assert before[t - 2] == x2 && before[t - 7] == x7 && before[t - 15] == x15 && before[t - 16] == x16;
  }

  /** The message fits in one block. */
  function Block(): (b: seq<byte>)
    ensures |b| == BLOCK
  {
    ABC + [0x80] + Zeros(52) + [0, 0, 0, 0, 0, 0, 0, 24]
  }

  lemma PaddedIsBlock()
    ensures Pad(ABC) == Block()
  {
    assert BitLength(3) == 24;
    assert BigEndian64(24) == [0, 0, 0, 0, 0, 0, 0, 24];
    assert ZeroCount(3) == 52;
  }

  lemma BytesAsWords()
    ensures (0 as byte) as word == 0 && (0x18 as byte) as word == 0x18 && (0x80 as byte) as word == 0x80
    ensures (0x61 as byte) as word == 0x61 && (0x62 as byte) as word == 0x62 && (0x63 as byte) as word == 0x63
  {
  }

  lemma Joined(b0: byte, b1: byte, b2: byte, b3: byte, x: word)
    requires ((b0 as word) << 24) | ((b1 as word) << 16) | ((b2 as word) << 8) | (b3 as word) == x
    ensures JoinBytes(b0, b1, b2, b3) == x
  {
  }

  lemma JoinedBytes()
    ensures JoinBytes(0x61, 0x62, 0x63, 0x80) == 0x61626380
    ensures JoinBytes(0, 0, 0, 0) == 0 && JoinBytes(0, 0, 0, 24) == 24
  {
    hide JoinBytes;
    BytesAsWords();
    Joined(0x61, 0x62, 0x63, 0x80, 0x61626380);
    Joined(0, 0, 0, 0, 0);
    Joined(0, 0, 0, 24, 24);
  }

  lemma WordOfBlock(w: seq<word>, block: seq<byte>, t: nat)
    requires IsSchedule(w, block) && t < 16
    ensures w[t] == JoinBytes(block[4 * t], block[4 * t + 1], block[4 * t + 2], block[4 * t + 3])
  {
    hide Schedule, JoinBytes;
    ScheduleAt(block, |w|, t);
  }

  lemma Words0To15(w: seq<word>)
    requires |w| == 64 && IsSchedule(w, Block())
    ensures Row(w, 0, 0x61626380, 0x00000000, 0x00000000, 0x00000000,
                 0x00000000, 0x00000000, 0x00000000, 0x00000000)
    ensures Row(w, 1, 0x00000000, 0x00000000, 0x00000000, 0x00000000,
                 0x00000000, 0x00000000, 0x00000000, 0x00000018)
  {
    hide IsSchedule, JoinBytes;
    JoinedBytes();
    var b := Block();
    assert b[0] == 0x61 && b[1] == 0x62 && b[2] == 0x63 && b[3] == 0x80 && b[63] == 24;
    assert forall i :: 4 <= i < 63 ==> b[i] == 0;
    forall t | 0 <= t < 16 ensures w[t] == if t == 0 then 0x61626380 else if t == 15 then 24 else 0 {
      WordOfBlock(w, b, t);
    }
  }

  lemma Words16To23(w: seq<word>)
    requires |w| == 64 && IsSchedule(w, Block())
    ensures Row(w, 2, 0x61626380, 0x000f0000, 0x7da86405, 0x600003c6,
                 0x3e9d7b78, 0x0183fc00, 0x12dcbfdb, 0xe2e2c38e)
  {
    hide IsSchedule, Schedule, Block;
    Words0To15(w);
    var x0, x1, x2, x3, x4, x5, x6, x7 := 0x61626380, 0x00000000, 0x00000000, 0x00000000, 0x00000000, 0x00000000,
      0x00000000, 0x00000000;
    var x8, x9, x10, x11, x12, x13, x14, x15 := 0x00000000, 0x00000000, 0x00000000, 0x00000000, 0x00000000,
      0x00000000, 0x00000000, 0x00000018;
    var x16, x17, x18, x19, x20, x21, x22, x23 := 0x61626380, 0x000f0000, 0x7da86405, 0x600003c6, 0x3e9d7b78,
      0x0183fc00, 0x12dcbfdb, 0xe2e2c38e;
    Word(w, Block(), 16, x14, x9, x1, x0, x16);
    Word(w, Block(), 17, x15, x10, x2, x1, x17);
    Word(w, Block(), 18, x16, x11, x3, x2, x18);
    Word(w, Block(), 19, x17, x12, x4, x3, x19);
    Word(w, Block(), 20, x18, x13, x5, x4, x20);
    Word(w, Block(), 21, x19, x14, x6, x5, x21);
    Word(w, Block(), 22, x20, x15, x7, x6, x22);
    Word(w, Block(), 23, x21, x16, x8, x7, x23);
  }

  lemma Words24To31(w: seq<word>)
    requires |w| == 64 && IsSchedule(w, Block())
    ensures Row(w, 3, 0xc8215c1a, 0xb73679a2, 0xe5bc3909, 0x32663c5b,
                 0x9d209d67, 0xec8726cb, 0x702138a4, 0xd3b7973b)
  {
    hide IsSchedule, Schedule, Block;
    Words0To15(w);
    Words16To23(w);
    var x8, x9, x10, x11, x12, x13, x14, x15 := 0x00000000, 0x00000000, 0x00000000, 0x00000000, 0x00000000,
      0x00000000, 0x00000000, 0x00000018;
    var x16, x17, x18, x19, x20, x21, x22, x23 := 0x61626380, 0x000f0000, 0x7da86405, 0x600003c6, 0x3e9d7b78,
      0x0183fc00, 0x12dcbfdb, 0xe2e2c38e;
    var x24, x25, x26, x27, x28, x29, x30, x31 := 0xc8215c1a, 0xb73679a2, 0xe5bc3909, 0x32663c5b, 0x9d209d67,
      0xec8726cb, 0x702138a4, 0xd3b7973b;
    Word(w, Block(), 24, x22, x17, x9, x8, x24);
    Word(w, Block(), 25, x23, x18, x10, x9, x25);
    Word(w, Block(), 26, x24, x19, x11, x10, x26);
    Word(w, Block(), 27, x25, x20, x12, x11, x27);
    Word(w, Block(), 28, x26, x21, x13, x12, x28);
    Word(w, Block(), 29, x27, x22, x14, x13, x29);
    Word(w, Block(), 30, x28, x23, x15, x14, x30);
    Word(w, Block(), 31, x29, x24, x16, x15, x31);
  }

  lemma Words32To39(w: seq<word>)
    requires |w| == 64 && IsSchedule(w, Block())
    ensures Row(w, 4, 0x93f5997f, 0x3b68ba73, 0xaff4ffc1, 0xf10a5c62,
                 0x0a8b3996, 0x72af830a, 0x9409e33e, 0x24641522)
  {
    hide IsSchedule, Schedule, Block;
    Words16To23(w);
    Words24To31(w);
    var x16, x17, x18, x19, x20, x21, x22, x23 := 0x61626380, 0x000f0000, 0x7da86405, 0x600003c6, 0x3e9d7b78,
      0x0183fc00, 0x12dcbfdb, 0xe2e2c38e;
    var x24, x25, x26, x27, x28, x29, x30, x31 := 0xc8215c1a, 0xb73679a2, 0xe5bc3909, 0x32663c5b, 0x9d209d67,
      0xec8726cb, 0x702138a4, 0xd3b7973b;
    var x32, x33, x34, x35, x36, x37, x38, x39 := 0x93f5997f, 0x3b68ba73, 0xaff4ffc1, 0xf10a5c62, 0x0a8b3996,
      0x72af830a, 0x9409e33e, 0x24641522;
    Word(w, Block(), 32, x30, x25, x17, x16, x32);
    Word(w, Block(), 33, x31, x26, x18, x17, x33);
    Word(w, Block(), 34, x32, x27, x19, x18, x34);
    Word(w, Block(), 35, x33, x28, x20, x19, x35);
    Word(w, Block(), 36, x34, x29, x21, x20, x36);
    Word(w, Block(), 37, x35, x30, x22, x21, x37);
    Word(w, Block(), 38, x36, x31, x23, x22, x38);
    Word(w, Block(), 39, x37, x32, x24, x23, x39);
  }

  lemma Words40To47(w: seq<word>)
    requires |w| == 64 && IsSchedule(w, Block())
    ensures Row(w, 5, 0x9f47bf94, 0xf0a64f5a, 0x3e246a79, 0x27333ba3,
                 0x0c4763f2, 0x840abf27, 0x7a290d5d, 0x065c43da)
  {
    hide IsSchedule, Schedule, Block;
    Words24To31(w);
    Words32To39(w);
    var x24, x25, x26, x27, x28, x29, x30, x31 := 0xc8215c1a, 0xb73679a2, 0xe5bc3909, 0x32663c5b, 0x9d209d67,
      0xec8726cb, 0x702138a4, 0xd3b7973b;
    var x32, x33, x34, x35, x36, x37, x38, x39 := 0x93f5997f, 0x3b68ba73, 0xaff4ffc1, 0xf10a5c62, 0x0a8b3996,
      0x72af830a, 0x9409e33e, 0x24641522;
    var x40, x41, x42, x43, x44, x45, x46, x47 := 0x9f47bf94, 0xf0a64f5a, 0x3e246a79, 0x27333ba3, 0x0c4763f2,
      0x840abf27, 0x7a290d5d, 0x065c43da;
    Word(w, Block(), 40, x38, x33, x25, x24, x40);
    Word(w, Block(), 41, x39, x34, x26, x25, x41);
    Word(w, Block(), 42, x40, x35, x27, x26, x42);
    Word(w, Block(), 43, x41, x36, x28, x27, x43);
    Word(w, Block(), 44, x42, x37, x29, x28, x44);
    Word(w, Block(), 45, x43, x38, x30, x29, x45);
    Word(w, Block(), 46, x44, x39, x31, x30, x46);
    Word(w, Block(), 47, x45, x40, x32, x31, x47);
  }

  lemma Words48To55(w: seq<word>)
    requires |w| == 64 && IsSchedule(w, Block())
    ensures Row(w, 6, 0xfb3e89cb, 0xcc7617db, 0xb9e66c34, 0xa9993667,
                 0x84badedd, 0xc21462bc, 0x1487472c, 0xb20f7a99)
  {
    hide IsSchedule, Schedule, Block;
    Words32To39(w);
    Words40To47(w);
    var x32, x33, x34, x35, x36, x37, x38, x39 := 0x93f5997f, 0x3b68ba73, 0xaff4ffc1, 0xf10a5c62, 0x0a8b3996,
      0x72af830a, 0x9409e33e, 0x24641522;
    var x40, x41, x42, x43, x44, x45, x46, x47 := 0x9f47bf94, 0xf0a64f5a, 0x3e246a79, 0x27333ba3, 0x0c4763f2,
      0x840abf27, 0x7a290d5d, 0x065c43da;
    var x48, x49, x50, x51, x52, x53, x54, x55 := 0xfb3e89cb, 0xcc7617db, 0xb9e66c34, 0xa9993667, 0x84badedd,
      0xc21462bc, 0x1487472c, 0xb20f7a99;
    Word(w, Block(), 48, x46, x41, x33, x32, x48);
    Word(w, Block(), 49, x47, x42, x34, x33, x49);
    Word(w, Block(), 50, x48, x43, x35, x34, x50);
    Word(w, Block(), 51, x49, x44, x36, x35, x51);
    Word(w, Block(), 52, x50, x45, x37, x36, x52);
    Word(w, Block(), 53, x51, x46, x38, x37, x53);
    Word(w, Block(), 54, x52, x47, x39, x38, x54);
    Word(w, Block(), 55, x53, x48, x40, x39, x55);
  }

  lemma Words56To63(w: seq<word>)
    requires |w| == 64 && IsSchedule(w, Block())
    ensures Row(w, 7, 0xef57b9cd, 0xebe6b238, 0x9fe3095e, 0x78bc8d4b,
                 0xa43fcf15, 0x668b2ff8, 0xeeaba2cc, 0x12b1edeb)
  {
    hide IsSchedule, Schedule, Block;
    Words40To47(w);
    Words48To55(w);
    var x40, x41, x42, x43, x44, x45, x46, x47 := 0x9f47bf94, 0xf0a64f5a, 0x3e246a79, 0x27333ba3, 0x0c4763f2,
      0x840abf27, 0x7a290d5d, 0x065c43da;
    var x48, x49, x50, x51, x52, x53, x54, x55 := 0xfb3e89cb, 0xcc7617db, 0xb9e66c34, 0xa9993667, 0x84badedd,
      0xc21462bc, 0x1487472c, 0xb20f7a99;
    var x56, x57, x58, x59, x60, x61, x62, x63 := 0xef57b9cd, 0xebe6b238, 0x9fe3095e, 0x78bc8d4b, 0xa43fcf15,
      0x668b2ff8, 0xeeaba2cc, 0x12b1edeb;
    Word(w, Block(), 56, x54, x49, x41, x40, x56);
    Word(w, Block(), 57, x55, x50, x42, x41, x57);
    Word(w, Block(), 58, x56, x51, x43, x42, x58);
    Word(w, Block(), 59, x57, x52, x44, x43, x59);
    Word(w, Block(), 60, x58, x53, x45, x44, x60);
    Word(w, Block(), 61, x59, x54, x46, x45, x61);
    Word(w, Block(), 62, x60, x55, x47, x46, x62);
    Word(w, Block(), 63, x61, x56, x48, x47, x63);
  }

  // -------------------------------------------------------------------- the rounds

  /** The working variables after n rounds. */
  ghost predicate After(w: seq<word>, n: nat, a: word, b: word, c: word, d: word, e: word, f: word, g: word, h: word) {
    |w| == 64 && n <= 64 && Rounds(H0, w, n) == Vars(a, b, c, d, e, f, g, h)
  }

  lemma Step(w: seq<word>, n: nat, a: word, b: word, c: word, d: word, e: word, f: word, g: word, h: word,
             k: word, x: word, a': word, e': word)
    requires |w| == 64 && n < 64 && K(n) == k && w[n] == x && After(w, n, a, b, c, d, e, f, g, h)
    requires Plus(T1(e, f, g, h, k, x), T2(a, b, c)) == a' && Plus(d, T1(e, f, g, h, k, x)) == e'
    ensures After(w, n + 1, a', a, b, c, e', e, f, g)
  {
    hide K, T1, T2, Plus;
  }

  lemma Start(w: seq<word>)
    requires |w| == 64
    ensures After(w, 0, 0x6a09e667, 0xbb67ae85, 0x3c6ef372, 0xa54ff53a,
                   0x510e527f, 0x9b05688c, 0x1f83d9ab, 0x5be0cd19)
  {
  }

  lemma Rounds0To7(w: seq<word>)
    requires |w| == 64 && IsSchedule(w, Block())
    ensures After(w, 8, 0x85a07b5f, 0xe5030380, 0x2b4209f5, 0x04409a6a,
                   0x0c657a79, 0x9b27a401, 0x714260ad, 0x43ada245)
  {
    hide Rounds, After, IsSchedule, Block;
    Words0To15(w);
    Start(w);
    var a0, a1, a2, a3 := 0xa54ff53a, 0x3c6ef372, 0xbb67ae85, 0x6a09e667;
    var a4, a5, a6, a7, a8, a9, a10, a11 := 0x5d6aebcd, 0x5a6ad9ad, 0xc8c347a7, 0xd550f666, 0x04409a6a, 0x2b4209f5,
      0xe5030380, 0x85a07b5f;
    var e0, e1, e2, e3 := 0x5be0cd19, 0x1f83d9ab, 0x9b05688c, 0x510e527f;
    var e4, e5, e6, e7, e8, e9, e10, e11 := 0xfa2a4622, 0x78ce7989, 0xf92939eb, 0x24e00850, 0x43ada245, 0x714260ad,
      0x9b27a401, 0x0c657a79;
    Step(w, 0, a3, a2, a1, a0, e3, e2, e1, e0, 0x428a2f98, 0x61626380, a4, e4);
    Step(w, 1, a4, a3, a2, a1, e4, e3, e2, e1, 0x71374491, 0x00000000, a5, e5);
    Step(w, 2, a5, a4, a3, a2, e5, e4, e3, e2, 0xb5c0fbcf, 0x00000000, a6, e6);
    Step(w, 3, a6, a5, a4, a3, e6, e5, e4, e3, 0xe9b5dba5, 0x00000000, a7, e7);
    Step(w, 4, a7, a6, a5, a4, e7, e6, e5, e4, 0x3956c25b, 0x00000000, a8, e8);
    Step(w, 5, a8, a7, a6, a5, e8, e7, e6, e5, 0x59f111f1, 0x00000000, a9, e9);
    Step(w, 6, a9, a8, a7, a6, e9, e8, e7, e6, 0x923f82a4, 0x00000000, a10, e10);
    Step(w, 7, a10, a9, a8, a7, e10, e9, e8, e7, 0xab1c5ed5, 0x00000000, a11, e11);
  }

  lemma Rounds8To15(w: seq<word>)
    requires |w| == 64 && IsSchedule(w, Block())
    ensures After(w, 16, 0xb0fa238e, 0xc0645fde, 0xd932eb16, 0x87912990,
                   0x07590dcd, 0x0b92f20c, 0x745a48de, 0x1e578218)
  {
    hide Rounds, After, IsSchedule, Block;
    Words0To15(w);
    Rounds0To7(w);
    var a0, a1, a2, a3 := 0x04409a6a, 0x2b4209f5, 0xe5030380, 0x85a07b5f;
    var a4, a5, a6, a7, a8, a9, a10, a11 := 0x8e04ecb9, 0x8c87346b, 0x4798a3f4, 0xf71fc5a9, 0x87912990, 0xd932eb16,
      0xc0645fde, 0xb0fa238e;
    var e0, e1, e2, e3 := 0x43ada245, 0x714260ad, 0x9b27a401, 0x0c657a79;
    var e4, e5, e6, e7, e8, e9, e10, e11 := 0x32ca2d8c, 0x1cc92596, 0x436b23e8, 0x816fd6e9, 0x1e578218, 0x745a48de,
      0x0b92f20c, 0x07590dcd;
    Step(w, 8, a3, a2, a1, a0, e3, e2, e1, e0, 0xd807aa98, 0x00000000, a4, e4);
    Step(w, 9, a4, a3, a2, a1, e4, e3, e2, e1, 0x12835b01, 0x00000000, a5, e5);
    Step(w, 10, a5, a4, a3, a2, e5, e4, e3, e2, 0x243185be, 0x00000000, a6, e6);
    Step(w, 11, a6, a5, a4, a3, e6, e5, e4, e3, 0x550c7dc3, 0x00000000, a7, e7);
    Step(w, 12, a7, a6, a5, a4, e7, e6, e5, e4, 0x72be5d74, 0x00000000, a8, e8);
    Step(w, 13, a8, a7, a6, a5, e8, e7, e6, e5, 0x80deb1fe, 0x00000000, a9, e9);
    Step(w, 14, a9, a8, a7, a6, e9, e8, e7, e6, 0x9bdc06a7, 0x00000000, a10, e10);
    Step(w, 15, a10, a9, a8, a7, e10, e9, e8, e7, 0xc19bf174, 0x00000018, a11, e11);
  }

  lemma Rounds16To23(w: seq<word>)
    requires |w| == 64 && IsSchedule(w, Block())
    ensures After(w, 24, 0xc5d53d8d, 0xa7a3623f, 0xc2606d6d, 0x9dc68b63,
                   0xaa47c347, 0x49f5114a, 0xe1257970, 0x8ada8930)
  {
    hide Rounds, After, IsSchedule, Block;
    Words16To23(w);
    Rounds8To15(w);
    var a0, a1, a2, a3 := 0x87912990, 0xd932eb16, 0xc0645fde, 0xb0fa238e;
    var a4, a5, a6, a7, a8, a9, a10, a11 := 0x21da9a9b, 0xc2fbd9d1, 0xfe777bbf, 0xe1f20c33, 0x9dc68b63, 0xc2606d6d,
      0xa7a3623f, 0xc5d53d8d;
    var e0, e1, e2, e3 := 0x1e578218, 0x745a48de, 0x0b92f20c, 0x07590dcd;
    var e4, e5, e6, e7, e8, e9, e10, e11 := 0x8034229c, 0x846ee454, 0xcc899961, 0xb0638179, 0x8ada8930, 0xe1257970,
      0x49f5114a, 0xaa47c347;
    Step(w, 16, a3, a2, a1, a0, e3, e2, e1, e0, 0xe49b69c1, 0x61626380, a4, e4);
    Step(w, 17, a4, a3, a2, a1, e4, e3, e2, e1, 0xefbe4786, 0x000f0000, a5, e5);
    Step(w, 18, a5, a4, a3, a2, e5, e4, e3, e2, 0x0fc19dc6, 0x7da86405, a6, e6);
    Step(w, 19, a6, a5, a4, a3, e6, e5, e4, e3, 0x240ca1cc, 0x600003c6, a7, e7);
    Step(w, 20, a7, a6, a5, a4, e7, e6, e5, e4, 0x2de92c6f, 0x3e9d7b78, a8, e8);
    Step(w, 21, a8, a7, a6, a5, e8, e7, e6, e5, 0x4a7484aa, 0x0183fc00, a9, e9);
    Step(w, 22, a9, a8, a7, a6, e9, e8, e7, e6, 0x5cb0a9dc, 0x12dcbfdb, a10, e10);
    Step(w, 23, a10, a9, a8, a7, e10, e9, e8, e7, 0x76f988da, 0xe2e2c38e, a11, e11);
  }

  lemma Rounds24To31(w: seq<word>)
    requires |w| == 64 && IsSchedule(w, Block())
    ensures After(w, 32, 0x73b33bf5, 0xea992a22, 0xa0060b30, 0x363482c9,
                   0xba591112, 0x0109ab3a, 0xade79437, 0x6112a3b7)
  {
    hide Rounds, After, IsSchedule, Block;
    Words24To31(w);
    Rounds16To23(w);
    var a0, a1, a2, a3 := 0x9dc68b63, 0xc2606d6d, 0xa7a3623f, 0xc5d53d8d;
    var a4, a5, a6, a7, a8, a9, a10, a11 := 0x1c2c2838, 0xcde8037d, 0xb62ec4bc, 0x77d37528, 0x363482c9, 0xa0060b30,
      0xea992a22, 0x73b33bf5;
    var e0, e1, e2, e3 := 0x8ada8930, 0xe1257970, 0x49f5114a, 0xaa47c347;
    var e4, e5, e6, e7, e8, e9, e10, e11 := 0x2823ef91, 0x14383d8e, 0xc74c6516, 0xedffbff8, 0x6112a3b7, 0xade79437,
      0x0109ab3a, 0xba591112;
    Step(w, 24, a3, a2, a1, a0, e3, e2, e1, e0, 0x983e5152, 0xc8215c1a, a4, e4);
    Step(w, 25, a4, a3, a2, a1, e4, e3, e2, e1, 0xa831c66d, 0xb73679a2, a5, e5);
    Step(w, 26, a5, a4, a3, a2, e5, e4, e3, e2, 0xb00327c8, 0xe5bc3909, a6, e6);
    Step(w, 27, a6, a5, a4, a3, e6, e5, e4, e3, 0xbf597fc7, 0x32663c5b, a7, e7);
    Step(w, 28, a7, a6, a5, a4, e7, e6, e5, e4, 0xc6e00bf3, 0x9d209d67, a8, e8);
    Step(w, 29, a8, a7, a6, a5, e8, e7, e6, e5, 0xd5a79147, 0xec8726cb, a9, e9);
    Step(w, 30, a9, a8, a7, a6, e9, e8, e7, e6, 0x06ca6351, 0x702138a4, a10, e10);
    Step(w, 31, a10, a9, a8, a7, e10, e9, e8, e7, 0x14292967, 0xd3b7973b, a11, e11);
  }

  lemma Rounds32To39(w: seq<word>)
    requires |w| == 64 && IsSchedule(w, Block())
    ensures After(w, 40, 0x79ea687a, 0x6dc57a8a, 0x34df1604, 0x41a65cb1,
                   0x1efbc0a0, 0xf0781bc8, 0xa507a53d, 0x0772a26b)
  {
    hide Rounds, After, IsSchedule, Block;
    Words32To39(w);
    Rounds24To31(w);
    var a0, a1, a2, a3 := 0x363482c9, 0xa0060b30, 0xea992a22, 0x73b33bf5;
    var a4, a5, a6, a7, a8, a9, a10, a11 := 0x98e12507, 0xfe604df5, 0xa9a7738c, 0x65a0cfe4, 0x41a65cb1, 0x34df1604,
      0x6dc57a8a, 0x79ea687a;
    var e0, e1, e2, e3 := 0x6112a3b7, 0xade79437, 0x0109ab3a, 0xba591112;
    var e4, e5, e6, e7, e8, e9, e10, e11 := 0x9cd9f5f6, 0x59249dd3, 0x085f3833, 0xf4b002d6, 0x0772a26b, 0xa507a53d,
      0xf0781bc8, 0x1efbc0a0;
    Step(w, 32, a3, a2, a1, a0, e3, e2, e1, e0, 0x27b70a85, 0x93f5997f, a4, e4);
    Step(w, 33, a4, a3, a2, a1, e4, e3, e2, e1, 0x2e1b2138, 0x3b68ba73, a5, e5);
    Step(w, 34, a5, a4, a3, a2, e5, e4, e3, e2, 0x4d2c6dfc, 0xaff4ffc1, a6, e6);
    Step(w, 35, a6, a5, a4, a3, e6, e5, e4, e3, 0x53380d13, 0xf10a5c62, a7, e7);
    Step(w, 36, a7, a6, a5, a4, e7, e6, e5, e4, 0x650a7354, 0x0a8b3996, a8, e8);
    Step(w, 37, a8, a7, a6, a5, e8, e7, e6, e5, 0x766a0abb, 0x72af830a, a9, e9);
    Step(w, 38, a9, a8, a7, a6, e9, e8, e7, e6, 0x81c2c92e, 0x9409e33e, a10, e10);
    Step(w, 39, a10, a9, a8, a7, e10, e9, e8, e7, 0x92722c85, 0x24641522, a11, e11);
  }

  lemma Rounds40To47(w: seq<word>)
    requires |w| == 64 && IsSchedule(w, Block())
    ensures After(w, 48, 0x4172328d, 0xa14c14b0, 0x72ab4b91, 0x26628815,
                   0xfecf0bc6, 0xd57b94a9, 0xb7755da1, 0xa80f11f0)
  {
    hide Rounds, After, IsSchedule, Block;
    Words40To47(w);
    Rounds32To39(w);
    var a0, a1, a2, a3 := 0x41a65cb1, 0x34df1604, 0x6dc57a8a, 0x79ea687a;
    var a4, a5, a6, a7, a8, a9, a10, a11 := 0xd6670766, 0xdf46652f, 0x17aa0dfe, 0x9d4baf93, 0x26628815, 0x72ab4b91,
      0xa14c14b0, 0x4172328d;
    var e0, e1, e2, e3 := 0x0772a26b, 0xa507a53d, 0xf0781bc8, 0x1efbc0a0;
    var e4, e5, e6, e7, e8, e9, e10, e11 := 0x26352d63, 0x838b2711, 0xdecd4715, 0xfda24c2e, 0xa80f11f0, 0xb7755da1,
      0xd57b94a9, 0xfecf0bc6;
    Step(w, 40, a3, a2, a1, a0, e3, e2, e1, e0, 0xa2bfe8a1, 0x9f47bf94, a4, e4);
    Step(w, 41, a4, a3, a2, a1, e4, e3, e2, e1, 0xa81a664b, 0xf0a64f5a, a5, e5);
    Step(w, 42, a5, a4, a3, a2, e5, e4, e3, e2, 0xc24b8b70, 0x3e246a79, a6, e6);
    Step(w, 43, a6, a5, a4, a3, e6, e5, e4, e3, 0xc76c51a3, 0x27333ba3, a7, e7);
    Step(w, 44, a7, a6, a5, a4, e7, e6, e5, e4, 0xd192e819, 0x0c4763f2, a8, e8);
    Step(w, 45, a8, a7, a6, a5, e8, e7, e6, e5, 0xd6990624, 0x840abf27, a9, e9);
    Step(w, 46, a9, a8, a7, a6, e9, e8, e7, e6, 0xf40e3585, 0x7a290d5d, a10, e10);
    Step(w, 47, a10, a9, a8, a7, e10, e9, e8, e7, 0x106aa070, 0x065c43da, a11, e11);
  }

  lemma Rounds48To55(w: seq<word>)
    requires |w| == 64 && IsSchedule(w, Block())
    ensures After(w, 56, 0x38cc9913, 0x3ec45cdb, 0xf5702fdb, 0x101fd28f,
                   0x54cb266b, 0xe50e1b4f, 0x9f4787c3, 0x529e7d00)
  {
    hide Rounds, After, IsSchedule, Block;
    Words48To55(w);
    Rounds40To47(w);
    var a0, a1, a2, a3 := 0x26628815, 0x72ab4b91, 0xa14c14b0, 0x4172328d;
    var a4, a5, a6, a7, a8, a9, a10, a11 := 0x05757ceb, 0xf11bfaa8, 0x7a0508a1, 0x886e7a22, 0x101fd28f, 0xf5702fdb,
      0x3ec45cdb, 0x38cc9913;
    var e0, e1, e2, e3 := 0xa80f11f0, 0xb7755da1, 0xd57b94a9, 0xfecf0bc6;
    var e4, e5, e6, e7, e8, e9, e10, e11 := 0xbd714038, 0x6e5c390c, 0x52f1ccf7, 0x49231c1e, 0x529e7d00, 0x9f4787c3,
      0xe50e1b4f, 0x54cb266b;
    Step(w, 48, a3, a2, a1, a0, e3, e2, e1, e0, 0x19a4c116, 0xfb3e89cb, a4, e4);
    Step(w, 49, a4, a3, a2, a1, e4, e3, e2, e1, 0x1e376c08, 0xcc7617db, a5, e5);
    Step(w, 50, a5, a4, a3, a2, e5, e4, e3, e2, 0x2748774c, 0xb9e66c34, a6, e6);
    Step(w, 51, a6, a5, a4, a3, e6, e5, e4, e3, 0x34b0bcb5, 0xa9993667, a7, e7);
    Step(w, 52, a7, a6, a5, a4, e7, e6, e5, e4, 0x391c0cb3, 0x84badedd, a8, e8);
    Step(w, 53, a8, a7, a6, a5, e8, e7, e6, e5, 0x4ed8aa4a, 0xc21462bc, a9, e9);
    Step(w, 54, a9, a8, a7, a6, e9, e8, e7, e6, 0x5b9cca4f, 0x1487472c, a10, e10);
    Step(w, 55, a10, a9, a8, a7, e10, e9, e8, e7, 0x682e6ff3, 0xb20f7a99, a11, e11);
  }

  lemma Rounds56To63(w: seq<word>)
    requires |w| == 64 && IsSchedule(w, Block())
    ensures After(w, 64, 0x506e3058, 0xd39a2165, 0x04d24d6c, 0xb85e2ce9,
                   0x5ef50f24, 0xfb121210, 0x948d25b6, 0x961f4894)
  {
    hide Rounds, After, IsSchedule, Block;
    Words56To63(w);
    Rounds48To55(w);
    var a0, a1, a2, a3 := 0x101fd28f, 0xf5702fdb, 0x3ec45cdb, 0x38cc9913;
    var a4, a5, a6, a7, a8, a9, a10, a11 := 0xfcd1887b, 0xc062d46f, 0xffb70472, 0xb6ae8fff, 0xb85e2ce9, 0x04d24d6c,
      0xd39a2165, 0x506e3058;
    var e0, e1, e2, e3 := 0x529e7d00, 0x9f4787c3, 0xe50e1b4f, 0x54cb266b;
    var e4, e5, e6, e7, e8, e9, e10, e11 := 0x9b5e906c, 0x7e44008e, 0x6d83bfc6, 0xb21bad3d, 0x961f4894, 0x948d25b6,
      0xfb121210, 0x5ef50f24;
    Step(w, 56, a3, a2, a1, a0, e3, e2, e1, e0, 0x748f82ee, 0xef57b9cd, a4, e4);
    Step(w, 57, a4, a3, a2, a1, e4, e3, e2, e1, 0x78a5636f, 0xebe6b238, a5, e5);
    Step(w, 58, a5, a4, a3, a2, e5, e4, e3, e2, 0x84c87814, 0x9fe3095e, a6, e6);
    Step(w, 59, a6, a5, a4, a3, e6, e5, e4, e3, 0x8cc70208, 0x78bc8d4b, a7, e7);
    Step(w, 60, a7, a6, a5, a4, e7, e6, e5, e4, 0x90befffa, 0xa43fcf15, a8, e8);
    Step(w, 61, a8, a7, a6, a5, e8, e7, e6, e5, 0xa4506ceb, 0x668b2ff8, a9, e9);
    Step(w, 62, a9, a8, a7, a6, e9, e8, e7, e6, 0xbef9a3f7, 0xeeaba2cc, a10, e10);
    Step(w, 63, a10, a9, a8, a7, e10, e9, e8, e7, 0xc67178f2, 0x12b1edeb, a11, e11);
  }

  // -------------------------------------------------------------------- the digest

  lemma HashOfAbc()
    ensures HashBlocks(Block()) == Vars(0xba7816bf, 0x8f01cfea, 0x414140de, 0x5dae2223,
                                        0xb00361a3, 0x96177a9c, 0xb410ff61, 0xf20015ad)
  {
    hide Schedule, Rounds;
    var w := Schedule(Block(), 64);
    assert IsSchedule(w, Block());
    Rounds56To63(w);
    OneBlock(Block());
    AddsTo();
  }

  lemma OneBlock(block: seq<byte>)
    requires |block| == BLOCK
    ensures HashBlocks(block) == Add(H0, Rounds(H0, Schedule(block, 64), 64))
  {
    hide Add, Rounds, Schedule;
    assert HashBlocks([]) == H0;
    HashOneMore([], block);
    assert [] + block == block;
  }

  lemma AddsTo()
    ensures Add(H0, Vars(0x506e3058, 0xd39a2165, 0x04d24d6c, 0xb85e2ce9,
           0x5ef50f24, 0xfb121210, 0x948d25b6, 0x961f4894)) ==
      Vars(0xba7816bf, 0x8f01cfea, 0x414140de, 0x5dae2223,
           0xb00361a3, 0x96177a9c, 0xb410ff61, 0xf20015ad)
  {
  }

  lemma WordBytes()
    ensures OutByte(0xba7816bf, 0) == 0xba && OutByte(0xba7816bf, 1) == 0x78 &&
      OutByte(0xba7816bf, 2) == 0x16 && OutByte(0xba7816bf, 3) == 0xbf
    ensures OutByte(0x8f01cfea, 0) == 0x8f && OutByte(0x8f01cfea, 1) == 0x01 &&
      OutByte(0x8f01cfea, 2) == 0xcf && OutByte(0x8f01cfea, 3) == 0xea
    ensures OutByte(0x414140de, 0) == 0x41 && OutByte(0x414140de, 1) == 0x41 &&
      OutByte(0x414140de, 2) == 0x40 && OutByte(0x414140de, 3) == 0xde
    ensures OutByte(0x5dae2223, 0) == 0x5d && OutByte(0x5dae2223, 1) == 0xae &&
      OutByte(0x5dae2223, 2) == 0x22 && OutByte(0x5dae2223, 3) == 0x23
  {
  }

  lemma MoreWordBytes()
    ensures OutByte(0xb00361a3, 0) == 0xb0 && OutByte(0xb00361a3, 1) == 0x03 &&
      OutByte(0xb00361a3, 2) == 0x61 && OutByte(0xb00361a3, 3) == 0xa3
    ensures OutByte(0x96177a9c, 0) == 0x96 && OutByte(0x96177a9c, 1) == 0x17 &&
      OutByte(0x96177a9c, 2) == 0x7a && OutByte(0x96177a9c, 3) == 0x9c
    ensures OutByte(0xb410ff61, 0) == 0xb4 && OutByte(0xb410ff61, 1) == 0x10 &&
      OutByte(0xb410ff61, 2) == 0xff && OutByte(0xb410ff61, 3) == 0x61
    ensures OutByte(0xf20015ad, 0) == 0xf2 && OutByte(0xf20015ad, 1) == 0x00 &&
      OutByte(0xf20015ad, 2) == 0x15 && OutByte(0xf20015ad, 3) == 0xad
  {
  }

  /** SHA-256("abc"). */
  lemma DigestOfAbc()
    ensures Sha256(ABC) == [
      0xba, 0x78, 0x16, 0xbf, 0x8f, 0x01, 0xcf, 0xea, 0x41, 0x41, 0x40, 0xde, 0x5d, 0xae, 0x22, 0x23,
      0xb0, 0x03, 0x61, 0xa3, 0x96, 0x17, 0x7a, 0x9c, 0xb4, 0x10, 0xff, 0x61, 0xf2, 0x00, 0x15, 0xad]
  {
    hide HashBlocks, Pad, OutByte, Block;
    PaddedIsBlock();
    HashOfAbc();
    WordBytes();
    MoreWordBytes();
  }
}
