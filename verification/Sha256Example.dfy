/** The digest of "abc", the one-block example published with the standard: it fixes every constant, rotation
    and byte order of the definitions. */
module Sha256Example {
  import opened Hashing
  import opened Sha256

  /** eight words of the message schedule, from word t on */
  ghost predicate Row(b: Block, t: nat, w0: Word, w1: Word, w2: Word, w3: Word, w4: Word, w5: Word, w6: Word, w7: Word) {
    && Schedule(b, t) == w0 && Schedule(b, t + 1) == w1 && Schedule(b, t + 2) == w2 && Schedule(b, t + 3) == w3
    && Schedule(b, t + 4) == w4 && Schedule(b, t + 5) == w5 && Schedule(b, t + 6) == w6 && Schedule(b, t + 7) == w7
  }

  lemma WordsFrom16(b: Block)
    requires Row(b, 0, 0x61626380, 0x00000000, 0x00000000, 0x00000000, 0x00000000, 0x00000000, 0x00000000, 0x00000000)
    requires Row(b, 8, 0x00000000, 0x00000000, 0x00000000, 0x00000000, 0x00000000, 0x00000000, 0x00000000, 0x00000018)
    ensures Row(b, 16, 0x61626380, 0x000f0000, 0x7da86405, 0x600003c6, 0x3e9d7b78, 0x0183fc00, 0x12dcbfdb, 0xe2e2c38e)
  {
    hide Schedule;
    ScheduleSum(b, 0);
    ScheduleSum(b, 1);
    ScheduleSum(b, 2);
    ScheduleSum(b, 3);
    ScheduleSum(b, 4);
    ScheduleSum(b, 5);
    ScheduleSum(b, 6);
    ScheduleSum(b, 7);
  }

  lemma WordsFrom24(b: Block)
    requires Row(b, 8, 0x00000000, 0x00000000, 0x00000000, 0x00000000, 0x00000000, 0x00000000, 0x00000000, 0x00000018)
    requires Row(b, 16, 0x61626380, 0x000f0000, 0x7da86405, 0x600003c6, 0x3e9d7b78, 0x0183fc00, 0x12dcbfdb, 0xe2e2c38e)
    ensures Row(b, 24, 0xc8215c1a, 0xb73679a2, 0xe5bc3909, 0x32663c5b, 0x9d209d67, 0xec8726cb, 0x702138a4, 0xd3b7973b)
  {
    hide Schedule;
    ScheduleSum(b, 8);
    ScheduleSum(b, 9);
    ScheduleSum(b, 10);
    ScheduleSum(b, 11);
    ScheduleSum(b, 12);
    ScheduleSum(b, 13);
    ScheduleSum(b, 14);
    ScheduleSum(b, 15);
  }

  lemma WordsFrom32(b: Block)
    requires Row(b, 16, 0x61626380, 0x000f0000, 0x7da86405, 0x600003c6, 0x3e9d7b78, 0x0183fc00, 0x12dcbfdb, 0xe2e2c38e)
    requires Row(b, 24, 0xc8215c1a, 0xb73679a2, 0xe5bc3909, 0x32663c5b, 0x9d209d67, 0xec8726cb, 0x702138a4, 0xd3b7973b)
    ensures Row(b, 32, 0x93f5997f, 0x3b68ba73, 0xaff4ffc1, 0xf10a5c62, 0x0a8b3996, 0x72af830a, 0x9409e33e, 0x24641522)
    ensures Row(b, 40, 0x9f47bf94, 0xf0a64f5a, 0x3e246a79, 0x27333ba3, 0x0c4763f2, 0x840abf27, 0x7a290d5d, 0x065c43da)
  {
    hide Schedule;
    ScheduleSum(b, 16);
    ScheduleSum(b, 17);
    ScheduleSum(b, 18);
    ScheduleSum(b, 19);
    ScheduleSum(b, 20);
    ScheduleSum(b, 21);
    ScheduleSum(b, 22);
    ScheduleSum(b, 23);
    ScheduleSum(b, 24);
    ScheduleSum(b, 25);
    ScheduleSum(b, 26);
    ScheduleSum(b, 27);
    ScheduleSum(b, 28);
    ScheduleSum(b, 29);
    ScheduleSum(b, 30);
    ScheduleSum(b, 31);
  }

  lemma WordsFrom48(b: Block)
    requires Row(b, 32, 0x93f5997f, 0x3b68ba73, 0xaff4ffc1, 0xf10a5c62, 0x0a8b3996, 0x72af830a, 0x9409e33e, 0x24641522)
    requires Row(b, 40, 0x9f47bf94, 0xf0a64f5a, 0x3e246a79, 0x27333ba3, 0x0c4763f2, 0x840abf27, 0x7a290d5d, 0x065c43da)
    ensures Row(b, 48, 0xfb3e89cb, 0xcc7617db, 0xb9e66c34, 0xa9993667, 0x84badedd, 0xc21462bc, 0x1487472c, 0xb20f7a99)
    ensures Row(b, 56, 0xef57b9cd, 0xebe6b238, 0x9fe3095e, 0x78bc8d4b, 0xa43fcf15, 0x668b2ff8, 0xeeaba2cc, 0x12b1edeb)
  {
    hide Schedule;
    ScheduleSum(b, 32);
    ScheduleSum(b, 33);
    ScheduleSum(b, 34);
    ScheduleSum(b, 35);
    ScheduleSum(b, 36);
    ScheduleSum(b, 37);
    ScheduleSum(b, 38);
    ScheduleSum(b, 39);
    ScheduleSum(b, 40);
    ScheduleSum(b, 41);
    ScheduleSum(b, 42);
    ScheduleSum(b, 43);
    ScheduleSum(b, 44);
    ScheduleSum(b, 45);
    ScheduleSum(b, 46);
    ScheduleSum(b, 47);
  }

  lemma RoundsFrom0(b: Block)
    requires Row(b, 0, 0x61626380, 0x00000000, 0x00000000, 0x00000000, 0x00000000, 0x00000000, 0x00000000, 0x00000000)
    requires Row(b, 8, 0x00000000, 0x00000000, 0x00000000, 0x00000000, 0x00000000, 0x00000000, 0x00000000, 0x00000018)
    ensures Rounds(INITIAL, b, 16) ==
      [0xb0fa238e, 0xc0645fde, 0xd932eb16, 0x87912990, 0x07590dcd, 0x0b92f20c, 0x745a48de, 0x1e578218]
  {
    NoRounds(INITIAL, b);
    hide Rounds, Schedule;
    NextRound(INITIAL, b, 0);
    NextRound(INITIAL, b, 1);
    NextRound(INITIAL, b, 2);
    NextRound(INITIAL, b, 3);
    NextRound(INITIAL, b, 4);
    NextRound(INITIAL, b, 5);
    NextRound(INITIAL, b, 6);
    NextRound(INITIAL, b, 7);
    NextRound(INITIAL, b, 8);
    NextRound(INITIAL, b, 9);
    NextRound(INITIAL, b, 10);
    NextRound(INITIAL, b, 11);
    NextRound(INITIAL, b, 12);
    NextRound(INITIAL, b, 13);
    NextRound(INITIAL, b, 14);
    NextRound(INITIAL, b, 15);
  }

  lemma RoundsFrom16(b: Block)
    requires Row(b, 16, 0x61626380, 0x000f0000, 0x7da86405, 0x600003c6, 0x3e9d7b78, 0x0183fc00, 0x12dcbfdb, 0xe2e2c38e)
    requires Row(b, 24, 0xc8215c1a, 0xb73679a2, 0xe5bc3909, 0x32663c5b, 0x9d209d67, 0xec8726cb, 0x702138a4, 0xd3b7973b)
    requires Rounds(INITIAL, b, 16) ==
      [0xb0fa238e, 0xc0645fde, 0xd932eb16, 0x87912990, 0x07590dcd, 0x0b92f20c, 0x745a48de, 0x1e578218]
    ensures Rounds(INITIAL, b, 32) ==
      [0x73b33bf5, 0xea992a22, 0xa0060b30, 0x363482c9, 0xba591112, 0x0109ab3a, 0xade79437, 0x6112a3b7]
  {
    hide Rounds, Schedule;
    NextRound(INITIAL, b, 16);
    NextRound(INITIAL, b, 17);
    NextRound(INITIAL, b, 18);
    NextRound(INITIAL, b, 19);
    NextRound(INITIAL, b, 20);
    NextRound(INITIAL, b, 21);
    NextRound(INITIAL, b, 22);
    NextRound(INITIAL, b, 23);
    NextRound(INITIAL, b, 24);
    NextRound(INITIAL, b, 25);
    NextRound(INITIAL, b, 26);
    NextRound(INITIAL, b, 27);
    NextRound(INITIAL, b, 28);
    NextRound(INITIAL, b, 29);
    NextRound(INITIAL, b, 30);
    NextRound(INITIAL, b, 31);
  }

  lemma RoundsFrom32(b: Block)
    requires Row(b, 32, 0x93f5997f, 0x3b68ba73, 0xaff4ffc1, 0xf10a5c62, 0x0a8b3996, 0x72af830a, 0x9409e33e, 0x24641522)
    requires Row(b, 40, 0x9f47bf94, 0xf0a64f5a, 0x3e246a79, 0x27333ba3, 0x0c4763f2, 0x840abf27, 0x7a290d5d, 0x065c43da)
    requires Rounds(INITIAL, b, 32) ==
      [0x73b33bf5, 0xea992a22, 0xa0060b30, 0x363482c9, 0xba591112, 0x0109ab3a, 0xade79437, 0x6112a3b7]
    ensures Rounds(INITIAL, b, 48) ==
      [0x4172328d, 0xa14c14b0, 0x72ab4b91, 0x26628815, 0xfecf0bc6, 0xd57b94a9, 0xb7755da1, 0xa80f11f0]
  {
    hide Rounds, Schedule;
    NextRound(INITIAL, b, 32);
    NextRound(INITIAL, b, 33);
    NextRound(INITIAL, b, 34);
    NextRound(INITIAL, b, 35);
    NextRound(INITIAL, b, 36);
    NextRound(INITIAL, b, 37);
    NextRound(INITIAL, b, 38);
    NextRound(INITIAL, b, 39);
    NextRound(INITIAL, b, 40);
    NextRound(INITIAL, b, 41);
    NextRound(INITIAL, b, 42);
    NextRound(INITIAL, b, 43);
    NextRound(INITIAL, b, 44);
    NextRound(INITIAL, b, 45);
    NextRound(INITIAL, b, 46);
    NextRound(INITIAL, b, 47);
  }

  lemma RoundsFrom48(b: Block)
    requires Row(b, 48, 0xfb3e89cb, 0xcc7617db, 0xb9e66c34, 0xa9993667, 0x84badedd, 0xc21462bc, 0x1487472c, 0xb20f7a99)
    requires Row(b, 56, 0xef57b9cd, 0xebe6b238, 0x9fe3095e, 0x78bc8d4b, 0xa43fcf15, 0x668b2ff8, 0xeeaba2cc, 0x12b1edeb)
    requires Rounds(INITIAL, b, 48) ==
      [0x4172328d, 0xa14c14b0, 0x72ab4b91, 0x26628815, 0xfecf0bc6, 0xd57b94a9, 0xb7755da1, 0xa80f11f0]
    ensures Rounds(INITIAL, b, 64) ==
      [0x506e3058, 0xd39a2165, 0x04d24d6c, 0xb85e2ce9, 0x5ef50f24, 0xfb121210, 0x948d25b6, 0x961f4894]
  {
    hide Rounds, Schedule;
    NextRound(INITIAL, b, 48);
    NextRound(INITIAL, b, 49);
    NextRound(INITIAL, b, 50);
    NextRound(INITIAL, b, 51);
    NextRound(INITIAL, b, 52);
    NextRound(INITIAL, b, 53);
    NextRound(INITIAL, b, 54);
    NextRound(INITIAL, b, 55);
    NextRound(INITIAL, b, 56);
    NextRound(INITIAL, b, 57);
    NextRound(INITIAL, b, 58);
    NextRound(INITIAL, b, 59);
    NextRound(INITIAL, b, 60);
    NextRound(INITIAL, b, 61);
    NextRound(INITIAL, b, 62);
    NextRound(INITIAL, b, 63);
  }

  lemma FirstWords(b: Block)
    requires b[..4] == [Byte(0x61), Byte(0x62), Byte(0x63), Byte(0x80)]
    requires (forall i :: 4 <= i < 56 ==> b[i] == Byte(0)) && b[56..] == Length64(24)
    ensures Row(b, 0, 0x61626380, 0x00000000, 0x00000000, 0x00000000, 0x00000000, 0x00000000, 0x00000000, 0x00000000)
    ensures Row(b, 8, 0x00000000, 0x00000000, 0x00000000, 0x00000000, 0x00000000, 0x00000000, 0x00000000, 0x00000018)
  {
    assert b[56..] == [Byte(0), Byte(0), Byte(0), Byte(0), Byte(0), Byte(0), Byte(0), Byte(24)];
    assert Decode(b[..4]) == 0x61626380 && Decode(b[60..]) == 24;
    forall k | 1 <= k < 15 ensures Schedule(b, k) == 0 {
      assert b[4 * k..4 * k + 4] == [Byte(0), Byte(0), Byte(0), Byte(0)];
    }
  }

  lemma Rounded(b: Block)
    requires Row(b, 0, 0x61626380, 0x00000000, 0x00000000, 0x00000000, 0x00000000, 0x00000000, 0x00000000, 0x00000000)
    requires Row(b, 8, 0x00000000, 0x00000000, 0x00000000, 0x00000000, 0x00000000, 0x00000000, 0x00000000, 0x00000018)
    ensures Rounds(INITIAL, b, 64) ==
      [0x506e3058, 0xd39a2165, 0x04d24d6c, 0xb85e2ce9, 0x5ef50f24, 0xfb121210, 0x948d25b6, 0x961f4894]
  {
    hide Rounds, Row, INITIAL;
    WordsFrom16(b);
    WordsFrom24(b);
    WordsFrom32(b);
    WordsFrom48(b);
    RoundsFrom0(b);
    RoundsFrom16(b);
    RoundsFrom32(b);
    RoundsFrom48(b);
  }

  lemma AbcState(b: Block)
    requires Rounds(INITIAL, b, 64) ==
      [0x506e3058, 0xd39a2165, 0x04d24d6c, 0xb85e2ce9, 0x5ef50f24, 0xfb121210, 0x948d25b6, 0x961f4894]
    ensures Compress(INITIAL, b) ==
      [0xba7816bf, 0x8f01cfea, 0x414140de, 0x5dae2223, 0xb00361a3, 0x96177a9c, 0xb410ff61, 0xf20015ad]
  {
  }

  /** "abc" hashes to ba7816bf 8f01cfea 414140de 5dae2223 b00361a3 96177a9c b410ff61 f20015ad. */
  lemma DigestOfAbc()
    ensures Digest(ABC) ==
      [Byte(0xba), Byte(0x78), Byte(0x16), Byte(0xbf)] + [Byte(0x8f), Byte(0x01), Byte(0xcf), Byte(0xea)]
      + [Byte(0x41), Byte(0x41), Byte(0x40), Byte(0xde)] + [Byte(0x5d), Byte(0xae), Byte(0x22), Byte(0x23)]
      + [Byte(0xb0), Byte(0x03), Byte(0x61), Byte(0xa3)] + [Byte(0x96), Byte(0x17), Byte(0x7a), Byte(0x9c)]
      + [Byte(0xb4), Byte(0x10), Byte(0xff), Byte(0x61)] + [Byte(0xf2), Byte(0x00), Byte(0x15), Byte(0xad)]
  {
    var b := AbcBlock(Length64(24));
    FirstWords(b);
    Rounded(b);
    AbcState(b);
    OneBlock(b);
    Encoded();
  }

  lemma OneBlock(b: Block)
    ensures Fold(Compress, INITIAL, b) == Compress(INITIAL, b)
  {
    assert b[..0] == [] && b[0..] == b;
  }

  lemma EncodeNext(w: seq<Word>, x: Word, b: seq<Byte>, c: seq<Byte>)
    requires EncodeAll(w) == b && Encode(x) == c
    ensures EncodeAll(w + [x]) == b + c
  {
    assert (w + [x])[..|w|] == w;
  }

  lemma EncodeEight(s: State, a: seq<Byte>, b: seq<Byte>, c: seq<Byte>, d: seq<Byte>,
                    e: seq<Byte>, f: seq<Byte>, g: seq<Byte>, h: seq<Byte>)
    requires Encode(s[0]) == a && Encode(s[1]) == b && Encode(s[2]) == c && Encode(s[3]) == d
    requires Encode(s[4]) == e && Encode(s[5]) == f && Encode(s[6]) == g && Encode(s[7]) == h
    ensures EncodeAll(s) == a + b + c + d + e + f + g + h
  {
    hide Encode;
    assert EncodeAll([s[0]]) == a by { EncodeNext([], s[0], [], a); }
    hide EncodeAll;
    EncodeNext([s[0]], s[1], a, b);
    EncodeNext([s[0]] + [s[1]], s[2], a + b, c);
    EncodeNext([s[0]] + [s[1]] + [s[2]], s[3], a + b + c, d);
    EncodeNext([s[0]] + [s[1]] + [s[2]] + [s[3]], s[4], a + b + c + d, e);
    EncodeNext([s[0]] + [s[1]] + [s[2]] + [s[3]] + [s[4]], s[5], a + b + c + d + e, f);
    EncodeNext([s[0]] + [s[1]] + [s[2]] + [s[3]] + [s[4]] + [s[5]], s[6], a + b + c + d + e + f, g);
    EncodeNext([s[0]] + [s[1]] + [s[2]] + [s[3]] + [s[4]] + [s[5]] + [s[6]], s[7], a + b + c + d + e + f + g, h);
    assert s == [s[0]] + [s[1]] + [s[2]] + [s[3]] + [s[4]] + [s[5]] + [s[6]] + [s[7]];
  }

  lemma Encoded()
    ensures EncodeAll([0xba7816bf, 0x8f01cfea, 0x414140de, 0x5dae2223, 0xb00361a3, 0x96177a9c, 0xb410ff61, 0xf20015ad]) ==
      [Byte(0xba), Byte(0x78), Byte(0x16), Byte(0xbf)] + [Byte(0x8f), Byte(0x01), Byte(0xcf), Byte(0xea)]
      + [Byte(0x41), Byte(0x41), Byte(0x40), Byte(0xde)] + [Byte(0x5d), Byte(0xae), Byte(0x22), Byte(0x23)]
      + [Byte(0xb0), Byte(0x03), Byte(0x61), Byte(0xa3)] + [Byte(0x96), Byte(0x17), Byte(0x7a), Byte(0x9c)]
      + [Byte(0xb4), Byte(0x10), Byte(0xff), Byte(0x61)] + [Byte(0xf2), Byte(0x00), Byte(0x15), Byte(0xad)]
  {
    hide EncodeAll;
    EncodeEight([0xba7816bf, 0x8f01cfea, 0x414140de, 0x5dae2223, 0xb00361a3, 0x96177a9c, 0xb410ff61, 0xf20015ad],
                [Byte(0xba), Byte(0x78), Byte(0x16), Byte(0xbf)], [Byte(0x8f), Byte(0x01), Byte(0xcf), Byte(0xea)], [Byte(0x41), Byte(0x41), Byte(0x40), Byte(0xde)], [Byte(0x5d), Byte(0xae), Byte(0x22), Byte(0x23)],
                [Byte(0xb0), Byte(0x03), Byte(0x61), Byte(0xa3)], [Byte(0x96), Byte(0x17), Byte(0x7a), Byte(0x9c)], [Byte(0xb4), Byte(0x10), Byte(0xff), Byte(0x61)], [Byte(0xf2), Byte(0x00), Byte(0x15), Byte(0xad)]);
  }
}
