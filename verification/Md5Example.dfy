/** The digest of "abc", an example of appendix A.5 of RFC 1321: it fixes the constants, shifts, word orders and
    byte orders of the definitions. */
module Md5Example {
  import opened Hashing
  import opened Md5

  /** the words of the one block of the padded message */
  ghost predicate AbcWords(b: Block) {
    && BlockWord(b, 0) == 0x80636261 && BlockWord(b, 1) == BlockWord(b, 2) == BlockWord(b, 3) == BlockWord(b, 4) == 0
    && BlockWord(b, 5) == BlockWord(b, 6) == BlockWord(b, 7) == BlockWord(b, 8) == BlockWord(b, 9) == 0
    && BlockWord(b, 10) == BlockWord(b, 11) == BlockWord(b, 12) == BlockWord(b, 13) == 0
    && BlockWord(b, 14) == 24 && BlockWord(b, 15) == 0
  }

  lemma FirstWords(b: Block)
    requires b[..4] == [Byte(0x61), Byte(0x62), Byte(0x63), Byte(0x80)]
    requires (forall i :: 4 <= i < 56 ==> b[i] == Byte(0)) && b[56..] == Length64(24)
    ensures AbcWords(b)
  {
    assert b[56..] == [Byte(24), Byte(0), Byte(0), Byte(0), Byte(0), Byte(0), Byte(0), Byte(0)];
    assert Decode(b[..4]) == 0x80636261;
    assert Decode(b[56..60]) == 24;
    forall k | 1 <= k < 16 && k != 14 ensures BlockWord(b, k) == 0 {
      assert b[4 * k..4 * k + 4] == [Byte(0), Byte(0), Byte(0), Byte(0)];
    }
  }

  lemma NextOperation(v: Registers, b: Block, t: nat)
    requires t < 64
    ensures Operations(v, b, t + 1) == Operation(Operations(v, b, t), b, t)
  {
  }

  lemma TablesFrom8()
    ensures Index(8) == 8 && Index(9) == 9 && Index(10) == 10 && Index(11) == 11
    ensures Index(12) == 12 && Index(13) == 13 && Index(14) == 14 && Index(15) == 15
    ensures Shift(8) == 7 && Shift(9) == 12 && Shift(10) == 17 && Shift(11) == 22
    ensures Shift(12) == 7 && Shift(13) == 12 && Shift(14) == 17 && Shift(15) == 22
  {
  }

  lemma TablesFrom16()
    ensures Index(16) == 1 && Index(17) == 6 && Index(18) == 11 && Index(19) == 0
    ensures Index(20) == 5 && Index(21) == 10 && Index(22) == 15 && Index(23) == 4
    ensures Shift(16) == 5 && Shift(17) == 9 && Shift(18) == 14 && Shift(19) == 20
    ensures Shift(20) == 5 && Shift(21) == 9 && Shift(22) == 14 && Shift(23) == 20
  {
  }

  lemma TablesFrom24()
    ensures Index(24) == 9 && Index(25) == 14 && Index(26) == 3 && Index(27) == 8
    ensures Index(28) == 13 && Index(29) == 2 && Index(30) == 7 && Index(31) == 12
    ensures Shift(24) == 5 && Shift(25) == 9 && Shift(26) == 14 && Shift(27) == 20
    ensures Shift(28) == 5 && Shift(29) == 9 && Shift(30) == 14 && Shift(31) == 20
  {
  }

  lemma TablesFrom32()
    ensures Index(32) == 5 && Index(33) == 8 && Index(34) == 11 && Index(35) == 14
    ensures Index(36) == 1 && Index(37) == 4 && Index(38) == 7 && Index(39) == 10
    ensures Shift(32) == 4 && Shift(33) == 11 && Shift(34) == 16 && Shift(35) == 23
    ensures Shift(36) == 4 && Shift(37) == 11 && Shift(38) == 16 && Shift(39) == 23
  {
  }

  lemma TablesFrom40()
    ensures Index(40) == 13 && Index(41) == 0 && Index(42) == 3 && Index(43) == 6
    ensures Index(44) == 9 && Index(45) == 12 && Index(46) == 15 && Index(47) == 2
    ensures Shift(40) == 4 && Shift(41) == 11 && Shift(42) == 16 && Shift(43) == 23
    ensures Shift(44) == 4 && Shift(45) == 11 && Shift(46) == 16 && Shift(47) == 23
  {
  }

  lemma TablesFrom48()
    ensures Index(48) == 0 && Index(49) == 7 && Index(50) == 14 && Index(51) == 5
    ensures Index(52) == 12 && Index(53) == 3 && Index(54) == 10 && Index(55) == 1
    ensures Shift(48) == 6 && Shift(49) == 10 && Shift(50) == 15 && Shift(51) == 21
    ensures Shift(52) == 6 && Shift(53) == 10 && Shift(54) == 15 && Shift(55) == 21
  {
  }

  lemma TablesFrom56()
    ensures Index(56) == 8 && Index(57) == 15 && Index(58) == 6 && Index(59) == 13
    ensures Index(60) == 4 && Index(61) == 11 && Index(62) == 2 && Index(63) == 9
    ensures Shift(56) == 6 && Shift(57) == 10 && Shift(58) == 15 && Shift(59) == 21
    ensures Shift(60) == 6 && Shift(61) == 10 && Shift(62) == 15 && Shift(63) == 21
  {
  }

  lemma OperationsFrom0(b: Block)
    requires AbcWords(b)
    ensures Operations(INITIAL, b, 8) == Registers(0xc73741ef, 0x928d99f6, 0x207dc67b, 0x8bac3051)
  {
    assert Operations(INITIAL, b, 0) == INITIAL;
    hide Operations, BlockWord;
    NextOperation(INITIAL, b, 0);
    NextOperation(INITIAL, b, 1);
    NextOperation(INITIAL, b, 2);
    NextOperation(INITIAL, b, 3);
    NextOperation(INITIAL, b, 4);
    NextOperation(INITIAL, b, 5);
    NextOperation(INITIAL, b, 6);
    NextOperation(INITIAL, b, 7);
  }

  lemma OperationsFrom8(b: Block)
    requires AbcWords(b)
    requires Operations(INITIAL, b, 8) == Registers(0xc73741ef, 0x928d99f6, 0x207dc67b, 0x8bac3051)
    ensures Operations(INITIAL, b, 16) == Registers(0xdda9b9a6, 0x72aff2e0, 0xe396856b, 0xa1051895)
  {
    TablesFrom8();
    hide Operations, BlockWord, Index, Shift;
    NextOperation(INITIAL, b, 8);
    NextOperation(INITIAL, b, 9);
    NextOperation(INITIAL, b, 10);
    NextOperation(INITIAL, b, 11);
    NextOperation(INITIAL, b, 12);
    NextOperation(INITIAL, b, 13);
    NextOperation(INITIAL, b, 14);
    NextOperation(INITIAL, b, 15);
  }

  lemma OperationsFrom16(b: Block)
    requires AbcWords(b)
    requires Operations(INITIAL, b, 16) == Registers(0xdda9b9a6, 0x72aff2e0, 0xe396856b, 0xa1051895)
    ensures Operations(INITIAL, b, 24) == Registers(0x59a8ffda, 0x47092c07, 0xabfc7920, 0x6d002f1e)
  {
    TablesFrom16();
    hide Operations, BlockWord, Index, Shift;
    NextOperation(INITIAL, b, 16);
    NextOperation(INITIAL, b, 17);
    NextOperation(INITIAL, b, 18);
    NextOperation(INITIAL, b, 19);
    NextOperation(INITIAL, b, 20);
    NextOperation(INITIAL, b, 21);
    NextOperation(INITIAL, b, 22);
    NextOperation(INITIAL, b, 23);
  }

  lemma OperationsFrom24(b: Block)
    requires AbcWords(b)
    requires Operations(INITIAL, b, 24) == Registers(0x59a8ffda, 0x47092c07, 0xabfc7920, 0x6d002f1e)
    ensures Operations(INITIAL, b, 32) == Registers(0x790a77fb, 0x726342d3, 0xa62884aa, 0x9f47e4f8)
  {
    TablesFrom24();
    hide Operations, BlockWord, Index, Shift;
    NextOperation(INITIAL, b, 24);
    NextOperation(INITIAL, b, 25);
    NextOperation(INITIAL, b, 26);
    NextOperation(INITIAL, b, 27);
    NextOperation(INITIAL, b, 28);
    NextOperation(INITIAL, b, 29);
    NextOperation(INITIAL, b, 30);
    NextOperation(INITIAL, b, 31);
  }

  lemma OperationsFrom32(b: Block)
    requires AbcWords(b)
    requires Operations(INITIAL, b, 32) == Registers(0x790a77fb, 0x726342d3, 0xa62884aa, 0x9f47e4f8)
    ensures Operations(INITIAL, b, 40) == Registers(0x21b117b9, 0x5a2f5ea5, 0x3575227e, 0x6e7429d5)
  {
    TablesFrom32();
    hide Operations, BlockWord, Index, Shift;
    NextOperation(INITIAL, b, 32);
    NextOperation(INITIAL, b, 33);
    NextOperation(INITIAL, b, 34);
    NextOperation(INITIAL, b, 35);
    NextOperation(INITIAL, b, 36);
    NextOperation(INITIAL, b, 37);
    NextOperation(INITIAL, b, 38);
    NextOperation(INITIAL, b, 39);
  }

  lemma OperationsFrom40(b: Block)
    requires AbcWords(b)
    requires Operations(INITIAL, b, 40) == Registers(0x21b117b9, 0x5a2f5ea5, 0x3575227e, 0x6e7429d5)
    ensures Operations(INITIAL, b, 48) == Registers(0x7f2e507b, 0x7beb9700, 0x8fae6399, 0x99d9679d)
  {
    TablesFrom40();
    hide Operations, BlockWord, Index, Shift;
    NextOperation(INITIAL, b, 40);
    NextOperation(INITIAL, b, 41);
    NextOperation(INITIAL, b, 42);
    NextOperation(INITIAL, b, 43);
    NextOperation(INITIAL, b, 44);
    NextOperation(INITIAL, b, 45);
    NextOperation(INITIAL, b, 46);
    NextOperation(INITIAL, b, 47);
  }

  lemma OperationsFrom48(b: Block)
    requires AbcWords(b)
    requires Operations(INITIAL, b, 48) == Registers(0x7f2e507b, 0x7beb9700, 0x8fae6399, 0x99d9679d)
    ensures Operations(INITIAL, b, 56) == Registers(0x06cc5e8a, 0x3bfa2c27, 0x7d632dd0, 0x5b0d97aa)
  {
    TablesFrom48();
    hide Operations, BlockWord, Index, Shift;
    NextOperation(INITIAL, b, 48);
    NextOperation(INITIAL, b, 49);
    NextOperation(INITIAL, b, 50);
    NextOperation(INITIAL, b, 51);
    NextOperation(INITIAL, b, 52);
    NextOperation(INITIAL, b, 53);
    NextOperation(INITIAL, b, 54);
    NextOperation(INITIAL, b, 55);
  }

  lemma OperationsFrom56(b: Block)
    requires AbcWords(b)
    requires Operations(INITIAL, b, 56) == Registers(0x06cc5e8a, 0x3bfa2c27, 0x7d632dd0, 0x5b0d97aa)
    ensures Operations(INITIAL, b, 64) == Registers(0x310ade8f, 0xc08226b3, 0xe484b9d8, 0x624d8cb2)
  {
    TablesFrom56();
    hide Operations, BlockWord, Index, Shift;
    NextOperation(INITIAL, b, 56);
    NextOperation(INITIAL, b, 57);
    NextOperation(INITIAL, b, 58);
    NextOperation(INITIAL, b, 59);
    NextOperation(INITIAL, b, 60);
    NextOperation(INITIAL, b, 61);
    NextOperation(INITIAL, b, 62);
    NextOperation(INITIAL, b, 63);
  }

  lemma AbcRegisters(b: Block)
    requires AbcWords(b)
    ensures Compress(INITIAL, b) == Registers(0x98500190, 0xb04fd23c, 0x7d3f96d6, 0x727fe128)
  {
    hide AbcWords, Operations, INITIAL;
    OperationsFrom0(b);
    OperationsFrom8(b);
    OperationsFrom16(b);
    OperationsFrom24(b);
    OperationsFrom32(b);
    OperationsFrom40(b);
    OperationsFrom48(b);
    OperationsFrom56(b);
    Added(b);
  }

  lemma Added(b: Block)
    requires Operations(INITIAL, b, 64) == Registers(0x310ade8f, 0xc08226b3, 0xe484b9d8, 0x624d8cb2)
    ensures Compress(INITIAL, b) == Registers(0x98500190, 0xb04fd23c, 0x7d3f96d6, 0x727fe128)
  {
    hide Operations;
  }

  /** "abc" hashes to 900150983cd24fb0d6963f7d28e17f72. */
  lemma DigestOfAbc()
    ensures Digest(ABC) ==
      [Byte(0x90), Byte(0x01), Byte(0x50), Byte(0x98)]
      + [Byte(0x3c), Byte(0xd2), Byte(0x4f), Byte(0xb0)]
      + [Byte(0xd6), Byte(0x96), Byte(0x3f), Byte(0x7d)]
      + [Byte(0x28), Byte(0xe1), Byte(0x7f), Byte(0x72)]
  {
    var b := AbcBlock(Length64(24));
    FirstWords(b);
    AbcRegisters(b);
    OneBlock(b);
    hide Fold, Compress, Padded, Length64;
    Encoded();
  }

  lemma OneBlock(b: Block)
    ensures Fold(Compress, INITIAL, b) == Compress(INITIAL, b)
  {
    assert b[..0] == [] && b[0..] == b;
  }

  lemma Encoded()
    ensures EncodeWord(0x98500190) == [Byte(0x90), Byte(0x01), Byte(0x50), Byte(0x98)]
    ensures EncodeWord(0xb04fd23c) == [Byte(0x3c), Byte(0xd2), Byte(0x4f), Byte(0xb0)]
    ensures EncodeWord(0x7d3f96d6) == [Byte(0xd6), Byte(0x96), Byte(0x3f), Byte(0x7d)]
    ensures EncodeWord(0x727fe128) == [Byte(0x28), Byte(0xe1), Byte(0x7f), Byte(0x72)]
  {
  }
}
