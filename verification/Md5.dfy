/** MD5: section 3 of RFC 1321, and the code of mkhash.c. */
module Md5 {
  import Arithmetic
  import opened Hashing

  /** half of a count of bytes */
  type Count = n: nat | n < 0x1_0000_0000

  datatype Registers = Registers(a: Word, b: Word, c: Word, d: Word)

  // Section 3.3
  const INITIAL := Registers(0x67452301, 0xefcdab89, 0x98badcfe, 0x10325476)

  // Section 3.4: the auxiliary functions, and the table T by rounds
  function AuxF(x: Word, y: Word, z: Word): Word { (x & y) | (!x & z) }

  function AuxG(x: Word, y: Word, z: Word): Word { (x & z) | (y & !z) }

  function AuxH(x: Word, y: Word, z: Word): Word { x ^ y ^ z }

  function AuxI(x: Word, y: Word, z: Word): Word { y ^ (x | !z) }

  const T1: seq<Word> := [
    0xd76aa478, 0xe8c7b756, 0x242070db, 0xc1bdceee, 0xf57c0faf, 0x4787c62a, 0xa8304613, 0xfd469501,
    0x698098d8, 0x8b44f7af, 0xffff5bb1, 0x895cd7be, 0x6b901122, 0xfd987193, 0xa679438e, 0x49b40821]

  const T2: seq<Word> := [
    0xf61e2562, 0xc040b340, 0x265e5a51, 0xe9b6c7aa, 0xd62f105d, 0x02441453, 0xd8a1e681, 0xe7d3fbc8,
    0x21e1cde6, 0xc33707d6, 0xf4d50d87, 0x455a14ed, 0xa9e3e905, 0xfcefa3f8, 0x676f02d9, 0x8d2a4c8a]

  const T3: seq<Word> := [
    0xfffa3942, 0x8771f681, 0x6d9d6122, 0xfde5380c, 0xa4beea44, 0x4bdecfa9, 0xf6bb4b60, 0xbebfbc70,
    0x289b7ec6, 0xeaa127fa, 0xd4ef3085, 0x04881d05, 0xd9d4d039, 0xe6db99e5, 0x1fa27cf8, 0xc4ac5665]

  const T4: seq<Word> := [
    0xf4292244, 0x432aff97, 0xab9423a7, 0xfc93a039, 0x655b59c3, 0x8f0ccc92, 0xffeff47d, 0x85845dd1,
    0x6fa87e4f, 0xfe2ce6e0, 0xa3014314, 0x4e0811a1, 0xf7537e82, 0xbd3af235, 0x2ad7d2bb, 0xeb86d391]

  function Constant(t: nat): Word
    requires t < 64
  {
    if t < 16 then T1[t] else if t < 32 then T2[t - 16] else if t < 48 then T3[t - 32] else T4[t - 48]
  }

  function Auxiliary(t: nat, x: Word, y: Word, z: Word): Word {
    if t < 16 then AuxF(x, y, z) else if t < 32 then AuxG(x, y, z) else if t < 48 then AuxH(x, y, z) else AuxI(x, y, z)
  }

  /** which word of the block the operation uses */
  function Index(t: nat): (k: nat)
    ensures k < 16
  {
    if t < 16 then t else if t < 32 then (5 * t + 1) % 16 else if t < 48 then (3 * t + 5) % 16 else 7 * t % 16
  }

  function Shift(t: nat): (s: bv6)
    ensures s <= 32
  {
    var i := t % 4;
    if t < 16 then (if i == 0 then 7 else if i == 1 then 12 else if i == 2 then 17 else 22)
    else if t < 32 then (if i == 0 then 5 else if i == 1 then 9 else if i == 2 then 14 else 20)
    else if t < 48 then (if i == 0 then 4 else if i == 1 then 11 else if i == 2 then 16 else 23)
    else (if i == 0 then 6 else if i == 1 then 10 else if i == 2 then 15 else 21)
  }

  function Rotl(x: Word, s: bv6): Word
    requires s <= 32
  {
    (x << s) | (x >> (32 - s))
  }

  /** four bytes as a little-endian word */
  function Decode(b: seq<Byte>): Word
    requires |b| == 4
  {
    (b[0].bits as bv32) | ((b[1].bits as bv32) << 8) | ((b[2].bits as bv32) << 16) | ((b[3].bits as bv32) << 24)
  }

  /** a number below 2^32 as four bytes, the least significant first */
  function Encode(n: nat): (b: seq<Byte>)
    ensures |b| == 4
  {
    [ToByte(n), ToByte(n / 0x100), ToByte(n / 0x10000), ToByte(n / 0x1000000)]
  }

  /** the same for a word */
  function EncodeWord(w: Word): (b: seq<Byte>)
    ensures |b| == 4
  {
    [Byte((w & 0xff) as bv8), Byte(((w >> 8) & 0xff) as bv8), Byte(((w >> 16) & 0xff) as bv8), Byte((w >> 24) as bv8)]
  }

  function BlockWord(b: Block, k: nat): Word
    requires k < 16
  {
    Decode(b[4 * k..4 * k + 4])
  }

  /** One operation. The register it computes is the second of the next one. */
  function Operation(v: Registers, b: Block, t: nat): Registers
    requires t < 64
  {
    var sum := Plus(Plus(Plus(v.a, Auxiliary(t, v.b, v.c, v.d)), BlockWord(b, Index(t))), Constant(t));
    Registers(v.d, Plus(v.b, Rotl(sum, Shift(t))), v.b, v.c)
  }

  function Operations(v: Registers, b: Block, t: nat): Registers
    requires t <= 64
  {
    if t == 0 then v else Operation(Operations(v, b, t - 1), b, t - 1)
  }

  function Compress(v: Registers, b: Block): Registers {
    var w := Operations(v, b, 64);
    Registers(Plus(w.a, v.a), Plus(w.b, v.b), Plus(w.c, v.c), Plus(w.d, v.d))
  }

  /** a number modulo 2^64 in eight bytes, the least significant first */
  function Length64(n: nat): (b: seq<Byte>)
    ensures |b| == 8
  {
    [ToByte(n), ToByte(n / 0x100), ToByte(n / 0x10000), ToByte(n / 0x1000000), ToByte(n / 0x100000000),
     ToByte(n / 0x10000000000), ToByte(n / 0x1000000000000), ToByte(n / 0x100000000000000)]
  }

  function Digest(m: seq<Byte>): seq<Byte> {
    var v := Fold(Compress, INITIAL, Padded(m, Length64(8 * |m|)));
    EncodeWord(v.a) + EncodeWord(v.b) + EncodeWord(v.c) + EncodeWord(v.d)
  }

  // The code

  /** which macro a step uses */
  datatype Macro = F | G | H | H2 | I

  /** a line STEP(f, ..., SET(index) or GET(index), constant, shift) */
  datatype Row = Row(f: Macro, index: nat, constant: Word, shift: bv6)

  const ROUND1: seq<Row> := [
    Row(F, 0, 0xd76aa478, 7), Row(F, 1, 0xe8c7b756, 12), Row(F, 2, 0x242070db, 17), Row(F, 3, 0xc1bdceee, 22),
    Row(F, 4, 0xf57c0faf, 7), Row(F, 5, 0x4787c62a, 12), Row(F, 6, 0xa8304613, 17), Row(F, 7, 0xfd469501, 22),
    Row(F, 8, 0x698098d8, 7), Row(F, 9, 0x8b44f7af, 12), Row(F, 10, 0xffff5bb1, 17), Row(F, 11, 0x895cd7be, 22),
    Row(F, 12, 0x6b901122, 7), Row(F, 13, 0xfd987193, 12), Row(F, 14, 0xa679438e, 17), Row(F, 15, 0x49b40821, 22)]

  const ROUND2: seq<Row> := [
    Row(G, 1, 0xf61e2562, 5), Row(G, 6, 0xc040b340, 9), Row(G, 11, 0x265e5a51, 14), Row(G, 0, 0xe9b6c7aa, 20),
    Row(G, 5, 0xd62f105d, 5), Row(G, 10, 0x02441453, 9), Row(G, 15, 0xd8a1e681, 14), Row(G, 4, 0xe7d3fbc8, 20),
    Row(G, 9, 0x21e1cde6, 5), Row(G, 14, 0xc33707d6, 9), Row(G, 3, 0xf4d50d87, 14), Row(G, 8, 0x455a14ed, 20),
    Row(G, 13, 0xa9e3e905, 5), Row(G, 2, 0xfcefa3f8, 9), Row(G, 7, 0x676f02d9, 14), Row(G, 12, 0x8d2a4c8a, 20)]

  const ROUND3: seq<Row> := [
    Row(H, 5, 0xfffa3942, 4), Row(H2, 8, 0x8771f681, 11), Row(H, 11, 0x6d9d6122, 16), Row(H2, 14, 0xfde5380c, 23),
    Row(H, 1, 0xa4beea44, 4), Row(H2, 4, 0x4bdecfa9, 11), Row(H, 7, 0xf6bb4b60, 16), Row(H2, 10, 0xbebfbc70, 23),
    Row(H, 13, 0x289b7ec6, 4), Row(H2, 0, 0xeaa127fa, 11), Row(H, 3, 0xd4ef3085, 16), Row(H2, 6, 0x04881d05, 23),
    Row(H, 9, 0xd9d4d039, 4), Row(H2, 12, 0xe6db99e5, 11), Row(H, 15, 0x1fa27cf8, 16), Row(H2, 2, 0xc4ac5665, 23)]

  const ROUND4: seq<Row> := [
    Row(I, 0, 0xf4292244, 6), Row(I, 7, 0x432aff97, 10), Row(I, 14, 0xab9423a7, 15), Row(I, 5, 0xfc93a039, 21),
    Row(I, 12, 0x655b59c3, 6), Row(I, 3, 0x8f0ccc92, 10), Row(I, 10, 0xffeff47d, 15), Row(I, 1, 0x85845dd1, 21),
    Row(I, 8, 0x6fa87e4f, 6), Row(I, 15, 0xfe2ce6e0, 10), Row(I, 6, 0xa3014314, 15), Row(I, 13, 0x4e0811a1, 21),
    Row(I, 4, 0xf7537e82, 6), Row(I, 11, 0xbd3af235, 10), Row(I, 2, 0x2ad7d2bb, 15), Row(I, 9, 0xeb86d391, 21)]

  function RowAt(t: nat): Row
    requires t < 64
  {
    if t < 16 then ROUND1[t] else if t < 32 then ROUND2[t - 16] else if t < 48 then ROUND3[t - 32] else ROUND4[t - 48]
  }

  function Apply(f: Macro, x: Word, y: Word, z: Word): Word {
    match f
    case F => z ^ (x & (y ^ z))
    case G => y ^ (z & (x ^ y))
    case H => (x ^ y) ^ z
    case H2 => x ^ (y ^ z)
    case I => y ^ (x | !z)
  }

  lemma FBits(x: Word, y: Word, z: Word)
    ensures Apply(F, x, y, z) == z ^ (x & (y ^ z)) && AuxF(x, y, z) == (x & y) | (!x & z)
  {
  }

  lemma GBits(x: Word, y: Word, z: Word)
    ensures Apply(G, x, y, z) == y ^ (z & (x ^ y)) && AuxG(x, y, z) == (x & z) | (y & !z)
  {
  }

  lemma HBits(x: Word, y: Word, z: Word)
    ensures Apply(H2, x, y, z) == x ^ (y ^ z) && AuxH(x, y, z) == x ^ y ^ z == Apply(H, x, y, z)
  {
  }

  lemma IBits(x: Word, y: Word, z: Word)
    ensures Apply(I, x, y, z) == y ^ (x | !z) == AuxI(x, y, z)
  {
  }

  lemma BitForms(x: Word, y: Word, z: Word)
    ensures z ^ (x & (y ^ z)) == (x & y) | (!x & z)
    ensures y ^ (z & (x ^ y)) == (x & z) | (y & !z)
    ensures x ^ (y ^ z) == x ^ y ^ z
  {
  }

  /** The macros are the auxiliary functions. */
  lemma MacrosAre(x: Word, y: Word, z: Word)
    ensures Apply(F, x, y, z) == AuxF(x, y, z)
    ensures Apply(G, x, y, z) == AuxG(x, y, z)
    ensures Apply(H, x, y, z) == AuxH(x, y, z) == Apply(H2, x, y, z)
    ensures Apply(I, x, y, z) == AuxI(x, y, z)
  {
    hide *;
    FBits(x, y, z);
    GBits(x, y, z);
    HBits(x, y, z);
    IBits(x, y, z);
    BitForms(x, y, z);
  }

  ghost predicate RightRow(r: Row, t: nat)
    requires t < 64
  {
    && r.index == Index(t) && r.constant == Constant(t) && r.shift == Shift(t)
    && (r.f == if t < 16 then F else if t < 32 then G else if t < 48 then (if t % 2 == 0 then H else H2) else I)
  }

  lemma Round1(t: nat)
    requires t < 16
    ensures RightRow(ROUND1[t], t)
  {
    Shifts1(t);
    Indices1(t);
    hide Shift, Index;
  }

  lemma Shifts1(t: nat)
    requires t < 16
    ensures ROUND1[t].shift == Shift(t)
  {
  }

  lemma Indices1(t: nat)
    requires t < 16
    ensures ROUND1[t].index == Index(t)
  {
  }

  lemma Round2(t: nat)
    requires t < 16
    ensures RightRow(ROUND2[t], t + 16)
  {
    Shifts2(t);
    Indices2(t);
    hide Shift, Index;
  }

  lemma Shifts2(t: nat)
    requires t < 16
    ensures ROUND2[t].shift == Shift(t + 16)
  {
  }

  lemma Indices2(t: nat)
    requires t < 16
    ensures ROUND2[t].index == Index(t + 16)
  {
  }

  lemma Round3(t: nat)
    requires t < 16
    ensures RightRow(ROUND3[t], t + 32)
  {
    Shifts3(t);
    Indices3(t);
    Macros3(t);
    hide Shift, Index, ROUND3;
  }

  lemma Macros3(t: nat)
    requires t < 16
    ensures ROUND3[t].f == (if t % 2 == 0 then H else H2) && ROUND3[t].constant == T3[t]
  {
    hide T3;
    assert ROUND3[t].f == (if t % 2 == 0 then H else H2);
    Constants3(t);
  }

  lemma Constants3(t: nat)
    requires t < 16
    ensures ROUND3[t].constant == T3[t]
  {
  }

  lemma Shifts3(t: nat)
    requires t < 16
    ensures ROUND3[t].shift == Shift(t + 32)
  {
  }

  lemma Indices3(t: nat)
    requires t < 16
    ensures ROUND3[t].index == Index(t + 32)
  {
  }

  lemma Round4(t: nat)
    requires t < 16
    ensures RightRow(ROUND4[t], t + 48)
  {
    Shifts4(t);
    Indices4(t);
    hide Shift, Index;
  }

  lemma Shifts4(t: nat)
    requires t < 16
    ensures ROUND4[t].shift == Shift(t + 48)
  {
  }

  lemma Indices4(t: nat)
    requires t < 16
    ensures ROUND4[t].index == Index(t + 48)
  {
  }

  /** The 64 steps of the code are the operations of the standard, in order. */
  lemma RowsRight(t: nat)
    requires t < 64
    ensures RightRow(RowAt(t), t)
  {
    hide RightRow, ROUND1, ROUND2, ROUND3, ROUND4;
    if t < 16 {
      Round1(t);
    } else if t < 32 {
      Round2(t - 16);
    } else if t < 48 {
      Round3(t - 32);
    } else {
      Round4(t - 48);
    }
  }

  /** STEP: the new value of its register a */
  method Step(row: Row, a: Word, b: Word, c: Word, d: Word, block: Block, ghost t: nat) returns (r: Word)
    requires t < 64 && row == RowAt(t)
    ensures Registers(d, r, b, c) == Operation(Registers(a, b, c, d), block, t)
  {
    hide Plus, RowAt, AuxF, AuxG, AuxH, AuxI, Apply, Rotl, Constant, Index, Shift, BlockWord;
    RowsRight(t);
    MacrosAre(b, c, d);
    StepSum(a, Apply(row.f, b, c, d), BlockWord(block, row.index), row.constant);
    r := Plus(a, Plus(Plus(Apply(row.f, b, c, d), BlockWord(block, row.index)), row.constant));
    r := Rotl(r, row.shift);
    r := Plus(r, b);
    Commutative(b, Rotl(Plus(a, Plus(Plus(Apply(row.f, b, c, d), BlockWord(block, row.index)), row.constant)), row.shift));
  }

  lemma StepSum(a: Word, f: Word, x: Word, t: Word)
    ensures Plus(a, Plus(Plus(f, x), t)) == Plus(Plus(Plus(a, f), x), t)
  {
    hide Plus;
    Associative(a, Plus(f, x), t);
    Associative(a, f, x);
  }

  /** The 64 steps on one block; four of them bring the registers back to their names. */
  method Steps(v: Registers, block: Block) returns (w: Registers)
    ensures w == Operations(v, block, 64)
  {
    hide RowAt, Operation;
    var a, b, c, d := v.a, v.b, v.c, v.d;
    for g := 0 to 16
      invariant Registers(a, b, c, d) == Operations(v, block, 4 * g)
    {
      FourOperations(v, block, 4 * g);
      a := Step(RowAt(4 * g), a, b, c, d, block, 4 * g);
      d := Step(RowAt(4 * g + 1), d, a, b, c, block, 4 * g + 1);
      c := Step(RowAt(4 * g + 2), c, d, a, b, block, 4 * g + 2);
      b := Step(RowAt(4 * g + 3), b, c, d, a, block, 4 * g + 3);
    }
    w := Registers(a, b, c, d);
  }

  lemma FourOperations(v: Registers, b: Block, t: nat)
    requires t + 4 <= 64
    ensures
      Operations(v, b, t + 4)
      == Operation(Operation(Operation(Operation(Operations(v, b, t), b, t), b, t + 1), b, t + 2), b, t + 3)
  {
    hide Operation;
    assert Operations(v, b, t + 1) == Operation(Operations(v, b, t), b, t);
    assert Operations(v, b, t + 2) == Operation(Operations(v, b, t + 1), b, t + 1);
    assert Operations(v, b, t + 3) == Operation(Operations(v, b, t + 2), b, t + 2);
  }

  /** MD5_CTX */
  class Context {
    var v: Registers
    var lo: Count
    var hi: Count
    const buffer: array<Byte>

    /** the bytes hashed so far */
    ghost var message: seq<Byte>

    /** hi and lo are the number of bytes modulo 2^61, lo its 29 low bits */
    ghost predicate Valid()
      reads this, buffer
    {
      && buffer.Length == 64 && Counts(|message|, lo, hi)
      && v == Fold(Compress, INITIAL, Whole(message)) && buffer[..|message| % 64] == Rest(message)
    }

    /** MD5_begin */
    constructor ()
      ensures Valid() && message == [] && fresh(buffer)
    {
      v, lo, hi, message := INITIAL, 0, 0, [];
      buffer := new Byte[64](_ => Byte(0));
    }

    /** MD5_body: the blocks of data, of which there is at least one */
    method Body(data: seq<Byte>)
      requires |data| > 0 && |data| % 64 == 0
      modifies this`v
      ensures v == Fold(Compress, old(v), data)
    {
      hide Compress, Fold;
      var size, at := |data|, 0;
      assert data[..0] == [];
      NoBlocks(v);
      while true
        invariant at + size == |data| && size > 0 && size % 64 == 0
        invariant v == Fold(Compress, old(v), data[..at])
        decreases size
      {
        FoldBlock(Compress, old(v), data[..at], data[at..at + 64]);
        assert data[..at] + data[at..at + 64] == data[..at + 64];
        BodyStep(data[at..at + 64]);
        at, size := at + 64, size - 64;
        if size == 0 { break; }
      }
      assert data[..at] == data;
    }

    /** one block of them */
    method BodyStep(block: Block)
      modifies this`v
      ensures v == Compress(old(v), block)
    {
      hide Operations, Plus;
      var w := Steps(v, block);
      v := Registers(Plus(w.a, v.a), Plus(w.b, v.b), Plus(w.c, v.c), Plus(w.d, v.d));
    }

    /** MD5_hash: whatever the chunk, its bytes are appended to the message. */
    method Update(data: seq<Byte>)
      requires Valid()
      modifies this, buffer
      ensures Valid() && message == old(message) + data
    {
      hide Whole, Rest, Fold, Compress, INITIAL, Counts;
      var saved, size := lo, |data|;
      lo := (saved + size) % 0x20000000;
      if lo < saved {
        hi := (hi + 1) % 0x1_0000_0000;
      }
      hi := (hi + size / 0x20000000) % 0x1_0000_0000;
      Counted(|message|, size, saved, old(hi));
      Buffered(|message|, saved, old(hi));
      Absorb(data, saved % 64);
      message := message + data;
    }

    /** the part of it after the count */
    method Absorb(data: seq<Byte>, used: nat)
      requires buffer.Length == 64 && used == |message| % 64
      requires v == Fold(Compress, INITIAL, Whole(message)) && buffer[..used] == Rest(message)
      modifies this`v, buffer
      ensures v == Fold(Compress, INITIAL, Whole(message + data))
      ensures buffer[..|message + data| % 64] == Rest(message + data)
    {
      hide Whole, Rest, Fold, Compress, INITIAL;
      Cut(message);
      if used > 0 {
        var available := 64 - used;
        if |data| < available {
          ShortAppend(message, data);
          Copy(buffer, used, data);
          return;
        }
        FinishBlock(data[..available], used);
        AbsorbWhole(data, available);
      } else {
        assert message + data[..0] == message && Whole(message) == message;
        AbsorbWhole(data, 0);
      }
    }

    /** the block in the buffer, filled up */
    method FinishBlock(d: seq<Byte>, used: nat)
      requires buffer.Length == 64 && used == |message| % 64 && |d| == 64 - used
      requires v == Fold(Compress, INITIAL, Whole(message)) && buffer[..used] == Rest(message)
      modifies this`v, buffer
      ensures |message + d| % 64 == 0 && v == Fold(Compress, INITIAL, message + d)
    {
      hide Whole, Rest, Fold, Compress, INITIAL;
      Cut(message);
      Hashing.FillBlock(message, d);
      Copy(buffer, used, d);
      assert buffer[..] == Rest(message) + d;
      Body(buffer[..]);
      FoldTwice(Compress, INITIAL, Whole(message), buffer[..]);
    }

    /** the complete blocks of data from at on, and the rest */
    method AbsorbWhole(data: seq<Byte>, at: nat)
      requires buffer.Length == 64 && at <= |data| && |message + data[..at]| % 64 == 0
      requires v == Fold(Compress, INITIAL, message + data[..at])
      modifies this`v, buffer
      ensures v == Fold(Compress, INITIAL, Whole(message + data))
      ensures buffer[..|message + data| % 64] == Rest(message + data)
    {
      hide *;
      var end := AbsorbBlocks(data, at);
      Copy(buffer, 0, data[end..]);
      WholeAppend(message + data[..end], data[end..]);
      Slices(message, data, end);
    }

    /** the complete blocks; where they end */
    method AbsorbBlocks(data: seq<Byte>, at: nat) returns (end: nat)
      requires at <= |data| && |message + data[..at]| % 64 == 0
      requires v == Fold(Compress, INITIAL, message + data[..at])
      modifies this`v
      ensures end <= |data| < end + 64 && |message + data[..end]| % 64 == 0
      ensures v == Fold(Compress, INITIAL, message + data[..end])
    {
      hide *;
      var size := |data| - at;
      end := at;
      if size >= 64 {
        end := at + (size - size % 64);
        Body(data[at..end]);
        FoldTwice(Compress, INITIAL, message + data[..at], data[at..end]);
        NextSlice(message, data, at, end);
      }
    }

    /** MD5_end: the digest of the standard; the context is cleared. */
    method End(result: array<Byte>)
      requires Valid() && result.Length == 16 && result != buffer
      modifies this, buffer, result
      ensures result[..] == Digest(old(message))
      ensures v == Registers(0, 0, 0, 0) && lo == hi == 0 && buffer[..] == Zeros(64)
    {
      hide Fold, Compress, INITIAL, Padded, Length64, EncodeWord, Whole, Rest, Counts;
      Pad();
      CopyFour(result, EncodeWord(v.a), EncodeWord(v.b), EncodeWord(v.c), EncodeWord(v.d));
      v, lo, hi := Registers(0, 0, 0, 0), 0, 0;
      forall i | 0 <= i < 64 { buffer[i] := Byte(0); }
    }

    /** the part of it that pads */
    method Pad()
      requires Valid()
      modifies this`v, this`lo, buffer
      ensures v == Fold(Compress, INITIAL, Padded(message, Length64(8 * |message|)))
    {
      hide Fold, Compress, INITIAL, Padded, Length64, Whole, Rest, Counts, Encode;
      var used := lo % 64;
      ghost var l := Length64(8 * |message|);
      Buffered(|message|, lo, hi);
      PaddedParts(message, l);
      LengthBytes(|message|, lo, hi);
      buffer[used] := Byte(0x80);
      used := used + 1;
      assert buffer[..used] == Rest(message) + [Byte(0x80)];
      if 64 - used < 8 {
        FillBlock(used, Whole(message));
        LastBlock(0, Whole(message) + (Rest(message) + [Byte(0x80)] + Zeros(64 - used)), l);
        assert [] + Zeros(56) == Zeros(56);
      } else {
        LastBlock(used, Whole(message), l);
      }
    }

    /** the zeros that fill a block too full for the length */
    method FillBlock(used: nat, ghost start: seq<Byte>)
      requires buffer.Length == 64 && used <= 64 && |start| % 64 == 0 && v == Fold(Compress, INITIAL, start)
      modifies this`v, buffer
      ensures v == Fold(Compress, INITIAL, start + (old(buffer[..used]) + Zeros(64 - used)))
    {
      hide Fold, Compress, INITIAL;
      Copy(buffer, used, Zeros(64 - used));
      assert buffer[..] == old(buffer[..used]) + Zeros(64 - used);
      Body(buffer[..]);
      FoldTwice(Compress, INITIAL, start, buffer[..]);
    }

    /** the zeros, the length and the last block */
    method LastBlock(used: nat, ghost start: seq<Byte>, ghost l: seq<Byte>)
      requires buffer.Length == 64 && used <= 56 && |start| % 64 == 0 && lo < 0x20000000
      requires v == Fold(Compress, INITIAL, start) && l == Encode(8 * lo) + Encode(hi)
      modifies this`v, this`lo, buffer
      ensures v == Fold(Compress, INITIAL, start + (old(buffer[..used]) + Zeros(56 - used) + l))
    {
      hide Fold, Compress, INITIAL, Encode;
      Copy(buffer, used, Zeros(56 - used));
      lo := 8 * lo % 0x1_0000_0000;
      Copy(buffer, 56, Encode(lo));
      Copy(buffer, 60, Encode(hi));
      assert buffer[..] == old(buffer[..used]) + Zeros(56 - used) + l;
      Body(buffer[..]);
      FoldTwice(Compress, INITIAL, start, buffer[..]);
    }
  }

  ghost predicate Counts(n: nat, lo: Count, hi: Count) {
    lo < 0x20000000 && hi * 0x20000000 + lo == n % 0x2000_0000_0000_0000
  }

  lemma Counted(n: nat, size: nat, lo: Count, hi: Count)
    requires Counts(n, lo, hi)
    ensures
      var lo' := (lo + size) % 0x20000000;
      var carried := if lo' < lo then (hi + 1) % 0x1_0000_0000 else hi;
      Counts(n + size, lo', (carried + size / 0x20000000) % 0x1_0000_0000)
  {
    var q, s := n / 0x2000_0000_0000_0000, size / 0x20000000;
    assert n == 0x2000_0000_0000_0000 * q + (hi * 0x20000000 + lo);
    var lo' := (lo + size) % 0x20000000;
    var carry := if lo' < lo then 1 else 0;
    assert lo + size == 0x20000000 * (s + carry) + lo';
    var high := hi + carry + s;
    var p, hi' := high / 0x1_0000_0000, high % 0x1_0000_0000;
    Reduced(hi + carry, s);
    Arithmetic.Remainder(n + size, 0x2000_0000_0000_0000, q + p, hi' * 0x20000000 + lo');
  }

  lemma Reduced(x: nat, y: nat)
    ensures (x % 0x1_0000_0000 + y) % 0x1_0000_0000 == (x + y) % 0x1_0000_0000
  {
  }

  lemma Buffered(n: nat, lo: Count, hi: Count)
    requires Counts(n, lo, hi)
    ensures lo % 64 == n % 64
  {
    var q := n / 0x2000_0000_0000_0000;
    SameLowBits(n, 0x80_0000_0000_0000 * q + hi * 0x800000, lo);
  }

  lemma NextSlice(m: seq<Byte>, d: seq<Byte>, at: nat, end: nat)
    requires at <= end <= |d|
    ensures m + d[..at] + d[at..end] == m + d[..end]
  {
  }

  lemma NoBlocks(v: Registers)
    ensures Fold(Compress, v, []) == v
  {
  }

  /** the four words of the digest */
  method CopyFour(dst: array<Byte>, a: seq<Byte>, b: seq<Byte>, c: seq<Byte>, d: seq<Byte>)
    requires dst.Length == 16 && |a| == |b| == |c| == |d| == 4
    modifies dst
    ensures dst[..] == a + b + c + d
  {
    Copy(dst, 0, a);
    Copy(dst, 4, b);
    assert dst[..8] == a + b;
    Copy(dst, 8, c);
    assert dst[..12] == a + b + c;
    Copy(dst, 12, d);
  }

  /** the bit count modulo 2^64 from the byte count modulo 2^61 */
  lemma BitCount(n: nat, lo: nat, hi: nat)
    requires lo < 0x20000000 && hi < 0x100000000 && hi * 0x20000000 + lo == n % 0x2000_0000_0000_0000
    ensures var k := 8 * n % 0x1_0000_0000_0000_0000; k / 0x100000000 == hi && k % 0x100000000 == 8 * lo
  {
    var q := n / 0x2000_0000_0000_0000;
    assert 8 * n == 0x1_0000_0000_0000_0000 * q + (hi * 0x100000000 + 8 * lo);
  }

  /** the two words of the length */
  lemma LengthBytes(n: nat, lo: Count, hi: Count)
    requires Counts(n, lo, hi)
    ensures lo < 0x20000000 && Length64(8 * n) == Encode(8 * lo) + Encode(hi)
  {
    hide ToByte;
    var k := 8 * n % 0x1_0000_0000_0000_0000;
    BitCount(n, lo, hi);
    LowHalf(8 * n, k);
    HighHalf(8 * n, k);
  }

  lemma LowHalf(n: nat, k: nat)
    requires k == n % 0x1_0000_0000_0000_0000
    ensures Encode(k % 0x100000000) == [ToByte(n), ToByte(n / 0x100), ToByte(n / 0x10000), ToByte(n / 0x1000000)]
  {
    hide ToByte;
    Halves(k);
    LowByte(n, 0x1000000, 0x10000000000);
    LowByte(n, 0x10000, 0x1000000000000);
    LowByte(n, 0x100, 0x100000000000000);
    LowByte(n, 1, 0x1_0000_0000_0000_0000);
    SameByte(k % 0x100000000 / 0x1000000, k / 0x1000000);
    SameByte(k % 0x100000000 / 0x10000, k / 0x10000);
    SameByte(k % 0x100000000 / 0x100, k / 0x100);
    SameByte(k % 0x100000000, k);
  }

  lemma HighHalf(n: nat, k: nat)
    requires k == n % 0x1_0000_0000_0000_0000
    ensures
      Encode(k / 0x100000000)
      == [ToByte(n / 0x100000000), ToByte(n / 0x10000000000), ToByte(n / 0x1000000000000), ToByte(n / 0x100000000000000)]
  {
    hide ToByte;
    Halves(k);
    LowByte(n, 0x100000000000000, 0x100);
    LowByte(n, 0x1000000000000, 0x10000);
    LowByte(n, 0x10000000000, 0x1000000);
    LowByte(n, 0x100000000, 0x100000000);
  }

  /** md5_hash, on what successive reads of the file return */
  method HashFile(chunks: seq<seq<Byte>>) returns (digest: seq<Byte>)
    ensures digest == Digest(Input(chunks))
  {
    hide Fold, Digest, Counts, Whole, Rest, INITIAL;
    var ctx := new Context();
    var i := 0;
    assert chunks[0..] == chunks && ctx.message + Input(chunks) == Input(chunks);
    while i < |chunks| && chunks[i] != []
      invariant 0 <= i <= |chunks| && ctx.Valid() && fresh(ctx) && fresh(ctx.buffer)
      invariant ctx.message + Input(chunks[i..]) == Input(chunks)
    {
      InputNext(ctx.message, chunks, i);
      ctx.Update(chunks[i]);
      i := i + 1;
    }
    var result := new Byte[16](_ => Byte(0));
    assert ctx.message == Input(chunks) by { assert Input(chunks[i..]) == []; }
    ctx.End(result);
    digest := result[..];
  }
}
