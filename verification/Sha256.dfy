/** SHA-256: sections 4 to 6 of FIPS 180-4, and the code of mkhash.c. */
module Sha256 {
  import Arithmetic
  import opened Hashing

  /** the hash value: eight words */
  type State = s: seq<Word> | |s| == 8 witness seq(8, _ => 0)

  const INITIAL: State := [
    0x6A09E667, 0xBB67AE85, 0x3C6EF372, 0xA54FF53A,
    0x510E527F, 0x9B05688C, 0x1F83D9AB, 0x5BE0CD19]

  /** section 4.2.2, eight words to a row */
  const K: seq<seq<Word>> := [
    [0x428a2f98, 0x71374491, 0xb5c0fbcf, 0xe9b5dba5, 0x3956c25b, 0x59f111f1, 0x923f82a4, 0xab1c5ed5],
    [0xd807aa98, 0x12835b01, 0x243185be, 0x550c7dc3, 0x72be5d74, 0x80deb1fe, 0x9bdc06a7, 0xc19bf174],
    [0xe49b69c1, 0xefbe4786, 0x0fc19dc6, 0x240ca1cc, 0x2de92c6f, 0x4a7484aa, 0x5cb0a9dc, 0x76f988da],
    [0x983e5152, 0xa831c66d, 0xb00327c8, 0xbf597fc7, 0xc6e00bf3, 0xd5a79147, 0x06ca6351, 0x14292967],
    [0x27b70a85, 0x2e1b2138, 0x4d2c6dfc, 0x53380d13, 0x650a7354, 0x766a0abb, 0x81c2c92e, 0x92722c85],
    [0xa2bfe8a1, 0xa81a664b, 0xc24b8b70, 0xc76c51a3, 0xd192e819, 0xd6990624, 0xf40e3585, 0x106aa070],
    [0x19a4c116, 0x1e376c08, 0x2748774c, 0x34b0bcb5, 0x391c0cb3, 0x4ed8aa4a, 0x5b9cca4f, 0x682e6ff3],
    [0x748f82ee, 0x78a5636f, 0x84c87814, 0x8cc70208, 0x90befffa, 0xa4506ceb, 0xbef9a3f7, 0xc67178f2]]

  function RoundConstant(t: nat): Word
    requires t < 64
  {
    K[t / 8][t % 8]
  }

  function Rotr(x: Word, n: bv6): Word
    requires n <= 32
  {
    (x >> n) | (x << (32 - n))
  }

  // Section 4.1.2
  function Ch(x: Word, y: Word, z: Word): Word { (x & y) ^ (!x & z) }

  function Maj(x: Word, y: Word, z: Word): Word { (x & y) ^ (x & z) ^ (y & z) }

  function BigSigma0(x: Word): Word { Rotr(x, 2) ^ Rotr(x, 13) ^ Rotr(x, 22) }

  function BigSigma1(x: Word): Word { Rotr(x, 6) ^ Rotr(x, 11) ^ Rotr(x, 25) }

  function SmallSigma0(x: Word): Word { Rotr(x, 7) ^ Rotr(x, 18) ^ (x >> 3) }

  function SmallSigma1(x: Word): Word { Rotr(x, 17) ^ Rotr(x, 19) ^ (x >> 10) }

  /** four bytes as a big-endian word */
  function Decode(b: seq<Byte>): Word
    requires |b| == 4
  {
    ((b[0].bits as bv32) << 24) | ((b[1].bits as bv32) << 16) | ((b[2].bits as bv32) << 8) | (b[3].bits as bv32)
  }

  function Encode(w: Word): (b: seq<Byte>)
    ensures |b| == 4
  {
    [Byte((w >> 24) as bv8), Byte(((w >> 16) & 0xff) as bv8), Byte(((w >> 8) & 0xff) as bv8), Byte((w & 0xff) as bv8)]
  }

  /** the first sixteen words of the message schedule: the block's */
  function Words(b: Block): (w: seq<Word>)
    ensures |w| == 16
  {
    seq(16, i requires 0 <= i < 16 => Decode(b[4 * i..4 * i + 4]))
  }

  // Section 6.2.2, steps 1 to 4
  function Schedule(b: Block, t: nat): Word {
    if t < 16 then Words(b)[t]
    else Plus(Plus(Plus(SmallSigma1(Schedule(b, t - 2)), Schedule(b, t - 7)), SmallSigma0(Schedule(b, t - 15))), Schedule(b, t - 16))
  }

  function Round(v: State, k: Word, w: Word): State {
    var t1 := Plus(Plus(Plus(Plus(v[7], BigSigma1(v[4])), Ch(v[4], v[5], v[6])), k), w);
    var t2 := Plus(BigSigma0(v[0]), Maj(v[0], v[1], v[2]));
    [Plus(t1, t2), v[0], v[1], v[2], Plus(v[3], t1), v[4], v[5], v[6]]
  }

  function Rounds(h: State, b: Block, t: nat): State
    requires t <= 64
  {
    if t == 0 then h else Round(Rounds(h, b, t - 1), RoundConstant(t - 1), Schedule(b, t - 1))
  }

  function Sums(h: State, v: State): State {
    seq(8, i requires 0 <= i < 8 => Plus(h[i], v[i]))
  }

  function Compress(h: State, b: Block): State {
    Sums(h, Rounds(h, b, 64))
  }

  /** a number below 2^64 in eight bytes, the most significant first */
  function Length64(n: nat): (b: seq<Byte>)
    ensures |b| == 8
  {
    [ToByte(n / 0x100000000000000), ToByte(n / 0x1000000000000), ToByte(n / 0x10000000000),
     ToByte(n / 0x100000000), ToByte(n / 0x1000000), ToByte(n / 0x10000), ToByte(n / 0x100),
     ToByte(n)]
  }

  /** words as bytes */
  function EncodeAll(w: seq<Word>): (b: seq<Byte>)
    ensures |b| == 4 * |w|
  {
    if w == [] then [] else EncodeAll(w[..|w| - 1]) + Encode(w[|w| - 1])
  }

  /** The digest of a message. The standard defines it below 2^64 bits; beyond, the length is taken modulo 2^64. */
  function Digest(m: seq<Byte>): seq<Byte> {
    EncodeAll(Fold(Compress, INITIAL, Padded(m, Length64(8 * |m|))))
  }

  // The forms of mkhash.c
  function ChSelect(x: Word, y: Word, z: Word): (r: Word)
    ensures r == Ch(x, y, z)
  {
    ChBits(x, y, z);
    (x & (y ^ z)) ^ z
  }

  function MajSelect(x: Word, y: Word, z: Word): (r: Word)
    ensures r == Maj(x, y, z)
  {
    MajBits(x, y, z);
    (x & (y | z)) | (y & z)
  }

  function Be16Dec(p: seq<Byte>): bv16
    requires |p| == 2
  {
    ((p[0].bits as bv16) << 8) | (p[1].bits as bv16)
  }

  function Be32Dec(p: seq<Byte>): (w: Word)
    requires |p| == 4
    ensures w == Decode(p)
  {
    ((Be16Dec(p[..2]) as bv32) << 16) | (Be16Dec(p[2..]) as bv32)
  }

  /** be32enc_vect's and the length's encoding, in two halves */
  function Be64Enc(n: nat): (b: seq<Byte>)
    requires n < 0x1_0000_0000_0000_0000
    ensures b == Length64(n)
  {
    hide ToByte;
    Halves(n);
    SameByte(n % 0x100000000 / 0x1000000, n / 0x1000000);
    SameByte(n % 0x100000000 / 0x10000, n / 0x10000);
    SameByte(n % 0x100000000 / 0x100, n / 0x100);
    SameByte(n % 0x100000000, n);
    var hi, lo := n / 0x100000000, n % 0x100000000;
    [ToByte(hi / 0x1000000), ToByte(hi / 0x10000), ToByte(hi / 0x100), ToByte(hi),
     ToByte(lo / 0x1000000), ToByte(lo / 0x10000), ToByte(lo / 0x100), ToByte(lo)]
  }

  /** The working variables when the registers have rotated by i places. */
  function Rotated(s: State, i: nat): State {
    Turned(s, i % 8)
  }

  function Turned<T>(s: seq<T>, r: nat): (t: seq<T>)
    requires |s| == 8 && r < 8
    ensures |t| == 8
  {
    s[8 - r..] + s[..8 - r]
  }

  /** the index expressions of the code */
  lemma Index(i: nat, k: nat)
    requires i <= 16 && k < 8
    ensures (64 + k - i) % 8 == if i % 8 <= k then k - i % 8 else 8 + k - i % 8
  {
  }

  /** RND: one round, in place, on the registers with these numbers */
  method RoundOn(s: array<Word>, a: nat, b: nat, c: nat, d: nat, e: nat, f: nat, g: nat, h: nat, kw: Word)
    requires a < 8 && b < 8 && c < 8 && d < 8 && e < 8 && f < 8 && g < 8 && h < 8 && s.Length == 8
    requires h !in {a, b, c, d} && d !in {a, b, c}
    modifies s
    ensures
      var t := Plus(old(s[h]), Plus(Plus(BigSigma1(old(s[e])), Ch(old(s[e]), old(s[f]), old(s[g]))), kw));
      s[..] == old(s[..])[h := Plus(t, Plus(BigSigma0(old(s[a])), Maj(old(s[a]), old(s[b]), old(s[c]))))][d := Plus(old(s[d]), t)]
  {
    hide *;
    s[h] := Plus(s[h], Plus(Plus(BigSigma1(s[e]), ChSelect(s[e], s[f], s[g])), kw));
    s[d] := Plus(s[d], s[h]);
    s[h] := Plus(s[h], Plus(BigSigma0(s[a]), MajSelect(s[a], s[b], s[c])));
  }

  /** RNDr: the same on rotating registers */
  method RoundInPlace(s: array<Word>, i: nat, kw: Word, ghost k: Word, ghost w: Word)
    requires s.Length == 8 && i < 16 && kw == Plus(w, k)
    modifies s
    ensures Rotated(s[..], i + 1) == Round(Rotated(old(s[..]), i), k, w)
  {
    DistinctIndices(i);
    RotatedIndices(s[..], i);
    RoundOn(s, (64 - i) % 8, (65 - i) % 8, (66 - i) % 8, (67 - i) % 8,
            (68 - i) % 8, (69 - i) % 8, (70 - i) % 8, (71 - i) % 8, kw);
    hide Rotated, Turned, BigSigma0, BigSigma1, Ch, Maj, Plus;
    ghost var v := Rotated(old(s[..]), i);
    SumForms(v[7], BigSigma1(v[4]), Ch(v[4], v[5], v[6]), k, w);
    RotatedNext(old(s[..]), i, s[(71 - i) % 8], s[(67 - i) % 8]);
  }

  lemma DistinctIndices(i: nat)
    requires i < 16
    ensures (71 - i) % 8 !in {(64 - i) % 8, (65 - i) % 8, (66 - i) % 8, (67 - i) % 8}
    ensures (67 - i) % 8 !in {(64 - i) % 8, (65 - i) % 8, (66 - i) % 8}
  {
  }

  lemma RotatedAt(s: State, i: nat, k: nat)
    requires i <= 16 && k < 8
    ensures Rotated(s, i)[k] == s[(64 + k - i) % 8]
  {
    Index(i, k);
  }

  lemma RotatedIndices(s: State, i: nat)
    requires i < 16
    ensures
      Rotated(s, i) == [s[(64 - i) % 8], s[(65 - i) % 8], s[(66 - i) % 8], s[(67 - i) % 8],
                        s[(68 - i) % 8], s[(69 - i) % 8], s[(70 - i) % 8], s[(71 - i) % 8]]
  {
    hide *;
    RotatedAt(s, i, 0);
    RotatedAt(s, i, 1);
    RotatedAt(s, i, 2);
    RotatedAt(s, i, 3);
    RotatedAt(s, i, 4);
    RotatedAt(s, i, 5);
    RotatedAt(s, i, 6);
    RotatedAt(s, i, 7);
  }

  /** writing the registers that were h and d */
  lemma RotatedNext(s: State, i: nat, x: Word, y: Word)
    requires i < 16
    ensures
      var v := Rotated(s, i);
      Rotated(s[(71 - i) % 8 := x][(67 - i) % 8 := y], i + 1) == [x, v[0], v[1], v[2], y, v[4], v[5], v[6]]
  {
    hide *;
    var t := s[(71 - i) % 8 := x][(67 - i) % 8 := y];
    TurnedIs(s, i);
    TurnedIs(t, i + 1);
    NextIndex(i);
    Index(i, 7);
    Index(i, 3);
    TurnedNext(s, i % 8, x, y, t);
  }

  lemma TurnedIs(t: State, i: nat)
    ensures Rotated(t, i) == Turned(t, i % 8)
  {
  }

  lemma NextIndex(i: nat)
    ensures (i + 1) % 8 == if i % 8 == 7 then 0 else i % 8 + 1
  {
  }

  lemma TurnedNext<T>(s: seq<T>, r: nat, x: T, y: T, t: seq<T>)
    requires |s| == 8 && r < 8 && t == s[7 - r := x][if r <= 3 then 3 - r else 11 - r := y]
    ensures
      var v := Turned(s, r);
      Turned(t, if r == 7 then 0 else r + 1) == [x, v[0], v[1], v[2], y, v[4], v[5], v[6]]
  {
  }

  lemma SumForms(h: Word, s: Word, f: Word, k: Word, w: Word)
    ensures Plus(h, Plus(Plus(s, f), Plus(w, k))) == Plus(Plus(Plus(Plus(h, s), f), k), w)
  {
    hide *;
    Associative(s, f, Plus(w, k));
    Associative(h, s, Plus(f, Plus(w, k)));
    Associative(Plus(h, s), f, Plus(w, k));
    Commutative(w, k);
    Associative(Plus(Plus(h, s), f), k, w);
  }

  lemma ChBits(x: bv32, y: bv32, z: bv32)
    ensures (x & (y ^ z)) ^ z == (x & y) ^ (!x & z)
  {
  }

  lemma MajBits(x: bv32, y: bv32, z: bv32)
    ensures (x & (y | z)) | (y & z) == (x & y) ^ (x & z) ^ (y & z)
  {
  }

  /** be32dec_vect: the block as words */
  method DecodeBlock(w: array<Word>, block: Block)
    requires w.Length == 64
    modifies w
    ensures forall t :: 0 <= t < 16 ==> w[t] == Schedule(block, t)
  {
    for i := 0 to 16
      invariant forall t :: 0 <= t < i ==> w[t] == Schedule(block, t)
    {
      w[i] := Be32Dec(block[4 * i..4 * i + 4]);
    }
  }

  /** MSCH sixteen times: the next sixteen words of the schedule */
  method ExtendSchedule(w: array<Word>, ii: nat, ghost block: Block)
    requires w.Length == 64 && ii + 32 <= 64
    requires forall t :: 0 <= t < ii + 16 ==> w[t] == Schedule(block, t)
    modifies w
    ensures forall t :: 0 <= t < ii + 32 ==> w[t] == Schedule(block, t)
  {
    hide *;
    for i := 0 to 16
      invariant forall t :: 0 <= t < ii + 16 + i ==> w[t] == Schedule(block, t)
    {
      ScheduleSum(block, i + ii);
      w[i + ii + 16] := Plus(Plus(Plus(SmallSigma1(w[i + ii + 14]), w[i + ii + 9]), SmallSigma0(w[i + ii + 1])), w[i + ii]);
    }
  }

  lemma ScheduleSum(b: Block, t: nat)
    ensures
      Schedule(b, t + 16)
      == Plus(Plus(Plus(SmallSigma1(Schedule(b, t + 14)), Schedule(b, t + 9)), SmallSigma0(Schedule(b, t + 1))), Schedule(b, t))
  {
  }

  /** sixteen rounds, after which the registers are back in place */
  method SixteenRounds(s: array<Word>, w: array<Word>, ii: nat, ghost h: State, ghost block: Block)
    requires s.Length == 8 && w.Length == 64 && s != w && ii + 16 <= 64
    requires forall t :: 0 <= t < ii + 16 ==> w[t] == Schedule(block, t)
    requires s[..] == Rounds(h, block, ii)
    modifies s
    ensures s[..] == Rounds(h, block, ii + 16)
  {
    hide *;
    InPlace(s[..]);
    for i := 0 to 16
      invariant Rotated(s[..], i) == Rounds(h, block, i + ii)
    {
      NextRound(h, block, i + ii);
      RoundInPlace(s, i, Plus(w[i + ii], RoundConstant(i + ii)), RoundConstant(i + ii), w[i + ii]);
    }
    InPlace(s[..]);
  }

  lemma InPlace(s: State)
    ensures Rotated(s, 0) == s && Rotated(s, 16) == s
  {
  }

  /** SHA256_Transform computes the compression of section 6.2.2. */
  method Transform(state: array<Word>, block: Block)
    requires state.Length == 8
    modifies state
    ensures state[..] == Compress(old(state[..]), block)
  {
    hide *;
    ghost var h := state[..];
    var w, s := new Word[64], new Word[8];
    DecodeBlock(w, block);
    forall i | 0 <= i < 8 { s[i] := state[i]; }
    assert s[..] == h;
    NoRounds(h, block);
    var i := 0;
    while true
      invariant i in {0, 16, 32, 48} && state[..] == h
      invariant s[..] == Rounds(h, block, i)
      invariant forall t :: 0 <= t < i + 16 ==> w[t] == Schedule(block, t)
      decreases 64 - i
    {
      SixteenRounds(s, w, i, h, block);
      if i == 48 { break; }
      ExtendSchedule(w, i, block);
      i := i + 16;
    }
    ghost var v := s[..];
    forall k | 0 <= k < 8 { state[k] := Plus(state[k], s[k]); }
    assert forall k :: 0 <= k < 8 ==> v[k] == s[k] && h[k] == old(state[k]);
    Compressed(h, block, state[..]);
  }

  lemma NextRound(h: State, b: Block, t: nat)
    requires t < 64
    ensures Rounds(h, b, t + 1) == Round(Rounds(h, b, t), RoundConstant(t), Schedule(b, t))
  {
  }

  lemma NoRounds(h: State, b: Block)
    ensures Rounds(h, b, 0) == h
  {
  }

  lemma Compressed(h: State, b: Block, s: State)
    requires forall k :: 0 <= k < 8 ==> s[k] == Plus(h[k], Rounds(h, b, 64)[k])
    ensures s == Compress(h, b)
  {
  }

  /** the state and the buffer after the bytes m */
  ghost predicate Absorbed(state: seq<Word>, buf: seq<Byte>, m: seq<Byte>) {
    |state| == 8 && |buf| == 64 && state == Fold(Compress, INITIAL, Whole(m)) && buf[..|m| % 64] == Rest(m)
  }

  /** SHA256_CTX */
  class Context {
    const state: array<Word>
    const buf: array<Byte>
    var count: nat

    /** the bytes hashed so far */
    ghost var message: seq<Byte>

    ghost predicate Valid()
      reads this, state, buf
    {
      && state.Length == 8 && buf.Length == 64 && count == 8 * |message| % 0x1_0000_0000_0000_0000
      && Absorbed(state[..], buf[..], message)
    }

    /** SHA256_Init */
    constructor ()
      ensures Valid() && message == [] && fresh(state) && fresh(buf)
    {
      state := new Word[8](i requires 0 <= i < 8 => INITIAL[i]);
      buf := new Byte[64](_ => Byte(0));
      count, message := 0, [];
      new;
      assert state[..] == INITIAL;
    }

    /** SHA256_Update: whatever the chunk, its bytes are appended to the message. */
    method Update(src: seq<Byte>)
      requires Valid()
      modifies this, state, buf
      ensures Valid() && message == old(message) + src
    {
      hide Absorbed;
      var r := count / 8 % 64;
      Buffered(|message|);
      Counted(|message|, |src|);
      count := (count + |src| * 8 % 0x1_0000_0000_0000_0000) % 0x1_0000_0000_0000_0000;
      Absorb(src, r);
      message := message + src;
    }

    /** the part of it after the count */
    method Absorb(src: seq<Byte>, r: nat)
      requires state.Length == 8 && buf.Length == 64 && r == |message| % 64 && Absorbed(state[..], buf[..], message)
      modifies state, buf
      ensures Absorbed(state[..], buf[..], message + src)
    {
      hide Whole, Rest, Fold, Compress, INITIAL;
      if |src| < 64 - r {
        ShortAppend(message, src);
        Copy(buf, r, src);
      } else {
        AbsorbBlocks(src, r);
      }
    }

    /** when the chunk fills the buffer */
    method AbsorbBlocks(src: seq<Byte>, r: nat)
      requires state.Length == 8 && buf.Length == 64 && r == |message| % 64 && |src| >= 64 - r
      requires Absorbed(state[..], buf[..], message)
      modifies state, buf
      ensures Absorbed(state[..], buf[..], message + src)
    {
      hide Whole, Rest, Fold, Compress, INITIAL;
      FinishBlock(src[..64 - r], r);
      var at := TransformBlocks(src, 64 - r);
      Copy(buf, 0, src[at..]);
      WholeAppend(message + src[..at], src[at..]);
      Slices(message, src, at);
    }

    /** the complete blocks of src from start on; where they end */
    method TransformBlocks(src: seq<Byte>, start: nat) returns (at: nat)
      requires state.Length == 8 && start <= |src| && |message + src[..start]| % 64 == 0
      requires state[..] == Fold(Compress, INITIAL, message + src[..start])
      modifies state
      ensures start <= at <= |src| < at + 64 && |message + src[..at]| % 64 == 0
      ensures state[..] == Fold(Compress, INITIAL, message + src[..at])
    {
      hide *;
      at := start;
      while |src| - at >= 64
        invariant start <= at <= |src| && |message + src[..at]| % 64 == 0
        invariant state[..] == Fold(Compress, INITIAL, message + src[..at])
      {
        FoldBlock(Compress, INITIAL, message + src[..at], src[at..at + 64]);
        Transform(state, src[at..at + 64]);
        NextBlock(message, src, at);
        at := at + 64;
      }
    }

    /** the block in the buffer, filled up */
    method FinishBlock(d: seq<Byte>, r: nat)
      requires state.Length == 8 && buf.Length == 64 && r == |message| % 64 && |d| == 64 - r
      requires Absorbed(state[..], buf[..], message)
      modifies state, buf
      ensures |message + d| % 64 == 0 && state[..] == Fold(Compress, INITIAL, message + d)
    {
      hide Whole, Rest, Fold, Compress, INITIAL;
      FillBlock(message, d);
      Copy(buf, r, d);
      assert buf[..] == Rest(message) + d;
      FoldBlock(Compress, INITIAL, Whole(message), buf[..]);
      Transform(state, buf[..]);
    }

    /** SHA256_Pad: the state after the padding of section 5.1.1 */
    method Pad()
      requires Valid()
      modifies this, state, buf
      ensures state.Length == 8 && state[..] == Fold(Compress, INITIAL, Padded(message, Length64(8 * |message|)))
      ensures message == old(message)
    {
      hide Whole, Rest, Fold, Compress, Padded, Length64, INITIAL, PAD;
      var r := count / 8 % 64;
      Buffered(|message|);
      PadSize();
      PaddedBlocks(message, count);
      ghost var start := Whole(message);
      if r < 56 {
        Copy(buf, r, PAD[..56 - r]);
        assert buf[..56] == Rest(message) + PAD[..56 - r];
      } else {
        Copy(buf, r, PAD[..64 - r]);
        assert buf[..] == Rest(message) + PAD[..64 - r];
        FoldBlock(Compress, INITIAL, start, buf[..]);
        start := start + buf[..];
        Transform(state, buf[..]);
        Copy(buf, 0, Zeros(56));
        assert buf[..56] == Zeros(56);
      }
      LastBlock(start);
    }

    /** the length and the last block */
    method LastBlock(ghost start: seq<Byte>)
      requires state.Length == 8 && buf.Length == 64 && count < 0x1_0000_0000_0000_0000
      requires state[..] == Fold(Compress, INITIAL, start)
      modifies state, buf
      ensures state[..] == Fold(Compress, INITIAL, start + (old(buf[..56]) + Length64(count)))
    {
      hide Fold, Compress, Length64, INITIAL;
      Copy(buf, 56, Be64Enc(count));
      assert buf[..] == old(buf[..56]) + Length64(count);
      FoldBlock(Compress, INITIAL, start, buf[..]);
      Transform(state, buf[..]);
    }

    /** SHA256_Final: the digest of the standard; the context is cleared. */
    method Final(digest: array<Byte>)
      requires Valid() && digest.Length == 32 && digest != buf
      modifies this, state, buf, digest
      ensures digest[..] == Digest(old(message))
      ensures count == 0 && state[..] == seq(8, _ => 0) && buf[..] == Zeros(64)
    {
      hide Whole, Rest, Fold, Compress, Padded, Length64, EncodeAll, INITIAL;
      Pad();
      EncodeVector(digest, state);
      forall i | 0 <= i < 8 { state[i] := 0; }
      forall i | 0 <= i < 64 { buf[i] := Byte(0); }
      count := 0;
    }
  }

  const PAD: seq<Byte> := [Byte(0x80)] + Zeros(63)

  /** The padded message: what the buffer holds when its last one or two blocks are mixed in. */
  lemma PaddedBlocks(m: seq<Byte>, count: nat)
    requires count == 8 * |m| % 0x1_0000_0000_0000_0000
    ensures
      var r, p := |m| % 64, Padded(m, Length64(8 * |m|));
      && (r < 56 ==> p == Whole(m) + (Rest(m) + PAD[..56 - r] + Length64(count)))
      && (r >= 56 ==> p == Whole(m) + (Rest(m) + PAD[..64 - r]) + (Zeros(56) + Length64(count)))
  {
    hide Whole, Rest, Zeros, Length64, PAD;
    var r, l := |m| % 64, Length64(count);
    LengthModulo(8 * |m|);
    PaddedParts(m, l);
    if r < 56 {
      PadStart(56 - r);
      assert Rest(m) + [Byte(0x80)] + Zeros(55 - r) == Rest(m) + PAD[..56 - r];
    } else {
      PadStart(64 - r);
      assert Rest(m) + [Byte(0x80)] + Zeros(63 - r) == Rest(m) + PAD[..64 - r];
    }
  }

  lemma PadSize()
    ensures |PAD| == 64
  {
  }

  lemma PadStart(k: nat)
    requires 1 <= k <= 64
    ensures |PAD| == 64 && PAD[..k] == [Byte(0x80)] + Zeros(k - 1)
  {
  }

  lemma LengthModulo(n: nat)
    ensures Length64(n % 0x1_0000_0000_0000_0000) == Length64(n)
  {
    hide ToByte;
    LowByte(n, 0x100000000000000, 0x100);
    LowByte(n, 0x1000000000000, 0x10000);
    LowByte(n, 0x10000000000, 0x1000000);
    LowByte(n, 0x100000000, 0x100000000);
    LowByte(n, 0x1000000, 0x10000000000);
    LowByte(n, 0x10000, 0x1000000000000);
    LowByte(n, 0x100, 0x100000000000000);
    LowByte(n, 1, 0x1_0000_0000_0000_0000);
  }

  /** be32enc_vect */
  method EncodeVector(dst: array<Byte>, src: array<Word>)
    requires dst.Length == 4 * src.Length
    modifies dst
    ensures dst[..] == EncodeAll(src[..])
  {
    hide Encode;
    for i := 0 to src.Length
      invariant dst[..4 * i] == EncodeAll(src[..i])
    {
      Copy(dst, 4 * i, Encode(src[i]));
      assert src[..i + 1][..i] == src[..i];
    }
    assert src[..src.Length] == src[..];
  }

  lemma NextBlock(m: seq<Byte>, src: seq<Byte>, at: nat)
    requires at + 64 <= |src| && |m + src[..at]| % 64 == 0
    ensures m + src[..at] + src[at..at + 64] == m + src[..at + 64] && |m + src[..at + 64]| % 64 == 0
  {
  }

  lemma Buffered(n: nat)
    ensures 8 * n % 0x1_0000_0000_0000_0000 / 8 % 64 == n % 64
  {
    var q, m := n / 0x2000_0000_0000_0000, n % 0x2000_0000_0000_0000;
    assert n == 0x2000_0000_0000_0000 * q + m;
    Arithmetic.Remainder(8 * n, 0x1_0000_0000_0000_0000, q, 8 * m);
    SameLowBits(n, 0x80_0000_0000_0000 * q, m);
  }

  lemma Counted(n: nat, k: nat)
    ensures
      (8 * n % 0x1_0000_0000_0000_0000 + k * 8 % 0x1_0000_0000_0000_0000) % 0x1_0000_0000_0000_0000
      == 8 * (n + k) % 0x1_0000_0000_0000_0000
  {
  }

  /** sha256_hash, on what successive reads of the file return */
  method HashFile(chunks: seq<seq<Byte>>) returns (digest: seq<Byte>)
    ensures digest == Digest(Input(chunks))
  {
    hide Digest, Absorbed;
    var ctx := new Context();
    var i := 0;
    assert chunks[0..] == chunks && ctx.message + Input(chunks) == Input(chunks);
    while i < |chunks| && chunks[i] != []
      invariant 0 <= i <= |chunks| && ctx.Valid() && fresh(ctx) && fresh(ctx.buf) && fresh(ctx.state)
      invariant ctx.message + Input(chunks[i..]) == Input(chunks)
    {
      InputNext(ctx.message, chunks, i);
      ctx.Update(chunks[i]);
      i := i + 1;
    }
    var result := new Byte[32](_ => Byte(0));
    assert ctx.message == Input(chunks) by { assert Input(chunks[i..]) == []; }
    ctx.Final(result);
    digest := result[..];
  }
}
