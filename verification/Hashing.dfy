/** What the SHA-256 and MD5 code share: messages cut into blocks of 64 bytes, with padding. */
module Hashing {
  import opened Arithmetic

  datatype Byte = Byte(bits: bv8)

  /** the low eight bits */
  function ToByte(n: nat): Byte { Byte((n % 256) as bv8) }

  /** a uint32_t */
  type Word = bv32

  /** addition modulo 2^32 */
  function Plus(a: Word, b: Word): Word { a + b }

  type Block = b: seq<Byte> | |b| == 64 witness seq(64, _ => Byte(0))

  /** the state after the blocks of m, the last of which may be incomplete and is ignored then */
  function Fold<S>(f: (S, Block) -> S, s: S, m: seq<Byte>): S {
    if |m| < 64 then s else f(Fold(f, s, m[..|m| - 64]), m[|m| - 64..])
  }

  function Whole(m: seq<Byte>): seq<Byte> { m[..|m| - |m| % 64] }

  function Rest(m: seq<Byte>): seq<Byte> { m[|m| - |m| % 64..] }

  function Zeros(n: nat): (s: seq<Byte>)
    ensures |s| == n && forall i :: 0 <= i < n ==> s[i] == Byte(0)
  {
    seq(n, _ => Byte(0))
  }

  /** the number of zero bytes between the byte 0x80 and the length */
  function ZeroCount(n: nat): (k: nat)
    ensures k < 64 && (n + 1 + k) % 64 == 56
  {
    (119 - n % 64) % 64
  }

  /** section 5.1.1 of FIPS 180-4 and sections 3.1 and 3.2 of RFC 1321, for an encoding of the length in 8 bytes */
  function Padded(m: seq<Byte>, length: seq<Byte>): (p: seq<Byte>)
    requires |length| == 8
    ensures |p| % 64 == 0
  {
    m + [Byte(0x80)] + Zeros(ZeroCount(|m|)) + length
  }

  lemma FoldBlock<S>(f: (S, Block) -> S, s: S, m: seq<Byte>, b: Block)
    ensures Fold(f, s, m + b) == f(Fold(f, s, m), b)
  {
    assert (m + b)[..|m + b| - 64] == m && (m + b)[|m + b| - 64..] == b;
  }

  lemma {:induction false} FoldTwice<S>(f: (S, Block) -> S, s: S, m: seq<Byte>, d: seq<Byte>)
    requires |m| % 64 == 0 && |d| % 64 == 0
    ensures Fold(f, s, m + d) == Fold(f, Fold(f, s, m), d)
    decreases |d|
  {
    if |d| == 0 {
      assert m + d == m;
    } else {
      hide Fold;
      var e, b := d[..|d| - 64], d[|d| - 64..];
      FoldTwice(f, s, m, e);
      FoldMore(f, s, m, e, b);
      assert d == e + b;
    }
  }

  lemma FoldMore<S>(f: (S, Block) -> S, s: S, m: seq<Byte>, e: seq<Byte>, b: Block)
    requires Fold(f, s, m + e) == Fold(f, Fold(f, s, m), e)
    ensures Fold(f, s, m + (e + b)) == Fold(f, Fold(f, s, m), e + b)
  {
    hide Fold;
    FoldBlock(f, s, m + e, b);
    FoldBlock(f, Fold(f, s, m), e, b);
    assert m + (e + b) == m + e + b;
  }

  lemma Cut(m: seq<Byte>)
    ensures m == Whole(m) + Rest(m) && |Whole(m)| % 64 == 0 && |Rest(m)| == |m| % 64
  {
  }

  lemma SameLowBits(n: nat, x: nat, lo: nat)
    requires n == 64 * x + lo
    ensures lo % 64 == n % 64
  {
  }

  /** bytes that do not fill the block */
  lemma ShortAppend(m: seq<Byte>, d: seq<Byte>)
    requires |d| < 64 - |m| % 64
    ensures Whole(m + d) == Whole(m) && Rest(m + d) == Rest(m) + d
  {
    assert |m + d| % 64 == |m| % 64 + |d|;
  }

  /** bytes after a whole number of blocks */
  lemma WholeAppend(m: seq<Byte>, d: seq<Byte>)
    requires |m| % 64 == 0 && |d| < 64
    ensures Whole(m + d) == m && Rest(m + d) == d && |m + d| % 64 == |d|
  {
    BelowBlock(|m|, |d|);
    assert (m + d)[..|m|] == m && (m + d)[|m|..] == d;
  }

  lemma BelowBlock(a: nat, b: nat)
    requires a % 64 == 0 && b < 64
    ensures (a + b) % 64 == b
  {
  }

  lemma Slices(m: seq<Byte>, src: seq<Byte>, at: nat)
    requires at <= |src|
    ensures m + src[..at] + src[at..] == m + src
  {
  }

  /** bytes that fill the block */
  lemma FillBlock(m: seq<Byte>, d: seq<Byte>)
    requires |d| == 64 - |m| % 64
    ensures |Rest(m) + d| == 64 && Whole(m) + (Rest(m) + d) == m + d && |m + d| % 64 == 0
  {
    Cut(m);
    assert Whole(m) + (Rest(m) + d) == Whole(m) + Rest(m) + d;
  }

  /** what a file holds whose successive reads return these bytes: a read of no bytes ends it */
  function Input(chunks: seq<seq<Byte>>): seq<Byte> {
    if chunks == [] || chunks[0] == [] then [] else chunks[0] + Input(chunks[1..])
  }

  lemma InputNext(m: seq<Byte>, chunks: seq<seq<Byte>>, i: nat)
    requires i < |chunks| && chunks[i] != []
    ensures m + Input(chunks[i..]) == m + chunks[i] + Input(chunks[i + 1..])
  {
    assert chunks[i..][1..] == chunks[i + 1..];
    assert m + (chunks[i] + Input(chunks[i + 1..])) == m + chunks[i] + Input(chunks[i + 1..]);
  }

  /** The first read of no bytes ends the file, and what reads return before it follows each other. */
  lemma {:induction false} InputEnds(before: seq<seq<Byte>>, c: seq<Byte>, after: seq<seq<Byte>>)
    requires (forall b <- before :: b != []) && c != []
    ensures Input(before + [[]] + after) == Input(before) && Input(before + [c]) == Input(before) + c
  {
    if before == [] {
      assert [] + [[]] + after == [[]] + after && [] + [c] == [c] && [c][1..] == [];
      assert Input([c]) == c + Input([]) && c + [] == c && [] + c == c;
    } else {
      assert before[0] in before && forall b <- before[1..] :: b in before;
      InputEnds(before[1..], c, after);
      assert (before + [[]] + after)[1..] == before[1..] + [[]] + after && (before + [c])[1..] == before[1..] + [c];
      assert before[0] + (Input(before[1..]) + c) == before[0] + Input(before[1..]) + c;
    }
  }

  /** memcpy to dst + at */
  method Copy(dst: array<Byte>, at: nat, src: seq<Byte>)
    requires at + |src| <= dst.Length
    modifies dst
    ensures dst[..] == old(dst[..at]) + src + old(dst[at + |src|..])
  {
    forall i | 0 <= i < |src| {
      dst[at + i] := src[i];
    }
  }

  /** the bytes of a number below 2^64, by halves */
  lemma Halves(n: nat)
    ensures
      var hi, lo := n / 0x100000000, n % 0x100000000;
      && hi / 0x1000000 == n / 0x100000000000000 && hi / 0x10000 == n / 0x1000000000000 && hi / 0x100 == n / 0x10000000000
      && lo / 0x1000000 % 256 == n / 0x1000000 % 256 && lo / 0x10000 % 256 == n / 0x10000 % 256
      && lo / 0x100 % 256 == n / 0x100 % 256 && lo % 256 == n % 256
  {
    Divided(n, 0x100000000, 0x1000000);
    Divided(n, 0x100000000, 0x10000);
    Divided(n, 0x100000000, 0x100);
    LowBits(n, 0x1000000, 0x100);
    LowBits(n, 0x10000, 0x10000);
    LowBits(n, 0x100, 0x1000000);
    LowBits(n, 1, 0x100000000);
  }

  lemma Associative(a: Word, b: Word, c: Word)
    ensures Plus(Plus(a, b), c) == Plus(a, Plus(b, c))
  {
    hide *;
    PlusIs(a, b);
    PlusIs(b, c);
    SumAssociative(a, b, c);
  }

  lemma PlusIs(a: Word, b: Word)
    ensures Plus(a, b) == a + b
  {
  }

  lemma SumAssociative(a: Word, b: Word, c: Word)
    ensures Plus(a + b, c) == Plus(a, b + c)
  {
  }

  lemma Commutative(a: Word, b: Word)
    ensures Plus(a, b) == Plus(b, a)
  {
  }

  lemma SameByte(a: nat, b: nat)
    requires a % 256 == b % 256
    ensures ToByte(a) == ToByte(b)
  {
  }

  lemma LowByte(n: nat, a: nat, b: nat)
    requires a > 0 && b > 0 && b % 256 == 0 && a * b == 0x1_0000_0000_0000_0000
    ensures ToByte(n % 0x1_0000_0000_0000_0000 / a) == ToByte(n / a)
  {
    LowBits(n, a, b);
    SameByte(n % 0x1_0000_0000_0000_0000 / a, n / a);
  }

  /** The padded message: its whole blocks, and the last one or two blocks. */
  lemma PaddedParts(m: seq<Byte>, l: seq<Byte>)
    requires |l| == 8
    ensures
      var r, p := |m| % 64, Padded(m, l);
      && |Whole(m)| % 64 == 0
      && (r < 56 ==> p == Whole(m) + (Rest(m) + [Byte(0x80)] + Zeros(55 - r) + l))
      && (r >= 56 ==> p == Whole(m) + (Rest(m) + [Byte(0x80)] + Zeros(63 - r)) + (Zeros(56) + l))
  {
    hide Whole, Rest, Zeros;
    var r := |m| % 64;
    Cut(m);
    if r < 56 {
      Joined(Whole(m), Rest(m), [Byte(0x80)], Zeros(55 - r), l);
    } else {
      ZerosSplit(63 - r, 56);
      JoinedTwo(Whole(m), Rest(m), [Byte(0x80)], Zeros(63 - r), Zeros(56), l);
    }
  }

  lemma ZerosSplit(a: nat, b: nat)
    ensures Zeros(a + b) == Zeros(a) + Zeros(b)
  {
  }

  lemma Joined(w: seq<Byte>, r: seq<Byte>, e: seq<Byte>, z: seq<Byte>, l: seq<Byte>)
    ensures w + r + e + z + l == w + (r + e + z + l)
  {
  }

  lemma JoinedTwo(w: seq<Byte>, r: seq<Byte>, e: seq<Byte>, y: seq<Byte>, z: seq<Byte>, l: seq<Byte>)
    ensures w + r + e + (y + z) + l == w + (r + e + y) + (z + l)
  {
  }

  const ABC: seq<Byte> := [Byte(0x61), Byte(0x62), Byte(0x63)]

  /** the one block of the padded message "abc" */
  lemma AbcBlock(l: seq<Byte>) returns (b: Block)
    requires |l| == 8
    ensures b == Padded(ABC, l) && b[..4] == [Byte(0x61), Byte(0x62), Byte(0x63), Byte(0x80)] && b[56..] == l
    ensures forall i :: 4 <= i < 56 ==> b[i] == Byte(0)
  {
    assert ABC + [Byte(0x80)] == [Byte(0x61), Byte(0x62), Byte(0x63), Byte(0x80)];
    b := FourAndZeros(ABC + [Byte(0x80)], l);
  }

  lemma FourAndZeros(a: seq<Byte>, l: seq<Byte>) returns (b: Block)
    requires |a| == 4 && |l| == 8
    ensures b == a + Zeros(52) + l && b[..4] == a && b[56..] == l
    ensures forall i :: 4 <= i < 56 ==> b[i] == Byte(0)
  {
    b := a + Zeros(52) + l;
  }
}
