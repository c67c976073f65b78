/** padjffs2: an image is padded to erase-block boundaries, with an end-of-filesystem marker at each. */
module Padding {
  import opened Arithmetic

  /** A uint32_t mask, as the set of its bits. */
  type Mask = s: set<nat> | forall b <- s :: b < 32

  function Pow2(n: nat): (p: nat)
    ensures p > 0
  {
    if n == 0 then 1 else 2 * Pow2(n - 1)
  }

  /** the multiples of m next to x */
  function Floor(x: nat, m: nat): nat
    requires m > 0
  {
    x - x % m
  }

  function RoundUp(x: nat, m: nat): nat
    requires m > 0
  {
    Floor(x + m - 1, m)
  }

  /** The macro ALIGN for a power of two m below 2^32. The complement of m - 1 has 32 bits, so the bits of the
      length above them are lost. */
  function Align(x: nat, m: nat): nat
    requires m > 0
  {
    Floor((x + m - 1) % 0x1_0000_0000, m)
  }

  /** in_len, out_len and pad_mask, and where markers were written, counting the extra offset */
  datatype State = State(inLen: nat, outLen: nat, mask: Mask, marks: seq<nat>)

  /** the bit the first inner loop stops at, looking from bit n on; without any it ends like with bit 31 */
  function FirstBit(mask: Mask, n: nat): (i: nat)
    requires n <= 31
    ensures n <= i <= 31
    ensures (forall b :: n <= b < i ==> b !in mask) && (i in mask || i == 31)
    decreases 31 - n
  {
    if n in mask || n == 31 then n else FirstBit(mask, n + 1)
  }

  /** the second inner loop: the bits from 10 on whose power of two divides the length are cleared */
  function Cleared(mask: Mask, inLen: nat): Mask {
    set b | b in mask && (b < 10 || inLen % Pow2(b) != 0)
  }

  /** one iteration of the loop of pad_image */
  function Step(s: State, markLen: nat): State {
    var inLen := Align(s.inLen, Pow2(FirstBit(s.mask, 10)));
    var at := if s.outLen < inLen then inLen else s.outLen;
    State(inLen, at + markLen, Cleared(s.mask, inLen), s.marks + [at])
  }

  function Iterate(s: State, markLen: nat, n: nat): State {
    if n == 0 then s else Step(Iterate(s, markLen, n - 1), markLen)
  }

  lemma FloorDivides(x: nat, m: nat)
    requires m > 0
    ensures Floor(x, m) % m == 0
  {
    assert Floor(x, m) == x / m * m;
    Product(x / m, m);
  }

  lemma RoundUpBounds(x: nat, m: nat)
    requires m > 0
    ensures x <= RoundUp(x, m) < x + m && RoundUp(x, m) % m == 0
  {
    FloorDivides(x + m - 1, m);
  }

  lemma RoundUpLeast(x: nat, y: nat, m: nat)
    requires m > 0 && x <= y && y % m == 0
    ensures RoundUp(x, m) <= y
  {
    RoundUpBounds(x, m);
    if y < RoundUp(x, m) {
      Apart(y, RoundUp(x, m), m);
    }
  }

  lemma {:induction false} Pow2Sum(a: nat, b: nat)
    ensures Pow2(a + b) == Pow2(a) * Pow2(b)
  {
    if a > 0 {
      Pow2Sum(a - 1, b);
      assert Pow2(a + b) == 2 * Pow2(a - 1 + b);
      Regroup(2, Pow2(b), Pow2(a - 1));
    }
  }

  lemma Divides(x: nat, a: nat, b: nat)
    requires a <= b && x % Pow2(b) == 0
    ensures x % Pow2(a) == 0
  {
    Pow2Sum(a, b - a);
    Factor(x, Pow2(a), Pow2(b - a));
  }

  lemma Powers()
    ensures Pow2(10) == 1024 && Pow2(32) == 0x1_0000_0000
  {
    assert Pow2(8) == 256;
    Pow2Sum(8, 8);
    Pow2Sum(16, 16);
  }

  lemma Modulo(x: nat, i: nat)
    requires i <= 32 && x % Pow2(i) == 0
    ensures x % 0x1_0000_0000 % Pow2(i) == 0
  {
    Powers();
    assert Pow2(32) % Pow2(32) == 0;
    Divides(Pow2(32), i, 32);
    Difference(x, x / 0x1_0000_0000, 0x1_0000_0000, Pow2(i));
  }

  /** The alignment is the right one, modulo 2^32. */
  lemma AlignModulo(x: nat, i: nat)
    requires i <= 31
    ensures Align(x, Pow2(i)) == RoundUp(x, Pow2(i)) % 0x1_0000_0000
  {
    hide Pow2, Floor;
    var m, y := Pow2(i), x + Pow2(i) - 1;
    RoundUpBounds(x, m);
    Modulo(RoundUp(x, m), i);
    Below(RoundUp(x, m) % 0x1_0000_0000, i);
    FloorModulo(y, 0x1_0000_0000, m);
  }

  lemma FloorModulo(y: nat, n: nat, m: nat)
    requires m > 0 && n > 0 && Floor(y, m) % n % m == 0 && Floor(y, m) % n + m <= n
    ensures Floor(y % n, m) == Floor(y, m) % n
  {
    var f, k := Floor(y, m), y % m;
    var r, p := f % n, f / n;
    assert y == p * n + (r + k);
    Remainder(y, n, p, r + k);
    assert r == r / m * m;
    Remainder(r + k, m, r / m, k);
  }

  lemma Below(r: nat, i: nat)
    requires i <= 32 && r % Pow2(i) == 0 && r < 0x1_0000_0000
    ensures r + Pow2(i) <= 0x1_0000_0000
  {
    Powers();
    assert Pow2(32) % Pow2(32) == 0;
    Divides(Pow2(32), i, 32);
    Apart(r, Pow2(32), Pow2(i));
  }

  // Termination

  lemma StepShrinks(s: State, markLen: nat)
    requires s.mask != {} && forall b <- s.mask :: 10 <= b
    ensures Step(s, markLen).mask < s.mask
  {
    var i := FirstBit(s.mask, 10);
    assert i in s.mask by {
      var b :| b in s.mask;
    }
    FloorDivides((s.inLen + Pow2(i) - 1) % 0x1_0000_0000, Pow2(i));
    assert i !in Step(s, markLen).mask;
  }

  lemma {:induction false} LowBitStays(s: State, markLen: nat, n: nat, b: nat)
    requires b < 10 && b in s.mask
    ensures b in Iterate(s, markLen, n).mask
  {
    if n > 0 {
      LowBitStays(s, markLen, n - 1, b);
    }
  }

  lemma {:induction false} Empties(s: State, markLen: nat) returns (n: nat)
    requires forall b <- s.mask :: 10 <= b
    ensures Iterate(s, markLen, n).mask == {}
    decreases |s.mask|
  {
    if s.mask == {} {
      n := 0;
    } else {
      StepShrinks(s, markLen);
      SubsetSize(Step(s, markLen).mask, s.mask);
      var k := Empties(Step(s, markLen), markLen);
      IterateNext(s, markLen, k);
      n := k + 1;
    }
  }

  lemma SubsetSize(a: set<nat>, b: set<nat>)
    requires a < b
    ensures |a| < |b|
  {
    assert b == a + (b - a) && b - a != {};
  }

  lemma {:induction false} IterateNext(s: State, markLen: nat, n: nat)
    ensures Iterate(s, markLen, n + 1) == Iterate(Step(s, markLen), markLen, n)
  {
    hide Step;
    if n > 0 {
      IterateNext(s, markLen, n - 1);
    }
  }

  /** The loop ends exactly when the mask is a multiple of 1024. */
  lemma EndsIff(s: State, markLen: nat)
    ensures (exists n :: Iterate(s, markLen, n).mask == {}) <==> forall b <- s.mask :: 10 <= b
  {
    if forall b <- s.mask :: 10 <= b {
      var n := Empties(s, markLen);
    } else {
      var b :| b in s.mask && b < 10;
      forall n ensures Iterate(s, markLen, n).mask != {} {
        LowBitStays(s, markLen, n, b);
      }
    }
  }

  /** the bits of a uint32_t */
  function BitsOf(n: nat): Mask {
    set b | 0 <= b < 32 && n / Pow2(b) % 2 == 1
  }

  /** the mask that main builds from its arguments */
  function MaskOf(args: seq<nat>): Mask {
    if args == [] then {} else BitsOf(args[0] * 1024 % 0x1_0000_0000) + MaskOf(args[1..])
  }

  function CommandMask(args: seq<nat>): Mask {
    if MaskOf(args) == {} then {12, 13, 16, 17} else MaskOf(args)
  }

  /** Every command line yields a mask with which the loop ends. */
  lemma CommandMaskHigh(args: seq<nat>)
    ensures forall b <- CommandMask(args) :: 10 <= b
  {
    MaskHigh(args);
  }

  lemma {:induction false} MaskHigh(args: seq<nat>)
    ensures forall b <- MaskOf(args) :: 10 <= b
  {
    if args != [] {
      MaskHigh(args[1..]);
      forall b | b in BitsOf(args[0] * 1024 % 0x1_0000_0000) ensures 10 <= b {
        if b < 10 {
          LowBitClear(args[0], b);
        }
      }
    }
  }

  lemma LowBitClear(a: nat, b: nat)
    requires b < 10
    ensures a * 1024 % 0x1_0000_0000 / Pow2(b) % 2 == 0
  {
    Powers();
    Pow2Sum(b, 10 - b);
    assert Pow2(10 - b) == 2 * Pow2(9 - b);
    Kilobytes(a);
    Even(a % 0x40_0000, Pow2(b), Pow2(9 - b), 1024);
  }

  lemma Kilobytes(a: nat)
    ensures a * 1024 % 0x1_0000_0000 == a % 0x40_0000 * 1024
  {
  }

  lemma Even(k: nat, p: nat, c: nat, n: nat)
    requires p > 0 && n == p * (2 * c)
    ensures k * n / p % 2 == 0
  {
    Regroup(k, p, 2 * c);
    Quotient(k * n, p, k * (2 * c), 0);
    Regroup(k, 2, c);
  }

  // Where the markers go

  function Run(s: State, markLen: nat): (t: State)
    requires forall b <- s.mask :: 10 <= b
    ensures s.marks <= t.marks
    decreases |s.mask|
  {
    if s.mask == {} then s else
      StepShrinks(s, markLen);
      SubsetSize(Step(s, markLen).mask, s.mask);
      Run(Step(s, markLen), markLen)
  }

  /** a marker was written at a multiple of 2^b */
  ghost predicate Marked(marks: seq<nat>, b: nat) {
    exists a :: a in marks && a % Pow2(b) == 0
  }

  lemma StepAligns(s: State, markLen: nat)
    requires s.mask != {} && forall b <- s.mask :: 10 <= b
    ensures
      var i := FirstBit(s.mask, 10);
      && i in s.mask && Step(s, markLen).inLen == RoundUp(s.inLen, Pow2(i)) % 0x1_0000_0000
      && Step(s, markLen).inLen % 1024 == 0
  {
    hide Align, RoundUp;
    var i := FirstBit(s.mask, 10);
    assert i in s.mask by {
      var b :| b in s.mask;
    }
    AlignModulo(s.inLen, i);
    RoundUpBounds(s.inLen, Pow2(i));
    Modulo(RoundUp(s.inLen, Pow2(i)), i);
    Divides(Step(s, markLen).inLen, 10, i);
    Powers();
  }

  /** the next boundary is not before what is written already */
  ghost predicate Room(s: State, h: nat) {
    forall b <- s.mask :: 10 <= b <= h && s.outLen <= RoundUp(s.inLen, Pow2(b))
  }

  lemma StepBelow(s: State, markLen: nat, h: nat, r: nat)
    requires markLen <= 1024 && s.inLen <= r < 0x1_0000_0000 && r % Pow2(h) == 0 && Room(s, h) && s.mask != {}
    ensures
      var t := Step(s, markLen);
      && t.inLen <= r && Room(t, h) && t.mask < s.mask && t.marks == s.marks + [t.inLen]
      && forall b <- s.mask :: b in t.mask || t.inLen % Pow2(b) == 0
  {
    hide RoundUp, Align, Pow2;
    var i, t := FirstBit(s.mask, 10), Step(s, markLen);
    StepAligns(s, markLen);
    Divides(r, i, h);
    RoundUpLeast(s.inLen, r, Pow2(i));
    StepShrinks(s, markLen);
    RoomLeft(t, h, t.inLen, markLen);
  }

  /** len rounded up to one of the block sizes in the mask */
  ghost predicate Boundary(len: nat, mask: Mask, at: nat) {
    exists b :: b in mask && at == RoundUp(len, Pow2(b))
  }

  /** Rounding up to a smaller power of two first changes nothing. */
  lemma RoundTwice(x: nat, i: nat, b: nat)
    requires i <= b
    ensures RoundUp(RoundUp(x, Pow2(i)), Pow2(b)) == RoundUp(x, Pow2(b))
  {
    hide RoundUp, Pow2;
    var y, z := RoundUp(x, Pow2(i)), RoundUp(x, Pow2(b));
    RoundUpBounds(x, Pow2(i));
    RoundUpBounds(x, Pow2(b));
    RoundUpBounds(y, Pow2(b));
    Divides(z, i, b);
    RoundUpLeast(x, z, Pow2(i));
    RoundUpLeast(y, z, Pow2(b));
    RoundUpLeast(x, RoundUp(y, Pow2(b)), Pow2(b));
  }

  /** One step passes one boundary, and leaves those that it does not pass. */
  lemma StepBoundary(s: State, markLen: nat, h: nat, r: nat)
    requires markLen <= 1024 && s.inLen <= r < 0x1_0000_0000 && r % Pow2(h) == 0 && Room(s, h) && s.mask != {}
    ensures
      var t := Step(s, markLen);
      && Boundary(s.inLen, s.mask, t.inLen)
      && forall b <- s.mask :: RoundUp(s.inLen, Pow2(b)) == if b in t.mask then RoundUp(t.inLen, Pow2(b)) else t.inLen
  {
    hide RoundUp, Align, Pow2;
    var i, t := FirstBit(s.mask, 10), Step(s, markLen);
    StepAligns(s, markLen);
    Divides(r, i, h);
    RoundUpLeast(s.inLen, r, Pow2(i));
    assert t.inLen == RoundUp(s.inLen, Pow2(i));
    forall b | b in s.mask
      ensures RoundUp(s.inLen, Pow2(b)) == if b in t.mask then RoundUp(t.inLen, Pow2(b)) else t.inLen
    {
      RoundTwice(s.inLen, i, b);
      if b !in t.mask {
        RoundUpExact(t.inLen, Pow2(b));
      }
    }
  }

  lemma RoundUpExact(x: nat, m: nat)
    requires m > 0 && x % m == 0
    ensures RoundUp(x, m) == x
  {
    RoundUpBounds(x, m);
    RoundUpLeast(x, x, m);
  }

  /** Below a multiple r of all the powers that fits in 32 bits, the markers written are at the boundaries. */
  lemma {:induction false} RunBoundaries(s: State, markLen: nat, h: nat, r: nat)
    requires markLen <= 1024 && s.inLen <= r < 0x1_0000_0000 && r % Pow2(h) == 0 && Room(s, h)
    ensures forall at :: at in Run(s, markLen).marks <==> at in s.marks || Boundary(s.inLen, s.mask, at)
    decreases |s.mask|
  {
    if s.mask != {} {
      hide RoundUp, Align, Pow2, Step;
      var t := Step(s, markLen);
      StepBelow(s, markLen, h, r);
      StepBoundary(s, markLen, h, r);
      SubsetSize(t.mask, s.mask);
      RunBoundaries(t, markLen, h, r);
      hide Boundary;
      forall at ensures at == t.inLen || Boundary(t.inLen, t.mask, at) <==> Boundary(s.inLen, s.mask, at) {
        BoundaryPassed(s.inLen, s.mask, t.inLen, t.mask, at);
      }
    }
  }

  lemma BoundaryPassed(x: nat, mask: Mask, y: nat, left: Mask, at: nat)
    requires left <= mask && Boundary(x, mask, y)
    requires forall b <- mask :: RoundUp(x, Pow2(b)) == if b in left then RoundUp(y, Pow2(b)) else y
    ensures at == y || Boundary(y, left, at) <==> Boundary(x, mask, at)
  {
    hide RoundUp, Pow2;
    if b :| b in left && at == RoundUp(y, Pow2(b)) {
      assert b in mask;
    }
  }

  lemma NextBoundary(x: nat, b: nat)
    requires b >= 10 && x % 1024 == 0 && x % Pow2(b) != 0
    ensures x + 1024 <= RoundUp(x, Pow2(b))
  {
    Powers();
    RoundUpBounds(x, Pow2(b));
    Divides(RoundUp(x, Pow2(b)), 10, b);
    Apart(x, RoundUp(x, Pow2(b)), 1024);
  }

  ghost predicate Highest(h: nat, mask: Mask) {
    h in mask && forall b <- mask :: 10 <= b <= h
  }

  /** the length can be rounded up to the largest erase block in 32 bits, or need not be rounded */
  predicate Fits(len: nat, h: nat) {
    len + Pow2(h) <= 0x1_0000_0000 || len % Pow2(h) == 0
  }

  /** in_len counts the extra offset */
  function Start(len: nat, mask: Mask): State {
    State(len, len, mask, [])
  }

  /** The markers are exactly at the boundaries: the length rounded up to each block size in the mask. */
  lemma MarksExact(len: nat, markLen: nat, mask: Mask, h: nat)
    requires Highest(h, mask) && Fits(len, h) && markLen <= 1024
    ensures forall at :: at in Run(Start(len, mask), markLen).marks <==> Boundary(len, mask, at)
  {
    var s := Start(len, mask);
    if len % Pow2(h) == 0 {
      AlignedMarks(len, markLen, mask, h);
    } else {
      RoundUpBounds(len, Pow2(h));
      forall b | b in mask ensures s.outLen <= RoundUp(s.inLen, Pow2(b)) {
        RoundUpBounds(len, Pow2(b));
      }
      RunBoundaries(s, markLen, h, RoundUp(len, Pow2(h)));
    }
  }

  lemma FitsMarks(len: nat, markLen: nat, mask: Mask, h: nat)
    requires Highest(h, mask) && Fits(len, h) && markLen <= 1024
    ensures forall b <- mask :: Marked(Run(Start(len, mask), markLen).marks, b)
  {
    hide RoundUp, Run, Pow2, Fits;
    MarksExact(len, markLen, mask, h);
    forall b | b in mask ensures Marked(Run(Start(len, mask), markLen).marks, b) {
      assert Boundary(len, mask, RoundUp(len, Pow2(b)));
      RoundUpBounds(len, Pow2(b));
    }
  }

  /** a length that is aligned already gets one marker, at its end */
  lemma AlignedMarks(len: nat, markLen: nat, mask: Mask, h: nat)
    requires Highest(h, mask) && len % Pow2(h) == 0
    ensures forall at :: at in Run(Start(len, mask), markLen).marks <==> Boundary(len, mask, at)
  {
    hide Pow2, Align, RoundUp;
    var s, t := Start(len, mask), Step(Start(len, mask), markLen);
    AlignedStep(len, markLen, mask, h);
    assert t.mask == {};
    RunOne(s, markLen);
    forall b | b in mask ensures RoundUp(len, Pow2(b)) == len {
      Divides(len, b, h);
      RoundUpExact(len, Pow2(b));
    }
    assert Boundary(len, mask, len);
  }

  lemma AlignedStep(len: nat, markLen: nat, mask: Mask, h: nat)
    requires Highest(h, mask) && len % Pow2(h) == 0
    ensures Step(Start(len, mask), markLen).marks == [len] && Step(Start(len, mask), markLen).mask == {}
  {
    hide Pow2, Align, RoundUp;
    var s, i := Start(len, mask), FirstBit(mask, 10);
    var t := Step(s, markLen);
    StepAligns(s, markLen);
    Divides(len, i, h);
    RoundUpBounds(len, Pow2(i));
    RoundUpLeast(len, len, Pow2(i));
    forall b | b in mask ensures b !in t.mask {
      Divides(len, b, h);
      Modulo(len, b);
    }
  }

  lemma RunOne(s: State, markLen: nat)
    requires s.mask != {} && (forall b <- s.mask :: 10 <= b) && Step(s, markLen).mask == {}
    ensures Run(s, markLen) == Step(s, markLen)
  {
  }

  ghost predicate Unmarked(marks: seq<nat>, h: nat) {
    forall a :: a in marks ==> a % Pow2(h) != 0
  }

  /** what lies strictly between two neighbouring multiples of m is none */
  lemma StrictlyBetween(x: nat, n: nat, m: nat)
    requires m > 0 && n % m == 0 && x < n < x + m
    ensures x % m != 0
  {
    if x % m == 0 {
      Apart(x, n, m);
    }
  }

  lemma NotMultiple(x: nat, markLen: nat, h: nat)
    requires h >= 10 && x % 1024 == 0 && 0 < markLen < 1024
    ensures (x + markLen) % Pow2(h) != 0
  {
    if (x + markLen) % Pow2(h) == 0 {
      Divides(x + markLen, 10, h);
      Powers();
    }
  }

  /** Near 2^32, the alignments reach 2^32 without having met a multiple of the largest power. */
  lemma {:induction false} RunMissesBelow(s: State, markLen: nat, h: nat)
    requires 0 < markLen < 1024 && 10 <= h < 32 && Room(s, h) && Unmarked(s.marks, h)
    requires s.inLen < 0x1_0000_0000 < s.inLen + Pow2(h) && s.outLen % Pow2(h) != 0
    ensures Unmarked(Run(s, markLen).marks, h)
    decreases |s.mask|
  {
    if s.mask != {} {
      hide RoundUp, Align, Pow2, Step;
      var t := Step(s, markLen);
      StepMisses(s, markLen, h);
      SubsetSize(t.mask, s.mask);
      if t.mask != {} {
        RunMissesBelow(t, markLen, h);
      }
    }
  }

  lemma StepMisses(s: State, markLen: nat, h: nat)
    requires 0 < markLen < 1024 && 10 <= h < 32 && Room(s, h) && Unmarked(s.marks, h) && s.mask != {}
    requires s.inLen < 0x1_0000_0000 < s.inLen + Pow2(h) && s.outLen % Pow2(h) != 0
    ensures
      var t := Step(s, markLen);
      && t.mask < s.mask && Unmarked(t.marks, h)
      && (t.mask != {} ==> Room(t, h) && t.inLen < 0x1_0000_0000 < t.inLen + Pow2(h) && t.outLen % Pow2(h) != 0)
  {
    hide RoundUp, Align, Pow2, Room, Unmarked;
    var i, t := FirstBit(s.mask, 10), Step(s, markLen);
    RoomBits(s, h);
    StepAligns(s, markLen);
    StepShrinks(s, markLen);
    Crossing(s.inLen, i, h);
    if t.inLen == 0 {
      assert t.mask == {} by { ZeroMod(); }
      MarkMissed(s.marks, s.outLen, h);
    } else {
      MarkMissed(s.marks, t.inLen, h);
      NotMultiple(t.inLen, markLen, h);
      RoomLeft(t, h, t.inLen, markLen);
    }
  }

  lemma RoomBits(s: State, h: nat)
    requires Room(s, h)
    ensures forall b <- s.mask :: 10 <= b <= h
    ensures 10 <= h && FirstBit(s.mask, 10) in s.mask ==> s.outLen <= RoundUp(s.inLen, Pow2(FirstBit(s.mask, 10)))
  {
  }

  lemma MarkMissed(marks: seq<nat>, at: nat, h: nat)
    requires Unmarked(marks, h) && at % Pow2(h) != 0
    ensures Unmarked(marks + [at], h)
  {
  }

  lemma Crossing(x: nat, i: nat, h: nat)
    requires i <= 31 && h < 32 && x < 0x1_0000_0000 < x + Pow2(h)
    ensures
      var y := RoundUp(x, Pow2(i)) % 0x1_0000_0000;
      y == 0 || (y == RoundUp(x, Pow2(i)) && x <= y && y % Pow2(h) != 0)
  {
    hide RoundUp, Pow2;
    RoundUpBounds(x, Pow2(i));
    PowerOf32(i);
    PowerOf32(h);
    RoundUpLeast(x, 0x1_0000_0000, Pow2(i));
    if RoundUp(x, Pow2(i)) < 0x1_0000_0000 {
      StrictlyBetween(RoundUp(x, Pow2(i)), 0x1_0000_0000, Pow2(h));
    }
  }

  lemma RoomLeft(t: State, h: nat, x: nat, markLen: nat)
    requires t.inLen == x && x % 1024 == 0 && t.outLen == x + markLen && markLen <= 1024
    requires forall b <- t.mask :: 10 <= b <= h && x % Pow2(b) != 0
    ensures Room(t, h)
  {
    forall b | b in t.mask ensures 10 <= b <= h && t.outLen <= RoundUp(t.inLen, Pow2(b)) {
      NextBoundary(x, b);
    }
  }

  lemma ZeroMod()
    ensures forall b: nat :: 0 % Pow2(b) == 0
  {
  }

  lemma PowerOf32(i: nat)
    requires i <= 32
    ensures 0x1_0000_0000 % Pow2(i) == 0
  {
    Powers();
    assert Pow2(32) % Pow2(32) == 0;
    Divides(Pow2(32), i, 32);
  }

  /** From 2^32 on the aligned length is behind what is written, and markers follow each other without padding. */
  lemma {:induction false} RunMissesAbove(s: State, markLen: nat, h: nat, n: nat)
    requires markLen <= 12 && (forall b <- s.mask :: 10 <= b) && Unmarked(s.marks, h)
    requires 0x1_0000_0000 <= s.outLen && n % Pow2(h) == 0 && s.outLen + 12 * |s.mask| < n < s.outLen + Pow2(h)
    ensures Unmarked(Run(s, markLen).marks, h)
    decreases |s.mask|
  {
    if s.mask != {} {
      hide RoundUp, Align, Pow2;
      var t := Step(s, markLen);
      StepAligns(s, markLen);
      StepShrinks(s, markLen);
      SubsetSize(t.mask, s.mask);
      StrictlyBetween(s.outLen, n, Pow2(h));
      RunMissesAbove(t, markLen, h, n);
    }
  }

  lemma FirstMisses(len: nat, markLen: nat, mask: Mask, h: nat)
    requires Highest(h, mask) && markLen <= 12 && 0x1_0000_0000 <= len && len % Pow2(h) != 0
    ensures Unmarked(Run(Start(len, mask), markLen).marks, h)
  {
    hide RoundUp, Align, Pow2;
    var s, i := Start(len, mask), FirstBit(mask, 10);
    var t, y, n := Step(s, markLen), RoundUp(len, Pow2(i)), RoundUp(len, Pow2(h));
    StepAligns(s, markLen);
    StepShrinks(s, markLen);
    assert t.marks == [len];
    if t.mask == {} {
      RunOne(s, markLen);
    } else {
      var b :| b in t.mask;
      FarFromBoundary(len, h, i, b);
      SizeBelow(t.mask, 32);
      assert t.outLen == len + markLen;
      RunMissesAbove(t, markLen, h, n);
    }
  }

  lemma FarFromBoundary(len: nat, h: nat, i: nat, b: nat)
    requires 10 <= i <= h < 32 && 10 <= b <= h && RoundUp(len, Pow2(i)) % 0x1_0000_0000 % Pow2(b) != 0
    ensures
      var n := RoundUp(len, Pow2(h));
      len + 1024 <= n < len + Pow2(h) && n % Pow2(h) == 0
  {
    hide RoundUp, Pow2;
    var y, n := RoundUp(len, Pow2(i)), RoundUp(len, Pow2(h));
    RoundUpBounds(len, Pow2(i));
    RoundUpBounds(len, Pow2(h));
    assert y != n by {
      if y == n {
        Divides(n, b, h);
        Modulo(n, b);
      }
    }
    Divides(n, i, h);
    RoundUpLeast(len, n, Pow2(i));
    Powers();
    Divides(y, 10, i);
    Divides(n, 10, h);
    Apart(y, n, 1024);
  }

  lemma {:induction false} SizeBelow(s: set<nat>, n: nat)
    requires forall b <- s :: b < n
    ensures |s| <= n
  {
    if n > 0 {
      SizeBelow(s - {n - 1}, n - 1);
      assert s <= (s - {n - 1}) + {n - 1};
    } else {
      assert s == {};
    }
  }

  /** Each bit of the mask gets a marker at a multiple of its power of two, exactly for the lengths that fit. */
  lemma MarkedIff(len: nat, markLen: nat, mask: Mask, h: nat)
    requires Highest(h, mask) && 0 < markLen <= 12
    ensures (forall b <- mask :: Marked(Run(Start(len, mask), markLen).marks, b)) <==> Fits(len, h)
  {
    if Fits(len, h) {
      FitsMarks(len, markLen, mask, h);
    } else {
      if len < 0x1_0000_0000 {
        forall b | b in mask ensures len <= RoundUp(len, Pow2(b)) {
          RoundUpBounds(len, Pow2(b));
        }
        RunMissesBelow(Start(len, mask), markLen, h);
      } else {
        FirstMisses(len, markLen, mask, h);
      }
    }
  }

  /** A length that does not fit: one below 2^32 there is nothing left to align to, and the only marker for erase
      blocks of 4096 bytes is put at the length itself. */
  lemma EndOfRange()
    ensures Run(Start(0xFFFF_FFFF, {12}), 4).marks == [0xFFFF_FFFF] && !Marked([0xFFFF_FFFF], 12)
  {
    var s := Start(0xFFFF_FFFF, {12});
    Powers();
    assert Pow2(12) == 4096;
    assert FirstBit({12}, 10) == 12;
    AlignModulo(0xFFFF_FFFF, 12);
    assert Step(s, 4).inLen == 0;
    ZeroMod();
    assert Step(s, 4).mask == {};
    RunOne(s, 4);
  }

  // The command line

  lemma {:induction false} PowersRise(a: nat, b: nat)
    requires a < b
    ensures Pow2(a) < Pow2(b)
  {
    if a + 1 < b {
      PowersRise(a, b - 1);
    }
  }

  lemma BitOfPower(n: nat, b: nat)
    ensures Pow2(n) / Pow2(b) % 2 == 1 <==> b == n
  {
    if b < n {
      Pow2Sum(b, n - b);
      assert Pow2(n - b) == 2 * Pow2(n - b - 1);
      hide Pow2;
      EvenQuotient(Pow2(n), Pow2(b), Pow2(n - b - 1));
    } else if b > n {
      PowersRise(n, b);
      hide Pow2;
      Quotient(Pow2(n), Pow2(b), 0, Pow2(n));
    } else {
      hide Pow2;
      Quotient(Pow2(n), Pow2(n), 1, 0);
    }
  }

  lemma EvenQuotient(x: nat, y: nat, z: nat)
    requires y > 0 && x == y * (2 * z)
    ensures x / y % 2 == 0
  {
    Quotient(x, y, 2 * z, 0);
  }

  lemma BitsOfPower(n: nat)
    requires n < 32
    ensures BitsOf(Pow2(n)) == {n}
  {
    hide Pow2;
    BitOfPower(n, n);
    var mask := BitsOf(Pow2(n));
    forall b | b in mask ensures b == n {
      BitOfPower(n, b);
    }
  }

  /** a block size in kilobytes, as the bit of its size */
  lemma BlockBit(j: nat, a: nat)
    requires j < 22 && a == Pow2(j)
    ensures a * 1024 == Pow2(j + 10) && BitsOf(a * 1024 % 0x1_0000_0000) == {j + 10}
  {
    hide Pow2;
    Powers();
    Pow2Sum(j, 10);
    PowersRise(j + 10, 32);
    BitsOfPower(j + 10);
    hide BitsOf;
  }

  /** args are block sizes in kilobytes, powers of two below 2^22. */
  ghost predicate BlockSizes(args: seq<nat>, sizes: seq<nat>) {
    |args| == |sizes| && forall i :: 0 <= i < |args| ==> sizes[i] < 22 && args[i] == Pow2(sizes[i])
  }

  lemma {:induction false} MaskOfBlocks(args: seq<nat>, sizes: seq<nat>, b: nat)
    requires BlockSizes(args, sizes)
    ensures b in MaskOf(args) <==> exists i :: 0 <= i < |sizes| && b == sizes[i] + 10
  {
    if args != [] {
      BlockBit(sizes[0], args[0]);
      MaskOfBlocks(args[1..], sizes[1..], b);
      hide BitsOf, Pow2;
      assert sizes[1..] == [] || forall i :: 1 <= i < |sizes| ==> sizes[i] == sizes[1..][i - 1];
    }
  }

  /** With block sizes on the command line the boundaries are the length rounded up to each of them, and without,
      to 4, 8, 64 and 128 kilobytes. */
  lemma CommandBoundaries(args: seq<nat>, sizes: seq<nat>, len: nat, at: nat)
    requires BlockSizes(args, sizes)
    ensures args != [] ==>
              (Boundary(len, CommandMask(args), at) <==> exists i :: 0 <= i < |args| && at == RoundUp(len, args[i] * 1024))
    ensures args == [] ==>
              (Boundary(len, CommandMask(args), at) <==>
                 at in {RoundUp(len, 4096), RoundUp(len, 8192), RoundUp(len, 65536), RoundUp(len, 131072)})
  {
    hide RoundUp, Pow2;
    if args != [] {
      MaskOfBlocks(args, sizes, sizes[0] + 10);
      assert CommandMask(args) == MaskOf(args);
      forall i | 0 <= i < |args| ensures sizes[i] + 10 in MaskOf(args) && args[i] * 1024 == Pow2(sizes[i] + 10) {
        MaskOfBlocks(args, sizes, sizes[i] + 10);
        BlockBit(sizes[i], args[i]);
      }
      if Boundary(len, CommandMask(args), at) {
        var b :| b in MaskOf(args) && at == RoundUp(len, Pow2(b));
        MaskOfBlocks(args, sizes, b);
      }
    } else {
      DefaultSizes();
    }
  }

  lemma DefaultSizes()
    ensures Pow2(12) == 4096 && Pow2(13) == 8192 && Pow2(16) == 65536 && Pow2(17) == 131072
  {
  }

  // The file

  type Byte = b: nat | b < 256

  const BUF_SIZE: nat := 64 * 1024

  function Fill(n: nat): (s: seq<Byte>)
    ensures |s| == n
  {
    seq(n, _ => 0xff)
  }

  /** what follows an image that ends at len: the markers at these offsets, and 0xff between */
  function Tail(len: nat, marks: seq<nat>, pad: seq<Byte>): seq<Byte> {
    if marks == [] then [] else
      var t, at := Tail(len, marks[..|marks| - 1], pad), marks[|marks| - 1];
      t + Fill(if len + |t| < at then at - (len + |t|) else 0) + pad
  }

  /** the markers follow each other and the image without overlap */
  predicate Spaced(len: nat, marks: seq<nat>, markLen: nat) {
    marks == []
    || (Spaced(len, marks[..|marks| - 1], markLen) && End(len, marks[..|marks| - 1], markLen) <= marks[|marks| - 1])
  }

  function End(len: nat, marks: seq<nat>, markLen: nat): nat {
    if marks == [] then len else marks[|marks| - 1] + markLen
  }

  lemma {:induction false} RunSpaced(s: State, markLen: nat, len: nat)
    requires (forall b <- s.mask :: 10 <= b) && Spaced(len, s.marks, markLen) && s.outLen == End(len, s.marks, markLen)
    ensures Spaced(len, Run(s, markLen).marks, markLen)
    decreases |s.mask|
  {
    if s.mask != {} {
      StepShrinks(s, markLen);
      SubsetSize(Step(s, markLen).mask, s.mask);
      assert Step(s, markLen).marks[..|s.marks|] == s.marks;
      RunSpaced(Step(s, markLen), markLen, len);
    }
  }

  lemma {:induction false} TailLength(len: nat, marks: seq<nat>, pad: seq<Byte>)
    requires Spaced(len, marks, |pad|)
    ensures len + |Tail(len, marks, pad)| == End(len, marks, |pad|)
  {
    if marks != [] {
      TailLength(len, marks[..|marks| - 1], pad);
    }
  }

  /** The marker is at each of these offsets. */
  lemma {:induction false} TailMarked(len: nat, marks: seq<nat>, pad: seq<Byte>, k: nat)
    requires Spaced(len, marks, |pad|) && k < |marks|
    ensures len <= marks[k] <= marks[k] + |pad| <= len + |Tail(len, marks, pad)|
    ensures Tail(len, marks, pad)[marks[k] - len..marks[k] - len + |pad|] == pad
  {
    var before := marks[..|marks| - 1];
    TailLength(len, marks, pad);
    TailLength(len, before, pad);
    if k < |marks| - 1 {
      TailMarked(len, before, pad, k);
    }
  }

  /** j is a position in the marker written at this offset. */
  predicate InMarker(j: nat, at: nat, markLen: nat) { at <= j < at + markLen }

  /** Everything else is 0xff. */
  lemma {:induction false} TailFilled(len: nat, marks: seq<nat>, pad: seq<Byte>, j: nat)
    requires Spaced(len, marks, |pad|) && j < |Tail(len, marks, pad)|
    requires forall at <- marks :: !InMarker(len + j, at, |pad|)
    ensures Tail(len, marks, pad)[j] == 0xff
  {
    if marks != [] {
      var before, at := marks[..|marks| - 1], marks[|marks| - 1];
      TailLength(len, marks, pad);
      TailLength(len, before, pad);
      assert at in marks && forall x <- before :: x in marks;
      if j < |Tail(len, before, pad)| {
        TailFilled(len, before, pad, j);
      }
    }
  }

  lemma InTail(image: seq<Byte>, tail: seq<Byte>, at: nat, n: nat)
    requires at + n <= |tail|
    ensures (image + tail)[|image| + at..|image| + at + n] == tail[at..at + n]
  {
  }

  /** The file pad_image leaves: the image comes first, the markers follow it in order without overlap, each at
      its offset, every other byte behind the image is 0xff, and nothing follows the last marker; and if the length
      fits, the markers are at the length rounded up to each block size in the mask, and nowhere else. */
  lemma PaddedFile(image: seq<Byte>, extra: nat, pad: seq<Byte>, mask: Mask, h: nat)
    requires Highest(h, mask) && |pad| <= 12
    ensures
      var len := |image| + extra;
      var marks := Run(Start(len, mask), |pad|).marks;
      var file := image + Tail(len, marks, pad);
      && image <= file && Spaced(len, marks, |pad|)
      && (forall at <- marks :: len <= at && at + |pad| - extra <= |file| && file[at - extra..at + |pad| - extra] == pad)
      && (forall k :: |image| <= k < |file| && (forall at <- marks :: !InMarker(k + extra, at, |pad|)) ==> file[k] == 0xff)
      && marks != [] && |file| + extra == marks[|marks| - 1] + |pad|
      && (Fits(len, h) ==> forall at :: at in marks <==> exists b :: b in mask && at == RoundUp(len, Pow2(b)))
  {
    hide Run, Tail, Pow2, Spaced, Fits, Boundary, RoundUp;
    var len := |image| + extra;
    var marks := Run(Start(len, mask), |pad|).marks;
    RunSpaced(Start(len, mask), |pad|, len);
    RunMarksSome(Start(len, mask), |pad|);
    TailLength(len, marks, pad);
    FileMarked(image, extra, pad, marks);
    FileFilled(image, extra, pad, marks);
    if Fits(len, h) {
      MarksExact(len, |pad|, mask, h);
      forall at ensures Boundary(len, mask, at) <==> exists b :: b in mask && at == RoundUp(len, Pow2(b)) {
        BoundaryIs(len, mask, at);
      }
    }
  }

  lemma FileMarked(image: seq<Byte>, extra: nat, pad: seq<Byte>, marks: seq<nat>)
    requires Spaced(|image| + extra, marks, |pad|)
    ensures
      var len := |image| + extra;
      var file := image + Tail(len, marks, pad);
      forall at <- marks :: len <= at && at + |pad| - extra <= |file| && file[at - extra..at + |pad| - extra] == pad
  {
    hide Tail, Spaced;
    var len := |image| + extra;
    var tail := Tail(len, marks, pad);
    var file := image + tail;
    forall at | at in marks ensures len <= at && at + |pad| - extra <= |file| && file[at - extra..at + |pad| - extra] == pad {
      var k :| 0 <= k < |marks| && marks[k] == at;
      TailMarked(len, marks, pad, k);
      InTail(image, tail, at - len, |pad|);
    }
  }

  lemma FileFilled(image: seq<Byte>, extra: nat, pad: seq<Byte>, marks: seq<nat>)
    requires Spaced(|image| + extra, marks, |pad|)
    ensures
      var file := image + Tail(|image| + extra, marks, pad);
      forall k :: |image| <= k < |file| && (forall at <- marks :: !InMarker(k + extra, at, |pad|)) ==> file[k] == 0xff
  {
    hide Tail, Spaced;
    var len := |image| + extra;
    var file := image + Tail(len, marks, pad);
    forall k | |image| <= k < |file| && forall at <- marks :: !InMarker(k + extra, at, |pad|) ensures file[k] == 0xff {
      TailFilled(len, marks, pad, k - |image|);
    }
  }

  /** An empty mask leaves the image as it is. */
  lemma EmptyMask(image: seq<Byte>, extra: nat, pad: seq<Byte>)
    ensures image + Tail(|image| + extra, Run(Start(|image| + extra, {}), |pad|).marks, pad) == image
  {
  }

  lemma BoundaryIs(len: nat, mask: Mask, at: nat)
    ensures Boundary(len, mask, at) <==> exists b :: b in mask && at == RoundUp(len, Pow2(b))
  {
  }

  /** a mask that is not empty leaves a marker */
  lemma RunMarksSome(s: State, markLen: nat)
    requires s.mask != {} && forall b <- s.mask :: 10 <= b
    ensures Run(s, markLen).marks != []
  {
    StepShrinks(s, markLen);
    SubsetSize(Step(s, markLen).mask, s.mask);
    assert |Step(s, markLen).marks| > 0;
  }

  /** pad_image, for the masks with which it ends: the image, then the padding with its markers */
  method PadImage(image: seq<Byte>, extra: nat, pad: seq<Byte>, mask: Mask) returns (file: seq<Byte>)
    requires forall b <- mask :: 10 <= b
    ensures file == image + Tail(|image| + extra, Run(Start(|image| + extra, mask), |pad|).marks, pad)
  {
    hide Tail, Run, Step, Align, Pow2, FirstBit, Cleared;
    file := image;
    var padMask := mask;
    var inLen: nat := |image| + extra;
    var outLen: nat := inLen;
    ghost var s := Start(inLen, mask);
    NoTail(|image| + extra, pad);
    while padMask != {}
      invariant s == State(inLen, outLen, padMask, s.marks) && forall b <- padMask :: 10 <= b
      invariant Run(s, |pad|).marks == Run(Start(|image| + extra, mask), |pad|).marks
      invariant file == image + Tail(|image| + extra, s.marks, pad) && outLen == |file| + extra
      decreases |padMask|
    {
      var i := FindBit(padMask);
      inLen := Align(inLen, Pow2(i));
      padMask := ClearBits(padMask, inLen);
      RunNext(s, |pad|);
      ghost var at := if outLen < inLen then inLen else outLen;
      NextTail(|image| + extra, s.marks, pad, at);
      file, outLen := WriteFill(file, outLen, inLen);
      file := file + pad;
      outLen := outLen + |pad|;
      s := Step(s, |pad|);
    }
    RunEnd(s, |pad|);
  }

  /** the loop that writes 0xff up to the aligned length, a buffer at a time */
  method WriteFill(before: seq<Byte>, start: nat, end: nat) returns (file: seq<Byte>, outLen: nat)
    ensures outLen == (if start < end then end else start) && file == before + Fill(outLen - start)
  {
    file, outLen := before, start;
    assert before + Fill(0) == before;
    while outLen < end
      invariant start <= outLen && (outLen <= end || outLen == start) && file == before + Fill(outLen - start)
    {
      var len := if end - outLen > BUF_SIZE then BUF_SIZE else end - outLen;
      FillMore(before, outLen - start, len);
      file := file + Fill(len);
      outLen := outLen + len;
    }
  }

  /** the first inner loop */
  method FindBit(mask: Mask) returns (i: nat)
    ensures i == FirstBit(mask, 10)
  {
    i := 10;
    while i < 31 && i !in mask
      invariant 10 <= i <= 31 && FirstBit(mask, 10) == FirstBit(mask, i)
    {
      i := i + 1;
    }
  }

  /** the second inner loop */
  method ClearBits(mask: Mask, inLen: nat) returns (left: Mask)
    ensures left == Cleared(mask, inLen)
  {
    left := mask;
    for i := 10 to 32
      invariant forall b :: b in left <==> b in mask && (b < 10 || b >= i || inLen % Pow2(b) != 0)
    {
      if inLen % Pow2(i) == 0 {
        left := left - {i};
      }
    }
  }

  lemma NoTail(len: nat, pad: seq<Byte>)
    ensures Tail(len, [], pad) == []
  {
  }

  lemma NextTail(len: nat, marks: seq<nat>, pad: seq<Byte>, at: nat)
    requires len + |Tail(len, marks, pad)| <= at
    ensures Tail(len, marks + [at], pad) == Tail(len, marks, pad) + Fill(at - (len + |Tail(len, marks, pad)|)) + pad
  {
    assert (marks + [at])[..|marks|] == marks;
  }

  lemma FillMore(before: seq<Byte>, n: nat, len: nat)
    ensures before + Fill(n) + Fill(len) == before + Fill(n + len)
  {
  }

  lemma RunNext(s: State, markLen: nat)
    requires s.mask != {} && forall b <- s.mask :: 10 <= b
    ensures
      var i := FirstBit(s.mask, 10);
      var inLen := Align(s.inLen, Pow2(i));
      var at := if s.outLen < inLen then inLen else s.outLen;
      && Step(s, markLen) == State(inLen, at + markLen, Cleared(s.mask, inLen), s.marks + [at])
      && (forall b <- Step(s, markLen).mask :: 10 <= b) && |Step(s, markLen).mask| < |s.mask|
      && Run(s, markLen) == Run(Step(s, markLen), markLen)
  {
    StepShrinks(s, markLen);
    SubsetSize(Step(s, markLen).mask, s.mask);
  }

  lemma RunEnd(s: State, markLen: nat)
    requires s.mask == {}
    ensures Run(s, markLen) == s
  {
  }
}
