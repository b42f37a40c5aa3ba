/** `VL_STREAML_III` and its fast form for slices of 1, 2, 4, 8 or 16 bits, which swaps
    halves of the word instead of copying slices. They agree on every clean input. */
module StreamFast {
  import opened Bits
  import opened Words
  import opened BitMoves
  import opened Streaming

  // ---------------------------------------------------------------- the slow form

  /** Bit p of the result, once the slices below `done` have been copied. */
  ghost predicate StreamBit(ld: Word, p: nat, lbits: nat, rd: nat, done: nat)
    requires rd > 0
  {
    p < lbits && Src(p, lbits, rd) < done && (DestSrc(p, lbits, rd); Bit(ld, Src(p, lbits, rd)))
  }

  /** `((ld >> istart) & mask) << ostart`. */
  function SliceBits(ld: Word, istart: nat, mask: Word, ostart: nat): Word {
    Shl32(And32(Shr32(ld, istart), mask), ostart)
  }

  lemma SliceBit(ld: Word, istart: nat, rd: nat, ostart: nat, p: nat)
    requires p < 32 && 0 < rd <= 32
    ensures Bit(SliceBits(ld, istart, MaskI(rd), ostart), p) <==>
            ostart <= p < ostart + rd && istart + p - ostart < 32 && Bit(ld, istart + p - ostart)
  {
    BitShl32(And32(Shr32(ld, istart), MaskI(rd)), ostart, p);
    if p >= ostart { LowSliceBit(ld, istart, rd, p - ostart); }
  }

  lemma LowSliceBit(ld: Word, istart: nat, rd: nat, i: nat)
    requires i < 32 && 0 < rd <= 32
    ensures Bit(And32(Shr32(ld, istart), MaskI(rd)), i) <==> i < rd && istart + i < 32 && Bit(ld, istart + i)
  {
    BitShr32(ld, istart, i);
    SliceMask(rd, i);
    BothBits(Shr32(ld, istart), MaskI(rd), i, istart + i < 32 && Bit(ld, istart + i), i < rd);
  }

  lemma SliceMask(rd: nat, i: nat)
    requires i < 32 && 0 < rd <= 32
    ensures Bit(MaskI(rd), i) <==> i < rd
  {
    BitMask(rd, i);
  }

  lemma BothBits(x: Word, m: Word, i: nat, inX: bool, inM: bool)
    requires i < 32 && Bit(x, i) == inX && Bit(m, i) == inM
    ensures Bit(And32(x, m), i) <==> inX && inM
  {
    BitAnd(x, m, i);
  }

  lemma SliceStep(ld: Word, ret: Word, p: nat, lbits: nat, rd: nat, istart: nat, m: nat)
    requires p < 32 && 0 < rd <= 32 && lbits <= 32 && istart == Times(rd, m) && istart < lbits && ld < Pow2(lbits)
    requires Bit(ret, p) == StreamBit(ld, p, lbits, rd, istart)
    ensures Bit(Or32(ret, SliceBits(ld, istart, MaskI(rd), SliceTo(istart, lbits, rd))), p) ==
            StreamBit(ld, p, lbits, rd, istart + rd)
  {
    var ostart := SliceTo(istart, lbits, rd);
    BitOr(ret, SliceBits(ld, istart, MaskI(rd), ostart), p);
    SliceBit(ld, istart, rd, ostart, p);
    SliceHits(ld, p, lbits, rd, istart, m, ostart);
    if p < lbits { DestSrc(p, lbits, rd); }
  }

  /** What the slice puts at bit p is the bit that comes from it. */
  lemma SliceHits(ld: Word, p: nat, lbits: nat, rd: nat, istart: nat, m: nat, ostart: nat)
    requires p < 32 && 0 < rd <= 32 && lbits <= 32 && istart == Times(rd, m) && istart < lbits && ld < Pow2(lbits)
    requires ostart == SliceTo(istart, lbits, rd)
    ensures (ostart <= p < ostart + rd && istart + p - ostart < 32 && Bit(ld, istart + p - ostart)) <==>
            p < lbits && istart <= Src(p, lbits, rd) < istart + rd && Bit(ld, Src(p, lbits, rd))
  {
    if ostart <= p < ostart + rd {
      var k: nat := istart + p - ostart;
      if k < lbits {
        SlicePosition(k, istart, m, lbits, rd);
        SrcDest(k, lbits, rd);
      } else {
        SmallBit(ld, lbits, k);
        if p < lbits { SliceOnto(p, lbits, rd, istart, m); }
      }
    } else if p < lbits {
      SliceOnto(p, lbits, rd, istart, m);
    }
  }

  /** A bit that comes from the slice lands in it. */
  lemma SliceOnto(p: nat, lbits: nat, rd: nat, istart: nat, m: nat)
    requires 0 < rd && p < lbits && istart == Times(rd, m)
    ensures istart <= Src(p, lbits, rd) < istart + rd ==>
            p == SliceTo(istart, lbits, rd) + (Src(p, lbits, rd) - istart)
  {
    DestSrc(p, lbits, rd);
    if istart <= Src(p, lbits, rd) < istart + rd {
      SlicePosition(Src(p, lbits, rd), istart, m, lbits, rd);
    }
  }

  method StreamlIII(lbits: nat, ld: Word, rd: nat) returns (ret: Word)
    requires 0 < rd <= 32 && lbits <= 32 && ld < Pow2(lbits)
    ensures forall p :: 0 <= p < 32 ==> Bit(ret, p) == StreamBit(ld, p, lbits, rd, lbits)
  {
    ret := 0;
    var mask := MaskI(rd);
    var istart := 0;
    ghost var m := 0;
    forall p | 0 <= p < 32 ensures Bit(ret, p) == StreamBit(ld, p, lbits, rd, 0) {
      ZeroBit(p);
      if p < lbits { DestSrc(p, lbits, rd); }
    }
    while istart < lbits
      invariant 0 <= istart == Times(rd, m)
      invariant forall p :: 0 <= p < 32 ==> Bit(ret, p) == StreamBit(ld, p, lbits, rd, istart)
      decreases lbits - istart
    {
      var ostart := lbits - rd - istart;
      ostart := if ostart > 0 then ostart else 0;
      forall p | 0 <= p < 32
        ensures Bit(Or32(ret, SliceBits(ld, istart, mask, ostart)), p) == StreamBit(ld, p, lbits, rd, istart + rd)
      {
        SliceStep(ld, ret, p, lbits, rd, istart, m);
      }
      ret := Or32(ret, SliceBits(ld, istart, mask, ostart));
      istart := istart + rd;
      m := m + 1;
    }
    forall p | 0 <= p < 32 ensures StreamBit(ld, p, lbits, rd, istart) == StreamBit(ld, p, lbits, rd, lbits) {
      if p < lbits { DestSrc(p, lbits, rd); }
    }
  }

  // ---------------------------------------------------------------- the fast form

  /** `((ret >> h) & m) | ((ret & m) << h)`. */
  function Swap(ret: Word, h: nat, m: Word): Word {
    Or32(And32(Shr32(ret, h), m), Shl32(And32(ret, m), h))
  }

  lemma SwapBit(ret: Word, h: nat, m: Word, i: nat)
    requires i < 32
    ensures Bit(Swap(ret, h, m), i) ==
            ((Bit(m, i) && i + h < 32 && Bit(ret, i + h)) || (i >= h && Bit(m, i - h) && Bit(ret, i - h)))
  {
    BitOr(And32(Shr32(ret, h), m), Shl32(And32(ret, m), h), i);
    BitAnd(Shr32(ret, h), m, i);
    BitShr32(ret, h, i);
    BitShl32(And32(ret, m), h, i);
    if i >= h { BitAnd(ret, m, i - h); }
  }

  /** A pattern repeated twice. */
  lemma Twice(y: nat, x: nat, n: nat, p: nat, i: nat)
    requires p == Pow2(n) && x < p && y == x + x * p && i < 2 * n
    ensures Bit(y, i) == Bit(x, if i < n then i else i - n)
  {
    ShlIsMul(x, n);
    BitGlue(x, x, n, i);
  }

  lemma Powers()
    ensures Pow2(4) == 16 && Pow2(8) == 256 && Pow2(16) == 0x1_0000
  {
    assert Pow2(8) == 256;
    assert Pow2(12) == 4096;
  }

  /** The masks of the C code: ones in every other run of 1, 2, 4 and 8 bits. */
  lemma Mask5(i: nat)
    requires i < 32
    ensures Bit(0x5555_5555, i) == (i % 2 == 0)
  {
    Powers();
    Twice(0x5555_5555, 0x5555, 16, 0x1_0000, i);
    var j := if i < 16 then i else i - 16;
    Twice(0x5555, 0x55, 8, 256, j);
    var k := if j < 8 then j else j - 8;
    Twice(0x55, 0x5, 4, 16, k);
    Nibble5(if k < 4 then k else k - 4);
  }

  lemma Nibble5(i: nat)
    requires i < 4
    ensures Bit(5, i) == (i % 2 == 0)
  {
    assert Bit(5, 0) && !Bit(5, 1) && Bit(5, 2) && !Bit(5, 3);
  }

  lemma Mask3(i: nat)
    requires i < 32
    ensures Bit(0x3333_3333, i) == ((i / 2) % 2 == 0)
  {
    Powers();
    Twice(0x3333_3333, 0x3333, 16, 0x1_0000, i);
    var j := if i < 16 then i else i - 16;
    Twice(0x3333, 0x33, 8, 256, j);
    var k := if j < 8 then j else j - 8;
    Twice(0x33, 0x3, 4, 16, k);
    Nibble3(if k < 4 then k else k - 4);
  }

  lemma Nibble3(i: nat)
    requires i < 4
    ensures Bit(3, i) == (i < 2)
  {
    assert Bit(3, 0) && Bit(3, 1) && !Bit(3, 2) && !Bit(3, 3);
  }

  lemma MaskF(i: nat)
    requires i < 32
    ensures Bit(0x0f0f_0f0f, i) == ((i / 4) % 2 == 0)
  {
    Powers();
    Twice(0x0f0f_0f0f, 0x0f0f, 16, 0x1_0000, i);
    var j := if i < 16 then i else i - 16;
    Twice(0x0f0f, 0x0f, 8, 256, j);
    MaskBit(4, if j < 8 then j else j - 8);
  }

  lemma MaskFF(i: nat)
    requires i < 32
    ensures Bit(0x00ff_00ff, i) == ((i / 8) % 2 == 0)
  {
    Powers();
    Twice(0x00ff_00ff, 0x00ff, 16, 0x1_0000, i);
    MaskBit(8, if i < 16 then i else i - 16);
  }

  /** The neighbour of bit i in a swap of runs of h bits. */
  function Across(i: int, h: nat): int
    requires h > 0
  {
    if (i / h) % 2 == 0 then i + h else i - h
  }

  lemma Stage0(ret: Word, i: nat)
    requires i < 32
    ensures 0 <= Across(i, 1) < 32 && Bit(Swap(ret, 1, 0x5555_5555), i) == Bit(ret, Across(i, 1))
  {
    SwapBit(ret, 1, 0x5555_5555, i);
    Mask5(i);
    if i >= 1 { Mask5(i - 1); }
  }

  lemma Stage1(ret: Word, i: nat)
    requires i < 32
    ensures 0 <= Across(i, 2) < 32 && Bit(Swap(ret, 2, 0x3333_3333), i) == Bit(ret, Across(i, 2))
  {
    SwapBit(ret, 2, 0x3333_3333, i);
    Mask3(i);
    if i >= 2 { Mask3(i - 2); }
  }

  lemma Stage2(ret: Word, i: nat)
    requires i < 32
    ensures 0 <= Across(i, 4) < 32 && Bit(Swap(ret, 4, 0x0f0f_0f0f), i) == Bit(ret, Across(i, 4))
  {
    SwapBit(ret, 4, 0x0f0f_0f0f, i);
    MaskF(i);
    if i >= 4 { MaskF(i - 4); }
  }

  lemma Stage3(ret: Word, i: nat)
    requires i < 32
    ensures 0 <= Across(i, 8) < 32 && Bit(Swap(ret, 8, 0x00ff_00ff), i) == Bit(ret, Across(i, 8))
  {
    SwapBit(ret, 8, 0x00ff_00ff, i);
    MaskFF(i);
    if i >= 8 { MaskFF(i - 8); }
  }

  lemma Stage4(ret: Word, i: nat)
    requires i < 32
    ensures 0 <= Across(i, 16) < 32 && Bit(Or32(Shr32(ret, 16), Shl32(ret, 16)), i) == Bit(ret, Across(i, 16))
  {
    BitOr(Shr32(ret, 16), Shl32(ret, 16), i);
    BitShr32(ret, 16, i);
    BitShl32(ret, 16, i);
  }

  /** Runs of rd bits in reverse order. */
  function Reversed(i: nat, rd: nat): int
    requires rd > 0
  {
    32 - rd - (i - i % rd) + i % rd
  }

  lemma Across16(i: nat)
    requires i < 32
    ensures Across(i, 16) == Reversed(i, 16)
  {
  }

  lemma Across8(i: nat)
    requires i < 32
    ensures Across(Reversed(i, 16), 8) == Reversed(i, 8)
  {
    if i < 16 { assert Reversed(i, 16) == i + 16; } else { assert Reversed(i, 16) == i - 16; }
    assert i % 8 == if i < 8 then i else if i < 16 then i - 8 else if i < 24 then i - 16 else i - 24;
  }

  lemma Across4(i: nat)
    requires i < 32
    ensures Across(Reversed(i, 8), 4) == Reversed(i, 4)
  {
  }

  lemma Across2(i: nat)
    requires i < 32
    ensures Across(Reversed(i, 4), 2) == Reversed(i, 2)
  {
  }

  lemma Across1(i: nat)
    requires i < 32
    ensures Across(Reversed(i, 2), 1) == Reversed(i, 1)
  {
  }

  lemma ReversedRange(i: nat)
    requires i < 32
    ensures 0 <= Reversed(i, 16) < 32 && 0 <= Reversed(i, 8) < 32 && 0 <= Reversed(i, 4) < 32
    ensures 0 <= Reversed(i, 2) < 32 && 0 <= Reversed(i, 1) < 32
  {
  }

  /** The stages that the fall-through switch runs from `case k` on. */
  function SwapFrom4(ret: Word): Word { Or32(Shr32(ret, 16), Shl32(ret, 16)) }
  function SwapFrom3(ret: Word): Word { SwapFrom4(Swap(ret, 8, 0x00ff_00ff)) }
  function SwapFrom2(ret: Word): Word { SwapFrom3(Swap(ret, 4, 0x0f0f_0f0f)) }
  function SwapFrom1(ret: Word): Word { SwapFrom2(Swap(ret, 2, 0x3333_3333)) }
  function SwapFrom0(ret: Word): Word { SwapFrom1(Swap(ret, 1, 0x5555_5555)) }

  lemma From4Bit(ret: Word, i: nat)
    requires i < 32
    ensures 0 <= Reversed(i, 16) < 32 && Bit(SwapFrom4(ret), i) == Bit(ret, Reversed(i, 16))
  {
    Across16(i); ReversedRange(i);
    Stage4(ret, i);
  }

  lemma From3Bit(ret: Word, i: nat)
    requires i < 32
    ensures 0 <= Reversed(i, 8) < 32 && Bit(SwapFrom3(ret), i) == Bit(ret, Reversed(i, 8))
  {
    Across8(i); ReversedRange(i);
    From4Bit(Swap(ret, 8, 0x00ff_00ff), i);
    Stage3(ret, Reversed(i, 16));
  }

  lemma From2Bit(ret: Word, i: nat)
    requires i < 32
    ensures 0 <= Reversed(i, 4) < 32 && Bit(SwapFrom2(ret), i) == Bit(ret, Reversed(i, 4))
  {
    Across4(i); ReversedRange(i);
    From3Bit(Swap(ret, 4, 0x0f0f_0f0f), i);
    Stage2(ret, Reversed(i, 8));
  }

  lemma From1Bit(ret: Word, i: nat)
    requires i < 32
    ensures 0 <= Reversed(i, 2) < 32 && Bit(SwapFrom1(ret), i) == Bit(ret, Reversed(i, 2))
  {
    Across2(i); ReversedRange(i);
    From2Bit(Swap(ret, 2, 0x3333_3333), i);
    Stage1(ret, Reversed(i, 4));
  }

  lemma From0Bit(ret: Word, i: nat)
    requires i < 32
    ensures 0 <= Reversed(i, 1) < 32 && Bit(SwapFrom0(ret), i) == Bit(ret, Reversed(i, 1))
  {
    Across1(i); ReversedRange(i);
    From1Bit(Swap(ret, 1, 0x5555_5555), i);
    Stage0(ret, Reversed(i, 2));
  }

  /** The switch on rd_log2. */
  function Swapped(ret: Word, k: nat): Word {
    match k
    case 0 => SwapFrom0(ret)
    case 1 => SwapFrom1(ret)
    case 2 => SwapFrom2(ret)
    case 3 => SwapFrom3(ret)
    case 4 => SwapFrom4(ret)
    case _ => ret
  }

  /** Runs of 2^k bits in reverse order. */
  function Reverse(i: nat, k: nat): int {
    32 - Pow2(k) - (i - Low(i, k)) + Low(i, k)
  }

  lemma ReverseIs(i: nat)
    ensures Reverse(i, 0) == Reversed(i, 1) && Reverse(i, 1) == Reversed(i, 2) && Reverse(i, 2) == Reversed(i, 4)
    ensures Reverse(i, 3) == Reversed(i, 8) && Reverse(i, 4) == Reversed(i, 16)
  {
    LowValues(i);
  }

  lemma LowValues(i: nat)
    ensures Low(i, 0) == 0 == i % 1 && Low(i, 1) == i % 2 && Low(i, 2) == i % 4 && Low(i, 3) == i % 8
    ensures Low(i, 4) == i % 16
    ensures Pow2(0) == 1 && Pow2(1) == 2 && Pow2(2) == 4 && Pow2(3) == 8 && Pow2(4) == 16
  {
    Pow2Values();
    ShrIsDiv(i, 1); ShrIsDiv(i, 2); ShrIsDiv(i, 3); ShrIsDiv(i, 4);
  }

  lemma SwappedBit(ret: Word, k: nat, i: nat)
    requires k <= 4 && i < 32
    ensures 0 <= Reverse(i, k) < 32 && Bit(Swapped(ret, k), i) == Bit(ret, Reverse(i, k))
  {
    ReverseIs(i);
    match k
    case 0 => From0Bit(ret, i);
    case 1 => From1Bit(ret, i);
    case 2 => From2Bit(ret, i);
    case 3 => From3Bit(ret, i);
    case _ => From4Bit(ret, i);
  }

  // ---------------------------------------------------------------- the partial slice

  /** The bits of the partial slice at the top are moved up to make it whole. */
  function PreShift(ld: Word, lbits: nat, k: nat): Word
    requires lbits < 32 && 0 < k <= 4
  {
    AndBound(lbits, Not32(MaskI(k)));
    PreShiftFrom(ld, lbits, k, And32(lbits, Not32(MaskI(k))))
  }

  function PreShiftFrom(ld: Word, lbits: nat, k: nat, lbitsFloor: nat): Word
    requires lbitsFloor <= lbits
  {
    var lbitsRem := lbits - lbitsFloor;
    var msbMask := Shl32(MaskI(lbitsRem), lbitsFloor);
    Lifted(ld, msbMask, U32(Pow2(k) - lbitsRem))
  }

  function Lifted(ld: Word, mask: Word, up: nat): Word {
    Or32(And32(ld, Not32(mask)), Shl32(And32(ld, mask), up))
  }

  lemma FloorIs(x: Word, k: nat)
    requires 0 < k < 32
    ensures And32(x, Not32(MaskI(k))) == x - Low(x, k)
  {
    var f := And32(x, Not32(MaskI(k)));
    var y := Shl(Shr(x, k), k);
    Split(x, k);
    Pow2Values();
    forall b | 0 <= b < 32 ensures Bit(f, b) == Bit(y, b) {
      FloorBit(x, k, b);
    }
    BitsDetermine(f, y, 32);
  }

  lemma FloorBit(x: Word, k: nat, b: nat)
    requires 0 < k < 32 && b < 32
    ensures Bit(And32(x, Not32(MaskI(k))), b) == Bit(Shl(Shr(x, k), k), b)
  {
    var m := Not32(MaskI(k));
    BitMask(k, b);
    BitNot(MaskI(k), b);
    assert Bit(m, b) == (b >= k);
    BitAnd(x, m, b);
    BitShl(Shr(x, k), k, b);
    if b >= k { BitShr(x, k, b - k); }
  }

  /** What is left of bit j after the shift: above the whole slices the bits have moved up. */
  ghost predicate ShiftedBit(ld: Word, j: nat, floor: nat, up: nat) {
    if j < floor then Bit(ld, j) else j >= floor + up && Bit(ld, j - up)
  }

  lemma PreShiftBit(ld: Word, lbits: nat, k: nat, rem: nat, up: nat, j: nat)
    requires lbits < 32 && 0 < k <= 4 && ld < Pow2(lbits) && j < 32 && rem == Low(lbits, k) && up == Pow2(k) - rem
    requires rem <= lbits
    ensures Bit(PreShift(ld, lbits, k), j) == ShiftedBit(ld, j, lbits - rem, up)
  {
    var floor: nat := lbits - rem;
    var mask := Shl32(MaskI(rem), floor);
    PreShiftIs(ld, lbits, k, rem, up, mask);
    PreShiftParts(ld, mask, up, j);
    TopMask(ld, lbits, rem, floor, j);
    if j >= up { TopMask(ld, lbits, rem, floor, j - up); }
  }

  lemma PreShiftIs(ld: Word, lbits: nat, k: nat, rem: nat, up: nat, mask: Word)
    requires lbits < 32 && 0 < k <= 4 && rem == Low(lbits, k) && up == Pow2(k) - rem
    requires rem <= lbits && mask == Shl32(MaskI(rem), lbits - rem)
    ensures PreShift(ld, lbits, k) == Lifted(ld, mask, up)
  {
    FloorIs(lbits, k);
    SmallSlice(k);
    U32Id(up);
    PreShiftAt(ld, lbits, k, lbits - rem);
    LiftedFrom(ld, lbits, k, lbits - rem, rem, mask, up);
  }

  lemma PreShiftAt(ld: Word, lbits: nat, k: nat, floor: nat)
    requires lbits < 32 && 0 < k <= 4 && floor <= lbits && And32(lbits, Not32(MaskI(k))) == floor
    ensures PreShift(ld, lbits, k) == PreShiftFrom(ld, lbits, k, floor)
  {
  }

  lemma LiftedFrom(ld: Word, lbits: nat, k: nat, floor: nat, rem: nat, mask: Word, up: nat)
    requires floor + rem == lbits && mask == Shl32(MaskI(rem), floor) && up == U32(Pow2(k) - rem)
    ensures PreShiftFrom(ld, lbits, k, floor) == Lifted(ld, mask, up)
  {
  }

  lemma SmallSlice(k: nat)
    requires k <= 4
    ensures Pow2(k) <= 16
  {
    Pow2Mono(k, 4);
    Pow2Values();
  }

  lemma PreShiftParts(ld: Word, mask: Word, up: nat, j: nat)
    requires j < 32
    ensures Bit(Lifted(ld, mask, up), j) ==
            ((Bit(ld, j) && !Bit(mask, j)) || (j >= up && Bit(ld, j - up) && Bit(mask, j - up)))
  {
    BitOr(And32(ld, Not32(mask)), Shl32(And32(ld, mask), up), j);
    BitAnd(ld, Not32(mask), j);
    BitNot(mask, j);
    BitShl32(And32(ld, mask), up, j);
    if j >= up { BitAnd(ld, mask, j - up); }
  }

  /** The mask picks the bits of the partial slice; with no partial slice it picks none. */
  lemma TopMask(ld: Word, lbits: nat, rem: nat, floor: nat, j: nat)
    requires floor + rem == lbits < 32 && rem < 32 && ld < Pow2(lbits) && j < 32
    ensures (Bit(ld, j) && Bit(Shl32(MaskI(rem), floor), j)) == (j >= floor && Bit(ld, j))
  {
    BitShl32(MaskI(rem), floor, j);
    if j >= floor { BitMask(rem, j - floor); }
    if j >= lbits { SmallBit(ld, lbits, j); }
  }

  // ---------------------------------------------------------------- agreement

  /** Flipping all the bits of q flips those of its low part. */
  lemma {:induction false} LowFlip(q: nat, n: nat, k: nat)
    requires k <= n && q < Pow2(n)
    ensures Low(Pow2(n) - 1 - q, k) == Pow2(k) - 1 - Low(q, k)
  {
    if k > 0 {
      var x: nat := Pow2(n) - 1 - q;
      assert x % 2 == 1 - q % 2 && x / 2 == Pow2(n - 1) - 1 - q / 2;
      LowFlip(q / 2, n - 1, k - 1);
    }
  }

  lemma ReverseAt(q: nat, k: nat)
    requires q < 32 && k <= 4
    ensures Reverse(31 - q, k) == q - Low(q, k) + Pow2(k) - 1 - Low(q, k)
  {
    Pow2Values();
    LowFlip(q, 5, k);
  }

  /** The slice of a bit below n is one of the whole slices, or the partial one above them. */
  lemma SliceIsWhole(q: nat, n: nat, k: nat)
    requires q < n
    ensures q - Low(q, k) + Pow2(k) <= n - Low(n, k) || q - Low(q, k) == n - Low(n, k)
  {
    Split(q, k); Split(n, k);
    var a, b := Shr(q, k), Shr(n, k);
    if a < b { ShlMono(a, b, k); } else if b < a { ShlMono(b, a, k); }
  }

  /** Where bit p of the result comes from, by the position j that the swaps bring to it. */
  lemma FastSrcIs(p: nat, lbits: nat, k: nat, rd: nat, rem: nat, j: int)
    requires k <= 4 && p < lbits < 32 && rd == Pow2(k) && rem == Low(lbits, k) <= lbits
    requires j == Reverse(p + 32 - lbits, k)
    ensures if j < lbits - rem then Src(p, lbits, rd) == j
            else j >= lbits - rem + rd - rem && Src(p, lbits, rd) == j - (rd - rem)
  {
    var q: nat := lbits - 1 - p;
    ReverseAt(q, k);
    SliceIsWhole(q, lbits, k);
    RemIsLow(q, k);
  }

  lemma RemIsLow(q: nat, k: nat)
    ensures Rem(q, Pow2(k)) == Low(q, k) < Pow2(k)
  {
    ShrIsDiv(q, k);
  }

  /** `VL_STREAML_FAST_III`. */
  method StreamlFastIII(lbits: nat, ld: Word, rdLog2: nat) returns (ret: Word)
    requires lbits < 32 && rdLog2 <= 4 && Pow2(rdLog2) <= lbits && ld < Pow2(lbits)
    ensures forall p :: 0 <= p < 32 ==> Bit(ret, p) == StreamBit(ld, p, lbits, Pow2(rdLog2), lbits)
  {
    ret := ld;
    if rdLog2 != 0 {
      ret := PreShift(ret, lbits, rdLog2);
    }
    ghost var adjusted := ret;
    ret := Swapped(ret, rdLog2);
    ret := Shr32(ret, 32 - lbits);
    forall p | 0 <= p < 32 ensures Bit(ret, p) == StreamBit(ld, p, lbits, Pow2(rdLog2), lbits) {
      FastBit(lbits, ld, rdLog2, Pow2(rdLog2), adjusted, p);
    }
  }

  lemma FastBit(lbits: nat, ld: Word, k: nat, rd: nat, adjusted: Word, p: nat)
    requires lbits < 32 && k <= 4 && rd == Pow2(k) <= lbits && ld < Pow2(lbits) && p < 32
    requires adjusted == if k == 0 then ld else PreShift(ld, lbits, k)
    ensures Bit(Shr32(Swapped(adjusted, k), 32 - lbits), p) == StreamBit(ld, p, lbits, rd, lbits)
  {
    ShiftedDown(Swapped(adjusted, k), lbits, p);
    if p < lbits {
      FastBitBelow(lbits, ld, k, rd, adjusted, p, Reverse(p + 32 - lbits, k));
      AllStreamed(ld, p, lbits, rd);
    }
  }

  lemma ShiftedDown(x: Word, lbits: nat, p: nat)
    requires lbits < 32 && p < 32
    ensures Bit(Shr32(x, 32 - lbits), p) <==> p < lbits && Bit(x, p + 32 - lbits)
  {
    BitShr32(x, 32 - lbits, p);
  }

  lemma AllStreamed(ld: Word, p: nat, lbits: nat, rd: nat)
    requires 0 < rd && p < lbits
    ensures Src(p, lbits, rd) >= 0 && StreamBit(ld, p, lbits, rd, lbits) == Bit(ld, Src(p, lbits, rd))
  {
    DestSrc(p, lbits, rd);
  }

  lemma FastBitBelow(lbits: nat, ld: Word, k: nat, rd: nat, adjusted: Word, p: nat, j: int)
    requires lbits < 32 && k <= 4 && rd == Pow2(k) <= lbits && ld < Pow2(lbits) && p < lbits
    requires j == Reverse(p + 32 - lbits, k)
    requires adjusted == if k == 0 then ld else PreShift(ld, lbits, k)
    ensures Src(p, lbits, rd) >= 0
    ensures Bit(Swapped(adjusted, k), p + 32 - lbits) == Bit(ld, Src(p, lbits, rd))
  {
    SwappedBit(adjusted, k, p + 32 - lbits);
    AdjustedBit(lbits, ld, k, rd, adjusted, p, j);
  }

  lemma AdjustedBit(lbits: nat, ld: Word, k: nat, rd: nat, adjusted: Word, p: nat, j: nat)
    requires lbits < 32 && k <= 4 && rd == Pow2(k) <= lbits && ld < Pow2(lbits) && p < lbits
    requires j == Reverse(p + 32 - lbits, k) < 32
    requires adjusted == if k == 0 then ld else PreShift(ld, lbits, k)
    ensures Src(p, lbits, rd) >= 0 && Bit(adjusted, j) == Bit(ld, Src(p, lbits, rd))
  {
    var rem: nat := Low(lbits, k);
    LowBelow(lbits, k, rd);
    FastSrcIs(p, lbits, k, rd, rem, j);
    if k > 0 {
      MovedBit(lbits, ld, k, rem, rd - rem, j, Src(p, lbits, rd));
    }
  }

  lemma MovedBit(lbits: nat, ld: Word, k: nat, rem: nat, up: nat, j: nat, src: nat)
    requires lbits < 32 && 0 < k <= 4 && ld < Pow2(lbits) && j < 32 && rem == Low(lbits, k) && up == Pow2(k) - rem
    requires rem <= lbits && if j < lbits - rem then src == j else j >= lbits - rem + up && src == j - up
    ensures Bit(PreShift(ld, lbits, k), j) == Bit(ld, src)
  {
    PreShiftBit(ld, lbits, k, rem, up, j);
  }

  lemma LowBelow(x: nat, k: nat, rd: nat)
    requires rd == Pow2(k)
    ensures Low(x, k) <= x && Low(x, k) < rd && (k == 0 ==> Low(x, k) == 0)
  {
    Split(x, k);
    RemIsLow(x, k);
  }

  /** The two forms agree. */
  lemma FastIsSlow(lbits: nat, ld: Word, rd: nat, fast: Word, slow: Word)
    requires rd > 0
    requires forall p :: 0 <= p < 32 ==> Bit(slow, p) == StreamBit(ld, p, lbits, rd, lbits)
    requires forall p :: 0 <= p < 32 ==> Bit(fast, p) == StreamBit(ld, p, lbits, rd, lbits)
    ensures fast == slow
  {
    SameWord(fast, slow);
  }
}
