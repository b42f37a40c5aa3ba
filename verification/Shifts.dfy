/** Wide shifts, concatenation and part selection, as numbers. */
module Shifts {
  import opened Bits
  import opened Words
  import opened WideArith
  import opened BitMoves
  import opened Signed

  // ---------------------------------------------------------------- from bits to numbers

  /** Bit k of a wide value, 0 above its words. */
  predicate XBit(ws: seq<Word>, k: nat) {
    k / 32 < |ws| && WBit(ws, k)
  }

  lemma XBitIs(ws: seq<Word>, k: nat)
    ensures XBit(ws, k) == Bit(Val(ws), k)
  {
    ValBit(ws, k);
  }

  lemma ValBelow(ws: seq<Word>)
    ensures Val(ws) < Pow2(32 * |ws|)
  {
    ValBound(ws);
    WPow2(|ws|);
  }

  lemma ZeroAbove(v: nat, m: nat, n: nat)
    requires v < Pow2(m) && n <= m && forall k :: n <= k < m ==> !Bit(v, k)
    ensures v < Pow2(n)
  {
    forall k | 0 <= k < m ensures Bit(v, k) == Bit(Low(v, n), k) { BitLow(v, n, k); }
    Pow2Mono(n, m);
    BitsDetermine(v, Low(v, n), m);
  }

  /** The numbers agree below n bits when the words do. */
  lemma LowFromBits(ws: seq<Word>, v: nat, n: nat)
    requires forall k :: 0 <= k < n ==> XBit(ws, k) == Bit(v, k)
    ensures Low(Val(ws), n) == Low(v, n)
  {
    forall k | 0 <= k < n ensures Bit(Low(Val(ws), n), k) == Bit(Low(v, n), k) {
      assert XBit(ws, k) == Bit(v, k);
      BitLow(Val(ws), n, k); BitLow(v, n, k); XBitIs(ws, k);
    }
    BitsDetermine(Low(Val(ws), n), Low(v, n), n);
  }

  lemma ValFromBits(ws: seq<Word>, v: nat)
    requires v < Pow2(32 * |ws|) && forall k :: 0 <= k < 32 * |ws| ==> WBit(ws, k) == Bit(v, k)
    ensures Val(ws) == v
  {
    ValBelow(ws);
    forall k | 0 <= k < 32 * |ws| ensures Bit(Val(ws), k) == Bit(v, k) {
      assert WBit(ws, k) == Bit(v, k);
      ValBit(ws, k);
    }
    BitsDetermine(Val(ws), v, 32 * |ws|);
  }

  // ---------------------------------------------------------------- shift left

  /** The bits of o are those of l, rd places up; nothing is said at or above `end`. */
  ghost predicate Raised(o: seq<Word>, l: seq<Word>, rd: nat, end: nat) {
    forall k :: 0 <= k < end ==> XBit(o, k) == (k >= rd && XBit(l, k - rd))
  }

  lemma RaisedIsShl(o: seq<Word>, l: seq<Word>, rd: nat, end: nat)
    requires Raised(o, l, rd, end)
    ensures Low(Val(o), end) == Low(Shl(Val(l), rd), end)
  {
    forall k | 0 <= k < end ensures XBit(o, k) == Bit(Shl(Val(l), rd), k) {
      assert XBit(o, k) == (k >= rd && XBit(l, k - rd));
      BitShl(Val(l), rd, k);
      if k >= rd { XBitIs(l, k - rd); }
    }
    LowFromBits(o, Shl(Val(l), rd), end);
  }

  /** After InsertWW into zeros, the inserted run is all there is. */
  lemma RaisedInsert(o: seq<Word>, zeros: seq<Word>, l: seq<Word>, rd: nat, obits: nat, words: nat)
    requires |o| == |zeros| && words <= |l| && rd < obits <= 32 * words <= 32 * |o|
    requires forall i :: 0 <= i < words ==> zeros[i] == 0
    requires Inserted(o, zeros, l, rd, obits)
    ensures Raised(o[..words], l[..words], rd, obits)
    ensures forall k :: obits <= k < 32 * words ==> !XBit(o[..words], k)
  {
    forall k | 0 <= k < 32 * words
      ensures XBit(o[..words], k) == (rd <= k < obits && XBit(l[..words], k - rd))
    {
      assert WBit(o, k) == if rd <= k < obits then WBit(l, k - rd) else WBit(zeros, k);
      ZeroBit(k % 32);
    }
  }

  /** The word-aligned path keeps every bit that fits in the words, wanted or not. */
  lemma RaisedWords(o: seq<Word>, l: seq<Word>, rd: nat)
    requires |o| == |l| && rd % 32 == 0 && rd / 32 <= |o|
    requires forall i :: 0 <= i < |o| ==> o[i] == if i < rd / 32 then 0 else l[i - rd / 32]
    ensures Raised(o, l, rd, 32 * |o|)
  {
    forall k | 0 <= k < 32 * |o| ensures XBit(o, k) == (k >= rd && XBit(l, k - rd)) {
      ZeroBit(k % 32);
      if k >= rd { assert (k - rd) / 32 == k / 32 - rd / 32 && (k - rd) % 32 == k % 32; }
    }
  }

  /** `VL_SHIFTL_WWI`. Aligned is whether the shift takes the word-copying path, the only
      one that can leave bits set at or above obits. */
  method ShiftL(obits: nat, owp: array<Word>, lwp: array<Word>, rd: nat)
    requires 0 < obits && WordsI(obits) <= owp.Length && WordsI(obits) <= lwp.Length && owp != lwp
    modifies owp
    ensures Low(ArrVal(owp, WordsI(obits)), obits) == Low(Shl(ArrVal(lwp, WordsI(obits)), rd), obits)
    ensures rd % 32 != 0 || rd >= obits ==> ArrVal(owp, WordsI(obits)) < Pow2(obits)
    ensures rd % 32 == 0 && rd < obits ==>
      ArrVal(owp, WordsI(obits)) == Low(Shl(ArrVal(lwp, WordsI(obits)), rd), 32 * WordsI(obits))
  {
    var words := WordsI(obits);
    ghost var l := lwp[..words];
    var word_shift, bit_shift := rd / 32, rd % 32;
    if rd >= obits {
      ZeroFrom(owp, 0, words);
      ValZero(owp[..words]);
      ShiftedOut(Val(l), rd, obits);
    } else if bit_shift == 0 {
      ZeroFrom(owp, 0, word_shift);
      for i := word_shift to words
        invariant forall k :: 0 <= k < i ==> owp[k] == if k < word_shift then 0 else lwp[k - word_shift]
      {
        owp[i] := lwp[i - word_shift];
      }
      RaisedWords(owp[..words], l, rd);
      RaisedIsShl(owp[..words], l, rd, 32 * words);
      RaisedIsShl(owp[..words], l, rd, obits);
      ValBelow(owp[..words]);
      ShrSmall(ArrVal(owp, words), 32 * words);
    } else {
      ZeroFrom(owp, 0, words);
      ghost var zeros := owp[..];
      InsertWW(owp, lwp, obits - 1, rd);
      RaisedInsert(owp[..], zeros, lwp[..], rd, obits, words);
      assert owp[..][..words] == owp[..words] && lwp[..][..words] == l;
      RaisedIsShl(owp[..words], l, rd, obits);
      NoneAbove(owp[..words], obits);
    }
  }

  lemma ShiftedOut(v: nat, rd: nat, obits: nat)
    requires rd >= obits
    ensures Low(Shl(v, rd), obits) == 0 == Low(0, obits) && 0 < Pow2(obits)
  {
    ShlShl(v, rd - obits, obits);
    Glue(0, Shl(v, rd - obits), obits);
    ShrSmall(0, obits);
  }

  lemma NoneAbove(ws: seq<Word>, n: nat)
    requires n <= 32 * |ws| && forall k :: n <= k < 32 * |ws| ==> !XBit(ws, k)
    ensures Val(ws) < Pow2(n)
  {
    ValBelow(ws);
    forall k | n <= k < 32 * |ws| ensures !Bit(Val(ws), k) { XBitIs(ws, k); }
    ZeroAbove(Val(ws), 32 * |ws|, n);
  }

  /** The rule "output clean when the input is" (line 1568) fails on the aligned path: it
      holds exactly when no set bit of l lands in the slack of the top word. */
  lemma AlignedShiftClean(l: nat, rd: nat, obits: nat)
    requires rd <= obits
    ensures Low(Shl(l, rd), 32 * WordsI(obits)) < Pow2(obits) <==>
            Low(l, 32 * WordsI(obits) - rd) < Pow2(obits - rd)
  {
    var m := 32 * WordsI(obits) - rd;
    var y := Low(l, m);
    LowLow(0, l, rd, m);
    Pow2Add(obits - rd, rd);
    ShlOrder(y, Pow2(obits - rd), rd);
  }

  lemma ShlOrder(x: nat, y: nat, k: nat)
    ensures Shl(x, k) < Shl(y, k) <==> x < y
  {
    if x < y { ShlMono(x, y, k); } else { ShlMono(y, x, k); }
  }

  /** Whenever the top word has slack, some clean value is left dirty: the one whose only
      set bit lands just above the width. */
  lemma AlignedShiftDirty(rd: nat, obits: nat)
    requires rd % 32 == 0 && 0 < rd < obits && obits % 32 != 0
    ensures var l := Pow2(obits - rd);
      l < Pow2(obits) && !(Low(Shl(l, rd), 32 * WordsI(obits)) < Pow2(obits))
  {
    var n: nat, m: nat := obits - rd, 32 * WordsI(obits) - rd;
    SlackWord(obits);
    assert Pow2(n) < Pow2(n + 1) == 2 * Pow2(n);
    Pow2Mono(n + 1, obits);
    Pow2Mono(n + 1, m);
    var l := Pow2(n);
    ShrSmall(l, m);
    AlignedShiftClean(l, rd, obits);
  }

  lemma SlackWord(n: nat)
    requires n % 32 != 0
    ensures 32 * WordsI(n) > n
  {
  }

  // ---------------------------------------------------------------- shift right

  /** The word stored by the unaligned loops: two neighbouring words joined. */
  function DownPair(l: seq<Word>, i: nat, rd: nat): Word
    requires i + rd / 32 < |l| && rd % 32 != 0
  {
    var lo := Shr32(l[i + rd / 32], rd % 32);
    if i + rd / 32 + 1 < |l| then Or32(lo, Shl32(l[i + rd / 32 + 1], 32 - rd % 32)) else lo
  }

  lemma DownPairBit(l: seq<Word>, i: nat, rd: nat, b: nat)
    requires i + rd / 32 < |l| && rd % 32 != 0 && b < 32
    ensures Bit(DownPair(l, i, rd), b) == XBit(l, 32 * i + b + rd)
  {
    var w, s := i + rd / 32, rd % 32;
    BitShr32(l[w], s, b);
    if w + 1 < |l| {
      BitOr(Shr32(l[w], s), Shl32(l[w + 1], 32 - s), b);
      BitShl32(l[w + 1], 32 - s, b);
    }
    PairPosition(i, rd, b);
  }

  lemma PairPosition(i: nat, rd: nat, b: nat)
    requires b < 32
    ensures var k := 32 * i + b + rd;
      if b + rd % 32 < 32 then k / 32 == i + rd / 32 && k % 32 == b + rd % 32
      else k / 32 == i + rd / 32 + 1 && k % 32 == b + rd % 32 - 32
  {
  }

  /** Words that hold l shifted down, when l has no bit at or above obits. */
  lemma LoweredIsShr(o: seq<Word>, l: seq<Word>, rd: nat)
    requires forall k :: 0 <= k < 32 * |o| ==> WBit(o, k) == XBit(l, k + rd)
    requires |l| <= |o|
    ensures Val(o) == Shr(Val(l), rd)
  {
    var v := Shr(Val(l), rd);
    ValBelow(l);
    Pow2Mono(32 * |l|, 32 * |o|);
    ShrLe(Val(l), rd);
    forall k | 0 <= k < 32 * |o| ensures WBit(o, k) == Bit(v, k) {
      assert WBit(o, k) == XBit(l, k + rd);
      BitShr(Val(l), rd, k);
      XBitIs(l, k + rd);
    }
    ValFromBits(o, v);
  }

  lemma NoBitAbove(obits: nat, l: seq<Word>, k: nat)
    requires Val(l) < Pow2(obits) && k >= obits
    ensures !XBit(l, k)
  {
    XBitIs(l, k);
    SmallBit(Val(l), obits, k);
  }

  lemma ShiftRAligned(o: seq<Word>, l: seq<Word>, rd: nat)
    requires |o| == |l| && rd % 32 == 0 && rd / 32 <= |l|
    requires forall i :: 0 <= i < |o| ==> o[i] == if i + rd / 32 < |l| then l[i + rd / 32] else 0
    ensures Val(o) == Shr(Val(l), rd)
  {
    forall k | 0 <= k < 32 * |o| ensures WBit(o, k) == XBit(l, k + rd) {
      assert (k + rd) / 32 == k / 32 + rd / 32 && (k + rd) % 32 == k % 32;
      ZeroBit(k % 32);
    }
    LoweredIsShr(o, l, rd);
  }

  lemma ShiftRUnaligned(o: seq<Word>, l: seq<Word>, rd: nat, obits: nat)
    requires |o| == |l| == WordsI(obits) && rd % 32 != 0 && rd < obits && Val(l) < Pow2(obits)
    requires forall i :: 0 <= i < WordsI(obits - rd) ==> i < |o| && i + rd / 32 < |l| && o[i] == DownPair(l, i, rd)
    requires forall i :: WordsI(obits - rd) <= i < |o| ==> o[i] == 0
    ensures Val(o) == Shr(Val(l), rd)
  {
    forall k | 0 <= k < 32 * |o| ensures WBit(o, k) == XBit(l, k + rd) {
      var i := k / 32;
      if i < WordsI(obits - rd) {
        DownPairBit(l, i, rd, k % 32);
      } else {
        ZeroBit(k % 32);
        NoBitAbove(obits, l, k + rd);
      }
    }
    LoweredIsShr(o, l, rd);
  }

  /** `VL_SHIFTR_WWI`. */
  method ShiftR(obits: nat, owp: array<Word>, lwp: array<Word>, rd: nat)
    requires WordsI(obits) <= owp.Length && CleanArr(obits, lwp) && owp != lwp
    modifies owp
    ensures ArrVal(owp, WordsI(obits)) == Shr(ArrVal(lwp, WordsI(obits)), rd)
  {
    var all := WordsI(obits);
    ghost var l := lwp[..all];
    var word_shift, bit_shift := rd / 32, rd % 32;
    if rd >= obits {
      ZeroFrom(owp, 0, all);
      ValZero(owp[..all]);
      Pow2Mono(obits, rd);
      ShrSmall(Val(l), rd);
    } else if bit_shift == 0 {
      var copy_words := all - word_shift;
      for i := 0 to copy_words
        invariant forall k :: 0 <= k < i ==> owp[k] == lwp[k + word_shift]
      {
        owp[i] := lwp[i + word_shift];
      }
      ZeroFrom(owp, copy_words, all);
      ShiftRAligned(owp[..all], l, rd);
    } else {
      var words := WordsI(obits - rd);
      ShiftDownWords(owp, lwp, all, words, rd);
      ZeroFrom(owp, words, all);
      ShiftRUnaligned(owp[..all], l, rd, obits);
    }
  }

  /** The loop shared by the right shifts: words i and i+1 of the source, joined. */
  method ShiftDownWords(owp: array<Word>, lwp: array<Word>, all: nat, words: nat, rd: nat)
    requires words <= owp.Length && all <= lwp.Length && owp != lwp && rd % 32 != 0 && words + rd / 32 <= all
    modifies owp
    ensures forall i :: 0 <= i < words ==> owp[i] == DownPair(lwp[..all], i, rd)
    ensures forall i :: words <= i < owp.Length ==> owp[i] == old(owp[i])
  {
    var word_shift, loffset := rd / 32, rd % 32;
    var nbitsonright := 32 - loffset;
    ghost var l := lwp[..all];
    for i := 0 to words
      invariant forall k :: 0 <= k < i ==> owp[k] == DownPair(l, k, rd)
      invariant forall k :: i <= k < owp.Length ==> owp[k] == old(owp[k])
    {
      owp[i] := Shr32(lwp[i + word_shift], loffset);
      var upperword := i + word_shift + 1;
      if upperword < all {
        owp[i] := Or32(owp[i], Shl32(lwp[upperword], nbitsonright));
      }
      assert owp[i] == DownPair(l, i, rd);
    }
  }

  // ---------------------------------------------------------------- signed shift right

  /** Division by 2^rd, rounding down. */
  function FloorShift(x: int, rd: nat): int
    decreases rd
  {
    if rd == 0 then x else FloorShift(x / 2, rd - 1)
  }

  /** Bit i of a possibly negative number, in two's complement. */
  predicate IBit(x: int, i: nat)
    decreases i
  {
    if i == 0 then x % 2 == 1 else IBit(x / 2, i - 1)
  }

  lemma {:induction false} IBitMod2(x: int, n: nat, i: nat)
    ensures Bit(Mod2(x, n), i) <==> i < n && IBit(x, i)
    decreases n
  {
    if n == 0 {
      ZeroBit(i);
    } else if i > 0 {
      assert Mod2(x, n) / 2 == Mod2(x / 2, n - 1);
      IBitMod2(x / 2, n - 1, i - 1);
    }
  }

  lemma {:induction false} IBitFloor(x: int, rd: nat, i: nat)
    ensures IBit(FloorShift(x, rd), i) == IBit(x, i + rd)
    decreases rd
  {
    if rd > 0 { IBitFloor(x / 2, rd - 1, i); }
  }

  lemma {:induction false} IBitNat(x: nat, i: nat)
    ensures IBit(x, i) == Bit(x, i)
  {
    if i > 0 { IBitNat(x / 2, i - 1); }
  }

  lemma {:induction false} IBitNegative(v: nat, n: nat, i: nat)
    requires v < Pow2(n)
    ensures IBit(v - Pow2(n), i) == (i >= n || Bit(v, i))
    decreases n, i
  {
    if i > 0 {
      if n == 0 {
        IBitNegative(0, 0, i - 1);
      } else {
        assert (v - Pow2(n)) / 2 == v / 2 - Pow2(n - 1);
        IBitNegative(v / 2, n - 1, i - 1);
      }
    }
  }

  lemma FloorShiftIsDiv(x: int, rd: nat)
    ensures FloorShift(x, rd) == x / Pow2(rd)
  {
    var r := FloorSplit(x, rd);
    ScaleIsMul(FloorShift(x, rd), rd);
    DivUnique(x, Pow2(rd), FloorShift(x, rd), r);
  }

  lemma {:induction false} FloorSplit(x: int, rd: nat) returns (r: nat)
    ensures r < Pow2(rd) && x == Scale(FloorShift(x, rd), rd) + r
    decreases rd
  {
    if rd == 0 {
      r := 0;
    } else {
      var h := FloorSplit(x / 2, rd - 1);
      r := 2 * h + x % 2;
    }
  }

  /** Bit k of the shifted signed number. */
  lemma SignedShiftBit(obits: nat, v: nat, rd: nat, k: nat)
    requires obits > 0 && v < Pow2(obits) && k < obits
    ensures Bit(Mod2(FloorShift(SVal(obits, v), rd), obits), k) ==
            if k + rd < obits then Bit(v, k + rd) else SVal(obits, v) < 0
  {
    var x := SVal(obits, v);
    IBitMod2(FloorShift(x, rd), obits, k);
    IBitFloor(x, rd, k);
    if x < 0 {
      IBitNegative(v, obits, k + rd);
    } else {
      IBitNat(v, k + rd);
      if k + rd >= obits { SmallBit(v, obits, k + rd); }
    }
  }

  /** Before the last mask: every bit of o is a bit of l or a copy of the sign. */
  ghost predicate SignFilled(o: seq<Word>, l: seq<Word>, rd: nat, obits: nat, fill: bool) {
    forall k :: 0 <= k < 32 * |o| ==> WBit(o, k) == if k + rd < obits then XBit(l, k + rd) else fill
  }

  lemma SignFilledIsShift(o: seq<Word>, l: seq<Word>, rd: nat, obits: nat, fill: bool)
    requires 0 < obits <= 32 * |o| && Val(l) < Pow2(obits) && fill == (SVal(obits, Val(l)) < 0)
    requires SignFilled(o, l, rd, obits, fill)
    ensures Mod2(Val(o), obits) == Mod2(FloorShift(SVal(obits, Val(l)), rd), obits)
  {
    var v := Mod2(FloorShift(SVal(obits, Val(l)), rd), obits);
    forall k | 0 <= k < obits ensures XBit(o, k) == Bit(v, k) {
      assert WBit(o, k) == if k + rd < obits then XBit(l, k + rd) else fill;
      SignedShiftBit(obits, Val(l), rd, k);
      XBitIs(l, k + rd);
    }
    LowFromBits(o, v, obits);
    LowIsMod2(Val(o), obits);
    LowIsMod2(v, obits);
    Mod2Small(v, obits);
  }

  /** `VL_SIGNONES_I`: a word of copies of the sign. */
  function SignOnes(sign: Word): Word { U32(-(sign as int)) }

  lemma SignOnesBit(sign: Word, b: nat)
    requires sign <= 1 && b < 32
    ensures Bit(SignOnes(sign), b) == (sign == 1)
  {
    Pow2Values();
    MaskBit(32, b);
    ZeroBit(b);
  }

  /** A word with the sign put at and above position n: `w | (sign & ~VL_MASK_I(n))`. */
  function FillAbove(w: Word, sign: Word, n: nat): Word { Or32(w, And32(SignOnes(sign), Not32(MaskI(n)))) }

  lemma FillAboveBit(w: Word, sign: Word, n: nat, b: nat)
    requires sign <= 1 && b < 32
    ensures Bit(FillAbove(w, sign, n), b) == (Bit(w, b) || (sign == 1 && b >= TopBits(n)))
  {
    var m := Not32(MaskI(n));
    BitOr(w, And32(SignOnes(sign), m), b);
    BitAnd(SignOnes(sign), m, b);
    SignOnesBit(sign, b);
    BitNot(MaskI(n), b);
    BitMask(n, b);
  }

  /** Word i of the signed shift: copied, the last one copied, or past it. */
  function SignedWord(l: seq<Word>, i: nat, rd: nat, obits: nat, sign: Word): Word
    requires rd < obits
  {
    var n := WordsI(obits - rd);
    if i + 1 < n then Joined(l, i, rd)
    else if i + 1 == n then FillAbove(Joined(l, i, rd), sign, obits - rd)
    else SignOnes(sign)
  }

  /** Word i of l shifted down by rd, for either path. */
  function Joined(l: seq<Word>, i: nat, rd: nat): Word {
    if i + rd / 32 >= |l| then 0 else if rd % 32 == 0 then l[i + rd / 32] else DownPair(l, i, rd)
  }

  lemma JoinedBit(l: seq<Word>, i: nat, rd: nat, b: nat)
    requires b < 32
    ensures Bit(Joined(l, i, rd), b) == XBit(l, 32 * i + b + rd)
  {
    PairPosition(i, rd, b);
    if i + rd / 32 >= |l| {
      ZeroBit(b);
    } else if rd % 32 != 0 {
      DownPairBit(l, i, rd, b);
    }
  }

  lemma SignedWordBit(l: seq<Word>, i: nat, rd: nat, obits: nat, sign: Word, b: nat)
    requires sign <= 1 && rd < obits && b < 32 && Val(l) < Pow2(obits)
    ensures Bit(SignedWord(l, i, rd, obits, sign), b) ==
            if 32 * i + b + rd < obits then XBit(l, 32 * i + b + rd) else sign == 1
  {
    var k := 32 * i + b + rd;
    JoinedBit(l, i, rd, b);
    if k >= obits { NoBitAbove(obits, l, k); }
    SignPlaced(Joined(l, i, rd), sign, obits - rd, i, b, SignedWord(l, i, rd, obits, sign));
  }

  /** The bits of a word before the sign is put above m bits, and after. */
  lemma SignPlaced(whole: Word, sign: Word, m: nat, i: nat, b: nat, x: Word)
    requires sign <= 1 && m > 0 && b < 32
    requires x == if i + 1 < WordsI(m) then whole
                  else if i + 1 == WordsI(m) then FillAbove(whole, sign, m)
                  else SignOnes(sign)
    ensures 32 * i + b < m ==> Bit(x, b) == Bit(whole, b)
    ensures 32 * i + b >= m && !Bit(whole, b) ==> Bit(x, b) == (sign == 1)
  {
    BitPlace(m, i, b);
    if i + 1 == WordsI(m) {
      FillAboveBit(whole, sign, m, b);
    } else if i + 1 > WordsI(m) {
      SignOnesBit(sign, b);
    }
  }

  /** Whether bit b of word i is one of the first m bits. */
  lemma BitPlace(m: nat, i: nat, b: nat)
    requires m > 0 && b < 32
    ensures 32 * i + b < m <==> i + 1 < WordsI(m) || (i + 1 == WordsI(m) && b < TopBits(m))
  {
    WordsTop(m);
  }

  lemma SignedWordsFilled(o: seq<Word>, l: seq<Word>, rd: nat, obits: nat, sign: Word)
    requires sign <= 1 && rd < obits && Val(l) < Pow2(obits)
    requires forall i :: 0 <= i < |o| ==> o[i] == SignedWord(l, i, rd, obits, sign)
    ensures SignFilled(o, l, rd, obits, sign == 1)
  {
    forall k | 0 <= k < 32 * |o| ensures WBit(o, k) == if k + rd < obits then XBit(l, k + rd) else sign == 1 {
      SignedWordBit(l, k / 32, rd, obits, sign, k % 32);
      assert 32 * (k / 32) + k % 32 == k;
    }
  }

  lemma AllSigns(o: seq<Word>, l: seq<Word>, rd: nat, obits: nat, sign: Word)
    requires sign <= 1 && rd >= obits && forall i :: 0 <= i < |o| ==> o[i] == SignOnes(sign)
    ensures SignFilled(o, l, rd, obits, sign == 1)
  {
    forall k | 0 <= k < 32 * |o| ensures WBit(o, k) == (sign == 1) { SignOnesBit(sign, k % 32); }
  }

  method FillSigns(owp: array<Word>, lo: nat, hi: nat, sign: Word)
    requires lo <= hi <= owp.Length
    modifies owp
    ensures forall i :: lo <= i < hi ==> owp[i] == sign
    ensures forall i :: 0 <= i < owp.Length && !(lo <= i < hi) ==> owp[i] == old(owp[i])
  {
    for i := lo to hi
      invariant forall k :: lo <= k < i ==> owp[k] == sign
      invariant forall k :: 0 <= k < owp.Length && !(lo <= k < i) ==> owp[k] == old(owp[k])
    {
      owp[i] := sign;
    }
  }

  /** `VL_SHIFTRS_WWI` with lbits = obits. */
  method ShiftRS(obits: nat, owp: array<Word>, lwp: array<Word>, rd: nat)
    requires WordsI(obits) <= owp.Length && CleanArr(obits, lwp) && owp != lwp
    modifies owp
    ensures ArrVal(owp, WordsI(obits)) == Mod2(FloorShift(SArr(obits, lwp), rd), obits)
  {
    var all := WordsI(obits);
    WordsTop(obits);
    ghost var l := lwp[..all];
    SignIs(obits, l);
    var neg := SignI(obits, lwp[all - 1]);
    var sign := SignOnes(neg);
    if rd >= obits {
      FillSigns(owp, 0, all, sign);
      AllSigns(owp[..all], l, rd, obits, neg);
    } else {
      if rd % 32 == 0 {
        SignedAligned(obits, owp, lwp, rd, neg);
      } else {
        SignedUnaligned(obits, owp, lwp, rd, neg);
      }
      SignedWordsFilled(owp[..all], l, rd, obits, neg);
    }
    SignFilledIsShift(owp[..all], l, rd, obits, neg == 1);
    CleanInplace(obits, owp);
  }

  method CopyDown(owp: array<Word>, lwp: array<Word>, copy_words: nat, word_shift: nat)
    requires copy_words <= owp.Length && copy_words + word_shift <= lwp.Length && owp != lwp
    modifies owp
    ensures forall k :: 0 <= k < copy_words ==> owp[k] == lwp[k + word_shift]
  {
    for i := 0 to copy_words
      invariant forall k :: 0 <= k < i ==> owp[k] == lwp[k + word_shift]
    {
      owp[i] := lwp[i + word_shift];
    }
  }

  method SignedAligned(obits: nat, owp: array<Word>, lwp: array<Word>, rd: nat, neg: Word)
    requires WordsI(obits) <= owp.Length && WordsI(obits) <= lwp.Length && owp != lwp
    requires neg <= 1 && rd % 32 == 0 && rd < obits
    modifies owp
    ensures forall i :: 0 <= i < WordsI(obits) ==> owp[i] == SignedWord(lwp[..WordsI(obits)], i, rd, obits, neg)
  {
    var all, word_shift := WordsI(obits), rd / 32;
    var copy_words := all - word_shift;
    assert copy_words == WordsI(obits - rd);
    CopyDown(owp, lwp, copy_words, word_shift);
    ghost var l := lwp[..all];
    var top := owp[copy_words - 1];
    assert top == Joined(l, copy_words - 1, rd);
    AlignedTop(top, neg, obits, rd);
    owp[copy_words - 1] := Or32(top, And32(Not32(MaskI(obits)), SignOnes(neg)));
    FillSigns(owp, copy_words, all, SignOnes(neg));
    assert forall k :: 0 <= k < copy_words - 1 ==> owp[k] == Joined(l, k, rd);
    SignedWordsAre(owp[..all], l, copy_words, rd, obits, neg);
    assert forall i :: 0 <= i < all ==> owp[i] == owp[..all][i];
  }

  lemma SignedWordsAre(o: seq<Word>, l: seq<Word>, n: nat, rd: nat, obits: nat, sign: Word)
    requires rd < obits && n == WordsI(obits - rd) <= |o|
    requires forall k :: 0 <= k < n - 1 ==> o[k] == Joined(l, k, rd)
    requires o[n - 1] == FillAbove(Joined(l, n - 1, rd), sign, obits - rd)
    requires forall k :: n <= k < |o| ==> o[k] == SignOnes(sign)
    ensures forall i :: 0 <= i < |o| ==> o[i] == SignedWord(l, i, rd, obits, sign)
  {
    forall i | 0 <= i < |o| ensures o[i] == SignedWord(l, i, rd, obits, sign) {
      if i + 1 < n { assert o[i] == Joined(l, i, rd); } else if i + 1 > n { assert o[i] == SignOnes(sign); }
    }
  }

  lemma AlignedTop(top: Word, neg: Word, obits: nat, rd: nat)
    requires rd % 32 == 0 && rd < obits
    ensures Or32(top, And32(Not32(MaskI(obits)), SignOnes(neg))) == FillAbove(top, neg, obits - rd)
  {
    SameMask(obits, obits - rd);
    AndSwap(Not32(MaskI(obits)), SignOnes(neg));
  }

  method SignedUnaligned(obits: nat, owp: array<Word>, lwp: array<Word>, rd: nat, neg: Word)
    requires WordsI(obits) <= owp.Length && WordsI(obits) <= lwp.Length && owp != lwp
    requires neg <= 1 && rd % 32 != 0 && rd < obits
    modifies owp
    ensures forall i :: 0 <= i < WordsI(obits) ==> owp[i] == SignedWord(lwp[..WordsI(obits)], i, rd, obits, neg)
  {
    var all, loffset := WordsI(obits), rd % 32;
    var words := WordsI(obits - rd);
    ShiftDownWords(owp, lwp, all, words, rd);
    ghost var l := lwp[..all];
    var top := owp[words - 1];
    assert top == Joined(l, words - 1, rd);
    FillAboveIs(top, neg, obits - loffset, obits - rd);
    owp[words - 1] := Or32(top, And32(SignOnes(neg), Not32(MaskI(obits - loffset))));
    FillSigns(owp, words, all, SignOnes(neg));
    assert forall k :: 0 <= k < words - 1 ==> owp[k] == Joined(l, k, rd);
    SignedWordsAre(owp[..all], l, words, rd, obits, neg);
    assert forall i :: 0 <= i < all ==> owp[i] == owp[..all][i];
  }

  lemma SameMask(m: nat, n: nat)
    requires m % 32 == n % 32
    ensures MaskI(m) == MaskI(n)
  {
  }

  /** Only the place in its word matters. */
  lemma FillAboveIs(top: Word, neg: Word, m: nat, n: nat)
    requires m % 32 == n % 32 && neg <= 1
    ensures Or32(top, And32(SignOnes(neg), Not32(MaskI(m)))) == FillAbove(top, neg, n)
  {
    SameMask(m, n);
  }

  lemma AndSwap(x: Word, y: Word)
    ensures And32(x, y) == And32(y, x)
  {
    forall b | 0 <= b < 32 ensures Bit(And(x, y), b) == Bit(And(y, x), b) { BitAnd(x, y, b); BitAnd(y, x, b); }
    SameWord(And32(x, y), And32(y, x));
  }

  // ---------------------------------------------------------------- concatenation and selection

  /** r in the low words of base, zeros above. */
  ghost predicate LowPart(base: seq<Word>, r: seq<Word>, words: nat)
    requires words <= |base|
  {
    forall i :: 0 <= i < words ==> base[i] == if i < |r| then r[i] else 0
  }

  lemma LowPartBit(base: seq<Word>, r: seq<Word>, words: nat, k: nat)
    requires words <= |base| && LowPart(base, r, words) && k < 32 * words
    ensures WBit(base, k) == XBit(r, k)
  {
    ZeroBit(k % 32);
  }

  /** The bits of a concatenation. */
  lemma ConcatBit(l: seq<Word>, r: seq<Word>, lbits: nat, rbits: nat, k: nat, v: nat)
    requires Val(l) < Pow2(lbits) && Val(r) < Pow2(rbits) && v == Val(r) + Shl(Val(l), rbits)
    ensures Bit(v, k) == if rbits <= k < rbits + lbits then XBit(l, k - rbits) else XBit(r, k)
  {
    BitGlue(Val(r), Val(l), rbits, k);
    XBitIs(r, k);
    if k >= rbits {
      XBitIs(l, k - rbits);
      SmallBit(Val(r), rbits, k);
      if k >= rbits + lbits { SmallBit(Val(l), lbits, k - rbits); }
    }
  }

  ghost predicate Concatenated(o: seq<Word>, l: seq<Word>, lbits: nat, r: seq<Word>, rbits: nat, words: nat)
    requires words <= |o|
  {
    forall k :: 0 <= k < 32 * words ==>
      WBit(o, k) == if rbits <= k < rbits + lbits then XBit(l, k - rbits) else XBit(r, k)
  }

  lemma ConcatBits(o: seq<Word>, base: seq<Word>, l: seq<Word>, r: seq<Word>, lbits: nat, rbits: nat, words: nat)
    requires |o| == |base| && words <= |o| && lbits <= 32 * |l|
    requires LowPart(base, r, words) && Inserted(o, base, l, rbits, rbits + lbits)
    ensures Concatenated(o, l, lbits, r, rbits, words)
  {
    forall k | 0 <= k < 32 * words
      ensures WBit(o, k) == if rbits <= k < rbits + lbits then XBit(l, k - rbits) else XBit(r, k)
    {
      LowPartBit(base, r, words, k);
      assert WBit(o, k) == if rbits <= k < rbits + lbits then WBit(l, k - rbits) else WBit(base, k);
    }
  }

  lemma ConcatVal(o: seq<Word>, l: seq<Word>, r: seq<Word>, lbits: nat, rbits: nat, words: nat, v: nat)
    requires words <= |o| && v < Pow2(32 * words)
    requires Val(l) < Pow2(lbits) && Val(r) < Pow2(rbits) && v == Val(r) + Shl(Val(l), rbits)
    requires Concatenated(o, l, lbits, r, rbits, words)
    ensures Val(o[..words]) == v
  {
    var o' := o[..words];
    forall k | 0 <= k < 32 * words ensures WBit(o', k) == Bit(v, k) {
      assert WBit(o, k) == if rbits <= k < rbits + lbits then XBit(l, k - rbits) else XBit(r, k);
      ConcatBit(l, r, lbits, rbits, k, v);
    }
    ValFromBits(o', v);
  }

  lemma ConcatBound(l: nat, r: nat, lbits: nat, rbits: nat)
    requires l < Pow2(lbits) && r < Pow2(rbits)
    ensures r + Shl(l, rbits) < Pow2(32 * WordsI(lbits + rbits))
  {
    ShlMono(l, Pow2(lbits), rbits);
    Pow2Add(lbits, rbits);
    Pow2Mono(lbits + rbits, 32 * WordsI(lbits + rbits));
  }

  /** `VL_CONCAT_WWW`: obits is lbits + rbits, and the inputs are clean. */
  method ConcatWWW(lbits: nat, rbits: nat, owp: array<Word>, lwp: array<Word>, rwp: array<Word>)
    requires CleanArr(lbits, lwp) && CleanArr(rbits, rwp) && owp != lwp && owp != rwp
    requires WordsI(lbits + rbits) <= owp.Length
    modifies owp
    ensures ArrVal(owp, WordsI(lbits + rbits)) ==
            ArrVal(rwp, WordsI(rbits)) + Shl(ArrVal(lwp, WordsI(lbits)), rbits)
  {
    var words, rwords := WordsI(lbits + rbits), WordsI(rbits);
    for i := 0 to rwords
      invariant forall k :: 0 <= k < i ==> owp[k] == rwp[k]
    {
      owp[i] := rwp[i];
    }
    ZeroFrom(owp, rwords, words);
    ghost var base := owp[..];
    InsertWW(owp, lwp, rbits + lbits - 1, rbits);
    Trimmed(owp[..], base, lwp[..], WordsI(lbits), rbits, rbits + lbits);
    ghost var l, r := lwp[..WordsI(lbits)], rwp[..rwords];
    ConcatBits(owp[..], base, l, r, lbits, rbits, words);
    ConcatBound(Val(l), Val(r), lbits, rbits);
    ConcatVal(owp[..], l, r, lbits, rbits, words, Val(r) + Shl(Val(l), rbits));
    assert owp[..][..words] == owp[..words];
    assert lwp[..][..WordsI(lbits)] == lwp[..WordsI(lbits)];
  }

  lemma Trimmed(o: seq<Word>, base: seq<Word>, l: seq<Word>, n: nat, lbit: nat, end: nat)
    requires |o| == |base| && n <= |l| && lbit <= end <= lbit + 32 * n && Inserted(o, base, l, lbit, end)
    ensures Inserted(o, base, l[..n], lbit, end)
  {
    forall k | 0 <= k < 32 * |o|
      ensures WBit(o, k) == if lbit <= k < end then WBit(l[..n], k - lbit) else WBit(base, k)
    {
      assert WBit(o, k) == if lbit <= k < end then WBit(l, k - lbit) else WBit(base, k);
    }
  }

  /** The bits of o are those of l from lsb up. */
  ghost predicate Selected(o: seq<Word>, l: seq<Word>, lsb: nat, width: nat) {
    forall k :: 0 <= k < width ==> XBit(o, k) == XBit(l, k + lsb)
  }

  lemma SelectedIs(o: seq<Word>, l: seq<Word>, lsb: nat, width: nat)
    requires Selected(o, l, lsb, width)
    ensures Low(Val(o), width) == Low(Shr(Val(l), lsb), width)
  {
    forall k | 0 <= k < width ensures XBit(o, k) == Bit(Shr(Val(l), lsb), k) {
      assert XBit(o, k) == XBit(l, k + lsb);
      BitShr(Val(l), lsb, k);
      XBitIs(l, k + lsb);
    }
    LowFromBits(o, Shr(Val(l), lsb), width);
  }

  /** The last word read, msb / 32, is one of the operand's WordsI(lbits) words, but for one case:
      the test of the routine lets msb = lbits through, which is one past the last bit. Where
      lbits fills its words, that is one past the last word. */
  lemma SelReadsPast(lbits: nat, msb: nat)
    requires msb <= lbits
    ensures msb / 32 < WordsI(lbits) <==> !(msb == lbits && lbits % 32 == 0)
  {
  }

  /** `VL_SEL_WWII` with obits = width. Past the end all ones come back; in range the low
      width bits are the selected ones (what is above them is dirty). */
  method SelWWII(lbits: nat, owp: array<Word>, lwp: array<Word>, lsb: nat, width: nat)
    requires 0 < width && WordsI(width) <= owp.Length && owp != lwp
    requires lsb + width - 1 <= lbits ==> (lsb + width - 1) / 32 < lwp.Length
    modifies owp
    ensures lsb + width - 1 > lbits ==> ArrVal(owp, WordsI(width)) == Pow2(width) - 1
    ensures lsb + width - 1 <= lbits ==>
      Low(ArrVal(owp, WordsI(width)), width) == Low(Shr(ArrVal(lwp, lwp.Length), lsb), width)
  {
    var msb, word_shift, words := lsb + width - 1, lsb / 32, WordsI(width);
    if msb > lbits {
      for i := 0 to words - 1
        invariant forall k :: 0 <= k < i ==> owp[k] == 0xffff_ffff
      {
        owp[i] := 0xffff_ffff;
      }
      owp[words - 1] := MaskI(width);
      AllOnes(owp[..words], width);
    } else if lsb % 32 == 0 {
      for i := 0 to words
        invariant forall k :: 0 <= k < i ==> owp[k] == lwp[k + word_shift]
      {
        owp[i] := lwp[i + word_shift];
      }
      SelectWords(owp[..words], lwp[..], lsb, width);
      SelectedIs(owp[..words], lwp[..], lsb, width);
      assert lwp[..] == lwp[..lwp.Length];
    } else {
      var top := msb / 32 + 1;
      SelectLoop(owp, lwp, top, words, lsb);
      SelectWords(owp[..words], lwp[..top], lsb, width);
      SelectedIs(owp[..words], lwp[..top], lsb, width);
      SelectTrimmed(lwp[..], top, lsb, width);
      assert lwp[..] == lwp[..lwp.Length] && lwp[..][..top] == lwp[..top];
    }
  }

  /** The unaligned loop of the selection; words of lwp from `top` up are not read. */
  method SelectLoop(owp: array<Word>, lwp: array<Word>, top: nat, words: nat, lsb: nat)
    requires top <= lwp.Length && words <= owp.Length && owp != lwp
    requires lsb % 32 != 0 && words + lsb / 32 <= top
    modifies owp
    ensures forall i :: 0 <= i < words ==> owp[i] == Joined(lwp[..top], i, lsb)
  {
    ShiftDownWords(owp, lwp, top, words, lsb);
  }

  lemma SelectWords(o: seq<Word>, l: seq<Word>, lsb: nat, width: nat)
    requires width <= 32 * |o|
    requires forall i :: 0 <= i < |o| ==> o[i] == Joined(l, i, lsb)
    ensures Selected(o, l, lsb, width)
  {
    forall k | 0 <= k < width ensures XBit(o, k) == XBit(l, k + lsb) {
      JoinedBit(l, k / 32, lsb, k % 32);
      assert 32 * (k / 32) + k % 32 == k;
    }
  }

  /** The words above the selected bits do not matter. */
  lemma SelectTrimmed(l: seq<Word>, top: nat, lsb: nat, width: nat)
    requires top <= |l| && lsb + width <= 32 * top
    ensures Low(Shr(Val(l[..top]), lsb), width) == Low(Shr(Val(l), lsb), width)
  {
    var a, b := Shr(Val(l[..top]), lsb), Shr(Val(l), lsb);
    forall k | 0 <= k < width ensures Bit(Low(a, width), k) == Bit(Low(b, width), k) {
      BitLow(a, width, k); BitLow(b, width, k);
      BitShr(Val(l[..top]), lsb, k); BitShr(Val(l), lsb, k);
      XBitIs(l[..top], k + lsb); XBitIs(l, k + lsb);
    }
    BitsDetermine(Low(a, width), Low(b, width), width);
  }

  lemma AllOnes(o: seq<Word>, width: nat)
    requires width > 0 && |o| == WordsI(width)
    requires forall i :: 0 <= i < |o| - 1 ==> o[i] == 0xffff_ffff
    requires o[|o| - 1] == MaskI(width)
    ensures Val(o) == Pow2(width) - 1
  {
    var v := Pow2(width) - 1;
    WordsTop(width);
    Pow2Mono(width, 32 * |o|);
    forall k | 0 <= k < 32 * |o| ensures WBit(o, k) == Bit(v, k) {
      MaskBit(width, k);
      OnesWord(o, width, k);
    }
    ValFromBits(o, v);
  }

  lemma OnesWord(o: seq<Word>, width: nat, k: nat)
    requires width > 0 && |o| == WordsI(width) && k < 32 * |o|
    requires forall i :: 0 <= i < |o| - 1 ==> o[i] == 0xffff_ffff
    requires o[|o| - 1] == MaskI(width)
    ensures WBit(o, k) == (k < width)
  {
    WordsTop(width);
    if k / 32 == |o| - 1 { BitMask(width, k % 32); } else { OnesBit(k % 32); }
  }

  lemma OnesBit(b: nat)
    requires b < 32
    ensures Bit(0xffff_ffff, b)
  {
    Pow2Values();
    MaskBit(32, b);
  }

  lemma PartsBack(l: nat, r: nat, lbits: nat, rbits: nat)
    requires l < Pow2(lbits) && r < Pow2(rbits)
    ensures Low(Shr(r + Shl(l, rbits), rbits), lbits) == l
    ensures Low(Shr(r + Shl(l, rbits), 0), rbits) == r
  {
    Glue(r, l, rbits);
    ShrSmall(l, lbits);
  }

  /** Selecting either part of a concatenation gives that part back. */
  method SelUndoesConcat(lbits: nat, rbits: nat, owp: array<Word>, lwp: array<Word>, rwp: array<Word>,
                         hi: array<Word>, lo: array<Word>)
    requires lbits > 0 && rbits > 0 && CleanArr(lbits, lwp) && CleanArr(rbits, rwp)
    requires owp.Length == WordsI(lbits + rbits) && WordsI(lbits) <= hi.Length && WordsI(rbits) <= lo.Length
    requires owp != lwp && owp != rwp && {hi, lo} !! {owp, lwp, rwp} && hi != lo
    modifies owp, hi, lo
    ensures Low(ArrVal(hi, WordsI(lbits)), lbits) == ArrVal(lwp, WordsI(lbits))
    ensures Low(ArrVal(lo, WordsI(rbits)), rbits) == ArrVal(rwp, WordsI(rbits))
  {
    ConcatWWW(lbits, rbits, owp, lwp, rwp);
    SelWWII(lbits + rbits, hi, owp, rbits, lbits);
    SelWWII(lbits + rbits, lo, owp, 0, rbits);
    PartsBack(ArrVal(lwp, WordsI(lbits)), ArrVal(rwp, WordsI(rbits)), lbits, rbits);
  }
}
