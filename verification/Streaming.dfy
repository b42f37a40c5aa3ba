/** The left streaming operator (IEEE 1800-2012 section 11.4.14): the bits are cut into
    slices of rd bits from the bottom, and the slices are put in reverse order. */
module Streaming {
  import opened Bits
  import opened Words
  import opened WideArith
  import opened BitMoves
  import opened Signed
  import opened Shifts

  // ---------------------------------------------------------------- the permutation

  /** Where the slice that starts at istart goes: `ostart` of the C loops. */
  function SliceTo(istart: nat, lbits: nat, rd: nat): nat {
    if lbits > rd + istart then lbits - rd - istart else 0
  }

  /** Where input bit k goes. */
  function Dest(k: nat, lbits: nat, rd: nat): nat
    requires rd > 0
  {
    SliceTo(k - Rem(k, rd), lbits, rd) + Rem(k, rd)
  }

  /** The start of the slice whose bits end up at p. */
  function SliceOf(p: nat, lbits: nat, rd: nat): nat
    requires p < lbits && rd > 0
  {
    var q := lbits - 1 - p;
    q - Rem(q, rd)
  }

  /** Which input bit ends up at p. */
  function Src(p: nat, lbits: nat, rd: nat): int
    requires p < lbits && rd > 0
  {
    SliceOf(p, lbits, rd) + p - SliceTo(SliceOf(p, lbits, rd), lbits, rd)
  }

  /** The remainder is settled by any multiple of rd not above x and close to it. */
  lemma RemIs(x: nat, s: nat, m: nat, rd: nat)
    requires rd > 0 && s == m * rd && s <= x < s + rd
    ensures Rem(x, rd) == x - s
  {
    assert m * rd == rd * m;
    DivUnique(x, rd, m, x - s);
  }

  lemma RemMultiple(x: nat, rd: nat) returns (m: nat)
    requires rd > 0
    ensures x - Rem(x, rd) == m * rd && Rem(x, rd) < rd
  {
    QuotRem(x, rd);
    m := Quot(x, rd);
    assert rd * m == m * rd;
  }

  /** Src undoes Dest. */
  lemma SrcDest(k: nat, lbits: nat, rd: nat)
    requires rd > 0 && k < lbits
    ensures Dest(k, lbits, rd) < lbits && Src(Dest(k, lbits, rd), lbits, rd) == k
  {
    var m := RemMultiple(k, rd);
    var s, t := k - Rem(k, rd), Rem(k, rd);
    var p := SliceTo(s, lbits, rd) + t;
    RemIs(lbits - 1 - p, s, m, rd);
  }

  /** Dest undoes Src. */
  lemma DestSrc(p: nat, lbits: nat, rd: nat)
    requires rd > 0 && p < lbits
    ensures 0 <= Src(p, lbits, rd) < lbits && Dest(Src(p, lbits, rd), lbits, rd) == p
  {
    var q := lbits - 1 - p;
    var m := RemMultiple(q, rd);
    var s := SliceOf(p, lbits, rd);
    RemIs(Src(p, lbits, rd), s, m, rd);
  }

  /** Streaming twice is the identity exactly when rd divides lbits or covers them all. */
  lemma InvolutionIff(lbits: nat, rd: nat)
    requires rd > 0 && lbits > 0
    ensures (forall p :: 0 <= p < lbits ==> SrcTwice(p, lbits, rd) == p) <==> rd >= lbits || Rem(lbits, rd) == 0
  {
    if rd >= lbits {
      forall p | 0 <= p < lbits ensures SrcTwice(p, lbits, rd) == p { CoveredIsIdentity(p, lbits, rd); }
    } else if Rem(lbits, rd) == 0 {
      forall p | 0 <= p < lbits ensures SrcTwice(p, lbits, rd) == p { DividedIsInvolution(p, lbits, rd); }
    } else {
      UndividedMoves(lbits, rd);
      assert SrcTwice(0, lbits, rd) != 0;
    }
  }

  function SrcTwice(p: nat, lbits: nat, rd: nat): int
    requires rd > 0 && p < lbits
  {
    DestSrc(p, lbits, rd);
    Src(Src(p, lbits, rd), lbits, rd)
  }

  lemma CoveredIsIdentity(p: nat, lbits: nat, rd: nat)
    requires rd >= lbits > p
    ensures Src(p, lbits, rd) == p && SrcTwice(p, lbits, rd) == p
  {
    RemIs(lbits - 1 - p, 0, 0, rd);
  }

  lemma Multiples(n: nat, m: nat, rd: nat, lbits: nat, s: nat) returns (k: nat)
    requires lbits == n * rd && s == m * rd && s < lbits
    ensures lbits - rd - s == k * rd
  {
    if m >= n { MulMono(n, m, rd); assert false; }
    k := n - 1 - m;
    assert (n - 1 - m) * rd == n * rd - rd - m * rd;
  }

  lemma DividedIsInvolution(p: nat, lbits: nat, rd: nat)
    requires 0 < rd <= lbits && p < lbits && Rem(lbits, rd) == 0
    ensures SrcTwice(p, lbits, rd) == p
  {
    var n := RemMultiple(lbits, rd);
    var m := RemMultiple(lbits - 1 - p, rd);
    var s := SliceOf(p, lbits, rd);
    var k := Multiples(n, m, rd, lbits, s);
    DestSrc(p, lbits, rd);
    ReverseSlice(p, lbits, rd, s, k, Src(p, lbits, rd));
  }

  lemma ReverseSlice(p: nat, lbits: nat, rd: nat, s: nat, m: nat, k: nat)
    requires 0 < rd && p < lbits && k < lbits && s == SliceOf(p, lbits, rd) && k == Src(p, lbits, rd)
    requires s + rd <= lbits && lbits - rd - s == m * rd
    ensures Src(k, lbits, rd) == p
  {
    QuotRem(lbits - 1 - p, rd);
    RemIs(lbits - 1 - k, lbits - rd - s, m, rd);
  }

  lemma UndividedMoves(lbits: nat, rd: nat)
    requires 0 < rd < lbits && Rem(lbits, rd) != 0
    ensures SrcTwice(0, lbits, rd) != 0
  {
    var m := RemMultiple(lbits, rd);
    var s := lbits - Rem(lbits, rd);
    RemIs(lbits - 1, s, m, rd);
    assert Src(0, lbits, rd) == s;
    RemIs(lbits - 1 - s, 0, 0, rd);
    DestSrc(0, lbits, rd);
  }

  // ---------------------------------------------------------------- the wide operator

  /** Every bit of o below lbits that comes from an input bit below `done` is in place;
      all others are 0. */
  ghost predicate StreamedUpTo(o: seq<Word>, l: seq<Word>, lbits: nat, rd: nat, done: nat)
    requires rd > 0
  {
    forall p :: 0 <= p < 32 * |o| ==> WBit(o, p) == StreamedBit(l, p, lbits, rd, done)
  }

  ghost predicate StreamedBit(l: seq<Word>, p: nat, lbits: nat, rd: nat, done: nat)
    requires rd > 0
  {
    p < lbits && Src(p, lbits, rd) < done && (DestSrc(p, lbits, rd); XBit(l, Src(p, lbits, rd)))
  }

  /** `w | (((x >> a) & 1) << b)`. */
  function OrBit(w: Word, x: Word, a: nat, b: nat): Word { Or32(w, Shl32(And32(Shr32(x, a), 1), b)) }

  lemma OrBitBit(w: Word, x: Word, a: nat, b: nat, c: nat)
    requires b < 32 && c < 32 && a < 32
    ensures Bit(OrBit(w, x, a, b), c) == (Bit(w, c) || (c == b && Bit(x, a)))
  {
    var one := And32(Shr32(x, a), 1);
    BitOr(w, Shl32(one, b), c);
    BitShl32(one, b, c);
    if c >= b {
      BitAnd(Shr32(x, a), 1, c - b);
      BitShr32(x, a, c - b);
      if c > b { ZeroBit(c - b - 1); }
    }
  }

  lemma StreamStep(o: seq<Word>, l: seq<Word>, lbits: nat, rd: nat, k: nat, dest: nat)
    requires rd > 0 && k < lbits && dest == Dest(k, lbits, rd) && lbits <= 32 * |l| && lbits <= 32 * |o|
    requires StreamedUpTo(o, l, lbits, rd, k)
    ensures dest < lbits
    ensures var w := dest / 32;
      StreamedUpTo(o[w := OrBit(o[w], l[k / 32], k % 32, dest % 32)], l, lbits, rd, k + 1)
  {
    SrcDest(k, lbits, rd);
    var w := dest / 32;
    var o' := o[w := OrBit(o[w], l[k / 32], k % 32, dest % 32)];
    forall p | 0 <= p < 32 * |o| ensures WBit(o', p) == StreamedBit(l, p, lbits, rd, k + 1) {
      assert WBit(o, p) == StreamedBit(l, p, lbits, rd, k);
      if p < lbits { DestSrc(p, lbits, rd); }
      if p / 32 == w { OrBitBit(o[w], l[k / 32], k % 32, dest % 32, p % 32); }
    }
  }

  lemma StreamStart(o: seq<Word>, l: seq<Word>, lbits: nat, rd: nat)
    requires rd > 0 && forall i :: 0 <= i < |o| ==> o[i] == 0
    ensures StreamedUpTo(o, l, lbits, rd, 0)
  {
    forall p | 0 <= p < 32 * |o| ensures WBit(o, p) == StreamedBit(l, p, lbits, rd, 0) {
      ZeroBit(p % 32);
      if p < lbits { DestSrc(p, lbits, rd); }
    }
  }

  lemma SlicePosition(k: nat, istart: nat, m: nat, lbits: nat, rd: nat)
    requires 0 < rd && istart == Times(rd, m) && istart <= k < istart + rd
    ensures Dest(k, lbits, rd) == SliceTo(istart, lbits, rd) + (k - istart)
  {
    TimesIs(rd, m);
    assert rd * m == m * rd;
    RemIs(k, istart, m, rd);
  }

  /** The inner loop: one slice, bit by bit. */
  method StreamSlice(lbits: nat, owp: array<Word>, lwp: array<Word>, rd: nat, words: nat, istart: nat, ghost m: nat)
    requires 0 < rd && words == WordsI(lbits) && words <= owp.Length && words <= lwp.Length && owp != lwp
    requires istart == Times(rd, m) && istart < lbits
    requires StreamedUpTo(owp[..words], lwp[..words], lbits, rd, istart)
    modifies owp
    ensures StreamedUpTo(owp[..words], lwp[..words], lbits, rd, Min(istart + rd, lbits))
  {
    ghost var l := lwp[..words];
    var ssize := if rd < lbits then rd else lbits;
    var ostart := lbits - rd - istart;
    ostart := if ostart > 0 then ostart else 0;
    var sbit := 0;
    while sbit < ssize && sbit < lbits - istart
      invariant 0 <= sbit <= ssize && sbit <= lbits - istart
      invariant StreamedUpTo(owp[..words], l, lbits, rd, istart + sbit)
    {
      ghost var o := owp[..words];
      var from, to: nat := istart + sbit, ostart + sbit;
      SlicePosition(from, istart, m, lbits, rd);
      StreamStep(o, l, lbits, rd, from, to);
      owp[to / 32] := OrBit(owp[to / 32], lwp[from / 32], from % 32, to % 32);
      assert owp[..words] == o[to / 32 := OrBit(o[to / 32], l[from / 32], from % 32, to % 32)];
      sbit := sbit + 1;
    }
  }

  /** `VL_STREAML_WWI`. The C code mixes signed and unsigned 32-bit arithmetic in the slice
      positions; the last requires keeps them from wrapping. */
  method StreamlWWI(lbits: nat, owp: array<Word>, lwp: array<Word>, rd: nat)
    requires 0 < rd && WordsI(lbits) <= owp.Length && WordsI(lbits) <= lwp.Length && owp != lwp
    requires lbits + rd < 0x8000_0000
    modifies owp
    ensures StreamedUpTo(owp[..WordsI(lbits)], lwp[..WordsI(lbits)], lbits, rd, lbits)
  {
    var words := WordsI(lbits);
    ZeroFrom(owp, 0, words);
    ghost var l := lwp[..words];
    StreamStart(owp[..words], l, lbits, rd);
    var istart := 0;
    ghost var m := 0;
    while istart < lbits
      invariant 0 <= istart == Times(rd, m)
      invariant StreamedUpTo(owp[..words], l, lbits, rd, Min(istart, lbits))
      decreases lbits - istart
    {
      StreamSlice(lbits, owp, lwp, rd, words, istart, m);
      istart := istart + rd;
      m := m + 1;
    }
  }

  /** Streaming a clean value twice with a slice size that divides the width gives it back. */
  lemma StreamTwice(l: seq<Word>, o: seq<Word>, o': seq<Word>, lbits: nat, rd: nat)
    requires 0 < rd && 0 < lbits && |l| == |o| == |o'| == WordsI(lbits) && Val(l) < Pow2(lbits)
    requires rd >= lbits || Rem(lbits, rd) == 0
    requires StreamedUpTo(o, l, lbits, rd, lbits) && StreamedUpTo(o', o, lbits, rd, lbits)
    ensures o' == l
  {
    InvolutionIff(lbits, rd);
    forall p | 0 <= p < 32 * |l| ensures WBit(o', p) == Bit(Val(l), p) {
      assert WBit(o', p) == StreamedBit(o, p, lbits, rd, lbits);
      XBitIs(l, p);
      if p < lbits {
        DestSrc(p, lbits, rd);
        var s := Src(p, lbits, rd);
        assert WBit(o, s) == StreamedBit(l, s, lbits, rd, lbits);
        DestSrc(s, lbits, rd);
        assert SrcTwice(p, lbits, rd) == p;
      } else {
        SmallBit(Val(l), lbits, p);
      }
    }
    ValBelow(l);
    ValFromBits(o', Val(l));
    ValInjective(o', l);
  }
}
