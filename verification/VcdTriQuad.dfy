/** Tristate signals of 33 to 64 bits, whose stored words overlap, and the changes that are missed. */
module VcdTriQuad {
  import opened Bits
  import opened Words
  import opened VcdTrace

  /** `fullTriQuad` stores the value over two words and then the enables over the second of them
      and the next: the high half of the value is lost. */
  function TriQuadStored(lo: Word, hi: Word, tri: Word): seq<Word> {
    [lo, hi, 0][1 := tri][2 := 0]
  }

  /** `chgTriQuad` compares both as stored. */
  function TriQuadDiff(stored: seq<Word>, lo: Word, hi: Word, tri: Word): nat
    requires |stored| == 3
  {
    Or(Xor(stored[0] + B * stored[1], lo + B * hi), Xor(stored[1] + B * stored[2], tri))
  }

  /** Its tests: when they fail nothing is written. */
  predicate Quiet(diff: nat, bits: nat) {
    !(diff != 0 && (bits == 64 || And(diff, Pow2(bits) - 1) != 0))
  }

  // ---------------------------------------------------------------- what the tests see

  ghost predicate Clear(x: nat, bits: nat) {
    forall k :: 0 <= k < bits ==> !Bit(x, k)
  }

  ghost predicate SameBits(x: nat, y: nat, bits: nat) {
    forall k :: 0 <= k < bits ==> Bit(x, k) == Bit(y, k)
  }

  lemma ClearMask(x: nat, bits: nat)
    ensures And(x, Pow2(bits) - 1) == 0 <==> Clear(x, bits)
  {
    AndMask(x, bits);
    if Low(x, bits) == 0 { LowClear(x, bits); }
    if Clear(x, bits) { ClearLow(x, bits); }
  }

  lemma LowClear(x: nat, bits: nat)
    requires Low(x, bits) == 0
    ensures Clear(x, bits)
  {
    forall k | 0 <= k < bits ensures !Bit(x, k) { BitLow(x, bits, k); ZeroBit(k); }
  }

  lemma ClearLow(x: nat, bits: nat)
    requires Clear(x, bits)
    ensures Low(x, bits) == 0
  {
    var zero: nat := 0;
    forall k | 0 <= k < bits ensures Bit(Low(x, bits), k) == Bit(zero, k) { BitLow(x, bits, k); ZeroBit(k); }
    BitsDetermine(Low(x, bits), zero, bits);
  }

  lemma DiffBit(x: nat, y: nat, t: nat, s: nat, k: nat)
    ensures Bit(Or(Xor(x, y), Xor(t, s)), k) <==> Bit(x, k) != Bit(y, k) || Bit(t, k) != Bit(s, k)
  {
    BitXor(x, y, k);
    BitXor(t, s, k);
    BitOr(Xor(x, y), Xor(t, s), k);
  }

  lemma DiffClear(x: nat, y: nat, t: nat, s: nat, diff: nat, bits: nat)
    requires diff == Or(Xor(x, y), Xor(t, s))
    ensures Clear(diff, bits) <==> SameBits(x, y, bits) && SameBits(t, s, bits)
  {
    forall k | 0 <= k < bits ensures Bit(diff, k) <==> Bit(x, k) != Bit(y, k) || Bit(t, k) != Bit(s, k) {
      DiffBit(x, y, t, s, k);
    }
  }

  lemma ZeroClear(bits: nat)
    ensures Clear(0, bits)
  {
    forall k | 0 <= k < bits ensures !Bit(0, k) { ZeroBit(k); }
  }

  lemma DiffBound(x: nat, y: nat, t: nat, s: nat, n: nat)
    requires x < Pow2(n) && y < Pow2(n) && t < Pow2(n) && s < Pow2(n)
    ensures Or(Xor(x, y), Xor(t, s)) < Pow2(n)
  {
    XorBound(x, y, n);
    XorBound(t, s, n);
    OrBound(Xor(x, y), Xor(t, s), n);
  }

  lemma {:induction false} XorBound(x: nat, y: nat, n: nat)
    requires x < Pow2(n) && y < Pow2(n)
    ensures Xor(x, y) < Pow2(n)
    decreases n
  {
    if n > 0 { XorBound(x / 2, y / 2, n - 1); }
  }

  lemma QuietIsClear(diff: nat, bits: nat)
    requires bits <= 64 && diff < Pow2(64)
    ensures Quiet(diff, bits) <==> Clear(diff, bits)
  {
    ClearMask(diff, bits);
    if diff == 0 { ZeroClear(bits); }
    if bits == 64 && Clear(diff, 64) {
      ClearLow(diff, 64);
      ShrSmall(diff, 64);
    }
  }

  lemma SameBitsLow(x: nat, y: nat, n: nat)
    ensures SameBits(x, y, n) <==> Low(x, n) == Low(y, n)
  {
    if SameBits(x, y, n) {
      forall k | 0 <= k < n ensures Bit(Low(x, n), k) == Bit(Low(y, n), k) { BitLow(x, n, k); BitLow(y, n, k); }
      BitsDetermine(Low(x, n), Low(y, n), n);
    }
    if Low(x, n) == Low(y, n) {
      forall k | 0 <= k < n ensures Bit(x, k) == Bit(y, k) { BitLow(x, n, k); BitLow(y, n, k); }
    }
  }

  /** Nothing is written exactly when the two pairs agree below the width. */
  lemma QuietIsSame(x: nat, y: nat, t: nat, s: nat, bits: nat)
    requires bits <= 64 && x < Pow2(64) && y < Pow2(64) && t < Pow2(64) && s < Pow2(64)
    ensures Quiet(Or(Xor(x, y), Xor(t, s)), bits) <==> Low(x, bits) == Low(y, bits) && Low(t, bits) == Low(s, bits)
  {
    var diff := Or(Xor(x, y), Xor(t, s));
    DiffBound(x, y, t, s, 64);
    QuietIsClear(diff, bits);
    DiffClear(x, y, t, s, diff, bits);
    SameBitsLow(x, y, bits);
    SameBitsLow(t, s, bits);
  }

  // ---------------------------------------------------------------- two words at a time

  lemma QuadBound(lo: Word, hi: Word)
    ensures lo + B * hi < Pow2(64)
  {
    Pow2Values();
    Pow2Add(32, 32);
  }

  lemma LowPair(lo: Word, hi: Word, n: nat)
    ensures Low(lo + B * hi, 32 + n) == lo + B * Low(hi, n)
  {
    Pow2Values();
    ShlB(hi);
    ShlB(Low(hi, n));
    LowLow(lo, hi, 32, n);
  }

  /** Two words against two others, below a width that ends in the second. */
  lemma WordsAgree(lo1: Word, hi1: Word, lo2: Word, hi2: Word, n: nat, bits: nat)
    requires bits == 32 + n
    ensures Low(lo1 + B * hi1, bits) == Low(lo2 + B * hi2, bits) <==> lo1 == lo2 && Low(hi1, n) == Low(hi2, n)
  {
    LowPair(lo1, hi1, n);
    LowPair(lo2, hi2, n);
    PairSame(lo1, Low(hi1, n), lo2, Low(hi2, n));
  }

  lemma PairSame(a: Word, x: nat, b: Word, y: nat)
    ensures a + B * x == b + B * y <==> a == b && x == y
  {
  }

  lemma PairAgrees(lo1: Word, hi1: Word, lo2: Word, hi2: Word, bits: nat, x: nat, y: nat)
    requires 32 <= bits && x == lo1 + B * hi1 && y == lo2 + B * hi2
    ensures x < Pow2(64) && y < Pow2(64)
    ensures Low(x, bits) == Low(y, bits) <==> lo1 == lo2 && Low(hi1, bits - 32) == Low(hi2, bits - 32)
  {
    QuadBound(lo1, hi1);
    QuadBound(lo2, hi2);
    WordsAgree(lo1, hi1, lo2, hi2, bits - 32, bits);
  }

  /** After the value lo1, hi1 with the enables tri1, exactly the values with the same low half,
      the same enables, and those enables for what is shown of a high half are taken for
      unchanged. A change is missed when that is not the high half that was printed. */
  lemma TriQuadQuiet(lo1: Word, hi1: Word, tri1: Word, lo2: Word, hi2: Word, tri2: Word, bits: nat)
    requires 33 <= bits <= 64
    ensures Quiet(TriQuadDiff(TriQuadStored(lo1, hi1, tri1), lo2, hi2, tri2), bits) <==>
            lo2 == lo1 && tri2 == tri1 && Low(hi2, bits - 32) == Low(tri1, bits - 32)
  {
    var x: nat, y: nat, t: nat, s: nat := lo1 + B * tri1, lo2 + B * hi2, tri1 + B * 0, tri2;
    PairAgrees(lo1, tri1, lo2, hi2, bits, x, y);
    PairAgrees(tri1, 0, tri2, 0, bits, t, s);
    QuietIsSame(x, y, t, s, bits);
    assert TriQuadDiff(TriQuadStored(lo1, hi1, tri1), lo2, hi2, tri2) == Or(Xor(x, y), Xor(t, s));
    assert Low(0, bits - 32) == Low(0, bits - 32) && Low(t, bits) == Low(s, bits) <==> tri1 == tri2;
  }
}
