/** Moving runs of bits between wide values: `_VL_INSERT_WW` and what is built on it.
    The contracts speak of single bits; the numbers follow from them. */
module BitMoves {
  import opened Bits
  import opened Words

  // ---------------------------------------------------------------- bits of the word operators

  lemma BitNot(x: Word, b: nat)
    requires b < 32
    ensures Bit(Not32(x), b) == !Bit(x, b)
  {
    Pow2Values();
    NotBit(x, 32, b);
  }

  lemma {:induction false} NotBit(x: nat, n: nat, b: nat)
    requires b < n && x < Pow2(n)
    ensures Bit(Pow2(n) - 1 - x, b) == !Bit(x, b)
  {
    var y := Pow2(n) - 1 - x;
    assert y / 2 == Pow2(n - 1) - 1 - x / 2;
    if b > 0 { NotBit(x / 2, n - 1, b - 1); }
  }

  lemma BitShl32(x: Word, k: nat, b: nat)
    requires b < 32
    ensures Bit(Shl32(x, k), b) <==> b >= k && Bit(x, b - k)
  {
    Pow2Values();
    ShrIsDiv(Shl(x, k), 32);
    BitLow(Shl(x, k), 32, b);
    BitShl(x, k, b);
  }

  lemma BitShr32(x: Word, k: nat, b: nat)
    ensures Bit(Shr32(x, k), b) <==> b + k < 32 && Bit(x, b + k)
  {
    BitShr(x, k, b);
    Pow2Values();
    if b + k >= 32 { SmallBit(x, 32, b + k); }
  }

  lemma BitMask(nbits: nat, b: nat)
    requires b < 32
    ensures Bit(MaskI(nbits), b) <==> b < TopBits(nbits)
  {
    Pow2Values();
    MaskBit(TopBits(nbits), b);
  }

  /** `(x & ~m) | (y & m)`: y where the mask is set, x elsewhere. */
  function Merge(x: Word, y: Word, m: Word): Word {
    Or32(And32(x, Not32(m)), And32(y, m))
  }

  lemma MergeBit(x: Word, y: Word, m: Word, b: nat)
    requires b < 32
    ensures Bit(Merge(x, y, m), b) == if Bit(m, b) then Bit(y, b) else Bit(x, b)
  {
    BitNot(m, b);
    BitAnd(x, Not32(m), b); BitAnd(y, m, b);
    BitOr(And32(x, Not32(m)), And32(y, m), b);
  }

  /** Words agree when their bits do. */
  lemma SameWord(x: Word, y: Word)
    requires forall b :: 0 <= b < 32 ==> Bit(x, b) == Bit(y, b)
    ensures x == y
  {
    Pow2Values();
    BitsDetermine(x, y, 32);
  }

  // ---------------------------------------------------------------- insertion

  /** cur is `before` with the bits from lbit up to `end` replaced by the low bits of src. */
  ghost predicate Inserted(cur: seq<Word>, before: seq<Word>, src: seq<Word>, lbit: nat, end: nat)
    requires |cur| == |before| && lbit <= end <= lbit + 32 * |src|
  {
    forall k :: 0 <= k < 32 * |cur| ==>
      WBit(cur, k) == if lbit <= k < end then WBit(src, k - lbit) else WBit(before, k)
  }

  /** One word written: the bits from `end` to `end'`, all inside word w, are the new ones. */
  lemma InsertWord(cur: seq<Word>, before: seq<Word>, src: seq<Word>, lbit: nat, end: nat, end': nat, w: nat, x: Word)
    requires |cur| == |before| && w < |cur| && lbit <= end <= end' <= lbit + 32 * |src|
    requires end < end' ==> 32 * w <= end && end' <= 32 * w + 32
    requires Inserted(cur, before, src, lbit, end)
    requires forall b :: 0 <= b < 32 ==>
      Bit(x, b) == if end <= 32 * w + b < end' then WBit(src, 32 * w + b - lbit) else Bit(cur[w], b)
    ensures Inserted(cur[w := x], before, src, lbit, end')
  {
    var cur' := cur[w := x];
    forall k | 0 <= k < 32 * |cur|
      ensures WBit(cur', k) == if lbit <= k < end' then WBit(src, k - lbit) else WBit(before, k)
    {
      assert WBit(cur, k) == if lbit <= k < end then WBit(src, k - lbit) else WBit(before, k);
      if k / 32 == w { assert k == 32 * w + k % 32; }
    }
  }

  function Min(x: int, y: int): int { if x < y then x else y }

  lemma WordBit(ws: seq<Word>, i: nat, b: nat)
    requires i < |ws| && b < 32
    ensures WBit(ws, 32 * i + b) == Bit(ws[i], b)
  {
    assert (32 * i + b) / 32 == i && (32 * i + b) % 32 == b;
  }

  /** A whole word copied to an aligned place. */
  lemma CopyWord(cur: seq<Word>, before: seq<Word>, src: seq<Word>, lbit: nat, i: nat)
    requires |cur| == |before| && lbit % 32 == 0 && i < |src| && lbit / 32 + i < |cur|
    requires Inserted(cur, before, src, lbit, lbit + 32 * i)
    ensures Inserted(cur[lbit / 32 + i := src[i]], before, src, lbit, lbit + 32 * i + 32)
  {
    var w := lbit / 32 + i;
    forall b | 0 <= b < 32 ensures WBit(src, 32 * w + b - lbit) == Bit(src[i], b) { WordBit(src, i, b); }
    InsertWord(cur, before, src, lbit, lbit + 32 * i, lbit + 32 * i + 32, w, src[i]);
  }

  // ---------------------------------------------------------------- unaligned insertion

  /** `(VL_MASK_I(31-loffset+1)) << loffset`: ones from loffset up. */
  function LowMask(loffset: nat): Word
    requires loffset < 32
  {
    Shl32(MaskI(31 - loffset + 1), loffset)
  }

  lemma LowMaskBit(loffset: nat, b: nat)
    requires 0 < loffset < 32 && b < 32
    ensures Bit(LowMask(loffset), b) <==> b >= loffset
  {
    var n := 31 - loffset + 1;
    assert TopBits(n) == n;
    BitShl32(MaskI(n), loffset, b);
    if b >= loffset { BitMask(n, b - loffset); }
  }

  /** What the C code stores into the word where the run of word i begins. */
  function LowerWord(was: Word, d: Word, loffset: nat, top: bool, hbit: nat): Word
    requires loffset < 32
  {
    var od := Merge(was, Shl32(d, loffset), LowMask(loffset));
    if top then Merge(was, od, MaskI(hbit % 32 + 1)) else od
  }

  /** And into the next one. */
  function UpperWord(was: Word, d: Word, loffset: nat, top: bool, hbit: nat): Word
    requires loffset < 32
  {
    var od := Merge(Shr32(d, 32 - loffset), was, LowMask(loffset));
    if top then Merge(was, od, MaskI(hbit % 32 + 1)) else od
  }

  /** Merging under the mask of the top word keeps the bits above hbit. */
  lemma TopMerge(was: Word, od: Word, hbit: nat, b: nat)
    requires b < 32
    ensures Bit(Merge(was, od, MaskI(hbit % 32 + 1)), b) == if b <= hbit % 32 then Bit(od, b) else Bit(was, b)
  {
    MergeBit(was, od, MaskI(hbit % 32 + 1), b);
    TopBitsNext(hbit);
    BitMask(hbit % 32 + 1, b);
  }

  lemma TopBitsNext(hbit: nat)
    ensures TopBits(hbit % 32 + 1) == hbit % 32 + 1
  {
  }

  lemma LowerBit(was: Word, d: Word, loffset: nat, top: bool, hbit: nat, b: nat)
    requires 0 < loffset < 32 && b < 32
    ensures Bit(LowerWord(was, d, loffset, top, hbit), b) ==
            if b >= loffset && (top ==> b <= hbit % 32) then Bit(d, b - loffset) else Bit(was, b)
  {
    var sh := Shl32(d, loffset);
    var od := Merge(was, sh, LowMask(loffset));
    assert Bit(od, b) == if b >= loffset then Bit(d, b - loffset) else Bit(was, b) by {
      MergeBit(was, sh, LowMask(loffset), b);
      LowMaskBit(loffset, b);
      BitShl32(d, loffset, b);
    }
    TopMerge(was, od, hbit, b);
  }

  lemma UpperBit(was: Word, d: Word, loffset: nat, top: bool, hbit: nat, b: nat)
    requires 0 < loffset < 32 && b < 32
    ensures Bit(UpperWord(was, d, loffset, top, hbit), b) ==
            if b < loffset && (top ==> b <= hbit % 32) then Bit(d, b + 32 - loffset) else Bit(was, b)
  {
    var sh := Shr32(d, 32 - loffset);
    var od := Merge(sh, was, LowMask(loffset));
    assert Bit(od, b) == if b < loffset then Bit(d, b + 32 - loffset) else Bit(was, b) by {
      MergeBit(sh, was, LowMask(loffset), b);
      LowMaskBit(loffset, b);
      BitShr32(d, 32 - loffset, b);
    }
    TopMerge(was, od, hbit, b);
  }

  /** The last, partial word of an aligned run. */
  lemma CopyTop(cur: seq<Word>, before: seq<Word>, src: seq<Word>, lbit: nat, hbit: nat, i: nat)
    requires |cur| == |before| && lbit % 32 == 0 && i < |src| && lbit / 32 + i < |cur|
    requires lbit + 32 * i <= hbit < lbit + 32 * i + 32
    requires Inserted(cur, before, src, lbit, lbit + 32 * i)
    ensures var w := lbit / 32 + i;
      Inserted(cur[w := Merge(cur[w], src[i], MaskI(hbit % 32 + 1))], before, src, lbit, hbit + 1)
  {
    var w := lbit / 32 + i;
    var x := Merge(cur[w], src[i], MaskI(hbit % 32 + 1));
    assert 32 * w == lbit + 32 * i && hbit == 32 * w + hbit % 32;
    forall b | 0 <= b < 32
      ensures Bit(x, b) == if 32 * w <= 32 * w + b < hbit + 1 then WBit(src, 32 * w + b - lbit) else Bit(cur[w], b)
    {
      TopMerge(cur[w], src[i], hbit, b);
      WordBit(src, i, b);
      assert 32 * w + b - lbit == 32 * i + b;
    }
    InsertWord(cur, before, src, lbit, 32 * w, hbit + 1, w, x);
  }

  lemma InsertLower(cur: seq<Word>, before: seq<Word>, src: seq<Word>, lbit: nat, hbit: nat, i: nat)
    requires |cur| == |before| && lbit % 32 != 0 && i < |src| && hbit / 32 < |cur|
    requires lbit + 32 * i <= hbit < lbit + 32 * |src|
    requires Inserted(cur, before, src, lbit, lbit + 32 * i)
    ensures var w := lbit / 32 + i;
      Inserted(cur[w := LowerWord(cur[w], src[i], lbit % 32, w == hbit / 32, hbit)], before, src, lbit,
               Min(hbit + 1, 32 * (w + 1)))
  {
    var w := lbit / 32 + i;
    var loffset := lbit % 32;
    var end, end' := lbit + 32 * i, Min(hbit + 1, 32 * (w + 1));
    var x := LowerWord(cur[w], src[i], loffset, w == hbit / 32, hbit);
    forall b | 0 <= b < 32
      ensures Bit(x, b) == if end <= 32 * w + b < end' then WBit(src, 32 * w + b - lbit) else Bit(cur[w], b)
    {
      LowerBit(cur[w], src[i], loffset, w == hbit / 32, hbit, b);
      if b >= loffset {
        WordBit(src, i, b - loffset);
        assert 32 * w + b - lbit == 32 * i + (b - loffset);
      }
    }
    InsertWord(cur, before, src, lbit, end, end', w, x);
  }

  lemma InsertUpper(cur: seq<Word>, before: seq<Word>, src: seq<Word>, lbit: nat, hbit: nat, i: nat)
    requires |cur| == |before| && lbit % 32 != 0 && i < |src| && lbit / 32 + i + 1 <= hbit / 32 < |cur|
    requires hbit < lbit + 32 * |src|
    requires Inserted(cur, before, src, lbit, 32 * (lbit / 32 + i + 1))
    ensures var w := lbit / 32 + i + 1;
      Inserted(cur[w := UpperWord(cur[w], src[i], lbit % 32, w == hbit / 32, hbit)], before, src, lbit,
               Min(hbit + 1, lbit + 32 * (i + 1)))
  {
    var w := lbit / 32 + i + 1;
    var loffset := lbit % 32;
    var end, end' := 32 * w, Min(hbit + 1, lbit + 32 * (i + 1));
    var x := UpperWord(cur[w], src[i], loffset, w == hbit / 32, hbit);
    forall b | 0 <= b < 32
      ensures Bit(x, b) == if end <= 32 * w + b < end' then WBit(src, 32 * w + b - lbit) else Bit(cur[w], b)
    {
      UpperBit(cur[w], src[i], loffset, w == hbit / 32, hbit, b);
      if b < loffset {
        WordBit(src, i, b + 32 - loffset);
        assert 32 * w + b - lbit == 32 * i + (b + 32 - loffset);
      }
    }
    InsertWord(cur, before, src, lbit, end, end', w, x);
  }

  /** `_VL_INSERT_WW`: the bits lbit to hbit become the low bits of lwp; no other changes. */
  method InsertWW(owp: array<Word>, lwp: array<Word>, hbit: nat, lbit: nat)
    requires lbit <= hbit && hbit / 32 < owp.Length && WordsI(hbit - lbit + 1) <= lwp.Length && owp != lwp
    modifies owp
    ensures Inserted(owp[..], old(owp[..]), lwp[..], lbit, hbit + 1)
  {
    var hoffset, loffset, lword := hbit % 32, lbit % 32, lbit / 32;
    var words := WordsI(hbit - lbit + 1);
    ghost var before, src := owp[..], lwp[..];
    if hoffset == 31 && loffset == 0 {
      for i := 0 to words
        invariant Inserted(owp[..], before, src, lbit, lbit + 32 * i)
      {
        ghost var cur := owp[..];
        CopyWord(cur, before, src, lbit, i);
        owp[lword + i] := lwp[i];
        assert owp[..] == cur[lword + i := src[i]];
      }
      assert lbit + 32 * words == hbit + 1;
    } else if loffset == 0 {
      InsertAligned(owp, lwp, hbit, lbit);
    } else {
      InsertUnaligned(owp, lwp, hbit, lbit);
    }
  }

  /** The second path: whole words, then part of the last one. */
  method InsertAligned(owp: array<Word>, lwp: array<Word>, hbit: nat, lbit: nat)
    requires lbit <= hbit && hbit / 32 < owp.Length && WordsI(hbit - lbit + 1) <= lwp.Length && owp != lwp
    requires lbit % 32 == 0
    modifies owp
    ensures Inserted(owp[..], old(owp[..]), lwp[..], lbit, hbit + 1)
  {
    var lword, words := lbit / 32, WordsI(hbit - lbit + 1);
    ghost var before, src := owp[..], lwp[..];
    for i := 0 to words - 1
      invariant Inserted(owp[..], before, src, lbit, lbit + 32 * i)
    {
      ghost var cur := owp[..];
      CopyWord(cur, before, src, lbit, i);
      owp[lword + i] := lwp[i];
      assert owp[..] == cur[lword + i := src[i]];
    }
    ghost var cur := owp[..];
    CopyTop(cur, before, src, lbit, hbit, words - 1);
    owp[lword + words - 1] := Merge(owp[words + lword - 1], lwp[words - 1], MaskI(hbit % 32 + 1));
    assert owp[..] == cur[lword + words - 1 := owp[lword + words - 1]];
  }

  /** One source word of the third path: it lands in two output words. */
  method InsertWordUnaligned(owp: array<Word>, lwp: array<Word>, hbit: nat, lbit: nat, i: nat, ghost before: seq<Word>)
    requires hbit / 32 < owp.Length == |before| && i < lwp.Length && owp != lwp
    requires lbit % 32 != 0 && lbit + 32 * i <= hbit < lbit + 32 * lwp.Length
    requires Inserted(owp[..], before, lwp[..], lbit, lbit + 32 * i)
    modifies owp
    ensures Inserted(owp[..], before, lwp[..], lbit, Min(hbit + 1, lbit + 32 * (i + 1)))
  {
    var loffset, lword, hword := lbit % 32, lbit / 32, hbit / 32;
    ghost var cur, src := owp[..], lwp[..];
    InsertLower(cur, before, src, lbit, hbit, i);
    var oword := lword + i;
    owp[oword] := LowerWord(owp[oword], lwp[i], loffset, oword == hword, hbit);
    assert owp[..] == cur[oword := owp[oword]];
    oword := lword + i + 1;
    if oword <= hword {
      ghost var mid := owp[..];
      InsertUpper(mid, before, src, lbit, hbit, i);
      owp[oword] := UpperWord(owp[oword], lwp[i], loffset, oword == hword, hbit);
      assert owp[..] == mid[oword := owp[oword]];
    }
  }

  /** The third path: no word boundaries meet. */
  method InsertUnaligned(owp: array<Word>, lwp: array<Word>, hbit: nat, lbit: nat)
    requires lbit <= hbit && hbit / 32 < owp.Length && WordsI(hbit - lbit + 1) <= lwp.Length && owp != lwp
    requires lbit % 32 != 0
    modifies owp
    ensures Inserted(owp[..], old(owp[..]), lwp[..], lbit, hbit + 1)
  {
    var words := WordsI(hbit - lbit + 1);
    ghost var before := owp[..];
    WordsTop(hbit - lbit + 1);
    for i := 0 to words
      invariant Inserted(owp[..], before, lwp[..], lbit, Min(hbit + 1, lbit + 32 * i))
    {
      InsertWordUnaligned(owp, lwp, hbit, lbit, i, before);
    }
  }
}
