/** Wide values: little-endian sequences of 32-bit words, and the number they stand for.
    `IData` is Word here, `QData` a number below Q; WordsI and MaskI are `VL_WORDS_I`
    and `VL_MASK_I`. */
module Words {
  import opened Bits

  const B := 0x1_0000_0000
  const Q := 0x1_0000_0000_0000_0000

  type Word = x: int | 0 <= x < 0x1_0000_0000

  /** Conversion to a 32-bit or 64-bit unsigned type: everything above is lost. */
  function U32(x: int): Word { x % B }
  function U64(x: int): nat { x % Q }

  /** `x * y` on 64 bits, by shifting and adding; Mul64IsProduct gives its meaning. */
  function Mul64(x: nat, y: nat): nat {
    if x == 0 then 0
    else U64(2 * Mul64(x / 2, y) + (if x % 2 == 1 then y else 0))
  }

  lemma {:induction false} Mul64IsProduct(x: nat, y: nat)
    ensures Mul64(x, y) == U64(x * y)
  {
    if x == 0 {
      assert x * y == 0;
    } else {
      Mul64IsProduct(x / 2, y);
      var add := if x % 2 == 1 then y else 0;
      Halve(x, y);
      DoubleMod((x / 2) * y, add);
    }
  }

  lemma Halve(x: nat, y: nat)
    ensures x * y == 2 * ((x / 2) * y) + (if x % 2 == 1 then y else 0)
  {
    var h := x / 2;
    if x % 2 == 1 {
      assert x == 2 * h + 1;
      assert (2 * h + 1) * y == 2 * (h * y) + y;
    } else {
      assert x == 2 * h;
      MulAssoc(2, h, y);
    }
  }

  lemma DoubleMod(p: int, add: int)
    ensures U64(2 * U64(p) + add) == U64(2 * p + add)
  {
  }

  lemma U32Id(x: int)
    requires 0 <= x < B
    ensures U32(x) == x
  {
  }

  lemma U64Id(x: int)
    requires 0 <= x < Q
    ensures U64(x) == x
  {
  }

  /** A 64-bit pattern read as a signed number. */
  function S64(x: int): int { if x % Q < Q / 2 then x % Q else x % Q - Q }

  /** `x & 0xffffffff`; Bits.AndMask says why this is a remainder. */
  function Low32(x: nat): Word { x % B }

  /** `~x` on 32 bits. */
  function Not32(x: Word): Word { B - 1 - x }

  function And32(x: Word, y: Word): Word { AndBound(x, y); And(x, y) }
  function Or32(x: Word, y: Word): Word { Pow2Values(); OrBound(x, y, 32); Or(x, y) }
  function Shl32(x: Word, k: nat): Word { U32(Shl(x, k)) }
  function Shr32(x: Word, k: nat): Word { ShrLe(x, k); Shr(x, k) }

  function WordsI(nbits: nat): nat { (nbits + 31) / 32 }

  /** A mask with ones where the bits of the last word matter (0 means all of them). */
  function MaskI(nbits: nat): Word {
    if nbits % 32 == 0 then B - 1
    else Pow2Values(); Pow2Mono(nbits % 32, 32); Pow2(nbits % 32) - 1
  }

  // ---------------------------------------------------------------- weights

  /** x times 2^(32 i): x at word i. */
  function At(x: int, i: nat): (r: int)
    ensures x >= 0 ==> r >= 0
  {
    if i == 0 then x else B * At(x, i - 1)
  }

  /** The weight of word i. */
  function W(i: nat): (w: nat)
    ensures w >= 1 && w == At(1, i)
  {
    if i == 0 then 1 else B * W(i - 1)
  }

  lemma {:induction false} AtAdd(x: int, y: int, i: nat)
    ensures At(x + y, i) == At(x, i) + At(y, i)
    ensures At(x - y, i) == At(x, i) - At(y, i)
  {
    if i > 0 { AtAdd(x, y, i - 1); }
  }

  lemma {:induction false} AtAt(x: int, i: nat, j: nat)
    ensures At(At(x, i), j) == At(x, i + j)
  {
    if j > 0 { AtAt(x, i, j - 1); }
  }

  lemma {:induction false} AtZero(i: nat)
    ensures At(0, i) == 0
  {
    if i > 0 { AtZero(i - 1); }
  }

  lemma {:induction false} AtMono(x: int, y: int, i: nat)
    requires x <= y
    ensures At(x, i) <= At(y, i)
    ensures x < y ==> At(x, i) + W(i) <= At(y, i)
  {
    if i > 0 { AtMono(x, y, i - 1); }
  }

  lemma {:induction false} AtIsMul(x: int, i: nat)
    ensures At(x, i) == x * W(i)
  {
    if i > 0 {
      AtIsMul(x, i - 1);
      MulAssoc(x, B, W(i - 1));
    }
  }

  lemma {:induction false} AtMul(x: int, y: int, i: nat)
    ensures At(x * y, i) == x * At(y, i)
  {
    if i > 0 {
      AtMul(x, y, i - 1);
      MulAssoc(x, B, At(y, i - 1));
    }
  }

  lemma ShlB(x: nat)
    ensures Shl(x, 32) == B * x
  {
    Pow2Values();
    ShlIsMul(x, 32);
  }

  lemma {:induction false} AtShl(x: nat, i: nat)
    ensures At(x, i) == Shl(x, 32 * i)
  {
    if i > 0 {
      AtShl(x, i - 1);
      ShlShl(x, 32 * (i - 1), 32);
      ShlB(Shl(x, 32 * (i - 1)));
    }
  }

  lemma WPow2(i: nat)
    ensures W(i) == Pow2(32 * i)
  {
    AtShl(1, i);
    ShlOne(32 * i);
  }

  // ---------------------------------------------------------------- values

  function Val(ws: seq<Word>): nat {
    if ws == [] then 0 else ws[0] + B * Val(ws[1..])
  }

  lemma {:induction false} ValConcat(a: seq<Word>, b: seq<Word>)
    ensures Val(a + b) == Val(a) + At(Val(b), |a|)
  {
    if a == [] {
      assert a + b == b;
    } else {
      assert (a + b)[1..] == a[1..] + b;
      ValConcat(a[1..], b);
    }
  }

  /** One more word of a longer sequence. */
  lemma ValNext(ws: seq<Word>, i: nat)
    requires i < |ws|
    ensures Val(ws[..i + 1]) == Val(ws[..i]) + At(ws[i], i)
  {
    assert ws[..i + 1] == ws[..i] + [ws[i]];
    assert [ws[i]][1..] == [];
    ValConcat(ws[..i], [ws[i]]);
  }

  lemma {:induction false} ValBound(ws: seq<Word>)
    ensures Val(ws) < W(|ws|)
  {
    if ws != [] { ValBound(ws[1..]); }
  }

  lemma {:induction false} ValZero(ws: seq<Word>)
    requires forall i :: 0 <= i < |ws| ==> ws[i] == 0
    ensures Val(ws) == 0
  {
    if ws != [] { ValZero(ws[1..]); }
  }

  lemma ValSplit(ws: seq<Word>, n: nat)
    requires n <= |ws|
    ensures Val(ws) == Val(ws[..n]) + At(Val(ws[n..]), n)
  {
    assert ws == ws[..n] + ws[n..];
    ValConcat(ws[..n], ws[n..]);
  }

  /** Zero words above do not change the value. */
  lemma ValHighZero(ws: seq<Word>, n: nat)
    requires n <= |ws| && forall i :: n <= i < |ws| ==> ws[i] == 0
    ensures Val(ws) == Val(ws[..n])
  {
    ValSplit(ws, n);
    ValZero(ws[n..]);
    AtZero(n);
  }

  lemma {:induction false} ValInjective(a: seq<Word>, b: seq<Word>)
    requires |a| == |b| && Val(a) == Val(b)
    ensures a == b
  {
    if a != [] {
      assert a[0] == b[0];
      ValInjective(a[1..], b[1..]);
      assert a == [a[0]] + a[1..] && b == [b[0]] + b[1..];
    }
  }

  lemma ValUpdate(ws: seq<Word>, k: nat, x: Word)
    requires k < |ws|
    ensures Val(ws[k := x]) == Val(ws) + At(x - ws[k], k)
  {
    var ws' := ws[k := x];
    ValSplit(ws, k + 1); ValSplit(ws', k + 1);
    ValNext(ws, k); ValNext(ws', k);
    AtAdd(x, ws[k], k);
    assert ws'[..k] == ws[..k] && ws'[k + 1..] == ws[k + 1..];
  }

  lemma ValOne(x: Word)
    ensures Val([x]) == x
  {
    assert [x][1..] == [];
  }

  lemma ValTwo(lo: Word, hi: Word)
    ensures Val([lo, hi]) == lo + B * hi
  {
    ValOne(hi);
    assert [lo, hi][1..] == [hi];
  }

  // ---------------------------------------------------------------- bits of wide values

  /** Bit k of a wide value: `VL_BITISSET_W`. */
  predicate WBit(ws: seq<Word>, k: nat)
    requires k / 32 < |ws|
  {
    Bit(ws[k / 32], k % 32)
  }

  lemma {:induction false} ValBit(ws: seq<Word>, k: nat)
    ensures Bit(Val(ws), k) <==> k / 32 < |ws| && WBit(ws, k)
  {
    if ws == [] {
      ZeroBit(k);
    } else {
      HeadBit(ws[0], Val(ws[1..]), k);
      if k >= 32 {
        ValBit(ws[1..], k - 32);
        assert k / 32 == (k - 32) / 32 + 1 && k % 32 == (k - 32) % 32;
      }
    }
  }

  lemma HeadBit(x: Word, v: nat, k: nat)
    ensures Bit(x + B * v, k) == if k < 32 then Bit(x, k) else Bit(v, k - 32)
  {
    Pow2Values();
    ShlB(v);
    BitGlue(x, v, 32, k);
  }

  // ---------------------------------------------------------------- clean values

  /** A value is clean when no bit at or above its width is set. */
  predicate Clean(nbits: nat, ws: seq<Word>) {
    |ws| == WordsI(nbits) && Val(ws) < Pow2(nbits)
  }

  lemma MaskIsLow(x: Word, nbits: nat)
    ensures And32(x, MaskI(nbits)) == Low(x, TopBits(nbits))
  {
    Pow2Values();
    AndMask(x, TopBits(nbits));
  }

  lemma {:induction false} LowLow(x: nat, y: nat, k: nat, n: nat)
    requires x < Pow2(k)
    ensures Low(x + Shl(y, k), k + n) == x + Shl(Low(y, n), k)
  {
    if k > 0 {
      var z := x + Shl(y, k);
      assert z / 2 == x / 2 + Shl(y, k - 1) && z % 2 == x % 2;
      LowLow(x / 2, y, k - 1, n);
    }
  }

  /** The number of bits of the last word that matter: 1 to 32. */
  function TopBits(nbits: nat): nat { if nbits % 32 == 0 then 32 else nbits % 32 }

  lemma TopLow(lo: nat, top: Word, n: nat, r: nat)
    requires lo < W(n)
    ensures lo + At(Low(top, r), n) == Low(lo + At(top, n), 32 * n + r)
  {
    WPow2(n);
    AtShl(top, n); AtShl(Low(top, r), n);
    LowLow(lo, top, 32 * n, r);
  }

  /** `owp[words-1] &= VL_MASK_I(nbits)` keeps the low nbits of the value. */
  lemma CleanIsLow(ws: seq<Word>, nbits: nat)
    requires nbits > 0 && |ws| == WordsI(nbits)
    ensures Val(ws[|ws| - 1 := And32(ws[|ws| - 1], MaskI(nbits))]) == Low(Val(ws), nbits)
  {
    WordsTop(nbits);
    var top := ws[|ws| - 1];
    MaskIsLow(top, nbits);
    CleanTop(ws, And32(top, MaskI(nbits)), nbits, TopBits(nbits));
  }

  lemma WordsTop(nbits: nat)
    requires nbits > 0
    ensures WordsI(nbits) > 0 && nbits == 32 * (WordsI(nbits) - 1) + TopBits(nbits)
    ensures 1 <= TopBits(nbits) <= 32
  {
  }

  lemma CleanTop(ws: seq<Word>, top: Word, nbits: nat, r: nat)
    requires |ws| > 0 && nbits == 32 * (|ws| - 1) + r && top == Low(ws[|ws| - 1], r)
    ensures Val(ws[|ws| - 1 := top]) == Low(Val(ws), nbits)
  {
    var n := |ws| - 1;
    var lo := ws[..n];
    ValBound(lo);
    TopLow(Val(lo), ws[n], n, r);
    ValLast(lo, ws[n], ws);
    ValLast(lo, top, ws[n := top]);
  }

  lemma ValLast(lo: seq<Word>, top: Word, ws: seq<Word>)
    requires ws == lo + [top]
    ensures Val(ws) == Val(lo) + At(top, |lo|)
  {
    ValNext(ws, |lo|);
    assert ws[..|lo|] == lo && ws[..|lo| + 1] == ws;
  }
}
