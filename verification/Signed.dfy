/** Signed multiplication, division and modulus of wide values: sign and magnitude
    around the unsigned routines, read back in two's complement (IEEE 1364-2005
    section 5.1.5: division truncates toward zero, the modulus takes the sign of the
    dividend). */
module Signed {
  import opened Bits
  import opened Words
  import opened WideArith
  import opened KnuthDivide

  // ---------------------------------------------------------------- numbers modulo 2^n

  /** What n bits keep of x, negative or not; Mod2IsMod gives its meaning. */
  function Mod2(x: int, n: nat): (r: nat)
    ensures r < Pow2(n)
    decreases n
  {
    if n == 0 then 0 else x % 2 + 2 * Mod2(x / 2, n - 1)
  }

  /** k times 2^n. */
  function Scale(k: int, n: nat): int {
    if n == 0 then k else 2 * Scale(k, n - 1)
  }

  lemma {:induction false} ScaleIsMul(k: int, n: nat)
    ensures Scale(k, n) == k * Pow2(n)
  {
    if n > 0 {
      ScaleIsMul(k, n - 1);
      MulAssoc(k, 2, Pow2(n - 1));
    }
  }

  lemma {:induction false} ScaleSub(j: int, k: int, n: nat)
    ensures Scale(j - k, n) == Scale(j, n) - Scale(k, n)
    ensures Scale(-k, n) == -Scale(k, n)
  {
    if n > 0 { ScaleSub(j, k, n - 1); }
  }

  lemma {:induction false} ScaleMul(k: int, z: int, n: nat)
    ensures Scale(k * z, n) == Scale(k, n) * z
  {
    if n > 0 {
      ScaleMul(k, z, n - 1);
      MulAssoc(2, Scale(k, n - 1), z);
    }
  }

  lemma {:induction false} ScaleScale(k: int, m: nat, n: nat)
    ensures Scale(Scale(k, m), n) == Scale(k, m + n)
  {
    if n > 0 { ScaleScale(k, m, n - 1); }
  }

  lemma {:induction false} ScaleOne(n: nat)
    ensures Scale(1, n) == Pow2(n)
  {
    if n > 0 { ScaleOne(n - 1); }
  }

  lemma {:induction false} AtIsScale(k: int, i: nat)
    ensures At(k, i) == Scale(k, 32 * i)
  {
    if i > 0 {
      AtIsScale(k, i - 1);
      var x := Scale(k, 32 * (i - 1));
      ScaleScale(k, 32 * (i - 1), 32);
      ScaleIsMul(x, 32);
      Pow2Values();
    }
  }

  lemma {:induction false} Mod2Shift(x: int, k: int, n: nat)
    ensures Mod2(x + Scale(k, n), n) == Mod2(x, n)
    decreases n
  {
    if n > 0 {
      var h := Scale(k, n - 1);
      assert (x + 2 * h) % 2 == x % 2 && (x + 2 * h) / 2 == x / 2 + h;
      Mod2Shift(x / 2, k, n - 1);
    }
  }

  lemma {:induction false} Mod2Small(x: nat, n: nat)
    requires x < Pow2(n)
    ensures Mod2(x, n) == x
  {
    if n > 0 { Mod2Small(x / 2, n - 1); }
  }

  lemma {:induction false} Mod2Quotient(x: int, n: nat) returns (k: int)
    ensures x == Mod2(x, n) + Scale(k, n)
    decreases n
  {
    if n == 0 { k := x; } else { k := Mod2Quotient(x / 2, n - 1); }
  }

  lemma Mod2IsMod(x: int, n: nat)
    ensures Mod2(x, n) == x % Pow2(n)
  {
    var k := Mod2Quotient(x, n);
    ScaleIsMul(k, n);
    ModIs(x, Pow2(n), k, Mod2(x, n));
  }

  lemma ModIs(x: int, p: nat, k: int, m: nat)
    requires x == m + k * p && m < p
    ensures m == x % p
  {
    DivUnique(x, p, k, m);
  }

  lemma {:induction false} LowIsMod2(x: nat, n: nat)
    ensures Low(x, n) == Mod2(x, n)
  {
    if n > 0 { LowIsMod2(x / 2, n - 1); }
  }

  /** Two numbers with the same low n bits. */
  ghost predicate Same(x: int, y: int, n: nat) {
    Mod2(x, n) == Mod2(y, n)
  }

  lemma SameBy(x: int, y: int, k: int, n: nat)
    requires x == y + Scale(k, n)
    ensures Same(x, y, n)
  {
    Mod2Shift(y, k, n);
  }

  lemma SameGap(x: int, y: int, n: nat) returns (k: int)
    requires Same(x, y, n)
    ensures x == y + Scale(k, n)
  {
    var a := Mod2Quotient(x, n);
    var b := Mod2Quotient(y, n);
    k := a - b;
    ScaleSub(a, b, n);
  }

  lemma SameNeg(x: int, y: int, n: nat)
    requires Same(x, y, n)
    ensures Same(-x, -y, n)
  {
    var k := SameGap(x, y, n);
    ScaleSub(0, k, n);
    SameBy(-x, -y, -k, n);
  }

  lemma SameMod2(x: int, n: nat)
    ensures Same(Mod2(x, n), x, n)
  {
    Mod2Small(Mod2(x, n), n);
  }

  /** Dropping words above the n bits changes nothing in them. */
  lemma SameWrap(x: int, words: nat, n: nat)
    requires n <= 32 * words
    ensures Same(Wrap(x, words), x, n)
  {
    var k := WrapSplit(x, words);
    AtIsScale(k, words);
    ScaleScale(k, 32 * words - n, n);
    SameBy(x, Wrap(x, words), Scale(k, 32 * words - n), n);
  }

  // ---------------------------------------------------------------- two's complement

  /** The signed reading of an lbits-wide value. */
  function SVal(lbits: nat, v: nat): int
    requires lbits > 0
  {
    if v >= Pow2(lbits - 1) then v - Pow2(lbits) else v
  }

  function Abs(x: int): nat { if x < 0 then -x else x }

  /** Division truncating toward zero, and the remainder that goes with it. */
  function TruncDiv(l: int, r: int): int
    requires r != 0
  {
    var q := Abs(l) / Abs(r);
    if (l < 0) != (r < 0) then -q else q
  }

  function TruncRem(l: int, r: int): int
    requires r != 0
  {
    var m := Abs(l) % Abs(r);
    if l < 0 then -m else m
  }

  lemma TruncIdentity(l: int, r: int)
    requires r != 0
    ensures l == TruncDiv(l, r) * r + TruncRem(l, r)
    ensures Abs(TruncRem(l, r)) < Abs(r)
    ensures TruncRem(l, r) == 0 || (TruncRem(l, r) < 0 <==> l < 0)
  {
    TruncParts(l, r);
    RemSmall(Abs(l), Abs(r), Abs(l) % Abs(r));
  }

  lemma RemSmall(a: nat, b: nat, m: int)
    requires b > 0 && m == a % b
    ensures 0 <= m < b
  {
  }

  lemma TruncParts(l: int, r: int)
    requires r != 0
    ensures l == TruncDiv(l, r) * r + TruncRem(l, r)
  {
    var a, b := Abs(l), Abs(r);
    QuotRem(a, b);
    SignedParts(l, r, Quot(a, b), Rem(a, b));
  }

  lemma SignedParts(l: int, r: int, q: int, m: int)
    requires r != 0 && Abs(l) == Abs(r) * q + m
    ensures l == (if (l < 0) != (r < 0) then -q else q) * r + if l < 0 then -m else m
  {
    SignRules(q, Abs(r));
  }

  lemma SignRules(q: int, b: int)
    ensures (-q) * b == -(b * q) && q * (-b) == -(b * q) && (-q) * (-b) == b * q == q * b
  {
  }

  /** Negating a value with its top bit set, and keeping lbits of it, gives its magnitude. */
  lemma Magnitude(lbits: nat, v: nat)
    requires lbits > 0 && v < Pow2(lbits)
    ensures Abs(SVal(lbits, v)) == if v >= Pow2(lbits - 1) then Mod2(0 - v, lbits) else v
    ensures Abs(SVal(lbits, v)) <= Pow2(lbits - 1)
  {
    if v >= Pow2(lbits - 1) {
      ScaleOne(lbits);
      Mod2Shift(0 - v, 1, lbits);
      Mod2Small(Pow2(lbits) - v, lbits);
    }
  }

  // ---------------------------------------------------------------- the sign of a clean value

  /** `VL_SIGN_I`, on the most significant word. */
  function SignI(lbits: nat, top: Word): Word
    requires lbits > 0
  {
    Shr32(top, (lbits - 1) % 32)
  }

  lemma TopWordOf(ws: seq<Word>)
    requires |ws| > 0
    ensures Shr(Val(ws), 32 * (|ws| - 1)) == ws[|ws| - 1]
  {
    var n := |ws| - 1;
    ValLast(ws[..n], ws[n], ws);
    ValBound(ws[..n]);
    WPow2(n);
    AtShl(ws[n], n);
    Glue(Val(ws[..n]), ws[n], 32 * n);
  }

  lemma HalfBit(v: nat, n: nat)
    requires v < Pow2(n + 1)
    ensures Shr(v, n) == if v >= Pow2(n) then 1 else 0
  {
    ShrBound(v, 1, n);
    assert Pow2(1) == 2;
    Split(v, n);
    ShlOne(n);
  }

  /** On a clean value the sign is 0 or 1: whether the signed reading is negative. */
  lemma SignIs(lbits: nat, ws: seq<Word>)
    requires lbits > 0 && Clean(lbits, ws)
    ensures |ws| > 0 && SignI(lbits, ws[|ws| - 1]) == if SVal(lbits, Val(ws)) < 0 then 1 else 0
  {
    WordsTop(lbits);
    TopWordOf(ws);
    var n := 32 * (|ws| - 1);
    assert lbits - 1 == n + (lbits - 1) % 32;
    ShrShr(Val(ws), n, (lbits - 1) % 32);
    HalfBit(Val(ws), lbits - 1);
  }

  // ---------------------------------------------------------------- the wrappers

  /** `_VL_CLEAN_INPLACE_W`. */
  method CleanInplace(obits: nat, owp: array<Word>)
    requires obits > 0 && WordsI(obits) <= owp.Length
    modifies owp
    ensures ArrVal(owp, WordsI(obits)) == Mod2(old(ArrVal(owp, WordsI(obits))), obits)
    ensures forall i :: WordsI(obits) <= i < owp.Length ==> owp[i] == old(owp[i])
  {
    var words := WordsI(obits);
    WordsTop(obits);
    ghost var ws := owp[..words];
    CleanIsLow(ws, obits);
    LowIsMod2(Val(ws), obits);
    owp[words - 1] := And32(owp[words - 1], MaskI(obits));
    assert owp[..words] == ws[words - 1 := owp[words - 1]];
  }

  /** `_VL_CLEAN_INPLACE_W(lbits, VL_NEGATE_W(words, dst, src))`. */
  method NegateClean(lbits: nat, dst: array<Word>, src: array<Word>)
    requires lbits > 0 && WordsI(lbits) <= dst.Length && WordsI(lbits) <= src.Length
    modifies dst
    ensures ArrVal(dst, WordsI(lbits)) == Mod2(0 - old(ArrVal(src, WordsI(lbits))), lbits)
    ensures forall i :: WordsI(lbits) <= i < dst.Length ==> dst[i] == old(dst[i])
  {
    var words := WordsI(lbits);
    ghost var v: int := ArrVal(src, words);
    NegateW(words, dst, src);
    SameWrap(0 - v, words, lbits);
    CleanInplace(lbits, dst);
  }

  /** The signed number in the first words of an array. */
  ghost function SArr(lbits: nat, a: array<Word>): int
    reads a
    requires lbits > 0 && WordsI(lbits) <= a.Length
  {
    SVal(lbits, ArrVal(a, WordsI(lbits)))
  }

  ghost predicate CleanArr(lbits: nat, a: array<Word>)
    reads a
  {
    0 < lbits && WordsI(lbits) <= a.Length && ArrVal(a, WordsI(lbits)) < Pow2(lbits)
  }

  /** The operand itself, or a negated copy of it in a local buffer, and its sign. */
  method SignMagnitude(lbits: nat, wp: array<Word>) returns (neg: Word, usp: array<Word>)
    requires CleanArr(lbits, wp) && WordsI(lbits) <= MAX_WORDS
    ensures usp == wp || fresh(usp)
    ensures WordsI(lbits) <= usp.Length && ArrVal(usp, WordsI(lbits)) == Abs(SArr(lbits, wp))
    ensures neg == if SArr(lbits, wp) < 0 then 1 else 0
  {
    var words := WordsI(lbits);
    WordsTop(lbits);
    ghost var v := ArrVal(wp, words);
    SignIs(lbits, wp[..words]);
    Magnitude(lbits, v);
    neg := SignI(lbits, wp[words - 1]);
    usp := wp;
    if neg != 0 {
      usp := new Word[MAX_WORDS];
      NegateClean(lbits, usp, wp);
    }
  }

  /** The product of signed numbers; SignedMulIs says that it is one. */
  function SignedMul(l: int, r: int): int {
    if r < 0 then -Times(l, -r) else Times(l, r)
  }

  lemma SignedMulIs(l: int, r: int)
    ensures SignedMul(l, r) == l * r
  {
    TimesIs(l, Abs(r));
    SignRules(l, Abs(r));
  }

  /** The product of the magnitudes, reduced to words and then to lbits. */
  ghost predicate Reduced(o: int, a: nat, b: nat, words: nat, lbits: nat) {
    o == Mod2(Wrap(Times(a, b), words), lbits)
  }

  lemma ProductResult(l: int, r: int, o: int, words: nat, lbits: nat, negate: bool)
    requires Reduced(o, Abs(l), Abs(r), words, lbits) && lbits <= 32 * words
    requires negate == ((l < 0) != (r < 0))
    ensures Same(if negate then Wrap(0 - o, words) else o, SignedMul(l, r), lbits)
  {
    var prod := Times(Abs(l), Abs(r));
    TimesIs(Abs(l), Abs(r));
    SignedMulIs(l, r);
    SignRules(Abs(l), Abs(r));
    SameWrap(prod, words, lbits);
    SameMod2(Wrap(prod, words), lbits);
    SameNeg(o, prod, lbits);
    SameWrap(0 - o, words, lbits);
  }

  method MulClean(lbits: nat, owp: array<Word>, lwp: array<Word>, rwp: array<Word>)
    requires lbits > 0 && WordsI(lbits) <= owp.Length && WordsI(lbits) <= lwp.Length && WordsI(lbits) <= rwp.Length
    requires owp != lwp && owp != rwp
    modifies owp
    ensures Reduced(ArrVal(owp, WordsI(lbits)), ArrVal(lwp, WordsI(lbits)), ArrVal(rwp, WordsI(lbits)),
                    WordsI(lbits), lbits)
  {
    TimesIs(ArrVal(lwp, WordsI(lbits)), ArrVal(rwp, WordsI(lbits)));
    MulW(WordsI(lbits), owp, lwp, rwp);
    CleanInplace(lbits, owp);
  }

  method MulsW(lbits: nat, owp: array<Word>, lwp: array<Word>, rwp: array<Word>)
    requires CleanArr(lbits, lwp) && CleanArr(lbits, rwp) && WordsI(lbits) <= MAX_WORDS
    requires WordsI(lbits) <= owp.Length && owp != lwp && owp != rwp
    modifies owp
    ensures Same(ArrVal(owp, WordsI(lbits)), SignedMul(SArr(lbits, lwp), SArr(lbits, rwp)), lbits)
  {
    var words := WordsI(lbits);
    ghost var l, r := SArr(lbits, lwp), SArr(lbits, rwp);
    var lneg, lwusp := SignMagnitude(lbits, lwp);
    var rneg, rwusp := SignMagnitude(lbits, rwp);
    MulClean(lbits, owp, lwusp, rwusp);
    ghost var o: int := ArrVal(owp, words);
    ghost var negate: bool := (lneg + rneg) % 2 == 1;
    ProductResult(l, r, o, words, lbits, negate);
    if (lneg + rneg) % 2 == 1 {
      NegateW(words, owp, owp);
    }
  }

  /** The quotient of the magnitudes needs no more bits than the operands. */
  lemma QuotientSmall(a: nat, b: nat)
    ensures ModDiv(a, b, false) <= a && ModDiv(a, b, true) <= a
    ensures ModDiv(a, b, false) >= 0 && ModDiv(a, b, true) >= 0
  {
    if b > 0 {
      QuotRem(a, b);
      var q := Quot(a, b);
      MulMono(1, b, q);
    }
  }

  /** Signed division, with 0 for a division by 0. */
  function SignedDiv(l: int, r: int): int { if r == 0 then 0 else TruncDiv(l, r) }
  function SignedRem(l: int, r: int): int { if r == 0 then 0 else TruncRem(l, r) }

  method DivsW(lbits: nat, owp: array<Word>, lwp: array<Word>, rwp: array<Word>)
    requires CleanArr(lbits, lwp) && CleanArr(lbits, rwp) && WordsI(lbits) <= MAX_WORDS
    requires WordsI(lbits) <= owp.Length && owp != lwp && owp != rwp
    modifies owp
    ensures ArrVal(owp, WordsI(lbits)) == Mod2(SignedDiv(SArr(lbits, lwp), SArr(lbits, rwp)), lbits)
  {
    ghost var l, r := SArr(lbits, lwp), SArr(lbits, rwp);
    var lsign, ltup := SignMagnitude(lbits, lwp);
    var rsign, rtup := SignMagnitude(lbits, rwp);
    DivisionResult(lbits, ArrVal(lwp, WordsI(lbits)), l, r);
    if (lsign != 0 && rsign == 0) || (lsign == 0 && rsign != 0) {
      var qNoSign := new Word[MAX_WORDS];
      ModDivW(lbits, qNoSign, ltup, rtup, false);
      NegateClean(lbits, owp, qNoSign);
    } else {
      ModDivW(lbits, owp, ltup, rtup, false);
    }
  }

  method ModDivsW(lbits: nat, owp: array<Word>, lwp: array<Word>, rwp: array<Word>)
    requires CleanArr(lbits, lwp) && CleanArr(lbits, rwp) && WordsI(lbits) <= MAX_WORDS
    requires WordsI(lbits) <= owp.Length && owp != lwp && owp != rwp
    modifies owp
    ensures ArrVal(owp, WordsI(lbits)) == Mod2(SignedRem(SArr(lbits, lwp), SArr(lbits, rwp)), lbits)
  {
    ghost var l, r := SArr(lbits, lwp), SArr(lbits, rwp);
    var lsign, ltup := SignMagnitude(lbits, lwp);
    var rsign, rtup := SignMagnitude(lbits, rwp);
    DivisionResult(lbits, ArrVal(lwp, WordsI(lbits)), l, r);
    if lsign != 0 {
      var qNoSign := new Word[MAX_WORDS];
      ModDivW(lbits, qNoSign, ltup, rtup, true);
      NegateClean(lbits, owp, qNoSign);
    } else {
      ModDivW(lbits, owp, ltup, rtup, true);
    }
  }

  /** The unsigned results, negated where the C code does, are the signed results in lbits. */
  lemma DivisionResult(lbits: nat, v: nat, l: int, r: int)
    requires lbits > 0 && v < Pow2(lbits) && l == SVal(lbits, v)
    ensures var q := ModDiv(Abs(l), Abs(r), false);
      Mod2(if (l < 0) != (r < 0) then 0 - q else q, lbits) == Mod2(SignedDiv(l, r), lbits) && 0 <= q < Pow2(lbits)
    ensures var m := ModDiv(Abs(l), Abs(r), true);
      Mod2(if l < 0 then 0 - m else m, lbits) == Mod2(SignedRem(l, r), lbits) && 0 <= m < Pow2(lbits)
    ensures (l < 0) == (r < 0) ==> ModDiv(Abs(l), Abs(r), false) == Mod2(SignedDiv(l, r), lbits)
    ensures l >= 0 ==> ModDiv(Abs(l), Abs(r), true) == Mod2(SignedRem(l, r), lbits)
  {
    Magnitude(lbits, v);
    Pow2Mono(lbits - 1, lbits);
    QuotientSmall(Abs(l), Abs(r));
    SignedIs(l, r);
    var q: nat, m: nat := ModDiv(Abs(l), Abs(r), false), ModDiv(Abs(l), Abs(r), true);
    Mod2Small(q, lbits);
    Mod2Small(m, lbits);
  }

  lemma SignedIs(l: int, r: int)
    ensures var q := ModDiv(Abs(l), Abs(r), false); SignedDiv(l, r) == if (l < 0) != (r < 0) then -q else q
    ensures var m := ModDiv(Abs(l), Abs(r), true); SignedRem(l, r) == if l < 0 then -m else m
  {
  }

  /** l = q*r + m holds in lbits for what the two routines return, whenever r is not 0,
      the most negative number divided by -1 included. */
  lemma DivisionIdentity(lbits: nat, l: int, r: int, q: int, m: int)
    requires r != 0 && Same(q, SignedDiv(l, r), lbits) && Same(m, SignedRem(l, r), lbits)
    ensures Same(q * r + m, l, lbits)
  {
    TruncIdentity(l, r);
    SameIdentity(lbits, r, q, m, TruncDiv(l, r), TruncRem(l, r));
  }

  lemma SameIdentity(lbits: nat, r: int, q: int, m: int, td: int, tr: int)
    requires Same(q, td, lbits) && Same(m, tr, lbits)
    ensures Same(q * r + m, td * r + tr, lbits)
  {
    var j := SameGap(q, td, lbits);
    var k := SameGap(m, tr, lbits);
    var jr := j * r;
    ScaleMul(j, r, lbits);
    ScaleSub(jr, -k, lbits);
    ScaleSub(0, k, lbits);
    MulDist(r, td, Scale(j, lbits));
    SameBy(q * r + m, td * r + tr, jr + k, lbits);
  }
}
