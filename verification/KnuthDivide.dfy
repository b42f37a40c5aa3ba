/** `_vl_moddiv_w`: wide unsigned division and modulus, by Knuth's Algorithm D. */
module KnuthDivide {
  import opened Bits
  import opened Words
  import opened WideArith
  import opened KnuthDigit

  /** `VL_MULS_MAX_WORDS`: the size of the local buffers, less one. */
  const MAX_WORDS := 16

  // ---------------------------------------------------------------- most significant bit

  lemma TopBitBounds(x: Word, b: nat)
    requires b < 32 && Bit(x, b) && forall i :: b < i < 32 ==> !Bit(x, i)
    ensures Pow2(b) <= x < Pow2(b + 1)
  {
    Pow2Values();
    if x < Pow2(b) { SmallBit(x, b, b); }
    forall i | 0 <= i < 32 ensures Bit(Low(x, b + 1), i) == Bit(x, i) { BitLow(x, b + 1, i); }
    Pow2Mono(b + 1, 32);
    BitsDetermine(Low(x, b + 1), x, 32);
  }

  lemma NoBits(x: Word)
    requires forall i :: 0 <= i < 32 ==> !Bit(x, i)
    ensures x == 0
  {
    Pow2Values();
    forall i | 0 <= i < 32 ensures !Bit(0, i) { ZeroBit(i); }
    BitsDetermine(x, 0, 32);
  }

  /** p is the position of the most significant set bit of ws, plus one. */
  ghost predicate MsbP1(ws: seq<Word>, p: nat) {
    if p == 0 then forall k :: 0 <= k < |ws| ==> ws[k] == 0
    else
      && (p - 1) / 32 < |ws|
      && (forall k :: (p - 1) / 32 < k < |ws| ==> ws[k] == 0)
      && Pow2((p - 1) % 32) <= ws[(p - 1) / 32] < Pow2((p - 1) % 32 + 1)
  }

  method MostSetBitP1(words: nat, lwp: array<Word>) returns (p: nat)
    requires words <= lwp.Length
    ensures MsbP1(lwp[..words], p)
  {
    for i := words downto 0
      invariant forall k :: i <= k < words ==> lwp[k] == 0
    {
      if lwp[i] != 0 {
        for bit := 32 downto 0
          invariant forall b :: bit <= b < 32 ==> !Bit(lwp[i], b)
        {
          if Bit(lwp[i], bit) {
            TopBitBounds(lwp[i], bit);
            p := i * 32 + bit + 1;
            assert (p - 1) / 32 == i && (p - 1) % 32 == bit;
            return p;
          }
        }
        NoBits(lwp[i]);
        assert false;
      }
    }
    return 0;
  }

  // ---------------------------------------------------------------- one-word divisor

  /** The words of l from j up are q times d, plus the remainder k. */
  ghost predicate Divided(l: seq<Word>, q: seq<Word>, d: nat, k: nat) {
    Val(l) == Times(Val(q), d) + k && k < d
  }

  lemma DividedEmpty(d: nat)
    requires d > 0
    ensures Divided([], [], d, 0)
  {
    TimesIs(0, d);
  }

  lemma TimesCons(y: nat, v: nat, d: nat)
    ensures Times(y + B * v, d) == y * d + B * Times(v, d)
  {
    TimesIs(v, d); TimesIs(y + B * v, d);
    MulAssoc(B, v, d);
  }

  lemma OneWordQuotient(k: nat, x: Word, d: nat, n: nat)
    requires k < d <= B && n == k * B + x
    ensures Quot(n, d) < B
  {
    QuotRem(n, d);
    var y := Quot(n, d);
    assert n < d * B;
    if y >= B { MulMono(B, y, d); assert false; }
  }

  lemma DividedNext(l: seq<Word>, q: seq<Word>, d: Word, k: nat, x: Word, n: nat, y: nat)
    requires Divided(l, q, d, k) && n == k * B + x && d > 0 && y == Quot(n, d)
    ensures y < B && Divided([x] + l, [y] + q, d, Rem(n, d))
  {
    OneWordQuotient(k, x, d, n);
    QuotRem(n, d);
    assert ([x] + l)[1..] == l && ([y] + q)[1..] == q;
    TimesCons(y, Val(q), d);
  }

  /** `(k<<32) + x` on 64 bits. */
  function ShiftIn(k: Word, x: Word): (r: nat)
    ensures r == k * B + x < Q
  {
    U64Id(k * B);
    U64Id(k * B + x);
    U64(U64(k * B) + x)
  }

  /** The loop for a divisor of one word; k ends as the remainder. */
  method DivideByWord(owp: array<Word>, lwp: array<Word>, uw: nat, d: Word) returns (k: nat)
    requires uw <= owp.Length && uw <= lwp.Length && owp != lwp && d > 0
    modifies owp
    ensures Divided(lwp[..uw], owp[..uw], d, k)
    ensures forall i :: uw <= i < owp.Length ==> owp[i] == old(owp[i])
  {
    k := 0;
    DividedEmpty(d);
    assert lwp[uw..uw] == [] && owp[uw..uw] == [];
    for j := uw downto 0
      invariant k < d && Divided(lwp[j..uw], owp[j..uw], d, k)
      invariant forall i :: uw <= i < owp.Length ==> owp[i] == old(owp[i])
    {
      ghost var l, q := lwp[j + 1..uw], owp[j + 1..uw];
      var unw64 := ShiftIn(k, lwp[j]);
      var y := Quot(unw64, d);
      DividedNext(l, q, d, k, lwp[j], unw64, y);
      RestFits(unw64, d);
      U32Id(y);
      var digit := U32(y);
      owp[j] := digit;
      k := FirstRest(unw64, digit, d);
      assert owp[j + 1..uw] == q;
      assert owp[j..uw] == [owp[j]] + owp[j + 1..uw];
      assert lwp[j..uw] == [lwp[j]] + l;
    }
    assert lwp[0..uw] == lwp[..uw] && owp[0..uw] == owp[..uw];
  }

  // ---------------------------------------------------------------- normalisation

  /** `shift_mask`: keeps a shift by 32, which C leaves undefined, out of the result. */
  function ShiftMask(s: nat): Word { if s != 0 then 0xffff_ffff else 0 }

  /** `(hi << s) | (shift_mask & (lo >> (32-s)))`. */
  function UpWord(hi: Word, lo: Word, s: nat): Word
    requires s < 32
  {
    Or32(Shl32(hi, s), And32(ShiftMask(s), Shr32(lo, 32 - s)))
  }

  /** `(lo >> s) | (shift_mask & (hi << (32-s)))`. */
  function DownWord(lo: Word, hi: Word, s: nat): Word
    requires s < 32
  {
    Or32(Shr32(lo, s), And32(ShiftMask(s), Shl32(hi, 32 - s)))
  }

  /** The bits a word pushes into its upper neighbour when shifted up by s. */
  function Out(x: Word, s: nat): Word
    requires s < 32
  {
    Shr32(x, 32 - s)
  }

  lemma MaskAll(x: Word)
    ensures And32(0xffff_ffff, x) == x && And32(0, x) == 0
  {
    Pow2Values();
    forall i | 0 <= i < 32 ensures Bit(And(0xffff_ffff, x), i) == Bit(x, i) {
      BitAnd(0xffff_ffff, x, i); MaskBit(32, i);
    }
    AndBound(0xffff_ffff, x);
    BitsDetermine(And(0xffff_ffff, x), x, 32);
  }

  lemma Masked(x: Word, s: nat)
    requires s < 32 && (s == 0 ==> x == 0)
    ensures And32(ShiftMask(s), x) == x
  {
    MaskAll(x);
  }

  /** Shifting one word up: what stays, and what goes out. */
  lemma ShlParts(x: Word, s: nat)
    requires s < 32
    ensures Shl32(x, s) == Shl(Low(x, 32 - s), s)
    ensures Shl(x, s) == Shl32(x, s) + B * Out(x, s)
    ensures Out(x, s) < Pow2(s)
  {
    var lo, hi := Low(x, 32 - s), Shr(x, 32 - s);
    Pow2Values();
    Split(x, 32 - s);
    ShlAdd(lo, Shl(hi, 32 - s), s);
    ShlShl(hi, 32 - s, s);
    ShlB(hi);
    ShlBelow(lo, 32 - s, s);
    ShrBound(x, s, 32 - s);
    KeepLow(Shl(lo, s), hi);
  }

  lemma KeepLow(lo: nat, hi: nat)
    requires lo < B
    ensures U32(lo + B * hi) == lo
  {
  }

  lemma ShlBelow(x: nat, k: nat, s: nat)
    requires x < Pow2(k)
    ensures Shl(x, s) < Pow2(k + s)
  {
    ShlMono(x, Pow2(k), s);
    Pow2Add(k, s);
  }

  lemma UpWordIs(hi: Word, lo: Word, s: nat)
    requires s < 32
    ensures UpWord(hi, lo, s) == Shl32(hi, s) + Out(lo, s)
  {
    ShlParts(hi, s); ShlParts(lo, s);
    if s == 0 { Pow2Values(); ShrSmall(lo, 32); }
    Masked(Shr32(lo, 32 - s), s);
    OrGlue(Out(lo, s), Low(hi, 32 - s), s);
  }

  /** dst is src shifted up by s, word by word. */
  ghost predicate ShiftedUp(dst: seq<Word>, src: seq<Word>, s: nat)
    requires s < 32 && |dst| == |src|
  {
    forall i :: 0 <= i < |dst| ==> dst[i] == if i == 0 then Shl32(src[0], s) else UpWord(src[i], src[i - 1], s)
  }

  lemma ShiftedUpAt(dst: seq<Word>, src: seq<Word>, s: nat, i: nat)
    requires s < 32 && i < |dst| == |src| && ShiftedUp(dst, src, s)
    ensures dst[i] == if i == 0 then Shl32(src[0], s) else UpWord(src[i], src[i - 1], s)
  {
  }

  lemma {:induction false} ShiftedUpVal(dst: seq<Word>, src: seq<Word>, s: nat, n: nat)
    requires s < 32 && 0 < n <= |dst| == |src| && ShiftedUp(dst, src, s)
    ensures Val(dst[..n]) + At(Out(src[n - 1], s), n) == Shl(Val(src[..n]), s)
  {
    var x := src[n - 1];
    ValNext(dst, n - 1); ValNext(src, n - 1);
    WordShift(x, s, n - 1);
    ShlSum(Val(src[..n]), Val(src[..n - 1]), At(x, n - 1), s);
    ShiftedUpAt(dst, src, s, n - 1);
    if n == 1 {
      assert dst[..0] == [] && src[..0] == [];
      assert Val(dst[..0]) == 0 && Val(src[..0]) == 0;
      ShlOne(s);
    } else {
      var y := src[n - 2];
      ShiftedUpVal(dst, src, s, n - 1);
      UpWordIs(x, y, s);
      AtAdd(Shl32(x, s), Out(y, s), n - 1);
    }
  }

  lemma WordShift(x: Word, s: nat, i: nat)
    requires s < 32
    ensures Shl(At(x, i), s) == At(Shl32(x, s), i) + At(Out(x, s), i + 1)
  {
    AtShl(x, i);
    ShlShl(x, 32 * i, s); ShlShl(x, s, 32 * i);
    AtShl(Shl(x, s), i);
    ShlParts(x, s);
    var lo: int, hi: int := Shl32(x, s), Out(x, s);
    AtAdd(lo, B * hi, i);
    AtAt(hi, 1, i); AtAt(hi, i, 1);
  }

  method ShiftUp(dst: array<Word>, src: array<Word>, n: nat, s: nat)
    requires 0 < n <= dst.Length && n <= src.Length && s < 32 && dst != src
    modifies dst
    ensures ShiftedUp(dst[..n], src[..n], s)
    ensures forall i :: n <= i < dst.Length ==> dst[i] == old(dst[i])
  {
    var i := n - 1;
    while i > 0
      invariant i < n
      invariant forall k :: i < k < n ==> dst[k] == UpWord(src[k], src[k - 1], s)
      invariant forall k :: n <= k < dst.Length ==> dst[k] == old(dst[k])
    {
      dst[i] := UpWord(src[i], src[i - 1], s);
      i := i - 1;
    }
    dst[0] := Shl32(src[0], s);
  }

  // ---------------------------------------------------------------- undoing the normalisation

  lemma {:induction false} ShrGlue(lo: nat, hi: nat, k: nat, s: nat)
    requires s <= k
    ensures Shr(lo + Shl(hi, k), s) == Shr(lo, s) + Shl(hi, k - s)
  {
    if s > 0 {
      var x := lo + Shl(hi, k);
      assert x / 2 == lo / 2 + Shl(hi, k - 1);
      ShrGlue(lo / 2, hi, k - 1, s - 1);
    }
  }

  lemma {:induction false} LowGlue(lo: nat, hi: nat, k: nat, s: nat)
    requires s <= k
    ensures Low(lo + Shl(hi, k), s) == Low(lo, s)
  {
    if s > 0 {
      var x := lo + Shl(hi, k);
      assert x / 2 == lo / 2 + Shl(hi, k - 1) && x % 2 == lo % 2;
      LowGlue(lo / 2, hi, k - 1, s - 1);
    }
  }

  lemma DownWordIs(lo: Word, hi: Word, s: nat)
    requires s < 32
    ensures DownWord(lo, hi, s) == Shr(lo, s) + Shl(Low(hi, s), 32 - s)
  {
    Pow2Values();
    if s == 0 {
      ShlB(hi);
      KeepLow(0, hi);
      ShlOne(32);
    } else {
      ShlParts(hi, 32 - s);
    }
    Masked(Shl32(hi, 32 - s), s);
    ShrBound(lo, 32 - s, s);
    OrGlue(Shr(lo, s), Low(hi, s), 32 - s);
  }

  /** Shifting a wide value down by less than a word. */
  lemma ShrCons(x: Word, rest: nat, s: nat)
    requires s < 32
    ensures Shr(x + B * rest, s) == Shr(x, s) + Shl(Low(rest, s), 32 - s) + B * Shr(rest, s)
  {
    ShlB(rest);
    ShrGlue(x, rest, 32, s);
    Split(rest, s);
    ShlSum(rest, Low(rest, s), Shl(Shr(rest, s), s), 32 - s);
    ShlShl(Shr(rest, s), s, 32 - s);
    ShlB(Shr(rest, s));
  }

  /** dst is src shifted down by s; src has one more word, which is zero. */
  lemma {:induction false} ShiftedDownVal(dst: seq<Word>, src: seq<Word>, s: nat)
    requires s < 32 && |src| == |dst| + 1 && src[|dst|] == 0
    requires forall i :: 0 <= i < |dst| ==> dst[i] == DownWord(src[i], src[i + 1], s)
    ensures Val(dst) == Shr(Val(src), s)
  {
    if dst == [] {
      assert src == [0] && Val(src) == 0;
      Pow2Values();
      ShrSmall(0, s);
    } else {
      var rest := Val(src[1..]);
      ShiftedDownVal(dst[1..], src[1..], s);
      DownWordIs(src[0], src[1], s);
      ShrCons(src[0], rest, s);
      ShlB(Val(src[2..]));
      assert src[1..][1..] == src[2..];
      LowGlue(src[1], Val(src[2..]), 32, s);
    }
  }

  method ShiftDown(dst: array<Word>, src: array<Word>, n: nat, s: nat)
    requires n <= dst.Length && n < src.Length && s < 32 && dst != src
    modifies dst
    ensures forall i :: 0 <= i < n ==> dst[i] == DownWord(src[i], src[i + 1], s)
    ensures forall i :: n <= i < dst.Length ==> dst[i] == old(dst[i])
  {
    for i := 0 to n
      invariant forall k :: 0 <= k < i ==> dst[k] == DownWord(src[k], src[k + 1], s)
      invariant forall k :: i <= k < dst.Length ==> dst[k] == old(dst[k])
    {
      dst[i] := DownWord(src[i], src[i + 1], s);
    }
  }

  // ---------------------------------------------------------------- the main loop

  /** After the digits from j up: u is q times v, j words up, and what is left in rest. */
  ghost predicate LongDivision(u: nat, v: nat, q: nat, rest: nat, j: nat) {
    u == At(Times(q, v), j) + rest && rest < At(v, j)
  }

  /** The window of the next digit is below B times the divisor. */
  lemma WindowBound(un: seq<Word>, j: nat, n: nat, v: nat)
    requires j + n + 1 <= |un| && (forall i :: j + n + 1 <= i < |un| ==> un[i] == 0)
    requires Val(un) < At(v, j + 1)
    ensures Val(un) == Val(un[..j]) + At(Val(un[j..j + n + 1]), j)
    ensures Val(un[j..j + n + 1]) < v * B
  {
    WindowSplit(un, j, n);
    var w := Val(un[j..j + n + 1]);
    AtAt(v, 1, j); AtAt(v, j, 1);
    if w >= v * B { AtMono(B * v, w, j); }
  }

  /** The value of a dividend whose words above the window are zero. */
  lemma WindowSplit(un: seq<Word>, j: nat, n: nat)
    requires j + n + 1 <= |un| && (forall i :: j + n + 1 <= i < |un| ==> un[i] == 0)
    ensures Val(un) == Val(un[..j]) + At(Val(un[j..j + n + 1]), j)
  {
    var hi := un[j..];
    assert hi[..n + 1] == un[j..j + n + 1];
    ValSplit(un, j);
    ValHighZero(hi, n + 1);
  }

  /** One digit of the main loop keeps LongDivision. */
  lemma DigitKeeps(u: nat, v: nat, q: nat, j: nat, un: seq<Word>, un': seq<Word>, n: nat, d: Word, q': nat)
    requires j + n + 1 <= |un| == |un'| && q' == d + B * q
    requires forall i :: j + n + 1 <= i < |un| ==> un[i] == un'[i] == 0
    requires un[..j] == un'[..j] && v < W(n)
    requires LongDivision(u, v, q, Val(un), j + 1)
    requires DigitStep(Val(un[j..j + n + 1]), v, d, Val(un'[j..j + n + 1]))
    ensures LongDivision(u, v, q', Val(un'), j)
    ensures un'[j + n] == 0
  {
    WindowSplit(un, j, n);
    WindowSplit(un', j, n);
    ValBound(un[..j]);
    TopZero(un'[j..j + n + 1], n);
    DigitNumbers(u, v, q, j, Val(un[..j]), Val(un[j..j + n + 1]), Val(un'[j..j + n + 1]), d, Val(un), Val(un'), q');
  }

  lemma DigitNumbers(u: nat, v: nat, q: nat, j: nat, lo: nat, w: nat, c: nat, d: Word, rest: nat, rest': nat, q': nat)
    requires LongDivision(u, v, q, rest, j + 1) && DigitStep(w, v, d, c) && lo < W(j)
    requires rest == lo + At(w, j) && rest' == lo + At(c, j) && q' == d + B * q
    ensures LongDivision(u, v, q', rest', j)
  {
    QuotientCons(q, v, d, j, c, w, q');
    AtMono(c, v, j);
  }

  lemma QuotientCons(q: nat, v: nat, d: Word, j: nat, c: nat, w: nat, q': nat)
    requires w == Times(d, v) + c && q' == d + B * q
    ensures At(Times(q, v), j + 1) + At(w, j) == At(Times(q', v), j) + At(c, j)
  {
    TimesCons(d, q, v);
    TimesIs(d, v);
    var a, b := Times(q, v), Times(d, v);
    AtAt(a, 1, j); AtAt(a, j, 1);
    AtAdd(b, c, j);
    AtAdd(b, B * a, j);
  }

  lemma TopZero(ws: seq<Word>, n: nat)
    requires |ws| == n + 1 && Val(ws) < W(n)
    ensures ws[n] == 0
  {
    ValNext(ws, n);
    assert ws[..n + 1] == ws;
    if ws[n] > 0 { AtMono(1, ws[n], n); }
  }

  // ---------------------------------------------------------------- the normalised operands

  /** s shifts the top word of r so that its highest bit is set. */
  ghost predicate ShiftFor(top: Word, s: nat) {
    s < 32 && Pow2(31 - s) <= top < Pow2(32 - s)
  }

  lemma NormalTop(top: Word, s: nat)
    requires ShiftFor(top, s)
    ensures Out(top, s) == 0 && B / 2 <= Shl32(top, s) == Shl(top, s)
  {
    Pow2Values();
    ShlParts(top, s);
    ShrSmall(top, 32 - s);
    ShlMono(Pow2(31 - s), top, s);
    Pow2Add(31 - s, s);
  }

  lemma NormalDivisor(vs: seq<Word>, r: seq<Word>, s: nat)
    requires |vs| == |r| >= 2 && ShiftFor(r[|r| - 1], s) && ShiftedUp(vs, r, s)
    ensures Normalized(vs) && Val(vs) == Shl(Val(r), s) && At(B / 2, |vs| - 1) <= Val(vs) < W(|vs|)
  {
    var n := |r|;
    NormalTop(r[n - 1], s);
    UpWordIs(r[n - 1], r[n - 2], s);
    ShiftedUpVal(vs, r, s, n);
    AtZero(n);
    assert vs[..n] == vs && r[..n] == r;
    ValNext(vs, n - 1);
    AtMono(B / 2, vs[n - 1], n - 1);
    ValBound(vs);
  }

  lemma NormalDividend(us: seq<Word>, l: seq<Word>, s: nat)
    requires |us| == |l| + 1 && |l| >= 1 && s < 32
    requires ShiftedUp(us[..|l|], l, s) && us[|l|] == Out(l[|l| - 1], s)
    ensures Val(us) == Shl(Val(l), s) < At(B / 2, |l|)
  {
    var n := |l|;
    ShiftedUpVal(us[..n], l, s, n);
    assert us[..n][..n] == us[..n] && us[..n + 1] == us && l[..n] == l;
    ValNext(us, n);
    ValBound(us[..n]);
    ShlParts(l[n - 1], s);
    Pow2Values();
    Pow2Mono(s, 31);
    AtMono(us[n], B / 2, n);
  }

  /** Before the first digit nothing has been divided yet. */
  lemma BeforeDivision(u: nat, v: nat, uw: nat, vw: nat, j: nat)
    requires 1 <= vw && uw < j + vw && u < At(B / 2, uw) && At(B / 2, vw - 1) <= v
    ensures LongDivision(u, v, 0, u, j)
  {
    TimesIs(0, v);
    AtZero(j);
    AtMono(At(B / 2, vw - 1), v, j);
    AtAt(B / 2, vw - 1, j);
    AtAt(B / 2, j + vw - 1 - uw, uw);
    AtGe(B / 2, j + vw - 1 - uw);
    AtMono(B / 2, At(B / 2, j + vw - 1 - uw), uw);
  }

  lemma {:induction false} AtGe(x: nat, i: nat)
    ensures At(x, i) >= x
  {
    if i > 0 { AtGe(x, i - 1); }
  }

  /** Dividing the shifted operands divides the operands and shifts the remainder. */
  lemma Denormalise(l: nat, r: nat, s: nat, q: nat, rest: nat)
    requires r > 0 && LongDivision(Shl(l, s), Shl(r, s), q, rest, 0)
    ensures l / r == q && l % r == Shr(rest, s)
  {
    var p := Pow2(s);
    ShlIsMul(l, s); ShlIsMul(r, s);
    TimesIs(q, Shl(r, s));
    MulAssoc(q, r, p);
    var c := l - q * r;
    assert rest == c * p by { assert (l - q * r) * p == l * p - (q * r) * p; }
    if c < 0 { MulMono(c, -1, p); assert false; }
    if c >= r { MulMono(r, c, p); assert false; }
    assert l == r * q + c;
    DivUnique(l, r, q, c);
    ShlIsMul(c, s);
    Pow2Values();
    Glue(0, c, s);
  }

  // ---------------------------------------------------------------- the whole routine

  /** What the caller reads: quotient or remainder of the unsigned values, 0 when dividing by 0. */
  function ModDiv(l: nat, r: nat, isModulus: bool): int {
    if r == 0 then 0 else if isModulus then l % r else l / r
  }

  /** The state of the main loop before digit j - 1 is found. */
  ghost predicate InDivision(u: nat, v: nat, q: nat, un: seq<Word>, j: nat, vw: nat) {
    LongDivision(u, v, q, Val(un), j) && forall i :: j + vw <= i < |un| ==> un[i] == 0
  }

  lemma ValCons(d: Word, q: seq<Word>)
    ensures Val([d] + q) == d + B * Val(q)
  {
    assert ([d] + q)[1..] == q;
  }

  lemma NextDigit(u: nat, v: nat, n: nat, q: nat, j: nat, un: seq<Word>, un': seq<Word>, d: Word, q': nat)
    requires j + n + 1 <= |un| == |un'| && v < W(n) && q' == d + B * q
    requires InDivision(u, v, q, un, j + 1, n)
    requires SameOutside(un', un, j, j + n + 1)
    requires DigitStep(Val(un[j..j + n + 1]), v, d, Val(un'[j..j + n + 1]))
    ensures InDivision(u, v, q', un', j, n)
  {
    assert un'[..j] == un[..j];
    DigitKeeps(u, v, q, j, un, un', n, d, q');
  }

  lemma OutsidePrefix(s': seq<Word>, s: seq<Word>, n: nat, lo: nat, hi: nat)
    requires SameOutside(s', s, lo, hi) && n <= |s|
    ensures SameOutside(s'[..n], s[..n], lo, hi)
  {
  }

  /** One turn of the main loop: digit j. */
  method NextQuotientDigit(owp: array<Word>, un: array<Word>, vn: seq<Word>, words: nat, j: nat, j0: nat, ghost u: nat)
    requires Normalized(vn) && Val(vn) < W(|vn|) && owp != un && j < j0
    requires words < un.Length && words <= owp.Length && j0 + |vn| <= words + 1
    requires InDivision(u, Val(vn), Val(owp[j + 1..j0]), un[..words + 1], j + 1, |vn|)
    modifies owp, un
    ensures InDivision(u, Val(vn), Val(owp[j..j0]), un[..words + 1], j, |vn|)
    ensures forall i :: j0 <= i < owp.Length ==> owp[i] == old(owp[i])
  {
    var vw := |vn|;
    ghost var whole, before, q := un[..], un[..words + 1], owp[j + 1..j0];
    WindowBound(before, j, vw, Val(vn));
    assert before == whole[..words + 1] && before[j..j + vw + 1] == un[j..j + vw + 1];
    var digit := DivideDigit(un, vn, j);
    OutsidePrefix(un[..], whole, words + 1, j, j + vw + 1);
    ghost var after := un[..words + 1];
    assert after == un[..][..words + 1] && after[j..j + vw + 1] == un[j..j + vw + 1];
    ValCons(digit, q);
    NextDigit(u, Val(vn), vw, Val(q), j, before, after, digit, Val([digit] + q));
    owp[j] := digit;
    assert owp[j..j0] == [digit] + q;
  }

  /** The main loop of Algorithm D over normalised operands. */
  method MainLoop(owp: array<Word>, un: array<Word>, vn: seq<Word>, words: nat, j0: nat, ghost u: nat)
    requires Normalized(vn) && Val(vn) < W(|vn|) && owp != un
    requires words < un.Length && words <= owp.Length && j0 + |vn| <= words + 1
    requires forall i :: 0 <= i < words ==> owp[i] == 0
    requires InDivision(u, Val(vn), 0, un[..words + 1], j0, |vn|)
    modifies owp, un
    ensures InDivision(u, Val(vn), ArrVal(owp, words), un[..words + 1], 0, |vn|)
    ensures forall i :: words <= i < owp.Length ==> owp[i] == old(owp[i])
  {
    for j := j0 downto 0
      invariant forall i :: j0 <= i < words ==> owp[i] == 0
      invariant InDivision(u, Val(vn), Val(owp[j..j0]), un[..words + 1], j, |vn|)
      invariant forall i :: words <= i < owp.Length ==> owp[i] == old(owp[i])
    {
      NextQuotientDigit(owp, un, vn, words, j, j0, u);
    }
    ValHighZero(owp[..words], j0);
    assert owp[..words][..j0] == owp[0..j0];
  }

  /** The words below the most significant set bit. */
  lemma MsbWords(ws: seq<Word>, p: nat)
    requires MsbP1(ws, p) && p > 0
    ensures var n := WordsI(p);
      1 <= n <= |ws| && Val(ws) == Val(ws[..n]) && ws[n - 1] > 0 && ShiftFor(ws[n - 1], 31 - (p - 1) % 32)
  {
    var n := WordsI(p);
    assert n - 1 == (p - 1) / 32;
    ValHighZero(ws, n);
  }

  lemma MsbZero(ws: seq<Word>, p: nat)
    requires MsbP1(ws, p)
    ensures p == 0 <==> Val(ws) == 0
  {
    if p == 0 {
      ValZero(ws);
    } else {
      MsbWords(ws, p);
      var n := WordsI(p);
      ValNext(ws, n - 1);
      AtZero(n - 1);
      AtMono(0, ws[n - 1], n - 1);
    }
  }

  /** The buffers hold both operands shifted by s, and nothing has been divided yet. */
  ghost predicate Prepared(l: nat, r: nat, s: nat, vn: seq<Word>, un: seq<Word>, j0: nat) {
    && r > 0 && Val(vn) == Shl(r, s) && Val(vn) < W(|vn|)
    && InDivision(Shl(l, s), Val(vn), 0, un, j0, |vn|)
  }

  /** Copy and shift the operands into the local buffers. */
  method Normalise(words: nat, lwp: array<Word>, rwp: array<Word>, uw: nat, vw: nat, s: nat, j0: nat,
                   un: array<Word>, vn: array<Word>)
    requires words <= MAX_WORDS && un.Length == vn.Length == MAX_WORDS + 1
    requires words <= lwp.Length && words <= rwp.Length && 1 <= uw <= words && 2 <= vw <= words
    requires un != vn && {un, vn} !! {lwp, rwp}
    requires ShiftFor(rwp[vw - 1], s) && uw < j0 + vw
    modifies un, vn
    ensures Normalized(vn[..vw])
    ensures Prepared(ArrVal(lwp, uw), ArrVal(rwp, vw), s, vn[..vw], un[..words + 1], j0)
  {
    ZeroFrom(un, 0, words + 1);
    ZeroFrom(vn, 0, words + 1);
    ShiftUp(vn, rwp, vw, s);
    un[uw] := if s != 0 then Shr32(lwp[uw - 1], 32 - s) else 0;
    OutWhenZero(lwp[uw - 1]);
    ShiftUp(un, lwp, uw, s);
    ghost var us := un[..words + 1];
    assert us[..uw] == un[..uw];
    StartDivision(us, lwp[..uw], vn[..vw], rwp[..vw], s, uw, j0);
  }

  /** The path for a divisor of two words or more: normalise, divide, and for a modulus
      undo the normalisation. The dividend may be shorter than the divisor. */
  method LongDivide(words: nat, owp: array<Word>, lwp: array<Word>, rwp: array<Word>,
                    uw: nat, vw: nat, s: nat, isModulus: bool)
    requires words <= MAX_WORDS && words <= owp.Length && words <= lwp.Length && words <= rwp.Length
    requires owp != lwp && owp != rwp && 1 <= uw <= words && 2 <= vw <= words
    requires ShiftFor(rwp[vw - 1], s) && forall i :: 0 <= i < words ==> owp[i] == 0
    modifies owp
    ensures ArrVal(owp, words) == ModDiv(ArrVal(lwp, uw), ArrVal(rwp, vw), isModulus)
    ensures forall i :: words <= i < owp.Length ==> owp[i] == old(owp[i])
  {
    var un, vn := new Word[MAX_WORDS + 1], new Word[MAX_WORDS + 1];
    var j0: nat := if uw >= vw then uw - vw + 1 else 0;
    ghost var lv, rv := ArrVal(lwp, uw), ArrVal(rwp, vw);
    Normalise(words, lwp, rwp, uw, vw, s, j0, un, vn);
    ghost var u, us, vs := Shl(lv, s), un[..words + 1], vn[..vw];
    MainLoop(owp, un, vn[..vw], words, j0, u);
    ghost var q, rest := ArrVal(owp, words), un[..words + 1];
    FinishDivision(lv, rv, s, q, rest, u, vs, us, j0);
    if isModulus {
      TakeRemainder(words, owp, un, vw, s);
    }
  }

  /** The remainder is what is left in un, shifted back. */
  method TakeRemainder(words: nat, owp: array<Word>, un: array<Word>, vw: nat, s: nat)
    requires words <= owp.Length && words < un.Length && vw <= words && s < 32 && owp != un
    requires forall i :: vw <= i < words + 1 ==> un[i] == 0
    modifies owp
    ensures ArrVal(owp, words) == Shr(Val(un[..words + 1]), s)
    ensures forall i :: words <= i < owp.Length ==> owp[i] == old(owp[i])
  {
    ShiftDown(owp, un, vw, s);
    ZeroFrom(owp, vw, words);
    RemainderWords(owp[..words], un[..words + 1], vw, s);
  }

  lemma FinishDivision(l: nat, r: nat, s: nat, q: nat, rest: seq<Word>, u: nat, vs: seq<Word>, us: seq<Word>,
                       j0: nat)
    requires u == Shl(l, s) && Prepared(l, r, s, vs, us, j0)
    requires InDivision(u, Val(vs), q, rest, 0, |vs|)
    ensures ModDiv(l, r, false) == q && ModDiv(l, r, true) == Shr(Val(rest), s)
  {
    Denormalise(l, r, s, q, Val(rest));
  }

  lemma OutWhenZero(x: Word)
    ensures Out(x, 0) == 0
  {
    Pow2Values();
    ShrSmall(x, 32);
  }

  lemma StartDivision(us: seq<Word>, l: seq<Word>, vn: seq<Word>, r: seq<Word>, s: nat, uw: nat, j0: nat)
    requires |us| > uw == |l| >= 1 && |vn| == |r| >= 2 && s < 32 && uw < j0 + |vn|
    requires ShiftFor(r[|r| - 1], s) && ShiftedUp(vn, r, s)
    requires ShiftedUp(us[..uw], l, s) && us[uw] == Out(l[uw - 1], s)
    requires forall i :: uw < i < |us| ==> us[i] == 0
    ensures Normalized(vn) && Val(vn) == Shl(Val(r), s) && Val(vn) < W(|vn|) && Val(r) > 0
    ensures InDivision(Shl(Val(l), s), Val(vn), 0, us, j0, |vn|)
  {
    NormalDivisor(vn, r, s);
    DividendVal(us, l, s, uw);
    BeforeDivision(Val(us), Val(vn), uw, |vn|, j0);
    PositiveDivisor(Val(r), s, vn);
  }

  lemma DividendVal(us: seq<Word>, l: seq<Word>, s: nat, uw: nat)
    requires |us| > uw == |l| >= 1 && s < 32
    requires ShiftedUp(us[..uw], l, s) && us[uw] == Out(l[uw - 1], s)
    requires forall i :: uw < i < |us| ==> us[i] == 0
    ensures Val(us) == Shl(Val(l), s) < At(B / 2, uw)
  {
    assert us[..uw + 1][..uw] == us[..uw];
    NormalDividend(us[..uw + 1], l, s);
    ValHighZero(us, uw + 1);
  }

  lemma PositiveDivisor(r: nat, s: nat, vn: seq<Word>)
    requires |vn| >= 1 && At(B / 2, |vn| - 1) <= Val(vn) == Shl(r, s)
    ensures r > 0
  {
    AtMono(1, B / 2, |vn| - 1);
    ShlOne(s);
  }

  lemma RemainderWords(o: seq<Word>, rest: seq<Word>, vw: nat, s: nat)
    requires vw <= |o| && |rest| == |o| + 1 && s < 32
    requires forall i :: 0 <= i < vw ==> o[i] == DownWord(rest[i], rest[i + 1], s)
    requires forall i :: vw <= i < |o| ==> o[i] == 0
    requires forall i :: vw <= i < |rest| ==> rest[i] == 0
    ensures Val(o) == Shr(Val(rest), s)
  {
    ValHighZero(o, vw);
    ValHighZero(rest, vw + 1);
    ShiftedDownVal(o[..vw], rest[..vw + 1], s);
  }

  method ModDivW(lbits: nat, owp: array<Word>, lwp: array<Word>, rwp: array<Word>, isModulus: bool)
    requires WordsI(lbits) <= MAX_WORDS
    requires WordsI(lbits) <= owp.Length && WordsI(lbits) <= lwp.Length && WordsI(lbits) <= rwp.Length
    requires owp != lwp && owp != rwp
    modifies owp
    ensures ArrVal(owp, WordsI(lbits)) == ModDiv(ArrVal(lwp, WordsI(lbits)), ArrVal(rwp, WordsI(lbits)), isModulus)
    ensures forall i :: WordsI(lbits) <= i < owp.Length ==> owp[i] == old(owp[i])
  {
    var words := WordsI(lbits);
    ZeroFrom(owp, 0, words);
    var umsbp1 := MostSetBitP1(words, lwp);
    var vmsbp1 := MostSetBitP1(words, rwp);
    ghost var l, r := lwp[..words], rwp[..words];
    ghost var lv, rv := ArrVal(lwp, words), ArrVal(rwp, words);
    MsbZero(l, umsbp1);
    MsbZero(r, vmsbp1);
    ValZero(owp[..words]);
    if vmsbp1 == 0 || umsbp1 == 0 {
      ZeroOver(lv, rv);
      return;
    }
    var uw, vw := WordsI(umsbp1), WordsI(vmsbp1);
    MsbWords(l, umsbp1);
    MsbWords(r, vmsbp1);
    assert l[..uw] == lwp[..uw] && r[..vw] == rwp[..vw];
    if vw == 1 {
      ShortDivide(words, owp, lwp, rwp, uw, isModulus);
    } else {
      LongDivide(words, owp, lwp, rwp, uw, vw, 31 - (vmsbp1 - 1) % 32, isModulus);
    }
  }

  /** The path for a divisor of one word. */
  method ShortDivide(words: nat, owp: array<Word>, lwp: array<Word>, rwp: array<Word>, uw: nat, isModulus: bool)
    requires words <= owp.Length && words <= lwp.Length && words <= rwp.Length
    requires owp != lwp && owp != rwp && 1 <= uw <= words
    requires rwp[0] > 0 && forall i :: 0 <= i < words ==> owp[i] == 0
    modifies owp
    ensures ArrVal(owp, words) == ModDiv(ArrVal(lwp, uw), ArrVal(rwp, 1), isModulus)
    ensures forall i :: words <= i < owp.Length ==> owp[i] == old(owp[i])
  {
    ghost var lv, rv := ArrVal(lwp, uw), ArrVal(rwp, 1);
    var k := DivideByWord(owp, lwp, uw, rwp[0]);
    assert owp[..words][..uw] == owp[..uw];
    ShortResult(lwp[..uw], rwp[..1], owp[..words], k);
    if isModulus {
      U32Id(k);
      owp[0] := U32(k);
      ZeroFrom(owp, 1, words);
      OnlyFirstWord(owp[..words], k);
    }
  }

  lemma ZeroOver(l: nat, r: nat)
    requires l == 0 || r == 0
    ensures ModDiv(l, r, false) == ModDiv(l, r, true) == 0
  {
    if r > 0 { DivUnique(0, r, 0, 0); }
  }

  lemma OnlyFirstWord(o: seq<Word>, k: nat)
    requires |o| >= 1 && o[0] == k && forall i :: 1 <= i < |o| ==> o[i] == 0
    ensures Val(o) == k
  {
    ValZero(o[1..]);
  }

  lemma ShortResult(l: seq<Word>, r: seq<Word>, o: seq<Word>, k: nat)
    requires 1 <= |l| <= |o| && |r| == 1 && r[0] > 0
    requires Divided(l, o[..|l|], r[0], k) && forall i :: |l| <= i < |o| ==> o[i] == 0
    ensures k < B && ModDiv(Val(l), Val(r), false) == Val(o) && ModDiv(Val(l), Val(r), true) == k
  {
    ValHighZero(o, |l|);
    OnlyFirstWord(r, r[0]);
    TimesIs(Val(o), r[0]);
    DivUnique(Val(l), r[0], Val(o), k);
  }
}
