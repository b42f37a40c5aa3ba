/** One digit of Knuth's Algorithm D (TAOCP vol. 2, section 4.3.1): the trial digit,
    the multiply-and-subtract, and the add-back. A window of the normalised dividend
    (vw+1 words, value w) is divided by the normalised divisor (vw words, value v). */
module KnuthDigit {
  import opened Bits
  import opened Words
  import opened WideArith

  // ---------------------------------------------------------------- the trial digit, on numbers

  /** qhat is the true digit of w / v or one more. */
  ghost predicate NearDigit(w: nat, v: nat, qhat: int) {
    Times(qhat - 1, v) <= w < Times(qhat + 1, v)
  }

  /** The window and the divisor cut after their leading words: w2 is the weight below. */
  ghost predicate Leading(w: nat, v: nat, t1: nat, u2: nat, v1: nat, v2: nat, w2: nat) {
    && w2 > 0 && u2 < B && v2 < B && B / 2 <= v1 < B
    && (t1 * B + u2) * w2 <= w < (t1 * B + u2 + 1) * w2
    && (v1 * B + v2) * w2 <= v < (v1 * B + v2 + 1) * w2
  }

  lemma MulLe(k: nat, a: int, b: int)
    requires a <= b
    ensures k * a <= k * b
  {
  }

  lemma TrialSum(qhat: int, v1: int, v2: int, t1: int, rhat: int)
    requires t1 == qhat * v1 + rhat
    ensures qhat * (v1 * B + v2) == t1 * B - rhat * B + qhat * v2
  {
    MulDist(qhat, v1 * B, v2);
    MulAssoc(qhat, v1, B);
  }

  /** When the test of the trial loop fires, the trial digit is too large. */
  lemma TooLarge(w: nat, v: nat, t1: nat, u2: nat, v1: nat, v2: nat, w2: nat, qhat: nat, rhat: nat)
    requires Leading(w, v, t1, u2, v1, v2, w2) && t1 == qhat * v1 + rhat
    requires qhat * v2 > rhat * B + u2
    ensures w < qhat * v
  {
    var t, d := t1 * B + u2, v1 * B + v2;
    TrialSum(qhat, v1, v2, t1, rhat);
    MulMono(t + 1, qhat * d, w2);
    MulAssoc(qhat, d, w2);
    MulLe(qhat, d * w2, v);
  }

  /** When the test does not fire, the trial digit is at most one too large. */
  lemma CloseEnough(w: nat, v: nat, t1: nat, u2: nat, v1: nat, v2: nat, w2: nat, qhat: nat, rhat: nat)
    requires Leading(w, v, t1, u2, v1, v2, w2) && t1 == qhat * v1 + rhat
    requires 1 <= qhat < B && qhat * v2 <= rhat * B + u2
    ensures (qhat - 1) * v <= w
  {
    var t, d := t1 * B + u2, v1 * B + v2;
    TrialSum(qhat, v1, v2, t1, rhat);
    assert (qhat - 1) * (d + 1) == qhat * d + qhat - d - 1;
    assert d >= B by { MulMono(1, v1, B); }
    MulMono((qhat - 1) * (d + 1), t, w2);
    MulAssoc(qhat - 1, d + 1, w2);
    MulLe(qhat - 1, v, (d + 1) * w2);
  }

  /** The first trial digit is not too small. */
  lemma FirstTrial(w: nat, v: nat, t1: nat, u2: nat, v1: nat, v2: nat, w2: nat, qhat: nat, rhat: nat)
    requires Leading(w, v, t1, u2, v1, v2, w2) && t1 == qhat * v1 + rhat && rhat < v1
    ensures w < (qhat + 1) * v
  {
    var k := qhat + 1;
    assert t1 + 1 <= k * v1;
    assert (t1 + 1) * B <= (k * v1) * B;
    MulAssoc(k, v1, B);
    assert t1 * B + u2 + 1 <= k * (v1 * B);
    MulMono(t1 * B + u2 + 1, k * (v1 * B), w2);
    MulAssoc(k, v1 * B, w2);
    MulMono(v1 * B, v1 * B + v2, w2);
    MulLe(k, (v1 * B) * w2, v);
  }

  /** A window below B times the divisor has a top word not above the divisor's. */
  lemma TopWord(w: nat, v: nat, u0: nat, u1: nat, u2: nat, v1: nat, v2: nat, w2: nat)
    requires Leading(w, v, u0 * B + u1, u2, v1, v2, w2) && w < v * B
    ensures u0 <= v1
  {
    if u0 > v1 {
      var t, d := (u0 * B + u1) * B + u2, v1 * B + v2;
      assert t >= (d + 1) * B;
      MulMono((d + 1) * B, t, w2);
      assert ((d + 1) * B) * w2 == ((d + 1) * w2) * B by { MulAssoc(d + 1, B, w2); MulAssoc(d + 1, w2, B); }
      assert false;
    }
  }

  /** With the remainder past one word the trial digit has one word and passes the test. */
  lemma PastOneWord(u0: nat, u1: nat, u2: nat, v1: nat, v2: nat, qhat: nat, rhat: nat)
    requires u0 <= v1 && 0 < v1 && u1 < B && v2 < B
    requires u0 * B + u1 == qhat * v1 + rhat && rhat >= B
    ensures qhat < B && qhat * v2 <= rhat * B + u2
  {
    assert u0 * B <= v1 * B;
    if qhat >= B { MulMono(B, qhat, v1); assert false; }
    MulMono(qhat, B, v2);
  }

  // ---------------------------------------------------------------- the trial digit, on words

  lemma LeadingWords(ws: seq<Word>, k: nat, top: nat)
    requires k <= |ws| && top == Val(ws[k..])
    ensures top * W(k) <= Val(ws) < (top + 1) * W(k)
  {
    ValSplit(ws, k);
    ValBound(ws[..k]);
    AtIsMul(top, k);
    AtIsMul(top + 1, k);
    AtAdd(top, 1, k);
  }

  lemma ThreeWords(x: Word, y: Word, z: Word)
    ensures Val([x, y, z]) == (z * B + y) * B + x
  {
    ValTwo(y, z);
    assert [x, y, z][1..] == [y, z];
  }

  ghost predicate Normalized(vs: seq<Word>) {
    |vs| >= 2 && vs[|vs| - 1] >= B / 2
  }

  lemma WindowLeading(ws: seq<Word>, vs: seq<Word>, n: nat)
    requires Normalized(vs) && n == |vs| && |ws| == n + 1
    ensures Leading(Val(ws), Val(vs), ws[n] * B + ws[n - 1], ws[n - 2], vs[n - 1], vs[n - 2], W(n - 2))
  {
    ThreeWords(ws[n - 2], ws[n - 1], ws[n]);
    ValTwo(vs[n - 2], vs[n - 1]);
    assert ws[n - 2..] == [ws[n - 2], ws[n - 1], ws[n]];
    assert vs[n - 2..] == [vs[n - 2], vs[n - 1]];
    LeadingWords(ws, n - 2, Val(ws[n - 2..]));
    LeadingWords(vs, n - 2, Val(vs[n - 2..]));
  }

  /** `((vluint64_t)hi << 32) | lo`. */
  function Join(hi: Word, lo: Word): (r: nat)
    ensures r == hi * B + lo < Q
  {
    JoinIsSum(hi, lo);
    Or(U64(Shl(hi, 32)), lo)
  }

  lemma JoinIsSum(hi: Word, lo: Word)
    ensures Or(U64(Shl(hi, 32)), lo) == hi * B + lo
  {
    Pow2Values();
    ShlB(hi);
    U64Id(Shl(hi, 32));
    OrGlue(lo, hi, 32);
  }

  /** The test of the trial loop, in 64 bits. */
  predicate Fires(qhat: nat, rhat: nat, v2: Word, u2: Word) {
    qhat >= B || Mul64(qhat, v2) > U64(U64(B * rhat) + u2)
  }

  /** Nothing is lost in it while rhat is one word. */
  lemma FiresMeans(qhat: nat, rhat: nat, v2: Word, u2: Word)
    requires rhat < B
    ensures Fires(qhat, rhat, v2, u2) <==> qhat >= B || qhat * v2 > rhat * B + u2
    ensures Fires(qhat, rhat, v2, u2) ==> qhat >= 1
  {
    var cross, r := qhat * v2, B * rhat;
    Mul64IsProduct(qhat, v2);
    if qhat < B {
      ProductBound(qhat, v2, B - 1);
      U64Id(cross); U64Id(r); U64Id(r + u2);
    }
    assert qhat == 0 ==> cross == 0;
  }

  /** What the loop makes of a trial digit and its remainder. */
  function Adjust(qhat: nat, rhat: nat, v1: Word, v2: Word, u2: Word): nat
    requires rhat < B
    decreases qhat
  {
    if qhat == 0 || !Fires(qhat, rhat, v2, u2) then qhat
    else if rhat + v1 < B then Adjust(qhat - 1, rhat + v1, v1, v2, u2)
    else qhat - 1
  }

  lemma AdjustStep(qhat: nat, rhat: nat, v1: Word, v2: Word, u2: Word)
    requires rhat < B
    ensures Fires(qhat, rhat, v2, u2) ==> qhat >= 1
    ensures Adjust(qhat, rhat, v1, v2, u2) ==
            if !Fires(qhat, rhat, v2, u2) then qhat
            else if rhat + v1 < B then Adjust(qhat - 1, rhat + v1, v1, v2, u2)
            else qhat - 1
  {
    FiresMeans(qhat, rhat, v2, u2);
  }

  /** The trial-digit loop; `again` is the C label. */
  method TrialLoop(qhat0: nat, rhat0: nat, v1: Word, v2: Word, u2: Word) returns (qhat: nat)
    requires rhat0 < B
    ensures qhat == Adjust(qhat0, rhat0, v1, v2, u2)
  {
    qhat := qhat0;
    var rhat: nat := rhat0;
    var again := true;
    ghost var goal := Adjust(qhat0, rhat0, v1, v2, u2);
    while again
      invariant again ==> rhat < B && goal == Adjust(qhat, rhat, v1, v2, u2)
      invariant !again ==> goal == qhat
      decreases again, qhat
    {
      again := false;
      AdjustStep(qhat, rhat, v1, v2, u2);
      var fires := Fires(qhat, rhat, v2, u2);
      if fires {
        qhat := qhat - 1;
        U64Id(rhat + v1);
        rhat := U64(rhat + v1);
        if rhat < B { again := true; }
      }
    }
  }

  // ---------------------------------------------------------------- the trial digit is near

  ghost predicate Trial(w: nat, v: nat, t1: nat, v1: nat, qhat: nat, rhat: nat) {
    t1 == qhat * v1 + rhat && w < (qhat + 1) * v
  }

  lemma TrialDown(w: nat, v: nat, t1: nat, u2: nat, v1: nat, v2: nat, w2: nat, qhat: nat, rhat: nat)
    requires Leading(w, v, t1, u2, v1, v2, w2) && w < v * B && Trial(w, v, t1, v1, qhat, rhat)
    requires qhat >= 1 && (qhat >= B || qhat * v2 > rhat * B + u2)
    ensures Trial(w, v, t1, v1, qhat - 1, rhat + v1)
  {
    if qhat >= B { MulMono(B, qhat, v); } else { TooLarge(w, v, t1, u2, v1, v2, w2, qhat, rhat); }
    assert (qhat - 1) * v1 == qhat * v1 - v1;
  }

  lemma TrialStops(w: nat, v: nat, t1: nat, u2: nat, v1: nat, v2: nat, w2: nat, qhat: nat, rhat: nat)
    requires Leading(w, v, t1, u2, v1, v2, w2) && Trial(w, v, t1, v1, qhat, rhat)
    requires qhat < B && qhat * v2 <= rhat * B + u2
    ensures NearDigit(w, v, qhat)
  {
    TimesIs(qhat - 1, v); TimesIs(qhat + 1, v);
    if qhat >= 1 { CloseEnough(w, v, t1, u2, v1, v2, w2, qhat, rhat); } else { MulMono(-1, 0, v); }
  }

  lemma {:induction false} AdjustNear(w: nat, v: nat, u0: Word, u1: Word, u2: Word, v1: Word, v2: Word, w2: nat,
                                      qhat: nat, rhat: nat)
    requires Leading(w, v, u0 * B + u1, u2, v1, v2, w2) && w < v * B && u0 <= v1
    requires rhat < B && Trial(w, v, u0 * B + u1, v1, qhat, rhat)
    ensures Adjust(qhat, rhat, v1, v2, u2) < B && NearDigit(w, v, Adjust(qhat, rhat, v1, v2, u2))
    decreases qhat
  {
    var t1 := u0 * B + u1;
    FiresMeans(qhat, rhat, v2, u2);
    if !Fires(qhat, rhat, v2, u2) {
      TrialStops(w, v, t1, u2, v1, v2, w2, qhat, rhat);
    } else {
      TrialDown(w, v, t1, u2, v1, v2, w2, qhat, rhat);
      if rhat + v1 < B {
        AdjustNear(w, v, u0, u1, u2, v1, v2, w2, qhat - 1, rhat + v1);
      } else {
        PastOneWord(u0, u1, u2, v1, v2, qhat - 1, rhat + v1);
        TrialStops(w, v, t1, u2, v1, v2, w2, qhat - 1, rhat + v1);
      }
    }
  }

  lemma TrialStart(w: nat, v: nat, t1: nat, u0: Word, u1: Word, u2: Word, v1: Word, v2: Word, w2: nat)
    requires t1 == u0 * B + u1 && Leading(w, v, t1, u2, v1, v2, w2) && w < v * B
    ensures Trial(w, v, t1, v1, Quot(t1, v1), Rem(t1, v1)) && u0 <= v1 && Rem(t1, v1) < B
  {
    QuotRem(t1, v1);
    TopWord(w, v, u0, u1, u2, v1, v2, w2);
    FirstTrial(w, v, t1, u2, v1, v2, w2, Quot(t1, v1), Rem(t1, v1));
  }

  /** `unw64 - qhat*v1` in 64 bits. */
  function FirstRest(unw64: nat, qhat: nat, v1: Word): nat {
    U64(unw64 - Mul64(qhat, v1))
  }

  lemma RestFits(t: nat, d: Word)
    requires 0 < d && t < Q
    ensures FirstRest(t, Quot(t, d), d) == Rem(t, d)
  {
    QuotRem(t, d);
    var p := Quot(t, d) * d;
    assert p == t - Rem(t, d);
    Mul64IsProduct(Quot(t, d), d);
    U64Id(p);
    U64Id(t - p);
  }

  method TrialDigit(un: array<Word>, vn: seq<Word>, j: nat) returns (qhat: nat)
    requires Normalized(vn) && j + |vn| < un.Length
    requires Part(un, j, j + |vn| + 1) < Val(vn) * B
    ensures qhat < B && NearDigit(Part(un, j, j + |vn| + 1), Val(vn), qhat)
  {
    var vw := |vn|;
    var u0, u1, u2 := un[j + vw], un[j + vw - 1], un[j + vw - 2];
    var v1, v2 := vn[vw - 1], vn[vw - 2];
    ghost var w, v, w2 := Part(un, j, j + vw + 1), Val(vn), W(vw - 2);
    WindowLeading(un[j..j + vw + 1], vn, vw);
    var unw64 := Join(u0, u1);
    TrialStart(w, v, unw64, u0, u1, u2, v1, v2, w2);
    qhat := Quot(unw64, v1);
    var rhat := FirstRest(unw64, qhat, v1);
    RestFits(unw64, v1);
    AdjustNear(w, v, u0, u1, u2, v1, v2, w2, qhat, rhat);
    qhat := TrialLoop(qhat, rhat, v1, v2, u2);
  }

  // ---------------------------------------------------------------- multiply and subtract

  /** qhat times the first i words of the divisor. */
  ghost function Multiple(qhat: nat, vs: seq<Word>, i: nat): nat
    requires i <= |vs|
  {
    TimesNat(qhat, Val(vs[..i]));
    Times(qhat, Val(vs[..i]))
  }

  lemma TimesNat(x: nat, y: nat)
    ensures Times(x, y) >= 0
  {
    TimesIs(x, y);
  }

  lemma MultipleNext(qhat: nat, vs: seq<Word>, i: nat, p: int)
    requires i < |vs| && p == qhat * vs[i]
    ensures Multiple(qhat, vs, i + 1) == Multiple(qhat, vs, i) + At(p, i)
  {
    ValNext(vs, i);
    TimesIs(qhat, Val(vs[..i])); TimesIs(qhat, Val(vs[..i + 1]));
    MulDist(qhat, Val(vs[..i]), At(vs[i], i));
    AtMul(qhat, vs[i], i);
  }

  /** The first i words of the window, less the borrow k, hold what is left of ws after
      taking m from its first i words. */
  ghost predicate Subtracted(cur: seq<Word>, k: nat, ws: seq<Word>, i: nat, m: int)
    requires i <= |cur| && i <= |ws|
  {
    Val(cur[..i]) - At(k, i) == Val(ws[..i]) - m
  }

  /** One word of it in 64-bit arithmetic: the new word x and the new borrow k'. */
  lemma SubWord(u: Word, k: nat, p: nat, t: int)
    requires k < B && p <= (B - 1) * (B - 1) && t == S64(u - k - Low32(p))
    ensures t == u - k - Low32(p)
    ensures 0 <= p / B - t / B < B
    ensures u - k - p == U32(t) - B * (p / B - t / B)
  {
    var e := u - k - Low32(p);
    assert -Q / 2 <= e < Q / 2;
    assert t == U32(t) + B * (t / B);
    assert p == Low32(p) + B * (p / B);
  }

  lemma SubtractedNext(cur: seq<Word>, k: nat, ws: seq<Word>, i: nat, m: int, p: int, x: Word, k': nat)
    requires i < |cur| && i < |ws| && Subtracted(cur, k, ws, i, m)
    requires ws[i] - k - p == x - B * k'
    ensures Subtracted(cur[i := x], k', ws, i + 1, m + At(p, i))
  {
    var cur' := cur[i := x];
    ValNext(cur', i); ValNext(ws, i);
    assert cur'[..i] == cur[..i];
    BorrowAt(ws[i], k, p, x, k', i);
  }

  lemma BorrowAt(u: int, k: int, p: int, x: int, k': int, i: nat)
    requires u - k - p == x - B * k'
    ensures At(u, i) - At(k, i) - At(p, i) == At(x, i) - At(k', i + 1)
  {
    AtAdd(u - k, p, i); AtAdd(u, k, i);
    AtAdd(x, B * k', i);
    AtAt(k', 1, i); AtAt(k', i, 1);
  }

  /** One turn of the loop: the product p, the difference t, and what they leave. */
  lemma SubtractTurn(cur: seq<Word>, k: nat, ws: seq<Word>, vs: seq<Word>, qhat: nat, i: nat, p: nat, t: int)
    requires i < |cur| && i < |ws| && i < |vs| && qhat < B && k < B
    requires Subtracted(cur, k, ws, i, Multiple(qhat, vs, i))
    requires p == Mul64(qhat, vs[i]) && t == S64(ws[i] - k - Low32(p))
    ensures 0 <= p / B - t / B < B
    ensures Subtracted(cur[i := U32(t)], p / B - t / B, ws, i + 1, Multiple(qhat, vs, i + 1))
  {
    ProductFits(qhat, vs[i]);
    SubWord(ws[i], k, p, t);
    SubtractedNext(cur, k, ws, i, Multiple(qhat, vs, i), p, U32(t), p / B - t / B);
    MultipleNext(qhat, vs, i, p);
  }

  lemma ProductFits(x: nat, y: Word)
    requires x < B
    ensures Mul64(x, y) == x * y <= (B - 1) * (B - 1)
  {
    ProductBound(x, y, B - 1);
    Mul64IsProduct(x, y);
    U64Id(x * y);
  }

  /** The words of un outside [lo, hi) are those of `before`. */
  ghost predicate SameOutside(un: seq<Word>, before: seq<Word>, lo: nat, hi: nat) {
    |un| == |before| && forall k :: 0 <= k < |un| && !(lo <= k < hi) ==> un[k] == before[k]
  }

  /** c is w - m on n words, and t tells by its sign whether it wrapped around. */
  ghost predicate Difference(w: int, m: int, n: nat, c: int, t: int) {
    && (t < 0 <==> w < m)
    && c == w - m + (if t < 0 then W(n) else 0)
  }

  method MultiplySubtract(un: array<Word>, vn: seq<Word>, j: nat, qhat: nat) returns (t: int)
    requires j + |vn| < un.Length && qhat < B
    requires Multiple(qhat, vn, |vn|) <= Part(un, j, j + |vn| + 1) + W(|vn| + 1)
    modifies un
    ensures SameOutside(un[..], old(un[..]), j, j + |vn| + 1)
    ensures Difference(old(Part(un, j, j + |vn| + 1)), Multiple(qhat, vn, |vn|), |vn| + 1, Part(un, j, j + |vn| + 1), t)
  {
    var vw := |vn|;
    ghost var ws, before := un[j..j + vw + 1], un[..];
    t := 0;
    var k: nat := 0;
    for i := 0 to vw
      invariant k < B
      invariant Subtracted(un[j..j + vw + 1], k, ws, i, Multiple(qhat, vn, i))
      invariant SameOutside(un[..], before, j, j + i)
    {
      ghost var cur := un[j..j + vw + 1];
      assert un[i + j] == ws[i];
      var p := Mul64(qhat, vn[i]);
      t := S64(un[i + j] - k - Low32(p));
      SubtractTurn(cur, k, ws, vn, qhat, i, p, t);
      un[i + j] := U32(t);
      U64Id(p / B - t / B);
      k := U64(p / B - t / B);
      assert un[j..j + vw + 1] == cur[i := U32(t)];
    }
    ghost var cur := un[j..j + vw + 1];
    assert un[j + vw] == ws[vw];
    t := S64(un[j + vw] - k);
    SubtractedTop(cur, k, ws, vw, Multiple(qhat, vn, vw), t);
    un[j + vw] := U32(t);
    assert un[j..j + vw + 1] == cur[vw := U32(t)];
  }

  lemma SubtractedTop(cur: seq<Word>, k: nat, ws: seq<Word>, n: nat, m: int, t: int)
    requires |cur| == |ws| == n + 1 && k < B && Subtracted(cur, k, ws, n, m) && t == S64(ws[n] - k)
    requires m <= Val(ws) + W(n + 1)
    ensures Difference(Val(ws), m, n + 1, Val(cur[n := U32(t)]), t)
  {
    var x := U32(t);
    var b := if t < 0 then 1 else 0;
    assert ws[n] - k == x - B * b;
    var cur' := cur[n := x];
    SubtractedNext(cur, k, ws, n, m, 0, x, b);
    AtZero(n);
    assert cur'[..n + 1] == cur' && ws[..n + 1] == ws;
    ValBound(cur');
    if b == 0 { AtZero(n + 1); }
  }

  // ---------------------------------------------------------------- add back

  method AddBack(un: array<Word>, vn: seq<Word>, j: nat)
    requires j + |vn| < un.Length
    modifies un
    ensures SameOutside(un[..], old(un[..]), j, j + |vn| + 1)
    ensures Part(un, j, j + |vn| + 1) == Wrap(old(Part(un, j, j + |vn| + 1)) + Val(vn), |vn| + 1)
  {
    var vw := |vn|;
    ghost var ws, before := un[j..j + vw + 1], un[..];
    ghost var sum := Part(un, j, j + vw + 1) + Val(vn);
    var k: nat := 0;
    for i := 0 to vw
      invariant k <= 1
      invariant Carried(un[j..j + vw + 1], k, ws, vn, 0, i)
      invariant SameOutside(un[..], before, j, j + i)
    {
      ghost var cur := un[j..j + vw + 1];
      assert un[i + j] == ws[i];
      var t := S64(un[i + j] + vn[i] + k);
      AddTurn(cur, k, ws, vn, i, t);
      un[i + j] := U32(t);
      k := t / B;
      assert un[j..j + vw + 1] == cur[i := U32(t)];
    }
    ghost var cur := un[j..j + vw + 1];
    assert un[j + vw] == ws[vw];
    un[j + vw] := U32(un[j + vw] as int + k);
    assert un[j..j + vw + 1] == cur[vw := U32(ws[vw] as int + k)];
    AddBackTop(cur, k, ws, vn, vw, sum, un[j..j + vw + 1], Part(un, j, j + vw + 1));
  }

  /** One turn of the loop: the sum t, and what it leaves. */
  lemma AddTurn(cur: seq<Word>, k: nat, ws: seq<Word>, vs: seq<Word>, i: nat, t: int)
    requires i < |cur| && i < |ws| && i < |vs| && k <= 1
    requires Carried(cur, k, ws, vs, 0, i) && t == S64(ws[i] + vs[i] + k)
    ensures t >= 0 && 0 <= t / B <= 1 && Carried(cur[i := U32(t)], t / B, ws, vs, 0, i + 1)
  {
    var c: nat := ws[i] + vs[i] + k;
    assert t == c;
    CarriedNext(cur, k, ws, vs, 0, i, c, cur[i := U32(t)]);
  }

  lemma AddBackTop(cur: seq<Word>, k: nat, ws: seq<Word>, vs: seq<Word>, n: nat, x: int, cur': seq<Word>, r: nat)
    requires |cur| == |ws| == n + 1 && |vs| == n && Carried(cur, k, ws, vs, 0, n)
    requires x == Val(ws) + Val(vs) && cur' == cur[n := U32(ws[n] as int + k)] && r == Val(cur')
    ensures r == Wrap(x, n + 1)
  {
    var c: nat := ws[n] as int + k;
    var vs' := vs + [0];
    assert vs'[..n] == vs[..n] == vs && cur'[..n + 1] == cur';
    ValConcat(vs, [0]);
    AtZero(n);
    assert Val([0]) == 0 && Val(vs') == Val(vs);
    CarriedNext(cur, k, ws, vs', 0, n, c, cur');
    var carry: nat := c / B;
    CarriedDone(cur', carry, ws, vs', 0, n + 1, x);
  }

  // ---------------------------------------------------------------- one digit

  /** d is the quotient digit of w by v, and c the remainder. */
  ghost predicate DigitStep(w: nat, v: nat, d: int, c: int) {
    w == Times(d, v) + c && 0 <= c < v
  }

  lemma TimesNext(x: int, y: nat)
    ensures Times(x + 1, y) == Times(x, y) + y
  {
    TimesIs(x, y); TimesIs(x + 1, y);
    assert (x + 1) * y == x * y + y;
  }

  lemma MultipleIs(qhat: nat, vs: seq<Word>)
    ensures Multiple(qhat, vs, |vs|) == Times(qhat, Val(vs))
  {
    assert vs[..|vs|] == vs;
  }

  /** The trial digit is at most one too large, so what is subtracted exceeds the window
      by at most the divisor. */
  lemma MultipleFits(w: nat, v: nat, qhat: nat, vs: seq<Word>)
    requires v == Val(vs) && NearDigit(w, v, qhat)
    ensures Multiple(qhat, vs, |vs|) <= w + W(|vs| + 1)
  {
    MultipleIs(qhat, vs);
    TimesNext(qhat - 1, v);
    ValBound(vs);
  }

  lemma PositiveDigit(w: nat, vs: seq<Word>, qhat: nat, c: int, t: int)
    requires Difference(w, Multiple(qhat, vs, |vs|), |vs| + 1, c, t) && t < 0
    ensures qhat >= 1
  {
    MultipleIs(qhat, vs);
    TimesIs(0, Val(vs));
  }

  lemma DigitExact(w: nat, v: nat, vs: seq<Word>, qhat: nat, c: int, t: int, d: int)
    requires v == Val(vs) && NearDigit(w, v, qhat) && t >= 0 && d == qhat
    requires Difference(w, Multiple(qhat, vs, |vs|), |vs| + 1, c, t)
    ensures DigitStep(w, v, d, c)
  {
    MultipleIs(qhat, vs);
    TimesNext(qhat, v);
  }

  lemma DigitOver(w: nat, v: nat, vs: seq<Word>, qhat: nat, c: int, t: int, c': int, d: int)
    requires v == Val(vs) && NearDigit(w, v, qhat) && t < 0 && d == qhat - 1
    requires Difference(w, Multiple(qhat, vs, |vs|), |vs| + 1, c, t)
    requires c' == Wrap(c + v, |vs| + 1)
    ensures DigitStep(w, v, d, c')
  {
    MultipleIs(qhat, vs);
    TimesNext(qhat - 1, v);
    ValBound(vs);
    WrapIs(c + v, w - Times(d, v), 1, |vs| + 1);
  }

  /** The body of the main loop: one quotient digit, and the window reduced below v. */
  method DivideDigit(un: array<Word>, vn: seq<Word>, j: nat) returns (digit: Word)
    requires Normalized(vn) && j + |vn| < un.Length
    requires Part(un, j, j + |vn| + 1) < Val(vn) * B
    modifies un
    ensures SameOutside(un[..], old(un[..]), j, j + |vn| + 1)
    ensures DigitStep(old(Part(un, j, j + |vn| + 1)), Val(vn), digit, Part(un, j, j + |vn| + 1))
  {
    ghost var w, v := Part(un, j, j + |vn| + 1), Val(vn);
    var qhat := TrialDigit(un, vn, j);
    MultipleFits(w, v, qhat, vn);
    var t := MultiplySubtract(un, vn, j, qhat);
    ghost var c := Part(un, j, j + |vn| + 1);
    digit := Low32(qhat);
    assert digit == qhat;
    if t < 0 {
      PositiveDigit(w, vn, qhat, c, t);
      digit := U32(digit - 1);
      assert digit == qhat - 1;
      AddBack(un, vn, j);
      DigitOver(w, v, vn, qhat, c, t, Part(un, j, j + |vn| + 1), digit);
    } else {
      DigitExact(w, v, vn, qhat, c, t, digit);
    }
  }
}
