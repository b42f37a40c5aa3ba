/** Addition, subtraction, negation and schoolbook multiplication of wide values.
    `carry` and `mul` are 64-bit; U64 marks where they could wrap, and the loop
    invariants show that they never do. Outputs may share storage with inputs wherever
    the C code allows it. */
module WideArith {
  import opened Bits
  import opened Words

  /** The number held by the first n words of an array. */
  ghost function ArrVal(a: array<Word>, n: nat): nat
    reads a
    requires n <= a.Length
  {
    Val(a[..n])
  }

  /** The number held by words lo to hi of an array. */
  ghost function Part(a: array<Word>, lo: nat, hi: nat): nat
    reads a
    requires lo <= hi <= a.Length
  {
    Val(a[lo..hi])
  }

  /** What n words keep of x, negative or not; WrapIsMod gives its meaning. */
  function Wrap(x: int, n: nat): nat
    decreases n
  {
    if n == 0 then 0 else x % B + B * Wrap(x / B, n - 1)
  }

  /** The words hold r when x differs from it by a multiple of the weight above them. */
  lemma {:induction false} WrapIs(x: int, r: nat, k: int, n: nat)
    requires r < W(n) && x == r + At(k, n)
    ensures Wrap(x, n) == r
    decreases n
  {
    if n > 0 {
      assert x % B == r % B && x / B == r / B + At(k, n - 1);
      WrapIs(x / B, r / B, k, n - 1);
    }
  }

  lemma {:induction false} WrapSplit(x: int, n: nat) returns (k: int)
    ensures Wrap(x, n) < W(n) && x == Wrap(x, n) + At(k, n)
    decreases n
  {
    if n == 0 { k := x; } else { k := WrapSplit(x / B, n - 1); }
  }

  lemma WrapIsMod(x: int, n: nat)
    ensures Wrap(x, n) == x % W(n)
  {
    var k := WrapSplit(x, n);
    AtIsMul(k, n);
    DivUnique(x, W(n), k, Wrap(x, n));
  }

  /** The first i words of o, with the carry, hold the sum of the first i words of l
      and r and an initial carry. */
  ghost predicate Carried(o: seq<Word>, carry: nat, l: seq<Word>, r: seq<Word>, init: nat, i: nat)
    requires i <= |o| && i <= |l| && i <= |r|
  {
    Val(o[..i]) + At(carry, i) == Val(l[..i]) + Val(r[..i]) + init
  }

  lemma CarriedNext(o: seq<Word>, cin: nat, l: seq<Word>, r: seq<Word>, init: nat, i: nat, c: nat, o': seq<Word>)
    requires i < |o| && i < |l| && i < |r| && Carried(o, cin, l, r, init, i)
    requires c == cin + l[i] + r[i] && o' == o[i := Low32(c)]
    ensures Carried(o', c / B, l, r, init, i + 1)
  {
    ValNext(o', i); ValNext(l, i); ValNext(r, i);
    assert o'[..i] == o[..i];
    CarryAt(cin, l[i], r[i], c, i);
  }

  lemma CarriedDone(o: seq<Word>, carry: nat, l: seq<Word>, r: seq<Word>, init: nat, n: nat, x: int)
    requires n <= |o| && n == |l| == |r| && Carried(o, carry, l, r, init, n)
    requires x == Val(l) + Val(r) + init
    ensures Val(o[..n]) == Wrap(x, n)
  {
    assert l[..n] == l && r[..n] == r;
    ValBound(o[..n]);
    WrapIs(x, Val(o[..n]), carry, n);
  }

  lemma CarryAt(cin: int, x: int, y: int, c: nat, i: nat)
    requires c == cin + x + y
    ensures At(Low32(c), i) + At(c / B, i + 1) == At(cin, i) + At(x, i) + At(y, i)
  {
    var lo, hi := Low32(c), c / B;
    assert c == lo + B * hi;
    AtAdd(lo, B * hi, i);
    AtAt(hi, 1, i); AtAt(hi, i, 1);
    AtAdd(cin + x, y, i); AtAdd(cin, x, i);
  }

  /** The loops that clear words lo to hi - 1. */
  method ZeroFrom(owp: array<Word>, lo: nat, hi: nat)
    requires lo <= hi <= owp.Length
    modifies owp
    ensures forall i :: lo <= i < hi ==> owp[i] == 0
    ensures forall i :: 0 <= i < owp.Length && !(lo <= i < hi) ==> owp[i] == old(owp[i])
  {
    for i := lo to hi
      invariant forall k :: lo <= k < i ==> owp[k] == 0
      invariant forall k :: 0 <= k < owp.Length && !(lo <= k < i) ==> owp[k] == old(owp[k])
    {
      owp[i] := 0;
    }
  }

  method AddW(words: nat, owp: array<Word>, lwp: array<Word>, rwp: array<Word>)
    requires words <= owp.Length && words <= lwp.Length && words <= rwp.Length
    modifies owp
    ensures ArrVal(owp, words) == Wrap(old(ArrVal(lwp, words)) + old(ArrVal(rwp, words)), words)
    ensures forall i :: words <= i < owp.Length ==> owp[i] == old(owp[i])
  {
    ghost var l, r := lwp[..words], rwp[..words];
    var carry: nat := 0;
    for i := 0 to words
      invariant carry <= 1
      invariant Carried(owp[..], carry, l, r, 0, i)
      invariant forall k :: i <= k < owp.Length ==> owp[k] == old(owp[k])
      invariant forall k :: i <= k < words ==> lwp[k] == l[k] && rwp[k] == r[k]
    {
      ghost var o, cin := owp[..], carry;
      carry := U64(carry + lwp[i] + rwp[i]);
      CarriedNext(o, cin, l, r, 0, i, carry, o[i := Low32(carry)]);
      owp[i] := Low32(carry);
      carry := carry / B;
      assert owp[..] == o[i := owp[i]];
    }
    CarriedDone(owp[..], carry, l, r, 0, words, Val(l) + Val(r));
    assert owp[..][..words] == owp[..words];
  }

  function Nots(ws: seq<Word>): (r: seq<Word>)
    ensures |r| == |ws| && forall i :: 0 <= i < |ws| ==> r[i] == Not32(ws[i])
  {
    seq(|ws|, i requires 0 <= i < |ws| => Not32(ws[i]))
  }

  lemma {:induction false} NotsVal(ws: seq<Word>)
    ensures Val(Nots(ws)) + Val(ws) + 1 == W(|ws|)
  {
    if ws != [] {
      NotsVal(ws[1..]);
      assert Nots(ws)[1..] == Nots(ws[1..]);
    }
  }

  /** The C loop starts with carry 0 and adds 1 at word 0: an initial carry of 1. */
  ghost function CarryIn(carry: nat, i: nat): nat { if i == 0 then 1 else carry }

  /** The sums of the loop fit in 64 bits. */
  lemma NoLoss(carry: nat, i: nat, x: Word, y: Word)
    requires carry <= 1 && (i == 0 ==> carry == 0)
    ensures U64(carry + x + y) == carry + x + y
    ensures (if i == 0 then U64(carry + x + y + 1) else carry + x + y) == CarryIn(carry, i) + x + y
    ensures (CarryIn(carry, i) + x + y) / B <= 1
  {
    U64Id(carry + x + y);
    U64Id(carry + x + y + 1);
  }

  lemma SubDone(o: seq<Word>, carry: nat, l: seq<Word>, nr: seq<Word>, n: nat, x: int)
    requires n <= |o| && n == |l| == |nr| && Carried(o, carry, l, nr, 1, n)
    requires x == Val(l) + Val(nr) + 1 - W(n)
    ensures Val(o[..n]) == Wrap(x, n)
  {
    assert l[..n] == l && nr[..n] == nr;
    ValBound(o[..n]);
    Borrowed(Val(o[..n]), x, carry, n);
  }

  lemma Borrowed(v: nat, x: int, carry: nat, n: nat)
    requires v < W(n) && v + At(carry, n) == x + W(n)
    ensures v == Wrap(x, n)
  {
    AtAdd(carry, 1, n);
    WrapIs(x, v, carry - 1, n);
  }

  method SubW(words: nat, owp: array<Word>, lwp: array<Word>, rwp: array<Word>)
    requires words <= owp.Length && words <= lwp.Length && words <= rwp.Length
    modifies owp
    ensures ArrVal(owp, words) == Wrap(old(ArrVal(lwp, words)) - old(ArrVal(rwp, words)), words)
    ensures forall i :: words <= i < owp.Length ==> owp[i] == old(owp[i])
  {
    ghost var l, r := lwp[..words], rwp[..words];
    ghost var nr := Nots(r);
    var carry: nat := 0;
    for i := 0 to words
      invariant carry <= 1 && (i == 0 ==> carry == 0)
      invariant Carried(owp[..], CarryIn(carry, i), l, nr, 1, i)
      invariant forall k :: i <= k < owp.Length ==> owp[k] == old(owp[k])
      invariant forall k :: i <= k < words ==> lwp[k] == l[k] && rwp[k] == r[k]
    {
      ghost var o, cin := owp[..], CarryIn(carry, i);
      NoLoss(carry, i, l[i], nr[i]);
      carry := U64(carry + lwp[i] + Not32(rwp[i]));
      if i == 0 { carry := U64(carry + 1); }
      CarriedNext(o, cin, l, nr, 1, i, carry, o[i := Low32(carry)]);
      owp[i] := Low32(carry);
      carry := carry / B;
      assert owp[..] == o[i := owp[i]];
    }
    NotsVal(r);
    SubDone(owp[..], CarryIn(carry, words), l, nr, words, Val(l) - Val(r));
    assert owp[..][..words] == owp[..words];
  }

  function Zeros(n: nat): (z: seq<Word>)
    ensures |z| == n && forall i :: 0 <= i < n ==> z[i] == 0
  {
    seq(n, _ => 0)
  }

  method NegateW(words: nat, owp: array<Word>, lwp: array<Word>)
    requires words <= owp.Length && words <= lwp.Length
    modifies owp
    ensures ArrVal(owp, words) == Wrap(0 - old(ArrVal(lwp, words)), words)
    ensures forall i :: words <= i < owp.Length ==> owp[i] == old(owp[i])
  {
    ghost var l := lwp[..words];
    ghost var nl, zero := Nots(l), Zeros(words);
    ValZero(zero);
    var carry: nat := 0;
    for i := 0 to words
      invariant carry <= 1 && (i == 0 ==> carry == 0)
      invariant Carried(owp[..], CarryIn(carry, i), zero, nl, 1, i)
      invariant forall k :: i <= k < owp.Length ==> owp[k] == old(owp[k])
      invariant forall k :: i <= k < words ==> lwp[k] == l[k]
    {
      ghost var o, cin := owp[..], CarryIn(carry, i);
      NoLoss(carry, i, 0, nl[i]);
      carry := U64(carry + Not32(lwp[i]));
      if i == 0 { carry := U64(carry + 1); }
      CarriedNext(o, cin, zero, nl, 1, i, carry, o[i := Low32(carry)]);
      owp[i] := Low32(carry);
      carry := carry / B;
      assert owp[..] == o[i := owp[i]];
    }
    NotsVal(l);
    SubDone(owp[..], CarryIn(carry, words), zero, nl, words, 0 - Val(l));
    assert owp[..][..words] == owp[..words];
  }

  // ---------------------------------------------------------------- multiplication

  /** Adding mul at word q: the low half is stored, the high half moves one word up. */
  lemma RippleStep(ws: seq<Word>, q: nat, mul: nat)
    requires q < |ws|
    ensures var c := mul + ws[q];
      Val(ws[q := Low32(c)]) + At(c / B, q + 1) == Val(ws) + At(mul, q)
  {
    var c := mul + ws[q];
    ValUpdate(ws, q, Low32(c));
    assert c == Low32(c) + B * (c / B);
    AtAt(c / B, 1, q); AtAt(c / B, q, 1);
    AtAdd(Low32(c) - ws[q], B * (c / B), q);
  }

  ghost predicate Rippled(ws: seq<Word>, mul: nat, q: nat, v0: nat, product: nat, start: nat) {
    Val(ws) + At(mul, q) == v0 + At(product, start)
  }

  /** One turn of the loop. */
  lemma RippleTurn(ws: seq<Word>, q: nat, m: nat, v0: nat, product: nat, start: nat, mul: nat)
    requires q < |ws| && m <= (B - 1) * (B - 1) && mul == U64(m + ws[q])
    requires Rippled(ws, m, q, v0, product, start)
    ensures mul / B <= (B - 1) * (B - 1) && Rippled(ws[q := Low32(mul)], mul / B, q + 1, v0, product, start)
  {
    assert mul == m + ws[q];
    RippleStep(ws, q, m);
  }

  lemma RippleDone(ws: seq<Word>, mul: nat, q: nat, v0: nat, product: nat, start: nat)
    requires Rippled(ws, mul, q, v0, product, start)
    requires q == |ws| || (q == start && start >= |ws| && Val(ws) == v0)
    ensures Val(ws) == Wrap(v0 + At(product, start), |ws|)
  {
    ValBound(ws);
    var above := start - |ws|;
    if q == |ws| {
      WrapIs(v0 + At(product, start), Val(ws), mul, |ws|);
    } else {
      AtAt(product, above, |ws|);
      WrapIs(v0 + At(product, start), Val(ws), At(product, above), |ws|);
    }
  }

  /** The innermost loop of the multiplication: add a product into owp at word `start`,
      carrying to the top and dropping what leaves it. */
  method RippleAdd(words: nat, owp: array<Word>, start: nat, product: nat)
    requires words <= owp.Length && product <= (B - 1) * (B - 1)
    modifies owp
    ensures ArrVal(owp, words) == Wrap(old(ArrVal(owp, words)) + At(product, start), words)
    ensures forall i :: words <= i < owp.Length ==> owp[i] == old(owp[i])
  {
    ghost var v0 := Val(owp[..words]);
    var mul: nat := product;
    var qword := start;
    while qword < words
      invariant start <= qword && (qword <= words || qword == start)
      invariant qword == start ==> Val(owp[..words]) == v0
      invariant mul <= (B - 1) * (B - 1)
      invariant Rippled(owp[..words], mul, qword, v0, product, start)
      invariant forall i :: words <= i < owp.Length ==> owp[i] == old(owp[i])
    {
      ghost var o, m := owp[..words], mul;
      mul := U64(mul + owp[qword]);
      RippleTurn(o, qword, m, v0, product, start, mul);
      owp[qword] := Low32(mul);
      assert owp[..words] == o[qword := Low32(mul)];
      mul := mul / B;
      qword := qword + 1;
    }
    RippleDone(owp[..words], mul, qword, v0, product, start);
  }

  /** What the product has accumulated after `lw` whole rows and `rw` words of the next. */
  ghost function Partial(l: seq<Word>, r: seq<Word>, lw: nat, rw: nat): nat
    requires lw <= |l| && rw <= |r|
  {
    Val(l[..lw]) * Val(r) + (if lw == |l| then 0 else At(l[lw] as int * Val(r[..rw]), lw))
  }

  lemma PartialStep(l: seq<Word>, r: seq<Word>, lw: nat, rw: nat)
    requires lw < |l| && rw < |r|
    ensures Partial(l, r, lw, rw + 1) == Partial(l, r, lw, rw) + At(Product64(l[lw], r[rw]), lw + rw)
  {
    var a: int, b: int, v := l[lw], r[rw], Val(r[..rw]);
    ValNext(r, rw);
    MulDist(a, v, At(b, rw));
    AtAdd(a * v, a * At(b, rw), lw);
    AtMul(a, b, rw);
    AtAt(a * b, rw, lw);
  }

  /** Adding the next product, with all that leaves the words dropped. */
  lemma PartialAdd(l: seq<Word>, r: seq<Word>, lw: nat, rw: nat, v: nat, v': nat, n: nat)
    requires lw < |l| && rw < |r| && v == Wrap(Partial(l, r, lw, rw), n)
    requires v' == Wrap(v + At(Product64(l[lw], r[rw]), lw + rw), n)
    ensures v' == Wrap(Partial(l, r, lw, rw + 1), n)
  {
    PartialStep(l, r, lw, rw);
    WrapAdd(Partial(l, r, lw, rw), At(Product64(l[lw], r[rw]), lw + rw), n);
  }

  lemma PartialRow(l: seq<Word>, r: seq<Word>, lw: nat)
    requires lw < |l|
    ensures Partial(l, r, lw, |r|) == Partial(l, r, lw + 1, 0)
  {
    ValNext(l, lw);
    assert r[..|r|] == r && r[..0] == [];
    RowSum(Val(l[..lw]), l[lw], Val(r), lw);
    AtZero(lw + 1);
    if lw + 1 < |l| { MulZero(l[lw + 1]); }
  }

  lemma RowSum(a: int, x: int, v: int, i: nat)
    ensures a * v + At(x * v, i) == (a + At(x, i)) * v
  {
    AtMul(v, x, i);
    MulDist(v, a, At(x, i));
  }

  lemma MulZero(x: int)
    ensures x * 0 == 0
  {
  }

  lemma PartialZero(l: seq<Word>, r: seq<Word>)
    ensures Partial(l, r, 0, 0) == 0 == Wrap(0, |l|)
  {
    MulZero(Val(r));
    if l != [] { MulZero(l[0]); AtZero(0); }
    AtZero(|l|);
    WrapIs(0, 0, 0, |l|);
  }

  /** A 64-bit product of two words: nothing is lost. */
  function Product64(x: Word, y: Word): (p: nat)
    ensures p == x * y && p <= (B - 1) * (B - 1)
  {
    ProductBound(x, y, B - 1);
    U64(x * y)
  }

  lemma ProductBound(x: int, y: int, m: int)
    requires 0 <= x <= m && 0 <= y <= m
    ensures 0 <= x * y <= m * m
  {
    MulMono(x, m, y); MulMono(y, m, m);
  }

  /** Reducing before adding changes nothing. */
  lemma WrapAdd(x: int, y: int, n: nat)
    ensures Wrap(Wrap(x, n) + y, n) == Wrap(x + y, n)
  {
    var k := WrapSplit(x, n);
    var k' := WrapSplit(Wrap(x, n) + y, n);
    AtAdd(k, k', n);
    WrapIs(x + y, Wrap(Wrap(x, n) + y, n), k + k', n);
  }

  method MulW(words: nat, owp: array<Word>, lwp: array<Word>, rwp: array<Word>)
    requires words <= owp.Length && words <= lwp.Length && words <= rwp.Length
    requires owp != lwp && owp != rwp
    modifies owp
    ensures ArrVal(owp, words) == Wrap(ArrVal(lwp, words) * ArrVal(rwp, words), words)
    ensures forall i :: words <= i < owp.Length ==> owp[i] == old(owp[i])
  {
    ghost var l, r := lwp[..words], rwp[..words];
    for i := 0 to words
      invariant forall k :: 0 <= k < i ==> owp[k] == 0
      invariant forall i :: words <= i < owp.Length ==> owp[i] == old(owp[i])
    {
      owp[i] := 0;
    }
    ValZero(owp[..words]);
    PartialZero(l, r);
    for lword := 0 to words
      invariant Val(owp[..words]) == Wrap(Partial(l, r, lword, 0), words)
      invariant forall i :: words <= i < owp.Length ==> owp[i] == old(owp[i])
    {
      for rword := 0 to words
        invariant Val(owp[..words]) == Wrap(Partial(l, r, lword, rword), words)
        invariant forall i :: words <= i < owp.Length ==> owp[i] == old(owp[i])
      {
        assert lwp[lword] == l[lword] && rwp[rword] == r[rword];
        ghost var v := ArrVal(owp, words);
        var mul := Product64(lwp[lword], rwp[rword]);
        RippleAdd(words, owp, lword + rword, mul);
        PartialAdd(l, r, lword, rword, v, ArrVal(owp, words), words);
      }
      PartialRow(l, r, lword);
    }
    assert l[..words] == l;
  }
}
