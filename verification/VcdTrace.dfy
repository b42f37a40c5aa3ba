/** The value changes of a VCD file: each signal is printed when the bits that its width covers
    differ from those stored when it was last printed. */
module VcdTrace {
  import opened Bits
  import opened Words
  import opened VcdText

  // ---------------------------------------------------------------- codes

  /** `stringCode`, and what `printCode` writes: the code in base 94, with at most four digits. */
  function StringCode(code: nat): string {
    (if code >= 94 * 94 * 94 then [Digit(code / 94 / 94 / 94)] else "") +
    (if code >= 94 * 94 then [Digit(code / 94 / 94)] else "") +
    (if code >= 94 then [Digit(code / 94)] else "") +
    [Digit(code)]
  }

  function Digit(x: nat): char { (x % 94 + 33) as char }

  /** `printCode` puts the digits out one by one. */
  method PrintCode(code: nat, out: string) returns (r: string)
    ensures r == out + StringCode(code)
  {
    r := out;
    if code >= 94 * 94 * 94 { r := r + [Digit(code / 94 / 94 / 94)]; }
    if code >= 94 * 94 { r := r + [Digit(code / 94 / 94)]; }
    if code >= 94 { r := r + [Digit(code / 94)]; }
    r := r + [Digit(code)];
  }

  /** The first code whose digits do not fit, and are those of a smaller one. */
  const CODE_LIMIT: nat := 94 * 94 * 94 * 94 + 94 * 94 * 94

  function Digits(code: nat): (r: (nat, nat, nat, nat))
    ensures code == ((r.0 * 94 + r.1) * 94 + r.2) * 94 + r.3 && r.1 < 94 && r.2 < 94 && r.3 < 94
  {
    (code / 94 / 94 / 94, code / 94 / 94 % 94, code / 94 % 94, code % 94)
  }

  lemma CodeDigits(code: nat)
    ensures var d := Digits(code);
            StringCode(code) ==
            if d.0 > 0 then [Digit(d.0), Digit(d.1), Digit(d.2), Digit(d.3)]
            else if d.1 > 0 then [Digit(d.1), Digit(d.2), Digit(d.3)]
            else if d.2 > 0 then [Digit(d.2), Digit(d.3)]
            else [Digit(d.3)]
  {
    assert code >= 94 * 94 * 94 <==> code / 94 / 94 / 94 > 0;
    assert code >= 94 * 94 <==> code / 94 / 94 > 0;
    assert code >= 94 <==> code / 94 > 0;
    DigitMod(code / 94 / 94);
    DigitMod(code / 94);
    DigitMod(code);
  }

  /** A code is made of printable characters other than the space. */
  lemma CodePrintable(code: nat)
    ensures 1 <= |StringCode(code)| <= 4
    ensures forall k :: 0 <= k < |StringCode(code)| ==> '!' <= StringCode(code)[k] <= '~'
  {
    CodeDigits(code);
  }

  lemma DigitMod(x: nat)
    ensures Digit(x % 94) == Digit(x)
  {
  }

  lemma DigitInjective(x: nat, y: nat)
    requires x < 94 && y < 94
    ensures Digit(x) == Digit(y) <==> x == y
  {
    assert Digit(x) as int == x + 33 && Digit(y) as int == y + 33;
  }

  /** Different codes below the limit have different texts. */
  lemma CodeInjective(a: nat, b: nat)
    requires a < CODE_LIMIT && b < CODE_LIMIT && StringCode(a) == StringCode(b)
    ensures a == b
  {
    var d, e := Digits(a), Digits(b);
    CodeDigits(a);
    CodeDigits(b);
    var s := StringCode(a);
    assert |s| == if d.0 > 0 then 4 else if d.1 > 0 then 3 else if d.2 > 0 then 2 else 1;
    assert |s| == if e.0 > 0 then 4 else if e.1 > 0 then 3 else if e.2 > 0 then 2 else 1;
    assert s[|s| - 1] == Digit(d.3) == Digit(e.3);
    DigitInjective(d.3, e.3);
    if |s| >= 2 { assert s[|s| - 2] == Digit(d.2) == Digit(e.2); DigitInjective(d.2, e.2); }
    if |s| >= 3 { assert s[|s| - 3] == Digit(d.1) == Digit(e.1); DigitInjective(d.1, e.1); }
    if |s| >= 4 {
      assert s[0] == Digit(d.0) == Digit(e.0);
      DigitMod(d.0); DigitMod(e.0);
      DigitInjective(d.0 % 94, e.0 % 94);
    }
    TopDigit(a); TopDigit(b);
    assert d.0 == e.0 && d.1 == e.1 && d.2 == e.2 && d.3 == e.3;
    SameDigits(a, b);
  }

  lemma TopDigit(code: nat)
    requires code < CODE_LIMIT
    ensures Digits(code).0 <= 94
  {
  }

  lemma SameDigits(a: nat, b: nat)
    requires Digits(a) == Digits(b)
    ensures a == b
  {
  }

  /** At the limit the text of 94^3 comes again. */
  lemma CodeCollides()
    ensures StringCode(CODE_LIMIT) == StringCode(94 * 94 * 94)
  {
    CodeDigits(CODE_LIMIT);
    CodeDigits(94 * 94 * 94);
    assert Digits(CODE_LIMIT) == (95, 0, 0, 0) && Digits(94 * 94 * 94) == (1, 0, 0, 0);
    DigitMod(95);
  }

  // ---------------------------------------------------------------- exclusive or

  function Xor(x: nat, y: nat): nat
    decreases x + y
  {
    if x == 0 && y == 0 then 0
    else 2 * Xor(x / 2, y / 2) + (if x % 2 != y % 2 then 1 else 0)
  }

  lemma {:induction false} BitXor(x: nat, y: nat, i: nat)
    ensures Bit(Xor(x, y), i) <==> Bit(x, i) != Bit(y, i)
    decreases i
  {
    if x == 0 && y == 0 {
      ZeroBit(i);
    } else {
      assert Xor(x, y) / 2 == Xor(x / 2, y / 2);
      if i > 0 { BitXor(x / 2, y / 2, i - 1); }
    }
  }

  // ---------------------------------------------------------------- signals

  datatype Kind = KBit | KBus | KQuad | KArray | KTriBit | KTriBus | KTriArray

  datatype Sig = Sig(kind: Kind, code: nat, bits: nat)

  /** The words of a value, and for tristate signals those of its enables. */
  datatype Value = Value(vals: seq<Word>, tris: seq<Word>)

  predicate IsTri(sig: Sig) { sig.kind == KTriBit || sig.kind == KTriBus || sig.kind == KTriArray }

  /** The widths that the routines are made for. */
  predicate SigOk(sig: Sig) {
    sig.code > 0 &&
    match sig.kind
    case KBit => sig.bits == 1
    case KTriBit => sig.bits == 1
    case KBus => 1 <= sig.bits <= 32
    case KTriBus => 1 <= sig.bits <= 32
    case KQuad => 33 <= sig.bits <= 64
    case KArray => sig.bits >= 1
    case KTriArray => sig.bits >= 1
  }

  function WordCount(sig: Sig): nat
    requires sig.bits >= 1
  {
    (sig.bits - 1) / 32 + 1
  }

  /** The words of `m_sigs_oldvalp` that the routines use. */
  function Size(sig: Sig): nat
    requires sig.bits >= 1
  {
    if IsTri(sig) then 2 * WordCount(sig) else WordCount(sig)
  }

  /** A value of the right number of words; `fullTriBit` looks its bits up without a mask. */
  predicate ValueOk(sig: Sig, v: Value)
    requires sig.bits >= 1
  {
    |v.vals| == WordCount(sig) && |v.tris| == (if IsTri(sig) then WordCount(sig) else 0) &&
    (sig.kind == KTriBit ==> v.vals[0] < 2 && v.tris[0] < 2)
  }

  /** What is stored for a signal. */
  ghost function Stored(sig: Sig, oldval: seq<Word>): Value
    requires sig.bits >= 1 && sig.code + Size(sig) <= |oldval|
  {
    var n := WordCount(sig);
    if IsTri(sig) then
      Value(seq(n, w requires 0 <= w < n => oldval[sig.code + 2 * w]),
            seq(n, w requires 0 <= w < n => oldval[sig.code + 2 * w + 1]))
    else Value(oldval[sig.code..sig.code + n], [])
  }

  // ---------------------------------------------------------------- texts

  /** The current value masked to the width, as a reader should see it. */
  function Text(sig: Sig, v: Value): string {
    if IsTri(sig) then TriText(Val(v.vals), Val(v.tris), sig.bits) else BitsText(Val(v.vals), sig.bits)
  }

  /** What a reader takes a text for: the number that the signal's bits make, or for a tristate
      signal, bit by bit, 0, 1 or z. */
  ghost predicate Means(text: string, sig: Sig, v: Value) {
    |text| == sig.bits &&
    if IsTri(sig) then
      forall k :: 0 <= k < sig.bits ==>
        text[sig.bits - 1 - k] == if Bit(Val(v.tris), k) then 'z' else if Bit(Val(v.vals), k) then '1' else '0'
    else
      IsBinary(text) && Number(text) == Low(Val(v.vals), sig.bits)
  }

  lemma TextMeans(sig: Sig, v: Value)
    ensures Means(Text(sig, v), sig, v)
  {
    if IsTri(sig) { TriRead(Val(v.vals), Val(v.tris), sig.bits); } else { BitsRead(Val(v.vals), sig.bits); }
  }

  /** No difference under the mask. */
  lemma MaskedSame(x: nat, y: nat, bits: nat)
    requires And(Xor(x, y), Pow2(bits) - 1) == 0
    ensures forall k :: 0 <= k < bits ==> Bit(x, k) == Bit(y, k)
  {
    forall k | 0 <= k < bits ensures Bit(x, k) == Bit(y, k) {
      BitXor(x, y, k);
      BitAnd(Xor(x, y), Pow2(bits) - 1, k);
      MaskBit(bits, k);
      ZeroBit(k);
    }
  }

  lemma XorSame(x: nat, y: nat)
    requires Xor(x, y) == 0
    ensures forall k: nat :: Bit(x, k) == Bit(y, k)
  {
    forall k: nat ensures Bit(x, k) == Bit(y, k) { BitXor(x, y, k); ZeroBit(k); }
  }

  /** The same for a value and its enables together. */
  lemma MaskedSameBoth(x: nat, y: nat, t: nat, s: nat, bits: nat)
    requires And(Or(Xor(x, y), Xor(t, s)), Pow2(bits) - 1) == 0
    ensures forall k :: 0 <= k < bits ==> Bit(x, k) == Bit(y, k) && Bit(t, k) == Bit(s, k)
  {
    forall k | 0 <= k < bits ensures Bit(x, k) == Bit(y, k) && Bit(t, k) == Bit(s, k) {
      BitXor(x, y, k);
      BitXor(t, s, k);
      BitOr(Xor(x, y), Xor(t, s), k);
      BitAnd(Or(Xor(x, y), Xor(t, s)), Pow2(bits) - 1, k);
      MaskBit(bits, k);
      ZeroBit(k);
    }
  }

  lemma OrZeroBoth(x: nat, y: nat)
    requires Or(x, y) == 0
    ensures x == 0 && y == 0
  {
  }

  lemma {:induction false} XorEqual(x: nat, y: nat)
    ensures Xor(x, y) == 0 <==> x == y
    decreases x + y
  {
    if x != 0 || y != 0 { XorEqual(x / 2, y / 2); }
  }

  // ---------------------------------------------------------------- the writer

  datatype Line = Line(value: string, code: string)

  /** v was stored for the signal and nothing else has changed. */
  ghost predicate Wrote(sig: Sig, v: Value, o: seq<Word>, n: seq<Word>)
    requires sig.bits >= 1 && sig.code + Size(sig) <= |n|
  {
    |o| == |n| && Stored(sig, n) == v &&
    forall k :: 0 <= k < |o| && !(sig.code <= k < sig.code + Size(sig)) ==> n[k] == o[k]
  }

  function LineOf(sig: Sig, v: Value): Line {
    Line(Text(sig, v), StringCode(sig.code))
  }

  lemma StoredArray(sig: Sig, o: seq<Word>, vals: seq<Word>)
    requires sig.bits >= 1 && !IsTri(sig) && sig.code + Size(sig) <= |o| && |vals| == WordCount(sig)
    requires forall w :: 0 <= w < WordCount(sig) ==> o[sig.code + w] == vals[w]
    ensures Stored(sig, o) == Value(vals, [])
  {
    assert o[sig.code..sig.code + WordCount(sig)] == vals;
  }

  lemma StoredTri(sig: Sig, o: seq<Word>, vals: seq<Word>, tris: seq<Word>)
    requires sig.bits >= 1 && IsTri(sig) && sig.code + Size(sig) <= |o| && |vals| == |tris| == WordCount(sig)
    requires forall w :: 0 <= w < WordCount(sig) ==>
               o[sig.code + 2 * w] == vals[w] && o[sig.code + 2 * w + 1] == tris[w]
    ensures Stored(sig, o) == Value(vals, tris)
  {
    var st := Stored(sig, o);
    assert st.vals == vals && st.tris == tris;
  }

  /** What a change routine may do: print and store the value, or nothing when the stored bits
      already show it. */
  ghost predicate Noted(sig: Sig, v: Value, o: seq<Word>, l: seq<Line>, n: seq<Word>, m: seq<Line>)
    requires sig.bits >= 1 && sig.code + Size(sig) <= |o| == |n|
  {
    (m == l + [LineOf(sig, v)] && Wrote(sig, v, o, n)) ||
    (m == l && n == o && Text(sig, Stored(sig, o)) == Text(sig, v))
  }

  /** The part of `VerilatedVcd` that writes the changes. */
  class TraceWriter {
    const oldval: array<Word>
    /** All lines of all files; the current file begins at `start`. */
    var lines: seq<Line>
    var start: nat
    var fullDump: bool
    var isOpen: bool

    /** `opens` says whether the file system let the file be opened. */
    constructor (nextCode: nat, opens: bool)
      ensures fresh(oldval) && oldval.Length == nextCode + 10 && lines == [] && start == 0
      ensures fullDump && isOpen == opens
    {
      oldval := new Word[nextCode + 10];
      lines, start, fullDump, isOpen := [], 0, true, opens;
    }

    /** `openNext`: the next file of the series. Its first dump is to be a full one. */
    method OpenNext(opens: bool)
      modifies this`start, this`fullDump, this`isOpen
      ensures isOpen == opens
      ensures if opens then start == |lines| && fullDump else start == old(start) && fullDump == old(fullDump)
    {
      isOpen := opens;
      if opens { start, fullDump := |lines|, true; }
    }

    method FullBit(sig: Sig, newval: Word)
      requires sig.kind == KBit && SigOk(sig) && sig.code + Size(sig) <= oldval.Length
      modifies oldval, this`lines
      ensures Wrote(sig, Value([newval], []), old(oldval[..]), oldval[..])
      ensures lines == old(lines) + [LineOf(sig, Value([newval], []))]
    {
      ValOne(newval);
      oldval[sig.code] := newval;
      OneBit(newval, 0);
      lines := lines + [Line([BitChar(newval % 2 == 1)], StringCode(sig.code))];
    }

    method FullBus(sig: Sig, newval: Word)
      requires sig.kind == KBus && SigOk(sig) && sig.code + Size(sig) <= oldval.Length
      modifies oldval, this`lines
      ensures Wrote(sig, Value([newval], []), old(oldval[..]), oldval[..])
      ensures lines == old(lines) + [LineOf(sig, Value([newval], []))]
    {
      ValOne(newval);
      oldval[sig.code] := newval;
      var text := BusText(newval, sig.bits);
      lines := lines + [Line(text, StringCode(sig.code))];
    }

    /** The two words of a quad are its low and its high half. */
    method FullQuad(sig: Sig, lo: Word, hi: Word)
      requires sig.kind == KQuad && SigOk(sig) && sig.code + Size(sig) <= oldval.Length
      modifies oldval, this`lines
      ensures Wrote(sig, Value([lo, hi], []), old(oldval[..]), oldval[..])
      ensures lines == old(lines) + [LineOf(sig, Value([lo, hi], []))]
    {
      ValTwo(lo, hi);
      oldval[sig.code] := lo;
      oldval[sig.code + 1] := hi;
      var text := BusText(lo + B * hi, sig.bits);
      lines := lines + [Line(text, StringCode(sig.code))];
    }

    method FullArray(sig: Sig, newval: seq<Word>)
      requires sig.kind == KArray && SigOk(sig) && sig.code + Size(sig) <= oldval.Length && |newval| == WordCount(sig)
      modifies oldval, this`lines
      ensures Wrote(sig, Value(newval, []), old(oldval[..]), oldval[..])
      ensures lines == old(lines) + [LineOf(sig, Value(newval, []))]
    {
      for word := 0 to WordCount(sig)
        invariant forall w :: 0 <= w < word ==> oldval[sig.code + w] == newval[w]
        invariant forall k :: 0 <= k < oldval.Length && !(sig.code <= k < sig.code + Size(sig)) ==>
                    oldval[k] == old(oldval[k])
        invariant lines == old(lines)
      {
        oldval[sig.code + word] := newval[word];
      }
      var text := ArrayText(newval, sig.bits);
      lines := lines + [Line(text, StringCode(sig.code))];
      StoredArray(sig, oldval[..], newval);
    }

    method FullTriBit(sig: Sig, newval: Word, newtri: Word)
      requires sig.kind == KTriBit && SigOk(sig) && sig.code + Size(sig) <= oldval.Length && newval < 2 && newtri < 2
      modifies oldval, this`lines
      ensures Wrote(sig, Value([newval], [newtri]), old(oldval[..]), oldval[..])
      ensures lines == old(lines) + [LineOf(sig, Value([newval], [newtri]))]
    {
      ValOne(newval);
      ValOne(newtri);
      oldval[sig.code] := newval;
      oldval[sig.code + 1] := newtri;
      OneBit(newval, newtri);
      lines := lines + [Line(["01zz"[oldval[sig.code] + 2 * oldval[sig.code + 1]]], StringCode(sig.code))];
      StoredTri(sig, oldval[..], [newval], [newtri]);
    }

    method FullTriBus(sig: Sig, newval: Word, newtri: Word)
      requires sig.kind == KTriBus && SigOk(sig) && sig.code + Size(sig) <= oldval.Length
      modifies oldval, this`lines
      ensures Wrote(sig, Value([newval], [newtri]), old(oldval[..]), oldval[..])
      ensures lines == old(lines) + [LineOf(sig, Value([newval], [newtri]))]
    {
      ValOne(newval);
      ValOne(newtri);
      oldval[sig.code] := newval;
      oldval[sig.code + 1] := newtri;
      var text := TriBusText(newval, newtri, sig.bits);
      lines := lines + [Line(text, StringCode(sig.code))];
      StoredTri(sig, oldval[..], [newval], [newtri]);
    }

    method FullTriArray(sig: Sig, newval: seq<Word>, newtri: seq<Word>)
      requires sig.kind == KTriArray && SigOk(sig) && sig.code + Size(sig) <= oldval.Length
      requires |newval| == |newtri| == WordCount(sig)
      modifies oldval, this`lines
      ensures Wrote(sig, Value(newval, newtri), old(oldval[..]), oldval[..])
      ensures lines == old(lines) + [LineOf(sig, Value(newval, newtri))]
    {
      for word := 0 to WordCount(sig)
        invariant forall w :: 0 <= w < word ==>
                    oldval[sig.code + 2 * w] == newval[w] && oldval[sig.code + 2 * w + 1] == newtri[w]
        invariant forall k :: 0 <= k < oldval.Length && !(sig.code <= k < sig.code + Size(sig)) ==>
                    oldval[k] == old(oldval[k])
        invariant lines == old(lines)
      {
        oldval[sig.code + word * 2] := newval[word];
        oldval[sig.code + word * 2 + 1] := newtri[word];
      }
      var text := TriArrayText(newval, newtri, sig.bits);
      lines := lines + [Line(text, StringCode(sig.code))];
      StoredTri(sig, oldval[..], newval, newtri);
    }

    method ChgBit(sig: Sig, newval: Word)
      requires sig.kind == KBit && SigOk(sig) && sig.code + Size(sig) <= oldval.Length
      modifies oldval, this`lines
      ensures Noted(sig, Value([newval], []), old(oldval[..]), old(lines), oldval[..], lines)
    {
      var diff := Xor(oldval[sig.code], newval);
      StoredArray(sig, oldval[..], [oldval[sig.code]]);
      ValOne(oldval[sig.code]);
      ValOne(newval);
      if diff != 0 && And(diff, 1) != 0 {
        FullBit(sig, newval);
      } else {
        Unmasked(oldval[sig.code], newval, 1);
        SameText(oldval[sig.code], newval, 1);
      }
    }

    method ChgBus(sig: Sig, newval: Word)
      requires sig.kind == KBus && SigOk(sig) && sig.code + Size(sig) <= oldval.Length
      modifies oldval, this`lines
      ensures Noted(sig, Value([newval], []), old(oldval[..]), old(lines), oldval[..], lines)
    {
      var diff := Xor(oldval[sig.code], newval);
      StoredArray(sig, oldval[..], [oldval[sig.code]]);
      ValOne(oldval[sig.code]);
      ValOne(newval);
      if diff != 0 && (sig.bits == 32 || And(diff, Pow2(sig.bits) - 1) != 0) {
        FullBus(sig, newval);
      } else {
        Unmasked(oldval[sig.code], newval, sig.bits);
        SameText(oldval[sig.code], newval, sig.bits);
      }
    }

    method ChgQuad(sig: Sig, lo: Word, hi: Word)
      requires sig.kind == KQuad && SigOk(sig) && sig.code + Size(sig) <= oldval.Length
      modifies oldval, this`lines
      ensures Noted(sig, Value([lo, hi], []), old(oldval[..]), old(lines), oldval[..], lines)
    {
      var newval: nat := lo + B * hi;
      var was: nat := oldval[sig.code] + B * oldval[sig.code + 1];
      var diff := Xor(was, newval);
      StoredArray(sig, oldval[..], [oldval[sig.code], oldval[sig.code + 1]]);
      ValTwo(oldval[sig.code], oldval[sig.code + 1]);
      ValTwo(lo, hi);
      if diff != 0 && (sig.bits == 64 || And(diff, Pow2(sig.bits) - 1) != 0) {
        FullQuad(sig, lo, hi);
      } else {
        Unmasked(was, newval, sig.bits);
        SameText(was, newval, sig.bits);
      }
    }

    method ChgArray(sig: Sig, newval: seq<Word>)
      requires sig.kind == KArray && SigOk(sig) && sig.code + Size(sig) <= oldval.Length && |newval| == WordCount(sig)
      modifies oldval, this`lines
      ensures Noted(sig, Value(newval, []), old(oldval[..]), old(lines), oldval[..], lines)
    {
      for word := 0 to WordCount(sig)
        invariant forall w :: 0 <= w < word ==> oldval[sig.code + w] == newval[w]
        invariant oldval[..] == old(oldval[..]) && lines == old(lines)
      {
        XorEqual(oldval[sig.code + word], newval[word]);
        if Xor(oldval[sig.code + word], newval[word]) != 0 {
          FullArray(sig, newval);
          return;
        }
      }
      StoredArray(sig, oldval[..], newval);
    }

    method ChgTriBit(sig: Sig, newval: Word, newtri: Word)
      requires sig.kind == KTriBit && SigOk(sig) && sig.code + Size(sig) <= oldval.Length && newval < 2 && newtri < 2
      modifies oldval, this`lines
      ensures Noted(sig, Value([newval], [newtri]), old(oldval[..]), old(lines), oldval[..], lines)
    {
      var v, t := oldval[sig.code], oldval[sig.code + 1];
      var diff := Or(Xor(v, newval), Xor(t, newtri));
      StoredTri(sig, oldval[..], [v], [t]);
      ValOne(v); ValOne(t); ValOne(newval); ValOne(newtri);
      if diff != 0 && And(diff, 1) != 0 {
        FullTriBit(sig, newval, newtri);
      } else {
        UnmaskedBoth(v, newval, t, newtri, 1);
        SameTriText(v, newval, t, newtri, 1);
      }
    }

    method ChgTriBus(sig: Sig, newval: Word, newtri: Word)
      requires sig.kind == KTriBus && SigOk(sig) && sig.code + Size(sig) <= oldval.Length
      modifies oldval, this`lines
      ensures Noted(sig, Value([newval], [newtri]), old(oldval[..]), old(lines), oldval[..], lines)
    {
      var v, t := oldval[sig.code], oldval[sig.code + 1];
      var diff := Or(Xor(v, newval), Xor(t, newtri));
      StoredTri(sig, oldval[..], [v], [t]);
      ValOne(v); ValOne(t); ValOne(newval); ValOne(newtri);
      if diff != 0 && (sig.bits == 32 || And(diff, Pow2(sig.bits) - 1) != 0) {
        FullTriBus(sig, newval, newtri);
      } else {
        UnmaskedBoth(v, newval, t, newtri, sig.bits);
        SameTriText(v, newval, t, newtri, sig.bits);
      }
    }

    method ChgTriArray(sig: Sig, newval: seq<Word>, newtri: seq<Word>)
      requires sig.kind == KTriArray && SigOk(sig) && sig.code + Size(sig) <= oldval.Length
      requires |newval| == |newtri| == WordCount(sig)
      modifies oldval, this`lines
      ensures Noted(sig, Value(newval, newtri), old(oldval[..]), old(lines), oldval[..], lines)
    {
      for word := 0 to WordCount(sig)
        invariant forall w :: 0 <= w < word ==>
                    oldval[sig.code + 2 * w] == newval[w] && oldval[sig.code + 2 * w + 1] == newtri[w]
        invariant oldval[..] == old(oldval[..]) && lines == old(lines)
      {
        XorEqual(oldval[sig.code + word * 2], newval[word]);
        XorEqual(oldval[sig.code + word * 2 + 1], newtri[word]);
        if Or(Xor(oldval[sig.code + word * 2], newval[word]), Xor(oldval[sig.code + word * 2 + 1], newtri[word])) != 0 {
          FullTriArray(sig, newval, newtri);
          return;
        }
        OrZeroBoth(Xor(oldval[sig.code + word * 2], newval[word]), Xor(oldval[sig.code + word * 2 + 1], newtri[word]));
      }
      StoredTri(sig, oldval[..], newval, newtri);
    }

    /** The full routine of the signal's kind. */
    method Full(sig: Sig, v: Value)
      requires SigOk(sig) && ValueOk(sig, v) && sig.code + Size(sig) <= oldval.Length
      modifies oldval, this`lines
      ensures Wrote(sig, v, old(oldval[..]), oldval[..]) && lines == old(lines) + [LineOf(sig, v)]
    {
      Shape(sig, v);
      match sig.kind {
        case KBit => FullBit(sig, v.vals[0]);
        case KBus => FullBus(sig, v.vals[0]);
        case KQuad => FullQuad(sig, v.vals[0], v.vals[1]);
        case KArray => FullArray(sig, v.vals);
        case KTriBit => FullTriBit(sig, v.vals[0], v.tris[0]);
        case KTriBus => FullTriBus(sig, v.vals[0], v.tris[0]);
        case KTriArray => FullTriArray(sig, v.vals, v.tris);
      }
    }

    /** The change routine of the signal's kind. */
    method Chg(sig: Sig, v: Value)
      requires SigOk(sig) && ValueOk(sig, v) && sig.code + Size(sig) <= oldval.Length
      modifies oldval, this`lines
      ensures Noted(sig, v, old(oldval[..]), old(lines), oldval[..], lines)
    {
      Shape(sig, v);
      match sig.kind {
        case KBit => ChgBit(sig, v.vals[0]);
        case KBus => ChgBus(sig, v.vals[0]);
        case KQuad => ChgQuad(sig, v.vals[0], v.vals[1]);
        case KArray => ChgArray(sig, v.vals);
        case KTriBit => ChgTriBit(sig, v.vals[0], v.tris[0]);
        case KTriBus => ChgTriBus(sig, v.vals[0], v.tris[0]);
        case KTriArray => ChgTriArray(sig, v.vals, v.tris);
      }
    }

    /** Unless a full dump is due, a reader of the current file alone is up to date with what is
        stored. */
    ghost predicate Valid(sigs: seq<Sig>)
      reads this, oldval
    {
      Layout(sigs, oldval.Length) && start <= |lines| &&
      (!fullDump ==> Seen(sigs, |sigs|, oldval[..], lines[start..]))
    }

    /** `dumpFull`: every signal is printed. */
    method DumpFull(sigs: seq<Sig>, vals: seq<Value>)
      requires Layout(sigs, oldval.Length) && |vals| == |sigs| && start <= |lines|
      requires forall i :: 0 <= i < |sigs| ==> ValueOk(sigs[i], vals[i])
      modifies oldval, this`lines
      ensures old(lines) <= lines
      ensures Seen(sigs, |sigs|, oldval[..], lines[start..]) && Shows(sigs, vals, |sigs|, lines[start..])
      ensures Reads(sigs, vals, lines[start..])
    {
      for i := 0 to |sigs|
        invariant old(lines) <= lines
        invariant Seen(sigs, i, oldval[..], lines[start..]) && Shows(sigs, vals, i, lines[start..])
      {
        ghost var o, l := oldval[..], lines;
        Full(sigs[i], vals[i]);
        TailNext(l, LineOf(sigs[i], vals[i]), start);
        PrintedSeen(sigs, vals, i, i, o, l[start..], oldval[..], lines[start..]);
      }
      ShowsReads(sigs, vals, lines[start..]);
    }

    /** The change callbacks. */
    method DumpChanges(sigs: seq<Sig>, vals: seq<Value>, ghost base: nat)
      requires base <= |lines| && Seen(sigs, |sigs|, oldval[..], lines[base..])
      requires |vals| == |sigs| && forall i :: 0 <= i < |sigs| ==> ValueOk(sigs[i], vals[i])
      modifies oldval, this`lines
      ensures old(lines) <= lines
      ensures Seen(sigs, |sigs|, oldval[..], lines[base..]) && Shows(sigs, vals, |sigs|, lines[base..])
    {
      for i := 0 to |sigs|
        invariant old(lines) <= lines
        invariant Seen(sigs, |sigs|, oldval[..], lines[base..]) && Shows(sigs, vals, i, lines[base..])
      {
        ghost var o, l := oldval[..], lines;
        Chg(sigs[i], vals[i]);
        TailNext(l, LineOf(sigs[i], vals[i]), base);
        NotedSeen(sigs, vals, i, o, l[base..], oldval[..], lines[base..]);
      }
    }

    /** `dump`: a full dump when one is due, else only the changes. `over` says whether the file
        has grown past the limit, so that the next one is opened first; the changes then go there,
        and the full dump has to wait. */
    method Dump(sigs: seq<Sig>, vals: seq<Value>, over: bool, opens: bool)
      requires Valid(sigs) && |vals| == |sigs| && forall i :: 0 <= i < |sigs| ==> ValueOk(sigs[i], vals[i])
      modifies this, oldval
      ensures Valid(sigs) && old(lines) <= lines
      ensures isOpen == (old(isOpen) && (old(!fullDump) && over ==> opens))
      ensures !isOpen ==> lines == old(lines) && oldval[..] == old(oldval[..])
      ensures isOpen ==> Shows(sigs, vals, |sigs|, lines) && Reads(sigs, vals, lines)
      ensures isOpen ==> fullDump == (old(!fullDump) && over)
      ensures isOpen && fullDump ==> start == |old(lines)|
      ensures isOpen && !fullDump ==> start == old(start) && Shows(sigs, vals, |sigs|, lines[start..])
      ensures isOpen && !fullDump ==> Reads(sigs, vals, lines[start..])
    {
      if !isOpen { return; }
      ghost var base := start;
      if fullDump {
        fullDump := false;
        DumpFull(sigs, vals);
      } else {
        if over {
          OpenNext(opens);
          if !isOpen { return; }
        }
        DumpChanges(sigs, vals, base);
      }
      TailShows(sigs, vals, lines, base);
      ShowsReads(sigs, vals, lines);
      ShowsReads(sigs, vals, lines[base..]);
    }
  }

  lemma Unmasked(x: nat, y: nat, bits: nat)
    requires Xor(x, y) == 0 || And(Xor(x, y), Pow2(bits) - 1) == 0
    ensures forall k :: 0 <= k < bits ==> Bit(x, k) == Bit(y, k)
  {
    if Xor(x, y) == 0 { XorSame(x, y); } else { MaskedSame(x, y, bits); }
  }

  lemma UnmaskedBoth(x: nat, y: nat, t: nat, s: nat, bits: nat)
    requires Or(Xor(x, y), Xor(t, s)) == 0 || And(Or(Xor(x, y), Xor(t, s)), Pow2(bits) - 1) == 0
    ensures forall k :: 0 <= k < bits ==> Bit(x, k) == Bit(y, k) && Bit(t, k) == Bit(s, k)
  {
    if Or(Xor(x, y), Xor(t, s)) == 0 {
      OrZeroBoth(Xor(x, y), Xor(t, s));
      XorSame(x, y);
      XorSame(t, s);
    } else {
      MaskedSameBoth(x, y, t, s, bits);
    }
  }

  /** The narrow kinds have one word, quads two. */
  lemma Shape(sig: Sig, v: Value)
    requires SigOk(sig) && ValueOk(sig, v)
    ensures !IsTri(sig) ==> v.tris == []
    ensures sig.kind == KBit || sig.kind == KBus ==> v == Value([v.vals[0]], [])
    ensures sig.kind == KQuad ==> |v.vals| == 2 && v == Value([v.vals[0], v.vals[1]], [])
    ensures sig.kind == KTriBit || sig.kind == KTriBus ==> v == Value([v.vals[0]], [v.tris[0]])
  {
  }

  // ---------------------------------------------------------------- the reader

  datatype Option<T> = None | Some(value: T)

  /** The value that a reader has for a code: the last one printed. */
  function Shown(lines: seq<Line>, code: string): Option<string> {
    if lines == [] then None
    else if lines[|lines| - 1].code == code then Some(lines[|lines| - 1].value)
    else Shown(lines[..|lines| - 1], code)
  }

  lemma ShownNext(lines: seq<Line>, line: Line, code: string)
    ensures Shown(lines + [line], code) == if line.code == code then Some(line.value) else Shown(lines, code)
  {
    assert (lines + [line])[..|lines|] == lines;
  }

  lemma TailNext(lines: seq<Line>, line: Line, n: nat)
    requires n <= |lines|
    ensures (lines + [line])[n..] == lines[n..] + [line]
  {
  }

  /** What the end of a series of lines shows, the whole shows. */
  lemma {:induction false} TailShown(lines: seq<Line>, n: nat, code: string)
    requires n <= |lines| && Shown(lines[n..], code).Some?
    ensures Shown(lines, code) == Shown(lines[n..], code)
    decreases |lines|
  {
    var tail := lines[n..];
    if tail[|tail| - 1].code != code {
      assert tail[..|tail| - 1] == lines[..|lines| - 1][n..];
      TailShown(lines[..|lines| - 1], n, code);
    }
  }

  predicate Apart(a: Sig, b: Sig)
    requires a.bits >= 1 && b.bits >= 1
  {
    a.code + Size(a) <= b.code || b.code + Size(b) <= a.code
  }

  /** The signals have words of their own, and codes that fit. */
  ghost predicate Layout(sigs: seq<Sig>, length: nat) {
    (forall i :: 0 <= i < |sigs| ==>
      SigOk(sigs[i]) && sigs[i].code + Size(sigs[i]) <= length && sigs[i].code < CODE_LIMIT) &&
    forall i, j :: 0 <= i < |sigs| && 0 <= j < |sigs| && i != j ==> Apart(sigs[i], sigs[j])
  }

  /** What the reader has for the first n signals agrees with what is stored. */
  ghost predicate Seen(sigs: seq<Sig>, n: nat, o: seq<Word>, lines: seq<Line>) {
    Layout(sigs, |o|) && n <= |sigs| &&
    forall i :: 0 <= i < n ==> Shown(lines, StringCode(sigs[i].code)) == Some(Text(sigs[i], Stored(sigs[i], o)))
  }

  /** The reader has the current values of the first n signals. */
  ghost predicate Shows(sigs: seq<Sig>, vals: seq<Value>, n: nat, lines: seq<Line>) {
    n <= |sigs| == |vals| && (forall i :: 0 <= i < n ==> sigs[i].bits >= 1) &&
    forall i :: 0 <= i < n ==> Shown(lines, StringCode(sigs[i].code)) == Some(Text(sigs[i], vals[i]))
  }

  /** Files read one after another show what the last one shows. */
  lemma TailShows(sigs: seq<Sig>, vals: seq<Value>, lines: seq<Line>, n: nat)
    requires n <= |lines| && Shows(sigs, vals, |sigs|, lines[n..])
    ensures Shows(sigs, vals, |sigs|, lines)
  {
    forall i | 0 <= i < |sigs| ensures Shown(lines, StringCode(sigs[i].code)) == Some(Text(sigs[i], vals[i])) {
      TailShown(lines, n, StringCode(sigs[i].code));
    }
  }

  /** A reader takes what it has for each signal for the signal's current value. */
  ghost predicate Reads(sigs: seq<Sig>, vals: seq<Value>, lines: seq<Line>) {
    |sigs| == |vals| &&
    forall i :: 0 <= i < |sigs| ==>
      var shown := Shown(lines, StringCode(sigs[i].code)); shown.Some? && Means(shown.value, sigs[i], vals[i])
  }

  lemma ShowsReads(sigs: seq<Sig>, vals: seq<Value>, lines: seq<Line>)
    requires Shows(sigs, vals, |sigs|, lines)
    ensures Reads(sigs, vals, lines)
  {
    forall i | 0 <= i < |sigs|
      ensures var shown := Shown(lines, StringCode(sigs[i].code)); shown.Some? && Means(shown.value, sigs[i], vals[i])
    {
      TextMeans(sigs[i], vals[i]);
    }
  }

  /** Different signals have different codes, and do not disturb each other's words. */
  lemma OtherSignal(sigs: seq<Sig>, i: nat, j: nat, v: Value, o: seq<Word>, n: seq<Word>)
    requires Layout(sigs, |o|) && i < |sigs| && j < |sigs| && i != j && |n| == |o|
    requires Wrote(sigs[i], v, o, n)
    ensures StringCode(sigs[i].code) != StringCode(sigs[j].code) && Stored(sigs[j], n) == Stored(sigs[j], o)
  {
    assert Apart(sigs[i], sigs[j]);
    if StringCode(sigs[i].code) == StringCode(sigs[j].code) { CodeInjective(sigs[i].code, sigs[j].code); }
    SameStored(sigs[j], o, n);
  }

  lemma SameStored(sig: Sig, o: seq<Word>, n: seq<Word>)
    requires sig.bits >= 1 && sig.code + Size(sig) <= |o| == |n|
    requires forall k :: sig.code <= k < sig.code + Size(sig) ==> n[k] == o[k]
    ensures Stored(sig, n) == Stored(sig, o)
  {
    if IsTri(sig) {
      assert Stored(sig, n).vals == Stored(sig, o).vals && Stored(sig, n).tris == Stored(sig, o).tris;
    } else {
      assert n[sig.code..sig.code + WordCount(sig)] == o[sig.code..sig.code + WordCount(sig)];
    }
  }

  /** A printed signal keeps the reader up to date on m signals besides. */
  lemma PrintedSeen(sigs: seq<Sig>, vals: seq<Value>, i: nat, m: nat, o: seq<Word>, l: seq<Line>, n: seq<Word>,
                    k: seq<Line>)
    requires Seen(sigs, m, o, l) && Shows(sigs, vals, i, l) && i <= m && i < |sigs| && |n| == |o|
    requires Wrote(sigs[i], vals[i], o, n) && k == l + [LineOf(sigs[i], vals[i])]
    ensures Seen(sigs, if m == i then i + 1 else m, n, k) && Shows(sigs, vals, i + 1, k)
  {
    var top := if m == i then i + 1 else m;
    forall j | 0 <= j < top
      ensures Shown(k, StringCode(sigs[j].code)) == Some(Text(sigs[j], Stored(sigs[j], n)))
      ensures j <= i ==> Shown(k, StringCode(sigs[j].code)) == Some(Text(sigs[j], vals[j]))
    {
      ShownNext(l, LineOf(sigs[i], vals[i]), StringCode(sigs[j].code));
      if j != i { OtherSignal(sigs, i, j, vals[i], o, n); }
    }
  }

  lemma NotedSeen(sigs: seq<Sig>, vals: seq<Value>, i: nat, o: seq<Word>, l: seq<Line>, n: seq<Word>, k: seq<Line>)
    requires Seen(sigs, |sigs|, o, l) && Shows(sigs, vals, i, l) && i < |sigs| && |n| == |o|
    requires Noted(sigs[i], vals[i], o, l, n, k)
    ensures Seen(sigs, |sigs|, n, k) && Shows(sigs, vals, i + 1, k)
  {
    if k == l + [LineOf(sigs[i], vals[i])] && Wrote(sigs[i], vals[i], o, n) {
      PrintedSeen(sigs, vals, i, |sigs|, o, l, n, k);
    }
  }
}
