/** Numbers as text in base 2, 8 and 16: the `%b`, `%o` and `%x` printing of
    `_vl_vsformat`, and the scanner `_vl_vsss_based` that reads the digits back. */
module Radix {
  import opened Bits
  import opened Words
  import opened BitMoves
  import opened Text

  datatype Format = Binary | Octal | Hex

  function Log2(fmt: Format): nat {
    match fmt
    case Binary => 1
    case Octal => 3
    case Hex => 4
  }

  // ---------------------------------------------------------------- digits

  function DigitChar(d: nat): char
    requires d < 16
  {
    "0123456789abcdef"[d]
  }

  function ToLower(c: char): char {
    if 'A' <= c <= 'Z' then (c as int + 32) as char else c
  }

  /** The number a character stands for, or -1 if the scanner passes over it. Unknown
      and high-impedance digits read as zero. */
  function DigitValue(c: char): int {
    var l := ToLower(c);
    if '0' <= l <= '9' then l as int - '0' as int
    else if 'a' <= l <= 'f' then l as int - 'a' as int + 10
    else if l == 'x' || l == 'z' || l == '?' then 0
    else -1
  }

  lemma CharDigit(d: nat)
    requires d < 16
    ensures DigitValue(DigitChar(d)) == d
    ensures d < 10 ==> DigitChar(d) == (48 + d) as char
    ensures '0' <= DigitChar(d) <= '9' || 'a' <= DigitChar(d) <= 'f'
  {
    assert d == 0 || d == 1 || d == 2 || d == 3 || d == 4 || d == 5 || d == 6 || d == 7
        || d == 8 || d == 9 || d == 10 || d == 11 || d == 12 || d == 13 || d == 14 || d == 15;
  }

  // ---------------------------------------------------------------- what is printed

  /** The width of n digits. */
  function Span(fmt: Format, n: nat): nat {
    if n == 0 then 0 else Span(fmt, n - 1) + Log2(fmt)
  }

  function DigitAt(v: nat, fmt: Format, lsb: nat): (d: nat)
    ensures d < 16
  {
    Pow2Values();
    Low(Shr(v, lsb), Log2(fmt))
  }

  /** The lowest n digits of v, the highest of them first. */
  function DigitText(v: nat, fmt: Format, n: nat): string {
    if n == 0 then "" else [DigitChar(DigitAt(v, fmt, Span(fmt, n - 1)))] + DigitText(v, fmt, n - 1)
  }

  // ---------------------------------------------------------------- what is scanned

  /** The bits the digits of s take. */
  function Extent(s: string, fmt: Format): nat {
    if s == "" then 0
    else (if DigitValue(s[0]) < 0 then 0 else Log2(fmt)) + Extent(s[1..], fmt)
  }

  /** The number s stands for. Digits too big for the base lose their high bits. */
  function Scanned(s: string, fmt: Format): nat {
    if s == "" then 0
    else if DigitValue(s[0]) < 0 then Scanned(s[1..], fmt)
    else Scanned(s[1..], fmt) + Shl(Low(DigitValue(s[0]), Log2(fmt)), Extent(s[1..], fmt))
  }

  lemma {:induction false} ScannedBound(s: string, fmt: Format)
    ensures Scanned(s, fmt) < Pow2(Extent(s, fmt))
  {
    if s != "" {
      var e := Extent(s[1..], fmt);
      ScannedBound(s[1..], fmt);
      if DigitValue(s[0]) >= 0 {
        var d := Low(DigitValue(s[0]), Log2(fmt));
        ShlMono(d, Pow2(Log2(fmt)), e);
        Pow2Add(Log2(fmt), e);
      }
    }
  }

  // ---------------------------------------------------------------- the number that a text stands for

  function Base(fmt: Format): nat {
    match fmt
    case Binary => 2
    case Octal => 8
    case Hex => 16
  }

  /** The characters that take a place in a number. */
  predicate HasPlace(c: char) { c in "0123456789abcdefABCDEFxXzZ?" }

  /** The digit that such a character is; unknown and high-impedance digits are 0. */
  function DigitOf(c: char): nat {
    match c
    case '1' => 1 case '2' => 2 case '3' => 3 case '4' => 4 case '5' => 5
    case '6' => 6 case '7' => 7 case '8' => 8 case '9' => 9
    case 'a' => 10 case 'b' => 11 case 'c' => 12 case 'd' => 13 case 'e' => 14 case 'f' => 15
    case 'A' => 10 case 'B' => 11 case 'C' => 12 case 'D' => 13 case 'E' => 14 case 'F' => 15
    case _ => 0
  }

  /** The number, read from the left: each place multiplies what came before by the base.
      Characters without a place, like the underscore, are passed over. */
  function Reading(s: string, fmt: Format): nat {
    if s == "" then 0
    else
      var before, c := Reading(s[..|s| - 1], fmt), s[|s| - 1];
      if HasPlace(c) then Base(fmt) * before + DigitOf(c) % Base(fmt) else before
  }

  lemma ReadsChar(c: char)
    ensures HasPlace(c) <==> DigitValue(c) >= 0
    ensures HasPlace(c) ==> DigitValue(c) == DigitOf(c)
  {
    if c < 'A' { ReadsDigit(c); } else if c < 'a' { ReadsUpper(c); } else { ReadsLower(c); }
  }

  lemma ReadsDigit(c: char)
    requires c < 'A'
    ensures HasPlace(c) <==> '0' <= c <= '9' || c == '?'
    ensures HasPlace(c) ==> DigitOf(c) == if c == '?' then 0 else c as int - '0' as int
  {
  }

  lemma ReadsUpper(c: char)
    requires 'A' <= c < 'a'
    ensures HasPlace(c) <==> 'A' <= c <= 'F' || c == 'X' || c == 'Z'
    ensures HasPlace(c) ==> DigitOf(c) == if c <= 'F' then c as int - 'A' as int + 10 else 0
  {
  }

  lemma ReadsLower(c: char)
    requires 'a' <= c
    ensures HasPlace(c) <==> 'a' <= c <= 'f' || c == 'x' || c == 'z'
    ensures HasPlace(c) ==> DigitOf(c) == if c <= 'f' then c as int - 'a' as int + 10 else 0
  {
  }

  lemma {:induction false} ExtentLast(s: string, c: char, fmt: Format)
    ensures Extent(s + [c], fmt) == Extent(s, fmt) + if DigitValue(c) < 0 then 0 else Log2(fmt)
  {
    if s == "" {
      assert "" + [c] == [c] && [c][1..] == "";
    } else {
      assert (s + [c])[1..] == s[1..] + [c];
      ExtentLast(s[1..], c, fmt);
    }
  }

  /** A last digit moves all others up by one place. */
  lemma {:induction false} ScannedLast(s: string, c: char, fmt: Format)
    ensures Scanned(s + [c], fmt) ==
            if DigitValue(c) < 0 then Scanned(s, fmt)
            else Shl(Scanned(s, fmt), Log2(fmt)) + Low(DigitValue(c), Log2(fmt))
  {
    if s == "" {
      assert "" + [c] == [c] && [c][1..] == "";
      ShlOne(Log2(fmt));
      if DigitValue(c) >= 0 { ShlZero(Low(DigitValue(c), Log2(fmt))); }
    } else {
      assert (s + [c])[1..] == s[1..] + [c];
      ScannedLast(s[1..], c, fmt);
      ExtentLast(s[1..], c, fmt);
      if DigitValue(s[0]) >= 0 && DigitValue(c) >= 0 {
        var d, e := Low(DigitValue(s[0]), Log2(fmt)), Extent(s[1..], fmt);
        ShlShl(d, e, Log2(fmt));
        ShlSum(Scanned(s, fmt), Scanned(s[1..], fmt), Shl(d, e), Log2(fmt));
      }
    }
  }

  lemma ShlZero(x: nat)
    ensures Shl(x, 0) == x
  {
  }

  /** One more place, in the arithmetic of the base. */
  lemma PlaceIs(x: nat, d: nat, fmt: Format)
    ensures Shl(x, Log2(fmt)) + Low(d, Log2(fmt)) == Base(fmt) * x + d % Base(fmt)
  {
    Pow2Values();
    ShlIsMul(x, Log2(fmt));
    ShrIsDiv(d, Log2(fmt));
  }

  /** Digit by digit from the right is the same number. */
  lemma {:induction false} ScannedIs(s: string, fmt: Format)
    ensures Scanned(s, fmt) == Reading(s, fmt)
    decreases |s|
  {
    if s != "" {
      var front, c := s[..|s| - 1], s[|s| - 1];
      assert s == front + [c];
      ScannedIs(front, fmt);
      ScannedLast(front, c, fmt);
      ReadsChar(c);
      PlaceIs(Reading(front, fmt), DigitOf(c), fmt);
    }
  }

  function WithoutUnderscores(s: string): string {
    if s == "" then ""
    else WithoutUnderscores(s[..|s| - 1]) + if s[|s| - 1] == '_' then "" else [s[|s| - 1]]
  }

  /** Underscores only separate digits. */
  lemma {:induction false} UnderscoresPassed(s: string, fmt: Format)
    ensures Reading(WithoutUnderscores(s), fmt) == Reading(s, fmt)
    decreases |s|
  {
    if s != "" {
      var front, c := WithoutUnderscores(s[..|s| - 1]), s[|s| - 1];
      UnderscoresPassed(s[..|s| - 1], fmt);
      if c == '_' { assert front + "" == front; } else { assert (front + [c])[..|front|] == front; }
    }
  }

  // ---------------------------------------------------------------- round trip

  lemma DigitFirst(s: string, c: char, t: string, fmt: Format, d: nat)
    requires s == [c] + t && DigitValue(c) == d < Pow2(Log2(fmt))
    ensures Extent(s, fmt) == Log2(fmt) + Extent(t, fmt)
    ensures Scanned(s, fmt) == Scanned(t, fmt) + Shl(d, Extent(t, fmt))
  {
    assert s[1..] == t;
    ShrSmall(d, Log2(fmt));
  }

  ghost predicate ScansTo(s: string, fmt: Format, v: nat, k: nat) {
    Extent(s, fmt) == k && Scanned(s, fmt) == Low(v, k)
  }

  lemma ScansMore(s: string, t: string, v: nat, fmt: Format, k: nat)
    requires ScansTo(t, fmt, v, k) && s == [DigitChar(DigitAt(v, fmt, k))] + t
    ensures ScansTo(s, fmt, v, k + Log2(fmt))
  {
    var d := DigitAt(v, fmt, k);
    CharDigit(d);
    DigitFirst(s, DigitChar(d), t, fmt, d);
    LowMore(v, k, Log2(fmt));
  }

  /** Scanning the printed digits gives back the bits they were made from. */
  lemma {:induction false} DigitsBack(v: nat, fmt: Format, n: nat)
    ensures ScansTo(DigitText(v, fmt, n), fmt, v, Span(fmt, n))
  {
    if n > 0 {
      DigitsBack(v, fmt, n - 1);
      ScansMore(DigitText(v, fmt, n), DigitText(v, fmt, n - 1), v, fmt, Span(fmt, n - 1));
    }
  }

  lemma LowMore(v: nat, k: nat, e: nat)
    ensures Low(v, k + e) == Low(v, k) + Shl(Low(Shr(v, k), e), k)
  {
    Split(v, k);
    LowLow(Low(v, k), Shr(v, k), k, e);
  }

  /** Cutting at k first makes no difference when the bits from k to n are clear. */
  lemma LowThrough(v: nat, k: nat, n: nat)
    requires forall i :: k <= i < n ==> !Bit(v, i)
    ensures Low(Low(v, k), n) == Low(v, n)
  {
    var w := Low(v, k);
    forall i | 0 <= i < n ensures Bit(Low(w, n), i) == Bit(Low(v, n), i) {
      BitLow(w, n, i); BitLow(v, k, i); BitLow(v, n, i);
    }
    BitsDetermine(Low(w, n), Low(v, n), n);
  }

  /** The bit printing starts at. With `%0` it is the highest bit set. */
  function StartBit(v: nat, lbits: nat, trim: bool): nat
    requires lbits > 0
  {
    if trim then TopSet(v, lbits - 1) else lbits - 1
  }

  function TopSet(v: nat, lsb: nat): (r: nat)
    ensures r <= lsb && (r == 0 || Bit(v, r)) && forall i :: r < i <= lsb ==> !Bit(v, i)
  {
    if lsb == 0 || Bit(v, lsb) then lsb else TopSet(v, lsb - 1)
  }

  /** How many digits it takes to reach bit lsb. */
  function Digits(fmt: Format, lsb: nat): (n: nat)
    ensures n > 0 && Span(fmt, n - 1) <= lsb < Span(fmt, n)
  {
    var n := lsb / Log2(fmt) + 1;
    SpanIs(fmt, n); SpanIs(fmt, n - 1);
    n
  }

  lemma {:induction false} SpanIs(fmt: Format, n: nat)
    ensures Span(fmt, n) == Log2(fmt) * n
  {
    if n > 0 { SpanIs(fmt, n - 1); }
  }

  /** The text of a value of lbits bits. Only octal cuts the value to its width. */
  function Printed(v: nat, lbits: nat, fmt: Format, trim: bool): string
    requires lbits > 0
  {
    DigitText(if fmt.Octal? then Low(v, lbits) else v, fmt, Digits(fmt, StartBit(v, lbits, trim)))
  }

  /** Every printed number, padded or trimmed, scans back to the same low lbits. Bits
      above the width come through in hexadecimal only. */
  lemma RoundTrip(v: nat, lbits: nat, fmt: Format, trim: bool)
    requires lbits > 0
    ensures Low(Reading(Printed(v, lbits, fmt, trim), fmt), lbits) == Low(v, lbits)
    ensures v < Pow2(lbits) || !fmt.Hex? ==> Reading(Printed(v, lbits, fmt, trim), fmt) == Low(v, lbits)
  {
    ScannedIs(Printed(v, lbits, fmt, trim), fmt);
    var lsb := StartBit(v, lbits, trim);
    LowTwice(v, lbits);
    if fmt.Octal? {
      var x := Low(v, lbits);
      forall i | lsb < i < lbits ensures !Bit(x, i) { BitLow(v, lbits, i); }
      ScansBack(x, lbits, fmt, lsb);
    } else {
      ScansBack(v, lbits, fmt, lsb);
    }
  }

  lemma ScansBack(x: nat, lbits: nat, fmt: Format, lsb: nat)
    requires lsb < lbits && forall i :: lsb < i < lbits ==> !Bit(x, i)
    ensures Low(Scanned(DigitText(x, fmt, Digits(fmt, lsb)), fmt), lbits) == Low(x, lbits)
    ensures x < Pow2(lbits) || fmt.Binary? ==> Scanned(DigitText(x, fmt, Digits(fmt, lsb)), fmt) == Low(x, lbits)
  {
    var n := Digits(fmt, lsb);
    var k := Span(fmt, n);
    DigitsBack(x, fmt, n);
    LowThrough(x, k, lbits);
    if fmt.Binary? {
      SpanIs(fmt, n);
      LowSmall(x, k, lbits);
    } else if x < Pow2(lbits) {
      ShrSmall(x, lbits);
      LowHolds(x, k, lbits);
    }
  }

  lemma LowTwice(x: nat, k: nat)
    ensures Low(Low(x, k), k) == Low(x, k)
  {
    ShrSmall(Low(x, k), k);
  }

  lemma LowSmall(v: nat, k: nat, n: nat)
    requires k <= n
    ensures Low(Low(v, k), n) == Low(v, k)
  {
    Pow2Mono(k, n);
    ShrSmall(Low(v, k), n);
  }

  /** A value of n bits with none set from k up is its low k bits. */
  lemma LowHolds(v: nat, k: nat, n: nat)
    requires v < Pow2(n) && forall i :: k <= i < n ==> !Bit(v, i)
    ensures Low(v, k) == v
  {
    if n <= k {
      Pow2Mono(n, k);
      ShrSmall(v, k);
    } else {
      LowThrough(v, k, n);
      LowSmall(v, k, n);
      ShrSmall(v, n);
    }
  }

  /** A trimmed number has no leading zero, unless it is zero. */
  lemma NoLeadingZero(v: nat, lbits: nat, fmt: Format)
    requires lbits > 0 && Low(v, lbits) != 0
    ensures Printed(v, lbits, fmt, true)[0] != '0'
  {
    var x := if fmt.Octal? then Low(v, lbits) else v;
    var lsb := StartBit(v, lbits, true);
    if !Bit(v, lsb) {
      NoBits(v, lbits);
      assert false;
    }
    BitLow(v, lbits, lsb);
    var k := Span(fmt, Digits(fmt, lsb) - 1);
    BitShr(x, k, lsb - k);
    BitLow(Shr(x, k), Log2(fmt), lsb - k);
    ZeroBit(lsb - k);
    CharDigit(DigitAt(x, fmt, k));
    CharDigit(0);
  }

  /** A padded number has the least number of digits that cover the width, and zero is trimmed to
      a single one. */
  lemma PrintedLength(v: nat, lbits: nat, fmt: Format)
    requires lbits > 0
    ensures var n: int := |Printed(v, lbits, fmt, false)|; Log2(fmt) * (n - 1) < lbits <= Log2(fmt) * n
    ensures Printed(0, lbits, fmt, true) == "0"
  {
    var n := Digits(fmt, lbits - 1);
    TextLength(if fmt.Octal? then Low(v, lbits) else v, fmt, n);
    SpanIs(fmt, n);
    SpanIs(fmt, n - 1);
    ZeroText(lbits, fmt);
  }

  lemma {:induction false} TextLength(v: nat, fmt: Format, n: nat)
    ensures |DigitText(v, fmt, n)| == n
  {
    if n > 0 { TextLength(v, fmt, n - 1); }
  }

  lemma ZeroText(lbits: nat, fmt: Format)
    requires lbits > 0
    ensures Printed(0, lbits, fmt, true) == "0"
  {
    var lsb := TopSet(0, lbits - 1);
    ZeroBit(lsb);
    var n := Digits(fmt, 0);
    SpanIs(fmt, n - 1);
    assert n == 1;
    ShrSmall(0, lbits);
    ShrSmall(0, Log2(fmt));
    ShrSmall(0, 0);
    assert DigitAt(0, fmt, 0) == 0;
    assert DigitText(0, fmt, 0) == "" && DigitText(0, fmt, 1) == [DigitChar(0)] + "";
  }

  lemma NoBits(v: nat, n: nat)
    requires forall i :: 0 <= i < n ==> !Bit(v, i)
    ensures Low(v, n) == 0
  {
    LowThrough(v, 0, n);
    ShrSmall(0, n);
  }

  // ---------------------------------------------------------------- printing

  /** The `%b`, `%o` and `%x` cases of `_vl_vsformat`; trim is a `%0` width. */
  method PrintField(lwp: seq<Word>, lbits: nat, fmt: Format, trim: bool) returns (output: string)
    requires lbits > 0 && |lwp| >= WordsI(lbits)
    ensures output == Printed(Val(lwp), lbits, fmt, trim)
  {
    ghost var v := Val(lwp);
    var lsb: int := lbits - 1;
    if trim {
      ValBit(lwp, lsb);
      while lsb != 0 && !WBit(lwp, lsb)
        invariant 0 <= lsb < lbits && TopSet(v, lsb) == TopSet(v, lbits - 1)
        invariant Bit(v, lsb) == WBit(lwp, lsb)
      {
        lsb := lsb - 1;
        ValBit(lwp, lsb);
      }
    }
    assert lsb == StartBit(v, lbits, trim);
    match fmt {
      case Binary => output := PrintBinary(lwp, lsb);
      case Octal => output := PrintOctal(lwp, lbits, lsb);
      case Hex => output := PrintHex(lwp, lsb);
    }
  }

  method PrintBinary(lwp: seq<Word>, start: nat) returns (output: string)
    requires start / 32 < |lwp|
    ensures output == DigitText(Val(lwp), Binary, Digits(Binary, start))
  {
    output := "";
    var lsb: int := start;
    ghost var v := Val(lwp);
    ghost var n := Digits(Binary, start);
    ghost var total := DigitText(v, Binary, n);
    while lsb >= 0
      invariant -1 <= lsb <= start && n == lsb + 1
      invariant output + DigitText(v, Binary, n) == total
    {
      n := n - 1;
      var d: Word := And32(Shr32(lwp[lsb / 32], lsb % 32), 1);
      BinaryDigit(lwp, lsb, n, d);
      CharDigit(d);
      OneMoreDigit(output, (48 + d) as char, v, Binary, n, total);
      output := output + [(48 + d) as char];
      lsb := lsb - 1;
    }
  }

  lemma OneMoreDigit(output: string, c: char, v: nat, fmt: Format, n: nat, total: string)
    requires output + DigitText(v, fmt, n + 1) == total && c == DigitChar(DigitAt(v, fmt, Span(fmt, n)))
    ensures (output + [c]) + DigitText(v, fmt, n) == total
  {
    var rest := DigitText(v, fmt, n);
    assert output + ([c] + rest) == (output + [c]) + rest;
  }

  /** `(lwp[VL_BITWORD_I(lsb)] >> VL_BITBIT_I(lsb)) & (2^e - 1)`, inside one word. */
  lemma Window(lwp: seq<Word>, lsb: nat, e: nat, m: Word)
    requires lsb / 32 < |lwp| && lsb % 32 + e <= 32 && m == Pow2(e) - 1
    ensures And32(Shr32(lwp[lsb / 32], lsb % 32), m) == Low(Shr(Val(lwp), lsb), e)
  {
    var w: nat := Shr32(lwp[lsb / 32], lsb % 32);
    var y := Shr(Val(lwp), lsb);
    AndMask(w, e);
    forall i | 0 <= i < e ensures Bit(Low(w, e), i) == Bit(Low(y, e), i) {
      WindowBit(lwp, lsb, i);
      BitLow(w, e, i); BitLow(y, e, i);
    }
    BitsDetermine(Low(w, e), Low(y, e), e);
  }

  lemma WindowDigit(lwp: seq<Word>, lsb: nat, fmt: Format, n: nat, m: Word)
    requires lsb / 32 < |lwp| && lsb % 32 + Log2(fmt) <= 32 && m == Pow2(Log2(fmt)) - 1 && lsb == Log2(fmt) * n
    ensures And32(Shr32(lwp[lsb / 32], lsb % 32), m) == DigitAt(Val(lwp), fmt, Span(fmt, n))
  {
    Window(lwp, lsb, Log2(fmt), m);
    SpanIs(fmt, n);
  }

  lemma WindowBit(lwp: seq<Word>, lsb: nat, i: nat)
    requires lsb / 32 < |lwp| && lsb % 32 + i < 32
    ensures Bit(Shr32(lwp[lsb / 32], lsb % 32), i) == Bit(Shr(Val(lwp), lsb), i)
  {
    BitShr32(lwp[lsb / 32], lsb % 32, i);
    BitShr(Val(lwp), lsb, i);
    ValBit(lwp, lsb + i);
  }

  lemma BinaryDigit(lwp: seq<Word>, lsb: nat, n: nat, d: Word)
    requires lsb / 32 < |lwp| && lsb == n && d == And32(Shr32(lwp[lsb / 32], lsb % 32), 1)
    ensures d == DigitAt(Val(lwp), Binary, Span(Binary, n)) && d <= 1
  {
    Pow2Values();
    WindowDigit(lwp, lsb, Binary, n, 1);
  }

  lemma HexDigit(lwp: seq<Word>, lsb: nat, n: nat, charval: Word)
    requires lsb / 32 < |lwp| && lsb == 4 * n && charval == And32(Shr32(lwp[lsb / 32], lsb % 32), 0xf)
    ensures charval == DigitAt(Val(lwp), Hex, Span(Hex, n))
  {
    Pow2Values();
    WindowDigit(lwp, lsb, Hex, n, 0xf);
  }

  method PrintHex(lwp: seq<Word>, start: nat) returns (output: string)
    requires start / 32 < |lwp|
    ensures output == DigitText(Val(lwp), Hex, Digits(Hex, start))
  {
    output := "";
    var lsb: int := start;
    ghost var v := Val(lwp);
    ghost var n := Digits(Hex, start);
    ghost var total := DigitText(v, Hex, n);
    while lsb >= 0
      invariant -1 <= lsb <= start && n == lsb / 4 + 1
      invariant output + DigitText(v, Hex, n) == total
    {
      n := n - 1;
      lsb := (lsb / 4) * 4;
      var charval: Word := And32(Shr32(lwp[lsb / 32], lsb % 32), 0xf);
      HexDigit(lwp, lsb, n, charval);
      OneMoreDigit(output, DigitChar(charval), v, Hex, n, total);
      output := output + [DigitChar(charval)];
      lsb := lsb - 1;
    }
  }

  /** `VL_BITISSETLIMIT_W`. */
  predicate BitLimit(lwp: seq<Word>, lbits: nat, i: nat)
    requires |lwp| >= WordsI(lbits)
  {
    i < lbits && WBit(lwp, i)
  }

  function Add(b: bool, d: nat): nat { if b then d else 0 }

  lemma OctalDigit(lwp: seq<Word>, lbits: nat, lsb: nat, n: nat)
    requires |lwp| >= WordsI(lbits) && lsb == 3 * n
    ensures DigitAt(Low(Val(lwp), lbits), Octal, Span(Octal, n))
         == Add(BitLimit(lwp, lbits, lsb), 1) + Add(BitLimit(lwp, lbits, lsb + 1), 2)
          + Add(BitLimit(lwp, lbits, lsb + 2), 4)
  {
    var y := Shr(Low(Val(lwp), lbits), lsb);
    SpanIs(Octal, n);
    LimitedBit(lwp, lbits, lsb, 0); LimitedBit(lwp, lbits, lsb, 1); LimitedBit(lwp, lbits, lsb, 2);
    ThreeBits(y);
  }

  lemma LimitedBit(lwp: seq<Word>, lbits: nat, lsb: nat, i: nat)
    requires |lwp| >= WordsI(lbits)
    ensures Bit(Shr(Low(Val(lwp), lbits), lsb), i) == BitLimit(lwp, lbits, lsb + i)
  {
    BitShr(Low(Val(lwp), lbits), lsb, i);
    BitLow(Val(lwp), lbits, lsb + i);
    ValBit(lwp, lsb + i);
  }

  lemma ThreeBits(y: nat)
    ensures Low(y, 3) == Add(Bit(y, 0), 1) + Add(Bit(y, 1), 2) + Add(Bit(y, 2), 4)
  {
    assert Bit(y, 1) == Bit(y / 2, 0);
    assert Bit(y, 2) == Bit(y / 2, 1) == Bit(y / 2 / 2, 0);
    assert Low(y / 2, 2) == y / 2 % 2 + 2 * Low(y / 2 / 2, 1);
    assert Low(y / 2 / 2, 1) == y / 2 / 2 % 2;
  }

  /** Octal digits may span two words, so each bit is fetched by itself. */
  method PrintOctal(lwp: seq<Word>, lbits: nat, start: nat) returns (output: string)
    requires start < lbits && |lwp| >= WordsI(lbits)
    ensures output == DigitText(Low(Val(lwp), lbits), Octal, Digits(Octal, start))
  {
    output := "";
    var lsb: int := start;
    ghost var v := Low(Val(lwp), lbits);
    ghost var n := Digits(Octal, start);
    ghost var total := DigitText(v, Octal, n);
    while lsb >= 0
      invariant -1 <= lsb <= start && n == lsb / 3 + 1
      invariant output + DigitText(v, Octal, n) == total
    {
      n := n - 1;
      lsb := (lsb / 3) * 3;
      var d := Add(BitLimit(lwp, lbits, lsb + 0), 1) + Add(BitLimit(lwp, lbits, lsb + 1), 2)
             + Add(BitLimit(lwp, lbits, lsb + 2), 4);
      OctalDigit(lwp, lbits, lsb, n);
      CharDigit(d);
      OneMoreDigit(output, (48 + d) as char, v, Octal, n, total);
      output := output + [(48 + d) as char];
      lsb := lsb - 1;
    }
  }

  // ---------------------------------------------------------------- scanning

  /** `VL_ASSIGNBIT_WI` on the word that holds the bit. */
  function AssignBit(w: Word, b: nat, rhs: Word): Word {
    Or32(And32(w, Not32(Shl32(1, b))), Shl32(rhs, b))
  }

  lemma AssignBitBit(w: Word, b: nat, rhs: Word, c: nat)
    requires b < 32 && c < 32 && rhs <= 1
    ensures Bit(AssignBit(w, b, rhs), c) == if c == b then rhs == 1 else Bit(w, c)
  {
    BitShl32(1, b, c); BitShl32(rhs, b, c);
    BitNot(Shl32(1, b), c);
    BitAnd(w, Not32(Shl32(1, b)), c);
    BitOr(And32(w, Not32(Shl32(1, b))), Shl32(rhs, b), c);
    if c > b { SmallBit(1, 1, c - b); SmallBit(rhs, 1, c - b); }
  }

  /** The bits of `now` are those of ld from lsb up to end, and those of `was` elsewhere. */
  ghost predicate BitsSet(now: seq<Word>, was: seq<Word>, ld: nat, lsb: nat, end: nat) {
    |now| == |was|
    && forall i :: 0 <= i < 32 * |was| ==> WBit(now, i) == if lsb <= i < end then Bit(ld, i - lsb) else WBit(was, i)
  }

  lemma SetOne(now: seq<Word>, was: seq<Word>, ld: nat, lsb: nat, p: nat, r: Word)
    requires BitsSet(now, was, ld, lsb, p) && lsb <= p < 32 * |was| && r == And(Shr(ld, p - lsb), 1)
    ensures BitsSet(now[p / 32 := AssignBit(now[p / 32], p % 32, r)], was, ld, lsb, p + 1)
  {
    Pow2Values();
    AndMask(Shr(ld, p - lsb), 1);
    BitShr(ld, p - lsb, 0);
    var next := now[p / 32 := AssignBit(now[p / 32], p % 32, r)];
    forall i | 0 <= i < 32 * |was|
      ensures WBit(next, i) == if i == p then Bit(ld, p - lsb) else WBit(now, i)
    {
      if i / 32 == p / 32 { AssignBitBit(now[p / 32], p % 32, r, i % 32); }
    }
  }

  /** `_vl_vsss_setbit`. */
  method SetBit(owp: array<Word>, obits: nat, lsb: nat, nbits: nat, ld: nat)
    requires owp.Length == WordsI(obits)
    modifies owp
    ensures BitsSet(owp[..], old(owp[..]), ld, lsb, Min(lsb + nbits, Max(lsb, obits)))
  {
    var n, p, l: nat := nbits, lsb, ld;
    while n != 0 && p < obits
      invariant 0 <= n <= nbits && p == lsb + nbits - n && (p > lsb ==> p <= obits) && l == Shr(ld, p - lsb)
      invariant BitsSet(owp[..], old(owp[..]), ld, lsb, p)
      decreases n
    {
      AndBound(l, 1);
      SetOne(owp[..], old(owp[..]), ld, lsb, p, And(l, 1));
      ghost var before := owp[..];
      owp[p / 32] := AssignBit(owp[p / 32], p % 32, And(l, 1));
      assert owp[..] == before[p / 32 := owp[p / 32]];
      ShrShr(ld, p - lsb, 1);
      n, p, l := n - 1, p + 1, Shr(l, 1);
    }
  }

  function Max(x: int, y: int): int { if x < y then y else x }

  /** A digit set above what has been scanned so far. */
  lemma DigitPlaced(now: seq<Word>, was: seq<Word>, v: nat, obits: nat, lsb: nat, e: nat, d: nat)
    requires |was| == WordsI(obits) && Val(was) == Low(v, obits) && v < Pow2(lsb)
    requires BitsSet(now, was, d, lsb, Min(lsb + e, Max(lsb, obits)))
    ensures Val(now) == Low(v + Shl(Low(d, e), lsb), obits)
  {
    var sum := v + Shl(Low(d, e), lsb);
    var n := 32 * |was|;
    forall i | 0 <= i < n ensures Bit(Val(now), i) == Bit(Low(sum, obits), i) {
      ValBit(now, i); ValBit(was, i);
      BitLow(v, obits, i); BitLow(sum, obits, i);
      BitGlue(v, Low(d, e), lsb, i);
      if i >= lsb {
        BitLow(d, e, i - lsb);
        SmallBit(v, lsb, i);
      }
    }
    ValBound(now);
    WPow2(|was|);
    Pow2Mono(obits, n);
    BitsDetermine(Val(now), Low(sum, obits), n);
  }

  lemma OneMoreScanned(s: string, rest: string, d: int, fmt: Format)
    requires s != "" && rest == s[1..] && d == DigitValue(s[0])
    ensures Extent(s, fmt) == Extent(rest, fmt) + if d < 0 then 0 else Log2(fmt)
    ensures Scanned(s, fmt) ==
            Scanned(rest, fmt) + if d <= 0 then 0 else Shl(Low(d, Log2(fmt)), Extent(rest, fmt))
  {
    if d == 0 { ZeroDigit(Log2(fmt), Extent(rest, fmt)); }
  }

  /** `_vl_vsss_based`. The callers clear the destination first. */
  method Based(owp: array<Word>, obits: nat, fmt: Format, strp: string, posstart: nat, posend: nat)
    requires obits > 0 && owp.Length == WordsI(obits)
    requires forall i :: 0 <= i < owp.Length ==> owp[i] == 0
    requires posstart <= posend <= |strp|
    modifies owp
    ensures Val(owp[..]) == Low(Reading(strp[posstart..posend], fmt), obits)
  {
    var baseLog2 := Log2(fmt);
    var lsb: nat := 0;
    var pos: int := posend - 1;
    ValZero(owp[..]);
    assert strp[posend..posend] == "";
    ShrSmall(0, obits);
    while pos >= posstart
      invariant posstart - 1 <= pos < posend
      invariant lsb == Extent(strp[pos + 1..posend], fmt)
      invariant Val(owp[..]) == Low(Scanned(strp[pos + 1..posend], fmt), obits)
    {
      ghost var rest, more := strp[pos + 1..posend], strp[pos..posend];
      assert more[1..] == rest;
      var d := DigitValue(strp[pos]);
      ScannedBound(rest, fmt);
      OneMoreScanned(more, rest, d, fmt);
      if d == 0 {
        lsb := lsb + baseLog2;
      } else if d > 0 {
        ghost var was := owp[..];
        SetBit(owp, obits, lsb, baseLog2, d);
        DigitPlaced(owp[..], was, Scanned(rest, fmt), obits, lsb, baseLog2, d);
        lsb := lsb + baseLog2;
      }
      pos := pos - 1;
    }
    ScannedIs(strp[posstart..posend], fmt);
  }

  lemma ZeroDigit(e: nat, k: nat)
    ensures Shl(Low(0, e), k) == 0
  {
    ShrSmall(0, e);
    ShlOne(k);
  }

  // ---------------------------------------------------------------- a scanned field

  function Accepted(fmt: Format): string {
    match fmt
    case Binary => "01xXzZ?_"
    case Octal => "01234567xXzZ?_"
    case Hex => "0123456789abcdefABCDEFxXzZ?_"
  }

  /** Accepted are underscores and the characters whose digit fits the base. */
  lemma AcceptedIs(c: char, fmt: Format)
    ensures c in Accepted(fmt) <==> c == '_' || (HasPlace(c) && DigitOf(c) < Base(fmt))
  {
    if c < 'A' { ReadsDigit(c); } else if c < 'a' { ReadsUpper(c); } else { ReadsLower(c); }
    AcceptedAs(c, fmt);
  }

  lemma AcceptedAs(c: char, fmt: Format)
    ensures c in Accepted(fmt) <==>
            c in "01xXzZ?_" || (c in "234567" && fmt != Binary) || (c in "89abcdefABCDEF" && fmt == Hex)
  {
    assert "01234567xXzZ?_" == "01" + "234567" + "xXzZ?_" && "01xXzZ?_" == "01" + "xXzZ?_";
    assert "0123456789abcdefABCDEFxXzZ?_" == "01" + "234567" + "89abcdefABCDEF" + "xXzZ?_";
  }

  function SkipSpace(s: string): (r: string)
    ensures |r| <= |s| && r == s[|s| - |r|..] && (r != "" ==> !IsSpace(r[0]))
    ensures forall k :: 0 <= k < |s| - |r| ==> IsSpace(s[k])
  {
    if s != "" && IsSpace(s[0]) then SkipSpace(s[1..]) else s
  }

  /** The accepted characters at the front, as they are. */
  function FieldOf(s: string, accept: string): (f: string)
    ensures f <= s && forall k :: 0 <= k < |f| ==> f[k] in accept && !IsSpace(f[k])
    ensures |f| < |s| ==> IsSpace(s[|f|]) || s[|f|] !in accept
  {
    if s == "" || IsSpace(s[0]) || s[0] !in accept then "" else [s[0]] + FieldOf(s[1..], accept)
  }

  /** `_vl_vsss_read`: the accepted characters at the front, in lower case. */
  function ReadChars(s: string, accept: string): string {
    if s == "" || IsSpace(s[0]) || s[0] !in accept then "" else [ToLower(s[0])] + ReadChars(s[1..], accept)
  }

  lemma SameLower(c: char)
    ensures HasPlace(ToLower(c)) == HasPlace(c) && (HasPlace(c) ==> DigitOf(ToLower(c)) == DigitOf(c))
  {
    if 'A' <= c <= 'Z' {
      ReadsUpper(c);
      ReadsLower(ToLower(c));
    }
  }

  function Lower(s: string): (r: string)
    ensures |r| == |s|
  {
    if s == "" then "" else [ToLower(s[0])] + Lower(s[1..])
  }

  lemma {:induction false} ReadLower(s: string, accept: string)
    ensures ReadChars(s, accept) == Lower(FieldOf(s, accept))
  {
    if s != "" && !IsSpace(s[0]) && s[0] in accept {
      ReadLower(s[1..], accept);
      assert FieldOf(s, accept)[1..] == FieldOf(s[1..], accept);
    }
  }

  lemma {:induction false} LowerLast(s: string, c: char)
    ensures Lower(s + [c]) == Lower(s) + [ToLower(c)]
  {
    if s == "" {
      assert "" + [c] == [c] && [c][1..] == "";
    } else {
      assert (s + [c])[1..] == s[1..] + [c];
      LowerLast(s[1..], c);
    }
  }

  /** Upper and lower case stand for the same number. */
  lemma {:induction false} LowerReads(s: string, fmt: Format)
    ensures Reading(Lower(s), fmt) == Reading(s, fmt)
    decreases |s|
  {
    if s != "" {
      var front, c := s[..|s| - 1], s[|s| - 1];
      assert s == front + [c];
      LowerLast(front, c);
      SameLower(c);
      LowerReads(front, fmt);
      assert (Lower(front) + [ToLower(c)])[..|front|] == Lower(front);
    }
  }

  /** The `%b`, `%o` and `%x` cases of `_vl_vsscanf`. */
  method ScanField(text: string, fmt: Format, owp: array<Word>, obits: nat) returns (ok: bool)
    requires obits > 0 && owp.Length == WordsI(obits)
    modifies owp
    ensures ok == (FieldOf(SkipSpace(text), Accepted(fmt)) != "")
    ensures Val(owp[..]) == Low(Reading(FieldOf(SkipSpace(text), Accepted(fmt)), fmt), obits)
  {
    ghost var field := FieldOf(SkipSpace(text), Accepted(fmt));
    ReadLower(SkipSpace(text), Accepted(fmt));
    LowerReads(field, fmt);
    for i := 0 to WordsI(obits)
      invariant forall k :: 0 <= k < i ==> owp[k] == 0
    {
      owp[i] := 0;
    }
    var tmp := ReadChars(SkipSpace(text), Accepted(fmt));
    if tmp == "" {
      ValZero(owp[..]);
      ShrSmall(0, obits);
      return false;
    }
    Based(owp, obits, fmt, tmp, 0, |tmp|);
    assert tmp[0..|tmp|] == tmp;
    return true;
  }

  /** Where a reader of accepted characters stops. */
  predicate Stops(rest: string, accept: string) {
    rest == "" || IsSpace(rest[0]) || rest[0] !in accept
  }

  predicate Taken(c: char, accept: string) {
    c in accept && ToLower(c) == c && !IsSpace(c)
  }

  predicate AllTaken(t: string, accept: string) {
    t != "" ==> Taken(t[0], accept) && AllTaken(t[1..], accept)
  }

  lemma DigitAccepted(d: nat, fmt: Format, c: char)
    requires d < Pow2(Log2(fmt)) && d < 16 && c == DigitChar(d)
    ensures Taken(c, Accepted(fmt))
  {
    Pow2Values();
    CharDigit(d);
    DigitIn(d, fmt);
  }

  lemma DigitIn(d: nat, fmt: Format)
    requires d < Pow2(Log2(fmt)) && d < 16
    ensures DigitChar(d) in Accepted(fmt)
  {
    Pow2Values();
    match fmt
    case Binary => assert d <= 1 && DigitChar(d) == "01xXzZ?_"[d];
    case Octal => assert d <= 7 && DigitChar(d) == "01234567xXzZ?_"[d];
    case Hex => assert DigitChar(d) == "0123456789abcdefABCDEFxXzZ?_"[d];
  }

  lemma {:induction false} DigitsTaken(v: nat, fmt: Format, n: nat, text: string)
    requires text == DigitText(v, fmt, n)
    ensures AllTaken(text, Accepted(fmt))
  {
    if n > 0 {
      var d, rest := DigitAt(v, fmt, Span(fmt, n - 1)), DigitText(v, fmt, n - 1);
      DigitsTaken(v, fmt, n - 1, rest);
      OneTaken(d, fmt, rest);
    }
  }

  lemma OneTaken(d: nat, fmt: Format, t: string)
    requires d < Pow2(Log2(fmt)) && d < 16 && AllTaken(t, Accepted(fmt))
    ensures AllTaken([DigitChar(d)] + t, Accepted(fmt))
  {
    DigitAccepted(d, fmt, DigitChar(d));
    assert ([DigitChar(d)] + t)[1..] == t;
  }

  lemma {:induction false} ReadsAll(t: string, rest: string, accept: string)
    requires AllTaken(t, accept) && Stops(rest, accept)
    ensures ReadChars(t + rest, accept) == t
  {
    if t == "" {
      assert t + rest == rest;
    } else {
      assert (t + rest)[1..] == t[1..] + rest;
      ReadsAll(t[1..], rest, accept);
      assert t == [t[0]] + t[1..];
    }
  }

  /** A printed field, followed by anything that is not a digit, is read back whole. */
  lemma FieldRoundTrip(v: nat, lbits: nat, fmt: Format, trim: bool, rest: string)
    requires lbits > 0 && v < Pow2(lbits) && Stops(rest, Accepted(fmt))
    ensures var field := FieldOf(SkipSpace(Printed(v, lbits, fmt, trim) + rest), Accepted(fmt));
            field != "" && Reading(field, fmt) == v
  {
    var x := if fmt.Octal? then Low(v, lbits) else v;
    var n := Digits(fmt, StartBit(v, lbits, trim));
    var text := DigitText(x, fmt, n);
    DigitsTaken(x, fmt, n, text);
    assert text != "";
    assert Taken((text + rest)[0], Accepted(fmt));
    ReadsAll(text, rest, Accepted(fmt));
    ReadLower(text + rest, Accepted(fmt));
    LowerReads(FieldOf(text + rest, Accepted(fmt)), fmt);
    RoundTrip(v, lbits, fmt, trim);
    ShrSmall(v, lbits);
  }
}
