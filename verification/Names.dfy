/** Identifier mangling: `encodeName` before its hashing step, and `prettyName`. */
module Names {
  import opened Text

  predicate IsAlpha(c: char) { 'a' <= c <= 'z' || 'A' <= c <= 'Z' }
  predicate IsDigit(c: char) { '0' <= c <= '9' }
  predicate IsAlnum(c: char) { IsAlpha(c) || IsDigit(c) }
  predicate IsXDigit(c: char) { IsDigit(c) || 'a' <= c <= 'f' || 'A' <= c <= 'F' }

  ghost predicate Ascii(s: string) {
    forall i :: 0 <= i < |s| ==> s[i] < '\U{0080}'
  }

  // ---------------------------------------------------------------- encoding

  function HexChar(d: nat): char
    requires d < 16
  {
    "0123456789ABCDEF"[d]
  }

  /** The text of "__0%02X". */
  function Escape(c: char): string
    requires c < '\U{0080}'
  {
    ['_', '_', '0', HexChar(c as nat / 16), HexChar(c as nat % 16)]
  }

  /** How many characters of the name the next step takes. */
  function Taken(s: string): nat
    requires s != ""
    ensures 1 <= Taken(s) <= |s|
  {
    if s[0] == '_' && CharAt(s, 1) == '_' then 2 else 1
  }

  /** What the next step puts out. Digits cannot lead. */
  function Piece(s: string, begin: bool): string
    requires s != "" && s[0] < '\U{0080}'
  {
    if (if begin then IsAlpha(s[0]) else IsAlnum(s[0])) then [s[0]]
    else if s[0] == '_' then (if CharAt(s, 1) == '_' then "_" + "__05F" else "_")
    else Escape(s[0])
  }

  function Encoded(s: string, begin: bool): string
    requires Ascii(s)
    decreases |s|
  {
    if s == "" then "" else Piece(s, begin) + Encoded(s[Taken(s)..], false)
  }

  /** `encodeName` up to the hashing. */
  method EncodeName(namein: string) returns (out: string)
    requires Ascii(namein)
    ensures out == Encoded(namein, true)
  {
    out := "";
    var pos: nat := 0;
    assert namein[0..] == namein;
    while pos < |namein|
      invariant pos <= |namein| && out + Encoded(namein[pos..], pos == 0) == Encoded(namein, true)
      decreases |namein| - pos
    {
      ghost var was, s, begin := out, namein[pos..], pos == 0;
      var step: nat := 1;
      if (if pos == 0 then IsAlpha(namein[pos]) else IsAlnum(namein[pos])) {
        out := out + [namein[pos]];
      } else if namein[pos] == '_' {
        if CharAt(namein, pos + 1) == '_' {
          out := out + "_";
          out := out + "__05F";
          step := 2;
        } else {
          out := out + [namein[pos]];
        }
      } else {
        out := out + Escape(namein[pos]);
      }
      assert CharAt(s, 1) == CharAt(namein, pos + 1);
      EncodedStep(was, s, begin, namein[pos + step..], out);
      pos := pos + step;
    }
  }

  lemma EncodedStep(was: string, s: string, begin: bool, after: string, out: string)
    requires Ascii(s) && s != "" && after == s[Taken(s)..]
    requires out == was + Piece(s, begin) ||
             (s[0] == '_' && CharAt(s, 1) == '_' && !IsAlnum(s[0]) && out == was + "_" + "__05F")
    ensures out + Encoded(after, false) == was + Encoded(s, begin)
  {
    var rest := Encoded(after, false);
    assert out == was + Piece(s, begin);
    assert (was + Piece(s, begin)) + rest == was + (Piece(s, begin) + rest);
  }

  // ---------------------------------------------------------------- decoding

  function HexValue(c: char): nat
    requires IsXDigit(c)
    ensures HexValue(c) < 16
  {
    if IsDigit(c) then c as nat - '0' as nat
    else if 'a' <= c <= 'f' then c as nat - 'a' as nat + 10
    else c as nat - 'A' as nat + 10
  }

  predicate StartsWith(s: string, t: string) {
    |t| <= |s| && forall i :: 0 <= i < |t| ==> s[i] == t[i]
  }

  predicate IsEscape(e: string) {
    |e| >= 5 && e[0] == '_' && e[1] == '_' && e[2] == '0' && IsXDigit(e[3]) && IsXDigit(e[4])
  }

  /** How many characters the next step of `prettyName` takes. */
  function PrettyTaken(e: string): (n: nat)
    requires e != ""
    ensures 1 <= n <= |e|
  {
    if StartsWith(e, "__BRA__") || StartsWith(e, "__KET__") || StartsWith(e, "__DOT__") then 7
    else if StartsWith(e, "->") then 2
    else if StartsWith(e, "__PVT__") then 7
    else if IsEscape(e) then 5
    else 1
  }

  /** What it puts out. */
  function PrettyPiece(e: string): string
    requires e != ""
  {
    if StartsWith(e, "__BRA__") then "["
    else if StartsWith(e, "__KET__") then "]"
    else if StartsWith(e, "__DOT__") then "."
    else if StartsWith(e, "->") then "."
    else if StartsWith(e, "__PVT__") then ""
    else if IsEscape(e) then [(16 * HexValue(e[3]) + HexValue(e[4])) as char]
    else [e[0]]
  }

  /** The loop of `prettyName`. */
  function Decoded(e: string): string
    decreases |e|
  {
    if e == "" then "" else PrettyPiece(e) + Decoded(e[PrettyTaken(e)..])
  }

  /** The two replacements at the end. */
  function WithoutTop(s: string): string {
    var t := if StartsWith(s, "TOP.") then s[4..] else s;
    if StartsWith(t, "TOP->") then t[5..] else t
  }

  method PrettyName(namein: string) returns (pretty: string)
    ensures pretty == WithoutTop(Decoded(namein))
  {
    pretty := "";
    var pos: nat := 0;
    assert namein[0..] == namein;
    while pos < |namein|
      invariant pos <= |namein| && pretty + Decoded(namein[pos..]) == Decoded(namein)
      decreases |namein| - pos
    {
      ghost var was := pretty;
      var step;
      pretty, step := PrettyStep(namein[pos..], pretty);
      DecodedStep(was, namein[pos..], pretty);
      assert namein[pos..][step..] == namein[pos + step..];
      pos := pos + step;
    }
    if StartsWith(pretty, "TOP.") { pretty := pretty[4..]; }
    if StartsWith(pretty, "TOP->") { pretty := pretty[5..]; }
  }

  /** One turn of the loop, at the text e. */
  method PrettyStep(e: string, pretty0: string) returns (pretty: string, step: nat)
    requires e != ""
    ensures pretty == pretty0 + PrettyPiece(e) && step == PrettyTaken(e)
  {
    pretty, step := pretty0, 1;
    if StartsWith(e, "__BRA__") { pretty := pretty + "["; step := 7; }
    else if StartsWith(e, "__KET__") { pretty := pretty + "]"; step := 7; }
    else if StartsWith(e, "__DOT__") { pretty := pretty + "."; step := 7; }
    else if StartsWith(e, "->") { pretty := pretty + "."; step := 2; }
    else if StartsWith(e, "__PVT__") { pretty := pretty + ""; step := 7; }
    else if IsEscape(e) { pretty := pretty + [(16 * HexValue(e[3]) + HexValue(e[4])) as char]; step := 5; }
    else { pretty := pretty + [e[0]]; }
  }

  lemma DecodedStep(was: string, e: string, pretty: string)
    requires e != "" && pretty == was + PrettyPiece(e)
    ensures pretty + Decoded(e[PrettyTaken(e)..]) == was + Decoded(e)
  {
    Assoc(was, PrettyPiece(e), Decoded(e[PrettyTaken(e)..]));
  }

  // ---------------------------------------------------------------- round trip

  /** Text that starts none of the special cases is copied. */
  lemma Copied(e: string)
    requires e != "" && e[0] != '-' && (e[0] == '_' ==> CharAt(e, 1) != '_' || CharAt(e, 2) == '_')
    ensures PrettyPiece(e) == [e[0]] && PrettyTaken(e) == 1 && Decoded(e) == [e[0]] + Decoded(e[1..])
  {
    NoMarkers(e);
    assert "->"[0] == '-';
  }

  lemma NoMarkers(e: string)
    requires e != "" && (e[0] == '_' ==> CharAt(e, 1) != '_' || CharAt(e, 2) == '_')
    ensures !StartsWith(e, "__BRA__") && !StartsWith(e, "__KET__") && !StartsWith(e, "__DOT__") &&
            !StartsWith(e, "__PVT__")
  {
    NoMarker(e, "__BRA__");
    NoMarker(e, "__KET__");
    NoMarker(e, "__DOT__");
    NoMarker(e, "__PVT__");
  }

  lemma NoMarker(e: string, m: string)
    requires e != "" && (e[0] == '_' ==> CharAt(e, 1) != '_' || CharAt(e, 2) == '_')
    requires |m| == 7 && m[0] == '_' && m[1] == '_' && m[2] != '_'
    ensures !StartsWith(e, m)
  {
  }

  lemma NoMarkerZero(e: string, m: string)
    requires |e| >= 3 && e[2] == '0' && |m| == 7 && m[2] != '0'
    ensures !StartsWith(e, m)
  {
  }

  lemma HexRoundTrip(d: nat)
    requires d < 16
    ensures IsXDigit(HexChar(d)) && HexValue(HexChar(d)) == d
  {
  }

  /** An escape decodes to its character. */
  lemma Escaped(c: char, r: string)
    requires c < '\U{0080}'
    ensures Decoded(Escape(c) + r) == [c] + Decoded(r)
  {
    var e := Escape(c) + r;
    HexRoundTrip(c as nat / 16);
    HexRoundTrip(c as nat % 16);
    NoMarkerZero(e, "__BRA__");
    NoMarkerZero(e, "__KET__");
    NoMarkerZero(e, "__DOT__");
    NoMarkerZero(e, "__PVT__");
    assert "->"[0] == '-';
    assert IsEscape(e) && e[5..] == r;
    assert (16 * (c as nat / 16) + c as nat % 16) as char == c;
  }

  /** What may come after an encoded part: an underscore only if another follows it. */
  predicate MayFollow(tail: string) {
    CharAt(tail, 0) == '_' ==> CharAt(tail, 1) == '_'
  }

  /** After a lone underscore the encoding goes on with an escape if with an underscore. */
  lemma LoneUnderscore(s: string)
    requires Ascii(s) && CharAt(s, 0) != '_'
    ensures var r := Encoded(s, false); CharAt(r, 0) == '_' ==> CharAt(r, 1) == '_' && CharAt(r, 2) == '0'
  {
  }

  lemma LoneFollow(s: string, tail: string)
    requires Ascii(s) && CharAt(s, 0) != '_' && MayFollow(tail)
    ensures MayFollow(Encoded(s, false) + tail)
  {
    LoneUnderscore(s);
    var r := Encoded(s, false);
    if s == "" {
      assert r + tail == tail;
    } else {
      assert CharAt(r + tail, 0) == CharAt(r, 0);
      if CharAt(r, 0) == '_' { assert |r| >= 2 && CharAt(r + tail, 1) == CharAt(r, 1); }
    }
  }

  /** An encoded name decodes to itself, and what follows it as without it. */
  lemma {:induction false} DecodeTail(s: string, begin: bool, tail: string)
    requires Ascii(s) && MayFollow(tail)
    ensures Decoded(Encoded(s, begin) + tail) == s + Decoded(tail)
    decreases |s|
  {
    if s == "" {
      assert "" + tail == tail && "" + Decoded(tail) == Decoded(tail);
    } else {
      var rest := s[Taken(s)..];
      var r := Encoded(rest, false);
      DecodeTail(rest, false, tail);
      if s[0] == '_' && CharAt(s, 1) != '_' {
        assert CharAt(rest, 0) == CharAt(s, 1);
        LoneFollow(rest, tail);
      }
      DecodePiece(s, begin, r + tail);
      Assoc(Piece(s, begin), r, tail);
      Assoc(s[..Taken(s)], rest, Decoded(tail));
      assert s == s[..Taken(s)] + rest;
    }
  }

  lemma DecodeEncode(s: string, begin: bool)
    requires Ascii(s)
    ensures Decoded(Encoded(s, begin)) == s
  {
    DecodeTail(s, begin, "");
    assert Encoded(s, begin) + "" == Encoded(s, begin) && s + "" == s;
  }

  /** The first step's text decodes to what it was made from. */
  lemma DecodePiece(s: string, begin: bool, r: string)
    requires Ascii(s) && s != ""
    requires s[0] == '_' && CharAt(s, 1) != '_' ==> MayFollow(r)
    ensures Decoded(Piece(s, begin) + r) == s[..Taken(s)] + Decoded(r)
  {
    PieceIs(s, begin);
    if s[0] == '_' && CharAt(s, 1) == '_' {
      DecodePair(r);
    } else if Plain(s[0], begin) {
      DecodeOne(s[0], r);
    } else {
      Escaped(s[0], r);
    }
  }

  predicate Plain(c: char, begin: bool) { c == '_' || if begin then IsAlpha(c) else IsAlnum(c) }

  lemma PieceIs(s: string, begin: bool)
    requires Ascii(s) && s != ""
    ensures s[0] == '_' && CharAt(s, 1) == '_' ==> Piece(s, begin) == "_" + Escape('_') && s[..Taken(s)] == "__"
    ensures s[0] != '_' || CharAt(s, 1) != '_' ==>
              Piece(s, begin) == (if Plain(s[0], begin) then [s[0]] else Escape(s[0])) && s[..Taken(s)] == [s[0]]
  {
    if s[0] == '_' && CharAt(s, 1) == '_' { EscapedUnderscore(); }
  }

  lemma EscapedUnderscore()
    ensures Escape('_') == "__05F"
  {
  }

  lemma DecodeOne(c: char, r: string)
    requires c != '-' && (c == '_' ==> CharAt(r, 0) != '_' || CharAt(r, 1) == '_')
    ensures Decoded([c] + r) == [c] + Decoded(r)
  {
    var e := [c] + r;
    assert e[1..] == r && CharAt(e, 1) == CharAt(r, 0) && CharAt(e, 2) == CharAt(r, 1);
    Copied(e);
  }

  lemma DecodePair(r: string)
    ensures Decoded("_" + Escape('_') + r) == "__" + Decoded(r)
  {
    Assoc("_", Escape('_'), r);
    DecodeOne('_', Escape('_') + r);
    Escaped('_', r);
    Assoc("_", "_", Decoded(r));
    assert "_" + "_" == "__";
  }

  /** `prettyName` undoes `encodeName` exactly for the names that do not start with what it strips. */
  lemma PrettyUndoesEncode(s: string)
    requires Ascii(s)
    ensures WithoutTop(Decoded(Encoded(s, true))) == s <==> !StartsWith(s, "TOP.") && !StartsWith(s, "TOP->")
  {
    DecodeEncode(s, true);
    assert |WithoutTop(s)| <= |s|;
  }

  /** Different names are encoded differently. */
  lemma EncodeInjective(s: string, t: string)
    requires Ascii(s) && Ascii(t) && Encoded(s, true) == Encoded(t, true)
    ensures s == t
  {
    DecodeEncode(s, true);
    DecodeEncode(t, true);
  }

  // ---------------------------------------------------------------- no markers

  /** Letters, digits and underscores only, and after two underscores another or a 0. */
  ghost predicate Safe(e: string) {
    e != "" ==> (IsAlnum(e[0]) || e[0] == '_') && Safe(e[1..]) &&
                (e[0] == '_' && CharAt(e, 1) == '_' ==> CharAt(e, 2) == '_' || CharAt(e, 2) == '0')
  }

  lemma SafeOne(c: char, r: string)
    requires Safe(r) && (IsAlnum(c) || c == '_')
    requires c == '_' && CharAt(r, 0) == '_' ==> CharAt(r, 1) == '_' || CharAt(r, 1) == '0'
    ensures Safe([c] + r)
  {
    var e := [c] + r;
    assert e[1..] == r && CharAt(e, 1) == CharAt(r, 0) && CharAt(e, 2) == CharAt(r, 1);
  }

  lemma SafeEscape(c: char, r: string)
    requires c < '\U{0080}' && Safe(r)
    ensures Safe(Escape(c) + r)
  {
    var h, l := HexChar(c as nat / 16), HexChar(c as nat % 16);
    HexRoundTrip(c as nat / 16);
    HexRoundTrip(c as nat % 16);
    SafeOne(l, r);
    SafeOne(h, [l] + r);
    SafeOne('0', [h] + ([l] + r));
    SafeOne('_', ['0'] + ([h] + ([l] + r)));
    SafeOne('_', ['_'] + (['0'] + ([h] + ([l] + r))));
    assert Escape(c) + r == ['_'] + (['_'] + (['0'] + ([h] + ([l] + r))));
  }

  lemma SafeTwo(r: string)
    requires Safe(r)
    ensures Safe(("_" + "__05F") + r)
  {
    SafeEscape('_', r);
    SafeOne('_', Escape('_') + r);
    assert ("_" + "__05F") + r == ['_'] + (Escape('_') + r);
  }

  lemma {:induction false} EncodedSafe(s: string, begin: bool)
    requires Ascii(s)
    ensures Safe(Encoded(s, begin))
    decreases |s|
  {
    if s != "" {
      var rest := s[Taken(s)..];
      var r := Encoded(rest, false);
      EncodedSafe(rest, false);
      if s[0] == '_' && CharAt(s, 1) == '_' {
        SafeTwo(r);
      } else if s[0] == '_' {
        assert CharAt(rest, 0) != '_';
        LoneUnderscore(rest);
        SafeOne('_', r);
      } else if if begin then IsAlpha(s[0]) else IsAlnum(s[0]) {
        SafeOne(s[0], r);
      } else {
        SafeEscape(s[0], r);
      }
    }
  }

  /** What that says of place i. */
  lemma {:induction false} SafeAt(e: string, i: nat)
    requires Safe(e) && i < |e|
    ensures IsAlnum(e[i]) || e[i] == '_'
    ensures e[i] == '_' && CharAt(e, i + 1) == '_' ==> CharAt(e, i + 2) == '_' || CharAt(e, i + 2) == '0'
    decreases i
  {
    if i > 0 {
      SafeAt(e[1..], i - 1);
      assert CharAt(e[1..], i) == CharAt(e, i + 1) && CharAt(e[1..], i + 1) == CharAt(e, i + 2);
    }
  }

  /** No place of safe text starts a marker. */
  lemma SafeStart(e: string, i: nat, m: string)
    requires Safe(e) && i < |e| && |m| == 7 && m[0] == '_' && m[1] == '_' && m[2] != '_' && m[2] != '0'
    ensures !StartsWith(e[i..], m)
  {
    SafeAt(e, i);
    var t := e[i..];
    assert CharAt(t, 0) == CharAt(e, i) && CharAt(t, 1) == CharAt(e, i + 1) && CharAt(t, 2) == CharAt(e, i + 2);
  }

  /** The encoding never makes a marker, or an arrow, that a user's name did not have. */
  lemma EncodedHasNoMarker(s: string, i: nat)
    requires Ascii(s) && i < |Encoded(s, true)|
    ensures var e := Encoded(s, true)[i..];
            !StartsWith(e, "__DOT__") && !StartsWith(e, "__BRA__") && !StartsWith(e, "__KET__") &&
            !StartsWith(e, "__PVT__") && !StartsWith(e, "->")
  {
    var e := Encoded(s, true);
    EncodedSafe(s, true);
    SafeStart(e, i, "__DOT__");
    SafeStart(e, i, "__BRA__");
    SafeStart(e, i, "__KET__");
    SafeStart(e, i, "__PVT__");
    SafeAt(e, i);
    assert "->"[0] == '-' && e[i..][0] == e[i];
  }

  // ---------------------------------------------------------------- names made of parts

  /** What the compiler puts between the parts of a name. */
  datatype Marker = Dot | Arrow | Bra | Ket | Pvt

  function MarkerText(m: Marker): string {
    match m
    case Dot => "__DOT__"
    case Arrow => "->"
    case Bra => "__BRA__"
    case Ket => "__KET__"
    case Pvt => "__PVT__"
  }

  /** What a user should see for it. */
  function MarkerShown(m: Marker): string {
    match m
    case Dot => "."
    case Arrow => "."
    case Bra => "["
    case Ket => "]"
    case Pvt => ""
  }

  ghost predicate AllAscii(first: string, more: seq<(Marker, string)>) {
    Ascii(first) && forall i :: 0 <= i < |more| ==> Ascii(more[i].1)
  }

  /** The parts, each encoded by itself, with the markers between them. */
  function Mangled(first: string, more: seq<(Marker, string)>): string
    requires AllAscii(first, more)
    decreases |more|
  {
    Encoded(first, true) + if more == [] then "" else MarkerText(more[0].0) + Mangled(more[0].1, more[1..])
  }

  /** The parts as the user wrote them, with what the markers stand for. */
  function Shown(first: string, more: seq<(Marker, string)>): string
    decreases |more|
  {
    first + if more == [] then "" else MarkerShown(more[0].0) + Shown(more[0].1, more[1..])
  }

  lemma MarkerDecoded(m: Marker, r: string)
    ensures Decoded(MarkerText(m) + r) == MarkerShown(m) + Decoded(r)
  {
    var t := MarkerText(m);
    var e := t + r;
    forall i | 0 <= i < |t| ensures e[i] == t[i] { }
    assert e[|t|..] == r && StartsWith(e, t);
    assert |t| == 7 ==> e[0] == '_' && e[2] == t[2];
    assert "->"[0] == '-';
    OtherMarker(e, m, "__BRA__", Bra);
    OtherMarker(e, m, "__KET__", Ket);
    OtherMarker(e, m, "__DOT__", Dot);
  }

  lemma OtherMarker(e: string, m: Marker, t: string, k: Marker)
    requires StartsWith(e, MarkerText(m)) && t == MarkerText(k) && k != Arrow
    ensures StartsWith(e, t) <==> m == k
  {
    var u := MarkerText(m);
    if m != k { assert e[0] == u[0] && (|u| == 7 ==> e[2] == u[2] != t[2]); }
  }

  /** Decoding shows every part as the user wrote it, and every marker as what it stands for. */
  lemma {:induction false} PartsDecoded(first: string, more: seq<(Marker, string)>)
    requires AllAscii(first, more)
    ensures Decoded(Mangled(first, more)) == Shown(first, more)
    decreases |more|
  {
    if more == [] {
      DecodeTail(first, true, "");
    } else {
      var rest := Mangled(more[0].1, more[1..]);
      PartsDecoded(more[0].1, more[1..]);
      MarkerFollows(more[0].0, rest);
      DecodeTail(first, true, MarkerText(more[0].0) + rest);
      MarkerDecoded(more[0].0, rest);
    }
  }

  lemma MarkerFollows(m: Marker, r: string)
    ensures MayFollow(MarkerText(m) + r)
  {
    var t := MarkerText(m);
    assert (t + r)[0] == t[0] && (t + r)[1] == t[1];
  }

  /** A leading scope TOP goes, and nothing else. */
  lemma TopStripped(s: string)
    ensures !StartsWith(s, "TOP.") && !StartsWith(s, "TOP->") ==> WithoutTop(s) == s
    ensures WithoutTop("TOP->" + s) == s
    ensures WithoutTop("TOP." + s) == if StartsWith(s, "TOP->") then s[5..] else s
  {
    var a, b := "TOP->" + s, "TOP." + s;
    assert a[3] == '-' && "TOP."[3] == '.' && a[5..] == s;
    assert StartsWith(a, "TOP->") && StartsWith(b, "TOP.") && b[4..] == s;
  }

  /** A hexadecimal digit, of either case. */
  function HexOf(c: char): (d: nat)
    ensures d < 16
  {
    match c
    case '1' => 1 case '2' => 2 case '3' => 3 case '4' => 4 case '5' => 5
    case '6' => 6 case '7' => 7 case '8' => 8 case '9' => 9
    case 'a' => 10 case 'b' => 11 case 'c' => 12 case 'd' => 13 case 'e' => 14 case 'f' => 15
    case 'A' => 10 case 'B' => 11 case 'C' => 12 case 'D' => 13 case 'E' => 14 case 'F' => 15
    case _ => 0
  }

  lemma HexValueIs(c: char)
    requires IsXDigit(c)
    ensures HexValue(c) == HexOf(c)
  {
  }

  lemma XDigitIs(c: char)
    ensures IsXDigit(c) <==> c in "0123456789abcdefABCDEF"
  {
  }

  /** An escape decodes to the character with that code, whatever the case of its digits. */
  lemma EscapeDecoded(h: char, l: char, r: string)
    requires h in "0123456789abcdefABCDEF" && l in "0123456789abcdefABCDEF"
    ensures Decoded("__0" + [h, l] + r) == [(16 * HexOf(h) + HexOf(l)) as char] + Decoded(r)
  {
    var e := "__0" + [h, l] + r;
    XDigitIs(h);
    XDigitIs(l);
    HexValueIs(h);
    HexValueIs(l);
    assert e[0] == '_' && e[1] == '_' && e[2] == '0' && e[3] == h && e[4] == l;
    NoMarkerZero(e, "__BRA__");
    NoMarkerZero(e, "__KET__");
    NoMarkerZero(e, "__DOT__");
    NoMarkerZero(e, "__PVT__");
    assert "->"[0] == '-';
    assert e[5..] == r;
  }

  // ---------------------------------------------------------------- an encoded name is an identifier

  /** Letters, digits and underscores, and no digit first. */
  ghost predicate Identifier(e: string) {
    (e != "" ==> !('0' <= e[0] <= '9')) && forall i :: 0 <= i < |e| ==> InIdentifier(e[i])
  }

  predicate InIdentifier(c: char) {
    'a' <= c <= 'z' || 'A' <= c <= 'Z' || '0' <= c <= '9' || c == '_'
  }

  lemma EncodedIdentifier(s: string)
    requires Ascii(s)
    ensures Identifier(Encoded(s, true)) && (s != "" ==> Encoded(s, true) != "")
  {
    var e := Encoded(s, true);
    EncodedSafe(s, true);
    forall i | 0 <= i < |e| ensures InIdentifier(e[i]) { SafeAt(e, i); }
    if s != "" { assert e[0] == Piece(s, true)[0]; }
  }

  /** No two underscores next to each other. */
  ghost predicate LoneUnderscores(s: string) {
    forall i :: 0 <= i < |s| - 1 ==> s[i] != '_' || s[i + 1] != '_'
  }

  /** Identifiers with lone underscores need no encoding. */
  lemma {:induction false} PlainUnchanged(s: string, begin: bool)
    requires forall i :: 0 <= i < |s| ==> InIdentifier(s[i])
    requires LoneUnderscores(s) && (begin && s != "" ==> !('0' <= s[0] <= '9'))
    ensures Ascii(s) && Encoded(s, begin) == s
    decreases |s|
  {
    if s != "" {
      assert Taken(s) == 1 && Piece(s, begin) == [s[0]];
      PlainUnchanged(s[1..], false);
      assert s == [s[0]] + s[1..];
    }
  }

  /** Everything else, and a digit in front, becomes two underscores, a zero and two digits. */
  lemma OtherEscaped(s: string, begin: bool)
    requires Ascii(s) && s != "" && (InIdentifier(s[0]) ==> begin && '0' <= s[0] <= '9')
    ensures |Encoded(s, begin)| >= 5
    ensures var e := Encoded(s, begin);
            e[..3] == "__0" && e[3] in "0123456789ABCDEF" && e[4] in "0123456789ABCDEF" &&
            16 * HexOf(e[3]) + HexOf(e[4]) == s[0] as nat && e[5..] == Encoded(s[1..], false)
  {
    var e, c := Encoded(s, begin), s[0] as nat;
    HexSpelled(c / 16);
    HexSpelled(c % 16);
    assert e == Escape(s[0]) + Encoded(s[1..], false);
    assert e[..3] == "__0";
  }

  lemma HexSpelled(d: nat)
    requires d < 16
    ensures HexChar(d) in "0123456789ABCDEF" && HexOf(HexChar(d)) == d
  {
  }
}
