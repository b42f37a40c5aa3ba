/** The texts of values in a VCD file, and the values that a reader takes them for
    (IEEE 1364-2005 section 18.2). */
module VcdText {
  import opened Bits
  import opened Words

  // ---------------------------------------------------------------- texts

  function BitChar(b: bool): char { if b then '1' else '0' }

  function BitsText(v: nat, bits: nat): string {
    if bits == 0 then "" else [BitChar(Bit(v, bits - 1))] + BitsText(v, bits - 1)
  }

  /** "01zz", by the value and the enable. */
  function TriChar(b: bool, t: bool): char { if t then 'z' else BitChar(b) }

  function TriText(v: nat, t: nat, bits: nat): string {
    if bits == 0 then "" else [TriChar(Bit(v, bits - 1), Bit(t, bits - 1))] + TriText(v, t, bits - 1)
  }

  lemma {:induction false} SameText(v: nat, u: nat, bits: nat)
    requires forall k :: 0 <= k < bits ==> Bit(v, k) == Bit(u, k)
    ensures BitsText(v, bits) == BitsText(u, bits)
  {
    if bits > 0 { SameText(v, u, bits - 1); }
  }

  lemma {:induction false} SameTriText(v: nat, u: nat, t: nat, s: nat, bits: nat)
    requires forall k :: 0 <= k < bits ==> Bit(v, k) == Bit(u, k) && Bit(t, k) == Bit(s, k)
    ensures TriText(v, t, bits) == TriText(u, s, bits)
  {
    if bits > 0 { SameTriText(v, u, t, s, bits - 1); }
  }

  /** The text of a single bit. */
  lemma OneBit(x: Word, t: Word)
    ensures BitsText(x, 1) == [BitChar(x % 2 == 1)]
    ensures x < 2 && t < 2 ==> TriText(x, t, 1) == ["01zz"[x + 2 * t]]
  {
    assert BitsText(x, 0) == "" && TriText(x, t, 0) == "";
    assert BitsText(x, 1) == [BitChar(Bit(x, 0))] + BitsText(x, 0);
    assert TriText(x, t, 1) == [TriChar(Bit(x, 0), Bit(t, 0))] + TriText(x, t, 0);
  }

  // ---------------------------------------------------------------- what a reader makes of them

  /** The number of a binary text, read from the left: each digit doubles what came before. */
  function Number(text: string): nat {
    if text == "" then 0 else 2 * Number(text[..|text| - 1]) + if text[|text| - 1] == '1' then 1 else 0
  }

  ghost predicate IsBinary(text: string) {
    forall k :: 0 <= k < |text| ==> text[k] == '0' || text[k] == '1'
  }

  /** A first digit counts by the number of digits after it. */
  lemma {:induction false} NumberFirst(c: char, text: string)
    ensures Number([c] + text) == Number(text) + if c == '1' then Pow2(|text|) else 0
    decreases |text|
  {
    var s := [c] + text;
    if text == "" {
      assert s[..0] == "";
    } else {
      var front := text[..|text| - 1];
      assert s[..|s| - 1] == [c] + front && s[|s| - 1] == text[|text| - 1];
      NumberFirst(c, front);
    }
  }

  /** A printed value has as many digits as the signal has bits, and reads as its low bits. */
  lemma {:induction false} BitsRead(v: nat, bits: nat)
    ensures |BitsText(v, bits)| == bits && IsBinary(BitsText(v, bits))
    ensures Number(BitsText(v, bits)) == Low(v, bits)
  {
    if bits > 0 {
      BitsRead(v, bits - 1);
      NumberFirst(BitChar(Bit(v, bits - 1)), BitsText(v, bits - 1));
      LowTop(v, bits - 1);
    }
  }

  /** One more bit kept. */
  lemma {:induction false} LowTop(v: nat, n: nat)
    ensures Low(v, n + 1) == Low(v, n) + if Bit(v, n) then Pow2(n) else 0
  {
    if n > 0 { LowTop(v / 2, n - 1); }
  }

  /** A tristate text has one character per bit, the highest first: z where the enable is set. */
  lemma {:induction false} TriRead(v: nat, t: nat, bits: nat)
    ensures |TriText(v, t, bits)| == bits
    ensures forall k :: 0 <= k < bits ==>
              TriText(v, t, bits)[bits - 1 - k] == if Bit(t, k) then 'z' else if Bit(v, k) then '1' else '0'
  {
    if bits > 0 { TriRead(v, t, bits - 1); }
  }

  // ---------------------------------------------------------------- the loops that print

  method BusText(newval: nat, bits: nat) returns (text: string)
    ensures text == BitsText(newval, bits)
  {
    text := "";
    for bit := bits downto 0
      invariant text + BitsText(newval, bit) == BitsText(newval, bits)
    {
      text := text + (if Bit(newval, bit) then "1" else "0");
    }
    assert text + "" == text;
  }

  method TriBusText(newval: nat, newtri: nat, bits: nat) returns (text: string)
    ensures text == TriText(newval, newtri, bits)
  {
    text := "";
    for bit := bits downto 0
      invariant text + TriText(newval, newtri, bit) == TriText(newval, newtri, bits)
    {
      var valbit := if Bit(newval, bit) then 1 else 0;
      var tribit := if Bit(newtri, bit) then 1 else 0;
      text := text + ["01zz"[valbit + 2 * tribit]];
    }
    assert text + "" == text;
  }

  method ArrayText(newval: seq<Word>, bits: nat) returns (text: string)
    requires bits >= 1 && |newval| == (bits - 1) / 32 + 1
    ensures text == BitsText(Val(newval), bits)
  {
    text := "";
    for bit := bits downto 0
      invariant text + BitsText(Val(newval), bit) == BitsText(Val(newval), bits)
    {
      ValBit(newval, bit);
      text := text + (if WBit(newval, bit) then "1" else "0");
    }
    assert text + "" == text;
  }

  method TriArrayText(newval: seq<Word>, newtri: seq<Word>, bits: nat) returns (text: string)
    requires bits >= 1 && |newval| == |newtri| == (bits - 1) / 32 + 1
    ensures text == TriText(Val(newval), Val(newtri), bits)
  {
    text := "";
    for bit := bits downto 0
      invariant text + TriText(Val(newval), Val(newtri), bit) == TriText(Val(newval), Val(newtri), bits)
    {
      ValBit(newval, bit);
      ValBit(newtri, bit);
      var valbit := if WBit(newval, bit) then 1 else 0;
      var tribit := if WBit(newtri, bit) then 1 else 0;
      text := text + ["01zz"[valbit + 2 * tribit]];
    }
    assert text + "" == text;
  }
}
