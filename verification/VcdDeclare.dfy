/** The names that `declare` puts into the name map, and what a reader makes of them. */
module VcdDeclare {
  import opened Text
  import opened VcdHeader
  import opened VcdScopes
  import opened VcdDump

  // ---------------------------------------------------------------- the key

  /** `isScopeEscape` with the default separator. */
  predicate IsEscape(c: char) { IsSpace(c) || c == '.' }

  /** No control characters but those that separate scopes. */
  ghost predicate Printable(name: string) {
    forall k :: 0 <= k < |name| ==> name[k] > ' ' || IsSpace(name[k])
  }

  /** The loop of `declare` from i on: the scopes so far and the name so far. */
  function HierFrom(name: string, i: nat, hier: string, base: string): (string, string)
    requires i <= |name|
    decreases |name| - i
  {
    if i == |name| then (hier, base)
    else if IsEscape(name[i]) then HierFrom(name, i + 1, Longer(hier, base), "")
    else HierFrom(name, i + 1, hier, base + [name[i]])
  }

  function Longer(hier: string, base: string): string {
    (if hier != "" then hier + " " else hier) + base
  }

  function Decimal(n: nat): string {
    (if n < 10 then "" else Decimal(n / 10)) + ["0123456789"[n % 10]]
  }

  /** The array index of a signal, if it has one. */
  function Index(arraynum: int): string {
    if arraynum >= 0 then "(" + Decimal(arraynum) + ")" else ""
  }

  /** The key of a declared name. */
  function KeyOf(name: string, arraynum: int): string {
    var h := HierFrom(name, 0, "", "");
    h.0 + "\t" + (h.1 + Index(arraynum))
  }

  method DeclareKey(name: string, arraynum: int) returns (hiername: string)
    requires NoNul(name)
    ensures hiername == KeyOf(name, arraynum)
  {
    hiername := "";
    var basename := "";
    var cp: nat := 0;
    while CharAt(name, cp) != '\0'
      invariant cp <= |name| && HierFrom(name, cp, hiername, basename) == HierFrom(name, 0, "", "")
      decreases |name| - cp
    {
      if IsEscape(name[cp]) {
        if hiername != "" { hiername := hiername + " "; }
        hiername := hiername + basename;
        basename := "";
      } else {
        basename := basename + [name[cp]];
      }
      cp := cp + 1;
    }
    hiername := hiername + "\t" + basename;
    if arraynum >= 0 { hiername := hiername + ("(" + Decimal(arraynum) + ")"); }
    var h := HierFrom(name, 0, "", "");
    assert arraynum < 0 ==> h.1 + "" == h.1;
    Assoc(h.0 + "\t", h.1, Index(arraynum));
  }

  // ---------------------------------------------------------------- the index

  ghost predicate IsDecimal(s: string) {
    forall k :: 0 <= k < |s| ==> '0' <= s[k] <= '9'
  }

  /** The number that decimal digits stand for, read from the left. */
  function DecimalValue(s: string): nat
    requires IsDecimal(s)
  {
    if s == "" then 0 else 10 * DecimalValue(s[..|s| - 1]) + (s[|s| - 1] as int - '0' as int)
  }

  lemma DecimalDigit(d: nat)
    requires d < 10
    ensures '0' <= "0123456789"[d] <= '9' && "0123456789"[d] as int == '0' as int + d
  {
    assert d == 0 || d == 1 || d == 2 || d == 3 || d == 4 || d == 5 || d == 6 || d == 7 || d == 8 || d == 9;
  }

  /** The digits written for n read as n, and start with 0 only for 0 itself. */
  lemma {:induction false} DecimalReads(n: nat)
    ensures IsDecimal(Decimal(n)) && DecimalValue(Decimal(n)) == n
    ensures |Decimal(n)| >= 1 && (Decimal(n)[0] == '0' <==> n == 0) && (n < 10 ==> |Decimal(n)| == 1)
  {
    if n < 10 {
      DecimalOne(n);
    } else {
      DecimalReads(n / 10);
      DecimalNext(n, n / 10, Decimal(n / 10));
    }
  }

  lemma DecimalOne(n: nat)
    requires n < 10
    ensures var s := Decimal(n);
            |s| == 1 && IsDecimal(s) && DecimalValue(s) == n && (s[0] == '0' <==> n == 0)
  {
    DecimalDigit(n);
    DecimalMore("", "0123456789"[n], n);
    assert Decimal(n) == "" + ["0123456789"[n]];
  }

  lemma DecimalNext(n: nat, q: nat, front: string)
    requires n >= 10 && q == n / 10 && front == Decimal(q)
    requires |front| >= 1 && IsDecimal(front) && DecimalValue(front) == q && front[0] != '0'
    ensures var s := Decimal(n);
            |s| >= 1 && IsDecimal(s) && DecimalValue(s) == n && s[0] != '0'
  {
    var d := n % 10;
    var c := "0123456789"[d];
    DecimalDigit(d);
    DecimalMore(front, c, d);
    DecimalSplit(n, q, d, c);
  }

  lemma DecimalSplit(n: nat, q: nat, d: nat, c: char)
    requires n >= 10 && q == n / 10 && d == n % 10 && c == "0123456789"[d]
    ensures Decimal(n) == Decimal(q) + [c] && 10 * q + d == n
  {
  }

  lemma DecimalMore(s: string, c: char, d: nat)
    requires IsDecimal(s) && d < 10 && c as int == '0' as int + d
    ensures IsDecimal(s + [c]) && DecimalValue(s + [c]) == 10 * DecimalValue(s) + d
  {
    assert (s + [c])[..|s|] == s;
  }

  lemma IndexPlain(arraynum: int)
    ensures forall k :: 0 <= k < |Index(arraynum)| ==> Index(arraynum)[k] > ' '
  {
    if arraynum >= 0 { DecimalReads(arraynum); }
  }

  /** An index is written between brackets, in decimal. */
  lemma IndexReads(arraynum: nat)
    ensures var s := Index(arraynum);
            |s| >= 3 && s[0] == '(' && s[|s| - 1] == ')' && IsDecimal(s[1..|s| - 1]) &&
            DecimalValue(s[1..|s| - 1]) == arraynum && (s[1] == '0' ==> arraynum == 0 && |s| == 3)
  {
    DecimalReads(arraynum);
    var s := Index(arraynum);
    assert s[1..|s| - 1] == Decimal(arraynum);
  }

  /** Elements of an array have keys and references of their own, and none has that of a signal
      without an index. */
  lemma IndexApart(name: string, a: int, b: int)
    requires a >= 0 && a != b
    ensures Index(a) != Index(b) && KeyOf(name, a) != KeyOf(name, b) && EntryOf(name, a).1 != EntryOf(name, b).1
  {
    IndexReads(a);
    if b >= 0 { IndexReads(b); }
    var h := HierFrom(name, 0, "", "");
    SameFront(h.0 + "\t" + h.1, Index(a), Index(b));
    SameFront(BaseOf(name), Index(a), Index(b));
    Assoc(h.0 + "\t", h.1, Index(a));
    Assoc(h.0 + "\t", h.1, Index(b));
  }

  lemma SameFront(p: string, s: string, t: string)
    ensures p + s == p + t ==> s == t
  {
    assert (p + s)[|p|..] == s && (p + t)[|p|..] == t;
  }

  // ---------------------------------------------------------------- the pieces of a name

  function EscapeAt(s: string, i: nat): (q: nat)
    requires i <= |s|
    ensures i <= q <= |s| && (q < |s| ==> IsEscape(s[q])) && forall k :: i <= k < q ==> !IsEscape(s[k])
    decreases |s| - i
  {
    if i == |s| || IsEscape(s[i]) then i else EscapeAt(s, i + 1)
  }

  /** What stands between the separators. */
  function Pieces(u: string): (r: seq<string>)
    ensures |r| >= 1
  {
    var q := EscapeAt(u, 0);
    if q == |u| then [u] else [u[..q]] + Pieces(u[q + 1..])
  }

  function Front(ps: seq<string>): seq<string>
    requires ps != []
  {
    ps[..|ps| - 1]
  }

  function DropEmpty(ps: seq<string>): seq<string> {
    if ps != [] && ps[0] == "" then DropEmpty(ps[1..]) else ps
  }

  /** The scopes: all pieces but the last, from the first that is not empty on. */
  function ScopesOf(name: string): seq<string> {
    DropEmpty(Front(Pieces(name)))
  }

  function BaseOf(name: string): string {
    var ps := Pieces(name);
    ps[|ps| - 1]
  }

  lemma PieceFirst(u: string, q: nat)
    requires q <= |u| && (forall k :: 0 <= k < q ==> !IsEscape(u[k])) && (q < |u| ==> IsEscape(u[q]))
    ensures EscapeAt(u, 0) == q
  {
  }

  /** Scopes joined one after the other. */
  function Join(hier: string, ps: seq<string>): string
    decreases |ps|
  {
    if ps == [] then hier else Join(Longer(hier, ps[0]), ps[1..])
  }

  ghost predicate NoEscape(s: string) {
    forall k :: 0 <= k < |s| ==> !IsEscape(s[k])
  }

  /** The loop joins the pieces that are left. */
  lemma {:induction false} HierIsJoin(name: string, i: nat, hier: string, base: string)
    requires i <= |name| && NoEscape(base)
    ensures var ps := Pieces(base + name[i..]);
            HierFrom(name, i, hier, base) == (Join(hier, ps[..|ps| - 1]), ps[|ps| - 1])
    decreases |name| - i
  {
    var u := base + name[i..];
    if i == |name| {
      assert u == base;
      PieceFirst(u, |u|);
    } else if IsEscape(name[i]) {
      PieceFirst(u, |base|);
      assert u[..|base|] == base && u[|base| + 1..] == "" + name[i + 1..];
      HierIsJoin(name, i + 1, Longer(hier, base), "");
      JoinFront(hier, base, Pieces("" + name[i + 1..]));
    } else {
      assert u == (base + [name[i]]) + name[i + 1..];
      HierIsJoin(name, i + 1, hier, base + [name[i]]);
    }
  }

  lemma JoinFront(hier: string, base: string, ps: seq<string>)
    requires ps != []
    ensures var qs := [base] + ps;
            Join(hier, qs[..|qs| - 1]) == Join(Longer(hier, base), ps[..|ps| - 1]) && qs[|qs| - 1] == ps[|ps| - 1]
  {
    var qs := [base] + ps;
    var front := qs[..|qs| - 1];
    assert front[0] == base && front[1..] == ps[..|ps| - 1];
  }

  lemma {:induction false} PieceNoEscape(u: string, i: nat)
    requires i < |Pieces(u)|
    ensures NoEscape(Pieces(u)[i]) && forall k :: 0 <= k < |Pieces(u)[i]| ==> Pieces(u)[i][k] in u
    decreases |u|
  {
    var q := EscapeAt(u, 0);
    if i > 0 { PieceNoEscape(u[q + 1..], i - 1); }
  }

  ghost predicate AllPlain(ps: seq<string>) {
    forall i :: 0 <= i < |ps| ==> NoEscape(ps[i])
  }

  /** Splitting what has been joined. */
  lemma {:induction false} JoinSplits(hier: string, ps: seq<string>)
    requires hier != "" && AllPlain(ps)
    ensures Join(hier, ps) != "" && Split(Join(hier, ps)) == Split(hier) + ps
    decreases |ps|
  {
    if ps != [] {
      SplitJoin(hier, ps[0]);
      SplitFirst(ps[0], |ps[0]|);
      assert AllPlain(ps[1..]) by { assert forall i :: 0 <= i < |ps| - 1 ==> ps[1..][i] == ps[i + 1]; }
      JoinSplits(Longer(hier, ps[0]), ps[1..]);
      PlainChain(Split(hier), ps);
    }
  }

  lemma PlainChain(w: seq<string>, ps: seq<string>)
    requires ps != []
    ensures (w + [ps[0]]) + ps[1..] == w + ps
  {
  }

  lemma {:induction false} JoinDrops(ps: seq<string>)
    requires AllPlain(ps)
    ensures DropEmpty(ps) == [] ==> Join("", ps) == ""
    ensures DropEmpty(ps) != [] ==> Join("", ps) != "" && Split(Join("", ps)) == DropEmpty(ps)
    decreases |ps|
  {
    if ps != [] {
      assert AllPlain(ps[1..]) by { assert forall i :: 0 <= i < |ps| - 1 ==> ps[1..][i] == ps[i + 1]; }
      assert Longer("", ps[0]) == ps[0];
      if ps[0] == "" {
        JoinDrops(ps[1..]);
      } else {
        JoinSplits(ps[0], ps[1..]);
        SplitFirst(ps[0], |ps[0]|);
        assert ps == [ps[0]] + ps[1..];
      }
    }
  }

  lemma HierIs(name: string)
    ensures var h := HierFrom(name, 0, "", "").0;
            if ScopesOf(name) == [] then h == "" else h != "" && Split(h) == ScopesOf(name)
    ensures HierFrom(name, 0, "", "").1 == BaseOf(name)
  {
    var ps := Pieces(name);
    assert "" + name[0..] == name;
    HierIsJoin(name, 0, "", "");
    var front := ps[..|ps| - 1];
    forall i | 0 <= i < |front| ensures NoEscape(front[i]) { PieceNoEscape(name, i); }
    JoinDrops(front);
  }

  // ---------------------------------------------------------------- keys are well formed

  ghost predicate HierOk(hier: string, base: string) {
    (forall k :: 0 <= k < |hier| ==> hier[k] >= ' ') && (hier != "" ==> hier[0] != ' ') &&
    (forall k :: 0 <= k < |base| ==> base[k] > ' ')
  }

  lemma {:induction false} HierIsOk(name: string, i: nat, hier: string, base: string)
    requires i <= |name| && HierOk(hier, base) && Printable(name)
    ensures var h := HierFrom(name, i, hier, base); HierOk(h.0, h.1)
    decreases |name| - i
  {
    if i < |name| {
      if IsEscape(name[i]) {
        HierIsOk(name, i + 1, Longer(hier, base), "");
      } else {
        HierIsOk(name, i + 1, hier, base + [name[i]]);
      }
    }
  }

  lemma KeyTabAt(name: string, arraynum: int) returns (t: nat)
    requires Printable(name)
    ensures var h := HierFrom(name, 0, "", "");
            t == |h.0| && TabIs(KeyOf(name, arraynum), t) && KeyOf(name, arraynum)[..t] == h.0 && HierOk(h.0, h.1)
    ensures TabAt(KeyOf(name, arraynum), 0) == t
  {
    HierIsOk(name, 0, "", "");
    var h := HierFrom(name, 0, "", "");
    t := |h.0|;
    IndexPlain(arraynum);
    TabAfter(h.0, h.1, Index(arraynum), KeyOf(name, arraynum));
  }

  lemma TabAfter(hier: string, base: string, index: string, k: string)
    requires HierOk(hier, base) && (forall i :: 0 <= i < |index| ==> index[i] > ' ')
    requires k == hier + "\t" + (base + index)
    ensures TabIs(k, |hier|) && k[..|hier|] == hier && TabAt(k, 0) == |hier|
  {
    KeyTab(k, |hier|);
  }

  /** The scopes of the key are the pieces before the base name, without leading empty ones; a
      name without such pieces gives a key without scopes. */
  lemma KeyScopes(name: string, arraynum: int)
    requires Printable(name)
    ensures var k := KeyOf(name, arraynum);
            if ScopesOf(name) == [] then IsBareKey(k) && !IsKey(k) else IsKey(k) && Path(k) == ScopesOf(name)
    ensures var k := KeyOf(name, arraynum);
            TabAt(k, 0) < |k| && k[TabAt(k, 0) + 1..] == BaseOf(name) + Index(arraynum)
  {
    var k := KeyOf(name, arraynum);
    var t := KeyTabAt(name, arraynum);
    HierIs(name);
    if t == 0 { forall i | 1 <= i < |k| ensures k[i] > ' ' { } }
  }

  // ---------------------------------------------------------------- names that can be read back

  /** Two separators next to each other, or one at the start. */
  ghost predicate Gap(u: string) {
    exists e :: 0 <= e < |u| && IsEscape(u[e]) && (e == 0 || IsEscape(u[e - 1]))
  }

  /** Two separators next to each other, after something that is none. */
  ghost predicate InnerGap(u: string) {
    exists e :: 1 <= e < |u| && GapAt(u, e)
  }

  ghost predicate GapAt(u: string, e: nat)
    requires 1 <= e < |u|
  {
    IsEscape(u[e]) && IsEscape(u[e - 1]) && exists k :: 0 <= k < e - 1 && !IsEscape(u[k])
  }

  lemma FrontCons(p: string, ps: seq<string>)
    requires ps != []
    ensures Front([p] + ps) == [p] + Front(ps)
  {
  }

  lemma {:induction false} GapIff(u: string)
    ensures "" in Front(Pieces(u)) <==> Gap(u)
    decreases |u|
  {
    var q := EscapeAt(u, 0);
    if q < |u| {
      var v := u[q + 1..];
      GapIff(v);
      FrontCons(u[..q], Pieces(v));
      GapAfter(u, q, v);
    }
  }

  lemma GapAfter(u: string, q: nat, v: string)
    requires q == EscapeAt(u, 0) < |u| && v == u[q + 1..]
    ensures Gap(u) <==> q == 0 || Gap(v)
  {
    if Gap(v) {
      var e :| 0 <= e < |v| && IsEscape(v[e]) && (e == 0 || IsEscape(v[e - 1]));
      assert u[q + 1 + e] == v[e] && (e > 0 ==> u[q + e] == v[e - 1]);
    }
    if Gap(u) && q > 0 {
      var e :| 0 <= e < |u| && IsEscape(u[e]) && (e == 0 || IsEscape(u[e - 1]));
      assert e > q;
      assert v[e - q - 1] == u[e] && (e > q + 1 ==> v[e - q - 2] == u[e - 1]);
    }
  }

  /** A scope is empty exactly when the name has two separators next to each other after its
      first letter. */
  lemma {:induction false} InnerGapIff(u: string)
    ensures "" in ScopesOf(u) <==> InnerGap(u)
    decreases |u|
  {
    var q := EscapeAt(u, 0);
    if q == |u| {
      assert Front([u]) == [];
    } else if q == 0 {
      ScopesFirst(u, q, u[1..]);
      InnerGapIff(u[1..]);
      InnerAfterStart(u, u[1..]);
    } else {
      ScopesFirst(u, q, u[q + 1..]);
      GapIff(u[q + 1..]);
      InnerAfter(u, q, u[q + 1..]);
    }
  }

  /** A separator at the start gives no scope; otherwise the first scope ends at the first one. */
  lemma ScopesFirst(u: string, q: nat, v: string)
    requires q == EscapeAt(u, 0) < |u| && v == u[q + 1..]
    ensures ScopesOf(u) == if q == 0 then ScopesOf(v) else [u[..q]] + Front(Pieces(v))
    ensures q > 0 ==> u[..q] != ""
  {
    FrontCons(u[..q], Pieces(v));
    DropFirst(u[..q], Front(Pieces(v)));
  }

  lemma DropFirst(p: string, ps: seq<string>)
    ensures DropEmpty([p] + ps) == if p == "" then DropEmpty(ps) else [p] + ps
  {
    assert ([p] + ps)[1..] == ps;
  }

  lemma InnerAfterStart(u: string, v: string)
    requires |u| > 0 && IsEscape(u[0]) && v == u[1..]
    ensures InnerGap(u) <==> InnerGap(v)
  {
    if InnerGap(u) {
      var e: nat :| 1 <= e < |u| && GapAt(u, e);
      var k :| 0 <= k < e - 1 && !IsEscape(u[k]);
      assert v[k - 1] == u[k] && v[e - 1] == u[e] && v[e - 2] == u[e - 1];
      assert GapAt(v, e - 1);
    }
    if InnerGap(v) {
      var e: nat :| 1 <= e < |v| && GapAt(v, e);
      var k :| 0 <= k < e - 1 && !IsEscape(v[k]);
      assert u[k + 1] == v[k] && u[e + 1] == v[e] && u[e] == v[e - 1];
      assert GapAt(u, e + 1);
    }
  }

  lemma InnerAfter(u: string, q: nat, v: string)
    requires 0 < q == EscapeAt(u, 0) < |u| && v == u[q + 1..]
    ensures InnerGap(u) <==> Gap(v)
  {
    if InnerGap(u) {
      var e: nat :| 1 <= e < |u| && GapAt(u, e);
      assert e > q;
      assert v[e - q - 1] == u[e] && (e > q + 1 ==> v[e - q - 2] == u[e - 1]);
    }
    if Gap(v) {
      var e :| 0 <= e < |v| && IsEscape(v[e]) && (e == 0 || IsEscape(v[e - 1]));
      assert u[q + 1 + e] == v[e] && (e > 0 ==> u[q + e] == v[e - 1]) && !IsEscape(u[0]);
      assert GapAt(u, q + 1 + e);
    }
  }

  // ---------------------------------------------------------------- the header of declared names

  lemma {:induction false} NoneEmptyAt(names: seq<(string, string)>)
    ensures NoneEmpty(names) <==> forall i :: 0 <= i < |names| ==> "" !in Path(names[i].0) && names[i].1 != ""
    decreases |names|
  {
    if names != [] {
      NoneEmptyAt(names[1..]);
      assert forall i :: 1 <= i < |names| ==> names[1..][i - 1] == names[i];
    }
  }

  lemma {:induction false} ToppedAt(names: seq<(string, string)>, i: nat)
    requires i < |names|
    ensures Topped(names)[i] == (Top(names[i].0), names[i].1)
    decreases i
  {
    if i > 0 { ToppedAt(names[1..], i - 1); }
  }

  /** The declared names behind the keys of the map. */
  ghost predicate Behind(names: seq<(string, string)>, declared: seq<(string, int)>) {
    |names| == |declared| &&
    forall i :: 0 <= i < |names| ==> Printable(declared[i].0) && names[i] == EntryOf(declared[i].0, declared[i].1)
  }

  /** The entry of the map: the key, and the reference of the declaration. */
  function EntryOf(name: string, arraynum: int): (string, string) {
    (KeyOf(name, arraynum), BaseOf(name) + Index(arraynum))
  }

  /** No two separators next to each other after the first letter, and none at the end. An index
      stands in for the name before it. */
  ghost predicate Readable(name: string, arraynum: int) {
    !InnerGap(name) && (arraynum < 0 ==> name != "" && !IsEscape(name[|name| - 1]))
  }

  lemma {:induction false} BaseEmptyIff(u: string)
    ensures BaseOf(u) == "" <==> u == "" || IsEscape(u[|u| - 1])
    decreases |u|
  {
    var q := EscapeAt(u, 0);
    if q < |u| {
      var v := u[q + 1..];
      BaseEmptyIff(v);
      assert v != "" ==> v[|v| - 1] == u[|u| - 1];
    }
  }

  lemma MappedName(names: seq<(string, string)>, declared: seq<(string, int)>, i: nat)
    requires Behind(names, declared) && i < |names|
    ensures var e := NameMap(names)[i];
            ("" !in Path(e.0) && e.1 != "") <==> Readable(declared[i].0, declared[i].1)
  {
    var name, arraynum, k := declared[i].0, declared[i].1, names[i].0;
    KeyGaps(name, arraynum, k);
    MappedPath(names, i, k);
    ReferenceEmpty(name, arraynum, names[i].1);
  }

  lemma KeyGaps(name: string, arraynum: int, k: string)
    requires Printable(name) && k == KeyOf(name, arraynum)
    ensures IsKey(k) || IsBareKey(k)
    ensures !IsBareKey(k) && "" in Path(k) <==> InnerGap(name)
  {
    KeyScopes(name, arraynum);
    InnerGapIff(name);
    assert IsKey(k) ==> k[0] >= ' ';
  }

  lemma ReferenceEmpty(name: string, arraynum: int, decl: string)
    requires decl == BaseOf(name) + Index(arraynum)
    ensures decl != "" <==> (arraynum < 0 ==> name != "" && !IsEscape(name[|name| - 1]))
  {
    BaseEmptyIff(name);
  }

  /** The path in the map is that of the key, under "top" when some key has no scope. */
  lemma MappedPath(names: seq<(string, string)>, i: nat, k: string)
    requires i < |names| && k == names[i].0 && (IsKey(k) || IsBareKey(k))
    ensures NameMap(names)[i].1 == names[i].1
    ensures Path(NameMap(names)[i].0) ==
            if !NullScope(names) then Path(k) else if IsBareKey(k) then ["top"] else ["top"] + Path(k)
    ensures "" in Path(NameMap(names)[i].0) <==> !IsBareKey(k) && "" in Path(k)
  {
    if NullScope(names) {
      ToppedAt(names, i);
      TopKey(k);
    } else {
      assert !IsBare(names[i].0);
    }
  }

  /** Some key has no scope exactly when some declared name has none. */
  lemma ScopelessIff(names: seq<(string, string)>, declared: seq<(string, int)>)
    requires Behind(names, declared)
    ensures NullScope(names) <==> exists j :: 0 <= j < |declared| && ScopesOf(declared[j].0) == []
  {
    forall j | 0 <= j < |names| ensures IsBare(names[j].0) <==> ScopesOf(declared[j].0) == [] {
      ScopelessKey(declared[j].0, declared[j].1, names[j].0);
    }
  }

  lemma ScopelessKey(name: string, arraynum: int, k: string)
    requires Printable(name) && k == KeyOf(name, arraynum)
    ensures IsBare(k) <==> ScopesOf(name) == []
  {
    KeyScopes(name, arraynum);
    assert IsKey(k) ==> k[0] >= ' ';
  }

  /** A signal stands in the map under the scopes of its name and under its own reference, and
      below "top" when the name of some signal has no scopes. */
  lemma DeclaredUnder(names: seq<(string, string)>, declared: seq<(string, int)>, i: nat)
    requires Behind(names, declared) && i < |names|
    ensures var scopes, e := ScopesOf(declared[i].0), NameMap(names)[i];
            Path(e.0) == (if exists j :: 0 <= j < |declared| && ScopesOf(declared[j].0) == [] then ["top"] else [])
                         + scopes &&
            e.1 == BaseOf(declared[i].0) + Index(declared[i].1)
  {
    var name, arraynum, k := declared[i].0, declared[i].1, names[i].0;
    KeyScopes(name, arraynum);
    ScopelessIff(names, declared);
    ScopelessKey(name, arraynum, k);
    MappedPath(names, i, k);
    assert [] + ScopesOf(name) == ScopesOf(name);
  }

  /** The header of declared names is read back exactly when all the names are readable. */
  lemma DeclaredReads(names: seq<(string, string)>, declared: seq<(string, int)>)
    requires Declared(names, "") && Behind(names, declared)
    ensures var m := NameMap(names);
            Read(Header(m), []) == Reading(Expected(m), []) <==>
            forall i :: 0 <= i < |declared| ==> Readable(declared[i].0, declared[i].1)
  {
    var m := NameMap(names);
    NameMapSorted(names);
    HeaderReads(m);
    NoneEmptyAt(m);
    forall i: nat | i < |names|
      ensures ("" !in Path(m[i].0) && m[i].1 != "") <==> Readable(declared[i].0, declared[i].1)
    {
      MappedName(names, declared, i);
    }
  }
}
