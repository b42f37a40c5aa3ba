/** The header of a VCD file: `dumpHeader` turns a sorted map from hierarchical names to
    declarations into nested $scope / $upscope lines (IEEE 1364-2005 clause 18). A name is its
    scopes with a space between each two, a tab, and the signal's own name. */
module VcdHeader {
  import opened Text

  /** The lines that matter, without the indentation. Of a `$var` line only the reference is
      kept: the signal's own name, with its index. */
  datatype Token = Scope(name: string) | Upscope | Var(decl: string)

  // ---------------------------------------------------------------- names

  predicate IsSep(c: char) { c == ' ' || c == '\t' }

  /** Where the tab is. */
  function TabAt(s: string, i: nat): (t: nat)
    requires i <= |s|
    ensures i <= t <= |s| && (t < |s| ==> s[t] == '\t') && forall k :: i <= k < t ==> s[k] != '\t'
    decreases |s| - i
  {
    if i == |s| || s[i] == '\t' then i else TabAt(s, i + 1)
  }

  /** A key of the name map with at least one scope: one tab, no space after it, no control
      characters. */
  ghost predicate IsKey(s: string) {
    var t := TabAt(s, 0);
    0 < t < |s| && s[0] != ' ' &&
    (forall k :: 0 <= k < t ==> s[k] >= ' ') && (forall k :: t < k < |s| ==> s[k] > ' ')
  }

  /** The scopes in a text without its tab: the pieces between spaces. */
  function Split(u: string): (r: seq<string>)
    ensures |r| >= 1
  {
    var q := SpaceAt(u, 0);
    if q == |u| then [u] else [u[..q]] + Split(u[q + 1..])
  }

  function SpaceAt(s: string, i: nat): (q: nat)
    requires i <= |s|
    ensures i <= q <= |s| && (q < |s| ==> s[q] == ' ') && forall k :: i <= k < q ==> s[k] != ' '
    decreases |s| - i
  {
    if i == |s| || s[i] == ' ' then i else SpaceAt(s, i + 1)
  }

  function Path(s: string): seq<string> {
    Split(s[..TabAt(s, 0)])
  }

  /** Brackets are not allowed in scope names. */
  function RenderChar(c: char): char {
    if c == '[' then '(' else if c == ']' then ')' else c
  }

  function Render(s: string): (r: string)
    ensures |r| == |s|
  {
    if s == "" then "" else [RenderChar(s[0])] + Render(s[1..])
  }

  function RenderAll(p: seq<string>): (r: seq<string>)
    ensures |r| == |p|
  {
    if p == [] then [] else [Render(p[0])] + RenderAll(p[1..])
  }

  /** The order of the name map. */
  ghost predicate Less(a: string, b: string) {
    exists m: nat :: MismatchAt(a, b, m) && (if m < |a| then m < |b| && a[m] < b[m] else m < |b|)
  }

  ghost predicate MismatchAt(a: string, b: string, m: nat) {
    m <= |a| && m <= |b| && a[..m] == b[..m] && (m < |a| && m < |b| ==> a[m] != b[m])
  }

  // ---------------------------------------------------------------- the pointer walks

  /** The end of the common prefix. */
  function CommonEnd(last: string, name: string, i: nat): (m: nat)
    requires i <= |last| && i <= |name|
    ensures i <= m <= |last| && m <= |name|
    ensures forall k :: i <= k < m ==> last[k] == name[k]
    ensures m < |last| && m < |name| ==> last[m] != name[m]
    decreases |name| - i
  {
    if i < |name| && i < |last| && name[i] == last[i] then CommonEnd(last, name, i + 1) else i
  }

  /** Back to a space, a tab or the start. */
  function BackUp(name: string, i: nat): (p: nat)
    requires i <= |name|
    ensures p <= i
  {
    if i != 0 && i < |name| && !IsSep(name[i]) then BackUp(name, i - 1) else i
  }

  /** How many scopes of the last name are left. */
  function UpCount(last: string, i: nat, first: bool): nat
    requires i <= |last|
    decreases |last| - i
  {
    if i == |last| then 0
    else (if last[i] == ' ' || (first && last[i] != '\t') then 1 else 0) + UpCount(last, i + 1, false)
  }

  /** The end of the scope that starts at i. */
  function ScopeEnd(s: string, i: nat): (q: nat)
    requires i <= |s|
    ensures i <= q <= |s| && (forall k :: i <= k < q ==> !IsSep(s[k])) && (q < |s| ==> IsSep(s[q]))
    decreases |s| - i
  {
    if i == |s| || IsSep(s[i]) then i else ScopeEnd(s, i + 1)
  }

  /** The scopes that the last loop enters from i on. A space right before the tab enters none. */
  function Downs(s: string, i: nat): seq<string>
    requires i <= |s|
    decreases |s| - i
  {
    if i == |s| then []
    else
      var j := if s[i] == ' ' then i + 1 else i;
      if j < |s| && s[j] == '\t' then []
      else
        var q := ScopeEnd(s, j);
        [s[j..q]] + Downs(s, q)
  }

  // ---------------------------------------------------------------- splitting

  lemma SpaceUnique(u: string, i: nat, q: nat)
    requires i <= q <= |u| && (forall k :: i <= k < q ==> u[k] != ' ') && (q < |u| ==> u[q] == ' ')
    ensures SpaceAt(u, i) == q
  {
  }

  lemma SplitFirst(u: string, q: nat)
    requires q <= |u| && (forall k :: 0 <= k < q ==> u[k] != ' ') && (q < |u| ==> u[q] == ' ')
    ensures Split(u) == if q == |u| then [u] else [u[..q]] + Split(u[q + 1..])
  {
    SpaceUnique(u, 0, q);
    var p := SpaceAt(u, 0);
    assert p == q;
  }

  lemma Chain(x: seq<string>, d: seq<string>, e: seq<string>, w: seq<string>, v: seq<string>)
    requires d + e == w && v == x + w
    ensures (x + d) + e == v
  {
  }

  /** Splitting at any space splits the text. */
  lemma {:induction false} SplitJoin(x: string, y: string)
    ensures Split(x + " " + y) == Split(x) + Split(y)
    decreases |x|
  {
    var q := SpaceAt(x, 0);
    var u := x + " " + y;
    SplitFirst(x, q);
    if q == |x| {
      SplitWhole(x, y, u);
    } else {
      var x2 := x[q + 1..];
      SplitJoin(x2, y);
      SplitHead(x, y, u, q);
      Chain([x[..q]], Split(x2), Split(y), Split(x2 + " " + y), Split(u));
    }
  }

  lemma SplitWhole(x: string, y: string, u: string)
    requires u == x + " " + y && forall k :: 0 <= k < |x| ==> x[k] != ' '
    ensures Split(u) == [x] + Split(y)
  {
    SplitFirst(u, |x|);
    assert u[..|x|] == x && u[|x| + 1..] == y;
  }

  lemma SplitHead(x: string, y: string, u: string, q: nat)
    requires u == x + " " + y && q < |x| && x[q] == ' ' && forall k :: 0 <= k < q ==> x[k] != ' '
    ensures Split(u) == [x[..q]] + Split(x[q + 1..] + " " + y)
  {
    SplitFirst(u, q);
    assert u[..q] == x[..q] && u[q + 1..] == x[q + 1..] + " " + y;
  }

  lemma SplitAt(s: string, t: nat, p: nat)
    requires p < t <= |s| && s[p] == ' '
    ensures Split(s[..t]) == Split(s[..p]) + Split(s[p + 1..t])
  {
    SplitJoin(s[..p], s[p + 1..t]);
    assert s[..t] == s[..p] + " " + s[p + 1..t];
  }

  /** Different texts have different pieces. */
  lemma {:induction false} SplitInjective(u: string, v: string)
    requires Split(u) == Split(v)
    ensures u == v
    decreases |u|
  {
    var q, r := SpaceAt(u, 0), SpaceAt(v, 0);
    var s := Split(u);
    assert s[0] == u[..q] && s[0] == v[..r];
    if |s| > 1 {
      assert s[1..] == Split(u[q + 1..]) && s[1..] == Split(v[r + 1..]);
      SplitInjective(u[q + 1..], v[r + 1..]);
      assert u == u[..q] + [' '] + u[q + 1..] && v == v[..r] + [' '] + v[r + 1..];
    } else {
      assert u == u[..q] && v == v[..r];
    }
  }

  // ---------------------------------------------------------------- a key's tab

  ghost predicate TabIs(s: string, t: nat) {
    t < |s| && s[t] == '\t' && (forall k :: 0 <= k < t ==> s[k] >= ' ') && (forall k :: t < k < |s| ==> s[k] > ' ')
  }

  lemma KeyTab(s: string, t: nat)
    requires TabIs(s, t)
    ensures TabAt(s, 0) == t
  {
    TabFrom(s, 0, t);
  }

  lemma {:induction false} TabFrom(s: string, i: nat, t: nat)
    requires TabIs(s, t) && i <= t
    ensures TabAt(s, i) == t
    decreases t - i
  {
    if i < t { TabFrom(s, i + 1, t); }
  }

  /** The spaces of the scopes from i on. */
  lemma {:induction false} SpacesAreScopes(s: string, t: nat, i: nat)
    requires TabIs(s, t) && i <= t
    ensures UpCount(s, i, false) + 1 == |Split(s[i..t])|
    decreases t - i
  {
    if i == t {
      NoSpaces(s, t, t);
      SplitFirst(s[i..t], 0);
    } else {
      var q := SpaceAt(s[i..t], 0);
      SpacesAreScopes(s, t, i + 1);
      if s[i] == ' ' {
        SplitFirst(s[i..t], 0);
        assert s[i..t][1..] == s[i + 1..t];
      } else {
        PieceLonger(s, i, t);
      }
    }
  }

  lemma PieceLonger(s: string, i: nat, t: nat)
    requires i < t <= |s| && s[i] != ' '
    ensures |Split(s[i..t])| == |Split(s[i + 1..t])|
  {
    var q := SpaceAt(s[i + 1..t], 0);
    SplitFirst(s[i..t], q + 1);
    SplitFirst(s[i + 1..t], q);
    if q < t - i - 1 { assert s[i..t][q + 2..] == s[i + 1..t][q + 1..]; }
  }

  lemma {:induction false} NoSpaces(s: string, t: nat, i: nat)
    requires TabIs(s, t) && t <= i <= |s|
    ensures UpCount(s, i, false) == 0
    decreases |s| - i
  {
    if i < |s| { NoSpaces(s, t, i + 1); }
  }

  // ---------------------------------------------------------------- entering scopes

  /** The last scope is empty, as in "a..b". */
  ghost predicate EmptyEnd(s: string, t: nat)
    requires t <= |s|
  {
    t > 0 && s[t - 1] == ' '
  }

  ghost function EmptyLast(s: string, t: nat): seq<string>
    requires t <= |s|
  {
    if EmptyEnd(s, t) then [""] else []
  }

  lemma SliceParts(s: string, j: nat, t: nat, n: nat)
    requires j + n <= t <= |s|
    ensures s[j..t][..n] == s[j..j + n] && s[j..t][n..] == s[j + n..t]
  {
  }

  lemma PieceAt(s: string, t: nat, j: nat) returns (rest: seq<string>)
    requires TabIs(s, t) && j < t
    ensures j <= ScopeEnd(s, j) <= t && Split(s[j..t]) == [s[j..ScopeEnd(s, j)]] + rest
    ensures rest == if ScopeEnd(s, j) < t then Split(s[ScopeEnd(s, j) + 1..t]) else []
  {
    var q := ScopeEnd(s, j);
    assert q <= t;
    var u := s[j..t];
    SliceParts(s, j, t, q - j);
    if q < t { SliceParts(s, j, t, q - j + 1); }
    SplitFirst(u, q - j);
    rest := if q < t then Split(s[q + 1..t]) else [];
  }

  lemma EmptyPiece(s: string, t: nat)
    requires TabIs(s, t)
    ensures Split(s[t..t]) == [""]
  {
    SplitFirst("", 0);
    assert s[t..t] == "";
  }

  lemma DownsUnfold(s: string, t: nat, j: nat, i: nat)
    requires TabIs(s, t) && j < t && (if i == j then s[i] != ' ' else i + 1 == j && s[i] == ' ')
    ensures Downs(s, i) == [s[j..ScopeEnd(s, j)]] + Downs(s, ScopeEnd(s, j))
  {
  }

  lemma AtTab(s: string, t: nat, j: nat)
    requires TabIs(s, t) && j < t && ScopeEnd(s, j) == t
    ensures Downs(s, t) == [] && EmptyLast(s, t) == []
  {
  }

  /** A space right before the tab: the empty last scope is not entered. */
  lemma NothingDown(s: string, t: nat, p: nat)
    requires TabIs(s, t) && p + 1 == t && s[p] == ' '
    ensures Downs(s, p) + EmptyLast(s, t) == Split(s[p + 1..t])
  {
    EmptyPiece(s, t);
    assert Downs(s, p) == [] && EmptyLast(s, t) == [""];
  }

  /** At a space the scopes after it are entered, all but an empty last one. */
  lemma {:induction false} DownsAtSpace(s: string, t: nat, p: nat)
    requires TabIs(s, t) && p < t && s[p] == ' '
    ensures Downs(s, p) + EmptyLast(s, t) == Split(s[p + 1..t])
    decreases t - p, 0
  {
    if p + 1 == t {
      NothingDown(s, t, p);
    } else {
      var j := p + 1;
      var q := ScopeEnd(s, j);
      DownsUnfold(s, t, j, p);
      DownsFromStart(s, t, j, q);
    }
  }

  /** The first scope from j on, and the rest. */
  lemma {:induction false} DownsFromStart(s: string, t: nat, j: nat, q: nat)
    requires TabIs(s, t) && j < t && q == ScopeEnd(s, j)
    ensures ([s[j..q]] + Downs(s, q)) + EmptyLast(s, t) == Split(s[j..t])
    decreases t - j, 1
  {
    var rest := PieceAt(s, t, j);
    if q < t {
      DownsAtSpace(s, t, q);
    } else {
      AtTab(s, t, j);
    }
    Chain([s[j..q]], Downs(s, q), EmptyLast(s, t), rest, Split(s[j..t]));
  }
}
