/** The code that writes the header, and the name map that it writes. */
module VcdDump {
  import opened Text
  import opened VcdHeader
  import opened VcdScopes

  // ---------------------------------------------------------------- the name map

  /** A key without scopes starts with the tab. */
  predicate IsBare(k: string) { |k| >= 1 && k[0] == '\t' }

  ghost predicate IsBareKey(k: string) {
    IsBare(k) && forall i :: 1 <= i < |k| ==> k[i] > ' '
  }

  /** "top" in front, as `makeNameMap` puts it on every key when one of them is bare. */
  function Top(k: string): string {
    "top" + (if IsBare(k) then "" else " ") + k
  }

  predicate NullScope(names: seq<(string, string)>) {
    exists i :: 0 <= i < |names| && IsBare(names[i].0)
  }

  function Topped(names: seq<(string, string)>): (r: seq<(string, string)>)
    ensures |r| == |names|
  {
    if names == [] then [] else [(Top(names[0].0), names[0].1)] + Topped(names[1..])
  }

  function NameMap(names: seq<(string, string)>): seq<(string, string)> {
    if NullScope(names) then Topped(names) else names
  }

  /** Keys in the order of the map, some of which may be bare. */
  ghost predicate Declared(names: seq<(string, string)>, last: string) {
    names != [] ==> (IsKey(names[0].0) || IsBareKey(names[0].0)) && (last == "" || Less(last, names[0].0)) &&
                    Declared(names[1..], names[0].0)
  }

  /** The position of the tab moves by the prefix. */
  lemma TopKey(k: string)
    requires IsKey(k) || IsBareKey(k)
    ensures IsKey(Top(k)) && Top(k) != ""
    ensures Path(Top(k)) == if IsBareKey(k) then ["top"] else ["top"] + Path(k)
  {
    SplitFirst("top", 3);
    if IsBareKey(k) { TopBare(k); } else { TopScoped(k, TabAt(k, 0)); }
  }

  lemma TopBare(k: string)
    requires IsBareKey(k)
    ensures IsKey(Top(k)) && TabAt(Top(k), 0) == 3 && Top(k)[..3] == "top"
  {
    KeyTab(Top(k), 3);
  }

  lemma TopScoped(k: string, t: nat)
    requires IsKey(k) && t == TabAt(k, 0)
    ensures IsKey(Top(k)) && Path(Top(k)) == ["top"] + Path(k)
  {
    var n := Top(k);
    TopText(k);
    TopTab(n, k, t);
    SplitFirst("top", 3);
    SplitAt(n, t + 4, 3);
    assert n[..3] == "top" && n[4..t + 4] == k[..t];
  }

  lemma TopTab(n: string, k: string, t: nat)
    requires IsKey(k) && t == TabAt(k, 0) && n == "top " + k
    ensures IsKey(n) && TabAt(n, 0) == t + 4
  {
    forall i | 4 <= i < |n| ensures n[i] == k[i - 4] { }
    KeyTab(n, t + 4);
  }

  lemma TopLess(a: string, b: string)
    requires (IsKey(a) || IsBareKey(a)) && (IsKey(b) || IsBareKey(b)) && Less(a, b)
    ensures Less(Top(a), Top(b))
  {
    TopText(a);
    TopText(b);
    if IsBare(a) == IsBare(b) {
      PrefixLess(if IsBare(a) then "top" else "top ", a, b);
    } else {
      LessMismatch(a, b);
      BareFirst(Top(a), Top(b));
    }
  }

  lemma TopText(k: string)
    ensures Top(k) == (if IsBare(k) then "top" else "top ") + k
  {
    assert "top" + " " == "top ";
  }

  lemma BareFirst(s: string, t: string)
    requires |s| > 3 && |t| > 3 && s[..3] == t[..3] && s[3] < t[3]
    ensures Less(s, t)
  {
    assert MismatchAt(s, t, 3);
  }

  lemma PrefixLess(p: string, a: string, b: string)
    requires Less(a, b)
    ensures Less(p + a, p + b)
  {
    LessMismatch(a, b);
    var m := CommonEnd(a, b, 0);
    assert (p + a)[..|p| + m] == p + a[..m] && (p + b)[..|p| + m] == p + b[..m];
    assert MismatchAt(p + a, p + b, |p| + m);
  }

  /** After `makeNameMap` every key has a scope, and the keys are still in order. */
  lemma {:induction false} ToppedSorted(names: seq<(string, string)>, last: string)
    requires Declared(names, last) && (last == "" || IsKey(last) || IsBareKey(last))
    ensures Sorted(Topped(names), if last == "" then "" else Top(last))
    decreases |names|
  {
    if names != [] {
      TopKey(names[0].0);
      if last != "" { TopLess(last, names[0].0); }
      ToppedSorted(names[1..], names[0].0);
      assert Topped(names)[1..] == Topped(names[1..]);
    }
  }

  lemma {:induction false} UntoppedSorted(names: seq<(string, string)>, last: string)
    requires Declared(names, last) && !NullScope(names)
    ensures Sorted(names, last)
    decreases |names|
  {
    if names != [] {
      assert !IsBare(names[0].0);
      forall i | 0 <= i < |names[1..]| ensures !IsBare(names[1..][i].0) { assert !IsBare(names[i + 1].0); }
      UntoppedSorted(names[1..], names[0].0);
    }
  }

  lemma NameMapSorted(names: seq<(string, string)>)
    requires Declared(names, "")
    ensures Sorted(NameMap(names), "")
  {
    if NullScope(names) { ToppedSorted(names, ""); } else { UntoppedSorted(names, ""); }
  }

  // ---------------------------------------------------------------- writing it

  lemma OneMoreUp(ts: seq<Token>, n: nat, was: seq<Token>, now: seq<Token>)
    requires was == ts + Ups(n) && now == was + [Upscope]
    ensures now == ts + Ups(n + 1) && Net(now) == Net(ts) - (n + 1)
  {
    UpsAppend(n);
    NetUps(ts, n + 1);
  }

  /** The part of `VerilatedVcd` that writes the header. */
  class HeaderWriter {
    var modDepth: int
    var lines: seq<Token>
    /** Whether every C assertion on the depth has held. */
    var asserted: bool

    constructor ()
      ensures modDepth == 0 && lines == [] && asserted
    {
      modDepth, lines, asserted := 0, [], true;
    }

    /** The depth counts from 1, and the assertions are those of DepthHolds. */
    ghost predicate Tracks()
      reads this
    {
      modDepth == 1 + Net(lines) && asserted == DepthHolds(lines)
    }

    /** `printIndent` and the line after it. */
    method PrintLine(levelChange: int, t: Token)
      requires Tracks() && levelChange == match t case Scope(_) => 1 case Upscope => -1 case Var(_) => 0
      modifies this
      ensures Tracks() && lines == old(lines) + [t]
    {
      NetStep(lines, t);
      assert DepthHolds(lines) ==> 1 + Net(lines) >= 0;
      if levelChange < 0 { modDepth := modDepth + levelChange; }
      asserted := asserted && modDepth >= 0;
      if levelChange > 0 { modDepth := modDepth + levelChange; }
      lines := lines + [t];
    }

    /** The two walks that find where the names part; lp and np move together. */
    static method FindJoint(last: string, name: string) returns (p: nat)
      requires NoNul(last) && NoNul(name)
      ensures p == Joint(last, name)
    {
      var np: nat := 0;
      while CharAt(name, np) != '\0' && CharAt(name, np) == CharAt(last, np)
        invariant np <= |name| && np <= |last| && CommonEnd(last, name, np) == CommonEnd(last, name, 0)
        decreases |name| - np
      {
        np := np + 1;
      }
      while np != 0 && CharAt(name, np) != '\0' && !IsSep(CharAt(name, np))
        invariant np <= |name| && BackUp(name, np) == Joint(last, name)
        decreases np
      {
        np := np - 1;
      }
      p := np;
    }

    /** Every space left in the last name is a scope to leave, and so is its start. */
    method LeaveScopes(last: string, p: nat)
      requires Tracks() && NoNul(last) && p <= |last|
      modifies this
      ensures Tracks() && lines == old(lines) + Ups(UpCount(last, p, true))
    {
      var lp := p;
      var first := true;
      ghost var n: nat := 0;
      assert lines == lines + Ups(0);
      while CharAt(last, lp) != '\0'
        invariant p <= lp <= |last| && Tracks() && lines == old(lines) + Ups(n)
        invariant n + UpCount(last, lp, first) == UpCount(last, p, true)
        decreases |last| - lp
      {
        if CharAt(last, lp) == ' ' || (first && CharAt(last, lp) != '\t') {
          LeaveOne(old(lines), n);
          n := n + 1;
        }
        first := false;
        lp := lp + 1;
      }
    }

    /** A scope name, with its brackets replaced. */
    static method ScopeName(name: string, j: nat) returns (q: nat, text: string)
      requires NoNul(name) && j <= |name|
      ensures q == ScopeEnd(name, j) && text == Render(name[j..q])
    {
      q, text := j, "";
      while CharAt(name, q) != '\0' && !IsSep(CharAt(name, q))
        invariant j <= q <= |name| && ScopeEnd(name, q) == ScopeEnd(name, j) && text == Render(name[j..q])
        decreases |name| - q
      {
        RenderAppend(name[j..q], name[q]);
        assert name[j..q + 1] == name[j..q] + [name[q]];
        if name[q] == '[' { text := text + "("; }
        else if name[q] == ']' { text := text + ")"; }
        else { text := text + [name[q]]; }
        q := q + 1;
      }
    }

    /** The scan for a key without scopes, and the map that replaces the old one. */
    static method MakeNameMap(names: seq<(string, string)>) returns (r: seq<(string, string)>)
      ensures r == NameMap(names)
    {
      var nullScope := false;
      for i := 0 to |names|
        invariant nullScope == exists k :: 0 <= k < i && IsBare(names[k].0)
      {
        if |names[i].0| >= 1 && names[i].0[0] == '\t' { nullScope := true; }
      }
      if !nullScope { return names; }
      r := [];
      assert [] + Topped(names) == Topped(names);
      for i := 0 to |names|
        invariant |r| == i && r + Topped(names[i..]) == Topped(names)
      {
        var newname := "top";
        if CharAt(names[i].0, 0) != '\t' { newname := newname + " "; }
        newname := newname + names[i].0;
        assert "top" + "" == "top" && newname == Top(names[i].0);
        ToppedMore(names, i, r);
        r := r + [(newname, names[i].1)];
      }
      assert r + [] == r;
    }

    /** `dumpHeader`. */
    method DumpHeader(names: seq<(string, string)>)
      requires modDepth == 0 && lines == [] && asserted && forall i :: 0 <= i < |names| ==> NoNul(names[i].0)
      modifies this
      ensures lines == Header(NameMap(names))
      ensures asserted == (DepthHolds(Header(NameMap(names))) && Net(Header(NameMap(names))) == 0)
    {
      var namemap := MakeNameMap(names);
      NameMapNoNul(names);
      modDepth := modDepth + 1;
      var lastName := "";
      for i := 0 to |namemap|
        invariant Tracks() && NoNul(lastName) && lines + Body(namemap[i..], lastName) == Body(namemap, "")
      {
        var name, decl := namemap[i].0, namemap[i].1;
        ghost var was := lines;
        var p := FindJoint(lastName, name);
        LeaveScopes(lastName, p);
        EnterScopes(name, p);
        PrintLine(0, Var(decl));
        BodyMore(namemap, i, lastName, was, lines);
        lastName := name;
      }
      assert lines + [] == lines;
      CloseScopes(Body(namemap, ""));
      modDepth := modDepth - 1;
      asserted := asserted && modDepth >= 0;
      asserted := asserted && modDepth == 0;
    }

    method LeaveOne(ghost body: seq<Token>, ghost n: nat)
      requires Tracks() && lines == body + Ups(n)
      modifies this
      ensures Tracks() && lines == body + Ups(n + 1) && modDepth == 1 + Net(body) - (n + 1)
    {
      ghost var was := lines;
      PrintLine(-1, Upscope);
      OneMoreUp(body, n, was, lines);
    }

    /** The last loop. */
    method CloseScopes(ghost body: seq<Token>)
      requires Tracks() && lines == body
      modifies this
      ensures Tracks() && lines == body + Ups(if Net(body) > 0 then Net(body) else 0)
    {
      ghost var n: nat := 0;
      assert body + Ups(0) == body;
      while modDepth > 1
        invariant Tracks() && lines == body + Ups(n) && modDepth == 1 + Net(body) - n && (n > 0 ==> modDepth >= 1)
        decreases modDepth
      {
        LeaveOne(body, n);
        n := n + 1;
      }
    }

    method EnterScopes(name: string, p: nat)
      requires Tracks() && NoNul(name) && p <= |name|
      modifies this
      ensures Tracks() && lines == old(lines) + Scopes(Downs(name, p))
    {
      var np := p;
      ghost var names: seq<string> := [];
      assert lines == lines + Scopes([]) && [] + Downs(name, p) == Downs(name, p);
      while CharAt(name, np) != '\0'
        invariant p <= np <= |name| && Tracks() && lines == old(lines) + Scopes(names)
        invariant names + Downs(name, np) == Downs(name, p)
        decreases |name| - np
      {
        ghost var was := np;
        if CharAt(name, np) == ' ' { np := np + 1; }
        if CharAt(name, np) == '\t' {
          assert Downs(name, was) == [] && names + [] == names;
          break;
        }
        var q, text := ScopeName(name, np);
        PrintLine(1, Scope(text));
        ScopesAppend(names, name[np..q]);
        assert old(lines) + Scopes(names) + [Scope(text)] == old(lines) + Scopes(names + [name[np..q]]);
        DownsMore(name, was, np, q, names);
        names := names + [name[np..q]];
        np := q;
      }
      assert names + [] == names;
    }
  }

  predicate NoNul(s: string) {
    forall k :: 0 <= k < |s| ==> s[k] != '\0'
  }

  lemma {:induction false} RenderAppend(s: string, c: char)
    ensures Render(s + [c]) == Render(s) + [RenderChar(c)]
    decreases |s|
  {
    if s == "" {
      assert "" + [c] == [c];
    } else {
      assert (s + [c])[0] == s[0] && (s + [c])[1..] == s[1..] + [c];
      RenderAppend(s[1..], c);
    }
  }

  lemma DownsMore(name: string, was: nat, np: nat, q: nat, names: seq<string>)
    requires was < |name| && np <= |name| && np == (if name[was] == ' ' then was + 1 else was)
    requires !(np < |name| && name[np] == '\t') && q == ScopeEnd(name, np)
    ensures names + Downs(name, was) == (names + [name[np..q]]) + Downs(name, q) && q > was
  {
    assert Downs(name, was) == [name[np..q]] + Downs(name, q);
  }

  lemma ToppedMore(names: seq<(string, string)>, i: nat, r: seq<(string, string)>)
    requires i < |names| && r + Topped(names[i..]) == Topped(names)
    ensures (r + [(Top(names[i].0), names[i].1)]) + Topped(names[i + 1..]) == Topped(names)
  {
    var v := names[i..];
    assert v[1..] == names[i + 1..];
    assert Topped(v) == [(Top(names[i].0), names[i].1)] + Topped(v[1..]);
    Assoc(r, [(Top(names[i].0), names[i].1)], Topped(v[1..]));
  }

  lemma {:induction false} ToppedNoNul(names: seq<(string, string)>)
    requires forall i :: 0 <= i < |names| ==> NoNul(names[i].0)
    ensures forall i :: 0 <= i < |names| ==> NoNul(Topped(names)[i].0)
    decreases |names|
  {
    if names != [] {
      forall i | 0 <= i < |names[1..]| ensures NoNul(names[1..][i].0) { assert NoNul(names[i + 1].0); }
      ToppedNoNul(names[1..]);
      assert Topped(names)[0].0 == Top(names[0].0) && NoNul(names[0].0);
      forall i | 1 <= i < |names| ensures NoNul(Topped(names)[i].0) {
        assert Topped(names)[i] == Topped(names[1..])[i - 1];
      }
    }
  }

  lemma NameMapNoNul(names: seq<(string, string)>)
    requires forall i :: 0 <= i < |names| ==> NoNul(names[i].0)
    ensures forall i :: 0 <= i < |NameMap(names)| ==> NoNul(NameMap(names)[i].0)
  {
    ToppedNoNul(names);
  }

  lemma BodyMore(names: seq<(string, string)>, i: nat, last: string, was: seq<Token>, lines: seq<Token>)
    requires i < |names| && was + Body(names[i..], last) == Body(names, "")
    requires lines == was + Ups(UpCount(last, Joint(last, names[i].0), true))
                    + Scopes(Downs(names[i].0, Joint(last, names[i].0)))
                      + [Var(names[i].1)]
    ensures lines + Body(names[i + 1..], names[i].0) == Body(names, "")
  {
    var v := names[i..];
    assert v[1..] == names[i + 1..];
    var p := Joint(last, names[i].0);
    var ups, downs, more := Ups(UpCount(last, p, true)), Scopes(Downs(names[i].0, p)), Body(v[1..], names[i].0);
    assert Body(v, last) == (ups + downs) + ([Var(names[i].1)] + more);
    Assoc(was, ups, downs);
    Regroup(was, ups + downs, [Var(names[i].1)], more);
  }

  lemma Regroup<T>(a: seq<T>, b: seq<T>, c: seq<T>, d: seq<T>)
    ensures a + b + c + d == a + (b + (c + d))
  {
  }
}
