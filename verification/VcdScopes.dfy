/** What a reader of the VCD header recovers: every signal under its own scopes. */
module VcdScopes {
  import opened Text
  import opened VcdHeader

  // ---------------------------------------------------------------- one name after another

  /** Where the pointers stop on the way from the last name to the next. */
  function Joint(last: string, name: string): (p: nat)
    ensures p <= |last| && p <= |name|
  {
    BackUp(name, CommonEnd(last, name, 0))
  }

  /** The scopes on the way to position p. */
  ghost function Before(s: string, p: nat): seq<string>
    requires p <= |s|
  {
    if p == 0 then [] else Split(s[..p])
  }

  lemma {:induction false} BackUpIs(name: string, i: nat, t: nat)
    requires TabIs(name, t) && i <= |name|
    ensures var p := BackUp(name, i);
            (p == 0 || p == |name| || IsSep(name[p])) && (forall k :: p < k <= i && k < |name| ==> !IsSep(name[k]))
  {
    if i != 0 && i < |name| && !IsSep(name[i]) { BackUpIs(name, i - 1, t); }
  }

  lemma LessMismatch(a: string, b: string)
    requires Less(a, b)
    ensures var m := CommonEnd(a, b, 0);
            a[..m] == b[..m] && if m < |a| then m < |b| && a[m] < b[m] else m < |b|
  {
    var m: nat :| MismatchAt(a, b, m) && (if m < |a| then m < |b| && a[m] < b[m] else m < |b|);
    var c := CommonEnd(a, b, 0);
    forall k | 0 <= k < m ensures a[k] == b[k] { assert a[..m][k] == b[..m][k]; }
    assert m == c;
  }

  /** In sorted order the joint is at a separator of both names, or at the start. */
  lemma JointIs(last: string, name: string, tl: nat, tn: nat)
    requires TabIs(last, tl) && TabIs(name, tn) && Less(last, name) && 0 < tl && 0 < tn
    ensures var p := Joint(last, name);
            last[..p] == name[..p] && p <= tl && p <= tn && p <= CommonEnd(last, name, 0) &&
            (p == 0 || (p == tl && p == tn) || (p < tn && name[p] == ' ' && (p == tl || (p < tl && last[p] == ' '))))
  {
    var m := CommonEnd(last, name, 0);
    var p := Joint(last, name);
    LessMismatch(last, name);
    BackUpIs(name, m, tn);
    assert last[..p] == last[..m][..p] && name[..p] == name[..m][..p];
  }

  /** The lines for one name. */
  function StepTokens(last: string, name: string): seq<Token> {
    var p := Joint(last, name);
    Ups(UpCount(last, p, true)) + Scopes(Downs(name, p))
  }

  function Ups(n: nat): (r: seq<Token>)
    ensures |r| == n
  {
    if n == 0 then [] else [Upscope] + Ups(n - 1)
  }

  function Scopes(names: seq<string>): (r: seq<Token>)
    ensures |r| == |names|
  {
    if names == [] then [] else [Scope(Render(names[0]))] + Scopes(names[1..])
  }

  /** After the step the scopes are those of the name, but for an empty last one. */
  lemma StepScopes(last: string, name: string, tl: nat, tn: nat)
    requires TabIs(last, tl) && TabIs(name, tn) && Less(last, name) && 0 < tl && 0 < tn
    requires last[0] != ' ' && name[0] != ' ' && !EmptyEnd(last, tl)
    ensures var p := Joint(last, name);
            UpCount(last, p, true) + |Before(last, p)| == |Split(last[..tl])| &&
            Before(last, p) == Before(name, p) && Before(last, p) <= Split(last[..tl]) &&
            Before(name, p) + Downs(name, p) + EmptyLast(name, tn) == Split(name[..tn])
  {
    var p := Joint(last, name);
    JointIs(last, name, tl, tn);
    StepUps(last, tl, p);
    if p == tn {
      assert last[..tl] == name[..tn];
      SameEnd(last, name, tn);
      assert Downs(name, tn) == [];
    } else {
      StepDowns(name, tn, p);
    }
  }

  lemma SameEnd(last: string, name: string, t: nat)
    requires t <= |last| && t <= |name| && last[..t] == name[..t] && !EmptyEnd(last, t)
    ensures !EmptyEnd(name, t)
  {
    if t > 0 { assert last[..t][t - 1] == name[..t][t - 1]; }
  }

  /** The levels to leave from p on. */
  lemma StepUps(s: string, t: nat, p: nat)
    requires TabIs(s, t) && 0 < t && s[0] != ' ' && p <= t && (p == 0 || p == t || s[p] == ' ')
    ensures UpCount(s, p, true) + |Before(s, p)| == |Split(s[..t])| && Before(s, p) <= Split(s[..t])
  {
    if p == 0 {
      SpacesAreScopes(s, t, 0);
      assert s[0..t] == s[..t];
    } else if p == t {
      NoSpaces(s, t, t + 1);
    } else {
      StepUpsWithin(s, t, p);
    }
  }

  lemma StepUpsWithin(s: string, t: nat, p: nat)
    requires TabIs(s, t) && 0 < p < t && s[0] != ' ' && s[p] == ' '
    ensures UpCount(s, p, true) + |Before(s, p)| == |Split(s[..t])| && Before(s, p) <= Split(s[..t])
  {
    SpacesAreScopes(s, t, p + 1);
    SplitAt(s, t, p);
  }

  lemma StepDownsStart(s: string, t: nat)
    requires TabIs(s, t) && 0 < t && s[0] != ' '
    ensures Before(s, 0) + Downs(s, 0) + EmptyLast(s, t) == Split(s[..t])
  {
    DownsUnfold(s, t, 0, 0);
    DownsFromStart(s, t, 0, ScopeEnd(s, 0));
    assert s[0..t] == s[..t];
  }

  lemma StepDowns(s: string, t: nat, p: nat)
    requires TabIs(s, t) && 0 < t && s[0] != ' ' && p < t && (p == 0 || s[p] == ' ')
    ensures Before(s, p) + Downs(s, p) + EmptyLast(s, t) == Split(s[..t])
  {
    if p == 0 {
      StepDownsStart(s, t);
    } else {
      DownsAtSpace(s, t, p);
      SplitAt(s, t, p);
      Chain(Before(s, p), Downs(s, p), EmptyLast(s, t), Split(s[p + 1..t]), Split(s[..t]));
    }
  }

  // ---------------------------------------------------------------- the reader

  /** What has been read: the declarations with the scopes open at each, and the open scopes. A
      `$scope` or `$var` line without a name cannot be read: the word in its place is `$end`. */
  datatype Reading = Malformed | Reading(vars: seq<(seq<string>, string)>, stack: seq<string>)

  function Read(ts: seq<Token>, stack: seq<string>): Reading {
    if ts == [] then Reading([], stack)
    else
      match ts[0]
      case Scope(name) => if name == "" then Malformed else Read(ts[1..], stack + [name])
      case Upscope => if stack == [] then Malformed else Read(ts[1..], stack[..|stack| - 1])
      case Var(decl) => if decl == "" then Malformed else Prepend((stack, decl), Read(ts[1..], stack))
  }

  function Prepend(v: (seq<string>, string), r: Reading): Reading {
    if r.Malformed? then Malformed else Reading([v] + r.vars, r.stack)
  }

  function Then(r: Reading, ts: seq<Token>): Reading {
    if r.Malformed? then Malformed
    else
      var r2 := Read(ts, r.stack);
      if r2.Malformed? then Malformed else Reading(r.vars + r2.vars, r2.stack)
  }

  lemma {:induction false} ReadConcat(a: seq<Token>, b: seq<Token>, stack: seq<string>)
    ensures Read(a + b, stack) == Then(Read(a, stack), b)
    decreases |a|
  {
    if a == [] {
      assert a + b == b;
    } else {
      assert (a + b)[0] == a[0] && (a + b)[1..] == a[1..] + b;
      match a[0]
      case Scope(name) => if name != "" { ReadConcat(a[1..], b, stack + [name]); }
      case Upscope => if stack != [] { ReadConcat(a[1..], b, stack[..|stack| - 1]); }
      case Var(decl) =>
        if decl != "" {
          ReadConcat(a[1..], b, stack);
          PrependThen((stack, decl), Read(a[1..], stack), b);
        }
    }
  }

  lemma PrependThen(v: (seq<string>, string), r: Reading, b: seq<Token>)
    ensures Prepend(v, Then(r, b)) == Then(Prepend(v, r), b)
  {
    if r.Reading? && Read(b, r.stack).Reading? {
      assert [v] + (r.vars + Read(b, r.stack).vars) == ([v] + r.vars) + Read(b, r.stack).vars;
    }
  }

  lemma {:induction false} ReadUps(n: nat, stack: seq<string>)
    ensures Read(Ups(n), stack) == if n <= |stack| then Reading([], stack[..|stack| - n]) else Malformed
    decreases n
  {
    if n > 0 && stack != [] {
      assert Ups(n)[1..] == Ups(n - 1);
      ReadUps(n - 1, stack[..|stack| - 1]);
    }
  }

  lemma {:induction false} ReadScopes(names: seq<string>, stack: seq<string>)
    ensures Read(Scopes(names), stack) == if "" in names then Malformed else Reading([], stack + RenderAll(names))
    decreases |names|
  {
    if names != [] {
      assert Scopes(names)[1..] == Scopes(names[1..]);
      ReadScopes(names[1..], stack + [Render(names[0])]);
      Chain(stack, [Render(names[0])], RenderAll(names[1..]), RenderAll(names), stack + RenderAll(names));
    }
  }

  lemma {:induction false} RenderJoin(x: seq<string>, y: seq<string>)
    ensures RenderAll(x + y) == RenderAll(x) + RenderAll(y)
    decreases |x|
  {
    if x == [] {
      assert x + y == y;
    } else {
      assert (x + y)[0] == x[0] && (x + y)[1..] == x[1..] + y;
      RenderJoin(x[1..], y);
    }
  }

  // ---------------------------------------------------------------- the whole header

  /** The scopes open after a name; none at the start. */
  function OpenAfter(last: string): seq<string> {
    if last == "" then [] else Path(last)
  }

  /** The lines for the names. */
  function Body(names: seq<(string, string)>, last: string): seq<Token> {
    if names == [] then []
    else StepTokens(last, names[0].0) + ([Var(names[0].1)] + Body(names[1..], names[0].0))
  }

  /** Keys in the order of the map. */
  ghost predicate Sorted(names: seq<(string, string)>, last: string) {
    names != [] ==> IsKey(names[0].0) && (last == "" || Less(last, names[0].0)) && Sorted(names[1..], names[0].0)
  }

  function Expected(names: seq<(string, string)>): seq<(seq<string>, string)> {
    if names == [] then [] else [(RenderAll(Path(names[0].0)), names[0].1)] + Expected(names[1..])
  }

  /** No name has an empty scope, and no signal an empty name of its own. */
  ghost predicate NoneEmpty(names: seq<(string, string)>) {
    names != [] ==> "" !in Path(names[0].0) && names[0].1 != "" && NoneEmpty(names[1..])
  }

  /** An empty scope right before the signal's own name is one of the scopes. */
  lemma EndIsEmpty(s: string, t: nat)
    requires TabIs(s, t) && 0 < t && s[0] != ' ' && EmptyEnd(s, t)
    ensures "" in Split(s[..t])
  {
    StepDownsStart(s, t);
    assert EmptyLast(s, t)[0] == "";
  }

  lemma FirstStep(name: string, tn: nat)
    requires TabIs(name, tn) && 0 < tn && name[0] != ' '
    ensures StepTokens("", name) == Scopes(Downs(name, 0)) && Downs(name, 0) + EmptyLast(name, tn) == Split(name[..tn])
  {
    StepDowns(name, tn, 0);
    assert Ups(0) + Scopes(Downs(name, 0)) == Scopes(Downs(name, 0));
    assert Before(name, 0) + Downs(name, 0) == Downs(name, 0);
  }

  lemma EndNotEmpty(s: string)
    requires IsKey(s) && "" !in Path(s)
    ensures !EmptyEnd(s, TabAt(s, 0)) && EmptyLast(s, TabAt(s, 0)) == []
  {
    if EmptyEnd(s, TabAt(s, 0)) { EndIsEmpty(s, TabAt(s, 0)); }
  }

  /** One step of the reader: the scopes of the name, but for an empty last one; none may be empty. */
  lemma StepReads(last: string, name: string) returns (open: seq<string>)
    requires IsKey(name) && (last == "" || (IsKey(last) && Less(last, name) && "" !in Path(last)))
    ensures Read(StepTokens(last, name), RenderAll(OpenAfter(last))) ==
            if "" in open then Malformed else Reading([], RenderAll(open))
    ensures open + EmptyLast(name, TabAt(name, 0)) == Path(name)
  {
    var tn := TabAt(name, 0);
    if last == "" {
      FirstStep(name, tn);
      open := Downs(name, 0);
      ReadScopes(open, []);
      assert [] + RenderAll(open) == RenderAll(open);
    } else {
      var tl := TabAt(last, 0);
      var p := Joint(last, name);
      EndNotEmpty(last);
      StepScopes(last, name, tl, tn);
      open := Before(name, p) + Downs(name, p);
      StepMoves(Path(last), Before(last, p), Downs(name, p), UpCount(last, p, true));
    }
  }

  lemma StepMoves(path: seq<string>, before: seq<string>, downs: seq<string>, n: nat)
    requires n + |before| == |path| && before <= path && "" !in path
    ensures Read(Ups(n) + Scopes(downs), RenderAll(path)) ==
            if "" in before + downs then Malformed else Reading([], RenderAll(before + downs))
  {
    ReadConcat(Ups(n), Scopes(downs), RenderAll(path));
    ReadUps(n, RenderAll(path));
    RenderJoin(before, path[|before|..]);
    assert path == before + path[|before|..];
    assert RenderAll(path)[..|before|] == RenderAll(before);
    ReadScopes(downs, RenderAll(before));
    RenderJoin(before, downs);
  }

  lemma NotRead(first: seq<Token>, more: seq<Token>, stack: seq<string>)
    requires Read(first, stack) == Malformed
    ensures Read(first + more, stack) == Malformed
  {
    ReadConcat(first, more, stack);
  }

  /** One name read, and what comes after it. */
  lemma ReadOne(first: seq<Token>, decl: string, rest: seq<Token>, stack: seq<string>, open: seq<string>)
    requires Read(first, stack) == Reading([], open)
    ensures Read(first + ([Var(decl)] + rest), stack) ==
            if decl == "" then Malformed else Prepend((open, decl), Read(rest, open))
  {
    ReadConcat(first, [Var(decl)] + rest, stack);
    assert ([Var(decl)] + rest)[1..] == rest;
    var r := if decl == "" then Malformed else Prepend((open, decl), Read(rest, open));
    assert Read([Var(decl)] + rest, open) == r;
    if r.Reading? { assert [] + r.vars == r.vars; }
  }

  lemma PrependIs(v: (seq<string>, string), r: Reading, e: (seq<string>, string), more: seq<(seq<string>, string)>)
    ensures Prepend(v, r).Reading? && Prepend(v, r).vars == [e] + more <==> v == e && r.Reading? && r.vars == more
  {
    if Prepend(v, r).Reading? && Prepend(v, r).vars == [e] + more {
      assert ([v] + r.vars)[0] == v && ([v] + r.vars)[1..] == r.vars && ([e] + more)[1..] == more;
    }
  }

  /** The reader finds every signal under its own scopes exactly when no part of a name is empty. */
  lemma {:induction false} BodyReads(names: seq<(string, string)>, last: string)
    requires Sorted(names, last) && (last == "" || (IsKey(last) && "" !in Path(last)))
    ensures var r := Read(Body(names, last), RenderAll(OpenAfter(last)));
            (r.Reading? && r.vars == Expected(names)) <==> NoneEmpty(names)
    ensures NoneEmpty(names) ==>
              Read(Body(names, last), RenderAll(OpenAfter(last))).stack == RenderAll(OpenAfter(LastOf(names, last)))
    decreases |names|
  {
    if names != [] {
      var name, decl, rest := names[0].0, names[0].1, names[1..];
      var open := StepReads(last, name);
      if "" in open {
        NotRead(StepTokens(last, name), [Var(decl)] + Body(rest, name), RenderAll(OpenAfter(last)));
        assert "" in open + EmptyLast(name, TabAt(name, 0));
        return;
      }
      ReadOne(StepTokens(last, name), decl, Body(rest, name), RenderAll(OpenAfter(last)), RenderAll(open));
      if decl == "" { return; }
      var r := Read(Body(rest, name), RenderAll(open));
      PrependIs((RenderAll(open), decl), r, (RenderAll(Path(name)), decl), Expected(rest));
      if EmptyEnd(name, TabAt(name, 0)) {
        assert |RenderAll(open)| != |RenderAll(Path(name))|;
        assert EmptyLast(name, TabAt(name, 0))[0] == "";
      } else {
        assert open + [] == open;
        BodyReads(rest, name);
      }
    }
  }

  function LastOf(names: seq<(string, string)>, last: string): string {
    if names == [] then last else LastOf(names[1..], names[0].0)
  }

  // ---------------------------------------------------------------- depth

  /** The scopes open after the lines. */
  function Net(ts: seq<Token>): int {
    if ts == [] then 0
    else Net(ts[..|ts| - 1]) + match ts[|ts| - 1] case Scope(_) => 1 case Upscope => -1 case Var(_) => 0
  }

  /** `m_modDepth`, which counts from 1, never falls below 0. */
  predicate DepthHolds(ts: seq<Token>) {
    ts == [] || (DepthHolds(ts[..|ts| - 1]) && 1 + Net(ts) >= 0)
  }

  /** What a reader accepts keeps the depth. */
  lemma {:induction false} ReadNet(ts: seq<Token>)
    ensures Read(ts, []).Reading? ==> |Read(ts, []).stack| == Net(ts) && DepthHolds(ts)
    decreases |ts|
  {
    if ts != [] {
      var front, t := ts[..|ts| - 1], ts[|ts| - 1];
      ReadConcat(front, [t], []);
      assert ts == front + [t];
      ReadNet(front);
      var r := Read(front, []);
      if r.Reading? { ReadToken(t, r.stack); }
    }
  }

  lemma ReadToken(t: Token, stack: seq<string>)
    ensures t.Scope? ==> Read([t], stack) == if t.name == "" then Malformed else Reading([], stack + [t.name])
    ensures t.Upscope? ==> Read([t], stack) == if stack == [] then Malformed else Reading([], stack[..|stack| - 1])
    ensures t.Var? ==> Read([t], stack) == if t.decl == "" then Malformed else Reading([(stack, t.decl)], stack)
  {
    assert [t][1..] == [];
  }

  lemma {:induction false} UpsAppend(n: nat)
    ensures Ups(n) + [Upscope] == Ups(n + 1)
  {
    if n > 0 { UpsAppend(n - 1); }
  }

  lemma {:induction false} ScopesAppend(names: seq<string>, name: string)
    ensures Scopes(names) + [Scope(Render(name))] == Scopes(names + [name])
    decreases |names|
  {
    if names == [] {
      assert [] + [name] == [name];
    } else {
      assert (names + [name])[1..] == names[1..] + [name];
      ScopesAppend(names[1..], name);
    }
  }

  lemma NetStep(ts: seq<Token>, t: Token)
    ensures Net(ts + [t]) == Net(ts) + match t case Scope(_) => 1 case Upscope => -1 case Var(_) => 0
    ensures DepthHolds(ts + [t]) <==> DepthHolds(ts) && 1 + Net(ts + [t]) >= 0
  {
    assert (ts + [t])[..|ts|] == ts;
  }

  lemma {:induction false} NetUps(ts: seq<Token>, n: nat)
    ensures Net(ts + Ups(n)) == Net(ts) - n
    decreases n
  {
    if n == 0 {
      assert ts + Ups(0) == ts;
    } else {
      UpsAppend(n - 1);
      assert ts + Ups(n) == (ts + Ups(n - 1)) + [Upscope];
      NetStep(ts + Ups(n - 1), Upscope);
      NetUps(ts, n - 1);
    }
  }

  /** All the lines: the names, and the way back up. */
  function Header(names: seq<(string, string)>): seq<Token> {
    var body := Body(names, "");
    body + Ups(if Net(body) > 0 then Net(body) else 0)
  }

  /** A stack reader recovers the name map from the header, every signal under its own scopes and
      nothing left open, exactly when no part of a name is empty. */
  lemma HeaderReads(names: seq<(string, string)>)
    requires Sorted(names, "")
    ensures Read(Header(names), []) == Reading(Expected(names), []) <==> NoneEmpty(names)
    ensures NoneEmpty(names) ==> DepthHolds(Header(names)) && Net(Header(names)) == 0
  {
    var body := Body(names, "");
    var r := Read(body, []);
    BodyReads(names, "");
    ReadNet(body);
    if r.Reading? {
      ReadConcat(body, Ups(Net(body)), []);
      ReadUps(Net(body), r.stack);
      assert r.vars + [] == r.vars;
    } else {
      ReadConcat(body, Ups(if Net(body) > 0 then Net(body) else 0), []);
    }
    ReadNet(Header(names));
  }

  // ---------------------------------------------------------------- names with an empty scope

  /** "a..b.c" is declared as "a  b\tc". */
  lemma EmptyScopeInside()
    ensures var names := [("a  b\tc", "C")];
            Sorted(names, "") && Read(Header(names), []) != Reading(Expected(names), [])
  {
    var s := "a  b\tc";
    KeyTab(s, 4);
    SplitFirst("a  b", 1);
    SplitFirst(" b", 0);
    assert "a  b"[2..] == " b" && s[..4] == "a  b" && "" in Path(s);
    HeaderReads([(s, "C")]);
  }

  /** "a..b" is declared as "a \tb". */
  lemma EmptyScopeLost()
    ensures var names := [("a \tb", "B"), ("c\td", "D")];
            Sorted(names, "") && Read(Header(names), []) != Reading(Expected(names), [])
  {
    var names := [("a \tb", "B"), ("c\td", "D")];
    KeyTab("a \tb", 2);
    KeyTab("c\td", 1);
    assert MismatchAt("a \tb", "c\td", 0);
    assert names[1..] == [("c\td", "D")] && names[1..][1..] == [];
    EndIsEmpty("a \tb", 2);
    HeaderReads(names);
  }

  // ---------------------------------------------------------------- once each

  /** The scopes that the step to a name enters. */
  ghost predicate Enters(last: string, name: string, l: nat) {
    |Before(name, Joint(last, name))| < l <= |Path(name)|
  }

  /** Names with the same text before a separator stay together in sorted order. */
  lemma Together(a: string, b: string, c: string, q: nat)
    requires IsKey(a) && IsKey(b) && IsKey(c) && Less(b, c) && (a == b || Less(a, b))
    requires q < |a| && q < |c| && a[..q] == c[..q] && IsSep(a[q]) && IsSep(c[q])
    ensures q < |b| && b[..q] == c[..q] && IsSep(b[q])
  {
    forall k | 0 <= k < q ensures a[k] == c[k] { assert a[..q][k] == c[..q][k]; }
    if a != b {
      LessMismatch(a, b);
      LessMismatch(b, c);
      Branches(a, b, c, q, CommonEnd(a, b, 0), CommonEnd(b, c, 0));
    }
  }

  /** A name between two others has their common text. */
  lemma Branches(a: string, b: string, c: string, q: nat, m1: nat, m2: nat)
    requires q < |a| && q < |c| && forall k :: 0 <= k < q ==> a[k] == c[k]
    requires m1 <= |a| && m1 < |b| && (forall k :: 0 <= k < m1 ==> a[k] == b[k]) && (m1 < |a| ==> a[m1] < b[m1])
    requires m2 <= |b| && m2 < |c| && (forall k :: 0 <= k < m2 ==> b[k] == c[k]) && (m2 < |b| ==> b[m2] < c[m2])
    ensures m1 >= q && m2 >= q && b[..q] == c[..q]
  {
    assert m1 < q ==> CharAt(a, m1) == CharAt(c, m1);
  }

  lemma LessTransitive(a: string, b: string, c: string)
    requires Less(a, b) && Less(b, c)
    ensures Less(a, c)
  {
    LessMismatch(a, b);
    LessMismatch(b, c);
    var m1, m2 := CommonEnd(a, b, 0), CommonEnd(b, c, 0);
    var m := if m1 < m2 then m1 else m2;
    assert a[..m] == b[..m] == c[..m] by {
      assert a[..m1][..m] == b[..m1][..m] && b[..m2][..m] == c[..m2][..m];
    }
    assert MismatchAt(a, c, m);
  }

  /** Any earlier name is less, or the one right before. */
  lemma {:induction false} SortedLess(names: seq<(string, string)>, last: string, i: nat, j: nat)
    requires Sorted(names, last) && i < j < |names|
    ensures IsKey(names[i].0) && IsKey(names[j].0) && IsKey(names[j - 1].0)
    ensures Less(names[j - 1].0, names[j].0) && (i == j - 1 || Less(names[i].0, names[j - 1].0))
    decreases j
  {
    if i > 0 {
      SortedLess(names[1..], names[0].0, i - 1, j - 1);
    } else if j == 1 {
      assert Sorted(names[1..], names[0].0);
    } else {
      SortedLess(names[1..], names[0].0, 0, j - 1);
      assert Less(names[0].0, names[1].0);
      if j > 2 { LessTransitive(names[0].0, names[1].0, names[j - 1].0); }
    }
  }

  /** The first scope, and the others. */
  lemma FirstAlone(u: string, r: nat) returns (w: seq<string>)
    requires r == SpaceAt(u, 0)
    ensures Split(u) == [u[..r]] + w && w == if r < |u| then Split(u[r + 1..]) else []
  {
    w := if r < |u| then Split(u[r + 1..]) else [];
    SplitFirst(u, r);
    if r == |u| { assert u[..r] == u && [u] + [] == [u]; }
  }

  lemma OnlyFirst(u: string, r: nat)
    requires r == SpaceAt(u, 0)
    ensures Split(u[..r]) == [u[..r]]
  {
    SplitFirst(u[..r], r);
  }

  lemma FirstAndMore(u: string, r: nat, q: nat, more: string, w: seq<string>)
    requires r < q <= |u| && r == SpaceAt(u, 0) && more == u[r + 1..q] && Split(more) == w
    ensures Split(u[..q]) == [u[..r]] + w
  {
    SplitAt(u, q, r);
    OnlyFirst(u, r);
  }

  lemma SliceOfRest(u: string, r: nat, n: nat)
    requires r + n <= |u|
    ensures u[r..][..n] == u[r..r + n]
  {
    var a, b := u[r..][..n], u[r..r + n];
    forall k | 0 <= k < n ensures a[k] == b[k] { assert a[k] == u[r..][k]; }
  }

  lemma MoreThanOne(u: string, r: nat, l: nat)
    requires r == SpaceAt(u, 0) && 2 <= l <= |Split(u)|
    ensures r < |u| && u[r] == ' ' && l - 1 <= |Split(u[r + 1..])|
  {
    var w := FirstAlone(u, r);
  }

  lemma TakeCons(x: string, w: seq<string>, v: seq<string>, l: nat)
    requires 1 <= l <= |w| + 1 && v == [x] + w
    ensures v[..l] == [x] + w[..l - 1]
  {
  }

  lemma FirstBase(u: string, r: nat)
    requires r == SpaceAt(u, 0)
    ensures Split(u[..r]) == Split(u)[..1]
  {
    var w := FirstAlone(u, r);
    OnlyFirst(u, r);
    TakeCons(u[..r], w, Split(u), 1);
  }

  lemma FirstStepOn(u: string, r: nat, rest: nat, l: nat)
    requires r == SpaceAt(u, 0) < |u| && rest <= |u| - r - 1 && 2 <= l <= |Split(u[r + 1..])| + 1
    requires Split(u[r + 1..][..rest]) == Split(u[r + 1..])[..l - 1]
    ensures Split(u[..r + 1 + rest]) == Split(u)[..l]
  {
    var w := FirstAlone(u, r);
    SliceOfRest(u, r + 1, rest);
    FirstAndMore(u, r, r + 1 + rest, u[r + 1..][..rest], w[..l - 1]);
    TakeCons(u[..r], w, Split(u), l);
  }

  /** The text of the first l scopes. */
  lemma {:induction false} FirstScopes(u: string, l: nat) returns (q: nat)
    requires 1 <= l <= |Split(u)|
    ensures q <= |u| && (q == |u| || u[q] == ' ')
    ensures Split(u[..q]) == Split(u)[..l]
    decreases |u|
  {
    var r := SpaceAt(u, 0);
    if l == 1 {
      q := r;
      FirstBase(u, r);
    } else {
      MoreThanOne(u, r, l);
      var rest := FirstScopes(u[r + 1..], l - 1);
      q := r + 1 + rest;
      FirstStepOn(u, r, rest, l);
    }
  }

  /** Once two neighbours share a text up to a separator, the joint is not before it. */
  lemma JointAfter(last: string, name: string, tn: nat, q: nat)
    requires TabIs(name, tn) && q < |name| && q < |last| && last[..q] == name[..q] && IsSep(name[q]) && IsSep(last[q])
    requires Less(last, name)
    ensures Joint(last, name) >= q
  {
    var m := CommonEnd(last, name, 0);
    LessMismatch(last, name);
    forall k | 0 <= k < q ensures last[k] == name[k] { assert last[..q][k] == name[..q][k]; }
    BackUpIs(name, m, tn);
  }

  /** No scope is entered twice: what a name enters is no scope of an earlier name. */
  lemma EnteredOnce(names: seq<(string, string)>, i: nat, j: nat, l: nat)
    requires Sorted(names, "") && i < j < |names| && Enters(names[j - 1].0, names[j].0, l)
    ensures l > |Path(names[i].0)| || Path(names[i].0)[..l] != Path(names[j].0)[..l]
  {
    SortedLess(names, "", i, j);
    var a, b, c := names[i].0, names[j - 1].0, names[j].0;
    if l <= |Path(a)| && Path(a)[..l] == Path(c)[..l] {
      SharedEntered(a, b, c, l);
    }
  }

  lemma PrefixOfPrefix(s: string, t: nat, q: nat)
    requires q <= t <= |s|
    ensures s[..t][..q] == s[..q] && |s[..q]| == q
  {
  }

  lemma SharedEntered(a: string, b: string, c: string, l: nat)
    requires IsKey(a) && IsKey(b) && IsKey(c) && Less(b, c) && (a == b || Less(a, b))
    requires 1 <= l <= |Path(a)| && l <= |Path(c)| && Path(a)[..l] == Path(c)[..l]
    ensures |Before(c, Joint(b, c))| >= l
  {
    var ta, tc := TabAt(a, 0), TabAt(c, 0);
    var qa := FirstScopes(a[..ta], l);
    var q := FirstScopes(c[..tc], l);
    SplitInjective(a[..ta][..qa], c[..tc][..q]);
    PrefixOfPrefix(a, ta, qa);
    PrefixOfPrefix(c, tc, q);
    Together(a, b, c, q);
    JointAfter(b, c, tc, q);
    BeforeGrows(c, tc, q, Joint(b, c), TabAt(b, 0), b);
  }

  lemma BeforeGrows(s: string, t: nat, q: nat, p: nat, tl: nat, last: string)
    requires TabIs(s, t) && q <= t && (q == t || s[q] == ' ') && q <= p && p == Joint(last, s)
    requires TabIs(last, tl) && 0 < tl && 0 < t && Less(last, s)
    ensures p <= t && |Before(s, p)| >= if p == 0 then 0 else |Split(s[..q])|
  {
    JointIs(last, s, tl, t);
    if q < p { SplitAt(s, p, q); }
  }
}