/** How often the header opens each scope. The scopes are written with `(` for `[`, so names
    that are sorted apart may be written alike. */
module VcdOpened {
  import opened VcdHeader
  import opened VcdScopes

  // ---------------------------------------------------------------- what is opened

  /** How often the lines open exactly this path. */
  function OpenCount(ts: seq<Token>, stack: seq<string>, path: seq<string>): nat {
    if ts == [] then 0
    else
      match ts[0]
      case Scope(name) => (if stack + [name] == path then 1 else 0) + OpenCount(ts[1..], stack + [name], path)
      case Upscope => if stack == [] then 0 else OpenCount(ts[1..], stack[..|stack| - 1], path)
      case Var(_) => OpenCount(ts[1..], stack, path)
  }

  /** The same scope is never opened twice. */
  ghost predicate OpenedOnce(ts: seq<Token>) {
    forall path :: OpenCount(ts, [], path) <= 1
  }

  lemma {:induction false} OpenConcat(a: seq<Token>, b: seq<Token>, stack: seq<string>, path: seq<string>)
    requires Read(a, stack).Reading?
    ensures OpenCount(a + b, stack, path) == OpenCount(a, stack, path) + OpenCount(b, Read(a, stack).stack, path)
    decreases |a|
  {
    if a == [] {
      assert a + b == b;
    } else {
      assert (a + b)[0] == a[0] && (a + b)[1..] == a[1..] + b;
      match a[0]
      case Scope(name) => OpenConcat(a[1..], b, stack + [name], path);
      case Upscope => OpenConcat(a[1..], b, stack[..|stack| - 1], path);
      case Var(_) => OpenConcat(a[1..], b, stack, path);
    }
  }

  lemma {:induction false} OpenUps(n: nat, stack: seq<string>, path: seq<string>)
    ensures OpenCount(Ups(n), stack, path) == 0
    decreases n
  {
    if n > 0 && stack != [] {
      assert Ups(n)[1..] == Ups(n - 1);
      OpenUps(n - 1, stack[..|stack| - 1], path);
    }
  }

  /** Whether path is among the paths from `before` on to `before + more`. */
  predicate OnTheWay(before: seq<string>, more: seq<string>, path: seq<string>) {
    |before| < |path| <= |before| + |more| && (before + more)[..|path|] == path
  }

  lemma {:induction false} OpenScopes(names: seq<string>, stack: seq<string>, path: seq<string>)
    ensures OpenCount(Scopes(names), stack, path) == if OnTheWay(stack, RenderAll(names), path) then 1 else 0
    decreases |names|
  {
    if names != [] {
      var first, rest := Render(names[0]), RenderAll(names[1..]);
      assert Scopes(names)[1..] == Scopes(names[1..]);
      OpenScopes(names[1..], stack + [first], path);
      WayFurther(stack, first, rest, path);
    }
  }

  lemma WayFurther(stack: seq<string>, first: string, rest: seq<string>, path: seq<string>)
    ensures OnTheWay(stack, [first] + rest, path) <==> stack + [first] == path || OnTheWay(stack + [first], rest, path)
  {
    assert stack + ([first] + rest) == (stack + [first]) + rest;
    assert ((stack + [first]) + rest)[..|stack| + 1] == stack + [first];
  }

  // ---------------------------------------------------------------- name by name

  /** Whether the step to a name opens the path. */
  ghost predicate Hit(last: string, name: string, path: seq<string>) {
    Enters(last, name, |path|) && RenderAll(Path(name))[..|path|] == path
  }

  lemma StepOpens(last: string, name: string, path: seq<string>)
    requires IsKey(name) && "" !in Path(name)
    requires last == "" || (IsKey(last) && Less(last, name) && "" !in Path(last))
    ensures OpenCount(StepTokens(last, name), RenderAll(OpenAfter(last)), path) ==
            if Hit(last, name, path) then 1 else 0
  {
    var p := Joint(last, name);
    var ups, before := StepParts(last, name);
    OpenConcat(Ups(ups), Scopes(Downs(name, p)), RenderAll(OpenAfter(last)), path);
    OpenUps(ups, RenderAll(OpenAfter(last)), path);
    OpenScopes(Downs(name, p), RenderAll(before), path);
    RenderJoin(before, Downs(name, p));
  }

  /** What the step leaves open, and what it opens. */
  lemma StepParts(last: string, name: string) returns (ups: nat, before: seq<string>)
    requires IsKey(name) && "" !in Path(name)
    requires last == "" || (IsKey(last) && Less(last, name) && "" !in Path(last))
    ensures ups == UpCount(last, Joint(last, name), true) && before == Before(name, Joint(last, name))
    ensures before + Downs(name, Joint(last, name)) == Path(name) && before <= OpenAfter(last)
    ensures Read(Ups(ups), RenderAll(OpenAfter(last))) == Reading([], RenderAll(before))
  {
    var p := Joint(last, name);
    ups, before := UpCount(last, p, true), Before(name, p);
    EndNotEmpty(name);
    if last == "" {
      FirstStep(name, TabAt(name, 0));
      NothingLast(before, Downs(name, p), Path(name));
    } else {
      EndNotEmpty(last);
      StepScopes(last, name, TabAt(last, 0), TabAt(name, 0));
      NothingLast(before, Downs(name, p), Path(name));
      UpsLeave(ups, before, Path(last));
    }
  }

  lemma NothingLast(before: seq<string>, downs: seq<string>, whole: seq<string>)
    requires before + downs + [] == whole
    ensures before + downs == whole
  {
    assert before + downs + [] == before + downs;
  }

  lemma UpsLeave(ups: nat, before: seq<string>, path: seq<string>)
    requires ups + |before| == |path| && before <= path
    ensures Read(Ups(ups), RenderAll(path)) == Reading([], RenderAll(before))
  {
    ReadUps(ups, RenderAll(path));
    RenderTake(path, |before|);
    assert path[..|before|] == before;
  }

  lemma RenderTake(p: seq<string>, l: nat)
    requires l <= |p|
    ensures RenderAll(p[..l]) == RenderAll(p)[..l]
  {
    forall k: nat | k < l ensures RenderAll(p[..l])[k] == RenderAll(p)[k] {
      RenderAllAt(p[..l], k);
      RenderAllAt(p, k);
    }
  }

  lemma {:induction false} RenderAllAt(p: seq<string>, k: nat)
    requires k < |p|
    ensures RenderAll(p)[k] == Render(p[k])
    decreases k
  {
    if k > 0 { RenderAllAt(p[1..], k - 1); }
  }

  ghost function Prev(names: seq<(string, string)>, last: string, i: nat): string
    requires i < |names|
  {
    if i == 0 then last else names[i - 1].0
  }

  /** Which of the names open the path. */
  ghost function Hits(names: seq<(string, string)>, last: string, path: seq<string>): (h: seq<bool>)
    ensures |h| == |names|
  {
    if names == [] then [] else [Hit(last, names[0].0, path)] + Hits(names[1..], names[0].0, path)
  }

  lemma {:induction false} HitsAt(names: seq<(string, string)>, last: string, path: seq<string>, i: nat)
    requires i < |names|
    ensures Hits(names, last, path)[i] == Hit(Prev(names, last, i), names[i].0, path)
    decreases i
  {
    if i > 0 { HitsAt(names[1..], names[0].0, path, i - 1); }
  }

  lemma CountHits(hit: bool, h: seq<bool>)
    ensures Count([hit] + h) == (if hit then 1 else 0) + Count(h)
  {
    assert ([hit] + h)[1..] == h;
  }

  lemma {:induction false} BodyOpens(names: seq<(string, string)>, last: string, path: seq<string>)
    requires Sorted(names, last) && NoneEmpty(names) && (last == "" || (IsKey(last) && "" !in Path(last)))
    ensures OpenCount(Body(names, last), RenderAll(OpenAfter(last)), path) == Count(Hits(names, last, path))
    decreases |names|
  {
    if names != [] {
      var name, decl, rest := names[0].0, names[0].1, names[1..];
      var more := [Var(decl)] + Body(rest, name);
      var open := StepReads(last, name);
      StepWhole(name, open);
      StepOpens(last, name, path);
      OpenConcat(StepTokens(last, name), more, RenderAll(OpenAfter(last)), path);
      assert more[1..] == Body(rest, name);
      BodyOpens(rest, name, path);
      CountHits(Hit(last, name, path), Hits(rest, name, path));
    }
  }

  lemma StepWhole(name: string, open: seq<string>)
    requires IsKey(name) && "" !in Path(name) && open + EmptyLast(name, TabAt(name, 0)) == Path(name)
    ensures open == Path(name)
  {
    EndNotEmpty(name);
    assert open + [] == open;
  }

  lemma HeaderOpens(names: seq<(string, string)>, path: seq<string>)
    requires Sorted(names, "") && NoneEmpty(names)
    ensures OpenCount(Header(names), [], path) == Count(Hits(names, "", path))
  {
    var body := Body(names, "");
    BodyReads(names, "");
    BodyOpens(names, "", path);
    var n := if Net(body) > 0 then Net(body) else 0;
    OpenConcat(body, Ups(n), [], path);
    OpenUps(n, Read(body, []).stack, path);
  }

  // ---------------------------------------------------------------- counting

  function Count(h: seq<bool>): nat {
    if h == [] then 0 else (if h[0] then 1 else 0) + Count(h[1..])
  }

  lemma {:induction false} CountOne(h: seq<bool>, i: nat)
    requires i < |h| && h[i]
    ensures Count(h) >= 1
  {
    if i > 0 { CountOne(h[1..], i - 1); }
  }

  lemma {:induction false} CountTwo(h: seq<bool>, i: nat, j: nat)
    requires i < j < |h| && h[i] && h[j]
    ensures Count(h) >= 2
  {
    if i > 0 { CountTwo(h[1..], i - 1, j - 1); } else { CountOne(h[1..], j - 1); }
  }

  lemma {:induction false} FindOne(h: seq<bool>) returns (i: nat)
    requires Count(h) >= 1
    ensures i < |h| && h[i]
  {
    if h[0] {
      i := 0;
    } else {
      i := FindOne(h[1..]);
      i := i + 1;
    }
  }

  lemma {:induction false} FindTwo(h: seq<bool>) returns (i: nat, j: nat)
    requires Count(h) >= 2
    ensures i < j < |h| && h[i] && h[j]
  {
    if h[0] {
      j := FindOne(h[1..]);
      i, j := 0, j + 1;
    } else {
      i, j := FindTwo(h[1..]);
      i, j := i + 1, j + 1;
    }
  }

  // ---------------------------------------------------------------- once each

  /** Scopes of two names that differ are written differently. */
  ghost predicate ApartTo(p: seq<string>, q: seq<string>, l: nat)
    requires l <= |p| && l <= |q|
  {
    RenderAll(p)[..l] == RenderAll(q)[..l] ==> p[..l] == q[..l]
  }

  ghost predicate RendersApart(names: seq<(string, string)>) {
    forall i: nat, j: nat, l: nat {:trigger ApartTo(Path(names[i].0), Path(names[j].0), l)} ::
      i < |names| && j < |names| && l <= |Path(names[i].0)| && l <= |Path(names[j].0)| ==>
        ApartTo(Path(names[i].0), Path(names[j].0), l)
  }

  lemma {:induction false} NameAt(names: seq<(string, string)>, last: string, i: nat)
    requires Sorted(names, last) && NoneEmpty(names) && i < |names|
    ensures IsKey(names[i].0) && "" !in Path(names[i].0)
    ensures Prev(names, last, i) == "" || i == 0 || IsKey(Prev(names, last, i))
    ensures Prev(names, last, i) == "" || Less(Prev(names, last, i), names[i].0)
    decreases i
  {
    if i > 0 { NameAt(names[1..], names[0].0, i - 1); }
  }

  /** The first name with these scopes enters the last of them. */
  lemma {:induction false} FirstEnters(names: seq<(string, string)>, i: nat, l: nat) returns (k: nat)
    requires Sorted(names, "") && NoneEmpty(names) && i < |names| && 1 <= l <= |Path(names[i].0)|
    ensures k <= i && Enters(Prev(names, "", k), names[k].0, l) && Path(names[k].0)[..l] == Path(names[i].0)[..l]
    decreases i
  {
    var last, name := Prev(names, "", i), names[i].0;
    if Enters(last, name, l) {
      k := i;
    } else {
      NameAt(names, "", i);
      if i > 0 { NameAt(names, "", i - 1); }
      var ups, before := StepParts(last, name);
      SharedPrefix(before, Path(name), OpenAfter(last), l);
      k := FirstEnters(names, i - 1, l);
    }
  }

  lemma SharedPrefix(before: seq<string>, p: seq<string>, q: seq<string>, l: nat)
    requires before <= p && before <= q && l <= |before|
    ensures p[..l] == q[..l] && l <= |q|
  {
    assert p[..l] == before[..l] && q[..l] == before[..l];
  }

  /** Each scope of the header is opened once, exactly when no two scopes that differ are written
      alike. */
  lemma OpenedOnceIff(names: seq<(string, string)>)
    requires Sorted(names, "") && NoneEmpty(names)
    ensures OpenedOnce(Header(names)) <==> RendersApart(names)
  {
    if RendersApart(names) {
      forall path ensures OpenCount(Header(names), [], path) <= 1 {
        HeaderOpens(names, path);
        HitOnce(names, path);
      }
    } else {
      var i: nat, j: nat, l: nat :| i < |names| && j < |names| && l <= |Path(names[i].0)| && l <= |Path(names[j].0)| &&
        !ApartTo(Path(names[i].0), Path(names[j].0), l);
      var path := OpenedTwice(names, i, j, l);
      assert OpenCount(Header(names), [], path) >= 2;
    }
  }

  lemma HitOnce(names: seq<(string, string)>, path: seq<string>)
    requires Sorted(names, "") && NoneEmpty(names) && RendersApart(names)
    ensures Count(Hits(names, "", path)) <= 1
  {
    if Count(Hits(names, "", path)) >= 2 {
      var i, j := FindTwo(Hits(names, "", path));
      HitsAt(names, "", path, i);
      HitsAt(names, "", path, j);
      HitAlike(names, i, j, path);
      EnteredOnce(names, i, j, |path|);
    }
  }

  lemma HitAlike(names: seq<(string, string)>, i: nat, j: nat, path: seq<string>)
    requires RendersApart(names) && i < |names| && j < |names|
    requires Hit(Prev(names, "", i), names[i].0, path) && Hit(Prev(names, "", j), names[j].0, path)
    ensures Path(names[i].0)[..|path|] == Path(names[j].0)[..|path|]
  {
    assert ApartTo(Path(names[i].0), Path(names[j].0), |path|);
  }

  lemma EmptyApart(p: seq<string>, q: seq<string>)
    ensures ApartTo(p, q, 0)
  {
  }

  lemma OpenedTwice(names: seq<(string, string)>, i: nat, j: nat, l: nat) returns (path: seq<string>)
    requires Sorted(names, "") && NoneEmpty(names) && i < |names| && j < |names|
    requires l <= |Path(names[i].0)| && l <= |Path(names[j].0)| && !ApartTo(Path(names[i].0), Path(names[j].0), l)
    ensures OpenCount(Header(names), [], path) >= 2
  {
    path := RenderAll(Path(names[i].0))[..l];
    EmptyApart(Path(names[i].0), Path(names[j].0));
    var a := FirstEnters(names, i, l);
    var b := FirstEnters(names, j, l);
    SamePrefixRenders(Path(names[a].0), Path(names[i].0), l);
    SamePrefixRenders(Path(names[b].0), Path(names[j].0), l);
    HitsAt(names, "", path, a);
    HitsAt(names, "", path, b);
    if a < b { CountTwo(Hits(names, "", path), a, b); } else { CountTwo(Hits(names, "", path), b, a); }
    HeaderOpens(names, path);
  }

  lemma SamePrefixRenders(p: seq<string>, q: seq<string>, l: nat)
    requires l <= |p| && l <= |q| && p[..l] == q[..l]
    ensures RenderAll(p)[..l] == RenderAll(q)[..l]
  {
    RenderTake(p, l);
    RenderTake(q, l);
  }

  // ---------------------------------------------------------------- the map from the reading

  lemma {:induction false} ExpectedLength(names: seq<(string, string)>)
    ensures |Expected(names)| == |names|
  {
    if names != [] { ExpectedLength(names[1..]); }
  }

  lemma {:induction false} ExpectedAt(names: seq<(string, string)>, i: nat)
    requires i < |names| == |Expected(names)|
    ensures Expected(names)[i] == (RenderAll(Path(names[i].0)), names[i].1)
    decreases i
  {
    if i > 0 { ExpectedAt(names[1..], i - 1); }
  }

  /** Two maps that are read alike have the same signals under the same scopes, if none of their
      scopes are written alike. */
  lemma ReadingDetermines(a: seq<(string, string)>, b: seq<(string, string)>)
    requires Sorted(a, "") && NoneEmpty(a) && Sorted(b, "") && NoneEmpty(b) && RendersApart(a + b)
    requires Read(Header(a), []) == Read(Header(b), [])
    ensures |a| == |b| && forall i :: 0 <= i < |a| ==> Path(a[i].0) == Path(b[i].0) && a[i].1 == b[i].1
  {
    HeaderReads(a);
    HeaderReads(b);
    ExpectedAlike(a, b);
  }

  lemma ExpectedAlike(a: seq<(string, string)>, b: seq<(string, string)>)
    requires Expected(a) == Expected(b) && RendersApart(a + b)
    ensures |a| == |b| && forall i :: 0 <= i < |a| ==> Path(a[i].0) == Path(b[i].0) && a[i].1 == b[i].1
  {
    ExpectedLength(a);
    ExpectedLength(b);
    forall i: nat | i < |a| ensures Path(a[i].0) == Path(b[i].0) && a[i].1 == b[i].1 { AlikeAt(a, b, i); }
  }

  lemma AlikeAt(a: seq<(string, string)>, b: seq<(string, string)>, i: nat)
    requires Expected(a) == Expected(b) && RendersApart(a + b) && i < |a| == |b| == |Expected(a)|
    ensures Path(a[i].0) == Path(b[i].0) && a[i].1 == b[i].1
  {
    ExpectedAt(a, i);
    ExpectedAt(b, i);
    WholePath(a + b, i, |a| + i, a[i].0, b[i].0);
  }

  lemma WholePath(names: seq<(string, string)>, i: nat, j: nat, x: string, y: string)
    requires RendersApart(names) && i < |names| && j < |names| && names[i].0 == x && names[j].0 == y
    requires RenderAll(Path(x)) == RenderAll(Path(y))
    ensures Path(x) == Path(y)
  {
    var p, q := Path(x), Path(y);
    assert |RenderAll(p)| == |RenderAll(q)|;
    assert ApartTo(p, q, |p|);
    assert p[..|p|] == p && q[..|p|] == q;
  }

  // ---------------------------------------------------------------- brackets

  predicate NoBracket(s: string) { '[' !in s && ']' !in s }

  lemma {:induction false} PlainRender(s: string)
    requires NoBracket(s)
    ensures Render(s) == s
  {
    if s != "" {
      assert forall c :: c in s[1..] ==> c in s;
      PlainRender(s[1..]);
    }
  }

  /** No scope is written with a square bracket, and only scopes with one are written otherwise. */
  lemma {:induction false} BracketsReplaced(s: string)
    ensures NoBracket(Render(s)) && (Render(s) == s <==> NoBracket(s))
  {
    if s != "" {
      BracketsReplaced(s[1..]);
      assert s == [s[0]] + s[1..];
      assert Render(s)[1..] == Render(s[1..]);
    }
  }

  lemma {:induction false} PlainRenderAll(p: seq<string>)
    requires forall k :: 0 <= k < |p| ==> NoBracket(p[k])
    ensures RenderAll(p) == p
  {
    if p != [] {
      PlainRender(p[0]);
      PlainRenderAll(p[1..]);
    }
  }

  /** Scopes without brackets are always apart. */
  lemma NoBracketsApart(names: seq<(string, string)>)
    requires forall i, k :: 0 <= i < |names| && 0 <= k < |Path(names[i].0)| ==> NoBracket(Path(names[i].0)[k])
    ensures RendersApart(names)
  {
    forall i: nat | i < |names| ensures RenderAll(Path(names[i].0)) == Path(names[i].0) {
      PlainRenderAll(Path(names[i].0));
    }
  }

  /** The scopes a(0) and a[0] are sorted apart, and written alike. */
  lemma OpenedTwiceExample()
    ensures var names := [("a(0)\tx", "X"), ("a[0]\ty", "Y")];
            Sorted(names, "") && NoneEmpty(names) && !OpenedOnce(Header(names))
  {
    var s, t := "a(0)\tx", "a[0]\ty";
    var names := [(s, "X"), (t, "Y")];
    ScopeOf(s, "a(0)");
    ScopeOf(t, "a[0]");
    assert MismatchAt(s, t, 1) by { assert s[..1] == "a" && t[..1] == "a"; }
    assert names[1..] == [(t, "Y")] && names[1..][1..] == [];
    NotApart(Path(s), Path(t));
    assert !ApartTo(Path(names[0].0), Path(names[1].0), 1);
    OpenedOnceIff(names);
  }

  lemma ScopeOf(s: string, scope: string)
    requires |scope| == 4 && (forall i :: 0 <= i < 4 ==> scope[i] > ' ')
    requires |s| == 6 && s[..4] == scope && s[4] == '\t' && s[5] > ' '
    ensures IsKey(s) && Path(s) == [scope]
  {
    forall i | 0 <= i < 4 ensures s[i] == scope[i] { assert s[i] == s[..4][i]; }
    KeyTab(s, 4);
    SplitFirst(scope, 4);
  }

  lemma NotApart(p: seq<string>, q: seq<string>)
    requires p == ["a(0)"] && q == ["a[0]"]
    ensures !ApartTo(p, q, 1)
  {
    BracketRender();
    assert RenderAll(p) == ["a(0)"] && RenderAll(q) == ["a(0)"];
    assert p[..1][0] != q[..1][0];
  }

  lemma BracketRender()
    ensures Render("a(0)") == "a(0)" && Render("a[0]") == "a(0)"
  {
    PlainRender("a(0)");
    PlainRender("0");
    var u := "a[0]";
    assert u[1..] == "[0]" && "[0]"[1..] == "0]" && "0]"[1..] == "]" && "]"[1..] == "";
    assert Render("]") == ")" && Render("0]") == "0)" && Render("[0]") == "(0)";
  }
}
