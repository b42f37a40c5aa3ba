/** The edits of V3Ast.cpp that are made of unlinking and relinking, and what they do to the
    whole forest. */
module AstEdits {
  import opened AstForest

  /** The name of a place does not depend on how it is stored. */
  lemma Determined(f: Forest, g: Forest, nodes: set<AstNode>)
    requires Struct(f, nodes) && Struct(g, nodes) && f.lists == g.lists
    ensures f == g
  {
    forall n | n in nodes ensures f.slot[n] == g.slot[n] && f.pos[n] == g.pos[n] {
      assert Placed(f, n);
      assert Filed(g, f.slot[n], f.pos[n]);
    }
    SameMap(f.slot, g.slot);
    SameMap(f.pos, g.pos);
  }

  /** The gap that one node leaves is where it goes back to. */
  lemma BackInPlace(f: Forest, nodes: set<AstNode>, t: AstNode)
    requires IsLinked(f, t) && CanTake(f, nodes, f.slot[t], f.pos[t], f.pos[t] + 1)
    ensures var s, i := f.slot[t], f.pos[t];
            var g := Take(f, s, i, i + 1);
            PointsAt(g, nodes, Back(f, t), RelinkOf(f, t), s, i) && CanPut(g, nodes, s, i, t) && Put(g, s, i, t) == f
  {
    GapKnown(f, nodes, t, f.pos[t] + 1);
    PutTake(f, nodes, f.slot[t], f.pos[t], f.pos[t] + 1);
  }

  /** Unlinking and relinking at once leaves every pointer as it was. */
  method UnlinkAndRelink(thisp: AstNode, ghost f: Forest, ghost nodes: set<AstNode>)
    requires Valid(f, nodes) && thisp in nodes && thisp.backp != null
    modifies nodes
    ensures Valid(f, nodes) && forall n {:trigger n.Pointers()} :: n in nodes ==> n.Pointers() == old(n.Pointers())
  {
    var handle := new AstNRelinker();
    var oldp, g := thisp.UnlinkFrBack(handle, f, nodes);
    BackInPlace(f, nodes, thisp);
    var h := thisp.Relink(handle, f.slot[thisp], f.pos[thisp], g, nodes);
    forall n | n in nodes ensures n.Pointers() == old(n.Pointers()) {
      assert LinksAre(f, n) && old(LinksAre(f, n));
    }
  }

  /** The same for a node and all after it. */
  method UnlinkWithNextAndRelink(thisp: AstNode, ghost f: Forest, ghost nodes: set<AstNode>)
    requires Valid(f, nodes) && thisp in nodes && thisp.backp != null
    modifies nodes
    ensures Valid(f, nodes) && forall n {:trigger n.Pointers()} :: n in nodes ==> n.Pointers() == old(n.Pointers())
  {
    var handle := new AstNRelinker();
    var oldp, g := thisp.UnlinkFrBackWithNext(handle, f, nodes);
    GapKnown(f, nodes, thisp, |f.lists[f.slot[thisp]]|);
    PutTake(f, nodes, f.slot[thisp], f.pos[thisp], |f.lists[f.slot[thisp]]|);
    var h := thisp.Relink(handle, f.slot[thisp], f.pos[thisp], g, nodes);
    forall n | n in nodes ensures n.Pointers() == old(n.Pointers()) {
      assert LinksAre(f, n) && old(LinksAre(f, n));
    }
  }

  /** `replaceWith`. */
  method ReplaceWith(thisp: AstNode, newp: AstNode, ghost f: Forest, ghost nodes: set<AstNode>)
    returns (ghost h: Forest)
    requires Valid(f, nodes) && thisp in nodes && thisp.backp != null
    requires Loose(newp) in f.lists && Placed(f, thisp) && f.slot[thisp] != Loose(newp)
    modifies nodes
    ensures Valid(h, nodes) && h.lists == ReplacedLists(f, thisp, newp)
  {
    var handle := new AstNRelinker();
    var oldp, g := thisp.UnlinkFrBack(handle, f, nodes);
    GapKnown(f, nodes, thisp, f.pos[thisp] + 1);
    LooseHead(f, nodes, newp);
    ReplacedIs(f, nodes, thisp, newp);
    h := newp.Relink(handle, f.slot[thisp], f.pos[thisp], g, nodes);
  }

  /** One position changes: the list of newp in the place of thisp, which becomes loose. */
  ghost function ReplacedLists(f: Forest, thisp: AstNode, newp: AstNode): map<Slot, seq<AstNode>>
    requires Placed(f, thisp) && Loose(newp) in f.lists
  {
    var s, i, r := f.slot[thisp], f.pos[thisp], f.lists[Loose(newp)];
    (f.lists - {Loose(newp)})[s := f.lists[s][..i] + r + f.lists[s][i + 1..]][Loose(thisp) := [thisp]]
  }

  lemma ReplacedIs(f: Forest, nodes: set<AstNode>, thisp: AstNode, newp: AstNode)
    requires IsLinked(f, thisp) && CanTake(f, nodes, f.slot[thisp], f.pos[thisp], f.pos[thisp] + 1)
    requires Loose(newp) in f.lists && f.slot[thisp] != Loose(newp) && newp != thisp
    ensures var g := Take(f, f.slot[thisp], f.pos[thisp], f.pos[thisp] + 1);
            Loose(newp) in g.lists && newp in nodes && f.pos[thisp] <= |ListAt(g, f.slot[thisp])| &&
            Put(g, f.slot[thisp], f.pos[thisp], newp).lists == ReplacedLists(f, thisp, newp)
  {
    TakeKnown(f, nodes, f.slot[thisp], f.pos[thisp], f.pos[thisp] + 1);
    LooseHead(f, nodes, newp);
    ReplacedSteps(f.lists, f.slot[thisp], Loose(thisp), Loose(newp), f.pos[thisp]);
  }

  /** The lists, step by step: place i of s is cut off as t, and w put at the gap. */
  lemma ReplacedSteps(m: map<Slot, seq<AstNode>>, s: Slot, t: Slot, w: Slot, i: nat)
    requires s in m && w in m && t !in m && s != w && i < |m[s]|
    ensures var l, r := m[s], m[w];
            var rest := l[..i] + l[i + 1..];
            var g := (if rest == [] then m - {s} else m[s := rest])[t := l[i..i + 1]];
            var left := if s in g then g[s] else [];
            left == rest && g[w] == r &&
            (g - {w})[s := left[..i] + r + left[i..]] == (m - {w})[s := l[..i] + r + l[i + 1..]][t := [l[i]]]
  {
    var l := m[s];
    var rest := l[..i] + l[i + 1..];
    assert rest[..i] == l[..i] && rest[i..] == l[i + 1..];
    assert l[i..i + 1] == [l[i]];
  }

  /** `addHereThisAsNext`: newp and its list come before thisp. */
  method AddHereThisAsNext(thisp: AstNode, newp: AstNode, ghost f: Forest, ghost nodes: set<AstNode>)
    returns (ghost h: Forest)
    requires Valid(f, nodes) && thisp in nodes && thisp.backp != null
    requires Loose(newp) in f.lists && Placed(f, thisp) && f.slot[thisp] != Loose(newp)
    modifies nodes
    ensures Valid(h, nodes)
    ensures CanPut(f, nodes, f.slot[thisp], f.pos[thisp], newp) &&
            h.lists == Put(f, f.slot[thisp], f.pos[thisp], newp).lists
  {
    var handle := new AstNRelinker();
    LooseHead(f, nodes, newp);
    var oldp, g := thisp.UnlinkFrBackWithNext(handle, f, nodes);
    BeforeTaken(f, nodes, thisp, newp);
    var r, u := AstNode.AddNext(newp, thisp, g, nodes);
    BeforeIs(f, nodes, thisp, newp);
    BeforePoints(f, nodes, thisp, newp, g);
    h := newp.Relink(handle, f.slot[thisp], f.pos[thisp], u, nodes);
  }

  /** After the cut the list of newp and the list of thisp are loose. */
  lemma BeforeTaken(f: Forest, nodes: set<AstNode>, thisp: AstNode, newp: AstNode)
    requires IsLinked(f, thisp) && CanTake(f, nodes, f.slot[thisp], f.pos[thisp], |f.lists[f.slot[thisp]]|)
    requires Loose(newp) in f.lists && f.slot[thisp] != Loose(newp)
    ensures var g := Take(f, f.slot[thisp], f.pos[thisp], |f.lists[f.slot[thisp]]|);
            Struct(g, nodes) && Loose(thisp) in g.lists && Loose(newp) in g.lists &&
            g.lists[Loose(newp)] == f.lists[Loose(newp)] &&
            newp in nodes && newp != thisp && Placed(g, newp) && g.slot[newp] == Loose(newp)
  {
    TakeKnown(f, nodes, f.slot[thisp], f.pos[thisp], |f.lists[f.slot[thisp]]|);
    TakeStruct(f, nodes, f.slot[thisp], f.pos[thisp], |f.lists[f.slot[thisp]]|);
    LooseHead(f, nodes, newp);
    assert Placed(Take(f, f.slot[thisp], f.pos[thisp], |f.lists[f.slot[thisp]]|), newp);
  }

  /** The lists, step by step: the tail of s is cut off as t, put after w, and w put at the gap. */
  lemma BeforeLists(m: map<Slot, seq<AstNode>>, s: Slot, t: Slot, w: Slot, i: nat)
    requires s in m && w in m && t !in m && s != w && i < |m[s]|
    ensures var l, r := m[s], m[w];
            var rest := l[..i] + l[|l|..];
            var g := (if rest == [] then m - {s} else m[s := rest])[t := l[i..|l|]];
            var u := (g - {t})[w := r[..|r|] + l[i..|l|] + r[|r|..]];
            var left := if s in u then u[s] else [];
            left == rest && (u - {w})[s := left[..i] + u[w] + left[i..]] == (m - {w})[s := l[..i] + r + l[i..]]
  {
    var l, r := m[s], m[w];
    var rest := l[..i] + l[|l|..];
    assert rest == l[..i];
    assert r[..|r|] + l[i..|l|] + r[|r|..] == r + l[i..];
    assert rest[..i] + (r + l[i..]) + rest[i..] == l[..i] + r + l[i..];
  }

  lemma BeforeIs(f: Forest, nodes: set<AstNode>, thisp: AstNode, newp: AstNode)
    requires IsLinked(f, thisp) && CanTake(f, nodes, f.slot[thisp], f.pos[thisp], |f.lists[f.slot[thisp]]|)
    requires Loose(newp) in f.lists && f.slot[thisp] != Loose(newp)
    ensures CanPut(f, nodes, f.slot[thisp], f.pos[thisp], newp)
    ensures var s, i := f.slot[thisp], f.pos[thisp];
            var g, r := Take(f, s, i, |f.lists[s]|), f.lists[Loose(newp)];
            Loose(thisp) in g.lists && Loose(newp) in g.lists && g.lists[Loose(newp)] == r && newp != thisp &&
            var u := Put(g, Loose(newp), |r|, thisp);
            Loose(newp) in u.lists && i <= |ListAt(u, s)| && Put(u, s, i, newp).lists == Put(f, s, i, newp).lists
  {
    var s, i := f.slot[thisp], f.pos[thisp];
    BeforeTaken(f, nodes, thisp, newp);
    TakeKnown(f, nodes, s, i, |f.lists[s]|);
    assert SlotOk(s, f.lists[s], nodes);
    BeforeLists(f.lists, s, Loose(thisp), Loose(newp), i);
  }

  lemma BeforePoints(f: Forest, nodes: set<AstNode>, thisp: AstNode, newp: AstNode, g: Forest)
    requires IsLinked(f, thisp) && CanTake(f, nodes, f.slot[thisp], f.pos[thisp], |f.lists[f.slot[thisp]]|)
    requires g == Take(f, f.slot[thisp], f.pos[thisp], |f.lists[f.slot[thisp]]|) && Struct(g, nodes)
    requires f.slot[thisp] != Loose(newp) && Loose(newp) in g.lists && Loose(thisp) in g.lists && newp != thisp
    ensures PointsAt(Put(g, Loose(newp), |g.lists[Loose(newp)]|, thisp), nodes, Back(f, thisp), RelinkOf(f, thisp),
                     f.slot[thisp], f.pos[thisp])
  {
    GapKnown(f, nodes, thisp, |f.lists[f.slot[thisp]]|);
    var back := Back(f, thisp);
    if f.pos[thisp] > 0 {
      TakeKnown(f, nodes, f.slot[thisp], f.pos[thisp], |f.lists[f.slot[thisp]]|);
      assert SlotOk(Loose(newp), g.lists[Loose(newp)], nodes);
      PutKnown(g, nodes, Loose(newp), |g.lists[Loose(newp)]|, thisp);
      PutPlaced(g, Loose(newp), |g.lists[Loose(newp)]|, thisp, back);
    }
  }

  // ---------------------------------------------------------------- swapWith

  /** The gap of a once b is out too. */
  ghost function GapA(same: bool, i: nat, j: nat): int {
    if same && j < i then i - 1 else i
  }

  /** The place of b once a is out. */
  ghost function PlaceB(same: bool, i: nat, j: nat): int {
    if same && j > i then j - 1 else j
  }

  /** The gap of b once b is in the gap of a. */
  ghost function GapB(same: bool, i: nat, j: nat): int {
    if same && j == i + 1 then i else j
  }

  ghost function Without<T>(l: seq<T>, i: int): seq<T>
    requires 0 <= i < |l|
  {
    l[..i] + l[i + 1..]
  }

  ghost function With<T>(l: seq<T>, i: int, x: T): seq<T>
    requires 0 <= i <= |l|
  {
    l[..i] + [x] + l[i..]
  }

  lemma WithoutAt<T>(l: seq<T>, i: int, k: int)
    requires 0 <= i < |l| && 0 <= k < |l| - 1
    ensures Without(l, i)[k] == if k < i then l[k] else l[k + 1]
  {
  }

  lemma WithAt<T>(l: seq<T>, i: int, x: T, k: int)
    requires 0 <= i <= |l| && 0 <= k <= |l|
    ensures With(l, i, x)[k] == if k < i then l[k] else if k == i then x else l[k - 1]
  {
  }

  /** One place of the result. */
  lemma SwapAt<T>(l: seq<T>, i: nat, j: nat, k: nat)
    requires i < |l| && j < |l| && i != j && j + 1 != i && k < |l|
    ensures With(With(Without(Without(l, i), PlaceB(true, i, j)), GapA(true, i, j), l[j]), GapB(true, i, j), l[i])[k] ==
            if j == i + 1 then l[k] else if k == i then l[j] else if k == j then l[i] else l[k]
  {
    var l1 := Without(l, i);
    var l2 := Without(l1, PlaceB(true, i, j));
    var l3 := With(l2, GapA(true, i, j), l[j]);
    WithAt(l3, GapB(true, i, j), l[i], k);
    if k != GapB(true, i, j) {
      var k3: nat := if k < GapB(true, i, j) then k else k - 1;
      WithAt(l2, GapA(true, i, j), l[j], k3);
      if k3 != GapA(true, i, j) {
        var k2: nat := if k3 < GapA(true, i, j) then k3 else k3 - 1;
        WithoutAt(l1, PlaceB(true, i, j), k2);
        WithoutAt(l, i, if k2 < PlaceB(true, i, j) then k2 else k2 + 1);
      }
    }
  }

  /** Both out, and in again at the gaps. */
  lemma SwapSame<T>(l: seq<T>, i: nat, j: nat)
    requires i < |l| && j < |l| && i != j && j + 1 != i
    ensures 0 <= GapA(true, i, j) <= |l| - 2 && 0 <= PlaceB(true, i, j) < |l| - 1 && 0 <= GapB(true, i, j) < |l|
    ensures With(With(Without(Without(l, i), PlaceB(true, i, j)), GapA(true, i, j), l[j]), GapB(true, i, j), l[i]) ==
            if j == i + 1 then l else l[i := l[j]][j := l[i]]
  {
    var l4 := With(With(Without(Without(l, i), PlaceB(true, i, j)), GapA(true, i, j), l[j]), GapB(true, i, j), l[i]);
    var m := if j == i + 1 then l else l[i := l[j]][j := l[i]];
    assert |l4| == |m|;
    forall k: nat | k < |l| ensures l4[k] == m[k] { SwapAt(l, i, j, k); }
  }

  ghost predicate Swappable(f: Forest, nodes: set<AstNode>, a: AstNode, b: AstNode) {
    Struct(f, nodes) && a in nodes && b in nodes && a != b && IsLinked(f, a) && IsLinked(f, b) &&
    !(f.slot[a] == f.slot[b] && f.pos[b] + 1 == f.pos[a])
  }

  /** Once a is out, b is at pb. */
  lemma SwapFirst(f: Forest, nodes: set<AstNode>, a: AstNode, b: AstNode, g1: Forest)
    requires Swappable(f, nodes, a, b) && TakeFacts(f, f.slot[a], f.pos[a], f.pos[a] + 1)
    requires g1 == Take(f, f.slot[a], f.pos[a], f.pos[a] + 1)
    ensures IsLinked(g1, b) && g1.slot[b] == f.slot[b]
    ensures g1.pos[b] == PlaceB(f.slot[a] == f.slot[b], f.pos[a], f.pos[b])
  {
    TakePlaced(f, f.slot[a], f.pos[a], f.pos[a] + 1, b);
    assert SlotOk(f.slot[a], f.lists[f.slot[a]], nodes);
  }

  /** A gap keeps its meaning when a node that is not the one before it comes out. */
  lemma TakePoints(f: Forest, nodes: set<AstNode>, back: AstNode?, chg: RelinkWhat, s: Slot, i: nat, t: Slot, p: nat,
                   g: Forest)
    requires PointsAt(f, nodes, back, chg, s, i) && !(s == t && p + 1 == i)
    requires TakeFacts(f, t, p, p + 1) && g == Take(f, t, p, p + 1)
    ensures PointsAt(g, nodes, back, chg, s, if s == t && p < i then i - 1 else i)
  {
    if chg == RelinkNext { TakePlaced(f, t, p, p + 1, back); }
  }

  /** Once b is out, both relinkers mean their gaps. */
  lemma TwoGaps(f: Forest, nodes: set<AstNode>, b: AstNode, back: AstNode?, chg: RelinkWhat, s: Slot, i: nat, g: Forest)
    requires IsLinked(f, b) && CanTake(f, nodes, f.slot[b], f.pos[b], f.pos[b] + 1)
    requires TakeFacts(f, f.slot[b], f.pos[b], f.pos[b] + 1) && g == Take(f, f.slot[b], f.pos[b], f.pos[b] + 1)
    requires PointsAt(f, nodes, back, chg, s, i) && !(s == f.slot[b] && f.pos[b] + 1 == i)
    ensures PointsAt(g, nodes, back, chg, s, if s == f.slot[b] && f.pos[b] < i then i - 1 else i)
    ensures PointsAt(g, nodes, Back(f, b), RelinkOf(f, b), f.slot[b], f.pos[b])
    ensures f.pos[b] < |ListAt(f, f.slot[b])| && g.lists == TakeOne(f.lists, f.slot[b], f.pos[b])
  {
    GapKnown(f, nodes, b, f.pos[b] + 1);
    TakePoints(f, nodes, back, chg, s, i, f.slot[b], f.pos[b], g);
    TakeLists(f, f.slot[b], f.pos[b]);
  }

  /** And when a node goes in elsewhere. */
  lemma PutPoints(f: Forest, nodes: set<AstNode>, back: AstNode?, chg: RelinkWhat, s: Slot, i: nat, t: Slot, p: nat,
                  h: AstNode, g: Forest)
    requires PointsAt(f, nodes, back, chg, s, i) && s != Loose(h)
    requires PutFacts(f, t, p, h) && f.lists[Loose(h)] == [h] && g == Put(f, t, p, h)
    ensures PointsAt(g, nodes, back, chg, s, if s == t && p < i then i + 1 else i)
  {
    if chg == RelinkNext { PutPlaced(f, t, p, h, back); }
  }

  // ---------------------------------------------------------------- what the swap does

  type Lists = map<Slot, seq<AstNode>>

  /** What ListAt is for the lists of a forest. */
  ghost function ListIn(m: Lists, u: Slot): seq<AstNode> {
    if u in m then m[u] else []
  }

  /** Place i of the list at s becomes a list of its own. */
  ghost function TakeOne(m: Lists, s: Slot, i: nat): Lists
    requires i < |ListIn(m, s)|
  {
    var rest := Without(m[s], i);
    (if rest == [] then m - {s} else m[s := rest])[Loose(m[s][i]) := [m[s][i]]]
  }

  /** The node h, a list of its own, goes into the list at s. */
  ghost function PutOne(m: Lists, s: Slot, i: nat, h: AstNode): Lists
    requires i <= |ListIn(m, s)|
  {
    (m - {Loose(h)})[s := With(ListIn(m, s), i, h)]
  }

  lemma TakeLists(f: Forest, s: Slot, i: nat)
    requires TakeFacts(f, s, i, i + 1)
    ensures i < |ListIn(f.lists, s)| && Take(f, s, i, i + 1).lists == TakeOne(f.lists, s, i)
  {
    assert f.lists[s][i..i + 1] == [f.lists[s][i]];
  }

  lemma PutLists(f: Forest, s: Slot, i: nat, h: AstNode)
    requires PutFacts(f, s, i, h) && f.lists[Loose(h)] == [h]
    ensures i <= |ListIn(f.lists, s)| && Put(f, s, i, h).lists == PutOne(f.lists, s, i, h)
  {
  }

  lemma TakeAt(m: Lists, s: Slot, i: nat, u: Slot)
    requires i < |ListIn(m, s)|
    ensures ListIn(TakeOne(m, s, i), u) ==
            if u == Loose(m[s][i]) then [m[s][i]] else if u == s then Without(m[s], i) else ListIn(m, u)
  {
  }

  lemma PutAt(m: Lists, s: Slot, i: nat, h: AstNode, u: Slot)
    requires i <= |ListIn(m, s)|
    ensures ListIn(PutOne(m, s, i, h), u) ==
            if u == s then With(ListIn(m, s), i, h) else if u == Loose(h) then [] else ListIn(m, u)
  {
  }

  lemma ListAtTake(f: Forest, s: Slot, i: nat, u: Slot)
    requires TakeFacts(f, s, i, i + 1)
    ensures ListAt(Take(f, s, i, i + 1), u) ==
            if u == s then Without(f.lists[s], i)
            else if u == Loose(f.lists[s][i]) then [f.lists[s][i]]
            else ListAt(f, u)
  {
  }

  /** The lists with a and b in each other's places. */
  ghost function SwappedAt(m: Lists, s: Slot, t: Slot, i: nat, j: nat, u: Slot): seq<AstNode>
    requires i < |ListIn(m, s)| && j < |ListIn(m, t)|
  {
    var a, b := m[s][i], m[t][j];
    if s == t then (if u == s then m[s][i := b][j := a] else ListIn(m, u))
    else if u == s then m[s][i := b] else if u == t then m[t][j := a] else ListIn(m, u)
  }

  /** The two nodes in each other's places. */
  ghost function SwappedLists(f: Forest, a: AstNode, b: AstNode): Lists
    requires Placed(f, a) && Placed(f, b)
  {
    map u | u in f.lists :: SwappedAt(f.lists, f.slot[a], f.slot[b], f.pos[a], f.pos[b], u)
  }

  /** The lists before, and after each of the four steps. */
  ghost predicate FourSteps(m0: Lists, m1: Lists, m2: Lists, m3: Lists, m4: Lists, s: Slot, t: Slot, i: nat, j: nat,
                            a: AstNode, b: AstNode)
  {
    var pb, ga, gb := PlaceB(s == t, i, j), GapA(s == t, i, j), GapB(s == t, i, j);
    i < |ListIn(m0, s)| && m0[s][i] == a && m1 == TakeOne(m0, s, i) &&
    0 <= pb < |ListIn(m1, t)| && m1[t][pb] == b && m2 == TakeOne(m1, t, pb) &&
    0 <= ga <= |ListIn(m2, s)| && m3 == PutOne(m2, s, ga, b) &&
    0 <= gb <= |ListIn(m3, t)| && m4 == PutOne(m3, t, gb, a)
  }

  ghost predicate BothNew(m: Lists, s: Slot, t: Slot, i: nat, j: nat, a: AstNode, b: AstNode) {
    a != b && Loose(a) !in m && Loose(b) !in m && s in m && t in m && j < |m[t]| && m[t][j] == b &&
    !(s == t && (i == j || j + 1 == i))
  }

  /** Any list through the four steps. */
  lemma FourStepsAt(m0: Lists, m1: Lists, m2: Lists, m3: Lists, m4: Lists, s: Slot, t: Slot, i: nat, j: nat,
                    a: AstNode, b: AstNode, u: Slot)
    requires BothNew(m0, s, t, i, j, a, b) && FourSteps(m0, m1, m2, m3, m4, s, t, i, j, a, b)
    ensures ListIn(m4, u) == if s == t && j == i + 1 then ListIn(m0, u) else SwappedAt(m0, s, t, i, j, u)
  {
    var pb, ga, gb := PlaceB(s == t, i, j), GapA(s == t, i, j), GapB(s == t, i, j);
    TakeAt(m0, s, i, s);
    TakeAt(m0, s, i, t);
    TakeAt(m0, s, i, u);
    TakeAt(m1, t, pb, s);
    TakeAt(m1, t, pb, t);
    TakeAt(m1, t, pb, u);
    PutAt(m2, s, ga, b, t);
    PutAt(m2, s, ga, b, u);
    PutAt(m3, t, gb, a, u);
    if s == t {
      SwapSame(m0[s], i, j);
    } else {
      BackIn(m0[s], i, b);
      BackIn(m0[t], j, a);
    }
  }

  lemma BackIn<T>(l: seq<T>, i: nat, x: T)
    requires i < |l|
    ensures With(Without(l, i), i, x) == l[i := x]
  {
  }

  /** Lists are never empty, so the contents settle which ones there are. */
  lemma SameLists(m: Lists, k: Lists)
    requires (forall u {:trigger m[u]} :: u in m ==> m[u] != []) && (forall u {:trigger k[u]} :: u in k ==> k[u] != [])
    requires forall u {:trigger ListIn(k, u)} :: ListIn(k, u) == ListIn(m, u)
    ensures k == m
  {
    forall u | u in k ensures u in m && m[u] == k[u] { assert ListIn(k, u) == k[u]; }
    forall u | u in m ensures u in k { assert ListIn(k, u) != []; }
  }

  lemma NoneEmpty(f: Forest, nodes: set<AstNode>)
    requires Struct(f, nodes)
    ensures forall u {:trigger f.lists[u]} :: u in f.lists ==> f.lists[u] != []
  {
    forall u {:trigger f.lists[u]} | u in f.lists ensures f.lists[u] != [] { assert SlotOk(u, f.lists[u], nodes); }
  }

  /** The four steps add up to the swap. */
  lemma SwapLists(f: Forest, nodes: set<AstNode>, a: AstNode, b: AstNode, m1: Lists, m2: Lists, m3: Lists, h: Forest)
    requires Struct(f, nodes) && Struct(h, nodes) && Placed(f, a) && Placed(f, b)
    requires BothNew(f.lists, f.slot[a], f.slot[b], f.pos[a], f.pos[b], a, b)
    requires FourSteps(f.lists, m1, m2, m3, h.lists, f.slot[a], f.slot[b], f.pos[a], f.pos[b], a, b)
    ensures h.lists == if f.slot[a] == f.slot[b] && f.pos[b] == f.pos[a] + 1 then f.lists else SwappedLists(f, a, b)
  {
    var s, t, i, j := f.slot[a], f.slot[b], f.pos[a], f.pos[b];
    var m: Lists := if s == t && j == i + 1 then f.lists else SwappedLists(f, a, b);
    forall u {:trigger ListIn(h.lists, u)} ensures ListIn(h.lists, u) == ListIn(m, u) {
      FourStepsAt(f.lists, m1, m2, m3, h.lists, s, t, i, j, a, b, u);
    }
    NoneEmpty(f, nodes);
    NoneEmpty(h, nodes);
    SameLists(m, h.lists);
  }

  /** Neither node is the head of a loose list. */
  lemma SwapFresh(f: Forest, nodes: set<AstNode>, a: AstNode, b: AstNode)
    requires Swappable(f, nodes, a, b)
    ensures BothNew(f.lists, f.slot[a], f.slot[b], f.pos[a], f.pos[b], a, b)
  {
    TakeKnown(f, nodes, f.slot[a], f.pos[a], f.pos[a] + 1);
    TakeKnown(f, nodes, f.slot[b], f.pos[b], f.pos[b] + 1);
  }

  /** The four steps as the two relinkers take them. */
  lemma StepsAre(m0: Lists, m1: Lists, m2: Lists, m3: Lists, m4: Lists, s: Slot, t: Slot, i: nat, j: nat, a: AstNode,
                 b: AstNode, pb: nat, ga: nat, gb: nat)
    requires BothNew(m0, s, t, i, j, a, b) && pb == PlaceB(s == t, i, j) && ga == GapA(s == t, i, j)
    requires i < |m0[s]| && m0[s][i] == a && m1 == TakeOne(m0, s, i)
    requires pb < |ListIn(m1, t)| && m1[t][pb] == b && m2 == TakeOne(m1, t, pb)
    requires ga <= |ListIn(m2, s)| && m3 == PutOne(m2, s, ga, b)
    requires gb == (if s == t && ga < pb then pb + 1 else pb) && gb <= |ListIn(m3, t)| && m4 == PutOne(m3, t, gb, a)
    ensures FourSteps(m0, m1, m2, m3, m4, s, t, i, j, a, b)
  {
    GapLaws(s == t, i, j);
  }

  /** How the places move from step to step. */
  lemma GapLaws(same: bool, i: nat, j: nat)
    requires same ==> i != j && j + 1 != i
    ensures PlaceB(same, i, j) >= 0 && !(same && PlaceB(same, i, j) + 1 == i)
    ensures GapA(same, i, j) == if same && PlaceB(same, i, j) < i then i - 1 else i
    ensures GapB(same, i, j) ==
            if same && GapA(same, i, j) < PlaceB(same, i, j) then PlaceB(same, i, j) + 1 else PlaceB(same, i, j)
  {
  }

  /** In between, both are lists of their own. */
  lemma BothAlone(m0: Lists, m1: Lists, m2: Lists, s: Slot, t: Slot, i: nat, j: nat, pb: nat, a: AstNode, b: AstNode)
    requires BothNew(m0, s, t, i, j, a, b) && i < |m0[s]| && m0[s][i] == a && m1 == TakeOne(m0, s, i)
    requires pb == PlaceB(s == t, i, j) && pb < |ListIn(m1, t)| && m2 == TakeOne(m1, t, pb)
    ensures m1[t][pb] == b && ListIn(m2, Loose(a)) == [a] && ListIn(m2, Loose(b)) == [b]
    ensures s != Loose(a) && s != Loose(b) && t != Loose(a) && t != Loose(b)
  {
    TakeAt(m0, s, i, t);
    TakeAt(m0, s, i, Loose(a));
    TakeAt(m1, t, pb, Loose(a));
    TakeAt(m1, t, pb, Loose(b));
  }

  /** `swapWith`, unless thisp directly follows bp in a list. */
  method SwapWith(thisp: AstNode, bp: AstNode, ghost f: Forest, ghost nodes: set<AstNode>) returns (ghost h: Forest)
    requires Valid(f, nodes) && thisp in nodes && bp in nodes && thisp != bp && Placed(f, thisp) && Placed(f, bp)
    requires thisp.backp != null && bp.backp != null && bp.nextp != thisp
    modifies nodes
    ensures Valid(h, nodes)
    ensures h.lists == if old(thisp.nextp) == bp then f.lists else SwappedLists(f, thisp, bp)
  {
    SwapStart(f, nodes, thisp, bp);
    ghost var s, t, i, j := f.slot[thisp], f.slot[bp], f.pos[thisp], f.pos[bp];
    ghost var pb: nat := PlaceB(s == t, i, j);
    SwapFresh(f, nodes, thisp, bp);
    var aHandle := new AstNRelinker();
    var bHandle := new AstNRelinker();
    var m1, g2 := TakeBoth(thisp, bp, aHandle, bHandle, f, nodes, s, t, i, j, pb);
    BothAlone(f.lists, m1, g2.lists, s, t, i, j, pb, thisp, bp);
    ghost var m3;
    ghost var ga: nat := GapA(s == t, i, j);
    h, m3 := Reinsert(thisp, bp, aHandle, bHandle, g2, nodes, s, t, ga, pb);
    ghost var gb: nat := if s == t && ga < pb then pb + 1 else pb;
    StepsAre(f.lists, m1, g2.lists, m3, h.lists, s, t, i, j, thisp, bp, pb, ga, gb);
    SwapLists(f, nodes, thisp, bp, m1, g2.lists, m3, h);
  }

  lemma StillLinked(g: Forest, nodes: set<AstNode>, b: AstNode)
    requires Valid(g, nodes) && b in nodes && IsLinked(g, b)
    ensures Placed(g, b) && b.backp != null
  {
    Linked(g, nodes, b);
  }

  /** The two unlinks. */
  method TakeBoth(thisp: AstNode, bp: AstNode, aHandle: AstNRelinker, bHandle: AstNRelinker, ghost f: Forest,
                  ghost nodes: set<AstNode>, ghost s: Slot, ghost t: Slot, ghost i: nat, ghost j: nat, ghost pb: nat)
    returns (ghost m1: Lists, ghost g2: Forest)
    requires Valid(f, nodes) && Swappable(f, nodes, thisp, bp) && thisp.backp != null && aHandle != bHandle
    requires s == f.slot[thisp] && t == f.slot[bp] && i == f.pos[thisp] && j == f.pos[bp] && pb == PlaceB(s == t, i, j)
    modifies nodes, aHandle, bHandle
    ensures Valid(g2, nodes) && i < |ListIn(f.lists, s)| && f.lists[s][i] == thisp && m1 == TakeOne(f.lists, s, i)
    ensures pb < |ListIn(m1, t)| && g2.lists == TakeOne(m1, t, pb)
    ensures PointsAt(g2, nodes, aHandle.backp, aHandle.chg, s, GapA(s == t, i, j))
    ensures PointsAt(g2, nodes, bHandle.backp, bHandle.chg, t, pb)
  {
    GapLaws(s == t, i, j);
    var g1 := TakeFirst(thisp, bp, aHandle, f, nodes, s, t, i, j);
    g2 := TakeSecond(thisp, bp, aHandle, bHandle, g1, nodes, s, t, i, pb);
    m1 := g1.lists;
  }

  /** thisp comes out. */
  method TakeFirst(thisp: AstNode, bp: AstNode, aHandle: AstNRelinker, ghost f: Forest, ghost nodes: set<AstNode>,
                   ghost s: Slot, ghost t: Slot, ghost i: nat, ghost j: nat)
    returns (ghost g1: Forest)
    requires Valid(f, nodes) && Swappable(f, nodes, thisp, bp) && thisp.backp != null
    requires s == f.slot[thisp] && t == f.slot[bp] && i == f.pos[thisp] && j == f.pos[bp]
    modifies nodes, aHandle
    ensures Valid(g1, nodes) && PointsAt(g1, nodes, aHandle.backp, aHandle.chg, s, i)
    ensures i < |ListIn(f.lists, s)| && f.lists[s][i] == thisp && g1.lists == TakeOne(f.lists, s, i)
    ensures IsLinked(g1, bp) && g1.slot[bp] == t && g1.pos[bp] == PlaceB(s == t, i, j) && bp.backp != null
  {
    var r1;
    r1, g1 := thisp.UnlinkFrBack(aHandle, f, nodes);
    GapKnown(f, nodes, thisp, i + 1);
    TakeLists(f, s, i);
    SwapFirst(f, nodes, thisp, bp, g1);
    StillLinked(g1, nodes, bp);
  }

  /** bp comes out. */
  method TakeSecond(thisp: AstNode, bp: AstNode, aHandle: AstNRelinker, bHandle: AstNRelinker, ghost g1: Forest,
                    ghost nodes: set<AstNode>, ghost s: Slot, ghost t: Slot, ghost i: nat, ghost pb: nat)
    returns (ghost g2: Forest)
    requires Valid(g1, nodes) && bp in nodes && bp.backp != null && aHandle != bHandle
    requires IsLinked(g1, bp) && t == g1.slot[bp] && pb == g1.pos[bp] && !(s == t && pb + 1 == i)
    requires PointsAt(g1, nodes, aHandle.backp, aHandle.chg, s, i)
    modifies nodes, bHandle
    ensures Valid(g2, nodes) && pb < |ListIn(g1.lists, t)| && g2.lists == TakeOne(g1.lists, t, pb)
    ensures PointsAt(g2, nodes, aHandle.backp, aHandle.chg, s, if s == t && pb < i then i - 1 else i)
    ensures PointsAt(g2, nodes, bHandle.backp, bHandle.chg, t, pb)
  {
    ghost var back, chg := aHandle.backp, aHandle.chg;
    var r2;
    r2, g2 := bp.UnlinkFrBack(bHandle, g1, nodes);
    TwoGaps(g1, nodes, bp, back, chg, s, i, g2);
  }

  /** Both nodes go back, each by the other's relinker. */
  method Reinsert(thisp: AstNode, bp: AstNode, aHandle: AstNRelinker, bHandle: AstNRelinker,
                  ghost g2: Forest, ghost nodes: set<AstNode>, ghost s: Slot, ghost t: Slot, ghost ga: nat,
                  ghost pb: nat)
    returns (ghost h: Forest, ghost m3: Lists)
    requires Valid(g2, nodes) && thisp in nodes && bp in nodes && thisp != bp && aHandle != bHandle
    requires ListIn(g2.lists, Loose(thisp)) == [thisp] && ListIn(g2.lists, Loose(bp)) == [bp]
    requires s != Loose(thisp) && s != Loose(bp) && t != Loose(thisp) && t != Loose(bp)
    requires PointsAt(g2, nodes, aHandle.backp, aHandle.chg, s, ga)
    requires PointsAt(g2, nodes, bHandle.backp, bHandle.chg, t, pb)
    modifies nodes, aHandle`backp, bHandle`backp
    ensures Valid(h, nodes) && ga <= |ListIn(g2.lists, s)| && m3 == PutOne(g2.lists, s, ga, bp)
    ensures var gb: nat := if s == t && ga < pb then pb + 1 else pb;
            gb <= |ListIn(m3, t)| && h.lists == PutOne(m3, t, gb, thisp)
  {
    ghost var gb: nat := if s == t && ga < pb then pb + 1 else pb;
    var g3 := bp.Relink(aHandle, s, ga, g2, nodes);
    PutPoints(g2, nodes, bHandle.backp, bHandle.chg, t, pb, s, ga, bp, g3);
    PutLists(g2, s, ga, bp);
    PutAt(g2.lists, s, ga, bp, Loose(thisp));
    h := thisp.Relink(bHandle, t, gb, g3, nodes);
    PutLists(g3, t, gb, thisp);
    m3 := g3.lists;
  }

  lemma SwapStart(f: Forest, nodes: set<AstNode>, a: AstNode, b: AstNode)
    requires Valid(f, nodes) && a in nodes && b in nodes && a != b && a.backp != null && b.backp != null && b.nextp != a
    requires Placed(f, a) && Placed(f, b)
    ensures Swappable(f, nodes, a, b)
    ensures a.nextp == b <==> f.slot[a] == f.slot[b] && f.pos[b] == f.pos[a] + 1
  {
    OutEnds(f, nodes, a);
    OutEnds(f, nodes, b);
    Linked(f, nodes, a);
    Linked(f, nodes, b);
    if a.nextp == b { assert Filed(f, f.slot[a], f.pos[a] + 1); }
  }

  // ---------------------------------------------------------------- where swapWith fails

  /** A node points back to itself only as its own operand. */
  lemma NotSelfBack(f: Forest, nodes: set<AstNode>, b: AstNode)
    requires Valid(f, nodes) && b in nodes && b.op1p != b && b.op2p != b && b.op3p != b && b.op4p != b
    ensures b.backp != b
  {
    Linked(f, nodes, b);
    if f.pos[b] > 0 {
      assert Filed(f, f.slot[b], f.pos[b] - 1);
    } else {
      assert SlotOk(f.slot[b], f.lists[f.slot[b]], nodes);
      assert ListAt(f, f.slot[b]) == f.lists[f.slot[b]];
    }
  }

  lemma NoForest(nodes: set<AstNode>, b: AstNode)
    requires b in nodes && b.backp == b && b.op1p != b && b.op2p != b && b.op3p != b && b.op4p != b
    ensures forall g: Forest {:trigger Valid(g, nodes)} :: !Valid(g, nodes)
  {
    forall g: Forest {:trigger Valid(g, nodes)} ensures !Valid(g, nodes) {
      if Valid(g, nodes) { NotSelfBack(g, nodes, b); }
    }
  }

  lemma Follows(f: Forest, nodes: set<AstNode>, thisp: AstNode, bp: AstNode)
    requires Valid(f, nodes) && thisp in nodes && bp in nodes && bp.backp != null && bp.nextp == thisp
    ensures IsLinked(f, bp) && Placed(f, thisp) && f.slot[thisp] == f.slot[bp] && f.pos[thisp] == f.pos[bp] + 1
    ensures thisp.backp == bp == Back(f, thisp)
  {
    OutEnds(f, nodes, bp);
    Linked(f, nodes, bp);
    Linked(f, nodes, thisp);
    assert Filed(f, f.slot[bp], f.pos[bp] + 1);
  }

  /** Once thisp is out, bp is where it was. */
  lemma FollowedStays(f: Forest, nodes: set<AstNode>, thisp: AstNode, bp: AstNode, g1: Forest)
    requires IsLinked(f, bp) && Placed(f, thisp) && f.slot[thisp] == f.slot[bp] && f.pos[thisp] == f.pos[bp] + 1
    requires TakeFacts(f, f.slot[thisp], f.pos[thisp], f.pos[thisp] + 1) && thisp != bp
    requires g1 == Take(f, f.slot[thisp], f.pos[thisp], f.pos[thisp] + 1)
    ensures IsLinked(g1, bp) && g1.slot[bp] == f.slot[bp] && g1.pos[bp] == f.pos[bp]
    ensures ListAt(g1, Loose(thisp)) == [thisp] && g1.slot[bp] != Loose(thisp)
  {
    TakePlaced(f, f.slot[thisp], f.pos[thisp], f.pos[thisp] + 1, bp);
    ListAtTake(f, f.slot[thisp], f.pos[thisp], Loose(thisp));
  }

  /** Both nodes are lists of their own; the second relinker means the place i of the list at s. */
  ghost predicate BothOut(g2: Forest, nodes: set<AstNode>, thisp: AstNode, bp: AstNode, back: AstNode?, chg: RelinkWhat,
                          s: Slot, i: nat)
  {
    thisp in nodes && bp in nodes && thisp != bp &&
    ListAt(g2, Loose(thisp)) == [thisp] && ListAt(g2, Loose(bp)) == [bp] &&
    PointsAt(g2, nodes, back, chg, s, i) && s != Loose(thisp) && s != Loose(bp)
  }

  lemma GapOfBp(g1: Forest, g2: Forest, nodes: set<AstNode>, thisp: AstNode, bp: AstNode)
    requires IsLinked(g1, bp) && CanTake(g1, nodes, g1.slot[bp], g1.pos[bp], g1.pos[bp] + 1)
    requires thisp in nodes && bp in nodes && thisp != bp
    requires TakeFacts(g1, g1.slot[bp], g1.pos[bp], g1.pos[bp] + 1)
    requires g2 == Take(g1, g1.slot[bp], g1.pos[bp], g1.pos[bp] + 1)
    requires ListAt(g1, Loose(thisp)) == [thisp] && g1.slot[bp] != Loose(thisp)
    ensures BothOut(g2, nodes, thisp, bp, Back(g1, bp), RelinkOf(g1, bp), g1.slot[bp], g1.pos[bp])
  {
    GapKnown(g1, nodes, bp, g1.pos[bp] + 1);
    ListAtTake(g1, g1.slot[bp], g1.pos[bp], Loose(bp));
    ListAtTake(g1, g1.slot[bp], g1.pos[bp], Loose(thisp));
  }

  /** A list of one node: its pointers, and who cannot point to it. */
  lemma AloneLinks(f: Forest, nodes: set<AstNode>, b: AstNode)
    requires Valid(f, nodes) && b in nodes && ListAt(f, Loose(b)) == [b]
    ensures Placed(f, b) && f.slot[b] == Loose(b) && f.pos[b] == 0
    ensures b.nextp == null && b.headtailp == b && b.backp == null
    ensures b.op1p != b && b.op2p != b && b.op3p != b && b.op4p != b
  {
    Linked(f, nodes, b);
    assert Filed(f, Loose(b), 0);
    NotOperand(f, nodes, b, b, 1);
    NotOperand(f, nodes, b, b, 2);
    NotOperand(f, nodes, b, b, 3);
    NotOperand(f, nodes, b, b, 4);
  }

  lemma NotOperand(f: Forest, nodes: set<AstNode>, b: AstNode, p: AstNode, k: nat)
    requires Struct(f, nodes) && b in f.slot && f.slot[b] == Loose(b)
    ensures First(ListAt(f, Op(p, k))) != b
  {
    if ListAt(f, Op(p, k)) != [] { assert Filed(f, Op(p, k), 0); }
  }

  lemma NotNext(f: Forest, nodes: set<AstNode>, b: AstNode, n: AstNode)
    requires Valid(f, nodes) && n in nodes && b in f.slot && b in f.pos && f.pos[b] == 0
    ensures n.nextp != b
  {
    Linked(f, nodes, n);
    if f.pos[n] + 1 < |f.lists[f.slot[n]]| { assert Filed(f, f.slot[n], f.pos[n] + 1); }
  }

  /** The pointers that relinking thisp as a list of its own starts from; bp is none of them. */
  ghost predicate CanRelink(nodes: set<AstNode>, thisp: AstNode, bp: AstNode, back: AstNode?, chg: RelinkWhat)
    reads nodes
  {
    thisp in nodes && bp in nodes && thisp != bp && thisp.headtailp == thisp && NotOwn(bp) &&
    back != null && back in nodes &&
    match chg
    case RelinkNext => NextFits(nodes, thisp, bp, back)
    case RelinkOp(k) => 1 <= k <= 4 && OpFits(nodes, thisp, bp, back.OpPtr(k))
    case RelinkBad => false
  }

  ghost predicate NotOwn(b: AstNode)
    reads b
  {
    b.op1p != b && b.op2p != b && b.op3p != b && b.op4p != b
  }

  ghost predicate NextFits(nodes: set<AstNode>, thisp: AstNode, bp: AstNode, back: AstNode)
    reads back
  {
    back != thisp && back.nextp != bp && back.headtailp != thisp &&
    (back.nextp != null ==> back.nextp in nodes) && (back.headtailp != null ==> back.headtailp in nodes)
  }

  ghost predicate OpFits(nodes: set<AstNode>, thisp: AstNode, bp: AstNode, first: AstNode?)
    reads nodes
  {
    first != null ==> first in nodes && first.headtailp != null && first.headtailp in nodes &&
                      first != thisp && first.headtailp != thisp && first != bp
  }

  lemma RelinkReady(g2: Forest, nodes: set<AstNode>, thisp: AstNode, bp: AstNode, back: AstNode?, chg: RelinkWhat,
                    s: Slot, i: nat)
    requires Valid(g2, nodes) && BothOut(g2, nodes, thisp, bp, back, chg, s, i)
    ensures CanRelink(nodes, thisp, bp, back, chg)
  {
    AloneLinks(g2, nodes, thisp);
    AloneLinks(g2, nodes, bp);
    match chg
    case RelinkNext =>
      HereCanPut(g2, nodes, back, thisp);
      HereEnds(g2, nodes, back, thisp);
      NotNext(g2, nodes, bp, back);
    case RelinkOp(k) =>
      OpCanPut(g2, nodes, back, k, thisp);
      OpEnds(g2, nodes, back, k, thisp);
      NotOperand(g2, nodes, bp, back, k);
    case RelinkBad =>
  }

  /** `swapWith` of a node with the one right before it. The first relinker names bp itself, so
      bp is added after itself: it ends up pointing back to itself and out of every list, while
      thisp has only taken its place. No forest describes the heap. */
  method SwapBackward(thisp: AstNode, bp: AstNode, ghost f: Forest, ghost nodes: set<AstNode>)
    requires Valid(f, nodes) && thisp in nodes && bp in nodes && thisp != bp && bp.backp != null && bp.nextp == thisp
    modifies nodes
    ensures bp.backp == bp && forall g: Forest {:trigger Valid(g, nodes)} :: !Valid(g, nodes)
  {
    Follows(f, nodes, thisp, bp);
    var aHandle := new AstNRelinker();
    var bHandle := new AstNRelinker();
    var r1, g1 := thisp.UnlinkFrBack(aHandle, f, nodes);
    FollowedStays(f, nodes, thisp, bp, g1);
    StillLinked(g1, nodes, bp);
    var r2, g2 := bp.UnlinkFrBack(bHandle, g1, nodes);
    GapOfBp(g1, g2, nodes, thisp, bp);
    RelinkReady(g2, nodes, thisp, bp, bHandle.backp, bHandle.chg, g1.slot[bp], g1.pos[bp]);
    AloneLinks(g2, nodes, bp);
    SelfRelink(bp, aHandle, thisp, bHandle.backp, bHandle.chg, nodes);
    RelinkBeside(thisp, bHandle, bp, nodes);
    NoForest(nodes, bp);
  }

  /** `relink` of bp after itself. */
  method SelfRelink(bp: AstNode, aHandle: AstNRelinker, ghost thisp: AstNode, ghost back2: AstNode?,
                    ghost chg2: RelinkWhat,
                    ghost nodes: set<AstNode>)
    requires bp in nodes && bp.nextp == null && bp.headtailp == bp && aHandle.backp == bp && aHandle.chg == RelinkNext
    requires CanRelink(nodes, thisp, bp, back2, chg2)
    modifies nodes`nextp, nodes`backp, nodes`headtailp, aHandle`backp
    ensures CanRelink(nodes, thisp, bp, back2, chg2) && bp.backp == bp
  {
    var back: AstNode := aHandle.backp;
    back.LinkHere(bp, nodes);
    assert bp.Pointers() == old(bp.Pointers()).(back := bp);
    bp.backp := back;
    aHandle.backp := null;
    assert thisp.Pointers() == old(thisp.Pointers()) && bp.Pointers() == old(bp.Pointers()).(back := bp);
    assert back2 != bp ==> back2.Pointers() == old(back2.Pointers());
    ghost var first := if chg2.RelinkOp? then old(back2.OpPtr(chg2.k)) else null;
    assert chg2.RelinkOp? ==> back2.OpPtr(chg2.k) == first;
    assert first != null ==> first.Pointers() == old(first.Pointers());
  }

  /** `relink` of thisp where bp was. It leaves bp as it is. */
  method RelinkBeside(thisp: AstNode, linkerp: AstNRelinker, ghost bp: AstNode, ghost nodes: set<AstNode>)
    requires CanRelink(nodes, thisp, bp, linkerp.backp, linkerp.chg) && bp.backp == bp
    modifies nodes, linkerp`backp
    ensures bp.backp == bp && NotOwn(bp)
  {
    var back: AstNode := linkerp.backp;
    match linkerp.chg {
      case RelinkNext =>
        back.LinkHere(thisp, nodes);
        assert bp.Pointers().back == bp;
      case RelinkOp(k) =>
        back.RelinkOneLink(k, thisp, nodes);
        assert bp.Pointers().back == bp;
    }
    thisp.backp := back;
    linkerp.backp := null;
  }

  /** `swapWith` leaves a tree exactly when thisp does not directly follow bp. Both branches are
      the same four steps. */
  method SwapOutcome(thisp: AstNode, bp: AstNode, ghost f: Forest, ghost nodes: set<AstNode>)
    requires Valid(f, nodes) && thisp in nodes && bp in nodes && thisp != bp && Placed(f, thisp) && Placed(f, bp)
    requires thisp.backp != null && bp.backp != null
    modifies nodes
    ensures (exists h: Forest {:trigger Valid(h, nodes)} :: Valid(h, nodes)) <==> old(bp.nextp) != thisp
  {
    if bp.nextp != thisp {
      ghost var h := SwapWith(thisp, bp, f, nodes);
    } else {
      SwapBackward(thisp, bp, f, nodes);
    }
  }
}
