/** The shape that AST links stand for: lists of nodes, each list either hanging from one of
    the four operands of a node or not linked to anything. All edits of V3Ast.cpp are made of
    two operations on that shape: putting a loose list into another list, and taking a stretch
    of a list out. */
module AstForest {

  /** Where a list hangs: loose (named by its first node), or from operand k of a node. */
  datatype Slot = Loose(head: AstNode) | Op(parent: AstNode, k: nat)

  datatype Forest = Forest(lists: map<Slot, seq<AstNode>>, slot: map<AstNode, Slot>, pos: map<AstNode, nat>)

  ghost predicate Placed(f: Forest, n: AstNode) {
    n in f.slot && n in f.pos && f.slot[n] in f.lists &&
    f.pos[n] < |f.lists[f.slot[n]]| && f.lists[f.slot[n]][f.pos[n]] == n
  }

  ghost predicate Filed(f: Forest, s: Slot, i: nat)
    requires s in f.lists && i < |f.lists[s]|
  {
    var n := f.lists[s][i];
    n in f.slot && n in f.pos && f.slot[n] == s && f.pos[n] == i
  }

  ghost predicate SlotOk(s: Slot, l: seq<AstNode>, nodes: set<AstNode>) {
    l != [] &&
    match s
    case Loose(head) => l[0] == head
    case Op(parent, k) => parent in nodes && 1 <= k <= 4
  }

  /** Every node is in one place of one list. */
  ghost predicate Struct(f: Forest, nodes: set<AstNode>) {
    f.slot.Keys == nodes && f.pos.Keys == nodes &&
    (forall n {:trigger Placed(f, n)} :: n in nodes ==> Placed(f, n)) &&
    (forall s, i: nat {:trigger Filed(f, s, i)} :: s in f.lists && i < |f.lists[s]| ==> Filed(f, s, i)) &&
    (forall s {:trigger SlotOk(s, f.lists[s], nodes)} :: s in f.lists ==> SlotOk(s, f.lists[s], nodes))
  }

  ghost function ListAt(f: Forest, s: Slot): seq<AstNode> {
    if s in f.lists then f.lists[s] else []
  }

  // ---------------------------------------------------------------- the links of a place

  ghost function Next(f: Forest, n: AstNode): AstNode?
    requires Placed(f, n)
  {
    var l, i := f.lists[f.slot[n]], f.pos[n];
    if i + 1 < |l| then l[i + 1] else null
  }

  ghost function Holder(s: Slot): AstNode? {
    if s.Op? then s.parent else null
  }

  ghost function Back(f: Forest, n: AstNode): AstNode?
    requires Placed(f, n)
  {
    var l, i := f.lists[f.slot[n]], f.pos[n];
    if i > 0 then l[i - 1] else Holder(f.slot[n])
  }

  ghost function HeadTail(f: Forest, n: AstNode): AstNode?
    requires Placed(f, n)
  {
    var l, i := f.lists[f.slot[n]], f.pos[n];
    if i == 0 then l[|l| - 1] else if i == |l| - 1 then l[0] else null
  }

  ghost function First(l: seq<AstNode>): AstNode? {
    if l == [] then null else l[0]
  }

  // ---------------------------------------------------------------- putting in

  /** The loose list of h goes into the list at s, before its place i. */
  ghost function Put(f: Forest, s: Slot, i: nat, h: AstNode): Forest
    requires Loose(h) in f.lists && s != Loose(h) && i <= |ListAt(f, s)| && f.slot.Keys == f.pos.Keys
  {
    var l, r := ListAt(f, s), f.lists[Loose(h)];
    Forest((f.lists - {Loose(h)})[s := l[..i] + r + l[i..]],
           map n | n in f.slot :: if f.slot[n] == Loose(h) then s else f.slot[n],
           map n | n in f.slot :: if f.slot[n] == Loose(h) then i + f.pos[n]
                                  else if f.slot[n] == s && f.pos[n] >= i then f.pos[n] + |r| else f.pos[n])
  }

  ghost predicate CanPut(f: Forest, nodes: set<AstNode>, s: Slot, i: nat, h: AstNode) {
    Struct(f, nodes) && Loose(h) in f.lists && s != Loose(h) && i <= |ListAt(f, s)| &&
    match s
    case Loose(head) => i > 0
    case Op(parent, k) => parent in nodes && 1 <= k <= 4
  }

  /** The same without quantifiers: the nodes at the ends and at the joints are where they are. */
  ghost predicate PutFacts(f: Forest, s: Slot, i: nat, h: AstNode) {
    Loose(h) in f.lists && s != Loose(h) && i <= |ListAt(f, s)| && f.slot.Keys == f.pos.Keys &&
    f.lists[Loose(h)] != [] && f.lists[Loose(h)][0] == h &&
    Filed(f, Loose(h), 0) && Filed(f, Loose(h), |f.lists[Loose(h)]| - 1) &&
    (i > 0 ==> Filed(f, s, i - 1)) && (i < |ListAt(f, s)| ==> Filed(f, s, i)) &&
    (ListAt(f, s) != [] ==> Filed(f, s, 0) && Filed(f, s, |ListAt(f, s)| - 1))
  }

  lemma PutKnown(f: Forest, nodes: set<AstNode>, s: Slot, i: nat, h: AstNode)
    requires CanPut(f, nodes, s, i, h)
    ensures PutFacts(f, s, i, h)
  {
    assert SlotOk(Loose(h), f.lists[Loose(h)], nodes);
  }

  lemma PutPlaced(f: Forest, s: Slot, i: nat, h: AstNode, n: AstNode)
    requires PutFacts(f, s, i, h) && Placed(f, n)
    ensures Placed(Put(f, s, i, h), n)
  {
  }

  lemma PutFiled(f: Forest, nodes: set<AstNode>, s: Slot, i: nat, h: AstNode, t: Slot, j: nat)
    requires CanPut(f, nodes, s, i, h)
    requires var g := Put(f, s, i, h); t in g.lists && j < |g.lists[t]|
    ensures Filed(Put(f, s, i, h), t, j)
  {
    var l, r := ListAt(f, s), f.lists[Loose(h)];
    if t != s {
      assert Filed(f, t, j);
    } else if j < i {
      assert Filed(f, s, j);
    } else if j < i + |r| {
      assert Filed(f, Loose(h), j - i);
    } else {
      assert Filed(f, s, j - |r|);
    }
  }

  lemma PutStruct(f: Forest, nodes: set<AstNode>, s: Slot, i: nat, h: AstNode)
    requires CanPut(f, nodes, s, i, h)
    ensures Struct(Put(f, s, i, h), nodes)
  {
    var g := Put(f, s, i, h);
    PutKnown(f, nodes, s, i, h);
    forall n | n in nodes ensures Placed(g, n) { PutPlaced(f, s, i, h, n); }
    forall t, j: nat | t in g.lists && j < |g.lists[t]| ensures Filed(g, t, j) { PutFiled(f, nodes, s, i, h, t, j); }
    forall t | t in g.lists ensures SlotOk(t, g.lists[t], nodes) { PutSlotOk(f, nodes, s, i, h, t); }
  }

  lemma PutSlotOk(f: Forest, nodes: set<AstNode>, s: Slot, i: nat, h: AstNode, t: Slot)
    requires CanPut(f, nodes, s, i, h) && t in Put(f, s, i, h).lists
    ensures SlotOk(t, Put(f, s, i, h).lists[t], nodes)
  {
    assert SlotOk(Loose(h), f.lists[Loose(h)], nodes);
    if t in f.lists { assert SlotOk(t, f.lists[t], nodes); }
  }

  /** The links that putting in changes. */
  lemma PutNext(f: Forest, s: Slot, i: nat, h: AstNode, n: AstNode)
    requires PutFacts(f, s, i, h) && Placed(f, n) && Placed(Put(f, s, i, h), n)
    ensures var l, r := ListAt(f, s), f.lists[Loose(h)];
            Next(Put(f, s, i, h), n) ==
            if i > 0 && n == l[i - 1] then h
            else if n == r[|r| - 1] then (if i < |l| then l[i] else null)
            else Next(f, n)
  {
  }

  lemma PutBack(f: Forest, s: Slot, i: nat, h: AstNode, n: AstNode)
    requires PutFacts(f, s, i, h) && Placed(f, n) && Placed(Put(f, s, i, h), n)
    ensures var l, r := ListAt(f, s), f.lists[Loose(h)];
            Back(Put(f, s, i, h), n) ==
            if n == h then (if i > 0 then l[i - 1] else Holder(s))
            else if i < |l| && n == l[i] then r[|r| - 1]
            else Back(f, n)
  {
  }

  lemma PutHeadTail(f: Forest, s: Slot, i: nat, h: AstNode, n: AstNode)
    requires PutFacts(f, s, i, h) && Placed(f, n) && Placed(Put(f, s, i, h), n)
    ensures var l, r := ListAt(f, s), f.lists[Loose(h)];
            var head := if i > 0 then l[0] else h;
            var tail := if i < |l| then l[|l| - 1] else r[|r| - 1];
            HeadTail(Put(f, s, i, h), n) ==
            if n == head then tail
            else if n == tail then head
            else if n == h || n == r[|r| - 1] || (l != [] && (n == l[0] || n == l[|l| - 1])) then null
            else HeadTail(f, n)
  {
  }

  // ---------------------------------------------------------------- taking out

  /** The places i up to j of the list at s become a loose list. */
  ghost function Take(f: Forest, s: Slot, i: nat, j: nat): Forest
    requires s in f.lists && i < j <= |f.lists[s]| && f.slot.Keys == f.pos.Keys
  {
    var l := f.lists[s];
    var rest := l[..i] + l[j..];
    Forest((if rest == [] then f.lists - {s} else f.lists[s := rest])[Loose(l[i]) := l[i..j]],
           map n | n in f.slot :: if f.slot[n] == s && i <= f.pos[n] < j then Loose(l[i]) else f.slot[n],
           map n | n in f.slot :: if f.slot[n] == s && i <= f.pos[n] < j then f.pos[n] - i
                                  else if f.slot[n] == s && f.pos[n] >= j then f.pos[n] - (j - i) else f.pos[n])
  }

  /** A node that is linked from somewhere: not the head of a loose list. */
  ghost predicate CanTake(f: Forest, nodes: set<AstNode>, s: Slot, i: nat, j: nat) {
    Struct(f, nodes) && s in f.lists && i < j <= |f.lists[s]| && (s.Op? || i > 0)
  }

  ghost predicate TakeFacts(f: Forest, s: Slot, i: nat, j: nat) {
    s in f.lists && i < j <= |f.lists[s]| && f.slot.Keys == f.pos.Keys && Loose(f.lists[s][i]) !in f.lists &&
    Filed(f, s, i) && Filed(f, s, j - 1) && (i > 0 ==> Filed(f, s, i - 1)) && (j < |f.lists[s]| ==> Filed(f, s, j)) &&
    Filed(f, s, 0) && Filed(f, s, |f.lists[s]| - 1)
  }

  lemma LooseHead(f: Forest, nodes: set<AstNode>, h: AstNode)
    requires Struct(f, nodes) && Loose(h) in f.lists
    ensures h in f.slot && f.slot[h] == Loose(h) && h in f.pos && f.pos[h] == 0
  {
    assert SlotOk(Loose(h), f.lists[Loose(h)], nodes);
    assert Filed(f, Loose(h), 0);
  }

  /** In particular, the name of the new loose list is free. */
  lemma TakeKnown(f: Forest, nodes: set<AstNode>, s: Slot, i: nat, j: nat)
    requires CanTake(f, nodes, s, i, j)
    ensures TakeFacts(f, s, i, j) && SlotOk(s, f.lists[s], nodes)
  {
    var h := f.lists[s][i];
    assert Filed(f, s, i);
    assert SlotOk(s, f.lists[s], nodes);
    if Loose(h) in f.lists { LooseHead(f, nodes, h); }
  }

  lemma TakePlaced(f: Forest, s: Slot, i: nat, j: nat, n: AstNode)
    requires TakeFacts(f, s, i, j) && Placed(f, n)
    ensures Placed(Take(f, s, i, j), n)
  {
    var l, p := f.lists[s], f.pos[n];
    var rest := l[..i] + l[j..];
    if f.slot[n] == s {
      if p < i {
        assert rest[p] == n;
      } else if p < j {
        assert l[i..j][p - i] == n;
      } else {
        assert rest[p - (j - i)] == n;
      }
    }
  }

  lemma TakeFiled(f: Forest, nodes: set<AstNode>, s: Slot, i: nat, j: nat, t: Slot, m: nat)
    requires CanTake(f, nodes, s, i, j) && Loose(f.lists[s][i]) !in f.lists
    requires var g := Take(f, s, i, j); t in g.lists && m < |g.lists[t]|
    ensures Filed(Take(f, s, i, j), t, m)
  {
    if t == Loose(f.lists[s][i]) {
      assert Filed(f, s, i + m);
    } else if t != s {
      assert Filed(f, t, m);
    } else if m < i {
      assert Filed(f, s, m);
    } else {
      assert Filed(f, s, m + (j - i));
    }
  }

  lemma TakeStruct(f: Forest, nodes: set<AstNode>, s: Slot, i: nat, j: nat)
    requires CanTake(f, nodes, s, i, j)
    ensures Struct(Take(f, s, i, j), nodes)
  {
    var g := Take(f, s, i, j);
    TakeKnown(f, nodes, s, i, j);
    forall n | n in nodes ensures Placed(g, n) { TakePlaced(f, s, i, j, n); }
    forall t, m: nat | t in g.lists && m < |g.lists[t]| ensures Filed(g, t, m) { TakeFiled(f, nodes, s, i, j, t, m); }
    forall t | t in g.lists ensures SlotOk(t, g.lists[t], nodes) { TakeSlotOk(f, nodes, s, i, j, t); }
  }

  lemma TakeSlotOk(f: Forest, nodes: set<AstNode>, s: Slot, i: nat, j: nat, t: Slot)
    requires CanTake(f, nodes, s, i, j) && t in Take(f, s, i, j).lists
    ensures SlotOk(t, Take(f, s, i, j).lists[t], nodes)
  {
    assert SlotOk(s, f.lists[s], nodes);
    if t in f.lists { assert SlotOk(t, f.lists[t], nodes); }
  }

  lemma TakeNext(f: Forest, s: Slot, i: nat, j: nat, n: AstNode)
    requires TakeFacts(f, s, i, j) && Placed(f, n) && Placed(Take(f, s, i, j), n)
    ensures var l := f.lists[s];
            Next(Take(f, s, i, j), n) ==
            if i > 0 && n == l[i - 1] then (if j < |l| then l[j] else null)
            else if n == l[j - 1] then null
            else Next(f, n)
  {
  }

  lemma TakeBack(f: Forest, s: Slot, i: nat, j: nat, n: AstNode)
    requires TakeFacts(f, s, i, j) && Placed(f, n) && Placed(Take(f, s, i, j), n)
    ensures var l := f.lists[s];
            Back(Take(f, s, i, j), n) ==
            if n == l[i] then null
            else if j < |l| && n == l[j] then (if i > 0 then l[i - 1] else Holder(s))
            else Back(f, n)
  {
  }

  lemma TakeHeadTail(f: Forest, s: Slot, i: nat, j: nat, n: AstNode)
    requires TakeFacts(f, s, i, j) && Placed(f, n) && Placed(Take(f, s, i, j), n)
    ensures var l := f.lists[s];
            HeadTail(Take(f, s, i, j), n) ==
            if n == l[i] then l[j - 1]
            else if n == l[j - 1] then l[i]
            else if i == 0 && j == |l| then HeadTail(f, n)
            else
              var head := if i > 0 then l[0] else l[j];
              var tail := if j < |l| then l[|l| - 1] else l[i - 1];
              if n == head then tail else if n == tail then head else HeadTail(f, n)
  {
  }

  // ---------------------------------------------------------------- round trip

  lemma PutTakeLists(m: map<Slot, seq<AstNode>>, s: Slot, h: Slot, i: nat, j: nat)
    requires s in m && h !in m && i < j <= |m[s]|
    ensures var l := m[s];
            var rest := l[..i] + l[j..];
            var taken := (if rest == [] then m - {s} else m[s := rest])[h := l[i..j]];
            var left := if s in taken then taken[s] else [];
            left == rest && (taken - {h})[s := left[..i] + taken[h] + left[i..]] == m
  {
    var l := m[s];
    var rest := l[..i] + l[j..];
    assert rest[..i] + l[i..j] + rest[i..] == l;
  }

  lemma PutTakeAt(f: Forest, s: Slot, i: nat, j: nat, n: AstNode, h: AstNode, g: Forest)
    requires TakeFacts(f, s, i, j) && Placed(f, n) && h == f.lists[s][i]
    requires g == Take(f, s, i, j) && PutFacts(g, s, i, h)
    ensures Put(g, s, i, h).slot[n] == f.slot[n] && Put(g, s, i, h).pos[n] == f.pos[n]
  {
  }

  /** Putting a taken stretch back where it was restores the forest. */
  lemma PutTake(f: Forest, nodes: set<AstNode>, s: Slot, i: nat, j: nat)
    requires CanTake(f, nodes, s, i, j)
    ensures CanPut(Take(f, s, i, j), nodes, s, i, f.lists[s][i]) && Put(Take(f, s, i, j), s, i, f.lists[s][i]) == f
  {
    TakeStruct(f, nodes, s, i, j);
    TakeKnown(f, nodes, s, i, j);
    var h := f.lists[s][i];
    var g := Take(f, s, i, j);
    PutTakeLists(f.lists, s, Loose(h), i, j);
    assert CanPut(g, nodes, s, i, h);
    PutKnown(g, nodes, s, i, h);
    var us, up, fs, fp := Put(g, s, i, h).slot, Put(g, s, i, h).pos, f.slot, f.pos;
    forall n | n in nodes ensures us[n] == fs[n] && up[n] == fp[n] {
      PutTakeAt(f, s, i, j, n, h, g);
    }
    SameMap(us, fs);
    SameMap(up, fp);
  }

  lemma SameMap<T>(a: map<AstNode, T>, b: map<AstNode, T>)
    requires a.Keys == b.Keys && forall n :: n in a ==> a[n] == b[n]
    ensures a == b
  {
  }

  // ---------------------------------------------------------------- heap and forest

  /** The seven pointers of a node. */
  datatype Links = Links(next: AstNode?, back: AstNode?, headtail: AstNode?,
                         op1: AstNode?, op2: AstNode?, op3: AstNode?, op4: AstNode?)

  ghost function WithOp(was: Links, k: nat, p: AstNode?): Links {
    match k
    case 1 => was.(op1 := p)
    case 2 => was.(op2 := p)
    case 3 => was.(op3 := p)
    case 4 => was.(op4 := p)
    case _ => was
  }

  ghost function OpOf(ls: Links, k: nat): AstNode? {
    match k
    case 1 => ls.op1
    case 2 => ls.op2
    case 3 => ls.op3
    case 4 => ls.op4
    case _ => null
  }

  /** The pointers that a place calls for. */
  ghost function PlaceLinks(f: Forest, n: AstNode): Links
    requires Placed(f, n)
  {
    Links(Next(f, n), Back(f, n), HeadTail(f, n), First(ListAt(f, Op(n, 1))), First(ListAt(f, Op(n, 2))),
          First(ListAt(f, Op(n, 3))), First(ListAt(f, Op(n, 4))))
  }

  /** The fields of n are the links of its place. */
  ghost predicate LinksAre(f: Forest, n: AstNode)
    reads n
  {
    Placed(f, n) && n.Pointers() == PlaceLinks(f, n)
  }

  /** The heap is linked as the forest says. */
  ghost predicate Valid(f: Forest, nodes: set<AstNode>)
    reads nodes
  {
    Struct(f, nodes) && forall n {:trigger LinksAre(f, n)} :: n in nodes ==> LinksAre(f, n)
  }

  lemma Linked(f: Forest, nodes: set<AstNode>, n: AstNode)
    requires Valid(f, nodes) && n in nodes
    ensures Placed(f, n) && n.Pointers() == PlaceLinks(f, n)
  {
    assert LinksAre(f, n);
  }

  lemma PutOps(f: Forest, s: Slot, i: nat, h: AstNode, p: AstNode, k: nat)
    requires PutFacts(f, s, i, h)
    ensures First(ListAt(Put(f, s, i, h), Op(p, k))) ==
            if s == Op(p, k) && i == 0 then h else First(ListAt(f, Op(p, k)))
  {
  }

  lemma TakeOps(f: Forest, s: Slot, i: nat, j: nat, p: AstNode, k: nat)
    requires TakeFacts(f, s, i, j)
    ensures var l := f.lists[s];
            First(ListAt(Take(f, s, i, j), Op(p, k))) ==
            if s == Op(p, k) && i == 0 then (if j < |l| then l[j] else null) else First(ListAt(f, Op(p, k)))
  {
  }

  // ---------------------------------------------------------------- insertion after a node

  /** The pointers of n once `addNextHere` has put h, ..., last after t, where nx and ht were the
      next and headtail pointers of t. */
  ghost function HereLinks(n: AstNode, t: AstNode, h: AstNode, last: AstNode?, nx: AstNode?, ht: AstNode?,
                           was: Links): Links {
    var next := if n == t then h else if n == last then nx else was.next;
    var back := if n == h then t else if n == nx then last else was.back;
    var headtail :=
      if ht != null && (ht == t || nx == null) then
        if n == last then ht else if n == ht then last else if n == t || n == h then null else was.headtail
      else
        if n == h || n == last then null else was.headtail;
    was.(next := next, back := back, headtail := headtail)
  }

  lemma HereCanPut(f: Forest, nodes: set<AstNode>, t: AstNode, h: AstNode)
    requires Struct(f, nodes) && t in nodes && Loose(h) in f.lists && f.slot[t] != Loose(h)
    ensures Placed(f, t) && CanPut(f, nodes, f.slot[t], f.pos[t] + 1, h) && PutFacts(f, f.slot[t], f.pos[t] + 1, h)
    ensures Placed(f, h) && h in nodes && f.slot[h] == Loose(h) && f.pos[h] == 0
  {
    assert Placed(f, t);
    assert SlotOk(f.slot[t], f.lists[f.slot[t]], nodes);
    PutKnown(f, nodes, f.slot[t], f.pos[t] + 1, h);
    LooseHead(f, nodes, h);
    assert Placed(f, h);
  }

  /** The pointers that `addNextHere` starts from. */
  lemma HereEnds(f: Forest, nodes: set<AstNode>, t: AstNode, h: AstNode)
    requires Valid(f, nodes) && t in nodes && h in nodes && Placed(f, t) && Placed(f, h)
    requires f.slot[h] == Loose(h) && f.pos[h] == 0 && f.slot[t] != Loose(h) && PutFacts(f, f.slot[t], f.pos[t] + 1, h)
    ensures var r := f.lists[Loose(h)]; h.headtailp == r[|r| - 1] && r[|r| - 1] in nodes && h.backp == null
    ensures t.nextp == Next(f, t) && t.headtailp == HeadTail(f, t)
    ensures t.nextp != null ==> t.nextp in nodes
    ensures t.headtailp != null ==> t.headtailp in nodes
    ensures t != h && t != h.headtailp && t.headtailp != h.headtailp && t.headtailp != h
  {
    Linked(f, nodes, h);
    Linked(f, nodes, t);
    var l := f.lists[f.slot[t]];
    var r := f.lists[Loose(h)];
    assert Filed(f, f.slot[t], 0) && Filed(f, f.slot[t], |l| - 1);
    assert Filed(f, Loose(h), |r| - 1);
    if f.pos[t] + 1 < |l| { assert Filed(f, f.slot[t], f.pos[t] + 1); }
  }

  lemma TailEnds(f: Forest, nodes: set<AstNode>, t: AstNode, h: AstNode)
    requires Valid(f, nodes) && t in nodes && h in nodes && Placed(f, t) && Placed(f, h)
    requires f.slot[h] == Loose(h) && f.pos[h] == 0 && f.pos[t] + 1 == |f.lists[f.slot[t]]|
    ensures h.headtailp != null && h.headtailp.nextp == null && t.nextp == null && t.headtailp != null
  {
    Linked(f, nodes, h);
    Linked(f, nodes, t);
    assert Filed(f, Loose(h), |f.lists[Loose(h)]| - 1);
    Linked(f, nodes, h.headtailp);
  }

  lemma HereIsPut(f: Forest, t: AstNode, h: AstNode, n: AstNode)
    requires Placed(f, t) && Placed(f, n) && PutFacts(f, f.slot[t], f.pos[t] + 1, h)
    requires Placed(Put(f, f.slot[t], f.pos[t] + 1, h), n)
    ensures var r := f.lists[Loose(h)];
            PlaceLinks(Put(f, f.slot[t], f.pos[t] + 1, h), n) ==
            HereLinks(n, t, h, r[|r| - 1], Next(f, t), HeadTail(f, t), PlaceLinks(f, n))
  {
    var s, i: nat := f.slot[t], f.pos[t] + 1;
    PutNext(f, s, i, h, n);
    PutBack(f, s, i, h, n);
    PutHeadTail(f, s, i, h, n);
    PutOps(f, s, i, h, n, 1);
    PutOps(f, s, i, h, n, 2);
    PutOps(f, s, i, h, n, 3);
    PutOps(f, s, i, h, n, 4);
  }

  lemma HereValid(f: Forest, t: AstNode, h: AstNode, n: AstNode, was: Links, g: Forest)
    requires Placed(f, n) && was == PlaceLinks(f, n) && Placed(f, t) && PutFacts(f, f.slot[t], f.pos[t] + 1, h)
    requires g == Put(f, f.slot[t], f.pos[t] + 1, h) && Placed(g, n)
    requires var r := f.lists[Loose(h)];
             n.Pointers() == HereLinks(n, t, h, r[|r| - 1], Next(f, t), HeadTail(f, t), was)
    ensures LinksAre(g, n)
  {
    HereIsPut(f, t, h, n);
  }

  // ---------------------------------------------------------------- insertion at an operand

  /** The pointers of n once the list h, ..., last is linked before first, ..., firstlast. */
  ghost function FrontLinks(n: AstNode, h: AstNode, last: AstNode?, first: AstNode?, firstlast: AstNode?,
                            was: Links): Links {
    was.(next := if n == last then first else was.next,
         back := if n == first then last else was.back,
         headtail := if n == firstlast then h else if n == h then firstlast
                     else if n == first || n == last then null else was.headtail)
  }

  /** The pointers of n once `relink` has put h, ..., last at operand k of p, where first was and
      firstlast was its headtail pointer. */
  ghost function OpLinks(n: AstNode, p: AstNode, k: nat, h: AstNode, last: AstNode?, first: AstNode?,
                         firstlast: AstNode?,
                         was: Links): Links
  {
    var front := if first == null then was else FrontLinks(n, h, last, first, firstlast, was);
    var ls := if n == h then front.(back := p) else front;
    if n == p then WithOp(ls, k, h) else ls
  }

  lemma OpCanPut(f: Forest, nodes: set<AstNode>, p: AstNode, k: nat, h: AstNode)
    requires Struct(f, nodes) && p in nodes && 1 <= k <= 4 && Loose(h) in f.lists
    ensures CanPut(f, nodes, Op(p, k), 0, h) && PutFacts(f, Op(p, k), 0, h)
    ensures Placed(f, h) && h in nodes && f.slot[h] == Loose(h) && f.pos[h] == 0
  {
    PutKnown(f, nodes, Op(p, k), 0, h);
    LooseHead(f, nodes, h);
    assert Placed(f, h);
  }

  /** The last node of the operand's list. */
  ghost function Last(l: seq<AstNode>): AstNode? {
    if l == [] then null else l[|l| - 1]
  }

  /** The pointers that `relinkOneLink` starts from. */
  lemma OpEnds(f: Forest, nodes: set<AstNode>, p: AstNode, k: nat, h: AstNode)
    requires Valid(f, nodes) && p in nodes && 1 <= k <= 4 && h in nodes && Placed(f, h)
    requires f.slot[h] == Loose(h) && f.pos[h] == 0 && PutFacts(f, Op(p, k), 0, h)
    ensures var r, l := f.lists[Loose(h)], ListAt(f, Op(p, k));
            h.headtailp == r[|r| - 1] && r[|r| - 1] in nodes && h.headtailp.nextp == null && h.backp == null &&
            OpOf(p.Pointers(), k) == First(l) &&
            (l != [] ==> l[0] in nodes && l[0].headtailp == l[|l| - 1] &&
                         l[|l| - 1] in nodes && l[|l| - 1].nextp == null &&
                         l[0] != h && l[0] != r[|r| - 1] && l[|l| - 1] != h && l[|l| - 1] != r[|r| - 1])
  {
    var r, l := f.lists[Loose(h)], ListAt(f, Op(p, k));
    Linked(f, nodes, h);
    Linked(f, nodes, p);
    assert Filed(f, Loose(h), |r| - 1);
    Linked(f, nodes, r[|r| - 1]);
    if l != [] {
      assert Filed(f, Op(p, k), 0) && Filed(f, Op(p, k), |l| - 1);
      Linked(f, nodes, l[0]);
      Linked(f, nodes, l[|l| - 1]);
    }
  }

  lemma OpIsPut(f: Forest, p: AstNode, k: nat, h: AstNode, n: AstNode)
    requires Placed(f, n) && 1 <= k <= 4 && PutFacts(f, Op(p, k), 0, h) && Placed(Put(f, Op(p, k), 0, h), n)
    ensures var r, l := f.lists[Loose(h)], ListAt(f, Op(p, k));
            PlaceLinks(Put(f, Op(p, k), 0, h), n) ==
            OpLinks(n, p, k, h, r[|r| - 1], First(l), Last(l), PlaceLinks(f, n))
  {
    PutNext(f, Op(p, k), 0, h, n);
    PutBack(f, Op(p, k), 0, h, n);
    PutHeadTail(f, Op(p, k), 0, h, n);
    PutOps(f, Op(p, k), 0, h, n, 1);
    PutOps(f, Op(p, k), 0, h, n, 2);
    PutOps(f, Op(p, k), 0, h, n, 3);
    PutOps(f, Op(p, k), 0, h, n, 4);
  }

  lemma OpValid(f: Forest, p: AstNode, k: nat, h: AstNode, n: AstNode, was: Links)
    requires Placed(f, n) && was == PlaceLinks(f, n) && 1 <= k <= 4 && PutFacts(f, Op(p, k), 0, h)
    requires Placed(Put(f, Op(p, k), 0, h), n)
    requires var r, l := f.lists[Loose(h)], ListAt(f, Op(p, k));
             n.Pointers() == OpLinks(n, p, k, h, r[|r| - 1], First(l), Last(l), was)
    ensures LinksAre(Put(f, Op(p, k), 0, h), n)
  {
    OpIsPut(f, p, k, h, n);
  }

  // ---------------------------------------------------------------- removal of one node

  /** A node that follows another one leaves its list. */
  ghost function ListOutLinks(n: AstNode, t: AstNode, b: AstNode?, nx: AstNode?, ht: AstNode?, was: Links): Links {
    if n == t then was.(next := null, back := null, headtail := t)
    else was.(next := if n == b then nx else was.next,
              back := if n == nx then b else was.back,
              headtail := if ht == null then was.headtail
                          else if n == ht then b else if n == b then ht else was.headtail)
  }

  ghost function HeadOutLinks(n: AstNode, t: AstNode, p: AstNode?, nx: AstNode?, ht: AstNode?, was: Links): Links {
    if n == t then was.(next := null, back := null, headtail := t)
    else was.(back := if n == nx then p else was.back,
              headtail := if nx == null then was.headtail
                          else if n == ht then nx else if n == nx then ht else was.headtail)
  }

  /** The first node of operand k of p leaves its list. */
  ghost function OpOutLinks(n: AstNode, t: AstNode, p: AstNode?, k: nat, nx: AstNode?, ht: AstNode?,
                            was: Links): Links {
    var ls := HeadOutLinks(n, t, p, nx, ht, was);
    if n == p then WithOp(ls, k, nx) else ls
  }

  /** Either of them: k is 0 for a node that follows another one. */
  ghost function OutLinks(n: AstNode, t: AstNode, b: AstNode?, k: nat, nx: AstNode?, ht: AstNode?, was: Links): Links {
    if k == 0 then ListOutLinks(n, t, b, nx, ht, was) else OpOutLinks(n, t, b, k, nx, ht, was)
  }

  /** The operand that a node is the first of, or 0. */
  ghost function FirstOf(f: Forest, t: AstNode): nat
    requires Placed(f, t)
  {
    if f.pos[t] == 0 && f.slot[t].Op? then f.slot[t].k else 0
  }

  /** Something points to t. */
  ghost predicate IsLinked(f: Forest, t: AstNode) {
    Placed(f, t) && (f.pos[t] > 0 || (f.slot[t].Op? && 1 <= f.slot[t].k <= 4))
  }

  /** The pointers that the unlinking methods start from. */
  lemma OutEnds(f: Forest, nodes: set<AstNode>, t: AstNode)
    requires Valid(f, nodes) && t in nodes && t.backp != null
    ensures IsLinked(f, t) && CanTake(f, nodes, f.slot[t], f.pos[t], f.pos[t] + 1)
    ensures TakeFacts(f, f.slot[t], f.pos[t], f.pos[t] + 1)
    ensures t.backp == Back(f, t) && t.nextp == Next(f, t) && t.headtailp == HeadTail(f, t) && t.backp in nodes
    ensures t.nextp != null ==> t.nextp in nodes && t.nextp != t
    ensures t.headtailp != null ==> t.headtailp in nodes
  {
    Linked(f, nodes, t);
    var s, i := f.slot[t], f.pos[t];
    assert SlotOk(s, f.lists[s], nodes);
    TakeKnown(f, nodes, s, i, i + 1);
  }

  lemma OutListEnds(f: Forest, nodes: set<AstNode>, t: AstNode)
    requires Valid(f, nodes) && t in nodes && IsLinked(f, t) && f.pos[t] > 0
    ensures t.backp != null && t.backp in nodes && t.backp.nextp == t && t.backp != t && t.headtailp != t
    ensures t.nextp != null ==> t.nextp != t.backp
  {
    var s, i := f.slot[t], f.pos[t];
    assert Filed(f, s, i - 1) && Filed(f, s, 0);
    if i + 1 < |f.lists[s]| { assert Filed(f, s, i + 1); }
    Linked(f, nodes, t);
    Linked(f, nodes, f.lists[s][i - 1]);
  }

  lemma OutOpEnds(f: Forest, nodes: set<AstNode>, t: AstNode)
    requires Valid(f, nodes) && t in nodes && IsLinked(f, t) && f.pos[t] == 0
    ensures t.backp == f.slot[t].parent && t.backp in nodes && t.backp.nextp != t
    ensures t.nextp != null ==> t.headtailp != null && t.headtailp != t
    ensures t.backp.OnlyOp(t, f.slot[t].k)
  {
    var s := f.slot[t];
    assert SlotOk(s, f.lists[s], nodes);
    assert Filed(f, s, |f.lists[s]| - 1);
    Linked(f, nodes, t);
    Linked(f, nodes, s.parent);
    OutParent(f, nodes, s.parent, s.k, t);
  }

  lemma OutParent(f: Forest, nodes: set<AstNode>, p: AstNode, k: nat, t: AstNode)
    requires Struct(f, nodes) && Placed(f, p) && p.Pointers() == PlaceLinks(f, p)
    requires Placed(f, t) && f.slot[t] == Op(p, k) && f.pos[t] == 0
    ensures p.nextp != t && p.OnlyOp(t, k)
  {
    if Next(f, p) != null { assert Filed(f, f.slot[p], f.pos[p] + 1); }
    OutParentOp(f, nodes, p, 1, k, t);
    OutParentOp(f, nodes, p, 2, k, t);
    OutParentOp(f, nodes, p, 3, k, t);
    OutParentOp(f, nodes, p, 4, k, t);
  }

  lemma OutParentOp(f: Forest, nodes: set<AstNode>, p: AstNode, j: nat, k: nat, t: AstNode)
    requires Struct(f, nodes) && Placed(f, t) && f.slot[t] == Op(p, k) && f.pos[t] == 0
    ensures First(ListAt(f, Op(p, j))) == t <==> j == k
  {
    if ListAt(f, Op(p, j)) != [] { assert Filed(f, Op(p, j), 0); }
  }

  lemma OutIsTake(f: Forest, t: AstNode, n: AstNode)
    requires IsLinked(f, t) && Placed(f, n) && TakeFacts(f, f.slot[t], f.pos[t], f.pos[t] + 1)
    requires Placed(Take(f, f.slot[t], f.pos[t], f.pos[t] + 1), n)
    ensures PlaceLinks(Take(f, f.slot[t], f.pos[t], f.pos[t] + 1), n) ==
            OutLinks(n, t, Back(f, t), FirstOf(f, t), Next(f, t), HeadTail(f, t), PlaceLinks(f, n))
  {
    var s, i, j: nat := f.slot[t], f.pos[t], f.pos[t] + 1;
    TakeNext(f, s, i, j, n);
    TakeBack(f, s, i, j, n);
    TakeHeadTail(f, s, i, j, n);
    TakeOps(f, s, i, j, n, 1);
    TakeOps(f, s, i, j, n, 2);
    TakeOps(f, s, i, j, n, 3);
    TakeOps(f, s, i, j, n, 4);
  }

  lemma OutValid(f: Forest, t: AstNode, n: AstNode, was: Links)
    requires IsLinked(f, t) && Placed(f, n) && was == PlaceLinks(f, n)
    requires TakeFacts(f, f.slot[t], f.pos[t], f.pos[t] + 1) && Placed(Take(f, f.slot[t], f.pos[t], f.pos[t] + 1), n)
    requires n.Pointers() == OutLinks(n, t, Back(f, t), FirstOf(f, t), Next(f, t), HeadTail(f, t), was)
    ensures LinksAre(Take(f, f.slot[t], f.pos[t], f.pos[t] + 1), n)
  {
    OutIsTake(f, t, n);
  }

  // ---------------------------------------------------------------- removal of a node and all after it

  ghost function CutLinks(n: AstNode, t: AstNode, b: AstNode?, k: nat, tail: AstNode?, head: AstNode?,
                          was: Links): Links {
    if k == 0 then
      was.(next := if n == b then null else was.next,
           back := if n == t then null else was.back,
           headtail := if n == tail then t else if n == t then tail else if n == b then head else if n == head then b
                       else was.headtail)
    else
      var ls := if n == t then was.(back := null) else was;
      if n == b then WithOp(ls, k, null) else ls
  }

  lemma CutEnds(f: Forest, nodes: set<AstNode>, t: AstNode)
    requires Valid(f, nodes) && t in nodes && IsLinked(f, t) && f.pos[t] > 0
    ensures var l := f.lists[f.slot[t]];
            l[|l| - 1] in nodes && l[|l| - 1].headtailp == l[0] && l[0] in nodes &&
            t.backp != null && t.backp in nodes && t.backp != t && t.backp != l[|l| - 1] &&
            l[0] != t && l[0] != l[|l| - 1]
  {
    var s, i := f.slot[t], f.pos[t];
    var l := f.lists[s];
    assert Filed(f, s, 0) && Filed(f, s, i - 1) && Filed(f, s, |l| - 1);
    Linked(f, nodes, t);
    Linked(f, nodes, l[|l| - 1]);
  }

  lemma CutCanTake(f: Forest, nodes: set<AstNode>, t: AstNode)
    requires Struct(f, nodes) && IsLinked(f, t)
    ensures CanTake(f, nodes, f.slot[t], f.pos[t], |f.lists[f.slot[t]]|)
    ensures TakeFacts(f, f.slot[t], f.pos[t], |f.lists[f.slot[t]]|)
  {
    TakeKnown(f, nodes, f.slot[t], f.pos[t], |f.lists[f.slot[t]]|);
  }

  lemma CutIsTake(f: Forest, t: AstNode, n: AstNode)
    requires IsLinked(f, t) && Placed(f, n) && TakeFacts(f, f.slot[t], f.pos[t], |f.lists[f.slot[t]]|)
    requires Placed(Take(f, f.slot[t], f.pos[t], |f.lists[f.slot[t]]|), n)
    ensures var l := f.lists[f.slot[t]];
            PlaceLinks(Take(f, f.slot[t], f.pos[t], |l|), n) ==
            CutLinks(n, t, Back(f, t), FirstOf(f, t), Last(l), First(l), PlaceLinks(f, n))
  {
    var s, i, j: nat := f.slot[t], f.pos[t], |f.lists[f.slot[t]]|;
    TakeNext(f, s, i, j, n);
    TakeBack(f, s, i, j, n);
    TakeHeadTail(f, s, i, j, n);
    TakeOps(f, s, i, j, n, 1);
    TakeOps(f, s, i, j, n, 2);
    TakeOps(f, s, i, j, n, 3);
    TakeOps(f, s, i, j, n, 4);
  }

  lemma CutValid(f: Forest, t: AstNode, n: AstNode, was: Links)
    requires IsLinked(f, t) && Placed(f, n) && was == PlaceLinks(f, n)
    requires TakeFacts(f, f.slot[t], f.pos[t], |f.lists[f.slot[t]]|)
    requires Placed(Take(f, f.slot[t], f.pos[t], |f.lists[f.slot[t]]|), n)
    requires var l := f.lists[f.slot[t]];
             n.Pointers() == CutLinks(n, t, Back(f, t), FirstOf(f, t), Last(l), First(l), was)
    ensures LinksAre(Take(f, f.slot[t], f.pos[t], |f.lists[f.slot[t]]|), n)
  {
    CutIsTake(f, t, n);
  }

  // ---------------------------------------------------------------- the relinker

  datatype RelinkWhat = RelinkBad | RelinkNext | RelinkOp(k: nat)

  /** In f the relinker's pointers mean the place i of the list at s. */
  ghost predicate PointsAt(f: Forest, nodes: set<AstNode>, back: AstNode?, chg: RelinkWhat, s: Slot, i: nat) {
    back != null && back in nodes && GapOf(f, back, chg) == Gap(s, i)
  }

  datatype Gap = Gap(slot: Slot, place: nat) | NoGap

  ghost function GapOf(f: Forest, back: AstNode, chg: RelinkWhat): Gap {
    match chg
    case RelinkNext => if Placed(f, back) then Gap(f.slot[back], f.pos[back] + 1) else NoGap
    case RelinkOp(k) => if 1 <= k <= 4 then Gap(Op(back, k), 0) else NoGap
    case RelinkBad => NoGap
  }

  /** What is recorded for a linked node. */
  ghost function RelinkOf(f: Forest, t: AstNode): RelinkWhat
    requires Placed(f, t)
  {
    if f.pos[t] > 0 then RelinkNext else if f.slot[t].Op? then RelinkOp(f.slot[t].k) else RelinkBad
  }

  /** The record means the gap that the node leaves. */
  lemma GapKnown(f: Forest, nodes: set<AstNode>, t: AstNode, j: nat)
    requires IsLinked(f, t) && CanTake(f, nodes, f.slot[t], f.pos[t], j)
    ensures PointsAt(Take(f, f.slot[t], f.pos[t], j), nodes, Back(f, t), RelinkOf(f, t), f.slot[t], f.pos[t])
  {
    var s, i := f.slot[t], f.pos[t];
    TakeKnown(f, nodes, s, i, j);
    if i > 0 { assert Placed(f, f.lists[s][i - 1]); TakePlaced(f, s, i, j, f.lists[s][i - 1]); }
  }

  /** `AstNRelinker`: where a node was unlinked from. */
  class AstNRelinker {
    var oldp: AstNode?
    var backp: AstNode?
    var chg: RelinkWhat

    constructor ()
      ensures oldp == null && backp == null && chg == RelinkBad
    {
      oldp, backp, chg := null, null, RelinkBad;
    }

    method Record(node: AstNode, back: AstNode, ghost k: nat)
      requires back.nextp != node ==> 1 <= k <= 4 && back.OnlyOp(node, k)
      modifies this
      ensures oldp == node && backp == back
      ensures chg == if back.nextp == node then RelinkNext else RelinkOp(k)
    {
      oldp, backp := node, back;
      if back.nextp == node { chg := RelinkNext; }
      else if back.op1p == node { chg := RelinkOp(1); }
      else if back.op2p == node { chg := RelinkOp(2); }
      else if back.op3p == node { chg := RelinkOp(3); }
      else { chg := RelinkOp(4); }
    }
  }

  // ---------------------------------------------------------------- the nodes

  /** The link fields of `AstNode`, and an opaque payload. */
  class AstNode {
    var nextp: AstNode?
    var backp: AstNode?
    var op1p: AstNode?
    var op2p: AstNode?
    var op3p: AstNode?
    var op4p: AstNode?
    var headtailp: AstNode?
    const payload: int

    constructor (payload: int)
      ensures Pointers() == Links(null, null, this, null, null, null, null) && this.payload == payload
    {
      nextp, backp, headtailp := null, null, this;
      op1p, op2p, op3p, op4p := null, null, null, null;
      this.payload := payload;
    }

    ghost function Pointers(): Links
      reads this
    {
      Links(nextp, backp, headtailp, op1p, op2p, op3p, op4p)
    }

    /** Operand k and no other points to t. */
    ghost predicate OnlyOp(t: AstNode, k: nat)
      reads this
    {
      (op1p == t <==> k == 1) && (op2p == t <==> k == 2) && (op3p == t <==> k == 3) && (op4p == t <==> k == 4)
    }

    /** The pointer `m_opNp`. */
    function OpPtr(k: nat): AstNode?
      reads this
      ensures OpPtr(k) == OpOf(Pointers(), k)
    {
      match k
      case 1 => op1p
      case 2 => op2p
      case 3 => op3p
      case 4 => op4p
      case _ => null
    }

    method SetOpPtr(k: nat, p: AstNode?)
      requires 1 <= k <= 4
      modifies this`op1p, this`op2p, this`op3p, this`op4p
      ensures Pointers() == WithOp(old(Pointers()), k, p)
    {
      match k {
        case 1 => op1p := p;
        case 2 => op2p := p;
        case 3 => op3p := p;
        case 4 => op4p := p;
      }
    }

    /** The chain of tests for the operand that points to oldp. */
    method ReplaceOpPtr(oldp: AstNode, x: AstNode?, ghost k: nat)
      requires 1 <= k <= 4 && OnlyOp(oldp, k)
      modifies this`op1p, this`op2p, this`op3p, this`op4p
      ensures Pointers() == WithOp(old(Pointers()), k, x)
    {
      if op1p == oldp { op1p := x; }
      else if op2p == oldp { op2p := x; }
      else if op3p == oldp { op3p := x; }
      else if op4p == oldp { op4p := x; }
    }

    // -------------------------------------------------------------- addNextHere

    /** The pointer writes of `addNextHere`. Nothing keeps a single node from being added after
        itself; it then points back to itself. */
    method LinkHere(newp: AstNode, ghost nodes: set<AstNode>)
      requires this in nodes && newp in nodes && newp.headtailp != null && newp.headtailp in nodes
      requires nextp != null ==> nextp in nodes
      requires headtailp != null ==> headtailp in nodes
      requires if this == newp then nextp == null && headtailp == this
               else this != newp.headtailp && headtailp != newp.headtailp && headtailp != newp
      modifies nodes`nextp, nodes`backp, nodes`headtailp
      ensures this != newp ==> forall n {:trigger n.Pointers()} :: n in nodes ==>
        n.Pointers() == HereLinks(n, this, newp, old(newp.headtailp), old(nextp), old(headtailp), old(n.Pointers()))
      ensures this == newp ==> forall n {:trigger n.Pointers()} :: n in nodes ==>
        n.Pointers() == if n == this then old(Pointers()).(back := this) else old(n.Pointers())
    {
      var addlastp: AstNode := newp.headtailp;

      var oldnextp := this.nextp;
      this.nextp := newp;
      addlastp.nextp := oldnextp;

      if oldnextp != null { oldnextp.backp := addlastp; }
      newp.backp := this;

      var oldheadtailp := this.headtailp;
      newp.headtailp := null;
      addlastp.headtailp := null;
      if oldheadtailp != null {
        if oldheadtailp == this {
          this.headtailp := addlastp;
          addlastp.headtailp := oldheadtailp;
        } else if oldnextp == null {
          this.headtailp := null;
          oldheadtailp.headtailp := addlastp;
          addlastp.headtailp := oldheadtailp;
        }
      }
    }

    /** `addNextHere`: the list of newp goes in after this very node. */
    method AddNextHere(newp: AstNode, ghost f: Forest, ghost nodes: set<AstNode>) returns (ghost g: Forest)
      requires Valid(f, nodes) && this in nodes && Loose(newp) in f.lists && f.slot[this] != Loose(newp)
      requires Placed(f, this)
      modifies nodes`nextp, nodes`backp, nodes`headtailp
      ensures g == Put(f, f.slot[this], f.pos[this] + 1, newp) && Valid(g, nodes)
    {
      HereCanPut(f, nodes, this, newp);
      HereEnds(f, nodes, this, newp);
      LinkHere(newp, nodes);
      g := Put(f, f.slot[this], f.pos[this] + 1, newp);
      PutStruct(f, nodes, f.slot[this], f.pos[this] + 1, newp);
      forall n | n in nodes ensures LinksAre(g, n) {
        assert old(LinksAre(f, n)) && Placed(g, n);
        HereValid(f, this, newp, n, old(n.Pointers()), g);
      }
    }

    // -------------------------------------------------------------- addNext

    /** `addNext`: find the end of the list thisp is in, and append the list of newp. */
    static method AddNext(thisp: AstNode?, newp: AstNode, ghost f: Forest, ghost nodes: set<AstNode>)
      returns (r: AstNode, ghost g: Forest)
      requires Valid(f, nodes) && Loose(newp) in f.lists
      requires thisp != null ==> thisp in nodes && Placed(f, thisp) && f.slot[thisp] != Loose(newp)
      modifies nodes`nextp, nodes`backp, nodes`headtailp
      ensures r == if thisp == null then newp else thisp
      ensures g == if thisp == null then f else Put(f, f.slot[thisp], |f.lists[f.slot[thisp]]|, newp)
      ensures Valid(g, nodes)
    {
      if thisp == null { return newp, f; }
      var oldtailp: AstNode := FindTail(thisp, f, nodes);
      g := oldtailp.AppendHere(newp, f, nodes);
      r := thisp;
    }

    /** The end of the list: by headtail from the head, else by walking. */
    static method FindTail(thisp: AstNode, ghost f: Forest, ghost nodes: set<AstNode>) returns (tail: AstNode)
      requires Valid(f, nodes) && thisp in nodes && Placed(f, thisp)
      ensures tail in nodes && Placed(f, tail) && f.slot[tail] == f.slot[thisp]
      ensures f.pos[tail] + 1 == |f.lists[f.slot[thisp]]|
    {
      tail := thisp;
      ghost var s := f.slot[thisp];
      Linked(f, nodes, thisp);
      if tail.nextp != null {
        if tail.headtailp != null {
          assert Filed(f, s, |f.lists[s]| - 1);
          tail := tail.headtailp;
          assert Placed(f, tail);
        } else {
          tail := thisp.WalkToTail(f, nodes);
        }
      }
    }

    method WalkToTail(ghost f: Forest, ghost nodes: set<AstNode>) returns (tail: AstNode)
      requires Valid(f, nodes) && this in nodes && Placed(f, this)
      ensures tail in nodes && Placed(f, tail) && f.slot[tail] == f.slot[this]
      ensures f.pos[tail] + 1 == |f.lists[f.slot[this]]|
    {
      tail := this;
      ghost var s := f.slot[this];
      Linked(f, nodes, this);
      while tail.nextp != null
        invariant tail in nodes && Placed(f, tail) && f.slot[tail] == s && tail.nextp == Next(f, tail)
        decreases |f.lists[s]| - f.pos[tail]
      {
        assert Filed(f, s, f.pos[tail] + 1);
        tail := tail.nextp;
        Linked(f, nodes, tail);
      }
    }

    method AppendHere(newp: AstNode, ghost f: Forest, ghost nodes: set<AstNode>) returns (ghost g: Forest)
      requires Valid(f, nodes) && Loose(newp) in f.lists && this in nodes && Placed(f, this)
      requires f.slot[this] != Loose(newp) && f.pos[this] + 1 == |f.lists[f.slot[this]]|
      modifies nodes`nextp, nodes`backp, nodes`headtailp
      ensures g == Put(f, f.slot[this], f.pos[this] + 1, newp) && Valid(g, nodes)
    {
      HereCanPut(f, nodes, this, newp);
      HereEnds(f, nodes, this, newp);
      TailEnds(f, nodes, this, newp);
      LinkTail(newp, nodes);
      g := Put(f, f.slot[this], f.pos[this] + 1, newp);
      PutStruct(f, nodes, f.slot[this], f.pos[this] + 1, newp);
      forall n | n in nodes ensures LinksAre(g, n) {
        assert old(LinksAre(f, n)) && Placed(g, n);
        HereValid(f, this, newp, n, old(n.Pointers()), g);
      }
    }

    /** The pointer writes of `addNext`. */
    method LinkTail(newp: AstNode, ghost nodes: set<AstNode>)
      requires this in nodes && newp in nodes && newp.headtailp != null && newp.headtailp in nodes
      requires newp.headtailp.nextp == null && nextp == null && headtailp != null && headtailp in nodes
      requires this != newp && this != newp.headtailp && headtailp != newp.headtailp && headtailp != newp
      modifies nodes`nextp, nodes`backp, nodes`headtailp
      ensures forall n {:trigger n.Pointers()} :: n in nodes ==>
        n.Pointers() == HereLinks(n, this, newp, old(newp.headtailp), null, old(headtailp), old(n.Pointers()))
    {
      nextp := newp;
      newp.backp := this;
      var newtailp: AstNode := newp.headtailp;
      var headp: AstNode := headtailp;
      headtailp := null;
      newp.headtailp := null;
      newtailp.headtailp := headp;
      headp.headtailp := newtailp;
    }

    // -------------------------------------------------------------- operands

    /** `relinkOneLink` on operand k of this, and the back pointer that its callers set. */
    method RelinkOneLink(k: nat, newp: AstNode, ghost nodes: set<AstNode>)
      requires this in nodes && newp in nodes && 1 <= k <= 4 && newp.headtailp != null && newp.headtailp in nodes
      requires var first := OpPtr(k); first != null ==>
                 first in nodes && first.headtailp != null && first.headtailp in nodes &&
                 first != newp && first != newp.headtailp &&
                 first.headtailp != newp && first.headtailp != newp.headtailp
      modifies nodes
      ensures forall n {:trigger n.Pointers()} :: n in nodes ==>
        n.Pointers() == OpLinks(n, this, k, newp, old(newp.headtailp), old(OpPtr(k)),
                                old(if OpPtr(k) == null then null else OpPtr(k).headtailp), old(n.Pointers()))
    {
      var pointpr := OpPtr(k);
      if pointpr != null { newp.LinkFront(pointpr, nodes); }
      label linked:
      SetOpPtr(k, newp);
      newp.backp := this;
      forall n | n in nodes
        ensures n.Pointers() == OpLinks(n, this, k, newp, old(newp.headtailp), pointpr,
                                        old(if OpPtr(k) == null then null else OpPtr(k).headtailp), old(n.Pointers()))
      {
        assert old@linked(n.Pointers()) ==
          if pointpr == null then old(n.Pointers())
          else FrontLinks(n, newp, old(newp.headtailp), pointpr, old(OpPtr(k).headtailp), old(n.Pointers()));
      }
    }

    method LinkFront(pointpr: AstNode, ghost nodes: set<AstNode>)
      requires this in nodes && pointpr in nodes && headtailp != null && headtailp in nodes
      requires pointpr.headtailp != null && pointpr.headtailp in nodes
      requires pointpr != this && pointpr != headtailp && pointpr.headtailp != this && pointpr.headtailp != headtailp
      modifies nodes`nextp, nodes`backp, nodes`headtailp
      ensures forall n {:trigger n.Pointers()} :: n in nodes ==>
        n.Pointers() == FrontLinks(n, this, old(headtailp), pointpr, old(pointpr.headtailp), old(n.Pointers()))
    {
      var newlistlastp: AstNode := headtailp;
      var oldlistlastp: AstNode := pointpr.headtailp;
      newlistlastp.nextp := pointpr;
      pointpr.backp := newlistlastp;
      pointpr.headtailp := null;
      newlistlastp.headtailp := null;
      headtailp := oldlistlastp;
      oldlistlastp.headtailp := this;
    }

    /** The list of newp becomes the front of operand k. */
    method LinkAtOp(k: nat, newp: AstNode, ghost f: Forest, ghost nodes: set<AstNode>) returns (ghost g: Forest)
      requires Valid(f, nodes) && this in nodes && 1 <= k <= 4 && Loose(newp) in f.lists
      modifies nodes
      ensures g == Put(f, Op(this, k), 0, newp) && Valid(g, nodes)
    {
      OpCanPut(f, nodes, this, k, newp);
      OpEnds(f, nodes, this, k, newp);
      RelinkOneLink(k, newp, nodes);
      g := Put(f, Op(this, k), 0, newp);
      PutStruct(f, nodes, Op(this, k), 0, newp);
      forall n | n in nodes ensures LinksAre(g, n) {
        assert old(LinksAre(f, n)) && Placed(g, n);
        OpValid(f, this, k, newp, n, old(n.Pointers()));
      }
    }

    /** `addOpNp` and, when the operand is empty, `opNp` and `setOpNp`. */
    method AddOp(k: nat, newp: AstNode, ghost f: Forest, ghost nodes: set<AstNode>) returns (ghost g: Forest)
      requires Valid(f, nodes) && this in nodes && 1 <= k <= 4 && Loose(newp) in f.lists
      modifies nodes
      ensures g == Put(f, Op(this, k), |ListAt(f, Op(this, k))|, newp) && Valid(g, nodes)
    {
      OpCanPut(f, nodes, this, k, newp);
      OpEnds(f, nodes, this, k, newp);
      var first := OpPtr(k);
      if first == null {
        g := LinkAtOp(k, newp, f, nodes);
      } else {
        assert Filed(f, Op(this, k), 0) && Placed(f, first);
        var r;
        r, g := AddNext(first, newp, f, nodes);
      }
    }

    // -------------------------------------------------------------- unlinkFrBack

    /** `unlinkFrBack`: this one node leaves its list. */
    method UnlinkFrBack(linkerp: AstNRelinker?, ghost f: Forest, ghost nodes: set<AstNode>)
      returns (oldp: AstNode, ghost g: Forest)
      requires Valid(f, nodes) && this in nodes && backp != null
      modifies nodes, linkerp
      ensures oldp == this && IsLinked(f, this) && CanTake(f, nodes, f.slot[this], f.pos[this], f.pos[this] + 1)
      ensures TakeFacts(f, f.slot[this], f.pos[this], f.pos[this] + 1)
      ensures g == Take(f, f.slot[this], f.pos[this], f.pos[this] + 1) && Valid(g, nodes)
      ensures linkerp != null ==> linkerp.backp == Back(f, this) && linkerp.chg == RelinkOf(f, this)
    {
      OutEnds(f, nodes, this);
      oldp := this;
      Unlink(linkerp, FirstOf(f, this), f, nodes);
      g := Take(f, f.slot[this], f.pos[this], f.pos[this] + 1);
      TakeStruct(f, nodes, f.slot[this], f.pos[this], f.pos[this] + 1);
      forall n | n in nodes ensures LinksAre(g, n) {
        assert old(LinksAre(f, n)) && Placed(g, n);
        OutValid(f, this, n, old(n.Pointers()));
      }
    }

    /** Its pointer writes: k is the operand this is the first of, or 0. */
    method Unlink(linkerp: AstNRelinker?, ghost k: nat, ghost f: Forest, ghost nodes: set<AstNode>)
      requires Valid(f, nodes) && this in nodes && backp != null && backp in nodes && IsLinked(f, this) &&
               k == FirstOf(f, this)
      requires nextp != null ==> nextp in nodes && nextp != this
      requires headtailp != null ==> headtailp in nodes
      modifies nodes, linkerp
      ensures forall n {:trigger n.Pointers()} :: n in nodes ==>
        n.Pointers() == OutLinks(n, this, old(backp), k, old(nextp), old(headtailp), old(n.Pointers()))
      ensures linkerp != null ==> linkerp.backp == old(backp) && linkerp.chg == RelinkOf(f, this)
    {
      var backp0: AstNode := backp;
      if f.pos[this] > 0 { OutListEnds(f, nodes, this); } else { OutOpEnds(f, nodes, this); }
      if linkerp != null { linkerp.Record(this, backp0, k); }
      if backp0.nextp == this {
        LinkOutList(nodes);
      } else {
        LinkOutOp(k, nodes);
      }
    }

    /** The pointer writes for a node that follows another one. */
    method LinkOutList(ghost nodes: set<AstNode>)
      requires this in nodes && backp != null && backp in nodes && backp != this
      requires nextp != null ==> nextp in nodes && nextp != this && nextp != backp
      requires headtailp != null ==> headtailp in nodes && headtailp != this
      modifies nodes`nextp, nodes`backp, nodes`headtailp
      ensures forall n {:trigger n.Pointers()} :: n in nodes ==>
        n.Pointers() == OutLinks(n, this, old(backp), 0, old(nextp), old(headtailp), old(n.Pointers()))
    {
      var backp0: AstNode := backp;
      backp0.nextp := nextp;
      if backp0.nextp != null { backp0.nextp.backp := backp0; }
      if headtailp != null {
        backp0.headtailp := headtailp;
        backp0.headtailp.headtailp := backp0;
      }
      nextp, backp, headtailp := null, null, this;
    }

    /** The same for the first node of an operand. */
    method LinkOutOp(ghost k: nat, ghost nodes: set<AstNode>)
      requires this in nodes && backp != null && backp in nodes && 1 <= k <= 4 && backp.OnlyOp(this, k)
      requires nextp != null ==> nextp in nodes && nextp != this
      requires nextp != null ==> headtailp != null && headtailp in nodes && headtailp != this
      modifies nodes
      ensures forall n {:trigger n.Pointers()} :: n in nodes ==>
        n.Pointers() == OutLinks(n, this, old(backp), k, old(nextp), old(headtailp), old(n.Pointers()))
    {
      var backp0: AstNode := backp;
      backp0.ReplaceOpPtr(this, nextp, k);
      label replaced:
      LinkOutHead(backp0, nodes);
      forall n | n in nodes
        ensures n.Pointers() == OutLinks(n, this, old(backp), k, old(nextp), old(headtailp), old(n.Pointers()))
      {
        assert old@replaced(n.Pointers()) ==
               if n == backp0 then WithOp(old(n.Pointers()), k, old(nextp)) else old(n.Pointers());
      }
    }

    method LinkOutHead(backp0: AstNode, ghost nodes: set<AstNode>)
      requires this in nodes
      requires nextp != null ==> nextp in nodes && nextp != this
      requires nextp != null ==> headtailp != null && headtailp in nodes && headtailp != this
      modifies nodes`nextp, nodes`backp, nodes`headtailp
      ensures forall n {:trigger n.Pointers()} :: n in nodes ==>
        n.Pointers() == HeadOutLinks(n, this, backp0, old(nextp), old(headtailp), old(n.Pointers()))
    {
      if nextp != null {
        var newheadp: AstNode := nextp;
        newheadp.backp := backp0;
        newheadp.headtailp := headtailp;
        newheadp.headtailp.headtailp := newheadp;
      }
      nextp, backp, headtailp := null, null, this;
    }

    // -------------------------------------------------------------- unlinkFrBackWithNext

    /** `unlinkFrBackWithNext`: this node and all after it leave their list. */
    method UnlinkFrBackWithNext(linkerp: AstNRelinker?, ghost f: Forest, ghost nodes: set<AstNode>)
      returns (oldp: AstNode, ghost g: Forest)
      requires Valid(f, nodes) && this in nodes && backp != null
      modifies nodes, linkerp
      ensures oldp == this && IsLinked(f, this) && CanTake(f, nodes, f.slot[this], f.pos[this], |f.lists[f.slot[this]]|)
      ensures g == Take(f, f.slot[this], f.pos[this], |f.lists[f.slot[this]]|) && Valid(g, nodes)
      ensures linkerp != null ==> linkerp.backp == Back(f, this) && linkerp.chg == RelinkOf(f, this)
    {
      OutEnds(f, nodes, this);
      CutCanTake(f, nodes, this);
      oldp := this;
      UnlinkWithNext(linkerp, FirstOf(f, this), f, nodes);
      g := Take(f, f.slot[this], f.pos[this], |f.lists[f.slot[this]]|);
      TakeStruct(f, nodes, f.slot[this], f.pos[this], |f.lists[f.slot[this]]|);
      forall n | n in nodes ensures LinksAre(g, n) {
        assert old(LinksAre(f, n)) && Placed(g, n);
        CutValid(f, this, n, old(n.Pointers()));
      }
    }

    method UnlinkWithNext(linkerp: AstNRelinker?, ghost k: nat, ghost f: Forest, ghost nodes: set<AstNode>)
      requires Valid(f, nodes) && this in nodes && backp != null && backp in nodes && IsLinked(f, this) &&
               k == FirstOf(f, this)
      modifies nodes, linkerp
      ensures forall n {:trigger n.Pointers()} :: n in nodes ==>
        n.Pointers() == CutLinks(n, this, old(backp), k, Last(f.lists[f.slot[this]]), First(f.lists[f.slot[this]]),
                                 old(n.Pointers()))
      ensures linkerp != null ==> linkerp.backp == old(backp) && linkerp.chg == RelinkOf(f, this)
    {
      var backp0: AstNode := backp;
      if f.pos[this] > 0 { OutListEnds(f, nodes, this); CutEnds(f, nodes, this); } else { OutOpEnds(f, nodes, this); }
      if linkerp != null { linkerp.Record(this, backp0, k); }
      if backp0.nextp == this {
        var oldtailp := WalkToTail(f, nodes);
        CutList(oldtailp, nodes);
      } else {
        CutOp(k, nodes);
      }
    }

    method CutList(oldtailp: AstNode, ghost nodes: set<AstNode>)
      requires this in nodes && backp != null && backp in nodes && backp != this && oldtailp in nodes
      requires oldtailp.headtailp != null && oldtailp.headtailp in nodes && backp != oldtailp
      requires oldtailp.headtailp != this && oldtailp.headtailp != oldtailp
      modifies nodes`nextp, nodes`backp, nodes`headtailp
      ensures forall n {:trigger n.Pointers()} :: n in nodes ==>
        n.Pointers() == CutLinks(n, this, old(backp), 0, oldtailp, old(oldtailp.headtailp), old(n.Pointers()))
    {
      backp.nextp := null;
      var oldheadp: AstNode := oldtailp.headtailp;
      oldheadp.headtailp := backp;
      oldheadp.headtailp.headtailp := oldheadp;
      headtailp := oldtailp;
      headtailp.headtailp := this;
      backp := null;
    }

    method CutOp(ghost k: nat, ghost nodes: set<AstNode>)
      requires this in nodes && backp != null && backp in nodes && 1 <= k <= 4 && backp.OnlyOp(this, k)
      modifies nodes
      ensures forall n {:trigger n.Pointers()} :: n in nodes ==>
        n.Pointers() == CutLinks(n, this, old(backp), k, null, null, old(n.Pointers()))
    {
      backp.ReplaceOpPtr(this, null, k);
      backp := null;
    }

    // -------------------------------------------------------------- relink

    /** The case RELINK_NEXT of `relink`, which sets the back pointer once more. */
    method RelinkAfter(back: AstNode, ghost s: Slot, ghost i: nat, ghost f: Forest, ghost nodes: set<AstNode>)
      returns (ghost g: Forest)
      requires Valid(f, nodes) && this in nodes && Loose(this) in f.lists && s != Loose(this)
      requires PointsAt(f, nodes, back, RelinkNext, s, i)
      modifies nodes`nextp, nodes`backp, nodes`headtailp
      ensures PutFacts(f, s, i, this) && g == Put(f, s, i, this) && Valid(g, nodes)
    {
      HereCanPut(f, nodes, back, this);
      g := back.AddNextHere(this, f, nodes);
      Linked(g, nodes, this);
      PutBack(f, s, i, this, this);
      label linked:
      backp := back;
      forall n | n in nodes ensures LinksAre(g, n) { assert old@linked(LinksAre(g, n)); }
    }

    /** `relink`: the list of this goes where the relinker says. */
    method Relink(linkerp: AstNRelinker, ghost s: Slot, ghost i: nat, ghost f: Forest, ghost nodes: set<AstNode>)
      returns (ghost g: Forest)
      requires Valid(f, nodes) && this in nodes && Loose(this) in f.lists && s != Loose(this)
      requires PointsAt(f, nodes, linkerp.backp, linkerp.chg, s, i)
      modifies nodes, linkerp`backp
      ensures PutFacts(f, s, i, this) && g == Put(f, s, i, this) && Valid(g, nodes) && linkerp.backp == null
    {
      var back: AstNode := linkerp.backp;
      match linkerp.chg {
        case RelinkNext =>
          g := RelinkAfter(back, s, i, f, nodes);
        case RelinkOp(k) =>
          assert s == Op(back, k) && i == 0 && 1 <= k <= 4;
          OpCanPut(f, nodes, back, k, this);
          g := back.LinkAtOp(k, this, f, nodes);
      }
      label linked:
      linkerp.backp := null;
      forall n | n in nodes ensures LinksAre(g, n) { assert old@linked(LinksAre(g, n)); }
    }
  }
}
