/** `replaceCaseComplicated`: an IF per item, in groups of eight under an IF on the OR of the
    group's conditions, where the eighth condition of a group is not tested again. */
module CaseChain {
  import opened Bits
  import opened CaseModel
  import opened CaseTable
  import opened CaseTree

  const CASE_ENCODER_GROUP_DEPTH: nat := 8

  // ---------------------------------------------------------------- conditions

  datatype Expr =
    | LogicTrue
    | LogicFalse
    | MaskEq(val: nat, mask: nat)
    | EqConst(val: nat)
    | EqExpr(id: nat)
    | InRange(lo: nat, hi: nat)
    | LogOr(l: Expr, r: Expr)
    | BitOr(l: Expr, r: Expr)

  /** The value of a one-bit condition on the case value v. */
  predicate Eval(e: Expr, v: nat, env: Env) {
    match e
    case LogicTrue => true
    case LogicFalse => false
    case MaskEq(val, mask) => And(v, mask) == And(val, mask)
    case EqConst(val) => v == val
    case EqExpr(id) => v == env(id)
    case InRange(lo, hi) => v >= env(lo) && v <= env(hi)
    case LogOr(l, r) => Eval(l, v, env) || Eval(r, v, env)
    case BitOr(l, r) => Eval(l, v, env) || Eval(r, v, env)
  }

  /** What an item expression is compared by. */
  function CondExpr(kind: Kind, c: Cond): Expr {
    match c
    case Const(bits) =>
      if NeverItem(kind, bits) then LogicFalse
      else if IsFourState(bits) && kind != Case then MaskEq(Ones(bits), NonX(bits))
      else EqConst(Ones(bits))
    case Range(lo, hi) => InRange(lo, hi)
    case Expr(id) => EqExpr(id)
  }

  /** V3Width has given the constants the width of the case expression. */
  predicate WellTyped(items: seq<Item>, w: nat) {
    forall i, j :: 0 <= i < |items| && 0 <= j < |items[i].conds| && items[i].conds[j].Const? ==>
      |items[i].conds[j].bits| == w
  }

  lemma CondExprIs(kind: Kind, c: Cond, w: nat, v: nat, env: Env)
    requires v < Pow2(w) && (c.Const? ==> |c.bits| == w)
    ensures Eval(CondExpr(kind, c), v, env) == CondFits(kind, c, v, env)
  {
    if c.Const? {
      MaskIsRule(kind, c.bits, v);
      OnesInMask(c.bits);
      if !IsFourState(c.bits) { TwoStateFits(kind, c.bits, v); }
    }
  }

  /** The first n conditions of an item, ORed from the left. */
  function ItemExpr(kind: Kind, conds: seq<Cond>, n: nat): Expr
    requires 0 < n <= |conds|
  {
    if n == 1 then CondExpr(kind, conds[0])
    else LogOr(ItemExpr(kind, conds, n - 1), CondExpr(kind, conds[n - 1]))
  }

  lemma {:induction false} ItemExprIs(kind: Kind, conds: seq<Cond>, n: nat, w: nat, v: nat, env: Env)
    requires 0 < n <= |conds| && v < Pow2(w)
    requires forall j :: 0 <= j < |conds| && conds[j].Const? ==> |conds[j].bits| == w
    ensures Eval(ItemExpr(kind, conds, n), v, env) == AnyFits(kind, conds, n, v, env)
  {
    CondExprIs(kind, conds[n - 1], w, v, env);
    if n > 1 {
      ItemExprIs(kind, conds, n - 1, w, v, env);
    }
  }

  method BuildCondition(kind: Kind, conds: seq<Cond>) returns (ifexpr: Expr)
    requires conds != []
    ensures ifexpr == ItemExpr(kind, conds, |conds|)
  {
    ifexpr := CondExpr(kind, conds[0]);
    for j := 1 to |conds|
      invariant ifexpr == ItemExpr(kind, conds, j)
    {
      ifexpr := LogOr(ifexpr, CondExpr(kind, conds[j]));
    }
  }

  // ---------------------------------------------------------------- first stage

  /** An item once its conditions are one expression. */
  datatype Branch = Branch(cond: Expr, body: Ref)

  function BranchOf(kind: Kind, item: Item): Branch {
    Branch(if IsDefault(item) then LogicTrue else ItemExpr(kind, item.conds, |item.conds|), item.body)
  }

  predicate HasDefault(items: seq<Item>) {
    exists i :: 0 <= i < |items| && IsDefault(items[i])
  }

  /** The branches, with an empty default at the end if there was none. */
  function Branches(kind: Kind, items: seq<Item>): seq<Branch> {
    seq(|items|, i requires 0 <= i < |items| => BranchOf(kind, items[i])) +
    if HasDefault(items) then [] else [Branch(LogicTrue, Null)]
  }

  method BuildBranches(kind: Kind, items: seq<Item>) returns (branches: seq<Branch>)
    ensures branches == Branches(kind, items)
  {
    branches := [];
    var hadDefault := false;
    for i := 0 to |items|
      invariant |branches| == i && forall k :: 0 <= k < i ==> branches[k] == BranchOf(kind, items[k])
      invariant hadDefault == exists k :: 0 <= k < i && IsDefault(items[k])
    {
      if IsDefault(items[i]) {
        branches := branches + [Branch(LogicTrue, items[i].body)];
        hadDefault := true;
      } else {
        var ifexpr := BuildCondition(kind, items[i].conds);
        branches := branches + [Branch(ifexpr, items[i].body)];
      }
    }
    if !hadDefault {
      branches := branches + [Branch(LogicTrue, Null)];
    }
  }

  // ---------------------------------------------------------------- the tree

  datatype IfTree = Stmts(stmts: Ref) | IfT(cond: Expr, thens: IfTree, elses: IfTree)

  function Run(t: IfTree, v: nat, env: Env): Ref {
    match t
    case Stmts(stmts) => stmts
    case IfT(cond, thens, elses) => if Eval(cond, v, env) then Run(thens, v, env) else Run(elses, v, env)
  }

  function Levels(t: IfTree): nat {
    if t.Stmts? then 0 else 1 + if Levels(t.thens) > Levels(t.elses) then Levels(t.thens) else Levels(t.elses)
  }

  /** The conditions k up to m, ORed from the left. */
  function OrOf(bs: seq<Branch>, k: nat, m: nat): Expr
    requires k < m <= |bs|
  {
    if m == k + 1 then bs[k].cond else BitOr(OrOf(bs, k, m - 1), bs[m - 1].cond)
  }

  /** The condition that the inner IF of branch k tests. */
  function InnerCond(bs: seq<Branch>, k: nat): Expr
    requires k < |bs|
  {
    if k % 8 == 7 then LogicTrue else bs[k].cond
  }

  /** The inner IFs of a group from branch k on. */
  function ItemTree(bs: seq<Branch>, k: nat): IfTree
    requires k < |bs|
    decreases |bs| - k
  {
    IfT(InnerCond(bs, k), Stmts(bs[k].body), if k % 8 == 7 || k + 1 == |bs| then Stmts(Null) else ItemTree(bs, k + 1))
  }

  function GroupEnd(bs: seq<Branch>, k: nat): nat {
    if k + 8 < |bs| then k + 8 else |bs|
  }

  /** The groups from the one that starts at branch k on. */
  function GroupTree(bs: seq<Branch>, k: nat): IfTree
    requires k < |bs|
    decreases |bs| - k
  {
    IfT(OrOf(bs, k, GroupEnd(bs, k)), ItemTree(bs, k), if k + 8 < |bs| then GroupTree(bs, k + 8) else Stmts(Null))
  }

  /** The first true branch from k on. */
  function FirstTrue(bs: seq<Branch>, v: nat, env: Env, k: nat): (r: nat)
    requires k <= |bs|
    ensures k <= r <= |bs|
    ensures forall j :: k <= j < r ==> !Eval(bs[j].cond, v, env)
    ensures r < |bs| ==> Eval(bs[r].cond, v, env)
    decreases |bs| - k
  {
    if k == |bs| || Eval(bs[k].cond, v, env) then k else FirstTrue(bs, v, env, k + 1)
  }

  lemma {:induction false} OrOfIs(bs: seq<Branch>, k: nat, m: nat, v: nat, env: Env)
    requires k < m <= |bs|
    ensures Eval(OrOf(bs, k, m), v, env) == (FirstTrue(bs, v, env, k) < m)
  {
    if m > k + 1 {
      OrOfIs(bs, k, m - 1, v, env);
    }
  }

  /** Inside a group one of whose branches from k on is true, the first one runs. */
  lemma {:induction false} ItemTreeRuns(bs: seq<Branch>, k: nat, v: nat, env: Env)
    requires k < |bs| && FirstTrue(bs, v, env, k) < |bs| && FirstTrue(bs, v, env, k) <= k - k % 8 + 7
    ensures Run(ItemTree(bs, k), v, env) == bs[FirstTrue(bs, v, env, k)].body
    decreases |bs| - k
  {
    if FirstTrue(bs, v, env, k) != k {
      ItemTreeRuns(bs, k + 1, v, env);
    }
  }

  lemma {:induction false} FirstTrueFrom(bs: seq<Branch>, v: nat, env: Env, k: nat, m: nat)
    requires k <= m <= |bs| && FirstTrue(bs, v, env, k) >= m
    ensures FirstTrue(bs, v, env, k) == FirstTrue(bs, v, env, m)
    decreases m - k
  {
    if k < m { FirstTrueFrom(bs, v, env, k + 1, m); }
  }

  lemma {:induction false} GroupTreeRuns(bs: seq<Branch>, k: nat, v: nat, env: Env)
    requires k < |bs| && k % 8 == 0
    ensures Run(GroupTree(bs, k), v, env) ==
            if FirstTrue(bs, v, env, k) < |bs| then bs[FirstTrue(bs, v, env, k)].body else Null
    decreases |bs| - k
  {
    OrOfIs(bs, k, GroupEnd(bs, k), v, env);
    if FirstTrue(bs, v, env, k) < GroupEnd(bs, k) {
      ItemTreeRuns(bs, k, v, env);
    } else {
      FirstTrueFrom(bs, v, env, k, GroupEnd(bs, k));
      if k + 8 < |bs| { GroupTreeRuns(bs, k + 8, v, env); }
    }
  }

  lemma {:induction false} ItemTreeLevels(bs: seq<Branch>, k: nat)
    requires k < |bs|
    ensures Levels(ItemTree(bs, k)) <= 8 - k % 8
    decreases |bs| - k
  {
    if k % 8 != 7 && k + 1 != |bs| { ItemTreeLevels(bs, k + 1); }
  }

  /** ceil(n / 8) */
  function Groups(n: nat): nat { (n + 7) / 8 }

  lemma {:induction false} GroupTreeLevels(bs: seq<Branch>, k: nat)
    requires k < |bs| && k % 8 == 0
    ensures Levels(GroupTree(bs, k)) <= Groups(|bs| - k) + 8
    decreases |bs| - k
  {
    ItemTreeLevels(bs, k);
    if k + 8 < |bs| { GroupTreeLevels(bs, k + 8); }
  }

  // ---------------------------------------------------------------- the case statement

  lemma BranchRuns(kind: Kind, item: Item, w: nat, v: nat, env: Env)
    requires v < Pow2(w) && forall j :: 0 <= j < |item.conds| && item.conds[j].Const? ==> |item.conds[j].bits| == w
    ensures Eval(BranchOf(kind, item).cond, v, env) == Runs(kind, item, v, env)
  {
    if !IsDefault(item) { ItemExprIs(kind, item.conds, |item.conds|, w, v, env); }
  }

  lemma {:induction false} FirstBranch(kind: Kind, items: seq<Item>, w: nat, v: nat, env: Env, i: nat)
    requires WellTyped(items, w) && v < Pow2(w) && i <= |items|
    ensures FirstTrue(Branches(kind, items), v, env, i) == First(kind, items, v, env, i)
    decreases |items| - i
  {
    if i < |items| {
      assert Branches(kind, items)[i] == BranchOf(kind, items[i]);
      BranchRuns(kind, items[i], w, v, env);
      FirstBranch(kind, items, w, v, env, i + 1);
    } else if !HasDefault(items) {
      assert Branches(kind, items)[i].cond == LogicTrue;
    }
  }

  /** The chain runs exactly the first matching item, at a depth of at most ceil(n / 8) + 8. */
  lemma ChainIsCase(kind: Kind, items: seq<Item>, w: nat, v: nat, env: Env)
    requires WellTyped(items, w) && v < Pow2(w) && Branches(kind, items) != []
    ensures Run(GroupTree(Branches(kind, items), 0), v, env) == Chosen(kind, items, v, env)
    ensures Levels(GroupTree(Branches(kind, items), 0)) <= Groups(|Branches(kind, items)|) + 8
  {
    var bs := Branches(kind, items);
    FirstBranch(kind, items, w, v, env, 0);
    GroupTreeRuns(bs, 0, v, env);
    GroupTreeLevels(bs, 0);
    if First(kind, items, v, env, 0) == |items| && !HasDefault(items) {
      assert bs[|items|].body == Null;
    }
  }

  /** Where the fast path applies, both lowerings do the same. */
  lemma FastIsChain(kind: Kind, items: seq<Item>, w: nat, v: nat, env: Env)
    requires WellTyped(items, w) && v < Pow2(w) && Branches(kind, items) != []
    ensures Select(FastTree(Bodies(kind, items, Pow2(w), env), w), v) ==
            Run(GroupTree(Branches(kind, items), 0), v, env)
  {
    ChainIsCase(kind, items, w, v, env);
    FastTreeIsCase(kind, items, w, env);
  }

  // ---------------------------------------------------------------- building it in place

  class AstIf {
    var cond: Expr
    var stmts: Ref
    var ifp: AstIf?
    var elsep: AstIf?
    ghost const outer: bool
    ghost const pos: nat

    constructor (cond: Expr, stmts: Ref, ghost outer: bool, ghost pos: nat)
      ensures this.cond == cond && this.stmts == stmts && ifp == null && elsep == null
      ensures this.outer == outer && this.pos == pos
    {
      this.cond, this.stmts, ifp, elsep := cond, stmts, null, null;
      this.outer, this.pos := outer, pos;
    }
  }

  /** The heap nodes below n are the tree t. */
  ghost predicate Denotes(n: AstIf?, t: IfTree, nodes: set<AstIf>)
    reads nodes
    decreases t
  {
    match t
    case Stmts(stmts) => n == null && stmts == Null
    case IfT(cond, thens, elses) =>
      n != null && n in nodes && n.cond == cond && Denotes(n.elsep, elses, nodes) &&
      if n.ifp == null then thens == Stmts(n.stmts) else n.stmts == Null && Denotes(n.ifp, thens, nodes)
  }

  /** The inner IF of branch k, when the first n branches are in. */
  ghost predicate InnerAt(bs: seq<Branch>, its: seq<AstIf>, k: nat, n: nat)
    requires k < n <= |bs| && |its| == n
    reads its[k]
  {
    !its[k].outer && its[k].pos == k && its[k].ifp == null &&
    its[k].cond == InnerCond(bs, k) && its[k].stmts == bs[k].body &&
    its[k].elsep == if k % 8 == 7 || k + 1 == n then null else its[k + 1]
  }

  ghost predicate InnerIfs(bs: seq<Branch>, its: seq<AstIf>, n: nat)
    reads its
  {
    n <= |bs| && |its| == n && forall k :: 0 <= k < n ==> InnerAt(bs, its, k, n)
  }

  /** The outer IF of group g. */
  ghost predicate OuterAt(bs: seq<Branch>, its: seq<AstIf>, gs: seq<AstIf>, g: nat, n: nat)
    requires n <= |bs| && |its| == n && |gs| == Groups(n) && g < |gs|
    reads gs[g]
  {
    gs[g].outer && gs[g].pos == g && gs[g].stmts == Null && gs[g].ifp == its[8 * g] &&
    gs[g].cond == OrOf(bs, 8 * g, if 8 * g + 8 < n then 8 * g + 8 else n) &&
    gs[g].elsep == if g + 1 < |gs| then gs[g + 1] else null
  }

  ghost predicate OuterIfs(bs: seq<Branch>, its: seq<AstIf>, gs: seq<AstIf>, n: nat)
    reads gs
  {
    n <= |bs| && |its| == n && |gs| == Groups(n) && forall g :: 0 <= g < |gs| ==> OuterAt(bs, its, gs, g, n)
  }

  ghost function NodeSet(its: seq<AstIf>, gs: seq<AstIf>): set<AstIf> {
    (set i | i in its) + set g | g in gs
  }

  lemma {:induction false} InnerDenotes(bs: seq<Branch>, its: seq<AstIf>, k: nat, nodes: set<AstIf>)
    requires InnerIfs(bs, its, |bs|) && k < |bs| && forall i :: i in its ==> i in nodes
    ensures Denotes(its[k], ItemTree(bs, k), nodes)
    decreases |bs| - k
  {
    assert InnerAt(bs, its, k, |bs|);
    if k % 8 != 7 && k + 1 != |bs| { InnerDenotes(bs, its, k + 1, nodes); }
  }

  lemma {:induction false} OuterDenotes(bs: seq<Branch>, its: seq<AstIf>, gs: seq<AstIf>, g: nat, nodes: set<AstIf>)
    requires InnerIfs(bs, its, |bs|) && OuterIfs(bs, its, gs, |bs|) && g < |gs|
    requires forall i :: i in its ==> i in nodes
    requires forall i :: i in gs ==> i in nodes
    ensures Denotes(gs[g], GroupTree(bs, 8 * g), nodes)
    decreases |gs| - g
  {
    assert OuterAt(bs, its, gs, g, |bs|);
    InnerDenotes(bs, its, 8 * g, nodes);
    if g + 1 < |gs| { OuterDenotes(bs, its, gs, g + 1, nodes); }
  }

  lemma Distinct(bs: seq<Branch>, its: seq<AstIf>, gs: seq<AstIf>, n: nat)
    requires InnerIfs(bs, its, n) && OuterIfs(bs, its, gs, n)
    ensures forall k, g :: 0 <= k < n && 0 <= g < |gs| ==> its[k] != gs[g]
    ensures forall k, j :: 0 <= k < j < n ==> its[k] != its[j]
    ensures forall g, h :: 0 <= g < h < |gs| ==> gs[g] != gs[h]
  {
    forall k | 0 <= k < n ensures !its[k].outer && its[k].pos == k { assert InnerAt(bs, its, k, n); }
    forall g | 0 <= g < |gs| ensures gs[g].outer && gs[g].pos == g { assert OuterAt(bs, its, gs, g, n); }
  }

  /** A branch that starts a group: a new outer IF at the end of the chain of groups. */
  method StartGroup(bs: seq<Branch>, n: nat, groupnext: AstIf?, ghost its: seq<AstIf>, ghost gs: seq<AstIf>)
    returns (newg: AstIf, newp: AstIf)
    requires n < |bs| && n % 8 == 0 && InnerIfs(bs, its, n) && OuterIfs(bs, its, gs, n)
    requires groupnext == if n == 0 then null else gs[|gs| - 1]
    modifies groupnext
    ensures fresh(newg) && fresh(newp)
    ensures InnerIfs(bs, its + [newp], n + 1) && OuterIfs(bs, its + [newp], gs + [newg], n + 1)
  {
    Distinct(bs, its, gs, n);
    newg := new AstIf(bs[n].cond, Null, true, |gs|);
    if groupnext != null { groupnext.elsep := newg; }
    newp := new AstIf(bs[n].cond, bs[n].body, false, n);
    newg.ifp := newp;
    ghost var its1, gs1 := its + [newp], gs + [newg];
    ghost var m: nat := n + 1;
    forall k | 0 <= k < m ensures InnerAt(bs, its1, k, m) {
      assert k < n ==> old(InnerAt(bs, its, k, n));
    }
    forall g | 0 <= g < |gs1| ensures OuterAt(bs, its1, gs1, g, m) {
      assert g < |gs| ==> old(OuterAt(bs, its, gs, g, n));
    }
  }

  /** A branch within a group: its condition is ORed into the outer IF. */
  method ContinueGroup(bs: seq<Branch>, n: nat, itemexpr: Expr, groupnext: AstIf, itemnext: AstIf,
                       ghost its: seq<AstIf>, ghost gs: seq<AstIf>)
    returns (newp: AstIf)
    requires 0 < n < |bs| && n % 8 != 0 && InnerIfs(bs, its, n) && OuterIfs(bs, its, gs, n)
    requires groupnext == gs[|gs| - 1] && itemnext == its[n - 1] && itemexpr == InnerCond(bs, n)
    modifies groupnext, itemnext
    ensures fresh(newp)
    ensures InnerIfs(bs, its + [newp], n + 1) && OuterIfs(bs, its + [newp], gs, n + 1)
  {
    Distinct(bs, its, gs, n);
    assert OuterAt(bs, its, gs, |gs| - 1, n);
    groupnext.cond := BitOr(groupnext.cond, bs[n].cond);
    newp := new AstIf(itemexpr, bs[n].body, false, n);
    itemnext.elsep := newp;
    ghost var its1 := its + [newp];
    ghost var m: nat := n + 1;
    forall k | 0 <= k < m ensures InnerAt(bs, its1, k, m) {
      assert k < n ==> old(InnerAt(bs, its, k, n));
    }
    forall g | 0 <= g < |gs| ensures OuterAt(bs, its1, gs, g, m) {
      assert old(OuterAt(bs, its, gs, g, n));
    }
  }

  /** The second stage: `groupnextp` and `itemnextp` are the last IFs of the two chains. */
  method BuildTree(bs: seq<Branch>) returns (grouproot: AstIf, ghost nodes: set<AstIf>)
    requires bs != []
    ensures fresh(nodes) && Denotes(grouproot, GroupTree(bs, 0), nodes)
  {
    var depth: nat := 0;
    var root: AstIf? := null;
    var groupnext: AstIf? := null;
    var itemnext: AstIf? := null;
    ghost var its: seq<AstIf> := [];
    ghost var gs: seq<AstIf> := [];
    for n := 0 to |bs|
      invariant InnerIfs(bs, its, n) && OuterIfs(bs, its, gs, n)
      invariant forall i :: i in its ==> fresh(i)
      invariant forall i :: i in gs ==> fresh(i)
      invariant depth == if n == 0 then 0 else (n - 1) % 8 + 1
      invariant root == if n == 0 then null else gs[0]
      invariant groupnext == if n == 0 then null else gs[|gs| - 1]
      invariant itemnext == if n == 0 then null else its[n - 1]
      invariant groupnext == null || fresh(groupnext)
      invariant itemnext == null || fresh(itemnext)
    {
      depth := depth + 1;
      if depth > CASE_ENCODER_GROUP_DEPTH { depth := 1; }
      if depth == 1 {
        var newg, newp := StartGroup(bs, n, groupnext, its, gs);
        if groupnext == null { root := newg; }
        groupnext := newg;
        itemnext := newp;
        its, gs := its + [newp], gs + [newg];
      } else {
        var itemexpr := if depth == CASE_ENCODER_GROUP_DEPTH then LogicTrue else bs[n].cond;
        var newp := ContinueGroup(bs, n, itemexpr, groupnext, itemnext, its, gs);
        itemnext := newp;
        its := its + [newp];
      }
    }
    nodes := NodeSet(its, gs);
    OuterDenotes(bs, its, gs, 0, nodes);
    return root, nodes;
  }

  /** `replaceCaseComplicated`. */
  method ReplaceCaseComplicated(kind: Kind, items: seq<Item>) returns (grouproot: AstIf, ghost nodes: set<AstIf>)
    ensures fresh(nodes) && Branches(kind, items) != []
    ensures Denotes(grouproot, GroupTree(Branches(kind, items), 0), nodes)
  {
    var branches := BuildBranches(kind, items);
    grouproot, nodes := BuildTree(branches);
  }
}
