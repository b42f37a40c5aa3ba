/** `replaceCaseFastRecurse`: the reduced decision tree over the bits of the case value. */
module CaseTree {
  import opened Bits
  import opened CaseModel
  import opened CaseTable

  /** A pointer to a tree: statements (the original list or a clone of it, null for ";"), or an
      IF on one bit. Every IF is a node of its own, numbered in the order of allocation. */
  datatype Tree = Leaf(stmts: Ref, clone: bool) | If(node: nat, msb: nat, thens: Tree, elses: Tree)

  /** The result, the next free node number, and the trees given to deleteTree. */
  datatype Built = Built(tree: Tree, next: nat, deleted: seq<Tree>)

  /** `tree0p == tree1p`. Two clones are never the same node. */
  predicate SamePointer(t: Tree, u: Tree) {
    match t
    case Leaf(stmts, clone) => u.Leaf? && stmts == u.stmts && (stmts == Null || (!clone && !u.clone))
    case If(node, _, _, _) => u.If? && node == u.node
  }

  /** Trees cannot be linked twice: what is not already a new IF is cloned. */
  function Attached(t: Tree): Tree {
    if t.Leaf? && t.stmts != Null then Leaf(t.stmts, true) else t
  }

  /** The halves of the table agree (the "checkerboard" loop). */
  predicate SameHalves(table: seq<Ref>, upper: nat, half: nat)
    requires upper + 2 * half <= |table|
  {
    forall a :: upper <= a < upper + half ==> table[a] == table[a + half]
  }

  /** What a call makes of the trees of its halves: one pointer for both, one tree for equal
      tables (the other is deleted), or a new IF. */
  function Joined(b0: Built, b1: Built, same: bool, msb: nat): Built {
    var deleted := b0.deleted + b1.deleted;
    if SamePointer(b0.tree, b1.tree) then Built(b0.tree, b1.next, deleted)
    else if same then Built(b0.tree, b1.next, deleted + [b1.tree])
    else Built(If(b1.next, msb, Attached(b1.tree), Attached(b0.tree)), b1.next + 1, deleted)
  }

  /** The tree for the table entries upper, upper + 1, ... below upper + 2^n, where n is msb + 1. */
  function Recurse(table: seq<Ref>, n: nat, upper: nat, next: nat): Built
    requires Low(upper, n) == 0 && upper + Pow2(n) <= |table|
  {
    if n == 0 then Built(Leaf(table[upper], false), next, [])
    else
      var msb := n - 1;
      UpperHalf(upper, msb);
      var b0 := Recurse(table, msb, upper, next);
      var b1 := Recurse(table, msb, Or(upper, Pow2(msb)), b0.next);
      Joined(b0, b1, SameHalves(table, upper, Pow2(msb)), msb)
  }

  /** The two halves of a call, and how they are joined. */
  lemma Unfold(table: seq<Ref>, n: nat, upper: nat, next: nat) returns (b0: Built, b1: Built)
    requires n > 0 && Low(upper, n) == 0 && upper + Pow2(n) <= |table|
    ensures Low(upper, n - 1) == 0 && Low(upper + Pow2(n - 1), n - 1) == 0 && Pow2(n) == 2 * Pow2(n - 1)
    ensures b0 == Recurse(table, n - 1, upper, next)
    ensures b1 == Recurse(table, n - 1, upper + Pow2(n - 1), b0.next)
    ensures Recurse(table, n, upper, next) == Joined(b0, b1, SameHalves(table, upper, Pow2(n - 1)), n - 1)
  {
    UpperHalf(upper, n - 1);
    assert Pow2(n) == 2 * Pow2(n - 1);
    b0 := Recurse(table, n - 1, upper, next);
    b1 := Recurse(table, n - 1, Or(upper, Pow2(n - 1)), b0.next);
  }

  lemma {:induction false} UpperHalf(upper: nat, msb: nat)
    requires Low(upper, msb + 1) == 0
    ensures Or(upper, Pow2(msb)) == upper + Pow2(msb)
    ensures Low(upper, msb) == 0 && Low(upper + Pow2(msb), msb) == 0
  {
    if msb == 0 {
      OrZero(upper / 2);
    } else {
      UpperHalf(upper / 2, msb - 1);
      assert (upper + Pow2(msb)) / 2 == upper / 2 + Pow2(msb - 1);
    }
  }

  // ---------------------------------------------------------------- meaning

  /** The statements that run for the value v: `if (v[msb] != 0) thens else elses`. */
  function Select(t: Tree, v: nat): Ref {
    match t
    case Leaf(stmts, _) => stmts
    case If(_, msb, thens, elses) => if Bit(v, msb) then Select(thens, v) else Select(elses, v)
  }

  /** Every path tests bits below n in falling order. */
  predicate Ordered(t: Tree, n: nat) {
    t.If? ==> t.msb < n && Ordered(t.thens, t.msb) && Ordered(t.elses, t.msb)
  }

  function Depth(t: Tree): nat {
    if t.Leaf? then 0 else 1 + if Depth(t.thens) > Depth(t.elses) then Depth(t.thens) else Depth(t.elses)
  }

  lemma {:induction false} OrderedDepth(t: Tree, n: nat)
    requires Ordered(t, n)
    ensures Depth(t) <= n
  {
    if t.If? {
      OrderedDepth(t.thens, t.msb);
      OrderedDepth(t.elses, t.msb);
    }
  }

  lemma {:induction false} SelectLowBits(t: Tree, n: nat, v: nat, u: nat)
    requires Ordered(t, n) && forall i :: 0 <= i < n ==> Bit(v, i) == Bit(u, i)
    ensures Select(t, v) == Select(t, u)
  {
    if t.If? {
      SelectLowBits(t.thens, t.msb, v, u);
      SelectLowBits(t.elses, t.msb, v, u);
    }
  }

  lemma {:induction false} AddHighBit(v: nat, m: nat, i: nat)
    requires i < m
    ensures Bit(v + Pow2(m), i) == Bit(v, i)
  {
    assert (v + Pow2(m)) / 2 == v / 2 + Pow2(m - 1);
    if i > 0 { AddHighBit(v / 2, m - 1, i - 1); }
  }

  lemma SelectAddHighBit(t: Tree, m: nat, v: nat)
    requires Ordered(t, m)
    ensures Select(t, v + Pow2(m)) == Select(t, v)
  {
    forall i | 0 <= i < m ensures Bit(v + Pow2(m), i) == Bit(v, i) { AddHighBit(v, m, i); }
    SelectLowBits(t, m, v + Pow2(m), v);
  }

  /** Bit m tells the halves of a region apart. */
  lemma {:induction false} HalfBit(upper: nat, m: nat, r: nat)
    requires Low(upper, m + 1) == 0 && r < Pow2(m + 1)
    ensures Bit(upper + r, m) == (r >= Pow2(m))
  {
    if m > 0 {
      assert (upper + r) / 2 == upper / 2 + r / 2;
      HalfBit(upper / 2, m - 1, r / 2);
    }
  }

  lemma HalfOf(upper: nat, m: nat, v: nat)
    requires Low(upper, m + 1) == 0 && upper <= v < upper + 2 * Pow2(m)
    ensures Bit(v, m) == (v >= upper + Pow2(m))
  {
    HalfBit(upper, m, v - upper);
  }

  lemma JoinedOrdered(b0: Built, b1: Built, same: bool, msb: nat)
    ensures Ordered(b0.tree, msb) && Ordered(b1.tree, msb) ==> Ordered(Joined(b0, b1, same, msb).tree, msb + 1)
  {
  }

  lemma {:induction false} RecurseOrdered(table: seq<Ref>, n: nat, upper: nat, next: nat)
    requires Low(upper, n) == 0 && upper + Pow2(n) <= |table|
    ensures Ordered(Recurse(table, n, upper, next).tree, n)
    decreases n, 1
  {
    if n > 0 {
      var b0, b1 := Unfold(table, n, upper, next);
      HalvesOrdered(table, n, upper, next, b0, b1);
      JoinedOrdered(b0, b1, SameHalves(table, upper, Pow2(n - 1)), n - 1);
    }
  }

  lemma {:induction false} HalvesOrdered(table: seq<Ref>, n: nat, upper: nat, next: nat, b0: Built, b1: Built)
    requires Halves(table, n, upper, next, b0, b1)
    ensures Ordered(b0.tree, n - 1) && Ordered(b1.tree, n - 1)
    decreases n, 0
  {
    RecurseOrdered(table, n - 1, upper, next);
    RecurseOrdered(table, n - 1, upper + Pow2(n - 1), b0.next);
  }

  lemma SelectAttached(t: Tree, v: nat)
    ensures Select(Attached(t), v) == Select(t, v)
  {
  }

  // ---------------------------------------------------------------- nodes

  /** How often the IF node k occurs in a tree. */
  function Count(t: Tree, k: nat): nat {
    if t.Leaf? then 0 else (if t.node == k then 1 else 0) + Count(t.thens, k) + Count(t.elses, k)
  }

  function CountAll(ts: seq<Tree>, k: nat): nat {
    if ts == [] then 0 else CountAll(ts[..|ts| - 1], k) + Count(ts[|ts| - 1], k)
  }

  lemma {:induction false} CountConcat(s: seq<Tree>, t: seq<Tree>, k: nat)
    ensures CountAll(s + t, k) == CountAll(s, k) + CountAll(t, k)
  {
    if t == [] {
      assert s + t == s;
    } else {
      assert (s + t)[..|s + t| - 1] == s + t[..|t| - 1];
      CountConcat(s, t[..|t| - 1], k);
    }
  }

  /** Node k is accounted for: if the call allocated it, it is once in the result or was once
      deleted; if not, neither has it. */
  ghost predicate Accounted(b: Built, next: nat, k: nat) {
    next <= b.next && Count(b.tree, k) + CountAll(b.deleted, k) == if next <= k < b.next then 1 else 0
  }

  /** Different calls return the same pointer only for the same original statements. */
  lemma SamePointerLeaf(b0: Built, b1: Built, next: nat)
    requires SamePointer(b0.tree, b1.tree)
    requires b0.tree.If? ==> Accounted(b0, next, b0.tree.node) && Accounted(b1, b0.next, b0.tree.node)
    ensures b0.tree.Leaf? && b1.tree.Leaf? && b0.tree.stmts == b1.tree.stmts
  {
  }

  lemma JoinedAccounted(b0: Built, b1: Built, same: bool, msb: nat, next: nat, k: nat)
    requires Accounted(b0, next, k) && Accounted(b1, b0.next, k)
    requires SamePointer(b0.tree, b1.tree) ==> b1.tree.Leaf?
    ensures Accounted(Joined(b0, b1, same, msb), next, k)
  {
    var deleted := b0.deleted + b1.deleted;
    CountConcat(b0.deleted, b1.deleted, k);
    assert (deleted + [b1.tree])[..|deleted|] == deleted;
  }

  /** No IF node is lost, deleted twice, or deleted and kept. */
  lemma {:induction false} RecurseAccounted(table: seq<Ref>, n: nat, upper: nat, next: nat, k: nat)
    requires Low(upper, n) == 0 && upper + Pow2(n) <= |table|
    ensures Accounted(Recurse(table, n, upper, next), next, k)
    decreases n, 2
  {
    if n > 0 {
      var b0, b1 := Unfold(table, n, upper, next);
      JoinAccounted(table, n, upper, next, b0, b1, k);
    }
  }

  lemma JoinAccounted(table: seq<Ref>, n: nat, upper: nat, next: nat, b0: Built, b1: Built, k: nat)
    requires Halves(table, n, upper, next, b0, b1)
    ensures Accounted(Joined(b0, b1, SameHalves(table, upper, Pow2(n - 1)), n - 1), next, k)
    decreases n, 1
  {
    RecurseAccounted(table, n - 1, upper, next, k);
    RecurseAccounted(table, n - 1, upper + Pow2(n - 1), b0.next, k);
    RecurseSamePointer(table, n, upper, next, b0, b1);
    JoinedAccounted(b0, b1, SameHalves(table, upper, Pow2(n - 1)), n - 1, next, k);
  }

  lemma RecurseSamePointer(table: seq<Ref>, n: nat, upper: nat, next: nat, b0: Built, b1: Built)
    requires Halves(table, n, upper, next, b0, b1)
    ensures SamePointer(b0.tree, b1.tree) ==> b0.tree.Leaf? && b1.tree.Leaf? && b0.tree.stmts == b1.tree.stmts
    decreases n, 0
  {
    if SamePointer(b0.tree, b1.tree) {
      if b0.tree.If? {
        RecurseAccounted(table, n - 1, upper, next, b0.tree.node);
        RecurseAccounted(table, n - 1, upper + Pow2(n - 1), b0.next, b0.tree.node);
      }
      SamePointerLeaf(b0, b1, next);
    }
  }

  ghost predicate Halves(table: seq<Ref>, n: nat, upper: nat, next: nat, b0: Built, b1: Built) {
    n > 0 && upper + 2 * Pow2(n - 1) <= |table| &&
    Low(upper, n - 1) == 0 && Low(upper + Pow2(n - 1), n - 1) == 0 &&
    b0 == Recurse(table, n - 1, upper, next) && b1 == Recurse(table, n - 1, upper + Pow2(n - 1), b0.next)
  }

  // ---------------------------------------------------------------- meaning of the result

  lemma JoinedSelects(b0: Built, b1: Built, same: bool, msb: nat, v: nat)
    ensures !SamePointer(b0.tree, b1.tree) && !same ==>
              Select(Joined(b0, b1, same, msb).tree, v) == Select(if Bit(v, msb) then b1.tree else b0.tree, v)
    ensures SamePointer(b0.tree, b1.tree) || same ==> Joined(b0, b1, same, msb).tree == b0.tree
  {
    SelectAttached(b0.tree, v);
    SelectAttached(b1.tree, v);
  }

  /** The tree looks up the table. */
  lemma {:induction false} RecurseSelects(table: seq<Ref>, n: nat, upper: nat, next: nat, v: nat)
    requires Low(upper, n) == 0 && upper + Pow2(n) <= |table| && upper <= v < upper + Pow2(n)
    ensures Select(Recurse(table, n, upper, next).tree, v) == table[v]
    decreases n, 2
  {
    if n > 0 {
      var b0, b1 := Unfold(table, n, upper, next);
      JoinSelects(table, n, upper, next, b0, b1, v);
    }
  }

  lemma {:induction false} JoinSelects(table: seq<Ref>, n: nat, upper: nat, next: nat, b0: Built, b1: Built, v: nat)
    requires Halves(table, n, upper, next, b0, b1) && upper <= v < upper + 2 * Pow2(n - 1) && Low(upper, n) == 0
    ensures Select(Joined(b0, b1, SameHalves(table, upper, Pow2(n - 1)), n - 1).tree, v) == table[v]
    decreases n, 1
  {
    var half: nat := Pow2(n - 1);
    HalfOf(upper, n - 1, v);
    if v < upper + half {
      BuiltSelects(table, n - 1, upper, next, v, b0);
    } else {
      BuiltSelects(table, n - 1, upper + half, b0.next, v, b1);
      UpperSelects(table, n, upper, next, b0, b1, v);
    }
    JoinedRight(b0, b1, SameHalves(table, upper, half), n - 1, v, table[v]);
  }

  lemma BuiltSelects(table: seq<Ref>, n: nat, upper: nat, next: nat, v: nat, b: Built)
    requires Low(upper, n) == 0 && upper + Pow2(n) <= |table| && upper <= v < upper + Pow2(n)
    requires b == Recurse(table, n, upper, next)
    ensures Select(b.tree, v) == table[v]
    decreases n, 3
  {
    RecurseSelects(table, n, upper, next, v);
  }

  lemma JoinedRight(b0: Built, b1: Built, same: bool, msb: nat, v: nat, r: Ref)
    requires if Bit(v, msb) then Select(b1.tree, v) == r else Select(b0.tree, v) == r
    requires SamePointer(b0.tree, b1.tree) || same ==> Select(b0.tree, v) == r
    ensures Select(Joined(b0, b1, same, msb).tree, v) == r
  {
    JoinedSelects(b0, b1, same, msb, v);
  }

  /** When the lower half's tree is used for both halves, it is right for the upper one. */
  lemma UpperSelects(table: seq<Ref>, n: nat, upper: nat, next: nat, b0: Built, b1: Built, v: nat)
    requires Halves(table, n, upper, next, b0, b1)
    requires upper + Pow2(n - 1) <= v < upper + 2 * Pow2(n - 1) && Select(b1.tree, v) == table[v]
    ensures SamePointer(b0.tree, b1.tree) || SameHalves(table, upper, Pow2(n - 1)) ==> Select(b0.tree, v) == table[v]
    decreases n, 0
  {
    if SamePointer(b0.tree, b1.tree) {
      RecurseSamePointer(table, n, upper, next, b0, b1);
    } else if SameHalves(table, upper, Pow2(n - 1)) {
      var u: nat := v - Pow2(n - 1);
      assert table[u] == table[u + Pow2(n - 1)];
      BuiltSelects(table, n - 1, upper, next, u, b0);
      RecurseOrdered(table, n - 1, upper, next);
      SelectAddHighBit(b0.tree, n - 1, u);
    }
  }

  // ---------------------------------------------------------------- reduction

  /** The halves of every IF differ for some value. */
  ghost predicate Reduced(t: Tree) {
    t.If? ==> Differ(t.thens, t.elses) && Reduced(t.thens) && Reduced(t.elses)
  }

  ghost predicate Differ(t: Tree, u: Tree) {
    exists v: nat :: Select(t, v) != Select(u, v)
  }

  /** Nothing of the original statements is in the tree: only new IFs and clones. */
  predicate AllNew(t: Tree) {
    match t
    case Leaf(stmts, clone) => stmts == Null || clone
    case If(_, _, thens, elses) => AllNew(thens) && AllNew(elses)
  }

  /** A call returns an original statement pointer, or a tree of new nodes. */
  predicate OriginalOrNew(t: Tree) {
    if t.Leaf? then !t.clone else AllNew(t)
  }

  lemma JoinedReduced(b0: Built, b1: Built, same: bool, msb: nat)
    requires same || Differ(Attached(b1.tree), Attached(b0.tree))
    ensures Reduced(b0.tree) && Reduced(b1.tree) ==> Reduced(Joined(b0, b1, same, msb).tree)
    ensures OriginalOrNew(b0.tree) && OriginalOrNew(b1.tree) ==> OriginalOrNew(Joined(b0, b1, same, msb).tree)
  {
  }

  lemma {:induction false} RecurseReduced(table: seq<Ref>, n: nat, upper: nat, next: nat)
    requires Low(upper, n) == 0 && upper + Pow2(n) <= |table|
    ensures Reduced(Recurse(table, n, upper, next).tree) && OriginalOrNew(Recurse(table, n, upper, next).tree)
    decreases n, 1
  {
    if n > 0 {
      var b0, b1 := Unfold(table, n, upper, next);
      JoinReduced(table, n, upper, next, b0, b1);
    }
  }

  lemma {:induction false} JoinReduced(table: seq<Ref>, n: nat, upper: nat, next: nat, b0: Built, b1: Built)
    requires Halves(table, n, upper, next, b0, b1)
    ensures var t := Joined(b0, b1, SameHalves(table, upper, Pow2(n - 1)), n - 1).tree;
            Reduced(t) && OriginalOrNew(t)
    decreases n, 0
  {
    RecurseReduced(table, n - 1, upper, next);
    RecurseReduced(table, n - 1, upper + Pow2(n - 1), b0.next);
    HalvesDiffer(table, n, upper, next, b0, b1);
    JoinedReduced(b0, b1, SameHalves(table, upper, Pow2(n - 1)), n - 1);
  }

  lemma HalvesDiffer(table: seq<Ref>, n: nat, upper: nat, next: nat, b0: Built, b1: Built)
    requires Halves(table, n, upper, next, b0, b1)
    ensures SameHalves(table, upper, Pow2(n - 1)) || Differ(Attached(b1.tree), Attached(b0.tree))
  {
    var half := Pow2(n - 1);
    if !SameHalves(table, upper, half) {
      var a: nat :| upper <= a < upper + half && table[a] != table[a + half];
      DifferAt(table, n, upper, next, b0, b1, a);
    }
  }

  lemma DifferAt(table: seq<Ref>, n: nat, upper: nat, next: nat, b0: Built, b1: Built, a: nat)
    requires Halves(table, n, upper, next, b0, b1)
    requires upper <= a < upper + Pow2(n - 1) && table[a] != table[a + Pow2(n - 1)]
    ensures Select(Attached(b1.tree), a) != Select(Attached(b0.tree), a)
  {
    RecurseSelects(table, n - 1, upper, next, a);
    UpperAt(table, n, upper, b0.next, b1.tree, a);
    SelectAttached(b0.tree, a);
    SelectAttached(b1.tree, a);
  }

  lemma UpperAt(table: seq<Ref>, n: nat, upper: nat, next: nat, t: Tree, a: nat)
    requires n > 0 && Low(upper + Pow2(n - 1), n - 1) == 0 && upper + 2 * Pow2(n - 1) <= |table|
    requires t == Recurse(table, n - 1, upper + Pow2(n - 1), next).tree && upper <= a < upper + Pow2(n - 1)
    ensures Select(t, a) == table[a + Pow2(n - 1)]
  {
    RecurseSelects(table, n - 1, upper + Pow2(n - 1), next, a + Pow2(n - 1));
    RecurseOrdered(table, n - 1, upper + Pow2(n - 1), next);
    SelectAddHighBit(t, n - 1, a);
  }

  lemma {:induction false} ConstantIsLeaf(table: seq<Ref>, n: nat, upper: nat, next: nat, r: Ref, b: Built)
    requires Low(upper, n) == 0 && Constant(table, upper, Pow2(n), r) && b == Recurse(table, n, upper, next)
    ensures b.tree == Leaf(r, false)
    decreases n, 1
  {
    if n > 0 {
      var b0, b1 := Unfold(table, n, upper, next);
      JoinConstant(table, n, upper, next, b0, b1, Pow2(n - 1), r);
    }
  }

  lemma JoinConstant(table: seq<Ref>, n: nat, upper: nat, next: nat, b0: Built, b1: Built, half: nat, r: Ref)
    requires Halves(table, n, upper, next, b0, b1) && half == Pow2(n - 1) && Constant(table, upper, 2 * half, r)
    ensures Joined(b0, b1, SameHalves(table, upper, half), n - 1).tree == Leaf(r, false)
    decreases n, 0
  {
    ConstantHalves(table, upper, half, r);
    ConstantIsLeaf(table, n - 1, upper, next, r, b0);
    ConstantIsLeaf(table, n - 1, upper + half, b0.next, r, b1);
    JoinedLeaf(b0, b1, SameHalves(table, upper, half), n - 1, r);
  }

  ghost predicate Constant(table: seq<Ref>, lo: nat, n: nat, r: Ref) {
    lo + n <= |table| && forall v :: lo <= v < lo + n ==> table[v] == r
  }

  lemma ConstantHalves(table: seq<Ref>, lo: nat, half: nat, r: Ref)
    requires Constant(table, lo, 2 * half, r)
    ensures Constant(table, lo, half, r) && Constant(table, lo + half, half, r)
  {
  }

  lemma JoinedLeaf(b0: Built, b1: Built, same: bool, msb: nat, r: Ref)
    requires b0.tree == b1.tree == Leaf(r, false)
    ensures Joined(b0, b1, same, msb).tree == Leaf(r, false)
  {
  }

  /** What deleteTree is given is always an IF that the recursion made, of new nodes only. */
  predicate Disposable(ts: seq<Tree>) {
    forall i :: 0 <= i < |ts| ==> ts[i].If? && AllNew(ts[i])
  }

  lemma JoinedDeletes(b0: Built, b1: Built, same: bool, msb: nat)
    requires Disposable(b0.deleted) && Disposable(b1.deleted) && OriginalOrNew(b1.tree)
    requires same && b1.tree.Leaf? ==> SamePointer(b0.tree, b1.tree)
    ensures Disposable(Joined(b0, b1, same, msb).deleted)
  {
  }

  lemma {:induction false} RecurseDeletes(table: seq<Ref>, n: nat, upper: nat, next: nat)
    requires Low(upper, n) == 0 && upper + Pow2(n) <= |table|
    ensures Disposable(Recurse(table, n, upper, next).deleted)
    decreases n, 1
  {
    if n > 0 {
      var b0, b1 := Unfold(table, n, upper, next);
      JoinDeletes(table, n, upper, next, b0, b1);
    }
  }

  lemma {:induction false} JoinDeletes(table: seq<Ref>, n: nat, upper: nat, next: nat, b0: Built, b1: Built)
    requires Halves(table, n, upper, next, b0, b1)
    ensures Disposable(Joined(b0, b1, SameHalves(table, upper, Pow2(n - 1)), n - 1).deleted)
    decreases n, 0
  {
    RecurseDeletes(table, n - 1, upper, next);
    RecurseDeletes(table, n - 1, upper + Pow2(n - 1), b0.next);
    RecurseReduced(table, n - 1, upper + Pow2(n - 1), b0.next);
    LeafHalf(table, n, upper, next, b0, b1);
    JoinedDeletes(b0, b1, SameHalves(table, upper, Pow2(n - 1)), n - 1);
  }

  /** Were the upper half's tree a leaf, the halves would have been one pointer. */
  lemma LeafHalf(table: seq<Ref>, n: nat, upper: nat, next: nat, b0: Built, b1: Built)
    requires Halves(table, n, upper, next, b0, b1) && OriginalOrNew(b1.tree)
    ensures SameHalves(table, upper, Pow2(n - 1)) && b1.tree.Leaf? ==> SamePointer(b0.tree, b1.tree)
  {
    var half := Pow2(n - 1);
    if SameHalves(table, upper, half) && b1.tree.Leaf? {
      forall v: nat | upper <= v < upper + half ensures table[v] == b1.tree.stmts {
        UpperAt(table, n, upper, b0.next, b1.tree, v);
        assert table[v] == table[v + half];
      }
      ConstantIsLeaf(table, n - 1, upper, next, b1.tree.stmts, b0);
    }
  }

  // ---------------------------------------------------------------- the case statement

  lemma LowOfZero(n: nat)
    ensures Low(0, n) == 0
  {
  }

  /** `replaceCaseFast`: the tree that takes the place of the case statement. */
  function FastTree(table: seq<Ref>, w: nat): Tree
    requires Pow2(w) <= |table|
  {
    LowOfZero(w);
    Attached(Recurse(table, w, 0, 0).tree)
  }

  /** The decision tree runs the first matching item, tests at most w bits on any path, has no
      IF whose halves select alike, and leaves the original statements alone. */
  lemma FastTreeIsCase(kind: Kind, items: seq<Item>, w: nat, env: Env)
    ensures var t := FastTree(Bodies(kind, items, Pow2(w), env), w);
      Depth(t) <= w && Reduced(t) && AllNew(t) &&
      forall v: nat :: v < Pow2(w) ==> Select(t, v) == Chosen(kind, items, v, env)
  {
    var table := Bodies(kind, items, Pow2(w), env);
    LowOfZero(w);
    var b := Recurse(table, w, 0, 0);
    RecurseOrdered(table, w, 0, 0);
    OrderedDepth(b.tree, w);
    RecurseReduced(table, w, 0, 0);
    forall v: nat | v < Pow2(w) ensures Select(FastTree(table, w), v) == Chosen(kind, items, v, env) {
      RecurseSelects(table, w, 0, 0, v);
      SelectAttached(b.tree, v);
    }
  }

  /** deleteTree: only new IFs go, each once, and none that the result still uses. */
  lemma FastTreeDeletes(table: seq<Ref>, w: nat, k: nat)
    requires Low(0, w) == 0 && Pow2(w) <= |table|
    ensures Disposable(Recurse(table, w, 0, 0).deleted) && Accounted(Recurse(table, w, 0, 0), 0, k)
  {
    RecurseDeletes(table, w, 0, 0);
    RecurseAccounted(table, w, 0, 0, k);
  }
}
