/** `isCaseTreeFast`: decides whether a case statement is small and complete enough for a
    decision tree, and fills the table of the item that each value selects. */
module CaseTable {
  import opened Bits
  import opened CaseModel

  const CASE_OVERLAP_WIDTH: nat := 12
  const CASE_BARF: nat := 999999

  // ---------------------------------------------------------------- width

  function WidthStep(width: nat, c: Cond): nat {
    if !c.Const? then CASE_BARF else if |c.bits| > width then |c.bits| else width
  }

  /** The width after the first b conditions. */
  function CondsWidth(conds: seq<Cond>, b: nat, width: nat): nat
    requires b <= |conds|
  {
    if b == 0 then width else WidthStep(CondsWidth(conds, b - 1, width), conds[b - 1])
  }

  function ItemsWidth(items: seq<Item>, a: nat): nat
    requires a <= |items|
  {
    if a == 0 then 0 else CondsWidth(items[a - 1].conds, |items[a - 1].conds|, ItemsWidth(items, a - 1))
  }

  function CondCount(items: seq<Item>, a: nat): nat
    requires a <= |items|
  {
    if a == 0 then 0 else CondCount(items, a - 1) + |items[a - 1].conds|
  }

  ghost predicate Narrow(c: Cond, w: nat) { c.Const? && |c.bits| <= w }

  lemma {:induction false} CondsWidthIs(conds: seq<Cond>, b: nat, width: nat, w: nat)
    requires b <= |conds| && w < CASE_BARF
    ensures CondsWidth(conds, b, width) >= width || CondsWidth(conds, b, width) >= CASE_BARF
    ensures CondsWidth(conds, b, width) <= w <==> width <= w && forall j :: 0 <= j < b ==> Narrow(conds[j], w)
  {
    if b > 0 { CondsWidthIs(conds, b - 1, width, w); }
  }

  /** The width bounds every constant; one condition that is not a constant makes it too big. */
  lemma {:induction false} ItemsWidthIs(items: seq<Item>, a: nat, w: nat)
    requires a <= |items| && w < CASE_BARF
    ensures ItemsWidth(items, a) <= w <==>
            forall i, j :: 0 <= i < a && 0 <= j < |items[i].conds| ==> Narrow(items[i].conds[j], w)
  {
    if a > 0 {
      ItemsWidthIs(items, a - 1, w);
      CondsWidthIs(items[a - 1].conds, |items[a - 1].conds|, ItemsWidth(items, a - 1), w);
    }
  }

  ghost predicate Analyzable(items: seq<Item>) {
    0 < ItemsWidth(items, |items|) <= CASE_OVERLAP_WIDTH
  }

  // ---------------------------------------------------------------- the table

  /** The table entry of v once a items and b conditions of the next one are entered. */
  ghost function Slot(kind: Kind, items: seq<Item>, a: nat, b: nat, v: nat, env: Env): Ref
    requires a <= |items| && (a < |items| ==> b <= |items[a].conds|)
  {
    var r := First(kind, items, v, env, 0);
    if r < a then ItemRef(r)
    else if a < |items| && AnyFits(kind, items[a].conds, b, v, env) then ItemRef(a)
    else Null
  }

  lemma SlotStep(kind: Kind, items: seq<Item>, a: nat, b: nat, v: nat, env: Env)
    requires a < |items| && b < |items[a].conds|
    ensures Slot(kind, items, a, b + 1, v, env) ==
            if CondFits(kind, items[a].conds[b], v, env) && Slot(kind, items, a, b, v, env) == Null
            then ItemRef(a) else Slot(kind, items, a, b, v, env)
  {
    var conds := items[a].conds;
    if AnyFits(kind, conds, b + 1, v, env) && !CondFits(kind, conds[b], v, env) {
      var j :| 0 <= j < b + 1 && CondFits(kind, conds[j], v, env);
      assert j < b;
    }
  }

  lemma SlotNext(kind: Kind, items: seq<Item>, a: nat, v: nat, env: Env)
    requires a < |items|
    ensures Slot(kind, items, a + 1, 0, v, env) ==
            if IsDefault(items[a]) && Slot(kind, items, a, 0, v, env) == Null
            then ItemRef(a) else Slot(kind, items, a, |items[a].conds|, v, env)
  {
    var r := First(kind, items, v, env, 0);
    if r > a { assert !Runs(kind, items[a], v, env); }
  }

  /** The first condition b of item a meets a value that is already taken. */
  ghost predicate OverlapAt(kind: Kind, items: seq<Item>, a: nat, b: nat, v: nat, env: Env)
    requires a < |items| && b < |items[a].conds|
  {
    CondFits(kind, items[a].conds[b], v, env) && !items[a].ignoreOverlap && Slot(kind, items, a, b, v, env) != Null
  }

  ghost predicate Overlapped(kind: Kind, items: seq<Item>, a: nat, b: nat, w: nat, env: Env)
    requires a <= |items| && (a < |items| ==> b <= |items[a].conds|)
  {
    exists i: nat, j: nat, v: nat :: i < |items| && j < |items[i].conds| && v < Pow2(w) &&
      (i < a || (i == a && j < b)) && OverlapAt(kind, items, i, j, v, env)
  }

  ghost predicate OverlapBelow(kind: Kind, items: seq<Item>, a: nat, b: nat, n: nat, env: Env)
    requires a < |items| && b < |items[a].conds|
  {
    exists v: nat :: v < n && OverlapAt(kind, items, a, b, v, env)
  }

  lemma OverlapStep(kind: Kind, items: seq<Item>, a: nat, b: nat, w: nat, env: Env)
    requires a < |items| && b < |items[a].conds|
    ensures Overlapped(kind, items, a, b + 1, w, env) <==>
            Overlapped(kind, items, a, b, w, env) || OverlapBelow(kind, items, a, b, Pow2(w), env)
  {
  }

  lemma OverlapNext(kind: Kind, items: seq<Item>, a: nat, w: nat, env: Env)
    requires a < |items|
    ensures Overlapped(kind, items, a + 1, 0, w, env) == Overlapped(kind, items, a, |items[a].conds|, w, env)
  {
  }

  ghost predicate Covered(kind: Kind, items: seq<Item>, w: nat, env: Env) {
    forall v: nat :: v < Pow2(w) ==> First(kind, items, v, env, 0) < |items|
  }

  /** The whole table at that point. */
  ghost function Row(kind: Kind, items: seq<Item>, a: nat, b: nat, n: nat, env: Env): (row: seq<Ref>)
    requires a <= |items| && (a < |items| ==> b <= |items[a].conds|)
    ensures |row| == n
  {
    seq(n, v requires 0 <= v < n => Slot(kind, items, a, b, v, env))
  }

  /** What the code asks of a value: a condition that can match, and the masked compare. */
  predicate Takes(kind: Kind, bits: seq<FourState>, v: nat) {
    !NeverItem(kind, bits) && MaskCompare(bits, v)
  }

  /** Entering one constant of item a turns the table row0 into row1. */
  ghost predicate Entered(kind: Kind, bits: seq<FourState>, a: nat, row0: seq<Ref>, row1: seq<Ref>) {
    |row0| == |row1| &&
    forall v: nat :: v < |row0| ==>
      row1[v] == if Takes(kind, bits, v) && row0[v] == Null then ItemRef(a) else row0[v]
  }

  /** It meets a value below n that is already taken. */
  ghost predicate Clash(kind: Kind, bits: seq<FourState>, row0: seq<Ref>, n: nat)
    requires n <= |row0|
  {
    exists v: nat :: v < n && Takes(kind, bits, v) && row0[v] != Null
  }

  lemma RowStep(kind: Kind, items: seq<Item>, a: nat, b: nat, n: nat, env: Env)
    requires a < |items| && b < |items[a].conds| && items[a].conds[b].Const?
    ensures Entered(kind, items[a].conds[b].bits, a, Row(kind, items, a, b, n, env), Row(kind, items, a, b + 1, n, env))
  {
    var bits := items[a].conds[b].bits;
    forall v: nat | v < n
      ensures Slot(kind, items, a, b + 1, v, env) ==
              if Takes(kind, bits, v) && Slot(kind, items, a, b, v, env) == Null then ItemRef(a)
              else Slot(kind, items, a, b, v, env)
    {
      MaskIsRule(kind, bits, v);
      SlotStep(kind, items, a, b, v, env);
    }
  }

  lemma RowClash(kind: Kind, items: seq<Item>, a: nat, b: nat, w: nat, env: Env)
    requires a < |items| && b < |items[a].conds| && items[a].conds[b].Const?
    ensures Overlapped(kind, items, a, b + 1, w, env) <==>
            Overlapped(kind, items, a, b, w, env) ||
            (!items[a].ignoreOverlap &&
             Clash(kind, items[a].conds[b].bits, Row(kind, items, a, b, Pow2(w), env), Pow2(w)))
  {
    var bits := items[a].conds[b].bits;
    var row := Row(kind, items, a, b, Pow2(w), env);
    OverlapStep(kind, items, a, b, w, env);
    forall v: nat | v < Pow2(w)
      ensures OverlapAt(kind, items, a, b, v, env) ==
              (!items[a].ignoreOverlap && Takes(kind, bits, v) && row[v] != Null)
    {
      MaskIsRule(kind, bits, v);
    }
  }

  lemma RowNext(kind: Kind, items: seq<Item>, a: nat, n: nat, env: Env)
    requires a < |items|
    ensures !IsDefault(items[a]) ==>
            Row(kind, items, a + 1, 0, n, env) == Row(kind, items, a, |items[a].conds|, n, env)
    ensures IsDefault(items[a]) ==>
            Filled(a, Row(kind, items, a, 0, n, env), Row(kind, items, a + 1, 0, n, env))
  {
    forall v: nat | v < n
      ensures Slot(kind, items, a + 1, 0, v, env) ==
            if IsDefault(items[a]) && Slot(kind, items, a, 0, v, env) == Null
            then ItemRef(a) else Slot(kind, items, a, |items[a].conds|, v, env)
    {
      SlotNext(kind, items, a, v, env);
    }
  }

  ghost predicate Filled(a: nat, row0: seq<Ref>, row1: seq<Ref>) {
    |row0| == |row1| &&
    forall v: nat :: v < |row0| ==> row1[v] == if row0[v] == Null then ItemRef(a) else row0[v]
  }

  lemma RowEmpty(kind: Kind, items: seq<Item>, n: nat, env: Env)
    ensures forall v: nat :: v < n ==> Row(kind, items, 0, 0, n, env)[v] == Null
  {
  }

  lemma NoneOverlapped(kind: Kind, items: seq<Item>, w: nat, env: Env)
    ensures !Overlapped(kind, items, 0, 0, w, env)
  {
  }

  /** The full table: null where nothing matches, else the first item that does. */
  lemma RowFull(kind: Kind, items: seq<Item>, n: nat, env: Env)
    ensures forall v: nat :: v < n ==>
              Row(kind, items, |items|, 0, n, env)[v] ==
              if First(kind, items, v, env, 0) < |items| then ItemRef(First(kind, items, v, env, 0)) else Null
  {
  }

  /** The table of statements that the tree is built from. */
  ghost function Bodies(kind: Kind, items: seq<Item>, n: nat, env: Env): (t: seq<Ref>)
    ensures |t| == n && forall v: nat :: v < n ==> t[v] == Chosen(kind, items, v, env)
  {
    seq(n, v requires 0 <= v < n => Chosen(kind, items, v, env))
  }

  lemma BodiesAre(kind: Kind, items: seq<Item>, n: nat, env: Env)
    requires forall v: nat :: v < n ==> Row(kind, items, |items|, 0, n, env)[v] != Null
    ensures forall v: nat :: v < n ==>
              Row(kind, items, |items|, 0, n, env)[v].ItemRef? &&
              Row(kind, items, |items|, 0, n, env)[v].index < |items| &&
              Bodies(kind, items, n, env)[v] == items[Row(kind, items, |items|, 0, n, env)[v].index].body
  {
    RowFull(kind, items, n, env);
  }

  ghost predicate Holds(t: array<Ref>, row: seq<Ref>)
    reads t
  {
    |row| <= t.Length && forall v: nat :: v < |row| ==> t[v] == row[v]
  }

  lemma Sizes(w: nat)
    requires w <= 12
    ensures Pow2(w) <= 4096
  {
    Pow2Mono(w, 12);
    assert Pow2(6) == 64;
    assert Pow2(12) == 4096;
  }

  class CaseVisitor {
    var caseWidth: nat
    var caseItems: nat
    var caseNoOverlapsAllCovered: bool
    const valueItem: array<Ref>

    constructor ()
      ensures !caseNoOverlapsAllCovered && fresh(valueItem) && valueItem.Length == 4096
    {
      caseWidth, caseItems, caseNoOverlapsAllCovered := 0, 0, false;
      valueItem := new Ref[4096];
    }

    method MeasureItems(items: seq<Item>)
      modifies this
      ensures caseWidth == ItemsWidth(items, |items|) && caseItems == CondCount(items, |items|)
      ensures caseNoOverlapsAllCovered
    {
      var width: nat := 0;
      caseItems := 0;
      caseNoOverlapsAllCovered := true;
      for a := 0 to |items|
        invariant width == ItemsWidth(items, a) && caseItems == CondCount(items, a) && caseNoOverlapsAllCovered
      {
        var conds := items[a].conds;
        for b := 0 to |conds|
          invariant width == CondsWidth(conds, b, ItemsWidth(items, a))
          invariant caseItems == CondCount(items, a) + b && caseNoOverlapsAllCovered
        {
          if conds[b].Const? && |conds[b].bits| > width { width := |conds[b].bits|; }
          if !conds[b].Const? { width := CASE_BARF; }
          caseItems := caseItems + 1;
        }
      }
      caseWidth := width;
    }

    /** The innermost loop: one constant against every value. */
    method EnterCond(kind: Kind, bits: seq<FourState>, a: nat, ignoreOverlap: bool, bitched0: bool,
                     ghost row0: seq<Ref>, ghost row1: seq<Ref>) returns (bitched: bool)
      requires |row0| == Pow2(caseWidth) && Holds(valueItem, row0) && Entered(kind, bits, a, row0, row1)
      requires bitched0 == !caseNoOverlapsAllCovered
      modifies valueItem, this`caseNoOverlapsAllCovered
      ensures Holds(valueItem, row1)
      ensures bitched == (bitched0 || (!ignoreOverlap && Clash(kind, bits, row0, |row0|)))
      ensures bitched == !caseNoOverlapsAllCovered
    {
      bitched := bitched0;
      if NeverItem(kind, bits) {
      } else {
        var mask := NonX(bits);
        var val := Ones(bits);
        for i := 0 to Pow2(caseWidth)
          invariant forall v: nat :: v < i ==> valueItem[v] == row1[v]
          invariant forall v: nat :: i <= v < |row0| ==> valueItem[v] == row0[v]
          invariant bitched == (bitched0 || (!ignoreOverlap && Clash(kind, bits, row0, i)))
          invariant bitched == !caseNoOverlapsAllCovered
        {
          ghost var n: nat := i;
          assert Takes(kind, bits, n) == (And(i, mask) == val);
          if And(i, mask) == val {
            if valueItem[i] == Null {
              valueItem[i] := ItemRef(a);
            } else if !ignoreOverlap && !bitched {
              bitched := true;
              caseNoOverlapsAllCovered := false;
            }
          }
        }
      }
    }

    /** The default's turn: it gets every value that is left. */
    method EnterDefault(a: nat, ghost row0: seq<Ref>, ghost row1: seq<Ref>)
      requires |row0| == Pow2(caseWidth) && Holds(valueItem, row0) && Filled(a, row0, row1)
      modifies valueItem
      ensures Holds(valueItem, row1)
    {
      for i := 0 to Pow2(caseWidth)
        invariant forall v: nat :: v < i ==> valueItem[v] == row1[v]
        invariant forall v: nat :: i <= v < |row0| ==> valueItem[v] == row0[v]
      {
        if valueItem[i] == Null { valueItem[i] := ItemRef(a); }
      }
    }

    /** All the conditions of an item, and the rest of the table if it is the default. */
    method EnterItem(kind: Kind, items: seq<Item>, a: nat, bitched0: bool, ghost env: Env) returns (bitched: bool)
      requires a < |items| && forall j :: 0 <= j < |items[a].conds| ==> items[a].conds[j].Const?
      requires Holds(valueItem, Row(kind, items, a, 0, Pow2(caseWidth), env))
      requires bitched0 == Overlapped(kind, items, a, 0, caseWidth, env)
      requires bitched0 == !caseNoOverlapsAllCovered
      modifies valueItem, this`caseNoOverlapsAllCovered
      ensures Holds(valueItem, Row(kind, items, a + 1, 0, Pow2(caseWidth), env))
      ensures bitched == Overlapped(kind, items, a + 1, 0, caseWidth, env)
      ensures bitched == !caseNoOverlapsAllCovered
    {
      bitched := bitched0;
      ghost var n := Pow2(caseWidth);
      for b := 0 to |items[a].conds|
        invariant Holds(valueItem, Row(kind, items, a, b, n, env))
        invariant bitched == Overlapped(kind, items, a, b, caseWidth, env)
        invariant bitched == !caseNoOverlapsAllCovered
      {
        RowStep(kind, items, a, b, n, env);
        RowClash(kind, items, a, b, caseWidth, env);
        bitched := EnterCond(kind, items[a].conds[b].bits, a, items[a].ignoreOverlap, bitched,
                             Row(kind, items, a, b, n, env), Row(kind, items, a, b + 1, n, env));
      }
      OverlapNext(kind, items, a, caseWidth, env);
      RowNext(kind, items, a, n, env);
      if IsDefault(items[a]) {
        EnterDefault(a, Row(kind, items, a, 0, n, env), Row(kind, items, a + 1, 0, n, env));
      }
    }

    /** The loop that fills the whole table. */
    method EnterItems(kind: Kind, items: seq<Item>, ghost env: Env)
      requires Pow2(caseWidth) <= valueItem.Length && caseNoOverlapsAllCovered
      requires forall i, j :: 0 <= i < |items| && 0 <= j < |items[i].conds| ==> items[i].conds[j].Const?
      modifies valueItem, this`caseNoOverlapsAllCovered
      ensures Holds(valueItem, Row(kind, items, |items|, 0, Pow2(caseWidth), env))
      ensures caseNoOverlapsAllCovered == !Overlapped(kind, items, |items|, 0, caseWidth, env)
    {
      for i := 0 to Pow2(caseWidth)
        invariant forall v: nat :: v < i ==> valueItem[v] == Null
        invariant caseNoOverlapsAllCovered
      {
        valueItem[i] := Null;
      }
      RowEmpty(kind, items, Pow2(caseWidth), env);
      NoneOverlapped(kind, items, caseWidth, env);
      var bitched := false;
      for a := 0 to |items|
        invariant Holds(valueItem, Row(kind, items, a, 0, Pow2(caseWidth), env))
        invariant bitched == Overlapped(kind, items, a, 0, caseWidth, env)
        invariant bitched == !caseNoOverlapsAllCovered
      {
        bitched := EnterItem(kind, items, a, bitched, env);
      }
    }

    /** The last two loops: is every value covered, and the items' statements in their place. */
    method TakeBodies(kind: Kind, items: seq<Item>, ghost env: Env) returns (covered: bool)
      requires Holds(valueItem, Row(kind, items, |items|, 0, Pow2(caseWidth), env))
      modifies valueItem, this`caseNoOverlapsAllCovered
      ensures covered == Covered(kind, items, caseWidth, env)
      ensures caseNoOverlapsAllCovered == (covered && old(caseNoOverlapsAllCovered))
      ensures covered && caseItems > 3 ==> Holds(valueItem, Bodies(kind, items, Pow2(caseWidth), env))
    {
      RowFull(kind, items, Pow2(caseWidth), env);
      ghost var row := Row(kind, items, |items|, 0, Pow2(caseWidth), env);
      covered := AllCovered(row);
      assert Covered(kind, items, caseWidth, env) == forall v: nat :: v < |row| ==> row[v] != Null;
      if covered && caseItems > 3 {
        BodiesAre(kind, items, Pow2(caseWidth), env);
        ConvertItems(items, row, Bodies(kind, items, Pow2(caseWidth), env));
      }
    }

    method AllCovered(ghost row: seq<Ref>) returns (covered: bool)
      requires |row| == Pow2(caseWidth) && Holds(valueItem, row)
      modifies this`caseNoOverlapsAllCovered
      ensures covered == forall v: nat :: v < |row| ==> row[v] != Null
      ensures caseNoOverlapsAllCovered == (covered && old(caseNoOverlapsAllCovered))
    {
      for i := 0 to Pow2(caseWidth)
        invariant forall v: nat :: v < i ==> row[v] != Null
        invariant caseNoOverlapsAllCovered == old(caseNoOverlapsAllCovered)
      {
        if valueItem[i] == Null {
          caseNoOverlapsAllCovered := false;
          assert row[i] == Null;
          return false;
        }
      }
      return true;
    }

    method ConvertItems(items: seq<Item>, ghost row: seq<Ref>, ghost bodies: seq<Ref>)
      requires |row| == |bodies| == Pow2(caseWidth) && Holds(valueItem, row)
      requires forall v: nat :: v < |row| ==>
        row[v].ItemRef? && row[v].index < |items| && bodies[v] == items[row[v].index].body
      modifies valueItem
      ensures Holds(valueItem, bodies)
    {
      for i := 0 to Pow2(caseWidth)
        invariant forall v: nat :: v < i ==> valueItem[v] == bodies[v]
        invariant forall v: nat :: i <= v < |row| ==> valueItem[v] == row[v]
      {
        ghost var n: nat := i;
        assert row[n].ItemRef?;
        valueItem[i] := items[valueItem[i].index].body;
      }
    }

    /** `isCaseTreeFast`. */
    method IsCaseTreeFast(kind: Kind, items: seq<Item>, ghost env: Env) returns (fast: bool)
      requires valueItem.Length == 4096
      modifies this, valueItem
      ensures caseWidth == ItemsWidth(items, |items|) && caseItems == CondCount(items, |items|)
      ensures fast == (Analyzable(items) && Covered(kind, items, caseWidth, env) && caseItems > 3)
      ensures caseNoOverlapsAllCovered == (Analyzable(items) && Covered(kind, items, caseWidth, env) &&
                                           !Overlapped(kind, items, |items|, 0, caseWidth, env))
      ensures fast ==> Holds(valueItem, Bodies(kind, items, Pow2(caseWidth), env))
    {
      MeasureItems(items);
      if caseWidth == 0 || caseWidth > CASE_OVERLAP_WIDTH {
        caseNoOverlapsAllCovered := false;
        return false;
      }
      Sizes(caseWidth);
      ItemsWidthIs(items, |items|, caseWidth);
      EnterItems(kind, items, env);
      var covered := TakeBodies(kind, items, env);
      return covered && caseItems > 3;
    }
  }
}
