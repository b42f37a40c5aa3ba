/** The parallel_case / unique check that V3Assert hangs under a case statement, and when
    V3Case may throw it away. */
module CaseParallel {
  import opened Bits
  import opened CaseModel
  import opened CaseTable

  datatype Pragmas = Pragmas(full: bool, parallel: bool, priority: bool, unique: bool, unique0: bool)

  /** The attached check: none, an operator built on a null operand (which the constructor
      rejects), or the one-hot property over all the item expressions. */
  datatype Check = NoCheck | NullOperand | OneHot(conds: seq<Cond>, allowNone: bool)

  predicate AnyDefault(items: seq<Item>) {
    exists i :: 0 <= i < |items| && IsDefault(items[i])
  }

  predicate AddsDefault(items: seq<Item>, p: Pragmas) {
    (p.full || p.priority) && !AnyDefault(items)
  }

  predicate WantsCheck(p: Pragmas) { p.parallel || p.unique || p.unique0 }

  /** The items once the failing default is added. */
  function Completed(items: seq<Item>, p: Pragmas, fire: Ref): seq<Item> {
    if AddsDefault(items, p) then items + [Item([], fire, false)] else items
  }

  /** The AstEq of the case value and a condition. */
  predicate EqHolds(c: Cond, v: nat, env: Env) {
    match c
    case Const(bits) => v == Ones(bits)
    case Range(lo, hi) => v == env(lo) == env(hi)
    case Expr(id) => v == env(id)
  }

  /** How many of the first b conditions are equal to v. */
  function CountConds(conds: seq<Cond>, b: nat, v: nat, env: Env): nat
    requires b <= |conds|
  {
    if b == 0 then 0 else CountConds(conds, b - 1, v, env) + if EqHolds(conds[b - 1], v, env) then 1 else 0
  }

  /** How many of the conditions of the first a items are equal to v. */
  function CountItems(items: seq<Item>, a: nat, v: nat, env: Env): nat
    requires a <= |items|
  {
    if a == 0 then 0
    else CountItems(items, a - 1, v, env) + CountConds(items[a - 1].conds, |items[a - 1].conds|, v, env)
  }

  /** Whether the check passes for v: the Eq's are one-hot, or at most one-hot. */
  predicate Passes(check: Check, v: nat, env: Env) {
    check.OneHot? ==>
      var n := CountConds(check.conds, |check.conds|, v, env);
      n == 1 || (n == 0 && check.allowNone)
  }

  lemma {:induction false} CountPrepend(c: Cond, conds: seq<Cond>, n: nat, v: nat, env: Env)
    requires n <= |conds|
    ensures CountConds([c] + conds, n + 1, v, env) ==
            CountConds(conds, n, v, env) + if EqHolds(c, v, env) then 1 else 0
  {
    if n > 0 {
      CountPrepend(c, conds, n - 1, v, env);
    }
  }

  /** All the conditions, each put in front of those before it. */
  function Gathered(conds: seq<Cond>, b: nat, propp: seq<Cond>): seq<Cond>
    requires b <= |conds|
  {
    if b == 0 then propp else [conds[b - 1]] + Gathered(conds, b - 1, propp)
  }

  function GatheredItems(items: seq<Item>, a: nat): seq<Cond>
    requires a <= |items|
  {
    if a == 0 then [] else Gathered(items[a - 1].conds, |items[a - 1].conds|, GatheredItems(items, a - 1))
  }

  lemma {:induction false} GatheredCount(conds: seq<Cond>, b: nat, propp: seq<Cond>, v: nat, env: Env)
    requires b <= |conds|
    ensures CountConds(Gathered(conds, b, propp), |Gathered(conds, b, propp)|, v, env) ==
            CountConds(propp, |propp|, v, env) + CountConds(conds, b, v, env)
  {
    if b > 0 {
      var g := Gathered(conds, b - 1, propp);
      GatheredCount(conds, b - 1, propp, v, env);
      CountPrepend(conds[b - 1], g, |g|, v, env);
    }
  }

  lemma {:induction false} GatheredItemsCount(items: seq<Item>, a: nat, v: nat, env: Env)
    requires a <= |items|
    ensures CountConds(GatheredItems(items, a), |GatheredItems(items, a)|, v, env) ==
            CountItems(items, a, v, env)
  {
    if a > 0 {
      GatheredItemsCount(items, a - 1, v, env);
      GatheredCount(items[a - 1].conds, |items[a - 1].conds|, GatheredItems(items, a - 1), v, env);
    }
  }

  /** What the visitor attaches. */
  function CheckOf(items: seq<Item>, p: Pragmas, fire: Ref): Check {
    var completed := Completed(items, p, fire);
    if !WantsCheck(p) || completed == [] then NoCheck
    else
      var propp := GatheredItems(completed, |completed|);
      if propp == [] then NullOperand else OneHot(propp, AnyDefault(items) || p.unique0)
  }

  // ---------------------------------------------------------------- what it means

  /** Condition j of item i is equal to v. */
  ghost predicate Hits(items: seq<Item>, i: nat, j: nat, v: nat, env: Env) {
    i < |items| && j < |items[i].conds| && EqHolds(items[i].conds[j], v, env)
  }

  ghost predicate HitNever(items: seq<Item>, v: nat, env: Env) {
    forall i: nat, j: nat :: !Hits(items, i, j, v, env)
  }

  ghost predicate HitTwice(items: seq<Item>, v: nat, env: Env) {
    exists i: nat, j: nat, k: nat, l: nat ::
      Hits(items, i, j, v, env) && Hits(items, k, l, v, env) && (i != k || j != l)
  }

  ghost predicate AnyCond(items: seq<Item>) {
    exists i :: 0 <= i < |items| && items[i].conds != []
  }

  lemma {:induction false} CondsCount(conds: seq<Cond>, b: nat, v: nat, env: Env)
    requires b <= |conds|
    ensures CountConds(conds, b, v, env) == 0 <==> forall j :: 0 <= j < b ==> !EqHolds(conds[j], v, env)
    ensures CountConds(conds, b, v, env) >= 2 <==>
            exists j, k :: 0 <= j < k < b && EqHolds(conds[j], v, env) && EqHolds(conds[k], v, env)
  {
    if b > 0 { CondsCount(conds, b - 1, v, env); }
  }

  /** Two of the first a items' conditions are equal to v. */
  ghost predicate TwiceBelow(items: seq<Item>, a: nat, v: nat, env: Env) {
    exists i: nat, j: nat, k: nat, l: nat ::
      i < a && k < a && Hits(items, i, j, v, env) && Hits(items, k, l, v, env) && (i != k || j != l)
  }

  ghost predicate NeverBelow(items: seq<Item>, a: nat, v: nat, env: Env) {
    forall i: nat, j: nat :: i < a ==> !Hits(items, i, j, v, env)
  }

  lemma {:induction false} ItemsCount(items: seq<Item>, a: nat, v: nat, env: Env)
    requires a <= |items|
    ensures CountItems(items, a, v, env) == 0 <==> NeverBelow(items, a, v, env)
    ensures CountItems(items, a, v, env) >= 2 <==> TwiceBelow(items, a, v, env)
  {
    if a > 0 {
      ItemsCount(items, a - 1, v, env);
      CondsCount(items[a - 1].conds, |items[a - 1].conds|, v, env);
      NeverStep(items, a - 1, v, env);
      TwiceStep(items, a - 1, v, env);
    }
  }

  lemma NeverStep(items: seq<Item>, a: nat, v: nat, env: Env)
    requires a < |items|
    ensures var conds := items[a].conds;
            NeverBelow(items, a + 1, v, env) <==>
            NeverBelow(items, a, v, env) && forall j :: 0 <= j < |conds| ==> !EqHolds(conds[j], v, env)
  {
    forall j | 0 <= j < |items[a].conds| ensures Hits(items, a, j, v, env) <==> EqHolds(items[a].conds[j], v, env) { }
  }

  lemma TwiceStep(items: seq<Item>, a: nat, v: nat, env: Env)
    requires a < |items|
    ensures var conds := items[a].conds;
            TwiceBelow(items, a + 1, v, env) <==>
            TwiceBelow(items, a, v, env) ||
            (exists j, k :: 0 <= j < k < |conds| && EqHolds(conds[j], v, env) && EqHolds(conds[k], v, env)) ||
            (!NeverBelow(items, a, v, env) && exists j :: 0 <= j < |conds| && EqHolds(conds[j], v, env))
  {
    var conds := items[a].conds;
    forall j: nat ensures Hits(items, a, j, v, env) <==> j < |conds| && EqHolds(conds[j], v, env) { }
    if TwiceBelow(items, a + 1, v, env) {
      var i: nat, j: nat, k: nat, l: nat :| i < a + 1 && k < a + 1 &&
        Hits(items, i, j, v, env) && Hits(items, k, l, v, env) && (i != k || j != l);
      if i == a && k == a { assert j < l || l < j; }
    }
    if j, k :| 0 <= j < k < |conds| && EqHolds(conds[j], v, env) && EqHolds(conds[k], v, env) {
      assert Hits(items, a, j, v, env) && Hits(items, a, k, v, env);
    }
    if !NeverBelow(items, a, v, env) {
      var i: nat, l: nat :| i < a && Hits(items, i, l, v, env);
      if j :| 0 <= j < |conds| && EqHolds(conds[j], v, env) { assert Hits(items, a, j, v, env); }
    }
  }

  /** The added default has no conditions. */
  lemma CompletedHits(items: seq<Item>, p: Pragmas, fire: Ref, v: nat, env: Env)
    ensures var c := Completed(items, p, fire);
            (CountItems(c, |c|, v, env) == 0 <==> HitNever(items, v, env)) &&
            (CountItems(c, |c|, v, env) >= 2 <==> HitTwice(items, v, env))
  {
    var c := Completed(items, p, fire);
    ItemsCount(c, |c|, v, env);
    forall i: nat, j: nat ensures Hits(c, i, j, v, env) <==> Hits(items, i, j, v, env) {
      if i < |items| { assert c[i] == items[i]; }
    }
  }

  lemma {:induction false} SomeGathered(items: seq<Item>, a: nat)
    requires a <= |items|
    ensures GatheredItems(items, a) == [] <==> forall i :: 0 <= i < a ==> items[i].conds == []
  {
    if a > 0 { SomeGathered(items, a - 1); }
  }

  lemma OneHotIff(items: seq<Item>, p: Pragmas, fire: Ref)
    ensures CheckOf(items, p, fire).OneHot? <==> (p.parallel || p.unique || p.unique0) && AnyCond(items)
  {
    var c := Completed(items, p, fire);
    SomeGathered(c, |c|);
    if i :| 0 <= i < |items| && items[i].conds != [] { assert c[i].conds != []; }
    if i :| 0 <= i < |c| && c[i].conds != [] { assert c[i] == items[i]; }
  }

  /** What the three pragmas forbid: that two conditions are met at once, or none where one has
      to be. */
  ghost predicate Violated(items: seq<Item>, p: Pragmas, v: nat, env: Env) {
    (p.parallel || p.unique || p.unique0) && AnyCond(items) &&
    (HitTwice(items, v, env) || (HitNever(items, v, env) && !AnyDefault(items) && !p.unique0))
  }

  lemma CheckFires(items: seq<Item>, p: Pragmas, fire: Ref, v: nat, env: Env)
    ensures Passes(CheckOf(items, p, fire), v, env) <==> !Violated(items, p, v, env)
  {
    var c := Completed(items, p, fire);
    OneHotIff(items, p, fire);
    CompletedHits(items, p, fire, v, env);
    GatheredItemsCount(c, |c|, v, env);
  }

  lemma {:induction false} FirstOfMore(kind: Kind, items: seq<Item>, d: Item, v: nat, env: Env, i: nat)
    requires i <= |items| && IsDefault(d)
    ensures First(kind, items + [d], v, env, i) == First(kind, items, v, env, i)
    decreases |items| - i
  {
    if i < |items| {
      assert (items + [d])[i] == items[i];
      FirstOfMore(kind, items, d, v, env, i + 1);
    }
  }

  ghost predicate NoneRuns(kind: Kind, items: seq<Item>, v: nat, env: Env) {
    forall k :: 0 <= k < |items| ==> !Runs(kind, items[k], v, env)
  }

  /** With full_case or priority something runs for every value, and the report runs exactly
      where nothing else would have. */
  lemma CompletedRuns(kind: Kind, items: seq<Item>, p: Pragmas, fire: Ref, v: nat, env: Env)
    ensures var c := Completed(items, p, fire);
            p.full || p.priority ==> !NoneRuns(kind, c, v, env)
    ensures Chosen(kind, Completed(items, p, fire), v, env) ==
            if (p.full || p.priority) && NoneRuns(kind, items, v, env) then fire else Chosen(kind, items, v, env)
  {
    var c := Completed(items, p, fire);
    var r := First(kind, items, v, env, 0);
    if AddsDefault(items, p) {
      assert Runs(kind, c[|items|], v, env);
      FirstOfMore(kind, items, c[|items|], v, env, 0);
      if r < |items| { assert c[r] == items[r]; }
    } else if AnyDefault(items) {
      var k :| 0 <= k < |items| && IsDefault(items[k]);
      assert Runs(kind, items[k], v, env);
    }
  }

  /** `visit(AstCase*)`. */
  method VisitCase(items: seq<Item>, p: Pragmas, fire: Ref) returns (completed: seq<Item>, check: Check)
    ensures completed == Completed(items, p, fire) && check == CheckOf(items, p, fire)
    ensures forall v: nat, env: Env {:trigger Passes(check, v, env)} ::
              Passes(check, v, env) <==> !Violated(items, p, v, env)
    ensures forall kind, v: nat, env: Env {:trigger Chosen(kind, completed, v, env)} ::
              Chosen(kind, completed, v, env) ==
              if (p.full || p.priority) && NoneRuns(kind, items, v, env) then fire else Chosen(kind, items, v, env)
  {
    var hasDefault := false;
    for i := 0 to |items|
      invariant hasDefault == exists k :: 0 <= k < i && IsDefault(items[k])
    {
      if IsDefault(items[i]) { hasDefault := true; }
    }
    completed := items;
    if p.full || p.priority {
      if !hasDefault { completed := completed + [Item([], fire, false)]; }
    }
    check := NoCheck;
    if p.parallel || p.unique || p.unique0 {
      if !hasDefault && completed == [] {
      } else {
        var propp: seq<Cond> := [];
        for a := 0 to |completed|
          invariant propp == GatheredItems(completed, a)
        {
          var conds := completed[a].conds;
          for b := 0 to |conds|
            invariant propp == Gathered(conds, b, GatheredItems(completed, a))
          {
            propp := [conds[b]] + propp;
          }
        }
        check := if propp == [] then NullOperand else OneHot(propp, hasDefault || p.unique0);
      }
    }
    forall v: nat, env: Env {:trigger Passes(check, v, env)}
      ensures Passes(check, v, env) <==> !Violated(items, p, v, env)
    {
      CheckFires(items, p, fire, v, env);
    }
    forall kind, v: nat, env: Env {:trigger Chosen(kind, completed, v, env)}
      ensures Chosen(kind, completed, v, env) ==
              if (p.full || p.priority) && NoneRuns(kind, items, v, env) then fire else Chosen(kind, items, v, env)
    {
      CompletedRuns(kind, items, p, fire, v, env);
    }
  }

  // ---------------------------------------------------------------- discarding it

  /** A two-state constant of width w. */
  predicate TwoState(c: Cond, w: nat) {
    c.Const? && |c.bits| == w && !IsFourState(c.bits)
  }

  /** Two-state constants of one width only, and items without the flag that nothing sets. */
  ghost predicate Plain(items: seq<Item>, w: nat) {
    (forall i :: 0 <= i < |items| ==> !items[i].ignoreOverlap) &&
    forall i, j :: 0 <= i < |items| && 0 <= j < |items[i].conds| ==> TwoState(items[i].conds[j], w)
  }

  lemma EqIsFit(c: Cond, w: nat, v: nat, env: Env)
    requires TwoState(c, w) && v < Pow2(w)
    ensures EqHolds(c, v, env) == CondFits(Case, c, v, env)
  {
    TwoStateFits(Case, c.bits, v);
  }

  /** The flag that `isCaseTreeFast` leaves, for items of width w. */
  ghost predicate NoOverlapsAllCovered(items: seq<Item>, w: nat, env: Env) {
    Analyzable(items) && w == ItemsWidth(items, |items|) &&
    Covered(Case, items, w, env) && !Overlapped(Case, items, |items|, 0, w, env)
  }

  /** How many conditions match among those of the items before a and the first b of item a. */
  function Matches(items: seq<Item>, a: nat, b: nat, v: nat, env: Env): nat
    requires a <= |items| && (a < |items| ==> b <= |items[a].conds|) && (a == |items| ==> b == 0)
  {
    CountItems(items, a, v, env) + if b == 0 then 0 else CountConds(items[a].conds, b, v, env)
  }

  lemma MatchesStep(items: seq<Item>, a: nat, b: nat, w: nat, v: nat, env: Env)
    requires a < |items| && b < |items[a].conds| && Plain(items, w) && v < Pow2(w)
    ensures Matches(items, a, b + 1, v, env) ==
            Matches(items, a, b, v, env) + if CondFits(Case, items[a].conds[b], v, env) then 1 else 0
  {
    EqIsFit(items[a].conds[b], w, v, env);
  }

  lemma MatchesNext(items: seq<Item>, a: nat, v: nat, env: Env)
    requires a < |items|
    ensures Matches(items, a + 1, 0, v, env) == Matches(items, a, |items[a].conds|, v, env)
  {
  }

  /** Without overlaps no value matches twice. */
  lemma {:induction false} AtMostOne(items: seq<Item>, a: nat, b: nat, w: nat, v: nat, env: Env)
    requires a <= |items| && (a < |items| ==> b <= |items[a].conds|) && (a == |items| ==> b == 0)
    requires Plain(items, w) && v < Pow2(w) && !Overlapped(Case, items, |items|, 0, w, env)
    ensures Matches(items, a, b, v, env) <= 1
    ensures Matches(items, a, b, v, env) == 1 ==> Slot(Case, items, a, b, v, env) != Null
    decreases a, b
  {
    if b > 0 {
      AtMostOne(items, a, b - 1, w, v, env);
      SlotStep(Case, items, a, b - 1, v, env);
      MatchesStep(items, a, b - 1, w, v, env);
      assert !OverlapAt(Case, items, a, b - 1, v, env);
    } else if a > 0 {
      AtMostOne(items, a - 1, |items[a - 1].conds|, w, v, env);
      SlotNext(Case, items, a - 1, v, env);
      MatchesNext(items, a - 1, v, env);
    }
  }

  lemma {:induction false} NoneFits(conds: seq<Cond>, b: nat, w: nat, v: nat, env: Env)
    requires b <= |conds| && v < Pow2(w) && forall j :: 0 <= j < |conds| ==> TwoState(conds[j], w)
    ensures CountConds(conds, b, v, env) == 0 <==> !AnyFits(Case, conds, b, v, env)
  {
    if b > 0 {
      EqIsFit(conds[b - 1], w, v, env);
      NoneFits(conds, b - 1, w, v, env);
    }
  }

  ghost predicate SomeItemFits(items: seq<Item>, a: nat, v: nat, env: Env)
    requires a <= |items|
  {
    exists i :: 0 <= i < a && AnyFits(Case, items[i].conds, |items[i].conds|, v, env)
  }

  lemma {:induction false} NoItemFits(items: seq<Item>, a: nat, w: nat, v: nat, env: Env)
    requires a <= |items| && Plain(items, w) && v < Pow2(w)
    ensures CountItems(items, a, v, env) == 0 <==> !SomeItemFits(items, a, v, env)
  {
    if a > 0 {
      NoItemFits(items, a - 1, w, v, env);
      NoneFits(items[a - 1].conds, |items[a - 1].conds|, w, v, env);
    }
  }

  /** The item expressions alone cover every value. */
  ghost predicate CondsCover(items: seq<Item>, w: nat, env: Env) {
    forall v: nat :: v < Pow2(w) ==> SomeItemFits(items, |items|, v, env)
  }

  /** `replaceCaseParallel` drops the check when the flag is set, which only the fast path passes
      on. It can then never fire exactly when matching nothing is allowed or cannot happen. */
  lemma DiscardedNeverFires(items: seq<Item>, p: Pragmas, fire: Ref, w: nat, env: Env)
    requires CheckOf(items, p, fire).OneHot? && Plain(Completed(items, p, fire), w)
    requires NoOverlapsAllCovered(Completed(items, p, fire), w, env)
    ensures (forall v: nat :: v < Pow2(w) ==> Passes(CheckOf(items, p, fire), v, env)) <==>
            AnyDefault(items) || p.unique0 || CondsCover(Completed(items, p, fire), w, env)
  {
    var c := Completed(items, p, fire);
    var check := CheckOf(items, p, fire);
    forall v: nat | v < Pow2(w)
      ensures Passes(check, v, env) <==> check.allowNone || SomeItemFits(c, |c|, v, env)
    {
      AtMostOne(c, |c|, 0, w, v, env);
      NoItemFits(c, |c|, w, v, env);
      GatheredItemsCount(c, |c|, v, env);
    }
  }

  /** Without a default that full_case or priority adds, no firing check is ever lost. */
  lemma DiscardIsSafe(items: seq<Item>, p: Pragmas, fire: Ref, w: nat, v: nat, env: Env)
    requires CheckOf(items, p, fire).OneHot? && !AddsDefault(items, p) && Plain(items, w)
    requires NoOverlapsAllCovered(items, w, env) && v < Pow2(w)
    ensures Passes(CheckOf(items, p, fire), v, env)
  {
    if !AnyDefault(items) {
      forall u: nat | u < Pow2(w) ensures SomeItemFits(items, |items|, u, env) {
        var r := First(Case, items, u, env, 0);
        assert Runs(Case, items[r], u, env) && !IsDefault(items[r]);
      }
    }
    DiscardedNeverFires(items, p, fire, w, env);
  }

  // ---------------------------------------------------------------- a lost check

  /** `case (v) 0, 1, 2, 3: ...` on three bits, under full_case and parallel_case. */
  function FourOfEight(): Item {
    Item([Const([Zero, Zero, Zero]), Const([One, Zero, Zero]), Const([Zero, One, Zero]), Const([One, One, Zero])],
         BodyRef(0), false)
  }

  lemma FourOfEightFits(j: nat, v: nat, env: Env)
    requires j < 4 && v < 8
    ensures CondFits(Case, FourOfEight().conds[j], v, env) <==> v == j
  {
    assert Pow2(3) == 8;
    var bits := FourOfEight().conds[j].bits;
    assert bits[1..][1..] == [bits[2]] && bits[1..][1..][1..] == [];
    assert Ones(bits[1..][1..]) == 0 + 2 * Ones(bits[1..][1..][1..]);
    assert Ones(bits) == j;
    TwoStateFits(Case, bits, v);
  }

  /** The added default completes the table, so the check goes; the value 4 matches nothing and
      the check would have fired. */
  lemma LostCheck(env: Env)
    ensures var items := [FourOfEight()];
            var p := Pragmas(true, true, false, false, false);
            var c := Completed(items, p, BodyRef(1));
            NoOverlapsAllCovered(c, 3, env) && CondCount(c, 2) > 3 &&
            CheckOf(items, p, BodyRef(1)).OneHot? && !Passes(CheckOf(items, p, BodyRef(1)), 4, env)
  {
    var items := [FourOfEight()];
    var p := Pragmas(true, true, false, false, false);
    var c := Completed(items, p, BodyRef(1));
    assert Pow2(3) == 8;
    assert IsDefault(c[1]) && c == [FourOfEight(), Item([], BodyRef(1), false)];
    assert CondCount(c, 1) == 4;
    forall v: nat | v < 8 ensures First(Case, c, v, env, 0) < 2 { assert Runs(Case, c[1], v, env); }
    forall i: nat, j: nat, v: nat | i < 2 && j < |c[i].conds| && v < 8
      ensures !OverlapAt(Case, c, i, j, v, env)
    {
      forall k | 0 <= k < 4 ensures CondFits(Case, c[0].conds[k], v, env) <==> v == k { FourOfEightFits(k, v, env); }
    }
    NoneOfFour(c, p, env);
  }

  lemma NoneOfFour(c: seq<Item>, p: Pragmas, env: Env)
    requires c == [FourOfEight(), Item([], BodyRef(1), false)] && p == Pragmas(true, true, false, false, false)
    ensures CheckOf([FourOfEight()], p, BodyRef(1)).OneHot? && !Passes(CheckOf([FourOfEight()], p, BodyRef(1)), 4, env)
  {
    assert Completed([FourOfEight()], p, BodyRef(1)) == c;
    NoFit(c, env);
    GatheredItemsCount(c, 2, 4, env);
  }

  lemma NoFit(c: seq<Item>, env: Env)
    requires c == [FourOfEight(), Item([], BodyRef(1), false)]
    ensures CountItems(c, 2, 4, env) == 0
  {
    assert Pow2(3) == 8;
    FoursPlain(c);
    FoursMiss(c, env);
    NoItemFits(c, 2, 3, 4, env);
  }

  lemma FoursPlain(c: seq<Item>)
    requires c == [FourOfEight(), Item([], BodyRef(1), false)]
    ensures Plain(c, 3)
  {
    forall j | 0 <= j < 4 ensures TwoState(FourOfEight().conds[j], 3) { }
  }

  lemma FoursMiss(c: seq<Item>, env: Env)
    requires c == [FourOfEight(), Item([], BodyRef(1), false)]
    ensures !SomeItemFits(c, 2, 4, env)
  {
    forall k | 0 <= k < 4 ensures !CondFits(Case, c[0].conds[k], 4, env) { FourOfEightFits(k, 4, env); }
  }
}
