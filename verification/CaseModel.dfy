/** Case statements as the case compiler sees them, and the first-match rule that both of
    its lowerings have to keep (IEEE 1364-2005 section 9.5). */
module CaseModel {
  import opened Bits

  datatype FourState = Zero | One | X | Z

  datatype Kind = Case | Casez | Casex | CaseInside

  /** A case item expression. Anything that is not an integer constant is known only by the
      value that an environment gives it. */
  datatype Cond = Const(bits: seq<FourState>) | Range(lo: nat, hi: nat) | Expr(id: nat)

  /** A pointer to an AST node: a case item, or the statements of an item, null for ";". */
  datatype Ref = Null | ItemRef(index: nat) | BodyRef(id: nat)

  /** `isDefault` means no conditions. */
  datatype Item = Item(conds: seq<Cond>, body: Ref, ignoreOverlap: bool)

  type Env = nat -> nat

  // ---------------------------------------------------------------- the rule

  /** Bits that match either value. */
  predicate Wild(kind: Kind, b: FourState) {
    (b == Z && kind != Case) || (b == X && kind == Casex)
  }

  predicate BitFits(kind: Kind, b: FourState, one: bool) {
    Wild(kind, b) || b == if one then One else Zero
  }

  /** The constant matches the two-state value v; an X that is not wild matches nothing. */
  predicate Fits(kind: Kind, bits: seq<FourState>, v: nat) {
    forall k :: 0 <= k < |bits| ==> BitFits(kind, bits[k], Bit(v, k))
  }

  predicate CondFits(kind: Kind, c: Cond, v: nat, env: Env) {
    match c
    case Const(bits) => Fits(kind, bits, v)
    case Range(lo, hi) => env(lo) <= v <= env(hi)
    case Expr(id) => v == env(id)
  }

  /** One of the first n conditions matches. */
  predicate AnyFits(kind: Kind, conds: seq<Cond>, n: nat, v: nat, env: Env)
    requires n <= |conds|
  {
    exists j :: 0 <= j < n && CondFits(kind, conds[j], v, env)
  }

  predicate IsDefault(item: Item) { item.conds == [] }

  predicate Runs(kind: Kind, item: Item, v: nat, env: Env) {
    IsDefault(item) || AnyFits(kind, item.conds, |item.conds|, v, env)
  }

  /** The first item from i on that matches, in the order of the item list. */
  function First(kind: Kind, items: seq<Item>, v: nat, env: Env, i: nat): (r: nat)
    requires i <= |items|
    ensures i <= r <= |items|
    ensures forall k :: i <= k < r ==> !Runs(kind, items[k], v, env)
    ensures r < |items| ==> Runs(kind, items[r], v, env)
    decreases |items| - i
  {
    if i == |items| || Runs(kind, items[i], v, env) then i else First(kind, items, v, env, i + 1)
  }

  /** The statements that have to run. */
  function Chosen(kind: Kind, items: seq<Item>, v: nat, env: Env): Ref {
    var r := First(kind, items, v, env, 0);
    if r < |items| then items[r].body else Null
  }

  /** V3LinkDot leaves at most one default and puts it last. */
  ghost predicate DefaultLast(items: seq<Item>) {
    forall i :: 0 <= i < |items| && IsDefault(items[i]) ==> i == |items| - 1
  }

  /** The standard's own wording: item expressions in order, the default only if none matches. */
  ghost predicate StandardChoice(kind: Kind, items: seq<Item>, v: nat, env: Env, r: nat) {
    if exists k :: 0 <= k < |items| && AnyFits(kind, items[k].conds, |items[k].conds|, v, env) then
      r < |items| && AnyFits(kind, items[r].conds, |items[r].conds|, v, env) &&
      forall k :: 0 <= k < r ==> !AnyFits(kind, items[k].conds, |items[k].conds|, v, env)
    else if exists k :: 0 <= k < |items| && IsDefault(items[k]) then
      r < |items| && IsDefault(items[r])
    else
      r == |items|
  }

  lemma FirstIsStandard(kind: Kind, items: seq<Item>, v: nat, env: Env)
    requires DefaultLast(items)
    ensures StandardChoice(kind, items, v, env, First(kind, items, v, env, 0))
  {
    var r := First(kind, items, v, env, 0);
    forall k | 0 <= k < |items| ensures AnyFits(kind, items[k].conds, |items[k].conds|, v, env) ==> k >= r {
      if k < r { assert !Runs(kind, items[k], v, env); }
    }
  }

  // ---------------------------------------------------------------- what the kinds of case mean

  /** An unknown bit of a constant that may be read as either value: none in `case`, Z in `casez`
      and `case inside`, both in `casex`. */
  predicate MayFill(kind: Kind, b: FourState) {
    match kind
    case Case => false
    case Casez => b == Z
    case Casex => b == X || b == Z
    case CaseInside => b == Z
  }

  /** A two-state constant that the item may be read as. */
  ghost predicate Filling(kind: Kind, bits: seq<FourState>, full: seq<FourState>) {
    |full| == |bits| && forall k :: 0 <= k < |bits| ==>
      (full[k] == Zero || full[k] == One) && (full[k] == bits[k] || MayFill(kind, bits[k]))
  }

  /** An item fits the values of the two-state constants that it may be read as, and no others. */
  lemma FitsIsFilling(kind: Kind, bits: seq<FourState>, v: nat)
    requires v < Pow2(|bits|)
    ensures Fits(kind, bits, v) <==> exists full :: Filling(kind, bits, full) && v == Ones(full)
  {
    if Fits(kind, bits, v) {
      var full := seq(|bits|, k requires 0 <= k < |bits| => if Bit(v, k) then One else Zero);
      forall k | 0 <= k < |bits| ensures full[k] == bits[k] || MayFill(kind, bits[k]) {
        assert BitFits(kind, bits[k], Bit(v, k));
      }
      BitsOfOnes(full, v);
      assert Filling(kind, bits, full);
    }
    if full :| Filling(kind, bits, full) && v == Ones(full) {
      forall k | 0 <= k < |bits| ensures BitFits(kind, bits[k], Bit(v, k)) {
        OnesBit(full, k);
        assert full[k] == bits[k] || MayFill(kind, bits[k]);
      }
    }
  }

  lemma BitsOfOnes(full: seq<FourState>, v: nat)
    requires v < Pow2(|full|) && forall k :: 0 <= k < |full| ==> full[k] == if Bit(v, k) then One else Zero
    ensures v == Ones(full)
  {
    OnesInMask(full);
    forall k | 0 <= k < |full| ensures Bit(v, k) == Bit(Ones(full), k) { OnesBit(full, k); }
    BitsDetermine(v, Ones(full), |full|);
  }

  /** No value fits an item with an unknown bit that the kind of case does not fill. */
  lemma UnknownNeverFits(kind: Kind, bits: seq<FourState>, v: nat)
    ensures kind == Case && (X in bits || Z in bits) ==> !Fits(kind, bits, v)
    ensures kind != Casex && X in bits ==> !Fits(kind, bits, v)
  {
    forall k | 0 <= k < |bits| && (bits[k] == X || bits[k] == Z)
      ensures BitFits(kind, bits[k], Bit(v, k)) <==> MayFill(kind, bits[k])
    {
    }
  }

  /** A range item fits both its ends and what lies between. */
  lemma RangeFits(kind: Kind, lo: nat, hi: nat, v: nat, env: Env)
    requires env(lo) <= env(hi)
    ensures CondFits(kind, Range(lo, hi), env(lo), env) && CondFits(kind, Range(lo, hi), env(hi), env)
    ensures CondFits(kind, Range(lo, hi), v, env) <==> v == env(lo) || v == env(hi) || env(lo) < v < env(hi)
  {
  }

  // ---------------------------------------------------------------- masks

  /** `opBitsNonX`: ones where the constant is 0 or 1. */
  function NonX(bits: seq<FourState>): nat {
    if bits == [] then 0 else (if bits[0] == Zero || bits[0] == One then 1 else 0) + 2 * NonX(bits[1..])
  }

  /** `opBitsOne`: ones where the constant is 1. */
  function Ones(bits: seq<FourState>): nat {
    if bits == [] then 0 else (if bits[0] == One then 1 else 0) + 2 * Ones(bits[1..])
  }

  predicate IsUnknown(bits: seq<FourState>) { X in bits }

  predicate IsFourState(bits: seq<FourState>) { X in bits || Z in bits }

  /** `neverItem`. */
  predicate NeverItem(kind: Kind, bits: seq<FourState>) {
    match kind
    case Casex => false
    case Casez => IsUnknown(bits)
    case CaseInside => IsUnknown(bits)
    case Case => IsFourState(bits)
  }

  /** `(v & mask) == val`. */
  predicate MaskCompare(bits: seq<FourState>, v: nat) {
    And(v, NonX(bits)) == Ones(bits)
  }

  lemma {:induction false} OnesInMask(bits: seq<FourState>)
    ensures And(Ones(bits), NonX(bits)) == Ones(bits) && Ones(bits) < Pow2(|bits|)
  {
    if bits != [] {
      OnesInMask(bits[1..]);
      assert Ones(bits) / 2 == Ones(bits[1..]) && NonX(bits) / 2 == NonX(bits[1..]);
    }
  }

  /** The mask compare looks at the lowest bit and goes on with the rest. */
  lemma MaskCompareStep(bits: seq<FourState>, v: nat)
    requires bits != []
    ensures MaskCompare(bits, v) <==>
            (bits[0] == Zero ==> v % 2 == 0) && (bits[0] == One ==> v % 2 == 1) && MaskCompare(bits[1..], v / 2)
  {
    assert Ones(bits) / 2 == Ones(bits[1..]) && NonX(bits) / 2 == NonX(bits[1..]);
    OnesInMask(bits[1..]);
  }

  /** The rule, split the same way. */
  lemma FitsStep(kind: Kind, bits: seq<FourState>, v: nat)
    requires bits != []
    ensures Fits(kind, bits, v) <==> BitFits(kind, bits[0], v % 2 == 1) && Fits(kind, bits[1..], v / 2)
  {
    var rest := bits[1..];
    if Fits(kind, bits, v) {
      forall k | 0 <= k < |rest| ensures BitFits(kind, rest[k], Bit(v / 2, k)) {
        assert BitFits(kind, bits[k + 1], Bit(v, k + 1));
      }
    } else {
      var k :| 0 <= k < |bits| && !BitFits(kind, bits[k], Bit(v, k));
      if k > 0 { assert rest[k - 1] == bits[k] && Bit(v, k) == Bit(v / 2, k - 1); }
    }
  }

  lemma {:induction false} AndZero(v: nat)
    ensures And(v, 0) == 0
  {
    if v != 0 { AndZero(v / 2); }
  }

  /** Away from the impossible items, comparing under the mask is the bit-by-bit rule. */
  lemma {:induction false} MaskIsRule(kind: Kind, bits: seq<FourState>, v: nat)
    ensures !NeverItem(kind, bits) && MaskCompare(bits, v) <==> Fits(kind, bits, v)
  {
    if bits == [] {
      AndZero(v);
    } else {
      FitsStep(kind, bits, v);
      MaskCompareStep(bits, v);
      MaskIsRule(kind, bits[1..], v / 2);
      assert bits == [bits[0]] + bits[1..];
    }
  }

  /** A two-state constant, compared directly. */
  lemma {:induction false} TwoStateFits(kind: Kind, bits: seq<FourState>, v: nat)
    requires !IsFourState(bits) && v < Pow2(|bits|)
    ensures Fits(kind, bits, v) <==> v == Ones(bits)
  {
    if bits == [] {
    } else {
      FitsStep(kind, bits, v);
      TwoStateFits(kind, bits[1..], v / 2);
      assert bits[0] == Zero || bits[0] == One;
    }
  }

  // ---------------------------------------------------------------- the standard's wildcards

  /** In `case inside` the standard (IEEE 1800-2012 section 11.4.6, operator ==?) makes X a
      wildcard too. */
  predicate StandardFits(kind: Kind, bits: seq<FourState>, v: nat) {
    forall k :: 0 <= k < |bits| ==>
      Wild(kind, bits[k]) || (kind == CaseInside && bits[k] == X) || bits[k] == if Bit(v, k) then One else Zero
  }

  lemma {:induction false} OnesBit(bits: seq<FourState>, k: nat)
    requires k < |bits|
    ensures Bit(Ones(bits), k) == (bits[k] == One)
  {
    assert Ones(bits) / 2 == Ones(bits[1..]);
    if k > 0 { OnesBit(bits[1..], k - 1); }
  }

  /** `neverItem` drops more than the standard does exactly for `case inside` items with an X. */
  lemma NeverItemExact(kind: Kind, bits: seq<FourState>)
    ensures (forall v: nat :: (!NeverItem(kind, bits) && MaskCompare(bits, v)) == StandardFits(kind, bits, v))
       <==> !(kind == CaseInside && X in bits)
  {
    if kind == CaseInside && X in bits {
      var v: nat := Ones(bits);
      forall k | 0 <= k < |bits|
        ensures Wild(kind, bits[k]) || bits[k] == X || bits[k] == if Bit(v, k) then One else Zero
      {
        OnesBit(bits, k);
      }
      assert StandardFits(kind, bits, v);
    } else {
      forall v: nat ensures (!NeverItem(kind, bits) && MaskCompare(bits, v)) == StandardFits(kind, bits, v) {
        MaskIsRule(kind, bits, v);
        forall k | 0 <= k < |bits| ensures BitFits(kind, bits[k], Bit(v, k)) ==
          (Wild(kind, bits[k]) || (kind == CaseInside && bits[k] == X) || bits[k] == if Bit(v, k) then One else Zero)
        {
          assert bits[k] in bits;
        }
      }
    }
  }
}
