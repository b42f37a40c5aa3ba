/** Codes: what the generator assigns, what `declare` reserves, and why signals do not share words. */
module VcdLayout {
  import opened VcdTrace

  /** `codesNeeded` of `declare`; a width that fills its words has one code to spare. */
  function CodesNeeded(sig: Sig): nat {
    if IsTri(sig) then 2 * (1 + sig.bits / 32) else 1 + sig.bits / 32
  }

  lemma NeededCovers(sig: Sig)
    requires sig.bits >= 1
    ensures Size(sig) <= CodesNeeded(sig)
  {
  }

  function Max(x: nat, y: nat): nat { if x < y then y else x }

  /** A signal declared by a callback, whose codes start at base. */
  function Moved(sig: Sig, base: nat): Sig { sig.(code := base + sig.code) }

  function MovedAll(block: seq<Sig>, base: nat): (r: seq<Sig>)
    ensures |r| == |block| && forall i :: 0 <= i < |r| ==> r[i] == Moved(block[i], base)
  {
    seq(|block|, i requires 0 <= i < |block| => Moved(block[i], base))
  }

  /** One signal, or signals that share no words. A signal may be declared under many names. */
  predicate SameOrApart(a: Sig, b: Sig)
    requires a.bits >= 1 && b.bits >= 1
  {
    a == b || Apart(a, b)
  }

  /** What one callback declares, in any order. */
  ghost predicate BlockOk(block: seq<Sig>) {
    (forall i :: 0 <= i < |block| ==> SigOk(block[i])) &&
    forall i, j :: 0 <= i < |block| && 0 <= j < |block| ==> SameOrApart(block[i], block[j])
  }

  /** Every declared signal ends at or below the next code. */
  ghost predicate Below(sigs: seq<Sig>, nextCode: nat) {
    BlockOk(sigs) && forall i :: 0 <= i < |sigs| ==> sigs[i].code + Size(sigs[i]) <= nextCode
  }

  /** `m_nextCode` after the signals of one callback. */
  function NextAfter(block: seq<Sig>, base: nat, nextCode: nat): (next: nat)
    ensures next >= nextCode
    ensures forall i :: 0 <= i < |block| ==> base + block[i].code + CodesNeeded(block[i]) <= next
    decreases |block|
  {
    if block == [] then nextCode
    else NextAfter(block[1..], base, Max(nextCode, base + block[0].code + CodesNeeded(block[0])))
  }

  /** What all callbacks declare, each from the next code on, and the next code in the end. */
  function DeclaredFrom(callbacks: seq<seq<Sig>>, base: nat): (seq<Sig>, nat)
    decreases |callbacks|
  {
    if callbacks == [] then ([], base)
    else
      var rest := DeclaredFrom(callbacks[1..], NextAfter(callbacks[0], base, base));
      (MovedAll(callbacks[0], base) + rest.0, rest.1)
  }

  lemma BlockBelow(sigs: seq<Sig>, block: seq<Sig>, base: nat, nextCode: nat)
    requires Below(sigs, base) && BlockOk(block) && nextCode == NextAfter(block, base, base)
    ensures Below(sigs + MovedAll(block, base), nextCode)
  {
    var all := sigs + MovedAll(block, base);
    forall i | 0 <= i < |all| ensures SigOk(all[i]) && all[i].code + Size(all[i]) <= nextCode {
      if i < |sigs| { assert all[i] == sigs[i]; } else { MovedBelow(block, base, i - |sigs|); }
    }
    forall i, j | 0 <= i < |all| && 0 <= j < |all| ensures SameOrApart(all[i], all[j]) {
      MovedApart(sigs, block, base, i, j);
    }
  }

  lemma MovedBelow(block: seq<Sig>, base: nat, i: nat)
    requires BlockOk(block) && i < |block|
    ensures var m := Moved(block[i], base); SigOk(m) && m.code + Size(m) <= NextAfter(block, base, base)
  {
    NeededCovers(block[i]);
  }

  lemma MovedApart(sigs: seq<Sig>, block: seq<Sig>, base: nat, i: nat, j: nat)
    requires Below(sigs, base) && BlockOk(block)
    requires var all := sigs + MovedAll(block, base); i < |all| && j < |all| && all[i].bits >= 1 && all[j].bits >= 1
    ensures var all := sigs + MovedAll(block, base); SameOrApart(all[i], all[j])
  {
    if i < |sigs| && j < |sigs| {
      assert SameOrApart(sigs[i], sigs[j]);
    } else if i >= |sigs| && j >= |sigs| {
      assert SameOrApart(block[i - |sigs|], block[j - |sigs|]);
    }
  }

  /** However the codes of a callback lie, all signals declared are kept apart. */
  lemma {:induction false} DeclaredBelow(before: seq<Sig>, callbacks: seq<seq<Sig>>, base: nat)
    requires Below(before, base) && forall e :: 0 <= e < |callbacks| ==> BlockOk(callbacks[e])
    ensures Below(before + DeclaredFrom(callbacks, base).0, DeclaredFrom(callbacks, base).1)
    decreases |callbacks|
  {
    if callbacks == [] {
      assert before + [] == before;
    } else {
      var first, next := MovedAll(callbacks[0], base), NextAfter(callbacks[0], base, base);
      BlockBelow(before, callbacks[0], base, next);
      DeclaredBelow(before + first, callbacks[1..], next);
      Regroup(before, first, DeclaredFrom(callbacks[1..], next).0);
    }
  }

  lemma Regroup<T>(a: seq<T>, b: seq<T>, c: seq<T>)
    ensures (a + b) + c == a + (b + c)
  {
  }

  /** The callbacks of `makeNameMap`. */
  method DeclareAll(callbacks: seq<seq<Sig>>) returns (sigs: seq<Sig>, nextCode: nat)
    ensures sigs == DeclaredFrom(callbacks, 1).0 && nextCode == DeclaredFrom(callbacks, 1).1
  {
    sigs, nextCode := [], 1;
    assert [] + DeclaredFrom(callbacks, 1).0 == DeclaredFrom(callbacks, 1).0;
    for ent := 0 to |callbacks|
      invariant sigs + DeclaredFrom(callbacks[ent..], nextCode).0 == DeclaredFrom(callbacks, 1).0
      invariant DeclaredFrom(callbacks[ent..], nextCode).1 == DeclaredFrom(callbacks, 1).1
    {
      assert callbacks[ent..][1..] == callbacks[ent + 1..];
      ghost var before := sigs;
      var block := DeclareBlock(callbacks[ent], nextCode);
      sigs, nextCode := sigs + block.0, block.1;
      ghost var more := DeclaredFrom(callbacks[ent + 1..], nextCode).0;
      assert (before + block.0) + more == before + (block.0 + more);
    }
    assert callbacks[|callbacks|..] == [] && sigs + [] == sigs;
  }

  /** One callback: `declare`, signal by signal. */
  method DeclareBlock(block: seq<Sig>, base: nat) returns (r: (seq<Sig>, nat))
    ensures r == (MovedAll(block, base), NextAfter(block, base, base))
  {
    var nextCode, sigs := base, [];
    for i := 0 to |block|
      invariant NextAfter(block[i..], base, nextCode) == NextAfter(block, base, base)
      invariant sigs == MovedAll(block, base)[..i]
    {
      assert block[i..][1..] == block[i + 1..];
      var code := base + block[i].code;
      nextCode := Max(nextCode, code + CodesNeeded(block[i]));
      sigs := sigs + [block[i].(code := code)];
    }
    assert block[|block|..] == [] && sigs == MovedAll(block, base);
    r := (sigs, nextCode);
  }

  /** The signals traced, each once: the layout on which dumping rests. */
  lemma TracedLayout(callbacks: seq<seq<Sig>>, traced: seq<Sig>, length: nat)
    requires forall e :: 0 <= e < |callbacks| ==> BlockOk(callbacks[e])
    requires DeclaredFrom(callbacks, 1).1 <= CODE_LIMIT && DeclaredFrom(callbacks, 1).1 <= length
    requires forall i :: 0 <= i < |traced| ==> traced[i] in DeclaredFrom(callbacks, 1).0
    requires forall i, j :: 0 <= i < |traced| && 0 <= j < |traced| && i != j ==> traced[i] != traced[j]
    ensures Layout(traced, length)
  {
    DeclaredBelow([], callbacks, 1);
    assert [] + DeclaredFrom(callbacks, 1).0 == DeclaredFrom(callbacks, 1).0;
    DistinctLayout(DeclaredFrom(callbacks, 1).0, DeclaredFrom(callbacks, 1).1, traced, length);
  }

  lemma DistinctLayout(sigs: seq<Sig>, nextCode: nat, traced: seq<Sig>, length: nat)
    requires Below(sigs, nextCode) && nextCode <= CODE_LIMIT && nextCode <= length
    requires forall i :: 0 <= i < |traced| ==> traced[i] in sigs
    requires forall i, j :: 0 <= i < |traced| && 0 <= j < |traced| && i != j ==> traced[i] != traced[j]
    ensures Layout(traced, length)
  {
    forall i | 0 <= i < |traced|
      ensures SigOk(traced[i]) && traced[i].code + Size(traced[i]) <= length && traced[i].code < CODE_LIMIT
    {
      var a: nat :| a < |sigs| && sigs[a] == traced[i];
      assert Size(sigs[a]) >= 1;
    }
    forall i, j | 0 <= i < |traced| && 0 <= j < |traced| && i != j ensures Apart(traced[i], traced[j]) {
      var a: nat :| a < |sigs| && sigs[a] == traced[i];
      var b: nat :| b < |sigs| && sigs[b] == traced[j];
      assert SameOrApart(sigs[a], sigs[b]);
    }
  }

  // ---------------------------------------------------------------- the generator

  predicate AllOk(sigs: seq<Sig>) {
    forall i :: 0 <= i < |sigs| ==> SigOk(sigs[i])
  }

  /** `assignDeclCode`: each signal gets the next code, and the step is its number of words. */
  function Assigned(code: nat, sigs: seq<Sig>): (r: seq<Sig>)
    requires AllOk(sigs)
    ensures |r| == |sigs|
    decreases |sigs|
  {
    if sigs == [] then [] else [sigs[0].(code := code)] + Assigned(code + Size(sigs[0]), sigs[1..])
  }

  lemma {:induction false} AssignedFrom(code: nat, sigs: seq<Sig>, i: nat)
    requires code > 0 && AllOk(sigs) && i < |sigs|
    ensures Assigned(code, sigs)[i].code >= code && SigOk(Assigned(code, sigs)[i])
    decreases i
  {
    assert SigOk(sigs[0]);
    if i > 0 {
      AssignedFrom(code + Size(sigs[0]), sigs[1..], i - 1);
    } else {
      SizePositive(sigs[0], code);
    }
  }

  lemma SizePositive(sig: Sig, code: nat)
    requires SigOk(sig) && code > 0
    ensures SigOk(sig.(code := code)) && Size(sig.(code := code)) == Size(sig) >= 1
  {
  }

  lemma {:induction false} AssignedApart(code: nat, sigs: seq<Sig>, i: nat, j: nat)
    requires code > 0 && AllOk(sigs) && i < j < |sigs|
    requires Assigned(code, sigs)[i].bits >= 1 && Assigned(code, sigs)[j].bits >= 1
    ensures Apart(Assigned(code, sigs)[i], Assigned(code, sigs)[j])
    decreases i
  {
    assert SigOk(sigs[0]);
    SizePositive(sigs[0], code);
    if i > 0 {
      AssignedApart(code + Size(sigs[0]), sigs[1..], i - 1, j - 1);
    } else {
      AssignedFrom(code + Size(sigs[0]), sigs[1..], j - 1);
    }
  }

  /** Codes assigned one after the other make a block that may be declared in any order. */
  lemma AssignedOk(code: nat, sigs: seq<Sig>)
    requires code > 0 && AllOk(sigs)
    ensures BlockOk(Assigned(code, sigs))
  {
    var r := Assigned(code, sigs);
    forall i | 0 <= i < |r| ensures SigOk(r[i]) { AssignedFrom(code, sigs, i); }
    forall i, j | 0 <= i < |r| && 0 <= j < |r| ensures SameOrApart(r[i], r[j]) {
      assert SigOk(r[i]) && SigOk(r[j]);
      if i < j { AssignedApart(code, sigs, i, j); }
      if j < i { AssignedApart(code, sigs, j, i); }
    }
  }

  /** After a full word the generator's next code is one that `declare` has reserved, so the
      codes of a callback need not start past the reserved ones. */
  lemma ReservedReused(code: nat)
    requires code > 0
    ensures var block := Assigned(code, [Sig(KBus, 1, 32), Sig(KBus, 1, 8)]);
            BlockOk(block) && block[1].code < block[0].code + CodesNeeded(block[0])
  {
    var sigs := [Sig(KBus, 1, 32), Sig(KBus, 1, 8)];
    AssignedOk(code, sigs);
    assert sigs[1..] == [sigs[1]] && [sigs[1]][1..] == [];
    assert Assigned(code + 1, sigs[1..]) == [sigs[1].(code := code + 1)];
  }
}
