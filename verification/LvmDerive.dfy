/** The value ranges that lvm_derive infers from a predicate, and when they are sound. */
module LvmDerive {
  import opened Basics
  import opened LvmSpec

  datatype Derivation = Derivation(derived: bool, min: long, max: long)

  const UNDERIVED := Derivation(false, 0, 0)

  type Derivations = s: seq<Derivation> | |s| == MAX_VARIABLE_ID
    witness [UNDERIVED, UNDERIVED, UNDERIVED, UNDERIVED]

  const NOTHING: Derivations := [UNDERIVED, UNDERIVED, UNDERIVED, UNDERIVED]

  function Intersect(a: Derivation, b: Derivation): Derivation {
    if !a.derived && !b.derived then UNDERIVED
    else if !b.derived then Derivation(true, a.min, a.max)
    else if !a.derived then Derivation(true, b.min, b.max)
    else Derivation(true, if a.min > b.min then a.min else b.min, if a.max < b.max then a.max else b.max)
  }

  function Unite(a: Derivation, b: Derivation): Derivation {
    if !a.derived && !b.derived then UNDERIVED
    else if !b.derived then Derivation(true, a.min, a.max)
    else if !a.derived then Derivation(true, b.min, b.max)
    else Derivation(true, if a.min > b.min then b.min else a.min, if a.max < b.max then b.max else a.max)
  }

  function Intersection(a: Derivations, b: Derivations): Derivations {
    seq(MAX_VARIABLE_ID, i requires 0 <= i < MAX_VARIABLE_ID => Intersect(a[i], b[i]))
  }

  function Union(a: Derivations, b: Derivations): Derivations {
    seq(MAX_VARIABLE_ID, i requires 0 <= i < MAX_VARIABLE_ID => Unite(a[i], b[i]))
  }

  /** The range inferred for the variable of a comparison. The operand that is not taken for
      the variable is taken for a constant, and the side it stands on is ignored. */
  function RangeFor(op: int, value: long): Option<Derivation> {
    if op == LVM_EQ then Some(Derivation(true, value, value))
    else if op == LVM_GE then Some(Derivation(true, Wrap(value + 1), LONG_MAX))
    else if op == LVM_GEQ then Some(Derivation(true, value, LONG_MAX))
    else if op == LVM_LE then Some(Derivation(true, LONG_MIN, Wrap(value - 1)))
    else if op == LVM_LEQ then Some(Derivation(true, LONG_MIN, value))
    else None
  }

  function DeriveComparison(op: int, l: Operand, r: Operand): Option<Derivations> {
    if l.kind == LVM_VARIABLE && r.kind == LVM_VARIABLE then None
    else
      var (id, value) := if l.kind == LVM_VARIABLE then (VariableOf(l), r.value) else (VariableOf(r), l.value);
      if id >= MAX_VARIABLE_ID || RangeFor(op, value).None? then None
      else Some(NOTHING[id := RangeFor(op, value).value])
  }

  function Derive(t: Logic): Option<Derivations> {
    match t
    case Compare(op, l, r) => if l.Leaf? && r.Leaf? then DeriveComparison(op, l.o, r.o) else None
    case Not(a) => None
    case Connect(op, a, b) =>
      if op != LVM_AND && op != LVM_OR then None
      else
        var x, y := Derive(a), Derive(b);
        if x.None? || y.None? then None
        else Some(if op == LVM_AND then Intersection(x.value, y.value) else Union(x.value, y.value))
  }

  // ----- Soundness -----

  ghost predicate Within(d: Derivations, vars: Values) {
    forall i | 0 <= i < MAX_VARIABLE_ID :: d[i].derived ==> d[i].min <= vars[i] <= d[i].max
  }

  /** Every assignment that makes the predicate true lies in the derived ranges. */
  ghost predicate SoundFor(t: Logic, d: Derivations) {
    forall vars: Values :: EvalLogic(t, vars) == TRUE ==> Within(d, vars)
  }

  predicate IsVariable(e: Expr) {
    e.Leaf? && e.o.kind == LVM_VARIABLE && VariableOf(e.o) < MAX_VARIABLE_ID
  }

  predicate IsConstant(e: Expr) {
    e.Leaf? && e.o.kind == LVM_LONG
  }

  /** The variables a predicate compares. */
  function Constrains(t: Logic): set<nat> {
    match t
    case Compare(_, l, _) => if IsVariable(l) then {VariableOf(l.o)} else {}
    case Not(a) => Constrains(a)
    case Connect(_, a, b) => Constrains(a) + Constrains(b)
  }

  /** Comparisons with the variable on the left and a constant on the right, joined by AND and
      OR, where the two sides of each OR constrain the same variables. */
  predicate Searchable(t: Logic) {
    match t
    case Compare(_, l, r) => IsVariable(l) && IsConstant(r)
    case Not(a) => false
    case Connect(op, a, b) => Searchable(a) && Searchable(b) && (op == LVM_OR ==> Constrains(a) == Constrains(b))
  }

  lemma {:induction false} DerivesConstrained(t: Logic)
    requires Searchable(t) && Derive(t).Some?
    ensures forall i | 0 <= i < MAX_VARIABLE_ID :: Derive(t).value[i].derived <==> i in Constrains(t)
  {
    if t.Connect? {
      DerivesConstrained(t.a);
      DerivesConstrained(t.b);
    }
  }

  /** If a range is derived from a searchable predicate, every assignment that satisfies the
      predicate lies in it. */
  lemma {:induction false} DerivationSound(t: Logic, vars: Values)
    requires Searchable(t) && Derive(t).Some? && EvalLogic(t, vars) == TRUE
    ensures Within(Derive(t).value, vars)
  {
    if t.Connect? {
      LogicStatus(t.a, vars);
      LogicStatus(t.b, vars);
      if EvalLogic(t.a, vars) == TRUE {
        DerivationSound(t.a, vars);
      }
      if EvalLogic(t.b, vars) == TRUE {
        DerivationSound(t.b, vars);
      }
      if t.op == LVM_OR {
        DerivesConstrained(t.a);
        DerivesConstrained(t.b);
      }
    }
  }

  // ----- What is derived, and how narrowly -----

  /** The predicate has no comparison for inequality. */
  predicate NoInequality(t: Logic) {
    match t
    case Compare(op, _, _) => op != LVM_NEQ
    case Not(a) => NoInequality(a)
    case Connect(_, a, b) => NoInequality(a) && NoInequality(b)
  }

  predicate Operators(t: Logic) {
    match t
    case Compare(op, _, _) => op in {LVM_EQ, LVM_NEQ, LVM_GE, LVM_GEQ, LVM_LE, LVM_LEQ}
    case Not(a) => Operators(a)
    case Connect(op, a, b) => op in {LVM_AND, LVM_OR} && Operators(a) && Operators(b)
  }

  /** Ranges are derived from a searchable predicate exactly if nothing in it is compared for
      inequality. */
  lemma {:induction false} DerivesWithoutInequality(t: Logic)
    requires Searchable(t) && Operators(t)
    ensures Derive(t).Some? <==> NoInequality(t)
  {
    if t.Connect? {
      DerivesWithoutInequality(t.a);
      DerivesWithoutInequality(t.b);
    }
  }

  /** Comparisons joined by AND, none of which asks for more than the largest or less than the smallest
      number. */
  predicate Conjunction(t: Logic) {
    match t
    case Compare(op, _, r) => IsConstant(r) && !Hopeless(op, r.o.value)
    case Not(a) => false
    case Connect(op, a, b) => op == LVM_AND && Conjunction(a) && Conjunction(b)
  }

  /** For comparisons joined by AND the derived ranges are exactly the solutions. */
  lemma {:induction false} DerivationExact(t: Logic, vars: Values)
    requires Searchable(t) && Conjunction(t) && Derive(t).Some?
    ensures Within(Derive(t).value, vars) <==> EvalLogic(t, vars) == TRUE
  {
    if t.Connect? {
      LogicStatus(t.a, vars);
      LogicStatus(t.b, vars);
      DerivationExact(t.a, vars);
      DerivationExact(t.b, vars);
      WithinBoth(Derive(t.a).value, Derive(t.b).value, vars);
      SearchableStatus(t.a, vars);
      SearchableStatus(t.b, vars);
    } else {
      var id := VariableOf(t.l.o);
      assert Derive(t).value[id] == RangeFor(t.op, t.r.o.value).value;
    }
  }

  lemma {:induction false} SearchableStatus(t: Logic, vars: Values)
    requires Searchable(t) && Derive(t).Some?
    ensures EvalLogic(t, vars) in {FALSE, TRUE}
  {
    if t.Connect? {
      SearchableStatus(t.a, vars);
      SearchableStatus(t.b, vars);
    }
  }

  lemma WithinBoth(a: Derivations, b: Derivations, vars: Values)
    ensures Within(Intersection(a, b), vars) <==> Within(a, vars) && Within(b, vars)
  {
    forall i | 0 <= i < MAX_VARIABLE_ID
      ensures (Intersection(a, b)[i].derived ==> Intersection(a, b)[i].min <= vars[i] <= Intersection(a, b)[i].max) <==>
                (a[i].derived ==> a[i].min <= vars[i] <= a[i].max) && (b[i].derived ==> b[i].min <= vars[i] <= b[i].max)
    {
    }
  }

  predicate Covers(d: Derivation, e: Derivation) {
    d.min <= e.min && e.max <= d.max
  }

  /** The range derived from an OR is the smallest that covers those of both sides. */
  lemma UnionIsSmallest(a: Derivations, b: Derivations, i: nat, d: Derivation)
    requires i < MAX_VARIABLE_ID && a[i].derived && b[i].derived
    ensures var u := Union(a, b)[i]; u.derived && Covers(u, a[i]) && Covers(u, b[i])
    ensures Covers(d, a[i]) && Covers(d, b[i]) ==> Covers(d, Union(a, b)[i])
  {
  }

  // ----- Where derivation is not sound -----

  const VARS0: Values := [0, 0, 0, 0]

  /** With the constant on the left the operator is read as if it stood on the right. The
      result is sound only for equality and where the constant is at the end of the range. */
  predicate ReversedIsHarmless(op: int, c: long) {
    || op == LVM_EQ
    || ((op == LVM_GE || op == LVM_LE) && (c == LONG_MIN || c == LONG_MAX))
    || (op == LVM_GEQ && c == LONG_MIN)
    || (op == LVM_LEQ && c == LONG_MAX)
  }

  lemma ConstantOnTheLeft(op: int, c: long, id: nat)
    requires id < MAX_VARIABLE_ID && RangeFor(op, c).Some?
    ensures var t := Compare(op, Leaf(Operand(LVM_LONG, c)), Leaf(Operand(LVM_VARIABLE, id)));
            && Derive(t).Some?
            && (SoundFor(t, Derive(t).value) <==> ReversedIsHarmless(op, c))
  {
    var t := Compare(op, Leaf(Operand(LVM_LONG, c)), Leaf(Operand(LVM_VARIABLE, id)));
    var d := Derive(t).value;
    if !ReversedIsHarmless(op, c) {
      var x: long := if op == LVM_GE || op == LVM_GEQ then LONG_MIN else LONG_MAX;
      var vars: Values := VARS0[id := x];
      assert EvalLogic(t, vars) == TRUE && !Within(d, vars);
    }
  }

  function Compares(op: int, id: nat, c: long): Logic
    requires id < MAX_VARIABLE_ID
  {
    Compare(op, Leaf(Operand(LVM_VARIABLE, id)), Leaf(Operand(LVM_LONG, c)))
  }

  /** No value satisfies the comparison. */
  predicate Hopeless(op: int, c: long) {
    (op == LVM_GE && c == LONG_MAX) || (op == LVM_LE && c == LONG_MIN)
  }

  /** The range derived from the comparison excludes nothing. */
  predicate Unrestricted(op: int, c: long) {
    RangeFor(op, c) == Some(Derivation(true, LONG_MIN, LONG_MAX))
  }

  function Witness(op: int, c: long): long {
    if op == LVM_GE then LONG_MAX else if op == LVM_LE then LONG_MIN else c
  }

  function Outside(op: int, c: long): long {
    var d := RangeFor(op, c);
    if d.Some? && d.value.min > LONG_MIN then LONG_MIN else LONG_MAX
  }

  /** An OR of two different variables keeps the range of each side although the other side
      alone may make the predicate true. That is sound only where a range excludes nothing or
      the other side can never hold. */
  lemma OneSidedOr(op1: int, id1: nat, c1: long, op2: int, id2: nat, c2: long)
    requires id1 < MAX_VARIABLE_ID && id2 < MAX_VARIABLE_ID && id1 != id2
    requires RangeFor(op1, c1).Some? && RangeFor(op2, c2).Some?
    ensures var t := Connect(LVM_OR, Compares(op1, id1, c1), Compares(op2, id2, c2));
            && Derive(t).Some?
            && (SoundFor(t, Derive(t).value) <==>
                  && (Unrestricted(op1, c1) || Hopeless(op2, c2))
                  && (Unrestricted(op2, c2) || Hopeless(op1, c1)))
  {
    hide Derive, EvalLogic, Compares, Unrestricted, Hopeless;
    var t := Connect(LVM_OR, Compares(op1, id1, c1), Compares(op2, id2, c2));
    OrRanges(op1, id1, c1, op2, id2, c2);
    var d := Derive(t).value;
    if !(Unrestricted(op1, c1) || Hopeless(op2, c2)) {
      var vars: Values := VARS0[id1 := Outside(op1, c1)][id2 := Witness(op2, c2)];
      OrCounterexample(op1, id1, c1, op2, id2, c2);
      OrMeaning(op1, id1, c1, op2, id2, c2, vars);
      assert !Within(d, vars) by { assert d[id1].derived; }
    } else if !(Unrestricted(op2, c2) || Hopeless(op1, c1)) {
      var vars: Values := VARS0[id2 := Outside(op2, c2)][id1 := Witness(op1, c1)];
      OrCounterexample(op2, id2, c2, op1, id1, c1);
      OrMeaning(op1, id1, c1, op2, id2, c2, vars);
      assert !Within(d, vars) by { assert d[id2].derived; }
    } else {
      forall vars: Values | EvalLogic(t, vars) == TRUE
        ensures Within(d, vars)
      {
        OrMeaning(op1, id1, c1, op2, id2, c2, vars);
        OrHarmless(op1, id1, c1, vars);
        OrHarmless(op2, id2, c2, vars);
      }
    }
  }

  lemma OrRanges(op1: int, id1: nat, c1: long, op2: int, id2: nat, c2: long)
    requires id1 < MAX_VARIABLE_ID && id2 < MAX_VARIABLE_ID && id1 != id2
    requires RangeFor(op1, c1).Some? && RangeFor(op2, c2).Some?
    ensures var d := Derive(Connect(LVM_OR, Compares(op1, id1, c1), Compares(op2, id2, c2)));
            && d.Some? && d.value[id1] == RangeFor(op1, c1).value && d.value[id2] == RangeFor(op2, c2).value
            && forall i | 0 <= i < MAX_VARIABLE_ID && i != id1 && i != id2 :: d.value[i] == UNDERIVED
  {
    assert Derive(Compares(op1, id1, c1)) == Some(NOTHING[id1 := RangeFor(op1, c1).value]);
    assert Derive(Compares(op2, id2, c2)) == Some(NOTHING[id2 := RangeFor(op2, c2).value]);
  }

  lemma OrMeaning(op1: int, id1: nat, c1: long, op2: int, id2: nat, c2: long, vars: Values)
    requires id1 < MAX_VARIABLE_ID && id2 < MAX_VARIABLE_ID
    requires RangeFor(op1, c1).Some? && RangeFor(op2, c2).Some?
    ensures var a, b := Compares(op1, id1, c1), Compares(op2, id2, c2);
            EvalLogic(Connect(LVM_OR, a, b), vars) == TRUE <==> EvalLogic(a, vars) == TRUE || EvalLogic(b, vars) == TRUE
  {
    OrHarmless(op1, id1, c1, vars);
    OrHarmless(op2, id2, c2, vars);
  }

  lemma OrCounterexample(op: int, id: nat, c: long, op': int, id': nat, c': long)
    requires id < MAX_VARIABLE_ID && id' < MAX_VARIABLE_ID && id != id'
    requires RangeFor(op, c).Some? && RangeFor(op', c').Some?
    requires !Unrestricted(op, c) && !Hopeless(op', c')
    ensures var vars: Values := VARS0[id := Outside(op, c)][id' := Witness(op', c')];
            && EvalLogic(Compares(op', id', c'), vars) == TRUE
            && !(RangeFor(op, c).value.min <= vars[id] <= RangeFor(op, c).value.max)
  {
  }

  lemma OrHarmless(op: int, id: nat, c: long, vars: Values)
    requires id < MAX_VARIABLE_ID && RangeFor(op, c).Some?
    ensures EvalLogic(Compares(op, id, c), vars) == TRUE ==>
              !Hopeless(op, c) && RangeFor(op, c).value.min <= vars[id] <= RangeFor(op, c).value.max
    ensures EvalLogic(Compares(op, id, c), vars) in {FALSE, TRUE}
    ensures Unrestricted(op, c) ==> RangeFor(op, c).value.min <= vars[id] <= RangeFor(op, c).value.max
  {
  }
}
