/** The logic engine as an instance runs: a code buffer with the cursors `ip` and `end`, and
    the table of registered variables. */
module LvmMachine {
  import opened Basics
  import opened LvmSpec
  import opened LvmDerive

  class Machine {
    const code: array<int>
    var end: nat
    var ip: nat
    var error: bool
    // Registered variables in order of registration, and their current values.
    var names: seq<string>
    const values: array<long>
    const derivations: array<Derivation>

    ghost predicate Valid()
      reads this`names
    {
      && values.Length == MAX_VARIABLE_ID && derivations.Length == MAX_VARIABLE_ID
      && |names| <= MAX_VARIABLE_ID
    }

    ghost function Vars(): Values
      requires Valid()
      reads this`names, values
    {
      values[..]
    }

    /** lvm_reset */
    constructor (size: nat)
      ensures Valid() && fresh(code) && fresh(values) && fresh(derivations)
      ensures code.Length == size && end == 0 && ip == 0 && !error && names == []
      ensures derivations[..] == NOTHING
    {
      code := new int[size](i => 0);
      values := new long[MAX_VARIABLE_ID](i => 0);
      derivations := new Derivation[MAX_VARIABLE_ID](i => UNDERIVED);
      end, ip, error, names := 0, 0, false, [];
    }

    // ----- Emission -----

    method Emit(word: int)
      requires end < code.Length
      modifies this`end, code
      ensures end == old(end) + 1 && code[..end] == old(code[..end]) + [word]
      ensures code[end..] == old(code[end + 1..])
    {
      code[end] := word;
      end := end + 1;
    }

    /** lvm_set_op and lvm_set_relation */
    method SetOperator(kind: int, op: int)
      requires end + 2 <= code.Length
      modifies this`end, code
      ensures end == old(end) + 2 && code[..end] == old(code[..end]) + [kind, op]
      ensures code[end..] == old(code[end + 2..])
    {
      Emit(kind);
      Emit(op);
    }

    /** lvm_set_operand */
    method SetOperand(o: Operand)
      requires end + 3 <= code.Length
      modifies this`end, code
      ensures end == old(end) + 3 && code[..end] == old(code[..end]) + EncodeExpr(Leaf(o))
      ensures code[end..] == old(code[end + 3..])
    {
      Emit(OPERAND);
      Emit(o.kind);
      Emit(o.value);
    }

    /** lvm_set_variable: a name without an id emits nothing. */
    method SetVariable(name: string)
      requires Valid() && end + 3 <= code.Length
      modifies this`end, code
      ensures if IdOf(names, name) < MAX_VARIABLE_ID
              then end == old(end) + 3
                   && code[..end] == old(code[..end]) + EncodeExpr(Leaf(Operand(LVM_VARIABLE, IdOf(names, name))))
                   && code[end..] == old(code[end + 3..])
              else end == old(end) && code[..] == old(code[..])
    {
      var id := Lookup(name);
      if id < MAX_VARIABLE_ID {
        SetOperand(Operand(LVM_VARIABLE, id));
      }
    }

    /** lvm_jump_to_operand leaves room for an operator. */
    method JumpToOperand() returns (oldEnd: nat)
      modifies this`end, this`error
      ensures oldEnd == old(end)
      ensures if oldEnd + 2 < code.Length then end == oldEnd + 2 && error == old(error) else end == oldEnd && error
    {
      oldEnd := end;
      end := end + 2;
      if end >= code.Length {
        error := true;
        end := oldEnd;
      }
    }

    /** lvm_shift_for_operator moves the code from `from` on up by one operator node. The code asks
        for one word of room where the node takes two; with just one it writes past the buffer. */
    method ShiftForOperator(from: nat) returns (newEnd: nat)
      requires end + 1 == code.Length ==> from >= end
      modifies this`end, this`error, code
      ensures if old(end) + 1 > code.Length || from >= old(end)
              then newEnd == 0 && error && end == old(end) && code[..] == old(code[..])
              else newEnd == old(end) + 2 && end == from && error == old(error)
                   && code[..from] == old(code[..from]) && code[from + 2..newEnd] == old(code[from..end])
                   && code[newEnd..] == old(code[end + 2..])
    {
      var oldEnd := end;
      if end + 1 > code.Length || from >= oldEnd {
        error := true;
        return 0;
      }
      forall k | from <= k < oldEnd {
        code[k + 2] := code[k];
      }
      end := from;
      return oldEnd + 2;
    }

    /** lvm_set_end */
    method SetEnd(newEnd: nat) returns (oldEnd: nat)
      modifies this`end, this`error
      ensures oldEnd == old(end)
      ensures if newEnd < code.Length then end == newEnd && error == old(error) else end == old(end) && error
    {
      oldEnd := end;
      if newEnd >= code.Length {
        error := true;
        return;
      }
      end := newEnd;
    }

    /** The three calls by which the parser puts an operator before code emitted already: shift,
        set the operator, and return to the end. If nothing was emitted behind `from`, the operator
        is lost and the code is emptied; if the buffer is full afterwards, the end is not set. */
    method InsertOperator(from: nat, kind: int, op: int) returns (newEnd: nat)
      requires end + 2 <= code.Length
      modifies this`end, this`error, code
      ensures if from >= old(end) then newEnd == end == 0 && error
              else
                && newEnd == old(end) + 2
                && code[..newEnd] == old(code[..from]) + [kind, op] + old(code[from..end])
                && code[newEnd..] == old(code[end + 2..])
                && if newEnd < code.Length then end == newEnd && error == old(error) else end == from + 2 && error
    {
      ghost var before := code[..end];
      newEnd := ShiftForOperator(from);
      ghost var shifted := code[..];
      SetOperator(kind, op);
      if from < |before| {
        Spliced(before, shifted, code[..], from, [kind, op]);
      }
      var _ := SetEnd(newEnd);
    }

    // ----- Execution -----

    /** The word at ip; a word past the buffer is taken as zero. */
    method GetWord() returns (w: int)
      modifies this`ip
      ensures w == At(code[..], old(ip)) && ip == old(ip) + 1
    {
      w := if ip < code.Length then code[ip] else 0;
      ip := ip + 1;
    }

    method GetOperand() returns (o: Operand)
      modifies this`ip
      ensures ip == old(ip) + 2
      ensures o == Operand(At(code[..], old(ip)), Wrap(At(code[..], old(ip) + 1)))
    {
      var kind := GetWord();
      var value := GetWord();
      o := Operand(kind, Wrap(value));
    }

    method ToLong(o: Operand) returns (v: long)
      requires Valid()
      ensures v == OperandToLong(o, Vars())
    {
      if o.kind == LVM_LONG {
        v := o.value;
      } else if o.kind == LVM_VARIABLE && VariableOf(o) < MAX_VARIABLE_ID {
        v := values[VariableOf(o)];
      } else {
        v := 0;
      }
    }

    ghost function Left(): nat
      reads this`ip, code
    {
      if ip < code.Length then code.Length - ip else 0
    }

    /** One argument of an operator: a nested expression or an operand. */
    method EvalArgument() returns (status: int, value: long)
      requires Valid()
      modifies this`ip
      ensures ip > old(ip)
      ensures match ParseExpr(code[..], old(ip))
              case None => IsError(status)
              case Some((e, next)) =>
                match EvalExpr(e, Vars())
                case Value(v) => status == TRUE && value == v && ip == next
                case Fault(f) => status == f && IsError(f)
      decreases Left(), 0
    {
      value := 0;
      var kind := GetWord();
      if kind == ARITH_OP {
        var op := GetWord();
        status, value := EvalExpression(op);
      } else if kind == OPERAND {
        var o := GetOperand();
        value := ToLong(o);
        status := TRUE;
      } else {
        status := SEMANTIC_ERROR;
      }
    }

    /** eval_expr */
    method EvalExpression(op: int) returns (status: int, result: long)
      requires Valid()
      modifies this`ip
      ensures ip > old(ip)
      ensures match ParseOperands(code[..], old(ip))
              case None => IsError(status)
              case Some((l, r, next)) =>
                match EvalExpr(Arith(op, l, r), Vars())
                case Value(v) => status == TRUE && result == v && ip == next
                case Fault(f) => status == f && IsError(f)
      decreases Left(), 1
    {
      result := 0;
      var a, b: long;
      status, a := EvalArgument();
      if IsError(status) {
        return;
      }
      status, b := EvalArgument();
      if IsError(status) {
        return;
      }
      if op == LVM_ADD {
        result := Wrap(a + b);
      } else if op == LVM_SUB {
        result := Wrap(a - b);
      } else if op == LVM_MUL {
        result := Wrap(a * b);
      } else if op == LVM_DIV {
        if b == 0 {
          return MATH_ERROR, 0;
        }
        result := Wrap(Quotient(a, b));
      } else {
        return EXECUTION_ERROR, 0;
      }
      return TRUE, result;
    }

    /** One argument of a connective, which must start with a relational operator. */
    method EvalProposition() returns (status: int)
      requires Valid()
      modifies this`ip
      ensures ip > old(ip)
      ensures match ParseLogic(code[..], old(ip))
              case None => IsError(status)
              case Some((t, next)) => status == EvalLogic(t, Vars()) && (!IsError(status) ==> ip == next)
      decreases Left(), 3
    {
      var kind := GetWord();
      if kind != CMP_OP {
        return SEMANTIC_ERROR;
      }
      var op := GetWord();
      status := EvalRelation(op);
    }

    /** eval_logic */
    method EvalRelation(op: int) returns (status: int)
      requires Valid()
      modifies this`ip
      ensures ip >= old(ip)
      ensures match ParseBody(code[..], old(ip), op)
              case None => IsError(status)
              case Some((t, next)) => status == EvalLogic(t, Vars()) && (!IsError(status) ==> ip == next)
      decreases Left(), 4
    {
      if IsConnective(op) {
        var first := EvalProposition();
        if IsError(first) {
          return first;
        }
        if op == LVM_NOT {
          return if first == FALSE then TRUE else FALSE;
        }
        var second := EvalProposition();
        if IsError(second) {
          return second;
        }
        if op == LVM_AND {
          return if first == TRUE && second == TRUE then TRUE else FALSE;
        }
        return if first == TRUE || second == TRUE then TRUE else FALSE;
      }
      var a, b: long;
      status, a := EvalArgument();
      if IsError(status) {
        return;
      }
      status, b := EvalArgument();
      if IsError(status) {
        return;
      }
      if op == LVM_EQ {
        return Truth(a == b);
      } else if op == LVM_NEQ {
        return Truth(a != b);
      } else if op == LVM_GE {
        return Truth(a > b);
      } else if op == LVM_GEQ {
        return Truth(a >= b);
      } else if op == LVM_LE {
        return Truth(a < b);
      } else if op == LVM_LEQ {
        return Truth(a <= b);
      }
      return EXECUTION_ERROR;
    }

    /** lvm_execute runs the predicate at the start of the buffer: the status is its value or its
        first error, and without an error exactly its code has been consumed. Code that is not
        a predicate gives an error. */
    method Execute() returns (status: int)
      requires Valid()
      modifies this`ip
      ensures match ParseLogic(code[..], 0)
              case None => IsError(status)
              case Some((t, next)) => status == EvalLogic(t, Vars()) && (!IsError(status) ==> ip == next)
    {
      ip := 0;
      status := EXECUTION_ERROR;
      var kind := GetWord();
      if kind == CMP_OP {
        var op := GetWord();
        status := EvalRelation(op);
      }
    }

    // ----- Derivation -----

    /** derive_relation fills `local`, which must be cleared, with the ranges of the predicate
        at ip. */
    method DeriveRelation(local: array<Derivation>) returns (status: int)
      requires Valid() && local.Length == MAX_VARIABLE_ID && local[..] == NOTHING
      modifies this`ip, local
      ensures ip >= old(ip) + 2
      ensures match ParseLogic(code[..], old(ip))
              case None => true
              case Some((t, next)) =>
                match Derive(t)
                case None => status == DERIVATION_ERROR
                case Some(d) => status == TRUE && local[..] == d && ip == next
      decreases Left(), 0
    {
      hide ParseBody, Derive;
      var kind := GetWord();
      var op := GetWord();
      if IsConnective(op) {
        status := DeriveConnective(op, local);
      } else {
        BodyOfComparison(code[..], ip, op);
        status := DeriveSimple(op, local);
      }
    }

    /** The part of derive_relation for a connective. */
    method DeriveConnective(op: int, local: array<Derivation>) returns (status: int)
      requires Valid() && local.Length == MAX_VARIABLE_ID && local[..] == NOTHING && IsConnective(op)
      modifies this`ip, local
      ensures ip >= old(ip)
      ensures match ParseBody(code[..], old(ip), op)
              case None => true
              case Some((t, next)) =>
                match Derive(t)
                case None => status == DERIVATION_ERROR
                case Some(d) => status == TRUE && local[..] == d && ip == next
      decreases Left(), 1
    {
      hide ParseLogic;
      if op != LVM_AND && op != LVM_OR {
        return DERIVATION_ERROR;
      }
      var d1 := new Derivation[MAX_VARIABLE_ID](i => UNDERIVED);
      var d2 := new Derivation[MAX_VARIABLE_ID](i => UNDERIVED);
      status := DeriveRelation(d1);
      if IsError(status) {
        return DERIVATION_ERROR;
      }
      status := DeriveRelation(d2);
      if IsError(status) {
        return DERIVATION_ERROR;
      }
      if op == LVM_AND {
        CreateIntersection(local, d1, d2);
      } else {
        CreateUnion(local, d1, d2);
      }
      return TRUE;
    }

    /** The operands of a comparison, unless one of its sides is an expression. */
    method GetOperands() returns (ok: bool, first: Operand, second: Operand)
      modifies this`ip
      ensures ip >= old(ip)
      ensures match ParseOperands(code[..], old(ip))
              case None => true
              case Some((l, r, next)) =>
                if l.Leaf? && r.Leaf? then ok && first == l.o && second == r.o && ip == next else !ok
    {
      first, second := Operand(0, 0), Operand(0, 0);
      var kind := GetWord();
      if kind != OPERAND {
        return false, first, second;
      }
      first := GetOperand();
      kind := GetWord();
      if kind != OPERAND {
        return false, first, second;
      }
      second := GetOperand();
      return true, first, second;
    }

    /** The part of derive_relation for a comparison: both arguments must be operands. */
    method DeriveSimple(op: int, local: array<Derivation>) returns (status: int)
      requires Valid() && local.Length == MAX_VARIABLE_ID && local[..] == NOTHING && !IsConnective(op)
      modifies this`ip, local
      ensures ip >= old(ip)
      ensures match ParseOperands(code[..], old(ip))
              case None => true
              case Some((l, r, next)) =>
                match Derive(Compare(op, l, r))
                case None => status == DERIVATION_ERROR
                case Some(d) => status == TRUE && local[..] == d && ip == next
    {
      hide ParseOperands;
      var ok, first, second := GetOperands();
      if !ok {
        return DERIVATION_ERROR;
      }
      if first.kind == LVM_VARIABLE && second.kind == LVM_VARIABLE {
        return DERIVATION_ERROR;
      }
      var id: nat, value: long;
      if first.kind == LVM_VARIABLE {
        id, value := VariableOf(first), second.value;
      } else {
        id, value := VariableOf(second), first.value;
      }
      if id >= MAX_VARIABLE_ID {
        return DERIVATION_ERROR;
      }
      var min: long, max: long := LONG_MIN, LONG_MAX;
      if op == LVM_EQ {
        min, max := value, value;
      } else if op == LVM_GE {
        min := Wrap(value + 1);
      } else if op == LVM_GEQ {
        min := value;
      } else if op == LVM_LE {
        max := Wrap(value - 1);
      } else if op == LVM_LEQ {
        max := value;
      } else {
        local[id] := Derivation(false, min, max);
        return DERIVATION_ERROR;
      }
      local[id] := Derivation(true, min, max);
      return TRUE;
    }

    /** lvm_derive, on an instance whose predicate has not been run or derived from yet. */
    method DeriveRanges() returns (status: int)
      requires Valid() && ip == 0 && derivations[..] == NOTHING
      modifies this`ip, derivations
      ensures match ParseLogic(code[..], 0)
              case None => true
              case Some((t, _)) =>
                match Derive(t)
                case None => status == DERIVATION_ERROR
                case Some(d) => status == TRUE && derivations[..] == d
    {
      status := DeriveRelation(derivations);
    }

    /** lvm_get_derived_range */
    method GetDerivedRange(name: string) returns (status: int, min: long, max: long)
      requires Valid()
      ensures var id := IdOf(names, name);
              if id < |names| && derivations[id].derived
              then status == TRUE && min == derivations[id].min && max == derivations[id].max
              else IsError(status)
    {
      var id := Lookup(name);
      if id == |names| {
        return INVALID_IDENTIFIER, 0, 0;
      }
      if derivations[id].derived {
        return TRUE, derivations[id].min, derivations[id].max;
      }
      return DERIVATION_ERROR, 0, 0;
    }

    method CreateIntersection(result: array<Derivation>, d1: array<Derivation>, d2: array<Derivation>)
      requires result.Length == d1.Length == d2.Length == MAX_VARIABLE_ID
      requires result != d1 && result != d2 && result[..] == NOTHING
      modifies result
      ensures result[..] == Intersection(d1[..], d2[..])
    {
      for i := 0 to MAX_VARIABLE_ID
        invariant forall k | 0 <= k < i :: result[k] == Intersect(d1[k], d2[k])
        invariant forall k | i <= k < MAX_VARIABLE_ID :: result[k] == UNDERIVED
      {
        if !d1[i].derived && !d2[i].derived {
          continue;
        }
        var min: long, max: long;
        if d1[i].derived && !d2[i].derived {
          min, max := d1[i].min, d1[i].max;
        } else if !d1[i].derived && d2[i].derived {
          min, max := d2[i].min, d2[i].max;
        } else {
          min := if d1[i].min > d2[i].min then d1[i].min else d2[i].min;
          max := if d1[i].max < d2[i].max then d1[i].max else d2[i].max;
        }
        result[i] := Derivation(true, min, max);
      }
    }

    method CreateUnion(result: array<Derivation>, d1: array<Derivation>, d2: array<Derivation>)
      requires result.Length == d1.Length == d2.Length == MAX_VARIABLE_ID
      requires result != d1 && result != d2 && result[..] == NOTHING
      modifies result
      ensures result[..] == Union(d1[..], d2[..])
    {
      for i := 0 to MAX_VARIABLE_ID
        invariant forall k | 0 <= k < i :: result[k] == Unite(d1[k], d2[k])
        invariant forall k | i <= k < MAX_VARIABLE_ID :: result[k] == UNDERIVED
      {
        if !d1[i].derived && !d2[i].derived {
          continue;
        }
        var min: long, max: long;
        if d1[i].derived && !d2[i].derived {
          min, max := d1[i].min, d1[i].max;
        } else if !d1[i].derived && d2[i].derived {
          min, max := d2[i].min, d2[i].max;
        } else {
          min := if d1[i].min > d2[i].min then d2[i].min else d1[i].min;
          max := if d1[i].max < d2[i].max then d2[i].max else d1[i].max;
        }
        result[i] := Derivation(true, min, max);
      }
    }

    // ----- Variables -----

    /** lookup: the id of a name, or the first free id. */
    method Lookup(name: string) returns (id: nat)
      requires Valid()
      ensures id == IdOf(names, name)
    {
      id := 0;
      while id < |names| && names[id] != name
        invariant id <= |names| && IdOf(names, name) == id + IdOf(names[id..], name)
      {
        id := id + 1;
      }
    }

    /** lvm_register_variable: a full table is left as it is. */
    method RegisterVariable(name: string)
      requires Valid()
      modifies this`names
      ensures Valid()
      ensures names == if |Registered(old(names), name)| <= MAX_VARIABLE_ID then Registered(old(names), name) else old(names)
    {
      var id := Lookup(name);
      IdFacts(names, name);
      if id == |names| && id < MAX_VARIABLE_ID {
        names := names + [name];
      }
    }

    /** lvm_set_variable_value */
    method SetVariableValue(name: string, value: long)
      requires Valid()
      modifies values
      ensures Valid() && var id := IdOf(names, name);
              Vars() == if id < MAX_VARIABLE_ID then old(Vars())[id := value] else old(Vars())
    {
      var id := Lookup(name);
      if id < MAX_VARIABLE_ID {
        values[id] := value;
      }
    }
  }

  lemma BodyOfComparison(code: seq<int>, ip: nat, op: int)
    requires !IsConnective(op)
    ensures var both := ParseOperands(code, ip);
            ParseBody(code, ip, op) ==
              if both.None? then None else Some((Compare(op, both.value.0, both.value.1), both.value.2))
  {
    hide ParseOperands;
  }

  /** A node has been put into the gap left by a shift. */
  lemma Spliced(before: seq<int>, shifted: seq<int>, code: seq<int>, from: nat, node: seq<int>)
    requires |node| == 2 && from <= |before| <= |shifted| - 2 && |code| == |shifted|
    requires shifted[..from] == before[..from] && shifted[from + 2..|before| + 2] == before[from..]
    requires code[..from + 2] == shifted[..from] + node && code[from + 2..] == shifted[from + 2..]
    ensures code[..|before| + 2] == before[..from] + node + before[from..]
  {
    assert code[from + 2..|before| + 2] == shifted[from + 2..][..|before| - from];
    assert code[..|before| + 2] == code[..from + 2] + code[from + 2..|before| + 2];
  }

  function IdOf(names: seq<string>, name: string): (id: nat)
    ensures id <= |names|
  {
    if names == [] || names[0] == name then 0 else 1 + IdOf(names[1..], name)
  }

  /** The names after registering one more. */
  function Registered(names: seq<string>, name: string): seq<string> {
    if name in names then names else names + [name]
  }

  lemma {:induction false} IdFacts(names: seq<string>, name: string)
    ensures IdOf(names, name) < |names| <==> name in names
    ensures IdOf(names, name) < |names| ==> names[IdOf(names, name)] == name
  {
    if names != [] && names[0] != name {
      IdFacts(names[1..], name);
    }
  }

  /** A name keeps its id when others are registered after it. */
  lemma {:induction false} IdStable(names: seq<string>, more: seq<string>, name: string)
    requires name in names
    ensures IdOf(names + more, name) == IdOf(names, name)
  {
    if names[0] != name {
      IdStable(names[1..], more, name);
      assert (names + more)[1..] == names[1..] + more;
    }
  }
}
