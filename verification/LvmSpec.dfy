/** The logic engine of Antelope: predicates in prefix code, their evaluation, and the
    derivation of value ranges that an index search may use (apps/antelope/lvm.c).

    The code buffer is modelled in words of the size of `node_type_t`: an operator node takes
    two words and an operand node three. `long` has 32 bits and wraps around. */
module LvmSpec {
  import opened Basics

  // enum node_type
  const ARITH_OP := 0x10
  const OPERAND := 0x20
  const CMP_OP := 0x40
  const CONNECTIVE := 0x80

  // enum operator
  const LVM_ADD := 0x11
  const LVM_SUB := 0x12
  const LVM_MUL := 0x13
  const LVM_DIV := 0x14
  const LVM_EQ := 0x41
  const LVM_NEQ := 0x42
  const LVM_GE := 0x43
  const LVM_GEQ := 0x44
  const LVM_LE := 0x45
  const LVM_LEQ := 0x46
  const LVM_AND := 0x81
  const LVM_OR := 0x82
  const LVM_NOT := 0x83

  // enum operand_type
  const LVM_VARIABLE := 0
  const LVM_LONG := 2

  // enum lvm_status
  const FALSE := 0
  const TRUE := 1
  const INVALID_IDENTIFIER := 2
  const SEMANTIC_ERROR := 3
  const MATH_ERROR := 4
  const EXECUTION_ERROR := 8
  const DERIVATION_ERROR := 9

  const MAX_VARIABLE_ID := 4

  predicate IsError(status: int) { status >= 2 }

  predicate IsConnective(op: int) { (op / CONNECTIVE) % 2 == 1 }

  /** Division as C does it, towards zero. */
  function Quotient(a: int, b: int): int
    requires b != 0
  {
    if (a >= 0) == (b > 0) then Abs(a) / Abs(b) else -(Abs(a) / Abs(b))
  }

  function Abs(a: int): (r: nat)
    ensures a != 0 ==> r > 0
  {
    if a >= 0 then a else -a
  }

  // ----- Predicates as trees -----

  datatype Operand = Operand(kind: int, value: long)
  datatype Expr = Leaf(o: Operand) | Arith(op: int, l: Expr, r: Expr)
  datatype Logic = Compare(op: int, l: Expr, r: Expr) | Not(a: Logic) | Connect(op: int, a: Logic, b: Logic)

  type Values = s: seq<long> | |s| == MAX_VARIABLE_ID witness [0, 0, 0, 0]

  datatype Outcome = Value(v: long) | Fault(status: int)

  /** The variable an operand names: the id is the low byte of the value word. */
  function VariableOf(o: Operand): nat { o.value % 0x100 }

  function OperandToLong(o: Operand, vars: Values): long {
    if o.kind == LVM_LONG then o.value
    else if o.kind == LVM_VARIABLE && VariableOf(o) < MAX_VARIABLE_ID then vars[VariableOf(o)]
    else 0
  }

  function Apply(op: int, a: long, b: long): Outcome {
    if op == LVM_ADD then Value(Wrap(a + b))
    else if op == LVM_SUB then Value(Wrap(a - b))
    else if op == LVM_MUL then Value(Wrap(a * b))
    else if op == LVM_DIV then (if b == 0 then Fault(MATH_ERROR) else Value(Wrap(Quotient(a, b))))
    else Fault(EXECUTION_ERROR)
  }

  function EvalExpr(e: Expr, vars: Values): Outcome {
    match e
    case Leaf(o) => Value(OperandToLong(o, vars))
    case Arith(op, l, r) =>
      var x := EvalExpr(l, vars);
      if x.Fault? then x else
      var y := EvalExpr(r, vars);
      if y.Fault? then y else Apply(op, x.v, y.v)
  }

  function Truth(b: bool): int { if b then TRUE else FALSE }

  function ApplyComparison(op: int, a: long, b: long): int {
    if op == LVM_EQ then Truth(a == b)
    else if op == LVM_NEQ then Truth(a != b)
    else if op == LVM_GE then Truth(a > b)
    else if op == LVM_GEQ then Truth(a >= b)
    else if op == LVM_LE then Truth(a < b)
    else if op == LVM_LEQ then Truth(a <= b)
    else EXECUTION_ERROR
  }

  function Combine(op: int, a: int, b: int): int {
    if op == LVM_AND then Truth(a == TRUE && b == TRUE) else Truth(a == TRUE || b == TRUE)
  }

  /** The value of a predicate, or the first error from the left; both sides of a connective
      are always evaluated. */
  function EvalLogic(t: Logic, vars: Values): int {
    match t
    case Compare(op, l, r) =>
      var x := EvalExpr(l, vars);
      if x.Fault? then x.status else
      var y := EvalExpr(r, vars);
      if y.Fault? then y.status else ApplyComparison(op, x.v, y.v)
    case Not(a) =>
      var x := EvalLogic(a, vars);
      if IsError(x) then x else Truth(x == FALSE)
    case Connect(op, a, b) =>
      var x := EvalLogic(a, vars);
      if IsError(x) then x else
      var y := EvalLogic(b, vars);
      if IsError(y) then y else Combine(op, x, y)
  }

  lemma {:induction false} FaultsAreErrors(e: Expr, vars: Values)
    ensures EvalExpr(e, vars).Fault? ==> IsError(EvalExpr(e, vars).status)
  {
    if e.Arith? {
      FaultsAreErrors(e.l, vars);
      FaultsAreErrors(e.r, vars);
    }
  }

  lemma {:induction false} LogicStatus(t: Logic, vars: Values)
    ensures EvalLogic(t, vars) >= 0
  {
    match t
    case Compare(_, l, r) => FaultsAreErrors(l, vars); FaultsAreErrors(r, vars);
    case Not(a) => LogicStatus(a, vars);
    case Connect(_, a, b) => LogicStatus(a, vars); LogicStatus(b, vars);
  }

  // ----- Prefix code -----

  function EncodeExpr(e: Expr): (code: seq<int>)
    ensures |code| >= 3
  {
    match e
    case Leaf(o) => [OPERAND, o.kind, o.value]
    case Arith(op, l, r) => [ARITH_OP, op] + EncodeExpr(l) + EncodeExpr(r)
  }

  function Encode(t: Logic): (code: seq<int>)
    ensures |code| >= 4
  {
    match t
    case Compare(op, l, r) => [CMP_OP, op] + EncodeExpr(l) + EncodeExpr(r)
    case Not(a) => [CMP_OP, LVM_NOT] + Encode(a)
    case Connect(op, a, b) => [CMP_OP, op] + Encode(a) + Encode(b)
  }

  /** A word of the code; words past the buffer read as zero. */
  function At(code: seq<int>, ip: nat): int {
    if ip < |code| then code[ip] else 0
  }

  function ParseExpr(code: seq<int>, ip: nat): (r: Option<(Expr, nat)>)
    ensures r.Some? ==> ip + 3 <= r.value.1
    decreases |code| - ip, 1
  {
    if ip >= |code| then None
    else if code[ip] == OPERAND then Some((Leaf(Operand(At(code, ip + 1), Wrap(At(code, ip + 2)))), ip + 3))
    else if code[ip] == ARITH_OP then
      var both := ParseOperands(code, ip + 2);
      if both.None? then None
      else Some((Arith(At(code, ip + 1), both.value.0, both.value.1), both.value.2))
    else None
  }

  function ParseOperands(code: seq<int>, ip: nat): (r: Option<(Expr, Expr, nat)>)
    ensures r.Some? ==> ip + 6 <= r.value.2
    decreases |code| - ip, 2
  {
    var x := ParseExpr(code, ip);
    if x.None? then None else
    var y := ParseExpr(code, x.value.1);
    if y.None? then None else Some((x.value.0, y.value.0, y.value.1))
  }

  function ParseLogic(code: seq<int>, ip: nat): (r: Option<(Logic, nat)>)
    ensures r.Some? ==> ip + 4 <= r.value.1
    decreases |code| - ip, 3
  {
    if ip >= |code| || code[ip] != CMP_OP then None else ParseBody(code, ip + 2, At(code, ip + 1))
  }

  /** The arguments of a relational or logical operator. */
  function ParseBody(code: seq<int>, ip: nat, op: int): (r: Option<(Logic, nat)>)
    ensures r.Some? ==> ip + 2 <= r.value.1
    decreases |code| - ip, 4
  {
    if op == LVM_NOT then
      var a := ParseLogic(code, ip);
      if a.None? then None else Some((Not(a.value.0), a.value.1))
    else if IsConnective(op) then
      var a := ParseLogic(code, ip);
      if a.None? then None else
      var b := ParseLogic(code, a.value.1);
      if b.None? then None else Some((Connect(op, a.value.0, b.value.0), b.value.1))
    else
      var both := ParseOperands(code, ip);
      if both.None? then None else Some((Compare(op, both.value.0, both.value.1), both.value.2))
  }

  /** Trees whose operators are what their node says. */
  predicate Encodable(t: Logic) {
    match t
    case Compare(op, l, r) => !IsConnective(op)
    case Not(a) => Encodable(a)
    case Connect(op, a, b) => IsConnective(op) && op != LVM_NOT && Encodable(a) && Encodable(b)
  }

  predicate Contains(code: seq<int>, ip: nat, part: seq<int>) {
    ip + |part| <= |code| && code[ip..ip + |part|] == part
  }

  lemma ContainsParts(code: seq<int>, ip: nat, a: seq<int>, b: seq<int>)
    requires Contains(code, ip, a + b)
    ensures Contains(code, ip, a) && Contains(code, ip + |a|, b)
  {
    assert code[ip..ip + |a|] == (a + b)[..|a|];
    assert code[ip + |a|..ip + |a| + |b|] == (a + b)[|a|..];
  }

  /** An operator node with two operands, taken apart. */
  lemma BinaryParts(code: seq<int>, ip: nat, kind: int, op: int, a: seq<int>, b: seq<int>)
    requires Contains(code, ip, [kind, op] + a + b)
    ensures ip + 2 <= |code| && At(code, ip) == kind && At(code, ip + 1) == op
    ensures Contains(code, ip + 2, a) && Contains(code, ip + 2 + |a|, b)
  {
    assert [kind, op] + a + b == [kind, op] + (a + b);
    ContainsParts(code, ip, [kind, op], a + b);
    ContainsParts(code, ip + 2, a, b);
    assert code[ip..ip + 2] == [kind, op];
    assert code[ip] == code[ip..ip + 2][0] && code[ip + 1] == code[ip..ip + 2][1];
  }

  lemma ParseLeaf(o: Operand, code: seq<int>, ip: nat)
    requires Contains(code, ip, [OPERAND, o.kind, o.value])
    ensures ParseExpr(code, ip) == Some((Leaf(o), ip + 3))
  {
    assert code[ip..ip + 3] == [OPERAND, o.kind, o.value];
    assert code[ip] == code[ip..ip + 3][0] && code[ip + 1] == code[ip..ip + 3][1] && code[ip + 2] == code[ip..ip + 3][2];
  }

  lemma ParseArithNode(code: seq<int>, ip: nat, op: int, l: Expr, mid: nat, r: Expr, next: nat)
    requires ip + 2 <= |code| && At(code, ip) == ARITH_OP && At(code, ip + 1) == op
    requires ParseExpr(code, ip + 2) == Some((l, mid)) && ParseExpr(code, mid) == Some((r, next))
    ensures ParseExpr(code, ip) == Some((Arith(op, l, r), next))
  {
    assert ParseOperands(code, ip + 2) == Some((l, r, next));
  }

  lemma {:induction false} ParseExprEncoded(e: Expr, code: seq<int>, ip: nat)
    requires Contains(code, ip, EncodeExpr(e))
    ensures ParseExpr(code, ip) == Some((e, ip + |EncodeExpr(e)|))
  {
    hide Contains, ParseExpr, At;
    match e
    case Leaf(o) =>
      ParseLeaf(o, code, ip);
    case Arith(op, l, r) =>
      var mid := ip + 2 + |EncodeExpr(l)|;
      BinaryParts(code, ip, ARITH_OP, op, EncodeExpr(l), EncodeExpr(r));
      ParseExprEncoded(l, code, ip + 2);
      ParseExprEncoded(r, code, mid);
      ParseArithNode(code, ip, op, l, mid, r, mid + |EncodeExpr(r)|);
  }

  /** Reading an operator node whose arguments have been read. */
  lemma ParseCompareNode(code: seq<int>, ip: nat, op: int, l: Expr, mid: nat, r: Expr, next: nat)
    requires ip + 2 <= |code| && At(code, ip) == CMP_OP && At(code, ip + 1) == op && !IsConnective(op)
    requires ParseExpr(code, ip + 2) == Some((l, mid)) && ParseExpr(code, mid) == Some((r, next))
    ensures ParseLogic(code, ip) == Some((Compare(op, l, r), next))
  {
    hide ParseExpr;
    assert ParseOperands(code, ip + 2) == Some((l, r, next));
  }

  lemma ParseNotNode(code: seq<int>, ip: nat, a: Logic, next: nat)
    requires ip + 2 <= |code| && At(code, ip) == CMP_OP && At(code, ip + 1) == LVM_NOT
    requires ParseLogic(code, ip + 2) == Some((a, next))
    ensures ParseLogic(code, ip) == Some((Not(a), next))
  {
    hide ParseOperands;
  }

  lemma ParseConnectNode(code: seq<int>, ip: nat, op: int, a: Logic, mid: nat, b: Logic, next: nat)
    requires ip + 2 <= |code| && At(code, ip) == CMP_OP && At(code, ip + 1) == op && IsConnective(op) && op != LVM_NOT
    requires ParseLogic(code, ip + 2) == Some((a, mid)) && ParseLogic(code, mid) == Some((b, next))
    ensures ParseLogic(code, ip) == Some((Connect(op, a, b), next))
  {
    hide ParseOperands;
  }

  /** Reading the prefix code of a predicate gives the predicate back and ends where it ends. */
  lemma {:induction false} ParseEncoded(t: Logic, code: seq<int>, ip: nat)
    requires Encodable(t) && Contains(code, ip, Encode(t))
    ensures ParseLogic(code, ip) == Some((t, ip + |Encode(t)|))
  {
    hide Contains, EncodeExpr, ParseExpr, ParseLogic, At;
    match t
    case Compare(op, l, r) =>
      var mid := ip + 2 + |EncodeExpr(l)|;
      BinaryParts(code, ip, CMP_OP, op, EncodeExpr(l), EncodeExpr(r));
      ParseExprEncoded(l, code, ip + 2);
      ParseExprEncoded(r, code, mid);
      ParseCompareNode(code, ip, op, l, mid, r, mid + |EncodeExpr(r)|);
    case Not(a) =>
      assert [CMP_OP, LVM_NOT] + Encode(a) + [] == Encode(t);
      BinaryParts(code, ip, CMP_OP, LVM_NOT, Encode(a), []);
      ParseEncoded(a, code, ip + 2);
      ParseNotNode(code, ip, a, ip + 2 + |Encode(a)|);
    case Connect(op, a, b) =>
      var mid := ip + 2 + |Encode(a)|;
      BinaryParts(code, ip, CMP_OP, op, Encode(a), Encode(b));
      ParseEncoded(a, code, ip + 2);
      ParseEncoded(b, code, mid);
      ParseConnectNode(code, ip, op, a, mid, b, mid + |Encode(b)|);
  }
}
