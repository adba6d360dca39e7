/** What a WHERE clause says: its meaning in terms of its tokens and of numbers, without the operators of
    the logic engine. */
module AqlSense {
  import opened Basics
  import opened LvmSpec
  import opened LvmMachine
  import opened AqlSyntax

  /** The numbers that the names stand for. */
  type Valuation = string -> long

  // ----- Numbers of 32 bits -----

  /** The signed number that has the same low 32 bits. */
  function Low32(v: int): long {
    var low := v % 0x1_0000_0000;
    if low < 0x8000_0000 then low else low - 0x1_0000_0000
  }

  function Size(v: int): nat {
    if v < 0 then -v else v
  }

  /** Division that drops the fraction. */
  function TowardsZero(a: int, b: int): int
    requires b != 0
  {
    if (a < 0) == (b < 0) then Size(a) / Size(b) else -(Size(a) / Size(b))
  }

  function Combined(op: Token, a: long, b: long): Option<long> {
    match op
    case Add => Some(Low32(a + b))
    case Sub => Some(Low32(a - b))
    case Mul => Some(Low32(a * b))
    case Div => if b == 0 then None else Some(Low32(TowardsZero(a, b)))
    case _ => None
  }

  // ----- Sides, comparisons and clauses -----

  function ValueOfTerm(t: Term, env: Valuation): long {
    match TermToken(t)
    case Identifier(name) => env(name)
    case Integer(value) => value
    case _ => 0
  }

  /** Operators group to the left; there is no value after a division by zero. */
  function ValueUpTo(s: Side, n: nat, env: Valuation): Option<long>
    requires n <= |s.steps|
    decreases s, n
  {
    if n == 0 then Some(ValueOfTerm(s.first, env))
    else
      var a, b := ValueUpTo(s, n - 1, env), ValueOfArg(s.steps[n - 1].arg, env);
      if a.None? || b.None? then None else Combined(s.steps[n - 1].op, a.value, b.value)
  }

  function ValueOfArg(a: Arg, env: Valuation): Option<long>
    decreases a, 0
  {
    match a
    case Single(t) => Some(ValueOfTerm(t, env))
    case Group(s) => ValueOf(s, env)
  }

  function ValueOf(s: Side, env: Valuation): Option<long>
    decreases s, |s.steps| + 1
  {
    ValueUpTo(s, |s.steps|, env)
  }

  predicate InRelation(rel: Token, a: long, b: long) {
    match rel
    case Greater => a > b
    case GreaterEqual => a >= b
    case Less => a < b
    case LessEqual => a <= b
    case Equal => a == b
    case NotEqual => a != b
    case _ => false
  }

  /** No division by zero. */
  predicate Defined(c: Clause, env: Valuation) {
    ValueOf(c.c.l, env).Some? && ValueOf(c.c.r, env).Some? && (c.More? ==> Defined(c.rest, env))
  }

  /** What follows a connective belongs to its right side. */
  predicate Satisfied(c: Clause, env: Valuation)
    requires Defined(c, env)
  {
    var first := InRelation(c.c.rel, ValueOf(c.c.l, env).value, ValueOf(c.c.r, env).value);
    match c
    case Last(_) => first
    case More(_, conj, rest) =>
      if LinkToken(conj) == And then first && Satisfied(rest, env)
      else LinkToken(conj) == Or && (first || Satisfied(rest, env))
  }

  predicate ClauseHolds(c: Clause, env: Valuation) {
    Defined(c, env) && Satisfied(c, env)
  }

  /** The status that executing the clause should give: 1 for true, 0 for false, and 4 for an error. */
  function Verdict(c: Clause, env: Valuation): int {
    if !Defined(c, env) then 4 else if Satisfied(c, env) then 1 else 0
  }

  // ----- Clauses as trees -----

  /** The first n steps of a side as they are meant: operators group to the left. */
  function MeantUpTo(names: NameTable, s: Side, n: nat): Expr
    requires n <= |s.steps|
    decreases s, n
  {
    if n == 0 then TermExpr(names, s.first)
    else Arith(ArithmeticOp(s.steps[n - 1].op), MeantUpTo(names, s, n - 1), MeantArg(names, s.steps[n - 1].arg))
  }

  function MeantArg(names: NameTable, a: Arg): Expr
    decreases a, 0
  {
    match a
    case Single(t) => TermExpr(names, t)
    case Group(s) => MeantSide(names, s)
  }

  function MeantSide(names: NameTable, s: Side): Expr
    decreases s, |s.steps| + 1
  {
    MeantUpTo(names, s, |s.steps|)
  }

  function MeantTree(names: NameTable, c: Clause): Logic {
    var first := Compare(RelationOp(c.c.rel), MeantSide(names, c.c.l), MeantSide(names, c.c.r));
    match c
    case Last(_) => first
    case More(_, conj, rest) => Connect(Connective(conj), first, MeantTree(names, rest))
  }

  /** One operator at most a side or pair of parentheses. */
  predicate Unchained(c: Clause) {
    Whole(c.c.l) && Whole(c.c.r) && (c.More? ==> Unchained(c.rest))
  }

  lemma {:induction false} WholeTail(names: NameTable, s: Side)
    ensures Tail(names, s) == [] <==> Whole(s)
  {
    var n := |s.steps|;
    if n == 1 {
      assert Tail(names, s) == TailUpTo(names, s, 1) == ArgTail(names, s.steps[0].arg);
      if s.steps[0].arg.Group? {
        WholeTail(names, s.steps[0].arg.side);
      }
    } else if n > 1 {
      var x := s.steps[n - 1];
      assert Tail(names, s) == TailUpTo(names, s, n - 1) + [Piece(ArithmeticOp(x.op), ArgHead(names, x.arg))] + ArgTail(names, x.arg);
    }
  }

  lemma {:induction false} HeadIsMeant(names: NameTable, s: Side)
    ensures Head(names, s) == MeantSide(names, s) <==> Whole(s)
  {
    if |s.steps| == 1 {
      var x := s.steps[0];
      assert MeantSide(names, s) == MeantUpTo(names, s, 1)
          == Arith(ArithmeticOp(x.op), MeantUpTo(names, s, 0), MeantArg(names, x.arg));
      assert MeantUpTo(names, s, 0) == TermExpr(names, s.first);
      if s.steps[0].arg.Group? {
        HeadIsMeant(names, s.steps[0].arg.side);
      }
    } else if |s.steps| > 1 {
      var init, x := MeantUpTo(names, s, |s.steps| - 1), s.steps[|s.steps| - 1];
      assert init.Arith? && MeantSide(names, s) == Arith(ArithmeticOp(x.op), init, MeantArg(names, x.arg));
    }
  }

  /** A clause is read as it is meant exactly if no side has more than one operator: `a + b + c = d` is
      read as `a + b = c + d`, and `d = a + b + c` as `d = a + b`. */
  lemma {:induction false} ChainsAreMisread(names: NameTable, c: Clause)
    ensures Tree(names, c) == MeantTree(names, c) <==> Unchained(c)
    decreases c
  {
    hide Head, TermExpr, MeantSide, Tail, Whole;
    HeadIsMeant(names, c.c.l);
    HeadIsMeant(names, c.c.r);
    WholeTail(names, c.c.l);
    if c.More? {
      ChainsAreMisread(names, c.rest);
    }
  }

  // ----- Evaluation is the meaning -----

  /** What the names stand for in the variable table. */
  function Variables(names: NameTable, vars: Values): Valuation {
    name => if IdOf(names, name) < MAX_VARIABLE_ID then vars[IdOf(names, name)] else 0
  }

  lemma WrapIsLow32(v: int)
    ensures Wrap(v) == Low32(v)
  {
    var low := v % 0x1_0000_0000;
    var q := v / 0x1_0000_0000;
    assert v == 0x1_0000_0000 * q + low;
    if low < 0x8000_0000 {
      assert (v + 0x8000_0000) / 0x1_0000_0000 == q;
    } else {
      assert (v + 0x8000_0000) / 0x1_0000_0000 == q + 1;
    }
  }

  lemma QuotientIsTowardsZero(a: int, b: int)
    requires b != 0
    ensures Quotient(a, b) == TowardsZero(a, b)
  {
    if a == 0 {
      assert 0 / Size(b) == 0;
    }
  }

  function AsOption(o: Outcome): Option<long> {
    if o.Value? then Some(o.v) else None
  }

  /** The only error of the engine in an expression is that of a division by zero. */
  predicate OnlyMath(o: Outcome) {
    o.Fault? ==> o.status == MATH_ERROR
  }

  lemma ApplyIsCombined(op: Token, a: long, b: long)
    requires ArithmeticOp(op) != 0
    ensures AsOption(Apply(ArithmeticOp(op), a, b)) == Combined(op, a, b) && OnlyMath(Apply(ArithmeticOp(op), a, b))
  {
    hide Wrap, Low32, Quotient, TowardsZero;
    WrapIsLow32(a + b);
    WrapIsLow32(a - b);
    WrapIsLow32(a * b);
    if b != 0 {
      QuotientIsTowardsZero(a, b);
      WrapIsLow32(Quotient(a, b));
    }
  }

  lemma TermValue(names: NameTable, t: Term, vars: Values)
    ensures EvalExpr(TermExpr(names, t), vars) == Value(ValueOfTerm(t, Variables(names, vars)))
  {
  }

  lemma {:induction false} UpToValue(names: NameTable, s: Side, n: nat, vars: Values)
    requires ProperSide(s) && n <= |s.steps|
    ensures var o := EvalExpr(MeantUpTo(names, s, n), vars);
            AsOption(o) == ValueUpTo(s, n, Variables(names, vars)) && OnlyMath(o)
    decreases s, n
  {
    hide Apply, Combined, TermExpr, ValueOfTerm, ArithmeticOp;
    if n == 0 {
      TermValue(names, s.first, vars);
    } else {
      var x, env := s.steps[n - 1], Variables(names, vars);
      UpToValue(names, s, n - 1, vars);
      ArgValue(names, x.arg, vars);
      var a, b := EvalExpr(MeantUpTo(names, s, n - 1), vars), EvalExpr(MeantArg(names, x.arg), vars);
      if a.Value? && b.Value? {
        ApplyIsCombined(x.op, a.v, b.v);
      }
    }
  }

  lemma {:induction false} ArgValue(names: NameTable, a: Arg, vars: Values)
    requires a.Group? ==> ProperSide(a.side)
    ensures var o := EvalExpr(MeantArg(names, a), vars);
            AsOption(o) == ValueOfArg(a, Variables(names, vars)) && OnlyMath(o)
    decreases a, 0
  {
    match a
    case Single(t) => TermValue(names, t, vars);
    case Group(s) => UpToValue(names, s, |s.steps|, vars);
  }

  lemma ComparisonIsRelation(rel: Token, a: long, b: long)
    requires RelationOp(rel) != 0
    ensures ApplyComparison(RelationOp(rel), a, b) == if InRelation(rel, a, b) then TRUE else FALSE
  {
  }

  /** Evaluating a clause as it is meant gives what its tokens say, for all clauses and all values. */
  lemma {:induction false} MeantIsVerdict(names: NameTable, c: Clause, vars: Values)
    requires Proper(c)
    ensures EvalLogic(MeantTree(names, c), vars) == Verdict(c, Variables(names, vars))
    decreases c
  {
    hide ApplyComparison, RelationOp, MeantSide, ValueOf, InRelation, ProperSide;
    var x, env := c.c, Variables(names, vars);
    SideValue(names, x.l, vars);
    SideValue(names, x.r, vars);
    var a, b := EvalExpr(MeantSide(names, x.l), vars), EvalExpr(MeantSide(names, x.r), vars);
    if a.Value? && b.Value? {
      ComparisonIsRelation(x.rel, a.v, b.v);
    }
    if c.More? {
      MeantIsVerdict(names, c.rest, vars);
    }
  }

  lemma SideValue(names: NameTable, s: Side, vars: Values)
    requires ProperSide(s)
    ensures var o := EvalExpr(MeantSide(names, s), vars); AsOption(o) == ValueOf(s, Variables(names, vars)) && OnlyMath(o)
  {
    hide ProperSide;
    UpToValue(names, s, |s.steps|, vars);
  }

  /** The predicate that a clause is compiled into says what the tokens of the clause say, if no side and
      no pair of parentheses has more than one operator. */
  lemma ReadIsVerdict(names: NameTable, c: Clause, vars: Values)
    requires Proper(c) && Unchained(c)
    ensures EvalLogic(Tree(names, c), vars) == Verdict(c, Variables(names, vars))
  {
    hide MeantTree, Tree, Verdict, Unchained, EvalLogic;
    ChainsAreMisread(names, c);
    MeantIsVerdict(names, c, vars);
  }
}
