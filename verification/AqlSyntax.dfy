/** The WHERE clauses of AQL as tokens and as values, and the predicates they are compiled into
    (apps/antelope/aql-parser.c). */
module AqlSyntax {
  import opened Basics
  import opened LvmSpec
  import opened LvmMachine

  datatype Token =
    | Identifier(name: string) | Integer(value: long) | StringValue | FloatValue
    | Add | Sub | Mul | Div
    | Equal | NotEqual | Greater | GreaterEqual | Less | LessEqual
    | And | Or | LeftParen | RightParen | NoToken

  /** The number of words a token may add to the code. A clause in parentheses may end with the room
      for an operator that never comes. */
  function Weight(t: Token): nat {
    if t.Identifier? || t.Integer? then 3
    else if t == LeftParen then 2
    else if ArithmeticOp(t) != 0 || RelationOp(t) != 0 || t == And || t == Or then 2
    else 0
  }

  function Budget(tokens: seq<Token>, pos: nat): nat
    requires pos <= |tokens|
    decreases |tokens| - pos
  {
    if pos == |tokens| then 0 else Weight(tokens[pos]) + Budget(tokens, pos + 1)
  }

  lemma {:induction false} BudgetFalls(tokens: seq<Token>, from: nat, to: nat)
    requires from <= to <= |tokens|
    ensures Budget(tokens, to) <= Budget(tokens, from)
    decreases |tokens| - from
  {
    if from < to {
      BudgetFalls(tokens, from + 1, to);
    }
  }

  function ArithmeticOp(t: Token): int {
    match t
    case Add => LVM_ADD
    case Sub => LVM_SUB
    case Mul => LVM_MUL
    case Div => LVM_DIV
    case _ => 0
  }

  function RelationOp(t: Token): int {
    match t
    case Greater => LVM_GE
    case GreaterEqual => LVM_GEQ
    case Less => LVM_LE
    case LessEqual => LVM_LEQ
    case Equal => LVM_EQ
    case NotEqual => LVM_NEQ
    case _ => 0
  }

  lemma OperatorWeights()
    ensures ArithmeticOp(NoToken) == 0 && ArithmeticOp(RightParen) == 0
    ensures forall t :: ArithmeticOp(t) != 0 ==> Weight(t) == 2
  {
  }

  lemma RelationWeights()
    ensures RelationOp(NoToken) == 0 && (forall t :: RelationOp(t) != 0 ==> ArithmeticOp(t) == 0 && t != RightParen)
    ensures forall t :: RelationOp(t) != 0 ==> Weight(t) == 2
  {
  }

  // ----- WHERE clauses -----

  /** A side of a comparison: a term, and any number of operators with one argument each. An argument is a
      term or a side in parentheses. */
  datatype Term = Name(name: string) | Number(value: long)
  datatype Arg = Single(term: Term) | Group(side: Side)
  datatype Step = Step(op: Token, arg: Arg)
  datatype Side = Side(first: Term, steps: seq<Step>)
  datatype Comparison = Comparison(l: Side, rel: Token, r: Side)
  datatype Clause = Last(c: Comparison) | More(c: Comparison, conj: bool, rest: Clause)

  predicate ProperSide(s: Side) {
    forall i | 0 <= i < |s.steps| ::
      ArithmeticOp(s.steps[i].op) != 0 && (s.steps[i].arg.Group? ==> ProperSide(s.steps[i].arg.side))
  }

  predicate ProperComparison(c: Comparison) {
    ProperSide(c.l) && ProperSide(c.r) && RelationOp(c.rel) != 0
  }

  predicate Proper(c: Clause) {
    ProperComparison(c.c) && (c.More? ==> Proper(c.rest))
  }

  function TermToken(t: Term): Token {
    match t
    case Name(n) => Identifier(n)
    case Number(v) => Integer(v)
  }

  function ArgTokens(a: Arg): (ts: seq<Token>)
    ensures |ts| > 0
    decreases a, 0
  {
    match a
    case Single(t) => [TermToken(t)]
    case Group(s) => [LeftParen] + SideTokens(s) + [RightParen]
  }

  /** The tokens of the first term and the first n steps. */
  function UpTo(s: Side, n: nat): (ts: seq<Token>)
    requires n <= |s.steps|
    ensures |ts| > 0
    decreases s, n
  {
    if n == 0 then [TermToken(s.first)]
    else UpTo(s, n - 1) + [s.steps[n - 1].op] + ArgTokens(s.steps[n - 1].arg)
  }

  function SideTokens(s: Side): (ts: seq<Token>)
    ensures |ts| > 0
    decreases s, |s.steps| + 1
  {
    UpTo(s, |s.steps|)
  }

  function ComparisonTokens(c: Comparison): seq<Token> {
    SideTokens(c.l) + [c.rel] + SideTokens(c.r)
  }

  function Tokens(c: Clause): (ts: seq<Token>)
    ensures ts != []
  {
    match c
    case Last(x) => ComparisonTokens(x)
    case More(x, conj, rest) => ComparisonTokens(x) + [LinkToken(conj)] + Tokens(rest)
  }

  function Peek(tokens: seq<Token>, k: nat): Token {
    if k < |tokens| then tokens[k] else NoToken
  }

  /** A token at which parse_expr stops without consuming it. */
  predicate EndsExpr(t: Token) {
    ArithmeticOp(t) == 0 && t != RightParen
  }

  predicate IsLink(t: Token) {
    t == And || t == Or
  }

  predicate EndsClause(t: Token) {
    EndsExpr(t) && !IsLink(t)
  }

  predicate IsOperand(t: Token) {
    t.Identifier? || t.Integer? || t == StringValue || t == FloatValue
  }

  /** The tokens from position k on read as the given side, comparison or clause. The last side is
      followed by anything but an operator; parse_expr consumes it if it is a closing parenthesis. */
  predicate SideAt(tokens: seq<Token>, k: nat, s: Side) {
    SideBegins(tokens, k, s) && ArithmeticOp(Peek(tokens, k + |SideTokens(s)|)) == 0
  }

  predicate SideBegins(tokens: seq<Token>, k: nat, s: Side)
    decreases s
  {
    && Peek(tokens, k) == TermToken(s.first)
    && (forall i | 0 <= i < |s.steps| :: StepAt(tokens, k + |UpTo(s, i)|, s.steps[i]))
  }

  predicate StepAt(tokens: seq<Token>, k: nat, x: Step)
    decreases x
  {
    Peek(tokens, k) == x.op && ArithmeticOp(x.op) != 0 && ArgAt(tokens, k + 1, x.arg)
  }

  predicate ArgAt(tokens: seq<Token>, k: nat, a: Arg)
    decreases a
  {
    match a
    case Single(t) => Peek(tokens, k) == TermToken(t)
    case Group(s) =>
      && Peek(tokens, k) == LeftParen && SideBegins(tokens, k + 1, s)
      && Peek(tokens, k + 1 + |SideTokens(s)|) == RightParen
  }

  predicate ComparisonAt(tokens: seq<Token>, k: nat, c: Comparison) {
    && SideAt(tokens, k, c.l)
    && Peek(tokens, k + |SideTokens(c.l)|) == c.rel && RelationOp(c.rel) != 0
    && SideAt(tokens, k + |SideTokens(c.l)| + 1, c.r)
  }

  predicate ClauseAt(tokens: seq<Token>, k: nat, c: Clause)
    decreases c
  {
    && ComparisonAt(tokens, k, c.c)
    && var next := k + |ComparisonTokens(c.c)|;
       c.More? ==> Peek(tokens, next) == LinkToken(c.conj) && ClauseAt(tokens, next + 1, c.rest)
  }

  function LinkToken(conj: bool): Token {
    if conj then And else Or
  }

  // ----- Comparisons that fail -----

  /** A comparison, or how far one gets: nothing starts it, its left side breaks off behind an operator,
      no relation follows, nothing follows the relation, or its right side breaks off. */
  datatype Attempt =
    | Done(c: Comparison)
    | NoLeft
    | HalfLeft(l: Side)
    | NoRelation(l: Side)
    | NoRight(l: Side, rel: Token)
    | HalfRight(l: Side, rel: Token, r: Side)

  /** No expression starts here. */
  predicate NothingAt(tokens: seq<Token>, k: nat) {
    !IsOperand(Peek(tokens, k)) && Peek(tokens, k) != LeftParen
  }

  /** The side is followed by an operator with nothing behind it. */
  predicate BreaksAt(tokens: seq<Token>, k: nat, s: Side) {
    var end := k + |SideTokens(s)|;
    && SideBegins(tokens, k, s) && ArithmeticOp(Peek(tokens, end)) != 0
    && !IsOperand(Peek(tokens, end + 1)) && NothingAt(tokens, end + 2)
  }

  predicate AttemptAt(tokens: seq<Token>, k: nat, a: Attempt) {
    match a
    case Done(c) => ComparisonAt(tokens, k, c)
    case NoLeft => NothingAt(tokens, k)
    case HalfLeft(l) => BreaksAt(tokens, k, l)
    case NoRelation(l) =>
      var t := Peek(tokens, k + |SideTokens(l)|);
      SideAt(tokens, k, l) && RelationOp(t) == 0 && t != RightParen
    case NoRight(l, rel) =>
      var end := k + |SideTokens(l)|;
      SideAt(tokens, k, l) && Peek(tokens, end) == rel && RelationOp(rel) != 0 && NothingAt(tokens, end + 1)
    case HalfRight(l, rel, r) =>
      var end := k + |SideTokens(l)|;
      SideAt(tokens, k, l) && Peek(tokens, end) == rel && RelationOp(rel) != 0 && BreaksAt(tokens, end + 1, r)
  }

  lemma {:induction false} TokensAt(before: seq<Token>, c: Clause, after: seq<Token>)
    requires Proper(c) && ArithmeticOp(Peek(after, 0)) == 0
    ensures ClauseAt(before + Tokens(c) + after, |before|, c)
    decreases c
  {
    hide ComparisonAt, ComparisonTokens;
    match c
    case Last(x) =>
      ComparisonTokensAt(before, x, after);
    case More(x, conj, rest) =>
      var link, xs := [LinkToken(conj)], ComparisonTokens(x);
      ComparisonTokensAt(before, x, link + Tokens(rest) + after);
      TokensAt(before + xs + link, rest, after);
      Regroup(before, xs, link, Tokens(rest), after);
  }

  lemma Regroup(a: seq<Token>, b: seq<Token>, c: seq<Token>, d: seq<Token>, e: seq<Token>)
    ensures a + b + (c + d + e) == a + (b + c + d) + e
    ensures (a + b + c) + d + e == a + (b + c + d) + e
  {
  }

  lemma ComparisonTokensAt(before: seq<Token>, c: Comparison, after: seq<Token>)
    requires ProperComparison(c) && ArithmeticOp(Peek(after, 0)) == 0
    ensures ComparisonAt(before + ComparisonTokens(c) + after, |before|, c)
    ensures Peek(before + ComparisonTokens(c) + after, |before| + |ComparisonTokens(c)|) == Peek(after, 0)
  {
    hide SideBegins, SideTokens, ArithmeticOp, RelationOp, ProperSide;
    RelationWeights();
    var ts := before + ComparisonTokens(c) + after;
    Sides(before, SideTokens(c.l), c.rel, SideTokens(c.r), after);
    SideTokensAt(ts, before, c.l, [c.rel] + SideTokens(c.r) + after);
    SideTokensAt(ts, before + SideTokens(c.l) + [c.rel], c.r, after);
  }

  lemma Sides(before: seq<Token>, l: seq<Token>, rel: Token, r: seq<Token>, after: seq<Token>)
    ensures before + (l + [rel] + r) + after == before + l + ([rel] + r + after) == before + l + [rel] + r + after
    ensures Peek([rel] + r + after, 0) == rel
  {
  }

  lemma {:induction false} SideTokensAt(ts: seq<Token>, before: seq<Token>, s: Side, after: seq<Token>)
    requires ProperSide(s) && ts == before + SideTokens(s) + after
    ensures SideBegins(ts, |before|, s) && Peek(ts, |before| + |SideTokens(s)|) == Peek(after, 0)
    decreases s, |s.steps| + 1
  {
    hide ArithmeticOp, TermToken, StepAt, UpTo;
    UpToAt(ts, before, s, |s.steps|, after);
  }

  lemma {:induction false} UpToAt(ts: seq<Token>, before: seq<Token>, s: Side, n: nat, after: seq<Token>)
    requires ProperSide(s) && n <= |s.steps| && ts == before + UpTo(s, n) + after
    ensures Peek(ts, |before|) == TermToken(s.first)
    ensures forall i | 0 <= i < n :: StepAt(ts, |before| + |UpTo(s, i)|, s.steps[i])
    decreases s, n
  {
    hide ArithmeticOp, TermToken, ArgTokens, StepAt, UpTo;
    UpToStep(s, n);
    if n > 0 {
      var x := s.steps[n - 1];
      var step := [x.op] + ArgTokens(x.arg);
      Shift(before, UpTo(s, n - 1), step, after);
      UpToAt(ts, before, s, n - 1, step + after);
      StepTokensAt(ts, before + UpTo(s, n - 1), x, after);
    }
  }

  lemma UpToStep(s: Side, n: nat)
    requires n <= |s.steps|
    ensures UpTo(s, n) == if n == 0 then [TermToken(s.first)]
                          else UpTo(s, n - 1) + ([s.steps[n - 1].op] + ArgTokens(s.steps[n - 1].arg))
  {
    hide ArgTokens;
  }

  lemma Shift(a: seq<Token>, b: seq<Token>, c: seq<Token>, d: seq<Token>)
    ensures a + (b + c) + d == a + b + (c + d) == a + b + c + d
  {
  }

  lemma {:induction false} StepTokensAt(ts: seq<Token>, before: seq<Token>, x: Step, after: seq<Token>)
    requires ArithmeticOp(x.op) != 0 && (x.arg.Group? ==> ProperSide(x.arg.side))
    requires ts == before + ([x.op] + ArgTokens(x.arg)) + after
    ensures StepAt(ts, |before|, x)
    decreases x
  {
    hide ArithmeticOp, SideTokens, SideBegins;
    if x.arg.Group? {
      var s := x.arg.side;
      Inside(before, x.op, SideTokens(s), after);
      SideTokensAt(ts, before + [x.op, LeftParen], s, [RightParen] + after);
    }
  }

  lemma Inside(before: seq<Token>, op: Token, side: seq<Token>, after: seq<Token>)
    ensures before + ([op] + ([LeftParen] + side + [RightParen])) + after == before + [op, LeftParen] + side + ([RightParen] + after)
  {
  }

  // ----- The code -----

  function TermOperand(names: seq<string>, t: Term): Operand
    requires t.Name? ==> IdOf(names, t.name) <= MAX_VARIABLE_ID
  {
    match t
    case Name(n) => Operand(LVM_VARIABLE, IdOf(names, n))
    case Number(v) => Operand(LVM_LONG, v)
  }

  type NameTable = names: seq<string> | |names| <= MAX_VARIABLE_ID

  function TermExpr(names: NameTable, t: Term): Expr {
    Leaf(TermOperand(names, t))
  }

  function ArgCode(names: NameTable, a: Arg): (code: seq<int>)
    ensures |code| >= 3
    decreases a, 0
  {
    match a
    case Single(t) => EncodeExpr(TermExpr(names, t))
    case Group(s) => SideCode(names, s)
  }

  /** The code of the first term and the first n steps. The first operator is put before the first term,
      and each one after it before its own argument. */
  function CodeUpTo(names: NameTable, s: Side, n: nat): (code: seq<int>)
    requires n <= |s.steps|
    ensures |code| >= 3
    decreases s, n
  {
    if n == 0 then EncodeExpr(TermExpr(names, s.first))
    else
      var op, arg := [ARITH_OP, ArithmeticOp(s.steps[n - 1].op)], ArgCode(names, s.steps[n - 1].arg);
      if n == 1 then op + CodeUpTo(names, s, 0) + arg else CodeUpTo(names, s, n - 1) + op + arg
  }

  function SideCode(names: NameTable, s: Side): (code: seq<int>)
    ensures |code| >= 3
    decreases s, |s.steps| + 1
  {
    CodeUpTo(names, s, |s.steps|)
  }

  function ComparisonCode(names: NameTable, c: Comparison): (code: seq<int>)
    ensures |code| > 0
  {
    [CMP_OP, RelationOp(c.rel)] + SideCode(names, c.l) + SideCode(names, c.r)
  }

  function Connective(conj: bool): int {
    if conj then LVM_AND else LVM_OR
  }

  /** The code that a clause is compiled into. */
  function ClauseCode(names: NameTable, c: Clause): seq<int> {
    match c
    case Last(x) => ComparisonCode(names, x)
    case More(x, conj, rest) => [CMP_OP, Connective(conj)] + ComparisonCode(names, x) + ClauseCode(names, rest)
  }

  /** The code of a clause with a connective before each comparison, the given one before the last. */
  function ChainCode(names: NameTable, c: Clause, conj: bool): seq<int> {
    match c
    case Last(x) => [CMP_OP, Connective(conj)] + ComparisonCode(names, x)
    case More(x, link, rest) => [CMP_OP, Connective(link)] + ComparisonCode(names, x) + ChainCode(names, rest, conj)
  }

  /** What an attempt leaves behind in the buffer. The room for the operator stays empty until the
      relation has been read. */
  function AttemptCode(names: NameTable, a: Attempt): seq<int> {
    match a
    case Done(c) => ComparisonCode(names, c)
    case NoRight(l, rel) => [CMP_OP, RelationOp(rel)] + SideCode(names, l)
    case HalfRight(l, rel, r) => ComparisonCode(names, Comparison(l, rel, r))
    case _ => []
  }

  /** The buffer starts with the given code, and a zero follows unless there is a right side. */
  predicate Leaves(code: seq<int>, before: seq<int>, names: NameTable, a: Attempt) {
    var all := before + AttemptCode(names, a);
    Contains(code, 0, all) && (!a.Done? && !a.HalfRight? ==> At(code, |all|) == 0)
  }

  // ----- What the logic engine reads in it -----

  /** The first operator of a side with its two arguments, or the only term. */
  function Head(names: NameTable, s: Side): Expr {
    if s.steps == [] then TermExpr(names, s.first)
    else Arith(ArithmeticOp(s.steps[0].op), TermExpr(names, s.first), ArgHead(names, s.steps[0].arg))
  }

  function ArgHead(names: NameTable, a: Arg): Expr {
    match a
    case Single(t) => TermExpr(names, t)
    case Group(s) => Head(names, s)
  }

  /** An operator with one argument: what is left over of a side when its head has been read. */
  datatype Piece = Piece(op: int, e: Expr)

  function ArgTail(names: NameTable, a: Arg): seq<Piece>
    decreases a, 0
  {
    match a
    case Single(_) => []
    case Group(s) => Tail(names, s)
  }

  function TailUpTo(names: NameTable, s: Side, n: nat): seq<Piece>
    requires n <= |s.steps|
    decreases s, n
  {
    if n == 0 then []
    else
      var x := s.steps[n - 1];
      if n == 1 then ArgTail(names, x.arg)
      else TailUpTo(names, s, n - 1) + [Piece(ArithmeticOp(x.op), ArgHead(names, x.arg))] + ArgTail(names, x.arg)
  }

  function Tail(names: NameTable, s: Side): seq<Piece>
    decreases s, |s.steps| + 1
  {
    TailUpTo(names, s, |s.steps|)
  }

  /** Nothing is left over: there is one operator at most, here and in the parentheses. */
  predicate Whole(s: Side) {
    |s.steps| <= 1 && (|s.steps| == 1 && s.steps[0].arg.Group? ==> Whole(s.steps[0].arg.side))
  }

  /** The pieces applied from the right to what comes after them. */
  function Nest(ps: seq<Piece>, last: Expr): Expr {
    if ps == [] then last else Arith(ps[0].op, ps[0].e, Nest(ps[1..], last))
  }

  function PiecesCode(ps: seq<Piece>): seq<int> {
    if ps == [] then [] else [ARITH_OP, ps[0].op] + EncodeExpr(ps[0].e) + PiecesCode(ps[1..])
  }

  /** The further operators of the left side are read as part of the right side, and those of the
      right side are not read at all. */
  function ComparisonTree(names: NameTable, c: Comparison): Logic {
    Compare(RelationOp(c.rel), Head(names, c.l), Nest(Tail(names, c.l), Head(names, c.r)))
  }

  /** AND and OR have the same precedence and group to the right. */
  function Tree(names: NameTable, c: Clause): Logic {
    match c
    case Last(x) => ComparisonTree(names, x)
    case More(x, conj, rest) => Connect(Connective(conj), ComparisonTree(names, x), Tree(names, rest))
  }

  lemma {:induction false} TreeEncodable(names: NameTable, c: Clause)
    requires Proper(c)
    ensures Encodable(Tree(names, c))
  {
    if c.More? {
      TreeEncodable(names, c.rest);
    }
  }

  // ----- Registration of names -----

  function RegisterTerm(names: seq<string>, t: Term): seq<string> {
    if t.Name? then Registered(names, t.name) else names
  }

  function RegisterArg(names: seq<string>, a: Arg): seq<string>
    decreases a, 0
  {
    match a
    case Single(t) => RegisterTerm(names, t)
    case Group(s) => RegisterSide(names, s)
  }

  function RegisterUpTo(names: seq<string>, s: Side, n: nat): seq<string>
    requires n <= |s.steps|
    decreases s, n
  {
    if n == 0 then RegisterTerm(names, s.first) else RegisterArg(RegisterUpTo(names, s, n - 1), s.steps[n - 1].arg)
  }

  function RegisterSide(names: seq<string>, s: Side): seq<string>
    decreases s, |s.steps| + 1
  {
    RegisterUpTo(names, s, |s.steps|)
  }

  function RegisterComparison(names: seq<string>, c: Comparison): seq<string> {
    RegisterSide(RegisterSide(names, c.l), c.r)
  }

  function RegisterAttempt(names: seq<string>, a: Attempt): seq<string> {
    match a
    case Done(c) => RegisterComparison(names, c)
    case NoLeft => names
    case HalfLeft(l) => RegisterSide(names, l)
    case NoRelation(l) => RegisterSide(names, l)
    case NoRight(l, _) => RegisterSide(names, l)
    case HalfRight(l, _, r) => RegisterSide(RegisterSide(names, l), r)
  }

  /** The variable table after a clause has been compiled. */
  function Register(names: seq<string>, c: Clause): seq<string>
    decreases c
  {
    match c
    case Last(x) => RegisterComparison(names, x)
    case More(x, _, rest) => Register(RegisterComparison(names, x), rest)
  }

  lemma RegisterTermGrows(names: seq<string>, t: Term)
    ensures names <= RegisterTerm(names, t)
  {
  }

  lemma {:induction false} RegisterArgGrows(names: seq<string>, a: Arg)
    ensures names <= RegisterArg(names, a)
    decreases a, 0
  {
    match a
    case Single(t) => RegisterTermGrows(names, t);
    case Group(s) => RegisterSideGrows(names, s);
  }

  lemma {:induction false} RegisterUpToGrows(names: seq<string>, s: Side, n: nat, m: nat)
    requires n <= m <= |s.steps|
    ensures names <= RegisterUpTo(names, s, n) <= RegisterUpTo(names, s, m)
    decreases s, m
  {
    hide RegisterArg, RegisterTerm;
    if m == 0 {
      RegisterTermGrows(names, s.first);
    } else {
      RegisterUpToGrows(names, s, if n < m then n else m - 1, m - 1);
      RegisterArgGrows(RegisterUpTo(names, s, m - 1), s.steps[m - 1].arg);
    }
  }

  lemma {:induction false} RegisterSideGrows(names: seq<string>, s: Side)
    ensures names <= RegisterSide(names, s)
    decreases s, |s.steps| + 1
  {
    RegisterUpToGrows(names, s, 0, |s.steps|);
  }

  lemma {:induction false} RegisterGrows(names: seq<string>, c: Clause)
    ensures names <= RegisterComparison(names, c.c) <= Register(names, c)
    decreases c
  {
    RegisterSideGrows(names, c.c.l);
    RegisterSideGrows(RegisterSide(names, c.c.l), c.c.r);
    if c.More? {
      RegisterGrows(RegisterComparison(names, c.c), c.rest);
    }
  }

  /** The words of the code for `a + 1 > b - 2`, and those of the other operators. */
  lemma CodeExample()
    ensures var l, r := Side(Name("a"), [Step(Add, Single(Number(1)))]), Side(Name("b"), [Step(Sub, Single(Number(2)))]);
            ComparisonCode(["a", "b"], Comparison(l, Greater, r)) ==
              [0x40, 0x43] + [0x10, 0x11, 0x20, 0, 0, 0x20, 2, 1] + [0x10, 0x12, 0x20, 0, 1, 0x20, 2, 2]
    ensures ArithmeticOp(Mul) == 0x13 && ArithmeticOp(Div) == 0x14
    ensures RelationOp(Equal) == 0x41 && RelationOp(NotEqual) == 0x42 && RelationOp(GreaterEqual) == 0x44
    ensures RelationOp(Less) == 0x45 && RelationOp(LessEqual) == 0x46 && Connective(true) == 0x81 && Connective(false) == 0x82
  {
    hide SideCode;
    OneOperator("a", 0, Add, 1);
    OneOperator("b", 1, Sub, 2);
  }

  lemma OneOperator(name: string, k: nat, op: Token, value: long)
    requires k < 2 && name == ["a", "b"][k]
    ensures SideCode(["a", "b"], Side(Name(name), [Step(op, Single(Number(value)))]))
         == [0x10, ArithmeticOp(op), 0x20, 0, k, 0x20, 2, value]
  {
    var names: NameTable := ["a", "b"];
    var s := Side(Name(name), [Step(op, Single(Number(value)))]);
    assert names[1..] == ["b"] && IdOf(names, name) == k;
    assert CodeUpTo(names, s, 0) == [0x20, 0, k];
    assert CodeUpTo(names, s, 1) == [0x10, ArithmeticOp(op)] + [0x20, 0, k] + [0x20, 2, value];
  }
}
