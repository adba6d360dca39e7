/** Which texts the WHERE parser accepts, and how far it reads (apps/antelope/aql-parser.c). What is
    accepted depends on the tokens alone. */
module AqlScan {
  import opened AqlSyntax

  // aql.h
  const OK := 2
  const SYNTAX_ERROR := 3

  predicate AqlError(status: int) {
    status >= SYNTAX_ERROR
  }

  datatype Scan = Scan(ok: bool, pos: nat)
  datatype Reading = Reading(status: int, pos: nat)

  /** The position behind the next token, if there is one. */
  function After(ts: seq<Token>, i: nat): (j: nat)
    ensures i <= |ts| ==> i <= j <= |ts|
  {
    if i < |ts| then i + 1 else i
  }

  // ----- The reference -----

  function ScanPrimary(ts: seq<Token>, i: nat): (r: Scan)
    requires i <= |ts|
    ensures i <= r.pos <= |ts| && (r.ok ==> i < r.pos)
    decreases |ts| - i, 1
  {
    if Peek(ts, i) == LeftParen then
      var inner := ScanExpr(ts, i + 1);
      if !inner.ok then inner
      else Scan(Peek(ts, inner.pos) == RightParen, After(ts, inner.pos))
    else Scan(IsOperand(Peek(ts, i)), After(ts, i))
  }

  function ScanExpr(ts: seq<Token>, i: nat): (r: Scan)
    requires i <= |ts|
    ensures i <= r.pos <= |ts| && (r.ok ==> i < r.pos)
    decreases |ts| - i, 2
  {
    var first := ScanPrimary(ts, i);
    if first.ok then ScanSteps(ts, first.pos) else first
  }

  /** The operators of a side and what follows each of them. A closing parenthesis ends the side and is
      consumed. */
  function ScanSteps(ts: seq<Token>, i: nat): (r: Scan)
    requires i <= |ts|
    ensures i <= r.pos <= |ts|
    decreases |ts| - i, 0
  {
    if Peek(ts, i) == RightParen then Scan(true, i + 1)
    else if ArithmeticOp(Peek(ts, i)) == 0 then Scan(true, i)
    else
      var second := ScanSecond(ts, i + 1);
      if second.ok then ScanSteps(ts, second.pos) else second
  }

  /** Behind an operator any token that is no operand is skipped. */
  function ScanSecond(ts: seq<Token>, i: nat): (r: Scan)
    requires i <= |ts|
    ensures i <= r.pos <= |ts| && (r.ok ==> i < r.pos)
    decreases |ts| - i, 3
  {
    if IsOperand(Peek(ts, i)) then Scan(true, i + 1) else ScanExpr(ts, After(ts, i))
  }

  function ScanComparison(ts: seq<Token>, i: nat): (r: Scan)
    requires i <= |ts|
    ensures i <= r.pos <= |ts| && (r.ok ==> i < r.pos)
  {
    var left := ScanExpr(ts, i);
    if !left.ok then left
    else if RelationOp(Peek(ts, left.pos)) == 0 then Scan(false, After(ts, left.pos))
    else ScanExpr(ts, left.pos + 1)
  }

  /** A comparison that fails behind a connective gives 0. */
  function ScanProposition(ts: seq<Token>, i: nat): (r: Reading)
    requires i <= |ts|
    ensures i <= r.pos <= |ts| && r.status in {0, OK, SYNTAX_ERROR} && (r.status == OK ==> i < r.pos)
    decreases |ts| - i, 1
  {
    if Peek(ts, i) == LeftParen then
      var inner := ScanWhere(ts, i + 1);
      if AqlError(inner.status) then inner
      else Reading(if Peek(ts, inner.pos) == RightParen then OK else SYNTAX_ERROR, After(ts, inner.pos))
    else
      var c := ScanComparison(ts, i);
      Reading(if c.ok then OK else 0, c.pos)
  }

  function ScanConjuncts(ts: seq<Token>, i: nat): (r: Reading)
    requires i <= |ts|
    ensures i <= r.pos <= |ts| && r.status in {0, OK, SYNTAX_ERROR}
    decreases |ts| - i, 0
  {
    if !IsLink(Peek(ts, i)) then Reading(OK, i)
    else
      var next := ScanProposition(ts, i + 1);
      if next.status == OK then ScanConjuncts(ts, next.pos) else next
  }

  function ScanWhere(ts: seq<Token>, i: nat): (r: Reading)
    requires i <= |ts|
    ensures i <= r.pos <= |ts| && r.status in {0, OK, SYNTAX_ERROR} && (!AqlError(r.status) ==> i < r.pos)
    decreases |ts| - i, 2
  {
    var first := ScanComparison(ts, i);
    if first.ok then ScanConjuncts(ts, first.pos) else Reading(SYNTAX_ERROR, first.pos)
  }

  /** A clause is accepted up to a position where no connective follows. */
  lemma {:induction false} ConjunctsEndThere(ts: seq<Token>, i: nat)
    requires i <= |ts|
    ensures ScanConjuncts(ts, i).status == OK ==> !IsLink(Peek(ts, ScanConjuncts(ts, i).pos))
    decreases |ts| - i
  {
    hide ScanProposition;
    if IsLink(Peek(ts, i)) && ScanProposition(ts, i + 1).status == OK {
      ConjunctsEndThere(ts, ScanProposition(ts, i + 1).pos);
    }
  }

  lemma WhereEndsThere(ts: seq<Token>, i: nat)
    requires i <= |ts|
    ensures ScanWhere(ts, i).status == OK ==> !IsLink(Peek(ts, ScanWhere(ts, i).pos))
  {
    hide ScanComparison, ScanConjuncts, IsLink;
    ConjunctsEndThere(ts, ScanComparison(ts, i).pos);
  }

  // ----- Clauses without parentheses -----

  /** The position behind a closing parenthesis, if there is one. */
  function Closed(ts: seq<Token>, i: nat): (j: nat)
    ensures i <= |ts| ==> i <= j <= |ts|
  {
    if Peek(ts, i) == RightParen then i + 1 else i
  }

  lemma {:induction false} SideScans(ts: seq<Token>, k: nat, s: Side)
    requires SideAt(ts, k, s)
    ensures k + |SideTokens(s)| <= |ts| && ScanExpr(ts, k) == Scan(true, Closed(ts, k + |SideTokens(s)|))
    decreases s, |s.steps| + 2
  {
    hide SideBegins, ScanExpr, ArithmeticOp;
    SideIsRead(ts, k, s);
    ScanStepsEnd(ts, k + |SideTokens(s)|);
  }

  /** The loop of parse_expr comes to the end of the side. */
  lemma {:induction false} SideIsRead(ts: seq<Token>, k: nat, s: Side)
    requires SideBegins(ts, k, s)
    ensures k + |SideTokens(s)| <= |ts| && ScanExpr(ts, k) == ScanSteps(ts, k + |SideTokens(s)|)
    decreases s, |s.steps| + 1
  {
    hide ArithmeticOp, StepAt, ScanSteps;
    StepsScan(ts, k, s, 0);
  }

  lemma {:induction false} StepsScan(ts: seq<Token>, k: nat, s: Side, n: nat)
    requires SideBegins(ts, k, s) && n <= |s.steps|
    ensures k + |UpTo(s, n)| <= k + |SideTokens(s)| <= |ts|
    ensures ScanSteps(ts, k + |UpTo(s, n)|) == ScanSteps(ts, k + |SideTokens(s)|)
    decreases s, |s.steps| - n
  {
    hide ArithmeticOp, UpTo, StepAt, ScanSteps, SideBegins, ArgTokens;
    UpToStep(s, n);
    if n < |s.steps| {
      UpToStep(s, n + 1);
      StepOf(ts, k, s, n);
      StepScans(ts, k + |UpTo(s, n)|, s.steps[n]);
      StepsScan(ts, k, s, n + 1);
    } else if n > 0 {
      StepOf(ts, k, s, n - 1);
      StepInside(ts, k + |UpTo(s, n - 1)|, s.steps[n - 1]);
    } else {
      FirstOf(ts, k, s);
    }
  }

  lemma StepOf(ts: seq<Token>, k: nat, s: Side, n: nat)
    requires SideBegins(ts, k, s) && n < |s.steps|
    ensures StepAt(ts, k + |UpTo(s, n)|, s.steps[n])
  {
    hide StepAt, UpTo;
  }

  lemma FirstOf(ts: seq<Token>, k: nat, s: Side)
    requires SideBegins(ts, k, s)
    ensures k < |ts|
  {
    hide StepAt, UpTo;
  }

  lemma BreakScans(ts: seq<Token>, k: nat, s: Side)
    requires BreaksAt(ts, k, s)
    ensures k < |ts| && !ScanExpr(ts, k).ok
  {
    hide SideBegins, ScanExpr, SideTokens;
    var end := k + |SideTokens(s)|;
    OperatorWeights();
    SideIsRead(ts, k, s);
    NothingScans(ts, After(ts, end + 1));
  }

  lemma NothingScans(ts: seq<Token>, k: nat)
    requires k <= |ts|
    ensures NothingAt(ts, k) ==> !ScanPrimary(ts, k).ok && !ScanExpr(ts, k).ok
  {
  }

  lemma StepInside(ts: seq<Token>, i: nat, x: Step)
    requires StepAt(ts, i, x)
    ensures i + 1 + |ArgTokens(x.arg)| <= |ts|
  {
    hide SideTokens, SideBegins, ArithmeticOp;
  }

  lemma ScanStepsEnd(ts: seq<Token>, i: nat)
    requires i <= |ts| && ArithmeticOp(Peek(ts, i)) == 0
    ensures ScanSteps(ts, i) == Scan(true, Closed(ts, i))
  {
  }

  lemma {:induction false} StepScans(ts: seq<Token>, i: nat, x: Step)
    requires StepAt(ts, i, x)
    ensures i + 1 + |ArgTokens(x.arg)| <= |ts| && ScanSteps(ts, i) == ScanSteps(ts, i + 1 + |ArgTokens(x.arg)|)
    decreases x, 1
  {
    hide ArithmeticOp, ArgAt, ArgTokens, ScanSecond;
    OperatorWeights();
    ArgScans(ts, i + 1, x.arg);
  }

  lemma {:induction false} ArgScans(ts: seq<Token>, i: nat, a: Arg)
    requires ArgAt(ts, i, a)
    ensures i + |ArgTokens(a)| <= |ts| && ScanSecond(ts, i) == Scan(true, i + |ArgTokens(a)|)
    decreases a
  {
    hide ArithmeticOp, SideTokens, SideBegins, ScanExpr;
    OperatorWeights();
    if a.Group? {
      SideScans(ts, i + 1, a.side);
    }
  }

  lemma ScanExprIs(ts: seq<Token>, i: nat)
    requires i <= |ts|
    ensures var first := ScanPrimary(ts, i);
            ScanExpr(ts, i) == if first.ok then ScanSteps(ts, first.pos) else first
  {
    hide ScanPrimary, ScanSteps;
  }

  /** One round of the loop in parse_expr. */
  lemma ScanStepsIs(ts: seq<Token>, i: nat)
    requires i <= |ts|
    ensures ArithmeticOp(Peek(ts, i)) != 0 ==> i < |ts|
    ensures ScanSteps(ts, i) == if ArithmeticOp(Peek(ts, i)) == 0 then Scan(true, Closed(ts, i))
                                else
                                  var second := ScanSecond(ts, i + 1);
                                  if second.ok then ScanSteps(ts, second.pos) else second
  {
    hide ScanSecond;
    OperatorWeights();
  }

  lemma ComparisonScans(ts: seq<Token>, k: nat, c: Comparison)
    requires ComparisonAt(ts, k, c)
    ensures k + |ComparisonTokens(c)| <= |ts| && ScanComparison(ts, k) == Scan(true, Closed(ts, k + |ComparisonTokens(c)|))
    ensures Peek(ts, k) != LeftParen
  {
    hide SideAt, ScanExpr, RelationOp, SideTokens;
    RelationWeights();
    SideScans(ts, k, c.l);
    SideScans(ts, k + |SideTokens(c.l)| + 1, c.r);
    SideBegun(ts, k, c.l);
  }

  lemma SideBegun(ts: seq<Token>, k: nat, s: Side)
    requires SideAt(ts, k, s)
    ensures IsOperand(Peek(ts, k))
  {
  }

  /** Up to the end of the clause the loop of parse_where goes on. */
  lemma ClauseScans(ts: seq<Token>, k: nat, c: Clause)
    requires ClauseAt(ts, k, c)
    ensures k + |Tokens(c)| <= |ts|
    ensures ScanWhere(ts, k) == ScanConjuncts(ts, Closed(ts, k + |Tokens(c)|))
  {
    hide ComparisonAt, ScanComparison, ComparisonTokens, Tokens, ScanConjuncts;
    ComparisonScans(ts, k, c.c);
    ConjunctsScan(ts, k, c);
  }

  lemma {:induction false} ConjunctsScan(ts: seq<Token>, k: nat, c: Clause)
    requires ClauseAt(ts, k, c)
    ensures k + |ComparisonTokens(c.c)| <= k + |Tokens(c)| <= |ts|
    ensures ScanConjuncts(ts, Closed(ts, k + |ComparisonTokens(c.c)|)) == ScanConjuncts(ts, Closed(ts, k + |Tokens(c)|))
    decreases c
  {
    hide ComparisonAt, ScanComparison, ComparisonTokens, ScanConjuncts, Tokens, Closed, LinkToken, Peek, ClauseAt;
    ClauseParts(ts, k, c);
    ComparisonScans(ts, k, c.c);
    if c.More? {
      var link := k + |ComparisonTokens(c.c)|;
      ConjunctScans(ts, link, c.rest.c);
      ConjunctsScan(ts, link + 1, c.rest);
    }
  }

  lemma ClauseParts(ts: seq<Token>, k: nat, c: Clause)
    requires ClauseAt(ts, k, c)
    ensures ComparisonAt(ts, k, c.c)
    ensures c.Last? ==> Tokens(c) == ComparisonTokens(c.c)
    ensures c.More? ==>
              var link := k + |ComparisonTokens(c.c)|;
              && IsLink(Peek(ts, link)) && Closed(ts, link) == link && ClauseAt(ts, link + 1, c.rest)
              && ComparisonAt(ts, link + 1, c.rest.c) && |Tokens(c)| == |ComparisonTokens(c.c)| + 1 + |Tokens(c.rest)|
  {
    hide ComparisonAt, ComparisonTokens;
  }

  lemma ConjunctScans(ts: seq<Token>, link: nat, c: Comparison)
    requires IsLink(Peek(ts, link)) && ComparisonAt(ts, link + 1, c)
    ensures link + 1 + |ComparisonTokens(c)| <= |ts|
    ensures ScanProposition(ts, link + 1) == Reading(OK, Closed(ts, link + 1 + |ComparisonTokens(c)|))
    ensures ScanConjuncts(ts, link) == ScanConjuncts(ts, Closed(ts, link + 1 + |ComparisonTokens(c)|))
  {
    hide ScanComparison, ComparisonTokens, ComparisonAt;
    ComparisonScans(ts, link + 1, c);
  }

  // ----- Parentheses -----

  /** What a token adds to the nesting. An opening parenthesis behind an arithmetic operator does not
      count. */
  function Nesting(tokens: seq<Token>, k: nat): int
    requires k < |tokens|
  {
    if tokens[k] == RightParen then -1
    else if tokens[k] == LeftParen && (k == 0 || ArithmeticOp(tokens[k - 1]) == 0) then 1
    else 0
  }

  function Depth(tokens: seq<Token>, i: nat, j: nat): int
    requires i <= j <= |tokens|
    decreases j - i
  {
    if i == j then 0 else Depth(tokens, i, j - 1) + Nesting(tokens, j - 1)
  }

  /** No closing parenthesis comes without an opening one before it. */
  ghost predicate Matched(tokens: seq<Token>, i: nat, j: nat)
    requires i <= j <= |tokens|
  {
    forall k | i <= k <= j :: Depth(tokens, i, k) >= 0
  }

  predicate Flat(tokens: seq<Token>, i: nat, j: nat)
    requires i <= j <= |tokens|
  {
    forall k | i <= k < j :: Nesting(tokens, k) == 0
  }

  /** What is accepted never opens more than it closes, and if it is matched it has no parenthesis
      that counts. */
  ghost predicate Accepted(tokens: seq<Token>, i: nat, j: nat) {
    && i <= j <= |tokens|
    && Depth(tokens, i, j) <= 0
    && (Matched(tokens, i, j) ==> Flat(tokens, i, j))
  }

  /** It closes more than it opens, unless a token follows at which an expression ends. */
  ghost predicate Ended(tokens: seq<Token>, i: nat, j: nat) {
    Accepted(tokens, i, j) && (Depth(tokens, i, j) < 0 || EndsExpr(Peek(tokens, j)))
  }

  lemma {:induction false} DepthSplits(tokens: seq<Token>, i: nat, m: nat, j: nat)
    requires i <= m <= j <= |tokens|
    ensures Depth(tokens, i, j) == Depth(tokens, i, m) + Depth(tokens, m, j)
    decreases j - m
  {
    if m < j {
      DepthSplits(tokens, i, m, j - 1);
    }
  }

  lemma AcceptedNext(tokens: seq<Token>, i: nat, m: nat, j: nat)
    requires Accepted(tokens, i, m) && Accepted(tokens, m, j)
    ensures Accepted(tokens, i, j)
    ensures Ended(tokens, m, j) ==> Ended(tokens, i, j)
  {
    hide Depth, Nesting, EndsExpr;
    DepthSplits(tokens, i, m, j);
    if Matched(tokens, i, j) {
      forall k | m <= k <= j
        ensures Depth(tokens, m, k) >= 0
      {
        DepthSplits(tokens, i, m, k);
        assert Depth(tokens, i, k) >= 0;
      }
    }
  }

  lemma AcceptedToken(tokens: seq<Token>, i: nat)
    requires i < |tokens| && Nesting(tokens, i) <= 0
    ensures Accepted(tokens, i, i + 1)
    ensures Nesting(tokens, i) < 0 ==> Ended(tokens, i, i + 1)
  {
    assert Depth(tokens, i, i + 1) == Nesting(tokens, i);
  }

  /** Between parentheses something must have closed more than it opened. */
  lemma AcceptedInParentheses(tokens: seq<Token>, i: nat, j: nat)
    requires i < |tokens| && tokens[i] == LeftParen && Ended(tokens, i + 1, j)
    requires j < |tokens| && tokens[j] == RightParen
    ensures Ended(tokens, i, j + 1)
  {
    DepthSplits(tokens, i, i + 1, j + 1);
    assert Depth(tokens, i, i + 1) == Nesting(tokens, i);
    assert !Matched(tokens, i, j + 1);
  }

  lemma FlatToken(ts: seq<Token>, i: nat)
    requires i < |ts| && Nesting(ts, i) == 0
    ensures Accepted(ts, i, i + 1)
  {
    hide Depth, Accepted;
    AcceptedToken(ts, i);
  }

  lemma NotParenthesis(ts: seq<Token>, i: nat)
    requires i < |ts| && (IsOperand(ts[i]) || IsLink(ts[i]) || ArithmeticOp(ts[i]) != 0 || RelationOp(ts[i]) != 0)
    ensures Nesting(ts, i) == 0
  {
    OperatorWeights();
  }

  lemma {:induction false} PrimaryAccepted(ts: seq<Token>, i: nat)
    requires i <= |ts| && ScanPrimary(ts, i).ok
    ensures Accepted(ts, i, ScanPrimary(ts, i).pos)
    decreases |ts| - i, 1
  {
    hide Depth, Nesting, Accepted, Ended, ScanExpr;
    if Peek(ts, i) == LeftParen {
      ExprEnded(ts, i + 1);
      AcceptedInParentheses(ts, i, ScanExpr(ts, i + 1).pos);
    } else {
      NotParenthesis(ts, i);
      FlatToken(ts, i);
    }
  }

  /** What is accepted as a side never opens more than it closes, and closes more than it opens unless
      a token follows at which it ends. */
  lemma {:induction false} ExprEnded(ts: seq<Token>, i: nat)
    requires i <= |ts| && ScanExpr(ts, i).ok
    ensures Ended(ts, i, ScanExpr(ts, i).pos)
    decreases |ts| - i, 2
  {
    hide Depth, Nesting, Accepted, Ended, ScanPrimary, ScanSteps;
    var m := ScanPrimary(ts, i).pos;
    PrimaryAccepted(ts, i);
    StepsEnded(ts, m);
    EndedNext(ts, i, m, ScanSteps(ts, m).pos);
  }

  lemma {:induction false} StepsEnded(ts: seq<Token>, i: nat)
    requires i <= |ts| && ScanSteps(ts, i).ok
    ensures Ended(ts, i, ScanSteps(ts, i).pos)
    decreases |ts| - i, 0
  {
    hide Depth, Nesting, Accepted, Ended, ScanSecond, Peek, ArithmeticOp;
    PeekThere(ts, i);
    if Peek(ts, i) == RightParen {
      EndedByParenthesis(ts, i);
    } else if ArithmeticOp(Peek(ts, i)) == 0 {
      EndedHere(ts, i);
    } else {
      var m := ScanSecond(ts, i + 1).pos;
      SecondAccepted(ts, i + 1);
      StepsEnded(ts, m);
      NotParenthesis(ts, i);
      FlatToken(ts, i);
      EndedNext(ts, i + 1, m, ScanSteps(ts, m).pos);
      EndedNext(ts, i, i + 1, ScanSteps(ts, m).pos);
    }
  }

  lemma {:induction false} SecondAccepted(ts: seq<Token>, i: nat)
    requires 0 < i <= |ts| && ArithmeticOp(ts[i - 1]) != 0 && ScanSecond(ts, i).ok
    ensures Accepted(ts, i, ScanSecond(ts, i).pos)
    decreases |ts| - i, 3
  {
    hide Depth, Accepted, Ended, ScanExpr, ArithmeticOp;
    if IsOperand(Peek(ts, i)) {
      NotParenthesis(ts, i);
      FlatToken(ts, i);
    } else {
      ExprEnded(ts, After(ts, i));
      EndedIsAccepted(ts, After(ts, i), ScanExpr(ts, After(ts, i)).pos);
      if i < |ts| {
        AcceptedToken(ts, i);
        AcceptedNext(ts, i, i + 1, ScanExpr(ts, i + 1).pos);
      }
    }
  }

  lemma PeekThere(ts: seq<Token>, i: nat)
    ensures ArithmeticOp(Peek(ts, i)) != 0 || Peek(ts, i) == RightParen ==> i < |ts| && ts[i] == Peek(ts, i)
  {
    OperatorWeights();
  }

  lemma EndedIsAccepted(ts: seq<Token>, i: nat, j: nat)
    requires Ended(ts, i, j)
    ensures Accepted(ts, i, j)
  {
    hide Accepted;
  }

  lemma EndedNext(ts: seq<Token>, i: nat, m: nat, j: nat)
    requires Accepted(ts, i, m) && Ended(ts, m, j)
    ensures Ended(ts, i, j)
  {
    hide Accepted;
    AcceptedNext(ts, i, m, j);
  }

  lemma EndedHere(ts: seq<Token>, i: nat)
    requires i <= |ts| && EndsExpr(Peek(ts, i))
    ensures Ended(ts, i, i)
  {
  }

  lemma EndedByParenthesis(ts: seq<Token>, i: nat)
    requires i < |ts| && ts[i] == RightParen
    ensures Ended(ts, i, i + 1)
  {
    hide Depth, Accepted;
    AcceptedToken(ts, i);
  }

  lemma ComparisonEnded(ts: seq<Token>, i: nat)
    requires i <= |ts| && ScanComparison(ts, i).ok
    ensures Ended(ts, i, ScanComparison(ts, i).pos)
  {
    hide Depth, Nesting, Accepted, Ended, ScanExpr, RelationOp;
    RelationWeights();
    var l := ScanExpr(ts, i).pos;
    ExprEnded(ts, i);
    ExprEnded(ts, l + 1);
    EndedIsAccepted(ts, i, l);
    NotParenthesis(ts, l);
    FlatToken(ts, l);
    EndedNext(ts, l, l + 1, ScanExpr(ts, l + 1).pos);
    EndedNext(ts, i, l, ScanExpr(ts, l + 1).pos);
  }

  /** A side in parentheses is an error in every text that never closes more than it opens. */
  lemma SideInParenthesesFails(ts: seq<Token>, i: nat)
    requires i < |ts| && ts[i] == LeftParen && Nesting(ts, i) == 1 && Matched(ts, i, |ts|)
    ensures !ScanExpr(ts, i).ok
  {
    hide Depth, Nesting, ScanExpr;
    if ScanExpr(ts, i).ok {
      ExprEnded(ts, i);
      OpeningIsNotMatched(ts, i, ScanExpr(ts, i).pos);
    }
  }

  lemma OpeningIsNotMatched(ts: seq<Token>, i: nat, j: nat)
    requires i < j && Accepted(ts, i, j) && Nesting(ts, i) == 1
    ensures !Matched(ts, i, j) && !Matched(ts, i, |ts|)
  {
    hide Depth;
  }
}
