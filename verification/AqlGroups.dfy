/** Exactly which WHERE clauses with propositions in parentheses are accepted, and which without. */
module AqlGroups {
  import opened Basics
  import opened AqlSyntax
  import opened AqlScan

  // ----- The propositions that are reached -----

  /** The loop of parse_where, coming to position i, goes on to the proposition at k. */
  predicate Reaches(ts: seq<Token>, i: nat, k: nat)
    decreases |ts| - i
  {
    && i < |ts| && IsLink(ts[i])
    && var next := ScanProposition(ts, i + 1);
       k == i + 1 || (next.status == OK && Reaches(ts, next.pos, k))
  }

  predicate Refused(ts: seq<Token>, k: nat) {
    k <= |ts| && Peek(ts, k) == LeftParen && ScanProposition(ts, k).status == SYNTAX_ERROR
  }

  predicate Broken(ts: seq<Token>, k: nat) {
    k <= |ts| && Peek(ts, k) != LeftParen && !ScanComparison(ts, k).ok
  }

  lemma PropositionStatus(ts: seq<Token>, k: nat)
    requires k <= |ts|
    ensures Refused(ts, k) <==> ScanProposition(ts, k).status == SYNTAX_ERROR
    ensures Broken(ts, k) <==> ScanProposition(ts, k).status == 0
  {
    hide ScanComparison, ScanWhere;
  }

  lemma ReachesFrom(ts: seq<Token>, i: nat)
    requires i < |ts| && IsLink(ts[i])
    ensures var next := ScanProposition(ts, i + 1);
            forall k :: Reaches(ts, i, k) <==> k == i + 1 || (next.status == OK && Reaches(ts, next.pos, k))
  {
    hide ScanProposition;
  }

  lemma {:induction false} ConjunctsStatus(ts: seq<Token>, i: nat)
    requires i <= |ts|
    ensures ScanConjuncts(ts, i).status == SYNTAX_ERROR <==> exists k :: Reaches(ts, i, k) && Refused(ts, k)
    ensures ScanConjuncts(ts, i).status == 0 <==> exists k :: Reaches(ts, i, k) && Broken(ts, k)
    decreases |ts| - i
  {
    hide ScanProposition, Refused, Broken;
    if i < |ts| && IsLink(ts[i]) {
      var next := ScanProposition(ts, i + 1);
      PropositionStatus(ts, i + 1);
      ReachesFrom(ts, i);
      assert Reaches(ts, i, i + 1);
      if next.status == OK {
        ConjunctsStatus(ts, next.pos);
      }
    }
  }

  /** A text leads to an error exactly if no comparison starts it or a proposition in parentheses that
      is reached is refused, and to the status 0 exactly if behind a connective that is reached no
      comparison follows. */
  lemma WhereStatus(ts: seq<Token>, i: nat)
    requires i <= |ts|
    ensures var w, c := ScanWhere(ts, i), ScanComparison(ts, i);
            && (w.status == SYNTAX_ERROR <==> !c.ok || exists k :: Reaches(ts, c.pos, k) && Refused(ts, k))
            && (w.status == 0 <==> c.ok && exists k :: Reaches(ts, c.pos, k) && Broken(ts, k))
  {
    hide ScanComparison, ScanConjuncts, Refused, Broken, Reaches;
    ConjunctsStatus(ts, ScanComparison(ts, i).pos);
  }

  // ----- Texts in which only propositions are put in parentheses -----

  /** From position i on a parenthesis is only opened behind a connective that does not itself stand
      behind an operator. */
  predicate Grouped(ts: seq<Token>, i: nat) {
    forall k | i <= k < |ts| && ts[k] == LeftParen :: k > 0 && IsLink(ts[k - 1]) && (k > 1 ==> ArithmeticOp(ts[k - 2]) == 0)
  }

  predicate NoneOpened(ts: seq<Token>, i: nat, j: nat)
    requires j <= |ts|
  {
    forall k | i <= k < j :: ts[k] != LeftParen
  }

  /** A side may end before position j. */
  predicate Complete(ts: seq<Token>, j: nat) {
    0 < j <= |ts| && (IsOperand(ts[j - 1]) || ts[j - 1] == RightParen)
  }

  lemma {:induction false} ExprOpensNothing(ts: seq<Token>, i: nat)
    requires i <= |ts| && Grouped(ts, i) && Peek(ts, i) != LeftParen
    ensures var r := ScanExpr(ts, i); NoneOpened(ts, i, r.pos) && (r.ok ==> Complete(ts, r.pos))
    decreases |ts| - i, 2
  {
    if IsOperand(Peek(ts, i)) {
      StepsOpenNothing(ts, i + 1);
    }
  }

  lemma {:induction false} StepsOpenNothing(ts: seq<Token>, i: nat)
    requires i <= |ts| && Grouped(ts, i) && Complete(ts, i)
    ensures var r := ScanSteps(ts, i); NoneOpened(ts, i, r.pos) && (r.ok ==> Complete(ts, r.pos))
    decreases |ts| - i, 0
  {
    hide ScanSecond, ArithmeticOp;
    PeekThere(ts, i);
    if Peek(ts, i) != RightParen && ArithmeticOp(Peek(ts, i)) != 0 {
      OperatorWeights();
      SecondOpensNothing(ts, i + 1);
      var second := ScanSecond(ts, i + 1);
      if second.ok {
        StepsOpenNothing(ts, second.pos);
      }
    }
  }

  lemma {:induction false} SecondOpensNothing(ts: seq<Token>, i: nat)
    requires 0 < i <= |ts| && ArithmeticOp(ts[i - 1]) != 0 && Grouped(ts, i)
    ensures var r := ScanSecond(ts, i); NoneOpened(ts, i, r.pos) && (r.ok ==> Complete(ts, r.pos))
    decreases |ts| - i, 3
  {
    hide ScanExpr;
    if !IsOperand(Peek(ts, i)) {
      ExprOpensNothing(ts, After(ts, i));
    }
  }

  lemma ComparisonOpensNothing(ts: seq<Token>, i: nat)
    requires i <= |ts| && Grouped(ts, i) && Peek(ts, i) != LeftParen
    ensures NoneOpened(ts, i, ScanComparison(ts, i).pos)
  {
    hide ScanExpr;
    ExprOpensNothing(ts, i);
    var left := ScanExpr(ts, i);
    if left.ok && RelationOp(Peek(ts, left.pos)) != 0 {
      ExprOpensNothing(ts, left.pos + 1);
    }
  }

  lemma {:induction false} NothingOpened(ts: seq<Token>, i: nat, j: nat)
    requires i <= j <= |ts| && NoneOpened(ts, i, j)
    ensures Depth(ts, i, j) <= 0
    decreases j - i
  {
    if i < j {
      NothingOpened(ts, i, j - 1);
    }
  }

  // ----- The comparison that is tried last -----

  function LastInProposition(ts: seq<Token>, i: nat): nat
    requires i <= |ts|
    decreases |ts| - i, 1
  {
    if Peek(ts, i) == LeftParen then LastInWhere(ts, i + 1) else i
  }

  function LastInConjuncts(ts: seq<Token>, i: nat, last: nat): nat
    requires i <= |ts|
    decreases |ts| - i, 0
  {
    if !IsLink(Peek(ts, i)) then last
    else
      var next := ScanProposition(ts, i + 1);
      if next.status == OK then LastInConjuncts(ts, next.pos, LastInProposition(ts, i + 1))
      else LastInProposition(ts, i + 1)
  }

  /** Where in the clause at i the comparison starts that is tried last. */
  function LastInWhere(ts: seq<Token>, i: nat): nat
    requires i <= |ts|
    decreases |ts| - i, 2
  {
    var first := ScanComparison(ts, i);
    if first.ok then LastInConjuncts(ts, first.pos, i) else i
  }

  predicate Succeeds(ts: seq<Token>, k: nat) {
    k <= |ts| && ScanComparison(ts, k).ok
  }

  /** No more is opened than closed, and if the last comparison succeeds, more is closed unless a token
      follows at which a side ends. */
  predicate Closes(ts: seq<Token>, i: nat, j: nat, last: nat) {
    && i <= j <= |ts| && Depth(ts, i, j) <= 0
    && (Succeeds(ts, last) ==> Depth(ts, i, j) < 0 || EndsExpr(Peek(ts, j)))
  }

  lemma ComparisonCloses(ts: seq<Token>, i: nat)
    requires i <= |ts| && Grouped(ts, i) && Peek(ts, i) != LeftParen
    ensures Closes(ts, i, ScanComparison(ts, i).pos, i)
  {
    hide Depth, ScanComparison;
    ComparisonOpensNothing(ts, i);
    NothingOpened(ts, i, ScanComparison(ts, i).pos);
    if ScanComparison(ts, i).ok {
      ComparisonEnded(ts, i);
    }
  }

  lemma ClosesNext(ts: seq<Token>, i: nat, m: nat, j: nat, last: nat)
    requires i <= m <= |ts| && Depth(ts, i, m) <= 0 && Closes(ts, m, j, last)
    ensures Closes(ts, i, j, last)
  {
    DepthSplits(ts, i, m, j);
  }

  lemma {:induction false} PropositionCloses(ts: seq<Token>, i: nat)
    requires 0 < i <= |ts| && IsLink(ts[i - 1]) && Grouped(ts, i) && ScanProposition(ts, i).status != SYNTAX_ERROR
    ensures Closes(ts, i, ScanProposition(ts, i).pos, LastInProposition(ts, i))
    ensures Peek(ts, i) == LeftParen && Succeeds(ts, LastInProposition(ts, i)) ==> Depth(ts, i, ScanProposition(ts, i).pos) < 0
    decreases |ts| - i, 1
  {
    hide Depth, ScanWhere, ScanComparison, LastInWhere, Succeeds;
    if Peek(ts, i) == LeftParen {
      var w := ScanWhere(ts, i + 1);
      WhereCloses(ts, i + 1);
      DepthSplits(ts, i, i + 1, w.pos);
      DepthOfOne(ts, i);
      DepthSplits(ts, i, w.pos, w.pos + 1);
      DepthOfOne(ts, w.pos);
    } else {
      ComparisonCloses(ts, i);
    }
  }

  lemma DepthOfOne(ts: seq<Token>, i: nat)
    requires i < |ts|
    ensures Depth(ts, i, i + 1) == Nesting(ts, i)
    ensures ts[i] == RightParen ==> Nesting(ts, i) == -1
    ensures ts[i] == LeftParen && i > 0 && IsLink(ts[i - 1]) ==> Nesting(ts, i) == 1
    ensures IsLink(ts[i]) ==> Nesting(ts, i) == 0
  {
    assert Depth(ts, i, i) == 0;
  }

  lemma {:induction false} ConjunctsClose(ts: seq<Token>, i: nat, last: nat)
    requires i <= |ts| && Grouped(ts, i) && ScanConjuncts(ts, i).status != SYNTAX_ERROR
    ensures if !IsLink(Peek(ts, i)) then ScanConjuncts(ts, i).pos == i
            else Closes(ts, i, ScanConjuncts(ts, i).pos, LastInConjuncts(ts, i, last))
    decreases |ts| - i, 0
  {
    hide Depth, ScanProposition, LastInProposition, Succeeds;
    if IsLink(Peek(ts, i)) {
      var next, k := ScanProposition(ts, i + 1), LastInProposition(ts, i + 1);
      PropositionCloses(ts, i + 1);
      DepthOfOne(ts, i);
      ClosesNext(ts, i, i + 1, next.pos, k);
      if next.status == OK {
        ConjunctsClose(ts, next.pos, k);
        if IsLink(Peek(ts, next.pos)) {
          ClosesNext(ts, i, next.pos, ScanConjuncts(ts, next.pos).pos, LastInConjuncts(ts, next.pos, k));
        }
      }
    }
  }

  lemma {:induction false} WhereCloses(ts: seq<Token>, i: nat)
    requires i <= |ts| && Grouped(ts, i) && Peek(ts, i) != LeftParen && ScanWhere(ts, i).status != SYNTAX_ERROR
    ensures Closes(ts, i, ScanWhere(ts, i).pos, LastInWhere(ts, i))
    decreases |ts| - i, 2
  {
    hide Depth, ScanComparison, ScanConjuncts, LastInConjuncts, Succeeds;
    var first := ScanComparison(ts, i);
    ComparisonCloses(ts, i);
    ConjunctsClose(ts, first.pos, i);
    LastUnlinked(ts, first.pos, i);
    if IsLink(Peek(ts, first.pos)) {
      ClosesNext(ts, i, first.pos, ScanConjuncts(ts, first.pos).pos, LastInConjuncts(ts, first.pos, i));
    }
  }

  lemma LastUnlinked(ts: seq<Token>, i: nat, last: nat)
    requires i <= |ts|
    ensures !IsLink(Peek(ts, i)) ==> LastInConjuncts(ts, i, last) == last
  {
  }

  /** In a text that never closes more than it opens, and opens parentheses behind connectives only, a
      proposition in parentheses is accepted exactly if the comparison that is tried last in it fails
      right before a closing parenthesis. */
  lemma GroupAccepted(ts: seq<Token>, i: nat)
    requires 0 < i < |ts| && ts[i] == LeftParen && IsLink(ts[i - 1]) && Grouped(ts, i) && Matched(ts, i, |ts|)
    ensures var w := ScanWhere(ts, i + 1);
            ScanProposition(ts, i).status == OK <==>
              !AqlError(w.status) && Peek(ts, w.pos) == RightParen && !Succeeds(ts, LastInWhere(ts, i + 1))
  {
    hide Depth, ScanWhere, LastInWhere, Succeeds;
    if ScanProposition(ts, i).status == OK {
      PropositionCloses(ts, i);
    }
  }

  /** A clause put in parentheses is refused if no closing parenthesis follows the one behind it. */
  lemma ClauseInGroup(ts: seq<Token>, i: nat, c: Clause)
    requires i < |ts| && ts[i] == LeftParen && ClauseAt(ts, i + 1, c)
    requires var end := i + 1 + |Tokens(c)|;
             Peek(ts, end) == RightParen && forall k | end < k < |ts| :: ts[k] != RightParen
    ensures ScanProposition(ts, i).status == SYNTAX_ERROR
  {
    hide ClauseAt, Tokens, ScanConjuncts;
    ClauseScans(ts, i + 1, c);
  }

  /** But it is accepted if a last comparison is added that fails right before the parenthesis. */
  lemma BrokenInGroup(ts: seq<Token>, i: nat, c: Clause, link: nat, end: nat)
    requires i < |ts| && ts[i] == LeftParen && ClauseAt(ts, i + 1, c) && link == i + 1 + |Tokens(c)|
    requires link < |ts| && IsLink(ts[link]) && Peek(ts, link + 1) != LeftParen
    requires ScanComparison(ts, link + 1) == Scan(false, end) && Peek(ts, end) == RightParen
    ensures ScanProposition(ts, i) == Reading(OK, end + 1)
  {
    hide ClauseAt, Tokens, ScanComparison;
    ClauseScans(ts, i + 1, c);
    assert ScanProposition(ts, link + 1) == Reading(0, end);
    assert ScanConjuncts(ts, link) == Reading(0, end);
  }

  lemma AfterClause(ts: seq<Token>, k: nat, c: Clause)
    requires ClauseAt(ts, k, c) && IsLink(Peek(ts, k + |Tokens(c)|))
    ensures k + |Tokens(c)| < |ts|
    ensures var next := ScanProposition(ts, k + |Tokens(c)| + 1);
            ScanWhere(ts, k) == if next.status == OK then ScanConjuncts(ts, next.pos) else next
  {
    hide ClauseAt, Tokens, ScanProposition;
    ClauseScans(ts, k, c);
  }

  /** The text of a clause, a connective, and another clause behind an opening parenthesis. */
  function Text(before: seq<Token>, c: Clause, conj: bool, group: Clause, rest: seq<Token>): (ts: seq<Token>)
    ensures |before| <= |ts|
  {
    before + Tokens(c) + [LinkToken(conj), LeftParen] + Tokens(group) + rest
  }

  lemma Layout(before: seq<Token>, c: seq<Token>, open: seq<Token>, group: seq<Token>, rest: seq<Token>)
    requires |open| == 2
    ensures var ts := before + c + open + group + rest;
            && ts == before + c + (open + group + rest) == before + c + open + group + rest
            && ts[|before| + |c|] == open[0] && ts[|before| + |c| + 1] == open[1]
            && ts[|before| + |c| + 2 + |group|..] == rest
    ensures Peek(open + group + rest, 0) == open[0]
  {
  }

  lemma TokensIn(ts: seq<Token>, before: seq<Token>, c: Clause, after: seq<Token>)
    requires ts == before + Tokens(c) + after && Proper(c) && ArithmeticOp(Peek(after, 0)) == 0
    ensures ClauseAt(ts, |before|, c)
  {
    hide Tokens, ClauseAt;
    TokensAt(before, c, after);
  }

  lemma GroupLaid(before: seq<Token>, c: Clause, conj: bool, group: Clause, rest: seq<Token>)
    requires Proper(c) && Proper(group) && ArithmeticOp(Peek(rest, 0)) == 0
    ensures var ts, link := Text(before, c, conj, group, rest), |before| + |Tokens(c)|;
            && ClauseAt(ts, |before|, c) && link + 2 + |Tokens(group)| <= |ts| && IsLink(ts[link])
            && ts[link + 1] == LeftParen && ClauseAt(ts, link + 2, group) && ts[link + 2 + |Tokens(group)|..] == rest
  {
    hide Tokens, ClauseAt, Peek, Proper;
    var ts, open := Text(before, c, conj, group, rest), [LinkToken(conj), LeftParen];
    Layout(before, Tokens(c), open, Tokens(group), rest);
    TokensIn(ts, before, c, open + Tokens(group) + rest);
    TokensIn(ts, before + Tokens(c) + open, group, rest);
  }

  /** For all clauses: put in parentheses behind another one, a clause is a syntax error. */
  lemma GroupIsError(before: seq<Token>, c: Clause, conj: bool, group: Clause, after: seq<Token>)
    requires Proper(c) && Proper(group) && RightParen !in after
    ensures ScanWhere(Text(before, c, conj, group, [RightParen] + after), |before|).status == SYNTAX_ERROR
  {
    hide Tokens, ClauseAt, ScanWhere, ScanProposition, ScanConjuncts, IsLink, Proper, Text;
    var rest := [RightParen] + after;
    var ts := Text(before, c, conj, group, rest);
    var link := |before| + |Tokens(c)|;
    GroupLaid(before, c, conj, group, rest);
    AfterClause(ts, |before|, c);
    NoneLater(ts, link + 2 + |Tokens(group)|, after);
    ClauseInGroup(ts, link + 1, group);
  }

  lemma NoneLater(ts: seq<Token>, end: nat, after: seq<Token>)
    requires end <= |ts| && ts[end..] == [RightParen] + after && RightParen !in after
    ensures Peek(ts, end) == RightParen && forall k | end < k < |ts| :: ts[k] != RightParen
  {
    assert ts[end] == ts[end..][0];
    forall k | end < k < |ts|
      ensures ts[k] != RightParen
    {
      assert ts[k] == ts[end..][k - end] == after[k - end - 1];
    }
  }

  /** If a comparison is added that breaks off behind an operand, it is an accepted text. */
  lemma BrokenGroupIsAccepted(before: seq<Token>, c: Clause, conj: bool, group: Clause, rest: seq<Token>)
    requires Proper(c) && Proper(group) && |rest| >= 4 && IsLink(rest[0])
    requires IsOperand(rest[1]) && EndsExpr(rest[2]) && RelationOp(rest[2]) == 0
    requires rest[3] == RightParen && EndsClause(Peek(rest, 4))
    ensures ScanWhere(Text(before, c, conj, group, rest), |before|)
            == Reading(OK, |before| + |Tokens(c)| + 2 + |Tokens(group)| + 4)
  {
    hide Tokens, ClauseAt, ScanWhere, EndsExpr, RelationOp, Proper, Text, IsOperand, EndsClause, Peek, IsLink, ArithmeticOp;
    var ts := Text(before, c, conj, group, rest);
    var end := |before| + |Tokens(c)| + 2 + |Tokens(group)|;
    PeekOf(rest, 0);
    GroupLaid(before, c, conj, group, rest);
    FourTokens(ts, end, rest);
    BrokenGroupAt(ts, |before|, c, group, end);
  }

  lemma BrokenGroupAt(ts: seq<Token>, k: nat, c: Clause, group: Clause, end: nat)
    requires end == k + |Tokens(c)| + 2 + |Tokens(group)| && end + 4 <= |ts|
    requires var link := k + |Tokens(c)|;
             ClauseAt(ts, k, c) && IsLink(ts[link]) && ts[link + 1] == LeftParen && ClauseAt(ts, link + 2, group)
    requires IsLink(ts[end]) && IsOperand(ts[end + 1]) && EndsExpr(ts[end + 2]) && RelationOp(ts[end + 2]) == 0
    requires ts[end + 3] == RightParen && EndsClause(Peek(ts, end + 4))
    ensures ScanWhere(ts, k) == Reading(OK, end + 4)
  {
    hide Tokens, ClauseAt, ScanWhere, ScanProposition, ScanComparison, ScanConjuncts, EndsExpr, RelationOp, Peek, IsOperand,
      EndsClause;
    var link := k + |Tokens(c)|;
    BreaksOff(ts, end + 1);
    PeekOf(ts, end + 3);
    BrokenInGroup(ts, link + 1, group, end, end + 3);
    PeekOf(ts, link);
    AfterClause(ts, k, c);
    ConjunctsEnd(ts, end + 4);
  }

  lemma PeekOf(ts: seq<Token>, i: nat)
    requires i < |ts|
    ensures Peek(ts, i) == ts[i]
    ensures IsLink(ts[i]) ==> ArithmeticOp(Peek(ts, i)) == 0
  {
  }

  lemma ConjunctsEnd(ts: seq<Token>, i: nat)
    requires i <= |ts| && EndsClause(Peek(ts, i))
    ensures ScanConjuncts(ts, i) == Reading(OK, i)
  {
  }

  lemma FourTokens(ts: seq<Token>, end: nat, rest: seq<Token>)
    requires end <= |ts| && ts[end..] == rest && |rest| >= 4
    ensures end + 4 <= |ts| && ts[end] == rest[0] && ts[end + 1] == rest[1] && ts[end + 2] == rest[2] && ts[end + 3] == rest[3]
    ensures Peek(ts, end + 4) == Peek(rest, 4)
  {
    assert forall k | 0 <= k < |rest| :: ts[end + k] == rest[k];
  }

  lemma BreaksOff(ts: seq<Token>, k: nat)
    requires k + 1 < |ts| && IsOperand(ts[k]) && EndsExpr(ts[k + 1]) && RelationOp(ts[k + 1]) == 0
    ensures ScanComparison(ts, k) == Scan(false, k + 2) && Peek(ts, k) != LeftParen
  {
    assert ScanPrimary(ts, k) == Scan(true, k + 1);
    assert ScanSteps(ts, k + 1) == Scan(true, k + 1);
  }

  // ----- Texts without parentheses -----

  predicate NoParentheses(ts: seq<Token>, i: nat) {
    forall k | i <= k < |ts| :: ts[k] != LeftParen && ts[k] != RightParen
  }

  /** What may stand for a number or a string in a comparison. */
  predicate Stands(t: Token) {
    match t
    case Identifier(_) | Integer(_) | StringValue | FloatValue => true
    case _ => false
  }

  predicate Calculates(t: Token) {
    t in {Add, Sub, Mul, Div}
  }

  predicate Relates(t: Token) {
    t in {Equal, NotEqual, Greater, GreaterEqual, Less, LessEqual}
  }

  lemma TokenClasses()
    ensures forall t :: Stands(t) <==> IsOperand(t)
    ensures forall t :: Calculates(t) <==> ArithmeticOp(t) != 0
    ensures forall t :: Relates(t) <==> RelationOp(t) != 0
  {
  }

  /** An operand, and any number of operators with one more operand each; one token that is no operand may
      stand between an operator and its operand. */
  predicate SideSpan(ts: seq<Token>, i: nat, j: nat) {
    i < j <= |ts| && Stands(ts[i]) && StepsSpan(ts, i + 1, j)
  }

  predicate StepsSpan(ts: seq<Token>, i: nat, j: nat)
    requires i <= j <= |ts|
    decreases j - i
  {
    i == j || (Calculates(ts[i]) && i + 1 < j &&
               if Stands(ts[i + 1]) then StepsSpan(ts, i + 2, j)
               else i + 2 < j && Stands(ts[i + 2]) && StepsSpan(ts, i + 3, j))
  }

  /** Two sides with a relation between them. */
  ghost predicate ComparisonSpan(ts: seq<Token>, i: nat, j: nat) {
    exists m: nat :: SideSpan(ts, i, m) && Relates(Peek(ts, m)) && SideSpan(ts, m + 1, j)
  }

  /** A comparison starts here. */
  ghost predicate Starts(ts: seq<Token>, i: nat) {
    exists j: nat :: ComparisonSpan(ts, i, j) && !Calculates(Peek(ts, j))
  }

  lemma {:induction false} SideFound(ts: seq<Token>, i: nat)
    requires i <= |ts| && NoParentheses(ts, i) && ScanExpr(ts, i).ok
    ensures var j := ScanExpr(ts, i).pos; SideSpan(ts, i, j) && ArithmeticOp(Peek(ts, j)) == 0
    decreases |ts| - i, 1
  {
    hide ArithmeticOp, IsOperand, Calculates, Stands;
    TokenClasses();
    StepsFound(ts, i + 1);
  }

  lemma {:induction false} StepsFound(ts: seq<Token>, i: nat)
    requires i <= |ts| && NoParentheses(ts, i) && ScanSteps(ts, i).ok
    ensures var j := ScanSteps(ts, i).pos; StepsSpan(ts, i, j) && ArithmeticOp(Peek(ts, j)) == 0
    decreases |ts| - i, 0
  {
    hide ScanExpr, ArithmeticOp, SideSpan;
    TokenClasses();
    PeekThere(ts, i);
    if ArithmeticOp(Peek(ts, i)) != 0 {
      if IsOperand(Peek(ts, i + 1)) {
        StepsFound(ts, i + 2);
      } else {
        var j := ScanExpr(ts, After(ts, i + 1)).pos;
        SideFound(ts, After(ts, i + 1));
        StepsEnd(ts, j);
        Skips(ts, i, j);
      }
    }
  }

  lemma StepsEnd(ts: seq<Token>, j: nat)
    requires j <= |ts| && Peek(ts, j) != RightParen && ArithmeticOp(Peek(ts, j)) == 0
    ensures ScanSteps(ts, j) == Scan(true, j)
  {
  }

  lemma Skips(ts: seq<Token>, i: nat, j: nat)
    requires i < |ts| && ArithmeticOp(ts[i]) != 0 && !IsOperand(Peek(ts, i + 1)) && SideSpan(ts, After(ts, i + 1), j)
    ensures StepsSpan(ts, i, j)
  {
    hide ArithmeticOp, IsOperand, Calculates, Stands;
    TokenClasses();
  }

  lemma SideRead(ts: seq<Token>, i: nat, j: nat)
    requires SideSpan(ts, i, j) && NoParentheses(ts, i) && ArithmeticOp(Peek(ts, j)) == 0
    ensures ScanExpr(ts, i) == Scan(true, j)
  {
    hide ArithmeticOp, IsOperand, Calculates, Stands;
    TokenClasses();
    StepsRead(ts, i + 1, j);
  }

  lemma {:induction false} StepsRead(ts: seq<Token>, i: nat, j: nat)
    requires i <= j <= |ts| && StepsSpan(ts, i, j) && NoParentheses(ts, i) && ArithmeticOp(Peek(ts, j)) == 0
    ensures ScanSteps(ts, i) == Scan(true, j)
    decreases j - i
  {
    hide ArithmeticOp, IsOperand, Calculates, Stands;
    TokenClasses();
    if i < j {
      if IsOperand(ts[i + 1]) {
        StepsRead(ts, i + 2, j);
      } else {
        StepsRead(ts, i + 3, j);
        assert ScanExpr(ts, i + 2) == Scan(true, j);
        StepsEnd(ts, j);
      }
    }
  }

  /** In a text without parentheses a comparison is read exactly where one stands. */
  lemma PlainComparison(ts: seq<Token>, i: nat, j: nat)
    requires i <= |ts| && NoParentheses(ts, i)
    ensures ScanComparison(ts, i) == Scan(true, j) <==> ComparisonSpan(ts, i, j) && !Calculates(Peek(ts, j))
  {
    hide SideSpan, ScanExpr, ArithmeticOp, RelationOp, Calculates, Relates;
    TokenClasses();
    RelationWeights();
    var l := ScanExpr(ts, i);
    if ScanComparison(ts, i) == Scan(true, j) {
      SideFound(ts, i);
      SideFound(ts, l.pos + 1);
    }
    if ComparisonSpan(ts, i, j) && !Calculates(Peek(ts, j)) {
      var m: nat :| SideSpan(ts, i, m) && Relates(Peek(ts, m)) && SideSpan(ts, m + 1, j);
      SideRead(ts, i, m);
      SideRead(ts, m + 1, j);
    }
  }

  lemma PlainStart(ts: seq<Token>, i: nat)
    requires i <= |ts| && NoParentheses(ts, i)
    ensures ScanComparison(ts, i).ok <==> Starts(ts, i)
  {
    hide ScanComparison, ComparisonSpan, ArithmeticOp, Calculates;
    if ScanComparison(ts, i).ok {
      PlainComparison(ts, i, ScanComparison(ts, i).pos);
    }
    if Starts(ts, i) {
      var j: nat :| ComparisonSpan(ts, i, j) && !Calculates(Peek(ts, j));
      PlainComparison(ts, i, j);
    }
  }

  /** A text without parentheses leads to an error exactly if no comparison starts it, and to the status 0
      exactly if no comparison starts behind a connective that is reached. */
  lemma PlainStatus(ts: seq<Token>, i: nat)
    requires i <= |ts| && NoParentheses(ts, i)
    ensures ScanWhere(ts, i).status == SYNTAX_ERROR <==> !Starts(ts, i)
    ensures ScanWhere(ts, i).status == 0 <==>
              Starts(ts, i) && exists k :: Reaches(ts, ScanComparison(ts, i).pos, k) && !Starts(ts, k)
  {
    hide ScanComparison, ScanWhere, Starts, Reaches;
    WhereStatus(ts, i);
    PlainStart(ts, i);
    forall k | Reaches(ts, ScanComparison(ts, i).pos, k)
      ensures !Refused(ts, k) && (Broken(ts, k) <==> !Starts(ts, k))
    {
      ReachesInside(ts, ScanComparison(ts, i).pos, k);
      PlainStart(ts, k);
      assert Peek(ts, k) != LeftParen;
    }
  }

  lemma {:induction false} ReachesInside(ts: seq<Token>, i: nat, k: nat)
    requires Reaches(ts, i, k)
    ensures i < k <= |ts|
    decreases |ts| - i
  {
    hide ScanProposition;
    var next := ScanProposition(ts, i + 1);
    if k != i + 1 {
      ReachesInside(ts, next.pos, k);
    }
  }

  // ----- Three texts -----

  function Equals(name: string, value: long): Comparison {
    Comparison(Side(Name(name), []), Equal, Side(Number(value), []))
  }

  lemma TermTokens(t: Term)
    ensures SideTokens(Side(t, [])) == [TermToken(t)]
  {
    hide TermToken;
    assert SideTokens(Side(t, [])) == UpTo(Side(t, []), 0);
  }

  lemma EqualsTokens(name: string, value: long)
    ensures Proper(Last(Equals(name, value))) && Tokens(Last(Equals(name, value))) == [Identifier(name), Equal, Integer(value)]
  {
    TermTokens(Name(name));
    TermTokens(Number(value));
  }

  /** `a = 1 AND (b = 2 OR c = 3)` is a syntax error. */
  lemma ErrorExample()
    ensures ScanWhere([Identifier("a"), Equal, Integer(1), And, LeftParen, Identifier("b"), Equal, Integer(2), Or,
                       Identifier("c"), Equal, Integer(3), RightParen], 0).status == SYNTAX_ERROR
  {
    hide Tokens, ScanWhere, Proper, Equals;
    var first, group := Last(Equals("a", 1)), More(Equals("b", 2), false, Last(Equals("c", 3)));
    EqualsTokens("a", 1);
    MoreTokens(Equals("b", 2), false, Last(Equals("c", 3)));
    EqualsTokens("b", 2);
    EqualsTokens("c", 3);
    GroupIsError([], first, true, group, []);
    assert [RightParen] + [] == [RightParen];
    assert Text([], first, true, group, [RightParen]) ==
           [Identifier("a"), Equal, Integer(1), And, LeftParen, Identifier("b"), Equal, Integer(2), Or,
            Identifier("c"), Equal, Integer(3), RightParen];
  }

  lemma MoreTokens(c: Comparison, conj: bool, rest: Clause)
    ensures Tokens(More(c, conj, rest)) == Tokens(Last(c)) + [LinkToken(conj)] + Tokens(rest)
    ensures Proper(Last(c)) && Proper(rest) ==> Proper(More(c, conj, rest))
  {
  }

  /** `a = 1 AND (b = 2 OR c d)` is accepted. */
  lemma AcceptedExample()
    ensures ScanWhere([Identifier("a"), Equal, Integer(1), And, LeftParen, Identifier("b"), Equal, Integer(2), Or,
                       Identifier("c"), Identifier("d"), RightParen], 0) == Reading(OK, 12)
  {
    hide Tokens, ScanWhere, Proper, Equals;
    var rest := [Or, Identifier("c"), Identifier("d"), RightParen];
    EqualsTokens("a", 1);
    EqualsTokens("b", 2);
    BrokenGroupIsAccepted([], Last(Equals("a", 1)), true, Last(Equals("b", 2)), rest);
    assert Text([], Last(Equals("a", 1)), true, Last(Equals("b", 2)), rest) ==
           [Identifier("a"), Equal, Integer(1), And, LeftParen, Identifier("b"), Equal, Integer(2), Or,
            Identifier("c"), Identifier("d"), RightParen];
  }

  /** `a = 1 AND b c` gives 0, which is no error either. */
  lemma UnnoticedExample()
    ensures ScanWhere([Identifier("a"), Equal, Integer(1), And, Identifier("b"), Identifier("c")], 0) == Reading(0, 6)
  {
    hide Tokens, ScanWhere, Proper, Equals, ScanComparison, ClauseAt;
    var rest := [And, Identifier("b"), Identifier("c")];
    var ts := [Identifier("a"), Equal, Integer(1), And, Identifier("b"), Identifier("c")];
    EqualsTokens("a", 1);
    assert ts == [] + [Identifier("a"), Equal, Integer(1)] + rest;
    TokensIn(ts, [], Last(Equals("a", 1)), rest);
    AfterClause(ts, 0, Last(Equals("a", 1)));
    BreaksOff(ts, 4);
  }
}
