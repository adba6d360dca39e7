/** The part of the AQL parser that compiles WHERE clauses into prefix code by moving code
    that has been emitted already (apps/antelope/aql-parser.c). */
module AqlParser {
  import opened Basics
  import opened LvmSpec
  import opened LvmMachine
  import opened AqlSyntax
  import opened AqlScan

  class Parser {
    const tokens: seq<Token>
    var pos: nat
    var previous: nat
    var token: Token
    const p: Machine

    constructor (tokens: seq<Token>, p: Machine)
      ensures this.tokens == tokens && this.p == p && pos == 0 && previous == 0
    {
      this.tokens, this.p := tokens, p;
      pos, previous, token := 0, 0, NoToken;
    }

    /** The words of the buffer that are left when all further tokens have been compiled. */
    ghost function Room(): int
      requires pos <= |tokens|
      reads this`pos, p`end
    {
      p.code.Length - p.end - Budget(tokens, pos)
    }

    ghost predicate Valid()
      reads this`pos, this`previous, p`names
    {
      previous <= pos <= |tokens| && p.Valid()
    }

    /** lexer_next: at the end of the input there is no token and no progress. */
    method Next()
      requires Valid()
      modifies this`pos, this`previous, this`token
      ensures Valid() && token == Peek(tokens, old(pos)) && previous == old(pos)
      ensures pos == if old(pos) < |tokens| then old(pos) + 1 else old(pos)
      ensures Room() == old(Room()) + Weight(token)
    {
      previous := pos;
      if pos < |tokens| {
        token := tokens[pos];
        pos := pos + 1;
      } else {
        token := NoToken;
      }
    }

    method Rewind()
      requires Valid()
      modifies this`pos
      ensures Valid() && pos == previous
    {
      pos := previous;
    }

    method ParseCmp() returns (t: Token)
      requires Valid()
      modifies this`pos, this`previous, this`token
      ensures Valid() && previous == old(pos) && pos >= old(pos)
      ensures t == if RelationOp(Peek(tokens, old(pos))) != 0 then Peek(tokens, old(pos)) else NoToken
      ensures pos == After(tokens, old(pos)) && (t != NoToken ==> pos == old(pos) + 1)
      ensures Room() >= old(Room()) + Weight(t)
    {
      Next();
      match token {
        case Equal | NotEqual | Greater | Less | GreaterEqual | LessEqual => return token;
        case _ => return NoToken;
      }
    }

    method ParseOp() returns (t: Token)
      requires Valid()
      modifies this`pos, this`previous, this`token
      ensures Valid() && previous == old(pos) && pos >= old(pos)
      ensures var n := Peek(tokens, old(pos)); t == if ArithmeticOp(n) != 0 || n == RightParen then n else NoToken
      ensures pos == After(tokens, old(pos)) && (t != NoToken ==> pos == old(pos) + 1)
      ensures Room() >= old(Room()) + Weight(t)
    {
      Next();
      match token {
        case Add | Sub | Mul | Div | RightParen => return token;
        case _ => return NoToken;
      }
    }

    /** parse_operand. A string or float is accepted but emits nothing. */
    method ParseOperand(ghost t: Term, ghost final: NameTable) returns (ok: bool)
      requires Valid() && Room() >= 0
      modifies this`pos, this`previous, this`token, p`end, p`names, p.code
      ensures Valid() && Room() >= old(Room())
      ensures Scan(ok, pos) == Scan(IsOperand(Peek(tokens, old(pos))), After(tokens, old(pos)))
      ensures !ok ==> p.end == old(p.end) && p.names == old(p.names) && p.code[..] == old(p.code[..])
      ensures Peek(tokens, old(pos)) == TermToken(t) && RegisterTerm(old(p.names), t) <= final ==>
                && p.names == RegisterTerm(old(p.names), t)
                && Appended(old(p.code[..]), old(p.end), EncodeExpr(TermExpr(final, t)), p.code[..], p.end)
    {
      hide Budget, RelationOp, ArithmeticOp, EncodeExpr, IdOf;
      Next();
      match token {
        case Identifier(name) =>
          p.RegisterVariable(name);
          p.SetVariable(name);
          if t == Name(name) && RegisterTerm(old(p.names), t) <= final {
            IdInFinal(p.names, final, t.name);
          }
        case StringValue =>
        case FloatValue =>
        case Integer(value) =>
          p.SetOperand(Operand(LVM_LONG, value));
        case _ =>
          return false;
      }
      return true;
    }

    /** The start of parse_expr: an expression in parentheses, or an operand. */
    method ParsePrimary(ghost s: Side, ghost final: NameTable) returns (ok: bool)
      requires Valid() && Room() >= 1
      modifies this`pos, this`previous, this`token, p`end, p`names, p`error, p.code
      ensures Valid() && Room() >= old(Room()) && Scan(ok, pos) == ScanPrimary(tokens, old(pos))
      ensures NothingAt(tokens, old(pos)) ==> p.end == old(p.end) && p.names == old(p.names) && p.code[..] == old(p.code[..])
      ensures Peek(tokens, old(pos)) == TermToken(s.first) && RegisterTerm(old(p.names), s.first) <= final ==>
                && p.names == RegisterTerm(old(p.names), s.first)
                && Appended(old(p.code[..]), old(p.end), EncodeExpr(TermExpr(final, s.first)), p.code[..], p.end)
      decreases |tokens| - pos, 1
    {
      hide Budget, Appended, ScanExpr;
      Next();
      if token == LeftParen {
        ok := ParseExpr(s, final);
        if ok {
          Next();
          ok := token == RightParen;
        }
      } else {
        Rewind();
        ok := ParseOperand(s.first, final);
      }
    }

    /** What follows an operator in parse_expr: an operand, or an expression, before which one token is
        skipped. */
    method ParseSecond(ghost a: Arg, ghost final: NameTable) returns (ok: bool)
      requires Valid() && Room() >= 1
      modifies this`pos, this`previous, this`token, p`end, p`names, p`error, p.code
      ensures Valid() && Room() >= old(Room()) && Scan(ok, pos) == ScanSecond(tokens, old(pos))
      ensures !IsOperand(Peek(tokens, old(pos))) && NothingAt(tokens, old(pos) + 1) ==>
                !ok && p.end == old(p.end) && p.names == old(p.names) && p.code[..] == old(p.code[..])
      ensures ArgAt(tokens, old(pos), a) && RegisterArg(old(p.names), a) <= final ==>
                && p.names == RegisterArg(old(p.names), a)
                && Appended(old(p.code[..]), old(p.end), ArgCode(final, a), p.code[..], p.end)
      decreases |tokens| - pos, 3
    {
      hide Budget, IdOf, EncodeExpr, TermOperand, RegisterTerm, Appended, ScanExpr, SideBegins, SideTokens;
      ghost var t := if a.Single? then a.term else Number(0);
      ok := ParseOperand(t, final);
      if !ok {
        ghost var s := if a.Group? then a.side else Side(t, []);
        NothingScans(tokens, pos);
        ok := ParseExpr(s, final);
      }
    }

    /** One round of the loop in parse_expr: an operator, its argument, and the move of the
        operator before everything from savedEnd on. */
    method ParseStep(savedEnd: nat, ghost a: Arg, ghost final: NameTable) returns (ok: bool, more: bool, newEnd: nat)
      requires Valid() && Room() >= 1
      modifies this`pos, this`previous, this`token, p`end, p`names, p`error, p.code
      ensures Valid() && Room() >= old(Room())
      ensures var t := Peek(tokens, old(pos));
              if ArithmeticOp(t) == 0 then ok && !more && pos == Closed(tokens, old(pos))
              else more && Scan(ok, pos) == ScanSecond(tokens, old(pos) + 1)
      ensures var t := Peek(tokens, old(pos));
              ArithmeticOp(t) == 0 || (!IsOperand(Peek(tokens, old(pos) + 1)) && NothingAt(tokens, old(pos) + 2)) ==>
                ok == !more && p.end == old(p.end) && p.names == old(p.names) && p.code[..] == old(p.code[..])
      ensures var op := ArithmeticOp(Peek(tokens, old(pos)));
              op != 0 && ArgAt(tokens, old(pos) + 1, a) && RegisterArg(old(p.names), a) <= final && savedEnd <= old(p.end) ==>
                && p.names == RegisterArg(old(p.names), a) && newEnd == p.end
                && Inserted(old(p.code[..]), old(p.end), savedEnd, [ARITH_OP, op], ArgCode(final, a), p.code[..], p.end)
      decreases |tokens| - pos, 0
    {
      hide Budget, ArgAt, ArgCode, RelationOp, RegisterArg, Weight, ArithmeticOp, Appended, Inserted, ScanSecond, NothingAt;
      OperatorWeights();
      ghost var code0, end0 := p.code[..], p.end;
      newEnd := savedEnd;
      var t := ParseOp();
      if t == NoToken {
        Rewind();
        return true, false, p.end;
      } else if t == RightParen {
        return true, false, newEnd;
      }
      ArgIsRead(tokens, pos, a);
      ok := ParseSecond(a, final);
      if !ok {
        return false, true, newEnd;
      }
      ghost var code1, end1 := p.code[..], p.end;
      newEnd := p.InsertOperator(savedEnd, ARITH_OP, ArithmeticOp(t));
      if savedEnd <= end0 && Appended(code0, end0, ArgCode(final, a), code1, end1) {
        AppendedEnd(code0, end0, ArgCode(final, a), code1, end1);
        OperatorPut(code0, end0, savedEnd, [ARITH_OP, ArithmeticOp(t)], ArgCode(final, a), code1, end1, p.code[..], newEnd);
      }
      return true, true, newEnd;
    }

    /** A round of the loop stays on the track of the side. */
    method NextStep(savedEnd: nat, ghost ahead: bool, ghost done: nat, ghost s: Side, ghost pos0: nat, ghost names0: seq<string>,
                    ghost code0: seq<int>, ghost end0: nat, ghost final: NameTable)
      returns (ok: bool, more: bool, newEnd: nat, ghost done': nat)
      requires Valid() && Room() >= 1
      requires ahead ==>
                 && (SideAt(tokens, pos0, s) || BreaksAt(tokens, pos0, s)) && RegisterSide(names0, s) <= final
                 && done <= |s.steps| && pos == pos0 + |UpTo(s, done)| && savedEnd == (if done == 0 then end0 else p.end)
                 && Reached(code0, end0, s, names0, done, final, p.code[..], p.end, p.names)
      modifies this`pos, this`previous, this`token, p`end, p`names, p`error, p.code
      ensures Valid() && Room() >= old(Room()) && (ok && more ==> pos > old(pos))
      ensures ScanSteps(tokens, old(pos)) == if ok && more then ScanSteps(tokens, pos) else Scan(ok, pos)
      ensures ahead ==>
                && done' <= |s.steps| && Reached(code0, end0, s, names0, done', final, p.code[..], p.end, p.names)
                && if ok && more then pos == pos0 + |UpTo(s, done')| && newEnd == (if done' == 0 then end0 else p.end)
                   else done' == |s.steps|
      decreases |tokens| - pos, 1
    {
      hide Budget, Weight, ArithmeticOp, SideAt, BreaksAt, UpTo, ArgAt, ArgCode, RegisterArg, RegisterSide, Inserted, ScanSecond, ScanSteps,
        NothingAt, Reached, IsOperand;
      ghost var code, end, names, a := p.code[..], p.end, p.names, if done < |s.steps| then s.steps[done].arg else Single(s.first);
      done' := done;
      ScanStepsIs(tokens, pos);
      if ahead {
        StepThere(tokens, pos0, s, done, code0, end0, names0, final, code, end, names);
      }
      ok, more, newEnd := ParseStep(savedEnd, a, final);
      if ahead && done < |s.steps| {
        StepReached(code0, end0, s, names0, done, final, code, end, names, p.code[..], p.end, p.names);
        done' := done + 1;
      }
    }

    /** parse_expr emits the code of a side. The first operator goes before the first term, and each
        one after it goes where the code ended before its own argument. If the side breaks off behind an
        operator, the code emitted so far is left. */
    method ParseExpr(ghost s: Side, ghost final: NameTable) returns (ok: bool)
      requires Valid() && Room() >= 1
      modifies this`pos, this`previous, this`token, p`end, p`names, p`error, p.code
      ensures Valid() && Room() >= old(Room()) && Scan(ok, pos) == ScanExpr(tokens, old(pos)) && (ok ==> pos > old(pos))
      ensures NothingAt(tokens, old(pos)) ==> p.end == old(p.end) && p.names == old(p.names) && p.code[..] == old(p.code[..])
      ensures (SideAt(tokens, old(pos), s) || BreaksAt(tokens, old(pos), s)) && RegisterSide(old(p.names), s) <= final ==>
                && p.names == RegisterSide(old(p.names), s)
                && Appended(old(p.code[..]), old(p.end), SideCode(final, s), p.code[..], p.end)
      decreases |tokens| - pos, 2
    {
      hide Budget, EncodeExpr, TermExpr, TermToken, SideAt, BreaksAt, UpTo, RegisterSide, SideCode, Appended, ScanPrimary, ScanSteps, ScanExpr,
        NothingAt, Reached, IsOperand;
      ghost var pos0, names0, code0, end0 := pos, p.names, p.code[..], p.end;
      ghost var ahead := (SideAt(tokens, pos, s) || BreaksAt(tokens, pos, s)) && RegisterSide(names0, s) <= final;
      if ahead {
        Begins(tokens, pos, names0, s, final);
      }
      NothingScans(tokens, pos);
      ScanExprIs(tokens, pos);
      var savedEnd, more := p.end, true;
      ok := ParsePrimary(s, final);
      if !ok {
        return;
      }
      ghost var done: nat := 0;
      if ahead {
        FirstReached(code0, end0, s, names0, final, p.code[..], p.end, p.names);
      }
      while ok && more
        invariant Valid() && Room() >= old(Room())
        invariant ScanExpr(tokens, pos0) == if ok && more then ScanSteps(tokens, pos) else Scan(ok, pos)
        invariant ahead ==>
                    && done <= |s.steps| && Reached(code0, end0, s, names0, done, final, p.code[..], p.end, p.names)
                    && if ok && more then pos == pos0 + |UpTo(s, done)| && savedEnd == (if done == 0 then end0 else p.end)
                       else done == |s.steps|
        decreases |tokens| - pos, ok, more
      {
        ok, more, savedEnd, done := NextStep(savedEnd, ahead, done, s, pos0, names0, code0, end0, final);
      }
      if ahead {
        SideReached(code0, end0, s, names0, final, p.code[..], p.end, p.names);
      }
    }

    /** The middle of parse_comparison: read the relation and put it in the room left for it. */
    method ParseRelation(start: nat) returns (ok: bool)
      requires Valid() && start + 2 <= p.code.Length && p.end < p.code.Length
      modifies this`pos, this`previous, this`token, p`end, p`error, p.code
      ensures Valid() && ok == (RelationOp(Peek(tokens, old(pos))) != 0) && pos == After(tokens, old(pos))
      ensures if ok then Room() >= old(Room()) + 2 else p.end == start && p.code[..] == old(p.code[..])
      ensures ok && start + 2 <= old(p.end) ==>
                && p.end == old(p.end)
                && p.code[..] == old(p.code[..])[..start] + [CMP_OP, RelationOp(Peek(tokens, old(pos)))] + old(p.code[..])[start + 2..]
    {
      hide Budget, RelationOp, Weight;
      RelationWeights();
      var savedEnd := p.SetEnd(start);
      var rel := ParseCmp();
      if rel == NoToken {
        return false;
      }
      ghost var before := p.code[..];
      p.SetOperator(CMP_OP, RelationOp(rel));
      FillGap(before, start, [CMP_OP, RelationOp(rel)], p.code[..]);
      var _ := p.SetEnd(savedEnd);
      return true;
    }

    /** The start of parse_comparison: the left side, behind the room left for the operator, which is known
        only then, and the relation. */
    method ParseLeft(ghost a: Attempt, ghost final: NameTable) returns (ok: bool)
      requires Valid() && Room() >= 3
      modifies this`pos, this`previous, this`token, p`end, p`names, p`error, p.code
      ensures Valid() && Room() >= old(Room()) - if ok then 0 else 2
      ensures var left := ScanExpr(tokens, old(pos));
              Scan(ok, pos) == if !left.ok then left
                               else Scan(RelationOp(Peek(tokens, left.pos)) != 0, After(tokens, left.pos))
      ensures AttemptAt(tokens, old(pos), a) && RegisterAttempt(old(p.names), a) <= final ==>
                && ok == !NoRelationIn(a)
                && (!HasRight(a) ==> p.names == RegisterAttempt(old(p.names), a))
                && (HasRight(a) ==> p.names == RegisterSide(old(p.names), LeftSide(a)))
                && if ok then Appended(old(p.code[..]), old(p.end), LeftCode(final, a), p.code[..], p.end)
                   else Clear(old(p.code[..]), old(p.end)) ==> Leaves(p.code[..], old(p.code[..p.end]), final, a)
    {
      hide Budget, RegisterAttempt, SideCode, SideAt, BreaksAt, RelationOp, SideTokens, Appended, Clear, ScanExpr, NothingAt, Leaves,
        AttemptAt, Peek, LeftCode, LeftSide, RelationOf;
      ghost var pos0, code0, start, l := pos, p.code[..], p.end, LeftSide(a);
      ghost var ahead := AttemptAt(tokens, pos, a) && RegisterAttempt(p.names, a) <= final;
      ghost var clear := Clear(code0, start);
      if ahead {
        AttemptStarts(tokens, pos, a);
        AttemptNames(p.names, a, final);
      }
      var savedEnd := p.JumpToOperand();
      ok := ParseExpr(l, final);
      ghost var code1, end1 := p.code[..], p.end;
      if ahead {
        if !NoRelationIn(a) {
          AppendedEnd(code0, start + 2, SideCode(final, l), code1, end1);
        } else if clear {
          GapLeft(code0, start, final, a, code1, end1);
        }
      }
      if !ok {
        return;
      }
      ok := ParseRelation(savedEnd);
      if !ok {
        BudgetFalls(tokens, pos0, pos);
        return;
      }
      if ahead {
        Filled(code0, start, final, a, code1, end1, p.code[..]);
      }
    }

    /** parse_comparison */
    method ParseComparison(ghost a: Attempt, ghost final: NameTable) returns (ok: bool)
      requires Valid() && Room() >= 3
      modifies this`pos, this`previous, this`token, p`end, p`names, p`error, p.code
      ensures Valid() && Scan(ok, pos) == ScanComparison(tokens, old(pos))
      ensures Room() >= old(Room()) - if ok then 0 else 2
      ensures AttemptAt(tokens, old(pos), a) && RegisterAttempt(old(p.names), a) <= final ==>
                && p.names == RegisterAttempt(old(p.names), a)
                && (a.Done? ==> Appended(old(p.code[..]), old(p.end), ComparisonCode(final, a.c), p.code[..], p.end))
                && (!a.Done? && Clear(old(p.code[..]), old(p.end)) ==> Leaves(p.code[..], old(p.code[..p.end]), final, a))
    {
      hide Budget, RegisterAttempt, RegisterSide, LeftCode, SideCode, SideAt, BreaksAt, RelationOp, SideTokens, Appended, Clear, ScanExpr,
        NothingAt, Leaves, AttemptAt, Peek, ComparisonCode;
      ghost var code0, start, r := p.code[..], p.end, RightSide(a);
      ghost var ahead := AttemptAt(tokens, pos, a) && RegisterAttempt(p.names, a) <= final;
      if ahead {
        AttemptStarts(tokens, pos, a);
        AttemptNames(p.names, a, final);
      }
      ok := ParseLeft(a, final);
      if !ok {
        return;
      }
      ghost var code1, end1 := p.code[..], p.end;
      if ahead && a.NoRight? && Clear(code0, start) {
        NoRightLeft(code0, start, final, a, code1, end1);
      }
      ok := ParseExpr(r, final);
      if ahead && HasRight(a) {
        BothSides(code0, start, final, a, code1, end1, p.code[..], p.end);
      }
    }

    /** What follows a connective: a clause in parentheses, or a comparison. If the comparison fails,
        the status is 0, which is no error to the callers. */
    method ParseProposition(ghost a: Attempt, ghost final: NameTable) returns (status: int)
      requires Valid() && Room() >= 3
      modifies this`pos, this`previous, this`token, p`end, p`names, p`error, p.code
      ensures Valid() && Reading(status, pos) == ScanProposition(tokens, old(pos))
      ensures !AqlError(status) ==> Room() >= old(Room()) - if status == OK then 0 else 2
      ensures AttemptAt(tokens, old(pos), a) && RegisterAttempt(old(p.names), a) <= final ==>
                && p.names == RegisterAttempt(old(p.names), a)
                && (a.Done? ==> Appended(old(p.code[..]), old(p.end), ComparisonCode(final, a.c), p.code[..], p.end))
                && (!a.Done? && Clear(old(p.code[..]), old(p.end)) ==> Leaves(p.code[..], old(p.code[..p.end]), final, a))
      decreases |tokens| - pos, 1
    {
      hide Budget, RegisterAttempt, AttemptAt, ComparisonCode, Appended, Clear, Leaves, ScanComparison, ScanWhere;
      AttemptScans(tokens, pos, a);
      Next();
      if token == LeftParen {
        status := ParseWhere(Last(Comparison(Side(Number(0), []), Equal, Side(Number(0), []))), Ending(false, false, a), final);
        if AqlError(status) {
          return SYNTAX_ERROR;
        }
        Next();
        return if token == RightParen then OK else SYNTAX_ERROR;
      }
      Rewind();
      var ok := ParseComparison(a, final);
      return if ok then OK else 0;
    }

    /** One round of the loop in parse_where: a connective, put before everything from savedEnd
        on, and the next proposition. */
    method ParseConjunct(savedEnd: nat, ghost a: Attempt, ghost final: NameTable)
      returns (status: int, more: bool, newEnd: nat)
      requires Valid() && Room() >= 3
      modifies this`pos, this`previous, this`token, p`end, p`names, p`error, p.code
      ensures Valid() && if IsLink(Peek(tokens, old(pos))) then
                           Reading(status, pos) == ScanProposition(tokens, old(pos) + 1) && more == (status == OK)
                         else
                           && Reading(status, pos) == Reading(OK, old(pos)) && !more
                           && p.end == old(p.end) && p.names == old(p.names) && p.code[..] == old(p.code[..])
      ensures !AqlError(status) ==> Room() >= old(Room()) - if status == OK then 0 else 2
      ensures var t := Peek(tokens, old(pos));
              IsLink(t) && AttemptAt(tokens, old(pos) + 1, a) && RegisterAttempt(old(p.names), a) <= final
              && savedEnd < old(p.end) ==>
                var op := [CMP_OP, Connective(t == And)];
                && p.names == RegisterAttempt(old(p.names), a)
                && (a.Done? ==>
                      && newEnd == old(p.end) + 2
                      && Inserted(old(p.code[..]), old(p.end), savedEnd, op, ComparisonCode(final, a.c), p.code[..], p.end))
                && (!a.Done? && Clear(old(p.code[..]), old(p.end)) ==>
                      Leaves(p.code[..], old(p.code[..p.end])[..savedEnd] + op + old(p.code[..p.end])[savedEnd..], final, a))
      decreases |tokens| - pos, 0
    {
      hide Budget, RegisterAttempt, AttemptAt, ComparisonCode, Appended, Inserted, Clear, Leaves, ScanProposition;
      ghost var code0, end0 := p.code[..], p.end;
      newEnd := savedEnd;
      Next();
      if token != And && token != Or {
        Rewind();
        return OK, false, newEnd;
      }
      ghost var op := [CMP_OP, Connective(token == And)];
      newEnd := p.InsertOperator(savedEnd, CMP_OP, Connective(token == And));
      ghost var code1, end1 := p.code[..], p.end;
      if savedEnd < end0 {
        ConnectivePut(code0, end0, savedEnd, op, code1, end1);
      }
      status := ParseProposition(a, final);
      more := status == OK;
      if savedEnd < end0 && a.Done? && Appended(code1, end1, ComparisonCode(final, a.c), p.code[..], p.end) {
        ConjunctPut(code0, end0, savedEnd, op, code1, end1, ComparisonCode(final, a.c), p.code[..], p.end);
      }
    }

    /** A round of the loop stays on the track of the clause. */
    method NextConjunct(savedEnd: nat, ghost ahead: bool, ghost pre: seq<int>, ghost rem: Clause, ghost c: Clause, ghost ending: Ending,
                        ghost names0: seq<string>, ghost pos0: nat, ghost final: NameTable)
      returns (status: int, more: bool, newEnd: nat, ghost pre': seq<int>, ghost rem': Clause)
      requires Valid() && Room() >= 3
      requires ahead ==>
                 && OnTrack(tokens, pos, p.names, p.code[..], p.end, pre, rem, c, ending, names0, pos0, final) && |pre| == savedEnd
                 && EndingAt(tokens, pos0 + |Tokens(c)|, ending) && RegisterEnding(Register(names0, c), ending) <= final
      modifies this`pos, this`previous, this`token, p`end, p`names, p`error, p.code
      ensures Valid() && if IsLink(Peek(tokens, old(pos))) then
                           Reading(status, pos) == ScanProposition(tokens, old(pos) + 1) && more == (status == OK)
                         else Reading(status, pos) == Reading(OK, old(pos)) && !more
      ensures !AqlError(status) ==> Room() >= old(Room()) - if status == OK then 0 else 2
      ensures ahead ==>
                if more then
                  OnTrack(tokens, pos, p.names, p.code[..], p.end, pre', rem', c, ending, names0, pos0, final) && |pre'| == newEnd
                else
                  Ends(tokens, p.names, p.code[..], p.end, c, ending, names0, final)
      decreases |tokens| - pos, 1
    {
      hide Budget, ClauseAt, RegisterComparison, Register, Tokens, ComparisonCode, AttemptAt, OnTrack, Ends, EndingAt, RegisterEnding,
        RegisterAttempt, Connective, NextPre, Inserted, Clear, Leaves, ScanProposition, Peek, IsLink;
      ghost var code0, end0, names1, pos1 := p.code[..], p.end, p.names, pos;
      ghost var a := if rem.More? then Done(rem.rest.c) else ending.a;
      pre', rem' := pre, rem;
      if ahead {
        Advance(tokens, pos, p.names, code0, end0, pre, rem, c, ending, names0, pos0, final);
      }
      status, more, newEnd := ParseConjunct(savedEnd, a, final);
      if ahead {
        if rem.More? {
          pre', rem' := NextPre(pre, rem, final), rem.rest;
          Advanced(tokens, pos1, names1, code0, end0, pre, rem, c, ending, names0, pos0, final, pos, p.names, p.code[..], p.end);
        } else {
          Finish(tokens, pos1, names1, code0, end0, pre, rem, c, ending, names0, pos0, final, pos, p.names, p.code[..], p.end);
        }
      }
    }

    /** parse_where: a connective is put before the last comparison, so the clause groups to the
        right whatever its connectives are. Behind a comparison that fails the code of what comes before
        it is left, with the connective in front of the last comparison. */
    method ParseWhere(ghost c: Clause, ghost ending: Ending, ghost final: NameTable) returns (status: int)
      requires Valid() && Room() >= 3
      modifies this`pos, this`previous, this`token, p`end, p`names, p`error, p.code
      ensures Valid() && Reading(status, pos) == ScanWhere(tokens, old(pos)) && (status == OK ==> !IsLink(Peek(tokens, pos)))
      ensures !AqlError(status) ==> Room() >= old(Room()) - if status == OK then 0 else 2
      ensures var end := old(pos) + |Tokens(c)|;
              && ClauseAt(tokens, old(pos), c) && EndingAt(tokens, end, ending)
              && RegisterEnding(Register(old(p.names), c), ending) <= final
              && old(p.end) == 0 && (ending.broken ==> Clear(old(p.code[..]), 0)) ==>
                && p.names == RegisterEnding(Register(old(p.names), c), ending)
                && if ending.broken then
                     status == 0 && Leaves(p.code[..], ChainCode(final, c, ending.conj), final, ending.a)
                   else
                     Reading(status, pos) == Reading(OK, end) && p.code[..p.end] == ClauseCode(final, c)
      decreases |tokens| - pos, 2
    {
      hide Budget, ClauseAt, RegisterComparison, Register, Tokens, ComparisonCode, ChainCode, ClauseCode, AttemptAt, OnTrack, Ends,
        EndingAt, RegisterEnding, RegisterAttempt, Appended, Clear, Leaves, ScanProposition, ScanComparison, ScanConjuncts, Peek,
        IsLink;
      ghost var names0, pos0, code0 := p.names, pos, p.code[..];
      WhereEndsThere(tokens, pos);
      ghost var ahead := ClauseAt(tokens, pos, c) && EndingAt(tokens, pos + |Tokens(c)|, ending)
                         && RegisterEnding(Register(names0, c), ending) <= final
                         && p.end == 0 && (ending.broken ==> Clear(code0, 0));
      if ahead {
        RegisterEndingGrows(Register(names0, c), ending);
        NotRightParen(tokens, pos + |Tokens(c)|, ending);
        Starts(tokens, pos, names0, c, final);
      }
      var ok := ParseComparison(Done(c.c), final);
      if !ok {
        return SYNTAX_ERROR;
      }
      if ahead {
        Begin(tokens, pos0, names0, code0, c, ending, final, pos, p.names, p.code[..], p.end);
      }
      var savedEnd, more := 0, true;
      ghost var rem, pre: seq<int> := c, [];
      status := OK;
      while more
        invariant Valid() && (more ==> status == OK)
        invariant ScanWhere(tokens, pos0) == if more then ScanConjuncts(tokens, pos) else Reading(status, pos)
        invariant !AqlError(status) ==> Room() >= old(Room()) - if status == OK then 0 else 2
        invariant ahead ==>
                    if more then
                      OnTrack(tokens, pos, p.names, p.code[..], p.end, pre, rem, c, ending, names0, pos0, final) && |pre| == savedEnd
                    else
                      Ends(tokens, p.names, p.code[..], p.end, c, ending, names0, final)
        decreases |tokens| - pos, more
      {
        ConjunctIs(tokens, pos);
        status, more, savedEnd, pre, rem := NextConjunct(savedEnd, ahead, pre, rem, c, ending, names0, pos0, final);
      }
      if ahead {
        Finished(tokens, pos0, names0, c, ending, final, p.names, p.code[..], p.end);
      }
    }
  }

  // ----- How code is put into the buffer -----

  /** The part has been put at the end of the code, and the buffer is untouched elsewhere. */
  ghost predicate Appended(code0: seq<int>, end0: nat, part: seq<int>, code: seq<int>, end: nat) {
    end == end0 + |part| <= |code0| && code == code0[..end0] + part + code0[end..]
  }

  /** An operator has been put at `from` and the part at the end. */
  ghost predicate Inserted(code0: seq<int>, end0: nat, from: nat, op: seq<int>, part: seq<int>, code: seq<int>, end: nat) {
    && from <= end0 && end == end0 + |op| + |part| <= |code0|
    && code == code0[..from] + op + code0[from..end0] + part + code0[end..]
  }

  /** The words from `end` on are zero. */
  ghost predicate Clear(code: seq<int>, end: nat) {
    forall k | end <= k < |code| :: code[k] == 0
  }

  lemma AppendedEnd(code0: seq<int>, end0: nat, part: seq<int>, code: seq<int>, end: nat)
    requires Appended(code0, end0, part, code, end)
    ensures end == end0 + |part| <= |code| == |code0|
  {
  }

  lemma OperatorPut(code0: seq<int>, end0: nat, from: nat, op: seq<int>, part: seq<int>, code1: seq<int>, end1: nat,
                    code: seq<int>, end: nat)
    requires Appended(code0, end0, part, code1, end1) && from <= end0 && |op| == 2 && end == end1 + 2 <= |code1| == |code|
    requires code[..end] == code1[..from] + op + code1[from..end1] && code[end..] == code1[end..]
    ensures Inserted(code0, end0, from, op, part, code, end)
  {
    assert code1[from..end1] == code0[from..end0] + part;
    assert code1[end1 + 2..] == code0[end1 + 2..];
    assert code == code[..end] + code[end..];
  }

  lemma ArgIsRead(tokens: seq<Token>, k: nat, a: Arg)
    requires k <= |tokens|
    ensures ArgAt(tokens, k, a) ==> ScanSecond(tokens, k).ok
  {
    hide ArgAt, ScanSecond;
    if ArgAt(tokens, k, a) {
      ArgScans(tokens, k, a);
    }
  }

  /** Where parse_expr stands: the first n steps of the side have been compiled. */
  ghost predicate Reached(code0: seq<int>, end0: nat, s: Side, names0: seq<string>, n: nat, final: NameTable,
                          code: seq<int>, end: nat, names: seq<string>)
  {
    && n <= |s.steps| && names == RegisterUpTo(names0, s, n) && names0 <= names
    && Appended(code0, end0, CodeUpTo(final, s, n), code, end)
  }

  lemma Begins(tokens: seq<Token>, k: nat, names: seq<string>, s: Side, final: NameTable)
    requires k <= |tokens| && (SideAt(tokens, k, s) || BreaksAt(tokens, k, s)) && RegisterSide(names, s) <= final
    ensures Peek(tokens, k) == TermToken(s.first) && ScanPrimary(tokens, k) == Scan(true, k + 1)
    ensures RegisterTerm(names, s.first) <= final && |UpTo(s, 0)| == 1
  {
    hide EncodeExpr, TermExpr, StepAt, RegisterTerm;
    RegisterUpToGrows(names, s, 0, |s.steps|);
  }

  lemma FirstReached(code0: seq<int>, end0: nat, s: Side, names0: seq<string>, final: NameTable,
                     code: seq<int>, end: nat, names: seq<string>)
    requires names == RegisterTerm(names0, s.first) && Appended(code0, end0, EncodeExpr(TermExpr(final, s.first)), code, end)
    ensures Reached(code0, end0, s, names0, 0, final, code, end, names)
  {
    hide EncodeExpr, TermExpr, RegisterTerm, Appended;
    RegisterUpToGrows(names0, s, 0, 0);
  }

  /** What the next round finds. */
  lemma StepThere(tokens: seq<Token>, k: nat, s: Side, n: nat, code0: seq<int>, end0: nat, names0: seq<string>, final: NameTable,
                  code: seq<int>, end: nat, names: seq<string>)
    requires n <= |s.steps| && (SideAt(tokens, k, s) || BreaksAt(tokens, k, s)) && RegisterSide(names0, s) <= final
    requires Reached(code0, end0, s, names0, n, final, code, end, names)
    ensures end0 <= end
    ensures n < |s.steps| ==>
              && Peek(tokens, k + |UpTo(s, n)|) == s.steps[n].op && ArithmeticOp(s.steps[n].op) != 0
              && ArgAt(tokens, k + |UpTo(s, n)| + 1, s.steps[n].arg) && RegisterArg(names, s.steps[n].arg) <= final
              && ScanSecond(tokens, k + |UpTo(s, n)| + 1) == Scan(true, k + |UpTo(s, n + 1)|)
    ensures n == |s.steps| ==>
              var i := k + |UpTo(s, n)|;
              ArithmeticOp(Peek(tokens, i)) == 0 || (!IsOperand(Peek(tokens, i + 1)) && NothingAt(tokens, i + 2))
  {
    hide ArgAt, RegisterArg, ArgTokens, UpTo, RegisterUpTo, ArithmeticOp, ScanSecond, CodeUpTo, NothingAt;
    if n < |s.steps| {
      RegisterUpToGrows(names0, s, n + 1, |s.steps|);
      RegisterUpToStep(names0, s, n);
      assert StepAt(tokens, k + |UpTo(s, n)|, s.steps[n]);
      StepScansThere(tokens, k + |UpTo(s, n)|, s.steps[n]);
      UpToStep(s, n + 1);
    }
  }

  lemma StepReached(code0: seq<int>, end0: nat, s: Side, names0: seq<string>, n: nat, final: NameTable,
                    code1: seq<int>, end1: nat, names1: seq<string>, code: seq<int>, end: nat, names: seq<string>)
    requires n < |s.steps| && Reached(code0, end0, s, names0, n, final, code1, end1, names1)
    requires names == RegisterArg(names1, s.steps[n].arg)
    requires var op := [ARITH_OP, ArithmeticOp(s.steps[n].op)];
             Inserted(code1, end1, if n == 0 then end0 else end1, op, ArgCode(final, s.steps[n].arg), code, end)
    ensures Reached(code0, end0, s, names0, n + 1, final, code, end, names)
  {
    hide RegisterUpTo, RegisterArg, ArgCode, ArithmeticOp, Appended, Inserted;
    RegisterUpToStep(names0, s, n);
    RegisterUpToGrows(names0, s, n + 1, n + 1);
    AppendedInserted(code0, end0, CodeUpTo(final, s, n), code1, end1, [ARITH_OP, ArithmeticOp(s.steps[n].op)],
                     ArgCode(final, s.steps[n].arg), code, end);
  }

  /** An operator that is put in front of what has been appended, or behind it. */
  lemma AppendedInserted(code0: seq<int>, end0: nat, x: seq<int>, code1: seq<int>, end1: nat, op: seq<int>, part: seq<int>,
                         code: seq<int>, end: nat)
    requires Appended(code0, end0, x, code1, end1)
    ensures Inserted(code1, end1, end0, op, part, code, end) ==> Appended(code0, end0, op + x + part, code, end)
    ensures Inserted(code1, end1, end1, op, part, code, end) ==> Appended(code0, end0, x + op + part, code, end)
  {
    assert code1[end0..end1] == x && code1[..end1] == code0[..end0] + x && code1[..end0] == code0[..end0];
    assert end >= end1 && end <= |code1| ==> code1[end..] == code0[end..];
  }

  lemma SideReached(code0: seq<int>, end0: nat, s: Side, names0: seq<string>, final: NameTable,
                    code: seq<int>, end: nat, names: seq<string>)
    requires Reached(code0, end0, s, names0, |s.steps|, final, code, end, names)
    ensures names == RegisterSide(names0, s) && Appended(code0, end0, SideCode(final, s), code, end)
  {
    hide RegisterUpTo, CodeUpTo, Appended;
  }

  lemma StepScansThere(tokens: seq<Token>, i: nat, x: Step)
    requires StepAt(tokens, i, x)
    ensures i < |tokens| && ScanSecond(tokens, i + 1) == Scan(true, i + 1 + |ArgTokens(x.arg)|)
  {
    hide ArgAt, ArithmeticOp, ArgTokens, ScanSecond;
    OperatorWeights();
    ArgScans(tokens, i + 1, x.arg);
  }

  lemma RegisterUpToStep(names: seq<string>, s: Side, n: nat)
    requires n < |s.steps|
    ensures RegisterUpTo(names, s, n + 1) == RegisterArg(RegisterUpTo(names, s, n), s.steps[n].arg)
  {
    hide RegisterArg;
  }

  // ----- Attempts -----

  ghost function LeftSide(a: Attempt): Side {
    match a
    case Done(c) => c.l
    case NoLeft => Side(Number(0), [])
    case HalfLeft(l) => l
    case NoRelation(l) => l
    case NoRight(l, _) => l
    case HalfRight(l, _, _) => l
  }

  ghost function RightSide(a: Attempt): Side {
    match a
    case Done(c) => c.r
    case HalfRight(_, _, r) => r
    case _ => Side(Number(0), [])
  }

  ghost function RelationOf(a: Attempt): Token {
    match a
    case Done(c) => c.rel
    case NoRight(_, rel) => rel
    case HalfRight(_, rel, _) => rel
    case _ => NoToken
  }

  ghost predicate NoRelationIn(a: Attempt) {
    a.NoLeft? || a.HalfLeft? || a.NoRelation?
  }

  ghost predicate HasRight(a: Attempt) {
    a.Done? || a.HalfRight?
  }

  ghost function LeftCode(names: NameTable, a: Attempt): seq<int> {
    [CMP_OP, RelationOp(RelationOf(a))] + SideCode(names, LeftSide(a))
  }

  /** What parse_comparison comes to. */
  lemma AttemptStarts(tokens: seq<Token>, k: nat, a: Attempt)
    requires k <= |tokens| && AttemptAt(tokens, k, a)
    ensures if a.NoLeft? then NothingAt(tokens, k) else SideAt(tokens, k, LeftSide(a)) || BreaksAt(tokens, k, LeftSide(a))
    ensures a.NoLeft? || a.HalfLeft? ==> !ScanExpr(tokens, k).ok && !ScanComparison(tokens, k).ok
    ensures !a.NoLeft? && !a.HalfLeft? ==>
              var end := k + |SideTokens(LeftSide(a))|;
              && end <= |tokens| && ScanExpr(tokens, k) == Scan(true, end)
              && (if a.NoRelation? then RelationOp(Peek(tokens, end)) == 0 && !ScanComparison(tokens, k).ok
                  else RelationOp(Peek(tokens, end)) == RelationOp(RelationOf(a)) != 0 && end < |tokens|
                       && ScanComparison(tokens, k) == ScanExpr(tokens, end + 1))
              && (a.NoRight? ==> NothingAt(tokens, end + 1) && !ScanExpr(tokens, end + 1).ok)
              && (HasRight(a) ==> SideAt(tokens, end + 1, RightSide(a)) || BreaksAt(tokens, end + 1, RightSide(a)))
              && (a.HalfRight? ==> !ScanExpr(tokens, end + 1).ok)
  {
    hide SideAt, BreaksAt, ScanExpr, NothingAt, RelationOp, SideTokens;
    RelationWeights();
    match a
    case Done(c) => SideScans(tokens, k, c.l);
    case NoLeft => NothingScans(tokens, k);
    case HalfLeft(l) => BreakScans(tokens, k, l);
    case NoRelation(l) => SideScans(tokens, k, l);
    case NoRight(l, _) =>
      SideScans(tokens, k, l);
      NothingScans(tokens, k + |SideTokens(l)| + 1);
    case HalfRight(l, _, r) =>
      SideScans(tokens, k, l);
      BreakScans(tokens, k + |SideTokens(l)| + 1, r);
  }

  lemma AttemptNames(names: seq<string>, a: Attempt, final: seq<string>)
    requires RegisterAttempt(names, a) <= final
    ensures RegisterSide(names, LeftSide(a)) <= final || a.NoLeft?
    ensures !HasRight(a) && !a.NoLeft? ==> RegisterAttempt(names, a) == RegisterSide(names, LeftSide(a))
    ensures a.NoLeft? ==> RegisterAttempt(names, a) == names
    ensures HasRight(a) ==> RegisterSide(RegisterSide(names, LeftSide(a)), RightSide(a)) == RegisterAttempt(names, a)
  {
    hide RegisterSide;
    RegisterSideGrows(RegisterSide(names, LeftSide(a)), RightSide(a));
  }

  lemma FillGap(before: seq<int>, start: nat, op: seq<int>, code: seq<int>)
    requires |op| == 2 && start + 2 <= |before| == |code|
    requires code[..start + 2] == before[..start] + op && code[start + 2..] == before[start + 2..]
    ensures code == before[..start] + op + before[start + 2..]
  {
    assert code == code[..start + 2] + code[start + 2..];
  }

  /** The room left for the operator is still empty. */
  lemma GapLeft(code0: seq<int>, start: nat, names: NameTable, a: Attempt, code: seq<int>, end: nat)
    requires NoRelationIn(a) && start + 2 <= |code0| && Clear(code0, start)
    requires if a.NoLeft? then code == code0 else Appended(code0, start + 2, SideCode(names, LeftSide(a)), code, end)
    ensures Leaves(code, code0[..start], names, a)
  {
    assert code[..start] == code0[..start] && code[start] == code0[start];
    assert code0[..start] + [] == code0[..start];
  }

  lemma Filled(code0: seq<int>, start: nat, names: NameTable, a: Attempt, code1: seq<int>, end: nat, code: seq<int>)
    requires start + 2 <= |code0| && Appended(code0, start + 2, SideCode(names, LeftSide(a)), code1, end)
    requires code == code1[..start] + [CMP_OP, RelationOp(RelationOf(a))] + code1[start + 2..]
    ensures Appended(code0, start, LeftCode(names, a), code, end)
  {
    hide RelationOp, SideCode;
    assert code1[start + 2..] == SideCode(names, LeftSide(a)) + code0[end..];
    assert code1[..start] == code0[..start];
  }

  lemma NoRightLeft(code0: seq<int>, start: nat, names: NameTable, a: Attempt, code: seq<int>, end: nat)
    requires a.NoRight? && Clear(code0, start)
    requires Appended(code0, start, LeftCode(names, a), code, end)
    ensures Leaves(code, code0[..start], names, a)
  {
    hide RelationOp, SideCode;
    assert code[..end] == code0[..start] + ([CMP_OP, RelationOp(a.rel)] + SideCode(names, a.l));
  }

  lemma BothSides(code0: seq<int>, start: nat, names: NameTable, a: Attempt, code1: seq<int>, end1: nat, code: seq<int>, end: nat)
    requires HasRight(a)
    requires Appended(code0, start, LeftCode(names, a), code1, end1)
    requires Appended(code1, end1, SideCode(names, RightSide(a)), code, end)
    ensures a.Done? ==> Appended(code0, start, ComparisonCode(names, a.c), code, end)
    ensures !a.Done? ==> Leaves(code, code0[..start], names, a)
  {
    hide RelationOp, SideCode, Appended;
    AppendedMore(code0, start, LeftCode(names, a), code1, end1, SideCode(names, RightSide(a)), code, end);
    AppendedContains(code0, start, AttemptCode(names, a), code, end);
  }

  lemma AppendedMore(code0: seq<int>, end0: nat, x: seq<int>, code1: seq<int>, end1: nat, y: seq<int>, code: seq<int>, end: nat)
    requires Appended(code0, end0, x, code1, end1) && Appended(code1, end1, y, code, end)
    ensures Appended(code0, end0, x + y, code, end)
  {
    assert code1[..end1] == code0[..end0] + x && code1[end..] == code0[end..];
  }

  lemma AppendedContains(code0: seq<int>, end0: nat, part: seq<int>, code: seq<int>, end: nat)
    requires Appended(code0, end0, part, code, end)
    ensures Contains(code, 0, code0[..end0] + part)
  {
  }

  // ----- The loop of parse_where -----

  /** What follows a clause: nothing more, or a connective and a comparison that fails. */
  datatype Ending = Ending(broken: bool, conj: bool, a: Attempt)

  ghost predicate EndingAt(tokens: seq<Token>, end: nat, ending: Ending) {
    if ending.broken then
      Peek(tokens, end) == LinkToken(ending.conj) && !ending.a.Done? && AttemptAt(tokens, end + 1, ending.a)
    else
      EndsClause(Peek(tokens, end))
  }

  ghost function RegisterEnding(names: seq<string>, ending: Ending): seq<string> {
    if ending.broken then RegisterAttempt(names, ending.a) else names
  }

  /** Where parse_where stands: `rem` is the part of the clause whose first comparison was
      emitted last, and `pre` is the code before that comparison. */
  ghost predicate OnTrack(tokens: seq<Token>, pos: nat, names: seq<string>, code: seq<int>, end: nat, pre: seq<int>, rem: Clause,
                          c: Clause, ending: Ending, names0: seq<string>, pos0: nat, final: NameTable)
  {
    && end <= |code| && code[..end] == pre + ComparisonCode(final, rem.c) && (ending.broken ==> Clear(code, end))
    && pre + ClauseCode(final, rem) == ClauseCode(final, c)
    && pre + ChainCode(final, rem, ending.conj) == ChainCode(final, c, ending.conj)
    && Register(names0, c) == (if rem.More? then Register(names, rem.rest) else names)
    && pos0 + |Tokens(c)| == pos + (if rem.More? then 1 + |Tokens(rem.rest)| else 0)
    && (rem.More? ==> Peek(tokens, pos) == LinkToken(rem.conj) && ClauseAt(tokens, pos + 1, rem.rest))
  }

  /** Where it ends. */
  ghost predicate Ends(tokens: seq<Token>, names: seq<string>, code: seq<int>, end: nat, c: Clause, ending: Ending,
                       names0: seq<string>, final: NameTable)
  {
    && names == RegisterEnding(Register(names0, c), ending)
    && if ending.broken then Leaves(code, ChainCode(final, c, ending.conj), final, ending.a)
       else end <= |code| && code[..end] == ClauseCode(final, c)
  }

  /** The code before the next comparison, once the connective has been put before this one. */
  ghost function NextPre(pre: seq<int>, rem: Clause, final: NameTable): seq<int>
    requires rem.More?
  {
    pre + [CMP_OP, Connective(rem.conj)] + ComparisonCode(final, rem.c)
  }

  lemma ConjunctIs(tokens: seq<Token>, k: nat)
    requires k <= |tokens|
    ensures IsLink(Peek(tokens, k)) ==> k < |tokens|
    ensures ScanConjuncts(tokens, k) == if !IsLink(Peek(tokens, k)) then Reading(OK, k)
                                        else
                                          var next := ScanProposition(tokens, k + 1);
                                          if next.status == OK then ScanConjuncts(tokens, next.pos) else next
  {
    hide ScanProposition;
  }

  lemma AttemptScans(tokens: seq<Token>, k: nat, a: Attempt)
    requires k <= |tokens|
    ensures AttemptAt(tokens, k, a) ==> Peek(tokens, k) != LeftParen && ScanComparison(tokens, k).ok == a.Done?
  {
    hide SideAt, BreaksAt, ScanExpr, RelationOp, SideTokens, Peek;
    if AttemptAt(tokens, k, a) {
      if a.Done? {
        ComparisonScans(tokens, k, a.c);
      } else {
        AttemptStarts(tokens, k, a);
        FirstToken(tokens, k, a);
      }
    }
  }

  lemma ConnectivePut(code0: seq<int>, end0: nat, from: nat, op: seq<int>, code1: seq<int>, end1: nat)
    requires from < end0 && |op| == 2 && end1 == end0 + 2 <= |code0| == |code1|
    requires code1[..end1] == code0[..from] + op + code0[from..end0] && code1[end1..] == code0[end1..]
    ensures code1[..end1] == code0[..end0][..from] + op + code0[..end0][from..]
    ensures Clear(code0, end0) ==> Clear(code1, end1)
  {
    assert code0[..end0][from..] == code0[from..end0];
    assert forall k | end1 <= k < |code1| :: code1[k] == code1[end1..][k - end1] == code0[k];
  }

  lemma ConjunctPut(code0: seq<int>, end0: nat, from: nat, op: seq<int>, code1: seq<int>, end1: nat, part: seq<int>,
                    code: seq<int>, end: nat)
    requires from < end0 && |op| == 2 && end1 == end0 + 2 <= |code0| == |code1|
    requires code1[..end1] == code0[..from] + op + code0[from..end0] && code1[end1..] == code0[end1..]
    requires Appended(code1, end1, part, code, end)
    ensures Inserted(code0, end0, from, op, part, code, end)
  {
    assert code1[end..] == code1[end1..][end - end1..];
    assert code0[end..] == code0[end1..][end - end1..];
  }

  lemma FirstToken(tokens: seq<Token>, k: nat, a: Attempt)
    requires AttemptAt(tokens, k, a) && !a.Done?
    ensures Peek(tokens, k) != LeftParen
  {
    hide StepAt, RelationOp, SideTokens;
  }

  lemma RegisterAttemptGrows(names: seq<string>, a: Attempt)
    ensures names <= RegisterAttempt(names, a)
  {
    hide RegisterSide;
    RegisterSideGrows(names, LeftSide(a));
    RegisterSideGrows(RegisterSide(names, LeftSide(a)), RightSide(a));
  }

  lemma Starts(tokens: seq<Token>, pos: nat, names: seq<string>, c: Clause, final: NameTable)
    requires ClauseAt(tokens, pos, c) && Register(names, c) <= final
    ensures pos <= |tokens| && ScanComparison(tokens, pos).ok
    ensures AttemptAt(tokens, pos, Done(c.c)) && RegisterAttempt(names, Done(c.c)) <= final
  {
    hide ComparisonAt, RegisterComparison, Register, ScanComparison;
    ComparisonScans(tokens, pos, c.c);
    RegisterGrows(names, c);
  }

  lemma NotClosed(tokens: seq<Token>, k: nat, c: Clause)
    requires ClauseAt(tokens, k, c) && Peek(tokens, k + |Tokens(c)|) != RightParen
    ensures k + |ComparisonTokens(c.c)| <= |tokens|
    ensures ScanComparison(tokens, k) == Scan(true, k + |ComparisonTokens(c.c)|) && Peek(tokens, k) != LeftParen
  {
    hide ComparisonAt, ScanComparison, ComparisonTokens;
    ComparisonScans(tokens, k, c.c);
  }

  lemma Begin(tokens: seq<Token>, pos0: nat, names0: seq<string>, code0: seq<int>, c: Clause, ending: Ending, final: NameTable,
              pos: nat, names: seq<string>, code: seq<int>, end: nat)
    requires ClauseAt(tokens, pos0, c) && Peek(tokens, pos0 + |Tokens(c)|) != RightParen
    requires ScanComparison.requires(tokens, pos0) && Scan(true, pos) == ScanComparison(tokens, pos0)
    requires names == RegisterAttempt(names0, Done(c.c)) && Appended(code0, 0, ComparisonCode(final, c.c), code, end)
    requires ending.broken ==> Clear(code0, 0)
    ensures OnTrack(tokens, pos, names, code, end, [], c, c, ending, names0, pos0, final)
  {
    hide ComparisonAt, RegisterComparison, ComparisonTokens, ComparisonCode, ScanComparison, ChainCode, ClauseCode;
    NotClosed(tokens, pos0, c);
    assert code0[..0] + ComparisonCode(final, c.c) == ComparisonCode(final, c.c);
    assert [] + ClauseCode(final, c) == ClauseCode(final, c) && [] + ChainCode(final, c, ending.conj) == ChainCode(final, c, ending.conj);
    assert forall k | end <= k < |code| :: code[k] == code0[end..][k - end];
  }

  /** What the next round finds. */
  lemma Advance(tokens: seq<Token>, pos: nat, names: seq<string>, code: seq<int>, end: nat, pre: seq<int>, rem: Clause,
                c: Clause, ending: Ending, names0: seq<string>, pos0: nat, final: NameTable)
    requires OnTrack(tokens, pos, names, code, end, pre, rem, c, ending, names0, pos0, final)
    requires EndingAt(tokens, pos0 + |Tokens(c)|, ending) && RegisterEnding(Register(names0, c), ending) <= final && pos <= |tokens|
    ensures |pre| < end && (ending.broken ==> Clear(code, end)) && Peek(tokens, pos0 + |Tokens(c)|) != RightParen
    ensures IsLink(Peek(tokens, pos)) == (rem.More? || ending.broken)
    ensures IsLink(Peek(tokens, pos)) ==>
              var a := if rem.More? then Done(rem.rest.c) else ending.a;
              && pos < |tokens| && Peek(tokens, pos) == LinkToken(if rem.More? then rem.conj else ending.conj)
              && AttemptAt(tokens, pos + 1, a) && RegisterAttempt(names, a) <= final && a.Done? == rem.More?
              && ScanProposition(tokens, pos + 1).status == if rem.More? then OK else 0
  {
    hide ComparisonAt, RegisterComparison, ComparisonTokens, ComparisonCode, ScanComparison, ChainCode, ClauseCode, AttemptAt,
      RegisterAttempt, Clear, Peek;
    LinkTokens(tokens, pos);
    NotRightParen(tokens, pos0 + |Tokens(c)|, ending);
    if rem.More? {
      RegisterEndingGrows(Register(names0, c), ending);
      Starts(tokens, pos + 1, names, rem.rest, final);
      AttemptScans(tokens, pos + 1, Done(rem.rest.c));
    } else if ending.broken {
      AttemptScans(tokens, pos + 1, ending.a);
    }
  }

  lemma NotRightParen(tokens: seq<Token>, end: nat, ending: Ending)
    requires EndingAt(tokens, end, ending)
    ensures Peek(tokens, end) != RightParen
  {
  }

  lemma LinkTokens(tokens: seq<Token>, k: nat)
    ensures IsLink(Peek(tokens, k)) ==> k < |tokens|
  {
  }

  lemma RegisterEndingGrows(names: seq<string>, ending: Ending)
    ensures names <= RegisterEnding(names, ending)
  {
    hide RegisterAttempt;
    RegisterAttemptGrows(names, ending.a);
  }

  lemma Pieces(pre: seq<int>, op: seq<int>, head: seq<int>, rest: seq<int>)
    ensures (pre + head)[..|pre|] == pre && (pre + head)[|pre|..] == head
    ensures pre + op + head + rest == pre + (op + head + rest)
  {
  }

  lemma Advanced(tokens: seq<Token>, pos1: nat, names1: seq<string>, code1: seq<int>, end1: nat, pre: seq<int>, rem: Clause,
                 c: Clause, ending: Ending, names0: seq<string>, pos0: nat, final: NameTable,
                 pos: nat, names: seq<string>, code: seq<int>, end: nat)
    requires rem.More? && OnTrack(tokens, pos1, names1, code1, end1, pre, rem, c, ending, names0, pos0, final)
    requires Peek(tokens, pos0 + |Tokens(c)|) != RightParen
    requires pos1 < |tokens| && Reading(OK, pos) == ScanProposition(tokens, pos1 + 1)
    requires names == RegisterAttempt(names1, Done(rem.rest.c))
    requires Inserted(code1, end1, |pre|, [CMP_OP, Connective(rem.conj)], ComparisonCode(final, rem.rest.c), code, end)
    ensures OnTrack(tokens, pos, names, code, end, NextPre(pre, rem, final), rem.rest, c, ending, names0, pos0, final)
    ensures |NextPre(pre, rem, final)| == end1 + 2
  {
    hide ComparisonAt, RegisterComparison, ComparisonTokens, ComparisonCode, ScanComparison, Connective;
    var op, first, next := [CMP_OP, Connective(rem.conj)], ComparisonCode(final, rem.c), ComparisonCode(final, rem.rest.c);
    NotClosed(tokens, pos1 + 1, rem.rest);
    Pieces(pre, op, first, ClauseCode(final, rem.rest));
    Pieces(pre, op, first, ChainCode(final, rem.rest, ending.conj));
    assert code1[|pre|..end1] == code1[..end1][|pre|..];
    assert code1[..|pre|] == code1[..end1][..|pre|];
    assert code[..end] == pre + op + first + next;
    assert forall k | end <= k < |code| :: code[k] == code1[end..][k - end];
  }

  lemma Finish(tokens: seq<Token>, pos1: nat, names1: seq<string>, code1: seq<int>, end1: nat, pre: seq<int>, rem: Clause,
               c: Clause, ending: Ending, names0: seq<string>, pos0: nat, final: NameTable,
               pos: nat, names: seq<string>, code: seq<int>, end: nat)
    requires rem.Last? && OnTrack(tokens, pos1, names1, code1, end1, pre, rem, c, ending, names0, pos0, final)
    requires if ending.broken then
               && names == RegisterAttempt(names1, ending.a)
               && Leaves(code, code1[..end1][..|pre|] + [CMP_OP, Connective(ending.conj)] + code1[..end1][|pre|..], final, ending.a)
             else names == names1 && code == code1 && end == end1
    ensures Ends(tokens, names, code, end, c, ending, names0, final)
  {
    hide RegisterAttempt, ComparisonCode, Leaves, Connective, Clear;
    Pieces(pre, [CMP_OP, Connective(ending.conj)], ComparisonCode(final, rem.c), []);
    assert pre + ([CMP_OP, Connective(ending.conj)] + ComparisonCode(final, rem.c))
        == pre + [CMP_OP, Connective(ending.conj)] + ComparisonCode(final, rem.c);
  }

  lemma Finished(tokens: seq<Token>, pos0: nat, names0: seq<string>, c: Clause, ending: Ending, final: NameTable,
                 names: seq<string>, code: seq<int>, end: nat)
    requires pos0 <= |tokens| && ClauseAt(tokens, pos0, c) && EndingAt(tokens, pos0 + |Tokens(c)|, ending)
    requires Ends(tokens, names, code, end, c, ending, names0, final)
    ensures names == RegisterEnding(Register(names0, c), ending)
    ensures if ending.broken then
              ScanWhere(tokens, pos0).status == 0 && Leaves(code, ChainCode(final, c, ending.conj), final, ending.a)
            else
              ScanWhere(tokens, pos0) == Reading(OK, pos0 + |Tokens(c)|) && end <= |code| && code[..end] == ClauseCode(final, c)
  {
    hide ClauseAt, Tokens, AttemptAt, Leaves, ChainCode, ClauseCode, ScanWhere, ScanProposition, RegisterAttempt, Register;
    ClauseScans(tokens, pos0, c);
    ConjunctIs(tokens, pos0 + |Tokens(c)|);
    if ending.broken {
      AttemptScans(tokens, pos0 + |Tokens(c)| + 1, ending.a);
      BrokenProposition(tokens, pos0 + |Tokens(c)| + 1);
    }
  }

  lemma BrokenProposition(tokens: seq<Token>, k: nat)
    requires k <= |tokens| && Peek(tokens, k) != LeftParen && !ScanComparison(tokens, k).ok
    ensures ScanProposition(tokens, k).status == 0
  {
  }

  lemma IdInFinal(names: seq<string>, final: NameTable, name: string)
    requires name in names && names <= final
    ensures IdOf(names, name) == IdOf(final, name) < MAX_VARIABLE_ID
  {
    assert final == names + final[|names|..];
    IdStable(names, final[|names|..], name);
    IdFacts(names, name);
  }
}
