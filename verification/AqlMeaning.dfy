/** What a compiled WHERE clause says about a row, and where it differs from the usual reading
    in which AND binds more tightly than OR. */
module AqlMeaning {
  import opened Basics
  import opened LvmSpec
  import opened LvmMachine
  import opened AqlSyntax
  import opened AqlScan
  import opened AqlSense
  import opened AqlParser

  /** What each comparison gives by itself, from left to right. */
  function Statuses(names: NameTable, c: Clause, vars: Values): (ss: seq<int>)
    ensures |ss| == |Connectives(c)| + 1
  {
    [EvalLogic(ComparisonTree(names, c.c), vars)] + if c.Last? then [] else Statuses(names, c.rest, vars)
  }

  /** The connectives from left to right; true stands for AND. */
  function Connectives(c: Clause): seq<bool> {
    if c.Last? then [] else [c.conj] + Connectives(c.rest)
  }

  function FirstError(ss: seq<int>): Option<int> {
    if ss == [] then None else if IsError(ss[0]) then Some(ss[0]) else FirstError(ss[1..])
  }

  function RightNested(bs: seq<bool>, cs: seq<bool>): bool
    requires |bs| == |cs| + 1
  {
    if cs == [] then bs[0]
    else if cs[0] then bs[0] && RightNested(bs[1..], cs[1..])
    else bs[0] || RightNested(bs[1..], cs[1..])
  }

  function Holds(ss: seq<int>): (bs: seq<bool>)
    ensures |bs| == |ss|
  {
    seq(|ss|, i requires 0 <= i < |ss| => ss[i] == TRUE)
  }

  /** The tree of a clause gives the first error of its comparisons, or their values combined
      from the right. */
  lemma {:induction false} TreeMeaning(names: NameTable, c: Clause, vars: Values)
    ensures var ss := Statuses(names, c, vars);
            EvalLogic(Tree(names, c), vars) ==
              match FirstError(ss)
              case Some(e) => e
              case None => Truth(RightNested(Holds(ss), Connectives(c)))
  {
    hide ComparisonTree, Connective;
    LogicStatus(ComparisonTree(names, c.c), vars);
    var first := EvalLogic(ComparisonTree(names, c.c), vars);
    if c.Last? {
      assert FirstError([first][1..]) == None;
    } else {
      TreeMeaning(names, c.rest, vars);
      LogicStatus(Tree(names, c.rest), vars);
      FirstErrorIsError(Statuses(names, c.rest, vars));
      FirstOfMore(first, Statuses(names, c.rest, vars), c.conj, Connectives(c.rest));
      EvalMore(names, c, vars);
    }
  }

  /** A further comparison in front. */
  lemma FirstOfMore(first: int, rest: seq<int>, conj: bool, cs: seq<bool>)
    requires |rest| == |cs| + 1
    ensures FirstError([first] + rest) == if IsError(first) then Some(first) else FirstError(rest)
    ensures RightNested(Holds([first] + rest), [conj] + cs) ==
              if conj then first == TRUE && RightNested(Holds(rest), cs) else first == TRUE || RightNested(Holds(rest), cs)
  {
    assert ([first] + rest)[1..] == rest && Holds([first] + rest)[1..] == Holds(rest) && ([conj] + cs)[1..] == cs;
  }

  lemma EvalMore(names: NameTable, c: Clause, vars: Values)
    requires c.More?
    ensures var x, y := EvalLogic(ComparisonTree(names, c.c), vars), EvalLogic(Tree(names, c.rest), vars);
            EvalLogic(Tree(names, c), vars) ==
              if IsError(x) then x else if IsError(y) then y
              else if c.conj then Truth(x == TRUE && y == TRUE) else Truth(x == TRUE || y == TRUE)
  {
    hide ComparisonTree;
  }

  lemma {:induction false} FirstErrorIsError(ss: seq<int>)
    ensures FirstError(ss).Some? ==> IsError(FirstError(ss).value)
  {
    if ss != [] {
      FirstErrorIsError(ss[1..]);
    }
  }

  // ----- What is read in the code of a clause -----

  /** Nothing is left over of the right side of any comparison but the last. */
  predicate Readable(c: Clause) {
    c.Last? || (Whole(c.c.r) && Readable(c.rest))
  }

  function LastComparison(c: Clause): Comparison {
    if c.Last? then c.c else LastComparison(c.rest)
  }

  lemma {:induction false} NestCode(ps: seq<Piece>, last: Expr)
    ensures EncodeExpr(Nest(ps, last)) == PiecesCode(ps) + EncodeExpr(last)
  {
    if ps == [] {
      assert [] + EncodeExpr(last) == EncodeExpr(last);
    } else {
      NestCode(ps[1..], last);
      var op, e, rest := [ARITH_OP, ps[0].op], EncodeExpr(ps[0].e), PiecesCode(ps[1..]);
      assert op + e + (rest + EncodeExpr(last)) == op + e + rest + EncodeExpr(last);
    }
  }

  lemma {:induction false} PiecesJoin(ps: seq<Piece>, qs: seq<Piece>)
    ensures PiecesCode(ps + qs) == PiecesCode(ps) + PiecesCode(qs)
  {
    if ps == [] {
      assert ps + qs == qs && [] + PiecesCode(qs) == PiecesCode(qs);
    } else {
      PiecesJoin(ps[1..], qs);
      assert (ps + qs)[1..] == ps[1..] + qs && (ps + qs)[0] == ps[0];
      var op, e := [ARITH_OP, ps[0].op], EncodeExpr(ps[0].e);
      assert op + e + (PiecesCode(ps[1..]) + PiecesCode(qs)) == op + e + PiecesCode(ps[1..]) + PiecesCode(qs);
    }
  }

  lemma PiecesStart(ps: seq<Piece>)
    ensures PiecesCode(ps) == [] <==> ps == []
    ensures ps != [] ==> PiecesCode(ps)[0] == ARITH_OP
  {
  }

  /** The code of a side is that of its head, and of what is left over. */
  lemma {:induction false} SideReads(names: NameTable, s: Side)
    ensures SideCode(names, s) == EncodeExpr(Head(names, s)) + PiecesCode(Tail(names, s))
    decreases s, |s.steps| + 1
  {
    hide EncodeExpr, TermExpr, CodeUpTo, TailUpTo, Head;
    UpToReads(names, s, |s.steps|);
    if s.steps == [] {
      HeadOfTerm(names, s);
    }
  }

  lemma HeadOfTerm(names: NameTable, s: Side)
    requires s.steps == []
    ensures CodeUpTo(names, s, 0) == EncodeExpr(Head(names, s)) + PiecesCode(TailUpTo(names, s, 0))
  {
    hide EncodeExpr, TermExpr;
    assert EncodeExpr(Head(names, s)) + [] == EncodeExpr(Head(names, s));
  }

  lemma {:induction false} UpToReads(names: NameTable, s: Side, n: nat)
    requires n <= |s.steps|
    ensures n > 0 ==> CodeUpTo(names, s, n) == EncodeExpr(Head(names, s)) + PiecesCode(TailUpTo(names, s, n))
    decreases s, n
  {
    hide EncodeExpr, TermExpr, ArithmeticOp, PiecesCode, ArgHead, ArgTail, ArgCode;
    if n > 0 {
      var x := s.steps[n - 1];
      ArgReads(names, x.arg);
      if n == 1 {
        FirstReads(names, s);
      } else {
        UpToReads(names, s, n - 1);
        LaterReads(names, EncodeExpr(Head(names, s)), TailUpTo(names, s, n - 1),
                   Piece(ArithmeticOp(x.op), ArgHead(names, x.arg)), ArgTail(names, x.arg));
      }
    }
  }

  lemma FirstReads(names: NameTable, s: Side)
    requires |s.steps| > 0
    requires var a := s.steps[0].arg; ArgCode(names, a) == EncodeExpr(ArgHead(names, a)) + PiecesCode(ArgTail(names, a))
    ensures CodeUpTo(names, s, 1) == EncodeExpr(Head(names, s)) + PiecesCode(TailUpTo(names, s, 1))
  {
    hide TermExpr, ArithmeticOp, PiecesCode, ArgHead, ArgTail, ArgCode;
    var op, first, a := [ARITH_OP, ArithmeticOp(s.steps[0].op)], EncodeExpr(TermExpr(names, s.first)), s.steps[0].arg;
    ArithCode(ArithmeticOp(s.steps[0].op), TermExpr(names, s.first), ArgHead(names, a));
    assert op + first + (EncodeExpr(ArgHead(names, a)) + PiecesCode(ArgTail(names, a)))
        == op + first + EncodeExpr(ArgHead(names, a)) + PiecesCode(ArgTail(names, a));
  }

  lemma ArithCode(op: int, l: Expr, r: Expr)
    ensures EncodeExpr(Arith(op, l, r)) == [ARITH_OP, op] + EncodeExpr(l) + EncodeExpr(r)
  {
  }

  lemma LaterReads(names: NameTable, head: seq<int>, ps: seq<Piece>, x: Piece, qs: seq<Piece>)
    ensures head + PiecesCode(ps) + [ARITH_OP, x.op] + (EncodeExpr(x.e) + PiecesCode(qs)) == head + PiecesCode(ps + [x] + qs)
  {
    hide EncodeExpr;
    PiecesJoin(ps + [x], qs);
    PiecesJoin(ps, [x]);
    OnePiece(x);
  }

  lemma OnePiece(x: Piece)
    ensures PiecesCode([x]) == [ARITH_OP, x.op] + EncodeExpr(x.e)
  {
    hide EncodeExpr;
    assert PiecesCode([x][1..]) == [];
    assert [ARITH_OP, x.op] + EncodeExpr(x.e) + [] == [ARITH_OP, x.op] + EncodeExpr(x.e);
  }

  lemma {:induction false} ArgReads(names: NameTable, a: Arg)
    ensures ArgCode(names, a) == EncodeExpr(ArgHead(names, a)) + PiecesCode(ArgTail(names, a))
    decreases a, 0
  {
    hide EncodeExpr, TermExpr;
    match a
    case Single(t) => assert EncodeExpr(TermExpr(names, t)) + [] == EncodeExpr(TermExpr(names, t));
    case Group(s) => SideReads(names, s);
  }

  /** The code of a comparison is that of the tree that is read, and what is not read of the right
      side. */
  lemma ComparisonReads(names: NameTable, c: Comparison)
    ensures ComparisonCode(names, c) == Encode(ComparisonTree(names, c)) + PiecesCode(Tail(names, c.r))
    ensures PiecesCode(Tail(names, c.r)) == [] <==> Whole(c.r)
    ensures !Whole(c.r) ==> PiecesCode(Tail(names, c.r))[0] == ARITH_OP
  {
    hide EncodeExpr, Head, RelationOp, Tail, PiecesCode, Nest, SideCode, Whole;
    SideReads(names, c.l);
    SideReads(names, c.r);
    NestCode(Tail(names, c.l), Head(names, c.r));
    var rel, l, later, r, rest := [CMP_OP, RelationOp(c.rel)], EncodeExpr(Head(names, c.l)), PiecesCode(Tail(names, c.l)),
                                  EncodeExpr(Head(names, c.r)), PiecesCode(Tail(names, c.r));
    assert rel + (l + later) + (r + rest) == rel + l + (later + r) + rest;
    PiecesStart(Tail(names, c.r));
    WholeTail(names, c.r);
  }

  /** The code of a readable clause starts with that of its tree. */
  lemma {:induction false} CodeReads(names: NameTable, c: Clause)
    requires Readable(c)
    ensures ClauseCode(names, c) == Encode(Tree(names, c)) + PiecesCode(Tail(names, LastComparison(c).r))
    decreases c
  {
    hide ComparisonCode, ComparisonTree, PiecesCode, Tail, Connective, Whole;
    ComparisonReads(names, c.c);
    if c.More? {
      CodeReads(names, c.rest);
      var op, first, later := [CMP_OP, Connective(c.conj)], Encode(ComparisonTree(names, c.c)), PiecesCode(Tail(names, LastComparison(c).r));
      assert first + [] == first;
      assert op + first + (Encode(Tree(names, c.rest)) + later) == op + first + Encode(Tree(names, c.rest)) + later;
    }
  }

  /** Code that starts with that of a tree, and what follows it. */
  lemma StartsWith(code: seq<int>, ip: nat, a: seq<int>, b: seq<int>)
    requires Contains(code, ip, a + b)
    ensures Contains(code, ip, a) && (b != [] ==> ip + |a| < |code| && code[ip + |a|] == b[0])
  {
    ContainsParts(code, ip, a, b);
    if b != [] {
      assert code[ip + |a|] == code[ip + |a|..ip + |a| + |b|][0];
    }
  }

  /** In the code of any other clause no predicate can be read. */
  lemma {:induction false} NothingReads(names: NameTable, c: Clause, code: seq<int>, ip: nat)
    requires Proper(c) && !Readable(c) && Contains(code, ip, ClauseCode(names, c))
    ensures ParseLogic(code, ip) == None
    decreases c
  {
    hide ComparisonCode, ClauseCode, Contains, ParseLogic, Proper, Whole;
    MoreCode(names, c);
    var op, first := [CMP_OP, Connective(c.conj)], ComparisonCode(names, c.c);
    ContainsParts(code, ip, op + first, ClauseCode(names, c.rest));
    ProperRest(c);
    if Whole(c.c.r) {
      NothingReads(names, c.rest, code, ip + |op + first|);
    }
    FirstThenNothing(names, c.c, c.conj, code, ip);
  }

  /** A connective with a comparison, and nothing that can be read behind it. */
  lemma FirstThenNothing(names: NameTable, x: Comparison, conj: bool, code: seq<int>, ip: nat)
    requires ProperComparison(x) && Contains(code, ip, [CMP_OP, Connective(conj)] + ComparisonCode(names, x))
    requires Whole(x.r) ==> ParseLogic(code, ip + |[CMP_OP, Connective(conj)] + ComparisonCode(names, x)|) == None
    ensures ParseLogic(code, ip) == None
  {
    hide ComparisonCode, ComparisonTree, PiecesCode, Contains, Encode, ParseLogic, Encodable, Whole, Tail, ProperComparison;
    var tree, later := Encode(ComparisonTree(names, x)), PiecesCode(Tail(names, x.r));
    ConnectiveParts(code, ip, Connective(conj), ComparisonCode(names, x));
    ComparisonReads(names, x);
    StartsWith(code, ip + 2, tree, later);
    ProperTree(names, x);
    ParseEncoded(ComparisonTree(names, x), code, ip + 2);
    if Whole(x.r) {
      assert tree + [] == tree;
    } else {
      NoPredicate(code, ip + 2 + |tree|);
    }
    SecondMissing(code, ip, Connective(conj), ComparisonTree(names, x), ip + 2 + |tree|);
  }

  lemma ConnectiveParts(code: seq<int>, ip: nat, op: int, part: seq<int>)
    requires Contains(code, ip, [CMP_OP, op] + part)
    ensures ip + 2 <= |code| && At(code, ip) == CMP_OP && At(code, ip + 1) == op && Contains(code, ip + 2, part)
  {
    ContainsParts(code, ip, [CMP_OP, op], part);
    assert code[ip] == code[ip..ip + 2][0] && code[ip + 1] == code[ip..ip + 2][1];
  }

  lemma MoreCode(names: NameTable, c: Clause)
    requires c.More?
    ensures ClauseCode(names, c) == [CMP_OP, Connective(c.conj)] + ComparisonCode(names, c.c) + ClauseCode(names, c.rest)
  {
  }

  lemma ProperRest(c: Clause)
    requires c.More? && Proper(c)
    ensures ProperComparison(c.c) && Proper(c.rest)
  {
  }

  lemma ProperTree(names: NameTable, x: Comparison)
    requires ProperComparison(x)
    ensures Encodable(ComparisonTree(names, x))
  {
  }

  lemma NoPredicate(code: seq<int>, ip: nat)
    requires ip < |code| && code[ip] == ARITH_OP
    ensures ParseLogic(code, ip) == None
  {
  }

  lemma SecondMissing(code: seq<int>, ip: nat, op: int, a: Logic, mid: nat)
    requires ip + 2 <= |code| && At(code, ip) == CMP_OP && At(code, ip + 1) == op && IsConnective(op) && op != LVM_NOT
    requires ParseLogic(code, ip + 2) == Some((a, mid)) && ParseLogic(code, mid) == None
    ensures ParseLogic(code, ip) == None
  {
    hide ParseOperands;
  }

  /** Compiling a WHERE clause and running the code on the current variables: the clause is read as its
      tree, as far as it can be read at all. */
  method RunWhere(parser: Parser, ghost before: seq<Token>, ghost c: Clause, ghost after: seq<Token>)
    returns (ok: bool, status: int)
    requires parser.Valid() && parser.Room() >= 3 && parser.p.end == 0
    requires parser.tokens == before + Tokens(c) + after && parser.pos == |before|
    requires Proper(c) && EndsClause(Peek(after, 0)) && |Register(parser.p.names, c)| <= MAX_VARIABLE_ID
    modifies parser`pos, parser`previous, parser`token
    modifies parser.p`end, parser.p`names, parser.p`error, parser.p`ip, parser.p.code
    ensures ok && parser.Valid() && parser.p.names == Register(old(parser.p.names), c)
    ensures parser.pos == |before| + |Tokens(c)|
    ensures parser.Room() >= old(parser.Room())
    ensures parser.p.code[..parser.p.end] == ClauseCode(parser.p.names, c)
    ensures if Readable(c) then
              var ss := Statuses(parser.p.names, c, parser.p.Vars());
              && status == (match FirstError(ss)
                            case Some(e) => e
                            case None => Truth(RightNested(Holds(ss), Connectives(c))))
              && (!IsError(status) ==> (parser.p.ip == parser.p.end <==> Whole(LastComparison(c).r)))
            else IsError(status)
    ensures Unchained(c) ==> status == Verdict(c, Variables(parser.p.names, parser.p.Vars()))
  {
    hide ClauseAt, Tree, ParseLogic, Register, Tokens, EvalLogic, Statuses, FirstError, RightNested, Connectives, Holds, Proper,
      ClauseCode, Readable, Whole, Peek, ScanWhere, LastComparison, Unchained, Verdict, Variables;
    ghost var final: NameTable := Register(parser.p.names, c);
    var p := parser.p;
    ClauseThere(before, c, after);
    var parsed := parser.ParseWhere(c, Ending(false, false, NoLeft), final);
    ok := parsed == OK;
    ClauseReads(final, c, p.code[..], p.end);
    status := p.Execute();
    TreeMeaning(final, c, p.Vars());
    if Unchained(c) {
      UnchainedReads(c);
      ReadIsVerdict(final, c, p.Vars());
    }
  }

  lemma {:induction false} UnchainedReads(c: Clause)
    requires Unchained(c)
    ensures Readable(c)
  {
    hide Whole;
    if c.More? {
      UnchainedReads(c.rest);
    }
  }

  /** What is read in a buffer that holds the code of a clause. */
  lemma ClauseReads(names: NameTable, c: Clause, code: seq<int>, end: nat)
    requires Proper(c) && end <= |code| && code[..end] == ClauseCode(names, c)
    ensures !Readable(c) ==> ParseLogic(code, 0) == None
    ensures Readable(c) ==>
              && ParseLogic(code, 0).Some? && ParseLogic(code, 0).value.0 == Tree(names, c)
              && (ParseLogic(code, 0).value.1 == end <==> Whole(LastComparison(c).r))
  {
    hide Encode, Tree, ParseLogic, Encodable, Proper, ClauseCode, PiecesCode, Tail, Readable, Whole;
    assert Contains(code, 0, ClauseCode(names, c));
    if Readable(c) {
      CodeReads(names, c);
      StartsWith(code, 0, Encode(Tree(names, c)), PiecesCode(Tail(names, LastComparison(c).r)));
      PiecesStart(Tail(names, LastComparison(c).r));
      WholeTail(names, LastComparison(c).r);
      TreeEncodable(names, c);
      ParseEncoded(Tree(names, c), code, 0);
    } else {
      NothingReads(names, c, code, 0);
    }
  }

  lemma ClauseThere(before: seq<Token>, c: Clause, after: seq<Token>)
    requires Proper(c) && EndsClause(Peek(after, 0))
    ensures ClauseAt(before + Tokens(c) + after, |before|, c)
    ensures Peek(before + Tokens(c) + after, |before| + |Tokens(c)|) == Peek(after, 0)
  {
    hide ClauseAt, Tokens, EndsClause;
    NoOperator(Peek(after, 0));
    PeekBehind(before, Tokens(c), after);
    TokensAt(before, c, after);
  }

  lemma NoOperator(t: Token)
    ensures EndsClause(t) ==> ArithmeticOp(t) == 0
  {
  }

  lemma PeekBehind(before: seq<Token>, part: seq<Token>, after: seq<Token>)
    ensures Peek(before + part + after, |before| + |part|) == Peek(after, 0)
  {
  }

  // ----- Comparisons that fail -----

  /** A comparison whose right side breaks off, without the last operator. */
  function BrokenOff(a: Attempt): Comparison
    requires a.HalfRight?
  {
    Comparison(a.l, a.rel, a.r)
  }

  /** The clause with one more comparison behind it. */
  function Extended(c: Clause, conj: bool, last: Comparison): Clause {
    match c
    case Last(x) => More(x, conj, Last(last))
    case More(x, link, rest) => More(x, link, Extended(rest, conj, last))
  }

  lemma {:induction false} ExtendedCode(names: NameTable, c: Clause, conj: bool, last: Comparison)
    ensures ClauseCode(names, Extended(c, conj, last)) == ChainCode(names, c, conj) + ComparisonCode(names, last)
    ensures Proper(c) && ProperComparison(last) ==> Proper(Extended(c, conj, last))
    ensures LastComparison(Extended(c, conj, last)) == last
    decreases c
  {
    hide ComparisonCode, Connective, ProperComparison;
    if c.More? {
      ExtendedCode(names, c.rest, conj, last);
      var first := [CMP_OP, Connective(c.conj)] + ComparisonCode(names, c.c);
      assert first + (ChainCode(names, c.rest, conj) + ComparisonCode(names, last))
          == first + ChainCode(names, c.rest, conj) + ComparisonCode(names, last);
    }
  }

  /** If nothing can be read behind a chain of comparisons, no predicate can be read in it. */
  lemma {:induction false} ChainThenNothing(names: NameTable, c: Clause, conj: bool, code: seq<int>, ip: nat)
    requires Proper(c) && Contains(code, ip, ChainCode(names, c, conj))
    requires ParseLogic(code, ip + |ChainCode(names, c, conj)|) == None
    ensures ParseLogic(code, ip) == None
    decreases c
  {
    hide ComparisonCode, Contains, ParseLogic, ProperComparison, Whole;
    if c.More? {
      var first := [CMP_OP, Connective(c.conj)] + ComparisonCode(names, c.c);
      ContainsParts(code, ip, first, ChainCode(names, c.rest, conj));
      ChainThenNothing(names, c.rest, conj, code, ip + |first|);
      FirstThenNothing(names, c.c, c.conj, code, ip);
    } else {
      FirstThenNothing(names, c.c, conj, code, ip);
    }
  }

  lemma {:induction false} PiecesThenZero(ps: seq<Piece>, code: seq<int>, ip: nat)
    requires Contains(code, ip, PiecesCode(ps)) && At(code, ip + |PiecesCode(ps)|) == 0
    ensures LvmSpec.ParseExpr(code, ip) == None
  {
    hide EncodeExpr, Contains, At;
    ZeroThere(code, ip);
    if ps != [] {
      var op, e, rest := [ARITH_OP, ps[0].op], EncodeExpr(ps[0].e), PiecesCode(ps[1..]);
      assert op + e + rest == op + (e + rest);
      ArithParts(code, ip, ps[0].op, e + rest);
      ContainsParts(code, ip + 2, e, rest);
      ParseExprEncoded(ps[0].e, code, ip + 2);
      PiecesThenZero(ps[1..], code, ip + 2 + |e|);
      ArithMissing(code, ip);
    }
  }

  lemma ZeroThere(code: seq<int>, ip: nat)
    ensures At(code, ip) == 0 ==> LvmSpec.ParseExpr(code, ip) == None && ParseLogic(code, ip) == None
  {
  }

  lemma ArithParts(code: seq<int>, ip: nat, op: int, part: seq<int>)
    requires Contains(code, ip, [ARITH_OP, op] + part)
    ensures ip + 2 <= |code| && code[ip] == ARITH_OP && Contains(code, ip + 2, part)
  {
    ContainsParts(code, ip, [ARITH_OP, op], part);
    assert code[ip] == code[ip..ip + 2][0];
  }

  lemma ArithMissing(code: seq<int>, ip: nat)
    requires ip + 2 <= |code| && code[ip] == ARITH_OP && ParseOperands(code, ip + 2) == None
    ensures LvmSpec.ParseExpr(code, ip) == None
  {
  }

  /** Where a comparison failed before its right side began, no predicate can be read. */
  lemma AttemptReads(names: NameTable, a: Attempt, code: seq<int>, ip: nat)
    requires !a.Done? && !a.HalfRight? && Contains(code, ip, AttemptCode(names, a)) && At(code, ip + |AttemptCode(names, a)|) == 0
    ensures ParseLogic(code, ip) == None
  {
    hide Contains, At, SideCode, RelationOp, ParseLogic;
    ZeroThere(code, ip);
    if a.NoRight? {
      ConnectiveParts(code, ip, RelationOp(a.rel), SideCode(names, a.l));
      SideThenZero(names, a.l, code, ip + 2);
      NoConnective(a.rel);
      OperandsMissing(code, ip, RelationOp(a.rel));
    }
  }

  lemma SideThenZero(names: NameTable, s: Side, code: seq<int>, ip: nat)
    requires Contains(code, ip, SideCode(names, s)) && At(code, ip + |SideCode(names, s)|) == 0
    ensures ParseOperands(code, ip) == None
  {
    hide Contains, At, SideCode, EncodeExpr, PiecesCode, Head, Tail, LvmSpec.ParseExpr;
    var head, ps := EncodeExpr(Head(names, s)), Tail(names, s);
    SideReads(names, s);
    ContainsParts(code, ip, head, PiecesCode(ps));
    ParseExprEncoded(Head(names, s), code, ip);
    PiecesThenZero(ps, code, ip + |head|);
  }

  lemma NoConnective(t: Token)
    ensures !IsConnective(RelationOp(t))
  {
  }

  lemma OperandsMissing(code: seq<int>, ip: nat, op: int)
    requires ip + 2 <= |code| && At(code, ip) == CMP_OP && At(code, ip + 1) == op && ParseOperands(code, ip + 2) == None
    requires !IsConnective(op)
    ensures ParseLogic(code, ip) == None
  {
    hide ParseOperands;
  }

  /** Compiling a text in which a comparison fails behind a connective, and running what is left. It is
      taken as a condition all the same. Running it gives an error, unless the comparison broke off in its
      right side: then it is read without the last operator. */
  method RunBroken(parser: Parser, ghost c: Clause, ghost ending: Ending) returns (status: int, result: int)
    requires parser.Valid() && parser.Room() >= 3 && parser.p.end == 0 && Clear(parser.p.code[..], 0)
    requires Proper(c) && ClauseAt(parser.tokens, parser.pos, c)
    requires ending.broken && EndingAt(parser.tokens, parser.pos + |Tokens(c)|, ending)
    requires |RegisterEnding(Register(parser.p.names, c), ending)| <= MAX_VARIABLE_ID
    modifies parser`pos, parser`previous, parser`token
    modifies parser.p`end, parser.p`names, parser.p`error, parser.p`ip, parser.p.code
    ensures parser.Valid() && status == 0 && !AqlError(status)
    ensures parser.p.names == RegisterEnding(Register(old(parser.p.names), c), ending)
    ensures !ending.a.HalfRight? ==> IsError(result)
    ensures ending.a.HalfRight? ==>
              var all := Extended(c, ending.conj, BrokenOff(ending.a));
              if Readable(all) then result == EvalLogic(Tree(parser.p.names, all), parser.p.Vars()) else IsError(result)
  {
    hide ClauseAt, Tokens, Register, RegisterAttempt, AttemptAt, ChainCode, AttemptCode, Contains, ParseLogic, Encode, Tree, Proper,
      Readable, ScanWhere, Clear, Leaves, EvalLogic, At, RegisterEnding;
    ghost var final: NameTable := RegisterEnding(Register(parser.p.names, c), ending);
    var p := parser.p;
    EndingProper(parser.tokens, parser.pos + |Tokens(c)|, ending);
    status := parser.ParseWhere(c, ending, final);
    LeftReads(final, c, ending, p.code[..]);
    result := p.Execute();
  }

  lemma EndingProper(tokens: seq<Token>, end: nat, ending: Ending)
    requires EndingAt(tokens, end, ending) && ending.broken
    ensures !ending.a.Done? && (ending.a.HalfRight? ==> ProperComparison(BrokenOff(ending.a)))
  {
    hide SideTokens, SideBegins, ProperSide;
    if ending.a.HalfRight? {
      SideProper(tokens, end + 1, ending.a.l);
      SideProper(tokens, end + 1 + |SideTokens(ending.a.l)| + 1, ending.a.r);
    }
  }

  lemma {:induction false} SideProper(tokens: seq<Token>, k: nat, s: Side)
    requires SideBegins(tokens, k, s)
    ensures ProperSide(s)
    decreases s
  {
    hide UpTo, SideTokens;
    forall i | 0 <= i < |s.steps|
      ensures ArithmeticOp(s.steps[i].op) != 0 && (s.steps[i].arg.Group? ==> ProperSide(s.steps[i].arg.side))
    {
      assert StepAt(tokens, k + |UpTo(s, i)|, s.steps[i]);
      if s.steps[i].arg.Group? {
        assert ArgAt(tokens, k + |UpTo(s, i)| + 1, s.steps[i].arg);
        SideProper(tokens, k + |UpTo(s, i)| + 2, s.steps[i].arg.side);
      }
    }
  }

  /** What can be read in the code that is left. */
  lemma LeftReads(names: NameTable, c: Clause, ending: Ending, code: seq<int>)
    requires Proper(c) && Leaves(code, ChainCode(names, c, ending.conj), names, ending.a)
    requires !ending.a.Done? && (ending.a.HalfRight? ==> ProperComparison(BrokenOff(ending.a)))
    ensures !ending.a.HalfRight? ==> ParseLogic(code, 0) == None
    ensures ending.a.HalfRight? ==>
              var all := Extended(c, ending.conj, BrokenOff(ending.a));
              if Readable(all) then ParseLogic(code, 0).Some? && ParseLogic(code, 0).value.0 == Tree(names, all)
              else ParseLogic(code, 0) == None
  {
    hide ChainCode, Contains, ParseLogic, Encode, Tree, Proper, Readable, At, ClauseCode, ComparisonCode, ProperComparison, SideCode,
      RelationOp, Encodable, PiecesCode, Tail;
    var chain, part := ChainCode(names, c, ending.conj), AttemptCode(names, ending.a);
    if ending.a.HalfRight? {
      var last := BrokenOff(ending.a);
      var all := Extended(c, ending.conj, last);
      ExtendedCode(names, c, ending.conj, last);
      if Readable(all) {
        CodeReads(names, all);
        StartsWith(code, 0, Encode(Tree(names, all)), PiecesCode(Tail(names, last.r)));
        TreeEncodable(names, all);
        ParseEncoded(Tree(names, all), code, 0);
      } else {
        NothingReads(names, all, code, 0);
      }
    } else {
      ContainsParts(code, 0, chain, part);
      AttemptReads(names, ending.a, code, |chain|);
      ChainThenNothing(names, c, ending.conj, code, 0);
    }
  }

  /** `a = 1 AND b c` is such a text: no relation follows `b`. */
  lemma NoRelationExample()
    ensures var ts := [Identifier("a"), Equal, Integer(1), And, Identifier("b"), Identifier("c")];
            var c := Last(Comparison(Side(Name("a"), []), Equal, Side(Number(1), [])));
            Proper(c) && ClauseAt(ts, 0, c) && EndingAt(ts, |Tokens(c)|, Ending(true, true, NoRelation(Side(Name("b"), []))))
  {
    hide SideTokens;
    OneTerm(Name("a"));
    OneTerm(Number(1));
    OneTerm(Name("b"));
  }

  lemma OneTerm(t: Term)
    ensures |SideTokens(Side(t, []))| == 1
  {
    assert UpTo(Side(t, []), 0) == [TermToken(t)];
  }

  // ----- The usual reading -----

  /** All comparisons of the first group joined by AND hold. */
  predicate FirstGroup(bs: seq<bool>, cs: seq<bool>)
    requires |bs| == |cs| + 1
  {
    bs[0] && (cs == [] || !cs[0] || FirstGroup(bs[1..], cs[1..]))
  }

  predicate LaterGroup(bs: seq<bool>, cs: seq<bool>)
    requires |bs| == |cs| + 1
    decreases |cs|, 0
  {
    cs != [] && if cs[0] then LaterGroup(bs[1..], cs[1..]) else Conventional(bs[1..], cs[1..])
  }

  /** AND binds more tightly: some group of comparisons joined by AND holds. */
  predicate Conventional(bs: seq<bool>, cs: seq<bool>)
    requires |bs| == |cs| + 1
    decreases |cs|, 1
  {
    FirstGroup(bs, cs) || LaterGroup(bs, cs)
  }

  /** An OR comes after an AND. */
  predicate Mixed(cs: seq<bool>) {
    cs != [] && if cs[0] then false in cs else Mixed(cs[1..])
  }

  /** Whatever satisfies the clause as it is compiled satisfies it as usually read. */
  lemma {:induction false} CompiledIsStronger(bs: seq<bool>, cs: seq<bool>)
    requires |bs| == |cs| + 1
    ensures RightNested(bs, cs) ==> Conventional(bs, cs)
    decreases |cs|
  {
    if cs != [] {
      CompiledIsStronger(bs[1..], cs[1..]);
    }
  }

  /** The two readings agree for all values of the comparisons exactly if no OR comes after an
      AND. */
  lemma {:induction false} ReadingsAgree(cs: seq<bool>)
    ensures (forall bs: seq<bool> | |bs| == |cs| + 1 :: RightNested(bs, cs) == Conventional(bs, cs)) <==> !Mixed(cs)
  {
    if Mixed(cs) {
      var bs := Difference(cs);
    } else {
      forall bs: seq<bool> | |bs| == |cs| + 1
        ensures RightNested(bs, cs) == Conventional(bs, cs)
      {
        AgreeUnmixed(bs, cs);
      }
    }
  }

  lemma {:induction false} AgreeUnmixed(bs: seq<bool>, cs: seq<bool>)
    requires |bs| == |cs| + 1 && !Mixed(cs)
    ensures RightNested(bs, cs) == Conventional(bs, cs)
    ensures false !in cs ==> !LaterGroup(bs, cs)
    decreases |cs|
  {
    if cs != [] {
      assert cs[0] ==> false !in cs[1..];
      AgreeUnmixed(bs[1..], cs[1..]);
    }
  }

  lemma {:induction false} Difference(cs: seq<bool>) returns (bs: seq<bool>)
    requires Mixed(cs)
    ensures |bs| == |cs| + 1 && !RightNested(bs, cs) && Conventional(bs, cs)
  {
    var rest: seq<bool>;
    if cs[0] {
      rest := seq(|cs|, i => true);
      LastGroupHolds(rest, cs[1..]);
    } else {
      rest := Difference(cs[1..]);
    }
    bs := [false] + rest;
    assert bs[1..] == rest;
  }

  lemma {:induction false} LastGroupHolds(bs: seq<bool>, cs: seq<bool>)
    requires |bs| == |cs| + 1 && forall i | 0 <= i < |bs| :: bs[i]
    ensures FirstGroup(bs, cs) && (false in cs ==> LaterGroup(bs, cs))
    decreases |cs|
  {
    if cs != [] {
      LastGroupHolds(bs[1..], cs[1..]);
    }
  }
}
