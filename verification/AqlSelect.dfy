/** From the text of a WHERE clause to the rows that it selects, with or without an index. */
module AqlSelect {
  import opened Basics
  import opened LvmSpec
  import opened LvmDerive
  import opened LvmMachine
  import opened AqlSyntax
  import opened AqlScan
  import opened AqlSense
  import opened AqlParser
  import opened AqlMeaning
  import opened Relation
  import opened RelationSelect

  // ----- What compiled clauses are like -----

  predicate TermKnown(names: seq<string>, t: Term) {
    t.Name? ==> t.name in names
  }

  predicate ArgKnown(names: seq<string>, a: Arg) {
    match a
    case Single(t) => TermKnown(names, t)
    case Group(s) => SideKnown(names, s)
  }

  predicate SideKnown(names: seq<string>, s: Side) {
    TermKnown(names, s.first) && forall i | 0 <= i < |s.steps| :: ArgKnown(names, s.steps[i].arg)
  }

  /** All names of the clause are registered. */
  predicate Known(names: seq<string>, c: Clause) {
    SideKnown(names, c.c.l) && SideKnown(names, c.c.r) && (c.More? ==> Known(names, c.rest))
  }

  lemma TermRegistered(names: seq<string>, t: Term)
    ensures TermKnown(RegisterTerm(names, t), t)
  {
  }

  lemma TermKnownLater(names: seq<string>, more: seq<string>, t: Term)
    requires TermKnown(names, t) && names <= more
    ensures TermKnown(more, t)
  {
  }

  lemma {:induction false} ArgKnownLater(names: seq<string>, more: seq<string>, a: Arg)
    requires ArgKnown(names, a) && names <= more
    ensures ArgKnown(more, a)
    decreases a, 0
  {
    match a
    case Single(t) => TermKnownLater(names, more, t);
    case Group(s) => SideKnownLater(names, more, s);
  }

  lemma {:induction false} SideKnownLater(names: seq<string>, more: seq<string>, s: Side)
    requires SideKnown(names, s) && names <= more
    ensures SideKnown(more, s)
    decreases s, 1
  {
    hide ArgKnown, TermKnown;
    TermKnownLater(names, more, s.first);
    forall i | 0 <= i < |s.steps|
      ensures ArgKnown(more, s.steps[i].arg)
    {
      ArgKnownLater(names, more, s.steps[i].arg);
    }
  }

  lemma {:induction false} ArgRegistered(names: seq<string>, a: Arg)
    ensures ArgKnown(RegisterArg(names, a), a)
    decreases a, 0
  {
    match a
    case Single(t) => TermRegistered(names, t);
    case Group(s) => SideRegistered(names, s);
  }

  lemma {:induction false} SideRegistered(names: seq<string>, s: Side)
    ensures SideKnown(RegisterSide(names, s), s)
    decreases s, 1
  {
    hide ArgKnown, TermKnown, RegisterArg, RegisterTerm;
    TermRegistered(names, s.first);
    RegisterUpToGrows(names, s, 0, |s.steps|);
    TermKnownLater(RegisterUpTo(names, s, 0), RegisterSide(names, s), s.first);
    forall i | 0 <= i < |s.steps|
      ensures ArgKnown(RegisterSide(names, s), s.steps[i].arg)
    {
      ArgRegistered(RegisterUpTo(names, s, i), s.steps[i].arg);
      RegisterUpToGrows(names, s, i + 1, |s.steps|);
      ArgKnownLater(RegisterUpTo(names, s, i + 1), RegisterSide(names, s), s.steps[i].arg);
    }
  }

  /** Compiling a clause registers its names. */
  lemma {:induction false} RegisterMakesKnown(names: seq<string>, c: Clause, final: seq<string>)
    requires Register(names, c) <= final
    ensures Known(final, c)
    decreases c
  {
    RegisterGrows(names, c);
    SideRegistered(names, c.c.l);
    SideRegistered(RegisterSide(names, c.c.l), c.c.r);
    RegisterSideGrows(RegisterSide(names, c.c.l), c.c.r);
    SideKnownLater(RegisterSide(names, c.c.l), final, c.c.l);
    SideKnownLater(RegisterComparison(names, c.c), final, c.c.r);
    if c.More? {
      RegisterMakesKnown(RegisterComparison(names, c.c), c.rest, final);
    }
  }

  lemma TermUses(names: NameTable, t: Term)
    requires TermKnown(names, t)
    ensures ExprUses(TermExpr(names, t), |names|)
  {
    if t.Name? {
      IdFacts(names, t.name);
    }
  }

  lemma {:induction false} HeadUses(names: NameTable, s: Side)
    requires SideKnown(names, s)
    ensures ExprUses(Head(names, s), |names|)
    decreases s
  {
    hide TermExpr;
    TermUses(names, s.first);
    if s.steps != [] {
      assert ArgKnown(names, s.steps[0].arg);
      ArgHeadUses(names, s.steps[0].arg);
    }
  }

  lemma {:induction false} ArgHeadUses(names: NameTable, a: Arg)
    requires ArgKnown(names, a)
    ensures ExprUses(ArgHead(names, a), |names|)
    decreases a
  {
    match a
    case Single(t) => TermUses(names, t);
    case Group(s) => HeadUses(names, s);
  }

  predicate PiecesUse(ps: seq<Piece>, n: nat) {
    forall x <- ps :: ExprUses(x.e, n)
  }

  lemma {:induction false} ArgTailUses(names: NameTable, a: Arg)
    requires ArgKnown(names, a)
    ensures PiecesUse(ArgTail(names, a), |names|)
    decreases a, 0
  {
    if a.Group? {
      TailUses(names, a.side, |a.side.steps|);
    }
  }

  lemma {:induction false} TailUses(names: NameTable, s: Side, n: nat)
    requires SideKnown(names, s) && n <= |s.steps|
    ensures PiecesUse(TailUpTo(names, s, n), |names|)
    decreases s, n
  {
    hide ArgKnown, ArgHead, ArgTail, ExprUses;
    if n > 0 {
      var x := s.steps[n - 1];
      assert ArgKnown(names, x.arg);
      TailUses(names, s, n - 1);
      ArgTailUses(names, x.arg);
      ArgHeadUses(names, x.arg);
    }
  }

  lemma {:induction false} NestUses(ps: seq<Piece>, last: Expr, n: nat)
    requires ExprUses(last, n) && PiecesUse(ps, n)
    ensures ExprUses(Nest(ps, last), n)
  {
    if ps != [] {
      assert ps[0] in ps;
      NestUses(ps[1..], last, n);
    }
  }

  /** The compiled clause uses registered variables only. */
  lemma {:induction false} TreeUses(names: NameTable, c: Clause)
    requires Known(names, c)
    ensures Uses(Tree(names, c), |names|)
    decreases c
  {
    HeadUses(names, c.c.l);
    HeadUses(names, c.c.r);
    TailUses(names, c.c.l, |c.c.l.steps|);
    NestUses(Tail(names, c.c.l), Head(names, c.c.r), |names|);
    if c.More? {
      TreeUses(names, c.rest);
    }
  }

  /** The names that a clause compares. */
  function Compared(c: Clause): set<string> {
    (if c.c.l.first.Name? then {c.c.l.first.name} else {}) + if c.More? then Compared(c.rest) else {}
  }

  /** Each comparison has a name on the left and a number on the right, and what stands on the two
      sides of an OR compares the same names. */
  predicate SearchableClause(c: Clause) {
    && c.c.l.steps == [] && c.c.l.first.Name? && c.c.r.steps == [] && c.c.r.first.Number?
    && (c.More? ==> SearchableClause(c.rest) && (!c.conj ==> Compared(c.rest) == {c.c.l.first.name}))
  }

  lemma TermsCompared(names: NameTable, x: Comparison)
    requires x.l.steps == [] && x.r.steps == []
    ensures ComparisonTree(names, x) == Compare(RelationOp(x.rel), TermExpr(names, x.l.first), TermExpr(names, x.r.first))
  {
    hide TermExpr, RelationOp;
    assert Tail(names, x.l) == [];
  }

  lemma {:induction false} ConstrainsCompared(names: NameTable, c: Clause)
    requires Known(names, c) && SearchableClause(c)
    ensures Constrains(Tree(names, c)) == set n <- Compared(c) :: IdOf(names, n)
    decreases c
  {
    IdFacts(names, c.c.l.first.name);
    TermsCompared(names, c.c);
    if c.More? {
      ConstrainsCompared(names, c.rest);
    }
  }

  /** A clause of this form compiles into a predicate whose derived ranges may be searched. */
  lemma {:induction false} TreeSearchable(names: NameTable, c: Clause)
    requires Known(names, c) && SearchableClause(c)
    ensures Searchable(Tree(names, c))
    decreases c
  {
    IdFacts(names, c.c.l.first.name);
    TermsCompared(names, c.c);
    if c.More? {
      TreeSearchable(names, c.rest);
      ConstrainsCompared(names, c.rest);
    }
  }

  // ----- The variables -----

  predicate Distinct(names: seq<string>) {
    forall i, j | 0 <= i < j < |names| :: names[i] != names[j]
  }

  lemma TermDistinct(names: seq<string>, t: Term)
    requires Distinct(names)
    ensures Distinct(RegisterTerm(names, t))
  {
  }

  lemma {:induction false} ArgDistinct(names: seq<string>, a: Arg)
    requires Distinct(names)
    ensures Distinct(RegisterArg(names, a))
    decreases a, 0
  {
    hide Distinct;
    match a
    case Single(t) => TermDistinct(names, t);
    case Group(s) => SideDistinct(names, s, |s.steps|);
  }

  lemma {:induction false} SideDistinct(names: seq<string>, s: Side, n: nat)
    requires Distinct(names) && n <= |s.steps|
    ensures Distinct(RegisterUpTo(names, s, n))
    decreases s, n
  {
    hide Distinct;
    if n == 0 {
      TermDistinct(names, s.first);
    } else {
      SideDistinct(names, s, n - 1);
      ArgDistinct(RegisterUpTo(names, s, n - 1), s.steps[n - 1].arg);
    }
  }

  /** No name is registered twice. */
  lemma {:induction false} RegisterDistinct(names: seq<string>, c: Clause)
    requires Distinct(names)
    ensures Distinct(Register(names, c))
    decreases c
  {
    hide Distinct;
    SideDistinct(names, c.c.l, |c.c.l.steps|);
    SideDistinct(RegisterSide(names, c.c.l), c.c.r, |c.c.r.steps|);
    if c.More? {
      RegisterDistinct(RegisterComparison(names, c.c), c.rest);
    }
  }

  // ----- A query -----

  /** The query of a clause on a relation: its variables are those of the clause, and all that its
      predicate uses. */
  function Query(attrs: seq<Attribute>, rows: seq<Row>, columns: seq<Column>, c: Clause): (q: Select)
    requires |Register([], c)| <= MAX_VARIABLE_ID && ProperTable(attrs, rows, columns, Register([], c))
    ensures q.Proper()
  {
    var names: NameTable := Register([], c);
    RegisterMakesKnown([], c, names);
    TreeUses(names, c);
    RegisterDistinct([], c);
    Select(attrs, rows, columns, names, Some(Tree(names, c)), TRUE)
  }

  // ----- The rows that satisfy a clause -----

  lemma {:induction false} SideAgrees(names: seq<string>, s: Side, n: nat, e: Valuation, f: Valuation)
    requires SideKnown(names, s) && n <= |s.steps| && forall name <- names :: e(name) == f(name)
    ensures ValueUpTo(s, n, e) == ValueUpTo(s, n, f)
    decreases s, n
  {
    hide Combined, ArgKnown;
    if n > 0 {
      assert ArgKnown(names, s.steps[n - 1].arg);
      SideAgrees(names, s, n - 1, e, f);
      ArgAgrees(names, s.steps[n - 1].arg, e, f);
    }
  }

  lemma {:induction false} ArgAgrees(names: seq<string>, a: Arg, e: Valuation, f: Valuation)
    requires ArgKnown(names, a) && forall name <- names :: e(name) == f(name)
    ensures ValueOfArg(a, e) == ValueOfArg(a, f)
    decreases a, 0
  {
    if a.Group? {
      SideAgrees(names, a.side, |a.side.steps|, e, f);
    }
  }

  /** Only the names of the clause matter. */
  lemma {:induction false} VerdictAgrees(names: seq<string>, c: Clause, e: Valuation, f: Valuation)
    requires Known(names, c) && forall name <- names :: e(name) == f(name)
    ensures Defined(c, e) == Defined(c, f) && Verdict(c, e) == Verdict(c, f)
    decreases c
  {
    hide InRelation, SideKnown;
    SideAgrees(names, c.c.l, |c.c.l.steps|, e, f);
    SideAgrees(names, c.c.r, |c.c.r.steps|, e, f);
    if c.More? {
      VerdictAgrees(names, c.rest, e, f);
    }
  }

  predicate HasNumber(attrs: seq<Attribute>, name: string, k: nat) {
    k < |attrs| && attrs[k].name == name && Numeric(attrs[k])
  }

  /** The number in the field of that name. */
  ghost function NumberNamed(attrs: seq<Attribute>, row: Row, name: string): long
    requires ProperSchema(attrs) && ProperRow(attrs, row)
  {
    if exists k :: HasNumber(attrs, name, k) then
      var k :| HasNumber(attrs, name, k);
      Relation.Number(attrs, row, k)
    else 0
  }

  ghost function Fields(attrs: seq<Attribute>, row: Row): Valuation
    requires ProperSchema(attrs) && ProperRow(attrs, row)
  {
    name => NumberNamed(attrs, row, name)
  }

  /** Just the rows whose fields satisfy the clause are selected, and each of them once. */
  ghost predicate SelectedBy(attrs: seq<Attribute>, rows: seq<Row>, c: Clause, selected: seq<nat>)
    requires ProperSchema(attrs) && forall r <- rows :: ProperRow(attrs, r)
  {
    forall id: nat :: multiset(selected)[id] == if id < |rows| && ClauseHolds(c, Fields(attrs, rows[id])) then 1 else 0
  }

  lemma LoadedIsField(q: Select, id: nat, name: string)
    requires q.Proper() && id < |q.rows| && name in q.names
    ensures AqlSense.Variables(q.names, q.Variables(id))(name) == NumberNamed(q.attrs, q.rows[id], name)
  {
    hide Relation.Number;
    IdFacts(q.names, name);
    var c :| c in q.columns && Supplies(q.attrs, c, name);
    assert HasNumber(q.attrs, name, c.source);
    LoadGivesNumber(q.attrs, q.columns, q.rows[id], c.source, 0);
  }

  lemma RowsOfClause(attrs: seq<Attribute>, rows: seq<Row>, columns: seq<Column>, c: Clause, selected: seq<nat>)
    requires |Register([], c)| <= MAX_VARIABLE_ID && ProperTable(attrs, rows, columns, Register([], c))
    requires Proper(c) && Unchained(c) && multiset(selected) == multiset(Query(attrs, rows, columns, c).Scan())
    ensures SelectedBy(attrs, rows, c, selected)
  {
    hide Unchained, Verdict, Tree, EvalLogic, Register, Known, NumberNamed, AqlSense.Variables;
    var q := Query(attrs, rows, columns, c);
    var all := Ids(0, |rows|);
    IdsMembers(0, |rows|);
    AmongMembers(q, all);
    forall id: nat
      ensures multiset(selected)[id] == if id < |rows| && ClauseHolds(c, Fields(attrs, rows[id])) then 1 else 0
    {
      DistinctCount(q.Scan(), id);
      if id < |rows| {
        SelectsByFields(q, c, id);
      }
    }
  }

  lemma SelectsByFields(q: Select, c: Clause, id: nat)
    requires |Register([], c)| <= MAX_VARIABLE_ID && ProperTable(q.attrs, q.rows, q.columns, Register([], c))
    requires q == Query(q.attrs, q.rows, q.columns, c) && Proper(c) && Unchained(c) && id < |q.rows|
    ensures q.Selects(id) <==> ClauseHolds(c, Fields(q.attrs, q.rows[id]))
  {
    hide Unchained, Tree, EvalLogic, Register, Known, NumberNamed, AqlSense.Variables, Defined, Satisfied;
    var names: NameTable := q.names;
    var e, f := AqlSense.Variables(names, q.Variables(id)), Fields(q.attrs, q.rows[id]);
    forall name | name in names
      ensures e(name) == f(name)
    {
      LoadedIsField(q, id, name);
    }
    RegisterMakesKnown([], c, names);
    VerdictAgrees(names, c, e, f);
    ReadIsVerdict(names, c, q.Variables(id));
  }

  lemma QueryParts(q: Select, c: Clause)
    requires |Register([], c)| <= MAX_VARIABLE_ID && ProperTable(q.attrs, q.rows, q.columns, Register([], c))
    requires q == Query(q.attrs, q.rows, q.columns, c)
    ensures q.Proper() && q.names == Register([], c) && q.filter == Some(Tree(Register([], c), c)) && q.wanted == TRUE
  {
    hide Register, Tree, ProperTable;
  }

  /** A SELECT with its WHERE clause as text: it is compiled, an index is chosen from the ranges that
      follow from it, and the rows are returned. They are those of a scan that evaluates the clause
      on every row; if an index is searched, the clause must be a searchable one. `q` holds the relation. */
  method SelectWhere(parser: Parser, ghost before: seq<Token>, ghost c: Clause, ghost after: seq<Token>,
                     q: Select, indexes: seq<Option<Index>>, search: Search, ghost hits: seq<nat>)
    returns (ok: bool, status: int, ghost selected: seq<nat>, result: seq<seq<seq<byte>>>)
    requires parser.Valid() && parser.Room() >= 3 && parser.p.end == 0 && parser.p.ip == 0 && parser.p.names == []
    requires parser.p.derivations[..] == NOTHING
    requires parser.tokens == before + Tokens(c) + after && parser.pos == |before|
    requires Proper(c) && Readable(c) && EndsClause(Peek(after, 0)) && |Register([], c)| <= MAX_VARIABLE_ID
    requires ProperTable(q.attrs, q.rows, q.columns, Register([], c)) && q == Query(q.attrs, q.rows, q.columns, c)
    requires |indexes| == |q.attrs|
    requires match Plan(q, indexes)
             case None => true
             case Some((k, min, max)) => SearchableClause(c) && Finds(q, k, min, max, search, hits)
    modifies parser`pos, parser`previous, parser`token
    modifies parser.p`end, parser.p`names, parser.p`error, parser.p`ip, parser.p.code, parser.p.values, parser.p.derivations
    ensures ok && multiset(selected) == multiset(q.Scan()) && ShowAll(q, selected, result)
    ensures Unchained(c) ==> SelectedBy(q.attrs, q.rows, c, selected)
    ensures match Plan(q, indexes)
            case None => status == DB_FINISHED && selected == q.Scan()
            case Some((k, min, max)) => status == SearchStatus(search(k, min, max), hits)
  {
    hide ClauseAt, Tree, ParseLogic, Register, Tokens, AqlSyntax.Proper, Plan, Finds, Searchable, Readable, LastComparison,
      SearchableClause, ClauseCode, Whole, q.Among, q.Selects, ShowAll, Known, Peek, ScanWhere, ProperTable,
      Unchained, SelectedBy, Query, SearchStatus, q.Proper, EndsClause;
    ghost var final: NameTable := Register([], c);
    var p := parser.p;
    QueryParts(q, c);
    ClauseThere(before, c, after);
    var parsed := parser.ParseWhere(c, Ending(false, false, NoLeft), final);
    ok := parsed == OK;
    ClauseReads(final, c, p.code[..], p.end);
    if Plan(q, indexes).Some? {
      RegisterMakesKnown([], c, final);
      TreeSearchable(final, c);
    }
    var handle := new Handle(q, p);
    status, selected, result := handle.Run(indexes, search, hits);
    if Unchained(c) {
      RowsOfClause(q.attrs, q.rows, q.columns, c, selected);
    }
  }
}
