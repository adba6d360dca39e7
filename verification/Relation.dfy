/** Queries on one relation of Antelope: the choice of an index from the ranges derived from the
    WHERE clause, and the row by row selection (apps/antelope/relation.c, index.c). */
module Relation {
  import opened Basics
  import opened LvmSpec
  import opened LvmDerive
  import opened LvmMachine

  // db_result_t
  const DB_FINISHED := 3
  const DB_GOT_ROW := 2
  const DB_OK := 1
  const DB_INDEX_ERROR := -9

  const DB_INDEX_COST := 64
  const ULONG_MAX := 0xffff_ffff

  // ----- Rows -----

  datatype Domain = IntDomain | LongDomain | StringDomain
  datatype Attribute = Attribute(name: string, domain: Domain, size: nat)
  type Row = seq<byte>

  predicate Numeric(a: Attribute) { a.domain != StringDomain }

  /** get_attribute_value_offset */
  function Offset(attrs: seq<Attribute>, k: nat): nat
    requires k <= |attrs|
  {
    if k == 0 then 0 else Offset(attrs, k - 1) + attrs[k - 1].size
  }

  lemma {:induction false} OffsetsGrow(attrs: seq<Attribute>, j: nat, k: nat)
    requires j <= k <= |attrs|
    ensures Offset(attrs, j) <= Offset(attrs, k)
  {
    if j < k {
      OffsetsGrow(attrs, j, k - 1);
    }
  }

  predicate ProperSchema(attrs: seq<Attribute>) {
    && (forall k | 0 <= k < |attrs| :: (attrs[k].domain == IntDomain ==> attrs[k].size == 2)
                                    && (attrs[k].domain == LongDomain ==> attrs[k].size == 4))
    && forall j, k | 0 <= j < k < |attrs| :: attrs[j].name != attrs[k].name
  }

  predicate ProperRow(attrs: seq<Attribute>, row: Row) {
    |row| == Offset(attrs, |attrs|)
  }

  function Field(attrs: seq<Attribute>, row: Row, k: nat): (f: seq<byte>)
    requires k < |attrs| && ProperRow(attrs, row)
    ensures |f| == attrs[k].size
  {
    OffsetsGrow(attrs, k + 1, |attrs|);
    row[Offset(attrs, k)..Offset(attrs, k + 1)]
  }

  /** The number in a field; an INT is unsigned. */
  function Number(attrs: seq<Attribute>, row: Row, k: nat): long
    requires k < |attrs| && ProperSchema(attrs) && ProperRow(attrs, row) && Numeric(attrs[k])
  {
    var f := Field(attrs, row, k);
    var high: int := f[0];
    if attrs[k].domain == IntDomain then high * 0x100 + f[1] else
    var second: int, third: int := f[1], f[2];
    Wrap(high * 0x100_0000 + second * 0x1_0000 + third * 0x100 + f[3])
  }

  // ----- The variables of the logic engine for a row -----

  /** A column of the result: the attribute it comes from, and whether it is stored or was only
      added for the predicate. */
  datatype Column = Column(source: nat, stored: bool)

  predicate ProperColumns(attrs: seq<Attribute>, columns: seq<Column>) {
    forall c <- columns :: c.source < |attrs|
  }

  predicate Supplies(attrs: seq<Attribute>, c: Column, name: string)
    requires c.source < |attrs|
  {
    attrs[c.source].name == name && Numeric(attrs[c.source])
  }

  /** The value of a variable after the columns of a row have been loaded. */
  function Load(attrs: seq<Attribute>, columns: seq<Column>, row: Row, name: string, before: long): long
    requires ProperSchema(attrs) && ProperRow(attrs, row) && ProperColumns(attrs, columns)
  {
    if columns == [] then before
    else
      var n := |columns| - 1;
      if Supplies(attrs, columns[n], name) then Number(attrs, row, columns[n].source)
      else Load(attrs, columns[..n], row, name, before)
  }

  /** Every registered variable is a numeric column. */
  predicate Covered(attrs: seq<Attribute>, columns: seq<Column>, names: seq<string>)
    requires ProperColumns(attrs, columns)
  {
    forall n <- names :: exists c <- columns :: Supplies(attrs, c, n)
  }

  lemma {:induction false} LoadGivesNumber(attrs: seq<Attribute>, columns: seq<Column>, row: Row, k: nat, before: long)
    requires ProperSchema(attrs) && ProperRow(attrs, row) && ProperColumns(attrs, columns)
    requires k < |attrs| && exists c <- columns :: Supplies(attrs, c, attrs[k].name)
    ensures Numeric(attrs[k]) && Load(attrs, columns, row, attrs[k].name, before) == Number(attrs, row, k)
  {
    var n := |columns| - 1;
    if !Supplies(attrs, columns[n], attrs[k].name) {
      LoadGivesNumber(attrs, columns[..n], row, k, before);
    }
  }

  // ----- The variables a predicate uses -----

  predicate ExprUses(e: Expr, n: nat) {
    match e
    case Leaf(o) => o.kind == LVM_VARIABLE ==> VariableOf(o) < n
    case Arith(_, l, r) => ExprUses(l, n) && ExprUses(r, n)
  }

  /** Only the first n variables occur. */
  predicate Uses(t: Logic, n: nat) {
    match t
    case Compare(_, l, r) => ExprUses(l, n) && ExprUses(r, n)
    case Not(a) => Uses(a, n)
    case Connect(_, a, b) => Uses(a, n) && Uses(b, n)
  }

  lemma {:induction false} EvalExprAgrees(e: Expr, n: nat, v: Values, w: Values)
    requires ExprUses(e, n) && forall i | 0 <= i < Min(n, MAX_VARIABLE_ID) :: v[i] == w[i]
    ensures EvalExpr(e, v) == EvalExpr(e, w)
  {
    if e.Arith? {
      EvalExprAgrees(e.l, n, v, w);
      EvalExprAgrees(e.r, n, v, w);
    }
  }

  lemma {:induction false} EvalAgrees(t: Logic, n: nat, v: Values, w: Values)
    requires Uses(t, n) && forall i | 0 <= i < Min(n, MAX_VARIABLE_ID) :: v[i] == w[i]
    ensures EvalLogic(t, v) == EvalLogic(t, w)
  {
    match t
    case Compare(_, l, r) => EvalExprAgrees(l, n, v, w); EvalExprAgrees(r, n, v, w);
    case Not(a) => EvalAgrees(a, n, v, w);
    case Connect(_, a, b) => EvalAgrees(a, n, v, w); EvalAgrees(b, n, v, w);
  }

  // ----- The query as a value -----

  /** A relation, and result columns that supply all the named variables. */
  predicate ProperTable(attrs: seq<Attribute>, rows: seq<Row>, columns: seq<Column>, names: seq<string>) {
    && ProperSchema(attrs) && ProperColumns(attrs, columns) && Covered(attrs, columns, names)
    && forall r <- rows :: ProperRow(attrs, r)
  }

  /** What a selection is given. */
  datatype Select = Select(attrs: seq<Attribute>, rows: seq<Row>, columns: seq<Column>, names: seq<string>,
                           filter: Option<Logic>, wanted: int)
  {
    predicate Proper() {
      && ProperTable(attrs, rows, columns, names)
      && |names| <= MAX_VARIABLE_ID
      && (forall i, j | 0 <= i < j < |names| :: names[i] != names[j])
      && (filter.Some? ==> Uses(filter.value, |names|))
    }

    /** The variables as the predicate sees them on a row. */
    function Variables(id: nat): Values
      requires Proper() && id < |rows|
    {
      seq(MAX_VARIABLE_ID, i requires 0 <= i < MAX_VARIABLE_ID =>
        if i < |names| then Load(attrs, columns, rows[id], names[i], 0) else 0)
    }

    predicate Selects(id: nat)
      requires Proper() && id < |rows|
    {
      filter.None? || EvalLogic(filter.value, Variables(id)) == wanted
    }

    /** The selected rows among the given ones, in order; a tuple id without a row ends it. */
    function Among(ids: seq<nat>): seq<nat>
      requires Proper()
    {
      if ids == [] || ids[0] >= |rows| then []
      else (if Selects(ids[0]) then [ids[0]] else []) + Among(ids[1..])
    }

    function Scan(): seq<nat>
      requires Proper()
    {
      Among(Ids(0, |rows|))
    }
  }

  function Ids(from: nat, to: nat): (s: seq<nat>)
    ensures |s| == if from <= to then to - from else 0
  {
    seq(if from <= to then to - from else 0, i requires i >= 0 => from + i)
  }

  lemma IdsMembers(from: nat, to: nat)
    ensures forall x: nat :: x in Ids(from, to) <==> from <= x < to
    ensures Distinct(Ids(from, to))
  {
    forall x: nat | from <= x < to
      ensures x in Ids(from, to)
    {
      assert Ids(from, to)[x - from] == x;
    }
  }

  predicate Distinct(s: seq<nat>) {
    forall i, j | 0 <= i < j < |s| :: s[i] != s[j]
  }

  lemma {:induction false} DistinctCount(s: seq<nat>, x: nat)
    requires Distinct(s)
    ensures multiset(s)[x] == if x in s then 1 else 0
  {
    if s != [] {
      assert s == [s[0]] + s[1..];
      DistinctCount(s[1..], x);
    }
  }

  lemma DistinctTail(s: seq<nat>)
    requires Distinct(s) && s != []
    ensures Distinct(s[1..]) && s[0] !in s[1..]
    ensures forall x :: x in s <==> x == s[0] || x in s[1..]
  {
    assert s == [s[0]] + s[1..];
  }

  lemma SameElements(a: seq<nat>, b: seq<nat>)
    requires Distinct(a) && Distinct(b) && forall x :: x in a <==> x in b
    ensures multiset(a) == multiset(b)
  {
    hide Distinct;
    forall x: nat
      ensures multiset(a)[x] == multiset(b)[x]
    {
      DistinctCount(a, x);
      DistinctCount(b, x);
    }
  }

  lemma {:induction false} AmongMembers(q: Select, ids: seq<nat>)
    requires q.Proper() && Distinct(ids) && forall id <- ids :: id < |q.rows|
    ensures Distinct(q.Among(ids))
    ensures forall x :: x in q.Among(ids) <==> x in ids && q.Selects(x)
  {
    hide q.Proper, q.Selects;
    if ids != [] {
      DistinctTail(ids);
      AmongMembers(q, ids[1..]);
      assert q.Selects(ids[0]) ==> Distinct([ids[0]] + q.Among(ids[1..]));
    }
  }

  /** Searching through an index that lists each row once at most selects the same rows as a scan
      of the relation exactly if it lists every row that the scan selects. */
  lemma IndexIsExact(q: Select, hits: seq<nat>)
    requires q.Proper() && Distinct(hits) && forall id <- hits :: id < |q.rows|
    ensures multiset(q.Among(hits)) == multiset(q.Scan()) <==> forall id | 0 <= id < |q.rows| && q.Selects(id) :: id in hits
  {
    hide q.Proper, q.Selects, q.Among;
    var all := Ids(0, |q.rows|);
    IdsMembers(0, |q.rows|);
    AmongMembers(q, hits);
    AmongMembers(q, all);
    var some: seq<nat>, scan: seq<nat> := q.Among(hits), q.Among(all);
    assert forall id: nat :: id in scan <==> id < |q.rows| && q.Selects(id);
    if forall id | 0 <= id < |q.rows| && q.Selects(id) :: id in hits {
      SameElements(some, scan);
    } else {
      var id :| 0 <= id < |q.rows| && q.Selects(id) && id !in hits;
      assert id in multiset(scan) && id !in multiset(some);
    }
  }

  // ----- Index search -----

  /** What index.c knows of an index: whether it is ready, and whether its type supports ranges. */
  datatype Index = Index(ready: bool, ranges: bool)

  /** What one call of get_next returns: a tuple id, or INVALID_TUPLE with the number of items that
      the iterator then holds. */
  datatype Answer = Hit(id: nat) | Miss(items: nat)
  /** The answers to all calls for one range. */
  type Answers = nat -> Answer

  /** The answers before the first INVALID_TUPLE are the hits. */
  ghost predicate Lists(answers: Answers, hits: seq<nat>) {
    (forall i | 0 <= i < |hits| :: answers(i) == Hit(hits[i])) && answers(|hits|).Miss?
  }

  /** Each row with a value in the range is listed, and no row is listed twice. */
  ghost predicate Enumerates(q: Select, hits: seq<nat>, k: nat, min: long, max: long)
    requires q.Proper() && k < |q.attrs| && Numeric(q.attrs[k])
  {
    && Distinct(hits) && (forall id <- hits :: id < |q.rows|)
    && forall id | 0 <= id < |q.rows| && min <= Number(q.attrs, q.rows[id], k) <= max :: id in hits
  }

  /** index_get_iterator accepts a range. */
  predicate Accepts(index: Index, rows: nat, min: long, max: long) {
    index.ready && (Distance(min, max) == 0 || index.ranges || Distance(min, max) <= rows / DB_INDEX_COST)
  }

  /** The range derived for an attribute. */
  function RangeOf(names: seq<string>, d: Derivations, name: string): Option<(long, long)>
    requires |names| <= MAX_VARIABLE_ID
  {
    var id := IdOf(names, name);
    if id < |names| && d[id].derived then Some((d[id].min, d[id].max)) else None
  }

  /** select_index keeps the last attribute that has an index and a range. */
  function Choose(attrs: seq<Attribute>, indexes: seq<Option<Index>>, names: seq<string>, d: Derivations, n: nat): (r: Option<nat>)
    requires n <= |attrs| == |indexes| && |names| <= MAX_VARIABLE_ID
    ensures match r
            case Some(k) =>
              && k < n && indexes[k].Some? && RangeOf(names, d, attrs[k].name).Some?
              && forall j | k < j < n :: indexes[j].None? || RangeOf(names, d, attrs[j].name).None?
            case None => forall j | 0 <= j < n :: indexes[j].None? || RangeOf(names, d, attrs[j].name).None?
  {
    if n == 0 then None
    else if indexes[n - 1].Some? && RangeOf(names, d, attrs[n - 1].name).Some? then Some(n - 1)
    else Choose(attrs, indexes, names, d, n - 1)
  }

  /** The index search that generate_selection_result sets up: the attribute and the range. */
  function Plan(q: Select, indexes: seq<Option<Index>>): (r: Option<(nat, long, long)>)
    requires q.Proper() && |indexes| == |q.attrs|
    ensures r.Some? ==> r.value.0 < |q.attrs| && indexes[r.value.0].Some?
  {
    if q.filter.None? || Derive(q.filter.value).None? then None
    else
      var d := Derive(q.filter.value).value;
      var k := Choose(q.attrs, indexes, q.names, d, |q.attrs|);
      if k.None? then None
      else
        var (min, max) := RangeOf(q.names, d, q.attrs[k.value].name).value;
        if Accepts(indexes[k.value].value, |q.rows|, min, max) then Some((k.value, min, max)) else None
  }

  /** The index of the last attribute that has one and a range decides: it is searched if it is loaded and
      the range is one value, or its kind can search ranges, or there are 64 rows for each step of the range. */
  lemma PlannedBy(q: Select, indexes: seq<Option<Index>>, d: Derivations, k: nat)
    requires q.Proper() && |indexes| == |q.attrs| && q.filter.Some? && Derive(q.filter.value) == Some(d) && k < |q.attrs|
    requires indexes[k].Some? && RangeOf(q.names, d, q.attrs[k].name).Some?
    requires forall j | k < j < |q.attrs| :: indexes[j].None? || RangeOf(q.names, d, q.attrs[j].name).None?
    ensures var (min, max) := RangeOf(q.names, d, q.attrs[k].name).value;
            var steps := (max - min) % 0x1_0000_0000;
            Plan(q, indexes) ==
              if indexes[k].value.ready && (min == max || indexes[k].value.ranges || 64 * steps <= |q.rows|)
              then Some((k, min, max)) else None
  {
    hide RangeOf, Derive;
    var (min, max) := RangeOf(q.names, d, q.attrs[k].name).value;
    assert Distance(min, max) == 0 <==> min == max;
    assert Distance(min, max) <= |q.rows| / 64 <==> 64 * Distance(min, max) <= |q.rows|;
  }

  /** A row that the predicate selects has its value in the range of the chosen index. */
  lemma SelectedInRange(q: Select, indexes: seq<Option<Index>>, id: nat)
    requires q.Proper() && |indexes| == |q.attrs| && Plan(q, indexes).Some? && id < |q.rows|
    requires Searchable(q.filter.value) && q.wanted == TRUE && q.Selects(id)
    ensures var (k, min, max) := Plan(q, indexes).value;
            Numeric(q.attrs[k]) && min <= Number(q.attrs, q.rows[id], k) <= max
  {
    hide Derive, Searchable, EvalLogic;
    var (k, _, _) := Plan(q, indexes).value;
    var v := IdOf(q.names, q.attrs[k].name);
    DerivationSound(q.filter.value, q.Variables(id));
    IdFacts(q.names, q.attrs[k].name);
    assert q.names[v] in q.names;
    LoadGivesNumber(q.attrs, q.columns, q.rows[id], k, 0);
  }

  /** A selection that searches an index selects the same rows as a scan, each the same number of
      times, whichever index was chosen. */
  lemma SearchEqualsScan(q: Select, indexes: seq<Option<Index>>, hits: seq<nat>)
    requires q.Proper() && |indexes| == |q.attrs| && Plan(q, indexes).Some?
    requires Searchable(q.filter.value) && q.wanted == TRUE
    requires var (k, min, max) := Plan(q, indexes).value;
             min <= max ==> Numeric(q.attrs[k]) && Enumerates(q, hits, k, min, max)
    ensures multiset(q.Among(hits)) == multiset(q.Scan())
  {
    hide Searchable, Plan, q.Selects;
    var (k, min, max) := Plan(q, indexes).value;
    forall id | 0 <= id < |q.rows| && q.Selects(id)
      ensures min <= max && id in hits
    {
      SelectedInRange(q, indexes, id);
    }
    if min <= max {
      IndexIsExact(q, hits);
    } else {
      NothingSelected(q, hits);
      NothingSelected(q, Ids(0, |q.rows|));
    }
  }

  lemma {:induction false} NothingSelected(q: Select, ids: seq<nat>)
    requires q.Proper() && forall id | 0 <= id < |q.rows| :: !q.Selects(id)
    ensures q.Among(ids) == []
  {
    hide q.Proper, q.Selects;
    if ids != [] && ids[0] < |q.rows| {
      NothingSelected(q, ids[1..]);
    }
  }

  /** The comment on select_index promises the attribute with the smallest range, but the range
      found first is never kept for the comparison. */
  lemma SmallestRangeNotChosen()
    ensures var attrs := [Attribute("a", IntDomain, 2), Attribute("b", IntDomain, 2)];
            var index := Some(Index(true, true));
            var d: Derivations := NOTHING[0 := Derivation(true, 5, 5)][1 := Derivation(true, 0, 1000)];
            && Choose(attrs, [index, index], ["a", "b"], d, 2) == Some(1)
            && RangeOf(["a", "b"], d, "a") == Some((5, 5)) && RangeOf(["a", "b"], d, "b") == Some((0, 1000))
  {
    assert IdOf(["a", "b"], "a") == 0;
    assert IdOf(["a", "b"][1..], "b") == 0;
    assert IdOf(["a", "b"], "b") == 1;
  }

  // ----- REMOVE -----

  /** REMOVE keeps the rows for which the predicate is false. If it searches an index that lists
      just the rows in the derived range, it keeps the right rows exactly if no row lies outside
      that range. */
  lemma RemoveThroughIndex(q: Select, indexes: seq<Option<Index>>, hits: seq<nat>)
    requires q.Proper() && |indexes| == |q.attrs| && Plan(q, indexes).Some?
    requires Searchable(q.filter.value) && q.wanted == FALSE
    requires var (k, min, max) := Plan(q, indexes).value;
             && Numeric(q.attrs[k]) && Enumerates(q, hits, k, min, max)
             && forall id <- hits :: min <= Number(q.attrs, q.rows[id], k) <= max
    ensures var (k, min, max) := Plan(q, indexes).value;
            multiset(q.Among(hits)) == multiset(q.Scan()) <==>
              forall id | 0 <= id < |q.rows| :: min <= Number(q.attrs, q.rows[id], k) <= max
  {
    hide Searchable, Plan, EvalLogic, Derive, q.Selects, q.Among, q.Scan, Number, Load, ProperSchema, ProperRow, Covered;
    var (k, min, max) := Plan(q, indexes).value;
    IndexIsExact(q, hits);
    forall id: nat | id < |q.rows| && !(min <= Number(q.attrs, q.rows[id], k) <= max)
      ensures q.Selects(id)
    {
      OutsideIsFalse(q, indexes, id);
    }
  }

  lemma OutsideIsFalse(q: Select, indexes: seq<Option<Index>>, id: nat)
    requires q.Proper() && |indexes| == |q.attrs| && Plan(q, indexes).Some? && id < |q.rows|
    requires Searchable(q.filter.value) && q.wanted == FALSE
    requires var (k, min, max) := Plan(q, indexes).value;
             Numeric(q.attrs[k]) && !(min <= Number(q.attrs, q.rows[id], k) <= max)
    ensures q.Selects(id)
  {
    hide Searchable, EvalLogic;
    SearchableStatus(q.filter.value, q.Variables(id));
    var q' := q.(wanted := TRUE);
    if q'.Selects(id) {
      SelectedInRange(q', indexes, id);
    }
  }
}
