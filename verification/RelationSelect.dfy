/** The handle of a selection as it is processed (relation_select, relation_process_select). */
module RelationSelect {
  import opened Basics
  import opened LvmSpec
  import opened LvmDerive
  import opened LvmMachine
  import opened Relation

  /** What index_get_next answers, call after call, for an attribute and a range. */
  type Search = (nat, long, long) -> Answers

  class Handle {
    const q: Select
    const machine: Machine
    // The search index, if DB_HANDLE_FLAG_SEARCH_INDEX is set, and the iterator over it.
    var searching: bool
    var answers: Answers
    var calls: nat
    // Its item count, which is only looked at when it has returned INVALID_TUPLE.
    var nextItem: nat
    var tupleId: nat
    var currentRow: nat
    // The result row by columns; a column that is not stored keeps its old contents.
    var cells: seq<seq<byte>>

    ghost predicate Valid()
      reads this`cells, machine`names, machine.code
      ensures Valid() ==> q.Proper() && |cells| == |q.columns|
    {
      && q.Proper() && |cells| == |q.columns|
      && machine.Valid() && machine.names == q.names
      && match q.filter
         case Some(t) => ParseLogic(machine.code[..], 0).Some? && ParseLogic(machine.code[..], 0).value.0 == t
         case None => true
    }

    /** The tuple id that the next call looks at, if the index has one. */
    function Next(): Option<nat>
      reads this`searching, this`answers, this`calls, this`tupleId
    {
      if !searching then Some(tupleId) else if answers(calls).Hit? then Some(answers(calls).id) else None
    }

    /** The tuple ids that are still to be looked at are the given ones. */
    ghost predicate Todo(ids: seq<nat>)
      reads this`searching, this`answers, this`calls, this`tupleId
    {
      if !searching then ids == Ids(tupleId, |q.rows|)
      else (forall n | calls <= n < calls + |ids| :: answers(n) == Hit(ids[n - calls])) && answers(calls + |ids|).Miss?
    }

    constructor (q: Select, machine: Machine)
      requires q.Proper() && machine.Valid() && machine.names == q.names
      requires match q.filter
               case Some(t) => ParseLogic(machine.code[..], 0).Some? && ParseLogic(machine.code[..], 0).value.0 == t
               case None => true
      ensures Valid() && this.q == q && this.machine == machine
      ensures !searching && calls == 0 && tupleId == 0 && currentRow == 0
    {
      this.q, this.machine := q, machine;
      searching, answers, calls, nextItem := false, n => Miss(0), 0, 0;
      tupleId, currentRow := 0, 0;
      cells := seq(|q.columns|, i => []);
    }

    /** select_index, for the ranges that lvm_derive has left in the engine. */
    method SelectIndex(indexes: seq<Option<Index>>, search: Search, ghost d: Derivations)
      requires Valid() && |indexes| == |q.attrs| && machine.derivations[..] == d && !searching
      modifies this`searching, this`answers
      ensures var chosen := Choose(q.attrs, indexes, q.names, d, |q.attrs|);
              match chosen
              case None => !searching
              case Some(k) =>
                var (min, max) := RangeOf(q.names, d, q.attrs[k].name).value;
                && searching == Accepts(indexes[k].value, |q.rows|, min, max)
                && (searching ==> answers == search(k, min, max))
    {
      hide q.Proper, Distance, IdOf;
      var chosen: Option<nat> := None;
      var low: long, high: long := 0, 0;
      for k := 0 to |q.attrs|
        invariant !searching && chosen == Choose(q.attrs, indexes, q.names, d, k)
        invariant chosen.Some? ==> RangeOf(q.names, d, q.attrs[chosen.value].name) == Some((low, high))
      {
        if indexes[k].Some? {
          var status, min, max := machine.GetDerivedRange(q.attrs[k].name);
          if !IsError(status) {
            var range := Distance(min, max);
            if range <= ULONG_MAX {
              chosen, low, high := Some(k), min, max;
            }
          }
        }
      }
      if chosen.Some? && Accepts(indexes[chosen.value].value, |q.rows|, low, high) {
        answers := search(chosen.value, low, high);
        searching := true;
      }
    }

    /** The part of generate_selection_result that looks for an index to search. */
    method Prepare(indexes: seq<Option<Index>>, search: Search)
      requires Valid() && |indexes| == |q.attrs| && !searching
      requires machine.ip == 0 && machine.derivations[..] == NOTHING
      modifies this`searching, this`answers, machine`ip, machine.derivations
      ensures Valid()
      ensures match Plan(q, indexes)
              case None => !searching
              case Some((k, min, max)) => searching && answers == search(k, min, max)
    {
      if q.filter.Some? {
        var status := machine.DeriveRanges();
        if !IsError(status) {
          SelectIndex(indexes, search, machine.derivations[..]);
        }
      }
    }

    /** index_get_next; None stands for INVALID_TUPLE. */
    method IndexNext() returns (id: Option<nat>)
      modifies this`calls, this`nextItem
      ensures calls == old(calls) + 1
      ensures match old(answers(calls))
              case Hit(n) => id == Some(n)
              case Miss(items) => id == None && nextItem == items
    {
      var answer := answers(calls);
      calls := calls + 1;
      match answer
      case Hit(n) =>
        return Some(n);
      case Miss(items) =>
        nextItem := items;
        return None;
    }

    /** The loop over the attribute map: the variables of the engine, and the result row. */
    method LoadRow(id: nat)
      requires Valid() && id < |q.rows|
      modifies machine.values, this`cells
      ensures Valid() && forall i | 0 <= i < |q.names| :: machine.Vars()[i] == q.Variables(id)[i]
      ensures Shows(q, id, cells)
    {
      hide ProperSchema, ProperRow, Covered, Load, Field, Number, ParseLogic, Uses, Loaded, Copied;
      var row := q.rows[id];
      ghost var before := machine.Vars();
      LoadedNone(q, id, before, cells);
      for k := 0 to |q.columns|
        invariant |cells| == |q.columns| && machine.Valid() && machine.names == q.names
        invariant Loaded(q, id, k, before, machine.Vars()) && Copied(q, id, k, cells)
      {
        var c := q.columns[k];
        assert c in q.columns;
        LoadedMore(q, id, k, before, machine.Vars(), cells);
        if Numeric(q.attrs[c.source]) {
          machine.SetVariableValue(q.attrs[c.source].name, Number(q.attrs, row, c.source));
        }
        if c.stored {
          cells := cells[k := Field(q.attrs, row, c.source)];
        }
      }
      LoadedAll(q, id, before, machine.Vars(), cells);
    }

    /** relation_process_select: one tuple id is looked at. */
    method Process() returns (status: int)
      requires Valid()
      modifies this, machine`ip, machine.values
      ensures Valid() && searching == old(searching) && answers == old(answers)
      ensures calls == old(calls) + if searching then 1 else 0
      ensures if old(Next()) == None then
                && status == (if old(answers(calls)).items == 0 then DB_INDEX_ERROR else DB_FINISHED)
                && cells == old(cells) && currentRow == old(currentRow)
              else if old(Next()).value >= |q.rows| then
                status == DB_FINISHED && cells == old(cells) && currentRow == old(currentRow)
              else
                var id := old(Next()).value;
                && status == (if q.Selects(id) then DB_GOT_ROW else DB_OK)
                && currentRow == old(currentRow) + (if q.Selects(id) then 1 else 0)
                && Shows(q, id, cells)
      ensures old(Next()).Some? ==> tupleId == old(Next()).value + 1
    {
      hide ProperSchema, ProperRow, Covered, Load, Field, Number, ParseLogic, Uses, EvalLogic, ProperColumns;
      if searching {
        var hit := IndexNext();
        if hit.None? {
          return if nextItem == 0 then DB_INDEX_ERROR else DB_FINISHED;
        }
        tupleId := hit.value;
      }
      var id := tupleId;
      tupleId := tupleId + 1;
      if id >= |q.rows| {
        return DB_FINISHED;
      }
      LoadRow(id);
      var selected := true;
      if q.filter.Some? {
        EvalAgrees(q.filter.value, |q.names|, machine.Vars(), q.Variables(id));
        var value := machine.Execute();
        selected := value == q.wanted;
      }
      if selected {
        currentRow := currentRow + 1;
        return DB_GOT_ROW;
      }
      return DB_OK;
    }

    /** How the processing ends: when an index search is over, its item count decides. */
    ghost function LastStatus(ids: seq<nat>): int
      reads this`searching, this`answers, this`calls
    {
      if searching && answers(calls + |ids|) == Miss(0) then DB_INDEX_ERROR else DB_FINISHED
    }

    /** What a caller gets that processes the handle until nothing is left: the rows in the order
        in which they are returned. */
    method ProcessAll(ghost ids: seq<nat>) returns (status: int, ghost selected: seq<nat>, rows: seq<seq<seq<byte>>>)
      requires Valid() && Todo(ids) && forall id <- ids :: id < |q.rows|
      modifies this, machine`ip, machine.values
      ensures selected == q.Among(ids)
      ensures ShowAll(q, selected, rows) && |rows| == currentRow - old(currentRow)
      ensures status == old(LastStatus(ids))
    {
      hide Shows, ShowAll, q.Selects, q.Proper, q.Among, Valid;
      ShowNone(q);
      ghost var all, row0, last := q.Among(ids), currentRow, LastStatus(ids);
      ghost var n, first := 0, if searching then calls else tupleId;
      assert ids[0..] == ids;
      selected, rows, status := [], [], DB_OK;
      while status == DB_OK || status == DB_GOT_ROW
        invariant Valid() && n <= |ids| && searching == old(searching) && answers == old(answers)
        invariant if status == DB_OK || status == DB_GOT_ROW
                  then selected + q.Among(ids[n..]) == all && first + n == (if searching then calls else tupleId)
                  else selected == all && status == last
        invariant ShowAll(q, selected, rows) && |rows| == currentRow - row0
        decreases status == DB_OK || status == DB_GOT_ROW, |ids| - n
      {
        AmongStep(q, ids[n..], selected);
        assert n < |ids| ==> Next() == Some(ids[n]) && ids[n] in ids && ids[n..][1..] == ids[n + 1..];
        status := Process();
        if status == DB_GOT_ROW {
          ShowOneMore(q, selected, rows, ids[n], cells);
          selected, rows := selected + [ids[n]], rows + [cells];
        }
        n := if n < |ids| then n + 1 else n;
      }
    }

    /** A whole SELECT. Whichever index it searches, it returns the rows of a scan; but if the
        item count of the search is zero at its end, the handle ends with an error instead of
        DB_FINISHED. */
    method Run(indexes: seq<Option<Index>>, search: Search, ghost hits: seq<nat>)
      returns (status: int, ghost selected: seq<nat>, rows: seq<seq<seq<byte>>>)
      requires Valid() && |indexes| == |q.attrs| && !searching && calls == 0 && tupleId == 0
      requires machine.ip == 0 && machine.derivations[..] == NOTHING
      requires match Plan(q, indexes)
               case None => true
               case Some((k, min, max)) =>
                 q.wanted == TRUE && Searchable(q.filter.value) && Finds(q, k, min, max, search, hits)
      modifies this, machine`ip, machine.values, machine.derivations
      ensures multiset(selected) == multiset(q.Scan()) && ShowAll(q, selected, rows)
      ensures match Plan(q, indexes)
              case None => status == DB_FINISHED && selected == q.Scan()
              case Some((k, min, max)) => status == SearchStatus(search(k, min, max), hits)
    {
      hide Searchable, Enumerates, Valid, ShowAll, q.Among, q.Selects, Numeric;
      Prepare(indexes, search);
      if Plan(q, indexes).Some? {
        SearchEqualsScan(q, indexes, hits);
        status, selected, rows := ProcessAll(hits);
      } else {
        status, selected, rows := ProcessAll(Ids(0, |q.rows|));
      }
    }
  }

  /** A search finds the given tuple ids; if its range is not empty, they are all that the query
      engine needs. */
  ghost predicate Finds(q: Select, k: nat, min: long, max: long, search: Search, hits: seq<nat>)
    requires q.Proper() && k < |q.attrs|
  {
    && Lists(search(k, min, max), hits) && (forall id <- hits :: id < |q.rows|)
    && (min <= max ==> Numeric(q.attrs[k]) && Enumerates(q, hits, k, min, max))
  }

  /** The status at the end of a search. */
  function SearchStatus(answers: Answers, hits: seq<nat>): int {
    if answers(|hits|) == Miss(0) then DB_INDEX_ERROR else DB_FINISHED
  }

  /** A result row has the fields of the tuple in its stored columns. */
  ghost predicate Shows(q: Select, id: nat, cells: seq<seq<byte>>)
    requires q.Proper() && id < |q.rows|
  {
    |cells| == |q.columns| && forall k | 0 <= k < |cells| && q.columns[k].stored ::
      cells[k] == Field(q.attrs, q.rows[id], q.columns[k].source)
  }

  lemma AmongStep(q: Select, ids: seq<nat>, done: seq<nat>)
    requires q.Proper()
    ensures ids == [] || ids[0] >= |q.rows| ==> done + q.Among(ids) == done
    ensures ids != [] && ids[0] < |q.rows| ==>
              done + q.Among(ids) == (if q.Selects(ids[0]) then done + [ids[0]] else done) + q.Among(ids[1..])
  {
    hide q.Proper, q.Selects;
  }

  ghost predicate ShowAll(q: Select, ids: seq<nat>, rows: seq<seq<seq<byte>>>)
    requires q.Proper()
  {
    |rows| == |ids| && forall n | 0 <= n < |rows| :: ids[n] < |q.rows| && Shows(q, ids[n], rows[n])
  }

  lemma ShowNone(q: Select)
    requires q.Proper()
    ensures ShowAll(q, [], [])
  {
  }

  lemma ShowOneMore(q: Select, ids: seq<nat>, rows: seq<seq<seq<byte>>>, id: nat, cells: seq<seq<byte>>)
    requires q.Proper() && ShowAll(q, ids, rows) && id < |q.rows| && Shows(q, id, cells)
    ensures ShowAll(q, ids + [id], rows + [cells])
  {
    hide q.Proper, Shows;
  }

  /** The first k columns of a row have been loaded into the variables. */
  ghost predicate Loaded(q: Select, id: nat, k: nat, before: Values, vars: Values)
    requires q.Proper() && id < |q.rows| && k <= |q.columns|
  {
    forall i | 0 <= i < |q.names| :: vars[i] == Load(q.attrs, q.columns[..k], q.rows[id], q.names[i], before[i])
  }

  ghost predicate Copied(q: Select, id: nat, k: nat, cells: seq<seq<byte>>)
    requires q.Proper() && id < |q.rows| && k <= |q.columns| == |cells|
  {
    forall j | 0 <= j < k :: q.columns[j].stored ==> cells[j] == Field(q.attrs, q.rows[id], q.columns[j].source)
  }

  lemma LoadedNone(q: Select, id: nat, before: Values, cells: seq<seq<byte>>)
    requires q.Proper() && id < |q.rows| && |cells| == |q.columns|
    ensures Loaded(q, id, 0, before, before) && Copied(q, id, 0, cells)
  {
    assert q.columns[..0] == [];
  }

  lemma LoadedMore(q: Select, id: nat, k: nat, before: Values, vars: Values, cells: seq<seq<byte>>)
    requires q.Proper() && id < |q.rows| && k < |q.columns| == |cells|
    requires Loaded(q, id, k, before, vars) && Copied(q, id, k, cells)
    ensures var c := q.columns[k];
            var v := IdOf(q.names, q.attrs[c.source].name);
            && (Numeric(q.attrs[c.source]) ==>
                  var n := Number(q.attrs, q.rows[id], c.source);
                  Loaded(q, id, k + 1, before, if v < MAX_VARIABLE_ID then vars[v := n] else vars))
            && (!Numeric(q.attrs[c.source]) ==> Loaded(q, id, k + 1, before, vars))
            && Copied(q, id, k + 1, if c.stored then cells[k := Field(q.attrs, q.rows[id], c.source)] else cells)
  {
    hide Covered, Number, Field, ProperRow;
    var c := q.columns[k];
    assert q.columns[..k + 1][..k] == q.columns[..k] && q.columns[..k + 1][k] == c;
    var v := IdOf(q.names, q.attrs[c.source].name);
    IdFacts(q.names, q.attrs[c.source].name);
    forall i | 0 <= i < |q.names|
      ensures q.names[i] == q.attrs[c.source].name <==> v == i
    {
      assert q.names[i] in q.names;
    }
  }

  /** What the variables held before the row does not matter. */
  lemma LoadedAll(q: Select, id: nat, before: Values, vars: Values, cells: seq<seq<byte>>)
    requires q.Proper() && id < |q.rows| && |cells| == |q.columns|
    requires Loaded(q, id, |q.columns|, before, vars) && Copied(q, id, |q.columns|, cells)
    ensures forall i | 0 <= i < |q.names| :: vars[i] == q.Variables(id)[i]
    ensures Shows(q, id, cells)
  {
    assert q.columns[..|q.columns|] == q.columns;
    forall i | 0 <= i < |q.names|
      ensures vars[i] == q.Variables(id)[i]
    {
      assert q.names[i] in q.names;
      var c :| c in q.columns && Supplies(q.attrs, c, q.names[i]);
      LoadGivesNumber(q.attrs, q.columns, q.rows[id], c.source, before[i]);
      LoadGivesNumber(q.attrs, q.columns, q.rows[id], c.source, 0);
    }
  }
}
