/** The join of two relations through an index on the right one, a row at a time
    (relation_process_join in apps/antelope/relation.c). */
module Join {
  import opened Basics
  import opened LvmSpec
  import opened Relation
  import opened InlineIndex

  const DB_IMPLEMENTATION_ERROR := -8

  /** The tuple ids that the index on the right attribute gives for a value. */
  type Lookup = long -> seq<nat>

  function Matches(row: nat, hits: seq<nat>): (pairs: seq<(nat, nat)>)
    ensures |pairs| == |hits|
  {
    seq(|hits|, i requires 0 <= i < |hits| => (row, hits[i]))
  }

  /** The plain nested loop, from a left row on. */
  function NestedLoop(left: seq<long>, lookup: Lookup, from: nat): seq<(nat, nat)>
    decreases |left| - from
  {
    if from >= |left| then [] else Matches(from, lookup(left[from])) + NestedLoop(left, lookup, from + 1)
  }

  class Handle {
    // The values of the join attribute in the left relation, and the size of the right one.
    const left: seq<long>
    const rightRows: nat
    const lookup: Lookup
    var tupleId: nat
    // DB_HANDLE_FLAG_INDEX_STEP: the next call starts at the first left row.
    var indexStep: bool
    var hits: seq<nat>
    var nextItem: nat
    var currentRow: nat
    // The tuples in the two static row buffers from which a result row is put together.
    var leftRow: nat
    var rightRow: nat

    constructor (left: seq<long>, rightRows: nat, lookup: Lookup)
      ensures this.left == left && this.rightRows == rightRows && this.lookup == lookup && Valid() && indexStep && currentRow == 0
    {
      this.left, this.rightRows, this.lookup := left, rightRows, lookup;
      tupleId, indexStep, hits, nextItem, currentRow := 0, true, [], 0, 0;
      leftRow, rightRow := 0, 0;
    }

    ghost predicate Valid()
      reads this`indexStep, this`tupleId, this`leftRow, this`hits, this`nextItem
    {
      !indexStep ==> tupleId < |left| && leftRow == tupleId && hits == lookup(left[tupleId]) && nextItem <= |hits|
    }

    /** The pairs that are still to come. */
    ghost function Remaining(): seq<(nat, nat)>
      requires Valid()
      reads this`indexStep, this`tupleId, this`leftRow, this`hits, this`nextItem
    {
      if indexStep then NestedLoop(left, lookup, 0)
      else Matches(tupleId, hits[nextItem..]) + NestedLoop(left, lookup, tupleId + 1)
    }

    lemma FromTheStart()
      requires Valid() && indexStep
      ensures Remaining() == NestedLoop(left, lookup, 0)
    {
    }

    /** The next tuple id of the index search for the left row; None stands for INVALID_TUPLE. */
    method IndexNext() returns (id: Option<nat>)
      requires Valid() && !indexStep
      modifies this`nextItem
      ensures Valid()
      ensures match id
              case Some(j) => old(Remaining()) != [] && old(Remaining())[0] == (tupleId, j) && Remaining() == old(Remaining())[1..]
              case None => Remaining() == old(Remaining()) == NestedLoop(left, lookup, tupleId + 1)
    {
      hide NestedLoop, Matches;
      TakeMatch(tupleId, hits, nextItem, NestedLoop(left, lookup, tupleId + 1));
      if nextItem == |hits| {
        return None;
      }
      id := Some(hits[nextItem]);
      nextItem := nextItem + 1;
    }

    /** The next left row is read, and a search for its value begins. */
    method StartLeft()
      requires indexStep && tupleId < |left|
      modifies this`leftRow, this`hits, this`nextItem, this`indexStep
      ensures Valid() && !indexStep && Remaining() == NestedLoop(left, lookup, tupleId)
    {
      hide NestedLoop, Matches;
      TakeLeft(left, lookup, tupleId);
      leftRow, hits, nextItem, indexStep := tupleId, lookup(left[tupleId]), 0, false;
      assert hits[0..] == hits;
    }

    /** relation_process_join. A call after DB_FINISHED starts over. */
    method Process() returns (status: int)
      requires Valid()
      modifies this
      ensures Valid()
      ensures var todo := old(Remaining());
              if todo == [] then
                status == DB_FINISHED && indexStep && currentRow == old(currentRow)
              else
                && Remaining() == todo[1..] && !indexStep
                && if todo[0].1 < rightRows then
                     status == DB_GOT_ROW && (leftRow, rightRow) == todo[0] && currentRow == old(currentRow) + 1
                   else status == DB_IMPLEMENTATION_ERROR && currentRow == old(currentRow)
    {
      hide NestedLoop, Matches, Remaining;
      ghost var todo := Remaining();
      var inner := !indexStep;
      if !inner {
        FromTheStart();
        tupleId := 0;
      }
      while true
        invariant currentRow == old(currentRow)
        invariant if inner then Valid() && !indexStep && Remaining() == todo
                  else indexStep && NestedLoop(left, lookup, tupleId) == todo
        decreases |left| - tupleId, inner
      {
        if !inner {
          if tupleId >= |left| {
            NoneLeft(left, lookup, tupleId);
            assert todo == [];
            return DB_FINISHED;
          }
          StartLeft();
          inner := true;
        }
        var id := IndexNext();
        if id.Some? {
          if id.value >= rightRows {
            return DB_IMPLEMENTATION_ERROR;
          }
          rightRow := id.value;
          currentRow := currentRow + 1;
          return DB_GOT_ROW;
        }
        indexStep, inner := true, false;
        tupleId := tupleId + 1;
      }
    }

    /** Processing a new handle until it is finished gives the pairs of the nested loop. */
    method ProcessAll() returns (pairs: seq<(nat, nat)>)
      requires Valid() && indexStep && forall v, i | 0 <= i < |lookup(v)| :: lookup(v)[i] < rightRows
      modifies this
      ensures Valid() && pairs == NestedLoop(left, lookup, 0) && currentRow == old(currentRow) + |pairs|
    {
      hide Valid, Remaining, NestedLoop;
      RightRows(left, lookup, 0, rightRows);
      ghost var all, row0 := Remaining(), currentRow;
      FromTheStart();
      pairs := [];
      var status := DB_OK;
      ghost var todo := all;
      while status != DB_FINISHED
        invariant Valid() && pairs + todo == all && (if status != DB_FINISHED then todo == Remaining() else todo == [])
        invariant currentRow == row0 + |pairs|
        decreases status != DB_FINISHED, |todo|
      {
        assert todo != [] ==> todo[0] == all[|pairs|];
        status := Process();
        todo := if todo == [] then [] else todo[1..];
        if status == DB_GOT_ROW {
          pairs := pairs + [(leftRow, rightRow)];
        }
      }
    }
  }

  lemma TakeLeft(left: seq<long>, lookup: Lookup, from: nat)
    requires from < |left|
    ensures NestedLoop(left, lookup, from) == Matches(from, lookup(left[from])) + NestedLoop(left, lookup, from + 1)
  {
  }

  lemma NoneLeft(left: seq<long>, lookup: Lookup, from: nat)
    requires from >= |left|
    ensures NestedLoop(left, lookup, from) == []
  {
  }

  lemma TakeMatch(row: nat, hits: seq<nat>, next: nat, rest: seq<(nat, nat)>)
    requires next <= |hits|
    ensures var todo := Matches(row, hits[next..]) + rest;
            if next == |hits| then todo == rest
            else todo != [] && todo[0] == (row, hits[next]) && todo[1..] == Matches(row, hits[next + 1..]) + rest
  {
  }

  lemma {:induction false} RightRows(left: seq<long>, lookup: Lookup, from: nat, rightRows: nat)
    requires forall v, i | 0 <= i < |lookup(v)| :: lookup(v)[i] < rightRows
    ensures forall i | 0 <= i < |NestedLoop(left, lookup, from)| :: NestedLoop(left, lookup, from)[i].1 < rightRows
    decreases |left| - from
  {
    if from < |left| {
      RightRows(left, lookup, from + 1, rightRows);
    }
  }

  // ----- What the nested loop joins -----

  /** For the values of the left relation the index gives exactly the right rows with that value. */
  ghost predicate Exact(left: seq<long>, right: seq<long>, lookup: Lookup) {
    forall v <- left :: Distinct(lookup(v)) && forall j: nat :: j in lookup(v) <==> j < |right| && right[j] == v
  }

  /** Left row first; an index has an order of its own within a left row. */
  predicate Ordered(pairs: seq<(nat, nat)>) {
    forall m, n | 0 <= m < n < |pairs| :: pairs[m].0 <= pairs[n].0 && pairs[m] != pairs[n]
  }

  /** The join consists of the pairs of rows with equal values, each of them once, left row by
      left row. */
  lemma {:induction false} JoinIsExact(left: seq<long>, right: seq<long>, lookup: Lookup, from: nat)
    requires Exact(left, right, lookup)
    ensures var pairs := NestedLoop(left, lookup, from);
            && Ordered(pairs)
            && forall i: nat, j: nat :: (i, j) in pairs <==> from <= i < |left| && j < |right| && left[i] == right[j]
    decreases |left| - from
  {
    hide Distinct, Matches;
    if from < |left| {
      JoinIsExact(left, right, lookup, from + 1);
      var hits, rest := lookup(left[from]), NestedLoop(left, lookup, from + 1);
      assert left[from] in left;
      MatchesMembers(from, hits);
      OrderedJoin(Matches(from, hits), rest, from);
    }
  }

  lemma OrderedJoin(first: seq<(nat, nat)>, rest: seq<(nat, nat)>, row: nat)
    requires Ordered(first) && Ordered(rest)
    requires (forall i: nat, j: nat | (i, j) in first :: i == row) && (forall i: nat, j: nat | (i, j) in rest :: i > row)
    ensures Ordered(first + rest)
  {
    forall n | 0 <= n < |first|
      ensures first[n].0 == row
    {
      assert (first[n].0, first[n].1) in first;
    }
    forall n | 0 <= n < |rest|
      ensures rest[n].0 > row
    {
      assert (rest[n].0, rest[n].1) in rest;
    }
  }

  lemma MatchesMembers(row: nat, hits: seq<nat>)
    requires Distinct(hits)
    ensures Ordered(Matches(row, hits))
    ensures forall i: nat, j: nat :: (i, j) in Matches(row, hits) <==> i == row && j in hits
  {
    forall j: nat | j in hits
      ensures (row, j) in Matches(row, hits)
    {
      var k :| 0 <= k < |hits| && hits[k] == j;
      assert Matches(row, hits)[k] == (row, j);
    }
  }

  /** The inline index on a strictly increasing right column is exact for the left values that are
      not below its first one. */
  lemma JoinThroughInlineIndex(left: seq<long>, right: Table, lookup: Lookup)
    requires Increasing(right) && right != [] && forall v <- left :: right[0] <= v && lookup(v) == Hits(right, v, v)
    ensures Exact(left, right, lookup)
  {
    forall v | v in left
      ensures Distinct(lookup(v)) && forall j: nat :: j in lookup(v) <==> j < |right| && right[j] == v
    {
      ExactHit(right, v);
      HitsCover(right, v, v);
    }
  }
}
