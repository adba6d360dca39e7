/** The MaxHeap index as the query engine needs it. */
module HeapSearch {
  import opened Basics
  import opened LvmSpec
  import opened LvmDerive
  import opened Relation
  import opened RelationSelect
  import H = MaxHeapSpec
  import I = Insert
  import M = MaxHeap

  // ----- An index that agrees with a column -----

  function NumberOf(q: Select, k: nat, id: nat): long
    requires q.Proper() && k < |q.attrs| && Numeric(q.attrs[k]) && id < |q.rows|
  {
    Number(q.attrs, q.rows[id], k)
  }

  /** The heap holds just the values of a column with their tuple ids. */
  ghost predicate Indexes(q: Select, k: nat, s: H.Store)
    requires q.Proper() && k < |q.attrs| && Numeric(q.attrs[k]) && H.Sized(s)
  {
    forall p: H.Pair :: p in H.Pairs(s) <==> IsEntry(q, k, p)
  }

  predicate IsEntry(q: Select, k: nat, p: H.Pair)
    requires q.Proper() && k < |q.attrs| && Numeric(q.attrs[k])
  {
    exists id: nat :: id < |q.rows| && p == H.EntryOf(NumberOf(q, k, id), id)
  }

  /** No two rows have the same key. */
  ghost predicate DistinctKeys(q: Select, k: nat)
    requires q.Proper() && k < |q.attrs| && Numeric(q.attrs[k])
  {
    forall i, j | 0 <= i < j < |q.rows| :: Low16(NumberOf(q, k, i)) != Low16(NumberOf(q, k, j))
  }

  /** The entries of the first n rows. */
  function Entries(q: Select, k: nat, n: nat): seq<H.Pair>
    requires q.Proper() && k < |q.attrs| && Numeric(q.attrs[k]) && n <= |q.rows|
  {
    seq(n, id requires 0 <= id < n => H.EntryOf(NumberOf(q, k, id), id))
  }

  /** If the entries of all rows have been accepted by a fresh heap, it indexes the column, and with
      distinct keys no key is stored twice. */
  lemma IndexesAfterRun(q: Select, k: nat, hash: uint16 -> uint16)
    requires q.Proper() && k < |q.attrs| && Numeric(q.attrs[k])
    ensures H.WellFormed(H.Fresh(), hash)
    ensures var (s, accepted) := H.Run(H.Fresh(), hash, Entries(q, k, |q.rows|));
            accepted == multiset(Entries(q, k, |q.rows|)) ==>
              && H.WellFormed(s, hash) && H.Sized(s) && Indexes(q, k, s)
              && (DistinctKeys(q, k) ==> H.UniqueKeys(s))
  {
    hide NumberOf, H.Fresh, H.Run, H.PairsBelow, H.WellFormed, H.UniqueKeys, q.Proper;
    H.RunFromFresh(hash, Entries(q, k, |q.rows|));
    var (s, accepted) := H.Run(H.Fresh(), hash, Entries(q, k, |q.rows|));
    H.WellFormedIsSized(s, hash);
    if accepted == multiset(Entries(q, k, |q.rows|)) {
      EntriesAreIndexed(q, k, s);
    }
  }

  lemma EntriesAreIndexed(q: Select, k: nat, s: H.Store)
    requires q.Proper() && k < |q.attrs| && Numeric(q.attrs[k]) && H.Sized(s)
    requires H.Pairs(s) == multiset(Entries(q, k, |q.rows|))
    ensures Indexes(q, k, s) && (DistinctKeys(q, k) ==> H.UniqueKeys(s))
  {
    hide NumberOf, H.Pairs, H.UniqueKeys, q.Proper;
    var entries := Entries(q, k, |q.rows|);
    forall p: H.Pair
      ensures p in H.Pairs(s) <==> IsEntry(q, k, p)
    {
      if id: nat :| id < |q.rows| && p == H.EntryOf(NumberOf(q, k, id), id) {
        assert entries[id] == p;
      }
    }
    if DistinctKeys(q, k) {
      forall i, j | 0 <= i < j < |entries|
        ensures entries[i].key != entries[j].key
      {
      }
      forall p <- H.Pairs(s)
        ensures H.Pairs(s)[p] == 1
      {
        CountedOnce(entries, p);
      }
      H.UniqueByPairs(s);
    }
  }

  /** The same for a relation that rows are inserted into: its heap indexes the column if no failing
      insertion has reached it. */
  lemma IndexesAfterInsertions(q: Select, k: nat, s: I.State, run: seq<seq<I.Given>>)
    requires q.Proper() && k < |q.attrs| && Numeric(q.attrs[k])
    requires I.New(s) && I.ProperRun(|s.domains|, run) && s.HasHeap(k) && k < |s.domains|
    requires var t := I.Run(s, run);
             |t.rows| == |q.rows| && forall id | 0 <= id < |q.rows| :: t.rows[id][k] == NumberOf(q, k, id)
    requires I.Leftovers(s, run, k) == multiset{}
    ensures var heap := I.Run(s, run).indexes[k].value.store;
            && H.WellFormed(heap, s.hash) && H.Sized(heap) && Indexes(q, k, heap)
            && (DistinctKeys(q, k) ==> H.UniqueKeys(heap))
  {
    hide NumberOf, H.Pairs, H.WellFormed, H.Sized, H.UniqueKeys, I.Run, I.Leftovers, Entries, I.EntriesOf, q.Proper;
    var t := I.Run(s, run);
    I.RunConserves(s, run, k);
    I.NothingMore(t.Held(k), t.CalledFor(k), multiset{});
    EntriesOfColumn(q, k, t.rows, |q.rows|);
    assert t.rows[..|q.rows|] == t.rows;
    EntriesAreIndexed(q, k, t.indexes[k].value.store);
  }

  lemma {:induction false} EntriesOfColumn(q: Select, k: nat, rows: seq<seq<long>>, n: nat)
    requires q.Proper() && k < |q.attrs| && Numeric(q.attrs[k]) && n <= |rows| == |q.rows|
    requires forall r <- rows :: k < |r|
    requires forall id | 0 <= id < |q.rows| :: rows[id][k] == NumberOf(q, k, id)
    ensures I.EntriesOf(rows[..n], k, 0) == multiset(Entries(q, k, n))
  {
    hide NumberOf, q.Proper, I.EntriesOf, Entries;
    EntriesStep(q, k, n);
    if n == 0 {
      I.NoEntries(rows, k, 0);
    } else {
      EntriesOfColumn(q, k, rows, n - 1);
      I.OneEntryMore(rows, k, 0, n - 1);
    }
  }

  lemma EntriesStep(q: Select, k: nat, n: nat)
    requires q.Proper() && k < |q.attrs| && Numeric(q.attrs[k]) && n <= |q.rows|
    ensures Entries(q, k, n) == if n == 0 then [] else Entries(q, k, n - 1) + [H.EntryOf(NumberOf(q, k, n - 1), n - 1)]
  {
    hide NumberOf, q.Proper;
  }

  lemma {:induction false} CountedOnce(entries: seq<H.Pair>, p: H.Pair)
    requires p in entries && forall i, j | 0 <= i < j < |entries| :: entries[i] != entries[j]
    ensures multiset(entries)[p] == 1
  {
    assert entries == [entries[0]] + entries[1..];
    if p in entries[1..] {
      CountedOnce(entries[1..], p);
    }
  }

  // ----- What an iteration answers -----

  /** The tuple ids at the places that an iteration over the heap returns. */
  function TupleIds(s: H.Store, hits: seq<H.Loc>): (ids: seq<nat>)
    requires H.Sized(s) && forall m | 0 <= m < |hits| :: H.InUse(s, hits[m])
    ensures |ids| == |hits|
  {
    seq<nat>(|hits|, m requires 0 <= m < |hits| && H.InUse(s, hits[m]) => s.buckets[hits[m].node][hits[m].slot].value)
  }

  /** The tuple ids for a range. */
  function HeapHits(s: H.Store, hash: uint16 -> uint16, min: long, max: long): seq<nat>
    requires H.Sized(s)
  {
    TupleIds(s, H.RangeHits(s, hash, min, min + Distance(min, max)))
  }

  /** The answers of get_next: the tuple ids of the range, and then INVALID_TUPLE for ever. The item
      count starts anew for each key, so at the end it is that of the upper bound. */
  function HeapAnswers(s: H.Store, hash: uint16 -> uint16, min: long, max: long): Answers
    requires H.Sized(s)
  {
    var ids, items := HeapHits(s, hash, min, max), |H.HitsOf(s, hash, Low16(max))|;
    (n: nat) => if n < |ids| then Hit(ids[n]) else Miss(items)
  }

  /** With one row for a key at most, the iteration over a range that the engine accepts lists every
      row of the range once, so a selection through it returns what a scan returns. */
  lemma EnumeratesRange(q: Select, k: nat, s: H.Store, hash: uint16 -> uint16, min: long, max: long)
    requires q.Proper() && k < |q.attrs| && Numeric(q.attrs[k]) && |q.rows| <= 0x1_0000
    requires H.WellFormed(s, hash) && H.Sized(s) && H.UniqueKeys(s) && Indexes(q, k, s)
    requires Distance(min, max) < 0x1_0000
    ensures Enumerates(q, HeapHits(s, hash, min, max), k, min, max)
    ensures Lists(HeapAnswers(s, hash, min, max), HeapHits(s, hash, min, max))
  {
    hide Number, H.WellFormed, H.RangeHits, H.Pairs, H.UniqueKeys, H.HitsOf, Indexes, HeapHits;
    HitsAreRows(q, k, s, hash, min, max);
    forall id: nat | id < |q.rows| && min <= Number(q.attrs, q.rows[id], k) <= max
      ensures id in HeapHits(s, hash, min, max)
    {
      RowIsHit(q, k, s, hash, min, max, id);
    }
  }

  lemma HitsAreRows(q: Select, k: nat, s: H.Store, hash: uint16 -> uint16, min: long, max: long)
    requires q.Proper() && k < |q.attrs| && Numeric(q.attrs[k]) && |q.rows| <= 0x1_0000
    requires H.Sized(s) && H.UniqueKeys(s) && Indexes(q, k, s) && Distance(min, max) < 0x1_0000
    ensures Distinct(HeapHits(s, hash, min, max)) && forall id <- HeapHits(s, hash, min, max) :: id < |q.rows|
  {
    hide NumberOf, H.RangeHits, H.Pairs, H.UniqueKeys, H.HitsOf, q.Proper;
    var hits, ids := H.RangeHits(s, hash, min, min + Distance(min, max)), HeapHits(s, hash, min, max);
    H.RangeHitsOnce(s, hash, min, min + Distance(min, max));
    forall m | 0 <= m < |hits|
      ensures ids[m] < |q.rows|
    {
      IsStored(s, hits[m]);
    }
    forall m, n | 0 <= m < n < |ids|
      ensures ids[m] != ids[n]
    {
      DifferentRows(q, k, s, hits[m], hits[n]);
    }
  }

  lemma RowIsHit(q: Select, k: nat, s: H.Store, hash: uint16 -> uint16, min: long, max: long, id: nat)
    requires q.Proper() && k < |q.attrs| && Numeric(q.attrs[k]) && |q.rows| <= 0x1_0000 && id < |q.rows|
    requires H.WellFormed(s, hash) && H.Sized(s) && H.UniqueKeys(s) && Indexes(q, k, s)
    requires Distance(min, max) < 0x1_0000 && min <= NumberOf(q, k, id) <= max
    ensures id in HeapHits(s, hash, min, max)
  {
    hide NumberOf, H.WellFormed, H.RangeHits, H.Pairs, H.UniqueKeys, H.HitsOf, q.Proper;
    var hits := H.RangeHits(s, hash, min, min + Distance(min, max));
    var p := H.EntryOf(NumberOf(q, k, id), id);
    assert IsEntry(q, k, p);
    var loc := PlaceOf(s, p);
    H.UniqueRangeComplete(s, hash, min, min + Distance(min, max), loc.node, loc.slot);
    BehindNumber(min, NumberOf(q, k, id), max);
    var m :| 0 <= m < |hits| && hits[m] == loc;
    assert HeapHits(s, hash, min, max)[m] == id;
  }

  lemma BehindNumber(min: long, number: long, max: long)
    requires min <= number <= max && Distance(min, max) < 0x1_0000
    ensures H.Behind(min, Low16(number)) == number - min <= Distance(min, max)
  {
  }

  lemma IsStored(s: H.Store, loc: H.Loc)
    requires H.Sized(s) && H.InUse(s, loc)
    ensures s.buckets[loc.node][loc.slot] in H.Pairs(s)
  {
    H.PairsHas(s, s.buckets[loc.node][loc.slot]);
    assert H.StoredAt(s, loc.node, loc.slot, s.buckets[loc.node][loc.slot]);
  }

  lemma PlaceOf(s: H.Store, p: H.Pair) returns (loc: H.Loc)
    requires H.Sized(s) && p in H.Pairs(s)
    ensures H.InUse(s, loc) && s.buckets[loc.node][loc.slot] == p
  {
    H.PairsHas(s, p);
    var i, j :| H.StoredAt(s, i, j, p);
    loc := H.Loc(i, j);
  }

  /** Two places with the same tuple id have the same key, and a key has one place. */
  lemma DifferentRows(q: Select, k: nat, s: H.Store, a: H.Loc, b: H.Loc)
    requires q.Proper() && k < |q.attrs| && Numeric(q.attrs[k]) && |q.rows| <= 0x1_0000
    requires H.Sized(s) && H.UniqueKeys(s) && Indexes(q, k, s) && H.InUse(s, a) && H.InUse(s, b) && a != b
    ensures s.buckets[a.node][a.slot].value != s.buckets[b.node][b.slot].value
  {
    hide NumberOf, H.Pairs, q.Proper;
    IsStored(s, a);
    IsStored(s, b);
    var p, p' := s.buckets[a.node][a.slot], s.buckets[b.node][b.slot];
    assert H.Holds(s, a.node, a.slot, p.key);
    assert H.Holds(s, b.node, b.slot, p'.key);
    assert IsEntry(q, k, p) && IsEntry(q, k, p');
  }

  /** If a failed insertion has left an entry behind, a range that covers both keys lists the row that
      was inserted next twice. */
  lemma LeftOverIsListed(s: H.Store, hash: uint16 -> uint16, min: long, max: long, a: H.Pair, b: H.Pair)
    requires H.WellFormed(s, hash) && H.Sized(s) && H.UniqueKeys(s) && Distance(min, max) < 0x1_0000
    requires a in H.Pairs(s) && b in H.Pairs(s) && a.key != b.key && a.value == b.value
    requires H.Behind(min, a.key) <= Distance(min, max) && H.Behind(min, b.key) <= Distance(min, max)
    ensures multiset(HeapHits(s, hash, min, max))[a.value] >= 2
  {
    hide H.WellFormed, H.RangeHits, H.Pairs, H.UniqueKeys, H.Behind;
    var hi := min + Distance(min, max);
    var hits, ids := H.RangeHits(s, hash, min, hi), HeapHits(s, hash, min, max);
    var x := PlaceOf(s, a);
    var y := PlaceOf(s, b);
    H.UniqueRangeComplete(s, hash, min, hi, x.node, x.slot);
    H.UniqueRangeComplete(s, hash, min, hi, y.node, y.slot);
    var m, n :| 0 <= m < |hits| && 0 <= n < |hits| && hits[m] == x && hits[n] == y;
    assert ids[m] == ids[n] == a.value && m != n;
    AtTwoIndices(ids, if m < n then m else n, if m < n then n else m);
  }

  lemma AtTwoIndices(s: seq<nat>, i: nat, j: nat)
    requires i < j < |s| && s[i] == s[j]
    ensures multiset(s)[s[i]] >= 2
  {
    assert s == s[..j] + s[j..];
    assert s[i] in s[..j] && s[j] in s[j..];
  }

  /** A search ends with an item count of zero exactly if no row has the upper bound as its key. */
  lemma EndsWithError(q: Select, k: nat, s: H.Store, hash: uint16 -> uint16, min: long, max: long)
    requires q.Proper() && k < |q.attrs| && Numeric(q.attrs[k])
    requires H.WellFormed(s, hash) && H.Sized(s) && Indexes(q, k, s)
    ensures SearchStatus(HeapAnswers(s, hash, min, max), HeapHits(s, hash, min, max)) == DB_INDEX_ERROR <==>
              forall id | 0 <= id < |q.rows| :: Low16(NumberOf(q, k, id)) != Low16(max)
  {
    hide NumberOf, H.WellFormed, H.RangeHits, H.Pairs, H.HitsOf, q.Proper;
    H.LookupCorrect(s, hash, Low16(max));
    if id :| 0 <= id < |q.rows| && Low16(NumberOf(q, k, id)) == Low16(max) {
      assert IsEntry(q, k, H.EntryOf(NumberOf(q, k, id), id));
    }
  }

  // ----- Iterating and selecting -----

  /** Calling get_next of a heap to the end gives these answers. */
  method Collect(heap: M.Heap, it: M.IndexIterator) returns (ids: seq<nat>, items: nat)
    requires heap.Valid() && it.nextItemNo == 0
    modifies heap`current, heap`heapIterator, heap`foundItems, heap`start, heap.visited, heap.cache, heap.nextFreeSlot, it
    ensures heap.Valid() && heap.Files() == old(heap.Files()) && H.Sized(heap.Files())
    ensures ids == HeapHits(heap.Files(), heap.hash, old(it.minValue), old(it.maxValue))
    ensures Miss(items) == HeapAnswers(heap.Files(), heap.hash, old(it.minValue), old(it.maxValue))(|ids|)
  {
    hide H.WellFormed, H.RangeHits, H.HitsOf, H.Sized, heap.KeyLeft, heap.KeysLeft, M.Delivers, TupleIds;
    H.WellFormedIsSized(heap.Files(), heap.hash);
    heap.NewIterator(it);
    ghost var s, max := heap.Files(), it.maxValue;
    ghost var all := H.RangeHits(s, heap.hash, it.minValue, it.minValue + Distance(it.minValue, max));
    HitsInUse(s, heap.hash, it.minValue, it.minValue + Distance(it.minValue, max));
    assert all[0..] == all;
    ids := [];
    var value := heap.GetNext(it);
    while value.Some?
      invariant heap.Ready(it) && heap.Files() == s && heap.Counts(it) && it.maxValue == max
      invariant |ids| <= |all| && ids == TupleIds(s, all)[..|ids|]
      invariant M.Delivers(s, all[|ids|..], value, heap.KeyLeft(it) + heap.KeysLeft(it))
      invariant value == None ==> it.minValue == max
      decreases |all| - |ids| + if value.Some? then 1 else 0
    {
      CollectStep(s, all, |ids|, value, heap.KeyLeft(it) + heap.KeysLeft(it));
      ids := ids + [value.value];
      value := heap.GetNext(it);
    }
    CollectStep(s, all, |ids|, value, heap.KeyLeft(it) + heap.KeysLeft(it));
    items := it.nextItemNo;
  }

  lemma HitsInUse(s: H.Store, hash: uint16 -> uint16, lo: int, hi: int)
    requires H.Sized(s)
    ensures forall m | 0 <= m < |H.RangeHits(s, hash, lo, hi)| :: H.InUse(s, H.RangeHits(s, hash, lo, hi)[m])
  {
  }

  lemma CollectStep(s: H.Store, all: seq<H.Loc>, n: nat, value: Option<uint16>, left: seq<H.Loc>)
    requires H.Sized(s) && (forall m | 0 <= m < |all| :: H.InUse(s, all[m])) && n <= |all|
    requires M.Delivers(s, all[n..], value, left)
    ensures value.Some? ==> n < |all| && left == all[n + 1..]
    ensures value.Some? ==> TupleIds(s, all)[..n] + [value.value] == TupleIds(s, all)[..n + 1]
    ensures value == None ==> n == |all| && left == [] && TupleIds(s, all)[..n] == TupleIds(s, all)
  {
    hide H.Sized;
  }

  /** A SELECT that searches a MaxHeap index which indexes its column, with distinct keys: it
      returns the rows of a scan, and it ends with an error exactly if no row has the upper bound
      as its key, whether rows were found before that or not. */
  method SelectThroughHeap(handle: Handle, indexes: seq<Option<Index>>, s: H.Store, hash: uint16 -> uint16)
    returns (status: int, ghost selected: seq<nat>, rows: seq<seq<seq<byte>>>)
    requires handle.Valid() && |indexes| == |handle.q.attrs| && !handle.searching && handle.calls == 0 && handle.tupleId == 0
    requires handle.machine.ip == 0 && handle.machine.derivations[..] == NOTHING
    requires handle.q.wanted == TRUE && handle.q.filter.Some? && Searchable(handle.q.filter.value)
    requires Plan(handle.q, indexes).Some? && |handle.q.rows| <= 0x1_0000
    requires var (k, _, _) := Plan(handle.q, indexes).value;
             && !indexes[k].value.ranges && Numeric(handle.q.attrs[k])
             && H.WellFormed(s, hash) && H.Sized(s) && H.UniqueKeys(s) && Indexes(handle.q, k, s)
    modifies handle, handle.machine`ip, handle.machine.values, handle.machine.derivations
    ensures multiset(selected) == multiset(handle.q.Scan()) && ShowAll(handle.q, selected, rows)
    ensures var (k, _, max) := Plan(handle.q, indexes).value;
            && status in {DB_FINISHED, DB_INDEX_ERROR}
            && (status == DB_INDEX_ERROR <==> forall id | 0 <= id < |handle.q.rows| ::
                  Low16(NumberOf(handle.q, k, id)) != Low16(max))
  {
    hide H.WellFormed, H.UniqueKeys, Indexes, NumberOf, Searchable, ShowAll, HeapAnswers, HeapHits, Distinct,
      handle.Valid, handle.q.Among;
    ghost var (k, min, max) := Plan(handle.q, indexes).value;
    PlannedRangeIsSmall(handle.q, indexes);
    EnumeratesRange(handle.q, k, s, hash, min, max);
    EndsWithError(handle.q, k, s, hash, min, max);
    status, selected, rows := handle.Run(indexes, (_, min, max) => HeapAnswers(s, hash, min, max), HeapHits(s, hash, min, max));
  }

  /** An index type without ranges is searched for few keys only. */
  lemma PlannedRangeIsSmall(q: Select, indexes: seq<Option<Index>>)
    requires q.Proper() && |indexes| == |q.attrs| && Plan(q, indexes).Some? && |q.rows| <= 0x1_0000
    ensures var (k, min, max) := Plan(q, indexes).value;
            !indexes[k].value.ranges ==> Distance(min, max) <= 1024
  {
    hide q.Proper, Choose, RangeOf;
  }
}
