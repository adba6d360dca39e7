/** Insertion of a row into a relation with indexes (relation_insert in apps/antelope/relation.c),
    and the loading of an index for rows that exist already (db_indexer in apps/antelope/index.c). */
module Insert {
  import opened Basics
  import opened Relation
  import H = MaxHeapSpec

  const DB_RELATIONAL_ERROR := -6

  datatype Given = Given(domain: Domain, number: long)
  type Hash = uint16 -> uint16

  /** The two registered index types: one stores nothing, the other has a heap. */
  datatype IndexData = Inline | Heap(store: H.Store)

  /** What is read back from a field: an INT keeps its low 16 bits. */
  function Stored(domain: Domain, number: long): long {
    if domain == IntDomain then Low16(number) else number
  }

  predicate DomainsMatch(attribute: Domain, given: Domain) {
    attribute == given || (attribute == LongDomain && given == IntDomain)
  }

  /** index_insert: the index afterwards, and whether it has accepted the value. */
  function Put(index: Option<IndexData>, hash: Hash, number: long, row: nat): (r: (Option<IndexData>, bool))
    requires HasTree(index, hash)
    ensures HasTree(r.0, hash) && (HeapOf(r.0) <==> HeapOf(index))
  {
    if HeapOf(index) then
      var p := H.EntryOf(number, row);
      H.InsertKeepsWellFormed(index.value.store, hash, p);
      var (store, ok) := H.Insert(index.value.store, hash, p);
      (Some(Heap(store)), ok)
    else (index, true)
  }

  predicate HeapOf(index: Option<IndexData>) {
    index.Some? && index.value.Heap?
  }

  ghost predicate HasTree(index: Option<IndexData>, hash: Hash) {
    HeapOf(index) ==> H.WellFormed(index.value.store, hash) && H.Sized(index.value.store)
  }

  /** The index entries of rows whose tuple ids start at `first`. */
  function EntriesOf(rows: seq<seq<long>>, k: nat, first: nat): multiset<H.Pair>
    requires forall r <- rows :: k < |r|
  {
    if rows == [] then multiset{}
    else
      var n := |rows| - 1;
      EntriesOf(rows[..n], k, first) + multiset{H.EntryOf(rows[n][k], first + n)}
  }

  /** Decoded rows, and for each attribute its index if it has one. */
  datatype State = State(hash: Hash, domains: seq<Domain>, rows: seq<seq<long>>, indexes: seq<Option<IndexData>>, nextRow: nat)
  {
    ghost predicate Valid() {
      && |indexes| == |domains| && (forall r <- rows :: |r| == |domains|)
      && forall k | 0 <= k < |indexes| :: HasTree(indexes[k], hash)
    }

    predicate HasHeap(k: nat) {
      k < |indexes| && HeapOf(indexes[k])
    }

    /** The pairs that the heap of an attribute holds. */
    ghost function Held(k: nat): multiset<H.Pair>
      requires Valid() && HasHeap(k)
    {
      H.Pairs(indexes[k].value.store)
    }

    /** The pairs that the rows call for in an index on an attribute. */
    function CalledFor(k: nat): multiset<H.Pair>
      requires Valid() && k < |domains|
    {
      EntriesOf(rows, k, 0)
    }

    /** Every heap has exactly the values of its column with their rows. */
    ghost predicate Agrees()
      requires Valid()
    {
      forall k | 0 <= k < |domains| && HasHeap(k) :: Held(k) == CalledFor(k)
    }

    predicate Proper(values: seq<Given>) {
      |values| == |domains|
    }

    /** The attribute takes its value and so does its index. */
    predicate Takes(values: seq<Given>, k: nat)
      requires Valid() && Proper(values) && k < |domains|
    {
      DomainsMatch(domains[k], values[k].domain) && Put(indexes[k], hash, values[k].number, nextRow).1
    }

    /** The attribute at which an insertion stops, if there is one. */
    function Stop(values: seq<Given>, k: nat): (stop: nat)
      requires Valid() && Proper(values) && k <= |domains|
      ensures k <= stop <= |domains|
      ensures forall j | k <= j < stop :: Takes(values, j)
      ensures stop < |domains| ==> !Takes(values, stop)
      decreases |domains| - k
    {
      if k == |domains| || !Takes(values, k) then k else Stop(values, k + 1)
    }

    /** The indexes when the first n of them have been given their values. */
    function Entered(values: seq<Given>, n: nat): (entered: seq<Option<IndexData>>)
      requires Valid() && Proper(values)
      ensures |entered| == |domains|
      ensures forall k | 0 <= k < |domains| :: HasTree(entered[k], hash) && (HeapOf(entered[k]) <==> HeapOf(indexes[k]))
    {
      seq(|domains|, j requires 0 <= j < |domains| =>
        if j < n then Put(indexes[j], hash, values[j].number, nextRow).0 else indexes[j])
    }

    function Record(values: seq<Given>, n: nat): seq<long>
      requires n <= |values| == |domains|
    {
      seq(n, j requires 0 <= j < n => Stored(domains[j], values[j].number))
    }

    /** The state after an insertion. An index that refuses its value may have split a bucket. */
    function After(values: seq<Given>): (s: State)
      requires Valid() && Proper(values)
      ensures s.Valid() && s.domains == domains && s.hash == hash
      ensures forall k | 0 <= k < |domains| :: s.HasHeap(k) <==> HasHeap(k)
    {
      var stop := Stop(values, 0);
      if stop == |domains| then State(hash, domains, rows + [Record(values, stop)], Entered(values, stop), nextRow + 1)
      else this.(indexes := Entered(values, if DomainsMatch(domains[stop], values[stop].domain) then stop + 1 else stop))
    }

    /** What an insertion adds to the heap of an attribute. */
    function Added(values: seq<Given>, k: nat): multiset<H.Pair>
      requires Valid() && Proper(values) && k < |domains|
    {
      if k < Stop(values, 0) then multiset{H.EntryOf(values[k].number, nextRow)} else multiset{}
    }

    /** What an insertion leaves behind in that heap when it fails. */
    function Leaves(values: seq<Given>, k: nat): multiset<H.Pair>
      requires Valid() && Proper(values) && k < |domains|
    {
      if Stop(values, 0) == |domains| then multiset{} else Added(values, k)
    }

    /** An insertion gives each heap it reaches its entry, and moves no pair of the others. */
    lemma AfterHolds(values: seq<Given>, k: nat)
      requires Valid() && Proper(values) && k < |domains| && HasHeap(k)
      ensures After(values).Held(k) == Held(k) + Added(values, k)
    {
      hide H.Insert, H.Pairs, H.WellFormed, H.Sized, EntriesOf, Put;
      PutHolds(indexes[k], hash, values[k].number, nextRow);
      if k < Stop(values, 0) {
        assert Takes(values, k);
      } else if DomainsMatch(domains[k], values[k].domain) && k == Stop(values, 0) {
        assert !Takes(values, k);
      }
    }

    lemma EnteredNone(values: seq<Given>)
      requires Valid() && Proper(values)
      ensures Entered(values, 0) == indexes
    {
    }

    lemma EnteredOneMore(values: seq<Given>, k: nat)
      requires Valid() && Proper(values) && k < |domains|
      ensures Entered(values, k)[k] == indexes[k]
      ensures Entered(values, k)[k := Put(indexes[k], hash, values[k].number, nextRow).0] == Entered(values, k + 1)
      ensures Stop(values, k) == if Takes(values, k) then Stop(values, k + 1) else k
    {
      hide Takes, HasTree, Put;
    }

    /** The rows call for one more entry after a successful insertion, with the number of the row. */
    lemma AfterCallsFor(values: seq<Given>, k: nat)
      requires Valid() && Proper(values) && k < |domains|
      ensures After(values).CalledFor(k) == CalledFor(k) +
                if Stop(values, 0) == |domains| then multiset{H.EntryOf(values[k].number, |rows|)} else multiset{}
    {
      hide Takes, HasTree, Put, Stored;
      if Stop(values, 0) == |domains| {
        var record := Record(values, |domains|);
        assert (rows + [record])[..|rows|] == rows;
        SameKey(domains[k], values[k].number, |rows|);
      }
    }
  }

  lemma SameKey(domain: Domain, number: long, row: nat)
    ensures H.EntryOf(Stored(domain, number), row) == H.EntryOf(number, row)
  {
  }

  /** An insertion either adds no row or adds the given numbers as the last row: a LONG as it is, also if
      an INT is given for it, and an INT as long as it has 16 bits. */
  lemma RowIsGiven(s: State, values: seq<Given>)
    requires s.Valid() && s.Proper(values)
    ensures var t, n := s.After(values), |s.rows|;
            t.rows == s.rows ||
            (&& |t.rows| == n + 1 && t.rows[..n] == s.rows
             && (forall k | 0 <= k < |s.domains| && s.domains[k] == LongDomain :: t.rows[n][k] == values[k].number)
             && forall k | 0 <= k < |s.domains| && s.domains[k] == IntDomain ::
                  && 0 <= t.rows[n][k] < 0x1_0000 && (t.rows[n][k] - values[k].number) % 0x1_0000 == 0
                  && (t.rows[n][k] == values[k].number <==> 0 <= values[k].number < 0x1_0000))
  {
    hide State.Takes, HasTree, Put;
    if s.Stop(values, 0) == |s.domains| {
      forall k | 0 <= k < |s.domains| && s.domains[k] == IntDomain
        ensures var w := Stored(s.domains[k], values[k].number);
                && 0 <= w < 0x1_0000 && (w - values[k].number) % 0x1_0000 == 0
                && (w == values[k].number <==> 0 <= values[k].number < 0x1_0000)
      {
      }
      assert s.After(values).rows == s.rows + [s.Record(values, |s.domains|)];
    }
  }

  /** Without a heap, whether the row is added depends on the domains alone; an INT will do for a LONG. */
  lemma AddedByDomains(s: State, values: seq<Given>)
    requires s.Valid() && s.Proper(values) && forall k | 0 <= k < |s.domains| :: !s.HasHeap(k)
    ensures |s.After(values).rows| == |s.rows| + 1 <==>
              forall k | 0 <= k < |s.domains| ::
                values[k].domain == s.domains[k] || (s.domains[k] == LongDomain && values[k].domain == IntDomain)
  {
    hide H.Insert, H.WellFormed, H.Sized;
    var stop := s.Stop(values, 0);
    if stop < |s.domains| {
      assert !s.Takes(values, stop) && !s.HasHeap(stop);
    } else {
      forall k | 0 <= k < |s.domains|
        ensures values[k].domain == s.domains[k] || (s.domains[k] == LongDomain && values[k].domain == IntDomain)
      {
        assert s.Takes(values, k);
      }
    }
  }

  /** An insertion keeps the heaps in agreement with the rows exactly in these cases: it succeeds and
      the next row number is right, or it fails before it has reached a heap, or there is none. */
  lemma InsertAgrees(s: State, values: seq<Given>)
    requires s.Valid() && s.Proper(values) && s.Agrees()
    ensures var stop := s.Stop(values, 0);
            s.After(values).Agrees() <==>
              if stop < |s.domains| then forall k | 0 <= k < stop :: !s.HasHeap(k)
              else Low16(s.nextRow) == Low16(|s.rows|) || forall k | 0 <= k < |s.domains| :: !s.HasHeap(k)
  {
    hide State.Valid, State.Takes, State.Held, State.HasHeap, State.CalledFor, State.After;
    var stop, s' := s.Stop(values, 0), s.After(values);
    forall k: nat | k < |s.domains| && s.HasHeap(k)
      ensures s'.Held(k) == s'.CalledFor(k) <==>
                if stop < |s.domains| then k >= stop else Low16(s.nextRow) == Low16(|s.rows|)
    {
      s.AfterHolds(values, k);
      s.AfterCallsFor(values, k);
      var held := s.Held(k);
      var entry := H.EntryOf(values[k].number, s.nextRow);
      SameAddition(held, entry, H.EntryOf(values[k].number, |s.rows|));
      assert (held + multiset{entry})[entry] == held[entry] + 1;
    }
  }

  lemma SameAddition(m: multiset<H.Pair>, a: H.Pair, b: H.Pair)
    ensures m + multiset{a} == m + multiset{b} <==> a == b
  {
    if a != b {
      assert (m + multiset{a})[a] == m[a] + 1 && (m + multiset{b})[a] == m[a];
    }
  }

  // ----- Whole runs -----

  ghost predicate ProperRun(n: nat, run: seq<seq<Given>>) {
    forall values <- run :: |values| == n
  }

  function Run(s: State, run: seq<seq<Given>>): (t: State)
    requires s.Valid() && ProperRun(|s.domains|, run)
    ensures t.Valid() && t.domains == s.domains && t.hash == s.hash
    ensures forall k | 0 <= k < |s.domains| :: t.HasHeap(k) <==> s.HasHeap(k)
    decreases |run|
  {
    if run == [] then s else Run(s.After(run[0]), run[1..])
  }

  /** What the failing insertions of a run leave behind in a heap. */
  function Leftovers(s: State, run: seq<seq<Given>>, k: nat): multiset<H.Pair>
    requires s.Valid() && ProperRun(|s.domains|, run) && k < |s.domains|
    decreases |run|
  {
    if run == [] then multiset{} else s.Leaves(run[0], k) + Leftovers(s.After(run[0]), run[1..], k)
  }

  /** Nothing is lost and nothing else is added: in every run, a heap holds the entries of the rows
      and those that failing insertions have left behind. */
  lemma {:induction false} RunConserves(s: State, run: seq<seq<Given>>, k: nat)
    requires s.Valid() && ProperRun(|s.domains|, run) && k < |s.domains| && s.HasHeap(k) && s.nextRow == |s.rows|
    ensures var t := Run(s, run);
            && t.nextRow == |t.rows|
            && t.Held(k) + s.CalledFor(k) == s.Held(k) + t.CalledFor(k) + Leftovers(s, run, k)
    decreases |run|
  {
    hide State.Valid, State.Held, State.HasHeap, State.CalledFor, State.After, State.Leaves;
    if run != [] {
      assert run[0] in run;
      CountsRows(s, run[0]);
      StepConserves(s, run[0], k);
      var s', t := s.After(run[0]), Run(s, run);
      RunConserves(s', run[1..], k);
      Chain(t.Held(k), t.CalledFor(k), s'.Held(k), s'.CalledFor(k), s.Held(k), s.CalledFor(k),
            Leftovers(s', run[1..], k), s.Leaves(run[0], k));
    }
  }

  lemma Chain(h2: multiset<H.Pair>, c2: multiset<H.Pair>, h1: multiset<H.Pair>, c1: multiset<H.Pair>,
              h0: multiset<H.Pair>, c0: multiset<H.Pair>, later: multiset<H.Pair>, now: multiset<H.Pair>)
    requires h2 + c1 == h1 + c2 + later && h1 + c0 == h0 + c1 + now
    ensures h2 + c0 == h0 + c2 + (now + later)
  {
    forall p: H.Pair
      ensures (h2 + c0)[p] == (h0 + c2 + (now + later))[p]
    {
      assert (h2 + c1)[p] == (h1 + c2 + later)[p] && (h1 + c0)[p] == (h0 + c1 + now)[p];
    }
  }

  lemma CountsRows(s: State, values: seq<Given>)
    requires s.Valid() && s.Proper(values) && s.nextRow == |s.rows|
    ensures s.After(values).nextRow == |s.After(values).rows|
  {
    hide State.Takes;
  }

  lemma StepConserves(s: State, values: seq<Given>, k: nat)
    requires s.Valid() && s.Proper(values) && k < |s.domains| && s.HasHeap(k) && s.nextRow == |s.rows|
    ensures var t := s.After(values);
            t.Held(k) + s.CalledFor(k) == s.Held(k) + t.CalledFor(k) + s.Leaves(values, k)
  {
    hide State.Takes, State.Held, State.CalledFor, State.Valid, State.HasHeap, State.After;
    s.AfterHolds(values, k);
    s.AfterCallsFor(values, k);
  }

  /** A relation without rows, and with new heaps. */
  ghost predicate New(s: State) {
    && s.Valid() && s.rows == [] && s.nextRow == 0
    && forall k | 0 <= k < |s.domains| && s.HasHeap(k) :: s.Held(k) == multiset{} == s.CalledFor(k)
  }

  /** Over all runs: the heaps agree with the rows exactly if no failing insertion has reached one. */
  lemma RunAgrees(s: State, run: seq<seq<Given>>)
    requires New(s) && ProperRun(|s.domains|, run)
    ensures Run(s, run).Agrees() <==>
              forall k | 0 <= k < |s.domains| && s.HasHeap(k) :: Leftovers(s, run, k) == multiset{}
  {
    hide State.Valid, State.Held, State.HasHeap, State.CalledFor, Run, Leftovers;
    forall k: nat | k < |s.domains| && s.HasHeap(k)
      ensures Run(s, run).Held(k) == Run(s, run).CalledFor(k) <==> Leftovers(s, run, k) == multiset{}
    {
      RunConserves(s, run, k);
      NothingMore(Run(s, run).Held(k), Run(s, run).CalledFor(k), Leftovers(s, run, k));
    }
  }

  lemma NothingMore(held: multiset<H.Pair>, called: multiset<H.Pair>, more: multiset<H.Pair>)
    requires held + multiset{} == multiset{} + called + more
    ensures held == called + more && (held == called <==> more == multiset{})
  {
    assert forall p: H.Pair :: held[p] == (multiset{} + called + more)[p];
  }

  /** A failing insertion leaves its entry to the row that is inserted next: the heap then holds two
      entries with the number of that row. */
  lemma LeftOverEntry(s: State, failing: seq<Given>, values: seq<Given>, k: nat)
    requires s.Valid() && s.Proper(failing) && s.Proper(values) && s.HasHeap(k)
    requires k < s.Stop(failing, 0) < |s.domains| && s.After(failing).Stop(values, 0) == |s.domains|
    ensures var t := s.After(failing).After(values);
            t.Held(k) == s.Held(k) + multiset{H.EntryOf(failing[k].number, s.nextRow), H.EntryOf(values[k].number, s.nextRow)}
  {
    hide State.Takes, State.Held, State.HasHeap, State.CalledFor, EntriesOf, HasTree;
    s.AfterHolds(failing, k);
    s.After(failing).AfterHolds(values, k);
  }

  // ----- Loading -----

  lemma NoEntries(rows: seq<seq<long>>, k: nat, first: nat)
    requires forall r <- rows :: k < |r|
    ensures EntriesOf(rows[..0], k, first) == multiset{}
  {
  }

  lemma {:induction false} EntriesMembers(rows: seq<seq<long>>, k: nat, first: nat)
    requires forall r <- rows :: k < |r|
    ensures forall i | 0 <= i < |rows| :: H.EntryOf(rows[i][k], first + i) in EntriesOf(rows, k, first)
    ensures first == 0 ==> forall p <- EntriesOf(rows, k, first) :: p.value < |rows|
  {
    if rows != [] {
      EntriesMembers(rows[..|rows| - 1], k, first);
    }
  }

  lemma {:induction false} EntriesByLow16(rows: seq<seq<long>>, k: nat, first: nat)
    requires (forall r <- rows :: k < |r|) && Low16(first) == 0
    ensures EntriesOf(rows, k, first) == EntriesOf(rows, k, 0)
  {
    hide Low16;
    if rows != [] {
      EntriesByLow16(rows[..|rows| - 1], k, first);
      SameLow16(first, |rows| - 1);
    }
  }

  lemma SameLow16(first: nat, n: nat)
    requires Low16(first) == 0
    ensures Low16(first + n) == Low16(n)
  {
  }

  /** The row counter of the loader is never set back. Loading gives an index the entries that the
      rows call for exactly if the counter started at a multiple of 2^16, or there are no rows. */
  lemma LoadAgrees(rows: seq<seq<long>>, k: nat, first: nat)
    requires (forall r <- rows :: k < |r|) && |rows| < 0x1_0000
    ensures EntriesOf(rows, k, first) == EntriesOf(rows, k, 0) <==> rows == [] || Low16(first) == 0
  {
    hide EntriesOf, Low16;
    if rows == [] {
      assert rows[..0] == rows;
      NoEntries(rows, k, first);
      NoEntries(rows, k, 0);
    } else if Low16(first) == 0 {
      EntriesByLow16(rows, k, first);
    } else {
      EntriesMembers(rows, k, first);
      EntriesMembers(rows, k, 0);
      var i := Outside(first, |rows|);
      assert H.EntryOf(rows[i][k], first + i) in EntriesOf(rows, k, first);
    }
  }

  /** Tuple ids that do not start at 0 leave the range of the rows. */
  lemma Outside(first: nat, n: nat) returns (i: nat)
    requires Low16(first) != 0 && 0 < n < 0x1_0000
    ensures i < n && Low16(first + i) >= n
  {
    i := Min(n - 1, 0xffff - Low16(first));
    var turns := first / 0x1_0000;
    assert first == turns * 0x1_0000 + Low16(first);
  }

  // ----- The relation as it is updated -----

  class Table {
    const hash: Hash
    const domains: seq<Domain>
    var rows: seq<seq<long>>
    var indexes: seq<Option<IndexData>>
    var nextRow: nat

    constructor (hash: Hash, domains: seq<Domain>)
      ensures Abstract() == State(hash, domains, [], seq(|domains|, k => None), 0) && New(Abstract())
    {
      this.hash, this.domains, rows, nextRow := hash, domains, [], 0;
      indexes := seq(|domains|, k => None);
    }

    ghost function Abstract(): State
      reads this
    {
      State(hash, domains, rows, indexes, nextRow)
    }

    /** index_create: a heap starts out empty. If there are rows, a request to load them follows. */
    method CreateIndex(k: nat, heap: bool) returns (status: int)
      requires Abstract().Valid() && k < |domains|
      modifies this`indexes
      ensures Abstract().Valid()
      ensures if domains[k] == StringDomain || old(indexes)[k].Some? then status == DB_INDEX_ERROR && indexes == old(indexes)
              else status == DB_OK && indexes == old(indexes)[k := Some(if heap then Heap(H.Fresh()) else Inline)]
      ensures status == DB_OK && heap ==> Abstract().Held(k) == multiset{}
      ensures old(Abstract().Agrees()) && rows == [] ==> Abstract().Agrees()
    {
      hide H.Fresh, H.PairsBelow, H.WellFormed;
      if domains[k] == StringDomain || indexes[k].Some? {
        return DB_INDEX_ERROR;
      }
      H.FreshIsWellFormed(hash);
      H.WellFormedIsSized(H.Fresh(), hash);
      H.FreshHoldsNothing(H.NODE_LIMIT);
      ghost var before := Abstract();
      indexes := indexes[k := Some(if heap then Heap(H.Fresh()) else Inline)];
      forall j: nat | j < |domains| && Abstract().HasHeap(j) && before.Agrees() && rows == []
        ensures Abstract().Held(j) == Abstract().CalledFor(j)
      {
        assert j != k ==> before.HasHeap(j) && Abstract().Held(j) == before.Held(j) == before.CalledFor(j);
      }
      return DB_OK;
    }

    /** relation_insert; the storage of the row is assumed to succeed. */
    method InsertRow(values: seq<Given>) returns (status: int)
      requires Abstract().Valid() && Abstract().Proper(values)
      modifies this
      ensures Abstract() == old(Abstract().After(values))
      ensures var stop := old(Abstract().Stop(values, 0));
              status == if stop == |domains| then DB_OK
                        else if DomainsMatch(domains[stop], values[stop].domain) then DB_INDEX_ERROR else DB_RELATIONAL_ERROR
    {
      hide HasTree, Put, State.Entered, State.Stop;
      ghost var before := Abstract();
      before.EnteredNone(values);
      var record: seq<long> := [];
      for k := 0 to |domains|
        invariant before.Valid() && rows == before.rows && nextRow == before.nextRow
        invariant record == before.Record(values, k) && indexes == before.Entered(values, k)
        invariant before.Stop(values, 0) == before.Stop(values, k)
      {
        before.EnteredOneMore(values, k);
        if !DomainsMatch(domains[k], values[k].domain) {
          return DB_RELATIONAL_ERROR;
        }
        record := record + [Stored(domains[k], values[k].number)];
        var (index, ok) := Put(indexes[k], hash, values[k].number, nextRow);
        indexes := indexes[k := index];
        if !ok {
          return DB_INDEX_ERROR;
        }
      }
      nextRow := nextRow + 1;
      rows := rows + [record];
      return DB_OK;
    }
  }

  /** The process that loads indexes, one after the other. */
  class Indexer {
    var row: nat

    constructor ()
      ensures row == 0
    {
      row := 0;
    }

    /** An index gets the values of its attribute in all rows, until it refuses one. */
    method Load(table: Table, k: nat) returns (ok: bool, ghost n: nat)
      requires table.Abstract().Valid() && k < |table.domains|
      modifies this, table`indexes
      ensures table.Abstract().Valid() && table.indexes == old(table.indexes)[k := table.indexes[k]]
      ensures n <= |table.rows| && row == old(row) + n && (ok <==> n == |table.rows|)
      ensures table.Abstract().HasHeap(k) <==> old(table.Abstract().HasHeap(k))
      ensures table.Abstract().HasHeap(k) ==>
                table.Abstract().Held(k) == old(table.Abstract().Held(k)) + EntriesOf(table.rows[..n], k, old(row))
    {
      hide HasTree, Put, EntriesOf, H.Pairs, State.Held, State.HasHeap;
      n := 0;
      NoEntries(table.rows, k, row);
      var i := 0;
      ghost var before := table.Abstract();
      while i < |table.rows|
        invariant i == n <= |table.rows| && row == old(row) + n
        invariant table.Abstract().Valid() && table.indexes == old(table.indexes)[k := table.indexes[k]]
        invariant table.Abstract().HasHeap(k) <==> before.HasHeap(k)
        invariant table.Abstract().HasHeap(k) ==>
                    table.Abstract().Held(k) == before.Held(k) + EntriesOf(table.rows[..n], k, old(row))
      {
        LoadedOneMore(table.Abstract(), k, table.rows[i][k], row);
        OneEntryMore(table.rows, k, old(row), n);
        var (index, taken) := Put(table.indexes[k], table.hash, table.rows[i][k], row);
        table.indexes := table.indexes[k := index];
        if !taken {
          return false, n;
        }
        i, n, row := i + 1, n + 1, row + 1;
      }
      assert table.rows[..n] == table.rows;
      return true, n;
    }
  }

  lemma OneEntryMore(rows: seq<seq<long>>, k: nat, first: nat, n: nat)
    requires (forall r <- rows :: k < |r|) && n < |rows|
    ensures EntriesOf(rows[..n + 1], k, first) == EntriesOf(rows[..n], k, first) + multiset{H.EntryOf(rows[n][k], first + n)}
  {
    assert rows[..n + 1][..n] == rows[..n];
  }

  lemma LoadedOneMore(s: State, k: nat, number: long, row: nat)
    requires s.Valid() && k < |s.domains|
    ensures var (index, ok) := Put(s.indexes[k], s.hash, number, row);
            var t := s.(indexes := s.indexes[k := index]);
            && t.Valid() && (t.HasHeap(k) <==> s.HasHeap(k))
            && (s.HasHeap(k) ==> t.Held(k) == s.Held(k) + if ok then multiset{H.EntryOf(number, row)} else multiset{})
  {
    hide HasTree, Put, H.Pairs;
    PutHolds(s.indexes[k], s.hash, number, row);
  }

  lemma PutHolds(index: Option<IndexData>, hash: Hash, number: long, row: nat)
    requires HasTree(index, hash)
    ensures var (after, ok) := Put(index, hash, number, row);
            HeapOf(index) ==>
              H.Pairs(after.value.store) == H.Pairs(index.value.store) + if ok then multiset{H.EntryOf(number, row)} else multiset{}
  {
    hide H.Insert, H.Pairs, H.WellFormed, H.Sized;
    if HeapOf(index) {
      H.InsertPairs(index.value.store, hash, H.EntryOf(number, row));
    }
  }
}
