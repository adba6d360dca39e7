/** The MaxHeap index as the code runs it: the files and tables it updates in place, the
    bucket cache, and the search state that get_next keeps between calls. */
module MaxHeap {
  import opened Basics
  import opened MaxHeapSpec

  const NODE_DEPTH := 9

  /** What get_next still returns for a key when it is about to look at the bucket at `level` of the
      path: `start` is the slot it begins at, and n occurrences are passed over first. They are
      passed over only when a search was started again, and then `start` is 0. */
  ghost function Rest(s: Store, path: seq<nat>, level: int, start: nat, key: uint16, n: nat): seq<Loc>
    requires Sized(s) && level < |path| && forall k | 0 <= k < |path| :: path[k] < BOTTOM
  {
    if start == 0 then Again(s, path, level, 0, key, n) else KeyHits(s, path, level, start, key)
  }

  /** One call delivers the head of what was pending and leaves the tail, or finds nothing. */
  ghost predicate Delivers(s: Store, todo: seq<Loc>, value: Option<uint16>, left: seq<Loc>)
    requires Sized(s)
  {
    if todo == [] then value == None && left == []
    else
      && todo[0].node < NODE_LIMIT && todo[0].slot < s.fill[todo[0].node]
      && value == Some(s.buckets[todo[0].node][todo[0].slot].value)
      && left == todo[1..]
  }

  class IndexIterator {
    var minValue: long
    var maxValue: long
    var nextItemNo: nat

    constructor (low: long, high: long)
      ensures minValue == low && maxValue == high && nextItemNo == 0
    {
      minValue, maxValue, nextItemNo := low, high, 0;
    }
  }

  /** The ancestors of c, and c itself. */
  ghost predicate Above(a: nat, c: nat) {
    a == c || (c > 0 && Above(a, Parent(c)))
  }

  /** heap_insert reaches the free node c: every node it passes on the way is in use. */
  ghost predicate ReadyFor(nodes: seq<Node>, c: nat)
    requires |nodes| == NODE_LIMIT && c < NODE_LIMIT
  {
    c > 0 ==>
      var p := Parent(c);
      && nodes[p] == Span(p) && ReadyFor(nodes, p)
      && (c == Right(p) ==> nodes[Left(p)] == Span(Left(p)))
  }

  lemma {:induction false} AboveContains(nodes: seq<Node>, a: nat, c: nat)
    requires |nodes| == NODE_LIMIT && c < NODE_LIMIT && ReadyFor(nodes, c) && Above(a, c)
    ensures a <= c && ReadyFor(nodes, a)
    ensures Low(a) <= Low(c) && Low(c) + Width(c) <= Low(a) + Width(a)
    ensures a != c ==> a < BOTTOM && nodes[a] == Span(a) && (Above(Left(a), c) || Above(Right(a), c))
  {
    if a != c {
      var p := Parent(c);
      AboveContains(nodes, a, p);
      Halves(p);
      assert c == Left(p) || c == Right(p);
      assert Above(c, c);
    }
  }

  /** heap_insert is on its way to c: at an ancestor of c, or at the left sibling of one. */
  ghost predicate Tracks(i: nat, c: nat) {
    Above(i, c) || (i % 2 == 1 && Above(i + 1, c))
  }

  lemma StepAtAncestor(nodes: seq<Node>, i: nat, c: nat)
    requires |nodes| == NODE_LIMIT && c < NODE_LIMIT && ReadyFor(nodes, c) && Above(i, c) && i != c
    ensures i < BOTTOM && nodes[i] != EMPTY_NODE && Tracks(2 * i + 1, c)
    ensures nodes[i].min <= Span(c).min && Span(c).max <= nodes[i].max
  {
    hide Low, Width;
    AboveContains(nodes, i, c);
    SpanBounds(i);
    SpanBounds(c);
    assert Left(i) == 2 * i + 1 && Right(i) == 2 * i + 1 + 1;
  }

  lemma StepAtSibling(nodes: seq<Node>, i: nat, c: nat)
    requires |nodes| == NODE_LIMIT && c < NODE_LIMIT && ReadyFor(nodes, c) && i % 2 == 1 && Above(i + 1, c)
    ensures i + 1 < NODE_LIMIT && nodes[i] != EMPTY_NODE && nodes[i].max < Span(c).min
  {
    AboveContains(nodes, i + 1, c);
    var p := Parent(i + 1);
    assert i == Left(p) && i + 1 == Right(p);
    Halves(p);
    SpanBounds(i);
    SpanBounds(c);
  }

  /** heap_find starts at the root, or at the left child of a used node that covers the hash. */
  ghost predicate Searching(nodes: seq<Node>, from: nat, h: uint16)
    requires |nodes| == NODE_LIMIT
  {
    from > 0 ==>
      var p := Parent(from);
      from == Left(p) && p < BOTTOM && Used(nodes, p) && Covers(p, h)
  }

  /** The node heap_find looks for: the root, or the child that covers the hash. */
  ghost function Candidate(from: nat, h: uint16): nat {
    if from == 0 then 0 else ChildFor(Parent(from), h)
  }

  /** Between `from` and the candidate, nodes are in use and only the candidate covers h. */
  lemma CandidateFound(nodes: seq<Node>, from: nat, h: uint16)
    requires Shaped(nodes) && Searching(nodes, from, h)
    ensures var c := Candidate(from, h);
            && from <= c <= from + 1 && c < NODE_LIMIT && Covers(c, h)
            && (Used(nodes, c) <==> Used(nodes, from))
            && (Used(nodes, c) ==>
                  && nodes[c].min <= h <= nodes[c].max
                  && (c != from ==> !(nodes[from].min <= h <= nodes[from].max)))
  {
    var c := Candidate(from, h);
    if from == 0 {
      RootCovers(h);
    } else {
      var p := Parent(from);
      ChildCovers(p, h);
      Halves(p);
      assert Used(nodes, Left(p)) <==> Used(nodes, Right(p));
    }
    SpanBounds(c);
    SpanBounds(from);
  }

  lemma {:induction false} UsedMeansReady(nodes: seq<Node>, i: nat)
    requires Shaped(nodes) && i < NODE_LIMIT && Used(nodes, i)
    ensures ReadyFor(nodes, i)
  {
    if i > 0 {
      var p := Parent(i);
      assert Used(nodes, p);
      UsedMeansReady(nodes, p);
      assert i == Left(p) || i == Right(p);
      assert Used(nodes, Left(p));
    }
  }

  class Heap {
    const hash: uint16 -> uint16
    var nodes: seq<Node>
    var buckets: seq<seq<Pair>>
    const nextFreeSlot: array<nat>
    const cache: array<CacheEntry>
    // The search that get_next remembers.
    var current: IndexIterator?
    var heapIterator: int
    var foundItems: nat
    var start: nat
    const visited: array<int>

    ghost function Files(): Store
      reads this`nodes, this`buckets, nextFreeSlot
    {
      Store(nodes, buckets, nextFreeSlot[..])
    }

    ghost predicate Valid()
      reads this`nodes, this`buckets, nextFreeSlot, cache
    {
      && visited.Length == NODE_DEPTH && cache.Length > 0
      && visited as object != nextFreeSlot as object
      && WellFormed(Files(), hash)
      && Coherent(Files(), cache[..])
    }

    /** create: fresh files with the root covering all hash values, and an empty cache. */
    constructor (hash: uint16 -> uint16, cacheLimit: nat)
      requires cacheLimit > 0
      ensures Valid() && this.hash == hash && Files() == Fresh()
      ensures fresh(nextFreeSlot) && fresh(cache) && fresh(visited)
    {
      this.hash := hash;
      nodes := seq(NODE_LIMIT, i => EMPTY_NODE);
      buckets := seq(NODE_LIMIT, i => seq(BUCKET_SIZE, j => EMPTY_PAIR));
      nextFreeSlot := new nat[NODE_LIMIT](i => 0);
      cache := new CacheEntry[cacheLimit](i => CacheEntry(false, 0, seq(BUCKET_SIZE, j => EMPTY_PAIR)));
      visited := new int[NODE_DEPTH](i => -1);
      current, heapIterator, foundItems, start := null, -1, 0, 0;
      new;
      SpanBounds(0);
      var root := HeapInsert(0, 65535, 0);
      FreshIsWellFormed(hash);
      assert nextFreeSlot[..] == Fresh().fill;
      assert Files() == Fresh();
    }

    method HeapInsert(min: uint16, max: uint16, ghost c: nat) returns (id: int)
      requires |nodes| == NODE_LIMIT && c < NODE_LIMIT && Node(min, max) == Span(c)
      requires ReadyFor(nodes, c)
      requires nodes[c] == EMPTY_NODE || (nodes[c] == Span(c) && c >= BOTTOM)
      modifies this`nodes
      ensures if old(nodes)[c] == EMPTY_NODE
              then id == c && nodes == old(nodes)[c := Span(c)]
              else id == -1 && nodes == old(nodes)
    {
      hide Low, Width;
      SpanBounds(c);
      if min > max {
        return -1;
      }
      AboveRoot(c);
      var i := 0;
      while i < NODE_LIMIT
        invariant nodes == old(nodes) && i >= 0
        invariant i < NODE_LIMIT ==> Tracks(i, c)
        invariant i >= NODE_LIMIT ==> nodes[c] != EMPTY_NODE
        decreases NODE_LIMIT - i
      {
        var node := nodes[i];
        if Above(i, c) {
          if i != c {
            StepAtAncestor(nodes, i, c);
          }
        } else {
          StepAtSibling(nodes, i, c);
        }
        if node == EMPTY_NODE {
          nodes := nodes[i := Node(min, max)];
          return i;
        } else if node.min <= min && max <= node.max {
          i := 2 * i + 1;
        } else {
          i := i + 1;
        }
      }
      return -1;
    }

    method HeapFind(key: uint16, from: nat) returns (id: int, next: nat)
      requires Shaped(nodes) && Searching(nodes, from, hash(key))
      ensures var c := Candidate(from, hash(key));
              if c < BOTTOM && Used(nodes, c)
              then id == c && next == Left(c) && Covers(c, hash(key))
              else id == -1 && next == from
    {
      hide Low, Width;
      var hashedKey := hash(key);
      ghost var c := Candidate(from, hashedKey);
      CandidateFound(nodes, from, hashedKey);
      var i := from;
      id, next := -1, from;
      while i < NODE_LIMIT
        invariant from <= i <= c
        invariant id == -1 && next == from
        decreases NODE_LIMIT - i
      {
        var node := nodes[i];
        if node == EMPTY_NODE {
          return;
        }
        if node.min <= hashedKey && hashedKey <= node.max {
          var firstChild := 2 * i + 1;
          if firstChild < NODE_LIMIT {
            id, next := i, firstChild;
          }
          return;
        }
        i := i + 1;
      }
    }

    method BucketAppend(b: nat, pair: Pair) returns (ok: bool)
      requires Sized(Files()) && b < NODE_LIMIT
      modifies this`buckets, nextFreeSlot
      ensures ok == (old(nextFreeSlot[b]) < BUCKET_SIZE)
      ensures Files() == if ok then Append(old(Files()), b, pair) else old(Files())
    {
      if nextFreeSlot[b] >= BUCKET_SIZE {
        return false;
      }
      buckets := buckets[b := buckets[b][nextFreeSlot[b] := pair]];
      nextFreeSlot[b] := nextFreeSlot[b] + 1;
      return true;
    }

    method BucketSplit(b: nat) returns (ok: bool)
      requires Shaped(nodes) && b < BOTTOM && Used(nodes, b)
      requires Used(nodes, Left(b)) ==> Left(b) >= BOTTOM
      modifies this`nodes
      ensures ok == !old(Used(nodes, Left(b)))
      ensures nodes == old(nodes)[Left(b) := Span(Left(b))][Right(b) := Span(Right(b))]
    {
      hide Low, Width, ReadyFor;
      SplitRanges(nodes, b);
      ReadyAfter(nodes, b);
      var node := nodes[b];
      var mean := node.min + (node.max - node.min) / 2;
      var smallIndex := HeapInsert(node.min, mean, Left(b));
      if smallIndex < 0 {
        return false;
      }
      var largeIndex := HeapInsert(mean + 1, node.max, Right(b));
      if largeIndex < 0 {
        return false;
      }
      return true;
    }

    /** The loop at the head of insert_item: call heap_find until it fails. */
    method FindDeepest(key: uint16) returns (lastGood: int, from: nat)
      requires Shaped(nodes)
      ensures lastGood == Deepest(nodes, hash(key)) && from == Left(lastGood)
      ensures Used(nodes, lastGood) && Covers(lastGood, hash(key))
    {
      hide Low, Width, PathFrom;
      ghost var h := hash(key);
      RootCovers(h);
      from, lastGood := 0, -1;
      while true
        invariant from == 0 ==> lastGood == -1
        invariant from > 0 ==> 0 <= lastGood < BOTTOM && from == Left(lastGood)
        invariant from > 0 ==> Used(nodes, lastGood) && Covers(lastGood, h)
        invariant from > 0 ==> LastOf(PathFrom(nodes, lastGood, h)) == Deepest(nodes, h)
        decreases NODE_LIMIT - from
      {
        if lastGood >= 0 {
          DeepestStep(nodes, lastGood, h);
        }
        var id: int;
        id, from := HeapFind(key, from);
        if id < 0 {
          break;
        }
        lastGood := id;
      }
    }

    /** insert_item does what `Insert` says, and leaves the cached copies alone. */
    method InsertItem(key: uint16, value: uint16) returns (ok: bool)
      requires WellFormed(Files(), hash)
      modifies this`nodes, this`buckets, nextFreeSlot
      ensures WellFormed(Files(), hash)
      ensures (Files(), ok) == Insert(old(Files()), hash, Pair(key, value))
    {
      hide Low, Width, Path;
      ghost var s, h := Files(), hash(key);
      InsertKeepsWellFormed(s, hash, Pair(key, value));
      InsertTarget(s, hash, h);
      var bucketId, from := FindDeepest(key);
      if bucketId < 0 {
        return false;
      }
      if nextFreeSlot[bucketId] == BUCKET_SIZE {
        SplitKeepsWellFormed(s, hash, bucketId);
        var split := BucketSplit(bucketId);
        if !split {
          return false;
        }
        SpanUsed(ChildFor(bucketId, h));
        assert Parent(from) == bucketId;
        bucketId, from := HeapFind(key, from);
        if bucketId < 0 {
          return false;
        }
      }
      ok := BucketAppend(bucketId, Pair(key, value));
    }

    method GetCache(b: nat) returns (k: nat)
      ensures k <= cache.Length
      ensures k < cache.Length ==> cache[k].used && cache[k].id == b
      ensures forall j | 0 <= j < k :: !(cache[j].used && cache[j].id == b)
    {
      k := 0;
      while k < cache.Length
        invariant 0 <= k <= cache.Length
        invariant forall j | 0 <= j < k :: !(cache[j].used && cache[j].id == b)
      {
        if cache[k].used && cache[k].id == b {
          return;
        }
        k := k + 1;
      }
    }

    method GetCacheFree() returns (k: nat)
      ensures k <= cache.Length
      ensures k < cache.Length ==> !cache[k].used
      ensures forall j | 0 <= j < k :: cache[j].used
    {
      k := 0;
      while k < cache.Length
        invariant 0 <= k <= cache.Length
        invariant forall j | 0 <= j < k :: cache[j].used
      {
        if !cache[k].used {
          return;
        }
        k := k + 1;
      }
    }

    /** The first used entry is freed, if there is one. */
    method InvalidateCache()
      modifies cache
      ensures var used := FirstUsed(old(cache[..]), 0);
              cache[..] == if used < cache.Length then old(cache[..])[used := old(cache[used]).(used := false)] else old(cache[..])
    {
      ghost var used := FirstUsed(cache[..], 0);
      var i := 0;
      while i < cache.Length
        invariant 0 <= i <= cache.Length && cache[..] == old(cache[..])
        invariant used == FirstUsed(cache[..], i)
      {
        if cache[i].used {
          cache[i] := cache[i].(used := false);
          break;
        }
        i := i + 1;
      }
    }

    method FirstEmpty(pairs: seq<Pair>) returns (i: nat)
      ensures i <= |pairs| && forall j | 0 <= j < i :: pairs[j] != EMPTY_PAIR
      ensures i < |pairs| ==> pairs[i] == EMPTY_PAIR
    {
      i := 0;
      while i < |pairs| && pairs[i] != EMPTY_PAIR
        invariant i <= |pairs| && forall j | 0 <= j < i :: pairs[j] != EMPTY_PAIR
      {
        i := i + 1;
      }
    }

    /** bucket_load: a cached copy if there is one, otherwise a copy read into a free entry,
        after dropping the first used entry if none is free. */
    method BucketLoad(b: nat) returns (k: nat)
      requires Valid() && b < BOTTOM
      modifies cache, nextFreeSlot
      ensures Valid() && Files() == old(Files())
      ensures k < cache.Length && |cache[k].pairs| == BUCKET_SIZE
      ensures forall j: nat | j < nextFreeSlot[b] :: cache[k].pairs[j] == buckets[b][j]
    {
      hide WellFormed, Coherent;
      ghost var s := Files();
      CacheFacts(s, hash, cache[..], b);
      k := GetCache(b);
      if k < cache.Length {
        assert cache[..][k] == cache[k];
        return;
      }
      k := GetCacheFree();
      if k == cache.Length {
        ghost var before := cache[..];
        InvalidateCache();
        assert FirstUsed(before, 0) == 0;
        assert !cache[..][0].used;
        k := GetCacheFree();
        DropKeepsCoherent(s, before, cache[..]);
      }
      var size := if nextFreeSlot[b] == 0 then BUCKET_SIZE else nextFreeSlot[b];
      ghost var before := cache[..];
      assert |before[k].pairs| == BUCKET_SIZE by { CoherentSizes(s, before); }
      cache[k] := CacheEntry(true, b, buckets[b][..size] + cache[k].pairs[size..]);
      assert cache[..] == before[k := cache[k]];
      LoadKeepsCoherent(s, before, k, cache[k]);
      if nextFreeSlot[b] == 0 {
        assert cache[k].pairs[0] == EMPTY_PAIR;
        var slot := FirstEmpty(cache[k].pairs);
        nextFreeSlot[b] := slot;
      }
      assert Files() == s;
    }

    // ----- get_next -----

    ghost function Key(it: IndexIterator): uint16
      reads it`minValue
    {
      Low16(it.minValue)
    }

    /** The search state get_next kept from its last call with this iterator. */
    ghost predicate Resumable(it: IndexIterator)
      requires Sized(Files())
      reads this, nextFreeSlot, visited, it
    {
      var path := Path(nodes, hash(Key(it)));
      && current == it && visited.Length == NODE_DEPTH
      && |path| <= NODE_DEPTH && (forall k | 0 <= k < |path| :: visited[k] == path[k])
      && -1 <= heapIterator < |path| && foundItems <= it.nextItemNo
      && (foundItems < it.nextItemNo ==> heapIterator == -1 && start == 0)
    }

    /** The iterator may be new, the one that was served last, or any other one. */
    ghost predicate Ready(it: IndexIterator)
      reads this, nextFreeSlot, cache, visited, it
    {
      Valid() && (current == it && it.nextItemNo > 0 ==> Resumable(it))
    }

    /** What the iterator still delivers for the key it is at. */
    ghost function KeyLeft(it: IndexIterator): seq<Loc>
      requires Ready(it)
      reads this, nextFreeSlot, cache, visited, it
    {
      var path := Path(nodes, hash(Key(it)));
      if current == it && it.nextItemNo > 0 then KeyHits(Files(), path, heapIterator, start, Key(it))
      else Again(Files(), path, |path| - 1, 0, Key(it), it.nextItemNo)
    }

    /** What the iterator still delivers for the keys behind that. */
    ghost function KeysLeft(it: IndexIterator): seq<Loc>
      requires Sized(Files())
      reads this`nodes, this`buckets, nextFreeSlot, it
    {
      RangeHits(Files(), hash, it.minValue + 1, it.minValue + Distance(it.minValue, it.maxValue))
    }

    /** The iterator has counted the items of its key. */
    ghost predicate Counts(it: IndexIterator)
      requires Ready(it)
      reads this, nextFreeSlot, cache, visited, it
    {
      it.nextItemNo + |KeyLeft(it)| == |HitsOf(Files(), hash, Key(it))|
    }

    /** A new iterator delivers the hits of its range. */
    lemma NewIterator(it: IndexIterator)
      requires Valid() && it.nextItemNo == 0
      ensures Ready(it) && Counts(it)
      ensures KeyLeft(it) + KeysLeft(it) ==
                RangeHits(Files(), hash, it.minValue, it.minValue + Distance(it.minValue, it.maxValue))
    {
      hide Path, KeyHits, Again, WellFormed, Coherent;
      WellFormedIsSized(Files(), hash);
      var path := Path(nodes, hash(Key(it)));
      AgainFromZero(Files(), path, |path| - 1, Key(it));
    }

    lemma NoKeysLeft(it: IndexIterator)
      requires Sized(Files()) && it.minValue == it.maxValue
      ensures KeysLeft(it) == []
    {
    }

    /** The keys left after the one at hand are those of a new iterator at the next one. */
    lemma KeysStep(it: IndexIterator)
      requires Sized(Files()) && it.minValue != it.maxValue
      ensures var next := Wrap(it.minValue + 1);
              && Distance(next, it.maxValue) == Distance(it.minValue, it.maxValue) - 1
              && KeysLeft(it) == RangeHits(Files(), hash, next, next + Distance(next, it.maxValue))
    {
      hide HitsOf, RangeHits, Sized;
      var min, max := it.minValue, it.maxValue;
      var next := Wrap(min + 1);
      RangeShift(Files(), hash, min + 1, min + Distance(min, max), next - (min + 1));
    }

    /** With distinct keys the items left do not depend on whether other iterators have been served
        since the last call. */
    lemma InterleavingDoesNotMatter(it: IndexIterator)
      requires Ready(it) && UniqueKeys(Files()) && (current == it ==> Counts(it))
      ensures KeyLeft(it) == if it.nextItemNo == 0 then HitsOf(Files(), hash, Key(it)) else []
    {
      hide Path, KeyHits, Again, WellFormed, Coherent, UniqueKeys;
      WellFormedIsSized(Files(), hash);
      AgainIsTheSame(Files(), hash, Key(it), it.nextItemNo);
    }

    /** Collect the downward path of all nodes that may hold the key. */
    method StartSearch(it: IndexIterator)
      requires Valid()
      modifies this`current, this`heapIterator, this`foundItems, this`start, visited
      ensures Valid() && Files() == old(Files())
      ensures var path := Path(nodes, hash(Key(it)));
              && |path| <= NODE_DEPTH && (forall k | 0 <= k < |path| :: visited[k] == path[k])
              && heapIterator == |path| - 1
      ensures current == it && foundItems == 0 && start == 0
    {
      hide Low, Width, PathFrom, Path, WellFormed, Coherent, Shaped;
      WellFormedIsSized(Files(), hash);
      var end := NODE_DEPTH - 1;
      foundItems, start, current := 0, 0, it;
      var key := Low16(it.minValue);
      ghost var h := hash(key);
      ghost var path := Path(nodes, h);
      RootCovers(h);
      PathIsShort(nodes, h);
      var from, i := 0, 0;
      while i < NODE_DEPTH
        invariant 0 <= i <= |path| <= 8
        invariant Valid() && Files() == old(Files())
        invariant current == it && foundItems == 0 && start == 0
        invariant forall k | 0 <= k < i :: visited[k] == path[k]
        invariant if i == 0 then from == 0 else from == Left(path[i - 1])
        invariant Searching(nodes, from, h)
      {
        PathFind(nodes, h, i, from);
        var id;
        id, from := HeapFind(key, from);
        visited[i] := id;
        if id < 0 {
          end := i - 1;
          break;
        }
        i := i + 1;
      }
      heapIterator := end;
    }

    /** The inner loop of get_next: look for the key in a loaded bucket, from slot `start` on. Each
        occurrence counts as an item, and the one that follows the items returned before is the
        next. */
    method FindInBucket(it: IndexIterator, c: nat, limit: nat, key: uint16, ghost path: seq<nat>, ghost level: nat)
      returns (slot: nat)
      requires Sized(Files()) && level < |path| && forall k | 0 <= k < |path| :: path[k] < BOTTOM
      requires c < cache.Length && limit == nextFreeSlot[path[level]] <= |cache[c].pairs|
      requires forall j: nat | j < limit :: cache[c].pairs[j] == buckets[path[level]][j]
      requires foundItems <= it.nextItemNo && (start > 0 ==> foundItems == it.nextItemNo)
      modifies this`foundItems
      ensures foundItems <= it.nextItemNo && (start > 0 ==> foundItems == it.nextItemNo)
      ensures var before := Rest(Files(), path, level, start, key, it.nextItemNo - old(foundItems));
              if slot >= limit then before == Rest(Files(), path, level - 1, start, key, it.nextItemNo - foundItems)
              else
                && foundItems == it.nextItemNo && Holds(Files(), path[level], slot, key)
                && before == [Loc(path[level], slot)] + KeyHits(Files(), path, level, slot + 1, key)
    {
      hide Scan, KeyHits, Again, Holds;
      ghost var s, n := Files(), it.nextItemNo;
      assert s.fill[path[level]] == limit;
      ghost var before := Rest(s, path, level, start, key, n - foundItems);
      slot := start;
      while slot < limit
        invariant start <= slot && foundItems <= n && (start > 0 ==> foundItems == n)
        invariant if start == 0 then before == Again(s, path, level, slot, key, n - foundItems)
                  else before == KeyHits(s, path, level, start, key)
                       && forall j: nat | start <= j < slot :: !Holds(s, path[level], j, key)
      {
        LookAt(s, path, level, start, slot, key, n - foundItems);
        if cache[c].pairs[slot].key == key {
          if foundItems == it.nextItemNo {
            return;
          }
          foundItems := foundItems + 1;
        }
        slot := slot + 1;
      }
      LookedAtAll(s, path, level, start, slot, key, n - foundItems);
    }

    /** The search for a key is in its bucket loop. */
    ghost predicate Underway(it: IndexIterator, path: seq<nat>)
      reads this`current, this`heapIterator, this`foundItems, this`start, visited, it
    {
      && current == it && visited.Length == NODE_DEPTH && -1 <= heapIterator < |path| <= NODE_DEPTH
      && (forall k | 0 <= k < |path| :: path[k] < BOTTOM && visited[k] == path[k])
      && foundItems <= it.nextItemNo && (start > 0 ==> foundItems == it.nextItemNo)
    }

    /** One round of the bucket loop. */
    method SearchBucket(it: IndexIterator, ghost path: seq<nat>) returns (value: Option<uint16>)
      requires Valid() && Underway(it, path) && heapIterator >= 0
      modifies this`heapIterator, this`foundItems, this`start, cache, nextFreeSlot, it`nextItemNo
      ensures Valid() && Files() == old(Files()) && Underway(it, path)
      ensures var before := Rest(Files(), path, old(heapIterator), old(start), Key(it), old(it.nextItemNo - foundItems));
              if value.Some? then
                && Delivers(Files(), before, value, KeyHits(Files(), path, heapIterator, start, Key(it)))
                && it.nextItemNo == foundItems == old(it.nextItemNo) + 1 && heapIterator == old(heapIterator)
              else
                && before == Rest(Files(), path, heapIterator, start, Key(it), it.nextItemNo - foundItems)
                && it.nextItemNo == old(it.nextItemNo) && heapIterator == old(heapIterator) - 1
    {
      hide WellFormed, Coherent, KeyHits, Again, Holds, Rest, Delivers;
      WellFormedIsSized(Files(), hash);
      var b := visited[heapIterator];
      var c := BucketLoad(b);
      var limit := nextFreeSlot[b];
      var slot := FindInBucket(it, c, limit, Low16(it.minValue), path, heapIterator);
      if slot < limit {
        value := Some(cache[c].pairs[slot].value);
        DeliversFirst(Files(), Loc(b, slot), Key(it), KeyHits(Files(), path, heapIterator, slot + 1, Key(it)));
        foundItems := foundItems + 1;
        it.nextItemNo := it.nextItemNo + 1;
        start := slot + 1;
      } else {
        value := None;
        heapIterator := heapIterator - 1;
      }
    }

    /** Start a search if the iterator is new to its key or another one was served in between;
        otherwise go on where it was. */
    method Resume(it: IndexIterator, ghost path: seq<nat>)
      requires Ready(it) && Sized(Files()) && path == Path(nodes, hash(Key(it)))
      modifies this`current, this`heapIterator, this`foundItems, this`start, visited
      ensures Valid() && Files() == old(Files()) && Underway(it, path)
      ensures old(KeyLeft(it)) == Rest(Files(), path, heapIterator, start, Key(it), it.nextItemNo - foundItems)
    {
      hide Low, Width, Path, WellFormed, Coherent, KeyHits, Again, Rest, Sized;
      WellFormedIsSized(Files(), hash);
      if current != it || it.nextItemNo == 0 {
        StartSearch(it);
        StartAnew(Files(), path, |path| - 1, Key(it), it.nextItemNo);
      } else {
        StartOrNot(Files(), path, heapIterator, start, Key(it), it.nextItemNo - foundItems);
      }
    }

    /** What is left of a key when the bucket loop is left. */
    lemma LeavingLoop(it: IndexIterator, path: seq<nat>)
      requires Valid() && Underway(it, path) && Sized(Files()) && path == Path(nodes, hash(Key(it)))
      requires foundItems < it.nextItemNo ==> heapIterator == -1
      ensures Ready(it)
      ensures it.nextItemNo > 0 ==> KeyLeft(it) == KeyHits(Files(), path, heapIterator, start, Key(it))
      ensures it.nextItemNo == 0 ==> KeyLeft(it) == Again(Files(), path, |path| - 1, 0, Key(it), 0)
    {
      hide Path, WellFormed, Coherent, KeyHits, Again;
    }

    /** The bucket loop of get_next, for the key the iterator is at. */
    method NextForKey(it: IndexIterator) returns (value: Option<uint16>)
      requires Ready(it)
      modifies this`current, this`heapIterator, this`foundItems, this`start, visited, cache, nextFreeSlot, it`nextItemNo
      ensures Ready(it) && Files() == old(Files())
      ensures Delivers(Files(), old(KeyLeft(it)), value, KeyLeft(it))
      ensures it.nextItemNo == old(it.nextItemNo) + if value.Some? then 1 else 0
      ensures current == it
    {
      hide Low, Width, Path, WellFormed, Coherent, KeyHits, Again, Rest, Sized, KeyLeft;
      WellFormedIsSized(Files(), hash);
      ghost var s, key, todo := Files(), Key(it), KeyLeft(it);
      ghost var path := Path(nodes, hash(key));
      ghost var anew := it.nextItemNo == 0;
      if anew {
        LeftAnew(it);
      }
      Resume(it, path);
      while heapIterator >= 0
        invariant Valid() && Files() == s && Underway(it, path)
        invariant it.nextItemNo == old(it.nextItemNo)
        invariant todo == Rest(s, path, heapIterator, start, key, it.nextItemNo - foundItems)
        decreases heapIterator
      {
        value := SearchBucket(it, path);
        if value.Some? {
          LeavingLoop(it, path);
          return;
        }
      }
      NothingLeft(s, path, start, key, it.nextItemNo - foundItems);
      LeavingLoop(it, path);
      return None;
    }

    lemma LeftAnew(it: IndexIterator)
      requires Ready(it) && it.nextItemNo == 0
      ensures Sized(Files())
      ensures var path := Path(nodes, hash(Key(it)));
              KeyLeft(it) == Again(Files(), path, |path| - 1, 0, Key(it), 0)
    {
      hide Path, KeyHits, Again;
    }

    /** get_next delivers the slots of the range one by one, and INVALID_TUPLE after the last. The
        iterator then holds the number of items that it has returned for the last key. */
    method GetNext(it: IndexIterator) returns (value: Option<uint16>)
      requires Ready(it)
      modifies this`current, this`heapIterator, this`foundItems, this`start, visited, cache, nextFreeSlot, it
      ensures Ready(it) && Files() == old(Files()) && it.maxValue == old(it.maxValue) && current == it
      ensures Delivers(Files(), old(KeyLeft(it) + KeysLeft(it)), value, KeyLeft(it) + KeysLeft(it))
      ensures old(Counts(it)) ==> Counts(it)
      ensures value == None ==> it.minValue == it.maxValue
      ensures value == None ==> it.nextItemNo == if old(it.minValue) == it.maxValue then old(it.nextItemNo) else 0
      decreases Distance(it.minValue, it.maxValue)
    {
      hide Low, Width, Path, HitsOf, RangeHits, WellFormed, Coherent, Sized, Delivers, Resumable, KeyLeft, Distance;
      WellFormedIsSized(Files(), hash);
      ghost var todo, later := KeyLeft(it), KeysLeft(it);
      value := NextForKey(it);
      assert KeysLeft(it) == later;
      CountsOne(Files(), todo, value, KeyLeft(it));
      DeliversMore(Files(), todo, value, KeyLeft(it), later);
      if value.Some? {
        return;
      }
      if it.minValue == it.maxValue {
        NoKeysLeft(it);
        return;
      }
      NextKey(it);
      value := GetNext(it);
    }

    /** The iterator goes on to the next key of the range, and counts from zero again. */
    method NextKey(it: IndexIterator)
      requires Ready(it) && it.minValue != it.maxValue
      modifies it
      ensures Ready(it) && Counts(it) && it.nextItemNo == 0 && it.maxValue == old(it.maxValue)
      ensures Distance(it.minValue, it.maxValue) == Distance(old(it.minValue), it.maxValue) - 1
      ensures KeyLeft(it) + KeysLeft(it) == old(KeysLeft(it))
    {
      hide Low, Width, Path, HitsOf, RangeHits, WellFormed, Coherent, Sized, Resumable, KeyLeft, Distance;
      WellFormedIsSized(Files(), hash);
      KeysStep(it);
      it.nextItemNo := 0;
      it.minValue := Wrap(it.minValue + 1);
      NewIterator(it);
    }
  }

  /** The first used entry from i on. */
  function FirstUsed(cache: seq<CacheEntry>, i: nat): (k: nat)
    requires i <= |cache|
    ensures i <= k <= |cache| && (k < |cache| ==> cache[k].used)
    ensures forall j | i <= j < k :: !cache[j].used
    decreases |cache| - i
  {
    if i == |cache| || cache[i].used then i else FirstUsed(cache, i + 1)
  }

  lemma CacheFacts(s: Store, hash: uint16 -> uint16, cache: seq<CacheEntry>, b: nat)
    requires WellFormed(s, hash) && Coherent(s, cache) && b < BOTTOM
    ensures Sized(s) && (s.fill[b] == 0 ==> s.buckets[b][0] == EMPTY_PAIR)
    ensures forall k | 0 <= k < |cache| && cache[k].used && cache[k].id == b ::
              |cache[k].pairs| == BUCKET_SIZE && forall j: nat | j < s.fill[b] :: cache[k].pairs[j] == s.buckets[b][j]
  {
  }

  lemma CoherentSizes(s: Store, cache: seq<CacheEntry>)
    requires Sized(s) && Coherent(s, cache)
    ensures forall k | 0 <= k < |cache| :: |cache[k].pairs| == BUCKET_SIZE
  {
  }

  lemma DropKeepsCoherent(s: Store, before: seq<CacheEntry>, after: seq<CacheEntry>)
    requires Sized(s) && Coherent(s, before) && |before| == |after|
    requires forall k | 0 <= k < |before| :: after[k] == before[k] || after[k] == before[k].(used := false)
    ensures Coherent(s, after)
  {
  }

  lemma LoadKeepsCoherent(s: Store, before: seq<CacheEntry>, k: nat, e: CacheEntry)
    requires Sized(s) && Coherent(s, before) && k < |before|
    requires EntrySized(e) && EntryCurrent(s, e)
    ensures Coherent(s, before[k := e])
  {
  }

  lemma ScanStep(s: Store, node: nat, start: nat, i: nat, key: uint16)
    requires Sized(s) && node < NODE_LIMIT && start <= i < s.fill[node]
    ensures s.buckets[node][i].key == key <==> Holds(s, node, i, key)
    ensures Scan(s, node, i, key) == if Holds(s, node, i, key) then i else Scan(s, node, i + 1, key)
    ensures Holds(s, node, i, key) && (forall j: nat | start <= j < i :: !Holds(s, node, j, key)) ==>
              Scan(s, node, start, key) == i
  {
  }

  /** One round of the inner loop. */
  lemma LookAt(s: Store, path: seq<nat>, level: nat, start: nat, i: nat, key: uint16, n: nat)
    requires Sized(s) && level < |path| && (forall k | 0 <= k < |path| :: path[k] < BOTTOM)
    requires start <= i < s.fill[path[level]]
    ensures var here := s.buckets[path[level]][i].key == key;
            && (here <==> Holds(s, path[level], i, key))
            && (!here ==> Again(s, path, level, i, key, n) == Again(s, path, level, i + 1, key, n))
            && (here && n > 0 ==> Again(s, path, level, i, key, n) == Again(s, path, level, i + 1, key, n - 1))
            && (here && n == 0 ==>
                  Again(s, path, level, i, key, n) == [Loc(path[level], i)] + KeyHits(s, path, level, i + 1, key))
            && (here && (forall j: nat | start <= j < i :: !Holds(s, path[level], j, key)) ==>
                  KeyHits(s, path, level, start, key) == [Loc(path[level], i)] + KeyHits(s, path, level, i + 1, key))
  {
    hide Scan, Holds, Sized;
    ScanStep(s, path[level], start, i, key);
  }

  lemma LookedAtAll(s: Store, path: seq<nat>, level: nat, start: nat, i: nat, key: uint16, n: nat)
    requires Sized(s) && level < |path| && (forall k | 0 <= k < |path| :: path[k] < BOTTOM)
    requires i >= s.fill[path[level]]
    ensures Again(s, path, level, i, key, n) == Again(s, path, level - 1, 0, key, n)
    ensures (forall j: nat | start <= j < i :: !Holds(s, path[level], j, key)) ==>
              KeyHits(s, path, level, start, key) == KeyHits(s, path, level - 1, start, key)
  {
    if forall j: nat | start <= j < i :: !Holds(s, path[level], j, key) {
      assert Scan(s, path[level], start, key) >= s.fill[path[level]];
    }
  }

  /** One item more is counted and one less is left. */
  lemma CountsOne(s: Store, todo: seq<Loc>, value: Option<uint16>, left: seq<Loc>)
    requires Sized(s) && Delivers(s, todo, value, left)
    ensures value.Some? ==> |todo| == 1 + |left|
    ensures value == None ==> |todo| == |left| == 0
  {
  }

  lemma DeliversFirst(s: Store, loc: Loc, key: uint16, rest: seq<Loc>)
    requires Sized(s) && loc.node < NODE_LIMIT && Holds(s, loc.node, loc.slot, key)
    ensures Delivers(s, [loc] + rest, Some(s.buckets[loc.node][loc.slot].value), rest)
  {
  }

  lemma StartAnew(s: Store, path: seq<nat>, level: int, key: uint16, n: nat)
    requires Sized(s) && level < |path| && forall k | 0 <= k < |path| :: path[k] < BOTTOM
    ensures Rest(s, path, level, 0, key, n) == Again(s, path, level, 0, key, n)
  {
  }

  lemma StartOrNot(s: Store, path: seq<nat>, level: int, start: nat, key: uint16, n: nat)
    requires Sized(s) && level < |path| && (forall k | 0 <= k < |path| :: path[k] < BOTTOM) && (n > 0 ==> level == -1)
    ensures Rest(s, path, level, start, key, n) == KeyHits(s, path, level, start, key)
  {
    AgainFromZero(s, path, level, key);
  }

  lemma NothingLeft(s: Store, path: seq<nat>, start: nat, key: uint16, n: nat)
    requires Sized(s) && |path| > 0 && forall k | 0 <= k < |path| :: path[k] < BOTTOM
    ensures Rest(s, path, -1, start, key, n) == [] == KeyHits(s, path, -1, start, key)
  {
  }

  lemma DeliversMore(s: Store, todo: seq<Loc>, value: Option<uint16>, left: seq<Loc>, more: seq<Loc>)
    requires Sized(s) && Delivers(s, todo, value, left)
    ensures value.Some? ==> Delivers(s, todo + more, value, left + more)
    ensures value == None ==> todo + more == left + more == more && left == []
    ensures value == None && more == [] ==> Delivers(s, todo + more, value, left + more)
  {
    if todo != [] {
      assert (todo + more)[1..] == todo[1..] + more;
    }
  }

  /** The two ranges bucket_split computes are the spans of the children. */
  lemma SplitRanges(nodes: seq<Node>, b: nat)
    requires Shaped(nodes) && b < BOTTOM && Used(nodes, b)
    ensures nodes[b] == Span(b) && ReadyFor(nodes, Left(b))
    ensures var mean := nodes[b].min + (nodes[b].max - nodes[b].min) / 2;
            && mean + 1 <= nodes[b].max
            && Span(Left(b)) == Node(nodes[b].min, mean) && Span(Right(b)) == Node(mean + 1, nodes[b].max)
    ensures if Used(nodes, Left(b)) then nodes[Left(b)] == Span(Left(b)) && nodes[Right(b)] == Span(Right(b))
            else nodes[Left(b)] == EMPTY_NODE && nodes[Right(b)] == EMPTY_NODE
  {
    hide Low, Width;
    SpanBounds(b);
    SpanBounds(Left(b));
    SpanBounds(Right(b));
    Halves(b);
    HalfOf(Width(Left(b)));
    UsedMeansReady(nodes, b);
    assert Parent(Left(b)) == b && Parent(Right(b)) == b;
    assert Used(nodes, Left(b)) <==> Used(nodes, Right(b));
  }

  lemma HalfOf(width: nat)
    requires width > 0
    ensures (2 * width - 1) / 2 == width - 1
  {
  }

  lemma PathIsShort(nodes: seq<Node>, h: uint16)
    requires |nodes| == NODE_LIMIT
    ensures |Path(nodes, h)| <= 8
  {
    PathDepth(nodes, 0, h);
    BottomByDepth(Deepest(nodes, h), h);
  }

  /** Position i of the path is the candidate below position i-1, if that is in use. */
  lemma PathSteps(nodes: seq<Node>, h: uint16, i: nat)
    requires Shaped(nodes) && i <= |Path(nodes, h)|
    ensures var path := Path(nodes, h);
            if i == 0 then path[0] == 0 && Used(nodes, 0)
            else HasNext(nodes, path[i - 1], h) == (i < |path|)
                 && (i < |path| ==> path[i] == ChildFor(path[i - 1], h))
  {
    if i > 0 {
      PathStepsFrom(nodes, 0, h, i);
    }
  }

  /** heap_find, started below position i-1 of the path, finds position i, or nothing at the end. */
  lemma PathFind(nodes: seq<Node>, h: uint16, i: nat, from: nat)
    requires Shaped(nodes) && i <= |Path(nodes, h)|
    requires from == if i == 0 then 0 else Left(Path(nodes, h)[i - 1])
    ensures var c := Candidate(from, h);
            if i < |Path(nodes, h)| then c == Path(nodes, h)[i] && c < BOTTOM && Used(nodes, c)
            else !(c < BOTTOM && Used(nodes, c))
  {
    PathSteps(nodes, h, i);
    if i > 0 {
      assert Parent(from) == Path(nodes, h)[i - 1];
    }
  }

  lemma {:induction false} PathStepsFrom(nodes: seq<Node>, b: nat, h: uint16, i: nat)
    requires |nodes| == NODE_LIMIT && b < BOTTOM && 0 < i <= |PathFrom(nodes, b, h)|
    ensures var path := PathFrom(nodes, b, h);
            HasNext(nodes, path[i - 1], h) == (i < |path|)
            && (i < |path| ==> path[i] == ChildFor(path[i - 1], h))
    decreases i
  {
    if HasNext(nodes, b, h) {
      var rest := PathFrom(nodes, ChildFor(b, h), h);
      if i > 1 {
        PathStepsFrom(nodes, ChildFor(b, h), h, i - 1);
      }
    }
  }

  lemma ReadyAfter(nodes: seq<Node>, b: nat)
    requires Shaped(nodes) && b < BOTTOM && Used(nodes, b)
    ensures ReadyFor(nodes[Left(b) := Span(Left(b))], Right(b))
  {
    var nodes' := nodes[Left(b) := Span(Left(b))];
    UsedMeansReady(nodes, b);
    StillReady(nodes, nodes', b);
    assert Parent(Right(b)) == b;
  }

  lemma {:induction false} StillReady(nodes: seq<Node>, nodes': seq<Node>, i: nat)
    requires |nodes| == |nodes'| == NODE_LIMIT && i < NODE_LIMIT && ReadyFor(nodes, i)
    requires forall k: nat | k < i :: nodes'[k] == nodes[k]
    ensures ReadyFor(nodes', i)
  {
    if i > 0 {
      StillReady(nodes, nodes', Parent(i));
    }
  }

  lemma {:induction false} AboveRoot(c: nat)
    ensures Above(0, c)
  {
    if c > 0 {
      AboveRoot(Parent(c));
    }
  }
}
