/** The MaxHeap index of Antelope: key/value pairs are appended to buckets that hang
    from an implicit binary tree, and a full bucket is given two children that share
    its interval of hash values (apps/antelope/index-maxheap.c).

    `Store` is what the heap file, the bucket file and the next_free_slot table hold. */
module MaxHeapSpec {
  import opened Basics

  const NODE_LIMIT := 511
  const BUCKET_SIZE := 128
  // Nodes from here on have no room for children, and heap_find never returns them.
  const BOTTOM := 255

  datatype Node = Node(min: uint16, max: uint16)
  datatype Pair = Pair(key: uint16, value: uint16)
  datatype Store = Store(nodes: seq<Node>, buckets: seq<seq<Pair>>, fill: seq<nat>)

  /** The pair that is stored for a value and its tuple id: both are cut to 16 bits. */
  function EntryOf(value: long, id: nat): Pair {
    Pair(Low16(value), Low16(id))
  }

  const EMPTY_NODE := Node(0, 0)
  const EMPTY_PAIR := Pair(0, 0)

  // ----- The geometry of the implicit tree -----

  function Parent(i: nat): nat
    requires i > 0
  {
    (i - 1) / 2
  }

  function Left(i: nat): nat { 2 * i + 1 }

  function Right(i: nat): nat { 2 * i + 2 }

  function Depth(i: nat): nat {
    if i == 0 then 0 else 1 + Depth(Parent(i))
  }

  function Width(i: nat): nat {
    if i == 0 then 0x1_0000 else Width(Parent(i)) / 2
  }

  function Low(i: nat): nat {
    if i == 0 then 0
    else Low(Parent(i)) + (if i == Left(Parent(i)) then 0 else Width(i))
  }

  predicate Covers(i: nat, h: uint16) {
    Low(i) <= h < Low(i) + Width(i)
  }

  lemma {:induction false} DepthBound(i: nat, d: nat)
    requires i + 1 < Pow2(d + 1)
    ensures Depth(i) <= d
  {
    if i > 0 {
      DepthBound(Parent(i), d - 1);
    }
  }

  lemma {:induction false} DepthRange(i: nat)
    ensures Pow2(Depth(i)) <= i + 1 < 2 * Pow2(Depth(i))
  {
    if i > 0 {
      DepthRange(Parent(i));
    }
  }

  lemma {:induction false} WidthByDepth(i: nat)
    requires Depth(i) <= 16
    ensures Width(i) == Pow2(16 - Depth(i))
  {
    if i == 0 {
      Pow2Table();
    } else {
      WidthByDepth(Parent(i));
      assert Pow2(17 - Depth(i)) == 2 * Pow2(16 - Depth(i));
    }
  }

  lemma HalfWidth(i: nat)
    requires 0 < i && Depth(i) <= 16
    ensures Width(Parent(i)) == 2 * Width(i)
  {
    hide Width;
    WidthByDepth(i);
    WidthByDepth(Parent(i));
    assert Depth(Parent(i)) == Depth(i) - 1;
  }

  lemma DepthStep(i: nat)
    requires i > 0
    ensures Pow2(Depth(i)) == 2 * Pow2(Depth(Parent(i)))
  {
    hide Pow2, Parent;
    Pow2Step(Depth(Parent(i)));
  }

  lemma Pow2Step(n: nat)
    ensures Pow2(n + 1) == 2 * Pow2(n)
  {
  }

  lemma ChildNumbers(i: nat)
    requires i > 0
    ensures i + 1 == 2 * (Parent(i) + 1) + if i == Left(Parent(i)) then 0 else 1
  {
  }

  /** Node i, at depth d and position k, covers exactly the k-th interval of length 2^(16-d). */
  lemma {:induction false} LowByPosition(i: nat)
    requires Depth(i) <= 16
    ensures Low(i) == (i + 1 - Pow2(Depth(i))) * Width(i)
  {
    hide Width, Pow2;
    if i == 0 {
      Pow2Table();
    } else {
      var p := Parent(i);
      LowByPosition(p);
      HalfWidth(i);
      DepthStep(i);
      ChildNumbers(i);
      Double(p + 1 - Pow2(Depth(p)), Width(i));
    }
  }

  lemma Double(k: int, w: int)
    ensures k * (2 * w) == (2 * k) * w
    ensures (2 * k + 1) * w == (2 * k) * w + w
  {
  }

  lemma SpanUsed(i: nat)
    requires i < NODE_LIMIT
    ensures Span(i) != EMPTY_NODE
  {
    SpanBounds(i);
  }

  lemma Pow2Table()
    ensures Pow2(0) == 1 && Pow2(8) == 256 && Pow2(9) == 512 && Pow2(16) == 0x1_0000
  {
    assert Pow2(4) == 16;
    assert Pow2(8) == 256;
    assert Pow2(12) == 4096;
  }

  /** The two children split the interval of their parent in halves, neither of which is a
      single zero: the empty-node sentinel (0,0) is never a real interval. */
  lemma Halves(i: nat)
    requires i < BOTTOM
    ensures Width(i) == 2 * Width(Left(i)) && Width(Right(i)) == Width(Left(i)) >= 256
    ensures Low(Left(i)) == Low(i) && Low(Right(i)) == Low(i) + Width(Left(i))
  {
    hide Width, Pow2;
    Pow2Table();
    DepthBound(i, 7);
    assert Parent(Left(i)) == i && Parent(Right(i)) == i;
    HalfWidth(Left(i));
    HalfWidth(Right(i));
    WidthByDepth(Left(i));
    Pow2Monotone(8, 16 - Depth(Left(i)));
  }

  lemma {:induction false} SpanBounds(i: nat)
    requires i < NODE_LIMIT
    ensures Width(i) >= 256 && Low(i) + Width(i) <= 0x1_0000
  {
    if i > 0 {
      Halves(Parent(i));
      SpanBounds(Parent(i));
    }
  }

  lemma {:induction false} Pow2Monotone(a: nat, b: nat)
    requires a <= b
    ensures Pow2(a) <= Pow2(b)
    decreases b
  {
    if a < b {
      Pow2Monotone(a, b - 1);
    }
  }

  /** What the heap file holds for node i once it is in use. */
  function Span(i: nat): Node
    requires i < NODE_LIMIT
  {
    SpanBounds(i);
    Node(Low(i), Low(i) + Width(i) - 1)
  }

  // ----- Well-formed stores -----

  predicate Used(nodes: seq<Node>, i: nat)
    requires i < |nodes|
  {
    nodes[i] != EMPTY_NODE
  }

  /** Prefix-closed, siblings in pairs, and every used node holds its own span. */
  ghost predicate Shaped(nodes: seq<Node>) {
    && |nodes| == NODE_LIMIT
    && Used(nodes, 0)
    && (forall i: nat {:trigger Used(nodes, i)} | i < NODE_LIMIT && Used(nodes, i) :: nodes[i] == Span(i))
    && (forall i: nat {:trigger Parent(i)} | 0 < i < NODE_LIMIT && Used(nodes, i) :: Used(nodes, Parent(i)))
    && (forall i: nat {:trigger Left(i)} | i < BOTTOM :: Used(nodes, Left(i)) <==> Used(nodes, Right(i)))
  }

  ghost predicate Sized(s: Store) {
    && |s.nodes| == |s.buckets| == |s.fill| == NODE_LIMIT
    && (forall i: nat | i < NODE_LIMIT :: |s.buckets[i]| == BUCKET_SIZE)
    && (forall i: nat | i < NODE_LIMIT :: s.fill[i] <= BUCKET_SIZE)
  }

  ghost predicate WellFormed(s: Store, hash: uint16 -> uint16) {
    && Sized(s)
    && Shaped(s.nodes)
    && (forall i: nat {:trigger s.fill[i]} | i < NODE_LIMIT && s.fill[i] > 0 :: i < BOTTOM && Used(s.nodes, i))
    && (forall i: nat {:trigger Parent(i)} | 0 < i < NODE_LIMIT && Used(s.nodes, i) ::
          s.fill[Parent(i)] == BUCKET_SIZE)
    && (forall i: nat, j: nat {:trigger s.buckets[i][j]} | i < NODE_LIMIT && j < s.fill[i] ::
          Covers(i, hash(s.buckets[i][j].key)))
    && (forall i: nat, j: nat {:trigger s.buckets[i][j]} | i < NODE_LIMIT && s.fill[i] <= j < BUCKET_SIZE ::
          s.buckets[i][j] == EMPTY_PAIR)
  }

  /** The files of a heap that was just created. */
  function Fresh(): Store {
    SpanBounds(0);
    Store(seq(NODE_LIMIT, i => EMPTY_NODE)[0 := Span(0)],
          seq(NODE_LIMIT, i => seq(BUCKET_SIZE, j => EMPTY_PAIR)),
          seq(NODE_LIMIT, i => 0))
  }

  lemma FreshIsWellFormed(hash: uint16 -> uint16)
    ensures WellFormed(Fresh(), hash)
  {
  }

  // ----- The stored pairs -----

  ghost predicate StoredAt(s: Store, i: nat, j: nat, p: Pair)
    requires Sized(s)
  {
    i < NODE_LIMIT && j < s.fill[i] && s.buckets[i][j] == p
  }

  ghost function PairsBelow(s: Store, n: nat): multiset<Pair>
    requires Sized(s) && n <= NODE_LIMIT
  {
    if n == 0 then multiset{}
    else PairsBelow(s, n - 1) + multiset(s.buckets[n - 1][..s.fill[n - 1]])
  }

  /** All pairs the index holds. */
  ghost function Pairs(s: Store): multiset<Pair>
    requires Sized(s)
  {
    PairsBelow(s, NODE_LIMIT)
  }

  lemma {:induction false} PairsBelowHas(s: Store, n: nat, p: Pair)
    requires Sized(s) && n <= NODE_LIMIT
    ensures p in PairsBelow(s, n) <==> exists i: nat, j: nat :: i < n && StoredAt(s, i, j, p)
  {
    if n > 0 {
      PairsBelowHas(s, n - 1, p);
      var b := s.buckets[n - 1][..s.fill[n - 1]];
      if p in multiset(b) {
        var j: nat :| j < |b| && b[j] == p;
        assert StoredAt(s, n - 1, j, p);
      }
      if i: nat, j: nat :| i < n && StoredAt(s, i, j, p) {
        if i == n - 1 {
          assert b[j] == p;
        }
      }
    }
  }

  // ----- The path of a hash value -----

  function ChildFor(i: nat, h: uint16): nat {
    if Covers(Left(i), h) then Left(i) else Right(i)
  }

  predicate HasNext(nodes: seq<Node>, i: nat, h: uint16)
    requires |nodes| == NODE_LIMIT
  {
    ChildFor(i, h) < BOTTOM && Used(nodes, ChildFor(i, h))
  }

  /** The nodes at and below i whose buckets may hold a key with hash h, from the top down. */
  function PathFrom(nodes: seq<Node>, i: nat, h: uint16): (path: seq<nat>)
    requires |nodes| == NODE_LIMIT && i < BOTTOM
    ensures |path| > 0 && path[0] == i
    ensures forall k | 0 <= k < |path| :: i <= path[k] < BOTTOM
    decreases BOTTOM - i
  {
    if HasNext(nodes, i, h) then [i] + PathFrom(nodes, ChildFor(i, h), h) else [i]
  }

  function Path(nodes: seq<Node>, h: uint16): (path: seq<nat>)
    requires |nodes| == NODE_LIMIT
    ensures |path| > 0
    ensures forall k | 0 <= k < |path| :: path[k] < BOTTOM
  {
    PathFrom(nodes, 0, h)
  }

  function Deepest(nodes: seq<Node>, h: uint16): (b: nat)
    requires |nodes| == NODE_LIMIT
    ensures b < BOTTOM
  {
    LastOf(Path(nodes, h))
  }

  function LastOf(path: seq<nat>): nat
    requires |path| > 0
  {
    path[|path| - 1]
  }

  lemma DeepestStep(nodes: seq<Node>, i: nat, h: uint16)
    requires |nodes| == NODE_LIMIT && i < BOTTOM
    ensures LastOf(PathFrom(nodes, i, h)) == if HasNext(nodes, i, h) then LastOf(PathFrom(nodes, ChildFor(i, h), h)) else i
  {
  }

  lemma ChildCovers(i: nat, h: uint16)
    requires i < BOTTOM && Covers(i, h)
    ensures Covers(ChildFor(i, h), h)
    ensures forall c | (c == Left(i) || c == Right(i)) && Covers(c, h) :: c == ChildFor(i, h)
  {
    Halves(i);
  }

  /** Every used node above the bottom that covers h is on the path of h. */
  lemma {:induction false} PathComplete(nodes: seq<Node>, j: nat, h: uint16)
    requires Shaped(nodes) && j < BOTTOM && Used(nodes, j) && Covers(j, h)
    ensures j in Path(nodes, h)
  {
    if j > 0 {
      var p := Parent(j);
      Halves(p);
      assert j == Left(p) || j == Right(p);
      PathComplete(nodes, p, h);
      ChildCovers(p, h);
      PathStep(nodes, 0, p, h);
    }
  }

  lemma {:induction false} PathStep(nodes: seq<Node>, i: nat, p: nat, h: uint16)
    requires |nodes| == NODE_LIMIT && i < BOTTOM && p in PathFrom(nodes, i, h) && HasNext(nodes, p, h)
    ensures ChildFor(p, h) in PathFrom(nodes, i, h)
    decreases BOTTOM - i
  {
    if i != p {
      PathStep(nodes, ChildFor(i, h), p, h);
    } else {
      var c := ChildFor(i, h);
      assert PathFrom(nodes, c, h)[0] == c;
    }
  }

  ghost predicate SoundPath(s: Store, path: seq<nat>, h: uint16)
    requires Sized(s)
  {
    && |path| > 0
    && (forall k | 0 <= k < |path| :: path[k] < BOTTOM && Used(s.nodes, path[k]) && Covers(path[k], h))
    && (forall k | 0 <= k < |path| - 1 :: s.fill[path[k]] == BUCKET_SIZE)
    && !HasNext(s.nodes, path[|path| - 1], h)
  }

  /** Every node on the path of h is used and covers h, and all but the last are full. */
  lemma {:induction false} PathSound(s: Store, hash: uint16 -> uint16, i: nat, h: uint16)
    requires WellFormed(s, hash) && i < BOTTOM && Used(s.nodes, i) && Covers(i, h)
    ensures SoundPath(s, PathFrom(s.nodes, i, h), h)
    decreases BOTTOM - i
  {
    if HasNext(s.nodes, i, h) {
      var c := ChildFor(i, h);
      ChildCovers(i, h);
      PathSound(s, hash, c, h);
      var rest := PathFrom(s.nodes, c, h);
      assert Parent(c) == i && rest[0] == c;
      ConsPath(s, i, rest, h);
    }
  }

  lemma ConsPath(s: Store, i: nat, rest: seq<nat>, h: uint16)
    requires Sized(s) && SoundPath(s, rest, h)
    requires i < BOTTOM && Used(s.nodes, i) && Covers(i, h) && s.fill[i] == BUCKET_SIZE
    ensures SoundPath(s, [i] + rest, h)
  {
    var path := [i] + rest;
    forall k | 0 <= k < |path|
      ensures path[k] < BOTTOM && Used(s.nodes, path[k]) && Covers(path[k], h)
      ensures k < |path| - 1 ==> s.fill[path[k]] == BUCKET_SIZE
    {
      if k > 0 {
        assert path[k] == rest[k - 1];
      }
    }
  }

  // ----- Insertion -----

  function Append(s: Store, b: nat, p: Pair): Store
    requires b < |s.buckets| && b < |s.fill| && s.fill[b] < |s.buckets[b]|
  {
    s.(buckets := s.buckets[b := s.buckets[b][s.fill[b] := p]], fill := s.fill[b := s.fill[b] + 1])
  }

  function Split(s: Store, b: nat): Store
    requires |s.nodes| == NODE_LIMIT && b < BOTTOM
  {
    s.(nodes := s.nodes[Left(b) := Span(Left(b))][Right(b) := Span(Right(b))])
  }

  /** The store after insert_item, and whether it reports success. */
  function Insert(s: Store, hash: uint16 -> uint16, p: Pair): (r: (Store, bool))
    requires Sized(s)
  {
    var h := hash(p.key);
    var b := Deepest(s.nodes, h);
    if s.fill[b] < BUCKET_SIZE then (Append(s, b, p), true)
    else if ChildFor(b, h) < BOTTOM && s.fill[ChildFor(b, h)] < BUCKET_SIZE then
      (Append(Split(s, b), ChildFor(b, h), p), true)
    else (Split(s, b), false)
  }

  lemma RootCovers(h: uint16)
    ensures Covers(0, h)
  {
  }

  lemma ChildrenFree(s: Store, hash: uint16 -> uint16, b: nat, h: uint16)
    requires WellFormed(s, hash) && b < BOTTOM && !HasNext(s.nodes, b, h) && ChildFor(b, h) < BOTTOM
    ensures !Used(s.nodes, Left(b)) && !Used(s.nodes, Right(b)) && s.fill[ChildFor(b, h)] == 0
  {
    hide Low, Width, Covers;
    assert ChildFor(b, h) == Left(b) || ChildFor(b, h) == Right(b);
    assert Used(s.nodes, Left(b)) <==> Used(s.nodes, Right(b));
  }

  /** What the path of a key looks like before an insertion. */
  lemma InsertTarget(s: Store, hash: uint16 -> uint16, h: uint16)
    requires WellFormed(s, hash)
    ensures var b := Deepest(s.nodes, h);
            && Used(s.nodes, b) && Covers(b, h) && Covers(ChildFor(b, h), h)
            && (ChildFor(b, h) < BOTTOM ==>
                  !Used(s.nodes, Left(b)) && !Used(s.nodes, Right(b)) && s.fill[ChildFor(b, h)] == 0)
  {
    RootCovers(h);
    PathSound(s, hash, 0, h);
    hide Low, Width, Covers, PathFrom, ChildFor;
    var b := Deepest(s.nodes, h);
    ChildCovers(b, h);
    if ChildFor(b, h) < BOTTOM {
      ChildrenFree(s, hash, b, h);
    }
  }

  lemma AppendKeepsWellFormed(s: Store, hash: uint16 -> uint16, b: nat, p: Pair)
    requires WellFormed(s, hash) && b < BOTTOM && Used(s.nodes, b)
    requires s.fill[b] < BUCKET_SIZE && Covers(b, hash(p.key))
    ensures WellFormed(Append(s, b, p), hash)
  {
  }

  lemma SplitKeepsShape(nodes: seq<Node>, b: nat)
    requires Shaped(nodes) && b < BOTTOM && Used(nodes, b)
    ensures Shaped(nodes[Left(b) := Span(Left(b))][Right(b) := Span(Right(b))])
  {
    hide Low, Width;
    var nodes' := nodes[Left(b) := Span(Left(b))][Right(b) := Span(Right(b))];
    SpanBounds(Left(b));
    SpanBounds(Right(b));
    assert Used(nodes', 0) by { assert Used(nodes, 0); }
    forall i: nat {:trigger Used(nodes', i)} | i < NODE_LIMIT && Used(nodes', i)
      ensures nodes'[i] == Span(i)
      ensures i > 0 ==> Used(nodes', Parent(i))
    {
      NewOrOld(nodes, b, i);
    }
    forall i: nat {:trigger Left(i)} | i < BOTTOM
      ensures Used(nodes', Left(i)) <==> Used(nodes', Right(i))
    {
      assert i != b ==> Left(i) != Left(b) && Right(i) != Right(b) && Left(i) != Right(b) && Right(i) != Left(b);
      assert Used(nodes, Left(i)) <==> Used(nodes, Right(i));
    }
  }

  lemma NewOrOld(nodes: seq<Node>, b: nat, i: nat)
    requires Shaped(nodes) && b < BOTTOM && Used(nodes, b) && i < NODE_LIMIT
    ensures var nodes' := nodes[Left(b) := Span(Left(b))][Right(b) := Span(Right(b))];
            Used(nodes', i) ==>
              && nodes'[i] == Span(i)
              && (i > 0 ==> Used(nodes', Parent(i)) && (Parent(i) == b || Used(nodes, i)))
  {
    hide Low, Width;
    var nodes' := nodes[Left(b) := Span(Left(b))][Right(b) := Span(Right(b))];
    SpanBounds(Left(b));
    SpanBounds(Right(b));
    if i == Left(b) || i == Right(b) {
      assert Parent(i) == b;
    } else if Used(nodes', i) {
      assert Used(nodes, i);
    }
  }

  lemma SplitKeepsWellFormed(s: Store, hash: uint16 -> uint16, b: nat)
    requires WellFormed(s, hash) && b < BOTTOM && Used(s.nodes, b) && s.fill[b] == BUCKET_SIZE
    ensures WellFormed(Split(s, b), hash)
  {
    hide Low, Width, Shaped, Used, Covers;
    SplitKeepsShape(s.nodes, b);
    SplitKeepsFull(s, hash, b);
    SplitKeepsFilled(s, hash, b);
  }

  lemma SplitKeepsFull(s: Store, hash: uint16 -> uint16, b: nat)
    requires WellFormed(s, hash) && b < BOTTOM && Used(s.nodes, b) && s.fill[b] == BUCKET_SIZE
    ensures forall i: nat {:trigger Parent(i)} | 0 < i < NODE_LIMIT && Used(Split(s, b).nodes, i) :: s.fill[Parent(i)] == BUCKET_SIZE
  {
    hide Low, Width, Covers, Shaped;
    forall i: nat {:trigger Parent(i)} | 0 < i < NODE_LIMIT && Used(Split(s, b).nodes, i)
      ensures s.fill[Parent(i)] == BUCKET_SIZE
    {
      NewOrOld(s.nodes, b, i);
    }
  }

  lemma SplitKeepsFilled(s: Store, hash: uint16 -> uint16, b: nat)
    requires WellFormed(s, hash) && b < BOTTOM && Used(s.nodes, b)
    ensures forall i: nat {:trigger s.fill[i]} | i < NODE_LIMIT && s.fill[i] > 0 :: i < BOTTOM && Used(Split(s, b).nodes, i)
  {
    hide Low, Width, Covers, Shaped;
    forall i: nat {:trigger s.fill[i]} | i < NODE_LIMIT && s.fill[i] > 0
      ensures i < BOTTOM && Used(Split(s, b).nodes, i)
    {
      assert Used(s.nodes, i);
      SpanBounds(i);
    }
  }

  /** Insertion keeps the tree and its buckets well formed, whether it succeeds or not. */
  lemma InsertKeepsWellFormed(s: Store, hash: uint16 -> uint16, p: Pair)
    requires WellFormed(s, hash)
    ensures WellFormed(Insert(s, hash, p).0, hash)
  {
    hide Low, Width;
    var h := hash(p.key);
    var b := Deepest(s.nodes, h);
    InsertTarget(s, hash, h);
    if s.fill[b] < BUCKET_SIZE {
      AppendKeepsWellFormed(s, hash, b, p);
    } else {
      SplitKeepsWellFormed(s, hash, b);
      if ChildFor(b, h) < BOTTOM {
        SpanBounds(ChildFor(b, h));
        AppendKeepsWellFormed(Split(s, b), hash, ChildFor(b, h), p);
      }
    }
  }

  lemma {:induction false} SameBucketsSamePairs(s: Store, t: Store, n: nat)
    requires Sized(s) && Sized(t) && n <= NODE_LIMIT
    requires forall i: nat | i < n :: s.buckets[i] == t.buckets[i] && s.fill[i] == t.fill[i]
    ensures PairsBelow(s, n) == PairsBelow(t, n)
  {
    if n > 0 {
      SameBucketsSamePairs(s, t, n - 1);
    }
  }

  lemma {:induction false} AppendPairs(s: Store, b: nat, p: Pair, n: nat)
    requires Sized(s) && b < n <= NODE_LIMIT && s.fill[b] < BUCKET_SIZE
    ensures Sized(Append(s, b, p))
    ensures PairsBelow(Append(s, b, p), n) == PairsBelow(s, n) + multiset{p}
  {
    hide Low, Width;
    var t := Append(s, b, p);
    if b == n - 1 {
      SameBucketsSamePairs(s, t, b);
      AppendSlice(s, b, p);
    } else {
      AppendPairs(s, b, p, n - 1);
    }
  }

  lemma AppendSlice(s: Store, b: nat, p: Pair)
    requires Sized(s) && b < NODE_LIMIT && s.fill[b] < BUCKET_SIZE
    ensures var t := Append(s, b, p);
            multiset(t.buckets[b][..t.fill[b]]) == multiset(s.buckets[b][..s.fill[b]]) + multiset{p}
  {
    var t := Append(s, b, p);
    assert t.buckets[b][..t.fill[b]] == s.buckets[b][..s.fill[b]] + [p];
  }

  /** A successful insertion adds its pair and nothing else; a failed one moves no pair. */
  lemma InsertPairs(s: Store, hash: uint16 -> uint16, p: Pair)
    requires WellFormed(s, hash)
    ensures var (t, ok) := Insert(s, hash, p);
            && Sized(t)
            && (ok ==> Pairs(t) == Pairs(s) + multiset{p})
            && (!ok ==> Pairs(t) == Pairs(s) && t.buckets == s.buckets && t.fill == s.fill)
  {
    hide Low, Width;
    var h := hash(p.key);
    var b := Deepest(s.nodes, h);
    InsertTarget(s, hash, h);
    if s.fill[b] < BUCKET_SIZE {
      AppendPairs(s, b, p, NODE_LIMIT);
    } else {
      SameBucketsSamePairs(s, Split(s, b), NODE_LIMIT);
      if ChildFor(b, h) < BOTTOM {
        AppendPairs(Split(s, b), ChildFor(b, h), p, NODE_LIMIT);
      }
    }
  }

  lemma {:induction false} PathDepth(nodes: seq<Node>, i: nat, h: uint16)
    requires |nodes| == NODE_LIMIT && i < BOTTOM
    ensures var path := PathFrom(nodes, i, h); Depth(path[|path| - 1]) == Depth(i) + |path| - 1
    decreases BOTTOM - i
  {
    if HasNext(nodes, i, h) {
      var c := ChildFor(i, h);
      assert Parent(c) == i;
      PathDepth(nodes, c, h);
    }
  }

  lemma BottomByDepth(b: nat, h: uint16)
    requires b < BOTTOM
    ensures Depth(b) <= 7
    ensures ChildFor(b, h) >= BOTTOM <==> Depth(b) == 7
  {
    Pow2Table();
    assert Pow2(8) == 2 * Pow2(7);
    DepthRange(b);
    DepthBound(b, 7);
    if b < 127 {
      DepthBound(b, 6);
    } else if Depth(b) < 7 {
      Pow2Monotone(Depth(b) + 1, 7);
    }
  }

  /** An insertion fails exactly when the path of its key has eight nodes and all their
      buckets are full: the file has a ninth level, but heap_find never returns it. */
  lemma InsertFailsWhen(s: Store, hash: uint16 -> uint16, p: Pair)
    requires WellFormed(s, hash)
    ensures var path := Path(s.nodes, hash(p.key));
            !Insert(s, hash, p).1 <==>
            |path| == 8 && forall k | 0 <= k < |path| :: s.fill[path[k]] == 128
  {
    var h := hash(p.key);
    InsertTarget(s, hash, h);
    PathSound(s, hash, 0, h);
    PathDepth(s.nodes, 0, h);
    BottomByDepth(Deepest(s.nodes, h), h);
  }

  // ----- Lookup -----

  datatype Loc = Loc(node: nat, slot: nat)

  predicate Holds(s: Store, node: nat, slot: nat, key: uint16)
    requires Sized(s) && node < NODE_LIMIT
  {
    slot < s.fill[node] && s.buckets[node][slot].key == key
  }

  /** The first slot from i on that holds the key, or the fill level. */
  function Scan(s: Store, node: nat, i: nat, key: uint16): (j: nat)
    requires Sized(s) && node < NODE_LIMIT
    ensures j < s.fill[node] ==> i <= j && Holds(s, node, j, key)
    ensures forall k: nat | i <= k && Holds(s, node, k, key) :: j <= k
    decreases BUCKET_SIZE - i
  {
    if i >= s.fill[node] then s.fill[node]
    else if Holds(s, node, i, key) then i
    else Scan(s, node, i + 1, key)
  }

  ghost predicate OnPath(path: seq<nat>) {
    && (forall k | 0 <= k < |path| :: path[k] < BOTTOM)
    && (forall k, l | 0 <= k < l < |path| :: path[k] != path[l])
  }

  /** What get_next still returns for one key when it is about to look at slot `start` of the
      bucket at `level` of the path. It works upwards; `start` moves only when a slot is
      returned, and is kept when the next bucket is entered. */
  function KeyHits(s: Store, path: seq<nat>, level: int, start: nat, key: uint16): (hits: seq<Loc>)
    requires Sized(s) && level < |path| && forall k | 0 <= k < |path| :: path[k] < BOTTOM
    ensures forall m | 0 <= m < |hits| :: hits[m].node < BOTTOM && Holds(s, hits[m].node, hits[m].slot, key)
    decreases level, BUCKET_SIZE - start
  {
    if level < 0 then []
    else
      var j := Scan(s, path[level], start, key);
      if j < s.fill[path[level]] then [Loc(path[level], j)] + KeyHits(s, path, level, j + 1, key)
      else KeyHits(s, path, level - 1, start, key)
  }

  /** What get_next still returns for one key when it has started the search of the key again with
      n items returned before: it passes over n occurrences from slot `from` of the bucket at
      `level` on, and in each further bucket it begins at the first slot. */
  function Again(s: Store, path: seq<nat>, level: int, from: nat, key: uint16, n: nat): (hits: seq<Loc>)
    requires Sized(s) && level < |path| && forall k | 0 <= k < |path| :: path[k] < BOTTOM
    ensures forall m | 0 <= m < |hits| :: hits[m].node < BOTTOM && Holds(s, hits[m].node, hits[m].slot, key)
    decreases level, BUCKET_SIZE - from
  {
    if level < 0 then []
    else
      var j := Scan(s, path[level], from, key);
      if j >= s.fill[path[level]] then Again(s, path, level - 1, 0, key, n)
      else if n > 0 then Again(s, path, level, j + 1, key, n - 1)
      else KeyHits(s, path, level, j, key)
  }

  /** Everything get_next returns for one key. */
  function HitsOf(s: Store, hash: uint16 -> uint16, key: uint16): (hits: seq<Loc>)
    requires Sized(s)
    ensures forall m | 0 <= m < |hits| :: hits[m].node < BOTTOM && Holds(s, hits[m].node, hits[m].slot, key)
  {
    var path := Path(s.nodes, hash(key));
    KeyHits(s, path, |path| - 1, 0, key)
  }

  /** Everything get_next returns, call after call, while it counts from lo up to hi. Keys are the
      low 16 bits of these numbers. */
  function RangeHits(s: Store, hash: uint16 -> uint16, lo: int, hi: int): (hits: seq<Loc>)
    requires Sized(s)
    ensures forall m | 0 <= m < |hits| :: hits[m].node < BOTTOM && hits[m].slot < s.fill[hits[m].node]
    decreases hi - lo
  {
    if lo > hi then [] else HitsOf(s, hash, Low16(lo)) + RangeHits(s, hash, lo + 1, hi)
  }

  /** Numbers that wrapped around give the same keys. */
  lemma {:induction false} RangeShift(s: Store, hash: uint16 -> uint16, lo: int, hi: int, turn: int)
    requires Sized(s) && turn % 0x1_0000_0000 == 0
    ensures RangeHits(s, hash, lo + turn, hi + turn) == RangeHits(s, hash, lo, hi)
    decreases hi - lo
  {
    hide HitsOf;
    if lo <= hi {
      assert Low16(lo + turn) == Low16(lo);
      RangeShift(s, hash, lo + 1, hi, turn);
      assert lo + turn + 1 == lo + 1 + turn;
    }
  }

  function KeyAt(s: Store, loc: Loc): uint16
    requires Sized(s) && loc.node < NODE_LIMIT && loc.slot < s.fill[loc.node]
  {
    s.buckets[loc.node][loc.slot].key
  }

  /** An occurrence is returned unless a deeper bucket of the path holds the key in the same
      or a later slot. */
  ghost predicate Returned(s: Store, path: seq<nat>, level: int, start: nat, key: uint16, l: nat, j: nat)
    requires Sized(s) && OnPath(path) && l <= level < |path|
  {
    && Holds(s, path[l], j, key) && start <= j
    && forall l', j': nat | l < l' <= level && Holds(s, path[l'], j', key) :: j' < j
  }

  /** Past a returned slot k of the deepest bucket, only later slots of the others count. */
  lemma ReturnedAfterHit(s: Store, path: seq<nat>, level: nat, start: nat, key: uint16, l: nat, j: nat)
    requires Sized(s) && OnPath(path) && l <= level < |path|
    requires Scan(s, path[level], start, key) < s.fill[path[level]]
    ensures var k := Scan(s, path[level], start, key);
            Returned(s, path, level, start, key, l, j) <==>
              (l == level && j == k) || Returned(s, path, level, k + 1, key, l, j)
  {
    hide Scan;
    var k := Scan(s, path[level], start, key);
    assert Holds(s, path[level], k, key) && start <= k;
    if Returned(s, path, level, start, key, l, j) && l < level {
      assert k < j;
    }
  }

  lemma ReturnedAfterMiss(s: Store, path: seq<nat>, level: nat, start: nat, key: uint16, l: nat, j: nat)
    requires Sized(s) && OnPath(path) && l <= level < |path|
    requires Scan(s, path[level], start, key) >= s.fill[path[level]]
    ensures Returned(s, path, level, start, key, l, j) <==> l < level && Returned(s, path, level - 1, start, key, l, j)
  {
    hide Scan;
    assert forall j': nat | Holds(s, path[level], j', key) :: j' < start;
  }

  lemma {:induction false} KeyHitsExact(s: Store, path: seq<nat>, level: int, start: nat, key: uint16, l: nat, j: nat)
    requires Sized(s) && OnPath(path) && l <= level < |path|
    ensures Loc(path[l], j) in KeyHits(s, path, level, start, key) <==> Returned(s, path, level, start, key, l, j)
    decreases level, BUCKET_SIZE - start
  {
    hide Scan, Returned, Holds;
    var k := Scan(s, path[level], start, key);
    if k < s.fill[path[level]] {
      KeyHitsExact(s, path, level, k + 1, key, l, j);
      ReturnedAfterHit(s, path, level, start, key, l, j);
    } else {
      ReturnedAfterMiss(s, path, level, start, key, l, j);
      if l < level {
        KeyHitsExact(s, path, level - 1, start, key, l, j);
      } else {
        KeyHitsBelow(s, path, level - 1, start, key, l, j);
      }
    }
  }

  lemma {:induction false} KeyHitsBelow(s: Store, path: seq<nat>, level: int, start: nat, key: uint16, l: nat, j: nat)
    requires Sized(s) && OnPath(path) && level < l < |path|
    ensures Loc(path[l], j) !in KeyHits(s, path, level, start, key)
    decreases level, BUCKET_SIZE - start
  {
    hide Scan, Holds;
    if level >= 0 {
      var k := Scan(s, path[level], start, key);
      if k < s.fill[path[level]] {
        KeyHitsBelow(s, path, level, k + 1, key, l, j);
      } else {
        KeyHitsBelow(s, path, level - 1, start, key, l, j);
      }
    }
  }

  lemma {:induction false} PathNodesDiffer(nodes: seq<Node>, i: nat, h: uint16)
    requires |nodes| == NODE_LIMIT && i < BOTTOM
    ensures OnPath(PathFrom(nodes, i, h))
    decreases BOTTOM - i
  {
    if HasNext(nodes, i, h) {
      PathNodesDiffer(nodes, ChildFor(i, h), h);
    }
  }

  lemma PairsHas(s: Store, p: Pair)
    requires Sized(s)
    ensures p in Pairs(s) <==> exists i: nat, j: nat :: StoredAt(s, i, j, p)
  {
    PairsBelowHas(s, NODE_LIMIT, p);
  }

  /** A pair that is stored in two places is counted twice. */
  lemma {:induction false} TwoPlaces(s: Store, n: nat, a: Loc, b: Loc, p: Pair)
    requires Sized(s) && n <= NODE_LIMIT && a != b && a.node <= b.node < n
    requires StoredAt(s, a.node, a.slot, p) && StoredAt(s, b.node, b.slot, p)
    ensures PairsBelow(s, n)[p] >= 2
  {
    var top := s.buckets[n - 1][..s.fill[n - 1]];
    if b.node < n - 1 {
      TwoPlaces(s, n - 1, a, b, p);
    } else if a.node < n - 1 {
      PairsBelowHas(s, n - 1, p);
      assert top[b.slot] == p;
    } else {
      assert top[a.slot] == top[b.slot] == p;
      TwoIndices(top, if a.slot < b.slot then a.slot else b.slot, if a.slot < b.slot then b.slot else a.slot);
    }
  }

  lemma TwoIndices(s: seq<Pair>, i: nat, j: nat)
    requires i < j < |s| && s[i] == s[j]
    ensures multiset(s)[s[i]] >= 2
  {
    assert s == s[..j] + s[j..];
    assert s[i] in s[..j] && s[j] in s[j..];
  }

  /** Keys are stored once if the pairs have different keys and each pair is held once. */
  lemma UniqueByPairs(s: Store)
    requires Sized(s)
    requires forall p <- Pairs(s) :: Pairs(s)[p] == 1
    requires forall p <- Pairs(s), p' <- Pairs(s) :: p.key == p'.key ==> p == p'
    ensures UniqueKeys(s)
  {
    hide PairsBelow;
    forall i: nat, j: nat, i': nat, j': nat, key: uint16 {:trigger Holds(s, i, j, key), Holds(s, i', j', key)} |
      i < NODE_LIMIT && i' < NODE_LIMIT && Holds(s, i, j, key) && Holds(s, i', j', key)
      ensures i == i' && j == j'
    {
      HitsAreStored(s, key, Loc(i, j));
      HitsAreStored(s, key, Loc(i', j'));
      var p := s.buckets[i][j];
      assert p == s.buckets[i'][j'];
      if i != i' || j != j' {
        if i <= i' {
          TwoPlaces(s, NODE_LIMIT, Loc(i, j), Loc(i', j'), p);
        } else {
          TwoPlaces(s, NODE_LIMIT, Loc(i', j'), Loc(i, j), p);
        }
      }
    }
  }

  lemma HitsAreStored(s: Store, key: uint16, loc: Loc)
    requires Sized(s) && loc.node < NODE_LIMIT && Holds(s, loc.node, loc.slot, key)
    ensures s.buckets[loc.node][loc.slot] in Pairs(s)
  {
    var p := s.buckets[loc.node][loc.slot];
    assert StoredAt(s, loc.node, loc.slot, p);
    PairsHas(s, p);
  }

  /** The first get_next for a key finds something exactly when a pair with that key is stored. */
  lemma LookupCorrect(s: Store, hash: uint16 -> uint16, key: uint16)
    requires WellFormed(s, hash)
    ensures HitsOf(s, hash, key) == [] <==> forall p | p in Pairs(s) :: p.key != key
  {
    var hits := HitsOf(s, hash, key);
    if hits != [] {
      HitsAreStored(s, key, hits[0]);
    }
    if p :| p in Pairs(s) && p.key == key {
      PairsHas(s, p);
      var i: nat, j: nat :| StoredAt(s, i, j, p);
      OccurrenceFound(s, hash, key, i, j);
    }
  }

  /** What a well-formed store says about an occurrence of a key. */
  lemma OccurrenceIsCovered(s: Store, hash: uint16 -> uint16, key: uint16, i: nat, j: nat)
    requires WellFormed(s, hash) && i < NODE_LIMIT && Holds(s, i, j, key)
    ensures Shaped(s.nodes) && i < BOTTOM && Used(s.nodes, i) && Covers(i, hash(key))
  {
    hide Low, Width, Covers, Shaped;
    assert s.fill[i] > 0 && s.buckets[i][j].key == key;
  }

  /** If the key occurs anywhere, some occurrence of it is returned. */
  lemma OccurrenceFound(s: Store, hash: uint16 -> uint16, key: uint16, i: nat, j: nat)
    requires WellFormed(s, hash) && i < NODE_LIMIT && Holds(s, i, j, key)
    ensures i in Path(s.nodes, hash(key)) && HitsOf(s, hash, key) != []
  {
    hide WellFormed, Path, Covers, Shaped, KeyHits, Holds;
    WellFormedIsSized(s, hash);
    var path := Path(s.nodes, hash(key));
    OccurrenceIsCovered(s, hash, key, i, j);
    PathComplete(s.nodes, i, hash(key));
    var l: nat :| l < |path| && path[l] == i;
    SomeHit(s, path, |path| - 1, l, j, key);
  }

  lemma {:induction false} SomeHit(s: Store, path: seq<nat>, level: int, l: nat, j: nat, key: uint16)
    requires Sized(s) && l <= level < |path| && forall k | 0 <= k < |path| :: path[k] < BOTTOM
    requires Holds(s, path[l], j, key)
    ensures KeyHits(s, path, level, 0, key) != []
    decreases level
  {
    var k := Scan(s, path[level], 0, key);
    if k >= s.fill[path[level]] {
      SomeHit(s, path, level - 1, l, j, key);
    }
  }

  /** For one key, an occurrence is returned exactly when no deeper bucket of its path holds
      the key in the same or a later slot. */
  lemma HitsOfExact(s: Store, hash: uint16 -> uint16, i: nat, j: nat)
    requires WellFormed(s, hash) && i < NODE_LIMIT && j < s.fill[i]
    ensures var key := KeyAt(s, Loc(i, j));
            var path := Path(s.nodes, hash(key));
            && OnPath(path)
            && (Loc(i, j) in HitsOf(s, hash, key) <==>
                  exists l: nat | l < |path| :: path[l] == i && Returned(s, path, |path| - 1, 0, key, l, j))
    ensures UniqueKeys(s) ==> Loc(i, j) in HitsOf(s, hash, KeyAt(s, Loc(i, j)))
  {
    hide WellFormed, PathFrom, KeyHits, Returned, UniqueKeys;
    WellFormedIsSized(s, hash);
    var key := KeyAt(s, Loc(i, j));
    var path := Path(s.nodes, hash(key));
    assert Holds(s, i, j, key);
    OccurrenceFound(s, hash, key, i, j);
    PathNodesDiffer(s.nodes, 0, hash(key));
    var l: nat :| l < |path| && path[l] == i;
    KeyHitsExact(s, path, |path| - 1, 0, key, l, j);
    if UniqueKeys(s) {
      NoDeeperOccurrence(s, path, key, l, j);
    }
  }

  ghost predicate UniqueKeys(s: Store)
    requires Sized(s)
  {
    forall i: nat, j: nat, i': nat, j': nat, key: uint16 {:trigger Holds(s, i, j, key), Holds(s, i', j', key)} |
      i < NODE_LIMIT && i' < NODE_LIMIT && Holds(s, i, j, key) && Holds(s, i', j', key) :: i == i' && j == j'
  }

  lemma NoDeeperOccurrence(s: Store, path: seq<nat>, key: uint16, l: nat, j: nat)
    requires Sized(s) && UniqueKeys(s) && OnPath(path) && l < |path| && Holds(s, path[l], j, key)
    ensures Returned(s, path, |path| - 1, 0, key, l, j)
  {
  }

  lemma {:induction false} AgainFromZero(s: Store, path: seq<nat>, level: int, key: uint16)
    requires Sized(s) && level < |path| && forall k | 0 <= k < |path| :: path[k] < BOTTOM
    ensures Again(s, path, level, 0, key, 0) == KeyHits(s, path, level, 0, key)
    decreases level
  {
    hide Holds;
    if level >= 0 {
      AgainFromZero(s, path, level - 1, key);
      var j := Scan(s, path[level], 0, key);
      assert j < s.fill[path[level]] ==> Scan(s, path[level], j, key) == j;
    }
  }

  /** Without a further occurrence nothing more is returned. */
  lemma {:induction false} AgainNothing(s: Store, path: seq<nat>, level: int, from: nat, key: uint16, n: nat)
    requires Sized(s) && level < |path| && forall k | 0 <= k < |path| :: path[k] < BOTTOM
    requires forall l, j: nat | 0 <= l < level :: !Holds(s, path[l], j, key)
    requires level >= 0 ==> forall j: nat | from <= j :: !Holds(s, path[level], j, key)
    ensures Again(s, path, level, from, key, n) == [] && KeyHits(s, path, level, from, key) == []
    decreases level
  {
    hide Holds;
    if level >= 0 {
      AgainNothing(s, path, level - 1, 0, key, n);
      KeyHitsNothing(s, path, level - 1, from, key);
    }
  }

  /** With one occurrence of the key, nothing is left after it. */
  lemma {:induction false} AgainAfterOne(s: Store, path: seq<nat>, level: nat, key: uint16, n: nat, l: nat, j: nat)
    requires Sized(s) && l <= level < |path| && (forall k | 0 <= k < |path| :: path[k] < BOTTOM)
    requires forall l', j': nat | 0 <= l' < |path| :: Holds(s, path[l'], j', key) <==> l' == l && j' == j
    ensures n > 0 ==> Again(s, path, level, 0, key, n) == []
    ensures |KeyHits(s, path, level, 0, key)| <= 1
    decreases level
  {
    if l < level {
      assert Scan(s, path[level], 0, key) >= s.fill[path[level]];
      AgainAfterOne(s, path, level - 1, key, n, l, j);
    } else {
      assert Holds(s, path[level], j, key);
      assert Scan(s, path[level], 0, key) == j;
      AgainNothing(s, path, level, j + 1, key, if n > 0 then n - 1 else 0);
    }
  }

  /** If the key is stored once at most, the rest of a search that was started again is the rest
      of the search itself. */
  lemma AgainIsTheSame(s: Store, hash: uint16 -> uint16, key: uint16, n: nat)
    requires WellFormed(s, hash) && UniqueKeys(s)
    ensures Sized(s)
    ensures var path := Path(s.nodes, hash(key));
            && |HitsOf(s, hash, key)| <= 1
            && Again(s, path, |path| - 1, 0, key, n) == if n == 0 then HitsOf(s, hash, key) else []
  {
    hide WellFormed, PathFrom, KeyHits, Again, Holds;
    WellFormedIsSized(s, hash);
    var path := Path(s.nodes, hash(key));
    PathNodesDiffer(s.nodes, 0, hash(key));
    AgainFromZero(s, path, |path| - 1, key);
    if l: nat, j: nat :| l < |path| && Holds(s, path[l], j, key) {
      AgainAfterOne(s, path, |path| - 1, key, n, l, j);
    } else {
      AgainNothing(s, path, |path| - 1, 0, key, n);
    }
  }

  lemma {:induction false} KeyHitsNothing(s: Store, path: seq<nat>, level: int, start: nat, key: uint16)
    requires Sized(s) && level < |path| && forall k | 0 <= k < |path| :: path[k] < BOTTOM
    requires forall l, j: nat | 0 <= l <= level :: !Holds(s, path[l], j, key)
    ensures KeyHits(s, path, level, start, key) == []
    decreases level
  {
    hide Holds;
    if level >= 0 {
      KeyHitsNothing(s, path, level - 1, start, key);
    }
  }

  /** How far a key lies behind the start of a range. */
  function Behind(lo: int, key: uint16): uint16 {
    Low16(key - lo)
  }

  lemma BehindNext(lo: int, key: uint16)
    ensures Behind(lo, key) == 0 <==> key == Low16(lo)
    ensures key != Low16(lo) ==> Behind(lo, key) == Behind(lo + 1, key) + 1
    ensures key == Low16(lo) ==> Behind(lo + 1, key) == 0xffff
  {
    var q, b := lo / 0x1_0000, Low16(lo);
    assert lo == 0x1_0000 * q + b;
    LowWord(key - lo, if key >= b then -q else -q - 1);
    LowWord(key - (lo + 1), if key > b then -q else -q - 1);
  }

  lemma LowWord(x: int, q: int)
    requires 0x1_0000 * q <= x < 0x1_0000 * (q + 1)
    ensures Low16(x) == x - 0x1_0000 * q
  {
    assert x / 0x1_0000 == q;
  }

  lemma {:induction false} RangeMember(s: Store, hash: uint16 -> uint16, lo: int, hi: int, loc: Loc)
    requires Sized(s) && loc.node < NODE_LIMIT && loc.slot < s.fill[loc.node] && hi - lo < 0x1_0000
    ensures loc in RangeHits(s, hash, lo, hi) <==>
              Behind(lo, KeyAt(s, loc)) <= hi - lo && loc in HitsOf(s, hash, KeyAt(s, loc))
    decreases hi - lo
  {
    hide HitsOf, Behind;
    var key := KeyAt(s, loc);
    BehindNext(lo, key);
    if lo <= hi {
      RangeMember(s, hash, lo + 1, hi, loc);
      assert loc in HitsOf(s, hash, Low16(lo)) ==> Holds(s, loc.node, loc.slot, Low16(lo));
    }
  }

  /** When no key is stored twice, a range search returns every stored pair of the range and
      nothing else. */
  lemma UniqueRangeComplete(s: Store, hash: uint16 -> uint16, lo: int, hi: int, i: nat, j: nat)
    requires WellFormed(s, hash) && UniqueKeys(s) && i < NODE_LIMIT && j < s.fill[i] && hi - lo < 0x1_0000
    ensures Loc(i, j) in RangeHits(s, hash, lo, hi) <==> Behind(lo, KeyAt(s, Loc(i, j))) <= hi - lo
  {
    RangeMember(s, hash, lo, hi, Loc(i, j));
    HitsOfExact(s, hash, i, j);
  }

  predicate InUse(s: Store, loc: Loc)
    requires Sized(s)
  {
    loc.node < NODE_LIMIT && loc.slot < s.fill[loc.node]
  }

  /** Locations in use, no two alike, with their keys in the order of the range. */
  ghost predicate InOrder(s: Store, hits: seq<Loc>, lo: int)
    requires Sized(s)
  {
    && (forall m | 0 <= m < |hits| :: InUse(s, hits[m]))
    && (forall m, n | 0 <= m < n < |hits| ::
          hits[m] != hits[n] && Behind(lo, KeyAt(s, hits[m])) <= Behind(lo, KeyAt(s, hits[n])))
  }

  /** In a range of 16-bit numbers no occurrence is returned twice, and keys come in the order of
      the range. */
  lemma {:induction false} RangeHitsOnce(s: Store, hash: uint16 -> uint16, lo: int, hi: int)
    requires Sized(s) && hi - lo < 0x1_0000
    ensures InOrder(s, RangeHits(s, hash, lo, hi), lo)
    ensures forall loc <- RangeHits(s, hash, lo, hi) :: InUse(s, loc) && Behind(lo, KeyAt(s, loc)) <= hi - lo
    decreases hi - lo
  {
    hide HitsOf, Behind;
    if lo <= hi {
      RangeHitsOnce(s, hash, lo + 1, hi);
      HitsOfOnce(s, hash, Low16(lo));
      JoinOnce(s, HitsOf(s, hash, Low16(lo)), RangeHits(s, hash, lo + 1, hi), lo, hi);
    }
  }

  lemma JoinOnce(s: Store, here: seq<Loc>, rest: seq<Loc>, lo: int, hi: int)
    requires Sized(s) && lo <= hi < lo + 0x1_0000
    requires forall m | 0 <= m < |here| :: InUse(s, here[m]) && KeyAt(s, here[m]) == Low16(lo)
    requires forall loc <- rest :: InUse(s, loc) && Behind(lo + 1, KeyAt(s, loc)) <= hi - lo - 1
    requires AllDistinct(here) && InOrder(s, rest, lo + 1)
    ensures InOrder(s, here + rest, lo)
    ensures forall loc <- here + rest :: InUse(s, loc) && Behind(lo, KeyAt(s, loc)) <= hi - lo
  {
    hide Behind;
    var hits := here + rest;
    forall loc | loc in hits
      ensures InUse(s, loc) && Behind(lo, KeyAt(s, loc)) <= hi - lo
      ensures loc in rest ==> Behind(lo, KeyAt(s, loc)) == Behind(lo + 1, KeyAt(s, loc)) + 1
      ensures loc in here ==> Behind(lo, KeyAt(s, loc)) == 0
    {
      BehindNext(lo, KeyAt(s, loc));
    }
    forall m, n | 0 <= m < n < |hits|
      ensures hits[m] != hits[n] && Behind(lo, KeyAt(s, hits[m])) <= Behind(lo, KeyAt(s, hits[n]))
    {
      if n < |here| {
        assert hits[m] == here[m] && hits[n] == here[n];
      } else if m < |here| {
        assert hits[m] == here[m] && hits[n] == rest[n - |here|];
      } else {
        assert hits[m] == rest[m - |here|] && hits[n] == rest[n - |here|];
      }
    }
  }

  lemma HitsOfOnce(s: Store, hash: uint16 -> uint16, key: uint16)
    requires Sized(s)
    ensures AllDistinct(HitsOf(s, hash, key))
  {
    var path := Path(s.nodes, hash(key));
    PathNodesDiffer(s.nodes, 0, hash(key));
    KeyHitsOnce(s, path, |path| - 1, 0, key);
    assert HitsOf(s, hash, key) == KeyHits(s, path, |path| - 1, 0, key);
  }

  lemma {:induction false} KeyHitsOnce(s: Store, path: seq<nat>, level: int, start: nat, key: uint16)
    requires Sized(s) && OnPath(path) && level < |path|
    ensures AllDistinct(KeyHits(s, path, level, start, key))
    decreases level, BUCKET_SIZE - start
  {
    hide Low, Width, Path, Scan, Holds;
    if level >= 0 {
      var k := Scan(s, path[level], start, key);
      if k < s.fill[path[level]] {
        KeyHitsOnce(s, path, level, k + 1, key);
        KeyHitsExact(s, path, level, k + 1, key, level, k);
        ConsOnce(Loc(path[level], k), KeyHits(s, path, level, k + 1, key));
      } else {
        KeyHitsOnce(s, path, level - 1, start, key);
      }
    }
  }

  predicate AllDistinct(hits: seq<Loc>) {
    forall m, n | 0 <= m < n < |hits| :: hits[m] != hits[n]
  }

  lemma ConsOnce(loc: Loc, rest: seq<Loc>)
    requires AllDistinct(rest) && loc !in rest
    ensures AllDistinct([loc] + rest)
  {
  }

  // ----- Whole runs -----

  /** The store and the accepted pairs after a sequence of insertions. */
  function Run(s: Store, hash: uint16 -> uint16, ps: seq<Pair>): (r: (Store, multiset<Pair>))
    requires WellFormed(s, hash)
    ensures WellFormed(r.0, hash)
    decreases |ps|
  {
    if ps == [] then (s, multiset{})
    else
      InsertKeepsWellFormed(s, hash, ps[0]);
      var (t, ok) := Insert(s, hash, ps[0]);
      var (u, accepted) := Run(t, hash, ps[1..]);
      (u, if ok then multiset{ps[0]} + accepted else accepted)
  }

  lemma {:induction false} RunConserves(s: Store, hash: uint16 -> uint16, ps: seq<Pair>)
    requires WellFormed(s, hash)
    ensures Pairs(Run(s, hash, ps).0) == Pairs(s) + Run(s, hash, ps).1
    decreases |ps|
  {
    if ps != [] {
      InsertPairs(s, hash, ps[0]);
      InsertKeepsWellFormed(s, hash, ps[0]);
      RunConserves(Insert(s, hash, ps[0]).0, hash, ps[1..]);
    }
  }

  lemma {:induction false} FreshHoldsNothing(n: nat)
    requires n <= NODE_LIMIT
    ensures PairsBelow(Fresh(), n) == multiset{}
  {
    if n > 0 {
      FreshHoldsNothing(n - 1);
    }
  }

  /** For any hash function and any sequence of insertions into a fresh heap: the first lookup
      of a key misses exactly when no insertion of that key succeeded, and otherwise returns a
      value that was successfully inserted under it. */
  lemma LookupAfterAnyRun(hash: uint16 -> uint16, ps: seq<Pair>, key: uint16)
    ensures WellFormed(Fresh(), hash)
    ensures var (s, accepted) := Run(Fresh(), hash, ps);
            var hits := HitsOf(s, hash, key);
            && (hits == [] <==> forall p | p in accepted :: p.key != key)
            && (hits != [] ==> Holds(s, hits[0].node, hits[0].slot, key)
                               && s.buckets[hits[0].node][hits[0].slot] in accepted)
  {
    hide Fresh, Run, HitsOf, PairsBelow;
    RunFromFresh(hash, ps);
    var s := Run(Fresh(), hash, ps).0;
    LookupCorrect(s, hash, key);
    var hits := HitsOf(s, hash, key);
    if hits != [] {
      HitsAreStored(s, key, hits[0]);
    }
  }

  lemma RunFromFresh(hash: uint16 -> uint16, ps: seq<Pair>)
    ensures WellFormed(Fresh(), hash)
    ensures Pairs(Run(Fresh(), hash, ps).0) == Run(Fresh(), hash, ps).1
  {
    FreshIsWellFormed(hash);
    FreshHoldsNothing(NODE_LIMIT);
    RunConserves(Fresh(), hash, ps);
  }

  // ----- The bucket cache -----

  /** One slot of bucket_cache: used, for which bucket, and the copy. */
  datatype CacheEntry = CacheEntry(used: bool, id: nat, pairs: seq<Pair>)

  predicate EntrySized(e: CacheEntry) {
    |e.pairs| == BUCKET_SIZE && (e.used ==> e.id < BOTTOM)
  }

  predicate EntryCurrent(s: Store, e: CacheEntry)
    requires Sized(s) && EntrySized(e)
  {
    e.used ==> forall j: nat | j < s.fill[e.id] :: e.pairs[j] == s.buckets[e.id][j]
  }

  /** The cached copies agree with the bucket file on every slot in use. */
  predicate Coherent(s: Store, cache: seq<CacheEntry>)
    requires Sized(s)
  {
    forall k | 0 <= k < |cache| :: EntrySized(cache[k]) && EntryCurrent(s, cache[k])
  }

  /** bucket_append writes the bucket file only. A current copy stays current exactly when it
      is not a copy of the bucket that grew, or holds the new pair in that slot by accident. */
  lemma AppendAndCache(s: Store, b: nat, p: Pair, e: CacheEntry)
    requires Sized(s) && b < NODE_LIMIT && s.fill[b] < BUCKET_SIZE && EntrySized(e) && EntryCurrent(s, e)
    ensures Sized(Append(s, b, p))
    ensures EntryCurrent(Append(s, b, p), e) <==> (e.used && e.id == b ==> e.pairs[s.fill[b]] == p)
  {
    var t := Append(s, b, p);
    if e.used && e.id == b {
      assert t.buckets[b][s.fill[b]] == p && s.fill[b] < t.fill[b];
    }
  }

  /** The bucket insert_item writes to when it succeeds. */
  function InsertBucket(s: Store, hash: uint16 -> uint16, p: Pair): (b: nat)
    requires Sized(s)
    ensures b < NODE_LIMIT || !Insert(s, hash, p).1
  {
    var b := Deepest(s.nodes, hash(p.key));
    if s.fill[b] < BUCKET_SIZE then b else ChildFor(b, hash(p.key))
  }

  /** Cached copies stay good after an insertion exactly when none of them is a copy of the
      bucket that was written, except one that holds the pair in that slot by accident. */
  lemma InsertAndCache(s: Store, hash: uint16 -> uint16, p: Pair, cache: seq<CacheEntry>)
    requires WellFormed(s, hash) && Coherent(s, cache)
    ensures var (t, ok) := Insert(s, hash, p);
            && Sized(t)
            && (Coherent(t, cache) <==>
                  forall k | 0 <= k < |cache| && ok && cache[k].used && cache[k].id == InsertBucket(s, hash, p) ::
                    cache[k].pairs[s.fill[cache[k].id]] == p)
  {
    hide Low, Width, Path, WellFormed;
    InsertKeepsWellFormed(s, hash, p);
    WellFormedIsSized(s, hash);
    WellFormedIsSized(Insert(s, hash, p).0, hash);
    var (t, ok) := Insert(s, hash, p);
    var b := InsertBucket(s, hash, p);
    forall k | 0 <= k < |cache|
      ensures EntryCurrent(t, cache[k]) <==>
                (ok && cache[k].used && cache[k].id == b ==> cache[k].pairs[s.fill[cache[k].id]] == p)
    {
      if ok {
        var u := s.(nodes := t.nodes);
        assert Sized(u) && EntryCurrent(u, cache[k]);
        assert b < NODE_LIMIT && s.fill[b] < BUCKET_SIZE && t == Append(u, b, p);
        AppendAndCache(u, b, p, cache[k]);
      }
    }
  }

  lemma WellFormedIsSized(s: Store, hash: uint16 -> uint16)
    requires WellFormed(s, hash)
    ensures Sized(s) && Shaped(s.nodes)
  {
  }

  lemma FreshInsert(hash: uint16 -> uint16, p: Pair)
    ensures Insert(Fresh(), hash, p) == (Append(Fresh(), 0, p), true)
  {
    var s := Fresh();
    assert !HasNext(s.nodes, 0, hash(p.key));
    assert Path(s.nodes, hash(p.key)) == [0];
  }

  lemma FreshAppend(p: Pair)
    requires p != EMPTY_PAIR
    ensures var s := Fresh();
            var e := CacheEntry(true, 0, s.buckets[0]);
            && EntrySized(e) && EntryCurrent(s, e)
            && Sized(Append(s, 0, p)) && p in Pairs(Append(s, 0, p))
            && !EntryCurrent(Append(s, 0, p), e)
  {
    var s := Fresh();
    var t := Append(s, 0, p);
    assert StoredAt(t, 0, 0, p);
    PairsHas(t, p);
    assert t.buckets[0][0] == p && s.buckets[0][0] == EMPTY_PAIR;
  }

  /** A bucket looked up once and appended to afterwards is read from its old copy, so the new
      pair is missed although it is stored. */
  lemma StaleCopyMisses(hash: uint16 -> uint16)
    ensures var s, p := Fresh(), Pair(7, 9);
            var e := CacheEntry(true, 0, s.buckets[0]);
            var t := Insert(s, hash, p).0;
            && EntrySized(e) && EntryCurrent(s, e) && Insert(s, hash, p).1
            && Sized(t) && p in Pairs(t) && t.fill[0] == 1 && e.pairs[0].key != 7
  {
    FreshInsert(hash, Pair(7, 9));
    FreshAppend(Pair(7, 9));
  }
}
