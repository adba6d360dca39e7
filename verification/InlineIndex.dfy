/** The index that stores nothing: a binary search in a column whose values increase from row to
    row (apps/antelope/index-inline.c). Tuple ids have 32 bits and wrap around. */
module InlineIndex {
  import opened Basics
  import opened LvmSpec
  import opened Relation

  const INVALID_TUPLE: uint32 := 0xffff_ffff

  /** A column as it can be stored: a row takes a byte at least, and file offsets are signed. */
  type Table = c: seq<long> | |c| < 0x8000_0000 witness []

  predicate Sorted(column: seq<long>) {
    forall i, j | 0 <= i < j < |column| :: column[i] <= column[j]
  }

  predicate Increasing(column: seq<long>) {
    forall i, j | 0 <= i < j < |column| :: column[i] < column[j]
  }

  /** The search for the target may narrow down to the rows from min to max. */
  predicate Narrowed(column: seq<long>, target: long, min: int, max: int) {
    && (forall i | 0 <= i < |column| && i < min :: column[i] < target)
    && (forall i | 0 <= i < |column| && i > max :: column[i] > target)
  }

  /** Everything before the row is below the target and everything after it is above. */
  predicate Near(column: seq<long>, target: long, row: int) {
    Narrowed(column, target, row, row)
  }

  /** The row at which the search ends. */
  function Locate(column: seq<long>, target: long, min: nat, max: nat): (row: nat)
    requires Sorted(column) && column != [] && column[0] <= target
    requires min <= max < |column| && Narrowed(column, target, min, max)
    ensures row < |column| && (column[row] == target || Near(column, target, row))
    decreases max - min
  {
    var center := min + (max - min) / 2;
    if column[center] == target then center
    else if target > column[center] then
      if center == max then center else Locate(column, target, center + 1, max)
    else
      if min == center then center else Locate(column, target, min, center - 1)
  }

  function Place(column: Table, target: long): (row: nat)
    requires Sorted(column) && column != [] && column[0] <= target
    ensures row < |column| && (column[row] == target || Near(column, target, row))
  {
    Locate(column, target, 0, |column| - 1)
  }

  /** One round of the search, below the first value as well. */
  lemma Round(column: Table, target: long, min: nat, max: nat)
    requires Sorted(column) && min <= max < |column| && Narrowed(column, target, min, max)
    ensures var center := min + (max - min) / 2;
            && (column[center] < target ==> Narrowed(column, target, center + 1, max))
            && (column[center] > target ==> Narrowed(column, target, min, center - 1))
            && (column[0] <= target ==>
                  Locate(column, target, min, max) ==
                    if column[center] < target && center < max then Locate(column, target, center + 1, max)
                    else if column[center] > target && center > min then Locate(column, target, min, center - 1)
                    else center)
            && (column[0] > target ==> column[center] > target)
  {
  }

  lemma Everywhere(column: Table, target: long)
    ensures column != [] ==> Narrowed(column, target, 0, |column| - 1)
    ensures Sorted(column) && column != [] && column[0] <= target ==>
              Place(column, target) == Locate(column, target, 0, |column| - 1)
  {
  }

  datatype Found = Row(id: uint32) | Missing | OutsideTable

  /** binary_search. Where it asks for a row behind the end of the table, the row buffer is used
      as it is; that happens exactly if the target is below the first value or there is none. */
  method BinarySearch(column: Table, target: long, exact: bool) returns (r: Found)
    requires Sorted(column)
    ensures r == OutsideTable <==> column == [] || target < column[0]
    ensures r != OutsideTable ==>
              r == if exact && column[Place(column, target)] != target then Missing else Row(Place(column, target))
  {
    hide Locate, Narrowed, Sorted;
    Everywhere(column, target);
    var min: uint32, max: uint32 := 0, if column == [] then INVALID_TUPLE else |column| - 1;
    var center: uint32 := 0;
    var more := true;
    while more
      invariant more ==> min <= max
      invariant more && max >= |column| ==> min == 0 && max == INVALID_TUPLE && (column == [] || target < column[0])
      invariant column == [] || target < column[0] ==> more && min == 0
      invariant more && max < |column| ==> Narrowed(column, target, min, max)
      invariant more && max < |column| && column[0] <= target ==> Place(column, target) == Locate(column, target, min, max)
      invariant !more ==> center < |column| && column[0] <= target && center == Place(column, target)
      decreases more, if max < |column| then max - min + 1 else 0
    {
      if max < |column| {
        Round(column, target, min, max);
      }
      center := min + (max - min) / 2;
      if center >= |column| {
        return OutsideTable;
      }
      var value := column[center];
      if target > value {
        min := center + 1;
      } else {
        max := (center - 1) % 0x1_0000_0000;
      }
      more := min <= max && target != value;
    }
    if exact && column[center] != target {
      return Missing;
    }
    return Row(center);
  }

  // ----- What an iteration returns -----

  /** The searches for both bounds stay inside the table. */
  predicate Inside(column: Table, low: long, high: long) {
    column != [] && column[0] <= low && column[0] <= high
  }

  /** The rows from the place of the lower bound to that of the upper bound; the first one is
      returned even if it is behind the last one. */
  function Hits(column: Table, low: long, high: long): seq<nat>
    requires Sorted(column) && Inside(column, low, high)
  {
    var first, last := Place(column, low), Place(column, high);
    if low == high && column[first] != low then [] else [first] + Ids(first + 1, last + 1)
  }

  /** A contiguous range of rows with every row whose value is between the bounds, and at each
      end one more row at most. */
  lemma HitsCover(column: Table, low: long, high: long)
    requires Increasing(column) && Inside(column, low, high) && low <= high
    ensures var hits := Hits(column, low, high);
            && Distinct(hits)
            && (forall i | 0 <= i < |hits| :: hits[i] == hits[0] + i && hits[i] < |column|)
            && (forall row: nat | row < |column| && low <= column[row] <= high :: row in hits)
            && (forall i | 0 < i < |hits| :: low <= column[hits[i]])
            && (forall i | 0 <= i < |hits| - 1 :: column[hits[i]] <= high)
  {
    hide Place, Sorted;
    IncreasingIsSorted(column);
    PlaceIsNear(column, low);
    PlaceIsNear(column, high);
    var first, last, hits := Place(column, low), Place(column, high), Hits(column, low, high);
    if hits != [] {
      assert forall i | 0 <= i < |hits| :: hits[i] == first + i;
      forall row: nat | row < |column| && low <= column[row] <= high
        ensures row in hits
      {
        assert first <= row && (row == first || row <= last);
        assert hits[row - first] == row;
      }
    }
  }

  lemma HitsAreRows(column: Table, low: long, high: long)
    requires Sorted(column) && Inside(column, low, high)
    ensures |Hits(column, low, high)| <= |column|
    ensures forall i | 0 <= i < |Hits(column, low, high)| :: Hits(column, low, high)[i] < |column|
  {
    hide Place, Sorted;
    var hits := Hits(column, low, high);
    assert hits != [] ==> forall i | 0 <= i < |hits| :: hits[i] == hits[0] + i;
  }

  lemma IncreasingIsSorted(column: seq<long>)
    requires Increasing(column)
    ensures Sorted(column)
  {
  }

  lemma PlaceIsNear(column: Table, target: long)
    requires Increasing(column) && Sorted(column) && column != [] && column[0] <= target
    ensures Near(column, target, Place(column, target))
  {
    hide Place;
  }

  /** A search for one value finds its row if there is one, and nothing else. */
  lemma ExactHit(column: Table, value: long)
    requires Increasing(column) && column != [] && column[0] <= value
    ensures forall row: nat :: row in Hits(column, value, value) <==> row < |column| && column[row] == value
  {
    HitsCover(column, value, value);
  }

  /** The column may also repeat values as long as it does not decrease, but then a search for one
      value misses rows: it finds them all exactly if the value occurs once at most. */
  lemma RepeatedValues(column: Table, value: long)
    requires Sorted(column) && column != [] && column[0] <= value
    ensures (forall row: nat | row < |column| && column[row] == value :: row in Hits(column, value, value))
       <==> (forall i: nat, j: nat | i < j < |column| :: !(column[i] == column[j] == value))
  {
    hide Locate, Place;
    var c, hits := Place(column, value), Hits(column, value, value);
    assert Ids(c + 1, c + 1) == [];
    if forall row: nat | row < |column| && column[row] == value :: row in hits {
    } else {
      var row: nat :| row < |column| && column[row] == value && row !in hits;
      assert column[c] == value;
      assert row < c || c < row;
    }
  }

  // ----- The iterator -----

  /** The item count of an iterator, and the static variables that all iterators share. */
  datatype Cursor = Cursor(items: uint32, start: uint32, end: uint32)

  function Next32(n: uint32): uint32 { (n + 1) % 0x1_0000_0000 }

  /** One call of get_next. The result of the range search is an unsigned tuple id, so it is never
      below DB_OK and its error is not noticed: a miss counts as an item. */
  function Step(column: Table, low: long, high: long, c: Cursor): (r: (Answer, Cursor))
    requires Sorted(column) && (c.items == 0 ==> Inside(column, low, high))
  {
    if c.items == 0 then
      if low == high && column[Place(column, low)] != low then (Miss(1), Cursor(1, INVALID_TUPLE, c.end))
      else (Hit(Place(column, low)), Cursor(1, Place(column, low), Place(column, high)))
    else
      var next := (c.start + c.items) % 0x1_0000_0000;
      if next <= c.end && next != INVALID_TUPLE then (Hit(next), c.(items := Next32(c.items)))
      else (Miss(if next <= c.end then Next32(c.items) else c.items),
            if next <= c.end then c.(items := Next32(c.items)) else c)
  }

  /** The answers of an iterator that is the only one in use. A caller that goes on after a miss is
      given the rows up to the end of the range searched before. */
  function SearchAnswers(column: Table, low: long, high: long, oldEnd: nat): Answers
    requires Sorted(column) && Inside(column, low, high)
  {
    var hits := Hits(column, low, high);
    (n: nat) =>
         if n < |hits| then Hit(hits[n])
         else if hits != [] then Miss(|hits|)
         else if n == 0 then Miss(1)
         else if n - 1 <= oldEnd then Hit(n - 1)
         else Miss(oldEnd + 2)
  }

  /** The iterator and the static variables after n calls. */
  function After(column: Table, low: long, high: long, c: Cursor, n: nat): Cursor
    requires Sorted(column) && Inside(column, low, high)
  {
    if n == 0 then c else Step(column, low, high, After(column, low, high, c, n - 1)).1
  }

  lemma HitsShape(column: Table, low: long, high: long)
    requires Sorted(column) && Inside(column, low, high)
    ensures var hits, first, last := Hits(column, low, high), Place(column, low), Place(column, high);
            && first < 0x8000_0000 && last < 0x8000_0000
            && (hits == [] <==> low == high && column[first] != low)
            && (hits != [] ==> |hits| == (if first <= last then last - first + 1 else 1)
                               && forall i | 0 <= i < |hits| :: hits[i] == first + i)
  {
    hide Place, Sorted;
  }

  /** The cursor after n calls of the only iterator in use. */
  function CursorAt(column: Table, low: long, high: long, start: uint32, oldEnd: uint32, n: nat): Cursor
    requires Sorted(column) && Inside(column, low, high) && oldEnd < 0x8000_0000
  {
    HitsAreRows(column, low, high);
    if n == 0 then Cursor(0, start, oldEnd)
    else if Hits(column, low, high) != [] then
      Cursor(Min(n, |Hits(column, low, high)|), Place(column, low), Place(column, high))
    else Cursor(Min(n, oldEnd + 2), INVALID_TUPLE, oldEnd)
  }

  lemma StepFrom(column: Table, low: long, high: long, start: uint32, oldEnd: uint32, n: nat)
    requires Sorted(column) && Inside(column, low, high) && oldEnd < 0x8000_0000
    ensures Step(column, low, high, CursorAt(column, low, high, start, oldEnd, n))
         == (SearchAnswers(column, low, high, oldEnd)(n), CursorAt(column, low, high, start, oldEnd, n + 1))
  {
    hide Place, Sorted, Hits;
    HitsAreRows(column, low, high);
    HitsShape(column, low, high);
    var hits := Hits(column, low, high);
    if 0 < n && hits != [] {
      var first, items := Place(column, low), Min(n, |hits|);
      assert (first + items) % 0x1_0000_0000 == first + items;
    } else if 0 < n {
      var items := Min(n, oldEnd + 2);
      assert (INVALID_TUPLE + items) % 0x1_0000_0000 == items - 1;
    }
  }

  lemma {:induction false} CursorAfter(column: Table, low: long, high: long, start: uint32, oldEnd: uint32, n: nat)
    requires Sorted(column) && Inside(column, low, high) && oldEnd < 0x8000_0000
    ensures After(column, low, high, Cursor(0, start, oldEnd), n) == CursorAt(column, low, high, start, oldEnd, n)
    ensures n > 0 ==> After(column, low, high, Cursor(0, start, oldEnd), n).items > 0
  {
    hide Place, Sorted, Step;
    if n > 0 {
      CursorAfter(column, low, high, start, oldEnd, n - 1);
      StepFrom(column, low, high, start, oldEnd, n - 1);
    }
  }

  /** Call after call, a new iterator gives these answers; those before its first INVALID_TUPLE are
      the hits, and a search never ends with an item count of zero. */
  lemma CallsAnswer(column: Table, low: long, high: long, start: uint32, oldEnd: uint32, n: nat)
    requires Sorted(column) && Inside(column, low, high) && oldEnd < 0x8000_0000
    ensures Step(column, low, high, After(column, low, high, Cursor(0, start, oldEnd), n)).0
         == SearchAnswers(column, low, high, oldEnd)(n) != Miss(0)
    ensures Lists(SearchAnswers(column, low, high, oldEnd), Hits(column, low, high))
  {
    hide Place, Sorted, Step, After, CursorAt;
    CursorAfter(column, low, high, start, oldEnd, n);
    StepFrom(column, low, high, start, oldEnd, n);
  }

  /** With all values of the range at or above the first one, the iteration is what the query
      engine asks of an index. */
  lemma EnumeratesRange(q: Select, k: nat, column: Table, min: long, max: long)
    requires q.Proper() && k < |q.attrs| && Numeric(q.attrs[k])
    requires |column| == |q.rows| && forall id | 0 <= id < |column| :: column[id] == Number(q.attrs, q.rows[id], k)
    requires Increasing(column) && Inside(column, min, max) && min <= max
    ensures Enumerates(q, Hits(column, min, max), k, min, max)
  {
    hide q.Proper, Number, Hits, Place;
    HitsCover(column, min, max);
  }

  class InlineIterator {
    const column: Table
    const low: long
    const high: long
    var nextItem: uint32
    // Static variables of get_next, shared by all iterators of the source.
    var cachedStart: uint32
    var cachedEnd: uint32

    constructor (column: Table, low: long, high: long, oldStart: uint32, oldEnd: uint32)
      ensures this.column == column && this.low == low && this.high == high
      ensures State() == Cursor(0, oldStart, oldEnd)
    {
      this.column, this.low, this.high, nextItem := column, low, high, 0;
      cachedStart, cachedEnd := oldStart, oldEnd;
    }

    function State(): Cursor
      reads this
    {
      Cursor(nextItem, cachedStart, cachedEnd)
    }

    /** range_search: a miss leaves the end of the range as it was. What happens when a search leaves
        the table depends on bytes that were never written. */
    method RangeSearch() returns (inside: bool)
      requires Sorted(column)
      modifies this`cachedStart, this`cachedEnd
      ensures inside == Inside(column, low, high)
      ensures inside ==>
                if Hits(column, low, high) == [] then cachedStart == INVALID_TUPLE && cachedEnd == old(cachedEnd)
                else cachedStart == Place(column, low) && cachedEnd == Place(column, high)
    {
      var exact := low == high;
      var r := BinarySearch(column, low, exact);
      if r.OutsideTable? {
        return false;
      }
      cachedStart := if r.Row? then r.id else INVALID_TUPLE;
      if r.Row? {
        r := BinarySearch(column, high, exact);
        if r.OutsideTable? {
          return false;
        }
        cachedEnd := r.id;
      }
      return true;
    }

    /** get_next does one step. */
    method GetNext() returns (inside: bool, id: uint32)
      requires Sorted(column)
      modifies this`nextItem, this`cachedStart, this`cachedEnd
      ensures inside == (old(nextItem) == 0 ==> Inside(column, low, high))
      ensures inside ==>
                var (answer, next) := Step(column, low, high, old(State()));
                && State() == next
                && match answer
                   case Hit(n) => id == n
                   case Miss(items) => id == INVALID_TUPLE && nextItem == items
    {
      hide Place, Sorted;
      if nextItem == 0 {
        inside := RangeSearch();
        if !inside {
          return false, INVALID_TUPLE;
        }
        nextItem := 1;
        return true, cachedStart;
      }
      var next := (cachedStart + nextItem) % 0x1_0000_0000;
      if next <= cachedEnd {
        nextItem := (nextItem + 1) % 0x1_0000_0000;
        return true, next;
      }
      return true, INVALID_TUPLE;
    }

    /** A caller that stops at the first INVALID_TUPLE gets the hits. */
    method Collect() returns (inside: bool, hits: seq<nat>)
      requires Sorted(column) && nextItem == 0 && cachedEnd < 0x8000_0000
      modifies this`nextItem, this`cachedStart, this`cachedEnd
      ensures inside == Inside(column, low, high)
      ensures inside ==> hits == Hits(column, low, high) && nextItem > 0
    {
      hide Hits, Place, Sorted, Step, CursorAt;
      hits := [];
      ghost var first, n := State(), 0;
      var id: uint32;
      inside, id := GetNext();
      if !inside {
        return;
      }
      HitsAreRows(column, low, high);
      ghost var all := Hits(column, low, high);
      CallsAnswer(column, low, high, first.start, first.end, 0);
      CursorAfter(column, low, high, first.start, first.end, 1);
      while id != INVALID_TUPLE
        invariant inside && State() == After(column, low, high, first, n + 1) && nextItem > 0
        invariant n <= |all| && hits == all[..n]
        invariant if n < |all| then id == all[n] else id == INVALID_TUPLE
        decreases id != INVALID_TUPLE, |all| - n
      {
        hits := hits + [id];
        n := n + 1;
        CursorAfter(column, low, high, first.start, first.end, n + 1);
        CallsAnswer(column, low, high, first.start, first.end, n);
        inside, id := GetNext();
      }
    }
  }
}
