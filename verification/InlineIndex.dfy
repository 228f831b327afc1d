/** Antelope's inline index (index-inline.c): no separate structure, but a binary search over
    a row file that is sorted by the indexed column. */
module InlineIndex {

  import opened Bytes
  import opened Lvm
  import opened Storage

  /** tuple_id_t arithmetic */
  function Wrap32(x: int): uint32 {
    x % 0x1_0000_0000
  }

  /** The values of a column as they are read back. */
  function Column(schema: seq<Attribute>, rows: seq<Row>, j: nat): (c: seq<long>)
    requires Fits(schema, rows) && j < |schema|
    ensures |c| == |rows| && forall k :: 0 <= k < |rows| ==> c[k] == Stored(schema[j].domain, rows[k][j])
  {
    if rows == [] then []
    else Column(schema, rows[..|rows| - 1], j) + [Stored(schema[j].domain, rows[|rows| - 1][j])]
  }

  predicate Increasing(c: seq<long>) {
    forall i, k :: 0 <= i < k < |c| ==> c[i] < c[k]
  }

  /** What the search requires: a sorted column, and a target that is not below its first
      value (the search would run past the start). */
  predicate Searchable(c: seq<long>, target: long) {
    0 < |c| < 0x8000_0000 && Increasing(c) && c[0] <= target
  }

  /** `p` is the place where the target would be inserted. */
  predicate InsertionPoint(c: seq<long>, target: long, p: nat) {
    && p <= |c|
    && (forall i :: 0 <= i < p ==> c[i] < target)
    && (forall i :: p <= i < |c| ==> target <= c[i])
  }

  /** The target's place, if it has one, is between `min` and `max`. */
  predicate Searching(c: seq<long>, target: long, min: int, max: int) {
    && 0 <= min <= max < |c|
    && (forall i :: 0 <= i < min ==> c[i] < target)
    && (forall i :: max < i < |c| ==> target < c[i])
  }

  /** What a search that is over says: the target was found at `center`, or this is next to
      where it would be. */
  ghost predicate Searched(c: seq<long>, target: long, center: int) {
    && 0 <= center < |c|
    && (c[center] != target ==>
          target !in c && exists p: nat :: InsertionPoint(c, target, p) && center <= p <= center + 1)
  }

  /** One round of the search: the unsigned arithmetic does not wrap. */
  lemma SearchStep(c: seq<long>, target: long, min: int, max: int)
    requires Searchable(c, target) && Searching(c, target, min, max)
    ensures var center := min + (max - min) / 2;
      && min <= center <= max && Wrap32(center) == center
      && (target > c[center] ==>
            && Wrap32(center + 1) == center + 1
            && if center + 1 <= max then Searching(c, target, center + 1, max) else Searched(c, target, center))
      && (target < c[center] ==>
            && Wrap32(center - 1) == center - 1
            && if min <= center - 1 then Searching(c, target, min, center - 1) else Searched(c, target, center))
      && (target == c[center] ==> Searched(c, target, center))
  {
    var center := min + (max - min) / 2;
    if target > c[center] && center + 1 > max {
      assert InsertionPoint(c, target, center + 1);
    }
    if target < c[center] && min > center - 1 {
      assert InsertionPoint(c, target, center);
    }
  }

  // ----- When the search leaves the rows -----

  /** The state of the search between two rounds; `more` is the condition of its loop. */
  datatype Search = Search(min: uint32, max: uint32, more: bool)

  function Center(s: Search): uint32 {
    Wrap32(s.min as int + Wrap32(s.max as int - s.min as int) as int / 2)
  }

  /** One round; `value` is what tuple `center` holds. */
  function Round(target: long, value: long, s: Search): Search {
    var center := Center(s);
    var min := if target > value then Wrap32(center as int + 1) else s.min;
    var max := if target > value then s.max else Wrap32(center as int - 1);
    Search(min, max, min <= max && target != value)
  }

  /** The search after `n` rounds, or nothing if it has read a tuple that is not there. */
  function After(c: seq<long>, target: long, n: nat): Option<Search> {
    if n == 0 then Some(Search(0, Wrap32(|c| - 1), true))
    else
      var s := After(c, target, n - 1);
      if s.None? || !s.value.more then s
      else if Center(s.value) < |c| then Some(Round(target, c[Center(s.value)], s.value))
      else None
  }

  /** The search comes to its end, and reads no tuple that is not there. */
  ghost predicate Ends(c: seq<long>, target: long) {
    exists n: nat :: After(c, target, n).Some? && !After(c, target, n).value.more
  }

  lemma OneMore(c: seq<long>, target: long, n: nat)
    ensures var s := After(c, target, n);
      && (s.None? || !s.value.more ==> After(c, target, n + 1) == s)
      && (s.Some? && s.value.more && Center(s.value) < |c| ==> After(c, target, n + 1) == Some(Round(target, c[Center(s.value)], s.value)))
      && (s.Some? && s.value.more && Center(s.value) >= |c| ==> After(c, target, n + 1).None?)
  {
  }

  lemma CenterIs(s: Search)
    requires s.min <= s.max
    ensures Center(s) == s.min + (s.max - s.min) / 2 && s.min <= Center(s) <= s.max
  {
  }

  lemma RoundStays(c: seq<long>, target: long, s: Search)
    requires Searchable(c, target) && Searching(c, target, s.min, s.max)
    ensures Center(s) < |c|
    ensures var t := Round(target, c[Center(s)], s); t.more ==> Searching(c, target, t.min, t.max)
  {
    hide Searchable, Wrap32;
    SearchStep(c, target, s.min, s.max);
    SearchBounds(c, target, s.min, s.max);
    CenterIs(s);
    hide Searching, Searched, Center;
  }

  lemma {:induction false} AboveFirst(c: seq<long>, target: long, n: nat)
    requires Searchable(c, target)
    ensures After(c, target, n).Some?
    ensures var s := After(c, target, n).value; s.more ==> Searching(c, target, s.min, s.max)
  {
    hide *;
    if n == 0 {
      Starts(c, target);
    } else {
      AboveFirst(c, target, n - 1);
      OneMore(c, target, n - 1);
      var s := After(c, target, n - 1).value;
      if s.more {
        RoundStays(c, target, s);
      }
    }
  }

  lemma Starts(c: seq<long>, target: long)
    requires |c| < 0x8000_0000 || Searchable(c, target)
    ensures After(c, target, 0).Some? && After(c, target, 0) == Some(Search(0, Wrap32(|c| - 1), true))
    ensures Searchable(c, target) ==> Wrap32(|c| - 1) == |c| - 1 && Searching(c, target, 0, |c| - 1)
  {
  }

  /** A round with a target below the first row. */
  lemma RoundBelow(target: long, value: long, max: uint32)
    requires target < value && max < 0x8000_0000
    ensures var s := Search(0, max, true);
      Center(s) == max / 2 && Round(target, value, s) == Search(0, if max / 2 == 0 then 0xFFFF_FFFF else max / 2 - 1, true)
  {
    CenterIs(Search(0, max, true));
  }

  lemma WrappedCenter()
    ensures Center(Search(0, 0xFFFF_FFFF, true)) == 0x7FFF_FFFF
  {
  }

  lemma FirstIsLeast(c: seq<long>, k: nat)
    requires Increasing(c) && k < |c|
    ensures c[0] <= c[k]
  {
  }

  /** A target below the first row halves `max` down to the first row, and then wraps it. */
  lemma {:induction false} BelowFirst(c: seq<long>, target: long, n: nat, max: uint32) returns (m: nat)
    requires 0 < |c| < 0x8000_0000 && Increasing(c) && target < c[0] && max < |c|
    requires After(c, target, n) == Some(Search(0, max, true))
    ensures After(c, target, m).None?
    decreases max
  {
    hide *;
    FirstIsLeast(c, max / 2);
    RoundBelow(target, c[max / 2], max);
    OneMore(c, target, n);
    if max / 2 == 0 {
      WrappedCenter();
      OneMore(c, target, n + 1);
      m := n + 2;
    } else {
      m := BelowFirst(c, target, n + 1, max / 2 - 1);
    }
  }

  /** On an increasing column the search never reads a tuple that is not there, in any number
      of rounds, if and only if there is a row and the target is not below the first one. */
  lemma StaysInside(c: seq<long>, target: long)
    requires Increasing(c) && |c| < 0x8000_0000
    ensures (forall n: nat :: After(c, target, n).Some?) <==> c != [] && c[0] <= target
  {
    hide After, Center, Round;
    Starts(c, target);
    if c == [] {
      WrappedCenter();
      OneMore(c, target, 0);
    } else if target < c[0] {
      var m := BelowFirst(c, target, 0, |c| - 1);
    } else {
      forall n: nat
        ensures After(c, target, n).Some?
      {
        AboveFirst(c, target, n);
      }
    }
  }

  // ----- The search -----

  lemma OneRound(c: seq<long>, target: long, n: nat, min: uint32, max: uint32)
    requires Searchable(c, target) && Searching(c, target, min, max) && After(c, target, n) == Some(Search(min, max, true))
    ensures min <= max < |c|
    ensures var center := min + (max - min) / 2;
      var value, lower, upper := c[center], Wrap32(center as int + 1), Wrap32(center as int - 1);
      && min <= center <= max && Wrap32(center as int) == center
      && After(c, target, n + 1) == Some(if target > value then Search(lower, max, lower <= max)
                                         else Search(min, upper, min <= upper && target != value))
      && (target > value ==> lower > min && if lower <= max then Searching(c, target, lower, max) else Searched(c, target, center))
      && (target < value ==> upper < max && if min <= upper then Searching(c, target, min, upper) else Searched(c, target, center))
      && (target == value ==> Searched(c, target, center))
  {
    hide Searching, Searched, Searchable, After;
    SearchStep(c, target, min, max);
    SearchBounds(c, target, min, max);
    OneMore(c, target, n);
    CenterIs(Search(min, max, true));
  }

  /** binary_search: the target's place if the column holds it; otherwise nothing for an exact
      search, and for another one a place within one row of the insertion point. */
  method BinarySearch(rel: Relation, j: nat, target: long, exact: bool) returns (r: Option<nat>)
    requires rel.Valid() && j < |rel.schema| && Searchable(Column(rel.schema, rel.inserted, j), target)
    ensures var c := Column(rel.schema, rel.inserted, j);
      if exact && target !in c then r.None? else r.Some? && Searched(c, target, r.value)
    ensures Ends(Column(rel.schema, rel.inserted, j), target)
  {
    hide Searching, Searched, Searchable, Stored, Column, RowLength, FileOf, After, Wrap32;
    ghost var c := Column(rel.schema, rel.inserted, j);
    ghost var n: nat := 0;
    SearchBegins(c, target);
    Starts(c, target);
    var min: uint32, max: uint32, center: uint32 := 0, rel.cardinality - 1, 0;
    var value, more := target, true;
    while more
      invariant After(c, target, n) == Some(Search(min, max, more))
      invariant more ==> Searching(c, target, min, max)
      invariant !more ==> Searched(c, target, center) && center < |c| && value == c[center]
      decreases if more then max as int - min + 1 else 0
    {
      OneRound(c, target, n, min, max);
      n := n + 1;
      center := Wrap32(min as int + (max as int - min) / 2);
      var status;
      status, value := rel.GetValue(center, j);
      if target > value {
        min := Wrap32(center as int + 1);
      } else {
        max := Wrap32(center as int - 1);
      }
      more := min <= max && target != value;
    }
    FoundIfThere(c, target, center);
    if exact && target != value {
      return None;
    }
    r := Some(center);
  }

  lemma SearchBegins(c: seq<long>, target: long)
    requires Searchable(c, target)
    ensures 0 < |c| < 0x8000_0000 && Searching(c, target, 0, |c| - 1)
  {
  }

  lemma SearchBounds(c: seq<long>, target: long, min: int, max: int)
    requires Searching(c, target, min, max)
    ensures 0 <= min <= max < |c|
  {
  }

  lemma FoundIfThere(c: seq<long>, target: long, center: nat)
    requires Searched(c, target, center)
    ensures center < |c| && (target in c <==> c[center] == target)
  {
  }

  /** The tuples from `start` to `end`, and at least the first, include every row whose value
      is in the range; a search for one value starts at its row. */
  ghost predicate Covers(c: seq<long>, lo: long, hi: long, start: nat, end: nat) {
    && start < |c| && end < |c| && (lo == hi ==> c[start] == lo)
    && forall k :: 0 <= k < |c| && lo <= c[k] <= hi ==> start <= k <= end
  }

  lemma RangeCovers(c: seq<long>, lo: long, hi: long, start: nat, end: nat)
    requires Increasing(c) && Searched(c, lo, start) && Searched(c, hi, end)
    requires lo == hi ==> lo in c
    ensures Covers(c, lo, hi, start, end)
  {
    forall k | 0 <= k < |c| && lo <= c[k] <= hi
      ensures start <= k <= end
    {
      if c[start] != lo {
        var p: nat :| InsertionPoint(c, lo, p) && start <= p <= start + 1;
        assert k >= p;
      }
      if c[end] != hi {
        var p: nat :| InsertionPoint(c, hi, p) && end <= p <= end + 1;
        assert k < p;
      }
    }
  }

  /** The iterator of one search; the original keeps the cached range in static variables. */
  class RangeIterator {
    const rel: Relation
    const j: nat
    const unique: bool // ATTRIBUTE_FLAG_UNIQUE of the indexed column
    const lo: long
    const hi: long
    var nextItem: nat
    var cachedStart: nat
    var cachedEnd: nat

    ghost function Values(): seq<long>
      requires Usable()
      reads rel
    {
      Column(rel.schema, rel.inserted, j)
    }

    /** What the index demands of the relation and of the range. */
    ghost predicate Usable()
      reads rel
    {
      && rel.Valid() && j < |rel.schema|
      && Searchable(Column(rel.schema, rel.inserted, j), lo) && Searchable(Column(rel.schema, rel.inserted, j), hi)
    }

    /** Once the search has been made, the cached range is right. */
    ghost predicate Valid()
      reads this, rel
    {
      Usable() && (nextItem > 0 ==> Covers(Values(), lo, hi, cachedStart, cachedEnd))
    }

    /** The tuple after the ones that were returned. */
    ghost function Position(): nat
      reads this
    {
      if nextItem == 0 then 0 else cachedStart + nextItem
    }

    /** Every row whose value is in the range is before tuple `n`. */
    ghost predicate AllBefore(n: nat)
      requires Usable()
      reads rel
    {
      forall k :: 0 <= k < |Values()| && lo <= Values()[k] <= hi ==> k < n
    }

    /** Every row whose value is in the range is tuple `n` or a later one. */
    ghost predicate NoneBefore(n: nat)
      requires Usable()
      reads rel
    {
      forall k :: 0 <= k < |Values()| && lo <= Values()[k] <= hi ==> n <= k
    }

    /** index_get_iterator */
    constructor (rel: Relation, j: nat, unique: bool, lo: long, hi: long)
      ensures this.rel == rel && this.j == j && this.unique == unique && this.lo == lo && this.hi == hi
      ensures nextItem == 0
    {
      this.rel, this.j, this.unique, this.lo, this.hi := rel, j, unique, lo, hi;
      nextItem, cachedStart, cachedEnd := 0, 0, 0;
    }

    /** range_search */
    method RangeSearch() returns (start: Option<nat>, end: Option<nat>)
      requires Usable()
      ensures start.Some? <==> end.Some?
      ensures start.None? <==> lo == hi && lo !in Values()
      ensures start.Some? ==> Covers(Values(), lo, hi, start.value, end.value)
    {
      hide Searchable, Searched, Covers, Relation.Valid;
      var exact := lo == hi;
      start := BinarySearch(rel, j, lo, exact);
      if start.None? {
        return None, None;
      }
      end := BinarySearch(rel, j, hi, exact);
      SearchableIncreasing(Values(), lo);
      RangeCovers(Values(), lo, hi, start.value, end.value);
    }

    /** get_next: the tuples of the range, one after the other. */
    method GetNext() returns (t: Option<nat>)
      requires Valid()
      modifies this
      ensures Valid() && (t.Some? <==> nextItem == old(nextItem) + 1) && (t.None? <==> nextItem == old(nextItem))
      ensures t.Some? ==> old(Position()) <= t.value < |Values()| && Position() == t.value + 1
      ensures t.Some? ==> t.value == old(Position()) || (old(nextItem) == 0 && NoneBefore(t.value))
      ensures t.None? ==> Position() == old(Position()) && AllBefore(Position())
    {
      if nextItem == 0 {
        hide Covers;
        var start, end := RangeSearch();
        if start.None? {
          cachedStart, cachedEnd := 0, 0;
          NotThere();
          return None;
        }
        cachedStart, cachedEnd := start.value, end.value;
        nextItem := 1;
        FirstInRange(start.value, end.value);
        return Some(cachedStart);
      } else if cachedStart + nextItem <= cachedEnd {
        t := Some(cachedStart + nextItem);
        nextItem := nextItem + 1;
        return;
      }
      t := None;
    }

    /** index_get_next: a search for one value of a unique column stops after its row. */
    method Next() returns (t: Option<nat>)
      requires Valid()
      modifies this
      ensures Valid() && (t.Some? <==> nextItem == old(nextItem) + 1) && (t.None? <==> nextItem == old(nextItem))
      ensures t.Some? ==> old(Position()) <= t.value < |Values()| && Position() == t.value + 1
      ensures t.Some? ==> t.value == old(Position()) || (old(nextItem) == 0 && NoneBefore(t.value))
      ensures t.None? ==> Position() == old(Position()) && AllBefore(Position())
    {
      if unique && nextItem == 1 {
        if lo == hi {
          FoundOnce();
          return None;
        }
      }
      t := GetNext();
    }

    lemma NotThere()
      requires Usable() && lo == hi && lo !in Values()
      ensures AllBefore(0)
    {
    }

    lemma FirstInRange(start: nat, end: nat)
      requires Usable() && Covers(Values(), lo, hi, start, end)
      ensures start < |Values()| && NoneBefore(start)
    {
    }

    /** In a strictly increasing column one row has the value. */
    lemma FoundOnce()
      requires Valid() && nextItem == 1 && lo == hi
      ensures AllBefore(cachedStart + 1)
    {
    }
  }

  lemma SearchableIncreasing(c: seq<long>, target: long)
    requires Searchable(c, target)
    ensures Increasing(c)
  {
  }
}
