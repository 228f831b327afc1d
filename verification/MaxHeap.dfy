/** Antelope's MaxHeap index (index-maxheap.c): a binary tree of hash ranges stored in an
    array, with one bucket of key-value pairs for each node.  A full bucket is split by
    adding two children; the pairs it holds stay where they are. */
module MaxHeap {

  import opened Bytes

  const BUCKET_SIZE: nat := 128
  const NODE_LIMIT: nat := 511
  const NODE_DEPTH: nat := 9
  const KEY_MAX: nat := 65535

  datatype HeapNode = HeapNode(min: uint16, max: uint16)

  datatype Pair = Pair(key: uint16, value: uint16)

  const EMPTY_NODE := HeapNode(0, 0)

  // ----- The shape of the tree -----

  function Parent(i: nat): nat
    requires i > 0
  {
    (i - 1) / 2
  }

  /** The range of hashes that node `i` accepts, if it exists: the root takes them all, and
      the two children of a node take its halves. */
  function Range(i: nat): (r: (int, int)) {
    if i == 0 then (0, KEY_MAX)
    else
      var (lo, hi) := Range(Parent(i));
      var mean := lo + (hi - lo) / 2;
      if i % 2 == 1 then (lo, mean) else (mean + 1, hi)
  }

  predicate Accepts(i: nat, h: int) {
    Range(i).0 <= h <= Range(i).1
  }

  function Depth(i: nat): nat {
    if i == 0 then 0 else 1 + Depth(Parent(i))
  }

  lemma {:induction false} DepthBound(i: nat, d: nat)
    requires i + 1 < Pow2(d + 1)
    ensures Depth(i) <= d
  {
    if i > 0 {
      DepthBound(Parent(i), d - 1);
    }
  }

  /** A node at depth d spans exactly 2^(16-d) hashes. */
  lemma {:induction false} Span(i: nat)
    requires Depth(i) <= 16
    ensures 0 <= Range(i).0 && Range(i).1 <= KEY_MAX
    ensures Range(i).1 - Range(i).0 + 1 == Pow2(16 - Depth(i))
  {
    if i == 0 {
      assert Pow2(16) == 65536 by {
        assert Pow2(4) == 16;
        assert Pow2(8) == 256;
        assert Pow2(12) == 4096;
      }
    } else {
      Span(Parent(i));
      assert Pow2(16 - Depth(Parent(i))) == 2 * Pow2(16 - Depth(i));
    }
  }

  lemma Pow2AtLeast(n: nat)
    ensures Pow2(n) >= n + 1
  {
  }

  /** Every node of the array is at depth 8 or less, so its range is wide. */
  lemma NodeSpan(i: nat)
    requires i < NODE_LIMIT
    ensures Depth(i) <= 8
    ensures 0 <= Range(i).0 && Range(i).0 + 8 <= Range(i).1 <= KEY_MAX
  {
    assert Pow2(9) == 512 by {
      assert Pow2(4) == 16;
    }
    DepthBound(i, 8);
    Span(i);
    Pow2AtLeast(16 - Depth(i));
  }

  /** The two children of a node partition its range. */
  lemma ChildrenPartition(i: nat, h: int)
    requires 2 * i + 2 < NODE_LIMIT
    ensures Accepts(i, h) <==> Accepts(2 * i + 1, h) || Accepts(2 * i + 2, h)
    ensures !(Accepts(2 * i + 1, h) && Accepts(2 * i + 2, h))
  {
    NodeSpan(i);
    assert Parent(2 * i + 1) == i == Parent(2 * i + 2);
  }

  /** Node `a` lies on the way from the root to node `t`. */
  predicate Above(a: nat, t: nat)
    decreases t
  {
    a == t || (t > a && Above(a, Parent(t)))
  }

  lemma {:induction false} AboveChild(a: nat, t: nat)
    requires Above(a, t) && a != t
    ensures Above(2 * a + 1, t) || Above(2 * a + 2, t)
    decreases t
  {
    if Parent(t) != a {
      AboveChild(a, Parent(t));
    }
  }

  lemma {:induction false} AboveRange(a: nat, t: nat)
    requires Above(a, t) && t < NODE_LIMIT
    ensures Range(a).0 <= Range(t).0 && Range(t).1 <= Range(a).1
    decreases t
  {
    if a != t {
      NodeSpan(Parent(t));
      AboveRange(a, Parent(t));
    }
  }

  lemma {:induction false} RootAbove(t: nat)
    ensures Above(0, t)
  {
    if t > 0 {
      RootAbove(Parent(t));
    }
  }

  // ----- The stored nodes -----

  predicate Present(s: seq<HeapNode>, i: nat) {
    i < |s| && s[i] != EMPTY_NODE
  }

  /** A child is stored only below a stored node, and the right child only beside a left one. */
  predicate Rooted(s: seq<HeapNode>, i: nat) {
    && (Present(s, 2 * i + 1) ==> Present(s, i))
    && (Present(s, 2 * i + 2) ==> Present(s, 2 * i + 1))
  }

  /** Both children of a node are stored or neither is. */
  predicate Balanced(s: seq<HeapNode>, i: nat) {
    Present(s, 2 * i + 1) ==> Present(s, 2 * i + 2)
  }

  predicate Placed(s: seq<HeapNode>, i: nat) {
    Present(s, i) ==> (s[i].min, s[i].max) == Range(i)
  }

  ghost predicate Shaped(s: seq<HeapNode>) {
    && |s| == NODE_LIMIT
    && Present(s, 0)
    && (forall i: nat :: Placed(s, i))
    && (forall i: nat :: Rooted(s, i))
  }

  ghost predicate Paired(s: seq<HeapNode>) {
    forall i: nat :: Balanced(s, i)
  }

  lemma StoredRange(s: seq<HeapNode>, i: nat)
    requires Shaped(s) && Present(s, i)
    ensures (s[i].min, s[i].max) == Range(i)
  {
    assert Placed(s, i);
  }

  lemma StoredParent(s: seq<HeapNode>, i: nat)
    requires Shaped(s) && Present(s, i) && i > 0
    ensures Present(s, Parent(i))
    ensures i % 2 == 0 ==> Present(s, i - 1)
  {
    var k := Parent(i);
    assert Rooted(s, k);
    assert i == 2 * k + 1 || i == 2 * k + 2;
  }

  lemma {:induction false} AbovePresent(s: seq<HeapNode>, a: nat, t: nat)
    requires Shaped(s) && Above(a, t) && Present(s, t)
    ensures Present(s, a)
    decreases t
  {
    if a != t {
      StoredParent(s, t);
      AbovePresent(s, a, Parent(t));
    }
  }

  /** A node that heap_find can return and that accepts the hash. */
  ghost predicate OnPath(s: seq<HeapNode>, h: int, b: nat) {
    2 * b + 1 < NODE_LIMIT && Present(s, b) && Accepts(b, h)
  }

  function ChildFor(i: nat, h: int): nat {
    if Accepts(2 * i + 1, h) then 2 * i + 1 else 2 * i + 2
  }

  /** The nodes that repeated calls of heap_find return, from node `i` on. */
  function SearchPath(s: seq<HeapNode>, h: int, i: nat): (p: seq<nat>)
    ensures |p| >= 1
    decreases NODE_LIMIT - i
  {
    var c := ChildFor(i, h);
    if 2 * c + 1 < NODE_LIMIT && Present(s, c) then [i] + SearchPath(s, h, c) else [i]
  }

  function Last(p: seq<nat>): nat
    requires |p| > 0
  {
    p[|p| - 1]
  }

  /** Everything on the search path is stored, can be found and accepts the hash. */
  lemma {:induction false} SearchPathOnPath(s: seq<HeapNode>, h: int, i: nat)
    requires Shaped(s) && OnPath(s, h, i)
    ensures forall b :: b in SearchPath(s, h, i) ==> OnPath(s, h, b)
    decreases NODE_LIMIT - i
  {
    ChildrenPartition(i, h);
    var c := ChildFor(i, h);
    if 2 * c + 1 < NODE_LIMIT && Present(s, c) {
      SearchPathOnPath(s, h, c);
    }
  }

  /** The search path from `i` passes through every findable node below `i` that accepts
      the hash. */
  lemma {:induction false} SearchPathComplete(s: seq<HeapNode>, h: int, i: nat, b: nat)
    requires Shaped(s) && OnPath(s, h, b) && Above(i, b)
    ensures b in SearchPath(s, h, i)
    decreases NODE_LIMIT - i
  {
    if i != b {
      AboveChild(i, b);
      var c := if Above(2 * i + 1, b) then 2 * i + 1 else 2 * i + 2;
      AboveSmaller(c, b);
      AboveRange(c, b);
      assert Accepts(c, h);
      ChildrenPartition(i, h);
      assert c == ChildFor(i, h);
      AbovePresent(s, c, b);
      SearchPathComplete(s, h, c, b);
    }
  }

  lemma {:induction false} AboveSmaller(a: nat, t: nat)
    requires Above(a, t)
    ensures a <= t
    decreases t
  {
  }

  /** The search path of a hash is exactly the set of findable nodes that accept it. */
  lemma SearchPathExact(s: seq<HeapNode>, h: int, b: nat)
    requires Shaped(s) && 0 <= h <= KEY_MAX
    ensures b in SearchPath(s, h, 0) <==> OnPath(s, h, b)
  {
    SearchPathOnPath(s, h, 0);
    RootAbove(b);
    if OnPath(s, h, b) {
      SearchPathComplete(s, h, 0, b);
    }
  }

  lemma {:induction false} SearchPathDepth(s: seq<HeapNode>, h: int, i: nat)
    requires 2 * i + 1 < NODE_LIMIT
    ensures |SearchPath(s, h, i)| + Depth(i) <= 8
    decreases NODE_LIMIT - i
  {
    assert Pow2(8) == 256 by {
      assert Pow2(4) == 16;
    }
    DepthBound(i, 7);
    var c := ChildFor(i, h);
    assert Parent(c) == i;
    if 2 * c + 1 < NODE_LIMIT && Present(s, c) {
      SearchPathDepth(s, h, c);
    }
  }

  /** Below the last node of a search path there is nothing findable for the hash. */
  lemma {:induction false} SearchPathEnds(s: seq<HeapNode>, h: int, i: nat)
    ensures var c := ChildFor(Last(SearchPath(s, h, i)), h); !(2 * c + 1 < NODE_LIMIT && Present(s, c))
    decreases NODE_LIMIT - i
  {
    var c := ChildFor(i, h);
    if 2 * c + 1 < NODE_LIMIT && Present(s, c) {
      SearchPathEnds(s, h, c);
    }
  }

  // ----- The stored pairs -----

  /** Slot `j` of bucket `b` in the bucket file. */
  function Slot(b: nat, j: nat): nat {
    b * BUCKET_SIZE + j
  }

  predicate InUse(free: seq<nat>, b: nat, j: nat) {
    b < |free| && j < free[b]
  }

  /** The pair in slot `j` of bucket `b` was inserted, and the bucket is on the search path
      of its key. */
  ghost predicate SlotSound(hash: uint16 -> uint16, s: seq<HeapNode>, pairs: seq<Pair>, inserted: seq<Pair>, b: nat, j: nat)
    requires Slot(b, j) < |pairs|
  {
    var p := pairs[Slot(b, j)];
    p in inserted && OnPath(s, hash(p.key), b)
  }

  ghost predicate Kept(free: seq<nat>, pairs: seq<Pair>, p: Pair) {
    exists b: nat, j: nat :: InUse(free, b, j) && Slot(b, j) < |pairs| && pairs[Slot(b, j)] == p
  }

  ghost predicate StoreOk(hash: uint16 -> uint16, s: seq<HeapNode>, free: seq<nat>, pairs: seq<Pair>, inserted: seq<Pair>) {
    && |free| == NODE_LIMIT && |pairs| == NODE_LIMIT * BUCKET_SIZE && |s| == NODE_LIMIT
    && (forall b :: 0 <= b < NODE_LIMIT ==> free[b] <= BUCKET_SIZE)
    && (forall b :: 0 <= b < NODE_LIMIT && !Present(s, b) ==> free[b] == 0)
    && (forall b: nat, j: nat :: InUse(free, b, j) ==> SlotSound(hash, s, pairs, inserted, b, j))
    && (forall p :: p in inserted ==> Kept(free, pairs, p))
  }

  /** Adding nodes takes no bucket off any search path. */
  lemma GrowthKeeps(hash: uint16 -> uint16, s: seq<HeapNode>, s': seq<HeapNode>, free: seq<nat>, pairs: seq<Pair>, inserted: seq<Pair>)
    requires StoreOk(hash, s, free, pairs, inserted)
    requires |s'| == NODE_LIMIT && forall i: nat :: Present(s, i) ==> Present(s', i)
    ensures StoreOk(hash, s', free, pairs, inserted)
  {
    hide Range;
    forall b: nat, j: nat | InUse(free, b, j)
      ensures SlotSound(hash, s', pairs, inserted, b, j)
    {
      assert SlotSound(hash, s, pairs, inserted, b, j);
    }
  }

  /** Appending a pair to a bucket on its search path keeps every other pair. */
  lemma AppendKeeps(hash: uint16 -> uint16, s: seq<HeapNode>, free: seq<nat>, pairs: seq<Pair>, inserted: seq<Pair>, b: nat, p: Pair)
    requires StoreOk(hash, s, free, pairs, inserted)
    requires OnPath(s, hash(p.key), b) && free[b] < BUCKET_SIZE
    ensures StoreOk(hash, s, free[b := free[b] + 1], pairs[Slot(b, free[b]) := p], inserted + [p])
  {
    assert b < NODE_LIMIT && Slot(b, free[b]) < |pairs|;
    hide OnPath;
    var free', pairs', inserted' := free[b := free[b] + 1], pairs[Slot(b, free[b]) := p], inserted + [p];
    forall c: nat, j: nat | InUse(free', c, j)
      ensures SlotSound(hash, s, pairs', inserted', c, j)
    {
      if c == b && j == free[b] {
        assert pairs'[Slot(c, j)] == p;
      } else {
        assert InUse(free, c, j) && SlotSound(hash, s, pairs, inserted, c, j);
        assert Slot(c, j) != Slot(b, free[b]);
      }
    }
    forall q | q in inserted'
      ensures Kept(free', pairs', q)
    {
      if q in inserted {
        var c: nat, j: nat :| InUse(free, c, j) && Slot(c, j) < |pairs| && pairs[Slot(c, j)] == q;
        assert Slot(c, j) != Slot(b, free[b]);
        assert InUse(free', c, j) && pairs'[Slot(c, j)] == q;
      } else {
        assert InUse(free', b, free[b]) && pairs'[Slot(b, free[b])] == p;
      }
    }
  }

  // ----- The index -----

  class Index {
    const hash: uint16 -> uint16      // transform_key
    const nodes: array<HeapNode>      // the heap file
    const pairs: array<Pair>          // the bucket file, BUCKET_SIZE pairs for each node
    const nextFreeSlot: array<nat>
    ghost var inserted: seq<Pair>     // every pair that an insertion has accepted

    ghost predicate Valid()
      reads this, nodes, pairs, nextFreeSlot
    {
      && nextFreeSlot as object != pairs && nodes as object != pairs && nodes as object != nextFreeSlot
      && Shaped(nodes[..]) && Paired(nodes[..]) && StoreOk(hash, nodes[..], nextFreeSlot[..], pairs[..], inserted)
    }

    /** create: an empty tree with the root node only. */
    constructor (hash: uint16 -> uint16)
      ensures Valid() && this.hash == hash && inserted == []
      ensures fresh(nodes) && fresh(pairs) && fresh(nextFreeSlot)
      ensures forall i: nat :: Present(nodes[..], i) <==> i == 0
    {
      this.hash := hash;
      nodes := new HeapNode[NODE_LIMIT](_ => EMPTY_NODE);
      pairs := new Pair[NODE_LIMIT * BUCKET_SIZE](_ => Pair(0, 0));
      nextFreeSlot := new nat[NODE_LIMIT](_ => 0);
      inserted := [];
      new;
      nodes[0] := HeapNode(0, KEY_MAX);
    }

    /** heap_insert, called with the range of node `t`: stores the node at index `t`, unless
        it is there already at the lowest level of the array. */
    method HeapInsert(min: uint16, max: uint16, ghost t: nat) returns (r: int)
      requires nodes.Length == NODE_LIMIT && Shaped(nodes[..])
      requires 0 < t < NODE_LIMIT && Present(nodes[..], Parent(t)) && (min, max) == Range(t)
      requires t % 2 == 0 ==> Present(nodes[..], t - 1)
      requires Present(nodes[..], t) ==> 2 * t + 1 >= NODE_LIMIT
      modifies nodes
      ensures if old(Present(nodes[..], t)) then r == -1 && nodes[..] == old(nodes[..])
              else r == t && nodes[..] == old(nodes[..])[t := HeapNode(min, max)]
    {
      hide Shaped, Range, Above;
      NodeSpan(t);
      if min > max {
        return -1;
      }
      RootAbove(t);
      var i: nat := 0;
      while i < NODE_LIMIT
        invariant nodes[..] == old(nodes[..])
        invariant Trail(i, t) || (i >= NODE_LIMIT && Present(nodes[..], t))
      {
        var node := nodes[i];
        assert Present(nodes[..], i) <==> node != EMPTY_NODE;
        if node == EMPTY_NODE {
          StopsAt(nodes[..], i, t);
          nodes[i] := HeapNode(min, max);
          return i;
        } else if node.min <= min && max <= node.max {
          DescendsTo(nodes[..], i, t);
          i := 2 * i + 1;
        } else {
          StepsTo(nodes[..], i, t);
          i := i + 1;
        }
      }
      r := -1;
      AtLimit(i, t);
    }

    static lemma AtLimit(i: nat, t: nat)
      requires i >= NODE_LIMIT > t
      ensures !Trail(i, t)
    {
    }

    /** Where the search for the place of `t` stands: on the way down to it, or at the left
        sibling of a node on that way. */
    static ghost predicate Trail(i: nat, t: nat) {
      Above(i, t) || (i % 2 == 1 && Above(i + 1, t) && !Above(i, t))
    }

    static lemma StopsAt(s: seq<HeapNode>, i: nat, t: nat)
      requires Shaped(s) && 0 < t < NODE_LIMIT && Present(s, Parent(t)) && (t % 2 == 0 ==> Present(s, t - 1))
      requires Trail(i, t) && i < NODE_LIMIT && !Present(s, i)
      ensures i == t && !Present(s, t)
    {
      hide Shaped;
      if Above(i, t) {
        if i != t {
          AbovePresent(s, i, Parent(t));
        }
      } else if i + 1 != t {
        AbovePresent(s, i + 1, Parent(t));
        StoredParent(s, i + 1);
      }
    }

    static lemma DescendsTo(s: seq<HeapNode>, i: nat, t: nat)
      requires Shaped(s) && 0 < t < NODE_LIMIT && Trail(i, t) && Present(s, i)
      requires Present(s, t) ==> 2 * t + 1 >= NODE_LIMIT
      requires s[i].min <= Range(t).0 && Range(t).1 <= s[i].max
      ensures Trail(2 * i + 1, t) || (2 * i + 1 >= NODE_LIMIT && Present(s, t))
    {
      hide Range, Above, Shaped;
      StoredRange(s, i);
      if Above(i, t) {
        if i == t {
          assert Present(s, t);
        } else {
          AboveChild(i, t);
        }
      } else {
        SiblingsDisjoint(i, t);
      }
    }

    static lemma SiblingsDisjoint(i: nat, t: nat)
      requires i % 2 == 1 && Above(i + 1, t) && t < NODE_LIMIT
      ensures !(Range(i).0 <= Range(t).0 && Range(t).1 <= Range(i).1)
    {
      hide Range, Above;
      NodeSpan(t);
      AboveSmaller(i + 1, t);
      AboveRange(i + 1, t);
      var k: nat := (i - 1) / 2;
      assert i == 2 * k + 1;
      ChildrenPartition(k, Range(t).0);
    }

    static lemma StepsTo(s: seq<HeapNode>, i: nat, t: nat)
      requires Shaped(s) && 0 < t < NODE_LIMIT && Trail(i, t) && Present(s, i)
      requires !(s[i].min <= Range(t).0 && Range(t).1 <= s[i].max)
      ensures Above(i + 1, t)
    {
      hide Range, Shaped;
      StoredRange(s, i);
      if Above(i, t) {
        AboveRange(i, t);
      }
    }

    /** heap_find: from the first child of a node on the search path (or from the root),
        find the next node on it.  Nodes whose children would fall outside the array are
        never returned. */
    method HeapFind(key: uint16, start: nat) returns (r: int, next: nat)
      requires nodes.Length == NODE_LIMIT && Shaped(nodes[..]) && Paired(nodes[..])
      requires start < NODE_LIMIT
      requires start > 0 ==> start % 2 == 1 && Accepts(Parent(start), hash(key))
      ensures var c := if start == 0 then 0 else ChildFor(Parent(start), hash(key));
              if 2 * c + 1 < NODE_LIMIT && Present(nodes[..], c)
              then r == c && next == 2 * c + 1 && Accepts(c, hash(key)) else r == -1 && next == start
    {
      var hashedKey := hash(key);
      FindFacts(nodes[..], start, hashedKey);
      RangesStored(nodes[..]);
      hide Shaped, Paired, Range, Parent, ChildFor;
      next := start;
      var i := start;
      while i < NODE_LIMIT
        invariant i == start || (start > 0 && i == start + 1 && !Accepts(start, hashedKey))
        invariant next == start
      {
        var node := nodes[i];
        assert node != EMPTY_NODE ==> Present(nodes[..], i);
        if node == EMPTY_NODE {
          break;
        } else if node.min <= hashedKey <= node.max {
          var firstChild := 2 * i + 1;
          if firstChild >= NODE_LIMIT {
            break;
          }
          return i, firstChild;
        } else {
          i := i + 1;
        }
      }
      r := -1;
    }

    /** bucket_append */
    method BucketAppend(b: nat, pair: Pair) returns (ok: bool)
      requires b < nextFreeSlot.Length && nextFreeSlot.Length * BUCKET_SIZE <= pairs.Length
      requires nextFreeSlot as object != pairs
      modifies nextFreeSlot, pairs
      ensures ok == (old(nextFreeSlot[b]) < BUCKET_SIZE)
      ensures ok ==> nextFreeSlot[..] == old(nextFreeSlot[..])[b := old(nextFreeSlot[b]) + 1]
      ensures ok ==> pairs[..] == old(pairs[..])[Slot(b, old(nextFreeSlot[b])) := pair]
      ensures !ok ==> nextFreeSlot[..] == old(nextFreeSlot[..]) && pairs[..] == old(pairs[..])
    {
      if nextFreeSlot[b] >= BUCKET_SIZE {
        return false;
      }
      pairs[b * BUCKET_SIZE + nextFreeSlot[b]] := pair;
      nextFreeSlot[b] := nextFreeSlot[b] + 1;
      ok := true;
    }

    /** bucket_split: store both halves of the bucket's range, or fail because they are stored. */
    method BucketSplit(b: nat) returns (ok: bool)
      requires Shaped(nodes[..]) && Paired(nodes[..])
      requires 2 * b + 2 < NODE_LIMIT && Present(nodes[..], b)
      requires Present(nodes[..], 2 * b + 1) ==> 2 * (2 * b + 1) + 1 >= NODE_LIMIT
      modifies nodes
      ensures Shaped(nodes[..]) && Paired(nodes[..])
      ensures forall i: nat :: Present(nodes[..], i) <==> old(Present(nodes[..], i)) || i == 2 * b + 1 || i == 2 * b + 2
      ensures ok == !old(Present(nodes[..], 2 * b + 1))
    {
      ghost var s := nodes[..];
      SplitFacts(s, b);
      var node := nodes[b];
      var mean := node.min + (node.max - node.min) / 2;
      hide Shaped, Paired, Range;
      var small := HeapInsert(node.min, mean, 2 * b + 1);
      if small < 0 {
        return false;
      }
      LeftAdded(s, b);
      var large := HeapInsert(mean + 1, node.max, 2 * b + 2);
      if large < 0 {
        return false;
      }
      RightAdded(s, b);
      ok := true;
    }

    static function Child(i: nat): HeapNode
      requires i < NODE_LIMIT
    {
      NodeSpan(i);
      HeapNode(Range(i).0, Range(i).1)
    }

    static lemma SplitFacts(s: seq<HeapNode>, b: nat)
      requires Shaped(s) && Paired(s) && 2 * b + 2 < NODE_LIMIT && Present(s, b)
      ensures s[b].min <= s[b].max && s[b].max <= KEY_MAX
      ensures var mean := s[b].min + (s[b].max - s[b].min) / 2;
              mean < s[b].max && Range(2 * b + 1) == (s[b].min, mean) && Range(2 * b + 2) == (mean + 1, s[b].max)
      ensures Present(s, 2 * b + 1) <==> Present(s, 2 * b + 2)
      ensures Parent(2 * b + 1) == b == Parent(2 * b + 2)
    {
      StoredRange(s, b);
      NodeSpan(b);
      assert Rooted(s, b) && Balanced(s, b);
    }

    static lemma LeftAdded(s: seq<HeapNode>, b: nat)
      requires Shaped(s) && Paired(s) && 2 * b + 2 < NODE_LIMIT && Present(s, b) && !Present(s, 2 * b + 1)
      ensures var s' := s[2 * b + 1 := Child(2 * b + 1)];
              Shaped(s') && Present(s', 2 * b + 1) && Present(s', b) && !Present(s', 2 * b + 2)
    {
      hide Range;
      var c := 2 * b + 1;
      var s' := s[c := Child(c)];
      NodeSpan(c);
      assert Rooted(s, b) && Balanced(s, b);
      forall i: nat
        ensures Placed(s', i) && Rooted(s', i)
      {
        assert Placed(s, i) && Rooted(s, i);
      }
    }

    static lemma RightAdded(s: seq<HeapNode>, b: nat)
      requires Shaped(s) && Paired(s) && 2 * b + 2 < NODE_LIMIT && Present(s, b) && !Present(s, 2 * b + 1)
      ensures var s' := s[2 * b + 1 := Child(2 * b + 1)][2 * b + 2 := Child(2 * b + 2)];
              && Shaped(s') && Paired(s')
              && forall i: nat :: Present(s', i) <==> Present(s, i) || i == 2 * b + 1 || i == 2 * b + 2
    {
      LeftAdded(s, b);
      hide Range;
      var s1 := s[2 * b + 1 := Child(2 * b + 1)];
      var s' := s1[2 * b + 2 := Child(2 * b + 2)];
      NodeSpan(2 * b + 1);
      NodeSpan(2 * b + 2);
      forall i: nat
        ensures Placed(s', i) && Rooted(s', i) && Balanced(s', i)
      {
        assert Placed(s1, i) && Rooted(s1, i) && Balanced(s, i);
      }
    }

    /** The search that insert_item starts with: the last bucket on the key's search path. */
    method LastBucket(key: uint16) returns (bucket: nat, next: nat)
      requires nodes.Length == NODE_LIMIT && Shaped(nodes[..]) && Paired(nodes[..])
      ensures bucket == Last(SearchPath(nodes[..], hash(key), 0)) && next == 2 * bucket + 1
    {
      bucket, next := 0, 0;
      var found := false;
      RootFacts(nodes[..], hash(key));
      hide Shaped, Paired, Range, OnPath;
      while true
        invariant next == if found then 2 * bucket + 1 else 0
        invariant bucket < 255 && Accepts(bucket, hash(key))
        invariant Last(SearchPath(nodes[..], hash(key), bucket)) == Last(SearchPath(nodes[..], hash(key), 0))
        invariant !found ==> bucket == 0
        decreases NODE_LIMIT - next
      {
        assert Parent(2 * bucket + 1) == bucket;
        var r, n := HeapFind(key, next);
        if r < 0 {
          break;
        }
        bucket, next, found := r, n, true;
      }
    }

    static lemma RootFacts(s: seq<HeapNode>, h: int)
      requires Shaped(s) && 0 <= h <= KEY_MAX
      ensures Accepts(0, h) && Present(s, 0)
    {
    }

    /** The last bucket on the key's search path has no room and cannot be split usefully:
        it is at the lowest level whose nodes heap_find returns. */
    ghost predicate Full(key: uint16)
      reads nodes, nextFreeSlot
      requires nodes.Length == nextFreeSlot.Length == NODE_LIMIT && Shaped(nodes[..])
    {
      var b := Last(SearchPath(nodes[..], hash(key), 0));
      127 <= b <= 254 && nextFreeSlot[b] == 128
    }

    /** The middle of insert_item: when the last bucket on the path is full, split it and
        move on to the new bucket that accepts the key. */
    method MakeRoom(key: uint16, last: nat, next: nat) returns (ok: bool, bucket: nat)
      requires Valid() && last == Last(SearchPath(nodes[..], hash(key), 0)) && next == 2 * last + 1
      modifies nodes
      ensures Valid()
      ensures ok == !old(Full(key))
      ensures ok ==> OnPath(nodes[..], hash(key), bucket) && nextFreeSlot[bucket] < BUCKET_SIZE
      ensures forall i: nat :: old(Present(nodes[..], i)) ==> Present(nodes[..], i)
    {
      hide Shaped, Paired, StoreOk, SearchPath, Range;
      ghost var h, s := hash(key), nodes[..];
      bucket := last;
      LastFacts(s, h);
      StoreFacts(hash, s, nextFreeSlot[..], pairs[..], inserted, last);
      ChildrenPartition(last, h);
      assert Parent(next) == last;
      if nextFreeSlot[last] == BUCKET_SIZE {
        var split := BucketSplit(last);
        GrowthKeeps(hash, s, nodes[..], nextFreeSlot[..], pairs[..], inserted);
        if !split {
          return false, last;
        }
        var child, _ := HeapFind(key, next);
        if child < 0 {
          return false, last;
        }
        bucket := child;
        StoreFacts(hash, s, nextFreeSlot[..], pairs[..], inserted, bucket);
      }
      ok := true;
    }

    static lemma StoreFacts(hash: uint16 -> uint16, s: seq<HeapNode>, free: seq<nat>, pairs: seq<Pair>, inserted: seq<Pair>, b: nat)
      requires StoreOk(hash, s, free, pairs, inserted) && b < NODE_LIMIT
      ensures |free| == NODE_LIMIT && |pairs| == NODE_LIMIT * BUCKET_SIZE && |s| == NODE_LIMIT
      ensures free[b] <= BUCKET_SIZE && (!Present(s, b) ==> free[b] == 0)
    {
    }

    /** insert_item: the pair is added to a bucket on its key's search path, unless the last
        bucket there is full and its children are out of reach of heap_find. */
    method InsertItem(key: uint16, value: uint16) returns (ok: bool)
      requires Valid()
      modifies this`inserted, nodes, pairs, nextFreeSlot
      ensures Valid()
      ensures ok == !old(Full(key))
      ensures inserted == if ok then old(inserted) + [Pair(key, value)] else old(inserted)
      ensures forall i: nat :: old(Present(nodes[..], i)) ==> Present(nodes[..], i)
    {
      var last, next := LastBucket(key);
      var room, bucket := MakeRoom(key, last, next);
      if !room {
        return false;
      }
      AppendKeeps(hash, nodes[..], nextFreeSlot[..], pairs[..], inserted, bucket, Pair(key, value));
      hide Shaped, Paired, SearchPath, Range;
      ok := BucketAppend(bucket, Pair(key, value));
      if !ok {
        return;
      }
      inserted := inserted + [Pair(key, value)];
    }

    /** The scan of one bucket in get_next: the first slot that holds the key. */
    method ScanBucket(b: nat, key: uint16) returns (found: Option<uint16>)
      requires b < nextFreeSlot.Length && nextFreeSlot[b] <= BUCKET_SIZE
      requires nextFreeSlot.Length * BUCKET_SIZE <= pairs.Length
      ensures found.Some? ==> exists j: nat :: j < nextFreeSlot[b] && pairs[Slot(b, j)] == Pair(key, found.value)
      ensures found.None? ==> forall j: nat :: j < nextFreeSlot[b] ==> pairs[Slot(b, j)].key != key
    {
      var i: nat := 0;
      while i < nextFreeSlot[b]
        invariant forall j: nat :: j < i && j < nextFreeSlot[b] ==> pairs[Slot(b, j)].key != key
      {
        if pairs[Slot(b, i)].key == key {
          return Some(pairs[Slot(b, i)].value);
        }
        i := i + 1;
      }
      found := None;
    }

    /** The downward path that get_next records: it never runs out of room in the array of
        visited buckets. */
    method VisitedBuckets(key: uint16) returns (visited: seq<nat>)
      requires nodes.Length == NODE_LIMIT && Shaped(nodes[..]) && Paired(nodes[..])
      ensures visited == SearchPath(nodes[..], hash(key), 0) && |visited| < NODE_DEPTH
    {
      ghost var h, s := hash(key), nodes[..];
      RootFacts(s, h);
      SearchPathDepth(s, h, 0);
      hide Shaped, Paired, Range, OnPath, Present, ChildFor;
      visited := [];
      var next: nat := 0;
      var i := 0;
      while i < NODE_DEPTH
        invariant i == |visited| < NODE_DEPTH
        invariant WalkedTo(s, h, visited, next)
      {
        WalkStart(s, h, visited, next);
        var r, n := HeapFind(key, next);
        WalkStep(s, h, visited, next);
        if r < 0 {
          break;
        }
        visited, next := visited + [r], n;
        i := i + 1;
      }
    }

    static ghost predicate WalkedTo(s: seq<HeapNode>, h: int, visited: seq<nat>, next: nat) {
      if visited == [] then next == 0
      else
        && next == 2 * Last(visited) + 1 < NODE_LIMIT
        && Accepts(Last(visited), h)
        && SearchPath(s, h, 0) == visited[..|visited| - 1] + SearchPath(s, h, Last(visited))
    }

    static lemma WalkStart(s: seq<HeapNode>, h: int, visited: seq<nat>, next: nat)
      requires WalkedTo(s, h, visited, next)
      ensures next < NODE_LIMIT
      ensures next > 0 ==> next % 2 == 1 && Accepts(Parent(next), h)
    {
    }

    static lemma WalkStep(s: seq<HeapNode>, h: int, visited: seq<nat>, next: nat)
      requires Shaped(s) && 0 <= h <= KEY_MAX && WalkedTo(s, h, visited, next)
      ensures var c := if next == 0 then 0 else ChildFor(Parent(next), h);
              if 2 * c + 1 < NODE_LIMIT && Present(s, c)
              then |visited| + 1 < NODE_DEPTH && (Accepts(c, h) ==> WalkedTo(s, h, visited + [c], 2 * c + 1))
              else visited == SearchPath(s, h, 0)
    {
      hide Shaped, Range, Depth;
      SearchPathDepth(s, h, 0);
      var c := if next == 0 then 0 else ChildFor(Parent(next), h);
      assert (visited + [c])[..|visited|] == visited;
      if visited == [] {
        RootFacts(s, h);
        assert SearchPath(s, h, 0) == [] + SearchPath(s, h, 0);
      } else {
        var last := Last(visited);
        assert Parent(next) == last;
        assert visited == visited[..|visited| - 1] + [last];
        if 2 * c + 1 < NODE_LIMIT && Present(s, c) {
          assert SearchPath(s, h, 0) == visited + SearchPath(s, h, c);
        }
      }
    }

    static ghost predicate Lacks(free: seq<nat>, pairs: seq<Pair>, b: nat, key: uint16) {
      forall j: nat :: InUse(free, b, j) && Slot(b, j) < |pairs| ==> pairs[Slot(b, j)].key != key
    }

    /** What a lookup needs to know of one bucket on the path. */
    static lemma BucketFacts(hash: uint16 -> uint16, s: seq<HeapNode>, free: seq<nat>, pairs: seq<Pair>, inserted: seq<Pair>, b: nat)
      requires StoreOk(hash, s, free, pairs, inserted) && 2 * b + 1 < NODE_LIMIT
      ensures b < |free| && free[b] <= BUCKET_SIZE && |free| * BUCKET_SIZE <= |pairs|
      ensures forall j: nat :: j < free[b] ==> pairs[Slot(b, j)] in inserted
    {
      forall j: nat | j < free[b]
        ensures pairs[Slot(b, j)] in inserted
      {
        assert InUse(free, b, j);
      }
    }

    /** No bucket on the key's path holds the key, so it was never inserted. */
    static lemma NeverInserted(hash: uint16 -> uint16, s: seq<HeapNode>, free: seq<nat>, pairs: seq<Pair>, inserted: seq<Pair>, key: uint16)
      requires Shaped(s) && StoreOk(hash, s, free, pairs, inserted)
      requires forall b :: b in SearchPath(s, hash(key), 0) ==> Lacks(free, pairs, b, key)
      ensures forall p :: p in inserted ==> p.key != key
    {
      forall p | p in inserted
        ensures p.key != key
      {
        assert Kept(free, pairs, p);
        var b: nat, j: nat :| InUse(free, b, j) && Slot(b, j) < |pairs| && pairs[Slot(b, j)] == p;
        assert SlotSound(hash, s, pairs, inserted, b, j);
        SearchPathExact(s, hash(p.key), b);
      }
    }

    static ghost predicate DistinctKeys(inserted: seq<Pair>) {
      forall i, j :: 0 <= i < j < |inserted| ==> inserted[i].key != inserted[j].key
    }

    static lemma OneAnswer(inserted: seq<Pair>, key: uint16, value: uint16)
      requires DistinctKeys(inserted) && Pair(key, value) in inserted
      ensures forall v: uint16 :: Pair(key, v) in inserted <==> v == value
    {
      forall v: uint16 | Pair(key, v) in inserted
        ensures v == value
      {
        var i :| 0 <= i < |inserted| && inserted[i] == Pair(key, value);
        var j :| 0 <= j < |inserted| && inserted[j] == Pair(key, v);
        assert i == j;
      }
    }

    /** First lookup of a key (get_next with a fresh iteration cache): the buckets on the
        key's path are scanned from the deepest one up.  The answer is a value that was
        inserted with the key, and there is none exactly when the key was never inserted. */
    method Lookup(key: uint16) returns (found: Option<uint16>)
      requires Valid()
      ensures found.Some? ==> Pair(key, found.value) in inserted
      ensures found.None? <==> forall p :: p in inserted ==> p.key != key
      ensures DistinctKeys(inserted) ==> forall v: uint16 :: Pair(key, v) in inserted <==> found == Some(v)
    {
      ghost var s, free := nodes[..], nextFreeSlot[..];
      var visited := VisitedBuckets(key);
      SearchPathOnPath(s, hash(key), 0);
      hide Shaped, Paired, SearchPath, StoreOk, Range, DistinctKeys;
      var i: int := |visited| - 1;
      while i >= 0
        invariant -1 <= i < |visited|
        invariant forall k :: i < k < |visited| ==> Lacks(free, pairs[..], visited[k], key)
      {
        assert visited[i] in visited;
        BucketFacts(hash, s, free, pairs[..], inserted, visited[i]);
        found := ScanBucket(visited[i], key);
        if found.Some? {
          if DistinctKeys(inserted) {
            OneAnswer(inserted, key, found.value);
          }
          return;
        }
        i := i - 1;
      }
      found := None;
      NeverInserted(hash, s, free, pairs[..], inserted, key);
    }

    static lemma LastFacts(s: seq<HeapNode>, h: int)
      requires Shaped(s) && Paired(s) && 0 <= h <= KEY_MAX
      ensures var b := Last(SearchPath(s, h, 0));
              && OnPath(s, h, b)
              && (b < 127 ==> !Present(s, 2 * b + 1) && !Present(s, 2 * b + 2))
    {
      var b := Last(SearchPath(s, h, 0));
      SearchPathOnPath(s, h, 0);
      SearchPathEnds(s, h, 0);
      assert Rooted(s, b) && Balanced(s, b);
    }

    static lemma RangesStored(s: seq<HeapNode>)
      requires Shaped(s)
      ensures forall i: nat :: Present(s, i) ==> (s[i].min, s[i].max) == Range(i)
    {
      forall i: nat | Present(s, i)
        ensures (s[i].min, s[i].max) == Range(i)
      {
        StoredRange(s, i);
      }
    }

    static lemma FindFacts(s: seq<HeapNode>, i: nat, h: int)
      requires Shaped(s) && Paired(s) && i < NODE_LIMIT && 0 <= h <= KEY_MAX
      requires i > 0 ==> i % 2 == 1 && Accepts(Parent(i), h)
      ensures i == 0 ==> Accepts(0, h) && Present(s, 0)
      ensures i > 0 ==> (Accepts(i, h) <==> !Accepts(i + 1, h)) && (Present(s, i) <==> Present(s, i + 1))
      ensures i > 0 ==> ChildFor(Parent(i), h) == if Accepts(i, h) then i else i + 1
    {
      if i > 0 {
        var k := Parent(i);
        assert i == 2 * k + 1;
        ChildrenPartition(k, h);
        assert Rooted(s, k) && Balanced(s, k);
      }
    }
  }
}
