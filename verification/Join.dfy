/** JOIN (relation.c): an equi-join that is driven by an index on the right relation. Each call
    produces one row and returns from the middle of two loops; the next call jumps back in. */
module Join {

  import opened Bytes
  import opened Lvm
  import opened Storage
  import opened InlineIndex
  import opened Select

  // ----- The rows of the result -----

  predicate Joinable(ls: seq<Attribute>, rs: seq<Attribute>, names: seq<string>) {
    forall i :: 0 <= i < |names| ==> ColumnOf(ls, names[i]) < |ls| || ColumnOf(rs, names[i]) < |rs|
  }

  /** An attribute comes from the left relation if that has it. */
  function Joined<T>(ls: seq<Attribute>, rs: seq<Attribute>, name: string, l: seq<T>, r: seq<T>): T
    requires |l| == |ls| && |r| == |rs| && (ColumnOf(ls, name) < |ls| || ColumnOf(rs, name) < |rs|)
  {
    if ColumnOf(ls, name) < |ls| then l[ColumnOf(ls, name)] else r[ColumnOf(rs, name)]
  }

  /** The attributes of the result (with l and r the schemas), or its values for two rows. */
  function JoinAll<T>(ls: seq<Attribute>, rs: seq<Attribute>, names: seq<string>, l: seq<T>, r: seq<T>): (s: seq<T>)
    requires |l| == |ls| && |r| == |rs| && Joinable(ls, rs, names)
    ensures |s| == |names| && forall i :: 0 <= i < |s| ==> s[i] == Joined(ls, rs, names[i], l, r)
  {
    if names == [] then []
    else JoinAll(ls, rs, names[..|names| - 1], l, r) + [Joined(ls, rs, names[|names| - 1], l, r)]
  }

  // ----- Pairs -----

  predicate NoRepeats<T(==)>(s: seq<T>) {
    forall i, k :: 0 <= i < k < |s| ==> s[i] != s[k]
  }

  /** The rows that have a value in a column, each once. */
  predicate Lists(ks: seq<nat>, c: seq<long>, v: long) {
    && NoRepeats(ks)
    && (forall n :: 0 <= n < |ks| ==> ks[n] < |c| && c[ks[n]] == v)
    && (forall k: nat :: k < |c| && c[k] == v ==> k in ks)
  }

  /** An index is sound and complete for a column. */
  ghost predicate Exact(index: long -> seq<nat>, c: seq<long>) {
    forall v: long :: Lists(index(v), c, v)
  }

  function PairsWith(i: nat, ks: seq<nat>): (p: seq<(nat, nat)>)
    ensures |p| == |ks| && forall n :: 0 <= n < |p| ==> p[n] == (i, ks[n])
  {
    if ks == [] then [] else [(i, ks[0])] + PairsWith(i, ks[1..])
  }

  /** The nested loop from left row `i` on. */
  function PairsFrom(lc: seq<long>, index: long -> seq<nat>, i: nat): seq<(nat, nat)>
    decreases |lc| - i
  {
    if i >= |lc| then [] else PairsWith(i, index(lc[i])) + PairsFrom(lc, index, i + 1)
  }

  predicate LeftOrder(p: seq<(nat, nat)>) {
    forall a, b :: 0 <= a < b < |p| ==> p[a].0 <= p[b].0
  }

  predicate LeftFrom(p: seq<(nat, nat)>, i: nat) {
    forall a :: 0 <= a < |p| ==> i <= p[a].0
  }

  lemma Appended(i: nat, ks: seq<nat>, p: seq<(nat, nat)>)
    requires NoRepeats(ks) && NoRepeats(p) && LeftOrder(p) && LeftFrom(p, i + 1)
    ensures var s := PairsWith(i, ks) + p; NoRepeats(s) && LeftOrder(s) && LeftFrom(s, i)
    ensures forall a: nat, k: nat :: (a, k) in PairsWith(i, ks) + p <==> (a == i && k in ks) || (a, k) in p
  {
    var w := PairsWith(i, ks);
    hide PairsWith;
    forall a: nat, k: nat
      ensures (a, k) in w + p <==> (a == i && k in ks) || (a, k) in p
    {
      if a == i && k in ks {
        var n :| 0 <= n < |ks| && ks[n] == k;
        assert w[n] == (a, k);
      }
      assert (a, k) in w + p <==> (a, k) in w || (a, k) in p;
    }
  }

  /** The equi-join: a pair of rows is produced exactly when their join values are equal, once,
      and in the order of the left rows. */
  lemma {:induction false} PairsAre(lc: seq<long>, rc: seq<long>, index: long -> seq<nat>, i: nat)
    requires Exact(index, rc)
    ensures forall a: nat, k: nat :: (a, k) in PairsFrom(lc, index, i) <==> i <= a < |lc| && k < |rc| && lc[a] == rc[k]
    ensures NoRepeats(PairsFrom(lc, index, i)) && LeftOrder(PairsFrom(lc, index, i)) && LeftFrom(PairsFrom(lc, index, i), i)
    decreases |lc| - i
  {
    if i < |lc| {
      PairsAre(lc, rc, index, i + 1);
      Appended(i, index(lc[i]), PairsFrom(lc, index, i + 1));
    }
  }

  // ----- Where the bytes of a result row come from -----

  datatype Source = Source(left: bool, offset: nat)

  predicate ComesFrom(ls: seq<Attribute>, rs: seq<Attribute>, name: string, s: Source) {
    if ColumnOf(ls, name) < |ls| then s == Source(true, Offset(ls, ColumnOf(ls, name)))
    else ColumnOf(rs, name) < |rs| && s == Source(false, Offset(rs, ColumnOf(rs, name)))
  }

  predicate SourcesAre(ls: seq<Attribute>, rs: seq<Attribute>, to: seq<Attribute>, sources: seq<Source>) {
    |sources| == |to| && forall i :: 0 <= i < |to| ==> ComesFrom(ls, rs, to[i].name, sources[i])
  }

  /** generate_join_result: a map over the source attributes. */
  method GenerateSources(ls: seq<Attribute>, rs: seq<Attribute>, to: seq<Attribute>)
    returns (status: Storage.Status, sources: seq<Source>)
    ensures status == DbOk || status == NameError
    ensures status == NameError <==> exists i :: 0 <= i < |to| && !Has(ls, to[i].name) && !Has(rs, to[i].name)
    ensures status == DbOk ==> SourcesAre(ls, rs, to, sources)
  {
    hide RowLength, ColumnOf, Has;
    sources := [];
    for i := 0 to |to|
      invariant |sources| == i && forall k :: 0 <= k < i ==> ComesFrom(ls, rs, to[k].name, sources[k])
      invariant forall k :: 0 <= k < i ==> Has(ls, to[k].name) || Has(rs, to[k].name)
    {
      var name := to[i].name;
      var l := AttributeFind(ls, name);
      var r := AttributeFind(rs, name);
      if l < |ls| {
        sources := sources + [Source(true, Offset(ls, l))];
      } else if r < |rs| {
        sources := sources + [Source(false, Offset(rs, r))];
      } else {
        return NameError, [];
      }
    }
    status := DbOk;
  }

  // ----- The handle of a join -----

  class Handle {
    const left: Relation
    const right: Relation
    const result: Relation // the join relation; rows are stored in it when `assign` is set
    const leftAttr: nat
    const rightAttr: nat
    const names: seq<string>
    const index: long -> seq<nat> // of the right join attribute
    const assign: bool
    const joinRow: array<byte>
    var sources: seq<Source>
    var indexStep: bool // DB_HANDLE_FLAG_INDEX_STEP
    var tupleId: nat
    var currentRow: nat
    var leftRow: seq<byte>
    var found: seq<nat> // what the index iterator returns, one after the other
    var nextItem: nat

    constructor (left: Relation, right: Relation, result: Relation, leftAttr: nat, rightAttr: nat, names: seq<string>,
                 index: long -> seq<nat>, assign: bool)
      ensures this.left == left && this.right == right && this.result == result && this.leftAttr == leftAttr
      ensures this.rightAttr == rightAttr && this.names == names && this.index == index && this.assign == assign
      ensures fresh(joinRow) && joinRow.Length == RowLength(result.schema) && indexStep && currentRow == 0
    {
      this.left, this.right, this.result, this.leftAttr, this.rightAttr := left, right, result, leftAttr, rightAttr;
      this.names, this.index, this.assign := names, index, assign;
      joinRow := new byte[RowLength(result.schema)](_ => 0);
      sources, indexStep, tupleId, currentRow, leftRow, found, nextItem := [], true, 0, 0, [], [], 0;
    }

    ghost predicate Ready()
      reads `sources, left, right
    {
      && left.Valid() && right.Valid() && left.schema != [] && right.schema != []
      && leftAttr < |left.schema| && rightAttr < |right.schema|
      && left != result && right != result
      && Joinable(left.schema, right.schema, names)
      && result.schema == JoinAll(left.schema, right.schema, names, left.schema, right.schema)
      && SourcesAre(left.schema, right.schema, result.schema, sources) && joinRow.Length == RowLength(result.schema)
      && Exact(index, Column(right.schema, right.inserted, rightAttr))
    }

    /** The join values of the left relation. */
    ghost function Values(): seq<long>
      requires Ready()
      reads `sources, left, right
    {
      Column(left.schema, left.inserted, leftAttr)
    }

    /** Between two steps, the handle remembers the left row and what its index search returns. */
    ghost predicate Valid()
      reads `sources, `indexStep, `tupleId, `leftRow, `found, `nextItem, left, right
    {
      && Ready()
      && (!indexStep ==>
            && tupleId < |left.inserted| && |left.inserted[tupleId]| == |left.schema|
            && leftRow == RowBytes(left.schema, left.inserted[tupleId])
            && found == index(Values()[tupleId]) && nextItem <= |found|)
    }

    /** The pairs that are still to come. */
    ghost function Remaining(): seq<(nat, nat)>
      requires Valid()
      reads `sources, `indexStep, `tupleId, `leftRow, `found, `nextItem, left, right
    {
      if indexStep then PairsFrom(Values(), index, 0)
      else PairsWith(tupleId, found[nextItem..]) + PairsFrom(Values(), index, tupleId + 1)
    }

    ghost predicate Shaped()
      reads left, right
    {
      Joinable(left.schema, right.schema, names) && Fits(left.schema, left.inserted) && Fits(right.schema, right.inserted)
    }

    /** The row of the result for a pair. */
    ghost function RowFor(pair: (nat, nat)): (r: Row)
      requires Shaped() && InRange(pair)
      reads left, right
      ensures |r| == |names|
    {
      JoinAll(left.schema, right.schema, names, left.inserted[pair.0], right.inserted[pair.1])
    }

    ghost predicate InRange(pair: (nat, nat))
      reads left, right
    {
      pair.0 < |left.inserted| && pair.1 < |right.inserted|
    }

    // --- filling in the result row ---

    /** What the map says of attribute `i` of the result. */
    lemma CopyFacts(i: nat, rightRow: seq<byte>, pair: (nat, nat))
      requires Ready() && InRange(pair) && i < |result.schema|
      requires leftRow == RowBytes(left.schema, left.inserted[pair.0]) && rightRow == RowBytes(right.schema, right.inserted[pair.1])
      ensures var to, v, s := result.schema, RowFor(pair), sources[i];
        var row := if s.left then leftRow else rightRow;
        && |v| == |to| == |sources|
        && s.offset + ElementSize(to[i].domain) <= |row|
        && row[s.offset..s.offset + ElementSize(to[i].domain)] == Encode(to[i].domain, v[i])
    {
      hide Encode, RowBytes, RowLength, ColumnOf, Column, Exact, JoinAll, FileOf;
      var ls, rs, name := left.schema, right.schema, names[i];
      assert result.schema[i].name == name;
      assert ComesFrom(ls, rs, name, sources[i]);
      if ColumnOf(ls, name) < |ls| {
        RowBytesAt(ls, left.inserted[pair.0], ColumnOf(ls, name));
      } else {
        RowBytesAt(rs, right.inserted[pair.1], ColumnOf(rs, name));
      }
    }

    lemma CopyStart(pair: (nat, nat))
      requires Ready() && InRange(pair)
      ensures Shaped() && Copied(joinRow[..], result.schema, RowFor(pair), 0) && Offset(result.schema, 0) == 0
    {
      SumStart(result.schema);
    }

    /** The loop that fills in the physical representation of the resulting tuple. */
    method CopyPair(rightRow: seq<byte>, ghost pair: (nat, nat))
      requires Ready() && InRange(pair)
      requires leftRow == RowBytes(left.schema, left.inserted[pair.0]) && rightRow == RowBytes(right.schema, right.inserted[pair.1])
      modifies joinRow
      ensures joinRow[..] == RowBytes(result.schema, RowFor(pair))
    {
      hide *;
      CopyStart(pair);
      var to := result.schema;
      var next, i := 0, 0;
      while i < |to|
        invariant 0 <= i <= |to| && Ready() && Shaped() && next == Offset(to, i) && Copied(joinRow[..], to, RowFor(pair), i)
      {
        CopyFacts(i, rightRow, pair);
        CopyStep(joinRow[..], to, RowFor(pair), i);
        OffsetsGrow(to, i);
        var size := ElementSize(to[i].domain);
        var piece := if sources[i].left then leftRow[sources[i].offset..sources[i].offset + size]
                     else rightRow[sources[i].offset..sources[i].offset + size];
        CopyInto(joinRow, next, piece);
        next := next + size;
        i := i + 1;
      }
      CopyEnd(joinRow[..], to, RowFor(pair));
    }

    // --- one call ---

    lemma Outer(i: nat)
      requires Ready()
      ensures left.Valid() && left.schema != [] && leftAttr < |left.schema| && |Values()| == |left.inserted|
      ensures i >= |left.inserted| ==> PairsFrom(Values(), index, i) == []
      ensures i < |left.inserted| ==>
        && |left.inserted[i]| == |left.schema| && Values()[i] == ValueAt(left.schema, RowBytes(left.schema, left.inserted[i]), leftAttr)
        && PairsFrom(Values(), index, i) == PairsWith(i, index(Values()[i])) + PairsFrom(Values(), index, i + 1)
    {
      if i < |left.inserted| {
        RowRead(left.schema, left.inserted[i], leftAttr);
      }
      hide Stored, RowBytes, ValueAt, PairsWith;
    }

    /** The head of the outer loop: read a left row, and start a search for its value. */
    method NextLeft() returns (more: bool)
      requires Ready()
      modifies `indexStep, `leftRow, `found, `nextItem
      ensures more <==> tupleId < |left.inserted|
      ensures more ==> Valid() && !indexStep && Remaining() == PairsFrom(Values(), index, tupleId)
      ensures !more ==> indexStep == old(indexStep) && PairsFrom(Values(), index, tupleId) == []
    {
      hide *;
      Outer(tupleId);
      var status, row := left.GetRow(tupleId);
      if status == DbFinished {
        return false;
      }
      leftRow := row;
      found, nextItem := index(ValueAt(left.schema, row, leftAttr)), 0;
      indexStep := false;
      SearchStarted();
      more := true;
    }

    lemma SearchStarted()
      requires Ready() && !indexStep && tupleId < |left.inserted| && |left.inserted[tupleId]| == |left.schema|
      requires leftRow == RowBytes(left.schema, left.inserted[tupleId]) && nextItem == 0
      requires found == index(ValueAt(left.schema, leftRow, leftAttr))
      ensures Valid() && Remaining() == PairsFrom(Values(), index, tupleId)
    {
      hide ValueAt, RowBytes, PairsFrom, PairsWith, Ready;
      Outer(tupleId);
      assert found[0..] == found;
    }

    lemma Inner()
      requires Valid() && !indexStep
      ensures Ready() && tupleId < |left.inserted| && |left.inserted[tupleId]| == |left.schema|
      ensures leftRow == RowBytes(left.schema, left.inserted[tupleId]) && nextItem <= |found|
      ensures nextItem == |found| ==> Remaining() == PairsFrom(Values(), index, tupleId + 1)
      ensures nextItem < |found| ==>
        && found[nextItem] < |right.inserted|
        && Remaining() == [(tupleId, found[nextItem])] + (PairsWith(tupleId, found[nextItem + 1..]) + PairsFrom(Values(), index, tupleId + 1))
    {
      hide RowBytes, PairsFrom, SourcesAre;
      if nextItem < |found| {
        assert found[nextItem] in index(Values()[tupleId]);
        assert found[nextItem..][1..] == found[nextItem + 1..];
      }
    }

    lemma Stepped()
      requires Ready() && !indexStep && tupleId < |left.inserted| && |left.inserted[tupleId]| == |left.schema|
      requires leftRow == RowBytes(left.schema, left.inserted[tupleId]) && nextItem <= |found| && found == index(Values()[tupleId])
      ensures Valid() && Remaining() == PairsWith(tupleId, found[nextItem..]) + PairsFrom(Values(), index, tupleId + 1)
    {
    }

    lemma FromStart()
      requires Valid() && indexStep
      ensures Ready() && Remaining() == PairsFrom(Values(), index, 0)
    {
    }

    lemma Ended()
      requires Ready() && indexStep
      ensures Valid()
    {
    }

    lemma ReadyFacts()
      requires Ready()
      ensures right.Valid() && right.schema != [] && left != result && right != result && Shaped() && |result.schema| == |names|
    {
    }

    /** What Stepped needs to know, in the state before the step. */
    lemma Searching()
      requires Valid() && !indexStep
      ensures Ready() && tupleId < |Values()| && found == index(Values()[tupleId])
    {
    }

    /** The body of the inner loop, for a row that the index returns. */
    method Emit(takes: nat -> nat)
      requires Valid() && !indexStep && nextItem < |found|
      modifies `currentRow, `nextItem, joinRow, result`file
      ensures Valid() && old(Remaining()) != [] && Remaining() == old(Remaining())[1..] && InRange(old(Remaining())[0])
      ensures joinRow[..] == RowBytes(result.schema, RowFor(old(Remaining())[0]))
      ensures currentRow == old(currentRow) + 1
      ensures result.file == old(result.file) + (if assign then Masked(joinRow[..]) else [])
    {
      hide *;
      Inner();
      Searching();
      ReadyFacts();
      ghost var pair, rest := (tupleId, found[nextItem]), PairsWith(tupleId, found[nextItem + 1..]) + PairsFrom(Values(), index, tupleId + 1);
      Pair(pair);
      var rightStatus, rightRow := right.GetRow(found[nextItem]);
      nextItem := nextItem + 1;
      CopyPair(rightRow, pair);
      Stepped();
      assert ([pair] + rest)[1..] == rest;
      if assign {
        result.PutRow(joinRow[..], takes);
      }
      currentRow := currentRow + 1;
    }

    lemma Pair(pair: (nat, nat))
      requires pair.0 < |left.inserted| && pair.1 < |right.inserted|
      ensures InRange(pair)
    {
    }

    /** relation_process_join: the next pair of the nested loop, or the end of it; after the end,
        the next call would start again with the first pair. */
    method Process(takes: nat -> nat) returns (status: Storage.Status)
      requires Valid()
      modifies `indexStep, `tupleId, `currentRow, `leftRow, `found, `nextItem, joinRow, result`file
      ensures Valid()
      ensures old(Remaining()) == [] ==> status == DbFinished && indexStep
      ensures old(Remaining()) != [] ==>
        && status == GotRow && !indexStep && Remaining() == old(Remaining())[1..] && InRange(old(Remaining())[0])
        && joinRow[..] == RowBytes(result.schema, RowFor(old(Remaining())[0]))
      ensures currentRow == old(currentRow) + (if status == GotRow then 1 else 0)
      ensures result.file == old(result.file) + (if status == GotRow && assign then Masked(joinRow[..]) else [])
    {
      hide *;
      ghost var due := Remaining();
      var inner := !indexStep; // jump into the inner loop
      if !inner {
        FromStart();
        tupleId := 0;
      } else {
        Inner();
      }
      while true
        invariant inner ==> !indexStep && Valid() && Remaining() == due
        invariant !inner ==> indexStep && Ready() && due == PairsFrom(Values(), index, tupleId)
        invariant currentRow == old(currentRow) && result.file == old(result.file) && tupleId <= |left.inserted|
        decreases |left.inserted| - tupleId, if inner then 0 else 1
      {
        if !inner {
          var more := NextLeft();
          if !more {
            Ended();
            return DbFinished;
          }
        }
        Inner();
        if nextItem == |found| {
          // the index has no more rows for this value: step to the next left row
          indexStep := true;
          tupleId := tupleId + 1;
          inner := false;
        } else {
          Emit(takes);
          return GotRow;
        }
      }
    }

    // --- all calls ---

    /** The pairs of the whole join. */
    ghost function Pairs(): seq<(nat, nat)>
      requires Ready()
      reads `sources, left, right
    {
      PairsFrom(Values(), index, 0)
    }

    ghost predicate AllInRange(pairs: seq<(nat, nat)>)
      reads left, right
    {
      forall n :: 0 <= n < |pairs| ==> InRange(pairs[n])
    }

    ghost function RowsFor(pairs: seq<(nat, nat)>): (r: seq<Row>)
      requires Shaped() && AllInRange(pairs)
      reads left, right
      ensures |r| == |pairs| && forall n :: 0 <= n < |pairs| ==> r[n] == RowFor(pairs[n])
    {
      if pairs == [] then [] else RowsFor(pairs[..|pairs| - 1]) + [RowFor(pairs[|pairs| - 1])]
    }

    lemma RowsForAdds(done: seq<(nat, nat)>, pair: (nat, nat))
      requires Shaped() && AllInRange(done) && InRange(pair)
      ensures AllInRange(done + [pair]) && RowsFor(done + [pair]) == RowsFor(done) + [RowFor(pair)]
    {
      hide RowFor, Shaped;
      assert (done + [pair])[..|done|] == done;
    }

    lemma Begin()
      requires Valid() && indexStep
      ensures Ready() && Remaining() == Pairs() && Shaped() && AllInRange([]) && RowsFor([]) == []
    {
    }

    /** The calls of process_join until the end: exactly the rows of the nested loop, in its
        order, and nothing is lost or repeated where a call jumps back into the loops. */
    method Run(takes: nat -> nat) returns (tuples: seq<seq<byte>>)
      requires Valid() && indexStep
      modifies `indexStep, `tupleId, `currentRow, `leftRow, `found, `nextItem, joinRow, result`file
      ensures Valid() && indexStep && AllInRange(Pairs())
      ensures exists stored ::
        Collected(result.schema, RowsFor(Pairs()), tuples, stored, assign) && result.file == old(result.file) + stored
    {
      hide *;
      Begin();
      ReadyFacts();
      CollectedStart(result.schema, assign);
      ghost var all := Pairs();
      ghost var done: seq<(nat, nat)>, stored: seq<byte> := [], [];
      tuples := [];
      while true
        invariant Valid() && Ready() && Shaped() && |result.schema| == |names| && left != result && right != result && all == Pairs() && done + Remaining() == all
        invariant AllInRange(done) && Collected(result.schema, RowsFor(done), tuples, stored, assign)
        invariant result.file == old(result.file) + stored
        decreases |Remaining()|
      {
        ghost var due := Remaining();
        var status := Process(takes);
        ValidReady();
        if status == DbFinished {
          assert done == all;
          return;
        }
        RowsForAdds(done, due[0]);
        CollectedAdds(result.schema, RowsFor(done), tuples, stored, assign, RowFor(due[0]));
        done := done + [due[0]];
        stored := stored + (if assign then Masked(joinRow[..]) else []);
        tuples := tuples + [joinRow[..]];
      }
    }

    lemma ValidReady()
      requires Valid()
      ensures Ready()
    {
    }
  }

  /** The loop of relation_join over the projected attributes. */
  method ResultAttributes(ls: seq<Attribute>, rs: seq<Attribute>, names: seq<string>) returns (status: Storage.Status, to: seq<Attribute>)
    ensures status == if Joinable(ls, rs, names) then DbOk else RelationalError
    ensures status == DbOk ==> to == JoinAll(ls, rs, names, ls, rs)
  {
    hide RowLength, ColumnOf, JoinAll;
    to := [];
    for i := 0 to |names|
      invariant |to| == i
      invariant forall k :: 0 <= k < i ==>
        && (ColumnOf(ls, names[k]) < |ls| || ColumnOf(rs, names[k]) < |rs|)
        && to[k] == Joined(ls, rs, names[k], ls, rs)
    {
      var l := AttributeFind(ls, names[i]);
      var r := AttributeFind(rs, names[i]);
      if l < |ls| {
        to := to + [ls[l]];
      } else if r < |rs| {
        to := to + [rs[r]];
      } else {
        return RelationalError, [];
      }
    }
    status := DbOk;
  }

  /** relation_join: the join attribute must be in both relations and have an index on the right. */
  method RelationJoin(left: Relation, right: Relation, on: string, names: seq<string>, indexed: bool, index: long -> seq<nat>, assign: bool)
    returns (status: Storage.Status, handle: Handle?)
    requires left.Valid() && right.Valid() && left.schema != [] && right.schema != []
    requires indexed && ColumnOf(right.schema, on) < |right.schema| ==>
      Exact(index, Column(right.schema, right.inserted, ColumnOf(right.schema, on)))
    ensures status ==
      if !Has(left.schema, on) || !Has(right.schema, on) then RelationalError
      else if !indexed then IndexError
      else if exists i :: 0 <= i < |names| && !Has(left.schema, names[i]) && !Has(right.schema, names[i]) then RelationalError
      else DbOk
    ensures status == DbOk ==>
      && handle != null && fresh(handle) && fresh(handle.result) && fresh(handle.joinRow)
      && handle.left == left && handle.right == right && handle.names == names && handle.assign == assign
      && handle.leftAttr == ColumnOf(left.schema, on) && handle.rightAttr == ColumnOf(right.schema, on)
      && handle.Valid() && handle.indexStep && handle.result.file == []
  {
    hide *;
    handle := null;
    var l := AttributeFind(left.schema, on);
    var r := AttributeFind(right.schema, on);
    if l == |left.schema| || r == |right.schema| {
      return RelationalError, null;
    }
    if !indexed {
      return IndexError, null;
    }
    JoinableIs(left.schema, right.schema, names);
    var to;
    status, to := ResultAttributes(left.schema, right.schema, names);
    if status != DbOk {
      return;
    }
    SourcesExist(left.schema, right.schema, names);
    AllSources(left.schema, right.schema, to);
    var result := new Relation(to);
    handle := new Handle(left, right, result, l, r, names, index, assign);
    status, handle.sources := GenerateSources(left.schema, right.schema, to);
    HandleReady(handle);
  }

  lemma JoinableIs(ls: seq<Attribute>, rs: seq<Attribute>, names: seq<string>)
    ensures Joinable(ls, rs, names) <==> forall i :: 0 <= i < |names| ==> Has(ls, names[i]) || Has(rs, names[i])
  {
    hide ColumnOf, Has;
    forall i | 0 <= i < |names|
      ensures (ColumnOf(ls, names[i]) < |ls| <==> Has(ls, names[i])) && (ColumnOf(rs, names[i]) < |rs| <==> Has(rs, names[i]))
    {
      ColumnIs(ls, names[i]);
      ColumnIs(rs, names[i]);
    }
  }

  lemma AllSources(ls: seq<Attribute>, rs: seq<Attribute>, to: seq<Attribute>)
    requires forall i :: 0 <= i < |to| ==> ColumnOf(ls, to[i].name) < |ls| || ColumnOf(rs, to[i].name) < |rs|
    ensures forall i :: 0 <= i < |to| ==> Has(ls, to[i].name) || Has(rs, to[i].name)
  {
    hide ColumnOf, Has;
    forall i | 0 <= i < |to|
      ensures Has(ls, to[i].name) || Has(rs, to[i].name)
    {
      ColumnIs(ls, to[i].name);
      ColumnIs(rs, to[i].name);
    }
  }

  lemma HandleReady(h: Handle)
    requires h.left.Valid() && h.right.Valid() && h.left.schema != [] && h.right.schema != [] && h.left != h.result && h.right != h.result
    requires h.leftAttr < |h.left.schema| && h.rightAttr < |h.right.schema| && Joinable(h.left.schema, h.right.schema, h.names)
    requires h.result.schema == JoinAll(h.left.schema, h.right.schema, h.names, h.left.schema, h.right.schema)
    requires SourcesAre(h.left.schema, h.right.schema, h.result.schema, h.sources) && h.joinRow.Length == RowLength(h.result.schema)
    requires Exact(h.index, Column(h.right.schema, h.right.inserted, h.rightAttr)) && h.indexStep
    ensures h.Valid()
  {
    hide SourcesAre, Exact, Column, JoinAll, RowLength, Joinable, Relation.Valid;
  }

  lemma SourcesExist(ls: seq<Attribute>, rs: seq<Attribute>, names: seq<string>)
    requires Joinable(ls, rs, names)
    ensures var to := JoinAll(ls, rs, names, ls, rs);
      forall i :: 0 <= i < |to| ==> ColumnOf(ls, to[i].name) < |ls| || ColumnOf(rs, to[i].name) < |rs|
  {
    hide JoinAll;
    forall i | 0 <= i < |names|
      ensures Joined(ls, rs, names[i], ls, rs).name == names[i]
    {
    }
  }
}
