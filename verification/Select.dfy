/** SELECT and REMOVE (relation.c): a query is a handle that produces one row for each call,
    from a scan of the relation or from an index. */
module Select {

  import opened Bytes
  import opened Lvm
  import opened AqlParser
  import opened Storage
  import opened InlineIndex
  import Derivation

  // ----- Attributes -----

  /** attribute_find: the first attribute of this name, or the number of attributes. */
  function ColumnOf(schema: seq<Attribute>, name: string): (j: nat)
    ensures j <= |schema| && (j < |schema| ==> schema[j].name == name)
  {
    if schema == [] || schema[0].name == name then 0 else 1 + ColumnOf(schema[1..], name)
  }

  predicate Has(schema: seq<Attribute>, name: string) {
    exists i :: 0 <= i < |schema| && schema[i].name == name
  }

  /** The column is the first of this name, and there is none if and only if no attribute has
      the name. */
  lemma {:induction false} ColumnIs(schema: seq<Attribute>, name: string)
    ensures ColumnOf(schema, name) == |schema| <==> !Has(schema, name)
    ensures forall i :: 0 <= i < ColumnOf(schema, name) ==> schema[i].name != name
  {
    if schema != [] && schema[0].name != name {
      ColumnIs(schema[1..], name);
      assert forall i :: 0 < i < |schema| ==> schema[i] == schema[1..][i - 1];
    }
  }

  /** The loop of attribute_find. */
  method AttributeFind(schema: seq<Attribute>, name: string) returns (j: nat)
    ensures j == ColumnOf(schema, name) <= |schema|
    ensures j == |schema| <==> !Has(schema, name)
    ensures forall i :: 0 <= i < j ==> schema[i].name != name
  {
    j := 0;
    ColumnIs(schema, name);
    while j < |schema| && schema[j].name != name
      invariant 0 <= j <= |schema| && forall i :: 0 <= i < j ==> schema[i].name != name
    {
      j := j + 1;
    }
  }

  predicate AllFound(schema: seq<Attribute>, names: seq<string>) {
    forall i :: 0 <= i < |names| ==> ColumnOf(schema, names[i]) < |schema|
  }

  /** The attributes of the result relation. */
  function ResultSchema(schema: seq<Attribute>, names: seq<string>): (r: seq<Attribute>)
    requires AllFound(schema, names)
    ensures |r| == |names| && forall i :: 0 <= i < |r| ==> r[i] == schema[ColumnOf(schema, names[i])]
  {
    if names == [] then []
    else ResultSchema(schema, names[..|names| - 1]) + [schema[ColumnOf(schema, names[|names| - 1])]]
  }

  /** The values of a row under the attributes of the result. */
  function Project(schema: seq<Attribute>, names: seq<string>, values: Row): (r: Row)
    requires AllFound(schema, names) && |values| == |schema|
    ensures |r| == |names| && forall i :: 0 <= i < |r| ==> r[i] == values[ColumnOf(schema, names[i])]
  {
    if names == [] then []
    else Project(schema, names[..|names| - 1], values) + [values[ColumnOf(schema, names[|names| - 1])]]
  }

  /** What a row says about each attribute of the result. */
  function Entries(schema: seq<Attribute>, names: seq<string>, values: Row): (e: seq<(string, long)>)
    requires AllFound(schema, names) && |values| == |schema|
    ensures |e| == |names|
  {
    if names == [] then []
    else
      var n := |names| - 1;
      var c := ColumnOf(schema, names[n]);
      Entries(schema, names[..n], values) + [(names[n], Stored(schema[c].domain, values[c]))]
  }

  /** The assignment under which the predicate is evaluated for a row. */
  function Assignment(schema: seq<Attribute>, names: seq<string>, values: Row): Env
    requires AllFound(schema, names) && |values| == |schema|
  {
    RowEnv(Entries(schema, names, values))
  }

  lemma {:induction false} AssignmentAt(schema: seq<Attribute>, names: seq<string>, values: Row, name: string)
    requires AllFound(schema, names) && |values| == |schema| && name in names
    ensures var c := ColumnOf(schema, name);
      c < |schema| && Lookup(Assignment(schema, names, values), name) == Stored(schema[c].domain, values[c])
  {
    var n := |names| - 1;
    var e := Entries(schema, names, values);
    assert e[..n] == Entries(schema, names[..n], values);
    if names[n] != name {
      AssignmentAt(schema, names[..n], values, name);
    }
  }

  lemma {:induction false} EntryNames(schema: seq<Attribute>, names: seq<string>, values: Row)
    requires AllFound(schema, names) && |values| == |schema|
    ensures RowVars(Entries(schema, names, values)) == ToSet(names)
  {
    if names != [] {
      var n := |names| - 1;
      var e := Entries(schema, names, values);
      EntryNames(schema, names[..n], values);
      assert names == names[..n] + [names[n]];
      forall x
        ensures x in RowVars(e) <==> x in RowVars(e[..n]) || x == names[n]
      {
        assert e == e[..n] + [e[n]];
        if x in RowVars(e[..n]) {
          var r :| r in e[..n] && r.0 == x;
          assert r in e;
        }
        assert e[n] in e;
      }
      assert e[..n] == Entries(schema, names[..n], values);
    }
  }

  // ----- Which rows a query returns -----

  /** No WHERE clause, or a clause and the result that is wanted of it. */
  datatype Test = Everything | Where(q: Pred, wanted: bool)

  /** lvm_execute gives the wanted result: neither a truth nor a falsehood has an error. */
  predicate Accepts(t: Test, env: Env) {
    t.Everything? || (!Faults(t.q, env) && Holds(t.q, env) == t.wanted)
  }

  predicate AcceptsRow(schema: seq<Attribute>, names: seq<string>, t: Test, values: Row)
    requires AllFound(schema, names) && |values| == |schema|
  {
    Accepts(t, Assignment(schema, names, values))
  }

  predicate Within(ids: seq<nat>, n: nat) {
    forall i :: 0 <= i < |ids| ==> ids[i] < n
  }

  /** The rows that a scan with the predicate finds, in their order. */
  function Matching(schema: seq<Attribute>, names: seq<string>, t: Test, rows: seq<Row>): (ids: seq<nat>)
    requires AllFound(schema, names) && Fits(schema, rows)
    ensures Within(ids, |rows|)
  {
    if rows == [] then []
    else
      var n := |rows| - 1;
      Matching(schema, names, t, rows[..n]) + (if AcceptsRow(schema, names, t, rows[n]) then [n] else [])
  }

  predicate Ascending(ids: seq<nat>) {
    forall i, k :: 0 <= i < k < |ids| ==> ids[i] < ids[k]
  }

  lemma MatchingUnfolds(schema: seq<Attribute>, names: seq<string>, t: Test, rows: seq<Row>)
    requires AllFound(schema, names) && Fits(schema, rows)
    ensures forall k :: 0 <= k < |rows| ==> |rows[k]| == |schema|
    ensures rows == [] ==> Matching(schema, names, t, rows) == [] && Ascending(Matching(schema, names, t, rows))
    ensures rows != [] ==>
      var n := |rows| - 1;
      && Fits(schema, rows[..n]) && (forall k :: 0 <= k < n ==> rows[..n][k] == rows[k])
      && Matching(schema, names, t, rows)
         == Matching(schema, names, t, rows[..n]) + (if AcceptsRow(schema, names, t, rows[n]) then [n] else [])
  {
    hide AcceptsRow;
  }

  /** A row is found exactly when the predicate accepts it, once, and in the order of the rows. */
  lemma {:induction false} MatchingIs(schema: seq<Attribute>, names: seq<string>, t: Test, rows: seq<Row>)
    requires AllFound(schema, names) && Fits(schema, rows)
    ensures forall k: nat :: k in Matching(schema, names, t, rows) <==> k < |rows| && AcceptsRow(schema, names, t, rows[k])
    ensures Ascending(Matching(schema, names, t, rows))
  {
    hide *;
    MatchingUnfolds(schema, names, t, rows);
    if rows != [] {
      var n: nat := |rows| - 1;
      MatchingIs(schema, names, t, rows[..n]);
      AscendingAdds(Matching(schema, names, t, rows[..n]), if AcceptsRow(schema, names, t, rows[n]) then [n] else [], n);
    }
  }

  /** A row is selected exactly if its clause is true and no division in it has a zero divisor,
      and kept by a REMOVE exactly if it is false and none has; without a clause every row is. */
  lemma MatchingMeans(schema: seq<Attribute>, names: seq<string>, q: Pred, rows: seq<Row>, k: nat)
    requires AllFound(schema, names) && Fits(schema, rows) && k < |rows|
    ensures var env := Assignment(schema, names, rows[k]);
      && (k in Matching(schema, names, Where(q, true), rows) <==> Holds(q, env) && !Faults(q, env))
      && (k in Matching(schema, names, Where(q, false), rows) <==> !Holds(q, env) && !Faults(q, env))
      && k in Matching(schema, names, Everything, rows)
  {
    hide Matching, Assignment, Holds, Faults;
    MatchingIs(schema, names, Where(q, true), rows);
    MatchingIs(schema, names, Where(q, false), rows);
    MatchingIs(schema, names, Everything, rows);
  }

  lemma AscendingAdds(front: seq<nat>, last: seq<nat>, n: nat)
    requires Ascending(front) && (forall k :: k in front ==> k < n) && (last == [n] || last == [])
    ensures Ascending(front + last)
  {
    forall i | 0 <= i < |front|
      ensures front[i] < n
    {
      assert front[i] in front;
    }
  }

  /** A row on which some division of the clause has a zero divisor. */
  predicate Faulty(schema: seq<Attribute>, names: seq<string>, q: Pred, rows: seq<Row>, k: nat)
    requires AllFound(schema, names) && Fits(schema, rows) && k < |rows|
  {
    Faults(q, Assignment(schema, names, rows[k]))
  }

  /** SELECT and REMOVE split a relation: no row is both selected and kept, and every row is
      one or the other exactly when the clause divides by zero on no row. A row whose evaluation
      fails is not selected, and REMOVE deletes it. */
  lemma RemovePartitions(schema: seq<Attribute>, names: seq<string>, q: Pred, rows: seq<Row>)
    requires AllFound(schema, names) && Fits(schema, rows)
    ensures var selected, kept := Matching(schema, names, Where(q, true), rows), Matching(schema, names, Where(q, false), rows);
      && Ascending(selected) && Ascending(kept)
      && (forall k: nat :: k in selected ==> k !in kept)
      && ((forall k: nat :: k < |rows| ==> k in selected || k in kept) <==>
          (forall k: nat :: k < |rows| ==> !Faulty(schema, names, q, rows, k)))
  {
    hide *;
    MatchingIs(schema, names, Where(q, true), rows);
    MatchingIs(schema, names, Where(q, false), rows);
    var selected, kept := Matching(schema, names, Where(q, true), rows), Matching(schema, names, Where(q, false), rows);
    forall k: nat
      ensures k in selected ==> k !in kept
    {
      if k < |rows| { PartitionAt(schema, names, q, rows, k); }
    }
    forall k: nat | k < |rows|
      ensures k in selected || k in kept <==> !Faulty(schema, names, q, rows, k)
    {
      PartitionAt(schema, names, q, rows, k);
    }
    if forall k: nat :: k < |rows| ==> k in selected || k in kept {
      forall k: nat | k < |rows|
        ensures !Faulty(schema, names, q, rows, k)
      {
        assert k in selected || k in kept;
      }
    }
  }

  lemma PartitionAt(schema: seq<Attribute>, names: seq<string>, q: Pred, rows: seq<Row>, k: nat)
    requires AllFound(schema, names) && Fits(schema, rows) && k < |rows|
    ensures var selected, kept := Matching(schema, names, Where(q, true), rows), Matching(schema, names, Where(q, false), rows);
      !(k in selected && k in kept) && (k in selected || k in kept <==> !Faulty(schema, names, q, rows, k))
  {
    hide Matching, AcceptsRow, Assignment, Faults;
    MatchingIs(schema, names, Where(q, true), rows);
    MatchingIs(schema, names, Where(q, false), rows);
    OneOrOther(schema, names, q, rows[k]);
  }

  lemma OneOrOther(schema: seq<Attribute>, names: seq<string>, q: Pred, values: Row)
    requires AllFound(schema, names) && |values| == |schema|
    ensures var yes, no := AcceptsRow(schema, names, Where(q, true), values), AcceptsRow(schema, names, Where(q, false), values);
      !(yes && no) && (yes || no <==> !Faults(q, Assignment(schema, names, values)))
  {
    hide Assignment, Faults, Holds;
  }

  /** The clause `1 / a = 0`. */
  function Reciprocal(a: string): Pred {
    Cmp(Eq, Arith(Div, Leaf(Const(1)), Leaf(Var(a))), Leaf(Const(0)))
  }

  lemma ReciprocalFaults(a: string, env: Env)
    ensures Faults(Reciprocal(a), env) <==> Lookup(env, a) == 0
  {
    FaultsParts(Reciprocal(a), env);
    ExprFaultsArith(Div, Leaf(Const(1)), Leaf(Var(a)), env);
  }

  /** A row with a = 0 is not selected by `1 / a = 0`, and a REMOVE with this clause does not
      keep it either; with any other value of a it is kept or selected. */
  lemma ZeroDivisor(schema: seq<Attribute>, names: seq<string>, a: string, rows: seq<Row>, k: nat)
    requires AllFound(schema, names) && a in names && Fits(schema, rows) && k < |rows|
    ensures var q, c := Reciprocal(a), ColumnOf(schema, a);
      && c < |schema| && |rows[k]| == |schema|
      && (Stored(schema[c].domain, rows[k][c]) == 0 <==>
          k !in Matching(schema, names, Where(q, true), rows) && k !in Matching(schema, names, Where(q, false), rows))
  {
    hide Matching, Assignment, Stored, ColumnOf, Faults;
    PartitionAt(schema, names, Reciprocal(a), rows, k);
    AssignmentAt(schema, names, rows[k], a);
    ReciprocalFaults(a, Assignment(schema, names, rows[k]));
  }

  /** Rows the predicate does not accept add nothing. */
  lemma {:induction false} MatchingSkips(schema: seq<Attribute>, names: seq<string>, t: Test, rows: seq<Row>, a: nat, b: nat)
    requires AllFound(schema, names) && Fits(schema, rows) && a <= b <= |rows|
    requires forall k :: a <= k < b ==> !AcceptsRow(schema, names, t, rows[k])
    ensures Matching(schema, names, t, rows[..b]) == Matching(schema, names, t, rows[..a])
    decreases b
  {
    if a < b {
      MatchingSkips(schema, names, t, rows, a, b - 1);
      assert rows[..b][..b - 1] == rows[..b - 1];
    }
  }

  lemma MatchingAdds(schema: seq<Attribute>, names: seq<string>, t: Test, rows: seq<Row>, a: nat, k: nat)
    requires AllFound(schema, names) && Fits(schema, rows) && a <= k < |rows|
    requires forall i :: a <= i < k ==> !AcceptsRow(schema, names, t, rows[i])
    requires AcceptsRow(schema, names, t, rows[k])
    ensures Matching(schema, names, t, rows[..k + 1]) == Matching(schema, names, t, rows[..a]) + [k]
  {
    MatchingSkips(schema, names, t, rows, a, k);
    assert rows[..k + 1][..k] == rows[..k];
  }

  /** The rows of a result. */
  function Selected(schema: seq<Attribute>, names: seq<string>, rows: seq<Row>, ids: seq<nat>): (r: seq<Row>)
    requires AllFound(schema, names) && Fits(schema, rows) && Within(ids, |rows|)
    ensures |r| == |ids| && forall i :: 0 <= i < |ids| ==> r[i] == Project(schema, names, rows[ids[i]])
  {
    if ids == [] then []
    else
      Selected(schema, names, rows, ids[..|ids| - 1]) + [Project(schema, names, rows[ids[|ids| - 1]])]
  }

  lemma SelectedAdds(schema: seq<Attribute>, names: seq<string>, rows: seq<Row>, ids: seq<nat>, k: nat)
    requires AllFound(schema, names) && Fits(schema, rows) && Within(ids, |rows|) && k < |rows|
    ensures Within(ids + [k], |rows|)
    ensures Selected(schema, names, rows, ids + [k]) == Selected(schema, names, rows, ids) + [Project(schema, names, rows[k])]
  {
    assert (ids + [k])[..|ids|] == ids;
  }

  /** What a run has returned and, for an assignment, stored. */
  predicate Collected(to: seq<Attribute>, results: seq<Row>, tuples: seq<seq<byte>>, stored: seq<byte>, assign: bool) {
    && Fits(to, results) && |tuples| == |results|
    && (forall i :: 0 <= i < |results| ==> tuples[i] == RowBytes(to, results[i]))
    && stored == if assign then FileOf(to, results) else []
  }

  lemma CollectedStart(to: seq<Attribute>, assign: bool)
    ensures Collected(to, [], [], [], assign)
  {
  }

  lemma CollectedAdds(to: seq<Attribute>, results: seq<Row>, tuples: seq<seq<byte>>, stored: seq<byte>, assign: bool, values: Row)
    requires Collected(to, results, tuples, stored, assign) && |values| == |to|
    ensures Collected(to, results + [values], tuples + [RowBytes(to, values)],
                      stored + (if assign then Masked(RowBytes(to, values)) else []), assign)
  {
    hide RowBytes, Masked, RowLength, FileOf;
    FileUnfolds(to, results + [values]);
    assert (results + [values])[..|results|] == results;
  }

  // ----- What an index may skip -----

  lemma {:induction false} ConstrainedVars(q: Pred)
    ensures Derivation.Constrained(q) <= PredVars(q)
  {
    match q
    case Cmp(_, l, r) =>
    case Conn(_, a, b) =>
      ConstrainedVars(a);
      ConstrainedVars(b);
    case Not(a) =>
      ConstrainedVars(a);
  }

  /** The interval that is derived for a variable (lvm_get_derived_range). */
  function RangeFor(q: Pred, vars: seq<string>, name: string): Option<Derivation.Interval> {
    var i := Find(vars, name);
    if i < |vars| && i < Derivation.VARIABLE_IDS && Derivation.Derive(q, vars).Derived?
       && Derivation.Derive(q, vars).box[i].derived
    then Some(Derivation.Derive(q, vars).box[i])
    else None
  }

  /** A row that satisfies the clause has its indexed value in the range that the index searches. */
  lemma IndexLosesNothing(schema: seq<Attribute>, names: seq<string>, q: Pred, vars: seq<string>, values: Row, j: nat)
    requires AllFound(schema, names) && |values| == |schema| && j < |schema| && ColumnOf(schema, schema[j].name) == j
    requires Derivation.Derivable(q) && PredVars(q) <= ToSet(vars) && |vars| <= MAX_VARIABLES
    requires PredVars(q) <= ToSet(names) && RangeFor(q, vars, schema[j].name).Some?
    requires AcceptsRow(schema, names, Where(q, true), values)
    ensures Derivation.Inside(Stored(schema[j].domain, values[j]), RangeFor(q, vars, schema[j].name).value)
  {
    var n, env := schema[j].name, Assignment(schema, names, values);
    Derivation.DerivationSound(q, vars, env);
    Derivation.DerivesConstrained(q, vars);
    ConstrainedVars(q);
    assert n in vars;
    assert n in ToSet(names);
    AssignmentAt(schema, names, values, n);
  }

  // ----- The map from the relation to the result -----

  datatype Mapping = Mapping(column: nat, fromOffset: nat, toOffset: nat)

  /** Entry `i` of the map takes attribute `i` of the result from its column in a row. */
  predicate MapIs(schema: seq<Attribute>, to: seq<Attribute>, attrMap: seq<Mapping>) {
    && |attrMap| == |to|
    && forall i :: 0 <= i < |to| ==> Maps(schema, to, i, attrMap[i])
  }

  predicate Maps(schema: seq<Attribute>, to: seq<Attribute>, i: nat, m: Mapping)
    requires i < |to|
  {
    && m.column == ColumnOf(schema, to[i].name) < |schema|
    && m.fromOffset == Offset(schema, m.column) && m.toOffset == Offset(to, i)
  }

  /** generate_attribute_map */
  method GenerateAttributeMap(schema: seq<Attribute>, to: seq<Attribute>) returns (status: Storage.Status, attrMap: seq<Mapping>)
    ensures status == DbOk || status == NameError
    ensures status == NameError <==> exists i :: 0 <= i < |to| && !Has(schema, to[i].name)
    ensures status == DbOk ==> MapIs(schema, to, attrMap)
  {
    hide RowLength, ColumnOf, Has;
    attrMap := [];
    var sizeSum, i := 0, 0;
    SumStart(to);
    while i < |to|
      invariant i <= |to| && |attrMap| == i && sizeSum == Offset(to, i)
      invariant forall k :: 0 <= k < i ==> Maps(schema, to, k, attrMap[k]) && Has(schema, to[k].name)
    {
      var c := AttributeFind(schema, to[i].name);
      if c == |schema| {
        return NameError, [];
      }
      attrMap := attrMap + [Mapping(c, Offset(schema, c), sizeSum)];
      OffsetsGrow(to, i);
      sizeSum := sizeSum + ElementSize(to[i].domain);
      i := i + 1;
    }
    status := DbOk;
  }

  lemma SumStart(to: seq<Attribute>)
    ensures Offset(to, 0) == 0
  {
  }

  /** The first `i` values stand at the start of a row. */
  predicate Copied(r: seq<byte>, to: seq<Attribute>, values: Row, i: nat) {
    && i <= |to| == |values| && |r| == RowLength(to)
    && Offset(to, i) <= |r| && r[..Offset(to, i)] == RowBytes(to[..i], values[..i])
  }

  lemma CopyStep(r: seq<byte>, to: seq<Attribute>, values: Row, i: nat)
    requires Copied(r, to, values, i) && i < |to|
    ensures Offset(to, i) + ElementSize(to[i].domain) <= |r|
    ensures Copied(Overwrite(r, Offset(to, i), Encode(to[i].domain, values[i])), to, values, i + 1)
  {
    OffsetsGrow(to, i);
    RowUnfolds(to[..i + 1], values[..i + 1], i);
    assert to[..i + 1][..i] == to[..i] && values[..i + 1][..i] == values[..i];
    hide RowLength, RowBytes, Encode;
    var piece := Encode(to[i].domain, values[i]);
    var now := Overwrite(r, Offset(to, i), piece);
    assert now[..Offset(to, i) + |piece|] == r[..Offset(to, i)] + piece;
  }

  lemma CopyEnd(r: seq<byte>, to: seq<Attribute>, values: Row)
    requires Copied(r, to, values, |to|)
    ensures r == RowBytes(to, values)
  {
    assert to[..|to|] == to && values[..|to|] == values;
    hide RowLength, RowBytes;
  }

  /** An index can be used with the range that is derived for its column: the clause is one
      whose derivation is sound and whose truth is wanted, and the column is sorted and has no
      bound of the range below its first value. */
  ghost predicate IndexFits(rel: Relation, where: Instance, q: Pred, inverse: bool, j: nat)
    requires rel.Valid() && j < |rel.schema|
    reads rel, where`names
  {
    RangeFor(q, where.names, rel.schema[j].name).Some? ==>
      var i := RangeFor(q, where.names, rel.schema[j].name).value;
      var c := Column(rel.schema, rel.inserted, j);
      && !inverse && Derivation.Derivable(q) && ColumnOf(rel.schema, rel.schema[j].name) == j
      && Searchable(c, i.min) && Searchable(c, i.max)
  }

  // ----- The handle of a query -----

  class Query {
    const rel: Relation
    const result: Relation // the result relation; rows are stored in it when `assign` is set
    const names: seq<string>
    const hasWhere: bool
    const where: Instance
    ghost const q: Pred
    const inverse: bool
    const assign: bool
    const resultRow: array<byte>
    var attrMap: seq<Mapping>
    var search: RangeIterator? // present when an index drives the query
    var tupleId: nat
    var currentRow: nat

    constructor (rel: Relation, result: Relation, names: seq<string>, hasWhere: bool, where: Instance, ghost q: Pred,
                 inverse: bool, assign: bool)
      ensures this.rel == rel && this.result == result && this.names == names && this.hasWhere == hasWhere
      ensures this.where == where && this.q == q && this.inverse == inverse && this.assign == assign
      ensures search == null && tupleId == 0 && currentRow == 0
      ensures fresh(resultRow) && resultRow.Length == RowLength(result.schema)
    {
      this.rel, this.result, this.names, this.hasWhere, this.where := rel, result, names, hasWhere, where;
      this.q, this.inverse, this.assign := q, inverse, assign;
      resultRow := new byte[RowLength(result.schema)](_ => 0);
      attrMap, search, tupleId, currentRow := [], null, 0, 0;
    }

    ghost function T(): Test {
      if hasWhere then Where(q, !inverse) else Everything
    }

    ghost predicate Accepted(k: nat)
      requires AllFound(rel.schema, names) && Fits(rel.schema, rel.inserted) && k < |rel.inserted|
      reads rel
    {
      AcceptsRow(rel.schema, names, T(), rel.inserted[k])
    }

    /** The handle and its code fit the relation. */
    ghost predicate Ready()
      reads `attrMap, rel, where, where.code
    {
      && rel.Valid() && rel.schema != [] && rel != result
      && AllFound(rel.schema, names) && result.schema == ResultSchema(rel.schema, names)
      && MapIs(rel.schema, result.schema, attrMap) && resultRow.Length == RowLength(result.schema)
      && where.Valid()
      && (hasWhere ==> where.text == PredCode(q, where.names) && PredVars(q) <= ToSet(where.names) && PredVars(q) <= ToSet(names) && Room(where.names, ToSet(names)))
    }

    lemma CopyStart(values: Row)
      requires Ready() && |values| == |rel.schema|
      ensures Copied(resultRow[..], result.schema, Project(rel.schema, names, values), 0)
      ensures Entries(rel.schema, names[..0], values) == [] && |names| == |result.schema|
    {
      SumStart(result.schema);
    }

    /** What the map says of attribute `i` of the result. */
    lemma CopyFacts(i: nat, row: seq<byte>, values: Row)
      requires Ready() && |values| == |rel.schema| && i < |result.schema| && row == RowBytes(rel.schema, values)
      ensures var to, p := result.schema, Project(rel.schema, names, values);
        && |p| == |to| == |attrMap| == |names| && attrMap[i].toOffset == Offset(to, i)
        && attrMap[i].fromOffset + ElementSize(to[i].domain) <= |row|
        && row[attrMap[i].fromOffset..attrMap[i].fromOffset + ElementSize(to[i].domain)] == Encode(to[i].domain, p[i])
        && |Encode(to[i].domain, p[i])| == ElementSize(to[i].domain)
        && Entries(rel.schema, names[..i + 1], values)
           == Entries(rel.schema, names[..i], values) + [(to[i].name, Decode(to[i].domain, Encode(to[i].domain, p[i])))]
    {
      var c := ColumnOf(rel.schema, names[i]);
      assert Maps(rel.schema, result.schema, i, attrMap[i]);
      RowBytesAt(rel.schema, values, c);
      ValueRead(rel.schema[c].domain, values[c]);
      assert names[..i + 1][..i] == names[..i];
      hide Decode, Encode, RowBytes, RowLength;
    }

    /** One attribute: its bytes go to the result row, and its value to the predicate. */
    method CopyAttribute(i: nat, row: seq<byte>, ghost values: Row) returns (value: long)
      requires Ready() && |values| == |rel.schema| && i < |result.schema| && row == RowBytes(rel.schema, values)
      requires Copied(resultRow[..], result.schema, Project(rel.schema, names, values), i)
      modifies resultRow
      ensures Copied(resultRow[..], result.schema, Project(rel.schema, names, values), i + 1)
      ensures Entries(rel.schema, names[..i + 1], values) == Entries(rel.schema, names[..i], values) + [(result.schema[i].name, value)]
    {
      CopyFacts(i, row, values);
      hide *;
      var to := result.schema;
      CopyStep(resultRow[..], to, Project(rel.schema, names, values), i);
      var m := attrMap[i];
      var piece := row[m.fromOffset..m.fromOffset + ElementSize(to[i].domain)];
      value := Decode(to[i].domain, piece);
      CopyInto(resultRow, m.toOffset, piece);
    }

    /** The part of process_select that works on the attributes. */
    method CopyRow(row: seq<byte>, ghost values: Row) returns (entries: seq<(string, long)>)
      requires Ready() && |values| == |rel.schema| && row == RowBytes(rel.schema, values)
      modifies resultRow
      ensures entries == Entries(rel.schema, names, values)
      ensures resultRow[..] == RowBytes(result.schema, Project(rel.schema, names, values))
    {
      hide Copied, Entries, Project, RowBytes, Ready, RowLength, ResultSchema, ColumnOf, Stored;
      ReadyFacts();
      CopyStart(values);
      entries := [];
      var i := 0;
      while i < |result.schema|
        invariant 0 <= i <= |result.schema| && Ready() && entries == Entries(rel.schema, names[..i], values)
        invariant Copied(resultRow[..], result.schema, Project(rel.schema, names, values), i)
      {
        var value := CopyAttribute(i, row, values);
        entries := entries + [(result.schema[i].name, value)];
        i := i + 1;
      }
      CopyEnd(resultRow[..], result.schema, Project(rel.schema, names, values));
      assert names[..i] == names;
    }

    ghost predicate Valid()
      reads `attrMap, `search, rel, where, where.code, search
    {
      Ready() && Driven()
    }

    /** The index, if there is one, searches this relation and a range that holds every accepted row. */
    ghost predicate Driven()
      reads `search, rel, search
    {
      search != null ==>
        && search.rel == rel && search.Valid() && search.Position() <= |rel.inserted|
        && Narrows(search.j, search.lo, search.hi)
    }

    /** The first row that no step has looked at or skipped. */
    ghost function Position(): nat
      reads `search, `tupleId, search
    {
      if search == null then tupleId else search.Position()
    }

    /** Every row that the query accepts has its column in a range. */
    ghost predicate Narrows(j: nat, lo: long, hi: long)
      reads rel
    {
      && AllFound(rel.schema, names) && Fits(rel.schema, rel.inserted) && j < |rel.schema|
      && forall k :: 0 <= k < |rel.inserted| && Accepted(k) ==> lo <= Stored(rel.schema[j].domain, rel.inserted[k][j]) <= hi
    }

    /** No row from `a` to before `b` is accepted. */
    ghost predicate Rejects(a: nat, b: nat)
      reads rel
    {
      && AllFound(rel.schema, names) && Fits(rel.schema, rel.inserted)
      && forall k :: a <= k < b && k < |rel.inserted| ==> !Accepted(k)
    }

    /** What a search says about the rows of the query. */
    lemma SearchFacts()
      requires Driven() && search != null
      ensures search.Valid() && search.Usable() && search.rel == rel && |search.Values()| == |rel.inserted|
      ensures Position() == search.Position() && (search.nextItem == 0 ==> Position() == 0) && Narrows(search.j, search.lo, search.hi)
      ensures AllFound(rel.schema, names) && Fits(rel.schema, rel.inserted)
      ensures forall k :: 0 <= k < |rel.inserted| && Accepted(k) ==> search.lo <= search.Values()[k] <= search.hi
    {
    }

    lemma SearchDone(n: nat)
      requires Driven() && search != null && search.Usable() && search.AllBefore(n)
      ensures Rejects(n, |rel.inserted|)
    {
      SearchFacts();
      hide AcceptsRow;
    }

    lemma SearchStarts(n: nat)
      requires Driven() && search != null && search.Usable() && search.NoneBefore(n)
      ensures Rejects(0, n)
    {
      SearchFacts();
      hide AcceptsRow;
    }

    lemma SearchMoved(j: nat, lo: long, hi: long)
      requires search != null && search.Valid() && Narrows(j, lo, hi)
      requires search.rel == rel && search.j == j && search.lo == lo && search.hi == hi && search.Position() <= |rel.inserted|
      ensures Driven()
    {
    }

    lemma NothingBetween(n: nat)
      requires Ready()
      ensures Rejects(n, n)
    {
    }

    /** One step of the index that drives the query. */
    method NextOfIndex() returns (t: Option<nat>)
      requires Ready() && Driven() && search != null
      modifies search
      ensures Driven()
      ensures t.Some? ==> old(Position()) <= t.value && Rejects(old(Position()), t.value) && Position() == t.value + 1 <= |rel.inserted|
      ensures t.None? ==> Rejects(old(Position()), |rel.inserted|) && (search.nextItem == 0 ==> old(Position()) == 0)
    {
      SearchFacts();
      NothingBetween(Position());
      ghost var before, j, lo, hi := Position(), search.j, search.lo, search.hi;
      hide *;
      t := search.Next();
      SearchMoved(j, lo, hi);
      SearchFacts();
      if t.None? {
        SearchDone(before);
      } else if before != t.value {
        SearchStarts(t.value);
      }
    }

    /** The index part of process_select: move to the next tuple of the index, if there is one. */
    method NextTuple() returns (status: Storage.Status)
      requires Ready() && Driven()
      modifies `tupleId, search
      ensures Driven()
      ensures status == DbOk || status == DbFinished || status == IndexError
      ensures status == DbOk ==> old(Position()) <= tupleId && Rejects(old(Position()), tupleId)
      ensures status == DbOk && search == null ==> Position() == tupleId == old(Position())
      ensures status == DbOk && search != null ==> Position() == tupleId + 1 <= |rel.inserted|
      ensures status != DbOk ==> search != null && Rejects(old(Position()), |rel.inserted|)
      ensures status == IndexError ==> search != null && old(Position()) == 0
    {
      status := DbOk;
      if search == null {
        NothingBetween(tupleId);
        return;
      }
      var t := NextOfIndex();
      if t.None? {
        return if search.nextItem == 0 then IndexError else DbFinished;
      }
      hide Ready, Narrows, Rejects, RangeIterator.Valid, RangeIterator.Position;
      tupleId := t.value;
    }

    lemma ReadyFacts()
      requires Ready()
      ensures rel != result && rel.Valid() && rel.schema != [] && AllFound(rel.schema, names) && Fits(rel.schema, rel.inserted)
      ensures result.schema == ResultSchema(rel.schema, names) && Position() == (if search == null then tupleId else search.Position())
    {
    }

    /** Looking at row `k`, and passing over the rows before it. */
    lemma Looked(from: nat, k: nat, found: bool)
      requires Ready() && from <= k < |rel.inserted| && Rejects(from, k)
      requires AllFound(rel.schema, names) && Fits(rel.schema, rel.inserted) && |rel.inserted[k]| == |rel.schema|
      requires found <==> AcceptsRow(rel.schema, names, T(), rel.inserted[k])
      ensures if found then Accepted(k) else Rejects(k, k + 1)
    {
      hide AcceptsRow, RowLength;
    }

    lemma NoMore(from: nat, k: nat)
      requires Rejects(from, k) && from <= k && |rel.inserted| <= k
      ensures Rejects(from, |rel.inserted|)
    {
    }

    /** Copy a row to the result, and evaluate the predicate for it. */
    method Test(row: seq<byte>, ghost values: Row) returns (found: bool)
      requires Ready() && |values| == |rel.schema| && row == RowBytes(rel.schema, values)
      modifies resultRow, where`values, where`ip
      ensures Ready()
      ensures AllFound(rel.schema, names) && (found <==> AcceptsRow(rel.schema, names, T(), values))
      ensures resultRow[..] == RowBytes(ResultSchema(rel.schema, names), Project(rel.schema, names, values))
    {
      hide PredCode, PredVars, Holds, Faults, RowEnv, RowVars, ToSet, RowBytes, Project, Entries, MapIs, Instance.Valid, Relation.Valid,
        Offset, ElementSize, RowLength;
      var entries := CopyRow(row, values);
      EntryNames(rel.schema, names, values);
      found := true;
      if hasWhere {
        var r := LoadAndExecute(where, q, entries);
        found := r == (if inverse then FALSE else TRUE);
      }
    }

    /** relation_process_select: GotRow with a row in the result buffer, DbOk for a row that is
        not accepted, or the end. The rows it passes over are not accepted. */
    method Process(takes: nat -> nat) returns (status: Storage.Status)
      requires Ready() && Driven()
      modifies `tupleId, `currentRow, search, resultRow, where`values, where`ip, result`file
      ensures Ready() && Driven()
      ensures status == GotRow || status == DbOk ==>
        old(Position()) < Position() <= |rel.inserted| && Rejects(old(Position()), Position() - 1)
      ensures status == GotRow ==>
        && AllFound(rel.schema, names) && Fits(rel.schema, rel.inserted) && Accepted(Position() - 1)
        && resultRow[..] == RowBytes(ResultSchema(rel.schema, names), Project(rel.schema, names, rel.inserted[Position() - 1]))
      ensures status == DbOk ==> Rejects(Position() - 1, Position())
      ensures status != GotRow && status != DbOk ==> Rejects(old(Position()), |rel.inserted|)
      ensures status == GotRow || status == DbOk || status == DbFinished || status == IndexError
      ensures status == IndexError ==> search != null && old(Position()) == 0
      ensures currentRow == old(currentRow) + (if status == GotRow then 1 else 0)
      ensures result.file == old(result.file) + (if status == GotRow && assign then Masked(resultRow[..]) else [])
    {
      hide *;
      ReadyFacts();
      ghost var before := Position();
      status := NextTuple();
      if status != DbOk {
        return;
      }
      ReadyFacts();
      ghost var k := tupleId;
      var row;
      status, row := rel.GetRow(tupleId);
      tupleId := tupleId + 1;
      ReadyFacts();
      if status == DbFinished {
        NoMore(before, k);
        return;
      }
      var found := Test(row, rel.inserted[k]);
      Looked(before, k, found);
      if found {
        if assign {
          result.PutRow(resultRow[..], takes);
        }
        currentRow := currentRow + 1;
        return GotRow;
      }
      status := DbOk;
    }

    /** The accepted rows among the first `n`. */
    ghost function Below(n: nat): (ids: seq<nat>)
      requires AllFound(rel.schema, names) && Fits(rel.schema, rel.inserted) && n <= |rel.inserted|
      reads rel
    {
      Matching(rel.schema, names, T(), rel.inserted[..n])
    }

    lemma Adds(a: nat, k: nat)
      requires AllFound(rel.schema, names) && Fits(rel.schema, rel.inserted) && a <= k < |rel.inserted|
      requires Rejects(a, k) && Accepted(k)
      ensures Below(k + 1) == Below(a) + [k]
      ensures |rel.inserted[k]| == |rel.schema|
      ensures |Project(rel.schema, names, rel.inserted[k])| == |ResultSchema(rel.schema, names)|
    {
      hide AcceptsRow, RowLength, AllFound;
      forall i | a <= i < k
        ensures !AcceptsRow(rel.schema, names, T(), rel.inserted[i])
      {
        assert !Accepted(i);
      }
      MatchingAdds(rel.schema, names, T(), rel.inserted, a, k);
    }

    lemma Skips(a: nat, b: nat)
      requires Rejects(a, b) && a <= b <= |rel.inserted|
      ensures AllFound(rel.schema, names) && Fits(rel.schema, rel.inserted) && Below(b) == Below(a)
    {
      hide AcceptsRow, RowLength, AllFound;
      forall i | a <= i < b
        ensures !AcceptsRow(rel.schema, names, T(), rel.inserted[i])
      {
        assert !Accepted(i);
      }
      MatchingSkips(rel.schema, names, T(), rel.inserted, a, b);
    }

    lemma Begin()
      requires Ready()
      ensures AllFound(rel.schema, names) && Fits(rel.schema, rel.inserted)
      ensures Below(0) == [] && Below(|rel.inserted|) == Matching(rel.schema, names, T(), rel.inserted) && Within([], |rel.inserted|)
      ensures Collected(ResultSchema(rel.schema, names), Selected(rel.schema, names, rel.inserted, []), [], [], assign)
    {
      CollectedStart(ResultSchema(rel.schema, names), assign);
      assert rel.inserted[..|rel.inserted|] == rel.inserted;
    }

    /** The calls of process_select until it stops: the query returns, and stores if it is an
        assignment, the rows that a scan with the predicate finds, in their order, whether an
        index drives it or not. */
    method Run(takes: nat -> nat) returns (status: Storage.Status, tuples: seq<seq<byte>>)
      requires Ready() && Driven() && Position() == 0
      modifies `tupleId, `currentRow, search, resultRow, where`values, where`ip, result`file
      ensures AllFound(rel.schema, names) && Fits(rel.schema, rel.inserted)
      ensures status == DbFinished || (status == IndexError && tuples == [] && search != null)
      ensures exists stored ::
        && Collected(ResultSchema(rel.schema, names),
                     Selected(rel.schema, names, rel.inserted, Matching(rel.schema, names, T(), rel.inserted)), tuples, stored, assign)
        && result.file == old(result.file) + stored
    {
      hide *;
      ReadyFacts();
      ghost var to, rows, ids, stored: seq<byte> := ResultSchema(rel.schema, names), rel.inserted, [], [];
      tuples := [];
      Begin();
      status := DbOk;
      while status == DbOk || status == GotRow
        invariant rel != result && Ready() && Driven() && rel.inserted == rows && AllFound(rel.schema, names) && Fits(rel.schema, rows)
        invariant status == DbOk || status == GotRow ==> Position() <= |rows| && ids == Below(Position())
        invariant !(status == DbOk || status == GotRow) ==> ids == Matching(rel.schema, names, T(), rows)
        invariant status == DbOk || status == GotRow || status == DbFinished || (status == IndexError && tuples == [] && search != null)
        invariant (status == DbOk || status == GotRow) && Position() == 0 ==> tuples == []
        invariant Within(ids, |rows|) && Collected(to, Selected(rel.schema, names, rows, ids), tuples, stored, assign)
        invariant result.file == old(result.file) + stored
        decreases if status == DbOk || status == GotRow then |rows| - Position() + 1 else 0
      {
        ghost var before := Position();
        status := Process(takes);
        if status == GotRow {
          ghost var k := Position() - 1;
          Adds(before, k);
          SelectedAdds(rel.schema, names, rows, ids, k);
          CollectedAdds(to, Selected(rel.schema, names, rows, ids), tuples, stored, assign, Project(rel.schema, names, rows[k]));
          ids := ids + [k];
          stored := stored + (if assign then Masked(resultRow[..]) else []);
          tuples := tuples + [resultRow[..]];
        } else if status == DbOk {
          Skips(before, Position() - 1);
          Skips(Position() - 1, Position());
        } else {
          Skips(before, |rows|);
          Begin();
        }
      }
    }

    // --- starting a query ---

    /** lvm_get_derived_range */
    method GetDerivedRange(box: array<Derivation.Interval>, name: string) returns (r: Option<Derivation.Interval>)
      requires box.Length == Derivation.VARIABLE_IDS && where.Valid()
      requires Derivation.Derive(q, where.names).Derived? && box[..] == Derivation.Derive(q, where.names).box
      ensures r == RangeFor(q, where.names, name)
    {
      var i := Find(where.names, name);
      if i < |where.names| && box[i].derived {
        assert box[..][i] == box[i];
        return Some(box[i]);
      }
      r := None;
    }

    /** The loop of select_index: it finds the last attribute that has an index and a derived
        range, since the smallest range so far is never recorded. */
    method ChooseIndex(box: array<Derivation.Interval>, indexed: seq<bool>) returns (chosen: Option<nat>, min: long, max: long)
      requires where.Valid() && |indexed| == |rel.schema| && box.Length == Derivation.VARIABLE_IDS
      requires Derivation.Derive(q, where.names).Derived? && box[..] == Derivation.Derive(q, where.names).box
      ensures chosen.None? ==>
        forall j :: 0 <= j < |rel.schema| && indexed[j] ==> RangeFor(q, where.names, rel.schema[j].name).None?
      ensures chosen.Some? ==>
        && chosen.value < |rel.schema| && indexed[chosen.value]
        && RangeFor(q, where.names, rel.schema[chosen.value].name) == Some(Derivation.Interval(true, min, max))
        && forall j :: chosen.value < j < |rel.schema| && indexed[j] ==> RangeFor(q, where.names, rel.schema[j].name).None?
    {
      hide RangeFor, Relation.Valid, Instance.Valid, Derivation.Derive, Find;
      chosen, min, max := None, 0, 0;
      var minRange: uint32 := 0xffff_ffff;
      var j := 0;
      while j < |rel.schema|
        invariant 0 <= j <= |rel.schema|
        invariant forall k :: (if chosen.Some? then chosen.value + 1 else 0) <= k < j && indexed[k] ==>
          RangeFor(q, where.names, rel.schema[k].name).None?
        invariant chosen.Some? ==>
          && chosen.value < j && indexed[chosen.value]
          && RangeFor(q, where.names, rel.schema[chosen.value].name) == Some(Derivation.Interval(true, min, max))
      {
        if indexed[j] {
          var r := GetDerivedRange(box, rel.schema[j].name);
          if r.Some? {
            RangeDerived(rel.schema[j].name);
            if Wrap32(r.value.max as int - r.value.min as int) <= minRange {
              chosen, min, max := Some(j), r.value.min, r.value.max;
            }
          }
        }
        j := j + 1;
      }
    }

    /** select_index */
    method SelectIndex(box: array<Derivation.Interval>, indexed: seq<bool>, unique: seq<bool>)
      requires Ready() && hasWhere && search == null && |indexed| == |unique| == |rel.schema|
      requires where.Valid() && rel.Valid() && box.Length == Derivation.VARIABLE_IDS
      requires Derivation.Derive(q, where.names).Derived? && box[..] == Derivation.Derive(q, where.names).box
      requires forall j :: 0 <= j < |rel.schema| && indexed[j] ==> IndexFits(rel, where, q, inverse, j)
      modifies `search
      ensures Driven() && (search != null ==> fresh(search) && search.nextItem == 0 && true in indexed)
    {
      hide *;
      var chosen, min, max := ChooseIndex(box, indexed);
      if chosen.Some? {
        search := new RangeIterator(rel, chosen.value, unique[chosen.value], min, max);
        IndexDrives();
      } else {
        NotDriven();
      }
    }

    lemma RangeDerived(name: string)
      requires RangeFor(q, where.names, name).Some?
      ensures RangeFor(q, where.names, name).value.derived
    {
    }

    lemma NotDriven()
      requires search == null
      ensures Driven()
    {
    }

    lemma IndexDrives()
      requires Ready() && hasWhere && search != null && search.rel == rel && search.nextItem == 0 && search.j < |rel.schema|
      requires RangeFor(q, where.names, rel.schema[search.j].name) == Some(Derivation.Interval(true, search.lo, search.hi))
      requires rel.Valid() && IndexFits(rel, where, q, inverse, search.j)
      ensures Driven()
    {
      var j := search.j;
      forall k | 0 <= k < |rel.inserted| && Accepted(k)
        ensures search.lo <= Stored(rel.schema[j].domain, rel.inserted[k][j]) <= search.hi
      {
        IndexLosesNothing(rel.schema, names, q, where.names, rel.inserted[k], j);
      }
      hide Searchable, AcceptsRow, PredVars, PredCode, RangeFor;
    }

    /** Derive ranges from the clause, and select an index if that succeeds. */
    method DeriveIndex(indexed: seq<bool>, unique: seq<bool>)
      requires Ready() && hasWhere && search == null && |indexed| == |unique| == |rel.schema|
      requires where.ip == 0 && where.Valid() && rel.Valid() && where.text == PredCode(q, where.names)
      requires forall j :: 0 <= j < |rel.schema| && indexed[j] ==> IndexFits(rel, where, q, inverse, j)
      modifies `search, where`ip
      ensures Ready() && Driven() && (search != null ==> fresh(search) && search.nextItem == 0 && true in indexed)
    {
      hide PredCode, PredVars, ToSet, IndexFits, AllFound, Relation.Valid, MapIs, RowLength, ResultSchema, Driven, RangeFor;
      assert where.At(0, PredCode(q, where.names));
      var box := new Derivation.Interval[Derivation.VARIABLE_IDS](_ => Derivation.NONE);
      assert box[..] == Derivation.EMPTY_BOX;
      var r := Derivation.DeriveRelation(where, box, q);
      if LvmError(r) {
        NotDriven();
        return;
      }
      SelectIndex(box, indexed, unique);
    }

    /** generate_selection_result */
    method Prepare(indexed: seq<bool>, unique: seq<bool>) returns (status: Storage.Status)
      requires rel.Valid() && rel.schema != [] && rel != result && AllFound(rel.schema, names)
      requires result.schema == ResultSchema(rel.schema, names) && resultRow.Length == RowLength(result.schema)
      requires where.Valid() && where.ip == 0 && search == null
      requires hasWhere ==> where.text == PredCode(q, where.names) && PredVars(q) <= ToSet(where.names) && PredVars(q) <= ToSet(names) && Room(where.names, ToSet(names))
      requires |indexed| == |unique| == |rel.schema|
      requires hasWhere ==> forall j :: 0 <= j < |rel.schema| && indexed[j] ==> IndexFits(rel, where, q, inverse, j)
      modifies `attrMap, `search, `tupleId, `currentRow, where`ip
      ensures status == DbOk && Ready() && Driven() && Position() == 0 && currentRow == 0
      ensures search != null ==> fresh(search) && true in indexed
    {
      hide PredCode, PredVars, ToSet, IndexFits, AllFound, Relation.Valid, Instance.Valid, MapIs, RowLength, ResultSchema, RangeIterator.Valid,
        Narrows;
      currentRow, tupleId := 0, 0;
      MapExists();
      status, attrMap := GenerateAttributeMap(rel.schema, result.schema);
      if hasWhere {
        DeriveIndex(indexed, unique);
      }
    }

    lemma MapExists()
      requires AllFound(rel.schema, names) && result.schema == ResultSchema(rel.schema, names)
      ensures forall i :: 0 <= i < |result.schema| ==> ColumnOf(rel.schema, result.schema[i].name) < |rel.schema|
    {
      forall i | 0 <= i < |result.schema|
        ensures ColumnOf(rel.schema, result.schema[i].name) < |rel.schema|
      {
        assert result.schema[i] == rel.schema[ColumnOf(rel.schema, names[i])];
      }
    }

    /** db_get_value: value `col` of the row in the result buffer. */
    method GetValue(col: nat) returns (status: Storage.Status, value: long)
      requires Ready()
      ensures status == if col < |names| then DbOk else LimitError
      ensures col < |names| ==> col < |result.schema| && value == ValueAt(result.schema, resultRow[..], col)
    {
      hide RowLength, MapIs, Instance.Valid, Relation.Valid, AllFound, ToSet, PredVars, PredCode;
      value := 0;
      if col >= |names| {
        return LimitError, 0;
      }
      var to := result.schema;
      var buf, i := 0, 0;
      SumStart(to);
      while i < col
        invariant i <= col && buf == Offset(to, i)
      {
        OffsetsGrow(to, i);
        buf := buf + ElementSize(to[i].domain);
        i := i + 1;
      }
      OffsetsGrow(to, col);
      value := Decode(to[col].domain, resultRow[buf..buf + ElementSize(to[col].domain)]);
      assert resultRow[..][buf..buf + ElementSize(to[col].domain)] == resultRow[buf..buf + ElementSize(to[col].domain)];
      status := DbOk;
    }
  }

  // ----- Whole queries -----

  /** The attribute list of a query: a name, and whether it is there for the predicate only. */
  type AttributeList = seq<(string, bool)>

  function NamesOf(attributes: AttributeList): (names: seq<string>)
    ensures |names| == |attributes| && forall i :: 0 <= i < |names| ==> names[i] == attributes[i].0
  {
    if attributes == [] then [] else NamesOf(attributes[..|attributes| - 1]) + [attributes[|attributes| - 1].0]
  }

  /** Some attribute of the list is not an attribute of the relation. */
  predicate NamesUnknown(schema: seq<Attribute>, attributes: AttributeList) {
    exists i :: 0 <= i < |attributes| && !Has(schema, attributes[i].0)
  }

  lemma FoundUnlessUnknown(schema: seq<Attribute>, attributes: AttributeList)
    ensures AllFound(schema, NamesOf(attributes)) <==> !NamesUnknown(schema, attributes)
  {
    hide ColumnOf, Has;
    var names := NamesOf(attributes);
    forall i | 0 <= i < |attributes|
      ensures ColumnOf(schema, names[i]) < |schema| <==> Has(schema, attributes[i].0)
    {
      ColumnIs(schema, names[i]);
    }
  }

  predicate NeedsMore(attributes: AttributeList) {
    exists i :: 0 <= i < |attributes| && attributes[i].1
  }

  lemma NoAttributes(schema: seq<Attribute>, names: seq<string>)
    ensures AllFound(schema, names[..0]) && ResultSchema(schema, names[..0]) == []
  {
  }

  lemma NextAttribute(schema: seq<Attribute>, names: seq<string>, i: nat)
    requires i < |names| && AllFound(schema, names[..i])
    ensures ColumnOf(schema, names[i]) == |schema| ==> !AllFound(schema, names)
    ensures ColumnOf(schema, names[i]) < |schema| ==>
      && AllFound(schema, names[..i + 1])
      && ResultSchema(schema, names[..i + 1]) == ResultSchema(schema, names[..i]) + [schema[ColumnOf(schema, names[i])]]
  {
    hide *;
    assert names[..i + 1] == names[..i] + [names[i]];
    OneMore(schema, names[..i], names[i]);
    if ColumnOf(schema, names[i]) == |schema| {
      NotAllFound(schema, names, i);
    }
  }

  lemma NotAllFound(schema: seq<Attribute>, names: seq<string>, i: nat)
    requires i < |names| && ColumnOf(schema, names[i]) == |schema|
    ensures !AllFound(schema, names)
  {
    hide ColumnOf;
  }

  lemma OneMore(schema: seq<Attribute>, names: seq<string>, name: string)
    requires AllFound(schema, names)
    ensures ColumnOf(schema, name) < |schema| ==>
      && AllFound(schema, names + [name])
      && ResultSchema(schema, names + [name]) == ResultSchema(schema, names) + [schema[ColumnOf(schema, name)]]
  {
    hide ColumnOf;
    assert (names + [name])[..|names|] == names;
  }

  /** The loop of relation_select: the attributes of the result, and the number of those that
      are not for the predicate only. */
  method ResultAttributes(schema: seq<Attribute>, attributes: AttributeList) returns (status: Storage.Status, to: seq<Attribute>, normal: nat)
    ensures status == if AllFound(schema, NamesOf(attributes)) then DbOk else NameError
    ensures status == DbOk ==> to == ResultSchema(schema, NamesOf(attributes)) && normal <= |to|
    ensures status == DbOk ==> (normal < |to| <==> NeedsMore(attributes))
    ensures status == DbOk ==> (normal == 0 <==> forall i :: 0 <= i < |attributes| ==> attributes[i].1)
  {
    hide AllFound, ResultSchema, ColumnOf, NamesOf, RowLength;
    var names := NamesOf(attributes);
    to, normal := [], 0;
    var i := 0;
    NoAttributes(schema, names);
    while i < |attributes|
      invariant 0 <= i <= |attributes| && AllFound(schema, names[..i]) && to == ResultSchema(schema, names[..i])
      invariant 0 <= normal <= i && (normal < i <==> exists k :: 0 <= k < i && attributes[k].1)
      invariant normal == 0 <==> forall k :: 0 <= k < i ==> attributes[k].1
    {
      var c := AttributeFind(schema, attributes[i].0);
      NextAttribute(schema, names, i);
      if c == |schema| {
        return NameError, [], 0;
      }
      to := to + [schema[c]];
      if !attributes[i].1 {
        normal := normal + 1;
      }
      i := i + 1;
    }
    assert names[..i] == names;
    status := DbOk;
  }

  /** relation_select, without aggregation: a query that needs an attribute for its predicate
      only is refused. */
  method RelationSelect(rel: Relation, attributes: AttributeList, hasWhere: bool, where: Instance, ghost q: Pred, inverse: bool,
                        assign: bool, indexed: seq<bool>, unique: seq<bool>)
    returns (status: Storage.Status, query: Query?)
    requires rel.Valid() && rel.schema != [] && where.Valid() && where.ip == 0
    requires exists i :: 0 <= i < |attributes| && !attributes[i].1
    requires hasWhere ==>
      && where.text == PredCode(q, where.names) && PredVars(q) <= ToSet(where.names) && PredVars(q) <= ToSet(NamesOf(attributes))
      && Room(where.names, ToSet(NamesOf(attributes)))
    requires |indexed| == |unique| == |rel.schema|
    requires hasWhere ==> forall j :: 0 <= j < |rel.schema| && indexed[j] ==> IndexFits(rel, where, q, inverse, j)
    modifies where`ip
    ensures status == if NamesUnknown(rel.schema, attributes) then NameError
                      else if NeedsMore(attributes) then RelationalError
                      else DbOk
    ensures status == DbOk ==>
      && query != null && fresh(query) && fresh(query.result) && fresh(query.resultRow) && (query.search != null ==> fresh(query.search) && true in indexed)
      && query.rel == rel && query.where == where && query.names == NamesOf(attributes) && query.assign == assign
      && query.T() == (if hasWhere then Where(q, !inverse) else Everything) && query.result.file == []
      && query.Ready() && query.Driven() && query.Position() == 0
  {
    query := null;
    FoundUnlessUnknown(rel.schema, attributes);
    var to, normal;
    status, to, normal := ResultAttributes(rel.schema, attributes);
    if status != DbOk {
      return;
    }
    if normal > 0 && |to| > normal {
      return RelationalError, null;
    }
    hide *;
    var result := new Relation(to);
    query := new Query(rel, result, NamesOf(attributes), hasWhere, where, q, inverse, assign);
    TestIs(query);
    status := query.Prepare(indexed, unique);
  }

  lemma TestIs(query: Query)
    ensures query.T() == if query.hasWhere then Where(query.q, !query.inverse) else Everything
  {
  }

  /** A SELECT from its start to its end: the tuples are the rows that a scan with the clause
      finds, under the attributes of the result, also when an index is used. */
  method SelectRows(rel: Relation, attributes: AttributeList, where: Instance, ghost q: Pred, indexed: seq<bool>, unique: seq<bool>)
    returns (status: Storage.Status, tuples: seq<seq<byte>>)
    requires rel.Valid() && rel.schema != [] && where.Valid() && where.ip == 0
    requires exists i :: 0 <= i < |attributes| && !attributes[i].1
    requires where.text == PredCode(q, where.names) && PredVars(q) <= ToSet(where.names) && PredVars(q) <= ToSet(NamesOf(attributes))
      && Room(where.names, ToSet(NamesOf(attributes)))
    requires |indexed| == |unique| == |rel.schema|
    requires forall j :: 0 <= j < |rel.schema| && indexed[j] ==> IndexFits(rel, where, q, false, j)
    modifies where`ip, where`values
    ensures status == NameError <==> NamesUnknown(rel.schema, attributes)
    ensures status == RelationalError <==> !NamesUnknown(rel.schema, attributes) && NeedsMore(attributes)
    ensures !NamesUnknown(rel.schema, attributes) && !NeedsMore(attributes) ==>
      && AllFound(rel.schema, NamesOf(attributes)) && (status == DbFinished || (status == IndexError && tuples == [])) && Fits(rel.schema, rel.inserted)
      && Collected(ResultSchema(rel.schema, NamesOf(attributes)),
                   Selected(rel.schema, NamesOf(attributes), rel.inserted,
                            Matching(rel.schema, NamesOf(attributes), Where(q, true), rel.inserted)),
                   tuples, [], false)
  {
    hide *;
    FoundUnlessUnknown(rel.schema, attributes);
    var query;
    tuples := [];
    status, query := RelationSelect(rel, attributes, true, where, q, false, false, indexed, unique);
    if status != DbOk {
      return;
    }
    status, tuples := query.Run(_ => 1);
    NothingStored();
  }

  lemma NothingStored()
    ensures forall to, results, tuples, stored :: Collected(to, results, tuples, stored, false) ==> stored == []
  {
  }

  // ----- REMOVE -----

  const AQL_ATTRIBUTE_LIMIT: nat := 5

  /** aql_add_attribute: a list that is full stays as it is. */
  function AddAttribute(a: AttributeList, name: string): AttributeList {
    if |a| == AQL_ATTRIBUTE_LIMIT then a else a + [(name, false)]
  }

  /** The attributes that a REMOVE copies from the relation. */
  function FirstAttributes(schema: seq<Attribute>): seq<Attribute> {
    if |schema| <= AQL_ATTRIBUTE_LIMIT then schema else schema[..AQL_ATTRIBUTE_LIMIT]
  }

  function AllAttributes(schema: seq<Attribute>): (a: AttributeList)
    ensures |a| == |FirstAttributes(schema)| && forall i :: 0 <= i < |a| ==> a[i] == (schema[i].name, false)
  {
    if schema == [] then [] else AddAttribute(AllAttributes(schema[..|schema| - 1]), schema[|schema| - 1].name)
  }

  /** The loop of aql_execute for a REMOVE, which ignores whether an attribute was added. */
  method CopyAttributes(schema: seq<Attribute>) returns (a: AttributeList)
    ensures a == AllAttributes(schema)
  {
    a := [];
    var i := 0;
    while i < |schema|
      invariant 0 <= i <= |schema| && a == AllAttributes(schema[..i])
    {
      assert schema[..i + 1][..i] == schema[..i];
      if |a| < AQL_ATTRIBUTE_LIMIT {
        a := a + [(schema[i].name, false)];
      }
      i := i + 1;
    }
    assert schema[..i] == schema;
  }

  predicate DistinctNames(schema: seq<Attribute>) {
    forall i, j :: 0 <= i < j < |schema| ==> schema[i].name != schema[j].name
  }

  lemma DistinctColumns(schema: seq<Attribute>)
    requires DistinctNames(schema)
    ensures forall j :: 0 <= j < |schema| ==> ColumnOf(schema, schema[j].name) == j
  {
    hide ColumnOf;
    forall j | 0 <= j < |schema|
      ensures ColumnOf(schema, schema[j].name) == j
    {
      ColumnIs(schema, schema[j].name);
    }
  }

  /** What a REMOVE keeps of a row. */
  function Cut(values: Row): Row {
    if |values| <= AQL_ATTRIBUTE_LIMIT then values else values[..AQL_ATTRIBUTE_LIMIT]
  }

  /** What a REMOVE keeps of the rows at some positions. */
  function CutRows(rows: seq<Row>, ids: seq<nat>): (r: seq<Row>)
    requires Within(ids, |rows|)
    ensures |r| == |ids| && forall i :: 0 <= i < |ids| ==> r[i] == Cut(rows[ids[i]])
  {
    if ids == [] then [] else CutRows(rows, ids[..|ids| - 1]) + [Cut(rows[ids[|ids| - 1]])]
  }

  /** The rows at some positions. */
  function RowsAt(rows: seq<Row>, ids: seq<nat>): (r: seq<Row>)
    requires Within(ids, |rows|)
    ensures |r| == |ids| && forall i :: 0 <= i < |ids| ==> r[i] == rows[ids[i]]
  {
    if ids == [] then [] else RowsAt(rows, ids[..|ids| - 1]) + [rows[ids[|ids| - 1]]]
  }

  /** A REMOVE keeps whole rows if and only if the relation has at most five attributes; with
      more, every row that is kept loses its columns from the sixth on. */
  lemma KeepsWholeRows(schema: seq<Attribute>, rows: seq<Row>, ids: seq<nat>)
    requires Fits(schema, rows) && Within(ids, |rows|) && ids != []
    ensures CutRows(rows, ids) == RowsAt(rows, ids) <==> |schema| <= 5
    ensures FirstAttributes(schema) == schema <==> |schema| <= 5
    ensures |schema| > 5 ==>
      forall i :: 0 <= i < |ids| ==> CutRows(rows, ids)[i] == rows[ids[i]][..5]
  {
    if |schema| > AQL_ATTRIBUTE_LIMIT {
      assert |Cut(rows[ids[0]])| < |rows[ids[0]]|;
      assert CutRows(rows, ids)[0] != RowsAt(rows, ids)[0];
    }
  }

  /** The copied attributes are found, and under them a row is cut. */
  lemma CopiedRows(schema: seq<Attribute>, rows: seq<Row>, ids: seq<nat>)
    requires DistinctNames(schema) && Fits(schema, rows) && Within(ids, |rows|)
    ensures var names := NamesOf(AllAttributes(schema));
      && AllFound(schema, names) && ResultSchema(schema, names) == FirstAttributes(schema) && Selected(schema, names, rows, ids) == CutRows(rows, ids)
  {
    hide RowLength, NamesOf, AllAttributes, ColumnOf, CutRows, Selected, Project, ResultSchema;
    DistinctColumns(schema);
    var names := NamesOf(AllAttributes(schema));
    assert forall i :: 0 <= i < |names| ==> names[i] == schema[i].name && ColumnOf(schema, schema[i].name) == i;
    forall i | 0 <= i < |ids|
      ensures Project(schema, names, rows[ids[i]]) == Cut(rows[ids[i]])
    {
    }
  }

  /** REMOVE without an index: the file that replaces the relation's holds, in their order,
      the first five columns of the rows on which the clause is false, and nothing else. */
  method Remove(rel: Relation, where: Instance, ghost q: Pred, takes: nat -> nat) returns (status: Storage.Status, file: seq<byte>)
    requires rel.Valid() && rel.schema != [] && where.Valid() && where.ip == 0 && DistinctNames(rel.schema)
    requires where.text == PredCode(q, where.names) && PredVars(q) <= ToSet(where.names)
    requires PredVars(q) <= ToSet(NamesOf(AllAttributes(rel.schema))) && Room(where.names, ToSet(NamesOf(AllAttributes(rel.schema))))
    modifies where`ip, where`values
    ensures status == DbFinished && AllFound(rel.schema, NamesOf(AllAttributes(rel.schema))) && Fits(rel.schema, rel.inserted)
    ensures var ids := Matching(rel.schema, NamesOf(AllAttributes(rel.schema)), Where(q, false), rel.inserted);
      var schema, kept := FirstAttributes(rel.schema), CutRows(rel.inserted, ids);
      Fits(schema, kept) && schema != [] && file == FileOf(schema, kept) && RowsIn(schema, |file|) == |kept|
    ensures |rel.schema| <= AQL_ATTRIBUTE_LIMIT ==>
      var kept := RowsAt(rel.inserted, Matching(rel.schema, NamesOf(AllAttributes(rel.schema)), Where(q, false), rel.inserted));
      Fits(rel.schema, kept) && file == FileOf(rel.schema, kept) && RowsIn(rel.schema, |file|) == |kept|
  {
    hide *;
    var names := CopyAttributes(rel.schema);
    var no := seq(|rel.schema|, _ => false);
    AllNeeded(rel);
    FoundUnlessUnknown(rel.schema, names);
    assert !names[0].1;
    var query;
    status, query := RelationSelect(rel, names, true, where, q, true, true, no, no);
    ghost var ids := Matching(rel.schema, NamesOf(names), Where(q, false), rel.inserted);
    CopiedRows(rel.schema, rel.inserted, ids);
    var tuples;
    status, tuples := query.Run(takes);
    RemoveStores(FirstAttributes(rel.schema), CutRows(rel.inserted, ids));
    if |rel.schema| <= AQL_ATTRIBUTE_LIMIT {
      WholeIfSmall(rel.schema, rel.inserted, ids);
    }
    file := query.result.file;
  }

  lemma WholeIfSmall(schema: seq<Attribute>, rows: seq<Row>, ids: seq<nat>)
    requires Fits(schema, rows) && Within(ids, |rows|) && |schema| <= AQL_ATTRIBUTE_LIMIT
    ensures FirstAttributes(schema) == schema && CutRows(rows, ids) == RowsAt(rows, ids)
  {
  }

  lemma AllNeeded(rel: Relation)
    requires rel.Valid() && DistinctNames(rel.schema) && rel.schema != []
    ensures AllFound(rel.schema, NamesOf(AllAttributes(rel.schema))) && !NeedsMore(AllAttributes(rel.schema)) && Fits(rel.schema, rel.inserted)
    ensures FirstAttributes(rel.schema) != [] && |AllAttributes(rel.schema)| == |FirstAttributes(rel.schema)|
  {
    CopiedRows(rel.schema, rel.inserted, []);
  }

  lemma RemoveStores(schema: seq<Attribute>, kept: seq<Row>)
    requires schema != []
    ensures forall tuples, stored :: Collected(schema, kept, tuples, stored, true) ==>
      Fits(schema, kept) && stored == FileOf(schema, kept) && RowsIn(schema, |stored|) == |kept|
  {
    if Fits(schema, kept) {
      FileLength(schema, kept);
      RowsInFile(schema, |kept|);
    }
    hide RowsIn, RowLength, FileOf;
  }
}
