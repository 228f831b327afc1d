/** Range derivation (lvm.c): a WHERE clause is abstracted to one interval for each
    variable, and an index search visits only the rows inside an interval. */
module Derivation {
  import opened Lvm

  const VARIABLE_IDS: nat := 4 // LVM_MAX_VARIABLE_ID, which is AQL_ATTRIBUTE_LIMIT - 1

  datatype Interval = Interval(derived: bool, min: long, max: long)

  const NONE := Interval(false, 0, 0)

  type Box = s: seq<Interval> | |s| == VARIABLE_IDS witness [NONE, NONE, NONE, NONE]

  const EMPTY_BOX: Box := [NONE, NONE, NONE, NONE]

  datatype Outcome = Derived(box: Box) | Failed

  // ----- What is derived -----

  function Max(a: long, b: long): long {
    if a > b then a else b
  }

  function Min(a: long, b: long): long {
    if a < b then a else b
  }

  /** The interval of a variable in a conjunction. */
  function Meet(a: Interval, b: Interval): Interval {
    if !a.derived then b
    else if !b.derived then a
    else Interval(true, Max(a.min, b.min), Min(a.max, b.max))
  }

  /** The interval of a variable in a disjunction; a variable that only one side
      constrains keeps that side's interval. */
  function Hull(a: Interval, b: Interval): Interval {
    if !a.derived then b
    else if !b.derived then a
    else Interval(true, Min(a.min, b.min), Max(a.max, b.max))
  }

  function Combine(k: Connective, a: Interval, b: Interval): Interval {
    if k == And then Meet(a, b) else Hull(a, b)
  }

  function CombineBoxes(k: Connective, a: Box, b: Box): Box {
    seq(VARIABLE_IDS, i requires 0 <= i < VARIABLE_IDS => Combine(k, a[i], b[i]))
  }

  /** The interval that `variable op value` stands for. */
  function Bounds(op: CmpOp, value: long): Interval
    requires op != Neq
  {
    match op
    case Eq => Interval(true, value, value)
    case Ge => Interval(true, Wrap(value as int + 1), LONG_MAX)
    case Geq => Interval(true, value, LONG_MAX)
    case Le => Interval(true, LONG_MIN, Wrap(value as int - 1))
    case Leq => Interval(true, LONG_MIN, value)
  }

  /** Reading the identifier out of an operand that holds a long reads its lowest byte. */
  function IdOf(o: CodeOperand): nat {
    match o
    case VariableOperand(id) => id
    case LongOperand(l) => l % 256
  }

  function DeriveComparison(op: CmpOp, a: CodeOperand, b: CodeOperand): Outcome {
    if a.VariableOperand? && b.VariableOperand? then Failed
    else
      var id := if a.VariableOperand? then a.id else IdOf(b);
      var value := if a.VariableOperand? then b.l else a.l;
      if id >= VARIABLE_IDS || op == Neq then Failed
      else Derived(EMPTY_BOX[id := Bounds(op, value)])
  }

  function Derive(q: Pred, names: seq<string>): Outcome {
    match q
    case Not(_) => Failed
    case Conn(k, a, b) =>
      var d1, d2 := Derive(a, names), Derive(b, names);
      if d1.Failed? || d2.Failed? then Failed else Derived(CombineBoxes(k, d1.box, d2.box))
    case Cmp(op, l, r) =>
      if l.Leaf? && r.Leaf? then DeriveComparison(op, OperandCode(l.o, names), OperandCode(r.o, names))
      else Failed
  }

  // ----- The derivation procedure -----

  /** create_intersection and create_union, which differ in the branch for two derived intervals. */
  method CombineDerivations(k: Connective, result: array<Interval>, d1: array<Interval>, d2: array<Interval>)
    requires result.Length == d1.Length == d2.Length == VARIABLE_IDS
    requires result != d1 && result != d2 && result[..] == EMPTY_BOX
    modifies result
    ensures result[..] == CombineBoxes(k, d1[..], d2[..])
  {
    for i := 0 to VARIABLE_IDS
      invariant forall j :: 0 <= j < i ==> result[j] == Combine(k, d1[j], d2[j])
      invariant forall j :: i <= j < VARIABLE_IDS ==> result[j] == NONE
    {
      if !d1[i].derived && !d2[i].derived {
        // an interval that was not derived holds zeros
        result[i] := d2[i];
      } else if d1[i].derived && !d2[i].derived {
        result[i] := Interval(true, d1[i].min, d1[i].max);
      } else if !d1[i].derived && d2[i].derived {
        result[i] := Interval(true, d2[i].min, d2[i].max);
      } else if k == And {
        var min := if d1[i].min > d2[i].min then d1[i].min else d2[i].min;
        var max := if d1[i].max < d2[i].max then d1[i].max else d2[i].max;
        result[i] := Interval(true, min, max);
      } else {
        var min := if d1[i].min > d2[i].min then d2[i].min else d1[i].min;
        var max := if d1[i].max < d2[i].max then d2[i].max else d1[i].max;
        result[i] := Interval(true, min, max);
      }
    }
  }

  /** The operand loop of derive_relation: only plain operands are accepted. */
  method GetOperands(p: Instance, ghost left: Expr, ghost right: Expr) returns (status: Status, operand: seq<CodeOperand>)
    requires p.Valid() && p.At(p.ip, ExprCode(left, p.names) + ExprCode(right, p.names))
    modifies p`ip
    ensures status == if left.Leaf? && right.Leaf? then TRUE else DERIVATION_ERROR
    ensures status == TRUE ==> operand == [OperandCode(left.o, p.names), OperandCode(right.o, p.names)]
    ensures status == TRUE ==> p.ip == old(p.ip) + |ExprCode(left, p.names) + ExprCode(right, p.names)|
  {
    hide OperandCode;
    ghost var start, args := p.ip, [left, right];
    ghost var lc, rc := ExprCode(left, p.names), ExprCode(right, p.names);
    p.SplitBody(start, lc, rc);
    operand := [];
    var i := 0;
    while i < 2
      invariant 0 <= i <= 2 && |operand| == i
      invariant forall j :: 0 <= j < i ==> args[j].Leaf? && operand[j] == OperandCode(args[j].o, p.names)
      invariant p.ip == start + (if i == 0 then 0 else if i == 1 then |lc| else |lc| + |rc|)
    {
      ghost var here, c := p.ip, ExprCode(args[i], p.names);
      assert p.code[here] == c[0] && p.code[here + 1] == c[1];
      var t := p.GetSlot();
      if t != TypeSlot(OPERAND) {
        assert args[i] == left || args[i] == right;
        return DERIVATION_ERROR, [];
      }
      var o := p.GetSlot();
      operand := operand + [o.o];
      i := i + 1;
    }
    assert operand == [operand[0], operand[1]];
    status := TRUE;
  }

  /** The comparison branch of derive_relation, after the header has been read. */
  method DeriveOperands(p: Instance, local: array<Interval>, op: CmpOp, ghost q: Pred) returns (status: Status)
    requires p.Valid() && q.Cmp? && op == q.op && p.At(p.ip, Instance.Body(q, p.names))
    requires local.Length == VARIABLE_IDS && local[..] == EMPTY_BOX
    modifies p`ip, local
    ensures status == if Derive(q, p.names).Failed? then DERIVATION_ERROR else TRUE
    ensures status == TRUE ==>
              local[..] == Derive(q, p.names).box && p.ip == old(p.ip) + |Instance.Body(q, p.names)|
  {
    assert Instance.Body(q, p.names) == ExprCode(q.left, p.names) + ExprCode(q.right, p.names);
    hide ExprCode, OperandCode, Instance.Body, Instance.At, Instance.Valid;
    var r, operand := GetOperands(p, q.left, q.right);
    if LvmError(r) {
      return DERIVATION_ERROR;
    }
    status := DeriveBounds(local, op, operand[0], operand[1]);
  }

  method DeriveBounds(local: array<Interval>, op: CmpOp, first: CodeOperand, second: CodeOperand) returns (status: Status)
    requires local.Length == VARIABLE_IDS && local[..] == EMPTY_BOX
    modifies local
    ensures status == if DeriveComparison(op, first, second).Failed? then DERIVATION_ERROR else TRUE
    ensures status == TRUE ==> local[..] == DeriveComparison(op, first, second).box
  {
    if first.VariableOperand? && second.VariableOperand? {
      return DERIVATION_ERROR;
    }
    var variableId: nat, value: long;
    if first.VariableOperand? {
      variableId, value := first.id, second.l;
    } else {
      variableId, value := IdOf(second), first.l;
    }
    if variableId >= VARIABLE_IDS {
      return DERIVATION_ERROR;
    }
    var min: long, max: long := LONG_MIN, LONG_MAX;
    match op {
      case Eq => min, max := value, value;
      case Ge => min := Wrap(value as int + 1);
      case Geq => min := value;
      case Le => max := Wrap(value as int - 1);
      case Leq => max := value;
      case Neq => return DERIVATION_ERROR;
    }
    local[variableId] := Interval(true, min, max);
    status := TRUE;
  }

  lemma ConnectiveBody(q: Pred, names: seq<string>)
    requires q.Conn?
    ensures Instance.Body(q, names) == PredCode(q.first, names) + PredCode(q.second, names)
  {
  }

  /** The connective branch of derive_relation: derive both sides into boxes of their own
      and combine them. */
  method DeriveConnective(p: Instance, local: array<Interval>, k: Connective, ghost q: Pred) returns (status: Status)
    requires p.Valid() && q.Conn? && k == q.c && p.At(p.ip, Instance.Body(q, p.names))
    requires local.Length == VARIABLE_IDS && local[..] == EMPTY_BOX
    modifies p`ip, local
    ensures status == if Derive(q, p.names).Failed? then DERIVATION_ERROR else TRUE
    ensures status == TRUE ==>
              local[..] == Derive(q, p.names).box && p.ip == old(p.ip) + |Instance.Body(q, p.names)|
    decreases q, 0
  {
    hide PredCode, Instance.Body, Instance.Valid;
    ConnectiveBody(q, p.names);
    p.SplitBody(p.ip, PredCode(q.first, p.names), PredCode(q.second, p.names));
    var d1 := new Interval[VARIABLE_IDS](_ => NONE);
    var d2 := new Interval[VARIABLE_IDS](_ => NONE);
    assert d1[..] == EMPTY_BOX && d2[..] == EMPTY_BOX;
    status := DeriveRelation(p, d1, q.first);
    if LvmError(status) {
      return DERIVATION_ERROR;
    }
    status := DeriveRelation(p, d2, q.second);
    if LvmError(status) {
      return DERIVATION_ERROR;
    }
    CombineDerivations(k, local, d1, d2);
    status := TRUE;
  }

  /** derive_relation, on the code of `q` at the instruction pointer: it fails exactly when
      nothing is derived from `q`, and otherwise fills in the derived box. */
  method DeriveRelation(p: Instance, local: array<Interval>, ghost q: Pred) returns (status: Status)
    requires p.Valid() && p.At(p.ip, PredCode(q, p.names))
    requires local.Length == VARIABLE_IDS && local[..] == EMPTY_BOX
    modifies p`ip, local
    ensures status == if Derive(q, p.names).Failed? then DERIVATION_ERROR else TRUE
    ensures status == TRUE ==>
              local[..] == Derive(q, p.names).box && p.ip == old(p.ip) + |PredCode(q, p.names)|
    decreases q, 1
  {
    ghost var start, c := p.ip, PredCode(q, p.names);
    ghost var body := Instance.Body(q, p.names);
    assert c == c[..2] + body;
    p.SplitBody(start, c[..2], body);
    assert p.code[start] == c[0] && p.code[start + 1] == c[1];
    var t := p.GetSlot();
    var o := p.GetSlot();
    assert o == OpSlot(Instance.HeaderOf(q)) && |c| == 2 + |body|;
    hide PredCode, Instance.Body, Instance.Valid, Instance.At;
    if o.op.ConnOperator? || o.op.NotOperator? {
      if o.op.NotOperator? {
        return DERIVATION_ERROR;
      }
      status := DeriveConnective(p, local, o.op.k, q);
    } else {
      status := DeriveOperands(p, local, o.op.c, q);
    }
  }

  // ----- What the derivation promises -----

  /** The variables that the clause compares with constants. */
  function Constrained(q: Pred): set<string> {
    match q
    case Cmp(_, Leaf(Var(n)), _) => {n}
    case Cmp(_, _, _) => {}
    case Conn(_, a, b) => Constrained(a) + Constrained(b)
    case Not(a) => Constrained(a)
  }

  /** Clauses of `variable op constant` joined by AND and OR, where both sides of every OR
      constrain the same variables. */
  predicate Derivable(q: Pred) {
    match q
    case Cmp(op, Leaf(Var(_)), Leaf(Const(_))) => op != Neq
    case Cmp(_, _, _) => false
    case Conn(k, a, b) => Derivable(a) && Derivable(b) && (k == Or ==> Constrained(a) == Constrained(b))
    case Not(_) => false
  }

  /** No value satisfies the comparison, and the bound that is derived from it wraps around. */
  predicate Wraps(op: CmpOp, c: long) {
    (op == Ge && c == LONG_MAX) || (op == Le && c == LONG_MIN)
  }

  predicate NoneWraps(q: Pred) {
    match q
    case Cmp(op, _, Leaf(Const(c))) => !Wraps(op, c)
    case Cmp(_, _, _) => true
    case Conn(_, a, b) => NoneWraps(a) && NoneWraps(b)
    case Not(a) => NoneWraps(a)
  }

  predicate Conjunctive(q: Pred) {
    q.Cmp? || (q.Conn? && q.c == And && Conjunctive(q.first) && Conjunctive(q.second))
  }

  predicate Inside(v: int, i: Interval) {
    i.min <= v <= i.max
  }

  function BoxOf(q: Pred, names: seq<string>): Box {
    var d := Derive(q, names);
    if d.Derived? then d.box else EMPTY_BOX
  }

  /** An assignment lies in the box: each derived interval holds the value of its variable. */
  ghost predicate InBox(box: Box, names: seq<string>, env: Env) {
    forall n :: n in names && Find(names, n) < VARIABLE_IDS && box[Find(names, n)].derived ==>
      Inside(Lookup(env, n), box[Find(names, n)])
  }

  lemma FindIn(names: seq<string>, n: string)
    requires n in names
    ensures Find(names, n) < |names|
  {
    assert names + [] == names;
    FindStable(names, [], n);
  }

  /** Within the fragment the derivation succeeds, and it derives intervals for exactly
      the constrained variables. */
  lemma {:induction false} DerivesConstrained(q: Pred, names: seq<string>)
    requires Derivable(q) && PredVars(q) <= ToSet(names) && |names| <= MAX_VARIABLES
    ensures Derive(q, names).Derived?
    ensures forall n :: n in names ==> (BoxOf(q, names)[Find(names, n)].derived <==> n in Constrained(q))
  {
    match q
    case Cmp(op, Leaf(Var(v)), Leaf(Const(c))) =>
      FindIn(names, v);
    case Conn(k, a, b) =>
      DerivesConstrained(a, names);
      DerivesConstrained(b, names);
  }

  /** Soundness: an assignment that makes the clause true lies inside every derived interval. */
  lemma {:induction false} DerivationSound(q: Pred, names: seq<string>, env: Env)
    requires Derivable(q) && PredVars(q) <= ToSet(names) && |names| <= MAX_VARIABLES
    requires Holds(q, env)
    ensures Derive(q, names).Derived? && InBox(BoxOf(q, names), names, env)
  {
    DerivesConstrained(q, names);
    match q
    case Cmp(op, Leaf(Var(v)), Leaf(Const(c))) =>
      FindIn(names, v);
    case Conn(And, a, b) =>
      DerivationSound(a, names, env);
      DerivationSound(b, names, env);
    case Conn(Or, a, b) =>
      DerivesConstrained(a, names);
      DerivesConstrained(b, names);
      if Holds(a, env) {
        DerivationSound(a, names, env);
      } else {
        DerivationSound(b, names, env);
      }
  }

  /** Without OR and wrapped bounds, the box holds no assignment but those that make the clause
      true. */
  lemma {:induction false} BoxSatisfies(q: Pred, names: seq<string>, env: Env)
    requires Derivable(q) && Conjunctive(q) && NoneWraps(q) && PredVars(q) <= ToSet(names) && |names| <= MAX_VARIABLES
    requires InBox(BoxOf(q, names), names, env)
    ensures Holds(q, env)
  {
    DerivesConstrained(q, names);
    match q
    case Cmp(op, Leaf(Var(v)), Leaf(Const(c))) =>
      FindIn(names, v);
      assert Inside(Lookup(env, v), Bounds(op, c));
    case Conn(And, a, b) =>
      DerivesConstrained(a, names);
      DerivesConstrained(b, names);
      BoxNarrows(a, b, names, env);
      BoxSatisfies(a, names, env);
      BoxSatisfies(b, names, env);
  }

  lemma {:induction false} WrappedFails(q: Pred, env: Env)
    requires Derivable(q) && Conjunctive(q) && !NoneWraps(q)
    ensures !Holds(q, env)
  {
    match q
    case Cmp(op, Leaf(Var(v)), Leaf(Const(c))) =>
    case Conn(And, a, b) =>
      if NoneWraps(a) {
        WrappedFails(b, env);
      } else {
        WrappedFails(a, env);
      }
  }

  /** Exactness: without OR, the box holds no assignment but those that make the clause true,
      if and only if no bound has wrapped around or the box holds nothing. */
  lemma DerivationExact(q: Pred, names: seq<string>)
    requires Derivable(q) && Conjunctive(q) && PredVars(q) <= ToSet(names) && |names| <= MAX_VARIABLES
    ensures (forall env :: InBox(BoxOf(q, names), names, env) ==> Holds(q, env)) <==>
            NoneWraps(q) || (forall env :: !InBox(BoxOf(q, names), names, env))
  {
    forall env | InBox(BoxOf(q, names), names, env)
      ensures Holds(q, env) <==> NoneWraps(q)
    {
      if NoneWraps(q) {
        BoxSatisfies(q, names, env);
      } else {
        WrappedFails(q, env);
      }
    }
  }

  lemma BoxNarrows(a: Pred, b: Pred, names: seq<string>, env: Env)
    requires Derive(a, names).Derived? && Derive(b, names).Derived? && |names| <= MAX_VARIABLES
    requires InBox(BoxOf(Conn(And, a, b), names), names, env)
    ensures InBox(BoxOf(a, names), names, env) && InBox(BoxOf(b, names), names, env)
  {
    forall n | n in names
      ensures Derive(a, names).box[Find(names, n)].derived ==> Inside(Lookup(env, n), Derive(a, names).box[Find(names, n)])
      ensures Derive(b, names).box[Find(names, n)].derived ==> Inside(Lookup(env, n), Derive(b, names).box[Find(names, n)])
    {
      FindIn(names, n);
      var i := Find(names, n);
      assert Derive(Conn(And, a, b), names).box[i] == Meet(Derive(a, names).box[i], Derive(b, names).box[i]);
    }
  }

  // ----- Where the derivation is not sound -----

  /** The box of a clause holds every assignment that makes the clause true. */
  ghost predicate SoundFor(q: Pred, names: seq<string>) {
    Derive(q, names).Derived? ==> forall env :: Holds(q, env) ==> InBox(BoxOf(q, names), names, env)
  }

  /** With the constant on the left the operand order is ignored, so the interval is right for
      an equality; otherwise only where it is the whole range or the clause is never true. */
  lemma ConstantOnTheLeft(op: CmpOp, c: long, v: string)
    ensures SoundFor(Cmp(op, Leaf(Const(c)), Leaf(Var(v))), [v]) <==>
            op == Eq || op == Neq || (op != Leq && c == LONG_MIN) || (op != Geq && c == LONG_MAX)
  {
    var q := Cmp(op, Leaf(Const(c)), Leaf(Var(v)));
    assert Find([v], v) == 0;
    if op != Neq {
      assert BoxOf(q, [v])[0] == Bounds(op, c);
      if !(op == Eq || (op != Leq && c == LONG_MIN) || (op != Geq && c == LONG_MAX)) {
        var x: long := if op == Le || op == Leq then c + 1 else c - 1;
        var env: Env := map[v := x];
        assert Holds(q, env) && Lookup(env, v) == x && v in [v];
        assert !InBox(BoxOf(q, [v]), [v], env);
      }
    }
  }

  /** The interval derived from a comparison leaves nothing out. */
  predicate WholeRange(op: CmpOp, c: long) {
    Wraps(op, c) || (op == Geq && c == LONG_MIN) || (op == Leq && c == LONG_MAX)
  }

  /** Two comparisons joined by OR are bounded soundly exactly when they constrain the same
      variable: otherwise each interval ignores the rows that satisfy the other side, if there
      are any and the interval leaves some out.  From `<>` nothing is derived. */
  lemma OrOfComparisons(op1: CmpOp, v1: string, c1: long, op2: CmpOp, v2: string, c2: long)
    ensures var q := Conn(Or, Cmp(op1, Leaf(Var(v1)), Leaf(Const(c1))), Cmp(op2, Leaf(Var(v2)), Leaf(Const(c2))));
            SoundFor(q, [v1, v2]) <==>
            op1 == Neq || op2 == Neq || v1 == v2 || ((Wraps(op1, c1) || WholeRange(op2, c2)) && (Wraps(op2, c2) || WholeRange(op1, c1)))
  {
    var a, b := Cmp(op1, Leaf(Var(v1)), Leaf(Const(c1))), Cmp(op2, Leaf(Var(v2)), Leaf(Const(c2)));
    var q := Conn(Or, a, b);
    var names := [v1, v2];
    if op1 == Neq || op2 == Neq {
      assert Derive(a, names).Failed? || Derive(b, names).Failed?;
    } else if v1 == v2 {
      assert Derivable(a) && Derivable(b) && Constrained(a) == {v1} == Constrained(b);
      assert PredVars(a) == {v1} == PredVars(b) && PredVars(q) <= ToSet(names);
      forall env | Holds(q, env)
        ensures InBox(BoxOf(q, names), names, env)
      {
        DerivationSound(q, names, env);
      }
    } else {
      OrOfTwo(op1, v1, c1, op2, v2, c2);
    }
  }

  /** A comparison of two constants constrains a variable as well: the one whose number is the
      lowest byte of the second constant.  For the first variable that is right only if the
      comparison is never true, or the interval leaves nothing out. */
  lemma ConstantsOnly(op: CmpOp, c: long, d: long, v: string)
    ensures SoundFor(Cmp(op, Leaf(Const(c)), Leaf(Const(d))), [v]) <==>
            op == Neq || d % 256 != 0 || !Compare(op, c, d) || WholeRange(op, c)
  {
    var q := Cmp(op, Leaf(Const(c)), Leaf(Const(d)));
    assert Find([v], v) == 0;
    if op != Neq && d % 256 < VARIABLE_IDS {
      assert Derive(q, [v]) == Derived(EMPTY_BOX[d % 256 := Bounds(op, c)]);
      if d % 256 == 0 && Compare(op, c, d) && !WholeRange(op, c) {
        var env: Env := map[v := Outside(op, c)];
        assert Holds(q, env) && Lookup(env, v) == Outside(op, c) && v in [v];
        assert !InBox(BoxOf(q, [v]), [v], env);
      } else if d % 256 == 0 && WholeRange(op, c) {
        forall env | Holds(q, env)
          ensures InBox(BoxOf(q, [v]), [v], env)
        {
          InBounds(op, c, Lookup(env, v));
        }
      }
    }
  }

  /** What is derived from two comparisons of different variables. */
  lemma OrBox(op1: CmpOp, v1: string, c1: long, op2: CmpOp, v2: string, c2: long)
    requires op1 != Neq && op2 != Neq && v1 != v2
    ensures var q := Conn(Or, Cmp(op1, Leaf(Var(v1)), Leaf(Const(c1))), Cmp(op2, Leaf(Var(v2)), Leaf(Const(c2))));
      && Derive(q, [v1, v2]).Derived? && Find([v1, v2], v1) == 0 && Find([v1, v2], v2) == 1
      && BoxOf(q, [v1, v2])[0] == Bounds(op1, c1) && BoxOf(q, [v1, v2])[1] == Bounds(op2, c2)
  {
    var a, b := Cmp(op1, Leaf(Var(v1)), Leaf(Const(c1))), Cmp(op2, Leaf(Var(v2)), Leaf(Const(c2)));
    var names := [v1, v2];
    assert Find(names, v1) == 0;
    assert names[1..] == [v2] && Find([v2], v2) == 0 && Find(names, v2) == 1;
    assert Derive(a, names) == Derived(EMPTY_BOX[0 := Bounds(op1, c1)]);
    assert Derive(b, names) == Derived(EMPTY_BOX[1 := Bounds(op2, c2)]);
  }

  lemma InBoxOfTwo(box: Box, v1: string, v2: string, env: Env)
    requires Find([v1, v2], v1) == 0 && Find([v1, v2], v2) == 1 && box[0].derived && box[1].derived
    ensures InBox(box, [v1, v2], env) <==> Inside(Lookup(env, v1), box[0]) && Inside(Lookup(env, v2), box[1])
  {
    assert v1 in [v1, v2] && v2 in [v1, v2];
  }

  lemma OrOfTwo(op1: CmpOp, v1: string, c1: long, op2: CmpOp, v2: string, c2: long)
    requires op1 != Neq && op2 != Neq && v1 != v2
    ensures var q := Conn(Or, Cmp(op1, Leaf(Var(v1)), Leaf(Const(c1))), Cmp(op2, Leaf(Var(v2)), Leaf(Const(c2))));
            SoundFor(q, [v1, v2]) <==> (Wraps(op1, c1) || WholeRange(op2, c2)) && (Wraps(op2, c2) || WholeRange(op1, c1))
  {
    var q := Conn(Or, Cmp(op1, Leaf(Var(v1)), Leaf(Const(c1))), Cmp(op2, Leaf(Var(v2)), Leaf(Const(c2))));
    var box := BoxOf(q, [v1, v2]);
    OrBox(op1, v1, c1, op2, v2, c2);
    hide BoxOf, Derive, InBox, Find, Inside, Compare, Bounds, Wraps, WholeRange;
    forall env
      ensures InBox(box, [v1, v2], env) <==> Inside(Lookup(env, v1), Bounds(op1, c1)) && Inside(Lookup(env, v2), Bounds(op2, c2))
    {
      InBoxOfTwo(box, v1, v2, env);
    }
    if !Wraps(op1, c1) && !WholeRange(op2, c2) {
      var env: Env := map[v1 := Satisfying(op1, c1), v2 := Outside(op2, c2)];
      assert Holds(q, env) && !InBox(box, [v1, v2], env);
    } else if !Wraps(op2, c2) && !WholeRange(op1, c1) {
      var env: Env := map[v1 := Outside(op1, c1), v2 := Satisfying(op2, c2)];
      assert Holds(q, env) && !InBox(box, [v1, v2], env);
    } else {
      forall env | Holds(q, env)
        ensures InBox(box, [v1, v2], env)
      {
        HoldsIs(op1, v1, c1, env);
        HoldsIs(op2, v2, c2, env);
        InBounds(op1, c1, Lookup(env, v1));
        InBounds(op2, c2, Lookup(env, v2));
      }
    }
  }

  lemma HoldsIs(op: CmpOp, v: string, c: long, env: Env)
    ensures Holds(Cmp(op, Leaf(Var(v)), Leaf(Const(c))), env) <==> Compare(op, Lookup(env, v), c)
  {
  }

  lemma InBounds(op: CmpOp, c: long, x: long)
    requires op != Neq
    ensures (Compare(op, x, c) ==> Inside(x, Bounds(op, c)) && !Wraps(op, c)) && (WholeRange(op, c) ==> Inside(x, Bounds(op, c)))
  {
  }

  function Satisfying(op: CmpOp, c: long): (x: long)
    requires op != Neq && !Wraps(op, c)
    ensures Compare(op, x, c)
  {
    match op
    case Eq => c
    case Geq => c
    case Leq => c
    case Ge => c + 1
    case Le => c - 1
  }

  function Outside(op: CmpOp, c: long): (x: long)
    requires op != Neq && !WholeRange(op, c)
    ensures !Inside(x, Bounds(op, c))
  {
    match op
    case Eq => if c == LONG_MAX then c - 1 else c + 1
    case Ge => c
    case Le => c
    case Geq => c - 1
    case Leq => c + 1
  }
}
