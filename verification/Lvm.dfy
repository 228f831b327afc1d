/** Antelope's logic engine (lvm.c): WHERE clauses are stored as prefix-notation
    bytecode in one code array and evaluated by a recursive machine that advances
    an instruction pointer.

    The code array is modelled as a sequence of slots: a node type, an operator and
    an operand each occupy one slot, so an operator header takes two slots, and so
    does an operand.  The C type `long` is taken to be 32 bits wide. */
module Lvm {

  const LONG_MIN := -0x8000_0000
  const LONG_MAX := 0x7fff_ffff

  type long = x: int | LONG_MIN <= x <= LONG_MAX

  // ----- Values -----

  /** Two's complement wrap-around of an integer into the range of a long. */
  function Wrap(x: int): (r: long)
    ensures (r - x) % 0x1_0000_0000 == 0
    ensures LONG_MIN <= x <= LONG_MAX ==> r == x
  {
    var m := x % 0x1_0000_0000;
    if m > LONG_MAX then m - 0x1_0000_0000 else m
  }

  function Abs(x: int): nat {
    if x < 0 then -x else x
  }

  /** C division, which truncates toward zero. */
  function TruncDiv(a: int, b: int): int
    requires b != 0
  {
    if (a < 0) == (b < 0) then Abs(a) / Abs(b) else -(Abs(a) / Abs(b))
  }

  // ----- The clauses as trees -----

  datatype ArithOp = Add | Sub | Mul | Div
  datatype CmpOp = Eq | Neq | Ge | Geq | Le | Leq // Ge is ">" and Le is "<", as in lvm.h
  datatype Connective = And | Or

  datatype Operand = Const(l: long) | Var(name: string)

  datatype Expr =
    | Leaf(o: Operand)
    | Arith(op: ArithOp, left: Expr, right: Expr)

  datatype Pred =
    | Cmp(op: CmpOp, left: Expr, right: Expr)
    | Conn(c: Connective, first: Pred, second: Pred)
    | Not(p: Pred)

  type Env = map<string, long>

  function Lookup(env: Env, name: string): long {
    if name in env then env[name] else 0
  }

  function Apply(op: ArithOp, a: long, b: long): long {
    match op
    case Add => Wrap(a + b)
    case Sub => Wrap(a - b)
    case Mul => Wrap(a * b)
    case Div => if b == 0 then 0 else Wrap(TruncDiv(a, b))
  }

  /** The value of an expression; a quotient by zero is given the value zero. */
  function Value(e: Expr, env: Env): long {
    match e
    case Leaf(Const(l)) => l
    case Leaf(Var(name)) => Lookup(env, name)
    case Arith(op, l, r) => Apply(op, Value(l, env), Value(r, env))
  }

  /** Two longs that the machine cannot tell apart. */
  predicate Congruent(a: int, b: int) {
    (a - b) % 0x1_0000_0000 == 0
  }

  /** What C promises of an operator on two longs: the sum, the difference and the product
      modulo 2^32, and a quotient whose remainder is smaller than the divisor and zero or of the
      sign of the dividend.  LONG_MIN / -1 wraps around. */
  ghost predicate Computes(op: ArithOp, x: long, y: long, z: long) {
    match op
    case Add => Congruent(z, x + y)
    case Sub => Congruent(z, x - y)
    case Mul => Congruent(z, x * y)
    case Div =>
      if y == 0 then false
      else if x == LONG_MIN && y == -1 then z == LONG_MIN
      else exists r: int :: x == z * y + r && Abs(r) < Abs(y) && (r == 0 || (r < 0 <==> x < 0))
  }

  lemma QuotientIs(x: int, y: int) returns (r: int)
    requires y != 0
    ensures x == TruncDiv(x, y) * y + r && Abs(r) < Abs(y) && (r == 0 || (r < 0 <==> x < 0))
    ensures Abs(TruncDiv(x, y)) <= Abs(x) && (Abs(TruncDiv(x, y)) == Abs(x) ==> x == 0 || Abs(y) == 1)
  {
    var a: int, b: int := Abs(x), Abs(y);
    var q, m: int := a / b, a % b;
    assert a == q * b + m;
    r := if x < 0 then -m else m;
    SignedQuotient(x, y, q, m);
    Smaller(q, b, a);
  }

  /** The quotient of the absolute values, with the sign that C gives it. */
  lemma SignedQuotient(x: int, y: int, q: int, m: int)
    requires y != 0 && Abs(x) == q * Abs(y) + m && q == Abs(x) / Abs(y) && 0 <= m < Abs(y)
    ensures TruncDiv(x, y) == if (x < 0) == (y < 0) then q else -q
    ensures x == TruncDiv(x, y) * y + if x < 0 then -m else m
  {
    Products(q, Abs(y));
  }

  lemma Products(q: int, b: int)
    ensures -q * -b == q * b && -q * b == -(q * b) && q * -b == -(q * b)
  {
  }

  lemma Smaller(q: nat, b: nat, a: nat)
    requires b > 0 && q * b <= a
    ensures q <= a && (q == a ==> a == 0 || b == 1)
  {
    if q > 0 && b > 1 {
      assert q * b >= q * 2;
    } else {
      assert q * b >= q * 1;
    }
  }

  /** The value of a node is what C computes from the values of its two sides. */
  lemma ValueComputes(op: ArithOp, l: Expr, r: Expr, env: Env)
    requires op == Div ==> Value(r, env) != 0
    ensures Computes(op, Value(l, env), Value(r, env), Value(Arith(op, l, r), env))
  {
    ApplyComputes(op, Value(l, env), Value(r, env));
  }

  lemma ApplyComputes(op: ArithOp, x: long, y: long)
    requires op == Div ==> y != 0
    ensures Computes(op, x, y, Apply(op, x, y))
  {
    if op == Div {
      var rest := QuotientIs(x, y);
      hide TruncDiv;
    }
  }

  predicate Compare(op: CmpOp, a: int, b: int) {
    match op
    case Eq => a == b
    case Neq => a != b
    case Ge => a > b
    case Geq => a >= b
    case Le => a < b
    case Leq => a <= b
  }

  /** The truth of a clause under an assignment of its variables. */
  predicate Holds(p: Pred, env: Env) {
    match p
    case Cmp(op, l, r) => Compare(op, Value(l, env), Value(r, env))
    case Conn(And, a, b) => Holds(a, env) && Holds(b, env)
    case Conn(Or, a, b) => Holds(a, env) || Holds(b, env)
    case Not(a) => !Holds(a, env)
  }

  function Size(e: Expr): (n: nat)
    ensures n > 0
  {
    if e.Leaf? then 1 else 1 + Size(e.left) + Size(e.right)
  }

  function SubExprs(e: Expr): set<Expr> {
    match e
    case Leaf(_) => {e}
    case Arith(_, l, r) => {e} + SubExprs(l) + SubExprs(r)
  }

  function PredExprs(p: Pred): set<Expr> {
    match p
    case Cmp(_, l, r) => SubExprs(l) + SubExprs(r)
    case Conn(_, a, b) => PredExprs(a) + PredExprs(b)
    case Not(a) => PredExprs(a)
  }

  predicate ZeroDivision(e: Expr, env: Env) {
    e.Arith? && e.op == Div && Value(e.right, env) == 0
  }

  /** Some division anywhere in the clause has a zero divisor. */
  predicate Faults(p: Pred, env: Env) {
    exists e :: e in PredExprs(p) && ZeroDivision(e, env)
  }

  predicate ExprFaults(e: Expr, env: Env) {
    exists s :: s in SubExprs(e) && ZeroDivision(s, env)
  }

  function ExprVars(e: Expr): set<string> {
    match e
    case Leaf(Const(_)) => {}
    case Leaf(Var(name)) => {name}
    case Arith(_, l, r) => ExprVars(l) + ExprVars(r)
  }

  function PredVars(p: Pred): set<string> {
    match p
    case Cmp(_, l, r) => ExprVars(l) + ExprVars(r)
    case Conn(_, a, b) => PredVars(a) + PredVars(b)
    case Not(a) => PredVars(a)
  }

  // ----- The bytecode -----

  datatype NodeType = ARITH_OP | OPERAND | CMP_OP

  datatype Operator = ArithOperator(a: ArithOp) | CmpOperator(c: CmpOp) | ConnOperator(k: Connective) | NotOperator

  datatype CodeOperand = LongOperand(l: long) | VariableOperand(id: nat)

  datatype Slot = TypeSlot(t: NodeType) | OpSlot(op: Operator) | OperandSlot(o: CodeOperand) | Zero

  /** The slot of `name` in the variable table, or the table's length when it is absent. */
  function Find(names: seq<string>, name: string): (i: nat)
    ensures i <= |names|
    ensures i < |names| ==> names[i] == name
    ensures forall j :: 0 <= j < i ==> names[j] != name
  {
    if names == [] || names[0] == name then 0 else 1 + Find(names[1..], name)
  }

  function OperandCode(o: Operand, names: seq<string>): CodeOperand {
    match o
    case Const(l) => LongOperand(l)
    case Var(name) => VariableOperand(Find(names, name))
  }

  function Header(t: NodeType, op: Operator): seq<Slot> {
    [TypeSlot(t), OpSlot(op)]
  }

  function ExprCode(e: Expr, names: seq<string>): (c: seq<Slot>)
    ensures |c| >= 2
  {
    match e
    case Leaf(o) => [TypeSlot(OPERAND), OperandSlot(OperandCode(o, names))]
    case Arith(op, l, r) => Header(ARITH_OP, ArithOperator(op)) + ExprCode(l, names) + ExprCode(r, names)
  }

  function PredCode(p: Pred, names: seq<string>): (c: seq<Slot>)
    ensures |c| >= 2
  {
    match p
    case Cmp(op, l, r) => Header(CMP_OP, CmpOperator(op)) + ExprCode(l, names) + ExprCode(r, names)
    case Conn(k, a, b) => Header(CMP_OP, ConnOperator(k)) + PredCode(a, names) + PredCode(b, names)
    case Not(a) => Header(CMP_OP, NotOperator) + PredCode(a, names)
  }

  function ToSet(names: seq<string>): set<string> {
    set n | n in names
  }

  /** Registering more variables never renumbers the earlier ones. */
  lemma FindStable(names: seq<string>, more: seq<string>, name: string)
    requires name in names
    ensures Find(names + more, name) == Find(names, name) < |names|
  {
    if names[0] != name {
      assert (names + more)[1..] == names[1..] + more;
      FindStable(names[1..], more, name);
    }
  }

  lemma {:induction false} ExprCodeStable(e: Expr, names: seq<string>, more: seq<string>)
    requires ExprVars(e) <= ToSet(names)
    ensures ExprCode(e, names + more) == ExprCode(e, names)
  {
    match e
    case Leaf(Const(_)) =>
    case Leaf(Var(name)) => FindStable(names, more, name);
    case Arith(_, l, r) =>
      ExprCodeStable(l, names, more);
      ExprCodeStable(r, names, more);
  }

  lemma {:induction false} PredCodeStable(p: Pred, names: seq<string>, more: seq<string>)
    requires PredVars(p) <= ToSet(names)
    ensures PredCode(p, names + more) == PredCode(p, names)
  {
    match p
    case Cmp(_, l, r) =>
      ExprCodeStable(l, names, more);
      ExprCodeStable(r, names, more);
    case Conn(_, a, b) =>
      PredCodeStable(a, names, more);
      PredCodeStable(b, names, more);
    case Not(a) =>
      PredCodeStable(a, names, more);
  }

  lemma ExprFaultsArith(op: ArithOp, l: Expr, r: Expr, env: Env)
    ensures ExprFaults(Arith(op, l, r), env) <==>
            ExprFaults(l, env) || ExprFaults(r, env) || (op == Div && Value(r, env) == 0)
  {
    var e := Arith(op, l, r);
    if op == Div && Value(r, env) == 0 {
      assert e in SubExprs(e) && ZeroDivision(e, env);
    }
    if ExprFaults(l, env) {
      var s :| s in SubExprs(l) && ZeroDivision(s, env);
      assert s in SubExprs(e);
    }
    if ExprFaults(r, env) {
      var s :| s in SubExprs(r) && ZeroDivision(s, env);
      assert s in SubExprs(e);
    }
  }

  /** A clause faults exactly when one of its two parts does; there is no short-circuit. */
  lemma FaultsParts(p: Pred, env: Env)
    ensures p.Cmp? ==> (Faults(p, env) <==> ExprFaults(p.left, env) || ExprFaults(p.right, env))
    ensures p.Conn? ==> (Faults(p, env) <==> Faults(p.first, env) || Faults(p.second, env))
    ensures p.Not? ==> (Faults(p, env) <==> Faults(p.p, env))
  {
    match p
    case Cmp(_, l, r) =>
      if ExprFaults(l, env) {
        var s :| s in SubExprs(l) && ZeroDivision(s, env);
        assert s in PredExprs(p);
      }
      if ExprFaults(r, env) {
        var s :| s in SubExprs(r) && ZeroDivision(s, env);
        assert s in PredExprs(p);
      }
    case Conn(_, a, b) =>
      if Faults(a, env) {
        var s :| s in PredExprs(a) && ZeroDivision(s, env);
        assert s in PredExprs(p);
      }
      if Faults(b, env) {
        var s :| s in PredExprs(b) && ZeroDivision(s, env);
        assert s in PredExprs(p);
      }
    case Not(a) =>
  }

  // ----- The machine -----

  datatype Status = FALSE | TRUE | VARIABLE_LIMIT_REACHED | INVALID_IDENTIFIER
                  | SEMANTIC_ERROR | MATH_ERROR | EXECUTION_ERROR | DERIVATION_ERROR

  predicate LvmError(s: Status) {
    s != TRUE && s != FALSE
  }

  function Truth(b: bool): Status {
    if b then TRUE else FALSE
  }

  const MAX_VARIABLES: nat := 3 // entries of variables[LVM_MAX_VARIABLE_ID - 1], with AQL_ATTRIBUTE_LIMIT 5

  /** The table holds all of these variables, or has an unused entry. */
  predicate Room(names: seq<string>, vars: set<string>) {
    vars <= ToSet(names) || |names| < MAX_VARIABLES
  }

  class Instance {
    const code: array<Slot>
    var end: nat
    var ip: nat
    var error: bool
    var names: seq<string> // variables[i].name for the registered entries
    var values: seq<long>  // variables[i].value
    ghost var text: seq<Slot> // what the code array holds below `end`

    ghost predicate Valid()
      reads this`end, this`text, this`names, this`values, code
    {
      && end <= code.Length && text == code[..end]
      && |names| == |values| <= MAX_VARIABLES
    }

    /** The assignment that the variable table stands for. */
    ghost function Env(): Env
      reads this`names, this`values
      requires |names| == |values|
    {
      map n | n in names :: values[Find(names, n)]
    }

    /** lvm_reset */
    constructor (size: nat)
      ensures Valid() && fresh(code)
      ensures code.Length == size && end == 0 && text == [] && ip == 0 && !error && names == []
    {
      code := new Slot[size](_ => Zero);
      end, ip, error, text := 0, 0, false, [];
      names, values := [], [];
    }

    ghost predicate At(pos: nat, s: seq<Slot>)
      reads code
    {
      pos + |s| <= code.Length && code[pos..pos + |s|] == s
    }

    // --- evaluation ---

    method GetSlot() returns (s: Slot)
      requires ip < code.Length
      modifies this`ip
      ensures ip == old(ip) + 1 && s == code[old(ip)]
    {
      s := code[ip];
      ip := ip + 1;
    }

    method OperandToLong(o: CodeOperand) returns (l: long)
      requires o.VariableOperand? ==> o.id < |values|
      ensures l == if o.LongOperand? then o.l else values[o.id]
    {
      match o
      case LongOperand(v) => l := v;
      case VariableOperand(id) => l := values[id];
    }

    /** One step of the operand loops of eval_expr and eval_logic: read one operand or
        evaluate one nested arithmetic expression. */
    method EvalOperand(ghost e: Expr) returns (status: Status, l: long)
      requires Valid() && At(ip, ExprCode(e, names)) && ExprVars(e) <= ToSet(names)
      modifies this`ip
      ensures status == if ExprFaults(e, Env()) then MATH_ERROR else TRUE
      ensures status == TRUE ==> l == Value(e, Env()) && ip == old(ip) + |ExprCode(e, names)|
      decreases Size(e)
    {
      l := 0;
      ghost var start := ip;
      var t := GetSlot();
      assert code[start] == ExprCode(e, names)[0];
      match t {
        case TypeSlot(ARITH_OP) =>
          var op := GetSlot();
          assert code[start + 1] == ExprCode(e, names)[1];
          ArithCodeParts(start, e.op, e.left, e.right);
          status, l := EvalExpr(op.op.a, e.left, e.right);
        case TypeSlot(OPERAND) =>
          var o := GetSlot();
          assert code[start + 1] == ExprCode(e, names)[1];
          if e.o.Var? {
            assert e.o.name in names;
            FindStable(names, [], e.o.name);
            assert names + [] == names;
          }
          l := OperandToLong(o.o);
          status := TRUE;
          assert !ExprFaults(e, Env());
        case _ =>
          status := SEMANTIC_ERROR;
      }
    }

    lemma ArithCodeParts(pos: nat, op: ArithOp, l: Expr, r: Expr)
      requires At(pos, ExprCode(Arith(op, l, r), names))
      ensures At(pos + 2, ExprCode(l, names) + ExprCode(r, names))
    {
      var header, body := Header(ARITH_OP, ArithOperator(op)), ExprCode(l, names) + ExprCode(r, names);
      assert ExprCode(Arith(op, l, r), names) == header + body;
      SplitBody(pos, header, body);
    }

    /** The operand loop that eval_expr and eval_logic share. */
    method EvalOperands(ghost left: Expr, ghost right: Expr) returns (status: Status, value: seq<long>)
      requires Valid() && At(ip, ExprCode(left, names) + ExprCode(right, names))
      requires ExprVars(left) + ExprVars(right) <= ToSet(names)
      modifies this`ip
      ensures status == if ExprFaults(left, Env()) || ExprFaults(right, Env()) then MATH_ERROR else TRUE
      ensures status == TRUE ==>
                value == [Value(left, Env()), Value(right, Env())] &&
                ip == old(ip) + |ExprCode(left, names) + ExprCode(right, names)|
      decreases Size(left) + Size(right), 0
    {
      hide ExprCode, Value, ExprFaults, ExprVars;
      ghost var start := ip;
      ghost var args := [left, right];
      ghost var lc, rc := ExprCode(left, names), ExprCode(right, names);
      SplitBody(start, lc, rc);
      value := [];
      var i := 0;
      while i < 2
        invariant 0 <= i <= 2 && |value| == i
        invariant forall k :: 0 <= k < i ==> value[k] == Value(args[k], Env()) && !ExprFaults(args[k], Env())
        invariant ip == start + (if i == 0 then 0 else if i == 1 then |lc| else |lc| + |rc|)
      {
        var r, l := EvalOperand(args[i]);
        if LvmError(r) {
          return r, [];
        }
        value := value + [l];
        i := i + 1;
      }
      assert value == [value[0], value[1]];
      status := TRUE;
    }

    /** The switch of eval_expr; the division by zero has been caught. */
    static method Arithmetic(op: ArithOp, x: long, y: long) returns (z: long)
      requires op == Div ==> y != 0
      ensures Computes(op, x, y, z) && z == Apply(op, x, y)
    {
      ApplyComputes(op, x, y);
      var a: int, b: int := x, y;
      match op {
        case Add => z := Wrap(a + b);
        case Sub => z := Wrap(a - b);
        case Mul => z := Wrap(a * b);
        case Div => z := Wrap(TruncDiv(a, b));
      }
    }

    /** eval_expr: both operands are evaluated before the operator is applied. */
    method EvalExpr(op: ArithOp, ghost left: Expr, ghost right: Expr) returns (status: Status, result: long)
      requires Valid() && At(ip, ExprCode(left, names) + ExprCode(right, names))
      requires ExprVars(left) + ExprVars(right) <= ToSet(names)
      modifies this`ip
      ensures status == if ExprFaults(Arith(op, left, right), Env()) then MATH_ERROR else TRUE
      ensures status == TRUE ==> Computes(op, Value(left, Env()), Value(right, Env()), result)
      ensures status == TRUE ==>
                result == Value(Arith(op, left, right), Env()) &&
                ip == old(ip) + |ExprCode(left, names) + ExprCode(right, names)|
      decreases Size(left) + Size(right), 1
    {
      ExprFaultsArith(op, left, right, Env());
      var r, value := EvalOperands(left, right);
      if LvmError(r) {
        return r, 0;
      }
      if op == Div && value[1] == 0 {
        return MATH_ERROR, 0;
      }
      result := Arithmetic(op, value[0], value[1]);
      status := TRUE;
    }

    /** The code that follows the two-slot header of a clause. */
    static ghost function Body(p: Pred, names: seq<string>): seq<Slot> {
      PredCode(p, names)[2..]
    }

    static ghost function HeaderOf(p: Pred): Operator {
      match p
      case Cmp(op, _, _) => CmpOperator(op)
      case Conn(k, _, _) => ConnOperator(k)
      case Not(_) => NotOperator
    }

    lemma SplitBody(pos: nat, a: seq<Slot>, b: seq<Slot>)
      requires At(pos, a + b)
      ensures At(pos, a) && At(pos + |a|, b)
    {
      assert code[pos..pos + |a|] == code[pos..pos + |a + b|][..|a|];
      assert code[pos + |a|..pos + |a| + |b|] == code[pos..pos + |a + b|][|a|..];
    }

    static ghost function Args(p: Pred): (a: seq<Pred>)
      requires !p.Cmp?
      ensures forall q :: q in a ==> q < p && PredVars(q) <= PredVars(p)
    {
      if p.Not? then [p.p] else [p.first, p.second]
    }

    static ghost function ArgsCode(args: seq<Pred>, names: seq<string>): seq<Slot> {
      if args == [] then [] else PredCode(args[0], names) + ArgsCode(args[1..], names)
    }

    static lemma BodyParts(p: Pred, names: seq<string>)
      requires !p.Cmp?
      ensures Body(p, names) == ArgsCode(Args(p), names)
    {
      if p.Conn? {
        assert Args(p)[1..] == [p.second] && [p.second][1..] == [];
        assert Body(p, names) == PredCode(p.first, names) + PredCode(p.second, names);
        assert ArgsCode([p.second], names) == PredCode(p.second, names);
      } else {
        assert Args(p)[1..] == [];
        assert Body(p, names) == PredCode(p.p, names);
      }
    }

    /** Read the header of a clause and evaluate the clause. */
    method EvalClause(ghost p: Pred) returns (status: Status)
      requires Valid() && At(ip, PredCode(p, names)) && PredVars(p) <= ToSet(names)
      modifies this`ip
      ensures status == if Faults(p, Env()) then MATH_ERROR else Truth(Holds(p, Env()))
      ensures !LvmError(status) ==> ip == old(ip) + |PredCode(p, names)|
      decreases p, 3
    {
      ghost var c, here := PredCode(p, names), ip;
      assert c == c[..2] + Body(p, names);
      SplitBody(here, c[..2], Body(p, names));
      var t := GetSlot();
      assert code[here] == c[0];
      if t != TypeSlot(CMP_OP) {
        return SEMANTIC_ERROR;
      }
      var o := GetSlot();
      assert code[here + 1] == c[1];
      status := EvalLogic(o.op, p);
    }

    /** eval_logic, entered after the header of `p` has been read. */
    method EvalLogic(op: Operator, ghost p: Pred) returns (status: Status)
      requires Valid() && op == HeaderOf(p) && At(ip, Body(p, names)) && PredVars(p) <= ToSet(names)
      modifies this`ip
      ensures status == if Faults(p, Env()) then MATH_ERROR else Truth(Holds(p, Env()))
      ensures !LvmError(status) ==> ip == old(ip) + |Body(p, names)|
      decreases p, 2
    {
      if op.ConnOperator? || op.NotOperator? {
        status := EvalConnective(op, p);
      } else {
        status := EvalComparison(op.c, p);
      }
    }

    /** The argument loop of eval_logic. */
    method EvalArguments(arguments: nat, ghost args: seq<Pred>, ghost p: Pred) returns (status: Status, logicResult: seq<Status>)
      requires Valid() && At(ip, ArgsCode(args, names)) && arguments == |args|
      requires forall q :: q in args ==> q < p && PredVars(q) <= ToSet(names)
      modifies this`ip
      ensures status == TRUE || status == MATH_ERROR
      ensures status == MATH_ERROR ==> exists k :: 0 <= k < arguments && Faults(args[k], Env())
      ensures status == TRUE ==> ip == old(ip) + |ArgsCode(args, names)| && |logicResult| == arguments
      ensures status == TRUE ==>
                forall k :: 0 <= k < arguments ==>
                  !Faults(args[k], Env()) && logicResult[k] == Truth(Holds(args[k], Env()))
      decreases p, 0
    {
      hide PredCode, Faults, Holds, PredVars, ToSet, Find;
      ghost var total := ip + |ArgsCode(args, names)|;
      logicResult := [];
      var i := 0;
      assert args[0..] == args;
      while i < arguments
        invariant 0 <= i <= arguments && |logicResult| == i
        invariant At(ip, ArgsCode(args[i..], names)) && ip + |ArgsCode(args[i..], names)| == total
        invariant forall k :: 0 <= k < i ==>
                    !Faults(args[k], Env()) && logicResult[k] == Truth(Holds(args[k], Env()))
      {
        assert args[i] in args && args[i..][1..] == args[i + 1..];
        SplitBody(ip, PredCode(args[i], names), ArgsCode(args[i + 1..], names));
        var r := EvalClause(args[i]);
        if LvmError(r) {
          return r, [];
        }
        logicResult := logicResult + [r];
        i := i + 1;
      }
      status := TRUE;
    }

    /** The connective half of eval_logic: every argument is evaluated, with no short-circuit. */
    method EvalConnective(op: Operator, ghost p: Pred) returns (status: Status)
      requires Valid() && op == HeaderOf(p) && At(ip, Body(p, names)) && PredVars(p) <= ToSet(names)
      requires !p.Cmp?
      modifies this`ip
      ensures status == if Faults(p, Env()) then MATH_ERROR else Truth(Holds(p, Env()))
      ensures !LvmError(status) ==> ip == old(ip) + |Body(p, names)|
      decreases p, 1
    {
      FaultsParts(p, Env());
      BodyParts(p, names);
      var r, logicResult := EvalArguments(if op.NotOperator? then 1 else 2, Args(p), p);
      if LvmError(r) {
        return r;
      }
      match op {
        case NotOperator => status := Truth(logicResult[0] == FALSE);
        case ConnOperator(And) => status := Truth(logicResult[0] == TRUE && logicResult[1] == TRUE);
        case ConnOperator(Or) => status := Truth(logicResult[0] == TRUE || logicResult[1] == TRUE);
      }
    }

    /** The comparison half of eval_logic. */
    method EvalComparison(op: CmpOp, ghost p: Pred) returns (status: Status)
      requires Valid() && p.Cmp? && op == p.op && At(ip, Body(p, names)) && PredVars(p) <= ToSet(names)
      modifies this`ip
      ensures status == if Faults(p, Env()) then MATH_ERROR else Truth(Holds(p, Env()))
      ensures !LvmError(status) ==> ip == old(ip) + |Body(p, names)|
    {
      FaultsParts(p, Env());
      assert Body(p, names) == ExprCode(p.left, names) + ExprCode(p.right, names);
      var r, result := EvalOperands(p.left, p.right);
      if LvmError(r) {
        return r;
      }
      var l1, l2 := result[0], result[1];
      match op {
        case Eq => status := Truth(l1 == l2);
        case Neq => status := Truth(l1 != l2);
        case Ge => status := Truth(l1 > l2);
        case Geq => status := Truth(l1 >= l2);
        case Le => status := Truth(l1 < l2);
        case Leq => status := Truth(l1 <= l2);
      }
    }

    /** lvm_execute: running the code of a clause gives the clause's truth value, or
        MATH_ERROR exactly when some division in it has a zero divisor, and consumes
        exactly that code. */
    method Execute(ghost p: Pred) returns (status: Status)
      requires Valid() && At(0, PredCode(p, names)) && PredVars(p) <= ToSet(names)
      modifies this`ip
      ensures status == if Faults(p, Env()) then MATH_ERROR else Truth(Holds(p, Env()))
      ensures !LvmError(status) ==> ip == |PredCode(p, names)|
    {
      ip := 0;
      ghost var c := PredCode(p, names);
      assert c == c[..2] + Body(p, names);
      SplitBody(0, c[..2], Body(p, names));
      status := EXECUTION_ERROR;
      var t := GetSlot();
      assert code[0] == c[0];
      if t == TypeSlot(CMP_OP) {
        var op := GetSlot();
        assert code[1] == c[1];
        status := EvalLogic(op.op, p);
      }
    }

    // --- variables ---

    /** lvm_register_variable */
    method RegisterVariable(name: string) returns (status: Status)
      requires Valid()
      requires name in names || |names| < MAX_VARIABLES
      modifies this`names, this`values
      ensures Valid() && status == TRUE
      ensures names == if name in old(names) then old(names) else old(names) + [name]
      ensures name !in old(names) ==> values == old(values) + [0]
      ensures name in old(names) ==> values == old(values)
      ensures name in names
    {
      var id := Find(names, name);
      if id == |names| {
        names, values := names + [name], values + [0];
      }
      status := TRUE;
    }

    /** lvm_set_variable_value: later executions see the new value and no other variable
        changes.  A name that is not in the table writes to the first unused entry, which no
        code refers to; there has to be one, since the original looks and writes behind a full
        table. */
    method SetVariableValue(name: string, value: long) returns (status: Status)
      requires Valid() && Room(names, {name})
      modifies this`values
      ensures Valid() && status == TRUE
      ensures Env() == if name in names then old(Env())[name := value] else old(Env())
    {
      var id := Find(names, name);
      if id == |names| {
        return TRUE;
      }
      values := values[id := value];
      status := TRUE;
      forall n | n in names
        ensures Env()[n] == old(Env())[name := value][n]
      {
        FindStable(names, [], n);
        assert names + [] == names;
      }
    }

    // --- code generation ---

    /** lvm_set_op and lvm_set_relation: write a header at the current end. */
    method SetHeader(t: NodeType, op: Operator)
      requires Valid() && end + 2 <= code.Length
      modifies this`end, this`text, code
      ensures Valid() && end == old(end) + 2
      ensures text == old(text) + Header(t, op)
      ensures code[end..] == old(code[end + 2..])
    {
      code[end] := TypeSlot(t);
      end := end + 1;
      code[end] := OpSlot(op);
      end := end + 1;
      text := code[..end];
    }

    /** lvm_set_operand */
    method SetOperand(o: CodeOperand)
      requires Valid() && end + 2 <= code.Length
      modifies this`end, this`text, code
      ensures Valid() && end == old(end) + 2
      ensures text == old(text) + [TypeSlot(OPERAND), OperandSlot(o)]
      ensures code[end..] == old(code[end + 2..])
    {
      code[end] := TypeSlot(OPERAND);
      end := end + 1;
      code[end] := OperandSlot(o);
      end := end + 1;
      text := code[..end];
    }

    /** lvm_jump_to_operand: leave room for a header that is written later. */
    method JumpToOperand() returns (oldEnd: nat)
      requires Valid()
      modifies this`end, this`error, this`text
      ensures Valid() && oldEnd == old(end)
      ensures old(end) + 2 < code.Length ==> end == old(end) + 2 && error == old(error)
      ensures old(end) + 2 >= code.Length ==> end == old(end) && error
    {
      oldEnd := end;
      if end + 2 >= code.Length {
        error := true;
      } else {
        end := end + 2;
      }
      text := code[..end];
    }

    /** lvm_shift_for_operator: move the code from `from` on two slots up, so that a
        header can be put in front of it.  The guard tests room for the operator only;
        the two-slot move needs the room that the precondition asks for. */
    method ShiftForOperator(from: nat) returns (newEnd: nat)
      requires Valid()
      requires end + 1 <= code.Length && from < end ==> end + 2 <= code.Length
      modifies this`end, this`error, this`text, code
      ensures Valid()
      ensures old(end) + 1 > code.Length || from >= old(end) ==>
                newEnd == 0 && error && end == old(end) && code[..] == old(code[..])
      ensures old(end) + 1 <= code.Length && from < old(end) ==>
                && newEnd == old(end) + 2 && end == from && error == old(error)
                && text == old(text[..from])
                && code[from + 2..newEnd] == old(text[from..])
                && code[newEnd..] == old(code[end + 2..])
    {
      var oldEnd := end;
      if end + 1 > code.Length || from >= oldEnd {
        error := true;
        return 0;
      }
      forall i | from <= i < oldEnd {
        code[i + 2] := code[i];
      }
      end := from;
      newEnd := oldEnd + 2;
      text := code[..end];
    }

    /** lvm_set_end */
    method SetEnd(e: nat) returns (oldEnd: nat)
      requires Valid()
      modifies this`end, this`error, this`text
      ensures Valid() && oldEnd == old(end)
      ensures e < code.Length ==> end == e && error == old(error)
      ensures e >= code.Length ==> end == old(end) && error
    {
      oldEnd := end;
      if e >= code.Length {
        error := true;
        return;
      }
      end := e;
      text := code[..end];
    }
  }
}
