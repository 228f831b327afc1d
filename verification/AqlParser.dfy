/** Code generation for WHERE clauses (aql-parser.c): a recursive-descent parser that
    emits prefix code into the logic engine while it reads infix tokens, opening a gap
    for each operator in front of code that is already there. */
module AqlParser {
  import opened Lvm

  datatype Token =
    | Identifier(name: string) | IntegerValue(l: long)
    | ArithToken(op: ArithOp) | CmpToken(rel: CmpOp) | ConnToken(k: Connective)
    | LeftParen | RightParen | Other | End

  // ----- The clauses that the code generator handles -----

  /** `operand`, `operand op operand` or `operand op (expr)`. */
  datatype ExprSyntax =
    | Single(o: Operand)
    | Binary(o: Operand, op: ArithOp, second: Operand)
    | Nested(o: Operand, op: ArithOp, inner: ExprSyntax)

  datatype Comparison = Comparison(left: ExprSyntax, rel: CmpOp, right: ExprSyntax)

  /** A flat list of comparisons: the first one, then connective and comparison pairs. */
  datatype Clause = Last(c: Comparison) | More(c: Comparison, k: Connective, rest: Clause)

  function OperandToken(o: Operand): Token {
    match o
    case Const(l) => IntegerValue(l)
    case Var(name) => Identifier(name)
  }

  function ExprTokens(s: ExprSyntax): (t: seq<Token>)
    ensures |t| >= 1
  {
    match s
    case Single(o) => [OperandToken(o)]
    case Binary(o, op, b) => [OperandToken(o), ArithToken(op), OperandToken(b)]
    case Nested(o, op, inner) =>
      [OperandToken(o), ArithToken(op), LeftParen] + ExprTokens(inner) + [RightParen]
  }

  function ComparisonTokens(c: Comparison): seq<Token> {
    ExprTokens(c.left) + [CmpToken(c.rel)] + ExprTokens(c.right)
  }

  function ClauseTokens(w: Clause): seq<Token> {
    match w
    case Last(c) => ComparisonTokens(c)
    case More(c, k, rest) => ComparisonTokens(c) + [ConnToken(k)] + ClauseTokens(rest)
  }

  function TokenAt(t: seq<Token>, i: nat): Token {
    if i < |t| then t[i] else End
  }

  function ExprLength(s: ExprSyntax): nat {
    match s
    case Single(_) => 1
    case Binary(_, _, _) => 3
    case Nested(_, _, inner) => 4 + ExprLength(inner)
  }

  function ComparisonLength(c: Comparison): nat {
    ExprLength(c.left) + 1 + ExprLength(c.right)
  }

  function ClauseLength(w: Clause): nat
    decreases w, 1
  {
    ComparisonLength(w.c) + TailLength(w)
  }

  /** The length of what follows the first comparison of a clause. */
  function TailLength(w: Clause): nat
    decreases w, 0
  {
    if w.Last? then 0 else 1 + ClauseLength(w.rest)
  }

  /** The tokens of an expression stand at position `i`. */
  predicate ExprAt(t: seq<Token>, i: nat, s: ExprSyntax)
    decreases s
  {
    && TokenAt(t, i) == OperandToken(s.o)
    && (!s.Single? ==> TokenAt(t, i + 1) == ArithToken(s.op))
    && (s.Binary? ==> TokenAt(t, i + 2) == OperandToken(s.second))
    && (s.Nested? ==>
          && TokenAt(t, i + 2) == LeftParen
          && ExprAt(t, i + 3, s.inner)
          && TokenAt(t, i + 3 + ExprLength(s.inner)) == RightParen)
  }

  predicate ComparisonAt(t: seq<Token>, i: nat, c: Comparison) {
    var j := i + ExprLength(c.left);
    ExprAt(t, i, c.left) && TokenAt(t, j) == CmpToken(c.rel) && ExprAt(t, j + 1, c.right)
  }

  predicate EndsComparison(t: Token) {
    !t.ArithToken? && t != RightParen
  }

  /** A token that ends a flat list of comparisons. */
  predicate EndsClause(t: Token) {
    !t.ArithToken? && !t.ConnToken? && t != RightParen
  }

  /** The tokens of `w` stand at `i`, followed by a token that ends the clause. */
  predicate ClauseAt(t: seq<Token>, i: nat, w: Clause)
    decreases w, 1
  {
    ComparisonAt(t, i, w.c) && TailAt(t, i + ComparisonLength(w.c), w)
  }

  predicate TailAt(t: seq<Token>, i: nat, w: Clause)
    decreases w, 0
  {
    if w.Last? then EndsClause(TokenAt(t, i))
    else TokenAt(t, i) == ConnToken(w.k) && ClauseAt(t, i + 1, w.rest)
  }

  lemma {:induction false} ExprTokensAt(s: ExprSyntax, a: seq<Token>, b: seq<Token>)
    ensures |ExprTokens(s)| == ExprLength(s)
    ensures ExprAt(a + ExprTokens(s) + b, |a|, s)
  {
    if s.Nested? {
      var front := [OperandToken(s.o), ArithToken(s.op), LeftParen];
      ExprTokensAt(s.inner, a + front, [RightParen] + b);
      assert a + ExprTokens(s) + b == (a + front) + ExprTokens(s.inner) + ([RightParen] + b);
    }
  }

  lemma ComparisonTokensAt(c: Comparison, a: seq<Token>, b: seq<Token>)
    ensures |ComparisonTokens(c)| == ComparisonLength(c)
    ensures ComparisonAt(a + ComparisonTokens(c) + b, |a|, c)
  {
    var rel := [CmpToken(c.rel)];
    ExprTokensAt(c.left, a, rel + ExprTokens(c.right) + b);
    ExprTokensAt(c.right, a + ExprTokens(c.left) + rel, b);
    assert a + ComparisonTokens(c) + b == a + ExprTokens(c.left) + (rel + ExprTokens(c.right) + b);
    assert a + ComparisonTokens(c) + b == (a + ExprTokens(c.left) + rel) + ExprTokens(c.right) + b;
  }

  /** A clause's token list stands where it is written. */
  lemma {:induction false} ClauseTokensAt(w: Clause, a: seq<Token>, b: seq<Token>)
    requires EndsClause(TokenAt(b, 0))
    ensures |ClauseTokens(w)| == ClauseLength(w)
    ensures ClauseAt(a + ClauseTokens(w) + b, |a|, w)
    decreases w
  {
    hide ComparisonTokens, ComparisonAt;
    var t := a + ClauseTokens(w) + b;
    match w
    case Last(c) =>
      ComparisonTokensAt(c, a, b);
      assert t[|a| + |ComparisonTokens(c)|..] == b;
    case More(c, k, rest) =>
      var conn := [ConnToken(k)];
      ComparisonTokensAt(c, a, conn + ClauseTokens(rest) + b);
      ClauseTokensAt(rest, a + ComparisonTokens(c) + conn, b);
      assert t == a + ComparisonTokens(c) + (conn + ClauseTokens(rest) + b);
      assert t == (a + ComparisonTokens(c) + conn) + ClauseTokens(rest) + b;
  }

  /** The tree that an expression denotes. */
  function ExprTree(s: ExprSyntax): Expr {
    match s
    case Single(o) => Leaf(o)
    case Binary(o, op, b) => Arith(op, Leaf(o), Leaf(b))
    case Nested(o, op, inner) => Arith(op, Leaf(o), ExprTree(inner))
  }

  function ComparisonTree(c: Comparison): Pred {
    Cmp(c.rel, ExprTree(c.left), ExprTree(c.right))
  }

  /** Connectives group to the right, whatever they are. */
  function ClauseTree(w: Clause): Pred {
    match w
    case Last(c) => ComparisonTree(c)
    case More(c, k, rest) => Conn(k, ComparisonTree(c), ClauseTree(rest))
  }

  // ----- Growth of the variable table -----

  /** The table after the variables of some syntax have been registered from left to right. */
  function Register(names: seq<string>, o: Operand): seq<string> {
    if o.Const? || o.name in names then names else names + [o.name]
  }

  function RegisterExpr(names: seq<string>, s: ExprSyntax): seq<string>
    decreases s
  {
    match s
    case Single(o) => Register(names, o)
    case Binary(o, _, b) => Register(Register(names, o), b)
    case Nested(o, _, inner) => RegisterExpr(Register(names, o), inner)
  }

  function RegisterComparison(names: seq<string>, c: Comparison): seq<string> {
    RegisterExpr(RegisterExpr(names, c.left), c.right)
  }

  function RegisterClause(names: seq<string>, w: Clause): seq<string>
    decreases w
  {
    match w
    case Last(c) => RegisterComparison(names, c)
    case More(c, _, rest) => RegisterClause(RegisterComparison(names, c), rest)
  }

  lemma RegisterGrows(names: seq<string>, o: Operand)
    ensures names <= Register(names, o)
    ensures ToSet(Register(names, o)) == ToSet(names) + ExprVars(Leaf(o))
  {
  }

  lemma {:induction false} RegisterExprGrows(names: seq<string>, s: ExprSyntax)
    ensures names <= Register(names, s.o) <= RegisterExpr(names, s)
    ensures ToSet(RegisterExpr(names, s)) == ToSet(names) + ExprVars(ExprTree(s))
    decreases s
  {
    RegisterGrows(names, s.o);
    match s
    case Single(_) =>
    case Binary(o, _, b) => RegisterGrows(Register(names, o), b);
    case Nested(o, _, inner) => RegisterExprGrows(Register(names, o), inner);
  }

  /** What the first two tokens of an expression determine. */
  lemma ExprParts(t: seq<Token>, i: nat, s: ExprSyntax, names: seq<string>)
    requires ExprAt(t, i, s)
    ensures TokenAt(t, i) == OperandToken(s.o)
    ensures !s.Single? ==> TokenAt(t, i + 1) == ArithToken(s.op) && ExprLength(s) >= 3
    ensures s.Single? ==> ExprLength(s) == 1 && ExprTree(s) == Leaf(s.o) && RegisterExpr(names, s) == Register(names, s.o)
    ensures |ExprCode(Leaf(s.o), names)| == 2 <= |ExprCode(ExprTree(s), RegisterExpr(names, s))|
    ensures ExprVars(Leaf(s.o)) <= ToSet(Register(names, s.o))
    ensures |Register(names, s.o)| <= |RegisterExpr(names, s)|
  {
    RegisterGrows(names, s.o);
    RegisterExprGrows(names, s);
  }

  lemma RegisterComparisonGrows(names: seq<string>, c: Comparison)
    ensures names <= RegisterExpr(names, c.left) <= RegisterComparison(names, c)
    ensures ToSet(RegisterComparison(names, c)) == ToSet(names) + PredVars(ComparisonTree(c))
  {
    RegisterExprGrows(names, c.left);
    RegisterExprGrows(RegisterExpr(names, c.left), c.right);
  }

  /** Compiling a clause registers exactly its variables and renumbers none. */
  lemma {:induction false} RegisterClauseGrows(names: seq<string>, w: Clause)
    ensures names <= RegisterComparison(names, w.c) <= RegisterClause(names, w)
    ensures ToSet(RegisterClause(names, w)) == ToSet(names) + PredVars(ClauseTree(w))
    decreases w
  {
    RegisterComparisonGrows(names, w.c);
    if w.More? {
      RegisterClauseGrows(RegisterComparison(names, w.c), w.rest);
    }
  }

  lemma ExprCodePrefix(e: Expr, names: seq<string>, later: seq<string>)
    requires names <= later && ExprVars(e) <= ToSet(names)
    ensures ExprCode(e, later) == ExprCode(e, names)
  {
    assert later == names + later[|names|..];
    ExprCodeStable(e, names, later[|names|..]);
  }

  lemma PredCodePrefix(p: Pred, names: seq<string>, later: seq<string>)
    requires names <= later && PredVars(p) <= ToSet(names)
    ensures PredCode(p, later) == PredCode(p, names)
  {
    assert later == names + later[|names|..];
    PredCodeStable(p, names, later[|names|..]);
  }

  // ----- The code of a clause, as the loop in parse_where builds it -----

  /** The finished part of the code when `done` comparisons and connectives have been
      compiled: each connective header followed by the comparison it precedes. */
  function Spine(done: seq<(Comparison, Connective)>, names: seq<string>): seq<Slot> {
    if done == [] then []
    else
      Header(CMP_OP, ConnOperator(done[0].1))
      + PredCode(ComparisonTree(done[0].0), names)
      + Spine(done[1..], names)
  }

  function Attach(done: seq<(Comparison, Connective)>, w: Clause): Clause {
    if done == [] then w else More(done[0].0, done[0].1, Attach(done[1..], w))
  }

  lemma {:induction false} SpineAppend(done: seq<(Comparison, Connective)>, c: Comparison, k: Connective, names: seq<string>)
    ensures Spine(done + [(c, k)], names) ==
            Cat(Cat(Spine(done, names), Header(CMP_OP, ConnOperator(k))), PredCode(ComparisonTree(c), names))
  {
    if done != [] {
      assert (done + [(c, k)])[1..] == done[1..] + [(c, k)];
      SpineAppend(done[1..], c, k, names);
    }
  }

  lemma {:induction false} AttachAppend(done: seq<(Comparison, Connective)>, c: Comparison, k: Connective, w: Clause)
    ensures Attach(done + [(c, k)], w) == Attach(done, More(c, k, w))
  {
    if done != [] {
      assert (done + [(c, k)])[1..] == done[1..] + [(c, k)];
      AttachAppend(done[1..], c, k, w);
    }
  }

  /** Putting each connective in front of its comparison gives the prefix code of the
      right-nested tree. */
  lemma {:induction false} SpineCode(done: seq<(Comparison, Connective)>, w: Clause, names: seq<string>)
    ensures PredCode(ClauseTree(Attach(done, w)), names) == Cat(Spine(done, names), PredCode(ClauseTree(w), names))
  {
    if done != [] {
      SpineCode(done[1..], w, names);
    }
  }

  /** Registering more variables leaves the code of the finished comparisons alone. */
  lemma {:induction false} SpinePrefix(done: seq<(Comparison, Connective)>, names: seq<string>, later: seq<string>)
    requires names <= later
    requires forall d :: d in done ==> PredVars(ComparisonTree(d.0)) <= ToSet(names)
    ensures Spine(done, later) == Spine(done, names)
  {
    if done != [] {
      PredCodePrefix(ComparisonTree(done[0].0), names, later);
      SpinePrefix(done[1..], names, later);
    }
  }

  // ----- Concatenated code -----

  /** Code followed by code. */
  function Cat(a: seq<Slot>, b: seq<Slot>): (r: seq<Slot>)
    ensures |r| == |a| + |b|
  {
    a + b
  }

  lemma CatAssoc(a: seq<Slot>, b: seq<Slot>, c: seq<Slot>)
    ensures Cat(Cat(a, b), c) == Cat(a, Cat(b, c))
  {
  }

  /** A comparison's tokens, variables and code in terms of its two sides. */
  lemma ComparisonParts(t: seq<Token>, at: nat, c: Comparison, names: seq<string>, before: seq<Slot>)
    requires ComparisonAt(t, at, c) && EndsComparison(TokenAt(t, at + ComparisonLength(c)))
    ensures var names1, names2, mid := RegisterExpr(names, c.left), RegisterComparison(names, c), at + ExprLength(c.left);
            var left, right := ExprCode(ExprTree(c.left), names1), ExprCode(ExprTree(c.right), names2);
            && RegisterExpr(names1, c.right) == names2 && |names1| <= |names2|
            && ExprAt(t, at, c.left) && TokenAt(t, mid) == CmpToken(c.rel) && ExprAt(t, mid + 1, c.right)
            && mid + 1 + ExprLength(c.right) == at + ComparisonLength(c)
            && |PredCode(ComparisonTree(c), names2)| == 2 + |left| + |right| && |right| > 0
            && |Header(CMP_OP, CmpOperator(c.rel))| == 2
            && Cat(Cat(Cat(before, Header(CMP_OP, CmpOperator(c.rel))), left), right)
               == Cat(before, PredCode(ComparisonTree(c), names2))
  {
    hide ExprTree, RegisterExpr, ExprAt, ToSet, ExprCode, ExprLength, ExprVars, Cat, Header;
    var names2 := RegisterComparison(names, c);
    RegisterComparisonGrows(names, c);
    RegisterExprGrows(names, c.left);
    ExprCodePrefix(ExprTree(c.left), RegisterExpr(names, c.left), names2);
    ComparisonCode(c, before, names2);
  }

  lemma ComparisonCode(c: Comparison, before: seq<Slot>, names: seq<string>)
    ensures var header, left, right :=
              Header(CMP_OP, CmpOperator(c.rel)), ExprCode(ExprTree(c.left), names), ExprCode(ExprTree(c.right), names);
            && Cat(Cat(Cat(before, header), left), right) == Cat(before, PredCode(ComparisonTree(c), names))
            && |header| == 2
            && |PredCode(ComparisonTree(c), names)| == 2 + |left| + |right|
  {
    var header, left, right :=
      Header(CMP_OP, CmpOperator(c.rel)), ExprCode(ExprTree(c.left), names), ExprCode(ExprTree(c.right), names);
    assert before + header + left + right == before + (header + left + right);
  }

  // ----- The parser -----

  /** What is known of the parser's comparisons so far: their variables are registered. */
  ghost predicate Known(done: seq<(Comparison, Connective)>, c: Comparison, names: seq<string>) {
    && PredVars(ComparisonTree(c)) <= ToSet(names)
    && forall e :: e in done ==> PredVars(ComparisonTree(e.0)) <= ToSet(names)
  }

  function RightTree(s: ExprSyntax): Expr
    requires !s.Single?
  {
    if s.Binary? then Leaf(s.second) else ExprTree(s.inner)
  }

  lemma TreeParts(s: ExprSyntax, names: seq<string>)
    requires !s.Single?
    ensures ExprCode(ExprTree(s), names) ==
            Cat(Header(ARITH_OP, ArithOperator(s.op)), Cat(ExprCode(Leaf(s.o), names), ExprCode(RightTree(s), names)))
    ensures |ExprCode(Leaf(s.o), names)| == 2
  {
  }

  /** The table after the rest of a clause, behind its first comparison, has been registered. */
  function NextNames(names: seq<string>, rest: Clause): seq<string> {
    if rest.Last? then names else RegisterClause(names, rest.rest)
  }

  /** How much code the remaining connectives and comparisons will add. */
  function TailCode(rest: Clause, names: seq<string>): nat {
    if rest.Last? then 0 else 2 + |PredCode(ClauseTree(rest.rest), names)|
  }

  lemma ClauseRoom(names: seq<string>, w: Clause)
    ensures var mid, final := RegisterComparison(names, w.c), RegisterClause(names, w);
            && NextNames(mid, w) == final && mid <= final
            && Known([], w.c, mid)
            && |PredCode(ClauseTree(w), final)| == |PredCode(ComparisonTree(w.c), mid)| + TailCode(w, final)
  {
    RegisterComparisonGrows(names, w.c);
    RegisterClauseGrows(names, w);
    PredCodePrefix(ComparisonTree(w.c), RegisterComparison(names, w.c), RegisterClause(names, w));
  }

  lemma StartParts(w: Clause, names: seq<string>)
    ensures Attach([], w) == w && Spine([], names) == []
    ensures Cat([], PredCode(ComparisonTree(w.c), names)) == PredCode(ComparisonTree(w.c), names)
    ensures ClauseLength(w) == ComparisonLength(w.c) + TailLength(w)
    ensures forall t, i: nat :: ClauseAt(t, i, w) ==>
              ComparisonAt(t, i, w.c) && EndsComparison(TokenAt(t, i + ComparisonLength(w.c))) &&
              TailAt(t, i + ComparisonLength(w.c), w)
  {
    hide PredCode, ComparisonTree, ExprAt, ExprLength, RegisterClause;
  }

  /** What the next token says about the rest of the clause. */
  lemma TailParts(t: seq<Token>, i: nat, w: Clause, names: seq<string>, final: seq<string>)
    requires TailAt(t, i, w)
    ensures TokenAt(t, i).ConnToken? == w.More?
    ensures w.Last? ==> TailLength(w) == 0 && NextNames(names, w) == names && ClauseTree(w) == ComparisonTree(w.c)
    ensures w.More? ==>
              && TokenAt(t, i) == ConnToken(w.k) && ClauseAt(t, i + 1, w.rest)
              && TailLength(w) == 1 + ClauseLength(w.rest)
              && NextNames(names, w) == RegisterClause(names, w.rest)
              && TailCode(w, final) == 2 + |PredCode(ClauseTree(w.rest), final)|
  {
  }

  lemma KnownGrows(done: seq<(Comparison, Connective)>, c: Comparison, k: Connective, d: Comparison, names: seq<string>)
    requires Known(done, c, names)
    ensures Known(done + [(c, k)], d, RegisterComparison(names, d))
  {
    RegisterComparisonGrows(names, d);
  }

  /** Compiling one more comparison extends the spine by the one before it. */
  lemma SpineGrows(done: seq<(Comparison, Connective)>, c: Comparison, k: Connective, d: Comparison, names: seq<string>)
    requires Known(done, c, names)
    ensures Spine(done + [(c, k)], RegisterComparison(names, d)) ==
            Cat(Cat(Spine(done, names), Header(CMP_OP, ConnOperator(k))), PredCode(ComparisonTree(c), names))
  {
    RegisterComparisonGrows(names, d);
    SpineAppend(done, c, k, names);
    SpinePrefix(done + [(c, k)], names, RegisterComparison(names, d));
  }

  /** All that compiling one more comparison changes, in one statement. */
  lemma NextParts(t: seq<Token>, at: nat, k: Connective, done: seq<(Comparison, Connective)>, c: Comparison, w: Clause,
                  final: seq<string>, names: seq<string>)
    requires ClauseAt(t, at, w) && RegisterClause(names, w) == final && Known(done, c, names)
    ensures var now, grown := RegisterComparison(names, w.c), done + [(c, k)];
            var header, last := Header(CMP_OP, ConnOperator(k)), PredCode(ComparisonTree(c), names);
            && ComparisonAt(t, at, w.c) && EndsComparison(TokenAt(t, at + ComparisonLength(w.c)))
            && TailAt(t, at + ComparisonLength(w.c), w)
            && ComparisonLength(w.c) + TailLength(w) == ClauseLength(w)
            && NextNames(now, w) == final && |now| <= |final|
            && |PredCode(ClauseTree(w), final)| == |PredCode(ComparisonTree(w.c), now)| + TailCode(w, final)
            && Known(grown, w.c, now)
            && Spine(grown, now) == Cat(Cat(Spine(done, names), header), last)
            && |header| == 2 && |last| > 0
  {
    ClauseRoom(names, w);
    StartParts(w, names);
    KnownGrows(done, c, k, w.c, names);
    SpineGrows(done, c, k, w.c, names);
  }

  lemma Splice(before: seq<Slot>, after: seq<Slot>, whole: seq<Slot>)
    requires whole == Cat(before, after)
    ensures whole[..|before|] == before && whole[|before|..] == after
  {
  }

  lemma SpliceGap(before: seq<Slot>, gap: seq<Slot>, code: seq<Slot>, whole: seq<Slot>)
    requires whole == Cat(Cat(before, gap), code)
    ensures whole[..|before|] == before && whole[|before| + |gap|..] == code
  {
  }

  class Parser {
    const tokens: seq<Token> // what the lexer delivers, in order
    var pos: nat
    const p: Instance

    constructor (tokens: seq<Token>, p: Instance)
      ensures this.tokens == tokens && this.p == p && pos == 0
    {
      this.tokens, this.p, pos := tokens, p, 0;
    }

    /** The parser has read `at` tokens, registered `names` and emitted `text`. */
    ghost predicate Stands(at: nat, names: seq<string>, text: seq<Slot>)
      reads this`pos, p, p.code
    {
      p.Valid() && pos == at && p.names == names && p.text == text
    }

    method Next() returns (t: Token)
      modifies this`pos
      ensures pos == old(pos) + 1 && t == TokenAt(tokens, old(pos))
    {
      t := if pos < |tokens| then tokens[pos] else End;
      pos := pos + 1;
    }

    /** parse_operand: emits an operand, or fails on an opening parenthesis. */
    method ParseOperand(ghost o: Operand, ghost at: nat, ghost names: seq<string>, ghost text: seq<Slot>)
      returns (ok: bool)
      requires Stands(at, names, text) && |text| + 2 <= p.code.Length
      requires TokenAt(tokens, at) == OperandToken(o) || TokenAt(tokens, at) == LeftParen
      requires |Register(names, o)| <= MAX_VARIABLES
      modifies this`pos, p`end, p`text, p`names, p`values, p.code
      ensures ok <==> TokenAt(tokens, at) != LeftParen
      ensures ok ==> Stands(at + 1, Register(names, o), Cat(text, ExprCode(Leaf(o), Register(names, o))))
      ensures !ok ==> Stands(at + 1, names, text)
    {
      var t := Next();
      match t {
        case Identifier(name) =>
          var _ := p.RegisterVariable(name);
          p.SetOperand(VariableOperand(Find(p.names, name)));
          ok := true;
        case IntegerValue(l) =>
          p.SetOperand(LongOperand(l));
          ok := true;
        case _ =>
          ok := false;
      }
    }

    /** Open a gap in front of the code `after`, which starts at `from`, and put a header into it. */
    method InsertHeader(from: nat, t: NodeType, op: Operator,
                        ghost at: nat, ghost names: seq<string>, ghost before: seq<Slot>, ghost after: seq<Slot>)
      returns (newEnd: nat)
      requires Stands(at, names, Cat(before, after)) && from == |before| && |after| > 0
      requires |before| + |after| + 2 < p.code.Length
      modifies p`end, p`error, p`text, p.code
      ensures Stands(at, names, Cat(Cat(before, Header(t, op)), after))
      ensures p.error == old(p.error) && newEnd == |before| + 2 + |after|
    {
      Splice(before, after, p.text);
      newEnd := p.ShiftForOperator(from);
      ghost var tail := p.code[from + 2..];
      assert tail[..|after|] == after;
      p.SetHeader(t, op);
      assert p.text == Cat(before, Header(t, op));
      var _ := p.SetEnd(newEnd);
      assert p.code[..newEnd] == p.code[..from + 2] + tail[..|after|];
    }

    /** The second half of an expression: an operand or, when that fails on an opening
        parenthesis, an expression. */
    method ParseRightOperand(ghost s: ExprSyntax, ghost at: nat, ghost names: seq<string>, ghost text: seq<Slot>)
      requires !s.Single? && ExprAt(tokens, at, s)
      requires Stands(at + 2, Register(names, s.o), text)
      requires |RegisterExpr(names, s)| <= MAX_VARIABLES
      requires |text| + |ExprCode(RightTree(s), RegisterExpr(names, s))| + 2 < p.code.Length
      modifies this`pos, p`end, p`error, p`text, p`names, p`values, p.code
      ensures p.error == old(p.error)
      ensures Stands(at + ExprLength(s), RegisterExpr(names, s), Cat(text, ExprCode(RightTree(s), RegisterExpr(names, s))))
      decreases s, 0
    {
      hide Stands, Cat, ToSet, ExprCode, Find, OperandCode, ExprVars, Instance.Valid;
      RegisterExprGrows(names, s);
      ghost var once := Register(names, s.o);
      var r := ParseOperand(if s.Binary? then s.second else s.o, at + 2, once, text);
      if !r {
        var _ := ParseExpr(s.inner, at + 3, once, text);
      }
    }

    /** One round of the operator loop of parse_expr, entered with the first operand's
        code at `savedEnd` and its operator just read. */
    method EmitOperation(savedEnd: nat, op: ArithOp,
                         ghost s: ExprSyntax, ghost at: nat, ghost names: seq<string>, ghost text: seq<Slot>)
      returns (newEnd: nat)
      requires !s.Single? && op == s.op && ExprAt(tokens, at, s)
      requires |RegisterExpr(names, s)| <= MAX_VARIABLES
      requires |text| + |ExprCode(ExprTree(s), RegisterExpr(names, s))| < p.code.Length
      requires Stands(at + 2, Register(names, s.o), Cat(text, ExprCode(Leaf(s.o), RegisterExpr(names, s))))
      requires savedEnd == |text|
      modifies this`pos, p`end, p`error, p`text, p`names, p`values, p.code
      ensures p.error == old(p.error)
      ensures Stands(at + ExprLength(s), RegisterExpr(names, s), Cat(text, ExprCode(ExprTree(s), RegisterExpr(names, s))))
      decreases s, 1
    {
      ghost var later := RegisterExpr(names, s);
      TreeParts(s, later);
      hide RegisterExpr, ExprAt, ExprLength, Register, ExprTree, ExprCode, RightTree, Stands, Cat;
      ghost var leaf, right := ExprCode(Leaf(s.o), later), ExprCode(RightTree(s), later);
      ghost var header := Header(ARITH_OP, ArithOperator(op));
      ParseRightOperand(s, at, names, Cat(text, leaf));
      CatAssoc(text, leaf, right);
      newEnd := InsertHeader(savedEnd, ARITH_OP, ArithOperator(op), at + ExprLength(s), later, text, Cat(leaf, right));
      CatAssoc(text, header, Cat(leaf, right));
    }

    /** parse_expr on the tokens of `s`: appends the prefix code of its tree.  A closing
        parenthesis right after it is consumed as well. */
    method ParseExpr(ghost s: ExprSyntax, ghost at: nat, ghost names: seq<string>, ghost text: seq<Slot>)
      returns (ok: bool)
      requires Stands(at, names, text)
      requires ExprAt(tokens, at, s) && !TokenAt(tokens, at + ExprLength(s)).ArithToken?
      requires |RegisterExpr(names, s)| <= MAX_VARIABLES
      requires |text| + |ExprCode(ExprTree(s), RegisterExpr(names, s))| < p.code.Length
      modifies this`pos, p`end, p`error, p`text, p`names, p`values, p.code
      ensures ok && p.error == old(p.error)
      ensures Stands(at + ExprLength(s) + (if TokenAt(tokens, at + ExprLength(s)) == RightParen then 1 else 0),
                     RegisterExpr(names, s), Cat(text, ExprCode(ExprTree(s), RegisterExpr(names, s))))
      decreases s, 3
    {
      ghost var later := RegisterExpr(names, s);
      ExprParts(tokens, at, s, names);
      RegisterExprGrows(names, s);
      ExprCodePrefix(Leaf(s.o), Register(names, s.o), later);
      var savedEnd := p.end;
      assert savedEnd == |text|;
      hide ExprTree, ExprCode, Register, RegisterExpr, ExprAt, ExprLength, ToSet, ExprVars, Stands, Cat;
      // No expression of this grammar starts with a parenthesis.
      ok := ParseOperand(s.o, at, names, text);
      ghost var complete := s.Single?;
      var more := true;
      while more
        invariant p.error == old(p.error)
        invariant more ==> complete || !s.Single?
        invariant complete && more ==> Stands(at + ExprLength(s), later, Cat(text, ExprCode(ExprTree(s), later)))
        invariant !complete ==> more && savedEnd == |text|
        invariant !complete ==> Stands(at + 1, Register(names, s.o), Cat(text, ExprCode(Leaf(s.o), later)))
        invariant !more ==> Stands(at + ExprLength(s) + (if TokenAt(tokens, at + ExprLength(s)) == RightParen then 1 else 0),
                                   later, Cat(text, ExprCode(ExprTree(s), later)))
        decreases more, !complete
      {
        savedEnd, more := OperatorStep(savedEnd, s, at, names, text, complete);
        complete := true;
      }
      ok := true;
    }

    /** One iteration of the operator loop of parse_expr: stop, or emit the operation that
        follows.  `complete` says that the whole tree has been emitted already. */
    method OperatorStep(savedEnd0: nat, ghost s: ExprSyntax, ghost at: nat, ghost names: seq<string>, ghost text: seq<Slot>,
                        ghost complete: bool)
      returns (savedEnd: nat, more: bool)
      requires ExprAt(tokens, at, s) && !TokenAt(tokens, at + ExprLength(s)).ArithToken?
      requires |RegisterExpr(names, s)| <= MAX_VARIABLES
      requires |text| + |ExprCode(ExprTree(s), RegisterExpr(names, s))| < p.code.Length
      requires complete ==>
                 Stands(at + ExprLength(s), RegisterExpr(names, s), Cat(text, ExprCode(ExprTree(s), RegisterExpr(names, s))))
      requires !complete ==> !s.Single? && savedEnd0 == |text|
      requires !complete ==>
                 Stands(at + 1, Register(names, s.o), Cat(text, ExprCode(Leaf(s.o), RegisterExpr(names, s))))
      modifies this`pos, p`end, p`error, p`text, p`names, p`values, p.code
      ensures p.error == old(p.error) && more == !complete
      ensures more ==>
                Stands(at + ExprLength(s), RegisterExpr(names, s), Cat(text, ExprCode(ExprTree(s), RegisterExpr(names, s))))
      ensures !more ==>
                Stands(at + ExprLength(s) + (if TokenAt(tokens, at + ExprLength(s)) == RightParen then 1 else 0),
                       RegisterExpr(names, s), Cat(text, ExprCode(ExprTree(s), RegisterExpr(names, s))))
      decreases s, 2
    {
      hide ExprTree, ExprCode, Register, RegisterExpr, ExprAt, ExprLength, ToSet, ExprVars, Cat, Instance.Valid;
      ExprParts(tokens, at, s, names);
      savedEnd, more := savedEnd0, true;
      var token := Next();
      if !token.ArithToken? && token != RightParen {
        savedEnd, more := p.end, false;
        pos := pos - 1;
      } else if token == RightParen {
        more := false;
      } else {
        savedEnd := EmitOperation(savedEnd, token.op, s, at, names, text);
      }
    }

    /** parse_comparison: the relation's header is filled in after the left expression
        has been compiled behind it. */
    method ParseComparison(ghost c: Comparison, ghost at: nat, ghost names: seq<string>, ghost text: seq<Slot>)
      returns (ok: bool)
      requires Stands(at, names, text)
      requires ComparisonAt(tokens, at, c) && EndsComparison(TokenAt(tokens, at + ComparisonLength(c)))
      requires |RegisterComparison(names, c)| <= MAX_VARIABLES
      requires |text| + |PredCode(ComparisonTree(c), RegisterComparison(names, c))| < p.code.Length
      modifies this`pos, p`end, p`error, p`text, p`names, p`values, p.code
      ensures ok && p.error == old(p.error)
      ensures Stands(at + ComparisonLength(c), RegisterComparison(names, c),
                     Cat(text, PredCode(ComparisonTree(c), RegisterComparison(names, c))))
    {
      hide ExprTree, RegisterExpr, ExprAt, ToSet, ExprCode, ExprLength, ExprVars, Cat, PredCode, PredVars, Header, Stands,
        ComparisonTree, ComparisonAt, ComparisonLength, RegisterComparison;
      ghost var names1, header := RegisterExpr(names, c.left), Header(CMP_OP, CmpOperator(c.rel));
      ghost var left := ExprCode(ExprTree(c.left), names1);
      ComparisonParts(tokens, at, c, names, text);
      ok := ParseLeft(c, at, names, text);
      if ok {
        ok := ParseExpr(c.right, at + ExprLength(c.left) + 1, names1, Cat(Cat(text, header), left));
      }
    }

    /** The first half of parse_comparison, up to and including the relation. */
    method ParseLeft(ghost c: Comparison, ghost at: nat, ghost names: seq<string>, ghost text: seq<Slot>)
      returns (ok: bool)
      requires Stands(at, names, text)
      requires ExprAt(tokens, at, c.left) && TokenAt(tokens, at + ExprLength(c.left)) == CmpToken(c.rel)
      requires |RegisterExpr(names, c.left)| <= MAX_VARIABLES
      requires |text| + 2 + |ExprCode(ExprTree(c.left), RegisterExpr(names, c.left))| < p.code.Length
      modifies this`pos, p`end, p`error, p`text, p`names, p`values, p.code
      ensures ok && p.error == old(p.error)
      ensures Stands(at + ExprLength(c.left) + 1, RegisterExpr(names, c.left),
                     Cat(Cat(text, Header(CMP_OP, CmpOperator(c.rel))), ExprCode(ExprTree(c.left), RegisterExpr(names, c.left))))
    {
      hide ExprTree, RegisterExpr, ExprAt, ExprCode, ExprLength, Cat, Header, Stands;
      var gapStart;
      ghost var gap;
      gapStart, gap := OpenGap(at, names, text);
      ok := ParseExpr(c.left, at, names, Cat(text, gap));
      ghost var later := RegisterExpr(names, c.left);
      ok := ParseRelation(gapStart, c.rel, at + ExprLength(c.left), later, text, gap, ExprCode(ExprTree(c.left), later));
    }

    method OpenGap(ghost at: nat, ghost names: seq<string>, ghost text: seq<Slot>) returns (gapStart: nat, ghost gap: seq<Slot>)
      requires Stands(at, names, text) && |text| + 2 < p.code.Length
      modifies p`end, p`error, p`text
      ensures p.error == old(p.error) && gapStart == |text|
      ensures |gap| == 2 && Stands(at, names, Cat(text, gap))
    {
      gapStart := p.JumpToOperand();
      gap := p.code[gapStart..p.end];
    }

    /** The middle of parse_comparison: go back to the gap, read the relation, write its
        header and continue behind the left expression. */
    method ParseRelation(gapStart: nat, ghost rel: CmpOp, ghost at: nat, ghost names: seq<string>,
                         ghost before: seq<Slot>, ghost gap: seq<Slot>, ghost left: seq<Slot>)
      returns (ok: bool)
      requires Stands(at, names, Cat(Cat(before, gap), left)) && TokenAt(tokens, at) == CmpToken(rel)
      requires gapStart == |before| && |gap| == 2 && |before| + 2 + |left| < p.code.Length
      modifies this`pos, p`end, p`error, p`text, p.code
      ensures ok && p.error == old(p.error)
      ensures Stands(at + 1, names, Cat(Cat(before, Header(CMP_OP, CmpOperator(rel))), left))
    {
      SpliceGap(before, gap, left, p.text);
      ghost var tail := p.code[gapStart + 2..];
      assert tail[..|left|] == p.text[gapStart + 2..] == left;
      var savedEnd := p.SetEnd(gapStart);
      var token := Next();
      if !token.CmpToken? {
        return false;
      }
      p.SetHeader(CMP_OP, CmpOperator(token.rel));
      assert p.text == before + Header(CMP_OP, CmpOperator(rel));
      assert p.code[p.end..savedEnd] == p.code[p.end..][..|left|] == tail[..|left|];
      var _ := p.SetEnd(savedEnd);
      assert p.text == before + Header(CMP_OP, CmpOperator(rel)) + left;
      ok := true;
    }

    /** Where the loop of parse_where stands: `done` is compiled with its connectives, the
        first comparison of `rest` is compiled behind it, and the tokens of what follows
        that comparison are next. */
    ghost predicate WhereState(w: Clause, start: nat, final: seq<string>,
                               savedEnd: nat, done: seq<(Comparison, Connective)>, rest: Clause, names: seq<string>)
      reads this`pos, p, p.code
    {
      var at := start + ClauseLength(w) - TailLength(rest);
      var text := Cat(Spine(done, names), PredCode(ComparisonTree(rest.c), names));
      && at >= 0 && Stands(at, names, text) && savedEnd == |Spine(done, names)|
      && w == Attach(done, rest) && TailAt(tokens, at, rest)
      && |final| <= MAX_VARIABLES && NextNames(names, rest) == final
      && |text| + TailCode(rest, final) < p.code.Length
      && Known(done, rest.c, names)
    }

    /** parse_where: the emitted code is exactly the prefix code of the clause's tree. */
    method ParseWhere(ghost w: Clause, ghost at: nat, ghost names: seq<string>) returns (ok: bool)
      requires Stands(at, names, []) && ClauseAt(tokens, at, w)
      requires |RegisterClause(names, w)| <= MAX_VARIABLES
      requires |PredCode(ClauseTree(w), RegisterClause(names, w))| < p.code.Length
      modifies this`pos, p`end, p`error, p`text, p`names, p`values, p.code
      ensures ok && p.error == old(p.error)
      ensures Stands(at + ClauseLength(w), RegisterClause(names, w), PredCode(ClauseTree(w), RegisterClause(names, w)))
    {
      ghost var final := RegisterClause(names, w);
      ghost var done: seq<(Comparison, Connective)>, rest := [], w;
      ghost var now := RegisterComparison(names, w.c);
      hide RegisterClause, RegisterComparison, ClauseTree, PredCode, ClauseAt, WhereState, Stands, ClauseLength;
      FirstComparison(w, at, names);
      var savedEnd, more := 0, true;
      while more
        invariant WhereState(w, at, final, savedEnd, done, rest, now) && p.error == old(p.error)
        invariant !more ==> rest.Last?
        decreases rest, more
      {
        savedEnd, more := WhereStep(w, at, final, savedEnd, done, rest, now);
        if more {
          done, rest, now := done + [(rest.c, rest.k)], rest.rest, RegisterComparison(now, rest.rest.c);
        }
      }
      WhereFinished(w, at, final, savedEnd, done, rest, now);
      ok := true;
    }

    /** Compile the comparison that every clause starts with. */
    method FirstComparison(ghost w: Clause, ghost at: nat, ghost names: seq<string>)
      requires Stands(at, names, []) && ClauseAt(tokens, at, w)
      requires |RegisterClause(names, w)| <= MAX_VARIABLES
      requires |PredCode(ClauseTree(w), RegisterClause(names, w))| < p.code.Length
      modifies this`pos, p`end, p`error, p`text, p`names, p`values, p.code
      ensures p.error == old(p.error)
      ensures WhereState(w, at, RegisterClause(names, w), 0, [], w, RegisterComparison(names, w.c))
    {
      hide RegisterClause, ClauseTree, PredCode, ClauseAt, ComparisonAt, ClauseLength, RegisterComparison, ComparisonTree,
        PredVars, ToSet, TailCode, TailAt, TailLength, NextNames, Attach, Spine, Cat, Stands, Known;
      ClauseRoom(names, w);
      StartParts(w, RegisterComparison(names, w.c));
      var _ := ParseComparison(w.c, at, names, []);
    }

    /** One iteration of the loop in parse_where: stop, or put the connective in front of
        the last comparison and compile the next one after it. */
    method WhereStep(ghost w: Clause, ghost start: nat, ghost final: seq<string>,
                     savedEnd0: nat, ghost done: seq<(Comparison, Connective)>, ghost rest: Clause, ghost names: seq<string>)
      returns (savedEnd: nat, more: bool)
      requires WhereState(w, start, final, savedEnd0, done, rest, names)
      modifies this`pos, p`end, p`error, p`text, p`names, p`values, p.code
      ensures p.error == old(p.error) && more == rest.More?
      ensures more ==> WhereState(w, start, final, savedEnd, done + [(rest.c, rest.k)], rest.rest,
                                  RegisterComparison(names, rest.rest.c))
      ensures !more ==> WhereState(w, start, final, savedEnd, done, rest, names)
    {
      hide RegisterClause, RegisterComparison, ClauseTree, PredCode, ClauseAt, ClauseLength, ComparisonTree, Known,
        TailCode, TailAt, TailLength, NextNames, Attach, Spine, Cat, Instance.Valid;
      TailParts(tokens, pos, rest, names, final);
      savedEnd, more := savedEnd0, false;
      ghost var at := pos;
      var token := Next();
      if token.ConnToken? {
        AttachAppend(done, rest.c, rest.k, rest.rest);
        savedEnd := NextComparison(savedEnd, token.k, at + 1, done, rest, final, names);
        more := true;
      } else {
        pos := pos - 1;
      }
    }

    lemma WhereFinished(w: Clause, start: nat, final: seq<string>, savedEnd: nat,
                        done: seq<(Comparison, Connective)>, rest: Clause, names: seq<string>)
      requires WhereState(w, start, final, savedEnd, done, rest, names) && rest.Last?
      ensures Stands(start + ClauseLength(w), final, PredCode(ClauseTree(w), final))
    {
      SpineCode(done, rest, final);
    }

    method NextComparison(savedEnd: nat, k: Connective, ghost at: nat, ghost done: seq<(Comparison, Connective)>, ghost w: Clause,
                          ghost final: seq<string>, ghost names: seq<string>)
      returns (newEnd: nat)
      requires w.More? && k == w.k && ClauseAt(tokens, at, w.rest)
      requires RegisterClause(names, w.rest) == final && |final| <= MAX_VARIABLES
      requires var text := Cat(Spine(done, names), PredCode(ComparisonTree(w.c), names));
               Stands(at, names, text) && |text| + 2 + |PredCode(ClauseTree(w.rest), final)| < p.code.Length
      requires savedEnd == |Spine(done, names)| && Known(done, w.c, names)
      modifies this`pos, p`end, p`error, p`text, p`names, p`values, p.code
      ensures p.error == old(p.error)
      ensures var now, grown := RegisterComparison(names, w.rest.c), done + [(w.c, k)];
              var text := Cat(Spine(grown, now), PredCode(ComparisonTree(w.rest.c), now));
              && Stands(at + ComparisonLength(w.rest.c), now, text)
              && TailAt(tokens, at + ComparisonLength(w.rest.c), w.rest)
              && ComparisonLength(w.rest.c) + TailLength(w.rest) == ClauseLength(w.rest)
              && NextNames(now, w.rest) == final
              && |text| + TailCode(w.rest, final) < p.code.Length
              && Known(grown, w.rest.c, now)
              && newEnd == |Spine(grown, now)|
    {
      hide PredCode, PredVars, ClauseTree, ComparisonTree, ComparisonAt, ToSet, RegisterClause, RegisterComparison,
        ComparisonLength, ClauseLength, TailLength, TailAt, TailCode, NextNames, Spine, Cat, Known, Stands, Header;
      NextParts(tokens, at, k, done, w.c, w.rest, final, names);
      ghost var before, last := Spine(done, names), PredCode(ComparisonTree(w.c), names);
      newEnd := InsertHeader(savedEnd, CMP_OP, ConnOperator(k), at, names, before, last);
      var _ := ParseComparison(w.rest.c, at, names, Cat(Cat(before, Header(CMP_OP, ConnOperator(k))), last));
    }
  }

  /** Set each variable of a row that the clause knows; the code is left alone. */
  method LoadRow(p: Instance, row: seq<(string, long)>)
    requires p.Valid() && Room(p.names, RowVars(row))
    modifies p`values
    ensures p.Valid()
    ensures Agree(p.Env(), RowEnv(row), ToSet(p.names) * RowVars(row))
  {
    for i := 0 to |row|
      invariant p.Valid()
      invariant Agree(p.Env(), RowEnv(row[..i]), ToSet(p.names) * RowVars(row[..i]))
    {
      ghost var before := p.Env();
      assert row[i] in row;
      var _ := p.SetVariableValue(row[i].0, row[i].1);
      assert row[..i + 1][..i] == row[..i];
      ExtendAgreement(before, RowEnv(row[..i]), p.names, RowVars(row[..i]), row[i].0, row[i].1);
      assert RowVars(row[..i + 1]) == RowVars(row[..i]) + {row[i].0};
    }
    assert row[..|row|] == row;
  }

  /** Compiling a clause, giving its variables the values in `row` and running the code:
      the outcome is the truth value that the clause has under `row`, or an error exactly
      when some division in it has a zero divisor. */
  method CompileAndExecute(size: nat, tokens: seq<Token>, ghost w: Clause, row: seq<(string, long)>) returns (status: Status)
    requires tokens == ClauseTokens(w)
    requires |RegisterClause([], w)| <= MAX_VARIABLES
    requires |PredCode(ClauseTree(w), RegisterClause([], w))| < size
    requires PredVars(ClauseTree(w)) <= RowVars(row) && Room(RegisterClause([], w), RowVars(row))
    ensures status == if Faults(ClauseTree(w), RowEnv(row)) then MATH_ERROR else Truth(Holds(ClauseTree(w), RowEnv(row)))
  {
    hide PredCode, PredVars, RegisterClause, ClauseTree, ClauseAt, ClauseTokens, ClauseLength, Holds, Faults, RowEnv;
    var p := new Instance(size);
    var parser := new Parser(tokens, p);
    ClauseTokensAt(w, [], []);
    assert [] + tokens + [] == tokens;
    var _ := parser.ParseWhere(w, 0, []);
    RegisterClauseGrows([], w);
    status := LoadAndExecute(p, ClauseTree(w), row);
  }

  /** Run compiled code on a row. */
  method LoadAndExecute(p: Instance, ghost q: Pred, row: seq<(string, long)>) returns (status: Status)
    requires p.Valid() && p.text == PredCode(q, p.names) && PredVars(q) <= ToSet(p.names)
    requires PredVars(q) <= RowVars(row) && Room(p.names, RowVars(row))
    modifies p`values, p`ip
    ensures p.Valid()
    ensures status == if Faults(q, RowEnv(row)) then MATH_ERROR else Truth(Holds(q, RowEnv(row)))
  {
    hide PredCode, PredVars, Holds, Faults, RowEnv, RowVars, ToSet;
    assert p.At(0, PredCode(q, p.names));
    LoadRow(p, row);
    status := p.Execute(q);
    AgreeSubset(p.Env(), RowEnv(row), PredVars(q), ToSet(p.names) * RowVars(row));
    SameOutcome(q, p.Env(), RowEnv(row));
  }

  lemma AgreeSubset(a: Env, b: Env, vars: set<string>, more: set<string>)
    requires Agree(a, b, more) && vars <= more
    ensures Agree(a, b, vars)
  {
  }

  function RowVars(row: seq<(string, long)>): set<string> {
    set r | r in row :: r.0
  }

  /** The assignment a row makes; a later entry for the same name wins. */
  function RowEnv(row: seq<(string, long)>): Env {
    if row == [] then map[]
    else RowEnv(row[..|row| - 1])[row[|row| - 1].0 := row[|row| - 1].1]
  }

  ghost predicate Agree(a: Env, b: Env, vars: set<string>) {
    forall n :: n in vars ==> Lookup(a, n) == Lookup(b, n)
  }

  lemma ExtendAgreement(a: Env, b: Env, names: seq<string>, vars: set<string>, n: string, v: long)
    requires Agree(a, b, ToSet(names) * vars)
    ensures Agree(if n in names then a[n := v] else a, b[n := v], ToSet(names) * (vars + {n}))
  {
    forall m | m in ToSet(names) * (vars + {n})
      ensures Lookup(if n in names then a[n := v] else a, m) == Lookup(b[n := v], m)
    {
      assert m != n ==> m in ToSet(names) * vars;
    }
  }

  lemma {:induction false} SameValue(e: Expr, a: Env, b: Env)
    requires Agree(a, b, ExprVars(e))
    ensures Value(e, a) == Value(e, b)
  {
    match e
    case Leaf(_) =>
    case Arith(_, l, r) =>
      SameValue(l, a, b);
      SameValue(r, a, b);
  }

  lemma {:induction false} SameExprFaults(e: Expr, a: Env, b: Env)
    requires Agree(a, b, ExprVars(e))
    ensures ExprFaults(e, a) == ExprFaults(e, b)
  {
    match e
    case Leaf(_) =>
    case Arith(op, l, r) =>
      SameExprFaults(l, a, b);
      SameExprFaults(r, a, b);
      SameValue(r, a, b);
      ExprFaultsArith(op, l, r, a);
      ExprFaultsArith(op, l, r, b);
  }

  /** The outcome of a clause depends on the values of its own variables only. */
  lemma {:induction false} SameOutcome(p: Pred, a: Env, b: Env)
    requires Agree(a, b, PredVars(p))
    ensures Holds(p, a) == Holds(p, b) && Faults(p, a) == Faults(p, b)
  {
    FaultsParts(p, a);
    FaultsParts(p, b);
    match p
    case Cmp(_, l, r) =>
      SameValue(l, a, b);
      SameValue(r, a, b);
      SameExprFaults(l, a, b);
      SameExprFaults(r, a, b);
    case Conn(_, q, r) =>
      SameOutcome(q, a, b);
      SameOutcome(r, a, b);
    case Not(q) =>
      SameOutcome(q, a, b);
  }
}
