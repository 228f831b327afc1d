/** The JSON parser (apps/json/jsonparse.c): a machine that returns one token at a time, and
    what it finds in the text that the printer writes. */
module JsonParse {

  import opened JsonTree

  const JSONPARSE_MAX_DEPTH: nat := 10

  /** The type of no value: a zero byte. */
  const NONE: char := '\0'
  const PAIR_NAME: char := 'N'
  const NUMBER: char := '0'

  datatype Error = Ok | Syntax | UnexpectedArray | UnexpectedEndOfArray | UnexpectedString

  /** The parser's state; the stack holds the open brackets and the colons of open pairs. */
  datatype State = State(pos: nat, stack: seq<char>, vstart: int, vlen: int, vtype: char)

  /** What one call returns. */
  datatype Out = Out(kind: char, state: State, error: Error)

  // ----- One step -----

  /** The text is followed by a zero. */
  function At(json: string, i: nat): char {
    if i < |json| then json[i] else NONE
  }

  function SkipWs(json: string, p: nat): nat
    decreases |json| - p
  {
    if p < |json| && (json[p] == ' ' || json[p] == '\n') then SkipWs(json, p + 1) else p
  }

  /** The position behind the quote that ends a string; the character after a backslash is
      skipped. */
  function ScanString(json: string, p: nat): nat
    decreases |json| + 2 - p
  {
    if At(json, p) == NONE || At(json, p) == '"' then p + 1
    else if At(json, p) == '\\' then ScanString(json, p + 2)
    else ScanString(json, p + 1)
  }

  predicate Numeric(c: char) {
    '0' <= c <= '9' || c == '.'
  }

  function ScanNumber(json: string, p: nat): (q: nat)
    ensures q >= p
    decreases |json| - p
  {
    if p < |json| && Numeric(json[p]) then ScanNumber(json, p + 1) else p
  }

  /** jsonparse_get_type */
  function Top(stack: seq<char>): char {
    if stack == [] then NONE else stack[|stack| - 1]
  }

  function Pop(stack: seq<char>): seq<char> {
    if stack == [] then [] else stack[..|stack| - 1]
  }

  function Push(s: State, c: char): State {
    s.(stack := s.stack + [c], vtype := NONE)
  }

  /** atomic, for strings and names */
  function StringAt(json: string, s: State, kind: char): State {
    var q := ScanString(json, s.pos);
    s.(vstart := s.pos, vtype := kind, pos := q, vlen := q - s.pos - 1)
  }

  /** atomic, for numbers: the first digit has been read */
  function NumberAt(json: string, s: State): State {
    var q := ScanNumber(json, s.pos);
    s.(vstart := s.pos - 1, vtype := NUMBER, pos := q, vlen := q - (s.pos - 1))
  }

  /** jsonparse_next */
  function Next(json: string, s0: State): Out {
    var q := SkipWs(json, s0.pos);
    var c := At(json, q);
    var top := Top(s0.stack);
    var s := s0.(pos := q + 1);
    if c == '{' || c == ':' then Out(c, Push(s, c), Ok)
    else if c == '}' then
      var s' := if top == ':' && s.vtype != NONE then s.(stack := Pop(s.stack)) else s;
      if Top(s'.stack) == '{' then Out(c, s'.(stack := Pop(s'.stack)), Ok) else Out(NONE, s', Syntax)
    else if c == ']' then
      if top == '[' then Out(c, s.(stack := Pop(s.stack)), Ok) else Out(NONE, s, UnexpectedEndOfArray)
    else if c == ',' then
      if top == ':' && s.vtype != NONE then Out(c, s.(stack := Pop(s.stack)), Ok)
      else if top == '[' then Out(c, s, Ok)
      else Out(NONE, s, Syntax)
    else if c == '"' then
      if top == '{' || top == '[' || top == ':' then
        var kind := if top == '{' then PAIR_NAME else c;
        Out(kind, StringAt(json, s, kind), Ok)
      else Out(NONE, s, UnexpectedString)
    else if c == '[' then
      if top == '{' || top == '[' || top == ':' then Out(c, Push(s, c), Ok) else Out(NONE, s, UnexpectedArray)
    else if (top == ':' || top == '[') && '0' <= c <= '9' then Out(NUMBER, NumberAt(json, s), Ok)
    else Out(NONE, s, Ok)
  }

  /** When one step reports which error, by the next character that is not a blank or a line
      feed, by the innermost open bracket or colon, and by whether a value was seen. */
  lemma ErrorsAre(json: string, s: State)
    ensures var c, top, e := At(json, SkipWs(json, s.pos)), Top(s.stack), Next(json, s).error;
      var under := Top(Pop(s.stack));
      && (e == UnexpectedEndOfArray <==> c == ']' && top != '[')
      && (e == UnexpectedArray <==> c == '[' && top != '{' && top != '[' && top != ':')
      && (e == UnexpectedString <==> c == '"' && top != '{' && top != '[' && top != ':')
      && (e == Syntax <==>
            || (c == '}' && (if top == ':' && s.vtype != '\0' then under else top) != '{')
            || (c == ',' && top != '[' && (top != ':' || s.vtype == '\0')))
  {
  }

  /** A number goes on over digits and points and ends at the first other character. */
  lemma {:induction false} NumberEnds(json: string, p: nat)
    requires p <= |json|
    ensures var q := ScanNumber(json, p);
      && q <= |json|
      && (forall k :: p <= k < q ==> '0' <= json[k] <= '9' || json[k] == '.')
      && (q < |json| ==> !('0' <= json[q] <= '9' || json[q] == '.'))
    decreases |json| - p
  {
    if p < |json| && Numeric(json[p]) {
      NumberEnds(json, p + 1);
    }
  }

  /** The parser needs a free stack entry only for an opening bracket or a colon. */
  predicate Room(json: string, s: State) {
    |s.stack| < JSONPARSE_MAX_DEPTH || (|s.stack| == JSONPARSE_MAX_DEPTH && At(json, SkipWs(json, s.pos)) !in {'{', ':', '['})
  }

  class Parser {
    const json: string
    const stack: array<char>
    var pos: nat
    var depth: nat
    var vstart: int
    var vlen: int
    var vtype: char
    var error: Error

    /** jsonparse_setup */
    constructor (json: string)
      ensures this.json == json && Valid() && fresh(stack) && error == Ok
      ensures Now().pos == 0 && Now().stack == [] && Now().vtype == NONE
    {
      this.json := json;
      stack := new char[JSONPARSE_MAX_DEPTH](_ => NONE);
      pos, depth, vstart, vlen, vtype, error := 0, 0, 0, 0, NONE, Ok;
    }

    ghost predicate Valid()
      reads this
    {
      stack.Length == JSONPARSE_MAX_DEPTH && depth <= JSONPARSE_MAX_DEPTH
    }

    ghost function Now(): State
      requires Valid()
      reads this, stack
    {
      State(pos, stack[..depth], vstart, vlen, vtype)
    }

    function GetType(): (c: char)
      requires depth <= stack.Length
      reads this, stack
      ensures c == Top(stack[..depth])
    {
      if depth == 0 then NONE else stack[depth - 1]
    }

    method PushChar(c: char)
      requires Valid() && depth < JSONPARSE_MAX_DEPTH
      modifies this`depth, this`vtype, stack
      ensures Valid() && Now() == Push(old(Now()), c)
    {
      stack[depth] := c;
      depth := depth + 1;
      vtype := NONE;
      assert stack[..depth] == old(stack[..depth]) + [c];
    }

    method PopChar()
      requires Valid() && depth > 0
      modifies this`depth
      ensures Valid() && Now() == old(Now()).(stack := Pop(old(Now()).stack))
    {
      depth := depth - 1;
      assert stack[..depth] == old(stack[..depth])[..depth];
    }

    method SkipWhitespace()
      modifies this`pos
      ensures pos == SkipWs(json, old(pos))
    {
      while pos < |json| && (json[pos] == ' ' || json[pos] == '\n')
        invariant SkipWs(json, pos) == SkipWs(json, old(pos))
        decreases |json| - pos
      {
        pos := pos + 1;
      }
    }

    method AtomicString(kind: char)
      requires Valid()
      modifies this`pos, this`vstart, this`vlen, this`vtype
      ensures Valid() && Now() == StringAt(json, old(Now()), kind)
    {
      vstart, vtype := pos, kind;
      var c := At(json, pos);
      pos := pos + 1;
      while c != NONE && c != '"'
        invariant pos > 0 && c == At(json, pos - 1) && vstart == old(pos) && vtype == kind
        invariant ScanString(json, pos - 1) == ScanString(json, old(pos))
        decreases |json| + 2 - pos
      {
        if c == '\\' {
          pos := pos + 1;
        }
        c := At(json, pos);
        pos := pos + 1;
      }
      vlen := pos - vstart - 1;
    }

    method AtomicNumber()
      requires Valid()
      modifies this`pos, this`vstart, this`vlen, this`vtype
      ensures Valid() && Now() == NumberAt(json, old(Now()))
    {
      vstart, vtype := pos, NUMBER;
      while pos < |json| && Numeric(json[pos])
        invariant ScanNumber(json, pos) == ScanNumber(json, old(pos)) && vstart == old(pos) && vtype == NUMBER
        decreases |json| - pos
      {
        pos := pos + 1;
      }
      vstart := vstart - 1;
      vlen := pos - vstart;
    }

    /** jsonparse_next */
    method NextToken() returns (kind: char)
      requires Valid() && Room(json, Now())
      modifies this, stack
      ensures Valid()
      ensures var o := Next(json, old(Now())); kind == o.kind && Now() == o.state && error == if o.error == Ok then old(error) else o.error
    {
      SkipWhitespace();
      var c := At(json, pos);
      var s := GetType();
      pos := pos + 1;
      kind := c;
      if c == '{' || c == ':' {
        PushChar(c);
      } else if c == '}' {
        if s == ':' && vtype != NONE {
          PopChar();
          s := GetType();
        }
        if s == '{' {
          PopChar();
        } else {
          error, kind := Syntax, NONE;
        }
      } else if c == ']' {
        if s == '[' {
          PopChar();
        } else {
          error, kind := UnexpectedEndOfArray, NONE;
        }
      } else if c == ',' {
        if s == ':' && vtype != NONE {
          PopChar();
        } else if s != '[' {
          error, kind := Syntax, NONE;
        }
      } else if c == '"' {
        if s == '{' || s == '[' || s == ':' {
          kind := if s == '{' then PAIR_NAME else c;
          AtomicString(kind);
        } else {
          error, kind := UnexpectedString, NONE;
        }
      } else if c == '[' {
        if s == '{' || s == '[' || s == ':' {
          PushChar(c);
        } else {
          error, kind := UnexpectedArray, NONE;
        }
      } else if (s == ':' || s == '[') && '0' <= c <= '9' {
        AtomicNumber();
        kind := NUMBER;
      } else {
        kind := NONE;
      }
    }
  }

  // ----- The tokens of a tree -----

  datatype Token = Mark(kind: char) | Atom(kind: char, start: int, length: int)

  function TokenOf(o: Out): Token {
    if o.kind == PAIR_NAME || o.kind == '"' || o.kind == NUMBER then Atom(o.kind, o.state.vstart, o.state.vlen) else Mark(o.kind)
  }

  /** From state `s` the parser returns these tokens and gets to state `s'` without error. */
  ghost predicate Path(json: string, s: State, tokens: seq<Token>, s': State)
    decreases |tokens|
  {
    if tokens == [] then s == s'
    else
      var o := Next(json, s);
      && Room(json, s) && o.error == Ok && o.kind != NONE && TokenOf(o) == tokens[0]
      && Path(json, o.state, tokens[1..], s')
  }

  lemma {:induction false} PathAppend(json: string, s: State, a: seq<Token>, s1: State, b: seq<Token>, s2: State)
    requires Path(json, s, a, s1) && Path(json, s1, b, s2)
    ensures Path(json, s, a + b, s2)
    decreases |a|
  {
    hide Next, Room;
    if a == [] {
      assert a + b == b;
    } else {
      assert (a + b)[1..] == a[1..] + b;
      PathAppend(json, Next(json, s).state, a[1..], s1, b, s2);
    }
  }

  lemma PathOne(json: string, s: State)
    requires Room(json, s) && Next(json, s).error == Ok && Next(json, s).kind != NONE
    ensures Path(json, s, [TokenOf(Next(json, s))], Next(json, s).state)
  {
    hide Next, Room;
    var o := Next(json, s);
    assert Path(json, o.state, [TokenOf(o)][1..], o.state);
  }

  /** The name of a pair and the colon. */
  function LabelTokens(t: Json, i: nat, p: nat): seq<Token>
    requires i < Count(t)
  {
    if t.Object? then [Atom(PAIR_NAME, p + 1, |Escaped(t.pairs[i].name)|), Mark(':')] else []
  }

  function CommaTokens(i: nat): seq<Token> {
    if i > 0 then [Mark(',')] else []
  }

  /** The tokens of a value whose text starts at `p`, with the extents of its atoms. */
  function Tokens(t: Json, p: nat): seq<Token>
    decreases t, Count(t) + 1
  {
    match t
    case Str(text) => [Atom('"', p + 1, |Escaped(text)|)]
    case Int(value) => [Atom(NUMBER, p, |IntText(value)|)]
    case _ => [Mark(Opening(t))] + TokensFrom(t, 0, p + 2)
  }

  /** The tokens of the children from number `i` on, whose text starts at `p`. */
  function TokensFrom(t: Json, i: nat, p: nat): seq<Token>
    decreases t, if i <= Count(t) then Count(t) - i else 0
  {
    if i >= Count(t) then [Mark(Closing(t))]
    else
      var p1 := p + |Comma(i)|;
      var p2 := p1 + |Label(t, i)|;
      CommaTokens(i) + LabelTokens(t, i, p1) + Tokens(Child(t, i), p2) + TokensFrom(t, i + 1, p2 + |Render(Child(t, i))|)
  }

  // ----- Which trees the parser can walk -----

  /** Strings without backslashes and zeros, integers that are not negative. */
  predicate Plain(s: string) {
    '\\' !in s && NONE !in s
  }

  predicate Readable(t: Json)
    decreases t, Count(t) + 1
  {
    match t
    case Str(text) => Plain(text)
    case Int(value) => value >= 0
    case _ => ReadableFrom(t, 0)
  }

  predicate ReadableFrom(t: Json, i: nat)
    decreases t, if i <= Count(t) then Count(t) - i else 0
  {
    i < Count(t) ==>
      (t.Object? ==> Plain(t.pairs[i].name)) && Readable(Child(t, i)) && ReadableFrom(t, i + 1)
  }

  /** The parser remembers that it has seen a value: it forgets at every opening bracket. */
  predicate Closes(t: Json) {
    IsContainer(t) ==> Count(t) > 0 && Closes(Child(t, Count(t) - 1))
  }

  /** The value of every pair closes. */
  predicate WellClosed(t: Json)
    decreases t, Count(t) + 1
  {
    IsContainer(t) ==> WellClosedFrom(t, 0)
  }

  predicate WellClosedFrom(t: Json, i: nat)
    decreases t, if i <= Count(t) then Count(t) - i else 0
  {
    i < Count(t) ==> WellClosed(Child(t, i)) && (t.Object? ==> Closes(Child(t, i))) && WellClosedFrom(t, i + 1)
  }

  // ----- Texts inside texts -----

  /** The text stands at position `p`. */
  predicate Has(json: string, p: nat, text: string) {
    p + |text| <= |json| && json[p..p + |text|] == text
  }

  lemma HasSplit(json: string, p: nat, a: string, b: string)
    requires Has(json, p, a + b)
    ensures Has(json, p, a) && Has(json, p + |a|, b)
  {
    var s := json[p..p + |a + b|];
    assert s[..|a|] == a && s[|a|..] == b;
    assert json[p..p + |a|] == s[..|a|];
    assert json[p + |a|..p + |a| + |b|] == s[|a|..];
  }

  lemma HasAt(json: string, p: nat, text: string, k: nat)
    requires Has(json, p, text) && k < |text|
    ensures At(json, p + k) == text[k] && p + k < |json|
  {
    assert json[p..p + |text|][k] == text[k];
  }

  lemma {:induction false} StringScanned(json: string, p: nat, text: string)
    requires Plain(text) && Has(json, p, Escaped(text) + ['"'])
    ensures ScanString(json, p) == p + |Escaped(text)| + 1
    decreases |text|
  {
    if text == [] {
      HasAt(json, p, Escaped(text) + ['"'], 0);
    } else {
      var piece := if text[0] == '"' then ['\\', '"'] else [text[0]];
      Assoc(piece, Escaped(text[1..]), ['"']);
      HasSplit(json, p, piece, Escaped(text[1..]) + ['"']);
      HasAt(json, p, piece, 0);
      StringScanned(json, p + |piece|, text[1..]);
    }
  }

  lemma {:induction false} DecimalNumeric(v: nat)
    ensures forall k :: 0 <= k < |Decimal(v)| ==> '0' <= Decimal(v)[k] <= '9'
  {
    if v >= 10 {
      DecimalNumeric(v / 10);
    }
  }

  lemma {:induction false} NumberScanned(json: string, p: nat, text: string)
    requires Has(json, p, text) && forall k :: 0 <= k < |text| ==> Numeric(text[k])
    requires !Numeric(At(json, p + |text|))
    ensures ScanNumber(json, p) == p + |text|
    decreases |text|
  {
    if text != [] {
      HasAt(json, p, text, 0);
      assert text == [text[0]] + text[1..];
      HasSplit(json, p, [text[0]], text[1..]);
      NumberScanned(json, p + 1, text[1..]);
    }
  }

  // ----- Walking over a text of the printer -----

  /** How many stack entries a value needs. */
  function Levels(t: Json): nat
    decreases t, Count(t) + 1
  {
    if IsContainer(t) then 1 + LevelsFrom(t, 0) else 0
  }

  function LevelsFrom(t: Json, i: nat): nat
    decreases t, if i <= Count(t) then Count(t) - i else 0
  {
    if i >= Count(t) then 0
    else
      var here, rest := Levels(Child(t, i)) + (if t.Object? then 1 else 0), LevelsFrom(t, i + 1);
      if here > rest then here else rest
  }

  /** The parser's next character is the first one from `p` on that is not white space. */
  predicate Near(json: string, s: State, p: nat) {
    SkipWs(json, s.pos) == SkipWs(json, p)
  }

  /** The stack inside a container, before its child number `i`. */
  function Inside(base: seq<char>, t: Json, i: nat): seq<char> {
    base + [Opening(t)] + (if t.Object? && i > 0 then [':'] else [])
  }

  lemma CommaStep(json: string, s: State, p: nat, base: seq<char>, t: Json, i: nat)
    requires IsContainer(t) && i > 0 && Has(json, p, Comma(i)) && Near(json, s, p)
    requires s.stack == Inside(base, t, i) && |s.stack| <= JSONPARSE_MAX_DEPTH
    ensures Room(json, s)
    ensures var o := Next(json, s);
      if t.Object? && s.vtype == NONE then o.error == Syntax
      else
        && o == Out(',', o.state, Ok) && o.state.stack == base + [Opening(t)] && o.state.vtype == s.vtype
        && Near(json, o.state, p + 2)
  {
    HasAt(json, p, Comma(i), 0);
    HasAt(json, p, Comma(i), 1);
    assert SkipWs(json, p + 1) == SkipWs(json, p + 2);
    assert t.Object? ==> Pop(s.stack) == base + [Opening(t)];
  }

  lemma CloseStep(json: string, s: State, p: nat, base: seq<char>, t: Json, i: nat)
    requires IsContainer(t) && Has(json, p, ['\n', Closing(t)]) && Near(json, s, p)
    requires s.stack == Inside(base, t, i) && |s.stack| <= JSONPARSE_MAX_DEPTH
    ensures Room(json, s)
    ensures var o := Next(json, s);
      if t.Object? && i > 0 && s.vtype == NONE then o.error == Syntax
      else
        && o == Out(Closing(t), o.state, Ok) && o.state.stack == base && o.state.vtype == s.vtype
        && o.state.pos == p + 2
  {
    HasAt(json, p, ['\n', Closing(t)], 0);
    HasAt(json, p, ['\n', Closing(t)], 1);
    assert SkipWs(json, p) == p + 1;
    assert t.Object? && i > 0 ==> Pop(s.stack) == base + [Opening(t)];
    assert Pop(base + [Opening(t)]) == base;
  }

  lemma OpenStep(json: string, s: State, p: nat, t: Json)
    requires IsContainer(t) && Has(json, p, [Opening(t), '\n']) && Near(json, s, p)
    requires |s.stack| < JSONPARSE_MAX_DEPTH
    requires t.Array? ==> Top(s.stack) == '[' || Top(s.stack) == ':'
    ensures Room(json, s)
    ensures var o := Next(json, s);
      && o == Out(Opening(t), o.state, Ok) && o.state.stack == Inside(s.stack, t, 0) && o.state.vtype == NONE
      && Near(json, o.state, p + 2)
  {
    HasAt(json, p, [Opening(t), '\n'], 0);
    HasAt(json, p, [Opening(t), '\n'], 1);
    assert SkipWs(json, p) == p;
    assert SkipWs(json, p + 1) == SkipWs(json, p + 2);
  }

  /** A string or a name. */
  lemma StringStep(json: string, s: State, p: nat, text: string)
    requires Plain(text) && Has(json, p, Quoted(text)) && Near(json, s, p)
    requires |s.stack| <= JSONPARSE_MAX_DEPTH && (Top(s.stack) == '{' || Top(s.stack) == '[' || Top(s.stack) == ':')
    ensures Room(json, s)
    ensures var o := Next(json, s);
      && o.error == Ok && o.kind == (if Top(s.stack) == '{' then PAIR_NAME else '"')
      && TokenOf(o) == Atom(o.kind, p + 1, |Escaped(text)|)
      && o.state.stack == s.stack && o.state.vtype != NONE && o.state.pos == p + |Quoted(text)|
  {
    HasAt(json, p, Quoted(text), 0);
    assert SkipWs(json, p) == p;
    assert Quoted(text) == ['"'] + (Escaped(text) + ['"']);
    HasSplit(json, p, ['"'], Escaped(text) + ['"']);
    StringScanned(json, p + 1, text);
    hide Escaped, ScanString;
  }

  lemma NumberStep(json: string, s: State, p: nat, v: nat)
    requires v < 0x8000_0000 && Has(json, p, Decimal(v)) && Near(json, s, p) && !Numeric(At(json, p + |Decimal(v)|))
    requires |s.stack| <= JSONPARSE_MAX_DEPTH && (Top(s.stack) == '[' || Top(s.stack) == ':')
    ensures Room(json, s)
    ensures var o := Next(json, s);
      && o.error == Ok && o.kind == NUMBER && TokenOf(o) == Atom(NUMBER, p, |Decimal(v)|)
      && o.state.stack == s.stack && o.state.vtype != NONE && o.state.pos == p + |Decimal(v)|
  {
    DecimalNumeric(v);
    var text := Decimal(v);
    HasAt(json, p, text, 0);
    assert SkipWs(json, p) == p;
    assert text == [text[0]] + text[1..];
    HasSplit(json, p, [text[0]], text[1..]);
    assert forall k :: 0 <= k < |text| - 1 ==> text[1..][k] == text[k + 1];
    NumberScanned(json, p + 1, text[1..]);
    hide Decimal, ScanNumber;
  }

  lemma ColonStep(json: string, s: State, p: nat)
    requires Has(json, p, [':']) && s.pos == p && |s.stack| < JSONPARSE_MAX_DEPTH
    ensures Room(json, s)
    ensures var o := Next(json, s);
      o == Out(':', o.state, Ok) && o.state.stack == s.stack + [':'] && o.state.vtype == NONE && o.state.pos == p + 1
  {
    HasAt(json, p, [':'], 0);
    assert SkipWs(json, p) == p;
  }

  lemma NameSteps(json: string, s: State, p: nat, name: string) returns (s': State)
    requires Has(json, p, Quoted(name) + [':']) && Near(json, s, p) && Plain(name)
    requires |s.stack| < JSONPARSE_MAX_DEPTH && Top(s.stack) == '{'
    ensures Path(json, s, [Atom(PAIR_NAME, p + 1, |Escaped(name)|), Mark(':')], s')
    ensures s'.stack == s.stack + [':'] && Near(json, s', p + |Quoted(name) + [':']|)
  {
    hide *;
    HasSplit(json, p, Quoted(name), [':']);
    StringStep(json, s, p, name);
    NameKind();
    PathOne(json, s);
    var o := Next(json, s);
    ColonStep(json, o.state, p + |Quoted(name)|);
    PathOne(json, o.state);
    s' := Next(json, o.state).state;
    ColonToken(Next(json, o.state));
    NearItself(json, s', p + |Quoted(name)| + 1);
    PathAppend(json, s, [TokenOf(o)], o.state, [Mark(':')], s');
    assert [TokenOf(o)] + [Mark(':')] == [Atom(PAIR_NAME, p + 1, |Escaped(name)|), Mark(':')];
  }

  lemma NameKind()
    ensures PAIR_NAME != NONE && ':' != NONE
  {
  }

  lemma ColonToken(o: Out)
    requires o.kind == ':'
    ensures TokenOf(o) == Mark(':')
  {
  }

  /** The name of a pair and its colon. */
  lemma LabelSteps(json: string, s: State, p: nat, base: seq<char>, t: Json, i: nat) returns (s': State)
    requires IsContainer(t) && i < Count(t) && Has(json, p, Label(t, i)) && Near(json, s, p)
    requires t.Object? ==> Plain(t.pairs[i].name)
    requires s.stack == base + [Opening(t)] && |s.stack| + (if t.Object? then 1 else 0) <= JSONPARSE_MAX_DEPTH
    ensures Path(json, s, LabelTokens(t, i, p), s')
    ensures s'.stack == Inside(base, t, if t.Object? then 1 else 0) && Near(json, s', p + |Label(t, i)|)
  {
    if t.Object? {
      s' := NameSteps(json, s, p, t.pairs[i].name);
      assert s'.stack == Inside(base, t, 1);
    } else {
      assert Path(json, s, [], s);
      s' := s;
    }
  }

  lemma ChildText(json: string, t: Json, i: nat, p: nat)
    requires IsContainer(t) && i < Count(t) && Has(json, p, RenderFrom(t, i))
    ensures var p1 := p + |Comma(i)|;
      var p2 := p1 + |Label(t, i)|;
      var p3 := p2 + |Render(Child(t, i))|;
      && Has(json, p, Comma(i)) && Has(json, p1, Label(t, i)) && Has(json, p2, Render(Child(t, i)))
      && Has(json, p3, RenderFrom(t, i + 1)) && !Numeric(At(json, p3))
      && p3 + |RenderFrom(t, i + 1)| == p + |RenderFrom(t, i)|
  {
    hide *;
    var a, b, c, d := Comma(i), Label(t, i), Render(Child(t, i)), RenderFrom(t, i + 1);
    RenderUnfolds(t, i);
    HasSplit(json, p, a + b + c, d);
    HasSplit(json, p, a + b, c);
    HasSplit(json, p, a, b);
    HasAt(json, p + |a + b + c|, d, 0);
  }

  lemma RenderUnfolds(t: Json, i: nat)
    requires IsContainer(t) && i < Count(t)
    ensures RenderFrom(t, i) == Comma(i) + Label(t, i) + Render(Child(t, i)) + RenderFrom(t, i + 1)
    ensures |RenderFrom(t, i + 1)| > 0 && !Numeric(RenderFrom(t, i + 1)[0])
  {
    hide Label, Render;
  }

  /** The walk ends well, or right before an error. */
  ghost predicate Walked(json: string, s: State, tokens: seq<Token>, s': State, good: bool, expected: seq<Token>, p: nat, stack: seq<char>, closes: bool) {
    && Path(json, s, tokens, s')
    && if good then tokens == expected && s'.pos == p && s'.stack == stack && (s'.vtype != NONE <==> closes)
       else Room(json, s') && Next(json, s').error != Ok
  }

  /** The stack and the memory of a value at the children from number `i` on. */
  ghost predicate AtChildren(json: string, t: Json, i: nat, p: nat, s: State, base: seq<char>) {
    && IsContainer(t) && i <= Count(t)
    && Has(json, p, RenderFrom(t, i)) && Near(json, s, p)
    && s.stack == Inside(base, t, i) && |s.stack| <= JSONPARSE_MAX_DEPTH && |base| + 1 + LevelsFrom(t, i) <= JSONPARSE_MAX_DEPTH
    && (s.vtype != NONE <==> i > 0 && Closes(Child(t, i - 1)))
    && ReadableFrom(t, i)
  }

  predicate GoodFrom(t: Json, i: nat)
    requires i <= Count(t)
  {
    (t.Object? && i > 0 ==> Closes(Child(t, i - 1))) && WellClosedFrom(t, i)
  }

  lemma WalkedJoin(json: string, s: State, before: seq<Token>, s2: State, inner: seq<Token>, s3: State, rest: seq<Token>, s': State,
                   exp1: seq<Token>, p1: nat, stack1: seq<char>, closes1: bool,
                   good: bool, exp2: seq<Token>, p2: nat, stack2: seq<char>, closes2: bool)
    requires Path(json, s, before, s2)
    requires Walked(json, s2, inner, s3, true, exp1, p1, stack1, closes1) && Walked(json, s3, rest, s', good, exp2, p2, stack2, closes2)
    ensures Walked(json, s, before + inner + rest, s', good, before + exp1 + exp2, p2, stack2, closes2)
  {
    hide Path, Next, Room;
    PathAppend(json, s, before, s2, inner, s3);
    PathAppend(json, s, before + inner, s3, rest, s');
  }

  lemma WalkedBad(json: string, s: State, before: seq<Token>, s2: State, inner: seq<Token>, s3: State, exp1: seq<Token>, p1: nat, stack1: seq<char>, closes1: bool,
                  exp2: seq<Token>, p2: nat, stack2: seq<char>, closes2: bool)
    requires Path(json, s, before, s2) && Walked(json, s2, inner, s3, false, exp1, p1, stack1, closes1)
    ensures Walked(json, s, before + inner, s3, false, exp2, p2, stack2, closes2)
  {
    hide Path, Next, Room;
    PathAppend(json, s, before, s2, inner, s3);
  }

  /** What a container's children say about its first one. */
  lemma AtChildrenFacts(json: string, t: Json, i: nat, p: nat, s: State, base: seq<char>)
    requires AtChildren(json, t, i, p, s, base)
    ensures IsContainer(t) && i <= Count(t) && Near(json, s, p) && s.stack == Inside(base, t, i) && |s.stack| <= JSONPARSE_MAX_DEPTH
    ensures s.vtype != NONE <==> i > 0 && Closes(Child(t, i - 1))
    ensures |base| + 1 + LevelsFrom(t, i) <= JSONPARSE_MAX_DEPTH
    ensures Has(json, p, RenderFrom(t, i)) && ReadableFrom(t, i)
  {
  }

  lemma AtChildrenIf(json: string, t: Json, i: nat, p: nat, s: State, base: seq<char>)
    requires IsContainer(t) && i <= Count(t) && Near(json, s, p) && s.stack == Inside(base, t, i) && |s.stack| <= JSONPARSE_MAX_DEPTH
    requires s.vtype != NONE <==> i > 0 && Closes(Child(t, i - 1))
    requires |base| + 1 + LevelsFrom(t, i) <= JSONPARSE_MAX_DEPTH
    requires Has(json, p, RenderFrom(t, i)) && ReadableFrom(t, i)
    ensures AtChildren(json, t, i, p, s, base)
  {
  }

  /** Unfolding what is defined along the children of a container. */
  lemma ChildUnfolds(t: Json, i: nat, p: nat, base: seq<char>)
    requires IsContainer(t) && i < Count(t) && ReadableFrom(t, i) && |base| + 1 + LevelsFrom(t, i) <= JSONPARSE_MAX_DEPTH
    ensures Readable(Child(t, i)) && ReadableFrom(t, i + 1) && (t.Object? ==> Plain(t.pairs[i].name))
    ensures |base| + 1 + LevelsFrom(t, i + 1) <= JSONPARSE_MAX_DEPTH && |Inside(base, t, i + 1)| + Levels(Child(t, i)) <= JSONPARSE_MAX_DEPTH
    ensures Inside(base, t, i + 1) == Inside(base, t, 1) && |Inside(base, t, 1)| <= JSONPARSE_MAX_DEPTH
    ensures Child(t, i).Object? || Top(Inside(base, t, 1)) == '[' || Top(Inside(base, t, 1)) == ':'
    ensures var p1 := p + |Comma(i)|;
      var p2 := p1 + |Label(t, i)|;
      TokensFrom(t, i, p) == CommaTokens(i) + LabelTokens(t, i, p1) + Tokens(Child(t, i), p2) + TokensFrom(t, i + 1, p2 + |Render(Child(t, i))|)
    ensures GoodFrom(t, i) <==> (t.Object? && i > 0 ==> Closes(Child(t, i - 1))) && WellClosed(Child(t, i)) && GoodFrom(t, i + 1)
  {
    hide Render, Label, Comma, LabelTokens, CommaTokens, Tokens, Readable, Levels, WellClosed, Closes, Plain;
  }

  lemma NearItself(json: string, s: State, p: nat)
    requires s.pos == p
    ensures Near(json, s, p)
  {
  }

  lemma WalkedGood(json: string, s: State, tokens: seq<Token>, s': State, expected: seq<Token>, p: nat, stack: seq<char>, closes: bool)
    requires Walked(json, s, tokens, s', true, expected, p, stack, closes)
    ensures tokens == expected && s'.pos == p && s'.stack == stack && (s'.vtype != NONE <==> closes)
  {
  }

  lemma WalkedIf(json: string, s: State, tokens: seq<Token>, s': State, p: nat, stack: seq<char>, closes: bool)
    requires Path(json, s, tokens, s') && s'.pos == p && s'.stack == stack && (s'.vtype != NONE <==> closes)
    ensures Walked(json, s, tokens, s', true, tokens, p, stack, closes)
  {
    hide Path;
  }

  lemma WalkedError(json: string, s: State, expected: seq<Token>, p: nat, stack: seq<char>, closes: bool)
    requires Room(json, s) && Next(json, s).error != Ok
    ensures Walked(json, s, [], s, false, expected, p, stack, closes)
  {
    hide Room, Next;
  }

  lemma {:induction false} WalkValue(json: string, t: Json, p: nat, s: State) returns (tokens: seq<Token>, s': State)
    requires Has(json, p, Render(t)) && Near(json, s, p) && !Numeric(At(json, p + |Render(t)|))
    requires Readable(t) && |s.stack| + Levels(t) <= JSONPARSE_MAX_DEPTH
    requires t.Object? || Top(s.stack) == '[' || Top(s.stack) == ':'
    ensures Walked(json, s, tokens, s', WellClosed(t), Tokens(t, p), p + |Render(t)|, s.stack, Closes(t))
    decreases t, Count(t) + 1
  {
    hide *;
    if IsContainer(t) {
      ContainerUnfolds(json, t, p, s);
      OpenStep(json, s, p, t);
      PathOne(json, s);
      var o := Next(json, s);
      AtChildrenIf(json, t, 0, p + 2, o.state, s.stack);
      var rest: seq<Token>;
      rest, s' := WalkFrom(json, t, 0, p + 2, o.state, s.stack);
      tokens := [Mark(Opening(t))] + rest;
      WalkedOpening(json, t, p, s, o, rest, s');
    } else {
      AtomCloses(t);
      s' := WalkAtom(json, t, p, s);
      tokens := Tokens(t, p);
      WalkedIf(json, s, tokens, s', p + |Render(t)|, s.stack, Closes(t));
    }
  }

  lemma AtomCloses(t: Json)
    requires !IsContainer(t)
    ensures Closes(t) && WellClosed(t) && !t.Object?
  {
  }

  lemma WalkAtom(json: string, t: Json, p: nat, s: State) returns (s': State)
    requires !IsContainer(t) && Readable(t) && |s.stack| + Levels(t) <= JSONPARSE_MAX_DEPTH
    requires Has(json, p, Render(t)) && Near(json, s, p) && !Numeric(At(json, p + |Render(t)|))
    requires Top(s.stack) == '[' || Top(s.stack) == ':'
    ensures Path(json, s, Tokens(t, p), s')
    ensures s'.pos == p + |Render(t)| && s'.stack == s.stack && s'.vtype != NONE
  {
    if t.Str? {
      StringStep(json, s, p, t.text);
    } else {
      NumberStep(json, s, p, t.value);
    }
    hide Next, Room, Path, SkipWs, Has;
    PathOne(json, s);
    s' := Next(json, s).state;
  }

  lemma ContainerUnfolds(json: string, t: Json, p: nat, s: State)
    requires IsContainer(t) && Has(json, p, Render(t)) && Readable(t) && |s.stack| + Levels(t) <= JSONPARSE_MAX_DEPTH
    requires t.Object? || Top(s.stack) == '[' || Top(s.stack) == ':'
    ensures Has(json, p, [Opening(t), '\n']) && Has(json, p + 2, RenderFrom(t, 0)) && ReadableFrom(t, 0)
    ensures |s.stack| < JSONPARSE_MAX_DEPTH && |s.stack| + 1 + LevelsFrom(t, 0) <= JSONPARSE_MAX_DEPTH
    ensures |Inside(s.stack, t, 0)| <= JSONPARSE_MAX_DEPTH
    ensures t.Array? ==> Top(s.stack) == '[' || Top(s.stack) == ':'
    ensures |Render(t)| == 2 + |RenderFrom(t, 0)| && (WellClosed(t) <==> GoodFrom(t, 0))
    ensures Tokens(t, p) == [Mark(Opening(t))] + TokensFrom(t, 0, p + 2)
    ensures TokenOf(Out(Opening(t), s, Ok)) == Mark(Opening(t)) && Opening(t) != NONE
  {
    HasSplit(json, p, [Opening(t), '\n'], RenderFrom(t, 0));
    hide Has, RenderFrom, ReadableFrom, LevelsFrom, TokensFrom, WellClosedFrom;
  }

  lemma WalkedOpening(json: string, t: Json, p: nat, s: State, o: Out, rest: seq<Token>, s': State)
    requires IsContainer(t) && o == Next(json, s) && o.kind == Opening(t) && Path(json, s, [TokenOf(o)], o.state)
    requires Walked(json, o.state, rest, s', GoodFrom(t, 0), TokensFrom(t, 0, p + 2), p + 2 + |RenderFrom(t, 0)|, s.stack, Closes(t))
    requires |Render(t)| == 2 + |RenderFrom(t, 0)| && (WellClosed(t) <==> GoodFrom(t, 0))
    requires Tokens(t, p) == [Mark(Opening(t))] + TokensFrom(t, 0, p + 2)
    ensures Walked(json, s, [Mark(Opening(t))] + rest, s', WellClosed(t), Tokens(t, p), p + |Render(t)|, s.stack, Closes(t))
  {
    hide Next, Room, Path, RenderFrom, Render, Tokens, TokensFrom, GoodFrom, WellClosed, Closes;
    PathAppend(json, s, [TokenOf(o)], o.state, rest, s');
  }

  lemma {:induction false} WalkFrom(json: string, t: Json, i: nat, p: nat, s: State, base: seq<char>) returns (tokens: seq<Token>, s': State)
    requires AtChildren(json, t, i, p, s, base)
    ensures Walked(json, s, tokens, s', GoodFrom(t, i), TokensFrom(t, i, p), p + |RenderFrom(t, i)|, base, Closes(t))
    decreases t, Count(t) - i
  {
    hide *;
    AtChildrenFacts(json, t, i, p, s, base);
    if i == Count(t) {
      tokens, s' := WalkEnd(json, t, i, p, s, base);
      return;
    }
    ChildText(json, t, i, p);
    ChildUnfolds(t, i, p, base);
    var p2, p3 := p + |Comma(i)| + |Label(t, i)|, p + |Comma(i)| + |Label(t, i)| + |Render(Child(t, i))|;
    if i > 0 {
      CommaStep(json, s, p, base, t, i);
    }
    if i > 0 && t.Object? && s.vtype == NONE {
      WalkedError(json, s, TokensFrom(t, i, p), p + |RenderFrom(t, i)|, base, Closes(t));
      return [], s;
    }
    var before, s2 := WalkToChild(json, t, i, p, s, base);
    var inner, s3 := WalkValue(json, Child(t, i), p2, s2);
    if WellClosed(Child(t, i)) {
      WalkedGood(json, s2, inner, s3, Tokens(Child(t, i), p2), p3, s2.stack, Closes(Child(t, i)));
      NearItself(json, s3, p3);
      AtChildrenIf(json, t, i + 1, p3, s3, base);
      var rest: seq<Token>;
      rest, s' := WalkFrom(json, t, i + 1, p3, s3, base);
      WalkedJoin(json, s, before, s2, inner, s3, rest, s', Tokens(Child(t, i), p2), p3, s2.stack, Closes(Child(t, i)),
                 GoodFrom(t, i + 1), TokensFrom(t, i + 1, p3), p3 + |RenderFrom(t, i + 1)|, base, Closes(t));
      tokens := before + inner + rest;
    } else {
      WalkedBad(json, s, before, s2, inner, s3, Tokens(Child(t, i), p2), p3, s2.stack, Closes(Child(t, i)),
                TokensFrom(t, i, p), p + |RenderFrom(t, i)|, base, Closes(t));
      tokens, s' := before + inner, s3;
    }
  }

  lemma WalkEnd(json: string, t: Json, i: nat, p: nat, s: State, base: seq<char>) returns (tokens: seq<Token>, s': State)
    requires IsContainer(t) && i == Count(t) && Has(json, p, RenderFrom(t, i)) && Near(json, s, p)
    requires s.stack == Inside(base, t, i) && |s.stack| <= JSONPARSE_MAX_DEPTH
    requires s.vtype != NONE <==> i > 0 && Closes(Child(t, i - 1))
    ensures Walked(json, s, tokens, s', GoodFrom(t, i), TokensFrom(t, i, p), p + |RenderFrom(t, i)|, base, Closes(t))
  {
    EndUnfolds(t, i, p);
    hide *;
    CloseStep(json, s, p, base, t, i);
    if t.Object? && i > 0 && s.vtype == NONE {
      WalkedError(json, s, TokensFrom(t, i, p), p + |RenderFrom(t, i)|, base, Closes(t));
      tokens, s' := [], s;
    } else {
      CloseToken(t, Next(json, s));
      PathOne(json, s);
      tokens, s' := [Mark(Closing(t))], Next(json, s).state;
      WalkedIf(json, s, tokens, s', p + 2, base, Closes(t));
    }
  }

  lemma EndUnfolds(t: Json, i: nat, p: nat)
    requires IsContainer(t) && i == Count(t)
    ensures RenderFrom(t, i) == ['\n', Closing(t)] && TokensFrom(t, i, p) == [Mark(Closing(t))]
    ensures GoodFrom(t, i) <==> (t.Object? && i > 0 ==> Closes(Child(t, i - 1)))
    ensures Closes(t) <==> i > 0 && Closes(Child(t, i - 1))
  {
  }

  lemma CloseToken(t: Json, o: Out)
    requires o.kind == Closing(t)
    ensures TokenOf(o) == Mark(Closing(t)) && Closing(t) != NONE
  {
  }

  lemma CommaToken(o: Out)
    requires o.kind == ','
    ensures TokenOf(o) == Mark(',') && o.kind != NONE
  {
  }

  lemma CommaSizes(i: nat)
    ensures |Comma(i)| == (if i > 0 then 2 else 0) && CommaTokens(i) == if i > 0 then [Mark(',')] else []
  {
  }

  /** The comma and the label in front of a child. */
  lemma WalkToChild(json: string, t: Json, i: nat, p: nat, s: State, base: seq<char>) returns (tokens: seq<Token>, s': State)
    requires IsContainer(t) && i < Count(t) && Has(json, p, Comma(i)) && Has(json, p + |Comma(i)|, Label(t, i)) && Near(json, s, p)
    requires s.stack == Inside(base, t, i) && |s.stack| <= JSONPARSE_MAX_DEPTH && |Inside(base, t, 1)| <= JSONPARSE_MAX_DEPTH
    requires t.Object? ==> Plain(t.pairs[i].name) && (i > 0 ==> s.vtype != NONE)
    ensures tokens == CommaTokens(i) + LabelTokens(t, i, p + |Comma(i)|) && Path(json, s, tokens, s')
    ensures s'.stack == Inside(base, t, 1) && Near(json, s', p + |Comma(i)| + |Label(t, i)|)
  {
    CommaSizes(i);
    InsideSizes(base, t);
    hide *;
    if i > 0 {
      CommaStep(json, s, p, base, t, i);
      var o := Next(json, s);
      CommaToken(o);
      PathOne(json, s);
      s' := LabelSteps(json, o.state, p + 2, base, t, i);
      PathAppend(json, s, [Mark(',')], o.state, LabelTokens(t, i, p + 2), s');
      tokens := [Mark(',')] + LabelTokens(t, i, p + 2);
    } else {
      s' := LabelSteps(json, s, p, base, t, i);
      tokens := LabelTokens(t, i, p);
      assert tokens == [] + tokens;
    }
  }

  lemma InsideSizes(base: seq<char>, t: Json)
    ensures Inside(base, t, 0) == base + [Opening(t)] && (!t.Object? ==> Inside(base, t, 0) == Inside(base, t, 1))
    ensures |base + [Opening(t)]| + (if t.Object? then 1 else 0) == |Inside(base, t, 1)|
  {
  }

  // ----- What the tokens mean -----

  /** What a reader of the tokens gets: the punctuation, and the values of the atoms. */
  datatype Piece = Sign(c: char) | Name(text: string) | Text(text: string) | Number(value: int)

  /** The values of a tree in the order of its text. */
  function Pieces(t: Json): seq<Piece>
    decreases t, Count(t) + 1
  {
    match t
    case Str(text) => [Text(text)]
    case Int(value) => [Number(value)]
    case Object(_) => [Sign('{')] + PiecesFrom(t, 0)
    case Array(_) => [Sign('[')] + PiecesFrom(t, 0)
  }

  function CommaPieces(i: nat): seq<Piece> {
    if i > 0 then [Sign(',')] else []
  }

  function LabelPieces(t: Json, i: nat): seq<Piece>
    requires i < Count(t)
  {
    if t.Object? then [Name(t.pairs[i].name), Sign(':')] else []
  }

  function PiecesFrom(t: Json, i: nat): seq<Piece>
    decreases t, if i <= Count(t) then Count(t) - i else 0
  {
    if i >= Count(t) then [Sign(if t.Object? then '}' else ']')]
    else CommaPieces(i) + LabelPieces(t, i) + Pieces(Child(t, i)) + PiecesFrom(t, i + 1)
  }

  /** The extent of a token, read in the text, gives the piece. */
  predicate Means(json: string, token: Token, piece: Piece) {
    match token
    case Mark(c) => piece == Sign(c)
    case Atom(kind, a, l) =>
      && 0 <= a && 0 <= l && a + l <= |json|
      && if kind == 'N' then piece == Name(Unescaped(json[a..a + l]))
         else if kind == '"' then piece == Text(Unescaped(json[a..a + l]))
         else kind == '0' && piece == Number(NumberOf(json[a..a + l]))
  }

  predicate AllMean(json: string, tokens: seq<Token>, pieces: seq<Piece>) {
    |tokens| == |pieces| && forall k :: 0 <= k < |tokens| ==> Means(json, tokens[k], pieces[k])
  }

  lemma MeanAppend(json: string, a: seq<Token>, x: seq<Piece>, b: seq<Token>, y: seq<Piece>)
    requires AllMean(json, a, x) && AllMean(json, b, y)
    ensures AllMean(json, a + b, x + y)
  {
    hide Means;
  }

  lemma QuotedMeans(json: string, p: nat, text: string)
    requires Plain(text) && Has(json, p, Quoted(text))
    ensures p + 1 + |Escaped(text)| <= |json| && Unescaped(json[p + 1..p + 1 + |Escaped(text)|]) == text
  {
    assert Quoted(text) == ['"'] + (Escaped(text) + ['"']);
    HasSplit(json, p, ['"'], Escaped(text) + ['"']);
    HasSplit(json, p + 1, Escaped(text), ['"']);
    EscapedDenotes(text);
  }

  lemma LabelMeans(json: string, t: Json, i: nat, p: nat)
    requires IsContainer(t) && i < Count(t) && (t.Object? ==> Plain(t.pairs[i].name)) && Has(json, p, Label(t, i))
    ensures AllMean(json, LabelTokens(t, i, p), LabelPieces(t, i))
  {
    hide Has, Escaped, Unescaped, Quoted, Render, NumberOf;
    if t.Object? {
      HasSplit(json, p, Quoted(t.pairs[i].name), [':']);
      QuotedMeans(json, p, t.pairs[i].name);
    }
  }

  lemma CommaMeans(json: string, i: nat)
    ensures AllMean(json, CommaTokens(i), CommaPieces(i))
  {
  }

  lemma AtomMeans(json: string, t: Json, p: nat)
    requires !IsContainer(t) && Readable(t) && Has(json, p, Render(t))
    ensures AllMean(json, Tokens(t, p), Pieces(t))
  {
    if t.Str? {
      QuotedMeans(json, p, t.text);
    } else {
      IntTextDenotes(t.value);
    }
    hide Escaped, Unescaped, IntText;
  }

  lemma OpeningMeans(json: string, t: Json, p: nat)
    requires IsContainer(t) && AllMean(json, TokensFrom(t, 0, p + 2), PiecesFrom(t, 0))
    ensures AllMean(json, Tokens(t, p), Pieces(t))
  {
    hide TokensFrom, PiecesFrom;
    assert AllMean(json, [Mark(Opening(t))], [Sign(if t.Object? then '{' else '[')]);
    MeanAppend(json, [Mark(Opening(t))], [Sign(if t.Object? then '{' else '[')], TokensFrom(t, 0, p + 2), PiecesFrom(t, 0));
  }

  lemma {:induction false} TokensMean(json: string, t: Json, p: nat)
    requires Has(json, p, Render(t)) && Readable(t)
    ensures AllMean(json, Tokens(t, p), Pieces(t))
    decreases t, Count(t) + 1
  {
    hide *;
    if IsContainer(t) {
      ContainerText(json, t, p);
      ChildrenMean(json, t, 0, p + 2);
      OpeningMeans(json, t, p);
    } else {
      AtomMeans(json, t, p);
    }
  }

  lemma ContainerText(json: string, t: Json, p: nat)
    requires IsContainer(t) && Has(json, p, Render(t)) && Readable(t)
    ensures Has(json, p + 2, RenderFrom(t, 0)) && ReadableFrom(t, 0)
  {
    HasSplit(json, p, [Opening(t), '\n'], RenderFrom(t, 0));
  }

  lemma EndMeans(json: string, t: Json, i: nat, p: nat)
    requires IsContainer(t) && i >= Count(t)
    ensures AllMean(json, TokensFrom(t, i, p), PiecesFrom(t, i))
  {
  }

  lemma ChildMeans(t: Json, i: nat, p: nat)
    requires IsContainer(t) && i < Count(t) && ReadableFrom(t, i)
    ensures Readable(Child(t, i)) && ReadableFrom(t, i + 1) && (t.Object? ==> Plain(t.pairs[i].name))
    ensures PiecesFrom(t, i) == CommaPieces(i) + LabelPieces(t, i) + Pieces(Child(t, i)) + PiecesFrom(t, i + 1)
    ensures var p1 := p + |Comma(i)|;
      var p2 := p1 + |Label(t, i)|;
      TokensFrom(t, i, p) == CommaTokens(i) + LabelTokens(t, i, p1) + Tokens(Child(t, i), p2) + TokensFrom(t, i + 1, p2 + |Render(Child(t, i))|)
  {
    hide Render, Label, Comma, LabelTokens, CommaTokens, Tokens, Readable, Plain, Pieces, LabelPieces;
  }

  lemma {:induction false} ChildrenMean(json: string, t: Json, i: nat, p: nat)
    requires IsContainer(t) && Has(json, p, RenderFrom(t, i)) && ReadableFrom(t, i)
    ensures AllMean(json, TokensFrom(t, i, p), PiecesFrom(t, i))
    decreases t, if i <= Count(t) then Count(t) - i else 0
  {
    hide *;
    if i >= Count(t) {
      EndMeans(json, t, i, p);
    } else {
      ChildText(json, t, i, p);
      ChildMeans(t, i, p);
      var p1 := p + |Comma(i)|;
      var p2 := p1 + |Label(t, i)|;
      var p3 := p2 + |Render(Child(t, i))|;
      LabelMeans(json, t, i, p1);
      TokensMean(json, Child(t, i), p2);
      ChildrenMean(json, t, i + 1, p3);
      CommaMeans(json, i);
      MeanAppend(json, CommaTokens(i), CommaPieces(i), LabelTokens(t, i, p1), LabelPieces(t, i));
      MeanAppend(json, CommaTokens(i) + LabelTokens(t, i, p1), CommaPieces(i) + LabelPieces(t, i), Tokens(Child(t, i), p2), Pieces(Child(t, i)));
      MeanAppend(json, CommaTokens(i) + LabelTokens(t, i, p1) + Tokens(Child(t, i), p2), CommaPieces(i) + LabelPieces(t, i) + Pieces(Child(t, i)),
                 TokensFrom(t, i + 1, p3), PiecesFrom(t, i + 1));
    }
  }

  function Start(): State {
    State(0, [], 0, 0, NONE)
  }

  /** The parser walks back what the printer wrote: from the text of an object it returns the
      tokens of the tree, with the extents of every atom, without an error and with an empty
      stack at the end of the text, exactly when every pair's value closes; otherwise it runs
      into an error.  Read in the text, the extents give the names, strings and integers of the
      tree. */
  lemma ParserReadsPrinter(t: Json) returns (tokens: seq<Token>, end: State)
    requires t.Object? && Readable(t) && Levels(t) <= JSONPARSE_MAX_DEPTH
    ensures Path(Render(t), Start(), tokens, end)
    ensures WellClosed(t) ==> tokens == Tokens(t, 0) && end.pos == |Render(t)| && end.stack == []
    ensures WellClosed(t) ==> AllMean(Render(t), tokens, Pieces(t))
    ensures WellClosed(t) ==> Next(Render(t), end).kind == NONE && Next(Render(t), end).error == Ok
    ensures !WellClosed(t) ==> Next(Render(t), end).error != Ok
  {
    AtStart(Render(t));
    hide *;
    tokens, end := WalkValue(Render(t), t, 0, Start());
    if WellClosed(t) {
      WalkedGood(Render(t), Start(), tokens, end, Tokens(t, 0), |Render(t)|, [], Closes(t));
      AtEnd(Render(t), end);
      TokensMean(Render(t), t, 0);
    }
    WalkedParts(Render(t), Start(), tokens, end, WellClosed(t), Tokens(t, 0), |Render(t)|, [], Closes(t));
  }

  lemma AtStart(json: string)
    ensures Has(json, 0, json) && Near(json, Start(), 0) && !Numeric(At(json, 0 + |json|)) && Start().stack == []
  {
    assert json[0..0 + |json|] == json;
  }

  lemma AtEnd(json: string, s: State)
    requires s.pos == |json| && s.stack == []
    ensures Next(json, s).kind == NONE && Next(json, s).error == Ok
  {
  }

  lemma WalkedParts(json: string, s: State, tokens: seq<Token>, s': State, good: bool, expected: seq<Token>, p: nat, stack: seq<char>, closes: bool)
    requires Walked(json, s, tokens, s', good, expected, p, stack, closes)
    ensures Path(json, s, tokens, s') && (!good ==> Next(json, s').error != Ok)
  {
    hide Path, Next, Room;
  }

  /** A nested container without children as the value of a pair is one of the others. */
  lemma EmptyValueFails(name: string, t: Json) returns (tokens: seq<Token>, end: State)
    requires Plain(name) && IsContainer(t) && Count(t) == 0
    ensures var json := Render(Object([Pair(name, t)]));
      Path(json, Start(), tokens, end) && Next(json, end).error != Ok
  {
    var o := Object([Pair(name, t)]);
    assert Child(o, 0) == t;
    assert ReadableFrom(o, 1) && ReadableFrom(t, 0) && Readable(t);
    assert LevelsFrom(t, 0) == 0 && LevelsFrom(o, 1) == 0 && Levels(t) == 1;
    assert !Closes(t) && !WellClosedFrom(o, 0);
    tokens, end := ParserReadsPrinter(o);
  }
}
