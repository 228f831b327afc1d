/** The JSON printer (apps/json/jsontree.c): a machine with an explicit stack that prints a
    tree one step at a time, and the recursive rendering that it refines. */
module JsonTree {

  const JSONTREE_MAX_DEPTH: nat := 10
  const INT_MIN: int := -0x8000_0000

  type int32 = x: int | -0x8000_0000 <= x < 0x8000_0000

  /** A tree without callbacks. */
  datatype Json =
    | Object(pairs: seq<Pair>)
    | Array(items: seq<Json>)
    | Str(text: string)
    | Int(value: int32)

  datatype Pair = Pair(name: string, value: Json)

  // ----- Texts of atoms -----

  /** What jsontree_write_string puts between the quotes: only quotes are escaped. */
  function Escaped(s: string): string {
    if s == [] then []
    else (if s[0] == '"' then ['\\', '"'] else [s[0]]) + Escaped(s[1..])
  }

  function Quoted(s: string): string {
    ['"'] + Escaped(s) + ['"']
  }

  function Digit(d: nat): char
    requires d < 10
  {
    '0' + d as char
  }

  function Decimal(n: nat): (s: string)
    ensures |s| > 0
  {
    if n < 10 then [Digit(n)] else Decimal(n / 10) + [Digit(n % 10)]
  }

  /** What jsontree_write_int prints.  The least int has no opposite, and its last digit is
      printed as '0' - 8. */
  function IntText(v: int32): string {
    if v == INT_MIN then ['-', '(']
    else if v < 0 then ['-'] + Decimal(-v)
    else Decimal(v)
  }

  /** Reading decimal digits. */
  function NumberOf(s: string): int {
    if s == [] then 0 else 10 * NumberOf(s[..|s| - 1]) + (s[|s| - 1] as int - '0' as int)
  }

  /** The digits denote the number, and there is no leading zero. */
  lemma {:induction false} DecimalDenotes(n: nat)
    ensures NumberOf(Decimal(n)) == n
    ensures forall k :: 0 <= k < |Decimal(n)| ==> '0' <= Decimal(n)[k] <= '9'
    ensures n > 0 ==> Decimal(n)[0] != '0'
  {
    if n >= 10 {
      DecimalDenotes(n / 10);
      assert Decimal(n)[..|Decimal(n)| - 1] == Decimal(n / 10);
    } else {
      assert NumberOf([Digit(n)][..0]) == 0;
    }
  }

  /** What is printed for an int reads back as the int, with a sign exactly if it is negative;
      the least int is printed as a minus sign and a parenthesis. */
  lemma IntTextDenotes(v: int32)
    ensures v >= 0 ==> NumberOf(IntText(v)) == v && forall k :: 0 <= k < |IntText(v)| ==> '0' <= IntText(v)[k] <= '9'
    ensures -0x8000_0000 < v < 0 ==> IntText(v)[0] == '-' && NumberOf(IntText(v)[1..]) == -v
    ensures -0x8000_0000 < v < 0 ==> forall k :: 1 <= k < |IntText(v)| ==> '0' <= IntText(v)[k] <= '9'
    ensures v == -0x8000_0000 ==> IntText(v) == "-("
  {
    var w: int := v;
    DecimalDenotes(if w < 0 then -w else w);
    if v < 0 && v != INT_MIN {
      assert IntText(v)[1..] == Decimal(-v);
    }
  }

  /** Taking the backslashes away that stand before a character. */
  function Unescaped(s: string): string {
    if s == [] then []
    else if s[0] == '\\' && |s| > 1 then [s[1]] + Unescaped(s[2..])
    else [s[0]] + Unescaped(s[1..])
  }

  /** A text without backslashes comes back, and has no quote that is not escaped. */
  lemma {:induction false} EscapedDenotes(text: string)
    requires '\\' !in text
    ensures Unescaped(Escaped(text)) == text
    ensures forall k :: 0 <= k < |Escaped(text)| && Escaped(text)[k] == '"' ==> k > 0 && Escaped(text)[k - 1] == '\\'
  {
    if text != [] {
      EscapedDenotes(text[1..]);
      var rest := Escaped(text[1..]);
      if text[0] == '"' {
        assert Escaped(text)[2..] == rest;
        assert forall k :: 2 <= k < |Escaped(text)| ==> Escaped(text)[k] == rest[k - 2];
      } else {
        assert Escaped(text)[1..] == rest;
        assert forall k :: 1 <= k < |Escaped(text)| ==> Escaped(text)[k] == rest[k - 1];
      }
    }
  }

  // ----- The recursive rendering -----

  predicate IsContainer(t: Json) {
    t.Object? || t.Array?
  }

  function Count(t: Json): nat {
    match t
    case Object(pairs) => |pairs|
    case Array(items) => |items|
    case _ => 0
  }

  function Child(t: Json, i: nat): (c: Json)
    requires i < Count(t)
    ensures c < t
  {
    match t
    case Object(pairs) => pairs[i].value
    case Array(items) => items[i]
  }

  function Opening(t: Json): char {
    if t.Object? then '{' else '['
  }

  function Closing(t: Json): char {
    if t.Object? then '}' else ']'
  }

  /** The name of a pair and the colon. */
  function Label(t: Json, i: nat): string
    requires i < Count(t)
  {
    if t.Object? then Quoted(t.pairs[i].name) + [':'] else []
  }

  function Comma(i: nat): string {
    if i > 0 then [',', '\n'] else []
  }

  function Render(t: Json): string
    decreases t, Count(t) + 1
  {
    match t
    case Str(text) => Quoted(text)
    case Int(value) => IntText(value)
    case _ => [Opening(t), '\n'] + RenderFrom(t, 0)
  }

  /** The children of a container from number `i` on, and its end. */
  function RenderFrom(t: Json, i: nat): string
    decreases t, Count(t) - i
  {
    if i >= Count(t) then ['\n', Closing(t)]
    else Comma(i) + Label(t, i) + Render(Child(t, i)) + RenderFrom(t, i + 1)
  }

  /** Number of levels. */
  function Height(t: Json): (h: nat)
    ensures h >= 1
    decreases t, Count(t) + 1
  {
    1 + HeightFrom(t, 0)
  }

  function HeightFrom(t: Json, i: nat): nat
    decreases t, Count(t) - i
  {
    if i >= Count(t) then 0
    else
      var h, rest := Height(Child(t, i)), HeightFrom(t, i + 1);
      if h > rest then h else rest
  }

  lemma {:induction false} ChildHeight(t: Json, i: nat, k: nat)
    requires k <= i < Count(t)
    ensures Height(Child(t, i)) <= HeightFrom(t, k)
    decreases i - k
  {
    if k < i {
      ChildHeight(t, i, k + 1);
    }
  }

  // ----- The stack -----

  /** What is left to print of a value whose index is `i`. */
  function Remaining(t: Json, i: nat): string {
    if IsContainer(t) && i > 0 then RenderFrom(t, i) else Render(t)
  }

  /** What is left to print below level `d` of the stack, once that level is done. */
  function After(values: seq<Json>, index: seq<nat>, d: nat): string
    requires d <= |values| && d <= |index|
  {
    if d == 0 then [] else RenderFrom(values[d - 1], index[d - 1] + 1) + After(values, index, d - 1)
  }

  /** How many steps a value takes. */
  function Steps(t: Json): nat
    decreases t, Count(t) + 1
  {
    if IsContainer(t) then StepsFrom(t, 0) else 1
  }

  function StepsFrom(t: Json, i: nat): nat
    decreases t, Count(t) - i
  {
    if i >= Count(t) then 1 else 1 + Steps(Child(t, i)) + StepsFrom(t, i + 1)
  }

  function StepsLeft(t: Json, i: nat): nat {
    if IsContainer(t) then StepsFrom(t, i) else 1
  }

  function StepsAfter(values: seq<Json>, index: seq<nat>, d: nat): nat
    requires d <= |values| && d <= |index|
  {
    if d == 0 then 0 else StepsFrom(values[d - 1], index[d - 1] + 1) + StepsAfter(values, index, d - 1)
  }

  /** Every level of the stack below `d` is the child that the level under it points to. */
  ghost predicate Linked(values: seq<Json>, index: seq<nat>, d: nat) {
    && |values| == |index| == JSONTREE_MAX_DEPTH
    && forall k :: 0 <= k < d && k + 1 < JSONTREE_MAX_DEPTH ==>
         IsContainer(values[k]) && index[k] < Count(values[k]) && values[k + 1] == Child(values[k], index[k])
  }

  lemma {:induction false} AfterSame(values: seq<Json>, index: seq<nat>, values': seq<Json>, index': seq<nat>, d: nat)
    requires d <= |values| && d <= |index| && d <= |values'| && d <= |index'|
    requires forall k :: 0 <= k < d ==> values'[k] == values[k] && index'[k] == index[k]
    ensures After(values', index', d) == After(values, index, d)
    ensures StepsAfter(values', index', d) == StepsAfter(values, index, d)
  {
    hide RenderFrom, StepsFrom;
    if d > 0 {
      AfterSame(values, index, values', index', d - 1);
    }
  }

  // ----- What one step does to the stack -----

  /** The stack is that of a printer under way in a tree that is not too deep. */
  ghost predicate Shape(values: seq<Json>, index: seq<nat>, depth: nat) {
    && depth < |values| == |index| == JSONTREE_MAX_DEPTH
    && Linked(values, index, depth)
    && (if IsContainer(values[depth]) then index[depth] <= Count(values[depth]) else index[depth] == 0)
    && (forall k :: 0 <= k <= depth ==> Height(values[k]) + k <= JSONTREE_MAX_DEPTH)
  }

  /** What is left to print, and in how many steps. */
  function Left(values: seq<Json>, index: seq<nat>, depth: nat): string
    requires depth < |values| && depth < |index|
  {
    Remaining(values[depth], index[depth]) + After(values, index, depth)
  }

  function StepsToGo(values: seq<Json>, index: seq<nat>, depth: nat): (n: nat)
    requires depth < |values| && depth < |index|
    ensures n > 0
  {
    StepsAtLeastOne(values[depth], index[depth]);
    StepsLeft(values[depth], index[depth]) + StepsAfter(values, index, depth)
  }

  lemma StepsAtLeastOne(t: Json, i: nat)
    ensures StepsLeft(t, i) > 0
  {
  }

  /** Going down to a child: what is printed is the label, after the opening or a comma. */
  lemma DownShape(values: seq<Json>, index: seq<nat>, depth: nat)
    requires Shape(values, index, depth) && IsContainer(values[depth]) && index[depth] < Count(values[depth])
    ensures depth + 1 < JSONTREE_MAX_DEPTH
    ensures var t, i := values[depth], index[depth];
            Shape(values[depth + 1 := Child(t, i)], index[depth + 1 := 0], depth + 1)
  {
    var t, i := values[depth], index[depth];
    ChildHeight(t, i, 0);
    assert Height(Child(t, i)) >= 1 && Height(t) >= 1 + Height(Child(t, i));
    assert Height(values[depth]) + depth <= JSONTREE_MAX_DEPTH;
    hide Height;
  }

  function DownText(t: Json, i: nat): string
    requires i < Count(t)
  {
    (if i == 0 then [Opening(t), '\n'] else []) + (Comma(i) + Label(t, i))
  }

  lemma ShapeSizes(values: seq<Json>, index: seq<nat>, depth: nat)
    requires Shape(values, index, depth)
    ensures depth < |values| == |index| == JSONTREE_MAX_DEPTH
  {
  }

  lemma LeftUnfolds(values: seq<Json>, index: seq<nat>, depth: nat)
    requires depth < |values| && depth < |index| && IsContainer(values[depth])
    ensures Left(values, index, depth) == Remaining(values[depth], index[depth]) + After(values, index, depth)
    ensures StepsToGo(values, index, depth) == StepsFrom(values[depth], index[depth]) + StepsAfter(values, index, depth)
  {
    hide Remaining, After, StepsAfter, StepsFrom;
  }

  /** What is left on the next level, which has just been entered. */
  lemma AfterUnfolds(values: seq<Json>, index: seq<nat>, depth: nat)
    requires depth + 1 < |values| && depth + 1 < |index| && index[depth + 1] == 0
    ensures Left(values, index, depth + 1)
         == Remaining(values[depth + 1], 0) + (RenderFrom(values[depth], index[depth] + 1) + After(values, index, depth))
    ensures StepsToGo(values, index, depth + 1)
         == StepsLeft(values[depth + 1], 0) + (StepsFrom(values[depth], index[depth] + 1) + StepsAfter(values, index, depth))
  {
    hide Remaining, RenderFrom, StepsLeft, StepsFrom;
  }

  lemma DownLeft(values: seq<Json>, index: seq<nat>, depth: nat)
    requires Shape(values, index, depth) && IsContainer(values[depth]) && index[depth] < Count(values[depth])
    requires depth + 1 < JSONTREE_MAX_DEPTH
    ensures var t, i := values[depth], index[depth];
      var values', index' := values[depth + 1 := Child(t, i)], index[depth + 1 := 0];
      && Left(values, index, depth) == DownText(t, i) + Left(values', index', depth + 1)
      && StepsToGo(values, index, depth) == 1 + StepsToGo(values', index', depth + 1)
  {
    hide *;
    ShapeSizes(values, index, depth);
    var t, i := values[depth], index[depth];
    var c, values', index' := Child(t, i), values[depth + 1 := Child(t, i)], index[depth + 1 := 0];
    AfterSame(values, index, values', index', depth);
    RemainingDown(t, i);
    LeftUnfolds(values, index, depth);
    AfterUnfolds(values', index', depth);
    Regroup(DownText(t, i), Remaining(c, 0), RenderFrom(t, i + 1), After(values, index, depth));
  }

  lemma RemainingDown(t: Json, i: nat)
    requires IsContainer(t) && i < Count(t)
    ensures Remaining(t, i) == DownText(t, i) + Remaining(Child(t, i), 0) + RenderFrom(t, i + 1)
    ensures StepsFrom(t, i) == 1 + StepsLeft(Child(t, i), 0) + StepsFrom(t, i + 1)
  {
    var c := Child(t, i);
    assert Remaining(c, 0) == Render(c);
    assert RenderFrom(t, i) == Comma(i) + Label(t, i) + Render(c) + RenderFrom(t, i + 1);
    if i == 0 {
      assert Render(t) == [Opening(t), '\n'] + RenderFrom(t, 0);
    }
    hide Render, RenderFrom, Label, Comma;
    Regroup5(if i == 0 then [Opening(t), '\n'] else [], Comma(i), Label(t, i), Render(c), RenderFrom(t, i + 1));
    Nothing(RenderFrom(t, i));
  }

  lemma Nothing(s: string)
    ensures [] + s == s
  {
  }

  lemma Regroup5(a: string, b: string, c: string, d: string, e: string)
    ensures a + (b + c + d + e) == (a + (b + c)) + d + e
  {
    Assoc(a, b + c, d + e);
    Assoc(b + c, d, e);
    Assoc(a + (b + c), d, e);
  }

  lemma Assoc(a: string, b: string, c: string)
    ensures a + (b + c) == (a + b) + c
  {
  }

  lemma Regroup(a: string, b: string, c: string, d: string)
    ensures (a + b + c) + d == a + (b + (c + d))
  {
  }

  /** What is printed when a value is done: an atom, or the end of a container. */
  function UpText(t: Json): string {
    match t
    case Str(text) => Quoted(text)
    case Int(value) => IntText(value)
    case _ => (if Count(t) == 0 then [Opening(t), '\n'] else []) + ['\n', Closing(t)]
  }

  predicate Done(t: Json, i: nat) {
    IsContainer(t) ==> i >= Count(t)
  }

  lemma UpLeft(values: seq<Json>, index: seq<nat>, depth: nat)
    requires Shape(values, index, depth) && Done(values[depth], index[depth])
    ensures Left(values, index, depth) == UpText(values[depth]) + After(values, index, depth)
    ensures StepsToGo(values, index, depth) == 1 + StepsAfter(values, index, depth)
  {
    var t, i := values[depth], index[depth];
    if IsContainer(t) {
      assert RenderFrom(t, i) == ['\n', Closing(t)];
      Nothing(['\n', Closing(t)]);
    }
  }

  /** Going back up to the parent, to its next child. */
  lemma UpShape(values: seq<Json>, index: seq<nat>, depth: nat)
    requires Shape(values, index, depth) && depth > 0
    ensures var index' := index[depth - 1 := index[depth - 1] + 1];
      && Shape(values, index', depth - 1)
      && Left(values, index', depth - 1) == After(values, index, depth)
      && StepsToGo(values, index', depth - 1) == StepsAfter(values, index, depth)
  {
    hide Render, RenderFrom, Height, Steps, StepsFrom;
    AfterSame(values, index, values, index[depth - 1 := index[depth - 1] + 1], depth - 1);
  }

  class Printer {
    const values: array<Json>
    const index: array<nat>
    var depth: nat
    var output: string      // the characters given to putchar

    /** jsontree_setup */
    constructor (root: Json)
      requires Height(root) <= JSONTREE_MAX_DEPTH
      ensures fresh(values) && fresh(index) && Valid() && output == []
      ensures Left(values[..], index[..], depth) == Render(root)
      ensures StepsToGo(values[..], index[..], depth) == Steps(root)
    {
      values := new Json[JSONTREE_MAX_DEPTH](_ => root);
      index := new nat[JSONTREE_MAX_DEPTH](_ => 0);
      depth, output := 0, [];
      new;
      Nothing(Render(root));
    }

    ghost predicate Valid()
      reads this, values, index
    {
      Shape(values[..], index[..], depth)
    }

    method PutChar(c: char)
      modifies this`output
      ensures output == old(output) + [c]
    {
      output := output + [c];
    }

    /** jsontree_write_string */
    method WriteString(text: string)
      modifies this`output
      ensures output == old(output) + Quoted(text)
    {
      ghost var before := output;
      PutChar('"');
      var i := 0;
      while i < |text|
        invariant i <= |text|
        invariant output == before + ['"'] + Escaped(text[..i])
      {
        EscapedMore(text, i);
        ghost var sofar := Escaped(text[..i]);
        hide Escaped;
        if text[i] == '"' {
          PutChar('\\');
          Assoc(before + ['"'] + sofar, ['\\'], ['"']);
        }
        PutChar(text[i]);
        Assoc(before + ['"'], sofar, if text[i] == '"' then ['\\', '"'] else [text[i]]);
        i := i + 1;
      }
      assert text[..i] == text;
      PutChar('"');
      Assoc(before, ['"'], Escaped(text));
      Assoc(before, ['"'] + Escaped(text), ['"']);
    }

    static lemma {:induction false} EscapedMore(text: string, i: nat)
      requires i < |text|
      ensures Escaped(text[..i + 1]) == Escaped(text[..i]) + if text[i] == '"' then ['\\', '"'] else [text[i]]
    {
      if i == 0 {
        assert text[..1][1..] == [] && Escaped([]) == [];
      } else {
        EscapedMore(text[1..], i - 1);
        assert text[..i + 1][1..] == text[1..][..i] && text[..i][1..] == text[1..][..i - 1];
        Assoc(if text[0] == '"' then ['\\', '"'] else [text[0]], Escaped(text[..i][1..]), if text[i] == '"' then ['\\', '"'] else [text[i]]);
      }
    }

    /** jsontree_write_int: the digits are collected from the last one on in a buffer of ten
        characters. */
    method WriteInt(v: int32)
      modifies this`output
      ensures output == old(output) + IntText(v)
    {
      var value: int := v;
      if value < 0 {
        PutChar('-');
        if value == INT_MIN {
          PutChar('(');
          return;
        }
        value := -value;
      }
      var digits := CollectDigits(value);
      ghost var start := output;
      var l := 0;
      while l < |digits|
        invariant l <= |digits| && output == start + digits[..l]
      {
        PutChar(digits[l]);
        l := l + 1;
      }
      assert digits[..l] == digits;
    }

    static method CollectDigits(v: nat) returns (digits: string)
      requires v < 0x8000_0000
      ensures digits == Decimal(v)
    {
      var buf := new char[10](_ => ' ');
      var value: nat, l: int := v, 9;
      DigitsFit(v, 10);
      var more := true;
      assert Decimal(value) + buf[10..] == Decimal(v);
      hide Decimal, Digit, Tens, Unit;
      while more
        invariant -1 <= l <= 9
        invariant more ==> l >= 0 && |Decimal(value)| <= l + 1 && Decimal(value) + buf[l + 1..] == Decimal(v)
        invariant !more ==> buf[l + 1..] == Decimal(v)
        decreases more, l
      {
        DecimalStep(value);
        buf[l] := Digit(Unit(value));
        assert buf[l..] == [Digit(Unit(value))] + buf[l + 1..];
        Assoc(Decimal(Tens(value)), [Digit(Unit(value))], buf[l + 1..]);
        l := l - 1;
        value := Tens(value);
        more := value > 0 && l >= 0;
      }
      digits := buf[l + 1..];
    }

    static function Tens(v: nat): nat {
      v / 10
    }

    static function Unit(v: nat): (u: nat)
      ensures u < 10
    {
      v % 10
    }

    static lemma DecimalStep(v: nat)
      ensures Decimal(v) == if Tens(v) > 0 then Decimal(Tens(v)) + [Digit(Unit(v))] else [Digit(Unit(v))]
    {
    }

    static lemma DigitsFit(v: nat, n: nat)
      requires n >= 1 && v < Pow10(n)
      ensures |Decimal(v)| <= n
    {
      if v >= 10 {
        DigitsFit(v / 10, n - 1);
      }
    }

    static function Pow10(n: nat): nat {
      if n == 0 then 1 else 10 * Pow10(n - 1)
    }

    /** jsontree_print_next: one step; false when the whole tree has been printed. */
    method PrintNext() returns (more: bool)
      requires Valid()
      modifies this, values, index
      ensures more ==> Valid()
      ensures more ==> output + Left(values[..], index[..], depth) == old(output + Left(values[..], index[..], depth))
      ensures more ==> StepsToGo(values[..], index[..], depth) + 1 == old(StepsToGo(values[..], index[..], depth))
      ensures !more ==> output == old(output + Left(values[..], index[..], depth))
      ensures !more ==> old(StepsToGo(values[..], index[..], depth)) == 1
    {
      var v := values[depth];
      if IsContainer(v) && index[depth] < Count(v) {
        StepDown();
        more := true;
      } else {
        more := StepUp();
      }
    }

    /** The step that ends a value and backs up one level. */
    method StepUp() returns (more: bool)
      requires Valid() && Done(values[depth], index[depth])
      modifies this, values, index
      ensures more ==> Valid()
      ensures more ==> output + Left(values[..], index[..], depth) == old(output + Left(values[..], index[..], depth))
      ensures more ==> StepsToGo(values[..], index[..], depth) + 1 == old(StepsToGo(values[..], index[..], depth))
      ensures !more ==> output == old(output + Left(values[..], index[..], depth))
      ensures !more ==> old(StepsToGo(values[..], index[..], depth)) == 1
    {
      hide Left, StepsToGo, UpText, Linked, Height, Count, Render, RenderFrom;
      ghost var output0, vs, xs := output, values[..], index[..];
      var d := depth;
      Ascend(output0, vs, xs, d);
      var v := values[depth];
      Finish(v);
      assert output == output0 + UpText(v);
      more := depth > 0;
      if more {
        depth := d - 1;
        index[d - 1] := index[d - 1] + 1;
        assert values[..] == vs && index[..] == xs[d - 1 := xs[d - 1] + 1];
      }
    }

    static lemma Ascend(output: string, vs: seq<Json>, xs: seq<nat>, d: nat)
      requires Shape(vs, xs, d) && Done(vs[d], xs[d])
      ensures d < |vs| == |xs| && (IsContainer(vs[d]) ==> xs[d] <= Count(vs[d]))
      ensures d == 0 ==> output + UpText(vs[d]) == output + Left(vs, xs, d) && StepsToGo(vs, xs, d) == 1
      ensures d > 0 ==>
        var xs' := xs[d - 1 := xs[d - 1] + 1];
        && Shape(vs, xs', d - 1)
        && (output + UpText(vs[d])) + Left(vs, xs', d - 1) == output + Left(vs, xs, d)
        && StepsToGo(vs, xs', d - 1) + 1 == StepsToGo(vs, xs, d)
    {
      UpLeft(vs, xs, d);
      if d > 0 {
        UpShape(vs, xs, d);
        Assoc(output, UpText(vs[d]), After(vs, xs, d));
      }
      hide Left, StepsToGo, UpText;
    }

    /** The step into the next child. */
    method StepDown()
      requires Valid() && IsContainer(values[depth]) && index[depth] < Count(values[depth])
      modifies this, values, index
      ensures Valid()
      ensures output + Left(values[..], index[..], depth) == old(output + Left(values[..], index[..], depth))
      ensures StepsToGo(values[..], index[..], depth) + 1 == old(StepsToGo(values[..], index[..], depth))
    {
      hide Left, StepsToGo, Linked, Height, Render, RenderFrom, DownText;
      ghost var output0, vs, xs, d := output, values[..], index[..], depth;
      var v, i := values[depth], index[depth];
      assert depth + 1 < values.Length == index.Length by {
        DownShape(vs, xs, d);
      }
      Descend(output0, vs, xs, d);
      hide *;
      WriteLabel(v, i);
      depth := depth + 1;
      index[depth] := 0;
      values[depth] := Child(v, i);
      assert values[..] == vs[d + 1 := Child(v, i)] && index[..] == xs[d + 1 := 0];
    }

    static lemma Descend(output: string, vs: seq<Json>, xs: seq<nat>, d: nat)
      requires Shape(vs, xs, d) && IsContainer(vs[d]) && xs[d] < Count(vs[d])
      ensures d + 1 < |vs| && d + 1 < |xs|
      ensures var vs', xs' := vs[d + 1 := Child(vs[d], xs[d])], xs[d + 1 := 0];
        && Shape(vs', xs', d + 1)
        && (output + DownText(vs[d], xs[d])) + Left(vs', xs', d + 1) == output + Left(vs, xs, d)
        && StepsToGo(vs', xs', d + 1) + 1 == StepsToGo(vs, xs, d)
    {
      DownShape(vs, xs, d);
      DownLeft(vs, xs, d);
      hide Left, StepsToGo, DownText;
      Assoc(output, DownText(vs[d], xs[d]), Left(vs[d + 1 := Child(vs[d], xs[d])], xs[d + 1 := 0], d + 1));
    }

    method WriteLabel(v: Json, i: nat)
      requires IsContainer(v) && i < Count(v)
      modifies this`output
      ensures output == old(output) + DownText(v, i)
    {
      if i == 0 {
        PutChar(Opening(v));
        PutChar('\n');
      }
      if i > 0 {
        PutChar(',');
        PutChar('\n');
      }
      if v.Object? {
        WriteString(v.pairs[i].name);
        PutChar(':');
      }
    }

    /** The step that ends a value. */
    method Finish(v: Json)
      requires depth < index.Length && Done(v, index[depth]) && (IsContainer(v) ==> index[depth] <= Count(v))
      modifies this`output
      ensures output == old(output) + UpText(v)
    {
      match v
      case Str(text) => WriteString(text);
      case Int(value) => WriteInt(value);
      case _ =>
        if index[depth] == 0 {
          PutChar(Opening(v));
          PutChar('\n');
        }
        PutChar('\n');
        PutChar(Closing(v));
    }
  }

  /** Calling the printer until it returns 0 prints the rendering of the tree, in exactly as
      many steps as the tree takes. */
  method Print(root: Json) returns (output: string, steps: nat)
    requires Height(root) <= JSONTREE_MAX_DEPTH
    ensures output == Render(root) && steps == Steps(root)
  {
    var p := new Printer(root);
    var more := true;
    steps := 0;
    while more
      invariant fresh(p) && fresh(p.values) && fresh(p.index)
      invariant more ==> p.Valid() && p.output + Left(p.values[..], p.index[..], p.depth) == Render(root)
      invariant more ==> steps + StepsToGo(p.values[..], p.index[..], p.depth) == Steps(root)
      invariant !more ==> p.output == Render(root) && steps == Steps(root)
      decreases if more then StepsToGo(p.values[..], p.index[..], p.depth) else 0
    {
      more := p.PrintNext();
      steps := steps + 1;
    }
    output := p.output;
  }
}
