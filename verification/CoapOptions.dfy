/** CoAP options on the wire (apps/er-coap/er-coap.c): delta-coded headers, integers in as few
    bytes as possible, and texts split into one option for each segment. */
module CoapOptions {

  import opened Bytes

  /** One option as it goes over the wire. */
  datatype Opt = Opt(number: nat, value: seq<byte>)

  // ----- Headers -----

  /** The longest delta or length that two extension bytes can hold. */
  const LONGEST: nat := 269 + 0xFFFF

  /** coap_option_nibble */
  function Nibble(x: nat): (n: nat)
    ensures n <= 14
  {
    if x < 13 then x else if x <= 0xFF + 13 then 13 else 14
  }

  function Extension(x: nat): seq<byte> {
    if x > 268 then [(x - 269) / 256 % 256, (x - 269) % 256]
    else if x > 12 then [x - 13]
    else []
  }

  function HeaderBytes(delta: nat, length: nat): (h: seq<byte>)
    ensures 1 <= |h| <= 5
  {
    [Nibble(delta) * 16 + Nibble(length)] + Extension(delta) + Extension(length)
  }

  /** A header as the parser reads it: the two numbers and how many bytes they took. */
  datatype Header = Header(delta: nat, length: nat, size: nat) | Short

  datatype Extended = Extended(value: nat, size: nat) | Missing

  function Extend(nibble: nat, s: seq<byte>): Extended {
    if nibble == 13 then
      if |s| < 1 then Missing else Extended(13 + s[0] as int, 1)
    else if nibble == 14 then
      if |s| < 2 then Missing else Extended(14 + 255 + s[0] as int * 256 + s[1] as int, 2)
    else Extended(nibble, 0)
  }

  function ReadHeader(s: seq<byte>): (h: Header)
    requires |s| > 0
    ensures h.Header? ==> 1 <= h.size <= 5 && h.size <= |s|
  {
    match Extend(s[0] / 16, s[1..])
    case Missing => Short
    case Extended(delta, n) =>
      match Extend(s[0] % 16, s[1 + n..])
      case Missing => Short
      case Extended(length, k) => Header(delta, length, 1 + n + k)
  }

  /** Section 3.1 of RFC 7252: a nibble below 13 is the number itself; 13 stands for one more
      byte, the number minus 13, and 14 for two more, the number minus 269.  The parser takes a
      reserved length nibble for the number 15. */
  predicate Denotes(nibble: nat, more: seq<byte>, x: int) {
    || (nibble < 13 && more == [] && x == nibble)
    || (nibble == 13 && |more| == 1 && x == 13 + more[0] as int)
    || (nibble == 14 && |more| == 2 && x == 269 + 256 * more[0] as int + more[1] as int)
    || (nibble == 15 && more == [] && x == 15)
  }

  /** What an option's header looks like on the wire. */
  lemma HeaderDenotes(delta: nat, length: nat)
    requires delta <= LONGEST && length <= LONGEST
    ensures var h, d, l := HeaderBytes(delta, length), Extension(delta), Extension(length);
      && h == [h[0]] + d + l && h[0] / 16 < 15 && h[0] % 16 < 15
      && Denotes(h[0] / 16, d, delta) && Denotes(h[0] % 16, l, length)
  {
    assert (Nibble(delta) * 16 + Nibble(length)) / 16 == Nibble(delta);
  }

  lemma ExtendDenotes(nibble: nat, s: seq<byte>)
    requires nibble < 16
    ensures Extend(nibble, s).Missing? <==> (nibble == 13 && |s| < 1) || (nibble == 14 && |s| < 2)
    ensures Extend(nibble, s).Extended? ==>
      Extend(nibble, s).size <= |s| && Denotes(nibble, s[..Extend(nibble, s).size], Extend(nibble, s).value)
  {
  }

  lemma ExtensionRead(x: nat, rest: seq<byte>)
    requires x <= LONGEST
    ensures Extend(Nibble(x), Extension(x) + rest) == Extended(x, |Extension(x)|)
  {
  }

  /** Headers read back, and none looks like a payload marker. */
  lemma HeaderRead(delta: nat, length: nat, rest: seq<byte>)
    requires delta <= LONGEST && length <= LONGEST
    ensures ReadHeader(HeaderBytes(delta, length) + rest) == Header(delta, length, |HeaderBytes(delta, length)|)
    ensures HeaderBytes(delta, length)[0] < 0xF0
  {
    var s := HeaderBytes(delta, length) + rest;
    ExtensionRead(delta, Extension(length) + rest);
    ExtensionRead(length, rest);
    assert s[0] / 16 == Nibble(delta) && s[0] % 16 == Nibble(length);
    assert s[1..] == Extension(delta) + (Extension(length) + rest);
    assert s[1 + |Extension(delta)|..] == Extension(length) + rest;
  }

  /** One round of the loop in coap_set_option_header: the extension bytes of a number. */
  method PutExtension(x: nat, buffer: array<byte>, at: nat) returns (written: nat)
    requires at + |Extension(x)| <= buffer.Length
    modifies buffer
    ensures written == |Extension(x)|
    ensures buffer[..] == Overwrite(old(buffer[..]), at, Extension(x))
  {
    written := 0;
    if x > 268 {
      buffer[at] := (x - 269) / 256 % 256;
      buffer[at + 1] := (x - 269) % 256;
      written := 2;
    } else if x > 12 {
      buffer[at] := x - 13;
      written := 1;
    }
  }

  /** coap_set_option_header */
  method SetOptionHeader(delta: nat, length: nat, buffer: array<byte>, at: nat) returns (written: nat)
    requires at + |HeaderBytes(delta, length)| <= buffer.Length
    modifies buffer
    ensures written == |HeaderBytes(delta, length)|
    ensures buffer[..] == Overwrite(old(buffer[..]), at, HeaderBytes(delta, length))
  {
    ghost var was := buffer[..];
    ghost var first := [Nibble(delta) * 16 + Nibble(length)];
    buffer[at] := Nibble(delta) * 16 + Nibble(length);
    assert buffer[..] == Overwrite(was, at, first);
    hide Extension, Overwrite;
    var d := PutExtension(delta, buffer, at + 1);
    OverwriteTwice(was, at, first, Extension(delta));
    var l := PutExtension(length, buffer, at + 1 + d);
    OverwriteTwice(was, at, first + Extension(delta), Extension(length));
    written := 1 + d + l;
  }

  // ----- Integers -----

  /** An integer in as few bytes as possible, the most significant first. */
  function IntBytes(v: uint32): (s: seq<byte>) {
    if v == 0 then [] else IntBytes(v / 256) + [v % 256]
  }

  /** The value of an integer option, modulo 2^32. */
  function IntOf(s: seq<byte>): uint32 {
    if s == [] then 0 else (IntOf(s[..|s| - 1]) * 256 + s[|s| - 1]) % 0x1_0000_0000
  }

  /** Integers read back, and no leading byte is zero. */
  lemma {:induction false} IntRead(v: uint32)
    ensures IntOf(IntBytes(v)) == v
    ensures IntBytes(v) != [] ==> IntBytes(v)[0] != 0
  {
    if v != 0 {
      IntRead(v / 256);
      IntPush(IntBytes(v / 256), v % 256);
    }
  }

  lemma IntPush(s: seq<byte>, b: byte)
    ensures IntOf(s + [b]) == (IntOf(s) * 256 + b) % 0x1_0000_0000
  {
    assert (s + [b])[..|s|] == s;
  }

  /** The bytes that the four tests of coap_serialize_int_option select. */
  lemma IntBytesSelected(v: uint32)
    ensures IntBytes(v) ==
      (if v >= 0x100_0000 then [v / 0x100_0000] else []) + (if v >= 0x1_0000 then [v / 0x1_0000 % 256] else []) +
      (if v >= 0x100 then [v / 0x100 % 256] else []) + (if v >= 1 then [v % 256] else [])
  {
    var c, b, a := v / 256, v / 256 / 256, v / 256 / 256 / 256;
    assert b == v / 0x1_0000 && a == v / 0x100_0000;
    assert IntBytes(a) == if a == 0 then [] else [a];
    assert IntBytes(b) == IntBytes(a) + (if b == 0 then [] else [b % 256]);
    assert IntBytes(c) == IntBytes(b) + (if c == 0 then [] else [c % 256]);
  }

  /** coap_parse_int_option */
  method ParseIntOption(bytes: array<byte>, at: nat, length: nat) returns (v: uint32)
    requires at + length <= bytes.Length
    ensures v == IntOf(bytes[at..at + length])
  {
    v := 0;
    var i := 0;
    while i < length
      invariant i <= length && v == IntOf(bytes[at..at + i])
    {
      assert bytes[at..at + i + 1][..i] == bytes[at..at + i];
      v := (v * 256 + bytes[at + i]) % 0x1_0000_0000;
      i := i + 1;
    }
  }

  // ----- Texts -----

  /** How coap_serialize_array_option cuts a text, from position `j` on with a segment begun
      at `start`.  The character after a separator is never looked at, and the two bytes
      beyond the text are: `memory` is the text and those two bytes. */
  function Cut(memory: seq<byte>, length: nat, sep: byte, start: nat, j: nat): (parts: seq<seq<byte>>)
    requires |memory| == length + 2
    requires start <= j <= length + 3
    decreases length + 3 - j
  {
    if j > length + 1 then []
    else if memory[j] == sep || j == length then
      [memory[start..j]] + Cut(memory, length, sep, j + 1, j + 2)
    else Cut(memory, length, sep, start, j + 1)
  }

  lemma {:induction false} CutNonempty(memory: seq<byte>, length: nat, sep: byte, start: nat, j: nat)
    requires |memory| == length + 2 && start <= j <= length
    ensures Cut(memory, length, sep, start, j) != []
    decreases length - j
  {
    if j < length && memory[j] != sep {
      CutNonempty(memory, length, sep, start, j + 1);
    }
  }

  /** The segments that a text is sent as. */
  function Parts(text: seq<byte>, beyond: (byte, byte), sep: byte): (parts: seq<seq<byte>>) {
    Cut(text + [beyond.0, beyond.1], |text|, sep, 0, 0)
  }

  /** coap_merge_multi_option, on values. */
  function Merge(dst: seq<byte>, option: seq<byte>, sep: byte): seq<byte> {
    if |dst| > 0 then dst + [sep] + option else option
  }

  function MergeAll(dst: seq<byte>, parts: seq<seq<byte>>, sep: byte): seq<byte>
    decreases |parts|
  {
    if parts == [] then dst else MergeAll(Merge(dst, parts[0], sep), parts[1..], sep)
  }

  /** Segments with a separator between each two. */
  function Join(parts: seq<seq<byte>>, sep: byte): seq<byte> {
    if parts == [] then []
    else if |parts| == 1 then parts[0]
    else parts[0] + [sep] + Join(parts[1..], sep)
  }

  /** Without the empty segments at the start. */
  function Trimmed(parts: seq<seq<byte>>): seq<seq<byte>> {
    if parts != [] && parts[0] == [] then Trimmed(parts[1..]) else parts
  }

  lemma {:induction false} MergedOnto(dst: seq<byte>, parts: seq<seq<byte>>, sep: byte)
    requires dst != []
    ensures MergeAll(dst, parts, sep) == Join([dst] + parts, sep)
    decreases |parts|
  {
    if parts != [] {
      var first := dst + [sep] + parts[0];
      MergedOnto(first, parts[1..], sep);
      assert ([dst] + parts)[1..] == parts;
      assert ([first] + parts[1..])[1..] == parts[1..];
      if |parts| > 1 {
        assert Join([first] + parts[1..], sep) == first + [sep] + Join(parts[1..], sep);
        assert first + [sep] + Join(parts[1..], sep) == dst + [sep] + (parts[0] + [sep] + Join(parts[1..], sep));
      }
    }
  }

  /** Merging any options of one number, in any datagram: the segments joined by the separator,
      apart from empty ones at the start. */
  lemma {:induction false} MergedIsJoined(parts: seq<seq<byte>>, sep: byte)
    ensures MergeAll([], parts, sep) == Join(Trimmed(parts), sep)
    ensures parts != [] && parts[0] != [] ==> MergeAll([], parts, sep) == Join(parts, sep)
    decreases |parts|
  {
    if parts != [] {
      if parts[0] == [] {
        MergedIsJoined(parts[1..], sep);
      } else {
        MergedOnto(parts[0], parts[1..], sep);
        assert [parts[0]] + parts[1..] == parts;
      }
    }
  }

  /** Number of separators at the end of the text. */
  function TrailingRun(text: seq<byte>, sep: byte): nat {
    if text == [] || text[|text| - 1] != sep then 0 else 1 + TrailingRun(text[..|text| - 1], sep)
  }

  /** A text survives the split: it does not begin with the separator, and ends with an even
      number of them. */
  predicate Splittable(text: seq<byte>, sep: byte) {
    text == [] || (text[0] != sep && TrailingRun(text, sep) % 2 == 0)
  }

  /** From position `j` on, the cutting does not find a separator in the last place. */
  predicate EndsWell(text: seq<byte>, sep: byte, j: nat)
    decreases |text| + 2 - j
  {
    if j >= |text| then j == |text|
    else if text[j] == sep then EndsWell(text, sep, j + 2)
    else EndsWell(text, sep, j + 1)
  }

  lemma {:induction false} TrailingSeparators(text: seq<byte>, sep: byte)
    ensures TrailingRun(text, sep) <= |text|
    ensures forall i :: |text| - TrailingRun(text, sep) <= i < |text| ==> text[i] == sep
    ensures TrailingRun(text, sep) < |text| ==> text[|text| - TrailingRun(text, sep) - 1] != sep
  {
    if text != [] && text[|text| - 1] == sep {
      TrailingSeparators(text[..|text| - 1], sep);
    }
  }

  lemma {:induction false} EndsWellParity(text: seq<byte>, sep: byte, j: nat)
    requires j <= |text|
    ensures EndsWell(text, sep, j) <==> Min(TrailingRun(text, sep), |text| - j) % 2 == 0
    decreases |text| - j
  {
    TrailingSeparators(text, sep);
    if j + 2 <= |text| && text[j] == sep {
      EndsWellParity(text, sep, j + 2);
    } else if j < |text| && text[j] != sep {
      EndsWellParity(text, sep, j + 1);
    }
  }

  /** What the merged segments are from position `j` on, when `dst` has been merged before. */
  function Merged(memory: seq<byte>, length: nat, sep: byte, dst: seq<byte>, start: nat, j: nat): seq<byte>
    requires |memory| == length + 2 && start <= length
  {
    if EndsWell(memory[..length], sep, j) then Merge(dst, memory[start..length], sep)
    else if memory[length + 1] == sep then Merge(dst, memory[start..length + 1], sep)
    else if start == length then dst
    else Merge(dst, memory[start..length - 1], sep)
  }

  lemma MergeTwice(dst: seq<byte>, memory: seq<byte>, start: nat, j: nat, end: nat, sep: byte)
    requires start <= j < end <= |memory| && memory[j] == sep
    requires dst != [] || start < j
    ensures Merge(Merge(dst, memory[start..j], sep), memory[j + 1..end], sep) == Merge(dst, memory[start..end], sep)
  {
    assert memory[start..end] == memory[start..j] + [sep] + memory[j + 1..end];
  }

  lemma MergedStep(memory: seq<byte>, length: nat, sep: byte, dst: seq<byte>, start: nat, j: nat)
    requires |memory| == length + 2 && start <= j < length && memory[j] == sep
    requires dst != [] || start < j
    ensures Merged(memory, length, sep, Merge(dst, memory[start..j], sep), j + 1, j + 2) == Merged(memory, length, sep, dst, start, j)
  {
    hide Merge;
    assert EndsWell(memory[..length], sep, j) == EndsWell(memory[..length], sep, j + 2);
    hide EndsWell;
    MergeTwice(dst, memory, start, j, length, sep);
    MergeTwice(dst, memory, start, j, length + 1, sep);
    if j + 1 < length {
      MergeTwice(dst, memory, start, j, length - 1, sep);
    }
  }

  lemma {:induction false} CutMerged(memory: seq<byte>, length: nat, sep: byte, dst: seq<byte>, start: nat, j: nat)
    requires |memory| == length + 2 && start <= j <= length + 1 && start <= length
    requires j == length + 1 ==> start == length && length > 0 && memory[length - 1] == sep
    requires dst == [] && start < length ==> j > start || memory[j] != sep
    ensures MergeAll(dst, Cut(memory, length, sep, start, j), sep) == Merged(memory, length, sep, dst, start, j)
    ensures !EndsWell(memory[..length], sep, j) ==> length > 0 && memory[length - 1] == sep
    decreases length + 3 - j
  {
    hide MergeAll, Cut, Merged;
    if j == length + 1 {
      CutEnds(memory, length, sep, dst, start, j);
    } else if j == length {
      CutEnds(memory, length, sep, dst, start, j);
    } else if memory[j] == sep {
      CutFirst(memory, length, sep, dst, start, j);
      MergedStep(memory, length, sep, dst, start, j);
      CutMerged(memory, length, sep, Merge(dst, memory[start..j], sep), j + 1, j + 2);
    } else {
      CutOn(memory, length, sep, dst, start, j);
      CutMerged(memory, length, sep, dst, start, j + 1);
    }
  }

  lemma CutFirst(memory: seq<byte>, length: nat, sep: byte, dst: seq<byte>, start: nat, j: nat)
    requires |memory| == length + 2 && start <= j < length && memory[j] == sep
    ensures MergeAll(dst, Cut(memory, length, sep, start, j), sep)
         == MergeAll(Merge(dst, memory[start..j], sep), Cut(memory, length, sep, j + 1, j + 2), sep)
  {
    var part, rest := memory[start..j], Cut(memory, length, sep, j + 1, j + 2);
    assert ([part] + rest)[1..] == rest;
    assert Cut(memory, length, sep, start, j) == [part] + rest;
    hide Merge, Cut;
  }

  lemma CutOn(memory: seq<byte>, length: nat, sep: byte, dst: seq<byte>, start: nat, j: nat)
    requires |memory| == length + 2 && start <= j < length && memory[j] != sep
    ensures Cut(memory, length, sep, start, j) == Cut(memory, length, sep, start, j + 1)
    ensures Merged(memory, length, sep, dst, start, j) == Merged(memory, length, sep, dst, start, j + 1)
  {
    hide Merge;
  }

  lemma CutEnds(memory: seq<byte>, length: nat, sep: byte, dst: seq<byte>, start: nat, j: nat)
    requires |memory| == length + 2 && length <= j <= length + 1 && start <= length
    requires j == length + 1 ==> start == length && length > 0 && memory[length - 1] == sep
    ensures MergeAll(dst, Cut(memory, length, sep, start, j), sep) == Merged(memory, length, sep, dst, start, j)
  {
    hide Merge;
    assert Cut(memory, length, sep, j + 1, j + 2) == [];
    MergeOne(dst, memory[start..j], sep);
  }

  lemma MergeOne(dst: seq<byte>, part: seq<byte>, sep: byte)
    ensures MergeAll(dst, [part], sep) == Merge(dst, part, sep)
    ensures MergeAll(dst, [], sep) == dst
  {
    hide Merge;
    assert [part][1..] == [];
  }

  /** A text that is split and merged again comes back if and only if it is splittable (the
      byte that ends the text in memory is not a separator). */
  lemma SplitExact(text: seq<byte>, beyond: (byte, byte), sep: byte)
    ensures Splittable(text, sep) ==> MergeAll([], Parts(text, beyond, sep), sep) == text
    ensures beyond.0 != sep && MergeAll([], Parts(text, beyond, sep), sep) == text ==> Splittable(text, sep)
  {
    var memory := text + [beyond.0, beyond.1];
    assert memory[..|text|] == text;
    EndsWellParity(text, sep, 0);
    TrailingSeparators(text, sep);
    if text == [] || text[0] != sep {
      CutMerged(memory, |text|, sep, [], 0, 0);
    } else {
      var rest := Cut(memory, |text|, sep, 1, 2);
      assert memory[0..0] == [];
      assert Parts(text, beyond, sep) == [[]] + rest;
      assert ([[]] + rest)[1..] == rest;
      CutMerged(memory, |text|, sep, [], 1, 2);
    }
  }

  // ----- Lists of options -----

  /** One option as sent, after an option with number `current`. */
  function OptBytes(current: nat, o: Opt): seq<byte> {
    HeaderBytes(if o.number >= current then o.number - current else 0, |o.value|) + o.value
  }

  function EncodeOpts(current: nat, opts: seq<Opt>): seq<byte>
    decreases |opts|
  {
    if opts == [] then [] else OptBytes(current, opts[0]) + EncodeOpts(opts[0].number, opts[1..])
  }

  function LastNumber(current: nat, opts: seq<Opt>): nat {
    if opts == [] then current else opts[|opts| - 1].number
  }

  lemma {:induction false} EncodeAppend(current: nat, a: seq<Opt>, b: seq<Opt>)
    ensures EncodeOpts(current, a + b) == EncodeOpts(current, a) + EncodeOpts(LastNumber(current, a), b)
    decreases |a|
  {
    hide OptBytes;
    if a == [] {
      assert a + b == b;
    } else {
      assert (a + b)[1..] == a[1..] + b;
      EncodeAppend(a[0].number, a[1..], b);
    }
  }

  lemma EncodeOne(current: nat, o: Opt)
    ensures EncodeOpts(current, [o]) == OptBytes(current, o)
  {
    hide OptBytes;
    assert EncodeOpts(o.number, [o][1..]) == [];
  }

  /** The options of a datagram and the payload after the marker; or a datagram that stops in
      the middle of an option. */
  datatype Wire = Wire(opts: seq<Opt>, payload: seq<byte>) | Truncated

  /** Read the options of `s`, after an option with number `current`. */
  function Scan(s: seq<byte>, current: nat): Wire {
    if s == [] then Wire([], [])
    else if s[0] >= 0xF0 then Wire([], s[1..])
    else
      match ReadHeader(s)
      case Short => Truncated
      case Header(delta, length, size) =>
        if |s| < size + length then Truncated
        else
          match Scan(s[size + length..], current + delta)
          case Truncated => Truncated
          case Wire(opts, payload) => Wire([Opt(current + delta, s[size..size + length])] + opts, payload)
  }

  /** The payload follows a byte of ones, and without a payload there is no such byte. */
  lemma PayloadMarked(payload: seq<byte>)
    ensures payload == [] ==> EncodePayload(payload) == []
    ensures payload != [] ==> EncodePayload(payload) == [255] + payload
  {
  }

  /** The bytes `s` begin with an option as section 3.1 of RFC 7252 writes it. */
  ghost predicate BeginsWith(s: seq<byte>, current: nat, o: Opt, rest: seq<byte>) {
    exists d: seq<byte>, l: seq<byte> ::
      && s != [] && s[0] / 16 < 15 && s == [s[0]] + d + l + o.value + rest
      && Denotes(s[0] / 16, d, o.number - current) && Denotes(s[0] % 16, l, |o.value|)
  }

  /** What the option loop reads, told from the bytes: an option and what follows it; or a
      first nibble of 15 and the payload; or nothing. */
  lemma ScanReads(s: seq<byte>, current: nat) returns (rest: seq<byte>)
    requires Scan(s, current).Wire?
    ensures var w := Scan(s, current);
      && (w.opts == [] ==> if s == [] then w.payload == [] else s[0] / 16 == 15 && w.payload == s[1..])
      && (w.opts != [] ==> BeginsWith(s, current, w.opts[0], rest) && Scan(rest, w.opts[0].number) == Wire(w.opts[1..], w.payload))
  {
    hide ReadHeader, BeginsWith, Denotes;
    rest := [];
    if s != [] && s[0] < 0xF0 {
      var h := ReadHeader(s);
      rest := s[h.size + h.length..];
      var d, l := HeaderParts(s);
      ScanStep(s, current, h.delta, h.size, s[h.size..h.size + h.length], rest);
      Begins(s, current, h, d, l);
      var w := Scan(rest, current + h.delta);
      assert ([Opt(current + h.delta, s[h.size..h.size + h.length])] + w.opts)[1..] == w.opts;
    }
  }

  lemma Begins(s: seq<byte>, current: nat, h: Header, d: seq<byte>, l: seq<byte>)
    requires s != [] && s[0] < 0xF0 && h.Header? && h.size + h.length <= |s| && s[..h.size] == [s[0]] + d + l
    requires Denotes(s[0] / 16, d, h.delta) && Denotes(s[0] % 16, l, h.length)
    ensures BeginsWith(s, current, Opt(current + h.delta, s[h.size..h.size + h.length]), s[h.size + h.length..])
  {
    hide Denotes;
    var value, rest := s[h.size..h.size + h.length], s[h.size + h.length..];
    assert s == s[..h.size] + value + rest;
    assert s == [s[0]] + d + l + value + rest;
    var o := Opt(current + h.delta, value);
    assert Denotes(s[0] / 16, d, o.number - current) && Denotes(s[0] % 16, l, |o.value|);
  }

  lemma HeaderParts(s: seq<byte>) returns (d: seq<byte>, l: seq<byte>)
    requires |s| > 0 && ReadHeader(s).Header?
    ensures var h := ReadHeader(s);
      s[..h.size] == [s[0]] + d + l && Denotes(s[0] / 16, d, h.delta) && Denotes(s[0] % 16, l, h.length)
  {
    var n := Extend(s[0] / 16, s[1..]).size;
    ExtendDenotes(s[0] / 16, s[1..]);
    ExtendDenotes(s[0] % 16, s[1 + n..]);
    d := s[1..][..n];
    l := s[1 + n..][..Extend(s[0] % 16, s[1 + n..]).size];
  }

  /** Option lists that the format can carry after an option with number `current`. */
  predicate Encodable(current: nat, opts: seq<Opt>)
    decreases |opts|
  {
    opts != [] ==>
      && current <= opts[0].number <= current + LONGEST && |opts[0].value| <= LONGEST
      && Encodable(opts[0].number, opts[1..])
  }

  /** The payload as sent: a marker, unless there is none. */
  function EncodePayload(payload: seq<byte>): seq<byte> {
    if payload == [] then [] else [0xFF] + payload
  }

  lemma ScanStep(s: seq<byte>, current: nat, delta: nat, size: nat, value: seq<byte>, rest: seq<byte>)
    requires |s| > 0 && s[0] < 0xF0 && ReadHeader(s) == Header(delta, |value|, size)
    requires |s| == size + |value| + |rest| && s[size..size + |value|] == value && s[size + |value|..] == rest
    ensures Scan(s, current) ==
      match Scan(rest, current + delta)
      case Truncated => Truncated
      case Wire(opts, payload) => Wire([Opt(current + delta, value)] + opts, payload)
  {
    hide ReadHeader;
  }

  lemma Slices(a: seq<byte>, b: seq<byte>, c: seq<byte>)
    ensures (a + b) + c == a + (b + c)
    ensures (a + (b + c))[|a|..|a| + |b|] == b && (a + (b + c))[|a| + |b|..] == c
    ensures |a| > 0 ==> (a + (b + c))[0] == a[0]
  {
  }

  lemma ScanOne(current: nat, o: Opt, rest: seq<byte>)
    requires current <= o.number <= current + LONGEST && |o.value| <= LONGEST
    ensures Scan(OptBytes(current, o) + rest, current) ==
      match Scan(rest, o.number)
      case Truncated => Truncated
      case Wire(opts, payload) => Wire([o] + opts, payload)
  {
    hide HeaderBytes, ReadHeader, Scan;
    var header := HeaderBytes(o.number - current, |o.value|);
    Slices(header, o.value, rest);
    HeaderRead(o.number - current, |o.value|, o.value + rest);
    ScanStep(header + (o.value + rest), current, o.number - current, |header|, o.value, rest);
  }

  /** Section 3.1 of RFC 7252: what is sent is read back, options and payload. */
  lemma {:induction false} WireRead(current: nat, opts: seq<Opt>, payload: seq<byte>)
    requires Encodable(current, opts)
    ensures Scan(EncodeOpts(current, opts) + EncodePayload(payload), current) == Wire(opts, payload)
    decreases |opts|
  {
    if opts == [] {
      assert [] + EncodePayload(payload) == EncodePayload(payload);
    } else {
      hide OptBytes, EncodePayload, Scan;
      var o, rest := opts[0], EncodeOpts(opts[0].number, opts[1..]) + EncodePayload(payload);
      assert EncodeOpts(current, opts) + EncodePayload(payload) == OptBytes(current, o) + rest;
      ScanOne(current, o, rest);
      WireRead(o.number, opts[1..], payload);
      assert opts == [o] + opts[1..];
    }
  }

  // ----- Writing options -----

  /** The start of coap_serialize_int_option: how many bytes the value needs. */
  method IntLength(value: uint32) returns (i: nat)
    ensures i == |IntBytes(value)|
  {
    IntBytesSelected(value);
    hide IntBytes;
    i := 0;
    if value >= 0x100_0000 {
      i := i + 1;
    }
    if value >= 0x1_0000 {
      i := i + 1;
    }
    if value >= 0x100 {
      i := i + 1;
    }
    if value >= 1 {
      i := i + 1;
    }
  }

  /** The end of coap_serialize_int_option: the bytes of the value. */
  method PutInt(value: uint32, buffer: array<byte>, at: nat) returns (written: nat)
    requires at + |IntBytes(value)| <= buffer.Length
    modifies buffer
    ensures written == |IntBytes(value)|
    ensures buffer[..] == Overwrite(old(buffer[..]), at, IntBytes(value))
  {
    IntBytesSelected(value);
    hide IntBytes;
    var i := at;
    if value >= 0x100_0000 {
      buffer[i] := value / 0x100_0000;
      i := i + 1;
    }
    if value >= 0x1_0000 {
      buffer[i] := value / 0x1_0000 % 256;
      i := i + 1;
    }
    if value >= 0x100 {
      buffer[i] := value / 0x100 % 256;
      i := i + 1;
    }
    if value >= 1 {
      buffer[i] := value % 256;
      i := i + 1;
    }
    written := i - at;
  }

  lemma OptWritten(was: seq<byte>, at: nat, current: nat, o: Opt)
    requires current <= o.number && at + |OptBytes(current, o)| <= |was|
    ensures var header := HeaderBytes(o.number - current, |o.value|);
      && |OptBytes(current, o)| == |header| + |o.value|
      && Overwrite(Overwrite(was, at, header), at + |header|, o.value) == Overwrite(was, at, OptBytes(current, o))
  {
    hide HeaderBytes, Overwrite;
    OverwriteTwice(was, at, HeaderBytes(o.number - current, |o.value|), o.value);
  }

  /** coap_serialize_int_option */
  method SerializeIntOption(number: nat, current: nat, buffer: array<byte>, at: nat, value: uint32) returns (written: nat)
    requires current <= number
    requires at + |OptBytes(current, Opt(number, IntBytes(value)))| <= buffer.Length
    modifies buffer
    ensures written == |OptBytes(current, Opt(number, IntBytes(value)))|
    ensures buffer[..] == Overwrite(old(buffer[..]), at, OptBytes(current, Opt(number, IntBytes(value))))
  {
    hide *;
    OptWritten(buffer[..], at, current, Opt(number, IntBytes(value)));
    var i := IntLength(value);
    var h := SetOptionHeader(number - current, i, buffer, at);
    var n := PutInt(value, buffer, at + h);
    written := h + n;
  }

  /** coap_serialize_array_option without a separator, and its part that writes one segment. */
  method SerializeArrayOption(number: nat, current: nat, buffer: array<byte>, at: nat, value: seq<byte>) returns (written: nat)
    requires current <= number
    requires at + |OptBytes(current, Opt(number, value))| <= buffer.Length
    modifies buffer
    ensures written == |OptBytes(current, Opt(number, value))|
    ensures buffer[..] == Overwrite(old(buffer[..]), at, OptBytes(current, Opt(number, value)))
  {
    hide *;
    OptWritten(buffer[..], at, current, Opt(number, value));
    var h := SetOptionHeader(number - current, |value|, buffer, at);
    CopyInto(buffer, at + h, value);
    written := h + |value|;
  }

  /** One option for each part. */
  function PartOpts(number: nat, parts: seq<seq<byte>>): (opts: seq<Opt>)
    ensures |opts| == |parts|
  {
    if parts == [] then [] else [Opt(number, parts[0])] + PartOpts(number, parts[1..])
  }

  /** The options `done` of a longer list have been written at `at`. */
  ghost predicate Progress(was: seq<byte>, buffer: seq<byte>, at: nat, current: nat, done: seq<Opt>, all: seq<Opt>, written: nat, last: nat) {
    && done <= all
    && at + |EncodeOpts(current, all)| <= |was|
    && written == |EncodeOpts(current, done)| <= |EncodeOpts(current, all)|
    && last == LastNumber(current, done)
    && buffer == Overwrite(was, at, EncodeOpts(current, done))
  }

  /** Room for one more option, and what writing it achieves. */
  lemma ProgressStep(was: seq<byte>, buffer: seq<byte>, at: nat, current: nat, done: seq<Opt>, all: seq<Opt>, written: nat, last: nat, o: Opt)
    requires Progress(was, buffer, at, current, done, all, written, last) && done + [o] <= all
    ensures at + written + |OptBytes(last, o)| <= |buffer| == |was|
    ensures Progress(was, Overwrite(buffer, at + written, OptBytes(last, o)), at, current, done + [o], all, written + |OptBytes(last, o)|, o.number)
  {
    hide OptBytes, Overwrite;
    EncodeAppend(current, done, [o]);
    EncodeOne(last, o);
    EncodeAppend(current, done + [o], all[|done| + 1..]);
    assert all == (done + [o]) + all[|done| + 1..];
    OverwriteTwice(was, at, EncodeOpts(current, done), OptBytes(last, o));
  }

  /** The loop of coap_serialize_array_option stands at position `j`, with a segment begun at
      `start`: the options of the segments before it have been written. */
  ghost predicate Splitting(was: seq<byte>, buffer: seq<byte>, at: nat, current: nat, all: seq<Opt>, written: nat, last: nat,
                            number: nat, memory: seq<byte>, length: nat, sep: byte, start: nat, j: nat) {
    && |memory| == length + 2 && start <= j <= length + 3 && last <= number
    && exists done :: done + PartOpts(number, Cut(memory, length, sep, start, j)) == all
                      && Progress(was, buffer, at, current, done, all, written, last)
  }

  lemma SplitSkip(was: seq<byte>, buffer: seq<byte>, at: nat, current: nat, all: seq<Opt>, written: nat, last: nat,
                  number: nat, memory: seq<byte>, length: nat, sep: byte, start: nat, j: nat)
    requires Splitting(was, buffer, at, current, all, written, last, number, memory, length, sep, start, j)
    requires j <= length + 1 && !(memory[j] == sep || j == length)
    ensures Splitting(was, buffer, at, current, all, written, last, number, memory, length, sep, start, j + 1)
  {
    hide Progress, Cut, PartOpts;
    CutStep(number, memory, length, sep, start, j);
  }

  lemma SplitPut(was: seq<byte>, buffer: seq<byte>, at: nat, current: nat, all: seq<Opt>, written: nat, last: nat,
                 number: nat, memory: seq<byte>, length: nat, sep: byte, start: nat, j: nat)
    requires Splitting(was, buffer, at, current, all, written, last, number, memory, length, sep, start, j)
    requires j <= length + 1 && (memory[j] == sep || j == length)
    ensures var piece := OptBytes(last, Opt(number, memory[start..j]));
      && at + written + |piece| <= |buffer|
      && Splitting(was, Overwrite(buffer, at + written, piece), at, current, all, written + |piece|, number,
                   number, memory, length, sep, j + 1, j + 2)
  {
    hide Progress, Cut, PartOpts, OptBytes, Overwrite;
    var o, rest := Opt(number, memory[start..j]), PartOpts(number, Cut(memory, length, sep, j + 1, j + 2));
    CutStep(number, memory, length, sep, start, j);
    var done :| done + PartOpts(number, Cut(memory, length, sep, start, j)) == all
                && Progress(was, buffer, at, current, done, all, written, last);
    assert all == (done + [o]) + rest;
    ProgressStep(was, buffer, at, current, done, all, written, last, o);
  }

  lemma SplitEnd(was: seq<byte>, buffer: seq<byte>, at: nat, current: nat, all: seq<Opt>, written: nat, last: nat,
                 number: nat, memory: seq<byte>, length: nat, sep: byte, start: nat, j: nat)
    requires Splitting(was, buffer, at, current, all, written, last, number, memory, length, sep, start, j)
    requires j > length + 1
    ensures written == |EncodeOpts(current, all)| && at + written <= |was|
    ensures buffer == Overwrite(was, at, EncodeOpts(current, all))
  {
    hide EncodeOpts, Overwrite;
    CutDone(number, memory, length, sep, start, j);
    var done :| done + PartOpts(number, Cut(memory, length, sep, start, j)) == all
                && Progress(was, buffer, at, current, done, all, written, last);
    assert done == all;
  }

  lemma SplitStart(was: seq<byte>, at: nat, current: nat, all: seq<Opt>, number: nat, memory: seq<byte>, length: nat, sep: byte)
    requires |memory| == length + 2 && current <= number
    requires at + |EncodeOpts(current, all)| <= |was|
    requires all == PartOpts(number, Cut(memory, length, sep, 0, 0))
    ensures Splitting(was, was, at, current, all, 0, current, number, memory, length, sep, 0, 0)
  {
    ProgressStart(was, at, current, all);
    hide Progress, Cut, PartOpts;
    assert [] + all == all;
  }

  /** coap_serialize_array_option with a separator.  `memory` is the text of the given length
      and the two bytes after it. */
  method SerializeSplitOption(number: nat, current: nat, buffer: array<byte>, at: nat, memory: seq<byte>, length: nat, sep: byte)
    returns (written: nat)
    requires current <= number && |memory| == length + 2
    requires at + |EncodeOpts(current, PartOpts(number, Cut(memory, length, sep, 0, 0)))| <= buffer.Length
    modifies buffer
    ensures written == |EncodeOpts(current, PartOpts(number, Cut(memory, length, sep, 0, 0)))|
    ensures buffer[..] == Overwrite(old(buffer[..]), at, EncodeOpts(current, PartOpts(number, Cut(memory, length, sep, 0, 0))))
  {
    hide *;
    ghost var was, all := buffer[..], PartOpts(number, Cut(memory, length, sep, 0, 0));
    written := 0;
    var last: nat, start: nat, j: nat := current, 0, 0;
    SplitStart(was, at, current, all, number, memory, length, sep);
    while j <= length + 1
      invariant start <= j <= length + 3 && last <= number
      invariant Splitting(was, buffer[..], at, current, all, written, last, number, memory, length, sep, start, j)
      decreases length + 3 - j
    {
      if memory[j] == sep || j == length {
        SplitPut(was, buffer[..], at, current, all, written, last, number, memory, length, sep, start, j);
        var n := SerializeArrayOption(number, last, buffer, at + written, memory[start..j]);
        written, last := written + n, number;
        j := j + 1;
        start := j;
      } else {
        SplitSkip(was, buffer[..], at, current, all, written, last, number, memory, length, sep, start, j);
      }
      j := j + 1;
    }
    SplitEnd(was, buffer[..], at, current, all, written, last, number, memory, length, sep, start, j);
  }

  lemma ProgressStart(was: seq<byte>, at: nat, current: nat, all: seq<Opt>)
    requires at + |EncodeOpts(current, all)| <= |was|
    ensures Progress(was, was, at, current, [], all, 0, current)
  {
    hide OptBytes;
    assert Overwrite(was, at, []) == was;
  }

  lemma CutStep(number: nat, memory: seq<byte>, length: nat, sep: byte, start: nat, j: nat)
    requires |memory| == length + 2 && start <= j <= length + 1
    ensures PartOpts(number, Cut(memory, length, sep, start, j)) ==
      if memory[j] == sep || j == length then
        [Opt(number, memory[start..j])] + PartOpts(number, Cut(memory, length, sep, j + 1, j + 2))
      else PartOpts(number, Cut(memory, length, sep, start, j + 1))
  {
    if memory[j] == sep || j == length {
      var part, rest := memory[start..j], Cut(memory, length, sep, j + 1, j + 2);
      assert ([part] + rest)[1..] == rest;
    }
  }

  lemma CutDone(number: nat, memory: seq<byte>, length: nat, sep: byte, start: nat, j: nat)
    requires |memory| == length + 2 && start <= j <= length + 3 && j > length + 1
    ensures PartOpts(number, Cut(memory, length, sep, start, j)) == []
  {
  }
}
