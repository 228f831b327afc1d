/** coap_serialize_message (apps/er-coap/er-coap.c): the printer, writing into a buffer. */
module CoapPrinter {

  import opened Bytes
  import opened CoapOptions
  import opened CoapBlocks
  import opened CoapMessage

  /** The header, the token and the options numbered below `n` stand in the buffer. */
  ghost predicate Printing(m: Message, beyond: Beyond, was: seq<byte>, buffer: seq<byte>, at: nat, current: nat, n: nat) {
    && m.kind < 4 && n <= END
    && |Head(m, beyond)| <= |was|
    && at == |Printed(m, beyond, n)| <= |was|
    && buffer == Overwrite(was, 0, Printed(m, beyond, n))
    && current == LastNumber(0, OptionsBelow(m, beyond, n)) <= n
  }

  function Printed(m: Message, beyond: Beyond, n: nat): seq<byte>
    requires m.kind < 4
  {
    FixedHeader(m) + m.token + EncodeOpts(0, OptionsBelow(m, beyond, n))
  }

  lemma {:induction false} PrintedGrows(m: Message, beyond: Beyond, n: nat, k: nat)
    requires n <= k
    ensures |EncodeOpts(0, OptionsBelow(m, beyond, n))| <= |EncodeOpts(0, OptionsBelow(m, beyond, k))|
    decreases k - n
  {
    hide OptionsFor, EncodeOpts;
    if n < k {
      EncodeAppend(0, OptionsBelow(m, beyond, n), OptionsFor(m, beyond, n));
      PrintedGrows(m, beyond, n + 1, k);
    }
  }

  /** There is room for the options of the next number, and writing them is progress. */
  lemma PrintStep(m: Message, beyond: Beyond, was: seq<byte>, buffer: seq<byte>, at: nat, current: nat, n: nat)
    requires Printing(m, beyond, was, buffer, at, current, n) && n < END
    ensures var opts := OptionsFor(m, beyond, n);
      && at + |EncodeOpts(current, opts)| <= |buffer| == |was|
      && Printing(m, beyond, was, Overwrite(buffer, at, EncodeOpts(current, opts)), at + |EncodeOpts(current, opts)|, LastNumber(current, opts), n + 1)
  {
    hide OptionsFor, OptionsBelow, EncodeOpts, Printed, LastNumber, Head, Overwrite;
    PrintedStep(m, beyond, n);
    var opts := OptionsFor(m, beyond, n);
    OverwriteTwice(was, 0, Printed(m, beyond, n), EncodeOpts(current, opts));
  }

  lemma PrintedStep(m: Message, beyond: Beyond, n: nat)
    requires m.kind < 4 && n < END
    ensures var current, opts := LastNumber(0, OptionsBelow(m, beyond, n)), OptionsFor(m, beyond, n);
      && Printed(m, beyond, n + 1) == Printed(m, beyond, n) + EncodeOpts(current, opts)
      && |Printed(m, beyond, n + 1)| <= |Head(m, beyond)|
      && LastNumber(0, OptionsBelow(m, beyond, n + 1)) == LastNumber(current, opts) <= n + 1
  {
    hide OptionsFor, EncodeOpts, FixedHeader, Ordered;
    var done, opts := OptionsBelow(m, beyond, n), OptionsFor(m, beyond, n);
    assert OptionsBelow(m, beyond, n + 1) == done + opts;
    EncodeAppend(0, done, opts);
    PrintedGrows(m, beyond, n + 1, END);
    BelowOrdered(m, beyond, n + 1);
    hide OptionsBelow;
  }

  /** No option numbered from `n` to `number` - 1 is known to the printer. */
  ghost predicate Between(m: Message, beyond: Beyond, n: nat, number: nat) {
    n <= number <= END && forall i :: n <= i < number ==> OptionsFor(m, beyond, i) == []
  }

  /** Numbers without options are passed over. */
  lemma {:induction false} Skip(m: Message, beyond: Beyond, was: seq<byte>, buffer: seq<byte>, at: nat, current: nat, n: nat, k: nat)
    requires Printing(m, beyond, was, buffer, at, current, n) && Between(m, beyond, n, k)
    ensures Printing(m, beyond, was, buffer, at, current, k)
    decreases k - n
  {
    hide Printing, OptionsFor, EncodeOpts, LastNumber, Overwrite;
    if n < k {
      PrintStep(m, beyond, was, buffer, at, current, n);
      NoOptions(current, Opt(n, []));
      OverwriteNothing(buffer, at);
      Skip(m, beyond, was, buffer, at, current, n + 1, k);
    }
  }

  lemma OverwriteNothing(data: seq<byte>, at: nat)
    requires at <= |data|
    ensures Overwrite(data, at, []) == data
  {
  }

  /** What it takes to print one option: room for it, and then progress. */
  lemma ReadyOne(m: Message, beyond: Beyond, was: seq<byte>, buffer: seq<byte>, at: nat, current: nat, n: nat, number: nat, value: seq<byte>)
    requires Printing(m, beyond, was, buffer, at, current, n) && Between(m, beyond, n, number) && number < END
    requires OptionsFor(m, beyond, number) == if number in m.options then [Opt(number, value)] else []
    ensures current <= number
    ensures number !in m.options ==> Printing(m, beyond, was, buffer, at, current, number + 1)
    ensures number in m.options ==>
      var piece := OptBytes(current, Opt(number, value));
      && at + |piece| <= |buffer|
      && Printing(m, beyond, was, Overwrite(buffer, at, piece), at + |piece|, number, number + 1)
  {
    hide *;
    Skip(m, beyond, was, buffer, at, current, n, number);
    CurrentBelow(m, beyond, was, buffer, at, current, number);
    PrintStep(m, beyond, was, buffer, at, current, number);
    NoOptions(current, Opt(number, value));
    OverwriteNothing(buffer, at);
    EncodeOne(current, Opt(number, value));
  }

  lemma NoOptions(current: nat, o: Opt)
    ensures EncodeOpts(current, []) == [] && LastNumber(current, []) == current && LastNumber(current, [o]) == o.number
  {
  }

  lemma CurrentBelow(m: Message, beyond: Beyond, was: seq<byte>, buffer: seq<byte>, at: nat, current: nat, n: nat)
    requires Printing(m, beyond, was, buffer, at, current, n)
    ensures current <= n < END + 1 && |buffer| == |was| && at <= |was|
  {
  }

  /** COAP_SERIALIZE_INT_OPTION, after the numbers below `n` */
  method PrintInt(m: Message, ghost beyond: Beyond, ghost was: seq<byte>, buffer: array<byte>, at: nat, current: nat,
                  ghost n: nat, number: nat, value: uint32)
    returns (at': nat, current': nat)
    requires Printing(m, beyond, was, buffer[..], at, current, n) && Between(m, beyond, n, number) && number < END
    requires OptionsFor(m, beyond, number) == if number in m.options then [Opt(number, IntBytes(value))] else []
    modifies buffer
    ensures Printing(m, beyond, was, buffer[..], at', current', number + 1)
  {
    hide *;
    ReadyOne(m, beyond, was, buffer[..], at, current, n, number, IntBytes(value));
    at', current' := at, current;
    if number in m.options {
      var written := SerializeIntOption(number, current, buffer, at, value);
      at', current' := at + written, number;
    }
  }

  /** COAP_SERIALIZE_BYTE_OPTION, and COAP_SERIALIZE_STRING_OPTION without a separator */
  method PrintBytes(m: Message, ghost beyond: Beyond, ghost was: seq<byte>, buffer: array<byte>, at: nat, current: nat,
                    ghost n: nat, number: nat, value: seq<byte>)
    returns (at': nat, current': nat)
    requires Printing(m, beyond, was, buffer[..], at, current, n) && Between(m, beyond, n, number) && number < END
    requires OptionsFor(m, beyond, number) == if number in m.options then [Opt(number, value)] else []
    modifies buffer
    ensures Printing(m, beyond, was, buffer[..], at', current', number + 1)
  {
    hide *;
    ReadyOne(m, beyond, was, buffer[..], at, current, n, number, value);
    at', current' := at, current;
    if number in m.options {
      var written := SerializeArrayOption(number, current, buffer, at, value);
      at', current' := at + written, number;
    }
  }

  lemma ReadyText(m: Message, beyond: Beyond, was: seq<byte>, buffer: seq<byte>, at: nat, current: nat, n: nat, number: nat,
                  memory: seq<byte>, length: nat, sep: byte)
    requires Printing(m, beyond, was, buffer, at, current, n) && Between(m, beyond, n, number) && number < END && |memory| == length + 2
    requires OptionsFor(m, beyond, number) == if number in m.options then PartOpts(number, Cut(memory, length, sep, 0, 0)) else []
    ensures current <= number
    ensures number !in m.options ==> Printing(m, beyond, was, buffer, at, current, number + 1)
    ensures number in m.options ==>
      var piece := EncodeOpts(current, PartOpts(number, Cut(memory, length, sep, 0, 0)));
      && at + |piece| <= |buffer|
      && Printing(m, beyond, was, Overwrite(buffer, at, piece), at + |piece|, number, number + 1)
  {
    hide *;
    Skip(m, beyond, was, buffer, at, current, n, number);
    CurrentBelow(m, beyond, was, buffer, at, current, number);
    PrintStep(m, beyond, was, buffer, at, current, number);
    NoOptions(current, Opt(number, []));
    OverwriteNothing(buffer, at);
    CutNonempty(memory, length, sep, 0, 0);
    PartsOrdered(current, number, Cut(memory, length, sep, 0, 0));
  }

  lemma SegmentsCut(number: nat, text: seq<byte>, beyond: Beyond, sep: byte)
    ensures Segments(number, text, beyond, sep)
         == PartOpts(number, Cut(text + [beyond(number).0, beyond(number).1], |text|, sep, 0, 0))
  {
  }

  /** COAP_SERIALIZE_STRING_OPTION with a separator */
  method PrintText(m: Message, beyond: Beyond, ghost was: seq<byte>, buffer: array<byte>, at: nat, current: nat,
                   ghost n: nat, number: nat, text: seq<byte>, sep: byte)
    returns (at': nat, current': nat)
    requires Printing(m, beyond, was, buffer[..], at, current, n) && Between(m, beyond, n, number) && number < END
    requires OptionsFor(m, beyond, number) == if number in m.options then Segments(number, text, beyond, sep) else []
    modifies buffer
    ensures Printing(m, beyond, was, buffer[..], at', current', number + 1)
  {
    hide *;
    var memory := text + [beyond(number).0, beyond(number).1];
    SegmentsCut(number, text, beyond, sep);
    ReadyText(m, beyond, was, buffer[..], at, current, n, number, memory, |text|, sep);
    at', current' := at, current;
    if number in m.options {
      var written := SerializeSplitOption(number, current, buffer, at, memory, |text|, sep);
      at', current' := at + written, number;
    }
  }

  /** COAP_SERIALIZE_BLOCK_OPTION */
  method PrintBlock(m: Message, ghost beyond: Beyond, ghost was: seq<byte>, buffer: array<byte>, at: nat, current: nat,
                    ghost n: nat, number: nat, b: Block)
    returns (at': nat, current': nat)
    requires Printing(m, beyond, was, buffer[..], at, current, n) && Between(m, beyond, n, number) && number < END
    requires OptionsFor(m, beyond, number) == if number in m.options then [Opt(number, IntBytes(BlockValue(b)))] else []
    modifies buffer
    ensures Printing(m, beyond, was, buffer[..], at', current', number + 1)
  {
    hide Printing, Between, OptionsFor, IntBytes, Log2;
    var e := FindLog2(b.size / 16);
    var block := b.num as int * 16 % TWO32 + (if b.more || e / 8 % 2 == 1 then 8 else 0) + e % 8;
    at', current' := PrintInt(m, beyond, was, buffer, at, current, n, number, block);
  }

  /** The option part of coap_serialize_message. */
  method PrintOptions(m: Message, beyond: Beyond, ghost was: seq<byte>, buffer: array<byte>, start: nat) returns (at: nat)
    requires Printing(m, beyond, was, buffer[..], start, 0, 0)
    modifies buffer
    ensures exists current: nat :: Printing(m, beyond, was, buffer[..], at, current, END)
  {
    hide Printing, IntBytes, Segments, BlockValue;
    var current: nat;
    at, current := PrintBytes(m, beyond, was, buffer, start, 0, 0, IF_MATCH, m.ifMatch);
    at, current := PrintBytes(m, beyond, was, buffer, at, current, 2, URI_HOST, m.uriHost);
    at, current := PrintBytes(m, beyond, was, buffer, at, current, 4, ETAG, m.etag);
    at, current := PrintInt(m, beyond, was, buffer, at, current, 5, IF_NONE_MATCH, 0);
    at, current := PrintInt(m, beyond, was, buffer, at, current, 6, OBSERVE, m.observe);
    at, current := PrintInt(m, beyond, was, buffer, at, current, 7, URI_PORT, m.uriPort);
    at, current := PrintText(m, beyond, was, buffer, at, current, 8, LOCATION_PATH, m.locationPath, SLASH);
    at, current := PrintText(m, beyond, was, buffer, at, current, 9, URI_PATH, m.uriPath, SLASH);
    at, current := PrintInt(m, beyond, was, buffer, at, current, 12, CONTENT_FORMAT, m.contentFormat);
    at, current := PrintInt(m, beyond, was, buffer, at, current, 13, MAX_AGE, m.maxAge);
    at, current := PrintText(m, beyond, was, buffer, at, current, 15, URI_QUERY, m.uriQuery, AMPERSAND);
    at := PrintLateOptions(m, beyond, was, buffer, at, current);
  }

  method PrintLateOptions(m: Message, beyond: Beyond, ghost was: seq<byte>, buffer: array<byte>, start: nat, last: nat) returns (at: nat)
    requires Printing(m, beyond, was, buffer[..], start, last, 16)
    modifies buffer
    ensures exists current: nat :: Printing(m, beyond, was, buffer[..], at, current, END)
  {
    hide Printing, IntBytes, Segments, BlockValue;
    var current: nat;
    at, current := PrintInt(m, beyond, was, buffer, start, last, 16, ACCEPT, m.accept);
    at, current := PrintText(m, beyond, was, buffer, at, current, 18, LOCATION_QUERY, m.locationQuery, AMPERSAND);
    at, current := PrintBlock(m, beyond, was, buffer, at, current, 21, BLOCK2, m.block2);
    at, current := PrintBlock(m, beyond, was, buffer, at, current, 24, BLOCK1, m.block1);
    at := PrintLastOptions(m, beyond, was, buffer, at, current);
  }

  method PrintLastOptions(m: Message, beyond: Beyond, ghost was: seq<byte>, buffer: array<byte>, start: nat, last: nat) returns (at: nat)
    requires Printing(m, beyond, was, buffer[..], start, last, 28)
    modifies buffer
    ensures exists current: nat :: Printing(m, beyond, was, buffer[..], at, current, END)
  {
    hide Printing, IntBytes, Segments, BlockValue;
    var current: nat := last;
    at := start;
    at, current := PrintInt(m, beyond, was, buffer, at, current, 28, SIZE2, m.size2);
    at, current := PrintBytes(m, beyond, was, buffer, at, current, 29, PROXY_URI, m.proxyUri);
    at, current := PrintBytes(m, beyond, was, buffer, at, current, 36, PROXY_SCHEME, m.proxyScheme);
    at, current := PrintInt(m, beyond, was, buffer, at, current, 40, SIZE1, m.size1);
  }

  /** The header and the token. */
  method PrintHeader(m: Message, buffer: array<byte>)
    requires m.kind < 4 && COAP_HEADER_LEN + |m.token| <= buffer.Length
    modifies buffer
    ensures buffer[..] == Overwrite(old(buffer[..]), 0, FixedHeader(m) + m.token)
  {
    buffer[0] := 0x40 + m.kind * 16 + |m.token| % 16;
    buffer[1] := m.code;
    buffer[2] := m.mid / 256;
    buffer[3] := m.mid % 256;
    ghost var was := old(buffer[..]);
    assert buffer[..] == Overwrite(was, 0, FixedHeader(m));
    CopyInto(buffer, COAP_HEADER_LEN, m.token);
    OverwriteTwice(was, 0, FixedHeader(m), m.token);
  }

  /** coap_serialize_message: the datagram, or nothing if the header is too long.  The caller's
      buffer has to hold the header and the payload. */
  method SerializeMessage(m: Message, beyond: Beyond, buffer: array<byte>) returns (size: nat)
    requires m.kind < 4 && |Head(m, beyond)| + 1 + |m.payload| <= buffer.Length
    modifies buffer
    ensures size == |Encode(m, beyond)|
    ensures buffer[..size] == Encode(m, beyond)
  {
    hide OptionsBelow, EncodeOpts, FixedHeader, Printing;
    ghost var was := buffer[..];
    HeaderAlone(m, beyond, was);
    PrintHeader(m, buffer);
    if m.code == 0 {
      return COAP_HEADER_LEN;
    }
    PrintStart(m, beyond, was);
    var at := PrintOptions(m, beyond, was, buffer, COAP_HEADER_LEN + |m.token|);
    ghost var current: nat :| Printing(m, beyond, was, buffer[..], at, current, END);
    PrintEnd(m, beyond, was, buffer[..], at, current);
    hide Head, Printing;
    if at > COAP_MAX_HEADER_SIZE {
      return 0;
    }
    if |m.payload| > 0 {
      buffer[at] := 0xFF;
      CopyInto(buffer, at + 1, m.payload);
      return at + 1 + |m.payload|;
    }
    size := at;
  }

  lemma HeaderAlone(m: Message, beyond: Beyond, was: seq<byte>)
    requires m.kind < 4 && COAP_HEADER_LEN + |m.token| <= |was|
    ensures |FixedHeader(m)| == COAP_HEADER_LEN && Overwrite(was, 0, FixedHeader(m) + m.token)[..COAP_HEADER_LEN] == FixedHeader(m)
    ensures |Head(m, beyond)| >= COAP_HEADER_LEN + |m.token|
  {
    hide OptionsBelow, EncodeOpts;
  }

  lemma PrintStart(m: Message, beyond: Beyond, was: seq<byte>)
    requires m.kind < 4 && |Head(m, beyond)| <= |was|
    ensures Printing(m, beyond, was, Overwrite(was, 0, FixedHeader(m) + m.token), COAP_HEADER_LEN + |m.token|, 0, 0)
  {
    hide OptionsFor, FixedHeader;
    assert OptionsBelow(m, beyond, 0) == [];
    assert Printed(m, beyond, 0) == FixedHeader(m) + m.token;
  }

  lemma PrintEnd(m: Message, beyond: Beyond, was: seq<byte>, buffer: seq<byte>, at: nat, current: nat)
    requires Printing(m, beyond, was, buffer, at, current, END)
    ensures m.kind < 4 && at == |Head(m, beyond)| <= |buffer| && buffer[..at] == Head(m, beyond)
  {
    hide OptionsBelow, FixedHeader, EncodeOpts;
  }
}
