/** CoAP messages (apps/er-coap/er-coap.c): what the printer writes, what the parser makes of
    it, and when the parser gets back what was printed (RFC 7252, section 3). */
module CoapMessage {

  import opened Bytes
  import opened CoapOptions
  import opened CoapBlocks

  const COAP_MAX_HEADER_SIZE: nat := 62
  const REST_MAX_CHUNK_SIZE: nat := 64
  const COAP_HEADER_LEN: nat := 4
  const COAP_TOKEN_LEN: nat := 8
  const COAP_ETAG_LEN: nat := 8

  const IF_MATCH: nat := 1
  const URI_HOST: nat := 3
  const ETAG: nat := 4
  const IF_NONE_MATCH: nat := 5
  const OBSERVE: nat := 6
  const URI_PORT: nat := 7
  const LOCATION_PATH: nat := 8
  const URI_PATH: nat := 11
  const CONTENT_FORMAT: nat := 12
  const MAX_AGE: nat := 14
  const URI_QUERY: nat := 15
  const ACCEPT: nat := 17
  const LOCATION_QUERY: nat := 20
  const BLOCK2: nat := 23
  const BLOCK1: nat := 27
  const SIZE2: nat := 28
  const PROXY_URI: nat := 35
  const PROXY_SCHEME: nat := 39
  const SIZE1: nat := 60

  /** One more than the last option number that the printer knows. */
  const END: nat := 61

  const SLASH: byte := 0x2F
  const AMPERSAND: byte := 0x26

  const NO_BLOCK := Block(0, false, 0, 0)

  /** coap_packet_t.  `options` is the bitmap of the options that are set; texts and payload
      stand for what the pointers and lengths of the original denote.  `observe` is the bit
      pattern of an int32_t. */
  datatype Message = Message(
    kind: nat, code: byte, mid: uint16, token: seq<byte>, options: set<nat>,
    ifMatch: seq<byte>, uriHost: seq<byte>, etag: seq<byte>, ifNoneMatch: bool, observe: uint32, uriPort: uint16,
    locationPath: seq<byte>, uriPath: seq<byte>, contentFormat: uint32, maxAge: uint32, uriQuery: seq<byte>,
    accept: uint32, locationQuery: seq<byte>, block2: Block, block1: Block, size2: uint32,
    proxyUri: seq<byte>, proxyScheme: seq<byte>, size1: uint32, payload: seq<byte>)

  // ----- Printing -----

  /** The two bytes that lie in memory after the text of an option. */
  type Beyond = nat -> (byte, byte)

  function Segments(number: nat, text: seq<byte>, beyond: Beyond, sep: byte): seq<Opt> {
    PartOpts(number, Cut(text + [beyond(number).0, beyond(number).1], |text|, sep, 0, 0))
  }

  /** The options that are printed for one option number. */
  function OptionsFor(m: Message, beyond: Beyond, number: nat): seq<Opt> {
    if number !in m.options then []
    else if number == IF_MATCH then [Opt(number, m.ifMatch)]
    else if number == URI_HOST then [Opt(number, m.uriHost)]
    else if number == ETAG then [Opt(number, m.etag)]
    else if number == IF_NONE_MATCH then [Opt(number, IntBytes(0))]
    else if number == OBSERVE then [Opt(number, IntBytes(m.observe))]
    else if number == URI_PORT then [Opt(number, IntBytes(m.uriPort))]
    else if number == LOCATION_PATH then Segments(number, m.locationPath, beyond, SLASH)
    else if number == URI_PATH then Segments(number, m.uriPath, beyond, SLASH)
    else if number == CONTENT_FORMAT then [Opt(number, IntBytes(m.contentFormat))]
    else if number == MAX_AGE then [Opt(number, IntBytes(m.maxAge))]
    else if number == URI_QUERY then Segments(number, m.uriQuery, beyond, AMPERSAND)
    else if number == ACCEPT then [Opt(number, IntBytes(m.accept))]
    else if number == LOCATION_QUERY then Segments(number, m.locationQuery, beyond, AMPERSAND)
    else if number == BLOCK2 then [Opt(number, IntBytes(BlockValue(m.block2)))]
    else if number == BLOCK1 then [Opt(number, IntBytes(BlockValue(m.block1)))]
    else if number == SIZE2 then [Opt(number, IntBytes(m.size2))]
    else if number == PROXY_URI then [Opt(number, m.proxyUri)]
    else if number == PROXY_SCHEME then [Opt(number, m.proxyScheme)]
    else if number == SIZE1 then [Opt(number, IntBytes(m.size1))]
    else []
  }

  /** The options printed for the numbers below `n`, in the order of their numbers. */
  function OptionsBelow(m: Message, beyond: Beyond, n: nat): seq<Opt> {
    if n == 0 then [] else OptionsBelow(m, beyond, n - 1) + OptionsFor(m, beyond, n - 1)
  }

  function FixedHeader(m: Message): (h: seq<byte>)
    requires m.kind < 4
    ensures |h| == COAP_HEADER_LEN
  {
    [0x40 + m.kind * 16 + |m.token| % 16, m.code, m.mid / 256, m.mid % 256]
  }

  function Head(m: Message, beyond: Beyond): seq<byte>
    requires m.kind < 4
  {
    FixedHeader(m) + m.token + EncodeOpts(0, OptionsBelow(m, beyond, END))
  }

  /** The datagram for a message; empty if its header is too long. */
  function Encode(m: Message, beyond: Beyond): seq<byte>
    requires m.kind < 4
  {
    if m.code == 0 then FixedHeader(m)
    else if |Head(m, beyond)| > COAP_MAX_HEADER_SIZE then []
    else Head(m, beyond) + EncodePayload(m.payload)
  }

  /** A message with code zero is four bytes long; another one is not printed at all if what
      precedes its payload needs more than 62 bytes. */
  lemma EncodedLength(m: Message, beyond: Beyond)
    requires m.kind < 4
    ensures m.code == 0 ==> |Encode(m, beyond)| == 4
    ensures m.code != 0 ==> (Encode(m, beyond) == [] <==> |Head(m, beyond)| > 62)
    ensures m.code != 0 && Encode(m, beyond) != [] ==>
      Encode(m, beyond) == Head(m, beyond) + if m.payload == [] then [] else [255] + m.payload
  {
    hide OptionsBelow, EncodeOpts;
  }

  // ----- Parsing -----

  datatype Status = NoError | BadRequest | BadOption | ProxyingNotSupported

  datatype Parsed = Parsed(status: Status, message: Message)

  function Front(s: seq<byte>, n: nat): seq<byte> {
    if |s| <= n then s else s[..n]
  }

  /** One round of the option loop. */
  function Take(m: Message, o: Opt): Parsed {
    var set' := m.(options := m.options + {o.number});
    if o.number == IF_MATCH then Parsed(NoError, set'.(ifMatch := Front(o.value, COAP_ETAG_LEN)))
    else if o.number == URI_HOST then Parsed(NoError, set'.(uriHost := o.value))
    else if o.number == ETAG then Parsed(NoError, set'.(etag := Front(o.value, COAP_ETAG_LEN)))
    else if o.number == IF_NONE_MATCH then Parsed(NoError, set'.(ifNoneMatch := true))
    else if o.number == OBSERVE then Parsed(NoError, set'.(observe := IntOf(o.value)))
    else if o.number == URI_PORT then Parsed(NoError, set'.(uriPort := IntOf(o.value) % 0x1_0000))
    else if o.number == LOCATION_PATH then Parsed(NoError, set'.(locationPath := Merge(m.locationPath, o.value, SLASH)))
    else if o.number == URI_PATH then Parsed(NoError, set'.(uriPath := Merge(m.uriPath, o.value, SLASH)))
    else if o.number == CONTENT_FORMAT then Parsed(NoError, set'.(contentFormat := IntOf(o.value)))
    else if o.number == MAX_AGE then Parsed(NoError, set'.(maxAge := IntOf(o.value)))
    else if o.number == URI_QUERY then Parsed(NoError, set'.(uriQuery := Merge(m.uriQuery, o.value, AMPERSAND)))
    else if o.number == ACCEPT then Parsed(NoError, set'.(accept := IntOf(o.value)))
    else if o.number == LOCATION_QUERY then Parsed(NoError, set'.(locationQuery := Merge(m.locationQuery, o.value, AMPERSAND)))
    else if o.number == BLOCK2 then Parsed(NoError, set'.(block2 := BlockOf(IntOf(o.value))))
    else if o.number == BLOCK1 then Parsed(NoError, set'.(block1 := BlockOf(IntOf(o.value))))
    else if o.number == SIZE2 then Parsed(NoError, set'.(size2 := IntOf(o.value)))
    else if o.number == PROXY_URI || o.number == PROXY_SCHEME then Parsed(ProxyingNotSupported, set')
    else if o.number == SIZE1 then Parsed(NoError, set'.(size1 := IntOf(o.value)))
    else Parsed(if o.number % 2 == 1 then BadOption else NoError, set')
  }

  function TakeAll(m: Message, opts: seq<Opt>): Parsed
    decreases |opts|
  {
    if opts == [] then Parsed(NoError, m)
    else
      var p := Take(m, opts[0]);
      if p.status != NoError then p else TakeAll(p.message, opts[1..])
  }

  function Blank(kind: nat, code: byte, mid: uint16, token: seq<byte>): Message {
    Message(kind, code, mid, token, {}, [], [], [], false, 0, 0, [], [], 0, 0, [], 0, [], NO_BLOCK, NO_BLOCK, 0, [], [], 0, [])
  }

  function VersionOf(first: byte): nat {
    first / 64
  }

  function KindOf(first: byte): nat {
    first / 16 % 4
  }

  function MidOf(high: byte, low: byte): uint16 {
    high as int * 256 + low
  }

  function TokenLength(first: byte): nat {
    if first % 16 < COAP_TOKEN_LEN then first % 16 else COAP_TOKEN_LEN
  }

  function Zeros(n: nat): seq<byte> {
    seq(n, _ => 0)
  }

  /** A datagram that does not end inside its token or an option. */
  predicate Complete(data: seq<byte>) {
    |data| >= COAP_HEADER_LEN && COAP_HEADER_LEN + TokenLength(data[0]) <= |data|
    && Scan(data[COAP_HEADER_LEN + TokenLength(data[0])..], 0).Wire?
  }

  /** The option loop, and the payload behind it. */
  function Finish(m: Message, wire: Wire): Parsed
    requires wire.Wire?
  {
    var p := TakeAll(m, wire.opts);
    if p.status != NoError then p
    else p.(message := p.message.(payload := Front(wire.payload, REST_MAX_CHUNK_SIZE)))
  }

  /** coap_parse_message */
  function Decode(data: seq<byte>): Parsed
    requires Complete(data)
  {
    var k := COAP_HEADER_LEN + TokenLength(data[0]);
    var blank := Blank(KindOf(data[0]), data[1], MidOf(data[2], data[3]), data[COAP_HEADER_LEN..k]);
    if VersionOf(data[0]) != 1 then Parsed(BadRequest, blank.(token := Zeros(TokenLength(data[0]))))
    else Finish(blank, Scan(data[k..], 0))
  }

  // ----- The bitmap of the options -----

  /** The bitmap has COAP_OPTION_SIZE1 / 8 + 1 bytes. */
  const OPTION_BITS: nat := 64

  /** How the parser goes on after an option. */
  function StatusOf(number: nat): Status {
    Take(Blank(0, 0, 0, []), Opt(number, [])).status
  }

  lemma TakeStatus(m: Message, o: Opt)
    ensures Take(m, o).status == StatusOf(o.number)
  {
    hide Merge, IntOf, BlockOf, Front;
  }

  /** Every option that the loop reaches has its bit in the bitmap. */
  predicate Mapped(opts: seq<Opt>)
    decreases |opts|
  {
    opts != [] ==> opts[0].number < OPTION_BITS && (StatusOf(opts[0].number) == NoError ==> Mapped(opts[1..]))
  }

  predicate InBitmap(data: seq<byte>)
    requires Complete(data)
  {
    VersionOf(data[0]) == 1 ==> Mapped(Scan(data[COAP_HEADER_LEN + TokenLength(data[0])..], 0).opts)
  }

  /** SET_OPTION does not look at the number: whatever the header of a message, one empty
      option of number 64 behind it is accepted, and sets a bit in the byte behind the bitmap. */
  lemma BehindTheBitmap(kind: nat, code: byte, mid: uint16, token: seq<byte>)
    requires kind < 4 && |token| <= COAP_TOKEN_LEN
    ensures var m := Blank(kind, code, mid, token);
      var data := FixedHeader(m) + m.token + [0xD0, 0x33];
      Complete(data) && !InBitmap(data) && Decode(data) == Parsed(NoError, m.(options := {64}))
  {
    hide *;
    var m := Blank(kind, code, mid, token);
    BlankParts(kind, code, mid, token);
    var data := FixedHeader(m) + m.token + [0xD0, 0x33];
    HeaderRead(m, [0xD0, 0x33]);
    ScanSixtyFour();
    TakeSixtyFour(m);
    DecodeIs(data, m, [Opt(64, [])], [], m.(options := {64}));
    EmptyPayload(m.(options := {64}));
    OutsideTheBitmap(data, [Opt(64, [])], []);
  }

  lemma BlankParts(kind: nat, code: byte, mid: uint16, token: seq<byte>)
    ensures var m := Blank(kind, code, mid, token);
      m.kind == kind && m.code == code && m.mid == mid && m.token == token && m.options == {} && m.payload == []
  {
  }

  lemma EmptyPayload(m: Message)
    requires m.payload == []
    ensures m.(payload := Front([], REST_MAX_CHUNK_SIZE)) == m
  {
  }

  lemma OutsideTheBitmap(data: seq<byte>, opts: seq<Opt>, payload: seq<byte>)
    requires Complete(data) && VersionOf(data[0]) == 1 && Scan(data[COAP_HEADER_LEN + TokenLength(data[0])..], 0) == Wire(opts, payload)
    requires opts != [] && opts[0].number == 64
    ensures !InBitmap(data)
  {
    hide Scan, TokenLength;
  }

  lemma ScanSixtyFour()
    ensures Scan([0xD0, 0x33], 0) == Wire([Opt(64, [])], [])
  {
    var s: seq<byte> := [0xD0, 0x33];
    assert s[1..] == [0x33] && s[2..] == [];
    assert ReadHeader(s) == Header(64, 0, 2) by {
      assert Extend(13, [0x33]) == Extended(64, 1);
    }
    ScanStep(s, 0, 64, 2, [], []);
    assert [Opt(64, [])] + [] == [Opt(64, [])];
  }

  lemma TakeSixtyFour(m: Message)
    requires m.options == {}
    ensures StatusOf(64) == NoError && TakeAll(m, [Opt(64, [])]) == Parsed(NoError, m.(options := {64}))
  {
    assert [Opt(64, [])][1..] == [];
    assert TakeAll(m.(options := {64}), []) == Parsed(NoError, m.(options := {64}));
  }

  // ----- What the parser refuses -----

  predicate IsProxy(number: nat) {
    number == 35 || number == 39
  }

  /** Odd numbers other than If-Match, Uri-Host, If-None-Match, Uri-Port, Uri-Path, Uri-Query,
      Accept, Block2 and Block1 (section 5.10 of RFC 7252, section 2.1 of RFC 7959). */
  predicate IsUnknownCritical(number: nat) {
    number % 2 == 1 && !IsProxy(number) && number !in {1, 3, 5, 7, 11, 15, 17, 23, 27}
  }

  predicate Refusable(number: nat) {
    IsProxy(number) || IsUnknownCritical(number)
  }

  /** Option `i` is the first one that the parser has to refuse. */
  predicate FirstRefused(opts: seq<Opt>, i: nat) {
    i < |opts| && Refusable(opts[i].number) && forall j :: 0 <= j < i ==> !Refusable(opts[j].number)
  }

  lemma StatusIs(m: Message, o: Opt)
    ensures Take(m, o).status == NoError <==> !Refusable(o.number)
    ensures Take(m, o).status == ProxyingNotSupported <==> IsProxy(o.number)
    ensures Take(m, o).status == BadOption <==> IsUnknownCritical(o.number)
  {
    hide Merge, IntOf, BlockOf, Front;
  }

  lemma FirstLater(opts: seq<Opt>, i: nat)
    requires opts != [] && !Refusable(opts[0].number)
    ensures FirstRefused(opts, i) <==> i > 0 && FirstRefused(opts[1..], i - 1)
  {
    hide Refusable;
    if i > 0 && FirstRefused(opts[1..], i - 1) {
      forall j | 0 <= j < i
        ensures !Refusable(opts[j].number)
      {
        assert j > 0 ==> opts[j] == opts[1..][j - 1];
      }
    }
    if FirstRefused(opts, i) {
      forall j | 0 <= j < i - 1
        ensures !Refusable(opts[1..][j].number)
      {
        assert opts[j + 1] == opts[1..][j];
      }
    }
  }

  /** The status of the option loop, told from the numbers of the options. */
  ghost predicate StatusFor(status: Status, opts: seq<Opt>) {
    && (status == NoError <==> forall i :: 0 <= i < |opts| ==> !Refusable(opts[i].number))
    && (status == ProxyingNotSupported <==> exists i: nat :: FirstRefused(opts, i) && IsProxy(opts[i].number))
    && (status == BadOption <==> exists i: nat :: FirstRefused(opts, i) && IsUnknownCritical(opts[i].number))
    && status != BadRequest
  }

  lemma StatusLater(status: Status, opts: seq<Opt>)
    requires opts != [] && !Refusable(opts[0].number) && StatusFor(status, opts[1..])
    ensures StatusFor(status, opts)
  {
    hide FirstRefused, Refusable;
    forall i: nat | 0 < i < |opts|
      ensures opts[i] == opts[1..][i - 1]
      ensures FirstRefused(opts, i) <==> FirstRefused(opts[1..], i - 1)
    {
      FirstLater(opts, i);
    }
    FirstLater(opts, 0);
    forall i: nat | FirstRefused(opts[1..], i)
      ensures FirstRefused(opts, i + 1) && i + 1 < |opts| && opts[i + 1] == opts[1..][i]
    {
      FirstLater(opts, i + 1);
      InOptions(opts[1..], i);
    }
    forall i: nat | FirstRefused(opts, i)
      ensures i > 0 && FirstRefused(opts[1..], i - 1) && i < |opts|
    {
      FirstLater(opts, i);
      InOptions(opts, i);
    }
  }

  lemma InOptions(opts: seq<Opt>, i: nat)
    requires FirstRefused(opts, i)
    ensures i < |opts|
  {
  }

  lemma StatusNow(m: Message, opts: seq<Opt>)
    requires opts != [] && Refusable(opts[0].number)
    ensures StatusFor(Take(m, opts[0]).status, opts)
  {
    StatusIs(m, opts[0]);
    assert FirstRefused(opts, 0);
    assert forall i: nat :: FirstRefused(opts, i) ==> i == 0;
    hide Take, IsProxy, IsUnknownCritical;
  }

  lemma {:induction false} FirstDecides(m: Message, opts: seq<Opt>)
    ensures StatusFor(TakeAll(m, opts).status, opts)
    decreases |opts|
  {
    if opts != [] {
      StatusIs(m, opts[0]);
      hide Take, Refusable, StatusFor;
      if Refusable(opts[0].number) {
        StatusNow(m, opts);
      } else {
        FirstDecides(Take(m, opts[0]).message, opts[1..]);
        StatusLater(TakeAll(m, opts).status, opts);
      }
    }
  }

  /** The status of any complete datagram: BadRequest for another version than 1; otherwise the
      first option decides that is a proxy option, or critical and unknown. */
  ghost predicate StatusFits(status: Status, data: seq<byte>)
    requires Complete(data)
  {
    && (status == BadRequest <==> data[0] / 64 != 1)
    && (data[0] / 64 == 1 ==> StatusFor(status, Scan(data[4 + TokenLength(data[0])..], 0).opts))
  }

  lemma DecodedStatus(data: seq<byte>)
    requires Complete(data)
    ensures StatusFits(Decode(data).status, data)
  {
    hide Scan, TokenLength, TakeAll, StatusFor;
    var k := COAP_HEADER_LEN + TokenLength(data[0]);
    var blank := Blank(KindOf(data[0]), data[1], MidOf(data[2], data[3]), data[COAP_HEADER_LEN..k]);
    FirstDecides(blank, Scan(data[k..], 0).opts);
    NotBadRequest(TakeAll(blank, Scan(data[k..], 0).opts).status, Scan(data[k..], 0).opts);
  }

  /** Of a datagram of another version only the header is taken, and a token of zeros. */
  lemma OtherVersion(data: seq<byte>)
    requires Complete(data) && data[0] / 64 != 1
    ensures var r := Decode(data).message;
      && r == Blank(data[0] / 16 % 4, data[1], data[2] as int * 256 + data[3], r.token)
      && |r.token| == (if data[0] % 16 < 8 then data[0] % 16 else 8) && forall i :: 0 <= i < |r.token| ==> r.token[i] == 0
  {
    hide Scan;
  }

  lemma NotBadRequest(status: Status, opts: seq<Opt>)
    requires StatusFor(status, opts)
    ensures status != BadRequest
  {
  }

  // ----- What a text field gets from any datagram -----

  function ValuesOf(opts: seq<Opt>, number: nat): seq<seq<byte>>
    decreases |opts|
  {
    if opts == [] then []
    else (if opts[0].number == number then [opts[0].value] else []) + ValuesOf(opts[1..], number)
  }

  /** The values of the options with a number in a datagram. */
  function TextValues(data: seq<byte>, number: nat): seq<seq<byte>>
    requires Complete(data)
  {
    ValuesOf(Scan(data[COAP_HEADER_LEN + TokenLength(data[0])..], 0).opts, number)
  }

  lemma {:induction false} TextTaken(m: Message, opts: seq<Opt>, number: nat)
    requires IsText(number) && TakeAll(m, opts).status == NoError
    ensures TextOf(TakeAll(m, opts).message, number) == MergeAll(TextOf(m, number), ValuesOf(opts, number), Separator(number))
    decreases |opts|
  {
    if opts != [] {
      TextAfter(m, opts[0], number);
      hide Take, TextOf, Merge, IsText, Separator;
      var values := ValuesOf(opts[1..], number);
      assert ([opts[0].value] + values)[1..] == values && [] + values == values;
      TextTaken(Take(m, opts[0]).message, opts[1..], number);
    }
  }

  lemma TextAfter(m: Message, o: Opt, number: nat)
    requires IsText(number)
    ensures TextOf(Take(m, o).message, number)
         == if o.number == number then Merge(TextOf(m, number), o.value, Separator(number)) else TextOf(m, number)
  {
    hide Merge, IntOf, BlockOf, Front;
  }

  /** A text field of an accepted datagram is the values of its options, joined by the
      separator, apart from empty ones at the start. */
  lemma DecodedText(data: seq<byte>, number: nat)
    requires IsText(number) && Complete(data) && Decode(data).status == NoError
    ensures var values := TextValues(data, number);
      && TextOf(Decode(data).message, number) == Join(Trimmed(values), Separator(number))
      && (values != [] && values[0] != [] ==> TextOf(Decode(data).message, number) == Join(values, Separator(number)))
  {
    var k := COAP_HEADER_LEN + TokenLength(data[0]);
    var blank := Blank(KindOf(data[0]), data[1], MidOf(data[2], data[3]), data[COAP_HEADER_LEN..k]);
    var opts := Scan(data[k..], 0).opts;
    TextTaken(blank, opts, number);
    MergedIsJoined(ValuesOf(opts, number), Separator(number));
    hide Scan, TakeAll, ValuesOf, Join, Trimmed, MergeAll, TokenLength;
  }

  // ----- What the other fields get from any datagram -----

  /** The value of the last option of a number. */
  function Last(opts: seq<Opt>, number: nat): Option<seq<byte>>
    decreases |opts|
  {
    if opts == [] then None
    else
      var later := Last(opts[1..], number);
      if later.None? && opts[0].number == number then Some(opts[0].value) else later
  }

  /** The integer in the last option of a number, if there is one. */
  function LastInt(opts: seq<Opt>, number: nat, otherwise: uint32): uint32 {
    var o := Last(opts, number);
    if o.Some? then IntOf(o.value) else otherwise
  }

  function LastBytes(opts: seq<Opt>, number: nat, otherwise: seq<byte>): seq<byte> {
    var o := Last(opts, number);
    if o.Some? then o.value else otherwise
  }

  function LastTag(opts: seq<Opt>, number: nat, otherwise: seq<byte>): seq<byte> {
    var o := Last(opts, number);
    if o.None? then otherwise else if |o.value| <= 8 then o.value else o.value[..8]
  }

  function LastBlock(opts: seq<Opt>, number: nat, otherwise: Block): Block {
    var o := Last(opts, number);
    if o.Some? then BlockOf(IntOf(o.value)) else otherwise
  }

  predicate BytesFrom(m: Message, opts: seq<Opt>, r: Message) {
    && r.ifMatch == LastTag(opts, 1, m.ifMatch)
    && r.uriHost == LastBytes(opts, 3, m.uriHost)
    && r.etag == LastTag(opts, 4, m.etag)
    && r.ifNoneMatch == (m.ifNoneMatch || Last(opts, 5).Some?)
  }

  predicate IntsFrom(m: Message, opts: seq<Opt>, r: Message) {
    && r.observe == LastInt(opts, 6, m.observe)
    && r.uriPort == LastInt(opts, 7, m.uriPort) % 0x1_0000
    && r.contentFormat == LastInt(opts, 12, m.contentFormat)
    && r.maxAge == LastInt(opts, 14, m.maxAge)
    && r.accept == LastInt(opts, 17, m.accept)
    && r.block2 == LastBlock(opts, 23, m.block2)
    && r.block1 == LastBlock(opts, 27, m.block1)
    && r.size2 == LastInt(opts, 28, m.size2)
    && r.size1 == LastInt(opts, 60, m.size1)
  }

  predicate TextsFrom(m: Message, opts: seq<Opt>, r: Message) {
    && r.locationPath == MergeAll(m.locationPath, ValuesOf(opts, 8), 0x2F)
    && r.uriPath == MergeAll(m.uriPath, ValuesOf(opts, 11), 0x2F)
    && r.uriQuery == MergeAll(m.uriQuery, ValuesOf(opts, 15), 0x26)
    && r.locationQuery == MergeAll(m.locationQuery, ValuesOf(opts, 20), 0x26)
  }

  ghost predicate BitsFrom(m: Message, opts: seq<Opt>, r: Message) {
    && (forall n :: n in r.options <==> n in m.options || Last(opts, n).Some?)
    && r.kind == m.kind && r.code == m.code && r.mid == m.mid && r.token == m.token
    && r.proxyUri == m.proxyUri && r.proxyScheme == m.proxyScheme && r.payload == m.payload
  }

  /** The fields of a message after some options, one by one, with the option numbers of
      section 5.10 of RFC 7252, of RFC 7641 and of RFC 7959; the separators are / and &. */
  ghost predicate FieldsFrom(m: Message, opts: seq<Opt>, r: Message) {
    BytesFrom(m, opts, r) && IntsFrom(m, opts, r) && TextsFrom(m, opts, r) && BitsFrom(m, opts, r)
  }

  lemma BytesNow(m: Message, o: Opt)
    requires Take(m, o).status == NoError
    ensures BytesFrom(m, [o], Take(m, o).message)
  {
    hide Merge, IntOf, BlockOf, Last, Front;
    OneValue(o, 1);
    OneValue(o, 3);
    OneValue(o, 4);
    OneValue(o, 5);
    TagIs(o.value);
  }

  lemma IntsNow(m: Message, o: Opt)
    requires Take(m, o).status == NoError
    ensures IntsFrom(m, [o], Take(m, o).message)
  {
    hide Merge, IntOf, BlockOf, Last, Front;
    OneValue(o, 6);
    OneValue(o, 7);
    OneValue(o, 12);
    OneValue(o, 14);
    OneValue(o, 17);
    OneValue(o, 23);
    OneValue(o, 27);
    OneValue(o, 28);
    OneValue(o, 60);
  }

  lemma TextsNow(m: Message, o: Opt)
    requires Take(m, o).status == NoError
    ensures TextsFrom(m, [o], Take(m, o).message)
  {
    hide Merge, IntOf, BlockOf, ValuesOf, MergeAll, Front;
    OneText(m.locationPath, o, 8, 0x2F);
    OneText(m.uriPath, o, 11, 0x2F);
    OneText(m.uriQuery, o, 15, 0x26);
    OneText(m.locationQuery, o, 20, 0x26);
  }

  lemma BitsNow(m: Message, o: Opt)
    ensures BitsFrom(m, [o], Take(m, o).message)
  {
    hide Merge, IntOf, BlockOf, Last, Front;
    forall n: nat
      ensures Last([o], n).Some? <==> n == o.number
    {
      OneValue(o, n);
    }
  }

  lemma FieldsNow(m: Message, o: Opt)
    requires Take(m, o).status == NoError
    ensures FieldsFrom(m, [o], Take(m, o).message)
  {
    hide Take, BytesFrom, IntsFrom, TextsFrom, BitsFrom;
    BytesNow(m, o);
    IntsNow(m, o);
    TextsNow(m, o);
    BitsNow(m, o);
  }

  lemma TagIs(value: seq<byte>)
    ensures Front(value, COAP_ETAG_LEN) == if |value| <= 8 then value else value[..8]
  {
  }

  lemma OneValue(o: Opt, n: nat)
    ensures Last([o], n) == if o.number == n then Some(o.value) else None
    ensures ValuesOf([o], n) == if o.number == n then [o.value] else []
  {
    assert [o][1..] == [];
    assert Last([], n).None?;
    assert ValuesOf([], n) == [];
  }

  lemma OneText(dst: seq<byte>, o: Opt, n: nat, sep: byte)
    ensures MergeAll(dst, ValuesOf([o], n), sep) == if o.number == n then Merge(dst, o.value, sep) else dst
  {
    OneValue(o, n);
    assert [o.value][1..] == [];
    assert MergeAll(Merge(dst, o.value, sep), [], sep) == Merge(dst, o.value, sep);
  }

  lemma SplitValues(o: Opt, rest: seq<Opt>)
    ensures forall n: nat :: Last([o] + rest, n) == if Last(rest, n).Some? then Last(rest, n) else Last([o], n)
    ensures forall n: nat :: ValuesOf([o] + rest, n) == ValuesOf([o], n) + ValuesOf(rest, n)
  {
    assert ([o] + rest)[1..] == rest;
    forall n: nat
      ensures Last([o] + rest, n) == if Last(rest, n).Some? then Last(rest, n) else Last([o], n)
      ensures ValuesOf([o] + rest, n) == ValuesOf([o], n) + ValuesOf(rest, n)
    {
      OneValue(o, n);
    }
  }

  lemma {:induction false} MergeSplit(dst: seq<byte>, a: seq<seq<byte>>, b: seq<seq<byte>>, sep: byte)
    ensures MergeAll(dst, a + b, sep) == MergeAll(MergeAll(dst, a, sep), b, sep)
    decreases |a|
  {
    hide Merge;
    if a == [] {
      assert a + b == b;
    } else {
      assert (a + b)[1..] == a[1..] + b;
      MergeSplit(Merge(dst, a[0], sep), a[1..], b, sep);
    }
  }

  lemma FieldsCompose(m: Message, o: Opt, x: Message, rest: seq<Opt>, r: Message)
    requires FieldsFrom(m, [o], x) && FieldsFrom(x, rest, r)
    ensures FieldsFrom(m, [o] + rest, r)
  {
    hide Merge, IntOf, BlockOf, MergeAll, ValuesOf, Last;
    SplitValues(o, rest);
    MergeSplit(m.locationPath, ValuesOf([o], 8), ValuesOf(rest, 8), 0x2F);
    MergeSplit(m.uriPath, ValuesOf([o], 11), ValuesOf(rest, 11), 0x2F);
    MergeSplit(m.uriQuery, ValuesOf([o], 15), ValuesOf(rest, 15), 0x26);
    MergeSplit(m.locationQuery, ValuesOf([o], 20), ValuesOf(rest, 20), 0x26);
  }

  lemma FieldsOfNone(m: Message)
    ensures FieldsFrom(m, [], m)
  {
  }

  lemma {:induction false} FieldsTaken(m: Message, opts: seq<Opt>)
    requires TakeAll(m, opts).status == NoError
    ensures FieldsFrom(m, opts, TakeAll(m, opts).message)
    decreases |opts|
  {
    hide Take, FieldsFrom;
    if opts == [] {
      FieldsOfNone(m);
    } else {
      FieldsNow(m, opts[0]);
      FieldsTaken(Take(m, opts[0]).message, opts[1..]);
      FieldsCompose(m, opts[0], Take(m, opts[0]).message, opts[1..], TakeAll(m, opts).message);
      assert [opts[0]] + opts[1..] == opts;
    }
  }

  lemma PayloadKept(m: Message, opts: seq<Opt>, r: Message)
    requires FieldsFrom(m, opts, r)
    ensures r.payload == m.payload && r.kind == m.kind && r.code == m.code && r.mid == m.mid && r.token == m.token
  {
  }

  /** What every field of an accepted datagram is, told from its bytes and its options: the
      header of section 3 of RFC 7252, and for each option the number that the RFC gives it. */
  lemma DecodedFields(data: seq<byte>)
    requires Complete(data) && Decode(data).status == NoError
    ensures var k := 4 + if data[0] % 16 < 8 then data[0] % 16 else 8;
      var wire, r := Scan(data[k..], 0), Decode(data).message;
      && k <= |data| && wire.Wire?
      && r.kind == data[0] / 16 % 4 && r.code == data[1] && r.mid == data[2] as int * 256 + data[3] && r.token == data[4..k]
      && r.payload == (if |wire.payload| <= 64 then wire.payload else wire.payload[..64])
      && FieldsFrom(Blank(r.kind, r.code, r.mid, r.token), wire.opts, r.(payload := []))
  {
    hide Scan, TakeAll, FieldsFrom;
    var k := COAP_HEADER_LEN + TokenLength(data[0]);
    var blank := Blank(KindOf(data[0]), data[1], MidOf(data[2], data[3]), data[COAP_HEADER_LEN..k]);
    FieldsTaken(blank, Scan(data[k..], 0).opts);
    PayloadKept(blank, Scan(data[k..], 0).opts, TakeAll(blank, Scan(data[k..], 0).opts).message);
  }

  // ----- Parsing undoes printing -----

  predicate IsText(number: nat) {
    number == LOCATION_PATH || number == URI_PATH || number == URI_QUERY || number == LOCATION_QUERY
  }

  predicate IsBytes(number: nat) {
    number == IF_MATCH || number == URI_HOST || number == ETAG || number == IF_NONE_MATCH
  }

  predicate IsInt(number: nat) {
    || number == OBSERVE || number == URI_PORT || number == CONTENT_FORMAT || number == MAX_AGE
    || number == ACCEPT || number == SIZE2 || number == SIZE1
  }

  predicate IsBlock(number: nat) {
    number == BLOCK2 || number == BLOCK1
  }

  /** The field of an option has the value that coap_init_message gives it. */
  predicate Default(m: Message, number: nat) {
    if number == IF_MATCH then m.ifMatch == []
    else if number == URI_HOST then m.uriHost == []
    else if number == ETAG then m.etag == []
    else if number == IF_NONE_MATCH then !m.ifNoneMatch
    else if number == OBSERVE then m.observe == 0
    else if number == URI_PORT then m.uriPort == 0
    else if number == LOCATION_PATH then m.locationPath == []
    else if number == URI_PATH then m.uriPath == []
    else if number == CONTENT_FORMAT then m.contentFormat == 0
    else if number == MAX_AGE then m.maxAge == 0
    else if number == URI_QUERY then m.uriQuery == []
    else if number == ACCEPT then m.accept == 0
    else if number == LOCATION_QUERY then m.locationQuery == []
    else if number == BLOCK2 then m.block2 == NO_BLOCK
    else if number == BLOCK1 then m.block1 == NO_BLOCK
    else if number == SIZE2 then m.size2 == 0
    else if number == SIZE1 then m.size1 == 0
    else true
  }

  /** Only options other than the proxy options are set, and the others have no value. */
  ghost predicate Clean(m: Message) {
    && (forall n :: n in m.options ==> IsText(n) || IsBytes(n) || IsInt(n) || IsBlock(n))
    && (forall n :: n !in m.options ==> Default(m, n))
    && (IF_NONE_MATCH in m.options ==> m.ifNoneMatch)
    && m.proxyUri == [] && m.proxyScheme == []
  }

  /** Values that come back as they were sent. */
  predicate Carried(m: Message) {
    && |m.ifMatch| <= COAP_ETAG_LEN && |m.etag| <= COAP_ETAG_LEN
    && Splittable(m.locationPath, SLASH) && Splittable(m.uriPath, SLASH)
    && Splittable(m.uriQuery, AMPERSAND) && Splittable(m.locationQuery, AMPERSAND)
    && (BLOCK2 in m.options ==> Sendable(m.block2)) && (BLOCK1 in m.options ==> Sendable(m.block1))
    && |m.payload| <= REST_MAX_CHUNK_SIZE
  }

  function Resplit(number: nat, text: seq<byte>, beyond: Beyond, sep: byte): seq<byte> {
    MergeAll([], Parts(text, beyond(number), sep), sep)
  }

  /** What the receiver gets of a message: tags cut to their length, texts split and merged
      again, block sizes rounded, and no more than one chunk of payload. */
  function Received(m: Message, beyond: Beyond): Message {
    m.(ifMatch := Front(m.ifMatch, COAP_ETAG_LEN), etag := Front(m.etag, COAP_ETAG_LEN),
       locationPath := if LOCATION_PATH in m.options then Resplit(LOCATION_PATH, m.locationPath, beyond, SLASH) else [],
       uriPath := if URI_PATH in m.options then Resplit(URI_PATH, m.uriPath, beyond, SLASH) else [],
       uriQuery := if URI_QUERY in m.options then Resplit(URI_QUERY, m.uriQuery, beyond, AMPERSAND) else [],
       locationQuery := if LOCATION_QUERY in m.options then Resplit(LOCATION_QUERY, m.locationQuery, beyond, AMPERSAND) else [],
       block2 := if BLOCK2 in m.options then BlockOf(BlockValue(m.block2)) else NO_BLOCK,
       block1 := if BLOCK1 in m.options then BlockOf(BlockValue(m.block1)) else NO_BLOCK,
       payload := Front(m.payload, REST_MAX_CHUNK_SIZE))
  }

  /** The message with only the options numbered below `n`. */
  function Below(m: Message, n: nat): Message {
    Message(m.kind, m.code, m.mid, m.token, set x | x in m.options && x < n,
      if IF_MATCH < n then m.ifMatch else [],
      if URI_HOST < n then m.uriHost else [],
      if ETAG < n then m.etag else [],
      IF_NONE_MATCH < n && m.ifNoneMatch,
      if OBSERVE < n then m.observe else 0,
      if URI_PORT < n then m.uriPort else 0,
      if LOCATION_PATH < n then m.locationPath else [],
      if URI_PATH < n then m.uriPath else [],
      if CONTENT_FORMAT < n then m.contentFormat else 0,
      if MAX_AGE < n then m.maxAge else 0,
      if URI_QUERY < n then m.uriQuery else [],
      if ACCEPT < n then m.accept else 0,
      if LOCATION_QUERY < n then m.locationQuery else [],
      if BLOCK2 < n then m.block2 else NO_BLOCK,
      if BLOCK1 < n then m.block1 else NO_BLOCK,
      if SIZE2 < n then m.size2 else 0,
      [], [],
      if SIZE1 < n then m.size1 else 0,
      [])
  }

  lemma {:induction false} TakeAppend(m: Message, a: seq<Opt>, b: seq<Opt>)
    ensures TakeAll(m, a + b) ==
      var p := TakeAll(m, a); if p.status != NoError then p else TakeAll(p.message, b)
    decreases |a|
  {
    hide Take;
    if a == [] {
      assert a + b == b;
    } else {
      assert (a + b)[1..] == a[1..] + b;
      var p := Take(m, a[0]);
      if p.status == NoError {
        TakeAppend(p.message, a[1..], b);
      }
    }
  }

  lemma TakeOne(m: Message, o: Opt)
    ensures TakeAll(m, [o]) == Take(m, o)
  {
    hide Take;
    var p := Take(m, o);
    if p.status == NoError {
      assert TakeAll(p.message, [o][1..]) == Parsed(NoError, p.message);
    }
  }

  function Separator(number: nat): byte {
    if number == LOCATION_PATH || number == URI_PATH then SLASH else AMPERSAND
  }

  function TextOf(m: Message, number: nat): seq<byte>
    requires IsText(number)
  {
    if number == LOCATION_PATH then m.locationPath
    else if number == URI_PATH then m.uriPath
    else if number == URI_QUERY then m.uriQuery
    else m.locationQuery
  }

  function WithText(m: Message, number: nat, text: seq<byte>): Message
    requires IsText(number)
  {
    var m' := m.(options := m.options + {number});
    if number == LOCATION_PATH then m'.(locationPath := text)
    else if number == URI_PATH then m'.(uriPath := text)
    else if number == URI_QUERY then m'.(uriQuery := text)
    else m'.(locationQuery := text)
  }

  lemma TakeText(m: Message, number: nat, value: seq<byte>)
    requires IsText(number)
    ensures Take(m, Opt(number, value)) == Parsed(NoError, WithText(m, number, Merge(TextOf(m, number), value, Separator(number))))
  {
  }

  lemma WithTextTwice(m: Message, number: nat, a: seq<byte>, b: seq<byte>)
    requires IsText(number)
    ensures WithText(WithText(m, number, a), number, b) == WithText(m, number, b)
    ensures TextOf(WithText(m, number, a), number) == a
  {
    assert m.options + {number} + {number} == m.options + {number};
  }

  /** The segments of a text are merged into its field. */
  lemma {:induction false} TakeParts(m: Message, number: nat, parts: seq<seq<byte>>)
    requires IsText(number) && parts != []
    ensures TakeAll(m, PartOpts(number, parts)) == Parsed(NoError, WithText(m, number, MergeAll(TextOf(m, number), parts, Separator(number))))
    decreases |parts|
  {
    var first := Merge(TextOf(m, number), parts[0], Separator(number));
    var m' := WithText(m, number, first);
    TakeText(m, number, parts[0]);
    assert PartOpts(number, parts)[1..] == PartOpts(number, parts[1..]);
    hide Take, WithText, TextOf, Merge, IsText, Separator;
    WithTextTwice(m, number, first, MergeAll(first, parts[1..], Separator(number)));
    if |parts| > 1 {
      TakeParts(m', number, parts[1..]);
    }
  }

  lemma BelowOptions(m: Message, number: nat)
    ensures number in m.options ==> Below(m, number).options + {number} == Below(m, number + 1).options
    ensures number !in m.options ==> Below(m, number).options == Below(m, number + 1).options
  {
  }

  lemma StepUnset(m: Message, beyond: Beyond, number: nat)
    requires Clean(m) && number !in m.options
    ensures var r := Received(m, beyond); Below(r, number) == Below(r, number + 1)
  {
    BelowOptions(Received(m, beyond), number);
    assert Default(m, number);
    hide Resplit, BlockOf, BlockValue;
  }

  lemma StepText(m: Message, beyond: Beyond, number: nat)
    requires IsText(number) && number in m.options
    ensures var r := Received(m, beyond);
            TakeAll(Below(r, number), OptionsFor(m, beyond, number)) == Parsed(NoError, Below(r, number + 1))
  {
    var r, text := Received(m, beyond), TextOf(m, number);
    var parts := Cut(text + [beyond(number).0, beyond(number).1], |text|, Separator(number), 0, 0);
    BelowOptions(r, number);
    CutNonempty(text + [beyond(number).0, beyond(number).1], |text|, Separator(number), 0, 0);
    TakeParts(Below(r, number), number, parts);
    assert parts == Parts(text, beyond(number), Separator(number));
    hide Cut, TakeAll, MergeAll, PartOpts, BlockOf, BlockValue, Front;
    assert OptionsFor(m, beyond, number) == PartOpts(number, parts);
  }

  lemma StepBytes(m: Message, beyond: Beyond, number: nat)
    requires Clean(m) && IsBytes(number) && number in m.options
    ensures var r := Received(m, beyond);
            TakeAll(Below(r, number), OptionsFor(m, beyond, number)) == Parsed(NoError, Below(r, number + 1))
  {
    var r := Received(m, beyond);
    BelowOptions(r, number);
    TakeOne(Below(r, number), OptionsFor(m, beyond, number)[0]);
    hide TakeAll, BlockOf, BlockValue, Segments, Merge, Resplit;
  }

  lemma StepInt(m: Message, beyond: Beyond, number: nat)
    requires IsInt(number) && number in m.options
    ensures var r := Received(m, beyond);
            TakeAll(Below(r, number), OptionsFor(m, beyond, number)) == Parsed(NoError, Below(r, number + 1))
  {
    hide TakeAll, IntOf, IntBytes, BlockOf, BlockValue, Segments, Merge, Front, Resplit;
    var r := Received(m, beyond);
    BelowOptions(r, number);
    TakeOne(Below(r, number), OptionsFor(m, beyond, number)[0]);
    IntRead(IntField(m, number));
  }

  function IntField(m: Message, number: nat): uint32 {
    if number == OBSERVE then m.observe
    else if number == URI_PORT then m.uriPort
    else if number == CONTENT_FORMAT then m.contentFormat
    else if number == MAX_AGE then m.maxAge
    else if number == ACCEPT then m.accept
    else if number == SIZE2 then m.size2
    else m.size1
  }

  lemma StepBlock(m: Message, beyond: Beyond, number: nat)
    requires IsBlock(number) && number in m.options
    ensures var r := Received(m, beyond);
            TakeAll(Below(r, number), OptionsFor(m, beyond, number)) == Parsed(NoError, Below(r, number + 1))
  {
    var r := Received(m, beyond);
    BelowOptions(r, number);
    TakeOne(Below(r, number), OptionsFor(m, beyond, number)[0]);
    IntRead(BlockValue(if number == BLOCK2 then m.block2 else m.block1));
    hide TakeAll, IntOf, IntBytes, BlockOf, BlockValue, Segments, Merge, Front, Resplit;
  }

  /** Taking the options printed for one number adds its field. */
  lemma Step(m: Message, beyond: Beyond, number: nat)
    requires Clean(m)
    ensures var r := Received(m, beyond);
            TakeAll(Below(r, number), OptionsFor(m, beyond, number)) == Parsed(NoError, Below(r, number + 1))
  {
    assert number in m.options ==> IsText(number) || IsBytes(number) || IsInt(number) || IsBlock(number);
    hide *;
    if number !in m.options {
      StepUnset(m, beyond, number);
      NothingPrinted(m, beyond, number);
      TakeNone(Below(Received(m, beyond), number));
    } else if IsText(number) {
      StepText(m, beyond, number);
    } else if IsBytes(number) {
      StepBytes(m, beyond, number);
    } else if IsBlock(number) {
      StepBlock(m, beyond, number);
    } else {
      StepInt(m, beyond, number);
    }
  }

  lemma NothingPrinted(m: Message, beyond: Beyond, number: nat)
    requires number !in m.options
    ensures OptionsFor(m, beyond, number) == []
  {
  }

  lemma TakeNone(m: Message)
    ensures TakeAll(m, []) == Parsed(NoError, m)
  {
  }

  lemma {:induction false} StepsBelow(m: Message, beyond: Beyond, n: nat)
    requires Clean(m)
    ensures var r := Received(m, beyond); TakeAll(Below(r, 0), OptionsBelow(m, beyond, n)) == Parsed(NoError, Below(r, n))
  {
    hide TakeAll, Below, Clean, OptionsFor, Received;
    var r := Received(m, beyond);
    if n > 0 {
      StepsBelow(m, beyond, n - 1);
      Step(m, beyond, n - 1);
      TakeAppend(Below(r, 0), OptionsBelow(m, beyond, n - 1), OptionsFor(m, beyond, n - 1));
    } else {
      TakeNone(Below(r, 0));
    }
  }

  /** Option numbers do not go down, and are all known ones. */
  predicate Ordered(current: nat, opts: seq<Opt>)
    decreases |opts|
  {
    opts != [] ==> current <= opts[0].number < END && Ordered(opts[0].number, opts[1..])
  }

  lemma {:induction false} OrderedAppend(current: nat, a: seq<Opt>, b: seq<Opt>)
    requires Ordered(current, a) && Ordered(LastNumber(current, a), b)
    ensures Ordered(current, a + b)
    decreases |a|
  {
    if a == [] {
      assert a + b == b;
    } else {
      assert (a + b)[1..] == a[1..] + b;
      OrderedAppend(a[0].number, a[1..], b);
    }
  }

  lemma {:induction false} PartsOrdered(current: nat, number: nat, parts: seq<seq<byte>>)
    requires current <= number < END
    ensures Ordered(current, PartOpts(number, parts))
    ensures parts != [] ==> LastNumber(current, PartOpts(number, parts)) == number
    decreases |parts|
  {
    if parts != [] {
      PartsOrdered(number, number, parts[1..]);
    }
  }

  lemma ForOrdered(m: Message, beyond: Beyond, current: nat, number: nat)
    requires current <= number < END
    ensures Ordered(current, OptionsFor(m, beyond, number))
    ensures LastNumber(current, OptionsFor(m, beyond, number)) <= number
  {
    hide IntBytes, BlockValue, Cut;
    var opts := OptionsFor(m, beyond, number);
    if |opts| == 1 && opts[0].number == number {
      assert Ordered(number, opts[1..]);
    }
    if number in m.options && IsText(number) {
      var text := TextOf(m, number);
      PartsOrdered(current, number, Cut(text + [beyond(number).0, beyond(number).1], |text|, Separator(number), 0, 0));
    }
  }

  lemma {:induction false} BelowOrdered(m: Message, beyond: Beyond, n: nat)
    requires n <= END
    ensures Ordered(0, OptionsBelow(m, beyond, n))
    ensures LastNumber(0, OptionsBelow(m, beyond, n)) <= n
  {
    hide OptionsFor;
    if n > 0 {
      BelowOrdered(m, beyond, n - 1);
      var done, more := OptionsBelow(m, beyond, n - 1), OptionsFor(m, beyond, n - 1);
      ForOrdered(m, beyond, LastNumber(0, done), n - 1);
      OrderedAppend(0, done, more);
    }
  }

  /** Whatever fits into a short header is encodable. */
  lemma {:induction false} FitsEncodable(current: nat, opts: seq<Opt>)
    requires Ordered(current, opts) && |EncodeOpts(current, opts)| <= LONGEST
    ensures Encodable(current, opts)
    decreases |opts|
  {
    hide HeaderBytes;
    if opts != [] {
      FitsEncodable(opts[0].number, opts[1..]);
    }
  }

  lemma HeaderRead(m: Message, rest: seq<byte>)
    requires m.kind < 4 && |m.token| <= COAP_TOKEN_LEN
    ensures var data := FixedHeader(m) + m.token + rest;
      && VersionOf(data[0]) == 1 && KindOf(data[0]) == m.kind && TokenLength(data[0]) == |m.token|
      && data[1] == m.code && MidOf(data[2], data[3]) == m.mid
      && data[COAP_HEADER_LEN..COAP_HEADER_LEN + |m.token|] == m.token
      && data[COAP_HEADER_LEN + |m.token|..] == rest
  {
    var first: byte := 0x40 + m.kind * 16 + |m.token|;
    assert first / 16 == 4 + m.kind && first % 16 == |m.token|;
  }

  predicate Fits(m: Message, beyond: Beyond) {
    m.kind < 4 && m.code != 0 && |m.token| <= COAP_TOKEN_LEN && |Head(m, beyond)| <= COAP_MAX_HEADER_SIZE
  }

  lemma DecodeIs(data: seq<byte>, m: Message, opts: seq<Opt>, payload: seq<byte>, taken: Message)
    requires |data| >= COAP_HEADER_LEN + |m.token| && VersionOf(data[0]) == 1 && KindOf(data[0]) == m.kind
    requires TokenLength(data[0]) == |m.token| && data[1] == m.code && MidOf(data[2], data[3]) == m.mid
    requires data[COAP_HEADER_LEN..COAP_HEADER_LEN + |m.token|] == m.token
    requires Scan(data[COAP_HEADER_LEN + |m.token|..], 0) == Wire(opts, payload)
    requires TakeAll(Blank(m.kind, m.code, m.mid, m.token), opts) == Parsed(NoError, taken)
    ensures Complete(data)
    ensures Decode(data) == Parsed(NoError, taken.(payload := Front(payload, REST_MAX_CHUNK_SIZE)))
  {
    hide Scan, TakeAll, TokenLength;
  }

  /** Parsing what was printed gives no error, and exactly what Received says. */
  lemma PrintedParsed(m: Message, beyond: Beyond)
    requires Clean(m) && Fits(m, beyond)
    ensures Complete(Encode(m, beyond)) && Decode(Encode(m, beyond)) == Parsed(NoError, Received(m, beyond))
  {
    EncodeIs(m, beyond);
    var opts, r := OptionsBelow(m, beyond, END), Received(m, beyond);
    var rest := EncodeOpts(0, opts) + EncodePayload(m.payload);
    hide *;
    WireRead(0, opts, m.payload);
    HeaderRead(m, rest);
    StepsBelow(m, beyond, END);
    AllBelow(m, beyond);
    DecodeIs(Encode(m, beyond), m, opts, m.payload, Below(r, END));
  }

  lemma EncodeIs(m: Message, beyond: Beyond)
    requires Fits(m, beyond)
    ensures m.kind < 4 && |m.token| <= COAP_TOKEN_LEN
    ensures var opts := OptionsBelow(m, beyond, END);
      && Encodable(0, opts)
      && Encode(m, beyond) == FixedHeader(m) + m.token + (EncodeOpts(0, opts) + EncodePayload(m.payload))
  {
    BelowOrdered(m, beyond, END);
    FitsEncodable(0, OptionsBelow(m, beyond, END));
    hide OptionsBelow, EncodeOpts, EncodePayload, Encodable, Ordered;
  }

  lemma AllBelow(m: Message, beyond: Beyond)
    requires Clean(m)
    ensures var r := Received(m, beyond);
      && Below(r, 0) == Blank(m.kind, m.code, m.mid, m.token)
      && Below(r, END).(payload := Front(m.payload, REST_MAX_CHUNK_SIZE)) == r
  {
    hide Resplit, BlockOf, BlockValue;
    var r := Received(m, beyond);
    assert Below(r, 0).options == {};
    forall n | n in r.options
      ensures n < END
    {
      assert IsText(n) || IsBytes(n) || IsInt(n) || IsBlock(n);
    }
    assert Below(r, END).options == r.options;
  }

  /** No text is followed by a separator in memory (a C string is followed by a zero). */
  predicate Terminated(beyond: Beyond) {
    && beyond(LOCATION_PATH).0 != SLASH && beyond(URI_PATH).0 != SLASH
    && beyond(URI_QUERY).0 != AMPERSAND && beyond(LOCATION_QUERY).0 != AMPERSAND
  }

  lemma ReceivedText(m: Message, beyond: Beyond, number: nat)
    requires Clean(m) && IsText(number)
    ensures Splittable(TextOf(m, number), Separator(number)) ==> TextOf(Received(m, beyond), number) == TextOf(m, number)
    ensures Terminated(beyond) && TextOf(Received(m, beyond), number) == TextOf(m, number) ==>
            Splittable(TextOf(m, number), Separator(number))
  {
    SplitExact(TextOf(m, number), beyond(number), Separator(number));
    assert number in m.options || Default(m, number);
    hide Parts, MergeAll, Clean, BlockOf, BlockValue;
  }

  lemma ReceivedBlock(m: Message, beyond: Beyond, number: nat)
    requires Clean(m) && IsBlock(number)
    ensures number == BLOCK2 ==>
      ((BLOCK2 in m.options ==> Sendable(m.block2)) <==> Received(m, beyond).block2 == m.block2)
    ensures number == BLOCK1 ==>
      ((BLOCK1 in m.options ==> Sendable(m.block1)) <==> Received(m, beyond).block1 == m.block1)
  {
    BlockReadExactly(if number == BLOCK2 then m.block2 else m.block1);
    assert number in m.options || Default(m, number);
    hide Clean, BlockOf, BlockValue, Sendable, Resplit, Front;
  }

  lemma ReceivedExactly(m: Message, beyond: Beyond)
    requires Clean(m)
    ensures Carried(m) ==> Received(m, beyond) == m
    ensures Terminated(beyond) && Received(m, beyond) == m ==> Carried(m)
  {
    ReceivedText(m, beyond, LOCATION_PATH);
    ReceivedText(m, beyond, URI_PATH);
    ReceivedText(m, beyond, URI_QUERY);
    ReceivedText(m, beyond, LOCATION_QUERY);
    ReceivedBlock(m, beyond, BLOCK2);
    ReceivedBlock(m, beyond, BLOCK1);
    hide Clean, BlockOf, BlockValue, Sendable, Resplit, Splittable, Terminated;
  }

  /** Parsing undoes printing, and does so exactly when the values are ones that come back. */
  lemma RoundTrip(m: Message, beyond: Beyond)
    requires Clean(m) && Fits(m, beyond)
    ensures Complete(Encode(m, beyond))
    ensures Carried(m) ==> Decode(Encode(m, beyond)) == Parsed(NoError, m)
    ensures Terminated(beyond) && Decode(Encode(m, beyond)) == Parsed(NoError, m) ==> Carried(m)
  {
    hide *;
    PrintedParsed(m, beyond);
    ReceivedExactly(m, beyond);
  }

  /** Printed messages stay inside the bitmap. */
  lemma PrintedInBitmap(m: Message, beyond: Beyond)
    requires Clean(m) && Fits(m, beyond)
    ensures Complete(Encode(m, beyond)) && InBitmap(Encode(m, beyond))
  {
    hide *;
    PrintedParsed(m, beyond);
    EncodeIs(m, beyond);
    var opts := OptionsBelow(m, beyond, END);
    WireRead(0, opts, m.payload);
    HeaderRead(m, EncodeOpts(0, opts) + EncodePayload(m.payload));
    BelowOrdered(m, beyond, END);
    OrderedMapped(0, opts);
    InBitmapIf(Encode(m, beyond), |m.token|, opts, m.payload);
  }

  lemma InBitmapIf(data: seq<byte>, tokenLength: nat, opts: seq<Opt>, payload: seq<byte>)
    requires Complete(data) && TokenLength(data[0]) == tokenLength
    requires Scan(data[COAP_HEADER_LEN + tokenLength..], 0) == Wire(opts, payload) && Mapped(opts)
    ensures InBitmap(data)
  {
  }

  lemma {:induction false} OrderedMapped(current: nat, opts: seq<Opt>)
    requires Ordered(current, opts)
    ensures Mapped(opts)
    decreases |opts|
  {
    hide StatusOf;
    if opts != [] {
      OrderedMapped(opts[0].number, opts[1..]);
    }
  }
}
