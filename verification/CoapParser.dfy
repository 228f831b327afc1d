/** coap_parse_message (apps/er-coap/er-coap.c): the parser, which merges the segments of a
    path or a query inside the datagram that it reads. */
module CoapParser {

  import opened Bytes
  import opened CoapOptions
  import opened CoapBlocks
  import opened CoapMessage

  /** A pointer into the datagram and a length. */
  datatype Span = Span(at: nat, length: nat) {
    function End(): nat {
      at + length
    }
  }

  function Reading(data: seq<byte>, s: Span): seq<byte> {
    if 0 < s.length && s.End() <= |data| then data[s.at..s.End()] else []
  }

  /** Bytes below `n` decide what a span below `n` reads. */
  lemma SameReading(data: seq<byte>, data': seq<byte>, s: Span, n: nat)
    requires |data| == |data'| && n <= |data| && data[..n] == data'[..n] && s.End() <= n
    ensures Reading(data', s) == Reading(data, s)
  {
    assert data[s.at..s.End()] == data[..n][s.at..s.End()];
    assert data'[s.at..s.End()] == data'[..n][s.at..s.End()];
  }

  /** The texts of a packet. */
  datatype Texts = Texts(uriHost: Span, locationPath: Span, uriPath: Span, uriQuery: Span, locationQuery: Span)

  const NO_TEXTS := Texts(Span(0, 0), Span(0, 0), Span(0, 0), Span(0, 0), Span(0, 0))

  /** The message that the fields, the spans and the datagram denote together. */
  function Assemble(fields: Message, data: seq<byte>, t: Texts): Message {
    fields.(uriHost := Reading(data, t.uriHost), locationPath := Reading(data, t.locationPath),
            uriPath := Reading(data, t.uriPath), uriQuery := Reading(data, t.uriQuery),
            locationQuery := Reading(data, t.locationQuery))
  }

  predicate IsPlain(number: nat) {
    number != URI_HOST && !IsText(number)
  }

  lemma TakePlain(fields: Message, data: seq<byte>, t: Texts, o: Opt)
    requires IsPlain(o.number)
    ensures Take(Assemble(fields, data, t), o).status == Take(fields, o).status
    ensures Take(Assemble(fields, data, t), o).message == Assemble(Take(fields, o).message, data, t)
  {
    hide Reading, Merge, IntOf, BlockOf, Front;
  }

  function SpanOf(t: Texts, number: nat): Span
    requires IsText(number)
  {
    if number == LOCATION_PATH then t.locationPath
    else if number == URI_PATH then t.uriPath
    else if number == URI_QUERY then t.uriQuery
    else t.locationQuery
  }

  function WithSpan(t: Texts, number: nat, s: Span): Texts
    requires IsText(number)
  {
    if number == LOCATION_PATH then t.(locationPath := s)
    else if number == URI_PATH then t.(uriPath := s)
    else if number == URI_QUERY then t.(uriQuery := s)
    else t.(locationQuery := s)
  }

  /** Where a span may lie when options up to number `number` have been read and those of that
      number began at `run`: the span of an earlier number ends before them, and a later one
      is empty. */
  predicate Placed(s: Span, own: nat, number: nat, run: nat, i: nat) {
    if own < number then s.End() <= run
    else if own == number then s.length == 0 || (run <= s.at && s.End() <= i)
    else s.length == 0
  }

  /** The spans when the parser stands at `i`. */
  predicate Laid(t: Texts, number: nat, run: nat, i: nat) {
    && run <= i
    && Placed(t.uriHost, URI_HOST, number, run, i) && Placed(t.locationPath, LOCATION_PATH, number, run, i)
    && Placed(t.uriPath, URI_PATH, number, run, i) && Placed(t.uriQuery, URI_QUERY, number, run, i)
    && Placed(t.locationQuery, LOCATION_QUERY, number, run, i)
    && t.uriHost.End() <= i && t.locationPath.End() <= i && t.uriPath.End() <= i && t.uriQuery.End() <= i
    && t.locationQuery.End() <= i
  }

  /** The next option has been read. */
  function NextRun(number: nat, number': nat, run: nat, i: nat): nat {
    if number' == number then run else i
  }

  lemma LaidNext(t: Texts, number: nat, run: nat, i: nat, number': nat, i': nat)
    requires Laid(t, number, run, i) && number <= number' && i <= i'
    ensures Laid(t, number', NextRun(number, number', run, i), i')
  {
  }

  lemma Split(data: seq<byte>, a: nat, m: nat, e: nat)
    requires a <= m < e <= |data|
    ensures data[a..e] == data[a..m] + [data[m]] + data[m + 1..e]
  {
  }

  /** A text grows in place by the separator and the option. */
  lemma ReadingGrows(data: seq<byte>, data': seq<byte>, s: Span, sep: byte, option: seq<byte>)
    requires |data| == |data'| && s.length > 0 && s.End() + 1 + |option| <= |data|
    requires data'[..s.End()] == data[..s.End()] && data'[s.End()] == sep
    requires data'[s.End() + 1..s.End() + 1 + |option|] == option
    ensures Reading(data', s.(length := s.length + 1 + |option|)) == Merge(Reading(data, s), option, sep)
  {
    Split(data', s.at, s.End(), s.End() + 1 + |option|);
    SameReading(data, data', s, s.End());
    assert Reading(data', s) == data'[s.at..s.End()];
  }

  lemma AssembleText(fields: Message, data: seq<byte>, data': seq<byte>, t: Texts, number: nat, s: Span)
    requires IsText(number)
    requires Reading(data', t.uriHost) == Reading(data, t.uriHost)
    requires number != LOCATION_PATH ==> Reading(data', t.locationPath) == Reading(data, t.locationPath)
    requires number != URI_PATH ==> Reading(data', t.uriPath) == Reading(data, t.uriPath)
    requires number != URI_QUERY ==> Reading(data', t.uriQuery) == Reading(data, t.uriQuery)
    requires number != LOCATION_QUERY ==> Reading(data', t.locationQuery) == Reading(data, t.locationQuery)
    ensures Assemble(fields.(options := fields.options + {number}), data', WithSpan(t, number, s))
            == WithText(Assemble(fields, data, t), number, Reading(data', s))
    ensures TextOf(Assemble(fields, data, t), number) == Reading(data, SpanOf(t, number))
  {
    hide Reading;
  }

  /** Merging rewrites nothing that another span reads. */
  lemma MergedInPlace(fields: Message, data: seq<byte>, data': seq<byte>, t: Texts, number: nat, run: nat, i: nat, option: seq<byte>)
    requires IsText(number) && Laid(t, number, run, i)
    requires var s := SpanOf(t, number);
      && s.length > 0 && s.End() + 1 + |option| <= |data| == |data'|
      && data'[..s.End()] == data[..s.End()] && data'[s.End()] == Separator(number)
      && data'[s.End() + 1..s.End() + 1 + |option|] == option
    ensures var s := SpanOf(t, number);
      && Assemble(fields.(options := fields.options + {number}), data', WithSpan(t, number, s.(length := s.length + 1 + |option|)))
         == Take(Assemble(fields, data, t), Opt(number, option)).message
  {
    hide *;
    var s := SpanOf(t, number);
    var s' := s.(length := s.length + 1 + |option|);
    SpanFacts(t, number, run, i);
    SpanEnd(s, 0);
    ReadingGrows(data, data', s, Separator(number), option);
    OthersKept(data, data', t, number, run, i, s.End());
    AssembleText(fields, data, data', t, number, s');
    TakeText(Assemble(fields, data, t), number, option);
  }

  lemma OthersKept(data: seq<byte>, data': seq<byte>, t: Texts, number: nat, run: nat, i: nat, end: nat)
    requires IsText(number) && Laid(t, number, run, i) && run <= end <= |data| == |data'| && data'[..end] == data[..end]
    ensures Reading(data', t.uriHost) == Reading(data, t.uriHost)
    ensures number != LOCATION_PATH ==> Reading(data', t.locationPath) == Reading(data, t.locationPath)
    ensures number != URI_PATH ==> Reading(data', t.uriPath) == Reading(data, t.uriPath)
    ensures number != URI_QUERY ==> Reading(data', t.uriQuery) == Reading(data, t.uriQuery)
    ensures number != LOCATION_QUERY ==> Reading(data', t.locationQuery) == Reading(data, t.locationQuery)
  {
    KeptIfPlaced(data, data', t.uriHost, URI_HOST, number, run, i, end);
    KeptIfPlaced(data, data', t.locationPath, LOCATION_PATH, number, run, i, end);
    KeptIfPlaced(data, data', t.uriPath, URI_PATH, number, run, i, end);
    KeptIfPlaced(data, data', t.uriQuery, URI_QUERY, number, run, i, end);
    KeptIfPlaced(data, data', t.locationQuery, LOCATION_QUERY, number, run, i, end);
  }

  lemma KeptIfPlaced(data: seq<byte>, data': seq<byte>, s: Span, own: nat, number: nat, run: nat, i: nat, end: nat)
    requires Placed(s, own, number, run, i) && run <= end <= |data| == |data'| && data'[..end] == data[..end]
    ensures own != number ==> Reading(data', s) == Reading(data, s)
  {
    if own < number {
      SameReading(data, data', s, end);
    }
  }

  /** The first nonempty option of a number: the text is the option itself. */
  lemma FirstInPlace(fields: Message, data: seq<byte>, t: Texts, number: nat, v: nat, length: nat)
    requires IsText(number) && v + length <= |data| && SpanOf(t, number).length == 0
    ensures Assemble(fields.(options := fields.options + {number}), data, WithSpan(t, number, Span(v, length)))
            == Take(Assemble(fields, data, t), Opt(number, data[v..v + length])).message
  {
    assert Reading(data, SpanOf(t, number)) == [];
    assert Reading(data, Span(v, length)) == data[v..v + length];
    assert Merge([], data[v..v + length], Separator(number)) == data[v..v + length];
    hide *;
    AssembleText(fields, data, data, t, number, Span(v, length));
    TakeText(Assemble(fields, data, t), number, data[v..v + length]);
  }

  lemma LaidText(t: Texts, number: nat, run: nat, i: nat, s: Span, i': nat)
    requires IsText(number) && Laid(t, number, run, i) && i <= i'
    requires s.length == 0 || run <= s.at
    requires s.End() <= i'
    ensures Laid(WithSpan(t, number, s), number, run, i')
  {
  }

  lemma SpanEnd(s: Span, n: nat)
    ensures s.End() == s.at + s.length && s.(length := s.length + n).End() == s.End() + n
  {
  }

  lemma SpanFacts(t: Texts, number: nat, run: nat, i: nat)
    requires IsText(number) && Laid(t, number, run, i)
    ensures run <= i && SpanOf(t, number).End() <= i && (SpanOf(t, number).length > 0 ==> run <= SpanOf(t, number).at)
  {
  }

  /** The loop stands at `i`, after an option numbered `number`, with the message `m` so far:
      finishing from here gives the goal. */
  predicate ParsingAt(orig: seq<byte>, end: nat, i: nat, number: nat, m: Message, goal: Parsed) {
    && i <= end <= |orig|
    && m.payload == []
    && Scan(orig[i..end], number).Wire? && Mapped(Scan(orig[i..end], number).opts)
    && Finish(m, Scan(orig[i..end], number)) == goal
  }

  lemma ParsingEnds(orig: seq<byte>, end: nat, i: nat, number: nat, m: Message, goal: Parsed)
    requires ParsingAt(orig, end, i, number, m, goal)
    ensures i <= end <= |orig| && m.payload == []
    ensures i == end ==> goal == Parsed(NoError, m)
    ensures i < end && orig[i] >= 0xF0 ==> goal == Parsed(NoError, m.(payload := Front(orig[i + 1..end], REST_MAX_CHUNK_SIZE)))
    ensures i < end && orig[i] < 0xF0 ==> ReadHeader(orig[i..end]).Header?
  {
    hide ReadHeader;
    if i < end {
      assert orig[i..end][1..] == orig[i + 1..end];
    }
  }

  lemma SubSlice(orig: seq<byte>, i: nat, end: nat, a: nat, b: nat)
    requires i <= a <= b <= end <= |orig|
    ensures orig[i..end][a - i..b - i] == orig[a..b]
    ensures orig[i..end][b - i..] == orig[b..end]
  {
    var s := orig[i..end];
    assert forall k :: i <= k < end ==> s[k - i] == orig[k];
    forall k | 0 <= k < b - a
      ensures s[a - i..b - i][k] == orig[a..b][k]
    {
      assert s[a - i + k] == orig[a + k];
    }
    forall k | 0 <= k < end - b
      ensures s[b - i..][k] == orig[b..end][k]
    {
      assert s[b - i + k] == orig[b + k];
    }
  }

  lemma ParsingSteps(orig: seq<byte>, end: nat, i: nat, number: nat, m: Message, goal: Parsed, delta: nat, length: nat, v: nat)
    requires ParsingAt(orig, end, i, number, m, goal) && i < v <= end && orig[i] < 0xF0
    requires ReadHeader(orig[i..end]) == Header(delta, length, v - i)
    ensures v + length <= end && number + delta < OPTION_BITS
    ensures var p := Take(m, Opt(number + delta, orig[v..v + length]));
      if p.status != NoError then goal == p && p.message.payload == []
      else ParsingAt(orig, end, v + length, number + delta, p.message, goal)
  {
    hide ReadHeader, Take, StatusOf;
    TakeStatus(m, Opt(number + delta, orig[v..v + length]));
    var s, o := orig[i..end], Opt(number + delta, orig[v..v + length]);
    assert |s| >= (v - i) + length;
    SubSlice(orig, i, end, v, v + length);
    TakeKeepsPayload(m, o);
    var wire := Scan(orig[v + length..end], number + delta);
    assert Scan(s, number) == Wire([o] + wire.opts, wire.payload);
    assert ([o] + wire.opts)[1..] == wire.opts;
  }

  lemma TakeKeepsPayload(m: Message, o: Opt)
    ensures Take(m, o).message.payload == m.payload
  {
    hide Merge, IntOf, BlockOf, Front;
  }

  /** The fields after the header and the token have been read. */
  function HeaderMessage(data: seq<byte>, i: nat, ok: bool): Message
    requires COAP_HEADER_LEN <= i <= |data|
  {
    Blank(KindOf(data[0]), data[1], MidOf(data[2], data[3]),
          if ok then data[COAP_HEADER_LEN..i] else Zeros(TokenLength(data[0])))
  }

  /** What the header says of the goal. */
  predicate HeaderGives(data: seq<byte>, end: nat, goal: Parsed)
    requires COAP_HEADER_LEN <= end <= |data|
  {
    var i, ok := COAP_HEADER_LEN + TokenLength(data[0]), VersionOf(data[0]) == 1;
    && i <= end
    && var m := HeaderMessage(data, i, ok);
    && m.payload == [] && Assemble(m, data, NO_TEXTS) == m
    && if ok then ParsingAt(data, end, i, 0, m, goal) else goal == Parsed(BadRequest, m)
  }

  lemma HeaderUsed(data: seq<byte>, end: nat, goal: Parsed)
    requires COAP_HEADER_LEN <= end <= |data| && HeaderGives(data, end, goal)
    ensures var i, ok := COAP_HEADER_LEN + TokenLength(data[0]), VersionOf(data[0]) == 1;
      && i <= end
      && var m := Assemble(HeaderMessage(data, i, ok), data, NO_TEXTS);
      && if ok then ParsingAt(data, end, i, 0, m, goal) else goal == Parsed(BadRequest, m) && goal.message.payload == []
  {
    hide ParsingAt, TokenLength, VersionOf, HeaderMessage, Assemble;
  }

  lemma HeaderParsed(data: seq<byte>, end: nat, goal: Parsed)
    requires COAP_HEADER_LEN <= end <= |data| && Complete(data[..end]) && InBitmap(data[..end]) && goal == Decode(data[..end])
    ensures HeaderGives(data, end, goal)
  {
    hide Scan, Mapped, TakeAll, TokenLength, VersionOf, KindOf, MidOf, Zeros;
    var i := COAP_HEADER_LEN + TokenLength(data[0]);
    SubSlice(data, 0, end, COAP_HEADER_LEN, i);
    assert data[0..end] == data[..end];
  }

  lemma NothingLaid(i: nat)
    ensures Laid(NO_TEXTS, 0, 0, i)
  {
  }

  /** The packet and the status are the goal. */
  predicate Result(status: Status, fields: Message, data: seq<byte>, t: Texts, payload: Span, goal: Parsed) {
    Parsed(status, Assemble(fields, data, t).(payload := Reading(data, payload))) == goal
  }

  lemma WithoutPayload(status: Status, fields: Message, data: seq<byte>, t: Texts, goal: Parsed)
    requires goal == Parsed(status, Assemble(fields, data, t)) && goal.message.payload == []
    ensures Result(status, fields, data, t, Span(0, 0), goal)
  {
    hide Assemble;
    SamePayload(goal.message);
  }

  lemma WithPayload(fields: Message, data: seq<byte>, t: Texts, payload: Span, m: Message, goal: Parsed)
    requires m == Assemble(fields, data, t) && goal == Parsed(NoError, m.(payload := Reading(data, payload)))
    ensures Result(NoError, fields, data, t, payload, goal)
  {
  }

  lemma SamePayload(m: Message)
    requires m.payload == []
    ensures m.(payload := []) == m
  {
  }

  lemma SliceSame(data: seq<byte>, orig: seq<byte>, i: nat, end: nat)
    requires i <= end <= |data| == |orig| && data[i..] == orig[i..]
    ensures data[i..end] == orig[i..end] && data[end..] == orig[end..]
    ensures i < |data| ==> data[i] == orig[i]
    ensures i < end ==> data[i + 1..end] == orig[i + 1..end]
  {
    assert data[i..end] == data[i..][..end - i];
    assert orig[i..end] == orig[i..][..end - i];
    assert data[end..] == data[i..][end - i..];
    assert orig[end..] == orig[i..][end - i..];
    if i < |data| {
      assert data[i] == data[i..][0];
      assert orig[i] == orig[i..][0];
    }
    if i < end {
      assert data[i + 1..end] == data[i..end][1..];
      assert orig[i + 1..end] == orig[i..end][1..];
    }
  }

  lemma ValueSame(data: seq<byte>, orig: seq<byte>, i: nat, v: nat, length: nat)
    requires i <= v && v + length <= |data| == |orig| && data[i..] == orig[i..]
    ensures data[v..v + length] == orig[v..v + length]
  {
    SliceSame(data, orig, i, v);
    SliceSame(data, orig, v, v + length);
  }

  lemma SameAssembly(fields: Message, data: seq<byte>, data': seq<byte>, t: Texts, number: nat, run: nat, i: nat)
    requires Laid(t, number, run, i) && i <= |data| == |data'| && data'[..i] == data[..i]
    ensures Assemble(fields, data', t) == Assemble(fields, data, t)
  {
    SameReading(data, data', t.uriHost, i);
    SameReading(data, data', t.locationPath, i);
    SameReading(data, data', t.uriPath, i);
    SameReading(data, data', t.uriQuery, i);
    SameReading(data, data', t.locationQuery, i);
    hide Reading;
  }

  lemma IsTextStatus(m: Message, number: nat, value: seq<byte>)
    requires IsText(number)
    ensures Take(m, Opt(number, value)).status == NoError
  {
    TakeText(m, number, value);
  }

  lemma PlainOnly(number: nat)
    requires !IsText(number) && number != URI_HOST
    ensures IsPlain(number)
  {
  }

  lemma NextRunSame(number: nat, run: nat, i: nat)
    ensures NextRun(number, number, run, i) == run
  {
  }

  lemma HostTaken(fields: Message, data: seq<byte>, t: Texts, v: nat, length: nat)
    requires v + length <= |data|
    ensures Take(Assemble(fields, data, t), Opt(URI_HOST, data[v..v + length]))
            == Parsed(NoError, Assemble(fields.(options := fields.options + {URI_HOST}), data, t.(uriHost := Span(v, length))))
  {
    assert Reading(data, Span(v, length)) == data[v..v + length];
    hide Reading, Merge, IntOf, BlockOf, Front;
  }

  lemma LaidHost(t: Texts, run: nat, i: nat, v: nat, length: nat)
    requires Laid(t, URI_HOST, run, i) && i <= v
    ensures Laid(t.(uriHost := Span(v, length)), URI_HOST, run, v + length)
  {
  }

  class Packet {
    const data: array<byte>
    var fields: Message    // everything but the texts
    var texts: Texts
    var payload: Span

    constructor (data: array<byte>)
      ensures this.data == data
    {
      this.data := data;
      fields := Blank(0, 0, 0, []);
      texts, payload := NO_TEXTS, Span(0, 0);
    }

    ghost function View(): Message
      reads this, data
    {
      Assemble(fields, data[..], texts).(payload := Reading(data[..], payload))
    }

    /** memmove inside the datagram */
    method Move(to: nat, from: nat, length: nat)
      requires to <= from && from + length <= data.Length
      modifies data
      ensures data[to..to + length] == old(data[from..from + length])
      ensures data[..to] == old(data[..to]) && data[to + length..] == old(data[to + length..])
    {
      forall k | 0 <= k < length {
        data[to + k] := data[from + k];
      }
      assert data[to..to + length] == old(data[from..from + length]);
    }

    /** The writes of coap_merge_multi_option. */
    method Append(end: nat, sep: byte, v: nat, length: nat)
      requires end < v && v + length <= data.Length
      modifies data
      ensures data[..end] == old(data[..end]) && data[end] == sep
      ensures data[end + 1..end + 1 + length] == old(data[v..v + length])
      ensures data[v + length..] == old(data[v + length..])
    {
      data[end] := sep;
      ghost var mid := data[..];
      Move(end + 1, v, length);
      assert data[v + length..] == mid[v + length..];
    }

    /** SET_OPTION: the bit must be in the bitmap. */
    method SetOption(number: nat)
      requires number < OPTION_BITS
      modifies this`fields
      ensures fields == old(fields).(options := old(fields).options + {number})
    {
      fields := fields.(options := fields.options + {number});
    }

    /** coap_merge_multi_option, for the text of the given number. */
    method MergeOption(number: nat, ghost run: nat, ghost i: nat, v: nat, length: nat)
      requires IsText(number) && number < OPTION_BITS && Laid(texts, number, run, i) && i < v && v + length <= data.Length
      modifies this`fields, this`texts, data
      ensures Assemble(fields, data[..], texts) == Take(old(Assemble(fields, data[..], texts)), Opt(number, old(data[v..v + length]))).message
      ensures Laid(texts, number, run, v + length)
      ensures data[v + length..] == old(data[v + length..])
    {
      hide *;
      ghost var was, fields0, texts0 := data[..], fields, texts;
      SpanFacts(texts, number, run, i);
      var dst := SpanOf(texts, number);
      SetOption(number);
      if dst.length > 0 {
        Append(dst.End(), Separator(number), v, length);
        texts := WithSpan(texts, number, dst.(length := dst.length + 1 + length));
        SpanEnd(dst, 1 + length);
        MergedInPlace(fields0, was, data[..], texts0, number, run, i, was[v..v + length]);
        LaidText(texts0, number, run, i, dst.(length := dst.length + 1 + length), v + length);
      } else {
        texts := WithSpan(texts, number, Span(v, length));
        SpanEnd(Span(v, length), 0);
        FirstInPlace(fields0, was, texts0, number, v, length);
        LaidText(texts0, number, run, i, Span(v, length), v + length);
      }
    }
    /** The plain cases of the switch. */
    method TakePlainOption(number: nat, v: nat, length: nat) returns (status: Status)
      requires IsPlain(number) && number < OPTION_BITS && v + length <= data.Length
      modifies this`fields
      ensures Parsed(status, fields) == Take(old(fields), Opt(number, data[v..v + length]))
    {
      SetOption(number);
      status := NoError;
      if number == ETAG || number == IF_MATCH {
        var tag := data[v..v + (if length < COAP_ETAG_LEN then length else COAP_ETAG_LEN)];
        assert tag == Front(data[v..v + length], COAP_ETAG_LEN);
        fields := if number == ETAG then fields.(etag := tag) else fields.(ifMatch := tag);
      } else if number == IF_NONE_MATCH {
        fields := fields.(ifNoneMatch := true);
      } else if number == PROXY_URI || number == PROXY_SCHEME {
        status := ProxyingNotSupported;
      } else if IsInt(number) || IsBlock(number) {
        TakeIntOption(number, v, length);
      } else if number % 2 == 1 {
        status := BadOption;
      }
    }

    /** The integer and block cases of the switch. */
    method TakeIntOption(number: nat, v: nat, length: nat)
      requires (IsInt(number) || IsBlock(number)) && v + length <= data.Length && number in fields.options
      modifies this`fields
      ensures fields == Take(old(fields), Opt(number, data[v..v + length])).message
    {
      assert fields.options + {number} == fields.options;
      var x := ParseIntOption(data, v, length);
      hide IntOf, Merge, Front, Pow2;
      if IsBlock(number) {
        ExponentBound(x % 8);
        var b := Block(x / 16, x / 8 % 2 == 1, 16 * Pow2(x % 8), (x as int - x % 16) * Pow2(x % 8) % TWO32);
        fields := if number == BLOCK2 then fields.(block2 := b) else fields.(block1 := b);
      } else if number == OBSERVE {
        fields := fields.(observe := x);
      } else if number == URI_PORT {
        fields := fields.(uriPort := x % 0x1_0000);
      } else if number == CONTENT_FORMAT {
        fields := fields.(contentFormat := x);
      } else if number == MAX_AGE {
        fields := fields.(maxAge := x);
      } else if number == ACCEPT {
        fields := fields.(accept := x);
      } else if number == SIZE2 {
        fields := fields.(size2 := x);
      } else {
        fields := fields.(size1 := x);
      }
    }
    /** One round of the loop, after the option's header. */
    method TakeOption(number: nat, ghost run: nat, ghost i: nat, v: nat, length: nat) returns (status: Status)
      requires Laid(texts, number, run, i) && number < OPTION_BITS && i < v && v + length <= data.Length
      modifies this`fields, this`texts, data
      ensures Parsed(status, Assemble(fields, data[..], texts)) == Take(old(Assemble(fields, data[..], texts)), Opt(number, old(data[v..v + length])))
      ensures Laid(texts, number, run, v + length)
      ensures data[v + length..] == old(data[v + length..])
    {
      hide *;
      ghost var was, fields0, texts0, o := data[..], fields, texts, Opt(number, data[v..v + length]);
      status := NoError;
      if IsText(number) {
        IsTextStatus(Assemble(fields0, was, texts0), number, o.value);
        MergeOption(number, run, i, v, length);
      } else if number == URI_HOST {
        texts := texts.(uriHost := Span(v, length));
        SetOption(number);
        HostTaken(fields0, was, texts0, v, length);
        LaidHost(texts0, run, i, v, length);
      } else {
        PlainOnly(number);
        status := TakePlainOption(number, v, length);
        TakePlain(fields0, was, texts0, o);
        LaidNext(texts0, number, run, i, number, v + length);
        NextRunSame(number, run, i);
      }
    }

    /** The extension bytes of a delta or a length. */
    method ExtendNumber(nibble: nat, at: nat, end: nat) returns (x: nat, next: nat)
      requires at <= end <= data.Length && Extend(nibble, data[at..end]).Extended?
      ensures at <= next <= end && Extend(nibble, data[at..end]) == Extended(x, next - at)
    {
      x, next := nibble, at;
      if x == 13 {
        x := x + data[next];
        next := next + 1;
      } else if x == 14 {
        x := x + 255;
        x := x + data[next] as int * 256;
        next := next + 1;
        x := x + data[next];
        next := next + 1;
      }
    }

    /** The header of an option. */
    method ReadOption(i: nat, end: nat) returns (delta: nat, length: nat, v: nat)
      requires i < end <= data.Length && ReadHeader(data[i..end]).Header?
      ensures i < v <= end && ReadHeader(data[i..end]) == Header(delta, length, v - i)
    {
      ghost var s := data[i..end];
      assert s[1..] == data[i + 1..end];
      hide Extend;
      delta, v := ExtendNumber(data[i] / 16, i + 1, end);
      assert s[v - i..] == data[v..end];
      length, v := ExtendNumber(data[i] % 16, v, end);
    }

    /** The payload, with a zero written behind it. */
    method TakePayload(i: nat, end: nat)
      requires i < end < data.Length
      modifies this`payload, data
      ensures Reading(data[..], payload) == Front(old(data[i + 1..end]), REST_MAX_CHUNK_SIZE)
      ensures data[..i] == old(data[..i])
    {
      var length := end - (i + 1);
      if length > REST_MAX_CHUNK_SIZE {
        length := REST_MAX_CHUNK_SIZE;
      }
      payload := Span(i + 1, length);
      data[i + 1 + length] := 0;
      assert data[i + 1..i + 1 + length] == old(data[i + 1..end])[..length];
    }
    /** One round of the loop: false when the loop is left with an error. */
    method Round(i: nat, number: nat, ghost run: nat, end: nat, ghost orig: seq<byte>, ghost goal: Parsed)
      returns (status: Status, i': nat, number': nat, ghost run': nat)
      requires i < end <= data.Length == |orig| && data[i] < 0xF0 && data[i..] == orig[i..]
      requires Laid(texts, number, run, i)
      requires ParsingAt(orig, end, i, number, Assemble(fields, data[..], texts), goal)
      modifies this`fields, this`texts, data
      ensures status != NoError ==> goal == Parsed(status, Assemble(fields, data[..], texts)) && goal.message.payload == []
      ensures status == NoError ==>
        && i < i' <= end && data[i'..] == orig[i'..]
        && Laid(texts, number', run', i')
        && ParsingAt(orig, end, i', number', Assemble(fields, data[..], texts), goal)
    {
      hide *;
      ghost var m := Assemble(fields, data[..], texts);
      SliceSame(data[..], orig, i, end);
      ParsingEnds(orig, end, i, number, m, goal);
      var delta, length, v := ReadOption(i, end);
      ParsingSteps(orig, end, i, number, m, goal, delta, length, v);
      SliceSame(data[..], orig, i, v);
      SliceSame(data[..], orig, i, v + length);
      ValueSame(data[..], orig, i, v, length);
      number' := number + delta;
      LaidNext(texts, number, run, i, number', i);
      run' := NextRun(number, number', run, i);
      status := TakeOption(number', run', i, v, length);
      i' := v + length;
    }

    /** The header and the token. */
    method ParseHeader() returns (ok: bool, i: nat)
      requires COAP_HEADER_LEN <= data.Length && COAP_HEADER_LEN + TokenLength(data[0]) <= data.Length
      modifies this
      ensures ok == (VersionOf(data[0]) == 1) && i == COAP_HEADER_LEN + TokenLength(data[0])
      ensures texts == NO_TEXTS && payload == Span(0, 0)
      ensures fields == HeaderMessage(data[..], i, ok)
    {
      hide TokenLength, VersionOf, KindOf, MidOf, Zeros;
      var tokenLength := TokenLength(data[0]);
      fields := Blank(KindOf(data[0]), data[1], MidOf(data[2], data[3]), []);
      texts, payload := NO_TEXTS, Span(0, 0);
      i := COAP_HEADER_LEN + tokenLength;
      if VersionOf(data[0]) != 1 {
        fields := fields.(token := Zeros(tokenLength));
        return false, i;
      }
      fields := fields.(token := data[COAP_HEADER_LEN..i]);
      ok := true;
    }

    /** The option loop of coap_parse_message. */
    method ParseOptions(start: nat, end: nat, ghost orig: seq<byte>, ghost goal: Parsed) returns (status: Status)
      requires start <= end < data.Length && data[..] == orig && payload == Span(0, 0)
      requires Laid(texts, 0, 0, start) && ParsingAt(orig, end, start, 0, Assemble(fields, data[..], texts), goal)
      modifies this, data
      ensures Result(status, fields, data[..], texts, payload, goal)
    {
      hide *;
      var i, number := start, 0;
      ghost var run: nat := 0;
      while i < end
        invariant i <= end && data[i..] == orig[i..] && payload == Span(0, 0)
        invariant Laid(texts, number, run, i)
        invariant ParsingAt(orig, end, i, number, Assemble(fields, data[..], texts), goal)
      {
        ghost var m := Assemble(fields, data[..], texts);
        SliceSame(data[..], orig, i, end);
        ParsingEnds(orig, end, i, number, m, goal);
        if data[i] >= 0xF0 {
          ghost var was := data[..];
          TakePayload(i, end);
          SameAssembly(fields, was, data[..], texts, number, run, i);
          WithPayload(fields, data[..], texts, payload, m, goal);
          return NoError;
        }
        status, i, number, run := Round(i, number, run, end, orig, goal);
        if status != NoError {
          WithoutPayload(status, fields, data[..], texts, goal);
          return;
        }
      }
      ParsingEnds(orig, end, i, number, Assemble(fields, data[..], texts), goal);
      status := NoError;
      WithoutPayload(status, fields, data[..], texts, goal);
    }
    /** coap_parse_message, on a datagram of `end` bytes that is not cut short and sets no bit
        behind the bitmap, in a buffer with at least one byte more. */
    method ParseMessage(end: nat) returns (status: Status)
      requires COAP_HEADER_LEN <= end < data.Length && Complete(data[..end]) && InBitmap(data[..end])
      modifies this, data
      ensures Parsed(status, View()) == Decode(old(data[..end]))
      ensures StatusFits(status, old(data[..end]))
      ensures status == NoError ==> forall number :: IsText(number) ==>
        TextOf(View(), number) == Join(Trimmed(TextValues(old(data[..end]), number)), Separator(number))
    {
      ghost var orig := data[..];
      ghost var goal := Decode(data[..end]);
      assert orig[..end] == data[..end];
      HeaderParsed(orig, end, goal);
      DecodedStatus(data[..end]);
      hide StatusFits, Complete, InBitmap, Decode, HeaderGives, Assemble, Reading, TextOf, TextValues, Join, Trimmed, Separator, IsText;
      status := ParseDatagram(end, orig, goal);
      if status == NoError {
        forall number | IsText(number)
          ensures TextOf(goal.message, number) == Join(Trimmed(TextValues(orig[..end], number)), Separator(number))
        {
          DecodedText(orig[..end], number);
        }
      }
    }

    method ParseDatagram(end: nat, ghost orig: seq<byte>, ghost goal: Parsed) returns (status: Status)
      requires data[..] == orig && COAP_HEADER_LEN <= end < data.Length && HeaderGives(orig, end, goal)
      modifies this, data
      ensures Result(status, fields, data[..], texts, payload, goal)
    {
      hide *;
      HeaderUsed(orig, end, goal);
      var ok, i := ParseHeader();
      if ok {
        NothingLaid(i);
        status := ParseOptions(i, end, orig, goal);
      } else {
        status := BadRequest;
        WithoutPayload(status, fields, data[..], texts, goal);
      }
    }
  }
}
