/** Block-wise transfers (section 2.2 of RFC 7959) in apps/er-coap/er-coap-engine.c: how the
    server cuts a representation into blocks, and the client loop that collects them. */
module CoapBlockwise {

  import opened Bytes
  import opened CoapBlocks
  import opened LinkFormat

  const COAP_MAX_ATTEMPTS: nat := 4

  /** The Block2 option of a request, as decoded. */
  datatype Wanted = Wanted(num: nat, size: nat, offset: nat)

  /** The Block2 option of a response. */
  datatype Given = Given(num: nat, more: bool, size: nat)

  datatype Reply = OutOfScope | Content(block: Option<Given>, payload: seq<byte>)

  /** coap_set_payload: `chunk` stands for REST_MAX_CHUNK_SIZE. */
  function SetPayload(payload: seq<byte>, chunk: nat): seq<byte> {
    payload[..Min(|payload|, chunk)]
  }

  /** coap_set_header_block2 */
  function SetBlock(num: nat, more: bool, size: nat): Option<Given> {
    if size < 16 || size > 2048 || num > 0xF_FFFF then None else Some(Given(num, more, size))
  }

  /** What coap_receive does with the payload and the new offset that a handler leaves. */
  function Respond(request: Option<Wanted>, payload: seq<byte>, newOffset: int, chunk: nat): Reply {
    match request
    case Some(w) =>
      var size := Min(w.size, chunk);
      if newOffset == w.offset then
        if w.offset >= |payload| then OutOfScope
        else Content(SetBlock(w.num, |payload| - w.offset > size, size),
                     SetPayload(payload[w.offset..][..Min(|payload| - w.offset, size)], chunk))
      else Content(SetBlock(w.num, newOffset != -1 || |payload| > size, size),
                   if |payload| > size then SetPayload(payload[..size], chunk) else payload)
    case None =>
      if newOffset != 0 then
        Content(SetBlock(0, newOffset != -1, MaxBlockSize(chunk)), SetPayload(payload[..Min(|payload|, MaxBlockSize(chunk))], chunk))
      else Content(None, payload)
  }

  /** A block option is set only for sizes from 16 to 2048 and numbers of at most 20 bits. */
  lemma SetBlockIs(num: nat, more: bool, size: nat)
    ensures SetBlock(num, more, size) == if 16 <= size <= 2048 && num < 1048576 then Some(Given(num, more, size)) else None
  {
  }

  // ----- Windows tile a text -----

  /** The first `k` windows of a size, one after the other. */
  function WindowsUpTo(text: seq<byte>, size: nat, step: nat, k: nat): seq<byte> {
    if k == 0 then [] else WindowsUpTo(text, size, step, k - 1) + Window(text, (k - 1) * step, size)
  }

  lemma {:induction false} Tiles(text: seq<byte>, size: nat, k: nat)
    ensures WindowsUpTo(text, size, size, k) == text[..Min(k * size, |text|)]
  {
    if k > 0 {
      Tiles(text, size, k - 1);
      assert k * size == (k - 1) * size + size;
      TakeMore(text, (k - 1) * size, size);
    }
  }

  lemma TakeMore(text: seq<byte>, at: nat, size: nat)
    ensures text[..Min(at, |text|)] + Window(text, at, size) == text[..Min(at + size, |text|)]
  {
  }

  /** Windows that are smaller than their distance leave bytes out. */
  lemma {:induction false} GapsLose(text: seq<byte>, size: nat, step: nat, k: nat)
    requires size < step && k > 0
    ensures |WindowsUpTo(text, size, step, k)| + (Min(step, |text|) - Min(size, |text|)) <= Min(k * step, |text|)
  {
    if k == 1 {
      assert WindowsUpTo(text, size, step, 1) == [] + Window(text, 0, size);
    } else {
      GapsLose(text, size, step, k - 1);
      assert k * step == (k - 1) * step + step;
    }
  }

  /** Windows at larger distances give the whole text only if one of them is the whole text. */
  lemma WindowsConserve(text: seq<byte>, size: nat, step: nat, k: nat)
    requires 0 < size <= step && k > 0 && |text| <= k * step
    ensures WindowsUpTo(text, size, step, k) == text <==> size == step || |text| <= size
  {
    if size == step {
      Tiles(text, size, k);
    } else {
      GapsLose(text, size, step, k);
      if |text| <= size {
        OnlyTheFirst(text, size, step, k);
      }
    }
  }

  lemma {:induction false} OnlyTheFirst(text: seq<byte>, size: nat, step: nat, k: nat)
    requires |text| <= size <= step && k > 0
    ensures WindowsUpTo(text, size, step, k) == text
  {
    if k == 1 {
      assert WindowsUpTo(text, size, step, 1) == [] + Window(text, 0, size);
    } else {
      OnlyTheFirst(text, size, step, k - 1);
      Times(1, k - 1, step);
    }
  }

  // ----- A resource that does not know about blocks -----

  /** Number of blocks of a payload. */
  function BlockCount(length: nat, size: nat): nat
    requires size > 0
  {
    (length + size - 1) / size
  }

  lemma BlockCountBounds(length: nat, size: nat, k: nat)
    requires size > 0
    ensures k < BlockCount(length, size) <==> k * size < length
  {
    var n := BlockCount(length, size);
    var r := (length + size - 1) % size;
    assert length + size - 1 == n * size + r;
    if k < n {
      Times(k, n - 1, size);
    } else {
      Times(n, k, size);
    }
  }

  lemma Times(a: nat, b: nat, c: nat)
    requires a <= b
    ensures a * c <= b * c
  {
  }

  /** The reply to a request for block `k` of the given size, when the handler puts down its
      whole payload, which is cut to one chunk, and does not touch the offset. */
  function Slice(payload: seq<byte>, k: nat, size: nat, chunk: nat): Reply {
    Respond(Some(Wanted(k, size, k * size)), SetPayload(payload, chunk), k * size, chunk)
  }

  function SlicesUpTo(payload: seq<byte>, size: nat, chunk: nat, k: nat): seq<byte> {
    if k == 0 then []
    else
      SlicesUpTo(payload, size, chunk, k - 1) +
      match Slice(payload, k - 1, size, chunk) case OutOfScope => [] case Content(_, part) => part
  }

  /** One reply: a block of what one chunk holds of the payload, with the more flag clear exactly
      on the last; or out of scope, exactly beyond the end. */
  lemma SliceIs(payload: seq<byte>, k: nat, size: nat, chunk: nat)
    requires 16 <= size <= 2048 && 16 <= chunk <= 2048
    ensures var q := SetPayload(payload, chunk);
      var n := BlockCount(|q|, size);
      Slice(payload, k, size, chunk)
      == if k < n then Content(Some(Given(k, k < n - 1, Min(size, chunk))), Window(q, k * size, size)) else OutOfScope
  {
    var q, s, at := SetPayload(payload, chunk), Min(size, chunk), k * size;
    BlockCountBounds(|q|, size, k);
    BlockCountBounds(|q|, size, k + 1);
    assert (k + 1) * size == at + size;
    if k < BlockCount(|q|, size) {
      Times(16, size, k);
      if k > 0 {
        Times(1, k, size);
      }
      assert q[at..][..Min(|q| - at, s)] == Window(q, at, size);
    }
  }

  /** The replies to blocks 0, 1, 2, ... always give what one chunk holds of the payload; that is
      the payload that the handler put down exactly when it fits into a chunk. */
  lemma SlicesConserve(payload: seq<byte>, size: nat, chunk: nat)
    requires 16 <= size <= 2048 && 16 <= chunk <= 2048
    ensures var q := SetPayload(payload, chunk);
      var slices := SlicesUpTo(payload, size, chunk, BlockCount(|q|, size));
      slices == q && (slices == payload <==> |payload| <= chunk)
  {
    var q := SetPayload(payload, chunk);
    var n := BlockCount(|q|, size);
    SlicesAreWindows(payload, size, chunk, n);
    BlockCountBounds(|q|, size, n);
    Tiles(q, size, n);
  }

  /** Of a longer payload nothing behind the first chunk is ever sent, whatever blocks a client
      asks for. */
  lemma {:induction false} RestIsLost(payload: seq<byte>, size: nat, chunk: nat, k: nat)
    requires 16 <= size <= 2048 && 16 <= chunk <= 2048 && |payload| > chunk
    ensures |SlicesUpTo(payload, size, chunk, k)| <= chunk && SlicesUpTo(payload, size, chunk, k) != payload
    ensures Slice(payload, BlockCount(chunk, size), size, chunk) == OutOfScope
  {
    SliceIs(payload, BlockCount(chunk, size), size, chunk);
    var q := SetPayload(payload, chunk);
    var n := BlockCount(|q|, size);
    if k <= n {
      SlicesAreWindows(payload, size, chunk, k);
      Tiles(q, size, k);
    } else {
      RestIsLost(payload, size, chunk, k - 1);
      SliceIs(payload, k - 1, size, chunk);
    }
  }

  lemma {:induction false} SlicesAreWindows(payload: seq<byte>, size: nat, chunk: nat, k: nat)
    requires 16 <= size <= 2048 && 16 <= chunk <= 2048
    requires k <= BlockCount(|SetPayload(payload, chunk)|, size)
    ensures SlicesUpTo(payload, size, chunk, k) == WindowsUpTo(SetPayload(payload, chunk), size, size, k)
  {
    hide Slice, BlockCount, SetPayload;
    if k > 0 {
      SlicesAreWindows(payload, size, chunk, k - 1);
      SliceIs(payload, k - 1, size, chunk);
    }
  }

  // ----- The windows of the link-format document -----

  /** Taking the first `size` bytes of the answers at offsets 0, size, 2 * size, ..., each of them
      the offset that the answer before gave, until one gives -1: exactly the document, from as
      many answers as it has windows. */
  method CollectWindows(rs: seq<Resource>, size: nat) returns (text: seq<byte>, answers: nat)
    requires size > 0
    ensures text == Document(rs)
    ensures answers == if Document(rs) == [] then 1 else BlockCount(|Document(rs)|, size)
  {
    hide Document, Window, WindowsUpTo, BlockCount;
    var buffer := new byte[size + 1](_ => 0);
    ghost var doc := Document(rs);
    text, answers := [], 0;
    NoWindows(doc, size);
    var offset: int := 0;
    while offset != -1
      invariant text == WindowsUpTo(doc, size, size, answers)
      invariant offset == -1 || (offset == answers * size && (answers == 0 || offset < |doc|))
      invariant offset == -1 ==> answers > 0 && answers * size >= |doc| && (answers == 1 || (answers - 1) * size < |doc|)
      decreases if offset == -1 then 0 else |doc| + 1 - Min(offset, |doc|)
    {
      var a := GetHandler(rs, offset, size, buffer);
      WindowTaken(doc, size, answers, buffer[..], Min(a.bufpos, size));
      text := text + buffer[..Min(a.bufpos, size)];
      answers := answers + 1;
      offset := a.offset;
    }
    AllWindows(doc, size, answers);
  }

  lemma WindowTaken(doc: seq<byte>, size: nat, k: nat, buffer: seq<byte>, n: nat)
    requires Filled(doc, k * size, size, buffer, n)
    ensures n <= |buffer| && WindowsUpTo(doc, size, size, k) + buffer[..n] == WindowsUpTo(doc, size, size, k + 1)
    ensures (k + 1) * size == k * size + size
  {
    assert WindowsUpTo(doc, size, size, k + 1) == WindowsUpTo(doc, size, size, k) + Window(doc, k * size, size);
  }

  lemma AllWindows(doc: seq<byte>, size: nat, k: nat)
    requires size > 0 && k > 0 && k * size >= |doc| && (k == 1 || (k - 1) * size < |doc|)
    ensures WindowsUpTo(doc, size, size, k) == doc
    ensures k == if doc == [] then 1 else BlockCount(|doc|, size)
  {
    Tiles(doc, size, k);
    BlockCountBounds(|doc|, size, k);
    BlockCountBounds(|doc|, size, k - 1);
    if doc == [] && k > 1 {
      Times(0, k - 1, size);
    }
  }

  // ----- The link-format resource, and a client that collects its blocks -----

  /** The request as the server decodes it: a client asks for later blocks with a block option
      of size REST_MAX_CHUNK_SIZE, which is encoded as a power of two. */
  function Asked(num: nat, chunk: uint16): Option<Wanted>
    requires 16 <= chunk <= 2048
  {
    if num == 0 then None else Some(Wanted(num, RoundedSize(chunk), num * RoundedSize(chunk)))
  }

  /** Where block `num` starts. */
  function Start(num: nat, chunk: uint16): nat
    requires 16 <= chunk <= 2048
  {
    num * RoundedSize(chunk)
  }

  /** The reply that gives block `num` of a document.  The first request has no block option,
      and its more flag compares with the chunk size. */
  function Expected(doc: seq<byte>, num: nat, chunk: uint16): Reply
    requires 16 <= chunk <= 2048
  {
    var more := if num == 0 then chunk < |doc| else Start(num + 1, chunk) < |doc|;
    Content(Some(Given(num, more, RoundedSize(chunk))), Window(doc, Start(num, chunk), RoundedSize(chunk)))
  }

  /** The server's side of one exchange: the handler fills the packet buffer, and the engine
      makes a response of it. */
  method Exchange(rs: seq<Resource>, num: nat, chunk: uint16) returns (reply: Reply)
    requires 16 <= chunk <= 2048 && num <= 0xF_FFFF
    requires num == 0 || Start(num, chunk) < |Document(rs)|
    ensures reply == Expected(Document(rs), num, chunk)
  {
    var request := Asked(num, chunk);
    var size := if request.Some? then Min(request.value.size, chunk) else chunk;
    var offset := if request.Some? then request.value.offset else 0;
    var buffer := new byte[chunk + 1](_ => 0);
    MaxBlockSizeRounds(chunk);
    Distribute(num, RoundedSize(chunk));
    var answer := GetHandler(rs, offset, size, buffer);
    var payload := buffer[..Min(answer.bufpos, chunk)];
    ReplyIs(Document(rs), num, chunk, offset, size, answer.bufpos, answer.offset, buffer[..], payload);
    reply := Respond(request, payload, answer.offset, chunk);
  }

  lemma Distribute(num: nat, size: nat)
    ensures (num + 1) * size == num * size + size
    ensures num > 0 && size > 0 ==> num * size > 0
  {
  }

  lemma ReplyIs(doc: seq<byte>, num: nat, chunk: uint16, offset: nat, size: nat, bufpos: nat, newOffset: int, buffer: seq<byte>, payload: seq<byte>)
    requires 16 <= chunk <= 2048 && num <= 0xF_FFFF && |buffer| == chunk + 1
    requires RoundedSize(chunk) == MaxBlockSize(chunk)
    requires offset == num * RoundedSize(chunk) && (num + 1) * RoundedSize(chunk) == offset + RoundedSize(chunk)
    requires num > 0 ==> 0 < offset < |doc|
    requires size == if num == 0 then chunk else RoundedSize(chunk)
    requires Filled(doc, offset, size, buffer, Min(bufpos, size))
    requires newOffset == if offset + size < |doc| then offset + size else -1
    requires bufpos > size ==> newOffset != -1
    requires payload == buffer[..Min(bufpos, chunk)]
    ensures Respond(Asked(num, chunk), payload, newOffset, chunk) == Expected(doc, num, chunk)
  {
    var r := RoundedSize(chunk);
    hide RoundedSize, MaxBlockSize;
    if num == 0 {
      assert payload == Window(doc, 0, chunk);
      assert payload[..Min(|payload|, r)] == Window(doc, 0, r);
    } else {
      var n := Min(bufpos, r);
      assert payload[..Min(|payload|, r)] == buffer[..n] == Window(doc, offset, r);
    }
  }

  /** Which block, if any, comes back for a request: `answers(a, n)` is for attempt `a`, at
      block `n`. */
  type Network = (nat, nat) -> Option<nat>

  ghost predicate Reliable(answers: Network) {
    forall a: nat, n: nat :: answers(a, n) == Some(n)
  }

  /** Whatever comes back is a block of the document. */
  ghost predicate Honest(answers: Network, doc: seq<byte>, chunk: uint16)
    requires 16 <= chunk <= 2048
  {
    forall a: nat, n: nat :: answers(a, n).Some? ==>
      answers(a, n).value <= 0xF_FFFF && (answers(a, n).value == 0 || Start(answers(a, n).value, chunk) < |doc|)
  }

  /** coap_blocking_request.  Whatever is lost and however often a wrong block comes back, the
      client has collected the document from its start on.  Over a reliable network it has
      collected the whole of it, unless this ends between the block size and the chunk size, where
      the first response is cut without saying so. */
  method BlockingRequest(rs: seq<Resource>, chunk: uint16, answers: Network)
    returns (received: seq<byte>, blockError: nat, more: bool, lost: bool)
    requires 16 <= chunk <= 2048 && |Document(rs)| <= 0x100_0000 && (Reliable(answers) || Honest(answers, Document(rs), chunk))
    ensures received <= Document(rs)
    ensures blockError <= 4 && (more ==> lost || blockError == 4)
    ensures Reliable(answers) ==> !more && !lost && blockError == 0
    ensures Reliable(answers) ==> (received == Document(rs) <==> !(RoundedSize(chunk) < |Document(rs)| <= chunk))
  {
    hide RoundedSize, Start, Window, Document, WindowsUpTo, Reliable, Honest;
    ghost var doc, size, reliable := Document(rs), RoundedSize(chunk), Reliable(answers);
    received := [];
    NoWindows(doc, size);
    var num: nat, attempt: nat := 0, 0;
    blockError, more, lost := 0, true, false;
    while more && blockError < COAP_MAX_ATTEMPTS && !lost
      invariant blockError <= COAP_MAX_ATTEMPTS && received == WindowsUpTo(doc, size, size, num)
      invariant more && !lost && num > 0 ==> Start(num, chunk) < |doc|
      invariant reliable ==> blockError == 0 && !lost && attempt == num
      invariant reliable ==> (num == 0 ==> more)
      invariant reliable ==> (num == 1 ==> (more <==> |doc| > chunk)) && (num > 1 ==> |doc| > chunk)
      invariant reliable ==> (!more && num > 1 ==> Start(num, chunk) >= |doc|)
      decreases !lost, COAP_MAX_ATTEMPTS - blockError, if more then |doc| + 1 - num else -1
    {
      CountBound(num, chunk, doc);
      AnswerOf(answers, attempt, num, doc, chunk);
      var answer := answers(attempt, num);
      attempt := attempt + 1;
      if answer.None? {
        // the server is not responding
        lost := true;
      } else {
        var reply := Exchange(rs, answer.value, chunk);
        more := reply.block.value.more;
        if reply.block.value.num == num {
          received := received + reply.payload;
          num := num + 1;
        } else {
          blockError := blockError + 1;
        }
      }
    }
    Tiles(doc, size, num);
    if reliable {
      CollectedAll(doc, chunk, num);
    }
  }

  lemma AnswerOf(answers: Network, attempt: nat, num: nat, doc: seq<byte>, chunk: uint16)
    requires 16 <= chunk <= 2048 && (Reliable(answers) || Honest(answers, doc, chunk))
    ensures Reliable(answers) ==> answers(attempt, num) == Some(num)
    ensures !Reliable(answers) && answers(attempt, num).Some? ==>
      var b := answers(attempt, num).value;
      b <= 0xF_FFFF && (b == 0 || Start(b, chunk) < |doc|)
  {
    hide Start;
  }

  lemma NoWindows(doc: seq<byte>, size: nat)
    ensures WindowsUpTo(doc, size, size, 0) == []
  {
  }

  lemma CountBound(num: nat, chunk: uint16, doc: seq<byte>)
    requires 16 <= chunk <= 2048 && |doc| <= 0x100_0000 && (num == 0 || Start(num, chunk) < |doc|)
    ensures num <= 0xF_FFFF && num <= |doc|
    ensures num == 0 && chunk < |doc| ==> Start(1, chunk) < |doc|
    ensures var size := RoundedSize(chunk);
            WindowsUpTo(doc, size, size, num + 1) == WindowsUpTo(doc, size, size, num) + Window(doc, Start(num, chunk), size)
  {
    var size := RoundedSize(chunk);
    var e :| size == 16 * Pow2(e);
    hide RoundedSize, Window, Pow2;
    Times(16, size, num);
    assert WindowsUpTo(doc, size, size, num + 1) == WindowsUpTo(doc, size, size, num) + Window(doc, num * size, size);
  }

  lemma CollectedAll(doc: seq<byte>, chunk: uint16, num: nat)
    requires 16 <= chunk <= 2048 && num >= 1
    requires num == 1 ==> |doc| <= chunk
    requires num > 1 ==> |doc| > chunk && Start(num, chunk) >= |doc|
    ensures var size := RoundedSize(chunk); WindowsUpTo(doc, size, size, num) == doc <==> !(size < |doc| <= chunk)
  {
    Tiles(doc, RoundedSize(chunk), num);
  }
}
