/** SLIP framing (RFC 1055) in tools/tunslip6.c: the encoder with its output buffer, which is
    flushed in pieces, and the decoder, which is called whenever bytes have come in. */
module Slip {

  import opened Bytes

  const SLIP_END: byte := 0xC0
  const SLIP_ESC: byte := 0xDB
  const SLIP_ESC_END: byte := 0xDC
  const SLIP_ESC_ESC: byte := 0xDD
  const BUFFER_SIZE: nat := 2000

  // ----- Encoding -----

  function Stuffed(c: byte): seq<byte> {
    if c == SLIP_END then [SLIP_ESC, SLIP_ESC_END]
    else if c == SLIP_ESC then [SLIP_ESC, SLIP_ESC_ESC]
    else [c]
  }

  /** The bytes of a packet, without the end marker. */
  function Stuff(p: seq<byte>): seq<byte> {
    if p == [] then [] else Stuff(p[..|p| - 1]) + Stuffed(p[|p| - 1])
  }

  function Encode(p: seq<byte>): seq<byte> {
    Stuff(p) + [SLIP_END]
  }

  /** Two bytes that RFC 1055 lets follow each other inside a frame: 219 only in front of 220
      or 221, and never 192. */
  predicate Framed(s: seq<byte>) {
    && (forall i :: 0 <= i < |s| ==> s[i] != 192)
    && (forall i :: 0 <= i < |s| && s[i] == 219 ==> i + 1 < |s| && (s[i + 1] == 220 || s[i + 1] == 221))
  }

  lemma FramedAppend(a: seq<byte>, b: seq<byte>)
    requires Framed(a) && Framed(b)
    ensures Framed(a + b)
  {
  }

  /** The bytes of RFC 1055: a 192 is sent as 219 220, a 219 as 219 221, any other byte as it
      is, and a 192 ends the frame. */
  lemma StuffedBytes(c: byte)
    ensures Stuffed(c) == if c == 192 then [219, 220] else if c == 219 then [219, 221] else [c]
  {
  }

  /** A frame holds 192 at its end only, and 219 only in front of 220 or 221. */
  lemma {:induction false} EncodedBytes(p: seq<byte>)
    ensures Framed(Stuff(p)) && Encode(p) == Stuff(p) + [192]
  {
    if p != [] {
      EncodedBytes(p[..|p| - 1]);
      StuffedBytes(p[|p| - 1]);
      FramedAppend(Stuff(p[..|p| - 1]), Stuffed(p[|p| - 1]));
    }
  }

  function EncodeAll(ps: seq<seq<byte>>): seq<byte> {
    if ps == [] then [] else EncodeAll(ps[..|ps| - 1]) + Encode(ps[|ps| - 1])
  }

  /** The sending side of the tunnel. */
  class Encoder {
    const buf: array<byte>
    var begin: nat
    var end: nat
    var wire: seq<byte>               // what the serial port has taken
    ghost var packets: seq<seq<byte>> // the packets written so far

    /** What the port has taken and what is still buffered is the encoding of the packets. */
    ghost predicate Valid()
      reads this, buf
    {
      && buf.Length == BUFFER_SIZE && begin <= end <= buf.Length
      && (begin == end ==> end == 0)
      && wire + buf[begin..end] == EncodeAll(packets)
    }

    constructor ()
      ensures Valid() && fresh(buf) && packets == [] && wire == []
    {
      buf := new byte[BUFFER_SIZE](_ => 0);
      begin, end, wire, packets := 0, 0, [], [];
    }

    /** slip_send: false when the original exits because the buffer is full. */
    method Send(c: byte) returns (ok: bool)
      requires buf.Length == BUFFER_SIZE && begin <= end <= buf.Length
      modifies this`end, buf
      ensures ok == (old(end) < BUFFER_SIZE)
      ensures ok ==> end == old(end) + 1 && buf[begin..end] == old(buf[begin..end]) + [c]
      ensures !ok ==> end == old(end)
      ensures begin <= end <= buf.Length
    {
      if end >= BUFFER_SIZE {
        return false;
      }
      buf[end] := c;
      end := end + 1;
      ok := true;
    }

    /** The body of the loop in write_to_serial. */
    method SendStuffed(c: byte) returns (ok: bool)
      requires buf.Length == BUFFER_SIZE && begin <= end <= buf.Length
      modifies this`end, buf
      ensures ok == (old(end) + |Stuffed(c)| <= BUFFER_SIZE)
      ensures ok ==> end == old(end) + |Stuffed(c)| && buf[begin..end] == old(buf[begin..end]) + Stuffed(c)
      ensures begin <= end <= buf.Length
    {
      if c == SLIP_END || c == SLIP_ESC {
        ok := Send(SLIP_ESC);
        if ok {
          ok := Send(if c == SLIP_END then SLIP_ESC_END else SLIP_ESC_ESC);
        }
      } else {
        ok := Send(c);
      }
    }

    static lemma StuffMore(p: seq<byte>, i: nat)
      requires i < |p|
      ensures Stuff(p[..i + 1]) == Stuff(p[..i]) + Stuffed(p[i])
    {
      assert p[..i + 1][..i] == p[..i];
    }

    static lemma NothingStuffed(p: seq<byte>)
      ensures Stuff(p[..0]) == []
    {
    }

    static lemma MoreHeld(held: seq<byte>, a: seq<byte>, b: seq<byte>)
      ensures (held + a) + b == held + (a + b)
    {
    }

    static lemma {:induction false} StuffLength(p: seq<byte>, i: nat)
      requires i <= |p|
      ensures |Stuff(p[..i])| <= |Stuff(p)|
      decreases |p| - i
    {
      if i < |p| {
        StuffMore(p, i);
        StuffLength(p, i + 1);
      } else {
        assert p[..i] == p;
      }
    }

    static lemma EncodedMore(wire: seq<byte>, held: seq<byte>, packets: seq<seq<byte>>, p: seq<byte>)
      requires wire + held == EncodeAll(packets)
      ensures wire + (held + Stuff(p) + [SLIP_END]) == EncodeAll(packets + [p])
    {
      assert (packets + [p])[..|packets|] == packets;
      assert wire + (held + Stuff(p) + [SLIP_END]) == (wire + held) + Encode(p);
    }

    /** write_to_serial: exits with an error exactly when the packet does not fit. */
    method WriteToSerial(p: seq<byte>) returns (ok: bool)
      requires Valid()
      modifies this`end, this`packets, buf
      ensures ok == (old(end) + |Encode(p)| <= BUFFER_SIZE)
      ensures ok ==> Valid() && packets == old(packets) + [p]
    {
      hide EncodeAll, Stuff, Stuffed;
      var i := 0;
      NothingStuffed(p);
      while i < |p|
        invariant i <= |p| && begin <= end <= buf.Length && packets == old(packets)
        invariant end == old(end) + |Stuff(p[..i])|
        invariant buf[begin..end] == old(buf[begin..end]) + Stuff(p[..i])
      {
        StuffMore(p, i);
        StuffLength(p, i + 1);
        MoreHeld(old(buf[begin..end]), Stuff(p[..i]), Stuffed(p[i]));
        ok := SendStuffed(p[i]);
        if !ok {
          return;
        }
        i := i + 1;
      }
      assert p[..i] == p;
      EncodedMore(wire, old(buf[begin..end]), packets, p);
      ok := Send(SLIP_END);
      if ok {
        packets := packets + [p];
      }
    }

    /** slip_flushbuf: the port takes some of the bytes, or none (EAGAIN). */
    method Flush(n: nat)
      requires Valid() && n <= end - begin
      modifies this`begin, this`end, this`wire
      ensures Valid() && packets == old(packets)
      ensures wire == old(wire + buf[begin..begin + n])
      ensures (end == 0) == (n == old(end - begin))
    {
      if end == 0 {
        return;
      }
      assert buf[begin..end] == buf[begin..begin + n] + buf[begin + n..end];
      wire := wire + buf[begin..begin + n];
      begin := begin + n;
      if begin == end {
        begin, end := 0, 0;
      }
    }
  }

  // ----- Decoding -----

  /** What the decoder has: the frame so far, the frames found, and what it left unread. */
  datatype Decoded = Decoded(frame: seq<byte>, frames: seq<seq<byte>>, rest: seq<byte>)

  function Unescaped(c: byte): byte {
    if c == SLIP_ESC_END then SLIP_END else if c == SLIP_ESC_ESC then SLIP_ESC else c
  }

  /** What follows an escape: 220 and 221 stand for 192 and 219; any other byte, which the
      protocol does not allow, for itself. */
  lemma UnescapedBytes(c: byte)
    ensures Unescaped(c) == if c == 220 then 192 else if c == 221 then 219 else c
  {
  }

  function Dropped(frame: seq<byte>): (f: seq<byte>) {
    if |frame| >= BUFFER_SIZE then [] else frame
  }

  /** Reading the bytes `s` with `frame` in the buffer.  A frame that fills the buffer is
      dropped before the next read; an escape without its follower is left unread. */
  function Read(frame: seq<byte>, frames: seq<seq<byte>>, s: seq<byte>): Decoded
    decreases |s|
  {
    var f := Dropped(frame);
    if s == [] then Decoded(f, frames, [])
    else if s[0] == SLIP_END then
      if f == [] then Read(f, frames, s[1..]) else Read([], frames + [f], s[1..])
    else if s[0] == SLIP_ESC then
      if |s| == 1 then Decoded(f, frames, s) else Read(f + [Unescaped(s[1])], frames, s[2..])
    else Read(f + [s[0]], frames, s[1..])
  }

  /** However the bytes are split between calls, the result is the same: also between an
      escape and its follower. */
  lemma {:induction false} ReadInPieces(frame: seq<byte>, frames: seq<seq<byte>>, a: seq<byte>, b: seq<byte>)
    ensures var d := Read(frame, frames, a); Read(frame, frames, a + b) == Read(d.frame, d.frames, d.rest + b)
    decreases |a|
  {
    var f := Dropped(frame);
    if a == [] {
      assert a + b == b;
    } else if a[0] == SLIP_ESC {
      if |a| > 1 {
        assert (a + b)[2..] == a[2..] + b;
        ReadInPieces(f + [Unescaped(a[1])], frames, a[2..], b);
      } else {
        assert Read(f, frames, a + b) == Read(frame, frames, a + b);
      }
    } else {
      assert (a + b)[1..] == a[1..] + b;
      ReadInPieces(if a[0] == SLIP_END then [] else f + [a[0]], if a[0] == SLIP_END && f != [] then frames + [f] else frames, a[1..], b);
    }
  }

  /** The receiving side of the tunnel. */
  class Decoder {
    const inbuf: array<byte>
    var inbufptr: nat
    var stream: seq<byte>             // bytes that have come in and are not read yet
    var frames: seq<seq<byte>>        // the frames found

    ghost predicate Valid()
      reads this, inbuf
    {
      inbuf.Length == BUFFER_SIZE && inbufptr < BUFFER_SIZE
    }

    ghost function State(): Decoded
      requires Valid()
      reads this, inbuf
    {
      Decoded(inbuf[..inbufptr], frames, stream)
    }

    constructor ()
      ensures Valid() && fresh(inbuf) && State() == Decoded([], [], [])
    {
      inbuf := new byte[BUFFER_SIZE](_ => 0);
      inbufptr, stream, frames := 0, [], [];
    }

    /** serial_to_tun, with verbose at most 1, after the bytes of `chunk` have come in. */
    method SerialToTun(chunk: seq<byte>)
      requires Valid()
      modifies this, inbuf
      ensures Valid()
      ensures State() == Read(old(State()).frame, old(State()).frames, old(State()).rest + chunk)
    {
      stream := stream + chunk;
      ghost var goal := Read(inbuf[..inbufptr], frames, stream);
      while true
        invariant inbuf.Length == BUFFER_SIZE && inbufptr <= BUFFER_SIZE
        invariant Read(inbuf[..inbufptr], frames, stream) == goal
        decreases |stream|
      {
        if inbufptr >= inbuf.Length {
          inbufptr := 0;
        }
        if stream == [] {
          return;
        }
        var c := stream[0];
        if c == SLIP_END {
          stream := stream[1..];
          if inbufptr > 0 {
            frames := frames + [inbuf[..inbufptr]];
            inbufptr := 0;
          }
        } else if c == SLIP_ESC && |stream| == 1 {
          return;
        } else {
          if c == SLIP_ESC {
            c := Unescaped(stream[1]);
            stream := stream[2..];
          } else {
            stream := stream[1..];
          }
          inbuf[inbufptr] := c;
          inbufptr := inbufptr + 1;
          assert inbuf[..inbufptr] == inbuf[..inbufptr - 1] + [c];
        }
      }
    }
  }

  // ----- Both sides together -----

  /** What arrives of a packet: a long one loses its whole buffers, an empty one is no frame. */
  function Arrival(p: seq<byte>): seq<seq<byte>> {
    var tail := p[|p| - |p| % BUFFER_SIZE..];
    if tail == [] then [] else [tail]
  }

  /** The frame buffer after `n` bytes of a packet. */
  function Buffered(p: seq<byte>, n: nat): seq<byte>
    requires n <= |p|
  {
    p[n - n % BUFFER_SIZE..n]
  }

  lemma BufferedMore(p: seq<byte>, n: nat)
    requires n < |p|
    ensures Buffered(p, n + 1) == Dropped(Buffered(p, n) + [p[n]])
    ensures |Buffered(p, n)| < BUFFER_SIZE
  {
  }

  lemma {:induction false} StuffRead(p: seq<byte>, n: nat, frames: seq<seq<byte>>, rest: seq<byte>)
    requires n <= |p|
    ensures Read([], frames, Stuff(p[..n]) + rest) == Read(Buffered(p, n), frames, rest)
  {
    if n == 0 {
      assert Stuff(p[..0]) + rest == rest;
    } else {
      Encoder.StuffMore(p, n - 1);
      var c := p[n - 1];
      assert Stuff(p[..n]) + rest == Stuff(p[..n - 1]) + (Stuffed(c) + rest);
      StuffRead(p, n - 1, frames, Stuffed(c) + rest);
      BufferedMore(p, n - 1);
      ByteRead(Buffered(p, n - 1), frames, c, rest);
    }
  }

  lemma ByteRead(frame: seq<byte>, frames: seq<seq<byte>>, c: byte, rest: seq<byte>)
    requires |frame| < BUFFER_SIZE
    ensures Read(frame, frames, Stuffed(c) + rest) == Read(Dropped(frame + [c]), frames, rest)
  {
    var s := Stuffed(c) + rest;
    if c == SLIP_END || c == SLIP_ESC {
      assert s[2..] == rest;
    } else {
      assert s[1..] == rest;
    }
    assert Read(frame + [c], frames, rest) == Read(Dropped(frame + [c]), frames, rest);
  }

  lemma PacketRead(p: seq<byte>, frames: seq<seq<byte>>, rest: seq<byte>)
    ensures Read([], frames, Encode(p) + rest) == Read([], frames + Arrival(p), rest)
  {
    assert p[..|p|] == p;
    assert Encode(p) + rest == Stuff(p) + ([SLIP_END] + rest);
    StuffRead(p, |p|, frames, [SLIP_END] + rest);
    assert ([SLIP_END] + rest)[1..] == rest;
    assert frames + [] == frames;
  }

  function Arrivals(ps: seq<seq<byte>>): seq<seq<byte>> {
    if ps == [] then [] else Arrivals(ps[..|ps| - 1]) + Arrival(ps[|ps| - 1])
  }

  lemma {:induction false} AllRead(ps: seq<seq<byte>>, rest: seq<byte>)
    ensures Read([], [], EncodeAll(ps) + rest) == Read([], Arrivals(ps), rest)
  {
    if ps == [] {
      assert EncodeAll(ps) + rest == rest;
    } else {
      var front, p := ps[..|ps| - 1], ps[|ps| - 1];
      assert EncodeAll(ps) + rest == EncodeAll(front) + (Encode(p) + rest);
      AllRead(front, Encode(p) + rest);
      PacketRead(p, Arrivals(front), rest);
    }
  }

  predicate Deliverable(p: seq<byte>) {
    1 <= |p| < BUFFER_SIZE
  }

  /** A packet arrives as it was sent if and only if it has between 1 and 1999 bytes. */
  lemma ArrivesIntact(p: seq<byte>)
    ensures Arrival(p) == [p] <==> Deliverable(p)
  {
    var tail := p[|p| - |p| % BUFFER_SIZE..];
    if tail == p && p != [] {
      assert |p| == |p| % BUFFER_SIZE;
    }
  }

  lemma {:induction false} AllArrive(ps: seq<seq<byte>>)
    requires forall p :: p in ps ==> Deliverable(p)
    ensures Arrivals(ps) == ps
  {
    if ps != [] {
      AllArrive(ps[..|ps| - 1]);
      ArrivesIntact(ps[|ps| - 1]);
    }
  }

  /** The bytes of all chunks, one after the other. */
  function Joined(chunks: seq<seq<byte>>): seq<byte> {
    if chunks == [] then [] else Joined(chunks[..|chunks| - 1]) + chunks[|chunks| - 1]
  }

  /** The whole tunnel: packets that are deliverable, encoded and flushed in any pieces, and
      given to the decoder in any chunks, come out as the same frames in the same order. */
  method Tunnel(e: Encoder, chunks: seq<seq<byte>>) returns (d: Decoder)
    requires e.Valid() && e.end == 0 && Joined(chunks) == e.wire
    requires forall p :: p in e.packets ==> Deliverable(p)
    ensures d.Valid() && d.State() == Decoded([], e.packets, [])
  {
    d := new Decoder();
    var i := 0;
    assert chunks[..0] == [];
    while i < |chunks|
      invariant i <= |chunks| && d.Valid() && fresh(d) && fresh(d.inbuf)
      invariant d.State() == Read([], [], Joined(chunks[..i]))
    {
      ghost var sofar := Joined(chunks[..i]);
      ReadInPieces([], [], sofar, chunks[i]);
      assert chunks[..i + 1][..i] == chunks[..i];
      d.SerialToTun(chunks[i]);
      i := i + 1;
    }
    assert chunks[..i] == chunks;
    assert e.wire + e.buf[e.begin..e.end] == e.wire;
    AllRead(e.packets, []);
    assert EncodeAll(e.packets) + [] == e.wire;
    AllArrive(e.packets);
  }
}
