/** The link-format document of /.well-known/core, generated one window at a time
    (apps/er-coap/er-coap-res-well-known-core.c). */
module LinkFormat {

  import opened Bytes

  /** A registered resource; neither text contains a zero byte. */
  datatype Resource = Resource(url: seq<byte>, attributes: seq<byte>)

  const COMMA: byte := 0x2C
  const LESS: byte := 0x3C
  const SLASH: byte := 0x2F
  const GREATER: byte := 0x3E
  const SEMICOLON: byte := 0x3B

  /** One link (section 2 of RFC 6690). */
  function Link(r: Resource): (s: seq<byte>)
    ensures |s| >= 3
  {
    [LESS, SLASH] + r.url + [GREATER] + (if r.attributes == [] then [] else [SEMICOLON] + r.attributes)
  }

  /** The characters of section 2 of RFC 6690: the url between </ and >, and a semicolon in
      front of the attributes. */
  lemma LinkBytes(r: Resource)
    ensures Link(r) == [60, 47] + r.url + [62] + (if r.attributes == [] then [] else [59] + r.attributes)
  {
  }

  /** A document is that of its resources but the last, then a comma (44) unless it is the only
      one, and the link of the last. */
  lemma DocumentBytes(rs: seq<Resource>)
    ensures rs == [] ==> Document(rs) == []
    ensures rs != [] ==>
      Document(rs) == LinksUpTo(rs, |rs| - 1) + (if |rs| > 1 then [44] else []) + Link(rs[|rs| - 1])
  {
  }

  /** The links of the first `k` resources, separated by commas. */
  function LinksUpTo(rs: seq<Resource>, k: nat): (s: seq<byte>)
    requires k <= |rs|
    ensures k > 0 ==> |s| > 0
  {
    if k == 0 then []
    else LinksUpTo(rs, k - 1) + (if k > 1 then [COMMA] else []) + Link(rs[k - 1])
  }

  function Document(rs: seq<Resource>): seq<byte> {
    LinksUpTo(rs, |rs|)
  }

  /** The part of a text that belongs into a window. */
  function Window(text: seq<byte>, offset: nat, size: nat): (w: seq<byte>)
    ensures |w| <= size
  {
    if offset >= |text| then [] else text[offset..Min(offset + size, |text|)]
  }

  // ----- Filling a window -----

  /** The text so far has been copied into the window. */
  predicate Filled(text: seq<byte>, offset: nat, size: nat, buffer: seq<byte>, bufpos: nat) {
    bufpos == |Window(text, offset, size)| && bufpos <= |buffer| && buffer[..bufpos] == Window(text, offset, size)
  }

  lemma FilledMore(text: seq<byte>, more: seq<byte>, offset: nat, size: nat, buffer: seq<byte>, bufpos: nat, buffer': seq<byte>, piece: seq<byte>)
    requires Filled(text, offset, size, buffer, bufpos)
    requires piece == PieceOf(|text|, more, offset, size, bufpos)
    requires bufpos + |piece| <= |buffer| == |buffer'|
    requires buffer'[..bufpos] == buffer[..bufpos] && buffer'[bufpos..bufpos + |piece|] == piece
    ensures Filled(text + more, offset, size, buffer', bufpos + |piece|)
  {
    assert buffer'[..bufpos + |piece|] == buffer'[..bufpos] + buffer'[bufpos..bufpos + |piece|];
    WindowGrows(text, more, offset, size);
  }

  /** What a text added at position `strpos` puts into the window. */
  function PieceOf(strpos: nat, more: seq<byte>, offset: nat, size: nat, bufpos: nat): seq<byte> {
    var from := if offset > strpos then offset - strpos else 0;
    if from >= |more| || bufpos >= size then []
    else more[from..from + Min(size - bufpos, |more| - from)]
  }

  lemma WindowGrows(text: seq<byte>, more: seq<byte>, offset: nat, size: nat)
    ensures Window(text + more, offset, size)
            == Window(text, offset, size) + PieceOf(|text|, more, offset, size, |Window(text, offset, size)|)
  {
  }

  /** ADD_CHAR_IF_POSSIBLE */
  method AddChar(c: byte, ghost text: seq<byte>, offset: nat, size: nat, buffer: array<byte>, strpos: nat, bufpos: nat)
    returns (strpos': nat, bufpos': nat)
    requires Filled(text, offset, size, buffer[..], bufpos) && strpos == |text| && size < buffer.Length
    modifies buffer
    ensures Filled(text + [c], offset, size, buffer[..], bufpos') && strpos' == |text + [c]|
  {
    ghost var was := buffer[..];
    strpos', bufpos' := strpos, bufpos;
    if strpos >= offset && bufpos < size {
      buffer[bufpos] := c;
      bufpos' := bufpos + 1;
    }
    strpos' := strpos + 1;
    FilledMore(text, [c], offset, size, was, bufpos, buffer[..], PieceOf(|text|, [c], offset, size, bufpos));
  }

  /** snprintf: writes what fits in front of a final zero and returns the full length. */
  method Snprintf(buffer: array<byte>, at: nat, room: nat, s: seq<byte>) returns (n: nat)
    requires room >= 1 && at + room <= buffer.Length
    modifies buffer
    ensures n == |s|
    ensures buffer[..at] == old(buffer[..at])
    ensures var k := Min(|s|, room - 1); buffer[at..at + k] == s[..k]
  {
    var k := Min(|s|, room - 1);
    CopyInto(buffer, at, s[..k]);
    ghost var mid := buffer[..];
    buffer[at + k] := 0;
    assert buffer[at..at + k] == mid[at..at + k];
    assert buffer[..at] == mid[..at];
    n := |s|;
  }

  /** ADD_STRING_IF_POSSIBLE: false when the macro breaks out of the loop.  `atEnd` tells
      whether a window that is exactly full is a reason to break. */
  method AddString(s: seq<byte>, atEnd: bool, ghost text: seq<byte>, offset: nat, size: nat, buffer: array<byte>, strpos: nat, bufpos: nat)
    returns (ok: bool, strpos': nat, bufpos': nat)
    requires Filled(text, offset, size, buffer[..], bufpos) && strpos == |text| && size < buffer.Length
    modifies buffer
    ensures Filled(text + s, offset, size, buffer[..], Min(bufpos', size))
    ensures ok ==> bufpos' <= size && strpos' == |text + s|
    ensures ok && size > 0 && (atEnd || s != []) ==> |text + s| <= offset + size
    ensures ok && size > 0 && atEnd ==> |text + s| < offset + size
    ensures !ok ==> bufpos' >= size && |text + s| >= offset + size && (!atEnd ==> |text + s| > offset + size)
  {
    ghost var was := buffer[..];
    ok, strpos', bufpos' := true, strpos, bufpos;
    if strpos + |s| > offset {
      var from := if offset > strpos then offset - strpos else 0;
      var n := Snprintf(buffer, bufpos, size - bufpos + 1, s[from..]);
      bufpos' := bufpos + n;
      assert PieceOf(|text|, s, offset, size, bufpos) == s[from..][..Min(n, size - bufpos)];
      FilledMore(text, s, offset, size, was, bufpos, buffer[..], PieceOf(|text|, s, offset, size, bufpos));
      if (atEnd && bufpos' >= size) || bufpos' > size {
        return false, strpos, bufpos';
      }
    } else {
      FilledMore(text, s, offset, size, was, bufpos, buffer[..], []);
    }
    strpos' := strpos + |s|;
  }

  lemma {:induction false} LinksPrefix(rs: seq<Resource>, k: nat, n: nat)
    requires k <= n <= |rs|
    ensures LinksUpTo(rs, k) <= LinksUpTo(rs, n)
    decreases n - k
  {
    hide Link;
    if k < n {
      LinksPrefix(rs, k, n - 1);
    }
  }

  /** A window that a prefix of the document fills is the document's. */
  lemma PrefixFills(text: seq<byte>, doc: seq<byte>, offset: nat, size: nat)
    requires text <= doc && |text| >= offset + size
    ensures Window(text, offset, size) == Window(doc, offset, size)
    ensures size > 0 ==> |Window(doc, offset, size)| == size
  {
    if size > 0 {
      assert text[offset..offset + size] == doc[offset..offset + size];
    }
  }

  /** The text of a link up to its url. */
  function Opening(rs: seq<Resource>, i: nat): seq<byte>
    requires i < |rs|
  {
    LinksUpTo(rs, i) + (if i > 0 then [COMMA] else []) + [LESS] + [SLASH] + rs[i].url
  }

  lemma LinkText(rs: seq<Resource>, i: nat)
    requires i < |rs|
    ensures LinksUpTo(rs, i + 1) == Opening(rs, i) + [GREATER] + (if rs[i].attributes == [] then [] else [SEMICOLON] + rs[i].attributes)
  {
    Reassociate(LinksUpTo(rs, i), if i > 0 then [COMMA] else [], rs[i].url, if rs[i].attributes == [] then [] else [SEMICOLON] + rs[i].attributes);
  }

  lemma Reassociate(a: seq<byte>, b: seq<byte>, c: seq<byte>, d: seq<byte>)
    ensures a + b + ([LESS, SLASH] + c + [GREATER] + d) == (a + b + [LESS] + [SLASH] + c) + [GREATER] + d
  {
    assert [LESS, SLASH] == [LESS] + [SLASH];
    Associate(a + b, [LESS], [SLASH]);
    Associate(a + b, [LESS] + [SLASH], c);
    Associate(a + b, [LESS] + [SLASH] + c, [GREATER]);
    Associate(a + b, [LESS] + [SLASH] + c + [GREATER], d);
  }

  lemma Associate(a: seq<byte>, b: seq<byte>, c: seq<byte>)
    ensures a + (b + c) == (a + b) + c
  {
  }

  /** Full: some text that the document goes on from fills the window. */
  ghost predicate Full(doc: seq<byte>, offset: nat, size: nat, buffer: seq<byte>, bufpos: nat) {
    bufpos >= size && |doc| > offset + size && Filled(doc, offset, size, buffer, size)
  }

  lemma FullFrom(text: seq<byte>, doc: seq<byte>, offset: nat, size: nat, buffer: seq<byte>, bufpos: nat)
    requires text <= doc && |text| >= offset + size && |doc| > offset + size && size > 0
    requires bufpos >= size && Filled(text, offset, size, buffer, size)
    ensures Full(doc, offset, size, buffer, bufpos)
  {
    PrefixFills(text, doc, offset, size);
  }

  /** The body of the loop over the resources. */
  method AddLink(rs: seq<Resource>, i: nat, offset: nat, size: nat, buffer: array<byte>, start: nat, from: nat)
    returns (ok: bool, strpos: nat, bufpos: nat)
    requires i < |rs| && 0 < size < buffer.Length && start == |LinksUpTo(rs, i)| && from <= size
    requires Filled(LinksUpTo(rs, i), offset, size, buffer[..], from)
    modifies buffer
    ensures ok ==> strpos == |LinksUpTo(rs, i + 1)| <= offset + size && bufpos <= size && Filled(LinksUpTo(rs, i + 1), offset, size, buffer[..], bufpos)
    ensures !ok ==> Full(Document(rs), offset, size, buffer[..], bufpos)
  {
    LinkText(rs, i);
    LinksPrefix(rs, i + 1, |rs|);
    hide Filled, Link, Window, LinksUpTo;
    ghost var text := LinksUpTo(rs, i);
    strpos, bufpos := start, from;
    if strpos > 0 {
      strpos, bufpos := AddChar(COMMA, text, offset, size, buffer, strpos, bufpos);
      text := text + [COMMA];
    }
    strpos, bufpos := AddChar(LESS, text, offset, size, buffer, strpos, bufpos);
    strpos, bufpos := AddChar(SLASH, text + [LESS], offset, size, buffer, strpos, bufpos);
    text := text + [LESS] + [SLASH];
    ok, strpos, bufpos := AddString(rs[i].url, true, text, offset, size, buffer, strpos, bufpos);
    text := text + rs[i].url;
    if !ok {
      FullFrom(text, Document(rs), offset, size, buffer[..], bufpos);
      return;
    }
    ok, strpos, bufpos := AddAttributes(rs, i, text, offset, size, buffer, strpos, bufpos);
  }

  /** The end of the loop body. */
  method AddAttributes(rs: seq<Resource>, i: nat, ghost opening: seq<byte>, offset: nat, size: nat, buffer: array<byte>, start: nat, from: nat)
    returns (ok: bool, strpos: nat, bufpos: nat)
    requires i < |rs| && 0 < size < buffer.Length && opening == Opening(rs, i) && start == |opening| < offset + size && from <= size
    requires Filled(opening, offset, size, buffer[..], from)
    modifies buffer
    ensures ok ==> strpos == |LinksUpTo(rs, i + 1)| <= offset + size && bufpos <= size && Filled(LinksUpTo(rs, i + 1), offset, size, buffer[..], bufpos)
    ensures !ok ==> Full(Document(rs), offset, size, buffer[..], bufpos)
  {
    LinkText(rs, i);
    LinksPrefix(rs, i + 1, |rs|);
    hide Filled, Link, Window, LinksUpTo, Opening;
    ghost var text := opening + [GREATER];
    ok := true;
    strpos, bufpos := AddChar(GREATER, opening, offset, size, buffer, start, from);
    if rs[i].attributes != [] {
      strpos, bufpos := AddChar(SEMICOLON, text, offset, size, buffer, strpos, bufpos);
      text := text + [SEMICOLON];
      ok, strpos, bufpos := AddString(rs[i].attributes, false, text, offset, size, buffer, strpos, bufpos);
      text := text + rs[i].attributes;
      assert text == LinksUpTo(rs, i + 1);
      if !ok {
        FullFrom(text, Document(rs), offset, size, buffer[..], bufpos);
      }
    }
  }

  lemma FilledNothing(offset: nat, size: nat, buffer: seq<byte>)
    ensures Filled([], offset, size, buffer, 0)
  {
  }

  lemma FilledLength(text: seq<byte>, offset: nat, size: nat, buffer: seq<byte>, n: nat)
    requires Filled(text, offset, size, buffer, n)
    ensures n == if offset >= |text| then 0 else Min(size, |text| - offset)
  {
  }

  /** What the handler answers: how much is in the buffer, whether the request was out of
      scope, and the next offset. */
  datatype Answer = Answer(bufpos: nat, outOfScope: bool, offset: int)

  /** well_known_core_get_handler: the window of the document at the offset, with offset -1 on
      the window that reaches the end, and an error exactly beyond the end. */
  method GetHandler(rs: seq<Resource>, offset: nat, size: nat, buffer: array<byte>) returns (a: Answer)
    requires 0 < size < buffer.Length
    modifies buffer
    ensures Filled(Document(rs), offset, size, buffer[..], Min(a.bufpos, size))
    ensures a.offset == if offset + size < |Document(rs)| then offset + size else -1
    ensures a.outOfScope <==> 0 < |Document(rs)| <= offset
    ensures a.bufpos > size ==> a.offset != -1
  {
    hide Filled;
    FilledNothing(offset, size, buffer[..]);
    var strpos: nat, bufpos: nat, i: nat := 0, 0, 0;
    var broke := false;
    while i < |rs|
      invariant i <= |rs| && strpos == |LinksUpTo(rs, i)| <= offset + size && bufpos <= size
      invariant Filled(LinksUpTo(rs, i), offset, size, buffer[..], bufpos)
    {
      var ok;
      ok, strpos, bufpos := AddLink(rs, i, offset, size, buffer, strpos, bufpos);
      if !ok {
        broke := true;
        break;
      }
      // The test behind the macros in the original, bufpos > preferred_size, never holds here.
      assert bufpos <= size;
      i := i + 1;
    }
    FilledLength(Document(rs), offset, size, buffer[..], Min(bufpos, size));
    a := Answer(bufpos, bufpos == 0 && strpos > 0, if broke then offset + size else -1);
  }
}
