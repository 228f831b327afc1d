/** One node of the Deluge code dissemination protocol (apps/deluge/deluge.c): the object
    being disseminated and the handlers that change it. */
module Deluge {

  import opened Bytes

  const S_PKT: nat := 64
  const N_PKT: nat := 4
  const S_PAGE: nat := 256
  const CONST_LAMBDA: nat := 2

  // sizes of the message structures; the last one is the fixed part of a profile
  const SUMMARY_SIZE: nat := 4
  const REQUEST_SIZE: nat := 5
  const PACKET_SIZE: nat := 72
  const PROFILE_HEADER: nat := 4

  /** Packet bitmaps are sets of bit numbers; a page has four packets. */
  const ALL_PACKETS: set<nat> := {0, 1, 2, 3}

  /** The bits of a uint8_t, the width of a request. */
  const EIGHT_BITS: set<nat> := {0, 1, 2, 3, 4, 5, 6, 7}

  datatype Mode = Maintain | Rx | Tx

  datatype Page = Page(version: byte, packetSet: set<nat>, complete: bool)

  datatype Message =
    | Summary(version: byte, highest: nat)
    | Request(version: byte, pagenum: nat, requestSet: set<nat>)
    | Packet(version: byte, pagenum: nat, packetnum: nat, crc: uint16, payload: seq<byte>)
    | Profile(version: byte, vector: seq<byte>)

  /** The abstract value of a node: its object, its file, and which timers are running. */
  datatype NodeState = NodeState(
    version: byte, updateVersion: byte, pages: seq<Page>, rxPage: nat,
    txPage: int, txSet: set<nat>, buffer: seq<byte>, file: seq<byte>,
    mode: Mode, rxArmed: bool, txArmed: bool, nrequests: nat)

  // ----- Pages and packets of an image -----

  predicate Sized(file: seq<byte>, npages: nat) {
    |file| == npages * S_PAGE
  }

  function PageOf(file: seq<byte>, p: nat): (page: seq<byte>)
    requires (p + 1) * S_PAGE <= |file|
    ensures |page| == S_PAGE
  {
    file[p * S_PAGE..(p + 1) * S_PAGE]
  }

  function PacketOf(page: seq<byte>, k: nat): (packet: seq<byte>)
    requires |page| == S_PAGE && k < N_PKT
    ensures |packet| == S_PKT
  {
    page[k * S_PKT..(k + 1) * S_PKT]
  }

  lemma WrittenPage(file: seq<byte>, p: nat, page: seq<byte>, q: nat)
    requires |page| == S_PAGE && (p + 1) * S_PAGE <= |file| && (q + 1) * S_PAGE <= |file|
    ensures PageOf(Overwrite(file, p * S_PAGE, page), q) == if q == p then page else PageOf(file, q)
  {
  }

  lemma WrittenPacket(page: seq<byte>, k: nat, packet: seq<byte>, j: nat)
    requires |page| == S_PAGE && |packet| == S_PKT && k < N_PKT && j < N_PKT
    ensures PacketOf(Overwrite(page, k * S_PKT, packet), j) == if j == k then packet else PacketOf(page, j)
  {
  }

  /** Two images of whole pages with the same pages are the same. */
  lemma SamePages(a: seq<byte>, b: seq<byte>, npages: nat)
    requires Sized(a, npages) && Sized(b, npages)
    requires forall p: nat :: p < npages ==> PageOf(a, p) == PageOf(b, p)
    ensures a == b
  {
    forall i | 0 <= i < |a|
      ensures a[i] == b[i]
    {
      var p: nat := i / S_PAGE;
      assert PageOf(a, p)[i % S_PAGE] == a[i];
      assert PageOf(b, p)[i % S_PAGE] == b[i];
    }
  }

  lemma SamePackets(a: seq<byte>, b: seq<byte>)
    requires |a| == |b| == S_PAGE
    requires forall k: nat :: k < N_PKT ==> PacketOf(a, k) == PacketOf(b, k)
    ensures a == b
  {
    forall i | 0 <= i < |a|
      ensures a[i] == b[i]
    {
      var k: nat := i / S_PKT;
      assert PacketOf(a, k)[i % S_PKT] == a[i];
      assert PacketOf(b, k)[i % S_PKT] == b[i];
    }
  }

  // ----- What the handlers do -----

  /** Number of pages before the first incomplete one. */
  function HighestAvailable(pages: seq<Page>): (h: nat)
    ensures h <= |pages|
    ensures forall i :: 0 <= i < h ==> pages[i].complete
    ensures h < |pages| ==> !pages[h].complete
  {
    if pages == [] || !pages[0].complete then 0 else 1 + HighestAvailable(pages[1..])
  }

  /** Leaving a state stops the timer that belongs to it. */
  function Transition(n: NodeState, mode: Mode): NodeState {
    if mode == n.mode then n
    else n.(mode := mode, rxArmed := n.rxArmed && n.mode != Rx, txArmed := n.txArmed && n.mode != Tx)
  }

  /** A uint8_t stored in an int8_t. */
  function Int8(x: byte): int {
    if x < 128 then x else x - 256
  }

  predicate Fits(n: NodeState) {
    && |n.pages| <= 255
    && |n.buffer| == S_PAGE
    && Sized(n.file, |n.pages|)
  }

  /** handle_summary.  `recent` says that requests or data for the page were heard lately. */
  function OnSummary(n: NodeState, version: byte, highest: nat, recent: bool): NodeState {
    if version == n.updateVersion && HighestAvailable(n.pages) < highest <= |n.pages| && !recent
    then Transition(n, Rx).(rxArmed := true)
    else n
  }

  /** handle_request */
  function OnRequest(n: NodeState, version: byte, pagenum: nat, requestSet: set<nat>): NodeState
    requires Fits(n)
  {
    if pagenum < |n.pages| && version == n.version && pagenum <= HighestAvailable(n.pages) then
      var n' := if pagenum == n.txPage then n.(txSet := n.txSet + requestSet)
                else n.(txPage := Int8(pagenum), txSet := requestSet);
      Transition(n', Tx).(txArmed := true)
    else n
  }

  /** handle_packet */
  function OnPacket(n: NodeState, checksum: seq<byte> -> uint16, m: Message): NodeState
    requires Fits(n) && m.Packet? && m.pagenum < |n.pages| && m.packetnum < N_PKT && |m.payload| == S_PKT
  {
    var page := n.pages[m.pagenum];
    if m.pagenum != n.rxPage || m.version != page.version || page.complete then n
    else
      var buffer := Overwrite(n.buffer, S_PKT * m.packetnum, m.payload);
      if m.crc != checksum(m.payload) then n.(buffer := buffer)
      else
        var packets := page.packetSet + {m.packetnum};
        if packets != ALL_PACKETS then
          n.(buffer := buffer, pages := n.pages[m.pagenum := page.(packetSet := packets)])
        else
          var n' := n.(buffer := buffer, file := Overwrite(n.file, m.pagenum * S_PAGE, buffer),
                       pages := n.pages[m.pagenum := Page(m.version, packets, true)], rxPage := n.rxPage + 1);
          Transition(
            if m.pagenum == |n.pages| - 1 then n'.(version := n.updateVersion) else n'.(rxArmed := true), Maintain)
  }

  function Outdated(page: Page, version: byte): Page {
    if version > page.version then Page(version, {}, false) else page
  }

  function Refreshed(pages: seq<Page>, vector: seq<byte>): seq<Page>
    requires |vector| == |pages|
  {
    seq(|pages|, i requires 0 <= i < |pages| => Outdated(pages[i], vector[i]))
  }

  /** handle_profile, for an object of unchanged page count.  `memory` says that the new page
      table could be allocated. */
  function OnProfile(n: NodeState, version: byte, vector: seq<byte>, memory: bool): NodeState
    requires |vector| == |n.pages|
  {
    if version <= n.updateVersion then n
    else if !memory then n.(txSet := {})
    else
      var pages := Refreshed(n.pages, vector);
      Transition(n.(txSet := {}, pages := pages, rxPage := HighestAvailable(pages), updateVersion := version), Rx)
        .(rxArmed := true)
  }

  /** send_request: what the receive timer does to the node. */
  function AfterRequest(n: NodeState): NodeState {
    if n.nrequests + 1 == CONST_LAMBDA
    then Transition(n.(nrequests := 0, rxArmed := false), Maintain)
    else n.(nrequests := n.nrequests + 1, rxArmed := true)
  }

  /** Packet `k` of the page being sent. */
  function PagePacket(n: NodeState, checksum: seq<byte> -> uint16, k: nat): Message
    requires Fits(n) && 0 <= n.txPage < |n.pages| && k < N_PKT
  {
    var payload := PacketOf(PageOf(n.file, n.txPage), k);
    Packet(n.pages[n.txPage].version, n.txPage, k, checksum(payload), payload)
  }

  /** The packets that send_page broadcasts, numbered from `k` on. */
  function PagePackets(n: NodeState, checksum: seq<byte> -> uint16, k: nat): seq<Message>
    requires Fits(n) && 0 <= n.txPage < |n.pages| && k <= N_PKT
    decreases N_PKT - k
  {
    if k == N_PKT then []
    else (if k in n.txSet then [PagePacket(n, checksum, k)] else []) + PagePackets(n, checksum, k + 1)
  }

  lemma PagePacketsStep(n: NodeState, checksum: seq<byte> -> uint16, k: nat, ms: seq<Message>)
    requires Fits(n) && 0 <= n.txPage < |n.pages| && k <= N_PKT
    ensures k == N_PKT ==> ms + PagePackets(n, checksum, k) == ms
    ensures k < N_PKT ==>
      ms + PagePackets(n, checksum, k) ==
      (if k in n.txSet then ms + [PagePacket(n, checksum, k)] else ms) + PagePackets(n, checksum, k + 1)
  {
    hide PagePacket, Fits;
  }

  /** Exactly the requested packets of the page go out. */
  lemma {:induction false} PagePacketsExact(n: NodeState, checksum: seq<byte> -> uint16, k: nat, m: Message)
    requires Fits(n) && 0 <= n.txPage < |n.pages| && k <= N_PKT
    ensures m in PagePackets(n, checksum, k) <==>
            exists j: nat :: k <= j < N_PKT && j in n.txSet && m == PagePacket(n, checksum, j)
    decreases N_PKT - k
  {
    hide PagePacket;
    if k < N_PKT {
      PagePacketsExact(n, checksum, k + 1, m);
    }
  }

  predicate Serving(n: NodeState) {
    n.txPage >= 0 && n.txSet != {}
  }

  /** tx_callback: what the transmit timer does to the node. */
  function AfterSending(n: NodeState): NodeState {
    if Serving(n) then Transition(n.(txSet := {}, txPage := -1, txArmed := false), Maintain)
    else n.(txArmed := false)
  }

  function VersionVector(pages: seq<Page>): seq<byte> {
    seq(|pages|, i requires 0 <= i < |pages| => pages[i].version)
  }

  // ----- Messages -----

  predicate Receivable(n: NodeState, m: Message) {
    Fits(n) && match m
      case Summary(_, _) => true
      case Request(_, _, _) => true
      case Packet(_, pagenum, packetnum, _, payload) => pagenum < |n.pages| && packetnum < N_PKT && |payload| == S_PKT
      case Profile(_, vector) => |vector| == |n.pages| > 0
  }

  /** The length of a message on the air. */
  function SizeOf(m: Message): nat {
    match m
    case Summary(_, _) => SUMMARY_SIZE
    case Request(_, _, _) => REQUEST_SIZE
    case Packet(_, _, _, _, _) => PACKET_SIZE
    case Profile(_, vector) => PROFILE_HEADER + |vector|
  }

  /** The length test of command_dispatcher for `len` bytes.  A profile is `npages` bytes longer
      than its header, but the dispatcher asks for `npages * version_vector[0]`. */
  predicate LongEnough(m: Message, len: nat)
    requires m.Profile? ==> |m.vector| > 0
  {
    match m
    case Profile(_, vector) => len >= PROFILE_HEADER + |vector| * vector[0]
    case _ => len >= SizeOf(m)
  }

  /** command_dispatcher, when `len` bytes of the message have arrived */
  function Receive(n: NodeState, checksum: seq<byte> -> uint16, m: Message, len: nat, recent: bool, memory: bool): NodeState
    requires Receivable(n, m)
  {
    if !LongEnough(m, len) then n
    else
      match m
      case Summary(version, highest) => OnSummary(n, version, highest, recent)
      case Request(version, pagenum, requestSet) => OnRequest(n, version, pagenum, requestSet)
      case Packet(_, _, _, _, _) => OnPacket(n, checksum, m)
      case Profile(version, vector) => OnProfile(n, version, vector, memory)
  }

  // ----- What a node hears and sends, over any time -----

  /** What happens to a node until its transmit timer fires. */
  datatype Happening =
    | Heard(m: Message, len: nat, recent: bool, memory: bool)
    | RequestTimer

  predicate Possible(n: NodeState, e: Happening) {
    Fits(n) && (e.Heard? ==> Receivable(n, e.m))
  }

  function Reaction(n: NodeState, checksum: seq<byte> -> uint16, e: Happening): NodeState
    requires Possible(n, e)
  {
    match e
    case Heard(m, len, recent, memory) => Receive(n, checksum, m, len, recent, memory)
    case RequestTimer => AfterRequest(n)
  }

  ghost predicate Lives(checksum: seq<byte> -> uint16, states: seq<NodeState>, events: seq<Happening>) {
    && |states| == |events| + 1
    && forall i :: 0 <= i < |events| ==> Possible(states[i], events[i]) && states[i + 1] == Reaction(states[i], checksum, events[i])
  }

  /** A request that has arrived whole, for the node's own version and a page with all pages
      before it complete. */
  ghost predicate Accepts(n: NodeState, e: Happening, page: nat) {
    && e.Heard? && e.m.Request? && e.len >= 5 && e.m.pagenum == page < |n.pages| && e.m.version == n.version
    && forall i :: 0 <= i < page ==> n.pages[i].complete
  }

  /** A profile of a newer version that is taken for long enough. */
  ghost predicate Renews(n: NodeState, e: Happening) {
    e.Heard? && e.m.Profile? && Receivable(n, e.m) && LongEnough(e.m, e.len) && e.m.version > n.updateVersion
  }

  lemma AcceptsIf(n: NodeState, e: Happening)
    requires Possible(n, e) && e.Heard? && e.m.Request?
    ensures Accepts(n, e, e.m.pagenum) <==>
      e.len >= REQUEST_SIZE && e.m.pagenum < |n.pages| && e.m.version == n.version && e.m.pagenum <= HighestAvailable(n.pages)
  {
  }

  /** What one event does to the page and the packets that wait to be sent. */
  lemma PendingAfter(n: NodeState, checksum: seq<byte> -> uint16, e: Happening)
    requires Possible(n, e)
    ensures var n' := Reaction(n, checksum, e);
      && (forall p: nat :: Accepts(n, e, p) && p == n.txPage ==> n'.txPage == n.txPage && n'.txSet == n.txSet + e.m.requestSet)
      && (forall p: nat :: Accepts(n, e, p) && p != n.txPage ==> n'.txPage == (if p < 128 then p else p - 256) && n'.txSet == e.m.requestSet)
      && (forall p: nat :: Accepts(n, e, p) ==> n'.txArmed && n'.mode == Tx)
      && (Renews(n, e) ==> n'.txPage == n.txPage && n'.txSet == {})
      && ((forall p: nat :: !Accepts(n, e, p)) && !Renews(n, e) ==> n'.txPage == n.txPage && n'.txSet == n.txSet)
  {
    if e.Heard? && e.m.Request? {
      AcceptsIf(n, e);
    }
  }

  ghost predicate AsksFor(n: NodeState, e: Happening, page: nat, k: nat) {
    Accepts(n, e, page) && k in e.m.requestSet
  }

  /** Packet `k` was asked for by a request for the page that the node has accepted. */
  ghost predicate Asked(states: seq<NodeState>, events: seq<Happening>, page: nat, k: nat) {
    exists i :: 0 <= i < |events| && i < |states| && AsksFor(states[i], events[i], page, k)
  }

  /** The node has accepted no request for another page, and no newer profile. */
  ghost predicate KeepsTo(states: seq<NodeState>, events: seq<Happening>, page: nat) {
    forall i :: 0 <= i < |events| && i < |states| ==>
      !Renews(states[i], events[i]) && forall p: nat :: Accepts(states[i], events[i], p) ==> p == page
  }

  lemma {:induction false} PendingIs(checksum: seq<byte> -> uint16, states: seq<NodeState>, events: seq<Happening>, page: nat)
    requires Lives(checksum, states, events) && states[0].txPage == page && KeepsTo(states, events, page)
    ensures states[|events|].txPage == page
    ensures forall k: nat :: k in states[|events|].txSet <==> k in states[0].txSet || Asked(states, events, page, k)
    decreases |events|
  {
    hide Reaction, Possible, Accepts, Renews, AsksFor;
    var n := |events|;
    if n > 0 {
      var before, done := states[..n], events[..n - 1];
      PendingIs(checksum, before, done, page);
      PendingStep(states[n - 1], checksum, events[n - 1], page);
      forall k: nat
        ensures Asked(states, events, page, k) <==> Asked(before, done, page, k) || AsksFor(states[n - 1], events[n - 1], page, k)
      {
        AskedLater(states, events, page, k);
      }
    }
  }

  lemma PendingStep(n: NodeState, checksum: seq<byte> -> uint16, e: Happening, page: nat)
    requires Possible(n, e) && n.txPage == page && !Renews(n, e) && forall p: nat :: Accepts(n, e, p) ==> p == page
    ensures var n' := Reaction(n, checksum, e);
      n'.txPage == page && forall k: nat :: k in n'.txSet <==> k in n.txSet || AsksFor(n, e, page, k)
  {
    PendingAfter(n, checksum, e);
    hide Reaction;
  }

  lemma AskedLater(states: seq<NodeState>, events: seq<Happening>, page: nat, k: nat)
    requires |states| == |events| + 1 > 1
    ensures var n := |events|;
      Asked(states, events, page, k) <==> Asked(states[..n], events[..n - 1], page, k) || AsksFor(states[n - 1], events[n - 1], page, k)
  {
    hide AsksFor;
    var n := |events|;
    var before, done := states[..n], events[..n - 1];
    if Asked(before, done, page, k) {
      var i :| 0 <= i < |done| && i < |before| && AsksFor(before[i], done[i], page, k);
      assert AsksFor(states[i], events[i], page, k);
    }
    if Asked(states, events, page, k) {
      var i :| 0 <= i < |events| && i < |states| && AsksFor(states[i], events[i], page, k);
      if i < n - 1 {
        assert AsksFor(before[i], done[i], page, k);
      }
    }
  }

  /** Section 3.3 of the Deluge design, rules T.1 and T.2: a node that has been sending a page,
      or has accepted a request for it, sends packet `k` of it when its transmit timer fires if
      and only if that packet was still pending or one of the requests accepted since asks for
      it.  The page may not be one whose number a signed byte cannot hold. */
  lemma SendsWhatWasAsked(checksum: seq<byte> -> uint16, states: seq<NodeState>, events: seq<Happening>, page: nat, k: nat)
    requires Lives(checksum, states, events) && states[0].txPage == page && KeepsTo(states, events, page) && k < 4
    requires Fits(states[|events|]) && page < |states[|events|].pages|
    ensures var n := states[|events|];
      var start := page * 256 + k * 64;
      && start + 64 <= |n.file| && n.txPage == page
      && (k in states[0].txSet || Asked(states, events, page, k) <==>
          Serving(n) && Packet(n.pages[page].version, page, k, checksum(n.file[start..start + 64]), n.file[start..start + 64]) in PagePackets(n, checksum, 0))
  {
    PendingIs(checksum, states, events, page);
    var n := states[|events|];
    PacketBytes(n.file, page, k);
    var m := PagePacket(n, checksum, k);
    PagePacketsExact(n, checksum, 0, m);
    forall j: nat | j < N_PKT && m == PagePacket(n, checksum, j)
      ensures j == k
    {
      assert m.packetnum == k;
    }
    hide Lives, KeepsTo, Asked, PagePackets;
  }

  lemma PacketBytes(file: seq<byte>, page: nat, k: nat)
    requires (page + 1) * S_PAGE <= |file| && k < N_PKT
    ensures page * 256 + k * 64 + 64 <= |file| && PacketOf(PageOf(file, page), k) == file[page * 256 + k * 64..page * 256 + k * 64 + 64]
  {
    SliceOfSlice(file, page * S_PAGE, (page + 1) * S_PAGE, k * S_PKT, (k + 1) * S_PKT);
  }

  lemma SliceOfSlice(s: seq<byte>, a: nat, b: nat, c: nat, d: nat)
    requires a <= b <= |s| && c <= d <= b - a
    ensures s[a..b][c..d] == s[a + c..a + d]
  {
    forall i | 0 <= i < d - c
      ensures s[a..b][c..d][i] == s[a + c..a + d][i]
    {
      assert s[a..b][c + i] == s[a + c + i];
    }
  }

  // ----- When a node asks, and how often -----

  /** A summary makes the node ask if and only if it is of the version the node is fetching,
      offers a page that the node does not have, is not impossible, and nothing was heard
      lately; otherwise it changes nothing here. */
  lemma SummaryAsks(n: NodeState, version: byte, highest: nat, recent: bool)
    ensures var n' := OnSummary(n, version, highest, recent);
      var offers := version == n.updateVersion && highest <= |n.pages| && !recent && exists p :: 0 <= p < highest && !n.pages[p].complete;
      && (offers ==> n' == n.(mode := Rx, rxArmed := true, txArmed := n.txArmed && n.mode != Tx))
      && (!offers ==> n' == n)
  {
  }

  /** Rule R.2: a node sends at most two requests in a row, and then goes back to maintaining
      with its receive timer stopped. */
  lemma AsksTwice(n: NodeState)
    requires n.nrequests == 0
    ensures var once := AfterRequest(n); var twice := AfterRequest(once);
      && once == n.(nrequests := 1, rxArmed := true)
      && twice == n.(mode := Maintain, rxArmed := false, txArmed := n.txArmed && n.mode != Tx)
  {
  }

  /** A packet with a wrong checksum completes nothing; only a packet of the page that is being
      fetched, and of its version, is stored, and only that packet's bytes and bit change. */
  lemma PacketStored(n: NodeState, checksum: seq<byte> -> uint16, m: Message, i: nat, p: nat, k: nat)
    requires Fits(n) && m.Packet? && m.pagenum < |n.pages| && m.packetnum < N_PKT && |m.payload| == S_PKT
    requires i < S_PAGE && p < |n.pages|
    ensures var n' := OnPacket(n, checksum, m);
      var wanted := m.pagenum == n.rxPage && m.version == n.pages[m.pagenum].version && !n.pages[m.pagenum].complete;
      && |n'.buffer| == S_PAGE && |n'.pages| == |n.pages| && |n'.file| == |n.file|
      && n'.buffer[i] == (if wanted && m.packetnum * 64 <= i < m.packetnum * 64 + 64 then m.payload[i - m.packetnum * 64] else n.buffer[i])
      && (k in n'.pages[p].packetSet <==>
            k in n.pages[p].packetSet || (wanted && m.crc == checksum(m.payload) && p == m.pagenum && k == m.packetnum))
      && (n'.pages[p].complete <==>
            n.pages[p].complete || (wanted && m.crc == checksum(m.payload) && p == m.pagenum && n'.pages[p].packetSet == {0, 1, 2, 3}))
      && n'.pages[p].version == n.pages[p].version
      && (n'.rxPage != n.rxPage <==> n'.pages[m.pagenum].complete && !n.pages[m.pagenum].complete)
      && (n'.version != n.version ==> n'.version == n.updateVersion && n'.rxPage == n.rxPage + 1 == |n.pages|)
      && n'.updateVersion == n.updateVersion && n'.txPage == n.txPage && n'.txSet == n.txSet && n'.nrequests == n.nrequests
  {
  }

  /** A profile of a newer version makes exactly the pages outdated whose version it raises. */
  lemma ProfileRenews(n: NodeState, version: byte, vector: seq<byte>, p: nat)
    requires |vector| == |n.pages| && p < |n.pages|
    ensures var n' := OnProfile(n, version, vector, true);
      && |n'.pages| == |n.pages|
      && (version > n.updateVersion && vector[p] > n.pages[p].version ==> n'.pages[p] == Page(vector[p], {}, false))
      && (version <= n.updateVersion || vector[p] <= n.pages[p].version ==> n'.pages[p] == n.pages[p])
      && n'.updateVersion == (if version > n.updateVersion then version else n.updateVersion)
      && (version > n.updateVersion ==>
            && n'.mode == Rx && n'.rxArmed && n'.txSet == {} && !(n'.txArmed && n.mode == Tx)
            && n'.rxPage <= |n.pages| && (forall i :: 0 <= i < n'.rxPage ==> n'.pages[i].complete)
            && (n'.rxPage < |n.pages| ==> !n'.pages[n'.rxPage].complete))
      && n'.version == n.version && n'.file == n.file && n'.buffer == n.buffer && n'.nrequests == n.nrequests
      && OnProfile(n, version, vector, false) == if version > n.updateVersion then n.(txSet := {}) else n
  {
  }

  /** Leaving a state stops its timer, whatever made the node leave it; so the transmit timer
      runs in the transmit state only. */
  lemma TimersStop(n: NodeState, checksum: seq<byte> -> uint16, e: Happening)
    requires Possible(n, e)
    ensures var n' := Reaction(n, checksum, e);
      && (n.mode == Rx && n'.mode != Rx ==> !n'.rxArmed)
      && (n.mode == Tx && n'.mode != Tx ==> !n'.txArmed)
      && (n'.mode == n.mode && n.txArmed ==> n'.txArmed)
      && ((n.txArmed ==> n.mode == Tx) ==> (n'.txArmed ==> n'.mode == Tx))
      && (AfterSending(n).mode != n.mode ==> Serving(n) && AfterSending(n).mode == Maintain)
      && (Serving(n) ==> AfterSending(n).txSet == {} && AfterSending(n).txPage == -1)
      && !AfterSending(n).txArmed
  {
    hide HighestAvailable, Refreshed, Overwrite;
  }

  // ----- The node -----

  class Node {
    const checksum: seq<byte> -> uint16
    const file: array<byte>
    const buffer: array<byte>
    var pages: array<Page>
    var version: byte
    var updateVersion: byte
    var rxPage: nat
    var txPage: int
    var txSet: set<nat>
    var mode: Mode
    var rxArmed: bool
    var txArmed: bool
    var nrequests: nat

    ghost function State(): NodeState
      reads this, file, buffer, pages
    {
      NodeState(version, updateVersion, pages[..], rxPage, txPage, txSet, buffer[..], file[..],
                mode, rxArmed, txArmed, nrequests)
    }

    ghost predicate Valid()
      reads this, file, buffer, pages
    {
      Fits(State()) && file != buffer
    }

    /** init_object: a node that holds every page of its file at the given version. */
    constructor (checksum: seq<byte> -> uint16, file: array<byte>, npages: nat, version: byte)
      requires npages <= 255 && file.Length == npages * S_PAGE
      ensures Valid() && this.file == file && this.checksum == checksum
      ensures State().version == State().updateVersion == version
      ensures State().file == file[..] && |State().pages| == npages
      ensures forall i :: 0 <= i < npages ==> State().pages[i] == Page(version, ALL_PACKETS, true)
      ensures State().rxPage == 0 && State().txPage == 0 && State().txSet == {} && !State().rxArmed && !State().txArmed
      ensures State().mode == Maintain && State().nrequests == 0
      ensures fresh(pages) && fresh(buffer)
    {
      this.checksum, this.file := checksum, file;
      this.version, updateVersion := version, version;
      rxPage, txPage, txSet, nrequests := 0, 0, {}, 0;
      mode, rxArmed, txArmed := Maintain, false, false;
      pages := new Page[npages](_ => Page(version, ALL_PACKETS, true));
      buffer := new byte[S_PAGE](_ => 0);
    }

    method FindHighestAvailable() returns (i: nat)
      requires Valid()
      ensures i == HighestAvailable(pages[..])
    {
      i := 0;
      while i < pages.Length
        invariant i <= pages.Length
        invariant forall j :: 0 <= j < i ==> pages[j].complete
      {
        if !pages[i].complete {
          break;
        }
        i := i + 1;
      }
    }

    method MoveTo(mode: Mode)
      modifies this`mode, this`rxArmed, this`txArmed
      ensures State() == Transition(old(State()), mode)
    {
      if mode != this.mode {
        match this.mode {
          case Maintain =>
          case Rx => rxArmed := false;
          case Tx => txArmed := false;
        }
        this.mode := mode;
      }
    }

    method HandleSummary(version: byte, highest: nat, recent: bool)
      requires Valid()
      modifies this`mode, this`rxArmed, this`txArmed
      ensures Valid()
      ensures State() == OnSummary(old(State()), version, highest, recent)
    {
      var available := FindHighestAvailable();
      if version == updateVersion && highest > available {
        if highest > pages.Length {
          return;
        }
        if recent {
          return;
        }
        MoveTo(Rx);
        if !rxArmed {
          rxArmed := true;
        }
      }
    }

    method HandleRequest(version: byte, pagenum: nat, requestSet: set<nat>)
      requires Valid()
      modifies this`txPage, this`txSet, this`mode, this`rxArmed, this`txArmed
      ensures Valid()
      ensures State() == OnRequest(old(State()), version, pagenum, requestSet)
    {
      if pagenum >= pages.Length {
        return;
      }
      var available := FindHighestAvailable();
      if version == this.version && pagenum <= available {
        if pagenum == txPage {
          txSet := txSet + requestSet;
        } else {
          txPage := Int8(pagenum);
          txSet := requestSet;
        }
        MoveTo(Tx);
        txArmed := true;
      }
    }

    method HandlePacket(m: Message)
      requires Valid() && m.Packet? && m.pagenum < pages.Length && m.packetnum < N_PKT && |m.payload| == S_PKT
      modifies this, file, buffer, pages
      ensures Valid() && pages == old(pages)
      ensures State() == OnPacket(old(State()), checksum, m)
    {
      if m.pagenum != rxPage {
        return;
      }
      var page := pages[m.pagenum];
      if m.version == page.version && !page.complete {
        CopyInto(buffer, S_PKT * m.packetnum, m.payload);
        if m.crc != checksum(m.payload) {
          return;
        }
        pages[m.pagenum] := page.(packetSet := page.packetSet + {m.packetnum});
        if pages[m.pagenum].packetSet == ALL_PACKETS {
          CompletePage(m);
        }
      }
    }

    /** The end of handle_packet, for the last packet of a page. */
    method CompletePage(m: Message)
      requires Valid() && m.Packet? && m.pagenum == rxPage < pages.Length
      modifies this, file, pages
      ensures Valid() && pages == old(pages)
      ensures var n := old(State());
              var n' := n.(file := Overwrite(n.file, m.pagenum * S_PAGE, n.buffer), rxPage := n.rxPage + 1,
                           pages := n.pages[m.pagenum := Page(m.version, n.pages[m.pagenum].packetSet, true)]);
              State() == Transition(
                if m.pagenum == |n.pages| - 1 then n'.(version := n.updateVersion) else n'.(rxArmed := true), Maintain)
    {
      CopyInto(file, m.pagenum * S_PAGE, buffer[..]);
      pages[m.pagenum] := pages[m.pagenum].(version := m.version, complete := true);
      rxPage := rxPage + 1;
      if m.pagenum == pages.Length - 1 {
        version := updateVersion;
      } else if rxPage < pages.Length {
        if !rxArmed {
          rxArmed := true;
        }
      }
      MoveTo(Maintain);
    }

    /** The new page table of handle_profile. */
    method CopyRefreshed(vector: seq<byte>) returns (p: array<Page>)
      requires |vector| == pages.Length
      ensures fresh(p) && p[..] == Refreshed(pages[..], vector)
    {
      p := new Page[pages.Length](i requires 0 <= i < pages.Length reads this, pages => pages[i]);
      var i := 0;
      while i < p.Length
        invariant i <= p.Length
        invariant forall j :: 0 <= j < i ==> p[j] == Outdated(pages[j], vector[j])
        invariant forall j :: i <= j < p.Length ==> p[j] == pages[j]
      {
        if vector[i] > p[i].version {
          p[i] := Page(vector[i], {}, false);
        }
        i := i + 1;
      }
    }

    method HandleProfile(version: byte, vector: seq<byte>, memory: bool)
      requires Valid() && |vector| == pages.Length
      modifies this
      ensures Valid()
      ensures State() == OnProfile(old(State()), version, vector, memory)
    {
      if version <= updateVersion {
        return;
      }
      txSet := {};
      if !memory {
        return;
      }
      pages := CopyRefreshed(vector);
      rxPage := FindHighestAvailable();
      updateVersion := version;
      MoveTo(Rx);
      rxArmed := true;
    }

    /** command_dispatcher */
    method Dispatch(m: Message, len: nat, recent: bool, memory: bool)
      requires Valid() && Receivable(State(), m)
      modifies this, file, buffer, pages
      ensures Valid()
      ensures State() == Receive(old(State()), checksum, m, len, recent, memory)
    {
      match m
      case Summary(version, highest) =>
        if len >= SUMMARY_SIZE {
          HandleSummary(version, highest, recent);
        }
      case Request(version, pagenum, requestSet) =>
        if len >= REQUEST_SIZE {
          HandleRequest(version, pagenum, requestSet);
        }
      case Packet(_, _, _, _, _) =>
        if len >= PACKET_SIZE {
          HandlePacket(m);
        }
      case Profile(version, vector) =>
        if len >= PROFILE_HEADER && len >= PROFILE_HEADER + pages.Length * vector[0] {
          HandleProfile(version, vector, memory);
        }
    }

    /** send_request, when the receive timer fires.  Nothing stops that timer when the last
        page arrives in the maintain state: the original then reads one entry past the page
        table, and `stray` stands for what it finds there. */
    method SendRequest(stray: Page) returns (m: Message)
      requires Valid() && rxPage <= pages.Length
      modifies this`nrequests, this`rxArmed, this`mode, this`txArmed
      ensures var n := old(State());
              var page := if n.rxPage < |n.pages| then n.pages[n.rxPage] else stray;
              m == Request(page.version, n.rxPage, EIGHT_BITS - page.packetSet)
      ensures State() == AfterRequest(old(State()))
    {
      var page := if rxPage < pages.Length then pages[rxPage] else stray;
      m := Request(page.version, rxPage, EIGHT_BITS - page.packetSet);
      rxArmed := false;
      nrequests := nrequests + 1;
      if nrequests == CONST_LAMBDA {
        nrequests := 0;
        MoveTo(Maintain);
      } else {
        rxArmed := true;
      }
    }

    /** send_page */
    method BroadcastPage() returns (ms: seq<Message>)
      requires Valid() && 0 <= txPage < pages.Length
      ensures ms == PagePackets(State(), checksum, 0)
    {
      hide PagePacket, PagePackets;
      ms := [];
      ghost var all := PagePackets(State(), checksum, 0);
      var page := PageOf(file[..], txPage);
      var k := 0;
      while k < N_PKT
        invariant k <= N_PKT
        invariant ms + PagePackets(State(), checksum, k) == all
      {
        PagePacketsStep(State(), checksum, k, ms);
        if k in txSet {
          var packet := PacketMessage(page, k);
          ms := ms + [packet];
        }
        k := k + 1;
      }
      PagePacketsStep(State(), checksum, k, ms);
    }

    method PacketMessage(page: seq<byte>, k: nat) returns (m: Message)
      requires Valid() && 0 <= txPage < pages.Length && page == PageOf(file[..], txPage) && k < N_PKT
      ensures m == PagePacket(State(), checksum, k)
    {
      var payload := PacketOf(page, k);
      m := Packet(pages[txPage].version, txPage, k, checksum(payload), payload);
    }

    /** tx_callback, when the transmit timer fires. */
    method SendPage() returns (ms: seq<Message>)
      requires Valid() && txPage < pages.Length
      modifies this`txSet, this`txPage, this`mode, this`rxArmed, this`txArmed
      ensures ms == if Serving(old(State())) then PagePackets(old(State()), checksum, 0) else []
      ensures State() == AfterSending(old(State()))
    {
      ms := [];
      txArmed := false;
      if txPage >= 0 && txSet != {} {
        ms := BroadcastPage();
        txSet := {};
        txPage := -1;
        MoveTo(Maintain);
      }
    }
  }
}
