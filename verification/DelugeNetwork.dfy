/** Deluge as a protocol: many nodes over a network that loses, duplicates, delays and
    reorders messages but does not corrupt them.  One new version of the object is in
    flight, over nodes that hold an older one. */
module DelugeNetwork {

  import opened Bytes
  import opened Deluge

  /** What is being disseminated, what the other nodes start from, and the size of the packet
      buffer (PACKETBUF_SIZE), to which every message is cut. */
  datatype Release = Release(
    oldVersion: byte, version: byte, npages: nat, image: seq<byte>, checksum: seq<byte> -> uint16, packetSize: nat)

  /** `sent` holds every message ever sent: any node may hear any of them, at any time and
      any number of times, or never. */
  datatype Network = Network(nodes: seq<NodeState>, sent: set<Message>)

  ghost predicate Sensible(r: Release) {
    r.oldVersion < r.version && 1 <= r.npages <= 255 && Sized(r.image, r.npages)
  }

  // ----- Steps -----

  datatype Step =
    | Hear(node: nat, m: Message, recent: bool, memory: bool)
    | RxTimer(node: nat, stray: Page)
    | TxTimer(node: nat)
    | SummaryTimer(node: nat)
    | ProfileTimer(node: nat)

  function RequestOf(n: NodeState, stray: Page): Message {
    var page := if n.rxPage < |n.pages| then n.pages[n.rxPage] else stray;
    Request(page.version, n.rxPage, EIGHT_BITS - page.packetSet)
  }

  function Sends(n: NodeState, checksum: seq<byte> -> uint16): seq<Message>
    requires Fits(n) && n.txPage < |n.pages|
  {
    if Serving(n) then PagePackets(n, checksum, 0) else []
  }

  /** packetbuf_copyfrom: how much of a message arrives. */
  function Carried(r: Release, m: Message): nat {
    Min(SizeOf(m), r.packetSize)
  }

  ghost predicate Next(r: Release, a: Network, step: Step, b: Network) {
    && step.node < |a.nodes|
    && var n := a.nodes[step.node];
    match step
    case Hear(i, m, recent, memory) =>
      && m in a.sent
      && (Receivable(n, m) ==> b == a.(nodes := a.nodes[i := Receive(n, r.checksum, m, Carried(r, m), recent, memory)]))
    case RxTimer(i, stray) =>
      && n.rxArmed
      && b == Network(a.nodes[i := AfterRequest(n)], a.sent + {RequestOf(n, stray)})
    case TxTimer(i) =>
      && n.txArmed
      && (Fits(n) && n.txPage < |n.pages| ==>
          b == Network(a.nodes[i := AfterSending(n)], a.sent + set m | m in Sends(n, r.checksum)))
    case SummaryTimer(_) =>
      b == a.(sent := a.sent + {Summary(n.updateVersion, HighestAvailable(n.pages))})
    case ProfileTimer(_) =>
      b == a.(sent := a.sent + {Profile(n.version, VersionVector(n.pages))})
  }

  /** Which messages arrive with the length that their handler asks for. */
  lemma ArrivesWhole(r: Release, m: Message)
    requires m.Profile? ==> |m.vector| > 0
    ensures LongEnough(m, Carried(r, m)) <==>
      match m
      case Summary(_, _) => 4 <= r.packetSize
      case Request(_, _, _) => 5 <= r.packetSize
      case Packet(_, _, _, _, _) => 72 <= r.packetSize
      case Profile(_, vector) =>
        var len := if 4 + |vector| < r.packetSize then 4 + |vector| else r.packetSize;
        4 + |vector| * vector[0] <= len
  {
  }

  /** A node as init_object leaves it. */
  ghost predicate Fresh(r: Release, n: NodeState) {
    && Fits(n) && |n.pages| == r.npages
    && n.version == n.updateVersion
    && (n.version == r.oldVersion || (n.version == r.version && n.file == r.image))
    && (forall p :: 0 <= p < r.npages ==> n.pages[p] == Page(n.version, ALL_PACKETS, true))
    && n.rxPage == 0 && n.txPage == 0 && n.txSet == {}
    && n.mode == Maintain && !n.rxArmed && !n.txArmed && n.nrequests == 0
  }

  ghost predicate Init(r: Release, a: Network) {
    Sensible(r) && a.sent == {} && forall i :: 0 <= i < |a.nodes| ==> Fresh(r, a.nodes[i])
  }

  ghost predicate Moves(r: Release, a: Network, b: Network) {
    exists step :: Next(r, a, step, b)
  }

  /** Networks that follow one another by any steps. */
  ghost predicate Path(r: Release, run: seq<Network>) {
    |run| > 0 && forall k :: 0 <= k < |run| - 1 ==> Moves(r, run[k], run[k + 1])
  }

  /** A run: a path from an initial network. */
  ghost predicate Run(r: Release, run: seq<Network>) {
    Path(r, run) && Init(r, run[0])
  }

  // ----- What every step keeps -----

  predicate PageMatches(r: Release, n: NodeState, p: nat)
    requires Sized(r.image, r.npages) && Sized(n.file, r.npages) && p < r.npages
  {
    PageOf(n.file, p) == PageOf(r.image, p)
  }

  /** The packets of page `p` whose bits are set are in the page buffer. */
  predicate Buffered(r: Release, n: NodeState, p: nat)
    requires Sized(r.image, r.npages) && p < |n.pages| && p < r.npages && |n.buffer| == S_PAGE
  {
    forall k: nat :: k in n.pages[p].packetSet && k < N_PKT ==> PacketOf(n.buffer, k) == PacketOf(PageOf(r.image, p), k)
  }

  /** A node that has not heard of the new version. */
  ghost predicate Old(r: Release, n: NodeState)
    requires |n.pages| == r.npages
  {
    && n.version == n.updateVersion == r.oldVersion
    && (forall p :: 0 <= p < r.npages ==> n.pages[p].complete && n.pages[p].version == r.oldVersion)
    && n.txSet == {} && !n.rxArmed
  }

  /** A node that is fetching the new version: it has the pages below its receive page, some
      packets of that page, and nothing of the pages above. */
  ghost predicate Updating(r: Release, n: NodeState)
    requires Sensible(r) && Fits(n) && |n.pages| == r.npages
  {
    && n.version == r.oldVersion && n.updateVersion == r.version
    && n.rxPage < r.npages
    && (forall p :: 0 <= p < r.npages ==> n.pages[p].version == r.version)
    && (forall p :: 0 <= p < n.rxPage ==> n.pages[p].complete && PageMatches(r, n, p))
    && (forall p :: n.rxPage <= p < r.npages ==> !n.pages[p].complete)
    && (forall p :: n.rxPage < p < r.npages ==> n.pages[p].packetSet == {})
    && n.pages[n.rxPage].packetSet < ALL_PACKETS
    && Buffered(r, n, n.rxPage)
    && n.txSet == {}
  }

  /** A node that has all of the new version. */
  ghost predicate Updated(r: Release, n: NodeState)
    requires |n.pages| == r.npages
  {
    && n.version == n.updateVersion == r.version
    && (forall p :: 0 <= p < r.npages ==> n.pages[p].complete && n.pages[p].version == r.version)
    && n.file == r.image
    && n.rxPage <= r.npages
  }

  ghost predicate NodeOk(r: Release, n: NodeState)
    requires Sensible(r)
  {
    && Fits(n) && |n.pages| == r.npages && -128 <= n.txPage < |n.pages|
    && n.txPage < 128
    && (Old(r, n) || Updating(r, n) || Updated(r, n))
  }

  ghost predicate MessageOk(r: Release, m: Message)
    requires Sensible(r)
  {
    match m
    case Summary(version, highest) => version in {r.oldVersion, r.version} && highest <= r.npages
    case Request(version, pagenum, _) => pagenum < r.npages ==> version == r.version
    case Packet(version, pagenum, packetnum, crc, payload) =>
      && version == r.version && pagenum < r.npages && packetnum < N_PKT
      && payload == PacketOf(PageOf(r.image, pagenum), packetnum) && crc == r.checksum(payload)
      && pagenum < 128
    case Profile(version, vector) =>
      && |vector| == r.npages && (version == r.oldVersion || version == r.version)
      && (version == r.version ==> forall p :: 0 <= p < |vector| ==> vector[p] == r.version)
  }

  ghost predicate Inv(r: Release, a: Network) {
    && Sensible(r)
    && (forall i :: 0 <= i < |a.nodes| ==> NodeOk(r, a.nodes[i]))
    && (forall m :: m in a.sent ==> MessageOk(r, m))
  }

  lemma AllComplete(pages: seq<Page>)
    requires forall p :: 0 <= p < |pages| ==> pages[p].complete
    ensures HighestAvailable(pages) == |pages|
  {
  }

  lemma SummaryKeeps(r: Release, n: NodeState, version: byte, highest: nat, recent: bool)
    requires Sensible(r) && NodeOk(r, n) && MessageOk(r, Summary(version, highest))
    ensures NodeOk(r, OnSummary(n, version, highest, recent))
  {
    if Old(r, n) {
      AllComplete(n.pages);
    }
  }

  lemma RequestKeeps(r: Release, n: NodeState, version: byte, pagenum: nat, requestSet: set<nat>)
    requires Sensible(r) && NodeOk(r, n) && MessageOk(r, Request(version, pagenum, requestSet))
    ensures NodeOk(r, OnRequest(n, version, pagenum, requestSet))
  {
  }

  lemma ProfileKeeps(r: Release, n: NodeState, version: byte, vector: seq<byte>, memory: bool)
    requires Sensible(r) && NodeOk(r, n) && MessageOk(r, Profile(version, vector))
    ensures NodeOk(r, OnProfile(n, version, vector, memory))
  {
    if version > n.updateVersion && memory {
      assert Old(r, n);
      var n' := OnProfile(n, version, vector, memory);
      assert n'.pages[0] == Page(r.version, {}, false);
      assert n'.rxPage == 0;
      assert Updating(r, n');
    }
  }

  /** The receive page takes one more packet. */
  lemma PacketBuffered(r: Release, n: NodeState, m: Message)
    requires Sensible(r) && NodeOk(r, n) && MessageOk(r, m) && m.Packet?
    requires Updating(r, n) && m.pagenum == n.rxPage
    ensures var buffer := Overwrite(n.buffer, S_PKT * m.packetnum, m.payload);
            forall k: nat :: k in n.pages[n.rxPage].packetSet + {m.packetnum} && k < N_PKT ==>
              PacketOf(buffer, k) == PacketOf(PageOf(r.image, n.rxPage), k)
  {
    forall k: nat | k in n.pages[n.rxPage].packetSet + {m.packetnum} && k < N_PKT
      ensures PacketOf(Overwrite(n.buffer, S_PKT * m.packetnum, m.payload), k) == PacketOf(PageOf(r.image, n.rxPage), k)
    {
      WrittenPacket(n.buffer, m.packetnum, m.payload, k);
    }
  }

  lemma PacketKeeps(r: Release, n: NodeState, m: Message)
    requires Sensible(r) && NodeOk(r, n) && MessageOk(r, m) && m.Packet?
    ensures NodeOk(r, OnPacket(n, r.checksum, m))
  {
    var page := n.pages[m.pagenum];
    if m.pagenum == n.rxPage && m.version == page.version && !page.complete {
      assert Updating(r, n);
      PacketBuffered(r, n, m);
      var n' := OnPacket(n, r.checksum, m);
      var packets := page.packetSet + {m.packetnum};
      if packets == ALL_PACKETS {
        PageCompleted(r, n, m);
      } else {
        assert Updating(r, n');
      }
    }
  }

  /** Writing the completed buffer leaves every page up to the receive page right. */
  lemma WrittenMatches(r: Release, n: NodeState, buffer: seq<byte>, file: seq<byte>, q: nat)
    requires Sensible(r) && Fits(n) && |n.pages| == r.npages && Updating(r, n)
    requires buffer == PageOf(r.image, n.rxPage) && file == Overwrite(n.file, n.rxPage * S_PAGE, buffer)
    requires q <= n.rxPage
    ensures PageOf(file, q) == PageOf(r.image, q)
  {
    WrittenPage(n.file, n.rxPage, buffer, q);
    if q < n.rxPage {
      assert PageMatches(r, n, q);
    }
  }

  lemma PageCompleted(r: Release, n: NodeState, m: Message)
    requires Sensible(r) && NodeOk(r, n) && MessageOk(r, m) && m.Packet?
    requires Updating(r, n) && m.pagenum == n.rxPage
    requires n.pages[n.rxPage].packetSet + {m.packetnum} == ALL_PACKETS
    ensures NodeOk(r, OnPacket(n, r.checksum, m))
    ensures OnPacket(n, r.checksum, m).rxPage == n.rxPage + 1
  {
    PacketBuffered(r, n, m);
    var p, n' := n.rxPage, OnPacket(n, r.checksum, m);
    var buffer := Overwrite(n.buffer, S_PKT * m.packetnum, m.payload);
    SamePackets(buffer, PageOf(r.image, p));
    hide Buffered, PacketOf, PageOf;
    forall q: nat | q <= p
      ensures PageOf(n'.file, q) == PageOf(r.image, q)
    {
      WrittenMatches(r, n, buffer, n'.file, q);
    }
    if p == r.npages - 1 {
      SamePages(n'.file, r.image, r.npages);
      assert Updated(r, n');
    } else {
      BufferEmpty(r, n');
      assert Updating(r, n');
    }
  }

  lemma BufferEmpty(r: Release, n: NodeState)
    requires Sensible(r) && Fits(n) && n.rxPage < |n.pages| == r.npages && n.pages[n.rxPage].packetSet == {}
    ensures Buffered(r, n, n.rxPage)
  {
  }

  lemma HearKeeps(r: Release, n: NodeState, m: Message, recent: bool, memory: bool)
    requires Sensible(r) && NodeOk(r, n) && MessageOk(r, m)
    ensures Receivable(n, m)
    ensures NodeOk(r, Receive(n, r.checksum, m, Carried(r, m), recent, memory))
  {
    match m
    case Summary(version, highest) => SummaryKeeps(r, n, version, highest, recent);
    case Request(version, pagenum, requestSet) => RequestKeeps(r, n, version, pagenum, requestSet);
    case Packet(_, _, _, _, _) => PacketKeeps(r, n, m);
    case Profile(version, vector) => ProfileKeeps(r, n, version, vector, memory);
  }

  lemma RxTimerKeeps(r: Release, n: NodeState, stray: Page)
    requires Sensible(r) && NodeOk(r, n) && n.rxArmed
    ensures NodeOk(r, AfterRequest(n)) && MessageOk(r, RequestOf(n, stray))
  {
  }

  lemma TxTimerKeeps(r: Release, n: NodeState)
    requires Sensible(r) && NodeOk(r, n)
    ensures Fits(n) && n.txPage < |n.pages| && NodeOk(r, AfterSending(n))
  {
  }

  lemma AdvertisementsOk(r: Release, n: NodeState)
    requires Sensible(r) && NodeOk(r, n)
    ensures MessageOk(r, Summary(n.updateVersion, HighestAvailable(n.pages)))
    ensures MessageOk(r, Profile(n.version, VersionVector(n.pages)))
  {
  }

  /** Only an updated node serves pages, and what it sends is the new image. */
  lemma SendsOk(r: Release, n: NodeState, m: Message)
    requires Sensible(r) && NodeOk(r, n) && m in Sends(n, r.checksum)
    ensures MessageOk(r, m)
  {
    PagePacketsExact(n, r.checksum, 0, m);
  }

  lemma NextKeeps(r: Release, a: Network, step: Step, b: Network)
    requires Inv(r, a) && Next(r, a, step, b)
    ensures Inv(r, b)
  {
    var n := a.nodes[step.node];
    assert NodeOk(r, n);
    hide NodeOk, MessageOk;
    match step
    case Hear(_, m, recent, memory) => HearKeeps(r, n, m, recent, memory);
    case RxTimer(_, stray) => RxTimerKeeps(r, n, stray);
    case TxTimer(_) =>
      TxTimerKeeps(r, n);
      forall m | m in Sends(n, r.checksum)
        ensures MessageOk(r, m)
      {
        SendsOk(r, n, m);
      }
    case SummaryTimer(_) => AdvertisementsOk(r, n);
    case ProfileTimer(_) => AdvertisementsOk(r, n);
  }

  lemma InitOk(r: Release, a: Network)
    requires Init(r, a)
    ensures Inv(r, a)
  {
    forall i | 0 <= i < |a.nodes|
      ensures NodeOk(r, a.nodes[i])
    {
      assert Fresh(r, a.nodes[i]);
    }
  }

  lemma {:induction false} RunKeeps(r: Release, run: seq<Network>, k: nat)
    requires Run(r, run) && k < |run|
    ensures Inv(r, run[k]) && |run[k].nodes| == |run[0].nodes|
  {
    if k == 0 {
      InitOk(r, run[0]);
    } else {
      RunKeeps(r, run, k - 1);
      assert Moves(r, run[k - 1], run[k - 1 + 1]);
      var step :| Next(r, run[k - 1], step, run[k]);
      NextKeeps(r, run[k - 1], step, run[k]);
    }
  }

  // ----- The theorems -----

  /** Safety.  In every run: a page that a node marks complete at the new version holds the
      source's bytes, the pages below the receive page are complete, and a node has the new
      version exactly when it has every page of it, which makes its file the source's. */
  lemma Safety(r: Release, run: seq<Network>, k: nat, i: nat)
    requires Run(r, run) && k < |run| && i < |run[0].nodes|
    ensures Inv(r, run[k]) && i < |run[k].nodes|
    ensures var n := run[k].nodes[i];
      && (forall p: nat :: p < r.npages && n.pages[p].complete && n.pages[p].version == r.version ==>
            PageOf(n.file, p) == PageOf(r.image, p))
      && (n.updateVersion == r.version ==>
            forall p: nat :: p < r.npages && p < n.rxPage ==> n.pages[p].complete && n.pages[p].version == r.version)
      && (n.version == r.version <==>
            forall p: nat :: p < r.npages ==> n.pages[p].complete && n.pages[p].version == r.version)
      && (n.version == r.version ==> n.file == r.image)
      && n.version in {r.oldVersion, r.version}
  {
    RunKeeps(r, run, k);
    var n := run[k].nodes[i];
    assert NodeOk(r, n);
    assert n.pages[0] == n.pages[0];
    if Updating(r, n) {
      assert !n.pages[n.rxPage].complete;
      assert forall p: nat :: p < n.rxPage ==> PageMatches(r, n, p);
    }
  }

  /** Every data packet of every run, relayed ones included, carries the source's bytes. */
  lemma PacketsGenuine(r: Release, run: seq<Network>, k: nat, m: Message)
    requires Run(r, run) && k < |run| && m in run[k].sent && m.Packet?
    ensures m.version == r.version && m.pagenum < r.npages && m.packetnum < N_PKT && Sized(r.image, r.npages)
    ensures m.payload == PacketOf(PageOf(r.image, m.pagenum), m.packetnum)
  {
    RunKeeps(r, run, k);
    assert MessageOk(r, m);
  }

  ghost predicate Has(r: Release, n: NodeState, p: nat) {
    p < |n.pages| && n.pages[p].complete && n.pages[p].version == r.version
  }

  /** Nothing gained is lost: versions never go back and a complete new page stays complete. */
  lemma NothingLost(r: Release, a: Network, b: Network, i: nat)
    requires Inv(r, a) && Moves(r, a, b) && i < |a.nodes|
    ensures |b.nodes| == |a.nodes|
    ensures a.nodes[i].version <= b.nodes[i].version && a.nodes[i].updateVersion <= b.nodes[i].updateVersion
    ensures forall p: nat :: Has(r, a.nodes[i], p) ==> Has(r, b.nodes[i], p)
  {
    var step :| Next(r, a, step, b);
    var n := a.nodes[step.node];
    assert NodeOk(r, n);
    hide NodeOk, MessageOk, Receive, Receivable;
    match step
    case Hear(_, m, recent, memory) => HearGains(r, n, m, recent, memory);
    case _ => TxTimerKeeps(r, n);
  }

  lemma HearGains(r: Release, n: NodeState, m: Message, recent: bool, memory: bool)
    requires Sensible(r) && NodeOk(r, n) && MessageOk(r, m)
    ensures Receivable(n, m)
    ensures var n' := Receive(n, r.checksum, m, Carried(r, m), recent, memory);
            && n.version <= n'.version && n.updateVersion <= n'.updateVersion
            && forall p: nat :: Has(r, n, p) ==> Has(r, n', p)
  {
  }

  /** No profile of the new version is ever accepted: the dispatcher asks for more than was
      sent of one whose version is above 1, and more than arrives of one that was cut. */
  predicate Unannounced(r: Release) {
    r.version > 1 || PROFILE_HEADER + r.npages > r.packetSize
  }

  /** The new version can spread at all only if its profiles are accepted, if data packets fit
      into the buffer, and if it has at most 128 pages (later page numbers turn negative when a
      request for them is stored).  With the default packet size of 128 bytes these are 124. */
  predicate Spreads(r: Release) {
    !Unannounced(r) && PACKET_SIZE <= r.packetSize && r.npages <= 128
  }

  lemma StaysOld(r: Release, n: NodeState, m: Message, recent: bool, memory: bool)
    requires Sensible(r) && NodeOk(r, n) && MessageOk(r, m) && !Spreads(r)
    requires n.version == r.oldVersion && (Unannounced(r) ==> Old(r, n))
    ensures Receivable(n, m)
    ensures var n' := Receive(n, r.checksum, m, Carried(r, m), recent, memory);
            n'.version == r.oldVersion && (Unannounced(r) ==> Old(r, n'))
  {
    HearKeeps(r, n, m, recent, memory);
    match m
    case Summary(version, highest) => AllCompleteIfOld(r, n);
    case Profile(version, vector) =>
      if Unannounced(r) && version == r.version {
        NotLongEnough(m, Carried(r, m));
      }
    case _ =>
  }

  lemma AllCompleteIfOld(r: Release, n: NodeState)
    requires Sensible(r) && NodeOk(r, n)
    ensures Old(r, n) ==> HighestAvailable(n.pages) == r.npages
  {
    if Old(r, n) {
      AllComplete(n.pages);
    }
  }

  lemma NotLongEnough(m: Message, len: nat)
    requires m.Profile? && |m.vector| > 0 && len <= SizeOf(m)
    requires m.vector[0] > 1 || (m.vector[0] == 1 && len < SizeOf(m))
    ensures !LongEnough(m, len)
  {
    var vector := m.vector;
    if vector[0] > 1 {
      var extra := vector[0] - 2;
      assert |vector| * vector[0] == |vector| * 2 + |vector| * extra;
    }
  }

  lemma {:induction false} NeverSpreads(r: Release, run: seq<Network>, k: nat, i: nat)
    requires Run(r, run) && k < |run| && i < |run[0].nodes| && !Spreads(r)
    requires run[0].nodes[i].version == r.oldVersion
    ensures i < |run[k].nodes| && run[k].nodes[i].version == r.oldVersion
    ensures Inv(r, run[k]) && (Unannounced(r) ==> Old(r, run[k].nodes[i]))
  {
    RunKeeps(r, run, k);
    if k == 0 {
      assert Fresh(r, run[0].nodes[i]);
    } else {
      NeverSpreads(r, run, k - 1, i);
      assert Moves(r, run[k - 1], run[k - 1 + 1]);
      var step :| Next(r, run[k - 1], step, run[k]);
      var n := run[k - 1].nodes[step.node];
      assert NodeOk(r, n);
      hide NodeOk, MessageOk;
      if step.node == i {
        match step
        case Hear(_, m, recent, memory) => StaysOld(r, n, m, recent, memory);
        case _ => TxTimerKeeps(r, n);
      }
    }
  }

  // ----- When it does spread -----

  ghost predicate Reaches(r: Release, a: Network, b: Network) {
    exists run :: Path(r, run) && run[0] == a && run[|run| - 1] == b
  }

  lemma Start(r: Release, a: Network)
    requires Init(r, a)
    ensures Reaches(r, a, a) && Inv(r, a)
  {
    assert Path(r, [a]);
    InitOk(r, a);
  }

  lemma Take(r: Release, a: Network, b: Network, step: Step, c: Network)
    requires Reaches(r, a, b) && Inv(r, b) && Next(r, b, step, c)
    ensures Reaches(r, a, c) && Inv(r, c)
  {
    NextKeeps(r, b, step, c);
    var run :| Path(r, run) && run[0] == a && run[|run| - 1] == b;
    var run' := run + [c];
    forall k | 0 <= k < |run'| - 1
      ensures Moves(r, run'[k], run'[k + 1])
    {
      if k < |run| - 1 {
        assert Moves(r, run[k], run[k + 1]);
      }
    }
    assert Path(r, run');
  }

  function FirstPackets(k: nat): (ps: set<nat>)
    ensures forall j: nat :: j in ps <==> j < k
  {
    if k == 0 then {} else FirstPackets(k - 1) + {k - 1}
  }

  /** Node `s` has the new version; node `t` is waiting for page `p`, with `k` packets of it. */
  ghost predicate Fetching(r: Release, a: Network, s: nat, t: nat, p: nat, k: nat) {
    && Inv(r, a) && s < |a.nodes| && t < |a.nodes| && s != t
    && NodeOk(r, a.nodes[s]) && Updated(r, a.nodes[s])
    && NodeOk(r, a.nodes[t]) && Updating(r, a.nodes[t]) && a.nodes[t].rxPage == p
    && a.nodes[t].pages[p].packetSet == FirstPackets(k)
  }

  function GenuinePacket(r: Release, p: nat, k: nat): Message
    requires Sized(r.image, r.npages) && p < r.npages && k < N_PKT
  {
    var payload := PacketOf(PageOf(r.image, p), k);
    Packet(r.version, p, k, r.checksum(payload), payload)
  }

  /** The waiting node hears an advertisement. */
  lemma Notice(r: Release, start: Network, a: Network, s: nat, t: nat, p: nat) returns (b: Network)
    requires Reaches(r, start, a) && Fetching(r, a, s, t, p, 0) && PACKET_SIZE <= r.packetSize
    ensures Reaches(r, start, b) && Fetching(r, b, s, t, p, 0) && b.nodes[t].rxArmed
  {
    var source, target := a.nodes[s], a.nodes[t];
    AllComplete(source.pages);
    var summary := Summary(r.version, r.npages);
    var a' := a.(sent := a.sent + {summary});
    HearKeeps(r, target, summary, false, true);
    b := a'.(nodes := a'.nodes[t := OnSummary(target, r.version, r.npages, false)]);
    hide Reaches, Inv;
    Take(r, start, a, SummaryTimer(s), a');
    Take(r, start, a', Hear(t, summary, false, true), b);
  }

  /** The waiting node asks for its page. */
  lemma Ask(r: Release, start: Network, a: Network, s: nat, t: nat, p: nat) returns (b: Network)
    requires Reaches(r, start, a) && Fetching(r, a, s, t, p, 0) && a.nodes[t].rxArmed
    ensures Reaches(r, start, b) && Fetching(r, b, s, t, p, 0)
    ensures Request(r.version, p, EIGHT_BITS) in b.sent
  {
    var target, stray := a.nodes[t], Page(0, {}, false);
    RxTimerKeeps(r, target, stray);
    b := Network(a.nodes[t := AfterRequest(target)], a.sent + {RequestOf(target, stray)});
    hide Reaches, Inv;
    Take(r, start, a, RxTimer(t, stray), b);
    assert EIGHT_BITS - {} == EIGHT_BITS;
  }

  /** The updated node hears the request. */
  lemma Accept(r: Release, start: Network, a: Network, s: nat, t: nat, p: nat) returns (b: Network)
    requires Reaches(r, start, a) && Fetching(r, a, s, t, p, 0) && p < 128 && PACKET_SIZE <= r.packetSize
    requires Request(r.version, p, EIGHT_BITS) in a.sent
    ensures Reaches(r, start, b) && Fetching(r, b, s, t, p, 0)
    ensures b.nodes[s].txPage == p && EIGHT_BITS <= b.nodes[s].txSet && b.nodes[s].txArmed
  {
    var source, request := a.nodes[s], Request(r.version, p, EIGHT_BITS);
    AllComplete(source.pages);
    HearKeeps(r, source, request, false, true);
    b := a.(nodes := a.nodes[s := OnRequest(source, r.version, p, EIGHT_BITS)]);
    hide Reaches, Inv;
    Take(r, start, a, Hear(s, request, false, true), b);
  }

  lemma ServesPage(r: Release, n: NodeState, p: nat)
    requires Sensible(r) && NodeOk(r, n) && Updated(r, n)
    requires p < r.npages && n.txPage == p && EIGHT_BITS <= n.txSet
    ensures forall k: nat :: k < N_PKT ==> GenuinePacket(r, p, k) in Sends(n, r.checksum)
  {
    assert 0 in n.txSet;
    forall k: nat | k < N_PKT
      ensures GenuinePacket(r, p, k) in Sends(n, r.checksum)
    {
      PagePacketsExact(n, r.checksum, 0, GenuinePacket(r, p, k));
      assert GenuinePacket(r, p, k) == PagePacket(n, r.checksum, k);
    }
  }

  /** The updated node broadcasts the page. */
  lemma Serve(r: Release, start: Network, a: Network, s: nat, t: nat, p: nat) returns (b: Network)
    requires Reaches(r, start, a) && Fetching(r, a, s, t, p, 0)
    requires a.nodes[s].txPage == p && EIGHT_BITS <= a.nodes[s].txSet && a.nodes[s].txArmed
    ensures Reaches(r, start, b) && Fetching(r, b, s, t, p, 0)
    ensures forall k: nat :: k < N_PKT ==> GenuinePacket(r, p, k) in b.sent
  {
    var source := a.nodes[s];
    TxTimerKeeps(r, source);
    ServesPage(r, source, p);
    hide Reaches, Inv, Sends, GenuinePacket;
    var sends := Sends(source, r.checksum);
    b := Network(a.nodes[s := AfterSending(source)], a.sent + set m | m in sends);
    Take(r, start, a, TxTimer(s), b);
  }

  /** The waiting node takes one packet. */
  lemma TakePacket(r: Release, start: Network, a: Network, s: nat, t: nat, p: nat, k: nat) returns (b: Network)
    requires Reaches(r, start, a) && Fetching(r, a, s, t, p, k) && k < N_PKT && GenuinePacket(r, p, k) in a.sent
    requires PACKET_SIZE <= r.packetSize
    ensures Reaches(r, start, b) && b.sent == a.sent
    ensures k < 3 ==> Fetching(r, b, s, t, p, k + 1)
    ensures k == 3 && p + 1 < r.npages ==> Fetching(r, b, s, t, p + 1, 0)
    ensures k == 3 && p + 1 == r.npages ==> t < |b.nodes| && b.nodes[t].version == r.version
  {
    hide Reaches, Path, Moves;
    var target, m := a.nodes[t], GenuinePacket(r, p, k);
    HearKeeps(r, target, m, false, true);
    var target' := OnPacket(target, r.checksum, m);
    b := a.(nodes := a.nodes[t := target']);
    Take(r, start, a, Hear(t, m, false, true), b);
    var packets := target.pages[p].packetSet + {k};
    assert packets == FirstPackets(k + 1);
    if k == 3 {
      assert packets == ALL_PACKETS;
      PageCompleted(r, target, m);
    } else {
      assert 3 !in packets;
    }
  }

  lemma FetchPage(r: Release, start: Network, a: Network, s: nat, t: nat, p: nat) returns (b: Network)
    requires Reaches(r, start, a) && Fetching(r, a, s, t, p, 0) && p < 128 && PACKET_SIZE <= r.packetSize
    ensures Reaches(r, start, b) && Fetching(r, b, s, t, p, 0)
    ensures forall k: nat :: k < N_PKT ==> GenuinePacket(r, p, k) in b.sent
  {
    hide Reaches, Fetching, GenuinePacket;
    b := Notice(r, start, a, s, t, p);
    b := Ask(r, start, b, s, t, p);
    b := Accept(r, start, b, s, t, p);
    b := Serve(r, start, b, s, t, p);
  }

  lemma TakePage(r: Release, start: Network, a: Network, s: nat, t: nat, p: nat) returns (b: Network)
    requires Reaches(r, start, a) && Fetching(r, a, s, t, p, 0) && PACKET_SIZE <= r.packetSize
    requires forall k: nat :: k < N_PKT ==> GenuinePacket(r, p, k) in a.sent
    ensures Reaches(r, start, b)
    ensures p + 1 < r.npages ==> Fetching(r, b, s, t, p + 1, 0)
    ensures p + 1 == r.npages ==> t < |b.nodes| && b.nodes[t].version == r.version
  {
    hide Reaches, Fetching, GenuinePacket;
    b := TakePacket(r, start, a, s, t, p, 0);
    b := TakePacket(r, start, b, s, t, p, 1);
    b := TakePacket(r, start, b, s, t, p, 2);
    b := TakePacket(r, start, b, s, t, p, 3);
  }

  lemma PagesLeft(r: Release, a: Network, s: nat, t: nat, p: nat)
    requires Fetching(r, a, s, t, p, 0)
    ensures p < r.npages
  {
  }

  lemma {:induction false} FetchAll(r: Release, start: Network, a: Network, s: nat, t: nat, p: nat) returns (b: Network)
    requires Reaches(r, start, a) && Fetching(r, a, s, t, p, 0) && r.npages <= 128 && PACKET_SIZE <= r.packetSize
    ensures Reaches(r, start, b) && t < |b.nodes| && b.nodes[t].version == r.version
    decreases r.npages - p
  {
    hide Reaches, Path, Moves, Fetching;
    PagesLeft(r, a, s, t, p);
    b := FetchPage(r, start, a, s, t, p);
    b := TakePage(r, start, b, s, t, p);
    if p + 1 < r.npages {
      b := FetchAll(r, start, b, s, t, p + 1);
    }
  }

  /** Node `t` hears the profile of node `s` and starts to fetch. */
  lemma Announce(r: Release, a: Network, s: nat, t: nat) returns (b: Network)
    requires Init(r, a) && s < |a.nodes| && t < |a.nodes| && !Unannounced(r)
    requires a.nodes[s].version == r.version && a.nodes[t].version == r.oldVersion
    ensures Reaches(r, a, b) && Fetching(r, b, s, t, 0, 0)
  {
    hide Reaches, Path, Moves;
    Start(r, a);
    var source, target := a.nodes[s], a.nodes[t];
    assert Fresh(r, source) && Fresh(r, target);
    var profile := Profile(r.version, VersionVector(source.pages));
    var a1 := a.(sent := a.sent + {profile});
    Take(r, a, a, ProfileTimer(s), a1);
    assert NodeOk(r, target) && NodeOk(r, source) && MessageOk(r, profile);
    HearKeeps(r, target, profile, false, true);
    var target' := Receive(target, r.checksum, profile, Carried(r, profile), false, true);
    b := a1.(nodes := a1.nodes[t := target']);
    Take(r, a, a1, Hear(t, profile, false, true), b);
    assert NodeOk(r, target');
    assert target'.pages[0] == Page(r.version, {}, false);
  }

  /** A run from `a` at whose end node `t` has the new version. */
  ghost predicate UpdatingRun(r: Release, run: seq<Network>, a: Network, t: nat) {
    Run(r, run) && run[0] == a && t < |run[|run| - 1].nodes| && run[|run| - 1].nodes[t].version == r.version
  }

  ghost predicate CanUpdate(r: Release, a: Network, t: nat) {
    exists run :: UpdatingRun(r, run, a, t)
  }

  /** From an initial network with a source, an old node can get the new version if and only
      if that is version 1, has at most 128 pages, and its profile and a data packet fit into
      the packet buffer. */
  lemma SpreadsExactly(r: Release, a: Network, s: nat, t: nat)
    requires Init(r, a) && s < |a.nodes| && t < |a.nodes|
    requires a.nodes[s].version == r.version && a.nodes[t].version == r.oldVersion
    ensures CanUpdate(r, a, t) <==> r.version == 1 && r.npages <= 128 && 4 + r.npages <= r.packetSize && 72 <= r.packetSize
  {
    if Spreads(r) {
      var b := Announce(r, a, s, t);
      var c := FetchAll(r, a, b, s, t, 0);
      var run :| Path(r, run) && run[0] == a && run[|run| - 1] == c;
      assert UpdatingRun(r, run, a, t);
    } else if CanUpdate(r, a, t) {
      var run :| UpdatingRun(r, run, a, t);
      NeverSpreads(r, run, |run| - 1, t);
    }
  }
}
