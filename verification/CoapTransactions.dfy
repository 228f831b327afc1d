/** The retransmission layer of Erbium (apps/er-coap/er-coap-transactions.c): a fixed pool of
    transactions, a list of those in use, and one timer for each (RFC 7252, section 4.2). */
module CoapTransactions {

  import opened Bytes

  const COAP_MAX_OPEN_TRANSACTIONS: nat := 4
  const COAP_MAX_RETRANSMIT: nat := 4

  /** One block of the pool.  `confirmable` is the type in the packet's first byte; `sent`
      says that the packet was handed to the network at least once. */
  datatype Transaction = Transaction(
    mid: uint16, counter: nat, confirmable: bool, sent: bool,
    interval: nat, start: nat, pending: bool, callback: Option<nat>)

  // ----- What happens to one transaction -----

  /** `answer` tells whether a callback got the response or NULL. */
  datatype Event = Sent(time: nat) | Freed(time: nat) | Called(callback: nat, answer: bool, time: nat)

  /** What the rest of the system did with a transaction: it was opened; it was sent as a
      confirmable message, which was answered, or was cleared by a datagram that the engine
      refused, or neither; it was sent as another message; or it was cleared instead. */
  datatype Record =
    | Unsent
    | Asking(mid: uint16, first: nat, initial: nat, callback: Option<nat>)
    | Answered(mid: uint16, first: nat, initial: nat, callback: Option<nat>, time: nat)
    | Killed(mid: uint16, first: nat, initial: nat, callback: Option<nat>, time: nat)
    | Told(time: nat)
    | Dropped(time: nat)

  /** When the transmission number `k` (from 0 on) is due, after the first one. */
  function Delay(initial: nat, k: nat): nat {
    if k == 0 then 0 else if k == 1 then initial else if k == 2 then 3 * initial else if k == 3 then 7 * initial else 15 * initial
  }

  /** The interval that is running after transmission number `k`. */
  function Backoff(initial: nat, k: nat): nat {
    if k == 0 then initial else if k == 1 then 2 * initial else if k == 2 then 4 * initial else 8 * initial
  }

  /** The first `k` transmissions of a transaction that starts at `first`. */
  function Sends(first: nat, initial: nat, k: nat): seq<Event> {
    if k == 0 then [] else Sends(first, initial, k - 1) + [Sent(first + Delay(initial, k - 1))]
  }

  /** How many transmissions are due by a time. */
  function DueBy(first: nat, initial: nat, now: nat): nat {
    if now < first then 0
    else if now < first + initial then 1
    else if now < first + 3 * initial then 2
    else if now < first + 7 * initial then 3
    else if now < first + 15 * initial then 4
    else 5
  }

  function Calls(callback: Option<nat>, answer: bool, time: nat): seq<Event> {
    if callback.Some? then [Called(callback.value, answer, time)] else []
  }

  /** A transaction that times out is sent five times, at 0, I, 3I, 7I and 15I, then freed once,
      and then its callback is called once with NULL. */
  function TimedOut(first: nat, initial: nat, callback: Option<nat>): seq<Event> {
    var end := first + 15 * initial;
    [Sent(first), Sent(first + initial), Sent(first + 3 * initial), Sent(first + 7 * initial), Sent(end), Freed(end)]
    + Calls(callback, false, end)
  }

  /** The events at the end: whoever registered a callback is called once, with what it says
      about the answer, and nobody else is. */
  lemma EndsWithCall(callback: Option<nat>, answer: bool, time: nat, event: Event)
    ensures event in Calls(callback, answer, time) <==> callback.Some? && event == Called(callback.value, answer, time)
    ensures |Calls(callback, answer, time)| == if callback.Some? then 1 else 0
  {
  }

  /** How often a message has been sent by a time, told from the times at which it is due. */
  lemma {:induction false} DueExactly(first: nat, initial: nat, now: nat, k: nat)
    requires k < 5 && initial > 0
    ensures k < DueBy(first, initial, now) <==>
      first + (if k == 0 then 0 else if k == 1 then 1 else if k == 2 then 3 else if k == 3 then 7 else 15) * initial <= now
    ensures DueBy(first, initial, now) <= 5
  {
  }

  lemma {:induction false} SendsAre(first: nat, initial: nat, n: nat, k: nat)
    requires k < n
    ensures |Sends(first, initial, n)| == n && Sends(first, initial, n)[k] == Sent(first + Delay(initial, k))
  {
    if k < n - 1 {
      SendsAre(first, initial, n - 1, k);
    } else if n > 1 {
      SendsAre(first, initial, n - 1, n - 2);
    }
  }

  /** Everything that has to have happened to a transaction by a time. */
  function Expected(r: Record, now: nat): seq<Event> {
    match r
    case Unsent => []
    case Asking(_, first, initial, callback) =>
      if now < first + 15 * initial then Sends(first, initial, DueBy(first, initial, now)) else TimedOut(first, initial, callback)
    case Answered(_, first, initial, callback, time) =>
      Sends(first, initial, DueBy(first, initial, time)) + [Freed(time)] + Calls(callback, true, time)
    case Killed(_, first, initial, _, time) => Sends(first, initial, DueBy(first, initial, time)) + [Freed(time)]
    case Told(time) => [Sent(time), Freed(time)]
    case Dropped(time) => [Freed(time)]
  }

  /** A transaction that is over: nothing more is to happen to it. */
  predicate Over(r: Record, trace: seq<Event>, now: nat) {
    && !r.Unsent? && trace == Expected(r, now)
    && (r.Asking? ==> now >= r.first + 15 * r.initial)
  }

  /** The block and the trace of a transaction that is on its schedule. */
  predicate OnSchedule(t: Transaction, trace: seq<Event>, first: nat, initial: nat) {
    && t.counter < COAP_MAX_RETRANSMIT && initial > 0
    && trace == Sends(first, initial, t.counter + 1)
    && t.start == first + Delay(initial, t.counter) && t.interval == Backoff(initial, t.counter)
  }

  /** The block of a transaction that is not over. */
  predicate Live(t: Transaction, r: Record, trace: seq<Event>) {
    match r
    case Unsent => !t.sent && trace == [] && t.counter == 0 && !t.pending
    case Asking(mid, first, initial, callback) =>
      t.sent && t.confirmable && t.mid == mid && t.callback == callback && OnSchedule(t, trace, first, initial)
    case _ => false
  }

  function Due(t: Transaction): nat {
    t.start + t.interval
  }

  /** The timer of a transaction that was sent: it is running, or it has just fired. */
  predicate Timed(t: Transaction, now: nat) {
    t.sent ==> t.start <= now && if t.pending then now < Due(t) else now == Due(t)
  }

  // ----- What one transmission does -----

  /** The block after coap_send_transaction has kept it. */
  function Kept(t: Transaction, now: nat, initial: nat): Transaction {
    t.(sent := true, interval := if t.counter == 0 then initial else 2 * t.interval, start := now, pending := true)
  }

  lemma FirstSend(t: Transaction, now: nat, initial: nat)
    requires Live(t, Unsent, []) && t.confirmable && initial > 0
    ensures Live(Kept(t, now, initial), Asking(t.mid, now, initial, t.callback), [Sent(now)])
  {
    assert Sends(now, initial, 1) == [] + [Sent(now)];
  }

  /** Sending again on time keeps a transaction on its schedule. */
  lemma NextSend(t: Transaction, r: Record, trace: seq<Event>, now: nat)
    requires Live(t, r, trace) && t.sent && now == Due(t) && t.counter + 1 < COAP_MAX_RETRANSMIT
    ensures Live(Kept(t.(counter := t.counter + 1), now, 0), r, trace + [Sent(now)])
  {
  }

  lemma FourSends(first: nat, initial: nat)
    ensures Sends(first, initial, 4) == [Sent(first), Sent(first + initial), Sent(first + 3 * initial), Sent(first + 7 * initial)]
  {
    assert Sends(first, initial, 1) == [Sent(first)];
    assert Sends(first, initial, 2) == [Sent(first), Sent(first + initial)];
    assert Sends(first, initial, 3) == [Sent(first), Sent(first + initial), Sent(first + 3 * initial)];
  }

  /** The fifth send ends the transaction with the trace of its timeout. */
  lemma LastSend(t: Transaction, r: Record, trace: seq<Event>, now: nat)
    requires Live(t, r, trace) && t.sent && now == Due(t) && t.counter + 1 == COAP_MAX_RETRANSMIT
    ensures r.Asking? && now == r.first + 15 * r.initial
    ensures trace + ([Sent(now), Freed(now)] + Calls(t.callback, false, now)) == TimedOut(r.first, r.initial, r.callback)
    ensures Over(r, trace + ([Sent(now), Freed(now)] + Calls(t.callback, false, now)), now)
  {
    FourSends(r.first, r.initial);
  }

  function WithAnswer(r: Record, time: nat): Record {
    if r.Asking? then Answered(r.mid, r.first, r.initial, r.callback, time) else r
  }

  function WithKill(r: Record, time: nat): Record {
    if r.Asking? then Killed(r.mid, r.first, r.initial, r.callback, time) else r
  }

  /** Being cleared before the next send is due ends it without a call. */
  lemma KillEnds(t: Transaction, r: Record, trace: seq<Event>, now: nat)
    requires Live(t, r, trace) && t.sent && t.start <= now < Due(t)
    ensures r.Asking? && r.first <= now < r.first + 15 * r.initial
    ensures Over(WithKill(r, now), trace + [Freed(now)], now)
  {
    assert DueBy(r.first, r.initial, now) == t.counter + 1;
  }

  /** An answer before the next send is due ends it with the trace of its answer. */
  lemma AnswerEnds(t: Transaction, r: Record, trace: seq<Event>, now: nat)
    requires Live(t, r, trace) && t.sent && t.start <= now < Due(t)
    ensures r.Asking? && r.first <= now < r.first + 15 * r.initial
    ensures Over(WithAnswer(r, now), trace + ([Freed(now)] + Calls(t.callback, true, now)), now)
  {
    assert DueBy(r.first, r.initial, now) == t.counter + 1;
    assert trace + ([Freed(now)] + Calls(t.callback, true, now)) == trace + [Freed(now)] + Calls(t.callback, true, now);
  }

  /** Whoever is on schedule, with its timer running, has been sent as often as was due. */
  lemma LiveAsExpected(t: Transaction, r: Record, trace: seq<Event>, now: nat)
    requires Live(t, r, trace) && Timed(t, now) && (t.sent ==> t.pending)
    ensures trace == Expected(r, now)
  {
    if r.Asking? {
      assert DueBy(r.first, r.initial, now) == t.counter + 1;
    }
  }

  // ----- The pool -----

  /** The pool, its list, and for every transaction ever opened its record and the trace of
      what happened to it; `ids` names the transaction that a block holds or held last.
      `remembered` is the variable `transaction` of coap_receive, which is static: it still
      points to the block of the last request when that block has been freed. */
  datatype Pool = Pool(
    blocks: seq<Transaction>, used: seq<bool>, list: seq<nat>, now: nat, remembered: Option<nat>,
    ids: seq<nat>, records: seq<Record>, traces: seq<seq<Event>>)

  predicate Distinct(s: seq<nat>) {
    forall i, j :: 0 <= i < j < |s| ==> s[i] != s[j]
  }

  predicate Listed(p: Pool, i: nat)
    requires |p.blocks| == |p.ids| && |p.records| == |p.traces|
  {
    && i < |p.blocks| && p.ids[i] < |p.traces|
    && Live(p.blocks[i], p.records[p.ids[i]], p.traces[p.ids[i]]) && Timed(p.blocks[i], p.now)
  }

  predicate Holds(p: Pool, i: nat, k: nat) {
    i in p.list && i < |p.ids| && p.ids[i] == k
  }

  /** No transaction in the list is number `k`. */
  predicate Unheld(p: Pool, k: nat) {
    forall i: nat :: i in p.list ==> !Holds(p, i, k)
  }

  /** Block `i` holds, or held, a transaction that has a record and a trace. */
  predicate InPool(p: Pool, i: nat) {
    i < |p.blocks| == |p.used| == |p.ids| && |p.records| == |p.traces| && p.ids[i] < |p.traces|
  }

  /** The table of blocks and the list of those in use. */
  predicate Shape(p: Pool) {
    && |p.blocks| == |p.used| == |p.ids| == COAP_MAX_OPEN_TRANSACTIONS && |p.records| == |p.traces|
    && Distinct(p.list)
    && (forall i :: i in p.list ==> i < |p.blocks|)
    && (forall i :: 0 <= i < |p.used| ==> (p.used[i] <==> i in p.list))
    && (forall i :: 0 <= i < |p.used| && !p.used[i] ==> !p.blocks[i].pending)
    && (forall i, j :: i in p.list && j in p.list && i != j ==> p.ids[i] != p.ids[j])
    && (p.remembered.Some? ==> InPool(p, p.remembered.value))
  }

  /** A block is in the list exactly when it is allocated; listed transactions are not over,
      and all others are. */
  predicate Sound(p: Pool) {
    && Shape(p)
    && (forall i :: i in p.list ==> Listed(p, i))
    && (forall k: nat :: k < |p.traces| && Unheld(p, k) ==> Over(p.records[k], p.traces[k], p.now))
  }

  /** No transaction waits to be sent again. */
  predicate Calm(p: Pool) {
    forall i :: i in p.list && i < |p.blocks| && p.blocks[i].sent ==> p.blocks[i].pending
  }

  /** Every listed transaction was sent at least once. */
  predicate AllSent(p: Pool) {
    forall i :: i in p.list && i < |p.blocks| ==> p.blocks[i].sent
  }

  predicate Inv(p: Pool) {
    Sound(p) && Calm(p)
  }

  /** Every transaction that was ever opened has had exactly what is due by now. */
  lemma TracesAsExpected(p: Pool, k: nat)
    requires Inv(p) && k < |p.traces|
    ensures k < |p.records| && p.traces[k] == Expected(p.records[k], p.now)
  {
    if !Unheld(p, k) {
      var i: nat :| i in p.list && Holds(p, i, k);
      assert Listed(p, i);
      LiveAsExpected(p.blocks[i], p.records[k], p.traces[k], p.now);
    }
  }

  function Remove(s: seq<nat>, i: nat): (r: seq<nat>)
    ensures forall x :: x in r <==> x in s && x != i
  {
    if s == [] then [] else if s[0] == i then Remove(s[1..], i) else [s[0]] + Remove(s[1..], i)
  }

  lemma {:induction false} RemoveDistinct(s: seq<nat>, i: nat)
    requires Distinct(s)
    ensures Distinct(Remove(s, i))
  {
    if s != [] {
      assert Distinct(s[1..]);
      RemoveDistinct(s[1..], i);
      assert s[0] !in s[1..];
    }
  }

  // ----- Changes of the pool -----

  function WithRecord(p: Pool, i: nat, r: Record): (p': Pool)
    requires InPool(p, i)
    ensures InPool(p', i)
  {
    p.(records := p.records[p.ids[i] := r])
  }

  function WithBlock(p: Pool, i: nat, t: Transaction, events: seq<Event>): Pool
    requires InPool(p, i)
  {
    p.(blocks := p.blocks[i := t], traces := p.traces[p.ids[i] := p.traces[p.ids[i]] + events])
  }

  /** coap_clear_transaction */
  function Without(p: Pool, i: nat, t: Transaction, events: seq<Event>): Pool
    requires InPool(p, i)
  {
    p.(blocks := p.blocks[i := t.(pending := false)], used := p.used[i := false], list := Remove(p.list, i),
       traces := p.traces[p.ids[i] := p.traces[p.ids[i]] + events])
  }

  lemma SoundInPool(p: Pool, i: nat)
    requires Sound(p) && i in p.list
    ensures Listed(p, i) && InPool(p, i)
  {
  }

  lemma KeptSound(p: Pool, i: nat, t: Transaction, r: Record, events: seq<Event>)
    requires Sound(p) && i in p.list && InPool(p, i)
    requires Live(t, r, p.traces[p.ids[i]] + events) && Timed(t, p.now)
    ensures Sound(WithBlock(WithRecord(p, i, r), i, t, events))
  {
    hide Live, Timed, Over;
    var p' := WithBlock(WithRecord(p, i, r), i, t, events);
    forall j | j in p'.list
      ensures Listed(p', j)
    {
      assert Listed(p, j);
    }
    forall k: nat | k < |p'.traces| && Unheld(p', k)
      ensures Over(p'.records[k], p'.traces[k], p'.now)
    {
      assert !Holds(p', i, k);
      assert Unheld(p, k) by {
        forall j: nat | j in p.list
          ensures !Holds(p, j, k)
        {
          assert !Holds(p', j, k);
        }
      }
    }
  }

  lemma WithoutSound(p: Pool, i: nat, t: Transaction, r: Record, events: seq<Event>)
    requires Sound(p) && i in p.list && InPool(p, i)
    requires Over(r, p.traces[p.ids[i]] + events, p.now)
    ensures Sound(Without(WithRecord(p, i, r), i, t, events))
  {
    hide Live, Timed, Over;
    RemoveDistinct(p.list, i);
    var p' := Without(WithRecord(p, i, r), i, t, events);
    forall j | j in p'.list
      ensures Listed(p', j)
    {
      assert Listed(p, j);
    }
    forall k: nat | k < |p'.traces| && Unheld(p', k)
      ensures Over(p'.records[k], p'.traces[k], p'.now)
    {
      if k != p.ids[i] {
        assert Unheld(p, k) by {
          forall j: nat | j in p.list
            ensures !Holds(p, j, k)
          {
            if j != i {
              assert !Holds(p', j, k);
            }
          }
        }
      }
    }
  }

  lemma SameRecord(p: Pool, i: nat)
    requires InPool(p, i)
    ensures WithRecord(p, i, p.records[p.ids[i]]) == p
  {
  }

  predicate Free(p: Pool, i: nat) {
    i < |p.used| && !p.used[i]
  }

  /** coap_new_transaction, in a free block.  Its callback field keeps what it had. */
  function Opened(p: Pool, i: nat, mid: uint16): Pool
    requires i < |p.blocks| && i < |p.used| && i < |p.ids|
  {
    p.(blocks := p.blocks[i := p.blocks[i].(mid := mid, counter := 0, sent := false)], used := p.used[i := true],
       list := p.list + [i], ids := p.ids[i := |p.traces|], records := p.records + [Unsent], traces := p.traces + [[]])
  }

  lemma OpenedSound(p: Pool, i: nat, mid: uint16)
    requires Sound(p) && Free(p, i)
    ensures Sound(Opened(p, i, mid)) && (Calm(p) ==> Calm(Opened(p, i, mid)))
  {
    hide Over, OnSchedule;
    var p' := Opened(p, i, mid);
    forall j | j in p'.list
      ensures Listed(p', j)
    {
      if j != i {
        assert Listed(p, j);
      }
    }
    forall j, k | j in p'.list && k in p'.list && j != k
      ensures p'.ids[j] != p'.ids[k]
    {
      assert j != i ==> Listed(p, j);
      assert k != i ==> Listed(p, k);
    }
    forall k: nat | k < |p'.traces| && Unheld(p', k)
      ensures Over(p'.records[k], p'.traces[k], p'.now)
    {
      assert !Holds(p', i, k);
      assert Unheld(p, k) by {
        forall j: nat | j in p.list
          ensures !Holds(p, j, k)
        {
          assert !Holds(p', j, k);
        }
      }
    }
  }

  /** A new transaction, which coap_receive remembers if it has opened it. */
  function OpenedBy(p: Pool, i: nat, mid: uint16, engine: bool): Pool
    requires i < |p.blocks| && i < |p.used| && i < |p.ids|
  {
    if engine then Remembering(Opened(p, i, mid), Some(i)) else Opened(p, i, mid)
  }

  lemma OpenedInv(p: Pool, i: nat, mid: uint16, engine: bool)
    requires Inv(p) && Free(p, i)
    ensures |p.blocks| == |p.used| == |p.ids| && Inv(OpenedBy(p, i, mid, engine))
  {
    OpenedSound(p, i, mid);
    if engine {
      RememberingInv(Opened(p, i, mid), Some(i));
    }
  }

  /** The block of a new transaction when its packet has been filled in and, perhaps, a
      callback registered. */
  function Filled(t: Transaction, confirmable: bool, callback: Option<nat>): Transaction {
    t.(confirmable := confirmable, callback := if callback.Some? then callback else t.callback)
  }

  /** The first transmission of a transaction. */
  function FirstSent(p: Pool, i: nat, confirmable: bool, callback: Option<nat>, initial: nat): Pool
    requires InPool(p, i)
  {
    var t := Filled(p.blocks[i], confirmable, callback);
    if confirmable then WithBlock(WithRecord(p, i, Asking(t.mid, p.now, initial, t.callback)), i, Kept(t, p.now, initial), [Sent(p.now)])
    else Without(WithRecord(p, i, Told(p.now)), i, t, [Sent(p.now), Freed(p.now)])
  }

  lemma FirstSound(p: Pool, i: nat, confirmable: bool, callback: Option<nat>, initial: nat)
    requires Sound(p) && i in p.list && InPool(p, i) && !p.blocks[i].sent && initial > 0
    ensures p.blocks[i].counter == 0 && p.traces[p.ids[i]] == []
    ensures var p' := FirstSent(p, i, confirmable, callback, initial); Sound(p') && (Calm(p) ==> Calm(p'))
  {
    assert Listed(p, i);
    var t := Filled(p.blocks[i], confirmable, callback);
    assert [] + [Sent(p.now)] == [Sent(p.now)] && [] + [Sent(p.now), Freed(p.now)] == [Sent(p.now), Freed(p.now)];
    if confirmable {
      FirstSend(t, p.now, initial);
      KeptSound(p, i, Kept(t, p.now, initial), Asking(t.mid, p.now, initial, t.callback), [Sent(p.now)]);
    } else {
      WithoutSound(p, i, t, Told(p.now), [Sent(p.now), Freed(p.now)]);
    }
  }

  /** A transaction that is cleared without having been sent. */
  function Cleared(p: Pool, i: nat): Pool
    requires InPool(p, i)
  {
    Without(WithRecord(p, i, Dropped(p.now)), i, p.blocks[i], [Freed(p.now)])
  }

  lemma ClearedSound(p: Pool, i: nat)
    requires Sound(p) && i in p.list && InPool(p, i) && !p.blocks[i].sent
    ensures Sound(Cleared(p, i)) && (Calm(p) ==> Calm(Cleared(p, i)))
  {
    assert Listed(p, i);
    assert [] + [Freed(p.now)] == [Freed(p.now)];
    WithoutSound(p, i, p.blocks[i], Dropped(p.now), [Freed(p.now)]);
  }

  /** Block `i` holds a listed transaction with this message id. */
  predicate AnswersTo(p: Pool, i: nat, mid: uint16) {
    i in p.list && i < |p.blocks| && p.blocks[i].mid == mid
  }

  /** The pool after transaction `i` was answered: freed, and its callback called once. */
  function Closing(p: Pool, i: nat): Pool
    requires InPool(p, i)
  {
    Without(WithRecord(p, i, WithAnswer(p.records[p.ids[i]], p.now)), i, p.blocks[i],
            [Freed(p.now)] + Calls(p.blocks[i].callback, true, p.now))
  }

  lemma AnswerSound(p: Pool, i: nat)
    requires Inv(p) && AllSent(p) && i in p.list && InPool(p, i)
    ensures p.records[p.ids[i]].Asking? && p.records[p.ids[i]].mid == p.blocks[i].mid
    ensures var r := p.records[p.ids[i]]; r.first <= p.now < r.first + 15 * r.initial
    ensures Inv(Closing(p, i)) && AllSent(Closing(p, i))
  {
    assert Listed(p, i);
    AnswerEnds(p.blocks[i], p.records[p.ids[i]], p.traces[p.ids[i]], p.now);
    WithoutSound(p, i, p.blocks[i], WithAnswer(p.records[p.ids[i]], p.now), [Freed(p.now)] + Calls(p.blocks[i].callback, true, p.now));
  }

  // ----- What coap_receive remembers -----

  function Remembering(p: Pool, t: Option<nat>): Pool {
    p.(remembered := t)
  }

  lemma RememberingInv(p: Pool, t: Option<nat>)
    requires Inv(p) && (t.Some? ==> InPool(p, t.value))
    ensures Inv(Remembering(p, t))
  {
    hide Live, Timed, Over;
    var p' := Remembering(p, t);
    forall i | i in p'.list
      ensures Listed(p', i)
    {
      assert Listed(p, i);
    }
    forall k: nat | k < |p'.traces| && Unheld(p', k)
      ensures Over(p'.records[k], p'.traces[k], p'.now)
    {
      assert Unheld(p, k) by {
        forall i: nat | i in p.list
          ensures !Holds(p, i, k)
        {
          assert !Holds(p', i, k);
        }
      }
    }
  }

  /** The remembered block is the one that holds transaction `k`. */
  predicate Remembers(p: Pool, k: nat) {
    p.remembered.Some? && Holds(p, p.remembered.value, k)
  }

  /** A refused datagram: coap_receive has not assigned `transaction`, and clears it. */
  function Refusing(p: Pool): Pool {
    if p.remembered.Some? && p.remembered.value in p.list && InPool(p, p.remembered.value) then
      var i := p.remembered.value;
      Without(WithRecord(p, i, WithKill(p.records[p.ids[i]], p.now)), i, p.blocks[i], [Freed(p.now)])
    else p
  }

  lemma RefusingInv(p: Pool)
    requires Inv(p) && AllSent(p)
    ensures Inv(Refusing(p)) && AllSent(Refusing(p))
    ensures p.remembered.Some? && p.remembered.value in p.list ==>
      && InPool(p, p.remembered.value)
      && var r := p.records[p.ids[p.remembered.value]]; r.Asking? && r.first <= p.now < r.first + 15 * r.initial
  {
    if p.remembered.Some? && p.remembered.value in p.list {
      var i := p.remembered.value;
      assert Listed(p, i);
      KillEnds(p.blocks[i], p.records[p.ids[i]], p.traces[p.ids[i]], p.now);
      WithoutSound(p, i, p.blocks[i], WithKill(p.records[p.ids[i]], p.now), [Freed(p.now)]);
    }
  }

  lemma {:induction false} RemoveNothing(s: seq<nat>, i: nat)
    requires i !in s
    ensures Remove(s, i) == s
  {
    if s != [] {
      RemoveNothing(s[1..], i);
    }
  }

  /** Clearing a block that is free changes nothing. */
  lemma ClearingFree(p: Pool, i: nat)
    requires Shape(p) && InPool(p, i) && i !in p.list
    ensures Without(p, i, p.blocks[i], []) == p
  {
    RemoveNothing(p.list, i);
    assert p.traces[p.ids[i]] + [] == p.traces[p.ids[i]];
  }

  // ----- Sending again -----

  /** Transactions whose timer has fired and that wait to be sent again. */
  predicate Waiting(p: Pool, i: nat) {
    i in p.list && i < |p.blocks| && p.blocks[i].sent && !p.blocks[i].pending
  }

  /** coap_check_transactions, for one transaction. */
  function Resent(p: Pool, i: nat): Pool
    requires InPool(p, i)
  {
    var t := p.blocks[i].(counter := p.blocks[i].counter + 1);
    if t.counter < COAP_MAX_RETRANSMIT then WithBlock(p, i, Kept(t, p.now, 0), [Sent(p.now)])
    else Without(p, i, t, [Sent(p.now), Freed(p.now)] + Calls(t.callback, false, p.now))
  }

  lemma ResentSound(p: Pool, i: nat)
    requires Sound(p) && AllSent(p) && Waiting(p, i) && InPool(p, i)
    ensures p.blocks[i].confirmable && p.blocks[i].counter < COAP_MAX_RETRANSMIT
    ensures Sound(Resent(p, i)) && AllSent(Resent(p, i))
  {
    assert Listed(p, i);
    var r, trace := p.records[p.ids[i]], p.traces[p.ids[i]];
    var t := p.blocks[i].(counter := p.blocks[i].counter + 1);
    SameRecord(p, i);
    if t.counter < COAP_MAX_RETRANSMIT {
      NextSend(p.blocks[i], r, trace, p.now);
      KeptSound(p, i, Kept(t, p.now, 0), r, [Sent(p.now)]);
    } else {
      LastSend(p.blocks[i], r, trace, p.now);
      WithoutSound(p, i, t, r, [Sent(p.now), Freed(p.now)] + Calls(t.callback, false, p.now));
    }
  }

  /** Block `i`, and the transaction it holds, are the same in both. */
  predicate SameAt(p: Pool, p': Pool, i: nat)
    requires InPool(p, i) && |p'.blocks| == |p.blocks| && |p'.traces| == |p.traces|
  {
    && (i in p'.list <==> i in p.list) && p'.blocks[i] == p.blocks[i]
    && p'.traces[p.ids[i]] == p.traces[p.ids[i]]
  }

  /** The transaction in block `i` was sent once more at a time: it is kept with a doubled
      interval, or after the last transmission it is freed and its callback called. */
  predicate ResentAt(p: Pool, p': Pool, i: nat, now: nat)
    requires InPool(p, i) && |p'.blocks| == |p.blocks| && |p'.traces| == |p.traces|
  {
    var t, k := p.blocks[i].(counter := p.blocks[i].counter + 1), p.ids[i];
    if t.counter < COAP_MAX_RETRANSMIT then
      && i in p'.list && p'.blocks[i] == Kept(t, now, 0)
      && p'.traces[k] == p.traces[k] + [Sent(now)]
    else
      && i !in p'.list && p'.blocks[i] == t.(pending := false)
      && p'.traces[k] == p.traces[k] + ([Sent(now), Freed(now)] + Calls(t.callback, false, now))
  }

  /** What no walk and no tick changes. */
  predicate Frame(p: Pool, p': Pool) {
    && Shape(p) && Shape(p') && p'.ids == p.ids && p'.records == p.records && |p'.traces| == |p.traces|
    && p'.remembered == p.remembered
    && (forall i :: i in p'.list ==> i in p.list)
    && (forall i :: 0 <= i < |p.blocks| && i !in p.list ==> p'.blocks[i] == p.blocks[i])
    && (forall i :: i in p.list ==> InPool(p, i))
    && (forall k: nat :: k < |p.traces| && Unheld(p, k) ==> p'.traces[k] == p.traces[k])
  }

  /** Each transaction is as it was, or it was waiting and has been sent again. */
  predicate Walked(p: Pool, p': Pool) {
    && Frame(p, p') && p'.now == p.now
    && forall i :: i in p.list ==> SameAt(p, p', i) || (Waiting(p, i) && ResentAt(p, p', i, p.now))
  }

  /** coap_check_transactions sends again every waiting transaction among the first `n` of the
      list; it stops early only at one that times out. */
  predicate WalkedTo(p: Pool, p': Pool, n: nat) {
    && Walked(p, p') && n <= |p.list|
    && (forall j :: 0 <= j < |p.list| ==>
          if j < n && Waiting(p, p.list[j]) then ResentAt(p, p', p.list[j], p.now) else SameAt(p, p', p.list[j]))
    && (forall j :: 0 <= j < n && j + 1 < |p.list| ==> (TimesOut(p, p.list[j]) ==> j + 1 == n))
    && (n < |p.list| ==> n > 0 && TimesOut(p, p.list[n - 1]))
  }

  predicate TimesOut(p: Pool, i: nat) {
    Waiting(p, i) && p.blocks[i].counter + 1 >= COAP_MAX_RETRANSMIT
  }

  lemma SameWalk(p: Pool)
    requires Sound(p)
    ensures Walked(p, p)
  {
    forall i | i in p.list
      ensures InPool(p, i)
    {
      SoundInPool(p, i);
    }
  }

  /** A walk that has reached position `k` without freeing anything. */
  predicate WalkedSoFar(p: Pool, p': Pool, k: nat) {
    && Walked(p, p') && k <= |p.list| && p'.list == p.list
    && (forall j :: 0 <= j < |p.list| ==>
          if j < k && Waiting(p, p.list[j]) then ResentAt(p, p', p.list[j], p.now) else SameAt(p, p', p.list[j]))
    && (forall j :: 0 <= j < k ==> !TimesOut(p, p.list[j]))
  }

  lemma ResentIs(p: Pool, i: nat)
    requires Sound(p) && AllSent(p) && Waiting(p, i)
    ensures Sound(Resent(p, i)) && AllSent(Resent(p, i)) && InPool(p, i) && Frame(p, Resent(p, i)) && Resent(p, i).now == p.now
    ensures ResentAt(p, Resent(p, i), i, p.now)
    ensures Resent(p, i).list == if TimesOut(p, i) then Remove(p.list, i) else p.list
    ensures forall j :: j in p.list && j != i ==> InPool(p, j) && SameAt(p, Resent(p, i), j)
  {
    SoundInPool(p, i);
    ResentSound(p, i);
    forall j | j in p.list
      ensures InPool(p, j)
    {
      SoundInPool(p, j);
    }
    hide Live, Timed, Over, Calls;
    forall k: nat | k < |p.traces| && Unheld(p, k)
      ensures Resent(p, i).traces[k] == p.traces[k]
    {
      assert !Holds(p, i, k);
    }
  }

  /** What happened to block `j` is what had happened before a step that left it alone. */
  lemma Carry(p: Pool, q: Pool, q': Pool, j: nat)
    requires InPool(p, j) && InPool(q, j) && q.ids == p.ids && |q.blocks| == |p.blocks| && |q.traces| == |p.traces|
    requires |q'.blocks| == |q.blocks| && |q'.traces| == |q.traces| && SameAt(q, q', j)
    ensures SameAt(p, q, j) ==> SameAt(p, q', j)
    ensures ResentAt(p, q, j, p.now) ==> ResentAt(p, q', j, p.now)
  {
    hide Calls, Kept;
  }

  lemma ThisOne(p: Pool, q: Pool, i: nat)
    requires InPool(p, i) && InPool(q, i) && q.ids == p.ids && |q.blocks| == |p.blocks| && |q.traces| == |p.traces| && q.now == p.now
    requires SameAt(p, q, i) && i in p.list
    ensures (Waiting(q, i) <==> Waiting(p, i)) && (TimesOut(q, i) <==> TimesOut(p, i))
    ensures forall q': Pool :: |q'.blocks| == |q.blocks| && |q'.traces| == |q.traces| && ResentAt(q, q', i, q.now) ==> ResentAt(p, q', i, p.now)
  {
    hide Calls, Kept;
  }

  lemma WalkFacts(p: Pool, q: Pool, k: nat)
    requires WalkedSoFar(p, q, k)
    ensures Walked(p, q) && k <= |p.list| && q.list == p.list && q.ids == p.ids && q.now == p.now
    ensures |q.blocks| == |p.blocks| && |q.traces| == |p.traces| && Distinct(p.list)
    ensures forall i :: i in p.list ==> InPool(p, i) && InPool(q, i)
    ensures forall j :: 0 <= j < |p.list| ==>
      if j < k && Waiting(p, p.list[j]) then ResentAt(p, q, p.list[j], p.now) else SameAt(p, q, p.list[j])
    ensures forall j :: 0 <= j < k ==> !TimesOut(p, p.list[j])
  {
  }

  lemma ResentWalks(p: Pool, i: nat)
    requires Sound(p) && AllSent(p) && Waiting(p, i)
    ensures InPool(p, i) && Walked(p, Resent(p, i))
    ensures |Resent(p, i).blocks| == |p.blocks| && |Resent(p, i).traces| == |p.traces|
  {
    ResentIs(p, i);
    hide Resent, SameAt, ResentAt, Sound, Shape;
  }

  /** A walk goes on with one more transaction that was not looked at before. */
  lemma WalkOn(p: Pool, q: Pool, k: nat)
    requires Sound(p) && Sound(q) && AllSent(q) && WalkedSoFar(p, q, k) && k < |p.list|
    ensures var i := p.list[k];
      && (Waiting(q, i) <==> Waiting(p, i)) && (TimesOut(q, i) <==> TimesOut(p, i))
      && (!Waiting(q, i) ==> WalkedSoFar(p, q, k + 1))
      && (Waiting(q, i) && !TimesOut(q, i) ==> InPool(q, i) && WalkedSoFar(p, Resent(q, i), k + 1))
      && (Waiting(q, i) && TimesOut(q, i) ==> InPool(q, i) && WalkedTo(p, Resent(q, i), k + 1))
  {
    hide *;
    WalkFacts(p, q, k);
    var i := p.list[k];
    ThisOne(p, q, i);
    OutIsWaiting(p, i);
    if !Waiting(q, i) {
      LooksBack(p, q, k + 1);
    } else {
      ResentIs(q, i);
      ResentWalks(q, i);
      var q' := Resent(q, i);
      WalkAgain(p, q, q');
      forall j | 0 <= j < |p.list|
        ensures if j < k + 1 && Waiting(p, p.list[j]) then ResentAt(p, q', p.list[j], p.now) else SameAt(p, q', p.list[j])
      {
        if j != k {
          DifferentItems(p.list, j, k);
          Carry(p, q, q', p.list[j]);
        }
      }
      LooksBack(p, q', k + 1);
    }
  }

  lemma DifferentItems(s: seq<nat>, j: nat, k: nat)
    requires Distinct(s) && j < |s| && k < |s| && j != k
    ensures s[j] != s[k]
  {
  }

  lemma LooksBack(p: Pool, q: Pool, k: nat)
    requires Walked(p, q) && 0 < k <= |p.list|
    requires forall i :: i in p.list ==> InPool(p, i)
    requires |q.blocks| == |p.blocks| && |q.traces| == |p.traces|
    requires forall j :: 0 <= j < |p.list| ==>
      if j < k && Waiting(p, p.list[j]) then ResentAt(p, q, p.list[j], p.now) else SameAt(p, q, p.list[j])
    requires forall j :: 0 <= j < k - 1 ==> !TimesOut(p, p.list[j])
    ensures q.list == p.list && !TimesOut(p, p.list[k - 1]) ==> WalkedSoFar(p, q, k)
    ensures TimesOut(p, p.list[k - 1]) ==> WalkedTo(p, q, k)
  {
    hide Shape, SameAt, ResentAt, TimesOut;
  }

  lemma OutIsWaiting(p: Pool, i: nat)
    ensures TimesOut(p, i) ==> Waiting(p, i)
  {
  }

  lemma WalkEnds(p: Pool, q: Pool)
    requires WalkedSoFar(p, q, |p.list|)
    ensures WalkedTo(p, q, |p.list|)
  {
  }

  /** One walk after another. */
  lemma WalkAgain(a: Pool, b: Pool, c: Pool)
    requires Walked(a, b) && Walked(b, c)
    ensures Walked(a, c)
  {
    forall i | i in a.list
      ensures SameAt(a, c, i) || (Waiting(a, i) && ResentAt(a, c, i, a.now))
    {
      assert SameAt(a, b, i) || (Waiting(a, i) && ResentAt(a, b, i, a.now));
      if i in b.list {
        assert SameAt(b, c, i) || (Waiting(b, i) && ResentAt(b, c, i, b.now));
      }
    }
  }

  // ----- One tick of the clock -----

  /** The block after the clock has moved to `now`. */
  function Fired(t: Transaction, now: nat): Transaction {
    if t.pending && Due(t) == now then t.(pending := false) else t
  }

  predicate DueNext(p: Pool, i: nat) {
    i < |p.blocks| && p.blocks[i].pending && Due(p.blocks[i]) == p.now + 1
  }

  /** One tick of an exact clock: exactly the transactions that are due are sent again. */
  predicate Ticks(p: Pool, p': Pool) {
    && Frame(p, p') && p'.now == p.now + 1
    && forall i :: i in p.list ==> if DueNext(p, i) then ResentAt(p, p', i, p.now + 1) else SameAt(p, p', i)
  }

  lemma OverLater(r: Record, trace: seq<Event>, now: nat, later: nat)
    requires Over(r, trace, now) && now <= later
    ensures Over(r, trace, later)
  {
  }

  /** The pool when the timers have fired. */
  predicate FiredFrom(p: Pool, q: Pool) {
    && q == p.(blocks := q.blocks, now := p.now + 1) && |q.blocks| == |p.blocks|
    && forall i :: 0 <= i < |p.blocks| ==> q.blocks[i] == Fired(p.blocks[i], p.now + 1)
  }

  /** The passing of time keeps the invariant of the pool. */
  lemma FiredSound(p: Pool, q: Pool)
    requires Inv(p) && AllSent(p) && FiredFrom(p, q)
    ensures Sound(q) && AllSent(q)
  {
    forall i | i in q.list
      ensures Listed(q, i)
    {
      assert Listed(p, i);
    }
    forall k: nat | k < |q.traces| && Unheld(q, k)
      ensures Over(q.records[k], q.traces[k], q.now)
    {
      assert Unheld(p, k) by {
        forall i: nat | i in p.list
          ensures !Holds(p, i, k)
        {
          assert !Holds(q, i, k);
        }
      }
      OverLater(p.records[k], p.traces[k], p.now, q.now);
    }
  }

  /** Timers that fire, and walks until nobody waits, make up one tick. */
  lemma TickIs(p: Pool, q: Pool, p': Pool)
    requires Inv(p) && AllSent(p) && FiredFrom(p, q) && Walked(q, p') && Calm(p')
    ensures Ticks(p, p')
  {
    forall i | i in p.list
      ensures InPool(p, i)
      ensures if DueNext(p, i) then ResentAt(p, p', i, p.now + 1) else SameAt(p, p', i)
    {
      SoundInPool(p, i);
      assert SameAt(q, p', i) || (Waiting(q, i) && ResentAt(q, p', i, q.now));
      assert DueNext(p, i) <==> Waiting(q, i);
    }
    forall k: nat | k < |p.traces| && Unheld(p, k)
      ensures p'.traces[k] == p.traces[k]
    {
      assert Unheld(q, k) by {
        forall i: nat | i in q.list
          ensures !Holds(q, i, k)
        {
          assert !Holds(p, i, k);
        }
      }
    }
  }

  /** What a tick makes of one listed transaction. */
  lemma TickAt(p: Pool, p': Pool, i: nat)
    requires Inv(p) && AllSent(p) && Ticks(p, p') && i in p.list
    ensures InPool(p, i) && p.ids[i] < |p'.traces| == |p'.records|
    ensures i in p'.list ==> Listed(p', i) && p'.blocks[i].sent && p'.blocks[i].pending
    ensures i !in p'.list ==> Over(p'.records[p.ids[i]], p'.traces[p.ids[i]], p'.now)
  {
    SoundInPool(p, i);
    var r, trace := p.records[p.ids[i]], p.traces[p.ids[i]];
    if DueNext(p, i) {
      if p.blocks[i].counter + 1 < COAP_MAX_RETRANSMIT {
        NextSend(p.blocks[i], r, trace, p.now + 1);
      } else {
        LastSend(p.blocks[i], r, trace, p.now + 1);
      }
    }
  }

  lemma TickKeeps(p: Pool, p': Pool)
    requires Inv(p) && AllSent(p) && Ticks(p, p')
    ensures Inv(p') && AllSent(p')
  {
    forall i | i in p'.list
      ensures Listed(p', i) && p'.blocks[i].sent && p'.blocks[i].pending
    {
      TickAt(p, p', i);
    }
    forall k: nat | k < |p'.traces| && Unheld(p', k)
      ensures Over(p'.records[k], p'.traces[k], p'.now)
    {
      if Unheld(p, k) {
        OverLater(p.records[k], p.traces[k], p.now, p'.now);
      } else {
        var i: nat :| i in p.list && Holds(p, i, k);
        assert !Holds(p', i, k) by {
          assert i in p'.list ==> !Holds(p', i, k);
        }
        TickAt(p, p', i);
      }
    }
  }

  // ----- Runs -----

  /** What can happen to the layer.  An event handler runs to its end before the next one
      starts, so that messages and ticks find nothing that was opened and not sent. */
  datatype Step =
    | Open(mid: uint16, engine: bool) // for a request that coap_receive serves, or by others
    | Send(block: nat, confirmable: bool, callback: Option<nat>, initial: nat)
    | Clear(block: nat)
    | Message(mid: uint16) // anything but a request
    | Refused // a datagram that coap_parse_message refuses
    | Tick

  ghost predicate Next(p: Pool, step: Step, p': Pool) {
    match step
    case Open(mid, engine) =>
      if exists i: nat :: Free(p, i) then
        exists i: nat :: Free(p, i) && i < |p.blocks| && i < |p.ids| && p' == OpenedBy(p, i, mid, engine)
      else p' == if engine then Remembering(p, None) else p
    case Send(i, confirmable, callback, initial) =>
      i in p.list && InPool(p, i) && !p.blocks[i].sent && initial > 0 && p' == FirstSent(p, i, confirmable, callback, initial)
    case Clear(i) =>
      i in p.list && InPool(p, i) && !p.blocks[i].sent && p' == Cleared(p, i)
    case Message(mid) =>
      && AllSent(p)
      && if exists i: nat :: AnswersTo(p, i, mid) then exists i: nat :: AnswersTo(p, i, mid) && InPool(p, i) && p' == Remembering(Closing(p, i), None)
         else p' == Remembering(p, None)
    case Refused => AllSent(p) && p' == Refusing(p)
    case Tick => AllSent(p) && Ticks(p, p')
  }

  lemma NextKeeps(p: Pool, step: Step, p': Pool)
    requires Inv(p) && Next(p, step, p')
    ensures Inv(p')
  {
    hide Sound, Ticks, Shape;
    match step
    case Open(mid, engine) =>
      if exists i: nat :: Free(p, i) {
        var i: nat :| Free(p, i) && i < |p.blocks| && i < |p.ids| && p' == OpenedBy(p, i, mid, engine);
        OpenedInv(p, i, mid, engine);
      } else {
        RememberingInv(p, None);
      }
    case Send(i, confirmable, callback, initial) =>
      FirstSound(p, i, confirmable, callback, initial);
    case Clear(i) =>
      ClearedSound(p, i);
    case Message(mid) =>
      if exists i: nat :: AnswersTo(p, i, mid) {
        var i: nat :| AnswersTo(p, i, mid) && InPool(p, i) && p' == Remembering(Closing(p, i), None);
        AnswerSound(p, i);
        RememberingInv(Closing(p, i), None);
      } else {
        RememberingInv(p, None);
      }
    case Refused =>
      RefusingInv(p);
    case Tick =>
      TickKeeps(p, p');
  }

  ghost predicate Init(p: Pool) {
    && |p.blocks| == |p.used| == |p.ids| == COAP_MAX_OPEN_TRANSACTIONS
    && (forall i :: 0 <= i < |p.blocks| ==> !p.used[i] && !p.blocks[i].pending)
    && p.list == [] && p.records == [] && p.traces == [] && p.remembered == None
  }

  /** A run: pools that follow one another by the given steps. */
  ghost predicate Run(run: seq<Pool>, steps: seq<Step>) {
    && |run| == |steps| + 1 && Init(run[0])
    && forall n :: 0 <= n < |steps| ==> Next(run[n], steps[n], run[n + 1])
  }

  lemma {:induction false} RunKeeps(run: seq<Pool>, steps: seq<Step>, n: nat)
    requires Run(run, steps) && n < |run|
    ensures Inv(run[n])
  {
    if n > 0 {
      RunKeeps(run, steps, n - 1);
      NextKeeps(run[n - 1], steps[n - 1], run[n]);
    }
  }

  /** At any moment of any run, every transaction that was ever opened has had exactly the
      events that are due by then. */
  lemma Lifetime(run: seq<Pool>, steps: seq<Step>, n: nat, k: nat)
    requires Run(run, steps) && n < |run| && k < |run[n].traces|
    ensures k < |run[n].records| && run[n].traces[k] == Expected(run[n].records[k], run[n].now)
  {
    RunKeeps(run, steps, n);
    TracesAsExpected(run[n], k);
  }

  /** Only four things change what is recorded of a transaction: its first transmission, its
      being cleared instead, and, before it has timed out, a message with its id or a refused
      datagram while coap_receive remembers its block. */
  lemma RecordsMove(p: Pool, step: Step, p': Pool, k: nat)
    requires Inv(p) && Next(p, step, p') && k < |p.records|
    ensures k < |p'.records|
    ensures var r, r' := p.records[k], p'.records[k];
      || r' == r
      || (r.Unsent? && (step.Send? || step.Clear?) && step.block < |p.ids| && p.ids[step.block] == k)
      || (r.Asking? && step == Message(r.mid) && r.first <= p.now < r.first + 15 * r.initial && r' == WithAnswer(r, p.now))
      || (r.Asking? && step == Refused && r.first <= p.now < r.first + 15 * r.initial && Remembers(p, k) && r' == WithKill(r, p.now))
  {
    hide Live, Timed, Over;
    match step
    case Open(mid, _) =>
    case Send(i, _, _, _) =>
      UnsentRecord(p, i);
    case Clear(i) =>
      UnsentRecord(p, i);
    case Message(mid) =>
      if exists i: nat :: AnswersTo(p, i, mid) {
        var i: nat :| AnswersTo(p, i, mid) && InPool(p, i) && p' == Remembering(Closing(p, i), None);
        AnswerSound(p, i);
      }
    case Refused =>
      RefusingInv(p);
    case Tick =>
  }

  lemma UnsentRecord(p: Pool, i: nat)
    requires Sound(p) && i in p.list && InPool(p, i) && !p.blocks[i].sent
    ensures p.records[p.ids[i]].Unsent?
  {
    assert Listed(p, i);
  }

  /** A waiting transaction survives a refused datagram if and only if coap_receive does not
      remember its block; otherwise it is freed on the spot, and its callback is never called. */
  lemma SurvivesRefused(p: Pool, p': Pool, k: nat)
    requires Inv(p) && Next(p, Refused, p') && k < |p.records| && p.records[k].Asking?
    requires p.now < p.records[k].first + 15 * p.records[k].initial
    ensures k < |p'.records| && k < |p'.traces|
    ensures (p'.records[k] == p.records[k] && p'.traces[k] == p.traces[k]) <==> !Remembers(p, k)
    ensures Remembers(p, k) ==> p'.records[k] == WithKill(p.records[k], p.now) && p'.traces[k] == p.traces[k] + [Freed(p.now)]
  {
    hide Live, Timed, Over;
    RefusingInv(p);
  }

  /** Nothing that has happened to a transaction is taken back. */
  lemma TracesGrow(p: Pool, step: Step, p': Pool, k: nat)
    requires Inv(p) && Next(p, step, p') && k < |p.traces|
    ensures k < |p'.traces| && p.traces[k] <= p'.traces[k]
  {
    hide Live, Timed, Over, Ticks;
    match step
    case Open(mid, _) =>
    case Send(i, _, _, _) =>
    case Clear(i) =>
    case Message(mid) =>
    case Refused =>
    case Tick =>
      TickGrows(p, p', k);
  }

  lemma TickGrows(p: Pool, p': Pool, k: nat)
    requires Ticks(p, p') && k < |p.traces|
    ensures k < |p'.traces| && p.traces[k] <= p'.traces[k]
  {
    if !Unheld(p, k) {
      var i: nat :| i in p.list && Holds(p, i, k);
      assert if DueNext(p, i) then ResentAt(p, p', i, p.now + 1) else SameAt(p, p', i);
    }
  }

  /** No step from `s` to before `n` is a message with this id, or a refused datagram while
      coap_receive remembers the block of transaction `k`. */
  predicate Undisturbed(run: seq<Pool>, steps: seq<Step>, s: nat, n: nat, mid: uint16, k: nat) {
    forall j :: s <= j < n && j < |steps| && j < |run| ==> steps[j] != Message(mid) && !(steps[j] == Refused && Remembers(run[j], k))
  }

  /** What the first transmission of a confirmable transaction records. */
  function Request(p: Pool, step: Step): Record
    requires step.Send? && step.block < |p.blocks|
  {
    var t := Filled(p.blocks[step.block], step.confirmable, step.callback);
    Asking(t.mid, p.now, step.initial, t.callback)
  }

  lemma {:induction false} StillAsking(run: seq<Pool>, steps: seq<Step>, s: nat, n: nat)
    requires Run(run, steps) && s < n <= |steps|
    requires steps[s].Send? && steps[s].confirmable && steps[s].block < |run[s].blocks| && steps[s].block < |run[s].ids|
    requires Undisturbed(run, steps, s + 1, n, run[s].blocks[steps[s].block].mid, run[s].ids[steps[s].block])
    ensures var k := run[s].ids[steps[s].block]; k < |run[n].records| && run[n].records[k] == Request(run[s], steps[s])
  {
    hide *;
    RunStep(run, steps, s);
    RequestRecorded(run[s], steps[s], run[s + 1]);
    if n > s + 1 {
      NotDisturbed(run, steps, s + 1, n, run[s].blocks[steps[s].block].mid, run[s].ids[steps[s].block]);
      StillAsking(run, steps, s, n - 1);
      RunKeeps(run, steps, n - 1);
      RunStep(run, steps, n - 1);
      RecordsMove(run[n - 1], steps[n - 1], run[n], run[s].ids[steps[s].block]);
    }
  }

  lemma RequestRecorded(p: Pool, step: Step, p': Pool)
    requires Next(p, step, p') && step.Send? && step.confirmable && step.block < |p.blocks| && step.block < |p.ids|
    ensures p.ids[step.block] < |p'.records| && p'.records[p.ids[step.block]] == Request(p, step)
    ensures Request(p, step).Asking? && Request(p, step).mid == p.blocks[step.block].mid
  {
  }

  lemma NotDisturbed(run: seq<Pool>, steps: seq<Step>, s: nat, n: nat, mid: uint16, k: nat)
    requires Undisturbed(run, steps, s, n, mid, k) && s < n <= |steps| && |run| == |steps| + 1
    ensures steps[n - 1] != Message(mid) && !(steps[n - 1] == Refused && Remembers(run[n - 1], k))
    ensures Undisturbed(run, steps, s, n - 1, mid, k)
  {
  }

  lemma RunStep(run: seq<Pool>, steps: seq<Step>, n: nat)
    requires Run(run, steps) && n < |steps|
    ensures |run| == |steps| + 1 && Next(run[n], steps[n], run[n + 1])
  {
  }

  /** Sections 4.2 and 4.8.2 of RFC 7252.  A confirmable message that is first sent at time f
      with the initial interval I is, as long as no message with its id arrives and no datagram
      is refused while coap_receive remembers its block, sent at f, f + I, f + 3I, f + 7I and
      f + 15I and then freed once, and the callback that was registered for it is called once
      with NULL; nothing else happens to it. */
  lemma Unanswered(run: seq<Pool>, steps: seq<Step>, s: nat, n: nat)
    requires Run(run, steps) && s < n <= |steps|
    requires steps[s].Send? && steps[s].confirmable && steps[s].block < |run[s].blocks| && steps[s].block < |run[s].ids|
    requires Undisturbed(run, steps, s + 1, n, run[s].blocks[steps[s].block].mid, run[s].ids[steps[s].block])
    ensures var f, initial, k := run[s].now, steps[s].initial, run[s].ids[steps[s].block];
      var callback := if steps[s].callback.Some? then steps[s].callback else run[s].blocks[steps[s].block].callback;
      && k < |run[n].traces|
      && (run[n].now < f + 15 * initial ==> run[n].traces[k] == Sends(f, initial, DueBy(f, initial, run[n].now)))
      && (run[n].now >= f + 15 * initial ==> run[n].traces[k] == TimedOut(f, initial, callback))
  {
    StillAsking(run, steps, s, n);
    RunKeeps(run, steps, n);
    Lifetime(run, steps, n, run[s].ids[steps[s].block]);
  }

  /** The pool when the first request has been served from block 0. */
  predicate Served(p: Pool, now: nat) {
    && |p.blocks| == |p.used| == |p.ids| == COAP_MAX_OPEN_TRANSACTIONS && !p.used[0]
    && p.list == [] && |p.records| == |p.traces| == 1 && p.remembered == Some(0) && p.now == now
  }

  lemma ServedPool(p: Pool, mid: uint16, initial: nat)
    requires Init(p) && initial > 0
    ensures 0 < |p.blocks| == |p.used| == |p.ids| && InPool(OpenedBy(p, 0, mid, true), 0)
    ensures Next(p, Open(mid, true), OpenedBy(p, 0, mid, true))
    ensures var p1 := OpenedBy(p, 0, mid, true); var p2 := FirstSent(p1, 0, false, None, initial);
      Next(p1, Send(0, false, None, initial), p2) && Served(p2, p.now) && p2.now == p.now
  {
    assert Free(p, 0);
    RemoveLast(p.list, 0);
    var p1 := OpenedBy(p, 0, mid, true);
    assert 0 in p1.list;
    assert p1.traces[p1.ids[0]] == [];
  }

  lemma RemoveLast(s: seq<nat>, i: nat)
    requires s == []
    ensures Remove(s + [i], i) == [] && i in s + [i]
  {
    assert (s + [i])[1..] == [];
  }

  lemma AskingPool(p: Pool, mid: uint16, callback: nat, initial: nat)
    requires Served(p, p.now) && initial > 0
    ensures 0 < |p.blocks| == |p.used| == |p.ids| && InPool(OpenedBy(p, 0, mid, false), 0)
    ensures Next(p, Open(mid, false), OpenedBy(p, 0, mid, false))
    ensures var p1 := OpenedBy(p, 0, mid, false); var p2 := FirstSent(p1, 0, true, Some(callback), initial);
      && Next(p1, Send(0, true, Some(callback), initial), p2) && Next(p2, Refused, Refusing(p2))
      && var q := Refusing(p2);
      && |q.traces| == |q.records| == 2 && q.list == [] && q.records[1] == Killed(mid, p.now, initial, Some(callback), p.now)
      && q.traces[1] == [Sent(p.now), Freed(p.now)]
  {
    assert Free(p, 0);
    RemoveLast(p.list, 0);
    var p1 := OpenedBy(p, 0, mid, false);
    assert 0 in p1.list && p1.traces[1] == [] && p1.ids[0] == 1;
    var p2 := FirstSent(p1, 0, true, Some(callback), initial);
    assert p2.list == p1.list && p2.ids == p1.ids && AllSent(p2);
    assert DueBy(p.now, initial, p.now) == 1 && Sends(p.now, initial, 1) == [Sent(p.now)];
  }

  lemma FiveSteps(run: seq<Pool>, steps: seq<Step>)
    requires |steps| == 5 && |run| == 6 && Init(run[0])
    requires Next(run[0], steps[0], run[1]) && Next(run[1], steps[1], run[2]) && Next(run[2], steps[2], run[3])
    requires Next(run[3], steps[3], run[4]) && Next(run[4], steps[4], run[5])
    ensures Run(run, steps)
  {
    hide Next, Init;
  }

  /** The section above is not what every unanswered message gets.  A request is served from
      block 0; then a confirmable message is sent from the same block, and then a datagram is
      refused: the message is freed at once, with no timeout and no call, and no message ever
      arrived. */
  lemma RefusedKills(p: Pool, mid: uint16, other: uint16, callback: nat, initial: nat)
    returns (run: seq<Pool>, steps: seq<Step>)
    requires Init(p) && initial > 0
    ensures steps == [Open(mid, true), Send(0, false, None, initial), Open(other, false), Send(0, true, Some(callback), initial), Refused]
    ensures Run(run, steps) && run[0] == p && |run[5].traces| == |run[5].records| == 2
    ensures run[5].records[1] == Killed(other, p.now, initial, Some(callback), p.now)
    ensures run[5].traces[1] == [Sent(p.now), Freed(p.now)] && run[5].list == []
  {
    hide *;
    ServedPool(p, mid, initial);
    var p1 := OpenedBy(p, 0, mid, true);
    var p2 := FirstSent(p1, 0, false, None, initial);
    AskingPool(p2, other, callback, initial);
    var p3 := OpenedBy(p2, 0, other, false);
    var p4 := FirstSent(p3, 0, true, Some(callback), initial);
    var p5 := Refusing(p4);
    run := [p, p1, p2, p3, p4, p5];
    steps := [Open(mid, true), Send(0, false, None, initial), Open(other, false), Send(0, true, Some(callback), initial), Refused];
    FiveSteps(run, steps);
  }

  /** In any run, a confirmable message is asked all the time, or was ended before its timeout
      by some step: answered by a message, or cleared by a refused datagram while coap_receive
      remembered its block. */
  lemma {:induction false} Fate(run: seq<Pool>, steps: seq<Step>, s: nat, n: nat) returns (m: nat)
    requires Run(run, steps) && s < n <= |steps|
    requires steps[s].Send? && steps[s].confirmable && steps[s].block < |run[s].blocks| && steps[s].block < |run[s].ids|
    ensures s <= m < n && run[s].ids[steps[s].block] < |run[n].records|
    ensures var r, k := Request(run[s], steps[s]), run[s].ids[steps[s].block];
      var r', now := run[n].records[k], run[m].now;
      || r' == r
      || (s < m && steps[m] == Message(r.mid) && now < r.first + 15 * r.initial && r' == WithAnswer(r, now))
      || (s < m && steps[m] == Refused && now < r.first + 15 * r.initial && Remembers(run[m], k) && r' == WithKill(r, now))
  {
    hide *;
    RunStep(run, steps, s);
    RequestRecorded(run[s], steps[s], run[s + 1]);
    m := s;
    if n > s + 1 {
      m := Fate(run, steps, s, n - 1);
      RunKeeps(run, steps, n - 1);
      RunStep(run, steps, n - 1);
      RecordsMove(run[n - 1], steps[n - 1], run[n], run[s].ids[steps[s].block]);
      AnswerIs(Request(run[s], steps[s]), run[m].now);
      if run[n - 1].records[run[s].ids[steps[s].block]] == Request(run[s], steps[s]) && (steps[n - 1].Message? || steps[n - 1].Refused?) {
        m := n - 1;
      }
    }
  }

  lemma AnswerIs(r: Record, time: nat)
    requires r.Asking?
    ensures WithAnswer(r, time).Answered? && WithKill(r, time).Killed?
  {
  }

  /** A record that says how a transaction ended is final, and so is its trace. */
  lemma {:induction false} FinishedForever(run: seq<Pool>, steps: seq<Step>, m: nat, n: nat, k: nat)
    requires Run(run, steps) && m <= n < |run| && k < |run[m].traces| && k < |run[m].records|
    requires Over(run[m].records[k], run[m].traces[k], run[m].now)
    ensures k < |run[n].records| && k < |run[n].traces| && run[n].now >= run[m].now
    ensures run[n].records[k] == run[m].records[k] && run[n].traces[k] == run[m].traces[k]
  {
    hide Sound, Next, Ticks;
    if n > m {
      FinishedForever(run, steps, m, n - 1, k);
      RunKeeps(run, steps, n - 1);
      RunStep(run, steps, n - 1);
      RecordsMove(run[n - 1], steps[n - 1], run[n], k);
      TimeGoesOn(run[n - 1], steps[n - 1], run[n]);
      TracesGrow(run[n - 1], steps[n - 1], run[n], k);
      Lifetime(run, steps, n, k);
    }
  }

  lemma TimeGoesOn(p: Pool, step: Step, p': Pool)
    requires Next(p, step, p')
    ensures p.now <= p'.now
  {
  }

  /** A message that finds a waiting transaction with its id ends it: it was sent as often as
      was due, is freed once, and its callback is called once with the message; it is never
      sent again. */
  lemma AnsweredOnce(run: seq<Pool>, steps: seq<Step>, m: nat, n: nat, k: nat)
    requires Run(run, steps) && m < n < |run| && steps[m].Message?
    requires k < |run[m].records| && run[m].records[k].Asking? && run[m].records[k].mid == steps[m].mid
    requires run[m].now < run[m].records[k].first + 15 * run[m].records[k].initial
    requires forall i :: i in run[m].list && i < |run[m].ids| && i < |run[m].blocks| && run[m].ids[i] != k ==> run[m].blocks[i].mid != steps[m].mid
    ensures var r, now := run[m].records[k], run[m].now;
      && k < |run[n].traces|
      && run[n].traces[k] == Sends(r.first, r.initial, DueBy(r.first, r.initial, now)) + [Freed(now)] + Calls(r.callback, true, now)
  {
    RunKeeps(run, steps, m);
    RunKeeps(run, steps, m + 1);
    RunStep(run, steps, m);
    AnswerRecorded(run[m], steps[m], run[m + 1], k);
    Lifetime(run, steps, m + 1, k);
    FinishedForever(run, steps, m + 1, n, k);
  }

  lemma AnswerRecorded(p: Pool, step: Step, p': Pool, k: nat)
    requires Inv(p) && step.Message? && Next(p, step, p')
    requires k < |p.records| && p.records[k].Asking? && p.records[k].mid == step.mid
    requires p.now < p.records[k].first + 15 * p.records[k].initial
    requires forall i :: i in p.list && i < |p.ids| && i < |p.blocks| && p.ids[i] != k ==> p.blocks[i].mid != step.mid
    ensures k < |p'.records| && k < |p'.traces| && p'.records[k] == WithAnswer(p.records[k], p.now)
  {
    assert !Unheld(p, k);
    var j: nat :| j in p.list && Holds(p, j, k);
    assert Listed(p, j) && AnswersTo(p, j, step.mid);
    var i: nat :| AnswersTo(p, i, step.mid) && InPool(p, i) && p' == Remembering(Closing(p, i), None);
  }

  // ----- The layer -----

  lemma InvShape(p: Pool)
    requires Inv(p)
    ensures |p.blocks| == |p.used| == |p.ids| == COAP_MAX_OPEN_TRANSACTIONS && |p.records| == |p.traces|
  {
  }

  lemma OpenedThere(p: Pool, i: nat, mid: uint16)
    requires Inv(p) && Free(p, i)
    ensures i < |p.blocks| && i < |p.ids| && InPool(Opened(p, i, mid), i)
  {
  }

  lemma SentStill(p: Pool, q: Pool)
    requires AllSent(p) && (q == Remembering(p, None) || exists i: nat :: i in p.list && InPool(p, i) && q == Remembering(Closing(p, i), None))
    ensures AllSent(q)
  {
  }

  lemma RememberedInPool(p: Pool)
    requires Inv(p) && p.remembered.Some?
    ensures Shape(p) && InPool(p, p.remembered.value)
  {
  }

  lemma WalkStarts(p: Pool)
    requires Sound(p)
    ensures WalkedSoFar(p, p, 0)
  {
    forall i | i in p.list
      ensures InPool(p, i)
    {
      SoundInPool(p, i);
    }
  }

  lemma ListedBlock(p: Pool, i: nat)
    requires Sound(p) && AllSent(p) && i in p.list
    ensures i < |p.blocks| && (Waiting(p, i) <==> !p.blocks[i].pending)
  {
  }

  lemma WaitingInPool(p: Pool, i: nat)
    requires Sound(p) && Waiting(p, i)
    ensures InPool(p, i)
  {
    assert Listed(p, i);
  }

  lemma ListStays(p: Pool, q: Pool, k: nat)
    requires WalkedSoFar(p, q, k)
    ensures q.list == p.list
  {
  }

  lemma FiredWaiting(p: Pool, q: Pool, waiting: set<nat>)
    requires Inv(p) && AllSent(p) && FiredFrom(p, q)
    requires forall j :: 0 <= j < |p.blocks| && p.blocks[j].pending && !q.blocks[j].pending ==> j in waiting
    ensures forall i: nat :: Waiting(q, i) ==> i in waiting
  {
  }

  lemma WalkIsWalk(p: Pool, q: Pool, n: nat)
    requires WalkedTo(p, q, n)
    ensures Walked(p, q) && forall i: nat :: Waiting(q, i) ==> Waiting(p, i)
  {
    forall i: nat | Waiting(q, i)
      ensures Waiting(p, i)
    {
      assert SameAt(p, q, i) || ResentAt(p, q, i, p.now);
    }
  }

  /** A walk leaves fewer transactions waiting. */
  lemma WalkProgress(p: Pool, q: Pool, n: nat) returns (i: nat)
    requires WalkedTo(p, q, n) && exists i: nat :: Waiting(p, i)
    ensures Waiting(p, i) && !Waiting(q, i)
  {
    if n < |p.list| {
      i := p.list[n - 1];
      assert ResentAt(p, q, i, p.now);
    } else {
      i :| Waiting(p, i);
      var j :| 0 <= j < |p.list| && p.list[j] == i;
      assert ResentAt(p, q, i, p.now);
    }
  }

  lemma CalmIf(p: Pool)
    requires forall i: nat :: !Waiting(p, i)
    ensures Calm(p)
  {
    forall i | i in p.list && i < |p.blocks| && p.blocks[i].sent
      ensures p.blocks[i].pending
    {
      assert !Waiting(p, i);
    }
  }

  class Layer {
    const blocks: array<Transaction>
    const used: array<bool>
    var list: seq<nat>
    var now: nat
    var transaction: Option<nat> // the static variable of coap_receive
    ghost var ids: seq<nat>
    ghost var records: seq<Record>
    ghost var traces: seq<seq<Event>>

    ghost function State(): Pool
      reads this, blocks, used
    {
      Pool(blocks[..], used[..], list, now, transaction, ids, records, traces)
    }

    constructor ()
      ensures Init(State()) && Inv(State()) && fresh(blocks) && fresh(used)
    {
      blocks := new Transaction[COAP_MAX_OPEN_TRANSACTIONS](_ => Transaction(0, 0, false, false, 0, 0, false, None));
      used := new bool[COAP_MAX_OPEN_TRANSACTIONS](_ => false);
      list, now, transaction, ids, records, traces := [], 0, None, [0, 0, 0, 0], [], [];
    }

    /** coap_new_transaction: a free block, if there is one. */
    method NewTransaction(mid: uint16) returns (t: Option<nat>)
      requires Inv(State())
      modifies this, blocks, used
      ensures Inv(State()) && Next(old(State()), Open(mid, false), State())
      ensures t.None? ==> State() == old(State())
      ensures t.None? <==> forall i :: 0 <= i < COAP_MAX_OPEN_TRANSACTIONS ==> old(used[i])
      ensures t.Some? ==> old(Free(State(), t.value)) && t.value < old(|State().ids|) && State() == old(Opened(State(), t.value, mid))
    {
      hide Inv;
      InvShape(State());
      var i := 0;
      while i < used.Length && used[i]
        invariant i <= used.Length && forall j :: 0 <= j < i ==> used[j]
      {
        i := i + 1;
      }
      if i == used.Length {
        return None;
      }
      assert Free(State(), i);
      OpenedInv(State(), i, mid, false);
      ghost var p := Opened(State(), i, mid);
      used[i] := true;
      blocks[i] := blocks[i].(mid := mid, counter := 0, sent := false);
      list := list + [i];
      ids := ids[i := |traces|];
      records := records + [Unsent];
      traces := traces + [[]];
      assert State() == p;
      t := Some(i);
    }

    /** The start of serving a request in coap_receive: open a transaction, and remember it. */
    method OpenResponse(mid: uint16) returns (t: Option<nat>)
      requires Inv(State())
      modifies this, blocks, used
      ensures Inv(State()) && Next(old(State()), Open(mid, true), State()) && transaction == t
    {
      hide Inv;
      ghost var p := State();
      t := NewTransaction(mid);
      ghost var q := State();
      if t.Some? {
        assert Free(p, t.value);
        OpenedThere(p, t.value, mid);
      }
      RememberingInv(q, t);
      transaction := t;
      assert State() == Remembering(q, t);
    }

    /** The whole of coap_receive for a datagram that is refused: whatever transaction was left
        in the static variable is cleared. */
    method Refuse()
      requires Inv(State()) && AllSent(State())
      modifies this, blocks, used
      ensures Inv(State()) && AllSent(State()) && Next(old(State()), Refused, State())
    {
      hide Inv, Sound, Listed, AllSent;
      ghost var p := State();
      RefusingInv(p);
      if transaction.Some? {
        var i := transaction.value;
        RememberedInPool(p);
        if i in list {
          records := records[ids[i] := WithKill(records[ids[i]], now)];
          ClearTransaction(i, [Freed(now)]);
        } else {
          ClearingFree(p, i);
          ClearTransaction(i, []);
        }
      }
      assert State() == Refusing(p);
    }

    /** coap_clear_transaction */
    method ClearTransaction(i: nat, ghost events: seq<Event>)
      requires InPool(State(), i)
      modifies this, blocks, used
      ensures State() == old(Without(State(), i, blocks[i], events))
    {
      ghost var p := Without(State(), i, blocks[i], events);
      blocks[i] := blocks[i].(pending := false);
      list := Remove(list, i);
      used[i] := false;
      traces := traces[ids[i] := traces[ids[i]] + events];
      assert State() == p;
    }

    /** coap_send_transaction: true when the transaction is freed by it. */
    method SendTransaction(i: nat, initial: nat) returns (freed: bool)
      requires InPool(State(), i)
      modifies this, blocks, used
      ensures freed == old(!(blocks[i].confirmable && blocks[i].counter < COAP_MAX_RETRANSMIT))
      ensures State() == old(
        var t := blocks[i];
        if t.confirmable && t.counter < COAP_MAX_RETRANSMIT then WithBlock(State(), i, Kept(t, now, initial), [Sent(now)])
        else Without(State(), i, t, [Sent(now), Freed(now)] + (if t.confirmable then Calls(t.callback, false, now) else [])))
    {
      var t := blocks[i];
      if t.confirmable {
        if t.counter < COAP_MAX_RETRANSMIT {
          if t.counter == 0 {
            t := t.(interval := initial);
          } else {
            t := t.(interval := 2 * t.interval);
          }
          ghost var p := WithBlock(State(), i, Kept(blocks[i], now, initial), [Sent(now)]);
          blocks[i] := t.(sent := true, start := now, pending := true);
          traces := traces[ids[i] := traces[ids[i]] + [Sent(now)]];
          assert State() == p;
          return false;
        }
        ClearTransaction(i, [Sent(now), Freed(now)] + Calls(t.callback, false, now));
      } else {
        ClearTransaction(i, [Sent(now), Freed(now)] + []);
      }
      freed := true;
    }

    /** What a caller does with a new transaction: it fills in the packet, registers a callback
        or leaves that field as it is, and sends it. */
    method FirstTransmission(i: nat, confirmable: bool, callback: Option<nat>, initial: nat) returns (freed: bool)
      requires Inv(State()) && i in list && i < blocks.Length && !blocks[i].sent && initial > 0
      modifies this, blocks, used
      ensures Inv(State()) && freed == !confirmable
      ensures Next(old(State()), Send(i, confirmable, callback, initial), State())
    {
      ghost var p := State();
      SoundInPool(p, i);
      FirstSound(p, i, confirmable, callback, initial);
      ghost var p' := FirstSent(p, i, confirmable, callback, initial);
      hide Inv, Sound;
      blocks[i] := blocks[i].(confirmable := confirmable, callback := if callback.Some? then callback else blocks[i].callback);
      records := records[ids[i] := if confirmable then Asking(blocks[i].mid, now, initial, blocks[i].callback) else Told(now)];
      freed := SendTransaction(i, initial);
      assert [Sent(p.now), Freed(p.now)] + [] == [Sent(p.now), Freed(p.now)];
      assert State() == p';
    }

    /** A transaction that was opened is cleared instead of being sent. */
    method Discard(i: nat)
      requires Inv(State()) && i in list && i < blocks.Length && !blocks[i].sent
      modifies this, blocks, used
      ensures Inv(State()) && Next(old(State()), Clear(i), State())
    {
      SoundInPool(State(), i);
      ClearedSound(State(), i);
      hide Inv, Sound;
      records := records[ids[i] := Dropped(now)];
      ClearTransaction(i, [Freed(now)]);
    }

    /** coap_get_transaction_by_mid */
    method FindByMid(mid: uint16) returns (t: Option<nat>)
      requires Inv(State())
      ensures t.None? <==> forall i: nat :: !AnswersTo(State(), i, mid)
      ensures t.Some? ==> AnswersTo(State(), t.value, mid) && InPool(State(), t.value)
    {
      hide Listed, Calm, Over;
      var k := 0;
      while k < |list|
        invariant k <= |list| && forall j :: 0 <= j < k ==> list[j] < blocks.Length && blocks[list[j]].mid != mid
      {
        var i := list[k];
        SoundInPool(State(), i);
        if blocks[i].mid == mid {
          assert AnswersTo(State(), i, mid);
          return Some(i);
        }
        k := k + 1;
      }
      t := None;
    }

    /** The response part of coap_receive: an answered transaction is freed before its callback
        gets the message. */
    method Answer(mid: uint16) returns (found: bool)
      requires Inv(State()) && AllSent(State())
      modifies this, blocks, used
      ensures Inv(State()) && AllSent(State())
      ensures Next(old(State()), Message(mid), State())
      ensures found <==> exists i: nat :: old(AnswersTo(State(), i, mid))
    {
      hide Inv, Sound, Listed, AllSent;
      ghost var p := State();
      transaction := FindByMid(mid);
      found := transaction.Some?;
      if found {
        var i := transaction.value;
        AnswerSound(p, i);
        RememberingInv(Closing(p, i), None);
        records := records[ids[i] := WithAnswer(records[ids[i]], now)];
        ClearTransaction(i, [Freed(now)] + Calls(blocks[i].callback, true, now));
        transaction := None;
        assert State() == Remembering(Closing(p, i), None);
      } else {
        RememberingInv(p, None);
        assert State() == Remembering(p, None);
      }
      SentStill(p, State());
    }

    /** One step of coap_check_transactions, for a transaction whose timer has fired. */
    method Retransmit(i: nat, initial: nat) returns (freed: bool)
      requires Sound(State()) && AllSent(State()) && Waiting(State(), i) && InPool(State(), i)
      modifies this, blocks, used
      ensures Sound(State()) && AllSent(State())
      ensures State() == old(Resent(State(), i)) && freed == old(TimesOut(State(), i))
    {
      ghost var p := State();
      ResentSound(p, i);
      hide Sound;
      blocks[i] := blocks[i].(counter := blocks[i].counter + 1);
      freed := SendTransaction(i, initial);
      assert State() == Resent(p, i);
    }

    /** coap_check_transactions: every transaction from the start of the list on whose timer
        has fired is sent again, up to one that times out and is freed; freeing it cuts the
        walk through the list short. */
    method CheckTransactions(initial: nat)
      requires Sound(State()) && AllSent(State())
      modifies this, blocks, used
      ensures Sound(State()) && AllSent(State())
      ensures exists n :: WalkedTo(old(State()), State(), n)
    {
      hide Sound, AllSent, WalkedSoFar, WalkedTo, Waiting, Resent, TimesOut, InPool;
      ghost var p := State();
      var k := 0;
      WalkStarts(p);
      while k < |list|
        invariant k <= |list| && Sound(State()) && AllSent(State()) && WalkedSoFar(p, State(), k) && list == p.list
      {
        var i := list[k];
        WalkOn(p, State(), k);
        ListedBlock(State(), i);
        if !blocks[i].pending {
          WaitingInPool(State(), i);
          var freed := Retransmit(i, initial);
          if freed {
            return;
          }
          ListStays(p, State(), k + 1);
        }
        k := k + 1;
      }
      WalkEnds(p, State());
    }

    /** One tick of an exact clock: the timers that are due fire, each of them posts an event,
        and each event runs coap_check_transactions.  A walk that was cut short is completed by
        a later event. */
    method AdvanceClock(initial: nat)
      requires Inv(State()) && AllSent(State())
      modifies this, blocks, used
      ensures Inv(State()) && AllSent(State()) && Next(old(State()), Tick, State())
    {
      ghost var p := State();
      ghost var waiting: set<nat>;
      var posts;
      posts, waiting := FireTimers();
      now := now + 1;
      ghost var q := State();
      FiredSound(p, q);
      FiredWaiting(p, q, waiting);
      hide Inv, Sound, Ticks;
      RunEvents(posts, initial, waiting);
      TickIs(p, q, State());
      TickKeeps(p, State());
    }

    /** The timers that are due at the next tick fire; each of them posts an event. */
    method FireTimers() returns (posts: nat, ghost waiting: set<nat>)
      modifies blocks
      ensures forall j :: 0 <= j < blocks.Length ==> blocks[j] == Fired(old(blocks[j]), now + 1)
      ensures posts == |waiting|
      ensures forall j :: 0 <= j < blocks.Length && old(blocks[j].pending) && !blocks[j].pending ==> j in waiting
    {
      var i := 0;
      posts, waiting := 0, {};
      while i < blocks.Length
        invariant i <= blocks.Length
        invariant forall j :: 0 <= j < blocks.Length ==> blocks[j] == if j < i then Fired(old(blocks[j]), now + 1) else old(blocks[j])
        invariant posts == |waiting| && forall j :: j in waiting ==> j < i
        invariant forall j :: 0 <= j < i && old(blocks[j].pending) && !blocks[j].pending ==> j in waiting
      {
        if blocks[i].pending && Due(blocks[i]) == now + 1 {
          blocks[i] := blocks[i].(pending := false);
          posts := posts + 1;
          waiting := waiting + {i};
        }
        i := i + 1;
      }
    }

    /** The events that the timers have posted: afterwards nobody waits. */
    method RunEvents(posts: nat, initial: nat, ghost waiting: set<nat>)
      requires Sound(State()) && AllSent(State()) && posts == |waiting|
      requires forall i: nat :: Waiting(State(), i) ==> i in waiting
      modifies this, blocks, used
      ensures Sound(State()) && Walked(old(State()), State()) && Calm(State())
    {
      hide *;
      ghost var p := State();
      SameWalk(p);
      ghost var left := waiting;
      var n := posts;
      while n > 0
        invariant Sound(State()) && AllSent(State()) && Walked(p, State())
        invariant n >= |left| && forall i: nat :: Waiting(State(), i) ==> i in left
      {
        ghost var before := State();
        CheckTransactions(initial);
        ghost var m :| WalkedTo(before, State(), m);
        WalkIsWalk(before, State(), m);
        WalkAgain(p, before, State());
        if exists i: nat :: Waiting(before, i) {
          ghost var i := WalkProgress(before, State(), m);
          left := left - {i};
        } else {
          left := {};
        }
        n := n - 1;
      }
      assert left == {};
      CalmIf(State());
    }
  }
}
