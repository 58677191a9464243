/**
 * The sender's loop with its sent-notices, as values, for one destination: a message may be queued
 * with somebody waiting for it, who is notified once, when all of the message is confirmed.
 */
module Notices {
  import opened Packet
  import opened Codecs
  import opened SenderQueue

  /** A waiting sender; with one destination, known by the number of the message that it waits for. */
  type Callback = nat

  datatype Outbox = Outbox(sender: Sender, callbacks: map<MessageId, Callback>, fired: seq<Callback>)

  datatype Event =
    | WriteMessage(notify: Option<Callback>, message: Message)
    | UpdateStatus(id: MessageId, head: bool, bodies: set<u16>)
    | Wakeup

  /** `handle_write_message` */
  function Write(c: Codec, o: Outbox, notify: Option<Callback>, message: Message): Outbox
    requires Countable(Encode(c, message))
  {
    var (sender, id) := Enqueue(o.sender, Encode(c, message));
    Outbox(sender, if notify.Some? then o.callbacks[id := notify.value] else o.callbacks, o.fired)
  }

  /** `handle_update_message_status` */
  function Update(o: Outbox, id: MessageId, head: bool, bodies: set<u16>): Outbox {
    var sender := Report(o.sender, id, head, bodies);
    if IsMessageConfirmed(sender, id) && id in o.callbacks then
      Outbox(sender, o.callbacks - {id}, o.fired + [o.callbacks[id]])
    else
      o.(sender := sender)
  }

  /** What the loop hands to the router, or to whoever sets up channels. */
  datatype Output = Send(segment: MessageSegment) | InitiateChannel

  function Segments(id: MessageId, payloads: seq<MessagePayload>): seq<Output> {
    seq(|payloads|, i requires 0 <= i < |payloads| => Send(MessageSegment(id, payloads[i])))
  }

  /**
   * What follows every event: the front message is retired, or offered again. Without a channel to the
   * destination nothing is sent of what is offered, but a channel is asked for.
   */
  function Resend(o: Outbox, connected: bool): (Outbox, seq<Output>) {
    var (sender, offers) := Payloads(o.sender);
    (o.(sender := sender),
     if offers.None? then [] else if connected then Segments(offers.value.0, offers.value.1) else [InitiateChannel])
  }

  function Handle(c: Codec, o: Outbox, e: Event): Outbox
    requires Writable(c, e)
  {
    match e
    case WriteMessage(notify, message) => Write(c, o, notify, message)
    case UpdateStatus(id, head, bodies) => Update(o, id, head, bodies)
    case Wakeup => o
  }

  /** An event, and whether there is a channel to the destination when the front message is served then. */
  datatype Turn = Turn(event: Event, connected: bool)

  predicate Writable(c: Codec, e: Event) {
    e.WriteMessage? ==> Countable(Encode(c, e.message))
  }

  /** The whole loop: every event is handled, and then the front message is served. */
  function Loop(c: Codec, o: Outbox, turns: seq<Turn>): (Outbox, seq<Output>)
    requires forall turn | turn in turns :: Writable(c, turn.event)
  {
    if turns == [] then
      (o, [])
    else
      var (before, output) := Loop(c, o, turns[..|turns| - 1]);
      var turn := turns[|turns| - 1];
      var (after, more) := Resend(Handle(c, before, turn.event), turn.connected);
      (after, output + more)
  }

  // ----- runs -----

  /** An outbox, and on record: how many messages were queued and retired, and for which somebody waits. */
  datatype History = History(outbox: Outbox, written: nat, retired: nat, waiting: set<nat>)

  function Beginning(): History {
    History(Outbox(EmptySender(), map[], []), 0, 0, {})
  }

  /** A message may be queued while an id is free; whoever waits for it is known by its number. */
  predicate Possible(c: Codec, h: History, e: Event) {
    && Writable(c, e)
    && (e.WriteMessage? ==>
          && h.written < h.retired + ID_SPACE
          && (e.notify.Some? ==> e.notify.value == h.written))
  }

  function Handled(c: Codec, h: History, e: Event): History
    requires Possible(c, h, e)
  {
    History(Handle(c, h.outbox, e),
            if e.WriteMessage? then h.written + 1 else h.written,
            h.retired,
            if e.WriteMessage? && e.notify.Some? then h.waiting + {e.notify.value} else h.waiting)
  }

  /** Whether there is a channel makes no difference to what is left in the outbox. */
  function Served(h: History): History {
    var after := Resend(h.outbox, true).0;
    h.(outbox := after,
       retired := if after.sender.nextMessageId != h.outbox.sender.nextMessageId then h.retired + 1 else h.retired)
  }

  /** `None` once an event was not possible. */
  function RunAll(c: Codec, events: seq<Event>): Option<History> {
    if events == [] then
      Some(Beginning())
    else
      var before := RunAll(c, events[..|events| - 1]);
      if before.Some? && Possible(c, before.value, events[|events| - 1])
      then Some(Served(Handled(c, before.value, events[|events| - 1]))) else None
  }

  // ----- the invariant -----

  /** Somebody waits under `id` for message `n`, which is queued, unconfirmed, and not notified yet. */
  ghost predicate PendingOk(queue: seq<Tracker>, retired: nat, fired: seq<Callback>, waiting: set<nat>,
                            id: MessageId, n: nat)
  {
    && id == IdOf(n)
    && retired <= n < retired + |queue|
    && !Confirmed(queue[n - retired])
    && n in waiting
    && n !in fired
  }

  /** Whoever has started to wait for a queued message has been notified, or still waits for it. */
  ghost predicate Awaited(queue: seq<Tracker>, retired: nat, callbacks: map<MessageId, Callback>,
                          fired: seq<Callback>, n: nat)
  {
    n < retired + |queue| && (n in fired || (retired <= n && IdOf(n) in callbacks))
  }

  ghost predicate Distinct(fired: seq<Callback>) {
    forall i, j | 0 <= i < j < |fired| :: fired[i] != fired[j]
  }

  ghost predicate NoticesOk(queue: seq<Tracker>, retired: nat, callbacks: map<MessageId, Callback>,
                            fired: seq<Callback>, waiting: set<nat>)
  {
    && |queue| <= ID_SPACE
    && (forall id | id in callbacks :: PendingOk(queue, retired, fired, waiting, id, callbacks[id]))
    && (forall n | n in waiting :: Awaited(queue, retired, callbacks, fired, n))
    && Distinct(fired)
    && (forall n | n in fired :: n in waiting)
  }

  ghost predicate Inv(h: History, queue: seq<Tracker>) {
    && Queues(h.outbox.sender, queue)
    && h.retired + |queue| == h.written
    && h.outbox.sender.nextMessageId == IdOf(h.retired)
    && NoticesOk(queue, h.retired, h.outbox.callbacks, h.outbox.fired, h.waiting)
  }

  // ----- the steps keep the invariant -----

  lemma NewMessageKeepsNotices(queue: seq<Tracker>, retired: nat, callbacks: map<MessageId, Callback>,
                               fired: seq<Callback>, waiting: set<nat>, t: Tracker, notify: bool)
    requires NoticesOk(queue, retired, callbacks, fired, waiting) && |queue| < ID_SPACE && !Confirmed(t)
    ensures var n := retired + |queue|;
            NoticesOk(queue + [t], retired, if notify then callbacks[IdOf(n) := n] else callbacks, fired,
                      if notify then waiting + {n} else waiting)
  {
  }

  /** A report about message `k` of the queue: if it confirms all of it, whoever waits for it is notified. */
  lemma ReportKeepsNotices(queue: seq<Tracker>, retired: nat, callbacks: map<MessageId, Callback>,
                           fired: seq<Callback>, waiting: set<nat>, k: nat, t: Tracker)
    requires NoticesOk(queue, retired, callbacks, fired, waiting) && k < |queue|
    ensures var id := IdOf(retired + k);
            var notifies := Confirmed(t) && id in callbacks;
            && (notifies ==> callbacks[id] == retired + k)
            && NoticesOk(queue[k := t], retired, if notifies then callbacks - {id} else callbacks,
                         if notifies then fired + [retired + k] else fired, waiting)
  {
    var id := IdOf(retired + k);
    if id in callbacks {
      assert PendingOk(queue, retired, fired, waiting, id, callbacks[id]);
      SameIdSameMessage(retired, callbacks[id], retired + k);
    }
    var notifies := Confirmed(t) && id in callbacks;
    var callbacks' := if notifies then callbacks - {id} else callbacks;
    var fired' := if notifies then fired + [retired + k] else fired;
    forall other | other in callbacks'
      ensures PendingOk(queue[k := t], retired, fired', waiting, other, callbacks'[other])
    {
      assert PendingOk(queue, retired, fired, waiting, other, callbacks[other]);
    }
    forall n | n in waiting ensures Awaited(queue[k := t], retired, callbacks', fired', n) {
      assert Awaited(queue, retired, callbacks, fired, n);
      if retired <= n && IdOf(n) == id {
        SameIdSameMessage(retired, n, retired + k);
      }
    }
  }

  lemma SameIdSameMessage(retired: nat, one: nat, other: nat)
    requires retired <= one < retired + ID_SPACE && retired <= other < retired + ID_SPACE
    requires IdOf(one) == IdOf(other)
    ensures one == other
  {
  }

  /** Nobody waits any more for a message that is retired. */
  lemma RetireKeepsNotices(queue: seq<Tracker>, retired: nat, callbacks: map<MessageId, Callback>,
                           fired: seq<Callback>, waiting: set<nat>)
    requires NoticesOk(queue, retired, callbacks, fired, waiting) && queue != [] && Confirmed(queue[0])
    ensures NoticesOk(queue[1..], retired + 1, callbacks, fired, waiting)
  {
    forall id | id in callbacks
      ensures PendingOk(queue[1..], retired + 1, fired, waiting, id, callbacks[id])
    {
      assert PendingOk(queue, retired, fired, waiting, id, callbacks[id]);
    }
    forall n | n in waiting ensures Awaited(queue[1..], retired + 1, callbacks, fired, n) {
      assert Awaited(queue, retired, callbacks, fired, n);
      if n == retired && IdOf(n) in callbacks {
        assert PendingOk(queue, retired, fired, waiting, IdOf(n), callbacks[IdOf(n)]);
        SameIdSameMessage(retired, n, callbacks[IdOf(n)]);
      }
    }
  }

  lemma WriteKeepsInv(c: Codec, h: History, queue: seq<Tracker>, e: Event)
    requires Inv(h, queue) && Possible(c, h, e) && e.WriteMessage?
    ensures Inv(Handled(c, h, e), queue + [NewTracker(Encode(c, e.message))])
  {
    hide NoticesOk;
    var m := Encode(c, e.message);
    EnqueueAppends(h.outbox.sender, queue, m);
    assert IdOf(h.written) == (h.outbox.sender.nextMessageId + |queue|) % ID_SPACE;
    assert !Confirmed(NewTracker(m));
    hide NoticesOk, Queues, Confirmed;
    NewMessageKeepsNotices(queue, h.retired, h.outbox.callbacks, h.outbox.fired, h.waiting,
                           NewTracker(m), e.notify.Some?);
  }

  lemma UpdateKeepsInv(c: Codec, h: History, queue: seq<Tracker>, e: Event) returns (queue': seq<Tracker>)
    requires Inv(h, queue) && e.UpdateStatus?
    ensures Inv(Handled(c, h, e), queue')
  {
    hide NoticesOk;
    var k := Position(h.outbox.sender, e.id);
    ReportUpdatesOne(h.outbox.sender, queue, e.id, e.head, e.bodies);
    if k < |queue| {
      var t := queue[k].(headConfirmed := e.head, bodiesConfirmed := e.bodies);
      queue' := queue[k := t];
      NumberAtDistance(h.retired, e.id);
      ReportKeepsNotices(queue, h.retired, h.outbox.callbacks, h.outbox.fired, h.waiting, k, t);
      ReportConfirms(h.outbox.sender, queue, e.id, e.head, e.bodies);
    } else {
      queue' := queue;
    }
  }

  lemma IdDiffersFromNext(id: MessageId)
    ensures WrappingAdd(id, 1) != id
  {
  }

  lemma ServeKeepsInv(h: History, queue: seq<Tracker>) returns (queue': seq<Tracker>)
    requires Inv(h, queue)
    ensures Inv(Served(h), queue')
    ensures Served(h).outbox.callbacks == h.outbox.callbacks && Served(h).outbox.fired == h.outbox.fired
  {
    hide NoticesOk, Queues, Confirmed, Payloads;
    PayloadsServesFront(h.outbox.sender, queue);
    IdDiffersFromNext(h.outbox.sender.nextMessageId);
    if queue != [] && Confirmed(queue[0]) {
      queue' := queue[1..];
      IdOfSuccessor(h.retired);
      RetireKeepsNotices(queue, h.retired, h.outbox.callbacks, h.outbox.fired, h.waiting);
    } else {
      queue' := queue;
    }
  }

  lemma EventKeepsInv(c: Codec, h: History, queue: seq<Tracker>, e: Event) returns (queue': seq<Tracker>)
    requires Inv(h, queue) && Possible(c, h, e)
    ensures Inv(Served(Handled(c, h, e)), queue')
  {
    queue' := queue;
    match e {
      case WriteMessage(_, message) =>
        WriteKeepsInv(c, h, queue, e);
        queue' := queue + [NewTracker(Encode(c, message))];
      case UpdateStatus(_, _, _) =>
        queue' := UpdateKeepsInv(c, h, queue, e);
      case Wakeup =>
    }
    queue' := ServeKeepsInv(Handled(c, h, e), queue');
  }

  lemma {:induction false} RunKeepsInv(c: Codec, events: seq<Event>) returns (queue: seq<Tracker>)
    ensures RunAll(c, events).Some? ==> Inv(RunAll(c, events).value, queue)
  {
    queue := [];
    if RunAll(c, events).Some? && events != [] {
      queue := RunKeepsInv(c, events[..|events| - 1]);
      hide Handled, Served, Inv;
      queue := EventKeepsInv(c, RunAll(c, events[..|events| - 1]).value, queue, events[|events| - 1]);
    }
  }

  /**
   * Every notice is sent at most once, and always before its message is retired, even when reports
   * take back what earlier ones confirmed; until then its message is queued and not fully confirmed.
   */
  lemma NoticesAreSentOnceBeforeRetirement(c: Codec, events: seq<Event>)
    ensures RunAll(c, events).Some? ==>
            var h := RunAll(c, events).value;
            && Distinct(h.outbox.fired)
            && h.outbox.callbacks.Keys <= h.outbox.sender.packets.Keys
            && (forall id | id in h.outbox.callbacks :: !IsMessageConfirmed(h.outbox.sender, id))
            && (forall n :: n in h.waiting <==> n in h.outbox.fired || n in h.outbox.callbacks.Values)
            && (forall n | n in h.outbox.fired :: n !in h.outbox.callbacks.Values)
            && (forall n | n in h.waiting && n < h.retired :: n in h.outbox.fired)
  {
    var queue := RunKeepsInv(c, events);
    if RunAll(c, events).Some? {
      PendingIsQueued(RunAll(c, events).value, queue);
      AwaitedIsFiredOrPending(RunAll(c, events).value, queue);
    }
  }

  lemma PendingIsQueued(h: History, queue: seq<Tracker>)
    requires Inv(h, queue)
    ensures forall id | id in h.outbox.callbacks ::
              && id in h.outbox.sender.packets && !IsMessageConfirmed(h.outbox.sender, id)
              && h.outbox.callbacks[id] in h.waiting && h.outbox.callbacks[id] !in h.outbox.fired
  {
    forall id | id in h.outbox.callbacks
      ensures id in h.outbox.sender.packets && !IsMessageConfirmed(h.outbox.sender, id)
    {
      var n := h.outbox.callbacks[id];
      assert PendingOk(queue, h.retired, h.outbox.fired, h.waiting, id, n);
      IdDistance(n, h.retired);
    }
    forall id | id in h.outbox.callbacks
      ensures h.outbox.callbacks[id] in h.waiting && h.outbox.callbacks[id] !in h.outbox.fired
    {
      assert PendingOk(queue, h.retired, h.outbox.fired, h.waiting, id, h.outbox.callbacks[id]);
    }
  }

  lemma AwaitedIsFiredOrPending(h: History, queue: seq<Tracker>)
    requires Inv(h, queue)
    ensures forall n | n in h.waiting ::
              && (n in h.outbox.fired || n in h.outbox.callbacks.Values)
              && (n < h.retired ==> n in h.outbox.fired)
  {
    forall n | n in h.waiting
      ensures n in h.outbox.fired || n in h.outbox.callbacks.Values
      ensures n < h.retired ==> n in h.outbox.fired
    {
      assert Awaited(queue, h.retired, h.outbox.callbacks, h.outbox.fired, n);
      if n !in h.outbox.fired {
        var m := h.outbox.callbacks[IdOf(n)];
        assert PendingOk(queue, h.retired, h.outbox.fired, h.waiting, IdOf(n), m);
        SameIdSameMessage(h.retired, n, m);
      }
    }
  }

  /** The number of the message that an id stands for. */
  function NumberAt(h: History, id: MessageId): nat {
    h.retired + Position(h.outbox.sender, id)
  }

  /** What somebody waits for has the id that it is entered under. */
  lemma PendingHasItsNumber(h: History, queue: seq<Tracker>, id: MessageId)
    requires Inv(h, queue)
    ensures id in h.outbox.callbacks ==> h.outbox.callbacks[id] == NumberAt(h, id)
    ensures id in h.outbox.sender.packets && NumberAt(h, id) in h.waiting ==>
              (id in h.outbox.callbacks <==> NumberAt(h, id) !in h.outbox.fired)
  {
    NumberAtDistance(h.retired, id);
    if id in h.outbox.callbacks {
      assert PendingOk(queue, h.retired, h.outbox.fired, h.waiting, id, h.outbox.callbacks[id]);
      SameIdSameMessage(h.retired, h.outbox.callbacks[id], NumberAt(h, id));
    }
    if NumberAt(h, id) in h.waiting {
      assert Awaited(queue, h.retired, h.outbox.callbacks, h.outbox.fired, NumberAt(h, id));
    }
  }

  /**
   * In every run an event notifies exactly when it is a report that leaves its message confirmed and
   * somebody waits for that message who was not notified before; and it notifies them alone.
   */
  lemma OnlyConfirmationNotifies(c: Codec, events: seq<Event>)
    requires events != [] && RunAll(c, events).Some?
    ensures var before := RunAll(c, events[..|events| - 1]).value;
            var after := RunAll(c, events).value;
            var e := events[|events| - 1];
            var notifies := e.UpdateStatus?
                            && IsMessageConfirmed(Report(before.outbox.sender, e.id, e.head, e.bodies), e.id)
                            && NumberAt(before, e.id) in before.waiting
                            && NumberAt(before, e.id) !in before.outbox.fired;
            after.outbox.fired == if notifies then before.outbox.fired + [NumberAt(before, e.id)]
                                  else before.outbox.fired
  {
    var queue := RunKeepsInv(c, events[..|events| - 1]);
    var before := RunAll(c, events[..|events| - 1]).value;
    var e := events[|events| - 1];
    if e.UpdateStatus? {
      PendingHasItsNumber(before, queue, e.id);
      PendingIsQueued(before, queue);
    }
  }
}
