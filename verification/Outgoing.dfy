/**
 * What the sender's loop puts on the wire, against a plain account of it: the messages by their numbers,
 * what was last reported of each while it was queued, and how many are retired.
 */
module Outgoing {
  import opened Packet
  import opened Fragments
  import opened Codecs
  import opened SenderQueue
  import opened Notices

  datatype Item = Item(message: Message, head: bool, bodies: set<u16>)

  datatype Account = Account(items: seq<Item>, retired: nat)

  function CountOf(c: Codec, item: Item): nat {
    BodyCount(Encode(c, item.message).payload)
  }

  predicate AllReported(c: Codec, item: Item) {
    item.head && forall index: u16 | index < CountOf(c, item) :: index in item.bodies
  }

  /** A report counts for the one queued message whose number has the id. */
  function Noted(a: Account, e: Event): Account {
    match e
    case WriteMessage(_, message) => a.(items := a.items + [Item(message, false, {})])
    case UpdateStatus(id, head, bodies) =>
      a.(items := seq(|a.items|, n requires 0 <= n < |a.items| =>
           if n >= a.retired && IdOf(n) == id then Item(a.items[n].message, head, bodies) else a.items[n]))
    case Wakeup => a
  }

  predicate FrontIsReported(c: Codec, a: Account) {
    a.retired < |a.items| && AllReported(c, a.items[a.retired])
  }

  function AfterService(c: Codec, a: Account): Account {
    if FrontIsReported(c, a) then a.(retired := a.retired + 1) else a
  }

  function AccountOf(c: Codec, turns: seq<Turn>): Account {
    if turns == [] then Account([], 0)
    else AfterService(c, Noted(AccountOf(c, turns[..|turns| - 1]), turns[|turns| - 1].event))
  }

  /** Every message has a number of bodies that can be counted, and is written while an id is free. */
  predicate Feasible(c: Codec, turns: seq<Turn>) {
    turns != [] ==>
      var a := AccountOf(c, turns[..|turns| - 1]);
      var e := turns[|turns| - 1].event;
      && Feasible(c, turns[..|turns| - 1])
      && Writable(c, e)
      && (e.WriteMessage? ==> |a.items| < a.retired + ID_SPACE)
  }

  // ----- what goes out -----

  /** A segment of this message of which nothing has been reported. */
  predicate Unreported(c: Codec, item: Item, p: MessagePayload) {
    && SegmentOf(Encode(c, item.message), p)
    && match p
       case Head(_, _) => !item.head
       case Body(index, _) => index !in item.bodies
       case MessageProgress(_, _) => false
  }

  predicate Before(p: MessagePayload, q: MessagePayload) {
    q.Body? && (p.Head? || (p.Body? && p.index < q.index))
  }

  /** Exactly the unreported segments of message `number` are sent, under its id, the head first, in order. */
  ghost predicate SendsMissing(c: Codec, item: Item, number: nat, output: seq<Output>) {
    && (forall o | o in output :: o.Send?)
    && (forall segment :: Send(segment) in output <==>
          segment.id == IdOf(number) && Unreported(c, item, segment.payload))
    && (forall i, j | 0 <= i < j < |output| :: Before(output[i].segment.payload, output[j].segment.payload))
  }

  /** What a service of the front message puts out. */
  ghost predicate PutsOut(c: Codec, a: Account, connected: bool, output: seq<Output>) {
    if a.retired >= |a.items| || FrontIsReported(c, a) then output == []
    else if connected then SendsMissing(c, a.items[a.retired], a.retired, output)
    else output == [InitiateChannel]
  }

  // ----- the sender agrees with the account -----

  function TrackerOf(c: Codec, item: Item): Tracker
    requires Countable(Encode(c, item.message))
  {
    NewTracker(Encode(c, item.message)).(headConfirmed := item.head, bodiesConfirmed := item.bodies)
  }

  predicate Sound(c: Codec, a: Account) {
    a.retired <= |a.items| && forall item | item in a.items :: Countable(Encode(c, item.message))
  }

  function QueueOf(c: Codec, a: Account): seq<Tracker>
    requires Sound(c, a)
  {
    seq(|a.items| - a.retired, k requires 0 <= k < |a.items| - a.retired => TrackerOf(c, a.items[a.retired + k]))
  }

  /** The sender's queue holds the trackers that the account calls for. */
  ghost predicate Agrees(c: Codec, sender: Sender, a: Account) {
    Sound(c, a) && Queues(sender, QueueOf(c, a)) && sender.nextMessageId == IdOf(a.retired)
  }

  lemma QueueOfWritten(c: Codec, a: Account, e: Event)
    requires Sound(c, a) && e.WriteMessage? && Writable(c, e)
    ensures Sound(c, Noted(a, e))
    ensures QueueOf(c, Noted(a, e)) == QueueOf(c, a) + [NewTracker(Encode(c, e.message))]
  {
    hide Encode, Countable, NewTracker;
    var after := Noted(a, e);
    NewItemIsNewTracker(c, e.message);
    assert forall item | item in after.items :: item in a.items || item == Item(e.message, false, {});
  }

  lemma NewItemIsNewTracker(c: Codec, message: Message)
    requires Countable(Encode(c, message))
    ensures TrackerOf(c, Item(message, false, {})) == NewTracker(Encode(c, message))
  {
  }

  lemma WriteAgrees(c: Codec, o: Outbox, a: Account, e: Event)
    requires Agrees(c, o.sender, a) && e.WriteMessage? && Writable(c, e)
    requires |a.items| < a.retired + ID_SPACE
    ensures Agrees(c, Handle(c, o, e).sender, Noted(a, e))
  {
    hide Queues, QueueOf, Countable, Encode;
    QueueOfLength(c, a);
    QueueOfWritten(c, a, e);
    EnqueueAppends(o.sender, QueueOf(c, a), Encode(c, e.message));
  }

  lemma QueueOfLength(c: Codec, a: Account)
    requires Sound(c, a)
    ensures |QueueOf(c, a)| == |a.items| - a.retired
  {
  }

  lemma QueueOfAt(c: Codec, a: Account, k: nat)
    requires Sound(c, a) && k < |a.items| - a.retired
    ensures a.items[a.retired + k] in a.items
    ensures k < |QueueOf(c, a)| && QueueOf(c, a)[k] == TrackerOf(c, a.items[a.retired + k])
  {
  }

  lemma NotedAt(a: Account, e: Event, n: nat)
    requires e.UpdateStatus? && n < |a.items|
    ensures |Noted(a, e).items| == |a.items|
    ensures Noted(a, e).items[n]
         == if n >= a.retired && IdOf(n) == e.id then Item(a.items[n].message, e.head, e.bodies) else a.items[n]
  {
  }

  lemma SoundAfterReport(c: Codec, a: Account, e: Event)
    requires Sound(c, a) && e.UpdateStatus?
    ensures Sound(c, Noted(a, e)) && |Noted(a, e).items| == |a.items| && Noted(a, e).retired == a.retired
  {
    hide IdOf, Encode, Countable;
    forall item | item in Noted(a, e).items ensures Countable(Encode(c, item.message)) {
      var n :| 0 <= n < |a.items| && Noted(a, e).items[n] == item;
      assert a.items[n] in a.items && a.items[n].message == item.message;
    }
  }

  lemma QueueOfReported(c: Codec, a: Account, e: Event, k: nat)
    requires Sound(c, a) && |a.items| <= a.retired + ID_SPACE && e.UpdateStatus?
    requires k < ID_SPACE && IdOf(a.retired + k) == e.id
    ensures Sound(c, Noted(a, e))
    ensures var queue := QueueOf(c, a);
            QueueOf(c, Noted(a, e))
            == if k < |queue| then queue[k := queue[k].(headConfirmed := e.head, bodiesConfirmed := e.bodies)]
               else queue
  {
    hide IdOf, Encode, Countable, QueueOf, Noted;
    QueueOfLength(c, a);
    SoundAfterReport(c, a, e);
    QueueOfLength(c, Noted(a, e));
    forall n | a.retired <= n < |a.items| && IdOf(n) == e.id ensures n == a.retired + k {
      PositionOfNumberIsUnique(a.retired, n, a.retired + k);
    }
    var queue := QueueOf(c, a);
    forall j | 0 <= j < |queue|
      ensures QueueOf(c, Noted(a, e))[j]
           == if j == k then queue[j].(headConfirmed := e.head, bodiesConfirmed := e.bodies) else queue[j]
    {
      assert IdOf(a.retired + j) == e.id <==> j == k;
      NotedAt(a, e, a.retired + j);
      QueueOfAt(c, a, j);
      QueueOfAt(c, Noted(a, e), j);
    }
  }

  lemma UpdateAgrees(c: Codec, o: Outbox, a: Account, e: Event)
    requires Agrees(c, o.sender, a) && e.UpdateStatus?
    ensures Agrees(c, Handle(c, o, e).sender, Noted(a, e))
  {
    hide Queues, QueueOf, Position, IdOf, Sound, Noted, Report, IsMessageConfirmed;
    var queue := QueueOf(c, a);
    QueueIsShort(o.sender, queue);
    QueueOfLength(c, a);
    PositionOfNumber(o.sender, a.retired, e.id);
    QueueOfReported(c, a, e, Position(o.sender, e.id));
    ReportUpdatesOne(o.sender, queue, e.id, e.head, e.bodies);
    ReportKeepsPlace(o, a, e);
  }

  lemma ReportKeepsPlace(o: Outbox, a: Account, e: Event)
    requires e.UpdateStatus?
    ensures Report(o.sender, e.id, e.head, e.bodies).nextMessageId == o.sender.nextMessageId
    ensures Noted(a, e).retired == a.retired
  {
  }

  lemma QueueIsShort(sender: Sender, queue: seq<Tracker>)
    requires Queues(sender, queue)
    ensures |queue| <= ID_SPACE
  {
  }

  lemma PositionOfNumber(sender: Sender, retired: nat, id: MessageId)
    requires sender.nextMessageId == IdOf(retired)
    ensures IdOf(retired + Position(sender, id)) == id && Position(sender, id) < ID_SPACE
  {
    NumberAtDistance(retired, id);
  }

  lemma PositionOfNumberIsUnique(retired: nat, one: nat, other: nat)
    requires retired <= one < retired + ID_SPACE && retired <= other < retired + ID_SPACE
    requires IdOf(one) == IdOf(other)
    ensures one == other
  {
    SameIdSameMessage(retired, one, other);
  }

  lemma FrontIsFrontTracker(c: Codec, a: Account)
    requires Sound(c, a) && a.retired < |a.items|
    ensures QueueOf(c, a) != [] && QueueOf(c, a)[0] == TrackerOf(c, a.items[a.retired])
    ensures FrontIsReported(c, a) <==> Confirmed(QueueOf(c, a)[0])
  {
  }

  lemma ServiceAgrees(c: Codec, o: Outbox, a: Account, connected: bool)
    requires Agrees(c, o.sender, a)
    ensures Agrees(c, Resend(o, connected).0.sender, AfterService(c, a))
    ensures PutsOut(c, a, connected, Resend(o, connected).1)
  {
    hide Agrees, Resend, AfterService, PutsOut;
    ServiceKeepsAgreement(c, o, a, connected);
    ServicePutsOut(c, o, a, connected);
  }

  lemma QueueOfRetired(c: Codec, a: Account)
    requires Sound(c, a) && a.retired < |a.items|
    ensures Sound(c, a.(retired := a.retired + 1))
    ensures QueueOf(c, a.(retired := a.retired + 1)) == QueueOf(c, a)[1..]
  {
    hide Encode, Countable;
  }

  lemma ServiceKeepsAgreement(c: Codec, o: Outbox, a: Account, connected: bool)
    requires Agrees(c, o.sender, a)
    ensures Agrees(c, Resend(o, connected).0.sender, AfterService(c, a))
  {
    hide Queues, QueueOf, Payloads, Confirmed, FrontIsReported, IdOf, WrappingAdd, Segments, Sound;
    PayloadsServesFront(o.sender, QueueOf(c, a));
    IdOfSuccessor(a.retired);
    QueueOfEnds(c, a);
    if a.retired < |a.items| {
      FrontIsFrontTracker(c, a);
      QueueOfRetired(c, a);
    }
  }

  lemma QueueOfEnds(c: Codec, a: Account)
    requires Sound(c, a)
    ensures QueueOf(c, a) == [] <==> a.retired >= |a.items|
    ensures FrontIsReported(c, a) ==> a.retired < |a.items|
  {
  }

  lemma ServicePutsOut(c: Codec, o: Outbox, a: Account, connected: bool)
    requires Agrees(c, o.sender, a)
    ensures PutsOut(c, a, connected, Resend(o, connected).1)
  {
    hide Queues, QueueOf, Payloads, Confirmed, FrontIsReported, IdOf, SendsMissing, Segments, TrackerOf, Countable;
    PayloadsServesFront(o.sender, QueueOf(c, a));
    QueueOfEnds(c, a);
    if a.retired < |a.items| {
      FrontIsFrontTracker(c, a);
      QueueOfAt(c, a, 0);
      SegmentsAreMissing(c, a.items[a.retired], a.retired);
    }
  }

  /** The offers of a tracker, sent under its id, are what is missing. */
  lemma SegmentsAreMissing(c: Codec, item: Item, number: nat)
    requires Countable(Encode(c, item.message))
    ensures SendsMissing(c, item, number, Segments(IdOf(number), Offers(TrackerOf(c, item))))
  {
    var t := TrackerOf(c, item);
    hide Offers, Encode, IdOf;
    OffersExactly(t);
    SentExactly(IdOf(number), Offers(t));
    forall p ensures p in Offers(t) <==> Unreported(c, item, p) {
    }
  }

  /** Each payload is sent once, in its place, and nothing else is. */
  lemma SentExactly(id: MessageId, payloads: seq<MessagePayload>)
    ensures var output := Segments(id, payloads);
            && |output| == |payloads|
            && (forall i | 0 <= i < |payloads| :: output[i] == Send(MessageSegment(id, payloads[i])))
            && (forall segment :: Send(segment) in output <==> segment.id == id && segment.payload in payloads)
  {
    var output := Segments(id, payloads);
    forall segment: MessageSegment | segment.id == id && segment.payload in payloads ensures Send(segment) in output {
      var i :| 0 <= i < |payloads| && payloads[i] == segment.payload;
      assert output[i] == Send(segment);
    }
  }

  // ----- every run -----

  function Fresh(): Outbox {
    Outbox(EmptySender(), map[], [])
  }

  lemma HandleAgrees(c: Codec, o: Outbox, a: Account, e: Event)
    requires Agrees(c, o.sender, a) && Writable(c, e)
    requires e.WriteMessage? ==> |a.items| < a.retired + ID_SPACE
    ensures Agrees(c, Handle(c, o, e).sender, Noted(a, e))
  {
    hide Agrees, Noted;
    match e
    case WriteMessage(_, _) => WriteAgrees(c, o, a, e);
    case UpdateStatus(_, _, _) => UpdateAgrees(c, o, a, e);
    case Wakeup => WakeupNotesNothing(a);
  }

  lemma WakeupNotesNothing(a: Account)
    ensures Noted(a, Wakeup) == a
  {
  }

  lemma {:induction false} AllWritable(c: Codec, turns: seq<Turn>)
    requires Feasible(c, turns)
    ensures forall turn | turn in turns :: Writable(c, turn.event)
  {
    if turns != [] {
      AllWritable(c, turns[..|turns| - 1]);
      assert turns == turns[..|turns| - 1] + [turns[|turns| - 1]];
    }
  }

  /** In every run the sender's queue is the one that the account calls for. */
  lemma {:induction false} LoopAgrees(c: Codec, turns: seq<Turn>)
    requires Feasible(c, turns)
    ensures forall turn | turn in turns :: Writable(c, turn.event)
    ensures Agrees(c, Loop(c, Fresh(), turns).0.sender, AccountOf(c, turns))
  {
    AllWritable(c, turns);
    if turns != [] {
      var before, turn := turns[..|turns| - 1], turns[|turns| - 1];
      LoopAgrees(c, before);
      var o := Loop(c, Fresh(), before).0;
      hide Agrees, Handle, Noted, AfterService, Resend;
      HandleAgrees(c, o, AccountOf(c, before), turn.event);
      ServiceAgrees(c, Handle(c, o, turn.event), Noted(AccountOf(c, before), turn.event), turn.connected);
    }
  }

  /**
   * In every run, each turn puts out exactly this: with a channel, one segment for each part of the front
   * message that was not reported when it was served, in order, under that message's id, and of that
   * message; without one, a single request for a channel; nothing when there is nothing to send.
   */
  lemma EveryTurnPutsOut(c: Codec, turns: seq<Turn>) returns (more: seq<Output>)
    requires turns != [] && Feasible(c, turns)
    ensures forall turn | turn in turns :: Writable(c, turn.event)
    ensures var before, turn := turns[..|turns| - 1], turns[|turns| - 1];
            && Loop(c, Fresh(), turns).1 == Loop(c, Fresh(), before).1 + more
            && PutsOut(c, Noted(AccountOf(c, before), turn.event), turn.connected, more)
  {
    AllWritable(c, turns);
    var before, turn := turns[..|turns| - 1], turns[|turns| - 1];
    LoopAgrees(c, before);
    var o := Loop(c, Fresh(), before).0;
    hide Agrees, Handle, Noted, Resend, PutsOut;
    HandleAgrees(c, o, AccountOf(c, before), turn.event);
    ServiceAgrees(c, Handle(c, o, turn.event), Noted(AccountOf(c, before), turn.event), turn.connected);
    more := Resend(Handle(c, o, turn.event), turn.connected).1;
  }

  /**
   * What goes out of a new message: its head says whether it is compressed, which it is exactly when that
   * is worth it, and the bodies that follow make up its serialisation, compressed or as it is.
   */
  lemma NewMessageGoesOutEncoded(c: Codec, message: Message, number: nat)
    requires Countable(Encode(c, message))
    ensures var bytes := c.encode(message);
            var wire := if c.worthCompressing(bytes) then c.compress(bytes) else bytes;
            var offers := Offers(TrackerOf(c, Item(message, false, {})));
            && SendsMissing(c, Item(message, false, {}), number, Segments(IdOf(number), offers))
            && offers[0] == Head(BodyCount(wire), c.worthCompressing(bytes))
            && (forall p | p in offers[1..] :: p.Body?)
            && Flatten(DataOf(offers[1..])) == wire
  {
    hide Offers, SendsMissing, Segments;
    EncodedAsChosen(c, message);
    FreshOffersAreTheMessage(Encode(c, message));
    assert TrackerOf(c, Item(message, false, {})) == NewTracker(Encode(c, message));
    SegmentsAreMissing(c, Item(message, false, {}), number);
  }
}
