/** The sender's side, as values: which message is offered next, and what of it is still unconfirmed. */
module SenderQueue {
  import opened Packet
  import opened Fragments

  datatype Tracker = Tracker(
    payload: seq<byte>,
    compression: bool,
    headConfirmed: bool,
    bodyCount: NonZeroU16,
    bodiesConfirmed: set<u16>)

  datatype Sender = Sender(
    packets: map<MessageId, Tracker>,
    nextMessageId: MessageId,
    highestMessageId: MessageId)

  function EmptySender(): Sender {
    Sender(map[], 0, 0)
  }

  /** The number of bodies has to fit its 16-bit field. */
  predicate Countable(m: Encoded) {
    0 < BodyCount(m.payload) < 0x1_0000
  }

  function NewTracker(m: Encoded): Tracker
    requires Countable(m)
  {
    Tracker(m.payload, m.compression, false, BodyCount(m.payload), {})
  }

  // ----- operations -----

  /** `message`, with the ids that the tests call for: 0, 1, 2, and so on. */
  function Enqueue(s: Sender, m: Encoded): (Sender, MessageId)
    requires Countable(m)
  {
    (s.(packets := s.packets[s.highestMessageId := NewTracker(m)],
        highestMessageId := WrappingAdd(s.highestMessageId, 1)),
     s.highestMessageId)
  }

  /** `message` as it is written: the id is computed, but the counter is never stored. */
  function EnqueueAsWritten(s: Sender, m: Encoded): (Sender, MessageId)
    requires Countable(m)
  {
    var id := WrappingAdd(s.highestMessageId, 1);
    (s.(packets := s.packets[id := NewTracker(m)]), id)
  }

  function HeadStatus(s: Sender, id: MessageId, status: bool): Sender {
    if id in s.packets then s.(packets := s.packets[id := s.packets[id].(headConfirmed := status)]) else s
  }

  function BodyStatus(s: Sender, id: MessageId, status: set<u16>): Sender {
    if id in s.packets then s.(packets := s.packets[id := s.packets[id].(bodiesConfirmed := status)]) else s
  }

  function Report(s: Sender, id: MessageId, head: bool, bodies: set<u16>): Sender {
    BodyStatus(HeadStatus(s, id, head), id, bodies)
  }

  predicate Confirmed(t: Tracker) {
    t.headConfirmed && forall index: u16 | index < t.bodyCount :: index in t.bodiesConfirmed
  }

  predicate IsMessageConfirmed(s: Sender, id: MessageId) {
    id in s.packets && Confirmed(s.packets[id])
  }

  /** The unconfirmed ones among the first `n` bodies. */
  function UnconfirmedBodies(t: Tracker, n: nat): seq<MessagePayload>
    requires n <= t.bodyCount
  {
    if n == 0 then []
    else UnconfirmedBodies(t, n - 1)
         + if n - 1 in t.bodiesConfirmed then [] else [Body(n - 1, Fragment(t.payload, n - 1))]
  }

  function Offers(t: Tracker): seq<MessagePayload> {
    (if t.headConfirmed then [] else [Head(t.bodyCount, t.compression)]) + UnconfirmedBodies(t, t.bodyCount)
  }

  /** `payloads`: what the front message still needs; a message that needs nothing is retired. */
  function Payloads(s: Sender): (Sender, Option<(MessageId, seq<MessagePayload>)>) {
    if s.nextMessageId !in s.packets then
      (s, None)
    else
      var offers := Offers(s.packets[s.nextMessageId]);
      if offers == [] then
        (s.(packets := s.packets - {s.nextMessageId}, nextMessageId := WrappingAdd(s.nextMessageId, 1)), None)
      else
        (s, Some((s.nextMessageId, offers)))
  }

  // ----- what is offered -----

  lemma {:induction false} UnconfirmedBodiesExactly(t: Tracker, n: nat)
    requires n <= t.bodyCount
    ensures forall p ::
              p in UnconfirmedBodies(t, n) <==>
              p.Body? && p.index < n && p.index !in t.bodiesConfirmed && p.data == Fragment(t.payload, p.index)
    ensures forall i, j | 0 <= i < j < |UnconfirmedBodies(t, n)| ::
              UnconfirmedBodies(t, n)[i].index < UnconfirmedBodies(t, n)[j].index
  {
    if n > 0 {
      UnconfirmedBodiesExactly(t, n - 1);
    }
  }

  /** Exactly the unconfirmed segments are offered, the head first and each body once, in increasing order. */
  lemma OffersExactly(t: Tracker)
    ensures forall p ::
              p in Offers(t) <==>
              || (p == Head(t.bodyCount, t.compression) && !t.headConfirmed)
              || (p.Body? && p.index < t.bodyCount && p.index !in t.bodiesConfirmed
                  && p.data == Fragment(t.payload, p.index))
    ensures forall i | 0 <= i < |Offers(t)| :: Offers(t)[i].Head? <==> i == 0 && !t.headConfirmed
    ensures forall i, j | 0 <= i < j < |Offers(t)| && Offers(t)[i].Body? && Offers(t)[j].Body? ::
              Offers(t)[i].index < Offers(t)[j].index
  {
    UnconfirmedBodiesExactly(t, t.bodyCount);
    var bodies := UnconfirmedBodies(t, t.bodyCount);
    var head := if t.headConfirmed then [] else [Head(t.bodyCount, t.compression)];
    assert forall i | 0 <= i < |bodies| :: bodies[i] in bodies;
    assert forall i | |head| <= i < |Offers(t)| :: Offers(t)[i] == bodies[i - |head|];
  }

  lemma NothingOfferedExactlyWhenConfirmed(t: Tracker)
    ensures Offers(t) == [] <==> Confirmed(t)
  {
    OffersExactly(t);
    if Offers(t) == [] {
      forall index: u16 | index < t.bodyCount ensures index in t.bodiesConfirmed {
        assert Body(index, Fragment(t.payload, index)) !in Offers(t);
      }
    } else {
      assert Offers(t)[0] in Offers(t);
    }
  }

  lemma {:induction false} FreshBodies(m: Encoded, n: nat)
    requires Countable(m) && n <= BodyCount(m.payload)
    ensures UnconfirmedBodies(NewTracker(m), n) == seq(n, i requires 0 <= i < n => Body(i, Fragment(m.payload, i)))
  {
    if n > 0 {
      FreshBodies(m, n - 1);
    }
  }

  function DataOf(payloads: seq<MessagePayload>): seq<seq<byte>>
    requires forall p | p in payloads :: p.Body?
  {
    seq(|payloads|, i requires 0 <= i < |payloads| => payloads[i].data)
  }

  /** A new message is offered whole: its head, then `ceil(len / P)` bodies that make up its payload. */
  lemma FreshOffersAreTheMessage(m: Encoded)
    requires Countable(m)
    ensures var offers := Offers(NewTracker(m));
            && |offers| == 1 + BodyCount(m.payload)
            && offers[0] == Head(BodyCount(m.payload), m.compression)
            && (forall p | p in offers[1..] :: p.Body?)
            && Flatten(DataOf(offers[1..])) == m.payload
            && (forall i | 0 < i < |offers| - 1 :: |offers[i].data| == MAX_PACKET_PAYLOAD_SIZE)
  {
    var offers := Offers(NewTracker(m));
    var n := BodyCount(m.payload);
    FreshBodies(m, n);
    assert offers[1..] == UnconfirmedBodies(NewTracker(m), n);
    assert DataOf(offers[1..]) == AllFragments(m.payload);
    FragmentsFlattenToPayload(m.payload);
    forall i | 0 < i < |offers| - 1 ensures |offers[i].data| == MAX_PACKET_PAYLOAD_SIZE {
      assert offers[i] == offers[1..][i - 1];
      FragmentLengths(m.payload, i - 1);
    }
  }

  // ----- the queue -----

  /** How far behind the front of the queue an id is. */
  function Position(s: Sender, id: MessageId): nat {
    WrappingSub(id, s.nextMessageId)
  }

  /** The trackers lie at consecutive ids from `nextMessageId` on, in the order of the queue. */
  ghost predicate Queues(s: Sender, queue: seq<Tracker>) {
    && |queue| <= ID_SPACE
    && s.highestMessageId == (s.nextMessageId + |queue|) % ID_SPACE
    && (forall id: MessageId :: id in s.packets <==> Position(s, id) < |queue|)
    && (forall id: MessageId | id in s.packets :: s.packets[id] == queue[Position(s, id)])
  }

  /** What an id stands for once one more message is queued. */
  lemma EnqueuedAt(s: Sender, queue: seq<Tracker>, m: Encoded, id: MessageId)
    requires Queues(s, queue) && Countable(m) && |queue| < ID_SPACE
    ensures var after := Enqueue(s, m).0;
            var longer := queue + [NewTracker(m)];
            && (id in after.packets <==> Position(s, id) < |longer|)
            && (id in after.packets ==> after.packets[id] == longer[Position(s, id)])
  {
    hide NewTracker, Countable, WrappingSub;
    DistanceOfSum(s.nextMessageId, |queue|);
    DistanceIsInjective(id, s.highestMessageId, s.nextMessageId);
  }

  lemma NextHighest(s: Sender, length: nat)
    requires s.highestMessageId == (s.nextMessageId + length) % ID_SPACE
    ensures WrappingAdd(s.highestMessageId, 1) == (s.nextMessageId + (length + 1)) % ID_SPACE
  {
  }

  /** A message joins the end of the queue, as long as there is an id left for it. */
  lemma EnqueueAppends(s: Sender, queue: seq<Tracker>, m: Encoded)
    requires Queues(s, queue) && Countable(m)
    ensures Enqueue(s, m).1 == (s.nextMessageId + |queue|) % ID_SPACE
    ensures Queues(Enqueue(s, m).0, queue + [NewTracker(m)]) <==> |queue| < ID_SPACE
  {
    hide NewTracker, Countable, WrappingAdd, WrappingSub;
    NextHighest(s, |queue|);
    if |queue| < ID_SPACE {
      forall id: MessageId
        ensures id in Enqueue(s, m).0.packets <==> Position(s, id) < |queue| + 1
        ensures id in Enqueue(s, m).0.packets ==>
                  Enqueue(s, m).0.packets[id] == (queue + [NewTracker(m)])[Position(s, id)]
      {
        EnqueuedAt(s, queue, m, id);
      }
    }
  }

  /** With every id in use, a new message takes the place of the one at the front. */
  lemma EnqueueOnFullQueueReplacesFront(s: Sender, queue: seq<Tracker>, m: Encoded)
    requires Queues(s, queue) && Countable(m) && |queue| == ID_SPACE
    ensures var after := Enqueue(s, m).0;
            Payloads(after) == (after, Some((s.nextMessageId, Offers(NewTracker(m)))))
  {
  }

  /** A report changes the tracker of its id, and only when that id is queued. */
  lemma ReportUpdatesOne(s: Sender, queue: seq<Tracker>, id: MessageId, head: bool, bodies: set<u16>)
    requires Queues(s, queue)
    ensures var after := Report(s, id, head, bodies);
            var k := Position(s, id);
            if k < |queue|
            then Queues(after, queue[k := queue[k].(headConfirmed := head, bodiesConfirmed := bodies)])
            else after == s
  {
    var k := Position(s, id);
    if k < |queue| {
      var after := Report(s, id, head, bodies);
      var queue' := queue[k := queue[k].(headConfirmed := head, bodiesConfirmed := bodies)];
      forall other: MessageId | other in after.packets
        ensures after.packets[other] == queue'[Position(after, other)]
      {
        DistanceIsInjective(id, other, s.nextMessageId);
      }
    }
  }

  /** Each of the two reports alone changes its own half of that tracker. */
  lemma StatusUpdatesOne(s: Sender, queue: seq<Tracker>, id: MessageId, head: bool, bodies: set<u16>)
    requires Queues(s, queue)
    ensures var k := Position(s, id);
            if k < |queue| then
              && Queues(HeadStatus(s, id, head), queue[k := queue[k].(headConfirmed := head)])
              && Queues(BodyStatus(s, id, bodies), queue[k := queue[k].(bodiesConfirmed := bodies)])
            else
              HeadStatus(s, id, head) == s && BodyStatus(s, id, bodies) == s
  {
    hide WrappingSub;
    var k := Position(s, id);
    if k < |queue| {
      forall other: MessageId ensures Position(s, other) == k <==> other == id {
        DistanceIsInjective(id, other, s.nextMessageId);
      }
    }
  }

  lemma ReportConfirms(s: Sender, queue: seq<Tracker>, id: MessageId, head: bool, bodies: set<u16>)
    requires Queues(s, queue)
    ensures IsMessageConfirmed(Report(s, id, head, bodies), id) <==>
              var k := Position(s, id);
              k < |queue| && Confirmed(queue[k].(headConfirmed := head, bodiesConfirmed := bodies))
  {
  }

  /** Only the front of the queue is offered, and it is retired exactly when it is confirmed. */
  lemma PayloadsServesFront(s: Sender, queue: seq<Tracker>)
    requires Queues(s, queue)
    ensures queue == [] ==> Payloads(s) == (s, None)
    ensures queue != [] && !Confirmed(queue[0]) ==>
              Payloads(s) == (s, Some((s.nextMessageId, Offers(queue[0]))))
    ensures queue != [] && Confirmed(queue[0]) ==>
              Payloads(s).1 == None && Queues(Payloads(s).0, queue[1..])
              && Payloads(s).0.nextMessageId == WrappingAdd(s.nextMessageId, 1)
    ensures IsMessageConfirmed(s, s.nextMessageId) <==> queue != [] && Confirmed(queue[0])
  {
    if queue != [] {
      assert Position(s, s.nextMessageId) == 0;
      NothingOfferedExactlyWhenConfirmed(queue[0]);
      if Confirmed(queue[0]) {
        RetireDropsFront(s, queue);
      }
    }
  }

  lemma RetireDropsFront(s: Sender, queue: seq<Tracker>)
    requires Queues(s, queue) && queue != []
    ensures var next := WrappingAdd(s.nextMessageId, 1);
            Queues(Sender(s.packets - {s.nextMessageId}, next, s.highestMessageId), queue[1..])
  {
    var after := Sender(s.packets - {s.nextMessageId}, WrappingAdd(s.nextMessageId, 1), s.highestMessageId);
    forall id: MessageId
      ensures id in after.packets <==> Position(after, id) < |queue[1..]|
      ensures id in after.packets ==> after.packets[id] == queue[1..][Position(after, id)]
    {
      DistanceFromSuccessor(id, s.nextMessageId);
    }
  }

  // ----- the allocation of ids as it is written -----

  datatype Call =
    | CallMessage(m: Encoded)
    | CallHeadStatus(id: MessageId, head: bool)
    | CallBodyStatus(id: MessageId, bodies: set<u16>)
    | CallPayloads

  function PerformAsWritten(s: Sender, call: Call): Sender
    requires call.CallMessage? ==> Countable(call.m)
  {
    match call
    case CallMessage(m) => EnqueueAsWritten(s, m).0
    case CallHeadStatus(id, head) => HeadStatus(s, id, head)
    case CallBodyStatus(id, bodies) => BodyStatus(s, id, bodies)
    case CallPayloads => Payloads(s).0
  }

  function PerformAllAsWritten(calls: seq<Call>): Sender
    requires forall call | call in calls && call.CallMessage? :: Countable(call.m)
  {
    if calls == [] then EmptySender()
    else PerformAsWritten(PerformAllAsWritten(calls[..|calls| - 1]), calls[|calls| - 1])
  }

  /** With the counter never stored, every message gets id 1, and nothing is ever offered or retired. */
  lemma {:induction false} NothingIsEverOfferedAsWritten(calls: seq<Call>)
    requires forall call | call in calls && call.CallMessage? :: Countable(call.m)
    ensures var s := PerformAllAsWritten(calls);
            && s.packets.Keys <= {1} && s.nextMessageId == 0 && s.highestMessageId == 0
            && Payloads(s) == (s, None)
            && (forall m | Countable(m) :: EnqueueAsWritten(s, m).1 == 1)
            && (1 in s.packets <==> exists call | call in calls :: call.CallMessage?)
  {
    if calls != [] {
      var before := calls[..|calls| - 1];
      NothingIsEverOfferedAsWritten(before);
      assert calls == before + [calls[|calls| - 1]];
    }
  }

  /** So the queue is in order, as written, exactly for as long as no message has been queued. */
  lemma QueueAsWrittenIsInOrderExactlyWhenEmpty(calls: seq<Call>)
    requires forall call | call in calls && call.CallMessage? :: Countable(call.m)
    ensures (exists queue :: Queues(PerformAllAsWritten(calls), queue))
       <==> forall call | call in calls :: !call.CallMessage?
  {
    NothingIsEverOfferedAsWritten(calls);
    var s := PerformAllAsWritten(calls);
    if forall call | call in calls :: !call.CallMessage? {
      assert Queues(s, []);
    }
    if queue :| Queues(s, queue) {
      assert Position(s, 1) == 1;
      assert Position(s, 0) == 0;
    }
  }
}
