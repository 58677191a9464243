/**
 * The whole channel as a transition system: a sender, a receiver, and between them a network that
 * keeps every segment and every report for ever, so that it may lose, reorder and repeat them.
 */
module EndToEnd {
  import opened Packet
  import opened Fragments
  import opened Codecs
  import opened Windows
  import opened Delivery
  import opened SenderQueue

  /** Items in the network carry, for the record, the absolute number of their message. */
  datatype InFlight = InFlight(segment: MessageSegment, number: nat)
  datatype Progress = Progress(id: MessageId, head: bool, bodies: set<u16>, number: nat)

  datatype System = System(
    queued: seq<Message>,
    retired: nat,
    sender: Sender,
    receiver: Receiver,
    segments: set<InFlight>,
    reports: set<Progress>,
    panicked: bool)

  datatype Step =
    | QueueMessage(message: Message)
    | Resend
    | SegmentArrives(item: InFlight)
    | EmitReport(number: nat, head: bool, bodies: set<u16>)
    | ReportArrives(report: Progress)

  function Initial(): System {
    System([], 0, EmptySender(), Receiver(EmptyWindow(), [], []), {}, {}, false)
  }

  /** A report is truthful when what it claims is committed in the window, or already handed on. */
  predicate Truthful(rx: Receiver, number: nat, head: bool, bodies: set<u16>) {
    || number < |rx.delivered|
    || (!head && bodies == {})
    || (number - |rx.delivered| < |rx.window.slots| && rx.window.slots[number - |rx.delivered|].Some?
        && var entry := rx.window.slots[number - |rx.delivered|].value;
           && (head ==> entry.headArrived)
           && (forall i | i in bodies :: i < |entry.committedBodies| && entry.committedBodies[i]))
  }

  /**
   * Which steps the environment can take at all: it queues messages that fit while an id is free,
   * delivers what is in the network, and emits only truthful reports.
   */
  predicate Possible(c: Codec, s: System, step: Step) {
    match step
    case QueueMessage(message) =>
      Sendable(Encode(c, message)) && |s.queued| < s.retired + ID_SPACE
    case Resend => true
    case SegmentArrives(item) => item in s.segments
    case EmitReport(number, head, bodies) => number < |s.queued| && Truthful(s.receiver, number, head, bodies)
    case ReportArrives(report) => report in s.reports
  }

  /** Nothing is delivered any more once its id has become ambiguous. */
  predicate Timely(s: System, step: Step) {
    match step
    case SegmentArrives(item) => InReach(|s.receiver.delivered|, item.number)
    case ReportArrives(report) => |s.queued| <= report.number + ID_SPACE
    case _ => true
  }

  predicate Enabled(c: Codec, s: System, step: Step) {
    Possible(c, s, step) && Timely(s, step)
  }

  function Perform(c: Codec, s: System, step: Step): (t: System)
    requires Valid(s.receiver.window) && Possible(c, s, step)
    ensures Valid(t.receiver.window)
  {
    match step
    case QueueMessage(message) =>
      BodyCountIsCeiling(Encode(c, message).payload);
      s.(queued := s.queued + [message],
         sender := Enqueue(s.sender, Encode(c, message)).0,
         receiver := s.receiver.(got := s.receiver.got + [NOTHING]))
    case Resend =>
      var (sender, offers) := Payloads(s.sender);
      (match offers
       case Some((id, payloads)) =>
         s.(sender := sender,
            segments := s.segments + set p | p in payloads :: InFlight(MessageSegment(id, p), s.retired))
       case None =>
         s.(sender := sender,
            retired := if sender.nextMessageId != s.sender.nextMessageId then s.retired + 1 else s.retired))
    case SegmentArrives(item) =>
      if Accept(s.receiver.window, item.segment).None? then
        s.(panicked := true)
      else
        s.(receiver := Deliver(c, s.receiver, item.segment, item.number))
    case EmitReport(number, head, bodies) =>
      s.(reports := s.reports + {Progress(IdOf(number), head, bodies, number)})
    case ReportArrives(report) =>
      s.(sender := Report(s.sender, report.id, report.head, report.bodies))
  }

  /** The system after these steps from `s` on; `None` when one of them was not enabled. */
  function Run(c: Codec, s: System, steps: seq<Step>): (r: Option<System>)
    requires Valid(s.receiver.window)
    ensures r.Some? ==> Valid(r.value.receiver.window)
  {
    if steps == [] then
      Some(s)
    else
      var before := Run(c, s, steps[..|steps| - 1]);
      if before.Some? && Enabled(c, before.value, steps[|steps| - 1])
      then Some(Perform(c, before.value, steps[|steps| - 1])) else None
  }

  // ----- the invariant -----

  /** What a tracker has confirmed, the receiver has really got. */
  ghost predicate Tracks(c: Codec, queued: seq<Message>, got: seq<Received>, t: Tracker, number: nat)
    requires number < |queued| == |got|
  {
    var m := Encode(c, queued[number]);
    && Encoded(t.payload, t.compression) == m
    && t.bodyCount == BodyCount(m.payload)
    && (t.headConfirmed ==> got[number].head)
    && (forall i | i in t.bodiesConfirmed && i < t.bodyCount :: i in got[number].bodies)
  }

  /** The sender's queue holds a tracker for every message that is not retired. */
  ghost predicate SenderInv(c: Codec, queued: seq<Message>, got: seq<Received>, retired: nat, queue: seq<Tracker>)
    requires |got| == |queued|
  {
    && retired + |queue| == |queued|
    && forall k | 0 <= k < |queue| :: Tracks(c, queued, got, queue[k], retired + k)
  }

  /** Whatever is in the network is honest, and nothing beyond the front message has ever been sent. */
  ghost predicate SegmentsInv(c: Codec, queued: seq<Message>, retired: nat, segments: set<InFlight>) {
    forall item | item in segments ::
      item.number <= retired && HonestSegment(c, queued, item.segment, item.number)
  }

  ghost predicate NothingAhead(got: seq<Received>, retired: nat) {
    forall number | retired < number < |got| :: got[number] == NOTHING
  }

  ghost predicate SoundReport(c: Codec, queued: seq<Message>, got: seq<Received>, report: Progress)
    requires |got| == |queued|
  {
    && report.number < |queued|
    && report.id == IdOf(report.number)
    && (report.head ==> got[report.number].head)
    && (forall i | i in report.bodies && i < BodyCount(Encode(c, queued[report.number]).payload) ::
          i in got[report.number].bodies)
  }

  ghost predicate ReportsInv(c: Codec, queued: seq<Message>, got: seq<Received>, reports: set<Progress>)
    requires |got| == |queued|
  {
    forall report | report in reports :: SoundReport(c, queued, got, report)
  }

  ghost predicate ReceiverInv(c: Codec, queued: seq<Message>, rx: Receiver) {
    StreamOk(c, queued) && Faithful(c, queued, rx) && Drained(c, queued, rx)
  }

  ghost predicate Inv(c: Codec, s: System, queue: seq<Tracker>) {
    && !s.panicked
    && ReceiverInv(c, s.queued, s.receiver)
    && s.retired <= |s.receiver.delivered|
    && Queues(s.sender, queue)
    && s.sender.nextMessageId == IdOf(s.retired)
    && SenderInv(c, s.queued, s.receiver.got, s.retired, queue)
    && SegmentsInv(c, s.queued, s.retired, s.segments)
    && NothingAhead(s.receiver.got, s.retired)
    && ReportsInv(c, s.queued, s.receiver.got, s.reports)
  }

  /** The receiver is never more than one message ahead: nothing of a later one has been sent. */
  lemma AtMostOneAhead(c: Codec, s: System, queue: seq<Tracker>)
    requires Inv(c, s, queue)
    ensures s.retired <= |s.receiver.delivered| <= s.retired + 1
  {
    assert |s.receiver.delivered| > s.retired + 1 ==> s.receiver.got[s.retired + 1].head;
  }

  lemma InitialInv(c: Codec)
    requires Lossless(c)
    ensures Inv(c, Initial(), [])
  {
  }

  // ----- queueing -----

  lemma StreamGrows(c: Codec, stream: seq<Message>, message: Message)
    requires StreamOk(c, stream) && Sendable(Encode(c, message))
    ensures StreamOk(c, stream + [message])
  {
    hide Encode, Sendable, Lossless;
  }

  /** The new message has no slot yet, and the others keep theirs. */
  lemma SlotsStay(c: Codec, stream: seq<Message>, got: seq<Received>, message: Message, number: nat)
    requires StreamOk(c, stream) && StreamOk(c, stream + [message]) && |got| == |stream|
    ensures ExpectedSlot(c, stream + [message], got + [NOTHING], number) == ExpectedSlot(c, stream, got, number)
  {
    hide Encode, Lossless;
  }

  lemma FaithfulGrows(c: Codec, stream: seq<Message>, rx: Receiver, message: Message)
    requires StreamOk(c, stream) && StreamOk(c, stream + [message]) && Faithful(c, stream, rx)
    ensures Faithful(c, stream + [message], rx.(got := rx.got + [NOTHING]))
  {
    hide StreamOk, ExpectedSlot, Encode, Complete;
    forall k | 0 <= k < MARGIN_OF_OUT_OF_ORDER_ALLOWED
      ensures rx.window.slots[k] == ExpectedSlot(c, stream + [message], rx.got + [NOTHING], |rx.delivered| + k)
    {
      SlotsStay(c, stream, rx.got, message, |rx.delivered| + k);
    }
  }

  lemma DrainedGrows(c: Codec, stream: seq<Message>, rx: Receiver, message: Message)
    requires |rx.got| == |stream| && Drained(c, stream, rx)
    ensures Drained(c, stream + [message], rx.(got := rx.got + [NOTHING]))
  {
    hide Encode;
  }

  lemma QueueKeepsReceiver(c: Codec, stream: seq<Message>, rx: Receiver, message: Message)
    requires ReceiverInv(c, stream, rx) && Sendable(Encode(c, message))
    ensures ReceiverInv(c, stream + [message], rx.(got := rx.got + [NOTHING]))
  {
    hide StreamOk, Drained, Encode, Sendable, ExpectedSlot;
    StreamGrows(c, stream, message);
    FaithfulGrows(c, stream, rx, message);
    DrainedGrows(c, stream, rx, message);
  }

  lemma QueueKeepsSender(c: Codec, queued: seq<Message>, got: seq<Received>, retired: nat, queue: seq<Tracker>,
                         message: Message)
    requires |got| == |queued| && SenderInv(c, queued, got, retired, queue)
    requires Countable(Encode(c, message))
    ensures SenderInv(c, queued + [message], got + [NOTHING], retired, queue + [NewTracker(Encode(c, message))])
  {
  }

  lemma QueueKeepsReports(c: Codec, queued: seq<Message>, got: seq<Received>, reports: set<Progress>, message: Message)
    requires |got| == |queued| && ReportsInv(c, queued, got, reports)
    ensures ReportsInv(c, queued + [message], got + [NOTHING], reports)
  {
  }

  lemma QueueKeepsSegments(c: Codec, queued: seq<Message>, retired: nat, segments: set<InFlight>, message: Message)
    requires SegmentsInv(c, queued, retired, segments)
    ensures SegmentsInv(c, queued + [message], retired, segments)
  {
    hide Encode, SegmentOf;
  }

  lemma QueueKeepsInv(c: Codec, s: System, queue: seq<Tracker>, message: Message)
    requires Inv(c, s, queue) && Enabled(c, s, QueueMessage(message))
    ensures Countable(Encode(c, message))
    ensures Inv(c, Perform(c, s, QueueMessage(message)), queue + [NewTracker(Encode(c, message))])
  {
    hide StreamOk, Drained, ExpectedSlot, SegmentsInv, ReportsInv, Queues, Encode, Tracks;
    var m := Encode(c, message);
    BodyCountIsCeiling(m.payload);
    EnqueueAppends(s.sender, queue, m);
    QueueKeepsReceiver(c, s.queued, s.receiver, message);
    QueueKeepsSender(c, s.queued, s.receiver.got, s.retired, queue, message);
    QueueKeepsSegments(c, s.queued, s.retired, s.segments, message);
    QueueKeepsReports(c, s.queued, s.receiver.got, s.reports, message);
  }

  // ----- sending -----

  lemma OffersAreHonest(c: Codec, s: System, queue: seq<Tracker>)
    requires Inv(c, s, queue) && queue != []
    ensures forall p | p in Offers(queue[0]) ::
              HonestSegment(c, s.queued, MessageSegment(s.sender.nextMessageId, p), s.retired)
  {
    assert Tracks(c, s.queued, s.receiver.got, queue[0], s.retired + 0);
    OffersExactly(queue[0]);
  }

  /** The front is retired only once the receiver has handed it on. */
  lemma RetiredMessageIsDelivered(c: Codec, s: System, queue: seq<Tracker>)
    requires Inv(c, s, queue) && queue != [] && Confirmed(queue[0])
    ensures s.retired < |s.receiver.delivered|
  {
  }

  lemma RetireKeepsSender(c: Codec, queued: seq<Message>, got: seq<Received>, retired: nat, queue: seq<Tracker>)
    requires |got| == |queued| && SenderInv(c, queued, got, retired, queue) && queue != []
    ensures SenderInv(c, queued, got, retired + 1, queue[1..])
  {
  }

  /** One round of the sender: the front is retired, or offered, or there is none. */
  lemma ResendServesFront(c: Codec, s: System, queue: seq<Tracker>)
    requires Inv(c, s, queue)
    ensures var t := Perform(c, s, Resend);
            if queue == [] then t == s
            else if Confirmed(queue[0]) then
              t == s.(sender := t.sender, retired := s.retired + 1)
              && Queues(t.sender, queue[1..])
              && t.sender.nextMessageId == WrappingAdd(s.sender.nextMessageId, 1)
            else
              t == s.(segments := s.segments + set p | p in Offers(queue[0]) ::
                        InFlight(MessageSegment(s.sender.nextMessageId, p), s.retired))
  {
    hide SenderInv, SegmentsInv, NothingAhead, ReportsInv, Queues, Confirmed, Offers, Payloads, Drained, StreamOk;
    PayloadsServesFront(s.sender, queue);
  }

  lemma RetireKeepsInv(c: Codec, s: System, queue: seq<Tracker>, sender: Sender)
    requires Inv(c, s, queue) && queue != [] && Confirmed(queue[0])
    requires Queues(sender, queue[1..])
    requires sender.nextMessageId == WrappingAdd(s.sender.nextMessageId, 1)
    ensures Inv(c, s.(sender := sender, retired := s.retired + 1), queue[1..])
  {
    RetiredMessageIsDelivered(c, s, queue);
    RetireKeepsSender(c, s.queued, s.receiver.got, s.retired, queue);
    IdOfSuccessor(s.retired);
  }

  lemma OfferKeepsInv(c: Codec, s: System, queue: seq<Tracker>)
    requires Inv(c, s, queue) && queue != []
    ensures Inv(c, s.(segments := s.segments + set p | p in Offers(queue[0]) ::
                        InFlight(MessageSegment(s.sender.nextMessageId, p), s.retired)), queue)
  {
    OffersAreHonest(c, s, queue);
  }

  lemma ResendKeepsInv(c: Codec, s: System, queue: seq<Tracker>)
    requires Inv(c, s, queue)
    ensures Inv(c, Perform(c, s, Resend), if queue != [] && Confirmed(queue[0]) then queue[1..] else queue)
  {
    ResendServesFront(c, s, queue);
    if queue != [] && Confirmed(queue[0]) {
      RetireKeepsInv(c, s, queue, Perform(c, s, Resend).sender);
    } else if queue != [] {
      OfferKeepsInv(c, s, queue);
    }
  }

  // ----- receiving -----

  /** What is on record as received only ever grows. */
  predicate Grows(before: seq<Received>, after: seq<Received>) {
    |after| == |before|
    && forall i | 0 <= i < |before| :: (before[i].head ==> after[i].head) && before[i].bodies <= after[i].bodies
  }

  lemma GrowthKeepsSender(c: Codec, queued: seq<Message>, got: seq<Received>, got': seq<Received>, retired: nat,
                          queue: seq<Tracker>)
    requires |got| == |queued| && SenderInv(c, queued, got, retired, queue) && Grows(got, got')
    ensures SenderInv(c, queued, got', retired, queue)
  {
  }

  lemma GrowthKeepsReports(c: Codec, queued: seq<Message>, got: seq<Received>, got': seq<Received>,
                           reports: set<Progress>)
    requires |got| == |queued| && ReportsInv(c, queued, got, reports) && Grows(got, got')
    ensures ReportsInv(c, queued, got', reports)
  {
  }

  lemma ArrivalKeepsInv(c: Codec, s: System, queue: seq<Tracker>, item: InFlight)
    requires Inv(c, s, queue) && Enabled(c, s, SegmentArrives(item))
    ensures Inv(c, Perform(c, s, SegmentArrives(item)), queue)
  {
    hide ExpectedSlot, Queues, Tracks, SoundReport, Encode, SegmentOf, Accept, Drain;
    DeliverIsFaithful(c, s.queued, s.receiver, item.segment, item.number);
    var got := Record(s.receiver, item.segment, item.number);
    GrowthKeepsSender(c, s.queued, s.receiver.got, got, s.retired, queue);
    GrowthKeepsReports(c, s.queued, s.receiver.got, got, s.reports);
  }

  // ----- reporting -----

  lemma TruthfulReportIsSound(c: Codec, s: System, queue: seq<Tracker>, number: nat, head: bool, bodies: set<u16>)
    requires Inv(c, s, queue) && Enabled(c, s, EmitReport(number, head, bodies))
    ensures SoundReport(c, s.queued, s.receiver.got, Progress(IdOf(number), head, bodies, number))
  {
    var r := |s.receiver.delivered|;
    if number < r {
      assert Complete(Encode(c, s.queued[number]), s.receiver.got[number]);
    } else if head || bodies != {} {
      assert s.receiver.window.slots[number - r] == ExpectedSlot(c, s.queued, s.receiver.got, r + (number - r));
    }
  }

  function Confirm(queue: seq<Tracker>, k: int, report: Progress): seq<Tracker> {
    if 0 <= k < |queue|
    then queue[k := queue[k].(headConfirmed := report.head, bodiesConfirmed := report.bodies)] else queue
  }

  /**
   * A report about a retired message finds no tracker exactly while no id has been given out twice since;
   * one about a queued message finds the tracker of that message.
   */
  lemma ReportPosition(sender: Sender, retired: nat, length: nat, number: nat)
    requires sender.nextMessageId == IdOf(retired) && length <= ID_SPACE
    requires number < retired + length && retired <= number + ID_SPACE
    ensures number < retired ==> (Position(sender, IdOf(number)) >= length <==> retired + length <= number + ID_SPACE)
    ensures number >= retired ==> Position(sender, IdOf(number)) == number - retired
  {
    IdDistance(number, retired);
  }

  /** A report reaches the tracker of its own message, and none when that message is retired already. */
  lemma ReportFindsItsMessage(sender: Sender, retired: nat, queue: seq<Tracker>, report: Progress)
    requires Queues(sender, queue) && sender.nextMessageId == IdOf(retired) && report.id == IdOf(report.number)
    requires report.number < retired + |queue| <= report.number + ID_SPACE
    ensures var after := Report(sender, report.id, report.head, report.bodies);
            && Queues(after, Confirm(queue, report.number - retired, report))
            && after.nextMessageId == sender.nextMessageId
  {
    ReportPosition(sender, retired, |queue|, report.number);
    ReportUpdatesOne(sender, queue, report.id, report.head, report.bodies);
  }

  lemma ConfirmKeepsSender(c: Codec, queued: seq<Message>, got: seq<Received>, retired: nat,
                           queue: seq<Tracker>, report: Progress)
    requires |got| == |queued| && SenderInv(c, queued, got, retired, queue) && SoundReport(c, queued, got, report)
    ensures SenderInv(c, queued, got, retired, Confirm(queue, report.number - retired, report))
  {
  }

  lemma NewSenderKeepsInv(c: Codec, s: System, queue: seq<Tracker>, sender: Sender, queue': seq<Tracker>)
    requires Inv(c, s, queue)
    requires Queues(sender, queue') && sender.nextMessageId == s.sender.nextMessageId
    requires SenderInv(c, s.queued, s.receiver.got, s.retired, queue')
    ensures Inv(c, s.(sender := sender), queue')
  {
  }

  lemma ReportKeepsSender(c: Codec, s: System, queue: seq<Tracker>, report: Progress)
    requires Inv(c, s, queue) && report in s.reports && |s.queued| <= report.number + ID_SPACE
    ensures Inv(c, s.(sender := Report(s.sender, report.id, report.head, report.bodies)),
                Confirm(queue, report.number - s.retired, report))
  {
    hide StreamOk, Drained, ExpectedSlot, SegmentsInv, NothingAhead, Queues, Confirm, Report, Tracks;
    assert SoundReport(c, s.queued, s.receiver.got, report);
    ReportFindsItsMessage(s.sender, s.retired, queue, report);
    ConfirmKeepsSender(c, s.queued, s.receiver.got, s.retired, queue, report);
    var sender := Report(s.sender, report.id, report.head, report.bodies);
    NewSenderKeepsInv(c, s, queue, sender, Confirm(queue, report.number - s.retired, report));
  }

  lemma ReportKeepsInv(c: Codec, s: System, queue: seq<Tracker>, report: Progress)
    requires Inv(c, s, queue) && Enabled(c, s, ReportArrives(report))
    ensures Inv(c, Perform(c, s, ReportArrives(report)), Confirm(queue, report.number - s.retired, report))
  {
    ReportKeepsSender(c, s, queue, report);
  }

  // ----- every run -----

  lemma StepKeepsInv(c: Codec, s: System, queue: seq<Tracker>, step: Step) returns (queue': seq<Tracker>)
    requires Inv(c, s, queue) && Enabled(c, s, step)
    ensures Inv(c, Perform(c, s, step), queue')
  {
    match step
    case QueueMessage(message) =>
      QueueKeepsInv(c, s, queue, message);
      queue' := queue + [NewTracker(Encode(c, message))];
    case Resend =>
      ResendKeepsInv(c, s, queue);
      queue' := if queue != [] && Confirmed(queue[0]) then queue[1..] else queue;
    case SegmentArrives(item) =>
      ArrivalKeepsInv(c, s, queue, item);
      queue' := queue;
    case EmitReport(number, head, bodies) =>
      TruthfulReportIsSound(c, s, queue, number, head, bodies);
      queue' := queue;
    case ReportArrives(report) =>
      ReportKeepsInv(c, s, queue, report);
      queue' := Confirm(queue, report.number - s.retired, report);
  }

  lemma {:induction false} RunKeepsInv(c: Codec, s: System, queue: seq<Tracker>, steps: seq<Step>)
    returns (queue': seq<Tracker>)
    requires Inv(c, s, queue) && Run(c, s, steps).Some?
    ensures Inv(c, Run(c, s, steps).value, queue')
  {
    if steps == [] {
      queue' := queue;
    } else {
      var before := steps[..|steps| - 1];
      var queue0 := RunKeepsInv(c, s, queue, before);
      queue' := StepKeepsInv(c, Run(c, s, before).value, queue0, steps[|steps| - 1]);
    }
  }

  /**
   * In every run, what has been handed on is a prefix of what was queued: in order, none twice, none
   * altered, whatever the network loses, repeats or reorders, and however often the ids wrap around.
   */
  lemma DeliveryIsSafe(c: Codec, steps: seq<Step>)
    requires Lossless(c) && Run(c, Initial(), steps).Some?
    ensures var s := Run(c, Initial(), steps).value;
            s.receiver.delivered <= s.queued && !s.panicked
  {
    InitialInv(c);
    var _ := RunKeepsInv(c, Initial(), [], steps);
  }

  /**
   * In every run the receiver is at the sender's front message or one ahead of it, so nothing is
   * retired that was not handed on, and nothing is sent outside the receiver's window.
   */
  lemma Lockstep(c: Codec, steps: seq<Step>)
    requires Lossless(c) && Run(c, Initial(), steps).Some?
    ensures var s := Run(c, Initial(), steps).value;
            && s.retired <= |s.receiver.delivered| <= s.retired + 1
            && s.sender.nextMessageId == IdOf(s.retired)
            && s.receiver.window.currentMessageId == IdOf(|s.receiver.delivered|)
            && (Payloads(s.sender).1.Some? ==>
                  s.retired < |s.queued|
                  && forall p | p in Payloads(s.sender).1.value.1 :: SegmentOf(Encode(c, s.queued[s.retired]), p))
  {
    InitialInv(c);
    var queue := RunKeepsInv(c, Initial(), [], steps);
    var s := Run(c, Initial(), steps).value;
    AtMostOneAhead(c, s, queue);
    PayloadsServesFront(s.sender, queue);
    if queue != [] {
      OffersAreHonest(c, s, queue);
    }
  }

  /** An id belongs to the sender exactly while its message is queued, and then to that message. */
  ghost predicate HasItsMessage(c: Codec, s: System, id: MessageId) {
    var k := Position(s.sender, id);
    && (id in s.sender.packets <==> s.retired + k < |s.queued|)
    && (id in s.sender.packets ==>
          && id == IdOf(s.retired + k)
          && Encoded(s.sender.packets[id].payload, s.sender.packets[id].compression)
             == Encode(c, s.queued[s.retired + k]))
  }

  lemma QueuedIdHasItsMessage(c: Codec, s: System, queue: seq<Tracker>, id: MessageId)
    requires Inv(c, s, queue)
    ensures HasItsMessage(c, s, id)
  {
    hide StreamOk, Drained, ExpectedSlot, SegmentsInv, NothingAhead, ReportsInv, Encode;
    var k := Position(s.sender, id);
    NumberAtDistance(s.retired, id);
    if id in s.sender.packets {
      assert Tracks(c, s.queued, s.receiver.got, queue[k], s.retired + k);
    }
  }

  /**
   * In every run the sender's map holds exactly the messages that are not retired, at consecutive ids
   * from the front on, each with the encoding of its own message.
   */
  lemma QueueIsOneInterval(c: Codec, steps: seq<Step>)
    requires Lossless(c) && Run(c, Initial(), steps).Some?
    ensures var s := Run(c, Initial(), steps).value;
            && s.retired <= |s.queued| <= s.retired + ID_SPACE
            && forall id: MessageId :: HasItsMessage(c, s, id)
  {
    InitialInv(c);
    var queue := RunKeepsInv(c, Initial(), [], steps);
    var s := Run(c, Initial(), steps).value;
    forall id: MessageId ensures HasItsMessage(c, s, id) {
      QueuedIdHasItsMessage(c, s, queue, id);
    }
  }
}
