/**
 * Runs in which every report says exactly what has arrived and reports do not overtake each other: what
 * the sender still offers then only ever shrinks, and so does the work that is left for its whole queue.
 */
module OrderedReports {
  import opened Packet
  import opened Fragments
  import opened Reassembly
  import opened Confluence
  import opened Codecs
  import opened Windows
  import opened Delivery
  import opened SenderQueue
  import opened EndToEnd
  import opened Liveness

  /** The channel, and the reports that may still arrive, the oldest first. */
  datatype Ordered = Ordered(system: System, inTransit: seq<Progress>)

  /** A report is exact when it claims what is committed in the window, or all of what was handed on. */
  predicate IsExact(c: Codec, s: System, number: nat, head: bool, bodies: set<u16>) {
    && number < |s.queued|
    && var count := BodyCount(Encode(c, s.queued[number]).payload);
    && var k := number - |s.receiver.delivered|;
    if k < 0 then
      head && forall i: u16 | i < count :: i in bodies
    else if k < |s.receiver.window.slots| && s.receiver.window.slots[k].Some? then
      var entry := s.receiver.window.slots[k].value;
      && head == entry.headArrived
      && (forall i: u16 | i < count :: i in bodies <==> i < |entry.committedBodies| && entry.committedBodies[i])
    else
      !head && bodies == {}
  }

  function FirstIndex(inTransit: seq<Progress>, report: Progress): (i: nat)
    ensures i <= |inTransit| && (i < |inTransit| ==> inTransit[i] == report)
  {
    if inTransit == [] || inTransit[0] == report then 0 else 1 + FirstIndex(inTransit[1..], report)
  }

  /** Only exact reports are emitted; one that arrives was not yet overtaken, and overtakes those before it. */
  function StepInOrder(c: Codec, o: Ordered, step: Step): (r: Option<Ordered>)
    requires Valid(o.system.receiver.window)
    ensures r.Some? ==> Valid(r.value.system.receiver.window)
  {
    if !Enabled(c, o.system, step) then
      None
    else
      var after := Perform(c, o.system, step);
      match step
      case EmitReport(number, head, bodies) =>
        if IsExact(c, o.system, number, head, bodies)
        then Some(Ordered(after, o.inTransit + [Progress(IdOf(number), head, bodies, number)])) else None
      case ReportArrives(report) =>
        var i := FirstIndex(o.inTransit, report);
        if i < |o.inTransit| then Some(Ordered(after, o.inTransit[i + 1..])) else None
      case _ =>
        Some(Ordered(after, o.inTransit))
  }

  function RunInOrder(c: Codec, o: Ordered, steps: seq<Step>): (r: Option<Ordered>)
    requires Valid(o.system.receiver.window)
    ensures r.Some? ==> Valid(r.value.system.receiver.window)
  {
    if steps == [] then
      Some(o)
    else
      match RunInOrder(c, o, steps[..|steps| - 1])
      case None => None
      case Some(before) => StepInOrder(c, before, steps[|steps| - 1])
  }

  function Begin(): Ordered {
    Ordered(Initial(), [])
  }

  /** What the sender offers when it is asked: the unconfirmed segments of its front message. */
  function Unconfirmed(s: Sender): set<MessagePayload> {
    var offers := Payloads(s).1;
    if offers.Some? then set p | p in offers.value.1 else {}
  }

  // ----- confirming more -----

  /** The second of two claims about a message with `count` bodies claims no less than the first. */
  ghost predicate AtMost(count: nat, head: bool, bodies: set<u16>, head': bool, bodies': set<u16>) {
    (head ==> head') && forall i | i in bodies && i < count :: i in bodies'
  }

  /** A tracker after a report. */
  function Claimed(t: Tracker, head: bool, bodies: set<u16>): Tracker {
    t.(headConfirmed := head, bodiesConfirmed := bodies)
  }

  lemma {:induction false} MoreConfirmedFewerBodies(t: Tracker, head: bool, bodies: set<u16>, n: nat)
    requires n <= t.bodyCount && AtMost(t.bodyCount, t.headConfirmed, t.bodiesConfirmed, head, bodies)
    ensures var before, after := UnconfirmedBodies(t, n), UnconfirmedBodies(Claimed(t, head, bodies), n);
            && |after| <= |before|
            && (|after| == |before| ==> after == before)
  {
    if n > 0 {
      MoreConfirmedFewerBodies(t, head, bodies, n - 1);
    }
  }

  /** A report that claims no less makes the offers fewer, or leaves them exactly as they were. */
  lemma MoreConfirmedFewerOffers(t: Tracker, head: bool, bodies: set<u16>)
    requires AtMost(t.bodyCount, t.headConfirmed, t.bodiesConfirmed, head, bodies)
    ensures var before, after := Offers(t), Offers(Claimed(t, head, bodies));
            && (forall p | p in after :: p in before)
            && |after| <= |before|
            && (|after| == |before| ==> after == before)
  {
    MoreConfirmedFewerBodies(t, head, bodies, t.bodyCount);
    OffersExactly(t);
    OffersExactly(Claimed(t, head, bodies));
  }

  // ----- the invariant -----

  /** Later reports about a message claim no less than earlier ones, and no less than is confirmed already. */
  ghost predicate Ascending(c: Codec, queued: seq<Message>, inTransit: seq<Progress>) {
    forall i, j | 0 <= i < j < |inTransit| && inTransit[i].number == inTransit[j].number < |queued| ::
      AtMost(BodyCount(Encode(c, queued[inTransit[i].number]).payload),
             inTransit[i].head, inTransit[i].bodies, inTransit[j].head, inTransit[j].bodies)
  }

  ghost predicate Ahead(queue: seq<Tracker>, retired: nat, inTransit: seq<Progress>) {
    forall k, i | 0 <= k < |queue| && 0 <= i < |inTransit| && inTransit[i].number == retired + k ::
      AtMost(queue[k].bodyCount, queue[k].headConfirmed, queue[k].bodiesConfirmed,
             inTransit[i].head, inTransit[i].bodies)
  }

  ghost predicate OrderedInv(c: Codec, o: Ordered, queue: seq<Tracker>) {
    && Inv(c, o.system, queue)
    && (forall report | report in o.inTransit :: report in o.system.reports)
    && Ascending(c, o.system.queued, o.inTransit)
    && Ahead(queue, o.system.retired, o.inTransit)
  }

  /** What a slot shows of its message is what is on record as received. */
  predicate Shows(slot: Slot, got: Received) {
    if slot.None? then got == NOTHING
    else
      && slot.value.headArrived == got.head
      && |slot.value.committedBodies| == MAX_BODIES_PER_MESSAGE
      && forall i: u16 | i < MAX_BODIES_PER_MESSAGE :: slot.value.committedBodies[i] <==> i in got.bodies
  }

  lemma CanonicalShows(m: Encoded, got: Received)
    requires Sendable(m)
    ensures Shows(Canonical(m, got), got)
  {
  }

  /** Of every message the receiver shows all that is on record. */
  lemma ReceiverShowsRecord(c: Codec, s: System, queue: seq<Tracker>, number: nat)
    requires Inv(c, s, queue) && number < |s.queued|
    ensures |s.receiver.got| == |s.queued| && Valid(s.receiver.window)
    ensures var m := Encode(c, s.queued[number]);
            var got := s.receiver.got[number];
            var k := number - |s.receiver.delivered|;
            && BodyCount(m.payload) <= MAX_BODIES_PER_MESSAGE
            && Plausible(m, got)
            && (k < 0 ==> Complete(m, got))
            && (0 <= k < MARGIN_OF_OUT_OF_ORDER_ALLOWED ==> Shows(s.receiver.window.slots[k], got))
            && (k >= MARGIN_OF_OUT_OF_ORDER_ALLOWED ==> got == NOTHING)
  {
    hide SenderInv, SegmentsInv, NothingAhead, ReportsInv, Queues;
    hide Canonical, Lossless, Encode, Complete, Plausible, Shows;
    BodyCountIsCeiling(Encode(c, s.queued[number]).payload);
    var k := number - |s.receiver.delivered|;
    if 0 <= k < MARGIN_OF_OUT_OF_ORDER_ALLOWED {
      assert s.receiver.window.slots[k]
          == ExpectedSlot(c, s.queued, s.receiver.got, |s.receiver.delivered| + k);
      CanonicalShows(Encode(c, s.queued[number]), s.receiver.got[number]);
    }
  }

  /** An exact report claims what is on record as received. */
  lemma ExactReportIsRecord(c: Codec, s: System, queue: seq<Tracker>, number: nat, head: bool, bodies: set<u16>)
    requires Inv(c, s, queue) && IsExact(c, s, number, head, bodies)
    ensures |s.receiver.got| == |s.queued|
    ensures var m := Encode(c, s.queued[number]);
            && AtMost(BodyCount(m.payload), s.receiver.got[number].head, s.receiver.got[number].bodies, head, bodies)
  {
    hide Inv, BodyCount, Encode;
    ReceiverShowsRecord(c, s, queue, number);
  }

  lemma RecordIsExact(c: Codec, s: System, queue: seq<Tracker>, number: nat)
    requires Inv(c, s, queue) && number < |s.queued|
    ensures |s.receiver.got| == |s.queued|
    ensures IsExact(c, s, number, s.receiver.got[number].head, s.receiver.got[number].bodies)
  {
    hide Inv, BodyCount, Encode;
    ReceiverShowsRecord(c, s, queue, number);
  }

  /** What is on record as received can be reported at any time. */
  lemma RecordCanBeReported(c: Codec, s: System, queue: seq<Tracker>, number: nat)
    requires Inv(c, s, queue) && number < |s.queued|
    ensures |s.receiver.got| == |s.queued|
    ensures var got := s.receiver.got[number];
            IsExact(c, s, number, got.head, got.bodies)
            && Enabled(c, s, EmitReport(number, got.head, got.bodies))
  {
    hide Inv, BodyCount, Encode, IsExact;
    RecordIsExact(c, s, queue, number);
    ReceiverShowsRecord(c, s, queue, number);
  }

  // ----- the steps keep the invariant -----

  lemma QueueKeepsOrder(c: Codec, o: Ordered, queue: seq<Tracker>, message: Message)
    requires OrderedInv(c, o, queue) && Enabled(c, o.system, QueueMessage(message))
    ensures Countable(Encode(c, message))
    ensures OrderedInv(c, Ordered(Perform(c, o.system, QueueMessage(message)), o.inTransit),
                       queue + [NewTracker(Encode(c, message))])
  {
    QueueKeepsInv(c, o.system, queue, message);
    forall report | report in o.inTransit ensures report.number < |o.system.queued| {
      assert SoundReport(c, o.system.queued, o.system.receiver.got, report);
    }
  }

  lemma ResendKeepsOrder(c: Codec, o: Ordered, queue: seq<Tracker>)
    requires OrderedInv(c, o, queue)
    ensures OrderedInv(c, Ordered(Perform(c, o.system, Resend), o.inTransit),
                       if queue != [] && Confirmed(queue[0]) then queue[1..] else queue)
  {
    ResendKeepsInv(c, o.system, queue);
    ResendServesFront(c, o.system, queue);
  }

  lemma ArrivalKeepsOrder(c: Codec, o: Ordered, queue: seq<Tracker>, item: InFlight)
    requires OrderedInv(c, o, queue) && Enabled(c, o.system, SegmentArrives(item))
    ensures OrderedInv(c, Ordered(Perform(c, o.system, SegmentArrives(item)), o.inTransit), queue)
  {
    ArrivalKeepsInv(c, o.system, queue, item);
  }

  /** An exact report claims no less than any report before it, and no less than is confirmed. */
  lemma ExactReportIsAhead(c: Codec, o: Ordered, queue: seq<Tracker>, report: Progress)
    requires OrderedInv(c, o, queue) && IsExact(c, o.system, report.number, report.head, report.bodies)
    ensures Ascending(c, o.system.queued, o.inTransit + [report])
    ensures Ahead(queue, o.system.retired, o.inTransit + [report])
  {
    hide StreamOk, Drained, ExpectedSlot, SegmentsInv, NothingAhead, Queues, IsExact;
    ExactReportIsRecord(c, o.system, queue, report.number, report.head, report.bodies);
    var longer := o.inTransit + [report];
    forall i, j | 0 <= i < j < |longer| && longer[i].number == longer[j].number < |o.system.queued|
      ensures AtMost(BodyCount(Encode(c, o.system.queued[longer[i].number]).payload),
                     longer[i].head, longer[i].bodies, longer[j].head, longer[j].bodies)
    {
      assert longer[i] in o.inTransit;
      assert SoundReport(c, o.system.queued, o.system.receiver.got, longer[i]);
      if j < |o.inTransit| {
        assert longer[j] == o.inTransit[j];
      }
    }
  }

  lemma EmitKeepsOrder(c: Codec, o: Ordered, queue: seq<Tracker>, report: Progress)
    requires OrderedInv(c, o, queue) && report.id == IdOf(report.number)
    requires Enabled(c, o.system, EmitReport(report.number, report.head, report.bodies))
    requires IsExact(c, o.system, report.number, report.head, report.bodies)
    ensures OrderedInv(c, Ordered(Perform(c, o.system, EmitReport(report.number, report.head, report.bodies)),
                                  o.inTransit + [report]), queue)
  {
    TruthfulReportIsSound(c, o.system, queue, report.number, report.head, report.bodies);
    ExactReportIsAhead(c, o, queue, report);
  }

  lemma ConfirmKeepsAhead(c: Codec, o: Ordered, queue: seq<Tracker>, i: nat)
    requires OrderedInv(c, o, queue) && i < |o.inTransit|
    ensures Ahead(Confirm(queue, o.inTransit[i].number - o.system.retired, o.inTransit[i]), o.system.retired,
                  o.inTransit[i + 1..])
  {
    var k := o.inTransit[i].number - o.system.retired;
    if 0 <= k < |queue| {
      assert Tracks(c, o.system.queued, o.system.receiver.got, queue[k], o.system.retired + k);
    }
  }

  lemma ReportKeepsOrder(c: Codec, o: Ordered, queue: seq<Tracker>, i: nat)
    requires OrderedInv(c, o, queue) && i < |o.inTransit| && Enabled(c, o.system, ReportArrives(o.inTransit[i]))
    ensures var report := o.inTransit[i];
            OrderedInv(c, Ordered(Perform(c, o.system, ReportArrives(report)), o.inTransit[i + 1..]),
                       Confirm(queue, report.number - o.system.retired, report))
  {
    hide Inv, Ahead, Report, AtMost, Encode, Confirm;
    ReportKeepsInv(c, o.system, queue, o.inTransit[i]);
    ConfirmKeepsAhead(c, o, queue, i);
  }

  function QueueAfter(c: Codec, s: System, queue: seq<Tracker>, step: Step): seq<Tracker>
    requires Enabled(c, s, step)
  {
    match step
    case QueueMessage(message) =>
      BodyCountIsCeiling(Encode(c, message).payload);
      queue + [NewTracker(Encode(c, message))]
    case Resend => if queue != [] && Confirmed(queue[0]) then queue[1..] else queue
    case ReportArrives(report) => Confirm(queue, report.number - s.retired, report)
    case _ => queue
  }

  lemma StepKeepsOrder(c: Codec, o: Ordered, queue: seq<Tracker>, step: Step)
    requires OrderedInv(c, o, queue) && StepInOrder(c, o, step).Some?
    ensures OrderedInv(c, StepInOrder(c, o, step).value, QueueAfter(c, o.system, queue, step))
  {
    hide OrderedInv, Perform, Possible, Timely, IsExact;
    match step
    case QueueMessage(message) => QueueKeepsOrder(c, o, queue, message);
    case Resend => ResendKeepsOrder(c, o, queue);
    case SegmentArrives(item) => ArrivalKeepsOrder(c, o, queue, item);
    case EmitReport(number, head, bodies) =>
      EmitKeepsOrder(c, o, queue, Progress(IdOf(number), head, bodies, number));
    case ReportArrives(report) => ReportKeepsOrder(c, o, queue, FirstIndex(o.inTransit, report));
  }

  lemma {:induction false} RunKeepsOrder(c: Codec, o: Ordered, queue: seq<Tracker>, steps: seq<Step>)
    returns (queue': seq<Tracker>)
    requires OrderedInv(c, o, queue) && RunInOrder(c, o, steps).Some?
    ensures OrderedInv(c, RunInOrder(c, o, steps).value, queue')
  {
    queue' := queue;
    if steps != [] {
      var before := steps[..|steps| - 1];
      hide OrderedInv, StepInOrder;
      queue' := RunKeepsOrder(c, o, queue, before);
      var middle := RunInOrder(c, o, before).value;
      StepKeepsOrder(c, middle, queue', steps[|steps| - 1]);
      queue' := QueueAfter(c, middle.system, queue', steps[|steps| - 1]);
    }
  }

  // ----- what is offered only shrinks -----

  lemma UnconfirmedIsOfFront(s: Sender, queue: seq<Tracker>)
    requires Queues(s, queue)
    ensures Unconfirmed(s) == if queue == [] then {} else set p | p in Offers(queue[0])
  {
    PayloadsServesFront(s, queue);
    if queue != [] {
      NothingOfferedExactlyWhenConfirmed(queue[0]);
    }
  }

  /** What a report does to the tracker of its message makes that message's offers fewer, or changes nothing. */
  lemma ReportShrinksOffers(c: Codec, o: Ordered, queue: seq<Tracker>, i: nat)
    requires OrderedInv(c, o, queue) && i < |o.inTransit|
    ensures var k := o.inTransit[i].number - o.system.retired;
            0 <= k < |queue| ==>
              var before, after := Offers(queue[k]), Offers(Confirm(queue, k, o.inTransit[i])[k]);
              && (forall p | p in after :: p in before)
              && |after| <= |before|
              && (|after| == |before| ==> after == before)
  {
    var k := o.inTransit[i].number - o.system.retired;
    if 0 <= k < |queue| {
      MoreConfirmedFewerOffers(queue[k], o.inTransit[i].head, o.inTransit[i].bodies);
    }
  }

  lemma FrontOffersNeverGrow(c: Codec, o: Ordered, queue: seq<Tracker>, step: Step)
    requires OrderedInv(c, o, queue) && StepInOrder(c, o, step).Some?
    requires queue != [] && (step.Resend? ==> !Confirmed(queue[0]))
    ensures var after := QueueAfter(c, o.system, queue, step);
            after != [] && forall p | p in Offers(after[0]) :: p in Offers(queue[0])
  {
    hide OrderedInv, Perform, Offers, Confirmed, Possible, Timely, IsExact;
    if step.ReportArrives? {
      ReportShrinksOffers(c, o, queue, FirstIndex(o.inTransit, step.report));
    }
  }

  lemma UnconfirmedAfter(c: Codec, o: Ordered, queue: seq<Tracker>, step: Step)
    requires OrderedInv(c, o, queue) && StepInOrder(c, o, step).Some?
    ensures var after := QueueAfter(c, o.system, queue, step);
            && Unconfirmed(o.system.sender) == (if queue == [] then {} else set p | p in Offers(queue[0]))
            && Unconfirmed(StepInOrder(c, o, step).value.system.sender)
               == (if after == [] then {} else set p | p in Offers(after[0]))
  {
    StepKeepsOrder(c, o, queue, step);
    hide StepInOrder, QueueAfter;
    UnconfirmedIsOfFront(o.system.sender, queue);
    UnconfirmedIsOfFront(StepInOrder(c, o, step).value.system.sender, QueueAfter(c, o.system, queue, step));
  }

  /** While a message is at the front, what the sender offers of it never grows. */
  lemma StepNeverGrows(c: Codec, o: Ordered, queue: seq<Tracker>, step: Step)
    requires OrderedInv(c, o, queue) && StepInOrder(c, o, step).Some?
    requires queue != [] && (step.Resend? ==> !Confirmed(queue[0]))
    ensures Unconfirmed(StepInOrder(c, o, step).value.system.sender) <= Unconfirmed(o.system.sender)
  {
    hide OrderedInv, StepInOrder, QueueAfter, Offers, Unconfirmed;
    FrontOffersNeverGrow(c, o, queue, step);
    UnconfirmedAfter(c, o, queue, step);
  }

  lemma StepKeepsFrontOrRetires(c: Codec, o: Ordered, queue: seq<Tracker>, step: Step)
    requires OrderedInv(c, o, queue) && StepInOrder(c, o, step).Some?
    ensures var after := StepInOrder(c, o, step).value.system;
            && o.system.queued <= after.queued
            && after.retired
               == if step.Resend? && queue != [] && Confirmed(queue[0]) then o.system.retired + 1 else o.system.retired
  {
    hide Inv, Ascending, Ahead, Confirmed, Payloads, Report, Enqueue, Deliver, Accept, IsExact;
    if step.Resend? {
      ResendServesFront(c, o.system, queue);
    }
  }

  lemma {:induction false} OffersNeverGrow(c: Codec, o: Ordered, queue: seq<Tracker>, steps: seq<Step>)
    requires OrderedInv(c, o, queue) && RunInOrder(c, o, steps).Some?
    ensures var after := RunInOrder(c, o, steps).value.system;
            && o.system.retired <= after.retired && |o.system.queued| <= |after.queued|
            && (after.retired == o.system.retired < |o.system.queued| ==>
                  Unconfirmed(after.sender) <= Unconfirmed(o.system.sender))
  {
    if steps != [] {
      var before := steps[..|steps| - 1];
      OffersNeverGrow(c, o, queue, before);
      var queue' := RunKeepsOrder(c, o, queue, before);
      var middle := RunInOrder(c, o, before).value;
      var step := steps[|steps| - 1];
      StepKeepsFrontOrRetires(c, middle, queue', step);
      if RunInOrder(c, o, steps).value.system.retired == o.system.retired < |o.system.queued| {
        StepNeverGrows(c, middle, queue', step);
      }
    }
  }

  /**
   * In every run with exact reports that do not overtake each other, the set of segments that the sender
   * offers of its front message never grows until that message is retired.
   */
  lemma UnconfirmedNeverGrows(c: Codec, steps: seq<Step>, more: seq<Step>)
    requires Lossless(c) && RunInOrder(c, Begin(), steps).Some?
    requires RunInOrder(c, RunInOrder(c, Begin(), steps).value, more).Some?
    ensures var before := RunInOrder(c, Begin(), steps).value;
            var after := RunInOrder(c, before, more).value;
            after.system.retired == before.system.retired < |before.system.queued| ==>
              Unconfirmed(after.system.sender) <= Unconfirmed(before.system.sender)
  {
    InitialInv(c);
    var queue := RunKeepsOrder(c, Begin(), [], steps);
    OffersNeverGrow(c, RunInOrder(c, Begin(), steps).value, queue, more);
  }

  // ----- a round that gets something through -----

  lemma LastInOrder(c: Codec, o: Ordered, steps: seq<Step>, step: Step)
    requires Valid(o.system.receiver.window) && RunInOrder(c, o, steps).Some?
    ensures RunInOrder(c, o, steps + [step]) == StepInOrder(c, RunInOrder(c, o, steps).value, step)
  {
    hide StepInOrder;
    assert (steps + [step])[..|steps|] == steps;
  }

  /** Steps that have nothing to do with reports. */
  predicate WithoutReports(steps: seq<Step>) {
    forall step | step in steps :: !step.EmitReport? && !step.ReportArrives?
  }

  lemma {:induction false} RunWithoutReports(c: Codec, o: Ordered, steps: seq<Step>)
    requires Valid(o.system.receiver.window) && WithoutReports(steps) && Run(c, o.system, steps).Some?
    ensures RunInOrder(c, o, steps) == Some(Ordered(Run(c, o.system, steps).value, o.inTransit))
  {
    if steps != [] {
      hide Perform, Possible, Timely;
      RunWithoutReports(c, o, steps[..|steps| - 1]);
    }
  }

  /** One look of the sender, of which the segments in `order` get through. */
  lemma RoundArrives(c: Codec, s: System, queue: seq<Tracker>, order: seq<MessagePayload>)
    requires Inv(c, s, queue) && queue != [] && !Confirmed(queue[0])
    requires forall p | p in order :: p in Offers(queue[0])
    ensures var r := Run(c, s, Round(s, order));
            && r.Some? && Inv(c, r.value, queue)
            && r.value.sender == s.sender && r.value.retired == s.retired && r.value.queued == s.queued
            && Grows(s.receiver.got, r.value.receiver.got)
            && forall p | p in order :: !NotArrived(r.value.receiver.got[s.retired], p)
  {
    hide Inv, Perform, Run, Offers, Confirmed, NotArrived, Queues;
    OffersGoOut(c, s, queue);
    ResendServesFront(c, s, queue);
    InvIsValid(c, s, queue);
    var s1 := Perform(c, s, Resend);
    RunOne(c, s, Resend);
    RunAppend(c, s, [Resend], Arrivals(s, order));
    assert Arrivals(s1, order) == Arrivals(s, order);
    FrontArrivals(c, s1, queue, order);
  }

  /** The report of exactly what is on record of the front message. */
  function FrontReport(s: System): Progress
    requires s.retired < |s.receiver.got|
  {
    var got := s.receiver.got[s.retired];
    Progress(IdOf(s.retired), got.head, got.bodies, s.retired)
  }

  function Reporting(s: System): seq<Step>
    requires s.retired < |s.receiver.got|
  {
    var report := FrontReport(s);
    [EmitReport(report.number, report.head, report.bodies), ReportArrives(report)]
  }

  lemma EmitInOrder(c: Codec, o: Ordered, queue: seq<Tracker>)
    requires OrderedInv(c, o, queue) && queue != []
    ensures var step := Reporting(o.system)[0];
            var report := FrontReport(o.system);
            && Enabled(c, o.system, step)
            && StepInOrder(c, o, step)
               == Some(Ordered(Perform(c, o.system, step), o.inTransit + [report]))
            && Perform(c, o.system, step) == o.system.(reports := o.system.reports + {report})
  {
    RecordCanBeReported(c, o.system, queue, o.system.retired);
  }

  lemma {:induction false} FirstIndexOfLast(inTransit: seq<Progress>, report: Progress)
    ensures FirstIndex(inTransit + [report], report) <= |inTransit|
  {
    if inTransit != [] {
      FirstIndexOfLast(inTransit[1..], report);
      assert (inTransit + [report])[1..] == inTransit[1..] + [report];
    }
  }

  lemma OrderedIsValid(c: Codec, o: Ordered, queue: seq<Tracker>)
    requires OrderedInv(c, o, queue)
    ensures Valid(o.system.receiver.window)
    ensures |o.system.receiver.got| == |o.system.queued| == o.system.retired + |queue| && |queue| <= ID_SPACE
  {
  }

  /** A report about the front message that was emitted last arrives. */
  lemma LastReportArrives(c: Codec, o: Ordered, queue: seq<Tracker>, earlier: seq<Progress>, report: Progress)
    requires OrderedInv(c, o, queue) && queue != []
    requires o.inTransit == earlier + [report] && report.number == o.system.retired
    ensures var step := ReportArrives(report);
            var r := StepInOrder(c, o, step);
            && Enabled(c, o.system, step)
            && r.Some? && r.value.system == o.system.(sender := r.value.system.sender)
            && OrderedInv(c, r.value, QueueAfter(c, o.system, queue, step))
            && QueueAfter(c, o.system, queue, step) != []
            && QueueAfter(c, o.system, queue, step)[0] == Claimed(queue[0], report.head, report.bodies)
  {
    hide Inv, Ascending, Ahead, Report;
    OrderedIsValid(c, o, queue);
    FirstIndexOfLast(earlier, report);
    assert report in o.inTransit;
    StepKeepsOrder(c, o, queue, ReportArrives(report));
  }

  lemma EmitKeepsQueue(c: Codec, s: System, queue: seq<Tracker>, step: Step)
    requires Enabled(c, s, step) && step.EmitReport?
    ensures QueueAfter(c, s, queue, step) == queue
  {
  }

  lemma RunTwoInOrder(c: Codec, o: Ordered, one: Step, two: Step)
    requires Valid(o.system.receiver.window) && StepInOrder(c, o, one).Some?
    ensures RunInOrder(c, o, [one, two]) == StepInOrder(c, StepInOrder(c, o, one).value, two)
  {
    hide StepInOrder;
    LastInOrder(c, o, [], one);
    LastInOrder(c, o, [one], two);
    assert [] + [one] == [one] && [one] + [two] == [one, two];
  }

  /** Once that report has arrived, the sender offers of the front message exactly what is missing. */
  lemma ReportingFrontShows(c: Codec, o: Ordered, queue: seq<Tracker>) returns (queue': seq<Tracker>)
    requires OrderedInv(c, o, queue) && queue != []
    ensures var r := RunInOrder(c, o, Reporting(o.system));
            && r.Some? && OrderedInv(c, r.value, queue') && queue' != []
            && r.value.system.retired == o.system.retired && r.value.system.queued == o.system.queued
            && r.value.system.receiver == o.system.receiver
            && queue'[0] == Claimed(queue[0], FrontReport(o.system).head, FrontReport(o.system).bodies)
  {
    hide OrderedInv, StepInOrder, RunInOrder, Perform, Possible, Timely, QueueAfter;
    OrderedIsValid(c, o, queue);
    var steps := Reporting(o.system);
    EmitInOrder(c, o, queue);
    StepKeepsOrder(c, o, queue, steps[0]);
    var emitted := StepInOrder(c, o, steps[0]).value;
    EmitKeepsQueue(c, o.system, queue, steps[0]);
    LastReportArrives(c, emitted, queue, o.inTransit, FrontReport(o.system));
    RunTwoInOrder(c, o, steps[0], steps[1]);
    assert [steps[0], steps[1]] == steps;
    queue' := QueueAfter(c, emitted.system, queue, steps[1]);
  }

  lemma ClaimedRecordIsOutstanding(c: Codec, queued: seq<Message>, got: seq<Received>, t: Tracker, number: nat)
    requires number < |queued| == |got| && Tracks(c, queued, got, t, number)
    ensures var m := Encode(c, queued[number]);
            && Countable(m)
            && (set p | p in Offers(Claimed(t, got[number].head, got[number].bodies))) == Outstanding(m, got[number])
            && Outstanding(m, got[number]) <= set p | p in Offers(t)
  {
    var m := Encode(c, queued[number]);
    assert Claimed(t, got[number].head, got[number].bodies) == TrackerAfter(m, got[number]);
    OffersExactly(t);
    OffersExactly(TrackerAfter(m, got[number]));
  }

  lemma RoundKeepsOrder(c: Codec, o: Ordered, queue: seq<Tracker>, order: seq<MessagePayload>)
    requires OrderedInv(c, o, queue) && queue != [] && !Confirmed(queue[0])
    requires forall p | p in order :: p in Offers(queue[0])
    ensures var r := RunInOrder(c, o, Round(o.system, order));
            && r.Some? && OrderedInv(c, r.value, queue)
            && r.value.system.sender == o.system.sender
            && r.value.system.retired == o.system.retired && r.value.system.queued == o.system.queued
            && forall p | p in order :: !NotArrived(r.value.system.receiver.got[o.system.retired], p)
  {
    RoundArrives(c, o.system, queue, order);
    RoundHasNoReports(o.system, order);
    RunWithoutReports(c, o, Round(o.system, order));
    RoundKeepsReports(c, o.system, queue, order);
  }

  lemma RoundHasNoReports(s: System, order: seq<MessagePayload>)
    ensures WithoutReports(Round(s, order))
  {
  }

  lemma RoundKeepsReports(c: Codec, s: System, queue: seq<Tracker>, order: seq<MessagePayload>)
    requires Inv(c, s, queue) && Run(c, s, Round(s, order)).Some?
    ensures Run(c, s, Round(s, order)).value.reports == s.reports
  {
    RoundHasNoReports(s, order);
    RunKeepsReports(c, s, Round(s, order));
  }

  lemma {:induction false} RunKeepsReports(c: Codec, s: System, steps: seq<Step>)
    requires Valid(s.receiver.window) && WithoutReports(steps) && Run(c, s, steps).Some?
    ensures Run(c, s, steps).value.reports == s.reports
  {
    if steps != [] {
      RunKeepsReports(c, s, steps[..|steps| - 1]);
    }
  }

  /**
   * One look of the sender of which the segments in `order` get through, followed by an exact report that
   * gets through, takes at least those away from what is offered: what is offered then is what has not
   * arrived yet.
   */
  lemma RoundTakesAway(c: Codec, o: Ordered, queue: seq<Tracker>, order: seq<MessagePayload>)
    requires OrderedInv(c, o, queue) && queue != [] && !Confirmed(queue[0])
    requires forall p | p in order :: p in Offers(queue[0])
    ensures var middle := RunInOrder(c, o, Round(o.system, order));
            && middle.Some? && o.system.retired < |middle.value.system.receiver.got|
            && middle.value.system.retired == o.system.retired
            && var r := RunInOrder(c, middle.value, Reporting(middle.value.system));
            && r.Some?
            && r.value.system.retired == o.system.retired < |r.value.system.queued|
            && r.value.system.queued == o.system.queued
            && r.value.system.receiver == middle.value.system.receiver
            && Unconfirmed(r.value.system.sender) <= Unconfirmed(o.system.sender) - (set p | p in order)
            && var m := Encode(c, o.system.queued[o.system.retired]);
            && Countable(m)
            && Unconfirmed(r.value.system.sender) == Outstanding(m, r.value.system.receiver.got[o.system.retired])
  {
    RoundKeepsOrder(c, o, queue, order);
    var middle := RunInOrder(c, o, Round(o.system, order)).value;
    var queue' := ReportingFrontShows(c, middle, queue);
    var after := RunInOrder(c, middle, Reporting(middle.system)).value;
    UnconfirmedIsOfFront(o.system.sender, queue);
    UnconfirmedIsOfFront(after.system.sender, queue');
    var got := middle.system.receiver.got;
    assert Tracks(c, o.system.queued, got, queue[0], o.system.retired + 0);
    ClaimedRecordIsOutstanding(c, o.system.queued, got, queue[0], o.system.retired);
    OutstandingIsWhatIsMissing(Encode(c, o.system.queued[o.system.retired]), got[o.system.retired]);
  }

  /** In every state of a run in order, a round in which something new gets through makes the set smaller. */
  lemma RoundShrinksUnconfirmed(c: Codec, steps: seq<Step>, order: seq<MessagePayload>)
    requires Lossless(c) && RunInOrder(c, Begin(), steps).Some?
    requires var s := RunInOrder(c, Begin(), steps).value.system;
             order != [] && forall p | p in order :: p in Unconfirmed(s.sender)
    ensures var before := RunInOrder(c, Begin(), steps).value;
            var middle := RunInOrder(c, before, Round(before.system, order));
            && middle.Some? && middle.value.system.retired < |middle.value.system.receiver.got|
            && var after := RunInOrder(c, middle.value, Reporting(middle.value.system));
            && after.Some? && after.value.system.retired == before.system.retired
            && Unconfirmed(after.value.system.sender) < Unconfirmed(before.system.sender)
            && forall p | p in order :: p !in Unconfirmed(after.value.system.sender)
  {
    InitialInv(c);
    var queue := RunKeepsOrder(c, Begin(), [], steps);
    var before := RunInOrder(c, Begin(), steps).value;
    UnconfirmedIsOfFront(before.system.sender, queue);
    assert order[0] in order && order[0] in Unconfirmed(before.system.sender);
    NothingOfferedExactlyWhenConfirmed(queue[0]);
    RoundTakesAway(c, before, queue, order);
  }

  // ----- what is left to do -----

  /** One for each message that is still to be retired, and one for each unconfirmed segment of it. */
  function Work(queue: seq<Tracker>): nat {
    if queue == [] then 0
    else Work(queue[..|queue| - 1]) + 1 + |Offers(queue[|queue| - 1])|
  }

  lemma {:induction false} WorkOfFront(queue: seq<Tracker>)
    requires queue != []
    ensures Work(queue) == 1 + |Offers(queue[0])| + Work(queue[1..])
  {
    if |queue| > 1 {
      WorkOfFront(queue[..|queue| - 1]);
      assert queue[1..][..|queue| - 2] == queue[..|queue| - 1][1..];
    }
  }

  lemma {:induction false} WorkOfUpdate(queue: seq<Tracker>, k: nat, t: Tracker)
    requires k < |queue|
    ensures Work(queue[k := t]) + |Offers(queue[k])| == Work(queue) + |Offers(t)|
  {
    var n := |queue| - 1;
    if k < n {
      WorkOfUpdate(queue[..n], k, t);
      assert queue[k := t][..n] == queue[..n][k := t];
    } else {
      assert queue[k := t][..n] == queue[..n];
    }
  }

  lemma {:induction false} WorkOfNew(queue: seq<Tracker>, m: Encoded)
    requires Countable(m)
    ensures Work(queue + [NewTracker(m)]) == Work(queue) + 2 + BodyCount(m.payload)
  {
    FreshOffersAreTheMessage(m);
    assert (queue + [NewTracker(m)])[..|queue|] == queue;
  }

  /** A step that retires the front message, or changes what is offered of it. */
  predicate Advances(before: System, step: Step, after: System) {
    !step.QueueMessage?
    && (after.retired != before.retired || Unconfirmed(after.sender) != Unconfirmed(before.sender))
  }

  function NewWork(c: Codec, step: Step): nat {
    if step.QueueMessage? then 2 + BodyCount(Encode(c, step.message).payload) else 0
  }

  lemma ReportDoesWork(c: Codec, o: Ordered, queue: seq<Tracker>, i: nat)
    requires OrderedInv(c, o, queue) && i < |o.inTransit|
    ensures var after := Confirm(queue, o.inTransit[i].number - o.system.retired, o.inTransit[i]);
            && |after| == |queue|
            && Work(after) <= Work(queue)
            && (Work(after) == Work(queue) && queue != [] ==> Offers(after[0]) == Offers(queue[0]))
  {
    hide OrderedInv, Offers, Work;
    var k := o.inTransit[i].number - o.system.retired;
    if 0 <= k < |queue| {
      ReportShrinksOffers(c, o, queue, i);
      WorkOfUpdate(queue, k, Confirm(queue, k, o.inTransit[i])[k]);
    }
  }

  predicate SameFront(queue: seq<Tracker>, after: seq<Tracker>) {
    if queue == [] then after == [] else after != [] && Offers(after[0]) == Offers(queue[0])
  }

  /** What a step does to the queue costs work, brings new work, or leaves the front as it was. */
  lemma QueueAfterHasLessWork(c: Codec, o: Ordered, queue: seq<Tracker>, step: Step)
    requires OrderedInv(c, o, queue) && StepInOrder(c, o, step).Some?
    ensures var after := QueueAfter(c, o.system, queue, step);
            && Work(after) <= Work(queue) + NewWork(c, step)
            && (!step.QueueMessage? && Work(after) == Work(queue) ==>
                  SameFront(queue, after) && !(step.Resend? && queue != [] && Confirmed(queue[0])))
  {
    hide OrderedInv, Perform, Unconfirmed, Offers, Work;
    match step
    case QueueMessage(message) =>
      BodyCountIsCeiling(Encode(c, message).payload);
      WorkOfNew(queue, Encode(c, message));
    case Resend =>
      if queue != [] && Confirmed(queue[0]) {
        WorkOfFront(queue);
      }
    case ReportArrives(report) =>
      ReportDoesWork(c, o, queue, FirstIndex(o.inTransit, report));
    case _ =>
  }

  /** Every step that advances leaves less to do, and only a new message leaves more. */
  lemma StepDoesWork(c: Codec, o: Ordered, queue: seq<Tracker>, step: Step)
    requires OrderedInv(c, o, queue) && StepInOrder(c, o, step).Some?
    ensures Work(QueueAfter(c, o.system, queue, step))
         <= Work(queue) + NewWork(c, step)
            - if Advances(o.system, step, StepInOrder(c, o, step).value.system) then 1 else 0
  {
    hide OrderedInv, StepInOrder, QueueAfter, Unconfirmed, Offers, Work;
    StepKeepsFrontOrRetires(c, o, queue, step);
    UnconfirmedAfter(c, o, queue, step);
    QueueAfterHasLessWork(c, o, queue, step);
  }

  /** How many steps of a run advance. */
  function Advancing(c: Codec, o: Ordered, steps: seq<Step>): nat
    requires Valid(o.system.receiver.window) && RunInOrder(c, o, steps).Some?
  {
    if steps == [] then 0
    else
      var before := RunInOrder(c, o, steps[..|steps| - 1]).value;
      var step := steps[|steps| - 1];
      Advancing(c, o, steps[..|steps| - 1])
      + if Advances(before.system, step, RunInOrder(c, o, steps).value.system) then 1 else 0
  }

  function AllNewWork(c: Codec, steps: seq<Step>): nat {
    if steps == [] then 0 else AllNewWork(c, steps[..|steps| - 1]) + NewWork(c, steps[|steps| - 1])
  }

  lemma {:induction false} RunDoesWork(c: Codec, o: Ordered, queue: seq<Tracker>, steps: seq<Step>)
    returns (queue': seq<Tracker>)
    requires OrderedInv(c, o, queue) && RunInOrder(c, o, steps).Some?
    ensures OrderedInv(c, RunInOrder(c, o, steps).value, queue')
    ensures Advancing(c, o, steps) + Work(queue') <= Work(queue) + AllNewWork(c, steps)
  {
    queue' := queue;
    if steps != [] {
      hide OrderedInv, StepInOrder, Advances, Work, NewWork;
      queue' := RunDoesWork(c, o, queue, steps[..|steps| - 1]);
      var middle := RunInOrder(c, o, steps[..|steps| - 1]).value;
      StepDoesWork(c, middle, queue', steps[|steps| - 1]);
      StepKeepsOrder(c, middle, queue', steps[|steps| - 1]);
      queue' := QueueAfter(c, middle.system, queue', steps[|steps| - 1]);
    }
  }

  /**
   * `Work` of the sender's queue is a measure: in every run with exact reports in order it makes up for
   * every step that advances, it grows only by what new messages bring, and it is spent exactly when
   * all that was queued is retired.
   */
  lemma WorkIsMeasure(c: Codec, steps: seq<Step>) returns (queue: seq<Tracker>)
    requires Lossless(c) && RunInOrder(c, Begin(), steps).Some?
    ensures var s := RunInOrder(c, Begin(), steps).value.system;
            && Queues(s.sender, queue)
            && Advancing(c, Begin(), steps) + Work(queue) <= AllNewWork(c, steps)
            && (Work(queue) == 0 <==> s.retired == |s.queued|)
  {
    InitialInv(c);
    queue := RunDoesWork(c, Begin(), [], steps);
  }
}
