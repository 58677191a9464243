/**
 * Why nothing must come too late: a report that is delivered when one more message has been queued than
 * `EndToEnd.Timely` allows can retire a message that was never delivered, and the segments of a message
 * that was handed on a full turn of ids ago are handed on as a message that was never queued.
 */
module LateArrivals {
  import opened Packet
  import opened Fragments
  import opened Codecs
  import opened Windows
  import opened Delivery
  import opened SenderQueue
  import opened EndToEnd
  import opened Liveness

  lemma {:induction false} ReportsStay(c: Codec, s: System, steps: seq<Step>)
    requires Valid(s.receiver.window) && Run(c, s, steps).Some?
    ensures s.reports <= Run(c, s, steps).value.reports
  {
    if steps != [] {
      ReportsStay(c, s, steps[..|steps| - 1]);
    }
  }

  /** All that was queued is retired and delivered, and all of it was the same message. */
  ghost predicate AllDone(c: Codec, s: System, message: Message, n: nat) {
    && Inv(c, s, [])
    && |s.queued| == n && s.retired == n && |s.receiver.delivered| == n
    && forall i | 0 <= i < n :: s.queued[i] == message
  }

  /** A message can be queued, delivered and retired. */
  lemma OneMore(c: Codec, s: System, message: Message, n: nat) returns (steps: seq<Step>)
    requires AllDone(c, s, message, n) && Sendable(Encode(c, message))
    ensures Run(c, s, steps).Some? && AllDone(c, Run(c, s, steps).value, message, n + 1)
  {
    QueueKeepsInv(c, s, [], message);
    var queued := Perform(c, s, QueueMessage(message));
    var more := QueueCanBeEmptied(c, queued, [] + [NewTracker(Encode(c, message))]);
    RunOne(c, s, QueueMessage(message));
    RunAppend(c, s, [QueueMessage(message)], more);
    steps := [QueueMessage(message)] + more;
    var queue := RunKeepsInv(c, queued, [] + [NewTracker(Encode(c, message))], more);
    assert queue == [];
  }

  lemma {:induction false} ManyMore(c: Codec, s: System, message: Message, n: nat, more: nat) returns (steps: seq<Step>)
    requires AllDone(c, s, message, n) && Sendable(Encode(c, message))
    ensures Run(c, s, steps).Some? && AllDone(c, Run(c, s, steps).value, message, n + more)
  {
    steps := [];
    if more > 0 {
      hide AllDone, Run, Sendable;
      var before := ManyMore(c, s, message, n, more - 1);
      var last := OneMore(c, Run(c, s, before).value, message, n + more - 1);
      RunAppend(c, s, before, last);
      steps := before + last;
    }
  }

  /** The report that all of the first message has been received. */
  ghost predicate ReportsFirst(m: Encoded, report: Progress) {
    report.number == 0 && report.id == 0 && report.head
    && forall i: u16 | i < BodyCount(m.payload) :: i in report.bodies
  }

  /** Once the first message is delivered, that can be reported, and the network keeps the report. */
  lemma FirstIsReported(c: Codec, s: System, message: Message) returns (report: Progress)
    requires AllDone(c, s, message, 1)
    ensures ReportsFirst(Encode(c, message), report)
    ensures var emit := EmitReport(0, report.head, report.bodies);
            && Enabled(c, s, emit)
            && AllDone(c, Perform(c, s, emit), message, 1)
            && report in Perform(c, s, emit).reports
  {
    assert Complete(Encode(c, s.queued[0]), s.receiver.got[0]);
    report := Progress(0, true, s.receiver.got[0].bodies, 0);
    TruthfulReportIsSound(c, s, [], 0, true, report.bodies);
  }

  /** A full turn of ids later a new message has the id of that report, and is retired by it. */
  lemma LateReportConfirms(c: Codec, s: System, message: Message, report: Progress)
    requires AllDone(c, s, message, ID_SPACE) && Sendable(Encode(c, message))
    requires report in s.reports && ReportsFirst(Encode(c, message), report)
    ensures Enabled(c, s, QueueMessage(message))
    ensures var queued := Perform(c, s, QueueMessage(message));
            && |queued.queued| == ID_SPACE + 1
            && Possible(c, queued, ReportArrives(report))
            && var late := Perform(c, queued, ReportArrives(report));
            && Perform(c, late, Resend).retired == ID_SPACE + 1
            && Perform(c, late, Resend).receiver.delivered == s.receiver.delivered
  {
    QueueKeepsInv(c, s, [], message);
    var queue := [NewTracker(Encode(c, message))];
    assert [] + queue == queue;
    var queued := Perform(c, s, QueueMessage(message));
    var late := Report(queued.sender, report.id, report.head, report.bodies);
    assert Position(queued.sender, 0) == 0;
    ReportUpdatesOne(queued.sender, queue, report.id, report.head, report.bodies);
    var confirmed := queue[0 := queue[0].(headConfirmed := report.head, bodiesConfirmed := report.bodies)];
    PayloadsServesFront(late, confirmed);
  }

  /**
   * There is a run after which one more than `ID_SPACE` messages have been queued since, and including, the
   * one that a report in the network is about; if the report gets through then, the next look of the
   * sender retires a message that has not been delivered.
   */
  lemma LateReportRetiresUndelivered(c: Codec, message: Message) returns (steps: seq<Step>, report: Progress)
    requires Lossless(c) && Sendable(Encode(c, message))
    ensures Run(c, Initial(), steps).Some?
    ensures var s := Run(c, Initial(), steps).value;
            && |s.queued| == report.number + ID_SPACE + 1
            && Possible(c, s, ReportArrives(report))
            && var after := Perform(c, Perform(c, s, ReportArrives(report)), Resend);
               after.retired > |after.receiver.delivered|
  {
    InitialInv(c);
    var one := OneMore(c, Initial(), message, 0);
    var s1 := Run(c, Initial(), one).value;
    report := FirstIsReported(c, s1, message);
    var emit := EmitReport(0, report.head, report.bodies);
    var s2 := Perform(c, s1, emit);
    var more := ManyMore(c, s2, message, 1, ID_SPACE - 1);
    var s3 := Run(c, s2, more).value;
    ReportsStay(c, s2, more);
    LateReportConfirms(c, s3, message, report);
    hide AllDone, Perform, Run;
    steps := one + [emit] + more + [QueueMessage(message)];
    RunLast(c, Initial(), one, emit);
    RunAppend(c, Initial(), one + [emit], more);
    RunLast(c, Initial(), one + [emit] + more, QueueMessage(message));
  }

  // ----- segments -----

  /** As `EndToEnd.Run`, but what is in the network may be delivered at any time. */
  function RunLate(c: Codec, s: System, steps: seq<Step>): (r: Option<System>)
    requires Valid(s.receiver.window)
    ensures r.Some? ==> Valid(r.value.receiver.window)
  {
    if steps == [] then
      Some(s)
    else
      var before := RunLate(c, s, steps[..|steps| - 1]);
      if before.Some? && Possible(c, before.value, steps[|steps| - 1])
      then Some(Perform(c, before.value, steps[|steps| - 1])) else None
  }

  lemma {:induction false} SegmentsStay(c: Codec, s: System, steps: seq<Step>)
    requires Valid(s.receiver.window) && Run(c, s, steps).Some?
    ensures s.segments <= Run(c, s, steps).value.segments
  {
    if steps != [] {
      SegmentsStay(c, s, steps[..|steps| - 1]);
    }
  }

  /** A segment of the first message, as it was sent. */
  function FirstItem(p: MessagePayload): InFlight {
    InFlight(MessageSegment(0, p), 0)
  }

  function FirstArrivals(order: seq<MessagePayload>): seq<Step> {
    seq(|order|, i requires 0 <= i < |order| => SegmentArrives(FirstItem(order[i])))
  }

  /**
   * The receiver cannot tell a late segment of the first message from one of a new message: it is as if
   * `rx` had received this much of a message that follows all those queued.
   */
  ghost predicate TakenForNew(c: Codec, s: System, message: Message, order: seq<MessagePayload>, t: System,
                              rx: Receiver)
  {
    && t == s.(receiver := t.receiver)
    && ReceiverInv(c, s.queued + [message], rx)
    && rx.window == t.receiver.window && rx.delivered == t.receiver.delivered
    && |s.queued| <= |rx.delivered|
    && forall p | p in order :: !NotArrived(rx.got[|s.queued|], p)
  }

  lemma OneIsTakenForNew(c: Codec, s: System, message: Message, order: seq<MessagePayload>, t: System, rx: Receiver,
                         p: MessagePayload) returns (rx': Receiver)
    requires TakenForNew(c, s, message, order, t, rx) && |s.queued| == ID_SPACE
    requires FirstItem(p) in s.segments && SegmentOf(Encode(c, message), p)
    ensures Possible(c, t, SegmentArrives(FirstItem(p)))
    ensures TakenForNew(c, s, message, order + [p], Perform(c, t, SegmentArrives(FirstItem(p))), rx')
  {
    DeliverIsFaithful(c, s.queued + [message], rx, MessageSegment(0, p), ID_SPACE);
    rx' := Deliver(c, rx, MessageSegment(0, p), ID_SPACE);
  }

  lemma NoneIsTakenForNew(c: Codec, s: System, message: Message)
    requires AllDone(c, s, message, ID_SPACE) && Sendable(Encode(c, message))
    ensures TakenForNew(c, s, message, [], s, s.receiver.(got := s.receiver.got + [NOTHING]))
  {
    QueueKeepsReceiver(c, s.queued, s.receiver, message);
  }

  lemma LastFirstArrival(order: seq<MessagePayload>)
    requires order != []
    ensures var before, p := order[..|order| - 1], order[|order| - 1];
            order == before + [p] && FirstArrivals(order) == FirstArrivals(before) + [SegmentArrives(FirstItem(p))]
  {
  }

  lemma RunLateLast(c: Codec, s: System, steps: seq<Step>, step: Step)
    requires Valid(s.receiver.window) && RunLate(c, s, steps).Some? && Possible(c, RunLate(c, s, steps).value, step)
    ensures RunLate(c, s, steps + [step]) == Some(Perform(c, RunLate(c, s, steps).value, step))
  {
    hide Perform, Possible;
    assert (steps + [step])[..|steps|] == steps;
  }

  lemma {:induction false} AllAreTakenForNew(c: Codec, s: System, message: Message, order: seq<MessagePayload>)
    returns (rx: Receiver)
    requires AllDone(c, s, message, ID_SPACE) && Sendable(Encode(c, message))
    requires forall p | p in order :: FirstItem(p) in s.segments && SegmentOf(Encode(c, message), p)
    ensures var r := RunLate(c, s, FirstArrivals(order));
            r.Some? && TakenForNew(c, s, message, order, r.value, rx)
  {
    assert Valid(s.receiver.window) && |s.queued| == ID_SPACE;
    hide TakenForNew, AllDone, Perform, Possible;
    if order == [] {
      NoneIsTakenForNew(c, s, message);
      rx := s.receiver.(got := s.receiver.got + [NOTHING]);
    } else {
      var before, p := order[..|order| - 1], order[|order| - 1];
      rx := AllAreTakenForNew(c, s, message, before);
      hide RunLate, FirstArrivals;
      LastFirstArrival(order);
      rx := OneIsTakenForNew(c, s, message, before, RunLate(c, s, FirstArrivals(before)).value, rx, p);
      RunLateLast(c, s, FirstArrivals(before), SegmentArrives(FirstItem(p)));
    }
  }

  /** Once all of it has arrived again, it is handed on again, and there are more messages than were queued. */
  lemma OldMessageIsHandedOnAgain(c: Codec, s: System, message: Message)
    requires AllDone(c, s, message, ID_SPACE) && Sendable(Encode(c, message)) && Countable(Encode(c, message))
    requires forall p | p in Offers(NewTracker(Encode(c, message))) :: FirstItem(p) in s.segments
    ensures var r := RunLate(c, s, FirstArrivals(Offers(NewTracker(Encode(c, message)))));
            r.Some? && r.value.queued == s.queued && r.value.receiver.delivered == s.queued + [message]
  {
    var t := NewTracker(Encode(c, message));
    OffersExactly(t);
    var rx := AllAreTakenForNew(c, s, message, Offers(t));
    OfferedAndConfirmedIsAll(Encode(c, message), t, rx.got[ID_SPACE]);
  }

  /** The first message is sent, then delivered and retired. */
  lemma FirstIsSent(c: Codec, message: Message) returns (steps: seq<Step>)
    requires Lossless(c) && Sendable(Encode(c, message))
    ensures Countable(Encode(c, message))
    ensures var r := Run(c, Initial(), steps);
            && r.Some? && AllDone(c, r.value, message, 1)
            && forall p | p in Offers(NewTracker(Encode(c, message))) :: FirstItem(p) in r.value.segments
  {
    InitialInv(c);
    QueueKeepsInv(c, Initial(), [], message);
    var queue := [NewTracker(Encode(c, message))];
    assert [] + queue == queue;
    var s1 := Perform(c, Initial(), QueueMessage(message));
    OffersGoOut(c, s1, queue);
    var s2 := Perform(c, s1, Resend);
    var more := QueueCanBeEmptied(c, s2, queue);
    SegmentsStay(c, s2, more);
    var queue' := RunKeepsInv(c, s2, queue, more);
    assert queue' == [];
    steps := [QueueMessage(message)] + [Resend] + more;
    RunOne(c, Initial(), QueueMessage(message));
    RunLast(c, Initial(), [QueueMessage(message)], Resend);
    RunAppend(c, Initial(), [QueueMessage(message)] + [Resend], more);
  }

  /**
   * There is a run in which 65536 messages have been queued and handed on, and after which the segments of
   * the first, still in the network, are handed on as one more message, which nobody has queued.
   */
  lemma LateSegmentsAreHandedOn(c: Codec, message: Message) returns (steps: seq<Step>, late: seq<Step>)
    requires Lossless(c) && Sendable(Encode(c, message))
    ensures Run(c, Initial(), steps).Some?
    ensures var s := Run(c, Initial(), steps).value;
            && |s.queued| == ID_SPACE && s.receiver.delivered == s.queued
            && (forall step | step in late :: step.SegmentArrives? && step.item in s.segments)
            && var r := RunLate(c, s, late);
            && r.Some? && r.value.queued == s.queued && r.value.receiver.delivered == s.queued + [message]
  {
    var first := FirstIsSent(c, message);
    var s1 := Run(c, Initial(), first).value;
    var more := ManyMore(c, s1, message, 1, ID_SPACE - 1);
    SegmentsStay(c, s1, more);
    RunAppend(c, Initial(), first, more);
    steps := first + more;
    var s := Run(c, Initial(), steps).value;
    late := FirstArrivals(Offers(NewTracker(Encode(c, message))));
    OldMessageIsHandedOnAgain(c, s, message);
  }
}
