/**
 * The channel with its sent-notices, for one destination: somebody who is told that a message was sent
 * can rely on the receiver having handed it on.
 */
module Receipts {
  import opened Packet
  import opened Fragments
  import opened Codecs
  import opened Windows
  import opened Delivery
  import opened SenderQueue
  import opened EndToEnd
  import Notices

  /** The channel, beside it the outbox of the writer's loop, and on record all who have waited. */
  datatype Watched = Watched(system: System, outbox: Notices.Outbox, waiting: set<nat>)

  /** A step, and whether somebody waits for the message that it queues. */
  datatype WatchedStep = WatchedStep(step: Step, notify: bool)

  /** What the writer's loop makes of a step. */
  function Handled(c: Codec, w: Watched, ws: WatchedStep): Notices.Outbox
    requires Enabled(c, w.system, ws.step)
  {
    match ws.step
    case QueueMessage(message) =>
      BodyCountIsCeiling(Encode(c, message).payload);
      Notices.Write(c, w.outbox, if ws.notify then Some(|w.system.queued|) else None, message)
    case ReportArrives(report) =>
      Notices.Update(w.outbox, report.id, report.head, report.bodies)
    case Resend =>
      Notices.Resend(w.outbox, true).0
    case _ =>
      w.outbox
  }

  function WatchedPerform(c: Codec, w: Watched, ws: WatchedStep): (r: Watched)
    requires Valid(w.system.receiver.window) && Enabled(c, w.system, ws.step)
    ensures Valid(r.system.receiver.window)
  {
    Watched(Perform(c, w.system, ws.step), Handled(c, w, ws),
            if ws.step.QueueMessage? && ws.notify then w.waiting + {|w.system.queued|} else w.waiting)
  }

  function WatchedRun(c: Codec, steps: seq<WatchedStep>): (r: Option<Watched>)
    ensures r.Some? ==> Valid(r.value.system.receiver.window)
  {
    if steps == [] then
      Some(Watched(Initial(), Notices.Beginning().outbox, {}))
    else
      match WatchedRun(c, steps[..|steps| - 1])
      case None => None
      case Some(before) =>
        var ws := steps[|steps| - 1];
        if Enabled(c, before.system, ws.step) then Some(WatchedPerform(c, before, ws)) else None
  }

  // ----- the invariant -----

  /** The loop's queue is the sender of the channel. */
  predicate InStep(w: Watched) {
    w.outbox.sender == w.system.sender
  }

  /** What the loop makes of a step is what the step does to the sender of the channel. */
  lemma HandlersKeepInStep(c: Codec, w: Watched, ws: WatchedStep)
    requires Valid(w.system.receiver.window) && Enabled(c, w.system, ws.step) && InStep(w)
    ensures InStep(WatchedPerform(c, w, ws))
  {
  }

  ghost predicate AllDelivered(fired: seq<Notices.Callback>, delivered: nat) {
    forall n | n in fired :: n < delivered
  }

  ghost predicate WatchedInv(c: Codec, w: Watched, queue: seq<Tracker>) {
    && Inv(c, w.system, queue)
    && Notices.NoticesOk(queue, w.system.retired, w.outbox.callbacks, w.outbox.fired, w.waiting)
    && AllDelivered(w.outbox.fired, |w.system.receiver.delivered|)
  }

  /**
   * What the loop sends when it serves the front message, with a channel, is what the channel's step puts in
   * flight; without one it sends nothing.
   */
  lemma SentIsInFlight(c: Codec, w: Watched)
    requires Valid(w.system.receiver.window) && InStep(w)
    ensures var sent := Notices.Resend(w.outbox, true).1;
            && (forall o | o in sent :: o.Send?)
            && Perform(c, w.system, Resend).segments
               == w.system.segments + set o | o in sent :: InFlight(o.segment, w.system.retired)
    ensures forall o | o in Notices.Resend(w.outbox, false).1 :: !o.Send?
  {
    var offers := Payloads(w.system.sender).1;
    if offers.Some? {
      var (id, payloads) := offers.value;
      var sent := Notices.Segments(id, payloads);
      assert forall i | 0 <= i < |payloads| :: sent[i] == Notices.Send(MessageSegment(id, payloads[i]));
      assert forall p | p in payloads :: Notices.Send(MessageSegment(id, p)) in sent;
      assert (set p | p in payloads :: InFlight(MessageSegment(id, p), w.system.retired))
          == (set o | o in sent :: InFlight(o.segment, w.system.retired));
    }
  }

  /** Only the front message can be confirmed, and the receiver has handed it on by then. */
  lemma ConfirmedIsDelivered(c: Codec, s: System, queue: seq<Tracker>, k: nat)
    requires Inv(c, s, queue) && k < |queue| && Confirmed(queue[k])
    ensures s.retired + k < |s.receiver.delivered|
  {
    assert Tracks(c, s.queued, s.receiver.got, queue[k], s.retired + k);
    if k == 0 {
      RetiredMessageIsDelivered(c, s, queue);
    }
  }

  lemma SenderGivesOutNext(c: Codec, s: System, queue: seq<Tracker>)
    requires Inv(c, s, queue)
    ensures |s.queued| == s.retired + |queue| && s.sender.highestMessageId == IdOf(|s.queued|)
  {
    hide StreamOk, Drained, ExpectedSlot, SegmentsInv, NothingAhead, ReportsInv, Tracks;
    NextIdInOrder(s.sender, queue, s.retired);
  }

  lemma NextIdInOrder(sender: Sender, queue: seq<Tracker>, retired: nat)
    requires Queues(sender, queue) && sender.nextMessageId == IdOf(retired)
    ensures sender.highestMessageId == IdOf(retired + |queue|)
  {
    hide IdOf, WrappingSub;
    IdOfSum(retired, |queue|);
  }

  lemma WriteKeepsNotices(c: Codec, outbox: Notices.Outbox, queue: seq<Tracker>, retired: nat, waiting: set<nat>,
                          message: Message, notify: bool)
    requires Notices.NoticesOk(queue, retired, outbox.callbacks, outbox.fired, waiting) && |queue| < ID_SPACE
    requires outbox.sender.highestMessageId == IdOf(retired + |queue|) && Countable(Encode(c, message))
    ensures var n := retired + |queue|;
            var after := Notices.Write(c, outbox, if notify then Some(n) else None, message);
            Notices.NoticesOk(queue + [NewTracker(Encode(c, message))], retired, after.callbacks, after.fired,
                              if notify then waiting + {n} else waiting)
  {
    var t := NewTracker(Encode(c, message));
    assert !Confirmed(t);
    hide Notices.NoticesOk;
    Notices.NewMessageKeepsNotices(queue, retired, outbox.callbacks, outbox.fired, waiting, t, notify);
  }

  lemma QueueKeepsWatched(c: Codec, w: Watched, queue: seq<Tracker>, ws: WatchedStep)
    requires WatchedInv(c, w, queue) && InStep(w) && Enabled(c, w.system, ws.step) && ws.step.QueueMessage?
    ensures Countable(Encode(c, ws.step.message))
    ensures WatchedInv(c, WatchedPerform(c, w, ws), queue + [NewTracker(Encode(c, ws.step.message))])
  {
    QueueKeepsInv(c, w.system, queue, ws.step.message);
    SenderGivesOutNext(c, w.system, queue);
    hide Inv, Notices.NoticesOk, Enqueue, Notices.Write;
    WriteKeepsNotices(c, w.outbox, queue, w.system.retired, w.waiting, ws.step.message, ws.notify);
  }

  lemma ResendRetires(c: Codec, s: System, queue: seq<Tracker>)
    requires Inv(c, s, queue)
    ensures var after := Perform(c, s, Resend);
            && after.retired == (if queue != [] && Confirmed(queue[0]) then s.retired + 1 else s.retired)
            && after.receiver == s.receiver
  {
    ResendServesFront(c, s, queue);
  }

  lemma ResendKeepsNotices(c: Codec, w: Watched, queue: seq<Tracker>)
    requires WatchedInv(c, w, queue) && InStep(w)
    ensures var after := Perform(c, w.system, Resend);
            && Notices.NoticesOk(if queue != [] && Confirmed(queue[0]) then queue[1..] else queue, after.retired,
                                 w.outbox.callbacks, w.outbox.fired, w.waiting)
            && after.receiver == w.system.receiver
  {
    hide Inv, Perform, Confirmed, Notices.NoticesOk;
    ResendRetires(c, w.system, queue);
    if queue != [] && Confirmed(queue[0]) {
      Notices.RetireKeepsNotices(queue, w.system.retired, w.outbox.callbacks, w.outbox.fired, w.waiting);
    }
  }

  lemma ResendKeepsWatched(c: Codec, w: Watched, queue: seq<Tracker>, ws: WatchedStep)
    requires WatchedInv(c, w, queue) && InStep(w) && Enabled(c, w.system, ws.step) && ws.step.Resend?
    ensures WatchedInv(c, WatchedPerform(c, w, ws), if queue != [] && Confirmed(queue[0]) then queue[1..] else queue)
  {
    ResendKeepsInv(c, w.system, queue);
    ResendKeepsNotices(c, w, queue);
    hide Inv, Perform, Notices.NoticesOk;
  }

  lemma ArrivalKeepsWatched(c: Codec, w: Watched, queue: seq<Tracker>, ws: WatchedStep)
    requires WatchedInv(c, w, queue) && InStep(w) && Enabled(c, w.system, ws.step) && ws.step.SegmentArrives?
    ensures WatchedInv(c, WatchedPerform(c, w, ws), queue)
  {
    ArrivalKeepsInv(c, w.system, queue, ws.step.item);
    DeliverIsFaithful(c, w.system.queued, w.system.receiver, ws.step.item.segment, ws.step.item.number);
  }

  lemma EmitKeepsWatched(c: Codec, w: Watched, queue: seq<Tracker>, ws: WatchedStep)
    requires WatchedInv(c, w, queue) && InStep(w) && Enabled(c, w.system, ws.step) && ws.step.EmitReport?
    ensures WatchedInv(c, WatchedPerform(c, w, ws), queue)
  {
    TruthfulReportIsSound(c, w.system, queue, ws.step.number, ws.step.head, ws.step.bodies);
  }

  /** Whom a report notifies. */
  lemma UpdateFires(outbox: Notices.Outbox, queue: seq<Tracker>, retired: nat, report: Progress)
    requires Queues(outbox.sender, queue) && outbox.sender.nextMessageId == IdOf(retired)
    requires report.id == IdOf(report.number) && report.number < retired + |queue| <= report.number + ID_SPACE
    ensures var after := Notices.Update(outbox, report.id, report.head, report.bodies);
            var k := report.number - retired;
            if report.id in outbox.callbacks && k >= 0 && Confirmed(Confirm(queue, k, report)[k]) then
              && after.callbacks == outbox.callbacks - {report.id}
              && after.fired == outbox.fired + [outbox.callbacks[report.id]]
            else
              after.callbacks == outbox.callbacks && after.fired == outbox.fired
  {
    ReportPosition(outbox.sender, retired, |queue|, report.number);
    ReportConfirms(outbox.sender, queue, report.id, report.head, report.bodies);
    hide Queues, Confirmed, Report, Position;
  }

  /** What that does to the table. */
  lemma UpdateKeepsNotices(outbox: Notices.Outbox, queue: seq<Tracker>, retired: nat, waiting: set<nat>,
                           report: Progress)
    requires Queues(outbox.sender, queue) && outbox.sender.nextMessageId == IdOf(retired)
    requires Notices.NoticesOk(queue, retired, outbox.callbacks, outbox.fired, waiting)
    requires report.id == IdOf(report.number) && report.number < retired + |queue| <= report.number + ID_SPACE
    ensures var after := Notices.Update(outbox, report.id, report.head, report.bodies);
            var k := report.number - retired;
            var queue' := Confirm(queue, k, report);
            && Notices.NoticesOk(queue', retired, after.callbacks, after.fired, waiting)
            && (after.fired == outbox.fired
                || (0 <= k < |queue'| && Confirmed(queue'[k]) && after.fired == outbox.fired + [report.number]))
  {
    hide Queues, Notices.NoticesOk, Notices.Update, Confirmed, Report, Position;
    var k := report.number - retired;
    UpdateFires(outbox, queue, retired, report);
    if k >= 0 {
      Notices.ReportKeepsNotices(queue, retired, outbox.callbacks, outbox.fired, waiting, k,
                                 Confirm(queue, k, report)[k]);
    }
  }

  lemma ReportIsInRange(c: Codec, s: System, queue: seq<Tracker>, report: Progress)
    requires Inv(c, s, queue) && Enabled(c, s, ReportArrives(report))
    ensures Queues(s.sender, queue) && s.sender.nextMessageId == IdOf(s.retired)
    ensures report.id == IdOf(report.number) && report.number < s.retired + |queue| <= report.number + ID_SPACE
  {
    assert SoundReport(c, s.queued, s.receiver.got, report);
  }

  /** A report that reaches its message notifies whoever waits for it, and them alone. */
  lemma ReportNotifies(c: Codec, w: Watched, queue: seq<Tracker>, report: Progress)
    requires WatchedInv(c, w, queue) && InStep(w) && Enabled(c, w.system, ReportArrives(report))
    ensures var after := Notices.Update(w.outbox, report.id, report.head, report.bodies);
            var k := report.number - w.system.retired;
            var queue' := Confirm(queue, k, report);
            && Notices.NoticesOk(queue', w.system.retired, after.callbacks, after.fired, w.waiting)
            && (after.fired == w.outbox.fired
                || (0 <= k < |queue'| && Confirmed(queue'[k]) && after.fired == w.outbox.fired + [report.number]))
  {
    hide Inv, Possible, Timely, Queues, Notices.NoticesOk, Notices.Update, Confirmed, Confirm;
    ReportIsInRange(c, w.system, queue, report);
    UpdateKeepsNotices(w.outbox, queue, w.system.retired, w.waiting, report);
  }

  lemma ReportChangesSenderOnly(c: Codec, s: System, queue: seq<Tracker>, report: Progress)
    requires Inv(c, s, queue) && Enabled(c, s, ReportArrives(report))
    ensures Perform(c, s, ReportArrives(report))
         == s.(sender := Report(s.sender, report.id, report.head, report.bodies))
  {
  }

  lemma ReportKeepsWatched(c: Codec, w: Watched, queue: seq<Tracker>, report: Progress, notify: bool)
    requires WatchedInv(c, w, queue) && InStep(w) && Enabled(c, w.system, ReportArrives(report))
    ensures WatchedInv(c, WatchedPerform(c, w, WatchedStep(ReportArrives(report), notify)),
                       Confirm(queue, report.number - w.system.retired, report))
  {
    hide Inv, Perform, Possible, Timely, Notices.NoticesOk, Notices.Update, Confirmed, Report, Confirm;
    ReportKeepsInv(c, w.system, queue, report);
    ReportNotifies(c, w, queue, report);
    ReportChangesSenderOnly(c, w.system, queue, report);
    var after := WatchedPerform(c, w, WatchedStep(ReportArrives(report), notify));
    if after.outbox.fired != w.outbox.fired {
      ConfirmedIsDelivered(c, after.system, Confirm(queue, report.number - w.system.retired, report),
                           report.number - w.system.retired);
    }
  }

  lemma ReceiverIsValid(c: Codec, w: Watched, queue: seq<Tracker>)
    requires WatchedInv(c, w, queue)
    ensures Valid(w.system.receiver.window)
  {
  }

  lemma StepKeepsWatched(c: Codec, w: Watched, queue: seq<Tracker>, ws: WatchedStep) returns (queue': seq<Tracker>)
    requires WatchedInv(c, w, queue) && InStep(w) && Enabled(c, w.system, ws.step)
    ensures WatchedInv(c, WatchedPerform(c, w, ws), queue') && InStep(WatchedPerform(c, w, ws))
  {
    ReceiverIsValid(c, w, queue);
    HandlersKeepInStep(c, w, ws);
    hide WatchedInv, WatchedPerform, InStep, Possible, Timely;
    queue' := queue;
    match ws.step
    case QueueMessage(message) =>
      QueueKeepsWatched(c, w, queue, ws);
      queue' := queue + [NewTracker(Encode(c, message))];
    case Resend =>
      ResendKeepsWatched(c, w, queue, ws);
      queue' := if queue != [] && Confirmed(queue[0]) then queue[1..] else queue;
    case SegmentArrives(_) =>
      ArrivalKeepsWatched(c, w, queue, ws);
    case EmitReport(_, _, _) =>
      EmitKeepsWatched(c, w, queue, ws);
    case ReportArrives(report) =>
      ReportKeepsWatched(c, w, queue, report, ws.notify);
      queue' := Confirm(queue, report.number - w.system.retired, report);
  }

  lemma {:induction false} RunKeepsWatched(c: Codec, steps: seq<WatchedStep>) returns (queue: seq<Tracker>)
    requires Lossless(c) && WatchedRun(c, steps).Some?
    ensures WatchedInv(c, WatchedRun(c, steps).value, queue) && InStep(WatchedRun(c, steps).value)
  {
    if steps == [] {
      queue := [];
      InitialInv(c);
    } else {
      queue := RunKeepsWatched(c, steps[..|steps| - 1]);
      hide WatchedInv, WatchedPerform, InStep, Possible, Timely;
      queue := StepKeepsWatched(c, WatchedRun(c, steps[..|steps| - 1]).value, queue, steps[|steps| - 1]);
    }
  }

  /**
   * In every run the writer's loop has the sender of the channel; whoever has been notified waited for a
   * message that the receiver has handed on, and nobody is notified twice; whoever waited for a retired
   * message has been notified.
   */
  lemma NotifiedMeansDelivered(c: Codec, steps: seq<WatchedStep>)
    requires Lossless(c) && WatchedRun(c, steps).Some?
    ensures var w := WatchedRun(c, steps).value;
            && w.outbox.sender == w.system.sender
            && (forall n | n in w.outbox.fired ::
                  n in w.waiting && n < |w.system.receiver.delivered| <= |w.system.queued|
                  && w.system.receiver.delivered[n] == w.system.queued[n])
            && Notices.Distinct(w.outbox.fired)
            && (forall n | n in w.waiting && n < w.system.retired :: n in w.outbox.fired)
  {
    var queue := RunKeepsWatched(c, steps);
    var w := WatchedRun(c, steps).value;
    forall n | n in w.waiting && n < w.system.retired ensures n in w.outbox.fired {
      assert Notices.Awaited(queue, w.system.retired, w.outbox.callbacks, w.outbox.fired, n);
    }
  }
}
