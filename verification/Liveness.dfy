/** Nothing gets stuck: a round that gets through retires the front message, and every queue can be emptied. */
module Liveness {
  import opened Packet
  import opened Fragments
  import opened Codecs
  import opened Windows
  import opened Delivery
  import opened SenderQueue
  import opened EndToEnd

  // ----- each segment that gets through is one less to send -----

  /** The tracker of a message after a report of exactly what has arrived. */
  function TrackerAfter(m: Encoded, got: Received): Tracker
    requires Countable(m)
  {
    Tracker(m.payload, m.compression, got.head, BodyCount(m.payload), got.bodies)
  }

  function Outstanding(m: Encoded, got: Received): set<MessagePayload>
    requires Countable(m)
  {
    set p | p in Offers(TrackerAfter(m, got))
  }

  /** A segment that has not arrived yet. */
  predicate NotArrived(got: Received, p: MessagePayload) {
    match p
    case Head(_, _) => !got.head
    case Body(index, _) => index !in got.bodies
    case MessageProgress(_, _) => false
  }

  /** After an exact report, what is offered is exactly what has not arrived. */
  lemma OutstandingIsWhatIsMissing(m: Encoded, got: Received)
    requires Countable(m)
    ensures forall p :: p in Outstanding(m, got) <==> SegmentOf(m, p) && NotArrived(got, p)
  {
    OffersExactly(TrackerAfter(m, got));
  }

  lemma NotArrivedAfterMark(m: Encoded, got: Received, p: MessagePayload, q: MessagePayload)
    requires SegmentOf(m, p) && SegmentOf(m, q)
    ensures NotArrived(Mark(got, p), q) <==> NotArrived(got, q) && q != p
  {
  }

  /** A missing segment that gets through is one less outstanding, and a repeated one changes nothing. */
  lemma ArrivalShrinksOutstanding(m: Encoded, got: Received, p: MessagePayload)
    requires Countable(m) && SegmentOf(m, p)
    ensures Outstanding(m, Mark(got, p)) == Outstanding(m, got) - {p}
    ensures NotArrived(got, p) <==> |Outstanding(m, Mark(got, p))| < |Outstanding(m, got)|
  {
    OutstandingIsWhatIsMissing(m, got);
    OutstandingIsWhatIsMissing(m, Mark(got, p));
    forall q ensures q in Outstanding(m, Mark(got, p)) <==> q in Outstanding(m, got) - {p} {
      if SegmentOf(m, q) {
        NotArrivedAfterMark(m, got, p, q);
      }
    }
  }

  // ----- runs in pieces -----

  lemma RunLast(c: Codec, s: System, steps: seq<Step>, step: Step)
    requires Valid(s.receiver.window)
    ensures var before := Run(c, s, steps);
            Run(c, s, steps + [step]) ==
            if before.Some? && Enabled(c, before.value, step) then Some(Perform(c, before.value, step)) else None
  {
    hide Perform, Possible, Timely;
    var all := steps + [step];
    assert all[..|all| - 1] == steps;
  }

  lemma {:induction false} RunAppend(c: Codec, s: System, one: seq<Step>, other: seq<Step>)
    requires Valid(s.receiver.window) && Run(c, s, one).Some?
    ensures Run(c, s, one + other) == Run(c, Run(c, s, one).value, other)
  {
    if other == [] {
      assert one + other == one;
    } else {
      hide Run, Perform, Possible, Timely;
      var n := |other| - 1;
      assert one + other == one + other[..n] + [other[n]];
      assert other == other[..n] + [other[n]];
      RunAppend(c, s, one, other[..n]);
      RunLast(c, s, one + other[..n], other[n]);
      RunLast(c, Run(c, s, one).value, other[..n], other[n]);
    }
  }

  lemma RunOne(c: Codec, s: System, step: Step)
    requires Valid(s.receiver.window) && Enabled(c, s, step)
    ensures Run(c, s, [step]) == Some(Perform(c, s, step))
  {
  }

  lemma RunThree(c: Codec, s: System, one: Step, two: Step, three: Step)
    requires Valid(s.receiver.window) && Enabled(c, s, one)
    requires Enabled(c, Perform(c, s, one), two)
    requires Enabled(c, Perform(c, Perform(c, s, one), two), three)
    ensures Run(c, s, [one, two, three]) == Some(Perform(c, Perform(c, Perform(c, s, one), two), three))
  {
    hide Perform, Possible, Timely;
    var s1 := Perform(c, s, one);
    RunOne(c, s, one);
    RunOne(c, s1, two);
    RunOne(c, Perform(c, s1, two), three);
    RunAppend(c, s, [one], [two]);
    RunAppend(c, s, [one] + [two], [three]);
    assert [one] + [two] + [three] == [one, two, three];
  }

  // ----- a round that gets through -----

  function FrontItem(s: System, p: MessagePayload): InFlight {
    InFlight(MessageSegment(s.sender.nextMessageId, p), s.retired)
  }

  function Arrivals(s: System, order: seq<MessagePayload>): seq<Step> {
    seq(|order|, i requires 0 <= i < |order| => SegmentArrives(FrontItem(s, order[i])))
  }

  /** From `s`, only the receiver has moved on, and these segments of the front message are on record. */
  ghost predicate HasReceived(c: Codec, s: System, t: System, queue: seq<Tracker>, order: seq<MessagePayload>) {
    && Inv(c, s, queue) && queue != []
    && t == s.(receiver := t.receiver)
    && Inv(c, t, queue)
    && Grows(s.receiver.got, t.receiver.got)
    && forall p | p in order :: !NotArrived(t.receiver.got[s.retired], p)
  }

  lemma InvIsValid(c: Codec, s: System, queue: seq<Tracker>)
    requires Inv(c, s, queue)
    ensures Valid(s.receiver.window) && |s.receiver.got| == |s.queued| == s.retired + |queue|
  {
  }

  lemma NothingReceived(c: Codec, s: System, queue: seq<Tracker>)
    requires Inv(c, s, queue) && queue != []
    ensures HasReceived(c, s, s, queue, [])
  {
    hide Inv;
  }

  lemma ArrivalsLast(s: System, order: seq<MessagePayload>)
    ensures order == [] ==> Arrivals(s, order) == []
    ensures order != [] ==>
              var before, p := order[..|order| - 1], order[|order| - 1];
              && order == before + [p]
              && |Arrivals(s, order)| == |order|
              && Arrivals(s, order)[..|order| - 1] == Arrivals(s, before)
              && Arrivals(s, order)[|order| - 1] == SegmentArrives(FrontItem(s, p))
  {
  }

  /** Segments of the front message can always be delivered, and each one delivered is on record. */
  lemma {:induction false} FrontArrivals(c: Codec, s: System, queue: seq<Tracker>, order: seq<MessagePayload>)
    requires Inv(c, s, queue) && queue != []
    requires forall p | p in order :: FrontItem(s, p) in s.segments
    ensures var r := Run(c, s, Arrivals(s, order));
            r.Some? && HasReceived(c, s, r.value, queue, order)
  {
    hide Inv, HasReceived, Perform, Possible, Timely, Arrivals;
    InvIsValid(c, s, queue);
    ArrivalsLast(s, order);
    if order == [] {
      NothingReceived(c, s, queue);
    } else {
      var before, p := order[..|order| - 1], order[|order| - 1];
      FrontArrivals(c, s, queue, before);
      OneMoreArrival(c, s, Run(c, s, Arrivals(s, before)).value, queue, before, p);
    }
  }

  lemma OneMoreArrival(c: Codec, s: System, t: System, queue: seq<Tracker>, before: seq<MessagePayload>,
                       p: MessagePayload)
    requires HasReceived(c, s, t, queue, before) && FrontItem(s, p) in s.segments
    ensures Enabled(c, t, SegmentArrives(FrontItem(s, p)))
    ensures HasReceived(c, s, Perform(c, t, SegmentArrives(FrontItem(s, p))), queue, before + [p])
  {
    hide Inv, Perform;
    InvIsValid(c, t, queue);
    AtMostOneAhead(c, t, queue);
    ArrivalKeepsInv(c, t, queue, FrontItem(s, p));
    FrontArrivalIsRecorded(c, t, queue, p);
  }

  lemma FrontArrivalIsRecorded(c: Codec, s: System, queue: seq<Tracker>, p: MessagePayload)
    requires Inv(c, s, queue) && queue != [] && FrontItem(s, p) in s.segments
    requires Enabled(c, s, SegmentArrives(FrontItem(s, p)))
    ensures var t := Perform(c, s, SegmentArrives(FrontItem(s, p)));
            && t == s.(receiver := t.receiver)
            && t.receiver.got == s.receiver.got[s.retired := Mark(s.receiver.got[s.retired], p)]
  {
    AtMostOneAhead(c, s, queue);
    DeliverIsFaithful(c, s.queued, s.receiver, FrontItem(s, p).segment, s.retired);
  }

  /** What was confirmed has arrived before; what was offered is on record now: nothing is missing. */
  lemma OfferedAndConfirmedIsAll(m: Encoded, t: Tracker, got: Received)
    requires Encoded(t.payload, t.compression) == m && t.bodyCount == BodyCount(m.payload)
    requires t.headConfirmed ==> got.head
    requires forall i | i in t.bodiesConfirmed && i < t.bodyCount :: i in got.bodies
    requires forall p | p in Offers(t) :: !NotArrived(got, p)
    ensures Complete(m, got)
  {
    OffersExactly(t);
    if !t.headConfirmed {
      assert Head(t.bodyCount, t.compression) in Offers(t);
    }
    forall i: u16 | i < BodyCount(m.payload) ensures i in got.bodies {
      if i !in t.bodiesConfirmed {
        assert Body(i, Fragment(m.payload, i)) in Offers(t);
      }
    }
  }

  lemma FrontIsTracked(c: Codec, s: System, queue: seq<Tracker>)
    requires Inv(c, s, queue) && queue != []
    ensures s.retired < |s.queued| == |s.receiver.got|
    ensures Tracks(c, s.queued, s.receiver.got, queue[0], s.retired)
  {
    hide Tracks, StreamOk, ExpectedSlot, Queues, SegmentsInv, NothingAhead, ReportsInv;
    assert Tracks(c, s.queued, s.receiver.got, queue[0], s.retired + 0);
  }

  lemma CompleteFrontIsHandedOn(c: Codec, s: System, queue: seq<Tracker>)
    requires Inv(c, s, queue) && s.retired < |s.queued| == |s.receiver.got|
    requires Complete(Encode(c, s.queued[s.retired]), s.receiver.got[s.retired])
    ensures |s.receiver.delivered| == s.retired + 1
  {
    hide SenderInv, SegmentsInv, NothingAhead, ReportsInv, Queues, Complete, StreamOk, ExpectedSlot;
    AtMostOneAhead(c, s, queue);
  }

  /** Once all that is offered has been delivered, the front message has been handed on. */
  lemma DeliveringOffersHandsOn(c: Codec, s: System, queue: seq<Tracker>, order: seq<MessagePayload>)
    requires Inv(c, s, queue) && queue != []
    requires forall p | p in order :: FrontItem(s, p) in s.segments
    requires forall p | p in Offers(queue[0]) :: p in order
    ensures var r := Run(c, s, Arrivals(s, order));
            && r.Some? && r.value == s.(receiver := r.value.receiver) && Inv(c, r.value, queue)
            && |r.value.receiver.delivered| == s.retired + 1
  {
    hide Inv, Run, Offers, Complete, NotArrived, Grows, Arrivals;
    InvIsValid(c, s, queue);
    FrontArrivals(c, s, queue, order);
    var t := Run(c, s, Arrivals(s, order)).value;
    FrontIsTracked(c, t, queue);
    OfferedAndConfirmedIsAll(Encode(c, s.queued[s.retired]), queue[0], t.receiver.got[s.retired]);
    CompleteFrontIsHandedOn(c, t, queue);
  }

  // ----- the report that retires -----

  function Acknowledgement(s: System): Progress
    requires s.retired < |s.receiver.got|
  {
    Progress(IdOf(s.retired), true, s.receiver.got[s.retired].bodies, s.retired)
  }

  /** The receiver truthfully reports the front message, the report gets through, the sender looks again. */
  function Acknowledging(s: System): seq<Step>
    requires s.retired < |s.receiver.got|
  {
    var report := Acknowledgement(s);
    [EmitReport(report.number, report.head, report.bodies), ReportArrives(report), Resend]
  }

  lemma EmitAcknowledgement(c: Codec, s: System, queue: seq<Tracker>)
    requires Inv(c, s, queue) && queue != [] && |s.receiver.delivered| == s.retired + 1
    ensures var emit := Acknowledging(s)[0];
            && Enabled(c, s, emit)
            && Perform(c, s, emit) == s.(reports := s.reports + {Acknowledgement(s)})
            && Inv(c, Perform(c, s, emit), queue)
  {
    var report := Acknowledgement(s);
    TruthfulReportIsSound(c, s, queue, report.number, report.head, report.bodies);
  }

  lemma AcknowledgedIsConfirmed(c: Codec, s: System, queue: seq<Tracker>)
    requires Inv(c, s, queue) && queue != [] && |s.receiver.delivered| == s.retired + 1
    requires Acknowledgement(s) in s.reports
    ensures Enabled(c, s, ReportArrives(Acknowledgement(s)))
    ensures Confirmed(Confirm(queue, 0, Acknowledgement(s))[0])
  {
    assert Tracks(c, s.queued, s.receiver.got, queue[0], s.retired + 0);
    assert Complete(Encode(c, s.queued[s.retired]), s.receiver.got[s.retired]);
  }

  lemma AcknowledgementConfirms(c: Codec, s: System, queue: seq<Tracker>)
    requires Inv(c, s, queue) && queue != [] && |s.receiver.delivered| == s.retired + 1
    requires Acknowledgement(s) in s.reports
    ensures var step := ReportArrives(Acknowledgement(s));
            && Enabled(c, s, step)
            && Inv(c, Perform(c, s, step), Confirm(queue, 0, Acknowledgement(s)))
            && Confirmed(Confirm(queue, 0, Acknowledgement(s))[0])
            && Perform(c, s, step) == s.(sender := Perform(c, s, step).sender)
  {
    var report := Acknowledgement(s);
    AcknowledgedIsConfirmed(c, s, queue);
    assert report.number - s.retired == 0;
    ReportKeepsInv(c, s, queue, report);
  }

  lemma AcknowledgingRetires(c: Codec, s: System, queue: seq<Tracker>) returns (queue': seq<Tracker>)
    requires Inv(c, s, queue) && queue != [] && |s.receiver.delivered| == s.retired + 1
    ensures var r := Run(c, s, Acknowledging(s));
            && r.Some? && Inv(c, r.value, queue') && |queue'| == |queue| - 1
            && r.value.retired == s.retired + 1 && r.value.queued == s.queued
            && r.value.receiver == s.receiver
  {
    hide Inv, Perform, Confirmed, Queues, Run;
    InvIsValid(c, s, queue);
    var steps := Acknowledging(s);
    EmitAcknowledgement(c, s, queue);
    var s1 := Perform(c, s, steps[0]);
    AcknowledgementConfirms(c, s1, queue);
    var s2 := Perform(c, s1, steps[1]);
    var queue2 := Confirm(queue, 0, Acknowledgement(s));
    ResendKeepsInv(c, s2, queue2);
    ResendServesFront(c, s2, queue2);
    queue' := queue2[1..];
    RunThree(c, s, steps[0], steps[1], steps[2]);
    assert [steps[0], steps[1], steps[2]] == steps;
  }

  // ----- a whole round, and the whole queue -----

  /** Everything that one look of the sender offers is delivered, in any order and with repetitions. */
  function Round(s: System, order: seq<MessagePayload>): seq<Step> {
    [Resend] + Arrivals(s, order)
  }

  /** The sender's look leaves all that it offers in the network. */
  lemma OffersGoOut(c: Codec, s: System, queue: seq<Tracker>)
    requires Inv(c, s, queue) && queue != [] && !Confirmed(queue[0])
    ensures var t := Perform(c, s, Resend);
            && Inv(c, t, queue)
            && t.queued == s.queued && t.retired == s.retired && t.sender == s.sender
            && forall p | p in Offers(queue[0]) :: FrontItem(t, p) in t.segments
  {
    ResendKeepsInv(c, s, queue);
    ResendServesFront(c, s, queue);
  }

  lemma RoundHandsOn(c: Codec, s: System, queue: seq<Tracker>, order: seq<MessagePayload>)
    requires Inv(c, s, queue) && queue != [] && !Confirmed(queue[0])
    requires forall p :: p in order <==> p in Offers(queue[0])
    ensures var middle := Run(c, s, Round(s, order));
            && middle.Some? && Inv(c, middle.value, queue)
            && middle.value.queued == s.queued && middle.value.retired == s.retired
            && |middle.value.receiver.delivered| == s.retired + 1
  {
    hide Inv, Perform, Run, Offers, Confirmed;
    InvIsValid(c, s, queue);
    OffersGoOut(c, s, queue);
    var s1 := Perform(c, s, Resend);
    RunOne(c, s, Resend);
    RunAppend(c, s, [Resend], Arrivals(s, order));
    assert Arrivals(s1, order) == Arrivals(s, order);
    DeliveringOffersHandsOn(c, s1, queue, order);
  }

  /**
   * Delivering all that one `payloads` offers makes the receiver hand the front message on, and a
   * truthful report of that makes the next `payloads` retire it.
   */
  lemma RoundRetiresFront(c: Codec, s: System, queue: seq<Tracker>, order: seq<MessagePayload>)
    returns (queue': seq<Tracker>)
    requires Inv(c, s, queue) && queue != [] && !Confirmed(queue[0])
    requires forall p :: p in order <==> p in Offers(queue[0])
    ensures var middle := Run(c, s, Round(s, order));
            && middle.Some?
            && middle.value.receiver.delivered == s.queued[..s.retired + 1]
            && middle.value.retired == s.retired < |middle.value.receiver.got|
            && var r := Run(c, middle.value, Acknowledging(middle.value));
            && r.Some? && Inv(c, r.value, queue') && |queue'| == |queue| - 1
            && r.value.retired == s.retired + 1 && r.value.queued == s.queued
            && r.value.receiver == middle.value.receiver
  {
    RoundHandsOn(c, s, queue, order);
    queue' := AcknowledgingRetires(c, Run(c, s, Round(s, order)).value, queue);
  }

  /** From every state the channel can get into, some continuation hands on and retires all that is queued. */
  lemma {:induction false} QueueCanBeEmptied(c: Codec, s: System, queue: seq<Tracker>) returns (steps: seq<Step>)
    requires Inv(c, s, queue)
    ensures var r := Run(c, s, steps);
            && r.Some? && r.value.queued == s.queued
            && r.value.retired == |s.queued| && r.value.receiver.delivered == s.queued
            && r.value.sender.packets == map[]
    decreases |queue|
  {
    if queue == [] {
      steps := [];
      AtMostOneAhead(c, s, queue);
      assert forall id | id in s.sender.packets :: Position(s.sender, id) < 0;
    } else if Confirmed(queue[0]) {
      ResendKeepsInv(c, s, queue);
      ResendServesFront(c, s, queue);
      RunOne(c, s, Resend);
      var rest := QueueCanBeEmptied(c, Perform(c, s, Resend), queue[1..]);
      RunAppend(c, s, [Resend], rest);
      steps := [Resend] + rest;
    } else {
      var round := Round(s, Offers(queue[0]));
      var queue' := RoundRetiresFront(c, s, queue, Offers(queue[0]));
      var middle := Run(c, s, round).value;
      var after := Run(c, middle, Acknowledging(middle)).value;
      var rest := QueueCanBeEmptied(c, after, queue');
      RunAppend(c, s, round, Acknowledging(middle));
      RunAppend(c, s, round + Acknowledging(middle), rest);
      steps := round + Acknowledging(middle) + rest;
    }
  }

  /** No run ends up in a state from which a queued message can no longer be delivered. */
  lemma NothingIsEverStuck(c: Codec, steps: seq<Step>)
    requires Lossless(c) && Run(c, Initial(), steps).Some?
    ensures exists more ::
              var r := Run(c, Run(c, Initial(), steps).value, more);
              r.Some? && r.value.receiver.delivered == Run(c, Initial(), steps).value.queued
              && r.value.sender.packets == map[]
  {
    InitialInv(c);
    var queue := RunKeepsInv(c, Initial(), [], steps);
    var more := QueueCanBeEmptied(c, Run(c, Initial(), steps).value, queue);
  }
}
