/**
 * Why segments must not be too old: when those of a message arrive that is one message older than
 * `Delivery.InReach` allows, the receiver hands that message on a second time, behind the stream.
 */
module OldSegments {
  import opened Packet
  import opened Fragments
  import opened Confluence
  import opened Codecs
  import opened Windows
  import opened Delivery
  import opened SenderQueue

  /** As `Delivery.ReceiveAll`, from any receiver on. */
  function ReceiveOn(c: Codec, rx: Receiver, arrivals: seq<Arriving>): (r: Option<Receiver>)
    requires Valid(rx.window)
    ensures r.Some? ==> Valid(r.value.window)
  {
    if arrivals == [] then
      Some(rx)
    else
      var a := arrivals[|arrivals| - 1];
      match ReceiveOn(c, rx, arrivals[..|arrivals| - 1])
      case None => None
      case Some(before) =>
        if Accept(before.window, a.segment).Some? then Some(Deliver(c, before, a.segment, a.number)) else None
  }

  /** Each of them arrives while its id is unambiguous. */
  predicate InTime(c: Codec, rx: Receiver, arrivals: seq<Arriving>)
    requires Valid(rx.window)
  {
    arrivals != [] ==>
      && InTime(c, rx, arrivals[..|arrivals| - 1])
      && var before := ReceiveOn(c, rx, arrivals[..|arrivals| - 1]);
         before.Some? && InReach(|before.value.delivered|, arrivals[|arrivals| - 1].number)
  }

  lemma {:induction false} ReceiveAllIsFromStart(c: Codec, stream: seq<Message>, arrivals: seq<Arriving>)
    ensures ReceiveAll(c, stream, arrivals) == ReceiveOn(c, Start(stream), arrivals)
  {
    if arrivals != [] {
      hide Deliver, Accept;
      ReceiveAllIsFromStart(c, stream, arrivals[..|arrivals| - 1]);
    }
  }

  lemma ReceiveLast(c: Codec, rx: Receiver, arrivals: seq<Arriving>, a: Arriving)
    requires Valid(rx.window) && ReceiveOn(c, rx, arrivals).Some?
    ensures var before := ReceiveOn(c, rx, arrivals).value;
            && ReceiveOn(c, rx, arrivals + [a])
               == (if Accept(before.window, a.segment).Some?
                   then Some(Deliver(c, before, a.segment, a.number)) else None)
            && (InTime(c, rx, arrivals + [a]) <==> InTime(c, rx, arrivals) && InReach(|before.delivered|, a.number))
  {
    hide Deliver, Accept, InReach;
    assert (arrivals + [a])[..|arrivals|] == arrivals;
  }

  lemma {:induction false} ReceiveInPieces(c: Codec, rx: Receiver, one: seq<Arriving>, other: seq<Arriving>)
    requires Valid(rx.window) && ReceiveOn(c, rx, one).Some? && ReceiveOn(c, ReceiveOn(c, rx, one).value, other).Some?
    ensures ReceiveOn(c, rx, one + other) == ReceiveOn(c, ReceiveOn(c, rx, one).value, other)
    ensures InTime(c, rx, one) && InTime(c, ReceiveOn(c, rx, one).value, other) ==> InTime(c, rx, one + other)
  {
    if other == [] {
      assert one + other == one;
    } else {
      var n := |other| - 1;
      assert other == other[..n] + [other[n]];
      assert one + other == (one + other[..n]) + [other[n]];
      ReceiveInPieces(c, rx, one, other[..n]);
      hide ReceiveOn, InTime, Deliver, Accept, InReach;
      ReceiveLast(c, rx, one + other[..n], other[n]);
      ReceiveLast(c, ReceiveOn(c, rx, one).value, other[..n], other[n]);
    }
  }

  /** The receivers have the same window, and have handed on the same. */
  predicate Alike(one: Receiver, other: Receiver) {
    one.window == other.window && one.delivered == other.delivered
  }

  predicate SameSegments(one: seq<Arriving>, other: seq<Arriving>) {
    |one| == |other| && forall i | 0 <= i < |one| :: one[i].segment == other[i].segment
  }

  /** Which messages the segments are on record as makes no difference to what the receiver does. */
  lemma {:induction false} RecordsMakeNoDifference(c: Codec, rx: Receiver, other: Receiver,
                                                   arrivals: seq<Arriving>, arrivals': seq<Arriving>)
    requires Valid(rx.window) && Alike(rx, other) && SameSegments(arrivals, arrivals')
    ensures var r, r' := ReceiveOn(c, rx, arrivals), ReceiveOn(c, other, arrivals');
            (r.Some? <==> r'.Some?) && (r.Some? ==> Alike(r.value, r'.value))
    ensures arrivals == arrivals' && InTime(c, other, arrivals) ==> InTime(c, rx, arrivals)
  {
    if arrivals != [] {
      hide Accept, InReach;
      var n := |arrivals| - 1;
      RecordsMakeNoDifference(c, rx, other, arrivals[..n], arrivals'[..n]);
    }
  }

  // ----- the segments of one message arrive -----

  ghost predicate Healthy(c: Codec, stream: seq<Message>, rx: Receiver) {
    StreamOk(c, stream) && Faithful(c, stream, rx) && Drained(c, stream, rx)
  }

  /** The segments of a message, on record under a number. */
  function ArrivalsFor(id: MessageId, number: nat, order: seq<MessagePayload>): seq<Arriving> {
    seq(|order|, i requires 0 <= i < |order| => Arriving(MessageSegment(id, order[i]), number))
  }

  /** The message behind this one is not complete, or there are not enough messages for an id to be ambiguous. */
  ghost predicate StopsInTime(c: Codec, stream: seq<Message>, rx: Receiver, number: nat) {
    |stream| <= number + MAX_AGE
    || (number + 1 < |stream| == |rx.got| && !Complete(Encode(c, stream[number + 1]), rx.got[number + 1]))
  }

  /** From `rx`, these segments of message `number` have arrived, and nothing else. */
  ghost predicate HasGot(c: Codec, stream: seq<Message>, rx: Receiver, number: nat, order: seq<MessagePayload>,
                         after: Receiver)
    requires number < |stream|
  {
    && Healthy(c, stream, after)
    && |after.got| == |rx.got| == |stream|
    && rx.delivered <= after.delivered
    && after.got == rx.got[number := after.got[number]]
    && (HasHead(order) ==> after.got[number].head)
    && (forall i: u16 | HasBody(order, i) :: i in after.got[number].bodies)
  }

  lemma OneArrives(c: Codec, stream: seq<Message>, rx: Receiver, number: nat, before: seq<MessagePayload>,
                   reached: Receiver, p: MessagePayload)
    requires number < |stream| && HasGot(c, stream, rx, number, before, reached)
    requires number < |rx.delivered| + MARGIN_OF_OUT_OF_ORDER_ALLOWED && |rx.delivered| <= number
    requires StopsInTime(c, stream, rx, number) && SegmentOf(Encode(c, stream[number]), p)
    ensures InReach(|reached.delivered|, number)
    ensures var segment := MessageSegment(IdOf(number), p);
            && Accept(reached.window, segment).Some?
            && HasGot(c, stream, rx, number, before + [p], Deliver(c, reached, segment, number))
  {
    DeliverIsFaithful(c, stream, reached, MessageSegment(IdOf(number), p), number);
  }

  lemma NothingArrives(c: Codec, stream: seq<Message>, rx: Receiver, number: nat)
    requires Healthy(c, stream, rx) && number < |stream|
    ensures HasGot(c, stream, rx, number, [], rx)
  {
    assert rx.got[number := rx.got[number]] == rx.got;
  }

  lemma LastArrival(id: MessageId, number: nat, order: seq<MessagePayload>)
    requires order != []
    ensures var before, p := order[..|order| - 1], order[|order| - 1];
            && order == before + [p]
            && ArrivalsFor(id, number, order)
               == ArrivalsFor(id, number, before) + [Arriving(MessageSegment(id, p), number)]
  {
  }

  lemma {:induction false} SomeArrive(c: Codec, stream: seq<Message>, rx: Receiver, number: nat,
                                      order: seq<MessagePayload>)
    requires Healthy(c, stream, rx) && number < |stream|
    requires |rx.delivered| <= number < |rx.delivered| + MARGIN_OF_OUT_OF_ORDER_ALLOWED
    requires StopsInTime(c, stream, rx, number)
    requires forall p | p in order :: SegmentOf(Encode(c, stream[number]), p)
    ensures var arrivals := ArrivalsFor(IdOf(number), number, order);
            var r := ReceiveOn(c, rx, arrivals);
            r.Some? && InTime(c, rx, arrivals) && HasGot(c, stream, rx, number, order, r.value)
  {
    assert Valid(rx.window);
    hide HasGot, Healthy, StopsInTime, Deliver, Accept, InReach, SegmentOf;
    if order == [] {
      NothingArrives(c, stream, rx, number);
    } else {
      var before, p := order[..|order| - 1], order[|order| - 1];
      SomeArrive(c, stream, rx, number, before);
      hide ReceiveOn, InTime, ArrivalsFor;
      LastArrival(IdOf(number), number, order);
      var arrivals := ArrivalsFor(IdOf(number), number, before);
      OneArrives(c, stream, rx, number, before, ReceiveOn(c, rx, arrivals).value, p);
      ReceiveLast(c, rx, arrivals, Arriving(MessageSegment(IdOf(number), p), number));
    }
  }

  // ----- whole messages arrive -----

  /** All segments of a message, as it is offered at first. */
  function WholeMessage(c: Codec, stream: seq<Message>, number: nat): seq<MessagePayload>
    requires number < |stream| && Sendable(Encode(c, stream[number]))
  {
    BodyCountIsCeiling(Encode(c, stream[number]).payload);
    Offers(NewTracker(Encode(c, stream[number])))
  }

  lemma WholeMessageIsWhole(c: Codec, stream: seq<Message>, number: nat)
    requires number < |stream| && Sendable(Encode(c, stream[number]))
    ensures var m := Encode(c, stream[number]);
            var all := WholeMessage(c, stream, number);
            && (forall p | p in all :: SegmentOf(m, p))
            && HasHead(all) && forall i: u16 | i < BodyCount(m.payload) :: HasBody(all, i)
  {
    var m := Encode(c, stream[number]);
    BodyCountIsCeiling(m.payload);
    var t := NewTracker(m);
    OffersExactly(t);
    assert Head(t.bodyCount, t.compression) in Offers(t);
    forall i: u16 | i < BodyCount(m.payload) ensures HasBody(Offers(t), i) {
      assert Body(i, Fragment(m.payload, i)) in Offers(t);
    }
  }

  function AllOf(c: Codec, stream: seq<Message>, number: nat): seq<Arriving>
    requires number < |stream| && Sendable(Encode(c, stream[number]))
  {
    ArrivalsFor(IdOf(number), number, WholeMessage(c, stream, number))
  }

  /** All of a message in the window arrives. */
  lemma MessageArrives(c: Codec, stream: seq<Message>, rx: Receiver, number: nat)
    requires Healthy(c, stream, rx) && number < |stream|
    requires |rx.delivered| <= number < |rx.delivered| + MARGIN_OF_OUT_OF_ORDER_ALLOWED
    requires StopsInTime(c, stream, rx, number)
    ensures var r := ReceiveOn(c, rx, AllOf(c, stream, number));
            && r.Some? && InTime(c, rx, AllOf(c, stream, number))
            && HasGot(c, stream, rx, number, WholeMessage(c, stream, number), r.value)
            && Complete(Encode(c, stream[number]), r.value.got[number])
  {
    WholeMessageIsWhole(c, stream, number);
    SomeArrive(c, stream, rx, number, WholeMessage(c, stream, number));
  }

  /** Exactly the messages before `n` have been handed on, and nothing of those from `n` to `end` has arrived. */
  ghost predicate At(c: Codec, stream: seq<Message>, rx: Receiver, n: nat, end: nat) {
    && Healthy(c, stream, rx)
    && |rx.delivered| == n <= end <= |stream| == |rx.got|
    && forall k | n <= k < end :: rx.got[k] == NOTHING
  }

  lemma AtIsValid(c: Codec, stream: seq<Message>, rx: Receiver, n: nat, end: nat)
    requires At(c, stream, rx, n, end)
    ensures Valid(rx.window) && StreamOk(c, stream) && |rx.got| == |stream| && end <= |stream|
  {
  }

  lemma CompleteIsHandedOn(c: Codec, stream: seq<Message>, rx: Receiver, n: nat)
    requires Healthy(c, stream, rx) && n < |stream| && n <= |rx.delivered|
    requires Complete(Encode(c, stream[n]), rx.got[n])
    ensures n < |rx.delivered|
  {
  }

  lemma NothingIsNotHandedOn(c: Codec, stream: seq<Message>, rx: Receiver, n: nat)
    requires Healthy(c, stream, rx) && n < |stream| && rx.got[n] == NOTHING
    ensures |rx.delivered| <= n
  {
    assert !Complete(Encode(c, stream[n]), NOTHING);
  }

  /** The next message arrives. */
  lemma NextArrives(c: Codec, stream: seq<Message>, rx: Receiver, n: nat, end: nat)
    requires At(c, stream, rx, n, end) && n + 1 < end
    ensures var r := ReceiveOn(c, rx, AllOf(c, stream, n));
            && r.Some? && InTime(c, rx, AllOf(c, stream, n))
            && At(c, stream, r.value, n + 1, end)
            && forall k | end <= k < |stream| :: r.value.got[k] == rx.got[k]
  {
    assert StopsInTime(c, stream, rx, n) by {
      assert rx.got[n + 1] == NOTHING;
    }
    MessageArrives(c, stream, rx, n);
    hide ReceiveOn, AllOf, InTime, StopsInTime, Complete, Faithful, Drained, HasHead, HasBody;
    var r := ReceiveOn(c, rx, AllOf(c, stream, n)).value;
    assert forall k | 0 <= k < |stream| && k != n :: r.got[k] == rx.got[k];
    CompleteIsHandedOn(c, stream, r, n);
    NothingIsNotHandedOn(c, stream, r, n + 1);
  }

  /** The messages from `n` on, up to but without `upTo`, one after the other. */
  function AllFrom(c: Codec, stream: seq<Message>, n: nat, upTo: nat): seq<Arriving>
    requires n <= upTo <= |stream| && forall m | m in stream :: Sendable(Encode(c, m))
  {
    if n == upTo then [] else AllFrom(c, stream, n, upTo - 1) + AllOf(c, stream, upTo - 1)
  }

  /** From `rx` on, these arrive in time, and exactly the messages before `upTo` are handed on then. */
  ghost predicate Gets(c: Codec, stream: seq<Message>, rx: Receiver, arrivals: seq<Arriving>, upTo: nat, end: nat)
    requires Valid(rx.window) && |rx.got| == |stream|
  {
    var r := ReceiveOn(c, rx, arrivals);
    && r.Some? && InTime(c, rx, arrivals)
    && At(c, stream, r.value, upTo, end)
    && forall k | end <= k < |stream| :: r.value.got[k] == rx.got[k]
  }

  lemma GetsOneMore(c: Codec, stream: seq<Message>, rx: Receiver, arrivals: seq<Arriving>, n: nat, end: nat)
    requires Valid(rx.window) && |rx.got| == |stream| && Gets(c, stream, rx, arrivals, n, end) && n + 1 < end
    ensures StreamOk(c, stream) && end <= |stream|
    ensures Gets(c, stream, rx, arrivals + AllOf(c, stream, n), n + 1, end)
  {
    var reached := ReceiveOn(c, rx, arrivals).value;
    AtIsValid(c, stream, reached, n, end);
    hide At, ReceiveOn, InTime, AllOf;
    NextArrives(c, stream, reached, n, end);
    ReceiveInPieces(c, rx, arrivals, AllOf(c, stream, n));
  }

  lemma GetsNothing(c: Codec, stream: seq<Message>, rx: Receiver, n: nat, end: nat)
    requires Valid(rx.window) && |rx.got| == |stream| && At(c, stream, rx, n, end)
    ensures Gets(c, stream, rx, [], n, end)
  {
  }

  lemma AllFromLast(c: Codec, stream: seq<Message>, n: nat, upTo: nat)
    requires n <= upTo <= |stream| && StreamOk(c, stream)
    ensures AllFrom(c, stream, n, n) == []
    ensures n < upTo ==> AllFrom(c, stream, n, upTo) == AllFrom(c, stream, n, upTo - 1) + AllOf(c, stream, upTo - 1)
  {
    hide AllOf;
  }

  lemma {:induction false} ManyArrive(c: Codec, stream: seq<Message>, rx: Receiver, n: nat, upTo: nat, end: nat)
    requires At(c, stream, rx, n, end) && n <= upTo < end
    ensures Gets(c, stream, rx, AllFrom(c, stream, n, upTo), upTo, end)
    decreases upTo
  {
    hide *;
    AtIsValid(c, stream, rx, n, end);
    AllFromLast(c, stream, n, upTo);
    if n == upTo {
      GetsNothing(c, stream, rx, n, end);
    } else {
      ManyArrive(c, stream, rx, n, upTo - 1, end);
      GetsOneMore(c, stream, rx, AllFrom(c, stream, n, upTo - 1), upTo - 1, end);
    }
  }

  // ----- one message too old -----

  /** How many messages have been handed on when the first one becomes too old. */
  const TOO_OLD: nat := MAX_AGE + 1

  /** A message that fills the last slot of the window does not move it. */
  lemma LastSlotWaits(c: Codec, stream: seq<Message>, rx: Receiver)
    requires |stream| == ID_SPACE + 1 && At(c, stream, rx, TOO_OLD, ID_SPACE)
    ensures var r := ReceiveOn(c, rx, AllOf(c, stream, ID_SPACE));
            && r.Some? && At(c, stream, r.value, TOO_OLD, ID_SPACE)
            && Complete(Encode(c, stream[ID_SPACE]), r.value.got[ID_SPACE])
  {
    MessageArrives(c, stream, rx, ID_SPACE);
    var r := ReceiveOn(c, rx, AllOf(c, stream, ID_SPACE)).value;
    assert r.got[TOO_OLD] == NOTHING;
  }

  /** Once the messages before it have arrived, it is handed on behind them. */
  lemma LastTwoAreHandedOn(c: Codec, stream: seq<Message>, rx: Receiver)
    requires |stream| == ID_SPACE + 1 && At(c, stream, rx, ID_SPACE - 1, ID_SPACE)
    requires Complete(Encode(c, stream[ID_SPACE]), rx.got[ID_SPACE])
    ensures var r := ReceiveOn(c, rx, AllOf(c, stream, ID_SPACE - 1));
            r.Some? && InTime(c, rx, AllOf(c, stream, ID_SPACE - 1)) && r.value.delivered == stream
  {
    MessageArrives(c, stream, rx, ID_SPACE - 1);
    var r := ReceiveOn(c, rx, AllOf(c, stream, ID_SPACE - 1)).value;
    hide ReceiveOn, AllOf, InTime, Complete, HasHead, HasBody, Drained, StreamOk;
    CompleteIsHandedOn(c, stream, r, ID_SPACE - 1);
    CompleteIsHandedOn(c, stream, r, ID_SPACE);
  }

  lemma RestArrives(c: Codec, stream: seq<Message>, rx: Receiver)
    requires |stream| == ID_SPACE + 1 && At(c, stream, rx, TOO_OLD, ID_SPACE)
    requires Complete(Encode(c, stream[ID_SPACE]), rx.got[ID_SPACE])
    ensures var rest := AllFrom(c, stream, TOO_OLD, ID_SPACE);
            var r := ReceiveOn(c, rx, rest);
            r.Some? && InTime(c, rx, rest) && r.value.delivered == stream
  {
    AtIsValid(c, stream, rx, TOO_OLD, ID_SPACE);
    ManyArrive(c, stream, rx, TOO_OLD, ID_SPACE - 1, ID_SPACE);
    var before := AllFrom(c, stream, TOO_OLD, ID_SPACE - 1);
    hide At, ReceiveOn, InTime, AllOf, Complete;
    LastTwoAreHandedOn(c, stream, ReceiveOn(c, rx, before).value);
    ReceiveInPieces(c, rx, before, AllOf(c, stream, ID_SPACE - 1));
  }

  lemma {:induction false} SameArrivals(c: Codec, stream: seq<Message>, more: seq<Message>, n: nat, upTo: nat)
    requires StreamOk(c, stream + more) && n <= upTo <= |stream|
    ensures forall m | m in stream :: m in stream + more
    ensures AllFrom(c, stream + more, n, upTo) == AllFrom(c, stream, n, upTo)
    ensures forall a | a in AllFrom(c, stream, n, upTo) :: HonestSegment(c, stream, a.segment, a.number)
  {
    assert forall m | m in stream :: m in stream + more;
    if n < upTo {
      SameArrivals(c, stream, more, n, upTo - 1);
      WholeMessageIsWhole(c, stream, upTo - 1);
    }
  }

  /** The segments of the first message, with the ids that they were sent with. */
  function OldOnes(c: Codec, stream: seq<Message>): seq<Arriving>
    requires stream != [] && Sendable(Encode(c, stream[0]))
  {
    ArrivalsFor(IdOf(0), 0, WholeMessage(c, stream, 0))
  }

  lemma StartIsAt(c: Codec, stream: seq<Message>, end: nat)
    requires StreamOk(c, stream) && end <= |stream|
    ensures At(c, stream, Start(stream), 0, end)
  {
    StartIsFaithful(c, stream);
  }

  lemma AtIsPrefix(c: Codec, stream: seq<Message>, rx: Receiver, n: nat, end: nat)
    requires At(c, stream, rx, n, end)
    ensures n <= |stream| && rx.delivered == stream[..n]
  {
  }

  /**
   * From `start` on, `early` arrive in time and get `first` handed on, `late` get nothing more handed on,
   * and `rest` arrive in time and get all of `last` handed on.
   */
  predicate Unfolds(c: Codec, start: Receiver, early: seq<Arriving>, late: seq<Arriving>, rest: seq<Arriving>,
                    first: seq<Message>, last: seq<Message>)
    requires Valid(start.window)
  {
    var r1 := ReceiveOn(c, start, early);
    && r1.Some? && InTime(c, start, early) && r1.value.delivered == first
    && var r2 := ReceiveOn(c, r1.value, late);
    && r2.Some? && r2.value.delivered == first
    && var r3 := ReceiveOn(c, r2.value, rest);
    && r3.Some? && InTime(c, r2.value, rest) && r3.value.delivered == last
  }

  lemma UnfoldsAlike(c: Codec, start: Receiver, start': Receiver, early: seq<Arriving>, late: seq<Arriving>,
                     late': seq<Arriving>, rest: seq<Arriving>, first: seq<Message>, last: seq<Message>)
    requires Valid(start.window) && Alike(start, start') && SameSegments(late, late')
    requires Unfolds(c, start', early, late', rest, first, last)
    ensures Unfolds(c, start, early, late, rest, first, last)
  {
    hide ReceiveOn, InTime, SameSegments;
    assert SameSegments(early, early) && SameSegments(rest, rest) by { AreSameSegments(early); AreSameSegments(rest); }
    RecordsMakeNoDifference(c, start, start', early, early);
    var r1, r1' := ReceiveOn(c, start, early).value, ReceiveOn(c, start', early).value;
    RecordsMakeNoDifference(c, r1, r1', late, late');
    var r2, r2' := ReceiveOn(c, r1, late).value, ReceiveOn(c, r1', late').value;
    RecordsMakeNoDifference(c, r2, r2', rest, rest);
  }

  lemma AreSameSegments(arrivals: seq<Arriving>)
    ensures SameSegments(arrivals, arrivals)
  {
  }

  lemma UnfoldsInOne(c: Codec, start: Receiver, early: seq<Arriving>, late: seq<Arriving>, rest: seq<Arriving>,
                     first: seq<Message>, last: seq<Message>)
    requires Valid(start.window) && Unfolds(c, start, early, late, rest, first, last)
    ensures var r := ReceiveOn(c, start, early + late + rest);
            r.Some? && r.value.delivered == last
  {
    hide ReceiveOn, InTime;
    ReceiveInPieces(c, start, early, late);
    ReceiveInPieces(c, start, early + late, rest);
  }

  /** A stream of one message more, of which the last one arrives 15 messages early. */
  lemma LastArrivesEarly(c: Codec, stream: seq<Message>)
    requires StreamOk(c, stream) && |stream| == ID_SPACE + 1
    ensures Unfolds(c, Start(stream), AllFrom(c, stream, 0, TOO_OLD), AllOf(c, stream, ID_SPACE),
                    AllFrom(c, stream, TOO_OLD, ID_SPACE), stream[..TOO_OLD], stream)
  {
    StartIsAt(c, stream, ID_SPACE);
    ManyArrive(c, stream, Start(stream), 0, TOO_OLD, ID_SPACE);
    hide At, ReceiveOn, InTime, AllOf, AllFrom, Complete;
    var r1 := ReceiveOn(c, Start(stream), AllFrom(c, stream, 0, TOO_OLD)).value;
    AtIsPrefix(c, stream, r1, TOO_OLD, ID_SPACE);
    LastSlotWaits(c, stream, r1);
    var r2 := ReceiveOn(c, r1, AllOf(c, stream, ID_SPACE)).value;
    AtIsPrefix(c, stream, r2, TOO_OLD, ID_SPACE);
    RestArrives(c, stream, r2);
  }

  /** The old ones carry the segments that one more message behind the stream, the first again, would have. */
  lemma OldOnesLookNew(c: Codec, stream: seq<Message>)
    requires |stream| == ID_SPACE && StreamOk(c, stream + [stream[0]]) && Sendable(Encode(c, stream[0]))
    ensures Sendable(Encode(c, (stream + [stream[0]])[ID_SPACE]))
    ensures SameSegments(OldOnes(c, stream), AllOf(c, stream + [stream[0]], ID_SPACE))
  {
  }

  lemma OldOnesAreHonest(c: Codec, stream: seq<Message>)
    requires stream != [] && Sendable(Encode(c, stream[0]))
    ensures forall a | a in OldOnes(c, stream) :: HonestSegment(c, stream, a.segment, a.number) && a.number == 0
  {
    WholeMessageIsWhole(c, stream, 0);
  }

  lemma LongerIsOk(c: Codec, stream: seq<Message>)
    requires StreamOk(c, stream) && stream != []
    ensures StreamOk(c, stream + [stream[0]]) && (forall m | m in stream :: Sendable(Encode(c, m)))
    ensures Valid(Start(stream).window) && Alike(Start(stream), Start(stream + [stream[0]]))
  {
    assert stream[0] in stream;
  }

  /**
   * For every stream of 65536 messages: when the first 65521 have arrived in time and been handed on, and
   * then the segments of the first, which is one message too old, and then those of the others, all in
   * time, the receiver hands the first message on again, behind the stream.
   */
  lemma OneTooOldIsHandedOnAgain(c: Codec, stream: seq<Message>)
    returns (early: seq<Arriving>, late: seq<Arriving>, rest: seq<Arriving>)
    requires StreamOk(c, stream) && |stream| == ID_SPACE
    ensures forall a | a in early + late + rest :: HonestSegment(c, stream, a.segment, a.number)
    ensures forall a | a in late :: a.number == 0
    ensures Unfolds(c, Start(stream), early, late, rest, stream[..MAX_AGE + 1], stream + [stream[0]])
    ensures var r := ReceiveAll(c, stream, early + late + rest);
            r.Some? && r.value.delivered == stream + [stream[0]]
  {
    hide Unfolds, OldOnes, AllOf, AllFrom, HonestSegment, ReceiveOn, ReceiveAll, SameSegments;
    hide StreamOk, Encode, Sendable, Alike, Start, Valid;
    var longer := stream + [stream[0]];
    LongerIsOk(c, stream);
    early, late := AllFrom(c, stream, 0, TOO_OLD), OldOnes(c, stream);
    rest := AllFrom(c, stream, TOO_OLD, ID_SPACE);
    OldOnesAreHonest(c, stream);
    SameArrivals(c, stream, [stream[0]], 0, TOO_OLD);
    SameArrivals(c, stream, [stream[0]], TOO_OLD, ID_SPACE);
    OldOnesLookNew(c, stream);
    LastArrivesEarly(c, longer);
    assert longer[..TOO_OLD] == stream[..TOO_OLD];
    UnfoldsAlike(c, Start(stream), Start(longer), early, late, AllOf(c, longer, ID_SPACE), rest,
                 stream[..TOO_OLD], longer);
    UnfoldsInOne(c, Start(stream), early, late, rest, stream[..TOO_OLD], longer);
    ReceiveAllIsFromStart(c, stream, early + late + rest);
  }
}
