/**
 * A receiver fed with segments of an honest stream of messages, in any order and with any
 * repetition, hands the messages on in stream order, whatever the 16-bit ids wrap around to.
 */
module Delivery {
  import opened Packet
  import opened Fragments
  import opened Reassembly
  import opened Confluence
  import opened Codecs
  import opened Windows

  /** The receiver: its window, what it has handed on, and (for the record) which segments it has let in. */
  datatype Receiver = Receiver(window: Window, delivered: seq<Message>, got: seq<Received>)

  ghost predicate StreamOk(c: Codec, stream: seq<Message>) {
    Lossless(c) && forall m | m in stream :: Sendable(Encode(c, m))
  }

  /** The oldest age, in messages, at which the id of a delivered message is not yet taken for a new one. */
  const MAX_AGE: nat := ID_SPACE - MARGIN_OF_OUT_OF_ORDER_ALLOWED

  /** The message is neither so old nor so far ahead that its id is ambiguous. */
  predicate InReach(delivered: nat, number: nat) {
    delivered <= number + MAX_AGE && number < delivered + ID_SPACE
  }

  /** A segment arrives, which is on record as one of message `number`, and the reader drains the window. */
  function Deliver(c: Codec, rx: Receiver, segment: MessageSegment, number: nat): (r: Receiver)
    requires Valid(rx.window) && Accept(rx.window, segment).Some?
    ensures Valid(r.window)
  {
    var (window, messages) := Drain(c, Accept(rx.window, segment).value);
    Receiver(window, rx.delivered + messages, Record(rx, segment, number))
  }

  function Record(rx: Receiver, segment: MessageSegment, number: nat): seq<Received> {
    if number < |rx.got| && number < |rx.delivered| + MARGIN_OF_OUT_OF_ORDER_ALLOWED
    then rx.got[number := Mark(rx.got[number], segment.payload)] else rx.got
  }

  // ----- the invariant -----

  ghost function ExpectedSlot(c: Codec, stream: seq<Message>, got: seq<Received>, number: nat): Slot
    requires StreamOk(c, stream) && |got| == |stream|
  {
    if number < |stream| then Canonical(Encode(c, stream[number]), got[number]) else None
  }

  /** What has been handed on is a prefix of the stream, and every slot is canonical for its message. */
  ghost predicate Faithful(c: Codec, stream: seq<Message>, rx: Receiver)
    requires StreamOk(c, stream)
  {
    && Valid(rx.window)
    && |rx.got| == |stream|
    && |rx.delivered| <= |stream|
    && rx.delivered == stream[..|rx.delivered|]
    && rx.window.currentMessageId == IdOf(|rx.delivered|)
    && (forall k | 0 <= k < MARGIN_OF_OUT_OF_ORDER_ALLOWED ::
          rx.window.slots[k] == ExpectedSlot(c, stream, rx.got, |rx.delivered| + k))
    && (forall number | 0 <= number < |stream| :: Plausible(Encode(c, stream[number]), rx.got[number]))
    && (forall number | 0 <= number < |rx.delivered| :: Complete(Encode(c, stream[number]), rx.got[number]))
    && (forall number | |rx.delivered| + MARGIN_OF_OUT_OF_ORDER_ALLOWED <= number < |stream| ::
          rx.got[number] == NOTHING)
  }

  /** The reader never stops while the next message is complete. */
  ghost predicate Drained(c: Codec, stream: seq<Message>, rx: Receiver)
    requires |rx.got| == |stream|
  {
    |rx.delivered| < |stream| ==>
      !Complete(Encode(c, stream[|rx.delivered|]), rx.got[|rx.delivered|])
  }

  // ----- one arrival -----

  /** Exactly the next 16 messages, and those a full turn of ids old, land in the window. */
  lemma LandsInWindowExactly(delivered: nat, number: nat)
    requires number < delivered + ID_SPACE && delivered <= number + ID_SPACE
    ensures WrappingSub(IdOf(number), IdOf(delivered)) < MARGIN_OF_OUT_OF_ORDER_ALLOWED
       <==> delivered <= number < delivered + 16 || delivered > number + 65520
  {
    hide WrappingSub, IdOf;
    IdDistance(number, delivered);
  }

  /** Segments of messages handed on lately, or of messages beyond the window, change nothing. */
  lemma OutsideWindowIsIgnored(w: Window, delivered: nat, number: nat, payload: MessagePayload)
    requires Valid(w) && w.currentMessageId == IdOf(delivered)
    requires InReach(delivered, number)
    requires number < delivered || delivered + MARGIN_OF_OUT_OF_ORDER_ALLOWED <= number
    ensures Accept(w, MessageSegment(IdOf(number), payload)) == Some(w)
  {
  }

  lemma MarkOfComplete(m: Encoded, got: Received, payload: MessagePayload)
    requires Complete(m, got) && SegmentOf(m, payload)
    ensures Mark(got, payload) == got
  {
  }

  ghost function Arrival(rx: Receiver, segment: MessageSegment, number: nat): Receiver
    requires Valid(rx.window) && Accept(rx.window, segment).Some?
  {
    rx.(window := Accept(rx.window, segment).value, got := Record(rx, segment, number))
  }

  /** A segment that the sender of the stream may have sent for message `number`. */
  ghost predicate HonestSegment(c: Codec, stream: seq<Message>, segment: MessageSegment, number: nat) {
    number < |stream| && segment.id == IdOf(number) && SegmentOf(Encode(c, stream[number]), segment.payload)
  }

  /** An honest segment of a message in the window takes its slot to the next canonical one. */
  lemma InsideWindowIsMarked(c: Codec, stream: seq<Message>, rx: Receiver, segment: MessageSegment, number: nat)
    requires StreamOk(c, stream) && Faithful(c, stream, rx)
    requires HonestSegment(c, stream, segment, number)
    requires |rx.delivered| <= number < |rx.delivered| + MARGIN_OF_OUT_OF_ORDER_ALLOWED
    ensures var m := Encode(c, stream[number]);
            var got := Mark(rx.got[number], segment.payload);
            && Plausible(m, got)
            && Accept(rx.window, segment)
            == Some(rx.window.(slots := rx.window.slots[number - |rx.delivered| := Canonical(m, got)]))
  {
    hide Canonical, SegmentStep, Mark, Complete, Encode, Sendable;
    var r := |rx.delivered|;
    IdDistance(number, r);
    assert rx.window.slots[number - r] == ExpectedSlot(c, stream, rx.got, r + (number - r));
    SegmentIsConfluent(Encode(c, stream[number]), rx.got[number], segment.payload);
  }

  lemma MarkIsFaithful(c: Codec, stream: seq<Message>, rx: Receiver, number: nat, got: Received)
    requires StreamOk(c, stream) && Faithful(c, stream, rx)
    requires |rx.delivered| <= number < |stream| && number < |rx.delivered| + MARGIN_OF_OUT_OF_ORDER_ALLOWED
    requires Plausible(Encode(c, stream[number]), got)
    ensures var slot := Canonical(Encode(c, stream[number]), got);
            Faithful(c, stream, rx.(window := rx.window.(slots := rx.window.slots[number - |rx.delivered| := slot]),
                                    got := rx.got[number := got]))
  {
    hide Encode, Canonical, Sendable, Lossless;
  }

  lemma OutsideWindowKeepsReceiver(c: Codec, stream: seq<Message>, rx: Receiver, segment: MessageSegment, number: nat)
    requires StreamOk(c, stream) && Faithful(c, stream, rx)
    requires HonestSegment(c, stream, segment, number) && InReach(|rx.delivered|, number)
    requires number < |rx.delivered| || |rx.delivered| + MARGIN_OF_OUT_OF_ORDER_ALLOWED <= number
    ensures Accept(rx.window, segment).Some? && Arrival(rx, segment, number) == rx
  {
    OutsideWindowIsIgnored(rx.window, |rx.delivered|, number, segment.payload);
    if number < |rx.delivered| {
      MarkOfComplete(Encode(c, stream[number]), rx.got[number], segment.payload);
      assert rx.got[number := rx.got[number]] == rx.got;
    }
  }

  lemma ArrivalIsFaithful(c: Codec, stream: seq<Message>, rx: Receiver, segment: MessageSegment, number: nat)
    requires StreamOk(c, stream) && Faithful(c, stream, rx)
    requires HonestSegment(c, stream, segment, number) && InReach(|rx.delivered|, number)
    ensures Accept(rx.window, segment).Some?
    ensures Faithful(c, stream, Arrival(rx, segment, number))
  {
    var r := |rx.delivered|;
    if r <= number < r + MARGIN_OF_OUT_OF_ORDER_ALLOWED {
      InsideWindowIsMarked(c, stream, rx, segment, number);
      MarkIsFaithful(c, stream, rx, number, Mark(rx.got[number], segment.payload));
    } else {
      OutsideWindowKeepsReceiver(c, stream, rx, segment, number);
    }
  }

  // ----- draining -----

  /** The front message is finished exactly when it is complete, and is then handed on unaltered. */
  lemma TakeIsFaithful(c: Codec, stream: seq<Message>, rx: Receiver)
    requires StreamOk(c, stream) && Faithful(c, stream, rx)
    ensures Drained(c, stream, rx) ==> NextMessage(c, rx.window) == (rx.window, None)
    ensures !Drained(c, stream, rx) ==>
              var r := |rx.delivered|;
              var next := Window(WrappingAdd(rx.window.currentMessageId, 1), Shift(rx.window.slots));
              NextMessage(c, rx.window) == (next, Some((rx.window.currentMessageId, stream[r])))
  {
    var r := |rx.delivered|;
    assert rx.window.slots[0] == ExpectedSlot(c, stream, rx.got, r + 0);
    if r < |stream| {
      EncodeThenInflate(c, stream[r]);
      FinishedExactlyWhenComplete(Encode(c, stream[r]), rx.got[r]);
    }
  }

  /** For every message `is_finished` tells whether it is one of the next 16 and all of it has arrived. */
  lemma FinishedAtIsComplete(c: Codec, stream: seq<Message>, rx: Receiver, number: nat)
    requires StreamOk(c, stream) && Faithful(c, stream, rx) && InReach(|rx.delivered|, number)
    ensures FinishedAt(rx.window, IdOf(number)) <==>
              |rx.delivered| <= number < |rx.delivered| + MARGIN_OF_OUT_OF_ORDER_ALLOWED && number < |stream|
              && Complete(Encode(c, stream[number]), rx.got[number])
  {
    hide Canonical, Finished, Complete, Encode, Sendable, Lossless;
    var r := |rx.delivered|;
    LandsInWindowExactly(r, number);
    if r <= number < r + MARGIN_OF_OUT_OF_ORDER_ALLOWED {
      IdDistance(number, r);
      assert rx.window.slots[number - r] == ExpectedSlot(c, stream, rx.got, r + (number - r));
      if number < |stream| {
        FinishedExactlyWhenComplete(Encode(c, stream[number]), rx.got[number]);
      } else {
        EmptyIsNotFinished();
      }
    }
  }

  lemma EmptyIsNotFinished()
    ensures !Finished(None)
  {
  }

  lemma ShiftIsFaithful(c: Codec, stream: seq<Message>, rx: Receiver)
    requires StreamOk(c, stream) && Faithful(c, stream, rx) && !Drained(c, stream, rx)
    ensures var next := Window(WrappingAdd(rx.window.currentMessageId, 1), Shift(rx.window.slots));
            Faithful(c, stream, rx.(window := next, delivered := rx.delivered + [stream[|rx.delivered|]]))
  {
    hide Encode, Sendable, Lossless, Plausible;
    var r := |rx.delivered|;
    var next := Window(WrappingAdd(rx.window.currentMessageId, 1), Shift(rx.window.slots));
    IdOfSuccessor(r);
    forall k | 0 <= k < MARGIN_OF_OUT_OF_ORDER_ALLOWED
      ensures next.slots[k] == ExpectedSlot(c, stream, rx.got, r + 1 + k)
    {
      if k + 1 < MARGIN_OF_OUT_OF_ORDER_ALLOWED {
        assert rx.window.slots[k + 1] == ExpectedSlot(c, stream, rx.got, r + (k + 1));
      }
    }
  }

  lemma FaithfulIsValid(c: Codec, stream: seq<Message>, rx: Receiver)
    requires StreamOk(c, stream) && Faithful(c, stream, rx)
    ensures Valid(rx.window) && |rx.got| == |stream|
  {
  }

  lemma DrainStops(c: Codec, w: Window)
    requires Valid(w) && NextMessage(c, w) == (w, None)
    ensures Drain(c, w) == (w, [])
  {
  }

  lemma DrainGoesOn(c: Codec, w: Window, next: Window, id: MessageId, message: Message)
    requires Valid(w) && NextMessage(c, w) == (next, Some((id, message)))
    ensures Valid(next) && Drain(c, w) == (Drain(c, next).0, [message] + Drain(c, next).1)
  {
    hide NextMessage;
  }

  /** Draining hands on the complete messages at the front, all of them, and nothing else. */
  lemma {:induction false} DrainIsFaithful(c: Codec, stream: seq<Message>, rx: Receiver)
    requires StreamOk(c, stream) && Faithful(c, stream, rx)
    ensures var (window, messages) := Drain(c, rx.window);
            var after := rx.(window := window, delivered := rx.delivered + messages);
            Faithful(c, stream, after) && Drained(c, stream, after)
    decreases |stream| - |rx.delivered|
  {
    hide Faithful, NextMessage, Drain, Shift, WrappingAdd, StreamOk, Complete;
    TakeIsFaithful(c, stream, rx);
    FaithfulIsValid(c, stream, rx);
    if Drained(c, stream, rx) {
      DrainStops(c, rx.window);
      assert rx.delivered + [] == rx.delivered;
    } else {
      ShiftIsFaithful(c, stream, rx);
      var next := Window(WrappingAdd(rx.window.currentMessageId, 1), Shift(rx.window.slots));
      var front := stream[|rx.delivered|];
      DrainGoesOn(c, rx.window, next, rx.window.currentMessageId, front);
      var taken := rx.(window := next, delivered := rx.delivered + [front]);
      DrainIsFaithful(c, stream, taken);
      assert rx.delivered + ([front] + Drain(c, next).1) == taken.delivered + Drain(c, next).1;
    }
  }

  /** One arrival of an honest segment, followed by the drain loop, keeps everything in order. */
  lemma DeliverIsFaithful(c: Codec, stream: seq<Message>, rx: Receiver, segment: MessageSegment, number: nat)
    requires StreamOk(c, stream) && Faithful(c, stream, rx)
    requires HonestSegment(c, stream, segment, number) && InReach(|rx.delivered|, number)
    ensures Accept(rx.window, segment).Some?
    ensures var after := Deliver(c, rx, segment, number);
            && Faithful(c, stream, after) && Drained(c, stream, after)
            && rx.delivered <= after.delivered
  {
    ArrivalIsFaithful(c, stream, rx, segment, number);
    DrainIsFaithful(c, stream, Arrival(rx, segment, number));
  }

  // ----- whole runs -----

  datatype Arriving = Arriving(segment: MessageSegment, number: nat)

  function Start(stream: seq<Message>): Receiver {
    Receiver(EmptyWindow(), [], seq(|stream|, _ => NOTHING))
  }

  /** The receiver after a whole sequence of arrivals; `None` once it has panicked. */
  function ReceiveAll(c: Codec, stream: seq<Message>, arrivals: seq<Arriving>): (r: Option<Receiver>)
    ensures r.Some? ==> Valid(r.value.window)
  {
    if arrivals == [] then
      Some(Start(stream))
    else
      var a := arrivals[|arrivals| - 1];
      match ReceiveAll(c, stream, arrivals[..|arrivals| - 1])
      case None => None
      case Some(rx) =>
        if Accept(rx.window, a.segment).Some?
        then Some(Deliver(c, rx, a.segment, a.number)) else None
  }

  /** All segments are honest ones of the stream, and each arrives while its id is unambiguous. */
  ghost predicate HonestArrivals(c: Codec, stream: seq<Message>, arrivals: seq<Arriving>) {
    arrivals != [] ==>
      var a := arrivals[|arrivals| - 1];
      var before := ReceiveAll(c, stream, arrivals[..|arrivals| - 1]);
      && HonestArrivals(c, stream, arrivals[..|arrivals| - 1])
      && HonestSegment(c, stream, a.segment, a.number)
      && (before.Some? ==> InReach(|before.value.delivered|, a.number))
  }

  lemma StartIsFaithful(c: Codec, stream: seq<Message>)
    requires StreamOk(c, stream)
    ensures Faithful(c, stream, Start(stream)) && Drained(c, stream, Start(stream))
  {
  }

  /** However the segments are interleaved, what has been handed on is always a prefix of the stream. */
  lemma {:induction false} DeliveryIsInOrder(c: Codec, stream: seq<Message>, arrivals: seq<Arriving>)
    requires StreamOk(c, stream) && HonestArrivals(c, stream, arrivals)
    ensures var r := ReceiveAll(c, stream, arrivals);
            && r.Some?
            && r.value.delivered <= stream
            && Faithful(c, stream, r.value) && Drained(c, stream, r.value)
  {
    if arrivals == [] {
      StartIsFaithful(c, stream);
    } else {
      var a := arrivals[|arrivals| - 1];
      DeliveryIsInOrder(c, stream, arrivals[..|arrivals| - 1]);
      var before := ReceiveAll(c, stream, arrivals[..|arrivals| - 1]).value;
      DeliverIsFaithful(c, stream, before, a.segment, a.number);
    }
  }

  /** What has been handed on is the longest prefix of the stream of which every segment has been let in. */
  lemma DeliveredIsLongestCompletePrefix(c: Codec, stream: seq<Message>, rx: Receiver, n: nat)
    requires StreamOk(c, stream) && Faithful(c, stream, rx) && Drained(c, stream, rx)
    requires n <= |stream|
    ensures stream[..n] <= rx.delivered
       <==> forall i | 0 <= i < n :: Complete(Encode(c, stream[i]), rx.got[i])
  {
  }

  /** Past the age limit a segment does get in: the head of a message 65521 back claims the last slot. */
  lemma TooOldIsTakenForNew(w: Window, number: nat, bodyCount: NonZeroU16, compression: bool)
    requires Valid(w) && w.currentMessageId == IdOf(number + MAX_AGE + 1)
    requires w.slots[MARGIN_OF_OUT_OF_ORDER_ALLOWED - 1] == None
    ensures Accept(w, MessageSegment(IdOf(number), Head(bodyCount, compression))) != Some(w)
  {
  }
}
