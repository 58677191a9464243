/**
 * Runs of a receiver over arbitrary segments, honest or not: every slot of the window is what an
 * assembler for that one message would hold.
 */
module Interference {
  import opened Packet
  import opened Fragments
  import opened Reassembly
  import opened Confluence
  import opened Limits
  import opened Codecs
  import opened Windows

  datatype Event = Arrive(segment: MessageSegment) | Take

  /** A window, how many messages have left it since the start, and how many of them did not decompress. */
  datatype State = State(window: Window, dequeued: nat, failed: nat)

  /**
   * `None` once the task has panicked; a message that does not decompress or does not decode is lost, and
   * the task runs on.
   */
  function Step(c: Codec, s: State, e: Event): (r: Option<State>)
    requires Valid(s.window)
    ensures r.Some? ==> Valid(r.value.window)
  {
    match e
    case Arrive(segment) =>
      (match Accept(s.window, segment)
       case None => None
       case Some(w) => Some(s.(window := w)))
    case Take =>
      var w := NextMessage(c, s.window).0;
      var front := s.window.slots[0];
      if Finished(front) then
        var failed := front.value.compression && c.decompress(front.value.bodies).None?;
        Some(State(w, s.dequeued + 1, if failed then s.failed + 1 else s.failed))
      else
        Some(s.(window := w))
  }

  function Run(c: Codec, events: seq<Event>): (r: Option<State>)
    ensures r.Some? ==> Valid(r.value.window)
  {
    if events == [] then
      Some(State(EmptyWindow(), 0, 0))
    else
      match Run(c, events[..|events| - 1])
      case None => None
      case Some(s) => Step(c, s, events[|events| - 1])
  }

  /**
   * The event brings a segment to the slot of the message with this number, counting the messages as they
   * leave the window. As long as none has failed, that is the message whose id the segment carries.
   */
  predicate Addresses(s: State, e: Event, number: nat) {
    e.Arrive?
    && WrappingSub(e.segment.id, s.window.currentMessageId) < MARGIN_OF_OUT_OF_ORDER_ALLOWED
    && number == s.dequeued + WrappingSub(e.segment.id, s.window.currentMessageId)
  }

  /** The segments of one message out of a whole run, in the order of their arrival. */
  function Addressed(c: Codec, events: seq<Event>, number: nat): seq<MessagePayload> {
    if events == [] then
      []
    else
      var before := events[..|events| - 1];
      var e := events[|events| - 1];
      var earlier := Addressed(c, before, number);
      var s := Run(c, before);
      if s.Some? && Addresses(s.value, e, number) then earlier + [e.segment.payload] else earlier
  }

  ghost predicate HoldsItsOwn(c: Codec, events: seq<Event>, s: State, k: nat)
    requires k < |s.window.slots|
  {
    Alone(Addressed(c, events, s.dequeued + k)) == Slot(s.window.slots[k])
  }

  /** Each slot is what the segments of its message make of an empty slot; nothing lies beyond the window. */
  ghost predicate Separate(c: Codec, events: seq<Event>, s: State)
    requires Valid(s.window)
  {
    && (forall k | 0 <= k < MARGIN_OF_OUT_OF_ORDER_ALLOWED :: HoldsItsOwn(c, events, s, k))
    && (forall number | s.dequeued + MARGIN_OF_OUT_OF_ORDER_ALLOWED <= number ::
          Addressed(c, events, number) == [])
  }

  /**
   * Every slot holds exactly what the segments of its own message make of an empty slot: no other
   * message has had any influence on it, and taking a message only shifts the window.
   */
  lemma {:induction false} SlotsDoNotInterfere(c: Codec, events: seq<Event>)
    requires Run(c, events).Some?
    ensures Separate(c, events, Run(c, events).value)
  {
    if events != [] {
      var before := events[..|events| - 1];
      var e := events[|events| - 1];
      assert before + [e] == events;
      SlotsDoNotInterfere(c, before);
      var s := Run(c, before).value;
      if e.Arrive? {
        ArrivalKeepsSeparate(c, before, e, s, Run(c, events).value);
      } else {
        TakeKeepsSeparate(c, before, s, Run(c, events).value);
      }
    }
  }

  lemma AddressedAfter(c: Codec, before: seq<Event>, e: Event, s: State, number: nat)
    requires Run(c, before) == Some(s)
    ensures Addressed(c, before + [e], number)
         == Addressed(c, before, number) + if Addresses(s, e, number) then [e.segment.payload] else []
  {
  }

  /** An arrival steps the slot that it addresses, if there is one, and leaves all others as they are. */
  ghost predicate Touches(s: State, e: Event, t: State, k: nat)
    requires Valid(s.window) && Valid(t.window) && e.Arrive? && k < MARGIN_OF_OUT_OF_ORDER_ALLOWED
  {
    && t.dequeued == s.dequeued
    && if Addresses(s, e, s.dequeued + k)
       then SegmentStep(s.window.slots[k], e.segment.payload) == Slot(t.window.slots[k])
       else s.window.slots[k] == t.window.slots[k]
  }

  lemma ArrivalTouchesOneSlot(c: Codec, s: State, e: Event, t: State, k: nat)
    requires Valid(s.window) && e.Arrive? && Step(c, s, e) == Some(t)
    requires k < MARGIN_OF_OUT_OF_ORDER_ALLOWED
    ensures Touches(s, e, t, k)
  {
  }

  lemma AloneAddressedAfter(c: Codec, before: seq<Event>, e: Event, s: State, number: nat, slot: Slot)
    requires Run(c, before) == Some(s) && e.Arrive? && WellFormed(slot)
    requires Alone(Addressed(c, before, number)) == Slot(slot)
    ensures Alone(Addressed(c, before + [e], number))
         == if Addresses(s, e, number) then SegmentStep(slot, e.segment.payload) else Slot(slot)
  {
  }

  lemma ArrivalKeepsSlot(c: Codec, before: seq<Event>, e: Event, s: State, t: State, k: nat)
    requires Run(c, before) == Some(s) && e.Arrive? && Valid(t.window)
    requires k < MARGIN_OF_OUT_OF_ORDER_ALLOWED
    requires Touches(s, e, t, k) && HoldsItsOwn(c, before, s, k)
    ensures HoldsItsOwn(c, before + [e], t, k)
  {
    hide SegmentStep, Alone, Addressed, Run;
    AloneAddressedAfter(c, before, e, s, s.dequeued + k, s.window.slots[k]);
  }

  lemma ArrivalKeepsSeparate(c: Codec, before: seq<Event>, e: Event, s: State, t: State)
    requires Run(c, before) == Some(s) && Separate(c, before, s)
    requires e.Arrive? && Step(c, s, e) == Some(t)
    ensures Separate(c, before + [e], t)
  {
    forall k | 0 <= k < MARGIN_OF_OUT_OF_ORDER_ALLOWED ensures HoldsItsOwn(c, before + [e], t, k) {
      ArrivalTouchesOneSlot(c, s, e, t, k);
      ArrivalKeepsSlot(c, before, e, s, t, k);
    }
    ArrivalTouchesOneSlot(c, s, e, t, 0);
    forall number | s.dequeued + MARGIN_OF_OUT_OF_ORDER_ALLOWED <= number
      ensures Addressed(c, before + [e], number) == []
    {
      AddressedAfter(c, before, e, s, number);
    }
  }

  lemma TakeShiftsOrStays(c: Codec, s: State, t: State)
    requires Valid(s.window) && Step(c, s, Take) == Some(t)
    ensures t == s || (t.window.slots == Shift(s.window.slots) && t.dequeued == s.dequeued + 1)
  {
  }

  lemma ShiftKeepsSeparate(c: Codec, before: seq<Event>, after: seq<Event>, s: State, t: State)
    requires Valid(s.window) && Valid(t.window) && Separate(c, before, s)
    requires t == s || (t.window.slots == Shift(s.window.slots) && t.dequeued == s.dequeued + 1)
    requires forall number: nat :: Addressed(c, after, number) == Addressed(c, before, number)
    ensures Separate(c, after, t)
  {
    assert Alone([]) == Slot(None);
    hide Run, Alone;
    forall k | 0 <= k < MARGIN_OF_OUT_OF_ORDER_ALLOWED ensures HoldsItsOwn(c, after, t, k) {
      if t == s {
        assert HoldsItsOwn(c, before, s, k);
      } else if k + 1 < MARGIN_OF_OUT_OF_ORDER_ALLOWED {
        assert HoldsItsOwn(c, before, s, k + 1);
        assert t.dequeued + k == s.dequeued + (k + 1);
      } else {
        assert Addressed(c, before, t.dequeued + k) == [];
      }
    }
  }

  lemma TakeKeepsSeparate(c: Codec, before: seq<Event>, s: State, t: State)
    requires Run(c, before) == Some(s) && Separate(c, before, s)
    requires Step(c, s, Take) == Some(t)
    ensures Separate(c, before + [Take], t)
  {
    TakeShiftsOrStays(c, s, t);
    forall number: nat ensures Addressed(c, before + [Take], number) == Addressed(c, before, number) {
      AddressedAfter(c, before, Take, s, number);
    }
    ShiftKeepsSeparate(c, before, before + [Take], s, t);
  }

  // ----- ids, and buffers that do not decompress -----

  /**
   * In every run the current id lags behind the window by the number of buffers that did not decompress;
   * a message that decompresses and does not decode never shifts the id against the window.
   */
  lemma {:induction false} IdLagsByFailures(c: Codec, events: seq<Event>)
    requires Run(c, events).Some?
    ensures var s := Run(c, events).value;
            && s.failed <= s.dequeued
            && s.window.currentMessageId == IdOf(s.dequeued - s.failed)
  {
    if events != [] {
      IdLagsByFailures(c, events[..|events| - 1]);
      var s := Run(c, events[..|events| - 1]).value;
      IdOfSuccessor(s.dequeued - s.failed);
    }
  }

  lemma LagShows(dequeued: nat, failed: nat)
    requires failed <= dequeued
    ensures IdOf(dequeued - failed) == IdOf(dequeued) <==> failed % ID_SPACE == 0
  {
  }

  /** So ids and messages agree exactly while none has failed, or a full turn of ids has. */
  lemma IdFollowsWindowExactly(c: Codec, events: seq<Event>)
    requires Run(c, events).Some?
    ensures var s := Run(c, events).value;
            s.window.currentMessageId == IdOf(s.dequeued) <==> s.failed % ID_SPACE == 0
  {
    IdLagsByFailures(c, events);
    hide Run;
    LagShows(Run(c, events).value.dequeued, Run(c, events).value.failed);
  }

  lemma RunAfter(c: Codec, before: seq<Event>, e: Event)
    requires Run(c, before).Some?
    ensures Run(c, before + [e]) == Step(c, Run(c, before).value, e)
  {
    assert (before + [e])[..|before|] == before;
  }

  /** The front of a new receiver's window holds this slot, and nothing else has happened. */
  function FrontOnly(slot: Slot): State
    requires WellFormed(slot)
    ensures Valid(FrontOnly(slot).window)
  {
    State(Window(0, [slot] + EmptyWindow().slots[1..]), 0, 0)
  }

  lemma FrontSteps(c: Codec, slot: Slot, p: MessagePayload)
    requires WellFormed(slot) && SegmentStep(slot, p).Slot?
    ensures Step(c, FrontOnly(slot), Arrive(MessageSegment(0, p))) == Some(FrontOnly(SegmentStep(slot, p).slot))
  {
    hide SegmentStep;
    assert FrontOnly(slot).window.slots[0 := SegmentStep(slot, p).slot]
        == FrontOnly(SegmentStep(slot, p).slot).window.slots;
  }

  lemma NewIsFrontOnly(c: Codec)
    ensures Run(c, []) == Some(FrontOnly(None))
  {
    assert FrontOnly(None).window.slots == EmptyWindow().slots;
  }

  /** What its two segments make of an empty slot. */
  lemma OneBodyConfluent(m: Encoded)
    requires 0 < |m.payload| <= MAX_PACKET_PAYLOAD_SIZE
    ensures SegmentStep(None, Head(1, m.compression)) == Slot(Canonical(m, Received(true, {})))
    ensures SegmentStep(Canonical(m, Received(true, {})), Body(0, m.payload)) == Slot(Canonical(m, Received(true, {0})))
    ensures var front := Canonical(m, Received(true, {0}));
            Finished(front) && front.value.bodies == m.payload && front.value.compression == m.compression
  {
    hide Canonical, Finished, HeadStep, BodyStep;
    assert Canonical(m, NOTHING) == None by { NothingIsNone(m); }
    assert Fragment(m.payload, 0) == m.payload;
    assert {} + {0} == {0};
    SegmentIsConfluent(m, NOTHING, Head(1, m.compression));
    SegmentIsConfluent(m, Received(true, {}), Body(0, m.payload));
    FinishedExactlyWhenComplete(m, Received(true, {0}));
  }

  lemma NothingIsNone(m: Encoded)
    requires Sendable(m)
    ensures Canonical(m, NOTHING) == None
  {
  }

  /** The front slot of a message that arrives in one body, once its segments have arrived on a new receiver. */
  lemma OneBodyArrives(c: Codec, m: Encoded)
    requires 0 < |m.payload| <= MAX_PACKET_PAYLOAD_SIZE
    ensures var front := Canonical(m, Received(true, {0}));
            var events := [Arrive(MessageSegment(0, Head(1, m.compression)))]
                          + [Arrive(MessageSegment(0, Body(0, m.payload)))];
            && Finished(front) && front.value.bodies == m.payload && front.value.compression == m.compression
            && Run(c, events) == Some(FrontOnly(front))
  {
    hide Run, Step, SegmentStep, Canonical, Finished, FrontOnly;
    var e1 := Arrive(MessageSegment(0, Head(1, m.compression)));
    var e2 := Arrive(MessageSegment(0, Body(0, m.payload)));
    OneBodyConfluent(m);
    NewIsFrontOnly(c);
    FrontSteps(c, None, Head(1, m.compression));
    FrontSteps(c, Canonical(m, Received(true, {})), Body(0, m.payload));
    assert [] + [e1] == [e1];
    RunAfter(c, [], e1);
    RunAfter(c, [e1], e2);
  }

  /** Two segments are enough: the head and the only body of a message that does not decompress. */
  lemma TwoSegmentsMakeIdLag(c: Codec, bytes: seq<byte>)
    requires c.decompress(bytes) == None && 0 < |bytes| <= MAX_PACKET_PAYLOAD_SIZE
    ensures var head := Arrive(MessageSegment(0, Head(1, true)));
            var body := Arrive(MessageSegment(0, Body(0, bytes)));
            Run(c, [head] + [body] + [Take]) == Some(State(EmptyWindow(), 1, 1))
  {
    var events := [Arrive(MessageSegment(0, Head(1, true)))] + [Arrive(MessageSegment(0, Body(0, bytes)))];
    OneBodyArrives(c, Encoded(bytes, true));
    RunAfter(c, events, Take);
    assert Shift(Run(c, events).value.window.slots) == EmptyWindow().slots;
  }

  /** A message that does not decode is lost, and the receiver waits for the next one under the next id. */
  lemma UndecodableIsPassedOver(c: Codec, bytes: seq<byte>)
    requires c.decode(bytes) == None && 0 < |bytes| <= MAX_PACKET_PAYLOAD_SIZE
    ensures var head := Arrive(MessageSegment(0, Head(1, false)));
            var body := Arrive(MessageSegment(0, Body(0, bytes)));
            Run(c, [head] + [body] + [Take]) == Some(State(Window(1, EmptyWindow().slots), 1, 0))
  {
    var events := [Arrive(MessageSegment(0, Head(1, false)))] + [Arrive(MessageSegment(0, Body(0, bytes)))];
    OneBodyArrives(c, Encoded(bytes, false));
    RunAfter(c, events, Take);
    assert Shift(Run(c, events).value.window.slots) == EmptyWindow().slots;
  }

  // ----- starting over after a discard -----

  lemma {:induction false} DiscardForgets(earlier: seq<MessagePayload>, later: seq<MessagePayload>)
    requires Alone(earlier) == Slot(None)
    ensures Alone(earlier + later) == Alone(later)
  {
    hide SegmentStep;
    if later == [] {
      assert earlier + later == earlier;
    } else {
      var n := |later| - 1;
      DiscardForgets(earlier, later[..n]);
      var all := earlier + later;
      assert all[..|all| - 1] == earlier + later[..n];
      assert all[|all| - 1] == later[n];
    }
  }

  /** Whatever led to the discard of a message, sending all of it honestly completes it. */
  lemma ResendAfterDiscardCompletes(m: Encoded, earlier: seq<MessagePayload>, resent: seq<MessagePayload>)
    requires Sendable(m)
    requires Alone(earlier) == Slot(None)
    requires forall p | p in resent :: SegmentOf(m, p)
    requires HasHead(resent) && forall i: u16 | i < BodyCount(m.payload) :: HasBody(resent, i)
    ensures var r := Alone(earlier + resent);
            r.Slot? && Finished(r.slot)
            && r.slot.value.bodies == m.payload && r.slot.value.compression == m.compression
  {
    DiscardForgets(earlier, resent);
    FullSendFinishes(m, resent);
  }

  /** The segments of one message among the later events of a run. */
  function AddressedSince(c: Codec, before: seq<Event>, more: seq<Event>, number: nat): seq<MessagePayload> {
    if more == [] then
      []
    else
      var earlier := AddressedSince(c, before, more[..|more| - 1], number);
      var s := Run(c, before + more[..|more| - 1]);
      if s.Some? && Addresses(s.value, more[|more| - 1], number)
      then earlier + [more[|more| - 1].segment.payload] else earlier
  }

  lemma RunOneMore(c: Codec, events: seq<Event>, e: Event, number: nat)
    requires Run(c, events + [e]).Some?
    ensures Run(c, events).Some? && Run(c, events).value.dequeued <= Run(c, events + [e]).value.dequeued
    ensures Addressed(c, events + [e], number)
         == Addressed(c, events, number)
            + if Addresses(Run(c, events).value, e, number) then [e.segment.payload] else []
  {
    assert (events + [e])[..|events|] == events;
  }

  lemma {:induction false} RunGoesOn(c: Codec, before: seq<Event>, more: seq<Event>, number: nat)
    requires Run(c, before + more).Some?
    ensures Run(c, before).Some? && Run(c, before).value.dequeued <= Run(c, before + more).value.dequeued
    ensures Addressed(c, before + more, number)
         == Addressed(c, before, number) + AddressedSince(c, before, more, number)
  {
    hide Step, Run, Addressed;
    if more == [] {
      assert before + more == before;
    } else {
      var n := |more| - 1;
      assert before + more == (before + more[..n]) + [more[n]];
      RunOneMore(c, before + more[..n], more[n], number);
      RunGoesOn(c, before, more[..n], number);
    }
  }

  lemma SlotIsItsOwn(c: Codec, events: seq<Event>, number: nat)
    requires Run(c, events).Some?
    requires var s := Run(c, events).value; s.dequeued <= number < s.dequeued + MARGIN_OF_OUT_OF_ORDER_ALLOWED
    ensures var s := Run(c, events).value;
            Alone(Addressed(c, events, number)) == Slot(s.window.slots[number - s.dequeued])
  {
    hide Run, Addressed, Alone;
    SlotsDoNotInterfere(c, events);
    var s := Run(c, events).value;
    assert HoldsItsOwn(c, events, s, number - s.dequeued);
  }

  /**
   * After any run that leaves the slot of a message empty, a full honest resend of that message finishes
   * it, whatever arrives for other messages in between and however many of them are taken.
   */
  lemma ResendInRunCompletes(c: Codec, m: Encoded, before: seq<Event>, more: seq<Event>, number: nat)
    requires Sendable(m) && Run(c, before + more).Some?
    requires Run(c, before + more).value.dequeued <= number
    requires Run(c, before).Some?
    requires var s := Run(c, before).value;
             s.dequeued <= number < s.dequeued + MARGIN_OF_OUT_OF_ORDER_ALLOWED
             && s.window.slots[number - s.dequeued] == None
    requires var resent := AddressedSince(c, before, more, number);
             && (forall p | p in resent :: SegmentOf(m, p))
             && HasHead(resent) && forall i: u16 | i < BodyCount(m.payload) :: HasBody(resent, i)
    ensures var t := Run(c, before + more).value;
            && number < t.dequeued + MARGIN_OF_OUT_OF_ORDER_ALLOWED
            && var slot := t.window.slots[number - t.dequeued];
            && Finished(slot)
            && slot.value.bodies == m.payload && slot.value.compression == m.compression
  {
    hide Run, Addressed, AddressedSince, Alone;
    RunGoesOn(c, before, more, number);
    SlotIsItsOwn(c, before, number);
    SlotIsItsOwn(c, before + more, number);
    ResendAfterDiscardCompletes(m, Addressed(c, before, number), AddressedSince(c, before, more, number));
  }

  /** Segments that arrive under one id. */
  function ArrivalsOf(id: MessageId, payloads: seq<MessagePayload>): seq<Event> {
    seq(|payloads|, i requires 0 <= i < |payloads| => Arrive(MessageSegment(id, payloads[i])))
  }

  lemma IdAtDistance(id: MessageId, k: nat)
    requires k < MARGIN_OF_OUT_OF_ORDER_ALLOWED
    ensures WrappingSub(WrappingAdd(id, k), id) == k
  {
    DistanceOfSum(id, k);
  }

  lemma ArrivalStepsSlot(c: Codec, s: State, k: nat, slot: Slot, p: MessagePayload)
    requires Valid(s.window) && k < MARGIN_OF_OUT_OF_ORDER_ALLOWED && WellFormed(slot) && SegmentStep(slot, p).Slot?
    ensures var segment := MessageSegment(WrappingAdd(s.window.currentMessageId, k), p);
            Step(c, s.(window := s.window.(slots := s.window.slots[k := slot])), Arrive(segment))
            == Some(s.(window := s.window.(slots := s.window.slots[k := SegmentStep(slot, p).slot])))
  {
    hide SegmentStep, WrappingAdd, WrappingSub, WellFormed;
    IdAtDistance(s.window.currentMessageId, k);
    assert s.window.slots[k := slot][k := SegmentStep(slot, p).slot] == s.window.slots[k := SegmentStep(slot, p).slot];
  }

  /** When nothing else arrives in between, it also leaves every other slot as it was. */
  lemma {:induction false} ResendChangesOneSlot(c: Codec, m: Encoded, before: seq<Event>, resent: seq<MessagePayload>,
                                                k: nat)
    requires Sendable(m) && forall p | p in resent :: SegmentOf(m, p)
    requires Run(c, before).Some? && k < MARGIN_OF_OUT_OF_ORDER_ALLOWED
    requires Run(c, before).value.window.slots[k] == None
    ensures Alone(resent).Slot?
    ensures var s := Run(c, before).value;
            Run(c, before + ArrivalsOf(WrappingAdd(s.window.currentMessageId, k), resent))
            == Some(s.(window := s.window.(slots := s.window.slots[k := Alone(resent).slot])))
  {
    hide Run, Step, SegmentStep, WrappingAdd, Finished, HasHead, HasBody, SegmentOf;
    var s := Run(c, before).value;
    var id := WrappingAdd(s.window.currentMessageId, k);
    FullSendFinishes(m, resent);
    if resent == [] {
      assert before + ArrivalsOf(id, resent) == before;
      assert s.window.slots[k := None] == s.window.slots;
    } else {
      var earlier, p := resent[..|resent| - 1], resent[|resent| - 1];
      ResendChangesOneSlot(c, m, before, earlier, k);
      assert before + ArrivalsOf(id, resent) == (before + ArrivalsOf(id, earlier)) + [Arrive(MessageSegment(id, p))];
      RunAfter(c, before + ArrivalsOf(id, earlier), Arrive(MessageSegment(id, p)));
      ArrivalStepsSlot(c, s, k, Alone(earlier).slot, p);
    }
  }

  // ----- bounded buffering -----

  function Buffered(slots: seq<Slot>): nat {
    if slots == [] then 0
    else Buffered(slots[1..]) + if slots[0].Some? then |slots[0].value.bodies| else 0
  }

  ghost predicate AllWithinBounds(w: Window) {
    forall slot | slot in w.slots :: WithinBounds(slot)
  }

  /** While segments stay within the flags, no panic occurs and every slot stays within its bound. */
  lemma StepStaysBounded(c: Codec, s: State, e: Event)
    requires Valid(s.window) && AllWithinBounds(s.window)
    requires e.Arrive? ==> WithinFlags(e.segment.payload)
    ensures Step(c, s, e).Some? && AllWithinBounds(Step(c, s, e).value.window)
  {
    if e.Arrive? {
      var index := WrappingSub(e.segment.id, s.window.currentMessageId);
      if index < MARGIN_OF_OUT_OF_ORDER_ALLOWED {
        StepStaysWithinBounds(s.window.slots[index], e.segment.payload);
      }
    }
  }

  lemma {:induction false} BufferedAtMost(slots: seq<Slot>)
    requires forall slot | slot in slots :: WellFormed(slot) && WithinBounds(slot)
    ensures Buffered(slots) <= |slots| * (MAX_BODIES_PER_MESSAGE * MAX_PACKET_PAYLOAD_SIZE)
  {
    if slots != [] {
      BufferedAtMost(slots[1..]);
      if slots[0].Some? {
        BufferIsBounded(slots[0]);
      }
    }
  }

  /** In every run within the flags the task never panics, and what it buffers is bounded. */
  lemma {:induction false} BufferingIsBounded(c: Codec, events: seq<Event>)
    requires forall e | e in events && e.Arrive? :: WithinFlags(e.segment.payload)
    ensures Run(c, events).Some?
    ensures var w := Run(c, events).value.window;
            && AllWithinBounds(w)
            && Buffered(w.slots) <= 16 * 512 * 64512
  {
    if events != [] {
      BufferingIsBounded(c, events[..|events| - 1]);
      StepStaysBounded(c, Run(c, events[..|events| - 1]).value, events[|events| - 1]);
    }
    BufferedAtMost(Run(c, events).value.window.slots);
  }

  /** Whatever heads announce, the task never panics while bodies have indices below the number of flags. */
  lemma {:induction false} NeverPanicsBelowFlags(c: Codec, events: seq<Event>)
    requires forall e | e in events && e.Arrive? && e.segment.payload.Body? ::
               e.segment.payload.index < MAX_BODIES_PER_MESSAGE
    ensures Run(c, events).Some?
  {
    if events != [] {
      var e := events[|events| - 1];
      NeverPanicsBelowFlags(c, events[..|events| - 1]);
      var s := Run(c, events[..|events| - 1]).value;
      if e.Arrive? && e.segment.payload.Body? {
        var index := WrappingSub(e.segment.id, s.window.currentMessageId);
        if index < MARGIN_OF_OUT_OF_ORDER_ALLOWED {
          PanicsExactly(s.window.slots[index], e.segment.payload.index, e.segment.payload.data);
        }
      }
    }
  }

  /** The bound is tight: on a new receiver, any full body with the first index past the flags panics. */
  lemma FirstIndexPastFlagsPanics(c: Codec, id: MessageId, data: seq<byte>)
    requires id < MARGIN_OF_OUT_OF_ORDER_ALLOWED && |data| == MAX_PACKET_PAYLOAD_SIZE
    ensures Run(c, [Arrive(MessageSegment(id, Body(512, data)))]) == None
  {
    var e := Arrive(MessageSegment(id, Body(MAX_BODIES_PER_MESSAGE, data)));
    assert [e][..0] == [];
    PanicsExactly(None, MAX_BODIES_PER_MESSAGE, data);
  }
}
