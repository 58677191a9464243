/** The receiver's window of partly received messages, as values. */
module Windows {
  import opened Packet
  import opened Reassembly
  import opened Codecs

  datatype Window = Window(currentMessageId: MessageId, slots: seq<Slot>)

  ghost predicate Valid(w: Window) {
    |w.slots| == MARGIN_OF_OUT_OF_ORDER_ALLOWED && forall slot | slot in w.slots :: WellFormed(slot)
  }

  function EmptyWindow(): (w: Window)
    ensures Valid(w)
  {
    Window(0, seq(MARGIN_OF_OUT_OF_ORDER_ALLOWED, _ => None))
  }

  /** `head` and `body`: the window afterwards, or `None` when the receiving task panics. */
  function Accept(w: Window, segment: MessageSegment): (r: Option<Window>)
    requires Valid(w)
    ensures r.Some? ==> Valid(r.value) && r.value.currentMessageId == w.currentMessageId
  {
    var index := WrappingSub(segment.id, w.currentMessageId);
    if index >= MARGIN_OF_OUT_OF_ORDER_ALLOWED then
      Some(w)
    else
      match SegmentStep(w.slots[index], segment.payload)
      case Slot(slot) => Some(w.(slots := w.slots[index := slot]))
      case Panic => None
  }

  /** `is_finished` */
  predicate FinishedAt(w: Window, id: MessageId)
    requires Valid(w)
  {
    var index := WrappingSub(id, w.currentMessageId);
    index < MARGIN_OF_OUT_OF_ORDER_ALLOWED && Finished(w.slots[index])
  }

  function Shift(slots: seq<Slot>): seq<Slot>
    requires |slots| > 0
  {
    slots[1..] + [None]
  }

  /**
   * `next`: a finished front message leaves the window. When its buffer does not decompress the
   * window has moved on, but the current id has not.
   */
  function Next(c: Codec, w: Window): (r: (Window, Option<(seq<byte>, MessageId)>))
    requires Valid(w)
    ensures Valid(r.0)
  {
    if !Finished(w.slots[0]) then
      (w, None)
    else
      var entry := w.slots[0].value;
      match Inflate(c, entry.bodies, entry.compression)
      case None => (w.(slots := Shift(w.slots)), None)
      case Some(bytes) =>
        (Window(WrappingAdd(w.currentMessageId, 1), Shift(w.slots)), Some((bytes, w.currentMessageId)))
  }

  predicate FailsToInflate(c: Codec, slot: Slot)
    requires WellFormed(slot)
  {
    Finished(slot) && Inflate(c, slot.value.bodies, slot.value.compression).None?
  }

  /** Whenever a message is taken the id moves on with the window, if and only if its buffer decompresses. */
  lemma IdMovesWithWindowExactly(c: Codec, w: Window)
    requires Valid(w)
    ensures var after := Next(c, w).0;
            (after == w || after == Window(WrappingAdd(w.currentMessageId, 1), Shift(w.slots)))
            <==> !FailsToInflate(c, w.slots[0])
  {
    ShiftFrees(w.slots);
  }

  /**
   * When it does not, every message behind it goes on under the id of its predecessor: segments with that
   * id are mixed into its slot, and once it is finished its payload goes out as the failed message.
   */
  lemma FailureMisplacesSuccessors(c: Codec, w: Window, k: nat, segment: MessageSegment)
    requires Valid(w) && FailsToInflate(c, w.slots[0])
    requires k + 1 < MARGIN_OF_OUT_OF_ORDER_ALLOWED
    requires segment.id == WrappingAdd(w.currentMessageId, k)
    ensures var after := Next(c, w).0;
            && after.slots[k] == w.slots[k + 1]
            && (match SegmentStep(w.slots[k + 1], segment.payload)
                case Slot(mixed) => Accept(after, segment) == Some(after.(slots := after.slots[k := mixed]))
                case Panic => Accept(after, segment) == None)
            && (Finished(w.slots[1]) && !FailsToInflate(c, w.slots[1]) ==>
                  var successor := w.slots[1].value;
                  Next(c, after).1 ==
                  Some((Inflate(c, successor.bodies, successor.compression).value, w.currentMessageId)))
  {
    DistanceOfSum(w.currentMessageId, k);
  }

  /** `next_message`: a buffer that does not decode is dropped, and reads as no message. */
  function NextMessage(c: Codec, w: Window): (r: (Window, Option<(MessageId, Message)>))
    requires Valid(w)
    ensures Valid(r.0)
  {
    var (after, taken) := Next(c, w);
    match taken
    case None => (after, None)
    case Some((bytes, id)) =>
      match c.decode(bytes)
      case None => (after, None)
      case Some(message) => (after, Some((id, message)))
  }

  /** The bytes that a buffer stands for, by the codec alone. */
  function RawBytes(c: Codec, e: Pending): Option<seq<byte>> {
    if e.compression then c.decompress(e.bodies) else Some(e.bodies)
  }

  /**
   * What a take leaves of any window, and what it returns. Nothing happens before the front is finished;
   * then the slots move up, the id moves by one exactly when the buffer decompresses, and a message comes
   * out exactly when what it decompresses to also decodes: one that does not decode is passed over.
   */
  lemma TakeExactly(c: Codec, w: Window)
    requires Valid(w)
    ensures var (after, taken) := NextMessage(c, w);
            if !Finished(w.slots[0]) then
              after == w && taken == None
            else
              var raw := RawBytes(c, w.slots[0].value);
              && |after.slots| == |w.slots|
              && (forall k | 0 <= k < |w.slots| - 1 :: after.slots[k] == w.slots[k + 1])
              && after.slots[|w.slots| - 1] == None
              && after.currentMessageId == (w.currentMessageId + if raw.Some? then 1 else 0) % ID_SPACE
              && (taken.Some? <==> raw.Some? && c.decode(raw.value).Some?)
              && (taken.Some? ==> taken.value == (w.currentMessageId, c.decode(raw.value).value))
  {
  }

  /** `is_finished` looks at the slot of each of the next 16 ids, and at no other. */
  lemma FinishedAtExactly(w: Window, id: MessageId)
    requires Valid(w)
    ensures FinishedAt(w, id) <==>
            exists k | 0 <= k < MARGIN_OF_OUT_OF_ORDER_ALLOWED ::
              id == (w.currentMessageId + k) % ID_SPACE && Finished(w.slots[k])
  {
    var index := WrappingSub(id, w.currentMessageId);
    assert id == (w.currentMessageId + index) % ID_SPACE;
    if k :| 0 <= k < MARGIN_OF_OUT_OF_ORDER_ALLOWED
            && id == (w.currentMessageId + k) % ID_SPACE && Finished(w.slots[k]) {
      DistanceOfSum(w.currentMessageId, k);
    }
  }

  function Occupied(slots: seq<Slot>): nat {
    if slots == [] then 0 else Occupied(slots[..|slots| - 1]) + if slots[|slots| - 1].Some? then 1 else 0
  }

  lemma {:induction false} OccupiedSplits(one: seq<Slot>, other: seq<Slot>)
    ensures Occupied(one + other) == Occupied(one) + Occupied(other)
  {
    if other == [] {
      assert one + other == one;
    } else {
      var n := |other| - 1;
      OccupiedSplits(one, other[..n]);
      assert (one + other)[..|one| + n] == one + other[..n];
    }
  }

  /** Taking a message frees a slot. */
  lemma ShiftFrees(slots: seq<Slot>)
    requires |slots| > 0
    ensures Occupied(Shift(slots)) == Occupied(slots) - if slots[0].Some? then 1 else 0
  {
    OccupiedSplits(slots[..1], slots[1..]);
    assert slots == slots[..1] + slots[1..];
    OccupiedSplits(slots[1..], [None]);
  }

  /** The drain loop of the reader: messages are taken for as long as there are some. */
  function Drain(c: Codec, w: Window): (r: (Window, seq<Message>))
    requires Valid(w)
    ensures Valid(r.0)
    decreases Occupied(w.slots)
  {
    var (after, taken) := NextMessage(c, w);
    match taken
    case None => (after, [])
    case Some((_, message)) =>
      ShiftFrees(w.slots);
      var (last, rest) := Drain(c, after);
      (last, [message] + rest)
  }

  /** Takes one after the other: each of the first ones yields its message, and the last one yields none. */
  ghost predicate TakesUntilNone(c: Codec, windows: seq<Window>, messages: seq<Message>) {
    && |windows| == |messages| + 2
    && (forall w | w in windows :: Valid(w))
    && (forall i | 0 <= i < |messages| ::
          var (after, taken) := NextMessage(c, windows[i]);
          after == windows[i + 1] && taken.Some? && taken.value.1 == messages[i])
    && NextMessage(c, windows[|messages|]) == (windows[|messages| + 1], None)
  }

  lemma TakesOneMore(c: Codec, w: Window, windows: seq<Window>, messages: seq<Message>)
    requires TakesUntilNone(c, windows, messages) && Valid(w)
    requires NextMessage(c, w).0 == windows[0] && NextMessage(c, w).1.Some?
    ensures TakesUntilNone(c, [w] + windows, [NextMessage(c, w).1.value.1] + messages)
  {
    hide NextMessage;
    var all, handed := [w] + windows, [NextMessage(c, w).1.value.1] + messages;
    forall i | 0 <= i < |handed|
      ensures NextMessage(c, all[i]).0 == all[i + 1]
      ensures NextMessage(c, all[i]).1.Some? && NextMessage(c, all[i]).1.value.1 == handed[i]
    {
      if i > 0 {
        assert all[i] == windows[i - 1] && handed[i] == messages[i - 1];
      }
    }
    assert all[|handed|] == windows[|messages|];
  }

  /**
   * The drain loop hands on what takes yield up to the first that yields none, even when that one has
   * passed over a message that does not decompress or decode and others are finished behind it.
   */
  lemma {:induction false} DrainTakesUntilNone(c: Codec, w: Window) returns (windows: seq<Window>)
    requires Valid(w)
    ensures TakesUntilNone(c, windows, Drain(c, w).1)
    ensures windows[0] == w && windows[|windows| - 1] == Drain(c, w).0
    decreases Occupied(w.slots)
  {
    hide NextMessage;
    var (after, taken) := NextMessage(c, w);
    if taken.None? {
      windows := [w, after];
    } else {
      TakingFrees(c, w);
      var rest := DrainTakesUntilNone(c, after);
      windows := [w] + rest;
      TakesOneMore(c, w, rest, Drain(c, after).1);
    }
  }

  lemma TakingFrees(c: Codec, w: Window)
    requires Valid(w) && NextMessage(c, w).1.Some?
    ensures Occupied(NextMessage(c, w).0.slots) < Occupied(w.slots)
  {
    ShiftFrees(w.slots);
  }
}
