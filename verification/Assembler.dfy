/** The receiver's side as it is written: entries updated in place in a ring of 16 slots. */
module Assembler {
  import opened Packet
  import opened Fragments
  import opened Reassembly
  import opened Codecs
  import opened Windows

  datatype Verdict = Keep | Discard | Fail

  class PendingMessage {
    var headArrived: bool
    var compression: bool
    var maxIndexSeen: u16
    var totalBodies: Option<NonZeroU16>
    var finalPartialBodyLength: Option<NonZeroU16>
    const committedBodies: array<bool>
    var bodies: seq<byte>

    constructor Default()
      ensures View() == DefaultPending()
      ensures fresh(committedBodies)
    {
      bodies := [];
      maxIndexSeen := 0;
      committedBodies := new bool[MAX_BODIES_PER_MESSAGE](_ => false);
      totalBodies := None;
      finalPartialBodyLength := None;
      compression := false;
      headArrived := false;
    }

    ghost function View(): Pending
      reads this, committedBodies
    {
      Pending(headArrived, compression, maxIndexSeen, totalBodies, finalPartialBodyLength, committedBodies[..], bodies)
    }

    /** The part of `head` that works on the entry. */
    method Head(bodyCount: NonZeroU16, isCompressed: bool, ghost slot: Slot) returns (verdict: Verdict)
      requires WellFormed(slot) && View() == GetOrDefault(slot)
      modifies this
      ensures verdict == Keep ==> HeadStep(slot, bodyCount, isCompressed) == Some(View())
      ensures verdict != Keep ==> verdict == Discard && HeadStep(slot, bodyCount, isCompressed) == None
    {
      var size := bodyCount * MAX_PACKET_PAYLOAD_SIZE - Missing(finalPartialBodyLength);
      if |bodies| > size {
        return Discard;
      }
      bodies := Resize(bodies, size);
      totalBodies := Some(bodyCount);
      compression := isCompressed;
      headArrived := true;
      return Keep;
    }

    /** The part of `body` that works on the entry. */
    method Body(index: u16, data: seq<byte>, ghost slot: Slot) returns (verdict: Verdict)
      requires WellFormed(slot) && View() == GetOrDefault(slot)
      modifies this, committedBodies
      ensures verdict == Keep ==> BodyStep(slot, index, data) == Slot(Some(View()))
      ensures verdict == Discard ==> BodyStep(slot, index, data) == Slot(None)
      ensures verdict == Fail ==> BodyStep(slot, index, data) == Panic
    {
      hide Reassembly.Place, Missing, BufferSize;
      if |data| == 0 {
        return Discard;
      }
      // Longer than any body can be
      if |data| > MAX_PACKET_PAYLOAD_SIZE {
        return Discard;
      }
      // A body shorter than the others is the final one
      if |data| < MAX_PACKET_PAYLOAD_SIZE {
        if finalPartialBodyLength.Some? && finalPartialBodyLength.value != |data| {
          return Discard;
        }
        finalPartialBodyLength := Some(|data|);
        if index == 0xFFFF {
          return Fail;  // index + 1 does not fit
        }
        if totalBodies.None? {
          totalBodies := Some(index + 1);
        }
      }
      if index == MAX_BODIES_PER_MESSAGE - 1 && totalBodies.None? {
        totalBodies := Some(index + 1);
      }
      assert |data| < MAX_PACKET_PAYLOAD_SIZE ==> index < 0xFFFF;
      assert View() == Learn(old(View()), index, |data|);
      if totalBodies.Some? && totalBodies.value <= index {
        return Discard;
      }
      maxIndexSeen := Max(index, maxIndexSeen);
      verdict := Place(index, data);
    }

    /** Makes room for the body, copies it to its chunk and commits it. */
    method Place(index: u16, data: seq<byte>) returns (verdict: Verdict)
      requires Consistent(View())
      modifies this, committedBodies
      ensures verdict == Keep ==> Reassembly.Place(old(View()), index, data) == Slot(Some(View()))
      ensures verdict == Discard ==> Reassembly.Place(old(View()), index, data) == Slot(None)
      ensures verdict == Fail ==> Reassembly.Place(old(View()), index, data) == Panic
    {
      var size := (if totalBodies.Some? then totalBodies.value else maxIndexSeen + 1) * MAX_PACKET_PAYLOAD_SIZE
                  - Missing(finalPartialBodyLength);
      bodies := Resize(bodies, size);
      // The remote contradicts itself in the head
      if ChunkLength(bodies, index) != |data| {
        return Discard;
      }
      bodies := Splice(bodies, index * MAX_PACKET_PAYLOAD_SIZE, data);
      if index >= MAX_BODIES_PER_MESSAGE {
        return Fail;  // no flag for this body
      }
      committedBodies[index] := true;
      return Keep;
    }
  }

  ghost function SlotView(e: PendingMessage?): Slot
    reads e, if e != null then {e.committedBodies} else {}
  {
    if e == null then None else Some(e.View())
  }

  class MessageAssembler {
    const codec: Codec
    var currentMessageId: MessageId
    var pendingMessages: seq<PendingMessage?>
    ghost var Repr: set<object>

    /** Every entry belongs to one slot only. */
    ghost predicate Separated()
      reads this, Repr
    {
      && this in Repr
      && |pendingMessages| == MARGIN_OF_OUT_OF_ORDER_ALLOWED
      && (forall e: PendingMessage | e in pendingMessages :: e in Repr && e.committedBodies in Repr)
      && (forall j, k | 0 <= j < k < |pendingMessages| && pendingMessages[j] != null && pendingMessages[k] != null ::
            pendingMessages[j] != pendingMessages[k]
            && pendingMessages[j].committedBodies != pendingMessages[k].committedBodies)
    }

    ghost predicate Valid()
      reads this, Repr
      ensures Valid() ==> this in Repr
    {
      Separated() && Windows.Valid(View())
    }

    ghost function View(): (w: Window)
      requires Separated()
      reads this, Repr
      ensures |w.slots| == |pendingMessages|
    {
      Window(currentMessageId,
             seq(|pendingMessages|, k requires 0 <= k < |pendingMessages| && Separated() reads this, Repr =>
                   SlotView(pendingMessages[k])))
    }

    constructor (codec: Codec)
      ensures Valid() && fresh(Repr)
      ensures View() == EmptyWindow() && this.codec == codec
    {
      this.codec := codec;
      currentMessageId := 0;
      pendingMessages := seq(MARGIN_OF_OUT_OF_ORDER_ALLOWED, _ => null);
      Repr := {this};
    }

    /** `entry.get_or_insert_with(PendingMessage::default)` */
    method GetOrInsert(index: nat) returns (entry: PendingMessage)
      requires Separated() && index < |pendingMessages|
      modifies this
      ensures Separated() && fresh(Repr - old(Repr))
      ensures pendingMessages == old(pendingMessages)[index := entry] && currentMessageId == old(currentMessageId)
      ensures (fresh(entry) && fresh(entry.committedBodies)) || entry == old(pendingMessages)[index]
      ensures entry.View() == GetOrDefault(old(SlotView(pendingMessages[index])))
    {
      if pendingMessages[index] == null {
        entry := new PendingMessage.Default();
        pendingMessages := pendingMessages[index := entry];
        Repr := Repr + {entry, entry.committedBodies};
      } else {
        entry := pendingMessages[index];
      }
    }

    method Head(id: MessageId, bodyCount: NonZeroU16, compression: bool)
      requires Valid()
      modifies Repr
      ensures Valid() && fresh(Repr - old(Repr))
      ensures Accept(old(View()), MessageSegment(id, MessagePayload.Head(bodyCount, compression))) == Some(View())
    {
      hide HeadStep, WrappingSub, GetOrDefault, WellFormed;
      var index := WrappingSub(id, currentMessageId);
      if index < |pendingMessages| {
        ghost var slot := SlotView(pendingMessages[index]);
        assert slot == View().slots[index];
        var entry := GetOrInsert(index);
        var verdict := entry.Head(bodyCount, compression, slot);
        if verdict == Discard {
          pendingMessages := pendingMessages[index := null];
        }
        assert View().slots == old(View()).slots[index := HeadStep(slot, bodyCount, compression)];
      }
    }

    /** Returns whether the task panics; what it leaves behind then does not matter. */
    method Body(id: MessageId, index: u16, data: seq<byte>) returns (panics: bool)
      requires Valid()
      modifies Repr
      ensures panics <==> Accept(old(View()), MessageSegment(id, MessagePayload.Body(index, data))).None?
      ensures !panics ==> Valid() && fresh(Repr - old(Repr))
      ensures !panics ==> Accept(old(View()), MessageSegment(id, MessagePayload.Body(index, data))) == Some(View())
    {
      var slotIndex := WrappingSub(id, currentMessageId);
      if slotIndex >= |pendingMessages| {
        return false;
      }
      panics := BodyOfSlot(slotIndex, index, data);
    }

    method BodyOfSlot(slotIndex: nat, index: u16, data: seq<byte>) returns (panics: bool)
      requires Valid() && slotIndex < |pendingMessages|
      modifies Repr
      ensures panics <==> BodyStep(old(View()).slots[slotIndex], index, data).Panic?
      ensures !panics ==> Separated() && fresh(Repr - old(Repr))
      ensures !panics ==>
                var slot := BodyStep(old(View()).slots[slotIndex], index, data).slot;
                View() == old(View()).(slots := old(View()).slots[slotIndex := slot])
    {
      hide BodyStep, GetOrDefault;
      ghost var slot := SlotView(pendingMessages[slotIndex]);
      assert slot == View().slots[slotIndex];
      var entry := GetOrInsert(slotIndex);
      var verdict := entry.Body(index, data, slot);
      if verdict == Fail {
        return true;
      }
      if verdict == Discard {
        pendingMessages := pendingMessages[slotIndex := null];
      }
      assert View().slots == old(View()).slots[slotIndex := BodyStep(slot, index, data).slot];
      return false;
    }

    /** The head has to have arrived, and all relevant bodies have to be committed. */
    method IsFinished(id: MessageId) returns (finished: bool)
      requires Valid()
      ensures finished <==> FinishedAt(View(), id)
    {
      var index := WrappingSub(id, currentMessageId);
      if index >= |pendingMessages| || pendingMessages[index] == null {
        return false;
      }
      var entry := pendingMessages[index];
      assert View().slots[index] == Some(entry.View()) && View().slots[index] in View().slots;
      if !entry.headArrived {
        return false;
      }
      var total := Min(entry.totalBodies.value, MAX_BODIES_PER_MESSAGE);
      for i := 0 to total
        invariant forall j | 0 <= j < i :: entry.committedBodies[j]
      {
        if !entry.committedBodies[i] {
          return false;
        }
      }
      return true;
    }

    /** `dequeue` of a finished front message, and `push(None)` behind the others */
    method Dequeue() returns (entry: PendingMessage)
      requires Valid() && Finished(View().slots[0])
      modifies this
      ensures Separated() && Repr == old(Repr) && currentMessageId == old(currentMessageId)
      ensures View().slots == Shift(old(View()).slots)
      ensures old(View()).slots[0] == Some(entry.View())
    {
      entry := pendingMessages[0];
      assert View().slots[0] == Some(entry.View());
      pendingMessages := pendingMessages[1..] + [null];
    }

    method Next() returns (taken: Option<(seq<byte>, MessageId)>)
      requires Valid()
      modifies Repr
      ensures Valid() && fresh(Repr - old(Repr))
      ensures (View(), taken) == Windows.Next(codec, old(View()))
    {
      hide Finished, WrappingAdd, WrappingSub;
      SuccessorAndBack(currentMessageId);
      var finished := IsFinished(currentMessageId);
      if !finished {
        return None;
      }
      var entry := Dequeue();
      var bodies := entry.bodies;
      if entry.compression {
        var inflated := codec.decompress(bodies);
        if inflated.None? {
          return None;
        }
        bodies := inflated.value;
      }
      AdvanceId();
      return Some((bodies, WrappingSub(currentMessageId, 1)));
    }

    method AdvanceId()
      requires Separated()
      modifies this`currentMessageId
      ensures Separated()
      ensures View() == old(View()).(currentMessageId := WrappingAdd(old(currentMessageId), 1))
    {
      currentMessageId := WrappingAdd(currentMessageId, 1);
      assert View().slots == old(View()).slots;
    }

    method NextMessage() returns (taken: Option<(MessageId, Message)>)
      requires Valid()
      modifies Repr
      ensures Valid() && fresh(Repr - old(Repr))
      ensures (View(), taken) == Windows.NextMessage(codec, old(View()))
    {
      var next := Next();
      if next.None? {
        return None;
      }
      var message := codec.decode(next.value.0);
      if message.None? {
        return None;
      }
      return Some((next.value.1, message.value));
    }
  }
}
