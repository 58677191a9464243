/**
 * Messages with more bodies than the receiver has flags for: the sender takes them, and the receiver
 * counts one as finished once its first 512 bodies have arrived.
 */
module Oversize {
  import opened Packet
  import opened Fragments
  import opened Reassembly
  import opened Confluence
  import opened SenderQueue

  predicate TooLarge(m: Encoded) {
    Countable(m) && BodyCount(m.payload) > MAX_BODIES_PER_MESSAGE
  }

  /** The buffer for all of the message, of which only the first `i` bodies have been filled in. */
  function FilledUpTo(m: Encoded, i: nat): seq<byte> {
    seq(BodyCount(m.payload) * MAX_PACKET_PAYLOAD_SIZE, p requires 0 <= p =>
      if p < i * MAX_PACKET_PAYLOAD_SIZE && p < |m.payload| then m.payload[p] else 0)
  }

  /** The entry once the head and the first `i` bodies have arrived in this order. */
  function EntryUpTo(m: Encoded, i: nat): (e: Pending)
    requires TooLarge(m) && i <= MAX_BODIES_PER_MESSAGE
    ensures WellFormed(Some(e))
  {
    Pending(true, m.compression, if i == 0 then 0 else i - 1, Some(BodyCount(m.payload)), None,
            seq(MAX_BODIES_PER_MESSAGE, j => j < i), FilledUpTo(m, i))
  }

  lemma HeadOfLarge(m: Encoded)
    requires TooLarge(m)
    ensures HeadStep(None, BodyCount(m.payload), m.compression) == Some(EntryUpTo(m, 0))
  {
    var slot := HeadStep(None, BodyCount(m.payload), m.compression);
    assert slot.value.committedBodies == EntryUpTo(m, 0).committedBodies;
    assert slot.value.bodies == EntryUpTo(m, 0).bodies;
  }

  /** All bodies that there are flags for are full ones. */
  lemma FirstBodiesAreFull(m: Encoded, i: nat)
    requires TooLarge(m) && i < MAX_BODIES_PER_MESSAGE
    ensures (i + 1) * MAX_PACKET_PAYLOAD_SIZE <= |m.payload|
    ensures Fragment(m.payload, i) == m.payload[i * MAX_PACKET_PAYLOAD_SIZE..(i + 1) * MAX_PACKET_PAYLOAD_SIZE]
  {
    BodyCountIsCeiling(m.payload);
  }

  lemma NextBodyFillsIn(m: Encoded, i: nat)
    requires TooLarge(m) && i < MAX_BODIES_PER_MESSAGE
    ensures FilledUpTo(m, i + 1)
         == Splice(FilledUpTo(m, i), i * MAX_PACKET_PAYLOAD_SIZE, Fragment(m.payload, i))
  {
    FirstBodiesAreFull(m, i);
  }

  lemma BodyOfLarge(m: Encoded, i: nat)
    requires TooLarge(m) && i < MAX_BODIES_PER_MESSAGE
    ensures BodyStep(Some(EntryUpTo(m, i)), i, Fragment(m.payload, i)) == Slot(Some(EntryUpTo(m, i + 1)))
  {
    FirstBodiesAreFull(m, i);
    NextBodyFillsIn(m, i);
    var buffer := FilledUpTo(m, i);
    assert Resize(buffer, |buffer|) == buffer;
    assert EntryUpTo(m, i).committedBodies[i := true] == EntryUpTo(m, i + 1).committedBodies;
  }

  /** The head and the first `i` bodies, as `payloads` offers them. */
  function FirstOffers(m: Encoded, i: nat): seq<MessagePayload>
    requires TooLarge(m) && i <= MAX_BODIES_PER_MESSAGE
    ensures |FirstOffers(m, i)| == i + 1
  {
    [Head(BodyCount(m.payload), m.compression)] + seq(i, j requires 0 <= j < i => Body(j, Fragment(m.payload, j)))
  }

  lemma FirstOffersAreOffered(m: Encoded)
    requires TooLarge(m)
    ensures FirstOffers(m, MAX_BODIES_PER_MESSAGE) <= Offers(NewTracker(m))
  {
    FreshBodies(m, BodyCount(m.payload));
  }

  lemma FirstOffersLast(m: Encoded, i: nat)
    requires TooLarge(m) && i <= MAX_BODIES_PER_MESSAGE
    ensures i == 0 ==>
              FirstOffers(m, i)[..i] == [] && FirstOffers(m, i)[i] == Head(BodyCount(m.payload), m.compression)
    ensures i > 0 ==>
              && FirstOffers(m, i)[..i] == FirstOffers(m, i - 1)
              && FirstOffers(m, i)[i] == Body(i - 1, Fragment(m.payload, i - 1))
  {
  }

  lemma StepOfHead(slot: Slot, m: Encoded)
    requires TooLarge(m) && WellFormed(slot)
    ensures SegmentStep(slot, Head(BodyCount(m.payload), m.compression))
         == Slot(HeadStep(slot, BodyCount(m.payload), m.compression))
  {
    hide HeadStep;
  }

  lemma StepOfBody(slot: Slot, m: Encoded, i: u16)
    requires WellFormed(slot)
    ensures SegmentStep(slot, Body(i, Fragment(m.payload, i))) == BodyStep(slot, i, Fragment(m.payload, i))
  {
    hide BodyStep;
  }

  lemma {:induction false} FirstOffersArrive(m: Encoded, i: nat)
    requires TooLarge(m) && i <= MAX_BODIES_PER_MESSAGE
    ensures Alone(FirstOffers(m, i)) == Slot(Some(EntryUpTo(m, i)))
  {
    hide EntryUpTo, FirstOffers, Fragment, SegmentStep;
    FirstOffersLast(m, i);
    var payloads := FirstOffers(m, i);
    if i == 0 {
      HeadOfLarge(m);
      StepOfHead(None, m);
    } else {
      FirstOffersArrive(m, i - 1);
      BodyOfLarge(m, i - 1);
      StepOfBody(Some(EntryUpTo(m, i - 1)), m, i - 1);
    }
  }

  predicate ZerosFrom(payload: seq<byte>, from: nat) {
    forall p | from <= p < |payload| :: payload[p] == 0
  }

  lemma FilledEqualsExactly(m: Encoded)
    requires TooLarge(m)
    ensures FilledUpTo(m, MAX_BODIES_PER_MESSAGE) == m.payload <==>
              |m.payload| % MAX_PACKET_PAYLOAD_SIZE == 0
              && ZerosFrom(m.payload, MAX_BODIES_PER_MESSAGE * MAX_PACKET_PAYLOAD_SIZE)
  {
    BodyCountIsCeiling(m.payload);
    var filled := FilledUpTo(m, MAX_BODIES_PER_MESSAGE);
    if filled == m.payload {
      assert forall p | MAX_BODIES_PER_MESSAGE * MAX_PACKET_PAYLOAD_SIZE <= p < |m.payload| :: filled[p] == 0;
    }
  }

  /**
   * The head and the first 512 bodies of a larger message, in the order they are offered, finish it: what
   * is missing reads as zeros, up to the length of as many full bodies.
   */
  lemma LargeMessageIsCutShort(m: Encoded)
    requires TooLarge(m)
    ensures FirstOffers(m, MAX_BODIES_PER_MESSAGE) <= Offers(NewTracker(m))
    ensures var r := Alone(FirstOffers(m, MAX_BODIES_PER_MESSAGE));
            && r.Slot? && Finished(r.slot)
            && (r.slot.value.bodies == m.payload <==>
                  |m.payload| % MAX_PACKET_PAYLOAD_SIZE == 0
                  && ZerosFrom(m.payload, MAX_BODIES_PER_MESSAGE * MAX_PACKET_PAYLOAD_SIZE))
  {
    FirstOffersAreOffered(m);
    FirstOffersArrive(m, MAX_BODIES_PER_MESSAGE);
    FilledEqualsExactly(m);
  }

  /** Only a message of which everything has arrived is taken for finished. */
  ghost predicate FinishesOnlyWhenComplete(m: Encoded, payloads: seq<MessagePayload>) {
    Alone(payloads).Slot? && Finished(Alone(payloads).slot) ==>
      HasHead(payloads) && forall i: u16 | i < BodyCount(m.payload) :: HasBody(payloads, i)
  }

  lemma SmallMessageFinishesOnlyWhenComplete(m: Encoded, payloads: seq<MessagePayload>)
    requires Countable(m) && BodyCount(m.payload) <= MAX_BODIES_PER_MESSAGE
    requires forall p | p in payloads :: SegmentOf(m, p)
    ensures FinishesOnlyWhenComplete(m, payloads)
  {
    hide Alone, SegmentOf, Finished, HasHead, HasBody;
    BodyCountIsCeiling(m.payload);
    FullSendFinishes(m, payloads);
  }

  lemma LargeMessageFinishesIncomplete(m: Encoded)
    requires TooLarge(m)
    ensures var payloads := FirstOffers(m, MAX_BODIES_PER_MESSAGE);
            (forall p | p in payloads :: SegmentOf(m, p)) && !FinishesOnlyWhenComplete(m, payloads)
  {
    hide Alone, FilledUpTo;
    var payloads := FirstOffers(m, MAX_BODIES_PER_MESSAGE);
    FirstOffersArrive(m, MAX_BODIES_PER_MESSAGE);
    assert !HasBody(payloads, MAX_BODIES_PER_MESSAGE);
  }

  /** Whatever an honest sender sends, finished means complete, exactly for messages of at most 512 bodies. */
  lemma FinishedMeansCompleteExactly(m: Encoded)
    requires Countable(m)
    ensures (forall payloads | (forall p | p in payloads :: SegmentOf(m, p)) :: FinishesOnlyWhenComplete(m, payloads))
       <==> BodyCount(m.payload) <= 512
  {
    hide FinishesOnlyWhenComplete, SegmentOf, FirstOffers, BodyCount;
    if BodyCount(m.payload) <= MAX_BODIES_PER_MESSAGE {
      forall payloads | forall p | p in payloads :: SegmentOf(m, p) ensures FinishesOnlyWhenComplete(m, payloads) {
        SmallMessageFinishesOnlyWhenComplete(m, payloads);
      }
    } else {
      LargeMessageFinishesIncomplete(m);
    }
  }
}
