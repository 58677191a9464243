/** What arbitrary segments, honest or not, can do to one slot: when they panic and how much they buffer. */
module Limits {
  import opened Packet
  import opened Fragments
  import opened Reassembly

  /** What a body must look like, next to what the slot knows, for the assembler to panic on it. */
  predicate PanicsOn(slot: Slot, index: u16, length: nat)
    requires WellFormed(slot)
  {
    var e := GetOrDefault(slot);
    var short := length < MAX_PACKET_PAYLOAD_SIZE;
    && index >= MAX_BODIES_PER_MESSAGE
    && 0 < length <= MAX_PACKET_PAYLOAD_SIZE
    && (short && e.finalPartialBodyLength.Some? ==> e.finalPartialBodyLength.value == length)
    && (|| (short && index == 0xFFFF)
        || e.totalBodies.None?
        || (short && index + 1 == e.totalBodies.value)
        || (!short && index < e.totalBodies.value
            && (index + 1 == e.totalBodies.value ==> e.finalPartialBodyLength.None?)))
  }

  /** The assembler panics on a body exactly then; in particular never below the number of flags. */
  lemma PanicsExactly(slot: Slot, index: u16, data: seq<byte>)
    requires WellFormed(slot)
    ensures BodyStep(slot, index, data).Panic? <==> PanicsOn(slot, index, |data|)
  {
  }

  /** The total that a body makes known, or leaves as it was. */
  function TotalAfter(slot: Slot, index: u16, length: nat): Option<nat> {
    var known := GetOrDefault(slot).totalBodies;
    if known.Some? then Some(known.value)
    else if length < MAX_PACKET_PAYLOAD_SIZE || index == MAX_BODIES_PER_MESSAGE - 1 then Some(index + 1)
    else None
  }

  /** The length that a body with this index must have, given the total and the length of the last body. */
  function ExpectedLength(total: Option<nat>, last: nat, index: u16): nat {
    if total == Some(index + 1) then last else MAX_PACKET_PAYLOAD_SIZE
  }

  /** A body agrees with all that the slot knows about its message. */
  predicate Agrees(slot: Slot, index: u16, length: nat)
    requires WellFormed(slot)
  {
    var known := GetOrDefault(slot).finalPartialBodyLength;
    var total := TotalAfter(slot, index, length);
    var last := if known.Some? then known.value else if length < MAX_PACKET_PAYLOAD_SIZE then length
                else MAX_PACKET_PAYLOAD_SIZE;
    && 0 < length <= MAX_PACKET_PAYLOAD_SIZE
    && (total.Some? ==> index < total.value)
    && length == ExpectedLength(total, last, index)
  }

  /** A body is placed exactly when it fills the chunk that it is for. */
  lemma PlacesExactlyWhatFits(seen: Pending, index: u16, data: seq<byte>)
    requires Consistent(seen) && index < MAX_BODIES_PER_MESSAGE
    ensures Place(seen, index, data).Slot?
    ensures Place(seen, index, data).slot.Some? <==>
              |data| == Min(MAX_PACKET_PAYLOAD_SIZE, BufferSize(seen) - index * MAX_PACKET_PAYLOAD_SIZE)
  {
    hide Resize, Splice, BufferSize;
  }

  /** A body is kept exactly when it agrees with its slot; one that does not discards the whole slot. */
  lemma KeepsExactlyWhatAgrees(slot: Slot, index: u16, data: seq<byte>)
    requires WellFormed(slot) && index < MAX_BODIES_PER_MESSAGE
    ensures BodyStep(slot, index, data).Slot?
    ensures BodyStep(slot, index, data).slot.Some? <==> Agrees(slot, index, |data|)
  {
    hide Place;
    var entry := GetOrDefault(slot);
    if 0 < |data| <= MAX_PACKET_PAYLOAD_SIZE {
      var learned := Learn(entry, index, |data|);
      PlacesExactlyWhatFits(learned.(maxIndexSeen := Max(index, learned.maxIndexSeen)), index, data);
    }
  }

  /** A body that is kept is written to its own chunk, and to nowhere else. */
  lemma BodyWritesItsChunkOnly(slot: Slot, index: u16, data: seq<byte>)
    requires WellFormed(slot) && BodyStep(slot, index, data).Slot? && BodyStep(slot, index, data).slot.Some?
    ensures var e := GetOrDefault(slot);
            var r := BodyStep(slot, index, data).slot.value;
            var from := index * MAX_PACKET_PAYLOAD_SIZE;
            && from + |data| <= |r.bodies|
            && r.bodies[from..from + |data|] == data
            && (forall p | 0 <= p < |r.bodies| && !(from <= p < from + |data|) ::
                  r.bodies[p] == if p < |e.bodies| then e.bodies[p] else 0)
            && r.committedBodies == e.committedBodies[index := true]
            && r.headArrived == e.headArrived && r.compression == e.compression
            && r.totalBodies == TotalAfter(slot, index, |data|)
            && r.finalPartialBodyLength
               == (if |data| < MAX_PACKET_PAYLOAD_SIZE then Some(|data|) else e.finalPartialBodyLength)
            && r.maxIndexSeen == Max(index, e.maxIndexSeen)
  {
  }

  /** A head that announces less than what is there discards the slot; otherwise it only adds to it. */
  lemma HeadKeepsWhatIsThere(slot: Slot, bodyCount: NonZeroU16, compression: bool)
    requires WellFormed(slot)
    ensures var e := GetOrDefault(slot);
            var r := HeadStep(slot, bodyCount, compression);
            && (r.None? <==>
                  (slot.Some? && bodyCount < if e.totalBodies.Some? then e.totalBodies.value else e.maxIndexSeen + 1))
            && (r.Some? ==>
                  && e.bodies <= r.value.bodies
                  && (forall p | |e.bodies| <= p < |r.value.bodies| :: r.value.bodies[p] == 0)
                  && r.value.committedBodies == e.committedBodies
                  && r.value.headArrived && r.value.compression == compression
                  && r.value.totalBodies == Some(bodyCount)
                  && r.value.finalPartialBodyLength == e.finalPartialBodyLength
                  && r.value.maxIndexSeen == e.maxIndexSeen
                  && r.value.totalBodies == Some(bodyCount)
                  && r.value.finalPartialBodyLength == e.finalPartialBodyLength)
  {
  }

  /** The chunk that a body is copied to always exists, so `nth(index).unwrap()` does not fail. */
  lemma ChunkExists(slot: Slot, index: u16, length: nat)
    requires WellFormed(slot)
    requires 0 < length <= MAX_PACKET_PAYLOAD_SIZE
    requires length < MAX_PACKET_PAYLOAD_SIZE ==> index < 0xFFFF
    requires var total := Learn(GetOrDefault(slot), index, length).totalBodies;
             total.Some? ==> index < total.value
    ensures var learned := Learn(GetOrDefault(slot), index, length);
            var size := BufferSize(learned.(maxIndexSeen := Max(index, learned.maxIndexSeen)));
            index * MAX_PACKET_PAYLOAD_SIZE < size
  {
  }

  /** A segment that stays within the number of bodies that the receiver has flags for. */
  predicate WithinFlags(payload: MessagePayload) {
    match payload
    case Head(bodyCount, _) => bodyCount <= MAX_BODIES_PER_MESSAGE
    case Body(index, _) => index < MAX_BODIES_PER_MESSAGE
    case MessageProgress(_, _) => true
  }

  ghost predicate WithinBounds(slot: Slot) {
    slot.Some? ==>
      && slot.value.maxIndexSeen < MAX_BODIES_PER_MESSAGE
      && (slot.value.totalBodies.Some? ==> slot.value.totalBodies.value <= MAX_BODIES_PER_MESSAGE)
  }

  lemma BufferIsBounded(slot: Slot)
    requires WellFormed(slot) && WithinBounds(slot) && slot.Some?
    ensures |slot.value.bodies| <= MAX_BODIES_PER_MESSAGE * MAX_PACKET_PAYLOAD_SIZE
  {
  }

  lemma StepStaysWithinBounds(slot: Slot, payload: MessagePayload)
    requires WellFormed(slot) && WithinBounds(slot) && WithinFlags(payload)
    ensures SegmentStep(slot, payload).Slot?
    ensures WithinBounds(SegmentStep(slot, payload).slot)
  {
  }
}
