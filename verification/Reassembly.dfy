/** One slot of the receiver's window, as values: what a head and a body do to a partly received message. */
module Reassembly {
  import opened Packet
  import opened Fragments

  datatype Pending = Pending(
    headArrived: bool,
    compression: bool,
    maxIndexSeen: u16,
    totalBodies: Option<NonZeroU16>,
    finalPartialBodyLength: Option<NonZeroU16>,
    committedBodies: seq<bool>,
    bodies: seq<byte>)

  type Slot = Option<Pending>

  /** What a segment does: it leaves a slot behind, or the receiving task stops with a panic. */
  datatype Outcome = Slot(slot: Slot) | Panic

  function DefaultPending(): Pending {
    Pending(false, false, 0, None, None, seq(MAX_BODIES_PER_MESSAGE, _ => false), [])
  }

  /** `entry.get_or_insert_with(PendingMessage::default)` */
  function GetOrDefault(slot: Slot): Pending {
    if slot.Some? then slot.value else DefaultPending()
  }

  function GetOrInsert(total: Option<NonZeroU16>, value: NonZeroU16): Option<NonZeroU16> {
    if total.Some? then total else Some(value)
  }

  function Max(a: int, b: int): int {
    if a >= b then a else b
  }

  /** What the last body is short of a full one, as far as it is known. */
  function Missing(finalPartialBodyLength: Option<NonZeroU16>): int {
    if finalPartialBodyLength.Some? then MAX_PACKET_PAYLOAD_SIZE - finalPartialBodyLength.value else 0
  }

  function BufferSize(e: Pending): int {
    (if e.totalBodies.Some? then e.totalBodies.value else e.maxIndexSeen + 1) * MAX_PACKET_PAYLOAD_SIZE
    - Missing(e.finalPartialBodyLength)
  }

  /** The facts that the unwraps, the subtraction and the slicing of the assembler rely on. */
  ghost predicate Consistent(e: Pending) {
    && |e.committedBodies| == MAX_BODIES_PER_MESSAGE
    && (e.headArrived ==> e.totalBodies.Some?)
    && (e.finalPartialBodyLength.Some? ==>
          e.totalBodies.Some? && e.finalPartialBodyLength.value < MAX_PACKET_PAYLOAD_SIZE)
  }

  /** A slot between two calls: the buffer has exactly the size that the other fields call for. */
  ghost predicate WellFormed(slot: Slot) {
    slot.Some? ==> Consistent(slot.value) && |slot.value.bodies| == BufferSize(slot.value)
  }

  /** `Vec::resize(size, 0)` */
  function Resize(buffer: seq<byte>, size: nat): (r: seq<byte>)
    ensures |r| == size
    ensures forall p | 0 <= p < size :: r[p] == if p < |buffer| then buffer[p] else 0
  {
    if size <= |buffer| then buffer[..size] else buffer + seq(size - |buffer|, _ => 0)
  }

  /** `chunk.copy_from_slice(&data)` on the chunk that starts at `from` */
  function Splice(buffer: seq<byte>, from: nat, data: seq<byte>): (r: seq<byte>)
    requires from + |data| <= |buffer|
    ensures |r| == |buffer|
    ensures forall p | 0 <= p < |r| ::
              r[p] == if from <= p < from + |data| then data[p - from] else buffer[p]
  {
    buffer[..from] + data + buffer[from + |data|..]
  }

  /** The length of `chunks_mut(MAX_PACKET_PAYLOAD_SIZE).nth(index)`; the chunk exists when it is positive. */
  function ChunkLength(buffer: seq<byte>, index: nat): int {
    Min(MAX_PACKET_PAYLOAD_SIZE, |buffer| - index * MAX_PACKET_PAYLOAD_SIZE)
  }

  // ----- the two operations -----

  function HeadStep(slot: Slot, bodyCount: NonZeroU16, compression: bool): (r: Slot)
    requires WellFormed(slot)
    ensures WellFormed(r)
  {
    var entry := GetOrDefault(slot);
    var size := bodyCount * MAX_PACKET_PAYLOAD_SIZE - Missing(entry.finalPartialBodyLength);
    if |entry.bodies| > size then
      None
    else
      Some(entry.(bodies := Resize(entry.bodies, size),
           totalBodies := Some(bodyCount),
           compression := compression,
           headArrived := true))
  }

  /** The entry once a body has told what its length and its index reveal about the total. */
  function Learn(e: Pending, index: u16, length: nat): (r: Pending)
    requires 0 < length <= MAX_PACKET_PAYLOAD_SIZE
    requires length < MAX_PACKET_PAYLOAD_SIZE ==> index < 0xFFFF
    ensures Consistent(e) ==> Consistent(r)
  {
    var e1 := if length < MAX_PACKET_PAYLOAD_SIZE then
                e.(finalPartialBodyLength := Some(length), totalBodies := GetOrInsert(e.totalBodies, index + 1))
              else e;
    if index == MAX_BODIES_PER_MESSAGE - 1 then
      e1.(totalBodies := GetOrInsert(e1.totalBodies, index + 1))
    else e1
  }

  /** Resizes the buffer to what the entry calls for and copies the body to its chunk. */
  function Place(seen: Pending, index: u16, data: seq<byte>): (r: Outcome)
    requires Consistent(seen)
    ensures r.Slot? ==> WellFormed(r.slot)
  {
    var buffer := Resize(seen.bodies, BufferSize(seen));
    if ChunkLength(buffer, index) != |data| then
      Slot(None)
    else if index >= MAX_BODIES_PER_MESSAGE then
      Panic
    else
      Slot(Some(seen.(bodies := Splice(buffer, index * MAX_PACKET_PAYLOAD_SIZE, data),
                committedBodies := seen.committedBodies[index := true])))
  }

  function BodyStep(slot: Slot, index: u16, data: seq<byte>): (r: Outcome)
    requires WellFormed(slot)
    ensures r.Slot? ==> WellFormed(r.slot)
  {
    var entry := GetOrDefault(slot);
    if |data| == 0 || |data| > MAX_PACKET_PAYLOAD_SIZE then
      Slot(None)
    else if |data| < MAX_PACKET_PAYLOAD_SIZE && entry.finalPartialBodyLength.Some?
            && entry.finalPartialBodyLength.value != |data| then
      Slot(None)
    else if |data| < MAX_PACKET_PAYLOAD_SIZE && index == 0xFFFF then
      Panic
    else
      var learned := Learn(entry, index, |data|);
      if learned.totalBodies.Some? && learned.totalBodies.value <= index then
        Slot(None)
      else
        Place(learned.(maxIndexSeen := Max(index, learned.maxIndexSeen)), index, data)
  }

  function SegmentStep(slot: Slot, payload: MessagePayload): (r: Outcome)
    requires WellFormed(slot)
    ensures r.Slot? ==> WellFormed(r.slot)
  {
    match payload
    case Head(bodyCount, compression) => Slot(HeadStep(slot, bodyCount, compression))
    case Body(index, data) => BodyStep(slot, index, data)
    case MessageProgress(_, _) => Slot(slot)
  }

  predicate Finished(slot: Slot)
    requires WellFormed(slot)
  {
    slot.Some? && slot.value.headArrived
    && forall i | 0 <= i < Min(slot.value.totalBodies.value, MAX_BODIES_PER_MESSAGE) :: slot.value.committedBodies[i]
  }
}
