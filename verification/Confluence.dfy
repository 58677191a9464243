/**
 * Reassembly of one honest message does not depend on the order or the repetition of its segments:
 * the slot is always the canonical one for the set of segments that have arrived.
 */
module Confluence {
  import opened Packet
  import opened Fragments
  import opened Reassembly

  // ----- the canonical slot -----

  /** The length of the last body when it is not a full one. */
  function FinalPartial(payload: seq<byte>): Option<NonZeroU16> {
    if |payload| % MAX_PACKET_PAYLOAD_SIZE == 0 then None else Some(|payload| % MAX_PACKET_PAYLOAD_SIZE)
  }

  ghost predicate IsLargest(s: set<u16>, x: u16) {
    x in s && forall y | y in s :: y <= x
  }

  ghost function Largest(s: set<u16>): u16 {
    if exists x: u16 :: IsLargest(s, x) then var x: u16 :| IsLargest(s, x); x else 0
  }

  /** The byte that the buffer holds at `p` once the bodies with these indices have arrived. */
  function ByteAt(payload: seq<byte>, arrived: set<u16>, p: nat): byte {
    if p < |payload| && p / MAX_PACKET_PAYLOAD_SIZE in arrived then payload[p] else 0
  }

  /** All of the canonical entry but its buffer. */
  ghost function CanonicalFields(m: Encoded, got: Received): (e: Pending)
    requires Sendable(m)
    ensures Consistent(e)
  {
    var n := BodyCount(m.payload);
    var tail := if n - 1 in got.bodies then FinalPartial(m.payload) else None;
    Pending(got.head,
            got.head && m.compression,
            Largest(got.bodies),
            if got.head || tail.Some? || MAX_BODIES_PER_MESSAGE - 1 in got.bodies then Some(n) else None,
            tail,
            seq(MAX_BODIES_PER_MESSAGE, i => i in got.bodies),
            [])
  }

  ghost function CanonicalEntry(m: Encoded, got: Received): (e: Pending)
    requires Sendable(m)
    ensures Consistent(e) && |e.bodies| == BufferSize(e)
  {
    var fields := CanonicalFields(m, got);
    fields.(bodies := seq(BufferSize(fields), p requires 0 <= p => ByteAt(m.payload, got.bodies, p)))
  }

  /** The slot of an honest message of which exactly the segments in `got` have arrived. */
  ghost function Canonical(m: Encoded, got: Received): (slot: Slot)
    requires Sendable(m)
    ensures WellFormed(slot)
  {
    if got == NOTHING then None else Some(CanonicalEntry(m, got))
  }

  // ----- facts about the pieces -----

  lemma {:induction false} LargestExists(s: set<u16>)
    ensures s != {} ==> IsLargest(s, Largest(s))
    ensures s == {} ==> Largest(s) == 0
  {
    if s != {} {
      var x: u16 :| x in s;
      if IsLargest(s, x) {
      } else {
        var rest := s - {x};
        var y: u16 :| y in s && y > x;
        LargestExists(rest);
        var z := Largest(rest);
        assert y in rest && y <= z;
        assert forall w | w in s :: w == x || w in rest;
        assert IsLargest(s, z);
      }
    }
  }

  lemma LargestOfUnion(s: set<u16>, i: u16)
    ensures Largest(s + {i}) == Max(i, Largest(s))
  {
    LargestExists(s);
    LargestExists(s + {i});
  }

  /** The fields of a slot's entry are the canonical ones, even when the slot is still empty. */
  lemma EntryFields(m: Encoded, got: Received)
    requires Sendable(m) && Plausible(m, got)
    ensures GetOrDefault(Canonical(m, got)).(bodies := []) == CanonicalFields(m, got)
  {
  }

  ghost predicate Holds(buffer: seq<byte>, payload: seq<byte>, arrived: set<u16>) {
    && (forall p | 0 <= p < |buffer| :: buffer[p] == ByteAt(payload, arrived, p))
    && (forall p | |buffer| <= p :: ByteAt(payload, arrived, p) == 0)
  }

  lemma BeyondIsMissing(m: Encoded, got: Received, p: nat)
    requires Sendable(m) && Plausible(m, got) && BufferSize(CanonicalFields(m, got)) <= p
    ensures ByteAt(m.payload, got.bodies, p) == 0
  {
    hide CanonicalFields, BufferSize, BodyCount;
    BodyCountIsCeiling(m.payload);
    var i := p / MAX_PACKET_PAYLOAD_SIZE;
    if p < |m.payload| && i in got.bodies {
      CanonicalSize(m, got, i);
    }
  }

  /** The canonical buffer loses nothing: beyond it lie only bytes that have not arrived. */
  lemma EntryHolds(m: Encoded, got: Received)
    requires Sendable(m) && Plausible(m, got)
    ensures Holds(GetOrDefault(Canonical(m, got)).bodies, m.payload, got.bodies)
  {
    hide CanonicalFields, ByteAt;
    if got == NOTHING {
      NothingIsZeros(m.payload);
    } else {
      forall p | |CanonicalEntry(m, got).bodies| <= p ensures ByteAt(m.payload, got.bodies, p) == 0 {
        BeyondIsMissing(m, got, p);
      }
    }
  }

  lemma NothingIsZeros(payload: seq<byte>)
    ensures forall p: nat :: ByteAt(payload, {}, p) == 0
  {
  }

  lemma ResizeHolds(buffer: seq<byte>, size: nat, payload: seq<byte>, arrived: set<u16>)
    requires Holds(buffer, payload, arrived)
    ensures forall p | 0 <= p < size :: Resize(buffer, size)[p] == ByteAt(payload, arrived, p)
  {
  }

  // ----- confluence -----

  lemma HeadIsConfluent(m: Encoded, got: Received)
    requires Sendable(m) && Plausible(m, got)
    ensures HeadStep(Canonical(m, got), BodyCount(m.payload), m.compression)
         == Canonical(m, got.(head := true))
  {
    var entry := GetOrDefault(Canonical(m, got));
    var next := CanonicalEntry(m, got.(head := true));
    EntryFields(m, got);
    EntryHolds(m, got);
    LargestExists(got.bodies);
    BodyCountIsCeiling(m.payload);
    ResizeHolds(entry.bodies, BufferSize(next), m.payload, got.bodies);
    assert Resize(entry.bodies, BufferSize(next)) == next.bodies;
  }

  /** A payload is all full bodies, or all but the last one. */
  lemma PayloadLength(payload: seq<byte>)
    requires |payload| > 0
    ensures BodyCount(payload) > 0
    ensures |payload| == if FinalPartial(payload).Some?
                         then (BodyCount(payload) - 1) * MAX_PACKET_PAYLOAD_SIZE + FinalPartial(payload).value
                         else BodyCount(payload) * MAX_PACKET_PAYLOAD_SIZE
  {
  }

  /** The buffer reaches to the end of every body that has arrived. */
  lemma CanonicalSize(m: Encoded, got: Received, index: u16)
    requires Sendable(m) && Plausible(m, got) && index in got.bodies
    ensures var size := BufferSize(CanonicalFields(m, got));
            && size <= BodyCount(m.payload) * MAX_PACKET_PAYLOAD_SIZE
            && (index + 1 < BodyCount(m.payload) ==> (index + 1) * MAX_PACKET_PAYLOAD_SIZE <= size)
            && (index + 1 == BodyCount(m.payload) ==> size == |m.payload|)
  {
    PayloadLength(m.payload);
    LargestExists(got.bodies);
  }

  lemma FragmentFits(m: Encoded, got: Received, index: u16)
    requires Sendable(m) && Plausible(m, got) && index < BodyCount(m.payload)
    ensures var next := CanonicalEntry(m, got.(bodies := got.bodies + {index}));
            ChunkLength(next.bodies, index) == |Fragment(m.payload, index)|
  {
    FragmentLengths(m.payload, index);
    CanonicalSize(m, got.(bodies := got.bodies + {index}), index);
  }

  /** Copying a fragment to its chunk turns what the buffer holds into what it holds with that body. */
  lemma SpliceHolds(buffer: seq<byte>, payload: seq<byte>, arrived: set<u16>, index: u16)
    requires index < BodyCount(payload)
    requires index * MAX_PACKET_PAYLOAD_SIZE + |Fragment(payload, index)| <= |buffer|
    requires forall p | 0 <= p < |buffer| :: buffer[p] == ByteAt(payload, arrived, p)
    ensures var spliced := Splice(buffer, index * MAX_PACKET_PAYLOAD_SIZE, Fragment(payload, index));
            forall p | 0 <= p < |spliced| :: spliced[p] == ByteAt(payload, arrived + {index}, p)
  {
    FragmentLengths(payload, index);
    var from := index * MAX_PACKET_PAYLOAD_SIZE;
    var data := Fragment(payload, index);
    var spliced := Splice(buffer, from, data);
    forall p | 0 <= p < |spliced| ensures spliced[p] == ByteAt(payload, arrived + {index}, p) {
      if from <= p < from + |data| {
        assert data[p - from] == payload[p];
        assert p / MAX_PACKET_PAYLOAD_SIZE == index;
      } else if p < |payload| {
        assert p / MAX_PACKET_PAYLOAD_SIZE != index;
      }
    }
  }

  lemma ShortFragment(payload: seq<byte>, index: nat)
    requires index < BodyCount(payload)
    ensures 0 < |Fragment(payload, index)| <= MAX_PACKET_PAYLOAD_SIZE
    ensures |Fragment(payload, index)| < MAX_PACKET_PAYLOAD_SIZE <==>
              index == BodyCount(payload) - 1 && FinalPartial(payload).Some?
    ensures |Fragment(payload, index)| < MAX_PACKET_PAYLOAD_SIZE ==>
              FinalPartial(payload) == Some(|Fragment(payload, index)|)
  {
    hide Fragment;
    FragmentLengths(payload, index);
    BodyCountIsCeiling(payload);
  }

  /** A body of an honest message teaches its slot exactly what the canonical slot then knows. */
  lemma LearnsCanonicalFields(m: Encoded, got: Received, index: u16)
    requires Sendable(m) && Plausible(m, got) && index < BodyCount(m.payload)
    requires 0 < |Fragment(m.payload, index)| <= MAX_PACKET_PAYLOAD_SIZE
    ensures BodyCount(m.payload) <= MAX_BODIES_PER_MESSAGE
    ensures var learned := Learn(CanonicalFields(m, got), index, |Fragment(m.payload, index)|);
            var next := CanonicalFields(m, got.(bodies := got.bodies + {index}));
            && learned.totalBodies == next.totalBodies
            && learned.finalPartialBodyLength == next.finalPartialBodyLength
            && (learned.totalBodies.Some? ==> index < learned.totalBodies.value)
  {
    ShortFragment(m.payload, index);
    BodyCountIsCeiling(m.payload);
  }

  /** A body that contradicts nothing the slot knows goes on to be placed. */
  lemma GoesToPlace(slot: Slot, index: u16, data: seq<byte>)
    requires WellFormed(slot)
    requires 0 < |data| <= MAX_PACKET_PAYLOAD_SIZE && index < MAX_BODIES_PER_MESSAGE
    requires var known := GetOrDefault(slot).finalPartialBodyLength;
             |data| < MAX_PACKET_PAYLOAD_SIZE && known.Some? ==> known.value == |data|
    requires var total := Learn(GetOrDefault(slot), index, |data|).totalBodies;
             total.Some? ==> index < total.value
    ensures var learned := Learn(GetOrDefault(slot), index, |data|);
            var seen := learned.(maxIndexSeen := Max(index, learned.maxIndexSeen));
            BodyStep(slot, index, data) == Place(seen, index, data)
  {
  }

  lemma PlaceIsConfluent(seen: Pending, m: Encoded, got: Received, index: u16)
    requires Sendable(m) && Plausible(m, got) && index < BodyCount(m.payload) && index < MAX_BODIES_PER_MESSAGE
    requires Consistent(seen) && Holds(seen.bodies, m.payload, got.bodies)
    requires var next := CanonicalFields(m, got.(bodies := got.bodies + {index}));
             seen.(bodies := [], committedBodies := seen.committedBodies[index := true]) == next
    ensures Place(seen, index, Fragment(m.payload, index))
         == Slot(Some(CanonicalEntry(m, got.(bodies := got.bodies + {index}))))
  {
    var next := CanonicalEntry(m, got.(bodies := got.bodies + {index}));
    assert BufferSize(seen) == BufferSize(next);
    FragmentFits(m, got, index);
    ResizeHolds(seen.bodies, BufferSize(next), m.payload, got.bodies);
    var buffer := Resize(seen.bodies, BufferSize(next));
    SpliceHolds(buffer, m.payload, got.bodies, index);
    assert Splice(buffer, index * MAX_PACKET_PAYLOAD_SIZE, Fragment(m.payload, index)) == next.bodies;
  }

  /** The entry that a body is placed in. */
  function SeenBy(entry: Pending, index: u16, length: nat): Pending
    requires 0 < length <= MAX_PACKET_PAYLOAD_SIZE
    requires length < MAX_PACKET_PAYLOAD_SIZE ==> index < 0xFFFF
  {
    var learned := Learn(entry, index, length);
    learned.(maxIndexSeen := Max(index, learned.maxIndexSeen))
  }

  lemma SeenIsCanonical(m: Encoded, got: Received, index: u16)
    requires Sendable(m) && Plausible(m, got) && index < BodyCount(m.payload)
    ensures BodyCount(m.payload) <= MAX_BODIES_PER_MESSAGE
    ensures 0 < |Fragment(m.payload, index)| <= MAX_PACKET_PAYLOAD_SIZE
    ensures var entry := GetOrDefault(Canonical(m, got));
            var seen := SeenBy(entry, index, |Fragment(m.payload, index)|);
            && Consistent(seen) && seen.bodies == entry.bodies
            && (seen.totalBodies.Some? ==> index < seen.totalBodies.value)
            && seen.(bodies := [], committedBodies := seen.committedBodies[index := true])
               == CanonicalFields(m, got.(bodies := got.bodies + {index}))
  {
    hide BodyCount, Fragment, FinalPartial, Largest;
    var entry := GetOrDefault(Canonical(m, got));
    EntryFields(m, got);
    ShortFragment(m.payload, index);
    LearnsCanonicalFields(m, got, index);
    LargestOfUnion(got.bodies, index);
    assert entry.committedBodies[index := true]
        == CanonicalFields(m, got.(bodies := got.bodies + {index})).committedBodies;
  }

  lemma BodyIsConfluent(m: Encoded, got: Received, index: u16)
    requires Sendable(m) && Plausible(m, got) && index < BodyCount(m.payload)
    ensures BodyStep(Canonical(m, got), index, Fragment(m.payload, index))
         == Slot(Canonical(m, got.(bodies := got.bodies + {index})))
  {
    hide BodyStep, Place, CanonicalFields, CanonicalEntry, Learn, Holds, BodyCount, Fragment, Consistent, FinalPartial;
    var data := Fragment(m.payload, index);
    var entry := GetOrDefault(Canonical(m, got));
    SeenIsCanonical(m, got, index);
    EntryHolds(m, got);
    ShortFragment(m.payload, index);
    KnownLengthAgrees(m, got, index);
    GoesToPlace(Canonical(m, got), index, data);
    PlaceIsConfluent(SeenBy(entry, index, |data|), m, got, index);
  }

  lemma KnownLengthAgrees(m: Encoded, got: Received, index: u16)
    requires Sendable(m) && Plausible(m, got) && index < BodyCount(m.payload)
    ensures var known := GetOrDefault(Canonical(m, got)).finalPartialBodyLength;
            var length := |Fragment(m.payload, index)|;
            length < MAX_PACKET_PAYLOAD_SIZE && known.Some? ==> known.value == length
  {
    hide BodyCount, Fragment, Largest;
    ShortFragment(m.payload, index);
    EntryFields(m, got);
  }

  /** One more segment of an honest message: never a discard, never a panic, one more mark. */
  lemma SegmentIsConfluent(m: Encoded, got: Received, payload: MessagePayload)
    requires Sendable(m) && Plausible(m, got) && SegmentOf(m, payload)
    ensures Plausible(m, Mark(got, payload)) && Mark(got, payload) != NOTHING
    ensures SegmentStep(Canonical(m, got), payload) == Slot(Canonical(m, Mark(got, payload)))
  {
    match payload
    case Head(_, _) => HeadIsConfluent(m, got);
    case Body(index, _) => BodyIsConfluent(m, got, index);
  }

  // ----- whole sequences of segments -----

  /** A slot that sees just these segments, one after the other. */
  ghost function Alone(payloads: seq<MessagePayload>): (r: Outcome)
    ensures r.Slot? ==> WellFormed(r.slot)
  {
    if payloads == [] then
      Slot(None)
    else
      var before := Alone(payloads[..|payloads| - 1]);
      if before.Panic? then Panic else SegmentStep(before.slot, payloads[|payloads| - 1])
  }

  ghost predicate HasHead(payloads: seq<MessagePayload>) {
    exists p | p in payloads :: p.Head?
  }

  ghost predicate HasBody(payloads: seq<MessagePayload>, index: u16) {
    exists p | p in payloads :: p.Body? && p.index == index
  }

  /** The segments that a sequence contains, as a set. */
  ghost function Arrived(payloads: seq<MessagePayload>): (got: Received)
    ensures got.head <==> HasHead(payloads)
    ensures forall i :: i in got.bodies <==> HasBody(payloads, i)
  {
    if payloads == [] then NOTHING
    else
      assert forall p | p in payloads :: p in payloads[..|payloads| - 1] || p == payloads[|payloads| - 1];
      Mark(Arrived(payloads[..|payloads| - 1]), payloads[|payloads| - 1])
  }

  /** Whatever the order and the repetitions, the slot is the canonical one for what has arrived. */
  lemma {:induction false} ReassemblyIsConfluent(m: Encoded, payloads: seq<MessagePayload>)
    requires Sendable(m)
    requires forall p | p in payloads :: SegmentOf(m, p)
    ensures Plausible(m, Arrived(payloads))
    ensures Alone(payloads) == Slot(Canonical(m, Arrived(payloads)))
  {
    if payloads != [] {
      var before := payloads[..|payloads| - 1];
      ReassemblyIsConfluent(m, before);
      SegmentIsConfluent(m, Arrived(before), payloads[|payloads| - 1]);
    }
  }

  lemma SameSegmentsSameSlot(m: Encoded, one: seq<MessagePayload>, other: seq<MessagePayload>)
    requires Sendable(m)
    requires forall p | p in one :: SegmentOf(m, p)
    requires forall p :: p in one <==> p in other
    ensures Alone(one) == Alone(other)
  {
    ReassemblyIsConfluent(m, one);
    ReassemblyIsConfluent(m, other);
    assert Arrived(one).bodies == Arrived(other).bodies;
  }

  // ----- exactness -----

  /** A message is finished exactly when all of it has arrived, and its buffer then is the payload. */
  lemma FinishedExactlyWhenComplete(m: Encoded, got: Received)
    requires Sendable(m) && Plausible(m, got)
    ensures Finished(Canonical(m, got)) <==> Complete(m, got)
    ensures Complete(m, got) ==>
              var slot := Canonical(m, got);
              slot.Some? && slot.value.bodies == m.payload && slot.value.compression == m.compression
  {
    BodyCountIsCeiling(m.payload);
    if got != NOTHING {
      var e := CanonicalEntry(m, got);
      assert forall i | 0 <= i < MAX_BODIES_PER_MESSAGE :: e.committedBodies[i] <==> i in got.bodies;
      if Complete(m, got) {
        CompleteBuffer(m, got);
      }
    }
  }

  lemma CompleteBuffer(m: Encoded, got: Received)
    requires Sendable(m) && Plausible(m, got) && Complete(m, got)
    ensures CanonicalEntry(m, got).bodies == m.payload
  {
    PayloadLength(m.payload);
    BodyCountIsCeiling(m.payload);
    var n := BodyCount(m.payload);
    CanonicalSize(m, got, n - 1);
    var bodies := CanonicalEntry(m, got).bodies;
    assert |bodies| == |m.payload|;
    assert forall p | 0 <= p < |m.payload| :: p / MAX_PACKET_PAYLOAD_SIZE < n && bodies[p] == m.payload[p];
  }

  /** Any full set of segments of an honest message, from an empty slot on, yields the message. */
  lemma FullSendFinishes(m: Encoded, payloads: seq<MessagePayload>)
    requires Sendable(m)
    requires forall p | p in payloads :: SegmentOf(m, p)
    ensures Alone(payloads).Slot?
    ensures Finished(Alone(payloads).slot) <==>
              HasHead(payloads) && forall i: u16 | i < BodyCount(m.payload) :: HasBody(payloads, i)
    ensures Finished(Alone(payloads).slot) ==>
              Alone(payloads).slot.value.bodies == m.payload
              && Alone(payloads).slot.value.compression == m.compression
  {
    ReassemblyIsConfluent(m, payloads);
    FinishedExactlyWhenComplete(m, Arrived(payloads));
  }
}
