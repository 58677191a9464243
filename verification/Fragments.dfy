/** How a payload is cut into bodies, and what the two ends know about the pieces. */
module Fragments {
  import opened Packet

  /** The bytes a message travels as, and whether they are compressed. */
  datatype Encoded = Encoded(payload: seq<byte>, compression: bool)

  /** Which segments of one message have made it to the other end. */
  datatype Received = Received(head: bool, bodies: set<u16>)

  const NOTHING: Received := Received(false, {})

  /** `payload.len().div_ceil(MAX_PACKET_PAYLOAD_SIZE)` */
  function BodyCount(payload: seq<byte>): nat {
    (|payload| + MAX_PACKET_PAYLOAD_SIZE - 1) / MAX_PACKET_PAYLOAD_SIZE
  }

  function Min(a: int, b: int): int {
    if a <= b then a else b
  }

  /** `payload.iter().skip(index * MAX_PACKET_PAYLOAD_SIZE).take(MAX_PACKET_PAYLOAD_SIZE)` */
  function Fragment(payload: seq<byte>, index: nat): seq<byte> {
    var from := Min(index * MAX_PACKET_PAYLOAD_SIZE, |payload|);
    payload[from..Min(from + MAX_PACKET_PAYLOAD_SIZE, |payload|)]
  }

  /** The size domain of a message: at least one body, and no more than the receiver has flags for. */
  predicate Sendable(m: Encoded) {
    0 < |m.payload| <= MAX_BODIES_PER_MESSAGE * MAX_PACKET_PAYLOAD_SIZE
  }

  /** The segments that an honest sender may emit for a message. */
  predicate SegmentOf(m: Encoded, payload: MessagePayload) {
    match payload
    case Head(bodyCount, compression) => bodyCount == BodyCount(m.payload) && compression == m.compression
    case Body(index, data) => index < BodyCount(m.payload) && data == Fragment(m.payload, index)
    case MessageProgress(_, _) => false
  }

  function Mark(got: Received, payload: MessagePayload): Received {
    match payload
    case Head(_, _) => got.(head := true)
    case Body(index, _) => got.(bodies := got.bodies + {index})
    case MessageProgress(_, _) => got
  }

  /** Every segment of the message has arrived. */
  predicate Complete(m: Encoded, got: Received) {
    got.head && forall i: u16 | i < BodyCount(m.payload) :: i in got.bodies
  }

  /** Only segments that the message has can have arrived. */
  predicate Plausible(m: Encoded, got: Received) {
    forall i | i in got.bodies :: i < BodyCount(m.payload)
  }

  lemma BodyCountIsCeiling(payload: seq<byte>)
    ensures BodyCount(payload) * MAX_PACKET_PAYLOAD_SIZE >= |payload|
    ensures |payload| > 0 ==> |payload| > (BodyCount(payload) - 1) * MAX_PACKET_PAYLOAD_SIZE
    ensures |payload| > 0 <==> BodyCount(payload) > 0
    ensures forall bound: nat ::
              |payload| <= bound * MAX_PACKET_PAYLOAD_SIZE <==> BodyCount(payload) <= bound
  {
  }

  /** All bodies but the last are full, and the last one is never empty. */
  lemma FragmentLengths(payload: seq<byte>, index: nat)
    requires index < BodyCount(payload)
    ensures 0 < |Fragment(payload, index)| <= 64512
    ensures index + 1 < BodyCount(payload) ==> |Fragment(payload, index)| == 64512
    ensures index + 1 == BodyCount(payload) ==>
              |Fragment(payload, index)| == |payload| - index * MAX_PACKET_PAYLOAD_SIZE
    ensures index * MAX_PACKET_PAYLOAD_SIZE + |Fragment(payload, index)| <= |payload|
    ensures Fragment(payload, index)
         == payload[index * MAX_PACKET_PAYLOAD_SIZE..][..|Fragment(payload, index)|]
  {
  }

  function Flatten(bodies: seq<seq<byte>>): seq<byte> {
    if bodies == [] then [] else Flatten(bodies[..|bodies| - 1]) + bodies[|bodies| - 1]
  }

  function AllFragments(payload: seq<byte>): seq<seq<byte>> {
    seq(BodyCount(payload), i requires 0 <= i => Fragment(payload, i))
  }

  /** The bodies, put back to back, are the payload. */
  lemma {:induction false} FragmentsFlattenToPayload(payload: seq<byte>)
    ensures Flatten(AllFragments(payload)) == payload
  {
    BodyCountIsCeiling(payload);
    FirstFragmentsFlatten(payload, BodyCount(payload));
    assert AllFragments(payload)[..BodyCount(payload)] == AllFragments(payload);
  }

  lemma NextFragmentFollows(payload: seq<byte>, index: nat)
    requires index < BodyCount(payload)
    ensures payload[..Min(index * MAX_PACKET_PAYLOAD_SIZE, |payload|)] + Fragment(payload, index)
         == payload[..Min((index + 1) * MAX_PACKET_PAYLOAD_SIZE, |payload|)]
  {
    BodyCountIsCeiling(payload);
  }

  lemma {:induction false} FirstFragmentsFlatten(payload: seq<byte>, n: nat)
    requires n <= BodyCount(payload)
    ensures Flatten(AllFragments(payload)[..n]) == payload[..Min(n * MAX_PACKET_PAYLOAD_SIZE, |payload|)]
  {
    hide Fragment, BodyCount;
    if n > 0 {
      var all := AllFragments(payload);
      FirstFragmentsFlatten(payload, n - 1);
      NextFragmentFollows(payload, n - 1);
      assert all[..n][..n - 1] == all[..n - 1];
    }
  }
}
