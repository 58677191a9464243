/** The types and constants of the segment protocol, and the wrapping arithmetic on message ids. */
module Packet {

  type byte = x: int | 0 <= x < 0x100
  type u16 = x: int | 0 <= x < 0x1_0000
  type NonZeroU16 = x: int | 0 < x < 0x1_0000 witness 1

  type MessageId = u16

  const MAX_PACKET_PAYLOAD_SIZE: nat := 63 * 1024
  const MARGIN_OF_OUT_OF_ORDER_ALLOWED: nat := 16
  const MAX_BODIES_PER_MESSAGE: nat := 512

  /** The number of different message ids. */
  const ID_SPACE: nat := 0x1_0000

  datatype Option<+T> = None | Some(value: T)

  datatype MessagePayload =
    | Head(bodyCount: NonZeroU16, compression: bool)
    | Body(index: u16, data: seq<byte>)
    | MessageProgress(confirmedHead: bool, confirmedBodies: set<u16>)

  datatype MessageSegment = MessageSegment(id: MessageId, payload: MessagePayload)

  function WrappingSub(a: MessageId, b: MessageId): MessageId {
    (a - b) % ID_SPACE
  }

  function WrappingAdd(a: MessageId, b: MessageId): MessageId {
    (a + b) % ID_SPACE
  }

  /** The id on the wire of the message with the given absolute number. */
  function IdOf(number: nat): MessageId {
    number % ID_SPACE
  }

  /**
   * Where a message lands relative to another one, seen through 16-bit ids only: at its true
   * distance when it is ahead, and a full turn minus its age when it is behind.
   */
  lemma IdDistance(number: nat, reference: nat)
    requires number < reference + ID_SPACE
    requires reference <= number + ID_SPACE
    ensures number >= reference ==> WrappingSub(IdOf(number), IdOf(reference)) == number - reference
    ensures number < reference ==>
              WrappingSub(IdOf(number), IdOf(reference)) == (ID_SPACE - (reference - number)) % ID_SPACE
  {
  }

  lemma IdOfSum(number: nat, k: nat)
    ensures (IdOf(number) + k) % ID_SPACE == IdOf(number + k)
  {
    var turns := number / ID_SPACE;
    assert number + k == turns * ID_SPACE + (IdOf(number) + k);
  }

  lemma IdOfSuccessor(number: nat)
    ensures IdOf(number + 1) == WrappingAdd(IdOf(number), 1)
  {
  }

  /** Distances from the next id are one less, and the id itself goes from the front to the far end. */
  lemma DistanceFromSuccessor(id: MessageId, reference: MessageId)
    ensures WrappingSub(reference, reference) == 0
    ensures id != reference ==>
              WrappingSub(id, WrappingAdd(reference, 1)) + 1 == WrappingSub(id, reference)
    ensures WrappingSub(reference, WrappingAdd(reference, 1)) == ID_SPACE - 1
  {
  }

  lemma SuccessorAndBack(id: MessageId)
    ensures WrappingSub(WrappingAdd(id, 1), 1) == id && WrappingSub(id, id) == 0
  {
  }

  lemma DistanceIsInjective(one: MessageId, other: MessageId, reference: MessageId)
    ensures WrappingSub(one, reference) == WrappingSub(other, reference) <==> one == other
  {
  }

  lemma DistanceOfSum(reference: MessageId, k: nat)
    requires k < ID_SPACE
    ensures WrappingSub((reference + k) % ID_SPACE, reference) == k
  {
  }

  lemma NumberAtDistance(reference: nat, id: MessageId)
    ensures IdOf(reference + WrappingSub(id, IdOf(reference))) == id
  {
  }
}
