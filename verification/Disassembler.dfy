/** The sender's side as it is written: trackers updated in place in a map by message id. */
module Disassembler {
  import opened Packet
  import opened Fragments
  import opened Codecs
  import opened SenderQueue

  class PayloadTracker {
    const payload: seq<byte>
    const compression: bool
    var headConfirmed: bool
    const bodyCount: NonZeroU16
    var bodiesConfirmed: set<u16>

    constructor (m: Encoded)
      requires Countable(m)
      ensures View() == NewTracker(m)
    {
      payload := m.payload;
      compression := m.compression;
      headConfirmed := false;
      bodyCount := BodyCount(m.payload);
      bodiesConfirmed := {};
    }

    ghost function View(): Tracker
      reads this
    {
      Tracker(payload, compression, headConfirmed, bodyCount, bodiesConfirmed)
    }
  }

  class MessageDisassembler {
    const codec: Codec
    var packets: map<MessageId, PayloadTracker>
    var nextMessageId: MessageId
    var highestMessageId: MessageId

    /** No two ids share a tracker. */
    ghost predicate Valid()
      reads this
    {
      forall one, other | one in packets && other in packets && one != other :: packets[one] != packets[other]
    }

    ghost function View(): Sender
      reads this, packets.Values
    {
      Sender(map id | id in packets :: packets[id].View(), nextMessageId, highestMessageId)
    }

    constructor (codec: Codec)
      ensures Valid() && View() == EmptySender() && packets == map[] && this.codec == codec
    {
      this.codec := codec;
      packets := map[];
      nextMessageId := 0;
      highestMessageId := 0;
    }

    method Insert(id: MessageId, m: Encoded)
      requires Valid() && Countable(m)
      modifies this`packets
      ensures Valid() && fresh(packets.Values - old(packets.Values))
      ensures View() == old(View()).(packets := old(View()).packets[id := NewTracker(m)])
    {
      var tracker := new PayloadTracker(m);
      packets := packets[id := tracker];
    }

    /** Queues a message under the id that the tests call for. */
    method Message(message: Message) returns (id: MessageId)
      requires Valid() && Countable(Encode(codec, message))
      modifies this
      ensures Valid() && fresh(packets.Values - old(packets.Values))
      ensures (View(), id) == Enqueue(old(View()), Encode(codec, message))
    {
      id := highestMessageId;
      Insert(id, Encode(codec, message));
      ghost var inserted := View().packets;
      highestMessageId := WrappingAdd(highestMessageId, 1);
      assert View().packets == inserted;
    }

    /** Queues a message as the source does, which never stores the new highest id. */
    method MessageAsWritten(message: Message) returns (id: MessageId)
      requires Valid() && Countable(Encode(codec, message))
      modifies this
      ensures Valid() && fresh(packets.Values - old(packets.Values))
      ensures (View(), id) == EnqueueAsWritten(old(View()), Encode(codec, message))
    {
      id := WrappingAdd(highestMessageId, 1);
      Insert(id, Encode(codec, message));
    }

    method HeadStatus(id: MessageId, status: bool)
      requires Valid()
      modifies packets.Values
      ensures Valid() && View() == SenderQueue.HeadStatus(old(View()), id, status)
    {
      if id in packets {
        packets[id].headConfirmed := status;
      }
    }

    method BodyStatus(id: MessageId, status: set<u16>)
      requires Valid()
      modifies packets.Values
      ensures Valid() && View() == SenderQueue.BodyStatus(old(View()), id, status)
    {
      if id in packets {
        packets[id].bodiesConfirmed := {};
        packets[id].bodiesConfirmed := packets[id].bodiesConfirmed + status;
        assert packets[id].bodiesConfirmed == status;
      }
    }

    method IsMessageConfirmed(id: MessageId) returns (confirmed: bool)
      requires Valid()
      ensures confirmed <==> SenderQueue.IsMessageConfirmed(View(), id)
    {
      if id !in packets {
        return false;
      }
      var tracker := packets[id];
      assert View().packets[id] == tracker.View();
      if !tracker.headConfirmed {
        return false;
      }
      for index := 0 to tracker.bodyCount
        invariant forall i: u16 | i < index :: i in tracker.bodiesConfirmed
      {
        if index !in tracker.bodiesConfirmed {
          return false;
        }
      }
      return true;
    }

    method Payloads() returns (offers: Option<(MessageId, seq<MessagePayload>)>)
      requires Valid()
      modifies this
      ensures Valid() && packets.Values <= old(packets.Values)
      ensures (View(), offers) == SenderQueue.Payloads(old(View()))
    {
      if nextMessageId !in packets {
        return None;
      }
      var tracker := packets[nextMessageId];
      assert View().packets[nextMessageId] == tracker.View();
      var payloads := [];
      if !tracker.headConfirmed {
        payloads := [Head(tracker.bodyCount, tracker.compression)];
      }
      ghost var head := payloads;
      for index := 0 to tracker.bodyCount
        invariant payloads == head + UnconfirmedBodies(tracker.View(), index)
      {
        if index !in tracker.bodiesConfirmed {
          payloads := payloads + [Body(index, Fragment(tracker.payload, index))];
        }
      }
      assert payloads == Offers(tracker.View());
      if payloads == [] {
        packets := packets - {nextMessageId};
        nextMessageId := WrappingAdd(nextMessageId, 1);
        assert View().packets == old(View()).packets - {old(nextMessageId)};
        return None;
      }
      return Some((nextMessageId, payloads));
    }
  }
}
