/** `channel_read_message` for one source: dispatch of a segment, then the drain loop. */
module Reader {
  import opened Packet
  import opened Codecs
  import opened Windows
  import opened Assembler

  datatype UpdateMessageStatus = UpdateMessageStatus(id: MessageId, head: bool, bodies: set<u16>)

  class ChannelReader {
    const codec: Codec
    const assembler: MessageAssembler
    /** The messages given to `handle_message`, the requests sent to the writer, and those for a channel. */
    var handled: seq<Message>
    var statusRequests: seq<UpdateMessageStatus>
    var channelRequests: nat

    ghost predicate Valid()
      reads this, assembler, assembler.Repr
    {
      assembler.Valid() && assembler.codec == codec && this !in assembler.Repr
    }

    constructor (codec: Codec)
      ensures Valid() && fresh(assembler.Repr)
      ensures assembler.View() == EmptyWindow() && handled == [] && statusRequests == [] && channelRequests == 0
      ensures this.codec == codec
    {
      this.codec := codec;
      assembler := new MessageAssembler(codec);
      handled := [];
      statusRequests := [];
      channelRequests := 0;
    }

    /**
     * Returns whether the task panics. Without a channel to the source a segment is skipped, whatever it
     * is, and a channel is asked for.
     */
    method Receive(segment: MessageSegment, connected: bool) returns (panics: bool)
      requires Valid()
      modifies this, assembler.Repr
      ensures panics <==> connected && Accept(old(assembler.View()), segment).None?
      ensures !panics ==> Valid() && fresh(assembler.Repr - old(assembler.Repr))
      ensures !connected ==>
                && assembler.View() == old(assembler.View())
                && handled == old(handled) && statusRequests == old(statusRequests)
                && channelRequests == old(channelRequests) + 1
      ensures connected && !panics ==>
                var (window, messages) := Drain(codec, Accept(old(assembler.View()), segment).value);
                && assembler.View() == window
                && handled == old(handled) + messages
                && channelRequests == old(channelRequests)
      ensures connected && !panics ==>
                match segment.payload
                case MessageProgress(head, bodies) =>
                  statusRequests == old(statusRequests) + [UpdateMessageStatus(segment.id, head, bodies)]
                case _ =>
                  statusRequests == old(statusRequests)
    {
      if !connected {
        channelRequests := channelRequests + 1;
        return false;
      }
      panics := Dispatch(segment);
      if !panics {
        DrainAssembler();
      }
    }

    method Dispatch(segment: MessageSegment) returns (panics: bool)
      requires Valid()
      modifies this`statusRequests, assembler.Repr
      ensures panics <==> Accept(old(assembler.View()), segment).None?
      ensures !panics ==>
                && Valid() && fresh(assembler.Repr - old(assembler.Repr))
                && Accept(old(assembler.View()), segment) == Some(assembler.View())
      ensures !panics ==>
                match segment.payload
                case MessageProgress(head, bodies) =>
                  statusRequests == old(statusRequests) + [UpdateMessageStatus(segment.id, head, bodies)]
                case _ =>
                  statusRequests == old(statusRequests)
    {
      panics := false;
      match segment.payload {
        case Head(bodyCount, compression) =>
          assembler.Head(segment.id, bodyCount, compression);
        case Body(index, data) =>
          panics := assembler.Body(segment.id, index, data);
        case MessageProgress(head, bodies) =>
          ProgressIsNotAccepted(assembler.View(), segment);
          statusRequests := statusRequests + [UpdateMessageStatus(segment.id, head, bodies)];
      }
    }

    method DrainAssembler()
      requires Valid()
      modifies this`handled, assembler.Repr
      ensures Valid() && fresh(assembler.Repr - old(assembler.Repr))
      ensures (assembler.View(), handled) ==
              var (window, messages) := Drain(codec, old(assembler.View()));
              (window, old(handled) + messages)
    {
      ghost var all := Drain(codec, assembler.View());
      ghost var already := handled;
      var taken := assembler.NextMessage();
      while taken.Some?
        invariant Valid() && fresh(assembler.Repr - old(assembler.Repr))
        invariant var (window, rest) := StillToDrain(codec, assembler.View(), taken);
                  window == all.0 && handled + rest == already + all.1
        decreases taken.Some?, Occupied(assembler.View().slots)
      {
        DrainStep(codec, assembler.View(), handled, taken.value.1);
        handled := handled + [taken.value.1];
        taken := assembler.NextMessage();
      }
      assert handled + [] == handled;
    }
  }

  /** What a drain loop is still to do, once `taken` has been taken from the window. */
  ghost function StillToDrain(c: Codec, w: Window, taken: Option<(MessageId, Message)>): (Window, seq<Message>)
    requires Windows.Valid(w)
  {
    if taken.None? then (w, []) else (Drain(c, w).0, [taken.value.1] + Drain(c, w).1)
  }

  lemma DrainStep(c: Codec, w: Window, handled: seq<Message>, message: Message)
    requires Windows.Valid(w)
    ensures var (after, taken) := NextMessage(c, w);
            && Drain(c, w) == StillToDrain(c, after, taken)
            && (handled + [message]) + Drain(c, w).1 == handled + ([message] + Drain(c, w).1)
            && (taken.Some? ==> Occupied(after.slots) < Occupied(w.slots))
  {
    ShiftFrees(w.slots);
  }

  /** A progress report changes nothing in the window. */
  lemma ProgressIsNotAccepted(w: Window, segment: MessageSegment)
    requires Windows.Valid(w) && segment.payload.MessageProgress?
    ensures Accept(w, segment) == Some(w)
  {
    var index := WrappingSub(segment.id, w.currentMessageId);
    if index < |w.slots| {
      assert w.slots[index := w.slots[index]] == w.slots;
    }
  }
}
