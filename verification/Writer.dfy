/** `channel_write_message` for one destination: its event loop over the queue and the sent-notices. */
module Writer {
  import opened Packet
  import opened Codecs
  import opened SenderQueue
  import opened Disassembler
  import opened Notices

  class ChannelWriter {
    const codec: Codec
    const disassembler: MessageDisassembler
    var callbacks: map<MessageId, Callback>
    /** The callbacks notified, and what was handed to the router and to whoever sets up channels. */
    var fired: seq<Callback>
    var output: seq<Output>

    ghost predicate Valid()
      reads this, disassembler
    {
      disassembler.Valid() && disassembler.codec == codec
    }

    ghost function View(): Outbox
      reads this, disassembler, disassembler.packets.Values
    {
      Outbox(disassembler.View(), callbacks, fired)
    }

    constructor (codec: Codec)
      ensures Valid() && fresh(disassembler) && disassembler.packets == map[]
      ensures View() == Beginning().outbox && output == [] && this.codec == codec
    {
      this.codec := codec;
      disassembler := new MessageDisassembler(codec);
      callbacks := map[];
      fired := [];
      output := [];
    }

    method HandleWriteMessage(notify: Option<Callback>, message: Message)
      requires Valid() && Countable(Encode(codec, message))
      modifies this`callbacks, disassembler
      ensures Valid() && fresh(disassembler.packets.Values - old(disassembler.packets.Values))
      ensures View() == Write(codec, old(View()), notify, message)
    {
      var id := disassembler.Message(message);
      if notify.Some? {
        callbacks := callbacks[id := notify.value];
      }
    }

    method HandleUpdateMessageStatus(id: MessageId, head: bool, bodies: set<u16>)
      requires Valid()
      modifies this`callbacks, this`fired, disassembler.packets.Values
      ensures Valid() && disassembler.packets == old(disassembler.packets)
      ensures View() == Update(old(View()), id, head, bodies)
    {
      hide Report, IsMessageConfirmed;
      var confirmed := UpdateTracker(id, head, bodies);
      if confirmed && id in callbacks {
        fired := fired + [callbacks[id]];
        callbacks := callbacks - {id};
      }
    }

    method UpdateTracker(id: MessageId, head: bool, bodies: set<u16>) returns (confirmed: bool)
      requires Valid()
      modifies disassembler.packets.Values
      ensures Valid() && disassembler.packets == old(disassembler.packets)
      ensures disassembler.View() == Report(old(disassembler.View()), id, head, bodies)
      ensures confirmed <==> IsMessageConfirmed(disassembler.View(), id)
    {
      disassembler.HeadStatus(id, head);
      disassembler.BodyStatus(id, bodies);
      confirmed := disassembler.IsMessageConfirmed(id);
    }

    /** Goes through all that is still to be sent of the front message, if there is a channel to send it on. */
    method ResendQueued(connected: bool)
      requires Valid()
      modifies this`output, disassembler
      ensures Valid() && disassembler.packets.Values <= old(disassembler.packets.Values)
      ensures View() == Resend(old(View()), connected).0
      ensures output == old(output) + Resend(old(View()), connected).1
    {
      hide Offers, Payloads;
      var offers := disassembler.Payloads();
      if offers.Some? {
        var (id, payloads) := offers.value;
        if connected {
          for i := 0 to |payloads|
            modifies this`output
            invariant output == old(output) + Segments(id, payloads)[..i]
          {
            output := output + [Send(MessageSegment(id, payloads[i]))];
          }
        } else {
          output := output + [InitiateChannel];
        }
      }
    }

    method HandleEvent(e: Event)
      requires Valid() && Writable(codec, e)
      modifies this, disassembler, disassembler.packets.Values
      ensures Valid() && fresh(disassembler.packets.Values - old(disassembler.packets.Values))
      ensures View() == Handle(codec, old(View()), e) && output == old(output)
    {
      match e {
        case WriteMessage(notify, message) => HandleWriteMessage(notify, message);
        case UpdateStatus(id, head, bodies) => HandleUpdateMessageStatus(id, head, bodies);
        case Wakeup =>
      }
    }

    method Run(turns: seq<Turn>)
      requires Valid()
      requires forall turn | turn in turns :: Writable(codec, turn.event)
      modifies this, disassembler, disassembler.packets.Values
      ensures Valid()
      ensures (View(), output) == var (after, more) := Loop(codec, old(View()), turns); (after, old(output) + more)
    {
      ghost var start, already := View(), output;
      for i := 0 to |turns|
        invariant Valid()
        invariant fresh(disassembler.packets.Values - old(disassembler.packets.Values))
        invariant LoopReached(codec, start, turns[..i], View(), output, already)
      {
        LoopStep(codec, start, turns, i, View(), output, already);
        HandleEvent(turns[i].event);
        ResendQueued(turns[i].connected);
      }
      assert turns[..|turns|] == turns;
    }
  }

  ghost predicate LoopReached(c: Codec, start: Outbox, turns: seq<Turn>, o: Outbox,
                              output: seq<Output>, already: seq<Output>)
    requires forall turn | turn in turns :: Writable(c, turn.event)
  {
    o == Loop(c, start, turns).0 && output == already + Loop(c, start, turns).1
  }

  lemma LoopStep(c: Codec, start: Outbox, turns: seq<Turn>, i: nat, o: Outbox,
                 output: seq<Output>, already: seq<Output>)
    requires forall turn | turn in turns :: Writable(c, turn.event)
    requires i < |turns| && LoopReached(c, start, turns[..i], o, output, already)
    ensures var (after, more) := Resend(Handle(c, o, turns[i].event), turns[i].connected);
            LoopReached(c, start, turns[..i + 1], after, output + more, already)
  {
    hide Handle, Resend;
    assert turns[..i + 1][..i] == turns[..i];
    assert turns[..i + 1][i] == turns[i];
    var (after, more) := Resend(Handle(c, o, turns[i].event), turns[i].connected);
    assert output + more == already + (Loop(c, start, turns[..i]).1 + more);
  }
}
