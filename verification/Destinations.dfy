/**
 * The sender's loop for several destinations: each has a queue of its own, but all share one table of
 * sent-notices, which is keyed by message id alone.
 */
module Destinations {
  import opened Packet
  import opened Fragments
  import opened Codecs
  import opened SenderQueue
  import opened Notices

  /** A destination's public key. */
  type Node = seq<byte>

  datatype Outboxes = Outboxes(senders: map<Node, Sender>, callbacks: map<MessageId, Callback>, fired: seq<Callback>)

  /** `message_disassemblers.entry(destination).or_default()` */
  function SenderTo(o: Outboxes, node: Node): Sender {
    if node in o.senders then o.senders[node] else EmptySender()
  }

  function WriteTo(c: Codec, o: Outboxes, node: Node, notify: Option<Callback>, message: Message): Outboxes
    requires Countable(Encode(c, message))
  {
    var (sender, id) := Enqueue(SenderTo(o, node), Encode(c, message));
    Outboxes(o.senders[node := sender],
             if notify.Some? then o.callbacks[id := notify.value] else o.callbacks,
             o.fired)
  }

  function UpdateFrom(o: Outboxes, node: Node, id: MessageId, head: bool, bodies: set<u16>): Outboxes {
    if node !in o.senders then
      o
    else
      var sender := Report(o.senders[node], id, head, bodies);
      var after := o.(senders := o.senders[node := sender]);
      if IsMessageConfirmed(sender, id) && id in o.callbacks then
        after.(callbacks := o.callbacks - {id}, fired := o.fired + [o.callbacks[id]])
      else
        after
  }

  /** An event of the loop that concerns one destination; a wakeup concerns none. */
  datatype Request = For(node: Node, event: Event)

  function HandleFor(c: Codec, o: Outboxes, r: Request): Outboxes
    requires Writable(c, r.event)
  {
    match r.event
    case WriteMessage(notify, message) => WriteTo(c, o, r.node, notify, message)
    case UpdateStatus(id, head, bodies) => UpdateFrom(o, r.node, id, head, bodies)
    case Wakeup => o
  }

  /** What follows every event: the front message of every destination is offered again, or retired. */
  function ServeAll(o: Outboxes): Outboxes {
    o.(senders := map node | node in o.senders :: Payloads(o.senders[node]).0)
  }

  lemma ServeAllServesEach(o: Outboxes, node: Node)
    ensures SenderTo(ServeAll(o), node) == Payloads(SenderTo(o, node)).0
    ensures node in ServeAll(o).senders <==> node in o.senders
  {
  }

  function LoopAll(c: Codec, o: Outboxes, requests: seq<Request>): Outboxes
    requires forall r | r in requests :: Writable(c, r.event)
  {
    if requests == [] then o
    else ServeAll(HandleFor(c, LoopAll(c, o, requests[..|requests| - 1]), requests[|requests| - 1]))
  }

  // ----- one destination -----

  /** What the loop looks like to those who write to one destination only. */
  function OutboxTo(o: Outboxes, node: Node): Outbox {
    Outbox(SenderTo(o, node), o.callbacks, o.fired)
  }

  lemma RequestConcernsOne(c: Codec, o: Outboxes, r: Request)
    requires Writable(c, r.event)
    ensures OutboxTo(HandleFor(c, o, r), r.node) == Handle(c, OutboxTo(o, r.node), r.event)
    ensures forall other | other != r.node :: SenderTo(HandleFor(c, o, r), other) == SenderTo(o, other)
    ensures HandleFor(c, o, r).senders.Keys
         == if r.event.WriteMessage? then o.senders.Keys + {r.node} else o.senders.Keys
  {
  }

  function AllFor(node: Node, turns: seq<Turn>): seq<Request> {
    seq(|turns|, i requires 0 <= i < |turns| => For(node, turns[i].event))
  }

  /** While all events concern one destination, the shared table is that destination's own. */
  lemma {:induction false} OneDestinationHasItsOwnTable(c: Codec, o: Outboxes, node: Node, turns: seq<Turn>)
    requires forall turn | turn in turns :: Writable(c, turn.event)
    ensures OutboxTo(LoopAll(c, o, AllFor(node, turns)), node) == Loop(c, OutboxTo(o, node), turns).0
  {
    if turns != [] {
      var before, last := turns[..|turns| - 1], turns[|turns| - 1];
      OneDestinationHasItsOwnTable(c, o, node, before);
      assert AllFor(node, turns)[..|turns| - 1] == AllFor(node, before);
      var reached := LoopAll(c, o, AllFor(node, before));
      RequestConcernsOne(c, reached, For(node, last.event));
      ServeAllServesEach(HandleFor(c, reached, For(node, last.event)), node);
    }
  }

  /** Everybody who waits goes on waiting, exactly when nobody at any destination waits under the new id. */
  lemma WriteKeepsOthersWaitingExactly(c: Codec, o: Outboxes, node: Node, callback: Callback, message: Message)
    requires Countable(Encode(c, message)) && callback !in o.callbacks.Values
    ensures var after := WriteTo(c, o, node, Some(callback), message).callbacks;
            (forall id | id in o.callbacks :: id in after && after[id] == o.callbacks[id])
            <==> SenderTo(o, node).highestMessageId !in o.callbacks
  {
  }

  /**
   * With two destinations that condition fails at the first messages already: whoever waits for the one
   * is forgotten, and its confirmation notifies whoever waits for the other.
   */
  lemma SecondDestinationTakesNotice(c: Codec, one: Node, other: Node, m1: Message, m2: Message)
    requires one != other && Countable(Encode(c, m1)) && Countable(Encode(c, m2))
    ensures var start := Outboxes(map[], map[], []);
            var written := WriteTo(c, WriteTo(c, start, one, Some(1), m1), other, Some(2), m2);
            && written.callbacks == map[0 := 2]
            && forall bodies: set<u16> | (forall i: u16 | i < BodyCount(Encode(c, m1).payload) :: i in bodies) ::
                 var after := UpdateFrom(written, one, 0, true, bodies);
                 after.fired == [2] && after.callbacks == map[]
  {
    var start := Outboxes(map[], map[], []);
    var written := WriteTo(c, WriteTo(c, start, one, Some(1), m1), other, Some(2), m2);
    forall bodies: set<u16> | (forall i: u16 | i < BodyCount(Encode(c, m1).payload) :: i in bodies)
      ensures UpdateFrom(written, one, 0, true, bodies).fired == [2]
      ensures UpdateFrom(written, one, 0, true, bodies).callbacks == map[]
    {
      assert written.senders[one].packets == map[0 := NewTracker(Encode(c, m1))];
      assert map[0 := 2 as Callback] - {0} == map[];
    }
  }

  /** Requests one after the other, with the service that follows each. */
  lemma LoopOfThree(c: Codec, o: Outboxes, one: Request, two: Request, three: Request)
    requires Writable(c, one.event) && Writable(c, two.event) && Writable(c, three.event)
    ensures var first := ServeAll(HandleFor(c, o, one));
            var second := ServeAll(HandleFor(c, first, two));
            LoopAll(c, o, [one, two, three]) == ServeAll(HandleFor(c, second, three))
  {
    hide HandleFor, ServeAll;
    assert [one, two, three][..2] == [one, two] && [one, two][..1] == [one] && [one][..0] == [];
    assert LoopAll(c, o, [one]) == ServeAll(HandleFor(c, o, one));
    assert LoopAll(c, o, [one, two]) == ServeAll(HandleFor(c, ServeAll(HandleFor(c, o, one)), two));
  }

  /** The sender of a first message, which nothing is confirmed of yet. */
  function FirstOf(m: Encoded): Sender
    requires Countable(m)
  {
    Enqueue(EmptySender(), m).0
  }

  /** A first message to a destination, while every other destination has just its first message. */
  lemma FirstWrite(c: Codec, o: Outboxes, node: Node, notify: Option<Callback>, m: Message)
    requires Countable(Encode(c, m)) && node !in o.senders
    requires forall other | other in o.senders :: Payloads(o.senders[other]).0 == o.senders[other]
    ensures ServeAll(HandleFor(c, o, For(node, WriteMessage(notify, m))))
         == Outboxes(o.senders[node := FirstOf(Encode(c, m))],
                     if notify.Some? then o.callbacks[0 := notify.value] else o.callbacks, o.fired)
    ensures Payloads(FirstOf(Encode(c, m))).0 == FirstOf(Encode(c, m))
  {
    FreshOffersAreTheMessage(Encode(c, m));
    assert Payloads(FirstOf(Encode(c, m))).0 == FirstOf(Encode(c, m));
  }

  /** Everything about the first message to a destination is confirmed, somebody waits for id 0. */
  lemma FirstReport(c: Codec, o: Outboxes, node: Node, m: Message, bodies: set<u16>)
    requires Countable(Encode(c, m)) && node in o.senders && o.senders[node] == FirstOf(Encode(c, m))
    requires 0 in o.callbacks && forall i: u16 | i < BodyCount(Encode(c, m).payload) :: i in bodies
    ensures var after := ServeAll(HandleFor(c, o, For(node, UpdateStatus(0, true, bodies))));
            && after.fired == o.fired + [o.callbacks[0]]
            && forall other | other != node && other in o.senders ::
                 SenderTo(after, other) == Payloads(o.senders[other]).0
  {
    assert IsMessageConfirmed(Report(FirstOf(Encode(c, m)), 0, true, bodies), 0);
  }

  /**
   * One waiting sender is enough: whoever waits for the first message to one destination is notified when
   * the first message to another is confirmed, whichever of the two was written first, and while nothing
   * of the awaited message is.
   */
  lemma OthersConfirmationNotifies(c: Codec, one: Node, other: Node, m1: Message, m2: Message, bodies: set<u16>,
                                   awaitedFirst: bool)
    requires one != other && Countable(Encode(c, m1)) && Countable(Encode(c, m2))
    requires forall i: u16 | i < BodyCount(Encode(c, m2).payload) :: i in bodies
    ensures var awaited, silent := For(one, WriteMessage(Some(1), m1)), For(other, WriteMessage(None, m2));
            var report := For(other, UpdateStatus(0, true, bodies));
            var after := LoopAll(c, Outboxes(map[], map[], []),
                                 if awaitedFirst then [awaited, silent, report] else [silent, awaited, report]);
            && after.fired == [1]
            && SenderTo(after, one).packets == map[0 := NewTracker(Encode(c, m1))]
  {
    hide HandleFor, ServeAll, LoopAll, Payloads, Countable;
    var awaited, silent := For(one, WriteMessage(Some(1), m1)), For(other, WriteMessage(None, m2));
    var report := For(other, UpdateStatus(0, true, bodies));
    var start := Outboxes(map[], map[], []);
    FirstWrite(c, start, one, Some(1), m1);
    FirstWrite(c, start, other, None, m2);
    if awaitedFirst {
      LoopOfThree(c, start, awaited, silent, report);
      var first := ServeAll(HandleFor(c, start, awaited));
      FirstWrite(c, first, other, None, m2);
      FirstReport(c, ServeAll(HandleFor(c, first, silent)), other, m2, bodies);
    } else {
      LoopOfThree(c, start, silent, awaited, report);
      var first := ServeAll(HandleFor(c, start, silent));
      FirstWrite(c, first, one, Some(1), m1);
      FirstReport(c, ServeAll(HandleFor(c, first, awaited)), other, m2, bodies);
    }
  }
}
