/**
 * Runs of the sender's loop over several destinations. The table of sent-notices that they share loses
 * and misdirects none exactly when every message is written under an id that is clean at the time.
 */
module SharedTable {
  import opened Packet
  import opened Fragments
  import opened Codecs
  import opened SenderQueue
  import opened Notices
  import opened Destinations

  /** What somebody waits for: a message, by its destination and its number there. */
  datatype Awaiting = Awaiting(node: Node, number: nat)

  /** The loop, and on record: how many messages were queued and retired, and who waits for which. */
  datatype Ledger = Ledger(
    boxes: Outboxes,
    written: map<Node, nat>,
    retired: map<Node, nat>,
    waiting: map<Callback, Awaiting>)

  function Blank(): Ledger {
    Ledger(Outboxes(map[], map[], []), map[], map[], map[])
  }

  function Count(counts: map<Node, nat>, node: Node): nat {
    if node in counts then counts[node] else 0
  }

  /** A message may be queued while an id is free there; everybody who waits is somebody else. */
  predicate Allowed(c: Codec, l: Ledger, r: Request) {
    && Writable(c, r.event)
    && (r.event.WriteMessage? ==>
          && Count(l.written, r.node) < Count(l.retired, r.node) + ID_SPACE
          && (r.event.notify.Some? ==> r.event.notify.value !in l.waiting))
  }

  function Recorded(c: Codec, l: Ledger, r: Request): Ledger
    requires Allowed(c, l, r)
  {
    var boxes := HandleFor(c, l.boxes, r);
    if r.event.WriteMessage? then
      var n := Count(l.written, r.node);
      Ledger(boxes, l.written[r.node := n + 1], l.retired,
             if r.event.notify.Some? then l.waiting[r.event.notify.value := Awaiting(r.node, n)] else l.waiting)
    else
      l.(boxes := boxes)
  }

  function RetiredBy(o: Outboxes, node: Node): nat {
    var sender := SenderTo(o, node);
    if Payloads(sender).0.nextMessageId != sender.nextMessageId then 1 else 0
  }

  function AllServed(l: Ledger): Ledger {
    l.(boxes := ServeAll(l.boxes),
       retired := map node | node in l.boxes.senders.Keys + l.retired.Keys ::
                    Count(l.retired, node) + RetiredBy(l.boxes, node))
  }

  /** `None` once a request was not possible. */
  function RunShared(c: Codec, requests: seq<Request>): Option<Ledger> {
    if requests == [] then
      Some(Blank())
    else
      var before := RunShared(c, requests[..|requests| - 1]);
      var r := requests[|requests| - 1];
      if before.Some? && Allowed(c, before.value, r) then Some(AllServed(Recorded(c, before.value, r))) else None
  }

  // ----- what can go wrong -----

  /** Somebody who waits is forgotten: the new message takes over their entry. */
  predicate Loses(l: Ledger, r: Request) {
    r.event.WriteMessage? && r.event.notify.Some? && SenderTo(l.boxes, r.node).highestMessageId in l.boxes.callbacks
  }

  /** Whom a request notifies, if anybody. */
  function Notified(c: Codec, l: Ledger, r: Request): Option<Callback>
    requires Writable(c, r.event)
  {
    var fired := HandleFor(c, l.boxes, r).fired;
    if |fired| > |l.boxes.fired| then Some(fired[|l.boxes.fired|]) else None
  }

  /** The number of the message that an id stands for at a destination. */
  function NumberOf(l: Ledger, node: Node, id: MessageId): nat {
    Count(l.retired, node) + Position(SenderTo(l.boxes, node), id)
  }

  /** Somebody is notified by a report about a message that they do not wait for. */
  predicate Misdirects(c: Codec, l: Ledger, r: Request)
    requires Writable(c, r.event)
  {
    r.event.UpdateStatus?
    && var notified := Notified(c, l, r);
       notified.Some?
       && !(notified.value in l.waiting
            && l.waiting[notified.value] == Awaiting(r.node, NumberOf(l, r.node, r.event.id)))
  }

  // ----- the condition -----

  /** No other destination has a message under this id, once those that are confirmed at the front are gone. */
  predicate FreeElsewhere(o: Outboxes, node: Node, id: MessageId) {
    forall other | other in o.senders && other != node :: id !in Payloads(o.senders[other]).0.packets
  }

  /**
   * Nobody waits under the new message's id; and if somebody is going to wait for it, no other
   * destination has a message under that id.
   */
  predicate Clean(l: Ledger, r: Request) {
    r.event.WriteMessage? ==>
      var id := SenderTo(l.boxes, r.node).highestMessageId;
      && id !in l.boxes.callbacks
      && (r.event.notify.Some? ==> FreeElsewhere(l.boxes, r.node, id))
  }

  /** A request is safe when nobody is lost by it, and no report that may come next notifies the wrong one. */
  ghost predicate Safe(c: Codec, l: Ledger, r: Request)
    requires Allowed(c, l, r)
  {
    && !Loses(l, r)
    && forall report: Request | report.event.UpdateStatus? :: !Misdirects(c, AllServed(Recorded(c, l, r)), report)
  }

  // ----- the invariant -----

  function QueueFor(queues: map<Node, seq<Tracker>>, node: Node): seq<Tracker> {
    if node in queues then queues[node] else []
  }

  ghost predicate BoxOk(sender: Sender, queue: seq<Tracker>, retired: nat, written: nat) {
    Queues(sender, queue) && sender.nextMessageId == IdOf(retired) && retired + |queue| == written
  }

  ghost predicate BoxesOk(l: Ledger, queues: map<Node, seq<Tracker>>) {
    forall node: Node ::
      BoxOk(SenderTo(l.boxes, node), QueueFor(queues, node), Count(l.retired, node), Count(l.written, node))
  }

  /** The message under this id is still queued and unconfirmed where it is awaited. */
  ghost predicate EntryOk(queue: seq<Tracker>, retired: nat, id: MessageId, number: nat) {
    && id == IdOf(number)
    && retired <= number < retired + |queue|
    && !Confirmed(queue[number - retired])
  }

  ghost predicate TableOk(callbacks: map<MessageId, Callback>, waiting: map<Callback, Awaiting>,
                          retired: map<Node, nat>, queues: map<Node, seq<Tracker>>)
  {
    forall id | id in callbacks ::
      callbacks[id] in waiting
      && var a := waiting[callbacks[id]];
         EntryOk(QueueFor(queues, a.node), Count(retired, a.node), id, a.number)
  }

  /** No destination but the awaited one has a message under an id in the table. */
  ghost predicate Exclusive(l: Ledger, reach: Outboxes) {
    forall id | id in l.boxes.callbacks && l.boxes.callbacks[id] in l.waiting ::
      forall other: Node | other != l.waiting[l.boxes.callbacks[id]].node :: id !in SenderTo(reach, other).packets
  }

  /** Whoever waits has been notified or is in the table, and nobody both; nobody was notified twice. */
  ghost predicate TokensOk(callbacks: map<MessageId, Callback>, fired: seq<Callback>,
                           waiting: map<Callback, Awaiting>)
  {
    && (forall token | token in waiting ::
          token in fired
          || (IdOf(waiting[token].number) in callbacks && callbacks[IdOf(waiting[token].number)] == token))
    && (forall token | token in fired :: token in waiting)
    && (forall id | id in callbacks :: callbacks[id] !in fired)
    && Distinct(fired)
  }

  ghost predicate SharedInv(l: Ledger, queues: map<Node, seq<Tracker>>) {
    && BoxesOk(l, queues)
    && TableOk(l.boxes.callbacks, l.waiting, l.retired, queues)
    && TokensOk(l.boxes.callbacks, l.boxes.fired, l.waiting)
  }

  // ----- a message is written -----

  lemma NextIdIsOfNext(sender: Sender, queue: seq<Tracker>, retired: nat, written: nat)
    requires BoxOk(sender, queue, retired, written)
    ensures sender.highestMessageId == IdOf(written)
  {
    hide IdOf, WrappingSub;
    IdOfSum(retired, |queue|);
  }

  lemma WriteKeepsBoxes(c: Codec, l: Ledger, queues: map<Node, seq<Tracker>>, r: Request)
    requires BoxesOk(l, queues) && Allowed(c, l, r) && r.event.WriteMessage?
    ensures var queue := QueueFor(queues, r.node) + [NewTracker(Encode(c, r.event.message))];
            BoxesOk(Recorded(c, l, r), queues[r.node := queue])
  {
    var m := Encode(c, r.event.message);
    var queues' := queues[r.node := QueueFor(queues, r.node) + [NewTracker(m)]];
    var l' := Recorded(c, l, r);
    forall node: Node
      ensures BoxOk(SenderTo(l'.boxes, node), QueueFor(queues', node), Count(l'.retired, node), Count(l'.written, node))
    {
      assert BoxOk(SenderTo(l.boxes, node), QueueFor(queues, node), Count(l.retired, node), Count(l.written, node));
      if node == r.node {
        EnqueueAppends(SenderTo(l.boxes, node), QueueFor(queues, node), m);
      }
    }
  }

  lemma LongerQueueKeepsTable(callbacks: map<MessageId, Callback>, waiting: map<Callback, Awaiting>,
                              retired: map<Node, nat>, queues: map<Node, seq<Tracker>>, node: Node, t: Tracker)
    requires TableOk(callbacks, waiting, retired, queues)
    ensures TableOk(callbacks, waiting, retired, queues[node := QueueFor(queues, node) + [t]])
  {
    var queues' := queues[node := QueueFor(queues, node) + [t]];
    forall id | id in callbacks
      ensures var a := waiting[callbacks[id]];
              EntryOk(QueueFor(queues', a.node), Count(retired, a.node), id, a.number)
    {
      var a := waiting[callbacks[id]];
      assert EntryOk(QueueFor(queues, a.node), Count(retired, a.node), id, a.number);
    }
  }

  /** Somebody starts to wait for the last message of a queue. */
  lemma NewEntryKeepsTable(callbacks: map<MessageId, Callback>, waiting: map<Callback, Awaiting>,
                           retired: map<Node, nat>, queues: map<Node, seq<Tracker>>, node: Node, token: Callback)
    requires TableOk(callbacks, waiting, retired, queues) && token !in waiting
    requires var queue := QueueFor(queues, node); queue != [] && !Confirmed(queue[|queue| - 1])
    ensures var n := Count(retired, node) + |QueueFor(queues, node)| - 1;
            TableOk(callbacks[IdOf(n) := token], waiting[token := Awaiting(node, n)], retired, queues)
  {
    var n := Count(retired, node) + |QueueFor(queues, node)| - 1;
    assert EntryOk(QueueFor(queues, node), Count(retired, node), IdOf(n), n);
  }

  lemma WriteKeepsTable(c: Codec, l: Ledger, queues: map<Node, seq<Tracker>>, r: Request)
    requires BoxesOk(l, queues) && TableOk(l.boxes.callbacks, l.waiting, l.retired, queues)
    requires Allowed(c, l, r) && r.event.WriteMessage?
    ensures var after := Recorded(c, l, r);
            var queue := QueueFor(queues, r.node) + [NewTracker(Encode(c, r.event.message))];
            TableOk(after.boxes.callbacks, after.waiting, after.retired, queues[r.node := queue])
  {
    var t := NewTracker(Encode(c, r.event.message));
    var queues' := queues[r.node := QueueFor(queues, r.node) + [t]];
    assert BoxOk(SenderTo(l.boxes, r.node), QueueFor(queues, r.node), Count(l.retired, r.node),
                 Count(l.written, r.node));
    NextIdIsOfNext(SenderTo(l.boxes, r.node), QueueFor(queues, r.node), Count(l.retired, r.node),
                   Count(l.written, r.node));
    LongerQueueKeepsTable(l.boxes.callbacks, l.waiting, l.retired, queues, r.node, t);
    hide TableOk, BoxesOk, Queues;
    if r.event.notify.Some? {
      NewEntryKeepsTable(l.boxes.callbacks, l.waiting, l.retired, queues', r.node, r.event.notify.value);
    }
  }

  lemma WriteKeepsTokens(c: Codec, l: Ledger, queues: map<Node, seq<Tracker>>, r: Request)
    requires BoxesOk(l, queues) && TokensOk(l.boxes.callbacks, l.boxes.fired, l.waiting)
    requires Allowed(c, l, r) && r.event.WriteMessage? && Clean(l, r)
    ensures var after := Recorded(c, l, r);
            TokensOk(after.boxes.callbacks, after.boxes.fired, after.waiting)
  {
    assert BoxOk(SenderTo(l.boxes, r.node), QueueFor(queues, r.node), Count(l.retired, r.node),
                 Count(l.written, r.node));
    NextIdIsOfNext(SenderTo(l.boxes, r.node), QueueFor(queues, r.node), Count(l.retired, r.node),
                   Count(l.written, r.node));
  }

  lemma ServingOnlyRemoves(s: Sender)
    ensures Payloads(s).0.packets.Keys <= s.packets.Keys
  {
  }

  lemma WriteKeepsExclusive(c: Codec, l: Ledger, r: Request)
    requires Exclusive(l, l.boxes) && Allowed(c, l, r) && r.event.WriteMessage? && Clean(l, r)
    requires forall id | id in l.boxes.callbacks :: l.boxes.callbacks[id] in l.waiting
    ensures var after := Recorded(c, l, r);
            Exclusive(after, ServeAll(after.boxes))
  {
    var after := Recorded(c, l, r);
    var k := SenderTo(l.boxes, r.node).highestMessageId;
    forall id, other: Node |
      id in after.boxes.callbacks && after.boxes.callbacks[id] in after.waiting
      && other != after.waiting[after.boxes.callbacks[id]].node
      ensures id !in SenderTo(ServeAll(after.boxes), other).packets
    {
      ServeAllServesEach(after.boxes, other);
      ServingOnlyRemoves(SenderTo(after.boxes, other));
      RequestConcernsOne(c, l.boxes, r);
      if id != k {
        assert id !in SenderTo(l.boxes, other).packets;
      }
    }
  }

  // ----- a report arrives -----

  /** The tracker of an id at a destination after a report. */
  function Reported(t: Tracker, e: Event): Tracker
    requires e.UpdateStatus?
  {
    t.(headConfirmed := e.head, bodiesConfirmed := e.bodies)
  }

  function QueuesAfterReport(l: Ledger, queues: map<Node, seq<Tracker>>, r: Request): map<Node, seq<Tracker>>
    requires r.event.UpdateStatus?
  {
    var k := Position(SenderTo(l.boxes, r.node), r.event.id);
    var queue := QueueFor(queues, r.node);
    if k < |queue| then queues[r.node := queue[k := Reported(queue[k], r.event)]] else queues
  }

  lemma ReportKeepsBox(sender: Sender, queue: seq<Tracker>, retired: nat, written: nat, e: Event)
    requires BoxOk(sender, queue, retired, written) && e.UpdateStatus?
    ensures var k := Position(sender, e.id);
            BoxOk(Report(sender, e.id, e.head, e.bodies),
                  if k < |queue| then queue[k := Reported(queue[k], e)] else queue, retired, written)
  {
    hide Queues;
    ReportUpdatesOne(sender, queue, e.id, e.head, e.bodies);
  }

  lemma ReportKeepsBoxes(c: Codec, l: Ledger, queues: map<Node, seq<Tracker>>, r: Request)
    requires BoxesOk(l, queues) && Allowed(c, l, r) && r.event.UpdateStatus?
    ensures BoxesOk(Recorded(c, l, r), QueuesAfterReport(l, queues, r))
  {
    hide BoxOk, Report, Position, Confirmed, IsMessageConfirmed;
    var l' := Recorded(c, l, r);
    var queues' := QueuesAfterReport(l, queues, r);
    forall node: Node
      ensures BoxOk(SenderTo(l'.boxes, node), QueueFor(queues', node), Count(l'.retired, node), Count(l'.written, node))
    {
      assert BoxOk(SenderTo(l.boxes, node), QueueFor(queues, node), Count(l.retired, node), Count(l.written, node));
      if node == r.node && node in l.boxes.senders {
        ReportKeepsBox(l.boxes.senders[node], QueueFor(queues, node), Count(l.retired, node), Count(l.written, node),
                       r.event);
      } else if node == r.node {
        EmptyHasNoQueue(QueueFor(queues, node), Count(l.retired, node), Count(l.written, node), r.event.id);
      }
    }
  }

  lemma EmptyHasNoQueue(queue: seq<Tracker>, retired: nat, written: nat, id: MessageId)
    requires BoxOk(EmptySender(), queue, retired, written)
    ensures Position(EmptySender(), id) >= |queue|
  {
  }

  /** An entry of the table under an id of this destination belongs to the message that has the id there. */
  lemma EntryBelongs(l: Ledger, queues: map<Node, seq<Tracker>>, node: Node, id: MessageId)
    requires BoxesOk(l, queues) && TableOk(l.boxes.callbacks, l.waiting, l.retired, queues)
    requires Exclusive(l, l.boxes)
    requires id in l.boxes.callbacks && id in SenderTo(l.boxes, node).packets
    ensures l.boxes.callbacks[id] in l.waiting
    ensures l.waiting[l.boxes.callbacks[id]] == Awaiting(node, NumberOf(l, node, id))
  {
    hide Confirmed, Payloads, TokensOk;
    assert BoxOk(SenderTo(l.boxes, node), QueueFor(queues, node), Count(l.retired, node), Count(l.written, node));
    var a := l.waiting[l.boxes.callbacks[id]];
    assert EntryOk(QueueFor(queues, a.node), Count(l.retired, a.node), id, a.number);
    assert a.node == node;
    NumberAtDistance(Count(l.retired, node), id);
    SameIdSameMessage(Count(l.retired, node), a.number, NumberOf(l, node, id));
  }

  lemma NoReportMisdirects(c: Codec, l: Ledger, queues: map<Node, seq<Tracker>>, r: Request)
    requires SharedInv(l, queues) && Exclusive(l, l.boxes) && r.event.UpdateStatus?
    ensures !Misdirects(c, l, r)
  {
    if Notified(c, l, r).Some? {
      EntryBelongs(l, queues, r.node, r.event.id);
    }
  }

  /** Whether a report about this tracker notifies somebody, and what it does to the table. */
  lemma ReportFires(c: Codec, l: Ledger, queues: map<Node, seq<Tracker>>, r: Request)
    requires BoxesOk(l, queues) && Allowed(c, l, r) && r.event.UpdateStatus?
    ensures var after := Recorded(c, l, r);
            var queue := QueueFor(queues, r.node);
            var k := Position(SenderTo(l.boxes, r.node), r.event.id);
            && after.waiting == l.waiting && after.retired == l.retired
            && if r.event.id in l.boxes.callbacks && k < |queue| && Confirmed(Reported(queue[k], r.event)) then
                 && r.event.id in SenderTo(l.boxes, r.node).packets
                 && after.boxes.callbacks == l.boxes.callbacks - {r.event.id}
                 && after.boxes.fired == l.boxes.fired + [l.boxes.callbacks[r.event.id]]
               else
                 after.boxes.callbacks == l.boxes.callbacks && after.boxes.fired == l.boxes.fired
  {
    assert BoxOk(SenderTo(l.boxes, r.node), QueueFor(queues, r.node), Count(l.retired, r.node),
                 Count(l.written, r.node));
    ReportConfirms(SenderTo(l.boxes, r.node), QueueFor(queues, r.node), r.event.id, r.event.head, r.event.bodies);
  }

  lemma TrackerKeepsTable(callbacks: map<MessageId, Callback>, waiting: map<Callback, Awaiting>,
                          retired: map<Node, nat>, queues: map<Node, seq<Tracker>>, node: Node, k: nat, t: Tracker)
    requires TableOk(callbacks, waiting, retired, queues) && k < |QueueFor(queues, node)|
    requires Confirmed(t) ==> IdOf(Count(retired, node) + k) !in callbacks
    ensures TableOk(callbacks, waiting, retired, queues[node := QueueFor(queues, node)[k := t]])
  {
    var queues' := queues[node := QueueFor(queues, node)[k := t]];
    forall id | id in callbacks
      ensures var a := waiting[callbacks[id]];
              EntryOk(QueueFor(queues', a.node), Count(retired, a.node), id, a.number)
    {
      var a := waiting[callbacks[id]];
      assert EntryOk(QueueFor(queues, a.node), Count(retired, a.node), id, a.number);
    }
  }

  lemma FewerEntriesKeepTable(callbacks: map<MessageId, Callback>, waiting: map<Callback, Awaiting>,
                              retired: map<Node, nat>, queues: map<Node, seq<Tracker>>, id: MessageId)
    requires TableOk(callbacks, waiting, retired, queues)
    ensures TableOk(callbacks - {id}, waiting, retired, queues)
  {
  }

  lemma ReportKeepsTable(c: Codec, l: Ledger, queues: map<Node, seq<Tracker>>, r: Request)
    requires SharedInv(l, queues) && Allowed(c, l, r) && r.event.UpdateStatus?
    ensures var after := Recorded(c, l, r);
            TableOk(after.boxes.callbacks, after.waiting, after.retired, QueuesAfterReport(l, queues, r))
  {
    hide EntryOk, TableOk, TokensOk, Queues, Recorded, Confirmed;
    var k := Position(SenderTo(l.boxes, r.node), r.event.id);
    var queue := QueueFor(queues, r.node);
    assert BoxOk(SenderTo(l.boxes, r.node), queue, Count(l.retired, r.node), Count(l.written, r.node));
    hide BoxesOk;
    ReportFires(c, l, queues, r);
    NumberAtDistance(Count(l.retired, r.node), r.event.id);
    FewerEntriesKeepTable(l.boxes.callbacks, l.waiting, l.retired, queues, r.event.id);
    if k < |queue| {
      TrackerKeepsTable(Recorded(c, l, r).boxes.callbacks, l.waiting, l.retired, queues, r.node, k,
                        Reported(queue[k], r.event));
    }
  }

  lemma FiringKeepsTokens(callbacks: map<MessageId, Callback>, fired: seq<Callback>,
                          waiting: map<Callback, Awaiting>, id: MessageId)
    requires TokensOk(callbacks, fired, waiting) && id in callbacks
    requires forall other | other in callbacks ::
               callbacks[other] in waiting && IdOf(waiting[callbacks[other]].number) == other
    ensures TokensOk(callbacks - {id}, fired + [callbacks[id]], waiting)
  {
  }

  lemma EntriesHaveTheirIds(callbacks: map<MessageId, Callback>, waiting: map<Callback, Awaiting>,
                            retired: map<Node, nat>, queues: map<Node, seq<Tracker>>)
    requires TableOk(callbacks, waiting, retired, queues)
    ensures forall id | id in callbacks :: callbacks[id] in waiting && IdOf(waiting[callbacks[id]].number) == id
  {
  }

  lemma ReportKeepsTokens(c: Codec, l: Ledger, queues: map<Node, seq<Tracker>>, r: Request)
    requires SharedInv(l, queues) && Allowed(c, l, r) && r.event.UpdateStatus?
    ensures var after := Recorded(c, l, r);
            TokensOk(after.boxes.callbacks, after.boxes.fired, after.waiting)
  {
    ReportFires(c, l, queues, r);
    EntriesHaveTheirIds(l.boxes.callbacks, l.waiting, l.retired, queues);
    hide TokensOk, Recorded, BoxesOk, TableOk;
    if r.event.id in l.boxes.callbacks {
      FiringKeepsTokens(l.boxes.callbacks, l.boxes.fired, l.waiting, r.event.id);
    }
  }

  lemma ReportKeepsExclusive(c: Codec, l: Ledger, r: Request)
    requires Exclusive(l, l.boxes) && Allowed(c, l, r) && r.event.UpdateStatus?
    ensures var after := Recorded(c, l, r);
            Exclusive(after, ServeAll(after.boxes))
  {
    var after := Recorded(c, l, r);
    forall id, other: Node |
      id in after.boxes.callbacks && after.boxes.callbacks[id] in after.waiting
      && other != after.waiting[after.boxes.callbacks[id]].node
      ensures id !in SenderTo(ServeAll(after.boxes), other).packets
    {
      ServeAllServesEach(after.boxes, other);
      ServingOnlyRemoves(SenderTo(after.boxes, other));
      assert id !in SenderTo(l.boxes, other).packets;
    }
  }

  // ----- every destination is served -----

  function QueuesServed(queues: map<Node, seq<Tracker>>): map<Node, seq<Tracker>> {
    map node | node in queues ::
      if queues[node] != [] && Confirmed(queues[node][0]) then queues[node][1..] else queues[node]
  }

  lemma ServeBox(sender: Sender, queue: seq<Tracker>, retired: nat, written: nat)
    requires BoxOk(sender, queue, retired, written)
    ensures var after := Payloads(sender).0;
            var retires := queue != [] && Confirmed(queue[0]);
            && (after.nextMessageId != sender.nextMessageId <==> retires)
            && BoxOk(after, if retires then queue[1..] else queue, if retires then retired + 1 else retired, written)
  {
    PayloadsServesFront(sender, queue);
    IdOfSuccessor(retired);
  }

  lemma ServeOne(l: Ledger, queues: map<Node, seq<Tracker>>, node: Node)
    requires BoxesOk(l, queues)
    ensures var queue := QueueFor(queues, node);
            var retires := queue != [] && Confirmed(queue[0]);
            && QueueFor(QueuesServed(queues), node) == (if retires then queue[1..] else queue)
            && Count(AllServed(l).retired, node) == Count(l.retired, node) + (if retires then 1 else 0)
            && BoxOk(SenderTo(AllServed(l).boxes, node), QueueFor(QueuesServed(queues), node),
                     Count(AllServed(l).retired, node), Count(l.written, node))
  {
    hide BoxOk, Payloads, Confirmed;
    assert BoxOk(SenderTo(l.boxes, node), QueueFor(queues, node), Count(l.retired, node), Count(l.written, node));
    ServeAllServesEach(l.boxes, node);
    ServeBox(SenderTo(l.boxes, node), QueueFor(queues, node), Count(l.retired, node), Count(l.written, node));
    if node !in l.boxes.senders {
      EmptyServesNothing();
    }
  }

  lemma EmptyServesNothing()
    ensures Payloads(EmptySender()).0 == EmptySender()
  {
  }

  /** An awaited message is not confirmed, so it is not the one that is retired. */
  lemma EntryIsNotRetired(queue: seq<Tracker>, retired: nat, id: MessageId, number: nat)
    requires EntryOk(queue, retired, id, number)
    ensures queue != [] && Confirmed(queue[0]) ==> EntryOk(queue[1..], retired + 1, id, number)
  {
  }

  lemma ServeKeepsEntry(l: Ledger, queues: map<Node, seq<Tracker>>, id: MessageId, a: Awaiting)
    requires BoxesOk(l, queues)
    requires EntryOk(QueueFor(queues, a.node), Count(l.retired, a.node), id, a.number)
    ensures EntryOk(QueueFor(QueuesServed(queues), a.node), Count(AllServed(l).retired, a.node), id, a.number)
  {
    hide BoxesOk, BoxOk, EntryOk, AllServed, QueuesServed, Confirmed;
    ServeOne(l, queues, a.node);
    EntryIsNotRetired(QueueFor(queues, a.node), Count(l.retired, a.node), id, a.number);
  }

  lemma ServeKeepsTable(l: Ledger, queues: map<Node, seq<Tracker>>)
    requires BoxesOk(l, queues) && TableOk(l.boxes.callbacks, l.waiting, l.retired, queues)
    ensures TableOk(l.boxes.callbacks, l.waiting, AllServed(l).retired, QueuesServed(queues))
  {
    hide BoxesOk, AllServed, QueuesServed, EntryOk;
    forall id | id in l.boxes.callbacks
      ensures var a := l.waiting[l.boxes.callbacks[id]];
              EntryOk(QueueFor(QueuesServed(queues), a.node), Count(AllServed(l).retired, a.node), id, a.number)
    {
      ServeKeepsEntry(l, queues, id, l.waiting[l.boxes.callbacks[id]]);
    }
  }

  lemma ServeKeepsBoxes(l: Ledger, queues: map<Node, seq<Tracker>>)
    requires BoxesOk(l, queues)
    ensures BoxesOk(AllServed(l), QueuesServed(queues))
  {
    forall node: Node
      ensures BoxOk(SenderTo(AllServed(l).boxes, node), QueueFor(QueuesServed(queues), node),
                    Count(AllServed(l).retired, node), Count(AllServed(l).written, node))
    {
      ServeOne(l, queues, node);
    }
  }

  lemma ServeKeepsInv(l: Ledger, queues: map<Node, seq<Tracker>>)
    requires SharedInv(l, queues) && Exclusive(l, ServeAll(l.boxes))
    ensures SharedInv(AllServed(l), QueuesServed(queues)) && Exclusive(AllServed(l), AllServed(l).boxes)
  {
    ServeKeepsBoxes(l, queues);
    ServeKeepsTable(l, queues);
    hide BoxesOk, TableOk, TokensOk;
  }

  // ----- every run -----

  /** A clean request keeps all that the table promises. */
  lemma RequestKeepsInv(c: Codec, l: Ledger, queues: map<Node, seq<Tracker>>, r: Request)
    returns (queues': map<Node, seq<Tracker>>)
    requires SharedInv(l, queues) && Exclusive(l, l.boxes) && Allowed(c, l, r) && Clean(l, r)
    ensures SharedInv(Recorded(c, l, r), queues')
    ensures Exclusive(Recorded(c, l, r), ServeAll(Recorded(c, l, r).boxes))
  {
    match r.event
    case WriteMessage(_, message) =>
      queues' := queues[r.node := QueueFor(queues, r.node) + [NewTracker(Encode(c, message))]];
      WriteKeepsBoxes(c, l, queues, r);
      WriteKeepsTable(c, l, queues, r);
      WriteKeepsTokens(c, l, queues, r);
      WriteKeepsExclusive(c, l, r);
    case UpdateStatus(_, _, _) =>
      queues' := QueuesAfterReport(l, queues, r);
      ReportKeepsBoxes(c, l, queues, r);
      ReportKeepsTable(c, l, queues, r);
      ReportKeepsTokens(c, l, queues, r);
      ReportKeepsExclusive(c, l, r);
    case Wakeup =>
      queues' := queues;
      WakeupKeepsExclusive(l);
  }

  lemma WakeupKeepsExclusive(l: Ledger)
    requires Exclusive(l, l.boxes)
    ensures Exclusive(l, ServeAll(l.boxes))
  {
    forall id, other: Node |
      id in l.boxes.callbacks && l.boxes.callbacks[id] in l.waiting
      && other != l.waiting[l.boxes.callbacks[id]].node
      ensures id !in SenderTo(ServeAll(l.boxes), other).packets
    {
      ServeAllServesEach(l.boxes, other);
      ServingOnlyRemoves(SenderTo(l.boxes, other));
      assert id !in SenderTo(l.boxes, other).packets;
    }
  }

  lemma StepKeepsInv(c: Codec, l: Ledger, queues: map<Node, seq<Tracker>>, r: Request)
    returns (queues': map<Node, seq<Tracker>>)
    requires SharedInv(l, queues) && Exclusive(l, l.boxes) && Allowed(c, l, r) && Clean(l, r)
    ensures var after := AllServed(Recorded(c, l, r));
            SharedInv(after, queues') && Exclusive(after, after.boxes)
  {
    var queues0 := RequestKeepsInv(c, l, queues, r);
    ServeKeepsInv(Recorded(c, l, r), queues0);
    queues' := QueuesServed(queues0);
  }

  /** A clean request does no harm, not even later. */
  lemma CleanIsSafe(c: Codec, l: Ledger, queues: map<Node, seq<Tracker>>, r: Request)
    requires SharedInv(l, queues) && Exclusive(l, l.boxes) && Allowed(c, l, r) && Clean(l, r)
    ensures Safe(c, l, r)
  {
    var queues' := StepKeepsInv(c, l, queues, r);
    var after := AllServed(Recorded(c, l, r));
    forall report: Request | report.event.UpdateStatus? ensures !Misdirects(c, after, report) {
      NoReportMisdirects(c, after, queues', report);
    }
  }

  // ----- an unclean request does harm -----

  function IndicesBelow(n: nat): (indices: set<u16>)
    requires n <= 0x1_0000
    ensures forall i: u16 :: i in indices <==> i < n
  {
    if n == 0 then {} else IndicesBelow(n - 1) + {n - 1}
  }

  /** The report that all of a message has been received. */
  function FullReport(node: Node, id: MessageId): Request {
    For(node, UpdateStatus(id, true, IndicesBelow(0x1_0000)))
  }

  lemma FullReportNotifies(c: Codec, l: Ledger, node: Node, id: MessageId)
    requires id in SenderTo(l.boxes, node).packets && id in l.boxes.callbacks
    ensures Notified(c, l, FullReport(node, id)) == Some(l.boxes.callbacks[id])
  {
  }

  /** Somebody else's entry under an id that a destination has is taken for its own. */
  lemma WrongEntryMisdirects(c: Codec, l: Ledger, node: Node, id: MessageId)
    requires id in SenderTo(l.boxes, node).packets && id in l.boxes.callbacks
    requires l.boxes.callbacks[id] in l.waiting && l.waiting[l.boxes.callbacks[id]].node != node
    ensures Misdirects(c, l, FullReport(node, id))
  {
    FullReportNotifies(c, l, node, id);
  }

  /** An id that is next to be given out at a destination is not awaited there. */
  lemma NextIdIsAwaitedElsewhere(l: Ledger, queues: map<Node, seq<Tracker>>, node: Node)
    requires SharedInv(l, queues) && Count(l.written, node) < Count(l.retired, node) + ID_SPACE
    requires SenderTo(l.boxes, node).highestMessageId in l.boxes.callbacks
    ensures var token := l.boxes.callbacks[SenderTo(l.boxes, node).highestMessageId];
            token in l.waiting && l.waiting[token].node != node
  {
    var id := SenderTo(l.boxes, node).highestMessageId;
    assert BoxOk(SenderTo(l.boxes, node), QueueFor(queues, node), Count(l.retired, node), Count(l.written, node));
    NextIdIsOfNext(SenderTo(l.boxes, node), QueueFor(queues, node), Count(l.retired, node), Count(l.written, node));
    var a := l.waiting[l.boxes.callbacks[id]];
    assert EntryOk(QueueFor(queues, a.node), Count(l.retired, a.node), id, a.number);
    if a.node == node {
      SameIdSameMessage(Count(l.retired, node), a.number, Count(l.written, node));
    }
  }

  /** A message that has just been queued is not retired by the service that follows. */
  lemma NewMessageStays(s: Sender, m: Encoded)
    requires Countable(m)
    ensures s.highestMessageId in Payloads(Enqueue(s, m).0).0.packets
  {
    FreshOffersAreTheMessage(m);
  }

  /** Somebody waits under the id already. */
  lemma AwaitedIdIsUnsafe(c: Codec, l: Ledger, queues: map<Node, seq<Tracker>>, r: Request)
    requires SharedInv(l, queues) && Allowed(c, l, r) && r.event.WriteMessage?
    requires SenderTo(l.boxes, r.node).highestMessageId in l.boxes.callbacks
    ensures !Safe(c, l, r)
  {
    if r.event.notify.None? {
      var id := SenderTo(l.boxes, r.node).highestMessageId;
      var after := AllServed(Recorded(c, l, r));
      NextIdIsAwaitedElsewhere(l, queues, r.node);
      NewMessageStays(SenderTo(l.boxes, r.node), Encode(c, r.event.message));
      hide SharedInv, Payloads, Misdirects;
      WrongEntryMisdirects(c, after, r.node, id);
    }
  }

  /** Another destination has the id that somebody is going to wait under. */
  lemma SharedIdIsUnsafe(c: Codec, l: Ledger, r: Request, other: Node)
    requires Allowed(c, l, r) && r.event.WriteMessage? && r.event.notify.Some?
    requires other in l.boxes.senders && other != r.node
    requires SenderTo(l.boxes, r.node).highestMessageId in Payloads(l.boxes.senders[other]).0.packets
    ensures !Safe(c, l, r)
  {
    var id := SenderTo(l.boxes, r.node).highestMessageId;
    var after := AllServed(Recorded(c, l, r));
    hide Payloads, Misdirects;
    WrongEntryMisdirects(c, after, other, id);
  }

  lemma UncleanIsUnsafe(c: Codec, l: Ledger, queues: map<Node, seq<Tracker>>, r: Request)
    requires SharedInv(l, queues) && Allowed(c, l, r) && !Clean(l, r)
    ensures !Safe(c, l, r)
  {
    hide Safe, SharedInv, Allowed, Payloads;
    var id := SenderTo(l.boxes, r.node).highestMessageId;
    if id in l.boxes.callbacks {
      AwaitedIdIsUnsafe(c, l, queues, r);
    } else {
      var other :| other in l.boxes.senders && other != r.node && id in Payloads(l.boxes.senders[other]).0.packets;
      SharedIdIsUnsafe(c, l, r, other);
    }
  }

  // ----- the exact condition -----

  predicate AllClean(c: Codec, requests: seq<Request>)
    requires RunShared(c, requests).Some?
  {
    requests != [] ==>
      var before := requests[..|requests| - 1];
      AllClean(c, before) && Clean(RunShared(c, before).value, requests[|requests| - 1])
  }

  /** At no point of the run is anybody lost, or would any report that may come next notify the wrong one. */
  ghost predicate AlwaysSafe(c: Codec, requests: seq<Request>)
    requires RunShared(c, requests).Some?
  {
    requests != [] ==>
      var before := requests[..|requests| - 1];
      AlwaysSafe(c, before) && Safe(c, RunShared(c, before).value, requests[|requests| - 1])
  }

  lemma {:induction false} CleanRunKeepsInv(c: Codec, requests: seq<Request>) returns (queues: map<Node, seq<Tracker>>)
    requires RunShared(c, requests).Some? && AllClean(c, requests)
    ensures var l := RunShared(c, requests).value;
            SharedInv(l, queues) && Exclusive(l, l.boxes)
  {
    queues := map[];
    if requests != [] {
      queues := CleanRunKeepsInv(c, requests[..|requests| - 1]);
      hide SharedInv, Exclusive, AllServed, Recorded, Allowed, Clean;
      queues := StepKeepsInv(c, RunShared(c, requests[..|requests| - 1]).value, queues, requests[|requests| - 1]);
    }
  }

  /**
   * A run loses nobody's notice and never gets where a report would notify the wrong one, exactly when
   * each of its messages is written under a clean id.
   */
  lemma {:induction false} SafeExactlyWhenClean(c: Codec, requests: seq<Request>)
    requires RunShared(c, requests).Some?
    ensures AlwaysSafe(c, requests) <==> AllClean(c, requests)
  {
    if requests != [] {
      var before, last := requests[..|requests| - 1], requests[|requests| - 1];
      SafeExactlyWhenClean(c, before);
      if AllClean(c, before) {
        var queues := CleanRunKeepsInv(c, before);
        if Clean(RunShared(c, before).value, last) {
          CleanIsSafe(c, RunShared(c, before).value, queues, last);
        } else {
          UncleanIsUnsafe(c, RunShared(c, before).value, queues, last);
        }
      }
    }
  }

  /**
   * In a run of clean writes everybody who waits is notified at most once, is still in the table while
   * not notified, and has been notified when the message is retired; nobody is ever notified for
   * somebody else's message.
   */
  lemma CleanRunsNotifyTheRightOnes(c: Codec, requests: seq<Request>)
    requires RunShared(c, requests).Some? && AllClean(c, requests)
    ensures var l := RunShared(c, requests).value;
            && Distinct(l.boxes.fired)
            && (forall token :: token in l.waiting <==> token in l.boxes.fired || token in l.boxes.callbacks.Values)
            && (forall token | token in l.boxes.fired :: token !in l.boxes.callbacks.Values)
            && (forall token |
                  token in l.waiting && l.waiting[token].number < Count(l.retired, l.waiting[token].node) ::
                  token in l.boxes.fired)
            && (forall report: Request | report.event.UpdateStatus? :: !Misdirects(c, l, report))
  {
    var queues := CleanRunKeepsInv(c, requests);
    var l := RunShared(c, requests).value;
    EntriesAreNotRetired(l, queues);
    forall report: Request | report.event.UpdateStatus? ensures !Misdirects(c, l, report) {
      NoReportMisdirects(c, l, queues, report);
    }
  }

  lemma EntriesAreNotRetired(l: Ledger, queues: map<Node, seq<Tracker>>)
    requires SharedInv(l, queues)
    ensures forall token | token in l.boxes.callbacks.Values ::
              token in l.waiting && l.waiting[token].number >= Count(l.retired, l.waiting[token].node)
  {
    forall id | id in l.boxes.callbacks
      ensures var token := l.boxes.callbacks[id];
              token in l.waiting && l.waiting[token].number >= Count(l.retired, l.waiting[token].node)
    {
      var a := l.waiting[l.boxes.callbacks[id]];
      assert EntryOk(QueueFor(queues, a.node), Count(l.retired, a.node), id, a.number);
    }
  }
}
