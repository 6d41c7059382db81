/**
 Two clients exchanging publications over a connection that delivers in order and may break: the handlers of
 ProtocolClient, calling each other, make the runs of Delivery and Resends, so what is proved about those runs holds of
 the handlers.
 */
module Exchange {
  import opened AtLeastOnce
  import opened Delivery
  import E = ExactlyOnce
  import opened Handshake
  import opened Images
  import C = ProtocolClient
  import opened Resends
  import opened Seqs
  import opened SessionStore

  /** A run of the client without its connects of others is a run of the protocol. */
  lemma {:induction false} MovesOf(st: Setting, c: Config, events: seq<Event>, d: Config) returns (moves: seq<Move>)
    requires Runs(st, c, events, d)
    ensures Run(c.sys, moves, d.sys)
    decreases |events|
  {
    if events == [] {
      moves := [];
    } else {
      var rest := MovesOf(st, AfterEvent(c, events[0]), events[1..], d);
      moves := if events[0].Step? then [events[0].move] + rest else rest;
      if events[0].Step? {
        assert moves[1..] == rest;
      }
    }
  }

  class Exchange {
    const sender: C.Client
    const receiver: C.Client
    const limit: int                  // of messages in flight
    const alone: bool                 // no other client is in the sender's process
    var toReceiver: nat               // how many of the packets sent on this connection have been taken
    var toSender: nat
    ghost var c: Config               // the state of the protocol that the two clients show
    ghost var events: seq<Event>      // the run that leads to it
    ghost var content: seq<Stamp>     // what the numbers of its publications stand for

    ghost function Rules(): Setting
      reads this, sender
    {
      Setting(limit, sender.retryInterval, alone)
    }

    ghost function Sender(): SenderSide
      reads this, sender
    {
      SenderSide(sender.outbound, sender.msgID, sender.connected && sender.good, sender.sent, toReceiver)
    }

    ghost function Receiver(): ReceiverSide
      reads this, receiver
    {
      ReceiverSide(receiver.inbound, receiver.sent, toSender, receiver.processed)
    }

    ghost predicate Sound()
      reads this, sender, sender.persistence, receiver, receiver.persistence
    {
      && sender != receiver && sender.persistence != receiver.persistence
      && sender.Valid() && receiver.Valid() && !sender.cleansession && !receiver.cleansession
    }

    /** The clients show a state that a run of the protocol leads to. */
    ghost predicate Valid()
      reads this, sender, sender.persistence, receiver, receiver.persistence
    {
      Sound() && Runs(Rules(), Begin(START), events, c) && Shown(c, Sender(), Receiver(), content)
    }

    constructor (sender: C.Client, receiver: C.Client, limit: int, alone: bool)
      requires sender != receiver && sender.persistence != receiver.persistence
      requires sender.Valid() && receiver.Valid() && !sender.cleansession && !receiver.cleansession
      requires sender.outbound == [] && sender.sent == [] && sender.msgID == 0
      requires receiver.inbound == [] && receiver.sent == [] && receiver.processed == []
      ensures Valid() && this.sender == sender && this.receiver == receiver && content == []
      ensures this.limit == limit && this.alone == alone
    {
      this.sender, this.receiver, this.limit, this.alone := sender, receiver, limit, alone;
      toReceiver, toSender := 0, 0;
      c, events, content := Begin(START), [], [];
    }

    /** An event that the rules allow and the clients show. */
    ghost method Happens(c0: Config, e: Event, content': seq<Stamp>)
      requires Sound() && Runs(Rules(), Begin(START), events, c0) && Allowed(Rules(), c0, e)
      requires Shown(AfterEvent(c0, e), Sender(), Receiver(), content')
      modifies `c, `events, `content
      ensures Valid() && content == content' && c == AfterEvent(c0, e)
    {
      R.RunsThen(Rules(), Begin(START), events, c0, e);
      c, events, content := AfterEvent(c0, e), events + [e], content';
    }

    /** A run that the rules allow and the clients show. */
    ghost method Settle(events': seq<Event>, c': Config)
      requires Sound() && Runs(Rules(), Begin(START), events', c') && Shown(c', Sender(), Receiver(), content)
      modifies `c, `events
      ensures Valid() && c == c'
    {
      events, c := events', c';
    }

    // ---------- What the sender's application does ----------

    /** A publication is started, if there is an id for it and the limit allows it. */
    method Publish(qos: int, retain: bool, publication: Publication, now: int) returns (msgid: int)
      requires Valid() && 1 <= qos <= 2 && |publication.topic| < 65536 && 0 !in publication.topic && now >= c.now
      requires |sender.outbound| < limit
      requires sender.msgID == 0 ==> exists id | 1 <= id <= MAX_MSG_ID :: id !in Ids(sender.outbound)
      modifies this, sender, sender.persistence
      ensures Valid() && content == old(content) + if msgid != 0 then [Stamp(retain, publication)] else []
      ensures if msgid == 0 then forall id | 1 <= id <= MAX_MSG_ID && id != old(sender.msgID) ::
                id in Ids(old(sender.outbound))
              else
                  |sender.outbound| == |old(sender.outbound)| + 1
                  && sender.outbound[|old(sender.outbound)|].msgid == msgid
    {
      ghost var a := Sender();
      msgid := sender.AssignMsgId();
      if msgid != 0 {
        Start(msgid, qos, retain, publication, now, a);
      }
    }

    method Start(msgid: int, qos: int, retain: bool, publication: Publication, now: int, ghost a: SenderSide)
      requires Sound() && Runs(Rules(), Begin(START), events, c) && Shown(c, a, Receiver(), content)
      requires Sender() == a.(msgID := msgid) && FirstFree(Ids(a.out), a.msgID, msgid) && msgid != 0
      requires 1 <= qos <= 2 && |publication.topic| < 65536 && 0 !in publication.topic && now >= c.now
      requires |a.out| < limit
      modifies this, sender, sender.persistence
      ensures Valid() && content == old(content) + [Stamp(retain, publication)]
      ensures |sender.outbound| == |old(sender.outbound)| + 1 && sender.outbound[|old(sender.outbound)|].msgid == msgid
    {
      var rc := sender.StartPublish(msgid, qos, retain, publication, now);
      ghost var x := sender.outbound[|a.out|];
      StartShown(Rules(), c, a, Receiver(), content, x, rc == C.SendError);
      Happens(c, Step(NewPublication(msgid, qos, rc == C.SendError), now), content + [Stamp(retain, publication)]);
    }

    // ---------- What the connection does ----------

    /** The receiver takes the next packet. */
    method DeliverForward(now: int)
      requires Valid() && toReceiver < |sender.sent| && now >= c.now
      modifies this, receiver, receiver.persistence
      ensures Valid() && content == old(content) && toReceiver == old(toReceiver) + 1
    {
      ghost var a, b := Sender(), Receiver();
      var q := sender.sent[toReceiver];
      FirstDeliverable(c, a, b, content);
      var lost := TakeForward(q);
      toReceiver := toReceiver + 1;
      ForwardShown(Rules(), c, a, b, content, Receiver(), lost, now);
      Happens(c, Step(Move.DeliverForward(lost), now), content);
    }

    /** The receiver's dispatch on the packet type (src/MQTTClient.c:1583-1604, src/MQTTAsync.c:2633-2688). */
    method TakeForward(q: Packet<Publication>) returns (lost: bool)
      requires Sound() && Deliverable(q)
      modifies receiver, receiver.persistence
      ensures Sound() && Receiver().taken == old(Receiver()).taken
      ensures Takes(old(receiver.inbound), old(receiver.sent), old(receiver.processed), receiver.inbound, receiver.sent,
                receiver.processed, q, lost)
    {
      lost := false;
      if q.Publish? {
        lost := TakePublish(q);
      } else if q.Pubrel? {
        lost := TakePubrel(q.msgid, q.dup);
      }
    }

    method TakePublish(q: Packet<Publication>) returns (lost: bool)
      requires Sound() && Deliverable(q) && q.Publish?
      modifies receiver, receiver.persistence
      ensures Sound() && Receiver().taken == old(Receiver()).taken
      ensures Takes(old(receiver.inbound), old(receiver.sent), old(receiver.processed), receiver.inbound, receiver.sent,
                receiver.processed, q, lost)
    {
      var rc := receiver.HandlePublish(q);
      lost := rc == C.SendError;
    }

    method TakePubrel(id: int, dup: bool) returns (lost: bool)
      requires Sound()
      modifies receiver, receiver.persistence
      ensures Sound() && Receiver().taken == old(Receiver()).taken
      ensures Takes(old(receiver.inbound), old(receiver.sent), old(receiver.processed), receiver.inbound, receiver.sent,
                receiver.processed, Pubrel(id, dup), lost)
    {
      EffectAt(receiver.inbound, id);
      var rc := receiver.HandlePubrel(id, dup);
      lost := rc == C.SendError;
    }

    /** The sender takes the next packet. */
    method DeliverBack(now: int)
      requires Valid() && toSender < |receiver.sent| && now >= c.now
      modifies this, sender, sender.persistence
      ensures Valid() && content == old(content) && toSender == old(toSender) + 1
    {
      ghost var a, b := Sender(), Receiver();
      var q := receiver.sent[toSender];
      var lost := TakeBack(q, now);
      toSender := toSender + 1;
      BackShown(Rules(), c, a, b, content, Sender(), lost, now);
      Happens(c, Step(Move.DeliverBack(lost), now), content);
    }

    /** The sender's dispatch on the packet type. */
    method TakeBack(q: Packet<Publication>, now: int) returns (lost: bool)
      requires Sound()
      modifies sender, sender.persistence
      ensures Sound() && Rules() == old(Rules())
      ensures Sender() == old(Sender()).(out := sender.outbound, sent := sender.sent)
      ensures TakesBack(old(sender.outbound), old(sender.sent), sender.outbound, sender.sent, q, now, lost)
    {
      lost := false;
      if q.Puback? {
        TakePuback(q.msgid);
      } else if q.Pubrec? {
        lost := TakePubrec(q.msgid, now);
      } else if q.Pubcomp? {
        TakePubcomp(q.msgid);
      }
    }

    method TakePuback(id: int)
      requires Sound()
      modifies sender, sender.persistence
      ensures Sound() && Rules() == old(Rules())
      ensures Sender() == old(Sender()).(out := OnPuback(old(sender.outbound), id))
    {
      sender.HandlePuback(id);
    }

    method TakePubcomp(id: int)
      requires Sound()
      modifies sender, sender.persistence
      ensures Sound() && Rules() == old(Rules())
      ensures Sender() == old(Sender()).(out := OnPubcomp(old(sender.outbound), id))
    {
      sender.HandlePubcomp(id);
    }

    method TakePubrec(id: int, now: int) returns (lost: bool)
      requires Sound()
      modifies sender, sender.persistence
      ensures Sound() && Rules() == old(Rules())
      ensures Sender() == old(Sender()).(out := sender.outbound, sent := sender.sent)
      ensures TakesBack(old(sender.outbound), old(sender.sent), sender.outbound, sender.sent, Pubrec(id), now, lost)
    {
      EffectAt(sender.outbound, id);
      var rc := sender.HandlePubrec(id, now);
      lost := rc == C.SendError;
    }

    /** The connection breaks, and a new one is made: what was on its way is gone. The CONNACK starts a pass over what
        is in flight. */
    method Reconnect(clock: int)
      requires Valid() && clock >= c.now
      modifies this, sender, sender.persistence, receiver
      ensures Valid() && content == old(content) && toReceiver == 0 && toSender == 0
      ensures sender.connected && sender.good && !sender.pendingWrites ==> |sender.sent| == |sender.outbound|
    {
      ghost var a, b := Sender(), Receiver();
      ghost var at, n := Reopen(clock);
      ghost var events', c' := ReconnectRun(Rules(), START, events, c, a, Sender(), b, content, at, n, clock);
      Settle(events', c');
    }

    method Reopen(clock: int) returns (ghost at: seq<nat>, ghost n: nat)
      requires Sound()
      modifies `toReceiver, `toSender, sender, sender.persistence, receiver
      ensures Sound() && Rules() == old(Rules()) && Receiver() == Emptied(old(Receiver()))
      ensures PassDone(Renewed(old(Sender())), Sender(), at, n, 0, clock, true, sender.retryInterval)
      ensures sender.connected && sender.good && !sender.pendingWrites ==> |sender.sent| == |sender.outbound|
      ensures toReceiver == 0 && toSender == 0
    {
      NewConnection();
      at, n := Connack(clock);
    }

    method NewConnection()
      requires Sound()
      modifies `toReceiver, `toSender, sender, receiver
      ensures Sound() && Rules() == old(Rules())
      ensures Sender() == old(Sender()).(sent := [], taken := 0)
              && Receiver() == old(Receiver()).(sent := [], taken := 0)
      ensures !sender.pendingWrites && toReceiver == 0 && toSender == 0
    {
      sender.NewSocket();
      receiver.NewSocket();
      toReceiver, toSender := 0, 0;
    }

    method Connack(clock: int) returns (ghost at: seq<nat>, ghost n: nat)
      requires Sound() && sender.sent == []
      modifies sender, sender.persistence
      ensures Sound() && Rules() == old(Rules())
      ensures PassDone(SenderSide(V.Timed(old(sender.outbound), 0), old(sender.msgID), true, [], toReceiver),
                       Sender(), at, n, 0, clock, true, sender.retryInterval)
      ensures !old(sender.pendingWrites) && sender.connected && sender.good && !sender.pendingWrites ==>
                |sender.sent| == |sender.outbound|
    {
      ghost var a1 := SenderSide(V.Timed(sender.outbound, 0), sender.msgID, true, [], toReceiver);
      ghost var out := sender.outbound;
      at, n := sender.CompleteConnection(clock);
      assert sender.connected && sender.good ==> V.Timed(sender.outbound, 0) == V.Timed(out, 0);
      ConnackDone(out, a1, Sender(), n, clock, sender.retryInterval);
    }

    /** The timer of the sender: a pass over what is due. */
    method Timer(now: int, clock: int)
      requires Valid() && clock >= c.now && now <= clock
      modifies this, sender, sender.persistence
      ensures Valid() && content == old(content)
    {
      ghost var a := Sender();
      ghost var at, n := RetryPass(now, clock, false);
      ghost var events', c' := PassShown(Rules(), START, events, c, a, Sender(), Receiver(), content, at, n, now, clock,
                                         false);
      Settle(events', c');
    }

    /** Another client of the sender's process gets its CONNACK, and with it a pass for all of them. */
    method OtherConnack(clock: int)
      requires Valid() && clock >= c.now && !alone
      modifies this, sender, sender.persistence
      ensures Valid() && content == old(content)
    {
      ghost var a := Sender();
      Happens(c, OtherConnects, content);
      ghost var at, n := RetryPass(0, clock, true);
      ghost var events', c' := PassShown(Rules(), START, events, c, a, Sender(), Receiver(), content, at, n, 0, clock,
                                         true);
      Settle(events', c');
    }

    method RetryPass(now: int, clock: int, regardless: bool) returns (ghost at: seq<nat>, ghost n: nat)
      requires Sound()
      modifies sender, sender.persistence
      ensures Sound() && Rules() == old(Rules())
      ensures PassDone(old(Sender()), Sender(), at, n, now, clock, regardless, sender.retryInterval)
    {
      at, n := sender.Retries(now, clock, regardless);
    }

    // ---------- What the receiver's application gets ----------

    /** The QoS 2 publications handed over are, in order, those of different numbers, as they were given to Publish,
        retain flag included; each one that the sender has forgotten on PUBCOMP is among them. */
    lemma HandedOnce()
      requires Valid()
      ensures HandedShows(c.sys.handed2, receiver.processed, 2, content)
      ensures forall p: nat :: E.Times(c.sys.handed2, p) <= 1
      ensures forall p | p in c.sys.completed :: E.Times(c.sys.handed2, p) == 1
    {
      var moves := MovesOf(Rules(), Begin(START), events, c);
      E.ExactlyOnce(moves, c.sys);
    }

    /** Whatever has been given to Publish is still in flight, or has been handed over as it was given; with QoS 1 that
        holds if the timer is off and no other client connects, or if at most one message may be in flight. */
    lemma Delivered(p: nat)
      requires Valid() && p < |content|
      ensures || (exists i :: 0 <= i < |sender.outbound| && StampOf(sender.outbound[i]) == content[p]
                              && c.sys.out[i].publication == p)
              || HandedAt(c.sys.handed2, HandedWith(receiver.processed, 2), p, content[p])
              || (p in c.sys.acked && ((sender.retryInterval <= 0 && alone) || limit <= 1 ==>
                    HandedAt(c.sys.handed1, HandedWith(receiver.processed, 1), p, content[p])))
    {
      var moves := MovesOf(Rules(), Begin(START), events, c);
      RunAccounted(START, moves, c.sys);
      if InFlight(c.sys.out, p) {
        var i :| 0 <= i < |c.sys.out| && c.sys.out[i].publication == p;
        assert Shows(c.sys.out[i], sender.outbound[i], content);
      } else if p in c.sys.completed {
        HandedOnce();
        HandedSomewhere(c.sys.handed2, receiver.processed, 2, content, p);
      } else if (sender.retryInterval <= 0 && alone) || limit <= 1 {
        R.AtLeastOnceExactly(Rules(), []);
        assert Resends.Restored([], START) && HandedOver(c.sys);
        HandedSomewhere(c.sys.handed1, receiver.processed, 1, content, p);
      }
    }
  }

  ghost function StampOf(m: Msg): Stamp {
    Stamp(m.retain, m.publication)
  }

  /** The publication of this number has been handed over, and as this. */
  ghost predicate HandedAt(numbers: seq<nat>, handed: seq<Stamp>, p: nat, stamp: Stamp) {
    exists k :: 0 <= k < |numbers| && k < |handed| && numbers[k] == p && handed[k] == stamp
  }

  lemma HandedSomewhere(numbers: seq<nat>, processed: seq<C.Handed>, qos: int, content: seq<Stamp>, p: nat)
    requires HandedShows(numbers, processed, qos, content) && p in numbers && p < |content|
    ensures HandedAt(numbers, HandedWith(processed, qos), p, content[p])
  {
    var k :| 0 <= k < |numbers| && numbers[k] == p;
    assert HandedWith(processed, qos)[k] == content[numbers[k]];
  }

  // ---------- No publication is forgotten without a reason ----------

  ghost predicate InFlight(out: seq<Message<nat>>, p: nat) {
    exists i | 0 <= i < |out| :: out[i].publication == p
  }

  ghost predicate Accounted(s: System) {
    forall p: nat | p < s.issued :: InFlight(s.out, p) || p in s.acked || p in s.completed
  }

  lemma {:induction false} RunAccounted(s: System, moves: seq<Move>, t: System)
    requires Run(s, moves, t) && Accounted(s)
    ensures Accounted(t)
    decreases |moves|
  {
    if moves != [] {
      MoveAccounted(s, moves[0]);
      RunAccounted(After(s, moves[0]), moves[1..], t);
    }
  }

  lemma MoveAccounted(s: System, move: Move)
    requires CanMove(s, move) && Accounted(s)
    ensures Accounted(After(s, move))
  {
    var t := After(s, move);
    forall p: nat | p < t.issued
      ensures InFlight(t.out, p) || p in t.acked || p in t.completed
    {
      if p == s.issued {
        assert t.out[|s.out|].publication == p;
      } else if InFlight(s.out, p) {
        StillInFlight(s, move, p);
      }
    }
  }

  lemma StillInFlight(s: System, move: Move, p: nat)
    requires CanMove(s, move) && InFlight(s.out, p)
    ensures InFlight(After(s, move).out, p) || p in After(s, move).acked || p in After(s, move).completed
  {
    var t := After(s, move);
    var i := ItsPlace(s.out, p);
    match move
    case NewPublication(_, _, _) =>
      assert t.out[i].publication == p;
    case DeliverForward(_) =>
      assert t.out == s.out;
    case DeliverBack(_) =>
      Forgotten(s, s.back[0], i, move.lost);
    case _ =>
  }

  lemma ItsPlace(out: seq<Message<nat>>, p: nat) returns (i: int)
    requires InFlight(out, p)
    ensures 0 <= i < |out| && out[i].publication == p
  {
    i :| 0 <= i < |out| && out[i].publication == p;
  }

  lemma WithoutPlace(out: seq<Message<nat>>, k: int, i: int)
    requires 0 <= k < |out| && 0 <= i < |out| && i != k
    ensures InFlight(Without(out, k), out[i].publication)
  {
    assert Without(out, k)[if i < k then i else i - 1] == out[i];
  }

  lemma SamePlace(out: seq<Message<nat>>, i: int)
    requires 0 <= i < |out|
    ensures InFlight(out, out[i].publication)
  {
  }

  lemma Forgotten(s: System, q: Packet<nat>, i: int, lost: bool)
    requires s.back != [] && q == s.back[0] && 0 <= i < |s.out|
    ensures var t, p := After(s, DeliverBack(lost)), s.out[i].publication;
            InFlight(t.out, p) || p in t.acked || p in t.completed
  {
    SamePlace(s.out, i);
    match q
    case Puback(id) => ForgottenPuback(s.(back := s.back[1..]), id, i, lost);
    case Pubrec(id) =>
      var k := Find(s.out, id);
      if PubrecDue(s.out, id) {
        SamePlace(OnPubrec(s.out, id, 0), i);
      }
    case Pubcomp(id) =>
      if PubcompDue(s.out, id) && i != Find(s.out, id) {
        WithoutPlace(s.out, Find(s.out, id), i);
      }
    case _ =>
  }

  lemma ForgottenPuback(s: System, id: int, i: int, lost: bool)
    requires 0 <= i < |s.out|
    ensures var t, p := Acknowledge(s, Puback(id), lost), s.out[i].publication;
            InFlight(t.out, p) || p in t.acked
  {
    var k := Find(s.out, id);
    SamePlace(s.out, i);
    if k >= 0 && s.out[k].qos == 1 && i != k {
      WithoutPlace(s.out, k, i);
      assert OnPuback(s.out, id) == Without(s.out, k);
    }
  }
}
