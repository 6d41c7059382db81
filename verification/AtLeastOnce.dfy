/**
 QoS 1 delivery (MQTT 3.1.1, section 4.3.2): if no message is sent twice on one connection, a message the sender forgets
 on PUBACK has been handed over.  When the client does send a message twice on a connection is the subject of Resends.
 */
module AtLeastOnce {
  import opened Delivery
  import opened Handshake
  import opened Options

  /** The publications a channel holds in QoS 1 PUBLISH packets with this id. */
  ghost function Pubs(channel: seq<Packet<nat>>, id: int): seq<nat> {
    if channel == [] then [] else PubOf(channel[0], id) + Pubs(channel[1..], id)
  }

  ghost function PubOf(p: Packet<nat>, id: int): seq<nat> {
    if p.Publish? && p.qos == 1 && p.msgid == id then [p.publication] else []
  }

  /** How many PUBACKs with this id a channel holds. */
  ghost function Acks(channel: seq<Packet<nat>>, id: int): nat {
    if channel == [] then 0 else AckOf(channel[0], id) + Acks(channel[1..], id)
  }

  ghost function AckOf(p: Packet<nat>, id: int): nat {
    if p.Puback? && p.msgid == id then 1 else 0
  }

  lemma {:induction false} PubsAppend(channel: seq<Packet<nat>>, p: Packet<nat>, id: int)
    ensures Pubs(channel + [p], id) == Pubs(channel, id) + PubOf(p, id)
  {
    if channel == [] {
      assert (channel + [p])[1..] == [];
    } else {
      assert (channel + [p])[1..] == channel[1..] + [p];
      PubsAppend(channel[1..], p, id);
    }
  }

  lemma PubsPut(channel: seq<Packet<nat>>, p: Packet<nat>, lost: bool, id: int)
    ensures Pubs(Put(channel, p, lost), id) == Pubs(channel, id) + if lost then [] else PubOf(p, id)
  {
    PubsAppend(channel, p, id);
  }

  lemma {:induction false} AcksAppend(channel: seq<Packet<nat>>, p: Packet<nat>, id: int)
    ensures Acks(channel + [p], id) == Acks(channel, id) + AckOf(p, id)
  {
    if channel == [] {
      assert (channel + [p])[1..] == [];
    } else {
      assert (channel + [p])[1..] == channel[1..] + [p];
      AcksAppend(channel[1..], p, id);
    }
  }

  lemma AcksPut(channel: seq<Packet<nat>>, p: Packet<nat>, lost: bool, id: int)
    ensures Acks(Put(channel, p, lost), id) == Acks(channel, id) + if lost then 0 else AckOf(p, id)
  {
    AcksAppend(channel, p, id);
  }

  /** The QoS 1 message with this id. */
  ghost function Unacked(ms: seq<Message<nat>>, id: int): Option<Message<nat>> {
    var m := Get(ms, id);
    if m.Some? && m.value.qos == 1 then m else None
  }

  /** At most one packet is on its way for an id, and a PUBACK only for what has been handed over. */
  ghost predicate IdOk(msg: Option<Message<nat>>, pubs: seq<nat>, acks: nat, sentNow: bool, handed: seq<nat>) {
    && |pubs| + acks <= (if msg.Some? && sentNow then 1 else 0)
    && (pubs != [] ==> pubs[0] == msg.value.publication)
    && (acks > 0 ==> msg.value.publication in handed)
  }

  ghost predicate AtId(s: System, id: int) {
    IdOk(Unacked(s.out, id), Pubs(s.fwd, id), Acks(s.back, id), id in s.sentNow, s.handed1)
  }

  ghost predicate Inv(s: System) {
    DistinctIds(s.out) && (forall id :: AtId(s, id)) && HandedOver(s)
  }

  /** A QoS 1 message is not sent again on the connection it has been sent on. */
  ghost predicate Quiet(s: System, move: Move)
    requires CanMove(s, move)
  {
    move.SendAgain? && s.out[move.i].qos == 1 ==> s.out[move.i].msgid !in s.sentNow
  }

  lemma MoveKeeps(s: System, move: Move)
    requires Inv(s) && CanMove(s, move) && Quiet(s, move)
    ensures Inv(After(s, move))
  {
    match move
    case NewPublication(msgid, qos, lost) => StartKeeps(s, msgid, qos, lost);
    case DeliverForward(lost) => ReceiveKeeps(s, lost);
    case DeliverBack(lost) => AcknowledgeKeeps(s, lost);
    case SendAgain(i, lost) => AgainKeeps(s, i, lost);
    case Reconnect =>
      forall id
        ensures AtId(After(s, move), id)
      {
        assert AtId(s, id);
      }
  }

  lemma StartKeeps(s: System, msgid: int, qos: int, lost: bool)
    requires Inv(s) && CanMove(s, NewPublication(msgid, qos, lost))
    ensures Inv(StartPublication(s, msgid, qos, lost))
  {
    var t, m := StartPublication(s, msgid, qos, lost), Created(msgid, qos, false, s.issued, 0);
    forall id
      ensures AtId(t, id)
    {
      assert AtId(s, id);
      GetAppend(s.out, m, id);
      PubsPut(s.fwd, Publish(msgid, qos, false, false, s.issued), lost, id);
    }
    GetAppend(s.out, m, msgid);
  }

  lemma AgainKeeps(s: System, i: nat, lost: bool)
    requires Inv(s) && CanMove(s, SendAgain(i, lost)) && Quiet(s, SendAgain(i, lost))
    ensures Inv(After(s, SendAgain(i, lost)))
  {
    var t := After(s, SendAgain(i, lost));
    GetIs(s.out, i);
    forall id
      ensures AtId(t, id)
    {
      assert AtId(s, id);
      PubsPut(s.fwd, Resend(s.out[i]).value, lost, id);
    }
  }

  lemma ReceiveKeeps(s: System, lost: bool)
    requires Inv(s) && s.fwd != []
    ensures Inv(After(s, DeliverForward(lost)))
  {
    var t, p := After(s, DeliverForward(lost)), s.fwd[0];
    forall id
      ensures AtId(t, id)
    {
      assert AtId(s, id);
      ReceiveAt(s, p, lost, id);
    }
    assert forall q | q in s.handed1 :: q in t.handed1;
  }

  lemma ReceiveAt(s: System, p: Packet<nat>, lost: bool, id: int)
    requires s.fwd != [] && s.fwd[0] == p && AtId(s, id)
    ensures AtId(Receive(s.(fwd := s.fwd[1..]), p, lost), id)
  {
    if p.Publish? && p.qos == 1 {
      Handed1At(s, p, lost, id);
    } else {
      assert Pubs(s.fwd, id) == PubOf(p, id) + Pubs(s.fwd[1..], id);
      AcksPut(s.back, if p.Publish? then Pubrec(p.msgid) else Pubcomp(p.msgid), lost, id);
    }
  }

  lemma Handed1At(s: System, p: Packet<nat>, lost: bool, id: int)
    requires s.fwd != [] && s.fwd[0] == p && AtId(s, id) && p.Publish? && p.qos == 1
    ensures AtId(Receive(s.(fwd := s.fwd[1..]), p, lost), id)
  {
    assert Pubs(s.fwd, id) == PubOf(p, id) + Pubs(s.fwd[1..], id);
    AcksPut(s.back, Puback(p.msgid), lost, id);
    assert p.publication in s.handed1 + [p.publication];
  }

  lemma AcknowledgeKeeps(s: System, lost: bool)
    requires Inv(s) && s.back != []
    ensures Inv(After(s, DeliverBack(lost)))
  {
    var t, p := After(s, DeliverBack(lost)), s.back[0];
    forall id
      ensures AtId(t, id)
    {
      assert AtId(s, id);
      AcknowledgeAt(s, p, lost, id);
    }
    if p.Puback? {
      assert AtId(s, p.msgid);
      assert Acks(s.back, p.msgid) == 1 + Acks(s.back[1..], p.msgid);
    }
  }

  lemma AcknowledgeAt(s: System, p: Packet<nat>, lost: bool, id: int)
    requires DistinctIds(s.out) && s.back != [] && s.back[0] == p && AtId(s, id)
    ensures AtId(Acknowledge(s.(back := s.back[1..]), p, lost), id)
  {
    assert Acks(s.back, id) == AckOf(p, id) + Acks(s.back[1..], id);
    match p
    case Puback(_) => PubackAt(s, p, lost, id);
    case Pubrec(_) => PubrecAt(s, p, lost, id);
    case Pubcomp(_) => PubcompAt(s, p, lost, id);
    case _ =>
  }

  lemma PubackAt(s: System, p: Packet<nat>, lost: bool, id: int)
    requires DistinctIds(s.out) && s.back != [] && s.back[0] == p && p.Puback? && AtId(s, id)
    ensures AtId(Acknowledge(s.(back := s.back[1..]), p, lost), id)
  {
    var k := Find(s.out, p.msgid);
    if k >= 0 { GetWithout(s.out, k, id); }
  }

  lemma PubrecAt(s: System, p: Packet<nat>, lost: bool, id: int)
    requires DistinctIds(s.out) && s.back != [] && s.back[0] == p && p.Pubrec? && AtId(s, id)
    ensures AtId(Acknowledge(s.(back := s.back[1..]), p, lost), id)
  {
    var k := Find(s.out, p.msgid);
    if PubrecDue(s.out, p.msgid) {
      GetUpdate(s.out, k, s.out[k].(next := NextPubcomp, lastTouch := 0), id);
      PubsPut(s.fwd, Pubrel(p.msgid, false), lost, id);
    }
  }

  lemma PubcompAt(s: System, p: Packet<nat>, lost: bool, id: int)
    requires DistinctIds(s.out) && s.back != [] && s.back[0] == p && p.Pubcomp? && AtId(s, id)
    ensures AtId(Acknowledge(s.(back := s.back[1..]), p, lost), id)
  {
    var k := Find(s.out, p.msgid);
    if k >= 0 { GetWithout(s.out, k, id); }
  }

  // ---------- Runs ----------

  ghost predicate QuietRun(s: System, moves: seq<Move>)
    decreases |moves|
  {
    moves != [] ==> CanMove(s, moves[0]) && Quiet(s, moves[0]) && QuietRun(After(s, moves[0]), moves[1..])
  }

  lemma {:induction false} RunKeeps(s: System, moves: seq<Move>, t: System)
    requires Inv(s) && Run(s, moves, t) && QuietRun(s, moves)
    ensures Inv(t)
    decreases |moves|
  {
    if moves != [] {
      MoveKeeps(s, moves[0]);
      RunKeeps(After(s, moves[0]), moves[1..], t);
    }
  }

  ghost predicate HandedOver(s: System) {
    forall p | p in s.acked :: p in s.handed1
  }

  /** Whatever ids are chosen and whatever is lost: if no message is sent twice on a connection, what is forgotten was
      handed over. */
  lemma QuietDelivers(moves: seq<Move>, t: System)
    requires Run(START, moves, t) && QuietRun(START, moves)
    ensures HandedOver(t)
  {
    RunKeeps(START, moves, t);
  }
}
