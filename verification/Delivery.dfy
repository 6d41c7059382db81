/**
 A sender and a receiver, connected by two FIFO channels: the outbound handlers of one client and the inbound handlers
 of another (src/MQTTProtocolClient.c), with resends at any moment and reconnects that empty the channels and keep the
 sessions. A publication is known by a number of its own, whatever message id it travels under.
 */
module Delivery {
  import opened Handshake
  import opened Options
  import opened Seqs

  datatype System = System(
    out: seq<Message<nat>>,       // the sender's outboundMsgs
    inb: seq<Message<nat>>,       // the receiver's inboundMsgs
    fwd: seq<Packet<nat>>,        // from sender to receiver
    back: seq<Packet<nat>>,       // from receiver to sender
    handed1: seq<nat>,            // given to processPublication with QoS 1
    handed2: seq<nat>,            // and with QoS 2
    issued: nat,                  // publications 0..issued have been started
    acked: set<nat>,              // forgotten by the sender on PUBACK
    completed: set<nat>,          // forgotten by the sender on PUBCOMP
    sentNow: set<int>)            // ids of the QoS 1 messages sent on this connection

  const START := System([], [], [], [], [], [], 0, {}, {}, {})

  /** lost: the packet that the move sends does not reach the channel. */
  datatype Move =
    | NewPublication(msgid: int, qos: int, lost: bool)
    | DeliverForward(lost: bool)
    | DeliverBack(lost: bool)
    | SendAgain(i: nat, lost: bool)
    | Reconnect

  ghost predicate CanMove(s: System, move: Move) {
    match move
    case NewPublication(msgid, qos, _) => 1 <= msgid <= MAX_MSG_ID && !IdIn(s.out, msgid) && (qos == 1 || qos == 2)
    case DeliverForward(_) => s.fwd != []
    case DeliverBack(_) => s.back != []
    case SendAgain(i, _) => i < |s.out| && Resend(s.out[i]).Some?
    case Reconnect => true
  }

  function Put<P>(channel: seq<Packet<P>>, p: Packet<P>, lost: bool): seq<Packet<P>> {
    if lost then channel else channel + [p]
  }

  function After(s: System, move: Move): System
    requires CanMove(s, move)
  {
    match move
    case NewPublication(msgid, qos, lost) => StartPublication(s, msgid, qos, lost)
    case DeliverForward(lost) => Receive(s.(fwd := s.fwd[1..]), s.fwd[0], lost)
    case DeliverBack(lost) => Acknowledge(s.(back := s.back[1..]), s.back[0], lost)
    case SendAgain(i, lost) =>
      var p := Resend(s.out[i]).value;
      s.(fwd := Put(s.fwd, p, lost), sentNow := if p.Publish? && p.qos == 1 then s.sentNow + {p.msgid} else s.sentNow)
    case Reconnect => s.(fwd := [], back := [], sentNow := {})
  }

  /** startPublish */
  function StartPublication(s: System, msgid: int, qos: int, lost: bool): System {
    s.(out := s.out + [Created(msgid, qos, false, s.issued, 0)],
       fwd := Put(s.fwd, Publish(msgid, qos, false, false, s.issued), lost),
       issued := s.issued + 1,
       sentNow := if qos == 1 then s.sentNow + {msgid} else s.sentNow)
  }

  /** handlePublishes and handlePubrels, at the receiver */
  function Receive(s: System, p: Packet<nat>, lost: bool): System {
    match p
    case Publish(id, qos, _, _, publication) =>
      if qos == 2 then s.(inb := OnPublish(s.inb, p), back := Put(s.back, Pubrec(id), lost))
      else if qos == 1 then s.(handed1 := s.handed1 + [publication], back := Put(s.back, Puback(id), lost))
      else s
    case Pubrel(id, dup) =>
      var s' := if PubrelAnswered(s.inb, id, dup) then s.(back := Put(s.back, Pubcomp(id), lost)) else s;
      if PubrelDue(s.inb, id) then s'.(inb := OnPubrel(s.inb, id),
        handed2 := s.handed2 + [s.inb[Find(s.inb, id)].publication]) else s'
    case _ => s
  }

  /** handlePubacks, handlePubrecs and handlePubcomps, at the sender */
  function Acknowledge(s: System, p: Packet<nat>, lost: bool): System {
    match p
    case Puback(id) =>
      var i := Find(s.out, id);
      if i >= 0 && s.out[i].qos == 1 then s.(out := OnPuback(s.out, id), acked := s.acked + {s.out[i].publication})
        else s
    case Pubrec(id) =>
      if PubrecDue(s.out, id) then s.(out := OnPubrec(s.out, id, 0), fwd := Put(s.fwd, Pubrel(id, false), lost)) else s
    case Pubcomp(id) =>
      if PubcompDue(s.out, id) then s.(out := OnPubcomp(s.out, id),
        completed := s.completed + {s.out[Find(s.out, id)].publication}) else s
    case _ => s
  }

  /** t is reached from s by these moves. */
  ghost predicate Run(s: System, moves: seq<Move>, t: System)
    decreases |moves|
  {
    if moves == [] then t == s else CanMove(s, moves[0]) && Run(After(s, moves[0]), moves[1..], t)
  }

  // ---------- Looking messages up ----------

  ghost function Get(ms: seq<Message<nat>>, id: int): Option<Message<nat>> {
    var i := Find(ms, id);
    if i < 0 then None else Some(ms[i])
  }

  lemma GetIs(ms: seq<Message<nat>>, i: int)
    requires DistinctIds(ms) && 0 <= i < |ms|
    ensures Find(ms, ms[i].msgid) == i && Get(ms, ms[i].msgid) == Some(ms[i])
  {
  }

  lemma GetAppend(ms: seq<Message<nat>>, m: Message<nat>, id: int)
    requires DistinctIds(ms) && !IdIn(ms, m.msgid)
    ensures DistinctIds(ms + [m]) && Get(ms + [m], id) == if id == m.msgid then Some(m) else Get(ms, id)
  {
    var ms', i := ms + [m], Find(ms, id);
    if id == m.msgid {
      GetIs(ms', |ms|);
    } else if i >= 0 {
      GetIs(ms', i);
    }
  }

  lemma GetUpdate(ms: seq<Message<nat>>, i: int, m: Message<nat>, id: int)
    requires DistinctIds(ms) && 0 <= i < |ms| && m.msgid == ms[i].msgid
    ensures DistinctIds(ms[i := m]) && Get(ms[i := m], id) == if id == m.msgid then Some(m) else Get(ms, id)
  {
    var ms', k := ms[i := m], Find(ms, id);
    if id == m.msgid {
      GetIs(ms', i);
    } else if k >= 0 {
      GetIs(ms', k);
    }
  }

  lemma GetWithout(ms: seq<Message<nat>>, i: int, id: int)
    requires DistinctIds(ms) && 0 <= i < |ms|
    ensures DistinctIds(Without(ms, i)) && Get(Without(ms, i), id) == if id == ms[i].msgid then None else Get(ms, id)
  {
    WithoutIds(ms, i);
    var ms', k := Without(ms, i), Find(ms, id);
    if id != ms[i].msgid && k >= 0 {
      var k' := if k < i then k else k - 1;
      assert ms'[k'] == ms[k];
      GetIs(ms', k');
    }
  }
}
