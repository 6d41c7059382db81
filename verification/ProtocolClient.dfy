/**
 The client of src/MQTTProtocolClient.c: handlers that rewrite the message lists, send packets and keep the store.
 Each is tied to a step of the session (Session.dfy), so that store and memory always agree.
 */
module ProtocolClient {
  import opened Handshake
  import opened Seqs
  import P = MQTTPacket
  import opened Persistence
  import opened Session
  import opened SessionStore

  datatype SendResult = SendComplete | SendInterrupted | SendError

  /** A packet offered to the socket, what became of it, and how many store operations had been made before. */
  datatype Offer = Offer(packet: Packet<Publication>, rc: SendResult, stored: nat)

  /** What is handed to Protocol_processPublication. */
  datatype Handed = Handed(qos: int, retain: bool, publication: Publication)

  class Client {
    const persistence: Persistence
    var msgID: int
    var outbound: seq<Msg>
    var inbound: seq<Msg>
    var connected: bool
    var good: bool
    var cleansession: bool
    var retryInterval: int
    var pendingWrites: bool               // Socket_noPendingWrites is false
    var sent: seq<Packet<Publication>>    // taken by the socket of this connection
    var processed: seq<Handed>
    ghost var offers: seq<Offer>
    ghost var handedAt: seq<nat>          // how many store operations had been made before each was handed over

    ghost function State(): Session
      reads this, persistence
    {
      Session(outbound, inbound, persistence.records)
    }

    ghost predicate Valid()
      reads this, persistence
    {
      Agrees(State()) && 0 <= msgID <= MAX_MSG_ID
    }

    constructor (persistence: Persistence, cleansession: bool, retryInterval: int)
      requires persistence.records == map[]
      ensures Valid() && outbound == [] && inbound == [] && fresh(this) && this.persistence == persistence
    {
      this.persistence, this.cleansession, this.retryInterval := persistence, cleansession, retryInterval;
      msgID, outbound, inbound, connected, good, pendingWrites := 0, [], [], false, false, false;
      sent, processed, offers, handedAt := [], [], [], [];
    }

    /** Socket_putdatas, as far as the protocol sees it: a packet is taken as a whole, or not at all. */
    method Send(p: Packet<Publication>) returns (rc: SendResult)
      modifies `sent, `pendingWrites, `offers
      ensures offers == old(offers) + [Offer(p, rc, |persistence.log|)]
      ensures sent == old(sent) + if rc == SendError then [] else [p]
      ensures old(pendingWrites) ==> rc == SendError
      ensures pendingWrites == (old(pendingWrites) || rc == SendInterrupted)
    {
      if pendingWrites {
        rc := SendError;
      } else if * {
        rc := SendComplete;
        sent := sent + [p];
      } else if * {
        rc := SendInterrupted;
        sent := sent + [p];
        pendingWrites := true;
      } else {
        rc := SendError;
      }
      offers := offers + [Offer(p, rc, |persistence.log|)];
    }

    /** MQTTPacket_send_publish for QoS 1 and 2: the record is put first. */
    method SendPublish(m: Msg, dup: bool) returns (rc: SendResult)
      requires OutboundOk(m)
      modifies `sent, `pendingWrites, `offers, persistence
      ensures persistence.records == old(persistence.records)[Sent(m.msgid) := Record(m, dup)]
      ensures persistence.log == old(persistence.log) + [PutOp(Sent(m.msgid), Record(m, dup))]
      ensures offers == old(offers)
                        + [Offer(Publish(m.msgid, m.qos, dup, m.retain, m.publication), rc, |persistence.log|)]
      ensures sent == old(sent) + if rc == SendError then []
              else [Publish(m.msgid, m.qos, dup, m.retain, m.publication)]
      ensures old(pendingWrites) ==> rc == SendError
      ensures pendingWrites == (old(pendingWrites) || rc == SendInterrupted)
    {
      persistence.Put(Sent(m.msgid), Record(m, dup));
      rc := Send(Publish(m.msgid, m.qos, dup, m.retain, m.publication));
    }

    /** MQTTPacket_send_pubrel */
    method SendPubrel(id: int) returns (rc: SendResult)
      requires 0 <= id
      modifies `sent, `pendingWrites, `offers, persistence
      ensures persistence.records == old(persistence.records)[Rel(id) := RelRecord(id)]
      ensures persistence.log == old(persistence.log) + [PutOp(Rel(id), RelRecord(id))]
      ensures offers == old(offers) + [Offer(Pubrel(id, false), rc, |persistence.log|)]
      ensures sent == old(sent) + if rc == SendError then [] else [Pubrel(id, false)]
      ensures old(pendingWrites) ==> rc == SendError
      ensures pendingWrites == (old(pendingWrites) || rc == SendInterrupted)
    {
      persistence.Put(Rel(id), RelRecord(id));
      rc := Send(Pubrel(id, false));
    }

    // ---------- Message ids ----------

    /** MQTTProtocol_assignMsgId: the first free id after the last one assigned, or 0 if every other id is taken.
        From the start value 0 the search only ends at a free id. */
    method AssignMsgId() returns (msgid: int)
      requires 0 <= msgID <= MAX_MSG_ID && (msgID == 0 ==> exists id | 1 <= id <= MAX_MSG_ID :: id !in Ids(outbound))
      modifies `msgID
      ensures FirstFree(Ids(outbound), old(msgID), msgid)
      ensures msgid != 0 ==> PassedOver(Ids(outbound), old(msgID), msgid)
      ensures msgID == if msgid != 0 then msgid else old(msgID)
    {
      var start := msgID;
      msgid := NextId(start);
      ghost var k := 1;
      while Find(outbound, msgid) >= 0
        invariant 1 <= k <= MAX_MSG_ID && msgid == Tried(start, k) && 1 <= msgid <= MAX_MSG_ID && msgid != start
        invariant msgID == start && forall j | 1 <= j < k :: Tried(start, j) in Ids(outbound)
        decreases MAX_MSG_ID - k
      {
        msgid := NextId(msgid);
        TriedNext(start, k);
        k := k + 1;
        if msgid == start {
          TriedStart(start, k);
          AllTaken(Ids(outbound), start);
          msgid := 0;
          break;
        }
        if start == 0 {
          FreeAhead(Ids(outbound), k);
        } else if k <= MAX_MSG_ID {
          TriedStart(start, k);
        }
      }
      if msgid != 0 {
        FirstFreePasses(Ids(outbound), start, msgid);
        msgID := msgid;
      }
    }

    // ---------- Sender ----------

    /** MQTTProtocol_startPublish, QoS 1 and 2 */
    method StartPublish(msgid: int, qos: int, retain: bool, publication: Publication, now: int) returns (rc: SendResult)
      requires Valid() && 1 <= msgid <= MAX_MSG_ID && !IdIn(outbound, msgid) && 1 <= qos <= 2
      requires |publication.topic| < 65536 && 0 !in publication.topic
      modifies `outbound, `sent, `pendingWrites, `offers, persistence
      ensures var m := Created(msgid, qos, retain, publication, now);
              OutboundOk(m) && Valid() && State() == Step(old(State()), Start(m))
      ensures outbound == old(outbound) + [Message(msgid, qos, retain, publication,
                                                   if qos == 2 then NextPubrec else NextUnset, now)]
      ensures StoredAs(persistence.records, Sent(msgid), msgid, false, qos, retain, publication)
      ensures persistence.log == old(persistence.log)
                                 + [PutOp(Sent(msgid), Record(Created(msgid, qos, retain, publication, now), false))]
      ensures offers == old(offers)
                        + [Offer(Publish(msgid, qos, false, retain, publication), rc, |old(persistence.log)| + 1)]
      ensures sent == old(sent) + if rc == SendError then [] else [Publish(msgid, qos, false, retain, publication)]
    {
      rc := StartMessage(Created(msgid, qos, retain, publication, now));
    }

    /** The message joins the list, its record the store, and its packet is offered, in this order. */
    method StartMessage(m: Msg) returns (rc: SendResult)
      requires Valid() && Enabled(State(), Start(m))
      modifies `outbound, `sent, `pendingWrites, `offers, persistence
      ensures Valid() && State() == Step(old(State()), Start(m)) && outbound == old(outbound) + [m]
      ensures StoredAs(persistence.records, Sent(m.msgid), m.msgid, false, m.qos, m.retain, m.publication)
      ensures persistence.log == old(persistence.log) + [PutOp(Sent(m.msgid), Record(m, false))]
      ensures offers == old(offers)
              + [Offer(Publish(m.msgid, m.qos, false, m.retain, m.publication), rc, |old(persistence.log)| + 1)]
      ensures sent == old(sent) + if rc == SendError then []
              else [Publish(m.msgid, m.qos, false, m.retain, m.publication)]
    {
      StartRecorded(State(), m);
      outbound := outbound + [m];
      rc := SendPublish(m, false);
    }

    /** MQTTProtocol_startPublish, QoS 0: nothing is kept. */
    method StartPublishQoS0(publication: Publication, retain: bool) returns (rc: SendResult)
      requires Valid()
      modifies `sent, `pendingWrites, `offers
      ensures Valid() && State() == old(State())
      ensures offers == old(offers) + [Offer(Publish(0, 0, false, retain, publication), rc, |persistence.log|)]
      ensures sent == old(sent) + if rc == SendError then [] else [Publish(0, 0, false, retain, publication)]
    {
      rc := Send(Publish(0, 0, false, retain, publication));
    }

    /** MQTTProtocol_handlePubacks */
    method HandlePuback(id: int)
      requires Valid()
      modifies `outbound, persistence
      ensures Valid() && State() == Step(old(State()), PubackIn(id)) && outbound == OnPuback(old(outbound), id)
      ensures forall i | 0 <= i < |old(outbound)| && old(outbound)[i].msgid == id && old(outbound)[i].qos == 1 ::
                && outbound == old(outbound)[..i] + old(outbound)[i + 1..]
                && persistence.log == old(persistence.log) + [RemoveOp(Sent(id))]
      ensures (forall m | m in old(outbound) :: m.msgid != id || m.qos != 1) ==> outbound == old(outbound)
    {
      ghost var was := State();
      EffectAt(outbound, id);
      StepAgrees(was, PubackIn(id));
      ApplyFew(was.store, RemoveOp(Sent(id)), ClearOp);
      var i := Find(outbound, id);
      if i >= 0 && outbound[i].qos == 1 {
        persistence.Remove(Sent(id));
        outbound := Without(outbound, i);
      }
    }

    /** MQTTProtocol_handlePubrecs: a PUBREC that is due is answered by a PUBREL, and takes the message to its second
        half. */
    method HandlePubrec(id: int, now: int) returns (rc: SendResult)
      requires Valid()
      modifies `outbound, `sent, `pendingWrites, `offers, persistence
      ensures Valid() && State() == Step(old(State()), PubrecIn(id, now))
      ensures |outbound| == |old(outbound)| && forall i | 0 <= i < |outbound| ::
                var m := old(outbound)[i];
                outbound[i] == if m.msgid == id && m.qos == 2 && m.next == NextPubrec
                               then m.(next := NextPubcomp, lastTouch := now) else m
      ensures offers == old(offers)
              + if (exists m :: m in old(outbound) && m.msgid == id && m.qos == 2 && m.next == NextPubrec)
                then [Offer(Pubrel(id, false), rc, |old(persistence.log)| + 1)] else []
      ensures offers == old(offers) ==> persistence.log == old(persistence.log)
      ensures offers != old(offers) ==>
                0 <= id && persistence.log == old(persistence.log) + [PutOp(Rel(id), RelRecord(id))]
      ensures sent == old(sent) + if offers != old(offers) && rc != SendError then [Pubrel(id, false)] else []
      ensures offers == old(offers) ==> rc == SendComplete
    {
      rc := SendComplete;
      ghost var was := State();
      StepAgrees(was, PubrecIn(id, now));
      PubrecFinds(outbound, id);
      PubrecEffect(outbound, id, now);
      var i := Find(outbound, id);
      if i >= 0 && outbound[i].qos == 2 && outbound[i].next == NextPubrec {
        DueIds(outbound, id);
        ApplyFew(was.store, PutOp(Rel(id), RelRecord(id)), ClearOp);
        rc := SendPubrel(id);
        outbound := outbound[i := outbound[i].(next := NextPubcomp, lastTouch := now)];
      } else {
        ApplyFew(was.store, ClearOp, ClearOp);
      }
    }

    /** MQTTProtocol_handlePubcomps */
    method HandlePubcomp(id: int)
      requires Valid()
      modifies `outbound, persistence
      ensures Valid() && State() == Step(old(State()), PubcompIn(id)) && outbound == OnPubcomp(old(outbound), id)
      ensures forall i | 0 <= i < |old(outbound)| && old(outbound)[i].msgid == id
              && old(outbound)[i].next == NextPubcomp ::
                outbound == old(outbound)[..i] + old(outbound)[i + 1..]
                && persistence.log == old(persistence.log) + [RemoveOp(Sent(id)), RemoveOp(Rel(id))]
      ensures (forall m | m in old(outbound) :: m.msgid != id || m.next != NextPubcomp) ==> outbound == old(outbound)
    {
      ghost var was := State();
      EffectAt(outbound, id);
      StepAgrees(was, PubcompIn(id));
      ApplyFew(was.store, RemoveOp(Sent(id)), RemoveOp(Rel(id)));
      var i := Find(outbound, id);
      if i >= 0 && outbound[i].qos == 2 && outbound[i].next == NextPubcomp {
        persistence.Remove(Sent(id));
        persistence.Remove(Rel(id));
        outbound := Without(outbound, i);
      }
    }

    // ---------- Receiver ----------

    /** MQTTProtocol_handlePublishes: QoS bits 3 are ignored; for QoS 2 the record "r-id" has been put while the packet
        was read (src/MQTTPacket.c:145-155). */
    method HandlePublish(p: Packet<Publication>) returns (rc: SendResult)
      requires Valid() && p.Publish? && 0 <= p.qos <= 3
      requires p.qos == 2 ==> 0 <= p.msgid <= MAX_MSG_ID && |p.publication.topic| < 65536
      modifies `inbound, `sent, `pendingWrites, `offers, `processed, `handedAt, persistence
      ensures Valid() && State() == if p.qos == 2 then Step(old(State()), PublishIn(p)) else old(State())
      ensures p.qos == 2 ==> Holds(inbound, p.msgid, p.retain, p.publication)
                             && forall m: Msg :: m.msgid != p.msgid ==> (m in inbound <==> m in old(inbound))
      ensures p.qos == 2 ==>
                StoredAs(persistence.records, Received(p.msgid), p.msgid, p.dup, 2, p.retain, p.publication)
      ensures processed == old(processed) + if p.qos < 2 then [Handed(p.qos, p.retain, p.publication)] else []
      ensures persistence.log == old(persistence.log)
                                 + if p.qos == 2 then [PutOp(Received(p.msgid), Record(Stored(p), p.dup))] else []
      ensures offers == old(offers) + if p.qos == 1 then [Offer(Puback(p.msgid), rc, |persistence.log|)]
                                      else if p.qos == 2 then [Offer(Pubrec(p.msgid), rc, |persistence.log|)] else []
      ensures handedAt == old(handedAt) + if p.qos < 2 then [|persistence.log|] else []
      ensures sent == old(sent) + if rc == SendError then [] else if p.qos == 1 then [Puback(p.msgid)]
                                  else if p.qos == 2 then [Pubrec(p.msgid)] else []
    {
      rc := SendComplete;
      if p.qos == 0 {
        processed := processed + [Handed(p.qos, p.retain, p.publication)];
        handedAt := handedAt + [|persistence.log|];
      } else if p.qos == 1 {
        rc := Send(Puback(p.msgid));
        processed := processed + [Handed(p.qos, p.retain, p.publication)];
        handedAt := handedAt + [|persistence.log|];
      } else if p.qos == 2 {
        StorePublish(p);
        rc := Send(Pubrec(p.msgid));
      }
    }

    /** The record and the list entry of a QoS 2 publication */
    method StorePublish(p: Packet<Publication>)
      requires Valid() && p.Publish? && p.qos == 2 && 0 <= p.msgid <= MAX_MSG_ID && |p.publication.topic| < 65536
      modifies `inbound, persistence
      ensures Valid() && State() == Step(old(State()), PublishIn(p))
      ensures Holds(inbound, p.msgid, p.retain, p.publication)
      ensures forall m: Msg :: m.msgid != p.msgid ==> (m in inbound <==> m in old(inbound))
      ensures StoredAs(persistence.records, Received(p.msgid), p.msgid, p.dup, 2, p.retain, p.publication)
      ensures persistence.log == old(persistence.log) + [PutOp(Received(p.msgid), Record(Stored(p), p.dup))]
    {
      PublishStep(State(), p);
      PublishHolds(inbound, p);
      persistence.Put(Received(p.msgid), Record(Stored(p), p.dup));
      var m := Message(p.msgid, p.qos, p.retain, p.publication, NextPubrel, 0);
      var i := Find(inbound, p.msgid);
      inbound := if i >= 0 then inbound[i := m] else inbound + [m];
    }

    /** MQTTProtocol_handlePubrels: the publication is handed over once its PUBREL comes. */
    method HandlePubrel(id: int, dup: bool) returns (rc: SendResult)
      requires Valid()
      modifies `inbound, `sent, `pendingWrites, `offers, `processed, `handedAt, persistence
      ensures Valid() && State() == Step(old(State()), PubrelIn(id))
      ensures persistence.log == old(persistence.log) + if IdIn(old(inbound), id) then [RemoveOp(Received(id))] else []
      ensures handedAt == old(handedAt) + if IdIn(old(inbound), id) then [|old(persistence.log)|] else []
      ensures forall m :: m in inbound <==> m in old(inbound) && m.msgid != id
      ensures forall m | m in old(inbound) && m.msgid == id ::
                processed == old(processed) + [Handed(2, m.retain, m.publication)]
      ensures !IdIn(old(inbound), id) ==> processed == old(processed)
      ensures offers == old(offers)
              + if IdIn(old(inbound), id) || dup then [Offer(Pubcomp(id), rc, |old(persistence.log)|)] else []
      ensures sent == old(sent) + if offers != old(offers) && rc != SendError then [Pubcomp(id)] else []
    {
      rc := SendComplete;
      ghost var was := State();
      StepAgrees(was, PubrelIn(id));
      ApplyFew(was.store, RemoveOp(Received(id)), ClearOp);
      PubrelMembers(inbound, id);
      var i := Find(inbound, id);
      if i < 0 {
        if dup {
          rc := Send(Pubcomp(id));
        }
      } else {
        var m := inbound[i];
        if m.qos == 2 && m.next == NextPubrel {
          rc := Send(Pubcomp(id));
          processed := processed + [Handed(m.qos, m.retain, m.publication)];
          handedAt := handedAt + [|persistence.log|];
          persistence.Remove(Received(id));
          inbound := Without(inbound, i);
        }
      }
    }

    /** A QoS 2 publication and its PUBREL: it is handed over as it came, retain flag included, and forgotten. */
    method HandleBoth(p: Packet<Publication>, dup: bool) returns (rc: SendResult)
      requires Valid() && p.Publish? && p.qos == 2 && 0 <= p.msgid <= MAX_MSG_ID && |p.publication.topic| < 65536
      modifies `inbound, `sent, `pendingWrites, `offers, `processed, `handedAt, persistence
      ensures Valid() && processed == old(processed) + [Handed(2, p.retain, p.publication)]
      ensures forall m :: m in inbound <==> m in old(inbound) && m.msgid != p.msgid
    {
      rc := HandlePublish(p);
      rc := HandlePubrel(p.msgid, dup);
    }

    // ---------- Sessions ----------

    /** MQTTAsync_cleanSession, as far as messages go */
    method CleanSession()
      requires Valid()
      modifies `outbound, `inbound, `msgID, persistence
      ensures Valid() && State() == Step(old(State()), Clean) && outbound == [] && inbound == [] && msgID == 0
    {
      ghost var was := State();
      StepAgrees(was, Clean);
      ApplyFew(was.store, ClearOp, ClearOp);
      persistence.Clear();
      inbound, outbound, msgID := [], [], 0;
    }

    /** MQTTProtocol_closeSession: the connection is gone; the session only if it was to be clean. */
    method CloseSession()
      requires Valid()
      modifies `good, `connected, `outbound, `inbound, `msgID, persistence
      ensures Valid() && !good && !connected
      ensures State() == if cleansession then Step(old(State()), Clean) else old(State())
      ensures !cleansession ==> msgID == old(msgID)
    {
      good, connected := false, false;
      if cleansession {
        CleanSession();
      }
    }

    // ---------- Retries ----------

    /** One message sent again: a PUBLISH marked as duplicate, or a PUBREL. The caller closes the session if that
        fails. */
    method RetryOne(i: nat, clock: int) returns (failed: bool, ghost offer: Offer)
      requires Valid() && i < |outbound|
      modifies `outbound, `sent, `pendingWrites, `offers, persistence
      ensures Valid()
      ensures if failed then outbound == old(outbound)
              else outbound == old(outbound)[i := old(outbound)[i].(lastTouch := clock)]
      ensures !failed ==> sent == old(sent) + [SentFor(old(outbound)[i])]
      ensures failed && sent != old(sent) ==>
                OutboundOk(old(outbound)[i]) && old(outbound)[i].next == NextPubcomp
                && sent == old(sent) + [SentFor(old(outbound)[i])]
      ensures offers == old(offers) + [offer] && offer.packet == SentFor(old(outbound)[i])
      ensures offer.stored == |persistence.log| == |old(persistence.log)| + 1
      ensures failed ==> offer.rc != SendComplete
      ensures old(pendingWrites) ==> pendingWrites
    {
      var m := outbound[i];
      ghost var was := State();
      SomeId(outbound, i);
      RetryAgrees(was, i, clock);
      RetryAgrees(was, i, m.lastTouch);
      assert outbound[i := m.(lastTouch := m.lastTouch)] == outbound;
      ApplyFew(was.store, Ops(was, Retry(i, clock))[0], ClearOp);
      var rc;
      if m.qos == 1 || (m.qos == 2 && m.next == NextPubrec) {
        rc := SendPublish(m, true);
        failed := rc == SendError;
      } else {
        rc := SendPubrel(m.msgid);
        failed := rc != SendComplete;
      }
      offer := Offer(SentFor(m), rc, |persistence.log|);
      if !failed {
        outbound := outbound[i := m.(lastTouch := clock)];
      }
    }

    /** MQTTProtocol_retries: sends again what is due, in order, as long as the socket takes it. `now` is the time that
        decides what is due, 0 after a CONNACK; `clock` is what time() gives meanwhile. The messages at the positions
        `at` have been sent again; the first n have been looked at. */
    method Retries(now: int, clock: int, regardless: bool) returns (ghost at: seq<nat>, ghost n: nat)
      requires Valid()
      modifies `outbound, `inbound, `msgID, `good, `connected, `sent, `pendingWrites, `offers, persistence
      ensures Valid() && n <= |old(outbound)| && Rising(at) && Again(old(outbound), old(sent), sent, at, n)
      ensures forall i: nat :: i in at <==>
                && i < n
                && (regardless || now - old(outbound)[i].lastTouch > if retryInterval > 10 then retryInterval else 10)
      ensures regardless ==> at == seq(n, i => i)
      ensures |sent| > |old(sent)| + |at| ==>
                n < |old(outbound)| && IsDue(old(outbound)[n], now, regardless, retryInterval)
      ensures connected && good ==> |sent| == |old(sent)| + |at| && TouchedAt(old(outbound), at, clock, outbound)
      ensures old(Ready()) && (regardless || retryInterval > 0) && connected && good && !pendingWrites ==>
                n == |old(outbound)|
      ensures old(connected && good) && !(connected && good) ==>
                |offers| > |old(offers)| && offers[|offers| - 1].rc != SendComplete
      ensures !(connected && good) && !cleansession ==> Timed(outbound, 0) == Timed(old(outbound), 0)
      ensures (connected && good) || !cleansession ==> (inbound, msgID) == old((inbound, msgID))
      ensures !old(Ready()) || (!regardless && retryInterval <= 0) ==>
                n == 0 && (outbound, sent, connected, good) == old((outbound, sent, connected, good))
    {
      at, n := [], 0;
      NoneYet(outbound, sent, now, clock, regardless, retryInterval);
      if regardless || retryInterval > 0 {
        at, n := RetryPass(now, clock, regardless);
      }
      if regardless {
        AllPositions(at, n);
      }
    }

    /** The loop of MQTTProtocol_retries; a failed write closes the session. */
    method RetryPass(now: int, clock: int, regardless: bool) returns (ghost at: seq<nat>, ghost n: nat)
      requires Valid()
      modifies `outbound, `inbound, `msgID, `good, `connected, `sent, `pendingWrites, `offers, persistence
      ensures Valid() && DueBelow(old(outbound), n, at, now, regardless, retryInterval)
      ensures Again(old(outbound), old(sent), sent, at, n)
      ensures |sent| > |old(sent)| + |at| ==>
                n < |old(outbound)| && IsDue(old(outbound)[n], now, regardless, retryInterval)
      ensures connected && good ==>
                && |sent| == |old(sent)| + |at| && TouchedAt(old(outbound), at, clock, outbound)
                && (n == |old(outbound)| || !Ready())
      ensures old(connected && good) && !(connected && good) ==>
                |offers| > |old(offers)| && offers[|offers| - 1].rc != SendComplete
      ensures !(connected && good) && !cleansession ==> Timed(outbound, 0) == Timed(old(outbound), 0)
      ensures (connected && good) || !cleansession ==> (inbound, msgID) == old((inbound, msgID))
      ensures !old(Ready()) ==> n == 0 && (outbound, sent, connected, good) == old((outbound, sent, connected, good))
    {
      var failed;
      failed, at, n := RetryAll(now, clock, regardless);
      if failed {
        CloseSession();
      }
    }

    /** The socket is open and takes packets. */
    predicate Ready()
      reads this
    {
      connected && good && !pendingWrites
    }

    /** The loop of MQTTProtocol_retries, up to a failed write. */
    method RetryAll(now: int, clock: int, regardless: bool) returns (failed: bool, ghost at: seq<nat>, ghost n: nat)
      requires Valid()
      modifies `outbound, `sent, `pendingWrites, `offers, persistence
      ensures Valid() && DueBelow(old(outbound), n, at, now, regardless, retryInterval)
      ensures Again(old(outbound), old(sent), sent, at, n) && TouchedAt(old(outbound), at, clock, outbound)
      ensures |sent| > |old(sent)| + |at| ==>
                n < |old(outbound)| && IsDue(old(outbound)[n], now, regardless, retryInterval)
      ensures if failed then old(Ready()) && |offers| > |old(offers)| && offers[|offers| - 1].rc != SendComplete
              else |sent| == |old(sent)| + |at|
      ensures failed || n == |old(outbound)| || !Ready()
      ensures !old(Ready()) ==> n == 0 && (outbound, sent) == old((outbound, sent))
    {
      ghost var out, sent0 := outbound, sent;
      var i: nat := 0;
      at := [];
      NoneYet(out, sent0, now, clock, regardless, retryInterval);
      while i < |outbound| && Ready()
        invariant Valid() && i <= |outbound| == |out| && |sent| == |sent0| + |at|
        invariant DueBelow(out, i, at, now, regardless, retryInterval) && TouchedAt(out, at, clock, outbound)
        invariant Again(out, sent0, sent, at, i) && |offers| >= |old(offers)|
        invariant !old(Ready()) ==> i == 0 && !Ready() && sent == sent0 && outbound == out
        decreases |out| - i
      {
        failed, at := RetryNext(i, now, clock, regardless, out, sent0, at);
        if failed {
          return true, at, i;
        }
        i := i + 1;
      }
      failed, n := false, i;
    }

    method RetryNext(i: nat, now: int, clock: int, regardless: bool, ghost out: seq<Msg>,
                     ghost sent0: seq<Packet<Publication>>, ghost at: seq<nat>)
      returns (failed: bool, ghost at': seq<nat>)
      requires Valid() && i < |outbound| == |out| && DueBelow(out, i, at, now, regardless, retryInterval)
      requires Again(out, sent0, sent, at, i) && |sent| == |sent0| + |at| && TouchedAt(out, at, clock, outbound)
      modifies `outbound, `sent, `pendingWrites, `offers, persistence
      ensures Valid() && |offers| >= |old(offers)| && (Ready() ==> old(Ready()))
      ensures DueBelow(out, if failed then i else i + 1, at', now, regardless, retryInterval)
      ensures Again(out, sent0, sent, at', if failed then i else i + 1) && TouchedAt(out, at', clock, outbound)
      ensures if failed then |offers| > |old(offers)| && offers[|offers| - 1].rc != SendComplete
                             && IsDue(out[i], now, regardless, retryInterval)
              else |sent| == |sent0| + |at'|
    {
      ghost var before, sentBefore := outbound, sent;
      failed, at' := false, at;
      NotYet(out, i, at, now, regardless, retryInterval, clock, outbound);
      if regardless || now - outbound[i].lastTouch > (if retryInterval > 10 then retryInterval else 10) {
        ghost var offer;
        failed, offer := RetryOne(i, clock);
        if failed {
          RetryFailed(out, sent0, sentBefore, sent, at, i);
        } else {
          at' := at + [i];
          RetriedNext(out, sent0, before, sentBefore, outbound, sent, at, i, now, regardless, retryInterval, clock);
        }
      } else {
        PassedOverNext(out, i, at, now, regardless, retryInterval, sent0, sent);
      }
    }

    // ---------- Connecting ----------

    /** A new socket: nothing has been sent on it, and nothing is pending. */
    method NewSocket()
      modifies `sent, `pendingWrites
      ensures sent == [] && !pendingWrites
    {
      sent, pendingWrites := [], false;
    }

    /** The loop of MQTTAsync_completeConnection over the messages in flight. */
    method Untouch()
      requires Valid()
      modifies `outbound
      ensures Valid() && outbound == Timed(old(outbound), 0)
    {
      ghost var out := outbound;
      var i := 0;
      while i < |outbound|
        invariant Valid() && i <= |outbound| == |out|
        invariant forall j | 0 <= j < |out| :: outbound[j] == if j < i then out[j].(lastTouch := 0) else out[j]
      {
        assert outbound[i] in outbound;
        UpdateStep(State(), i, outbound[i].(lastTouch := 0), persistence.records);
        outbound := outbound[i := outbound[i].(lastTouch := 0)];
        i := i + 1;
      }
    }

    /** MQTTAsync_completeConnection, once the CONNACK accepts: what is in flight is sent again, all of it unless a
        write is cut short or fails. */
    method CompleteConnection(clock: int) returns (ghost at: seq<nat>, ghost n: nat)
      requires Valid()
      modifies `outbound, `inbound, `msgID, `good, `connected, `sent, `pendingWrites, `offers, persistence
      ensures Valid()
      ensures cleansession ==> outbound == [] && inbound == [] && msgID == 0 && sent == old(sent) && connected && good
      ensures !cleansession ==>
                Resumed(old(outbound), old(sent), outbound, sent, at, n, clock, connected && good)
                && inbound == old(inbound) && msgID == old(msgID)
      ensures !cleansession && !old(pendingWrites) && connected && good && !pendingWrites ==> n == |old(outbound)|
      ensures !(connected && good) ==> |offers| > |old(offers)| && offers[|offers| - 1].rc != SendComplete
    {
      connected, good := true, true;
      if cleansession {
        CleanSession();
      }
      at, n := ResendAll(clock);
    }

    method ResendAll(clock: int) returns (ghost at: seq<nat>, ghost n: nat)
      requires Valid() && connected && good
      modifies `outbound, `inbound, `msgID, `good, `connected, `sent, `pendingWrites, `offers, persistence
      ensures Valid()
      ensures old(outbound) == [] ==> (outbound, inbound, msgID, sent) == old((outbound, inbound, msgID, sent))
      ensures old(outbound) == [] ==> connected && good
      ensures (connected && good) || !cleansession ==>
                Resumed(old(outbound), old(sent), outbound, sent, at, n, clock, connected && good)
                && inbound == old(inbound) && msgID == old(msgID)
      ensures !old(pendingWrites) && connected && good && !pendingWrites ==> n == |old(outbound)|
      ensures !(connected && good) ==> |offers| > |old(offers)| && offers[|offers| - 1].rc != SendComplete
    {
      ghost var out := outbound;
      at, n := [], 0;
      if |outbound| > 0 {
        Untouch();
        at, n := Retries(0, clock, true);
        TimedAgain(out, old(sent), sent, at, n);
        assert Timed(Timed(out, 0), 0) == Timed(out, 0);
      }
    }
  }

  /** After a CONNACK the first n messages have been sent again, and touched if the session is still open. */
  ghost predicate Resumed(out: seq<Msg>, sent0: seq<Packet<Publication>>, out': seq<Msg>,
                          sent': seq<Packet<Publication>>, at: seq<nat>, n: nat, clock: int, open: bool) {
    && n <= |out| && at == seq(n, i => i) && Again(out, sent0, sent', at, n)
    && if open then |sent'| == |sent0| + n && |out'| == |out| && forall i | 0 <= i < |out| ::
                      out'[i] == out[i].(lastTouch := if i < n then clock else 0)
       else Timed(out', 0) == Timed(out, 0)
  }

  lemma TimedAgain(out: seq<Msg>, sent0: seq<Packet<Publication>>, sent': seq<Packet<Publication>>, at: seq<nat>,
                   n: nat)
    requires Again(Timed(out, 0), sent0, sent', at, n)
    ensures Again(out, sent0, sent', at, n)
  {
  }

  lemma AllPositions(at: seq<nat>, n: nat)
    requires (forall k, l | 0 <= k < l < |at| :: at[k] < at[l]) && forall i: nat :: i in at <==> i < n
    ensures |at| == n && at == seq(n, i requires 0 <= i < n => i)
  {
    Position(at, n, |at|);
    if n > 0 {
      var i: nat := n - 1;
      assert i in at;
    }
  }

  lemma {:induction false} Position(at: seq<nat>, n: nat, k: nat)
    requires (forall k, l | 0 <= k < l < |at| :: at[k] < at[l]) && (forall i: nat :: i in at <==> i < n) && k <= |at|
    ensures k <= n && forall j | 0 <= j < k :: at[j] == j
  {
    if k > 0 {
      Position(at, n, k - 1);
      var i: nat := k - 1;
      assert at[i] in at && at[i] >= i by {
        if i > 0 { assert at[i - 1] < at[i]; }
      }
      assert i in at;
      var j :| 0 <= j < |at| && at[j] == i;
    }
  }

  /** There is one entry with this id: a QoS 2 publication that waits for its PUBREL. */
  ghost predicate Holds(ms: seq<Msg>, id: int, retain: bool, publication: Publication) {
    exists i | 0 <= i < |ms| ::
      && ms[i].msgid == id && ms[i].qos == 2 && ms[i].retain == retain && ms[i].publication == publication
      && ms[i].next == NextPubrel && forall j | 0 <= j < |ms| && j != i :: ms[j].msgid != id
  }

  lemma PubrecFinds(out: seq<Msg>, id: int)
    requires DistinctIds(out)
    ensures PubrecDue(out, id) <==> exists m :: m in out && m.msgid == id && m.qos == 2 && m.next == NextPubrec
  {
    EffectAt(out, id);
    if PubrecDue(out, id) {
      assert out[Find(out, id)] in out;
    }
  }

  /** What a PUBREL finds, and what it leaves. */
  lemma PubrelMembers(inb: seq<Msg>, id: int)
    requires DistinctIds(inb) && forall m | m in inb :: InboundOk(m)
    ensures forall m :: m in OnPubrel(inb, id) <==> m in inb && m.msgid != id
    ensures forall m | m in inb && m.msgid == id :: PubrelDue(inb, id) && m == inb[Find(inb, id)]
  {
    EffectAt(inb, id);
    PubrelEffect(inb, id);
  }

  lemma StartRecorded(s: Session, m: Msg)
    requires Agrees(s) && Enabled(s, Start(m))
    ensures var store := s.store[Sent(m.msgid) := Record(m, false)];
            && Step(s, Start(m)) == Session(s.out + [m], s.inb, store) && Agrees(Session(s.out + [m], s.inb, store))
            && StoredAs(store, Sent(m.msgid), m.msgid, false, m.qos, m.retain, m.publication)
  {
    StepAgrees(s, Start(m));
    ApplyFew(s.store, PutOp(Sent(m.msgid), Record(m, false)), ClearOp);
    RecordRestored(m, false);
  }

  lemma PublishStep(s: Session, p: Packet<Publication>)
    requires Agrees(s) && p.Publish? && p.qos == 2 && 0 <= p.msgid <= MAX_MSG_ID && |p.publication.topic| < 65536
    ensures var store := s.store[Received(p.msgid) := Record(Stored(p), p.dup)];
            && Step(s, PublishIn(p)) == Session(s.out, OnPublish(s.inb, p), store)
            && Agrees(Session(s.out, OnPublish(s.inb, p), store))
            && StoredAs(store, Received(p.msgid), p.msgid, p.dup, 2, p.retain, p.publication)
  {
    StepAgrees(s, PublishIn(p));
    ApplyFew(s.store, PutOp(Received(p.msgid), Record(Stored(p), p.dup)), ClearOp);
    RecordRestored(Stored(p), p.dup);
  }

  lemma PublishHolds(inb: seq<Msg>, p: Packet<Publication>)
    requires DistinctIds(inb) && p.Publish? && p.qos == 2
    ensures Holds(OnPublish(inb, p), p.msgid, p.retain, p.publication)
    ensures forall m: Msg :: m.msgid != p.msgid ==> (m in OnPublish(inb, p) <==> m in inb)
  {
    PublishEffect(inb, p);
    var i, inb' := Find(inb, p.msgid), OnPublish(inb, p);
    var k := if i >= 0 then i else |inb|;
    assert inb'[k] == Stored(p);
  }

  /** The record reads back as a PUBLISH with these fields. */
  ghost predicate StoredAs(store: Store, key: Key, id: int, dup: bool, qos: int, retain: bool,
                           publication: Publication) {
    && key in store && 0 <= id
    && RestorePacket(store[key])
       == RestoredPublish(P.Publish(P.Header(3, dup, qos, retain), publication.topic, id, publication.payload))
  }

  /** Since sent0 the messages at these positions have been sent again, in this order: a PUBLISH marked as duplicate, or
      a PUBREL if that is what the exchange has come to. One more packet can only be the PUBREL of the n-th message,
      whose write was cut short. */
  ghost predicate Again(out: seq<Msg>, sent0: seq<Packet<Publication>>, sent': seq<Packet<Publication>>, at: seq<nat>,
                        n: nat) {
    && |sent0| + |at| <= |sent'| <= |sent0| + |at| + 1 && sent'[..|sent0|] == sent0
    && (forall k | 0 <= k < |at| :: at[k] < |out| && sent'[|sent0| + k] == SentFor(out[at[k]]))
    && (|sent'| > |sent0| + |at| ==>
          n < |out| && out[n].qos == 2 && out[n].next == NextPubcomp && sent'[|sent'| - 1] == SentFor(out[n]))
  }

  ghost function SentFor(m: Msg): Packet<Publication> {
    if m.qos == 2 && m.next == NextPubcomp then Pubrel(m.msgid, false)
    else Publish(m.msgid, m.qos, true, m.retain, m.publication)
  }

  ghost predicate Rising(at: seq<nat>) {
    forall k, l | 0 <= k < l < |at| :: at[k] < at[l]
  }

  /** These are the positions below n of what is due. */
  ghost predicate DueBelow(out: seq<Msg>, n: nat, at: seq<nat>, now: int, regardless: bool, interval: int) {
    && n <= |out| && Rising(at)
    && forall i: nat :: i in at <==>
         i < n && IsDue(out[i], now, regardless, interval)
  }

  ghost predicate IsDue(m: Msg, now: int, regardless: bool, interval: int) {
    regardless || now - m.lastTouch > (if interval > 10 then interval else 10)
  }

  ghost predicate TouchedAt(out: seq<Msg>, at: seq<nat>, clock: int, out': seq<Msg>) {
    && |out'| == |out|
    && forall i | 0 <= i < |out| :: out'[i] == if i in at then out[i].(lastTouch := clock) else out[i]
  }

  lemma RetryFailed(out: seq<Msg>, sent0: seq<Packet<Publication>>, sent1: seq<Packet<Publication>>,
                    sent2: seq<Packet<Publication>>, at: seq<nat>, i: nat)
    requires Again(out, sent0, sent1, at, i) && |sent1| == |sent0| + |at| && i < |out|
    requires sent2 == sent1 || (OutboundOk(out[i]) && out[i].next == NextPubcomp && sent2 == sent1 + [SentFor(out[i])])
    ensures Again(out, sent0, sent2, at, i)
  {
  }

  lemma NoneYet(out: seq<Msg>, sent0: seq<Packet<Publication>>, now: int, clock: int, regardless: bool, interval: int)
    ensures DueBelow(out, 0, [], now, regardless, interval) && TouchedAt(out, [], clock, out)
            && Again(out, sent0, sent0, [], 0)
  {
  }

  /** The message at i has not been looked at yet. */
  lemma NotYet(out: seq<Msg>, i: nat, at: seq<nat>, now: int, regardless: bool, interval: int, clock: int,
               out1: seq<Msg>)
    requires DueBelow(out, i, at, now, regardless, interval) && i < |out| && TouchedAt(out, at, clock, out1)
    ensures i !in at && out1[i] == out[i] && forall k | 0 <= k < |at| :: at[k] < i
  {
    forall k | 0 <= k < |at|
      ensures at[k] < i
    {
      assert at[k] in at;
    }
  }

  lemma RetriedNext(out: seq<Msg>, sent0: seq<Packet<Publication>>, out1: seq<Msg>, sent1: seq<Packet<Publication>>,
                    out2: seq<Msg>, sent2: seq<Packet<Publication>>, at: seq<nat>, i: nat, now: int, regardless: bool,
                    interval: int, clock: int)
    requires DueBelow(out, i, at, now, regardless, interval) && TouchedAt(out, at, clock, out1)
    requires Again(out, sent0, sent1, at, i) && |sent1| == |sent0| + |at|
    requires i < |out| && i !in at && (forall k | 0 <= k < |at| :: at[k] < i)
    requires IsDue(out[i], now, regardless, interval)
    requires out2 == out1[i := out[i].(lastTouch := clock)] && sent2 == sent1 + [SentFor(out[i])]
    ensures DueBelow(out, i + 1, at + [i], now, regardless, interval)
    ensures Again(out, sent0, sent2, at + [i], i + 1) && |sent2| == |sent0| + |at + [i]|
    ensures TouchedAt(out, at + [i], clock, out2)
  {
    var at' := at + [i];
    assert forall j :: j in at' <==> j in at || j == i;
  }

  lemma PassedOverNext(out: seq<Msg>, i: nat, at: seq<nat>, now: int, regardless: bool, interval: int,
                       sent0: seq<Packet<Publication>>, sent': seq<Packet<Publication>>)
    requires DueBelow(out, i, at, now, regardless, interval) && i < |out|
    requires !IsDue(out[i], now, regardless, interval)
    requires Again(out, sent0, sent', at, i) && |sent'| == |sent0| + |at|
    ensures DueBelow(out, i + 1, at, now, regardless, interval) && Again(out, sent0, sent', at, i + 1)
  {
  }
}
