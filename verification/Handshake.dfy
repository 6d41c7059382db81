/**
 The QoS 1 and 2 handshakes of src/MQTTProtocolClient.c as functions on message lists:
 what each incoming packet does to the outbound (sender) and inbound (receiver) lists, and what is sent in reply.
 P is the publication a message carries.
 */
module Handshake {
  import opened Options
  import opened Seqs

  const MAX_MSG_ID := 65535

  /** nextMessageType: what the exchange waits for; QoS 1 messages leave it unset. */
  datatype Next = NextUnset | NextPubrec | NextPubrel | NextPubcomp

  datatype Message<P> = Message(msgid: int, qos: int, retain: bool, publication: P, next: Next, lastTouch: int)

  datatype Packet<P> =
    | Publish(msgid: int, qos: int, dup: bool, retain: bool, publication: P)
    | Puback(msgid: int)
    | Pubrec(msgid: int)
    | Pubrel(msgid: int, dup: bool)
    | Pubcomp(msgid: int)

  ghost predicate DistinctIds<P>(ms: seq<Message<P>>) {
    forall i, j | 0 <= i < j < |ms| :: ms[i].msgid != ms[j].msgid
  }

  ghost predicate IdIn<P>(ms: seq<Message<P>>, id: int) {
    exists i | 0 <= i < |ms| :: ms[i].msgid == id
  }

  function Ids<P>(ms: seq<Message<P>>): set<int> {
    set i | 0 <= i < |ms| :: ms[i].msgid
  }

  /** ListFindItem with messageIDCompare: the position of the message with this id, or -1. */
  function Find<P>(ms: seq<Message<P>>, id: int): (i: int)
    ensures -1 <= i < |ms|
    ensures i >= 0 ==> ms[i].msgid == id && forall j | 0 <= j < i :: ms[j].msgid != id
    ensures i < 0 <==> !IdIn(ms, id)
  {
    if ms == [] then -1 else if ms[0].msgid == id then 0
    else
      var i := Find(ms[1..], id);
      if i >= 0 then i + 1
      else
        assert forall j | 1 <= j < |ms| :: ms[j] == ms[1..][j - 1];
        -1
  }

  lemma WithoutIds<P>(ms: seq<Message<P>>, i: int)
    requires DistinctIds(ms) && 0 <= i < |ms|
    ensures DistinctIds(Without(ms, i))
    ensures forall m :: m in Without(ms, i) <==> m in ms && m.msgid != ms[i].msgid
  {
  }

  // ---------- Sender ----------

  /** MQTTProtocol_createMessage: the message a publication leaves in the outbound list. */
  function Created<P>(msgid: int, qos: int, retain: bool, publication: P, now: int): Message<P> {
    Message(msgid, qos, retain, publication, if qos == 2 then NextPubrec else NextUnset, now)
  }

  /** handlePubacks */
  function OnPuback<P>(out: seq<Message<P>>, id: int): seq<Message<P>> {
    var i := Find(out, id);
    if i >= 0 && out[i].qos == 1 then Without(out, i) else out
  }

  /** A PUBREC that moves the exchange on, and is answered by a PUBREL. */
  predicate PubrecDue<P>(out: seq<Message<P>>, id: int) {
    var i := Find(out, id);
    i >= 0 && out[i].qos == 2 && out[i].next == NextPubrec
  }

  /** handlePubrecs */
  function OnPubrec<P>(out: seq<Message<P>>, id: int, now: int): seq<Message<P>> {
    if PubrecDue(out, id) then
      var i := Find(out, id);
      out[i := out[i].(next := NextPubcomp, lastTouch := now)]
    else out
  }

  predicate PubcompDue<P>(out: seq<Message<P>>, id: int) {
    var i := Find(out, id);
    i >= 0 && out[i].qos == 2 && out[i].next == NextPubcomp
  }

  /** handlePubcomps */
  function OnPubcomp<P>(out: seq<Message<P>>, id: int): seq<Message<P>> {
    if PubcompDue(out, id) then Without(out, Find(out, id)) else out
  }

  /** What MQTTProtocol_retries sends again for a message. */
  function Resend<P>(m: Message<P>): Option<Packet<P>> {
    if m.qos == 1 || (m.qos == 2 && m.next == NextPubrec)
      then Some(Publish(m.msgid, m.qos, true, m.retain, m.publication))
    else if m.qos != 0 && m.next == NextPubcomp then Some(Pubrel(m.msgid, false))
    else None
  }

  /** A PUBACK removes the QoS 1 message with its id, and nothing else. */
  lemma PubackEffect<P>(out: seq<Message<P>>, id: int)
    requires DistinctIds(out)
    ensures DistinctIds(OnPuback(out, id))
    ensures forall m :: m in OnPuback(out, id) <==> m in out && !(m.msgid == id && m.qos == 1)
  {
  }

  /** A PUBCOMP removes the QoS 2 message with its id, if that waits for it, and nothing else. */
  lemma PubcompEffect<P>(out: seq<Message<P>>, id: int)
    requires DistinctIds(out)
    ensures DistinctIds(OnPubcomp(out, id))
    ensures forall m :: m in OnPubcomp(out, id) <==> m in out && !(m.msgid == id && m.qos == 2 && m.next == NextPubcomp)
  {
    EffectAt(out, id);
  }

  /** A PUBREC moves the QoS 2 message with its id from waiting for it to waiting for a PUBCOMP, in its place in the
      list. */
  lemma PubrecEffect<P>(out: seq<Message<P>>, id: int, now: int)
    requires DistinctIds(out)
    ensures var out' := OnPubrec(out, id, now);
            && |out'| == |out| && DistinctIds(out')
            && forall i | 0 <= i < |out| ::
                 out'[i] == if out[i].msgid == id && out[i].qos == 2 && out[i].next == NextPubrec
                            then out[i].(next := NextPubcomp, lastTouch := now) else out[i]
  {
  }

  /** With distinct ids, Find tells where a message is; removing there removes that message. */
  lemma EffectAt<P>(ms: seq<Message<P>>, id: int)
    requires DistinctIds(ms)
    ensures forall i | 0 <= i < |ms| && ms[i].msgid == id :: Find(ms, id) == i
    ensures var i := Find(ms, id);
            i >= 0 ==> DistinctIds(Without(ms, i)) && forall m :: m in Without(ms, i) <==> m in ms && m.msgid != id
    ensures forall m | m in ms && m.msgid == id :: Find(ms, id) >= 0 && m == ms[Find(ms, id)]
  {
  }

  // ---------- Receiver ----------

  /** The inbound record of a QoS 2 PUBLISH. */
  function Stored<P>(p: Packet<P>): Message<P>
    requires p.Publish?
  {
    Message(p.msgid, p.qos, p.retain, p.publication, NextPubrel, 0)
  }

  /** handlePublishes, QoS 2: a queued publication with the same id is replaced in its place. */
  function OnPublish<P>(inb: seq<Message<P>>, p: Packet<P>): seq<Message<P>>
    requires p.Publish?
  {
    var i := Find(inb, p.msgid);
    if i >= 0 then inb[i := Stored(p)] else inb + [Stored(p)]
  }

  predicate PubrelDue<P>(inb: seq<Message<P>>, id: int) {
    var i := Find(inb, id);
    i >= 0 && inb[i].qos == 2 && inb[i].next == NextPubrel
  }

  /** handlePubrels: the publication is handed over and forgotten. */
  function OnPubrel<P>(inb: seq<Message<P>>, id: int): seq<Message<P>> {
    if PubrelDue(inb, id) then Without(inb, Find(inb, id)) else inb
  }

  /** After a QoS 2 PUBLISH there is one entry with its id, holding its publication; the others are as they were. */
  lemma PublishEffect<P>(inb: seq<Message<P>>, p: Packet<P>)
    requires DistinctIds(inb) && p.Publish?
    ensures DistinctIds(OnPublish(inb, p))
    ensures forall m :: m in OnPublish(inb, p) <==> m == Stored(p) || (m in inb && m.msgid != p.msgid)
  {
    var i, e := Find(inb, p.msgid), Stored(p);
    EffectAt(inb, p.msgid);
    forall m | m == e || (m in inb && m.msgid != p.msgid)
      ensures m in OnPublish(inb, p)
    {
      if m == e {
        assert OnPublish(inb, p)[if i >= 0 then i else |inb|] == e;
      } else {
        var j :| 0 <= j < |inb| && inb[j] == m;
        assert OnPublish(inb, p)[j] == m;
      }
    }
  }

  /** A PUBREL removes the entry with its id, and nothing else. */
  lemma PubrelEffect<P>(inb: seq<Message<P>>, id: int)
    requires DistinctIds(inb)
    ensures DistinctIds(OnPubrel(inb, id))
    ensures forall m :: m in OnPubrel(inb, id) <==> m in inb && !(m.msgid == id && m.qos == 2 && m.next == NextPubrel)
  {
    EffectAt(inb, id);
  }

  /** An unknown id is only answered if the PUBREL was marked as a duplicate. */
  predicate PubrelAnswered<P>(inb: seq<Message<P>>, id: int, dup: bool) {
    if Find(inb, id) < 0 then dup else PubrelDue(inb, id)
  }

  // ---------- Message ids ----------

  function NextId(id: int): int {
    if id == MAX_MSG_ID then 1 else id + 1
  }

  /** The k-th id tried, counting cyclically from start. */
  function Tried(start: int, k: int): int {
    (start - 1 + k) % MAX_MSG_ID + 1
  }

  lemma TriedNext(start: int, k: int)
    ensures Tried(start, k + 1) == NextId(Tried(start, k)) && 1 <= Tried(start, k) <= MAX_MSG_ID
  {
  }

  /** From a start in 1..65535, the ids tried before the start comes round again are all the others. */
  lemma TriedAll(start: int, id: int) returns (k: int)
    requires 1 <= start <= MAX_MSG_ID && 1 <= id <= MAX_MSG_ID && id != start
    ensures 1 <= k < MAX_MSG_ID && Tried(start, k) == id
  {
    k := if id > start then id - start else id - start + MAX_MSG_ID;
  }

  lemma TriedStart(start: int, k: int)
    requires 1 <= start <= MAX_MSG_ID && 1 <= k <= MAX_MSG_ID
    ensures Tried(start, k) == start <==> k == MAX_MSG_ID
  {
  }

  /** r is the first id after start that is not taken, or 0 because every other id is. */
  ghost predicate FirstFree(taken: set<int>, start: int, r: int) {
    if r == 0 then forall id | 1 <= id <= MAX_MSG_ID && id != start :: id in taken
    else 1 <= r <= MAX_MSG_ID && r != start && r !in taken
         && exists k | 1 <= k <= MAX_MSG_ID :: Tried(start, k) == r && forall j | 1 <= j < k :: Tried(start, j) in taken
  }

  lemma AllTaken(taken: set<int>, start: int)
    requires 1 <= start <= MAX_MSG_ID && forall j | 1 <= j < MAX_MSG_ID :: Tried(start, j) in taken
    ensures FirstFree(taken, start, 0)
  {
    forall id | 1 <= id <= MAX_MSG_ID && id != start
      ensures id in taken
    {
      var j := TriedAll(start, id);
    }
  }

  /** From 0, while some id is free, the search does not go beyond the largest. */
  lemma FreeAhead(taken: set<int>, k: int)
    requires 1 <= k <= MAX_MSG_ID + 1 && forall j | 1 <= j < k :: Tried(0, j) in taken
    requires exists id | 1 <= id <= MAX_MSG_ID :: id !in taken
    ensures k <= MAX_MSG_ID
  {
    var id :| 1 <= id <= MAX_MSG_ID && id !in taken;
    assert Tried(0, id) == id;
  }

  /** Every id between start and r, going up and from 65535 on to 1, is taken. */
  ghost predicate PassedOver(taken: set<int>, start: int, r: int) {
    if start < r then forall id | start < id < r :: id in taken
    else (forall id | start < id <= 65535 :: id in taken) && (forall id | 1 <= id < r :: id in taken)
  }

  lemma FirstFreePasses(taken: set<int>, start: int, r: int)
    requires 0 <= start <= MAX_MSG_ID && FirstFree(taken, start, r) && r != 0
    ensures PassedOver(taken, start, r)
  {
    var k :| 1 <= k <= MAX_MSG_ID && Tried(start, k) == r && forall j | 1 <= j < k :: Tried(start, j) in taken;
    forall id | 1 <= id <= MAX_MSG_ID && if start < r then start < id < r else id > start || id < r
      ensures id in taken
    {
      var j := if id > start then id - start else id - start + MAX_MSG_ID;
      assert Tried(start, j) == id;
    }
  }

  /** Whatever id was assigned last, the next one is not in use. */
  ghost predicate NeverInUse(taken: set<int>, used: set<int>) {
    forall start, r | 0 <= start <= MAX_MSG_ID && FirstFree(taken, start, r) :: r == 0 || r !in used
  }

  /** A search that passes over the ids taken never gives one in use, exactly if all those in use count as taken. */
  lemma NeverInUseExactly(taken: set<int>, used: set<int>)
    requires forall id | id in used :: 1 <= id <= MAX_MSG_ID
    ensures NeverInUse(taken, used) <==> forall id | id in used :: id in taken
  {
    if id :| id in used && id !in taken {
      assert Tried(id - 1, 1) == id;
      assert FirstFree(taken, id - 1, id);
      assert !NeverInUse(taken, used);
    }
  }
}
