/**
 Store and memory in step: every event of the handshakes, with the store operations it makes in their order
 (src/MQTTProtocolClient.c, src/MQTTPersistence.c), keeps a store from which the same session is restored.
 */
module Session {
  import opened Bytes
  import opened Handshake
  import opened Seqs
  import opened Persistence
  import opened SendOrder
  import opened SessionStore

  datatype Session = Session(out: seq<Msg>, inb: seq<Msg>, store: Store)

  /** Start: a QoS 1 or 2 publication is sent. The others: a packet comes in, a message is sent again, the session is
      cleaned. */
  datatype Event =
    | Start(m: Msg)
    | PubackIn(id: int)
    | PubrecIn(id: int, now: int)
    | PubcompIn(id: int)
    | PublishIn(p: Packet<Publication>)
    | PubrelIn(id: int)
    | Retry(i: nat, now: int)
    | Clean

  // ---------- Agreement ----------

  ghost predicate OutboundOk(m: Msg) {
    Storable(m) && 1 <= m.msgid && if m.qos == 1 then m.next == NextUnset
      else m.next == NextPubrec || m.next == NextPubcomp
  }

  ghost predicate InboundOk(m: Msg) {
    Storable(m) && m.qos == 2 && m.next == NextPubrel
  }

  /** The "s-" records are those of the outbound messages; an "sc-" record marks the messages that wait for a
      PUBCOMP. */
  ghost predicate OutMirrors(out: seq<Msg>, store: Store) {
    && DistinctIds(out)
    && (forall m | m in out :: OutboundOk(m) && Sent(m.msgid) in store && IsRecord(store[Sent(m.msgid)], m)
                               && (Rel(m.msgid) in store <==> m.next == NextPubcomp))
    && (forall id | Sent(id) in store :: IdIn(out, id))
    && (forall id | Rel(id) in store :: 1 <= id <= MAX_MSG_ID && store[Rel(id)] == RelRecord(id))
  }

  /** The "r-" records are those of the inbound messages. */
  ghost predicate InMirrors(inb: seq<Msg>, store: Store) {
    && DistinctIds(inb)
    && (forall m | m in inb :: InboundOk(m) && Received(m.msgid) in store && IsRecord(store[Received(m.msgid)], m))
    && (forall id | Received(id) in store :: IdIn(inb, id))
  }

  ghost predicate Mirrors(out: seq<Msg>, inb: seq<Msg>, store: Store) {
    OutMirrors(out, store) && InMirrors(inb, store)
  }

  /** Moreover no "sc-" record is left behind without its message. */
  ghost predicate Agrees(s: Session) {
    Mirrors(s.out, s.inb, s.store) && forall id | Rel(id) in s.store :: IdIn(s.out, id)
  }

  // ---------- Steps ----------

  ghost predicate Enabled(s: Session, e: Event) {
    match e
    case Start(m) => OutboundOk(m) && m.next != NextPubcomp && !IdIn(s.out, m.msgid)
    case PublishIn(p) => p.Publish? && p.qos == 2 && Storable(Stored(p))
    case Retry(i, _) => i < |s.out|
    case _ => true
  }

  function Ops(s: Session, e: Event): seq<StoreOp>
    requires Enabled(s, e) && Agrees(s)
  {
    match e
    case Start(m) => [PutOp(Sent(m.msgid), Record(m, false))]
    case PubackIn(id) => if Find(s.out, id) >= 0 && s.out[Find(s.out, id)].qos == 1 then [RemoveOp(Sent(id))] else []
    case PubrecIn(id, _) => if PubrecDue(s.out, id) then (DueIds(s.out, id); [PutOp(Rel(id), RelRecord(id))]) else []
    case PubcompIn(id) => if PubcompDue(s.out, id) then [RemoveOp(Sent(id)), RemoveOp(Rel(id))] else []
    case PublishIn(p) => [PutOp(Received(p.msgid), Record(Stored(p), p.dup))]
    case PubrelIn(id) => if PubrelDue(s.inb, id) then [RemoveOp(Received(id))] else []
    case Retry(i, _) =>
      var m := s.out[i];
      assert m in s.out;
      if m.qos == 1 || m.next == NextPubrec then [PutOp(Sent(m.msgid), Record(m, true))]
        else [PutOp(Rel(m.msgid), RelRecord(m.msgid))]
    case Clean => [ClearOp]
  }

  lemma DueIds(out: seq<Msg>, id: int)
    requires PubrecDue(out, id) && forall m | m in out :: OutboundOk(m)
    ensures 1 <= id <= MAX_MSG_ID
  {
    assert out[Find(out, id)] in out;
  }

  function NextOut(s: Session, e: Event): seq<Msg>
    requires Enabled(s, e)
  {
    match e
    case Start(m) => s.out + [m]
    case PubackIn(id) => OnPuback(s.out, id)
    case PubrecIn(id, now) => OnPubrec(s.out, id, now)
    case PubcompIn(id) => OnPubcomp(s.out, id)
    case Retry(i, now) => s.out[i := s.out[i].(lastTouch := now)]
    case Clean => []
    case _ => s.out
  }

  function NextIn(s: Session, e: Event): seq<Msg>
    requires Enabled(s, e)
  {
    match e
    case PublishIn(p) => OnPublish(s.inb, p)
    case PubrelIn(id) => OnPubrel(s.inb, id)
    case Clean => []
    case _ => s.inb
  }

  function Step(s: Session, e: Event): Session
    requires Enabled(s, e) && Agrees(s)
  {
    Session(NextOut(s, e), NextIn(s, e), ApplyAll(s.store, Ops(s, e)))
  }

  /** Another message of the same id, QoS, retain flag and publication has the same record. */
  lemma SameRecord(bytes: seq<Byte>, m: Msg, m': Msg)
    requires IsRecord(bytes, m) && m' == m.(next := m'.next, lastTouch := m'.lastTouch)
    ensures IsRecord(bytes, m')
  {
    var dup :| bytes == Record(m, dup);
    assert bytes == Record(m', dup);
  }

  lemma SomeId(ms: seq<Msg>, i: int)
    requires 0 <= i < |ms|
    ensures IdIn(ms, ms[i].msgid) && ms[i] in ms
  {
  }

  lemma AppendIds(ms: seq<Msg>, m: Msg, id: int)
    ensures IdIn(ms + [m], id) <==> id == m.msgid || IdIn(ms, id)
  {
    if id == m.msgid {
      assert (ms + [m])[|ms|].msgid == id;
    } else if IdIn(ms, id) {
      var i :| 0 <= i < |ms| && ms[i].msgid == id;
      assert (ms + [m])[i].msgid == id;
    }
  }

  lemma UpdateIds(ms: seq<Msg>, i: int, m: Msg, id: int)
    requires 0 <= i < |ms| && m.msgid == ms[i].msgid && IdIn(ms, id)
    ensures IdIn(ms[i := m], id)
  {
    var j :| 0 <= j < |ms| && ms[j].msgid == id;
    assert ms[i := m][j].msgid == id;
  }

  lemma WithoutId(ms: seq<Msg>, i: int, id: int)
    requires 0 <= i < |ms| && IdIn(ms, id) && id != ms[i].msgid
    ensures IdIn(Without(ms, i), id)
  {
    var j :| 0 <= j < |ms| && ms[j].msgid == id;
    assert Without(ms, i)[if j < i then j else j - 1].msgid == id;
  }

  lemma UpdateMembers(ms: seq<Msg>, i: int, m: Msg)
    requires DistinctIds(ms) && 0 <= i < |ms| && m.msgid == ms[i].msgid
    ensures DistinctIds(ms[i := m]) && forall x | x in ms[i := m] :: x == m || (x in ms && x.msgid != m.msgid)
  {
  }

  lemma StartMirrors(out: seq<Msg>, store: Store, m: Msg)
    requires OutMirrors(out, store) && OutboundOk(m) && m.next != NextPubcomp && !IdIn(out, m.msgid)
             && Rel(m.msgid) !in store
    ensures OutMirrors(out + [m], store[Sent(m.msgid) := Record(m, false)])
  {
    forall x | x in out + [m]
      ensures x == m || (x in out && x.msgid != m.msgid)
    {
    }
    forall id | id == m.msgid || IdIn(out, id)
      ensures IdIn(out + [m], id)
    {
      AppendIds(out, m, id);
    }
  }

  /** The message at position i changes its stage or its time, or gets a fresh record. */
  lemma UpdateMirrors(out: seq<Msg>, store: Store, i: int, m': Msg, store': Store)
    requires OutMirrors(out, store) && 0 <= i < |out| && m' == out[i].(next := m'.next, lastTouch := m'.lastTouch)
             && OutboundOk(m')
    requires store'.Keys == store.Keys + {Sent(m'.msgid)} + if m'.next == NextPubcomp then {Rel(m'.msgid)} else {}
    requires Rel(m'.msgid) in store' <==> m'.next == NextPubcomp
    requires IsRecord(store'[Sent(m'.msgid)], out[i])
             && (m'.next == NextPubcomp ==> store'[Rel(m'.msgid)] == RelRecord(m'.msgid))
    requires forall k | k in store && k != Sent(m'.msgid) && k != Rel(m'.msgid) :: store'[k] == store[k]
    ensures OutMirrors(out[i := m'], store')
  {
    SameRecord(store'[Sent(m'.msgid)], out[i], m');
    UpdateMembers(out, i, m');
    SomeId(out, i);
    forall id | IdIn(out, id)
      ensures IdIn(out[i := m'], id)
    {
      UpdateIds(out, i, m', id);
    }
  }

  /** A message goes, and with it its "s-" record; an "sc-" record may stay behind. */
  lemma RemoveMirrors(out: seq<Msg>, store: Store, i: int, store': Store)
    requires OutMirrors(out, store) && 0 <= i < |out|
    requires store' == store - {Sent(out[i].msgid)} || store' == store - {Sent(out[i].msgid)} - {Rel(out[i].msgid)}
    ensures OutMirrors(Without(out, i), store')
  {
    WithoutIds(out, i);
    forall id | IdIn(out, id) && id != out[i].msgid
      ensures IdIn(Without(out, i), id)
    {
      WithoutId(out, i, id);
    }
    RemoveOthers(out, store, i, store');
  }

  lemma RemoveOthers(out: seq<Msg>, store: Store, i: int, store': Store)
    requires 0 <= i < |out|
    requires store' == store - {Sent(out[i].msgid)} || store' == store - {Sent(out[i].msgid)} - {Rel(out[i].msgid)}
    ensures forall id :: Sent(id) in store' <==> Sent(id) in store && id != out[i].msgid
    ensures forall id | Rel(id) in store' :: Rel(id) in store && store'[Rel(id)] == store[Rel(id)]
    ensures forall id | id != out[i].msgid :: Rel(id) in store' <==> Rel(id) in store
    ensures forall id | Sent(id) in store' :: store'[Sent(id)] == store[Sent(id)]
  {
  }

  /** Where the "r-" records stay the same, the inbound messages are mirrored as before; likewise for the others. */
  lemma InFrame(inb: seq<Msg>, store: Store, store': Store)
    requires InMirrors(inb, store) && forall id :: Received(id) in store' <==> Received(id) in store
    requires forall id | Received(id) in store :: store'[Received(id)] == store[Received(id)]
    ensures InMirrors(inb, store')
  {
  }

  lemma OutFrame(out: seq<Msg>, store: Store, store': Store)
    requires OutMirrors(out, store) && forall k: Key | !k.Received? :: k in store' <==> k in store
    requires forall k: Key | !k.Received? && k in store :: store'[k] == store[k]
    ensures OutMirrors(out, store')
  {
  }

  lemma PublishMirrors(inb: seq<Msg>, store: Store, p: Packet<Publication>)
    requires InMirrors(inb, store) && p.Publish? && p.qos == 2 && Storable(Stored(p))
    ensures InMirrors(OnPublish(inb, p), store[Received(p.msgid) := Record(Stored(p), p.dup)])
  {
    var m, i := Stored(p), Find(inb, p.msgid);
    if i >= 0 {
      UpdateMembers(inb, i, m);
    }
    forall id | id == m.msgid || IdIn(inb, id)
      ensures IdIn(OnPublish(inb, p), id)
    {
      if i >= 0 {
        if id == m.msgid { SomeId(inb, i); }
        UpdateIds(inb, i, m, id);
      } else {
        AppendIds(inb, m, id);
      }
    }
  }

  lemma PubrelMirrors(inb: seq<Msg>, store: Store, i: int)
    requires InMirrors(inb, store) && 0 <= i < |inb|
    ensures InMirrors(Without(inb, i), store - {Received(inb[i].msgid)})
  {
    WithoutIds(inb, i);
    forall id | IdIn(inb, id) && id != inb[i].msgid
      ensures IdIn(Without(inb, i), id)
    {
      WithoutId(inb, i, id);
    }
  }

  // ---------- Every event keeps store and memory in step ----------

  lemma ApplyFew(store: Store, a: StoreOp, b: StoreOp)
    ensures ApplyAll(store, []) == store && ApplyAll(store, [a]) == Apply(store, a)
            && ApplyAll(store, [a, b]) == Apply(Apply(store, a), b)
  {
    assert [a][1..] == [] && [a, b][1..] == [b] && [b][1..] == [];
    assert ApplyAll(Apply(store, a), [b]) == Apply(Apply(store, a), b);
  }

  lemma StepAgrees(s: Session, e: Event)
    requires Agrees(s) && Enabled(s, e)
    ensures Agrees(Step(s, e))
  {
    match e
    case Start(m) => StartAgrees(s, m);
    case PubackIn(id) => PubackAgrees(s, id);
    case PubrecIn(id, now) => PubrecAgrees(s, id, now);
    case PubcompIn(id) => PubcompAgrees(s, id);
    case PublishIn(p) => PublishAgrees(s, p);
    case PubrelIn(id) => PubrelAgrees(s, id);
    case Retry(i, now) => RetryAgrees(s, i, now);
    case Clean => CleanAgrees(s);
  }

  lemma StartAgrees(s: Session, m: Msg)
    requires Agrees(s) && Enabled(s, Start(m))
    ensures Agrees(Step(s, Start(m)))
  {
    ApplyFew(s.store, PutOp(Sent(m.msgid), Record(m, false)), ClearOp);
    StartStep(s, m);
  }

  lemma PubackAgrees(s: Session, id: int)
    requires Agrees(s)
    ensures Agrees(Step(s, PubackIn(id)))
  {
    ApplyFew(s.store, RemoveOp(Sent(id)), ClearOp);
    if Ops(s, PubackIn(id)) != [] {
      RemoveStep(s, Find(s.out, id), s.store - {Sent(id)});
    }
  }

  lemma PubrecAgrees(s: Session, id: int, now: int)
    requires Agrees(s)
    ensures Agrees(Step(s, PubrecIn(id, now)))
  {
    if PubrecDue(s.out, id) {
      PubrecStep(s, id, Find(s.out, id), now);
      ApplyFew(s.store, PutOp(Rel(id), RelRecord(id)), ClearOp);
    } else {
      ApplyFew(s.store, ClearOp, ClearOp);
    }
  }

  lemma PubcompAgrees(s: Session, id: int)
    requires Agrees(s)
    ensures Agrees(Step(s, PubcompIn(id)))
  {
    ApplyFew(s.store, RemoveOp(Sent(id)), RemoveOp(Rel(id)));
    if PubcompDue(s.out, id) {
      RemoveStep(s, Find(s.out, id), s.store - {Sent(id)} - {Rel(id)});
    }
  }

  lemma PublishAgrees(s: Session, p: Packet<Publication>)
    requires Agrees(s) && Enabled(s, PublishIn(p))
    ensures Agrees(Step(s, PublishIn(p)))
  {
    ApplyFew(s.store, PutOp(Received(p.msgid), Record(Stored(p), p.dup)), ClearOp);
    PublishMirrors(s.inb, s.store, p);
    OutFrame(s.out, s.store, s.store[Received(p.msgid) := Record(Stored(p), p.dup)]);
  }

  lemma PubrelAgrees(s: Session, id: int)
    requires Agrees(s)
    ensures Agrees(Step(s, PubrelIn(id)))
  {
    ApplyFew(s.store, RemoveOp(Received(id)), ClearOp);
    if PubrelDue(s.inb, id) {
      PubrelMirrors(s.inb, s.store, Find(s.inb, id));
      OutFrame(s.out, s.store, s.store - {Received(id)});
    }
  }

  lemma CleanAgrees(s: Session)
    requires Agrees(s)
    ensures Agrees(Step(s, Clean))
  {
    ApplyFew(s.store, ClearOp, ClearOp);
  }

  lemma StartStep(s: Session, m: Msg)
    requires Agrees(s) && OutboundOk(m) && m.next != NextPubcomp && !IdIn(s.out, m.msgid)
    ensures Agrees(Session(s.out + [m], s.inb, s.store[Sent(m.msgid) := Record(m, false)]))
  {
    StartMirrors(s.out, s.store, m);
    InFrame(s.inb, s.store, s.store[Sent(m.msgid) := Record(m, false)]);
    forall id | IdIn(s.out, id)
      ensures IdIn(s.out + [m], id)
    {
      AppendIds(s.out, m, id);
    }
  }

  /** A message that goes: QoS 1 has no "sc-" record, and that of QoS 2 goes too. */
  lemma RemoveStep(s: Session, i: int, store': Store)
    requires Agrees(s) && 0 <= i < |s.out|
    requires var id := s.out[i].msgid;
             store' == s.store - {Sent(id)} - {Rel(id)} || (s.out[i].qos == 1 && store' == s.store - {Sent(id)})
    ensures Agrees(Session(Without(s.out, i), s.inb, store'))
  {
    assert s.out[i] in s.out;
    RemoveMirrors(s.out, s.store, i, store');
    InFrame(s.inb, s.store, store');
    forall id | Rel(id) in store'
      ensures IdIn(Without(s.out, i), id)
    {
      WithoutId(s.out, i, id);
    }
  }

  lemma UpdateStep(s: Session, i: int, m': Msg, store': Store)
    requires Agrees(s) && 0 <= i < |s.out| && m' == s.out[i].(next := m'.next, lastTouch := m'.lastTouch)
             && OutboundOk(m')
    requires store'.Keys == s.store.Keys + {Sent(m'.msgid)} + if m'.next == NextPubcomp then {Rel(m'.msgid)} else {}
    requires Rel(m'.msgid) in store' <==> m'.next == NextPubcomp
    requires IsRecord(store'[Sent(m'.msgid)], s.out[i])
             && (m'.next == NextPubcomp ==> store'[Rel(m'.msgid)] == RelRecord(m'.msgid))
    requires forall k | k in s.store && k != Sent(m'.msgid) && k != Rel(m'.msgid) :: store'[k] == s.store[k]
    ensures Agrees(Session(s.out[i := m'], s.inb, store'))
  {
    UpdateMirrors(s.out, s.store, i, m', store');
    InFrame(s.inb, s.store, store');
    forall id | Rel(id) in store'
      ensures IdIn(s.out[i := m'], id)
    {
      if id == m'.msgid { assert s.out[i].msgid == id; }
      UpdateIds(s.out, i, m', id);
    }
  }

  lemma PubrecStep(s: Session, id: int, i: int, now: int)
    requires Agrees(s) && PubrecDue(s.out, id) && i == Find(s.out, id)
    ensures 0 <= id && Agrees(Session(s.out[i := s.out[i].(next := NextPubcomp, lastTouch := now)], s.inb,
              s.store[Rel(id) := RelRecord(id)]))
  {
    assert s.out[i] in s.out;
    UpdateStep(s, i, s.out[i].(next := NextPubcomp, lastTouch := now), s.store[Rel(id) := RelRecord(id)]);
  }

  lemma RetryAgrees(s: Session, i: nat, now: int)
    requires Agrees(s) && i < |s.out|
    ensures Agrees(Step(s, Retry(i, now)))
  {
    var m, e := s.out[i], Retry(i, now);
    assert m in s.out;
    ApplyFew(s.store, Ops(s, e)[0], ClearOp);
    if m.next == NextPubcomp {
      UpdateStep(s, i, m.(lastTouch := now), s.store[Rel(m.msgid) := RelRecord(m.msgid)]);
    } else {
      UpdateStep(s, i, m.(lastTouch := now), s.store[Sent(m.msgid) := Record(m, true)]);
    }
  }

  /** After every run of events store and memory agree. */
  ghost predicate Reachable(s: Session, es: seq<Event>, t: Session)
    decreases |es|
  {
    if es == [] then t == s else Agrees(s) && Enabled(s, es[0]) && Reachable(Step(s, es[0]), es[1..], t)
  }

  lemma {:induction false} RunAgrees(s: Session, es: seq<Event>, t: Session)
    requires Agrees(s) && Reachable(s, es, t)
    ensures Agrees(t)
    decreases |es|
  {
    if es != [] {
      StepAgrees(s, es[0]);
      RunAgrees(Step(s, es[0]), es[1..], t);
    }
  }

  // ---------- Crash points ----------

  /** Cut between any two store operations of an event, the store mirrors the session before the event or after it. */
  lemma CrashPoint(s: Session, e: Event, k: nat)
    requires Agrees(s) && Enabled(s, e) && k <= |Ops(s, e)|
    ensures var store := ApplyAll(s.store, Ops(s, e)[..k]);
            Mirrors(s.out, s.inb, store) || Mirrors(NextOut(s, e), NextIn(s, e), store)
  {
    var ops := Ops(s, e);
    if k == 0 {
      assert ops[..0] == [];
    } else if k == |ops| {
      assert ops[..k] == ops;
      StepAgrees(s, e);
    } else {
      assert e.PubcompIn? && ops[..1] == [RemoveOp(Sent(e.id))];
      ApplyFew(s.store, RemoveOp(Sent(e.id)), ClearOp);
      RemoveMirrors(s.out, s.store, Find(s.out, e.id), s.store - {Sent(e.id)});
      InFrame(s.inb, s.store, s.store - {Sent(e.id)});
    }
  }

  /** Were "sc-" removed before "s-", a crash in between would take the message back to waiting for a PUBREC. */
  lemma OtherOrderRegresses(s: Session, id: int)
    requires Agrees(s) && PubcompDue(s.out, id)
    ensures var store := s.store - {Rel(id)};
            WellTyped(store) && IsGood(store, Sent(id)) && RestoredOut(store, id).next == NextPubrec
  {
    var m := s.out[Find(s.out, id)];
    assert m in s.out;
    var dup := RecordReads(s.store[Sent(id)], m);
    MirrorsTyped(s.out, s.inb, s.store);
  }

  // ---------- Restoration ----------

  /** The same messages, touched at time t. */
  ghost function Timed(ms: seq<Msg>, t: int): (r: seq<Msg>)
    ensures |r| == |ms| && forall i | 0 <= i < |ms| :: r[i] == ms[i].(lastTouch := t)
  {
    seq(|ms|, i requires 0 <= i < |ms| => ms[i].(lastTouch := t))
  }

  lemma RecordReads(bytes: seq<Byte>, m: Msg) returns (dup: bool)
    requires IsRecord(bytes, m)
    ensures RestorePacket(bytes) == RestoredPublish(PublishOf(m, dup))
  {
    dup :| bytes == Record(m, dup);
    RecordRestored(m, dup);
  }

  lemma MirrorsTyped(out: seq<Msg>, inb: seq<Msg>, store: Store)
    requires Mirrors(out, inb, store)
    ensures WellTyped(store) && forall k | k in store && !k.CommandKey? && !k.QueueKey? :: !IsBad(store, k)
  {
    forall k | k in store && !k.CommandKey? && !k.QueueKey?
      ensures RecordOk(k, RestorePacket(store[k])) && !RestorePacket(store[k]).BadRecord?
    {
      match k
      case Sent(id) =>
        var i :| 0 <= i < |out| && out[i].msgid == id;
        assert out[i] in out;
        var _ := RecordReads(store[k], out[i]);
      case Received(id) =>
        var i :| 0 <= i < |inb| && inb[i].msgid == id;
        assert inb[i] in inb;
        var _ := RecordReads(store[k], inb[i]);
      case Rel(id) => RelRestored(id);
    }
  }

  /** Each outbound message is restored, with its id, QoS, retain flag, topic, payload and stage. */
  lemma OutMessage(out: seq<Msg>, inb: seq<Msg>, store: Store, m: Msg)
    requires Mirrors(out, inb, store) && m in out && WellTyped(store)
    ensures IsGood(store, Sent(m.msgid)) && RestoredOut(store, m.msgid) == m.(lastTouch := 0)
  {
    var _ := RecordReads(store[Sent(m.msgid)], m);
  }

  lemma InMessage(out: seq<Msg>, inb: seq<Msg>, store: Store, m: Msg, now: int)
    requires Mirrors(out, inb, store) && m in inb && WellTyped(store)
    ensures IsGood(store, Received(m.msgid)) && RestoredIn(store, m.msgid, now) == m.(lastTouch := now)
  {
    var _ := RecordReads(store[Received(m.msgid)], m);
  }

  lemma ById(ms: seq<Msg>, id: int) returns (m: Msg)
    requires IdIn(ms, id)
    ensures m in ms && m.msgid == id
  {
    var i :| 0 <= i < |ms| && ms[i].msgid == id;
    m := ms[i];
  }

  lemma OutSame(out: seq<Msg>, inb: seq<Msg>, store: Store, sorted: seq<Msg>)
    requires Mirrors(out, inb, store) && WellTyped(store) && OutRestored(store, store.Keys, sorted)
    requires forall k | k in store && !k.CommandKey? && !k.QueueKey? :: !IsBad(store, k)
    ensures SameElements(sorted, Timed(out, 0))
  {
    var was := Timed(out, 0);
    forall x | x in sorted
      ensures x in was
    {
      var m := ById(out, x.msgid);
      OutMessage(out, inb, store, m);
      var i :| 0 <= i < |out| && out[i] == m;
      assert was[i] == x;
    }
    forall x | x in was
      ensures x in sorted
    {
      var i :| 0 <= i < |was| && was[i] == x;
      OutMessage(out, inb, store, out[i]);
      var y := ById(sorted, x.msgid);
      assert y == x;
    }
  }

  lemma InSame(out: seq<Msg>, inb: seq<Msg>, store: Store, inb': seq<Msg>, now: int)
    requires Mirrors(out, inb, store) && WellTyped(store) && InRestored(store, store.Keys, inb', now)
    ensures SameElements(inb', Timed(inb, now))
  {
    var was := Timed(inb, now);
    forall x | x in inb'
      ensures x in was
    {
      var m := ById(inb, x.msgid);
      InMessage(out, inb, store, m, now);
      var i :| 0 <= i < |inb| && inb[i] == m;
      assert was[i] == x;
    }
    forall x | x in was
      ensures x in inb'
    {
      var i :| 0 <= i < |was| && was[i] == x;
      InMessage(out, inb, store, inb[i], now);
      var y := ById(inb', x.msgid);
      assert y == x;
    }
  }

  /** Restoring drops "sc-" records without their message, and nothing else. */
  lemma StoreSame(out: seq<Msg>, inb: seq<Msg>, store: Store, store': Store)
    requires Mirrors(out, inb, store) && WellTyped(store) && StoreCleaned(store, store.Keys, store')
    requires forall k | k in store && !k.CommandKey? && !k.QueueKey? :: !IsBad(store, k)
    ensures forall k | k in store && (k.Sent? || k.Received? || (k.Rel? && IdIn(out, k.id))) ::
                k in store'
                && store'[k] == store[k]
    ensures Agrees(Session(out, inb, store'))
  {
  }

  /** MQTTPersistence_restore on a store that mirrors a session rebuilds that session, message by message, and, if the
      ids in flight keep their cyclic order with the largest gap between the last and the first, in the order they were
      sent. */
  method RestoreSession(persistence: Persistence, now: int, ghost out: seq<Msg>, ghost inb: seq<Msg>, ghost h: int)
    returns (outbound: seq<Msg>, inbound: seq<Msg>)
    requires Mirrors(out, inb, persistence.records)
    modifies persistence
    ensures SameElements(outbound, Timed(out, 0)) && SameElements(inbound, Timed(inb, now))
    ensures OneTurn(Timed(out, 0), h) && ClosingGapLargest(Timed(out, 0)) ==> outbound == Timed(out, 0)
    ensures Agrees(Session(out, inb, persistence.records))
  {
    ghost var store := persistence.records;
    MirrorsTyped(out, inb, store);
    var list, inbs, sorted := Restore(persistence, now);
    OutSame(out, inb, store, sorted);
    InSame(out, inb, store, inbs, now);
    StoreSame(out, inb, store, persistence.records);
    if OneTurn(Timed(out, 0), h) && ClosingGapLargest(Timed(out, 0)) {
      SendOrderRecovered(Timed(out, 0), h, sorted);
    }
    WrappedElements(sorted);
    outbound := list.WalkForward();
    inbound := inbs;
  }

  /** An event does not take a message back: while its id is in use it stays the same publication, at the same stage or
      the next. */
  lemma NeverEarlier(s: Session, e: Event, m: Msg, m': Msg)
    requires Agrees(s) && Enabled(s, e) && m in s.out && m' in NextOut(s, e) && m'.msgid == m.msgid
    ensures m' == m.(next := m'.next, lastTouch := m'.lastTouch) && (m.next == NextPubcomp ==> m'.next == NextPubcomp)
  {
    EffectAt(s.out, m.msgid);
    match e
    case PubackIn(id) => PubackEffect(s.out, id);
    case PubcompIn(id) => PubcompEffect(s.out, id);
    case PubrecIn(id, now) => PubrecEffect(s.out, id, now);
    case _ =>
  }

  /** The messages are those of the session before the event, or those after it. */
  ghost predicate BeforeOrAfter(s: Session, e: Event, outbound: seq<Msg>, inbound: seq<Msg>, now: int)
    requires Enabled(s, e)
  {
    || (SameElements(outbound, Timed(s.out, 0)) && SameElements(inbound, Timed(s.inb, now)))
    || (SameElements(outbound, Timed(NextOut(s, e), 0)) && SameElements(inbound, Timed(NextIn(s, e), now)))
  }

  lemma RestoredNoEarlier(s: Session, e: Event, ms: seq<Msg>, outbound: seq<Msg>, m: Msg, m': Msg)
    requires Agrees(s) && Enabled(s, e) && (ms == s.out || ms == NextOut(s, e)) && SameElements(outbound, Timed(ms, 0))
    requires m in s.out && m' in outbound && m'.msgid == m.msgid
    ensures m' == m.(next := m'.next, lastTouch := 0) && (m.next == NextPubcomp ==> m'.next == NextPubcomp)
  {
    assert m' in Timed(ms, 0);
    var i :| 0 <= i < |ms| && ms[i].(lastTouch := 0) == m';
    assert ms[i] in ms;
    if ms == s.out {
      EffectAt(s.out, m.msgid);
    } else {
      NeverEarlier(s, e, m, ms[i]);
    }
  }

  const EMPTY := Session([], [], map[])

  /** After any run, a crash between any two store operations of an event, or before or after them, and a restore: the
      session is that before the event or that after it, and no message is at an earlier stage than it had reached. */
  method Recover(persistence: Persistence, now: int, ghost es: seq<Event>, ghost s: Session, ghost e: Event,
                 ghost k: nat)
    returns (outbound: seq<Msg>, inbound: seq<Msg>)
    requires Reachable(EMPTY, es, s) && Enabled(s, e)
    requires (RunAgrees(EMPTY, es, s); k <= |Ops(s, e)| && persistence.records == ApplyAll(s.store, Ops(s, e)[..k]))
    modifies persistence
    ensures BeforeOrAfter(s, e, outbound, inbound, now)
    ensures forall m, m' | m in s.out && m' in outbound && m'.msgid == m.msgid ::
              m' == m.(next := m'.next, lastTouch := 0) && (m.next == NextPubcomp ==> m'.next == NextPubcomp)
  {
    RunAgrees(EMPTY, es, s);
    CrashPoint(s, e, k);
    ghost var before := Mirrors(s.out, s.inb, persistence.records);
    ghost var out, inb := if before then s.out else NextOut(s, e), if before then s.inb else NextIn(s, e);
    outbound, inbound := RestoreSession(persistence, now, out, inb, 0);
    forall m, m' | m in s.out && m' in outbound && m'.msgid == m.msgid
      ensures m' == m.(next := m'.next, lastTouch := 0) && (m.next == NextPubcomp ==> m'.next == NextPubcomp)
    {
      RestoredNoEarlier(s, e, out, outbound, m, m');
    }
  }

  lemma WrappedElements(ms: seq<Msg>)
    ensures SameElements(Wrapped(ms), ms)
  {
  }
}
