/**
 The session store as an object, and the restoration of a session from it (src/MQTTPersistence.c:165-319,
 src/MQTTClientPersistence.h:44-50).
 */
module Persistence {
  import opened Bytes
  import opened Handshake
  import LinkedList
  import P = MQTTPacket
  import opened SendOrder
  import opened SessionStore

  datatype StoreOp = PutOp(key: Key, value: seq<Byte>) | RemoveOp(key: Key) | ClearOp

  function Apply(store: Store, op: StoreOp): Store {
    match op
    case PutOp(key, value) => store[key := value]
    case RemoveOp(key) => store - {key}
    case ClearOp => map[]
  }

  function ApplyAll(store: Store, ops: seq<StoreOp>): Store
    decreases |ops|
  {
    if ops == [] then store else ApplyAll(Apply(store, ops[0]), ops[1..])
  }

  /** The operations of MQTTClient_persistence, none of which fails here; the log keeps those that change the store. */
  class Persistence {
    var records: Store
    ghost var log: seq<StoreOp>

    constructor ()
      ensures records == map[] && log == []
    {
      records, log := map[], [];
    }

    method Put(key: Key, value: seq<Byte>)
      modifies this
      ensures records == old(records)[key := value] && log == old(log) + [PutOp(key, value)]
    {
      records, log := records[key := value], log + [PutOp(key, value)];
    }

    method Remove(key: Key)
      modifies this
      ensures records == old(records) - {key} && log == old(log) + [RemoveOp(key)]
    {
      records, log := records - {key}, log + [RemoveOp(key)];
    }

    method Clear()
      modifies this
      ensures records == map[] && log == old(log) + [ClearOp]
    {
      records, log := map[], log + [ClearOp];
    }

    /** The keys, in an order that is nobody's business. */
    method Keys() returns (keys: seq<Key>)
      ensures Enumerates(keys, records)
    {
      keys := [];
      var rest := records.Keys;
      while rest != {}
        invariant rest <= records.Keys && (forall k | k in records :: k in keys <==> k !in rest)
                  && forall k | k in keys :: k in records
        invariant forall i, j | 0 <= i < j < |keys| :: keys[i] != keys[j]
        decreases |rest|
      {
        var k :| k in rest;
        keys := keys + [k];
        rest := rest - {k};
      }
    }
  }

  ghost predicate Enumerates(keys: seq<Key>, store: Store) {
    (forall k :: k in keys <==> k in store) && forall i, j | 0 <= i < j < |keys| :: keys[i] != keys[j]
  }

  ghost function KeySet(keys: seq<Key>): set<Key> {
    set k | k in keys
  }

  lemma NextKey(store: Store, keys: seq<Key>, i: int)
    requires Enumerates(keys, store) && 0 <= i < |keys|
    ensures keys[i] in store && keys[i] !in KeySet(keys[..i]) && KeySet(keys[..i + 1]) == KeySet(keys[..i]) + {keys[i]}
  {
  }

  lemma AllKeys(store: Store, keys: seq<Key>)
    requires Enumerates(keys, store)
    ensures KeySet(keys[..|keys|]) == store.Keys
  {
  }

  // ---------- What a store stands for ----------

  /** Every record is bad, or what its key says: readable without running past its end. */
  ghost predicate WellTyped(store: Store) {
    forall k | k in store :: RecordOk(k, RestorePacket(store[k]))
  }

  ghost predicate RecordOk(k: Key, r: Restored) {
    match k
    case Sent(id) => r.BadRecord? || (r.RestoredPublish? && r.p.msgId == id)
    case Received(id) => r.BadRecord? || (r.RestoredPublish? && r.p.msgId == id)
    case Rel(id) => r.BadRecord? || (r.RestoredAck? && r.a.msgId == id)
    case _ => true
  }

  ghost predicate IsGood(store: Store, k: Key) {
    k in store && !RestorePacket(store[k]).BadRecord?
  }

  ghost predicate IsBad(store: Store, k: Key) {
    k in store && RestorePacket(store[k]).BadRecord?
  }

  /** The message a record stands for. */
  ghost function Unpacked(p: P.Publish, next: Next, lastTouch: int): Msg {
    Message(p.msgId, p.header.qos, p.header.retain, Publication(p.topic, p.payload), next, lastTouch)
  }

  /** The outbound message of "s-id": its stage is past the PUBREC if there is a record "sc-id". */
  ghost function RestoredOut(store: Store, id: int): Msg
    requires WellTyped(store) && IsGood(store, Sent(id))
  {
    var p := RestorePacket(store[Sent(id)]).p;
    Unpacked(p, if Rel(id) in store then NextPubcomp else if p.header.qos == 2 then NextPubrec else NextUnset, 0)
  }

  ghost function RestoredIn(store: Store, id: int, now: int): Msg
    requires WellTyped(store) && IsGood(store, Received(id))
  {
    Unpacked(RestorePacket(store[Received(id)]).p, NextPubrel, now)
  }

  /** The outbound list is what the records processed so far stand for.  A bad "sc-id" may or may not have counted. */
  ghost predicate OutRestored(store: Store, done: set<Key>, out: seq<Msg>)
    requires WellTyped(store)
  {
    && Increasing(out)
    && (forall m | m in out :: Sent(m.msgid) in done && IsGood(store, Sent(m.msgid))
          && m == RestoredOut(store, m.msgid).(next := m.next)
          && (!IsBad(store, Rel(m.msgid)) ==> m == RestoredOut(store, m.msgid)))
    && forall id | Sent(id) in done && IsGood(store, Sent(id)) :: IdIn(out, id)
  }

  ghost predicate InRestored(store: Store, done: set<Key>, inb: seq<Msg>, now: int)
    requires WellTyped(store)
  {
    && DistinctIds(inb)
    && (forall m | m in inb ::
        Received(m.msgid) in done && IsGood(store, Received(m.msgid))
        && m == RestoredIn(store, m.msgid, now))
    && forall id | Received(id) in done && IsGood(store, Received(id)) :: IdIn(inb, id)
  }

  /** Only bad records and "sc-" records without their "s-" record are dropped. */
  ghost predicate StoreCleaned(store: Store, done: set<Key>, now: Store) {
    && (forall k | k in now :: k in store && now[k] == store[k])
    && (forall k | k in store && k !in now :: k in done && (IsBad(store, k) || (k.Rel? && !IsGood(store, Sent(k.id)))))
    && (forall k | k in done && IsBad(store, k) && !k.CommandKey? && !k.QueueKey? :: k !in now)
    && forall id | Rel(id) in done && Sent(id) !in store :: Rel(id) !in now
  }

  lemma StepSent(store: Store, done: set<Key>, out: seq<Msg>, id: int, m: Msg, k: int)
    requires WellTyped(store) && OutRestored(store, done, out) && Sent(id) !in done && IsGood(store, Sent(id))
    requires m == RestoredOut(store, id).(next := m.next) && (!IsBad(store, Rel(id)) ==> m == RestoredOut(store, id))
    requires InsertionPoint(out, m, k)
    ensures OutRestored(store, done + {Sent(id)}, LinkedList.Inserted(out, k, m))
  {
    assert m.msgid == id;
    forall i | 0 <= i < |out|
      ensures out[i].msgid != id
    {
      assert out[i] in out;
    }
    InsertKeepsOrder(out, m, k);
    forall j | Sent(j) in done + {Sent(id)} && IsGood(store, Sent(j))
      ensures IdIn(LinkedList.Inserted(out, k, m), j)
    {
      InsertedIds(out, m, k, j);
    }
  }

  lemma InsertedIds(out: seq<Msg>, m: Msg, k: int, id: int)
    requires 0 <= k <= |out|
    ensures id == m.msgid || IdIn(out, id) ==> IdIn(LinkedList.Inserted(out, k, m), id)
  {
    var out' := LinkedList.Inserted(out, k, m);
    if id == m.msgid {
      assert out'[k].msgid == id;
    } else if IdIn(out, id) {
      var i :| 0 <= i < |out| && out[i].msgid == id;
      assert out'[if i < k then i else i + 1].msgid == id;
    }
  }

  lemma StepReceived(store: Store, done: set<Key>, inb: seq<Msg>, id: int, m: Msg, now: int)
    requires WellTyped(store) && InRestored(store, done, inb, now) && Received(id) !in done
             && IsGood(store, Received(id))
    requires m == RestoredIn(store, id, now)
    ensures InRestored(store, done + {Received(id)}, inb + [m], now)
  {
    assert m.msgid == id;
    forall i | 0 <= i < |inb|
      ensures inb[i].msgid != id
    {
      assert inb[i] in inb;
    }
    forall j | Received(j) in done + {Received(id)} && IsGood(store, Received(j))
      ensures IdIn(inb + [m], j)
    {
      if j == id {
        assert (inb + [m])[|inb|].msgid == id;
      } else {
        var i :| 0 <= i < |inb| && inb[i].msgid == j;
        assert (inb + [m])[i].msgid == j;
      }
    }
  }

  /** MQTTPersistence_restore: whatever the order of the keys, the lists hold what the records stand for. */
  method Restore(persistence: Persistence, now: int)
    returns (outbound: LinkedList.List<Msg>, inbound: seq<Msg>, ghost sorted: seq<Msg>)
    requires WellTyped(persistence.records)
    modifies persistence
    ensures fresh(outbound) && outbound.Valid()
    ensures var store, all := old(persistence.records), old(persistence.records).Keys;
            && OutRestored(store, all, sorted) && outbound.contents == Wrapped(sorted)
            && InRestored(store, all, inbound, now)
            && StoreCleaned(store, all, persistence.records)
  {
    ghost var store := persistence.records;
    outbound := new LinkedList.List();
    inbound := [];
    var msgkeys := persistence.Keys();
    var i := 0;
    ghost var done: set<Key> := {};
    while i < |msgkeys|
      invariant 0 <= i <= |msgkeys| && done == KeySet(msgkeys[..i])
      invariant fresh(outbound) && outbound.Valid() && fresh(outbound.els)
      invariant OutRestored(store, done, outbound.contents) && InRestored(store, done, inbound, now)
      invariant StoreCleaned(store, done, persistence.records)
    {
      NextKey(store, msgkeys, i);
      inbound := RestoreKey(persistence, store, done, msgkeys[i], outbound, inbound, now);
      done := done + {msgkeys[i]};
      i := i + 1;
    }
    AllKeys(store, msgkeys);
    sorted := outbound.contents;
    WrapMsgID(outbound);
  }

  /** A message whose record is bad is in neither list after a restore, and the record is gone. */
  lemma BadDropped(store: Store, sorted: seq<Msg>, inb: seq<Msg>, now: int, store': Store, k: Key)
    requires WellTyped(store) && k in store && (k.Sent? || k.Received? || k.Rel?) && RestorePacket(store[k]).BadRecord?
    requires OutRestored(store, store.Keys, sorted) && InRestored(store, store.Keys, inb, now)
    requires StoreCleaned(store, store.Keys, store')
    ensures k !in store'
    ensures k.Sent? ==> forall m | m in sorted :: m.msgid != k.id
    ensures k.Received? ==> forall m | m in inb :: m.msgid != k.id
  {
  }

  /** A record "s-id": its message goes to its place in the outbound list. */
  method RestoreSent(persistence: Persistence, ghost store: Store,
                     ghost done: set<Key>, ghost id: int, p: P.Publish, outbound: LinkedList.List<Msg>, now: int)
    requires WellTyped(store) && Sent(id) !in done && IsGood(store, Sent(id))
             && RestorePacket(store[Sent(id)]) == RestoredPublish(p)
    requires outbound.Valid() && OutRestored(store, done, outbound.contents)
             && StoreCleaned(store, done, persistence.records)
    modifies outbound, outbound.els
    ensures outbound.Valid() && OutRestored(store, done + {Sent(id)}, outbound.contents)
    ensures forall i | 0 <= i < |outbound.els| :: outbound.els[i] in old(outbound.els) || fresh(outbound.els[i])
  {
    var msg := Created(p.msgId, p.header.qos, p.header.retain, Publication(p.topic, p.payload), now);
    if Rel(p.msgId) in persistence.records {
      msg := msg.(next := NextPubcomp);
    }
    msg := msg.(lastTouch := 0);
    ghost var before := outbound.contents;
    ghost var k := InsertInOrder(outbound, msg);
    StepSent(store, done, before, id, msg, k);
  }

  /** The loop body of MQTTPersistence_restore. */
  method RestoreKey(persistence: Persistence, ghost store: Store, ghost done: set<Key>, key: Key,
                    outbound: LinkedList.List<Msg>, inbound: seq<Msg>, now: int) returns (inbound': seq<Msg>)
    requires WellTyped(store) && key in store && key !in done && StoreCleaned(store, done, persistence.records)
    requires outbound.Valid() && OutRestored(store, done, outbound.contents) && InRestored(store, done, inbound, now)
    modifies persistence, outbound, outbound.els
    ensures outbound.Valid() && forall i | 0 <= i < |outbound.els| ::
                outbound.els[i] in old(outbound.els)
                || fresh(outbound.els[i])
    ensures OutRestored(store, done + {key}, outbound.contents) && InRestored(store, done + {key}, inbound', now)
    ensures StoreCleaned(store, done + {key}, persistence.records)
  {
    inbound' := inbound;
    ghost var records := persistence.records;
    if key.CommandKey? || key.QueueKey? {
    } else {
      var pack := ReadRecord(persistence.records[key]);
      if pack.BadRecord? {
        persistence.Remove(key);
      } else if key.Received? {
        var p := pack.p;
        var msg := Message(p.msgId, p.header.qos, p.header.retain, Publication(p.topic, p.payload), NextPubrel, now);
        StepReceived(store, done, inbound, key.id, msg, now);
        inbound' := inbound + [msg];
      } else if key.Sent? {
        RestoreSent(persistence, store, done, key.id, pack.p, outbound, now);
      } else {
        if Sent(pack.a.msgId) !in persistence.records {
          persistence.Remove(key);
        } else {
        }
      }
    }
  }
}
