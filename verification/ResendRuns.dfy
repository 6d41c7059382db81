/**
 Runs in which a resend in mid-connection makes a PUBACK be taken for that of a later message, and with them the exact
 condition under which QoS 1 delivers at least once.
 */
module ResendRuns {
  import opened AtLeastOnce
  import opened Delivery
  import opened Handshake
  import OneInFlight
  import opened Options
  import opened Resends
  import opened Seqs

  lemma {:induction false} RunsThen(st: Setting, c: Config, events: seq<Event>, d: Config, e: Event)
    requires Runs(st, c, events, d) && Allowed(st, d, e)
    ensures Runs(st, c, events + [e], AfterEvent(d, e))
    decreases |events|
  {
    if events == [] {
      assert ([] + [e])[1..] == [];
    } else {
      assert (events + [e])[1..] == events[1..] + [e];
      RunsThen(st, AfterEvent(c, events[0]), events[1..], d, e);
    }
  }

  ghost predicate NothingLost(events: seq<Event>) {
    forall e | e in events && e.Step? :: e.move.Reconnect? || !e.move.lost
  }

  /** A run after a restore that loses nothing but what a reconnect takes. */
  ghost predicate Leads(st: Setting, s: System, events: seq<Event>, c: Config) {
    Runs(st, Begin(s), events, c) && NothingLost(events)
  }

  lemma Then(st: Setting, s: System, events: seq<Event>, c: Config, e: Event) returns (events': seq<Event>, c': Config)
    requires Leads(st, s, events, c) && Allowed(st, c, e) && NothingLost([e])
    ensures Leads(st, s, events', c') && c' == AfterEvent(c, e)
  {
    RunsThen(st, Begin(s), events, c, e);
    events', c' := events + [e], AfterEvent(c, e);
    assert e in [e];
  }

  // ---------- Finishing the restored exchanges ----------

  /** The receiver's entries for the restored QoS 2 messages. */
  ghost function Entries(r: seq<Message<nat>>): seq<Message<nat>> {
    if r == [] then []
    else if r[0].qos == 2 then [Entry(r[0])] + Entries(r[1..])
    else Entries(r[1..])
  }

  ghost function Entry(m: Message<nat>): Message<nat> {
    Message(m.msgid, 2, m.retain, m.publication, NextPubrel, 0)
  }

  lemma {:induction false} EntriesOf(r: seq<Message<nat>>)
    requires DistinctIds(r)
    ensures DistinctIds(Entries(r))
    ensures forall m | m in Entries(r) :: m.qos == 2 && m.next == NextPubrel && IdIn(r, m.msgid)
    ensures forall m | m in r && m.qos == 2 :: IdIn(Entries(r), m.msgid)
  {
    if r != [] {
      EntriesOf(r[1..]);
      var rest := Entries(r[1..]);
      forall m | m in rest
        ensures m.msgid != r[0].msgid && IdIn(r, m.msgid)
      {
        var i :| 0 <= i < |r[1..]| && r[1..][i].msgid == m.msgid;
        assert r[i + 1].msgid == m.msgid;
      }
      assert r[0].msgid == Entry(r[0]).msgid && IdIn(r, r[0].msgid);
    }
    forall m | m in r && m.qos == 2
      ensures IdIn(Entries(r), m.msgid)
    {
      EntryOf(r, m);
    }
  }

  lemma {:induction false} EntryOf(r: seq<Message<nat>>, m: Message<nat>)
    requires m in r && m.qos == 2
    ensures IdIn(Entries(r), m.msgid)
  {
    if m == r[0] {
      assert Entries(r)[0].msgid == m.msgid;
    } else {
      EntryOf(r[1..], m);
      var rest := Entries(r[1..]);
      var j :| 0 <= j < |rest| && rest[j].msgid == m.msgid;
      assert Entries(r)[if r[0].qos == 2 then j + 1 else j].msgid == m.msgid;
    }
  }

  /** The exchanges of all messages in flight can be finished; that of the message with id `but` may be just about to
      be. */
  ghost predicate Finishable(s: System, but: int) {
    && Restorable(s.out) && OneInFlight.Regular(s)
    && (forall m | m in s.out :: m.publication < s.issued) && (forall p | p in s.handed1 :: p < s.issued)
    && forall m | m in s.out && m.qos == 2 && m.msgid != but :: IdIn(s.inb, m.msgid)
  }

  /** All can be finished, and nothing is on its way. */
  ghost predicate Quiet(s: System) {
    Finishable(s, 0) && s.fwd == [] && s.back == []
  }

  lemma LastAck(s: System, i: nat)
    requires i < |s.out| && Finishable(s, s.out[i].msgid) && s.fwd == []
    requires var m := s.out[i];
             if m.qos == 1 then s.back == [Puback(m.msgid)] else s.back == [Pubcomp(m.msgid)] && m.next == NextPubcomp
    ensures var t := After(s, DeliverBack(false)); Quiet(t) && t.out == Without(s.out, i)
  {
    var t, m := After(s, DeliverBack(false)), s.out[i];
    assert m in s.out;
    GetIs(s.out, i);
    WithoutIds(s.out, i);
    assert m.qos == 1 ==> OnPuback(s.out, m.msgid) == Without(s.out, i);
    assert m.qos == 2 ==> OnPubcomp(s.out, m.msgid) == Without(s.out, i);
    assert t.out == Without(s.out, i) && t.inb == s.inb && t.fwd == [] && t.back == [] && t.handed1 == s.handed1;
  }

  /** The receiver hands over what it has stored. */
  lemma HandRel(s: System, id: int)
    requires Finishable(s, 0) && IdIn(s.inb, id) && s.back == [] && s.fwd == [Pubrel(id, false)]
    ensures var t := After(s, DeliverForward(false));
            Finishable(t, id) && t.out == s.out && t.fwd == [] && t.back == [Pubcomp(id)]
  {
    var t := After(s, DeliverForward(false));
    OneInFlight.RelDelivered(s, false);
    OneInFlight.RegularReceive(s, false);
    PubrelEffect(s.inb, id);
    assert t.inb == OnPubrel(s.inb, id);
  }

  /** The receiver stores a PUBLISH with QoS 2. */
  lemma StoreQos2(s: System, p: Packet<nat>)
    requires Finishable(s, 0) && s.back == [] && s.fwd == [p] && p.Publish? && p.qos == 2
    ensures var t := After(s, DeliverForward(false));
            Finishable(t, 0) && t.out == s.out && t.fwd == [] && t.back == [Pubrec(p.msgid)] && IdIn(t.inb, p.msgid)
  {
    var t := After(s, DeliverForward(false));
    OneInFlight.RegularReceive(s, false);
    PublishEffect(s.inb, p);
    assert Stored(p) in t.inb;
  }

  lemma AnswerRec(s: System, i: nat)
    requires Finishable(s, 0) && i < |s.out| && s.fwd == []
    requires s.out[i].qos == 2 && s.out[i].next == NextPubrec && s.back == [Pubrec(s.out[i].msgid)]
    ensures var t, m := After(s, DeliverBack(false)), s.out[i];
            && Finishable(t, 0) && t.inb == s.inb && t.back == [] && t.fwd == [Pubrel(m.msgid, false)]
            && t.out == s.out[i := m.(next := NextPubcomp, lastTouch := 0)]
  {
    var m := s.out[i];
    assert m in s.out;
    GetIs(s.out, i);
    PubrecEffect(s.out, m.msgid, 0);
  }

  // ---------- Runs that do this ----------

  /** No id has been assigned yet and no time has passed. */
  ghost predicate Draining(c: Config) {
    Quiet(c.sys) && c.last == 0 && c.now == 0
  }

  lemma FinishRel(st: Setting, s: System, events: seq<Event>, c: Config, i: nat)
    returns (events': seq<Event>, c': Config)
    requires Leads(st, s, events, c) && Finishable(c.sys, 0) && c.last == 0 && c.now == 0 && c.sys.back == []
    requires i < |c.sys.out| && c.sys.out[i].qos == 2 && c.sys.out[i].next == NextPubcomp
             && c.sys.fwd == [Pubrel(c.sys.out[i].msgid, false)]
    ensures Leads(st, s, events', c') && Draining(c') && c'.sys.out == Without(c.sys.out, i)
  {
    var id := c.sys.out[i].msgid;
    assert c.sys.out[i] in c.sys.out;
    HandRel(c.sys, id);
    events', c' := Then(st, s, events, c, Step(DeliverForward(false), 0));
    LastAck(c'.sys, i);
    events', c' := Then(st, s, events', c', Step(DeliverBack(false), 0));
  }

  /** After a reconnect the pass sends the message at i again. */
  lemma SendRestored(st: Setting, s: System, events: seq<Event>, c: Config, i: nat)
    returns (events': seq<Event>, c': Config)
    requires Leads(st, s, events, c) && Draining(c) && i < |c.sys.out|
    ensures Leads(st, s, events', c') && Finishable(c'.sys, 0) && c'.last == 0 && c'.now == 0
    ensures Resend(c.sys.out[i]).Some? && c'.sys.out == c.sys.out && c'.sys.inb == c.sys.inb
    ensures c'.sys.back == [] && c'.sys.fwd == [Resend(c.sys.out[i]).value]
  {
    assert c.sys.out[i] in c.sys.out;
    events', c' := Then(st, s, events, c, Step(Reconnect, 0));
    events', c' := Then(st, s, events', c', Step(SendAgain(i, false), 0));
  }

  lemma FinishQos1(st: Setting, s: System, events: seq<Event>, c: Config, i: nat)
    returns (events': seq<Event>, c': Config)
    requires Leads(st, s, events, c) && Draining(c) && i < |c.sys.out| && c.sys.out[i].qos == 1
    ensures Leads(st, s, events', c') && Draining(c') && c'.sys.out == Without(c.sys.out, i)
  {
    events', c' := SendRestored(st, s, events, c, i);
    events', c' := Then(st, s, events', c', Step(DeliverForward(false), 0));
    LastAck(c'.sys, i);
    events', c' := Then(st, s, events', c', Step(DeliverBack(false), 0));
  }

  lemma FinishQos2(st: Setting, s: System, events: seq<Event>, c: Config, i: nat)
    returns (events': seq<Event>, c': Config)
    requires Leads(st, s, events, c) && Draining(c) && i < |c.sys.out| && c.sys.out[i].qos == 2
    ensures Leads(st, s, events', c') && Draining(c') && c'.sys.out == Without(c.sys.out, i)
  {
    var m := c.sys.out[i];
    assert m in c.sys.out;
    events', c' := SendRestored(st, s, events, c, i);
    if m.next == NextPubrec {
      StoreQos2(c'.sys, c'.sys.fwd[0]);
      events', c' := Then(st, s, events', c', Step(DeliverForward(false), 0));
      AnswerRec(c'.sys, i);
      events', c' := Then(st, s, events', c', Step(DeliverBack(false), 0));
    }
    events', c' := FinishRel(st, s, events', c', i);
  }

  /** All restored exchanges are finished, but for that of a QoS 1 message with id 1 if `keep` says so. */
  lemma {:induction false} Drain(st: Setting, s: System, events: seq<Event>, c: Config, keep: Option<Message<nat>>)
    returns (events': seq<Event>, c': Config)
    requires Leads(st, s, events, c) && Draining(c) && (keep.Some? ==> keep.value in c.sys.out)
    ensures Leads(st, s, events', c') && Draining(c') && c'.sys.out == if keep.Some? then [keep.value] else []
    decreases |c.sys.out|
  {
    events', c' := events, c;
    if |c.sys.out| > (if keep.Some? then 1 else 0) {
      var i := if keep.Some? && c.sys.out[0] == keep.value then 1 else 0;
      WithoutIds(c.sys.out, i);
      if c.sys.out[i].qos == 1 {
        events', c' := FinishQos1(st, s, events, c, i);
      } else {
        assert c.sys.out[i] in c.sys.out;
        events', c' := FinishQos2(st, s, events, c, i);
      }
      if keep.Some? {
        var k :| 0 <= k < |c.sys.out| && c.sys.out[k] == keep.value;
        assert c'.sys.out[if k < i then k else k - 1] == keep.value;
      }
      events', c' := Drain(st, s, events', c', keep);
    }
  }

  /** The receiver's session fits the restored messages. */
  lemma Draining0(r: seq<Message<nat>>, issued: nat)
    requires Restorable(r) && forall m | m in r :: m.publication < issued
    ensures var s := START.(out := r, inb := Entries(r), issued := issued); Restored(r, s) && Draining(Begin(s))
  {
    EntriesOf(r);
  }

  // ---------- A message sent twice ----------

  /** Only this QoS 1 message is in flight, nothing is on its way, and its id is the next that would be free without
      it. */
  ghost predicate Alone(c: Config, m: Message<nat>) {
    && c.sys.out == [m] && c.sys.fwd == [] && c.sys.back == [] && m.qos == 1 && 1 <= m.msgid <= MAX_MSG_ID
    && m.publication < c.sys.issued && (forall p | p in c.sys.handed1 :: p < c.sys.issued)
       && FirstFree({}, c.last, m.msgid)
  }

  /** Something can send a message again in mid-connection. */
  ghost predicate Repeats(st: Setting) {
    st.interval > 0 || !st.alone
  }

  /** The message is sent, by the timer or the pass for another client. */
  lemma SendAlone(st: Setting, s: System, events: seq<Event>, c: Config, m: Message<nat>)
    returns (events': seq<Event>, c': Config)
    requires Repeats(st) && Leads(st, s, events, c) && c.sys.out == [m] && m.qos == 1
    ensures Leads(st, s, events', c') && c'.last == c.last
    ensures c'.sys == c.sys.(fwd := c.sys.fwd + [Publish(m.msgid, 1, true, m.retain, m.publication)],
              sentNow := c.sys.sentNow + {m.msgid})
  {
    events', c' := events, c;
    var at := c.now;
    if st.alone {
      var due := LastTouch(c, m.msgid) + (if st.interval > 10 then st.interval else 10) + 1;
      at := if due > c.now then due else c.now;
    } else {
      events', c' := Then(st, s, events', c', OtherConnects);
    }
    events', c' := Then(st, s, events', c', Step(SendAgain(0, false), at));
  }

  lemma HandTwice(st: Setting, s: System, events: seq<Event>, c: Config, p: Packet<nat>)
    returns (events': seq<Event>, c': Config)
    requires Leads(st, s, events, c) && c.sys.fwd == [p, p] && c.sys.back == [] && p.Publish? && p.qos == 1
    ensures Leads(st, s, events', c') && c'.last == c.last
    ensures c'.sys == c.sys.(fwd := [], back := [Puback(p.msgid), Puback(p.msgid)],
                             handed1 := c.sys.handed1 + [p.publication, p.publication])
  {
    events', c' := Then(st, s, events, c, Step(DeliverForward(false), c.now));
    events', c' := Then(st, s, events', c', Step(DeliverForward(false), c'.now));
  }

  /** It is sent and handed over twice, and the first of the two PUBACKs is taken. */
  lemma TakeFirst(st: Setting, s: System, events: seq<Event>, c: Config, m: Message<nat>)
    returns (events': seq<Event>, c': Config)
    requires Repeats(st) && Leads(st, s, events, c) && Alone(c, m)
    ensures Leads(st, s, events', c') && c'.last == c.last && c'.sys.out == [] && c'.sys.fwd == []
            && c'.sys.back == [Puback(m.msgid)]
    ensures c'.sys.issued == c.sys.issued && forall p | p in c'.sys.handed1 :: p < c.sys.issued
  {
    events', c' := SendAlone(st, s, events, c, m);
    events', c' := SendAlone(st, s, events', c', m);
    events', c' := HandTwice(st, s, events', c', Publish(m.msgid, 1, true, m.retain, m.publication));
    events', c' := Then(st, s, events', c', Step(DeliverBack(false), c'.now));
  }

  /** The next publication gets the same id, is forgotten on the second PUBACK, and is lost with the connection. */
  lemma LoseNext(st: Setting, s: System, events: seq<Event>, c: Config, m: Message<nat>)
    returns (events': seq<Event>, c': Config)
    requires st.limit > 0 && Repeats(st) && Leads(st, s, events, c) && Alone(c, m)
    ensures Leads(st, s, events', c') && LostForever(c'.sys, c.sys.issued)
  {
    events', c' := TakeFirst(st, s, events, c, m);
    assert Ids(c'.sys.out) == {};
    events', c' := Then(st, s, events', c', Step(NewPublication(m.msgid, 1, false), c'.now));
    events', c' := Then(st, s, events', c', Step(DeliverBack(false), c'.now));
    events', c' := Then(st, s, events', c', Step(Reconnect, c'.now));
  }

  /** A publication that is acknowledged and forgotten, and neither handed over nor on its way nor in flight. */
  ghost predicate LostForever(s: System, p: nat) {
    p in s.acked && p !in s.handed1 && s.fwd == [] && s.out == []
  }

  // ---------- With more than one message in flight ----------

  /** A message with id 2 has been left unsent since the reconnect, and n later ones have been exchanged meanwhile. */
  ghost predicate Waiting(c: Config, left: Message<nat>, n: nat) {
    && c.sys.out == [left] && left.qos == 1 && left.msgid == 2 && c.sys.fwd == [] && c.sys.back == []
    && left.publication < c.sys.issued && (forall p | p in c.sys.handed1 :: p < c.sys.issued)
    && c.last == if n < MAX_MSG_ID - 1 then n + 2 else 1
  }

  /** Two publications are started, with ids 1 and 2, and their packets are lost with the connection. */
  lemma StartBoth(st: Setting, s: System, events: seq<Event>, c: Config)
    returns (events': seq<Event>, c': Config, left: Message<nat>)
    requires st.limit > 1 && Leads(st, s, events, c) && Draining(c) && c.sys.out == []
    ensures Leads(st, s, events', c') && c'.last == 2 && c'.pass == 0 && c'.sys.fwd == [] && c'.sys.back == []
    ensures left.qos == 1 && left.msgid == 2 && left.publication < c'.sys.issued
    ensures c'.sys.out == [Created(1, 1, false, c.sys.issued, 0), left] && c.sys.issued < c'.sys.issued
    ensures forall p | p in c'.sys.handed1 :: p < c'.sys.issued
  {
    assert Tried(0, 1) == 1 && Tried(1, 1) == 2;
    left := Created(2, 1, false, c.sys.issued + 1, 0);
    events', c' := Then(st, s, events, c, Step(NewPublication(1, 1, false), 0));
    assert c'.sys.out == [Created(1, 1, false, c.sys.issued, 0)];
    events', c' := Then(st, s, events', c', Step(NewPublication(2, 1, false), 0));
    events', c' := Then(st, s, events', c', Step(Reconnect, 0));
  }

  /** The pass stops after the first, and that is exchanged. */
  lemma LeaveOld(st: Setting, s: System, events: seq<Event>, c: Config)
    returns (events': seq<Event>, c': Config, left: Message<nat>)
    requires st.limit > 1 && Leads(st, s, events, c) && Draining(c) && c.sys.out == []
    ensures Leads(st, s, events', c') && Waiting(c', left, 0)
  {
    events', c', left := StartBoth(st, s, events, c);
    events', c' := Then(st, s, events', c', Step(SendAgain(0, false), c'.now));
    events', c' := Then(st, s, events', c', Step(DeliverForward(false), c'.now));
    events', c' := Then(st, s, events', c', Step(DeliverBack(false), c'.now));
  }

  lemma NextFree(c: Config, left: Message<nat>, n: nat)
    requires Waiting(c, left, n) && n < MAX_MSG_ID - 1
    ensures FirstFree(Ids(c.sys.out), c.last, NextId(c.last))
            && NextId(c.last) == if n < MAX_MSG_ID - 2 then n + 3 else 1
  {
    assert Tried(c.last, 1) == NextId(c.last);
  }

  lemma AckOfNew(out: seq<Message<nat>>, left: Message<nat>, m: Message<nat>)
    requires out == [left, m] && m.qos == 1 && m.msgid != left.msgid
    ensures Find(out, m.msgid) == 1 && OnPuback(out, m.msgid) == [left]
  {
    assert Find(out, m.msgid) == 1;
  }

  /** One more publication is started, handed over and acknowledged. */
  lemma Exchange(st: Setting, s: System, events: seq<Event>, c: Config, left: Message<nat>, n: nat)
    returns (events': seq<Event>, c': Config)
    requires st.limit > 1 && Leads(st, s, events, c) && Waiting(c, left, n) && n < MAX_MSG_ID - 1
    ensures Leads(st, s, events', c') && Waiting(c', left, n + 1)
  {
    NextFree(c, left, n);
    var id := NextId(c.last);
    events', c' := Then(st, s, events, c, Step(NewPublication(id, 1, false), c.now));
    events', c' := Then(st, s, events', c', Step(DeliverForward(false), c'.now));
    AckOfNew(c'.sys.out, left, Created(id, 1, false, c.sys.issued, 0));
    events', c' := Then(st, s, events', c', Step(DeliverBack(false), c'.now));
  }

  lemma {:induction false} ExchangeAll(st: Setting, s: System, events: seq<Event>, c: Config, left: Message<nat>,
                                       n: nat)
    returns (events': seq<Event>, c': Config)
    requires st.limit > 1 && Leads(st, s, events, c) && Waiting(c, left, 0) && n <= MAX_MSG_ID - 1
    ensures Leads(st, s, events', c') && Waiting(c', left, n)
  {
    if n == 0 {
      events', c' := events, c;
    } else {
      events', c' := ExchangeAll(st, s, events, c, left, n - 1);
      events', c' := Exchange(st, s, events', c', left, n - 1);
    }
  }

  // ---------- At least once ----------

  /** A restored QoS 1 message has the first id that the client hands out. */
  ghost predicate HasFirstId(r: seq<Message<nat>>) {
    exists m :: m in r && m.qos == 1 && m.msgid == 1
  }

  /** From any restored messages a run leads to a lost publication. */
  lemma ResendBreaks(st: Setting, r: seq<Message<nat>>) returns (s: System, events: seq<Event>, c: Config, p: nat)
    requires Restorable(r) && Repeats(st) && (st.limit > 1 || (st.limit == 1 && HasFirstId(r)))
    ensures Restored(r, s) && Leads(st, s, events, c) && LostForever(c.sys, p) && !HandedOver(c.sys)
  {
    var issued := Above(r);
    Draining0(r, issued);
    s := START.(out := r, inb := Entries(r), issued := issued);
    assert Leads(st, s, [], Begin(s));
    var m;
    if st.limit > 1 {
      events, c := Drain(st, s, [], Begin(s), None);
      events, c, m := LeaveOld(st, s, events, c);
      events, c := ExchangeAll(st, s, events, c, m, MAX_MSG_ID - 1);
      assert Tried(1, 1) == 2;
    } else {
      m :| m in r && m.qos == 1 && m.msgid == 1;
      events, c := Drain(st, s, [], Begin(s), Some(m));
      assert m in c.sys.out && Tried(0, 1) == 1;
    }
    p := c.sys.issued;
    events, c := LoseNext(st, s, events, c, m);
  }

  lemma {:induction false} Above(r: seq<Message<nat>>) returns (n: nat)
    ensures forall m | m in r :: m.publication < n
  {
    if r == [] {
      n := 0;
    } else {
      n := Above(r[1..]);
      n := if r[0].publication < n then n else r[0].publication + 1;
    }
  }

  /** Whatever the receiver's session holds. */
  ghost predicate DeliversAtLeastOnce(st: Setting, r: seq<Message<nat>>) {
    forall s, events, c :: Restored(r, s) && Runs(st, Begin(s), events, c) ==> HandedOver(c.sys)
  }

  /** Over all runs of the client after a restore of these messages, with ids from MQTTProtocol_assignMsgId, what the
      sender has forgotten on PUBACK has been handed over, exactly if the timer is off and no other client of the
      process can start a pass, or at most one message is in flight at a time and none restored with QoS 1 has id 1. */
  lemma AtLeastOnceExactly(st: Setting, r: seq<Message<nat>>)
    requires Restorable(r)
    ensures DeliversAtLeastOnce(st, r)
            <==> (st.interval <= 0 && st.alone) || st.limit <= 0 || (st.limit == 1 && !HasFirstId(r))
  {
    if Repeats(st) && (st.limit > 1 || (st.limit == 1 && HasFirstId(r))) {
      var s, events, c, p := ResendBreaks(st, r);
      assert !(Restored(r, s) && Runs(st, Begin(s), events, c) ==> HandedOver(c.sys));
    } else {
      forall s, events, c | Restored(r, s) && Runs(st, Begin(s), events, c)
        ensures HandedOver(c.sys)
      {
        if !Repeats(st) {
          RestoredQuiet(r, s);
          QuietRuns(st, Begin(s), events, c);
        } else if st.limit <= 0 {
          OneInFlight.NoneRuns(st, Begin(s), events, c);
        } else {
          OneInFlight.SingleRuns(st, Begin(s), events, c);
        }
      }
    }
  }
}
