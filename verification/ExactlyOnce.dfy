/**
 QoS 2 delivery (MQTT 3.1.1, section 4.3.3): over every run each publication is handed over at most once, and once the
 sender has forgotten it on PUBCOMP, it has been handed over.

 The proof looks at one message id at a time: the message with that id at the sender, the entry at the receiver, and
 what the two channels hold for that id.
 */
module ExactlyOnce {
  import opened Delivery
  import opened Handshake
  import opened Options
  import opened Seqs

  datatype Tag = Pub(publication: nat) | Rel

  datatype BackTag = Rec | Comp

  ghost function TagOf(p: Packet<nat>, id: int): seq<Tag> {
    match p
    case Publish(i, qos, _, _, publication) => if i == id && qos == 2 then [Pub(publication)] else []
    case Pubrel(i, _) => if i == id then [Rel] else []
    case _ => []
  }

  ghost function BackTagOf(p: Packet<nat>, id: int): seq<BackTag> {
    match p
    case Pubrec(i) => if i == id then [Rec] else []
    case Pubcomp(i) => if i == id then [Comp] else []
    case _ => []
  }

  /** What a channel holds for one id. */
  ghost function Forward(channel: seq<Packet<nat>>, id: int): seq<Tag> {
    if channel == [] then [] else TagOf(channel[0], id) + Forward(channel[1..], id)
  }

  ghost function Backward(channel: seq<Packet<nat>>, id: int): seq<BackTag> {
    if channel == [] then [] else BackTagOf(channel[0], id) + Backward(channel[1..], id)
  }

  lemma {:induction false} ForwardAppend(channel: seq<Packet<nat>>, p: Packet<nat>, id: int)
    ensures Forward(channel + [p], id) == Forward(channel, id) + TagOf(p, id)
  {
    if channel == [] {
      assert (channel + [p])[1..] == [];
    } else {
      assert (channel + [p])[1..] == channel[1..] + [p];
      ForwardAppend(channel[1..], p, id);
    }
  }

  lemma {:induction false} BackwardAppend(channel: seq<Packet<nat>>, p: Packet<nat>, id: int)
    ensures Backward(channel + [p], id) == Backward(channel, id) + BackTagOf(p, id)
  {
    if channel == [] {
      assert (channel + [p])[1..] == [];
    } else {
      assert (channel + [p])[1..] == channel[1..] + [p];
      BackwardAppend(channel[1..], p, id);
    }
  }

  // ---------- The state of one id ----------

  datatype Local = Local(
    msg: Option<Message<nat>>,    // the QoS 2 message with this id at the sender
    entry: Option<Message<nat>>,  // the message with this id at the receiver
    f: seq<Tag>,
    b: seq<BackTag>)

  ghost function Sending(ms: seq<Message<nat>>, id: int): Option<Message<nat>> {
    var m := Get(ms, id);
    if m.Some? && m.value.qos == 2 then m else None
  }

  ghost function View(s: System, id: int): Local {
    Local(Sending(s.out, id), Get(s.inb, id), Forward(s.fwd, id), Backward(s.back, id))
  }

  ghost predicate AllRel(f: seq<Tag>) {
    forall i | 0 <= i < |f| :: f[i] == Rel
  }

  ghost predicate AllPub(f: seq<Tag>, p: nat) {
    forall i | 0 <= i < |f| :: f[i] == Pub(p)
  }

  ghost predicate RelsPubs(f: seq<Tag>, p: nat, k: int) {
    0 <= k <= |f| && (forall i | 0 <= i < k :: f[i] == Rel) && forall i | k <= i < |f| :: f[i] == Pub(p)
  }

  ghost predicate RelsThenPubs(f: seq<Tag>, p: nat) {
    exists k :: RelsPubs(f, p, k)
  }

  ghost predicate PubsRels(f: seq<Tag>, p: nat, k: int) {
    0 <= k <= |f| && (forall i | 0 <= i < k :: f[i] == Pub(p)) && forall i | k <= i < |f| :: f[i] == Rel
  }

  ghost predicate PubsThenRels(f: seq<Tag>, p: nat) {
    exists k :: PubsRels(f, p, k)
  }

  ghost predicate AllRec(b: seq<BackTag>) {
    forall i | 0 <= i < |b| :: b[i] == Rec
  }

  /** PUBRECs, and perhaps a PUBCOMP behind them. */
  ghost predicate RecsThenComp(b: seq<BackTag>) {
    forall i | 0 <= i < |b| - 1 :: b[i] == Rec
  }

  ghost predicate EntryOf(entry: Option<Message<nat>>, p: nat) {
    entry.Some? && entry.value.publication == p
  }

  /** No message in flight: only PUBRELs of earlier ones can still be on their way. */
  ghost predicate PhaseNone(l: Local) {
    l.msg == None && l.entry == None && AllRel(l.f) && l.b == []
  }

  /** Waiting for a PUBREC: once the receiver has the message, no PUBREL is on its way. */
  ghost predicate PhaseA(l: Local, handed: seq<nat>) {
    && l.msg.Some? && l.msg.value.next == NextPubrec && l.msg.value.publication !in handed
    && AllRec(l.b)
    && var p := l.msg.value.publication;
    && if l.entry == None then RelsThenPubs(l.f, p) && l.b == [] else EntryOf(l.entry, p) && AllPub(l.f, p)
  }

  /** Waiting for a PUBCOMP: the receiver still has the message, or it has handed it over and will not get it again. */
  ghost predicate PhaseB(l: Local, handed: seq<nat>) {
    && l.msg.Some? && l.msg.value.next == NextPubcomp
    && var p := l.msg.value.publication;
    && if l.entry == None then p in handed && AllRel(l.f) && RecsThenComp(l.b)
       else EntryOf(l.entry, p) && p !in handed && PubsThenRels(l.f, p) && AllRec(l.b)
  }

  ghost predicate PhaseOk(l: Local, handed: seq<nat>) {
    PhaseNone(l) || PhaseA(l, handed) || PhaseB(l, handed)
  }

  ghost predicate NoRepeats(s: seq<nat>) {
    forall i, j | 0 <= i < j < |s| :: s[i] != s[j]
  }

  /** Publications of different messages differ, and none is from the future. */
  ghost predicate Numbered(s: System) {
    && DistinctIds(s.out) && DistinctIds(s.inb)
    && (forall i | 0 <= i < |s.out| :: s.out[i].publication < s.issued && (s.out[i].qos == 1 || s.out[i].qos == 2))
    && (forall i, j | 0 <= i < j < |s.out| :: s.out[i].publication != s.out[j].publication)
    && (forall i | 0 <= i < |s.inb| :: s.inb[i].qos == 2 && s.inb[i].next == NextPubrel)
    && (forall p | p in s.handed2 :: p < s.issued)
    && forall i | 0 <= i < |s.fwd| :: s.fwd[i].Pubrel? ==> !s.fwd[i].dup
  }

  ghost predicate Inv(s: System) {
    && Numbered(s) && NoRepeats(s.handed2)
    && (forall id :: PhaseOk(View(s, id), s.handed2))
    && forall p | p in s.completed :: p in s.handed2
  }

  // ---------- One id: what each event does ----------

  lemma Started(l: Local, m: Message<nat>, f': seq<Tag>, handed: seq<nat>)
    requires PhaseNone(l) && m.next == NextPubrec && m.publication !in handed
    requires f' == l.f || f' == l.f + [Pub(m.publication)]
    ensures PhaseA(Local(Some(m), None, f', l.b), handed)
  {
    assert RelsPubs(f', m.publication, |l.f|);
  }

  lemma PubSentAgain(l: Local, handed: seq<nat>)
    requires PhaseA(l, handed)
    ensures PhaseA(l.(f := l.f + [Pub(l.msg.value.publication)]), handed)
  {
    var p := l.msg.value.publication;
    if l.entry == None {
      var k :| RelsPubs(l.f, p, k);
      assert RelsPubs(l.f + [Pub(p)], p, k);
    }
  }

  lemma RelSentAgain(l: Local, handed: seq<nat>)
    requires PhaseB(l, handed)
    ensures PhaseB(l.(f := l.f + [Rel]), handed)
  {
    var p := l.msg.value.publication;
    if l.entry.Some? {
      var k :| PubsRels(l.f, p, k);
      assert PubsRels(l.f + [Rel], p, k);
    }
  }

  /** A PUBLISH arrives: it is that of the message in flight, which is not yet handed over. */
  lemma PubArrives(l: Local, q: nat, rest: seq<Tag>, e: Message<nat>, b': seq<BackTag>, handed: seq<nat>)
    requires PhaseOk(l, handed) && l.f == [Pub(q)] + rest && e.publication == q && (b' == l.b || b' == l.b + [Rec])
    ensures PhaseOk(Local(l.msg, Some(e), rest, b'), handed)
  {
    assert l.f[0] == Pub(q) && l.f[1..] == rest;
    assert !AllRel(l.f);
    var p := l.msg.value.publication;
    if PhaseA(l, handed) {
      if l.entry == None {
        var k :| RelsPubs(l.f, p, k);
        assert k == 0;
      }
      assert AllPub(l.f, p) && AllPub(rest, p);
      assert PhaseA(Local(l.msg, Some(e), rest, b'), handed);
    } else {
      var k :| PubsRels(l.f, p, k);
      assert PubsRels(rest, p, k - 1);
      assert PhaseB(Local(l.msg, Some(e), rest, b'), handed);
    }
  }

  /** A PUBREL arrives and finds no entry: nothing happens. */
  lemma RelIgnored(l: Local, rest: seq<Tag>, handed: seq<nat>)
    requires PhaseOk(l, handed) && l.f == [Rel] + rest && l.entry == None
    ensures PhaseOk(l.(f := rest), handed)
  {
    assert l.f[0] == Rel && l.f[1..] == rest;
    if PhaseNone(l) {
      assert PhaseNone(l.(f := rest));
    } else if PhaseA(l, handed) {
      var p := l.msg.value.publication;
      var k :| RelsPubs(l.f, p, k);
      assert RelsPubs(rest, p, k - 1);
      assert PhaseA(l.(f := rest), handed);
    } else {
      assert PhaseB(l.(f := rest), handed);
    }
  }

  /** A PUBREL arrives and finds the entry: its publication is handed over for the first time. */
  lemma RelArrives(l: Local, rest: seq<Tag>, b': seq<BackTag>, handed: seq<nat>)
    requires PhaseOk(l, handed) && l.f == [Rel] + rest && l.entry.Some? && (b' == l.b || b' == l.b + [Comp])
    ensures l.msg.Some? && l.entry.value.publication == l.msg.value.publication && l.msg.value.publication !in handed
    ensures PhaseOk(Local(l.msg, None, rest, b'), handed + [l.entry.value.publication])
  {
    assert l.f[0] == Rel && l.f[1..] == rest;
    var p := l.msg.value.publication;
    assert PhaseB(l, handed);
    var k :| PubsRels(l.f, p, k);
    assert AllRel(rest) && p in handed + [p];
    assert PhaseB(Local(l.msg, None, rest, b'), handed + [p]);
  }

  /** A PUBREC arrives: the exchange goes on, or has gone on already. */
  lemma RecArrives(l: Local, rest: seq<BackTag>, f': seq<Tag>, handed: seq<nat>)
    requires PhaseOk(l, handed) && l.b == [Rec] + rest
    requires l.msg.Some? && l.msg.value.next == NextPubrec ==> f' == l.f || f' == l.f + [Rel]
    ensures l.msg.Some? && l.msg.value.next == NextPubrec ==>
              PhaseOk(Local(Some(l.msg.value.(next := NextPubcomp, lastTouch := 0)), l.entry, f', rest), handed)
    ensures !(l.msg.Some? && l.msg.value.next == NextPubrec) ==> PhaseOk(l.(b := rest), handed)
  {
    assert l.b[0] == Rec && l.b[1..] == rest;
    if l.msg.Some? && l.msg.value.next == NextPubrec {
      assert PubsRels(f', l.msg.value.publication, |l.f|);
      assert PhaseB(Local(Some(l.msg.value.(next := NextPubcomp, lastTouch := 0)), l.entry, f', rest), handed);
    } else {
      assert PhaseB(l.(b := rest), handed);
    }
  }

  /** A PUBCOMP arrives: the publication has been handed over, and nothing of the exchange is left. */
  lemma CompArrives(l: Local, rest: seq<BackTag>, handed: seq<nat>)
    requires PhaseOk(l, handed) && l.b == [Comp] + rest
    ensures l.msg.Some? && l.msg.value.next == NextPubcomp && l.msg.value.publication in handed
    ensures PhaseNone(Local(None, l.entry, l.f, rest))
  {
    assert l.b[0] == Comp && l.b[1..] == rest;
    assert !AllRec(l.b);
  }

  lemma Reconnected(l: Local, handed: seq<nat>)
    requires PhaseOk(l, handed)
    ensures PhaseOk(l.(f := [], b := []), handed)
  {
    var l' := l.(f := [], b := []);
    forall p: nat
      ensures RelsThenPubs([], p) && PubsThenRels([], p)
    {
      assert RelsPubs([], p, 0) && PubsRels([], p, 0);
    }
    assert PhaseNone(l) ==> PhaseNone(l');
    assert PhaseA(l, handed) ==> PhaseA(l', handed);
    assert PhaseB(l, handed) ==> PhaseB(l', handed);
  }

  /** Handing over another publication makes no difference. */
  lemma OtherHanded(l: Local, q: nat, handed: seq<nat>)
    requires PhaseOk(l, handed) && (l.msg.Some? ==> l.msg.value.publication != q)
    ensures PhaseOk(l, handed + [q])
  {
  }

  // ---------- The whole system ----------

  /** The views of all ids but one are the same. */
  ghost predicate OthersSame(s: System, t: System, id: int) {
    forall j | j != id :: View(t, j) == View(s, j)
  }

  /** A move that concerns one id, and hands over nothing. */
  lemma Concerns(s: System, t: System, id: int)
    requires Inv(s) && Numbered(t) && OthersSame(s, t, id) && PhaseOk(View(t, id), t.handed2)
    requires t.handed2 == s.handed2 && forall p | p in t.completed :: p in s.completed || p in s.handed2
    ensures Inv(t)
  {
  }

  lemma PutForward(channel: seq<Packet<nat>>, p: Packet<nat>, lost: bool, id: int)
    ensures Forward(Put(channel, p, lost), id) == Forward(channel, id) + if lost then [] else TagOf(p, id)
  {
    ForwardAppend(channel, p, id);
  }

  lemma PutBackward(channel: seq<Packet<nat>>, p: Packet<nat>, lost: bool, id: int)
    ensures Backward(Put(channel, p, lost), id) == Backward(channel, id) + if lost then [] else BackTagOf(p, id)
  {
    BackwardAppend(channel, p, id);
  }

  lemma StartKeeps(s: System, msgid: int, qos: int, lost: bool)
    requires Inv(s) && CanMove(s, NewPublication(msgid, qos, lost))
    ensures Inv(StartPublication(s, msgid, qos, lost))
  {
    var t := StartPublication(s, msgid, qos, lost);
    forall j
      ensures j != msgid || qos == 1 ==> View(t, j) == View(s, j)
    {
      StartView(s, msgid, qos, lost, j);
    }
    assert PhaseOk(View(s, msgid), s.handed2);
    if qos == 2 {
      StartView(s, msgid, qos, lost, msgid);
      Started(View(s, msgid), Created(msgid, qos, false, s.issued, 0), View(t, msgid).f, s.handed2);
    }
    StartNumbered(s, msgid, qos, lost);
    Concerns(s, t, msgid);
  }

  lemma StartView(s: System, msgid: int, qos: int, lost: bool, j: int)
    requires Numbered(s) && CanMove(s, NewPublication(msgid, qos, lost))
    ensures var t, m, l := StartPublication(s, msgid, qos, lost), Created(msgid, qos, false, s.issued, 0), View(s, j);
            && (j == msgid ==> l.msg == None)
            && if j == msgid && qos == 2 then View(t, j)
               == Local(Some(m), l.entry, l.f + if lost then [] else [Pub(s.issued)], l.b)
               else View(t, j) == l
  {
    GetAppend(s.out, Created(msgid, qos, false, s.issued, 0), j);
    PutForward(s.fwd, Publish(msgid, qos, false, false, s.issued), lost, j);
  }

  lemma StartNumbered(s: System, msgid: int, qos: int, lost: bool)
    requires Numbered(s) && CanMove(s, NewPublication(msgid, qos, lost))
    ensures Numbered(StartPublication(s, msgid, qos, lost))
  {
  }

  lemma AgainKeeps(s: System, i: nat, lost: bool)
    requires Inv(s) && CanMove(s, SendAgain(i, lost))
    ensures Inv(After(s, SendAgain(i, lost)))
  {
    var t, id := After(s, SendAgain(i, lost)), s.out[i].msgid;
    forall j | j != id
      ensures View(t, j) == View(s, j)
    {
      AgainView(s, i, lost, j);
    }
    AgainView(s, i, lost, id);
    AgainPhase(s, i, lost);
    Concerns(s, t, id);
  }

  lemma AgainView(s: System, i: nat, lost: bool, j: int)
    requires Numbered(s) && CanMove(s, SendAgain(i, lost))
    ensures var t, l, p := After(s, SendAgain(i, lost)), View(s, j), Resend(s.out[i]).value;
            && Numbered(t) && View(t, j) == l.(f := l.f + if lost then [] else TagOf(p, j))
            && (j != s.out[i].msgid ==> TagOf(p, j) == [])
  {
    PutForward(s.fwd, Resend(s.out[i]).value, lost, j);
  }

  lemma AgainPhase(s: System, i: nat, lost: bool)
    requires Inv(s) && CanMove(s, SendAgain(i, lost))
    ensures var l, id := View(s, s.out[i].msgid), s.out[i].msgid;
            PhaseOk(l.(f := l.f + if lost then [] else TagOf(Resend(s.out[i]).value, id)), s.handed2)
  {
    var m := s.out[i];
    var l := View(s, m.msgid);
    GetIs(s.out, i);
    assert PhaseOk(l, s.handed2);
    assert l.(f := l.f + []) == l;
    if m.qos == 2 && !lost {
      if m.next == NextPubrec {
        PubSentAgain(l, s.handed2);
      } else {
        RelSentAgain(l, s.handed2);
      }
    }
  }

  lemma ReconnectKeeps(s: System)
    requires Inv(s)
    ensures Inv(After(s, Reconnect))
  {
    var t := After(s, Reconnect);
    forall id
      ensures PhaseOk(View(t, id), t.handed2)
    {
      assert PhaseOk(View(s, id), s.handed2);
      Reconnected(View(s, id), s.handed2);
    }
  }

  /** What the receiver's side of an id looks like when the first packet is off the forward channel. */
  lemma TakeForward(s: System, id: int)
    requires s.fwd != []
    ensures View(s, id).f == TagOf(s.fwd[0], id) + Forward(s.fwd[1..], id)
    ensures View(s.(fwd := s.fwd[1..]), id) == View(s, id).(f := Forward(s.fwd[1..], id))
  {
  }

  lemma PublishKeeps(s: System, p: Packet<nat>, lost: bool)
    requires Inv(s) && s.fwd != [] && s.fwd[0] == p && p.Publish? && p.qos == 2
    ensures Inv(Receive(s.(fwd := s.fwd[1..]), p, lost))
  {
    var t, id, i, e := Receive(s.(fwd := s.fwd[1..]), p, lost), p.msgid, Find(s.inb, p.msgid), Stored(p);
    forall j
      ensures View(t, j) == View(s, j).(entry := if j == id then Some(e) else View(s, j).entry,
                f := Forward(s.fwd[1..], j),
                                        b := View(s, j).b + if lost then [] else BackTagOf(Pubrec(id), j))
    {
      if i >= 0 { GetUpdate(s.inb, i, e, j); } else { GetAppend(s.inb, e, j); }
      PutBackward(s.back, Pubrec(id), lost, j);
    }
    forall j | j != id
      ensures View(t, j) == View(s, j)
    {
      TakeForward(s, j);
    }
    TakeForward(s, id);
    assert PhaseOk(View(s, id), s.handed2);
    PubArrives(View(s, id), p.publication, Forward(s.fwd[1..], id), e, View(t, id).b, s.handed2);
    ReceiveNumbered(s, p, lost);
    Concerns(s, t, id);
  }

  lemma ReceiveNumbered(s: System, p: Packet<nat>, lost: bool)
    requires Numbered(s) && s.fwd != [] && s.fwd[0] == p
    requires p.Pubrel? && Get(s.inb, p.msgid).Some? ==> Get(s.inb, p.msgid).value.publication < s.issued
    ensures Numbered(Receive(s.(fwd := s.fwd[1..]), p, lost))
  {
    var t := Receive(s.(fwd := s.fwd[1..]), p, lost);
    if p.Publish? && p.qos == 2 {
      var i := Find(s.inb, p.msgid);
      if i >= 0 { GetUpdate(s.inb, i, Stored(p), 0); } else { GetAppend(s.inb, Stored(p), 0); }
    } else if p.Pubrel? && Find(s.inb, p.msgid) >= 0 {
      WithoutEntries(s.inb, Find(s.inb, p.msgid));
    }
  }

  lemma WithoutEntries(ms: seq<Message<nat>>, i: int)
    requires DistinctIds(ms) && 0 <= i < |ms| && forall k | 0 <= k < |ms| :: ms[k].qos == 2 && ms[k].next == NextPubrel
    ensures DistinctIds(Without(ms, i)) && forall k | 0 <= k < |Without(ms, i)| ::
                Without(ms, i)[k].qos == 2
                && Without(ms, i)[k].next == NextPubrel
  {
  }

  lemma PubrelKeeps(s: System, p: Packet<nat>, lost: bool)
    requires Inv(s) && s.fwd != [] && s.fwd[0] == p && p.Pubrel?
    ensures Inv(Receive(s.(fwd := s.fwd[1..]), p, lost))
  {
    var t, id, i := Receive(s.(fwd := s.fwd[1..]), p, lost), p.msgid, Find(s.inb, p.msgid);
    TakeForward(s, id);
    assert PhaseOk(View(s, id), s.handed2);
    if i < 0 {
      forall j | j != id
        ensures View(t, j) == View(s, j)
      {
        TakeForward(s, j);
      }
      RelIgnored(View(s, id), Forward(s.fwd[1..], id), s.handed2);
      Concerns(s, t, id);
    } else {
      PubrelHands(s, p, lost);
    }
  }

  lemma PubrelHands(s: System, p: Packet<nat>, lost: bool)
    requires Inv(s) && s.fwd != [] && s.fwd[0] == p && p.Pubrel? && Find(s.inb, p.msgid) >= 0
    ensures Inv(Receive(s.(fwd := s.fwd[1..]), p, lost))
  {
    var q := s.inb[Find(s.inb, p.msgid)].publication;
    PubrelOthers(s, p, lost);
    PubrelNumbered(s, p, lost);
    PubrelPhase(s, p, lost);
    HandedConcerns(s, Receive(s.(fwd := s.fwd[1..]), p, lost), p.msgid, q);
  }

  lemma PubrelNumbered(s: System, p: Packet<nat>, lost: bool)
    requires Inv(s) && s.fwd != [] && s.fwd[0] == p && p.Pubrel? && Find(s.inb, p.msgid) >= 0
    ensures Numbered(Receive(s.(fwd := s.fwd[1..]), p, lost))
  {
    PubrelArrives(s, p, View(s, p.msgid).b);
    ReceiveNumbered(s, p, lost);
  }

  lemma PubrelOthers(s: System, p: Packet<nat>, lost: bool)
    requires Numbered(s) && s.fwd != [] && s.fwd[0] == p && p.Pubrel? && Find(s.inb, p.msgid) >= 0
    ensures OthersSame(s, Receive(s.(fwd := s.fwd[1..]), p, lost), p.msgid)
  {
    forall j | j != p.msgid
      ensures View(Receive(s.(fwd := s.fwd[1..]), p, lost), j) == View(s, j)
    {
      PubrelView(s, p, lost, j);
      TakeForward(s, j);
    }
  }

  lemma PubrelPhase(s: System, p: Packet<nat>, lost: bool)
    requires Inv(s) && s.fwd != [] && s.fwd[0] == p && p.Pubrel? && Find(s.inb, p.msgid) >= 0
    ensures var t, l, q := Receive(s.(fwd := s.fwd[1..]), p, lost), View(s, p.msgid),
              s.inb[Find(s.inb, p.msgid)].publication;
            && t.handed2 == s.handed2 + [q] && t.completed == s.completed && PhaseOk(View(t, p.msgid), t.handed2)
            && l.msg.Some? && l.msg.value.publication == q && q !in s.handed2
  {
    PubrelView(s, p, lost, p.msgid);
    PubrelArrives(s, p, View(Receive(s.(fwd := s.fwd[1..]), p, lost), p.msgid).b);
  }

  lemma PubrelArrives(s: System, p: Packet<nat>, b': seq<BackTag>)
    requires Inv(s) && s.fwd != [] && s.fwd[0] == p && p.Pubrel? && Find(s.inb, p.msgid) >= 0
    requires b' == View(s, p.msgid).b || b' == View(s, p.msgid).b + [Comp]
    ensures var l, q := View(s, p.msgid), s.inb[Find(s.inb, p.msgid)].publication;
            && l.msg.Some? && l.msg.value.publication == q && q !in s.handed2
            && PhaseOk(Local(l.msg, None, Forward(s.fwd[1..], p.msgid), b'), s.handed2 + [q])
  {
    TakeForward(s, p.msgid);
    assert PhaseOk(View(s, p.msgid), s.handed2);
    RelArrives(View(s, p.msgid), Forward(s.fwd[1..], p.msgid), b', s.handed2);
  }

  lemma PubrelView(s: System, p: Packet<nat>, lost: bool, j: int)
    requires Numbered(s) && s.fwd != [] && s.fwd[0] == p && p.Pubrel? && Find(s.inb, p.msgid) >= 0
    ensures var t, l := Receive(s.(fwd := s.fwd[1..]), p, lost), View(s, j);
            && t.handed2 == s.handed2 + [s.inb[Find(s.inb, p.msgid)].publication] && t.completed == s.completed
            && View(t, j) == Local(l.msg, if j == p.msgid then None else l.entry, Forward(s.fwd[1..], j),
                                   l.b + if lost then [] else BackTagOf(Pubcomp(p.msgid), j))
  {
    GetWithout(s.inb, Find(s.inb, p.msgid), j);
    PutBackward(s.back, Pubcomp(p.msgid), lost, j);
  }

  /** A move that concerns one id, and hands its publication over for the first time. */
  lemma HandedConcerns(s: System, t: System, id: int, q: nat)
    requires Inv(s) && Numbered(t) && OthersSame(s, t, id) && PhaseOk(View(t, id), t.handed2)
    requires t.handed2 == s.handed2 + [q] && q !in s.handed2 && t.completed == s.completed
    requires View(s, id).msg.Some? && View(s, id).msg.value.publication == q
    ensures Inv(t)
  {
    forall j
      ensures PhaseOk(View(t, j), t.handed2)
    {
      if j != id {
        assert View(t, j) == View(s, j) && PhaseOk(View(s, j), s.handed2);
        if View(s, j).msg.Some? { OthersDiffer(s, id, j); }
        OtherHanded(View(s, j), q, s.handed2);
      }
    }
  }

  lemma OthersDiffer(s: System, id: int, j: int)
    requires Numbered(s) && j != id && Sending(s.out, id).Some? && Sending(s.out, j).Some?
    ensures Sending(s.out, id).value.publication != Sending(s.out, j).value.publication
  {
  }

  lemma OtherArrives(s: System, p: Packet<nat>, lost: bool)
    requires Inv(s) && s.fwd != [] && s.fwd[0] == p && (p.Publish? ==> p.qos != 2) && !p.Pubrel?
    ensures Inv(Receive(s.(fwd := s.fwd[1..]), p, lost))
  {
    var t := Receive(s.(fwd := s.fwd[1..]), p, lost);
    forall j
      ensures View(t, j) == View(s, j)
    {
      TakeForward(s, j);
      if p.Publish? { PutBackward(s.back, Puback(p.msgid), lost, j); }
    }
    ReceiveNumbered(s, p, lost);
    assert PhaseOk(View(s, 0), s.handed2);
    Concerns(s, t, 0);
  }

  // ---------- The sender's side ----------

  lemma TakeBackward(s: System, id: int)
    requires s.back != []
    ensures View(s, id).b == BackTagOf(s.back[0], id) + Backward(s.back[1..], id)
    ensures View(s.(back := s.back[1..]), id) == View(s, id).(b := Backward(s.back[1..], id))
  {
  }

  lemma WithoutNumbered(s: System, i: int)
    requires Numbered(s) && 0 <= i < |s.out|
    ensures Numbered(s.(out := Without(s.out, i)))
  {
  }

  lemma PubackKeeps(s: System, p: Packet<nat>, lost: bool)
    requires Inv(s) && s.back != [] && s.back[0] == p && p.Puback?
    ensures Inv(Acknowledge(s.(back := s.back[1..]), p, lost))
  {
    var t, i := Acknowledge(s.(back := s.back[1..]), p, lost), Find(s.out, p.msgid);
    forall j
      ensures View(t, j) == View(s, j)
    {
      TakeBackward(s, j);
      if i >= 0 && s.out[i].qos == 1 { GetWithout(s.out, i, j); }
    }
    if i >= 0 && s.out[i].qos == 1 { WithoutNumbered(s, i); }
    assert PhaseOk(View(s, 0), s.handed2);
    Concerns(s, t, 0);
  }

  lemma PubrecKeeps(s: System, p: Packet<nat>, lost: bool)
    requires Inv(s) && s.back != [] && s.back[0] == p && p.Pubrec?
    ensures Inv(Acknowledge(s.(back := s.back[1..]), p, lost))
  {
    var t, id := Acknowledge(s.(back := s.back[1..]), p, lost), p.msgid;
    forall j | j != id
      ensures View(t, j) == View(s, j)
    {
      PubrecView(s, p, lost, j);
      TakeBackward(s, j);
    }
    PubrecView(s, p, lost, id);
    TakeBackward(s, id);
    assert PhaseOk(View(s, id), s.handed2);
    RecArrives(View(s, id), Backward(s.back[1..], id), View(t, id).f, s.handed2);
    PubrecNumbered(s, p, lost);
    Concerns(s, t, id);
  }

  lemma PubrecView(s: System, p: Packet<nat>, lost: bool, j: int)
    requires Numbered(s) && s.back != [] && s.back[0] == p && p.Pubrec?
    ensures var t, l, id := Acknowledge(s.(back := s.back[1..]), p, lost), View(s, j), p.msgid;
            && t.handed2 == s.handed2 && t.completed == s.completed
            && View(t, j).entry == l.entry && View(t, j).b == Backward(s.back[1..], j)
            && (PubrecDue(s.out, id) <==> Sending(s.out, id).Some? && Sending(s.out, id).value.next == NextPubrec)
            && View(t, j).msg == (if PubrecDue(s.out, id) && j == id
               then Some(l.msg.value.(next := NextPubcomp, lastTouch := 0)) else l.msg)
            && View(t, j).f == l.f + if PubrecDue(s.out, id) && !lost then TagOf(Pubrel(id, false), j) else []
  {
    var id, i := p.msgid, Find(s.out, p.msgid);
    if PubrecDue(s.out, id) {
      GetUpdate(s.out, i, s.out[i].(next := NextPubcomp, lastTouch := 0), j);
    }
    PutForward(s.fwd, Pubrel(id, false), lost, j);
  }

  lemma PubrecNumbered(s: System, p: Packet<nat>, lost: bool)
    requires Numbered(s) && s.back != [] && s.back[0] == p && p.Pubrec?
    ensures Numbered(Acknowledge(s.(back := s.back[1..]), p, lost))
  {
  }

  lemma PubcompKeeps(s: System, p: Packet<nat>, lost: bool)
    requires Inv(s) && s.back != [] && s.back[0] == p && p.Pubcomp?
    ensures Inv(Acknowledge(s.(back := s.back[1..]), p, lost))
  {
    var t, id, i := Acknowledge(s.(back := s.back[1..]), p, lost), p.msgid, Find(s.out, p.msgid);
    TakeBackward(s, id);
    assert PhaseOk(View(s, id), s.handed2);
    CompArrives(View(s, id), Backward(s.back[1..], id), s.handed2);
    forall j
      ensures View(t, j) == Local(if j == id then None else View(s, j).msg, View(s, j).entry, View(s, j).f,
                Backward(s.back[1..], j))
    {
      GetWithout(s.out, i, j);
    }
    forall j | j != id
      ensures View(t, j) == View(s, j)
    {
      TakeBackward(s, j);
    }
    WithoutNumbered(s, i);
    Concerns(s, t, id);
  }

  lemma OtherAcknowledged(s: System, p: Packet<nat>, lost: bool)
    requires Inv(s) && s.back != [] && s.back[0] == p && (p.Publish? || p.Pubrel?)
    ensures Inv(Acknowledge(s.(back := s.back[1..]), p, lost))
  {
    var t := Acknowledge(s.(back := s.back[1..]), p, lost);
    forall j
      ensures View(t, j) == View(s, j)
    {
      TakeBackward(s, j);
    }
    assert PhaseOk(View(s, 0), s.handed2);
    Concerns(s, t, 0);
  }

  // ---------- Runs ----------

  lemma MoveKeeps(s: System, move: Move)
    requires Inv(s) && CanMove(s, move)
    ensures Inv(After(s, move))
  {
    match move
    case NewPublication(msgid, qos, lost) => StartKeeps(s, msgid, qos, lost);
    case DeliverForward(lost) =>
      var p := s.fwd[0];
      if p.Publish? && p.qos == 2 { PublishKeeps(s, p, lost); }
      else if p.Pubrel? { PubrelKeeps(s, p, lost); }
      else { OtherArrives(s, p, lost); }
    case DeliverBack(lost) =>
      var p := s.back[0];
      match p {
        case Puback(_) => PubackKeeps(s, p, lost);
        case Pubrec(_) => PubrecKeeps(s, p, lost);
        case Pubcomp(_) => PubcompKeeps(s, p, lost);
        case _ => OtherAcknowledged(s, p, lost);
      }
    case SendAgain(i, lost) => AgainKeeps(s, i, lost);
    case Reconnect => ReconnectKeeps(s);
  }

  lemma {:induction false} RunKeeps(s: System, moves: seq<Move>, t: System)
    requires Inv(s) && Run(s, moves, t)
    ensures Inv(t)
    decreases |moves|
  {
    if moves != [] {
      MoveKeeps(s, moves[0]);
      RunKeeps(After(s, moves[0]), moves[1..], t);
    }
  }

  ghost function Times(s: seq<nat>, p: nat): nat {
    multiset(s)[p]
  }

  lemma {:induction false} NoRepeatsOnce(s: seq<nat>, p: nat)
    requires NoRepeats(s)
    ensures Times(s, p) == if p in s then 1 else 0
  {
    if s != [] {
      NoRepeatsOnce(s[1..], p);
      assert s == [s[0]] + s[1..];
    }
  }

  /** QoS 2: in every run from the start no publication is handed over twice, and every publication the sender has
      forgotten on PUBCOMP has been handed over exactly once. */
  lemma ExactlyOnce(moves: seq<Move>, t: System)
    requires Run(START, moves, t)
    ensures forall p: nat :: Times(t.handed2, p) <= 1
    ensures forall p | p in t.completed :: Times(t.handed2, p) == 1
  {
    RunKeeps(START, moves, t);
    forall p: nat
      ensures Times(t.handed2, p) == if p in t.handed2 then 1 else 0
    {
      NoRepeatsOnce(t.handed2, p);
    }
  }
}
