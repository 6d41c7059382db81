/**
 One message in flight at a time (the default of the synchronous client, src/MQTTClient.c:960, 1423), whatever is sent
 again and when: what a later message is acknowledged by is its own, unless a message restored from the store with QoS 1
 already has the first id that a client hands out.
 */
module OneInFlight {
  import opened AtLeastOnce
  import opened Delivery
  import E = ExactlyOnce
  import opened Handshake
  import opened Options
  import opened Resends
  import opened Seqs

  /** For each QoS 1 message in flight: a PUBLISH on its way carries its publication, and a PUBACK means it was handed
      over. */
  ghost predicate Own(s: System) {
    && DistinctIds(s.out) && HandedOver(s)
    && forall m | m in s.out && m.qos == 1 ::
         && (forall p | p in s.fwd && p.Publish? && p.qos == 1 && p.msgid == m.msgid :: p.publication == m.publication)
         && (Puback(m.msgid) in s.back ==> m.publication in s.handed1)
  }

  /** No packet of a QoS 1 exchange with this id is on its way. */
  ghost predicate NoneLeft(s: System, id: int) {
    Puback(id) !in s.back && forall p | p in s.fwd && p.Publish? && p.qos == 1 :: p.msgid != id
  }

  lemma OwnReceive(s: System, lost: bool)
    requires Own(s) && s.fwd != []
    ensures Own(After(s, DeliverForward(lost)))
  {
    var t, p := After(s, DeliverForward(lost)), s.fwd[0];
    if p.Publish? && p.qos == 1 {
    } else {
      assert t.handed1 == s.handed1 && t.fwd == s.fwd[1..];
      assert forall q | q in t.back && q.Puback? :: q in s.back;
    }
  }

  lemma OwnPuback(s: System, lost: bool)
    requires Own(s) && s.back != [] && s.back[0].Puback?
    ensures Own(After(s, DeliverBack(lost)))
  {
    var t, j, i := After(s, DeliverBack(lost)), s.back[0].msgid, Find(s.out, s.back[0].msgid);
    assert t.fwd == s.fwd && t.handed1 == s.handed1 && t.back == s.back[1..];
    assert s.back[0] == Puback(j) && s.back[0] in s.back;
    if i >= 0 && s.out[i].qos == 1 {
      assert s.out[i] in s.out && s.out[i].msgid == j;
      WithoutIds(s.out, i);
      assert t.out == Without(s.out, i) && t.acked == s.acked + {s.out[i].publication};
    } else {
      assert t.out == s.out && t.acked == s.acked;
    }
  }

  lemma OwnAcknowledge(s: System, lost: bool)
    requires Own(s) && s.back != []
    ensures Own(After(s, DeliverBack(lost)))
  {
    var t, j := After(s, DeliverBack(lost)), s.back[0].msgid;
    if s.back[0].Puback? {
      OwnPuback(s, lost);
    } else {
      PubcompEffect(s.out, j);
      PubrecEffect(s.out, j, 0);
      assert forall m | m in t.out && m.qos == 1 :: m in s.out;
      assert forall q | q in t.fwd && q.Publish? :: q in s.fwd;
    }
  }

  lemma OwnAgain(s: System, i: nat, lost: bool)
    requires Own(s) && CanMove(s, SendAgain(i, lost))
    ensures Own(After(s, SendAgain(i, lost)))
  {
  }

  /** The receiver stores QoS 2 publications only; PUBLISH and unmarked PUBREL go forward, acknowledgements back. */
  ghost predicate Regular(s: System) {
    && DistinctIds(s.inb) && (forall m | m in s.inb :: m.qos == 2 && m.next == NextPubrel)
    && (forall p | p in s.fwd :: (p.Pubrel? && !p.dup) || (p.Publish? && (p.qos == 1 || p.qos == 2)))
    && forall p | p in s.back :: p.Puback? || p.Pubrec? || p.Pubcomp?
  }

  /** A PUBREL is answered if the receiver has a publication stored under its id, which it hands over. */
  lemma RelDelivered(s: System, lost: bool)
    requires Regular(s) && s.fwd != [] && s.fwd[0].Pubrel?
    ensures var t, id := After(s, DeliverForward(lost)), s.fwd[0].msgid;
            && t.fwd == s.fwd[1..] && t.out == s.out && t.inb == OnPubrel(s.inb, id)
            && (forall m | m in t.inb :: m in s.inb && m.msgid != id) && DistinctIds(t.inb)
            && t.back == s.back + if lost || !IdIn(s.inb, id) then [] else [Pubcomp(id)]
  {
    var p, i := s.fwd[0], Find(s.inb, s.fwd[0].msgid);
    assert p in s.fwd && !p.dup;
    if i >= 0 {
      assert s.inb[i] in s.inb;
      WithoutIds(s.inb, i);
    }
  }

  lemma RegularReceive(s: System, lost: bool)
    requires Regular(s) && s.fwd != []
    ensures Regular(After(s, DeliverForward(lost)))
  {
    assert s.fwd[0] in s.fwd;
    if s.fwd[0].Publish? {
    } else {
      RelDelivered(s, lost);
    }
  }

  lemma RegularKeeps(s: System, move: Move)
    requires Regular(s) && CanMove(s, move)
    ensures Regular(After(s, move))
  {
    match move
    case DeliverForward(lost) => RegularReceive(s, lost);
    case DeliverBack(lost) => 
    case _ =>
  }

  // ---------- From the first publication on ----------

  /** What has the id `last`, but for PUBRELs, has nothing of another id behind it. */
  ghost predicate LastBehind(pipe: seq<Packet<nat>>, last: int) {
    forall i, j | 0 <= i < j < |pipe| :: pipe[i].msgid == last && !pipe[i].Pubrel? ==> pipe[j].msgid == last
  }

  /** Nor have the PUBRELs, while the receiver would answer them. */
  ghost predicate RelBehind(fwd: seq<Packet<nat>>, last: int) {
    forall i, j | 0 <= i < j < |fwd| :: fwd[i].Pubrel? && fwd[i].msgid == last ==> fwd[j].msgid == last
  }

  ghost predicate OnlyLast(pipe: seq<Packet<nat>>, last: int) {
    forall i | 0 <= i < |pipe| :: pipe[i].msgid == last
  }

  /** At most the last message is in flight, and of the packets on their way, in the order in which the answers will
      come, those that belong to it come after all others. */
  ghost predicate OneAtATime(s: System, last: int) {
    && |s.out| <= 1 && (s.out != [] ==> s.out[0].msgid == last)
    && LastBehind(s.back + s.fwd, last) && (IdIn(s.inb, last) ==> RelBehind(s.fwd, last))
    && (s.out == [] ==> OnlyLast(s.back + s.fwd, last))
  }

  /** A packet is delivered, and answered under the same id, or not. */
  lemma PipeDropped(back: seq<Packet<nat>>, fwd: seq<Packet<nat>>, last: int)
    requires fwd != [] && LastBehind(back + fwd, last)
    ensures LastBehind(back + fwd[1..], last) && (OnlyLast(back + fwd, last) ==> OnlyLast(back + fwd[1..], last))
    ensures fwd[0].msgid == last && !fwd[0].Pubrel? ==> OnlyLast(fwd[1..], last)
    ensures RelBehind(fwd, last) ==> RelBehind(fwd[1..], last)
    ensures RelBehind(fwd, last) && fwd[0].Pubrel? && fwd[0].msgid == last ==> OnlyLast(fwd[1..], last)
  {
    var p, p1 := back + fwd, back + fwd[1..];
    forall j | 0 <= j < |p1|
      ensures p1[j] == p[if j < |back| then j else j + 1]
    {
    }
    forall i, j | 0 <= i < j < |p1| && p1[i].msgid == last && !p1[i].Pubrel?
      ensures p1[j].msgid == last
    {
      assert p1[i] == p[if i < |back| then i else i + 1] && p1[j] == p[if j < |back| then j else j + 1];
    }
    if fwd[0].msgid == last && !fwd[0].Pubrel? {
      forall j | 0 <= j < |fwd[1..]|
        ensures fwd[1..][j].msgid == last
      {
        assert p[|back|] == fwd[0] && p[|back| + 1 + j] == fwd[1..][j];
      }
    }
  }

  lemma PipeAnswered(back: seq<Packet<nat>>, fwd: seq<Packet<nat>>, answer: Packet<nat>, last: int)
    requires fwd != [] && LastBehind(back + fwd, last) && answer.msgid == fwd[0].msgid
    requires answer.msgid == last ==> OnlyLast(fwd[1..], last)
    ensures LastBehind(back + [answer] + fwd[1..], last)
    ensures OnlyLast(back + fwd, last) ==> OnlyLast(back + [answer] + fwd[1..], last)
  {
    var p, p1, n := back + fwd, back + [answer] + fwd[1..], |back|;
    forall j | 0 <= j < |p1|
      ensures p1[j].msgid == p[j].msgid && (j != n ==> p1[j] == p[j])
    {
    }
    forall i, j | 0 <= i < j < |p1| && p1[i].msgid == last && !p1[i].Pubrel?
      ensures p1[j].msgid == last
    {
      if i == n {
        assert p1[j] == fwd[1..][j - n - 1];
      } else {
        assert p1[i] == p[i] && p1[j].msgid == p[j].msgid;
      }
    }
  }

  lemma PipeTaken(back: seq<Packet<nat>>, fwd: seq<Packet<nat>>, last: int)
    requires back != [] && LastBehind(back + fwd, last)
    ensures LastBehind(back[1..] + fwd, last) && (OnlyLast(back + fwd, last) ==> OnlyLast(back[1..] + fwd, last))
    ensures back[0].msgid == last && !back[0].Pubrel? ==> OnlyLast(back[1..] + fwd, last)
  {
    var p, p1 := back + fwd, back[1..] + fwd;
    assert p == [back[0]] + p1;
    assert p[0] == back[0] && forall i | 0 <= i < |p1| :: p1[i] == p[i + 1];
  }

  lemma PipeSent(back: seq<Packet<nat>>, fwd: seq<Packet<nat>>, p: Packet<nat>, last: int)
    requires LastBehind(back + fwd, last) && p.msgid == last
    ensures LastBehind(back + (fwd + [p]), last) && (OnlyLast(back + fwd, last) ==> OnlyLast(back + (fwd + [p]), last))
    ensures RelBehind(fwd, last) ==> RelBehind(fwd + [p], last)
  {
    assert back + (fwd + [p]) == (back + fwd) + [p];
  }

  lemma SingleStart(s: System, last: int, msgid: int, qos: int, lost: bool)
    requires s.out == [] && Fresh(s, msgid)
    ensures OneAtATime(StartPublication(s, msgid, qos, lost), msgid)
  {
    assert forall i | 0 <= i < |s.back + s.fwd| :: (s.back + s.fwd)[i] in s.back || (s.back + s.fwd)[i] in s.fwd;
    PipeSent(s.back, s.fwd, Publish(msgid, qos, false, false, s.issued), msgid);
  }

  /** Of this id there may be PUBRELs on their way, which the receiver will not answer, and nothing else. */
  ghost predicate Fresh(s: System, id: int) {
    && (forall p | p in s.back :: p.msgid != id)
    && forall p | p in s.fwd && p.msgid == id :: p.Pubrel? && !IdIn(s.inb, id)
  }

  lemma SinglePublish(s: System, last: int, lost: bool)
    requires OneAtATime(s, last) && Regular(s) && s.fwd != [] && s.fwd[0].Publish?
    ensures OneAtATime(After(s, DeliverForward(lost)), last)
  {
    var p := s.fwd[0];
    PipeDropped(s.back, s.fwd, last);
    PipeAnswered(s.back, s.fwd, if p.qos == 2 then Pubrec(p.msgid) else Puback(p.msgid), last);
    PublishEffect(s.inb, p);
  }

  lemma SingleRel(s: System, last: int, lost: bool)
    requires OneAtATime(s, last) && Regular(s) && s.fwd != [] && s.fwd[0].Pubrel?
    ensures OneAtATime(After(s, DeliverForward(lost)), last)
  {
    var id := s.fwd[0].msgid;
    RelDelivered(s, lost);
    PipeDropped(s.back, s.fwd, last);
    if IdIn(s.inb, id) {
      PipeAnswered(s.back, s.fwd, Pubcomp(id), last);
    }
    assert s.back + [] == s.back;
  }

  lemma SingleReceive(s: System, last: int, lost: bool)
    requires OneAtATime(s, last) && Regular(s) && s.fwd != []
    ensures OneAtATime(After(s, DeliverForward(lost)), last)
  {
    if s.fwd[0].Publish? {
      SinglePublish(s, last, lost);
    } else if s.fwd[0].Pubrel? {
      SingleRel(s, last, lost);
    } else {
      PipeDropped(s.back, s.fwd, last);
    }
  }

  lemma SingleAcknowledge(s: System, last: int, lost: bool)
    requires OneAtATime(s, last) && s.back != []
    ensures OneAtATime(After(s, DeliverBack(lost)), last)
  {
    PipeTaken(s.back, s.fwd, last);
    PipeSent(s.back[1..], s.fwd, Pubrel(last, false), last);
  }

  lemma SingleAgain(s: System, last: int, lost: bool)
    requires OneAtATime(s, last) && CanMove(s, SendAgain(0, lost))
    ensures OneAtATime(After(s, SendAgain(0, lost)), last)
  {
    PipeSent(s.back, s.fwd, Resend(s.out[0]).value, last);
  }

  // ---------- Until the first publication ----------

  /** The rest of a QoS 2 exchange, seen for its id: nothing but PUBRELs that will not be answered outlasts it. */
  ghost predicate Closing(l: E.Local) {
    if l.msg == None then E.AllRel(l.f) && l.b == [] && (l.f != [] ==> l.entry == None)
    else if l.msg.value.next == NextPubrec then E.Rel !in l.f && E.AllRec(l.b)
    else
      && l.msg.value.next == NextPubcomp && RelsLast(l.f) && E.RecsThenComp(l.b)
      && (E.Comp in l.b ==> E.AllRel(l.f) && l.entry == None)
  }

  ghost predicate RelsLast(f: seq<E.Tag>) {
    forall i, j | 0 <= i < j < |f| :: f[i] == E.Rel ==> f[j] == E.Rel
  }

  lemma LocalPublish(l: E.Local, f': seq<E.Tag>, e: Message<nat>, lost: bool)
    requires Closing(l) && l.f != [] && l.f[0] != E.Rel && f' == l.f[1..]
    ensures Closing(E.Local(l.msg, Some(e), f', l.b + if lost then [] else [E.Rec]))
  {
  }

  lemma LocalRel(l: E.Local, f': seq<E.Tag>, lost: bool)
    requires Closing(l) && l.f != [] && l.f[0] == E.Rel && f' == l.f[1..]
    ensures Closing(E.Local(l.msg, None, f', l.b + if lost || l.entry == None then [] else [E.Comp]))
  {
  }

  lemma LocalRec(l: E.Local, b': seq<E.BackTag>, lost: bool, now: int)
    requires Closing(l) && l.b != [] && l.b[0] == E.Rec && b' == l.b[1..]
    ensures l.msg.Some?
    ensures var m := l.msg.value;
            Closing(if m.next == NextPubrec
                    then E.Local(Some(m.(next := NextPubcomp, lastTouch := now)), l.entry,
                      l.f + if lost then [] else [E.Rel], b')
                    else l.(b := b'))
  {
  }

  lemma LocalComp(l: E.Local, b': seq<E.BackTag>)
    requires Closing(l) && l.b != [] && l.b[0] == E.Comp && b' == l.b[1..]
    ensures l.msg.Some? && l.msg.value.next == NextPubcomp && Closing(E.Local(None, l.entry, l.f, b'))
  {
  }

  lemma PublishView(s: System, id: int, lost: bool)
    requires Regular(s) && s.fwd != [] && s.fwd[0].Publish? && s.fwd[0].qos == 2
    ensures var p, v := s.fwd[0], E.View(s, id);
            E.View(After(s, DeliverForward(lost)), id)
            == E.Local(v.msg, if p.msgid == id then Some(Stored(p)) else v.entry, E.Forward(s.fwd[1..], id),
                       v.b + if lost then [] else E.BackTagOf(Pubrec(p.msgid), id))
  {
    var p, i := s.fwd[0], Find(s.inb, s.fwd[0].msgid);
    E.PutBackward(s.back, Pubrec(p.msgid), lost, id);
    if i >= 0 { GetUpdate(s.inb, i, Stored(p), id); } else { GetAppend(s.inb, Stored(p), id); }
  }

  lemma RelView(s: System, id: int, lost: bool)
    requires Regular(s) && s.fwd != [] && s.fwd[0].Pubrel?
    ensures var p, v := s.fwd[0], E.View(s, id);
            E.View(After(s, DeliverForward(lost)), id)
            == E.Local(v.msg, if p.msgid == id then None else v.entry, E.Forward(s.fwd[1..], id),
                       v.b + if lost || !IdIn(s.inb, p.msgid) then [] else E.BackTagOf(Pubcomp(p.msgid), id))
  {
    var p, i := s.fwd[0], Find(s.inb, s.fwd[0].msgid);
    RelDelivered(s, lost);
    E.PutBackward(s.back, Pubcomp(p.msgid), lost, id);
    if i >= 0 {
      assert s.inb[i] in s.inb;
      GetWithout(s.inb, i, id);
    } else {
      assert s.back + [] == s.back && E.View(s, id).b + [] == E.View(s, id).b;
    }
  }

  lemma RecView(s: System, id: int, lost: bool)
    requires DistinctIds(s.out) && s.back != [] && s.back[0].Pubrec?
    ensures var p, v, due := s.back[0], E.View(s, id), PubrecDue(s.out, s.back[0].msgid);
            && E.View(After(s, DeliverBack(lost)), id)
               == E.Local(if due && p.msgid == id && v.msg.Some?
                 then Some(v.msg.value.(next := NextPubcomp, lastTouch := 0)) else v.msg,
                          v.entry, v.f + if due && !lost then E.TagOf(Pubrel(p.msgid, false), id) else [],
                            E.Backward(s.back[1..], id))
            && (p.msgid == id ==> (due <==> v.msg.Some? && v.msg.value.next == NextPubrec))
  {
    var p, i := s.back[0], Find(s.out, s.back[0].msgid);
    if PubrecDue(s.out, p.msgid) {
      GetUpdate(s.out, i, s.out[i].(next := NextPubcomp, lastTouch := 0), id);
      E.PutForward(s.fwd, Pubrel(p.msgid, false), lost, id);
    }
  }

  /** No QoS 1 exchange has this id. */
  ghost predicate NoQos1(s: System, id: int) {
    NoneLeft(s, id) && forall m | m in s.out && m.msgid == id :: m.qos == 2
  }

  lemma AckView(s: System, id: int, lost: bool)
    requires DistinctIds(s.out) && NoQos1(s, id) && s.back != [] && s.back[0].Puback?
    ensures E.View(After(s, DeliverBack(lost)), id) == E.View(s, id).(b := E.Backward(s.back[1..], id))
  {
    var t, i := After(s, DeliverBack(lost)), Find(s.out, s.back[0].msgid);
    assert t.fwd == s.fwd && t.inb == s.inb && t.back == s.back[1..];
    if i >= 0 && s.out[i].qos == 1 {
      assert s.out[i] in s.out && t.out == Without(s.out, i);
      GetWithout(s.out, i, id);
    } else {
      assert t.out == s.out;
    }
  }

  lemma CompView(s: System, id: int, lost: bool)
    requires DistinctIds(s.out) && s.back != [] && s.back[0].Pubcomp?
    ensures var p, v := s.back[0], E.View(s, id);
            E.View(After(s, DeliverBack(lost)), id)
            == E.Local(if p.msgid == id && v.msg.Some? && v.msg.value.next == NextPubcomp then None else v.msg,
                       v.entry, v.f, E.Backward(s.back[1..], id))
  {
    var t, j, i := After(s, DeliverBack(lost)), s.back[0].msgid, Find(s.out, s.back[0].msgid);
    assert t.fwd == s.fwd && t.inb == s.inb && t.back == s.back[1..];
    if PubcompDue(s.out, j) {
      assert t.out == Without(s.out, i);
      GetWithout(s.out, i, id);
    } else {
      assert t.out == s.out;
    }
  }

  lemma AgainView(s: System, i: nat, id: int, lost: bool)
    requires DistinctIds(s.out) && CanMove(s, SendAgain(i, lost))
    ensures var p, v := Resend(s.out[i]).value, E.View(s, id);
            && E.View(After(s, SendAgain(i, lost)), id) == v.(f := v.f + if lost then [] else E.TagOf(p, id))
            && (s.out[i].msgid == id && s.out[i].qos == 2 ==> v.msg == Some(s.out[i]))
  {
    E.PutForward(s.fwd, Resend(s.out[i]).value, lost, id);
    GetIs(s.out, i);
  }

  lemma NoQos1Receive(s: System, id: int, lost: bool)
    requires NoQos1(s, id) && s.fwd != []
    ensures NoQos1(After(s, DeliverForward(lost)), id)
  {
  }

  lemma NoQos1Acknowledge(s: System, id: int, lost: bool)
    requires NoQos1(s, id) && DistinctIds(s.out) && s.back != []
    ensures NoQos1(After(s, DeliverBack(lost)), id)
  {
    var t, j := After(s, DeliverBack(lost)), s.back[0].msgid;
    PubackEffect(s.out, j);
    PubcompEffect(s.out, j);
    PubrecEffect(s.out, j, 0);
    assert t.out == s.out || t.out == OnPuback(s.out, j) || t.out == OnPubrec(s.out, j, 0)
           || t.out == OnPubcomp(s.out, j);
    assert t.fwd == s.fwd || t.fwd == s.fwd + [Pubrel(j, false)];
  }

  lemma ClosingPublish(s: System, id: int, lost: bool)
    requires Closing(E.View(s, id)) && Regular(s) && s.fwd != [] && s.fwd[0].Publish? && s.fwd[0].qos == 2
    ensures Closing(E.View(After(s, DeliverForward(lost)), id))
  {
    var p, f', v := s.fwd[0], E.Forward(s.fwd[1..], id), E.View(s, id);
    E.TakeForward(s, id);
    PublishView(s, id, lost);
    if p.msgid == id {
      LocalPublish(v, f', Stored(p), lost);
    } else {
      assert [] + f' == f' && v.b + [] == v.b;
    }
  }

  /** v becomes w when a PUBREL is delivered. */
  lemma LocalDelivered(v: E.Local, w: E.Local, p: Packet<nat>, id: int, f': seq<E.Tag>, stored: bool, lost: bool)
    requires Closing(v) && p.Pubrel? && v.f == E.TagOf(p, id) + f' && (p.msgid == id ==> (stored <==> v.entry != None))
    requires w == E.Local(v.msg, if p.msgid == id then None else v.entry, f',
                          v.b + if lost || !stored then [] else E.BackTagOf(Pubcomp(p.msgid), id))
    ensures Closing(w)
  {
    if p.msgid == id {
      LocalRel(v, f', lost);
    } else {
      assert [] + f' == f' && v.b + [] == v.b;
    }
  }

  lemma ClosingRel(s: System, id: int, lost: bool)
    requires Closing(E.View(s, id)) && Regular(s) && s.fwd != [] && s.fwd[0].Pubrel?
    ensures Closing(E.View(After(s, DeliverForward(lost)), id))
  {
    E.TakeForward(s, id);
    RelView(s, id, lost);
    LocalDelivered(E.View(s, id), E.View(After(s, DeliverForward(lost)), id), s.fwd[0], id, E.Forward(s.fwd[1..], id),
                   IdIn(s.inb, s.fwd[0].msgid), lost);
  }

  lemma ClosingReceive(s: System, id: int, lost: bool)
    requires Closing(E.View(s, id)) && NoQos1(s, id) && Regular(s) && s.fwd != []
    ensures Closing(E.View(After(s, DeliverForward(lost)), id))
  {
    var p, f', v := s.fwd[0], E.Forward(s.fwd[1..], id), E.View(s, id);
    if p.Publish? && p.qos == 2 {
      ClosingPublish(s, id, lost);
    } else if p.Pubrel? {
      ClosingRel(s, id, lost);
    } else {
      E.TakeForward(s, id);
      E.PutBackward(s.back, Puback(p.msgid), lost, id);
      assert [] + f' == f' && v.b + [] == v.b;
    }
  }

  lemma ClosingRec(s: System, id: int, lost: bool)
    requires Closing(E.View(s, id)) && DistinctIds(s.out) && s.back != [] && s.back[0].Pubrec?
    ensures Closing(E.View(After(s, DeliverBack(lost)), id))
  {
    var p, b', v := s.back[0], E.Backward(s.back[1..], id), E.View(s, id);
    E.TakeBackward(s, id);
    RecView(s, id, lost);
    assert v.f + [] == v.f;
    if p.msgid == id {
      LocalRec(v, b', lost, 0);
    } else {
      assert [] + b' == b';
    }
  }

  lemma ClosingAcknowledge(s: System, id: int, lost: bool)
    requires Closing(E.View(s, id)) && NoQos1(s, id) && DistinctIds(s.out) && s.back != []
    ensures Closing(E.View(After(s, DeliverBack(lost)), id))
  {
    var p, b', v := s.back[0], E.Backward(s.back[1..], id), E.View(s, id);
    if p.Pubrec? {
      ClosingRec(s, id, lost);
    } else {
      E.TakeBackward(s, id);
      if p.Puback? { AckView(s, id, lost); }
      if p.Pubcomp? { CompView(s, id, lost); }
      if p.Pubcomp? && p.msgid == id {
        LocalComp(v, b');
      } else {
        assert [] + b' == b';
      }
    }
  }

  lemma ClosingAgain(s: System, i: nat, id: int, lost: bool)
    requires Closing(E.View(s, id)) && NoQos1(s, id) && DistinctIds(s.out) && CanMove(s, SendAgain(i, lost))
    ensures Closing(E.View(After(s, SendAgain(i, lost)), id))
  {
    AgainView(s, i, id, lost);
    assert s.out[i] in s.out;
  }

  lemma {:induction false} TagsIn(fwd: seq<Packet<nat>>, back: seq<Packet<nat>>, id: int)
    ensures forall p | p in fwd && E.TagOf(p, id) != [] :: E.TagOf(p, id)[0] in E.Forward(fwd, id)
    ensures forall p | p in back && E.BackTagOf(p, id) != [] :: E.BackTagOf(p, id)[0] in E.Backward(back, id)
    decreases |fwd| + |back|
  {
    if fwd != [] { TagsIn(fwd[1..], back, id); }
    if back != [] { TagsIn(fwd, back[1..], id); }
  }

  /** When no message is in flight any more, the id can be used for the first time. */
  lemma ClosedFresh(s: System, id: int)
    requires s.out == [] && Regular(s) && NoQos1(s, id) && Closing(E.View(s, id))
    ensures Fresh(s, id)
  {
    TagsIn(s.fwd, s.back, id);
    forall p | p in s.back
      ensures p.msgid != id
    {
      assert E.BackTagOf(p, id) == [] && p != Puback(id);
    }
    forall p | p in s.fwd && p.msgid == id
      ensures p.Pubrel? && !IdIn(s.inb, id)
    {
      assert E.TagOf(p, id) != [] && E.TagOf(p, id)[0] in E.View(s, id).f;
    }
  }

  // ---------- Runs ----------

  /** Restored messages come first, and then one at a time. */
  ghost predicate Phase(s: System, last: int) {
    if last == 0 then NoQos1(s, 1) && Closing(E.View(s, 1)) else OneAtATime(s, last)
  }

  ghost predicate SingleOk(c: Config) {
    Own(c.sys) && Regular(c.sys) && Phase(c.sys, c.last)
  }

  lemma PhaseReceive(s: System, last: int, lost: bool)
    requires Regular(s) && Phase(s, last) && s.fwd != []
    ensures Phase(After(s, DeliverForward(lost)), last)
  {
    if last == 0 {
      NoQos1Receive(s, 1, lost);
      ClosingReceive(s, 1, lost);
    } else {
      SingleReceive(s, last, lost);
    }
  }

  lemma PhaseAcknowledge(s: System, last: int, lost: bool)
    requires DistinctIds(s.out) && Phase(s, last) && s.back != []
    ensures Phase(After(s, DeliverBack(lost)), last)
  {
    if last == 0 {
      NoQos1Acknowledge(s, 1, lost);
      ClosingAcknowledge(s, 1, lost);
    } else {
      SingleAcknowledge(s, last, lost);
    }
  }

  lemma PhaseAgain(s: System, last: int, i: nat, lost: bool)
    requires DistinctIds(s.out) && Phase(s, last) && CanMove(s, SendAgain(i, lost))
    ensures Phase(After(s, SendAgain(i, lost)), last)
  {
    if last == 0 {
      ClosingAgain(s, i, 1, lost);
    } else {
      SingleAgain(s, last, lost);
    }
  }

  lemma SingleNew(st: Setting, c: Config, msgid: int, qos: int, lost: bool, at: int)
    requires st.limit <= 1 && SingleOk(c) && Allowed(st, c, Step(NewPublication(msgid, qos, lost), at))
    ensures SingleOk(AfterEvent(c, Step(NewPublication(msgid, qos, lost), at)))
  {
    var s := c.sys;
    if c.last == 0 {
      assert Tried(0, 1) == 1;
      ClosedFresh(s, 1);
    } else {
      assert forall i | 0 <= i < |s.back| :: (s.back + s.fwd)[i] == s.back[i];
      assert forall i | 0 <= i < |s.fwd| :: (s.back + s.fwd)[|s.back| + i] == s.fwd[i];
    }
    RegularKeeps(s, NewPublication(msgid, qos, lost));
    SingleStart(s, c.last, msgid, qos, lost);
  }

  /** With one message in flight at a time, every event keeps what a PUBACK means. */
  lemma SingleEvent(st: Setting, c: Config, e: Event)
    requires st.limit <= 1 && SingleOk(c) && Allowed(st, c, e)
    ensures SingleOk(AfterEvent(c, e))
  {
    var s := c.sys;
    if e.Step? {
      RegularKeeps(s, e.move);
      match e.move
      case NewPublication(msgid, qos, lost) => SingleNew(st, c, msgid, qos, lost, e.at);
      case DeliverForward(lost) =>
        OwnReceive(s, lost);
        PhaseReceive(s, c.last, lost);
      case DeliverBack(lost) =>
        OwnAcknowledge(s, lost);
        PhaseAcknowledge(s, c.last, lost);
      case SendAgain(i, lost) =>
        OwnAgain(s, i, lost);
        PhaseAgain(s, c.last, i, lost);
      case Reconnect =>
    }
  }

  lemma {:induction false} SingleRuns(st: Setting, c: Config, events: seq<Event>, d: Config)
    requires st.limit <= 1 && SingleOk(c) && Runs(st, c, events, d)
    ensures HandedOver(d.sys)
    decreases |events|
  {
    if events != [] {
      SingleEvent(st, c, events[0]);
      SingleRuns(st, AfterEvent(c, events[0]), events[1..], d);
    }
  }

  /** With no message allowed, only restored ones are sent. */
  lemma {:induction false} NoneRuns(st: Setting, c: Config, events: seq<Event>, d: Config)
    requires st.limit <= 0 && Own(c.sys) && Runs(st, c, events, d)
    ensures HandedOver(d.sys)
    decreases |events|
  {
    if events != [] {
      if events[0].Step? {
        match events[0].move
        case NewPublication(_, _, _) =>
        case DeliverForward(lost) => OwnReceive(c.sys, lost);
        case DeliverBack(lost) => OwnAcknowledge(c.sys, lost);
        case SendAgain(i, lost) => OwnAgain(c.sys, i, lost);
        case Reconnect =>
      }
      NoneRuns(st, AfterEvent(c, events[0]), events[1..], d);
    }
  }
}
