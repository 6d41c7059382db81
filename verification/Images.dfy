/**
 How the messages and packets of two clients (ProtocolClient) show those of the protocol in Delivery and Resends, where
 a publication is a number: what the number stands for, its retain flag included, is kept in a table.
 */
module Images {
  import opened Delivery
  import opened Handshake
  import opened ProtocolClient
  import R = ResendRuns
  import opened Resends
  import opened Seqs
  import opened SessionStore
  import V = Session

  /** What a publication's number stands for. */
  datatype Stamp = Stamp(retain: bool, publication: Publication)

  // ---------- Messages ----------

  ghost predicate Shows(m: Message<nat>, x: Msg, content: seq<Stamp>) {
    && m.publication < |content| && content[m.publication] == Stamp(x.retain, x.publication)
    && x.msgid == m.msgid && x.qos == m.qos && x.next == m.next
  }

  ghost predicate ListShows(ms: seq<Message<nat>>, xs: seq<Msg>, content: seq<Stamp>) {
    |ms| == |xs| && forall i | 0 <= i < |ms| :: Shows(ms[i], xs[i], content)
  }

  /** The times of the messages are those that the rules for resends go by. */
  ghost predicate TimesShow(c: Config, xs: seq<Msg>) {
    forall i | 0 <= i < |xs| :: xs[i].lastTouch == LastTouch(c, xs[i].msgid)
  }

  lemma {:induction false} FindSame(ms: seq<Message<nat>>, xs: seq<Msg>, id: int)
    requires |ms| == |xs| && forall i | 0 <= i < |ms| :: ms[i].msgid == xs[i].msgid
    ensures Find(ms, id) == Find(xs, id)
  {
    if ms != [] && ms[0].msgid != id {
      FindSame(ms[1..], xs[1..], id);
    }
  }

  lemma IdsSame(ms: seq<Message<nat>>, xs: seq<Msg>, content: seq<Stamp>)
    requires ListShows(ms, xs, content)
    ensures Ids(ms) == Ids(xs) && (DistinctIds(xs) ==> DistinctIds(ms)) && forall id :: IdIn(ms, id) <==> IdIn(xs, id)
  {
    forall id
      ensures id in Ids(ms) <==> id in Ids(xs)
      ensures IdIn(ms, id) <==> IdIn(xs, id)
    {
      FindSame(ms, xs, id);
      assert IdIn(ms, id) <==> id in Ids(ms);
      assert IdIn(xs, id) <==> id in Ids(xs);
    }
  }

  lemma MoreContent(ms: seq<Message<nat>>, xs: seq<Msg>, content: seq<Stamp>, stamp: Stamp)
    requires ListShows(ms, xs, content)
    ensures ListShows(ms, xs, content + [stamp])
  {
  }

  lemma WithoutShows(ms: seq<Message<nat>>, xs: seq<Msg>, content: seq<Stamp>, i: int)
    requires ListShows(ms, xs, content) && 0 <= i < |ms|
    ensures ListShows(Without(ms, i), Without(xs, i), content)
  {
  }

  lemma WithoutTimes(c: Config, c': Config, xs: seq<Msg>, i: int)
    requires TimesShow(c, xs) && 0 <= i < |xs| && c'.touched == c.touched
    ensures TimesShow(c', Without(xs, i))
  {
  }

  lemma PubackShows(ms: seq<Message<nat>>, xs: seq<Msg>, content: seq<Stamp>, id: int)
    requires ListShows(ms, xs, content)
    ensures ListShows(OnPuback(ms, id), OnPuback(xs, id), content)
  {
    FindSame(ms, xs, id);
    if Find(ms, id) >= 0 {
      WithoutShows(ms, xs, content, Find(ms, id));
    }
  }

  lemma PubrecShows(ms: seq<Message<nat>>, xs: seq<Msg>, content: seq<Stamp>, id: int, now: int)
    requires ListShows(ms, xs, content)
    ensures ListShows(OnPubrec(ms, id, 0), OnPubrec(xs, id, now), content)
    ensures PubrecDue(ms, id) == PubrecDue(xs, id)
  {
    FindSame(ms, xs, id);
  }

  lemma PubcompShows(ms: seq<Message<nat>>, xs: seq<Msg>, content: seq<Stamp>, id: int)
    requires ListShows(ms, xs, content)
    ensures ListShows(OnPubcomp(ms, id), OnPubcomp(xs, id), content)
  {
    FindSame(ms, xs, id);
    if Find(ms, id) >= 0 {
      WithoutShows(ms, xs, content, Find(ms, id));
    }
  }

  lemma PublishShows(ms: seq<Message<nat>>, xs: seq<Msg>, content: seq<Stamp>, p: Packet<nat>, q: Packet<Publication>)
    requires ListShows(ms, xs, content) && p.Publish? && PacketShows(p, q, content)
    ensures ListShows(OnPublish(ms, p), OnPublish(xs, q), content)
  {
    FindSame(ms, xs, p.msgid);
  }

  lemma PubrelShows(ms: seq<Message<nat>>, xs: seq<Msg>, content: seq<Stamp>, id: int)
    requires ListShows(ms, xs, content)
    ensures ListShows(OnPubrel(ms, id), OnPubrel(xs, id), content)
    ensures PubrelDue(ms, id) == PubrelDue(xs, id) && Find(ms, id) == Find(xs, id)
  {
    FindSame(ms, xs, id);
    if Find(ms, id) >= 0 {
      WithoutShows(ms, xs, content, Find(ms, id));
    }
  }

  // ---------- Packets ----------

  /** What the receiver's client can take. */
  ghost predicate Deliverable(q: Packet<Publication>) {
    q.Publish? ==> 1 <= q.qos <= 2 && 0 <= q.msgid <= MAX_MSG_ID && |q.publication.topic| < 65536
  }

  ghost predicate PacketShows(p: Packet<nat>, q: Packet<Publication>, content: seq<Stamp>) {
    Deliverable(q) &&
    match p
    case Publish(id, qos, dup, _, publication) =>
      && publication < |content| && q.Publish? && content[publication] == Stamp(q.retain, q.publication)
      && q.msgid == id && q.qos == qos && q.dup == dup
    case Puback(id) => q == Puback(id)
    case Pubrec(id) => q == Pubrec(id)
    case Pubrel(id, dup) => q == Pubrel(id, dup)
    case Pubcomp(id) => q == Pubcomp(id)
  }

  /** The packets on their way are those sent and not taken yet. */
  ghost predicate ChannelShows(channel: seq<Packet<nat>>, sent: seq<Packet<Publication>>, taken: nat,
                               content: seq<Stamp>) {
    && taken <= |sent| && |channel| == |sent| - taken
    && forall k | 0 <= k < |channel| :: PacketShows(channel[k], sent[taken + k], content)
  }

  lemma ChannelMore(channel: seq<Packet<nat>>, sent: seq<Packet<Publication>>, taken: nat, content: seq<Stamp>,
                    stamp: Stamp)
    requires ChannelShows(channel, sent, taken, content)
    ensures ChannelShows(channel, sent, taken, content + [stamp])
  {
  }

  lemma ChannelPut(channel: seq<Packet<nat>>, sent: seq<Packet<Publication>>, taken: nat, content: seq<Stamp>,
                   p: Packet<nat>, q: Packet<Publication>, lost: bool)
    requires ChannelShows(channel, sent, taken, content) && PacketShows(p, q, content)
    ensures ChannelShows(Put(channel, p, lost), sent + if lost then [] else [q], taken, content)
  {
  }

  lemma ChannelTake(channel: seq<Packet<nat>>, sent: seq<Packet<Publication>>, taken: nat, content: seq<Stamp>)
    requires ChannelShows(channel, sent, taken, content) && channel != []
    ensures ChannelShows(channel[1..], sent, taken + 1, content) && PacketShows(channel[0], sent[taken], content)
  {
    assert sent[taken + 0] == sent[taken];
    forall k | 0 <= k < |channel[1..]|
      ensures PacketShows(channel[1..][k], sent[taken + 1 + k], content)
    {
      assert PacketShows(channel[k + 1], sent[taken + (k + 1)], content);
    }
  }

  /** What is sent again for a message. */
  lemma ResendShows(m: Message<nat>, x: Msg, content: seq<Stamp>)
    requires Shows(m, x, content) && V.OutboundOk(x)
    ensures Resend(m).Some? && PacketShows(Resend(m).value, SentFor(x), content)
  {
  }

  // ---------- What has been handed over ----------

  /** The publications handed over with this QoS, in order. */
  ghost function HandedWith(processed: seq<Handed>, qos: int): seq<Stamp> {
    if processed == [] then []
    else
      var h := processed[|processed| - 1];
      HandedWith(processed[..|processed| - 1], qos) + if h.qos == qos then [Stamp(h.retain, h.publication)] else []
  }

  lemma HandedNext(processed: seq<Handed>, h: Handed, qos: int)
    ensures HandedWith(processed + [h], qos)
            == HandedWith(processed, qos) + if h.qos == qos then [Stamp(h.retain, h.publication)] else []
  {
    assert (processed + [h])[..|processed|] == processed;
  }

  ghost predicate HandedShows(numbers: seq<nat>, processed: seq<Handed>, qos: int, content: seq<Stamp>) {
    && |HandedWith(processed, qos)| == |numbers|
    && forall k | 0 <= k < |numbers| :: numbers[k] < |content| && HandedWith(processed, qos)[k] == content[numbers[k]]
  }

  lemma HandedShowsNext(numbers: seq<nat>, processed: seq<Handed>, qos: int, content: seq<Stamp>, h: Handed, n: nat)
    requires HandedShows(numbers, processed, qos, content)
    requires h.qos == qos ==> n < |content| && content[n] == Stamp(h.retain, h.publication)
    ensures HandedShows(if h.qos == qos then numbers + [n] else numbers, processed + [h], qos, content)
  {
    HandedNext(processed, h, qos);
  }

  // ---------- The two sides ----------

  ghost predicate SenderShows(c: Config, out: seq<Msg>, msgID: int, live: bool, sent: seq<Packet<Publication>>,
                              taken: nat, content: seq<Stamp>) {
    && ListShows(c.sys.out, out, content) && c.last == msgID && (live ==> TimesShow(c, out))
    && ChannelShows(c.sys.fwd, sent, taken, content)
  }

  ghost predicate ReceiverShows(s: System, inb: seq<Msg>, sent: seq<Packet<Publication>>, taken: nat,
                                processed: seq<Handed>, content: seq<Stamp>) {
    && ListShows(s.inb, inb, content) && ChannelShows(s.back, sent, taken, content)
    && HandedShows(s.handed1, processed, 1, content) && HandedShows(s.handed2, processed, 2, content)
  }

  lemma ReceiverMore(s: System, inb: seq<Msg>, sent: seq<Packet<Publication>>, taken: nat, processed: seq<Handed>,
                     content: seq<Stamp>, stamp: Stamp)
    requires ReceiverShows(s, inb, sent, taken, processed, content)
    ensures ReceiverShows(s, inb, sent, taken, processed, content + [stamp])
  {
    MoreContent(s.inb, inb, content, stamp);
    ChannelMore(s.back, sent, taken, content, stamp);
  }

  // ---------- Events ----------

  /** startPublish with an id from assignMsgId is an allowed event. */
  lemma StartShows(st: Setting, c: Config, out: seq<Msg>, live: bool, sent: seq<Packet<Publication>>, taken: nat,
                   content: seq<Stamp>, x: Msg, q: Packet<Publication>, at: int, lost: bool, last: int)
    requires SenderShows(c, out, last, live, sent, taken, content) && DistinctIds(out) && |content| == c.sys.issued
    requires FirstFree(Ids(out), last, x.msgid) && 1 <= x.msgid <= MAX_MSG_ID && !IdIn(out, x.msgid)
    requires at >= c.now && |out| < st.limit && (x.qos == 1 || x.qos == 2) && |x.publication.topic| < 65536
    requires x.next == (if x.qos == 2 then NextPubrec else NextUnset) && x.lastTouch == at
    requires q == Publish(x.msgid, x.qos, false, x.retain, x.publication)
    ensures var e := Step(NewPublication(x.msgid, x.qos, lost), at);
            && Allowed(st, c, e) && AfterEvent(c, e).sys.issued == |content| + 1
            && SenderShows(AfterEvent(c, e), out + [x], x.msgid, live, sent + if lost then [] else [q], taken,
                           content + [Stamp(x.retain, x.publication)])
  {
    var stamp := Stamp(x.retain, x.publication);
    var content', p := content + [stamp], Publish(x.msgid, x.qos, false, false, c.sys.issued);
    IdsSame(c.sys.out, out, content);
    MoreContent(c.sys.out, out, content, stamp);
    ChannelMore(c.sys.fwd, sent, taken, content, stamp);
    ChannelPut(c.sys.fwd, sent, taken, content', p, q, lost);
    var c' := AfterEvent(c, Step(NewPublication(x.msgid, x.qos, lost), at));
    forall i | live && 0 <= i < |out + [x]|
      ensures (out + [x])[i].lastTouch == LastTouch(c', (out + [x])[i].msgid)
    {
      if i < |out| {
        assert out[i].msgid != x.msgid;
      }
    }
  }

  /** What the sender's handlers do with a packet that comes in. */
  ghost predicate TakesBack(out: seq<Msg>, sent: seq<Packet<Publication>>, out': seq<Msg>,
                            sent': seq<Packet<Publication>>, q: Packet<Publication>, at: int, lost: bool) {
    if q.Puback? then out' == OnPuback(out, q.msgid) && sent' == sent
    else if q.Pubrec? then
      && out' == OnPubrec(out, q.msgid, at)
      && sent' == sent + if PubrecDue(out, q.msgid) && !lost then [Pubrel(q.msgid, false)] else []
    else if q.Pubcomp? then out' == OnPubcomp(out, q.msgid) && sent' == sent
    else out' == out && sent' == sent
  }

  /** A PUBACK, PUBREC or PUBCOMP that the sender takes. */
  lemma TakenBack(c: Config, out: seq<Msg>, msgID: int, live: bool, sent: seq<Packet<Publication>>, taken: nat,
                  content: seq<Stamp>, out': seq<Msg>, sent': seq<Packet<Publication>>, q: Packet<Publication>, at: int,
                  lost: bool)
    requires SenderShows(c, out, msgID, live, sent, taken, content) && DistinctIds(out)
    requires c.sys.back != [] && PacketShows(c.sys.back[0], q, content)
    requires TakesBack(out, sent, out', sent', q, at, lost)
    ensures SenderShows(AfterEvent(c, Step(DeliverBack(lost), at)), out', msgID, live, sent', taken, content)
  {
    if q.Puback? {
      TakenPuback(c, out, live, content, q.msgid, at, lost);
    } else if q.Pubrec? {
      TakenPubrec(c, out, live, sent, taken, content, q.msgid, at, lost);
    } else if q.Pubcomp? {
      TakenPubcomp(c, out, live, content, q.msgid, at, lost);
    }
  }

  lemma PubackEvent(c: Config, id: int, at: int, lost: bool)
    requires c.sys.back != [] && c.sys.back[0] == Puback(id)
    ensures var c' := AfterEvent(c, Step(DeliverBack(lost), at));
            && c'.sys.out == OnPuback(c.sys.out, id) && c'.last == c.last && c'.sys.fwd == c.sys.fwd
            && c'.touched == c.touched
  {
    var s := c.sys.(back := c.sys.back[1..]);
    var t := Acknowledge(s, Puback(id), lost);
    assert After(c.sys, DeliverBack(lost)) == t;
    assert t.out == OnPuback(s.out, id) && t.fwd == s.fwd;
  }

  lemma TakenPuback(c: Config, out: seq<Msg>, live: bool, content: seq<Stamp>, id: int, at: int, lost: bool)
    requires ListShows(c.sys.out, out, content) && (live ==> TimesShow(c, out))
    requires c.sys.back != [] && c.sys.back[0] == Puback(id)
    ensures var c' := AfterEvent(c, Step(DeliverBack(lost), at));
            && ListShows(c'.sys.out, OnPuback(out, id), content) && c'.last == c.last && c'.sys.fwd == c.sys.fwd
            && (live ==> TimesShow(c', OnPuback(out, id)))
  {
    PubackEvent(c, id, at, lost);
    PubackShows(c.sys.out, out, content, id);
    FindSame(c.sys.out, out, id);
    if live && Find(out, id) >= 0 {
      WithoutTimes(c, AfterEvent(c, Step(DeliverBack(lost), at)), out, Find(out, id));
    }
  }

  lemma PubcompEvent(c: Config, id: int, at: int, lost: bool)
    requires c.sys.back != [] && c.sys.back[0] == Pubcomp(id)
    ensures var c' := AfterEvent(c, Step(DeliverBack(lost), at));
            && c'.sys.out == OnPubcomp(c.sys.out, id) && c'.last == c.last && c'.sys.fwd == c.sys.fwd
            && c'.touched == c.touched
  {
  }

  lemma TakenPubcomp(c: Config, out: seq<Msg>, live: bool, content: seq<Stamp>, id: int, at: int, lost: bool)
    requires ListShows(c.sys.out, out, content) && (live ==> TimesShow(c, out))
    requires c.sys.back != [] && c.sys.back[0] == Pubcomp(id)
    ensures var c' := AfterEvent(c, Step(DeliverBack(lost), at));
            && ListShows(c'.sys.out, OnPubcomp(out, id), content) && c'.last == c.last && c'.sys.fwd == c.sys.fwd
            && (live ==> TimesShow(c', OnPubcomp(out, id)))
  {
    PubcompEvent(c, id, at, lost);
    PubcompShows(c.sys.out, out, content, id);
    FindSame(c.sys.out, out, id);
    if live && Find(out, id) >= 0 {
      WithoutTimes(c, AfterEvent(c, Step(DeliverBack(lost), at)), out, Find(out, id));
    }
  }

  lemma TakenPubrec(c: Config, out: seq<Msg>, live: bool, sent: seq<Packet<Publication>>, taken: nat,
                    content: seq<Stamp>, id: int, at: int, lost: bool)
    requires ListShows(c.sys.out, out, content) && (live ==> TimesShow(c, out)) && DistinctIds(out)
    requires ChannelShows(c.sys.fwd, sent, taken, content)
    requires c.sys.back != [] && c.sys.back[0] == Pubrec(id)
    ensures var c' := AfterEvent(c, Step(DeliverBack(lost), at));
            && ListShows(c'.sys.out, OnPubrec(out, id, at), content) && c'.last == c.last
            && (live ==> TimesShow(c', OnPubrec(out, id, at)))
            && ChannelShows(c'.sys.fwd, sent + (if PubrecDue(out, id) && !lost then [Pubrel(id, false)] else []), taken,
                            content)
  {
    PubrecShows(c.sys.out, out, content, id, at);
    PubrecTimes(c, AfterEvent(c, Step(DeliverBack(lost), at)), out, id, at, live);
    if PubrecDue(out, id) {
      ChannelPut(c.sys.fwd, sent, taken, content, Pubrel(id, false), Pubrel(id, false), lost);
    } else {
      assert sent + [] == sent;
    }
  }

  lemma PubrecTimes(c: Config, c': Config, out: seq<Msg>, id: int, at: int, live: bool)
    requires DistinctIds(out) && (live ==> TimesShow(c, out))
    requires c'.touched == if PubrecDue(out, id) then c.touched[id := at] else c.touched
    ensures live ==> TimesShow(c', OnPubrec(out, id, at))
  {
    EffectAt(out, id);
  }

  /** What the receiver's handlers do with a packet. */
  ghost predicate Takes(inb: seq<Msg>, sent: seq<Packet<Publication>>, processed: seq<Handed>, inb': seq<Msg>,
                        sent': seq<Packet<Publication>>, processed': seq<Handed>, q: Packet<Publication>, lost: bool) {
    if q.Publish? && q.qos == 2 then
      && inb' == OnPublish(inb, q) && processed' == processed
      && sent' == sent + if lost then [] else [Pubrec(q.msgid)]
    else if q.Publish? then
      && inb' == inb && processed' == processed + [Handed(1, q.retain, q.publication)]
      && sent' == sent + if lost then [] else [Puback(q.msgid)]
    else if q.Pubrel? then
      && inb' == OnPubrel(inb, q.msgid)
      && processed' == processed + (if PubrelDue(inb, q.msgid) then [HandedOf(inb[Find(inb, q.msgid)])] else [])
      && sent' == sent + if PubrelAnswered(inb, q.msgid, q.dup) && !lost then [Pubcomp(q.msgid)] else []
    else inb' == inb && processed' == processed && sent' == sent
  }

  ghost function HandedOf(m: Msg): Handed {
    Handed(2, m.retain, m.publication)
  }

  /** A packet that the receiver takes: its list, what it hands over, and what it answers. */
  lemma TakenForward(s: System, inb: seq<Msg>, sent: seq<Packet<Publication>>, taken: nat, processed: seq<Handed>,
                     content: seq<Stamp>, inb': seq<Msg>, sent': seq<Packet<Publication>>, processed': seq<Handed>,
                     q: Packet<Publication>, lost: bool)
    requires ReceiverShows(s, inb, sent, taken, processed, content)
    requires s.fwd != [] && PacketShows(s.fwd[0], q, content)
    requires Takes(inb, sent, processed, inb', sent', processed', q, lost)
    ensures ReceiverShows(After(s, DeliverForward(lost)), inb', sent', taken, processed', content)
  {
    if q.Publish? && q.qos == 2 {
      PublishShows(s.inb, inb, content, s.fwd[0], q);
      ChannelPut(s.back, sent, taken, content, Pubrec(q.msgid), Pubrec(q.msgid), lost);
    } else if q.Publish? {
      var h, n := Handed(1, q.retain, q.publication), s.fwd[0].publication;
      ChannelPut(s.back, sent, taken, content, Puback(q.msgid), Puback(q.msgid), lost);
      HandedShowsNext(s.handed1, processed, 1, content, h, n);
      HandedShowsNext(s.handed2, processed, 2, content, h, n);
    } else if q.Pubrel? {
      TakenPubrel(s, inb, sent, taken, processed, content, q.msgid, q.dup, lost);
    }
  }

  lemma TakenPubrel(s: System, inb: seq<Msg>, sent: seq<Packet<Publication>>, taken: nat, processed: seq<Handed>,
                    content: seq<Stamp>, id: int, dup: bool, lost: bool)
    requires ReceiverShows(s, inb, sent, taken, processed, content) && s.fwd != [] && s.fwd[0] == Pubrel(id, dup)
    ensures ReceiverShows(After(s, DeliverForward(lost)), OnPubrel(inb, id),
              sent + (if PubrelAnswered(inb, id, dup) && !lost then [Pubcomp(id)] else []), taken,
              processed + (if PubrelDue(inb, id) then [HandedOf(inb[Find(inb, id)])] else []), content)
  {
    PubrelShows(s.inb, inb, content, id);
    PubrelHands(s, inb, processed, content, id);
    if PubrelAnswered(inb, id, dup) {
      ChannelPut(s.back, sent, taken, content, Pubcomp(id), Pubcomp(id), lost);
    } else {
      assert sent + [] == sent;
    }
  }

  lemma PubrelHands(s: System, inb: seq<Msg>, processed: seq<Handed>, content: seq<Stamp>, id: int)
    requires ListShows(s.inb, inb, content) && Find(s.inb, id) == Find(inb, id)
    requires HandedShows(s.handed1, processed, 1, content) && HandedShows(s.handed2, processed, 2, content)
    ensures var processed' := processed + (if PubrelDue(inb, id) then [HandedOf(inb[Find(inb, id)])] else []);
            && HandedShows(s.handed1, processed', 1, content)
            && HandedShows(s.handed2 + (if PubrelDue(inb, id) then [s.inb[Find(inb, id)].publication] else []),
                           processed', 2, content)
  {
    if PubrelDue(inb, id) {
      var i := Find(inb, id);
      HandedShowsNext(s.handed1, processed, 1, content, HandedOf(inb[i]), s.inb[i].publication);
      HandedShowsNext(s.handed2, processed, 2, content, HandedOf(inb[i]), s.inb[i].publication);
    } else {
      assert processed + [] == processed && s.handed2 + [] == s.handed2;
    }
  }

  // ---------- Sending again ----------

  ghost predicate Ascending(at: seq<nat>, n: nat) {
    (forall k, l | 0 <= k < l < |at| :: at[k] < at[l]) && forall k | 0 <= k < |at| :: at[k] < n
  }

  /** The messages at these positions may be sent again: a pass after a CONNACK has not come to them yet, or the timer
      finds them due. */
  ghost predicate MaySend(st: Setting, c: Config, at: seq<nat>, clock: int) {
    || (c.pass >= 0 && forall k | 0 <= k < |at| :: c.pass <= at[k])
    || forall k | 0 <= k < |at| :: at[k] < |c.sys.out| && TimerSends(st.interval, c, at[k], clock)
  }

  /** All that sending messages again changes: what is on its way, and the times. */
  ghost predicate SentOnly(c: Config, c': Config, out: seq<Msg>, at: seq<nat>, clock: int) {
    && c'.sys == c.sys.(fwd := c'.sys.fwd, sentNow := c'.sys.sentNow) && c'.last == c.last
    && c'.now == (if at == [] then c.now else clock)
    && forall i | 0 <= i < |out| ::
         LastTouch(c', out[i].msgid) == if i in at then clock else LastTouch(c, out[i].msgid)
  }

  lemma SendOne(st: Setting, c: Config, out: seq<Msg>, sent: seq<Packet<Publication>>, taken: nat, content: seq<Stamp>,
                i: nat, clock: int)
    requires ListShows(c.sys.out, out, content) && ChannelShows(c.sys.fwd, sent, taken, content) && DistinctIds(out)
    requires i < |out| && V.OutboundOk(out[i]) && clock >= c.now && MaySend(st, c, [i], clock)
    ensures var e := Step(SendAgain(i, false), clock);
            && Allowed(st, c, e) && SentOnly(c, AfterEvent(c, e), out, [i], clock)
            && ChannelShows(AfterEvent(c, e).sys.fwd, sent + [SentFor(out[i])], taken, content)
            && AfterEvent(c, e).pass == if 0 <= c.pass <= i then i + 1 else -1
  {
    ResendShows(c.sys.out[i], out[i], content);
    ChannelPut(c.sys.fwd, sent, taken, content, Resend(c.sys.out[i]).value, SentFor(out[i]), false);
    assert [i][0] == i;
  }

  lemma SentTrans(c: Config, c1: Config, c2: Config, out: seq<Msg>, before: seq<nat>, i: nat, clock: int)
    requires SentOnly(c, c1, out, before, clock) && SentOnly(c1, c2, out, [i], clock)
    ensures SentOnly(c, c2, out, before + [i], clock)
  {
    assert forall j: nat :: j in before + [i] <==> j in before || j in [i];
  }

  /** Where a pass has come to after these. */
  ghost predicate PassAt(c: Config, c': Config, at: seq<nat>) {
    c.pass >= 0 && (forall k | 0 <= k < |at| :: c.pass <= at[k]) ==>
      c'.pass == if at == [] then c.pass else at[|at| - 1] + 1
  }

  lemma MayStill(st: Setting, c: Config, c1: Config, out: seq<Msg>, content: seq<Stamp>, at: seq<nat>, clock: int)
    requires ListShows(c.sys.out, out, content) && Ascending(at, |out|) && MaySend(st, c, at, clock) && at != []
    requires SentOnly(c, c1, out, at[..|at| - 1], clock) && PassAt(c, c1, at[..|at| - 1])
    ensures MaySend(st, c1, [at[|at| - 1]], clock)
  {
    var before, i := at[..|at| - 1], at[|at| - 1];
    assert [i][0] == i && forall k | 0 <= k < |before| :: before[k] == at[k];
    if c.pass >= 0 && forall k | 0 <= k < |at| :: c.pass <= at[k] {
      assert before != [] ==> before[|before| - 1] < i;
    } else {
      assert TimerSends(st.interval, c, i, clock) && i !in before;
      assert LastTouch(c1, out[i].msgid) == LastTouch(c, out[i].msgid);
    }
  }

  lemma MayBefore(st: Setting, c: Config, at: seq<nat>, clock: int)
    requires MaySend(st, c, at, clock) && at != []
    ensures MaySend(st, c, at[..|at| - 1], clock)
  {
  }

  /** Sending them again, one after the other, is a run that is allowed. */
  lemma {:induction false} SendAll(st: Setting, s: System, events: seq<Event>, c: Config, out: seq<Msg>,
                                   sent: seq<Packet<Publication>>, taken: nat, content: seq<Stamp>, at: seq<nat>,
                                   clock: int)
    returns (events': seq<Event>, c': Config)
    requires Runs(st, Begin(s), events, c) && DistinctIds(out) && forall x | x in out :: V.OutboundOk(x)
    requires ListShows(c.sys.out, out, content) && ChannelShows(c.sys.fwd, sent, taken, content)
    requires Ascending(at, |out|) && clock >= c.now && MaySend(st, c, at, clock)
    ensures Runs(st, Begin(s), events', c') && SentOnly(c, c', out, at, clock) && PassAt(c, c', at)
    ensures ChannelShows(c'.sys.fwd, sent + SentAt(out, at), taken, content)
    decreases |at|
  {
    if at == [] {
      events', c' := events, c;
      assert sent + SentAt(out, at) == sent;
    } else {
      MayBefore(st, c, at, clock);
      var events1, c1 := SendAll(st, s, events, c, out, sent, taken, content, at[..|at| - 1], clock);
      events', c' := SendLast(st, s, events1, c, c1, out, sent, taken, content, at, clock);
    }
  }

  lemma SendLast(st: Setting, s: System, events1: seq<Event>, c: Config, c1: Config, out: seq<Msg>,
                 sent: seq<Packet<Publication>>, taken: nat, content: seq<Stamp>, at: seq<nat>, clock: int)
    returns (events': seq<Event>, c': Config)
    requires Runs(st, Begin(s), events1, c1) && DistinctIds(out) && forall x | x in out :: V.OutboundOk(x)
    requires ListShows(c.sys.out, out, content) && Ascending(at, |out|) && at != []
    requires clock >= c.now && MaySend(st, c, at, clock)
    requires SentOnly(c, c1, out, at[..|at| - 1], clock) && PassAt(c, c1, at[..|at| - 1])
    requires ChannelShows(c1.sys.fwd, sent + SentAt(out, at[..|at| - 1]), taken, content)
    ensures Runs(st, Begin(s), events', c') && SentOnly(c, c', out, at, clock) && PassAt(c, c', at)
    ensures ChannelShows(c'.sys.fwd, sent + SentAt(out, at), taken, content)
  {
    var before, i := at[..|at| - 1], at[|at| - 1];
    var e := Step(SendAgain(i, false), clock);
    MayStill(st, c, c1, out, content, at, clock);
    assert out[i] in out;
    SendOne(st, c1, out, sent + SentAt(out, before), taken, content, i, clock);
    R.RunsThen(st, Begin(s), events1, c1, e);
    events', c' := events1 + [e], AfterEvent(c1, e);
    SentTrans(c, c1, c', out, before, i, clock);
    SentAtNext(out, sent, at);
    PassNext(c, c1, c', at);
  }

  lemma SentAtNext(out: seq<Msg>, sent: seq<Packet<Publication>>, at: seq<nat>)
    requires at != [] && forall k | 0 <= k < |at| :: at[k] < |out|
    ensures var before, i := at[..|at| - 1], at[|at| - 1];
            at == before + [i] && sent + SentAt(out, at) == (sent + SentAt(out, before)) + [SentFor(out[i])]
  {
  }

  lemma PassNext(c: Config, c1: Config, c': Config, at: seq<nat>)
    requires at != [] && Ascending(at, at[|at| - 1] + 1) && PassAt(c, c1, at[..|at| - 1])
    requires c'.pass == if 0 <= c1.pass <= at[|at| - 1] then at[|at| - 1] + 1 else -1
    ensures PassAt(c, c', at)
  {
    var before := at[..|at| - 1];
    if c.pass >= 0 && forall k | 0 <= k < |at| :: c.pass <= at[k] {
      assert forall k | 0 <= k < |before| :: c.pass <= before[k];
      assert before != [] ==> at[|at| - 2] < at[|at| - 1];
    }
  }

  ghost function SentAt(out: seq<Msg>, at: seq<nat>): (r: seq<Packet<Publication>>)
    requires forall k | 0 <= k < |at| :: at[k] < |out|
    ensures |r| == |at| && forall k | 0 <= k < |at| :: r[k] == SentFor(out[at[k]])
  {
    seq(|at|, k requires 0 <= k < |at| => SentFor(out[at[k]]))
  }

  // ---------- Both sides ----------

  /** What the protocol sees of the sending client; live: its session is open. */
  datatype SenderSide = SenderSide(out: seq<Msg>, msgID: int, live: bool, sent: seq<Packet<Publication>>, taken: nat)

  /** And of the receiving one. */
  datatype ReceiverSide = ReceiverSide(inb: seq<Msg>, sent: seq<Packet<Publication>>, taken: nat,
                                       processed: seq<Handed>)

  ghost predicate Shown(c: Config, a: SenderSide, b: ReceiverSide, content: seq<Stamp>) {
    && |content| == c.sys.issued && SenderShows(c, a.out, a.msgID, a.live, a.sent, a.taken, content)
    && ReceiverShows(c.sys, b.inb, b.sent, b.taken, b.processed, content)
  }

  ghost predicate Startable(a: SenderSide, x: Msg) {
    && FirstFree(Ids(a.out), a.msgID, x.msgid) && 1 <= x.msgid <= MAX_MSG_ID && !IdIn(a.out, x.msgid)
    && (x.qos == 1 || x.qos == 2) && |x.publication.topic| < 65536
    && x.next == if x.qos == 2 then NextPubrec else NextUnset
  }

  function Started(a: SenderSide, x: Msg, lost: bool): SenderSide {
    SenderSide(a.out + [x], x.msgid, a.live,
               a.sent + (if lost then [] else [Publish(x.msgid, x.qos, false, x.retain, x.publication)]), a.taken)
  }

  lemma StartShown(st: Setting, c: Config, a: SenderSide, b: ReceiverSide, content: seq<Stamp>, x: Msg, lost: bool)
    requires Shown(c, a, b, content) && DistinctIds(a.out) && Startable(a, x)
    requires x.lastTouch >= c.now && |a.out| < st.limit
    ensures var e := Step(NewPublication(x.msgid, x.qos, lost), x.lastTouch);
            && Allowed(st, c, e)
            && Shown(AfterEvent(c, e), Started(a, x, lost), b, content + [Stamp(x.retain, x.publication)])
  {
    StartShows(st, c, a.out, a.live, a.sent, a.taken, content, x,
               Publish(x.msgid, x.qos, false, x.retain, x.publication), x.lastTouch, lost, a.msgID);
    ReceiverMore(c.sys, b.inb, b.sent, b.taken, b.processed, content, Stamp(x.retain, x.publication));
  }

  lemma ForwardShown(st: Setting, c: Config, a: SenderSide, b: ReceiverSide, content: seq<Stamp>, b': ReceiverSide,
                     lost: bool, at: int)
    requires Shown(c, a, b, content) && a.taken < |a.sent| && at >= c.now
    requires Takes(b.inb, b.sent, b.processed, b'.inb, b'.sent, b'.processed, a.sent[a.taken], lost)
             && b'.taken == b.taken
    ensures var e := Step(DeliverForward(lost), at);
            Allowed(st, c, e) && Shown(AfterEvent(c, e), a.(taken := a.taken + 1), b', content)
  {
    ChannelTake(c.sys.fwd, a.sent, a.taken, content);
    TakenForward(c.sys, b.inb, b.sent, b.taken, b.processed, content, b'.inb, b'.sent, b'.processed, a.sent[a.taken],
                 lost);
    ForwardFrame(c.sys, lost);
    SenderSame(c, AfterEvent(c, Step(DeliverForward(lost), at)), a, content);
  }

  lemma ForwardFrame(s: System, lost: bool)
    requires s.fwd != []
    ensures var t := After(s, DeliverForward(lost)); t.out == s.out && t.fwd == s.fwd[1..] && t.issued == s.issued
  {
  }

  lemma SenderSame(c: Config, c': Config, a: SenderSide, content: seq<Stamp>)
    requires SenderShows(c, a.out, a.msgID, a.live, a.sent, a.taken, content) && c.sys.fwd != []
    requires c'.sys.out == c.sys.out && c'.sys.fwd == c.sys.fwd[1..] && c'.last == c.last && c'.touched == c.touched
    ensures SenderShows(c', a.out, a.msgID, a.live, a.sent, a.taken + 1, content)
  {
    ChannelTake(c.sys.fwd, a.sent, a.taken, content);
  }

  lemma BackShown(st: Setting, c: Config, a: SenderSide, b: ReceiverSide, content: seq<Stamp>, a': SenderSide,
                  lost: bool, at: int)
    requires Shown(c, a, b, content) && DistinctIds(a.out) && b.taken < |b.sent| && at >= c.now
    requires TakesBack(a.out, a.sent, a'.out, a'.sent, b.sent[b.taken], at, lost)
             && a' == a.(out := a'.out, sent := a'.sent)
    ensures var e := Step(DeliverBack(lost), at);
            Allowed(st, c, e) && Shown(AfterEvent(c, e), a', b.(taken := b.taken + 1), content)
  {
    ChannelTake(c.sys.back, b.sent, b.taken, content);
    TakenBack(c, a.out, a.msgID, a.live, a.sent, a.taken, content, a'.out, a'.sent, b.sent[b.taken], at, lost);
    BackFrame(c.sys, lost);
  }

  lemma BackFrame(s: System, lost: bool)
    requires s.back != []
    ensures var t := After(s, DeliverBack(lost));
            t.inb == s.inb && t.back == s.back[1..] && t.handed1 == s.handed1 && t.handed2 == s.handed2
            && t.issued == s.issued
  {
  }

  /** The connection is gone, and with it what was on its way; the messages are as if never sent. */
  lemma ReconnectShown(st: Setting, c: Config, a: SenderSide, b: ReceiverSide, content: seq<Stamp>, a': SenderSide,
                       at: int)
    requires Shown(c, a, b, content) && at >= c.now
    requires a' == SenderSide(a'.out, a.msgID, a'.live, [], 0) && a'.out == V.Timed(a.out, 0)
    ensures var e := Step(Reconnect, at);
            && Allowed(st, c, e) && AfterEvent(c, e).pass == 0
            && Shown(AfterEvent(c, e), a', b.(sent := [], taken := 0), content)
  {
  }

  lemma SentShown(c: Config, c': Config, a: SenderSide, b: ReceiverSide, content: seq<Stamp>, at: seq<nat>, clock: int,
                  a': SenderSide)
    requires Shown(c, a, b, content) && DistinctIds(a.out) && SentOnly(c, c', a.out, at, clock)
    requires Ascending(at, |a.out|) && ChannelShows(c'.sys.fwd, a.sent + SentAt(a.out, at), a.taken, content)
    requires a' == a.(out := a'.out, live := a'.live, sent := a.sent + SentAt(a.out, at))
    requires |a'.out| == |a.out| && (a'.live ==> a.live)
    requires forall i | 0 <= i < |a.out| ::
               && a'.out[i] == a.out[i].(lastTouch := a'.out[i].lastTouch)
               && (a'.live ==> a'.out[i].lastTouch == if i in at then clock else a.out[i].lastTouch)
    ensures Shown(c', a', b, content)
  {
  }

  lemma FirstDeliverable(c: Config, a: SenderSide, b: ReceiverSide, content: seq<Stamp>)
    requires Shown(c, a, b, content) && a.taken < |a.sent|
    ensures Deliverable(a.sent[a.taken])
  {
    ChannelTake(c.sys.fwd, a.sent, a.taken, content);
  }

  // ---------- Passes ----------

  /** What MQTTProtocol_retries has done with the messages of the sender. */
  ghost predicate PassDone(a: SenderSide, a': SenderSide, at: seq<nat>, n: nat, now: int, clock: int, regardless: bool,
                           interval: int) {
    && DueBelow(a.out, n, at, now, regardless, interval) && Again(a.out, a.sent, a'.sent, at, n)
    && (|a'.sent| > |a.sent| + |at| ==> n < |a.out| && IsDue(a.out[n], now, regardless, interval))
    && a' == a.(out := a'.out, live := a'.live, sent := a'.sent) && V.Timed(a'.out, 0) == V.Timed(a.out, 0)
    && (!a.live || (!regardless && interval <= 0) ==> at == [] && a'.sent == a.sent)
    && (a'.live ==> a.live && |a'.sent| == |a.sent| + |at| && TouchedAt(a.out, at, clock, a'.out))
  }

  /** The positions of all that has been sent, the PUBREL cut short included. */
  ghost function SentPositions(a: SenderSide, a': SenderSide, at: seq<nat>, n: nat): seq<nat> {
    if |a'.sent| > |a.sent| + |at| then at + [n] else at
  }

  lemma PassPositions(st: Setting, c: Config, a: SenderSide, a': SenderSide, content: seq<Stamp>, at: seq<nat>, n: nat,
                      now: int, clock: int, regardless: bool)
    requires ListShows(c.sys.out, a.out, content) && (a.live ==> TimesShow(c, a.out))
    requires PassDone(a, a', at, n, now, clock, regardless, st.interval)
    requires if regardless then c.pass == 0 else now <= clock
    ensures var all := SentPositions(a, a', at, n);
            && Ascending(all, |a.out|) && MaySend(st, c, all, clock) && a'.sent == a.sent + SentAt(a.out, all)
  {
    var all := SentPositions(a, a', at, n);
    forall k | 0 <= k < |all|
      ensures all[k] < |a.out| && IsDue(a.out[all[k]], now, regardless, st.interval) && (k < |at| ==> all[k] < n)
    {
      if k < |at| {
        assert at[k] in at;
      }
    }
    if !regardless {
      forall k | 0 <= k < |all|
        ensures TimerSends(st.interval, c, all[k], clock)
      {
        assert a.out[all[k]].lastTouch == LastTouch(c, a.out[all[k]].msgid);
      }
    }
  }

  /** A pass is a run of resends that are allowed. */
  lemma PassShown(st: Setting, s: System, events: seq<Event>, c: Config, a: SenderSide, a': SenderSide, b: ReceiverSide,
                  content: seq<Stamp>, at: seq<nat>, n: nat, now: int, clock: int, regardless: bool)
    returns (events': seq<Event>, c': Config)
    requires Runs(st, Begin(s), events, c) && Shown(c, a, b, content)
    requires DistinctIds(a.out) && forall x | x in a.out :: V.OutboundOk(x)
    requires PassDone(a, a', at, n, now, clock, regardless, st.interval) && clock >= c.now
    requires if regardless then c.pass == 0 else now <= clock
    ensures Runs(st, Begin(s), events', c') && Shown(c', a', b, content)
  {
    var all := SentPositions(a, a', at, n);
    PassPositions(st, c, a, a', content, at, n, now, clock, regardless);
    events', c' := SendAll(st, s, events, c, a.out, a.sent, a.taken, content, all, clock);
    forall i | 0 <= i < |a.out|
      ensures |a'.out| == |a.out| && a'.out[i] == a.out[i].(lastTouch := a'.out[i].lastTouch)
    {
      assert V.Timed(a'.out, 0)[i] == V.Timed(a.out, 0)[i];
    }
    SentShown(c, c', a, b, content, all, clock, a');
  }

  lemma FirstPositions(n: nat, i: nat)
    ensures i in seq(n, k => k) <==> i < n
  {
    if i < n {
      assert seq(n, k => k)[i] == i;
    }
  }

  /** What MQTTAsync_completeConnection does is a pass over messages that have not been sent yet. */
  lemma ConnackDone(out: seq<Msg>, a1: SenderSide, a': SenderSide, n: nat, clock: int, interval: int)
    requires a1 == SenderSide(V.Timed(out, 0), a1.msgID, true, [], a1.taken) && n <= |out|
    requires Again(out, [], a'.sent, seq(n, i => i), n) && a' == a1.(out := a'.out, live := a'.live, sent := a'.sent)
    requires a'.live ==> |a'.sent| == n && |a'.out| == |out| && forall i | 0 <= i < |out| ::
                           a'.out[i] == out[i].(lastTouch := if i < n then clock else 0)
    requires V.Timed(a'.out, 0) == V.Timed(out, 0)
    ensures PassDone(a1, a', seq(n, i => i), n, 0, clock, true, interval)
  {
    var at := seq(n, k => k);
    forall i: nat
      ensures i in at <==> i < n
    {
      FirstPositions(n, i);
    }
    assert V.Timed(a1.out, 0) == V.Timed(out, 0);
    if a'.live {
      forall i | 0 <= i < |out|
        ensures a'.out[i] == if i in at then a1.out[i].(lastTouch := clock) else a1.out[i]
      {
      }
    }
  }

  /** The sender's side of a new connection. */
  ghost function Renewed(a: SenderSide): SenderSide {
    SenderSide(V.Timed(a.out, 0), a.msgID, true, [], 0)
  }

  ghost function Emptied(b: ReceiverSide): ReceiverSide {
    b.(sent := [], taken := 0)
  }

  ghost predicate OutOk(out: seq<Msg>) {
    DistinctIds(out) && forall x | x in out :: V.OutboundOk(x)
  }

  /** The connection is gone, and a pass goes over what is in flight on the new one. */
  lemma ReconnectRun(st: Setting, s: System, events: seq<Event>, c: Config, a: SenderSide, a': SenderSide,
                     b: ReceiverSide, content: seq<Stamp>, at: seq<nat>, n: nat, clock: int)
    returns (events': seq<Event>, c': Config)
    requires Runs(st, Begin(s), events, c) && Shown(c, a, b, content) && clock >= c.now && OutOk(a.out)
    requires PassDone(Renewed(a), a', at, n, 0, clock, true, st.interval)
    ensures Runs(st, Begin(s), events', c') && Shown(c', a', Emptied(b), content)
  {
    ReconnectShown(st, c, a, b, content, Renewed(a), clock);
    R.RunsThen(st, Begin(s), events, c, Step(Reconnect, clock));
    TimedOk(a.out);
    var events1, c1 := events + [Step(Reconnect, clock)], AfterEvent(c, Step(Reconnect, clock));
    events', c' := PassShown(st, s, events1, c1, Renewed(a), a', Emptied(b), content, at, n, 0, clock, true);
  }

  lemma TimedOk(out: seq<Msg>)
    requires DistinctIds(out) && forall x | x in out :: V.OutboundOk(x)
    ensures DistinctIds(V.Timed(out, 0)) && forall x | x in V.Timed(out, 0) :: V.OutboundOk(x)
  {
    forall x | x in V.Timed(out, 0)
      ensures V.OutboundOk(x)
    {
      var i :| 0 <= i < |out| && V.Timed(out, 0)[i] == x;
      assert out[i] in out;
    }
  }
}
