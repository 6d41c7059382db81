/**
 When QoS 1 delivers at least once: the runs of Delivery that a client can produce after a restore, with its rules
 for resends (MQTTProtocol_retries, src/MQTTProtocolClient.c:555-616), ids from MQTTProtocol_assignMsgId (69-89),
 its limit of messages in flight (src/MQTTClient.c:1423, src/MQTTAsync.c:957-958) and the clock.
 A timer resends what is due if the retry interval is positive; a CONNACK, of this client or of any other client of
 the process, makes one pass over the messages that resends them regardless (src/MQTTAsync.c:1433-1442), until a
 write is pending. The ids of the asynchronous client are the subject of AsyncIds.
 */
module Resends {
  import opened AtLeastOnce
  import opened Delivery
  import opened Handshake

  datatype Config = Config(
    sys: System,
    now: int,
    last: int,                // msgID, the last id assigned
    pass: int,                // where the regardless pass has come to, -1 if there is none
    touched: map<int, int>)   // lastTouch of the messages sent on this connection, by id

  /** What a store gives back: messages with different ids, at a stage that the exchange can have reached. */
  ghost predicate Restorable(r: seq<Message<nat>>) {
    && DistinctIds(r)
    && forall m | m in r ::
         && 1 <= m.msgid <= MAX_MSG_ID && (m.qos == 1 || m.qos == 2)
         && (m.qos == 2 ==> m.next == NextPubrec || m.next == NextPubcomp)
  }

  /** The sender has restored these messages; the receiver's session holds any QoS 2 publications. */
  ghost predicate Restored(r: seq<Message<nat>>, s: System) {
    && s == START.(out := r, inb := s.inb, issued := s.issued)
    && (forall m | m in r :: m.publication < s.issued)
    && DistinctIds(s.inb) && forall m | m in s.inb :: m.qos == 2 && m.next == NextPubrel
  }

  /** After a restore no id has been assigned yet, and nothing has been sent. */
  function Begin(s: System): Config {
    Config(s, 0, 0, -1, map[])
  }

  /** OtherConnects: another client of the process gets its CONNACK. */
  datatype Event = Step(move: Move, at: int) | OtherConnects

  function LastTouch(c: Config, id: int): int {
    if id in c.touched then c.touched[id] else 0
  }

  predicate DueAt(c: Config, i: int, at: int, interval: int)
    requires 0 <= i < |c.sys.out|
  {
    at - LastTouch(c, c.sys.out[i].msgid) > if interval > 10 then interval else 10
  }

  /** The timer sends a message again that is due. */
  ghost predicate TimerSends(interval: int, c: Config, i: int, at: int)
    requires 0 <= i < |c.sys.out|
  {
    interval > 0 && DueAt(c, i, at, interval)
  }

  /** limit: how many messages may be in flight; interval: the retry interval; alone: no other client is in the
      process. */
  datatype Setting = Setting(limit: int, interval: int, alone: bool)

  ghost predicate Allowed(st: Setting, c: Config, e: Event) {
    match e
    case OtherConnects => !st.alone
    case Step(move, at) =>
      CanMove(c.sys, move) && at >= c.now
      && match move
         case NewPublication(msgid, _, _) => FirstFree(Ids(c.sys.out), c.last, msgid) && |c.sys.out| < st.limit
         case SendAgain(i, _) => 0 <= c.pass <= i || TimerSends(st.interval, c, i, at)
         case _ => true
  }

  ghost function AfterEvent(c: Config, e: Event): Config
    requires e.Step? ==> CanMove(c.sys, e.move)
  {
    match e
    case OtherConnects => c.(pass := 0)
    case Step(move, at) =>
      var c' := c.(sys := After(c.sys, move), now := at, pass := -1);
      match move
      case NewPublication(msgid, _, _) => c'.(last := msgid, touched := c.touched[msgid := at])
      case DeliverForward(_) => c'
      case DeliverBack(_) =>
        var p := c.sys.back[0];
        if p.Pubrec? && PubrecDue(c.sys.out, p.msgid) then c'.(touched := c.touched[p.msgid := at]) else c'
      case SendAgain(i, _) => c'.(pass := if 0 <= c.pass <= i then i + 1 else -1,
        touched := c.touched[c.sys.out[i].msgid := at])
      case Reconnect => c'.(pass := 0, touched := map[])
  }

  /** The client's run of these events leads from c to d. */
  ghost predicate Runs(st: Setting, c: Config, events: seq<Event>, d: Config)
    decreases |events|
  {
    if events == [] then d == c else Allowed(st, c, events[0]) && Runs(st, AfterEvent(c, events[0]), events[1..], d)
  }

  // ---------- Resends on reconnect only ----------

  /** In a pass after a CONNACK, what has been sent on this connection is behind it. */
  ghost predicate PassOk(c: Config) {
    c.pass >= 0 ==> forall id | id in c.sys.sentNow ::
      exists k | 0 <= k < c.pass && k < |c.sys.out| :: c.sys.out[k].msgid == id
  }

  lemma QuietEvent(st: Setting, c: Config, e: Event)
    requires st.interval <= 0 && st.alone && Inv(c.sys) && PassOk(c) && Allowed(st, c, e)
    ensures Inv(AfterEvent(c, e).sys) && PassOk(AfterEvent(c, e))
  {
    MoveKeeps(c.sys, e.move);
  }

  lemma {:induction false} QuietRuns(st: Setting, c: Config, events: seq<Event>, d: Config)
    requires st.interval <= 0 && st.alone && Inv(c.sys) && PassOk(c) && Runs(st, c, events, d)
    ensures HandedOver(d.sys)
    decreases |events|
  {
    if events != [] {
      QuietEvent(st, c, events[0]);
      QuietRuns(st, AfterEvent(c, events[0]), events[1..], d);
    }
  }

  lemma RestoredQuiet(r: seq<Message<nat>>, s: System)
    requires Restorable(r) && Restored(r, s)
    ensures Inv(s) && PassOk(Begin(s))
  {
    forall id
      ensures AtId(s, id)
    {
    }
  }
}
