/**
 Keep-alive pings (src/MQTTProtocolClient.c:504-546, src/MQTTProtocolOut.c:133-150, src/MQTTPacket.c:159-160), times in
 seconds.
 */
module Keepalive {

  datatype Link = Link(connected: bool, interval: int, lastSent: int, lastReceived: int, pingOutstanding: bool)

  datatype Action = NoAction | PingSent | ClosedPingFailed | ClosedUnanswered

  /** What happens to a connection: a call of keepalive, a packet in, a PINGRESP in (also a packet), a packet out. */
  datatype Event =
    | Tick(now: int, noPendingWrites: bool, pingTaken: bool)
    | Received(now: int)
    | Pingresp(now: int)
    | Sent(now: int)

  predicate Overdue(l: Link, now: int) {
    l.connected && l.interval > 0 && (now - l.lastSent >= l.interval || now - l.lastReceived >= l.interval)
  }

  /** The decision of MQTTProtocol_keepalive for one client. */
  function Decide(l: Link, now: int, noPendingWrites: bool, pingTaken: bool): Action {
    if !Overdue(l, now) then NoAction
    else if l.pingOutstanding then ClosedUnanswered
    else if !noPendingWrites then NoAction
    else if pingTaken then PingSent
    else ClosedPingFailed
  }

  function ActionOf(l: Link, e: Event): Action {
    if e.Tick? then Decide(l, e.now, e.noPendingWrites, e.pingTaken) else NoAction
  }

  function After(l: Link, e: Event): Link {
    match e
    case Tick(now, _, _) =>
      (match ActionOf(l, e)
       case NoAction => l
       case PingSent => l.(lastSent := now, pingOutstanding := true)
       case _ => l.(connected := false, pingOutstanding := false))
    case Received(now) => l.(lastReceived := now)
    case Pingresp(now) => l.(lastReceived := now, pingOutstanding := false)
    case Sent(now) => l.(lastSent := now)
  }

  class Connection {
    var link: Link
    var noPendingWrites: bool
    ghost var pings: seq<bool>    // the PINGREQs offered to the socket, and whether it took them

    /** MQTTPacket_send_pingreq: taken by the socket, or not. */
    method SendPingreq() returns (taken: bool)
      modifies this`pings
      ensures pings == old(pings) + [taken]
    {
      taken := *;
      pings := pings + [taken];
    }

    /** The body of the loop in MQTTProtocol_keepalive: when something has been silent for the interval, a PINGREQ is
        offered to a socket that is free, unless one is unanswered; that, or a PINGREQ not taken, closes the session. */
    method Keepalive(now: int) returns (ghost pingTaken: bool)
      modifies this`link, this`pings
      ensures link == After(old(link), Tick(now, noPendingWrites, pingTaken))
      ensures var l := old(link);
              var due := l.connected && l.interval > 0
                         && (now - l.lastSent >= l.interval || now - l.lastReceived >= l.interval);
              && pings == old(pings) + (if due && !l.pingOutstanding && noPendingWrites then [pingTaken] else [])
              && link == if due && l.pingOutstanding then l.(connected := false, pingOutstanding := false)
                         else if !due || !noPendingWrites then l
                         else if pingTaken then l.(lastSent := now, pingOutstanding := true)
                         else l.(connected := false, pingOutstanding := false)
    {
      pingTaken := false;
      if link.connected && link.interval > 0
        && (now - link.lastSent >= link.interval || now - link.lastReceived >= link.interval) {
        if !link.pingOutstanding {
          if noPendingWrites {
            var taken := SendPingreq();
            pingTaken := taken;
            if !taken {
              CloseSession();
            } else {
              link := link.(lastSent := now, pingOutstanding := true);
            }
          }
        } else {
          CloseSession();
        }
      }
    }

    /** MQTTProtocol_closeSession, as far as the link goes */
    method CloseSession()
      modifies this`link
      ensures link == old(link).(connected := false, pingOutstanding := false)
    {
      link := link.(connected := false, pingOutstanding := false);
    }
  }

  // ---------- Runs ----------

  function AfterAll(l: Link, es: seq<Event>): Link {
    if es == [] then l else After(AfterAll(l, es[..|es| - 1]), es[|es| - 1])
  }

  /** What the n-th event of a run from l does. */
  function ActionAt(l: Link, es: seq<Event>, n: int): Action
    requires 0 <= n < |es|
  {
    ActionOf(AfterAll(l, es[..n]), es[n])
  }

  /** Before event n there is a PINGREQ, at event i, that no PINGRESP has answered. */
  ghost predicate UnansweredAt(l: Link, es: seq<Event>, n: int, i: int) {
    && 0 <= i < n <= |es| && ActionAt(l, es, i) == PingSent
    && forall j | i < j < n :: !es[j].Pingresp? && ActionAt(l, es, j) != PingSent
  }

  /** The flag tells exactly whether a PINGREQ is waiting for its PINGRESP. */
  lemma {:induction false} FlagMeansUnanswered(l: Link, es: seq<Event>, n: int)
    requires 0 <= n <= |es| && !l.pingOutstanding
    ensures AfterAll(l, es[..n]).pingOutstanding ==> exists i :: UnansweredAt(l, es, n, i)
  {
    if n > 0 && AfterAll(l, es[..n]).pingOutstanding {
      assert es[..n][..n - 1] == es[..n - 1];
      var before, e := AfterAll(l, es[..n - 1]), es[n - 1];
      FlagMeansUnanswered(l, es, n - 1);
      if before.pingOutstanding {
        var i :| UnansweredAt(l, es, n - 1, i);
        assert ActionAt(l, es, n - 1) != PingSent;
        assert UnansweredAt(l, es, n, i);
      } else {
        assert UnansweredAt(l, es, n, n - 1);
      }
    }
  }

  /** A connection is closed by a PINGREQ that could not be sent, or by one that was not answered. */
  lemma ClosedForAReason(l: Link, es: seq<Event>, n: int)
    requires 0 <= n < |es| && !l.pingOutstanding
    requires AfterAll(l, es[..n]).connected && !AfterAll(l, es[..n + 1]).connected
    ensures es[n].Tick?
    ensures (ActionAt(l, es, n) == ClosedPingFailed && !es[n].pingTaken) || exists i :: UnansweredAt(l, es, n, i)
  {
    assert es[..n + 1][..n] == es[..n];
    FlagMeansUnanswered(l, es, n);
  }

  /** While a PINGREQ is unanswered no other is sent. */
  lemma NoSecondPing(l: Link, es: seq<Event>, n: int, i: int)
    requires 0 <= n < |es| && UnansweredAt(l, es, n, i) && AfterAll(l, es[..n]).connected
    ensures ActionAt(l, es, n) != PingSent
  {
    StillOutstanding(l, es, n, i);
  }

  lemma {:induction false} StillOutstanding(l: Link, es: seq<Event>, n: int, i: int)
    requires UnansweredAt(l, es, n, i)
    ensures AfterAll(l, es[..n]).pingOutstanding || !AfterAll(l, es[..n]).connected
    decreases n
  {
    assert es[..n][..n - 1] == es[..n - 1];
    if i < n - 1 {
      assert UnansweredAt(l, es, n - 1, i);
      StillOutstanding(l, es, n - 1, i);
    }
  }

  // ---------- Neither too early nor too late ----------

  function Time(e: Event): int {
    e.now
  }

  ghost predicate InOrder(es: seq<Event>) {
    forall i, j | 0 <= i < j < |es| :: Time(es[i]) <= Time(es[j])
  }

  /** Once something has been sent, or received, the link remembers a time no earlier than that. */
  lemma {:induction false} Remembered(l: Link, es: seq<Event>, n: int, i: int)
    requires InOrder(es) && 0 <= i < n <= |es|
    ensures es[i].Sent? || ActionAt(l, es, i) == PingSent ==> AfterAll(l, es[..n]).lastSent >= Time(es[i])
    ensures es[i].Received? || es[i].Pingresp? ==> AfterAll(l, es[..n]).lastReceived >= Time(es[i])
    ensures AfterAll(l, es[..n]).interval == l.interval
    decreases n
  {
    assert es[..n][..n - 1] == es[..n - 1];
    if i < n - 1 {
      Remembered(l, es, n - 1, i);
    } else {
      SameInterval(l, es[..n - 1]);
    }
  }

  lemma {:induction false} SameInterval(l: Link, es: seq<Event>)
    ensures AfterAll(l, es).interval == l.interval
  {
    if es != [] {
      SameInterval(l, es[..|es| - 1]);
    }
  }

  /** No PINGREQ and no close while something has been sent, and something has come in, less than an interval ago. */
  lemma NotTooEarly(l: Link, es: seq<Event>, n: int, i: int, j: int)
    requires InOrder(es) && 0 <= i < n < |es| && 0 <= j < n
    requires es[i].Sent? || ActionAt(l, es, i) == PingSent
    requires es[j].Received? || es[j].Pingresp?
    requires Time(es[n]) - Time(es[i]) < l.interval && Time(es[n]) - Time(es[j]) < l.interval
    ensures ActionAt(l, es, n) == NoAction
    ensures AfterAll(l, es[..n + 1]).connected == AfterAll(l, es[..n]).connected
  {
    assert es[..n + 1][..n] == es[..n];
    Remembered(l, es, n, i);
    Remembered(l, es, n, j);
  }

  /** The client sends nothing but PINGREQs, whatever comes in, and no write is pending when keepalive runs. */
  ghost predicate SendsNothing(es: seq<Event>) {
    forall i | 0 <= i < |es| :: !es[i].Sent? && (es[i].Tick? ==> es[i].noPendingWrites)
  }

  /** Keepalive has sent a PINGREQ or closed the session. */
  ghost predicate HasActed(l: Link, es: seq<Event>) {
    exists i | 0 <= i < |es| :: ActionAt(l, es, i) != NoAction
  }

  lemma {:induction false} IdleUntil(l: Link, es: seq<Event>, last: int, s: int)
    requires l.connected && l.interval > 0 && l.lastSent <= s && last < s + l.interval && SendsNothing(es)
    ensures HasActed(l, es) || (LastTick(es, last) < s + l.interval
              && AfterAll(l, es) == l.(lastReceived := AfterAll(l, es).lastReceived,
                                       pingOutstanding := AfterAll(l, es).pingOutstanding))
  {
    if es != [] {
      var n, before := |es| - 1, es[..|es| - 1];
      IdleUntil(l, before, last, s);
      if HasActed(l, before) {
        var i :| 0 <= i < |before| && ActionAt(l, before, i) != NoAction;
        assert before[..i] == es[..i] && ActionAt(l, es, i) != NoAction;
      } else {
        assert es[n].Sent? || ActionAt(l, es, n) == ActionOf(AfterAll(l, before), es[n]);
      }
    }
  }

  /** A client that has sent nothing since s has sent a PINGREQ, or its session is closed, by s + K + T, even while
      packets come in, if keepalive has last run at most T ago. */
  lemma IdleClientPings(l: Link, es: seq<Event>, last: int, s: int, T: int, now: int)
    requires l.connected && l.interval > 0 && l.lastSent <= s && last < s + l.interval && SendsNothing(es)
    requires now - LastTick(es, last) <= T && now >= s + l.interval + T
    ensures HasActed(l, es)
  {
    IdleUntil(l, es, last, s);
  }

  // ---------- A silent peer ----------

  /** Nothing comes in, no write is pending when keepalive runs, and it runs at most T seconds after the time before. */
  ghost predicate Silent(es: seq<Event>, last: int, T: int) {
    es != [] ==>
      && Silent(es[..|es| - 1], last, T)
      && match es[|es| - 1]
         case Tick(now, noPendingWrites, _) => noPendingWrites
           && LastTick(es[..|es| - 1], last) <= now <= LastTick(es[..|es| - 1], last) + T
         case Sent(_) => true
         case _ => false
  }

  /** The last time keepalive ran. */
  function LastTick(es: seq<Event>, last: int): int {
    if es == [] then last
    else if es[|es| - 1].Tick? then es[|es| - 1].now
    else LastTick(es[..|es| - 1], last)
  }

  /** While the session is open, keepalive ran last before t + K + T, and if it has run since t + K, the next run closes
      the session. */
  lemma {:induction false} OpenUntil(l: Link, es: seq<Event>, last: int, t: int, T: int)
    requires l.interval > 0 && l.lastReceived <= t && T >= 0 && last < t + l.interval && Silent(es, last, T)
    ensures var l', L := AfterAll(l, es), LastTick(es, last);
            && l'.lastReceived == l.lastReceived && l'.interval == l.interval
            && (l'.connected ==> L < t + l.interval + T)
            && (l'.connected && L >= t + l.interval ==> l'.pingOutstanding)
  {
    if es != [] {
      OpenUntil(l, es[..|es| - 1], last, t, T);
    }
  }

  /** A peer silent since time t has its session closed by t + K + 2T, if keepalive has last run at most T ago. */
  lemma SilentPeerClosed(l: Link, es: seq<Event>, last: int, t: int, T: int, now: int)
    requires l.interval > 0 && l.lastReceived <= t && T >= 0 && last < t + l.interval && Silent(es, last, T)
    requires now - LastTick(es, last) <= T && now >= t + l.interval + 2 * T
    ensures !AfterAll(l, es).connected
  {
    OpenUntil(l, es, last, t, T);
  }
}
