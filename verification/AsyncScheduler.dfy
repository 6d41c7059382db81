/**
 The command queue all asynchronous clients share (src/MQTTAsync.c:733-770, 941-986, 1334-1350).
 Commands of one client are dispatched first come, first served; a client that has to wait does not hold up the others.
 */
module AsyncScheduler {
  import Handshake
  import opened Options
  import opened Seqs

  datatype Kind = Connect | Disconnect(internal: bool) | Publish | Subscribe | Unsubscribe

  datatype Command = Command(client: int, kind: Kind, token: int)

  /** The type field: it does not tell who asked for a disconnect. */
  predicate SameType(a: Kind, b: Kind) {
    a == b || (a.Disconnect? && b.Disconnect?)
  }

  /** What the scheduler looks at in a client. */
  datatype Status = Status(connected: bool, connectState: int, noPendingWrites: bool, inFlight: nat)

  /** The commands that wait their turn. The others, connects and disconnects of the library's own making, go to the
      head of the queue. */
  ghost predicate WaitsTurn(kind: Kind) {
    kind in {Publish, Subscribe, Unsubscribe, Disconnect(false)}
  }

  function Tokens(cs: seq<Command>): set<int> {
    set c | c in cs :: c.token
  }

  /** The command can be dispatched now. */
  predicate Ready(c: Command, status: map<int, Status>)
    requires c.client in status
  {
    var st := status[c.client];
    && (c.kind.Connect? || c.kind.Disconnect? || (st.connected && st.connectState == 0 && st.noPendingWrites))
    && !((c.kind.Publish? || c.kind.Subscribe? || c.kind.Unsubscribe?) && st.inFlight >= Handshake.MAX_MSG_ID - 1)
  }

  /** No earlier command of the same client is waiting. */
  ghost predicate FirstOfClient(cs: seq<Command>, k: int)
    requires 0 <= k < |cs|
  {
    forall j | 0 <= j < k :: cs[j].client != cs[k].client
  }

  ghost predicate Known(cs: seq<Command>, status: map<int, Status>) {
    forall k | 0 <= k < |cs| :: cs[k].client in status
  }

  /** The earliest ready command that is its client's first. */
  ghost predicate Chosen(cs: seq<Command>, status: map<int, Status>, k: int)
    requires Known(cs, status)
  {
    && 0 <= k < |cs| && FirstOfClient(cs, k) && Ready(cs[k], status)
    && forall j | 0 <= j < k && FirstOfClient(cs, j) :: !Ready(cs[j], status)
  }

  /** The ordinary commands of one client, in order. */
  ghost function Ordinary(cs: seq<Command>, client: int): seq<Command> {
    if cs == [] then [] else Ordinary(cs[..|cs| - 1], client) + OrdinaryOne(cs[|cs| - 1], client)
  }

  ghost function OrdinaryOne(c: Command, client: int): seq<Command> {
    if c.client == client && WaitsTurn(c.kind) then [c] else []
  }

  lemma {:induction false} OrdinaryConcat(a: seq<Command>, b: seq<Command>, client: int)
    ensures Ordinary(a + b, client) == Ordinary(a, client) + Ordinary(b, client)
  {
    if b == [] {
      assert a + b == a;
    } else {
      assert (a + b)[..|a + b| - 1] == a + b[..|b| - 1];
      OrdinaryConcat(a, b[..|b| - 1], client);
    }
  }

  lemma {:induction false} NoneOrdinary(cs: seq<Command>, client: int)
    requires forall i | 0 <= i < |cs| :: cs[i].client != client
    ensures Ordinary(cs, client) == []
  {
    if cs != [] {
      NoneOrdinary(cs[..|cs| - 1], client);
    }
  }

  /** The ordinary commands of a client are its publish, subscribe and unsubscribe commands, and the disconnects it
      asked for. */
  lemma {:induction false} OrdinaryAre(cs: seq<Command>, client: int, c: Command)
    ensures c in Ordinary(cs, client) <==>
            c in cs && c.client == client && c.kind in {Publish, Subscribe, Unsubscribe, Disconnect(false)}
  {
    if cs != [] {
      OrdinaryAre(cs[..|cs| - 1], client, c);
      assert cs == cs[..|cs| - 1] + [cs[|cs| - 1]];
    }
  }

  lemma OrdinarySingle(c: Command, client: int)
    ensures Ordinary([c], client) == OrdinaryOne(c, client)
  {
  }

  lemma Associative<T>(a: seq<T>, b: seq<T>, c: seq<T>)
    ensures (a + b) + c == a + (b + c)
  {
  }

  lemma Empty<T>(a: seq<T>)
    ensures a + [] == a && [] + a == a
  {
  }

  /** Taking a client's first command takes the first of its ordinary ones, or none. */
  lemma OrdinaryWithout(cs: seq<Command>, k: int, client: int)
    requires 0 <= k < |cs| && FirstOfClient(cs, k)
    ensures Ordinary(cs, client) == OrdinaryOne(cs[k], client) + Ordinary(Without(cs, k), client)
  {
    var a, c, b := cs[..k], cs[k], cs[k + 1..];
    SplitAt(cs, k);
    OrdinaryConcat(a, [c] + b, client);
    OrdinaryConcat([c], b, client);
    OrdinaryConcat(a, b, client);
    OrdinarySingle(c, client);
    if c.client == client {
      NoneOrdinary(a, client);
    }
    Swap(Ordinary(a, client), OrdinaryOne(c, client), Ordinary(b, client));
  }

  lemma SplitAt(cs: seq<Command>, k: int)
    requires 0 <= k < |cs|
    ensures cs == cs[..k] + ([cs[k]] + cs[k + 1..])
  {
  }

  lemma Swap<T>(a: seq<T>, b: seq<T>, c: seq<T>)
    requires a == [] || b == []
    ensures a + (b + c) == b + (a + c)
  {
  }

  /** A command joins the queue: an ordinary one behind the others, a jumping one in front. */
  lemma AddStep(taken: seq<Command>, done: seq<Command>, queue: seq<Command>, queue': seq<Command>, c: Command,
                client: int)
    requires Ordinary(taken, client) == Ordinary(done, client) + Ordinary(queue, client)
    requires queue' == queue + [c] || (queue' == [c] + queue && !WaitsTurn(c.kind))
    ensures Ordinary(taken + [c], client) == Ordinary(taken, client) + OrdinaryOne(c, client)
    ensures Ordinary(taken + [c], client) == Ordinary(done, client) + Ordinary(queue', client)
  {
    OrdinaryConcat(taken, [c], client);
    OrdinarySingle(c, client);
    var d, q, one := Ordinary(done, client), Ordinary(queue, client), OrdinaryOne(c, client);
    if queue' == queue + [c] {
      OrdinaryConcat(queue, [c], client);
      Associative(d, q, one);
    } else {
      OrdinaryConcat([c], queue, client);
      Empty(q);
      Empty(d + q);
    }
  }

  /** The invariant of the scheduler. */
  ghost predicate Balanced(enqueued: seq<Command>, dispatched: seq<Command>, commands: seq<Command>) {
    forall client :: Ordinary(enqueued, client) == Ordinary(dispatched, client) + Ordinary(commands, client)
  }

  lemma AddAll(taken: seq<Command>, done: seq<Command>, queue: seq<Command>, queue': seq<Command>, c: Command)
    requires Balanced(taken, done, queue) && (queue' == queue + [c] || (queue' == [c] + queue && !WaitsTurn(c.kind)))
    ensures Balanced(taken + [c], done, queue')
    ensures !WaitsTurn(c.kind) ==> forall client :: Ordinary(taken + [c], client) == Ordinary(taken, client)
  {
    forall client
      ensures Ordinary(taken + [c], client) == Ordinary(done, client) + Ordinary(queue', client)
      ensures !WaitsTurn(c.kind) ==> Ordinary(taken + [c], client) == Ordinary(taken, client)
    {
      AddStep(taken, done, queue, queue', c, client);
    }
  }

  /** A client's first command leaves the queue. */
  lemma DispatchStep(taken: seq<Command>, done: seq<Command>, queue: seq<Command>, k: int, client: int)
    requires Ordinary(taken, client) == Ordinary(done, client) + Ordinary(queue, client)
    requires 0 <= k < |queue| && FirstOfClient(queue, k)
    ensures Ordinary(taken, client) == Ordinary(done + [queue[k]], client) + Ordinary(Without(queue, k), client)
  {
    OrdinaryWithout(queue, k, client);
    OrdinaryConcat(done, [queue[k]], client);
    OrdinarySingle(queue[k], client);
    var d, one, rest := Ordinary(done, client), OrdinaryOne(queue[k], client), Ordinary(Without(queue, k), client);
    Associative(d, one, rest);
  }

  class Scheduler {
    var commands: seq<Command>
    ghost var enqueued: seq<Command>    // all commands taken and not cancelled since
    ghost var dispatched: seq<Command>

    /** For each client: the ordinary commands taken are those dispatched, and then those waiting, in that order. */
    ghost predicate Valid()
      reads this
    {
      Balanced(enqueued, dispatched, commands)
    }

    constructor ()
      ensures Valid() && commands == [] && enqueued == [] && dispatched == []
    {
      commands, enqueued, dispatched := [], [], [];
    }

    /** What has been dispatched for a client is the beginning of what was enqueued, in the order of the queue. */
    lemma InOrder(client: int)
      requires Valid()
      ensures Ordinary(dispatched, client) <= Ordinary(enqueued, client)
    {
      assert Ordinary(enqueued, client) == Ordinary(dispatched, client) + Ordinary(commands, client);
    }

    /** MQTTAsync_addCommand: a connect, or an internal disconnect, is dropped only if the head of the queue is a
        connect, or any disconnect, of the same client. */
    method AddCommand(command: Command)
      requires Valid()
      modifies this
      ensures Valid() && dispatched == old(dispatched)
      ensures command.kind in {Publish, Subscribe, Unsubscribe, Disconnect(false)} ==>
                commands == old(commands) + [command] && enqueued == old(enqueued) + [command]
      ensures command.kind == Connect ==>
                commands == if old(commands) != [] && old(commands)[0].client == command.client
                               && old(commands)[0].kind == Connect
                            then old(commands) else [command] + old(commands)
      ensures command.kind == Disconnect(true) ==>
                commands == if old(commands) != [] && old(commands)[0].client == command.client
                               && old(commands)[0].kind in {Disconnect(true), Disconnect(false)}
                            then old(commands) else [command] + old(commands)
      ensures command.kind in {Connect, Disconnect(true)} ==>
                forall client :: Ordinary(enqueued, client) == old(Ordinary(enqueued, client))
    {
      ghost var queue, taken := commands, enqueued;
      if command.kind.Connect? || (command.kind.Disconnect? && command.kind.internal) {
        if commands != [] && commands[0].client == command.client && SameType(commands[0].kind, command.kind) {
          return;
        }
        commands := [command] + commands;
        enqueued := enqueued + [command];
      } else {
        commands := commands + [command];
        enqueued := enqueued + [command];
      }
      AddAll(taken, dispatched, queue, commands, command);
    }

    /** MQTTAsync_assignMsgId: the first id after the last one that no command in the queue, of any client, and no
        command of this client waiting for its response has as token. It is the client's new msgID. */
    method AssignMsgId(responses: seq<Command>, last: int) returns (msgid: int, msgID: int)
      requires 0 <= last <= Handshake.MAX_MSG_ID
      requires last == 0 ==> exists id | 1 <= id <= Handshake.MAX_MSG_ID :: id !in Tokens(commands) + Tokens(responses)
      ensures Handshake.FirstFree(Tokens(commands) + Tokens(responses), last, msgid)
      ensures msgid != 0 ==> Handshake.PassedOver(Tokens(commands) + Tokens(responses), last, msgid)
      ensures msgID == if msgid != 0 then msgid else last
    {
      ghost var taken, k := Tokens(commands) + Tokens(responses), 1;
      msgid := Handshake.NextId(last);
      while msgid in Tokens(commands) || msgid in Tokens(responses)
        invariant 1 <= k <= Handshake.MAX_MSG_ID && msgid == Handshake.Tried(last, k)
                  && 1 <= msgid <= Handshake.MAX_MSG_ID
        invariant msgid != last && forall j | 1 <= j < k :: Handshake.Tried(last, j) in taken
        decreases Handshake.MAX_MSG_ID - k
      {
        msgid := Handshake.NextId(msgid);
        Handshake.TriedNext(last, k);
        k := k + 1;
        if msgid == last {
          Handshake.TriedStart(last, k);
          Handshake.AllTaken(taken, last);
          return 0, last;
        }
        if last == 0 {
          Handshake.FreeAhead(taken, k);
        } else if k <= Handshake.MAX_MSG_ID {
          Handshake.TriedStart(last, k);
        }
      }
      msgID := msgid;
      Handshake.FirstFreePasses(taken, last, msgid);
    }

    /** The selection loop of MQTTAsync_processCommand: position of the command to dispatch, or -1. */
    method Select(status: map<int, Status>) returns (k: int)
      requires Known(commands, status)
      ensures k >= 0 ==> Chosen(commands, status, k)
      ensures k < 0 ==> forall j | 0 <= j < |commands| && FirstOfClient(commands, j) :: !Ready(commands[j], status)
    {
      var ignored: seq<int> := [];
      var i := 0;
      while i < |commands|
        invariant 0 <= i <= |commands|
        invariant forall client :: client in ignored <==> exists j | 0 <= j < i :: commands[j].client == client
        invariant forall j | 0 <= j < i && FirstOfClient(commands, j) :: !Ready(commands[j], status)
      {
        var cmd := commands[i];
        if cmd.client !in ignored {
          var st := status[cmd.client];
          if cmd.kind.Connect? || cmd.kind.Disconnect? || (st.connected && st.connectState == 0 && st.noPendingWrites) {
            if (cmd.kind.Publish? || cmd.kind.Subscribe? || cmd.kind.Unsubscribe?)
              && st.inFlight >= Handshake.MAX_MSG_ID - 1 {
              // no more message ids available
            } else {
              return i;
            }
          }
          ignored := ignored + [cmd.client];
        }
        i := i + 1;
      }
      k := -1;
    }

    /** MQTTAsync_processCommand, up to the dispatch: nothing is chosen only if no client has a ready first command. */
    method ProcessCommand(status: map<int, Status>) returns (command: Option<Command>, ghost k: int)
      requires Valid() && Known(commands, status)
      modifies this
      ensures Valid() && enqueued == old(enqueued)
      ensures command == None ==> commands == old(commands) && dispatched == old(dispatched)
      ensures command == None <==> forall j | 0 <= j < |old(commands)| && FirstOfClient(old(commands), j) ::
                !Ready(old(commands)[j], status)
      ensures command.Some? ==> Chosen(old(commands), status, k) && command.value == old(commands)[k]
                                && commands == Without(old(commands), k)
                                && dispatched == old(dispatched) + [command.value]
      ensures command.Some? && command.value.kind in {Publish, Subscribe, Unsubscribe} ==>
                var st := status[command.value.client];
                st.connected && st.connectState == 0 && st.noPendingWrites && st.inFlight < 65534
      ensures command.Some? ==> 0 <= k < |old(commands)| && forall i | 0 <= i < k :: 
                old(commands)[i].client != command.value.client
      ensures forall j | 0 <= j < (if command.Some? then k else |old(commands)|)
                         && (forall i | 0 <= i < j :: old(commands)[i].client != old(commands)[j].client) ::
                var c := old(commands)[j];
                var st := status[c.client];
                c.kind in {Publish, Subscribe, Unsubscribe}
                && (!st.connected || st.connectState != 0 || !st.noPendingWrites || st.inFlight >= 65534)
    {
      var pos := Select(status);
      k := pos;
      command := None;
      if pos >= 0 {
        ghost var queue, done := commands, dispatched;
        command := Some(commands[pos]);
        commands := Without(commands, pos);
        dispatched := dispatched + [command.value];
        forall client
          ensures Ordinary(enqueued, client) == Ordinary(dispatched, client) + Ordinary(commands, client)
        {
          DispatchStep(enqueued, done, queue, k, client);
        }
      }
    }

    /** The part of MQTTAsync_removeResponsesAndCommands about the queue: a client's commands are cancelled, those of
        the others, at these positions, keep their order. */
    method RemoveCommands(client: int) returns (ghost at: seq<nat>)
      requires Valid()
      modifies this
      ensures Valid() && dispatched == old(dispatched)
      ensures Picked(old(commands), at, commands)
      ensures forall j | 0 <= j < |old(commands)| :: j in at <==> old(commands)[j].client != client
      ensures forall c | c != client ::
                  Ordinary(commands, c) == old(Ordinary(commands, c))
                  && Ordinary(enqueued, c) == old(Ordinary(enqueued, c))
    {
      ghost var taken, queue := enqueued, commands;
      var kept;
      kept, at := KeepOthers(commands, client);
      commands := kept;
      enqueued := dispatched + kept;
      forall c
        ensures Ordinary(enqueued, c) == Ordinary(dispatched, c) + Ordinary(kept, c)
        ensures c != client ==> Ordinary(enqueued, c) == Ordinary(taken, c) && Ordinary(kept, c) == Ordinary(queue, c)
      {
        OrdinaryConcat(dispatched, kept, c);
        assert Ordinary(taken, c) == Ordinary(dispatched, c) + Ordinary(queue, c);
      }
    }
  }

  /** These are the elements at the positions given, in their order. */
  ghost predicate Picked(cs: seq<Command>, at: seq<nat>, picked: seq<Command>) {
    && |picked| == |at| && (forall i, j | 0 <= i < j < |at| :: at[i] < at[j])
    && forall i | 0 <= i < |at| :: at[i] < |cs| && picked[i] == cs[at[i]]
  }

  lemma KeepStep(kept: seq<Command>, seen: seq<Command>, c: Command, kept': seq<Command>, client: int)
    requires Ordinary(kept, client) == Ordinary(seen, client)
    requires kept' == kept + [c] || (kept' == kept && c.client != client)
    ensures Ordinary(kept', client) == Ordinary(seen + [c], client)
  {
    assert (kept + [c])[..|kept|] == kept && (seen + [c])[..|seen|] == seen;
  }

  /** The loop of MQTTAsync_removeResponsesAndCommands over the queue. */
  method KeepOthers(commands: seq<Command>, client: int) returns (kept: seq<Command>, ghost at: seq<nat>)
    ensures Picked(commands, at, kept)
    ensures forall j | 0 <= j < |commands| :: j in at <==> commands[j].client != client
    ensures forall c | c != client :: Ordinary(kept, c) == Ordinary(commands, c)
  {
    kept, at := [], [];
    var i := 0;
    while i < |commands|
      invariant 0 <= i <= |commands| && Picked(commands[..i], at, kept)
      invariant forall j | 0 <= j < i :: j in at <==> commands[j].client != client
      invariant forall c | c != client :: Ordinary(kept, c) == Ordinary(commands[..i], c)
    {
      var cmd := commands[i];
      ghost var before, seen := kept, commands[..i];
      assert commands[..i + 1] == seen + [cmd];
      if cmd.client != client {
        kept := kept + [cmd];
        at := at + [i];
      }
      forall c | c != client
        ensures Ordinary(kept, c) == Ordinary(seen + [cmd], c)
      {
        KeepStep(before, seen, cmd, kept, c);
      }
      i := i + 1;
    }
    assert commands[..i] == commands;
  }
}
