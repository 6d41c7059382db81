/**
 Message ids of an asynchronous client (src/MQTTAsync.c:2165-2200).  MQTTAsync_assignMsgId passes over the tokens of the
 commands that wait in the queue or for a response, not over the messages in flight. While each message in flight has
 its response waiting, their ids stay distinct; after a restore they need not.
 */
module AsyncIds {
  import opened Delivery
  import opened Handshake
  import opened Seqs

  datatype State = State(
    last: int,                  // msgID
    queued: multiset<int>,      // tokens of the client's commands in the queue
    waiting: multiset<int>,     // tokens of its responses
    out: seq<Message<nat>>)     // outboundMsgs

  /** others: the tokens of other clients' commands, which the search passes over too. */
  datatype Step =
    | Assign(id: int, others: set<int>)      // a PUBLISH, SUBSCRIBE or UNSUBSCRIBE command is queued
    | StartPublish(m: Message<nat>)          // a PUBLISH command is dispatched
    | FailPublish(m: Message<nat>)           // the same, and its write fails
    | StartSubscribe(id: int)                // a SUBSCRIBE or UNSUBSCRIBE command is dispatched
    | PubackIn(id: int)
    | PubcompIn(id: int)
    | SubackIn(id: int)                      // or an UNSUBACK
    | Clean

  function Taken(s: State): set<int> {
    (set id | id in s.queued) + (set id | id in s.waiting)
  }

  ghost predicate Enabled(s: State, step: Step) {
    match step
    case Assign(id, others) => id != 0 && FirstFree(Taken(s) + others, s.last, id)
    case StartPublish(m) => m.msgid in s.queued && (m.qos == 1 || m.qos == 2)
    case FailPublish(m) => m.msgid in s.queued && (m.qos == 1 || m.qos == 2)
    case StartSubscribe(id) => id in s.queued
    case _ => true
  }

  /** The response with this token goes, whether a message was taken from the list or not. */
  function After(s: State, step: Step): State {
    match step
    case Assign(id, _) => s.(last := id, queued := s.queued + multiset{id})
    case StartPublish(m) =>
      s.(queued := s.queued - multiset{m.msgid}, waiting := s.waiting + multiset{m.msgid}, out := s.out + [m])
    case FailPublish(m) => s.(queued := s.queued - multiset{m.msgid}, out := s.out + [m])
    case StartSubscribe(id) => s.(queued := s.queued - multiset{id}, waiting := s.waiting + multiset{id})
    case PubackIn(id) => s.(out := OnPuback(s.out, id), waiting := s.waiting - multiset{id})
    case PubcompIn(id) => s.(out := OnPubcomp(s.out, id), waiting := s.waiting - multiset{id})
    case SubackIn(id) => s.(waiting := s.waiting - multiset{id})
    case Clean => State(0, multiset{}, multiset{}, [])
  }

  /** Each id in flight is the token of a response, and no token is given out twice. */
  ghost predicate AllTokens(s: State) {
    && DistinctIds(s.out) && (forall id | IdIn(s.out, id) :: id in s.waiting)
    && forall id :: s.queued[id] + s.waiting[id] <= 1
  }

  /** The write does not fail, and an acknowledgement takes a message with its id from the list, if there is one. */
  ghost predicate Sound(s: State, step: Step) {
    match step
    case FailPublish(_) => false
    case PubackIn(id) => IdIn(s.out, id) ==> s.out[Find(s.out, id)].qos == 1
    case PubcompIn(id) => IdIn(s.out, id) ==> PubcompDue(s.out, id)
    case SubackIn(id) => !IdIn(s.out, id)
    case _ => true
  }

  lemma AppendedIds(ms: seq<Message<nat>>, m: Message<nat>)
    ensures forall id :: IdIn(ms + [m], id) <==> id == m.msgid || IdIn(ms, id)
    ensures DistinctIds(ms) && !IdIn(ms, m.msgid) ==> DistinctIds(ms + [m])
  {
    assert (ms + [m])[|ms|] == m;
    forall id | IdIn(ms, id)
      ensures IdIn(ms + [m], id)
    {
      assert (ms + [m])[Find(ms, id)].msgid == id;
    }
  }

  lemma RemovedIds(ms: seq<Message<nat>>, i: int)
    requires DistinctIds(ms) && 0 <= i < |ms|
    ensures DistinctIds(Without(ms, i)) && forall id :: IdIn(Without(ms, i), id) <==> id != ms[i].msgid && IdIn(ms, id)
  {
    WithoutIds(ms, i);
    forall id | id != ms[i].msgid && IdIn(ms, id)
      ensures IdIn(Without(ms, i), id)
    {
      var k := Find(ms, id);
      assert Without(ms, i)[if k < i then k else k - 1] == ms[k];
    }
  }

  /** Exactly these steps keep each id in flight a token. */
  lemma StepExactly(s: State, step: Step)
    requires AllTokens(s) && Enabled(s, step)
    ensures AllTokens(After(s, step)) <==> Sound(s, step)
  {
    match step
    case StartPublish(m) => AppendedIds(s.out, m);
    case FailPublish(m) => AppendedIds(s.out, m);
    case PubackIn(id) => if IdIn(s.out, id) { RemovedIds(s.out, Find(s.out, id)); }
    case PubcompIn(id) => if IdIn(s.out, id) { RemovedIds(s.out, Find(s.out, id)); }
    case _ =>
  }

  // ---------- Runs ----------

  ghost predicate Runs(s: State, steps: seq<Step>, t: State)
    decreases |steps|
  {
    if steps == [] then t == s else
        Enabled(s, steps[0]) && Sound(s, steps[0])
        && Runs(After(s, steps[0]), steps[1..], t)
  }

  lemma {:induction false} RunKeeps(s: State, steps: seq<Step>, t: State)
    requires AllTokens(s) && Runs(s, steps, t)
    ensures AllTokens(t)
    decreases |steps|
  {
    if steps != [] {
      StepExactly(s, steps[0]);
      RunKeeps(After(s, steps[0]), steps[1..], t);
    }
  }

  lemma {:induction false} RunsThen(s: State, steps: seq<Step>, t: State, step: Step)
    requires Runs(s, steps, t) && Enabled(t, step) && Sound(t, step)
    ensures Runs(s, steps + [step], After(t, step))
    decreases |steps|
  {
    if steps == [] {
      assert ([] + [step])[1..] == [];
    } else {
      assert (steps + [step])[1..] == steps[1..] + [step];
      RunsThen(After(s, steps[0]), steps[1..], t, step);
    }
  }

  /** After a restore there are messages, and neither commands nor responses for them. */
  function Restored(r: seq<Message<nat>>): State {
    State(0, multiset{}, multiset{}, r)
  }

  ghost predicate AlwaysDistinct(r: seq<Message<nat>>) {
    forall steps, t :: Runs(Restored(r), steps, t) ==> DistinctIds(t.out)
  }

  /** The next id is used for one more publication, which is acknowledged. */
  lemma Round(r: seq<Message<nat>>, steps: seq<Step>, n: nat) returns (steps': seq<Step>)
    requires DistinctIds(r) && n < MAX_MSG_ID && !IdIn(r, n + 1) && Runs(Restored(r), steps, Restored(r).(last := n))
    ensures Runs(Restored(r), steps', Restored(r).(last := n + 1))
  {
    var s, m := Restored(r).(last := n), Created(n + 1, 1, false, 0, 0);
    var s1 := s.(last := n + 1, queued := multiset{n + 1});
    var s2 := State(n + 1, multiset{}, multiset{n + 1}, r + [m]);
    NextAssigned(r, n);
    RunsThen(Restored(r), steps, s, Assign(n + 1, {}));
    assert After(s1, StartPublish(m)) == s2;
    RunsThen(Restored(r), steps + [Assign(n + 1, {})], s1, StartPublish(m));
    AcknowledgedNew(r, m);
    RunsThen(Restored(r), steps + [Assign(n + 1, {})] + [StartPublish(m)], s2, PubackIn(n + 1));
    steps' := steps + [Assign(n + 1, {})] + [StartPublish(m)] + [PubackIn(n + 1)];
  }

  lemma NextAssigned(r: seq<Message<nat>>, n: nat)
    requires n < MAX_MSG_ID
    ensures var s := Restored(r).(last := n);
            Enabled(s, Assign(n + 1, {})) && After(s, Assign(n + 1, {})) == s.(last := n + 1, queued := multiset{n + 1})
  {
    assert Tried(n, 1) == n + 1;
    assert Taken(Restored(r).(last := n)) + {} == {};
  }

  lemma AcknowledgedNew(r: seq<Message<nat>>, m: Message<nat>)
    requires DistinctIds(r) && !IdIn(r, m.msgid) && m.qos == 1
    ensures Find(r + [m], m.msgid) == |r| && OnPuback(r + [m], m.msgid) == r
  {
    AppendedIds(r, m);
    GetIs(r + [m], |r|);
  }

  lemma {:induction false} Rounds(r: seq<Message<nat>>, n: nat) returns (steps: seq<Step>)
    requires DistinctIds(r) && n <= MAX_MSG_ID && forall id | 1 <= id <= n :: !IdIn(r, id)
    ensures Runs(Restored(r), steps, Restored(r).(last := n))
  {
    if n == 0 {
      steps := [];
    } else {
      steps := Rounds(r, n - 1);
      steps := Round(r, steps, n - 1);
    }
  }

  /** The id comes up that a restored message has, and is given to another. */
  lemma Collide(r: seq<Message<nat>>, n: nat) returns (steps: seq<Step>, t: State)
    requires DistinctIds(r) && n < MAX_MSG_ID && IdIn(r, n + 1) && forall id | 1 <= id <= n :: !IdIn(r, id)
    ensures Runs(Restored(r), steps, t) && !DistinctIds(t.out)
  {
    var s, m, k := Restored(r).(last := n), Created(n + 1, 1, false, 0, 0), Find(r, n + 1);
    var s1 := s.(last := n + 1, queued := multiset{n + 1});
    steps := Rounds(r, n);
    NextAssigned(r, n);
    RunsThen(Restored(r), steps, s, Assign(n + 1, {}));
    t := After(s1, StartPublish(m));
    RunsThen(Restored(r), steps + [Assign(n + 1, {})], s1, StartPublish(m));
    steps := steps + [Assign(n + 1, {})] + [StartPublish(m)];
    assert t.out[k].msgid == t.out[|r|].msgid && k < |r|;
  }

  lemma {:induction false} Least(r: seq<Message<nat>>, id: int) returns (n: nat)
    requires IdIn(r, id) && 1 <= id <= MAX_MSG_ID
    ensures n < MAX_MSG_ID && IdIn(r, n + 1) && forall j | 1 <= j <= n :: !IdIn(r, j)
    decreases id
  {
    n := id - 1;
    if j :| 1 <= j <= n && IdIn(r, j) {
      n := Least(r, j);
    }
  }

  /** Along all runs of sound steps after a restore the ids in flight stay distinct, exactly if nothing was restored. */
  lemma RestoredExactly(r: seq<Message<nat>>)
    requires DistinctIds(r) && forall m | m in r :: 1 <= m.msgid <= MAX_MSG_ID
    ensures AlwaysDistinct(r) <==> r == []
  {
    if r == [] {
      forall steps, t | Runs(Restored(r), steps, t)
        ensures DistinctIds(t.out)
      {
        RunKeeps(Restored(r), steps, t);
      }
    } else {
      assert r[0] in r;
      var n := Least(r, r[0].msgid);
      var steps, t := Collide(r, n);
      assert !AlwaysDistinct(r);
    }
  }

  /** Right after a restore with id 1 in flight, that id is handed out again, and the new PUBACK removes the restored
      message. */
  lemma RestoredReused(m: Message<nat>, later: Message<nat>)
    requires m.msgid == 1 && m.qos == 1 && later.msgid == 1 && later.qos == 1
    ensures var s := Restored([m]);
            && 1 in Ids(s.out) && FirstFree(Taken(s), s.last, 1)
            && OnPuback(s.out + [later], 1) == [later]
  {
    var s := Restored([m]);
    assert Taken(s) == {} && Tried(0, 1) == 1 && s.out[0] == m;
    assert Find([m] + [later], 1) == 0;
  }
}
