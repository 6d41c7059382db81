/**
 Writing packets to non-blocking sockets (src/Socket.c:380-487, 705-801, src/SocketBuffer.c:304-393): a gather write
 that is cut short is saved and continued from the byte where it stopped.
 */
module SocketWriter {
  import opened Bytes

  datatype Written = Wrote(bytes: nat) | WriteBlocked | WriteFailed

  /** A call of writev, and how it ended. */
  datatype WriteCall = WriteCall(socket: int, offered: seq<Byte>, result: Written)

  /** The sockets, as far as writev shows them: the bytes put on each. */
  class Wire {
    var sent: map<int, seq<Byte>>
    ghost var calls: seq<WriteCall>

    constructor (sent: map<int, seq<Byte>>)
      ensures this.sent == sent && calls == []
    {
      this.sent, calls := sent, [];
    }

    /** writev: takes any number of the bytes offered. */
    method Writev(socket: int, iovecs: seq<seq<Byte>>) returns (r: Written)
      requires socket in sent
      modifies this
      ensures calls == old(calls) + [WriteCall(socket, Flatten(iovecs), r)]
      ensures socket in sent && sent == old(sent)[socket := sent[socket]]
      ensures r.Wrote? ==>
                  r.bytes <= |Flatten(iovecs)|
                  && sent[socket] == old(sent[socket]) + Flatten(iovecs)[..r.bytes]
      ensures !r.Wrote? ==> sent[socket] == old(sent[socket])
    {
      var data := Flatten(iovecs);
      if * {
        r := WriteBlocked;
      } else if * {
        r := WriteFailed;
      } else {
        var n: nat :| n <= |data|;
        r := Wrote(n);
        sent := sent[socket := sent[socket] + data[..n]];
      }
      calls := calls + [WriteCall(socket, data, r)];
    }
  }

  /** All that was offered has been taken. */
  ghost predicate TakenWhole(c: WriteCall) {
    match c.result
    case Wrote(n) => n == |c.offered|
    case WriteBlocked => c.offered == []
    case WriteFailed => false
  }

  /** pending_writes */
  datatype PendingWrite = PendingWrite(bytes: nat, total: nat, iovecs: seq<seq<Byte>>)

  /** What of a packet is not yet out. */
  ghost function Rest(pw: PendingWrite): seq<Byte>
    requires pw.bytes <= |Flatten(pw.iovecs)|
  {
    Flatten(pw.iovecs)[pw.bytes..]
  }

  /** A write in progress: some of the packet is still to be written. */
  ghost predicate InProgress(pw: PendingWrite) {
    pw.total == |Flatten(pw.iovecs)| && pw.bytes < pw.total
  }

  /** The bytes on the wire and those still pending are the accepted packets, one after the other. */
  ghost predicate Sound(accepted: seq<seq<Byte>>, sent: seq<Byte>, writes: map<int, PendingWrite>, socket: int) {
    if socket in writes then InProgress(writes[socket]) && sent + Rest(writes[socket]) == Flatten(accepted)
    else sent == Flatten(accepted)
  }

  lemma FlattenNext(bufs: seq<seq<Byte>>, i: int)
    requires 0 <= i < |bufs|
    ensures Flatten(bufs[..i + 1]) == Flatten(bufs[..i]) + bufs[i]
  {
    FlattenConcat(bufs[..i], [bufs[i]]);
    assert bufs[..i] + [bufs[i]] == bufs[..i + 1];
  }

  lemma FlattenPrefix(bufs: seq<seq<Byte>>, i: int)
    requires 0 <= i <= |bufs|
    ensures Flatten(bufs[..i]) <= Flatten(bufs)
  {
    FlattenConcat(bufs[..i], bufs[i..]);
    assert bufs[..i] + bufs[i..] == bufs;
  }

  method TotalLength(buf0: seq<Byte>, buffers: seq<seq<Byte>>) returns (total: nat)
    ensures total == |Flatten([buf0] + buffers)|
  {
    var i := 0;
    total := |buf0|;
    while i < |buffers|
      invariant 0 <= i <= |buffers| && total == |buf0| + |Flatten(buffers[..i])|
    {
      FlattenNext(buffers, i);
      total := total + |buffers[i]|;
      i := i + 1;
    }
    assert buffers[..i] == buffers;
    assert ([buf0] + buffers)[1..] == buffers;
  }

  lemma RestStep(pw: PendingWrite, n: nat, sent: seq<Byte>, all: seq<Byte>)
    requires InProgress(pw) && n <= |Rest(pw)| && sent + Rest(pw) == all
    ensures var pw' := pw.(bytes := pw.bytes + n); pw'.bytes <= pw.total && sent + Rest(pw)[..n] + Rest(pw') == all
    ensures n == |Rest(pw)| ==> sent + Rest(pw)[..n] == all
  {
  }

  lemma PutStep(accepted: seq<seq<Byte>>, iovecs: seq<seq<Byte>>, sent: seq<Byte>, n: nat)
    requires sent == Flatten(accepted) && n <= |Flatten(iovecs)|
    ensures sent + Flatten(iovecs)[..n] + Flatten(iovecs)[n..] == Flatten(accepted + [Flatten(iovecs)])
  {
    var packet := Flatten(iovecs);
    FlattenConcat(accepted, [packet]);
    assert Flatten([packet]) == packet && packet == packet[..n] + packet[n..];
  }

  datatype PutResult = PutComplete | PutInterrupted | PutError

  class Writer {
    const wire: Wire
    var writes: map<int, PendingWrite>
    var writePending: seq<int>
    ghost var accepted: map<int, seq<seq<Byte>>>  // the packets taken for each socket
    ghost var broken: set<int>                    // sockets on which a continued write has failed

    ghost predicate Valid()
      reads this, wire
    {
      && accepted.Keys == wire.sent.Keys
      && NoDuplicates(writePending) && (forall s | s in writePending :: s in accepted && s !in broken)
      && forall s | s in accepted && s !in broken ::
           (s in writePending <==> s in writes) && Sound(accepted[s], wire.sent[s], writes, s)
    }

    constructor (wire: Wire)
      requires forall s | s in wire.sent :: wire.sent[s] == []
      ensures Valid() && this.wire == wire && broken == {} && accepted == map s | s in wire.sent :: []
    {
      this.wire := wire;
      writes, writePending, broken := map[], [], {};
      accepted := map s | s in wire.sent :: [];
    }

    /** Whatever has happened, the bytes on an open socket are a prefix of the packets accepted, in order. */
    lemma WirePrefix(s: int)
      requires Valid() && s in accepted && s !in broken
      ensures wire.sent[s] <= Flatten(accepted[s])
      ensures s !in writePending <==> wire.sent[s] == Flatten(accepted[s])
    {
      assert Sound(accepted[s], wire.sent[s], writes, s);
    }

    /** Socket_noPendingWrites */
    predicate NoPendingWrites(socket: int)
      reads this
    {
      socket !in writePending
    }

    /** SocketBuffer_pendingWrite, and the socket joins those with a write pending. */
    method StartPending(socket: int, pw: PendingWrite)
      requires NoPendingWrites(socket) && NoDuplicates(writePending)
      modifies `writes, `writePending
      ensures writes == old(writes)[socket := pw] && NoDuplicates(writePending)
      ensures writePending == old(writePending) + [socket]
      ensures forall s :: s in writePending <==> s in old(writePending) || s == socket
    {
      writes := writes[socket := pw];
      writePending := writePending + [socket];
    }

    /** Socket_putdatas: a packet is written, or started, only when nothing else is pending. */
    method PutDatas(socket: int, buf0: seq<Byte>, buffers: seq<seq<Byte>>) returns (rc: PutResult)
      requires Valid() && socket in wire.sent && socket !in broken
      modifies `writes, `writePending, `accepted, wire
      ensures Valid() && broken == old(broken)
      ensures rc == PutError ==> accepted == old(accepted) && wire.sent == old(wire.sent) && writes == old(writes)
      ensures rc != PutError ==> old(NoPendingWrites(socket))
      ensures rc != PutError ==> accepted == old(accepted)[socket := old(accepted[socket])
                + [Flatten([buf0] + buffers)]]
      ensures rc == PutComplete ==> wire.sent[socket] == Flatten(accepted[socket]) && NoPendingWrites(socket)
      ensures writePending == old(writePending) + if rc == PutInterrupted then [socket] else []
      ensures socket in wire.sent && wire.sent == old(wire.sent)[socket := wire.sent[socket]]
      ensures !old(NoPendingWrites(socket)) ==> rc == PutError && wire.calls == old(wire.calls)
      ensures old(NoPendingWrites(socket)) ==>
                && |wire.calls| == |old(wire.calls)| + 1 && wire.calls[..|old(wire.calls)|] == old(wire.calls)
                && var c := wire.calls[|old(wire.calls)|];
                && c.socket == socket && c.offered == Flatten([buf0] + buffers)
                && (rc == PutError <==> c.result.WriteFailed?) && (rc == PutComplete <==> TakenWhole(c))
    {
      if !NoPendingWrites(socket) {
        return PutError;
      }
      var iovecs := [buf0] + buffers;
      var total := TotalLength(buf0, buffers);
      ghost var before, packets := wire.sent[socket], accepted[socket];
      assert before + [] == before;
      var r := wire.Writev(socket, iovecs);
      if r.WriteFailed? {
        return PutError;
      }
      var bytes := if r.Wrote? then r.bytes else 0;
      PutStep(packets, iovecs, before, bytes);
      accepted := accepted[socket := packets + [Flatten(iovecs)]];
      if bytes == total {
        rc := PutComplete;
      } else {
        StartPending(socket, PendingWrite(bytes, total, iovecs));
        rc := PutInterrupted;
      }
    }

    /** Socket_continueWrite: offers the rest of the packet, or the rest of the buffer it stopped in, from the byte it
        stopped at. 1 = the whole packet is out, 0 = not yet, -1 = error. */
    method ContinueWrite(socket: int) returns (rc: int, ghost offered: seq<Byte>, ghost bytes: nat)
      requires Valid() && socket in writePending && socket !in broken
      modifies `writes, wire
      ensures accepted == old(accepted) && broken == old(broken) && writePending == old(writePending)
              && writes.Keys == old(writes).Keys
      ensures offered != [] && offered <= Rest(old(writes)[socket])
      ensures bytes <= |offered| && wire.sent == old(wire.sent)[socket := old(wire.sent[socket]) + offered[..bytes]]
      ensures writes == old(writes)[socket := old(writes)[socket].(bytes := old(writes)[socket].bytes + bytes)]
      ensures -1 <= rc <= 1 && (rc == 0 ==> Valid())
      ensures rc != -1 ==> (rc == 1 <==> bytes == |Rest(old(writes)[socket])|)
      ensures rc == 1 ==> wire.sent[socket] == Flatten(accepted[socket])
      ensures exists r ::
                && wire.calls == old(wire.calls) + [WriteCall(socket, offered, r)]
                && (rc == -1 <==> r.WriteFailed?)
    {
      assert Sound(accepted[socket], wire.sent[socket], writes, socket);
      var pw := writes[socket];
      var iovecs1 := Unwritten(pw);
      offered := Flatten(iovecs1);
      ghost var before := wire.sent[socket];
      var r := wire.Writev(socket, iovecs1);
      bytes := 0;
      assert before + [] == before;
      if r.WriteFailed? {
        rc := -1;
        assert before + offered[..0] == before;
      } else {
        var n := if r.Wrote? then r.bytes else 0;
        bytes := n;
        writes := writes[socket := pw.(bytes := pw.bytes + n)];
        rc := if pw.bytes + n == pw.total then 1 else 0;
        assert offered[..n] == Rest(pw)[..n];
        RestStep(pw, n, before, Flatten(accepted[socket]));
      }
    }

    /** A write is over, by completion or by failure: SocketBuffer_writeComplete, and the socket leaves the list. */
    method EndWrite(k: nat, failed: bool)
      requires k < |writePending| && NoDuplicates(writePending)
      modifies `writes, `writePending, `broken
      ensures writes == old(writes) - {old(writePending)[k]} && NoDuplicates(writePending)
      ensures broken == old(broken) + if failed then {old(writePending)[k]} else {}
      ensures writePending == old(writePending)[..k] + old(writePending)[k + 1..]
      ensures forall s :: s in writePending <==> s in old(writePending) && s != old(writePending)[k]
    {
      var socket := writePending[k];
      broken := broken + if failed then {socket} else {};
      writes := writes - {socket};
      writePending := writePending[..k] + writePending[k + 1..];
    }

    /** The body of the loop of Socket_continueWrites: a pending socket that is ready is offered the rest of its packet;
        a write that is over leaves the list. */
    method ContinueOne(k: nat, ready: set<int>) returns (over: bool)
      requires Valid() && k < |writePending|
      modifies `writes, `writePending, `broken, wire
      ensures Valid() && accepted == old(accepted)
      ensures forall s | s in accepted && s != old(writePending)[k] :: wire.sent[s] == old(wire.sent[s])
      ensures old(writePending)[k] !in ready ==>
                !over && wire.calls == old(wire.calls) && wire.sent == old(wire.sent) && broken == old(broken)
      ensures old(writePending)[k] in ready ==>
                exists c: WriteCall ::
                  && wire.calls == old(wire.calls) + [c] && c.socket == old(writePending)[k]
                  && (c.result.WriteFailed? ==> over)
                  && broken == old(broken) + if c.result.WriteFailed? then {c.socket} else {}
      ensures |writePending| == |old(writePending)| - if over then 1 else 0
      ensures if over then forall s :: s in writePending <==> s in old(writePending) && s != old(writePending)[k]
              else writePending == old(writePending)
    {
      var socket := writePending[k];
      var rc := 0;
      if socket in ready {
        var c, _, _ := ContinueWrite(socket);
        rc := c;
      }
      over := rc != 0;
      if over {
        EndWrite(k, rc == -1);
      }
    }

    /** Socket_continueWrites: walks the pending sockets that are ready, and drops those that are finished. After a
        removal the walk goes on from the list's `current` element, which may be any element or none. */
    method ContinueWrites(ready: set<int>) returns (finished: seq<int>)
      requires Valid()
      modifies `writes, `writePending, `broken, wire
      ensures Valid() && accepted == old(accepted)
      ensures forall s | s in finished :: s in ready && s in old(writePending)
      ensures forall s :: s in writePending <==> s in old(writePending) && s !in finished
      ensures forall s | s in finished && s !in broken :: wire.sent[s] == Flatten(accepted[s])
      ensures forall s | s in accepted && s !in ready :: wire.sent[s] == old(wire.sent[s])
      ensures forall i | FirstReady(old(writePending), ready, i) ::
                |wire.calls| > |old(wire.calls)| && wire.calls[|old(wire.calls)|].socket == old(writePending)[i]
      ensures Walked(old(writePending), ready, old(wire.calls), wire.calls, old(broken), broken, finished)
    {
      ghost var was, calls0 := writePending, wire.calls;
      finished := [];
      var curpending := 0;
      while curpending < |writePending|
        invariant 0 <= curpending
        invariant Valid() && accepted == old(accepted)
        invariant forall s | s in finished :: s in ready && s in old(writePending)
        invariant forall s :: s in writePending <==> s in old(writePending) && s !in finished
        invariant forall s | s in accepted && s !in ready :: wire.sent[s] == old(wire.sent[s])
        invariant Walked(was, ready, calls0, wire.calls, old(broken), broken, finished)
        invariant wire.calls == calls0 ==> writePending == was && forall j | 0 <= j < curpending && j < |was| ::
                                             was[j] !in ready
        decreases |writePending|, |writePending| - curpending
      {
        var socket := writePending[curpending];
        ghost var calls, before := wire.calls, broken;
        var over := ContinueOne(curpending, ready);
        if socket in ready {
          WalkedNext(was, ready, calls0, calls, old(broken), before, finished, wire.calls[|calls|], over, curpending);
        }
        if over {
          finished := finished + [socket];
          curpending :| 0 <= curpending <= |writePending|;
        } else {
          curpending := curpending + 1;
        }
      }
      forall s | s in finished && s !in broken
        ensures wire.sent[s] == Flatten(accepted[s])
      {
        WirePrefix(s);
      }
    }
  }

  /** At i stands the first of these sockets that is ready. */
  ghost predicate FirstReady(sockets: seq<int>, ready: set<int>, i: int) {
    0 <= i < |sockets| && sockets[i] in ready && forall j | 0 <= j < i :: sockets[j] !in ready
  }

  /** What a walk over the pending sockets may do: it begins with the first ready one and offers only what is pending on
      ready ones; a socket breaks by a failed writev, and then its write is over. */
  ghost predicate Walked(was: seq<int>, ready: set<int>, calls0: seq<WriteCall>, calls: seq<WriteCall>,
                         broken0: set<int>, broken: set<int>, finished: seq<int>) {
    && calls0 <= calls
    && (|calls| > |calls0| ==> exists i :: FirstReady(was, ready, i) && was[i] == calls[|calls0|].socket)
    && (forall k | |calls0| <= k < |calls| ::
          && calls[k].socket in ready && calls[k].socket in was
          && (calls[k].result.WriteFailed? ==> calls[k].socket in finished && calls[k].socket in broken))
    && forall s | s in broken :: s in broken0 || exists k | |calls0| <= k < |calls| :: FailedAt(calls[k], s)
  }

  ghost predicate FailedAt(c: WriteCall, socket: int) {
    c.socket == socket && c.result.WriteFailed?
  }

  lemma WalkedNext(was: seq<int>, ready: set<int>, calls0: seq<WriteCall>, calls: seq<WriteCall>, broken0: set<int>,
                   broken: set<int>, finished: seq<int>, c: WriteCall, ended: bool, i: int)
    requires Walked(was, ready, calls0, calls, broken0, broken, finished)
    requires c.socket in ready && c.socket in was && (c.result.WriteFailed? ==> ended)
    requires calls == calls0 ==> FirstReady(was, ready, i) && was[i] == c.socket
    ensures Walked(was, ready, calls0, calls + [c], broken0,
                   broken + (if c.result.WriteFailed? then {c.socket} else {}),
                   if ended then finished + [c.socket] else finished)
  {
    var calls', broken' := calls + [c], broken + if c.result.WriteFailed? then {c.socket} else {};
    forall s | s in broken'
      ensures s in broken0 || exists k | |calls0| <= k < |calls'| :: FailedAt(calls'[k], s)
    {
      if s in broken && s !in broken0 {
        var k :| |calls0| <= k < |calls| && FailedAt(calls[k], s);
        assert FailedAt(calls'[k], s);
      } else if s !in broken {
        assert FailedAt(calls'[|calls|], s);
      }
    }
  }

  ghost predicate NoDuplicates(s: seq<int>) {
    forall i, j | 0 <= i < j < |s| :: s[i] != s[j]
  }

  /** So many bytes are some of the buffers, whole. */
  ghost predicate IsBoundary(pw: PendingWrite, bytes: nat) {
    exists j | 0 <= j <= |pw.iovecs| :: bytes == |Flatten(pw.iovecs[..j])|
  }

  lemma NoBoundaryWithin(pw: PendingWrite, i: int)
    requires 0 <= i < |pw.iovecs| && |Flatten(pw.iovecs[..i])| < pw.bytes < |Flatten(pw.iovecs[..i + 1])|
    ensures !IsBoundary(pw, pw.bytes)
  {
    forall j | 0 <= j <= |pw.iovecs|
      ensures pw.bytes != |Flatten(pw.iovecs[..j])|
    {
      if j <= i {
        FlattenPrefix(pw.iovecs[..i], j);
        assert pw.iovecs[..i][..j] == pw.iovecs[..j];
      } else {
        FlattenPrefix(pw.iovecs[..j], i + 1);
        assert pw.iovecs[..j][..i + 1] == pw.iovecs[..i + 1];
      }
    }
  }

  /** The loop that builds the gather list of a continued write: whole buffers, or the rest of one. */
  method Unwritten(pw: PendingWrite) returns (iovecs1: seq<seq<Byte>>)
    requires InProgress(pw)
    ensures Flatten(iovecs1) != [] && Flatten(iovecs1) <= Rest(pw)
    ensures IsBoundary(pw, pw.bytes + |Flatten(iovecs1)|)
    ensures IsBoundary(pw, pw.bytes) ==> Flatten(iovecs1) == Rest(pw)
  {
    var curbuflen, i := 0, 0;
    iovecs1 := [];
    while i < |pw.iovecs|
      invariant 0 <= i <= |pw.iovecs| && curbuflen == |Flatten(pw.iovecs[..i])|
      invariant if pw.bytes <= curbuflen then Flatten(iovecs1) == Flatten(pw.iovecs[..i])[pw.bytes..] else iovecs1 == []
    {
      FlattenNext(pw.iovecs, i);
      if pw.bytes <= curbuflen {
        WholeBuffer(pw, i, iovecs1);
        iovecs1 := iovecs1 + [pw.iovecs[i]];
      } else if pw.bytes < curbuflen + |pw.iovecs[i]| {
        PartOfBuffer(pw, i);
        return [pw.iovecs[i][pw.bytes - curbuflen..]];
      }
      curbuflen := curbuflen + |pw.iovecs[i]|;
      i := i + 1;
    }
    assert pw.iovecs[..i] == pw.iovecs;
  }

  lemma WholeBuffer(pw: PendingWrite, i: int, iovecs1: seq<seq<Byte>>)
    requires 0 <= i < |pw.iovecs| && pw.bytes <= |Flatten(pw.iovecs[..i])|
    requires Flatten(iovecs1) == Flatten(pw.iovecs[..i])[pw.bytes..]
    ensures pw.bytes <= |Flatten(pw.iovecs[..i + 1])|
            && Flatten(iovecs1 + [pw.iovecs[i]]) == Flatten(pw.iovecs[..i + 1])[pw.bytes..]
  {
    FlattenNext(pw.iovecs, i);
    FlattenConcat(iovecs1, [pw.iovecs[i]]);
    assert Flatten([pw.iovecs[i]]) == pw.iovecs[i];
  }

  lemma PartOfBuffer(pw: PendingWrite, i: int)
    requires InProgress(pw) && 0 <= i < |pw.iovecs|
    requires |Flatten(pw.iovecs[..i])| < pw.bytes < |Flatten(pw.iovecs[..i])| + |pw.iovecs[i]|
    ensures var part := pw.iovecs[i][pw.bytes - |Flatten(pw.iovecs[..i])|..];
            && part != [] && Flatten([part]) == part && part <= Rest(pw)
            && IsBoundary(pw, pw.bytes + |part|) && !IsBoundary(pw, pw.bytes)
  {
    var part := pw.iovecs[i][pw.bytes - |Flatten(pw.iovecs[..i])|..];
    FlattenNext(pw.iovecs, i);
    FlattenPrefix(pw.iovecs, i + 1);
    NoBoundaryWithin(pw, i);
    assert Flatten(pw.iovecs[..i + 1])[pw.bytes..] == part;
    assert pw.bytes + |part| == |Flatten(pw.iovecs[..i + 1])|;
  }
}
