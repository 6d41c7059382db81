/**
 Reading packets from non-blocking sockets (src/Socket.c:285-372, src/SocketBuffer.c:59-293, src/MQTTPacket.c:95-136):
 what a read leaves unfinished is saved, and the header is replayed by the next read of the same socket.
 */
module SocketReader {
  import opened Bytes
  import opened MQTTPacket
  import opened Options
  import opened ReadQueues

  datatype Received = Got(bytes: seq<Byte>) | WouldBlock | Failed

  /** A call of recv, and how it ended. */
  datatype RecvCall = RecvCall(socket: int, asked: nat, result: Received)

  /** The call delivered all that was asked for. */
  predicate Full(c: RecvCall) {
    c.result.Got? && |c.result.bytes| == c.asked
  }

  /** The call blocked, or delivered less than was asked for. */
  predicate Short(c: RecvCall) {
    c.result.WouldBlock? || (c.result.Got? && |c.result.bytes| < c.asked)
  }

  /** The sockets, as far as recv shows them: the bytes each has still to deliver. */
  class Network {
    var incoming: map<int, seq<Byte>>
    ghost var calls: seq<RecvCall>

    constructor (incoming: map<int, seq<Byte>>)
      ensures this.incoming == incoming && calls == []
    {
      this.incoming, calls := incoming, [];
    }

    /** recv: any positive number of the next bytes up to n, or none for now, or an error or the end. */
    method Recv(socket: int, n: nat) returns (r: Received)
      requires socket in incoming && n > 0
      modifies this
      ensures socket in incoming && incoming == old(incoming)[socket := incoming[socket]]
      ensures if r.Got? then 1 <= |r.bytes| <= n && old(incoming[socket]) == r.bytes + incoming[socket]
              else incoming[socket] == old(incoming[socket])
      ensures calls == old(calls) + [RecvCall(socket, n, r)]
    {
      if * {
        r := WouldBlock;
      } else if * {
        r := Failed;
      } else if incoming[socket] == [] {
        r := WouldBlock;
      } else {
        var s := incoming[socket];
        var k: nat :| 1 <= k <= n && k <= |s|;
        r := Got(s[..k]);
        incoming := incoming[socket := s[k..]];
      }
      calls := calls + [RecvCall(socket, n, r)];
    }
  }

  /** How the recvs of a read ended: all in full, or the last one short or failed. */
  datatype Ending = InFull | CutShort | InError

  /** Since calls0 there have been calls on this socket only, and all delivered what they asked for, but for the last
      one as the ending says. */
  ghost predicate Ended(calls0: seq<RecvCall>, calls: seq<RecvCall>, socket: int, how: Ending) {
    && calls0 <= calls && (how != InFull ==> |calls| > |calls0|)
    && (forall k | |calls0| <= k < |calls| :: calls[k].socket == socket)
    && (forall k | |calls0| <= k < |calls| - (if how == InFull then 0 else 1) :: Full(calls[k]))
    && (how == CutShort ==> Short(calls[|calls| - 1])) && (how == InError ==> calls[|calls| - 1].result.Failed?)
  }

  lemma CallsGoOn(calls0: seq<RecvCall>, calls1: seq<RecvCall>, calls: seq<RecvCall>, socket: int, how: Ending)
    requires Ended(calls0, calls1, socket, InFull) && Ended(calls1, calls, socket, how)
    ensures Ended(calls0, calls, socket, how)
  {
  }

  /** How many calls on a socket blocked or came back short. */
  ghost function Shorts(calls: seq<RecvCall>, socket: int): nat {
    if calls == [] then 0
    else
      var c := calls[|calls| - 1];
      Shorts(calls[..|calls| - 1], socket) + if c.socket == socket && Short(c) then 1 else 0
  }

  lemma {:induction false} ShortsFull(calls0: seq<RecvCall>, calls: seq<RecvCall>, socket: int, t: int)
    requires Ended(calls0, calls, socket, InFull)
    ensures Shorts(calls, t) == Shorts(calls0, t)
    decreases |calls|
  {
    if |calls| > |calls0| {
      ShortsFull(calls0, calls[..|calls| - 1], socket, t);
    } else {
      assert calls == calls0;
    }
  }

  lemma ShortsEnd(calls0: seq<RecvCall>, calls: seq<RecvCall>, socket: int, how: Ending, t: int)
    requires Ended(calls0, calls, socket, how)
    ensures Shorts(calls, t) == Shorts(calls0, t) + if t == socket && how == CutShort then 1 else 0
  {
    ShortsFull(calls0, if how == InFull then calls else calls[..|calls| - 1], socket, t);
  }

  ghost predicate Unused(q: Queue) {
    q.socket == 0 && q.index == 0 && q.datalen == 0
  }

  datatype CharRead = Char(c: Byte) | CharInterrupted | CharError

  datatype PacketRead = PacketRead(header: Byte, data: seq<Byte>) | ReadInterrupted | ReadError(badData: bool)

  ghost function CharEnding(rc: CharRead): Ending {
    match rc case Char(_) => InFull case CharInterrupted => CutShort case CharError => InError
  }

  ghost function LengthEnding(rc: LengthRead): Ending {
    match rc
    case LengthIs(_) => InFull
    case LengthInterrupted => CutShort
    case LengthError(badData) => if badData then InFull else InError
  }

  ghost function DataEnding(failed: bool, actualLen: nat, bytes: nat): Ending {
    if failed then InError else if actualLen < bytes then CutShort else InFull
  }

  ghost function ReadEnding(r: PacketRead): Ending {
    match r
    case PacketRead(_, _) => InFull
    case ReadInterrupted => CutShort
    case ReadError(badData) => if badData then InFull else InError
  }

  /** The first packet of the stream, and what comes after it. */
  ghost predicate Parsed(stream: seq<Byte>, header: Byte, data: seq<Byte>, rest: seq<Byte>) {
    var f := ParseFrame(stream);
    f.Frame? && f.header == header && f.data == data && stream[f.used..] == rest
  }

  datatype RawPacket = RawPacket(header: Byte, data: seq<Byte>)

  /** All the packets of a stream, parsed in one go. */
  ghost function ParseAll(stream: seq<Byte>): seq<RawPacket>
    decreases |stream|
  {
    var f := ParseFrame(stream);
    if f.Frame? then [RawPacket(f.header, f.data)] + ParseAll(stream[f.used..]) else []
  }

  /** What is left of a stream behind its packets. */
  ghost function Tail(stream: seq<Byte>): seq<Byte>
    decreases |stream|
  {
    var f := ParseFrame(stream);
    if f.Frame? then Tail(stream[f.used..]) else stream
  }

  /** The packets read so far, and what is held and still to come, make up the stream. */
  ghost predicate InStep(stream: seq<Byte>, packets: seq<RawPacket>, held: seq<Byte>, rest: seq<Byte>) {
    ParseAll(stream) == packets + ParseAll(held + rest) && Tail(stream) == Tail(held + rest)
  }

  lemma Regroup<T>(all: seq<T>, before: seq<T>, p: T, tail: seq<T>)
    requires all == before + ([p] + tail)
    ensures all == (before + [p]) + tail && before + [p] <= all
  {
  }

  lemma InStepPacket(stream: seq<Byte>, before: seq<RawPacket>, pending: seq<Byte>, header: Byte, data: seq<Byte>,
                     rest: seq<Byte>)
    requires ParseAll(stream) == before + ParseAll(pending) && Tail(stream) == Tail(pending)
    requires Parsed(pending, header, data, rest)
    ensures InStep(stream, before + [RawPacket(header, data)], [], rest)
            && before + [RawPacket(header, data)] <= ParseAll(stream)
  {
    Regroup(ParseAll(stream), before, RawPacket(header, data), ParseAll(rest));
    assert [] + rest == rest;
  }

  /** All open sockets are in step with their streams. */
  ghost predicate AllInStep(streams: map<int, seq<Byte>>, packets: map<int, seq<RawPacket>>, closed: set<int>,
                            queues: seq<Queue>, incoming: map<int, seq<Byte>>)
  {
    && incoming.Keys == packets.Keys == streams.Keys
    && (forall s | s in packets :: packets[s] <= ParseAll(streams[s]))
    && forall s | s in packets && s !in closed :: InStep(streams[s], packets[s], Held(queues, s), incoming[s])
  }

  /** How many turns a socket has in a schedule. */
  ghost function Turns(schedule: seq<int>, socket: int): nat {
    if schedule == [] then 0
    else Turns(schedule[..|schedule| - 1], socket) + if schedule[|schedule| - 1] == socket then 1 else 0
  }

  /** A recv has failed since calls0, or the stream ends in something that is no packet. */
  ghost predicate Broken(stream: seq<Byte>, calls0: seq<RecvCall>, calls: seq<RecvCall>, socket: int) {
    || ParseFrame(Tail(stream)) == BadFrame
    || exists k | |calls0| <= k < |calls| :: calls[k].socket == socket && calls[k].result.Failed?
  }

  /** Every turn of an open socket gave a packet, or its recv blocked or came back short; the others are broken. */
  ghost predicate AllAccounted(streams: map<int, seq<Byte>>, packets: map<int, seq<RawPacket>>, closed: set<int>,
                               calls0: seq<RecvCall>, calls: seq<RecvCall>, schedule: seq<int>)
    requires streams.Keys == packets.Keys
  {
    && calls0 <= calls
    && (forall s | s in packets && s !in closed ::
          Turns(schedule, s) == |packets[s]| + Shorts(calls, s) - Shorts(calls0, s))
    && forall s | s in closed :: s in streams && Broken(streams[s], calls0, calls, s)
  }

  lemma StillAccounted(streams: map<int, seq<Byte>>, packets: map<int, seq<RawPacket>>, closed: set<int>,
                       calls0: seq<RecvCall>, calls: seq<RecvCall>, schedule: seq<int>, i: int)
    requires streams.Keys == packets.Keys && 0 <= i < |schedule| && schedule[i] in closed
    requires AllAccounted(streams, packets, closed, calls0, calls, schedule[..i])
    ensures AllAccounted(streams, packets, closed, calls0, calls, schedule[..i + 1])
  {
    assert schedule[..i + 1][..i] == schedule[..i];
  }

  lemma StepAccounted(streams: map<int, seq<Byte>>, packets: map<int, seq<RawPacket>>, closed: set<int>,
                      calls0: seq<RecvCall>, calls: seq<RecvCall>, calls': seq<RecvCall>, schedule: seq<int>, i: int,
                      got: seq<RawPacket>, failed: bool)
    requires streams.Keys == packets.Keys && 0 <= i < |schedule| && schedule[i] in packets && schedule[i] !in closed
    requires AllAccounted(streams, packets, closed, calls0, calls, schedule[..i]) && calls <= calls'
    requires forall t | t != schedule[i] :: Shorts(calls', t) == Shorts(calls, t)
    requires if failed then Broken(streams[schedule[i]], calls, calls', schedule[i])
             else |got| + Shorts(calls', schedule[i]) == Shorts(calls, schedule[i]) + 1
    ensures AllAccounted(streams, packets[schedule[i] := packets[schedule[i]] + got],
                         if failed then closed + {schedule[i]} else closed, calls0, calls', schedule[..i + 1])
  {
    assert schedule[..i + 1][..i] == schedule[..i];
    forall s | s in closed
      ensures Broken(streams[s], calls0, calls', s)
    {
      assert Broken(streams[s], calls0, calls, s);
    }
  }

  lemma StartInStep(streams: map<int, seq<Byte>>, packets: map<int, seq<RawPacket>>)
    requires packets.Keys == streams.Keys && forall s | s in packets :: packets[s] == []
    ensures AllInStep(streams, packets, {}, [], streams)
  {
    forall s | s in packets
      ensures InStep(streams[s], packets[s], Held([], s), streams[s])
    {
      assert Held([], s) + streams[s] == streams[s];
      assert packets[s] + ParseAll(streams[s]) == ParseAll(streams[s]);
    }
  }

  lemma StepInStep(streams: map<int, seq<Byte>>, packets: map<int, seq<RawPacket>>, closed: set<int>,
                   qs: seq<Queue>, incoming: map<int, seq<Byte>>, qs': seq<Queue>, incoming': map<int, seq<Byte>>,
                   socket: int, got: seq<RawPacket>, failed: bool)
    requires AllInStep(streams, packets, closed, qs, incoming) && 0 !in packets && socket in packets
             && socket !in closed
    requires OnlyTouched(socket, qs, qs', incoming, incoming') && packets[socket] + got <= ParseAll(streams[socket])
    requires !failed ==> InStep(streams[socket], packets[socket] + got, Held(qs', socket), incoming'[socket])
    ensures AllInStep(streams, packets[socket := packets[socket] + got], if failed then closed + {socket} else closed,
              qs', incoming')
  {
  }

  lemma BodyPart(hd: seq<Byte>, data: seq<Byte>, rest0: seq<Byte>, part: seq<Byte>, rest: seq<Byte>)
    requires part + rest == data + rest0
    ensures (hd + part) + rest == Pending(hd, data, rest0)
  {
    assert (hd + part) + rest == hd + (part + rest);
    assert hd + data + rest0 == hd + (data + rest0);
  }

  lemma BodyWhole(hd: seq<Byte>, data: seq<Byte>, rest0: seq<Byte>, whole: seq<Byte>, rest: seq<Byte>)
    requires whole + rest == data + rest0 && Announces(hd, |whole|)
    ensures Parsed(Pending(hd, data, rest0), hd[0], whole, rest)
  {
    BodyPart(hd, data, rest0, whole, rest);
    WholePacket(hd, whole, rest);
    assert (hd + whole + rest)[|hd| + |whole|..] == rest;
  }

  datatype LengthRead = LengthIs(value: nat) | LengthInterrupted | LengthError(badData: bool)

  /** Received so far: a partial packet, or a header that is still open. */
  ghost predicate Continuing(hd: seq<Byte>, data: seq<Byte>) {
    Partial(hd, data) || (Open(hd) && data == [])
  }

  /** While the header is open there is no data. */
  lemma NoDataYet(hd: seq<Byte>, data: seq<Byte>)
    requires Continuing(hd, data) && Open(hd) && 1 <= |hd| <= FIXED_HEADER
    ensures data == []
    ensures |hd| < FIXED_HEADER ==> Partial(hd, data)
  {
  }

  /** The header after byte c has been read at position len + 1. */
  ghost predicate Extends(hd: seq<Byte>, hd': seq<Byte>, len: nat, c: Byte) {
    len + 1 <= |hd| && hd' == (if len + 1 < |hd| then hd else hd + [c]) && hd'[len + 1] == c
  }

  lemma ValueStep(hd: seq<Byte>, hd': seq<Byte>, len: nat, c: Byte)
    requires Extends(hd, hd', len, c)
    ensures ValueOf(hd'[1..][..len + 1]) == ValueOf(hd[1..][..len]) + c % 128 * Pow128(len)
    ensures hd'[..len + 1] == hd[..len + 1] && hd'[1..][..len] == hd[1..][..len]
  {
    assert hd'[1..][..len + 1][..len] == hd[1..][..len];
  }

  /** A length byte that is followed by more leaves the header open. */
  lemma DecodeOn(hd: seq<Byte>, hd': seq<Byte>, data: seq<Byte>, len: nat, c: Byte)
    requires Extends(hd, hd', len, c) && |hd| <= FIXED_HEADER && Continuing(hd, data) && Open(hd[..len + 1]) && c >= 128
    ensures Open(hd'[..len + 2]) && Continuing(hd', data)
  {
    assert hd'[..len + 2] == hd[..len + 1] + [c];
    if len + 1 == |hd| {
      assert hd[..len + 1] == hd && hd'[..len + 2] == hd';
      NoDataYet(hd, data);
    }
  }

  /** The last length byte completes it. */
  lemma DecodeEnd(hd: seq<Byte>, hd': seq<Byte>, data: seq<Byte>, len: nat, c: Byte)
    requires Extends(hd, hd', len, c) && len <= 3 && |hd| <= FIXED_HEADER && Continuing(hd, data) && Open(hd[..len + 1])
             && c < 128
    ensures var v := ValueOf(hd[1..][..len]) + c % 128 * Pow128(len);
            Announces(hd', v) && |hd'| == len + 2 && (data != [] ==> |data| < v)
  {
    ValueStep(hd, hd', len, c);
    LengthEnds(hd', len);
    if len + 1 == |hd| {
      assert hd[..len + 1] == hd;
      NoDataYet(hd, data);
    } else {
      assert !Open(hd);
      var n: nat :| Announces(hd, n) && |data| < n;
    }
  }

  /** The decoder after `len` length bytes: it goes on with an open header, or has the whole length. */
  ghost predicate Decoding(hd: seq<Byte>, data: seq<Byte>, len: nat, value: nat, multiplier: nat, more: bool) {
    && len <= 4 && multiplier == Pow128(len) && len + 1 <= |hd| <= FIXED_HEADER
    && if more then Open(hd[..len + 1]) && value == ValueOf(hd[1..][..len]) && Continuing(hd, data)
       else Announces(hd, value) && |hd| == len + 1 && (data != [] ==> |data| < value)
  }

  lemma DecodeStep(hd: seq<Byte>, hd': seq<Byte>, data: seq<Byte>, len: nat, c: Byte, value: nat, multiplier: nat)
    requires Decoding(hd, data, len, value, multiplier, true) && len <= 3 && Extends(hd, hd', len, c)
    ensures Decoding(hd', data, len + 1, value + c % 128 * multiplier, multiplier * 128, c >= 128)
  {
    ValueStep(hd, hd', len, c);
    if c >= 128 {
      DecodeOn(hd, hd', data, len, c);
    } else {
      DecodeEnd(hd, hd', data, len, c);
    }
  }

  lemma TooLong(hd: seq<Byte>, data: seq<Byte>, rest: seq<Byte>, value: nat, multiplier: nat)
    requires Decoding(hd, data, 4, value, multiplier, true)
    ensures ParseFrame(Pending(hd, data, rest)) == BadFrame
  {
    assert hd[..5] == hd;
    NoDataYet(hd, data);
    BadHeader(hd, rest);
    assert hd + data == hd;
  }

  /** What is still to be parsed of a stream: what is held, and what is to come. */
  ghost function Pending(hd: seq<Byte>, data: seq<Byte>, rest: seq<Byte>): seq<Byte> {
    hd + data + rest
  }

  /** Between two reads. */
  ghost predicate Idle(queues: seq<Queue>, defQueue: Queue) {
    Unique(queues) && AllSaved(queues, 0) && Unused(defQueue) && |defQueue.fixedHeader| == FIXED_HEADER
  }

  /** In the middle of reading from a socket: hd and data have been received for it, k bytes of hd read (again). */
  ghost predicate Reading(queues: seq<Queue>, defQueue: Queue, socket: int, hd: seq<Byte>, data: seq<Byte>, k: int) {
    && Unique(queues) && AllSaved(queues, socket) && |defQueue.fixedHeader| == FIXED_HEADER && defQueue.datalen == 0
    && match Lookup(queues, socket)
       case Some(q) => QueueOk(q) && q.index == k && HeaderBytes(q) == hd && DataBytes(q) == data && Unused(defQueue)
       case None => data == [] && |hd| == k
                    && if k == 0 then Unused(defQueue)
                       else
                           defQueue.socket == socket && QueueOk(defQueue) && defQueue.index == k == defQueue.headerlen
                           && HeaderBytes(defQueue) == hd
  }

  /** The queue that reading from a socket works on. */
  ghost function Current(queues: seq<Queue>, defQueue: Queue, socket: int): Queue {
    match Lookup(queues, socket) case Some(q) => q case None => defQueue
  }

  /** The buffer begins with these bytes. */
  ghost predicate Stored(queues: seq<Queue>, defQueue: Queue, socket: int, data: seq<Byte>) {
    data <= Current(queues, defQueue, socket).buf
  }

  /** After an error: the caller has to close the socket. */
  ghost predicate Spoilt(queues: seq<Queue>, defQueue: Queue, socket: int) {
    exists hd, data, k :: Reading(queues, defQueue, socket, hd, data, k)
  }

  lemma StartReading(queues: seq<Queue>, defQueue: Queue, socket: int) returns (hd: seq<Byte>, data: seq<Byte>)
    requires Idle(queues, defQueue) && socket != 0
    ensures Reading(queues, defQueue, socket, hd, data, 0) && Partial(hd, data) && Held(queues, socket) == hd + data
  {
    match Lookup(queues, socket)
    case None =>
      hd, data := [], [];
    case Some(q) =>
      hd, data := HeaderBytes(q), DataBytes(q);
  }

  /** A read of one socket leaves what is held and what is to come for all the others alone. */
  ghost predicate OnlyTouched(socket: int, qs: seq<Queue>, qs': seq<Queue>,
                              incoming: map<int, seq<Byte>>, incoming': map<int, seq<Byte>>) {
    OthersKept(qs, qs', socket) && socket in incoming' && incoming' == incoming[socket := incoming'[socket]]
  }

  lemma OnlyTouchedTrans(socket: int, qs: seq<Queue>, qs1: seq<Queue>, qs2: seq<Queue>,
                         incoming: map<int, seq<Byte>>, incoming1: map<int, seq<Byte>>, incoming2: map<int, seq<Byte>>)
    requires OnlyTouched(socket, qs, qs1, incoming, incoming1) && OnlyTouched(socket, qs1, qs2, incoming1, incoming2)
    ensures OnlyTouched(socket, qs, qs2, incoming, incoming2)
  {
  }

  /** What is held is no complete packet. */
  lemma HeldIncomplete(queues: seq<Queue>, socket: int)
    requires AllSaved(queues, 0) && socket != 0
    ensures ParseAll(Held(queues, socket) + []) == []
  {
    var held := Held(queues, socket);
    assert held + [] == held;
    if Lookup(queues, socket).Some? {
      var q := Lookup(queues, socket).value;
      PartialNeedsMore(HeaderBytes(q), DataBytes(q));
    }
  }

  /** What has come in whole has been read. */
  lemma AllRead(streams: map<int, seq<Byte>>, packets: map<int, seq<RawPacket>>, closed: set<int>, queues: seq<Queue>,
                incoming: map<int, seq<Byte>>)
    requires AllSaved(queues, 0) && 0 !in packets && AllInStep(streams, packets, closed, queues, incoming)
    ensures forall s | s in packets && s !in closed && incoming[s] == [] :: packets[s] == ParseAll(streams[s])
  {
    forall s | s in packets && s !in closed && incoming[s] == []
      ensures packets[s] == ParseAll(streams[s])
    {
      HeldIncomplete(queues, s);
      assert InStep(streams[s], packets[s], Held(queues, s), []);
    }
  }

  class Reader {
    const net: Network
    var defQueue: Queue
    var queues: seq<Queue>

    /** SocketBuffer_initialize */
    constructor (net: Network)
      ensures this.net == net && queues == [] && Idle(queues, defQueue)
    {
      this.net := net;
      defQueue := Queue(0, 0, 0, [0, 0, 0, 0, 0], [], 0);
      queues := [];
    }

    /** SocketBuffer_newDefQ: the header length is left as it comes. */
    method NewDefQ()
      modifies `defQueue
      ensures Unused(defQueue) && |defQueue.fixedHeader| == FIXED_HEADER
    {
      var garbage: int := *;
      defQueue := Queue(0, 0, garbage, [0, 0, 0, 0, 0], [], 0);
    }

    /** SocketBuffer_getQueuedChar */
    method GetQueuedChar(socket: int, ghost hd: seq<Byte>, ghost data: seq<Byte>, ghost k: int)
      returns (rc: Option<Byte>, full: bool)
      requires socket != 0 && Reading(queues, defQueue, socket, hd, data, k) && 0 <= k < FIXED_HEADER
      modifies `queues
      ensures !full && OthersKept(old(queues), queues, socket)
      ensures if k < |hd| then rc == Some(hd[k]) && Reading(queues, defQueue, socket, hd, data, k + 1)
              else rc == None && queues == old(queues)
    {
      var i := Find(queues, socket);
      rc, full := None, false;
      if i >= 0 {
        var queue := queues[i];
        if queue.index < queue.headerlen {
          rc := Some(queue.fixedHeader[queue.index]);
          UpdateKeeps(queues, i, queue.(index := queue.index + 1));
          KeptSaved(queues, queues[i := queue.(index := queue.index + 1)], socket);
          queues := queues[i := queue.(index := queue.index + 1)];
        } else if queue.index > 4 {
          full := true;  // "header is already at full length"
        }
      }
    }

    /** SocketBuffer_queueChar */
    method QueueChar(socket: int, c: Byte, ghost hd: seq<Byte>, ghost k: int)
      requires socket != 0 && Reading(queues, defQueue, socket, hd, [], k) && k == |hd| < FIXED_HEADER
      modifies `queues, `defQueue
      ensures OthersKept(old(queues), queues, socket)
      ensures Reading(queues, defQueue, socket, hd + [c], [], k + 1)
    {
      var i, error := Find(queues, socket), false;
      if i < 0 {
        if defQueue.socket == 0 {
          defQueue := defQueue.(socket := socket, index := 0, datalen := 0);
        } else if defQueue.socket != socket {
          error := true;  // "attempt to reuse socket queue"
        }
      }
      var curq := if i >= 0 then queues[i] else defQueue;
      if curq.index > 4 {
        error := true;  // "socket queue fixed_header field full"
      }
      if !error {
        curq := curq.(fixedHeader := curq.fixedHeader[curq.index := c], index := curq.index + 1,
          headerlen := curq.index + 1);
        if i >= 0 {
          UpdateKeeps(queues, i, curq);
          KeptSaved(queues, queues[i := curq], socket);
          queues := queues[i := curq];
        } else {
          defQueue := curq;
        }
      }
    }

    /** SocketBuffer_interrupted: saves what has been received for the next read. */
    method SaveInterrupted(socket: int, actualLen: nat, ghost hd: seq<Byte>, ghost data: seq<Byte>, ghost k: int,
                           ghost data': seq<Byte>)
      requires socket != 0 && Reading(queues, defQueue, socket, hd, data, k) && Stored(queues, defQueue, socket, data')
      requires actualLen == |data'| && Partial(hd, data')
      modifies `queues, `defQueue
      ensures OthersKept(old(queues), queues, socket)
      ensures Idle(queues, defQueue) && Held(queues, socket) == if hd == [] then [] else hd + data'
    {
      ghost var qs := queues;
      var i := Find(queues, socket);
      if i >= 0 {
        var queue := queues[i].(index := 0, datalen := actualLen);
        UpdateKeeps(queues, i, queue);
        queues := queues[i := queue];
      } else {
        AppendKeeps(queues, defQueue.(index := 0, datalen := actualLen), socket);
        queues := queues + [defQueue.(index := 0, datalen := actualLen)];
        NewDefQ();
      }
      KeptSaved(qs, queues, socket);
    }

    /** SocketBuffer_complete: hands out the buffer and keeps it as the next default queue. */
    method Complete(socket: int, ghost hd: seq<Byte>, ghost data: seq<Byte>, ghost k: int) returns (buf: seq<Byte>)
      requires socket != 0 && Reading(queues, defQueue, socket, hd, data, k)
      modifies `queues, `defQueue
      ensures OthersKept(old(queues), queues, socket)
      ensures Idle(queues, defQueue) && Held(queues, socket) == []
              && buf == Current(old(queues), old(defQueue), socket).buf
    {
      ghost var qs := queues;
      var i := Find(queues, socket);
      if i >= 0 {
        RemoveKeeps(queues, i);
        defQueue := queues[i];
        queues := queues[..i] + queues[i + 1..];
      }
      defQueue := defQueue.(socket := 0, index := 0, headerlen := 0, datalen := 0);
      KeptSaved(qs, queues, socket);
      buf := defQueue.buf;
    }

    /** SocketBuffer_getQueuedData: how much is there already, in a buffer large enough for all. */
    method GetQueuedData(socket: int, bytes: nat, ghost hd: seq<Byte>, ghost data: seq<Byte>, ghost k: int)
      returns (actualLen: nat)
      requires socket != 0 && Reading(queues, defQueue, socket, hd, data, k) && |data| <= bytes
      modifies `queues, `defQueue
      ensures OthersKept(old(queues), queues, socket) && Reading(queues, defQueue, socket, hd, data, k)
      ensures actualLen == |data| && Stored(queues, defQueue, socket, data)
              && |Current(queues, defQueue, socket).buf| >= bytes
    {
      var i := Find(queues, socket);
      var queue := if i >= 0 then queues[i] else defQueue;
      actualLen := if i >= 0 then queue.datalen else 0;
      if bytes > |queue.buf| {
        queue := queue.(buf := queue.buf[..queue.datalen] + seq(bytes - queue.datalen, _ => 0));
        Replace(socket, i, queue, hd, data, k);
      }
    }

    /** Writes a queue back to where it came from. */
    method Replace(socket: int, i: int, queue: Queue, ghost hd: seq<Byte>, ghost data: seq<Byte>, ghost k: int)
      requires socket != 0 && Reading(queues, defQueue, socket, hd, data, k) && i == Find(queues, socket)
      requires var q := Current(queues, defQueue, socket);
               queue == q.(buf := queue.buf) && q.datalen <= |queue.buf| && (i >= 0 ==> queue.buf[..q.datalen] == data)
      modifies `queues, `defQueue
      ensures OthersKept(old(queues), queues, socket) && Reading(queues, defQueue, socket, hd, data, k)
      ensures Current(queues, defQueue, socket) == queue
    {
      if i >= 0 {
        UpdateKeeps(queues, i, queue);
        KeptSaved(queues, queues[i := queue], socket);
        queues := queues[i := queue];
      } else {
        defQueue := queue;
      }
    }

    /** What recv writes into the buffer behind the data that is there. */
    method Store(socket: int, actualLen: nat, bytes: seq<Byte>, ghost hd: seq<Byte>, ghost data: seq<Byte>,
                 ghost k: int)
      requires socket != 0 && Reading(queues, defQueue, socket, hd, data, k) && Stored(queues, defQueue, socket, data)
      requires actualLen == |data| && actualLen + |bytes| <= |Current(queues, defQueue, socket).buf|
      modifies `queues, `defQueue
      ensures OthersKept(old(queues), queues, socket) && Reading(queues, defQueue, socket, hd, data, k)
      ensures Stored(queues, defQueue, socket, data + bytes)
    {
      var i := Find(queues, socket);
      var queue := if i >= 0 then queues[i] else defQueue;
      var buf := queue.buf[..actualLen] + bytes + queue.buf[actualLen + |bytes|..];
      Replace(socket, i, queue.(buf := buf), hd, data, k);
    }

    /** SocketBuffer_cleanup, when a socket is closed */
    method Cleanup(socket: int)
      requires socket != 0 && Spoilt(queues, defQueue, socket)
      modifies `queues, `defQueue
      ensures OthersKept(old(queues), queues, socket)
      ensures Idle(queues, defQueue) && Held(queues, socket) == []
    {
      ghost var qs := queues;
      var i := Find(queues, socket);
      if i >= 0 {
        RemoveKeeps(queues, i);
        queues := queues[..i] + queues[i + 1..];
      }
      if defQueue.socket == socket {
        defQueue := defQueue.(socket := 0, index := 0, headerlen := 0, datalen := 0);
      }
      KeptSaved(qs, queues, socket);
    }

    /** Socket_getch: replays a saved header byte, or receives one more. */
    method GetCh(socket: int, ghost hd: seq<Byte>, ghost data: seq<Byte>, ghost k: int)
      returns (rc: CharRead, ghost hd': seq<Byte>)
      requires socket != 0 && socket in net.incoming && Reading(queues, defQueue, socket, hd, data, k)
      requires 0 <= k < FIXED_HEADER && k <= |hd| && (k == |hd| ==> data == [] && Open(hd))
      modifies `queues, `defQueue, net
      ensures OnlyTouched(socket, old(queues), queues, old(net.incoming), net.incoming)
      ensures rc.Char? ==>
                  Reading(queues, defQueue, socket, hd', data, k + 1)
                  && hd' == (if k < |hd| then hd else hd + [rc.c])
                  && hd'[k] == rc.c && Pending(hd', data, net.incoming[socket])
                  == Pending(hd, data, old(net.incoming[socket]))
      ensures rc == CharInterrupted ==> Idle(queues, defQueue) && Held(queues, socket) == hd + data && k == |hd|
                                        && net.incoming[socket] == old(net.incoming[socket])
      ensures rc == CharError ==>
                  Reading(queues, defQueue, socket, hd, data, k)
                  && net.incoming[socket] == old(net.incoming[socket])
      ensures Ended(old(net.calls), net.calls, socket, CharEnding(rc))
    {
      hd' := hd;
      var queued, full := GetQueuedChar(socket, hd, data, k);
      if full {
        return CharError, hd;
      }
      if queued.Some? {
        rc := Char(queued.value);
      } else {
        rc, hd' := RecvChar(socket, hd);
      }
    }

    /** The recv of Socket_getch: one more byte of the header. */
    method RecvChar(socket: int, ghost hd: seq<Byte>) returns (rc: CharRead, ghost hd': seq<Byte>)
      requires socket != 0 && socket in net.incoming && Reading(queues, defQueue, socket, hd, [], |hd|)
      requires |hd| < FIXED_HEADER && Open(hd)
      modifies `queues, `defQueue, net
      ensures OnlyTouched(socket, old(queues), queues, old(net.incoming), net.incoming)
      ensures rc.Char? ==>
                Reading(queues, defQueue, socket, hd', [], |hd| + 1) && hd' == hd + [rc.c]
                && old(net.incoming[socket]) == [rc.c] + net.incoming[socket]
      ensures rc == CharInterrupted ==> Idle(queues, defQueue) && Held(queues, socket) == hd
      ensures rc == CharError ==> Reading(queues, defQueue, socket, hd, [], |hd|)
      ensures !rc.Char? ==> net.incoming[socket] == old(net.incoming[socket])
      ensures Ended(old(net.calls), net.calls, socket, CharEnding(rc))
    {
      hd' := hd;
      var r := net.Recv(socket, 1);
      match r
      case WouldBlock =>
        rc := CharInterrupted;
        SaveInterrupted(socket, 0, hd, [], |hd|, []);
      case Failed =>
        rc := CharError;
      case Got(bytes) =>
        rc := Char(bytes[0]);
        assert bytes == [bytes[0]];
        QueueChar(socket, bytes[0], hd, |hd|);
        hd' := hd + [bytes[0]];
    }

    /** One byte of the remaining length. */
    method DecodeByte(socket: int, ghost hd: seq<Byte>, ghost data: seq<Byte>, ghost len: nat, ghost value: nat,
                      ghost multiplier: nat,
                      ghost qs: seq<Queue>, ghost incoming: map<int, seq<Byte>>, ghost calls0: seq<RecvCall>)
      returns (rc: CharRead, ghost hd': seq<Byte>)
      requires OnlyTouched(socket, qs, queues, incoming, net.incoming) && Ended(calls0, net.calls, socket, InFull)
      requires socket != 0 && socket in net.incoming && Reading(queues, defQueue, socket, hd, data, len + 1)
      requires Decoding(hd, data, len, value, multiplier, true) && len <= 3
      modifies `queues, `defQueue, net
      ensures OnlyTouched(socket, qs, queues, incoming, net.incoming)
      ensures rc.Char? ==> Reading(queues, defQueue, socket, hd', data, len + 2)
                           && Pending(hd', data, net.incoming[socket]) == Pending(hd, data, old(net.incoming[socket]))
                           && Decoding(hd', data, len + 1, value + rc.c % 128 * multiplier, multiplier * 128,
                              rc.c >= 128)
      ensures rc == CharInterrupted ==> Idle(queues, defQueue) && Held(queues, socket) == hd + data && Partial(hd, data)
      ensures rc == CharError ==> Reading(queues, defQueue, socket, hd, data, len + 1)
      ensures !rc.Char? ==> net.incoming[socket] == old(net.incoming[socket])
      ensures Ended(calls0, net.calls, socket, CharEnding(rc))
    {
      if len + 1 == |hd| {
        assert hd[..len + 1] == hd;
        NoDataYet(hd, data);
      }
      ghost var qs1, incoming1, calls1 := queues, net.incoming, net.calls;
      rc, hd' := GetCh(socket, hd, data, len + 1);
      OnlyTouchedTrans(socket, qs, qs1, queues, incoming, incoming1, net.incoming);
      CallsGoOn(calls0, calls1, net.calls, socket, CharEnding(rc));
      if rc.Char? {
        DecodeStep(hd, hd', data, len, rc.c, value, multiplier);
      }
    }

    /** MQTTPacket_decode: reads the remaining length, of at most four bytes. */
    method Decode(socket: int, ghost hd: seq<Byte>, ghost data: seq<Byte>)
      returns (rc: LengthRead, ghost hd': seq<Byte>)
      requires socket != 0 && socket in net.incoming && Reading(queues, defQueue, socket, hd, data, 1)
      requires 1 <= |hd| <= FIXED_HEADER && Continuing(hd, data)
      modifies `queues, `defQueue, net
      ensures OnlyTouched(socket, old(queues), queues, old(net.incoming), net.incoming)
      ensures Pending(hd', data, net.incoming[socket]) == Pending(hd, data, old(net.incoming[socket]))
      ensures rc.LengthIs? ==>
                  Reading(queues, defQueue, socket, hd', data, |hd'|) && Announces(hd', rc.value)
                  && (data != [] ==> |data| < rc.value)
      ensures rc == LengthInterrupted ==>
                  Idle(queues, defQueue) && Held(queues, socket) == hd' + data
                  && Partial(hd', data)
      ensures rc.LengthError? ==>
                  Spoilt(queues, defQueue, socket)
                  && (rc.badData ==> ParseFrame(Pending(hd', data, net.incoming[socket])) == BadFrame)
      ensures Ended(old(net.calls), net.calls, socket, LengthEnding(rc))
    {
      ghost var qs, incoming, pending := queues, net.incoming, Pending(hd, data, net.incoming[socket]);
      ghost var calls0 := net.calls;
      var value: nat, multiplier: nat, len: nat, more := 0, 1, 0, true;
      hd' := hd;
      while more
        invariant OnlyTouched(socket, qs, queues, incoming, net.incoming)
        invariant Pending(hd', data, net.incoming[socket]) == pending
        invariant Reading(queues, defQueue, socket, hd', data, len + 1)
        invariant Decoding(hd', data, len, value, multiplier, more)
        invariant Ended(calls0, net.calls, socket, InFull)
        decreases more, 4 - len
      {
        if len + 1 > MAX_NO_OF_REMAINING_LENGTH_BYTES {
          TooLong(hd', data, net.incoming[socket], value, multiplier);
          return LengthError(true), hd';
        }
        ghost var before := hd';
        var c;
        c, hd' := DecodeByte(socket, hd', data, len, value, multiplier, qs, incoming, calls0);
        if !c.Char? {
          return if c == CharInterrupted then LengthInterrupted else LengthError(false), before;
        }
        value := value + c.c % 128 * multiplier;
        multiplier := multiplier * 128;
        len := len + 1;
        more := c.c >= 128;
      }
      rc := LengthIs(value);
    }

    /** Socket_getdata, for bytes > 0: the data of a packet whose header is complete. */
    method GetData(socket: int, bytes: nat, ghost hd: seq<Byte>, ghost data: seq<Byte>)
      returns (buf: Option<seq<Byte>>, actualLen: nat)
      requires socket != 0 && socket in net.incoming && Reading(queues, defQueue, socket, hd, data, |hd|)
      requires Announces(hd, bytes) && |data| < bytes
      modifies `queues, `defQueue, net
      ensures OnlyTouched(socket, old(queues), queues, old(net.incoming), net.incoming)
      ensures buf == None ==> Spoilt(queues, defQueue, socket)
      ensures buf.Some? ==> Idle(queues, defQueue) && |data| <= actualLen <= bytes && actualLen <= |buf.value|
      ensures buf.Some? ==> buf.value[..actualLen] + net.incoming[socket] == data + old(net.incoming[socket])
      ensures buf.Some? ==> if actualLen == bytes then Held(queues, socket) == []
                            else
                                Held(queues, socket) == hd + buf.value[..actualLen]
                                && Partial(hd, buf.value[..actualLen])
      ensures Ended(old(net.calls), net.calls, socket, DataEnding(buf == None, actualLen, bytes))
    {
      ghost var qs, incoming := queues, net.incoming;
      actualLen := GetQueuedData(socket, bytes, hd, data, |hd|);
      ghost var data' := data;
      var failed;
      failed, actualLen, data' := RecvData(socket, bytes, actualLen, hd, data, qs);
      if failed {
        return None, actualLen;
      }
      ghost var qs2 := queues;
      var b := FinishData(socket, bytes, actualLen, hd, data, data');
      buf := Some(b);
      assert b[..actualLen] == data';
    }

    /** The recv of Socket_getdata, into the buffer behind the data that is there. */
    method RecvData(socket: int, bytes: nat, have: nat, ghost hd: seq<Byte>, ghost data: seq<Byte>,
                    ghost qs: seq<Queue>)
      returns (failed: bool, actualLen: nat, ghost data': seq<Byte>)
      requires socket != 0 && socket in net.incoming && Reading(queues, defQueue, socket, hd, data, |hd|)
               && OthersKept(qs, queues, socket)
      requires have == |data| < bytes <= |Current(queues, defQueue, socket).buf|
               && Stored(queues, defQueue, socket, data)
      modifies `queues, `defQueue, net
      ensures OnlyTouched(socket, qs, queues, old(net.incoming), net.incoming)
      ensures Reading(queues, defQueue, socket, hd, data, |hd|) && Stored(queues, defQueue, socket, data')
      ensures have <= actualLen == |data'| <= bytes && data' + net.incoming[socket] == data + old(net.incoming[socket])
      ensures Ended(old(net.calls), net.calls, socket, DataEnding(failed, actualLen, bytes))
    {
      ghost var qs1 := queues;
      failed, actualLen, data' := false, have, data;
      var r := net.Recv(socket, bytes - actualLen);
      match r
      case Failed => failed := true;
      case WouldBlock =>
      case Got(received) =>
        Store(socket, actualLen, received, hd, data, |hd|);
        data' := data + received;
        actualLen := actualLen + |received|;
    }

    /** The end of Socket_getdata: the packet is complete, or what there is is saved. */
    method FinishData(socket: int, bytes: nat, actualLen: nat, ghost hd: seq<Byte>, ghost data: seq<Byte>,
                      ghost data': seq<Byte>)
      returns (buf: seq<Byte>)
      requires socket != 0 && Reading(queues, defQueue, socket, hd, data, |hd|) && Announces(hd, bytes)
      requires Stored(queues, defQueue, socket, data') && actualLen == |data'| <= bytes
      modifies `queues, `defQueue
      ensures OthersKept(old(queues), queues, socket) && Idle(queues, defQueue) && data' <= buf
      ensures if actualLen == bytes then Held(queues, socket) == []
              else Held(queues, socket) == hd + data' && Partial(hd, data')
    {
      if actualLen == bytes {
        buf := Complete(socket, hd, data, |hd|);
      } else {
        var i := Find(queues, socket);
        buf := (if i >= 0 then queues[i] else defQueue).buf;
        SaveInterrupted(socket, actualLen, hd, data, |hd|, data');
      }
    }

    /** MQTTPacket_Factory: one attempt to read a packet.  It parses exactly what a parser that sees the whole
        stream would, and leaves the rest of the stream, and all other sockets, alone. */
    method Factory(socket: int) returns (r: PacketRead)
      requires socket != 0 && socket in net.incoming && Idle(queues, defQueue)
      modifies `queues, `defQueue, net
      ensures OnlyTouched(socket, old(queues), queues, old(net.incoming), net.incoming)
      ensures r.PacketRead? ==>
                && Idle(queues, defQueue) && Held(queues, socket) == []
                && Parsed(old(Held(queues, socket)) + old(net.incoming[socket]), r.header, r.data, net.incoming[socket])
      ensures r == ReadInterrupted ==>
                && Idle(queues, defQueue) && ParseFrame(Held(queues, socket)) == NeedMore
                && Held(queues, socket) + net.incoming[socket] == old(Held(queues, socket)) + old(net.incoming[socket])
      ensures r.ReadError? ==>
                && Spoilt(queues, defQueue, socket)
                && (r.badData ==> ParseFrame(old(Held(queues, socket)) + old(net.incoming[socket])) == BadFrame)
      ensures Ended(old(net.calls), net.calls, socket, ReadEnding(r))
      ensures r == ReadInterrupted ==> Short(net.calls[|net.calls| - 1])
      ensures r == ReadError(false) ==> net.calls[|net.calls| - 1].result.Failed?
      ensures (&& ParseFrame(old(Held(queues, socket)) + old(net.incoming[socket])).Frame?
               && forall k | |old(net.calls)| <= k < |net.calls| :: Full(net.calls[k])) ==> r.PacketRead?
    {
      ghost var qs, incoming := queues, net.incoming;
      ghost var hd, data := StartReading(queues, defQueue, socket);
      var header;
      ghost var hd1;
      header, hd1 := GetCh(socket, hd, data, 0);
      ghost var qs1, incoming1, calls1 := queues, net.incoming, net.calls;
      if !header.Char? {
        if header == CharInterrupted {
          PartialNeedsMore(hd, data);
          return ReadInterrupted;
        }
        return ReadError(false);
      }
      r := ReadRemaining(socket, header.c, hd1, data, qs, incoming);
      CallsGoOn(old(net.calls), calls1, net.calls, socket, ReadEnding(r));
    }

    /** MQTTPacket_Factory from the second byte on. */
    method ReadRemaining(socket: int, header: Byte, ghost hd: seq<Byte>, ghost data: seq<Byte>,
                         ghost qs: seq<Queue>, ghost incoming: map<int, seq<Byte>>) returns (r: PacketRead)
      requires socket != 0 && socket in net.incoming && Reading(queues, defQueue, socket, hd, data, 1)
      requires 1 <= |hd| <= FIXED_HEADER && Continuing(hd, data) && hd[0] == header
      requires OnlyTouched(socket, qs, queues, incoming, net.incoming)
      modifies `queues, `defQueue, net
      ensures OnlyTouched(socket, qs, queues, incoming, net.incoming)
      ensures r.PacketRead? ==>
                && Idle(queues, defQueue) && Held(queues, socket) == []
                && Parsed(Pending(hd, data, old(net.incoming[socket])), r.header, r.data, net.incoming[socket])
      ensures r == ReadInterrupted ==>
                && Idle(queues, defQueue) && ParseFrame(Held(queues, socket)) == NeedMore
                && Held(queues, socket) + net.incoming[socket] == Pending(hd, data, old(net.incoming[socket]))
      ensures r.ReadError? ==>
                && Spoilt(queues, defQueue, socket)
                && (r.badData ==> ParseFrame(Pending(hd, data, old(net.incoming[socket]))) == BadFrame)
      ensures Ended(old(net.calls), net.calls, socket, ReadEnding(r))
    {
      ghost var qs1, incoming1, calls0 := queues, net.incoming, net.calls;
      var length;
      ghost var hd2;
      length, hd2 := Decode(socket, hd, data);
      OnlyTouchedTrans(socket, qs, qs1, queues, incoming, incoming1, net.incoming);
      if !length.LengthIs? {
        if length == LengthInterrupted {
          PartialNeedsMore(hd2, data);
          return ReadInterrupted;
        }
        return ReadError(length.badData);
      }
      assert Pending(hd2, data, net.incoming[socket])[0] == Pending(hd, data, incoming1[socket])[0];
      ghost var calls1 := net.calls;
      r := ReadBody(socket, header, length.value, hd2, data, qs, incoming);
      CallsGoOn(calls0, calls1, net.calls, socket, ReadEnding(r));
    }

    /** The second half of MQTTPacket_Factory, once the fixed header is there. */
    method ReadBody(socket: int, header: Byte, remainingLength: nat, ghost hd: seq<Byte>, ghost data: seq<Byte>,
                    ghost qs: seq<Queue>, ghost incoming: map<int, seq<Byte>>) returns (r: PacketRead)
      requires socket != 0 && socket in net.incoming && Reading(queues, defQueue, socket, hd, data, |hd|)
      requires Announces(hd, remainingLength) && (data != [] ==> |data| < remainingLength) && hd[0] == header
      requires OnlyTouched(socket, qs, queues, incoming, net.incoming)
      modifies `queues, `defQueue, net
      ensures OnlyTouched(socket, qs, queues, incoming, net.incoming)
      ensures r.PacketRead? ==>
                && Idle(queues, defQueue) && Held(queues, socket) == []
                && Parsed(Pending(hd, data, old(net.incoming[socket])), r.header, r.data, net.incoming[socket])
      ensures r == ReadInterrupted ==>
                && Idle(queues, defQueue) && ParseFrame(Held(queues, socket)) == NeedMore
                && Held(queues, socket) + net.incoming[socket] == Pending(hd, data, old(net.incoming[socket]))
      ensures r.ReadError? ==> Spoilt(queues, defQueue, socket) && !r.badData
      ensures Ended(old(net.calls), net.calls, socket, ReadEnding(r))
    {
      ghost var qs1, incoming1 := queues, net.incoming;
      var buf, actualLen := Some([]), 0;
      if remainingLength == 0 {
        var b := Complete(socket, hd, data, |hd|);
        buf := Some(b);
      } else {
        buf, actualLen := GetData(socket, remainingLength, hd, data);
      }
      OnlyTouchedTrans(socket, qs, qs1, queues, incoming, incoming1, net.incoming);
      if buf == None {
        return ReadError(false);
      }
      ghost var rest0, rest := incoming1[socket], net.incoming[socket];
      if actualLen != remainingLength {
        PartialNeedsMore(hd, buf.value[..actualLen]);
        BodyPart(hd, data, rest0, buf.value[..actualLen], rest);
        r := ReadInterrupted;
      } else {
        r := PacketRead(header, buf.value[..remainingLength]);
        BodyWhole(hd, data, rest0, r.data, rest);
      }
    }

    /** Reads the sockets in any order, any number of times, whatever pieces the network delivers: each socket yields
        the packets a one-shot parse of its own stream gives.  A socket in error is closed. */
    method Run(schedule: seq<int>) returns (packets: map<int, seq<RawPacket>>, closed: set<int>)
      requires Idle(queues, defQueue) && queues == [] && 0 !in net.incoming
               && forall i | 0 <= i < |schedule| :: schedule[i] in net.incoming
      modifies `queues, `defQueue, net
      ensures Idle(queues, defQueue) && AllInStep(old(net.incoming), packets, closed, queues, net.incoming)
      ensures forall s | s in packets && s !in closed && net.incoming[s] == [] ::
                packets[s] == ParseAll(old(net.incoming)[s])
      ensures AllAccounted(old(net.incoming), packets, closed, old(net.calls), net.calls, schedule)
    {
      ghost var streams, calls0 := net.incoming, net.calls;
      packets, closed := map s | s in net.incoming :: [], {};
      StartInStep(streams, packets);
      var i := 0;
      while i < |schedule|
        invariant 0 <= i <= |schedule| && Idle(queues, defQueue)
        invariant AllInStep(streams, packets, closed, queues, net.incoming)
        invariant AllAccounted(streams, packets, closed, calls0, net.calls, schedule[..i])
      {
        packets, closed := TakeTurn(schedule, i, packets, closed, streams, calls0);
        i := i + 1;
      }
      assert schedule[..i] == schedule;
      AllRead(streams, packets, closed, queues, net.incoming);
    }

    /** One turn of a schedule: the socket is read, unless it is closed. */
    method TakeTurn(schedule: seq<int>, i: nat, packets: map<int, seq<RawPacket>>, closed: set<int>,
                    ghost streams: map<int, seq<Byte>>, ghost calls0: seq<RecvCall>)
      returns (packets': map<int, seq<RawPacket>>, closed': set<int>)
      requires Idle(queues, defQueue) && 0 !in packets && i < |schedule| && schedule[i] in packets
      requires AllInStep(streams, packets, closed, queues, net.incoming)
      requires AllAccounted(streams, packets, closed, calls0, net.calls, schedule[..i])
      modifies `queues, `defQueue, net
      ensures Idle(queues, defQueue) && packets'.Keys == packets.Keys
      ensures AllInStep(streams, packets', closed', queues, net.incoming)
      ensures AllAccounted(streams, packets', closed', calls0, net.calls, schedule[..i + 1])
    {
      var socket := schedule[i];
      packets', closed' := packets, closed;
      if socket in closed {
        StillAccounted(streams, packets, closed, calls0, net.calls, schedule, i);
      } else {
        ghost var qs, incoming, calls := queues, net.incoming, net.calls;
        var got, failed := ReadOnce(socket, streams[socket], packets[socket]);
        StepInStep(streams, packets, closed, qs, incoming, queues, net.incoming, socket, got, failed);
        StepAccounted(streams, packets, closed, calls0, calls, net.calls, schedule, i, got, failed);
        packets' := packets[socket := packets[socket] + got];
        closed' := if failed then closed + {socket} else closed;
      }
    }

    method ReadOnce(socket: int, ghost stream: seq<Byte>, ghost before: seq<RawPacket>)
      returns (got: seq<RawPacket>, failed: bool)
      requires socket != 0 && socket in net.incoming && Idle(queues, defQueue)
      requires InStep(stream, before, Held(queues, socket), net.incoming[socket])
      modifies `queues, `defQueue, net
      ensures OnlyTouched(socket, old(queues), queues, old(net.incoming), net.incoming) && Idle(queues, defQueue)
      ensures before + got <= ParseAll(stream)
      ensures !failed ==> InStep(stream, before + got, Held(queues, socket), net.incoming[socket])
      ensures old(net.calls) <= net.calls
      ensures if failed then Broken(stream, old(net.calls), net.calls, socket)
              else |got| + Shorts(net.calls, socket) == Shorts(old(net.calls), socket) + 1
      ensures forall t | t != socket :: Shorts(net.calls, t) == Shorts(old(net.calls), t)
    {
      ghost var qs, pending, calls := queues, Held(queues, socket) + net.incoming[socket], net.calls;
      got, failed := [], false;
      assert before + got == before && before <= ParseAll(stream);
      var r := Factory(socket);
      forall t
        ensures Shorts(net.calls, t) == Shorts(calls, t) + if t == socket && ReadEnding(r) == CutShort then 1 else 0
      {
        ShortsEnd(calls, net.calls, socket, ReadEnding(r), t);
      }
      match r
      case PacketRead(header, data) =>
        got := [RawPacket(header, data)];
        InStepPacket(stream, before, pending, header, data, net.incoming[socket]);
      case ReadInterrupted =>
      case ReadError(_) =>
        ghost var qs1 := queues;
        Cleanup(socket);
        failed := true;
    }
  }
}
