/**
 The saved read queues of src/SocketBuffer.c as values: what has been received of a packet that is not complete yet.
 */
module ReadQueues {
  import opened Bytes
  import opened MQTTPacket
  import opened Options
  import opened Seqs

  const FIXED_HEADER := 5

  /** socket_queue.  Socket 0 means unused; buflen is |buf|. */
  datatype Queue = Queue(socket: int, index: int, headerlen: int, fixedHeader: seq<Byte>, buf: seq<Byte>, datalen: int)

  /** The header bytes received so far. */
  ghost function HeaderBytes(q: Queue): seq<Byte>
    requires 0 <= q.headerlen <= |q.fixedHeader|
  {
    q.fixedHeader[..q.headerlen]
  }

  /** The bytes after the header received so far. */
  ghost function DataBytes(q: Queue): seq<Byte>
    requires 0 <= q.datalen <= |q.buf|
  {
    q.buf[..q.datalen]
  }

  ghost predicate QueueOk(q: Queue) {
    |q.fixedHeader| == FIXED_HEADER && 0 <= q.index <= q.headerlen <= FIXED_HEADER && 0 <= q.datalen <= |q.buf|
  }

  // ---------- A partial packet ----------

  /** A header whose remaining length is not complete. */
  ghost predicate Open(hd: seq<Byte>) {
    forall i | 1 <= i < |hd| :: hd[i] >= 128
  }

  /** A complete header that announces n bytes. */
  ghost predicate Announces(hd: seq<Byte>, n: nat) {
    |hd| >= 2 && DecodeLength(hd[1..], 0, 1, 0) == Length(n, |hd| - 1)
  }

  /** What a read that ran out of bytes leaves behind. */
  ghost predicate Partial(hd: seq<Byte>, data: seq<Byte>) {
    (Open(hd) && |hd| < FIXED_HEADER && data == []) || exists n: nat :: Announces(hd, n) && |data| < n
  }

  /** The value of length bytes that are all followed by more. */
  ghost function ValueOf(s: seq<Byte>): nat {
    if s == [] then 0 else ValueOf(s[..|s| - 1]) + s[|s| - 1] % 128 * Pow128(|s| - 1)
  }

  /** Reading bytes that are all followed by more brings the decoder to this point. */
  lemma {:induction false} DecodeThrough(s: seq<Byte>, k: nat)
    requires k <= 4 && k <= |s| && forall i | 0 <= i < k :: s[i] >= 128
    ensures DecodeLength(s, 0, 1, 0) == DecodeLength(s, k, Pow128(k), ValueOf(s[..k]))
  {
    if k > 0 {
      DecodeThrough(s, k - 1);
      assert s[..k][..k - 1] == s[..k - 1];
    }
  }

  /** The decoder's answer does not depend on what follows. */
  lemma {:induction false} DecodePrefix(s: seq<Byte>, t: seq<Byte>, k: nat, multiplier: nat, value: nat)
    requires k <= 4
    ensures var r := DecodeLength(s, k, multiplier, value);
            && (!r.ShortLength? ==> DecodeLength(s + t, k, multiplier, value) == r)
            && (r.Length? ==> k < r.used <= |s|)
    decreases 4 - k
  {
    if k < 4 && k < |s| && s[k] >= 128 {
      DecodePrefix(s, t, k + 1, multiplier * 128, value + s[k] % 128 * multiplier);
    }
  }

  /** A length byte below 128 ends the header. */
  lemma LengthEnds(hd: seq<Byte>, len: nat)
    requires len <= 3 && |hd| >= len + 2 && Open(hd[..len + 1]) && hd[len + 1] < 128
    ensures DecodeLength(hd[1..], 0, 1, 0) == Length(ValueOf(hd[1..][..len]) + hd[len + 1] % 128 * Pow128(len), len + 1)
  {
    forall i | 0 <= i < len
      ensures hd[1..][i] >= 128
    {
      assert hd[..len + 1][i + 1] >= 128;
    }
    DecodeThrough(hd[1..], len);
  }

  /** A complete header with all its data is the first packet of what was received. */
  lemma WholePacket(hd: seq<Byte>, data: seq<Byte>, rest: seq<Byte>)
    requires Announces(hd, |data|)
    ensures ParseFrame(hd + data + rest) == Frame(hd[0], data, |hd| + |data|)
  {
    var s := hd + data + rest;
    DecodePrefix(hd[1..], data + rest, 0, 1, 0);
    assert s[1..] == hd[1..] + (data + rest);
    assert s[|hd|..|hd| + |data|] == data;
  }

  /** A partial packet is no packet, and no error, yet. */
  lemma PartialNeedsMore(hd: seq<Byte>, data: seq<Byte>)
    requires Partial(hd, data)
    ensures ParseFrame(hd + data) == NeedMore
  {
  }

  /** Four length bytes that are all followed by more are an error, whatever comes. */
  lemma BadHeader(hd: seq<Byte>, rest: seq<Byte>)
    requires |hd| == FIXED_HEADER && Open(hd)
    ensures ParseFrame(hd + rest) == BadFrame
  {
  }

  // ---------- The list of queues ----------

  /** ListFindItem(queues, &socket, socketcompare): the position found, or -1. */
  function Find(qs: seq<Queue>, socket: int): (i: int)
    ensures -1 <= i < |qs|
    ensures i >= 0 ==> qs[i].socket == socket
    ensures i < 0 ==> forall j | 0 <= j < |qs| :: qs[j].socket != socket
  {
    if qs == [] then -1 else if qs[0].socket == socket then 0
    else
      var i := Find(qs[1..], socket);
      if i < 0 then (assert forall j | 1 <= j < |qs| :: qs[j] == qs[1..][j - 1]; -1) else i + 1
  }

  ghost function Lookup(qs: seq<Queue>, socket: int): Option<Queue> {
    var i := Find(qs, socket);
    if i < 0 then None else Some(qs[i])
  }

  /** One queue a socket; unused ones may be left lying about. */
  ghost predicate Unique(qs: seq<Queue>) {
    forall i, j | 0 <= i < j < |qs| :: qs[i].socket == qs[j].socket ==> qs[i].socket == 0
  }

  lemma LookupUpdate(qs: seq<Queue>, i: int, q: Queue, t: int)
    requires Unique(qs) && 0 <= i < |qs| && q.socket == qs[i].socket != 0 && t != 0
    ensures Unique(qs[i := q])
    ensures Lookup(qs[i := q], t) == if t == q.socket then Some(q) else Lookup(qs, t)
  {
    LookupSame(qs, qs[i := q], t);
  }

  lemma {:induction false} LookupSame(a: seq<Queue>, b: seq<Queue>, t: int)
    requires |a| == |b| && forall j | 0 <= j < |a| :: a[j].socket == b[j].socket
    ensures Find(a, t) == Find(b, t)
  {
    if a != [] && a[0].socket != t {
      LookupSame(a[1..], b[1..], t);
    }
  }

  lemma {:induction false} FindAppend(qs: seq<Queue>, q: Queue, t: int)
    ensures Find(qs + [q], t) == if Find(qs, t) >= 0 then Find(qs, t) else if q.socket == t then |qs| else -1
  {
    if qs == [] {
      assert (qs + [q])[1..] == [];
    } else if qs[0].socket != t {
      FindAppend(qs[1..], q, t);
      assert (qs + [q])[1..] == qs[1..] + [q];
    }
  }

  lemma LookupAppend(qs: seq<Queue>, q: Queue, t: int)
    requires Unique(qs) && t != 0 && (q.socket != 0 ==> Find(qs, q.socket) < 0)
    ensures Unique(qs + [q])
    ensures Lookup(qs + [q], t) == if t == q.socket then Some(q) else Lookup(qs, t)
  {
    FindAppend(qs, q, t);
  }

  lemma LookupRemove(qs: seq<Queue>, i: int, t: int)
    requires Unique(qs) && 0 <= i < |qs| && qs[i].socket != 0 && t != 0
    ensures Unique(Without(qs, i))
    ensures Lookup(Without(qs, i), t) == if t == qs[i].socket then None else Lookup(qs, t)
  {
    var rest := Without(qs, i);
    assert forall j | 0 <= j < |rest| :: rest[j] == qs[if j < i then j else j + 1];
    if t != qs[i].socket && Find(qs, t) >= 0 {
      var k := Find(qs, t);
      var k' := if k < i then k else k - 1;
      assert rest[k'] == qs[k];
    }
  }

  // ---------- What is held for a socket ----------

  /** The bytes of an unfinished packet that are held for a socket. */
  ghost function Held(qs: seq<Queue>, socket: int): seq<Byte> {
    match Lookup(qs, socket)
    case None => []
    case Some(q) => if QueueOk(q) then HeaderBytes(q) + DataBytes(q) else []
  }

  /** A queue between two reads: it will be replayed from its first byte. */
  ghost predicate Saved(q: Queue) {
    QueueOk(q) && q.index == 0 && Partial(HeaderBytes(q), DataBytes(q))
  }

  ghost predicate AllSaved(qs: seq<Queue>, but: int) {
    forall t | t != 0 && t != but && Lookup(qs, t).Some? :: Saved(Lookup(qs, t).value)
  }

  ghost predicate OthersKept(qs: seq<Queue>, qs': seq<Queue>, socket: int) {
    forall t | t != 0 && t != socket :: Lookup(qs', t) == Lookup(qs, t)
  }

  lemma KeptSaved(a: seq<Queue>, b: seq<Queue>, socket: int)
    requires OthersKept(a, b, socket) && AllSaved(a, socket)
    ensures AllSaved(b, socket)
  {
  }

  lemma UpdateKeeps(qs: seq<Queue>, i: int, q: Queue)
    requires Unique(qs) && 0 <= i < |qs| && q.socket == qs[i].socket != 0
    ensures Unique(qs[i := q]) && OthersKept(qs, qs[i := q], q.socket) && Lookup(qs[i := q], q.socket) == Some(q)
  {
    forall t | t != 0
      ensures Lookup(qs[i := q], t) == if t == q.socket then Some(q) else Lookup(qs, t)
    {
      LookupUpdate(qs, i, q, t);
    }
    LookupUpdate(qs, i, q, q.socket);
  }

  lemma AppendKeeps(qs: seq<Queue>, q: Queue, socket: int)
    requires Unique(qs) && socket != 0 && Lookup(qs, socket) == None && (q.socket == 0 || q.socket == socket)
    ensures Unique(qs + [q]) && OthersKept(qs, qs + [q], socket)
    ensures Lookup(qs + [q], socket) == if q.socket == 0 then None else Some(q)
  {
    forall t | t != 0
      ensures Lookup(qs + [q], t) == if t == q.socket then Some(q) else Lookup(qs, t)
    {
      LookupAppend(qs, q, t);
    }
    LookupAppend(qs, q, socket);
  }

  lemma RemoveKeeps(qs: seq<Queue>, i: int)
    requires Unique(qs) && 0 <= i < |qs| && qs[i].socket != 0
    ensures Unique(Without(qs, i)) && OthersKept(qs, Without(qs, i), qs[i].socket)
            && Lookup(Without(qs, i), qs[i].socket) == None
  {
    forall t | t != 0
      ensures Lookup(Without(qs, i), t) == if t == qs[i].socket then None else Lookup(qs, t)
    {
      LookupRemove(qs, i, t);
    }
    LookupRemove(qs, i, qs[i].socket);
  }
}
