/**
 The session store of src/MQTTPersistence.c: one record for each message in flight, written in packet form.
 Sent(id) is the key "s-id", Rel(id) is "sc-id", Received(id) is "r-id".
 */
module SessionStore {
  import opened Bytes
  import opened Handshake
  import P = MQTTPacket

  datatype Publication = Publication(topic: seq<Byte>, payload: seq<Byte>)

  type Msg = Message<Publication>

  datatype Key = Sent(id: int) | Rel(id: int) | Received(id: int) | CommandKey(n: int) | QueueKey(n: int)

  type Store = map<Key, seq<Byte>>

  /** A message the store can hold: two-byte id, and a topic with a two-byte length. */
  ghost predicate Storable(m: Msg) {
    0 <= m.msgid <= MAX_MSG_ID && 1 <= m.qos <= 2 && |m.publication.topic| < 65536
  }

  function PublishOf(m: Msg, dup: bool): P.Publish
    requires 0 <= m.msgid
  {
    P.Publish(P.Header(P.PUBLISH, dup, m.qos, m.retain), m.publication.topic, m.msgid, m.publication.payload)
  }

  /** The record of a PUBLISH: the packet as sent. */
  function Record(m: Msg, dup: bool): seq<Byte>
    requires 0 <= m.msgid && 1 <= m.qos <= 2
  {
    P.PublishBytes(PublishOf(m, dup))
  }

  function RelRecord(id: int): seq<Byte>
    requires 0 <= id
  {
    P.AckBytes(P.PUBREL, id, false)
  }

  ghost predicate IsRecord(bytes: seq<Byte>, m: Msg) {
    Storable(m) && exists dup :: bytes == Record(m, dup)
  }

  // ---------- Reading a record ----------

  /** The length loop of MQTTPersistence_restorePacket, which knows no limit. */
  function DecodeAny(s: seq<Byte>, k: nat, multiplier: nat, value: nat): P.Length
    decreases |s| - k
  {
    if k >= |s| then P.ShortLength
    else
      var v := value + s[k] % 128 * multiplier;
      if s[k] < 128 then P.Length(v, k + 1) else DecodeAny(s, k + 1, multiplier * 128, v)
  }

  lemma {:induction false} DecodeAnyCode(pre: seq<Byte>, n: nat, rest: seq<Byte>, multiplier: nat, value: nat)
    ensures DecodeAny(pre + P.LengthCode(n) + rest, |pre|, multiplier, value)
              == P.Length(value + n * multiplier, |pre| + |P.LengthCode(n)|)
    decreases n
  {
    var s := pre + P.LengthCode(n) + rest;
    assert s[|pre|] == P.LengthCode(n)[0];
    if n >= 128 {
      P.Digits(n, multiplier);
      var digit, high := n % 128, n / 128;
      assert s[|pre|] % 128 == digit;
      assert s == (pre + [128 + digit]) + P.LengthCode(high) + rest;
      DecodeAnyCode(pre + [128 + digit], high, rest, multiplier * 128, value + digit * multiplier);
    }
  }

  datatype Restored = RestoredPublish(p: P.Publish) | RestoredAck(a: P.Ack) | RestoredOther | BadRecord | RecordOverrun

  /** What MQTTPersistence_restorePacket makes of a record. */
  function RestorePacket(bytes: seq<Byte>): Restored {
    if bytes == [] then RecordOverrun
    else
      var l := DecodeAny(bytes[1..], 0, 1, 0);
      if !l.Length? then RecordOverrun
      else if 1 + l.used + l.value != |bytes| then BadRecord
      else NewPacket(bytes[0], bytes[1 + l.used..])
  }

  /** The new_packets table, for the packets of the store. */
  function NewPacket(header: Byte, data: seq<Byte>): Restored {
    var ptype := P.HeaderOf(header).ptype;
    if ptype == P.PUBLISH then
      match P.ParsePublish(header, data)
      case Packet(p) => RestoredPublish(p)
      case BadPacket => BadRecord
      case Overrun => RecordOverrun
    else if P.PUBACK <= ptype <= P.PUBCOMP then
      match P.ParseAck(header, data)
      case Packet(a) => RestoredAck(a)
      case BadPacket => BadRecord
      case Overrun => RecordOverrun
    else if ptype < P.CONNECT || ptype > P.DISCONNECT || ptype == P.CONNECT || ptype == 8 || ptype == 10 then BadRecord
    else RestoredOther
  }

  /** MQTTPersistence_restorePacket */
  method ReadRecord(buffer: seq<Byte>) returns (pack: Restored)
    ensures pack == RestorePacket(buffer)
  {
    if buffer == [] {
      return RecordOverrun;
    }
    var fixedHeaderLength: nat, remainingLength: nat, multiplier: nat, more := 1, 0, 1, true;
    while more
      invariant 1 <= fixedHeaderLength <= |buffer|
      invariant DecodeAny(buffer[1..], 0, 1, 0)
                == if more then DecodeAny(buffer[1..], fixedHeaderLength - 1, multiplier, remainingLength)
                   else P.Length(remainingLength, fixedHeaderLength - 1)
      decreases more, |buffer| - fixedHeaderLength
    {
      if fixedHeaderLength == |buffer| {
        return RecordOverrun;
      }
      var c := buffer[fixedHeaderLength];
      assert buffer[1..][fixedHeaderLength - 1] == c;
      remainingLength := remainingLength + c % 128 * multiplier;
      multiplier := multiplier * 128;
      fixedHeaderLength := fixedHeaderLength + 1;
      more := c >= 128;
    }
    if fixedHeaderLength + remainingLength == |buffer| {
      pack := NewPacket(buffer[0], buffer[fixedHeaderLength..]);
    } else {
      pack := BadRecord;
    }
  }

  /** A frame of any length is read back from its record. */
  lemma FrameRestored(header: Byte, data: seq<Byte>)
    ensures RestorePacket(P.FrameBytes(header, data)) == NewPacket(header, data)
  {
    var bytes, code := P.FrameBytes(header, data), P.LengthCode(|data|);
    DecodeAnyCode([], |data|, data, 1, 0);
    assert bytes[1..] == [] + code + data;
    assert bytes[1 + |code|..] == data;
  }

  /** The record of a message gives back its id, QoS, retain flag, topic and payload. */
  lemma RecordRestored(m: Msg, dup: bool)
    requires Storable(m)
    ensures RestorePacket(Record(m, dup)) == RestoredPublish(PublishOf(m, dup))
  {
    var p := PublishOf(m, dup);
    FrameRestored(P.HeaderByte(p.header), P.PublishBody(p));
    P.HeaderRoundTrip(p.header);
    P.BodyRoundTrip(p);
  }

  lemma RelRestored(id: int)
    requires 0 <= id <= MAX_MSG_ID
    ensures RestorePacket(RelRecord(id)) == RestoredAck(P.Ack(P.AckHeader(P.PUBREL, false), id))
  {
  }

  // ---------- Bad records ----------

  /** Length bytes that are all followed by more never end. */
  lemma {:induction false} NeverEnds(s: seq<Byte>, k: nat, multiplier: nat, value: nat)
    requires forall i | k <= i < |s| :: s[i] >= 128
    ensures DecodeAny(s, k, multiplier, value) == P.ShortLength
    decreases |s| - k
  {
    if k < |s| {
      NeverEnds(s, k + 1, multiplier * 128, value + s[k] % 128 * multiplier);
    }
  }

  lemma CutAt(header: Byte, code: seq<Byte>, data: seq<Byte>, k: nat)
    requires 1 <= k <= 1 + |code| + |data|
    ensures ([header] + code + data)[..k][1..]
            == if k <= |code| then code[..k - 1] else [] + code + data[..k - 1 - |code|]
  {
    var s := [header] + code + data;
    assert s[1..] == code + data && s[..k][1..] == s[1..][..k - 1];
  }

  /** A record cut short is bad; if it is cut in its length, the code reads past its end. */
  lemma CutRecord(header: Byte, data: seq<Byte>, k: nat)
    requires k < |P.FrameBytes(header, data)|
    ensures RestorePacket(P.FrameBytes(header, data)[..k])
            == if k <= |P.LengthCode(|data|)| then RecordOverrun else BadRecord
  {
    var code := P.LengthCode(|data|);
    var cut := P.FrameBytes(header, data)[..k];
    if k > 0 {
      CutAt(header, code, data, k);
      if k <= |code| {
        P.CodeOnWire(|data|);
        NeverEnds(cut[1..], 0, 1, 0);
      } else {
        DecodeAnyCode([], |data|, data[..k - 1 - |code|], 1, 0);
      }
    }
  }

  /** A record with bytes behind it is bad. */
  lemma LongRecord(header: Byte, data: seq<Byte>, more: seq<Byte>)
    requires more != []
    ensures RestorePacket(P.FrameBytes(header, data) + more) == BadRecord
  {
    var bytes, code := P.FrameBytes(header, data) + more, P.LengthCode(|data|);
    DecodeAnyCode([], |data|, data + more, 1, 0);
    assert bytes[1..] == [] + code + (data + more);
  }

  /** A record is read only if its length is that of the bytes behind it. */
  ghost predicate LengthFits(bytes: seq<Byte>) {
    exists k | 2 <= k <= |bytes| :: P.OneLength(bytes[1..k]) && P.WireValue(bytes[1..k]) == |bytes| - k
  }

  lemma {:induction false} AnyOnWire(s: seq<Byte>, k: nat, multiplier: nat, value: nat)
    ensures var r := DecodeAny(s, k, multiplier, value);
            r.Length? ==>
              k < r.used <= |s| && P.OneLength(s[k..r.used])
              && r.value == value + P.WireValue(s[k..r.used]) * multiplier
    decreases |s| - k
  {
    var r := DecodeAny(s, k, multiplier, value);
    if r.Length? {
      if s[k] < 128 {
        assert s[k..k + 1] == [s[k]] && [s[k]][1..] == [];
      } else {
        AnyOnWire(s, k + 1, multiplier * 128, value + s[k] % 128 * multiplier);
        P.LengthByte(s, k, r.used);
        P.Shifted(s[k] % 128, P.WireValue(s[k + 1..r.used]), multiplier);
      }
    }
  }

  lemma ReadFits(bytes: seq<Byte>)
    requires !RestorePacket(bytes).BadRecord? && !RestorePacket(bytes).RecordOverrun?
    ensures LengthFits(bytes)
  {
    var l := DecodeAny(bytes[1..], 0, 1, 0);
    AnyOnWire(bytes[1..], 0, 1, 0);
    var k := 1 + l.used;
    assert bytes[1..][0..l.used] == bytes[1..k];
  }
}
