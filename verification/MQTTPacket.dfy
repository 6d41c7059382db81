/**
 Packets as bytes (src/MQTTPacket.c): fixed header, remaining length, PUBLISH and acknowledgement bodies
 (MQTT 3.1.1, sections 2.2.3, 3.3 and 3.4).
 */
module MQTTPacket {
  import opened Bytes
  import opened Options

  // ---------- Remaining length ----------

  const MAX_REMAINING_LENGTH := 268435455
  const MAX_NO_OF_REMAINING_LENGTH_BYTES := 4

  /** The bytes of a length: seven bits each, low ones first, the top bit on all but the last. */
  function LengthCode(n: nat): (code: seq<Byte>)
    ensures |code| >= 1
  {
    if n < 128 then [n] else [128 + n % 128] + LengthCode(n / 128)
  }

  /** The number that length bytes stand for (MQTT 3.1.1, section 2.2.3): seven bits each, low ones first. */
  ghost function WireValue(code: seq<Byte>): nat {
    if code == [] then 0 else code[0] % 128 + 128 * WireValue(code[1..])
  }

  /** The top bit says that another byte follows: it is on in all but the last. */
  ghost predicate OneLength(code: seq<Byte>) {
    code != [] && code[|code| - 1] < 128 && forall i | 0 <= i < |code| - 1 :: code[i] >= 128
  }

  lemma {:induction false} CodeOnWire(n: nat)
    ensures WireValue(LengthCode(n)) == n && OneLength(LengthCode(n))
  {
    if n < 128 {
      assert LengthCode(n)[1..] == [];
    } else {
      CodeOnWire(n / 128);
      assert LengthCode(n)[1..] == LengthCode(n / 128);
      assert forall i | 1 <= i < |LengthCode(n)| :: LengthCode(n)[i] == LengthCode(n / 128)[i - 1];
    }
  }

  datatype Length = Length(value: nat, used: nat) | BadLength | ShortLength

  /** MQTTPacket_decode on a byte string: at most four bytes are read. */
  function DecodeLength(s: seq<Byte>, k: nat, multiplier: nat, value: nat): Length
    requires k <= MAX_NO_OF_REMAINING_LENGTH_BYTES
    decreases MAX_NO_OF_REMAINING_LENGTH_BYTES - k
  {
    if k == MAX_NO_OF_REMAINING_LENGTH_BYTES then BadLength
    else if k >= |s| then ShortLength
    else
      var v := value + s[k] % 128 * multiplier;
      if s[k] < 128 then Length(v, k + 1) else DecodeLength(s, k + 1, multiplier * 128, v)
  }

  /** What the decoder makes of bytes that start at k: one length, or too many or too few bytes that are followed by
      more. */
  ghost predicate ReadAs(s: seq<Byte>, k: nat, multiplier: nat, value: nat, r: Length) {
    match r
    case Length(v, used) =>
      k < used <= 4 && used <= |s| && OneLength(s[k..used]) && v == value + WireValue(s[k..used]) * multiplier
    case BadLength => |s| >= 4 && forall i | k <= i < 4 :: s[i] >= 128
    case ShortLength => |s| < 4 && forall i | k <= i < |s| :: s[i] >= 128
  }

  lemma {:induction false} DecodeOnWire(s: seq<Byte>, k: nat, multiplier: nat, value: nat)
    requires k <= MAX_NO_OF_REMAINING_LENGTH_BYTES && k <= |s|
    ensures ReadAs(s, k, multiplier, value, DecodeLength(s, k, multiplier, value))
    decreases MAX_NO_OF_REMAINING_LENGTH_BYTES - k
  {
    if k < 4 && k < |s| {
      if s[k] < 128 {
        assert s[k..k + 1] == [s[k]] && [s[k]][1..] == [];
      } else {
        var value' := value + s[k] % 128 * multiplier;
        DecodeOnWire(s, k + 1, multiplier * 128, value');
        ReadBefore(s, k, multiplier, value, DecodeLength(s, k + 1, multiplier * 128, value'));
      }
    }
  }

  lemma ReadBefore(s: seq<Byte>, k: nat, multiplier: nat, value: nat, r: Length)
    requires k < |s| && k < 4 && s[k] >= 128 && ReadAs(s, k + 1, multiplier * 128, value + s[k] % 128 * multiplier, r)
    ensures ReadAs(s, k, multiplier, value, r)
  {
    if r.Length? {
      LengthByte(s, k, r.used);
      Shifted(s[k] % 128, WireValue(s[k + 1..r.used]), multiplier);
    }
  }

  lemma LengthByte(s: seq<Byte>, k: nat, used: nat)
    requires k + 1 < used <= |s| && s[k] >= 128 && OneLength(s[k + 1..used])
    ensures OneLength(s[k..used]) && WireValue(s[k..used]) == s[k] % 128 + 128 * WireValue(s[k + 1..used])
  {
    assert s[k..used][1..] == s[k + 1..used];
    assert forall i | 1 <= i < used - k :: s[k..used][i] == s[k + 1..used][i - 1];
  }

  lemma Shifted(d: nat, w: nat, m: nat)
    ensures d * m + w * (m * 128) == (d + 128 * w) * m
  {
  }

  function Pow128(k: nat): nat {
    if k == 0 then 1 else 128 * Pow128(k - 1)
  }

  /** Decoding from digit k on inverts encoding, as long as the digits fit into four bytes. */
  lemma {:induction false} DecodeFrom(pre: seq<Byte>, n: nat, rest: seq<Byte>, multiplier: nat, value: nat)
    requires |pre| <= 3
    ensures DecodeLength(pre + LengthCode(n) + rest, |pre|, multiplier, value)
            == if n < Pow128(4 - |pre|) then Length(value + n * multiplier, |pre| + |LengthCode(n)|) else BadLength
    decreases 4 - |pre|
  {
    var s := pre + LengthCode(n) + rest;
    assert s[|pre|] == LengthCode(n)[0];
    PowAtLeast(4 - |pre|);
    if n >= 128 {
      Digits(n, multiplier);
      var digit, high := n % 128, n / 128;
      assert s[|pre|] % 128 == digit;
      assert s == (pre + [128 + digit]) + LengthCode(high) + rest;
      if |pre| < 3 {
        DecodeFrom(pre + [128 + digit], high, rest, multiplier * 128, value + digit * multiplier);
        BelowPower(n, Pow128(3 - |pre|));
      } else {
        assert Pow128(1) == 128;
      }
    }
  }

  lemma BelowPower(n: nat, p: nat)
    ensures n / 128 < p <==> n < 128 * p
  {
  }

  lemma Digits(n: nat, m: nat)
    ensures n % 128 * m + n / 128 * (m * 128) == n * m
  {
  }

  lemma PowAtLeast(k: nat)
    requires k >= 1
    ensures Pow128(k) >= 128
  {
  }

  lemma LimitIsPow()
    ensures Pow128(4) == MAX_REMAINING_LENGTH + 1
  {
  }

  /** Decode inverts encode exactly up to 268435455, whatever follows; beyond that the length is refused. */
  lemma LengthRoundTrip(n: nat, rest: seq<Byte>)
    ensures DecodeLength(LengthCode(n) + rest, 0, 1, 0)
            == if n <= MAX_REMAINING_LENGTH then Length(n, |LengthCode(n)|) else BadLength
  {
    DecodeFrom([], n, rest, 1, 0);
    LimitIsPow();
    assert [] + LengthCode(n) + rest == LengthCode(n) + rest;
  }

  /** k bytes suffice exactly for the lengths below 128^k. */
  lemma {:induction false} CodeSize(n: nat, k: nat)
    requires k >= 1
    ensures |LengthCode(n)| <= k <==> n < Pow128(k)
    decreases k
  {
    PowAtLeast(k);
    if n >= 128 {
      if k > 1 {
        CodeSize(n / 128, k - 1);
        BelowPower(n, Pow128(k - 1));
      } else {
        assert Pow128(1) == 128;
      }
    }
  }

  lemma CodeNext(done: seq<Byte>, n: nat)
    ensures var d := if n / 128 > 0 then n % 128 + 128 else n % 128;
            done + LengthCode(n) == if n / 128 > 0 then (done + [d]) + LengthCode(n / 128) else done + [d]
  {
  }

  /** MQTTPacket_encode */
  method Encode(buf: array<Byte>, at: nat, n: nat) returns (rc: nat)
    requires n < 0x8000_0000 && at + 5 <= buf.Length
    modifies buf
    ensures 1 <= rc <= 5 && buf[..] == old(buf[..at]) + LengthCode(n) + old(buf[at + rc..]) && rc == |LengthCode(n)|
  {
    LimitIsPow();
    CodeSize(n, 5);
    var length, more := n, true;
    rc := 0;
    ghost var was, done: seq<Byte> := buf[..], [];
    while more
      invariant rc == |done| && at + rc + (if more then 1 else 0) <= buf.Length && buf[..] == Overwritten(was, at, done)
      invariant LengthCode(n) == if more then done + LengthCode(length) else done
      decreases more, length
    {
      CodeNext(done, length);
      var d: Byte := length % 128;
      length := length / 128;
      if length > 0 {
        d := d + 128;
      }
      OverwriteNext(was, at, done, d);
      WriteChar(buf, at + rc, d);
      rc, done := rc + 1, done + [d];
      more := length > 0;
    }
  }

  method WriteChar(buf: array<Byte>, at: nat, c: Byte)
    requires at < buf.Length
    modifies buf
    ensures buf[..] == old(buf[..])[at := c]
  {
    buf[at] := c;
  }

  /** A buffer with `done` written over it from position `at` on. */
  ghost function Overwritten(was: seq<Byte>, at: nat, done: seq<Byte>): seq<Byte>
    requires at + |done| <= |was|
  {
    was[..at] + done + was[at + |done|..]
  }

  lemma OverwriteNext(was: seq<Byte>, at: nat, done: seq<Byte>, d: Byte)
    requires at + |done| < |was|
    ensures Overwritten(was, at, done)[at + |done| := d] == Overwritten(was, at, done + [d])
  {
  }

  // ---------- Fixed header and frames ----------

  const CONNECT := 1
  const CONNACK := 2
  const PUBLISH := 3
  const PUBACK := 4
  const PUBREC := 5
  const PUBREL := 6
  const PUBCOMP := 7
  const DISCONNECT := 14

  datatype Header = Header(ptype: int, dup: bool, qos: int, retain: bool) {
    predicate Valid() { 0 <= ptype < 16 && 0 <= qos < 4 }
  }

  /** The header byte: type in the top four bits, then dup, two bits of QoS, and retain. */
  function HeaderByte(h: Header): Byte
    requires h.Valid()
  {
    16 * h.ptype + (if h.dup then 8 else 0) + 2 * h.qos + (if h.retain then 1 else 0)
  }

  function HeaderOf(b: Byte): (h: Header)
    ensures h.Valid()
  {
    Header(b / 16, b / 8 % 2 == 1, b / 2 % 4, b % 2 == 1)
  }

  lemma HeaderRoundTrip(h: Header)
    requires h.Valid()
    ensures HeaderOf(HeaderByte(h)) == h
  {
    var dup, retain := if h.dup then 1 else 0, if h.retain then 1 else 0;
    var b: int := HeaderByte(h);
    assert b == 2 * (8 * h.ptype + 4 * dup + h.qos) + retain;
    assert b / 2 == 4 * (2 * h.ptype + dup) + h.qos;
    assert b / 8 == 2 * h.ptype + dup;
  }

  /** Bit 0 is retain, bits 1 and 2 are the QoS, bit 3 is dup, the top four are the packet type (MQTT 3.1.1, sections
      2.2 and 3.3.1). */
  ghost predicate HeaderBits(x: bv8, ptype: int, dup: bool, qos: int, retain: bool) {
    && (x & 1 == 1 <==> retain)
    && qos == ((x >> 1) & 1) as int + 2 * ((x >> 2) & 1) as int
    && ((x >> 3) & 1 == 1 <==> dup)
    && ptype == ((x >> 4) & 1) as int + 2 * ((x >> 5) & 1) as int + 4 * ((x >> 6) & 1) as int + 8 * (x >> 7) as int
  }

  lemma LowBits(b: Byte)
    ensures ((b as bv8) & 1) as int == b % 2 && (((b as bv8) >> 1) & 1) as int == b / 2 % 2
    ensures (((b as bv8) >> 2) & 1) as int == b / 4 % 2 && (((b as bv8) >> 3) & 1) as int == b / 8 % 2
  {
  }

  lemma HighBits(b: Byte)
    ensures (((b as bv8) >> 4) & 1) as int == b / 16 % 2 && (((b as bv8) >> 5) & 1) as int == b / 32 % 2
    ensures (((b as bv8) >> 6) & 1) as int == b / 64 % 2 && ((b as bv8) >> 7) as int == b / 128
  {
  }

  lemma Halves(n: nat)
    ensures n == 2 * (n / 2) + n % 2
  {
  }

  lemma HighDigits(b: Byte)
    ensures b / 16 == b / 16 % 2 + 2 * (b / 32 % 2) + 4 * (b / 64 % 2) + 8 * (b / 128)
  {
    Halves(b / 16);
    Halves(b / 32);
    Halves(b / 64);
  }

  lemma QosDigits(b: Byte)
    ensures b / 2 % 4 == b / 2 % 2 + 2 * (b / 4 % 2)
  {
    Halves(b / 2);
    Halves(b / 4);
  }

  lemma HeaderOnWire(h: Header)
    requires h.Valid()
    ensures HeaderBits(HeaderByte(h) as bv8, h.ptype, h.dup, h.qos, h.retain)
  {
    HeaderRoundTrip(h);
    LowBits(HeaderByte(h));
    HighBits(HeaderByte(h));
    HighDigits(HeaderByte(h));
    QosDigits(HeaderByte(h));
  }

  lemma HeaderByteRoundTrip(b: Byte)
    ensures HeaderByte(HeaderOf(b)) == b
  {
    var n: int := b;
    assert n == 2 * (n / 2) + n % 2 && n / 2 == 4 * (n / 8) + n / 2 % 4 && n / 8 == 2 * (n / 16) + n / 8 % 2;
  }

  /** A whole packet. */
  function FrameBytes(header: Byte, data: seq<Byte>): (s: seq<Byte>)
    ensures |s| >= 2
  {
    [header] + LengthCode(|data|) + data
  }

  datatype Parse = Frame(header: Byte, data: seq<Byte>, used: nat) | NeedMore | BadFrame

  /** The first packet of a byte string, taken in one go. */
  function ParseFrame(s: seq<Byte>): (r: Parse)
    ensures r.Frame? ==> 2 <= r.used <= |s|
  {
    if s == [] then NeedMore
    else
      match DecodeLength(s[1..], 0, 1, 0)
      case BadLength => BadFrame
      case ShortLength => NeedMore
      case Length(n, used) =>
        if 1 + used + n > |s| then NeedMore
        else Frame(s[0], s[1 + used..1 + used + n], 1 + used + n)
  }

  /** A header byte, one length in s[1..k], and that many bytes. */
  ghost predicate FrameAt(s: seq<Byte>, k: nat, header: Byte, data: seq<Byte>) {
    && 2 <= k <= 5 && k + |data| <= |s| && s[0] == header && OneLength(s[1..k]) && WireValue(s[1..k]) == |data|
    && s[k..k + |data|] == data
  }

  /** A packet is parsed only where there is one; it is bad only if four length bytes are all followed by more; more is
      needed only if the length is not complete, or announces more than there is. */
  lemma FrameOnWire(s: seq<Byte>)
    ensures match ParseFrame(s)
            case Frame(header, data, used) => FrameAt(s, used - |data|, header, data)
            case BadFrame => |s| >= 5 && forall i | 1 <= i < 5 :: s[i] >= 128
            case NeedMore =>
              || (|s| < 5 && forall i | 1 <= i < |s| :: s[i] >= 128)
              || exists k | 2 <= k <= 5 && k <= |s| :: OneLength(s[1..k]) && k + WireValue(s[1..k]) > |s|
  {
    if s != [] {
      var t, r := s[1..], DecodeLength(s[1..], 0, 1, 0);
      DecodeOnWire(t, 0, 1, 0);
      if r.Length? {
        assert t[0..r.used] == s[1..1 + r.used];
      } else {
        assert forall i | 1 <= i < |s| :: s[i] == t[i - 1];
      }
    }
  }

  /** A packet written out and read back: exact up to the largest length the code can express. */
  lemma FrameRoundTrip(header: Byte, data: seq<Byte>, rest: seq<Byte>)
    ensures ParseFrame(FrameBytes(header, data) + rest)
            == if |data| <= MAX_REMAINING_LENGTH then Frame(header, data, |FrameBytes(header, data)|) else BadFrame
  {
    var code := LengthCode(|data|);
    var s := FrameBytes(header, data) + rest;
    assert s[1..] == code + (data + rest);
    LengthRoundTrip(|data|, data + rest);
    if |data| <= MAX_REMAINING_LENGTH {
      assert s == [header] + code + data + rest;
      assert s[1 + |code|..1 + |code| + |data|] == data;
    }
  }

  // ---------- Integers and strings inside packets ----------

  /** An integer of two bytes: the high-order byte comes first (MQTT 3.1.1, section 1.5.2). */
  ghost function TwoBytes(high: int, low: int): int {
    256 * high + low
  }

  /** writeInt: the two low-order bytes. */
  function IntBytes(n: nat): (s: seq<Byte>)
    ensures |s| == 2
  {
    [n / 256 % 256, n % 256]
  }

  function ReadInt(s: seq<Byte>, i: nat): (n: nat)
    requires i + 2 <= |s|
    ensures n < 65536
  {
    var high: int := s[i];
    256 * high + s[i + 1]
  }

  lemma IntRoundTrip(n: nat, s: seq<Byte>, i: nat)
    requires i + 2 <= |s| && s[i..i + 2] == IntBytes(n)
    ensures ReadInt(s, i) == n % 65536
  {
    assert s[i] == s[i..i + 2][0] && s[i + 1] == s[i..i + 2][1];
  }

  method WriteInt(buf: array<Byte>, at: nat, n: nat) returns (ptr: nat)
    requires at + 2 <= buf.Length
    modifies buf
    ensures ptr == at + 2 && buf[..] == old(buf[..at]) + IntBytes(n) + old(buf[at + 2..])
    ensures TwoBytes(buf[at], buf[at + 1]) == n % 65536
  {
    buf[at] := n / 256 % 256;
    buf[at + 1] := n % 256;
    ptr := at + 2;
  }

  /** readUTFlen: a two-byte length and that many bytes, if they lie before enddata. */
  method ReadUTFlen(data: seq<Byte>, start: nat, enddata: nat) returns (str: Option<seq<Byte>>, curdata: nat)
    requires start <= enddata <= |data|
    ensures str.Some? <==> enddata - start > 1 && start + 2 + TwoBytes(data[start], data[start + 1]) <= enddata
    ensures str.Some? ==>
                curdata == start + 2 + |str.value| <= enddata && |str.value| == TwoBytes(data[start], data[start + 1])
                && str.value == data[start + 2..curdata]
  {
    str, curdata := None, start;
    if enddata - curdata > 1 {
      var len := ReadInt(data, curdata);
      curdata := curdata + 2;
      if curdata + len <= enddata {
        str := Some(data[curdata..curdata + len]);
        curdata := curdata + len;
      }
    }
  }

  // ---------- PUBLISH ----------

  datatype Publish = Publish(header: Header, topic: seq<Byte>, msgId: nat, payload: seq<Byte>)

  /** What MQTTPacket_send_publish can send: the topic is a C string. */
  predicate Sendable(p: Publish) {
    p.header.Valid() && p.header.ptype == PUBLISH && 0 !in p.topic
  }

  function PublishBody(p: Publish): seq<Byte> {
    IntBytes(|p.topic|) + p.topic + (if p.header.qos > 0 then IntBytes(p.msgId) else []) + p.payload
  }

  function PublishBytes(p: Publish): seq<Byte>
    requires p.header.Valid()
  {
    FrameBytes(HeaderByte(p.header), PublishBody(p))
  }

  /** Overrun: the C code reads past the end of the packet. */
  datatype Body<+T> = Packet(value: T) | BadPacket | Overrun

  function ParsePublish(header: Byte, data: seq<Byte>): Body<Publish> {
    var h := HeaderOf(header);
    if |data| < 2 || 2 + ReadInt(data, 0) > |data| then BadPacket
    else
      var end := 2 + ReadInt(data, 0);
      if h.qos == 0 then Packet(Publish(h, data[2..end], 0, data[end..]))
      else if end + 2 > |data| then Overrun
      else Packet(Publish(h, data[2..end], ReadInt(data, end), data[end + 2..]))
  }

  /** MQTTPacket_publish */
  method ReadPublish(aHeader: Byte, data: seq<Byte>) returns (pack: Body<Publish>)
    ensures pack == ParsePublish(aHeader, data)
    ensures pack == BadPacket <==> |data| < 2 || |data| < 2 + TwoBytes(data[0], data[1])
    ensures pack == Overrun ==> aHeader / 2 % 4 > 0 && |data| < 4 + TwoBytes(data[0], data[1])
    ensures pack.Packet? ==>
              var p, h, end := pack.value, pack.value.header, 2 + TwoBytes(data[0], data[1]);
              && h.ptype == aHeader / 16 && h.qos == aHeader / 2 % 4
              && (h.dup <==> aHeader / 8 % 2 == 1) && (h.retain <==> aHeader % 2 == 1)
              && p.topic == data[2..end]
              && if h.qos == 0 then p.msgId == 0 && p.payload == data[end..]
                 else end + 2 <= |data| && p.msgId == TwoBytes(data[end], data[end + 1]) && p.payload == data[end + 2..]
  {
    var header := HeaderOf(aHeader);
    var topic, curdata := ReadUTFlen(data, 0, |data|);
    if topic.None? {
      return BadPacket;
    }
    var msgId := 0;
    if header.qos > 0 {
      if curdata + 2 > |data| {
        return Overrun;
      }
      msgId := ReadInt(data, curdata);
      curdata := curdata + 2;
    }
    pack := Packet(Publish(header, topic.value, msgId, data[curdata..]));
  }

  /** The bytes of a PUBLISH as the standard has them (MQTT 3.1.1, section 3.3): header byte, remaining length, topic
      length with its high byte first, topic, message id unless the QoS is 0, payload. */
  ghost predicate PublishOnWire(s: seq<Byte>, p: Publish, start: nat) {
    && 2 <= start <= |s| && HeaderBits(s[0] as bv8, 3, p.header.dup, p.header.qos, p.header.retain)
    && OneLength(s[1..start]) && WireValue(s[1..start]) == |s| - start
    && BodyOnWire(s[start..], p)
  }

  ghost predicate BodyOnWire(d: seq<Byte>, p: Publish) {
    && |d| >= 2 + |p.topic| && TwoBytes(d[0], d[1]) == |p.topic| % 65536
    && var id := 2 + |p.topic|;
    && d[2..id] == p.topic
    && if p.header.qos == 0 then d[id..] == p.payload
       else |d| >= id + 2 && TwoBytes(d[id], d[id + 1]) == p.msgId % 65536 && d[id + 2..] == p.payload
  }

  lemma BodyBytes(p: Publish)
    requires p.header.Valid()
    ensures BodyOnWire(PublishBody(p), p)
  {
    var d, id, at := PublishBody(p), if p.header.qos > 0 then IntBytes(p.msgId) else [], 2 + |p.topic|;
    Parts(IntBytes(|p.topic|), p.topic, id, p.payload);
    IntRoundTrip(|p.topic|, d, 0);
    if p.header.qos > 0 {
      IntRoundTrip(p.msgId, d, at);
    }
  }

  lemma BytesOnWire(p: Publish)
    requires p.header.Valid() && p.header.ptype == PUBLISH
    ensures PublishOnWire(PublishBytes(p), p, 1 + |LengthCode(|PublishBody(p)|)|)
  {
    var d, code := PublishBody(p), LengthCode(|PublishBody(p)|);
    HeaderOnWire(p.header);
    CodeOnWire(|d|);
    Parts([HeaderByte(p.header)], code, d, []);
    BodyBytes(p);
  }

  /** MQTTPacket_send_publish: the gather list it hands to the socket, fixed header first. */
  method SendPublish(p: Publish) returns (bufs: seq<seq<Byte>>)
    requires Sendable(p) && |PublishBody(p)| < 0x8000_0000
    ensures Flatten(bufs) == PublishBytes(p) && |bufs| == if p.header.qos > 0 then 5 else 4
    ensures exists start :: PublishOnWire(Flatten(bufs), p, start)
  {
    BytesOnWire(p);
    var topiclen := new Byte[2](_ => 0);
    var _ := WriteInt(topiclen, 0, |p.topic|);
    assert topiclen[..] == IntBytes(|p.topic|);
    if p.header.qos > 0 {
      var buf := new Byte[2](_ => 0);
      var _ := WriteInt(buf, 0, p.msgId);
      assert buf[..] == IntBytes(p.msgId);
      bufs := [topiclen[..], p.topic, buf[..], p.payload];
    } else {
      bufs := [topiclen[..], p.topic, p.payload];
    }
    FlattenFew(IntBytes(|p.topic|), p.topic, IntBytes(p.msgId), p.payload);
    assert Flatten(bufs) == PublishBody(p);
    var buf0 := FixedHeader(HeaderByte(p.header), bufs);
    bufs := [buf0] + bufs;
  }

  lemma FlattenFew(a: seq<Byte>, b: seq<Byte>, c: seq<Byte>, d: seq<Byte>)
    ensures Flatten([a, b, c, d]) == a + b + c + d
    ensures Flatten([a, b, d]) == a + b + d
  {
    assert [d][1..] == [] && Flatten([d]) == d;
    assert [c, d][1..] == [d] && Flatten([c, d]) == c + d;
    assert [b, c, d][1..] == [c, d] && Flatten([b, c, d]) == b + (c + d);
    assert [a, b, c, d][1..] == [b, c, d];
    assert [b, d][1..] == [d] && Flatten([b, d]) == b + d;
    assert [a, b, d][1..] == [b, d];
  }

  /** The start of MQTTPacket_sends: header byte and the encoded total of the buffers. */
  method FixedHeader(header: Byte, bufs: seq<seq<Byte>>) returns (buf0: seq<Byte>)
    requires |Flatten(bufs)| < 0x8000_0000
    ensures buf0 == [header] + LengthCode(|Flatten(bufs)|)
  {
    var buf := new Byte[10](_ => 0);
    buf[0] := header;
    var total, i := 0, 0;
    while i < |bufs|
      invariant 0 <= i <= |bufs| && total == |Flatten(bufs[..i])| && buf[..1] == [header]
    {
      FlattenConcat(bufs[..i], [bufs[i]]);
      assert bufs[..i] + [bufs[i]] == bufs[..i + 1];
      total := total + |bufs[i]|;
      i := i + 1;
    }
    assert bufs[..i] == bufs;
    var n := Encode(buf, 1, total);
    buf0 := buf[..1 + n];
  }

  /** What is sent is what is parsed, for every topic up to 65535 bytes, 16-bit id and total length the code can
      express. */
  lemma PublishRoundTrip(p: Publish, rest: seq<Byte>)
    requires p.header.Valid() && |p.topic| < 65536 && p.msgId < 65536 && (p.header.qos == 0 ==> p.msgId == 0)
    requires |PublishBody(p)| <= MAX_REMAINING_LENGTH
    ensures var f := ParseFrame(PublishBytes(p) + rest);
            f.Frame? && f.used == |PublishBytes(p)| && ParsePublish(f.header, f.data) == Packet(p)
  {
    FrameRoundTrip(HeaderByte(p.header), PublishBody(p), rest);
    HeaderRoundTrip(p.header);
    BodyRoundTrip(p);
  }

  lemma BodyRoundTrip(p: Publish)
    requires p.header.Valid() && |p.topic| < 65536 && p.msgId < 65536 && (p.header.qos == 0 ==> p.msgId == 0)
    ensures ParsePublish(HeaderByte(p.header), PublishBody(p)) == Packet(p)
  {
    HeaderRoundTrip(p.header);
    var d, id, end := PublishBody(p), if p.header.qos > 0 then IntBytes(p.msgId) else [], 2 + |p.topic|;
    Parts(IntBytes(|p.topic|), p.topic, id, p.payload);
    assert ReadInt(d, 0) == |p.topic| && d[2..end] == p.topic by {
      IntRoundTrip(|p.topic|, d, 0);
    }
    if p.header.qos > 0 {
      assert ReadInt(d, end) == p.msgId && d[end + 2..] == p.payload by {
        IntRoundTrip(p.msgId, d, end);
      }
    } else {
      assert d[end..] == p.payload;
    }
  }

  lemma Parts(a: seq<Byte>, b: seq<Byte>, c: seq<Byte>, d: seq<Byte>)
    ensures var s, i, j := a + b + c + d, |a| + |b|, |a| + |b| + |c|;
            s[0..|a|] == a && s[|a|..i] == b && s[i..j] == c && s[j..] == d
  {
  }

  /** A longer topic loses the high part of its length, and is not parsed back. */
  lemma LongTopicTruncated(p: Publish)
    requires p.header.Valid() && |p.topic| >= 65536
    ensures ParsePublish(HeaderByte(p.header), PublishBody(p)) != Packet(p)
  {
  }

  // ---------- Acknowledgements ----------

  datatype Ack = Ack(header: Header, msgId: nat)

  /** MQTTPacket_send_ack: QoS bits 1 in a PUBREL. */
  function AckHeader(ptype: int, dup: bool): Header {
    Header(ptype, dup, if ptype == PUBREL then 1 else 0, false)
  }

  function AckBytes(ptype: int, msgId: nat, dup: bool): seq<Byte>
    requires 0 <= ptype < 16
  {
    FrameBytes(HeaderByte(AckHeader(ptype, dup)), IntBytes(msgId))
  }

  /** MQTTPacket_ack */
  function ParseAck(header: Byte, data: seq<Byte>): Body<Ack> {
    if |data| < 2 then Overrun else Packet(Ack(HeaderOf(header), ReadInt(data, 0)))
  }

  /** MQTTPacket_send_ack and MQTTPacket_send: the whole packet (MQTT 3.1.1, sections 3.4 to 3.7). */
  method SendAck(ptype: int, msgid: nat, dup: bool) returns (packet: seq<Byte>)
    requires PUBACK <= ptype <= PUBCOMP
    ensures packet == AckBytes(ptype, msgid, dup)
    ensures |packet| == 4 && packet[1] == 2 && TwoBytes(packet[2], packet[3]) == msgid % 65536
    ensures packet[0] == (match ptype case 4 => 0x40 case 5 => 0x50 case 6 => 0x62 case _ => 0x70)
                         + if dup then 8 else 0
  {
    var buf := new Byte[2](_ => 0);
    var _ := WriteInt(buf, 0, msgid);
    var header := Header(ptype, dup, if ptype == PUBREL then 1 else 0, false);
    assert buf[..] == IntBytes(msgid) && Flatten([buf[..]]) == buf[..];
    var buf0 := FixedHeader(HeaderByte(header), [buf[..]]);
    packet := buf0 + buf[..];
    assert LengthCode(2) == [2];
  }

  lemma AckRoundTrip(ptype: int, msgId: nat, dup: bool, rest: seq<Byte>)
    requires 0 <= ptype < 16 && msgId < 65536
    ensures var f := ParseFrame(AckBytes(ptype, msgId, dup) + rest);
            f.Frame? && f.used == 4 && ParseAck(f.header, f.data) == Packet(Ack(AckHeader(ptype, dup), msgId))
  {
    HeaderRoundTrip(AckHeader(ptype, dup));
    FrameRoundTrip(HeaderByte(AckHeader(ptype, dup)), IntBytes(msgId), rest);
    assert IntBytes(msgId)[0..2] == IntBytes(msgId);
    IntRoundTrip(msgId, IntBytes(msgId), 0);
    assert LengthCode(2) == [2];
  }
}
