/**
 The UTF-8 validator of src/utf-8.c: a scan driven by a table of well-formed byte ranges.
 The reference is the encoding itself (RFC 3629, section 3).
 */
module Utf8 {

  import opened Bytes

  // ---------- The encoding ----------

  /** A Unicode scalar value: a code point up to U+10FFFF that is not a surrogate. */
  predicate Scalar(cp: int) {
    0 <= cp <= 0x10FFFF && !(0xD800 <= cp <= 0xDFFF)
  }

  function Encode(cp: int): (bytes: seq<Byte>)
    requires Scalar(cp)
    ensures 1 <= |bytes| <= 4
  {
    if cp < 0x80 then [cp]
    else if cp < 0x800 then [0xC0 + cp / 64, 0x80 + cp % 64]
    else if cp < 0x10000 then [0xE0 + cp / 4096, 0x80 + cp / 64 % 64, 0x80 + cp % 64]
    else [0xF0 + cp / 262144, 0x80 + cp / 4096 % 64, 0x80 + cp / 64 % 64, 0x80 + cp % 64]
  }

  ghost predicate Scalars(cps: seq<int>) {
    forall i | 0 <= i < |cps| :: Scalar(cps[i])
  }

  function EncodeAll(cps: seq<int>): seq<Byte>
    requires Scalars(cps)
  {
    if cps == [] then [] else Encode(cps[0]) + EncodeAll(cps[1..])
  }

  /** The UTF-8 encoding of some sequence of scalar values. */
  ghost predicate WellFormed(s: seq<Byte>) {
    exists cps | Scalars(cps) :: EncodeAll(cps) == s
  }

  // ---------- The table ----------

  datatype Range = Range(lower: Byte, upper: Byte)

  const VALID_RANGES: seq<seq<Range>> := [
    [Range(0x00, 0x7F)],
    [Range(0xC2, 0xDF), Range(0x80, 0xBF)],
    [Range(0xE0, 0xE0), Range(0xA0, 0xBF), Range(0x80, 0xBF)],
    [Range(0xE1, 0xEC), Range(0x80, 0xBF), Range(0x80, 0xBF)],
    [Range(0xED, 0xED), Range(0x80, 0x9F), Range(0x80, 0xBF)],
    [Range(0xEE, 0xEF), Range(0x80, 0xBF), Range(0x80, 0xBF)],
    [Range(0xF0, 0xF0), Range(0x90, 0xBF), Range(0x80, 0xBF), Range(0x80, 0xBF)],
    [Range(0xF1, 0xF3), Range(0x80, 0xBF), Range(0x80, 0xBF), Range(0x80, 0xBF)],
    [Range(0xF4, 0xF4), Range(0x80, 0x8F), Range(0x80, 0xBF), Range(0x80, 0xBF)]
  ]

  /** How many bytes the top bits of the first byte announce. */
  function CharLen(b: Byte): (n: int)
    ensures 1 <= n <= 4
  {
    if b < 128 then 1 else if b >= 0xF0 then 4 else if b >= 0xE0 then 3 else 2
  }

  /** The masks of the C code select those ranges. */
  lemma CharLenMasks(b: bv8)
    ensures b & 128 == 0 <==> b < 128
    ensures b & 0xF0 == 0xF0 <==> b >= 0xF0
    ensures b & 0xE0 == 0xE0 <==> b >= 0xE0
  {
  }

  predicate InRange(b: Byte, r: Range) {
    r.lower <= b <= r.upper
  }

  ghost predicate RowMatches(row: seq<Range>, s: seq<Byte>, i: int) {
    0 <= i && i + |row| <= |s| && forall j | 0 <= j < |row| :: InRange(s[i + j], row[j])
  }

  /** The table has a row for the bytes at i. */
  ghost predicate Good(s: seq<Byte>, i: int)
    requires 0 <= i < |s|
  {
    exists r | 0 <= r < |VALID_RANGES| && |VALID_RANGES[r]| == CharLen(s[i]) :: RowMatches(VALID_RANGES[r], s, i)
  }

  ghost predicate At(s: seq<Byte>, i: int, bytes: seq<Byte>) {
    0 <= i && i + |bytes| <= |s| && forall j | 0 <= j < |bytes| :: s[i + j] == bytes[j]
  }

  predicate Tail(b: int) {
    0x80 <= b <= 0xBF
  }

  lemma TwoBytes(b0: int, b1: int) returns (cp: int)
    requires 0xC2 <= b0 <= 0xDF && Tail(b1)
    ensures Scalar(cp) && Encode(cp) == [b0, b1]
  {
    cp := (b0 - 0xC0) * 64 + (b1 - 0x80);
  }

  lemma ThreeBytes(b0: int, b1: int, b2: int) returns (cp: int)
    requires 0xE0 <= b0 <= 0xEF && Tail(b1) && Tail(b2) && (b0 == 0xE0 ==> b1 >= 0xA0) && (b0 == 0xED ==> b1 <= 0x9F)
    ensures Scalar(cp) && Encode(cp) == [b0, b1, b2]
  {
    cp := (b0 - 0xE0) * 4096 + (b1 - 0x80) * 64 + (b2 - 0x80);
    assert cp / 64 == (b0 - 0xE0) * 64 + (b1 - 0x80);
  }

  lemma FourBytes(b0: int, b1: int, b2: int, b3: int) returns (cp: int)
    requires 0xF0 <= b0 <= 0xF4 && Tail(b1) && Tail(b2) && Tail(b3) && (b0 == 0xF0 ==> b1 >= 0x90)
             && (b0 == 0xF4 ==> b1 <= 0x8F)
    ensures Scalar(cp) && Encode(cp) == [b0, b1, b2, b3]
  {
    cp := (b0 - 0xF0) * 262144 + (b1 - 0x80) * 4096 + (b2 - 0x80) * 64 + (b3 - 0x80);
    assert cp / 64 == (b0 - 0xF0) * 4096 + (b1 - 0x80) * 64 + (b2 - 0x80);
    assert cp / 4096 == (b0 - 0xF0) * 64 + (b1 - 0x80);
  }

  /** What the rows of the table have in common. */
  lemma RowFacts(r: int, s: seq<Byte>, i: int)
    requires 0 <= r < |VALID_RANGES| && RowMatches(VALID_RANGES[r], s, i)
    ensures var n := |VALID_RANGES[r]|;
            && (n == 1 ==> s[i] < 0x80) && (n == 2 ==> 0xC2 <= s[i] <= 0xDF && Tail(s[i + 1]))
            && (n == 3 ==> 0xE0 <= s[i] <= 0xEF && Tail(s[i + 1]) && Tail(s[i + 2])
                           && (s[i] == 0xE0 ==> s[i + 1] >= 0xA0) && (s[i] == 0xED ==> s[i + 1] <= 0x9F))
            && (n == 4 ==> 0xF0 <= s[i] <= 0xF4 && Tail(s[i + 1]) && Tail(s[i + 2]) && Tail(s[i + 3])
                           && (s[i] == 0xF0 ==> s[i + 1] >= 0x90) && (s[i] == 0xF4 ==> s[i + 1] <= 0x8F))
  {
    var row := VALID_RANGES[r];
    assert InRange(s[i + 0], row[0]);
    if |row| > 1 { assert InRange(s[i + 1], row[1]); }
    if |row| > 2 { assert InRange(s[i + 2], row[2]); }
    if |row| > 3 { assert InRange(s[i + 3], row[3]); }
  }

  /** Where a row of the table matches, the encoding of a scalar value stands. */
  lemma GoodDecodes(s: seq<Byte>, i: int) returns (cp: int)
    requires 0 <= i < |s| && Good(s, i)
    ensures Scalar(cp) && |Encode(cp)| == CharLen(s[i]) && At(s, i, Encode(cp))
  {
    var r :| 0 <= r < |VALID_RANGES| && |VALID_RANGES[r]| == CharLen(s[i]) && RowMatches(VALID_RANGES[r], s, i);
    RowFacts(r, s, i);
    var n := CharLen(s[i]);
    if n == 1 {
      cp := s[i];
    } else if n == 2 {
      cp := TwoBytes(s[i], s[i + 1]);
    } else if n == 3 {
      cp := ThreeBytes(s[i], s[i + 1], s[i + 2]);
    } else {
      cp := FourBytes(s[i], s[i + 1], s[i + 2], s[i + 3]);
    }
  }

  /** The row of the table for a first and second byte. */
  function RowOf(n: int, b: int): int {
    if n == 1 then 0 else if n == 2 then 1
    else if n == 3 then (if b == 0xE0 then 2 else if b < 0xED then 3 else if b == 0xED then 4 else 5)
    else if b == 0xF0 then 6 else if b < 0xF4 then 7 else 8
  }

  lemma EncodeRow(cp: int)
    requires Scalar(cp)
    ensures var e := Encode(cp); var r := RowOf(|e|, e[0]);
            CharLen(e[0]) == |e| == |VALID_RANGES[r]| && RowMatches(VALID_RANGES[r], e, 0)
  {
  }

  /** Every encoding of a scalar value is in the table. */
  lemma EncodeGood(s: seq<Byte>, i: int, cp: int)
    requires Scalar(cp) && At(s, i, Encode(cp))
    ensures 0 <= i < |s| && CharLen(s[i]) == |Encode(cp)| && Good(s, i)
  {
    EncodeRow(cp);
    var e := Encode(cp);
    var r := RowOf(|e|, e[0]);
    assert s[i + 0] == e[0];
    forall j | 0 <= j < |e|
      ensures InRange(s[i + j], VALID_RANGES[r][j])
    {
      assert InRange(e[0 + j], VALID_RANGES[r][j]);
    }
    assert RowMatches(VALID_RANGES[r], s, i);
  }

  // ---------- The scan ----------

  /** What UTF8_validate does from position i of a string of `len` bytes, in a memory that goes on after it. */
  ghost predicate Scans(mem: seq<Byte>, len: int, i: int)
    requires 0 <= i && len <= |mem|
    decreases len - i
  {
    i < len ==> CharLen(mem[i]) <= len && Good(mem, i) && Scans(mem, len, i + CharLen(mem[i]))
  }

  /** A character begins before the end of the string and is completed by the memory after it. */
  ghost predicate Straddles(mem: seq<Byte>, len: int, i: int)
    requires 0 <= i && len <= |mem|
    decreases len - i
  {
    i < len && CharLen(mem[i]) <= len && Good(mem, i)
    && (i + CharLen(mem[i]) > len || Straddles(mem, len, i + CharLen(mem[i])))
  }

  lemma {:induction false} ScanDecodes(mem: seq<Byte>, len: int, i: int) returns (cps: seq<int>)
    requires 0 <= i <= len <= |mem| && Scans(mem, len, i) && !Straddles(mem, len, i)
    ensures Scalars(cps) && EncodeAll(cps) == mem[i..len]
    decreases len - i
  {
    if i == len {
      cps := [];
    } else {
      var cp := GoodDecodes(mem, i);
      var k := i + CharLen(mem[i]);
      var rest := ScanDecodes(mem, len, k);
      cps := [cp] + rest;
      assert cps[1..] == rest;
      assert mem[i..len] == mem[i..k] + mem[k..len];
      assert mem[i..k] == Encode(cp);
    }
  }

  lemma {:induction false} EncodingScans(mem: seq<Byte>, len: int, i: int, cps: seq<int>)
    requires 0 <= i <= len <= |mem| && Scalars(cps) && EncodeAll(cps) == mem[i..len]
    ensures Scans(mem, len, i) && !Straddles(mem, len, i)
    decreases len - i
  {
    if i < len {
      var e := Encode(cps[0]);
      assert mem[i..len] == e + EncodeAll(cps[1..]);
      forall j | 0 <= j < |e|
        ensures mem[i + j] == e[j]
      {
        assert mem[i..len][j] == e[j];
      }
      EncodeGood(mem, i, cps[0]);
      assert mem[i..len][|e|..] == mem[i + |e|..len];
      EncodingScans(mem, len, i + |e|, cps[1..]);
    }
  }

  /** UTF8_validate accepts a string exactly if it is well-formed, unless its last character straddles the end. */
  lemma ScanExact(mem: seq<Byte>, len: int)
    requires 0 <= len <= |mem|
    ensures WellFormed(mem[..len]) <==> Scans(mem, len, 0) && !Straddles(mem, len, 0)
  {
    assert mem[..len] == mem[0..len];
    if Scans(mem, len, 0) && !Straddles(mem, len, 0) {
      var cps := ScanDecodes(mem, len, 0);
    }
    if WellFormed(mem[..len]) {
      var cps :| Scalars(cps) && EncodeAll(cps) == mem[..len];
      EncodingScans(mem, len, 0, cps);
    }
  }

  /** Such a string: "A" and a lead byte, two bytes long, with a continuation byte lying behind them. */
  lemma StraddleAccepted()
    ensures var mem := [0x41, 0xC2, 0x80]; Readable(mem, 2, 0) && Scans(mem, 2, 0) && !WellFormed(mem[..2])
  {
    var mem: seq<Byte> := [0x41, 0xC2, 0x80];
    assert At(mem, 0, Encode(0x41)) && At(mem, 1, Encode(0x80));
    EncodeGood(mem, 0, 0x41);
    EncodeGood(mem, 1, 0x80);
    assert Straddles(mem, 2, 1) && Scans(mem, 2, 1);
    ScanExact(mem, 2);
  }

  /** The bytes of a row that the code looks at are there: all of them, or those up to one out of range. */
  ghost predicate RowReadable(row: seq<Range>, mem: seq<Byte>, i: int) {
    0 <= i && (i + |row| <= |mem| || exists j | 0 <= j < |row| && i + j < |mem| :: !InRange(mem[i + j], row[j]))
  }

  ghost predicate CharReadable(mem: seq<Byte>, len: int, i: int)
    requires 0 <= i < len <= |mem|
  {
    CharLen(mem[i]) <= len ==> forall r | 0 <= r < |VALID_RANGES| && |VALID_RANGES[r]| == CharLen(mem[i]) ::
      RowReadable(VALID_RANGES[r], mem, i)
  }

  /** The scan from i reads only what is there. */
  ghost predicate Readable(mem: seq<Byte>, len: int, i: int)
    requires 0 <= i && len <= |mem|
    decreases len - i
  {
    i < len ==> CharReadable(mem, len, i) && (CharLen(mem[i]) <= len && Good(mem, i) ==>
      Readable(mem, len, i + CharLen(mem[i])))
  }

  /** Behind a terminator that is no continuation byte nothing is read, and nothing straddles. */
  lemma {:induction false} TerminatorStops(mem: seq<Byte>, len: int, i: int)
    requires 0 <= i && 0 <= len < |mem| && !Tail(mem[len])
    ensures !Straddles(mem, len, i) && Readable(mem, len, i)
    decreases len - i
  {
    if i < len {
      forall r | 0 <= r < |VALID_RANGES| && |VALID_RANGES[r]| == CharLen(mem[i])
        ensures RowReadable(VALID_RANGES[r], mem, i)
      {
        TerminatorOutOfRange(mem, len, i, r);
      }
      if Good(mem, i) {
        var r :| 0 <= r < |VALID_RANGES| && |VALID_RANGES[r]| == CharLen(mem[i]) && RowMatches(VALID_RANGES[r], mem, i);
        RowFacts(r, mem, i);
        TerminatorStops(mem, len, i + CharLen(mem[i]));
      }
    }
  }

  lemma TerminatorOutOfRange(mem: seq<Byte>, len: int, i: int, r: int)
    requires 0 <= i < len < |mem| && !Tail(mem[len]) && 0 <= r < |VALID_RANGES|
    ensures RowReadable(VALID_RANGES[r], mem, i)
  {
    var row, j := VALID_RANGES[r], len - i;
    if j < |row| {
      assert row[j].lower >= 0x80 && row[j].upper <= 0xBF;
      assert !InRange(mem[i + j], row[j]);
    }
  }

  // ---------- The methods ----------

  /** UTF8_char_validate: the position after the character at `start`, if there is a good one. */
  method CharValidate(len: int, data: array<Byte>, start: int) returns (rc: int)
    requires 0 <= start < len <= data.Length && CharReadable(data[..], len, start)
    ensures if CharLen(data[start]) <= len && Good(data[..], start) then rc == start + CharLen(data[start])
            else rc == -1
  {
    var charlen := CharLen(data[start]);
    rc := -1;
    if charlen > len {
      return;
    }
    var good, i := false, 0;
    while i < |VALID_RANGES|
      invariant 0 <= i <= |VALID_RANGES| && !good
      invariant forall r | 0 <= r < i && |VALID_RANGES[r]| == charlen :: !RowMatches(VALID_RANGES[r], data[..], start)
    {
      if |VALID_RANGES[i]| == charlen {
        good := RowValidate(data, start, VALID_RANGES[i]);
        if good {
          break;
        }
      }
      i := i + 1;
    }
    if good {
      rc := start + charlen;
    }
  }

  /** The inner loop: checks one row, up to the first byte out of range. */
  method RowValidate(data: array<Byte>, start: int, row: seq<Range>) returns (good: bool)
    requires 0 <= start < data.Length && RowReadable(row, data[..], start)
    ensures good <==> RowMatches(row, data[..], start)
  {
    good := true;
    var j := 0;
    while j < |row|
      invariant 0 <= j <= |row| && good
      invariant forall k | 0 <= k < j :: start + k < data.Length && InRange(data[..][start + k], row[k])
    {
      if data[start + j] < row[j].lower || data[start + j] > row[j].upper {
        good := false;
        assert !InRange(data[..][start + j], row[j]);
        break;
      }
      j := j + 1;
    }
  }

  /** UTF8_validate */
  method Validate(len: int, data: array<Byte>) returns (rc: bool)
    requires 0 <= len <= data.Length && Readable(data[..], len, 0)
    ensures rc <==> Scans(data[..], len, 0)
    ensures WellFormed(data[..len]) <==> rc && !Straddles(data[..], len, 0)
  {
    ScanExact(data[..], len);
    assert data[..][..len] == data[..len];
    if len == 0 {
      return true;
    }
    var curdata := CharValidate(len, data, 0);
    while curdata != -1 && curdata < len
      invariant curdata != -1 ==>
                    0 <= curdata && (Scans(data[..], len, curdata) <==> Scans(data[..], len, 0))
                    && Readable(data[..], len, curdata)
      invariant curdata == -1 ==> !Scans(data[..], len, 0)
      decreases if curdata == -1 then 0 else 1 + len - curdata
    {
      curdata := CharValidate(len, data, curdata);
    }
    rc := curdata != -1;
  }

  /** UTF8_validateString: a C string is accepted exactly if it is the encoding of scalar values other than NUL. */
  method ValidateString(str: array<Byte>, ghost len: int) returns (rc: bool)
    requires 0 <= len < str.Length && str[len] == 0 && forall i | 0 <= i < len :: str[i] != 0
    ensures rc <==> exists cps | Scalars(cps) && 0 !in cps :: EncodeAll(cps) == str[..len]
  {
    var n := 0;
    while str[n] != 0
      invariant 0 <= n <= len
      decreases len - n
    {
      n := n + 1;
    }
    TerminatorStops(str[..], n, 0);
    rc := Validate(n, str);
    if WellFormed(str[..n]) {
      ghost var cps :| Scalars(cps) && EncodeAll(cps) == str[..n];
      NoNulEncoded(cps);
    }
  }

  /** A C string that is UTF-8 encodes no NUL character. */
  lemma {:induction false} NoNulEncoded(cps: seq<int>)
    requires Scalars(cps)
    ensures 0 in cps <==> 0 in EncodeAll(cps)
  {
    if cps != [] {
      NoNulEncoded(cps[1..]);
      assert 0 in Encode(cps[0]) ==> cps[0] == 0 by {
        if cps[0] >= 0x80 { assert forall b | b in Encode(cps[0]) :: b >= 0x80; }
      }
      if cps[0] == 0 { assert Encode(cps[0])[0] == 0; }
      assert cps == [cps[0]] + cps[1..];
    }
  }
}
