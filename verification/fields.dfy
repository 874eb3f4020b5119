/**
 One field of a message: which wire types each message accepts for it, how the decoders
 read the next field off a buffer, and how the encoders write a record in front of what
 they have written already.
 */
module Fields {
  import opened Common
  import opened Wire

  datatype Message =
    | AnyValueMsg | ArrayValueMsg | KeyValueMsg | KeyValueListMsg | EntityRefMsg | BucketsMsg

  /** The wire types a decoder accepts for a field; empty for a field it does not know. */
  function Accepted(m: Message, fieldNum: int): set<nat> {
    match m
    case AnyValueMsg =>
      if fieldNum in {1, 5, 6, 7} then {LEN}
      else if fieldNum in {2, 3, 8} then {VARINT}
      else if fieldNum == 4 then {I64_WORD}
      else {}
    case ArrayValueMsg => if fieldNum == 1 then {LEN} else {}
    case KeyValueListMsg => if fieldNum == 1 then {LEN} else {}
    case KeyValueMsg =>
      if fieldNum in {1, 2} then {LEN} else if fieldNum == 3 then {VARINT} else {}
    case EntityRefMsg => if fieldNum in {1, 2, 3, 4} then {LEN} else {}
    case BucketsMsg =>
      if fieldNum == 1 then {VARINT} else if fieldNum == 2 then {LEN, VARINT} else {}
  }

  datatype Token =
    | Skipped
    | VarintField(fieldNum: int, value: U64)
    | WordField(fieldNum: int, bits: U64)
    | BytesField(fieldNum: int, payload: seq<Byte>)

  function Payload(bs: seq<Byte>, tag: Tag): (r: Read<Token>)
    ensures r.Got? ==> r.size <= |bs|
    ensures r.Got? && r.value.BytesField? ==> |r.value.payload| < r.size
  {
    if tag.wireType == LEN then
      match ReadLen(bs)
      case Got(p, n) => Got(BytesField(tag.fieldNum, p), n)
      case Bad(e) => Bad(e)
    else if tag.wireType == VARINT then
      match ReadVarint(bs)
      case Got(v, n) => Got(VarintField(tag.fieldNum, v), n)
      case Bad(e) => Bad(e)
    else
      match ReadFixed(bs, 8)
      case Got(w, n) => Got(WordField(tag.fieldNum, w), n)
      case Bad(e) => Bad(e)
  }

  /** The next field of message m at the front of bs. */
  function NextField(m: Message, bs: seq<Byte>): (r: Read<Token>)
    ensures r.Got? ==> 0 < r.size <= |bs|
    ensures r.Got? && r.value.BytesField? ==> |r.value.payload| < |bs|
  {
    match ReadTag(bs)
    case Bad(e) => Bad(e)
    case Got(tag, n) =>
      var accepted := Accepted(m, tag.fieldNum);
      var r :=
        if accepted == {} then
          match SkipUnknown(bs[n..], tag.wireType, 0)
          case Got(_, k) => Got(Skipped, k)
          case Bad(e) => Bad(e)
        else if tag.wireType !in accepted then Bad(WrongWireType(tag.fieldNum, tag.wireType))
        else Payload(bs[n..], tag);
      match r
      case Got(t, k) => Got(t, n + k)
      case Bad(e) => Bad(e)
  }

  method ConsumeField(m: Message, buf: seq<Byte>, pos: nat) returns (r: Read<Token>)
    requires pos <= |buf| <= MAX_LEN
    ensures r == NextField(m, buf[pos..])
  {
    var head := ConsumeTag(buf, pos);
    if head.Bad? {
      return Bad(head.error);
    }
    var tag, at := head.value, pos + head.size;
    assert buf[pos..][head.size..] == buf[at..];
    var accepted := Accepted(m, tag.fieldNum);
    if accepted == {} {
      var skipped := ConsumeUnknown(buf, at, tag.wireType);
      return if skipped.Got? then Got(Skipped, head.size + skipped.size) else Bad(skipped.error);
    } else if tag.wireType !in accepted {
      return Bad(WrongWireType(tag.fieldNum, tag.wireType));
    } else if tag.wireType == LEN {
      var p := ConsumeLen(buf, at);
      return if p.Got? then Got(BytesField(tag.fieldNum, p.value), head.size + p.size) else Bad(p.error);
    } else if tag.wireType == VARINT {
      var v := ConsumeVarint(buf, at);
      return if v.Got? then Got(VarintField(tag.fieldNum, v.value), head.size + v.size) else Bad(v.error);
    } else {
      var w := ConsumeI64(buf, at);
      return if w.Got? then Got(WordField(tag.fieldNum, w.value), head.size + w.size) else Bad(w.error);
    }
  }

  // ----- what follows a field does not change how it reads

  lemma VarintExtends(x: seq<Byte>, y: seq<Byte>)
    requires ReadVarint(x).Got?
    ensures ReadVarint(x + y) == ReadVarint(x)
  {
    RawVarintExtends(x, y, 0);
  }

  lemma LenExtends(x: seq<Byte>, y: seq<Byte>)
    requires ReadLen(x).Got?
    ensures ReadLen(x + y) == ReadLen(x)
  {
    VarintExtends(x, y);
    var r := ReadLen(x);
    assert (x + y)[r.size - |r.value|..r.size] == x[r.size - |r.value|..r.size];
  }

  lemma FixedExtends(x: seq<Byte>, y: seq<Byte>, width: nat)
    requires ReadFixed(x, width).Got?
    ensures ReadFixed(x + y, width) == ReadFixed(x, width)
  {
    assert (x + y)[..width] == x[..width];
  }

  lemma {:induction false} SkipExtends(x: seq<Byte>, y: seq<Byte>, wireType: nat, depth: nat)
    requires SkipUnknown(x, wireType, depth).Got?
    ensures SkipUnknown(x + y, wireType, depth) == SkipUnknown(x, wireType, depth)
    decreases |x|
  {
    if wireType == VARINT {
      VarintExtends(x, y);
    } else if wireType == I64_WORD {
      FixedExtends(x, y, 8);
    } else if wireType == LEN {
      LenExtends(x, y);
    } else if wireType == I32_WORD {
      FixedExtends(x, y, 4);
    } else if wireType == START_GROUP {
      SkipNextExtends(x, y, depth + 1);
    } else if depth > 1 {
      SkipNextExtends(x, y, depth - 1);
    }
  }

  lemma {:induction false} SkipNextExtends(x: seq<Byte>, y: seq<Byte>, depth: nat)
    requires SkipNext(x, depth).Got?
    ensures SkipNext(x + y, depth) == SkipNext(x, depth)
    decreases |x|, 0
  {
    VarintExtends(x, y);
    var n := ReadTag(x).size;
    assert (x + y)[n..] == x[n..] + y;
    SkipExtends(x[n..], y, ReadTag(x).value.wireType, depth);
  }

  lemma PayloadExtends(x: seq<Byte>, y: seq<Byte>, tag: Tag)
    requires Payload(x, tag).Got?
    ensures Payload(x + y, tag) == Payload(x, tag)
  {
    if tag.wireType == LEN {
      LenExtends(x, y);
    } else if tag.wireType == VARINT {
      VarintExtends(x, y);
    } else {
      FixedExtends(x, y, 8);
    }
  }

  lemma NextFieldExtends(m: Message, x: seq<Byte>, y: seq<Byte>)
    requires NextField(m, x).Got?
    ensures NextField(m, x + y) == NextField(m, x)
  {
    VarintExtends(x, y);
    var tag, n := ReadTag(x).value, ReadTag(x).size;
    assert (x + y)[n..] == x[n..] + y;
    if Accepted(m, tag.fieldNum) == {} {
      SkipExtends(x[n..], y, tag.wireType, 0);
    } else {
      PayloadExtends(x[n..], y, tag);
    }
  }

  // ----- records: what the encoders write for one field

  type FieldNum = f: nat | 1 <= f < 16 witness 1

  function TagByte(f: FieldNum, wireType: nat): Byte
    requires wireType < 8
  {
    8 * f + wireType
  }

  function VarintRecord(f: FieldNum, v: U64): seq<Byte> {
    [TagByte(f, VARINT)] + Varint(v)
  }

  function WordRecord(f: FieldNum, bits: U64): seq<Byte> {
    [TagByte(f, I64_WORD)] + LittleEndian(bits, 8)
  }

  function BytesRecord(f: FieldNum, payload: seq<Byte>): seq<Byte> {
    [TagByte(f, LEN)] + Varint(|payload|) + payload
  }

  /** A string field is left out when it is empty. */
  function OptionalBytes(f: FieldNum, payload: seq<Byte>): seq<Byte> {
    if payload == [] then [] else BytesRecord(f, payload)
  }

  /** A number field is left out when it is zero. */
  function OptionalVarint(f: FieldNum, v: U64): seq<Byte> {
    if v == 0 then [] else VarintRecord(f, v)
  }

  lemma TagReads(f: FieldNum, wireType: nat, rest: seq<Byte>)
    requires wireType < 8
    ensures ReadTag([TagByte(f, wireType)] + rest) == Got(Tag(f, wireType), 1)
    ensures ([TagByte(f, wireType)] + rest)[1..] == rest
  {
    assert Varint(TagByte(f, wireType)) == [TagByte(f, wireType)];
    ReadVarintRoundTrip(TagByte(f, wireType), rest);
  }

  lemma VarintRecordReads(m: Message, f: FieldNum, v: U64, rest: seq<Byte>)
    requires VARINT in Accepted(m, f)
    ensures NextField(m, VarintRecord(f, v) + rest) == Got(VarintField(f, v), |VarintRecord(f, v)|)
  {
    assert VarintRecord(f, v) + rest == [TagByte(f, VARINT)] + (Varint(v) + rest);
    TagReads(f, VARINT, Varint(v) + rest);
    ReadVarintRoundTrip(v, rest);
  }

  lemma WordRecordReads(m: Message, f: FieldNum, bits: U64, rest: seq<Byte>)
    requires I64_WORD in Accepted(m, f)
    ensures NextField(m, WordRecord(f, bits) + rest) == Got(WordField(f, bits), |WordRecord(f, bits)|)
  {
    var word := LittleEndian(bits, 8);
    assert WordRecord(f, bits) + rest == [TagByte(f, I64_WORD)] + (word + rest);
    TagReads(f, I64_WORD, word + rest);
    Pow256Values();
    LittleEndianRoundTrip(bits, 8);
    assert (word + rest)[..8] == word;
  }

  lemma LenReads(payload: seq<Byte>, rest: seq<Byte>)
    requires |payload| <= MAX_LEN
    ensures ReadLen(Varint(|payload|) + payload + rest) == Got(payload, |Varint(|payload|)| + |payload|)
  {
    var size := Varint(|payload|);
    var bs := size + payload + rest;
    assert bs == size + (payload + rest);
    ReadVarintRoundTrip(|payload|, payload + rest);
    assert bs[|size|..|size| + |payload|] == payload;
  }

  lemma BytesRecordReads(m: Message, f: FieldNum, payload: seq<Byte>, rest: seq<Byte>)
    requires LEN in Accepted(m, f) && |payload| <= MAX_LEN
    ensures NextField(m, BytesRecord(f, payload) + rest) == Got(BytesField(f, payload), |BytesRecord(f, payload)|)
  {
    var tail := Varint(|payload|) + payload + rest;
    assert BytesRecord(f, payload) + rest == [TagByte(f, LEN)] + tail;
    TagReads(f, LEN, tail);
    LenReads(payload, rest);
  }

  // ----- writing backwards

  /** after is before with the bytes in front of end, back to pos, replaced by code. */
  ghost predicate Wrote(before: seq<Byte>, after: seq<Byte>, pos: int, end: nat, code: seq<Byte>) {
    && 0 <= pos && pos + |code| == end <= |before|
    && after == before[..pos] + code + before[end..]
  }

  lemma WroteMore(s0: seq<Byte>, s1: seq<Byte>, s2: seq<Byte>, p2: nat, p1: nat, end: nat, c1: seq<Byte>, c2: seq<Byte>)
    requires Wrote(s0, s1, p1, end, c1) && Wrote(s1, s2, p2, p1, c2)
    ensures Wrote(s0, s2, p2, end, c2 + c1)
  {
    assert s1[..p2] == s0[..p2];
    assert s1[p1..] == c1 + s0[end..];
    assert s2 == s0[..p2] + (c2 + c1) + s0[end..];
  }

  method PutByte(buf: array<Byte>, end: nat, b: Byte) returns (pos: nat)
    requires 1 <= end <= buf.Length
    modifies buf
    ensures Wrote(old(buf[..]), buf[..], pos, end, [b])
  {
    pos := end - 1;
    buf[pos] := b;
    assert buf[..] == buf[..pos] + [b] + buf[end..];
  }

  method PutBytes(buf: array<Byte>, end: nat, bytes: seq<Byte>) returns (pos: nat)
    requires |bytes| <= end <= buf.Length
    modifies buf
    ensures Wrote(old(buf[..]), buf[..], pos, end, bytes)
  {
    pos := end - |bytes|;
    forall i | 0 <= i < |bytes| {
      buf[pos + i] := bytes[i];
    }
    assert buf[pos..end] == bytes;
    assert buf[..] == buf[..pos] + buf[pos..end] + buf[end..];
  }

  /** A varint and the tag byte in front of it. */
  method PutVarintRecord(buf: array<Byte>, end: nat, f: FieldNum, v: U64) returns (pos: nat)
    requires |VarintRecord(f, v)| <= end <= buf.Length
    modifies buf
    ensures Wrote(old(buf[..]), buf[..], pos, end, VarintRecord(f, v))
  {
    ghost var s0 := buf[..];
    var at := EncodeVarint(buf, end, v);
    assert Wrote(s0, buf[..], at, end, Varint(v));
    ghost var s1 := buf[..];
    pos := PutByte(buf, at, TagByte(f, VARINT));
    WroteMore(s0, s1, buf[..], pos, at, end, Varint(v), [TagByte(f, VARINT)]);
  }

  method PutWordRecord(buf: array<Byte>, end: nat, f: FieldNum, bits: U64) returns (pos: nat)
    requires |WordRecord(f, bits)| <= end <= buf.Length
    modifies buf
    ensures Wrote(old(buf[..]), buf[..], pos, end, WordRecord(f, bits))
  {
    ghost var s0 := buf[..];
    var word := LittleEndian(bits, 8);
    var at := PutBytes(buf, end, word);
    ghost var s1 := buf[..];
    pos := PutByte(buf, at, TagByte(f, I64_WORD));
    WroteMore(s0, s1, buf[..], pos, at, end, word, [TagByte(f, I64_WORD)]);
  }

  /** The length and the tag byte of a payload that lies in buf from pos to end already. */
  method PutHeader(buf: array<Byte>, pos: nat, end: nat, f: FieldNum, ghost before: seq<Byte>, ghost payload: seq<Byte>)
    returns (start: nat)
    requires |payload| <= MAX_LEN
    requires Wrote(before, buf[..], pos, end, payload)
    requires |BytesRecord(f, payload)| <= end
    modifies buf
    ensures Wrote(before, buf[..], start, end, BytesRecord(f, payload))
  {
    ghost var s1 := buf[..];
    var at := EncodeVarint(buf, pos, end - pos);
    assert Wrote(s1, buf[..], at, pos, Varint(|payload|));
    ghost var s2 := buf[..];
    WroteMore(before, s1, s2, at, pos, end, payload, Varint(|payload|));
    start := PutByte(buf, at, TagByte(f, LEN));
    WroteMore(before, s2, buf[..], start, at, end, Varint(|payload|) + payload, [TagByte(f, LEN)]);
    assert [TagByte(f, LEN)] + (Varint(|payload|) + payload) == BytesRecord(f, payload);
  }

  method PutBytesRecord(buf: array<Byte>, end: nat, f: FieldNum, payload: seq<Byte>) returns (pos: nat)
    requires |payload| <= MAX_LEN
    requires |BytesRecord(f, payload)| <= end <= buf.Length
    modifies buf
    ensures Wrote(old(buf[..]), buf[..], pos, end, BytesRecord(f, payload))
  {
    ghost var before := buf[..];
    var at := PutBytes(buf, end, payload);
    pos := PutHeader(buf, at, end, f, before, payload);
  }

  method PutOptionalBytes(buf: array<Byte>, end: nat, f: FieldNum, payload: seq<Byte>) returns (pos: nat)
    requires |payload| <= MAX_LEN
    requires |OptionalBytes(f, payload)| <= end <= buf.Length
    modifies buf
    ensures Wrote(old(buf[..]), buf[..], pos, end, OptionalBytes(f, payload))
  {
    pos := end;
    if |payload| > 0 {
      pos := PutBytesRecord(buf, end, f, payload);
    }
  }

  method PutOptionalVarint(buf: array<Byte>, end: nat, f: FieldNum, v: U64) returns (pos: nat)
    requires |OptionalVarint(f, v)| <= end <= buf.Length
    modifies buf
    ensures Wrote(old(buf[..]), buf[..], pos, end, OptionalVarint(f, v))
  {
    pos := end;
    if v != 0 {
      pos := PutVarintRecord(buf, end, f, v);
    }
  }
}
