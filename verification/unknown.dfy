/**
 Skipping a field that a message does not know.  The protobuf encoding specification lets a
 decoder skip any well-formed field, a group included; ConsumeUnknown does so exactly for
 the fields described by SkippedWhole.
 */
module UnknownFields {
  import opened Common
  import opened Wire
  import opened Fields
  import opened AnyValues
  import EntityRefs
  import BucketsCodec

  type AnyFieldNum = f: nat | 1 <= f < 0x2000_0000 witness 1

  /** A well-formed field of any kind. */
  datatype Raw =
    | RawVarint(f: AnyFieldNum, value: U64)
    | RawWord64(f: AnyFieldNum, bits: U64)
    | RawWord32(f: AnyFieldNum, low: nat)
    | RawBytes(f: AnyFieldNum, payload: seq<Byte>)
    | Group(f: AnyFieldNum, fields: seq<Raw>)

  function TagBytes(f: AnyFieldNum, wireType: nat): (bs: seq<Byte>)
    ensures bs != []
  {
    Varint(8 * f + wireType)
  }

  function Encode(r: Raw): (bs: seq<Byte>)
    ensures bs != []
    decreases r
  {
    match r
    case RawVarint(f, v) => TagBytes(f, VARINT) + Varint(v)
    case RawWord64(f, bits) => TagBytes(f, I64_WORD) + LittleEndian(bits, 8)
    case RawWord32(f, low) => TagBytes(f, I32_WORD) + LittleEndian(low, 4)
    case RawBytes(f, p) => TagBytes(f, LEN) + (Varint(|p|) + p)
    case Group(f, fields) => TagBytes(f, START_GROUP) + (EncodeAll(fields) + TagBytes(f, END_GROUP))
  }

  function EncodeAll(rs: seq<Raw>): seq<Byte>
    decreases rs
  {
    if rs == [] then [] else Encode(rs[0]) + EncodeAll(rs[1..])
  }

  /** A group that holds nothing but groups that hold nothing, however deep. */
  predicate Hollow(r: Raw)
    decreases r
  {
    r.Group? && AllHollow(r.fields)
  }

  predicate AllHollow(rs: seq<Raw>)
    decreases rs
  {
    rs == [] || (Hollow(rs[0]) && AllHollow(rs[1..]))
  }

  /** When the code skips a field as a whole, given the bytes after it. */
  predicate SkippedWhole(r: Raw, rest: seq<Byte>) {
    r.Group? ==> Hollow(r) && rest != []
  }

  lemma TagBytesRead(f: AnyFieldNum, wireType: nat, rest: seq<Byte>)
    requires wireType < 8
    ensures ReadTag(TagBytes(f, wireType) + rest) == Got(Tag(f, wireType), |TagBytes(f, wireType)|)
    ensures (TagBytes(f, wireType) + rest)[|TagBytes(f, wireType)|..] == rest
  {
    var num := 8 * f + wireType;
    ReadVarintRoundTrip(num, rest);
    TagAfterVarint(Varint(num), num, rest);
  }

  lemma SkipNextAfterTag(f: AnyFieldNum, wireType: nat, rest: seq<Byte>, depth: nat)
    requires wireType < 8
    ensures var tag := TagBytes(f, wireType);
            SkipNext(tag + rest, depth) == Shift(SkipUnknown(rest, wireType, depth), |tag|)
  {
    TagBytesRead(f, wireType, rest);
  }

  function WireTypeOf(r: Raw): nat {
    match r
    case RawVarint(_, _) => VARINT
    case RawWord64(_, _) => I64_WORD
    case RawWord32(_, _) => I32_WORD
    case RawBytes(_, _) => LEN
    case Group(_, _) => START_GROUP
  }

  function Body(r: Raw): seq<Byte> {
    Encode(r)[|TagBytes(r.f, WireTypeOf(r))|..]
  }

  lemma EncodeIsTagAndBody(r: Raw)
    ensures Encode(r) == TagBytes(r.f, WireTypeOf(r)) + Body(r)
  {
  }

  /** A scalar field is skipped whole at any depth. */
  lemma ScalarBodySkipped(r: Raw, rest: seq<Byte>, depth: nat)
    requires !r.Group? && |Encode(r)| <= MAX_LEN
    ensures SkipUnknown(Body(r) + rest, WireTypeOf(r), depth) == Got((), |Body(r)|)
  {
    match r {
      case RawVarint(_, v) =>
        U64VarintLength(v);
        ReadVarintRoundTrip(v, rest);
      case RawWord64(_, bits) =>
        WordLength(bits, 8);
      case RawWord32(_, low) =>
        WordLength(low, 4);
      case RawBytes(_, p) =>
        LenReads(p, rest);
        assert Varint(|p|) + p + rest != [];
    }
  }

  lemma {:induction false} WordLength(x: nat, width: nat)
    ensures |LittleEndian(x, width)| == width
  {
    if width > 0 {
      WordLength(x / 256, width - 1);
    }
  }

  lemma ScalarSkipped(r: Raw, rest: seq<Byte>, depth: nat)
    requires !r.Group? && |Encode(r)| <= MAX_LEN
    ensures SkipNext(Encode(r) + rest, depth) == Got((), |Encode(r)|)
  {
    var tag, body := TagBytes(r.f, WireTypeOf(r)), Body(r);
    EncodeIsTagAndBody(r);
    assert Encode(r) + rest == tag + (body + rest);
    SkipNextAfterTag(r.f, WireTypeOf(r), body + rest, depth);
    ScalarBodySkipped(r, rest, depth);
  }

  lemma GroupOpens(r: Raw, rest: seq<Byte>, depth: nat)
    requires r.Group?
    ensures SkipNext(Encode(r) + rest, depth) ==
            Shift(SkipNext(EncodeAll(r.fields) + (TagBytes(r.f, END_GROUP) + rest), depth + 1),
                  |TagBytes(r.f, START_GROUP)|)
  {
    var open, close := TagBytes(r.f, START_GROUP), TagBytes(r.f, END_GROUP);
    var inside := EncodeAll(r.fields) + (close + rest);
    assert Encode(r) + rest == open + inside;
    SkipNextAfterTag(r.f, START_GROUP, inside, depth);
  }

  lemma GroupCloses(f: AnyFieldNum, rest: seq<Byte>, depth: nat)
    requires depth >= 1
    ensures SkipNext(TagBytes(f, END_GROUP) + rest, depth) ==
            if rest == [] then Bad(UnexpectedEOF)
            else if depth == 1 then Got((), |TagBytes(f, END_GROUP)|)
            else Shift(SkipNext(rest, depth - 1), |TagBytes(f, END_GROUP)|)
  {
    SkipNextAfterTag(f, END_GROUP, rest, depth);
  }

  lemma {:induction false} HollowFieldsSkipped(rs: seq<Raw>, tail: seq<Byte>, depth: nat)
    requires AllHollow(rs) && tail != [] && depth >= 1
    ensures SkipNext(EncodeAll(rs) + tail, depth) == Shift(SkipNext(tail, depth), |EncodeAll(rs)|)
    decreases rs
  {
    if rs == [] {
      assert EncodeAll(rs) + tail == tail;
    } else {
      var r, more := rs[0], EncodeAll(rs[1..]) + tail;
      assert EncodeAll(rs) + tail == Encode(r) + more;
      HollowGroupSkipped(r, more, depth);
      HollowFieldsSkipped(rs[1..], tail, depth);
    }
  }

  lemma {:induction false} HollowGroupSkipped(r: Raw, more: seq<Byte>, depth: nat)
    requires Hollow(r) && more != [] && depth >= 1
    ensures SkipNext(Encode(r) + more, depth) == Shift(SkipNext(more, depth), |Encode(r)|)
    decreases r
  {
    var open, inner, close := TagBytes(r.f, START_GROUP), EncodeAll(r.fields), TagBytes(r.f, END_GROUP);
    assert |Encode(r)| == |open| + |inner| + |close|;
    var r0 := SkipNext(more, depth);
    var r1 := SkipNext(close + more, depth + 1);
    assert r1 == Shift(r0, |close|) by { GroupCloses(r.f, more, depth + 1); }
    var r2 := SkipNext(inner + (close + more), depth + 1);
    assert r2 == Shift(r1, |inner|) by { HollowFieldsSkipped(r.fields, close + more, depth + 1); }
    assert SkipNext(Encode(r) + more, depth) == Shift(r2, |open|) by { GroupOpens(r, more, depth); }
  }

  /** The first scalar inside a group ends the skipping, before the group is closed. */
  lemma {:induction false} ScalarStopsSkipping(rs: seq<Raw>, tail: seq<Byte>, depth: nat)
    requires !AllHollow(rs) && tail != [] && depth >= 1 && |EncodeAll(rs)| <= MAX_LEN
    ensures SkipNext(EncodeAll(rs) + tail, depth).Got?
    ensures SkipNext(EncodeAll(rs) + tail, depth).size <= |EncodeAll(rs)|
    decreases rs
  {
    var r, more := rs[0], EncodeAll(rs[1..]) + tail;
    assert EncodeAll(rs) + tail == Encode(r) + more;
    if !r.Group? {
      ScalarSkipped(r, more, depth);
    } else if Hollow(r) {
      HollowGroupSkipped(r, more, depth);
      ScalarStopsSkipping(rs[1..], tail, depth);
    } else {
      GroupOpens(r, more, depth);
      ScalarStopsSkipping(r.fields, TagBytes(r.f, END_GROUP) + more, depth + 1);
    }
  }

  /** A field the message does not know is skipped as a whole if and only if it is not a group,
      or a group with no scalar inside it that does not end the buffer. */
  lemma UnknownSkippedExactly(m: Message, r: Raw, rest: seq<Byte>)
    requires Accepted(m, r.f) == {} && |Encode(r)| <= MAX_LEN
    ensures NextField(m, Encode(r) + rest) == Got(Skipped, |Encode(r)|) <==> SkippedWhole(r, rest)
  {
    var tag, body := TagBytes(r.f, WireTypeOf(r)), Body(r);
    EncodeIsTagAndBody(r);
    assert Encode(r) + rest == tag + (body + rest);
    TagBytesRead(r.f, WireTypeOf(r), body + rest);
    if r.Group? {
      GroupSkipped(r, rest);
    } else {
      ScalarBodySkipped(r, rest, 0);
    }
  }

  lemma GroupSkipped(r: Raw, rest: seq<Byte>)
    requires r.Group? && |Encode(r)| <= MAX_LEN
    ensures SkipUnknown(Body(r) + rest, START_GROUP, 0) == Got((), |Body(r)|) <==> Hollow(r) && rest != []
  {
    var close := TagBytes(r.f, END_GROUP);
    assert Body(r) == EncodeAll(r.fields) + close;
    assert Body(r) + rest == EncodeAll(r.fields) + (close + rest);
    if Hollow(r) {
      HollowFieldsSkipped(r.fields, close + rest, 1);
      GroupCloses(r.f, rest, 1);
    } else {
      ScalarStopsSkipping(r.fields, close + rest, 1);
    }
  }

  /** A group with a scalar in it, followed by a value: the decoder fails instead of skipping the group. */
  lemma GroupWithContentRejected()
    ensures var group := Group(9, [RawVarint(10, 0)]);
            && !SkippedWhole(group, EncodeAny(BoolValue(true)))
            && DecodeAny(Encode(group) + EncodeAny(BoolValue(true)), Unset) == Out(Unset, Some(UnexpectedEndOfGroup))
  {
    var scalar := RawVarint(10, 0);
    var group := Group(9, [scalar]);
    assert Encode(scalar) == [80] + [0];
    assert EncodeAll([scalar]) == Encode(scalar) + EncodeAll([]);
    assert Encode(group) == [75] + ([80, 0] + [76]);
    var bs := Encode(group) + EncodeAny(BoolValue(true));
    assert bs == [75, 80, 0, 76, 16, 1];
    // Up to the end of the inner field ...
    assert bs == TagBytes(9, START_GROUP) + [80, 0, 76, 16, 1];
    TagBytesRead(9, START_GROUP, [80, 0, 76, 16, 1]);
    assert [80, 0, 76, 16, 1] == Encode(scalar) + [76, 16, 1];
    ScalarSkipped(scalar, [76, 16, 1], 1);
    assert NextField(AnyValueMsg, bs) == Got(Skipped, 3);
    // ... and then the end of a group that is no longer open.
    assert bs[3..] == TagBytes(9, END_GROUP) + [16, 1];
    TagBytesRead(9, END_GROUP, [16, 1]);
    assert NextField(AnyValueMsg, bs[3..]) == Bad(UnexpectedEndOfGroup);
  }

  // ----- a message without its unknown fields

  lemma FirstSkipped(m: Message, r: Raw, rest: seq<Byte>)
    requires Accepted(m, r.f) == {} && |Encode(r)| <= MAX_LEN && SkippedWhole(r, rest)
    ensures NextField(m, Encode(r) + rest) == Got(Skipped, |Encode(r)|)
    ensures (Encode(r) + rest)[|Encode(r)|..] == rest
  {
    UnknownSkippedExactly(m, r, rest);
  }

  /** A message decodes the same with an unknown field taken out, wherever it stands and whatever it is decoded
      into. */
  lemma WithoutUnknownAny(x: seq<Byte>, r: Raw, rest: seq<Byte>, orig: AnyValue)
    requires DecodeAny(x, orig).err.None?
    requires Accepted(AnyValueMsg, r.f) == {} && |Encode(r)| <= MAX_LEN && SkippedWhole(r, rest)
    ensures DecodeAny(x + (Encode(r) + rest), orig) == DecodeAny(x + rest, orig)
  {
    FirstSkipped(AnyValueMsg, r, rest);
    DecodeAnyConcat(x, Encode(r) + rest, orig);
    DecodeAnyConcat(x, rest, orig);
  }

  lemma WithoutUnknownArray(x: seq<Byte>, r: Raw, rest: seq<Byte>, orig: seq<AnyValue>)
    requires DecodeArray(x, orig).err.None?
    requires Accepted(ArrayValueMsg, r.f) == {} && |Encode(r)| <= MAX_LEN && SkippedWhole(r, rest)
    ensures DecodeArray(x + (Encode(r) + rest), orig) == DecodeArray(x + rest, orig)
  {
    FirstSkipped(ArrayValueMsg, r, rest);
    DecodeArrayConcat(x, Encode(r) + rest, orig);
    DecodeArrayConcat(x, rest, orig);
  }

  lemma WithoutUnknownKvlist(x: seq<Byte>, r: Raw, rest: seq<Byte>, orig: seq<KeyValue>)
    requires DecodeKvlist(x, orig).err.None?
    requires Accepted(KeyValueListMsg, r.f) == {} && |Encode(r)| <= MAX_LEN && SkippedWhole(r, rest)
    ensures DecodeKvlist(x + (Encode(r) + rest), orig) == DecodeKvlist(x + rest, orig)
  {
    FirstSkipped(KeyValueListMsg, r, rest);
    DecodeKvlistConcat(x, Encode(r) + rest, orig);
    DecodeKvlistConcat(x, rest, orig);
  }

  lemma WithoutUnknownKeyValue(x: seq<Byte>, r: Raw, rest: seq<Byte>, orig: KeyValue)
    requires DecodeKeyValue(x, orig).err.None?
    requires Accepted(KeyValueMsg, r.f) == {} && |Encode(r)| <= MAX_LEN && SkippedWhole(r, rest)
    ensures DecodeKeyValue(x + (Encode(r) + rest), orig) == DecodeKeyValue(x + rest, orig)
  {
    FirstSkipped(KeyValueMsg, r, rest);
    DecodeKeyValueConcat(x, Encode(r) + rest, orig);
    DecodeKeyValueConcat(x, rest, orig);
  }

  lemma WithoutUnknownEntityRef(x: seq<Byte>, r: Raw, rest: seq<Byte>, orig: EntityRefs.Ref)
    requires EntityRefs.Decode(x, orig).err.None?
    requires Accepted(EntityRefMsg, r.f) == {} && |Encode(r)| <= MAX_LEN && SkippedWhole(r, rest)
    ensures EntityRefs.Decode(x + (Encode(r) + rest), orig) == EntityRefs.Decode(x + rest, orig)
  {
    FirstSkipped(EntityRefMsg, r, rest);
    EntityRefs.DecodeConcat(x, Encode(r) + rest, orig);
    EntityRefs.DecodeConcat(x, rest, orig);
  }

  lemma WithoutUnknownBuckets(x: seq<Byte>, r: Raw, rest: seq<Byte>, orig: BucketsCodec.Histogram)
    requires BucketsCodec.Decode(x, orig).err.None?
    requires Accepted(BucketsMsg, r.f) == {} && |Encode(r)| <= MAX_LEN && SkippedWhole(r, rest)
    ensures BucketsCodec.Decode(x + (Encode(r) + rest), orig) == BucketsCodec.Decode(x + rest, orig)
  {
    FirstSkipped(BucketsMsg, r, rest);
    BucketsCodec.DecodeConcat(x, Encode(r) + rest, orig);
    BucketsCodec.DecodeConcat(x, rest, orig);
  }

  // ----- a field that cannot be read

  /** A field that a message knows, with another wire type than it accepts. */
  lemma WrongTypeRead(m: Message, f: AnyFieldNum, wireType: nat, rest: seq<Byte>)
    requires Accepted(m, f) != {} && wireType < 8 && wireType !in Accepted(m, f)
    ensures NextField(m, TagBytes(f, wireType) + rest) == Bad(WrongWireType(f, wireType))
  {
    TagBytesRead(f, wireType, rest);
  }

  /** Decoding stops at a field that cannot be read, with its error, and keeps what was decoded before it. */
  lemma StopsAtBadAny(x: seq<Byte>, y: seq<Byte>, orig: AnyValue)
    requires DecodeAny(x, orig).err.None? && y != [] && NextField(AnyValueMsg, y).Bad?
    ensures DecodeAny(x + y, orig) == Out(DecodeAny(x, orig).value, Some(NextField(AnyValueMsg, y).error))
  {
    DecodeAnyConcat(x, y, orig);
  }

  lemma StopsAtBadArray(x: seq<Byte>, y: seq<Byte>, orig: seq<AnyValue>)
    requires DecodeArray(x, orig).err.None? && y != [] && NextField(ArrayValueMsg, y).Bad?
    ensures DecodeArray(x + y, orig) == Out(DecodeArray(x, orig).value, Some(NextField(ArrayValueMsg, y).error))
  {
    DecodeArrayConcat(x, y, orig);
  }

  lemma StopsAtBadKvlist(x: seq<Byte>, y: seq<Byte>, orig: seq<KeyValue>)
    requires DecodeKvlist(x, orig).err.None? && y != [] && NextField(KeyValueListMsg, y).Bad?
    ensures DecodeKvlist(x + y, orig) == Out(DecodeKvlist(x, orig).value, Some(NextField(KeyValueListMsg, y).error))
  {
    DecodeKvlistConcat(x, y, orig);
  }

  lemma StopsAtBadKeyValue(x: seq<Byte>, y: seq<Byte>, orig: KeyValue)
    requires DecodeKeyValue(x, orig).err.None? && y != [] && NextField(KeyValueMsg, y).Bad?
    ensures DecodeKeyValue(x + y, orig) == Out(DecodeKeyValue(x, orig).value, Some(NextField(KeyValueMsg, y).error))
  {
    DecodeKeyValueConcat(x, y, orig);
  }

  lemma StopsAtBadEntityRef(x: seq<Byte>, y: seq<Byte>, orig: EntityRefs.Ref)
    requires EntityRefs.Decode(x, orig).err.None? && y != [] && NextField(EntityRefMsg, y).Bad?
    ensures EntityRefs.Decode(x + y, orig)
         == Out(EntityRefs.Decode(x, orig).value, Some(NextField(EntityRefMsg, y).error))
  {
    EntityRefs.DecodeConcat(x, y, orig);
  }

  lemma StopsAtBadBuckets(x: seq<Byte>, y: seq<Byte>, orig: BucketsCodec.Histogram)
    requires BucketsCodec.Decode(x, orig).err.None? && y != [] && NextField(BucketsMsg, y).Bad?
    ensures BucketsCodec.Decode(x + y, orig)
         == Out(BucketsCodec.Decode(x, orig).value, Some(NextField(BucketsMsg, y).error))
  {
    BucketsCodec.DecodeConcat(x, y, orig);
  }
}
