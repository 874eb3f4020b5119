/**
 The three operations of the AnyValue messages as they run: sizing a message, marshalling
 it from the back of a buffer, and the decode loop over a buffer.
 */
module AnyValueCodec {
  import opened Common
  import opened Wire
  import opened Fields
  import opened AnyValues

  // ----- SizeProto: the exact number of bytes the encoder will write

  method SizeAny(v: AnyValue) returns (n: nat)
    requires |EncodeAny(v)| <= MAX_LEN
    ensures n == |EncodeAny(v)|
    decreases v, 0
  {
    match v {
      case Unset =>
        n := 0;
      case StringValue(s) =>
        n := SizeOfBytes(|s|);
      case BoolValue(_) =>
        n := 2;
      case IntValue(i) =>
        SovIsVarintLength(ToU64(i));
        n := 1 + Sov(ToU64(i));
      case DoubleValue(bits) =>
        WordLength(bits);
        n := 9;
      case ArrayValue(a) =>
        if a.Array? {
          var l := SizeArray(a.values);
          n := SizeOfBytes(l);
        } else {
          n := 0;
        }
      case KvlistValue(k) =>
        if k.Kvlist? {
          var l := SizeKvlist(k.pairs);
          n := SizeOfBytes(l);
        } else {
          n := 0;
        }
      case BytesValue(bs) =>
        n := SizeOfBytes(|bs|);
      case StringValueStrindex(i) =>
        SovIsVarintLength(ToU64(i));
        n := 1 + Sov(ToU64(i));
    }
  }

  lemma WordLength(bits: U64)
    ensures |LittleEndian(bits, 8)| == 8
  {
    Pow256Values();
    LittleEndianRoundTrip(bits, 8);
  }

  /** 1 + proto.Sov(l) + l */
  function SizeOfBytes(l: nat): (n: nat)
    requires l <= MAX_LEN
    ensures forall f: FieldNum, p: seq<Byte> :: |p| == l ==> n == |BytesRecord(f, p)|
  {
    SovIsVarintLength(l);
    1 + Sov(l) + l
  }

  lemma ArrayPrefix(vs: seq<AnyValue>, i: nat)
    requires i < |vs|
    ensures EncodeArray(vs[..i + 1]) == EncodeArray(vs[..i]) + BytesRecord(1, EncodeAny(vs[i]))
    ensures |EncodeArray(vs[..i + 1])| <= |EncodeArray(vs)|
  {
    assert vs[..i + 1] == vs[..i] + [vs[i]];
    EncodeArrayConcat(vs[..i], [vs[i]]);
    assert EncodeArray([vs[i]]) == BytesRecord(1, EncodeAny(vs[i])) + [];
    EncodeArrayConcat(vs[..i + 1], vs[i + 1..]);
    assert vs == vs[..i + 1] + vs[i + 1..];
  }

  lemma {:induction false} EncodeArrayConcat(vs: seq<AnyValue>, ws: seq<AnyValue>)
    ensures EncodeArray(vs + ws) == EncodeArray(vs) + EncodeArray(ws)
  {
    if vs == [] {
      assert vs + ws == ws;
    } else {
      assert (vs + ws)[1..] == vs[1..] + ws;
      EncodeArrayConcat(vs[1..], ws);
    }
  }

  method SizeArray(vs: seq<AnyValue>) returns (n: nat)
    requires |EncodeArray(vs)| <= MAX_LEN
    ensures n == |EncodeArray(vs)|
    decreases vs, 0
  {
    n := 0;
    for i := 0 to |vs|
      invariant n == |EncodeArray(vs[..i])|
    {
      ArrayPrefix(vs, i);
      var l := SizeAny(vs[i]);
      n := n + SizeOfBytes(l);
    }
    assert vs[..|vs|] == vs;
  }

  lemma KvlistPrefix(kvs: seq<KeyValue>, i: nat)
    requires i < |kvs|
    ensures EncodeKvlist(kvs[..i + 1]) == EncodeKvlist(kvs[..i]) + BytesRecord(1, EncodeKeyValue(kvs[i]))
    ensures |EncodeKvlist(kvs[..i + 1])| <= |EncodeKvlist(kvs)|
  {
    assert kvs[..i + 1] == kvs[..i] + [kvs[i]];
    EncodeKvlistConcat(kvs[..i], [kvs[i]]);
    assert EncodeKvlist([kvs[i]]) == BytesRecord(1, EncodeKeyValue(kvs[i])) + [];
    EncodeKvlistConcat(kvs[..i + 1], kvs[i + 1..]);
    assert kvs == kvs[..i + 1] + kvs[i + 1..];
  }

  lemma {:induction false} EncodeKvlistConcat(kvs: seq<KeyValue>, more: seq<KeyValue>)
    ensures EncodeKvlist(kvs + more) == EncodeKvlist(kvs) + EncodeKvlist(more)
  {
    if kvs == [] {
      assert kvs + more == more;
    } else {
      assert (kvs + more)[1..] == kvs[1..] + more;
      EncodeKvlistConcat(kvs[1..], more);
    }
  }

  method SizeKvlist(kvs: seq<KeyValue>) returns (n: nat)
    requires |EncodeKvlist(kvs)| <= MAX_LEN
    ensures n == |EncodeKvlist(kvs)|
    decreases kvs, 0
  {
    n := 0;
    for i := 0 to |kvs|
      invariant n == |EncodeKvlist(kvs[..i])|
    {
      KvlistPrefix(kvs, i);
      var l := SizeKeyValue(kvs[i]);
      n := n + SizeOfBytes(l);
    }
    assert kvs[..|kvs|] == kvs;
  }

  method SizeKeyValue(kv: KeyValue) returns (n: nat)
    requires |EncodeKeyValue(kv)| <= MAX_LEN
    ensures n == |EncodeKeyValue(kv)|
    decreases kv, 0
  {
    n := 0;
    if |kv.key| > 0 {
      n := n + SizeOfBytes(|kv.key|);
    }
    var l := SizeAny(kv.value);
    n := n + SizeOfBytes(l);
    if kv.keyStrindex != 0 {
      SovIsVarintLength(ToU64(kv.keyStrindex));
      n := n + 1 + Sov(ToU64(kv.keyStrindex));
    }
  }

  // ----- MarshalProto: fills the bytes just before end, and no others

  method MarshalAny(v: AnyValue, buf: array<Byte>, end: nat) returns (n: nat)
    requires |EncodeAny(v)| <= end <= buf.Length <= MAX_LEN
    modifies buf
    ensures n == |EncodeAny(v)|
    ensures Wrote(old(buf[..]), buf[..], end - n, end, EncodeAny(v))
    decreases v, 1
  {
    var pos := end;
    if IsScalar(v) {
      pos := MarshalScalar(v, buf, end);
    } else if !v.Unset? {
      pos := MarshalNested(v, buf, end);
    }
    n := end - pos;
  }

  method MarshalNested(v: AnyValue, buf: array<Byte>, end: nat) returns (pos: nat)
    requires v.ArrayValue? || v.KvlistValue?
    requires |EncodeAny(v)| <= end <= buf.Length <= MAX_LEN
    modifies buf
    ensures Wrote(old(buf[..]), buf[..], pos, end, EncodeAny(v))
    decreases v, 0
  {
    ghost var before := buf[..];
    pos := end;
    match v {
      case ArrayValue(a) =>
        if a.Array? {
          var l := MarshalArray(a.values, buf, end);
          pos := PutHeader(buf, end - l, end, 5, before, EncodeArray(a.values));
        }
      case KvlistValue(k) =>
        if k.Kvlist? {
          var l := MarshalKvlist(k.pairs, buf, end);
          pos := PutHeader(buf, end - l, end, 6, before, EncodeKvlist(k.pairs));
        }
    }
  }

  method MarshalScalar(v: AnyValue, buf: array<Byte>, end: nat) returns (pos: nat)
    requires IsScalar(v)
    requires |EncodeAny(v)| <= end <= buf.Length <= MAX_LEN
    modifies buf
    ensures Wrote(old(buf[..]), buf[..], pos, end, EncodeAny(v))
  {
    match v {
      case StringValue(s) => pos := PutBytesRecord(buf, end, 1, s);
      case BoolValue(b) => pos := PutVarintRecord(buf, end, 2, if b then 1 else 0);
      case IntValue(i) => pos := PutVarintRecord(buf, end, 3, ToU64(i));
      case DoubleValue(bits) => pos := PutWordRecord(buf, end, 4, bits);
      case BytesValue(bs) => pos := PutBytesRecord(buf, end, 7, bs);
      case StringValueStrindex(i) => pos := PutVarintRecord(buf, end, 8, ToU64(i));
    }
  }

  /** A value as field f, in front of what is already written. */
  method MarshalField(v: AnyValue, f: FieldNum, buf: array<Byte>, end: nat,
                      ghost before: seq<Byte>, ghost last: nat, ghost done: seq<Byte>) returns (pos: nat)
    requires |BytesRecord(f, EncodeAny(v))| <= end <= buf.Length <= MAX_LEN
    requires Wrote(before, buf[..], end, last, done)
    modifies buf
    ensures Wrote(before, buf[..], pos, last, BytesRecord(f, EncodeAny(v)) + done)
    decreases v, 2
  {
    ghost var mid := buf[..];
    var l := MarshalAny(v, buf, end);
    pos := PutHeader(buf, end - l, end, f, mid, EncodeAny(v));
    WroteMore(before, mid, buf[..], pos, end, last, done, BytesRecord(f, EncodeAny(v)));
  }

  lemma ArraySuffix(vs: seq<AnyValue>, i: nat)
    requires i < |vs|
    ensures EncodeArray(vs[i..]) == BytesRecord(1, EncodeAny(vs[i])) + EncodeArray(vs[i + 1..])
    ensures |EncodeArray(vs[i..])| <= |EncodeArray(vs)|
  {
    assert vs[i..][1..] == vs[i + 1..];
    EncodeArrayConcat(vs[..i], vs[i..]);
    assert vs == vs[..i] + vs[i..];
  }

  method MarshalArray(vs: seq<AnyValue>, buf: array<Byte>, end: nat) returns (n: nat)
    requires |EncodeArray(vs)| <= end <= buf.Length <= MAX_LEN
    modifies buf
    ensures n == |EncodeArray(vs)|
    ensures Wrote(old(buf[..]), buf[..], end - n, end, EncodeArray(vs))
    decreases vs, 0
  {
    ghost var before := buf[..];
    var pos, i := end, |vs|;
    while i > 0
      invariant 0 <= i <= |vs|
      invariant Wrote(before, buf[..], pos, end, EncodeArray(vs[i..]))
    {
      i := i - 1;
      ArraySuffix(vs, i);
      pos := MarshalField(vs[i], 1, buf, pos, before, end, EncodeArray(vs[i + 1..]));
    }
    assert vs[0..] == vs;
    n := end - pos;
  }

  /** A pair as an element, in front of what is already written. */
  method MarshalElement(kv: KeyValue, buf: array<Byte>, end: nat,
                        ghost before: seq<Byte>, ghost last: nat, ghost done: seq<Byte>) returns (pos: nat)
    requires |BytesRecord(1, EncodeKeyValue(kv))| <= end <= buf.Length <= MAX_LEN
    requires Wrote(before, buf[..], end, last, done)
    modifies buf
    ensures Wrote(before, buf[..], pos, last, BytesRecord(1, EncodeKeyValue(kv)) + done)
    decreases kv, 2
  {
    ghost var mid := buf[..];
    var l := MarshalKeyValue(kv, buf, end);
    pos := PutHeader(buf, end - l, end, 1, mid, EncodeKeyValue(kv));
    WroteMore(before, mid, buf[..], pos, end, last, done, BytesRecord(1, EncodeKeyValue(kv)));
  }

  lemma KvlistSuffix(kvs: seq<KeyValue>, i: nat)
    requires i < |kvs|
    ensures EncodeKvlist(kvs[i..]) == BytesRecord(1, EncodeKeyValue(kvs[i])) + EncodeKvlist(kvs[i + 1..])
    ensures |EncodeKvlist(kvs[i..])| <= |EncodeKvlist(kvs)|
  {
    assert kvs[i..][1..] == kvs[i + 1..];
    EncodeKvlistConcat(kvs[..i], kvs[i..]);
    assert kvs == kvs[..i] + kvs[i..];
  }

  method MarshalKvlist(kvs: seq<KeyValue>, buf: array<Byte>, end: nat) returns (n: nat)
    requires |EncodeKvlist(kvs)| <= end <= buf.Length <= MAX_LEN
    modifies buf
    ensures n == |EncodeKvlist(kvs)|
    ensures Wrote(old(buf[..]), buf[..], end - n, end, EncodeKvlist(kvs))
    decreases kvs, 0
  {
    ghost var before := buf[..];
    var pos, i := end, |kvs|;
    while i > 0
      invariant 0 <= i <= |kvs|
      invariant Wrote(before, buf[..], pos, end, EncodeKvlist(kvs[i..]))
    {
      i := i - 1;
      KvlistSuffix(kvs, i);
      pos := MarshalElement(kvs[i], buf, pos, before, end, EncodeKvlist(kvs[i + 1..]));
    }
    assert kvs[0..] == kvs;
    n := end - pos;
  }

  method MarshalKeyValue(kv: KeyValue, buf: array<Byte>, end: nat) returns (n: nat)
    requires |EncodeKeyValue(kv)| <= end <= buf.Length <= MAX_LEN
    modifies buf
    ensures n == |EncodeKeyValue(kv)|
    ensures Wrote(old(buf[..]), buf[..], end - n, end, EncodeKeyValue(kv))
    decreases kv, 0
  {
    ghost var s0 := buf[..];
    ghost var key := OptionalBytes(1, kv.key);
    ghost var value := BytesRecord(2, EncodeAny(kv.value));
    ghost var index := OptionalVarint(3, ToU64(kv.keyStrindex));
    assert index + (value + key) == EncodeKeyValue(kv);
    var pos := PutOptionalBytes(buf, end, 1, kv.key);
    pos := MarshalField(kv.value, 2, buf, pos, s0, end, key);
    ghost var s2, mark := buf[..], pos;
    pos := PutOptionalVarint(buf, pos, 3, ToU64(kv.keyStrindex));
    WroteMore(s0, s2, buf[..], pos, mark, end, value + key, index);
    n := end - pos;
  }

  // ----- UnmarshalProto: the tag loop

  method UnmarshalAny(orig: AnyValue, buf: seq<Byte>) returns (value: AnyValue, err: Option<Error>)
    requires |buf| <= MAX_LEN
    ensures Out(value, err) == DecodeAny(buf, orig)
    decreases |buf|, 0
  {
    value, err := orig, None;
    var pos := 0;
    while pos < |buf|
      invariant 0 <= pos <= |buf|
      invariant DecodeAny(buf, orig) == DecodeAny(buf[pos..], value)
    {
      var field := ConsumeField(AnyValueMsg, buf, pos);
      if field.Bad? {
        return value, Some(field.error);
      }
      assert buf[pos..][field.size..] == buf[pos + field.size..];
      pos := pos + field.size;
      match field.value {
        case VarintField(f, num) =>
          if f == 2 {
            value := BoolValue(num != 0);
          } else if f == 3 {
            value := IntValue(ToI64(num));
          } else {
            value := StringValueStrindex(ToI32(num));
          }
        case WordField(_, bits) =>
          value := DoubleValue(bits);
        case BytesField(f, p) =>
          if f == 1 {
            value := StringValue(p);
          } else if f == 5 {
            var inner, e := UnmarshalArray([], p);
            if e.Some? {
              return value, e;
            }
            value := ArrayValue(Array(inner));
          } else if f == 6 {
            var inner, e := UnmarshalKvlist([], p);
            if e.Some? {
              return value, e;
            }
            value := KvlistValue(Kvlist(inner));
          } else {
            value := BytesValue(p);
          }
        case Skipped =>
      }
    }
  }

  method UnmarshalArray(orig: seq<AnyValue>, buf: seq<Byte>) returns (values: seq<AnyValue>, err: Option<Error>)
    requires |buf| <= MAX_LEN
    ensures Out(values, err) == DecodeArray(buf, orig)
    decreases |buf|, 0
  {
    values, err := orig, None;
    var pos := 0;
    while pos < |buf|
      invariant 0 <= pos <= |buf|
      invariant DecodeArray(buf, orig) == DecodeArray(buf[pos..], values)
    {
      var field := ConsumeField(ArrayValueMsg, buf, pos);
      if field.Bad? {
        return values, Some(field.error);
      }
      assert buf[pos..][field.size..] == buf[pos + field.size..];
      pos := pos + field.size;
      if field.value.BytesField? {
        var inner, e := UnmarshalAny(Unset, field.value.payload);
        values := values + [inner];
        if e.Some? {
          return values, e;
        }
      }
    }
  }

  lemma PairStep(bs: seq<Byte>, pairs: seq<KeyValue>, f: int, payload: seq<Byte>, size: nat)
    requires bs != [] && NextField(KeyValueListMsg, bs) == Got(BytesField(f, payload), size)
    ensures var inner := DecodeKeyValue(payload, ZERO_KEY_VALUE);
            DecodeKvlist(bs, pairs)
              == if inner.err.Some? then Out(pairs + [inner.value], inner.err)
                 else DecodeKvlist(bs[size..], pairs + [inner.value])
  {
  }

  method UnmarshalKvlist(orig: seq<KeyValue>, buf: seq<Byte>) returns (pairs: seq<KeyValue>, err: Option<Error>)
    requires |buf| <= MAX_LEN
    ensures Out(pairs, err) == DecodeKvlist(buf, orig)
    decreases |buf|, 0
  {
    pairs, err := orig, None;
    var pos := 0;
    while pos < |buf|
      invariant 0 <= pos <= |buf|
      invariant DecodeKvlist(buf, orig) == DecodeKvlist(buf[pos..], pairs)
    {
      var field := ConsumeField(KeyValueListMsg, buf, pos);
      if field.Bad? {
        return pairs, Some(field.error);
      }
      assert buf[pos..][field.size..] == buf[pos + field.size..];
      if field.value.BytesField? {
        PairStep(buf[pos..], pairs, field.value.fieldNum, field.value.payload, field.size);
      }
      pos := pos + field.size;
      if field.value.BytesField? {
        var inner, e := UnmarshalKeyValue(ZERO_KEY_VALUE, field.value.payload);
        pairs := pairs + [inner];
        if e.Some? {
          return pairs, e;
        }
      }
    }
  }

  method UnmarshalKeyValue(orig: KeyValue, buf: seq<Byte>) returns (kv: KeyValue, err: Option<Error>)
    requires |buf| <= MAX_LEN
    ensures Out(kv, err) == DecodeKeyValue(buf, orig)
    decreases |buf|, 0
  {
    kv, err := orig, None;
    var pos := 0;
    while pos < |buf|
      invariant 0 <= pos <= |buf|
      invariant DecodeKeyValue(buf, orig) == DecodeKeyValue(buf[pos..], kv)
    {
      var field := ConsumeField(KeyValueMsg, buf, pos);
      if field.Bad? {
        return kv, Some(field.error);
      }
      assert buf[pos..][field.size..] == buf[pos + field.size..];
      pos := pos + field.size;
      match field.value {
        case VarintField(_, num) =>
          kv := kv.(keyStrindex := ToI32(num));
        case BytesField(f, p) =>
          if f == 1 {
            kv := kv.(key := p);
          } else {
            var inner, e := UnmarshalAny(kv.value, p);
            kv := kv.(value := inner);
            if e.Some? {
              return kv, e;
            }
          }
        case _ =>
      }
    }
  }

  /** Sizing, marshalling into a buffer of exactly that size and unmarshalling gives the value back. */
  method RoundTrip(v: AnyValue) returns (w: AnyValue, err: Option<Error>)
    requires |EncodeAny(v)| <= MAX_LEN
    ensures err.None? && w == DropNil(v)
    ensures w == v <==> NoNil(v)
  {
    var size := SizeAny(v);
    var buf := new Byte[size];
    var n := MarshalAny(v, buf, size);
    assert buf[..] == EncodeAny(v);
    w, err := UnmarshalAny(Unset, buf[..]);
    RoundTripAny(v);
  }
}
