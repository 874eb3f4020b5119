/**
 AnyValue and its partners ArrayValue, KeyValueList and KeyValue: the mutually recursive
 messages of pdata, what their encoders write, what their decoders make of any bytes, and
 the laws that connect the two.

 ArrayValue and KeyValueList hold nothing but their list of values, so a list stands for
 each; the pointer to one inside the oneof may be nil.  A string and a byte slice are byte
 sequences (a nil and an empty byte slice are one value), a double is its 64-bit pattern.
 */
module AnyValues {
  import opened Common
  import opened Wire
  import opened Fields

  datatype AnyValue =
    | Unset
    | StringValue(str: seq<Byte>)
    | BoolValue(flag: bool)
    | IntValue(int64: I64)
    | DoubleValue(bits: U64)
    | ArrayValue(listPtr: ArrayPtr)
    | KvlistValue(pairsPtr: KvlistPtr)
    | BytesValue(bytes: seq<Byte>)
    | StringValueStrindex(index: I32)

  datatype ArrayPtr = NilArray | Array(values: seq<AnyValue>)

  datatype KvlistPtr = NilKvlist | Kvlist(pairs: seq<KeyValue>)

  datatype KeyValue = KeyValue(key: seq<Byte>, value: AnyValue, keyStrindex: I32)

  const ZERO_KEY_VALUE := KeyValue([], Unset, 0)

  // ----- encoding

  function EncodeAny(v: AnyValue): seq<Byte>
    decreases v
  {
    match v
    case Unset => []
    case StringValue(s) => BytesRecord(1, s)
    case BoolValue(b) => VarintRecord(2, if b then 1 else 0)
    case IntValue(i) => VarintRecord(3, ToU64(i))
    case DoubleValue(bits) => WordRecord(4, bits)
    case ArrayValue(NilArray) => []
    case ArrayValue(Array(vs)) => BytesRecord(5, EncodeArray(vs))
    case KvlistValue(NilKvlist) => []
    case KvlistValue(Kvlist(kvs)) => BytesRecord(6, EncodeKvlist(kvs))
    case BytesValue(bs) => BytesRecord(7, bs)
    case StringValueStrindex(i) => VarintRecord(8, ToU64(i))
  }

  function EncodeArray(vs: seq<AnyValue>): seq<Byte>
    decreases vs
  {
    if vs == [] then [] else BytesRecord(1, EncodeAny(vs[0])) + EncodeArray(vs[1..])
  }

  function EncodeKvlist(kvs: seq<KeyValue>): seq<Byte>
    decreases kvs
  {
    if kvs == [] then [] else BytesRecord(1, EncodeKeyValue(kvs[0])) + EncodeKvlist(kvs[1..])
  }

  /** The encoder fills its buffer from the back, so the last field it handles comes first. */
  function EncodeKeyValue(kv: KeyValue): seq<Byte>
    decreases kv
  {
    OptionalVarint(3, ToU64(kv.keyStrindex)) + BytesRecord(2, EncodeAny(kv.value)) + OptionalBytes(1, kv.key)
  }

  // ----- decoding

  /** What a decoder leaves behind: the message, possibly half updated, and the error it stopped at. */
  datatype Out<+T> = Out(value: T, err: Option<Error>)

  function PayloadSize(t: Token): nat {
    if t.BytesField? then |t.payload| else 0
  }

  function DecodeAny(bs: seq<Byte>, orig: AnyValue): Out<AnyValue>
    decreases |bs|, 0
  {
    if bs == [] then Out(orig, None)
    else match NextField(AnyValueMsg, bs)
      case Bad(e) => Out(orig, Some(e))
      case Got(t, n) =>
        var step := ApplyAny(t, orig);
        if step.err.Some? then step else DecodeAny(bs[n..], step.value)
  }

  function ApplyAny(t: Token, orig: AnyValue): Out<AnyValue>
    decreases PayloadSize(t), 1
  {
    match t
    case VarintField(f, num) =>
      var value :=
        if f == 2 then BoolValue(num != 0)
        else if f == 3 then IntValue(ToI64(num))
        else StringValueStrindex(ToI32(num));
      Out(value, None)
    case WordField(_, bits) => Out(DoubleValue(bits), None)
    case BytesField(f, p) =>
      if f == 1 then Out(StringValue(p), None)
      else if f == 5 then
        var inner := DecodeArray(p, []);
        if inner.err.Some? then Out(orig, inner.err) else Out(ArrayValue(Array(inner.value)), None)
      else if f == 6 then
        var inner := DecodeKvlist(p, []);
        if inner.err.Some? then Out(orig, inner.err) else Out(KvlistValue(Kvlist(inner.value)), None)
      else Out(BytesValue(p), None)
    case Skipped => Out(orig, None)
  }

  function DecodeArray(bs: seq<Byte>, orig: seq<AnyValue>): Out<seq<AnyValue>>
    decreases |bs|, 0
  {
    if bs == [] then Out(orig, None)
    else match NextField(ArrayValueMsg, bs)
      case Bad(e) => Out(orig, Some(e))
      case Got(t, n) =>
        var step := ApplyArray(t, orig);
        if step.err.Some? then step else DecodeArray(bs[n..], step.value)
  }

  function ApplyArray(t: Token, orig: seq<AnyValue>): Out<seq<AnyValue>>
    decreases PayloadSize(t), 1
  {
    if t.BytesField? then
      var inner := DecodeAny(t.payload, Unset);
      Out(orig + [inner.value], inner.err)
    else Out(orig, None)
  }

  function DecodeKvlist(bs: seq<Byte>, orig: seq<KeyValue>): Out<seq<KeyValue>>
    decreases |bs|, 0
  {
    if bs == [] then Out(orig, None)
    else match NextField(KeyValueListMsg, bs)
      case Bad(e) => Out(orig, Some(e))
      case Got(t, n) =>
        var step := ApplyKvlist(t, orig);
        if step.err.Some? then step else DecodeKvlist(bs[n..], step.value)
  }

  function ApplyKvlist(t: Token, orig: seq<KeyValue>): Out<seq<KeyValue>>
    decreases PayloadSize(t), 1
  {
    if t.BytesField? then
      var inner := DecodeKeyValue(t.payload, ZERO_KEY_VALUE);
      Out(orig + [inner.value], inner.err)
    else Out(orig, None)
  }

  function DecodeKeyValue(bs: seq<Byte>, orig: KeyValue): Out<KeyValue>
    decreases |bs|, 0
  {
    if bs == [] then Out(orig, None)
    else match NextField(KeyValueMsg, bs)
      case Bad(e) => Out(orig, Some(e))
      case Got(t, n) =>
        var step := ApplyKeyValue(t, orig);
        if step.err.Some? then step else DecodeKeyValue(bs[n..], step.value)
  }

  function ApplyKeyValue(t: Token, orig: KeyValue): Out<KeyValue>
    decreases PayloadSize(t), 1
  {
    match t
    case VarintField(_, num) => Out(orig.(keyStrindex := ToI32(num)), None)
    case BytesField(f, p) =>
      if f == 1 then Out(orig.(key := p), None)
      else
        var inner := DecodeAny(p, orig.value);
        Out(orig.(value := inner.value), inner.err)
    case _ => Out(orig, None)
  }

  // ----- decoding a concatenation

  /** Bytes that decode on their own decode the same in front of others, which go on from the state they leave. */
  lemma {:induction false} DecodeAnyConcat(x: seq<Byte>, y: seq<Byte>, orig: AnyValue)
    requires DecodeAny(x, orig).err.None?
    ensures DecodeAny(x + y, orig) == DecodeAny(y, DecodeAny(x, orig).value)
    decreases |x|
  {
    if x == [] {
      assert x + y == y;
    } else {
      NextFieldExtends(AnyValueMsg, x, y);
      var next := NextField(AnyValueMsg, x);
      assert (x + y)[next.size..] == x[next.size..] + y;
      DecodeAnyConcat(x[next.size..], y, ApplyAny(next.value, orig).value);
    }
  }

  lemma {:induction false} DecodeArrayConcat(x: seq<Byte>, y: seq<Byte>, orig: seq<AnyValue>)
    requires DecodeArray(x, orig).err.None?
    ensures DecodeArray(x + y, orig) == DecodeArray(y, DecodeArray(x, orig).value)
    decreases |x|
  {
    if x == [] {
      assert x + y == y;
    } else {
      NextFieldExtends(ArrayValueMsg, x, y);
      var next := NextField(ArrayValueMsg, x);
      assert (x + y)[next.size..] == x[next.size..] + y;
      DecodeArrayConcat(x[next.size..], y, ApplyArray(next.value, orig).value);
    }
  }

  lemma {:induction false} DecodeKvlistConcat(x: seq<Byte>, y: seq<Byte>, orig: seq<KeyValue>)
    requires DecodeKvlist(x, orig).err.None?
    ensures DecodeKvlist(x + y, orig) == DecodeKvlist(y, DecodeKvlist(x, orig).value)
    decreases |x|
  {
    if x == [] {
      assert x + y == y;
    } else {
      NextFieldExtends(KeyValueListMsg, x, y);
      var next := NextField(KeyValueListMsg, x);
      assert (x + y)[next.size..] == x[next.size..] + y;
      DecodeKvlistConcat(x[next.size..], y, ApplyKvlist(next.value, orig).value);
    }
  }

  lemma {:induction false} DecodeKeyValueConcat(x: seq<Byte>, y: seq<Byte>, orig: KeyValue)
    requires DecodeKeyValue(x, orig).err.None?
    ensures DecodeKeyValue(x + y, orig) == DecodeKeyValue(y, DecodeKeyValue(x, orig).value)
    decreases |x|
  {
    if x == [] {
      assert x + y == y;
    } else {
      NextFieldExtends(KeyValueMsg, x, y);
      var next := NextField(KeyValueMsg, x);
      assert (x + y)[next.size..] == x[next.size..] + y;
      DecodeKeyValueConcat(x[next.size..], y, ApplyKeyValue(next.value, orig).value);
    }
  }

  lemma ApplyArrayAppends(t: Token, pre: seq<AnyValue>, orig: seq<AnyValue>)
    ensures ApplyArray(t, pre + orig) == Out(pre + ApplyArray(t, orig).value, ApplyArray(t, orig).err)
  {
    if t.BytesField? {
      var inner := DecodeAny(t.payload, Unset).value;
      assert pre + orig + [inner] == pre + (orig + [inner]);
    }
  }

  /** A repeated field is appended to: what was there before stays in front and does not change what is read. */
  lemma {:induction false} DecodeArrayAppends(bs: seq<Byte>, pre: seq<AnyValue>, orig: seq<AnyValue>)
    ensures DecodeArray(bs, pre + orig) == Out(pre + DecodeArray(bs, orig).value, DecodeArray(bs, orig).err)
    decreases |bs|
  {
    var next := NextField(ArrayValueMsg, bs);
    if bs != [] && next.Got? {
      ApplyArrayAppends(next.value, pre, orig);
      DecodeArrayAppends(bs[next.size..], pre, ApplyArray(next.value, orig).value);
    }
  }

  // ----- round trips

  /** The value with every nil inner pointer, at any depth, taken for an unset value. */
  function DropNil(v: AnyValue): AnyValue
    decreases v
  {
    match v
    case ArrayValue(NilArray) => Unset
    case ArrayValue(Array(vs)) => ArrayValue(Array(DropNilArray(vs)))
    case KvlistValue(NilKvlist) => Unset
    case KvlistValue(Kvlist(kvs)) => KvlistValue(Kvlist(DropNilKvlist(kvs)))
    case _ => v
  }

  function DropNilArray(vs: seq<AnyValue>): seq<AnyValue>
    decreases vs
  {
    if vs == [] then [] else [DropNil(vs[0])] + DropNilArray(vs[1..])
  }

  function DropNilKvlist(kvs: seq<KeyValue>): seq<KeyValue>
    decreases kvs
  {
    if kvs == [] then []
    else [kvs[0].(value := DropNil(kvs[0].value))] + DropNilKvlist(kvs[1..])
  }

  lemma OneRecord(code: seq<Byte>, t: Token, orig: AnyValue)
    requires NextField(AnyValueMsg, code + []) == Got(t, |code|)
    ensures code != [] && DecodeAny(code, orig) == ApplyAny(t, orig)
  {
    assert code + [] == code;
    var v := ApplyAny(t, orig).value;
    assert DecodeAny(code[|code|..], v) == Out(v, None);
  }

  lemma ArrayReads(vs: seq<AnyValue>, orig: AnyValue)
    requires |EncodeAny(ArrayValue(Array(vs)))| <= MAX_LEN
    requires DecodeArray(EncodeArray(vs), []) == Out([] + DropNilArray(vs), None)
    ensures EncodeAny(ArrayValue(Array(vs))) != []
    ensures DecodeAny(EncodeAny(ArrayValue(Array(vs))), orig) == Out(ArrayValue(Array(DropNilArray(vs))), None)
  {
    assert [] + DropNilArray(vs) == DropNilArray(vs);
    ArrayRecordReads(EncodeArray(vs), DropNilArray(vs), orig);
  }

  lemma ArrayRecordReads(payload: seq<Byte>, vs: seq<AnyValue>, orig: AnyValue)
    requires |BytesRecord(5, payload)| <= MAX_LEN && DecodeArray(payload, []) == Out(vs, None)
    ensures DecodeAny(BytesRecord(5, payload), orig) == Out(ArrayValue(Array(vs)), None)
  {
    BytesRecordReads(AnyValueMsg, 5, payload, []);
    OneRecord(BytesRecord(5, payload), BytesField(5, payload), orig);
  }

  lemma KvlistReads(kvs: seq<KeyValue>, orig: AnyValue)
    requires |EncodeAny(KvlistValue(Kvlist(kvs)))| <= MAX_LEN
    requires DecodeKvlist(EncodeKvlist(kvs), []) == Out([] + DropNilKvlist(kvs), None)
    ensures EncodeAny(KvlistValue(Kvlist(kvs))) != []
    ensures DecodeAny(EncodeAny(KvlistValue(Kvlist(kvs))), orig) == Out(KvlistValue(Kvlist(DropNilKvlist(kvs))), None)
  {
    assert [] + DropNilKvlist(kvs) == DropNilKvlist(kvs);
    KvlistRecordReads(EncodeKvlist(kvs), DropNilKvlist(kvs), orig);
  }

  lemma KvlistRecordReads(payload: seq<Byte>, kvs: seq<KeyValue>, orig: AnyValue)
    requires |BytesRecord(6, payload)| <= MAX_LEN && DecodeKvlist(payload, []) == Out(kvs, None)
    ensures DecodeAny(BytesRecord(6, payload), orig) == Out(KvlistValue(Kvlist(kvs)), None)
  {
    BytesRecordReads(AnyValueMsg, 6, payload, []);
    OneRecord(BytesRecord(6, payload), BytesField(6, payload), orig);
  }

  lemma {:induction false} RoundTripAnyInto(v: AnyValue, orig: AnyValue)
    requires |EncodeAny(v)| <= MAX_LEN
    ensures EncodeAny(v) == [] <==> DropNil(v) == Unset
    ensures DecodeAny(EncodeAny(v), orig) == Out(if DropNil(v) == Unset then orig else DropNil(v), None)
    decreases v
  {
    match v {
      case Unset =>
      case ArrayValue(NilArray) =>
      case KvlistValue(NilKvlist) =>
      case ArrayValue(Array(vs)) =>
        RoundTripArray(vs, []);
        ArrayReads(vs, orig);
      case KvlistValue(Kvlist(kvs)) =>
        RoundTripKvlist(kvs, []);
        KvlistReads(kvs, orig);
      case _ =>
        RoundTripScalar(v, orig);
    }
  }

  /** What varints of any value mean: a boolean is whether it is not zero, an integer its 64 or low 32 bits. */
  lemma VarintMeanings(f: FieldNum, num: U64, orig: AnyValue)
    requires f in {2, 3, 8}
    ensures var out := DecodeAny(VarintRecord(f, num), orig);
            && out.err.None?
            && (f == 2 ==> out.value == BoolValue(num != 0))
            && (f == 3 ==> out.value.IntValue? && (out.value.int64 - num) % TWO_64 == 0)
            && (f == 8 ==> out.value.StringValueStrindex? && (out.value.index - num) % TWO_32 == 0)
  {
    VarintRecordReads(AnyValueMsg, f, num, []);
    OneRecord(VarintRecord(f, num), VarintField(f, num), orig);
    LowBits(num);
  }

  predicate IsScalar(v: AnyValue) {
    !v.Unset? && !v.ArrayValue? && !v.KvlistValue?
  }

  lemma RoundTripBytes(v: AnyValue, orig: AnyValue)
    requires (v.StringValue? || v.BytesValue?) && |EncodeAny(v)| <= MAX_LEN
    ensures EncodeAny(v) != [] && DecodeAny(EncodeAny(v), orig) == Out(v, None)
  {
    var code := EncodeAny(v);
    match v {
      case StringValue(s) =>
        BytesRecordReads(AnyValueMsg, 1, s, []);
        OneRecord(code, BytesField(1, s), orig);
      case BytesValue(bs) =>
        BytesRecordReads(AnyValueMsg, 7, bs, []);
        OneRecord(code, BytesField(7, bs), orig);
    }
  }

  lemma RoundTripInt(v: AnyValue, orig: AnyValue)
    requires (v.IntValue? || v.StringValueStrindex?) && |EncodeAny(v)| <= MAX_LEN
    ensures EncodeAny(v) != [] && DecodeAny(EncodeAny(v), orig) == Out(v, None)
  {
    var code := EncodeAny(v);
    match v {
      case IntValue(i) =>
        SignedRoundTrip(i);
        VarintRecordReads(AnyValueMsg, 3, ToU64(i), []);
        OneRecord(code, VarintField(3, ToU64(i)), orig);
      case StringValueStrindex(i) =>
        SignedRoundTrip(i);
        VarintRecordReads(AnyValueMsg, 8, ToU64(i), []);
        OneRecord(code, VarintField(8, ToU64(i)), orig);
    }
  }

  lemma RoundTripScalar(v: AnyValue, orig: AnyValue)
    requires IsScalar(v) && |EncodeAny(v)| <= MAX_LEN
    ensures EncodeAny(v) != [] && DecodeAny(EncodeAny(v), orig) == Out(v, None)
  {
    match v {
      case BoolValue(b) =>
        VarintRecordReads(AnyValueMsg, 2, if b then 1 else 0, []);
        OneRecord(EncodeAny(v), VarintField(2, if b then 1 else 0), orig);
      case DoubleValue(bits) =>
        WordRecordReads(AnyValueMsg, 4, bits, []);
        OneRecord(EncodeAny(v), WordField(4, bits), orig);
      case StringValue(_) => RoundTripBytes(v, orig);
      case BytesValue(_) => RoundTripBytes(v, orig);
      case IntValue(_) => RoundTripInt(v, orig);
      case StringValueStrindex(_) => RoundTripInt(v, orig);
    }
  }

  lemma {:induction false} RoundTripArray(vs: seq<AnyValue>, orig: seq<AnyValue>)
    requires |EncodeArray(vs)| <= MAX_LEN
    ensures DecodeArray(EncodeArray(vs), orig) == Out(orig + DropNilArray(vs), None)
    decreases vs
  {
    if vs == [] {
      assert orig + [] == orig;
    } else {
      var head, tail := EncodeAny(vs[0]), EncodeArray(vs[1..]);
      RoundTripAnyInto(vs[0], Unset);
      BytesRecordReads(ArrayValueMsg, 1, head, tail);
      assert (BytesRecord(1, head) + tail)[|BytesRecord(1, head)|..] == tail;
      RoundTripArray(vs[1..], orig + [DropNil(vs[0])]);
      assert orig + [DropNil(vs[0])] + DropNilArray(vs[1..]) == orig + DropNilArray(vs);
    }
  }

  lemma FirstPairReads(head: seq<Byte>, tail: seq<Byte>, first: KeyValue, orig: seq<KeyValue>)
    requires |head| <= MAX_LEN && DecodeKeyValue(head, ZERO_KEY_VALUE) == Out(first, None)
    ensures DecodeKvlist(BytesRecord(1, head) + tail, orig) == DecodeKvlist(tail, orig + [first])
  {
    BytesRecordReads(KeyValueListMsg, 1, head, tail);
    assert (BytesRecord(1, head) + tail)[|BytesRecord(1, head)|..] == tail;
  }

  lemma PairsLength(kvs: seq<KeyValue>)
    requires kvs != []
    ensures EncodeKvlist(kvs) == BytesRecord(1, EncodeKeyValue(kvs[0])) + EncodeKvlist(kvs[1..])
    ensures |EncodeKeyValue(kvs[0])| + |EncodeKvlist(kvs[1..])| <= |EncodeKvlist(kvs)|
  {
  }

  lemma Dropped(kvs: seq<KeyValue>, orig: seq<KeyValue>)
    requires kvs != []
    ensures orig + [kvs[0].(value := DropNil(kvs[0].value))] + DropNilKvlist(kvs[1..]) == orig + DropNilKvlist(kvs)
  {
  }

  lemma {:induction false} RoundTripKvlist(kvs: seq<KeyValue>, orig: seq<KeyValue>)
    requires |EncodeKvlist(kvs)| <= MAX_LEN
    ensures DecodeKvlist(EncodeKvlist(kvs), orig) == Out(orig + DropNilKvlist(kvs), None)
    decreases kvs
  {
    if kvs == [] {
      assert orig + [] == orig;
    } else {
      var first := kvs[0].(value := DropNil(kvs[0].value));
      PairsLength(kvs);
      RoundTripKeyValue(kvs[0]);
      RoundTripKvlist(kvs[1..], orig + [first]);
      FirstPairReads(EncodeKeyValue(kvs[0]), EncodeKvlist(kvs[1..]), first, orig);
      Dropped(kvs, orig);
    }
  }

  lemma {:induction false} RoundTripKeyValue(kv: KeyValue)
    requires |EncodeKeyValue(kv)| <= MAX_LEN
    ensures DecodeKeyValue(EncodeKeyValue(kv), ZERO_KEY_VALUE) == Out(kv.(value := DropNil(kv.value)), None)
    decreases kv
  {
    var index := OptionalVarint(3, ToU64(kv.keyStrindex));
    var value := BytesRecord(2, EncodeAny(kv.value));
    var key := OptionalBytes(1, kv.key);
    var s1 := ZERO_KEY_VALUE.(keyStrindex := kv.keyStrindex);
    var s2 := s1.(value := DropNil(kv.value));
    IndexReads(kv.keyStrindex);
    RoundTripAnyInto(kv.value, Unset);
    ValueReads(EncodeAny(kv.value), s1);
    KeyReads(kv.key, s2);
    DecodeKeyValueConcat(index, value, ZERO_KEY_VALUE);
    DecodeKeyValueConcat(index + value, key, ZERO_KEY_VALUE);
  }

  lemma OneKeyValueRecord(code: seq<Byte>, t: Token, orig: KeyValue)
    requires NextField(KeyValueMsg, code + []) == Got(t, |code|)
    ensures code != [] && DecodeKeyValue(code, orig) == ApplyKeyValue(t, orig)
  {
    assert code + [] == code;
    var kv := ApplyKeyValue(t, orig).value;
    assert DecodeKeyValue(code[|code|..], kv) == Out(kv, None);
  }

  lemma IndexReads(i: I32)
    ensures DecodeKeyValue(OptionalVarint(3, ToU64(i)), ZERO_KEY_VALUE) == Out(ZERO_KEY_VALUE.(keyStrindex := i), None)
  {
    if i != 0 {
      SignedRoundTrip(i);
      VarintRecordReads(KeyValueMsg, 3, ToU64(i), []);
      OneKeyValueRecord(VarintRecord(3, ToU64(i)), VarintField(3, ToU64(i)), ZERO_KEY_VALUE);
    }
  }

  lemma ValueReads(code: seq<Byte>, orig: KeyValue)
    requires |code| <= MAX_LEN
    ensures var inner := DecodeAny(code, orig.value);
            DecodeKeyValue(BytesRecord(2, code), orig) == Out(orig.(value := inner.value), inner.err)
  {
    BytesRecordReads(KeyValueMsg, 2, code, []);
    OneKeyValueRecord(BytesRecord(2, code), BytesField(2, code), orig);
  }

  lemma KeyReads(key: seq<Byte>, orig: KeyValue)
    requires |key| <= MAX_LEN && orig.key == []
    ensures DecodeKeyValue(OptionalBytes(1, key), orig) == Out(orig.(key := key), None)
  {
    if key != [] {
      BytesRecordReads(KeyValueMsg, 1, key, []);
      OneKeyValueRecord(BytesRecord(1, key), BytesField(1, key), orig);
    }
  }

  /** No oneof variant holds a nil pointer, at any depth. */
  predicate NoNil(v: AnyValue)
    decreases v
  {
    match v
    case ArrayValue(a) => a.Array? && NoNilArray(a.values)
    case KvlistValue(k) => k.Kvlist? && NoNilKvlist(k.pairs)
    case _ => true
  }

  predicate NoNilArray(vs: seq<AnyValue>)
    decreases vs
  {
    vs == [] || (NoNil(vs[0]) && NoNilArray(vs[1..]))
  }

  predicate NoNilKvlist(kvs: seq<KeyValue>)
    decreases kvs
  {
    kvs == [] || (NoNil(kvs[0].value) && NoNilKvlist(kvs[1..]))
  }

  lemma {:induction false} DropNilFixes(v: AnyValue)
    ensures DropNil(v) == v <==> NoNil(v)
    decreases v
  {
    match v {
      case ArrayValue(Array(vs)) => DropNilArrayFixes(vs);
      case KvlistValue(Kvlist(kvs)) => DropNilKvlistFixes(kvs);
      case _ =>
    }
  }

  lemma {:induction false} DropNilArrayFixes(vs: seq<AnyValue>)
    ensures DropNilArray(vs) == vs <==> NoNilArray(vs)
    decreases vs
  {
    if vs != [] {
      DropNilFixes(vs[0]);
      DropNilArrayFixes(vs[1..]);
      assert vs == [vs[0]] + vs[1..];
      assert DropNilArray(vs)[0] == DropNil(vs[0]) && DropNilArray(vs)[1..] == DropNilArray(vs[1..]);
    }
  }

  lemma {:induction false} DropNilKvlistFixes(kvs: seq<KeyValue>)
    ensures DropNilKvlist(kvs) == kvs <==> NoNilKvlist(kvs)
    decreases kvs
  {
    if kvs != [] {
      DropNilFixes(kvs[0].value);
      DropNilKvlistFixes(kvs[1..]);
      assert kvs == [kvs[0]] + kvs[1..];
      var first := kvs[0].(value := DropNil(kvs[0].value));
      assert DropNilKvlist(kvs)[0] == first && DropNilKvlist(kvs)[1..] == DropNilKvlist(kvs[1..]);
    }
  }

  /** Decoding what was encoded into a zero value gives the tree back, exactly when it holds no nil inner pointer. */
  lemma RoundTripAny(v: AnyValue)
    requires |EncodeAny(v)| <= MAX_LEN
    ensures DecodeAny(EncodeAny(v), Unset) == Out(DropNil(v), None)
    ensures DecodeAny(EncodeAny(v), Unset) == Out(v, None) <==> NoNil(v)
  {
    RoundTripAnyInto(v, Unset);
    DropNilFixes(v);
  }

  /** One for which it does not: a nil array pointer is lost. */
  lemma NilArrayLost()
    ensures DecodeAny(EncodeAny(ArrayValue(NilArray)), Unset) == Out(Unset, None) != Out(ArrayValue(NilArray), None)
  {
    RoundTripAny(ArrayValue(NilArray));
  }

  /** The last one wins: after any bytes that decode, an encoded value that is not empty is what is left. */
  lemma LastValueWins(x: seq<Byte>, v: AnyValue, orig: AnyValue)
    requires |EncodeAny(v)| <= MAX_LEN && DecodeAny(x, orig).err.None?
    ensures DecodeAny(x + EncodeAny(v), orig)
         == Out(if DropNil(v) == Unset then DecodeAny(x, orig).value else DropNil(v), None)
  {
    DecodeAnyConcat(x, EncodeAny(v), orig);
    RoundTripAnyInto(v, DecodeAny(x, orig).value);
  }

  /** Concatenating two encoded arrays encodes the concatenated array. */
  lemma ConcatenatedArrays(vs: seq<AnyValue>, ws: seq<AnyValue>)
    requires |EncodeArray(vs)| <= MAX_LEN && |EncodeArray(ws)| <= MAX_LEN
    ensures DecodeArray(EncodeArray(vs) + EncodeArray(ws), []) == Out(DropNilArray(vs) + DropNilArray(ws), None)
  {
    RoundTripArray(vs, []);
    assert [] + DropNilArray(vs) == DropNilArray(vs);
    DecodeArrayConcat(EncodeArray(vs), EncodeArray(ws), []);
    RoundTripArray(ws, DropNilArray(vs));
  }

  // ----- whatever bytes it comes from, a decoded value is one that round-trips

  lemma {:induction false} NoNilArrayAppend(vs: seq<AnyValue>, v: AnyValue)
    requires NoNilArray(vs) && NoNil(v)
    ensures NoNilArray(vs + [v])
  {
    if vs == [] {
      assert vs + [v] == [v];
    } else {
      assert (vs + [v])[1..] == vs[1..] + [v];
      NoNilArrayAppend(vs[1..], v);
    }
  }

  lemma {:induction false} NoNilKvlistAppend(kvs: seq<KeyValue>, kv: KeyValue)
    requires NoNilKvlist(kvs) && NoNil(kv.value)
    ensures NoNilKvlist(kvs + [kv])
  {
    if kvs == [] {
      assert kvs + [kv] == [kv];
    } else {
      assert (kvs + [kv])[1..] == kvs[1..] + [kv];
      NoNilKvlistAppend(kvs[1..], kv);
    }
  }

  lemma {:induction false} DecodedAnyNoNil(bs: seq<Byte>, orig: AnyValue)
    requires NoNil(orig)
    ensures NoNil(DecodeAny(bs, orig).value)
    decreases |bs|
  {
    var next := NextField(AnyValueMsg, bs);
    if bs != [] && next.Got? {
      var t := next.value;
      if t.BytesField? && t.fieldNum == 5 {
        DecodedArrayNoNil(t.payload, []);
      } else if t.BytesField? && t.fieldNum == 6 {
        DecodedKvlistNoNil(t.payload, []);
      }
      DecodedAnyNoNil(bs[next.size..], ApplyAny(t, orig).value);
    }
  }

  lemma {:induction false} DecodedArrayNoNil(bs: seq<Byte>, orig: seq<AnyValue>)
    requires NoNilArray(orig)
    ensures NoNilArray(DecodeArray(bs, orig).value)
    decreases |bs|
  {
    var next := NextField(ArrayValueMsg, bs);
    if bs != [] && next.Got? {
      if next.value.BytesField? {
        DecodedAnyNoNil(next.value.payload, Unset);
        NoNilArrayAppend(orig, DecodeAny(next.value.payload, Unset).value);
      }
      DecodedArrayNoNil(bs[next.size..], ApplyArray(next.value, orig).value);
    }
  }

  lemma {:induction false} DecodedKvlistNoNil(bs: seq<Byte>, orig: seq<KeyValue>)
    requires NoNilKvlist(orig)
    ensures NoNilKvlist(DecodeKvlist(bs, orig).value)
    decreases |bs|
  {
    var next := NextField(KeyValueListMsg, bs);
    if bs != [] && next.Got? {
      if next.value.BytesField? {
        DecodedKeyValueNoNil(next.value.payload, ZERO_KEY_VALUE);
        NoNilKvlistAppend(orig, DecodeKeyValue(next.value.payload, ZERO_KEY_VALUE).value);
      }
      DecodedKvlistNoNil(bs[next.size..], ApplyKvlist(next.value, orig).value);
    }
  }

  lemma {:induction false} DecodedKeyValueNoNil(bs: seq<Byte>, orig: KeyValue)
    requires NoNil(orig.value)
    ensures NoNil(DecodeKeyValue(bs, orig).value.value)
    decreases |bs|
  {
    var next := NextField(KeyValueMsg, bs);
    if bs != [] && next.Got? {
      var t := next.value;
      if t.BytesField? && t.fieldNum != 1 {
        DecodedAnyNoNil(t.payload, orig.value);
      }
      DecodedKeyValueNoNil(bs[next.size..], ApplyKeyValue(t, orig).value);
    }
  }

  /** Encoding a decoded value and decoding it again changes nothing, whatever bytes it was decoded from. */
  lemma DecodeEncodeDecode(bs: seq<Byte>)
    requires |EncodeAny(DecodeAny(bs, Unset).value)| <= MAX_LEN
    ensures DecodeAny(EncodeAny(DecodeAny(bs, Unset).value), Unset) == Out(DecodeAny(bs, Unset).value, None)
  {
    DecodedAnyNoNil(bs, Unset);
    RoundTripAny(DecodeAny(bs, Unset).value);
  }
}
