/**
 ExponentialHistogramDataPointBuckets: a zigzag-encoded offset and a list of counts that is
 written packed and read packed or one by one.
 */
module BucketsCodec {
  import opened Common
  import opened Wire
  import opened Fields
  import opened AnyValues

  datatype Histogram = Histogram(offset: I32, counts: seq<U64>)

  const ZERO_HISTOGRAM := Histogram(0, [])

  // ----- zigzag, as the machine computes it

  function ToU32(x: I32): U32 {
    if x < 0 then x + TWO_32 else x
  }

  /** x ^ (sign extended over 32 bits): the exclusive or with all ones is the complement. */
  function FlipIf32(x: U32, negative: bool): U32 {
    if negative then TWO_32 - 1 - x else x
  }

  function FlipIf64(x: U64, negative: bool): U64 {
    if negative then TWO_64 - 1 - x else x
  }

  /** (uint32(x) << 1) ^ uint32(x >> 31) */
  function ZigZag32(x: I32): U32 {
    FlipIf32((2 * ToU32(x)) % TWO_32, x < 0)
  }

  /** (x << 1) ^ uint64(int64(x) >> 63) */
  function ZigZag64(x: U64): U64 {
    FlipIf64((2 * x) % TWO_64, ToI64(x) < 0)
  }

  function Soz(x: U64): nat {
    Sov(ZigZag64(x))
  }

  /** int32(uint32(num >> 1) ^ uint32(int32((num & 1) << 31) >> 31)) */
  function UnZigZag(num: U64): I32 {
    ToI32(FlipIf32((num / 2) % TWO_32, num % 2 == 1))
  }

  /** The two zigzag codes agree and enumerate 0, -1, 1, -2, 2, ... */
  lemma ZigZagMeaning(x: I32)
    ensures ZigZag32(x) == (if x >= 0 then 2 * x else -2 * x - 1)
    ensures ZigZag64(ToU64(x)) == ZigZag32(x)
    ensures UnZigZag(ZigZag32(x)) == x
  {
    if x >= 0 {
      EvenCode(x);
    } else {
      Wrapped(2 * ToU32(x), TWO_32);
      Wrapped(2 * ToU64(x), TWO_64);
      var y: int := x;
      OddCode(-1 - y);
    }
  }

  lemma Wrapped(x: nat, modulus: nat)
    requires 0 < modulus <= x < 2 * modulus
    ensures x % modulus == x - modulus
  {
    assert x == modulus + (x - modulus);
  }

  lemma EvenCode(n: nat)
    requires n < TWO_31
    ensures (2 * n) % TWO_32 == 2 * n && (2 * n) % TWO_64 == 2 * n && UnZigZag(2 * n) == n
  {
  }

  lemma OddCode(n: nat)
    requires n < TWO_31
    ensures UnZigZag(2 * n + 1) + n == -1
  {
    assert (2 * n + 1) / 2 == n && (2 * n + 1) % 2 == 1;
    assert TWO_32 - 1 - n >= TWO_31;
  }

  /** The 64-bit size of the offset is the length of the 32-bit code that is written. */
  lemma SozIsWrittenLength(x: I32)
    ensures Soz(ToU64(x)) == |Varint(ZigZag32(x))|
  {
    ZigZagMeaning(x);
    SovIsVarintLength(ZigZag32(x));
  }

  // ----- specification

  function Packed(counts: seq<U64>): seq<Byte> {
    if counts == [] then [] else Varint(counts[0]) + Packed(counts[1..])
  }

  function EncodeCounts(counts: seq<U64>): seq<Byte> {
    if counts == [] then [] else BytesRecord(2, Packed(counts))
  }

  function EncodeOffset(offset: I32): seq<Byte> {
    if offset == 0 then [] else VarintRecord(1, ZigZag32(offset))
  }

  function Encode(h: Histogram): seq<Byte> {
    EncodeCounts(h.counts) + EncodeOffset(h.offset)
  }

  function Unpack(bs: seq<Byte>, counts: seq<U64>): Out<seq<U64>>
    decreases |bs|
  {
    if bs == [] then Out(counts, None)
    else match ReadVarint(bs)
      case Bad(e) => Out(counts, Some(e))
      case Got(v, n) => Unpack(bs[n..], counts + [v])
  }

  function Apply(t: Token, orig: Histogram): Out<Histogram> {
    match t
    case VarintField(f, num) =>
      if f == 1 then Out(orig.(offset := UnZigZag(num)), None)
      else Out(orig.(counts := orig.counts + [num]), None)
    case BytesField(_, p) =>
      var u := Unpack(p, orig.counts);
      Out(orig.(counts := u.value), u.err)
    case _ => Out(orig, None)
  }

  function Decode(bs: seq<Byte>, orig: Histogram): Out<Histogram>
    decreases |bs|
  {
    if bs == [] then Out(orig, None)
    else match NextField(BucketsMsg, bs)
      case Bad(e) => Out(orig, Some(e))
      case Got(t, n) =>
        var step := Apply(t, orig);
        if step.err.Some? then step else Decode(bs[n..], step.value)
  }

  // ----- laws

  lemma {:induction false} DecodeConcat(x: seq<Byte>, y: seq<Byte>, orig: Histogram)
    requires Decode(x, orig).err.None?
    ensures Decode(x + y, orig) == Decode(y, Decode(x, orig).value)
    decreases |x|
  {
    if x == [] {
      assert x + y == y;
    } else {
      NextFieldExtends(BucketsMsg, x, y);
      var next := NextField(BucketsMsg, x);
      assert (x + y)[next.size..] == x[next.size..] + y;
      DecodeConcat(x[next.size..], y, Apply(next.value, orig).value);
    }
  }

  lemma OneRecord(code: seq<Byte>, t: Token, orig: Histogram)
    requires NextField(BucketsMsg, code + []) == Got(t, |code|)
    ensures Decode(code, orig) == Apply(t, orig)
  {
    assert code + [] == code;
    var h := Apply(t, orig).value;
    assert Decode(code[|code|..], h) == Out(h, None);
  }

  lemma {:induction false} UnpackPacked(counts: seq<U64>, before: seq<U64>)
    ensures Unpack(Packed(counts), before) == Out(before + counts, None)
    decreases counts
  {
    if counts == [] {
      assert before + counts == before;
    } else {
      var first, rest := Varint(counts[0]), Packed(counts[1..]);
      U64VarintLength(counts[0]);
      ReadVarintRoundTrip(counts[0], rest);
      assert (first + rest)[|first|..] == rest;
      UnpackPacked(counts[1..], before + [counts[0]]);
      assert before + [counts[0]] + counts[1..] == before + counts;
    }
  }

  /** One piece of a counts field on the wire. */
  datatype Chunk = PackedChunk(counts: seq<U64>) | SingleChunk(count: U64)

  function ChunkCounts(c: Chunk): seq<U64> {
    match c
    case PackedChunk(cs) => cs
    case SingleChunk(c) => [c]
  }

  function EncodeChunk(c: Chunk): seq<Byte> {
    match c
    case PackedChunk(cs) => BytesRecord(2, Packed(cs))
    case SingleChunk(c) => VarintRecord(2, c)
  }

  function EncodeChunks(cs: seq<Chunk>): seq<Byte> {
    if cs == [] then [] else EncodeChunk(cs[0]) + EncodeChunks(cs[1..])
  }

  function AllCounts(cs: seq<Chunk>): seq<U64> {
    if cs == [] then [] else ChunkCounts(cs[0]) + AllCounts(cs[1..])
  }

  function AddCounts(h: Histogram, counts: seq<U64>): Histogram {
    h.(counts := h.counts + counts)
  }

  lemma AddCountsTwice(h: Histogram, a: seq<U64>, b: seq<U64>)
    ensures AddCounts(AddCounts(h, a), b) == AddCounts(h, a + b)
  {
    assert h.counts + a + b == h.counts + (a + b);
  }

  lemma ChunkReads(c: Chunk, orig: Histogram)
    requires |EncodeChunk(c)| <= MAX_LEN
    ensures Decode(EncodeChunk(c), orig) == Out(AddCounts(orig, ChunkCounts(c)), None)
  {
    match c {
      case PackedChunk(cs) =>
        BytesRecordReads(BucketsMsg, 2, Packed(cs), []);
        OneRecord(EncodeChunk(c), BytesField(2, Packed(cs)), orig);
        UnpackPacked(cs, orig.counts);
      case SingleChunk(n) =>
        VarintRecordReads(BucketsMsg, 2, n, []);
        OneRecord(EncodeChunk(c), VarintField(2, n), orig);
    }
  }

  /** However the counts are cut into packed and single pieces, they decode to the same list. */
  lemma {:induction false} ChunksRead(cs: seq<Chunk>, orig: Histogram)
    requires |EncodeChunks(cs)| <= MAX_LEN
    ensures Decode(EncodeChunks(cs), orig) == Out(AddCounts(orig, AllCounts(cs)), None)
    decreases cs
  {
    if cs == [] {
      assert orig.counts + [] == orig.counts;
    } else {
      var head, tail, first := EncodeChunk(cs[0]), EncodeChunks(cs[1..]), ChunkCounts(cs[0]);
      ChunkReads(cs[0], orig);
      ChunksRead(cs[1..], AddCounts(orig, first));
      AddCountsTwice(orig, first, AllCounts(cs[1..]));
      ConcatResults(head, tail, orig, AddCounts(orig, first), AddCounts(orig, AllCounts(cs)));
    }
  }

  lemma ConcatResults(x: seq<Byte>, y: seq<Byte>, h0: Histogram, h1: Histogram, h2: Histogram)
    requires Decode(x, h0) == Out(h1, None) && Decode(y, h1) == Out(h2, None)
    ensures Decode(x + y, h0) == Out(h2, None)
  {
    DecodeConcat(x, y, h0);
  }

  lemma OffsetReads(offset: I32, orig: Histogram)
    requires orig.offset == 0
    ensures Decode(EncodeOffset(offset), orig) == Out(orig.(offset := offset), None)
  {
    if offset != 0 {
      VarintRecordReads(BucketsMsg, 1, ZigZag32(offset), []);
      OneRecord(EncodeOffset(offset), VarintField(1, ZigZag32(offset)), orig);
      ZigZagMeaning(offset);
    }
  }

  lemma CountsRead(counts: seq<U64>, orig: Histogram)
    requires |EncodeCounts(counts)| <= MAX_LEN
    ensures Decode(EncodeCounts(counts), orig) == Out(AddCounts(orig, counts), None)
  {
    if counts == [] {
      assert orig.counts + counts == orig.counts;
    } else {
      ChunkReads(PackedChunk(counts), orig);
    }
  }

  lemma RoundTrip(h: Histogram)
    requires |Encode(h)| <= MAX_LEN
    ensures Decode(Encode(h), ZERO_HISTOGRAM) == Out(h, None)
  {
    var h1 := ZERO_HISTOGRAM.(counts := h.counts);
    assert [] + h.counts == h.counts;
    CountsRead(h.counts, ZERO_HISTOGRAM);
    OffsetReads(h.offset, h1);
    ConcatResults(EncodeCounts(h.counts), EncodeOffset(h.offset), ZERO_HISTOGRAM, h1, h);
  }

  // ----- the message and its operations

  lemma {:induction false} PackedConcat(a: seq<U64>, b: seq<U64>)
    ensures Packed(a + b) == Packed(a) + Packed(b)
  {
    if a == [] {
      assert a + b == b;
    } else {
      assert (a + b)[1..] == a[1..] + b;
      PackedConcat(a[1..], b);
    }
  }

  method PackedSize(counts: seq<U64>) returns (l: nat)
    ensures l == |Packed(counts)|
  {
    l := 0;
    for i := 0 to |counts|
      invariant l == |Packed(counts[..i])|
    {
      assert counts[..i + 1] == counts[..i] + [counts[i]];
      PackedConcat(counts[..i], [counts[i]]);
      assert Packed([counts[i]]) == Varint(counts[i]) + [];
      SovIsVarintLength(counts[i]);
      l := l + Sov(counts[i]);
    }
    assert counts[..|counts|] == counts;
  }

  method MarshalPacked(counts: seq<U64>, buf: array<Byte>, end: nat) returns (pos: nat)
    requires |Packed(counts)| <= end <= buf.Length
    modifies buf
    ensures Wrote(old(buf[..]), buf[..], pos, end, Packed(counts))
  {
    ghost var before := buf[..];
    pos := end;
    var i := |counts|;
    while i > 0
      invariant 0 <= i <= |counts|
      invariant Wrote(before, buf[..], pos, end, Packed(counts[i..]))
    {
      i := i - 1;
      ghost var mid, done, mark := buf[..], Packed(counts[i + 1..]), pos;
      assert Packed(counts[i..]) == Varint(counts[i]) + done by {
        assert counts[i..][1..] == counts[i + 1..];
      }
      assert |Packed(counts[i..])| <= end by {
        PackedConcat(counts[..i], counts[i..]);
        assert counts == counts[..i] + counts[i..];
      }
      pos := EncodeVarint(buf, pos, counts[i]);
      assert Wrote(mid, buf[..], pos, mark, Varint(counts[i]));
      WroteMore(before, mid, buf[..], pos, mark, end, done, Varint(counts[i]));
    }
    assert counts[0..] == counts;
  }

  class Buckets {
    var Offset: I32
    var BucketCounts: seq<U64>

    constructor ()
      ensures Message() == ZERO_HISTOGRAM
    {
      Offset, BucketCounts := 0, [];
    }

    function Message(): Histogram
      reads this
    {
      Histogram(Offset, BucketCounts)
    }

    method SizeProto() returns (n: nat)
      requires |Encode(Message())| <= MAX_LEN
      ensures n == |Encode(Message())|
    {
      n := 0;
      if Offset != 0 {
        SozIsWrittenLength(Offset);
        n := n + 1 + Soz(ToU64(Offset));
      }
      if |BucketCounts| > 0 {
        var l := PackedSize(BucketCounts);
        SovIsVarintLength(l);
        n := n + 1 + Sov(l) + l;
      }
    }

    method MarshalProto(buf: array<Byte>) returns (n: nat)
      requires |Encode(Message())| <= buf.Length <= MAX_LEN
      modifies buf
      ensures n == |Encode(Message())|
      ensures Wrote(old(buf[..]), buf[..], buf.Length - n, buf.Length, Encode(Message()))
    {
      ghost var s0 := buf[..];
      var pos := buf.Length;
      if Offset != 0 {
        pos := PutVarintRecord(buf, pos, 1, ZigZag32(Offset));
      }
      assert Wrote(s0, buf[..], pos, buf.Length, EncodeOffset(Offset));
      ghost var s1 := buf[..];
      var endPos := pos;
      if |BucketCounts| > 0 {
        pos := MarshalPacked(BucketCounts, buf, endPos);
        pos := PutHeader(buf, pos, endPos, 2, s1, Packed(BucketCounts));
      }
      assert Wrote(s1, buf[..], pos, endPos, EncodeCounts(BucketCounts));
      WroteMore(s0, s1, buf[..], pos, endPos, buf.Length, EncodeOffset(Offset), EncodeCounts(BucketCounts));
      n := buf.Length - pos;
    }

    method UnmarshalPacked(payload: seq<Byte>) returns (err: Option<Error>)
      modifies `BucketCounts
      ensures Out(BucketCounts, err) == Unpack(payload, old(BucketCounts))
    {
      var startPos := 0;
      while startPos < |payload|
        invariant 0 <= startPos <= |payload|
        invariant Unpack(payload, old(BucketCounts)) == Unpack(payload[startPos..], BucketCounts)
      {
        var num := ConsumeVarint(payload, startPos);
        if num.Bad? {
          return Some(num.error);
        }
        assert payload[startPos..][num.size..] == payload[startPos + num.size..];
        startPos := startPos + num.size;
        BucketCounts := BucketCounts + [num.value];
      }
      return None;
    }

    method UnmarshalProto(buf: seq<Byte>) returns (err: Option<Error>)
      requires |buf| <= MAX_LEN
      modifies this
      ensures Out(Message(), err) == Decode(buf, old(Message()))
    {
      var pos := 0;
      while pos < |buf|
        invariant 0 <= pos <= |buf|
        invariant Decode(buf, old(Message())) == Decode(buf[pos..], Message())
      {
        var field := ConsumeField(BucketsMsg, buf, pos);
        if field.Bad? {
          return Some(field.error);
        }
        assert buf[pos..][field.size..] == buf[pos + field.size..];
        pos := pos + field.size;
        match field.value {
          case VarintField(f, num) =>
            if f == 1 {
              Offset := UnZigZag(num);
            } else {
              BucketCounts := BucketCounts + [num];
            }
          case BytesField(_, p) =>
            var e := UnmarshalPacked(p);
            if e.Some? {
              return e;
            }
          case _ =>
        }
      }
      return None;
    }
  }
}
