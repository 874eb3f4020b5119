/**
 The protobuf wire format as the pdata codec reads and writes it: base-128 varints,
 little-endian fixed-width words, tags, length-delimited payloads and the skipping of
 unknown fields.  The specification is a family of functions over byte sequences; the
 methods walk a buffer with a position, as the helpers of the `proto` package do.
 */
module Wire {
  import opened Common

  type Byte = b: nat | b < 256

  // No Go slice is longer than the largest int.
  const MAX_LEN: int := TWO_63 - 1

  datatype Error =
    | UnexpectedEOF
    | IntOverflow
    | InvalidLength
    | UnexpectedEndOfGroup
    | IllegalWireType(wireType: int)
    | IllegalField(fieldNum: int)
    | WrongWireType(field: int, wrong: int)

  /** What reading one item from the front of a byte sequence gives: the item and the number of bytes it took. */
  datatype Read<+T> = Got(value: T, size: nat) | Bad(error: Error)

  // ----- machine integers

  /** Go's uint64(x) of a signed integer: two's complement. */
  function ToU64(x: I64): U64 {
    if x < 0 then x + TWO_64 else x
  }

  /** Go's int64(x) of an unsigned integer. */
  function ToI64(x: U64): I64 {
    if x >= TWO_63 then x - TWO_64 else x
  }

  /** Go's int32(x) of an unsigned integer: keep the low 32 bits. */
  function ToI32(x: U64): I32 {
    var low := x % TWO_32;
    if low >= TWO_31 then low - TWO_32 else low
  }

  /** The conversions keep the low 64 and the low 32 bits. */
  lemma LowBits(x: U64)
    ensures (ToI64(x) - x) % TWO_64 == 0 && (ToI32(x) - x) % TWO_32 == 0
  {
    assert x == TWO_32 * (x / TWO_32) + x % TWO_32;
  }

  lemma SignedRoundTrip(x: I64)
    ensures ToI64(ToU64(x)) == x
    ensures -TWO_31 <= x < TWO_31 ==> ToI32(ToU64(x)) == x
  {
    if -TWO_31 <= x < 0 {
      assert x + TWO_64 == (TWO_32 - 1) * TWO_32 + (x + TWO_32);
    }
  }

  // ----- varints: size and encoding

  function Varint(v: nat): seq<Byte> {
    if v < 128 then [v] else [v % 128 + 128] + Varint(v / 128)
  }

  /** bits.Len64 */
  function BitLen(x: nat): nat {
    if x == 0 then 0 else 1 + BitLen(x / 2)
  }

  /** x | 1 */
  function SetLowBit(x: nat): nat {
    if x % 2 == 0 then x + 1 else x
  }

  function Sov(x: U64): (n: nat)
    ensures n >= 1
  {
    BitLenPositive(SetLowBit(x));
    (BitLen(SetLowBit(x)) + 6) / 7
  }

  lemma BitLenPositive(x: nat)
    requires x > 0
    ensures BitLen(x) >= 1
  {
  }

  lemma BitLenOfSeptet(x: nat)
    requires 0 < x < 128
    ensures 1 <= BitLen(x) <= 7
  {
    assert x / 2 < 64 && x / 2 / 2 < 32 && x / 2 / 2 / 2 < 16;
    BitLenSmall(x, 7);
  }

  lemma {:induction false} BitLenSmall(x: nat, n: nat)
    requires n <= 7
    requires x < [1, 2, 4, 8, 16, 32, 64, 128][n]
    ensures BitLen(x) <= n
  {
    if n > 0 {
      BitLenSmall(x / 2, n - 1);
    }
  }

  lemma BitLenShift(x: nat)
    requires x >= 128
    ensures BitLen(x) == 7 + BitLen(x / 128)
  {
    var a := x / 2;
    var b := a / 2;
    var c := b / 2;
    var d := c / 2;
    var e := d / 2;
    var f := e / 2;
    assert f / 2 == x / 128;
    BitLenHalves(x, a);
    BitLenHalves(a, b);
    BitLenHalves(b, c);
    BitLenHalves(c, d);
    BitLenHalves(d, e);
    BitLenHalves(e, f);
    BitLenHalves(f, x / 128);
  }

  lemma BitLenHalves(x: nat, half: nat)
    requires x > 0 && half == x / 2
    ensures BitLen(x) == 1 + BitLen(half)
  {
  }

  lemma BitLenSetLowBit(x: nat)
    requires x > 0
    ensures BitLen(SetLowBit(x)) == BitLen(x)
  {
    assert SetLowBit(x) / 2 == x / 2;
  }

  /** The closed form counts exactly the bytes that the encoder writes. */
  lemma {:induction false} SovIsVarintLength(x: U64)
    ensures Sov(x) == |Varint(x)|
  {
    if x < 128 {
      BitLenOfSeptet(SetLowBit(x));
    } else {
      BitLenSetLowBit(x);
      BitLenShift(x);
      BitLenSetLowBit(x / 128);
      SovIsVarintLength(x / 128);
    }
  }

  function Pow128(n: nat): nat {
    if n == 0 then 1 else 128 * Pow128(n - 1)
  }

  lemma {:induction false} VarintLengthBound(v: nat, n: nat)
    requires n > 0 && v < Pow128(n)
    ensures 1 <= |Varint(v)| <= n
  {
    if v >= 128 {
      assert n > 1 by { assert Pow128(1) == 128 * Pow128(0); }
      assert v / 128 < Pow128(n - 1);
      VarintLengthBound(v / 128, n - 1);
    }
  }

  lemma U64VarintLength(v: U64)
    ensures 1 <= |Varint(v)| <= 10
  {
    assert Pow128(10) == 128 * 128 * 128 * 128 * 128 * Pow128(5);
    assert Pow128(5) == 128 * 128 * 128 * 128 * 128 * Pow128(0);
    VarintLengthBound(v, 10);
  }

  /** Writes v so that its last byte lies just before offset; returns where its first byte lies. */
  method EncodeVarint(buf: array<Byte>, offset: nat, v: U64) returns (base: nat)
    requires |Varint(v)| <= offset <= buf.Length
    modifies buf
    ensures base == offset - |Varint(v)|
    ensures buf[..] == old(buf[..base]) + Varint(v) + old(buf[offset..])
  {
    SovIsVarintLength(v);
    base := offset - Sov(v);
    PutSeptets(buf, base, v);
  }

  method PutSeptets(buf: array<Byte>, base: nat, v: nat)
    requires base + |Varint(v)| <= buf.Length
    modifies buf
    ensures buf[..] == old(buf[..base]) + Varint(v) + old(buf[base + |Varint(v)|..])
  {
    var at, rest := base, v;
    ghost var was, code := buf[..], Varint(v);
    ghost var end := base + |code|;
    assert code == code[at - base..];
    while rest >= 128
      invariant base <= at < end
      invariant code[at - base..] == Varint(rest)
      invariant buf[..] == was[..base] + code[..at - base] + was[at..]
      decreases rest
    {
      VarintTail(code, at - base, rest);
      PutAt(buf[..], was, code, base, at, rest % 128 + 128);
      buf[at] := rest % 128 + 128;
      rest, at := rest / 128, at + 1;
    }
    VarintEnd(code, at - base, rest);
    PutAt(buf[..], was, code, base, at, rest);
    buf[at] := rest;
  }

  lemma VarintEnd(code: seq<Byte>, k: nat, rest: nat)
    requires k <= |code| && code[k..] == Varint(rest) && rest < 128
    ensures k + 1 == |code| && code[k] == rest && code[..k + 1] == code
  {
    assert code[k] == code[k..][0];
  }

  lemma PutAt(now: seq<Byte>, was: seq<Byte>, code: seq<Byte>, base: nat, at: nat, b: Byte)
    requires base <= at < base + |code| <= |was|
    requires now == was[..base] + code[..at - base] + was[at..]
    requires code[at - base] == b
    ensures now[at := b] == was[..base] + code[..at + 1 - base] + was[at + 1..]
  {
  }

  lemma VarintTail(code: seq<Byte>, k: nat, rest: nat)
    requires k <= |code| && code[k..] == Varint(rest) && rest >= 128
    ensures k + 1 < |code| && code[k] == rest % 128 + 128 && code[k + 1..] == Varint(rest / 128)
  {
    assert Varint(rest) == [rest % 128 + 128] + Varint(rest / 128);
    assert code[k] == code[k..][0];
    assert code[k + 1..] == code[k..][1..];
    assert |Varint(rest / 128)| >= 1;
  }

  // ----- varints: decoding

  /** The value of the varint at the front of bs, untruncated, given that k bytes of it were read already. */
  function RawVarint(bs: seq<Byte>, k: nat): (r: Read<nat>)
    ensures r.Got? ==> 0 < r.size <= |bs| && r.size + k <= 10
  {
    if k >= 10 then Bad(IntOverflow)
    else if bs == [] then Bad(UnexpectedEOF)
    else if bs[0] < 128 then Got(bs[0], 1)
    else match RawVarint(bs[1..], k + 1)
      case Got(v, n) => Got(bs[0] - 128 + 128 * v, n + 1)
      case Bad(e) => Bad(e)
  }

  /** Bits above the 64th are shifted out. */
  function ReadVarint(bs: seq<Byte>): (r: Read<U64>)
    ensures r.Got? ==> 0 < r.size <= |bs|
  {
    match RawVarint(bs, 0)
    case Got(v, n) => Got(v % TWO_64, n)
    case Bad(e) => Bad(e)
  }

  /** The first n bytes say that more follow. */
  predicate Continues(bs: seq<Byte>, n: nat) {
    n <= |bs| && forall i :: 0 <= i < n ==> bs[i] >= 128
  }

  lemma {:induction false} VarintFailsFrom(bs: seq<Byte>, k: nat)
    requires k <= 10
    ensures RawVarint(bs, k) == Bad(IntOverflow) <==> Continues(bs, 10 - k)
    ensures RawVarint(bs, k) == Bad(UnexpectedEOF) <==> |bs| < 10 - k && Continues(bs, |bs|)
    ensures RawVarint(bs, k).Bad? ==> RawVarint(bs, k).error in {IntOverflow, UnexpectedEOF}
    decreases |bs|
  {
    if k < 10 && bs != [] {
      VarintFailsFrom(bs[1..], k + 1);
      assert bs == [bs[0]] + bs[1..];
    }
  }

  /** Reading fails exactly when ten bytes say that more follow, or all the bytes there are do. */
  lemma VarintFailsExactly(bs: seq<Byte>)
    ensures ReadVarint(bs) == Bad(IntOverflow) <==> Continues(bs, 10)
    ensures ReadVarint(bs) == Bad(UnexpectedEOF) <==> |bs| < 10 && Continues(bs, |bs|)
    ensures ReadVarint(bs).Bad? ==> ReadVarint(bs).error in {IntOverflow, UnexpectedEOF}
  {
    VarintFailsFrom(bs, 0);
  }

  lemma {:induction false} RawVarintRoundTrip(v: nat, rest: seq<Byte>, k: nat)
    requires k + |Varint(v)| <= 10
    ensures RawVarint(Varint(v) + rest, k) == Got(v, |Varint(v)|)
  {
    var bs := Varint(v) + rest;
    if v >= 128 {
      assert bs[1..] == Varint(v / 128) + rest;
      RawVarintRoundTrip(v / 128, rest, k + 1);
    }
  }

  lemma ReadVarintRoundTrip(v: U64, rest: seq<Byte>)
    ensures ReadVarint(Varint(v) + rest) == Got(v, |Varint(v)|)
  {
    U64VarintLength(v);
    RawVarintRoundTrip(v, rest, 0);
  }

  lemma {:induction false} RawVarintExtends(x: seq<Byte>, y: seq<Byte>, k: nat)
    requires RawVarint(x, k).Got?
    ensures RawVarint(x + y, k) == RawVarint(x, k)
  {
    if x[0] >= 128 {
      assert (x + y)[1..] == x[1..] + y;
      RawVarintExtends(x[1..], y, k + 1);
    }
  }

  lemma Pow2OfSeptets(k: nat)
    ensures Pow2(7 * k) == Pow128(k)
  {
    if k > 0 {
      Pow2OfSeptets(k - 1);
      var n := 7 * k;
      assert Pow2(n) == 2 * Pow2(n - 1) == 4 * Pow2(n - 2) == 8 * Pow2(n - 3) == 16 * Pow2(n - 4);
      assert Pow2(n - 4) == 2 * Pow2(n - 5) == 4 * Pow2(n - 6) == 8 * Pow2(n - 7);
    }
  }

  /** x << shift on uint64 */
  function Shl64(x: nat, shift: nat): U64 {
    (x * Pow2(shift)) % TWO_64
  }

  /** What RawVarint gives for the whole when the k bytes before held the value low. */
  function Prepend(low: nat, k: nat, r: Read<nat>): Read<nat> {
    match r
    case Got(v, n) => Got(low + Pow128(k) * v, k + n)
    case Bad(e) => Bad(e)
  }

  lemma Pow128Values()
    ensures Pow128(9) == TWO_63
    ensures forall k: nat :: k <= 9 ==> Pow128(k) <= TWO_63
  {
    assert Pow128(9) == 128 * 128 * 128 * 128 * 128 * Pow128(4);
    forall k: nat | k <= 9 ensures Pow128(k) <= Pow128(9) {
      Pow128Monotone(k, 9);
    }
  }

  lemma Pow128Monotone(a: nat, b: nat)
    requires a <= b
    ensures Pow128(a) <= Pow128(b)
    decreases b
  {
    if a < b {
      Pow128Monotone(a, b - 1);
    }
  }

  lemma PrependStep(low: nat, k: nat, bs: seq<Byte>, low': nat)
    requires k < 10 && bs != [] && low' == low + Pow128(k) * (bs[0] % 128)
    ensures Prepend(low, k, RawVarint(bs, k)) ==
            if bs[0] < 128 then Got(low', k + 1) else Prepend(low', k + 1, RawVarint(bs[1..], k + 1))
  {
    if bs[0] >= 128 {
      assert bs[0] % 128 == bs[0] - 128;
      var r := RawVarint(bs[1..], k + 1);
      if r.Got? {
        Distribute(Pow128(k), bs[0] - 128, r.value);
      }
    }
  }

  lemma Distribute(p: nat, b: nat, v: nat)
    ensures p * (b + 128 * v) == p * b + (128 * p) * v
  {
  }

  /** One round of the loop: the septet lands above the bits read so far, whether or not it is cut at 64 bits. */
  lemma SeptetStep(num: nat, b: nat, k: nat, sum: nat)
    requires k <= 9 && b < 128 && num < Pow128(k) && sum == num + Pow128(k) * b
    ensures sum < Pow128(k + 1)
    ensures num + Shl64(b, 7 * k) == sum % TWO_64
  {
    Pow2OfSeptets(k);
    var p := Pow128(k);
    SeptetBelow(num, p, b);
    if k < 9 {
      assert Pow128(k + 1) <= TWO_63 by { Pow128Values(); }
      NothingCut(num, b * p);
    } else {
      assert p == TWO_63 by { Pow128Values(); }
      TopSeptetCut(num, b);
    }
  }

  lemma NothingCut(num: nat, x: nat)
    requires num + x < TWO_64
    ensures num + x % TWO_64 == (num + x) % TWO_64
  {
  }

  lemma TopSeptetCut(num: nat, b: nat)
    requires num < TWO_63
    ensures num + (b * TWO_63) % TWO_64 == (num + TWO_63 * b) % TWO_64
  {
    assert b * TWO_63 == (b / 2) * TWO_64 + (b % 2) * TWO_63;
    assert (b * TWO_63) % TWO_64 == (b % 2) * TWO_63;
    assert num + TWO_63 * b == (b / 2) * TWO_64 + (num + (b % 2) * TWO_63);
  }

  lemma SeptetBelow(num: nat, p: nat, b: nat)
    requires num < p && b < 128
    ensures num + p * b < 128 * p && p * b == b * p
  {
    assert p * b <= p * 127;
  }

  lemma ConsumeStep(raw: nat, num: nat, k: nat, bs: seq<Byte>) returns (raw': nat)
    requires k < 10 && bs != [] && raw < Pow128(k) && num == raw % TWO_64
    ensures raw' < Pow128(k + 1) && num + Shl64(bs[0] % 128, 7 * k) == raw' % TWO_64
    ensures Prepend(raw, k, RawVarint(bs, k)) ==
            if bs[0] < 128 then Got(raw', k + 1) else Prepend(raw', k + 1, RawVarint(bs[1..], k + 1))
  {
    assert raw < TWO_63 by { Pow128Values(); }
    raw' := raw + Pow128(k) * (bs[0] % 128);
    SeptetStep(raw, bs[0] % 128, k, raw');
    PrependStep(raw, k, bs, raw');
  }

  method ConsumeVarint(buf: seq<Byte>, start: nat) returns (r: Read<U64>)
    requires start <= |buf|
    ensures r == ReadVarint(buf[start..])
  {
    var pos, num: nat, shift := start, 0, 0;
    ghost var k, raw: nat := 0, 0;
    ghost var whole := RawVarint(buf[start..], 0);
    while true
      invariant shift == 7 * k && k <= 10 && pos == start + k <= |buf|
      invariant raw < Pow128(k) && num == raw % TWO_64
      invariant whole == Prepend(raw, k, RawVarint(buf[pos..], k))
      decreases 10 - k
    {
      if shift >= 64 {
        return Bad(IntOverflow);
      }
      if pos >= |buf| {
        return Bad(UnexpectedEOF);
      }
      var b := buf[pos];
      ghost var raw' := ConsumeStep(raw, num, k, buf[pos..]);
      assert buf[pos..][1..] == buf[pos + 1..];
      pos := pos + 1;
      // The bits of the shifted septet lie above those of num, so the bitwise or is a sum.
      num := num + Shl64(b % 128, shift);
      if b < 128 {
        return Got(num, pos - start);
      }
      raw, k, shift := raw', k + 1, shift + 7;
    }
  }

  // ----- fixed-width words

  function LittleEndian(x: nat, width: nat): seq<Byte> {
    if width == 0 then [] else [x % 256] + LittleEndian(x / 256, width - 1)
  }

  function FromLittleEndian(bs: seq<Byte>): nat {
    if bs == [] then 0 else bs[0] + 256 * FromLittleEndian(bs[1..])
  }

  function Pow256(n: nat): nat {
    if n == 0 then 1 else 256 * Pow256(n - 1)
  }

  lemma {:induction false} LittleEndianRoundTrip(x: nat, width: nat)
    requires x < Pow256(width)
    ensures |LittleEndian(x, width)| == width
    ensures FromLittleEndian(LittleEndian(x, width)) == x
  {
    if width > 0 {
      LittleEndianRoundTrip(x / 256, width - 1);
      assert LittleEndian(x, width)[1..] == LittleEndian(x / 256, width - 1);
    }
  }

  lemma {:induction false} LittleEndianBound(bs: seq<Byte>)
    ensures FromLittleEndian(bs) < Pow256(|bs|)
  {
    if bs != [] {
      LittleEndianBound(bs[1..]);
    }
  }

  lemma Pow256Values()
    ensures Pow256(4) == TWO_32 && Pow256(8) == TWO_64
  {
    assert Pow256(8) == 256 * 256 * 256 * 256 * Pow256(4);
  }

  function ReadFixed(bs: seq<Byte>, width: nat): (r: Read<nat>)
    ensures r.Got? ==> r.size == width <= |bs|
    ensures r.Got? && width == 8 ==> r.value < TWO_64
  {
    if |bs| < width then Bad(UnexpectedEOF)
    else
      LittleEndianBound(bs[..width]);
      Pow256Values();
      Got(FromLittleEndian(bs[..width]), width)
  }

  // ----- tags and payloads

  datatype Tag = Tag(fieldNum: int, wireType: nat)

  const VARINT := 0
  const I64_WORD := 1
  const LEN := 2
  const START_GROUP := 3
  const END_GROUP := 4
  const I32_WORD := 5

  function ReadTag(bs: seq<Byte>): (r: Read<Tag>)
    ensures r.Got? ==> 0 < r.size <= |bs| && r.value.fieldNum > 0 && r.value.wireType < 8
  {
    match ReadVarint(bs)
    case Bad(e) => Bad(e)
    case Got(tag, n) =>
      var fieldNum := ToI32(tag / 8);
      if fieldNum <= 0 then Bad(IllegalField(fieldNum))
      else Got(Tag(fieldNum, tag % 8), n)
  }

  function ReadLen(bs: seq<Byte>): (r: Read<seq<Byte>>)
    ensures r.Got? ==> |r.value| < r.size <= |bs| && r.value == bs[r.size - |r.value|..r.size]
  {
    match ReadVarint(bs)
    case Bad(e) => Bad(e)
    case Got(num, n) =>
      if ToI64(num) < 0 then Bad(InvalidLength)
      else if n + num > |bs| then Bad(UnexpectedEOF)
      else Got(bs[n..n + num], n + num)
  }

  /** A length that is negative as an int, or reaches past the end, is an error. */
  lemma LenFailsExactly(num: U64, rest: seq<Byte>)
    ensures ReadLen(Varint(num) + rest) == Bad(InvalidLength) <==> num >= TWO_63
    ensures ReadLen(Varint(num) + rest) == Bad(UnexpectedEOF) <==> |rest| < num < TWO_63
    ensures num <= |rest| && num < TWO_63 ==> ReadLen(Varint(num) + rest) == Got(rest[..num], |Varint(num)| + num)
  {
    ReadVarintRoundTrip(num, rest);
    LenAfterVarint(Varint(num), num, rest);
  }

  lemma LenAfterVarint(v: seq<Byte>, num: U64, rest: seq<Byte>)
    requires ReadVarint(v + rest) == Got(num, |v|)
    ensures ReadLen(v + rest) == Bad(InvalidLength) <==> num >= TWO_63
    ensures ReadLen(v + rest) == Bad(UnexpectedEOF) <==> |rest| < num < TWO_63
    ensures num <= |rest| && num < TWO_63 ==> ReadLen(v + rest) == Got(rest[..num], |v| + num)
  {
    if num <= |rest| {
      assert (v + rest)[|v|..|v| + num] == rest[..num];
    }
  }

  /** A tag whose field number is not positive, taken as 32 bits, is an error. */
  lemma TagFailsExactly(num: U64, rest: seq<Byte>)
    ensures ReadTag(Varint(num) + rest).Bad? <==> (num / 8) % TWO_32 == 0 || (num / 8) % TWO_32 >= TWO_31
  {
    ReadVarintRoundTrip(num, rest);
    TagAfterVarint(Varint(num), num, rest);
  }

  lemma TagAfterVarint(v: seq<Byte>, num: U64, rest: seq<Byte>)
    requires ReadVarint(v + rest) == Got(num, |v|)
    ensures ReadTag(v + rest).Bad? <==> (num / 8) % TWO_32 == 0 || (num / 8) % TWO_32 >= TWO_31
    ensures ReadTag(v + rest).Got? ==> ReadTag(v + rest) == Got(Tag((num / 8) % TWO_32, num % 8), |v|)
  {
  }

  /** Skips the payload of an unknown field inside depth open groups; the value carries nothing. */
  function SkipUnknown(bs: seq<Byte>, wireType: nat, depth: nat): (r: Read<()>)
    ensures r.Got? ==> r.size <= |bs|
    decreases |bs|
  {
    if bs == [] then Bad(UnexpectedEOF)
    else if wireType == VARINT then Sized(ReadVarint(bs))
    else if wireType == I64_WORD then Sized(ReadFixed(bs, 8))
    else if wireType == LEN then Sized(ReadLen(bs))
    else if wireType == I32_WORD then Sized(ReadFixed(bs, 4))
    else if wireType == START_GROUP then SkipNext(bs, depth + 1)
    else if wireType == END_GROUP then
      if depth == 0 then Bad(UnexpectedEndOfGroup)
      else if depth == 1 then Got((), 0)
      else SkipNext(bs, depth - 1)
    else Bad(IllegalWireType(wireType))
  }

  function SkipNext(bs: seq<Byte>, depth: nat): (r: Read<()>)
    ensures r.Got? ==> 0 < r.size <= |bs|
    decreases |bs|, 0
  {
    match ReadTag(bs)
    case Bad(e) => Bad(e)
    case Got(tag, n) =>
      match SkipUnknown(bs[n..], tag.wireType, depth)
      case Bad(e) => Bad(e)
      case Got(_, m) => Got((), n + m)
  }

  function Sized<T>(r: Read<T>): Read<()> {
    match r
    case Got(_, n) => Got((), n)
    case Bad(e) => Bad(e)
  }

  method ConsumeI64(buf: seq<Byte>, start: nat) returns (r: Read<nat>)
    requires start <= |buf| <= MAX_LEN
    ensures r == ReadFixed(buf[start..], 8)
  {
    var pos := WrapInt(start + 8);
    if pos < 0 || pos > |buf| {
      return Bad(UnexpectedEOF);
    }
    assert buf[start..][..8] == buf[pos - 8..pos];
    return Got(FromLittleEndian(buf[pos - 8..pos]), 8);
  }

  method ConsumeI32(buf: seq<Byte>, start: nat) returns (r: Read<nat>)
    requires start <= |buf| <= MAX_LEN
    ensures r == ReadFixed(buf[start..], 4)
  {
    var pos := WrapInt(start + 4);
    if pos < 0 || pos > |buf| {
      return Bad(UnexpectedEOF);
    }
    assert buf[start..][..4] == buf[pos - 4..pos];
    return Got(FromLittleEndian(buf[pos - 4..pos]), 4);
  }

  /** Go's int addition of two non-negative ints. */
  function WrapInt(sum: nat): int
    requires sum < TWO_64
  {
    ToI64(sum)
  }

  method ConsumeLen(buf: seq<Byte>, start: nat) returns (r: Read<seq<Byte>>)
    requires start <= |buf| <= MAX_LEN
    ensures r == ReadLen(buf[start..])
  {
    var num := ConsumeVarint(buf, start);
    if num.Bad? {
      return Bad(num.error);
    }
    var pos := start + num.size;
    var length := ToI64(num.value);
    if length < 0 {
      return Bad(InvalidLength);
    }
    var end := WrapInt(pos + length);
    if end < 0 || end > |buf| {
      return Bad(UnexpectedEOF);
    }
    assert buf[start..][num.size..num.size + length] == buf[pos..end];
    return Got(buf[end - length..end], end - start);
  }

  method ConsumeTag(buf: seq<Byte>, start: nat) returns (r: Read<Tag>)
    requires start <= |buf|
    ensures r == ReadTag(buf[start..])
  {
    var tag := ConsumeVarint(buf, start);
    if tag.Bad? {
      return Bad(tag.error);
    }
    var fieldNum := ToI32(tag.value / 8);
    if fieldNum <= 0 {
      return Bad(IllegalField(fieldNum));
    }
    return Got(Tag(fieldNum, tag.value % 8), tag.size);
  }

  method ConsumeUnknown(buf: seq<Byte>, start: nat, wireType: nat) returns (r: Read<()>)
    requires start <= |buf| <= MAX_LEN
    ensures r == SkipUnknown(buf[start..], wireType, 0)
  {
    var pos, depth, wire := start, 0, wireType;
    ghost var result := SkipUnknown(buf[start..], wireType, 0);
    while pos < |buf|
      invariant start <= pos <= |buf|
      invariant result == Shift(SkipUnknown(buf[pos..], wire, depth), pos - start)
    {
      if wire == VARINT {
        var v := ConsumeVarint(buf, pos);
        return Shift(Sized(v), pos - start);
      } else if wire == I64_WORD {
        var v := ConsumeI64(buf, pos);
        return Shift(Sized(v), pos - start);
      } else if wire == LEN {
        var v := ConsumeLen(buf, pos);
        return Shift(Sized(v), pos - start);
      } else if wire == START_GROUP {
        depth := depth + 1;
      } else if wire == END_GROUP {
        if depth == 0 {
          return Bad(UnexpectedEndOfGroup);
        }
        depth := depth - 1;
      } else if wire == I32_WORD {
        var v := ConsumeI32(buf, pos);
        return Shift(Sized(v), pos - start);
      } else {
        return Bad(IllegalWireType(wire));
      }
      if depth == 0 {
        return Got((), pos - start);
      }
      var tag := ConsumeTag(buf, pos);
      if tag.Bad? {
        return Bad(tag.error);
      }
      assert buf[pos..][tag.size..] == buf[pos + tag.size..];
      pos, wire := pos + tag.size, tag.value.wireType;
    }
    return Bad(UnexpectedEOF);
  }

  function Shift(r: Read<()>, distance: nat): Read<()> {
    match r
    case Got(_, n) => Got((), distance + n)
    case Bad(e) => Bad(e)
  }
}
