/**
 EntityRef: a message of two scalar and two repeated strings.  Decoding a concatenation of
 encoded messages merges them: repeated fields are appended, the last scalar wins.
 */
module EntityRefs {
  import opened Common
  import opened Wire
  import opened Fields
  import opened AnyValues

  type Text = seq<Byte>

  datatype Ref = Ref(schemaUrl: Text, kind: Text, idKeys: seq<Text>, descriptionKeys: seq<Text>)

  const ZERO_REF := Ref([], [], [], [])

  // ----- specification

  function EncodeKeys(f: FieldNum, keys: seq<Text>): seq<Byte> {
    if keys == [] then [] else BytesRecord(f, keys[0]) + EncodeKeys(f, keys[1..])
  }

  /** The buffer is filled from the back, so the fields appear in reverse order. */
  function Encode(r: Ref): seq<Byte> {
    EncodeLists(r.idKeys, r.descriptionKeys) + EncodeScalars(r.schemaUrl, r.kind)
  }

  function EncodeLists(ids: seq<Text>, descriptions: seq<Text>): seq<Byte> {
    EncodeKeys(4, descriptions) + EncodeKeys(3, ids)
  }

  function EncodeScalars(url: Text, kind: Text): seq<Byte> {
    OptionalBytes(2, kind) + OptionalBytes(1, url)
  }

  function Apply(t: Token, orig: Ref): Ref {
    if t.BytesField? then
      if t.fieldNum == 1 then orig.(schemaUrl := t.payload)
      else if t.fieldNum == 2 then orig.(kind := t.payload)
      else if t.fieldNum == 3 then orig.(idKeys := orig.idKeys + [t.payload])
      else orig.(descriptionKeys := orig.descriptionKeys + [t.payload])
    else orig
  }

  function Decode(bs: seq<Byte>, orig: Ref): Out<Ref>
    decreases |bs|
  {
    if bs == [] then Out(orig, None)
    else match NextField(EntityRefMsg, bs)
      case Bad(e) => Out(orig, Some(e))
      case Got(t, n) => Decode(bs[n..], Apply(t, orig))
  }

  // ----- laws

  lemma {:induction false} DecodeConcat(x: seq<Byte>, y: seq<Byte>, orig: Ref)
    requires Decode(x, orig).err.None?
    ensures Decode(x + y, orig) == Decode(y, Decode(x, orig).value)
    decreases |x|
  {
    if x == [] {
      assert x + y == y;
    } else {
      NextFieldExtends(EntityRefMsg, x, y);
      var next := NextField(EntityRefMsg, x);
      assert (x + y)[next.size..] == x[next.size..] + y;
      DecodeConcat(x[next.size..], y, Apply(next.value, orig));
    }
  }

  lemma FirstRecord(f: FieldNum, payload: Text, rest: seq<Byte>, orig: Ref)
    requires f <= 4 && |payload| <= MAX_LEN
    ensures Decode(BytesRecord(f, payload) + rest, orig) == Decode(rest, Apply(BytesField(f, payload), orig))
  {
    BytesRecordReads(EntityRefMsg, f, payload, rest);
    assert (BytesRecord(f, payload) + rest)[|BytesRecord(f, payload)|..] == rest;
  }

  lemma OptionalReads(f: FieldNum, payload: Text, orig: Ref)
    requires f <= 2 && |payload| <= MAX_LEN
    ensures Decode(OptionalBytes(f, payload), orig)
         == Out(if payload == [] then orig else Apply(BytesField(f, payload), orig), None)
  {
    if payload != [] {
      FirstRecord(f, payload, [], orig);
      assert BytesRecord(f, payload) + [] == BytesRecord(f, payload);
    }
  }

  function AddKeys(f: FieldNum, keys: seq<Text>, orig: Ref): Ref {
    if f == 3 then orig.(idKeys := orig.idKeys + keys)
    else orig.(descriptionKeys := orig.descriptionKeys + keys)
  }

  lemma {:induction false} KeysRead(f: FieldNum, keys: seq<Text>, orig: Ref)
    requires 3 <= f <= 4 && |EncodeKeys(f, keys)| <= MAX_LEN
    ensures Decode(EncodeKeys(f, keys), orig) == Out(AddKeys(f, keys, orig), None)
    decreases keys
  {
    if keys == [] {
      assert orig.idKeys + [] == orig.idKeys && orig.descriptionKeys + [] == orig.descriptionKeys;
    } else {
      FirstRecord(f, keys[0], EncodeKeys(f, keys[1..]), orig);
      KeysRead(f, keys[1..], Apply(BytesField(f, keys[0]), orig));
      AddKeysStep(f, keys, orig);
    }
  }

  lemma AddKeysStep(f: FieldNum, keys: seq<Text>, orig: Ref)
    requires 3 <= f <= 4 && keys != []
    ensures AddKeys(f, keys[1..], Apply(BytesField(f, keys[0]), orig)) == AddKeys(f, keys, orig)
  {
    assert orig.idKeys + [keys[0]] + keys[1..] == orig.idKeys + keys;
    assert orig.descriptionKeys + [keys[0]] + keys[1..] == orig.descriptionKeys + keys;
  }

  /** Protobuf merging: repeated fields appended, a scalar that is present replaces the earlier one. */
  function Merge(a: Ref, b: Ref): Ref {
    Ref(if b.schemaUrl == [] then a.schemaUrl else b.schemaUrl,
        if b.kind == [] then a.kind else b.kind,
        a.idKeys + b.idKeys,
        a.descriptionKeys + b.descriptionKeys)
  }

  /** Decoding an encoded message into any message merges it in. */
  lemma DecodeMerges(b: Ref, a: Ref)
    requires |Encode(b)| <= MAX_LEN
    ensures Decode(Encode(b), a) == Out(Merge(a, b), None)
  {
    var d, i := EncodeKeys(4, b.descriptionKeys), EncodeKeys(3, b.idKeys);
    var k, s := OptionalBytes(2, b.kind), OptionalBytes(1, b.schemaUrl);
    KeysRead(4, b.descriptionKeys, a);
    var a1 := AddKeys(4, b.descriptionKeys, a);
    DecodeConcat(d, i, a);
    KeysRead(3, b.idKeys, a1);
    var a2 := AddKeys(3, b.idKeys, a1);
    OptionalReads(2, b.kind, a2);
    DecodeConcat(k, s, a2);
    OptionalReads(1, b.schemaUrl, Decode(k, a2).value);
    DecodeConcat(d + i, k + s, a);
  }

  lemma RoundTrip(r: Ref)
    requires |Encode(r)| <= MAX_LEN
    ensures Decode(Encode(r), ZERO_REF) == Out(r, None)
  {
    DecodeMerges(r, ZERO_REF);
    assert [] + r.idKeys == r.idKeys && [] + r.descriptionKeys == r.descriptionKeys;
  }

  /** Messages written one after another decode to their merge, from any starting message. */
  lemma ConcatenationMerges(x: Ref, y: Ref, orig: Ref)
    requires |Encode(x)| <= MAX_LEN && |Encode(y)| <= MAX_LEN
    ensures Decode(Encode(x) + Encode(y), orig) == Out(Merge(Merge(orig, x), y), None)
  {
    DecodeMerges(x, orig);
    DecodeConcat(Encode(x), Encode(y), orig);
    DecodeMerges(y, Merge(orig, x));
  }

  /** So how a run of messages is split into buffers does not matter. */
  lemma MergeAssociative(a: Ref, b: Ref, c: Ref)
    ensures Merge(Merge(a, b), c) == Merge(a, Merge(b, c))
  {
    assert a.idKeys + b.idKeys + c.idKeys == a.idKeys + (b.idKeys + c.idKeys);
    assert a.descriptionKeys + b.descriptionKeys + c.descriptionKeys
        == a.descriptionKeys + (b.descriptionKeys + c.descriptionKeys);
  }

  // ----- the message and its operations

  lemma {:induction false} EncodeKeysConcat(f: FieldNum, ks: seq<Text>, ls: seq<Text>)
    ensures EncodeKeys(f, ks + ls) == EncodeKeys(f, ks) + EncodeKeys(f, ls)
  {
    if ks == [] {
      assert ks + ls == ls;
    } else {
      assert (ks + ls)[1..] == ks[1..] + ls;
      EncodeKeysConcat(f, ks[1..], ls);
    }
  }

  lemma KeySize(f: FieldNum, keys: seq<Text>, i: nat)
    requires i < |keys|
    ensures |EncodeKeys(f, keys[..i + 1])| == |EncodeKeys(f, keys[..i])| + |BytesRecord(f, keys[i])|
    ensures |BytesRecord(f, keys[i])| <= |EncodeKeys(f, keys)|
  {
    EncodeKeysConcat(f, keys[..i], [keys[i]]);
    assert keys[..i + 1] == keys[..i] + [keys[i]];
    assert EncodeKeys(f, [keys[i]]) == BytesRecord(f, keys[i]) + [];
    EncodeKeysConcat(f, keys[..i + 1], keys[i + 1..]);
    assert keys == keys[..i + 1] + keys[i + 1..];
  }

  method SizeKeys(ghost f: FieldNum, keys: seq<Text>) returns (n: nat)
    requires |EncodeKeys(f, keys)| <= MAX_LEN
    ensures n == |EncodeKeys(f, keys)|
  {
    n := 0;
    for i := 0 to |keys|
      invariant n == |EncodeKeys(f, keys[..i])|
    {
      KeySize(f, keys, i);
      var l := |keys[i]|;
      SovIsVarintLength(l);
      n := n + 1 + Sov(l) + l;
    }
    assert keys[..|keys|] == keys;
  }

  method MarshalKeys(f: FieldNum, keys: seq<Text>, buf: array<Byte>, end: nat) returns (pos: nat)
    requires |EncodeKeys(f, keys)| <= end <= buf.Length <= MAX_LEN
    modifies buf
    ensures Wrote(old(buf[..]), buf[..], pos, end, EncodeKeys(f, keys))
  {
    ghost var before := buf[..];
    pos := end;
    var i := |keys|;
    while i > 0
      invariant 0 <= i <= |keys|
      invariant Wrote(before, buf[..], pos, end, EncodeKeys(f, keys[i..]))
    {
      i := i - 1;
      ghost var mid, done, mark := buf[..], EncodeKeys(f, keys[i + 1..]), pos;
      assert EncodeKeys(f, keys[i..]) == BytesRecord(f, keys[i]) + done by {
        assert keys[i..][1..] == keys[i + 1..];
      }
      assert |EncodeKeys(f, keys[i..])| <= end by {
        EncodeKeysConcat(f, keys[..i], keys[i..]);
        assert keys == keys[..i] + keys[i..];
      }
      pos := PutBytesRecord(buf, pos, f, keys[i]);
      WroteMore(before, mid, buf[..], pos, mark, end, done, BytesRecord(f, keys[i]));
    }
    assert keys[0..] == keys;
  }

  method MarshalScalars(url: Text, kind: Text, buf: array<Byte>, end: nat) returns (pos: nat)
    requires |EncodeScalars(url, kind)| <= end <= buf.Length <= MAX_LEN
    modifies buf
    ensures Wrote(old(buf[..]), buf[..], pos, end, EncodeScalars(url, kind))
  {
    ghost var s0 := buf[..];
    var p1 := PutOptionalBytes(buf, end, 1, url);
    ghost var s1 := buf[..];
    pos := PutOptionalBytes(buf, p1, 2, kind);
    WroteMore(s0, s1, buf[..], pos, p1, end, OptionalBytes(1, url), OptionalBytes(2, kind));
  }

  method MarshalLists(ids: seq<Text>, descriptions: seq<Text>, buf: array<Byte>, end: nat) returns (pos: nat)
    requires |EncodeLists(ids, descriptions)| <= end <= buf.Length <= MAX_LEN
    modifies buf
    ensures Wrote(old(buf[..]), buf[..], pos, end, EncodeLists(ids, descriptions))
  {
    ghost var s0 := buf[..];
    var p1 := MarshalKeys(3, ids, buf, end);
    ghost var s1 := buf[..];
    pos := MarshalKeys(4, descriptions, buf, p1);
    WroteMore(s0, s1, buf[..], pos, p1, end, EncodeKeys(3, ids), EncodeKeys(4, descriptions));
  }

  class EntityRef {
    var SchemaUrl: Text
    var Type: Text
    var IdKeys: seq<Text>
    var DescriptionKeys: seq<Text>

    constructor ()
      ensures Message() == ZERO_REF
    {
      SchemaUrl, Type, IdKeys, DescriptionKeys := [], [], [], [];
    }

    function Message(): Ref
      reads this
    {
      Ref(SchemaUrl, Type, IdKeys, DescriptionKeys)
    }

    method SizeProto() returns (n: nat)
      requires |Encode(Message())| <= MAX_LEN
      ensures n == |Encode(Message())|
    {
      n := 0;
      var l := |SchemaUrl|;
      if l > 0 {
        SovIsVarintLength(l);
        n := n + 1 + Sov(l) + l;
      }
      l := |Type|;
      if l > 0 {
        SovIsVarintLength(l);
        n := n + 1 + Sov(l) + l;
      }
      var ids := SizeKeys(3, IdKeys);
      var descriptions := SizeKeys(4, DescriptionKeys);
      n := n + ids + descriptions;
    }

    method MarshalProto(buf: array<Byte>) returns (n: nat)
      requires |Encode(Message())| <= buf.Length <= MAX_LEN
      modifies buf
      ensures n == |Encode(Message())|
      ensures Wrote(old(buf[..]), buf[..], buf.Length - n, buf.Length, Encode(Message()))
    {
      var end := buf.Length;
      ghost var s0 := buf[..];
      ghost var scalars := EncodeScalars(SchemaUrl, Type);
      ghost var lists := EncodeLists(IdKeys, DescriptionKeys);
      var p1 := MarshalScalars(SchemaUrl, Type, buf, end);
      ghost var s1 := buf[..];
      var p2 := MarshalLists(IdKeys, DescriptionKeys, buf, p1);
      WroteMore(s0, s1, buf[..], p2, p1, end, scalars, lists);
      n := end - p2;
    }

    method UnmarshalProto(buf: seq<Byte>) returns (err: Option<Error>)
      requires |buf| <= MAX_LEN
      modifies this
      ensures Out(Message(), err) == Decode(buf, old(Message()))
    {
      var pos := 0;
      while pos < |buf|
        invariant 0 <= pos <= |buf|
        invariant Decode(buf, old(Message())) == Decode(buf[pos..], Message())
      {
        var field := ConsumeField(EntityRefMsg, buf, pos);
        if field.Bad? {
          return Some(field.error);
        }
        assert buf[pos..][field.size..] == buf[pos + field.size..];
        pos := pos + field.size;
        if field.value.BytesField? {
          var text := field.value.payload;
          match field.value.fieldNum {
            case 1 => SchemaUrl := text;
            case 2 => Type := text;
            case 3 => IdKeys := IdKeys + [text];
            case _ => DescriptionKeys := DescriptionKeys + [text];
          }
        }
      }
      return None;
    }
  }
}
