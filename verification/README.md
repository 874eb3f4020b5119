# Verified models of the OpenTelemetry Collector

Dafny models of the parts of the OpenTelemetry Collector whose correctness is hard to see from reading
one function, with proofs of what they promise. `dafny verify dfyconfig.toml` checks the whole project.

- `common.dfy`: optional values and machine integers.
- `wire.dfy`, `fields.dfy`, `anyvalue.dfy`, `anyvalue_codec.dfy`, `entityref.dfy`, `buckets.dfy`,
  `unknown.dfy`: the protobuf codec of pdata. Encodings are functions on byte sequences; sizing, marshalling
  backwards into a buffer and the tag loops are methods proved against them. Wire formats follow the
  Protocol Buffers "Encoding" specification, sections "Base 128 Varints", "Signed Integers", "Packed
  Repeated Fields" and "Last One Wins". Strings are byte sequences and a float64 is its 64-bit pattern.
- `copying.dfy`: deep copies on the heap that reuse slices and objects of the destination, and the byte arrays
  that they share with their source.
- `references.dfy`, `expansion.dfy`, `resolver.dfy`: `${...}` references, the bounded expansion loop,
  `$$` unescaping, and the ownership of close functions. Scheme names follow section 3.1 of RFC 3986, with at
  least two characters, as the code demands.
- `memorylimiter.dfy`: the memory limiter as a state machine over ticks with explicit times.
- `fanout.dfy`: the fan-out of logs to trees of consumers, with object identity.
- `configdiff.dfy`, `receivers.dfy`, `collector.dfy`: fingerprints, partial reloads of receivers and the run loop.
- `text.dfy`, `instance.dfy`, `featuregate.dfy`: sorted and delimited strings, instance IDs, feature gates.
- `sharedcomponent.dfy`: components shared between pipelines and the replay of status events.

Where a promise is false of the code the model follows the code, a lemma gives an input on which it fails,
and another states exactly when it holds:

- A nil array or list pointer inside an `AnyValue` is neither marshalled nor copied as such (`AnyValues.NilArrayLost`,
  `AnyValues.RoundTripAny`; `Copying.NilArrayFilled`, `Copying.CopyIsFaithful`); a nil element in a slice of pointers
  leaves stale content in the copy (`Copying.StaleContentStays`, `Copying.SlotFaithful`).
- A copied byte string uses the array of its source, so that a write to one shows in the other
  (`Copying.SharedBytesShow`, `Copying.CopyAnyValue`, `Copying.WriteShowsInBoth`). A fan-out to consumers that mutate
  is independent of them only as far as they do not write to such arrays (`Fanouts.WriteToCloneSeen`,
  `Fanouts.BytesKeptExactly`).
- `ConsumeUnknown` returns at the first scalar inside an unknown group, and fails on a group that ends the buffer,
  although the Protocol Buffers specification lets unknown groups be skipped
  (`UnknownFields.GroupWithContentRejected`, `UnknownFields.UnknownSkippedExactly`).
- The doubling of a backoff interval can overflow (`MemoryLimiters.BackoffOverflows`,
  `MemoryLimiters.BackoffExactly`), and percentage limits can wrap around (`MemoryLimiters.ThresholdsWrap`,
  `MemoryLimiters.ThresholdsOrderedExactly`).
- Partial reloads compare hashes, which collide: valid configurations can differ in more than receivers
  (`ConfigDiff.EveryHashDrifts`, `ConfigDiff.NoDrift`, `ConfigDiff.CoreSafeExactly`), and a receiver can keep running
  with an old configuration (`Receivers.EveryHashLeavesStale`, `Receivers.ReceiversFollowExactly`).
- Pipeline names are not validated when IDs are built in code (`Instances.SpacesCollideHere`,
  `Instances.ReadsBackExactly`).

The outside is a parameter everywhere: providers, merging and converters, clocks and memory readings, what
consumers and components do, and what happens to the collector in a run. `MAX_LEN` is the largest Go `int`; no
buffer is longer.

## Model

| member | source | states |
|---|---|---|
| `Wire.SovIsVarintLength` | upstream/pdata/internal/proto/size.go:10-12 | The bit-length closed form of the size equals the length of the varint, for every uint64 |
| `Wire.U64VarintLength` | upstream/pdata/internal/proto/marshal.go:7-17 | A uint64 takes between 1 and 10 bytes |
| `Wire.EncodeVarint` | upstream/pdata/internal/proto/marshal.go:7-17 | Fills exactly the bytes before the offset with the varint, touches no other byte, and returns where it starts |
| `Wire.SignedRoundTrip` | upstream/pdata/internal/generated_proto_anyvalue.go:638-820 | The int64 and int32 conversions of the decoder undo the uint64 conversion of the encoder |
| `Wire.ReadVarintRoundTrip` | upstream/pdata/internal/proto/unmarshal.go:127-145 | Reading a written varint, whatever follows it, gives the value and its length |
| `Wire.RawVarintExtends` | upstream/pdata/internal/proto/unmarshal.go:127-145 | A varint that can be read is read the same when more bytes follow |
| `Wire.SeptetStep` | upstream/pdata/internal/proto/unmarshal.go:127-145 | One round of the loop: shifting with a cut at 64 bits agrees with the untruncated sum modulo 2^64 |
| `Wire.ConsumeVarint` | upstream/pdata/internal/proto/unmarshal.go:127-145 | The shifting loop computes the mathematical value modulo 2^64, or the overflow or end-of-input error |
| `Wire.VarintFailsExactly` | upstream/pdata/internal/proto/unmarshal.go:127-145 | Overflow if and only if the first ten bytes all have the continuation bit, end of input if and only if the input is shorter and all of its bytes have it; there is no other error |
| `Wire.LittleEndianRoundTrip` | upstream/pdata/internal/proto/unmarshal.go:76-82 | Fixed-width words read back as written |
| `Wire.ConsumeI64` | upstream/pdata/internal/proto/unmarshal.go:76-82 | Reads eight bytes or reports the end of input |
| `Wire.ConsumeI32` | upstream/pdata/internal/proto/unmarshal.go:104-110 | Reads four bytes or reports the end of input |
| `Wire.ConsumeLen` | upstream/pdata/internal/proto/unmarshal.go:85-101 | With the 64-bit int wrap-around of the source, yields the payload or the length or end-of-input error |
| `Wire.LenFailsExactly` | upstream/pdata/internal/proto/unmarshal.go:85-101 | For every length and everything behind it: the payload, the length error or the end-of-input error, and when each |
| `Wire.ConsumeTag` | upstream/pdata/internal/proto/unmarshal.go:113-124 | Field number and wire type of a tag; field numbers below 1 are errors |
| `Wire.TagFailsExactly` | upstream/pdata/internal/proto/unmarshal.go:113-124 | A tag is refused if and only if its field number, as an int32, is below 1 |
| `Wire.ConsumeUnknown` | upstream/pdata/internal/proto/unmarshal.go:32-73 | The group-skipping loop equals the recursive reading of the same bytes |
| `Fields.ConsumeField` | upstream/pdata/internal/generated_proto_anyvalue.go:638-668 | The head of every tag loop: the next field of a message, a wrong wire type, or a skipped unknown field |
| `Fields.SkipExtends` | upstream/pdata/internal/proto/unmarshal.go:32-73 | What is skipped is skipped the same when more bytes follow, at any group depth |
| `Fields.NextFieldExtends` | upstream/pdata/internal/generated_proto_arrayvalue.go:190-219 | A field that can be read is read the same when more bytes follow |
| `Fields.VarintRecordReads` | upstream/pdata/internal/generated_proto_anyvalue.go:571-636 | A varint field, whatever follows it, is read back as written |
| `Fields.WordRecordReads` | upstream/pdata/internal/generated_proto_anyvalue.go:571-636 | A fixed 64-bit field, whatever follows it, is read back as written |
| `Fields.BytesRecordReads` | upstream/pdata/internal/generated_proto_anyvalue.go:571-636 | A length-delimited field, whatever follows it, is read back as written |
| `Fields.PutVarintRecord` | upstream/pdata/internal/generated_proto_anyvalue.go:584-597 | Writes a tagged varint just before a position and nothing else |
| `Fields.PutWordRecord` | upstream/pdata/internal/generated_proto_anyvalue.go:599-603 | Writes a tagged 64-bit word just before a position and nothing else |
| `Fields.PutHeader` | upstream/pdata/internal/generated_proto_anyvalue.go:605-620 | Completes a payload that is already in place with its length and tag, and writes nothing else |
| `Fields.PutBytesRecord` | upstream/pdata/internal/generated_proto_anyvalue.go:576-582 | Writes a tagged byte string just before a position and nothing else |
| `AnyValues.DecodeAnyConcat` | upstream/pdata/internal/generated_proto_anyvalue.go:638-820 | If x decodes, x followed by y decodes to what y makes of the state x left |
| `AnyValues.DecodeArrayConcat` | upstream/pdata/internal/generated_proto_arrayvalue.go:183-221 | The same for arrays |
| `AnyValues.DecodeKeyValueConcat` | upstream/pdata/internal/generated_proto_keyvalue.go:206-267 | The same for key-value pairs, whose value field is merged into |
| `AnyValues.DecodeKvlistConcat` | upstream/pdata/internal/generated_proto_keyvaluelist.go:183-221 | The same for lists of pairs |
| `AnyValues.DecodeArrayAppends` | upstream/pdata/internal/generated_proto_arrayvalue.go:198-212 | Repeated values are appended: what was there stays in front and does not change what is read |
| `AnyValues.RoundTripAnyInto` | upstream/pdata/internal/generated_proto_anyvalue.go:571-820 | Decoding an encoded tree into any value: its nil-free form, or no change if it encodes to nothing |
| `AnyValues.RoundTripScalar` | upstream/pdata/internal/generated_proto_anyvalue.go:571-820 | Every scalar variant decodes back from its encoding, into any value |
| `AnyValues.RoundTripArray` | upstream/pdata/internal/generated_proto_arrayvalue.go:169-221 | An encoded array decodes to its nil-free form appended to the target |
| `AnyValues.RoundTripKvlist` | upstream/pdata/internal/generated_proto_keyvaluelist.go:169-221 | An encoded list of pairs decodes to its nil-free form appended to the target |
| `AnyValues.RoundTripKeyValue` | upstream/pdata/internal/generated_proto_keyvalue.go:180-267 | An encoded pair decodes into a zero pair with its nil-free value |
| `AnyValues.DropNilFixes` | upstream/pdata/internal/generated_proto_anyvalue.go:605-620 | The nil-free form is the tree itself exactly when no inner pointer is nil |
| `AnyValues.RoundTripAny` | upstream/pdata/internal/generated_proto_anyvalue.go:571-820 | At any nesting depth, decoding the encoding into a zero value gives the tree back if and only if it holds no nil inner pointer |
| `AnyValues.NilArrayLost` | upstream/pdata/internal/generated_proto_anyvalue.go:605-612 | A nil array pointer, for which the round trip fails |
| `AnyValues.VarintMeanings` | upstream/pdata/internal/generated_proto_anyvalue.go:638-820 | For every varint: a boolean is whether it is zero, an int64 and a string index are its low 64 and 32 bits |
| `AnyValues.LastValueWins` | upstream/pdata/internal/generated_proto_anyvalue.go:638-820 | After any bytes that decode, an encoded non-empty value is what is left |
| `AnyValues.ConcatenatedArrays` | upstream/pdata/internal/generated_proto_arrayvalue.go:183-221 | Two encoded arrays one after the other decode to the concatenated array |
| `AnyValues.DecodedAnyNoNil` | upstream/pdata/internal/generated_proto_anyvalue.go:638-820 | Decoding never makes nil inner pointers, from any bytes and also on errors |
| `AnyValues.DecodeEncodeDecode` | upstream/pdata/internal/generated_proto_anyvalue.go:571-820 | Encoding a decoded value and decoding again changes nothing, whatever bytes it came from |
| `AnyValueCodec.SizeOfBytes` | upstream/pdata/internal/generated_proto_anyvalue.go:539-541 | Size of a length-delimited field from the size of its payload |
| `AnyValueCodec.SizeAny` | upstream/pdata/internal/generated_proto_anyvalue.go:531-569 | The size is the length of the encoding |
| `AnyValueCodec.SizeArray` | upstream/pdata/internal/generated_proto_arrayvalue.go:158-167 | The size is the length of the encoding |
| `AnyValueCodec.SizeKvlist` | upstream/pdata/internal/generated_proto_keyvaluelist.go:158-167 | The size is the length of the encoding |
| `AnyValueCodec.SizeKeyValue` | upstream/pdata/internal/generated_proto_keyvalue.go:163-178 | The size is the length of the encoding |
| `AnyValueCodec.MarshalAny` | upstream/pdata/internal/generated_proto_anyvalue.go:571-636 | In any buffer that is large enough: returns the size, fills exactly that many bytes before the end with the encoding, leaves all others alone and never indexes below zero |
| `AnyValueCodec.MarshalScalar` | upstream/pdata/internal/generated_proto_anyvalue.go:571-636 | The same for the scalar variants |
| `AnyValueCodec.MarshalNested` | upstream/pdata/internal/generated_proto_anyvalue.go:605-620 | The same for the variants that hold messages |
| `AnyValueCodec.MarshalArray` | upstream/pdata/internal/generated_proto_arrayvalue.go:169-181 | The same for arrays, through all recursive calls on the front of the buffer |
| `AnyValueCodec.MarshalKvlist` | upstream/pdata/internal/generated_proto_keyvaluelist.go:169-181 | The same for lists of pairs |
| `AnyValueCodec.MarshalKeyValue` | upstream/pdata/internal/generated_proto_keyvalue.go:180-204 | The same for pairs |
| `AnyValueCodec.UnmarshalAny` | upstream/pdata/internal/generated_proto_anyvalue.go:638-820 | The tag loop computes the recursive decoding, with every error: merging what it knows and leaving out what it skips, as the lemmas about DecodeAny state |
| `AnyValueCodec.UnmarshalArray` | upstream/pdata/internal/generated_proto_arrayvalue.go:183-221 | The tag loop computes the recursive decoding, with every error |
| `AnyValueCodec.UnmarshalKvlist` | upstream/pdata/internal/generated_proto_keyvaluelist.go:183-221 | The tag loop computes the recursive decoding, with every error |
| `AnyValueCodec.UnmarshalKeyValue` | upstream/pdata/internal/generated_proto_keyvalue.go:206-267 | The tag loop computes the recursive decoding, with every error |
| `AnyValueCodec.RoundTrip` | upstream/pdata/internal/generated_proto_anyvalue.go:531-820 | Sizing, marshalling and unmarshalling in sequence never fails and gives the value back if and only if it holds no nil inner pointer |
| `EntityRefs.DecodeConcat` | upstream/pdata/internal/generated_proto_entityref.go:254-324 | If x decodes, x followed by y decodes to what y makes of the state x left |
| `EntityRefs.KeysRead` | upstream/pdata/internal/generated_proto_entityref.go:293-315 | An encoded list of keys is appended to the list of its field |
| `EntityRefs.DecodeMerges` | upstream/pdata/internal/generated_proto_entityref.go:254-324 | Decoding an encoded message into any message merges it: lists appended, non-empty scalars replaced |
| `EntityRefs.RoundTrip` | upstream/pdata/internal/generated_proto_entityref.go:215-324 | Every message decodes back from its encoding |
| `EntityRefs.ConcatenationMerges` | upstream/pdata/internal/generated_proto_entityref.go:254-324 | Messages one after another decode to their merge, from any starting message |
| `EntityRefs.MergeAssociative` | upstream/pdata/internal/generated_proto_entityref.go:254-324 | How a run of messages is split does not matter |
| `EntityRefs.MarshalKeys` | upstream/pdata/internal/generated_proto_entityref.go:235-250 | Writes a list of keys backwards just before a position and nothing else |
| `EntityRefs.SizeKeys` | upstream/pdata/internal/generated_proto_entityref.go:204-211 | The size of a list of keys is the length of its encoding |
| `EntityRefs.EntityRef.SizeProto` | upstream/pdata/internal/generated_proto_entityref.go:190-213 | The size is the length of the encoding |
| `EntityRefs.EntityRef.MarshalProto` | upstream/pdata/internal/generated_proto_entityref.go:215-252 | Returns the size and fills exactly that many bytes at the end of the buffer with the encoding |
| `EntityRefs.EntityRef.UnmarshalProto` | upstream/pdata/internal/generated_proto_entityref.go:254-324 | The tag loop on the fields computes the recursive decoding from the state before, with every error |
| `BucketsCodec.ZigZagMeaning` | upstream/pdata/internal/generated_proto_exponentialhistogramdatapointbuckets.go:187-228 | The 32-bit and the 64-bit zigzag codes of an int32 agree, enumerate 0, -1, 1, -2, ..., and are undone by the decoder |
| `BucketsCodec.SozIsWrittenLength` | upstream/pdata/internal/proto/size.go:14-16 | The 64-bit size of the offset is the length of the 32-bit code written |
| `BucketsCodec.UnpackPacked` | upstream/pdata/internal/generated_proto_exponentialhistogramdatapointbuckets.go:191-248 | Packed counts are read back behind those already there |
| `BucketsCodec.ChunksRead` | upstream/pdata/internal/generated_proto_exponentialhistogramdatapointbuckets.go:229-258 | However the counts are cut into packed and single fields, they decode to the same list |
| `BucketsCodec.DecodeConcat` | upstream/pdata/internal/generated_proto_exponentialhistogramdatapointbuckets.go:204-267 | If x decodes, x followed by y decodes to what y makes of the state x left |
| `BucketsCodec.RoundTrip` | upstream/pdata/internal/generated_proto_exponentialhistogramdatapointbuckets.go:182-267 | Every int32 offset and every list of uint64 counts decodes back from its encoding |
| `BucketsCodec.PackedSize` | upstream/pdata/internal/generated_proto_exponentialhistogramdatapointbuckets.go:172-178 | The size of the packed counts is the length of their encoding |
| `BucketsCodec.MarshalPacked` | upstream/pdata/internal/generated_proto_exponentialhistogramdatapointbuckets.go:191-196 | Writes the packed counts backwards just before a position and nothing else |
| `BucketsCodec.Buckets.SizeProto` | upstream/pdata/internal/generated_proto_exponentialhistogramdatapointbuckets.go:164-180 | The size is the length of the encoding |
| `BucketsCodec.Buckets.MarshalProto` | upstream/pdata/internal/generated_proto_exponentialhistogramdatapointbuckets.go:182-202 | Returns the size and fills exactly that many bytes at the end of the buffer with the encoding |
| `BucketsCodec.Buckets.UnmarshalPacked` | upstream/pdata/internal/generated_proto_exponentialhistogramdatapointbuckets.go:231-248 | The inner loop reads packed counts up to the end of the payload or the first error |
| `BucketsCodec.Buckets.UnmarshalProto` | upstream/pdata/internal/generated_proto_exponentialhistogramdatapointbuckets.go:204-267 | The tag loop computes the recursive decoding from the state before, with every error |
| `UnknownFields.ScalarSkipped` | upstream/pdata/internal/proto/unmarshal.go:32-73 | An unknown scalar field is skipped whole, at any group depth |
| `UnknownFields.ScalarStopsSkipping` | upstream/pdata/internal/proto/unmarshal.go:32-73 | The first scalar inside an unknown group ends the skipping before the group is closed |
| `UnknownFields.UnknownSkippedExactly` | upstream/pdata/internal/proto/unmarshal.go:32-73 | An unknown field is skipped whole if and only if it is no group, or a group with no scalar at any depth that does not end the buffer |
| `UnknownFields.GroupWithContentRejected` | upstream/pdata/internal/proto/unmarshal.go:32-73 | A concrete message with an unknown group whose decoding fails |
| `UnknownFields.WithoutUnknownAny` | upstream/pdata/internal/generated_proto_anyvalue.go:638-820 | A field of an unknown number that is skipped whole, after any bytes that decode and before any others, changes nothing: the message decodes as without it |
| `UnknownFields.StopsAtBadAny` | upstream/pdata/internal/generated_proto_anyvalue.go:638-820 | At the first field that cannot be read the decoding stops with its error and what was read before it |
| `UnknownFields.WithoutUnknownArray` | upstream/pdata/internal/generated_proto_arrayvalue.go:183-221 | A field of an unknown number that is skipped whole, after any bytes that decode and before any others, changes nothing: the message decodes as without it |
| `UnknownFields.StopsAtBadArray` | upstream/pdata/internal/generated_proto_arrayvalue.go:183-221 | At the first field that cannot be read the decoding stops with its error and what was read before it |
| `UnknownFields.WithoutUnknownKvlist` | upstream/pdata/internal/generated_proto_keyvaluelist.go:183-221 | A field of an unknown number that is skipped whole, after any bytes that decode and before any others, changes nothing: the message decodes as without it |
| `UnknownFields.StopsAtBadKvlist` | upstream/pdata/internal/generated_proto_keyvaluelist.go:183-221 | At the first field that cannot be read the decoding stops with its error and what was read before it |
| `UnknownFields.WithoutUnknownKeyValue` | upstream/pdata/internal/generated_proto_keyvalue.go:206-267 | A field of an unknown number that is skipped whole, after any bytes that decode and before any others, changes nothing: the message decodes as without it |
| `UnknownFields.StopsAtBadKeyValue` | upstream/pdata/internal/generated_proto_keyvalue.go:206-267 | At the first field that cannot be read the decoding stops with its error and what was read before it |
| `UnknownFields.WithoutUnknownEntityRef` | upstream/pdata/internal/generated_proto_entityref.go:254-324 | A field of an unknown number that is skipped whole, after any bytes that decode and before any others, changes nothing: the message decodes as without it |
| `UnknownFields.StopsAtBadEntityRef` | upstream/pdata/internal/generated_proto_entityref.go:254-324 | At the first field that cannot be read the decoding stops with its error and what was read before it |
| `UnknownFields.WithoutUnknownBuckets` | upstream/pdata/internal/generated_proto_exponentialhistogramdatapointbuckets.go:204-267 | A field of an unknown number that is skipped whole, after any bytes that decode and before any others, changes nothing: the message decodes as without it |
| `UnknownFields.StopsAtBadBuckets` | upstream/pdata/internal/generated_proto_exponentialhistogramdatapointbuckets.go:204-267 | At the first field that cannot be read the decoding stops with its error and what was read before it |
| `UnknownFields.WrongTypeRead` | upstream/pdata/internal/generated_proto_anyvalue.go:638-668 | A known field with a wire type it does not accept is an error of that message |
| `Copying.ArraysExactly` | upstream/pdata/internal/generated_proto_anyvalue.go:313-321 | The byte arrays a tree uses are none exactly when its value holds no non-empty byte string |
| `Copying.CopyShares` | upstream/pdata/internal/generated_proto_anyvalue.go:237-338 | A copy uses exactly the byte arrays of its source, and holds its value with nil inner pointers turned into empty lists |
| `Copying.CopyIsFaithful` | upstream/pdata/internal/generated_proto_anyvalue.go:237-338 | A copy holds the same value if and only if the source holds no nil inner pointer |
| `Copying.NilArrayFilled` | upstream/pdata/internal/generated_proto_anyvalue.go:291-300 | A nil array pointer, for which it does not |
| `Copying.FilledFixes` | upstream/pdata/internal/generated_proto_anyvalue.go:237-338 | The same condition for the tree of objects, byte arrays included |
| `Copying.WriteShows` | upstream/pdata/pcommon/generated_byteslice.go:73-76 | Writing to a byte array changes the value of a tree if and only if it is one of the arrays of the tree |
| `Copying.WriteShowsInBoth` | upstream/pdata/pcommon/generated_byteslice.go:73-76 | A write changes a copy if and only if it changes its source |
| `Copying.CopyCell` | upstream/pdata/internal/generated_proto_anyvalue.go:250-335 | The content given to the destination: lists and pairs in new objects, the byte arrays of the source |
| `Copying.CopyArrayValue` | upstream/pdata/internal/generated_proto_arrayvalue.go:56-72 | Same object and nil source change nothing; otherwise the destination, or a new object, holds the copied values, in its old array if that is large enough |
| `Copying.CopyKeyValueList` | upstream/pdata/internal/generated_proto_keyvaluelist.go:56-72 | The same for lists of pairs |
| `Copying.CopyAnyValueSlice` | upstream/pdata/internal/generated_proto_anyvalue.go:340-356 | For every old length, capacity and stale content: the result holds the source trees with their byte arrays and otherwise new inner objects, reuses the array if it fits, resets what is cut off, and leaves the source as it was; it shares no object with the source if and only if that holds no non-empty byte string |
| `Copying.CopyKeyValueSlice` | upstream/pdata/internal/generated_proto_keyvalue.go:78-94 | The same for pairs |
| `Copying.CopyAnyValue` | upstream/pdata/internal/generated_proto_anyvalue.go:237-338 | Same object and nil source change nothing; otherwise the destination, or a new object, holds a copy, which shares no object with the source if and only if the source holds no non-empty byte string |
| `Copying.SetAt` | upstream/pdata/pcommon/generated_byteslice.go:73-76 | Writes one byte of a byte string in place |
| `Copying.SharedBytesShow` | upstream/pdata/internal/generated_proto_anyvalue.go:313-321 | Writing a byte of a copied byte string changes the source |
| `Copying.ReusePointers` | upstream/pdata/internal/generated_proto_anyvalue.go:358-383 | The pointers of the result: those of the destination as far as it reached, then new ones; cut-off objects are reset and forgotten |
| `Copying.CopyAnyValuePtrSlice` | upstream/pdata/internal/generated_proto_anyvalue.go:358-386 | For every old length, capacity and stale content: each result slot holds a copy of its source element, or its old content where the element is nil; the source is left as it was, and no object is shared if and only if the copied elements hold no non-empty byte string |
| `Copying.SlotFaithful` | upstream/pdata/internal/generated_proto_anyvalue.go:382-384 | A slot ends up with what the source element holds if and only if both are nil, or neither is and no inner pointer is nil |
| `Copying.StaleContentStays` | upstream/pdata/internal/generated_proto_anyvalue.go:382-384 | A nil element copied onto an object that holds a value leaves the value there |
| `Copying.HoldsUnique` | upstream/pdata/internal/generated_proto_anyvalue.go:237-338 | A cell on the heap holds at most one tree, so the contracts above determine the result |
| `References.CountDollars` | upstream/confmap/expand.go:128-137 | The backward loop counts the run of dollar signs before a position |
| `References.FindURI` | upstream/confmap/expand.go:111-144 | The recursive search, with its three outcomes, computes the specified reference |
| `References.FindReference` | upstream/confmap/expand.go:72-78 | What a string offers for expansion, or nothing |
| `References.FoundIsInnermost` | upstream/confmap/expand.go:111-144 | A reference that is found is innermost, not escaped, and has a scheme or a default |
| `References.SearchExactly` | upstream/confmap/expand.go:111-144 | The search stops at the first candidate that names a scheme or needs none, after any number of others; it finds that one unless it is escaped |
| `References.FoundExactly` | upstream/confmap/expand.go:111-144 | A reference is found if and only if it is that first candidate and not escaped |
| `References.NothingExactly` | upstream/confmap/expand.go:72-144 | Nothing is offered for expansion if and only if there is no such candidate or the first one is escaped |
| `References.EscapedCandidateEndsSearch` | upstream/confmap/expand.go:138-141 | If the first such candidate is escaped nothing is found, whatever follows |
| `References.UnescapeUndoesDoubling` | upstream/confmap/resolver.go:226-229 | Replacing double dollar signs undoes doubling, for every string |
| `References.ReplacesBetweenParts` | upstream/confmap/expand.go:186-186 | For a string split at the leftmost occurrences of another: replacing gives the same parts around the new text |
| `References.PartsOf` | upstream/confmap/expand.go:186-186 | Every string can be split so |
| `References.UnescapesPairs` | upstream/confmap/resolver.go:226-229 | Pairs of dollar signs, taken from the left, become single ones and nothing else changes |
| `References.EvenRunsFindNothing` | upstream/confmap/expand.go:111-144 | Nothing is found in a string in which every run of dollar signs is even |
| `References.DoublingProtects` | upstream/confmap/expand.go:111-144 | With every dollar sign doubled nothing is found, with or without a default scheme, and unescaping gives the string back |
| `Expansion.RetrievesScheme` | upstream/confmap/expand.go:189-211 | A reference with a scheme is looked up by scheme and opaque value, unless that holds a dollar sign |
| `Expansion.RetrievesDefault` | upstream/confmap/expand.go:189-211 | A reference without a colon is looked up with the default scheme, if that is one |
| `Expansion.ExpandsWhole` | upstream/confmap/expand.go:155-176 | A string that is one reference becomes what was retrieved, with its text beside it if it has one |
| `Expansion.ExpandsEmbedded` | upstream/confmap/expand.go:177-186 | In a string around a reference every occurrence of it becomes the retrieved text, and all other parts are kept in order |
| `Expansion.FailsExactly` | upstream/confmap/expand.go:149-187 | A round over a string fails exactly when its reference cannot be retrieved or has no text to put in, and retrieves at most that reference |
| `Expansion.ItemsOneByOne` | upstream/confmap/expand.go:79-102 | Every element is expanded in its place; something changed if one did; it fails exactly when one fails |
| `Expansion.ShapeKept` | upstream/confmap/expand.go:79-104 | Lists keep their length and maps their keys; other values stay |
| `Expansion.OriginalExpanded` | upstream/confmap/expand.go:44-71 | An expanded value that stays one keeps its expanded text beside it; a text that fails to expand, or no longer is one, is dropped without counting as a change |
| `Expansion.IterateExactly` | upstream/confmap/expand.go:28-40 | The loop finishes exactly when one of the rounds allowed changes nothing after rounds that all changed something, with the result of that round |
| `Expansion.UnescapesEach` | upstream/confmap/resolver.go:236-246 | Unescaping goes into every element, in its place |
| `Expansion.UnescapeUndoesDoubledValue` | upstream/confmap/resolver.go:226-249 | Unescaping undoes doubling in every string of every value, in the text of expanded values too |
| `Expansion.UnchangedIsFullyExpanded` | upstream/confmap/expand.go:42-105 | A round that reports no change gives a value with nothing left to expand, at any nesting |
| `Expansion.FullyExpandedStays` | upstream/confmap/expand.go:42-105 | A fully expanded value is returned as it is, unchanged and without retrievals |
| `Expansion.FixedPoint` | upstream/confmap/expand.go:42-105 | A round leaves a value alone if and only if it is fully expanded; what an unchanged round returns is such a value |
| `Expansion.LastRound` | upstream/confmap/expand.go:28-40 | The result of a loop that finishes came out of a round that changed nothing |
| `Expansion.LoopReachesFixedPoint` | upstream/confmap/expand.go:28-40 | Every success of the bounded loop is fully expanded |
| `Expansion.FullyExpandedFinishes` | upstream/confmap/expand.go:28-40 | On a fully expanded value the loop finishes at once without retrievals |
| `Expansion.DoubledValueStays` | upstream/confmap/resolver.go:226-249 | A nested value with every dollar sign doubled is fully expanded and unescapes to the value |
| `Expansion.DoublingUndoneByResolution` | upstream/confmap/expand.go:28-105 | Expanding and unescaping undo doubling, for every nested value, provider and default scheme |
| `Resolve.GatherConcat` | upstream/confmap/resolver.go:170-186 | Locations are gathered from left to right: later ones start from what earlier ones gave, and are not looked at after a failure |
| `Resolve.GatherOne` | upstream/confmap/resolver.go:170-186 | One location is merged over what came before it; a retrieval counts also if its result cannot be used |
| `Resolve.ConvertConcat` | upstream/confmap/resolver.go:202-207 | Converters run in order, each on the result of the one before, up to the first failure |
| `Resolve.ConvertOne` | upstream/confmap/resolver.go:202-207 | One converter gives its own result, none leaves the configuration alone |
| `Resolve.ExpandAllExactly` | upstream/confmap/resolver.go:191-199 | There are values exactly when every one can be expanded |
| `Resolve.ExpandAllElements` | upstream/confmap/resolver.go:191-199 | Every value is the unescaped expansion of its own |
| `Resolve.ResolvedValuesExpanded` | upstream/confmap/resolver.go:192-199 | Every value of a resolution is the unescaped form of a fully expanded value |
| `Resolve.DoubledConfigurationResolves` | upstream/confmap/resolver.go:164-210 | A configuration with every dollar sign doubled resolves to what the converters make of the configuration itself |
| `Resolve.Resolver.ExpandURI` | upstream/confmap/expand.go:189-211 | Retrieves a reference and keeps its close function exactly when the retrieval succeeds |
| `Resolve.Resolver.FindAndExpandURI` | upstream/confmap/expand.go:149-187 | Computes the expansion of a string, which puts the retrieved text in every place of an embedded reference and keeps the rest; every retrieval made is kept for closing, on errors too |
| `Resolve.Resolver.ExpandOne` | upstream/confmap/expand.go:42-105 | Computes the expansion of a value; every retrieval made is kept for closing, on errors too |
| `Resolve.Resolver.ExpandEach` | upstream/confmap/expand.go:79-102 | The element loop, stopping at the first error; every retrieval made is kept for closing |
| `Resolve.Resolver.ExpandValueRecursively` | upstream/confmap/expand.go:28-40 | At most 1000 rounds; every retrieval made is kept for closing, also when it gives up |
| `Resolve.Resolver.CloseIfNeeded` | upstream/confmap/resolver.go:282-289 | Runs every waiting close function once, in order, even when one fails, and reports whether one did |
| `Resolve.Resolver.RetrieveAll` | upstream/confmap/resolver.go:170-186 | Retrieves and merges the locations in order up to the first error; retrievals are kept for closing |
| `Resolve.Resolver.ExpandConf` | upstream/confmap/resolver.go:191-199 | Expands and unescapes the values in order up to the first error; retrievals are kept for closing |
| `Resolve.Resolver.ResolveAnew` | upstream/confmap/resolver.go:170-209 | The whole of a resolution after closing, with its result on success and on every error path |
| `Resolve.Resolver.Resolve` | upstream/confmap/resolver.go:164-210 | Every close function of earlier calls has run once when it returns; those of this call wait; a failed close refuses the resolution |
| `Resolve.Resolver.Shutdown` | upstream/confmap/resolver.go:266-276 | Every close function handed out has run exactly once |
| `Resolve.Session` | upstream/confmap/resolver.go:164-289 | Over every sequence of resolutions in changing worlds ended by a shutdown, each successful retrieval is closed exactly once, in order |
| `MemoryLimiters.FixedLimits` | upstream/internal/memorylimiter/memorylimiter.go:312-334 | A limit in MiB: the hard limit in bytes, and the soft limit below it by the spike limit or a fifth |
| `MemoryLimiters.PercentageLimits` | upstream/internal/memorylimiter/memorylimiter.go:312-338 | A limit in percent of memory, where the product fits in 64 bits, in bytes |
| `MemoryLimiters.EffectiveExactly` | upstream/internal/memorylimiter/memorylimiter.go:218-221 | While the product fits in 64 bits, a collection is effective if memory is below the soft limit or shrank by 5 percent |
| `MemoryLimiters.SpikeBelowLimit` | upstream/internal/memorylimiter/config.go:90-130 | A valid configuration whose percentage product fits in 64 bits has a spike limit at or below its limit |
| `MemoryLimiters.SafeThresholds` | upstream/internal/memorylimiter/memorylimiter.go:312-338 | For such a configuration the soft limit does not wrap, and above the hard limit implies above the soft one |
| `MemoryLimiters.ThresholdsOrderedExactly` | upstream/internal/memorylimiter/memorylimiter.go:312-338 | For a valid configuration and any memory size, above the hard limit implies above the soft one for all readings if and only if the percentages are in order after the wrap-around |
| `MemoryLimiters.ThresholdsWrap` | upstream/internal/memorylimiter/memorylimiter.go:336-338 | A valid configuration and memory size whose product wraps: memory above the hard limit and below the soft one |
| `MemoryLimiters.IntervalClosedForm` | upstream/internal/memorylimiter/memorylimiter.go:247-254 | After k ineffective collections the interval is min(2^k * floor, cap), if doubling cannot overflow |
| `MemoryLimiters.BackoffExactly` | upstream/internal/memorylimiter/memorylimiter.go:247-254 | The interval follows that closed form for all k if and only if doubling cannot overflow, which is a condition on the configuration |
| `MemoryLimiters.OverflowShows` | upstream/internal/memorylimiter/memorylimiter.go:247-254 | Where doubling can overflow, a k at which the closed form fails |
| `MemoryLimiters.BackoffOverflows` | upstream/internal/memorylimiter/memorylimiter.go:247-254 | A valid configuration for which the closed form fails |
| `MemoryLimiters.CheckKeepsStep` | upstream/internal/memorylimiter/memorylimiter.go:218-310 | A check keeps both backoffs in lockstep with one count of ineffective collections |
| `MemoryLimiters.RunSpaced` | upstream/internal/memorylimiter/memorylimiter.go:257-310 | From any state in step, every forced collection has a reading at or above the soft limit and starts later than its gate after the last one ended; the gate is that of the side of the hard limit the reading is on |
| `MemoryLimiters.GateBound` | upstream/internal/memorylimiter/memorylimiter.go:277-297 | The gate of a path never exceeds the larger of its configured bounds |
| `MemoryLimiters.GateClosedForm` | upstream/internal/memorylimiter/memorylimiter.go:247-254 | The interval in a gate is the configured minimum with the cap disabled, and the closed form of its streak with it |
| `MemoryLimiters.RefusesExactly` | upstream/internal/memorylimiter/memorylimiter.go:257-310 | After every check of every run data is refused if and only if the last reading is at or above the soft limit |
| `MemoryLimiters.EveryRunSpaced` | upstream/internal/memorylimiter/memorylimiter.go:257-310 | The same for every run from the start |
| `MemoryLimiters.MemoryLimiter.CheckLimitAndBackoff` | upstream/internal/memorylimiter/memorylimiter.go:218-238 | Updates the reading and both intervals as specified and says whether it is above the soft limit |
| `MemoryLimiters.ForcesExactly` | upstream/internal/memorylimiter/memorylimiter.go:257-298 | A check forces a collection if and only if memory is at or above the soft limit and the last one ended longer ago than the hard gate, if memory is at or above the hard limit, or else the soft gate |
| `MemoryLimiters.NextTick` | upstream/internal/memorylimiter/memorylimiter.go:257-298 | After every run every tick adds a collection if and only if that is due on its own reading, with the gate of that side of the hard limit |
| `MemoryLimiters.LastCollection` | upstream/internal/memorylimiter/memorylimiter.go:280-297 | A run remembers when its last collection ended |
| `MemoryLimiters.MemoryLimiter.CheckMemLimits` | upstream/internal/memorylimiter/memorylimiter.go:257-310 | One check computes the specified step; it forces a collection exactly when that is due on its reading and the side of the hard limit it is on, keeps the reading after it, and refuses exactly when that is at or above the soft limit |
| `MemoryLimiters.MemoryLimiter.Loop` | upstream/internal/memorylimiter/memorylimiter.go:131-151 | Any number of ticks computes the run, and the refusal flag is right at its end |
| `Fanouts.NewLogs` | upstream/internal/fanoutconsumer/logs.go:21-36 | Partitions the consumers, keeping every leaf as often as it occurs; the result mutates exactly when all of them do |
| `Fanouts.KeepLeaves` | upstream/internal/fanoutconsumer/logs.go:27-35 | The two partitions together hold every leaf |
| `Fanouts.CalledOnceEach` | upstream/internal/fanoutconsumer/logs.go:49-77 | The calls over a tree of fan-outs hold every leaf exactly as often as the tree does |
| `Fanouts.BytesKeptExactly` | upstream/internal/fanoutconsumer/logs.go:49-77 | Every leaf sees the bytes there were on entry and they are the same on return, if and only if no mutating leaf writes to byte arrays in place; so always for logs without byte strings |
| `Fanouts.WriteToCloneSeen` | upstream/internal/fanoutconsumer/logs.go:79-83 | A fan-out that does not mutate by its own account, with a leaf whose write to its clone another leaf sees in the input |
| `Fanouts.MutatingIsExclusive` | upstream/internal/fanoutconsumer/logs.go:49-77 | A consumer that mutates never shares its logs object with another |
| `Fanouts.CloneLogs` | upstream/internal/fanoutconsumer/logs.go:79-83 | A clone is a new object with the same content that may be changed; it uses the byte arrays of the original |
| `Fanouts.Consume` | upstream/internal/fanoutconsumer/logs.go:49-77 | For a consumer of any kind: all leaves called once in order even after errors, each sees the content on entry and what the leaves before it wrote to the byte arrays, all errors are collected, and a read-only or non-mutating call leaves the content of the input unchanged |
| `Fanouts.ConsumeMutable` | upstream/internal/fanoutconsumer/logs.go:52-66 | Clones for all mutating consumers but the last, which gets the object only if nobody else needs it and it may be changed |
| `Fanouts.ConsumeReadonly` | upstream/internal/fanoutconsumer/logs.go:68-75 | All others get the object itself, which is read-only when they are several, and it keeps its content |
| `Fanouts.ConsumeLogs` | upstream/internal/fanoutconsumer/logs.go:49-77 | The same for a fan-out, through nested fan-outs |
| `ConfigDiff.FilterOne` | upstream/otelcol/config_diff.go:193-201 | Of one ID, keeps it if it satisfies the predicate |
| `ConfigDiff.FilterConcat` | upstream/otelcol/config_diff.go:193-201 | Of two lists one after the other, keeps what it keeps of each |
| `ConfigDiff.FilterReads` | upstream/otelcol/config_diff.go:193-201 | What is kept is what stands at the places where the predicate holds, in order, however they are found |
| `ConfigDiff.FilterSameExactly` | upstream/otelcol/config_diff.go:180-184 | Two lists keep the same if and only if the same elements stand, in the same order, where the predicate holds in each |
| `ConfigDiff.ErasedExactly` | upstream/otelcol/config_diff.go:152-189 | Fingerprints agree after erasing if and only if hashes, extensions and pipelines agree but for receivers that are no connectors, stated on places in the lists |
| `ConfigDiff.FilterIDs` | upstream/otelcol/config_diff.go:193-201 | Keeps the IDs at exactly the places where the predicate holds, in order |
| `ConfigDiff.SamePipelines` | upstream/otelcol/config_diff.go:161-188 | In any iteration order: the pipelines agree after erasing pure receivers |
| `ConfigDiff.ReceiversOnlyChanged` | upstream/otelcol/config_diff.go:152-189 | True if and only if hashes, extensions and the set of pipelines are equal and in each pipeline the processors, the exporters and the connectors among the receivers are the same lists; so, for a fixed connector set, an equivalence relation |
| `ConfigDiff.ChangedReceivers` | upstream/otelcol/config_diff.go:218-226 | Exactly the receivers present in both whose hashes differ |
| `ConfigDiff.PartialKeepsCore` | upstream/otelcol/collector.go:329-365 | Two configurations differ at most in their receivers if and only if a partial reload is allowed and their other sections are equal and do not just hash alike |
| `ConfigDiff.NoDrift` | upstream/otelcol/collector.go:329-365 | A chain of allowed partial reloads of any length keeps the non-receiver part if and only if no two of its configurations collide |
| `ConfigDiff.CoreSafeExactly` | upstream/otelcol/config_diff.go:55-81 | For any given set of sections, the non-receiver part is safe from every partial reload between valid configurations with them if and only if no two of them collide that are both usable and have an exporter or connector in common |
| `ConfigDiff.DriftConfuses` | upstream/otelcol/config.go:49-124 | A partial reload between valid configurations that changes the non-receiver part comes from such a collision |
| `ConfigDiff.CollisionDrifts` | upstream/otelcol/config_diff.go:55-81 | From any such collision, valid configurations between which an allowed partial reload changes the non-receiver part |
| `ConfigDiff.EveryHashDrifts` | upstream/otelcol/config_diff.go:129-137 | Every 64-bit hash allows such a reload between valid configurations with one component of each kind and 65 characters of telemetry settings |
| `Receivers.CollectDesired` | upstream/service/internal/graph/graph.go:539-552 | The loops over pipelines in any order find exactly the receiver nodes called for, with the pipelines that each one feeds |
| `Receivers.UpdateReceivers` | upstream/service/internal/graph/graph.go:515-711 | A node stays if it feeds the same pipelines and its receiver is not marked as changed, otherwise it is built with the new configuration; fails exactly when one to be built is not configured |
| `Receivers.ReloadExactly` | upstream/service/internal/graph/graph.go:510-711 | A partial reload leaves a service with the receivers of the new configuration if and only if no receiver kept in its pipelines has another configuration with the same hash |
| `Receivers.ReceiversFollowExactly` | upstream/service/internal/graph/graph.go:510-711 | After each of any number of reloads the service ran exactly the receivers of its newest configuration, if and only if no receiver collided in any of them |
| `Receivers.EveryHashLeavesStale` | upstream/otelcol/config_diff.go:218-226 | Every 64-bit hash allows a partial reload between valid configurations after which a receiver runs with its old configuration |
| `Receivers.BuildReceivers` | upstream/otelcol/collector.go:183-288 | A service that starts runs the receivers its configuration calls for |
| `Receivers.PartialReload` | upstream/otelcol/collector.go:329-365 | Attempted exactly for a valid change confined to receivers; if all receivers can be built, the service runs what the chain of its reloads calls for |
| `Receivers.ServiceExactly` | upstream/otelcol/collector.go:329-365 | What the run loop keeps of a live service implies both exact conditions: on its non-receiver part and on its receivers |
| `Collectors.HistoryCounts` | upstream/otelcol/collector.go:415-514 | In a history every call on every service occurs exactly once |
| `Collectors.OneLiveAtATime` | upstream/otelcol/collector.go:415-514 | At every point of a history at most the service created last is live |
| `Collectors.NewestConfig` | upstream/otelcol/collector.go:290-323 | After its last reload a service has the configuration which that one brought: the partial one if the partial reload worked, otherwise that of the attempt |
| `Collectors.CreatedCounts` | upstream/otelcol/collector.go:290-323 | Exactly the full reloads create services |
| `Collectors.Collector.SetupConfigurationComponents` | upstream/otelcol/collector.go:183-288 | One service more, running its receivers with the fingerprint of its valid configuration; or none, or one that did not start and was shut down |
| `Collectors.Collector.TryPartialReceiverReload` | upstream/otelcol/collector.go:329-365 | Attempted exactly for a valid change confined to receivers; success moves the fingerprint and updates the receivers, refusal changes nothing |
| `Collectors.Collector.ReloadConfiguration` | upstream/otelcol/collector.go:290-323 | Keeps the service after a partial reload that works, otherwise replaces it; says exactly when it fails |
| `Collectors.Collector.Handle` | upstream/otelcol/collector.go:462-493 | One signal: a reload that succeeds goes on with the service it leaves, one that does not fails, any other signal stops |
| `Collectors.Collector.Loop` | upstream/otelcol/collector.go:462-493 | The loop over signals: it ends at the first that is not a reload that succeeds, as stopped or failed by whether it is a reload; while it goes on the service has the configuration of the last reload, and there is one service more for each full reload |
| `Collectors.Collector.Shutdown` | upstream/otelcol/collector.go:496-514 | Closes the collector with every service shut down |
| `Collectors.Collector.Run` | upstream/otelcol/collector.go:415-494 | Over every run: each service is started once and shut down once, one after the other, the state is running while the loop goes on, every exit but a failed reload ends closed, the first signal that is not a successful reload decides how it ends, there were as many services as full reloads and one more, the live service has the configuration of the last reload, it kept its non-receiver part if and only if none of its configurations collide, and then it ran the receivers of its newest configuration after every reload if and only if none of those collided |
| `Text.SortStrings` | upstream/component/componentstatus/instance.go:88-88 | A sorted rearrangement |
| `Text.IncreasingUnique` | upstream/component/componentstatus/instance.go:88-89 | A strictly increasing sequence is determined by its set of elements |
| `Text.CompactSorted` | upstream/component/componentstatus/instance.go:88-89 | Sorting and compacting gives the elements in strictly increasing order, whatever order and repetitions they came in |
| `Text.SplitJoin` | upstream/component/componentstatus/instance.go:84-90 | Splitting undoes joining when no part holds the delimiter |
| `Pipelines.UnmarshalToString` | upstream/pipeline/pipeline.go:50-88 | Parsing undoes printing for every valid ID |
| `Pipelines.UnmarshalExactly` | upstream/pipeline/pipeline.go:50-79 | A text parses to an ID if and only if the ID is valid and the text is its signal and, after the first slash, its name, each with any white space around it |
| `Pipelines.UnmarshalIsValid` | upstream/pipeline/pipeline.go:50-79 | Whatever parses is valid |
| `Pipelines.ToStringInjective` | upstream/pipeline/pipeline.go:82-88 | IDs of known signals that print alike are equal, whatever their names |
| `Instances.AddedToNothing` | upstream/component/componentstatus/instance.go:30-37 | A new instance holds the canonical encoding of its pipelines |
| `Instances.AddedToCanonical` | upstream/component/componentstatus/instance.go:72-91 | Adding pipelines gives the canonical encoding of all of them |
| `Instances.CanonicalSet` | upstream/component/componentstatus/instance.go:82-91 | Encodings are equal if and only if the sets of IDs are, in any order and with any repetitions |
| `Instances.VisitsTheSet` | upstream/component/componentstatus/instance.go:51-68 | Scanning an encoding visits exactly the set, each ID once, in the order of their strings, up to where the callback stops |
| `Instances.ReadsBackExactly` | upstream/component/componentstatus/instance.go:51-68 | For IDs of any kind, a new instance gives back its set if and only if they are all valid |
| `Instances.SpacesCollide` | upstream/component/componentstatus/instance.go:82-91 | An ID with a space in its name encodes like the set of its two halves |
| `Instances.SpacesCollideHere` | upstream/component/componentstatus/instance.go:82-91 | Concrete IDs for which this happens |
| `Instances.InstanceID.AddPipelines` | upstream/component/componentstatus/instance.go:82-91 | Splitting, appending, sorting, compacting and joining compute the specified encoding |
| `Instances.InstanceID.WithPipelines` | upstream/component/componentstatus/instance.go:72-80 | A new instance with the added pipelines; this one keeps its own |
| `Instances.InstanceID.AllPipelineIDs` | upstream/component/componentstatus/instance.go:51-68 | The loop with its reused buffer computes the specified scan |
| `Instances.NewInstanceID` | upstream/component/componentstatus/instance.go:30-37 | A new instance with the encoding of the pipelines |
| `Instances.SplitDoesNotMatter` | upstream/component/componentstatus/instance.go:30-91 | Two instances of a component and kind are equal if and only if their sets are, however the pipelines are split between creation and addition |
| `FeatureGates.ConfigureExactly` | upstream/featuregate/registry.go:60-107 | Options are accepted exactly when all of them parse, and the last versions given count |
| `FeatureGates.RegisteredExactly` | upstream/featuregate/registry.go:130-167 | When registering succeeds, exactly; the new gate is enabled if and only if its stage is beta or stable, and no other changes |
| `FeatureGates.SetExactly` | upstream/featuregate/registry.go:170-196 | When setting succeeds, exactly; then the gate has the value asked for, and no other changes |
| `FeatureGates.Signs` | upstream/featuregate/flag.go:57-75 | A plus sign asks for the same as no sign, a minus sign for the opposite |
| `FeatureGates.ApplyFlagsKeeps` | upstream/featuregate/flag.go:52-76 | Setting flags keeps the stage invariant, the gates and their stages |
| `FeatureGates.EveryRunLawful` | upstream/featuregate/registry.go:130-196 | In every registry that any calls can reach stable gates are enabled and deprecated ones disabled, and no gate was removed or changed its stage |
| `FeatureGates.PartsFailIndependently` | upstream/featuregate/flag.go:57-75 | The errors of a flag are those of its parts, each tried alone on the registry; no part is skipped after an error |
| `FeatureGates.LastPartWins` | upstream/featuregate/flag.go:57-75 | The last part that names a settable gate decides; stable and deprecated gates stay as they are |
| `FeatureGates.FlagsCopy` | upstream/featuregate/flag.go:34-76 | Applying printed flags copies the states without errors |
| `FeatureGates.FlagRoundTrip` | upstream/featuregate/flag.go:34-76 | What one registry prints, set on another with the same gates in any state, gives no errors and makes them equal |
| `FeatureGates.EveryFlagRoundTrips` | upstream/featuregate/flag.go:34-76 | The same for any two registries reached by any calls |
| `FeatureGates.Registry.Register` | upstream/featuregate/registry.go:130-167 | Registers, or refuses with the error of the first check that fails and changes nothing |
| `FeatureGates.Registry.Set` | upstream/featuregate/registry.go:170-196 | Sets a gate that can be set, or refuses and changes nothing; no other gate changes |
| `FeatureGates.Registry.VisitAll` | upstream/featuregate/registry.go:199-211 | All gates once, in lexicographical order, whatever order the map yields them in |
| `FeatureGates.FlagValue.String` | upstream/featuregate/flag.go:34-50 | Prints the registry as specified; nothing without a registry |
| `FeatureGates.FlagValue.Set` | upstream/featuregate/flag.go:52-76 | The loop over the parts computes the specified states and errors |
| `SharedComponents.RingAdvances` | upstream/internal/sharedcomponent/sharedcomponent.go:116-123 | Writing at the current slot and advancing keeps the last five events in order, the oldest first |
| `SharedComponents.HostWrapper.Report` | upstream/internal/sharedcomponent/sharedcomponent.go:116-127 | Records the event if there are sources and sends it to each once; every subscription keeps its promise |
| `SharedComponents.HostWrapper.Emit` | upstream/internal/sharedcomponent/sharedcomponent.go:124-126 | Every source receives the event once |
| `SharedComponents.HostWrapper.AddSource` | upstream/internal/sharedcomponent/sharedcomponent.go:129-138 | The new subscription starts with the last min(5, n) of the n recorded events |
| `SharedComponents.HostWrapper.Replay` | upstream/internal/sharedcomponent/sharedcomponent.go:132-136 | Reading the ring sends those events in order |
| `SharedComponents.Component.Start` | upstream/internal/sharedcomponent/sharedcomponent.go:74-98 | Starts the wrapped component once; every call returns the error of that start and subscribes its reporter |
| `SharedComponents.Component.Shutdown` | upstream/internal/sharedcomponent/sharedcomponent.go:141-148 | Stops the wrapped component once and then, only then, takes it out of the map |
| `SharedComponents.Map.LoadOrStore` | upstream/internal/sharedcomponent/sharedcomponent.go:32-53 | Returns the live component of a key or creates one; a failed creation changes nothing |
| `SharedComponents.Map.StartOne` | upstream/internal/sharedcomponent/sharedcomponent.go:74-98 | A start keeps the promises of the map and of all its components |
| `SharedComponents.Map.ReportOne` | upstream/internal/sharedcomponent/sharedcomponent.go:116-127 | A status event keeps the promises of the map and of all its components |
| `SharedComponents.Map.ShutdownOne` | upstream/internal/sharedcomponent/sharedcomponent.go:141-148 | A stop keeps the promises of the map and of all its components |
| `SharedComponents.Session` | upstream/internal/sharedcomponent/sharedcomponent.go:32-148 | After every sequential run the map holds exactly the components that were not stopped, each started and stopped at most once, and each subscription received the last five events before it joined and every later one |

## Left out

- JSON marshalling in pdata, and the object pools: pooling is modelled as switched off.
- The other pdata messages: they repeat the shapes modelled here and would add easy members.
- Capacity of a byte slice beyond its length: a byte slice is the array that its elements lie in. Strings cannot be
  written to and are values.
- What a leaf of a fan-out may write: one number stands for all byte arrays of the logs.
- Slices with a nil and with an empty backing are one; empty bytes and nil bytes are one.
- Overlapping source and destination in copies, apart from the same object: the callers keep them apart.
- YAML, the koanf merge and the decoding of configurations into structs: merging is any function that may fail.
- Map iteration order inside a configuration value: a map is a list of keys and values in some fixed order.
- `Watch` and change events of the resolver, and the shutdown of its providers.
- Clocks, tickers, logging and the start and stop of the memory limiter's ticker; the floating-point factor in its
  backoff is a parameter that may be any duration; the closed forms need it not to be negative.
- The fan-outs of traces, metrics and profiles: the same code as for logs.
- The content of logs: it is a number, and what a mutating consumer leaves in its object is a parameter.
- How sections are hashed and how the feature gate for partial reloads changes during a run: hashes are any
  functions, the gate is constant.
- Validation with the feature gates that allow no pipelines or profiles; what the validation of single components
  refuses, and the rules for cycles and unused connectors that apply when a service is built.
- Hashes of graph nodes: a receiver node is its signal and its receiver.
- Which receivers still run when a partial reload fails half-way: any; the service is then replaced.
- Concurrency: the run loop takes signals one at a time, and calls on registries, instances and shared components
  are sequential.
- Which characters a pipeline name may hold: any class without white space. Names are compared by code point, which
  is the order of their UTF-8 bytes.
- Descriptions and reference URLs of feature gates beyond whether a URL parses, and the warnings printed for
  stable and deprecated gates; versions are ranks in their order.
- Whether two subscriptions belong to the same reporter: the replay is stated for each subscription.
- gRPC, HTTP and TLS settings, exporters, commands, code generation and schema tools: plumbing.
