# rust-protobuf core, modelled in Dafny

This project models the parts of rust-protobuf that turn messages into bytes
and back, and the code generator's decisions about what that code does.

- **Buffered writer.** `CodedOutputStream` is a class with a byte-array
  buffer and three targets: a caller's fixed slice, a caller's growable
  `Vec<u8>`, and an `io::Write` sink. Every write method is proved to append
  exactly the wire-format bytes of its argument. On a slice target a write
  fails exactly when the slice cannot hold the bytes. In the model,
  `total_bytes_written` is proved to count every byte. This includes the
  direct writes to an `io::Write` target, which the source's Write branch
  does not count (see Findings).
- **Wire format.** Varints, zigzag, little-endian fixed-width values, tags,
  unknown fields and the reads of `CodedInputStream`. They are written from
  the protobuf encoding rules, with round-trip lemmas for each of them.
- **Generated messages.** `Timestamp`, `Duration` and the doctest
  `MyMessage` are classes whose `merge_from`, `compute_size`,
  `write_to_with_cached_sizes` and `clear` are methods. They are proved
  against one encoding, size and decode function. Proved facts:
  - size equals bytes written;
  - zero fields are omitted;
  - of several records for a singular field, the last one wins;
  - a failed read ends `merge_from` with the records before it merged;
  - unknown fields pass through;
  - decoding an encoding gives the message back.
- **Code generator.** The code generator (`protobuf-codegen`) is modelled
  over an abstract field and message descriptor. This covers:
  - how a field is classified (singular with or without a flag, repeated,
    map, oneof), its tag, its fixed size and its accessors;
  - the oneof boxing search, a worklist graph search, proved to box exactly
    the variants that reach their owner;
  - the generated `compute_size`, `write_to`, `merge_from`, `clear`,
    `is_initialized` and default instance of an arbitrary message, with
    size equal to the encoding length and a packed run merging like its
    unpacked records;
  - the generated enum code (`value`, `from_i32`, `values`, `PartialEq`,
    `Hash`, `Default`).
- **Enum reflection.** The runtime enum descriptors: lookup by number and
  by name, the default value, and `cast`.

Modules, one per file:

| module | file | models |
|---|---|---|
| `Wrappers` | wrappers.dfy | `Option`, `Result` |
| `WireFormat` | wire_format.dfy | varint, zigzag, little-endian, tags, raw reads |
| `Scalar` | scalar.dfy | per-type scalar writes, sizes, packed runs, typed reads |
| `Unknown` | unknown.dfy | `UnknownFields`, their encoding, size, insertion and `read_unknown_or_skip_group` |
| `CodedOutput` | coded_output_stream.dfy | `CodedOutputStream` |
| `SecondsNanos` | seconds_nanos.dfy | the encoding and decode loop shared by `Timestamp` and `Duration` |
| `TimestampPb`, `DurationPb`, `DoctestPb` | timestamp.dfy, duration.dfy, doctest_pb.dfy | the generated message classes |
| `Descriptor` | descriptor.dfy | field and message descriptors, `WireType::for_type` |
| `OneofBoxing` | oneof_boxing.dfy | `OneofField::need_boxed` |
| `FieldGen` | field_gen.dfy | `FieldGen::parse` and the per-field generator decisions |
| `FieldValue` | field_value.dfy | a field's stored value, presence, written bytes and size |
| `OneofGen` | oneof_gen.dfy | oneof variant types and paths |
| `MessageGen` | message_gen.dfy | field filters, `compute_size`, `write_to`, `merge_from` |
| `MessageLifecycle` | message_lifecycle.dfy | default instance, `clear`, `is_initialized`, derives, nested module |
| `EnumGen` | enum_gen.dfy | the generated enum |
| `ReflectEnums` | reflect_enums.dfy | `EnumDescriptor`, `EnumValueDescriptor` |

## Model

| member | source | states |
|---|---|---|
| CodedOutput.ReservedCapacity | protobuf/src/coded_output_stream.rs:209-214 | after `vec.reserve(1)` the capacity holds the flushed length plus one and never shrinks, and it is unchanged exactly when the spare room already sufficed |
| CodedOutput.Sink.constructor | protobuf/src/coded_output_stream.rs:64-73 | a writer target starts holding the given bytes |
| CodedOutput.ByteVec.constructor | protobuf/src/coded_output_stream.rs:64-73 | a vector target starts with the given contents and a capacity no smaller than them |
| CodedOutput.EncodeVarintInto | protobuf/src/coded_output_stream.rs:309-344 | the fast path of `write_raw_varint32/64` puts exactly the base-128 encoding of the value at the write position and leaves earlier bytes alone |
| CodedOutput.WriteTargetUndercounts | protobuf/src/coded_output_stream.rs:288-292 | as written: one write of 8193 bytes to a fresh `io::Write` stream leaves `total_bytes_written` at 0 |
| CodedOutput.RawBytesCountersExact | protobuf/src/coded_output_stream.rs:261-301 | with the direct write counted (as the Vec branch does), `pos_within_buf + pos_of_buffer_start` grows by exactly the bytes written, and the position stays inside the buffer |
| CodedOutput.CodedOutputStream.ForWrite | protobuf/src/coded_output_stream.rs:114-131 | a stream over a writer starts at zero with an 8 KiB buffer of its own |
| CodedOutput.CodedOutputStream.ForBytes | protobuf/src/coded_output_stream.rs:136-146 | a slice stream's buffer is the slice itself and nothing is written yet |
| CodedOutput.CodedOutputStream.ForVec | protobuf/src/coded_output_stream.rs:149-157 | a Vec stream starts with an empty buffer, keeping the vector's contents |
| CodedOutput.CodedOutputStream.TotalBytesWritten | protobuf/src/coded_output_stream.rs:165-167 | `total_bytes_written` is the number of bytes written through the stream so far |
| CodedOutput.CodedOutputStream.CheckEof | protobuf/src/coded_output_stream.rs:174-183 | on a slice target, EOF holds exactly when the written bytes fill the slice |
| CodedOutput.CodedOutputStream.RefreshBuffer | protobuf/src/coded_output_stream.rs:200-225 | it fails exactly on a slice target. On a writer it hands over the buffered bytes and restarts at 0. On a Vec it commits them, reserves one more byte and takes the new spare capacity as buffer. The bytes written are unchanged |
| CodedOutput.CodedOutputStream.Flush | protobuf/src/coded_output_stream.rs:232-248 | flush always succeeds, loses no byte and, on a Vec, never changes the capacity |
| CodedOutput.CodedOutputStream.WriteRawByte | protobuf/src/coded_output_stream.rs:251-258 | appends the byte, refilling first only when the buffer is full; on a slice it fails exactly when the slice is full |
| CodedOutput.CodedOutputStream.WriteRawBytes | protobuf/src/coded_output_stream.rs:261-301 | appends the bytes, fails exactly when a slice cannot hold them, and on a writer keeps the counters of `RawBytesCounters` |
| CodedOutput.CodedOutputStream.CopyIntoBuffer | protobuf/src/coded_output_stream.rs:262-269 | bytes that fit in the buffer's free room are appended there and the position moves past them |
| CodedOutput.CodedOutputStream.WriteDirect | protobuf/src/coded_output_stream.rs:286-298 | a chunk too large for the buffer goes straight to the vector or writer; the model counts it for both targets, although the source's writer branch does not (see Findings) |
| CodedOutput.CodedOutputStream.WriteRawVarint32 | protobuf/src/coded_output_stream.rs:309-325 | appends the varint encoding of the u32, fast or slow path alike |
| CodedOutput.CodedOutputStream.WriteRawVarint64 | protobuf/src/coded_output_stream.rs:328-344 | appends the varint encoding of the u64 |
| CodedOutput.CodedOutputStream.WriteVarintInBuffer | protobuf/src/coded_output_stream.rs:310-315 | with room for the encoding, the varint goes straight into the buffer and is appended |
| CodedOutput.CodedOutputStream.WriteRawLittleEndian32 | protobuf/src/coded_output_stream.rs:347-349 | appends the four bytes of the u32, least significant first |
| CodedOutput.CodedOutputStream.WriteRawLittleEndian64 | protobuf/src/coded_output_stream.rs:352-354 | appends the eight bytes of the u64, least significant first |
| CodedOutput.CodedOutputStream.WriteTag | protobuf/src/coded_output_stream.rs:304-306 | appends the varint of `(number << 3) \| wire type` |
| CodedOutput.CodedOutputStream.WriteScalarNoTag | protobuf/src/coded_output_stream.rs:381-438 | each `write_<type>_no_tag` appends its type's encoding: sign-extended varints for int32/int64/enum, zigzag for sint, little-endian for fixed, one byte for bool |
| CodedOutput.CodedOutputStream.WriteScalar | protobuf/src/coded_output_stream.rs:467-548 | each `write_<type>` appends the tag with the type's wire type, then the value |
| CodedOutput.CodedOutputStream.WriteBytesNoTag | protobuf/src/coded_output_stream.rs:607-611 | appends the length (cast to u32) as a varint, then the bytes unchanged |
| CodedOutput.CodedOutputStream.WriteBytes | protobuf/src/coded_output_stream.rs:633-637 | appends a length-delimited tag, then the length-prefixed bytes |
| CodedOutput.CodedOutputStream.WriteRepeatedPackedNoTag | protobuf/src/coded_output_stream.rs:792-797 | appends each element's encoding in order, with no per-element tags |
| CodedOutput.CodedOutputStream.WritePackedElementAt | protobuf/src/coded_output_stream.rs:793-795 | one turn of the packed loop appends the next element's encoding, or fails inside the run's bytes |
| CodedOutput.CodedOutputStream.WriteRepeatedPacked | protobuf/src/coded_output_stream.rs:800-813 | writes nothing for no values, otherwise a length-delimited tag, the data size as a varint, then the elements |
| CodedOutput.CodedOutputStream.WriteUnknownNoTag | protobuf/src/coded_output_stream.rs:457-464 | appends an unknown value in its own wire type |
| CodedOutput.CodedOutputStream.WriteUnknown | protobuf/src/coded_output_stream.rs:571-579 | appends the tag with the value's wire type, then the value |
| CodedOutput.CodedOutputStream.WriteUnknownValues | protobuf/src/coded_output_stream.rs:584-586 | appends one record per value of a field number, in order |
| CodedOutput.CodedOutputStream.WriteUnknownValueAt | protobuf/src/coded_output_stream.rs:584-586 | one turn of the loop over a number's values appends the next record, or fails inside the field's bytes |
| CodedOutput.CodedOutputStream.WriteUnknownFields | protobuf/src/coded_output_stream.rs:582-589 | appends every unknown field's records, field by field |
| CodedOutput.CodedOutputStream.WriteUnknownFieldAt | protobuf/src/coded_output_stream.rs:583-588 | one turn of the loop over the fields appends the next field's records, or fails inside the whole encoding |
| CodedOutput.CodedOutputStream.WriteUnknownFieldsSorted | protobuf/src/coded_output_stream.rs:592-604 | appends the records of the unknown fields sorted by field number |
| CodedOutput.SortByNumberCorrect | protobuf/src/coded_output_stream.rs:597-598 | the sort used before writing yields fields ordered by number and is a permutation of its input |
| CodedOutput.WriteChunks | protobuf/src/coded_output_stream.rs:1043-1085 | a sequence of writes appends their concatenation, or fails only on a slice too small for it |
| CodedOutput.WriteThroughWriter | protobuf/src/coded_output_stream.rs:1043-1085 | the same writes, through a writer target, reach the writer as their concatenation after `flush` |
| CodedOutput.WriteThroughSlice | protobuf/src/coded_output_stream.rs:1043-1085 | through an exactly sized slice they fill the slice with the concatenation and `check_eof` holds |
| CodedOutput.WriteThroughVec | protobuf/src/coded_output_stream.rs:1043-1085 | through a Vec they append the concatenation to the vector's earlier contents |
| CodedOutput.FlushForVecDoesNotAllocateMore | protobuf/src/coded_output_stream.rs:1208-1220 | ten one-byte writes into a Vec of capacity 10, then flush, leave length 10 and capacity 10 |
| CodedOutput.TotalBytesWrittenToBytes | protobuf/src/coded_output_stream.rs:1223-1231 | on a slice, `total_bytes_written` reads 0, 2, 5 after writes of 2 and 3 bytes |
| CodedOutput.TotalBytesWrittenToVec | protobuf/src/coded_output_stream.rs:1234-1241 | on a Vec, `total_bytes_written` reads 3, 6, …, 300 after each of 100 three-byte writes |
| WireFormat.WireTypeOfCode | protobuf/src/coded_output_stream.rs:304-306 | the three-bit wire-type code is decoded exactly for codes 0 to 5, and decoding inverts encoding |
| WireFormat.I64AsU64 | protobuf/src/coded_output_stream.rs:391-393 | `as u64` of an i64 is undone by `as i64` |
| WireFormat.I32AsU64 | protobuf/src/coded_output_stream.rs:396-398 | int32 is sign-extended to 64 bits, so negatives are huge, and `as i32` of the result gives the value back |
| WireFormat.I32AsU32 | protobuf/src/coded_output_stream.rs:425-428 | `as u32` of an i32 keeps its bits: reading the result as two's complement gives the value back |
| WireFormat.TruncU32 | protobuf/src/well_known_types/timestamp.rs:111 | the `as u32` cast of a cached size keeps every size below 2^32 unchanged |
| WireFormat.ZigZag32RoundTrip | protobuf/src/coded_output_stream.rs:406-408 | zigzag of an i32 decodes back to the value |
| WireFormat.ZigZag32Onto | protobuf/src/coded_output_stream.rs:406-408 | every u32 is the zigzag of some i32 |
| WireFormat.ZigZag64RoundTrip | protobuf/src/coded_output_stream.rs:401-403 | zigzag of an i64 decodes back to the value |
| WireFormat.ZigZag64Onto | protobuf/src/coded_output_stream.rs:401-403 | every u64 is the zigzag of some i64 |
| WireFormat.VarintSizeIsLength | protobuf/src/well_known_types/timestamp.rs:104-109 | the varint size the runtime computes is the encoding's length; at most 10 bytes, at most 5 for a u32 |
| WireFormat.VarintContinuation | protobuf/src/coded_output_stream.rs:1116-1127 | every varint byte but the last has the high bit set and the last has it clear |
| WireFormat.LittleEndian32RoundTrip | protobuf/src/coded_output_stream.rs:347-349 | the four little-endian bytes read back as the u32 |
| WireFormat.LittleEndian | protobuf/src/coded_output_stream.rs:347-354 | the little-endian encoding of a width has exactly that many bytes |
| WireFormat.LittleEndian64RoundTrip | protobuf/src/coded_output_stream.rs:352-354 | the eight little-endian bytes read back as the u64 |
| WireFormat.TagValue | protobuf/src/coded_output_stream.rs:304-306 | a tag's value carries the field number above the low three bits and the wire type in them |
| WireFormat.TagInjective | protobuf/src/coded_output_stream.rs:304-306 | two tags are equal exactly when both their field numbers and wire types are |
| WireFormat.TagSizeIsLength | protobuf/src/well_known_types/timestamp.rs:104-109 | `tag_size(n)` is the length of the tag for field `n`, for every wire type |
| WireFormat.ReadRawVarint64 | protobuf/src/well_known_types/timestamp.rs:84 | a successful read consumes at least one byte and stays within the input |
| WireFormat.ReadRawVarint32 | protobuf/src/well_known_types/timestamp.rs:84 | a successful read consumes at least one byte and stays within the input |
| WireFormat.DecodeVarintFrom | protobuf/src/well_known_types/timestamp.rs:84 | the varint decode loop, when it succeeds, ends past its start and within the input |
| WireFormat.VarintRoundTrip | protobuf/src/coded_output_stream.rs:328-344 | reading back a written varint gives the value and consumes exactly its bytes |
| WireFormat.TagRoundTrip | protobuf/src/coded_output_stream.rs:304-306 | a written tag reads back as the same u32 |
| WireFormat.LittleEndianReadBack | protobuf/src/coded_output_stream.rs:347-354 | little-endian bytes read back as their value and consume exactly the width |
| WireFormat.VarintVectors | protobuf/src/coded_output_stream.rs:1088-1127 | 150 encodes as `96 01`, u32::MAX as `ff ff ff ff 0f`, u64::MAX as ten bytes ending `01`, and the tag of field 1 as a varint is `08` |
| WireFormat.SignVectors | protobuf/src/coded_output_stream.rs:1130-1141 | int32 -1 is written as ten bytes, and sint32 -1 and -2 zigzag to 1 and 3 |
| WireFormat.LittleEndian32Vector | protobuf/src/coded_output_stream.rs:1144-1146 | 0xc4d3e2f1 is written as `f1 e2 d3 c4` |
| Scalar.NoTagSizeIsLength | protobuf/src/well_known_types/timestamp.rs:104-109 | the size the runtime computes for a scalar is its encoding's length, and the fixed types have their fixed width |
| Scalar.SumNoTagSizesIsLength | protobuf/src/coded_output_stream.rs:800-813 | the data size of a packed run is the length of its elements' encodings |
| Scalar.PackedFixedLength | protobuf/src/coded_output_stream.rs:695-701 | a packed run of fixed-width values is width times count bytes |
| Scalar.PackedDataSizeIsLength | protobuf/src/coded_output_stream.rs:808-810 | `vec_packed_*_data_size` is the length of the packed data |
| Scalar.ReadNoTag | protobuf/src/well_known_types/timestamp.rs:87-91 | a successful typed read yields a value of the type's range and consumes at least one byte |
| Scalar.FromVarint | protobuf/src/well_known_types/timestamp.rs:87-91 | converting a read varint to a typed value always gives a value of the type's range |
| Scalar.FromFixed | protobuf/src/well_known_types/timestamp.rs:87-91 | converting read little-endian bytes to a typed value gives a value of the type's range |
| Scalar.VarintOf | protobuf/src/coded_output_stream.rs:381-438 | the varint types write the varint of one u64, which their read maps back to the value |
| Scalar.FixedOf | protobuf/src/coded_output_stream.rs:411-428 | the fixed types write the little-endian bytes of one number below 256^width, which their read maps back to the value |
| Scalar.ReadNoTagRoundTrip | protobuf/src/well_known_types/timestamp.rs:87-91 | the typed read of a written scalar gives the value back and consumes exactly its bytes |
| Scalar.ReadFieldRoundTrip | protobuf/src/coded_output_stream.rs:467-548 | a written scalar field reads back as its tag followed by its value |
| Unknown.ValueSizeIsLength | protobuf/src/coded_output_stream.rs:571-579 | the size the runtime computes for an unknown record is its encoding's length |
| Unknown.UnknownFieldsSizeIsLength | protobuf/src/well_known_types/timestamp.rs:110 | `unknown_fields_size` is the length of what `write_unknown_fields` writes |
| Unknown.AddValueEffect | protobuf/src/well_known_types/timestamp.rs:93-94 | storing an unknown value appends it to its field number's values and changes no other number |
| Unknown.AddValueDistinct | protobuf/src/well_known_types/timestamp.rs:93-94 | storing an unknown value keeps one entry per field number |
| Unknown.AddValueNumbers | protobuf/src/well_known_types/timestamp.rs:93-94 | storing an unknown value adds exactly its number to the numbers present |
| Unknown.AddFieldsRebuilds | protobuf/src/doctest_pb.rs:62-72 | storing the records of normalized unknown fields one by one into an empty set rebuilds those fields |
| Unknown.ReadBytes | protobuf/src/well_known_types/timestamp.rs:93-94 | a successful length-delimited read consumes at least one byte and stays within the input |
| Unknown.ReadUnknownOrSkipGroup | protobuf/src/well_known_types/timestamp.rs:93-94 | a successful read of an unclaimed tag consumes at least one byte and stays within the input |
| Unknown.SkipGroup | protobuf/src/well_known_types/timestamp.rs:93-94 | skipping a group, when it succeeds, ends past its start and within the input |
| Unknown.ReadBytesRoundTrip | protobuf/src/coded_output_stream.rs:607-611 | length-prefixed bytes read back as the same bytes |
| Unknown.ReadValueRoundTrip | protobuf/src/coded_output_stream.rs:457-464 | an unknown value written in its wire type is read back by `read_unknown_or_skip_group` as the same number and value |
| Unknown.ReadEncodedValue | protobuf/src/coded_output_stream.rs:571-579 | a written unknown record reads back as its tag followed by the same value |
| SecondsNanos.MergeField | protobuf/src/well_known_types/timestamp.rs:85-95 | one turn of the decode loop, when it succeeds, consumes at least one byte and stays within the input |
| SecondsNanos.WriteIfNonZero | protobuf/src/well_known_types/timestamp.rs:116-121 | a field is written only when it is non-zero, as its tag and value |
| SecondsNanos.WriteFieldsOf | protobuf/src/well_known_types/timestamp.rs:115-124 | `seconds` then `nanos`, each only if non-zero |
| SecondsNanos.SizeIsLength | protobuf/src/well_known_types/timestamp.rs:102-113 | `compute_size` is the length of what `write_to_with_cached_sizes` writes |
| SecondsNanos.NegativeFieldsWritten | protobuf/src/well_known_types/timestamp.rs:116-118 | a negative `seconds` (or `nanos`) is written as an 11-byte field, the tag and a ten-byte sign-extended varint |
| SecondsNanos.RoundTrip | protobuf/src/well_known_types/timestamp.rs:82-98 | `merge_from` into the default instance of what `write_to` wrote gives the message back |
| SecondsNanos.MergeEncoded | protobuf/src/well_known_types/timestamp.rs:82-98 | merging an encoded message overwrites the non-zero fields and adds its unknown fields |
| SecondsNanos.LastSecondsWins | protobuf/src/well_known_types/timestamp.rs:86-88 | of two `seconds` records the second one wins |
| SecondsNanos.LastNanosWins | protobuf/src/well_known_types/timestamp.rs:89-91 | of two `nanos` records the second one wins |
| SecondsNanos.OtherTagsKeptUnknown | protobuf/src/well_known_types/timestamp.rs:92-94 | any record other than tags 8 and 16 is kept among the unknown fields |
| SecondsNanos.TruncatedKeepsEarlier | protobuf/src/well_known_types/timestamp.rs:86-88 | a read that fails after a complete `seconds` record ends the loop with end-of-input and keeps that record merged |
| SecondsNanos.MergeUnknownFields | protobuf/src/well_known_types/timestamp.rs:93-95 | merging encoded unknown fields adds them all to the message's unknown fields |
| TimestampPb.Timestamp.constructor | protobuf/src/well_known_types/timestamp.rs:142-150 | a new `Timestamp` is the default instance: both fields zero, no unknown fields |
| TimestampPb.Timestamp.IsInitialized | protobuf/src/well_known_types/timestamp.rs:78-80 | a `Timestamp` is always initialized |
| TimestampPb.Timestamp.MergeFrom | protobuf/src/well_known_types/timestamp.rs:82-98 | the loop leaves the message in the state the decode function reaches, on success and on failure alike, and fails exactly when it fails, with its error |
| TimestampPb.Timestamp.ComputeSize | protobuf/src/well_known_types/timestamp.rs:102-113 | returns the size, which is the encoding's length when length prefixes fit, caches it truncated to u32, and changes no field |
| TimestampPb.Timestamp.WriteTo | protobuf/src/well_known_types/timestamp.rs:115-124 | appends the message's encoding to the stream and changes no field |
| TimestampPb.Timestamp.Clear | protobuf/src/well_known_types/timestamp.rs:161-165 | restores the default instance |
| DurationPb.Duration.constructor | protobuf/src/well_known_types/duration.rs:152-160 | a new `Duration` is the default instance |
| DurationPb.Duration.IsInitialized | protobuf/src/well_known_types/duration.rs:82-84 | a `Duration` is always initialized |
| DurationPb.Duration.MergeFrom | protobuf/src/well_known_types/duration.rs:86-102 | the loop leaves the message in the state the decode function reaches, on success and on failure alike, and fails exactly when it fails, with its error |
| DurationPb.Duration.ComputeSize | protobuf/src/well_known_types/duration.rs:106-117 | returns the size, which is the encoding's length when length prefixes fit, and caches it truncated to u32 |
| DurationPb.Duration.WriteTo | protobuf/src/well_known_types/duration.rs:119-128 | appends the message's encoding |
| DurationPb.Duration.Clear | protobuf/src/well_known_types/duration.rs:146-150 | restores the default instance |
| DoctestPb.RoundTrip | protobuf/src/doctest_pb.rs:62-86 | `merge_from` of what `write_to` wrote rebuilds the unknown fields |
| DoctestPb.EveryTagKeptUnknown | protobuf/src/doctest_pb.rs:62-72 | a message without fields keeps every record as an unknown field |
| DoctestPb.MergeFields | protobuf/src/doctest_pb.rs:62-72 | merging encoded unknown fields adds them all |
| DoctestPb.MyMessage.constructor | protobuf/src/doctest_pb.rs:108-114 | a new `MyMessage` has no unknown fields |
| DoctestPb.MyMessage.IsInitialized | protobuf/src/doctest_pb.rs:58-60 | always initialized |
| DoctestPb.FailureKeepsEarlier | protobuf/src/doctest_pb.rs:62-72 | a record followed by the invalid tag 0 ends the loop with that error and keeps the record added |
| DoctestPb.MyMessage.MergeFrom | protobuf/src/doctest_pb.rs:62-72 | the loop adds each record to the unknown fields, as the decode function says; a failed read ends it with its error and keeps the records added before it |
| DoctestPb.MyMessage.ComputeSize | protobuf/src/doctest_pb.rs:76-81 | returns `unknown_fields_size` of the unknown fields, which is their encoded length when they fit, and caches it truncated to u32 |
| DoctestPb.MyMessage.WriteTo | protobuf/src/doctest_pb.rs:83-86 | appends the unknown fields' encoding |
| DoctestPb.MyMessage.Clear | protobuf/src/doctest_pb.rs:104-106 | empties the unknown fields |
| Descriptor.WireTypeFor | protobuf-codegen/src/gen/field/mod.rs:619 | strings, bytes and messages are length-delimited, groups start-group, fixed32/sfixed32/float four bytes, fixed64/sfixed64/double eight, the rest varint |
| Descriptor.WireTypeForScalar | protobuf-codegen/src/gen/field/mod.rs:619 | a field's wire type is the one its scalar write uses |
| OneofBoxing.OneofMembers | protobuf-codegen/src/gen/oneof.rs:61-66 | the fields pushed for a message are exactly its oneof members |
| OneofBoxing.Targets | protobuf-codegen/src/gen/oneof.rs:61-66 | the names pushed include the type of every message-typed field in the list |
| OneofBoxing.ReachSucc | protobuf-codegen/src/gen/oneof.rs:61-66 | everything pushed from a reachable message is itself reachable |
| OneofBoxing.ClosedSetBlocks | protobuf-codegen/src/gen/oneof.rs:50-69 | a set closed under the oneof-member edges that excludes the owner shows the owner unreachable |
| OneofBoxing.SearchStarts | protobuf-codegen/src/gen/oneof.rs:49-50 | the search starts with nothing visited and the variant's field as the worklist, and the invariant already holds |
| OneofBoxing.Exhausted | protobuf-codegen/src/gen/oneof.rs:70 | when the worklist empties without meeting the owner, the owner is not reachable |
| OneofBoxing.PopOwner | protobuf-codegen/src/gen/oneof.rs:58-60 | meeting the owner's name means the owner is reachable |
| OneofBoxing.NeedBoxed | protobuf-codegen/src/gen/oneof.rs:44-71 | a variant is boxed exactly when it is a message from which the owner is reachable through oneof members; the loop ends because the set of unvisited messages shrinks |
| FieldGen.ElemOf | protobuf-codegen/src/gen/field/mod.rs:450-507 | the element keeps the field's type, and enum and message elements name the field's type |
| FieldGen.FlagsFor | protobuf-codegen/src/gen/field/mod.rs:544-558 | fields are exposed unless they may have a custom default, accessors are generated for unexposed fields and oneof members, getters also for custom defaults, and customization overrides each default |
| FieldGen.KindOf | protobuf-codegen/src/gen/field/mod.rs:560-611 | map fields become maps, repeated fields repeated, singular oneof members oneofs; a proto3 non-message singular field has no flag, others a flag with `required` iff required and message storage iff a message |
| FieldGen.Parse | protobuf-codegen/src/gen/field/mod.rs:528-629 | the parsed field has the classification above, boxed exactly when the oneof search says so, and its shape is consistent |
| FieldGen.TypeIsCopy | protobuf-codegen/src/gen/field/mod.rs:36-43 | every type is `Copy` except messages, strings and bytes |
| FieldGen.FieldTypeSize | protobuf-codegen/src/gen/field/mod.rs:107-114 | bool is 1 byte, the fixed32 wire types 4, the fixed64 wire types 8, others have no fixed size |
| FieldGen.FieldTypeSizeIsWidth | protobuf-codegen/src/gen/field/mod.rs:107-114 | a fixed size is the length every value of the type is written with |
| FieldGen.NoFixedSizeVaries | protobuf-codegen/src/gen/field/mod.rs:107-114 | a type without a fixed size has values of different lengths (0 takes one byte, 1000 two) |
| FieldGen.TagWithWireType | protobuf-codegen/src/gen/field/mod.rs:1489-1491 | the tag is the field number shifted left by three plus the wire type |
| FieldGen.TagWithWireTypeIsTag | protobuf-codegen/src/gen/field/mod.rs:1489-1495 | the generator's tag is the tag the stream writes |
| FieldGen.AcceptedTagsShape | protobuf-codegen/src/gen/field/mod.rs:1574-1640 | every case arm of a field matches only tags of its own number; a repeated non-length-delimited field also matches the packed tag |
| FieldGen.AcceptedTagsDisjoint | protobuf-codegen/src/gen/field/mod.rs:1633-1640 | the case arms of two fields with different numbers match no common tag |
| FieldGen.RepeatedScalarAcceptsBoth | protobuf-codegen/src/gen/field/mod.rs:1574-1630 | a repeated scalar field matches both its packed and its unpacked tag, and they differ |
| FieldGen.WrittenTagAccepted | protobuf-codegen/src/gen/field/mod.rs:1688-1726 | every tag `write_to` writes for a field is matched by that field's case arm |
| FieldGen.ParsedHasHas | protobuf-codegen/src/gen/field/mod.rs:1965-1978 | `has_` is generated exactly for non-repeated fields that are oneof members, proto2 fields or messages |
| FieldGen.ParsedHasMutTake | protobuf-codegen/src/gen/field/mod.rs:1980-1994 | `mut_` and `take_` are generated for repeated fields and for messages, strings and bytes |
| FieldGen.DefaultVisibility | protobuf-codegen/src/gen/field/mod.rs:1109-1123 | without customization a field is private exactly when it may have a custom default |
| FieldGen.Select | protobuf-codegen/src/gen/message.rs:158-200 | a field filter keeps exactly the positions of the fields it accepts, in declaration order |
| FieldGen.RustFieldName | protobuf-codegen/src/gen/field/mod.rs:2403-2409 | a field name is kept unless it is a Rust keyword, which gets the `field_` prefix; the result is never a keyword |
| FieldGen.RustFieldNameCollision | protobuf-codegen/src/gen/field/mod.rs:2403-2409 | fields named `type` and `field_type` get the same Rust name |
| FieldValue.ElementSizeIsLength | protobuf-codegen/src/gen/field/mod.rs:952-1011 | the size computed for one element is the length of what `write_write_element` writes |
| FieldValue.FixedElementsLength | protobuf-codegen/src/gen/field/mod.rs:1435-1442 | an unpacked fixed-size run is (size + tag size) times count bytes |
| FieldValue.FieldSize | protobuf-codegen/src/gen/field/mod.rs:1728-1783 | an empty packed field adds nothing, and an unpacked fixed-size field adds (size + tag size) per element |
| FieldValue.SingularWrittenIffPresent | protobuf-codegen/src/gen/field/mod.rs:1149-1236 | a singular field writes bytes exactly when it is present: set for a flagged field, not the default for a flagless one |
| FieldValue.PackedSizeIsLength | protobuf-codegen/src/gen/field/mod.rs:1642-1656 | the packed size is tag, length prefix and data |
| FieldValue.EntriesSizeIsLength | protobuf-codegen/src/gen/field/mod.rs:1759-1770 | a map's size is the length of its entries' encodings |
| FieldValue.FieldSizeIsLength | protobuf-codegen/src/gen/field/mod.rs:1688-1783 | every field's computed size is the length of what it writes |
| MessageGen.ExceptOneofAndGroupIsBoth | protobuf-codegen/src/gen/message.rs:175-200 | `fields_except_oneof_and_group` is the intersection of the two other filters, in order |
| MessageGen.SizeIsLength | protobuf-codegen/src/gen/message.rs:239-260 | `compute_size` is the length of what `write_to_with_cached_sizes` writes |
| MessageGen.ComputeSize | protobuf-codegen/src/gen/message.rs:327-350 | the generated loop sums the fields, the active variants and the unknown fields, and caches the total truncated to u32 |
| MessageGen.CaseOfUnique | protobuf-codegen/src/gen/message.rs:398-405 | with distinct field numbers, the match sends a tag to the one field whose arm accepts it |
| MessageGen.CaseOf | protobuf-codegen/src/gen/message.rs:398-405 | the match, when it picks a field, picks one whose arm accepts the tag |
| MessageGen.CaseOfFirst | protobuf-codegen/src/gen/message.rs:398-405 | a tag some field accepts always picks a field, the first such one |
| MessageGen.WrittenRecordsDispatch | protobuf-codegen/src/gen/message.rs:398-405 | every record `write_to` writes for a field is dispatched back to that field |
| MessageGen.MapInsertLookup | protobuf-codegen/src/gen/field/mod.rs:1538-1551 | after inserting an entry into a map, the key maps to the new value and every other key is unchanged |
| MessageGen.MapInsert | protobuf-codegen/src/gen/field/mod.rs:1538-1551 | inserting into a map keeps keys distinct and entries well typed |
| MessageGen.MergeStep | protobuf-codegen/src/gen/message.rs:398-408 | one loop turn keeps the message's shape |
| MessageGen.MergeStepOk | protobuf-codegen/src/gen/message.rs:398-408 | one loop turn keeps every stored value well typed |
| MessageGen.MergeAllOk | protobuf-codegen/src/gen/message.rs:392-413 | the whole loop keeps every stored value well typed |
| MessageGen.MergeAll | protobuf-codegen/src/gen/message.rs:392-413 | the merge loop over the records keeps the message's shape |
| MessageGen.FailureAt | protobuf-codegen/src/gen/message.rs:396-407 | the first failed read, if any: every read before it succeeded, and there is none exactly when all reads succeed |
| MessageGen.MergeAllError | protobuf-codegen/src/gen/message.rs:396-407 | `merge_from` fails exactly when a read fails, with the first failure's error |
| MessageGen.MergeAllKeepsPrefix | protobuf-codegen/src/gen/message.rs:396-407 | on failure, the message keeps everything merged before the failing read |
| MessageGen.MergeFrom | protobuf-codegen/src/gen/message.rs:392-413 | the generated loop computes the merge function |
| MessageGen.MergeUnknownOnly | protobuf-codegen/src/gen/message.rs:404-406 | a tag no field accepts only appends to the unknown values of its number |
| MessageGen.OneofHoldsLastVariant | protobuf-codegen/src/gen/oneof.rs:217-230 | the oneof field is an `Option` of the oneof enum, so at most one member is set: a second member's record replaces the first one's variant and leaves every struct field alone |
| MessageGen.MergeOneofSetsVariant | protobuf-codegen/src/gen/field/mod.rs:1498-1535 | a record of a oneof member makes it the oneof's variant and touches nothing else |
| MessageGen.LastWins | protobuf-codegen/src/gen/field/mod.rs:1554-1571 | of two records for the same field, the second decides the field's final value |
| MessageGen.BothTagsDispatch | protobuf-codegen/src/gen/field/mod.rs:1574-1630 | both the packed and the unpacked tag of a repeated scalar field reach that field |
| MessageGen.UnpackedAppends | protobuf-codegen/src/gen/field/mod.rs:1574-1630 | unpacked records append their values to the field, in order |
| MessageGen.UnpackedHead | protobuf-codegen/src/gen/field/mod.rs:1574-1630 | the first record of an unpacked run appends its element and leaves the rest of the run to merge |
| MessageGen.PackedSameAsUnpacked | protobuf-codegen/src/gen/field/mod.rs:1574-1630 | a packed run merges exactly like the same values as unpacked records |
| MessageGen.PackedAndUnpackedAccepted | protobuf-codegen/src/gen/field/mod.rs:1574-1630 | both forms of a run are well-formed input for the field |
| MessageLifecycle.HasMapField | protobuf-codegen/src/gen/message.rs:314-317 | true exactly when some field is a map |
| MessageLifecycle.DefaultInstanceFormOf | protobuf-codegen/src/gen/message.rs:310-325 | the default instance is lazily built exactly when the message has a map field, else a static |
| MessageLifecycle.DefaultValid | protobuf-codegen/src/gen/message.rs:277-308 | the default instance is a well-formed value of the message |
| MessageLifecycle.DefaultFits | protobuf-codegen/src/gen/message.rs:277-308 | no field of the default instance holds a value too long for a 32-bit length |
| MessageLifecycle.DefaultSlotSizeZero | protobuf-codegen/src/gen/field/mod.rs:1728-1783 | a field at its default adds nothing to the size |
| MessageLifecycle.DefaultEncodesEmpty | protobuf-codegen/src/gen/message.rs:277-308 | the default instance has size 0 and writes no bytes |
| MessageLifecycle.ClearFieldsAt | protobuf-codegen/src/gen/message.rs:521-526 | clearing a list of fields resets each listed non-oneof field, clears each listed member's oneof, and keeps the rest |
| MessageLifecycle.SetOneofsCleared | protobuf-codegen/src/gen/message.rs:521-526 | every oneof that is set has a member among the fields `clear` visits |
| MessageLifecycle.ClearField | protobuf-codegen/src/gen/field/mod.rs:928-949 | clearing one field keeps the message's shape |
| MessageLifecycle.ClearFields | protobuf-codegen/src/gen/message.rs:521-526 | clearing a list of fields keeps the message's shape |
| MessageLifecycle.Clear | protobuf-codegen/src/gen/message.rs:521-526 | the generated loop clears every field except groups, and the unknown fields |
| MessageLifecycle.ClearIsDefault | protobuf-codegen/src/gen/message.rs:521-526 | a cleared message equals the default instance |
| MessageLifecycle.MessagesAmong | protobuf-codegen/src/gen/message.rs:478-489 | the nested messages checked are exactly the message values of a field |
| MessageLifecycle.CheckRequired | protobuf-codegen/src/gen/message.rs:470-474 | the first loop returns true exactly when every required field is set |
| MessageLifecycle.CheckAll | protobuf-codegen/src/gen/message.rs:484-488 | true exactly when every nested message is initialized |
| MessageLifecycle.CheckNested | protobuf-codegen/src/gen/message.rs:476-489 | the second loop returns true exactly when every nested message of a non-map message field is initialized |
| MessageLifecycle.IsInitialized | protobuf-codegen/src/gen/message.rs:466-493 | `is_initialized` holds exactly when required fields are set and nested messages are initialized |
| MessageLifecycle.RequiredGroupCheckedWithoutField | protobuf-codegen/src/gen/message.rs:158-166 | a required group is among the fields `is_initialized` tests for `None`, yet it has no struct field and no slot (the as-written half of the Findings row) |
| MessageLifecycle.DefaultInitialized | protobuf-codegen/src/gen/message.rs:466-493 | the default instance is initialized exactly when every required field is a group; a group has no slot, so the model passes over it (see Findings) |
| MessageLifecycle.PartialEqExactlyOnce | protobuf-codegen/src/gen/message.rs:576-589 | `PartialEq` is derived for at most 500 fields and hand-written (as a dummy) otherwise, never both |
| MessageLifecycle.NestedModName | protobuf-codegen/src/gen/message.rs:819-825 | the nested module is named after the message in snake case, with `mod_` before a keyword, and is never a keyword |
| MessageLifecycle.NestedModNotEmpty | protobuf-codegen/src/gen/message.rs:727-814 | the nested module is written exactly when it would hold something, and it holds the enum of each oneof, each nested message that is not a map entry and each nested enum, and nothing else |
| OneofGen.VariantType | protobuf-codegen/src/gen/oneof.rs:90-98 | a variant's type is its element's storage type, in a box exactly when it is boxed |
| OneofGen.VariantsExceptGroup | protobuf-codegen/src/gen/oneof.rs:192-215 | the variants are exactly the oneof's non-group members, in declaration order |
| OneofGen.VariantPath | protobuf-codegen/src/gen/oneof.rs:100-108 | the variant path is the enum's path followed by the field's Rust name |
| EnumGen.ValuesAll | protobuf-codegen/src/gen/enums.rs:112-118 | one variant per declared value, in declaration order |
| EnumGen.UniqueValuesSpec | protobuf-codegen/src/gen/enums.rs:120-132 | `values_unique` keeps exactly the first value of each number, in declaration order |
| EnumGen.UniqueValues | protobuf-codegen/src/gen/enums.rs:120-132 | `values_unique` keeps positions of declared values only |
| EnumGen.UniqueValuesDistinct | protobuf-codegen/src/gen/enums.rs:120-132 | the kept values have distinct numbers, and every declared number is among them |
| EnumGen.ValuesUnique | protobuf-codegen/src/gen/enums.rs:120-132 | the loop over values with a set of used numbers computes that selection |
| EnumGen.FromI32Spec | protobuf-codegen/src/gen/enums.rs:240-255 | `from_i32` maps a number to the first value declared with it, and an undeclared number to `None` |
| EnumGen.FirstWithNumber | protobuf-codegen/src/gen/enums.rs:240-255 | the first position from a start with the given number, or none exactly when no later value has it |
| EnumGen.MatchArm | protobuf-codegen/src/gen/enums.rs:240-255 | the `match` arms of `from_i32` give a variant with the number, or none exactly when no arm has it |
| EnumGen.FromI32OfValue | protobuf-codegen/src/gen/enums.rs:209-255 | `from_i32(v.value())` is a variant with the same number, and `v` itself exactly when `v` is not a later alias |
| EnumGen.ValueOfFromI32 | protobuf-codegen/src/gen/enums.rs:209-255 | `from_i32` finds a variant exactly for declared numbers, and that variant's `value()` is the number |
| EnumGen.NoAliasRoundTrip | protobuf-codegen/src/gen/enums.rs:209-255 | without `allow_alias`, `from_i32` inverts `value` exactly |
| EnumGen.EqConsistentWithHash | protobuf-codegen/src/gen/enums.rs:332-359 | equal variants hash alike, and with `allow_alias` variants are equal exactly when their numbers are |
| EnumGen.DerivedEqIsByNumber | protobuf-codegen/src/gen/enums.rs:162-176 | without aliases, derived equality of variants is equality of numbers |
| EnumGen.EqAndHashOnce | protobuf-codegen/src/gen/enums.rs:134-176 | `PartialEq` and `Hash` are each either derived or hand-written (under `allow_alias`), never both; `Clone`, `Copy`, `Eq` always derived |
| EnumGen.DefaultIsFirst | protobuf-codegen/src/gen/enums.rs:361-386 | `Default` is the first declared value, `from_i32` of its number gives it back, and the note comment is written exactly when its number is not 0 |
| ReflectEnums.FullName | protobuf/src/reflect/enums/mod.rs:67-69 | the full name is the enum's full name, a dot, then the value's name |
| ReflectEnums.FullNameDeterminesName | protobuf/src/reflect/enums/mod.rs:67-69 | within one enum, full names are equal exactly when names are |
| ReflectEnums.ValueAgreesWithGenerated | protobuf/src/reflect/enums/mod.rs:72-74 | `value()` is the declared number, the same the generated enum's `value()` returns |
| ReflectEnums.HashByNumber | protobuf/src/reflect/enums/mod.rs:28-32 | the hash depends only on the number: equal descriptors hash alike, and an alias hashes like the value it aliases |
| ReflectEnums.Values | protobuf/src/reflect/enums/mod.rs:174-180 | `values` yields the indices 0 to len-1 of this enum, in order |
| ReflectEnums.ValuesEnumerateAll | protobuf/src/reflect/enums/mod.rs:174-180 | `values` lists each value of the enum exactly once and nothing else |
| ReflectEnums.DefaultIsFirstValue | protobuf/src/reflect/enums/mod.rs:183-217 | `default_value` is `first_value`, index 0, the generated enum's `Default` |
| ReflectEnums.ValueByNumberSpec | protobuf/src/reflect/enums/mod.rs:200-209 | lookup by number finds a value exactly for declared numbers, and that value has the number |
| ReflectEnums.ValueByNumberOfValue | protobuf/src/reflect/enums/mod.rs:200-209 | looking up a value's number finds a value with that number, the value itself when there are no aliases |
| ReflectEnums.NumberDeterminesValue | protobuf/src/reflect/enums/mod.rs:200-209 | without aliases, two values with one number are the same value |
| ReflectEnums.ValueByNumberOrDefaultSpec | protobuf/src/reflect/enums/mod.rs:220-225 | the value declaring the number if there is one, else the default value |
| ReflectEnums.ValueByNameSpec | protobuf/src/reflect/enums/mod.rs:188-197 | lookup by name finds a value exactly for declared names, and that value has the name |
| ReflectEnums.CastSpec | protobuf/src/reflect/enums/mod.rs:95-100 | `cast` into another enum is `None`; into its own enum it is a variant with the same number, itself unless it is an alias |
| ReflectEnums.CastOfValueByNumber | protobuf/src/reflect/enums/mod.rs:95-100 | a value found by number casts to `from_i32` of that number, which is a variant |

## Left out

- Writing through `io::Write` is a sink that records bytes. I/O errors of the writer, the stream's own `io::Write` impl and its `Drop` flush-or-panic are not modelled; the raw-pointer and `MaybeUninit` buffer is an `array<byte>`.
- Floating-point writers (`write_float*`, `write_double*`, packed float/double) and the float formatting of proto defaults are not modelled. Stored float and double values are their bit patterns.
- Strings, nested messages, `write_message*`, `write_enum_obj*` and `write_enum_or_unknown*` go through the same byte, varint and length-delimited writes as bytes and int32, which are modelled.
- `Vec::reserve` follows Rust's growth policy (double, at least the need, at least 8), which is not part of this repository.
- `CodedInputStream` is not part of this model. Its reads are specification functions written from the wire format. Reading a varint32 keeps the low 32 bits of a varint64. Reading an int32 from a ten-byte varint truncates it.
- The `rt` helpers are not part of this model. `value_size`, `tag_size` and `unknown_fields_size` are defined from the encodings they measure. `read_map_into` is an insert into the map. `read_singular_message_into_field` replaces the field.
- `UnknownFields` is a `HashMap`. It is modelled as a list of (number, values) in iteration order, with new numbers added at the end. `write_unknown_fields` writes in that order.
- `my_size` is a `u64` that never overflows for any message that fits in memory. It is an unbounded `nat` here, and the `as u32` casts of cached sizes and length prefixes are explicit.
- The generated `merge_from` of an arbitrary message is modelled on a sequence of already-read records (tag plus payload), not on bytes. The byte-level decode is modelled for `Timestamp`, `Duration` and `MyMessage`.
- The generated `write_to_with_cached_sizes` of an arbitrary message is the function of the bytes it writes (`MessageGen.Encoding`). The stream calls are modelled only for the three generated messages.
- Messages stored in fields are values (their encoding), so nested `is_initialized` is a parameter, and aliasing of nested messages is not modelled.
- `RustType::clear` of each field resets it to the default slot value.
- `snake_case` and the Rust keyword list are inputs. Keywords are a constant set, and the snake-case name is given.
- The reflection indices built in `index.rs` are not part of this model. They are fields of the descriptor, with a predicate saying they agree with the declared values. Which alias the number index keeps is left open.
- Descriptor equality is equality of the modelled contents, not of the file descriptor and index.
- `EnumDescriptor::is` (a `TypeId` comparison) and the `Debug` impls are not modelled.
- Code-text emission (the `CodeWriter` output, accessors' Rust text, comments, insertion points) is not modelled. The decisions it prints are.
- Glue (`lib.rs`, reflection plumbing, `mod_rs.rs`, oneof reflection) is not modelled.
- MessageLifecycle.DefaultInitialized: a required group has no slot in the model, so `is_initialized` passes over it; the generated test for it would name a struct field that does not exist (see Findings).
- CodedOutput.CodedOutputStream.WriteDirect: on a Write target it adds the chunk written straight to the writer to `pos_of_buffer_start`, as the Vec branch does; the source's Write branch does not, so the model counts the direct write on both targets, the corrected half of the Findings row on coded_output_stream.rs:288-292.
- CodedOutput.CodedOutputStream.WriteRawBytes: on a Write target it keeps the corrected counters, so that `total_bytes_written` counts direct writes (see Findings).

## Findings

| source | as written | input that shows it | evidently intended | confidence | as-written member | corrected member |
|---|---|---|---|---|---|---|
| protobuf/src/coded_output_stream.rs:288-292 | on an `io::Write` target, a chunk at least as large as the buffer is written straight to the writer without adding its length to `pos_of_buffer_start` (the Vec branch does, line 297) | `write_raw_bytes` of 8193 bytes on a fresh `CodedOutputStream::new(writer)`: `total_bytes_written()` is 0 | `total_bytes_written` counts every byte written, as it does for Vec targets | not executed; read from the code | CodedOutput.WriteTargetUndercounts | CodedOutput.RawBytesCountersExact |
| protobuf-codegen/src/gen/message.rs:469-473 | `required_fields()` keeps a required group (lines 158-166), so `is_initialized` emits `if self.<name>.is_none()` for it, but `write_struct_field` (field/mod.rs:1125-1127) declares no struct field for a group | a proto2 message with a `required group` field: the generated `is_initialized` names a field the struct does not have | groups, which get no struct field, are passed over by `is_initialized` as they are by `clear` and `merge_from` | not executed; read from the code | MessageLifecycle.RequiredGroupCheckedWithoutField | MessageLifecycle.DefaultInitialized |
