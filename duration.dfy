// `google.protobuf.Duration` as generated: the same two proto3 fields with
// implicit presence as `Timestamp`, a signed span rather than a point in
// time, with the unknown fields it passes through and the cached size. Each
// method is proved against the functions of `SecondsNanos`.
module DurationPb {
  import opened Wrappers
  import opened WireFormat
  import opened Unknown
  import Scalar
  import opened SecondsNanos
  import CodedOutput

  class Duration {
    var seconds: i64
    var nanos: i32
    var unknownFields: UnknownFields
    var cachedSize: u32

    /** The message the fields hold, as the functions of `SecondsNanos` see it. */
    function Value(): Fields
      reads this
    {
      Fields(seconds, nanos, unknownFields)
    }

    /** `new` and `default_instance`: both fields zero, no unknown fields, no cached size. */
    constructor ()
      ensures Value() == Default && cachedSize == 0
    {
      seconds, nanos, unknownFields, cachedSize := 0, 0, [], 0;
    }

    /** `is_initialized`: a message without required fields is always initialized. */
    function IsInitialized(): (b: bool)
      ensures b
    {
      true
    }

    /** `merge_from`: until the input ends, read a tag and dispatch on it, tag 8
        into `seconds`, tag 16 into `nanos`, any other to the unknown fields;
        the first failed read ends the loop with its error and keeps what was
        merged before it. */
    method MergeFrom(input: seq<byte>) returns (r: Result<(), ReadError>)
      modifies this
      ensures Value() == Merge(old(Value()), input, 0).0
      ensures r.Ok? <==> Merge(old(Value()), input, 0).1.None?
      ensures r.Err? ==> r.error == Merge(old(Value()), input, 0).1.value
      ensures cachedSize == old(cachedSize)
    {
      var pos := 0;
      while pos < |input|
        invariant pos <= |input|
        invariant Merge(old(Value()), input, 0) == Merge(Value(), input, pos)
        invariant cachedSize == old(cachedSize)
        decreases |input| - pos
      {
        assert Merge(Value(), input, pos) == Turn(Value(), input, pos);
        match ReadRawVarint32(input, pos)
        case Err(e) =>
          return Err(e);
        case Ok((tag, p)) =>
          if tag == SECONDS_TAG {
            match Scalar.ReadNoTag(Scalar.Int64, input, p)
            case Err(e) =>
              return Err(e);
            case Ok((v, q)) =>
              seconds := v;
              pos := q;
          } else if tag == NANOS_TAG {
            match Scalar.ReadNoTag(Scalar.Int32, input, p)
            case Err(e) =>
              return Err(e);
            case Ok((v, q)) =>
              nanos := v;
              pos := q;
          } else {
            match ReadUnknownOrSkipGroup(input, p, tag)
            case Err(e) =>
              return Err(e);
            case Ok((None, q)) =>
              pos := q;
            case Ok((Some((n, u)), q)) =>
              unknownFields := AddValue(unknownFields, n, u);
              pos := q;
          }
      }
      return Ok(());
    }

    /** `compute_size`: the size of each non-zero field and of the unknown
        fields, accumulated; the total, cut to 32 bits, is cached. */
    method ComputeSize() returns (mySize: nat)
      modifies this
      ensures Value() == old(Value())
      ensures mySize == Size(Value())
      ensures Fits(unknownFields) ==> mySize == |Encode(Value())|
      ensures cachedSize == mySize % TWO_32
    {
      mySize := 0;
      if seconds != 0 {
        mySize := mySize + TagSize(1) + Scalar.NoTagSize(Scalar.Int64, seconds);
      }
      if nanos != 0 {
        mySize := mySize + TagSize(2) + Scalar.NoTagSize(Scalar.Int32, nanos);
      }
      mySize := mySize + UnknownFieldsSize(unknownFields);
      cachedSize := mySize % TWO_32;
      if Fits(unknownFields) {
        SizeIsLength(Value());
      }
    }

    /** `write_to_with_cached_sizes`: `seconds` then `nanos`, each only when
        non-zero, then the unknown fields; the first failed write ends it. */
    method WriteTo(os: CodedOutput.CodedOutputStream) returns (r: CodedOutput.Outcome)
      requires os.Valid()
      modifies os.Repr
      ensures os.Valid() && fresh(os.Repr - old(os.Repr))
      ensures Value() == old(Value())
      ensures os.Appended(old(os.written), Encode(Value()), r)
    {
      ghost var w0 := os.written;
      r := WriteFieldsOf(os, seconds, nanos);
      ghost var w1, ok1 := os.written, r.Ok?;
      if r.Ok? {
        r := os.WriteUnknownFields(unknownFields);
      }
      CodedOutput.Chain(w0, w1, os.written, SecondsPart(seconds) + NanosPart(nanos), EncodeUnknownFields(unknownFields),
                        ok1, r.Ok?, os.target.BytesTarget?, os.SliceLength());
    }

    /** `clear`: both fields back to zero and the unknown fields emptied. */
    method Clear()
      modifies this
      ensures Value() == Default
      ensures cachedSize == old(cachedSize)
    {
      seconds := 0;
      nanos := 0;
      unknownFields := [];
    }
  }
}
