// `MyMessage` as generated for a message without fields: all it holds is the
// unknown fields, so its decode loop sends every tag to
// `read_unknown_or_skip_group`, and it writes back exactly those fields.
module DoctestPb {
  import opened Wrappers
  import opened WireFormat
  import opened Unknown
  import CodedOutput

  /** `merge_from` on the input from `pos`: turn after turn until the end of
      the input, the first error ending the loop. The unknown fields reached
      are returned with the error, if any: those added before the failed read
      stay in the message. */
  function Merge(us: UnknownFields, s: seq<byte>, pos: nat): (UnknownFields, Option<ReadError>)
    requires pos <= |s|
    decreases |s| - pos, 1
  {
    if pos == |s| then (us, None) else Turn(us, s, pos)
  }

  /** A turn of the loop before the end of the input: whatever the tag, the
      value it introduces goes to the unknown fields (a group is skipped). */
  function Turn(us: UnknownFields, s: seq<byte>, pos: nat): (UnknownFields, Option<ReadError>)
    requires pos < |s|
    decreases |s| - pos, 0
  {
    match ReadRawVarint32(s, pos)
    case Err(e) => (us, Some(e))
    case Ok((tag, p)) =>
      match ReadUnknownOrSkipGroup(s, p, tag)
      case Err(e) => (us, Some(e))
      case Ok((None, q)) => Merge(us, s, q)
      case Ok((Some((n, u)), q)) => Merge(AddValue(us, n, u), s, q)
  }

  /** Every value of field `n` has a payload length that fits a u32. */
  predicate ValuesFit(vs: seq<UnknownValue>)
  {
    forall j :: 0 <= j < |vs| ==> ValueFits(vs[j])
  }

  // ---------------------------------------------------------------- decoding

  /** What the loop returns when it resumes at `pos` with `us` collected. */
  ghost function Rest(us: UnknownFields, s: seq<byte>, pos: nat): (UnknownFields, Option<ReadError>)
    requires pos <= |s|
  {
    Merge(us, s, pos)
  }

  /** A tagged value, whatever its field number, is added to the unknown fields. */
  lemma MergeValue(us: UnknownFields, s: seq<byte>, pos: nat, n: FieldNumber, u: UnknownValue) returns (q: nat)
    requires ValueFits(u) && At(s, pos, EncodeValue(n, u))
    ensures q == pos + |EncodeValue(n, u)|
    ensures Rest(us, s, pos) == Rest(AddValue(us, n, u), s, q)
  {
    var p;
    p, q := ReadEncodedValue(s, pos, n, u);
    assert Rest(us, s, pos) == Merge(us, s, pos) == Turn(us, s, pos);
  }

  /** The values of one field, read in turn, are added in turn. */
  lemma {:induction false} MergeValues(us: UnknownFields, s: seq<byte>, pos: nat, n: FieldNumber, vs: seq<UnknownValue>)
    returns (q: nat)
    requires ValuesFit(vs) && At(s, pos, EncodeValues(n, vs))
    ensures q == pos + |EncodeValues(n, vs)|
    ensures Rest(us, s, pos) == Rest(AddValues(us, n, vs), s, q)
  {
    if vs == [] {
      q := pos;
    } else {
      var init, last := vs[..|vs| - 1], vs[|vs| - 1];
      AtSplit(s, pos, EncodeValues(n, vs), EncodeValues(n, init), EncodeValue(n, last));
      var q1 := MergeValues(us, s, pos, n, init);
      q := MergeValue(AddValues(us, n, init), s, q1, n, last);
    }
  }

  /** The fields before the last, and the values of the last, fit as the whole does. */
  lemma FitsSplit(gs: UnknownFields)
    requires gs != [] && Fits(gs)
    ensures Fits(gs[..|gs| - 1]) && ValuesFit(gs[|gs| - 1].values)
  {
    var init := gs[..|gs| - 1];
    forall i, j | 0 <= i < |init| && 0 <= j < |init[i].values|
      ensures ValueFits(init[i].values[j])
    {
      assert init[i] == gs[i];
    }
  }

  /** The unknown fields, read field by field, are added field by field. */
  lemma {:induction false} MergeFields(us: UnknownFields, s: seq<byte>, pos: nat, gs: UnknownFields) returns (q: nat)
    requires Fits(gs) && At(s, pos, EncodeUnknownFields(gs))
    ensures q == pos + |EncodeUnknownFields(gs)|
    ensures Rest(us, s, pos) == Rest(AddFields(us, gs), s, q)
  {
    if gs == [] {
      q := pos;
    } else {
      var init, last := gs[..|gs| - 1], gs[|gs| - 1];
      AtSplit(s, pos, EncodeUnknownFields(gs), EncodeUnknownFields(init), EncodeValues(last.number, last.values));
      FitsSplit(gs);
      var q1 := MergeFields(us, s, pos, init);
      q := MergeValues(AddFields(us, init), s, q1, last.number, last.values);
    }
  }

  /** Decoding what `write_to_with_cached_sizes` wrote gives the message back. */
  lemma RoundTrip(gs: UnknownFields)
    requires Normalized(gs) && Fits(gs)
    ensures Merge([], EncodeUnknownFields(gs), 0) == (gs, None)
  {
    var s := EncodeUnknownFields(gs);
    AtWhole(s);
    var q := MergeFields([], s, 0, gs);
    AddFieldsRebuilds(gs);
  }

  /** Tags 8 and 16, which `Timestamp` and `Duration` claim, are unknown here
      like any other. */
  lemma EveryTagKeptUnknown(us: UnknownFields, n: FieldNumber, u: UnknownValue)
    requires ValueFits(u)
    ensures Merge(us, EncodeValue(n, u), 0) == (AddValue(us, n, u), None)
  {
    var s := EncodeValue(n, u);
    AtWhole(s);
    var q := MergeValue(us, s, 0, n, u);
  }

  /** A zero byte, the tag of field number 0, as the last byte of the input:
      the read rejects it. */
  lemma ZeroTagAtEnd(us: UnknownFields, s: seq<byte>, q: nat)
    requires q + 1 == |s| && s[q] == 0
    ensures Rest(us, s, q) == (us, Some(InvalidTag(0)))
  {
    assert DecodeVarintFrom(s, q, 0) == Ok((0, q + 1));
    assert Rest(us, s, q) == Turn(us, s, q);
  }

  /** A read that fails after a complete record ends the loop with that record
      already added: here a zero byte, the invalid tag of field number 0. */
  lemma FailureKeepsEarlier(us: UnknownFields, n: FieldNumber, u: UnknownValue)
    requires ValueFits(u)
    ensures Merge(us, EncodeValue(n, u) + [0], 0) == (AddValue(us, n, u), Some(InvalidTag(0)))
  {
    var e := EncodeValue(n, u);
    var s := e + [0];
    AtWhole(s);
    AtSplit(s, 0, s, e, [0]);
    var q := MergeValue(us, s, 0, n, u);
    ZeroTagAtEnd(AddValue(us, n, u), s, q);
  }

  // ---------------------------------------------------------------- the class

  class MyMessage {
    var unknownFields: UnknownFields
    var cachedSize: u32

    /** `new` and `default_instance`: no unknown fields, no cached size. */
    constructor ()
      ensures unknownFields == [] && cachedSize == 0
    {
      unknownFields, cachedSize := [], 0;
    }

    /** `is_initialized`: a message without required fields is always initialized. */
    function IsInitialized(): (b: bool)
      ensures b
    {
      true
    }

    /** `merge_from`: until the input ends, read a tag and hand it to
        `read_unknown_or_skip_group`; the first failed read ends the loop and
        keeps the fields added before it. */
    method MergeFrom(input: seq<byte>) returns (r: Result<(), ReadError>)
      modifies this
      ensures unknownFields == Merge(old(unknownFields), input, 0).0
      ensures r.Ok? <==> Merge(old(unknownFields), input, 0).1.None?
      ensures r.Err? ==> r.error == Merge(old(unknownFields), input, 0).1.value
      ensures cachedSize == old(cachedSize)
    {
      var pos := 0;
      while pos < |input|
        invariant pos <= |input|
        invariant Merge(old(unknownFields), input, 0) == Merge(unknownFields, input, pos)
        invariant cachedSize == old(cachedSize)
        decreases |input| - pos
      {
        assert Merge(unknownFields, input, pos) == Turn(unknownFields, input, pos);
        match ReadRawVarint32(input, pos)
        case Err(e) =>
          return Err(e);
        case Ok((tag, p)) =>
          match ReadUnknownOrSkipGroup(input, p, tag)
          case Err(e) =>
            return Err(e);
          case Ok((None, q)) =>
            pos := q;
          case Ok((Some((n, u)), q)) =>
            unknownFields := AddValue(unknownFields, n, u);
            pos := q;
      }
      return Ok(());
    }

    /** `compute_size`: the size of the unknown fields, which is the number of
        bytes they are written as; the total, cut to 32 bits, is cached. */
    method ComputeSize() returns (mySize: nat)
      modifies this
      ensures unknownFields == old(unknownFields)
      ensures mySize == UnknownFieldsSize(unknownFields)
      ensures Fits(unknownFields) ==> mySize == |EncodeUnknownFields(unknownFields)|
      ensures cachedSize == mySize % TWO_32
    {
      mySize := 0;
      mySize := mySize + UnknownFieldsSize(unknownFields);
      cachedSize := mySize % TWO_32;
      if Fits(unknownFields) {
        UnknownFieldsSizeIsLength(unknownFields);
      }
    }

    /** `write_to_with_cached_sizes`: the unknown fields and nothing else. */
    method WriteTo(os: CodedOutput.CodedOutputStream) returns (r: CodedOutput.Outcome)
      requires os.Valid()
      modifies os.Repr
      ensures os.Valid() && fresh(os.Repr - old(os.Repr))
      ensures unknownFields == old(unknownFields)
      ensures os.Appended(old(os.written), EncodeUnknownFields(unknownFields), r)
    {
      r := os.WriteUnknownFields(unknownFields);
    }

    /** `clear`: the unknown fields emptied, which is the default instance. */
    method Clear()
      modifies this
      ensures unknownFields == []
      ensures cachedSize == old(cachedSize)
    {
      unknownFields := [];
    }
  }
}
