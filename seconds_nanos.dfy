// The code the generator emits for a proto3 message whose only fields are
// `int64 seconds = 1` and `int32 nanos = 2`, both with implicit presence:
// `google.protobuf.Timestamp` and `google.protobuf.Duration` are both this
// message. Its encoding, its computed size and its decode loop, as functions
// of the field values, and what they promise about each other.
module SecondsNanos {
  import opened Wrappers
  import opened WireFormat
  import opened Unknown
  import Scalar
  import CodedOutput

  datatype Fields = Fields(seconds: i64, nanos: i32, unknown: UnknownFields)

  /** The default instance: both fields zero, no unknown fields. */
  const Default: Fields := Fields(0, 0, [])

  /** The two tags the decode loop claims: field 1 and field 2 as varints. */
  const SECONDS_TAG: u32 := 8
  const NANOS_TAG: u32 := 16

  /** `write_to_with_cached_sizes`: `seconds` as an int64, then `nanos` as an
      int32, each only when non-zero, then the unknown fields. */
  function Encode(m: Fields): seq<byte>
  {
    SecondsPart(m.seconds) + NanosPart(m.nanos) + EncodeUnknownFields(m.unknown)
  }

  /** The bytes written for `seconds`: none when it is zero. */
  function SecondsPart(v: i64): seq<byte>
  {
    if v != 0 then Scalar.Field(Scalar.Int64, 1, v) else []
  }

  /** The bytes written for `nanos`: none when it is zero. */
  function NanosPart(v: i32): seq<byte>
  {
    if v != 0 then Scalar.Field(Scalar.Int32, 2, v) else []
  }

  /** `compute_size`: `value_size` of each non-zero field plus `unknown_fields_size`. */
  function Size(m: Fields): nat
  {
    (if m.seconds != 0 then TagSize(1) + Scalar.NoTagSize(Scalar.Int64, m.seconds) else 0)
    + (if m.nanos != 0 then TagSize(2) + Scalar.NoTagSize(Scalar.Int32, m.nanos) else 0)
    + UnknownFieldsSize(m.unknown)
  }

  /** One turn of the `merge_from` loop once its tag is read: tag 8 reads an
      int64 into `seconds`, tag 16 an int32 into `nanos`, and every other tag
      goes to `read_unknown_or_skip_group`. */
  function MergeField(m: Fields, s: seq<byte>, pos: nat, tag: u32): (r: Result<(Fields, nat), ReadError>)
    ensures r.Ok? ==> pos < r.value.1 <= |s|
  {
    if tag == SECONDS_TAG then
      match Scalar.ReadNoTag(Scalar.Int64, s, pos)
      case Err(e) => Err(e)
      case Ok((v, p)) => Ok((Fields(v, m.nanos, m.unknown), p))
    else if tag == NANOS_TAG then
      match Scalar.ReadNoTag(Scalar.Int32, s, pos)
      case Err(e) => Err(e)
      case Ok((v, p)) => Ok((Fields(m.seconds, v, m.unknown), p))
    else
      match ReadUnknownOrSkipGroup(s, pos, tag)
      case Err(e) => Err(e)
      case Ok((None, p)) => Ok((m, p))
      case Ok((Some((n, u)), p)) => Ok((Fields(m.seconds, m.nanos, AddValue(m.unknown, n, u)), p))
  }

  /** `merge_from` on the input from `pos`: turn after turn until the end of
      the input, the first error ending the loop. The message reached is
      returned with the error, if any: the `?` that returns it leaves the
      fields merged before the failed read in place. */
  function Merge(m: Fields, s: seq<byte>, pos: nat): (Fields, Option<ReadError>)
    requires pos <= |s|
    decreases |s| - pos, 1
  {
    if pos == |s| then (m, None) else Turn(m, s, pos)
  }

  /** A turn of the `merge_from` loop, before the end of the input: a tag,
      then the field it introduces, then the turns after it. */
  function Turn(m: Fields, s: seq<byte>, pos: nat): (Fields, Option<ReadError>)
    requires pos < |s|
    decreases |s| - pos, 0
  {
    match ReadRawVarint32(s, pos)
    case Err(e) => (m, Some(e))
    case Ok((tag, p)) =>
      match MergeField(m, s, p, tag)
      case Err(e) => (m, Some(e))
      case Ok((m', q)) => Merge(m', s, q)
  }

  /** What merging the encoding of `m` into `m0` yields: each non-zero field
      of `m` replaces that of `m0`, and the unknown values of `m` are added
      to those of `m0`. */
  function MergedInto(m0: Fields, m: Fields): Fields
  {
    Fields(
      if m.seconds != 0 then m.seconds else m0.seconds,
      if m.nanos != 0 then m.nanos else m0.nanos,
      AddFields(m0.unknown, m.unknown))
  }

  /** An unknown value whose tag the decode loop does not claim for a declared field. */
  predicate Unclaimed(n: FieldNumber, u: UnknownValue)
  {
    TagValue(n, WireTypeOf(u)) != SECONDS_TAG && TagValue(n, WireTypeOf(u)) != NANOS_TAG
  }

  predicate AllUnclaimed(fs: UnknownFields)
  {
    forall i, j :: 0 <= i < |fs| && 0 <= j < |fs[i].values| ==> Unclaimed(fs[i].number, fs[i].values[j])
  }

  /** A message whose unknown fields could have come from decoding: one
      non-empty entry per number, payload lengths that fit a u32, and no value
      under a tag of a declared field. */
  predicate Decodable(m: Fields)
  {
    Normalized(m.unknown) && Fits(m.unknown) && AllUnclaimed(m.unknown)
  }

  /** What the generated `write_to_with_cached_sizes` does for one field with
      implicit presence: write it, tagged, only when it is non-zero. */
  method WriteIfNonZero(os: CodedOutput.CodedOutputStream, k: Scalar.ScalarKind, n: FieldNumber, v: int)
    returns (r: CodedOutput.Outcome)
    requires os.Valid() && Scalar.InRange(k, v)
    modifies os.Repr
    ensures os.Valid() && fresh(os.Repr - old(os.Repr))
    ensures os.Appended(old(os.written), if v != 0 then Scalar.Field(k, n, v) else [], r)
  {
    if v != 0 {
      r := os.WriteScalar(k, n, v);
    } else {
      os.WrittenFits();
      r := Ok(());
    }
  }

  /** The declared fields of `write_to_with_cached_sizes`: `seconds` as an
      int64, then `nanos` as an int32, each only when non-zero, the second
      only after the first succeeded. */
  method WriteFieldsOf(os: CodedOutput.CodedOutputStream, seconds: i64, nanos: i32) returns (r: CodedOutput.Outcome)
    requires os.Valid()
    modifies os.Repr
    ensures os.Valid() && fresh(os.Repr - old(os.Repr))
    ensures os.Appended(old(os.written), SecondsPart(seconds) + NanosPart(nanos), r)
  {
    ghost var w0 := os.written;
    r := WriteIfNonZero(os, Scalar.Int64, 1, seconds);
    ghost var w1, ok1 := os.written, r.Ok?;
    if r.Ok? {
      r := WriteIfNonZero(os, Scalar.Int32, 2, nanos);
    }
    CodedOutput.Chain(w0, w1, os.written, SecondsPart(seconds), NanosPart(nanos), ok1, r.Ok?, os.target.BytesTarget?, os.SliceLength());
  }

  // ---------------------------------------------------------------- size

  /** The size `compute_size` returns is the number of bytes written. */
  lemma SizeIsLength(m: Fields)
    requires Fits(m.unknown)
    ensures Size(m) == |Encode(m)|
  {
    UnknownFieldsSizeIsLength(m.unknown);
    if m.seconds != 0 {
      TagSizeIsLength(1, Varint);
      Scalar.NoTagSizeIsLength(Scalar.Int64, m.seconds);
    }
    if m.nanos != 0 {
      TagSizeIsLength(2, Varint);
      Scalar.NoTagSizeIsLength(Scalar.Int32, m.nanos);
    }
  }

  /** A negative field is non-zero, so it is written, and as an eleven-byte
      field: the tag and a ten-byte varint of the value sign-extended to 64 bits. */
  lemma NegativeFieldsWritten(m: Fields)
    ensures m.seconds < 0 ==>
      |Scalar.Field(Scalar.Int64, 1, m.seconds)| == 11 && Encode(m)[..11] == Scalar.Field(Scalar.Int64, 1, m.seconds)
    ensures m.seconds == 0 && m.nanos < 0 ==>
      |Scalar.Field(Scalar.Int32, 2, m.nanos)| == 11 && Encode(m)[..11] == Scalar.Field(Scalar.Int32, 2, m.nanos)
  {
    assert |TagBytes(1, Varint)| == 1 && |TagBytes(2, Varint)| == 1;
    if m.seconds < 0 {
      VarintSizeIsLength(I64AsU64(m.seconds));
    }
    if m.nanos < 0 {
      VarintSizeIsLength(I32AsU64(m.nanos));
    }
  }

  // ---------------------------------------------------------------- decoding

  // Each lemma below returns the position where the loop stands after the
  // bytes it is about, so that the next one starts from that same term.

  /** What the loop returns when it resumes at `pos` with `m` decoded so far. */
  ghost function Rest(m: Fields, s: seq<byte>, pos: nat): (Fields, Option<ReadError>)
    requires pos <= |s|
  {
    Merge(m, s, pos)
  }

  /** Tag 8 followed by an int64 sets `seconds`, whatever it held. */
  lemma MergeSecondsField(m: Fields, s: seq<byte>, pos: nat, v: i64) returns (q: nat)
    requires At(s, pos, Scalar.Field(Scalar.Int64, 1, v))
    ensures q == pos + |Scalar.Field(Scalar.Int64, 1, v)|
    ensures Rest(m, s, pos) == Rest(Fields(v, m.nanos, m.unknown), s, q)
  {
    var p;
    p, q := Scalar.ReadFieldRoundTrip(Scalar.Int64, 1, v, s, pos);
    assert TagValue(1, Scalar.WireTypeOf(Scalar.Int64)) == SECONDS_TAG;
    MergeSecondsStep(m, s, pos, p, v, q);
  }

  lemma MergeSecondsStep(m: Fields, s: seq<byte>, pos: nat, p: nat, v: i64, q: nat)
    requires pos < |s| && ReadRawVarint32(s, pos) == Ok((SECONDS_TAG, p))
    requires Scalar.ReadNoTag(Scalar.Int64, s, p) == Ok((v, q))
    ensures Rest(m, s, pos) == Rest(Fields(v, m.nanos, m.unknown), s, q)
  {
    assert Rest(m, s, pos) == Merge(m, s, pos) == Turn(m, s, pos);
  }

  /** Tag 16 followed by an int32 sets `nanos`, whatever it held. */
  lemma MergeNanosField(m: Fields, s: seq<byte>, pos: nat, v: i32) returns (q: nat)
    requires At(s, pos, Scalar.Field(Scalar.Int32, 2, v))
    ensures q == pos + |Scalar.Field(Scalar.Int32, 2, v)|
    ensures Rest(m, s, pos) == Rest(Fields(m.seconds, v, m.unknown), s, q)
  {
    var p;
    p, q := Scalar.ReadFieldRoundTrip(Scalar.Int32, 2, v, s, pos);
    assert TagValue(2, Scalar.WireTypeOf(Scalar.Int32)) == NANOS_TAG;
    MergeNanosStep(m, s, pos, p, v, q);
  }

  lemma MergeNanosStep(m: Fields, s: seq<byte>, pos: nat, p: nat, v: i32, q: nat)
    requires pos < |s| && ReadRawVarint32(s, pos) == Ok((NANOS_TAG, p))
    requires Scalar.ReadNoTag(Scalar.Int32, s, p) == Ok((v, q))
    ensures Rest(m, s, pos) == Rest(Fields(m.seconds, v, m.unknown), s, q)
  {
    assert Rest(m, s, pos) == Merge(m, s, pos) == Turn(m, s, pos);
  }

  /** Any tag but 8 and 16 goes to the unknown fields. */
  lemma MergeUnknownValue(m: Fields, s: seq<byte>, pos: nat, n: FieldNumber, u: UnknownValue) returns (q: nat)
    requires ValueFits(u) && Unclaimed(n, u) && At(s, pos, EncodeValue(n, u))
    ensures q == pos + |EncodeValue(n, u)|
    ensures Rest(m, s, pos) == Rest(Fields(m.seconds, m.nanos, AddValue(m.unknown, n, u)), s, q)
  {
    var tag, p;
    tag, p, q := ReadUnclaimed(s, pos, n, u);
    MergeUnknownStep(m, s, pos, tag, p, n, u, q);
  }

  /** The tag and the value of an unclaimed value, read back; the tag is
      returned without its make-up, which the loop does not need. */
  lemma ReadUnclaimed(s: seq<byte>, pos: nat, n: FieldNumber, u: UnknownValue) returns (tag: u32, p: nat, q: nat)
    requires ValueFits(u) && Unclaimed(n, u) && At(s, pos, EncodeValue(n, u))
    ensures tag != SECONDS_TAG && tag != NANOS_TAG
    ensures q == pos + |EncodeValue(n, u)|
    ensures ReadRawVarint32(s, pos) == Ok((tag, p))
    ensures ReadUnknownOrSkipGroup(s, p, tag) == Ok((Some((n, u)), q))
  {
    tag := TagValue(n, WireTypeOf(u));
    p, q := ReadEncodedValue(s, pos, n, u);
  }

  /** One turn of the loop on a tag the message does not declare. */
  lemma MergeUnknownStep(m: Fields, s: seq<byte>, pos: nat, tag: u32, p: nat, n: FieldNumber, u: UnknownValue, q: nat)
    requires pos < |s| && ReadRawVarint32(s, pos) == Ok((tag, p))
    requires tag != SECONDS_TAG && tag != NANOS_TAG
    requires ReadUnknownOrSkipGroup(s, p, tag) == Ok((Some((n, u)), q))
    ensures Rest(m, s, pos) == Rest(Fields(m.seconds, m.nanos, AddValue(m.unknown, n, u)), s, q)
  {
    assert Rest(m, s, pos) == Merge(m, s, pos) == Turn(m, s, pos);
  }

  /** The values of one unknown field, read in turn, are added in turn. */
  lemma {:induction false} MergeValues(m: Fields, s: seq<byte>, pos: nat, n: FieldNumber, vs: seq<UnknownValue>)
    returns (q: nat)
    requires ValuesUnclaimed(n, vs)
    requires At(s, pos, EncodeValues(n, vs))
    ensures q == pos + |EncodeValues(n, vs)|
    ensures Rest(m, s, pos) == Rest(Fields(m.seconds, m.nanos, AddValues(m.unknown, n, vs)), s, q)
  {
    if vs == [] {
      q := pos;
    } else {
      var init, last := vs[..|vs| - 1], vs[|vs| - 1];
      AtSplit(s, pos, EncodeValues(n, vs), EncodeValues(n, init), EncodeValue(n, last));
      var q1 := MergeValues(m, s, pos, n, init);
      q := MergeUnknownValue(Fields(m.seconds, m.nanos, AddValues(m.unknown, n, init)), s, q1, n, last);
      assert AddValue(AddValues(m.unknown, n, init), n, last) == AddValues(m.unknown, n, vs);
    }
  }

  /** The unknown fields, read field by field, are added field by field. */
  lemma {:induction false} MergeUnknownFields(m: Fields, s: seq<byte>, pos: nat, gs: UnknownFields) returns (q: nat)
    requires Fits(gs) && AllUnclaimed(gs)
    requires At(s, pos, EncodeUnknownFields(gs))
    ensures q == pos + |EncodeUnknownFields(gs)|
    ensures Rest(m, s, pos) == Rest(Fields(m.seconds, m.nanos, AddFields(m.unknown, gs)), s, q)
  {
    if gs == [] {
      q := pos;
    } else {
      var init, last := gs[..|gs| - 1], gs[|gs| - 1];
      AtSplit(s, pos, EncodeUnknownFields(gs), EncodeUnknownFields(init), EncodeValues(last.number, last.values));
      UnclaimedSplit(gs);
      var q1 := MergeUnknownFields(m, s, pos, init);
      q := MergeValues(Fields(m.seconds, m.nanos, AddFields(m.unknown, init)), s, q1, last.number, last.values);
      assert AddValues(AddFields(m.unknown, init), last.number, last.values) == AddFields(m.unknown, gs);
    }
  }

  /** Every value of field `n` fits and is not claimed by a declared field. */
  predicate ValuesUnclaimed(n: FieldNumber, vs: seq<UnknownValue>)
  {
    forall j :: 0 <= j < |vs| ==> ValueFits(vs[j]) && Unclaimed(n, vs[j])
  }

  /** The fields before the last, and the values of the last, keep the
      preconditions of the whole. */
  lemma UnclaimedSplit(gs: UnknownFields)
    requires gs != [] && Fits(gs) && AllUnclaimed(gs)
    ensures Fits(gs[..|gs| - 1]) && AllUnclaimed(gs[..|gs| - 1])
    ensures ValuesUnclaimed(gs[|gs| - 1].number, gs[|gs| - 1].values)
  {
    var init := gs[..|gs| - 1];
    forall i, j | 0 <= i < |init| && 0 <= j < |init[i].values|
      ensures ValueFits(init[i].values[j]) && Unclaimed(init[i].number, init[i].values[j])
    {
      assert init[i] == gs[i];
    }
  }

  /** The `seconds` part of an encoding sets `seconds` when it is non-empty. */
  lemma MergeSecondsPart(m0: Fields, s: seq<byte>, pos: nat, v: i64) returns (m1: Fields, q: nat)
    requires At(s, pos, SecondsPart(v))
    ensures m1 == Fields(if v != 0 then v else m0.seconds, m0.nanos, m0.unknown)
    ensures q == pos + |SecondsPart(v)|
    ensures Rest(m0, s, pos) == Rest(m1, s, q)
  {
    if v != 0 {
      m1 := Fields(v, m0.nanos, m0.unknown);
      q := MergeSecondsField(m0, s, pos, v);
    } else {
      m1, q := m0, pos;
    }
  }

  /** The `nanos` part of an encoding sets `nanos` when it is non-empty. */
  lemma MergeNanosPart(m1: Fields, s: seq<byte>, pos: nat, v: i32) returns (m2: Fields, q: nat)
    requires At(s, pos, NanosPart(v))
    ensures m2 == Fields(m1.seconds, if v != 0 then v else m1.nanos, m1.unknown)
    ensures q == pos + |NanosPart(v)|
    ensures Rest(m1, s, pos) == Rest(m2, s, q)
  {
    if v != 0 {
      m2 := Fields(m1.seconds, v, m1.unknown);
      q := MergeNanosField(m1, s, pos, v);
    } else {
      m2, q := m1, pos;
    }
  }

  /** The three parts of `Encode(m)`, found at `pos`, each at its own offset. */
  lemma EncodedSplit(s: seq<byte>, pos: nat, m: Fields)
    requires At(s, pos, Encode(m))
    ensures At(s, pos, SecondsPart(m.seconds))
    ensures At(s, pos + |SecondsPart(m.seconds)|, NanosPart(m.nanos))
    ensures At(s, pos + |SecondsPart(m.seconds)| + |NanosPart(m.nanos)|, EncodeUnknownFields(m.unknown))
  {
    var a, b, c := SecondsPart(m.seconds), NanosPart(m.nanos), EncodeUnknownFields(m.unknown);
    AtSplit(s, pos, Encode(m), a + b, c);
    AtSplit(s, pos, a + b, a, b);
  }

  /** Decoding the encoding of `m`, found at `pos`, merges `m` into the
      message decoded so far. */
  lemma MergeEncoded(m0: Fields, s: seq<byte>, pos: nat, m: Fields) returns (m3: Fields, p3: nat)
    requires Fits(m.unknown) && AllUnclaimed(m.unknown)
    requires At(s, pos, Encode(m))
    ensures m3 == MergedInto(m0, m) && p3 == pos + |Encode(m)|
    ensures Rest(m0, s, pos) == Rest(m3, s, p3)
  {
    EncodedSplit(s, pos, m);
    var m2, p2 := MergeHead(m0, s, pos, m.seconds, m.nanos);
    p3 := MergeUnknownFields(m2, s, p2, m.unknown);
    m3 := Fields(m2.seconds, m2.nanos, AddFields(m2.unknown, m.unknown));
  }

  /** The `seconds` part followed by the `nanos` part. */
  lemma MergeHead(m0: Fields, s: seq<byte>, pos: nat, sec: i64, nan: i32) returns (m2: Fields, p2: nat)
    requires At(s, pos, SecondsPart(sec))
    requires At(s, pos + |SecondsPart(sec)|, NanosPart(nan))
    ensures m2 == Fields(if sec != 0 then sec else m0.seconds, if nan != 0 then nan else m0.nanos, m0.unknown)
    ensures p2 == pos + |SecondsPart(sec)| + |NanosPart(nan)|
    ensures Rest(m0, s, pos) == Rest(m2, s, p2)
  {
    var m1, p1 := MergeSecondsPart(m0, s, pos, sec);
    m2, p2 := MergeNanosPart(m1, s, p1, nan);
  }

  /** Decoding what `write_to_with_cached_sizes` wrote gives the message back. */
  lemma RoundTrip(m: Fields)
    requires Decodable(m)
    ensures Merge(Default, Encode(m), 0) == (m, None)
  {
    var s := Encode(m);
    AtWhole(s);
    var m3, p3 := MergeEncoded(Default, s, 0, m);
    AddFieldsRebuilds(m.unknown);
  }

  /** A `seconds` field that occurs twice keeps the value of its last occurrence. */
  lemma LastSecondsWins(m: Fields, a: i64, b: i64)
    ensures Merge(m, Scalar.Field(Scalar.Int64, 1, a) + Scalar.Field(Scalar.Int64, 1, b), 0) == (Fields(b, m.nanos, m.unknown), None)
  {
    var s := Scalar.Field(Scalar.Int64, 1, a) + Scalar.Field(Scalar.Int64, 1, b);
    AtWhole(s);
    AtSplit(s, 0, s, Scalar.Field(Scalar.Int64, 1, a), Scalar.Field(Scalar.Int64, 1, b));
    var q1 := MergeSecondsField(m, s, 0, a);
    var q2 := MergeSecondsField(Fields(a, m.nanos, m.unknown), s, q1, b);
  }

  /** A `nanos` field that occurs twice keeps the value of its last occurrence. */
  lemma LastNanosWins(m: Fields, x: i32, y: i32)
    ensures Merge(m, Scalar.Field(Scalar.Int32, 2, x) + Scalar.Field(Scalar.Int32, 2, y), 0) == (Fields(m.seconds, y, m.unknown), None)
  {
    var s := Scalar.Field(Scalar.Int32, 2, x) + Scalar.Field(Scalar.Int32, 2, y);
    AtWhole(s);
    AtSplit(s, 0, s, Scalar.Field(Scalar.Int32, 2, x), Scalar.Field(Scalar.Int32, 2, y));
    var q1 := MergeNanosField(m, s, 0, x);
    var q2 := MergeNanosField(Fields(m.seconds, x, m.unknown), s, q1, y);
  }

  /** A value under any tag but 8 and 16 is kept as an unknown field. */
  lemma OtherTagsKeptUnknown(m: Fields, n: FieldNumber, u: UnknownValue)
    requires ValueFits(u) && Unclaimed(n, u)
    ensures Merge(m, EncodeValue(n, u), 0) == (Fields(m.seconds, m.nanos, AddValue(m.unknown, n, u)), None)
  {
    var s := EncodeValue(n, u);
    AtWhole(s);
    var q := MergeUnknownValue(m, s, 0, n, u);
  }

  /** A tag 8 as the last byte of the input: the read of its value fails. */
  lemma SecondsTagAtEnd(m: Fields, s: seq<byte>, q: nat)
    requires q + 1 == |s| && s[q] == 8
    ensures Rest(m, s, q) == (m, Some(UnexpectedEof))
  {
    assert DecodeVarintFrom(s, q, 0) == Ok((8, q + 1));
    assert Rest(m, s, q) == Turn(m, s, q);
  }

  /** A read that fails after a complete `seconds` field ends the loop with
      that field already merged: here a second tag 8 with no value after it. */
  lemma TruncatedKeepsEarlier(m: Fields, a: i64)
    ensures Merge(m, Scalar.Field(Scalar.Int64, 1, a) + [8], 0) == (Fields(a, m.nanos, m.unknown), Some(UnexpectedEof))
  {
    var f := Scalar.Field(Scalar.Int64, 1, a);
    var s := f + [8];
    AtWhole(s);
    AtSplit(s, 0, s, f, [8]);
    var q := MergeSecondsField(m, s, 0, a);
    SecondsTagAtEnd(Fields(a, m.nanos, m.unknown), s, q);
  }
}
