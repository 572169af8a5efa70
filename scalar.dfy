// Scalar field values on the wire: which primitive write each scalar type
// uses, the size the runtime computes for it, the packed encoding of a run of
// values, and the reads that invert each encoding.
module Scalar {
  import opened Wrappers
  import opened WireFormat

  /** The non-floating-point scalar types of protobuf. Values of every kind
      are carried as integers; a bool is 0 or 1. */
  datatype ScalarKind =
    | UInt64 | UInt32 | Int64 | Int32 | SInt64 | SInt32
    | Fixed64 | Fixed32 | SFixed64 | SFixed32 | Bool | Enum

  predicate InRange(k: ScalarKind, v: int)
  {
    match k
    case UInt64 => 0 <= v < TWO_64
    case Fixed64 => 0 <= v < TWO_64
    case UInt32 => 0 <= v < TWO_32
    case Fixed32 => 0 <= v < TWO_32
    case Int64 => -TWO_63 <= v < TWO_63
    case SInt64 => -TWO_63 <= v < TWO_63
    case SFixed64 => -TWO_63 <= v < TWO_63
    case Int32 => -0x8000_0000 <= v < 0x8000_0000
    case SInt32 => -0x8000_0000 <= v < 0x8000_0000
    case SFixed32 => -0x8000_0000 <= v < 0x8000_0000
    case Enum => -0x8000_0000 <= v < 0x8000_0000
    case Bool => v == 0 || v == 1
  }

  predicate AllInRange(k: ScalarKind, vs: seq<int>)
  {
    forall i :: 0 <= i < |vs| ==> InRange(k, vs[i])
  }

  function WireTypeOf(k: ScalarKind): WireType
  {
    match k
    case Fixed64 => WireType.Fixed64
    case SFixed64 => WireType.Fixed64
    case Fixed32 => WireType.Fixed32
    case SFixed32 => WireType.Fixed32
    case _ => WireType.Varint
  }

  /** Bytes per value of the fixed-width kinds (bool counts as one). */
  function FixedWidth(k: ScalarKind): Option<nat>
  {
    match k
    case Fixed64 => Some(8)
    case SFixed64 => Some(8)
    case Fixed32 => Some(4)
    case SFixed32 => Some(4)
    case Bool => Some(1)
    case _ => None
  }

  /** The encoding each `write_<kind>_no_tag` emits: u64/u32 varints as is,
      int32 and enum values sign-extended to 64 bits, sint zigzagged,
      fixed kinds little-endian, sfixed reinterpreted as unsigned. */
  function NoTag(k: ScalarKind, v: int): seq<byte>
    requires InRange(k, v)
  {
    match k
    case UInt64 => EncodeVarint(v)
    case UInt32 => EncodeVarint(v)
    case Int64 => EncodeVarint(I64AsU64(v))
    case Int32 => EncodeVarint(I32AsU64(v))
    case SInt64 => EncodeVarint(ZigZag64(v))
    case SInt32 => EncodeVarint(ZigZag32(v))
    case Fixed64 => LittleEndian64(v)
    case Fixed32 => LittleEndian32(v)
    case SFixed64 => LittleEndian64(I64AsU64(v))
    case SFixed32 => LittleEndian32(I32AsU32(v))
    case Bool => EncodeVarint(v)
    case Enum => EncodeVarint(I32AsU64(v))
  }

  /** A tagged field: `write_<kind>(n, v)`. */
  function Field(k: ScalarKind, n: FieldNumber, v: int): seq<byte>
    requires InRange(k, v)
  {
    TagBytes(n, WireTypeOf(k)) + NoTag(k, v)
  }

  /** The runtime's size of one untagged value. */
  function NoTagSize(k: ScalarKind, v: int): nat
    requires InRange(k, v)
  {
    match k
    case UInt64 => VarintSize(v)
    case UInt32 => VarintSize(v)
    case Int64 => VarintSize(I64AsU64(v))
    case Int32 => VarintSize(I32AsU64(v))
    case SInt64 => VarintSize(ZigZag64(v))
    case SInt32 => VarintSize(ZigZag32(v))
    case Enum => VarintSize(I32AsU64(v))
    case _ => FixedWidth(k).value
  }

  lemma NoTagSizeIsLength(k: ScalarKind, v: int)
    requires InRange(k, v)
    ensures NoTagSize(k, v) == |NoTag(k, v)|
    ensures FixedWidth(k).Some? ==> |NoTag(k, v)| == FixedWidth(k).value
  {
    match k
    case UInt64 => VarintSizeIsLength(v);
    case UInt32 => VarintSizeIsLength(v);
    case Int64 => VarintSizeIsLength(I64AsU64(v));
    case Int32 => VarintSizeIsLength(I32AsU64(v));
    case SInt64 => VarintSizeIsLength(ZigZag64(v));
    case SInt32 => VarintSizeIsLength(ZigZag32(v));
    case Enum => VarintSizeIsLength(I32AsU64(v));
    case Bool =>
    case _ =>
  }

  // ---------------------------------------------------------------- packed

  /** The elements of a packed field, back to back. */
  function PackedNoTag(k: ScalarKind, vs: seq<int>): seq<byte>
    requires AllInRange(k, vs)
  {
    if vs == [] then [] else PackedNoTag(k, vs[..|vs| - 1]) + NoTag(k, vs[|vs| - 1])
  }

  function SumNoTagSizes(k: ScalarKind, vs: seq<int>): nat
    requires AllInRange(k, vs)
  {
    if vs == [] then 0 else SumNoTagSizes(k, vs[..|vs| - 1]) + NoTagSize(k, vs[|vs| - 1])
  }

  /** `vec_packed_fixed_data_size` for fixed kinds and bool, the sum of the
      element sizes (`vec_packed_varint_data_size` and its zigzag and enum
      variants) for the others. */
  function PackedDataSize(k: ScalarKind, vs: seq<int>): nat
    requires AllInRange(k, vs)
  {
    if FixedWidth(k).Some? then |vs| * FixedWidth(k).value else SumNoTagSizes(k, vs)
  }

  /** `write_repeated_packed_<kind>`: nothing for no values, otherwise one
      length-delimited record whose length is the data size cast to u32. */
  function Packed(k: ScalarKind, n: FieldNumber, vs: seq<int>): seq<byte>
    requires AllInRange(k, vs)
  {
    if vs == [] then []
    else TagBytes(n, LengthDelimited) + EncodeVarint(TruncU32(PackedDataSize(k, vs))) + PackedNoTag(k, vs)
  }

  lemma {:induction false} SumNoTagSizesIsLength(k: ScalarKind, vs: seq<int>)
    requires AllInRange(k, vs)
    ensures SumNoTagSizes(k, vs) == |PackedNoTag(k, vs)|
  {
    if vs != [] {
      var init, last := vs[..|vs| - 1], vs[|vs| - 1];
      SumNoTagSizesIsLength(k, init);
      NoTagSizeIsLength(k, last);
      assert PackedNoTag(k, vs) == PackedNoTag(k, init) + NoTag(k, last);
    }
  }

  lemma {:induction false} PackedFixedLength(k: ScalarKind, vs: seq<int>)
    requires AllInRange(k, vs) && FixedWidth(k).Some?
    ensures |PackedNoTag(k, vs)| == |vs| * FixedWidth(k).value
  {
    if vs != [] {
      var init, last, w := vs[..|vs| - 1], vs[|vs| - 1], FixedWidth(k).value;
      PackedFixedLength(k, init);
      NoTagSizeIsLength(k, last);
      assert PackedNoTag(k, vs) == PackedNoTag(k, init) + NoTag(k, last);
      assert |vs| * w == |init| * w + w;
    }
  }

  /** The length prefix the packed writers compute is the length of the data that follows. */
  lemma PackedDataSizeIsLength(k: ScalarKind, vs: seq<int>)
    requires AllInRange(k, vs)
    ensures PackedDataSize(k, vs) == |PackedNoTag(k, vs)|
  {
    if FixedWidth(k).Some? {
      PackedFixedLength(k, vs);
    } else {
      SumNoTagSizesIsLength(k, vs);
    }
  }

  lemma {:induction false} PackedNoTagPrefix(k: ScalarKind, vs: seq<int>, i: nat)
    requires AllInRange(k, vs) && i <= |vs|
    ensures PackedNoTag(k, vs[..i]) <= PackedNoTag(k, vs)
    decreases |vs| - i
  {
    if i < |vs| {
      PackedNoTagPrefix(k, vs[..|vs| - 1], i);
      assert vs[..|vs| - 1][..i] == vs[..i];
    } else {
      assert vs[..i] == vs;
    }
  }

  // ---------------------------------------------------------------- reading

  /** The reads of the input stream, one per kind, each followed by the cast
      the typed read performs. */
  function ReadNoTag(k: ScalarKind, s: seq<byte>, pos: nat): (r: Result<(int, nat), ReadError>)
    ensures r.Ok? ==> InRange(k, r.value.0) && pos < r.value.1 <= |s|
  {
    if FixedWidth(k).Some? && k != Bool then
      var w := FixedWidth(k).value;
      match ReadLittleEndian(s, pos, w)
      case Err(e) => Err(e)
      case Ok((v, p)) =>
        LittleEndianWidth(s[pos..pos + w]);
        Ok((FromFixed(k, v), p))
    else
      match ReadRawVarint64(s, pos)
      case Err(e) => Err(e)
      case Ok((v, p)) => Ok((FromVarint(k, v), p))
  }

  /** The value of a varint-encoded kind from the u64 read. */
  function FromVarint(k: ScalarKind, v: u64): (r: int)
    requires FixedWidth(k).None? || k == Bool
    ensures InRange(k, r)
  {
    match k
    case UInt64 => v
    case UInt32 => v % TWO_32
    case Int64 => U64AsI64(v)
    case SInt64 => UnZigZag64(v)
    case SInt32 => UnZigZag32(v % TWO_32)
    case Bool => if v != 0 then 1 else 0
    case Int32 => U64AsI32(v)
    case Enum => U64AsI32(v)
  }

  /** The value of a fixed-width kind from the little-endian number read. */
  function FromFixed(k: ScalarKind, v: nat): (r: int)
    requires FixedWidth(k).Some? && k != Bool
    requires FixedWidth(k).value == 4 ==> v < TWO_32
    requires FixedWidth(k).value == 8 ==> v < TWO_64
    ensures InRange(k, r)
  {
    match k
    case SFixed64 => U64AsI64(v)
    case SFixed32 => if v >= 0x8000_0000 then v - TWO_32 else v
    case Fixed64 => v
    case Fixed32 => v
  }

  /** The u64 a varint-encoded kind puts on the wire. */
  function VarintOf(k: ScalarKind, v: int): (r: u64)
    requires InRange(k, v) && (FixedWidth(k).None? || k == Bool)
    ensures NoTag(k, v) == EncodeVarint(r)
    ensures FromVarint(k, r) == v
  {
    match k
    case UInt64 => v
    case UInt32 => assert v % TWO_32 == v; v
    case Int64 => I64AsU64(v)
    case SInt64 => ZigZag64RoundTrip(v); ZigZag64(v)
    case SInt32 =>
      ZigZag32RoundTrip(v);
      var z := ZigZag32(v);
      assert z % TWO_32 == z;
      z
    case Bool => v
    case Int32 => I32AsU64(v)
    case Enum => I32AsU64(v)
  }

  /** The number a fixed-width kind puts on the wire, little-endian. */
  function FixedOf(k: ScalarKind, v: int): (r: nat)
    requires InRange(k, v) && FixedWidth(k).Some? && k != Bool
    ensures r < Pow256(FixedWidth(k).value)
    ensures NoTag(k, v) == LittleEndian(r, FixedWidth(k).value)
    ensures FromFixed(k, r) == v
  {
    Pow256Widths();
    match k
    case SFixed64 => I64AsU64(v)
    case SFixed32 => I32AsU32(v)
    case Fixed64 => v
    case Fixed32 => v
  }

  lemma LittleEndianWidth(s: seq<byte>)
    requires |s| == 4 || |s| == 8
    ensures |s| == 4 ==> FromLittleEndian(s) < TWO_32
    ensures |s| == 8 ==> FromLittleEndian(s) < TWO_64
  {
    FromLittleEndianBound(s);
    Pow256Widths();
  }

  /** Every kind reads back the value it wrote and consumes exactly its bytes. */
  lemma ReadNoTagRoundTrip(k: ScalarKind, v: int, s: seq<byte>, pos: nat)
    requires InRange(k, v)
    requires At(s, pos, NoTag(k, v))
    ensures ReadNoTag(k, s, pos) == Ok((v, pos + |NoTag(k, v)|))
  {
    if FixedWidth(k).Some? && k != Bool {
      FixedReadBack(k, v, s, pos);
    } else {
      VarintReadBack(k, v, s, pos);
    }
  }

  /** A fixed-width kind reads back the number `FixedOf` put on the wire. */
  lemma FixedReadBack(k: ScalarKind, v: int, s: seq<byte>, pos: nat)
    requires InRange(k, v) && FixedWidth(k).Some? && k != Bool
    requires At(s, pos, NoTag(k, v))
    ensures |NoTag(k, v)| == FixedWidth(k).value
    ensures ReadLittleEndian(s, pos, FixedWidth(k).value) == Ok((FixedOf(k, v), pos + FixedWidth(k).value))
  {
    AtIsSlice(s, pos, NoTag(k, v));
    LittleEndianReadBack(s, pos, FixedOf(k, v), FixedWidth(k).value);
  }

  /** A varint-encoded kind reads back the u64 `VarintOf` put on the wire. */
  lemma VarintReadBack(k: ScalarKind, v: int, s: seq<byte>, pos: nat)
    requires InRange(k, v) && (FixedWidth(k).None? || k == Bool)
    requires At(s, pos, NoTag(k, v))
    ensures ReadRawVarint64(s, pos) == Ok((VarintOf(k, v), pos + |NoTag(k, v)|))
  {
    AtIsSlice(s, pos, NoTag(k, v));
    VarintRoundTrip(s, pos, VarintOf(k, v));
  }

  /** A tagged field read back: its tag, then its value, consuming exactly its bytes. */
  lemma ReadFieldRoundTrip(k: ScalarKind, n: FieldNumber, v: int, s: seq<byte>, pos: nat) returns (p: nat, q: nat)
    requires InRange(k, v) && At(s, pos, Field(k, n, v))
    ensures pos < p && q == pos + |Field(k, n, v)|
    ensures ReadRawVarint32(s, pos) == Ok((TagValue(n, WireTypeOf(k)), p))
    ensures ReadNoTag(k, s, p) == Ok((v, q))
  {
    var t, e := TagBytes(n, WireTypeOf(k)), NoTag(k, v);
    AtSplit(s, pos, Field(k, n, v), t, e);
    p := pos + |t|;
    q := p + |e|;
    TagRoundTrip(s, pos, n, WireTypeOf(k));
    ReadNoTagRoundTrip(k, v, s, p);
  }
}
