// The protobuf wire format as the output stream writes it: machine integer
// ranges and the casts between them, base-128 varints, zigzag, little-endian
// fixed-width integers and tags, each with the decoding that inverts it.
module WireFormat {
  import opened Wrappers

  newtype byte = x: int | 0 <= x < 256

  const TWO_32: int := 0x1_0000_0000
  const TWO_63: int := 0x8000_0000_0000_0000
  const TWO_64: int := 0x1_0000_0000_0000_0000

  type u32 = x: int | 0 <= x < 0x1_0000_0000
  type u64 = x: int | 0 <= x < 0x1_0000_0000_0000_0000
  type i32 = x: int | -0x8000_0000 <= x < 0x8000_0000
  type i64 = x: int | -0x8000_0000_0000_0000 <= x < 0x8000_0000_0000_0000

  /** Field numbers run from 1 to 2^29 - 1, so a tag always fits a u32. */
  type FieldNumber = n: int | 1 <= n <= 0x1FFF_FFFF witness 1

  datatype WireType = Varint | Fixed64 | LengthDelimited | StartGroup | EndGroup | Fixed32

  /** The three-bit code of a wire type. */
  function WireTypeCode(wt: WireType): nat
  {
    match wt
    case Varint => 0
    case Fixed64 => 1
    case LengthDelimited => 2
    case StartGroup => 3
    case EndGroup => 4
    case Fixed32 => 5
  }

  /** Inverse of WireTypeCode; codes 6 and 7 name no wire type. */
  function WireTypeOfCode(code: nat): (r: Option<WireType>)
    ensures r.Some? <==> code <= 5
    ensures r.Some? ==> WireTypeCode(r.value) == code
  {
    if code == 0 then Some(Varint)
    else if code == 1 then Some(Fixed64)
    else if code == 2 then Some(LengthDelimited)
    else if code == 3 then Some(StartGroup)
    else if code == 4 then Some(EndGroup)
    else if code == 5 then Some(Fixed32)
    else None
  }

  // ---------------------------------------------------------------- casts

  /** `v as u64` for an i64: two's complement reinterpretation. */
  function I64AsU64(v: i64): (r: u64)
    ensures U64AsI64(r) == v
  {
    if v < 0 then v + TWO_64 else v
  }

  /** `v as i64` for a u64. */
  function U64AsI64(v: u64): i64
  {
    if v >= TWO_63 then v - TWO_64 else v
  }

  /** `v as u64` for an i32: sign extension to 64 bits. */
  function I32AsU64(v: i32): (r: u64)
    ensures v < 0 ==> r >= TWO_64 - 0x8000_0000
    ensures U64AsI32(r) == v
  {
    if v < 0 then v + TWO_64 else v
  }

  /** `v as i32` for a u64: keep the low 32 bits and reinterpret them. */
  function U64AsI32(v: u64): i32
  {
    var low := v % TWO_32;
    if low >= 0x8000_0000 then low - TWO_32 else low
  }

  /** `v as u32` for an i32. */
  function I32AsU32(v: i32): (r: u32)
    ensures (if r >= 0x8000_0000 then r - TWO_32 else r) == v
  {
    if v < 0 then v + TWO_32 else v
  }

  /** `v as u32` for a u64 or any larger count: truncation to the low 32 bits. */
  function TruncU32(v: nat): (r: u32)
    ensures v < TWO_32 ==> r == v
  {
    v % TWO_32
  }

  // ---------------------------------------------------------------- zigzag

  /** The zigzag mapping of sint32: small magnitudes get small codes. */
  function ZigZag32(n: i32): u32
  {
    if n >= 0 then 2 * n else -2 * n - 1
  }

  function UnZigZag32(z: u32): i32
  {
    if z % 2 == 0 then z / 2 else -(z / 2) - 1
  }

  function ZigZag64(n: i64): u64
  {
    if n >= 0 then 2 * n else -2 * n - 1
  }

  function UnZigZag64(z: u64): i64
  {
    if z % 2 == 0 then z / 2 else -(z / 2) - 1
  }

  lemma ZigZag32RoundTrip(n: i32)
    ensures UnZigZag32(ZigZag32(n)) == n
  {
  }

  lemma ZigZag32Onto(z: u32)
    ensures ZigZag32(UnZigZag32(z)) == z
  {
  }

  lemma ZigZag64RoundTrip(n: i64)
    ensures UnZigZag64(ZigZag64(n)) == n
  {
  }

  lemma ZigZag64Onto(z: u64)
    ensures ZigZag64(UnZigZag64(z)) == z
  {
  }

  // ---------------------------------------------------------------- varint

  /** Base-128 varint: least significant group first, the high bit marks
      every byte but the last. */
  function EncodeVarint(v: nat): (r: seq<byte>)
    decreases v
  {
    if v < 128 then [v as byte] else [(v % 128 + 128) as byte] + EncodeVarint(v / 128)
  }

  /** The size rule of the runtime's varint length computation: one byte per
      started group of seven bits, at most ten for a u64. */
  function VarintSize(v: nat): nat
  {
    if v < 0x80 then 1
    else if v < 0x4000 then 2
    else if v < 0x20_0000 then 3
    else if v < 0x1000_0000 then 4
    else if v < 0x8_0000_0000 then 5
    else if v < 0x400_0000_0000 then 6
    else if v < 0x2_0000_0000_0000 then 7
    else if v < 0x100_0000_0000_0000 then 8
    else if v < 0x8000_0000_0000_0000 then 9
    else 10
  }

  function Pow128(k: nat): (p: nat)
    ensures p >= 1
  {
    if k == 0 then 1 else 128 * Pow128(k - 1)
  }

  lemma {:induction false} VarintLengthBetween(v: nat, k: nat)
    requires 1 <= k
    requires (k == 1 || Pow128(k - 1) <= v) && v < Pow128(k)
    ensures |EncodeVarint(v)| == k
    decreases k
  {
    if k == 1 {
    } else {
      assert v >= 128 by { Pow128Mono(1, k - 1); }
      assert k - 1 == 1 || Pow128(k - 2) <= v / 128;
      VarintLengthBetween(v / 128, k - 1);
    }
  }

  lemma {:induction false} Pow128Mono(i: nat, j: nat)
    requires i <= j
    ensures Pow128(i) <= Pow128(j)
    decreases j
  {
    if i < j { Pow128Mono(i, j - 1); }
  }

  /** The size rule agrees with the encoder, for every u64. */
  lemma VarintSizeIsLength(v: u64)
    ensures |EncodeVarint(v)| == VarintSize(v)
    ensures VarintSize(v) <= 10
    ensures v < TWO_32 ==> VarintSize(v) <= 5
  {
    assert Pow128(1) == 0x80;
    assert Pow128(2) == 0x4000;
    assert Pow128(3) == 0x20_0000;
    assert Pow128(4) == 0x1000_0000;
    assert Pow128(5) == 0x8_0000_0000;
    assert Pow128(6) == 0x400_0000_0000;
    assert Pow128(7) == 0x2_0000_0000_0000;
    assert Pow128(8) == 0x100_0000_0000_0000;
    assert Pow128(9) == 0x8000_0000_0000_0000;
    assert Pow128(10) == 0x40_0000_0000_0000_0000;
    VarintLengthBetween(v, VarintSize(v));
  }

  /** Every byte but the last carries the continuation bit. */
  lemma {:induction false} VarintContinuation(v: nat)
    ensures var r := EncodeVarint(v);
      |r| >= 1 && r[|r| - 1] < 128 && forall i :: 0 <= i < |r| - 1 ==> r[i] >= 128
    decreases v
  {
    if v >= 128 {
      VarintContinuation(v / 128);
    }
  }

  // ---------------------------------------------------------------- little endian

  /** The `n` low bytes of `v`, least significant first (`to_le_bytes`). */
  function LittleEndian(v: nat, n: nat): (r: seq<byte>)
    ensures |r| == n
    decreases n
  {
    if n == 0 then [] else [(v % 256) as byte] + LittleEndian(v / 256, n - 1)
  }

  function LittleEndian32(v: u32): seq<byte>
  {
    LittleEndian(v, 4)
  }

  function LittleEndian64(v: u64): seq<byte>
  {
    LittleEndian(v, 8)
  }

  /** The value of little-endian bytes. */
  function FromLittleEndian(s: seq<byte>): nat
  {
    if s == [] then 0 else s[0] as nat + 256 * FromLittleEndian(s[1..])
  }

  function Pow256(k: nat): (p: nat)
    ensures p >= 1
  {
    if k == 0 then 1 else 256 * Pow256(k - 1)
  }

  /** The byte widths of the fixed encodings span the integer widths. */
  lemma Pow256Widths()
    ensures Pow256(4) == TWO_32 && Pow256(8) == TWO_64
  {
    assert Pow256(2) == 0x1_0000;
    assert Pow256(4) == 0x1_0000_0000 by { assert Pow256(3) == 0x100_0000; }
    assert Pow256(6) == 0x1_0000_0000_0000 by { assert Pow256(5) == 0x100_0000_0000; }
    assert Pow256(8) == 0x1_0000_0000_0000_0000 by { assert Pow256(7) == 0x100_0000_0000_0000; }
  }

  /** A little-endian byte string denotes a number below 256 to its length. */
  lemma {:induction false} FromLittleEndianBound(s: seq<byte>)
    ensures FromLittleEndian(s) < Pow256(|s|)
  {
    if s != [] {
      FromLittleEndianBound(s[1..]);
    }
  }

  lemma {:induction false} LittleEndianRoundTrip(v: nat, n: nat)
    requires v < Pow256(n)
    ensures FromLittleEndian(LittleEndian(v, n)) == v
    decreases n
  {
    if n > 0 {
      var r := LittleEndian(v, n);
      assert r[1..] == LittleEndian(v / 256, n - 1);
      LittleEndianRoundTrip(v / 256, n - 1);
    }
  }

  lemma LittleEndian32RoundTrip(v: u32)
    ensures FromLittleEndian(LittleEndian32(v)) == v
  {
    Pow256Widths();
    LittleEndianRoundTrip(v, 4);
  }

  lemma LittleEndian64RoundTrip(v: u64)
    ensures FromLittleEndian(LittleEndian64(v)) == v
  {
    Pow256Widths();
    LittleEndianRoundTrip(v, 8);
  }

  // ---------------------------------------------------------------- tags

  /** `Tag::make(n, wt).value()`: the field number shifted left by three with
      the wire type in the low bits. */
  function TagValue(n: FieldNumber, wt: WireType): (t: u32)
    ensures t / 8 == n && t % 8 == WireTypeCode(wt)
  {
    n * 8 + WireTypeCode(wt)
  }

  /** Two tags are equal exactly when field number and wire type both are. */
  lemma TagInjective(n1: FieldNumber, w1: WireType, n2: FieldNumber, w2: WireType)
    ensures TagValue(n1, w1) == TagValue(n2, w2) <==> n1 == n2 && w1 == w2
  {
    if TagValue(n1, w1) == TagValue(n2, w2) {
      assert WireTypeCode(w1) == WireTypeCode(w2);
    }
  }

  function TagBytes(n: FieldNumber, wt: WireType): seq<byte>
  {
    EncodeVarint(TagValue(n, wt))
  }

  /** Size of an encoded tag. */
  function TagSize(n: FieldNumber): nat
  {
    VarintSize(n * 8)
  }

  /** The low three bits of a tag never change its varint size: every size
      threshold is a multiple of eight. */
  lemma VarintSizeLowBits(x: nat, c: nat)
    requires c < 8
    ensures VarintSize(8 * x) == VarintSize(8 * x + c)
  {
  }

  /** The size the runtime computes for a tag is the length of the tag for
      every wire type. */
  lemma TagSizeIsLength(n: FieldNumber, wt: WireType)
    ensures TagSize(n) == |TagBytes(n, wt)|
  {
    VarintSizeIsLength(TagValue(n, wt));
    VarintSizeLowBits(n, WireTypeCode(wt));
  }

  // ---------------------------------------------------------------- reading

  datatype ReadError =
    | UnexpectedEof
    | MalformedVarint
    | InvalidTag(tag: u32)
    | UnexpectedEndGroup

  /** Decoding of a varint starting at `pos`, after `count` bytes of the same
      varint have been read. A tenth byte that still has its continuation bit
      is malformed; the accumulated value is returned unreduced. */
  function DecodeVarintFrom(s: seq<byte>, pos: nat, count: nat): (r: Result<(nat, nat), ReadError>)
    requires count <= 9
    ensures r.Ok? ==> pos < r.value.1 <= |s|
    decreases |s| - pos
  {
    if pos >= |s| then Err(UnexpectedEof)
    else if s[pos] < 128 then Ok((s[pos] as nat, pos + 1))
    else if count == 9 then Err(MalformedVarint)
    else match DecodeVarintFrom(s, pos + 1, count + 1)
      case Err(e) => Err(e)
      case Ok((v, end)) => Ok(((s[pos] - 128) as nat + 128 * v, end))
  }

  /** `read_raw_varint64`: the decoded value kept to 64 bits, and the position after it. */
  function ReadRawVarint64(s: seq<byte>, pos: nat): (r: Result<(u64, nat), ReadError>)
    ensures r.Ok? ==> pos < r.value.1 <= |s|
  {
    match DecodeVarintFrom(s, pos, 0)
    case Err(e) => Err(e)
    case Ok((v, end)) => Ok((v % TWO_64, end))
  }

  /** `read_raw_varint32`: a varint kept to its low 32 bits. */
  function ReadRawVarint32(s: seq<byte>, pos: nat): (r: Result<(u32, nat), ReadError>)
    ensures r.Ok? ==> pos < r.value.1 <= |s|
  {
    match ReadRawVarint64(s, pos)
    case Err(e) => Err(e)
    case Ok((v, end)) => Ok((v % TWO_32, end))
  }

  function ReadLittleEndian(s: seq<byte>, pos: nat, n: nat): (r: Result<(nat, nat), ReadError>)
    ensures r.Ok? ==> r.value.1 == pos + n <= |s|
  {
    if pos + n > |s| then Err(UnexpectedEof) else Ok((FromLittleEndian(s[pos..pos + n]), pos + n))
  }

  lemma {:induction false} DecodeVarintAt(s: seq<byte>, pos: nat, count: nat, v: nat)
    requires count + |EncodeVarint(v)| <= 10
    requires pos + |EncodeVarint(v)| <= |s| && s[pos..pos + |EncodeVarint(v)|] == EncodeVarint(v)
    ensures DecodeVarintFrom(s, pos, count) == Ok((v, pos + |EncodeVarint(v)|))
    decreases v
  {
    var e := EncodeVarint(v);
    assert s[pos] == e[0];
    if v >= 128 {
      var t := EncodeVarint(v / 128);
      assert e == [(v % 128 + 128) as byte] + t;
      assert s[pos + 1..pos + 1 + |t|] == t by {
        assert s[pos + 1..pos + 1 + |t|] == s[pos..pos + |e|][1..];
      }
      DecodeVarintAt(s, pos + 1, count + 1, v / 128);
    }
  }

  /** Reading back a written varint gives the value and consumes exactly its bytes. */
  lemma VarintRoundTrip(s: seq<byte>, pos: nat, v: u64)
    requires pos + |EncodeVarint(v)| <= |s| && s[pos..pos + |EncodeVarint(v)|] == EncodeVarint(v)
    ensures ReadRawVarint64(s, pos) == Ok((v, pos + |EncodeVarint(v)|))
  {
    assert DecodeVarintFrom(s, pos, 0) == Ok((v, pos + |EncodeVarint(v)|)) by {
      VarintSizeIsLength(v);
      DecodeVarintAt(s, pos, 0, v);
    }
    assert v % TWO_64 == v;
  }

  /** A tag written for field `n` and wire type `wt` reads back as the same u32. */
  lemma TagRoundTrip(s: seq<byte>, pos: nat, n: FieldNumber, wt: WireType)
    requires At(s, pos, TagBytes(n, wt))
    ensures ReadRawVarint32(s, pos) == Ok((TagValue(n, wt), pos + |TagBytes(n, wt)|))
  {
    AtIsSlice(s, pos, TagBytes(n, wt));
    var t := TagValue(n, wt);
    assert ReadRawVarint64(s, pos) == Ok((t as u64, pos + |TagBytes(n, wt)|)) by {
      VarintRoundTrip(s, pos, t);
    }
    assert t % TWO_32 == t;
  }

  /** A run of bytes found at `pos` is its two halves, one after the other. */
  lemma SliceSplit(s: seq<byte>, pos: nat, a: seq<byte>, b: seq<byte>)
    requires pos + |a + b| <= |s| && s[pos..pos + |a + b|] == a + b
    ensures s[pos..pos + |a|] == a
    ensures s[pos + |a|..pos + |a| + |b|] == b
  {
    assert s[pos..pos + |a|] == s[pos..pos + |a + b|][..|a|];
    assert s[pos + |a|..pos + |a| + |b|] == s[pos..pos + |a + b|][|a|..];
  }

  /** `e` is found in `s` at `pos`. */
  predicate At(s: seq<byte>, pos: nat, e: seq<byte>)
  {
    pos + |e| <= |s| && forall i :: 0 <= i < |e| ==> s[pos + i] == e[i]
  }

  /** `At` is the slice equality the readers' round trips are stated with. */
  lemma AtIsSlice(s: seq<byte>, pos: nat, e: seq<byte>)
    ensures At(s, pos, e) <==> pos + |e| <= |s| && s[pos..pos + |e|] == e
  {
    if pos + |e| <= |s| && s[pos..pos + |e|] == e {
      forall i | 0 <= i < |e| ensures s[pos + i] == e[i] {
        assert s[pos..pos + |e|][i] == e[i];
      }
    }
  }

  /** A sequence is found in itself at 0. */
  lemma AtWhole(s: seq<byte>)
    ensures At(s, 0, s)
  {
  }

  /** What is found at `pos` is found as its two halves, one after the other. */
  lemma AtSplit(s: seq<byte>, pos: nat, e: seq<byte>, a: seq<byte>, b: seq<byte>)
    requires At(s, pos, e) && e == a + b
    ensures At(s, pos, a) && At(s, pos + |a|, b)
  {
    forall i | 0 <= i < |a| ensures s[pos + i] == a[i] {
      assert e[i] == a[i];
    }
    forall i | 0 <= i < |b| ensures s[pos + |a| + i] == b[i] {
      assert e[|a| + i] == b[i];
    }
  }

  lemma LittleEndianReadBack(s: seq<byte>, pos: nat, v: nat, n: nat)
    requires v < Pow256(n)
    requires pos + n <= |s| && s[pos..pos + n] == LittleEndian(v, n)
    ensures ReadLittleEndian(s, pos, n) == Ok((v, pos + n))
  {
    LittleEndianRoundTrip(v, n);
  }

  // ---------------------------------------------------------------- vectors

  /** Reference encodings: 150 is `96 01`, u32::MAX five bytes, u64::MAX ten. */
  lemma VarintVectors()
    ensures EncodeVarint(150) == [0x96, 0x01]
    ensures EncodeVarint(0xffff_ffff) == [0xff, 0xff, 0xff, 0xff, 0x0f]
    ensures EncodeVarint(0xffff_ffff_ffff_ffff)
         == [0xff, 0xff, 0xff, 0xff, 0xff, 0xff, 0xff, 0xff, 0xff, 0x01]
    ensures TagBytes(1, Varint) == [0x08]
  {
    assert EncodeVarint(0xf) == [0x0f];
    assert EncodeVarint(0x7ff) == [0xff, 0x0f];
    assert EncodeVarint(0x3_ffff) == [0xff, 0xff, 0x0f];
    assert EncodeVarint(0x1ff_ffff) == [0xff, 0xff, 0xff, 0x0f];
    MaxU64Varint();
  }

  /** One more group of seven set bits adds one 0xff byte in front. */
  lemma VarintAllOnesStep(x: nat)
    requires x > 0
    ensures EncodeVarint(128 * x + 127) == [0xff] + EncodeVarint(x)
  {
  }

  lemma MaxU64Varint()
    ensures EncodeVarint(0xffff_ffff_ffff_ffff)
         == [0xff, 0xff, 0xff, 0xff, 0xff, 0xff, 0xff, 0xff, 0xff, 0x01]
  {
    VarintAllOnesStep(0x1);
    VarintAllOnesStep(0xff);
    VarintAllOnesStep(0x7fff);
    VarintAllOnesStep(0x3f_ffff);
    VarintAllOnesStep(0x1fff_ffff);
    VarintAllOnesStep(0xf_ffff_ffff);
    VarintAllOnesStep(0x7ff_ffff_ffff);
    VarintAllOnesStep(0x3_ffff_ffff_ffff);
    VarintAllOnesStep(0x1ff_ffff_ffff_ffff);
  }

  /** int32 -1 is sign-extended to ten bytes; sint32 -1 and -2 zigzag to 1 and 3. */
  lemma SignVectors()
    ensures EncodeVarint(I32AsU64(-1)) == EncodeVarint(0xffff_ffff_ffff_ffff)
    ensures ZigZag32(-1) == 1 && ZigZag32(-2) == 3 && ZigZag32(1) == 2
    ensures |EncodeVarint(I32AsU64(-1))| == 10
  {
    VarintSizeIsLength(0xffff_ffff_ffff_ffff);
  }

  /** One more byte in front of the little-endian form. */
  lemma LittleEndianStep(x: nat, b: nat, n: nat)
    requires b < 256
    ensures LittleEndian(256 * x + b, n + 1) == [b as byte] + LittleEndian(x, n)
  {
    var v := 256 * x + b;
    assert v % 256 == b && v / 256 == x;
  }

  /** The u32 0xc4d3e2f1 is written least significant byte first. */
  lemma LittleEndian32Vector()
    ensures LittleEndian32(0xc4d3_e2f1) == [0xf1, 0xe2, 0xd3, 0xc4]
  {
    LittleEndianStep(0xc4, 0xd3, 0);
    LittleEndianStep(0xc4d3, 0xe2, 1);
    LittleEndianStep(0xc4d3e2, 0xf1, 2);
  }
}
