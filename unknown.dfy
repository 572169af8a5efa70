// Unknown fields: values of fields a message does not declare, kept so that
// they can be written back, their encoding and size, and the reader's
// `read_unknown_or_skip_group`, which stores them or skips groups.
module Unknown {
  import opened Wrappers
  import opened WireFormat

  datatype UnknownValue =
    | Fixed32(v32: u32)
    | Fixed64(v64: u64)
    | VarintValue(v: u64)
    | LengthDelimited(bytes: seq<byte>)

  /** All values of one field number, in the order they were added. */
  datatype UnknownField = UnknownField(number: FieldNumber, values: seq<UnknownValue>)

  /** The field set in its iteration order. */
  type UnknownFields = seq<UnknownField>

  function WireTypeOf(u: UnknownValue): WireType
  {
    match u
    case Fixed32(_) => WireType.Fixed32
    case Fixed64(_) => WireType.Fixed64
    case VarintValue(_) => WireType.Varint
    case LengthDelimited(_) => WireType.LengthDelimited
  }

  /** `write_bytes_no_tag`: the length, cast to u32, as a varint, then the bytes. */
  function BytesNoTag(bs: seq<byte>): seq<byte>
  {
    EncodeVarint(TruncU32(|bs|)) + bs
  }

  /** `write_unknown_no_tag`. */
  function ValueNoTag(u: UnknownValue): seq<byte>
  {
    match u
    case Fixed32(v) => LittleEndian32(v)
    case Fixed64(v) => LittleEndian64(v)
    case VarintValue(v) => EncodeVarint(v)
    case LengthDelimited(bs) => BytesNoTag(bs)
  }

  /** `write_unknown`: the tag for the value's own wire type, then the value. */
  function EncodeValue(n: FieldNumber, u: UnknownValue): seq<byte>
  {
    TagBytes(n, WireTypeOf(u)) + ValueNoTag(u)
  }

  function EncodeValues(n: FieldNumber, vs: seq<UnknownValue>): seq<byte>
  {
    if vs == [] then [] else EncodeValues(n, vs[..|vs| - 1]) + EncodeValue(n, vs[|vs| - 1])
  }

  /** `write_unknown_fields`: every value of every field, field by field. */
  function EncodeUnknownFields(fs: UnknownFields): seq<byte>
  {
    if fs == [] then [] else EncodeUnknownFields(fs[..|fs| - 1]) + EncodeValues(fs[|fs| - 1].number, fs[|fs| - 1].values)
  }

  // ---------------------------------------------------------------- sizes

  /** Size of a length-delimited payload with its length prefix. */
  function LengthDelimitedSize(len: nat): nat
  {
    VarintSize(len) + len
  }

  function ValueSize(n: FieldNumber, u: UnknownValue): nat
  {
    TagSize(n) + match u
      case Fixed32(_) => 4
      case Fixed64(_) => 8
      case VarintValue(v) => VarintSize(v)
      case LengthDelimited(bs) => LengthDelimitedSize(|bs|)
  }

  function ValuesSize(n: FieldNumber, vs: seq<UnknownValue>): nat
  {
    if vs == [] then 0 else ValuesSize(n, vs[..|vs| - 1]) + ValueSize(n, vs[|vs| - 1])
  }

  /** `unknown_fields_size`. */
  function UnknownFieldsSize(fs: UnknownFields): nat
  {
    if fs == [] then 0 else UnknownFieldsSize(fs[..|fs| - 1]) + ValuesSize(fs[|fs| - 1].number, fs[|fs| - 1].values)
  }

  /** A length-delimited payload whose length survives the cast to u32. */
  predicate ValueFits(u: UnknownValue)
  {
    u.LengthDelimited? ==> |u.bytes| < TWO_32
  }

  predicate Fits(fs: UnknownFields)
  {
    forall i, j :: 0 <= i < |fs| && 0 <= j < |fs[i].values| ==> ValueFits(fs[i].values[j])
  }

  lemma ValueSizeIsLength(n: FieldNumber, u: UnknownValue)
    requires ValueFits(u)
    ensures ValueSize(n, u) == |EncodeValue(n, u)|
  {
    TagSizeIsLength(n, WireTypeOf(u));
    match u
    case Fixed32(v) =>
    case Fixed64(v) =>
    case VarintValue(v) => VarintSizeIsLength(v);
    case LengthDelimited(bs) => VarintSizeIsLength(|bs|);
  }

  lemma {:induction false} ValuesSizeIsLength(n: FieldNumber, vs: seq<UnknownValue>)
    requires forall j :: 0 <= j < |vs| ==> ValueFits(vs[j])
    ensures ValuesSize(n, vs) == |EncodeValues(n, vs)|
  {
    if vs != [] {
      ValuesSizeIsLength(n, vs[..|vs| - 1]);
      ValueSizeIsLength(n, vs[|vs| - 1]);
    }
  }

  /** The size the runtime computes is the number of bytes written. */
  lemma {:induction false} UnknownFieldsSizeIsLength(fs: UnknownFields)
    requires Fits(fs)
    ensures UnknownFieldsSize(fs) == |EncodeUnknownFields(fs)|
  {
    if fs != [] {
      UnknownFieldsSizeIsLength(fs[..|fs| - 1]);
      ValuesSizeIsLength(fs[|fs| - 1].number, fs[|fs| - 1].values);
    }
  }

  // ---------------------------------------------------------------- adding

  /** Every value stored under number `n`, in order. */
  function ValuesOf(fs: UnknownFields, n: FieldNumber): seq<UnknownValue>
  {
    if fs == [] then []
    else ValuesOf(fs[..|fs| - 1], n) + (if fs[|fs| - 1].number == n then fs[|fs| - 1].values else [])
  }

  /** `add_value`: append to the entry of the number, or start a new entry. */
  function AddValue(fs: UnknownFields, n: FieldNumber, u: UnknownValue): UnknownFields
  {
    if fs == [] then [UnknownField(n, [u])]
    else if fs[0].number == n then [fs[0].(values := fs[0].values + [u])] + fs[1..]
    else [fs[0]] + AddValue(fs[1..], n, u)
  }

  function Numbers(fs: UnknownFields): set<FieldNumber>
  {
    set i | 0 <= i < |fs| :: fs[i].number
  }

  /** One entry per number, as in the map the runtime keeps. */
  predicate DistinctNumbers(fs: UnknownFields)
  {
    forall i, j :: 0 <= i < j < |fs| ==> fs[i].number != fs[j].number
  }

  /** Distinct numbers, and no entry without values. */
  predicate Normalized(fs: UnknownFields)
  {
    DistinctNumbers(fs) && forall i :: 0 <= i < |fs| ==> fs[i].values != []
  }

  lemma ValuesOfFront(f: UnknownField, fs: UnknownFields, n: FieldNumber)
    ensures ValuesOf([f] + fs, n) == (if f.number == n then f.values else []) + ValuesOf(fs, n)
    decreases |fs|
  {
    if fs != [] {
      var all := [f] + fs;
      assert all[..|all| - 1] == [f] + fs[..|fs| - 1];
      ValuesOfFront(f, fs[..|fs| - 1], n);
    } else {
      assert ([f] + fs)[..0] == [];
    }
  }

  lemma {:induction false} ValuesOfAbsent(fs: UnknownFields, n: FieldNumber)
    requires n !in Numbers(fs)
    ensures ValuesOf(fs, n) == []
  {
    if fs != [] {
      assert fs[|fs| - 1].number in Numbers(fs);
      NumbersPrefix(fs, |fs| - 1);
      ValuesOfAbsent(fs[..|fs| - 1], n);
    }
  }

  lemma NumbersPrefix(fs: UnknownFields, k: nat)
    requires k <= |fs|
    ensures Numbers(fs[..k]) <= Numbers(fs)
  {
    forall x | x in Numbers(fs[..k]) ensures x in Numbers(fs) {
      var i :| 0 <= i < k && fs[..k][i].number == x;
      assert fs[i].number == x;
    }
  }

  lemma NumbersFront(f: UnknownField, fs: UnknownFields)
    ensures Numbers([f] + fs) == {f.number} + Numbers(fs)
  {
    var all := [f] + fs;
    forall x ensures x in Numbers(all) <==> x in {f.number} + Numbers(fs) {
      if x in Numbers(all) {
        var i :| 0 <= i < |all| && all[i].number == x;
        if i > 0 { assert fs[i - 1].number == x; }
      }
      if x in Numbers(fs) { var i :| 0 <= i < |fs| && fs[i].number == x; assert all[i + 1].number == x; }
      if x == f.number { assert all[0].number == x; }
    }
  }

  lemma DistinctFront(fs: UnknownFields)
    requires fs != [] && DistinctNumbers(fs)
    ensures fs == [fs[0]] + fs[1..]
    ensures DistinctNumbers(fs[1..]) && fs[0].number !in Numbers(fs[1..])
  {
    assert fs == [fs[0]] + fs[1..];
    forall i | 0 <= i < |fs[1..]| ensures fs[1..][i].number != fs[0].number {
      assert fs[1..][i] == fs[i + 1];
    }
  }

  lemma {:induction false} AddValueNumbers(fs: UnknownFields, n: FieldNumber, u: UnknownValue)
    ensures Numbers(AddValue(fs, n, u)) == Numbers(fs) + {n}
    decreases |fs|
  {
    var r := AddValue(fs, n, u);
    if fs == [] {
      assert Numbers(r) == {n} by { assert r[0].number == n; }
    } else {
      assert fs == [fs[0]] + fs[1..];
      NumbersFront(fs[0], fs[1..]);
      if fs[0].number == n {
        NumbersFront(fs[0].(values := fs[0].values + [u]), fs[1..]);
      } else {
        AddValueNumbers(fs[1..], n, u);
        NumbersFront(fs[0], AddValue(fs[1..], n, u));
      }
    }
  }

  /** Adding a value keeps one entry per number. */
  lemma {:induction false} AddValueDistinct(fs: UnknownFields, n: FieldNumber, u: UnknownValue)
    requires DistinctNumbers(fs)
    ensures DistinctNumbers(AddValue(fs, n, u))
    decreases |fs|
  {
    var r := AddValue(fs, n, u);
    if fs != [] {
      DistinctFront(fs);
      if fs[0].number == n {
        forall i, j | 0 <= i < j < |r| ensures r[i].number != r[j].number {
          if i == 0 { assert r[j] == fs[1..][j - 1]; assert r[j].number in Numbers(fs[1..]); }
          else { assert r[i] == fs[i] && r[j] == fs[j]; }
        }
      } else {
        var rest := AddValue(fs[1..], n, u);
        AddValueDistinct(fs[1..], n, u);
        AddValueNumbers(fs[1..], n, u);
        forall i, j | 0 <= i < j < |r| ensures r[i].number != r[j].number {
          if i == 0 { assert r[j] == rest[j - 1]; assert r[j].number in Numbers(rest); }
          else { assert r[i] == rest[i - 1] && r[j] == rest[j - 1]; }
        }
      }
    }
  }

  /** Adding a value appends it to the values of its number and changes no other number. */
  lemma {:induction false} AddValueEffect(fs: UnknownFields, n: FieldNumber, u: UnknownValue, m: FieldNumber)
    requires DistinctNumbers(fs)
    ensures ValuesOf(AddValue(fs, n, u), m) == ValuesOf(fs, m) + (if m == n then [u] else [])
    decreases |fs|
  {
    var r := AddValue(fs, n, u);
    if fs == [] {
      assert r[..0] == [];
    } else {
      DistinctFront(fs);
      ValuesOfFront(fs[0], fs[1..], m);
      if fs[0].number == n {
        ValuesOfFront(fs[0].(values := fs[0].values + [u]), fs[1..], m);
        ValuesOfAbsent(fs[1..], n);
      } else {
        AddValueEffect(fs[1..], n, u, m);
        ValuesOfFront(fs[0], AddValue(fs[1..], n, u), m);
      }
    }
  }

  /** A value for the number of the last entry, which no other entry has, lands in that entry. */
  lemma {:induction false} AddValueToLast(fs: UnknownFields, f: UnknownField, u: UnknownValue)
    requires f.number !in Numbers(fs)
    ensures AddValue(fs + [f], f.number, u) == fs + [f.(values := f.values + [u])]
    decreases |fs|
  {
    if fs != [] {
      assert fs == [fs[0]] + fs[1..];
      NumbersFront(fs[0], fs[1..]);
      assert (fs + [f])[1..] == fs[1..] + [f];
      AddValueToLast(fs[1..], f, u);
    }
  }

  /** A value for a number no entry has starts a new entry at the end. */
  lemma {:induction false} AddValueNew(fs: UnknownFields, n: FieldNumber, u: UnknownValue)
    requires n !in Numbers(fs)
    ensures AddValue(fs, n, u) == fs + [UnknownField(n, [u])]
    decreases |fs|
  {
    if fs != [] {
      assert fs == [fs[0]] + fs[1..];
      NumbersFront(fs[0], fs[1..]);
      AddValueNew(fs[1..], n, u);
    }
  }

  /** `add_value` once per value, in order. */
  function AddValues(fs: UnknownFields, n: FieldNumber, vs: seq<UnknownValue>): UnknownFields
  {
    if vs == [] then fs else AddValue(AddValues(fs, n, vs[..|vs| - 1]), n, vs[|vs| - 1])
  }

  /** Every value of every entry of `gs` added to `fs`, entry by entry. */
  function AddFields(fs: UnknownFields, gs: UnknownFields): UnknownFields
  {
    if gs == [] then fs
    else AddValues(AddFields(fs, gs[..|gs| - 1]), gs[|gs| - 1].number, gs[|gs| - 1].values)
  }

  /** Values for a number no entry has form one new entry at the end. */
  lemma {:induction false} AddValuesNew(fs: UnknownFields, n: FieldNumber, vs: seq<UnknownValue>)
    requires n !in Numbers(fs) && vs != []
    ensures AddValues(fs, n, vs) == fs + [UnknownField(n, vs)]
  {
    var init, last := vs[..|vs| - 1], vs[|vs| - 1];
    if init == [] {
      AddValueNew(fs, n, last);
      assert vs == [last];
    } else {
      AddValuesNew(fs, n, init);
      AddValueToLast(fs, UnknownField(n, init), last);
      assert init + [last] == vs;
    }
  }

  /** Adding, value by value, the entries of a normalized set to an empty
      set rebuilds that set: the order of entries and of values survives. */
  lemma {:induction false} AddFieldsRebuilds(gs: UnknownFields)
    requires Normalized(gs)
    ensures AddFields([], gs) == gs
  {
    if gs != [] {
      var init, last := gs[..|gs| - 1], gs[|gs| - 1];
      assert Normalized(init) by {
        forall i, j | 0 <= i < j < |init| ensures init[i].number != init[j].number {
          assert init[i] == gs[i] && init[j] == gs[j];
        }
      }
      AddFieldsRebuilds(init);
      assert last.number !in Numbers(init) by {
        forall i | 0 <= i < |init| ensures init[i].number != last.number {
          assert init[i] == gs[i];
        }
      }
      AddValuesNew(init, last.number, last.values);
      assert init + [last] == gs;
    }
  }

  // ---------------------------------------------------------------- reading

  /** `read_bytes`: a u32 varint length, then that many bytes. */
  function ReadBytes(s: seq<byte>, pos: nat): (r: Result<(seq<byte>, nat), ReadError>)
    ensures r.Ok? ==> pos < r.value.1 <= |s|
  {
    match ReadRawVarint32(s, pos)
    case Err(e) => Err(e)
    case Ok((len, p)) =>
      if p + len > |s| then Err(UnexpectedEof) else Ok((s[p..p + len], p + len))
  }

  /** One field value after its tag, or a skipped group (`None`). A field
      number of 0 and wire-type codes 6 and 7 are invalid tags; an end-group
      tag outside a group is an error. */
  function ReadUnknownOrSkipGroup(s: seq<byte>, pos: nat, tag: u32): (r: Result<(Option<(FieldNumber, UnknownValue)>, nat), ReadError>)
    ensures r.Ok? ==> pos < r.value.1 <= |s|
    decreases |s| - pos, 1
  {
    var number := tag / 8;
    var code := tag % 8;
    if number == 0 || WireTypeOfCode(code).None? then Err(InvalidTag(tag))
    else match WireTypeOfCode(code).value
      case Varint =>
        (match ReadRawVarint64(s, pos)
         case Err(e) => Err(e)
         case Ok((v, p)) => Ok((Some((number, VarintValue(v))), p)))
      case Fixed64 =>
        (match ReadLittleEndian(s, pos, 8)
         case Err(e) => Err(e)
         case Ok((v, p)) =>
           assert v < TWO_64 by { FromLittleEndianBound(s[pos..pos + 8]); Pow256Widths(); }
           Ok((Some((number, UnknownValue.Fixed64(v))), p)))
      case Fixed32 =>
        (match ReadLittleEndian(s, pos, 4)
         case Err(e) => Err(e)
         case Ok((v, p)) =>
           assert v < TWO_32 by { FromLittleEndianBound(s[pos..pos + 4]); Pow256Widths(); }
           Ok((Some((number, UnknownValue.Fixed32(v))), p)))
      case LengthDelimited =>
        (match ReadBytes(s, pos)
         case Err(e) => Err(e)
         case Ok((bs, p)) => Ok((Some((number, UnknownValue.LengthDelimited(bs))), p)))
      case StartGroup =>
        (match SkipGroup(s, pos, number)
         case Err(e) => Err(e)
         case Ok(p) => Ok((None, p)))
      case EndGroup => Err(UnexpectedEndGroup)
  }

  /** Skips the fields of a group up to and including the end-group tag of
      the same number; nested groups are skipped whole. */
  function SkipGroup(s: seq<byte>, pos: nat, number: nat): (r: Result<nat, ReadError>)
    ensures r.Ok? ==> pos < r.value <= |s|
    decreases |s| - pos, 0
  {
    match ReadRawVarint32(s, pos)
    case Err(e) => Err(e)
    case Ok((tag, p)) =>
      if tag % 8 == 4 then
        (if tag / 8 == number then Ok(p) else Err(UnexpectedEndGroup))
      else
        match ReadUnknownOrSkipGroup(s, p, tag)
        case Err(e) => Err(e)
        case Ok((_, q)) =>
          match SkipGroup(s, q, number)
          case Err(e) => Err(e)
          case Ok(q2) => Ok(q2)
  }

  lemma ReadBytesRoundTrip(s: seq<byte>, pos: nat, bs: seq<byte>)
    requires |bs| < TWO_32
    requires pos + |BytesNoTag(bs)| <= |s| && s[pos..pos + |BytesNoTag(bs)|] == BytesNoTag(bs)
    ensures ReadBytes(s, pos) == Ok((bs, pos + |BytesNoTag(bs)|))
  {
    var e := EncodeVarint(|bs|);
    assert TruncU32(|bs|) == |bs|;
    assert BytesNoTag(bs) == e + bs;
    assert s[pos..pos + |e|] == e by { assert s[pos..pos + |e|] == s[pos..pos + |BytesNoTag(bs)|][..|e|]; }
    assert ReadRawVarint32(s, pos) == Ok((|bs|, pos + |e|)) by {
      VarintRoundTrip(s, pos, |bs|);
      assert |bs| % TWO_32 == |bs|;
    }
    assert s[pos + |e|..pos + |e| + |bs|] == bs by {
      assert s[pos + |e|..pos + |e| + |bs|] == s[pos..pos + |BytesNoTag(bs)|][|e|..];
    }
  }

  /** Reading an encoded value after its tag gives the value back. */
  lemma ReadValueRoundTrip(s: seq<byte>, pos: nat, n: FieldNumber, u: UnknownValue)
    requires ValueFits(u)
    requires At(s, pos, ValueNoTag(u))
    ensures ReadUnknownOrSkipGroup(s, pos, TagValue(n, WireTypeOf(u)))
         == Ok((Some((n, u)), pos + |ValueNoTag(u)|))
  {
    AtIsSlice(s, pos, ValueNoTag(u));
    var tag := TagValue(n, WireTypeOf(u));
    assert tag / 8 == n && WireTypeOfCode(tag % 8) == Some(WireTypeOf(u));
    match u
    case Fixed32(v) =>
      assert ReadLittleEndian(s, pos, 4) == Ok((v as nat, pos + 4)) by {
        Pow256Widths();
        LittleEndianReadBack(s, pos, v, 4);
      }
    case Fixed64(v) =>
      assert ReadLittleEndian(s, pos, 8) == Ok((v as nat, pos + 8)) by {
        Pow256Widths();
        LittleEndianReadBack(s, pos, v, 8);
      }
    case VarintValue(v) =>
      VarintRoundTrip(s, pos, v);
    case LengthDelimited(bs) =>
      ReadBytesRoundTrip(s, pos, bs);
  }

  /** A tagged value read back: the tag first, then the field number and the value. */
  lemma ReadEncodedValue(s: seq<byte>, pos: nat, n: FieldNumber, u: UnknownValue) returns (p: nat, q: nat)
    requires ValueFits(u) && At(s, pos, EncodeValue(n, u))
    ensures q == pos + |EncodeValue(n, u)|
    ensures ReadRawVarint32(s, pos) == Ok((TagValue(n, WireTypeOf(u)), p))
    ensures ReadUnknownOrSkipGroup(s, p, TagValue(n, WireTypeOf(u))) == Ok((Some((n, u)), q))
  {
    var t, v := TagBytes(n, WireTypeOf(u)), ValueNoTag(u);
    AtSplit(s, pos, EncodeValue(n, u), t, v);
    p := pos + |t|;
    q := p + |v|;
    TagRoundTrip(s, pos, n, WireTypeOf(u));
    ReadValueRoundTrip(s, p, n, u);
  }
}
