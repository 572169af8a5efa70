// What the code generated for one field does at run time: which values it
// stores, when a singular value counts as present, the bytes `write_to`
// emits for it and the size `compute_size` adds for it. The size is proved
// to be the number of bytes written.
module FieldValue {
  import opened Wrappers
  import opened WireFormat
  import opened Descriptor
  import Scalar
  import Unknown
  import opened FieldGen

  /** A stored element: scalars as integers (floats and doubles as their
      IEEE 754 bit patterns, bools as 0 or 1), strings and bytes as bytes,
      a nested message as its encoding. */
  datatype Value = Num(n: int) | Bytes(bytes: seq<byte>) | Msg(encoded: seq<byte>)

  /** The value has the representation of an element of type `t`; groups
      hold no values. */
  predicate ValueOk(t: FieldType, v: Value)
  {
    match t
    case TypeMessage => v.Msg?
    case TypeString => v.Bytes?
    case TypeBytes => v.Bytes?
    case _ => ScalarKindOf(t).Some? && v.Num? && Scalar.InRange(ScalarKindOf(t).value, v.n)
  }

  /** A length-delimited value whose length survives the cast to u32. */
  predicate ValueFits(v: Value)
  {
    (v.Bytes? ==> |v.bytes| < TWO_32) && (v.Msg? ==> |v.encoded| < TWO_32)
  }

  function PayloadOf(v: Value): seq<byte>
    requires !v.Num?
  {
    if v.Bytes? then v.bytes else v.encoded
  }

  // ---------------------------------------------------------------- one element

  /** `write_write_element`: a message through
      `write_message_field_with_cached_size` (tag, cached size, encoding),
      strings and bytes as length-delimited records, scalars through their
      `write_<type>`. */
  function ElementBytes(n: FieldNumber, t: FieldType, v: Value): seq<byte>
    requires ValueOk(t, v)
  {
    if v.Num? then Scalar.Field(ScalarKindOf(t).value, n, v.n)
    else TagBytes(n, LengthDelimited) + Unknown.BytesNoTag(PayloadOf(v))
  }

  /** `write_element_size` and `element_size`: the type's fixed size plus the
      tag size where there is one, otherwise the tag size plus the length
      prefix and payload, or plus the varint size of the value. */
  function ElementSize(n: FieldNumber, t: FieldType, v: Value): nat
    requires ValueOk(t, v)
  {
    match FieldTypeSize(t)
    case Some(s) => s + TagSize(n)
    case None =>
      if v.Num? then TagSize(n) + Scalar.NoTagSize(ScalarKindOf(t).value, v.n)
      else TagSize(n) + Unknown.LengthDelimitedSize(|PayloadOf(v)|)
  }

  /** The size of one element is the length of its record. */
  lemma ElementSizeIsLength(n: FieldNumber, t: FieldType, v: Value)
    requires ValueOk(t, v) && ValueFits(v)
    ensures ElementSize(n, t, v) == |ElementBytes(n, t, v)|
    ensures ElementBytes(n, t, v) != []
  {
    if v.Num? {
      var k := ScalarKindOf(t).value;
      TagSizeIsLength(n, Scalar.WireTypeOf(k));
      Scalar.NoTagSizeIsLength(k, v.n);
      FieldTypeSizeIsWidth(t, v.n);
    } else {
      TagSizeIsLength(n, LengthDelimited);
      VarintSizeIsLength(|PayloadOf(v)|);
    }
  }

  function ElementsBytes(n: FieldNumber, t: FieldType, vs: seq<Value>): seq<byte>
    requires forall i :: 0 <= i < |vs| ==> ValueOk(t, vs[i])
  {
    if vs == [] then [] else ElementsBytes(n, t, vs[..|vs| - 1]) + ElementBytes(n, t, vs[|vs| - 1])
  }

  function ElementsSize(n: FieldNumber, t: FieldType, vs: seq<Value>): nat
    requires forall i :: 0 <= i < |vs| ==> ValueOk(t, vs[i])
  {
    if vs == [] then 0 else ElementsSize(n, t, vs[..|vs| - 1]) + ElementSize(n, t, vs[|vs| - 1])
  }

  lemma {:induction false} ElementsSizeIsLength(n: FieldNumber, t: FieldType, vs: seq<Value>)
    requires forall i :: 0 <= i < |vs| ==> ValueOk(t, vs[i]) && ValueFits(vs[i])
    ensures ElementsSize(n, t, vs) == |ElementsBytes(n, t, vs)|
  {
    if vs != [] {
      ElementsSizeIsLength(n, t, vs[..|vs| - 1]);
      ElementSizeIsLength(n, t, vs[|vs| - 1]);
    }
  }

  /** Unpacked elements of a fixed-size type take the same room each. */
  lemma {:induction false} FixedElementsLength(n: FieldNumber, t: FieldType, vs: seq<Value>)
    requires forall i :: 0 <= i < |vs| ==> ValueOk(t, vs[i])
    requires FieldTypeSize(t).Some?
    ensures |ElementsBytes(n, t, vs)| == (FieldTypeSize(t).value + TagSize(n)) * |vs|
  {
    if vs != [] {
      var init, last := vs[..|vs| - 1], vs[|vs| - 1];
      var w := FieldTypeSize(t).value + TagSize(n);
      FixedElementsLength(n, t, init);
      ElementSizeIsLength(n, t, last);
      assert |ElementsBytes(n, t, vs)| == w * |init| + w;
      MulSucc(w, |init|);
    }
  }

  lemma MulSucc(w: nat, k: nat)
    ensures w * (k + 1) == w * k + w
  {
  }

  // ---------------------------------------------------------------- presence

  /** The value a flagless field holds when unset: the enum's default
      number, an empty string or bytes, otherwise zero. */
  function DefaultValue(e: FieldElem): Value
  {
    match e
    case Primitive(t) => if t == TypeString || t == TypeBytes then Bytes([]) else Num(0)
    case EnumElem(_, d) => Num(d)
    case MessageElem(_) => Msg([])
    case GroupElem => Num(0)
  }

  /** The emptiness and `!= default` tests of `write_if_let_self_field_is_some`
      for flagless fields; floats compare as numbers, so negative zero
      counts as the default too. */
  predicate IsDefault(e: FieldElem, v: Value)
  {
    match e
    case Primitive(TypeFloat) => v == Num(0) || v == Num(0x8000_0000)
    case Primitive(TypeDouble) => v == Num(0) || v == Num(0x8000_0000_0000_0000)
    case Primitive(TypeString) => v.Bytes? && v.bytes == []
    case Primitive(TypeBytes) => v.Bytes? && v.bytes == []
    case _ => v == DefaultValue(e)
  }

  /** What the struct field of each kind holds: an optional value behind a
      flag, a plain value, a vector, a map (as its entries, in iteration
      order) or nothing (oneof members live in the oneof's own slot, and
      group fields are not stored). */
  datatype FieldState =
    | Flagged(opt: Option<Value>)
    | Plain(value: Value)
    | Elements(values: seq<Value>)
    | Entries(entries: seq<(Value, Value)>)
    | NoSlot

  predicate DistinctKeys(es: seq<(Value, Value)>)
  {
    forall i, j :: 0 <= i < j < |es| ==> es[i].0 != es[j].0
  }

  predicate StateOk(g: FieldGen, s: FieldState)
  {
    if g.kind.Oneof? || g.protoType == TypeGroup then s == NoSlot
    else match g.kind
      case Singular(WithFlag(_, _), _) => s.Flagged? && (s.opt.Some? ==> ValueOk(g.protoType, s.opt.value))
      case Singular(WithoutFlag, _) => s.Plain? && ValueOk(g.protoType, s.value)
      case Repeated(_, _) => s.Elements? && forall i :: 0 <= i < |s.values| ==> ValueOk(g.protoType, s.values[i])
      case Map(key, value) =>
        && s.Entries? && DistinctKeys(s.entries)
        && forall i :: 0 <= i < |s.entries| ==>
             ValueOk(ElemType(key), s.entries[i].0) && ValueOk(ElemType(value), s.entries[i].1)
  }

  /** A singular value is present: set, for a flagged field; different from
      the default, for a flagless one. */
  predicate Present(g: FieldGen, s: FieldState)
    requires StateOk(g, s) && g.kind.Singular?
  {
    if s.Flagged? then s.opt.Some? else s.Plain? && !IsDefault(g.kind.elem, s.value)
  }

  // ---------------------------------------------------------------- whole fields

  function Nums(vs: seq<Value>): (r: seq<int>)
    requires forall i :: 0 <= i < |vs| ==> vs[i].Num?
    ensures |r| == |vs| && forall i :: 0 <= i < |vs| ==> r[i] == vs[i].n
  {
    seq(|vs|, i requires 0 <= i < |vs| => vs[i].n)
  }

  lemma NumsInRange(t: FieldType, vs: seq<Value>)
    requires ScalarKindOf(t).Some? && forall i :: 0 <= i < |vs| ==> ValueOk(t, vs[i])
    ensures forall i :: 0 <= i < |vs| ==> vs[i].Num?
    ensures Scalar.AllInRange(ScalarKindOf(t).value, Nums(vs))
  {
    assert t != TypeMessage && t != TypeString && t != TypeBytes;
  }

  /** The size of a map entry's payload: key as field 1, value as field 2. */
  function EntrySize(kt: FieldType, vt: FieldType, e: (Value, Value)): nat
    requires ValueOk(kt, e.0) && ValueOk(vt, e.1)
  {
    ElementSize(1, kt, e.0) + ElementSize(2, vt, e.1)
  }

  function EntryBytes(kt: FieldType, vt: FieldType, e: (Value, Value)): seq<byte>
    requires ValueOk(kt, e.0) && ValueOk(vt, e.1)
  {
    ElementBytes(1, kt, e.0) + ElementBytes(2, vt, e.1)
  }

  predicate EntriesOk(kt: FieldType, vt: FieldType, es: seq<(Value, Value)>)
  {
    forall i :: 0 <= i < |es| ==> ValueOk(kt, es[i].0) && ValueOk(vt, es[i].1)
  }

  /** Every map entry as one length-delimited record. */
  function EntriesBytes(n: FieldNumber, kt: FieldType, vt: FieldType, es: seq<(Value, Value)>): seq<byte>
    requires EntriesOk(kt, vt, es)
  {
    if es == [] then []
    else EntriesBytes(n, kt, vt, es[..|es| - 1])
         + TagBytes(n, LengthDelimited) + Unknown.BytesNoTag(EntryBytes(kt, vt, es[|es| - 1]))
  }

  function EntriesSize(n: FieldNumber, kt: FieldType, vt: FieldType, es: seq<(Value, Value)>): nat
    requires EntriesOk(kt, vt, es)
  {
    if es == [] then 0
    else EntriesSize(n, kt, vt, es[..|es| - 1])
         + TagSize(n) + Unknown.LengthDelimitedSize(EntrySize(kt, vt, es[|es| - 1]))
  }

  /** The size `vec_packed_*_size` gives a non-empty packed vector. */
  function PackedSize(k: Scalar.ScalarKind, n: FieldNumber, ns: seq<int>): nat
    requires Scalar.AllInRange(k, ns)
  {
    var data := Scalar.PackedDataSize(k, ns);
    TagSize(n) + VarintSize(data) + data
  }

  /** `write_message_write_field`: a singular field's element when it is
      present, an unpacked vector element by element, a packed vector
      through `write_repeated_packed_*`, a map entry by entry. */
  function FieldBytes(g: FieldGen, s: FieldState): seq<byte>
    requires Consistent(g) && StateOk(g, s)
  {
    match s
    case Flagged(o) => if o.Some? then ElementBytes(g.number, g.protoType, o.value) else []
    case Plain(v) => if IsDefault(g.kind.elem, v) then [] else ElementBytes(g.number, g.protoType, v)
    case Elements(vs) =>
      if g.kind.packed then
        NumsInRange(g.protoType, s.values);
        Scalar.Packed(ScalarKindOf(g.protoType).value, g.number, Nums(vs))
      else ElementsBytes(g.number, g.protoType, vs)
    case Entries(es) => EntriesBytes(g.number, ElemType(g.kind.key), ElemType(g.kind.value), es)
    case NoSlot => []
  }

  /** `write_message_compute_field_size`. */
  function FieldSize(g: FieldGen, s: FieldState): (r: nat)
    requires Consistent(g) && StateOk(g, s)
    ensures s.Elements? && g.kind.packed && s.values == [] ==> r == 0
    ensures s.Elements? && !g.kind.packed && FieldTypeSize(g.protoType).Some? ==>
              r == (FieldTypeSize(g.protoType).value + TagSize(g.number)) * |s.values|
  {
    match s
    case Flagged(o) => if o.Some? then ElementSize(g.number, g.protoType, o.value) else 0
    case Plain(v) => if IsDefault(g.kind.elem, v) then 0 else ElementSize(g.number, g.protoType, v)
    case Elements(vs) =>
      if g.kind.packed then
        if vs == [] then 0
        else
          NumsInRange(g.protoType, s.values);
          PackedSize(ScalarKindOf(g.protoType).value, g.number, Nums(vs))
      else if FieldTypeSize(g.protoType).Some? then
        (FieldTypeSize(g.protoType).value + TagSize(g.number)) * |vs|
      else ElementsSize(g.number, g.protoType, vs)
    case Entries(es) => EntriesSize(g.number, ElemType(g.kind.key), ElemType(g.kind.value), es)
    case NoSlot => 0
  }

  /** Every length prefix the field's records carry survives the cast to
      u32. */
  predicate StateFits(g: FieldGen, s: FieldState)
    requires Consistent(g) && StateOk(g, s)
  {
    match s
    case Flagged(o) => o.Some? ==> ValueFits(o.value)
    case Plain(v) => ValueFits(v)
    case Elements(vs) =>
      && (forall i :: 0 <= i < |vs| ==> ValueFits(vs[i]))
      && (g.kind.packed ==> PackedFits(g.protoType, vs))
    case Entries(es) =>
      forall i :: 0 <= i < |es| ==>
        && ValueFits(es[i].0) && ValueFits(es[i].1)
        && EntrySize(ElemType(g.kind.key), ElemType(g.kind.value), es[i]) < TWO_32
    case NoSlot => true
  }

  predicate PackedFits(t: FieldType, vs: seq<Value>)
    requires ScalarKindOf(t).Some? && forall i :: 0 <= i < |vs| ==> ValueOk(t, vs[i])
  {
    NumsInRange(t, vs);
    Scalar.PackedDataSize(ScalarKindOf(t).value, Nums(vs)) < TWO_32
  }

  /** A singular field writes something exactly when its value is present. */
  lemma SingularWrittenIffPresent(g: FieldGen, s: FieldState)
    requires Consistent(g) && StateOk(g, s) && StateFits(g, s) && g.kind.Singular?
    ensures FieldBytes(g, s) != [] <==> Present(g, s)
  {
    if s.Flagged? && s.opt.Some? {
      ElementSizeIsLength(g.number, g.protoType, s.opt.value);
    } else if s.Plain? {
      ElementSizeIsLength(g.number, g.protoType, s.value);
    }
  }

  lemma PackedSizeIsLength(k: Scalar.ScalarKind, n: FieldNumber, ns: seq<int>)
    requires Scalar.AllInRange(k, ns) && ns != [] && Scalar.PackedDataSize(k, ns) < TWO_32
    ensures PackedSize(k, n, ns) == |Scalar.Packed(k, n, ns)|
  {
    TagSizeIsLength(n, LengthDelimited);
    Scalar.PackedDataSizeIsLength(k, ns);
    VarintSizeIsLength(Scalar.PackedDataSize(k, ns));
  }

  lemma {:induction false} EntriesSizeIsLength(n: FieldNumber, kt: FieldType, vt: FieldType, es: seq<(Value, Value)>)
    requires EntriesOk(kt, vt, es)
    requires forall i :: 0 <= i < |es| ==>
               ValueFits(es[i].0) && ValueFits(es[i].1) && EntrySize(kt, vt, es[i]) < TWO_32
    ensures EntriesSize(n, kt, vt, es) == |EntriesBytes(n, kt, vt, es)|
  {
    if es != [] {
      var e := es[|es| - 1];
      EntriesSizeIsLength(n, kt, vt, es[..|es| - 1]);
      ElementSizeIsLength(1, kt, e.0);
      ElementSizeIsLength(2, vt, e.1);
      TagSizeIsLength(n, LengthDelimited);
      VarintSizeIsLength(EntrySize(kt, vt, e));
    }
  }

  /** The size `compute_size` adds for a field is the number of bytes
      `write_to` emits for it. */
  lemma FieldSizeIsLength(g: FieldGen, s: FieldState)
    requires Consistent(g) && StateOk(g, s) && StateFits(g, s)
    ensures FieldSize(g, s) == |FieldBytes(g, s)|
  {
    match s
    case Flagged(o) =>
      if o.Some? {
        ElementSizeIsLength(g.number, g.protoType, o.value);
      }
    case Plain(v) =>
      ElementSizeIsLength(g.number, g.protoType, v);
    case Elements(vs) =>
      if g.kind.packed {
        if vs != [] {
          NumsInRange(g.protoType, vs);
          PackedSizeIsLength(ScalarKindOf(g.protoType).value, g.number, Nums(vs));
        }
      } else if FieldTypeSize(g.protoType).Some? {
        FixedElementsLength(g.number, g.protoType, vs);
      } else {
        ElementsSizeIsLength(g.number, g.protoType, vs);
      }
    case Entries(es) =>
      EntriesSizeIsLength(g.number, ElemType(g.kind.key), ElemType(g.kind.value), es);
    case NoSlot =>
  }
}
