// The code generator's per-field decisions (`FieldGen::parse` and the
// predicates the emitted code is built from): the field's kind and presence
// flag, the accessors it gets, its tags in the decode loop, the fixed size of
// its values and the Rust name of its struct field. The Rust text is not
// modelled, only the choices that shape it.
module FieldGen {
  import opened Wrappers
  import opened WireFormat
  import opened Descriptor
  import Scalar
  import OneofBoxing

  /** `FieldElem`: what one element of the field is. */
  datatype FieldElem =
    | Primitive(primitiveType: FieldType)
    | MessageElem(messageName: string)
    | EnumElem(enumName: string, defaultNumber: i32)
    | GroupElem

  /** `FieldElem::proto_type`. */
  function ElemType(e: FieldElem): FieldType
  {
    match e
    case Primitive(t) => t
    case MessageElem(_) => TypeMessage
    case EnumElem(_, _) => TypeEnum
    case GroupElem => TypeGroup
  }

  /** Message, enum and group elements have their own constructors, as
      `field_elem` builds them; a primitive is none of these. */
  predicate NamedIfNamedType(e: FieldElem)
  {
    e.Primitive? ==> e.primitiveType != TypeMessage && e.primitiveType != TypeEnum && e.primitiveType != TypeGroup
  }

  /** `field_elem`: groups, then named types (messages and enums, the latter
      with the number of their default value), then primitives. */
  function ElemOf(f: FieldDescriptor): (e: FieldElem)
    ensures ElemType(e) == f.fieldType && NamedIfNamedType(e)
    ensures e.EnumElem? ==> e.enumName == f.typeName && e.defaultNumber == f.enumDefault
    ensures e.MessageElem? ==> e.messageName == f.typeName
  {
    match f.fieldType
    case TypeGroup => GroupElem
    case TypeMessage => MessageElem(f.typeName)
    case TypeEnum => EnumElem(f.typeName, f.enumDefault)
    case t => Primitive(t)
  }

  datatype OptionKind = OptionStorage | MessageFieldStorage

  datatype SingularFieldFlag =
    | WithFlag(required: bool, optionKind: OptionKind)
    | WithoutFlag

  datatype FieldKind =
    | Singular(flag: SingularFieldFlag, elem: FieldElem)
    | Repeated(elem: FieldElem, packed: bool)
    | Map(key: FieldElem, value: FieldElem)
    | Oneof(elem: FieldElem, boxed: bool, oneofIndex: nat)

  /** The per-field options of `Customize` that `parse` consults. */
  datatype Customize = Customize(exposeFields: Option<bool>, generateAccessors: Option<bool>, generateGetter: Option<bool>)

  const NoCustomize := Customize(None, None, None)

  /** One field as the generator sees it after `parse`. */
  datatype FieldGen = FieldGen(
    rustName: string,
    number: FieldNumber,
    protoType: FieldType,
    wireType: WireType,
    kind: FieldKind,
    exposeField: bool,
    generateAccessors: bool,
    generateGetter: bool)

  function UnwrapOr(o: Option<bool>, d: bool): bool
  {
    if o.Some? then o.value else d
  }

  // ---------------------------------------------------------------- parse

  /** A proto2 field that is neither repeated nor a message may declare a
      custom default, which the generated getter must return. */
  predicate MayHaveCustomDefault(f: FieldDescriptor, syntax: Syntax)
  {
    syntax == Proto2 && f.fieldLabel != LabelRepeated && f.fieldType != TypeMessage
  }

  datatype Flags = Flags(exposeField: bool, generateAccessors: bool, generateGetter: bool)

  /** The exposure and accessor flags of `parse`: customization wins where it
      is given; a field in a oneof always gets accessors and a getter. */
  function FlagsFor(f: FieldDescriptor, syntax: Syntax, c: Customize): (r: Flags)
    ensures f.oneof.Some? ==> r.generateAccessors && r.generateGetter
    ensures c.exposeFields.None? ==> (r.exposeField <==> !MayHaveCustomDefault(f, syntax))
    ensures c.exposeFields.Some? ==> r.exposeField == c.exposeFields.value
    ensures c.generateAccessors.None? ==> (r.generateAccessors <==> !r.exposeField || f.oneof.Some?)
    ensures c.generateGetter.None? ==>
              (r.generateGetter <==> r.generateAccessors || MayHaveCustomDefault(f, syntax) || f.oneof.Some?)
  {
    var mayHaveCustomDefault := MayHaveCustomDefault(f, syntax);
    var expose := UnwrapOr(c.exposeFields, !mayHaveCustomDefault);
    var accessors := UnwrapOr(c.generateAccessors, !expose) || f.oneof.Some?;
    var getter := UnwrapOr(c.generateGetter, accessors || mayHaveCustomDefault) || f.oneof.Some?;
    Flags(expose, accessors, getter)
  }

  /** A map field's type names its entry message, whose first field is the
      key (number 1) and second the value (number 2). */
  predicate MapEntryOk(scope: Scope, f: FieldDescriptor)
  {
    && f.typeName in scope
    && |scope[f.typeName].fields| == 2
    && scope[f.typeName].fields[0].number == 1
    && scope[f.typeName].fields[1].number == 2
  }

  predicate IsMapField(f: FieldDescriptor)
  {
    f.fieldLabel == LabelRepeated && f.isMap
  }

  /** The kind `parse` gives a field, by its runtime type: map, repeated, or
      singular (a oneof variant, or a plain field with or without a presence
      flag). `boxed` is what the recursion check answered for a variant. */
  function KindOf(f: FieldDescriptor, syntax: Syntax, scope: Scope, boxed: bool): (k: FieldKind)
    requires IsMapField(f) ==> MapEntryOk(scope, f)
    ensures k.Map? <==> IsMapField(f)
    ensures k.Repeated? <==> f.fieldLabel == LabelRepeated && !f.isMap
    ensures k.Oneof? <==> f.fieldLabel != LabelRepeated && f.oneof.Some?
    ensures k.Singular? ==> (k.flag.WithoutFlag? <==> syntax == Proto3 && f.fieldType != TypeMessage)
    ensures k.Singular? && k.flag.WithFlag? ==>
              && (k.flag.required <==> f.fieldLabel == LabelRequired)
              && (k.flag.optionKind == MessageFieldStorage <==> f.fieldType == TypeMessage)
    ensures k.Repeated? ==> k.packed == f.packed
    ensures k.Oneof? ==> k.boxed == boxed && k.oneofIndex == f.oneof.value
    ensures !k.Map? ==> k.elem == ElemOf(f)
    ensures k.Map? ==> k.key == ElemOf(scope[f.typeName].fields[0]) && k.value == ElemOf(scope[f.typeName].fields[1])
  {
    if IsMapField(f) then
      var entry := scope[f.typeName];
      Map(ElemOf(entry.fields[0]), ElemOf(entry.fields[1]))
    else if f.fieldLabel == LabelRepeated then
      Repeated(ElemOf(f), f.packed)
    else if f.oneof.Some? then
      Oneof(ElemOf(f), boxed, f.oneof.value)
    else if syntax == Proto3 && f.fieldType != TypeMessage then
      Singular(WithoutFlag, ElemOf(f))
    else
      Singular(WithFlag(f.fieldLabel == LabelRequired,
                        if f.fieldType == TypeMessage then MessageFieldStorage else OptionStorage),
               ElemOf(f))
  }

  function FieldGenOf(f: FieldDescriptor, syntax: Syntax, scope: Scope, c: Customize, boxed: bool): FieldGen
    requires IsMapField(f) ==> MapEntryOk(scope, f)
  {
    var flags := FlagsFor(f, syntax, c);
    FieldGen(RustFieldName(f.name), f.number, f.fieldType, WireTypeFor(f.fieldType),
             KindOf(f, syntax, scope, boxed), flags.exposeField, flags.generateAccessors, flags.generateGetter)
  }

  /** `FieldGen::parse`: classifies the field and, for a oneof variant, asks
      the recursion check whether its value must be boxed. `owner` is the
      message the field belongs to. */
  method Parse(f: FieldDescriptor, owner: string, scope: Scope, syntax: Syntax, c: Customize) returns (g: FieldGen)
    requires OneofBoxing.Resolves(scope)
    requires f.fieldType == TypeMessage ==> f.typeName in scope
    requires IsMapField(f) ==> MapEntryOk(scope, f)
    requires Validated(f)
    ensures g == FieldGenOf(f, syntax, scope, c, g.kind.Oneof? && g.kind.boxed)
    ensures g.kind.Oneof? ==>
              (g.kind.boxed <==> f.fieldType == TypeMessage && OneofBoxing.Reachable(scope, f.typeName, owner))
    ensures Consistent(g)
  {
    var boxed := false;
    if !IsMapField(f) && f.fieldLabel != LabelRepeated && f.oneof.Some? {
      boxed := OneofBoxing.NeedBoxed(f, scope, owner);
    }
    g := FieldGenOf(f, syntax, scope, c, boxed);
  }

  /** What every parsed field satisfies: the wire type is the one of the
      declared type, and the element type is the declared type. Singular
      message fields always have a flag; packed fields are scalars (the
      schema compiler rejects other packed fields). */
  predicate Consistent(g: FieldGen)
  {
    && g.wireType == WireTypeFor(g.protoType)
    && (!g.kind.Map? ==> ElemType(g.kind.elem) == g.protoType && NamedIfNamedType(g.kind.elem))
    && (g.kind.Map? ==> g.protoType == TypeMessage)
    && (g.kind.Singular? && g.kind.flag.WithoutFlag? ==> g.protoType != TypeMessage)
    && (g.kind.Repeated? && g.kind.packed ==> ScalarKindOf(g.protoType).Some?)
  }

  /** What the schema compiler guarantees of a declared field: only scalars
      are packed, and map fields are message-typed. */
  predicate Validated(f: FieldDescriptor)
  {
    && (f.packed ==> ScalarKindOf(f.fieldType).Some?)
    && (f.isMap ==> f.fieldType == TypeMessage)
  }

  // ---------------------------------------------------------------- types

  /** `type_is_copy`: every element type but messages, strings and bytes is
      stored inline. */
  function TypeIsCopy(t: FieldType): (r: bool)
    ensures !r <==> t in {TypeMessage, TypeString, TypeBytes}
  {
    !(t == TypeMessage || t == TypeString || t == TypeBytes)
  }

  /** `field_type_size`: the encoded size of every value of the type, or
      None when it varies. */
  function FieldTypeSize(t: FieldType): (r: Option<nat>)
    ensures r == Some(1) <==> t == TypeBool
    ensures r == Some(4) <==> WireTypeFor(t) == WireType.Fixed32
    ensures r == Some(8) <==> WireTypeFor(t) == WireType.Fixed64
    ensures r.Some? ==> r.value in {1, 4, 8}
  {
    if t == TypeBool then Some(1)
    else if WireTypeFor(t) == WireType.Fixed32 then Some(4)
    else if WireTypeFor(t) == WireType.Fixed64 then Some(8)
    else None
  }

  /** The fixed size is the width the scalar writers give each value. */
  lemma FieldTypeSizeIsWidth(t: FieldType, v: int)
    requires ScalarKindOf(t).Some? && Scalar.InRange(ScalarKindOf(t).value, v)
    ensures FieldTypeSize(t) == Scalar.FixedWidth(ScalarKindOf(t).value)
    ensures FieldTypeSize(t).Some? ==> |Scalar.NoTag(ScalarKindOf(t).value, v)| == FieldTypeSize(t).value
  {
    Scalar.NoTagSizeIsLength(ScalarKindOf(t).value, v);
  }

  /** Where no fixed size is given, the size really varies: zero takes one
      byte and 1000 takes two. */
  lemma NoFixedSizeVaries(t: FieldType)
    requires ScalarKindOf(t).Some? && FieldTypeSize(t).None?
    ensures Scalar.InRange(ScalarKindOf(t).value, 0) && Scalar.InRange(ScalarKindOf(t).value, 1000)
    ensures |Scalar.NoTag(ScalarKindOf(t).value, 0)| == 1
    ensures |Scalar.NoTag(ScalarKindOf(t).value, 1000)| == 2
  {
    var k := ScalarKindOf(t).value;
    Scalar.NoTagSizeIsLength(k, 0);
    Scalar.NoTagSizeIsLength(k, 1000);
    assert ZigZag32(1000) == 2000 && ZigZag64(1000) == 2000;
    assert I32AsU64(1000) == 1000 && I64AsU64(1000) == 1000;
    assert VarintSize(0) == 1 && VarintSize(1000) == 2 && VarintSize(2000) == 2;
  }

  // ---------------------------------------------------------------- tags

  /** `tag_with_wire_type`: the field number shifted left by three plus the
      wire type. */
  function TagWithWireType(g: FieldGen, wt: WireType): (t: u32)
    ensures t / 8 == g.number && t % 8 == WireTypeCode(wt)
  {
    g.number * 8 + WireTypeCode(wt)
  }

  /** The label is the tag the reader sees for a field written with it. */
  lemma TagWithWireTypeIsTag(g: FieldGen, wt: WireType)
    ensures TagWithWireType(g, wt) == TagValue(g.number, wt)
  {
    var t := TagWithWireType(g, wt);
    var u := TagValue(g.number, wt);
    assert t == 8 * (t / 8) + t % 8;
    assert u == 8 * (u / 8) + u % 8;
  }

  /** `tag`. */
  function Tag(g: FieldGen): u32
  {
    TagWithWireType(g, g.wireType)
  }

  predicate IsLengthDelimitedElem(e: FieldElem)
  {
    e.MessageElem? || e == Primitive(TypeString) || e == Primitive(TypeBytes)
  }

  /** The case labels `write_merge_from_field_case_block` emits for the
      field, in order: repeated messages, strings and bytes accept their own
      tag; repeated enums the varint and the packed tag; other repeated
      fields the packed and then their own tag; every other kind its own. */
  function AcceptedTags(g: FieldGen): seq<u32>
  {
    match g.kind
    case Repeated(elem, _) =>
      if IsLengthDelimitedElem(elem) then [Tag(g)]
      else if elem.EnumElem? then [TagWithWireType(g, Varint), TagWithWireType(g, LengthDelimited)]
      else [TagWithWireType(g, LengthDelimited), Tag(g)]
    case _ => [Tag(g)]
  }

  /** Every accepted tag carries the field's number; the field's own tag is
      accepted except for repeated enums, which take varint and packed
      records; repeated fields whose elements are not length-delimited take
      packed runs. */
  lemma AcceptedTagsShape(g: FieldGen)
    ensures forall t :: t in AcceptedTags(g) ==> t / 8 == g.number
    ensures Tag(g) in AcceptedTags(g) || (g.kind.Repeated? && g.kind.elem.EnumElem?)
    ensures g.kind.Repeated? && !IsLengthDelimitedElem(g.kind.elem) ==> TagWithWireType(g, LengthDelimited) in AcceptedTags(g)
    ensures g.kind.Repeated? && g.kind.elem.EnumElem? ==> AcceptedTags(g) == [TagWithWireType(g, Varint), TagWithWireType(g, LengthDelimited)]
    ensures !g.kind.Repeated? || IsLengthDelimitedElem(g.kind.elem) ==> AcceptedTags(g) == [Tag(g)]
  {
  }

  /** Fields with different numbers accept disjoint sets of tags. */
  lemma AcceptedTagsDisjoint(g1: FieldGen, g2: FieldGen)
    requires g1.number != g2.number
    ensures forall t :: t in AcceptedTags(g1) ==> t !in AcceptedTags(g2)
  {
    AcceptedTagsShape(g1);
    AcceptedTagsShape(g2);
  }

  /** A repeated scalar field accepts both its packed and its unpacked
      encoding, which are different tags. */
  lemma RepeatedScalarAcceptsBoth(g: FieldGen)
    requires Consistent(g) && g.kind.Repeated? && ScalarKindOf(g.protoType).Some?
    ensures TagWithWireType(g, LengthDelimited) in AcceptedTags(g)
    ensures TagWithWireType(g, Scalar.WireTypeOf(ScalarKindOf(g.protoType).value)) in AcceptedTags(g)
    ensures TagWithWireType(g, LengthDelimited) != TagWithWireType(g, Scalar.WireTypeOf(ScalarKindOf(g.protoType).value))
  {
    WireTypeForScalar(g.protoType);
    assert !IsLengthDelimitedElem(g.kind.elem);
    AcceptedTagsShape(g);
  }

  /** The wire type of the records the generated `write_to` emits for the
      field: packed runs are length-delimited, map entries too (the field's
      type is the entry message), everything else uses the declared type's. */
  function WrittenWireType(g: FieldGen): WireType
  {
    if g.kind.Repeated? && g.kind.packed then LengthDelimited else g.wireType
  }

  /** Every record the writer emits for a field is accepted by that field's
      case in the decode loop. */
  lemma WrittenTagAccepted(g: FieldGen)
    requires Consistent(g)
    ensures TagWithWireType(g, WrittenWireType(g)) in AcceptedTags(g)
  {
    AcceptedTagsShape(g);
    if g.kind.Repeated? && g.kind.elem.EnumElem? {
      assert g.wireType == Varint;
    }
  }

  // ---------------------------------------------------------------- accessors

  /** `has_has`. */
  function HasHas(g: FieldGen): bool
  {
    match g.kind
    case Singular(WithFlag(_, _), _) => true
    case Singular(WithoutFlag, _) => false
    case Oneof(_, _, _) => true
    case _ => false
  }

  /** `has_mut`; `has_take` makes the same choice. */
  function HasMut(g: FieldGen): bool
  {
    match g.kind
    case Repeated(_, _) => true
    case Map(_, _) => true
    case _ => !TypeIsCopy(g.protoType)
  }

  function HasTake(g: FieldGen): bool
  {
    HasMut(g)
  }

  /** A parsed field has `has_xxx` exactly when it is not repeated and has
      explicit presence: it is in a oneof, its file is proto2, or it is a
      message. */
  lemma ParsedHasHas(f: FieldDescriptor, syntax: Syntax, scope: Scope, c: Customize, boxed: bool)
    requires IsMapField(f) ==> MapEntryOk(scope, f)
    ensures HasHas(FieldGenOf(f, syntax, scope, c, boxed)) <==>
              f.fieldLabel != LabelRepeated && (f.oneof.Some? || syntax == Proto2 || f.fieldType == TypeMessage)
  {
  }

  /** A parsed field has `mut_xxx` and `take_xxx` exactly when it is
      repeated or holds a message, string or bytes. */
  lemma ParsedHasMutTake(f: FieldDescriptor, syntax: Syntax, scope: Scope, c: Customize, boxed: bool)
    requires IsMapField(f) ==> MapEntryOk(scope, f)
    ensures var g := FieldGenOf(f, syntax, scope, c, boxed);
            (HasMut(g) <==> f.fieldLabel == LabelRepeated || f.fieldType in {TypeMessage, TypeString, TypeBytes})
            && HasTake(g) == HasMut(g)
  {
  }

  datatype Visibility = Public | Private

  /** `visibility` of the struct field; oneof variants have none of their
      own. */
  function VisibilityOf(g: FieldGen): Visibility
    requires !g.kind.Oneof?
  {
    if g.exposeField then Public
    else match g.kind
      case Repeated(_, _) => Private
      case Singular(WithFlag(_, _), _) => Private
      case Singular(WithoutFlag, _) => Public
      case Map(_, _) => Public
  }

  /** Without customization a field is private exactly when it may carry a
      custom proto2 default (its getter must then supply it). */
  lemma DefaultVisibility(f: FieldDescriptor, syntax: Syntax, scope: Scope, boxed: bool)
    requires IsMapField(f) ==> MapEntryOk(scope, f)
    requires !(f.fieldLabel != LabelRepeated && f.oneof.Some?)
    ensures var g := FieldGenOf(f, syntax, scope, NoCustomize, boxed);
            !g.kind.Oneof? && (VisibilityOf(g) == Private <==> MayHaveCustomDefault(f, syntax))
  {
  }

  // ---------------------------------------------------------------- filters

  /** The positions of the fields `keep` accepts, in declaration order (the
      `iter().filter(..)` of the generator's field lists). */
  function Select(fs: seq<FieldGen>, keep: FieldGen -> bool): (r: seq<nat>)
    ensures forall i :: i in r <==> 0 <= i < |fs| && keep(fs[i])
    ensures forall j, k :: 0 <= j < k < |r| ==> r[j] < r[k]
  {
    SelectFrom(fs, keep, 0)
  }

  function SelectFrom(fs: seq<FieldGen>, keep: FieldGen -> bool, lo: nat): (r: seq<nat>)
    ensures forall i :: i in r <==> lo <= i < |fs| && keep(fs[i])
    ensures forall j, k :: 0 <= j < k < |r| ==> r[j] < r[k]
    decreases |fs| - lo
  {
    if lo >= |fs| then []
    else
      var rest := SelectFrom(fs, keep, lo + 1);
      assert forall j :: 0 <= j < |rest| ==> rest[j] in rest;
      if keep(fs[lo]) then [lo] + rest else rest
  }

  // ---------------------------------------------------------------- names

  /** Rust's strict and reserved keywords (`is_rust_keyword`), in groups
      small enough to check one by one. */
  const StrictKeywordsA: set<string> := {"as", "async", "await", "break", "const", "continue", "crate", "dyn", "else", "enum"}
  const StrictKeywordsB: set<string> := {"extern", "false", "fn", "for", "if", "impl", "in", "let", "loop", "match", "mod"}
  const StrictKeywordsC: set<string> := {"move", "mut", "pub", "ref", "return", "self", "Self", "static", "struct", "super"}
  const StrictKeywordsD: set<string> := {"trait", "true", "type", "unsafe", "use", "where", "while"}
  const ReservedKeywords: set<string> :=
    {"abstract", "become", "box", "do", "final", "macro", "override", "priv", "try", "typeof", "unsized", "virtual", "yield"}
  const RustKeywords: set<string> :=
    StrictKeywordsA + StrictKeywordsB + StrictKeywordsC + StrictKeywordsD + ReservedKeywords

  lemma NotStrictA(k: string) requires '_' in k ensures k !in StrictKeywordsA {}
  lemma NotStrictB(k: string) requires '_' in k ensures k !in StrictKeywordsB {}
  lemma NotStrictC(k: string) requires '_' in k ensures k !in StrictKeywordsC {}
  lemma NotStrictD(k: string) requires '_' in k ensures k !in StrictKeywordsD {}
  lemma NotReserved(k: string) requires '_' in k ensures k !in ReservedKeywords {}

  /** No keyword has an underscore. */
  lemma UnderscoreNotKeyword(k: string)
    requires '_' in k
    ensures k !in RustKeywords
  {
    NotStrictA(k);
    NotStrictB(k);
    NotStrictC(k);
    NotStrictD(k);
    NotReserved(k);
  }

  /** `rust_field_name_for_protobuf_field_name`: a keyword gets the prefix
      `field_`. */
  function RustFieldName(name: string): (r: string)
    ensures r !in RustKeywords
    ensures name !in RustKeywords ==> r == name
    ensures name in RustKeywords ==> r == "field_" + name
  {
    if name in RustKeywords then
      PrefixedNotKeyword("field_", name);
      "field_" + name
    else name
  }

  /** A prefix with an underscore makes any name a non-keyword. */
  lemma PrefixedNotKeyword(prefix: string, name: string)
    requires '_' in prefix
    ensures prefix + name !in RustKeywords
  {
    var j :| 0 <= j < |prefix| && prefix[j] == '_';
    assert (prefix + name)[j] == '_';
    UnderscoreNotKeyword(prefix + name);
  }

  /** The renaming can make two field names collide: a field `type` and a
      field `field_type` get the same struct field. */
  lemma RustFieldNameCollision()
    ensures RustFieldName("type") == RustFieldName("field_type")
  {
    assert "field_type" == "field_" + "type";
    PrefixedNotKeyword("field_", "type");
  }
}
