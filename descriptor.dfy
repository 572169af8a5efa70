// The part of a `.proto` schema the code generator reads: field and message
// descriptors and the scope that resolves message names, together with
// `WireType::for_type`, the wire type each field type is written with.
module Descriptor {
  import opened Wrappers
  import opened WireFormat
  import Scalar

  /** `field_descriptor_proto::Type`, in declaration order. */
  datatype FieldType =
    | TypeDouble | TypeFloat | TypeInt64 | TypeUint64 | TypeInt32 | TypeFixed64
    | TypeFixed32 | TypeBool | TypeString | TypeGroup | TypeMessage | TypeBytes
    | TypeUint32 | TypeEnum | TypeSfixed32 | TypeSfixed64 | TypeSint32 | TypeSint64

  datatype Label = LabelOptional | LabelRequired | LabelRepeated

  datatype Syntax = Proto2 | Proto3

  /** One field as declared. `typeName` names the message or enum type a
      message- or enum-typed field refers to; `oneof` is the index of the
      oneof the field belongs to; `isMap` says that the field's runtime type
      is a map (a repeated field of a map-entry message); `enumDefault` is the
      number of the enum value an enum-typed field defaults to, its declared
      default or else the enum's first value. */
  datatype FieldDescriptor = FieldDescriptor(
    name: string,
    number: FieldNumber,
    fieldLabel: Label,
    fieldType: FieldType,
    typeName: string,
    oneof: Option<nat>,
    isMap: bool,
    packed: bool,
    enumDefault: i32)

  datatype MessageDescriptor = MessageDescriptor(name: string, fields: seq<FieldDescriptor>, oneofCount: nat)

  /** The root scope: every message of the compiled files by absolute name. */
  type Scope = map<string, MessageDescriptor>

  /** `WireType::for_type`: the wire type each field type is written with. */
  function WireTypeFor(t: FieldType): (wt: WireType)
    ensures wt == LengthDelimited <==> t in {TypeString, TypeBytes, TypeMessage}
    ensures wt == StartGroup <==> t == TypeGroup
    ensures wt == WireType.Fixed32 <==> t in {TypeFixed32, TypeSfixed32, TypeFloat}
    ensures wt == WireType.Fixed64 <==> t in {TypeFixed64, TypeSfixed64, TypeDouble}
  {
    match t
    case TypeDouble => WireType.Fixed64
    case TypeFloat => WireType.Fixed32
    case TypeFixed64 => WireType.Fixed64
    case TypeSfixed64 => WireType.Fixed64
    case TypeFixed32 => WireType.Fixed32
    case TypeSfixed32 => WireType.Fixed32
    case TypeString => LengthDelimited
    case TypeBytes => LengthDelimited
    case TypeMessage => LengthDelimited
    case TypeGroup => StartGroup
    case _ => Varint
  }

  /** The scalar encoding a field type's values use on the wire. Float and
      double values are carried as their IEEE 754 bit patterns, which are
      written exactly as fixed32 and fixed64 are. */
  function ScalarKindOf(t: FieldType): Option<Scalar.ScalarKind>
  {
    match t
    case TypeDouble => Some(Scalar.Fixed64)
    case TypeFloat => Some(Scalar.Fixed32)
    case TypeInt64 => Some(Scalar.Int64)
    case TypeUint64 => Some(Scalar.UInt64)
    case TypeInt32 => Some(Scalar.Int32)
    case TypeFixed64 => Some(Scalar.Fixed64)
    case TypeFixed32 => Some(Scalar.Fixed32)
    case TypeBool => Some(Scalar.Bool)
    case TypeUint32 => Some(Scalar.UInt32)
    case TypeEnum => Some(Scalar.Enum)
    case TypeSfixed32 => Some(Scalar.SFixed32)
    case TypeSfixed64 => Some(Scalar.SFixed64)
    case TypeSint32 => Some(Scalar.SInt32)
    case TypeSint64 => Some(Scalar.SInt64)
    case _ => None
  }

  /** The wire type a field type is written with is the one its scalar
      encoding writes. */
  lemma WireTypeForScalar(t: FieldType)
    requires ScalarKindOf(t).Some?
    ensures WireTypeFor(t) == Scalar.WireTypeOf(ScalarKindOf(t).value)
  {
  }
}
