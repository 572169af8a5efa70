// The code generator's view of a oneof: the Rust type of each variant
// (boxed when the variant recurses into its owner), the variants it
// matches on (groups dropped) and the path of a variant. The oneof field
// itself, an optional value of the oneof's enum, is the `oneofs` slot of
// `MessageGen.MessageValue`.
module OneofGen {
  import opened Descriptor
  import opened FieldGen

  /** The shapes of Rust type the oneof code uses. */
  datatype RustType =
    | StorageOf(elem: FieldElem)
    | Uniq(boxed: RustType)

  /** `OneofField::rust_type`: the element's storage type, in a box when the
      variant must be boxed. */
  function VariantType(elem: FieldElem, boxed: bool): (r: RustType)
    ensures r.Uniq? <==> boxed
    ensures (if r.Uniq? then r.boxed else r) == StorageOf(elem)
  {
    var t := StorageOf(elem);
    if boxed then Uniq(t) else t
  }

  /** Field `g` is a member of oneof `o` that is not a group. */
  predicate IsVariantOf(g: FieldGen, o: nat)
  {
    g.kind.Oneof? && g.kind.oneofIndex == o && g.protoType != TypeGroup
  }

  /** `variants_except_group`: the members of oneof `o` in declaration
      order, groups dropped. Fields are looked up by name, and names are
      unique within a message, so a member is its position. */
  function VariantsExceptGroup(fs: seq<FieldGen>, o: nat): (r: seq<nat>)
    ensures forall i :: i in r <==> 0 <= i < |fs| && IsVariantOf(fs[i], o)
    ensures forall j, k :: 0 <= j < k < |r| ==> r[j] < r[k]
  {
    Select(fs, g => IsVariantOf(g, o))
  }

  /** `variant_path`: the oneof enum's path followed by the variant, named
      after its field as struct fields are. */
  function VariantPath(enumPath: seq<string>, fieldName: string): (r: seq<string>)
    ensures |r| == |enumPath| + 1 && r[..|enumPath|] == enumPath
    ensures r[|enumPath|] == RustFieldName(fieldName) && r[|enumPath|] !in RustKeywords
  {
    enumPath + [RustFieldName(fieldName)]
  }
}
