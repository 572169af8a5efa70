// Runtime reflection over enums: an enum descriptor (the declared enum plus
// the indices built from it) and an enum value descriptor (a descriptor
// and the position of one declared value in it), with lookup by number and
// by name, the default value, and `cast` back to a generated enum.
module ReflectEnums {
  import opened Wrappers
  import opened WireFormat
  import opened EnumGen

  /** An enum descriptor: its fully qualified name, the declared enum and
      the two indices built when the descriptor is created. */
  datatype EnumDescriptor = EnumDescriptor(
    fullName: string,
    decl: EnumDecl,
    indexByNumber: map<i32, nat>,
    indexByName: map<string, nat>)

  /** A value descriptor: the enum it belongs to and the position of the
      value among the enum's declared values. Equality is the derived one,
      over both parts. */
  datatype EnumValueDescriptor = EnumValueDescriptor(enumDescriptor: EnumDescriptor, index: nat)

  /** The indices agree with the declared values: a number (name) is a key
      exactly when some value declares it, and it leads to a value that
      declares it. Which of several aliases the number index keeps is left
      open. */
  ghost predicate IndexOk(d: EnumDescriptor)
  {
    && (forall n :: n in d.indexByNumber <==> n in Numbers(d.decl.values))
    && (forall n :: n in d.indexByNumber ==>
          d.indexByNumber[n] < |d.decl.values| && d.decl.values[d.indexByNumber[n]].number == n)
    && (forall s :: s in d.indexByName ==>
          d.indexByName[s] < |d.decl.values| && d.decl.values[d.indexByName[s]].name == s)
    && (forall k :: 0 <= k < |d.decl.values| ==> d.decl.values[k].name in d.indexByName)
  }

  /** The value descriptor points at a declared value. */
  predicate ValueOk(v: EnumValueDescriptor)
  {
    v.index < |v.enumDescriptor.decl.values|
  }

  // ---------------------------------------------------------------- EnumValueDescriptor

  /** `name`: the value's name as declared. */
  function Name(v: EnumValueDescriptor): string
    requires ValueOk(v)
  {
    v.enumDescriptor.decl.values[v.index].name
  }

  /** `full_name`: the enum's full name, a dot, then the value's name. */
  function FullName(v: EnumValueDescriptor): (r: string)
    requires ValueOk(v)
    ensures |r| == |v.enumDescriptor.fullName| + 1 + |Name(v)|
    ensures r[..|v.enumDescriptor.fullName|] == v.enumDescriptor.fullName
    ensures r[|v.enumDescriptor.fullName|] == '.'
    ensures r[|v.enumDescriptor.fullName| + 1..] == Name(v)
  {
    v.enumDescriptor.fullName + "." + Name(v)
  }

  /** Two values of one enum have the same full name only when they have
      the same name. */
  lemma FullNameDeterminesName(v: EnumValueDescriptor, w: EnumValueDescriptor)
    requires ValueOk(v) && ValueOk(w) && v.enumDescriptor.fullName == w.enumDescriptor.fullName
    ensures FullName(v) == FullName(w) <==> Name(v) == Name(w)
  {
    var p := |v.enumDescriptor.fullName| + 1;
    if FullName(v) == FullName(w) {
      assert Name(v) == FullName(v)[p..] == FullName(w)[p..] == Name(w);
    }
  }

  /** `value`: the value's declared number. */
  function Value(v: EnumValueDescriptor): i32
    requires ValueOk(v)
  {
    v.enumDescriptor.decl.values[v.index].number
  }

  /** The number reflection reports is the number the generated enum's
      `value()` returns for the same variant. */
  lemma ValueAgreesWithGenerated(v: EnumValueDescriptor)
    requires ValueOk(v)
    ensures Value(v) == EnumGen.Value(v.enumDescriptor.decl, v.index)
    ensures Value(v) in Numbers(v.enumDescriptor.decl.values)
  {
    NumbersSpec(v.enumDescriptor.decl.values);
  }

  /** What `Hash` feeds the hasher: the value's number only. */
  function Hash(v: EnumValueDescriptor): i32
    requires ValueOk(v)
  {
    Value(v)
  }

  /** Equal value descriptors hash alike, and two values of one enum hash
      alike exactly when they declare the same number, so an alias and the
      value it aliases collide though they are not equal. */
  lemma HashByNumber(v: EnumValueDescriptor, w: EnumValueDescriptor)
    requires ValueOk(v) && ValueOk(w)
    ensures v == w ==> Hash(v) == Hash(w)
    ensures v.enumDescriptor == w.enumDescriptor ==>
      (Hash(v) == Hash(w) <==> EnumGen.Eq(v.enumDescriptor.decl.(allowAlias := true), v.index, w.index))
  {
  }

  // ---------------------------------------------------------------- EnumDescriptor

  /** `values`: one value descriptor per declared value, in order. */
  function Values(d: EnumDescriptor): (r: seq<EnumValueDescriptor>)
    ensures |r| == |d.decl.values|
    ensures forall i :: 0 <= i < |r| ==> r[i].enumDescriptor == d && r[i].index == i
  {
    seq(|d.decl.values|, i requires 0 <= i => EnumValueDescriptor(d, i))
  }

  /** `values` lists every value descriptor of the enum exactly once, and
      lists nothing else. */
  lemma ValuesEnumerateAll(d: EnumDescriptor, v: EnumValueDescriptor)
    ensures v in Values(d) <==> v.enumDescriptor == d && ValueOk(v)
    ensures forall i, j :: 0 <= i < j < |Values(d)| ==> Values(d)[i] != Values(d)[j]
  {
    if v.enumDescriptor == d && ValueOk(v) {
      assert Values(d)[v.index] == v;
    }
  }

  /** `first_value`: the first of `values` (it panics on an enum without
      values, which the schema compiler never produces). */
  function FirstValue(d: EnumDescriptor): EnumValueDescriptor
    requires |d.decl.values| > 0
  {
    Values(d)[0]
  }

  /** `default_value`: the value at position 0. */
  function DefaultValue(d: EnumDescriptor): EnumValueDescriptor
  {
    EnumValueDescriptor(d, 0)
  }

  /** The default value is the first value, it is the variant the generated
      enum's `Default` returns, and `cast` of it gives that variant back. */
  lemma DefaultIsFirstValue(d: EnumDescriptor)
    requires |d.decl.values| > 0
    ensures DefaultValue(d) == FirstValue(d) && ValueOk(DefaultValue(d))
    ensures DefaultValue(d).index == EnumGen.Default(d.decl)
    ensures Value(DefaultValue(d)) == d.decl.values[0].number
  {
  }

  /** `value_by_number`: the value the number index leads to, or `None`
      when no value declares the number. */
  function ValueByNumber(d: EnumDescriptor, n: i32): Option<EnumValueDescriptor>
  {
    if n in d.indexByNumber then Some(EnumValueDescriptor(d, d.indexByNumber[n])) else None
  }

  /** Lookup by number finds a value exactly for the declared numbers, and
      the value it finds declares that number. */
  lemma ValueByNumberSpec(d: EnumDescriptor, n: i32)
    requires IndexOk(d)
    ensures ValueByNumber(d, n).Some? <==> exists k :: 0 <= k < |d.decl.values| && d.decl.values[k].number == n
    ensures ValueByNumber(d, n).Some? ==>
      && ValueByNumber(d, n).value.enumDescriptor == d
      && ValueOk(ValueByNumber(d, n).value)
      && Value(ValueByNumber(d, n).value) == n
  {
    NumbersSpec(d.decl.values);
  }

  /** Looking up the number of a value finds that value, or (for an alias)
      a value with the same number. */
  lemma ValueByNumberOfValue(v: EnumValueDescriptor)
    requires IndexOk(v.enumDescriptor) && ValueOk(v)
    ensures ValueByNumber(v.enumDescriptor, Value(v)).Some?
    ensures Value(ValueByNumber(v.enumDescriptor, Value(v)).value) == Value(v)
    ensures !v.enumDescriptor.decl.allowAlias && EnumOk(v.enumDescriptor.decl) ==>
      ValueByNumber(v.enumDescriptor, Value(v)) == Some(v)
  {
    var d := v.enumDescriptor;
    ValueByNumberSpec(d, Value(v));
    var w := ValueByNumber(d, Value(v)).value;
    if !d.decl.allowAlias && EnumOk(d.decl) {
      NumberDeterminesValue(d.decl, w.index, v.index);
    }
  }

  /** Without aliases, a number is declared by one value only. */
  lemma NumberDeterminesValue(e: EnumDecl, j: nat, k: nat)
    requires EnumOk(e) && !e.allowAlias && j < |e.values| && k < |e.values|
    requires e.values[j].number == e.values[k].number
    ensures j == k
  {
  }

  /** `value_by_number_or_default`: the value found by number, else the
      default value. */
  function ValueByNumberOrDefault(d: EnumDescriptor, n: i32): EnumValueDescriptor
  {
    match ValueByNumber(d, n)
    case Some(v) => v
    case None => DefaultValue(d)
  }

  /** The fallback lookup always yields a value of the enum: one declaring
      the number when some value does, the first value otherwise. */
  lemma ValueByNumberOrDefaultSpec(d: EnumDescriptor, n: i32)
    requires IndexOk(d) && |d.decl.values| > 0
    ensures ValueOk(ValueByNumberOrDefault(d, n)) && ValueByNumberOrDefault(d, n).enumDescriptor == d
    ensures n in Numbers(d.decl.values) ==> Value(ValueByNumberOrDefault(d, n)) == n
    ensures n !in Numbers(d.decl.values) ==> ValueByNumberOrDefault(d, n) == DefaultValue(d)
  {
    ValueByNumberSpec(d, n);
  }

  /** `value_by_name`: the value the name index leads to, or `None`. */
  function ValueByName(d: EnumDescriptor, s: string): Option<EnumValueDescriptor>
  {
    if s in d.indexByName then Some(EnumValueDescriptor(d, d.indexByName[s])) else None
  }

  /** Lookup by name finds a value exactly for the declared names, and the
      value it finds has that name. */
  lemma ValueByNameSpec(d: EnumDescriptor, s: string)
    requires IndexOk(d)
    ensures ValueByName(d, s).Some? <==> exists k :: 0 <= k < |d.decl.values| && d.decl.values[k].name == s
    ensures ValueByName(d, s).Some? ==> ValueOk(ValueByName(d, s).value) && Name(ValueByName(d, s).value) == s
  {
  }

  // ---------------------------------------------------------------- cast

  /** `cast::<E>`: `None` unless the value belongs to `target`, the static
      descriptor of the generated enum `E`; otherwise `E::from_i32` of the
      value's number. The variant is a position among `E`'s values. */
  function Cast(v: EnumValueDescriptor, target: EnumDescriptor): Option<nat>
    requires ValueOk(v)
  {
    if v.enumDescriptor != target then None
    else FromI32(target.decl, Value(v))
  }

  /** A value casts into its own enum, to a variant with its number: itself
      unless it is an alias, and the value it aliases if it is. Into any
      other enum the cast fails. */
  lemma CastSpec(v: EnumValueDescriptor, target: EnumDescriptor)
    requires ValueOk(v)
    ensures v.enumDescriptor != target ==> Cast(v, target).None?
    ensures v.enumDescriptor == target ==>
      && Cast(v, target).Some?
      && Cast(v, target).value < |target.decl.values|
      && target.decl.values[Cast(v, target).value].number == Value(v)
      && (Cast(v, target) == Some(v.index) <==> IsFirstOfNumber(target.decl.values, v.index))
  {
    if v.enumDescriptor == target {
      FromI32OfValue(target.decl, v.index);
    }
  }

  /** Found by number and cast back, a number comes out as the generated
      enum's `from_i32` of it. */
  lemma CastOfValueByNumber(d: EnumDescriptor, n: i32)
    requires IndexOk(d) && ValueByNumber(d, n).Some?
    ensures Cast(ValueByNumber(d, n).value, d) == FromI32(d.decl, n)
    ensures Cast(ValueByNumber(d, n).value, d).Some?
  {
    ValueByNumberSpec(d, n);
    ValueOfFromI32(d.decl, n);
  }
}
