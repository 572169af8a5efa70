// The rest of what the generator writes for a message: `is_initialized`,
// `clear`, the default instance (and whether it is built in a static or
// lazily), the derives of the struct and the module of nested types. Clearing
// a well-formed message gives the default instance, the default instance is
// well-formed and encodes to nothing, and it is initialized exactly when the
// message has no required field.
module MessageLifecycle {
  import opened Wrappers
  import opened WireFormat
  import opened Descriptor
  import Unknown
  import opened FieldGen
  import opened FieldValue
  import opened OneofGen
  import opened MessageGen

  // ---------------------------------------------------------------- default instance

  /** The value a struct field starts with: `FieldKind::default` as a
      constant expression (unset for a flagged field, the element's default
      for a flagless one, an empty vector) or an empty map; oneof members and
      groups have no struct field. */
  function DefaultSlot(g: FieldGen): FieldState
  {
    if g.protoType == TypeGroup then NoSlot
    else match g.kind
      case Singular(WithFlag(_, _), _) => Flagged(None)
      case Singular(WithoutFlag, elem) => Plain(DefaultValue(elem))
      case Repeated(_, _) => Elements([])
      case Map(_, _) => Entries([])
      case Oneof(_, _, _) => NoSlot
  }

  /** The default instance: every struct field at its start value, every
      oneof unset (`EXPR_NONE`), no unknown fields. */
  function DefaultInstance(m: MessageGen): MessageValue
  {
    MessageValue(seq(|m.fields|, i requires 0 <= i < |m.fields| => DefaultSlot(m.fields[i])),
                 seq(m.oneofCount, o => None), [])
  }

  /** `has_map_field`: some field is a map. */
  function HasMapField(fs: seq<FieldGen>): (r: bool)
    ensures r <==> exists i :: 0 <= i < |fs| && fs[i].kind.Map?
  {
    if fs == [] then false
    else
      assert forall i :: 0 <= i < |fs| - 1 ==> fs[..|fs| - 1][i] == fs[i];
      HasMapField(fs[..|fs| - 1]) || fs[|fs| - 1].kind.Map?
  }

  /** How `default_instance` holds the instance: a map cannot be built in a
      constant expression, so a message with a map field gets a lazily built
      instance and every other message a static one. */
  datatype DefaultInstanceForm = StaticInstance | LazyInstance

  function DefaultInstanceFormOf(m: MessageGen): (r: DefaultInstanceForm)
    ensures r == LazyInstance <==> exists i :: 0 <= i < |m.fields| && m.fields[i].kind.Map?
  {
    if HasMapField(m.fields) then LazyInstance else StaticInstance
  }

  /** The start value of a field is well-formed for it. */
  lemma DefaultSlotOk(g: FieldGen)
    requires Consistent(g)
    ensures StateOk(g, DefaultSlot(g))
  {
    if g.kind.Singular? && g.kind.flag.WithoutFlag? && g.protoType != TypeGroup {
      var e := g.kind.elem;
      assert ElemType(e) == g.protoType && NamedIfNamedType(e);
      assert ValueOk(g.protoType, DefaultValue(e));
    }
  }

  /** The default instance of a well-formed message is well-formed. */
  lemma DefaultValid(m: MessageGen)
    requires SchemaOk(m)
    ensures Valid(m, DefaultInstance(m))
  {
    var d := DefaultInstance(m);
    forall i | 0 <= i < |m.fields|
      ensures StateOk(m.fields[i], d.slots[i])
    {
      DefaultSlotOk(m.fields[i]);
    }
  }

  /** No start value contributes to the size. */
  lemma DefaultSlotSizeZero(g: FieldGen)
    requires Consistent(g)
    ensures StateOk(g, DefaultSlot(g)) && FieldSize(g, DefaultSlot(g)) == 0
  {
    DefaultSlotOk(g);
  }

  lemma {:induction false} DefaultFieldsSizeZero(m: MessageGen, idx: seq<nat>)
    requires SchemaOk(m)
    ensures FieldsSize(m, DefaultInstance(m), idx) == 0
  {
    if idx != [] {
      DefaultFieldsSizeZero(m, idx[..|idx| - 1]);
      var i := idx[|idx| - 1];
      if i < |m.fields| {
        DefaultSlotSizeZero(m.fields[i]);
      }
    }
  }

  lemma {:induction false} NoVariantsSizeZero(m: MessageGen, os: seq<Option<OneofValue>>)
    requires forall o :: 0 <= o < |os| ==> os[o].None?
    ensures VariantsSize(m, os) == 0
  {
    if os != [] {
      NoVariantsSizeZero(m, os[..|os| - 1]);
    }
  }

  /** The default instance has size zero and `write_to` emits nothing for
      it. */
  lemma DefaultEncodesEmpty(m: MessageGen)
    requires SchemaOk(m)
    ensures Valid(m, DefaultInstance(m))
    ensures Size(m, DefaultInstance(m)) == 0 && Encoding(m, DefaultInstance(m)) == []
  {
    var d := DefaultInstance(m);
    DefaultFits(m);
    DefaultFieldsSizeZero(m, FieldsExceptOneofAndGroup(m.fields));
    NoVariantsSizeZero(m, d.oneofs);
    SizeIsLength(m, d);
  }

  /** The default instance holds nothing whose length could overflow. */
  lemma DefaultFits(m: MessageGen)
    requires SchemaOk(m)
    ensures Valid(m, DefaultInstance(m)) && Fits(m, DefaultInstance(m))
  {
    var d := DefaultInstance(m);
    DefaultValid(m);
    forall i | 0 <= i < |m.fields|
      ensures StateFits(m.fields[i], d.slots[i])
    {
    }
  }

  // ---------------------------------------------------------------- clear

  /** The line `write_clear` emits for field `i`: a oneof member sets its
      oneof to `None`, any other field is reset to its start value (`None`,
      the element's default, an emptied vector or map). */
  function ClearField(m: MessageGen, v: MessageValue, i: nat): (r: MessageValue)
    requires Shaped(m, v) && i < |m.fields|
    ensures Shaped(m, r)
  {
    var g := m.fields[i];
    if g.kind.Oneof? then v.(oneofs := v.oneofs[g.kind.oneofIndex := None])
    else v.(slots := v.slots[i := DefaultSlot(g)])
  }

  predicate InFields(m: MessageGen, idx: seq<nat>)
  {
    forall k :: 0 <= k < |idx| ==> idx[k] < |m.fields|
  }

  /** A field list and each of its prefixes name fields of the message. */
  lemma SelectedInFields(m: MessageGen, idx: seq<nat>, keep: FieldGen -> bool)
    requires idx == Select(m.fields, keep)
    ensures InFields(m, idx)
    ensures forall j :: 0 <= j <= |idx| ==> InFields(m, idx[..j])
  {
    assert forall k :: 0 <= k < |idx| ==> idx[k] in idx;
  }

  /** The clear lines of the fields at `idx`, one after the other. */
  function ClearFields(m: MessageGen, v: MessageValue, idx: seq<nat>): (r: MessageValue)
    requires Shaped(m, v) && InFields(m, idx)
    ensures Shaped(m, r)
  {
    if idx == [] then v
    else ClearField(m, ClearFields(m, v, idx[..|idx| - 1]), idx[|idx| - 1])
  }

  /** The generated `clear`: the clear line of every field except groups,
      then the unknown fields emptied. */
  function Cleared(m: MessageGen, v: MessageValue): MessageValue
    requires Shaped(m, v)
  {
    SelectedInFields(m, FieldsExceptGroup(m.fields), NotGroup);
    ClearFields(m, v, FieldsExceptGroup(m.fields)).(unknown := [])
  }

  /** Some field among `idx` is a member of oneof `o`. */
  predicate ClearsOneof(m: MessageGen, idx: seq<nat>, o: nat)
    requires InFields(m, idx)
  {
    exists k :: 0 <= k < |idx| && m.fields[idx[k]].kind.Oneof? && m.fields[idx[k]].kind.oneofIndex == o
  }

  /** After the clear lines of `idx`, a field other than a oneof member is
      at its start value exactly when it is among `idx`, and a oneof is unset
      exactly when one of its members is; everything else is untouched. */
  lemma {:induction false} ClearFieldsAt(m: MessageGen, v: MessageValue, idx: seq<nat>)
    requires Shaped(m, v) && InFields(m, idx)
    ensures forall i :: 0 <= i < |m.fields| ==>
              ClearFields(m, v, idx).slots[i]
              == if i in idx && !m.fields[i].kind.Oneof? then DefaultSlot(m.fields[i]) else v.slots[i]
    ensures forall o :: 0 <= o < m.oneofCount ==>
              ClearFields(m, v, idx).oneofs[o] == if ClearsOneof(m, idx, o) then None else v.oneofs[o]
    ensures ClearFields(m, v, idx).unknown == v.unknown
  {
    if idx != [] {
      var init := idx[..|idx| - 1];
      var last := idx[|idx| - 1];
      ClearFieldsAt(m, v, init);
      assert forall i :: i in idx <==> i in init || i == last;
      forall o | 0 <= o < m.oneofCount {
        ClearsOneofSnoc(m, idx, o);
      }
    }
  }

  lemma ClearsOneofSnoc(m: MessageGen, idx: seq<nat>, o: nat)
    requires InFields(m, idx) && idx != []
    ensures InFields(m, idx[..|idx| - 1])
    ensures ClearsOneof(m, idx, o) <==>
            ClearsOneof(m, idx[..|idx| - 1], o)
            || (m.fields[idx[|idx| - 1]].kind.Oneof? && m.fields[idx[|idx| - 1]].kind.oneofIndex == o)
  {
    var init := idx[..|idx| - 1];
    if ClearsOneof(m, init, o) {
      var k :| 0 <= k < |init| && m.fields[init[k]].kind.Oneof? && m.fields[init[k]].kind.oneofIndex == o;
      assert idx[k] == init[k];
    }
    if ClearsOneof(m, idx, o) {
      var k :| 0 <= k < |idx| && m.fields[idx[k]].kind.Oneof? && m.fields[idx[k]].kind.oneofIndex == o;
      if k < |init| {
        assert init[k] == idx[k];
      }
    }
  }

  /** `clear`, line by line. */
  method Clear(m: MessageGen, v: MessageValue) returns (r: MessageValue)
    requires Shaped(m, v)
    ensures r == Cleared(m, v)
  {
    var idx := FieldsExceptGroup(m.fields);
    SelectedInFields(m, idx, NotGroup);
    r := v;
    var j := 0;
    while j < |idx|
      invariant 0 <= j <= |idx| && Shaped(m, r)
      invariant r == ClearFields(m, v, idx[..j])
    {
      assert idx[..j + 1][..j] == idx[..j];
      r := ClearField(m, r, idx[j]);
      j := j + 1;
    }
    assert idx[..j] == idx;
    r := r.(unknown := []);
  }

  /** Clearing a well-formed message gives the default instance. */
  lemma ClearIsDefault(m: MessageGen, v: MessageValue)
    requires Valid(m, v)
    ensures Cleared(m, v) == DefaultInstance(m)
  {
    var idx := FieldsExceptGroup(m.fields);
    var c := Cleared(m, v);
    var d := DefaultInstance(m);
    SelectedInFields(m, idx, NotGroup);
    assert idx[..|idx|] == idx;
    ClearFieldsAt(m, v, idx);
    forall i | 0 <= i < |m.fields|
      ensures c.slots[i] == d.slots[i]
    {
    }
    SetOneofsCleared(m, v);
    forall o | 0 <= o < m.oneofCount
      ensures c.oneofs[o] == None
    {
    }
    assert c.slots == d.slots;
    assert c.oneofs == d.oneofs;
  }

  /** Every oneof that is set has its member among the fields `clear` visits. */
  lemma SetOneofsCleared(m: MessageGen, v: MessageValue)
    requires Valid(m, v)
    ensures InFields(m, FieldsExceptGroup(m.fields))
    ensures forall o :: 0 <= o < m.oneofCount && v.oneofs[o].Some? ==>
              ClearsOneof(m, FieldsExceptGroup(m.fields), o)
  {
    var idx := FieldsExceptGroup(m.fields);
    SelectedInFields(m, idx, NotGroup);
    forall o | 0 <= o < m.oneofCount && v.oneofs[o].Some?
      ensures ClearsOneof(m, idx, o)
    {
      var f := v.oneofs[o].value.field;
      assert f in idx;
      var k :| 0 <= k < |idx| && idx[k] == f;
    }
  }

  // ---------------------------------------------------------------- is_initialized

  /** The encodings of the nested messages among `vs`. */
  function MessagesAmong(vs: seq<Value>): (r: seq<seq<byte>>)
    ensures forall e :: e in r <==> Msg(e) in vs
  {
    if vs == [] then []
    else
      var rest := MessagesAmong(vs[..|vs| - 1]);
      assert forall x :: x in vs <==> x in vs[..|vs| - 1] || x == vs[|vs| - 1];
      rest + (if vs[|vs| - 1].Msg? then [vs[|vs| - 1].encoded] else [])
  }

  /** The nested messages `write_for_self_field` visits for field `i`: the
      value of a set singular field, every element of a repeated one, the
      value of the oneof when this member is its active variant. */
  function NestedMessages(m: MessageGen, v: MessageValue, i: nat): seq<seq<byte>>
    requires Shaped(m, v) && i < |m.fields|
  {
    var g := m.fields[i];
    if g.kind.Oneof? then
      match v.oneofs[g.kind.oneofIndex]
      case Some(OneofValue(f, Msg(e))) => if f == i then [e] else []
      case _ => []
    else
      match v.slots[i]
      case Flagged(Some(Msg(e))) => [e]
      case Plain(Msg(e)) => [e]
      case Elements(vs) => MessagesAmong(vs)
      case _ => []
  }

  /** Every message among `es` is initialized by its own `is_initialized`. */
  predicate AllInitialized(es: seq<seq<byte>>, nestedOk: seq<byte> -> bool)
  {
    forall k :: 0 <= k < |es| ==> nestedOk(es[k])
  }

  /** Every required field is set. */
  predicate RequiredSet(m: MessageGen, v: MessageValue)
    requires Shaped(m, v)
  {
    forall i :: 0 <= i < |m.fields| && IsRequired(m.fields[i]) ==> v.slots[i] != Flagged(None)
  }

  /** Every nested message held by a message field other than a map (maps
      are not checked) is initialized. */
  predicate NestedInitialized(m: MessageGen, v: MessageValue, nestedOk: seq<byte> -> bool)
    requires Shaped(m, v)
  {
    forall i :: 0 <= i < |m.fields| && IsMessageField(m.fields[i]) && !m.fields[i].kind.Map? ==>
      AllInitialized(NestedMessages(m, v, i), nestedOk)
  }

  /** What the generated `is_initialized` accepts. `nestedOk` is the nested
      messages' own `is_initialized`. */
  predicate Initialized(m: MessageGen, v: MessageValue, nestedOk: seq<byte> -> bool)
    requires Shaped(m, v)
  {
    RequiredSet(m, v) && NestedInitialized(m, v, nestedOk)
  }

  /** The first loop of `is_initialized`: `return false` on the first
      required field that is `None`. */
  method CheckRequired(m: MessageGen, v: MessageValue) returns (b: bool)
    requires Shaped(m, v)
    ensures b == RequiredSet(m, v)
  {
    var required := RequiredFields(m.fields);
    SelectedInFields(m, required, IsRequired);
    var j := 0;
    while j < |required|
      invariant 0 <= j <= |required|
      invariant forall k :: 0 <= k < j ==> v.slots[required[k]] != Flagged(None)
    {
      if v.slots[required[j]] == Flagged(None) {
        return false;
      }
      j := j + 1;
    }
    assert forall i :: 0 <= i < |m.fields| && IsRequired(m.fields[i]) ==> i in required;
    return true;
  }

  /** The inner loop over the nested messages of one field. */
  method CheckAll(es: seq<seq<byte>>, nestedOk: seq<byte> -> bool) returns (b: bool)
    ensures b == AllInitialized(es, nestedOk)
  {
    var t := 0;
    while t < |es|
      invariant 0 <= t <= |es|
      invariant forall k :: 0 <= k < t ==> nestedOk(es[k])
    {
      if !nestedOk(es[t]) {
        return false;
      }
      t := t + 1;
    }
    return true;
  }

  /** The second loop of `is_initialized`: `return false` on the first
      nested message that is not initialized, field by field. */
  method CheckNested(m: MessageGen, v: MessageValue, nestedOk: seq<byte> -> bool) returns (b: bool)
    requires Shaped(m, v)
    ensures b == NestedInitialized(m, v, nestedOk)
  {
    var messages := MessageFields(m.fields);
    SelectedInFields(m, messages, IsMessageField);
    var j := 0;
    while j < |messages|
      invariant 0 <= j <= |messages|
      invariant forall k :: 0 <= k < j && !m.fields[messages[k]].kind.Map? ==>
                  AllInitialized(NestedMessages(m, v, messages[k]), nestedOk)
    {
      var i := messages[j];
      if !m.fields[i].kind.Map? {
        var ok := CheckAll(NestedMessages(m, v, i), nestedOk);
        if !ok {
          return false;
        }
      }
      j := j + 1;
    }
    assert forall i :: 0 <= i < |m.fields| && IsMessageField(m.fields[i]) ==> i in messages;
    return true;
  }

  /** The generated `is_initialized`: the required fields, then the nested
      messages; `true` when neither loop returned `false`. */
  method IsInitialized(m: MessageGen, v: MessageValue, nestedOk: seq<byte> -> bool) returns (b: bool)
    requires Shaped(m, v)
    ensures b == Initialized(m, v, nestedOk)
  {
    b := CheckRequired(m, v);
    if b {
      b := CheckNested(m, v, nestedOk);
    }
  }

  /** As written, the first loop of `is_initialized` tests every required
      field for `None`, a required group included, but `write_struct_field`
      declares no struct field for a group: the test names a field the struct
      does not have. */
  lemma RequiredGroupCheckedWithoutField(m: MessageGen, i: nat)
    requires i < |m.fields| && IsRequired(m.fields[i]) && m.fields[i].protoType == TypeGroup
    ensures i in RequiredFields(m.fields)
    ensures i !in FieldsExceptGroup(m.fields) && DefaultSlot(m.fields[i]) == NoSlot
  {
  }

  /** The default instance holds no nested message, so it is initialized
      exactly when every required field is a group. A group has no slot to be
      `None`, so the model passes over it where the generated test would name
      a missing field. */
  lemma DefaultInitialized(m: MessageGen, nestedOk: seq<byte> -> bool)
    requires SchemaOk(m)
    ensures Shaped(m, DefaultInstance(m))
    ensures Initialized(m, DefaultInstance(m), nestedOk) <==>
            forall i :: 0 <= i < |m.fields| && IsRequired(m.fields[i]) ==> m.fields[i].protoType == TypeGroup
  {
    var d := DefaultInstance(m);
    forall i | 0 <= i < |m.fields| && IsMessageField(m.fields[i]) && !m.fields[i].kind.Map?
      ensures NestedMessages(m, d, i) == []
    {
      if !m.fields[i].kind.Oneof? && d.slots[i].Elements? {
        assert d.slots[i].values == [];
      }
    }
  }

  // ---------------------------------------------------------------- struct

  /** `supports_derive_partial_eq`: the Rust compiler overflows its stack
      deriving `PartialEq` for a struct with very many fields. */
  const MaxDerivePartialEqFields := 500

  /** The derives of the generated struct. */
  function StructDerives(m: MessageGen): seq<string>
  {
    (if |m.fields| <= MaxDerivePartialEqFields then ["PartialEq"] else []) + ["Clone", "Default", "Debug"]
  }

  /** `write` adds a hand-written `PartialEq` whose `eq` is `unimplemented!()`
      when the struct cannot derive one. */
  predicate WritesDummyPartialEq(m: MessageGen)
  {
    |m.fields| > MaxDerivePartialEqFields
  }

  /** Every message struct implements `PartialEq` exactly once, derived up to
      500 fields and as a stub beyond, and always derives `Clone`, `Default`
      and `Debug`. */
  lemma PartialEqExactlyOnce(m: MessageGen)
    ensures ("PartialEq" in StructDerives(m)) != WritesDummyPartialEq(m)
    ensures ("PartialEq" in StructDerives(m)) <==> |m.fields| <= 500
    ensures StructDerives(m)[|StructDerives(m)| - 3..] == ["Clone", "Default", "Debug"]
  {
    assert "PartialEq" != "Clone" && "PartialEq" != "Default" && "PartialEq" != "Debug";
  }

  /** `message_name_to_nested_mod_name`, given the snake-case form of the
      message name: a keyword gets the prefix `mod_`. */
  function NestedModName(snake: string): (r: string)
    ensures r !in RustKeywords
    ensures snake !in RustKeywords ==> r == snake
    ensures snake in RustKeywords ==> r == "mod_" + snake
  {
    if snake in RustKeywords then
      PrefixedNotKeyword("mod_", snake);
      "mod_" + snake
    else snake
  }

  /** The condition `write` tests before it opens the module of nested types. */
  function WritesNestedMod(oneofCount: nat, nestedIsMapEntry: seq<bool>, nestedEnumCount: nat): bool
  {
    oneofCount > 0 || nestedEnumCount > 0 || false in nestedIsMapEntry
  }

  /** An item written inside the module of nested types. */
  datatype NestedItem =
    | OneofEnumItem(oneof: nat)
    | NestedMessageItem(nested: nat)
    | NestedEnumItem(nestedEnum: nat)

  /** The positions of the nested messages that are not map entries, in order. */
  function NonMapEntries(isMapEntry: seq<bool>): (r: seq<nat>)
    ensures forall k :: k in r <==> 0 <= k < |isMapEntry| && !isMapEntry[k]
    ensures forall j, k :: 0 <= j < k < |r| ==> r[j] < r[k]
  {
    if isMapEntry == [] then []
    else
      var init := NonMapEntries(isMapEntry[..|isMapEntry| - 1]);
      assert forall j :: 0 <= j < |init| ==> init[j] in init;
      if isMapEntry[|isMapEntry| - 1] then init else init + [|isMapEntry| - 1]
  }

  /** The enums of the first `n` oneofs, in order. */
  function OneofEnumItems(n: nat): (r: seq<NestedItem>)
    ensures forall x :: x in r <==> x.OneofEnumItem? && x.oneof < n
  {
    if n == 0 then [] else OneofEnumItems(n - 1) + [OneofEnumItem(n - 1)]
  }

  /** The nested messages at the positions `ks`, in order. */
  function NestedMessageItems(ks: seq<nat>): (r: seq<NestedItem>)
    ensures forall x :: x in r <==> x.NestedMessageItem? && x.nested in ks
  {
    if ks == [] then [] else NestedMessageItems(ks[..|ks| - 1]) + [NestedMessageItem(ks[|ks| - 1])]
  }

  /** The first `n` nested enums, in order. */
  function NestedEnumItems(n: nat): (r: seq<NestedItem>)
    ensures forall x :: x in r <==> x.NestedEnumItem? && x.nestedEnum < n
  {
    if n == 0 then [] else NestedEnumItems(n - 1) + [NestedEnumItem(n - 1)]
  }

  /** What the module holds, in the order `write` emits it: the enum of each
      oneof, each nested message but the map entries, each nested enum. */
  function NestedModItems(oneofCount: nat, nestedIsMapEntry: seq<bool>, nestedEnumCount: nat): seq<NestedItem>
  {
    OneofEnumItems(oneofCount) + NestedMessageItems(NonMapEntries(nestedIsMapEntry)) + NestedEnumItems(nestedEnumCount)
  }

  /** The module of nested types is written exactly when it would not be
      empty, and it holds one item per oneof, per nested message other than a
      map entry, and per nested enum. */
  lemma NestedModNotEmpty(oneofCount: nat, nestedIsMapEntry: seq<bool>, nestedEnumCount: nat)
    ensures WritesNestedMod(oneofCount, nestedIsMapEntry, nestedEnumCount) <==> NestedModItems(oneofCount, nestedIsMapEntry, nestedEnumCount) != []
    ensures forall x :: x in NestedModItems(oneofCount, nestedIsMapEntry, nestedEnumCount) <==>
              || (x.OneofEnumItem? && x.oneof < oneofCount)
              || (x.NestedMessageItem? && x.nested < |nestedIsMapEntry| && !nestedIsMapEntry[x.nested])
              || (x.NestedEnumItem? && x.nestedEnum < nestedEnumCount)
  {
    var ms := NonMapEntries(nestedIsMapEntry);
    var a, b, c := OneofEnumItems(oneofCount), NestedMessageItems(ms), NestedEnumItems(nestedEnumCount);
    assert NestedModItems(oneofCount, nestedIsMapEntry, nestedEnumCount) == a + b + c;
    forall x ensures x in a + b + c <==> x in a || x in b || x in c {
    }
    if false in nestedIsMapEntry {
      var k :| 0 <= k < |nestedIsMapEntry| && !nestedIsMapEntry[k];
      assert NestedMessageItem(k) in NestedMessageItems(ms);
    }
    if oneofCount > 0 {
      assert OneofEnumItem(0) in OneofEnumItems(oneofCount);
    }
    if nestedEnumCount > 0 {
      assert NestedEnumItem(0) in NestedEnumItems(nestedEnumCount);
    }
  }
}
