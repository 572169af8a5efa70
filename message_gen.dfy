// The code generated for one message, over a message's parsed fields: the
// field lists the generator iterates, the `compute_size` accumulator and the
// bytes `write_to_with_cached_sizes` emits (the size is proved to be their
// number), the `merge_from` decode loop, `is_initialized`, `clear` and the
// default instance.
module MessageGen {
  import opened Wrappers
  import opened WireFormat
  import opened Descriptor
  import Unknown
  import opened FieldGen
  import opened FieldValue
  import opened OneofGen

  /** A message as the generator sees it: its parsed fields in declaration
      order and the number of its oneofs. */
  datatype MessageGen = MessageGen(fields: seq<FieldGen>, oneofCount: nat)

  /** What the schema compiler and `parse` guarantee: every field is
      consistent, oneof members name an existing oneof, and field numbers are
      distinct. */
  predicate SchemaOk(m: MessageGen)
  {
    && (forall i :: 0 <= i < |m.fields| ==> Consistent(m.fields[i]))
    && OneofsDeclared(m)
    && DistinctFieldNumbers(m.fields)
  }

  predicate OneofsDeclared(m: MessageGen)
  {
    forall i :: 0 <= i < |m.fields| && m.fields[i].kind.Oneof? ==> m.fields[i].kind.oneofIndex < m.oneofCount
  }

  predicate DistinctFieldNumbers(fs: seq<FieldGen>)
  {
    forall i, j :: 0 <= i < j < |fs| ==> fs[i].number != fs[j].number
  }

  /** The active variant of a oneof: the position of its field and its value. */
  datatype OneofValue = OneofValue(field: nat, value: Value)

  /** A message instance: one slot per field, one per oneof (`None` when no
      variant is set) and the unknown fields. */
  datatype MessageValue = MessageValue(slots: seq<FieldState>, oneofs: seq<Option<OneofValue>>, unknown: Unknown.UnknownFields)

  /** A variant value that belongs to a non-group oneof member. */
  predicate VariantOk(m: MessageGen, ov: OneofValue)
  {
    ov.field < |m.fields| && m.fields[ov.field].kind.Oneof? && m.fields[ov.field].protoType != TypeGroup
    && ValueOk(m.fields[ov.field].protoType, ov.value)
  }

  predicate ValueOkFor(m: MessageGen, v: MessageValue)
  {
    && |v.slots| == |m.fields| && |v.oneofs| == m.oneofCount
    && (forall i {:trigger v.slots[i]} :: 0 <= i < |m.fields| ==> StateOk(m.fields[i], v.slots[i]))
    && (forall o {:trigger v.oneofs[o]} :: 0 <= o < m.oneofCount && v.oneofs[o].Some? ==>
          VariantOk(m, v.oneofs[o].value) && m.fields[v.oneofs[o].value.field].kind.oneofIndex == o)
  }

  /** A well-formed message of a well-formed schema. */
  predicate Valid(m: MessageGen, v: MessageValue)
  {
    SchemaOk(m) && ValueOkFor(m, v)
  }

  // ---------------------------------------------------------------- field lists

  predicate IsRequired(g: FieldGen)
  {
    g.kind.Singular? && g.kind.flag.WithFlag? && g.kind.flag.required
  }

  predicate IsMessageField(g: FieldGen)
  {
    g.protoType == TypeMessage
  }

  predicate NotOneof(g: FieldGen)
  {
    !g.kind.Oneof?
  }

  predicate NotGroup(g: FieldGen)
  {
    g.protoType != TypeGroup
  }

  predicate NotOneofNorGroup(g: FieldGen)
  {
    !g.kind.Oneof? && g.protoType != TypeGroup
  }

  /** `required_fields`. */
  function RequiredFields(fs: seq<FieldGen>): seq<nat>
  {
    Select(fs, IsRequired)
  }

  /** `message_fields`. */
  function MessageFields(fs: seq<FieldGen>): seq<nat>
  {
    Select(fs, IsMessageField)
  }

  /** `fields_except_oneof`. */
  function FieldsExceptOneof(fs: seq<FieldGen>): seq<nat>
  {
    Select(fs, NotOneof)
  }

  /** `fields_except_group`. */
  function FieldsExceptGroup(fs: seq<FieldGen>): seq<nat>
  {
    Select(fs, NotGroup)
  }

  /** `fields_except_oneof_and_group`. */
  function FieldsExceptOneofAndGroup(fs: seq<FieldGen>): seq<nat>
  {
    Select(fs, NotOneofNorGroup)
  }

  /** The fields that `write_to` and `compute_size` visit one by one are, in
      declaration order, exactly those on both the except-oneof and the
      except-group lists. */
  lemma ExceptOneofAndGroupIsBoth(fs: seq<FieldGen>)
    ensures forall i :: i in FieldsExceptOneofAndGroup(fs) <==> i in FieldsExceptOneof(fs) && i in FieldsExceptGroup(fs)
    ensures forall j, k :: 0 <= j < k < |FieldsExceptOneofAndGroup(fs)| ==>
              FieldsExceptOneofAndGroup(fs)[j] < FieldsExceptOneofAndGroup(fs)[k]
  {
  }

  // ---------------------------------------------------------------- size and bytes

  /** Slot `i` of `v` holds a well-formed value of field `i`. */
  predicate SlotOk(m: MessageGen, v: MessageValue, i: nat)
  {
    i < |m.fields| && i < |v.slots| && Consistent(m.fields[i]) && StateOk(m.fields[i], v.slots[i])
  }

  /** `compute_size`'s contribution of field `i`; a slot that is not
      well-formed (never the case in a valid message) contributes nothing. */
  function SlotSize(m: MessageGen, v: MessageValue, i: nat): nat
  {
    if SlotOk(m, v, i) then FieldSize(m.fields[i], v.slots[i]) else 0
  }

  /** `write_to`'s bytes for field `i`, under the same convention. */
  function SlotBytes(m: MessageGen, v: MessageValue, i: nat): seq<byte>
  {
    if SlotOk(m, v, i) then FieldBytes(m.fields[i], v.slots[i]) else []
  }

  /** The sizes of the fields at `idx`, one after the other. */
  function FieldsSize(m: MessageGen, v: MessageValue, idx: seq<nat>): nat
  {
    if idx == [] then 0
    else FieldsSize(m, v, idx[..|idx| - 1]) + SlotSize(m, v, idx[|idx| - 1])
  }

  function FieldsBytes(m: MessageGen, v: MessageValue, idx: seq<nat>): seq<byte>
  {
    if idx == [] then []
    else FieldsBytes(m, v, idx[..|idx| - 1]) + SlotBytes(m, v, idx[|idx| - 1])
  }

  /** `write_element_size` of an active variant, nothing for an unset oneof. */
  function VariantSize(m: MessageGen, active: Option<OneofValue>): nat
  {
    if active.Some? && VariantOk(m, active.value)
    then ElementSize(m.fields[active.value.field].number, m.fields[active.value.field].protoType, active.value.value)
    else 0
  }

  /** `write_write_element` of an active variant. */
  function VariantBytes(m: MessageGen, active: Option<OneofValue>): seq<byte>
  {
    if active.Some? && VariantOk(m, active.value)
    then ElementBytes(m.fields[active.value.field].number, m.fields[active.value.field].protoType, active.value.value)
    else []
  }

  /** The active variants' sizes, oneof by oneof. */
  function VariantsSize(m: MessageGen, os: seq<Option<OneofValue>>): nat
  {
    if os == [] then 0
    else VariantsSize(m, os[..|os| - 1]) + VariantSize(m, os[|os| - 1])
  }

  /** The active variants' bytes, oneof by oneof. */
  function VariantsBytes(m: MessageGen, os: seq<Option<OneofValue>>): seq<byte>
  {
    if os == [] then []
    else VariantsBytes(m, os[..|os| - 1]) + VariantBytes(m, os[|os| - 1])
  }

  /** The total `compute_size` returns: the fields except oneofs and groups,
      then the active variants, then the unknown fields. */
  function Size(m: MessageGen, v: MessageValue): nat
    requires Valid(m, v)
  {
    FieldsSize(m, v, FieldsExceptOneofAndGroup(m.fields)) + VariantsSize(m, v.oneofs) + Unknown.UnknownFieldsSize(v.unknown)
  }

  /** What `write_to_with_cached_sizes` emits, in the same order. */
  function Encoding(m: MessageGen, v: MessageValue): seq<byte>
    requires Valid(m, v)
  {
    FieldsBytes(m, v, FieldsExceptOneofAndGroup(m.fields)) + VariantsBytes(m, v.oneofs) + Unknown.EncodeUnknownFields(v.unknown)
  }

  /** Every length prefix in the message survives the cast to u32. */
  predicate Fits(m: MessageGen, v: MessageValue)
    requires Valid(m, v)
  {
    && (forall i :: 0 <= i < |m.fields| ==> StateFits(m.fields[i], v.slots[i]))
    && (forall o :: 0 <= o < |v.oneofs| && v.oneofs[o].Some? ==> ValueFits(v.oneofs[o].value.value))
    && Unknown.Fits(v.unknown)
  }

  lemma {:induction false} FieldsSizeIsLength(m: MessageGen, v: MessageValue, idx: seq<nat>)
    requires Valid(m, v) && Fits(m, v)
    ensures FieldsSize(m, v, idx) == |FieldsBytes(m, v, idx)|
  {
    if idx != [] {
      var i := idx[|idx| - 1];
      FieldsSizeIsLength(m, v, idx[..|idx| - 1]);
      if SlotOk(m, v, i) {
        FieldSizeIsLength(m.fields[i], v.slots[i]);
      }
    }
  }

  lemma {:induction false} VariantsSizeIsLength(m: MessageGen, os: seq<Option<OneofValue>>)
    requires forall o :: 0 <= o < |os| && os[o].Some? ==> ValueFits(os[o].value.value)
    ensures VariantsSize(m, os) == |VariantsBytes(m, os)|
  {
    if os != [] {
      var last := os[|os| - 1];
      VariantsSizeIsLength(m, os[..|os| - 1]);
      if last.Some? && VariantOk(m, last.value) {
        ElementSizeIsLength(m.fields[last.value.field].number, m.fields[last.value.field].protoType, last.value.value);
      }
    }
  }

  /** The size `compute_size` returns is the number of bytes `write_to`
      emits for the same message. */
  lemma SizeIsLength(m: MessageGen, v: MessageValue)
    requires Valid(m, v) && Fits(m, v)
    ensures Size(m, v) == |Encoding(m, v)|
  {
    FieldsSizeIsLength(m, v, FieldsExceptOneofAndGroup(m.fields));
    VariantsSizeIsLength(m, v.oneofs);
    Unknown.UnknownFieldsSizeIsLength(v.unknown);
  }

  /** One more field in the accumulator. */
  lemma FieldsSizeStep(m: MessageGen, v: MessageValue, idx: seq<nat>, j: nat)
    requires j < |idx|
    ensures FieldsSize(m, v, idx[..j + 1]) == FieldsSize(m, v, idx[..j]) + SlotSize(m, v, idx[j])
  {
    assert idx[..j + 1][..j] == idx[..j];
  }

  /** One more oneof in the accumulator. */
  lemma VariantsSizeStep(m: MessageGen, os: seq<Option<OneofValue>>, o: nat)
    requires o < |os|
    ensures VariantsSize(m, os[..o + 1]) == VariantsSize(m, os[..o]) + VariantSize(m, os[o])
  {
    assert os[..o + 1][..o] == os[..o];
  }

  /** `compute_size`: the `my_size` accumulator over the fields except
      oneofs and groups, then the active variants, then the unknown fields;
      the total, cast to u32, is cached. */
  method ComputeSize(m: MessageGen, v: MessageValue) returns (mySize: nat, cachedSize: u32)
    requires Valid(m, v)
    ensures mySize == Size(m, v)
    ensures cachedSize == mySize % TWO_32
  {
    var kept := FieldsExceptOneofAndGroup(m.fields);
    mySize := 0;
    var j := 0;
    while j < |kept|
      invariant 0 <= j <= |kept| && mySize == FieldsSize(m, v, kept[..j])
    {
      FieldsSizeStep(m, v, kept, j);
      mySize := mySize + SlotSize(m, v, kept[j]);
      j := j + 1;
    }
    assert kept[..j] == kept;
    var o := 0;
    while o < m.oneofCount
      invariant 0 <= o <= m.oneofCount
      invariant mySize == FieldsSize(m, v, kept) + VariantsSize(m, v.oneofs[..o])
    {
      VariantsSizeStep(m, v.oneofs, o);
      mySize := mySize + VariantSize(m, v.oneofs[o]);
      o := o + 1;
    }
    assert v.oneofs[..o] == v.oneofs;
    mySize := mySize + Unknown.UnknownFieldsSize(v.unknown);
    cachedSize := mySize % TWO_32;
  }

  // ---------------------------------------------------------------- merge_from

  /** The position of the first element of `s` satisfying `p`, looking from
      position `lo` on. */
  function FirstFrom<T>(s: seq<T>, p: T -> bool, lo: nat): (r: Option<nat>)
    ensures r.Some? ==> lo <= r.value < |s| && p(s[r.value])
    ensures r.Some? ==> forall j :: lo <= j < r.value ==> !p(s[j])
    ensures r.None? <==> forall j :: lo <= j < |s| ==> !p(s[j])
    decreases |s| - lo
  {
    if lo >= |s| then None
    else if p(s[lo]) then Some(lo)
    else FirstFrom(s, p, lo + 1)
  }

  function First<T>(s: seq<T>, p: T -> bool): (r: Option<nat>)
    ensures r.Some? ==> r.value < |s| && p(s[r.value]) && forall j :: 0 <= j < r.value ==> !p(s[j])
    ensures r.None? <==> forall j :: 0 <= j < |s| ==> !p(s[j])
  {
    FirstFrom(s, p, 0)
  }

  /** Field `g` has a case arm in `merge_from` that matches `tag`. */
  predicate Accepts(g: FieldGen, tag: u32)
  {
    g.protoType != TypeGroup && tag in AcceptedTags(g)
  }

  /** The arm `match tag` takes, among the fields from position `lo` on. */
  function CaseFrom(fs: seq<FieldGen>, tag: u32, lo: nat): (r: Option<nat>)
    ensures r.Some? ==> lo <= r.value < |fs| && Accepts(fs[r.value], tag)
    decreases |fs| - lo
  {
    if lo >= |fs| then None
    else if Accepts(fs[lo], tag) then Some(lo)
    else CaseFrom(fs, tag, lo + 1)
  }

  /** The arm `match tag` takes: the arms are those of the fields except
      groups, in declaration order, and the first that matches wins; `None`
      is the fall-through arm for unknown fields. */
  function CaseOf(fs: seq<FieldGen>, tag: u32): (r: Option<nat>)
    ensures r.Some? ==> r.value < |fs| && Accepts(fs[r.value], tag)
  {
    CaseFrom(fs, tag, 0)
  }

  /** No arm before a matching one is skipped: the arm taken comes no later
      than any field that accepts the tag. */
  lemma {:induction false} CaseFromFinds(fs: seq<FieldGen>, tag: u32, lo: nat, i: nat)
    requires lo <= i < |fs| && Accepts(fs[i], tag)
    ensures CaseFrom(fs, tag, lo).Some? && CaseFrom(fs, tag, lo).value <= i
    decreases i - lo
  {
    if lo < i && !Accepts(fs[lo], tag) {
      CaseFromFinds(fs, tag, lo + 1, i);
    }
  }

  /** The fall-through arm is taken exactly when no field accepts the tag,
      and otherwise the first field that accepts it wins. */
  lemma CaseOfFirst(fs: seq<FieldGen>, tag: u32, j: nat)
    requires j < |fs| && Accepts(fs[j], tag)
    ensures CaseOf(fs, tag).Some? && CaseOf(fs, tag).value <= j
  {
    CaseFromFinds(fs, tag, 0, j);
  }

  /** Field numbers are distinct, so at most one arm matches a tag: every
      field that accepts the tag is the one dispatched to. */
  lemma CaseOfUnique(fs: seq<FieldGen>, tag: u32, i: nat)
    requires DistinctFieldNumbers(fs) && i < |fs| && Accepts(fs[i], tag)
    ensures CaseOf(fs, tag) == Some(i)
  {
    CaseOfFirst(fs, tag, i);
    var k := CaseOf(fs, tag).value;
    AcceptsNumber(fs[k], tag);
    AcceptsNumber(fs[i], tag);
  }

  /** A field accepts only tags that carry its number. */
  lemma AcceptsNumber(g: FieldGen, tag: u32)
    requires Accepts(g, tag)
    ensures tag / 8 == g.number
  {
    AcceptedTagsShape(g);
  }

  /** Every record `write_to` emits for a field other than a group carries a
      tag that `merge_from` dispatches back to that same field. */
  lemma WrittenRecordsDispatch(m: MessageGen, i: nat)
    requires DistinctFieldNumbers(m.fields) && i < |m.fields| && Consistent(m.fields[i]) && m.fields[i].protoType != TypeGroup
    ensures CaseOf(m.fields, TagWithWireType(m.fields[i], WrittenWireType(m.fields[i]))) == Some(i)
  {
    WrittenTagAccepted(m.fields[i]);
    CaseOfUnique(m.fields, TagWithWireType(m.fields[i], WrittenWireType(m.fields[i])), i);
  }

  /** What one arm reads after the tag: one element (`read_<type>`,
      `read_message`, `read_string`, `read_bytes`), a packed run
      (`read_repeated_packed_<type>_into`), one map entry (`read_map_into`),
      or, in the fall-through arm, what `read_unknown_or_skip_group`
      returns (`None` for a skipped group). */
  datatype Payload =
    | Single(value: Value)
    | PackedRun(values: seq<Value>)
    | MapEntry(key: Value, entryValue: Value)
    | Skipped(read: Option<Unknown.UnknownValue>)

  /** One turn of the `while !is.eof()` loop: a tag and what its arm read, or
      a read that failed and ends the loop through `?`. */
  datatype Token = Record(tag: u32, payload: Payload) | ReadFailed(error: ReadError)

  /** The packed case arm of a repeated field whose elements are not
      length-delimited. */
  predicate IsPackedTag(g: FieldGen, tag: u32)
  {
    g.kind.Repeated? && !IsLengthDelimitedElem(g.kind.elem) && tag == TagWithWireType(g, LengthDelimited)
  }

  /** The payload has the shape field `g`'s arm for `tag` reads, with
      values of the field's type. */
  predicate ArmPayloadOk(g: FieldGen, tag: u32, p: Payload)
  {
    if g.kind.Map? then
      p.MapEntry? && ValueOk(ElemType(g.kind.key), p.key) && ValueOk(ElemType(g.kind.value), p.entryValue)
    else if IsPackedTag(g, tag) then
      p.PackedRun? && forall k :: 0 <= k < |p.values| ==> ValueOk(g.protoType, p.values[k])
    else
      p.Single? && ValueOk(g.protoType, p.value)
  }

  predicate PayloadOk(fs: seq<FieldGen>, tag: u32, p: Payload)
  {
    match CaseOf(fs, tag)
    case None => p.Skipped? && (p.read.Some? ==> 1 <= tag / 8)
    case Some(i) => ArmPayloadOk(fs[i], tag, p)
  }

  predicate TokensOk(fs: seq<FieldGen>, toks: seq<Token>)
  {
    forall k :: 0 <= k < |toks| && toks[k].Record? ==> PayloadOk(fs, toks[k].tag, toks[k].payload)
  }

  /** The position of key `k` among map entries. */
  function KeyIndex(es: seq<(Value, Value)>, k: Value): (r: Option<nat>)
    ensures r.Some? ==> r.value < |es| && es[r.value].0 == k
    ensures r.None? <==> forall j :: 0 <= j < |es| ==> es[j].0 != k
  {
    First(es, (e: (Value, Value)) => e.0 == k)
  }

  /** What the map holds for key `k`. */
  function Lookup(es: seq<(Value, Value)>, k: Value): Option<Value>
  {
    var p := KeyIndex(es, k);
    if p.Some? then Some(es[p.value].1) else None
  }

  /** With distinct keys, the entry found is the only one with its key. */
  lemma LookupAt(es: seq<(Value, Value)>, j: nat)
    requires DistinctKeys(es) && j < |es|
    ensures Lookup(es, es[j].0) == Some(es[j].1)
  {
  }

  /** `HashMap::insert` as `read_map_into` uses it: the entry of the key is
      replaced, or a new entry is added at the end. */
  function MapInsert(es: seq<(Value, Value)>, k: Value, x: Value): (r: seq<(Value, Value)>)
    ensures DistinctKeys(es) ==> DistinctKeys(r)
    ensures forall kt, vt :: EntriesOk(kt, vt, es) && ValueOk(kt, k) && ValueOk(vt, x) ==> EntriesOk(kt, vt, r)
  {
    var p := KeyIndex(es, k);
    if p.Some? then es[p.value := (k, x)] else es + [(k, x)]
  }

  /** After the insertion the key holds the new value and every other key
      holds what it held. */
  lemma MapInsertLookup(es: seq<(Value, Value)>, k: Value, x: Value, k': Value)
    requires DistinctKeys(es)
    ensures Lookup(MapInsert(es, k, x), k') == if k' == k then Some(x) else Lookup(es, k')
  {
    var r := MapInsert(es, k, x);
    var p := KeyIndex(es, k);
    var j := if p.Some? then p.value else |es|;
    LookupAt(r, j);
    var b := KeyIndex(es, k');
    if k' != k && b.Some? {
      assert r[b.value] == es[b.value];
      LookupAt(r, b.value);
      LookupAt(es, b.value);
    } else if k' != k {
      assert forall j :: 0 <= j < |r| ==> r[j].0 != k';
    }
  }

  /** The elements of a repeated slot and the entries of a map slot. */
  function ElementsOf(s: FieldState): seq<Value>
  {
    if s.Elements? then s.values else []
  }

  function EntriesOf(s: FieldState): seq<(Value, Value)>
  {
    if s.Entries? then s.entries else []
  }

  /** The elements a payload carries: one, or a packed run. */
  function PayloadElements(p: Payload): seq<Value>
  {
    match p
    case Single(x) => [x]
    case PackedRun(xs) => xs
    case _ => []
  }

  /** The arm of a field stored in its own slot: a singular field is
      overwritten (the last record wins), a repeated field grows by what was
      read, a map gets the entry inserted. A payload of the wrong shape,
      which the arm never reads, changes nothing. */
  function MergedSlot(g: FieldGen, s: FieldState, p: Payload): FieldState
  {
    match g.kind
    case Singular(flag, _) =>
      if !p.Single? then s else if flag.WithFlag? then Flagged(Some(p.value)) else Plain(p.value)
    case Repeated(_, _) => Elements(ElementsOf(s) + PayloadElements(p))
    case Map(_, _) => if p.MapEntry? then Entries(MapInsert(EntriesOf(s), p.key, p.entryValue)) else s
    case Oneof(_, _, _) => s
  }

  /** The arm keeps the slot well-formed. */
  lemma MergedSlotOk(g: FieldGen, s: FieldState, tag: u32, p: Payload)
    requires !g.kind.Oneof? && g.protoType != TypeGroup && StateOk(g, s) && ArmPayloadOk(g, tag, p)
    ensures StateOk(g, MergedSlot(g, s, p))
  {
  }

  /** The message has one slot per field and one per oneof, and oneof
      members name a declared oneof. */
  predicate Shaped(m: MessageGen, v: MessageValue)
  {
    |v.slots| == |m.fields| && |v.oneofs| == m.oneofCount && OneofsDeclared(m)
  }

  /** One turn of `merge_from`: the arm of the field the tag dispatches to,
      a oneof member setting its oneof to that variant, or the fall-through
      arm adding the value to the unknown fields. */
  function MergeStep(m: MessageGen, v: MessageValue, tag: u32, p: Payload): (r: MessageValue)
    requires Shaped(m, v)
    ensures Shaped(m, r)
  {
    match CaseOf(m.fields, tag)
    case None =>
      if p.Skipped? && p.read.Some? && 1 <= tag / 8
      then v.(unknown := Unknown.AddValue(v.unknown, tag / 8, p.read.value))
      else v
    case Some(i) =>
      var g := m.fields[i];
      if g.kind.Oneof? then
        if p.Single? then v.(oneofs := v.oneofs[g.kind.oneofIndex := Some(OneofValue(i, p.value))]) else v
      else v.(slots := v.slots[i := MergedSlot(g, v.slots[i], p)])
  }

  /** Replacing one slot by a well-formed state keeps the message well-formed. */
  lemma SlotUpdateOk(m: MessageGen, v: MessageValue, i: nat, s: FieldState)
    requires ValueOkFor(m, v) && i < |m.fields| && StateOk(m.fields[i], s)
    ensures ValueOkFor(m, v.(slots := v.slots[i := s]))
  {
  }

  /** Setting a oneof to a variant of its own keeps the message well-formed. */
  lemma OneofUpdateOk(m: MessageGen, v: MessageValue, o: nat, ov: OneofValue)
    requires ValueOkFor(m, v) && o < m.oneofCount && VariantOk(m, ov) && m.fields[ov.field].kind.oneofIndex == o
    ensures ValueOkFor(m, v.(oneofs := v.oneofs[o := Some(ov)]))
  {
  }

  /** Every turn of `merge_from` on a record of the shape its arm reads
      keeps the message well-formed. */
  lemma MergeStepOk(m: MessageGen, v: MessageValue, tag: u32, p: Payload)
    requires OneofsDeclared(m) && ValueOkFor(m, v) && PayloadOk(m.fields, tag, p)
    ensures ValueOkFor(m, MergeStep(m, v, tag, p))
  {
    match CaseOf(m.fields, tag)
    case None =>
    case Some(i) =>
      var g := m.fields[i];
      if g.kind.Oneof? {
        OneofUpdateOk(m, v, g.kind.oneofIndex, OneofValue(i, p.value));
      } else {
        MergedSlotOk(g, v.slots[i], tag, p);
        SlotUpdateOk(m, v, i, MergedSlot(g, v.slots[i], p));
      }
  }

  /** `merge_from` over a sequence of loop turns: the message after each
      record in turn, stopping at the first failed read, whose error is
      returned beside the message merged so far. */
  function MergeAll(m: MessageGen, v: MessageValue, toks: seq<Token>): (r: (MessageValue, Option<ReadError>))
    requires Shaped(m, v)
    ensures Shaped(m, r.0)
    decreases |toks|
  {
    if toks == [] then (v, None)
    else
      match toks[0]
      case ReadFailed(e) => (v, Some(e))
      case Record(tag, p) => MergeAll(m, MergeStep(m, v, tag, p), toks[1..])
  }

  lemma TokensOkTail(fs: seq<FieldGen>, toks: seq<Token>)
    requires TokensOk(fs, toks) && toks != []
    ensures TokensOk(fs, toks[1..])
  {
    assert forall k :: 1 <= k < |toks| ==> toks[1..][k - 1] == toks[k];
  }

  /** Records of the shapes their arms read keep the message well-formed
      through the whole loop. */
  lemma {:induction false} MergeAllOk(m: MessageGen, v: MessageValue, toks: seq<Token>)
    requires OneofsDeclared(m) && ValueOkFor(m, v) && TokensOk(m.fields, toks)
    ensures ValueOkFor(m, MergeAll(m, v, toks).0)
    decreases |toks|
  {
    if toks != [] && toks[0].Record? {
      TokensOkTail(m.fields, toks);
      MergeStepOk(m, v, toks[0].tag, toks[0].payload);
      MergeAllOk(m, MergeStep(m, v, toks[0].tag, toks[0].payload), toks[1..]);
    }
  }

  /** The position of the first failed read. */
  function FailureAt(toks: seq<Token>): (r: Option<nat>)
    ensures r.Some? ==> r.value < |toks| && toks[r.value].ReadFailed?
    ensures r.Some? ==> forall j :: 0 <= j < r.value ==> toks[j].Record?
    ensures r.None? <==> forall j :: 0 <= j < |toks| ==> toks[j].Record?
  {
    if toks == [] then None
    else if toks[0].ReadFailed? then Some(0)
    else
      var rest := FailureAt(toks[1..]);
      assert forall j :: 1 <= j < |toks| ==> toks[1..][j - 1] == toks[j];
      if rest.Some? then Some(rest.value + 1) else None
  }

  /** `merge_from` returns the error of the first failed read, if any. */
  lemma {:induction false} MergeAllError(m: MessageGen, v: MessageValue, toks: seq<Token>)
    requires Shaped(m, v)
    ensures MergeAll(m, v, toks).1 == if FailureAt(toks).Some? then Some(toks[FailureAt(toks).value].error) else None
    decreases |toks|
  {
    if toks != [] && toks[0].Record? {
      MergeAllError(m, MergeStep(m, v, toks[0].tag, toks[0].payload), toks[1..]);
    }
  }

  /** After a failed read the message holds exactly the records read before
      it. */
  lemma {:induction false} MergeAllKeepsPrefix(m: MessageGen, v: MessageValue, toks: seq<Token>, f: nat)
    requires Shaped(m, v) && FailureAt(toks) == Some(f)
    ensures MergeAll(m, v, toks).0 == MergeAll(m, v, toks[..f]).0
    decreases |toks|
  {
    if f > 0 {
      var t := toks[1..];
      assert FailureAt(t) == Some(f - 1);
      assert toks[..f][1..] == t[..f - 1];
      MergeAllKeepsPrefix(m, MergeStep(m, v, toks[0].tag, toks[0].payload), t, f - 1);
    }
  }

  /** The generated `merge_from`: until the input ends, read a tag and run
      its arm; a failed read returns its error at once, leaving what was
      merged so far in place. */
  method MergeFrom(m: MessageGen, v: MessageValue, toks: seq<Token>) returns (r: MessageValue, err: Option<ReadError>)
    requires Shaped(m, v)
    ensures (r, err) == MergeAll(m, v, toks)
  {
    r := v;
    var k := 0;
    assert toks[0..] == toks;
    while k < |toks|
      invariant 0 <= k <= |toks| && Shaped(m, r)
      invariant MergeAll(m, r, toks[k..]) == MergeAll(m, v, toks)
    {
      assert toks[k..][0] == toks[k] && toks[k..][1..] == toks[k + 1..];
      if toks[k].ReadFailed? {
        return r, Some(toks[k].error);
      }
      r := MergeStep(m, r, toks[k].tag, toks[k].payload);
      k := k + 1;
    }
    err := None;
  }

  /** A record in the fall-through arm changes only the unknown fields: its
      value joins those of its field number, after the ones read before,
      and a skipped group changes nothing. */
  lemma MergeUnknownOnly(m: MessageGen, v: MessageValue, tag: u32, p: Payload, n: FieldNumber)
    requires Shaped(m, v) && PayloadOk(m.fields, tag, p) && CaseOf(m.fields, tag).None?
    requires Unknown.DistinctNumbers(v.unknown)
    ensures MergeStep(m, v, tag, p).slots == v.slots && MergeStep(m, v, tag, p).oneofs == v.oneofs
    ensures Unknown.DistinctNumbers(MergeStep(m, v, tag, p).unknown)
    ensures Unknown.ValuesOf(MergeStep(m, v, tag, p).unknown, n)
            == Unknown.ValuesOf(v.unknown, n) + (if p.read.Some? && n == tag / 8 then [p.read.value] else [])
  {
    if p.read.Some? {
      Unknown.AddValueDistinct(v.unknown, tag / 8, p.read.value);
      Unknown.AddValueEffect(v.unknown, tag / 8, p.read.value, n);
    }
  }

  /** A record for a oneof member sets its oneof to that variant, whatever
      was active before, and changes nothing else. */
  lemma MergeOneofSetsVariant(m: MessageGen, v: MessageValue, tag: u32, p: Payload, i: nat)
    requires Shaped(m, v) && PayloadOk(m.fields, tag, p) && CaseOf(m.fields, tag) == Some(i)
    requires m.fields[i].kind.Oneof?
    ensures p.Single?
    ensures MergeStep(m, v, tag, p).oneofs[m.fields[i].kind.oneofIndex] == Some(OneofValue(i, p.value))
    ensures forall o :: 0 <= o < |v.oneofs| && o != m.fields[i].kind.oneofIndex ==>
              MergeStep(m, v, tag, p).oneofs[o] == v.oneofs[o]
    ensures MergeStep(m, v, tag, p).slots == v.slots && MergeStep(m, v, tag, p).unknown == v.unknown
  {
  }

  /** The oneof field is an optional value of the oneof's enum, so at most one
      member is set: a record of another member of the same oneof replaces
      the variant an earlier record set. */
  lemma OneofHoldsLastVariant(m: MessageGen, v: MessageValue, t1: u32, p1: Payload, i: nat, t2: u32, p2: Payload, j: nat)
    requires Shaped(m, v) && PayloadOk(m.fields, t1, p1) && CaseOf(m.fields, t1) == Some(i) && m.fields[i].kind.Oneof?
    requires PayloadOk(m.fields, t2, p2) && CaseOf(m.fields, t2) == Some(j) && m.fields[j].kind.Oneof?
    requires m.fields[i].kind.oneofIndex == m.fields[j].kind.oneofIndex
    ensures p2.Single?
    ensures MergeStep(m, MergeStep(m, v, t1, p1), t2, p2).oneofs[m.fields[j].kind.oneofIndex] == Some(OneofValue(j, p2.value))
    ensures MergeStep(m, MergeStep(m, v, t1, p1), t2, p2).slots == v.slots
  {
    MergeOneofSetsVariant(m, v, t1, p1, i);
    MergeOneofSetsVariant(m, MergeStep(m, v, t1, p1), t2, p2, j);
  }

  /** Merging a record and then more is merging the more into the result. */
  lemma MergeAllCons(m: MessageGen, v: MessageValue, tag: u32, p: Payload, rest: seq<Token>)
    requires Shaped(m, v)
    ensures MergeAll(m, v, [Record(tag, p)] + rest) == MergeAll(m, MergeStep(m, v, tag, p), rest)
  {
    assert ([Record(tag, p)] + rest)[1..] == rest;
  }

  /** The two tags dispatch to the same singular field, or to members of
      the same oneof. */
  predicate SameTarget(fs: seq<FieldGen>, t1: u32, t2: u32)
  {
    var c1 := CaseOf(fs, t1);
    var c2 := CaseOf(fs, t2);
    && c1.Some? && c2.Some?
    && ((c1 == c2 && fs[c1.value].kind.Singular?)
        || (fs[c1.value].kind.Oneof? && fs[c2.value].kind.Oneof? && fs[c1.value].kind.oneofIndex == fs[c2.value].kind.oneofIndex))
  }

  /** Of two records for the same singular field, or for members of the
      same oneof, only the second one counts. */
  lemma LastWins(m: MessageGen, v: MessageValue, t1: u32, p1: Payload, t2: u32, p2: Payload)
    requires Shaped(m, v) && PayloadOk(m.fields, t1, p1) && PayloadOk(m.fields, t2, p2)
    requires SameTarget(m.fields, t1, t2)
    ensures MergeAll(m, v, [Record(t1, p1), Record(t2, p2)]).0 == MergeStep(m, v, t2, p2)
  {
    var i := CaseOf(m.fields, t1).value;
    var w := MergeStep(m, v, t1, p1);
    MergeAllCons(m, v, t1, p1, [Record(t2, p2)]);
    MergeAllCons(m, w, t2, p2, []);
    assert [Record(t1, p1)] + [Record(t2, p2)] == [Record(t1, p1), Record(t2, p2)];
    assert [Record(t2, p2)] + [] == [Record(t2, p2)];
    if m.fields[i].kind.Oneof? {
      var o := m.fields[i].kind.oneofIndex;
      var j := CaseOf(m.fields, t2).value;
      assert v.oneofs[o := Some(OneofValue(i, p1.value))][o := Some(OneofValue(j, p2.value))]
          == v.oneofs[o := Some(OneofValue(j, p2.value))];
    } else {
      var s2 := MergedSlot(m.fields[i], v.slots[i], p2);
      assert w.slots[i := s2] == v.slots[i := s2];
    }
  }

  /** The unpacked form of a run: one record per element. */
  function UnpackedRecords(tag: u32, vs: seq<Value>): seq<Token>
  {
    if vs == [] then [] else [Record(tag, Single(vs[0]))] + UnpackedRecords(tag, vs[1..])
  }

  /** The unpacked form holds one record per element, in order. */
  lemma {:induction false} UnpackedRecordsAt(tag: u32, vs: seq<Value>)
    ensures |UnpackedRecords(tag, vs)| == |vs|
    ensures forall k :: 0 <= k < |vs| ==> UnpackedRecords(tag, vs)[k] == Record(tag, Single(vs[k]))
  {
    if vs != [] {
      UnpackedRecordsAt(tag, vs[1..]);
    }
  }

  /** Both the packed and the unpacked tag of a repeated field whose
      elements are not length-delimited dispatch to it. */
  lemma BothTagsDispatch(m: MessageGen, i: nat)
    requires DistinctFieldNumbers(m.fields) && i < |m.fields| && Consistent(m.fields[i]) && m.fields[i].protoType != TypeGroup
    requires m.fields[i].kind.Repeated? && !IsLengthDelimitedElem(m.fields[i].kind.elem)
    ensures CaseOf(m.fields, TagWithWireType(m.fields[i], LengthDelimited)) == Some(i)
    ensures CaseOf(m.fields, Tag(m.fields[i])) == Some(i)
    ensures TagWithWireType(m.fields[i], LengthDelimited) != Tag(m.fields[i])
  {
    var g := m.fields[i];
    assert g.wireType != LengthDelimited;
    AcceptedTagsShape(g);
    CaseOfUnique(m.fields, TagWithWireType(g, LengthDelimited), i);
    CaseOfUnique(m.fields, Tag(g), i);
  }

  /** One unpacked record of a repeated field appends its element. */
  lemma MergeStepAppends(m: MessageGen, v: MessageValue, i: nat, tag: u32, x: Value)
    requires Shaped(m, v) && CaseOf(m.fields, tag) == Some(i) && m.fields[i].kind.Repeated?
    requires v.slots[i].Elements?
    ensures MergeStep(m, v, tag, Single(x)) == v.(slots := v.slots[i := Elements(v.slots[i].values + [x])])
  {
  }

  /** Merging the unpacked records of a run appends the run to the
      field's elements. */
  lemma {:induction false} UnpackedAppends(m: MessageGen, v: MessageValue, i: nat, tag: u32, vs: seq<Value>)
    requires Shaped(m, v) && CaseOf(m.fields, tag) == Some(i) && m.fields[i].kind.Repeated?
    requires v.slots[i].Elements?
    ensures MergeAll(m, v, UnpackedRecords(tag, vs)).0
            == v.(slots := v.slots[i := Elements(v.slots[i].values + vs)])
    decreases |vs|
  {
    var es := v.slots[i].values;
    if vs == [] {
      assert es + vs == es;
    } else {
      var w := UnpackedHead(m, v, i, tag, vs);
      UnpackedAppends(m, w, i, tag, vs[1..]);
      assert (es + [vs[0]]) + vs[1..] == es + vs;
      assert w.slots[i := Elements(es + vs)] == v.slots[i := Elements(es + vs)];
    }
  }

  /** The first record of an unpacked run appends its element. */
  lemma UnpackedHead(m: MessageGen, v: MessageValue, i: nat, tag: u32, vs: seq<Value>) returns (w: MessageValue)
    requires Shaped(m, v) && CaseOf(m.fields, tag) == Some(i) && m.fields[i].kind.Repeated?
    requires v.slots[i].Elements? && vs != []
    ensures w == v.(slots := v.slots[i := Elements(v.slots[i].values + [vs[0]])])
    ensures Shaped(m, w) && w.slots[i].Elements?
    ensures MergeAll(m, v, UnpackedRecords(tag, vs)) == MergeAll(m, w, UnpackedRecords(tag, vs[1..]))
  {
    w := v.(slots := v.slots[i := Elements(v.slots[i].values + [vs[0]])]);
    assert UnpackedRecords(tag, vs) == [Record(tag, Single(vs[0]))] + UnpackedRecords(tag, vs[1..]);
    MergeAllCons(m, v, tag, Single(vs[0]), UnpackedRecords(tag, vs[1..]));
    MergeStepAppends(m, v, i, tag, vs[0]);
  }

  /** A packed run merges like the same elements sent one record each. */
  lemma PackedSameAsUnpacked(m: MessageGen, v: MessageValue, i: nat, vs: seq<Value>)
    requires Shaped(m, v) && DistinctFieldNumbers(m.fields) && i < |m.fields|
    requires Consistent(m.fields[i]) && m.fields[i].protoType != TypeGroup
    requires m.fields[i].kind.Repeated? && !IsLengthDelimitedElem(m.fields[i].kind.elem)
    requires v.slots[i].Elements?
    ensures MergeStep(m, v, TagWithWireType(m.fields[i], LengthDelimited), PackedRun(vs))
            == MergeAll(m, v, UnpackedRecords(Tag(m.fields[i]), vs)).0
  {
    BothTagsDispatch(m, i);
    UnpackedAppends(m, v, i, Tag(m.fields[i]), vs);
  }

  /** Both forms are records the field's arm reads. */
  lemma PackedAndUnpackedAccepted(m: MessageGen, i: nat, vs: seq<Value>)
    requires DistinctFieldNumbers(m.fields) && i < |m.fields|
    requires Consistent(m.fields[i]) && m.fields[i].protoType != TypeGroup
    requires m.fields[i].kind.Repeated? && !IsLengthDelimitedElem(m.fields[i].kind.elem)
    requires forall k :: 0 <= k < |vs| ==> ValueOk(m.fields[i].protoType, vs[k])
    ensures PayloadOk(m.fields, TagWithWireType(m.fields[i], LengthDelimited), PackedRun(vs))
    ensures TokensOk(m.fields, UnpackedRecords(Tag(m.fields[i]), vs))
  {
    BothTagsDispatch(m, i);
    var toks := UnpackedRecords(Tag(m.fields[i]), vs);
    UnpackedRecordsAt(Tag(m.fields[i]), vs);
    forall k | 0 <= k < |toks| && toks[k].Record?
      ensures PayloadOk(m.fields, toks[k].tag, toks[k].payload)
    {
      assert toks[k] == Record(Tag(m.fields[i]), Single(vs[k]));
    }
  }
}
