// The code the generator writes for a protobuf enum: a Rust enum with one
// variant per declared value (aliases included), `value`, `from_i32`,
// `values`, `PartialEq` and `Hash` (derived, or by number under
// `allow_alias`) and `Default` (the first declared value). A variant is
// modelled by its position among the declared values.
module EnumGen {
  import opened Wrappers
  import opened WireFormat

  /** One declared value: its name and number. */
  datatype EnumValueDecl = EnumValueDecl(name: string, number: i32)

  /** A declared enum: its values in declaration order and whether
      `allow_alias` is set. */
  datatype EnumDecl = EnumDecl(name: string, values: seq<EnumValueDecl>, allowAlias: bool)

  /** The schema compiler declares at least one value per enum, and without
      `allow_alias` no two values share a number. */
  predicate EnumOk(e: EnumDecl)
  {
    && |e.values| > 0
    && (!e.allowAlias ==> forall j, k :: 0 <= j < k < |e.values| ==> e.values[j].number != e.values[k].number)
  }

  /** Value `k` is the first declared value with its number (not a later
      alias). */
  predicate IsFirstOfNumber(vs: seq<EnumValueDecl>, k: nat)
    requires k < |vs|
  {
    forall j :: 0 <= j < k ==> vs[j].number != vs[k].number
  }

  /** The numbers of the values. */
  function Numbers(vs: seq<EnumValueDecl>): set<i32>
  {
    if vs == [] then {} else Numbers(vs[..|vs| - 1]) + {vs[|vs| - 1].number}
  }

  /** A number is among the numbers exactly when some value declares it. */
  lemma {:induction false} NumbersSpec(vs: seq<EnumValueDecl>)
    ensures forall x :: x in Numbers(vs) <==> exists j :: 0 <= j < |vs| && vs[j].number == x
  {
    if vs != [] {
      var init := vs[..|vs| - 1];
      NumbersSpec(init);
      assert forall j :: 0 <= j < |init| ==> init[j] == vs[j];
    }
  }

  // ---------------------------------------------------------------- values_all / values_unique

  /** `values_all`: every declared value in order; the generated enum's
      variants and its `values()` slice. */
  method ValuesAll(e: EnumDecl) returns (r: seq<nat>)
    ensures |r| == |e.values| && forall k :: 0 <= k < |r| ==> r[k] == k
  {
    r := [];
    var i := 0;
    while i < |e.values|
      invariant 0 <= i <= |e.values|
      invariant |r| == i && forall k :: 0 <= k < i ==> r[k] == k
    {
      r := r + [i];
      i := i + 1;
    }
  }

  /** The positions `values_unique` keeps from a prefix of the values. */
  function UniqueValues(vs: seq<EnumValueDecl>): (r: seq<nat>)
    ensures forall a :: 0 <= a < |r| ==> r[a] < |vs|
  {
    if vs == [] then []
    else
      var init := vs[..|vs| - 1];
      var last: nat := |vs| - 1;
      UniqueValues(init) + (if vs[last].number in Numbers(init) then [] else [last])
  }

  /** `values_unique` keeps exactly the first value of each number, in
      declaration order. */
  lemma {:induction false} UniqueValuesSpec(vs: seq<EnumValueDecl>)
    ensures forall k: nat :: k in UniqueValues(vs) <==> k < |vs| && IsFirstOfNumber(vs, k)
    ensures forall a, b :: 0 <= a < b < |UniqueValues(vs)| ==> UniqueValues(vs)[a] < UniqueValues(vs)[b]
  {
    if vs != [] {
      var init := vs[..|vs| - 1];
      var last: nat := |vs| - 1;
      UniqueValuesSpec(init);
      NumbersSpec(init);
      forall k: nat | k < last
        ensures IsFirstOfNumber(init, k) <==> IsFirstOfNumber(vs, k)
      {
        assert forall j :: 0 <= j <= k ==> init[j] == vs[j];
      }
      if vs[last].number in Numbers(init) {
        var j :| 0 <= j < |init| && init[j].number == vs[last].number;
        assert vs[j].number == vs[last].number;
      } else {
        forall j | 0 <= j < last
          ensures vs[j].number != vs[last].number
        {
          assert init[j] == vs[j];
        }
      }
    }
  }

  /** The values `values_unique` keeps have distinct numbers, and every
      declared number is among them. */
  lemma UniqueValuesDistinct(vs: seq<EnumValueDecl>)
    ensures forall a, b :: 0 <= a < b < |UniqueValues(vs)| ==> vs[UniqueValues(vs)[a]].number != vs[UniqueValues(vs)[b]].number
    ensures forall j :: 0 <= j < |vs| ==> exists a :: 0 <= a < |UniqueValues(vs)| && vs[UniqueValues(vs)[a]].number == vs[j].number
  {
    UniqueValuesSpec(vs);
    var r := UniqueValues(vs);
    forall a, b | 0 <= a < b < |r|
      ensures vs[r[a]].number != vs[r[b]].number
    {
      assert r[b] in r;
    }
    forall j | 0 <= j < |vs|
      ensures exists a :: 0 <= a < |r| && vs[r[a]].number == vs[j].number
    {
      var f := FirstWithNumber(vs, vs[j].number, 0).value;
      assert f in r;
      var a :| 0 <= a < |r| && r[a] == f;
    }
  }

  /** One more value: its number joins the numbers, and its position is
      kept exactly when that number is new. */
  lemma PrefixStep(vs: seq<EnumValueDecl>, i: nat)
    requires i < |vs|
    ensures Numbers(vs[..i + 1]) == Numbers(vs[..i]) + {vs[i].number}
    ensures UniqueValues(vs[..i + 1])
      == UniqueValues(vs[..i]) + (if vs[i].number in Numbers(vs[..i]) then [] else [i])
  {
    assert vs[..i + 1][..i] == vs[..i];
  }

  /** `values_unique`: walk the values, skipping each whose number the set
      of used numbers already holds. */
  method ValuesUnique(e: EnumDecl) returns (r: seq<nat>)
    ensures r == UniqueValues(e.values)
  {
    var used: set<i32> := {};
    r := [];
    var i := 0;
    while i < |e.values|
      invariant 0 <= i <= |e.values|
      invariant used == Numbers(e.values[..i]) && r == UniqueValues(e.values[..i])
    {
      PrefixStep(e.values, i);
      var n := e.values[i].number;
      if n !in used {
        used := used + {n};
        r := r + [i];
      }
      i := i + 1;
    }
    assert e.values[..i] == e.values;
  }

  // ---------------------------------------------------------------- value / from_i32

  /** The generated `value()`: with `allow_alias` a match returning each
      variant's declared number; otherwise `*self as i32`, the variant's
      discriminant, which is written as its declared number. */
  function Value(e: EnumDecl, k: nat): i32
    requires k < |e.values|
  {
    e.values[k].number
  }

  /** The first value with number `n`, looking from position `lo` on. */
  function FirstWithNumber(vs: seq<EnumValueDecl>, n: i32, lo: nat): (r: Option<nat>)
    ensures r.Some? ==> lo <= r.value < |vs| && vs[r.value].number == n
    ensures r.Some? ==> forall j :: lo <= j < r.value ==> vs[j].number != n
    ensures r.None? <==> forall j :: lo <= j < |vs| ==> vs[j].number != n
    decreases |vs| - lo
  {
    if lo >= |vs| then None
    else if vs[lo].number == n then Some(lo)
    else FirstWithNumber(vs, n, lo + 1)
  }

  /** The arm of a `match value` over arms `arms` (positions of values)
      that matches `n`, from arm `a` on. */
  function MatchArm(vs: seq<EnumValueDecl>, arms: seq<nat>, n: i32, a: nat): (r: Option<nat>)
    requires forall c :: 0 <= c < |arms| ==> arms[c] < |vs|
    ensures r.Some? ==> r.value in arms && vs[r.value].number == n
    ensures r.None? <==> forall c :: a <= c < |arms| ==> vs[arms[c]].number != n
    decreases |arms| - a
  {
    if a >= |arms| then None
    else if vs[arms[a]].number == n then Some(arms[a])
    else MatchArm(vs, arms, n, a + 1)
  }

  /** The generated `from_i32`: one arm per value `values_unique` keeps,
      `_ => None` for every other number. */
  function FromI32(e: EnumDecl, n: i32): Option<nat>
  {
    MatchArm(e.values, UniqueValues(e.values), n, 0)
  }

  /** `from_i32` maps each declared number to its first declared value, and
      every other number to `None`. */
  lemma FromI32Spec(e: EnumDecl, n: i32)
    ensures FromI32(e, n) == FirstWithNumber(e.values, n, 0)
  {
    var vs := e.values;
    var arms := UniqueValues(vs);
    UniqueValuesSpec(vs);
    var f := FirstWithNumber(vs, n, 0);
    var r := FromI32(e, n);
    if f.Some? {
      assert f.value in arms;
      var b :| 0 <= b < |arms| && arms[b] == f.value;
      assert r.Some?;
      assert IsFirstOfNumber(vs, r.value);
    }
  }

  /** Round trip from a variant: `from_i32(v.value())` is the variant itself
      for a value that is not an alias, and for an alias the first value
      declared with its number. */
  lemma FromI32OfValue(e: EnumDecl, k: nat)
    requires k < |e.values|
    ensures FromI32(e, Value(e, k)).Some?
    ensures e.values[FromI32(e, Value(e, k)).value].number == e.values[k].number
    ensures FromI32(e, Value(e, k)) == Some(k) <==> IsFirstOfNumber(e.values, k)
  {
    FromI32Spec(e, Value(e, k));
  }

  /** Round trip from a number: `from_i32` finds a variant exactly for the
      declared numbers, and that variant's `value()` is the number. */
  lemma ValueOfFromI32(e: EnumDecl, n: i32)
    ensures FromI32(e, n).Some? <==> n in Numbers(e.values)
    ensures FromI32(e, n).Some? ==> FromI32(e, n).value < |e.values| && Value(e, FromI32(e, n).value) == n
  {
    FromI32Spec(e, n);
    NumbersSpec(e.values);
  }

  /** Without `allow_alias` every variant is the first of its number, so
      `from_i32` inverts `value` exactly. */
  lemma NoAliasRoundTrip(e: EnumDecl, k: nat)
    requires EnumOk(e) && !e.allowAlias && k < |e.values|
    ensures FromI32(e, Value(e, k)) == Some(k)
  {
    FromI32OfValue(e, k);
  }

  // ---------------------------------------------------------------- PartialEq / Hash / Default

  /** `PartialEq` of two variants: by `value()` under `allow_alias`
      (`write_impl_eq`), otherwise the derived comparison of variants. */
  predicate Eq(e: EnumDecl, a: nat, b: nat)
    requires a < |e.values| && b < |e.values|
  {
    if e.allowAlias then Value(e, a) == Value(e, b) else a == b
  }

  /** What `Hash` feeds the hasher: `value()` under `allow_alias`
      (`write_impl_hash`), otherwise the derived hash of the discriminant,
      which is the declared number. */
  function HashInput(e: EnumDecl, a: nat): i32
    requires a < |e.values|
  {
    if e.allowAlias then Value(e, a) else e.values[a].number
  }

  /** Equal variants hash alike; under `allow_alias` an alias equals the
      value it aliases. */
  lemma EqConsistentWithHash(e: EnumDecl, a: nat, b: nat)
    requires a < |e.values| && b < |e.values|
    ensures Eq(e, a, b) ==> HashInput(e, a) == HashInput(e, b)
    ensures e.allowAlias ==> (Eq(e, a, b) <==> e.values[a].number == e.values[b].number)
  {
  }

  /** Without aliases, the derived equality is equality of numbers. */
  lemma DerivedEqIsByNumber(e: EnumDecl, a: nat, b: nat)
    requires EnumOk(e) && !e.allowAlias && a < |e.values| && b < |e.values|
    ensures Eq(e, a, b) <==> e.values[a].number == e.values[b].number
  {
  }

  /** The derives of the generated enum: `PartialEq` and `Hash` only when
      aliases are not allowed. */
  function EnumDerives(e: EnumDecl): seq<string>
  {
    ["Clone", "Copy"] + (if e.allowAlias then [] else ["PartialEq"]) + ["Eq", "Debug"]
    + (if e.allowAlias then [] else ["Hash"])
  }

  /** `write` adds the hand-written `PartialEq` and `Hash` under
      `allow_alias`. */
  predicate WritesEqAndHash(e: EnumDecl)
  {
    e.allowAlias
  }

  /** `PartialEq` and `Hash` are each implemented exactly once: derived, or
      written by hand when aliases are allowed. */
  lemma EqAndHashOnce(e: EnumDecl)
    ensures ("PartialEq" in EnumDerives(e)) != WritesEqAndHash(e)
    ensures ("Hash" in EnumDerives(e)) != WritesEqAndHash(e)
    ensures "Eq" in EnumDerives(e) && "Clone" in EnumDerives(e) && "Copy" in EnumDerives(e)
  {
    assert EnumDerives(e)[2 + (if e.allowAlias then 0 else 1)] == "Eq";
  }

  /** The generated `Default`: the first declared value, whatever its number
      (the note comment is emitted when that number is not zero). */
  function Default(e: EnumDecl): nat
    requires |e.values| > 0
  {
    0
  }

  predicate WritesDefaultNote(e: EnumDecl)
    requires |e.values| > 0
  {
    e.values[0].number != 0
  }

  /** The default variant is a variant, its `value()` is the first declared
      number, and `from_i32` of that number gives it back. */
  lemma DefaultIsFirst(e: EnumDecl)
    requires |e.values| > 0
    ensures Default(e) < |e.values| && Value(e, Default(e)) == e.values[0].number
    ensures FromI32(e, Value(e, Default(e))) == Some(Default(e))
    ensures WritesDefaultNote(e) <==> Value(e, Default(e)) != 0
  {
    FromI32OfValue(e, 0);
  }
}
