/** The edits of the definitions table inside `process_schema`: `__remove`,
    `__add` and `__override`, then the synthesis of `required` lists and the
    key sorting. */
module DefinitionEdits {
  import opened OrderedMaps
  import opened Json
  import opened Swagger
  import opened Config
  import opened MergeMap

  // ---------------------------------------------------------------------
  // __remove, __add, __override

  /** The table after `__remove` and `__add`. */
  function AfterAdd(defs: Definitions, e: SchemaDefinitions): Definitions
  {
    Extend(Without(defs, Listed(e.remove)), Entered(e.add))
  }

  /** Each `__override` entry, in order: a name present in the table is
      shift-removed, merged with its patch and inserted again (at the end);
      an absent name is skipped. `None` where the merge panics. */
  function Overridden(d: Definitions, ov: Definitions): Option<Definitions>
  {
    if ov == [] then Some(d)
    else
      var n := |ov| - 1;
      var before: Option<Definitions> := Overridden(d, ov[..n]);
      match before
      case None => None
      case Some(p) =>
        var existing: Option<Definition> := Get(p, ov[n].0);
        match existing
        case None => Some(p)
        case Some(x) =>
          var merged: Option<Definition> := Merged(x, ov[n].1);
          match merged
          case None => None
          case Some(m) => Some(Insert(Without(p, {ov[n].0}), ov[n].0, m))
  }

  /** The three edits; `None` where a merge panics. */
  function Edited(defs: Definitions, edits: Option<SchemaDefinitions>): Option<Definitions>
  {
    match edits
    case None => Some(defs)
    case Some(e) => Overridden(AfterAdd(defs, e), Entered(e.overrides))
  }

  /** Every override of a name present in `d` merges without a panic. */
  predicate OverridesMergeable(d: Definitions, ov: Definitions)
  {
    forall i :: 0 <= i < |ov| && Get(d, ov[i].0).Some? ==> Mergeable(Get(d, ov[i].0).value, ov[i].1)
  }

  /** The configuration maps are maps: their keys are distinct, and so are
      the keys of each definition they hold. */
  predicate EditsWellFormed(e: SchemaDefinitions)
  {
    DefinitionsWellFormed(Entered(e.add)) && DefinitionsWellFormed(Entered(e.overrides))
  }

  /** The `__remove` loop: each listed name is shift-removed. */
  method RemoveDefinitions(defs: Definitions, remove: Option<seq<string>>) returns (r: Definitions)
    ensures r == Without(defs, Listed(remove))
  {
    var names := match remove case None => [] case Some(ns) => ns;
    r := ShiftRemoveAll(defs, names);
    assert Listed(remove) == Members(names);
  }

  /** The `__add` loop: each entry is inserted, replacing a definition of
      the same name where it stands. */
  method AddDefinitions(defs: Definitions, add: Definitions) returns (r: Definitions)
    ensures r == Extend(defs, add)
  {
    r := defs;
    var i := 0;
    while i < |add|
      invariant i <= |add|
      invariant r == Extend(defs, add[..i])
    {
      assert add[..i + 1][..i] == add[..i];
      r := Insert(r, add[i].0, add[i].1);
      i := i + 1;
    }
    assert add[..i] == add;
  }

  /** The `__override` loop. */
  method OverrideDefinitions(defs: Definitions, ov: Definitions) returns (r: Definitions)
    requires Distinct(defs) && DefinitionsWellFormed(ov)
    requires OverridesMergeable(defs, ov)
    ensures Overridden(defs, ov) == Some(r)
  {
    r := defs;
    var i := 0;
    while i < |ov|
      invariant i <= |ov|
      invariant Overridden(defs, ov[..i]) == Some(r)
    {
      assert ov[..i + 1][..i] == ov[..i];
      var key := ov[i].0;
      assert DefinitionsWellFormed(ov[..i]) by {
        forall j | 0 <= j < i
          ensures Distinct(ov[..i][j].1)
        {
          assert ov[..i][j] == ov[j];
        }
      }
      assert OverridesMergeable(defs, ov[..i]) by {
        forall j | 0 <= j < i && Get(defs, ov[..i][j].0).Some?
          ensures Mergeable(Get(defs, ov[..i][j].0).value, ov[..i][j].1)
        {
          assert ov[..i][j] == ov[j];
        }
      }
      OverriddenLookup(defs, ov[..i], key);
      forall j | 0 <= j < i
        ensures Keys(ov[..i])[j] != key
      {
        assert ov[..i][j] == ov[j];
      }
      var existing := Get(r, key);
      if existing.Some? {
        assert Mergeable(existing.value, ov[i].1);
        r := Without(r, {key});
        var merged := Merge(existing.value, ov[i].1);
        r := Insert(r, key, merged);
      }
      i := i + 1;
    }
    assert ov[..i] == ov;
  }

  method EditDefinitions(defs: Definitions, edits: Option<SchemaDefinitions>) returns (r: Definitions)
    requires Distinct(defs)
    requires edits.Some? ==> EditsWellFormed(edits.value)
    requires edits.Some? ==> OverridesMergeable(AfterAdd(defs, edits.value), Entered(edits.value.overrides))
    ensures Edited(defs, edits) == Some(r)
  {
    r := defs;
    if edits.Some? {
      var e := edits.value;
      r := RemoveDefinitions(r, e.remove);
      r := AddDefinitions(r, Entered(e.add));
      WithoutDistinct(defs, Listed(e.remove));
      ExtendDistinct(Without(defs, Listed(e.remove)), Entered(e.add));
      r := OverrideDefinitions(r, Entered(e.overrides));
    }
  }

  /** An override reads the table as it stood after `__remove` and `__add`,
      and changes only its own name. */
  lemma {:induction false} OverriddenLookup(d: Definitions, ov: Definitions, k: string)
    requires Distinct(d) && DefinitionsWellFormed(ov)
    requires OverridesMergeable(d, ov)
    ensures Overridden(d, ov).Some?
    ensures Distinct(Overridden(d, ov).value)
    ensures Get(Overridden(d, ov).value, k) ==
      if k in Keys(ov) && Get(d, k).Some? then Merged(Get(d, k).value, Get(ov, k).value) else Get(d, k)
    decreases |ov|
  {
    if ov != [] {
      var n := |ov| - 1;
      var init, key, patch := ov[..n], ov[n].0, ov[n].1;
      assert DefinitionsWellFormed(init) by {
        forall i | 0 <= i < n
          ensures Distinct(init[i].1)
        {
          assert init[i] == ov[i];
        }
      }
      assert OverridesMergeable(d, init) by {
        forall i | 0 <= i < n && Get(d, init[i].0).Some?
          ensures Mergeable(Get(d, init[i].0).value, init[i].1)
        {
          assert init[i] == ov[i];
        }
      }
      OverriddenLookup(d, init, key);
      OverriddenLookup(d, init, k);
      forall j | 0 <= j < n
        ensures Keys(init)[j] != key
      {
        assert ov[j].0 != ov[n].0;
      }
      assert ov == init + [(key, patch)];
      GetAppend(init, [(key, patch)], k);
      assert Keys([(key, patch)]) == [key];
      assert k in Keys(ov) <==> k in Keys(init) || k == key by {
        if k in Keys(ov) {
          var j :| 0 <= j < |ov| && Keys(ov)[j] == k;
          if j < n {
            assert Keys(init)[j] == k;
          }
        }
        if k in Keys(init) {
          var j :| 0 <= j < n && Keys(init)[j] == k;
          assert Keys(ov)[j] == k;
        }
        if k == key {
          assert Keys(ov)[n] == k;
        }
      }
      var p := Overridden(d, init).value;
      var existing: Option<Definition> := Get(p, key);
      match existing
      case None =>
      case Some(x) =>
        assert Get(d, key) == Some(x);
        assert Mergeable(x, patch);
        MergeSucceedsIff(x, patch);
        var m := Merged(x, patch).value;
        WithoutDistinct(p, {key});
        InsertDistinct(Without(p, {key}), key, m);
        GetInsert(Without(p, {key}), key, m, k);
        GetWithout(p, {key}, k);
    }
  }

  /** The edits panic exactly when an override meets a definition it cannot
      be merged into. */
  lemma {:induction false} OverriddenSucceedsIff(d: Definitions, ov: Definitions)
    requires Distinct(d) && DefinitionsWellFormed(ov)
    ensures Overridden(d, ov).Some? <==> OverridesMergeable(d, ov)
    decreases |ov|
  {
    if OverridesMergeable(d, ov) {
      OverriddenLookup(d, ov, "");
    } else if ov != [] {
      var n := |ov| - 1;
      var init, key, patch := ov[..n], ov[n].0, ov[n].1;
      assert DefinitionsWellFormed(init) by {
        forall i | 0 <= i < n
          ensures Distinct(init[i].1)
        {
          assert init[i] == ov[i];
        }
      }
      OverriddenSucceedsIff(d, init);
      if OverridesMergeable(d, init) {
        OverriddenLookup(d, init, key);
        forall j | 0 <= j < n
          ensures Keys(init)[j] != key
        {
          assert ov[j].0 != ov[n].0;
        }
        assert forall i :: 0 <= i < n ==> ov[i] == init[i];
        assert Get(d, key).Some? && !Mergeable(Get(d, key).value, patch);
        MergeSucceedsIff(Get(d, key).value, patch);
      }
    }
  }

  /** What a name holds after the three edits: a listed name is gone unless
      added again, an added name holds the added definition, and an override
      merges into what is there and never creates a name. */
  lemma EditedLookup(defs: Definitions, e: SchemaDefinitions, k: string)
    requires Distinct(defs) && EditsWellFormed(e)
    requires OverridesMergeable(AfterAdd(defs, e), Entered(e.overrides))
    ensures Edited(defs, Some(e)).Some?
    ensures Distinct(Edited(defs, Some(e)).value)
    ensures var base := if k in Keys(Entered(e.add)) then Get(Entered(e.add), k)
                        else if k in Listed(e.remove) then None else Get(defs, k);
      Get(Edited(defs, Some(e)).value, k) ==
        if k in Keys(Entered(e.overrides)) && base.Some? then Merged(base.value, Get(Entered(e.overrides), k).value)
        else base
  {
    WithoutDistinct(defs, Listed(e.remove));
    ExtendDistinct(Without(defs, Listed(e.remove)), Entered(e.add));
    GetExtend(Without(defs, Listed(e.remove)), Entered(e.add), k);
    GetWithout(defs, Listed(e.remove), k);
    OverriddenLookup(AfterAdd(defs, e), Entered(e.overrides), k);
  }

  // ---------------------------------------------------------------------
  // required synthesis and sorting

  /** `properties.as_object().unwrap()` does not panic where it is reached:
      a definition without `required` has no `properties`, or an object. */
  predicate PropertiesOk(d: Definition)
  {
    "required" !in Keys(d) && Get(d, "properties").Some? ==> Get(d, "properties").value.Object?
  }

  predicate AllPropertiesOk(defs: Definitions)
  {
    forall i :: 0 <= i < |defs| ==> PropertiesOk(defs[i].1)
  }

  /** The property names, in declaration order, as JSON strings. */
  function PropertyNames(props: Entries<Value>): seq<Value>
  {
    seq(|props|, i requires 0 <= i < |props| => String(props[i].0))
  }

  /** A definition without `required` but with `properties` gets the list of
      property names appended as `required`. */
  function WithRequired(d: Definition): Definition
    requires PropertiesOk(d)
  {
    if "required" in Keys(d) then d
    else
      match Get(d, "properties")
      case None => d
      case Some(p) => Insert(d, "required", Array(PropertyNames(p.fields)))
  }

  /** One definition after the loop body: `required` synthesized, keys
      sorted. */
  function Normalized(d: Definition): Definition
    requires PropertiesOk(d)
  {
    SortKeys(WithRequired(d))
  }

  function NormalizeEach(defs: Definitions): Definitions
    requires AllPropertiesOk(defs)
  {
    seq(|defs|, i requires 0 <= i < |defs| => (defs[i].0, Normalized(defs[i].1)))
  }

  /** The table after the loop and `definitions.sort_keys()`. */
  function NormalizedAll(defs: Definitions): Definitions
    requires AllPropertiesOk(defs)
  {
    SortKeys(NormalizeEach(defs))
  }

  method NormalizeDefinitions(defs: Definitions) returns (r: Definitions)
    requires AllPropertiesOk(defs)
    ensures r == NormalizedAll(defs)
  {
    r := defs;
    var i := 0;
    while i < |r|
      invariant i <= |r| == |defs|
      invariant forall k :: 0 <= k < i ==> r[k] == (defs[k].0, Normalized(defs[k].1))
      invariant forall k :: i <= k < |r| ==> r[k] == defs[k]
    {
      var name, d := r[i].0, r[i].1;
      if "required" !in Keys(d) {
        var props := Get(d, "properties");
        if props.Some? {
          d := Insert(d, "required", Array(PropertyNames(props.value.fields)));
        }
      }
      d := SortKeys(d);
      r := r[i := (name, d)];
      i := i + 1;
    }
    assert r == NormalizeEach(defs);
    r := SortKeys(r);
  }

  /** `required` is added exactly when it is missing and `properties` is
      there, holding the property names in declaration order; every other
      field keeps its value and its place. */
  lemma WithRequiredEffect(d: Definition, f: string)
    requires Distinct(d) && PropertiesOk(d)
    ensures Distinct(WithRequired(d))
    ensures var added := "required" !in Keys(d) && Get(d, "properties").Some?;
      (added ==> Keys(WithRequired(d)) == Keys(d) + ["required"]) &&
      (!added ==> WithRequired(d) == d) &&
      Get(WithRequired(d), f) ==
        if f == "required" && added then Some(Array(PropertyNames(Get(d, "properties").value.fields)))
        else Get(d, f)
  {
    match Get(d, "properties")
    case None =>
    case Some(p) =>
      if "required" !in Keys(d) {
        InsertDistinct(d, "required", Array(PropertyNames(p.fields)));
        GetInsert(d, "required", Array(PropertyNames(p.fields)), f);
      }
  }

  /** The synthesized list names every property, in order. */
  lemma PropertyNamesSpec(props: Entries<Value>)
    ensures |PropertyNames(props)| == |props|
    ensures forall i :: 0 <= i < |props| ==> PropertyNames(props)[i] == String(Keys(props)[i])
  {
  }

  /** Running the step again changes nothing: after it a definition either
      has `required` or has no `properties`, and its keys are sorted. */
  lemma NormalizedIdempotent(d: Definition)
    requires Distinct(d) && PropertiesOk(d)
    ensures PropertiesOk(Normalized(d))
    ensures Normalized(Normalized(d)) == Normalized(d)
  {
    var w := WithRequired(d);
    WithRequiredEffect(d, "required");
    WithRequiredEffect(d, "properties");
    SortKeysSpec(w);
    var n := SortKeys(w);
    assert Get(n, "required") == Get(w, "required");
    assert Get(n, "properties") == Get(w, "properties");
    assert "required" in Keys(n) <==> "required" in Keys(w) by {
      assert "required" in Keys(n) <==> Get(n, "required").Some?;
      assert "required" in Keys(w) <==> Get(w, "required").Some?;
    }
    assert "required" !in Keys(n) ==> Get(n, "properties").None?;
    assert WithRequired(n) == n;
    SortKeysSorted(n);
  }

  /** Lookups in the table mapped through `Normalized`. */
  lemma NormalizeEachGet(defs: Definitions, k: string)
    requires AllPropertiesOk(defs)
    ensures Keys(NormalizeEach(defs)) == Keys(defs)
    ensures Get(NormalizeEach(defs), k) == if k in Keys(defs) then Some(Normalized(Get(defs, k).value)) else None
  {
    var m := NormalizeEach(defs);
    assert Keys(m) == Keys(defs);
    if k in Keys(defs) {
      var i := IndexOf(defs, k);
      IndexOfUnique(m, k, i);
    }
  }

  /** After the step the table is in ascending name order, so is every
      definition, and each name holds its normalized definition. */
  lemma NormalizedAllSpec(defs: Definitions, k: string)
    requires DefinitionsWellFormed(defs) && AllPropertiesOk(defs)
    ensures StrictlySorted(NormalizedAll(defs)) && DefinitionsWellFormed(NormalizedAll(defs))
    ensures forall i :: 0 <= i < |NormalizedAll(defs)| ==> StrictlySorted(NormalizedAll(defs)[i].1)
    ensures Get(NormalizedAll(defs), k) == if k in Keys(defs) then Some(Normalized(Get(defs, k).value)) else None
  {
    var m := NormalizeEach(defs);
    NormalizeEachGet(defs, k);
    assert Distinct(m);
    SortKeysSpec(m);
    var r := SortKeys(m);
    forall i | 0 <= i < |r|
      ensures StrictlySorted(r[i].1) && Distinct(r[i].1)
    {
      SortKeysEntry(m, i);
      var j :| 0 <= j < |m| && m[j] == r[i];
      WithRequiredEffect(defs[j].1, "");
      SortKeysSpec(WithRequired(defs[j].1));
    }
  }
}
