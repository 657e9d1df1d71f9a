/** `process_schema`: the path table edits, the definitions edits and the
    tag filtering, on a document already fetched. A panic of the source is
    an outcome here. */
module Pipeline {
  import opened OrderedMaps
  import opened Json
  import opened Swagger
  import opened Config
  import opened MergeMap
  import opened PathRewrite
  import opened DefinitionEdits
  import opened TagFilter

  /** Why `process_schema` panics. */
  datatype Panic =
    | InvalidRenamePattern   // `Regex::new(&search).unwrap()`
    | OperationWithoutId     // `as_object_mut().unwrap()` or `m_object["operationId"]`
    | MergeConflict          // an `unwrap` inside `merge`
    | PropertiesNotObject    // `properties.as_object().unwrap()`
    | OperationWithoutTags   // `m_object["tags"]`, `as_array().unwrap()` or `as_str().unwrap()`

  datatype Outcome = Saved(doc: Document) | Panicked(reason: Panic)

  /** Every rename rule compiles. */
  predicate RulesOk(sp: Option<SchemaPaths>, re: Regex)
  {
    sp.Some? && sp.value.rename.Some? ==> RulesCompile(sp.value.rename.value, re)
  }

  /** The path table after `remove_paths` and `rename_paths`. */
  function RenamedPaths(paths: Paths, sp: Option<SchemaPaths>, re: Regex): Paths
  {
    match sp
    case None => paths
    case Some(p) =>
      var removed := Without(paths, Listed(p.remove));
      match p.rename
      case None => removed
      case Some(rules) => ApplyRenames(removed, RenamePlan(Keys(removed), rules, re))
  }

  /** The path table after `change_operation_id`, `remove_query_params` and
      `sort_keys`. */
  function FinishedPaths(renamed: Paths, pascal: string -> string): Paths
    requires AllOperationIds(renamed)
  {
    var stamped := StampPaths(renamed, pascal);
    SortKeys(ApplyRenames(stamped, QueryPlan(Keys(stamped))))
  }

  /** What `process_schema` hands to `save_yaml`, or why it panics. */
  function Process(doc: Document, schema: Schema, re: Regex, pascal: string -> string): Outcome
  {
    if !RulesOk(schema.paths, re) then Panicked(InvalidRenamePattern)
    else
      var renamed := RenamedPaths(doc.paths, schema.paths, re);
      if !AllOperationIds(renamed) then Panicked(OperationWithoutId)
      else
        var paths := FinishedPaths(renamed, pascal);
        var edited: Option<Definitions> := Edited(doc.definitions, schema.definitions);
        match edited
        case None => Panicked(MergeConflict)
        case Some(defs) =>
          if !AllPropertiesOk(defs) then Panicked(PropertiesNotObject)
          else if !AllTagsOk(paths) then Panicked(OperationWithoutTags)
          else
            Saved(Document(doc.swagger, doc.info, doc.basePath,
              FilterTags(doc.tags, UsedTags(paths)), paths, NormalizedAll(defs)))
  }

  method ProcessSchema(doc: Document, schema: Schema, re: Regex, pascal: string -> string) returns (out: Outcome)
    requires DefinitionsWellFormed(doc.definitions)
    requires schema.definitions.Some? ==> EditsWellFormed(schema.definitions.value)
    ensures out == Process(doc, schema, re, pascal)
  {
    if !RulesOk(schema.paths, re) {
      return Panicked(InvalidRenamePattern);
    }
    var paths := doc.paths;
    if schema.paths.Some? {
      paths := RemovePaths(paths, schema.paths.value.remove);
      paths := RenamePaths(paths, schema.paths.value.rename, re);
    }
    if !AllOperationIds(paths) {
      return Panicked(OperationWithoutId);
    }
    paths := ChangeOperationId(paths, pascal);
    paths := RemoveQueryParams(paths);
    paths := SortKeys(paths);

    if schema.definitions.Some? {
      var e := schema.definitions.value;
      WithoutDistinct(doc.definitions, Listed(e.remove));
      ExtendDistinct(Without(doc.definitions, Listed(e.remove)), Entered(e.add));
      OverriddenSucceedsIff(AfterAdd(doc.definitions, e), Entered(e.overrides));
      if !OverridesMergeable(AfterAdd(doc.definitions, e), Entered(e.overrides)) {
        return Panicked(MergeConflict);
      }
    }
    var definitions := EditDefinitions(doc.definitions, schema.definitions);
    if !AllPropertiesOk(definitions) {
      return Panicked(PropertiesNotObject);
    }
    definitions := NormalizeDefinitions(definitions);

    if !AllTagsOk(paths) {
      return Panicked(OperationWithoutTags);
    }
    var used := CollectTags(paths);
    var tags := FilterTags(doc.tags, used);
    out := Saved(Document(doc.swagger, doc.info, doc.basePath, tags, paths, definitions));
  }

  /** The values of a table after moves are values it held before: renaming
      never invents an operation map. */
  lemma {:induction false} ApplyRenamesValues<V>(m: Entries<V>, plan: Entries<string>, i: nat)
    requires i < |ApplyRenames(m, plan)|
    ensures exists j :: 0 <= j < |m| && m[j].1 == ApplyRenames(m, plan)[i].1
  {
    if plan == [] {
      assert m[i].1 == ApplyRenames(m, plan)[i].1;
    } else {
      var n := |plan| - 1;
      var p := ApplyRenames(m, plan[..n]);
      var from, to := plan[n].0, plan[n].1;
      var r := ApplyRenames(m, plan);
      match Get(p, from)
      case None =>
        assert r == p;
        ApplyRenamesValues(m, plan[..n], i);
        var j :| 0 <= j < |m| && m[j].1 == p[i].1;
        assert m[j].1 == r[i].1;
      case Some(v) =>
        var w := Without(p, {from});
        assert r == Insert(w, to, v);
        if r[i].1 == v {
          var ix := IndexOf(p, from);
          assert p[ix].1 == v;
          ApplyRenamesValues(m, plan[..n], ix);
          var j :| 0 <= j < |m| && m[j].1 == p[ix].1;
          assert m[j].1 == r[i].1;
        } else {
          assert i < |w| && r[i] == w[i];
          assert w[i] in w;
          WithoutMember(p, {from}, w[i]);
          var k :| 0 <= k < |p| && p[k] == w[i];
          ApplyRenamesValues(m, plan[..n], k);
          var j :| 0 <= j < |m| && m[j].1 == p[k].1;
          assert m[j].1 == r[i].1;
        }
    }
  }

  /** A table whose operation maps all come from a well-formed table is
      well formed, given distinct keys. */
  lemma OperationsFrom(a: Paths, b: Paths)
    requires PathsWellFormed(a) && Distinct(b)
    requires forall i :: 0 <= i < |b| ==> exists j :: 0 <= j < |a| && a[j].1 == b[i].1
    ensures PathsWellFormed(b)
  {
  }

  lemma RenamedWellFormed(paths: Paths, sp: Option<SchemaPaths>, re: Regex)
    requires PathsWellFormed(paths)
    ensures PathsWellFormed(RenamedPaths(paths, sp, re))
  {
    match sp
    case None =>
    case Some(p) =>
      var removed := Without(paths, Listed(p.remove));
      WithoutDistinct(paths, Listed(p.remove));
      forall i | 0 <= i < |removed|
        ensures exists j :: 0 <= j < |paths| && paths[j].1 == removed[i].1
      {
        assert removed[i] in removed;
        WithoutMember(paths, Listed(p.remove), removed[i]);
      }
      OperationsFrom(paths, removed);
      match p.rename
      case None =>
      case Some(rules) =>
        var plan := RenamePlan(Keys(removed), rules, re);
        var r := ApplyRenames(removed, plan);
        ApplyRenamesFrame(removed, plan, Touched(plan));
        forall i | 0 <= i < |r|
          ensures exists j :: 0 <= j < |removed| && removed[j].1 == r[i].1
        {
          ApplyRenamesValues(removed, plan, i);
        }
        OperationsFrom(removed, r);
  }

  lemma FinishedWellFormed(renamed: Paths, pascal: string -> string)
    requires PathsWellFormed(renamed) && AllOperationIds(renamed)
    ensures StrictlySorted(FinishedPaths(renamed, pascal)) && PathsWellFormed(FinishedPaths(renamed, pascal))
  {
    var stamped := StampPaths(renamed, pascal);
    assert PathsWellFormed(stamped) by {
      assert Keys(stamped) == Keys(renamed);
      forall i | 0 <= i < |stamped|
        ensures Distinct(stamped[i].1)
      {
        assert Keys(stamped[i].1) == Keys(renamed[i].1);
      }
    }
    var plan := QueryPlan(Keys(stamped));
    var stripped := ApplyRenames(stamped, plan);
    ApplyRenamesFrame(stamped, plan, Touched(plan));
    forall i | 0 <= i < |stripped|
      ensures exists j :: 0 <= j < |stamped| && stamped[j].1 == stripped[i].1
    {
      ApplyRenamesValues(stamped, plan, i);
    }
    OperationsFrom(stamped, stripped);
    SortKeysSpec(stripped);
    var sorted := SortKeys(stripped);
    forall i | 0 <= i < |sorted|
      ensures exists j :: 0 <= j < |stripped| && stripped[j].1 == sorted[i].1
    {
      SortKeysEntry(stripped, i);
    }
    OperationsFrom(stripped, sorted);
  }

  lemma EditedWellFormed(defs: Definitions, e: SchemaDefinitions)
    requires DefinitionsWellFormed(defs) && EditsWellFormed(e)
    requires OverridesMergeable(AfterAdd(defs, e), Entered(e.overrides))
    ensures Edited(defs, Some(e)).Some?
    ensures DefinitionsWellFormed(Edited(defs, Some(e)).value)
  {
    EditedLookup(defs, e, "");
    var r := Edited(defs, Some(e)).value;
    forall i | 0 <= i < |r|
      ensures Distinct(r[i].1)
    {
      var k := r[i].0;
      GetAt(r, i);
      EditedLookup(defs, e, k);
      var add, ov := Entered(e.add), Entered(e.overrides);
      var base := if k in Keys(add) then Get(add, k)
                  else if k in Listed(e.remove) then None else Get(defs, k);
      assert base.Some?;
      if k in Keys(add) {
        GetAt(add, IndexOf(add, k));
      } else {
        GetAt(defs, IndexOf(defs, k));
      }
      assert Distinct(base.value);
      if k in Keys(ov) {
        GetAt(ov, IndexOf(ov, k));
        var patch := Get(ov, k).value;
        if Merged(base.value, patch).Some? {
          MergeSucceedsIff(base.value, patch);
          MergeKeys(base.value, patch);
        }
      }
    }
  }

  /** On success the path table and the definitions table are in ascending
      key order with distinct keys, every definition is too, and the tag
      catalogue holds exactly the tags some operation of the saved paths
      uses, sorted by name. */
  lemma ProcessSaved(doc: Document, schema: Schema, re: Regex, pascal: string -> string, t: Tag)
    requires PathsWellFormed(doc.paths) && DefinitionsWellFormed(doc.definitions)
    requires schema.definitions.Some? ==> EditsWellFormed(schema.definitions.value)
    requires Process(doc, schema, re, pascal).Saved?
    ensures var d := Process(doc, schema, re, pascal).doc;
      StrictlySorted(d.paths) && PathsWellFormed(d.paths) &&
      StrictlySorted(d.definitions) && DefinitionsWellFormed(d.definitions) &&
      (forall i :: 0 <= i < |d.definitions| ==> StrictlySorted(d.definitions[i].1)) &&
      SortedBy(d.tags, TagName) &&
      (t in d.tags <==> t in doc.tags && t.name in UsedTags(d.paths))
  {
    var renamed := RenamedPaths(doc.paths, schema.paths, re);
    assert RulesOk(schema.paths, re) && AllOperationIds(renamed);
    var paths := FinishedPaths(renamed, pascal);
    var edited := Edited(doc.definitions, schema.definitions);
    assert edited.Some?;
    var defs := edited.value;
    var d := Process(doc, schema, re, pascal).doc;
    assert d.paths == paths && d.definitions == NormalizedAll(defs);
    assert d.tags == FilterTags(doc.tags, UsedTags(paths));
    RenamedWellFormed(doc.paths, schema.paths, re);
    FinishedWellFormed(renamed, pascal);
    EditedDefinitionsWellFormed(doc.definitions, schema.definitions);
    assert AllPropertiesOk(defs);
    NormalizedAllSpec(defs, "");
    FilterTagsSpec(doc.tags, UsedTags(paths), t, "");
  }

  /** The definition edits keep every definition's keys distinct whenever
      they succeed. */
  lemma EditedDefinitionsWellFormed(defs: Definitions, edits: Option<SchemaDefinitions>)
    requires DefinitionsWellFormed(defs)
    requires edits.Some? ==> EditsWellFormed(edits.value)
    requires Edited(defs, edits).Some?
    ensures DefinitionsWellFormed(Edited(defs, edits).value)
  {
    if edits.Some? {
      var e := edits.value;
      WithoutDistinct(defs, Listed(e.remove));
      ExtendDistinct(Without(defs, Listed(e.remove)), Entered(e.add));
      OverriddenSucceedsIff(AfterAdd(defs, e), Entered(e.overrides));
      EditedWellFormed(defs, e);
    }
  }
}
