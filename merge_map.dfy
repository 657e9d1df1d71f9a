/** `merge` of a patch map into a target map: absent keys are inserted,
    arrays are appended to, objects lose the fields their patch lists under
    `__remove` and are then extended one level deep, anything else is
    replaced. */
module MergeMap {
  import opened OrderedMaps
  import opened Json

  /** The reserved patch field that lists the fields to delete. */
  const RemoveKey := "__remove"

  /** A patch object's `__remove` is absent, or an array of strings. */
  predicate RemovalListOk(patch: Entries<Value>)
  {
    match Get(patch, RemoveKey)
    case None => true
    case Some(rm) => rm.Array? && forall x :: x in rm.items ==> x.String?
  }

  /** The patch value `v` can meet `existing` without a panic: an array
      only takes an array, an object only takes an object whose `__remove`
      is well formed. */
  predicate FieldMergeable(existing: Option<Value>, v: Value)
  {
    match existing
    case Some(Array(_)) => v.Array?
    case Some(Object(_)) => v.Object? && RemovalListOk(v.fields)
    case _ => true
  }

  /** No entry of `right` meets an incompatible value of `left`. */
  predicate Mergeable(left: Entries<Value>, right: Entries<Value>)
  {
    forall i :: 0 <= i < |right| ==> FieldMergeable(Get(left, right[i].0), right[i].1)
  }

  /** The names a patch object lists under `__remove`. */
  function RemovalNames(patch: Entries<Value>): seq<Value>
  {
    var listed: Option<Value> := Get(patch, RemoveKey);
    match listed
    case Some(Array(rm)) => rm
    case _ => []
  }

  /** `obj.remove(name)` for each listed name, in order. */
  function RemoveNames(o: Entries<Value>, names: seq<Value>): Entries<Value>
    requires forall x :: x in names ==> x.String?
    decreases |names|
  {
    if names == [] then o
    else
      var n := |names| - 1;
      SwapRemove(RemoveNames(o, names[..n]), names[n].s)
  }

  /** The new value of an object field: the listed fields removed, then the
      rest of the patch (without `__remove`) inserted one level deep. */
  function MergeObject(o: Entries<Value>, patch: Entries<Value>): Entries<Value>
    requires RemovalListOk(patch)
  {
    match Get(patch, RemoveKey)
    case None => Extend(o, patch)
    case Some(rm) => Extend(RemoveNames(o, rm.items), SwapRemove(patch, RemoveKey))
  }

  /** The value a key holds after its patch value `v` met `existing`. */
  function MergeValue(existing: Option<Value>, v: Value): Value
    requires FieldMergeable(existing, v)
  {
    match existing
    case None => v
    case Some(Array(a)) => Array(a + v.items)
    case Some(Object(o)) => Object(MergeObject(o, v.fields))
    case Some(_) => v
  }

  /** What `merge` leaves in `left`, entry by entry of `right`; `None` where
      it panics. */
  function Merged(left: Entries<Value>, right: Entries<Value>): Option<Entries<Value>>
    decreases |right|
  {
    if right == [] then Some(left)
    else
      match Merged(left, right[..|right| - 1])
      case None => None
      case Some(r) =>
        var k, v := right[|right| - 1].0, right[|right| - 1].1;
        if FieldMergeable(Get(r, k), v) then Some(Insert(r, k, MergeValue(Get(r, k), v))) else None
  }

  /** The object arm of `merge`: the listed fields are removed one by one,
      then the rest of the patch is inserted. */
  method MergeObjectInto(obj: Entries<Value>, patch: Entries<Value>) returns (o: Entries<Value>)
    requires RemovalListOk(patch)
    ensures o == MergeObject(obj, patch)
  {
    var src := patch;
    o := obj;
    var removal := Get(src, RemoveKey);
    if removal.Some? {
      src := SwapRemove(src, RemoveKey);
      var names := removal.value.items;
      var j := 0;
      while j < |names|
        invariant 0 <= j <= |names|
        invariant o == RemoveNames(obj, names[..j])
      {
        assert names[..j + 1][..j] == names[..j];
        o := SwapRemove(o, names[j].s);
        j := j + 1;
      }
      assert names[..|names|] == names;
    }
    o := Extend(o, src);
  }

  /** One entry of the patch meeting what the target holds under its key. */
  method MergeField(existing: Option<Value>, v: Value) returns (merged: Value)
    requires FieldMergeable(existing, v)
    ensures merged == MergeValue(existing, v)
  {
    match existing {
      case None =>
        merged := v;
      case Some(Array(a)) =>
        merged := Array(a + v.items);
      case Some(Object(obj)) =>
        var o := MergeObjectInto(obj, v.fields);
        merged := Object(o);
      case Some(_) =>
        merged := v;
    }
  }

  /** The loop of `merge`, updating the target through its entries. */
  method Merge(left: Entries<Value>, right: Entries<Value>) returns (r: Entries<Value>)
    requires Distinct(right)
    requires Mergeable(left, right)
    ensures Merged(left, right) == Some(r)
  {
    r := left;
    var i := 0;
    while i < |right|
      invariant 0 <= i <= |right|
      invariant Merged(left, right[..i]) == Some(r)
      invariant forall j :: i <= j < |right| ==> Get(r, right[j].0) == Get(left, right[j].0)
    {
      var k, v := right[i].0, right[i].1;
      assert FieldMergeable(Get(r, k), v);
      var merged := MergeField(Get(r, k), v);
      forall j | i < j < |right|
        ensures Get(Insert(r, k, merged), right[j].0) == Get(left, right[j].0)
      {
        GetInsert(r, k, merged, right[j].0);
      }
      assert right[..i + 1] == right[..i] + [right[i]];
      MergedSnoc(left, right[..i], right[i]);
      r := Insert(r, k, merged);
      i := i + 1;
    }
    assert right[..|right|] == right;
  }

  // ---------------------------------------------------------------- the whole map

  /** One more patch entry. */
  lemma MergedSnoc(left: Entries<Value>, init: Entries<Value>, e: (string, Value))
    ensures Merged(left, init + [e]) ==
      match Merged(left, init)
      case None => None
      case Some(r) =>
        if FieldMergeable(Get(r, e.0), e.1) then Some(Insert(r, e.0, MergeValue(Get(r, e.0), e.1))) else None
  {
    assert (init + [e])[..|init|] == init;
  }

  /** A prefix of a mergeable, key-distinct patch is one too, and its last key
      is new to the prefix. */
  lemma MergePrefix(left: Entries<Value>, right: Entries<Value>)
    requires right != [] && Distinct(right) && Mergeable(left, right)
    ensures var n := |right| - 1;
      Distinct(right[..n]) && Mergeable(left, right[..n]) && right[n].0 !in Keys(right[..n])
      && right == right[..n] + [right[n]]
  {
    var n := |right| - 1;
    var init := right[..n];
    forall i | 0 <= i < n ensures FieldMergeable(Get(left, init[i].0), init[i].1) {
      assert init[i] == right[i];
    }
    forall j | 0 <= j < n ensures Keys(init)[j] != right[n].0 {
      assert right[j].0 != right[n].0;
    }
  }


  /** Every patch key is looked up on the target as it was before the merge,
      and every other key keeps its value. */
  lemma {:induction false} MergeLookup(left: Entries<Value>, right: Entries<Value>, k: string)
    requires Distinct(right) && Mergeable(left, right)
    ensures Merged(left, right).Some?
    ensures k !in Keys(right) ==> Get(Merged(left, right).value, k) == Get(left, k)
    ensures k in Keys(right) ==>
      FieldMergeable(Get(left, k), Get(right, k).value) &&
      Get(Merged(left, right).value, k) == Some(MergeValue(Get(left, k), Get(right, k).value))
    decreases |right|
  {
    if right != [] {
      var n := |right| - 1;
      var init, e := right[..n], right[n];
      MergePrefix(left, right);
      MergeLookup(left, init, e.0);
      MergeLookup(left, init, k);
      var r := Merged(left, init).value;
      assert FieldMergeable(Get(left, right[n].0), right[n].1);
      MergedSnoc(left, init, e);
      GetInsert(r, e.0, MergeValue(Get(r, e.0), e.1), k);
      GetSnoc(init, e, k);
    }
  }

  /** `merge` panics exactly when some patch entry meets an incompatible
      target value. */
  lemma {:induction false} MergeSucceedsIff(left: Entries<Value>, right: Entries<Value>)
    requires Distinct(right)
    ensures Merged(left, right).Some? <==> Mergeable(left, right)
    decreases |right|
  {
    if Mergeable(left, right) {
      MergeLookup(left, right, "");
    } else {
      var n := |right| - 1;
      var init, e := right[..n], right[n];
      assert right == init + [e];
      assert Distinct(init);
      MergeSucceedsIff(left, init);
      MergedSnoc(left, init, e);
      if Mergeable(left, init) {
        forall j | 0 <= j < n ensures Keys(init)[j] != e.0 {
          assert right[j].0 != right[n].0;
        }
        MergeLookup(left, init, e.0);
        assert forall i :: 0 <= i < n ==> right[i] == init[i];
        assert !FieldMergeable(Get(left, e.0), e.1);
      }
    }
  }

  /** Nothing is removed at the top level: the target's keys keep their
      order and come first, and the key set is the union of both. */
  lemma {:induction false} MergeKeys(left: Entries<Value>, right: Entries<Value>)
    requires Distinct(right) && Mergeable(left, right)
    ensures Merged(left, right).Some?
    ensures |Merged(left, right).value| >= |left|
    ensures Keys(Merged(left, right).value)[..|left|] == Keys(left)
    ensures forall k :: k in Keys(Merged(left, right).value) <==> k in Keys(left) || k in Keys(right)
    ensures Distinct(left) ==> Distinct(Merged(left, right).value)
    decreases |right|
  {
    MergeLookup(left, right, "");
    var r := Merged(left, right).value;
    forall k ensures k in Keys(r) <==> k in Keys(left) || k in Keys(right) {
      MergeLookup(left, right, k);
    }
    if right != [] {
      var n := |right| - 1;
      var init := right[..n];
      MergePrefix(left, right);
      MergeKeys(left, init);
      var r0 := Merged(left, init).value;
      var k := right[n].0;
      var v := MergeValue(Get(r0, k), right[n].1);
      assert r == Insert(r0, k, v);
      if k !in Keys(r0) {
        PrefixSnoc(Keys(r0), k, |left|);
      }
      if Distinct(left) {
        InsertDistinct(r0, k, v);
      }
    }
  }

  // ---------------------------------------------------------------- one key

  /** A key the target lacks takes the patch value verbatim, nested
      `__remove` included, after all the target's entries. */
  lemma MergeInsertsAbsent(left: Entries<Value>, right: Entries<Value>, k: string)
    requires Distinct(right) && Mergeable(left, right)
    requires k !in Keys(left) && k in Keys(right)
    ensures Merged(left, right).Some?
    ensures Get(Merged(left, right).value, k) == Get(right, k)
    ensures IndexOf(Merged(left, right).value, k) >= |left|
  {
    MergeLookup(left, right, k);
    MergeKeys(left, right);
    var r := Merged(left, right).value;
    forall j | 0 <= j < |left| ensures r[j].0 != k {
      assert Keys(r)[..|left|][j] == Keys(left)[j];
    }
  }

  /** An array meets an array: the old elements, then the patch's, with no
      de-duplication. */
  lemma MergeAppendsArrays(left: Entries<Value>, right: Entries<Value>, k: string, a: seq<Value>, b: seq<Value>)
    requires Distinct(right) && Mergeable(left, right)
    requires Get(left, k) == Some(Array(a)) && Get(right, k) == Some(Array(b))
    ensures Merged(left, right).Some?
    ensures Get(Merged(left, right).value, k) == Some(Array(a + b))
  {
    MergeLookup(left, right, k);
  }

  /** A scalar or null meets anything: the patch value replaces it. */
  lemma MergeReplacesScalars(left: Entries<Value>, right: Entries<Value>, k: string, x: Value)
    requires Distinct(right) && Mergeable(left, right)
    requires Get(left, k) == Some(x) && !x.Array? && !x.Object?
    requires k in Keys(right)
    ensures Merged(left, right).Some?
    ensures Get(Merged(left, right).value, k) == Get(right, k)
  {
    MergeLookup(left, right, k);
  }

  /** An object meets an object: the result is the one-level object merge. */
  lemma MergeMergesObjects(left: Entries<Value>, right: Entries<Value>, k: string, o: Entries<Value>, p: Entries<Value>)
    requires Distinct(right) && Mergeable(left, right)
    requires Get(left, k) == Some(Object(o)) && Get(right, k) == Some(Object(p))
    ensures RemovalListOk(p)
    ensures Merged(left, right).Some?
    ensures Get(Merged(left, right).value, k) == Some(Object(MergeObject(o, p)))
  {
    MergeLookup(left, right, k);
  }

  // ---------------------------------------------------------------- one object

  lemma {:induction false} RemoveNamesLookup(o: Entries<Value>, names: seq<Value>, f: string)
    requires Distinct(o)
    requires forall x :: x in names ==> x.String?
    ensures Distinct(RemoveNames(o, names))
    ensures Get(RemoveNames(o, names), f) == if String(f) in names then None else Get(o, f)
    decreases |names|
  {
    if names != [] {
      var n := |names| - 1;
      var init := names[..n];
      assert names == init + [names[n]];
      RemoveNamesLookup(o, init, f);
      SwapRemoveEntries(RemoveNames(o, init), names[n].s);
      GetSwapRemove(RemoveNames(o, init), names[n].s, f);
      assert String(f) in names <==> String(f) in init || names[n] == String(f);
    }
  }

  /** The fields of a merged object: a patch field other than `__remove`
      replaces or extends (its value taken whole, not merged further), a
      listed name is gone, every other field of the target stays. */
  lemma MergeObjectLookup(o: Entries<Value>, p: Entries<Value>, f: string)
    requires Distinct(o) && Distinct(p) && RemovalListOk(p)
    ensures Distinct(MergeObject(o, p))
    ensures Get(MergeObject(o, p), f) ==
      if f in Keys(p) && f != RemoveKey then Get(p, f)
      else if String(f) in RemovalNames(p) then None
      else Get(o, f)
  {
    match Get(p, RemoveKey)
    case None =>
      ExtendDistinct(o, p);
      GetExtend(o, p, f);
    case Some(rm) =>
      var src := SwapRemove(p, RemoveKey);
      SwapRemoveEntries(p, RemoveKey);
      RemoveNamesLookup(o, rm.items, f);
      ExtendDistinct(RemoveNames(o, rm.items), src);
      GetExtend(RemoveNames(o, rm.items), src, f);
      GetSwapRemove(p, RemoveKey, f);
      assert f in Keys(src) <==> f in Keys(p) && f != RemoveKey by {
        KeysIn(src, f);
        KeysIn(p, f);
        if f in Keys(src) {
          GetIff(src, f, Get(src, f).value);
          GetIff(p, f, Get(src, f).value);
        }
      }
  }

  /** The patch's own `__remove` is never copied into the merged object. */
  lemma MergeObjectDropsRemoval(o: Entries<Value>, p: Entries<Value>)
    requires Distinct(o) && Distinct(p) && RemovalListOk(p)
    requires RemoveKey !in Keys(o)
    ensures RemoveKey !in Keys(MergeObject(o, p))
  {
    MergeObjectLookup(o, p, RemoveKey);
  }
}
