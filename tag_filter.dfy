/** `collect_tags` and the filtering of the tag catalogue at the end of
    `process_schema`: only tags some operation uses are kept, sorted by
    name. */
module TagFilter {
  import opened OrderedMaps
  import opened Json
  import opened Swagger

  /** `m_object["tags"].as_array().unwrap()` and `tag.as_str().unwrap()` do
      not panic: the operation is an object with a `tags` array of strings. */
  predicate TagsOk(op: Value)
  {
    op.Object? && Get(op.fields, "tags").Some? && Get(op.fields, "tags").value.Array? &&
    forall t :: t in Get(op.fields, "tags").value.items ==> t.String?
  }

  predicate AllTagsOk(paths: Paths)
  {
    forall i, j :: 0 <= i < |paths| && 0 <= j < |paths[i].1| ==> TagsOk(paths[i].1[j].1)
  }

  /** The `tags` array of an operation, where there is one. */
  function TagList(op: Value): seq<Value>
  {
    if op.Object? && Get(op.fields, "tags").Some? && Get(op.fields, "tags").value.Array? then
      Get(op.fields, "tags").value.items
    else []
  }

  /** The string elements of a tags array. */
  function NamesIn(items: seq<Value>): set<string>
  {
    set t | t in items && t.String? :: t.s
  }

  /** The tag names used by the operations of one path. */
  function OpsTags(ops: Operations): set<string>
  {
    if ops == [] then {} else OpsTags(ops[..|ops| - 1]) + NamesIn(TagList(ops[|ops| - 1].1))
  }

  /** The tag names used by the operations of all paths. */
  function UsedTags(paths: Paths): set<string>
  {
    if paths == [] then {} else UsedTags(paths[..|paths| - 1]) + OpsTags(paths[|paths| - 1].1)
  }

  lemma NamesInSnoc(items: seq<Value>, l: nat)
    requires l < |items| && items[l].String?
    ensures NamesIn(items[..l + 1]) == NamesIn(items[..l]) + {items[l].s}
  {
    assert items[..l + 1] == items[..l] + [items[l]];
    forall x | x in NamesIn(items[..l + 1])
      ensures x in NamesIn(items[..l]) + {items[l].s}
    {
      var t :| t in items[..l + 1] && t.String? && t.s == x;
      if t != items[l] {
        assert t in items[..l];
      }
    }
  }

  method CollectTags(paths: Paths) returns (tags: set<string>)
    requires AllTagsOk(paths)
    ensures tags == UsedTags(paths)
  {
    tags := {};
    var i := 0;
    while i < |paths|
      invariant i <= |paths|
      invariant tags == UsedTags(paths[..i])
    {
      assert paths[..i + 1][..i] == paths[..i];
      tags := CollectPathTags(paths[i].1, tags);
      i := i + 1;
    }
    assert paths[..i] == paths;
  }

  /** The middle loop of `collect_tags`: the operations of one path. */
  method CollectPathTags(ops: Operations, tags0: set<string>) returns (tags: set<string>)
    requires forall j :: 0 <= j < |ops| ==> TagsOk(ops[j].1)
    ensures tags == tags0 + OpsTags(ops)
  {
    tags := tags0;
    var j := 0;
    while j < |ops|
      invariant j <= |ops|
      invariant tags == tags0 + OpsTags(ops[..j])
    {
      assert ops[..j + 1][..j] == ops[..j];
      tags := CollectOperationTags(ops[j].1, tags);
      j := j + 1;
    }
    assert ops[..j] == ops;
  }

  /** The inner loop of `collect_tags`: the `tags` array of one operation. */
  method CollectOperationTags(op: Value, tags0: set<string>) returns (tags: set<string>)
    requires TagsOk(op)
    ensures tags == tags0 + NamesIn(TagList(op))
  {
    var items := Get(op.fields, "tags").value.items;
    tags := tags0;
    var l := 0;
    assert items[..0] == [];
    while l < |items|
      invariant l <= |items|
      invariant tags == tags0 + NamesIn(items[..l])
    {
      assert items[l] in items;
      NamesInSnoc(items, l);
      tags := tags + {items[l].s};
      l := l + 1;
    }
    assert items[..l] == items;
  }


  lemma {:induction false} OpsTagsHas(ops: Operations, j: nat)
    requires j < |ops|
    ensures NamesIn(TagList(ops[j].1)) <= OpsTags(ops)
  {
    var n := |ops| - 1;
    if j < n {
      assert ops[..n][j] == ops[j];
      OpsTagsHas(ops[..n], j);
    }
  }

  lemma {:induction false} UsedTagsHas(paths: Paths, i: nat)
    requires i < |paths|
    ensures OpsTags(paths[i].1) <= UsedTags(paths)
  {
    var n := |paths| - 1;
    if i < n {
      assert paths[..n][i] == paths[i];
      UsedTagsHas(paths[..n], i);
    }
  }

  /** Every string in the `tags` array of some operation is collected. */
  lemma UsedTagsComplete(paths: Paths, i: nat, j: nat, t: nat)
    requires i < |paths| && j < |paths[i].1|
    requires t < |TagList(paths[i].1[j].1)| && TagList(paths[i].1[j].1)[t].String?
    ensures TagList(paths[i].1[j].1)[t].s in UsedTags(paths)
  {
    var items := TagList(paths[i].1[j].1);
    assert items[t] in items;
    OpsTagsHas(paths[i].1, j);
    UsedTagsHas(paths, i);
  }

  lemma {:induction false} OpsTagsSound(ops: Operations, name: string)
    requires name in OpsTags(ops)
    ensures exists j, t :: 0 <= j < |ops| && 0 <= t < |TagList(ops[j].1)| && TagList(ops[j].1)[t] == String(name)
  {
    var n := |ops| - 1;
    if name in OpsTags(ops[..n]) {
      OpsTagsSound(ops[..n], name);
      var j, t :| 0 <= j < n && 0 <= t < |TagList(ops[..n][j].1)| && TagList(ops[..n][j].1)[t] == String(name);
      assert ops[..n][j] == ops[j];
    } else {
      var x :| x in TagList(ops[n].1) && x.String? && x.s == name;
      var t :| 0 <= t < |TagList(ops[n].1)| && TagList(ops[n].1)[t] == x;
    }
  }

  /** Every collected name comes from the `tags` array of some operation. */
  lemma {:induction false} UsedTagsSound(paths: Paths, name: string)
    requires name in UsedTags(paths)
    ensures exists i, j, t ::
              0 <= i < |paths| && 0 <= j < |paths[i].1| &&
              0 <= t < |TagList(paths[i].1[j].1)| && TagList(paths[i].1[j].1)[t] == String(name)
  {
    var n := |paths| - 1;
    if name in UsedTags(paths[..n]) {
      UsedTagsSound(paths[..n], name);
      var i, j, t :| 0 <= i < n && 0 <= j < |paths[..n][i].1| &&
        0 <= t < |TagList(paths[..n][i].1[j].1)| && TagList(paths[..n][i].1[j].1)[t] == String(name);
      assert paths[..n][i] == paths[i];
    } else {
      OpsTagsSound(paths[n].1, name);
    }
  }

  // ---------------------------------------------------------------------
  // tags.retain(...) and tags.sort_by_key(...)

  /** `retain`: the tags whose name is used, in catalogue order. */
  function Retain(tags: seq<Tag>, used: set<string>): seq<Tag>
  {
    if tags == [] then []
    else (if tags[0].name in used then [tags[0]] else []) + Retain(tags[1..], used)
  }

  /** The catalogue after `retain` and the stable `sort_by_key` on names. */
  function FilterTags(tags: seq<Tag>, used: set<string>): seq<Tag>
  {
    SortBy(Retain(tags, used), TagName)
  }

  lemma {:induction false} RetainMember(tags: seq<Tag>, used: set<string>, t: Tag)
    ensures t in Retain(tags, used) <==> t in tags && t.name in used
  {
    if tags != [] {
      RetainMember(tags[1..], used, t);
      assert t in tags <==> t == tags[0] || t in tags[1..] by {
        assert tags == [tags[0]] + tags[1..];
      }
    }
  }

  lemma {:induction false} RetainWithKey(tags: seq<Tag>, used: set<string>, n: string)
    ensures WithKey(Retain(tags, used), TagName, n) == if n in used then WithKey(tags, TagName, n) else []
  {
    if tags != [] {
      RetainWithKey(tags[1..], used, n);
      var head := if tags[0].name in used then [tags[0]] else [];
      WithKeyAppend(head, Retain(tags[1..], used), TagName, n);
      if tags[0].name in used {
        WithKeyCons(tags[0], [], TagName, n);
        assert [tags[0]] + [] == [tags[0]];
        assert WithKey([], TagName, n) == [];
      }
      assert tags == [tags[0]] + tags[1..];
      WithKeyCons(tags[0], tags[1..], TagName, n);
    }
  }

  /** The filtered catalogue holds exactly the used tags, sorted by name,
      as a permutation of the retained ones; tags of equal name keep their
      catalogue order. */
  lemma FilterTagsSpec(tags: seq<Tag>, used: set<string>, t: Tag, n: string)
    ensures SortedBy(FilterTags(tags, used), TagName)
    ensures multiset(FilterTags(tags, used)) == multiset(Retain(tags, used))
    ensures t in FilterTags(tags, used) <==> t in tags && t.name in used
    ensures WithKey(FilterTags(tags, used), TagName, n) == if n in used then WithKey(tags, TagName, n) else []
  {
    var kept := Retain(tags, used);
    SortBySorted(kept, TagName);
    SortByPermutes(kept, TagName);
    RetainMember(tags, used, t);
    assert t in FilterTags(tags, used) <==> t in multiset(FilterTags(tags, used));
    SortByStable(kept, TagName, n);
    RetainWithKey(tags, used, n);
  }
}
