/** The edits of the path table: `remove_paths`, `rename_paths`,
    `remove_query_params` and `change_operation_id`. Each takes the table by
    `&mut`; here it takes the table and returns the new one. */
module PathRewrite {
  import opened OrderedMaps
  import opened Json
  import opened Swagger
  import opened Config
  import opened OperationIds

  // ---------------------------------------------------------------------
  // remove_paths

  /** Shift-removes every listed key, in list order. */
  method RemovePaths(paths: Paths, remove: Option<seq<string>>) returns (r: Paths)
    ensures r == Without(paths, Listed(remove))
  {
    var names := match remove case None => [] case Some(ns) => ns;
    r := ShiftRemoveAll(paths, names);
    assert Listed(remove) == Members(names);
  }

  /** After `remove_paths` no listed key is left and every other key keeps
      its value; the remaining entries keep their relative order, since
      `Without` only filters. */
  lemma RemovePathsLookup(paths: Paths, remove: Option<seq<string>>, k: string)
    requires Distinct(paths)
    ensures Distinct(Without(paths, Listed(remove)))
    ensures Get(Without(paths, Listed(remove)), k) == if k in Listed(remove) then None else Get(paths, k)
  {
    WithoutDistinct(paths, Listed(remove));
    GetWithout(paths, Listed(remove), k);
  }

  /** Listing only absent keys, or nothing, leaves the table as it was. */
  lemma RemovePathsAbsent(paths: Paths, remove: Option<seq<string>>)
    requires forall k :: k in Listed(remove) ==> k !in Keys(paths)
    ensures Without(paths, Listed(remove)) == paths
  {
    WithoutAbsent(paths, Listed(remove));
  }

  // ---------------------------------------------------------------------
  // Moving entries under new keys (the second loop of `rename_paths` and of
  // `remove_query_params`)

  /** `if let Some(v) = paths.shift_remove(&from) { paths.insert(to, v); }` */
  function MoveEntry<V>(m: Entries<V>, from: string, to: string): Entries<V>
  {
    match Get(m, from)
    case None => m
    case Some(v) => Insert(Without(m, {from}), to, v)
  }

  /** Every move of a rename plan, in plan order. */
  function ApplyRenames<V>(m: Entries<V>, plan: Entries<string>): Entries<V>
  {
    if plan == [] then m
    else
      var n := |plan| - 1;
      MoveEntry(ApplyRenames(m, plan[..n]), plan[n].0, plan[n].1)
  }

  method MoveEntries(paths: Paths, plan: Entries<string>) returns (r: Paths)
    ensures r == ApplyRenames(paths, plan)
  {
    r := paths;
    var i := 0;
    while i < |plan|
      invariant i <= |plan|
      invariant r == ApplyRenames(paths, plan[..i])
    {
      assert plan[..i + 1][..i] == plan[..i];
      var from, to := plan[i].0, plan[i].1;
      var removed := Get(r, from);
      if removed.Some? {
        r := Insert(Without(r, {from}), to, removed.value);
      }
      i := i + 1;
    }
    assert plan[..i] == plan;
  }

  /** One move: the value leaves its old key and is found under the new one,
      nothing else changes. A new key is appended at the end; an existing
      one is overwritten where it stands. */
  lemma MoveEntryEffect<V>(m: Entries<V>, from: string, to: string, v: V, k: string)
    requires Distinct(m) && Get(m, from) == Some(v)
    ensures Distinct(MoveEntry(m, from, to))
    ensures Get(MoveEntry(m, from, to), k) ==
      if k == to then Some(v) else if k == from then None else Get(m, k)
    ensures to !in Keys(Without(m, {from})) ==> MoveEntry(m, from, to) == Without(m, {from}) + [(to, v)]
    ensures to in Keys(Without(m, {from})) ==> Keys(MoveEntry(m, from, to)) == Keys(Without(m, {from}))
  {
    var w := Without(m, {from});
    WithoutDistinct(m, {from});
    InsertDistinct(w, to, v);
    GetInsert(w, to, v, k);
    GetWithout(m, {from}, k);
  }

  /** A move whose source is absent does nothing. */
  lemma MoveEntryAbsent<V>(m: Entries<V>, from: string, to: string)
    requires from !in Keys(m)
    ensures MoveEntry(m, from, to) == m
  {
  }

  /** Keys a plan reads or writes. */
  function Touched(plan: Entries<string>): set<string>
  {
    (set i | 0 <= i < |plan| :: plan[i].0) + (set i | 0 <= i < |plan| :: plan[i].1)
  }

  /** Overwriting an entry whose key is filtered out does not show. */
  lemma {:induction false} WithoutUpdate<V>(w: Entries<V>, i: nat, e: (string, V), ks: set<string>)
    requires i < |w| && w[i].0 in ks && e.0 in ks
    ensures Without(w[i := e], ks) == Without(w, ks)
  {
    assert w == w[..i] + [w[i]] + w[i + 1..];
    assert w[i := e] == w[..i] + [e] + w[i + 1..];
    WithoutAppend(w[..i] + [w[i]], w[i + 1..], ks);
    WithoutAppend(w[..i] + [e], w[i + 1..], ks);
    WithoutAppend(w[..i], [w[i]], ks);
    WithoutAppend(w[..i], [e], ks);
    assert Without([w[i]], ks) == [] by {
      assert [w[i]][1..] == [];
    }
    assert Without([e], ks) == [] by {
      assert [e][1..] == [];
    }
  }

  /** Inserting under a filtered key does not show. */
  lemma InsertWithout<V>(w: Entries<V>, k: string, v: V, ks: set<string>)
    requires k in ks
    ensures Without(Insert(w, k, v), ks) == Without(w, ks)
  {
    if k in Keys(w) {
      WithoutUpdate(w, IndexOf(w, k), (k, v), ks);
    } else {
      WithoutAppend(w, [(k, v)], ks);
      assert [(k, v)][1..] == [];
    }
  }

  /** Entries whose key a plan neither reads nor writes keep their key, their
      value and their relative order. */
  lemma {:induction false} ApplyRenamesFrame<V>(m: Entries<V>, plan: Entries<string>, ks: set<string>)
    requires Distinct(m)
    requires Touched(plan) <= ks
    ensures Distinct(ApplyRenames(m, plan))
    ensures Without(ApplyRenames(m, plan), ks) == Without(m, ks)
  {
    if plan != [] {
      var n := |plan| - 1;
      assert Touched(plan[..n]) <= Touched(plan) by {
        forall k | k in Touched(plan[..n])
          ensures k in Touched(plan)
        {
          var i :| 0 <= i < n && (plan[..n][i].0 == k || plan[..n][i].1 == k);
          assert plan[i] == plan[..n][i];
        }
      }
      ApplyRenamesFrame(m, plan[..n], ks);
      var p := ApplyRenames(m, plan[..n]);
      var from, to := plan[n].0, plan[n].1;
      assert from in Touched(plan) && to in Touched(plan);
      match Get(p, from)
      case None =>
      case Some(v) =>
        WithoutDistinct(p, {from});
        InsertDistinct(Without(p, {from}), to, v);
        InsertWithout(Without(p, {from}), to, v, ks);
        WithoutWithout(p, {from}, ks);
        assert {from} + ks == ks;
    }
  }

  /** A plan without collisions: sources distinct, targets distinct, no
      target already a key of the table, and no key both a source and a
      target. */
  predicate CollisionFree<V>(m: Entries<V>, plan: Entries<string>)
  {
    Distinct(plan) &&
    (forall i, j :: 0 <= i < j < |plan| ==> plan[i].1 != plan[j].1) &&
    (forall i :: 0 <= i < |plan| ==> plan[i].1 !in Keys(m)) &&
    (forall i, j :: 0 <= i < |plan| && 0 <= j < |plan| ==> plan[i].1 != plan[j].0)
  }

  /** The plan read backwards: new key to old key. */
  function Inverse(plan: Entries<string>): Entries<string>
  {
    seq(|plan|, i requires 0 <= i < |plan| => (plan[i].1, plan[i].0))
  }

  /** Where a plan moves a key (or nothing, for a key it does not move). */
  function MovedTo<V>(m: Entries<V>, plan: Entries<string>, k: string): Option<V>
  {
    match Get(Inverse(plan), k)
    case Some(src) => Get(m, src)
    case None => if k in Keys(plan) then None else Get(m, k)
  }

  lemma InverseSnoc(plan: Entries<string>, k: string)
    requires plan != []
    ensures var n := |plan| - 1;
      Get(Inverse(plan), k) == if k in Keys(Inverse(plan[..n])) then Get(Inverse(plan[..n]), k)
        else if k == plan[n].1 then Some(plan[n].0) else None
  {
    var n := |plan| - 1;
    assert Inverse(plan) == Inverse(plan[..n]) + [(plan[n].1, plan[n].0)];
    assert Keys([(plan[n].1, plan[n].0)]) == [plan[n].1];
    GetAppend(Inverse(plan[..n]), [(plan[n].1, plan[n].0)], k);
  }

  lemma KeysSnoc(plan: Entries<string>, k: string)
    requires plan != []
    ensures k in Keys(plan) <==> k in Keys(plan[..|plan| - 1]) || k == plan[|plan| - 1].0
  {
    var n := |plan| - 1;
    if k in Keys(plan) {
      var i :| 0 <= i < |plan| && Keys(plan)[i] == k;
      if i < n {
        assert Keys(plan[..n])[i] == k;
      }
    }
    if k in Keys(plan[..n]) {
      var i :| 0 <= i < n && Keys(plan[..n])[i] == k;
      assert Keys(plan)[i] == k;
    }
    if k == plan[n].0 {
      assert Keys(plan)[n] == k;
    }
  }

  /** Without collisions every moved value is found under its new key,
      every source is gone, and all other keys are untouched. */
  lemma {:induction false} ApplyCollisionFree<V>(m: Entries<V>, plan: Entries<string>, k: string)
    requires Distinct(m) && CollisionFree(m, plan)
    ensures Distinct(ApplyRenames(m, plan))
    ensures Get(ApplyRenames(m, plan), k) == MovedTo(m, plan, k)
    decreases |plan|
  {
    ApplyRenamesFrame(m, plan, Touched(plan));
    if plan == [] {
    } else {
      var n := |plan| - 1;
      var init := plan[..n];
      assert CollisionFree(m, init);
      var from, to := plan[n].0, plan[n].1;
      var p := ApplyRenames(m, init);
      ApplyCollisionFree(m, init, from);
      ApplyCollisionFree(m, init, to);
      ApplyCollisionFree(m, init, k);
      // `from` is neither an earlier source nor a target
      forall i | 0 <= i < n
        ensures Keys(Inverse(init))[i] != from && Keys(init)[i] != from
      {
        assert init[i] == plan[i];
      }
      // `to` is neither an earlier source nor an earlier target
      forall i | 0 <= i < n
        ensures Keys(Inverse(init))[i] != to && Keys(init)[i] != to
      {
        assert init[i] == plan[i];
      }
      assert Get(Inverse(init), from) == None;
      assert Get(Inverse(init), to) == None;
      assert to !in Keys(init);
      assert Get(p, from) == Get(m, from);
      assert Get(p, to) == None;
      assert from != to;
      InverseSnoc(plan, k);
      KeysSnoc(plan, k);
      match Get(p, from)
      case None =>
        assert Get(ApplyRenames(m, plan), k) == Get(p, k);
      case Some(v) =>
        MoveEntryEffect(p, from, to, v, k);
    }
  }

  // ---------------------------------------------------------------------
  // rename_paths

  /** The regular-expression engine, which is a library: whether a pattern
      compiles, whether it matches a key, and the key with its first match
      replaced by an expanded template. */
  datatype Regex = Regex(
    compiles: string -> bool,
    isMatch: (string, string) -> bool,
    replace: (string, string, string) -> string)

  /** `Regex::new(&search).unwrap()` does not panic for any rule. */
  predicate RulesCompile(rules: seq<(string, string)>, re: Regex)
  {
    forall i :: 0 <= i < |rules| ==> re.compiles(rules[i].0)
  }

  /** The `renamed` map after one rule has scanned the first keys. */
  function PlanRule(plan: Entries<string>, keys: seq<string>, rule: (string, string), re: Regex): Entries<string>
  {
    if keys == [] then plan
    else
      var n := |keys| - 1;
      var p := PlanRule(plan, keys[..n], rule, re);
      if re.isMatch(rule.0, keys[n]) then Insert(p, keys[n], re.replace(rule.0, keys[n], rule.1)) else p
  }

  /** The `renamed` map after the given rules have scanned all the keys. */
  function RenamePlan(keys: seq<string>, rules: seq<(string, string)>, re: Regex): Entries<string>
  {
    if rules == [] then []
    else
      var n := |rules| - 1;
      PlanRule(RenamePlan(keys, rules[..n], re), keys, rules[n], re)
  }

  /** The new name given to `k` by the last rule that matches it. */
  function LastRewrite(rules: seq<(string, string)>, k: string, re: Regex): Option<string>
  {
    if rules == [] then None
    else
      var n := |rules| - 1;
      if re.isMatch(rules[n].0, k) then Some(re.replace(rules[n].0, k, rules[n].1))
      else LastRewrite(rules[..n], k, re)
  }

  method RenamePaths(paths: Paths, rename: Option<seq<(string, string)>>, re: Regex) returns (r: Paths)
    requires rename.Some? ==> RulesCompile(rename.value, re)
    ensures rename.None? ==> r == paths
    ensures rename.Some? ==> r == ApplyRenames(paths, RenamePlan(Keys(paths), rename.value, re))
  {
    r := paths;
    if rename.Some? {
      var rules := rename.value;
      var keys := Keys(paths);
      var renamed: Entries<string> := [];
      var i := 0;
      while i < |rules|
        invariant i <= |rules|
        invariant renamed == RenamePlan(keys, rules[..i], re)
      {
        assert rules[..i + 1][..i] == rules[..i];
        var search, replace := rules[i].0, rules[i].1;
        ghost var before := renamed;
        var j := 0;
        while j < |keys|
          invariant j <= |keys|
          invariant renamed == PlanRule(before, keys[..j], rules[i], re)
        {
          assert keys[..j + 1][..j] == keys[..j];
          if re.isMatch(search, keys[j]) {
            renamed := Insert(renamed, keys[j], re.replace(search, keys[j], replace));
          }
          j := j + 1;
        }
        assert keys[..j] == keys;
        i := i + 1;
      }
      assert rules[..i] == rules;
      r := MoveEntries(r, renamed);
    }
  }

  lemma {:induction false} PlanRuleLookup(plan: Entries<string>, keys: seq<string>, rule: (string, string), re: Regex, k: string)
    requires Distinct(plan)
    ensures Distinct(PlanRule(plan, keys, rule, re))
    ensures Get(PlanRule(plan, keys, rule, re), k) ==
      if k in keys && re.isMatch(rule.0, k) then Some(re.replace(rule.0, k, rule.1)) else Get(plan, k)
  {
    if keys != [] {
      var n := |keys| - 1;
      PlanRuleLookup(plan, keys[..n], rule, re, k);
      var p := PlanRule(plan, keys[..n], rule, re);
      assert k in keys <==> k in keys[..n] || k == keys[n] by {
        assert keys == keys[..n] + [keys[n]];
      }
      if re.isMatch(rule.0, keys[n]) {
        InsertDistinct(p, keys[n], re.replace(rule.0, keys[n], rule.1));
        GetInsert(p, keys[n], re.replace(rule.0, keys[n], rule.1), k);
      }
    }
  }

  /** Which keys are renamed, and to what, is decided on the keys as they
      were before any move: a key is renamed by the last rule that matches
      it, and a key that no rule matches is not in the plan. */
  lemma {:induction false} PlanLookup(keys: seq<string>, rules: seq<(string, string)>, re: Regex, k: string)
    ensures Distinct(RenamePlan(keys, rules, re))
    ensures Get(RenamePlan(keys, rules, re), k) == if k in keys then LastRewrite(rules, k, re) else None
  {
    if rules != [] {
      var n := |rules| - 1;
      PlanLookup(keys, rules[..n], re, k);
      PlanRuleLookup(RenamePlan(keys, rules[..n], re), keys, rules[n], re, k);
    }
  }

  /** Moving one entry of a two-entry table. */
  lemma MovePair<V>(x: (string, V), y: (string, V), to: string)
    requires x.0 != y.0
    ensures MoveEntry([x, y], x.0, to) == if to == y.0 then [(to, x.1)] else [y, (to, x.1)]
    ensures MoveEntry([x, y], y.0, to) == if to == x.0 then [(to, y.1)] else [x, (to, y.1)]
  {
    var m := [x, y];
    assert Keys(m) == [x.0, y.0];
    assert IndexOf(m, x.0) == 0;
    assert IndexOf(m, y.0) == 1;
    assert m[1..] == [y] && [y][1..] == [] && [x][1..] == [];
    assert Without([y], {x.0}) == [y] + Without([], {x.0});
    assert Without(m, {x.0}) == [] + Without([y], {x.0});
    assert Without([y], {y.0}) == [] + Without([], {y.0});
    assert Without(m, {y.0}) == [x] + Without([y], {y.0});
    assert Keys([y]) == [y.0];
    assert Keys([x]) == [x.0];
  }

  /** Moving the only entry of a table. */
  lemma MoveSingle<V>(x: (string, V), to: string)
    ensures MoveEntry([x], x.0, to) == [(to, x.1)]
  {
    assert Keys([x]) == [x.0];
    assert [x][1..] == [];
    assert Without([x], {x.0}) == [];
  }

  /** The rule order decides the outcome when two renames chain: `a -> b`
      then `b -> c` leaves only `c`, holding the value of `a`; the value of
      `b` is lost. */
  lemma RenameChain<V>(a: string, b: string, c: string, va: V, vb: V)
    requires a != b && b != c && a != c
    ensures ApplyRenames([(a, va), (b, vb)], [(a, b), (b, c)]) == [(c, va)]
  {
    var plan := [(a, b), (b, c)];
    assert plan[..1] == [(a, b)] && plan[..1][..0] == [];
    var m := [(a, va), (b, vb)];
    MovePair((a, va), (b, vb), b);
    assert ApplyRenames(m, plan[..1]) == MoveEntry(m, a, b);
    MoveSingle((b, va), c);
  }

  /** In the other order the two renames do not chain: `b` moves to `c`
      first, then `a` to `b`, and both values survive. */
  lemma RenameChainReversed<V>(a: string, b: string, c: string, va: V, vb: V)
    requires a != b && b != c && a != c
    ensures ApplyRenames([(a, va), (b, vb)], [(b, c), (a, b)]) == [(c, vb), (b, va)]
  {
    var plan := [(b, c), (a, b)];
    assert plan[..1] == [(b, c)] && plan[..1][..0] == [];
    var m := [(a, va), (b, vb)];
    MovePair((a, va), (b, vb), c);
    assert ApplyRenames(m, plan[..1]) == MoveEntry(m, b, c);
    MovePair((a, va), (c, vb), b);
  }

  // ---------------------------------------------------------------------
  // remove_query_params: the fixed pattern `\{\?.*\}`

  /** The pattern matches `s[a..b]`: `{?`, then characters other than a
      line break, then `}`. */
  predicate QueryMatch(s: string, a: nat, b: nat)
  {
    a + 3 <= b <= |s| && s[a] == '{' && s[a + 1] == '?' && s[b - 1] == '}' &&
    forall k :: a + 2 <= k < b - 1 ==> s[k] != '\n'
  }

  /** The first line break at or after `from`, or `|s|`. */
  function LineEnd(s: string, from: nat): (e: nat)
    requires from <= |s|
    ensures from <= e <= |s|
    ensures e < |s| ==> s[e] == '\n'
    ensures forall k :: from <= k < e ==> s[k] != '\n'
    decreases |s| - from
  {
    if from == |s| || s[from] == '\n' then from else LineEnd(s, from + 1)
  }

  /** The last `}` in `s[lo..hi]`. */
  function LastBrace(s: string, lo: nat, hi: nat): (p: Option<nat>)
    requires lo <= hi <= |s|
    ensures p.Some? ==> (lo <= p.value < hi && s[p.value] == '}' &&
                         forall k :: p.value < k < hi ==> s[k] != '}')
    ensures p.None? ==> forall k :: lo <= k < hi ==> s[k] != '}'
    decreases hi - lo
  {
    if hi == lo then None
    else if s[hi - 1] == '}' then Some(hi - 1)
    else LastBrace(s, lo, hi - 1)
  }

  /** The leftmost match at or after `from`, with the greedy `.*` running to
      the last `}` before the line ends. */
  function QuerySpanFrom(s: string, from: nat): Option<(nat, nat)>
    decreases |s| - from
  {
    if from + 1 >= |s| then None
    else if s[from] == '{' && s[from + 1] == '?' && LastBrace(s, from + 2, LineEnd(s, from + 2)).Some? then
      Some((from, LastBrace(s, from + 2, LineEnd(s, from + 2)).value + 1))
    else QuerySpanFrom(s, from + 1)
  }

  function QuerySpan(s: string): Option<(nat, nat)>
  {
    QuerySpanFrom(s, 0)
  }

  /** `re.replace(key, "")`: the first match is cut out. */
  function StripQuery(s: string): string
  {
    match QuerySpan(s)
    case None => s
    case Some(span) => if span.0 <= span.1 <= |s| then s[..span.0] + s[span.1..] else s
  }

  /** A match starting at `a` ends at the last `}` of the line. */
  lemma QueryMatchAt(s: string, a: nat)
    requires a + 1 < |s| && s[a] == '{' && s[a + 1] == '?'
    ensures var last := LastBrace(s, a + 2, LineEnd(s, a + 2));
      (last.Some? ==> QueryMatch(s, a, last.value + 1)) &&
      (forall b: nat :: QueryMatch(s, a, b) ==> last.Some? && b <= last.value + 1)
  {
    var e := LineEnd(s, a + 2);
    forall b: nat | QueryMatch(s, a, b)
      ensures LastBrace(s, a + 2, e).Some? && b <= LastBrace(s, a + 2, e).value + 1
    {
      assert b - 1 < e;
    }
  }

  /** `QuerySpanFrom` finds the leftmost match and, at that start, the
      longest one; `None` means there is no match at or after `from`. */
  lemma {:induction false} QuerySpanFromSpec(s: string, from: nat)
    ensures QuerySpanFrom(s, from).None? ==> forall a: nat, b: nat :: from <= a ==> !QueryMatch(s, a, b)
    ensures QuerySpanFrom(s, from).Some? ==>
      var (a, b) := QuerySpanFrom(s, from).value;
      from <= a && QueryMatch(s, a, b) &&
      (forall a': nat, b': nat :: from <= a' < a ==> !QueryMatch(s, a', b')) &&
      (forall b': nat :: QueryMatch(s, a, b') ==> b' <= b)
    decreases |s| - from
  {
    if from + 1 >= |s| {
    } else {
      if s[from] == '{' && s[from + 1] == '?' {
        QueryMatchAt(s, from);
      }
      if !(s[from] == '{' && s[from + 1] == '?' && LastBrace(s, from + 2, LineEnd(s, from + 2)).Some?) {
        QuerySpanFromSpec(s, from + 1);
      }
    }
  }

  /** The pattern matches somewhere in `s`. */
  predicate HasQueryTemplate(s: string)
  {
    QuerySpan(s).Some?
  }

  /** `/items{?filter,sort}` becomes `/items`: a key ending in a query
      template loses it. */
  lemma StripTrailingQuery(base: string, query: string)
    requires '{' !in base && '\n' !in query
    ensures HasQueryTemplate(base + "{?" + query + "}")
    ensures StripQuery(base + "{?" + query + "}") == base
  {
    var s := base + "{?" + query + "}";
    var a, b := |base|, |s|;
    assert QueryMatch(s, a, b) by {
      forall k | a + 2 <= k < b - 1
        ensures s[k] != '\n'
      {
        assert s[k] == query[k - a - 2];
        assert query[k - a - 2] in query;
      }
    }
    forall a': nat, b': nat | a' < a
      ensures !QueryMatch(s, a', b')
    {
      assert s[a'] == base[a'];
      assert base[a'] in base;
    }
    QuerySpanFromSpec(s, 0);
    assert s[..a] == base;
  }

  /** The `renamed` map of `remove_query_params`. */
  function QueryPlan(keys: seq<string>): Entries<string>
  {
    if keys == [] then []
    else
      var n := |keys| - 1;
      var p := QueryPlan(keys[..n]);
      if HasQueryTemplate(keys[n]) then Insert(p, keys[n], StripQuery(keys[n])) else p
  }

  /** Every key with a query template is moved to its stripped form; keys
      without one are not in the plan. */
  lemma {:induction false} QueryPlanLookup(keys: seq<string>, k: string)
    ensures Distinct(QueryPlan(keys))
    ensures Get(QueryPlan(keys), k) == if k in keys && HasQueryTemplate(k) then Some(StripQuery(k)) else None
  {
    if keys != [] {
      var n := |keys| - 1;
      QueryPlanLookup(keys[..n], k);
      assert k in keys <==> k in keys[..n] || k == keys[n] by {
        assert keys == keys[..n] + [keys[n]];
      }
      if HasQueryTemplate(keys[n]) {
        InsertDistinct(QueryPlan(keys[..n]), keys[n], StripQuery(keys[n]));
        GetInsert(QueryPlan(keys[..n]), keys[n], StripQuery(keys[n]), k);
      }
    }
  }

  method RemoveQueryParams(paths: Paths) returns (r: Paths)
    ensures r == ApplyRenames(paths, QueryPlan(Keys(paths)))
  {
    var keys := Keys(paths);
    var renamed: Entries<string> := [];
    var i := 0;
    while i < |keys|
      invariant i <= |keys|
      invariant renamed == QueryPlan(keys[..i])
    {
      assert keys[..i + 1][..i] == keys[..i];
      if HasQueryTemplate(keys[i]) {
        renamed := Insert(renamed, keys[i], StripQuery(keys[i]));
      }
      i := i + 1;
    }
    assert keys[..i] == keys;
    r := MoveEntries(paths, renamed);
  }

  // ---------------------------------------------------------------------
  // change_operation_id

  /** `value.as_object_mut().unwrap()` and `m_object["operationId"]` do not
      panic: the operation is an object that already has the field. */
  predicate HasOperationId(op: Value)
  {
    op.Object? && "operationId" in Keys(op.fields)
  }

  predicate AllOperationIds(paths: Paths)
  {
    forall i, j :: 0 <= i < |paths| && 0 <= j < |paths[i].1| ==> HasOperationId(paths[i].1[j].1)
  }

  /** The operation with its `operationId` set. */
  function Stamp(op: Value, id: string): Value
    requires HasOperationId(op)
  {
    Object(Insert(op.fields, "operationId", String(id)))
  }

  /** Every operation under `url` stamped with the id of its verb. */
  function StampOperations(url: string, ops: Operations, pascal: string -> string): Operations
    requires forall j :: 0 <= j < |ops| ==> HasOperationId(ops[j].1)
  {
    seq(|ops|, j requires 0 <= j < |ops| => (ops[j].0, Stamp(ops[j].1, GenerateOperationId(ops[j].0, url, pascal))))
  }

  function StampPaths(paths: Paths, pascal: string -> string): Paths
    requires AllOperationIds(paths)
  {
    seq(|paths|, i requires 0 <= i < |paths| => (paths[i].0, StampOperations(paths[i].0, paths[i].1, pascal)))
  }

  method ChangeOperationId(paths: Paths, pascal: string -> string) returns (r: Paths)
    requires AllOperationIds(paths)
    ensures r == StampPaths(paths, pascal)
  {
    r := paths;
    var i := 0;
    while i < |r|
      invariant i <= |r| == |paths|
      invariant forall k :: 0 <= k < i ==> r[k] == (paths[k].0, StampOperations(paths[k].0, paths[k].1, pascal))
      invariant forall k :: i <= k < |r| ==> r[k] == paths[k]
    {
      var url, ops := r[i].0, r[i].1;
      var j := 0;
      while j < |ops|
        invariant j <= |ops| == |paths[i].1|
        invariant forall l :: 0 <= l < j ==>
          ops[l] == (paths[i].1[l].0, Stamp(paths[i].1[l].1, GenerateOperationId(paths[i].1[l].0, url, pascal)))
        invariant forall l :: j <= l < |ops| ==> ops[l] == paths[i].1[l]
      {
        var verb, fields := ops[j].0, ops[j].1.fields;
        fields := Insert(fields, "operationId", String(GenerateOperationId(verb, url, pascal)));
        ops := ops[j := (verb, Object(fields))];
        j := j + 1;
      }
      assert ops == StampOperations(paths[i].0, paths[i].1, pascal);
      r := r[i := (url, ops)];
      i := i + 1;
    }
  }

  /** Stamping sets `operationId` and nothing else: the fields keep their
      order and every other field its value. */
  lemma StampEffect(op: Value, id: string, f: string)
    requires HasOperationId(op)
    ensures Stamp(op, id).Object?
    ensures Keys(Stamp(op, id).fields) == Keys(op.fields)
    ensures Get(Stamp(op, id).fields, f) == if f == "operationId" then Some(String(id)) else Get(op.fields, f)
  {
    GetInsert(op.fields, "operationId", String(id), f);
  }

  /** `change_operation_id` keeps the path keys and verb keys and stamps each
      operation with the id generated from its verb and path. */
  lemma ChangeOperationIdEffect(paths: Paths, pascal: string -> string, i: nat, j: nat, f: string)
    requires AllOperationIds(paths)
    requires i < |paths| && j < |paths[i].1|
    ensures Keys(StampPaths(paths, pascal)) == Keys(paths)
    ensures Keys(StampPaths(paths, pascal)[i].1) == Keys(paths[i].1)
    ensures var op := paths[i].1[j].1;
      var stamped := StampPaths(paths, pascal)[i].1[j].1;
      stamped.Object? && Keys(stamped.fields) == Keys(op.fields) &&
      Get(stamped.fields, f) ==
        if f == "operationId" then Some(String(GenerateOperationId(paths[i].1[j].0, paths[i].0, pascal)))
        else Get(op.fields, f)
  {
    StampEffect(paths[i].1[j].1, GenerateOperationId(paths[i].1[j].0, paths[i].0, pascal), f);
  }
}
