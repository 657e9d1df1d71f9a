/** The `IndexMap<String, V>` operations the rewriter uses: an ordered
    association list whose keys are distinct. */
module OrderedMaps {
  import opened Text

  datatype Option<+T> = None | Some(value: T)

  /** Entries in iteration order. */
  type Entries<V> = seq<(string, V)>

  function Keys<V>(m: Entries<V>): (ks: seq<string>)
    ensures |ks| == |m|
    ensures forall i :: 0 <= i < |m| ==> ks[i] == m[i].0
  {
    seq(|m|, i requires 0 <= i < |m| => m[i].0)
  }

  /** The invariant of an `IndexMap`: no key occurs twice. */
  predicate Distinct<V>(m: Entries<V>)
  {
    forall i, j :: 0 <= i < j < |m| ==> m[i].0 != m[j].0
  }

  /** The slot that holds `k`. */
  function IndexOf<V>(m: Entries<V>, k: string): (i: nat)
    requires k in Keys(m)
    ensures i < |m| && m[i].0 == k
    ensures forall j :: 0 <= j < i ==> m[j].0 != k
  {
    if m[0].0 == k then 0
    else
      assert k in Keys(m[1..]) by {
        var j :| 0 <= j < |m| && Keys(m)[j] == k;
        assert Keys(m[1..])[j - 1] == k;
      }
      1 + IndexOf(m[1..], k)
  }

  /** `get`. */
  function Get<V>(m: Entries<V>, k: string): Option<V>
  {
    if k in Keys(m) then Some(m[IndexOf(m, k)].1) else None
  }

  /** `insert`: an existing key keeps its slot and takes the new value, a new
      key is appended. */
  function Insert<V>(m: Entries<V>, k: string, v: V): (r: Entries<V>)
    ensures k in Keys(m) ==> Keys(r) == Keys(m)
    ensures k !in Keys(m) ==> Keys(r) == Keys(m) + [k]
  {
    if k in Keys(m) then m[IndexOf(m, k) := (k, v)] else m + [(k, v)]
  }

  /** The entries whose key is not in `ks`, in their order. `shift_remove` of
      a key `k` is `Without(m, {k})`. */
  function Without<V>(m: Entries<V>, ks: set<string>): Entries<V>
  {
    if m == [] then []
    else (if m[0].0 in ks then [] else [m[0]]) + Without(m[1..], ks)
  }

  /** serde_json's `Map::remove` with `preserve_order`, that is
      `swap_remove`: the last entry moves into the vacated slot. */
  function SwapRemove<V>(m: Entries<V>, k: string): Entries<V>
  {
    if k !in Keys(m) then m
    else
      var i := IndexOf(m, k);
      seq(|m| - 1, p requires 0 <= p < |m| - 1 => if p == i then m[|m| - 1] else m[p])
  }

  /** `extend`: `Insert` of every entry of `src`, in order. */
  function Extend<V>(m: Entries<V>, src: Entries<V>): Entries<V>
    decreases |src|
  {
    if src == [] then m
    else
      var n := |src| - 1;
      Insert(Extend(m, src[..n]), src[n].0, src[n].1)
  }

  // ---------------------------------------------------------------- lookups

  lemma KeysIn<V>(m: Entries<V>, k: string)
    ensures k in Keys(m) <==> exists v :: (k, v) in m
  {
    if k in Keys(m) {
      var i :| 0 <= i < |m| && Keys(m)[i] == k;
      assert (k, m[i].1) in m;
    }
    if exists v :: (k, v) in m {
      var v :| (k, v) in m;
      var i :| 0 <= i < |m| && m[i] == (k, v);
      assert Keys(m)[i] == k;
    }
  }

  lemma IndexOfUnique<V>(m: Entries<V>, k: string, j: nat)
    requires j < |m| && m[j].0 == k
    requires forall l :: 0 <= l < j ==> m[l].0 != k
    ensures k in Keys(m) && IndexOf(m, k) == j
  {
    assert Keys(m)[j] == k;
  }

  lemma GetAt<V>(m: Entries<V>, i: nat)
    requires Distinct(m) && i < |m|
    ensures Get(m, m[i].0) == Some(m[i].1)
  {
    assert Keys(m)[i] == m[i].0;
  }

  /** In a map with distinct keys a lookup finds exactly the entries. */
  lemma GetIff<V>(m: Entries<V>, k: string, v: V)
    requires Distinct(m)
    ensures Get(m, k) == Some(v) <==> (k, v) in m
  {
    if (k, v) in m {
      var i :| 0 <= i < |m| && m[i] == (k, v);
      GetAt(m, i);
    }
  }

  /** Two maps with distinct keys and the same entries agree on every lookup. */
  lemma GetSameEntries<V>(a: Entries<V>, b: Entries<V>, k: string)
    requires Distinct(a) && Distinct(b)
    requires forall e :: e in a <==> e in b
    ensures Get(a, k) == Get(b, k)
  {
    KeysIn(a, k);
    KeysIn(b, k);
    if Get(a, k).Some? {
      GetIff(a, k, Get(a, k).value);
      GetIff(b, k, Get(a, k).value);
    }
  }

  lemma GetAppend<V>(a: Entries<V>, b: Entries<V>, k: string)
    ensures Get(a + b, k) == if k in Keys(a) then Get(a, k) else Get(b, k)
  {
    var ab := a + b;
    if k in Keys(a) {
      var i := IndexOf(a, k);
      IndexOfUnique(ab, k, i);
    } else if k in Keys(b) {
      var i := IndexOf(b, k);
      forall l | 0 <= l < |a| ensures ab[l].0 != k {
        assert Keys(a)[l] == a[l].0;
      }
      IndexOfUnique(ab, k, |a| + i);
    } else {
      forall i | 0 <= i < |ab| ensures Keys(ab)[i] != k {
        if i < |a| { assert Keys(a)[i] == ab[i].0; } else { assert Keys(b)[i - |a|] == ab[i].0; }
      }
    }
  }

  // ---------------------------------------------------------------- insert

  lemma GetInsert<V>(m: Entries<V>, k: string, v: V, k2: string)
    ensures Get(Insert(m, k, v), k2) == if k2 == k then Some(v) else Get(m, k2)
  {
    var r := Insert(m, k, v);
    if k in Keys(m) {
      var i := IndexOf(m, k);
      if k2 == k {
        IndexOfUnique(r, k, i);
      } else if k2 in Keys(m) {
        IndexOfUnique(r, k2, IndexOf(m, k2));
      }
    } else {
      GetAppend(m, [(k, v)], k2);
      assert Keys([(k, v)]) == [k];
      if k2 == k {
        IndexOfUnique([(k, v)], k, 0);
      }
    }
  }

  lemma InsertDistinct<V>(m: Entries<V>, k: string, v: V)
    requires Distinct(m)
    ensures Distinct(Insert(m, k, v))
  {
    var r := Insert(m, k, v);
    forall i, j | 0 <= i < j < |r| ensures r[i].0 != r[j].0 {
      assert Keys(r)[i] == r[i].0 && Keys(r)[j] == r[j].0;
      if k !in Keys(m) && j == |m| {
        assert Keys(m)[i] == m[i].0;
      }
    }
  }

  // ---------------------------------------------------------------- removal

  lemma {:induction false} WithoutMember<V>(m: Entries<V>, ks: set<string>, e: (string, V))
    ensures e in Without(m, ks) <==> e in m && e.0 !in ks
  {
    if m != [] {
      WithoutMember(m[1..], ks, e);
      assert m == [m[0]] + m[1..];
    }
  }

  lemma {:induction false} WithoutAppend<V>(a: Entries<V>, b: Entries<V>, ks: set<string>)
    ensures Without(a + b, ks) == Without(a, ks) + Without(b, ks)
  {
    if a == [] {
      assert a + b == b;
    } else {
      assert (a + b)[0] == a[0] && (a + b)[1..] == a[1..] + b;
      WithoutAppend(a[1..], b, ks);
    }
  }

  lemma {:induction false} WithoutWithout<V>(m: Entries<V>, a: set<string>, b: set<string>)
    ensures Without(Without(m, a), b) == Without(m, a + b)
  {
    if m != [] {
      WithoutWithout(m[1..], a, b);
      WithoutAppend(if m[0].0 in a then [] else [m[0]], Without(m[1..], a), b);
    }
  }

  /** Removing keys that are not there changes nothing. */
  lemma {:induction false} WithoutAbsent<V>(m: Entries<V>, ks: set<string>)
    requires forall k :: k in ks ==> k !in Keys(m)
    ensures Without(m, ks) == m
  {
    if m != [] {
      assert Keys(m)[0] == m[0].0;
      forall k, i | k in ks && 0 <= i < |m| - 1 ensures Keys(m[1..])[i] != k {
        assert Keys(m)[i + 1] == m[i + 1].0;
      }
      WithoutAbsent(m[1..], ks);
    }
  }

  /** The keys a list names. */
  function Members(names: seq<string>): set<string>
  {
    set n | n in names
  }

  /** `shift_remove` of every listed key, one at a time in list order. */
  method ShiftRemoveAll<V>(m: Entries<V>, names: seq<string>) returns (r: Entries<V>)
    ensures r == Without(m, Members(names))
  {
    r := m;
    WithoutAbsent(m, {});
    assert Members(names[..0]) == {};
    var i := 0;
    while i < |names|
      invariant i <= |names|
      invariant r == Without(m, Members(names[..i]))
    {
      WithoutWithout(m, Members(names[..i]), {names[i]});
      assert Members(names[..i + 1]) == Members(names[..i]) + {names[i]} by {
        assert names[..i + 1] == names[..i] + [names[i]];
      }
      r := Without(r, {names[i]});
      i := i + 1;
    }
    assert names[..i] == names;
  }

  lemma {:induction false} WithoutDistinct<V>(m: Entries<V>, ks: set<string>)
    requires Distinct(m)
    ensures Distinct(Without(m, ks))
  {
    if m != [] {
      WithoutDistinct(m[1..], ks);
      var r := Without(m, ks);
      var rest := Without(m[1..], ks);
      forall e | e in rest ensures e.0 != m[0].0 {
        WithoutMember(m[1..], ks, e);
        assert e in m[1..];
        var j :| 0 <= j < |m| - 1 && m[1..][j] == e;
        assert m[j + 1] == e;
      }
      forall i, j | 0 <= i < j < |r| ensures r[i].0 != r[j].0 {
        if m[0].0 !in ks && i == 0 {
          assert r[j] == rest[j - 1];
          assert r[j] in rest;
        }
      }
    }
  }

  lemma GetWithout<V>(m: Entries<V>, ks: set<string>, k: string)
    requires Distinct(m)
    ensures Get(Without(m, ks), k) == if k in ks then None else Get(m, k)
  {
    var r := Without(m, ks);
    WithoutDistinct(m, ks);
    KeysIn(r, k);
    KeysIn(m, k);
    if Get(r, k).Some? {
      GetIff(r, k, Get(r, k).value);
      GetIff(m, k, Get(r, k).value);
      WithoutMember(m, ks, (k, Get(r, k).value));
    } else if k !in ks && Get(m, k).Some? {
      GetIff(m, k, Get(m, k).value);
      GetIff(r, k, Get(m, k).value);
      WithoutMember(m, ks, (k, Get(m, k).value));
    }
  }

  lemma SwapRemoveEntries<V>(m: Entries<V>, k: string)
    requires Distinct(m)
    ensures Distinct(SwapRemove(m, k))
    ensures forall e :: e in SwapRemove(m, k) <==> e in m && e.0 != k
  {
    var r := SwapRemove(m, k);
    if k in Keys(m) {
      var i := IndexOf(m, k);
      var n := |m|;
      assert |r| == n - 1;
      assert forall p :: 0 <= p < n - 1 ==> r[p] == (if p == i then m[n - 1] else m[p]);
      forall e | e in r ensures e in m && e.0 != k {
        var p :| 0 <= p < n - 1 && r[p] == e;
        if p == i {
          assert e == m[n - 1];
        } else {
          assert e == m[p];
        }
      }
      forall e | e in m && e.0 != k ensures e in r {
        var q :| 0 <= q < n && m[q] == e;
        if q == n - 1 {
          assert r[i] == e;
        } else {
          assert r[q] == e;
        }
      }
      forall p, q | 0 <= p < q < n - 1 ensures r[p].0 != r[q].0 {
        if p == i {
          assert r[p] == m[n - 1] && r[q] == m[q];
        } else if q == i {
          assert r[p] == m[p] && r[q] == m[n - 1];
        } else {
          assert r[p] == m[p] && r[q] == m[q];
        }
      }
    } else {
      forall e | e in m ensures e.0 != k {
        KeysIn(m, e.0);
      }
    }
  }

  lemma GetSwapRemove<V>(m: Entries<V>, k: string, k2: string)
    requires Distinct(m)
    ensures Get(SwapRemove(m, k), k2) == if k2 == k then None else Get(m, k2)
  {
    var r := SwapRemove(m, k);
    SwapRemoveEntries(m, k);
    KeysIn(r, k2);
    if Get(r, k2).Some? {
      GetIff(r, k2, Get(r, k2).value);
      GetIff(m, k2, Get(r, k2).value);
    } else if k2 != k && Get(m, k2).Some? {
      GetIff(m, k2, Get(m, k2).value);
      GetIff(r, k2, Get(m, k2).value);
    }
  }

  // ---------------------------------------------------------------- extend

  lemma {:induction false} ExtendDistinct<V>(m: Entries<V>, src: Entries<V>)
    requires Distinct(m)
    ensures Distinct(Extend(m, src))
    decreases |src|
  {
    if src != [] {
      var n := |src| - 1;
      ExtendDistinct(m, src[..n]);
      InsertDistinct(Extend(m, src[..n]), src[n].0, src[n].1);
    }
  }

  /** Entries already present keep their slots: the old key sequence is a
      prefix of the new one. */
  lemma {:induction false} ExtendKeepsOrder<V>(m: Entries<V>, src: Entries<V>)
    ensures |Extend(m, src)| >= |m|
    ensures Keys(Extend(m, src))[..|m|] == Keys(m)
    decreases |src|
  {
    if src != [] {
      var n := |src| - 1;
      ExtendKeepsOrder(m, src[..n]);
    }
  }

  lemma {:induction false} GetExtend<V>(m: Entries<V>, src: Entries<V>, k: string)
    requires Distinct(src)
    ensures Get(Extend(m, src), k) == if k in Keys(src) then Get(src, k) else Get(m, k)
    decreases |src|
  {
    if src != [] {
      var n := |src| - 1;
      var init, e := src[..n], src[n];
      assert src == init + [e];
      assert Distinct(init);
      forall j | 0 <= j < n ensures Keys(init)[j] != e.0 {
        assert init[j] == src[j];
      }
      GetExtend(m, init, k);
      GetInsert(Extend(m, init), e.0, e.1, k);
      GetSnoc(init, e, k);
    }
  }

  /** One more entry behind the others, under a new key. */
  lemma GetSnoc<V>(init: Entries<V>, e: (string, V), k: string)
    requires e.0 !in Keys(init)
    ensures k in Keys(init + [e]) <==> k in Keys(init) || k == e.0
    ensures Get(init + [e], k) == if k == e.0 then Some(e.1) else Get(init, k)
  {
    GetAppend(init, [e], k);
    assert Keys([e]) == [e.0];
    assert Keys(init + [e]) == Keys(init) + [e.0];
    if k == e.0 {
      IndexOfUnique([e], k, 0);
    }
  }

  lemma PrefixSnoc<T>(xs: seq<T>, x: T, n: nat)
    requires n <= |xs|
    ensures (xs + [x])[..n] == xs[..n]
  {
  }


  // ---------------------------------------------------------------- sorting

  /** The first component: the key `sort_keys` orders by. */
  function EntryKey<V>(e: (string, V)): string
  {
    e.0
  }

  /** A stable sort by `key`, as `sort_by_key` and `sort_keys` perform it. */
  function SortBy<T>(s: seq<T>, key: T -> string): seq<T>
  {
    if s == [] then [] else Insort(s[0], SortBy(s[1..], key), key)
  }

  /** `x` goes before the first element whose key is not below its own. */
  function Insort<T>(x: T, s: seq<T>, key: T -> string): seq<T>
  {
    if s == [] || !Less(key(s[0]), key(x)) then [x] + s
    else [s[0]] + Insort(x, s[1..], key)
  }

  lemma {:induction false} InsortPermutes<T>(x: T, s: seq<T>, key: T -> string)
    ensures multiset(Insort(x, s, key)) == multiset(s) + multiset{x}
  {
    if s != [] && Less(key(s[0]), key(x)) {
      InsortPermutes(x, s[1..], key);
      assert s == [s[0]] + s[1..];
    }
  }

  /** The sort is a permutation. */
  lemma {:induction false} SortByPermutes<T>(s: seq<T>, key: T -> string)
    ensures multiset(SortBy(s, key)) == multiset(s)
  {
    if s != [] {
      SortByPermutes(s[1..], key);
      InsortPermutes(s[0], SortBy(s[1..], key), key);
      assert s == [s[0]] + s[1..];
    }
  }

  /** `IndexMap::sort_keys`. */
  function SortKeys<V>(m: Entries<V>): Entries<V>
  {
    SortBy(m, EntryKey)
  }

  predicate SortedBy<T>(s: seq<T>, key: T -> string)
  {
    forall i, j :: 0 <= i < j < |s| ==> !Less(key(s[j]), key(s[i]))
  }

  predicate DistinctBy<T>(s: seq<T>, key: T -> string)
  {
    forall i, j :: 0 <= i < j < |s| ==> key(s[i]) != key(s[j])
  }

  /** Keys in ascending order, each once. */
  predicate StrictlySorted<V>(m: Entries<V>)
  {
    forall i, j :: 0 <= i < j < |m| ==> Less(m[i].0, m[j].0)
  }

  /** The elements whose key is `n`, in their order. */
  function WithKey<T>(s: seq<T>, key: T -> string, n: string): seq<T>
  {
    if s == [] then []
    else (if key(s[0]) == n then [s[0]] else []) + WithKey(s[1..], key, n)
  }

  lemma InsortMember<T>(x: T, s: seq<T>, key: T -> string, y: T)
    requires y in Insort(x, s, key)
    ensures y == x || y in s
  {
    InsortPermutes(x, s, key);
    assert y in multiset(Insort(x, s, key));
  }

  /** `y` before a sorted sequence whose keys are not below its own. */
  lemma ConsSorted<T>(y: T, s: seq<T>, key: T -> string)
    requires SortedBy(s, key)
    requires forall z :: z in s ==> !Less(key(z), key(y))
    ensures SortedBy([y] + s, key)
  {
    var r := [y] + s;
    forall i, j | 0 <= i < j < |r| ensures !Less(key(r[j]), key(r[i])) {
      assert r[j] == s[j - 1];
      if i > 0 {
        assert r[i] == s[i - 1];
      }
    }
  }

  lemma {:induction false} InsortSorted<T>(x: T, s: seq<T>, key: T -> string)
    requires SortedBy(s, key)
    ensures SortedBy(Insort(x, s, key), key)
  {
    if s == [] || !Less(key(s[0]), key(x)) {
      forall z | z in s ensures !Less(key(z), key(x)) {
        var j :| 0 <= j < |s| && s[j] == z;
        if j > 0 {
          NotLessTransitive(key(x), key(s[0]), key(s[j]));
        }
      }
      ConsSorted(x, s, key);
    } else {
      var t := s[1..];
      InsortSorted(x, t, key);
      forall z | z in Insort(x, t, key) ensures !Less(key(z), key(s[0])) {
        InsortMember(x, t, key, z);
        if z == x {
          LessAsymmetric(key(s[0]), key(x));
        } else {
          var m :| 0 <= m < |t| && t[m] == z;
          assert s[m + 1] == z;
        }
      }
      ConsSorted(s[0], Insort(x, t, key), key);
    }
  }

  lemma {:induction false} SortBySorted<T>(s: seq<T>, key: T -> string)
    ensures SortedBy(SortBy(s, key), key)
  {
    if s != [] {
      SortBySorted(s[1..], key);
      InsortSorted(s[0], SortBy(s[1..], key), key);
    }
  }

  lemma {:induction false} InsortDistinct<T>(x: T, s: seq<T>, key: T -> string)
    requires DistinctBy(s, key)
    requires forall y :: y in s ==> key(y) != key(x)
    ensures DistinctBy(Insort(x, s, key), key)
  {
    var r := Insort(x, s, key);
    if s == [] || !Less(key(s[0]), key(x)) {
      forall i, j | 0 <= i < j < |r| ensures key(r[i]) != key(r[j]) {
        if i == 0 { assert r[j] == s[j - 1]; assert r[j] in s; }
        else { assert r[i] == s[i - 1] && r[j] == s[j - 1]; }
      }
    } else {
      InsortDistinct(x, s[1..], key);
      InsortPermutes(x, s[1..], key);
      var rest := Insort(x, s[1..], key);
      forall i, j | 0 <= i < j < |r| ensures key(r[i]) != key(r[j]) {
        if i == 0 {
          assert r[j] == rest[j - 1];
          assert r[j] in multiset(rest);
          if r[j] != x {
            assert r[j] in s[1..];
            var m :| 0 <= m < |s| - 1 && s[1..][m] == r[j];
            assert s[m + 1] == r[j];
          }
        } else {
          assert r[i] == rest[i - 1] && r[j] == rest[j - 1];
        }
      }
    }
  }

  lemma {:induction false} SortByDistinct<T>(s: seq<T>, key: T -> string)
    requires DistinctBy(s, key)
    ensures DistinctBy(SortBy(s, key), key)
  {
    if s != [] {
      assert DistinctBy(s[1..], key);
      SortByDistinct(s[1..], key);
      SortByPermutes(s[1..], key);
      forall y | y in SortBy(s[1..], key) ensures key(y) != key(s[0]) {
        assert y in multiset(SortBy(s[1..], key));
        var m :| 0 <= m < |s| - 1 && s[1..][m] == y;
        assert s[m + 1] == y;
      }
      InsortDistinct(s[0], SortBy(s[1..], key), key);
    }
  }

  lemma {:induction false} WithKeyAppend<T>(a: seq<T>, b: seq<T>, key: T -> string, n: string)
    ensures WithKey(a + b, key, n) == WithKey(a, key, n) + WithKey(b, key, n)
  {
    if a == [] {
      assert a + b == b;
    } else {
      var h := if key(a[0]) == n then [a[0]] else [];
      assert (a + b)[0] == a[0] && (a + b)[1..] == a[1..] + b;
      assert WithKey(a + b, key, n) == h + WithKey(a[1..] + b, key, n);
      assert WithKey(a, key, n) == h + WithKey(a[1..], key, n);
      WithKeyAppend(a[1..], b, key, n);
      assert h + (WithKey(a[1..], key, n) + WithKey(b, key, n))
          == (h + WithKey(a[1..], key, n)) + WithKey(b, key, n);
    }
  }

  lemma WithKeyCons<T>(y: T, s: seq<T>, key: T -> string, n: string)
    ensures WithKey([y] + s, key, n) == (if key(y) == n then [y] else []) + WithKey(s, key, n)
  {
    assert ([y] + s)[0] == y && ([y] + s)[1..] == s;
  }

  lemma {:induction false} InsortStable<T>(x: T, s: seq<T>, key: T -> string, n: string)
    ensures WithKey(Insort(x, s, key), key, n) == (if key(x) == n then [x] else []) + WithKey(s, key, n)
  {
    if s == [] || !Less(key(s[0]), key(x)) {
      WithKeyCons(x, s, key, n);
    } else {
      var t := s[1..];
      InsortStable(x, t, key, n);
      LessIrreflexive(key(x));
      assert key(s[0]) != key(x);
      WithKeyCons(s[0], Insort(x, t, key), key, n);
      WithKeyCons(s[0], t, key, n);
      assert s == [s[0]] + t;
    }
  }

  /** Elements with equal keys keep their relative order. */
  lemma {:induction false} SortByStable<T>(s: seq<T>, key: T -> string, n: string)
    ensures WithKey(SortBy(s, key), key, n) == WithKey(s, key, n)
  {
    if s != [] {
      SortByStable(s[1..], key, n);
      InsortStable(s[0], SortBy(s[1..], key), key, n);
      WithKeyCons(s[0], s[1..], key, n);
      assert s == [s[0]] + s[1..];
    }
  }

  /** Sorting what is already sorted changes nothing. */
  lemma {:induction false} SortBySortedIdentity<T>(s: seq<T>, key: T -> string)
    requires SortedBy(s, key)
    ensures SortBy(s, key) == s
  {
    if s != [] {
      assert SortedBy(s[1..], key);
      SortBySortedIdentity(s[1..], key);
      if |s| > 1 {
        assert !Less(key(s[1]), key(s[0]));
      }
    }
  }

  /** `sort_keys` on a map with distinct keys: ascending keys, same lookups. */
  lemma SortKeysSpec<V>(m: Entries<V>)
    requires Distinct(m)
    ensures StrictlySorted(SortKeys(m)) && Distinct(SortKeys(m))
    ensures forall e :: e in SortKeys(m) <==> e in m
    ensures forall k :: Get(SortKeys(m), k) == Get(m, k)
  {
    var r := SortKeys(m);
    assert DistinctBy(m, EntryKey) by {
      forall i, j | 0 <= i < j < |m| ensures EntryKey(m[i]) != EntryKey(m[j]) { }
    }
    SortByDistinct(m, EntryKey);
    SortBySorted(m, EntryKey);
    SortByPermutes(m, EntryKey);
    forall i, j | 0 <= i < j < |r| ensures Less(r[i].0, r[j].0) {
      assert EntryKey(r[i]) != EntryKey(r[j]);
      assert !Less(EntryKey(r[j]), EntryKey(r[i]));
      LessTotal(r[i].0, r[j].0);
    }
    forall i, j | 0 <= i < j < |r| ensures r[i].0 != r[j].0 {
      assert EntryKey(r[i]) != EntryKey(r[j]);
    }
    forall e ensures e in r <==> e in m {
      assert e in r <==> e in multiset(r);
    }
    forall k ensures Get(r, k) == Get(m, k) {
      GetSameEntries(r, m, k);
    }
  }

  /** Each entry of the sorted map is an entry of the original. */
  lemma SortKeysEntry<V>(m: Entries<V>, i: nat)
    requires i < |SortKeys(m)|
    ensures SortKeys(m)[i] in m
  {
    var e := SortKeys(m)[i];
    SortByPermutes(m, EntryKey);
    assert e in multiset(SortKeys(m));
    assert e in multiset(m);
  }

  /** A map whose keys are already ascending is left as it is. */
  lemma SortKeysSorted<V>(m: Entries<V>)
    requires StrictlySorted(m)
    ensures SortKeys(m) == m
  {
    forall i, j | 0 <= i < j < |m| ensures !Less(EntryKey(m[j]), EntryKey(m[i])) {
      LessAsymmetric(m[i].0, m[j].0);
    }
    SortBySortedIdentity(m, EntryKey);
  }
}
