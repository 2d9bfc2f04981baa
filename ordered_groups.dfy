/**
 * Python dicts of lists built by "create the list on first sight, then
 * append": the keys keep their order of first insertion, and the list under
 * each key holds that key's values in the order they were appended.
 *
 * `KeyOrder` and `Group` say what such a dict holds after a sequence of
 * (key, value) appends; both the per-actor buckets and the per-date buckets
 * of the analyzer are instances.
 */
module OrderedGroups {

  /** An insertion-ordered dict whose values are lists. */
  datatype Dict<K(==, !new), V> = Dict(keys: seq<K>, lists: map<K, seq<V>>)

  predicate Distinct<K(==, !new)>(ks: seq<K>) {
    forall i, j | 0 <= i < j < |ks| :: ks[i] != ks[j]
  }

  /** What every Python dict satisfies: each key once, and exactly the stored keys. */
  predicate Valid<K(==, !new), V>(d: Dict<K, V>) {
    && Distinct(d.keys)
    && (forall k | k in d.lists :: k in d.keys)
    && (forall k | k in d.keys :: k in d.lists)
  }

  /** The values appended under `k`, in order. */
  function Group<K(==, !new), V>(s: seq<(K, V)>, k: K): seq<V> {
    if s == [] then []
    else Group(s[..|s| - 1], k) + (if s[|s| - 1].0 == k then [s[|s| - 1].1] else [])
  }

  /** The keys in order of first appearance. */
  function KeyOrder<K(==, !new), V>(s: seq<(K, V)>): (ks: seq<K>)
    ensures Distinct(ks)
    ensures forall k :: k in ks <==> Group(s, k) != []
  {
    if s == [] then []
    else
      var prior := KeyOrder(s[..|s| - 1]);
      if s[|s| - 1].0 in prior then prior else prior + [s[|s| - 1].0]
  }

  /** One more append: what the "create on first sight, then append" step does. */
  lemma Append<K(!new), V>(s: seq<(K, V)>, k: K, v: V)
    ensures KeyOrder(s + [(k, v)]) == if k in KeyOrder(s) then KeyOrder(s) else KeyOrder(s) + [k]
    ensures forall j :: Group(s + [(k, v)], j) == Group(s, j) + (if j == k then [v] else [])
  {
    assert (s + [(k, v)])[..|s|] == s;
  }

  /** `keys` and `lists` are the dict built by appending the pairs of `s` in order. */
  ghost predicate Builds<K(!new), V>(keys: seq<K>, lists: map<K, seq<V>>, s: seq<(K, V)>) {
    && keys == KeyOrder(s)
    && (forall k | k in lists :: k in keys)
    && (forall k | k in keys :: k in lists)
    && (forall k | k in lists :: lists[k] == Group(s, k))
  }

  /**
   * `if k not in d: d[k] = []` followed by `d[k].append(v)` turns the dict
   * built from `s` into the dict built from `s + [(k, v)]`.
   */
  lemma BuildsAppend<K(!new), V>(keys: seq<K>, lists: map<K, seq<V>>, s: seq<(K, V)>, k: K, v: V)
    requires Builds(keys, lists, s)
    ensures var keys' := if k in lists then keys else keys + [k];
            var lists' := lists[k := (if k in lists then lists[k] else []) + [v]];
            Builds(keys', lists', s + [(k, v)])
  {
    Append(s, k, v);
  }

  /** Each key of a built dict holds its non-empty group. */
  lemma BuiltGroups<K(!new), V>(keys: seq<K>, lists: map<K, seq<V>>, s: seq<(K, V)>)
    requires Builds(keys, lists, s)
    ensures forall k | k in keys :: k in lists && lists[k] == Group(s, k) != []
  {
  }

  /** A group holds exactly the values appended under its key. */
  lemma {:induction false} GroupMembers<K(!new), V>(s: seq<(K, V)>, k: K)
    ensures forall v :: v in Group(s, k) <==> (k, v) in s
  {
    if s != [] {
      var init := s[..|s| - 1];
      GroupMembers(init, k);
      assert s == init + [s[|s| - 1]];
    }
  }

  /** The pairs of `s` whose key is `k`, in order. */
  function KeyOnly<K(==, !new), V>(s: seq<(K, V)>, k: K): seq<(K, V)> {
    if s == [] then []
    else KeyOnly(s[..|s| - 1], k) + (if s[|s| - 1].0 == k then [s[|s| - 1]] else [])
  }

  lemma {:induction false} KeyOnlyAppend<K(!new), V>(a: seq<(K, V)>, b: seq<(K, V)>, k: K)
    ensures KeyOnly(a + b, k) == KeyOnly(a, k) + KeyOnly(b, k)
  {
    if b == [] {
      assert a + b == a;
    } else {
      KeyOnlyAppend(a, b[..|b| - 1], k);
      assert (a + b)[..|a + b| - 1] == a + b[..|b| - 1];
      assert (a + b)[|a + b| - 1] == b[|b| - 1];
    }
  }

  /** Keeping only the pairs of one key keeps that key's group and empties all others. */
  lemma {:induction false} GroupOfKeyOnly<K(!new), V>(s: seq<(K, V)>, k: K, j: K)
    ensures Group(KeyOnly(s, k), j) == if j == k then Group(s, j) else []
  {
    if s != [] {
      var init, last := s[..|s| - 1], s[|s| - 1];
      GroupOfKeyOnly(init, k, j);
      assert s == init + [(last.0, last.1)];
      Append(init, last.0, last.1);
      if last.0 == k {
        assert KeyOnly(s, k) == KeyOnly(init, k) + [(last.0, last.1)];
        Append(KeyOnly(init, k), last.0, last.1);
      } else {
        assert KeyOnly(s, k) == KeyOnly(init, k);
      }
    }
  }

  /** Number of values stored under the keys `ks`. */
  function TotalLength<K(==, !new), V>(ks: seq<K>, lists: map<K, seq<V>>): nat
    requires forall k | k in ks :: k in lists
  {
    if ks == [] then 0
    else TotalLength(ks[..|ks| - 1], lists) + |lists[ks[|ks| - 1]]|
  }

  /** Number of values stored in the dict. */
  function Size<K(==, !new), V>(d: Dict<K, V>): nat
    requires Valid(d)
  {
    TotalLength(d.keys, d.lists)
  }

  ghost function GroupLengths<K(!new), V>(s: seq<(K, V)>, ks: seq<K>): nat {
    if ks == [] then 0
    else GroupLengths(s, ks[..|ks| - 1]) + |Group(s, ks[|ks| - 1])|
  }

  lemma {:induction false} TotalLengthIsGroupLengths<K(!new), V>(s: seq<(K, V)>, ks: seq<K>, lists: map<K, seq<V>>)
    requires forall k | k in ks :: k in lists && |lists[k]| == |Group(s, k)|
    ensures TotalLength(ks, lists) == GroupLengths(s, ks)
  {
    if ks != [] {
      TotalLengthIsGroupLengths(s, ks[..|ks| - 1], lists);
    }
  }

  lemma {:induction false} GroupLengthsAppend<K(!new), V>(s: seq<(K, V)>, k: K, v: V, ks: seq<K>)
    requires Distinct(ks)
    ensures GroupLengths(s + [(k, v)], ks) == GroupLengths(s, ks) + (if k in ks then 1 else 0)
  {
    if ks != [] {
      var init := ks[..|ks| - 1];
      assert ks == init + [ks[|ks| - 1]];
      assert Distinct(init);
      GroupLengthsAppend(s, k, v, init);
      Append(s, k, v);
    }
  }

  /** Every appended value lands in exactly one group. */
  lemma {:induction false} GroupLengthsOfKeyOrder<K(!new), V>(s: seq<(K, V)>)
    ensures GroupLengths(s, KeyOrder(s)) == |s|
  {
    if s != [] {
      var init, p := s[..|s| - 1], s[|s| - 1];
      assert s == init + [(p.0, p.1)];
      GroupLengthsOfKeyOrder(init);
      Append(init, p.0, p.1);
      GroupLengthsAppend(init, p.0, p.1, KeyOrder(init));
      if p.0 !in KeyOrder(init) {
        var ks := KeyOrder(init) + [p.0];
        assert ks[..|ks| - 1] == KeyOrder(init);
      }
    }
  }

  /**
   * Conservation: a dict whose lists have the lengths of the groups of `s`
   * stores exactly |s| values.
   */
  lemma GroupsPartition<K(!new), V>(s: seq<(K, V)>, lists: map<K, seq<V>>)
    requires forall k | k in KeyOrder(s) :: k in lists && |lists[k]| == |Group(s, k)|
    ensures TotalLength(KeyOrder(s), lists) == |s|
  {
    TotalLengthIsGroupLengths(s, KeyOrder(s), lists);
    GroupLengthsOfKeyOrder(s);
  }
}
