/** `RenderCleanup.group_versions_by_shot`: partition the eligible versions
    by (shot entity, task). The Python dictionary is modelled as the
    sequence of its keys in insertion order plus a map from key to the list
    of versions appended under it. */
module Grouping {
  import opened Versions
  import opened Seqs

  /** The key of every groupable version, one entry per version, in input
      order. */
  function KeySeq(vs: seq<Version>): seq<Key>
  {
    if vs == [] then []
    else
      var v := vs[|vs| - 1];
      KeySeq(vs[..|vs| - 1]) + (if HasKey(v) then [KeyOf(v)] else [])
  }

  /** The versions filed under key `k`, in input order. */
  function Members(vs: seq<Version>, k: Key): seq<Version>
  {
    if vs == [] then []
    else
      var v := vs[|vs| - 1];
      Members(vs[..|vs| - 1], k) + (if HasKey(v) && KeyOf(v) == k then [v] else [])
  }

  /** The dictionary's keys, in the order they were first inserted. */
  function GroupKeys(vs: seq<Version>): seq<Key>
  {
    Dedup(KeySeq(vs))
  }

  /** The dictionary's contents. */
  function GroupMap(vs: seq<Version>): map<Key, seq<Version>>
  {
    map k | k in KeySeq(vs) :: Members(vs, k)
  }

  /** Total number of versions over the groups named by `ks`. */
  function GroupedTotal(ks: seq<Key>, vs: seq<Version>): nat
  {
    if ks == [] then 0 else GroupedTotal(ks[..|ks| - 1], vs) + |Members(vs, ks[|ks| - 1])|
  }

  /** A version is in the group of `k` exactly when it is an input version
      with both links and its key is `k`. */
  lemma {:induction false} MembersSpec(vs: seq<Version>, k: Key, v: Version)
    ensures v in Members(vs, k) <==> v in vs && HasKey(v) && KeyOf(v) == k
  {
    if vs != [] {
      var init := vs[..|vs| - 1];
      MembersSpec(init, k, v);
      assert vs == init + [vs[|vs| - 1]];
    }
  }

  /** A group keeps the input order of its versions. */
  lemma {:induction false} MembersIsSubsequence(vs: seq<Version>, k: Key)
    ensures IsSubsequence(Members(vs, k), vs)
  {
    if vs != [] {
      var init := vs[..|vs| - 1];
      var last := vs[|vs| - 1];
      MembersIsSubsequence(init, k);
      var m := Members(init, k);
      if HasKey(last) && KeyOf(last) == k {
        assert (m + [last])[..|m|] == m;
      } else {
        assert m + [] == m;
      }
    }
  }

  /** A key has a non-empty group exactly when some version carries it. */
  lemma {:induction false} MembersEmptyIffAbsent(vs: seq<Version>, k: Key)
    ensures Members(vs, k) == [] <==> k !in KeySeq(vs)
  {
    if vs != [] {
      var init := vs[..|vs| - 1];
      MembersEmptyIffAbsent(init, k);
    }
  }

  /** Each groupable version lies in exactly one group, the one of its own
      key; a version missing either link lies in none. */
  lemma GroupedExactlyOnce(vs: seq<Version>, v: Version, k: Key)
    requires v in vs
    ensures HasKey(v) ==> KeyOf(v) in GroupMap(vs) && v in GroupMap(vs)[KeyOf(v)]
    ensures k in GroupMap(vs) && v in GroupMap(vs)[k] <==> HasKey(v) && KeyOf(v) == k
  {
    MembersSpec(vs, k, v);
    if HasKey(v) {
      MembersSpec(vs, KeyOf(v), v);
      MembersEmptyIffAbsent(vs, KeyOf(v));
    }
  }

  lemma {:induction false} GroupedTotalSnoc(ks: seq<Key>, vs: seq<Version>, v: Version)
    requires NoDuplicates(ks)
    ensures GroupedTotal(ks, vs + [v])
            == GroupedTotal(ks, vs) + (if HasKey(v) && KeyOf(v) in ks then 1 else 0)
  {
    if ks != [] {
      var init := ks[..|ks| - 1];
      var k := ks[|ks| - 1];
      assert ks == init + [k];
      assert NoDuplicates(init);
      assert k !in init;
      GroupedTotalSnoc(init, vs, v);
      assert (vs + [v])[..|vs|] == vs;
    }
  }

  /** The group sizes add up to the number of versions with both links. */
  lemma {:induction false} GroupSizesTotal(vs: seq<Version>)
    ensures GroupedTotal(GroupKeys(vs), vs) == |KeySeq(vs)|
  {
    if vs != [] {
      var init := vs[..|vs| - 1];
      var v := vs[|vs| - 1];
      assert vs == init + [v];
      var ks := GroupKeys(init);
      GroupSizesTotal(init);
      DedupNoDuplicates(KeySeq(init));
      GroupedTotalSnoc(ks, init, v);
      if !HasKey(v) {
        assert KeySeq(vs) == KeySeq(init);
      } else {
        var key := KeyOf(v);
        assert KeySeq(vs) == KeySeq(init) + [key];
        DedupSnoc(KeySeq(init), key);
        DedupMembers(KeySeq(init), key);
        if key !in KeySeq(init) {
          MembersEmptyIffAbsent(init, key);
          assert Members(vs, key) == [v];
          assert GroupKeys(vs) == ks + [key];
          assert (ks + [key])[..|ks|] == ks;
          assert GroupedTotal(ks + [key], vs) == GroupedTotal(ks, vs) + 1;
        }
      }
    }
  }

  /** The dictionary's key list and its map have the same keys. */
  lemma GroupKeysMatchMap(vs: seq<Version>)
    ensures forall k :: k in GroupKeys(vs) <==> k in GroupMap(vs)
  {
    forall k ensures k in GroupKeys(vs) <==> k in GroupMap(vs) {
      DedupMembers(KeySeq(vs), k);
    }
  }

  lemma KeySeqSnoc(vs: seq<Version>, v: Version)
    ensures KeySeq(vs + [v]) == KeySeq(vs) + (if HasKey(v) then [KeyOf(v)] else [])
  {
    assert (vs + [v])[..|vs|] == vs;
  }

  /** Filing one more version extends exactly the group of its key. */
  lemma MembersSnoc(vs: seq<Version>, v: Version, k: Key)
    ensures Members(vs + [v], k) == Members(vs, k) + (if HasKey(v) && KeyOf(v) == k then [v] else [])
  {
    assert (vs + [v])[..|vs|] == vs;
  }

  /** Filing one more version adds its key at the end of the key list
      when the key is new, and leaves the list alone otherwise. */
  lemma GroupKeysSnoc(vs: seq<Version>, v: Version)
    ensures GroupKeys(vs + [v]) ==
      if HasKey(v) && KeyOf(v) !in KeySeq(vs) then GroupKeys(vs) + [KeyOf(v)] else GroupKeys(vs)
  {
    KeySeqSnoc(vs, v);
    if HasKey(v) {
      assert KeySeq(vs + [v]) == KeySeq(vs) + [KeyOf(v)];
      DedupSnoc(KeySeq(vs), KeyOf(v));
    } else {
      assert KeySeq(vs + [v]) == KeySeq(vs);
    }
  }

  /** Filing one more version updates the dictionary at its key only. */
  lemma GroupMapSnoc(vs: seq<Version>, v: Version)
    ensures !HasKey(v) ==> GroupMap(vs + [v]) == GroupMap(vs)
    ensures HasKey(v) ==>
      GroupMap(vs + [v]) == GroupMap(vs)[KeyOf(v) := Members(vs, KeyOf(v)) + [v]]
  {
    var m, m' := GroupMap(vs), GroupMap(vs + [v]);
    if HasKey(v) {
      var key := KeyOf(v);
      var r := m[key := Members(vs, key) + [v]];
      assert m'.Keys == r.Keys by {
        KeySeqSnoc(vs, v);
        assert KeySeq(vs + [v]) == KeySeq(vs) + [key];
      }
      forall k | k in m' ensures m'[k] == r[k] {
        MembersSnoc(vs, v, k);
      }
      assert m' == r;
    } else {
      assert m'.Keys == m.Keys by {
        KeySeqSnoc(vs, v);
        assert KeySeq(vs + [v]) == KeySeq(vs);
      }
      forall k | k in m' ensures m'[k] == m[k] {
        MembersSnoc(vs, v, k);
      }
      assert m' == m;
    }
  }

  /** One step of the grouping loop: file `v` under its key, creating the
      key's list on first use. */
  method FileVersion(ghost done: seq<Version>, keys: seq<Key>, groups: map<Key, seq<Version>>, v: Version)
    returns (keys': seq<Key>, groups': map<Key, seq<Version>>)
    requires keys == GroupKeys(done) && groups == GroupMap(done)
    ensures keys' == GroupKeys(done + [v]) && groups' == GroupMap(done + [v])
  {
    GroupKeysSnoc(done, v);
    GroupMapSnoc(done, v);
    keys', groups' := keys, groups;
    if v.entityId.Some? && v.taskId.Some? {
      var key := Key(v.entityId.value, v.taskId.value);
      assert key in groups <==> key in KeySeq(done);
      MembersEmptyIffAbsent(done, key);
      var current := if key in groups then groups[key] else [];
      assert current == Members(done, key);
      if key !in groups {
        keys' := keys + [key];
      }
      groups' := groups[key := current + [v]];
    }
  }

  /** The grouping loop: a `defaultdict(list)` filled in input order. */
  method GroupByShot(versions: seq<Version>) returns (keys: seq<Key>, groups: map<Key, seq<Version>>)
    ensures keys == GroupKeys(versions)
    ensures groups == GroupMap(versions)
    ensures NoDuplicates(keys)
    ensures forall k :: k in groups <==> k in keys
  {
    keys, groups := [], map[];
    for i := 0 to |versions|
      invariant keys == GroupKeys(versions[..i])
      invariant groups == GroupMap(versions[..i])
    {
      assert versions[..i + 1] == versions[..i] + [versions[i]];
      keys, groups := FileVersion(versions[..i], keys, groups, versions[i]);
    }
    assert versions[..|versions|] == versions;
    DedupNoDuplicates(KeySeq(versions));
    GroupKeysMatchMap(versions);
  }
}
