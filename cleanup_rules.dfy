/** `RenderCleanup.apply_cleanup_rules`: run the three retention rules over
    every group in dictionary order, map each selected version to the
    directory of its frame sequence, keep the directories that exist
    (counting the others as missing), and de-duplicate the result keeping
    first occurrences. The filesystem is the finite set of paths that
    exist. */
module CleanupRules {
  import opened Versions
  import opened Seqs
  import opened PosixPath
  import opened Retention

  /** The sequence directories of `recs` that exist, in order; a version
      without a frame path is skipped. */
  function ExistingDirs(recs: seq<Version>, fs: set<string>): seq<string>
  {
    if recs == [] then []
    else
      var v := recs[|recs| - 1];
      ExistingDirs(recs[..|recs| - 1], fs)
        + (if HasPath(v) && Dirname(v.path.value) in fs then [Dirname(v.path.value)] else [])
  }

  /** How many versions of `recs` have a frame path whose directory is
      gone (the `missing_paths` counter). */
  function MissingDirs(recs: seq<Version>, fs: set<string>): nat
  {
    if recs == [] then 0
    else
      var v := recs[|recs| - 1];
      MissingDirs(recs[..|recs| - 1], fs)
        + (if HasPath(v) && Dirname(v.path.value) !in fs then 1 else 0)
  }

  function WithPathCount(recs: seq<Version>): nat
  {
    if recs == [] then 0
    else WithPathCount(recs[..|recs| - 1]) + (if HasPath(recs[|recs| - 1]) then 1 else 0)
  }

  /** The versions the rules select, group after group in key order. */
  function Candidates(keys: seq<Key>, groups: map<Key, seq<Version>>): seq<Version>
    requires forall k :: k in keys ==> k in groups
  {
    if keys == [] then []
    else Candidates(keys[..|keys| - 1], groups) + SelectForRemoval(groups[keys[|keys| - 1]])
  }

  /** What apply_cleanup_rules returns. */
  function CleanupPaths(keys: seq<Key>, groups: map<Key, seq<Version>>, fs: set<string>): seq<string>
    requires forall k :: k in keys ==> k in groups
  {
    Dedup(ExistingDirs(Candidates(keys, groups), fs))
  }

  lemma {:induction false} ExistingDirsAppend(a: seq<Version>, b: seq<Version>, fs: set<string>)
    ensures ExistingDirs(a + b, fs) == ExistingDirs(a, fs) + ExistingDirs(b, fs)
    ensures MissingDirs(a + b, fs) == MissingDirs(a, fs) + MissingDirs(b, fs)
  {
    if b == [] {
      assert a + b == a;
    } else {
      var init := b[..|b| - 1];
      assert (a + b)[..|a + b| - 1] == a + init;
      ExistingDirsAppend(a, init, fs);
    }
  }

  /** A directory is returned exactly when it exists and is the `dirname`
      of the frame path of one of the versions. */
  lemma {:induction false} ExistingDirsMembers(recs: seq<Version>, fs: set<string>, p: string)
    ensures p in ExistingDirs(recs, fs) <==>
      p in fs && exists v :: v in recs && HasPath(v) && Dirname(v.path.value) == p
  {
    if recs != [] {
      var init := recs[..|recs| - 1];
      var last := recs[|recs| - 1];
      assert recs == init + [last];
      ExistingDirsMembers(init, fs, p);
      if p in fs && (exists v :: v in recs && HasPath(v) && Dirname(v.path.value) == p) {
        var v :| v in recs && HasPath(v) && Dirname(v.path.value) == p;
        if v != last {
          assert v in init;
        }
      }
    }
  }

  /** Each version with a frame path yields either a returned directory or
      one count of `missing_paths`, never both. */
  lemma {:induction false} ExistingDirsAccounting(recs: seq<Version>, fs: set<string>)
    ensures |ExistingDirs(recs, fs)| + MissingDirs(recs, fs) == WithPathCount(recs)
  {
    if recs != [] {
      ExistingDirsAccounting(recs[..|recs| - 1], fs);
    }
  }

  /** The candidates are exactly the versions some group's rules select. */
  lemma {:induction false} CandidatesMembers(keys: seq<Key>, groups: map<Key, seq<Version>>, v: Version)
    requires forall k :: k in keys ==> k in groups
    ensures v in Candidates(keys, groups) <==>
      exists k :: k in keys && v in SelectForRemoval(groups[k])
  {
    if keys != [] {
      var init := keys[..|keys| - 1];
      var last := keys[|keys| - 1];
      assert keys == init + [last];
      CandidatesMembers(init, groups, v);
      var sel := SelectForRemoval(groups[last]);
      assert Candidates(keys, groups) == Candidates(init, groups) + sel;
      if v in sel {
        assert last in keys;
      }
      if exists k :: k in keys && v in SelectForRemoval(groups[k]) {
        var k :| k in keys && v in SelectForRemoval(groups[k]);
        if k != last {
          assert k in init;
        }
      }
    }
  }

  /** One `for v in ...` loop of a rule: append the existing sequence
      directories, count the missing ones. */
  method CollectDirs(recs: seq<Version>, fs: set<string>, paths: seq<string>, missing: nat)
    returns (paths': seq<string>, missing': nat)
    ensures paths' == paths + ExistingDirs(recs, fs)
    ensures missing' == missing + MissingDirs(recs, fs)
  {
    paths', missing' := paths, missing;
    for i := 0 to |recs|
      invariant paths' == paths + ExistingDirs(recs[..i], fs)
      invariant missing' == missing + MissingDirs(recs[..i], fs)
    {
      var v := recs[i];
      assert recs[..i + 1][..i] == recs[..i];
      var p := v.path;
      if p.Some? && p.value != [] {
        var seqDir := Dirname(p.value);
        if seqDir in fs {
          paths' := paths' + [seqDir];
        } else {
          missing' := missing' + 1;
        }
      }
    }
    assert recs[..|recs|] == recs;
  }

  /** The "seen set" loop: keep each path at its first occurrence. */
  method Deduplicate(items: seq<string>) returns (deduped: seq<string>)
    ensures deduped == Dedup(items)
    ensures NoDuplicates(deduped)
    ensures IsSubsequence(deduped, items)
    ensures forall x :: x in deduped <==> x in items
    ensures forall i, j :: 0 <= i < j < |deduped| ==>
      FirstIndex(items, deduped[i]) < FirstIndex(items, deduped[j])
  {
    var seen: set<string> := {};
    deduped := [];
    for i := 0 to |items|
      invariant deduped == Dedup(items[..i])
      invariant forall x :: x in seen <==> x in items[..i]
    {
      var p := items[i];
      assert items[..i + 1] == items[..i] + [p];
      DedupSnoc(items[..i], p);
      if p !in seen {
        seen := seen + {p};
        deduped := deduped + [p];
      }
    }
    assert items[..|items|] == items;
    DedupNoDuplicates(items);
    DedupIsSubsequence(items);
    DedupFirstOccurrenceOrder(items);
    forall x ensures x in deduped <==> x in items {
      DedupMembers(items, x);
    }
  }

  lemma CollectedInTurn(paths: seq<string>, missing: nat, a: seq<Version>, b: seq<Version>, c: seq<Version>, fs: set<string>)
    ensures paths + ExistingDirs(a, fs) + ExistingDirs(b, fs) + ExistingDirs(c, fs)
            == paths + ExistingDirs(a + b + c, fs)
    ensures missing + MissingDirs(a, fs) + MissingDirs(b, fs) + MissingDirs(c, fs)
            == missing + MissingDirs(a + b + c, fs)
  {
    var ea, eb, ec := ExistingDirs(a, fs), ExistingDirs(b, fs), ExistingDirs(c, fs);
    assert ExistingDirs(a + b + c, fs) == ea + eb + ec
        && MissingDirs(a + b + c, fs) == MissingDirs(a, fs) + MissingDirs(b, fs) + MissingDirs(c, fs) by {
      ExistingDirsAppend(a, b, fs);
      ExistingDirsAppend(a + b, c, fs);
    }
    assert paths + ea + eb + ec == paths + (ea + eb + ec);
  }

  /** Going one key further in the rules loop adds that group's
      directories and missing count. */
  lemma CollectedThroughKey(keys: seq<Key>, groups: map<Key, seq<Version>>, fs: set<string>, i: nat)
    requires forall k :: k in keys ==> k in groups
    requires i < |keys|
    ensures ExistingDirs(Candidates(keys[..i + 1], groups), fs)
      == ExistingDirs(Candidates(keys[..i], groups), fs) + ExistingDirs(SelectForRemoval(groups[keys[i]]), fs)
    ensures MissingDirs(Candidates(keys[..i + 1], groups), fs)
      == MissingDirs(Candidates(keys[..i], groups), fs) + MissingDirs(SelectForRemoval(groups[keys[i]]), fs)
  {
    assert keys[..i + 1][..i] == keys[..i];
    var sel := SelectForRemoval(groups[keys[i]]);
    assert Candidates(keys[..i + 1], groups) == Candidates(keys[..i], groups) + sel;
    ExistingDirsAppend(Candidates(keys[..i], groups), sel, fs);
  }

  /** The body of the rules loop for one group: sort it, then run the
      three rules, appending existing directories and counting missing
      ones. */
  method ApplyRulesToGroup(versions: seq<Version>, fs: set<string>, paths: seq<string>, missing: nat)
    returns (paths': seq<string>, missing': nat)
    ensures paths' == paths + ExistingDirs(SelectForRemoval(versions), fs)
    ensures missing' == missing + MissingDirs(SelectForRemoval(versions), fs)
  {
    var sorted := SortByCreated(versions);
    ghost var na, innote, note := RuleNa(sorted), RuleInNote(sorted), RuleNote(sorted);

    var naVersions := Bucket(sorted, NA);
    paths', missing' := CollectDirs(naVersions, fs, paths, missing);

    var innoteVersions := Bucket(sorted, IN_NOTE);
    if |innoteVersions| > 1 {
      var older := innoteVersions[..|innoteVersions| - 1];
      assert older == innote;
      paths', missing' := CollectDirs(older, fs, paths', missing');
    } else {
      assert ExistingDirs(innote, fs) == [];
    }
    assert paths' == paths + ExistingDirs(na, fs) + ExistingDirs(innote, fs);

    var noteVersions := Bucket(sorted, NOTE);
    if |noteVersions| > 2 {
      var older := noteVersions[..|noteVersions| - 2];
      assert older == note;
      paths', missing' := CollectDirs(older, fs, paths', missing');
    } else {
      assert ExistingDirs(note, fs) == [];
    }
    CollectedInTurn(paths, missing, na, innote, note, fs);
  }

  /** The rules loop over the groups followed by de-duplication. Returns
      the directories to move and the `missing_paths` count. */
  method ApplyCleanupRules(keys: seq<Key>, groups: map<Key, seq<Version>>, fs: set<string>)
    returns (paths: seq<string>, missing: nat)
    requires forall k :: k in keys ==> k in groups
    ensures paths == CleanupPaths(keys, groups, fs)
    ensures missing == MissingDirs(Candidates(keys, groups), fs)
    ensures NoDuplicates(paths)
    ensures forall p :: p in paths ==> p in fs
  {
    var pathsToMove: seq<string> := [];
    missing := 0;
    for i := 0 to |keys|
      invariant pathsToMove == ExistingDirs(Candidates(keys[..i], groups), fs)
      invariant missing == MissingDirs(Candidates(keys[..i], groups), fs)
    {
      CollectedThroughKey(keys, groups, fs, i);
      pathsToMove, missing := ApplyRulesToGroup(groups[keys[i]], fs, pathsToMove, missing);
    }
    assert keys[..|keys|] == keys;
    paths := Deduplicate(pathsToMove);
    forall p | p in paths ensures p in fs {
      ExistingDirsMembers(Candidates(keys, groups), fs, p);
    }
  }
}
