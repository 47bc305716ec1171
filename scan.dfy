/** `RenderCleanup.run_scan`, reduced to what decides its result: the
    versions the tracking service returned go through the eligibility
    filter, are grouped by (shot, task), and the retention rules pick the
    sequence directories to move. */
module Scan {
  import opened Versions
  import opened Seqs
  import opened PosixPath
  import opened Eligibility
  import opened Grouping
  import opened Retention
  import opened CleanupRules

  /** The directories a scan reports, as a function of the returned
      versions, the excluded step names and the filesystem. */
  function ScanResult(versions: seq<Version>, excluded: seq<string>, fs: set<string>): seq<string>
  {
    var kept := WithVerdict(versions, excluded, Kept);
    GroupKeysMatchMap(kept);
    CleanupPaths(GroupKeys(kept), GroupMap(kept), fs)
  }

  /** Filter, group, apply the rules. */
  method RunScan(versions: seq<Version>, excluded: seq<string>, fs: set<string>)
    returns (pathsToMove: seq<string>)
    ensures pathsToMove == ScanResult(versions, excluded, fs)
    ensures NoDuplicates(pathsToMove)
    ensures forall p :: p in pathsToMove ==> p in fs
  {
    var allVersions, _, _ := FilterEligible(versions, excluded);
    var taskVersions, groups := GroupByShot(allVersions);
    var missing;
    pathsToMove, missing := ApplyCleanupRules(taskVersions, groups, fs);
  }

  /** Every reported directory exists and is the sequence directory of a
      returned version that passed the filter, is linked to a shot and a
      task, and has one of the three statuses the rules act on. */
  lemma ScanSoundness(versions: seq<Version>, excluded: seq<string>, fs: set<string>, p: string)
    requires p in ScanResult(versions, excluded, fs)
    ensures p in fs
    ensures exists v :: (v in versions && Classify(v, excluded) == Kept && HasKey(v) && HasPath(v)
      && Dirname(v.path.value) == p && (v.status == NA || v.status == IN_NOTE || v.status == NOTE))
  {
    var kept := WithVerdict(versions, excluded, Kept);
    var keys, groups := GroupKeys(kept), GroupMap(kept);
    GroupKeysMatchMap(kept);
    var cand := Candidates(keys, groups);
    DedupMembers(ExistingDirs(cand, fs), p);
    ExistingDirsMembers(cand, fs, p);
    var v :| v in cand && HasPath(v) && Dirname(v.path.value) == p;
    CandidatesMembers(keys, groups, v);
    var k :| k in keys && v in SelectForRemoval(groups[k]);
    SelectedVersionsHaveRuleStatus(groups[k], v);
    MembersSpec(kept, k, v);
    WithVerdictMembers(versions, excluded, Kept, v);
  }

  /** Completeness of rule 1: the sequence directory of every eligible
      "na" version linked to a shot and a task is reported when it
      exists. */
  lemma ScanReportsEveryNa(versions: seq<Version>, excluded: seq<string>, fs: set<string>, v: Version)
    requires v in versions && Classify(v, excluded) == Kept && HasKey(v)
    requires v.status == NA && HasPath(v) && Dirname(v.path.value) in fs
    ensures Dirname(v.path.value) in ScanResult(versions, excluded, fs)
  {
    var kept := WithVerdict(versions, excluded, Kept);
    var keys, groups := GroupKeys(kept), GroupMap(kept);
    GroupKeysMatchMap(kept);
    WithVerdictMembers(versions, excluded, Kept, v);
    GroupedExactlyOnce(kept, v, KeyOf(v));
    var g := groups[KeyOf(v)];
    RuleNaSelectsAll(g);
    assert v in SelectForRemoval(g);
    CandidatesMembers(keys, groups, v);
    var cand := Candidates(keys, groups);
    ExistingDirsMembers(cand, fs, Dirname(v.path.value));
    DedupMembers(ExistingDirs(cand, fs), Dirname(v.path.value));
  }

  /** A version the filter drops is in no group, so no rule selects it. */
  lemma DroppedVersionsAreNotSelected(versions: seq<Version>, excluded: seq<string>, v: Version)
    requires Classify(v, excluded) != Kept
    ensures var groups := GroupMap(WithVerdict(versions, excluded, Kept));
      forall k :: k in groups ==> v !in groups[k] && v !in SelectForRemoval(groups[k])
  {
    var kept := WithVerdict(versions, excluded, Kept);
    var groups := GroupMap(kept);
    WithVerdictMembers(versions, excluded, Kept, v);
    forall k | k in groups
      ensures v !in groups[k] && v !in SelectForRemoval(groups[k])
    {
      MembersSpec(kept, k, v);
      if v in SelectForRemoval(groups[k]) {
        SelectedVersionsHaveRuleStatus(groups[k], v);
      }
    }
  }
}
