/** The eligibility filter of `RenderCleanup.get_versions_for_cleanup`:
    keep the versions whose frame path is an EXR sequence and which are not
    tied to an excluded pipeline step, counting what is dropped and why. */
module Eligibility {
  import opened Versions
  import opened Text
  import opened Seqs

  /** What the filter loop does with one version. */
  datatype Verdict = Kept | Excluded | NonExr

  /** `path and path.lower().endswith('.exr')`. */
  predicate IsExrPath(path: Option<string>)
  {
    path.Some? && path.value != [] && EndsWith(Lower(path.value), ".exr")
  }

  /** The version's task has a pipeline step whose name is listed verbatim. */
  predicate ExcludedByStep(v: Version, excluded: seq<string>)
  {
    v.taskId.Some? && v.step.Some? && StepName(v.step.value) in excluded
  }

  /** Some excluded name occurs in the path, ignoring case. */
  predicate PathMentions(path: string, excluded: seq<string>)
  {
    exists e | e in excluded :: Contains(Upper(path), Upper(e))
  }

  /** The decision the loop body takes, in the order of its checks. Kept
      means every check passed; non-EXR means the path check failed,
      whatever the step; excluded means the path passed and a step or a
      path check failed. */
  function Classify(v: Version, excluded: seq<string>): (r: Verdict)
    ensures r == Kept <==>
      IsExrPath(v.path) && !ExcludedByStep(v, excluded) && !PathMentions(v.path.value, excluded)
    ensures r == NonExr <==> !IsExrPath(v.path)
    ensures r == Excluded <==>
      IsExrPath(v.path) && (ExcludedByStep(v, excluded) || PathMentions(v.path.value, excluded))
  {
    if !IsExrPath(v.path) then NonExr
    else if ExcludedByStep(v, excluded) then Excluded
    else if PathMentions(v.path.value, excluded) then Excluded
    else Kept
  }

  /** The versions of `vs` the loop classifies as `d`, in input order. */
  function WithVerdict(vs: seq<Version>, excluded: seq<string>, d: Verdict): seq<Version>
  {
    if vs == [] then []
    else
      var v := vs[|vs| - 1];
      WithVerdict(vs[..|vs| - 1], excluded, d) + (if Classify(v, excluded) == d then [v] else [])
  }

  /** A version is in a bucket exactly when it is in the input and is
      classified that way. */
  lemma {:induction false} WithVerdictMembers(vs: seq<Version>, excluded: seq<string>, d: Verdict, v: Version)
    ensures v in WithVerdict(vs, excluded, d) <==> v in vs && Classify(v, excluded) == d
  {
    if vs != [] {
      var init := vs[..|vs| - 1];
      WithVerdictMembers(init, excluded, d, v);
      assert vs == init + [vs[|vs| - 1]];
    }
  }

  /** Each bucket is an order-preserving subsequence of the input. */
  lemma {:induction false} WithVerdictIsSubsequence(vs: seq<Version>, excluded: seq<string>, d: Verdict)
    ensures IsSubsequence(WithVerdict(vs, excluded, d), vs)
  {
    if vs != [] {
      var init := vs[..|vs| - 1];
      var last := vs[|vs| - 1];
      WithVerdictIsSubsequence(init, excluded, d);
      var w := WithVerdict(init, excluded, d);
      if Classify(last, excluded) == d {
        assert (w + [last])[..|w|] == w;
      } else {
        assert w + [] == w;
      }
    }
  }

  /** Every input version is counted in exactly one bucket. */
  lemma {:induction false} VerdictCountsPartition(vs: seq<Version>, excluded: seq<string>)
    ensures |WithVerdict(vs, excluded, Kept)| + |WithVerdict(vs, excluded, Excluded)|
            + |WithVerdict(vs, excluded, NonExr)| == |vs|
  {
    if vs != [] {
      VerdictCountsPartition(vs[..|vs| - 1], excluded);
    }
  }

  /** What a kept version satisfies: an EXR frame path (case-insensitively),
      no excluded step name, and no excluded name inside its path. */
  lemma KeptVersionsQualify(vs: seq<Version>, excluded: seq<string>, v: Version)
    requires v in WithVerdict(vs, excluded, Kept)
    ensures v in vs
    ensures v.path.Some? && v.path.value != [] && EndsWith(Lower(v.path.value), ".exr")
    ensures v.taskId.Some? && v.step.Some? ==> StepName(v.step.value) !in excluded
    ensures forall e :: e in excluded ==> !Contains(Upper(v.path.value), Upper(e))
  {
    WithVerdictMembers(vs, excluded, Kept, v);
  }

  /** The filter loop (the `for v in versions` of get_versions_for_cleanup),
      with its inner keyword search that stops at the first match. */
  method FilterEligible(versions: seq<Version>, excluded: seq<string>)
    returns (filtered: seq<Version>, excludedCount: nat, nonExrCount: nat)
    ensures filtered == WithVerdict(versions, excluded, Kept)
    ensures excludedCount == |WithVerdict(versions, excluded, Excluded)|
    ensures nonExrCount == |WithVerdict(versions, excluded, NonExr)|
    ensures IsSubsequence(filtered, versions)
    ensures |filtered| + excludedCount + nonExrCount == |versions|
  {
    filtered, excludedCount, nonExrCount := [], 0, 0;
    var i := 0;
    while i < |versions|
      invariant 0 <= i <= |versions|
      invariant filtered == WithVerdict(versions[..i], excluded, Kept)
      invariant excludedCount == |WithVerdict(versions[..i], excluded, Excluded)|
      invariant nonExrCount == |WithVerdict(versions[..i], excluded, NonExr)|
    {
      var v := versions[i];
      assert versions[..i + 1][..i] == versions[..i];
      if v.path.None? || v.path.value == [] || !EndsWith(Lower(v.path.value), ".exr") {
        nonExrCount := nonExrCount + 1;
      } else if v.taskId.Some? && v.step.Some? && StepName(v.step.value) in excluded {
        excludedCount := excludedCount + 1;
      } else {
        var path := v.path.value;
        var skipByPath := false;
        var j := 0;
        while j < |excluded|
          invariant 0 <= j <= |excluded|
          invariant !skipByPath
          invariant forall k :: 0 <= k < j ==> !Contains(Upper(path), Upper(excluded[k]))
        {
          if Contains(Upper(path), Upper(excluded[j])) {
            skipByPath := true;
            break;
          }
          j := j + 1;
        }
        if skipByPath {
          assert excluded[j] in excluded;
          excludedCount := excludedCount + 1;
        } else {
          filtered := filtered + [v];
        }
      }
      i := i + 1;
    }
    assert versions[..i] == versions;
    WithVerdictIsSubsequence(versions, excluded, Kept);
    VerdictCountsPartition(versions, excluded);
  }

  /** A version whose task is in the "Roto" step never passes the default
      filter, whatever its status. */
  lemma RotoStepIsExcluded(vs: seq<Version>, v: Version)
    requires v.taskId.Some? && v.step == Some(Step(Some("Roto")))
    ensures Classify(v, DEFAULT_EXCLUDED_STEPS) != Kept
    ensures v !in WithVerdict(vs, DEFAULT_EXCLUDED_STEPS, Kept)
  {
    assert DEFAULT_EXCLUDED_STEPS[0] == "Roto";
    WithVerdictMembers(vs, DEFAULT_EXCLUDED_STEPS, Kept, v);
  }

  /** A frame path that does not end in `.exr`, ignoring case, is counted
      as non-EXR and never kept, whatever its step and its status. */
  lemma NonExrPathIsDropped(vs: seq<Version>, v: Version, excluded: seq<string>)
    requires v.path.Some? && !EndsWith(Lower(v.path.value), ".exr")
    ensures Classify(v, excluded) == NonExr
    ensures v !in WithVerdict(vs, excluded, Kept)
  {
    WithVerdictMembers(vs, excluded, Kept, v);
  }
}
