/** `RenderCleanup._ensure_unique_dest`: pick a name under the destination
    folder that does not collide with anything already there, trying the
    plain name first and then `name_1`, `name_2`, ... The filesystem is the
    finite set of paths that exist. */
module Destination {
  import opened PosixPath
  import opened Text

  /** The name tried at attempt `i`: the plain name first, then the name
      with `_<i>` appended. Every attempt starts with the plain name, and
      holds a separator only when the plain name does. */
  function CandidateName(base: string, i: nat): (r: string)
    ensures |r| >= |base| && r[..|base|] == base
    ensures i > 0 ==> |r| > |base| + 1 && r[|base|] == '_'
    ensures SEP !in base ==> SEP !in r
  {
    if i == 0 then base else base + "_" + NatToString(i)
  }

  /** The path tried at attempt `i`. */
  function Candidate(root: string, base: string, i: nat): string
  {
    Join(root, CandidateName(base, i))
  }

  /** Attempt `i` is the first whose path is free. */
  predicate IsFirstFree(root: string, base: string, fs: set<string>, i: nat)
  {
    Candidate(root, base, i) !in fs &&
    forall j: nat :: j < i ==> Candidate(root, base, j) in fs
  }

  /** Different numbered attempts never produce the same path, so the
      search cannot revisit a path. */
  lemma CandidateInjective(root: string, base: string, i: nat, j: nat)
    requires 1 <= i && 1 <= j
    requires Candidate(root, base, i) == Candidate(root, base, j)
    ensures i == j
  {
    var si, sj := CandidateName(base, i), CandidateName(base, j);
    var n := |base| + 1;
    assert si[..n] == sj[..n] == base + "_";
    assert si[n..] == NatToString(i);
    assert sj[n..] == NatToString(j);
    var ri := Candidate(root, base, i);
    if |si| > 0 && si[0] == SEP {
      assert sj[0] == SEP;
      assert si == ri == sj;
    } else {
      assert !(|sj| > 0 && sj[0] == SEP);
      var pi := |ri| - |si|;
      var pj := |ri| - |sj|;
      assert ri[pi..] == si && ri[pj..] == sj;
      // Both paths share the prefix that `Join` puts before the name.
      var prefix := if root == [] || root[|root| - 1] == SEP then root else root + [SEP];
      assert ri == prefix + si && ri == prefix + sj;
      assert si == ri[|prefix|..] == sj;
    }
    NatToStringInjective(i, j);
  }

  /** Every attempt lies directly inside the destination folder when the
      folder is written as `dirname` writes one (empty, the root, or with
      no trailing separator) and the name holds no separator. */
  lemma CandidateIsInRoot(root: string, base: string, i: nat)
    requires root == [] || root[|root| - 1] != SEP || AllSeps(root)
    requires SEP !in base
    ensures Dirname(Candidate(root, base, i)) == root
  {
    DirnameOfJoin(root, CandidateName(base, i));
  }

  /** The numbered paths tried before attempt `n + 1`. */
  ghost function Attempts(root: string, base: string, n: nat): set<string>
  {
    if n == 0 then {} else Attempts(root, base, n - 1) + {Candidate(root, base, n)}
  }

  /** A later attempt is never one of the paths already tried. */
  lemma {:induction false} LaterAttemptIsNew(root: string, base: string, n: nat, m: nat)
    requires m > n
    ensures Candidate(root, base, m) !in Attempts(root, base, n)
  {
    if n > 0 {
      LaterAttemptIsNew(root, base, n - 1, m);
      if Candidate(root, base, m) == Candidate(root, base, n) {
        CandidateInjective(root, base, m, n);
        assert false;
      }
    }
  }

  /** The attempts are all different paths. */
  lemma {:induction false} AttemptsCardinality(root: string, base: string, n: nat)
    ensures |Attempts(root, base, n)| == n
  {
    if n > 0 {
      AttemptsCardinality(root, base, n - 1);
      LaterAttemptIsNew(root, base, n - 1, n);
    }
  }

  lemma {:induction false} SubsetCardinality(a: set<string>, b: set<string>)
    requires a <= b
    ensures |a| <= |b|
  {
    if a != {} {
      var x :| x in a;
      SubsetCardinality(a - {x}, b - {x});
    }
  }

  /** When attempt `n` is taken as well, the taken attempts still fit in
      the filesystem: the search cannot go on for ever. */
  lemma NextAttemptTaken(root: string, base: string, fs: set<string>, n: nat)
    requires n >= 1
    requires Attempts(root, base, n - 1) <= fs
    requires Candidate(root, base, n) in fs
    ensures Attempts(root, base, n) <= fs
    ensures n <= |fs|
  {
    AttemptsCardinality(root, base, n);
    SubsetCardinality(Attempts(root, base, n), fs);
  }

  /** The search: return the plain path when it is free, otherwise the
      first free numbered path. */
  method EnsureUniqueDest(destRoot: string, baseName: string, fs: set<string>) returns (dest: string)
    ensures dest !in fs
    ensures Join(destRoot, baseName) !in fs ==> dest == Join(destRoot, baseName)
    ensures exists i: nat :: IsFirstFree(destRoot, baseName, fs, i) && dest == Candidate(destRoot, baseName, i)
  {
    var candidate := Join(destRoot, baseName);
    if candidate !in fs {
      assert IsFirstFree(destRoot, baseName, fs, 0);
      return candidate;
    }
    var idx: nat := 1;
    while true
      invariant idx >= 1 && idx - 1 <= |fs|
      invariant Attempts(destRoot, baseName, idx - 1) <= fs
      invariant forall j: nat :: j < idx ==> Candidate(destRoot, baseName, j) in fs
      decreases |fs| - (idx - 1)
    {
      var candidateI := Join(destRoot, baseName + "_" + NatToString(idx));
      assert candidateI == Candidate(destRoot, baseName, idx);
      if candidateI !in fs {
        assert IsFirstFree(destRoot, baseName, fs, idx);
        return candidateI;
      }
      NextAttemptTaken(destRoot, baseName, fs, idx);
      idx := idx + 1;
    }
  }
}
