/** The three retention rules of `RenderCleanup.apply_cleanup_rules`, applied
    to one (shot, task) group after a stable sort by creation time. Each rule
    looks only at its own status bucket: every "na" version is selected, all
    "innote" versions but the newest, and all "note" versions but the two
    newest. */
module Retention {
  import opened Versions
  import opened Seqs

  ghost predicate SortedByCreated(s: seq<Version>)
  {
    forall i, j :: 0 <= i < j < |s| ==> s[i].createdAt <= s[j].createdAt
  }

  /** The versions of `s` created at time `t`, in their order in `s`. A sort
      is stable when it leaves each of these unchanged. */
  function AtTime(s: seq<Version>, t: int): seq<Version>
  {
    if s == [] then []
    else
      var v := s[|s| - 1];
      AtTime(s[..|s| - 1], t) + (if v.createdAt == t then [v] else [])
  }

  /** Inserts `v` after every element not newer than it. */
  function InsertByCreated(s: seq<Version>, v: Version): (r: seq<Version>)
    ensures |r| == |s| + 1
  {
    if s == [] || s[|s| - 1].createdAt <= v.createdAt then s + [v]
    else InsertByCreated(s[..|s| - 1], v) + [s[|s| - 1]]
  }

  /** `sorted(versions, key=lambda v: v.get('created_at'))`: a stable
      insertion sort. It keeps the number of versions; `SortIsStableSort`
      states the rest. */
  function SortByCreated(s: seq<Version>): (r: seq<Version>)
    ensures |r| == |s|
  {
    if s == [] then [] else InsertByCreated(SortByCreated(s[..|s| - 1]), s[|s| - 1])
  }

  /** The versions of `s` whose status is `status`, in their order in `s`
      (the list comprehensions of the three rules). It is no longer than
      `s` and holds only versions of that status. */
  function Bucket(s: seq<Version>, status: string): (r: seq<Version>)
    ensures |r| <= |s|
    ensures forall i :: 0 <= i < |r| ==> r[i].status == status
  {
    if s == [] then []
    else
      var v := s[|s| - 1];
      Bucket(s[..|s| - 1], status) + (if v.status == status then [v] else [])
  }

  /** Rule 1: every "na" version; it selects "na" versions only. */
  function RuleNa(sorted: seq<Version>): (r: seq<Version>)
    ensures forall i :: 0 <= i < |r| ==> r[i].status == NA
  {
    Bucket(sorted, NA)
  }

  /** Rule 2: `innote_versions[:-1]` when there is more than one. The
      selection is a leading part of the "innote" bucket that leaves
      exactly one version out whenever the bucket is not empty. */
  function RuleInNote(sorted: seq<Version>): (r: seq<Version>)
    ensures r <= Bucket(sorted, IN_NOTE)
    ensures var k := |Bucket(sorted, IN_NOTE)|; k - |r| == (if k < 1 then k else 1)
  {
    var b := Bucket(sorted, IN_NOTE);
    if |b| > 1 then b[..|b| - 1] else []
  }

  /** Rule 3: `note_versions[:-2]` when there are more than two. The
      selection is a leading part of the "note" bucket that leaves two
      versions out, or all of them when there are fewer than two. */
  function RuleNote(sorted: seq<Version>): (r: seq<Version>)
    ensures r <= Bucket(sorted, NOTE)
    ensures var k := |Bucket(sorted, NOTE)|; k - |r| == (if k < 2 then k else 2)
  {
    var b := Bucket(sorted, NOTE);
    if |b| > 2 then b[..|b| - 2] else []
  }

  /** The versions of one group selected for removal, rule by rule: the
      "na" ones first, then "innote", then "note", and no other status. */
  function SelectForRemoval(group: seq<Version>): (r: seq<Version>)
    ensures forall i :: 0 <= i < |r| ==> r[i].status == NA || r[i].status == IN_NOTE || r[i].status == NOTE
  {
    var sorted := SortByCreated(group);
    RuleNa(sorted) + RuleInNote(sorted) + RuleNote(sorted)
  }

  // ---------------------------------------------------------------------
  // The sort

  lemma AtTimeSnoc(s: seq<Version>, v: Version, t: int)
    ensures AtTime(s + [v], t) == AtTime(s, t) + (if v.createdAt == t then [v] else [])
  {
    assert (s + [v])[..|s|] == s;
  }

  lemma {:induction false} InsertPermutes(s: seq<Version>, v: Version)
    ensures multiset(InsertByCreated(s, v)) == multiset(s) + multiset{v}
  {
    if s != [] && s[|s| - 1].createdAt > v.createdAt {
      var init := s[..|s| - 1];
      InsertPermutes(init, v);
      assert s == init + [s[|s| - 1]];
    }
  }

  lemma {:induction false} InsertKeepsSorted(s: seq<Version>, v: Version)
    requires SortedByCreated(s)
    ensures SortedByCreated(InsertByCreated(s, v))
  {
    if s != [] && s[|s| - 1].createdAt > v.createdAt {
      var init := s[..|s| - 1];
      var last := s[|s| - 1];
      InsertKeepsSorted(init, v);
      InsertPermutes(init, v);
      var r' := InsertByCreated(init, v);
      forall i | 0 <= i < |r'| ensures r'[i].createdAt <= last.createdAt {
        assert r'[i] in multiset(r');
        if r'[i] != v {
          assert r'[i] in init;
        }
      }
    }
  }

  /** Insertion puts `v` after every element created at the same time. */
  lemma {:induction false} InsertStable(s: seq<Version>, v: Version, t: int)
    ensures AtTime(InsertByCreated(s, v), t) == AtTime(s, t) + (if v.createdAt == t then [v] else [])
  {
    if s == [] || s[|s| - 1].createdAt <= v.createdAt {
      AtTimeSnoc(s, v, t);
    } else {
      var init := s[..|s| - 1];
      var last := s[|s| - 1];
      assert s == init + [last];
      InsertStable(init, v, t);
      AtTimeSnoc(InsertByCreated(init, v), last, t);
      AtTimeSnoc(init, last, t);
    }
  }

  /** The sort returns the group ordered by creation time, as a permutation
      of it, and keeps the fetch order among versions created at the same
      time (stability). */
  lemma {:induction false} SortIsStableSort(s: seq<Version>)
    ensures SortedByCreated(SortByCreated(s))
    ensures multiset(SortByCreated(s)) == multiset(s)
    ensures |SortByCreated(s)| == |s|
    ensures forall t :: AtTime(SortByCreated(s), t) == AtTime(s, t)
  {
    if s != [] {
      var init := s[..|s| - 1];
      var last := s[|s| - 1];
      assert s == init + [last];
      SortIsStableSort(init);
      InsertKeepsSorted(SortByCreated(init), last);
      InsertPermutes(SortByCreated(init), last);
      forall t ensures AtTime(SortByCreated(s), t) == AtTime(s, t) {
        InsertStable(SortByCreated(init), last, t);
      }
    }
  }

  /** The service already returns versions in creation order; the sort is
      then the identity. */
  lemma {:induction false} SortOfSortedIsIdentity(s: seq<Version>)
    requires SortedByCreated(s)
    ensures SortByCreated(s) == s
  {
    if s != [] {
      var init := s[..|s| - 1];
      assert SortedByCreated(init);
      SortOfSortedIsIdentity(init);
      assert s == init + [s[|s| - 1]];
    }
  }

  // ---------------------------------------------------------------------
  // Status buckets

  lemma {:induction false} BucketMembers(s: seq<Version>, status: string, v: Version)
    ensures v in Bucket(s, status) <==> v in s && v.status == status
  {
    if s != [] {
      var init := s[..|s| - 1];
      BucketMembers(init, status, v);
      assert s == init + [s[|s| - 1]];
    }
  }

  lemma {:induction false} BucketMultiplicity(s: seq<Version>, status: string, v: Version)
    ensures multiset(Bucket(s, status))[v] == if v.status == status then multiset(s)[v] else 0
  {
    if s != [] {
      var init := s[..|s| - 1];
      BucketMultiplicity(init, status, v);
      assert s == init + [s[|s| - 1]];
    }
  }

  /** Permuting a group permutes each of its buckets. */
  lemma BucketOfPermutation(a: seq<Version>, b: seq<Version>, status: string)
    requires multiset(a) == multiset(b)
    ensures multiset(Bucket(a, status)) == multiset(Bucket(b, status))
  {
    forall v ensures multiset(Bucket(a, status))[v] == multiset(Bucket(b, status))[v] {
      BucketMultiplicity(a, status, v);
      BucketMultiplicity(b, status, v);
    }
  }

  lemma {:induction false} BucketKeepsSorted(s: seq<Version>, status: string)
    requires SortedByCreated(s)
    ensures SortedByCreated(Bucket(s, status))
  {
    if s != [] {
      var init := s[..|s| - 1];
      var last := s[|s| - 1];
      assert SortedByCreated(init);
      BucketKeepsSorted(init, status);
      var b := Bucket(init, status);
      forall i | 0 <= i < |b| ensures b[i].createdAt <= last.createdAt {
        BucketMembers(init, status, b[i]);
      }
    }
  }

  lemma {:induction false} BucketAtTimeCommute(s: seq<Version>, status: string, t: int)
    ensures AtTime(Bucket(s, status), t) == Bucket(AtTime(s, t), status)
  {
    if s != [] {
      var init := s[..|s| - 1];
      var last := s[|s| - 1];
      BucketAtTimeCommute(init, status, t);
      var b := Bucket(init, status);
      var a := AtTime(init, t);
      if last.status == status {
        AtTimeSnoc(b, last, t);
      } else {
        assert b + [] == b;
      }
      if last.createdAt == t {
        assert (a + [last])[..|a|] == a;
      } else {
        assert a + [] == a;
      }
    }
  }

  /** A status bucket of the sorted group holds exactly that bucket of the
      group, in creation order, ties in fetch order: "newest" is judged
      inside the bucket only. */
  lemma BucketOfSorted(g: seq<Version>, status: string)
    ensures multiset(Bucket(SortByCreated(g), status)) == multiset(Bucket(g, status))
    ensures |Bucket(SortByCreated(g), status)| == |Bucket(g, status)|
    ensures SortedByCreated(Bucket(SortByCreated(g), status))
    ensures forall t :: AtTime(Bucket(SortByCreated(g), status), t) == AtTime(Bucket(g, status), t)
  {
    SortIsStableSort(g);
    BucketOfPermutation(SortByCreated(g), g, status);
    assert |multiset(Bucket(SortByCreated(g), status))| == |multiset(Bucket(g, status))|;
    BucketKeepsSorted(SortByCreated(g), status);
    forall t ensures AtTime(Bucket(SortByCreated(g), status), t) == AtTime(Bucket(g, status), t) {
      BucketAtTimeCommute(SortByCreated(g), status, t);
      BucketAtTimeCommute(g, status, t);
    }
  }

  /** A version of the group with that status is in the sorted bucket. */
  lemma InSortedBucket(g: seq<Version>, status: string, v: Version)
    requires v in g && v.status == status
    ensures v in Bucket(SortByCreated(g), status)
  {
    BucketOfSorted(g, status);
    BucketMembers(g, status, v);
    assert v in multiset(Bucket(g, status));
  }

  lemma BucketSnoc(s: seq<Version>, v: Version, status: string)
    ensures Bucket(s + [v], status) == Bucket(s, status) + (if v.status == status then [v] else [])
  {
    assert (s + [v])[..|s|] == s;
  }

  // ---------------------------------------------------------------------
  // The rules

  /** Each rule selects only versions of its own status, taken from the
      sorted group; so no version is selected by two rules. */
  lemma RuleStatuses(sorted: seq<Version>, v: Version)
    ensures v in RuleNa(sorted) ==> v in sorted && v.status == NA
    ensures v in RuleInNote(sorted) ==> v in sorted && v.status == IN_NOTE
    ensures v in RuleNote(sorted) ==> v in sorted && v.status == NOTE
  {
    BucketMembers(sorted, NA, v);
    BucketMembers(sorted, IN_NOTE, v);
    BucketMembers(sorted, NOTE, v);
    var bi := Bucket(sorted, IN_NOTE);
    var bn := Bucket(sorted, NOTE);
    if |bi| > 1 && v in bi[..|bi| - 1] {
      assert v in bi;
    }
    if |bn| > 2 && v in bn[..|bn| - 2] {
      assert v in bn;
    }
  }

  /** Rule 1 selects every "na" version of the group, however many. */
  lemma RuleNaSelectsAll(g: seq<Version>)
    ensures multiset(RuleNa(SortByCreated(g))) == multiset(Bucket(g, NA))
    ensures |RuleNa(SortByCreated(g))| == |Bucket(g, NA)|
    ensures forall v :: v in g && v.status == NA ==> v in RuleNa(SortByCreated(g))
  {
    BucketOfSorted(g, NA);
    forall v | v in g && v.status == NA ensures v in RuleNa(SortByCreated(g)) {
      BucketMembers(g, NA, v);
      assert v in multiset(Bucket(g, NA));
    }
  }

  /** Cutting a list before its last `n` elements and joining the two
      parts gives the list back. */
  lemma SplitLast(b: seq<Version>, n: nat)
    requires n <= |b|
    ensures b[..|b| - n] + b[|b| - n..] == b
  {
  }

  /** In a sorted list the last element is the newest, and everything
      before the last `n` is no newer than the oldest of them. */
  lemma NewestAtEnd(b: seq<Version>, n: nat, v: Version)
    requires SortedByCreated(b) && 1 <= n <= |b|
    requires v in b
    ensures v.createdAt <= b[|b| - 1].createdAt
    ensures v !in b[|b| - n..] ==> v.createdAt <= b[|b| - n].createdAt
  {
    var i :| 0 <= i < |b| && b[i] == v;
    if i >= |b| - n {
      assert b[|b| - n..][i - (|b| - n)] == v;
    }
  }

  /** Rule 2 on an already sorted group. */
  lemma RuleInNoteOnSorted(sorted: seq<Version>, v: Version)
    requires SortedByCreated(sorted)
    ensures var b := Bucket(sorted, IN_NOTE);
      |b| > 1 ==>
      && RuleInNote(sorted) + b[|b| - 1..] == b
      && (v in sorted && v.status == IN_NOTE ==> v.createdAt <= b[|b| - 1].createdAt)
  {
    var b := Bucket(sorted, IN_NOTE);
    if |b| > 1 {
      assert RuleInNote(sorted) + b[|b| - 1..] == b by {
        SplitLast(b, 1);
      }
      if v in sorted && v.status == IN_NOTE {
        assert v.createdAt <= b[|b| - 1].createdAt by {
          BucketKeepsSorted(sorted, IN_NOTE);
          BucketMembers(sorted, IN_NOTE, v);
          NewestAtEnd(b, 1, v);
        }
      }
    }
  }

  /** Rule 3 on an already sorted group. */
  lemma RuleNoteOnSorted(sorted: seq<Version>, v: Version)
    requires SortedByCreated(sorted)
    ensures var b := Bucket(sorted, NOTE);
      |b| > 2 ==>
      && RuleNote(sorted) + b[|b| - 2..] == b
      && (v in sorted && v.status == NOTE && v !in b[|b| - 2..] ==>
            v.createdAt <= b[|b| - 2].createdAt)
  {
    var b := Bucket(sorted, NOTE);
    if |b| > 2 {
      assert RuleNote(sorted) + b[|b| - 2..] == b by {
        SplitLast(b, 2);
      }
      if v in sorted && v.status == NOTE && v !in b[|b| - 2..] {
        assert v.createdAt <= b[|b| - 2].createdAt by {
          BucketKeepsSorted(sorted, NOTE);
          BucketMembers(sorted, NOTE, v);
          NewestAtEnd(b, 2, v);
        }
      }
    }
  }

  /** Rule 2: with k "innote" versions, none is selected when k <= 1;
      otherwise the k - 1 oldest are, and the survivor is the newest
      "innote" version of the group. */
  lemma RuleInNoteKeepsNewest(g: seq<Version>)
    ensures |Bucket(SortByCreated(g), IN_NOTE)| == |Bucket(g, IN_NOTE)|
    ensures |Bucket(g, IN_NOTE)| <= 1 ==> RuleInNote(SortByCreated(g)) == []
    ensures var b := Bucket(SortByCreated(g), IN_NOTE);
      |b| > 1 ==>
      && RuleInNote(SortByCreated(g)) + b[|b| - 1..] == b
      && |RuleInNote(SortByCreated(g))| == |b| - 1
      && forall v :: v in g && v.status == IN_NOTE ==> v.createdAt <= b[|b| - 1].createdAt
  {
    var sorted := SortByCreated(g);
    BucketOfSorted(g, IN_NOTE);
    SortIsStableSort(g);
    if |Bucket(sorted, IN_NOTE)| > 1 {
      RuleInNoteOnSorted(sorted, Bucket(sorted, IN_NOTE)[0]);
    }
    forall v | v in g && v.status == IN_NOTE && |Bucket(sorted, IN_NOTE)| > 1
      ensures v.createdAt <= Bucket(sorted, IN_NOTE)[|Bucket(sorted, IN_NOTE)| - 1].createdAt
    {
      assert v in multiset(sorted);
      RuleInNoteOnSorted(sorted, v);
    }
  }

  /** Rule 3: with k "note" versions, none is selected when k <= 2;
      otherwise the k - 2 oldest are, and the two survivors are the two
      newest "note" versions of the group. */
  lemma RuleNoteKeepsTwoNewest(g: seq<Version>)
    ensures |Bucket(SortByCreated(g), NOTE)| == |Bucket(g, NOTE)|
    ensures |Bucket(g, NOTE)| <= 2 ==> RuleNote(SortByCreated(g)) == []
    ensures var b := Bucket(SortByCreated(g), NOTE);
      |b| > 2 ==>
      && RuleNote(SortByCreated(g)) + b[|b| - 2..] == b
      && |RuleNote(SortByCreated(g))| == |b| - 2
      && forall v :: v in g && v.status == NOTE && v !in b[|b| - 2..] ==>
           v.createdAt <= b[|b| - 2].createdAt
  {
    var sorted := SortByCreated(g);
    BucketOfSorted(g, NOTE);
    SortIsStableSort(g);
    if |Bucket(sorted, NOTE)| > 2 {
      RuleNoteOnSorted(sorted, Bucket(sorted, NOTE)[0]);
    }
    forall v | v in g && v.status == NOTE && |Bucket(sorted, NOTE)| > 2
        && v !in Bucket(sorted, NOTE)[|Bucket(sorted, NOTE)| - 2..]
      ensures v.createdAt <= Bucket(sorted, NOTE)[|Bucket(sorted, NOTE)| - 2].createdAt
    {
      assert v in multiset(sorted);
      RuleNoteOnSorted(sorted, v);
    }
  }

  /** A selected version belongs to the group and has one of the three
      rule statuses; versions of any other status are never selected. */
  lemma SelectedVersionsHaveRuleStatus(g: seq<Version>, v: Version)
    requires v in SelectForRemoval(g)
    ensures v in g
    ensures v.status == NA || v.status == IN_NOTE || v.status == NOTE
  {
    var sorted := SortByCreated(g);
    RuleStatuses(sorted, v);
    SortIsStableSort(g);
    assert v in multiset(sorted);
  }

  /** How many versions one group contributes: every "na" one, plus k - 1
      of k > 1 "innote" ones, plus k - 2 of k > 2 "note" ones. */
  lemma SelectionSize(g: seq<Version>)
    ensures var ki := |Bucket(g, IN_NOTE)|;
      var kn := |Bucket(g, NOTE)|;
      |SelectForRemoval(g)| == |Bucket(g, NA)|
        + (if ki > 1 then ki - 1 else 0) + (if kn > 2 then kn - 2 else 0)
  {
    RuleNaSelectsAll(g);
    RuleInNoteKeepsNewest(g);
    RuleNoteKeepsTwoNewest(g);
  }

  lemma {:induction false} BucketOfUniform(s: seq<Version>, status: string)
    requires forall v :: v in s ==> v.status == status
    ensures Bucket(s, status) == s
    ensures forall other :: other != status ==> Bucket(s, other) == []
  {
    if s != [] {
      var init := s[..|s| - 1];
      assert s == init + [s[|s| - 1]];
      assert s[|s| - 1] in s;
      BucketOfUniform(init, status);
    }
  }

  /** Four "note" versions created one after another: the two oldest are
      selected, the two newest kept. */
  lemma FourNotesSelectTwoOldest(a: Version, b: Version, c: Version, d: Version)
    requires a.status == NOTE && b.status == NOTE && c.status == NOTE && d.status == NOTE
    requires a.createdAt < b.createdAt < c.createdAt < d.createdAt
    ensures SelectForRemoval([a, b, c, d]) == [a, b]
  {
    var g := [a, b, c, d];
    assert SortedByCreated(g);
    SortOfSortedIsIdentity(g);
    BucketOfUniform(g, NOTE);
    assert Bucket(g, NA) == [] && Bucket(g, IN_NOTE) == [];
    assert g[..2] == [a, b];
  }

  lemma TwoStatusBuckets(x: Version, y: Version)
    requires x.status == NA && y.status == IN_NOTE
    ensures Bucket([x, y], NA) == [x]
    ensures Bucket([x, y], IN_NOTE) == [y]
    ensures Bucket([x, y], NOTE) == []
  {
    assert NA != IN_NOTE && NA != NOTE && IN_NOTE != NOTE;
    assert [x, y] == [x] + [y] && [x] == [] + [x];
    BucketSnoc([], x, NA);
    BucketSnoc([x], y, NA);
    BucketSnoc([], x, IN_NOTE);
    BucketSnoc([x], y, IN_NOTE);
    BucketSnoc([], x, NOTE);
    BucketSnoc([x], y, NOTE);
  }

  lemma SingletonHolding(r: seq<Version>, x: Version)
    requires |r| == 1 && x in r
    ensures r == [x]
  {
  }

  /** One "na" and one "innote" version: only the "na" one is selected. */
  lemma NaAndSingleInNote(x: Version, y: Version)
    requires x.status == NA && y.status == IN_NOTE
    ensures SelectForRemoval([x, y]) == [x]
  {
    var g := [x, y];
    TwoStatusBuckets(x, y);
    RuleNaSelectsAll(g);
    RuleInNoteKeepsNewest(g);
    RuleNoteKeepsTwoNewest(g);
    var r := RuleNa(SortByCreated(g));
    assert |r| == 1 && x in r;
    SingletonHolding(r, x);
  }
}
