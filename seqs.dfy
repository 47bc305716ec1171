/** Sequence facts shared by the stages of the render clean-up pipeline:
    subsequences, duplicate-freedom, first occurrences and the
    order-preserving de-duplication used before paths are returned. */
module Seqs {

  /** `xs` is obtained from `ys` by deleting elements, keeping the order. */
  ghost predicate IsSubsequence<T>(xs: seq<T>, ys: seq<T>)
    decreases |ys|
  {
    if ys == [] then xs == []
    else
      IsSubsequence(xs, ys[..|ys| - 1])
      || (xs != [] && xs[|xs| - 1] == ys[|ys| - 1]
          && IsSubsequence(xs[..|xs| - 1], ys[..|ys| - 1]))
  }

  ghost predicate NoDuplicates<T>(s: seq<T>)
  {
    forall i, j :: 0 <= i < j < |s| ==> s[i] != s[j]
  }

  /** Every element of a subsequence is an element of the sequence. */
  lemma {:induction false} SubsequenceMembers<T>(xs: seq<T>, ys: seq<T>, x: T)
    requires IsSubsequence(xs, ys)
    requires x in xs
    ensures x in ys
    decreases |ys|
  {
    var ys' := ys[..|ys| - 1];
    if IsSubsequence(xs, ys') {
      SubsequenceMembers(xs, ys', x);
    } else {
      var xs' := xs[..|xs| - 1];
      assert xs == xs' + [xs[|xs| - 1]];
      if x in xs' {
        SubsequenceMembers(xs', ys', x);
      }
    }
  }

  /** Index of the first occurrence of `x` in `s`, or `|s|` when absent. */
  function FirstIndex<T(==)>(s: seq<T>, x: T): (r: nat)
    ensures r <= |s|
    ensures x in s <==> r < |s|
    ensures x in s ==> s[r] == x && x !in s[..r]
  {
    if s == [] then 0
    else if x in s[..|s| - 1] then FirstIndex(s[..|s| - 1], x)
    else if s[|s| - 1] == x then |s| - 1
    else |s|
  }

  /** The elements of `s` at their first occurrences, in order: Python's
      "seen set" de-duplication. */
  function Dedup<T(==)>(s: seq<T>): seq<T>
  {
    if s == [] then []
    else if s[|s| - 1] in s[..|s| - 1] then Dedup(s[..|s| - 1])
    else Dedup(s[..|s| - 1]) + [s[|s| - 1]]
  }

  /** De-duplication keeps exactly the set of elements. */
  lemma {:induction false} DedupMembers<T>(s: seq<T>, x: T)
    ensures x in Dedup(s) <==> x in s
  {
    if s != [] {
      var init := s[..|s| - 1];
      DedupMembers(init, x);
      assert s == init + [s[|s| - 1]];
    }
  }

  /** De-duplication leaves no element twice. */
  lemma {:induction false} DedupNoDuplicates<T>(s: seq<T>)
    ensures NoDuplicates(Dedup(s))
  {
    if s != [] {
      var init := s[..|s| - 1];
      var last := s[|s| - 1];
      DedupNoDuplicates(init);
      if last !in init {
        DedupMembers(init, last);
        var d := Dedup(init);
        assert Dedup(s) == d + [last];
        forall i, j | 0 <= i < j < |Dedup(s)|
          ensures Dedup(s)[i] != Dedup(s)[j]
        {
          if j == |d| {
            assert Dedup(s)[i] == d[i];
            assert d[i] in d;
          }
        }
      }
    }
  }

  /** De-duplication only deletes elements: its result is a subsequence. */
  lemma {:induction false} DedupIsSubsequence<T>(s: seq<T>)
    ensures IsSubsequence(Dedup(s), s)
  {
    if s != [] {
      var init := s[..|s| - 1];
      var last := s[|s| - 1];
      DedupIsSubsequence(init);
      if last !in init {
        var d := Dedup(init);
        assert (d + [last])[..|d|] == d;
      }
    }
  }

  /** Kept elements appear in the order of their first occurrences. */
  lemma {:induction false} DedupFirstOccurrenceOrder<T>(s: seq<T>)
    ensures forall i, j :: 0 <= i < j < |Dedup(s)| ==>
      FirstIndex(s, Dedup(s)[i]) < FirstIndex(s, Dedup(s)[j])
  {
    if s != [] {
      var init := s[..|s| - 1];
      var last := s[|s| - 1];
      var d := Dedup(init);
      DedupFirstOccurrenceOrder(init);
      forall y | y in d
        ensures FirstIndex(s, y) == FirstIndex(init, y) < |init|
      {
        DedupMembers(init, y);
      }
      if last !in init {
        assert Dedup(s) == d + [last];
        assert FirstIndex(s, last) == |init|;
        forall i, j | 0 <= i < j < |Dedup(s)|
          ensures FirstIndex(s, Dedup(s)[i]) < FirstIndex(s, Dedup(s)[j])
        {
          assert Dedup(s)[i] == d[i] && d[i] in d;
          if j < |d| {
            assert Dedup(s)[j] == d[j] && d[j] in d;
          }
        }
      }
    }
  }

  /** Appending an element already present leaves the de-duplication
      unchanged; a new one is added at the end. */
  lemma DedupSnoc<T>(s: seq<T>, x: T)
    ensures Dedup(s + [x]) == if x in s then Dedup(s) else Dedup(s) + [x]
  {
    assert (s + [x])[..|s|] == s;
  }
}
