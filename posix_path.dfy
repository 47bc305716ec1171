/** The two POSIX path operations the script uses: `os.path.join` with two
    arguments and `os.path.dirname`, with Python's posixpath semantics. */
module PosixPath {

  const SEP: char := '/'

  /** `os.path.join(a, b)`: an absolute `b` replaces `a`; otherwise a
      separator is inserted unless `a` is empty or already ends in one, so
      the result starts with `a` and is at least as long as both parts
      together. */
  function Join(a: string, b: string): (r: string)
    ensures |b| > 0 && b[0] == SEP ==> r == b
    ensures !(|b| > 0 && b[0] == SEP) ==> a <= r && |r| >= |a| + |b|
  {
    if |b| > 0 && b[0] == SEP then b
    else if a == [] || a[|a| - 1] == SEP then a + b
    else a + [SEP] + b
  }

  /** A relative second part ends the joined path. */
  lemma JoinEndsWith(a: string, b: string)
    requires !(|b| > 0 && b[0] == SEP)
    ensures var r := Join(a, b); r[|r| - |b|..] == b
  {
  }

  /** One past the last separator in `p`, or 0 when there is none
      (`p.rfind('/') + 1`). */
  function LastSepEnd(p: string): (i: nat)
    ensures i <= |p|
    ensures i > 0 ==> p[i - 1] == SEP
    ensures forall j :: i <= j < |p| ==> p[j] != SEP
  {
    if p == [] then 0
    else if p[|p| - 1] == SEP then |p|
    else LastSepEnd(p[..|p| - 1])
  }

  /** `s.rstrip('/')`. */
  function RStripSep(s: string): (r: string)
    ensures r <= s
    ensures r == [] || r[|r| - 1] != SEP
    ensures forall j :: |r| <= j < |s| ==> s[j] == SEP
  {
    if s != [] && s[|s| - 1] == SEP then RStripSep(s[..|s| - 1]) else s
  }

  predicate AllSeps(s: string)
  {
    forall j :: 0 <= j < |s| ==> s[j] == SEP
  }

  /** `os.path.dirname(p)`: everything up to the last separator, with
      trailing separators removed unless the head is made of separators
      only (the root). The directory is a prefix of the path, is empty when
      the path has no separator, and ends in a separator only when it is
      the root. */
  function Dirname(p: string): (r: string)
    ensures r <= p
    ensures SEP !in p ==> r == []
    ensures r == [] || r[|r| - 1] != SEP || AllSeps(r)
  {
    var head := p[..LastSepEnd(p)];
    if head != [] && !AllSeps(head) then RStripSep(head) else head
  }

  /** Appending text without separators does not move the last separator. */
  lemma {:induction false} LastSepEndAppend(q: string, name: string)
    requires SEP !in name
    ensures LastSepEnd(q + name) == LastSepEnd(q)
    decreases |name|
  {
    if name != [] {
      var init := name[..|name| - 1];
      assert name[|name| - 1] in name;
      assert SEP !in init by {
        forall c | c in init ensures c != SEP { assert c in name; }
      }
      assert (q + name)[..|q + name| - 1] == q + init;
      assert (q + name)[|q + name| - 1] != SEP;
      assert LastSepEnd(q + name) == LastSepEnd(q + init);
      LastSepEndAppend(q, init);
    } else {
      assert q + name == q;
    }
  }

  /** Joining a directory written as `dirname` writes one (empty, the
      root, or without a trailing separator) with a plain file name and
      taking `dirname` gives the directory back. */
  lemma DirnameOfJoin(dir: string, name: string)
    requires dir == [] || dir[|dir| - 1] != SEP || AllSeps(dir)
    requires SEP !in name
    ensures Dirname(Join(dir, name)) == dir
  {
    var p := Join(dir, name);
    assert name != [] ==> name[0] in name;
    if dir == [] {
      assert p == name;
    } else if dir[|dir| - 1] == SEP {
      assert p == dir + name;
      LastSepEndAppend(dir, name);
      assert p[..|dir|] == dir;
    } else {
      var head := dir + [SEP];
      assert p == head + name;
      LastSepEndAppend(head, name);
      assert LastSepEnd(p) == |head|;
      assert p[..|head|] == head;
      assert !AllSeps(head) by {
        assert head[|dir| - 1] != SEP;
      }
      assert head[..|head| - 1] == dir;
    }
  }
}
