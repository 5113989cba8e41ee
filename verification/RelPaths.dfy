/**
 Mount-relative paths as the backends key them (`""` is the root, then `"a"`, `"a/b"`):
 the parent of a path, and being below one.
 */
module RelPaths {

  /** The index of the last slash, or -1. */
  function LastSlash(s: string): (i: int)
    ensures -1 <= i < |s|
    ensures i >= 0 ==> s[i] == '/'
    ensures forall j :: i < j < |s| ==> s[j] != '/'
  {
    if s == "" then -1
    else if s[|s| - 1] == '/' then |s| - 1
    else LastSlash(s[..|s| - 1])
  }

  /** `""` for a top-level entry. */
  function ParentOf(rel: string): (p: string)
    ensures |p| <= |rel| && (rel != "" ==> |p| < |rel|)
  {
    var i := LastSlash(rel);
    if i >= 0 then rel[..i] else ""
  }

  /** `rel` starts with `dir` and a slash. */
  predicate IsBelow(rel: string, dir: string) {
    |dir| < |rel| && rel[..|dir|] == dir && rel[|dir|] == '/'
  }

  predicate AtOrBelow(rel: string, dir: string) {
    rel == dir || IsBelow(rel, dir)
  }

  /** What is below `dir` is a child of it, or has its parent below it. */
  lemma BelowParent(rel: string, dir: string)
    ensures IsBelow(rel, dir) <==> '/' in rel && AtOrBelow(ParentOf(rel), dir)
  {
    var i := LastSlash(rel);
    if IsBelow(rel, dir) {
      assert rel[|dir|] == '/' && i >= |dir|;
      assert rel[..i][..|dir|] == rel[..|dir|];
    }
    if i >= 0 && AtOrBelow(rel[..i], dir) {
      assert rel[..i][..|dir|] == rel[..|dir|];
    }
  }

  /** Putting something in front of a slash moves the last slash along. */
  lemma LastSlashAfter(a: string, s: string)
    requires '/' in s
    ensures LastSlash(a + s) == |a| + LastSlash(s)
  {
    var j := LastSlash(s);
    assert (a + s)[|a| + j] == '/';
    assert forall k :: |a| + j < k < |a + s| ==> (a + s)[k] == s[k - |a|];
  }

  /** The parent of `a` followed by a rest with a slash in it keeps `a`. */
  lemma ParentAfter(a: string, s: string)
    requires '/' in s
    ensures ParentOf(a + s) == a + s[..LastSlash(s)]
  {
    LastSlashAfter(a, s);
    assert (a + s)[..|a| + LastSlash(s)] == a + s[..LastSlash(s)];
  }

  lemma BelowTransitive(a: string, b: string, c: string)
    requires AtOrBelow(a, b) && AtOrBelow(b, c)
    ensures AtOrBelow(a, c)
  {
    if IsBelow(a, b) && IsBelow(b, c) {
      assert a[..|c|] == a[..|b|][..|c|];
    }
  }

  /** Of two directories a path is below, one is at or below the other. */
  lemma BelowBoth(rel: string, a: string, b: string)
    requires AtOrBelow(rel, a) && AtOrBelow(rel, b) && |a| <= |b|
    ensures AtOrBelow(b, a)
  {
    assert rel[..|b|][..|a|] == rel[..|a|];
  }
}
