/**
 The path helpers of the mount table (`src/fs/mount.rs`) on strings, and the proof that
 on normalized paths they are prefix, drop and append of component lists.
 */
module MountPaths {
  import opened Options
  import opened Paths

  /** A component that survives normalizing. */
  predicate ProperPart(p: string) {
    GoodPart(p) && p != "." && p != ".."
  }

  ghost predicate Proper(parts: Path) {
    forall p :: p in parts ==> ProperPart(p)
  }

  // The functions of the source.

  function Push(stack: Path, c: string): Path {
    if c == "" || c == "." then stack
    else if c == ".." then if stack == [] then [] else stack[..|stack| - 1]
    else stack + [c]
  }

  function Reduce(stack: Path, parts: seq<string>): Path
    decreases |parts|
  {
    if parts == [] then stack else Reduce(Push(stack, parts[0]), parts[1..])
  }

  function Normalize(s: string): string {
    Render(Reduce([], Split(s)))
  }

  predicate HasPrefix(path: string, mp: string) {
    mp == "/" || (mp <= path && (|mp| == |path| || path[|mp|] == '/'))
  }

  function TrimSlashes(s: string): string {
    if s != "" && s[0] == '/' then TrimSlashes(s[1..]) else s
  }

  function RelativeTo(path: string, mp: string): string {
    TrimSlashes(if mp != "/" && mp <= path then path[|mp|..] else path)
  }

  function PathStrip(fsPath: string, subdir: string): Option<string> {
    if subdir == "" then Some(fsPath)
    else if fsPath == subdir then Some("")
    else if subdir < fsPath && fsPath[|subdir|] == '/' then Some(fsPath[|subdir| + 1..])
    else None
  }

  function FsPath(subdir: string, rel: string): string {
    if subdir == "" then rel else if rel == "" then subdir else subdir + "/" + rel
  }

  /** A path inside a filesystem: components with slashes between. */
  function Rel(parts: Path): string {
    if parts == [] then "" else Slashed(parts)[1..]
  }

  // Splitting at a slash.

  lemma {:induction false} SplitAtSlash(a: string, b: string)
    ensures Split(a + "/" + b) == Split(a) + Split(b)
  {
    var s := a + "/" + b;
    if a == "" {
      assert s[1..] == b;
    } else {
      assert s[1..] == a[1..] + "/" + b;
      SplitAtSlash(a[1..], b);
    }
  }

  lemma ComponentsAtSlash(a: string, b: string)
    ensures Components(a + "/" + b) == Components(a) + Components(b)
  {
    SplitAtSlash(a, b);
    NonEmptyConcat(Split(a), Split(b));
  }

  lemma ComponentsOfNothing()
    ensures Components("") == []
  {
    NonEmptyCons("", []);
    assert [""] + [] == [""];
  }

  lemma ComponentsOfRel(parts: Path)
    requires Good(parts)
    ensures Components(Rel(parts)) == parts
  {
    ComponentsOfNothing();
    if parts != [] {
      ComponentsOfSlashed(parts);
      ComponentsAtSlash("", Rel(parts));
      assert Slashed(parts) == "" + "/" + Rel(parts);
    }
  }

  lemma {:induction false} SlashedConcat(a: Path, b: Path)
    ensures Slashed(a + b) == Slashed(a) + Slashed(b)
  {
    if a == [] {
      assert a + b == b;
    } else {
      assert (a + b)[1..] == a[1..] + b;
      SlashedConcat(a[1..], b);
    }
  }

  // Normalizing.

  lemma {:induction false} ReduceIsProper(stack: Path, parts: seq<string>)
    requires Proper(stack) && forall p :: p in parts ==> '/' !in p
    ensures Proper(Reduce(stack, parts))
    decreases |parts|
  {
    if parts != [] {
      assert parts[0] in parts;
      ReduceIsProper(Push(stack, parts[0]), parts[1..]);
    }
  }

  /** Without dots, normalizing only drops the empty pieces. */
  lemma {:induction false} ReduceKeeps(stack: Path, parts: seq<string>)
    requires Proper(NonEmpty(parts))
    ensures Reduce(stack, parts) == stack + NonEmpty(parts)
    decreases |parts|
  {
    if parts == [] {
      assert stack + [] == stack;
    } else {
      var rest := NonEmpty(parts[1..]);
      assert forall p :: p in rest ==> p in NonEmpty(parts);
      if parts[0] == "" {
        assert [] + rest == rest;
      } else {
        assert NonEmpty(parts)[0] == parts[0] && ProperPart(parts[0]);
        assert stack + ([parts[0]] + rest) == (stack + [parts[0]]) + rest;
      }
      ReduceKeeps(Push(stack, parts[0]), parts[1..]);
    }
  }

  lemma NormalizeProper(s: string)
    requires Proper(Components(s))
    ensures Normalize(s) == Render(Components(s))
  {
    ReduceKeeps([], Split(s));
    assert [] + Components(s) == Components(s);
  }

  /** Every normalized path is the rendering of proper components, and normalizing again changes nothing. */
  lemma NormalizeIsIdempotent(s: string)
    ensures Proper(Reduce([], Split(s)))
    ensures Normalize(Normalize(s)) == Normalize(s)
  {
    SplitNoSlash(s);
    ReduceIsProper([], Split(s));
    var parts := Reduce([], Split(s));
    RoundTrip(parts);
    NormalizeProper(Normalize(s));
  }

  /** Appending: `normalize` of a mount point and a path below it. */
  lemma JoinIsAppend(q: Path, r: Path)
    requires Proper(q) && Proper(r)
    ensures Normalize(Render(q) + "/" + Rel(r)) == Render(q + r)
    ensures Normalize("/" + Rel(r)) == Render(r)
    ensures Normalize(Render(q) + "/" + Render(r)) == Render(q + r)
  {
    RoundTrip(q);
    RoundTrip(r);
    ComponentsOfRel(r);
    ComponentsOfNothing();
    ComponentsAtSlash(Render(q), Rel(r));
    ComponentsAtSlash("", Rel(r));
    ComponentsAtSlash(Render(q), Render(r));
    assert "" + "/" + Rel(r) == "/" + Rel(r);
    assert [] + r == r;
    NormalizeProper(Render(q) + "/" + Rel(r));
    NormalizeProper("/" + Rel(r));
    NormalizeProper(Render(q) + "/" + Render(r));
  }

  // Prefixes.

  lemma PrefixSplits(q: Path, p: Path)
    requires q <= p
    ensures p == q + p[|q|..] && Slashed(p) == Slashed(q) + Slashed(p[|q|..])
  {
    SlashedConcat(q, p[|q|..]);
  }

  /** `path_has_prefix` is the prefix order on components. */
  lemma HasPrefixIsPrefix(p: Path, q: Path)
    requires Good(p) && Good(q)
    ensures HasPrefix(Render(p), Render(q)) <==> q <= p
  {
    if q != [] {
      if q <= p {
        PrefixSplits(q, p);
        var tail := Slashed(p[|q|..]);
        assert tail == "" || tail[0] == '/';
        assert Render(p)[..|Slashed(q)|] == Slashed(q);
        assert tail != "" ==> Render(p)[|Slashed(q)|] == tail[0];
      }
      if HasPrefix(Render(p), Render(q)) {
        PrefixHasComponents(p, q);
      }
    }
  }

  lemma PrefixHasComponents(p: Path, q: Path)
    requires Good(p) && Good(q) && q != [] && HasPrefix(Render(p), Render(q))
    ensures q <= p
  {
    var path, mp := Render(p), Render(q);
    RoundTrip(p);
    RoundTrip(q);
    RenderedIsLonger(q);
    if |mp| < |path| {
      var t := path[|mp| + 1..];
      assert path == mp + "/" + t;
      ComponentsAtSlash(mp, t);
    } else {
      assert path == mp;
    }
  }

  lemma TrimSlashed(r: Path)
    requires Good(r)
    ensures TrimSlashes(Slashed(r)) == Rel(r)
  {
    if r != [] {
      var s := Slashed(r);
      assert GoodPart(r[0]);
      assert s[1..] == r[0] + Slashed(r[1..]);
      assert s[1..][0] == r[0][0];
    }
  }

  /** `relative_to` drops the mount point's components. */
  lemma RelativeIsDrop(p: Path, q: Path)
    requires Good(p) && Good(q) && q <= p
    ensures RelativeTo(Render(p), Render(q)) == Rel(p[|q|..])
  {
    PrefixSplits(q, p);
    TrimSlashed(p[|q|..]);
    if q == [] {
      assert p[0..] == p;
      if p == [] { assert TrimSlashes("/") == TrimSlashes(""); }
    } else {
      RenderedIsLonger(q);
      assert Render(p) == Render(q) + Slashed(p[|q|..]);
      assert Render(p)[|Render(q)|..] == Slashed(p[|q|..]);
    }
  }

  lemma RenderedIsLonger(q: Path)
    requires Good(q) && q != []
    ensures Render(q) != "/"
  {
    assert GoodPart(q[0]);
    assert |Slashed(q)| >= 1 + |q[0]|;
  }

  /** Of two nested mount points the deeper one has the longer string. */
  lemma LengthFollowsDepth(a: Path, b: Path)
    requires Good(b) && a <= b
    ensures |Render(a)| <= |Render(b)| && (|Render(a)| == |Render(b)| <==> a == b)
  {
    PrefixSplits(a, b);
    if a != b {
      var tail := b[|a|..];
      assert tail[0] in b && GoodPart(tail[0]);
      assert |Slashed(tail)| >= 2;
    }
  }

  // Paths inside a filesystem.

  lemma SlashedHasSlash(p: Path)
    requires p != []
    ensures Slashed(p) != "" && Slashed(p) == "/" + Rel(p)
  {
    assert Slashed(p)[0] == '/';
  }

  /** `fs_path` appends. */
  lemma FsPathIsAppend(s: Path, r: Path)
    requires Good(s) && Good(r)
    ensures FsPath(Rel(s), Rel(r)) == Rel(s + r)
  {
    SlashedConcat(s, r);
    if s == [] {
      assert s + r == r;
    } else if r == [] {
      assert s + r == s;
      RelIsNothing(s);
    } else {
      RelIsNothing(s);
      RelIsNothing(r);
      SlashedHasSlash(s);
      SlashedHasSlash(r);
      assert Slashed(s + r) == "/" + (Rel(s) + "/" + Rel(r));
      SlashedHasSlash(s + r);
    }
  }

  lemma RelIsNothing(p: Path)
    requires Good(p)
    ensures Rel(p) == "" <==> p == []
  {
    if p != [] {
      assert GoodPart(p[0]);
      assert Slashed(p)[1..] == p[0] + Slashed(p[1..]);
    }
  }

  lemma StripsPrefix(q: Path, r: Path)
    requires Good(q) && Good(r) && q != [] && r != []
    ensures PathStrip(Rel(q + r), Rel(q)) == Some(Rel(r))
  {
    FsPathIsAppend(q, r);
    RelIsNothing(q);
    RelIsNothing(r);
    var all := Rel(q + r);
    assert all == Rel(q) + "/" + Rel(r);
    assert all[..|Rel(q)|] == Rel(q) && all[|Rel(q)|] == '/';
    assert all[|Rel(q)| + 1..] == Rel(r);
  }

  lemma StripsOnlyPrefix(p: Path, q: Path)
    requires Good(p) && Good(q) && q != [] && PathStrip(Rel(p), Rel(q)).Some?
    ensures q <= p
  {
    RelIsNothing(q);
    ComponentsOfRel(p);
    ComponentsOfRel(q);
    if Rel(p) != Rel(q) {
      var t := Rel(p)[|Rel(q)| + 1..];
      assert Rel(p) == Rel(q) + "/" + t;
      ComponentsAtSlash(Rel(q), t);
    }
  }

  /** `path_strip` drops a prefix, and fails where there is none. */
  lemma StripIsDrop(p: Path, q: Path)
    requires Good(p) && Good(q)
    ensures PathStrip(Rel(p), Rel(q)) == if q <= p then Some(Rel(p[|q|..])) else None
  {
    if q == [] {
      assert p[0..] == p;
    } else if q <= p {
      RelIsNothing(q);
      assert q + p[|q|..] == p;
      if p == q { assert p[|q|..] == []; } else { StripsPrefix(q, p[|q|..]); }
    } else if PathStrip(Rel(p), Rel(q)).Some? {
      StripsOnlyPrefix(p, q);
    }
  }

  method ReduceLoop(parts: seq<string>) returns (stack: Path)
    ensures stack == Reduce([], parts)
  {
    stack := [];
    var i := 0;
    assert parts[0..] == parts;
    while i < |parts|
      invariant 0 <= i <= |parts|
      invariant Reduce([], parts) == Reduce(stack, parts[i..])
    {
      assert parts[i..][1..] == parts[i + 1..];
      stack := Push(stack, parts[i]);
      i := i + 1;
    }
  }

  method RenderLoop(stack: Path) returns (out: string)
    ensures out == Render(stack)
  {
    if stack == [] { return "/"; }
    out := "";
    var j := 0;
    assert stack[0..] == stack;
    while j < |stack|
      invariant 0 <= j <= |stack|
      invariant out + Slashed(stack[j..]) == Slashed(stack)
    {
      var rest := stack[j + 1..];
      assert stack[j..][1..] == rest;
      assert out + ("/" + stack[j] + Slashed(rest)) == (out + "/" + stack[j]) + Slashed(rest);
      out := out + "/" + stack[j];
      j := j + 1;
    }
    assert stack[j..] == [];
  }

  /** The stack loop. */
  method NormalizeLoop(p: string) returns (out: string)
    ensures out == Normalize(p)
  {
    var stack := ReduceLoop(Split(p));
    out := RenderLoop(stack);
  }
}
