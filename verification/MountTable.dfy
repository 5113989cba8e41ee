/**
 Mounts of one namespace and how a path is resolved among them (`src/fs/mount.rs`).
 Paths are component lists; `MountPaths` shows that the string helpers are the list
 operations used here.
 */
module Mounts {
  import opened Options
  import opened Paths

  datatype Mount = Mount(
    point: Path, fs: nat, subdir: Path, guest: bool, readOnly: bool, locked: bool,
    pivotSide: nat, peer: nat, master: nat, unbindable: bool)

  /** A filesystem and a path in it. */
  datatype Place = Place(fs: nat, inner: Path)

  function FsPath(m: Mount, path: Path): Path
    requires m.point <= path
  {
    m.subdir + path[|m.point|..]
  }

  /** The later of two candidates wins unless the earlier is deeper. */
  function Later(x: Option<Mount>, y: Option<Mount>): Option<Mount> {
    if y.None? then x
    else if x.None? then y
    else if |x.value.point| <= |y.value.point| then y else x
  }

  function Candidate(m: Mount, path: Path): Option<Mount> {
    if m.point <= path then Some(m) else None
  }

  /** The mount a path belongs to: the deepest above it, the last of equals. */
  function Winner(ms: seq<Mount>, path: Path): (w: Option<Mount>)
    ensures w.Some? ==> w.value.point <= path && w.value in ms
  {
    if ms == [] then None
    else Later(Winner(ms[..|ms| - 1], path), Candidate(ms[|ms| - 1], path))
  }

  function Resolve(ms: seq<Mount>, path: Path): Option<Place> {
    match Winner(ms, path)
    case None => None
    case Some(m) => Some(Place(m.fs, FsPath(m, path)))
  }

  /** Longest prefix, stated by itself: index `i` beats every other mount above the path. */
  predicate IsBest(ms: seq<Mount>, path: Path, i: nat) {
    && i < |ms| && ms[i].point <= path
    && forall j :: 0 <= j < |ms| && ms[j].point <= path ==>
         |ms[j].point| < |ms[i].point| || (|ms[j].point| == |ms[i].point| && j <= i)
  }

  lemma {:induction false} WinnerIsBest(ms: seq<Mount>, path: Path)
    ensures Winner(ms, path).None? <==> forall j :: 0 <= j < |ms| ==> !(ms[j].point <= path)
    ensures Winner(ms, path).Some? ==> exists i: nat :: IsBest(ms, path, i) && Winner(ms, path) == Some(ms[i])
    decreases |ms|
  {
    if ms != [] {
      var rest, n := ms[..|ms| - 1], |ms| - 1;
      WinnerIsBest(rest, path);
      if ms[n].point <= path && Winner(ms, path) == Some(ms[n]) {
        if Winner(rest, path).Some? {
          var i: nat :| IsBest(rest, path, i) && Winner(rest, path) == Some(rest[i]);
          assert |ms[i].point| <= |ms[n].point|;
        }
        assert forall j :: 0 <= j < n ==> ms[j] == rest[j];
        assert IsBest(ms, path, n);
      } else if Winner(rest, path).Some? {
        var i: nat :| IsBest(rest, path, i) && Winner(rest, path) == Some(rest[i]);
        assert forall j :: 0 <= j < n ==> ms[j] == rest[j];
        assert IsBest(ms, path, i);
      }
    }
  }

  lemma {:induction false} WinnerConcat(a: seq<Mount>, b: seq<Mount>, path: Path)
    ensures Winner(a + b, path) == Later(Winner(a, path), Winner(b, path))
    decreases |b|
  {
    if b == [] {
      assert a + b == a;
    } else {
      assert (a + b)[..|a + b| - 1] == a + b[..|b| - 1];
      WinnerConcat(a, b[..|b| - 1], path);
    }
  }

  lemma WinnerSnoc(ms: seq<Mount>, m: Mount, path: Path)
    ensures Winner(ms + [m], path) == Later(Winner(ms, path), Candidate(m, path))
  {
    assert (ms + [m])[..|ms|] == ms;
  }

  // Prefixes.

  /** Two paths above the same one are nested. */
  lemma Nested(a: Path, b: Path, path: Path)
    requires a <= path && b <= path && |a| <= |b|
    ensures a <= b
  {
  }

  lemma DropPrefix(root: Path, a: Path, b: Path)
    requires root <= a && root <= b
    ensures a <= b <==> a[|root|..] <= b[|root|..]
  {
    assert a == root + a[|root|..] && b == root + b[|root|..];
  }

  lemma AddPrefix(put: Path, a: Path, b: Path)
    ensures a <= b <==> put + a <= put + b
  {
    DropPrefix(put, put + a, put + b);
    assert (put + a)[|put|..] == a && (put + b)[|put|..] == b;
  }

  /** The loop over the mounts. */
  method BestMount(ms: seq<Mount>, path: Path) returns (best: Option<nat>)
    ensures best.Some? ==> IsBest(ms, path, best.value) && Winner(ms, path) == Some(ms[best.value])
    ensures best.None? ==> Winner(ms, path).None?
  {
    best := None;
    var bestLen := 0;
    for i := 0 to |ms|
      invariant best.None? ==> bestLen == 0 && Winner(ms[..i], path).None?
      invariant best.None? ==> forall j :: 0 <= j < i ==> !(ms[j].point <= path)
      invariant best.Some? ==> best.value < i && bestLen == |ms[best.value].point|
      invariant best.Some? ==> IsBest(ms[..i], path, best.value) && Winner(ms[..i], path) == Some(ms[best.value])
    {
      assert ms[..i + 1][..i] == ms[..i];
      if ms[i].point <= path && |ms[i].point| >= bestLen {
        assert forall j :: 0 <= j < i ==> ms[..i][j] == ms[j];
        best, bestLen := Some(i), |ms[i].point|;
      }
    }
    assert ms[..|ms|] == ms;
  }
}
