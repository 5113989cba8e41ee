/**
 Bind mounts: what is seen below the target afterwards is what is below the source.
 */
module MountBind {
  import opened Options
  import opened Paths
  import opened Mounts
  import opened MountPivot

  function Bound(m: Mount, source: Path, target: Path): Mount
    requires m.point <= source
  {
    m.(point := target, subdir := FsPath(m, source), guest := true, locked := false)
  }

  function Mirror(m: Mount, source: Path, target: Path): Mount
    requires source <= m.point
  {
    m.(point := target + m.point[|source|..], guest := true, locked := false)
  }

  function Mirrored(ms: seq<Mount>, source: Path, target: Path): seq<Mount> {
    if ms == [] then []
    else
      var rest, m := Mirrored(ms[..|ms| - 1], source, target), ms[|ms| - 1];
      if source < m.point && !m.unbindable then rest + [Mirror(m, source, target)] else rest
  }

  function BindMounts(ms: seq<Mount>, source: Path, target: Path, recursive: bool): seq<Mount> {
    match Winner(ms, source)
    case None => []
    case Some(m) => [Bound(m, source, target)] + (if recursive then Mirrored(ms, source, target) else [])
  }

  // Resolution below the source.

  /** The winner among the mounts strictly below `source`. */
  function Strict(ms: seq<Mount>, source: Path, path: Path): (w: Option<Mount>)
    ensures w.Some? ==> source < w.value.point <= path
  {
    if ms == [] then None
    else
      var m := ms[|ms| - 1];
      Later(Strict(ms[..|ms| - 1], source, path), if source < m.point then Candidate(m, path) else None)
  }

  /** Below `source`: a mount strictly below it, or else the mount `source` itself is on. */
  ghost predicate Chosen(strict: Option<Mount>, atSource: Option<Mount>, all: Option<Mount>, source: Path) {
    && (atSource.Some? ==> |atSource.value.point| <= |source|)
    && (strict.Some? ==> |source| < |strict.value.point|)
    && all == if strict.Some? then strict else atSource
  }

  lemma ChosenLater(strict: Option<Mount>, atSource: Option<Mount>, all: Option<Mount>,
                    m: Mount, source: Path, path: Path)
    requires source <= path && Chosen(strict, atSource, all, source)
    ensures Chosen(Later(strict, if source < m.point then Candidate(m, path) else None),
      Later(atSource, Candidate(m, source)), Later(all, Candidate(m, path)), source)
  {
    if m.point <= path {
      if |m.point| <= |source| { Nested(m.point, source, path); } else { Nested(source, m.point, path); }
    }
    assert m.point <= source ==> m.point <= path;
  }

  lemma {:induction false} StrictOrSource(ms: seq<Mount>, source: Path, path: Path)
    requires source <= path
    ensures Chosen(Strict(ms, source, path), Winner(ms, source), Winner(ms, path), source)
    decreases |ms|
  {
    if ms != [] {
      var rest := ms[..|ms| - 1];
      StrictOrSource(rest, source, path);
      ChosenLater(Strict(rest, source, path), Winner(rest, source), Winner(rest, path), ms[|ms| - 1], source, path);
    }
  }

  function Reflected(w: Option<Mount>, source: Path, target: Path): Option<Mount>
    requires w.Some? ==> source <= w.value.point
  {
    match w
    case None => None
    case Some(m) => Some(Mirror(m, source, target))
  }

  lemma {:induction false} MirroredWinner(ms: seq<Mount>, source: Path, target: Path, r: Path)
    requires forall m :: m in ms && source < m.point ==> !m.unbindable
    ensures Winner(Mirrored(ms, source, target), target + r)
            == Reflected(Strict(ms, source, source + r), source, target)
    decreases |ms|
  {
    if ms != [] {
      var rest, m := ms[..|ms| - 1], ms[|ms| - 1];
      MirroredWinner(rest, source, target, r);
      if source < m.point {
        assert m in ms;
        WinnerSnoc(Mirrored(rest, source, target), Mirror(m, source, target), target + r);
        AddPrefix(target, m.point[|source|..], r);
        DropPrefix(source, m.point, source + r);
        assert (source + r)[|source|..] == r;
      }
    }
  }

  /** A recursive bind shows below the target what was below the source. */
  lemma BindShowsSource(ms: seq<Mount>, source: Path, target: Path, r: Path)
    requires Winner(ms, source).Some?
    requires forall m :: m in ms && source < m.point ==> !m.unbindable
    requires forall i :: 0 <= i < |ms| ==> !(target < ms[i].point)
    ensures Resolve(ms + BindMounts(ms, source, target, true), target + r) == Resolve(ms, source + r)
  {
    BindWinner(ms, source, target, r);
    StrictOrSource(ms, source, source + r);
    var s := Strict(ms, source, source + r);
    if s.Some? {
      MirrorFinds(s.value, source, target, r);
    } else {
      BoundFinds(Winner(ms, source).value, source, target, r);
    }
  }

  lemma MirrorFinds(m: Mount, source: Path, target: Path, r: Path)
    requires source <= m.point <= source + r && Mirror(m, source, target).point <= target + r
    ensures FsPath(Mirror(m, source, target), target + r) == FsPath(m, source + r)
  {
    assert (target + r)[|target + m.point[|source|..]|..] == (source + r)[|m.point|..];
  }

  lemma BoundFinds(m: Mount, source: Path, target: Path, r: Path)
    requires m.point <= source
    ensures m.point <= source + r && FsPath(Bound(m, source, target), target + r) == FsPath(m, source + r)
  {
    assert (target + r)[|target|..] == r;
    assert (source + r)[|m.point|..] == source[|m.point|..] + r;
  }

  lemma BindWinner(ms: seq<Mount>, source: Path, target: Path, r: Path)
    requires Winner(ms, source).Some?
    requires forall m :: m in ms && source < m.point ==> !m.unbindable
    requires forall i :: 0 <= i < |ms| ==> !(target < ms[i].point)
    ensures var s := Strict(ms, source, source + r);
      Winner(ms + BindMounts(ms, source, target, true), target + r) ==
      if s.Some? then Reflected(s, source, target) else Some(Bound(Winner(ms, source).value, source, target))
  {
    var base, below, t := Bound(Winner(ms, source).value, source, target), Mirrored(ms, source, target), target + r;
    HiddenIsShort(ms, target, t);
    MirroredWinner(ms, source, target, r);
    WinnerConcat(ms, [base] + below, t);
    WinnerConcat([base], below, t);
    assert [base] == [] + [base];
    WinnerSnoc([], base, t);
    assert target <= t;
  }
}
