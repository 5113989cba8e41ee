/**
 Mounts kept alive out of sight: lazy unmount, files carried across namespaces, and the
 collection of what nothing uses any more.
 */
module MountDetach {
  import opened Options
  import opened Paths
  import opened Mounts
  import opened MountPivot

  const MARK: char := '\0'

  /** Decimal digits. */
  function Digits(n: nat): (s: string)
    ensures s != "" && '/' !in s
  {
    var d := (48 + n % 10) as char;
    if n < 10 then [d] else Digits(n / 10) + [d]
  }

  lemma {:induction false} DigitsDiffer(a: nat, b: nat)
    requires Digits(a) == Digits(b)
    ensures a == b
    decreases a
  {
    var s, t := Digits(a), Digits(b);
    assert s[|s| - 1] == t[|t| - 1];
    if a >= 10 && b >= 10 {
      assert s[..|s| - 1] == Digits(a / 10) && t[..|t| - 1] == Digits(b / 10);
      DigitsDiffer(a / 10, b / 10);
    }
  }

  function HiddenName(n: nat): string {
    [MARK] + Digits(n)
  }

  /** The place of the `n`-th detached mount, which no guest path can name. */
  function Hidden(n: nat): Path {
    [HiddenName(n)]
  }

  lemma HiddenDiffer(a: nat, b: nat)
    requires Hidden(a) == Hidden(b)
    ensures a == b
  {
    assert Hidden(a)[0][1..] == Digits(a) && Hidden(b)[0][1..] == Digits(b);
    DigitsDiffer(a, b);
  }

  /** No mount is in the place of a detached mount still to come. */
  ghost predicate Fresh(ms: seq<Mount>, detached: nat) {
    forall m, n :: m in ms && detached <= n ==> !(Hidden(n) <= m.point)
  }

  datatype PathMove = PathMove(from: Path, to: Path)

  function Translate(move: PathMove, path: Path): Path {
    if move.from <= path then move.to + path[|move.from|..] else path
  }

  // Lazy unmount.

  /** Mounts that go along: strictly below, and of the same side of a pivot. */
  predicate GoesAlong(m: Mount, point: Path, side: nat) {
    point < m.point && m.pivotSide == side
  }

  function Moved(m: Mount, point: Path, side: nat, to: Path): Mount {
    if GoesAlong(m, point, side) then m.(point := to + m.point[|point|..]) else m
  }

  function MovedAll(ms: seq<Mount>, point: Path, side: nat, to: Path): seq<Mount> {
    if ms == [] then []
    else MovedAll(ms[..|ms| - 1], point, side, to) + [Moved(ms[|ms| - 1], point, side, to)]
  }

  /** The table after the mount at index `i` has been detached. */
  function Detached(ms: seq<Mount>, i: nat, to: Path): seq<Mount>
    requires i < |ms|
  {
    var g := ms[i];
    MovedAll(ms[..i] + ms[i + 1..], g.point, g.pivotSide, to) + [g.(point := to)]
  }

  /** The winner among the mounts that go along. */
  function Along(ms: seq<Mount>, point: Path, side: nat, path: Path): (w: Option<Mount>)
    ensures w.Some? ==> w.value.point <= path && GoesAlong(w.value, point, side)
  {
    if ms == [] then None
    else
      var m := ms[|ms| - 1];
      Later(Along(ms[..|ms| - 1], point, side, path), if GoesAlong(m, point, side) then Candidate(m, path) else None)
  }

  /** Where the winner goes along, it is also the winner among those that do; else none of them is deeper. */
  lemma {:induction false} AlongWins(ms: seq<Mount>, point: Path, side: nat, path: Path)
    ensures var w, l := Winner(ms, path), Along(ms, point, side, path);
      && (l.Some? ==> w.Some? && |l.value.point| <= |w.value.point|)
      && (w.Some? && GoesAlong(w.value, point, side) ==> l == w)
    decreases |ms|
  {
    if ms != [] { AlongWins(ms[..|ms| - 1], point, side, path); }
  }

  /** A mount of the detached tree, at its new place. */
  function AlongMoved(w: Option<Mount>, point: Path, to: Path): Option<Mount>
    requires w.Some? ==> |point| <= |w.value.point|
  {
    match w
    case None => None
    case Some(m) => Some(m.(point := to + m.point[|point|..]))
  }

  /** `w` is the winner `l`, moved; where there is none, at most a mount at the root. */
  ghost predicate Follows(l: Option<Mount>, w: Option<Mount>, point: Path, to: Path) {
    if l.Some? then |point| <= |l.value.point| && w == AlongMoved(l, point, to)
    else w.Some? ==> w.value.point == []
  }

  lemma FollowsLater(l: Option<Mount>, w: Option<Mount>, c: Option<Mount>, d: Option<Mount>, point: Path, to: Path)
    requires Follows(l, w, point, to) && Follows(c, d, point, to) && to != []
    ensures Follows(Later(l, c), Later(w, d), point, to)
  {
  }

  /** From the hidden place only the moved mounts, and perhaps one at the root, are in reach. */
  lemma {:induction false} MovedWinner(ms: seq<Mount>, point: Path, side: nat, n: nat, path: Path)
    requires point <= path && Fresh(ms, n)
    ensures Follows(Along(ms, point, side, path),
      Winner(MovedAll(ms, point, side, Hidden(n)), Hidden(n) + path[|point|..]), point, Hidden(n))
    decreases |ms|
  {
    if ms != [] {
      var rest, m, to := ms[..|ms| - 1], ms[|ms| - 1], Hidden(n);
      MovedWinner(rest, point, side, n, path);
      var t := to + path[|point|..];
      WinnerSnoc(MovedAll(rest, point, side, to), Moved(m, point, side, to), t);
      MovedFollows(m, point, side, n, path);
      FollowsLater(Along(rest, point, side, path), Winner(MovedAll(rest, point, side, to), t),
        if GoesAlong(m, point, side) then Candidate(m, path) else None, Candidate(Moved(m, point, side, to), t),
        point, to);
    }
  }

  lemma MovedFollows(m: Mount, point: Path, side: nat, n: nat, path: Path)
    requires point <= path && !(Hidden(n) <= m.point)
    ensures Follows(if GoesAlong(m, point, side) then Candidate(m, path) else None,
      Candidate(Moved(m, point, side, Hidden(n)), Hidden(n) + path[|point|..]), point, Hidden(n))
  {
    var to, t := Hidden(n), Hidden(n) + path[|point|..];
    if GoesAlong(m, point, side) {
      DropPrefix(point, m.point, path);
      AddPrefix(to, m.point[|point|..], path[|point|..]);
    } else if m.point <= t {
      NotHidden(m.point, n, t);
    }
  }

  lemma NotHidden(point: Path, n: nat, t: Path)
    requires Hidden(n) <= t && !(Hidden(n) <= point) && point <= t
    ensures point == []
  {
    if point != [] { Nested(Hidden(n), point, t); }
  }

  /** The winner of a table is the mount taken out, or the winner of the rest. */
  lemma TakenOut(ms: seq<Mount>, i: nat, path: Path)
    requires i < |ms|
    ensures var a, b := ms[..i], ms[i + 1..];
      && Winner(ms, path) == Later(Later(Winner(a, path), Candidate(ms[i], path)), Winner(b, path))
      && Winner(a + b, path) == Later(Winner(a, path), Winner(b, path))
  {
    var a, b := ms[..i], ms[i + 1..];
    assert ms == (a + [ms[i]]) + b;
    WinnerConcat(a + [ms[i]], b, path);
    WinnerSnoc(a, ms[i], path);
    WinnerConcat(a, b, path);
  }

  /** Which mount that is. */
  lemma DetachedWinner(ms: seq<Mount>, point: Path, i: nat, path: Path)
    requires LastAt(ms, point) == Some(i) && point <= path
    requires var w := Winner(ms, path);
      w.Some? && (w.value.point == point || GoesAlong(w.value, point, ms[i].pivotSide))
    ensures var w, l := Winner(ms, path).value, Along(ms[..i] + ms[i + 1..], point, ms[i].pivotSide, path);
      if w.point == point then w == ms[i] && l.None? else l == Some(w)
  {
    var rest, side := ms[..i] + ms[i + 1..], ms[i].pivotSide;
    TakenOut(ms, i, path);
    AlongWins(rest, point, side, path);
    var b := Winner(ms[i + 1..], path);
    if b.Some? {
      var j :| 0 <= j < |ms[i + 1..]| && ms[i + 1..][j] == b.value;
      assert ms[i + 1 + j].point != point;
    }
  }

  /** It is the winner at the new place too. */
  lemma HiddenWinner(ms: seq<Mount>, i: nat, n: nat, path: Path)
    requires i < |ms| && Fresh(ms, n) && ms[i].point <= path
    ensures var g, to := ms[i], Hidden(n);
      var l := Along(ms[..i] + ms[i + 1..], g.point, g.pivotSide, path);
      Winner(Detached(ms, i, to), to + path[|g.point|..]) ==
      if l.Some? then AlongMoved(l, g.point, to) else Some(g.(point := to))
  {
    var g, to := ms[i], Hidden(n);
    var rest, t := ms[..i] + ms[i + 1..], to + path[|g.point|..];
    assert Fresh(rest, n) by {
      assert forall m :: m in rest ==> m in ms;
    }
    MovedWinner(rest, g.point, g.pivotSide, n, path);
    WinnerSnoc(MovedAll(rest, g.point, g.pivotSide, to), g.(point := to), t);
  }

  /**
   After the mount at `i` is detached, a path that resolved into it, or into a mount that
   goes along with it, still finds the same file at its translation.
   */
  lemma DetachKeepsPaths(ms: seq<Mount>, point: Path, i: nat, n: nat, path: Path)
    requires LastAt(ms, point) == Some(i) && Fresh(ms, n) && point <= path
    requires var w := Winner(ms, path);
      w.Some? && (w.value.point == point || GoesAlong(w.value, point, ms[i].pivotSide))
    ensures Resolve(Detached(ms, i, Hidden(n)), Translate(PathMove(point, Hidden(n)), path)) == Resolve(ms, path)
  {
    var to, w := Hidden(n), Winner(ms, path).value;
    HiddenWinner(ms, i, n, path);
    DetachedWinner(ms, point, i, path);
    MovedRest(to, point, w.point, path);
  }

  lemma MovedRest(to: Path, point: Path, at: Path, path: Path)
    requires point <= at <= path
    ensures (to + path[|point|..])[|to + at[|point|..]|..] == path[|at|..]
    ensures (to + path[|point|..])[|to|..] == path[|point|..]
  {
  }

  // Everyone else.

  /** Among mounts that are not above `path`, before or after a move, none wins. */
  lemma {:induction false} MovedElsewhere(ms: seq<Mount>, point: Path, side: nat, to: Path, path: Path)
    requires !(point <= path) && !(to <= path)
    ensures Winner(MovedAll(ms, point, side, to), path) == Winner(ms, path)
    decreases |ms|
  {
    if ms != [] {
      var rest, m := ms[..|ms| - 1], ms[|ms| - 1];
      MovedElsewhere(rest, point, side, to, path);
      WinnerSnoc(MovedAll(rest, point, side, to), Moved(m, point, side, to), path);
      if GoesAlong(m, point, side) {
        assert to <= to + m.point[|point|..];
      }
    }
  }

  /** Paths not at or below the unmounted point, and not in the hidden place, resolve as before. */
  lemma DetachLeavesOthers(ms: seq<Mount>, i: nat, to: Path, path: Path)
    requires i < |ms| && !(ms[i].point <= path) && !(to <= path)
    ensures Winner(Detached(ms, i, to), path) == Winner(ms, path)
  {
    var g := ms[i];
    TakenOut(ms, i, path);
    MovedElsewhere(ms[..i] + ms[i + 1..], g.point, g.pivotSide, to, path);
    WinnerSnoc(MovedAll(ms[..i] + ms[i + 1..], g.point, g.pivotSide, to), g.(point := to), path);
  }

  lemma {:induction false} MovedAllFrom(ms: seq<Mount>, point: Path, side: nat, to: Path, m: Mount)
    requires m in MovedAll(ms, point, side, to)
    ensures exists o :: o in ms && m == Moved(o, point, side, to)
    decreases |ms|
  {
    var last := ms[|ms| - 1];
    if m == Moved(last, point, side, to) {
      assert last in ms;
    } else {
      MovedAllFrom(ms[..|ms| - 1], point, side, to, m);
    }
  }
}
