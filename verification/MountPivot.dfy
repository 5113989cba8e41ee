/**
 `pivot_root` rewrites every mount point of a namespace; translating a path the same way
 finds the same file.
 */
module MountPivot {
  import opened Options
  import opened Paths
  import opened Mounts
  import MountPaths

  /** The last mount at exactly `point`. */
  function LastAt(ms: seq<Mount>, point: Path): (i: Option<nat>)
    ensures i.Some? ==> i.value < |ms| && ms[i.value].point == point
    ensures i.Some? ==> forall j :: i.value < j < |ms| ==> ms[j].point != point
    ensures i.None? ==> forall j :: 0 <= j < |ms| ==> ms[j].point != point
  {
    if ms == [] then None
    else if ms[|ms| - 1].point == point then Some(|ms| - 1)
    else LastAt(ms[..|ms| - 1], point)
  }

  datatype PivotMap = PivotMap(newRoot: Path, putOld: Path)

  function Translate(pm: PivotMap, path: Path): Path {
    if pm.newRoot <= path then path[|pm.newRoot|..] else pm.putOld + path
  }

  /** The translation the source computes on strings. */
  function TranslateString(newRoot: string, putOld: string, path: string): string {
    if MountPaths.HasPrefix(path, newRoot) then
      MountPaths.Normalize("/" + MountPaths.RelativeTo(path, newRoot))
    else MountPaths.Normalize(putOld + "/" + path)
  }

  lemma TranslateIsOnComponents(pm: PivotMap, path: Path)
    requires MountPaths.Proper(pm.newRoot) && MountPaths.Proper(pm.putOld) && MountPaths.Proper(path)
    ensures TranslateString(Render(pm.newRoot), Render(pm.putOld), Render(path)) == Render(Translate(pm, path))
  {
    MountPaths.HasPrefixIsPrefix(path, pm.newRoot);
    if pm.newRoot <= path {
      MountPaths.RelativeIsDrop(path, pm.newRoot);
      MountPaths.JoinIsAppend([], path[|pm.newRoot|..]);
    } else {
      MountPaths.JoinIsAppend(pm.putOld, path);
    }
  }

  // The parts of the new table.

  function Inside(ms: seq<Mount>, root: Path): seq<Mount> {
    if ms == [] then []
    else
      var m, rest := ms[|ms| - 1], Inside(ms[..|ms| - 1], root);
      if root <= m.point then rest + [m] else rest
  }

  function Outside(ms: seq<Mount>, root: Path): seq<Mount> {
    if ms == [] then []
    else
      var m, rest := ms[|ms| - 1], Outside(ms[..|ms| - 1], root);
      if root <= m.point then rest else rest + [m]
  }

  function KeptOf(ms: seq<Mount>, root: Path): seq<Mount> {
    if ms == [] then []
    else
      var m, rest := ms[|ms| - 1], KeptOf(ms[..|ms| - 1], root);
      if root <= m.point then rest + [m.(point := m.point[|root|..])] else rest
  }

  function OldOf(ms: seq<Mount>, put: Path, side: nat): seq<Mount> {
    if ms == [] then []
    else OldOf(ms[..|ms| - 1], put, side) + [Sided(ms[|ms| - 1], put, side)]
  }

  function Sided(m: Mount, put: Path, side: nat): Mount {
    m.(point := put + m.point, pivotSide := side)
  }

  predicate CanPivot(ms: seq<Mount>, newRoot: Path, putOld: Path) {
    LastAt(ms, newRoot).Some? && newRoot <= putOld && newRoot != []
  }

  function Pivoted(ms: seq<Mount>, newRoot: Path, putOld: Path, side: nat): seq<Mount>
    requires CanPivot(ms, newRoot, putOld)
  {
    var top := LastAt(ms, newRoot).value;
    KeptOf(ms[top..], newRoot)
    + OldOf(ms[..top] + Outside(ms[top..], newRoot), putOld[|newRoot|..], side)
  }

  /** The same, built in one pass over the first `i` mounts. */
  function KeptUpTo(ms: seq<Mount>, top: nat, root: Path, i: nat): seq<Mount>
    requires i <= |ms|
  {
    if i == 0 then []
    else
      var rest, m := KeptUpTo(ms, top, root, i - 1), ms[i - 1];
      if i - 1 >= top && root <= m.point then rest + [m.(point := m.point[|root|..])] else rest
  }

  function PastUpTo(ms: seq<Mount>, top: nat, root: Path, put: Path, side: nat, i: nat): seq<Mount>
    requires i <= |ms|
  {
    if i == 0 then []
    else
      var rest, m := PastUpTo(ms, top, root, put, side, i - 1), ms[i - 1];
      if i - 1 >= top && root <= m.point then rest else rest + [Sided(m, put, side)]
  }

  lemma {:induction false} KeptInOnePass(ms: seq<Mount>, top: nat, root: Path, i: nat)
    requires i <= |ms|
    ensures KeptUpTo(ms, top, root, i) == if i <= top then [] else KeptOf(ms[top..i], root)
  {
    if i > 0 {
      KeptInOnePass(ms, top, root, i - 1);
      if i > top {
        assert ms[top..i][..i - 1 - top] == ms[top..i - 1];
        if i - 1 == top { assert KeptOf(ms[top..i - 1], root) == []; }
      }
    }
  }

  lemma {:induction false} PastBefore(ms: seq<Mount>, top: nat, root: Path, put: Path, side: nat, i: nat)
    requires i <= |ms| && i <= top
    ensures PastUpTo(ms, top, root, put, side, i) == OldOf(ms[..i], put, side)
  {
    if i > 0 {
      PastBefore(ms, top, root, put, side, i - 1);
      assert ms[..i][..i - 1] == ms[..i - 1];
    }
  }

  lemma {:induction false} PastInOnePass(ms: seq<Mount>, top: nat, root: Path, put: Path, side: nat, i: nat)
    requires top <= i <= |ms|
    ensures PastUpTo(ms, top, root, put, side, i) ==
      OldOf(ms[..top], put, side) + OldOf(Outside(ms[top..i], root), put, side)
  {
    if i == top {
      PastBefore(ms, top, root, put, side, i);
      assert ms[top..i] == [];
    } else {
      PastInOnePass(ms, top, root, put, side, i - 1);
      var rest, m := ms[top..i - 1], ms[i - 1];
      assert ms[top..i] == rest + [m];
      OutsideSnoc(rest, m, root);
      OldOfSnoc(Outside(rest, root), m, put, side);
      Regroup(OldOf(ms[..top], put, side), OldOf(Outside(rest, root), put, side), [Sided(m, put, side)]);
    }
  }

  lemma Regroup(a: seq<Mount>, b: seq<Mount>, c: seq<Mount>)
    ensures a + b + c == a + (b + c)
  {
  }

  lemma {:induction false} OldOfConcat(a: seq<Mount>, b: seq<Mount>, put: Path, side: nat)
    ensures OldOf(a + b, put, side) == OldOf(a, put, side) + OldOf(b, put, side)
    decreases |b|
  {
    if b == [] {
      assert a + b == a;
    } else {
      assert (a + b)[..|a + b| - 1] == a + b[..|b| - 1];
      OldOfConcat(a, b[..|b| - 1], put, side);
    }
  }

  lemma OutsideSnoc(ms: seq<Mount>, m: Mount, root: Path)
    ensures Outside(ms + [m], root) == if root <= m.point then Outside(ms, root) else Outside(ms, root) + [m]
  {
    assert (ms + [m])[..|ms|] == ms;
  }

  lemma OldOfSnoc(ms: seq<Mount>, m: Mount, put: Path, side: nat)
    ensures OldOf(ms + [m], put, side) == OldOf(ms, put, side) + [Sided(m, put, side)]
  {
    assert (ms + [m])[..|ms|] == ms;
  }

  lemma SplitIsPivot(ms: seq<Mount>, newRoot: Path, putOld: Path, side: nat)
    requires CanPivot(ms, newRoot, putOld)
    ensures var top, put := LastAt(ms, newRoot).value, putOld[|newRoot|..];
      Pivoted(ms, newRoot, putOld, side) ==
      KeptUpTo(ms, top, newRoot, |ms|) + PastUpTo(ms, top, newRoot, put, side, |ms|)
  {
    var top, put := LastAt(ms, newRoot).value, putOld[|newRoot|..];
    KeptInOnePass(ms, top, newRoot, |ms|);
    PastInOnePass(ms, top, newRoot, put, side, |ms|);
    OldOfConcat(ms[..top], Outside(ms[top..], newRoot), put, side);
    assert ms[top..|ms|] == ms[top..];
  }

  // Resolution among the parts.

  lemma SomethingWins(ms: seq<Mount>, m: Mount, path: Path)
    requires m in ms && m.point <= path
    ensures Winner(ms, path).Some?
  {
    WinnerIsBest(ms, path);
  }

  lemma {:induction false} InsideHas(ms: seq<Mount>, root: Path, m: Mount)
    requires m in ms && root <= m.point
    ensures m in Inside(ms, root)
    decreases |ms|
  {
    if m != ms[|ms| - 1] { InsideHas(ms[..|ms| - 1], root, m); }
  }

  /** Below the root, mounts at or below it win over all others. */
  ghost predicate InsideIsAhead(w: Option<Mount>, all: Option<Mount>, root: Path) {
    if w.Some? then all == w && root <= w.value.point
    else all.Some? ==> |all.value.point| < |root|
  }

  lemma InsideStaysAhead(w: Option<Mount>, all: Option<Mount>, root: Path, m: Mount, path: Path)
    requires root <= path && InsideIsAhead(w, all, root)
    ensures InsideIsAhead(
      if root <= m.point then Later(w, Candidate(m, path)) else w, Later(all, Candidate(m, path)), root)
  {
    if m.point <= path && |m.point| >= |root| { Nested(root, m.point, path); }
  }

  lemma {:induction false} InsideWins(ms: seq<Mount>, root: Path, path: Path)
    requires root <= path
    ensures InsideIsAhead(Winner(Inside(ms, root), path), Winner(ms, path), root)
    decreases |ms|
  {
    if ms != [] {
      var rest, m := ms[..|ms| - 1], ms[|ms| - 1];
      InsideWins(rest, root, path);
      WinnerSnoc(Inside(rest, root), m, path);
      InsideStaysAhead(Winner(Inside(rest, root), path), Winner(rest, path), root, m, path);
    }
  }

  function Dropped(w: Option<Mount>, n: nat): Option<Mount>
    requires w.Some? ==> n <= |w.value.point|
  {
    match w
    case None => None
    case Some(m) => Some(m.(point := m.point[n..]))
  }

  lemma {:induction false} KeptWinner(ms: seq<Mount>, root: Path, path: Path)
    requires root <= path
    ensures var w := Winner(Inside(ms, root), path);
      && (w.Some? ==> root <= w.value.point)
      && Winner(KeptOf(ms, root), path[|root|..]) == Dropped(w, |root|)
    decreases |ms|
  {
    if ms != [] {
      var rest, m := ms[..|ms| - 1], ms[|ms| - 1];
      KeptWinner(rest, root, path);
      if root <= m.point {
        DropPrefix(root, m.point, path);
        WinnerSnoc(Inside(rest, root), m, path);
        WinnerSnoc(KeptOf(rest, root), m.(point := m.point[|root|..]), path[|root|..]);
      }
    }
  }

  lemma {:induction false} OldWinner(ms: seq<Mount>, put: Path, side: nat, path: Path)
    ensures Winner(OldOf(ms, put, side), put + path) ==
      match Winner(ms, path) case None => None case Some(m) => Some(Sided(m, put, side))
    decreases |ms|
  {
    if ms != [] {
      var rest, m := ms[..|ms| - 1], ms[|ms| - 1];
      OldWinner(rest, put, side, path);
      WinnerSnoc(OldOf(rest, put, side), Sided(m, put, side), put + path);
      AddPrefix(put, m.point, path);
    }
  }

  lemma {:induction false} OldIsElsewhere(ms: seq<Mount>, put: Path, side: nat, path: Path)
    requires !(put <= path)
    ensures Winner(OldOf(ms, put, side), path).None?
    decreases |ms|
  {
    if ms != [] {
      var rest, m := ms[..|ms| - 1], ms[|ms| - 1];
      OldIsElsewhere(rest, put, side, path);
      WinnerSnoc(OldOf(rest, put, side), Sided(m, put, side), path);
      assert put <= put + m.point;
    }
  }

  lemma {:induction false} OutsideWins(ms: seq<Mount>, root: Path, path: Path)
    requires !(root <= path)
    ensures Winner(Outside(ms, root), path) == Winner(ms, path)
    decreases |ms|
  {
    if ms != [] {
      var rest, m := ms[..|ms| - 1], ms[|ms| - 1];
      OutsideWins(rest, root, path);
      WinnerSnoc(Outside(rest, root), m, path);
    }
  }

  // The theorem.

  /** What a pivot needs so that nothing gets uncovered or covered. */
  ghost predicate Orderly(ms: seq<Mount>, newRoot: Path, putOld: Path)
    requires CanPivot(ms, newRoot, putOld)
  {
    var top := LastAt(ms, newRoot).value;
    && (exists m :: m in ms && m.point == [])
    && (forall i :: 0 <= i < top ==> !(newRoot < ms[i].point))
    && (forall m :: m in ms[top..] ==> !(putOld < m.point))
  }

  lemma HiddenIsShort(before: seq<Mount>, newRoot: Path, path: Path)
    requires newRoot <= path && forall i :: 0 <= i < |before| ==> !(newRoot < before[i].point)
    ensures var w := Winner(before, path); w.Some? ==> |w.value.point| <= |newRoot|
  {
    var w := Winner(before, path);
    if w.Some? && |newRoot| < |w.value.point| {
      Nested(newRoot, w.value.point, path);
    }
  }

  /** A path at or below the new root. */
  lemma PivotInside(ms: seq<Mount>, newRoot: Path, putOld: Path, side: nat, path: Path)
    requires CanPivot(ms, newRoot, putOld) && Orderly(ms, newRoot, putOld)
    requires newRoot <= path && !(putOld <= path)
    ensures var w := Winner(ms, path);
      && w.Some? && newRoot <= w.value.point
      && Winner(Pivoted(ms, newRoot, putOld, side), path[|newRoot|..]) == Dropped(w, |newRoot|)
  {
    var top := LastAt(ms, newRoot).value;
    var before, after, put := ms[..top], ms[top..], putOld[|newRoot|..];
    assert ms == before + after;
    WinnerConcat(before, after, path);
    InsideHas(after, newRoot, after[0]);
    SomethingWins(Inside(after, newRoot), after[0], path);
    InsideWins(after, newRoot, path);
    KeptWinner(after, newRoot, path);
    var t := path[|newRoot|..];
    DropPrefix(newRoot, putOld, path);
    var old_ := before + Outside(after, newRoot);
    OldIsElsewhere(old_, put, side, t);
    WinnerConcat(KeptOf(after, newRoot), OldOf(old_, put, side), t);
    HiddenIsShort(before, newRoot, path);
  }

  lemma {:induction false} KeptIsShort(ms: seq<Mount>, newRoot: Path, putOld: Path, path: Path)
    requires newRoot <= putOld && forall m :: m in ms ==> !(putOld < m.point)
    ensures var w := Winner(KeptOf(ms, newRoot), putOld[|newRoot|..] + path);
      w.Some? ==> |w.value.point| <= |putOld| - |newRoot|
    decreases |ms|
  {
    if ms != [] {
      var rest, m := ms[..|ms| - 1], ms[|ms| - 1];
      KeptIsShort(rest, newRoot, putOld, path);
      if newRoot <= m.point {
        var put, p := putOld[|newRoot|..], m.point[|newRoot|..];
        WinnerSnoc(KeptOf(rest, newRoot), m.(point := p), put + path);
        DropPrefix(newRoot, putOld, m.point);
        assert !(putOld < m.point);
        if p <= put + path && |put| <= |p| { Nested(put, p, put + path); }
      }
    }
  }

  /** A path elsewhere goes along with the old root. */
  lemma PivotOutside(ms: seq<Mount>, newRoot: Path, putOld: Path, side: nat, path: Path)
    requires CanPivot(ms, newRoot, putOld) && Orderly(ms, newRoot, putOld)
    requires !(newRoot <= path)
    ensures var w, put := Winner(ms, path), putOld[|newRoot|..];
      w.Some? && Winner(Pivoted(ms, newRoot, putOld, side), put + path) == Some(Sided(w.value, put, side))
  {
    var top := LastAt(ms, newRoot).value;
    var before, after, put := ms[..top], ms[top..], putOld[|newRoot|..];
    assert ms == before + after;
    var root :| root in ms && root.point == [];
    SomethingWins(ms, root, path);
    WinnerConcat(before, after, path);
    OutsideWins(after, newRoot, path);
    var old_ := before + Outside(after, newRoot);
    WinnerConcat(before, Outside(after, newRoot), path);
    OldWinner(old_, put, side, path);
    KeptIsShort(after, newRoot, putOld, path);
    WinnerConcat(KeptOf(after, newRoot), OldOf(old_, put, side), put + path);
  }

  /** Every path not at or below `putOld` finds, translated, the file it found before. */
  lemma PivotCommutes(ms: seq<Mount>, newRoot: Path, putOld: Path, side: nat, path: Path)
    requires CanPivot(ms, newRoot, putOld) && Orderly(ms, newRoot, putOld) && !(putOld <= path)
    ensures Resolve(ms, path).Some?
    ensures Resolve(Pivoted(ms, newRoot, putOld, side), Translate(PivotMap(newRoot, putOld[|newRoot|..]), path))
         == Resolve(ms, path)
  {
    var put, w := putOld[|newRoot|..], Winner(ms, path);
    if newRoot <= path {
      PivotInside(ms, newRoot, putOld, side, path);
      assert path[|newRoot|..][|w.value.point| - |newRoot|..] == path[|w.value.point|..];
    } else {
      PivotOutside(ms, newRoot, putOld, side, path);
      assert (put + path)[|put + w.value.point|..] == path[|w.value.point|..];
    }
  }
}
