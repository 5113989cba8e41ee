/**
 The hidden places still to come stay free: no component of a mount point, or of a
 directory mounted, is ever the name of one.
 */
module MountClear {
  import opened Paths
  import opened Mounts
  import opened MountPivot
  import opened MountDetach
  import opened MountBind
  import opened MountCarry
  import opened MountPropagation
  import MG = MountGroups
  import opened MountWorklist

  /** No component names a hidden place from the `n`-th on. */
  ghost predicate Clear(path: Path, n: nat) {
    forall k: nat :: n <= k ==> HiddenName(k) !in path
  }

  ghost predicate ClearMount(m: Mount, n: nat) {
    Clear(m.point, n) && Clear(m.subdir, n)
  }

  ghost predicate AllClear(ms: seq<Mount>, n: nat) {
    forall m :: m in ms ==> ClearMount(m, n)
  }

  // What a caller may pass.

  /** A path without the mark, as every path from the guest is. */
  lemma GuestPathIsClear(path: Path, n: nat)
    requires forall c :: c in path ==> MARK !in c
    ensures Clear(path, n)
  {
    forall k: nat | n <= k ensures HiddenName(k) !in path {
      assert HiddenName(k)[0] == MARK;
    }
  }

  lemma HiddenIsClear(j: nat, n: nat)
    requires j < n
    ensures Clear(Hidden(j), n)
  {
    forall k: nat | n <= k ensures HiddenName(k) !in Hidden(j) {
      if HiddenName(k) == HiddenName(j) { HiddenDiffer(k, j); }
    }
  }

  /** And such a path sent after a mount that was hidden. */
  lemma TranslatedIsClear(path: Path, from: Path, j: nat, n: nat)
    requires Clear(path, n) && j < n
    ensures Clear(MountDetach.Translate(PathMove(from, Hidden(j)), path), n)
  {
    HiddenIsClear(j, n);
  }

  // The places themselves.

  lemma HiddenIsNamed(k: nat, path: Path)
    ensures Hidden(k) <= path ==> HiddenName(k) in path
  {
    if Hidden(k) <= path { assert path[0] == HiddenName(k); }
  }

  lemma ClearIsFresh(ms: seq<Mount>, n: nat)
    requires AllClear(ms, n)
    ensures Fresh(ms, n)
  {
    forall m, k: nat | m in ms && n <= k ensures !(Hidden(k) <= m.point) {
      assert ClearMount(m, n);
      HiddenIsNamed(k, m.point);
    }
  }

  lemma ClearLater(ms: seq<Mount>, n: nat, more: nat)
    requires AllClear(ms, n) && n <= more
    ensures AllClear(ms, more)
  {
    forall m | m in ms ensures ClearMount(m, more) {
      assert ClearMount(m, n);
    }
  }

  /** A list of mounts at the same places. */
  lemma SamePlacesClear(ms: seq<Mount>, ms': seq<Mount>, n: nat)
    requires AllClear(ms, n) && |ms'| == |ms|
    requires forall i :: 0 <= i < |ms| ==> ms'[i].point == ms[i].point && ms'[i].subdir == ms[i].subdir
    ensures AllClear(ms', n)
  {
    forall m | m in ms' ensures ClearMount(m, n) {
      var i :| 0 <= i < |ms'| && ms'[i] == m;
      assert ms[i] in ms;
    }
  }

  // The operations.

  lemma DetachKeepsClear(ms: seq<Mount>, i: nat, n: nat)
    requires i < |ms| && AllClear(ms, n)
    ensures AllClear(Detached(ms, i, Hidden(n)), n + 1)
  {
    var g, to := ms[i], Hidden(n);
    var rest := ms[..i] + ms[i + 1..];
    HiddenIsClear(n, n + 1);
    assert ClearMount(g, n);
    forall m | m in Detached(ms, i, to) ensures ClearMount(m, n + 1) {
      if m in MovedAll(rest, g.point, g.pivotSide, to) {
        MovedAllFrom(rest, g.point, g.pivotSide, to, m);
        var o :| o in rest && m == Moved(o, g.point, g.pivotSide, to);
        assert o in ms && ClearMount(o, n);
      }
    }
  }

  lemma CarryKeepsClear(ms: seq<Mount>, added: seq<Mount>, base: nat)
    requires AllClear(ms, base) && Numbered(added, base) && forall m :: m in added ==> Clear(m.subdir, base)
    ensures AllClear(ms + added, base + |added|)
  {
    ClearLater(ms, base, base + |added|);
    forall m | m in added ensures ClearMount(m, base + |added|) {
      var j :| 0 <= j < |added| && added[j] == m;
      HiddenIsClear(base + j, base + |added|);
    }
  }

  lemma {:induction false} KeptClear(ms: seq<Mount>, root: Path, n: nat)
    requires AllClear(ms, n)
    ensures AllClear(KeptOf(ms, root), n)
    decreases |ms|
  {
    if ms != [] {
      assert ClearMount(ms[|ms| - 1], n);
      KeptClear(ms[..|ms| - 1], root, n);
    }
  }

  lemma {:induction false} OldClear(ms: seq<Mount>, put: Path, side: nat, n: nat)
    requires AllClear(ms, n) && Clear(put, n)
    ensures AllClear(OldOf(ms, put, side), n)
    decreases |ms|
  {
    if ms != [] {
      assert ClearMount(ms[|ms| - 1], n);
      OldClear(ms[..|ms| - 1], put, side, n);
    }
  }

  lemma {:induction false} OutsideClear(ms: seq<Mount>, root: Path, n: nat)
    requires AllClear(ms, n)
    ensures AllClear(Outside(ms, root), n)
    decreases |ms|
  {
    if ms != [] {
      assert ClearMount(ms[|ms| - 1], n);
      OutsideClear(ms[..|ms| - 1], root, n);
    }
  }

  /** A pivot takes a prefix off some points; what is left of them still names no hidden place to come. */
  lemma PivotKeepsClear(ms: seq<Mount>, newRoot: Path, putOld: Path, side: nat, n: nat)
    requires AllClear(ms, n) && CanPivot(ms, newRoot, putOld) && Clear(putOld, n)
    ensures AllClear(Pivoted(ms, newRoot, putOld, side), n)
  {
    var top := LastAt(ms, newRoot).value;
    assert AllClear(ms[top..], n) && AllClear(ms[..top], n);
    KeptClear(ms[top..], newRoot, n);
    OutsideClear(ms[top..], newRoot, n);
    OldClear(ms[..top] + Outside(ms[top..], newRoot), putOld[|newRoot|..], side, n);
  }

  lemma BoundClear(m: Mount, source: Path, target: Path, n: nat)
    requires m.point <= source && ClearMount(m, n) && Clear(source, n) && Clear(target, n)
    ensures ClearMount(Bound(m, source, target), n)
  {
  }

  lemma {:induction false} MirroredClear(ms: seq<Mount>, source: Path, target: Path, n: nat)
    requires AllClear(ms, n) && Clear(target, n)
    ensures AllClear(Mirrored(ms, source, target), n)
    decreases |ms|
  {
    if ms != [] {
      assert ClearMount(ms[|ms| - 1], n);
      MirroredClear(ms[..|ms| - 1], source, target, n);
    }
  }

  ghost predicate SeatsClear(all: seq<Seat>, n: nat) {
    forall s :: s in all ==> ClearMount(s.mount, n)
  }

  lemma CopiesUnderClear(tree: seq<Mount>, top: Path, at: Path, s: Seat, d: Drop, n: nat)
    requires TreeAt(tree, top) && |d.peers| == |d.masters| == |tree|
    requires AllClear(tree, n) && ClearMount(s.mount, n) && Clear(at, n)
    ensures SeatsClear(MG.CopiesUnder(tree, top, at, s, d), n)
  {
    var out := MG.CopiesUnder(tree, top, at, s, d);
    forall x | x in out ensures ClearMount(x.mount, n) {
      var k :| 0 <= k < |out| && out[k] == x;
      assert tree[k] in tree && ClearMount(tree[k], n);
    }
  }

  /** A copy's place is made of the receiver's, the place in the filesystem and the tree's own. */
  lemma {:induction false} AllCopiesClear(
    tree: seq<Mount>, top: Path, at: Path, all: seq<Seat>, drops: seq<Drop>, n: nat)
    requires TreeAt(tree, top) && Sized(tree, all, drops)
    requires AllClear(tree, n) && SeatsClear(all, n) && Clear(at, n)
    ensures SeatsClear(AllCopies(tree, top, at, all, drops), n)
    decreases |drops|
  {
    if drops != [] {
      var d := drops[|drops| - 1];
      AllCopiesClear(tree, top, at, all, drops[..|drops| - 1], n);
      assert all[d.seat] in all;
      CopiesUnderClear(tree, top, at, all[d.seat], d, n);
    }
  }
}
