/**
 What unmounting, pivoting, binding, copying a namespace and changing propagation do to
 each single mount, with the numbers of the ABI spelled out.
 */
module MountLaws {
  import opened Options
  import opened Paths
  import opened Mounts
  import opened MountPivot
  import opened MountDetach
  import opened MountBind
  import opened MountPropagation
  import opened MountWorklist
  import opened MountLists
  import opened MountOutcomes
  import opened MountTableObject
  import opened MountCopies
  import MountBelow

  // Unmounting.

  /** `ms[i]` is the mount on top at `point`. */
  predicate OnTop(ms: seq<Mount>, point: Path, i: nat) {
    i < |ms| && ms[i].point == point && forall j :: i < j < |ms| ==> ms[j].point != point
  }

  lemma TopIsLast(ms: seq<Mount>, point: Path, i: nat)
    ensures OnTop(ms, point, i) <==> LastAt(ms, point) == Some(i)
  {
  }

  /** Refused outright: nothing there or locked (22), or one of the embedder's in the first namespace (16). */
  lemma RefusalMeans(ms: seq<Mount>, ns: nat, point: Path)
    ensures (forall m :: m in ms ==> m.point != point) ==> Refusal(ms, ns, point) == 22
    ensures forall i: nat :: OnTop(ms, point, i) ==>
              Refusal(ms, ns, point) == if ms[i].locked then 22 else if !ms[i].guest && ns == 0 then 16 else 0
  {
    forall i: nat | OnTop(ms, point, i) ensures LastAt(ms, point) == Some(i) {
      TopIsLast(ms, point, i);
    }
  }

  /** Something of the same side of every pivot is mounted below. */
  ghost predicate HasBelow(ms: seq<Mount>, i: nat)
    requires i < |ms|
  {
    exists j :: 0 <= j < |ms| && ms[i].point < ms[j].point && ms[j].pivotSide == ms[i].pivotSide
  }

  /** Then: busy (16) if something is below and it is not to be detached, else gone or hidden. */
  lemma ReplyMeans(ms: seq<Mount>, point: Path, i: nat, detach: bool, n: nat)
    requires OnTop(ms, point, i)
    ensures UnmountReply(ms, point, detach, n) ==
            if detach then Hid(PathMove(point, Hidden(n))) else if HasBelow(ms, i) then Refused(16) else Gone
  {
    TopIsLast(ms, point, i);
    if m :| m in ms && GoesAlong(m, point, ms[i].pivotSide) {
      var j :| 0 <= j < |ms| && ms[j] == m;
      assert HasBelow(ms, i);
    }
    if HasBelow(ms, i) {
      var j :| 0 <= j < |ms| && ms[i].point < ms[j].point && ms[j].pivotSide == ms[i].pivotSide;
      assert GoesAlong(ms[j], point, ms[i].pivotSide);
    }
  }

  /** Gone: the mount on top and no other, the rest in their order. */
  lemma GoneTakesTop(ms: seq<Mount>, point: Path, i: nat)
    requires OnTop(ms, point, i)
    ensures var now := UnmountResult(ms, point, Gone);
      && |now| == |ms| - 1 && (forall j :: 0 <= j < i ==> now[j] == ms[j])
      && (forall j :: i <= j < |now| ==> now[j] == ms[j + 1])
  {
    TopIsLast(ms, point, i);
  }

  lemma {:induction false} MovedAllAt(ms: seq<Mount>, point: Path, side: nat, to: Path, j: nat)
    requires j < |ms|
    ensures |MovedAll(ms, point, side, to)| == |ms| && MovedAll(ms, point, side, to)[j] == Moved(ms[j], point, side, to)
    decreases |ms|
  {
    var n := |ms| - 1;
    if n > 0 { MovedAllAt(ms[..n], point, side, to, if j < n then j else 0); }
  }

  /**
   Hidden: it moves to the hidden place, what is below it on its side moves along, and
   every other mount stays; nothing but places changes.
   */
  lemma HidMoves(ms: seq<Mount>, point: Path, i: nat, n: nat, j: nat)
    requires OnTop(ms, point, i) && j < |ms| && j != i
    ensures var now, k := UnmountResult(ms, point, Hid(PathMove(point, Hidden(n)))), if j < i then j else j - 1;
      && |now| == |ms| && now[|ms| - 1] == ms[i].(point := Hidden(n))
      && now[k] == if point < ms[j].point && ms[j].pivotSide == ms[i].pivotSide
                   then ms[j].(point := Hidden(n) + ms[j].point[|point|..]) else ms[j]
  {
    TopIsLast(ms, point, i);
    var k := if j < i then j else j - 1;
    MovedAllAt(ms[..i] + ms[i + 1..], point, ms[i].pivotSide, Hidden(n), k);
  }

  /** The parent whose peers lose their copies: strictly above, deeper than every other, the last of equals. */
  lemma {:induction false} ParentIsDeepest(ms: seq<Mount>, point: Path)
    ensures Parent(ms, point).None? <==> forall j :: 0 <= j < |ms| ==> !(ms[j].point < point)
    ensures Parent(ms, point).Some? ==>
              exists i :: && 0 <= i < |ms| && Parent(ms, point) == Some(ms[i]) && ms[i].point < point
                          && forall j :: 0 <= j < |ms| && ms[j].point < point ==>
                               |ms[j].point| < |ms[i].point| || (|ms[j].point| == |ms[i].point| && j <= i)
    decreases |ms|
  {
    if ms != [] {
      var n := |ms| - 1;
      ParentIsDeepest(ms[..n], point);
    }
  }

  // Pivoting.

  /** Where mount `j` is after the pivot, and on which side. */
  function AfterPivot(ms: seq<Mount>, newRoot: Path, putOld: Path, side: nat, top: nat, j: nat): Mount
    requires j < |ms| && newRoot <= putOld
  {
    if top <= j && newRoot <= ms[j].point then ms[j].(point := ms[j].point[|newRoot|..])
    else ms[j].(point := putOld[|newRoot|..] + ms[j].point, pivotSide := side)
  }

  lemma {:induction false} SplitAt(ms: seq<Mount>, newRoot: Path, putOld: Path, side: nat, top: nat, i: nat)
    requires i <= |ms| && newRoot <= putOld
    ensures var put := putOld[|newRoot|..];
      multiset(KeptUpTo(ms, top, newRoot, i)) + multiset(PastUpTo(ms, top, newRoot, put, side, i)) ==
      multiset(seq(i, j requires 0 <= j < i => AfterPivot(ms, newRoot, putOld, side, top, j)))
  {
    if i > 0 {
      SplitAt(ms, newRoot, putOld, side, top, i - 1);
      var n := i - 1;
      var before := seq(n, j requires 0 <= j < n => AfterPivot(ms, newRoot, putOld, side, top, j));
      var m := AfterPivot(ms, newRoot, putOld, side, top, n);
      assert seq(i, j requires 0 <= j < i => AfterPivot(ms, newRoot, putOld, side, top, j)) == before + [m];
    }
  }

  /**
   Every mount is there once after a pivot: from the new root on, what is at or below it
   has that prefix taken off; all others go below the old root's new place and to a side
   of their own. Nothing else about any mount changes.
   */
  lemma PivotMoves(ms: seq<Mount>, newRoot: Path, putOld: Path, side: nat, top: nat)
    requires CanPivot(ms, newRoot, putOld) && OnTop(ms, newRoot, top)
    ensures multiset(Pivoted(ms, newRoot, putOld, side)) ==
            multiset(seq(|ms|, j requires 0 <= j < |ms| => AfterPivot(ms, newRoot, putOld, side, top, j)))
  {
    TopIsLast(ms, newRoot, top);
    SplitIsPivot(ms, newRoot, putOld, side);
    SplitAt(ms, newRoot, putOld, side, top, |ms|);
  }

  /** Allowed exactly where something is mounted at the new root, which is not `/`, and `putOld` is within it. */
  lemma PivotAllowed(ms: seq<Mount>, newRoot: Path, putOld: Path)
    ensures CanPivot(ms, newRoot, putOld) <==>
            (exists m :: m in ms && m.point == newRoot) && newRoot <= putOld && newRoot != []
  {
    if LastAt(ms, newRoot).Some? { assert ms[LastAt(ms, newRoot).value] in ms; }
  }

  /**
   Detaching the old root afterwards takes along the old mounts below it and no other:
   what the new root kept is of another side, also where it is below `putOld`.
   */
  lemma OldRootGoesAlone(ms: seq<Mount>, newRoot: Path, putOld: Path, side: nat, top: nat, j: nat)
    requires CanPivot(ms, newRoot, putOld) && OnTop(ms, newRoot, top) && j < |ms|
    requires forall m :: m in ms ==> m.pivotSide < side
    ensures GoesAlong(AfterPivot(ms, newRoot, putOld, side, top, j), putOld[|newRoot|..], side) <==>
            !(top <= j && newRoot <= ms[j].point) && ms[j].point != []
  {
    var put := putOld[|newRoot|..];
    assert ms[j] in ms;
    if !(top <= j && newRoot <= ms[j].point) {
      assert put <= put + ms[j].point;
      assert put + [] == put;
    }
  }

  // No side is ever past the last pivot, so the side of the next one is new.

  ghost predicate SidesTo(ms: seq<Mount>, n: nat) {
    forall m :: m in ms ==> m.pivotSide <= n
  }

  ghost predicate AllSidesTo(current: nat, mounts: seq<Mount>, parked: map<nat, seq<Mount>>, n: nat) {
    forall ns :: SidesTo(ListOf(current, mounts, parked, ns), n)
  }

  lemma PivotKeepsSides(ms: seq<Mount>, newRoot: Path, putOld: Path, n: nat)
    requires SidesTo(ms, n) && CanPivot(ms, newRoot, putOld)
    ensures SidesTo(Pivoted(ms, newRoot, putOld, n + 1), n + 1)
  {
    var top, now := LastAt(ms, newRoot).value, Pivoted(ms, newRoot, putOld, n + 1);
    TopIsLast(ms, newRoot, top);
    PivotMoves(ms, newRoot, putOld, n + 1, top);
    var moved := seq(|ms|, j requires 0 <= j < |ms| => AfterPivot(ms, newRoot, putOld, n + 1, top, j));
    forall m | m in now ensures m.pivotSide <= n + 1 {
      assert m in multiset(now) && m in multiset(moved);
      var j :| 0 <= j < |moved| && moved[j] == m;
      assert ms[j] in ms;
    }
  }

  lemma BindKeepsSides(ms: seq<Mount>, source: Path, target: Path, recursive: bool, n: nat)
    requires SidesTo(ms, n)
    ensures SidesTo(BindMounts(ms, source, target, recursive), n)
  {
    forall x | x in Mirrored(ms, source, target) ensures x.pivotSide <= n {
      MirroredStandFor(ms, source, target, x);
    }
  }

  /** Copies are on the side of the mount they are under. */
  lemma CopiesKeepSides(a: Attach, n: nat, x: Seat)
    requires a.Is() && x in a.copies && forall s :: s in a.all ==> s.mount.pivotSide <= n
    ensures x.mount.pivotSide <= n
  {
    CopiesAre(a, x);
    var i: nat, k: nat :| a.Copy(i, k, x);
    CopyLooks(a, i, k, x);
    assert a.all[i] in a.all;
  }

  lemma AttachKeepsSides(a: Attach, current: nat, was: seq<Mount>, wasParked: map<nat, seq<Mount>>,
                         now: seq<Mount>, nowParked: map<nat, seq<Mount>>, n: nat)
    requires a.Is() && AllSidesTo(current, was, wasParked, n) && SidesTo(a.tree, n)
    requires Listing(current, was, wasParked, a.all) && MountBelow.ListsAfter(a, current, now, nowParked)
    ensures AllSidesTo(current, now, nowParked, n)
  {
    forall s | s in a.all ensures s.mount.pivotSide <= n {
      SeatIsListed(a.all, s);
      assert SidesTo(ListOf(current, was, wasParked, s.ns), n);
    }
    forall m | m in a.grown ensures m.pivotSide <= n {
      var k :| 0 <= k < |a.grown| && a.grown[k] == m;
      assert a.tree[k] in a.tree;
    }
    forall ns, m | m in ListOf(current, now, nowParked, ns) ensures m.pivotSide <= n {
      if Seat(ns, m) in a.copies { CopiesKeepSides(a, n, Seat(ns, m)); }
    }
  }

  lemma UnmountKeepsSides(ms: seq<Mount>, point: Path, r: Unmounted, n: nat)
    requires SidesTo(ms, n) && (!r.Refused? ==> LastAt(ms, point).Some?)
    ensures SidesTo(UnmountResult(ms, point, r), n)
  {
    if r.Hid? {
      var i := LastAt(ms, point).value;
      var rest := ms[..i] + ms[i + 1..];
      assert forall m :: m in rest ==> m in ms;
      forall m | m in MovedAll(rest, point, ms[i].pivotSide, r.move.to) ensures m.pivotSide <= n {
        MovedAllFrom(rest, point, ms[i].pivotSide, r.move.to, m);
      }
    }
  }

  // Binding.

  /**
   The mounts a bind adds: the guest's and never locked; of the same filesystem, flags and
   groups as what they stand for, so peers of a shared mount and slaves of a slave's master.
   */
  predicate StandsFor(x: Mount, m: Mount) {
    && x.guest && !x.locked && x.fs == m.fs && x.readOnly == m.readOnly && x.unbindable == m.unbindable
    && x.peer == m.peer && x.master == m.master && x.pivotSide == m.pivotSide
  }

  lemma BoundStandsFor(m: Mount, source: Path, target: Path)
    requires m.point <= source
    ensures StandsFor(Bound(m, source, target), m) && Bound(m, source, target).point == target
    ensures Bound(m, source, target).subdir == m.subdir + source[|m.point|..]
  {
  }

  lemma {:induction false} MirroredStandFor(ms: seq<Mount>, source: Path, target: Path, x: Mount)
    ensures x in Mirrored(ms, source, target) <==>
            exists m :: && m in ms && source < m.point && !m.unbindable && StandsFor(x, m) && x.subdir == m.subdir
                        && x.point == target + m.point[|source|..]
    decreases |ms|
  {
    if ms != [] {
      var n := |ms| - 1;
      MirroredStandFor(ms[..n], source, target, x);
      assert ms[n] in ms && forall m :: m in ms <==> m in ms[..n] || m == ms[n];
    }
  }

  // Copying a namespace.

  /**
   Without a lock the copy is the mount. With one it is locked, unless at `/`, and no longer
   shared: it follows the group the original is in, or what the original follows.
   */
  lemma InheritedMeans(m: Mount, lock: bool)
    ensures var c := MountTable.Inherited(m, lock);
      && c.point == m.point && c.fs == m.fs && c.subdir == m.subdir && c.guest == m.guest
      && c.readOnly == m.readOnly && c.pivotSide == m.pivotSide && c.unbindable == m.unbindable
      && (!lock ==> c == m)
      && (lock ==> c.peer == 0 && c.locked == (m.locked || m.point != []))
      && (lock ==> c.master == if m.peer != 0 then m.peer else m.master)
  {
  }

  /** So what is mounted under the original shows under the copy, and nothing goes the other way. */
  lemma InheritedFollows(all: seq<Seat>, m: Mount, ns: nat)
    requires m.peer != 0
    ensures IsReceiver(all, m.peer, Seat(ns, MountTable.Inherited(m, true)))
    ensures forall ms, point :: Winner(ms, point) == Some(MountTable.Inherited(m, true)) ==> !UnderShared(ms, point)
  {
  }

  // Changing propagation.

  /** Another mount is in the group of mount `m` of namespace `ns`. */
  ghost predicate InGroupTwice(all: seq<Seat>, g: nat) {
    exists i, j :: 0 <= i < j < |all| && all[i].mount.peer == g && all[j].mount.peer == g
  }

  lemma {:induction false} PeerCountTells(all: seq<Seat>, g: nat)
    ensures PeerCount(all, g) > 0 <==> exists i :: 0 <= i < |all| && all[i].mount.peer == g
    ensures PeerCount(all, g) > 1 <==> InGroupTwice(all, g)
    decreases |all|
  {
    if all != [] {
      var n := |all| - 1;
      var rest := all[..n];
      PeerCountTells(rest, g);
      if InGroupTwice(rest, g) {
        var i, j :| 0 <= i < j < |rest| && rest[i].mount.peer == g && rest[j].mount.peer == g;
        assert all[i].mount.peer == g && all[j].mount.peer == g;
      }
      if all[n].mount.peer == g && PeerCount(rest, g) > 0 {
        var i :| 0 <= i < |rest| && rest[i].mount.peer == g;
        assert all[i].mount.peer == g;
      }
      if InGroupTwice(all, g) {
        var i, j :| 0 <= i < j < |all| && all[i].mount.peer == g && all[j].mount.peer == g;
        assert rest[i].mount.peer == g;
        if j < n { assert rest[j].mount.peer == g; }
      }
    }
  }

  // Any two listings of the mounts hold the same.

  lemma {:induction false} ForCounts(all: seq<Seat>, s: Seat)
    ensures multiset(all)[s] == multiset(For(all, s.ns))[s.mount]
    decreases |all|
  {
    if all != [] {
      var n := |all| - 1;
      ForCounts(all[..n], s);
      assert all == all[..n] + [all[n]];
    }
  }

  lemma {:induction false} PeerCountConcat(a: seq<Seat>, b: seq<Seat>, g: nat)
    ensures PeerCount(a + b, g) == PeerCount(a, g) + PeerCount(b, g)
    decreases |b|
  {
    if b == [] {
      assert a + b == a;
    } else {
      assert (a + b)[..|a + b| - 1] == a + b[..|b| - 1];
      PeerCountConcat(a, b[..|b| - 1], g);
    }
  }

  lemma {:induction false} PeerCountPermuted(a: seq<Seat>, b: seq<Seat>, g: nat)
    requires multiset(a) == multiset(b)
    ensures PeerCount(a, g) == PeerCount(b, g)
    decreases |a|
  {
    if a == [] {
      assert |multiset(b)| == 0;
    } else {
      var n := |a| - 1;
      var p := Matching(a, n, b);
      OneLess(a, n);
      OneLess(b, p);
      var front, back := b[..p], b[p + 1..];
      EndsThere(a);
      PeerCountPermuted(a[..n], front + back, g);
      PeerCountApart(front, a[n], back, g);
      assert b == front + [a[n]] + back;
    }
  }

  lemma EndsThere(a: seq<Seat>)
    requires a != []
    ensures a[..|a| - 1] + a[|a| - 1 + 1..] == a[..|a| - 1]
  {
  }

  lemma Matching(a: seq<Seat>, n: nat, b: seq<Seat>) returns (p: nat)
    requires n < |a| && multiset(a) == multiset(b)
    ensures p < |b| && b[p] == a[n]
  {
    assert a[n] in multiset(a) && a[n] in multiset(b);
    p :| 0 <= p < |b| && b[p] == a[n];
  }

  lemma OneLess(a: seq<Seat>, p: nat)
    requires p < |a|
    ensures multiset(a[..p] + a[p + 1..]) == multiset(a) - multiset{a[p]}
  {
    assert a == a[..p] + [a[p]] + a[p + 1..];
  }

  lemma PeerCountApart(front: seq<Seat>, x: Seat, back: seq<Seat>, g: nat)
    ensures PeerCount(front + [x] + back, g) == PeerCount(front + back, g) + if x.mount.peer == g then 1 else 0
  {
    PeerCountConcat(front, back, g);
    PeerCountConcat(front + [x], back, g);
    PeerCountConcat(front, [x], g);
    assert [x][..0] == [];
  }

  lemma SameCount(current: nat, mounts: seq<Mount>, parked: map<nat, seq<Mount>>, a: seq<Seat>, b: seq<Seat>, g: nat)
    requires Listing(current, mounts, parked, a) && Listing(current, mounts, parked, b)
    ensures PeerCount(a, g) == PeerCount(b, g)
  {
    forall s ensures multiset(a)[s] == multiset(b)[s] {
      ForCounts(a, s);
      ForCounts(b, s);
    }
    PeerCountPermuted(a, b, g);
  }

  /** Of one mount changed, whatever the kind: its place and everything but how it propagates stays, and all others. */
  ghost predicate OnlyPropagation(was: Stage, i: nat, now: Stage)
    requires i < |was.mounts|
  {
    && |now.mounts| == |was.mounts| && (forall j :: 0 <= j < |was.mounts| && j != i ==> now.mounts[j] == was.mounts[j])
    && now.mounts[i] == was.mounts[i].(peer := now.mounts[i].peer, master := now.mounts[i].master,
                                       unbindable := now.mounts[i].unbindable)
  }

  /**
   Shared: in a group, its own new one unless it was in one, still following whom it
   followed. Private and unbindable: in no group and following none. Slave: in no group,
   following the one it was in if another mount still is, or else whom it followed.
   */
  lemma SetMeans(current: nat, parked: map<nat, seq<Mount>>, was: Stage, i: nat, kind: Propagation, now: Stage,
                 all: seq<Seat>)
    requires i < |was.mounts| && SetStep(current, parked, was, i, kind, now)
    requires Listing(current, was.mounts, parked, all)
    ensures OnlyPropagation(was, i, now) && (now.mounts[i].unbindable <==> kind.Unbindable?)
    ensures var m, x := was.mounts[i], now.mounts[i];
      && (kind.Shared? ==>
            && x.master == m.master && x.peer == (if m.peer != 0 then m.peer else now.groups)
            && now.groups == was.groups + if m.peer != 0 then 0 else 1)
      && (!kind.Shared? ==> x.peer == 0 && now.groups == was.groups)
      && (kind.Private? || kind.Unbindable? ==> x.master == 0)
      && (kind.Slave? ==>
            x.master == if m.peer != 0 && InGroupTwice(all, m.peer) then m.peer else m.master)
  {
    var m := was.mounts[i];
    PeerCountTells(all, m.peer);
    if kind.Slave? && m.peer != 0 {
      var other :| && Listing(current, was.mounts, parked, other)
                   && now == was.(mounts := was.mounts[i := m.(
                        peer := 0, unbindable := false,
                        master := if PeerCount(other, m.peer) > 1 then m.peer else m.master)]);
      SameCount(current, was.mounts, parked, all, other, m.peer);
    }
  }
}
