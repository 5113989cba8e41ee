/**
 The copies that attaching a tree under a shared mount makes: which there are, what they
 look like, and which peer groups and masters they have. Mounting below a slave's copy
 never reaches what the slave follows.
 */
module MountCopies {
  import opened Paths
  import opened Mounts
  import opened MountPropagation
  import opened MountGroups
  import opened MountLevels
  import opened MountWorklist
  import opened MountOutcomes

  /** `x` is what drop `d` makes of mount `k` of the tree. */
  ghost predicate IsCopy(tree: seq<Mount>, top: Path, at: Path, s: Seat, d: Drop, k: nat, x: Seat) {
    && k < |tree| == |d.peers| == |d.masters| && TreeAt(tree, top) && s.mount.subdir <= at
    && x == CopiesUnder(tree, top, at, s, d)[k]
  }

  /** A tree attached under a mount of group `start`: everything there is to say about it. */
  datatype Attach = Attach(
    source: Source, start: nat, tree: seq<Mount>, at: Path, all: seq<Seat>,
    grown: seq<Mount>, drops: seq<Drop>, copies: seq<Seat>)
  {
    ghost predicate Is() {
      tree != [] && start != 0 && Attached(source, start, tree, at, all, grown, drops, copies)
    }

    /** `x` is the copy of mount `k` of the tree under mount `i`. */
    ghost predicate Copy(i: nat, k: nat, x: Seat) {
      && tree != [] && i < |all| && k < |grown|
      && exists d :: d in drops && d.seat == i && IsCopy(grown, tree[0].point, at, all[i], d, k, x)
    }

    /** The copies of the group `g` are told apart by `levels`. */
    ghost predicate By(levels: Levels, lo: nat, mid: nat, hi: nat) {
      GroupedBy(source.fs, all, start, tree, grown, levels, drops, lo, mid, hi)
    }
  }

  // Which there are.

  ghost predicate Under(tree: seq<Mount>, top: Path, at: Path, s: Seat, d: Drop, x: Seat) {
    TreeAt(tree, top) && |d.peers| == |d.masters| == |tree| && x in CopiesUnder(tree, top, at, s, d)
  }

  ghost predicate UnderSome(tree: seq<Mount>, top: Path, at: Path, all: seq<Seat>, drops: seq<Drop>, x: Seat)
    requires Sized(tree, all, drops)
  {
    exists d :: d in drops && Under(tree, top, at, all[d.seat], d, x)
  }

  lemma UnderOneMore(tree: seq<Mount>, top: Path, at: Path, all: seq<Seat>, drops: seq<Drop>, d: Drop, x: Seat)
    requires Sized(tree, all, drops + [d])
    ensures Sized(tree, all, drops) && d.seat < |all|
    ensures UnderSome(tree, top, at, all, drops + [d], x) <==>
            UnderSome(tree, top, at, all, drops, x) || Under(tree, top, at, all[d.seat], d, x)
  {
    assert d in drops + [d] && forall e :: e in drops ==> e in drops + [d];
  }

  lemma {:induction false} CopyOfDrop(tree: seq<Mount>, top: Path, at: Path, all: seq<Seat>, drops: seq<Drop>, x: Seat)
    requires TreeAt(tree, top) && Sized(tree, all, drops)
    ensures x in AllCopies(tree, top, at, all, drops) <==> UnderSome(tree, top, at, all, drops, x)
    decreases |drops|
  {
    if drops != [] {
      var n := |drops| - 1;
      var rest, last := drops[..n], drops[n];
      CopyOfDrop(tree, top, at, all, rest, x);
      EitherPart(AllCopies(tree, top, at, all, rest), CopiesUnder(tree, top, at, all[last.seat], last), x);
      assert drops == rest + [last];
      UnderOneMore(tree, top, at, all, rest, last, x);
    }
  }

  lemma EitherPart<T>(a: seq<T>, b: seq<T>, x: T)
    ensures x in a + b <==> x in a || x in b
  {
  }

  lemma UnderIsOne(tree: seq<Mount>, top: Path, at: Path, s: Seat, d: Drop, x: Seat)
    ensures Under(tree, top, at, s, d, x) <==> exists k: nat :: IsCopy(tree, top, at, s, d, k, x)
  {
    if Under(tree, top, at, s, d, x) {
      var k: nat :| k < |tree| && x == CopiesUnder(tree, top, at, s, d)[k];
      assert IsCopy(tree, top, at, s, d, k, x);
    }
  }

  /** The copies are those under the receivers, and nothing else. */
  lemma CopiesAre(a: Attach, x: Seat)
    requires a.Is()
    ensures x in a.copies <==> exists i: nat, k: nat :: a.Copy(i, k, x)
  {
    CopyOfDrop(a.grown, a.tree[0].point, a.at, a.all, a.drops, x);
    if x in a.copies { CopyIsPlaced(a, x); }
    if i: nat, k: nat :| a.Copy(i, k, x) {
      var d :| d in a.drops && d.seat == i && IsCopy(a.grown, a.tree[0].point, a.at, a.all[i], d, k, x);
      UnderIsOne(a.grown, a.tree[0].point, a.at, a.all[d.seat], d, x);
    }
  }

  lemma CopyIsPlaced(a: Attach, x: Seat)
    requires a.tree != [] && exists d :: d in a.drops && d.seat < |a.all|
                                         && Under(a.grown, a.tree[0].point, a.at, a.all[d.seat], d, x)
    ensures exists i: nat, k: nat :: a.Copy(i, k, x)
  {
    var top := a.tree[0].point;
    var d :| d in a.drops && d.seat < |a.all| && Under(a.grown, top, a.at, a.all[d.seat], d, x);
    UnderIsOne(a.grown, top, a.at, a.all[d.seat], d, x);
    var k: nat :| IsCopy(a.grown, top, a.at, a.all[d.seat], d, k, x);
    assert a.Copy(d.seat, k, x);
  }

  /** Mounts that get no copy though they are reached: shared ones at the parent's own place. */
  ghost predicate Gets(a: Attach, i: nat) {
    && i < |a.all| && a.all[i].mount.subdir <= a.at && IsReceiver(a.all, a.start, a.all[i])
    && (a.all[i].mount.peer != 0 ==> !IsSource(a.source, a.all[i]))
  }

  /** One copy of each mount of the tree under each that gets one. */
  lemma CopyUnderEach(a: Attach, i: nat, k: nat)
    requires a.Is() && k < |a.tree|
    ensures Gets(a, i) <==> exists x :: a.Copy(i, k, x)
  {
    if Gets(a, i) {
      assert Served(a.drops, i);
      var d :| d in a.drops && d.seat == i;
      var x := CopiesUnder(a.grown, a.tree[0].point, a.at, a.all[i], d)[k];
      assert IsCopy(a.grown, a.tree[0].point, a.at, a.all[i], d, k, x) && a.Copy(i, k, x);
    }
    if x :| a.Copy(i, k, x) { assert Served(a.drops, i); }
  }

  lemma OneUnderEach(a: Attach, i: nat, k: nat, x: Seat, y: Seat)
    requires a.Is() && a.Copy(i, k, x) && a.Copy(i, k, y)
    ensures x == y
  {
    OneDrop(a.drops, i);
  }

  lemma OneDrop(drops: seq<Drop>, i: nat)
    requires Distinct(drops)
    ensures forall d, e :: d in drops && e in drops && d.seat == i && e.seat == i ==> d == e
  {
  }

  /** What a copy looks like: the mount, at the same place of the filesystem, the guest's and not locked. */
  lemma CopyLooks(a: Attach, i: nat, k: nat, x: Seat)
    requires a.Is() && a.Copy(i, k, x)
    ensures var m, s := a.tree[k], a.all[i];
      && x.ns == s.ns && s.mount.point <= x.mount.point
      && FsPath(s.mount, x.mount.point) == a.at + m.point[|a.tree[0].point|..]
      && x.mount.fs == m.fs && x.mount.subdir == m.subdir && x.mount.readOnly == m.readOnly
      && x.mount.unbindable == m.unbindable && x.mount.guest && !x.mount.locked
      && x.mount.pivotSide == s.mount.pivotSide
  {
    var d :| d in a.drops && d.seat == i && IsCopy(a.grown, a.tree[0].point, a.at, a.all[i], d, k, x);
    CopyIsAtThePlace(a.grown[k], a.tree[0].point, a.at, a.all[i].mount, d.peers[k], d.masters[k]);
  }

  // Their groups.

  lemma SomeLevels(a: Attach) returns (levels: Levels, lo: nat, mid: nat, hi: nat)
    requires a.Is()
    ensures a.By(levels, lo, mid, hi)
  {
    levels, lo, mid, hi :| GroupedBy(a.source.fs, a.all, a.start, a.tree, a.grown, levels, a.drops, lo, mid, hi);
  }

  /** The groups of a copy, in terms of the levels. */
  lemma CopyLevels(a: Attach, levels: Levels, lo: nat, mid: nat, hi: nat, i: nat, k: nat, x: Seat)
    requires a.Is() && a.By(levels, lo, mid, hi) && a.Copy(i, k, x)
    ensures var s := a.all[i].mount;
      if s.peer == 0 then x.mount.peer == 0 && s.master in levels && x.mount.master == levels[s.master][k]
      else
        && s.peer in levels && x.mount.peer == levels[s.peer][k]
        && if s.peer == a.start then x.mount.master == 0
           else exists o :: && o in a.all && o.mount.fs == a.source.fs && o.mount.peer == s.peer
                            && o.mount.master in levels && x.mount.master == levels[o.mount.master][k]
  {
    var d :| d in a.drops && d.seat == i && IsCopy(a.grown, a.tree[0].point, a.at, a.all[i], d, k, x);
    var s := a.all[i].mount;
    assert DropGrouped(a.source.fs, a.all, a.start, levels, d);
    if s.peer != 0 && s.peer != a.start {
      var o :| o in a.all && IsOrigin(o, a.source.fs, levels, s.peer, d.masters);
      assert x.mount.master == levels[o.mount.master][k];
    }
  }

  /** Groups no mount is in or follows, neither one there was nor one of the tree. */
  ghost predicate Unused(a: Attach, g: nat) {
    && g != 0 && (forall s :: s in a.all ==> s.mount.peer != g && s.mount.master != g)
    && (forall m :: m in a.grown ==> m.peer != g && m.master != g)
  }

  /** A level's groups are there, and new unless they are the tree's own. */
  lemma LevelIsGiven(a: Attach, levels: Levels, lo: nat, mid: nat, hi: nat, g: nat, k: nat)
    requires a.Is() && a.By(levels, lo, mid, hi) && g in levels && k < |a.grown|
    ensures levels[g][k] != 0 && (g == a.start ==> levels[g][k] == a.grown[k].peer <= mid)
    ensures g != a.start ==> levels[g][k] > mid && Unused(a, levels[g][k])
  {
    forall j | 0 <= j < |a.grown| ensures a.grown[j].peer <= mid && a.grown[j].master <= mid {
      assert a.tree[j] in a.tree;
    }
    if g != a.start { assert NewNumbers(levels[g], mid, hi); }
  }

  lemma OneLevel(levels: Levels, start: nat, mid: nat, hi: nat, g: nat, k: nat, h: nat, l: nat)
    requires LevelsApart(levels, start, mid, hi) && g in levels && h in levels && g != start && h != start
    requires k < |levels[g]| && l < |levels[h]| && levels[g][k] == levels[h][l]
    ensures g == h && k == l
  {
    assert NewNumbers(levels[g], mid, hi) && levels[g][k] in levels[g] && levels[h][l] in levels[h];
  }

  /** Numbers of the levels but the first tell the group and the mount of the tree. */
  lemma LevelTells(a: Attach, levels: Levels, lo: nat, mid: nat, hi: nat, g: nat, k: nat, h: nat, l: nat)
    requires a.Is() && a.By(levels, lo, mid, hi) && g in levels && h in levels && k < |a.grown| && l < |a.grown|
    requires levels[g][k] == levels[h][l]
    ensures g == h && (g != a.start ==> k == l)
  {
    LevelIsGiven(a, levels, lo, mid, hi, g, k);
    LevelIsGiven(a, levels, lo, mid, hi, h, l);
    if g != a.start && h != a.start {
      OneLevel(levels, a.start, mid, hi, g, k, h, l);
    }
  }

  /** Under a member of the parent's group: the original's group, and no master. */
  lemma CopyUnderPeer(a: Attach, i: nat, k: nat, x: Seat)
    requires a.Is() && a.Copy(i, k, x) && a.all[i].mount.peer == a.start != 0
    ensures x.mount.peer == a.grown[k].peer != 0 && x.mount.master == 0
  {
    var levels, lo, mid, hi := SomeLevels(a);
    CopyLevels(a, levels, lo, mid, hi, i, k, x);
  }

  /**
   Under a slave that is not shared: no group, and the slave of the same mount's copy
   under a member of its master's group, or of the original under the parent's own.
   */
  lemma CopyUnderSlave(a: Attach, i: nat, k: nat, x: Seat)
    requires a.Is() && a.Copy(i, k, x) && a.all[i].mount.peer == 0
    ensures x.mount.peer == 0 && x.mount.master != 0
    ensures a.all[i].mount.master == a.start ==> x.mount.master == a.grown[k].peer
    ensures forall j: nat, y :: a.Copy(j, k, y) && a.all[j].mount.peer == a.all[i].mount.master ==>
              x.mount.master == y.mount.peer
  {
    var levels, lo, mid, hi := SomeLevels(a);
    CopyLevels(a, levels, lo, mid, hi, i, k, x);
    LevelIsGiven(a, levels, lo, mid, hi, a.all[i].mount.master, k);
    forall j: nat, y | a.Copy(j, k, y) && a.all[j].mount.peer == a.all[i].mount.master
      ensures x.mount.master == y.mount.peer
    {
      CopyLevels(a, levels, lo, mid, hi, j, k, y);
    }
  }

  /** Under a shared slave: a new group, the slave of one a member of its group follows. */
  lemma CopyUnderSharedSlave(a: Attach, i: nat, k: nat, x: Seat)
    requires a.Is() && a.Copy(i, k, x) && a.all[i].mount.peer != 0 && a.all[i].mount.peer != a.start
    ensures Unused(a, x.mount.peer) && x.mount.master != 0
    ensures exists o :: && o in a.all && o.mount.peer == a.all[i].mount.peer
                        && (o.mount.master == a.start ==> x.mount.master == a.grown[k].peer)
                        && forall j: nat, y :: a.Copy(j, k, y) && a.all[j].mount.peer == o.mount.master != 0 ==>
                             x.mount.master == y.mount.peer
  {
    var levels, lo, mid, hi := SomeLevels(a);
    CopyLevels(a, levels, lo, mid, hi, i, k, x);
    var o :| && o in a.all && o.mount.fs == a.source.fs && o.mount.peer == a.all[i].mount.peer
             && o.mount.master in levels && x.mount.master == levels[o.mount.master][k];
    LevelIsGiven(a, levels, lo, mid, hi, a.all[i].mount.peer, k);
    LevelIsGiven(a, levels, lo, mid, hi, o.mount.master, k);
    forall j: nat, y | a.Copy(j, k, y) && a.all[j].mount.peer == o.mount.master != 0
      ensures x.mount.master == y.mount.peer
    {
      CopyLevels(a, levels, lo, mid, hi, j, k, y);
    }
  }

  /** Copies are in one group exactly where the mounts they are under are. */
  lemma CopiesShareGroups(a: Attach, i: nat, j: nat, k: nat, x: Seat, y: Seat)
    requires a.Is() && a.Copy(i, k, x) && a.Copy(j, k, y) && a.all[i].mount.peer != 0
    ensures x.mount.peer != 0 && (x.mount.peer == y.mount.peer <==> a.all[i].mount.peer == a.all[j].mount.peer)
  {
    var levels, lo, mid, hi := SomeLevels(a);
    CopyLevels(a, levels, lo, mid, hi, i, k, x);
    CopyLevels(a, levels, lo, mid, hi, j, k, y);
    LevelIsGiven(a, levels, lo, mid, hi, a.all[i].mount.peer, k);
    if x.mount.peer == y.mount.peer {
      LevelTells(a, levels, lo, mid, hi, a.all[i].mount.peer, k, a.all[j].mount.peer, k);
    }
  }
}
