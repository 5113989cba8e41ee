/**
 What is mounted below the copy a slave got stays with the slave: it never reaches what
 the slave follows.
 */
module MountBelow {
  import opened Options
  import opened Mounts
  import opened MountPropagation
  import opened MountGroups
  import opened MountLevels
  import opened MountWorklist
  import opened MountLists
  import opened MountOutcomes
  import opened MountCopies

  /** Groups are reached from older ones only, so never from each other. */
  lemma ReachedIsLater(owner: Owner, all: seq<Seat>, fs: nat, g: nat, h: nat)
    requires OneFs(owner, all) && Reached(SeatsOn(all, fs), g, h)
    ensures g <= h
  {
    var later := (set s | s in all && s.mount.peer >= g :: s.mount.peer) + {g};
    forall s | s in SeatsOn(all, fs) && s.mount.master in later && s.mount.peer != 0 ensures s.mount.peer in later {
      assert Fits(owner, s.mount);
    }
    assert Closed(SeatsOn(all, fs), later);
  }

  lemma ReachedNext(seats: set<Seat>, g: nat, s: Seat)
    requires s in seats && Reached(seats, g, s.mount.master) && s.mount.peer != 0
    ensures Reached(seats, g, s.mount.peer)
  {
  }

  /** The mounts after an attach: those before it, the tree and the copies. */
  ghost predicate After(a: Attach, now: seq<Seat>) {
    forall s :: s in now ==> s in a.all || s.mount in a.grown || s in a.copies
  }

  /** The group `h` of the mounts there were is reached from `g`. */
  ghost predicate From(a: Attach, g: nat, h: nat) {
    Reached(SeatsOn(a.all, a.source.fs), g, h)
  }

  /** The groups that copies of mount `k` have under groups reached from `g`. */
  ghost function GroupsBelow(a: Attach, levels: Levels, g: nat, k: nat): set<nat> {
    set h | h in levels && From(a, g, h) && k < |levels[h]| :: levels[h][k]
  }

  /** `s` is a copy of mount `k` under a mount reached from `g`. */
  ghost predicate CopyBelow(a: Attach, g: nat, k: nat, s: Seat) {
    exists j: nat :: a.Copy(j, k, s) && From(a, g, Home(a.all[j].mount))
  }

  ghost predicate Setting(a: Attach, owner: Owner, levels: Levels, lo: nat, mid: nat, hi: nat, g: nat, k: nat) {
    && a.Is() && OneFs(owner, a.all) && a.By(levels, lo, mid, hi)
    && g in levels && g != a.start && k < |a.grown|
  }

  lemma StartIsNotBelow(a: Attach, owner: Owner, levels: Levels, lo: nat, mid: nat, hi: nat, g: nat, k: nat)
    requires Setting(a, owner, levels, lo, mid, hi, g, k)
    ensures !From(a, g, a.start)
  {
    ReachedIsLater(owner, a.all, a.source.fs, a.start, g);
    if From(a, g, a.start) { ReachedIsLater(owner, a.all, a.source.fs, g, a.start); }
  }

  /** A mount in, or following, one of those groups is a copy. */
  lemma HasNewGroup(a: Attach, owner: Owner, levels: Levels, lo: nat, mid: nat, hi: nat, g: nat, k: nat,
                    now: seq<Seat>, s: Seat, h: nat)
    requires Setting(a, owner, levels, lo, mid, hi, g, k) && After(a, now) && s in now
    requires h in levels && From(a, g, h) && (s.mount.peer == levels[h][k] || s.mount.master == levels[h][k])
    ensures h != a.start && levels[h][k] != 0 && exists j: nat, l: nat :: a.Copy(j, l, s)
  {
    StartIsNotBelow(a, owner, levels, lo, mid, hi, g, k);
    LevelIsGiven(a, levels, lo, mid, hi, h, k);
    CopiesAre(a, s);
  }

  lemma FollowsBelow(a: Attach, owner: Owner, levels: Levels, lo: nat, mid: nat, hi: nat, g: nat, k: nat,
                     now: seq<Seat>, s: Seat, h: nat)
    requires Setting(a, owner, levels, lo, mid, hi, g, k) && After(a, now) && s in now
    requires h in levels && From(a, g, h) && s.mount.master == levels[h][k]
    ensures CopyBelow(a, g, k, s) && (s.mount.peer != 0 ==> s.mount.peer in GroupsBelow(a, levels, g, k))
  {
    HasNewGroup(a, owner, levels, lo, mid, hi, g, k, now, s, h);
    var j: nat, l: nat :| a.Copy(j, l, s);
    var t := a.all[j].mount;
    CopyLevels(a, levels, lo, mid, hi, j, l, s);
    if t.peer == 0 {
      LevelTells(a, levels, lo, mid, hi, t.master, l, h, k);
    } else {
      var o :| && o in a.all && o.mount.fs == a.source.fs && o.mount.peer == t.peer
               && o.mount.master in levels && s.mount.master == levels[o.mount.master][l];
      LevelTells(a, levels, lo, mid, hi, o.mount.master, l, h, k);
      ReachedNext(SeatsOn(a.all, a.source.fs), g, o);
    }
    assert a.Copy(j, k, s) && From(a, g, Home(a.all[j].mount));
  }

  lemma MemberBelow(a: Attach, owner: Owner, levels: Levels, lo: nat, mid: nat, hi: nat, g: nat, k: nat,
                    now: seq<Seat>, s: Seat, h: nat)
    requires Setting(a, owner, levels, lo, mid, hi, g, k) && After(a, now) && s in now
    requires h in levels && From(a, g, h) && s.mount.peer == levels[h][k]
    ensures CopyBelow(a, g, k, s)
  {
    HasNewGroup(a, owner, levels, lo, mid, hi, g, k, now, s, h);
    var j: nat, l: nat :| a.Copy(j, l, s);
    CopyLevels(a, levels, lo, mid, hi, j, l, s);
    LevelTells(a, levels, lo, mid, hi, a.all[j].mount.peer, l, h, k);
    assert a.Copy(j, k, s) && From(a, g, Home(a.all[j].mount));
  }

  /** Nothing leads out of those groups. */
  lemma BelowIsClosed(a: Attach, owner: Owner, levels: Levels, lo: nat, mid: nat, hi: nat, g: nat, k: nat,
                      now: seq<Seat>)
    requires Setting(a, owner, levels, lo, mid, hi, g, k) && After(a, now)
    ensures Closed(Seats(now), GroupsBelow(a, levels, g, k))
  {
    var groups := GroupsBelow(a, levels, g, k);
    forall s | s in Seats(now) && s.mount.master in groups && s.mount.peer != 0 ensures s.mount.peer in groups {
      var h :| h in levels && From(a, g, h) && k < |levels[h]| && s.mount.master == levels[h][k];
      FollowsBelow(a, owner, levels, lo, mid, hi, g, k, now, s, h);
    }
  }

  /**
   What happens under the copy of mount `k` that a shared slave got happens under copies
   of `k` below mounts reached from the slave's group, and nowhere else: not under the
   original, nor under any mount there was before, nor under a copy made for the parent's
   own group.
   */
  lemma StaysBelow(a: Attach, owner: Owner, now: seq<Seat>, i: nat, k: nat, x: Seat, s: Seat)
    requires a.Is() && OneFs(owner, a.all) && After(a, now) && a.Copy(i, k, x)
    requires a.all[i].mount.peer != 0 && a.all[i].mount.peer != a.start
    requires s in now && IsReceiver(now, x.mount.peer, s)
    ensures CopyBelow(a, a.all[i].mount.peer, k, s) && !From(a, a.all[i].mount.peer, a.start)
  {
    var levels, lo, mid, hi := SomeLevels(a);
    var g := a.all[i].mount.peer;
    CopyLevels(a, levels, lo, mid, hi, i, k, x);
    BelowIsClosed(a, owner, levels, lo, mid, hi, g, k, now);
    StartIsNotBelow(a, owner, levels, lo, mid, hi, g, k);
    var groups := GroupsBelow(a, levels, g, k);
    assert x.mount.peer in groups;
    if s.mount.peer in groups {
      var h :| h in levels && From(a, g, h) && k < |levels[h]| && s.mount.peer == levels[h][k];
      MemberBelow(a, owner, levels, lo, mid, hi, g, k, now, s, h);
    } else {
      var h :| h in levels && From(a, g, h) && k < |levels[h]| && s.mount.master == levels[h][k];
      FollowsBelow(a, owner, levels, lo, mid, hi, g, k, now, s, h);
    }
  }

  /** The lists of every namespace after an attach hold what was there, the tree and the copies. */
  ghost predicate ListsAfter(a: Attach, current: nat, mounts: seq<Mount>, parked: map<nat, seq<Mount>>) {
    forall ns, m :: m in ListOf(current, mounts, parked, ns) ==>
      Seat(ns, m) in a.all || m in a.grown || Seat(ns, m) in a.copies
  }

  lemma {:induction false} ListedIsSeat(all: seq<Seat>, ns: nat, m: Mount)
    requires m in For(all, ns)
    ensures Seat(ns, m) in all
    decreases |all|
  {
    var n := |all| - 1;
    if !(all[n].ns == ns && all[n].mount == m) { ListedIsSeat(all[..n], ns, m); }
  }

  /** So the outcome of an attach leaves them. */
  lemma AttachLeaves(a: Attach, current: nat, was: seq<Mount>, wasParked: map<nat, seq<Mount>>,
                     now: seq<Mount>, nowParked: map<nat, seq<Mount>>)
    requires a.tree != [] && UnderShared(was, a.tree[0].point)
    requires AttachOutcome(current, was, wasParked, a.tree, now, nowParked, a.all, a.grown, a.drops, a.copies)
    ensures ListsAfter(a, current, now, nowParked)
  {
    forall ns, m | m in ListOf(current, now, nowParked, ns)
      ensures Seat(ns, m) in a.all || m in a.grown || Seat(ns, m) in a.copies
    {
      if m in ListOf(current, was, wasParked, ns) { ListedIsSeat(a.all, ns, m); }
      if m in For(a.copies, ns) { ListedIsSeat(a.copies, ns, m); }
    }
  }

  lemma SeatsAfter(a: Attach, current: nat, mounts: seq<Mount>, parked: map<nat, seq<Mount>>, all: seq<Seat>)
    requires ListsAfter(a, current, mounts, parked) && Listing(current, mounts, parked, all)
    ensures After(a, all)
  {
    forall s | s in all ensures s in a.all || s.mount in a.grown || s in a.copies {
      SeatIsListed(all, s);
      assert s == Seat(s.ns, s.mount);
    }
  }

  /**
   A tree mounted, later, below the copy `x` that a slave got. Not shared: nothing but the
   slave's namespace changes. Shared: every further copy goes below a copy made for what
   is reached from the slave's group.
   */
  lemma MountedBelowSlave(a: Attach, owner: Owner, i: nat, k: nat, x: Seat, current: nat,
                          was: seq<Mount>, wasParked: map<nat, seq<Mount>>,
                          now: seq<Mount>, nowParked: map<nat, seq<Mount>>, b: Attach)
    requires a.Is() && OneFs(owner, a.all) && a.Copy(i, k, x) && a.all[i].mount.peer != a.start
    requires ListsAfter(a, current, was, wasParked)
    requires b.tree != [] && Winner(was, b.tree[0].point) == Some(x.mount) && b.start == x.mount.peer
    requires b.source == Source(x.mount.fs, current, x.mount.point) && b.at == FsPath(x.mount, b.tree[0].point)
    requires AttachOutcome(current, was, wasParked, b.tree, now, nowParked, b.all, b.grown, b.drops, b.copies)
    ensures a.all[i].mount.peer == 0 ==> now == was + b.tree && nowParked == wasParked
    ensures a.all[i].mount.peer != 0 ==>
              b.Is() && forall j: nat, l: nat, y :: b.Copy(j, l, y) ==> CopyBelow(a, a.all[i].mount.peer, k, b.all[j])
  {
    if a.all[i].mount.peer == 0 {
      CopyUnderSlave(a, i, k, x);
    } else {
      CopiesShareGroups(a, i, i, k, x, x);
      SeatsAfter(a, current, was, wasParked, b.all);
      forall j: nat, l: nat, y | b.Copy(j, l, y) ensures CopyBelow(a, a.all[i].mount.peer, k, b.all[j]) {
        CopyUnderEach(b, j, l);
        StaysBelow(a, owner, b.all, i, k, x, b.all[j]);
      }
    }
  }
}
