/**
 Mounting a new filesystem under a shared mount and unmounting it again: when every
 namespace is left as it was.
 */
module MountRestore {
  import opened Errno
  import opened Options
  import opened Paths
  import opened Mounts
  import opened MountPivot
  import opened MountDetach
  import opened MountPropagation
  import MG = MountGroups
  import opened MountWorklist
  import opened MountLists
  import opened MountOutcomes
  import opened MountClear
  import opened MountTableObject
  import opened MountKeep
  import opened MountCounts

  // The whole trip.

  /** A new filesystem about to be mounted at `point`, under `parent`, in a table listed by `all`. */
  datatype Trip = Trip(
    current: nat, was: seq<Mount>, parked: map<nat, seq<Mount>>, all: seq<Seat>, parent: Mount, point: Path, fs: nat)
  {
    function Base(ns: nat): seq<Mount> { ListOf(current, was, parked, ns) }

    function Source(): Source { MountPropagation.Source(parent.fs, current, parent.point) }

    function At(): Path
      requires parent.point <= point
    {
      FsPath(parent, point)
    }

    /** The parent is shared and nothing is at `point` yet, the filesystem is mounted nowhere. */
    ghost predicate Ready() {
      && Winner(was, point) == Some(parent) && parent.peer != 0 && parent.point != point
      && Listing(current, was, parked, all) && (forall ns :: Without(Base(ns), fs))
      && Apart(Source(), all, parent.peer, At(), point)
    }

    /**
     What namespace `ns` receives it gives up again: nothing is mounted below a place that
     is looked at, and slaves at the parent's own place, which is not, share theirs with
     as many mounts that are found twice.
     */
    ghost predicate AllSettled(ns: nat)
      requires parent.point <= point
    {
      && (forall i: nat :: Receives(all, parent.peer, At(), i) && all[i].ns == ns && !IsSource(Source(), all[i]) ==>
            !Busy(Base(ns), PlaceOf(At(), all[i])))
      && (forall p :: Slaves(Source(), all, parent.peer, At(), ns, p)
                      <= Twice(Source(), all, parent.peer, At(), ns, p))
    }
  }

  /** Where the seats on one filesystem are the same, so is what is reached from its groups. */
  lemma SameTurns(owner: MG.Owner, all: seq<Seat>, more: seq<Seat>, start: nat, fs: nat, s: Seat)
    requires MG.OneFs(owner, all) && MG.OneFs(owner, more) && 0 !in owner && start in MG.SameFs(owner, fs)
    requires SeatsOn(all, fs) == SeatsOn(more, fs)
    ensures Turns(all, start, s) == Turns(more, start, s)
    ensures MG.Fits(owner, s.mount) && Turns(all, start, s) > 0 ==> s.mount.fs == fs
  {
    MG.ReachedOnOneFs(owner, all, fs, start, s.mount.peer);
    MG.ReachedOnOneFs(owner, all, fs, start, s.mount.master);
    MG.ReachedOnOneFs(owner, more, fs, start, s.mount.peer);
    MG.ReachedOnOneFs(owner, more, fs, start, s.mount.master);
  }

  /** The filesystem is mounted, with all its copies. */
  ghost predicate Mounted(t: Trip, grown: seq<Mount>, drops: seq<Drop>, copies: seq<Seat>) {
    && t.Ready()
    && Attached(t.Source(), t.parent.peer, [GuestMount(t.point, t.fs)], t.At(), t.all, grown, drops, copies)
  }

  /** The receivers the unmount finds. */
  ghost predicate Finds(t: Trip, targets: seq<Seat>) {
    FoundIn(t.all, t.parent.peer, targets)
  }

  function AddedTo(t: Trip, grown: seq<Mount>, copies: seq<Seat>, ns: nat): seq<Mount> {
    if ns == t.current then grown + For(copies, ns) else For(copies, ns)
  }

  /** The copies leave room for each other. */
  lemma AddedApart(t: Trip, grown: seq<Mount>, drops: seq<Drop>, copies: seq<Seat>, targets: seq<Seat>, ns: nat)
    requires Mounted(t, grown, drops, copies) && Finds(t, targets)
    ensures AllOf(AddedTo(t, grown, copies, ns), t.fs)
    ensures Spread(AddedTo(t, grown, copies, ns), ns, t.Source(), t.At(), targets)
  {
    var added := AddedTo(t, grown, copies, ns);
    forall m | m in added ensures m.fs == t.fs {
      if m in For(copies, ns) { CopiesFrom(grown, t.At(), t.all, drops, ns, m); }
    }
    forall s | s in targets && Looks(t.Source(), t.At(), ns, s) ensures !Busy(added, PlaceOf(t.At(), s)) {
      TurnsOfReceiver(t.all, t.parent.peer, s);
      assert multiset(targets)[s] > 0;
      var i :| 0 <= i < |t.all| && t.all[i] == s;
      assert Receives(t.all, t.parent.peer, t.At(), i);
      forall m | m in added ensures !(PlaceOf(t.At(), s) < m.point) {
        if m in For(copies, ns) {
          CopiesFrom(grown, t.At(), t.all, drops, ns, m);
          var j: nat :| CopyFrom(t.all, t.At(), drops, ns, t.fs, m, j);
          assert Receives(t.all, t.parent.peer, t.At(), j);
        }
      }
    }
  }

  /** Copies put at each place. */
  lemma PutAt(t: Trip, grown: seq<Mount>, drops: seq<Drop>, copies: seq<Seat>, ns: nat, p: Path)
    requires Mounted(t, grown, drops, copies)
    ensures Points(For(copies, ns))[p] == Others(t.Source(), t.all, t.parent.peer, t.At(), ns, p)
                                          + Slaves(t.Source(), t.all, t.parent.peer, t.At(), ns, p)
  {
    CopyPoints(grown, t.At(), t.all, drops, ns, p);
    CopiesAreOthersAndSlaves(t.Source(), t.all, t.parent.peer, t.At(), drops, ns, p);
  }

  lemma OthersAreOnFs(t: Trip, grown: seq<Mount>, drops: seq<Drop>, copies: seq<Seat>)
    requires Mounted(t, grown, drops, copies)
    ensures OnFs(t.Source(), t.all, t.parent.peer)
  {
    forall i | 0 <= i < |t.all| && IsReceiver(t.all, t.parent.peer, t.all[i]) && !IsSource(t.Source(), t.all[i])
      ensures t.all[i].mount.fs == t.parent.fs
    {
      assert Served(drops, i) && GetsCopy(t.Source(), t.all, t.parent.peer, t.all[i]);
    }
  }

  /** Visits made to each place. */
  lemma VisitedAt(
    t: Trip, grown: seq<Mount>, drops: seq<Drop>, copies: seq<Seat>, targets: seq<Seat>, ns: nat, p: Path)
    requires Mounted(t, grown, drops, copies) && Finds(t, targets)
    ensures Emptied(t.Base(ns), ns, t.Source(), t.At(), targets)[p] ==
            if Busy(t.Base(ns), p) then 0
            else Others(t.Source(), t.all, t.parent.peer, t.At(), ns, p)
                 + Twice(t.Source(), t.all, t.parent.peer, t.At(), ns, p)
  {
    OthersAreOnFs(t, grown, drops, copies);
    VisitsCount(t.Base(ns), t.Source(), t.all, t.parent.peer, t.At(), ns, p, targets);
  }

  /** What one place receives is settled. */
  ghost predicate SettledHere(t: Trip, ns: nat, p: Path)
    requires t.parent.point <= t.point
  {
    && (Others(t.Source(), t.all, t.parent.peer, t.At(), ns, p) > 0 ==> !Busy(t.Base(ns), p))
    && Slaves(t.Source(), t.all, t.parent.peer, t.At(), ns, p) <= Twice(t.Source(), t.all, t.parent.peer, t.At(), ns, p)
  }

  /** There are visits enough at a place, exactly if what it receives is settled. */
  lemma SettledAt(
    t: Trip, grown: seq<Mount>, drops: seq<Drop>, copies: seq<Seat>, targets: seq<Seat>, ns: nat, p: Path)
    requires Mounted(t, grown, drops, copies) && Finds(t, targets)
    ensures Points(For(copies, ns))[p] <= Emptied(t.Base(ns), ns, t.Source(), t.At(), targets)[p]
            <==> SettledHere(t, ns, p)
  {
    PutAt(t, grown, drops, copies, ns, p);
    VisitedAt(t, grown, drops, copies, targets, ns, p);
    OthersCount(t.Source(), t.all, t.parent.peer, t.At(), ns, p);
  }

  /** A namespace is settled by its mounts if it is at every place. */
  lemma SettledByPlace(t: Trip, ns: nat)
    requires t.Ready()
    ensures t.AllSettled(ns) <==> forall p :: SettledHere(t, ns, p)
  {
    if t.AllSettled(ns) {
      forall p ensures SettledHere(t, ns, p) { OthersCount(t.Source(), t.all, t.parent.peer, t.At(), ns, p); }
    }
    if forall p :: SettledHere(t, ns, p) {
      forall i: nat | Receives(t.all, t.parent.peer, t.At(), i) && t.all[i].ns == ns && !IsSource(t.Source(), t.all[i])
        ensures !Busy(t.Base(ns), PlaceOf(t.At(), t.all[i]))
      {
        var p := PlaceOf(t.At(), t.all[i]);
        OthersCount(t.Source(), t.all, t.parent.peer, t.At(), ns, p);
        assert SettledHere(t, ns, p) && Here(t.all, t.parent.peer, t.At(), ns, p, i);
      }
      forall p ensures Slaves(t.Source(), t.all, t.parent.peer, t.At(), ns, p)
                       <= Twice(t.Source(), t.all, t.parent.peer, t.At(), ns, p)
      {
        assert SettledHere(t, ns, p);
      }
    }
  }

  /** What the unmount leaves of the copies in a namespace: nothing, exactly if all there are settled. */
  lemma CopiesGone(t: Trip, grown: seq<Mount>, drops: seq<Drop>, copies: seq<Seat>, targets: seq<Seat>, ns: nat)
    requires Mounted(t, grown, drops, copies) && Finds(t, targets)
    ensures Left(For(copies, ns), Emptied(t.Base(ns), ns, t.Source(), t.At(), targets)) == [] <==> t.AllSettled(ns)
  {
    var list, gone := For(copies, ns), Emptied(t.Base(ns), ns, t.Source(), t.At(), targets);
    LeftNothing(list, gone);
    forall p ensures Points(list)[p] <= gone[p] <==> SettledHere(t, ns, p) {
      SettledAt(t, grown, drops, copies, targets, ns, p);
    }
    SettledByPlace(t, ns);
  }

  // What `unmount` does with it.

  lemma {:induction false} ParentIsWinner(ms: seq<Mount>, point: Path)
    requires forall m :: m in ms ==> m.point != point
    ensures Parent(ms, point) == Winner(ms, point)
    decreases |ms|
  {
    if ms != [] {
      assert ms[|ms| - 1] in ms;
      ParentIsWinner(ms[..|ms| - 1], point);
    }
  }

  lemma {:induction false} ParentBefore(ms: seq<Mount>, added: seq<Mount>, point: Path)
    requires forall m :: m in added ==> !(m.point < point)
    ensures Parent(ms + added, point) == Parent(ms, point)
    decreases |added|
  {
    if added == [] {
      assert ms + added == ms;
    } else {
      assert (ms + added)[..|ms + added| - 1] == ms + added[..|added| - 1];
      assert added[|added| - 1] in added;
      ParentBefore(ms, added[..|added| - 1], point);
    }
  }

  /** The last mount at `point` is among those added, if one of them is there. */
  lemma {:induction false} LastIsAdded(ms: seq<Mount>, added: seq<Mount>, point: Path)
    requires exists m :: m in added && m.point == point
    ensures LastAt(ms + added, point).Some? && |ms| <= LastAt(ms + added, point).value
    decreases |added|
  {
    var n := |added| - 1;
    assert (ms + added)[..|ms + added| - 1] == ms + added[..n] && (ms + added)[|ms + added| - 1] == added[n];
    if added[n].point != point {
      var m :| m in added && m.point == point;
      assert m in added[..n];
      LastIsAdded(ms, added[..n], point);
    }
  }

  /** The unmount is not refused, and finds the parent the mount had. */
  lemma UnmountStarts(t: Trip, grown: seq<Mount>, drops: seq<Drop>, copies: seq<Seat>)
    requires Mounted(t, grown, drops, copies)
    ensures var now := t.was + AddedTo(t, grown, copies, t.current);
            && Refusal(now, t.current, t.point) == OK && Parent(now, t.point) == Some(t.parent)
            && now[LastAt(now, t.point).value].point == t.point && now[LastAt(now, t.point).value].fs == t.fs
  {
    var added := AddedTo(t, grown, copies, t.current);
    forall m | m in added ensures m.fs == t.fs && m.guest && !m.locked && !(m.point < t.point) {
      if m in For(copies, t.current) {
        CopiesFrom(grown, t.At(), t.all, drops, t.current, m);
        var i :| CopyFrom(t.all, t.At(), drops, t.current, t.fs, m, i);
        assert Receives(t.all, t.parent.peer, t.At(), i);
      }
    }
    assert grown[0] in added;
    LastIsAdded(t.was, added, t.point);
    NothingAt(t.was, t.point);
    ParentIsWinner(t.was, t.point);
    ParentBefore(t.was, added, t.point);
    var k := LastAt(t.was + added, t.point).value;
    assert (t.was + added)[k] == added[k - |t.was|];
  }

  lemma {:induction false} NothingAt(ms: seq<Mount>, point: Path)
    requires Winner(ms, point).Some? && Winner(ms, point).value.point != point
    ensures forall m :: m in ms ==> m.point != point
    decreases |ms|
  {
    if Winner(ms[..|ms| - 1], point).Some? {
      NothingAt(ms[..|ms| - 1], point);
    } else {
      WinnerIsBest(ms[..|ms| - 1], point);
    }
  }

  /** At most one more mount goes: the new one, unless a visit has taken it already. */
  lemma RemovesOne(was: seq<Mount>, own: seq<Mount>, rest: seq<Mount>, point: Path, n: nat)
    requires |own| <= 1 && (own != [] ==> own[0].point == point && own[0].pivotSide == 0)
    requires forall x :: x in was ==> x.point != point
    requires own == [] ==> forall x :: x in rest ==> x.point != point
    ensures var mid := was + own + rest;
            var r := UnmountReply(mid, point, false, n);
            && (!r.Refused? ==> LastAt(mid, point).Some?)
            && (UnmountResult(mid, point, r) == was <==>
                rest == [] && (own != [] ==> !exists x :: x in was && GoesAlong(x, point, 0)))
  {
    var mid := was + own + rest;
    if own == [] {
      assert mid == was + rest && forall x :: x in mid ==> x.point != point;
    } else if rest == [] {
      assert mid == was + [own[0]] && mid[..|was|] == was && mid[|was| + 1..] == [];
      assert LastAt(mid, point) == Some(|was|);
      assert forall x :: x in mid <==> x in was || x == own[0];
    } else {
      assert |UnmountResult(mid, point, UnmountReply(mid, point, false, n))| > |was|;
    }
  }

  /** A namespace's list after the mount and the propagation of the unmount. */
  lemma PropagatedList(t: Trip, grown: seq<Mount>, drops: seq<Drop>, copies: seq<Seat>, targets: seq<Seat>, ns: nat)
    requires Mounted(t, grown, drops, copies) && Finds(t, targets)
    ensures var gone := Emptied(t.Base(ns), ns, t.Source(), t.At(), targets);
            var own := if ns == t.current then Left(grown, gone - Points(For(copies, ns))) else [];
            Prune(t.Base(ns) + AddedTo(t, grown, copies, ns), ns, t.Source(), t.At(), t.fs, targets)
            == t.Base(ns) + own + Left(For(copies, ns), gone)
  {
    var gone := Emptied(t.Base(ns), ns, t.Source(), t.At(), targets);
    AddedApart(t, grown, drops, copies, targets, ns);
    PruneEmpties(t.Base(ns), AddedTo(t, grown, copies, ns), ns, t.Source(), t.At(), t.fs, targets);
    var rest := Left(For(copies, ns), gone);
    if ns == t.current {
      var own := Left(grown, gone - Points(For(copies, ns)));
      LeftConcat(grown, For(copies, ns), gone);
      Regrouped(t.Base(ns), own, rest);
    } else {
      Regrouped(t.Base(ns), [], rest);
    }
  }

  lemma Regrouped(a: seq<Mount>, b: seq<Mount>, c: seq<Mount>)
    ensures a + b + c == a + (b + c) && [] + c == c
  {
  }

  /** What the visits leave of the mount itself: if they take it, nothing of its place is left or below. */
  lemma OwnIsLeft(t: Trip, grown: seq<Mount>, drops: seq<Drop>, copies: seq<Seat>, targets: seq<Seat>)
    requires Mounted(t, grown, drops, copies) && Finds(t, targets)
    ensures var gone := Emptied(t.was, t.current, t.Source(), t.At(), targets);
            var own := Left(grown, gone - Points(For(copies, t.current)));
            && |own| <= 1 && (own != [] ==> own == grown)
            && (own == [] ==> (forall x :: x in Left(For(copies, t.current), gone) ==> x.point != t.point)
                              && !exists x :: x in t.was && GoesAlong(x, t.point, 0))
  {
    var gone, list := Emptied(t.was, t.current, t.Source(), t.At(), targets), For(copies, t.current);
    assert grown == [] + [grown[0]];
    LeftSnoc([], grown[0], gone - Points(list));
    PutAt(t, grown, drops, copies, t.current, t.point);
    VisitedAt(t, grown, drops, copies, targets, t.current, t.point);
    LeftPoints(list, gone);
    PointsAt(Left(list, gone), t.point);
    if t.point in gone - Points(list) {
      assert !Busy(t.was, t.point);
    }
  }

  /** Nothing in the current namespace goes along with the mount, and every copy is given up again. */
  ghost predicate Clean(t: Trip)
    requires t.parent.point <= t.point
  {
    && (forall ns :: ns == t.current || ns in t.parked ==> t.AllSettled(ns))
    && !exists x :: x in t.was && GoesAlong(x, t.point, 0)
  }

  /** The lists the unmount leaves are those there were. */
  ghost predicate Returns(t: Trip, grown: seq<Mount>, copies: seq<Seat>, targets: seq<Seat>, n: nat)
    requires t.parent.point <= t.point
  {
    var now := t.was + AddedTo(t, grown, copies, t.current);
    var mid := Prune(now, t.current, t.Source(), t.At(), t.fs, targets);
    var r := UnmountReply(mid, t.point, false, n);
    && UnmountResult(mid, t.point, r) == t.was
    && forall ns :: ns in t.parked && ns != t.current ==>
         Prune(t.parked[ns] + For(copies, ns), ns, t.Source(), t.At(), t.fs, targets) == t.parked[ns]
  }

  /** Unmounting leaves every namespace as it was before the mount, if and only if the trip is clean. */
  lemma UnmountUndoesMount(
    t: Trip, grown: seq<Mount>, drops: seq<Drop>, copies: seq<Seat>, targets: seq<Seat>, n: nat)
    requires Mounted(t, grown, drops, copies) && Finds(t, targets)
    ensures Returns(t, grown, copies, targets, n) <==> Clean(t)
  {
    CurrentReturns(t, grown, drops, copies, targets, n);
    forall ns | ns in t.parked && ns != t.current
      ensures Prune(t.parked[ns] + For(copies, ns), ns, t.Source(), t.At(), t.fs, targets) == t.parked[ns]
              <==> t.AllSettled(ns)
    {
      ParkedReturns(t, grown, drops, copies, targets, ns);
    }
  }

  lemma CurrentReturns(
    t: Trip, grown: seq<Mount>, drops: seq<Drop>, copies: seq<Seat>, targets: seq<Seat>, n: nat)
    requires Mounted(t, grown, drops, copies) && Finds(t, targets)
    ensures
      var now := t.was + AddedTo(t, grown, copies, t.current);
      var mid := Prune(now, t.current, t.Source(), t.At(), t.fs, targets);
      UnmountResult(mid, t.point, UnmountReply(mid, t.point, false, n)) == t.was
      <==> t.AllSettled(t.current) && !exists x :: x in t.was && GoesAlong(x, t.point, 0)
  {
    var gone := Emptied(t.was, t.current, t.Source(), t.At(), targets);
    PropagatedList(t, grown, drops, copies, targets, t.current);
    OwnIsLeft(t, grown, drops, copies, targets);
    NothingAt(t.was, t.point);
    var own, rest := Left(grown, gone - Points(For(copies, t.current))), Left(For(copies, t.current), gone);
    RemovesOne(t.was, own, rest, t.point, n);
    CopiesGone(t, grown, drops, copies, targets, t.current);
  }

  lemma ParkedReturns(t: Trip, grown: seq<Mount>, drops: seq<Drop>, copies: seq<Seat>, targets: seq<Seat>, ns: nat)
    requires Mounted(t, grown, drops, copies) && Finds(t, targets) && ns in t.parked && ns != t.current
    ensures Prune(t.parked[ns] + For(copies, ns), ns, t.Source(), t.At(), t.fs, targets) == t.parked[ns]
            <==> t.AllSettled(ns)
  {
    PropagatedList(t, grown, drops, copies, targets, ns);
    CopiesGone(t, grown, drops, copies, targets, ns);
    assert t.parked[ns] + [] == t.parked[ns];
    NothingAdded(t.parked[ns], Left(For(copies, ns), Emptied(t.Base(ns), ns, t.Source(), t.At(), targets)));
  }

  lemma NothingAdded(a: seq<Mount>, b: seq<Mount>)
    ensures a + b == a <==> b == []
  {
    assert a + b == a ==> |a + b| == |a|;
  }

  // The same on the table itself.

  lemma {:induction false} ListedIsSeat(all: seq<Seat>, ns: nat, m: Mount)
    requires m in For(all, ns)
    ensures Seat(ns, m) in all
    decreases |all|
  {
    var last := all[|all| - 1];
    if last != Seat(ns, m) { ListedIsSeat(all[..|all| - 1], ns, m); }
  }

  /** The seats on the parent's filesystem are those there were: what was added is on another. */
  lemma SameSeats(t: Trip, grown: seq<Mount>, drops: seq<Drop>, copies: seq<Seat>, more: seq<Seat>)
    requires Mounted(t, grown, drops, copies)
    requires forall ns :: For(more, ns) == t.Base(ns) + AddedTo(t, grown, copies, ns)
    ensures SeatsOn(t.all, t.parent.fs) == SeatsOn(more, t.parent.fs) && forall s :: s in t.all ==> s in more
  {
    assert t.parent in t.Base(t.current);
    forall s ensures s in t.all ==> s in more {
      if s in t.all {
        SeatIsListed(t.all, s);
        ListedIsSeat(more, s.ns, s.mount);
      }
    }
    forall s | s in more && s.mount.fs == t.parent.fs ensures s in t.all {
      SeatIsListed(more, s);
      if s.mount in For(copies, s.ns) { CopiesFrom(grown, t.At(), t.all, drops, s.ns, s.mount); }
      ListedIsSeat(t.all, s.ns, s.mount);
    }
  }

  /** A seat is listed as often as its mount is in its namespace's list. */
  lemma {:induction false} SeatCount(all: seq<Seat>, s: Seat)
    ensures multiset(all)[s] == multiset(For(all, s.ns))[s.mount]
    decreases |all|
  {
    if all != [] {
      var rest, last := all[..|all| - 1], all[|all| - 1];
      assert all == rest + [last];
      SeatCount(rest, s);
    }
  }

  /** Nothing that was added is a receiver, and the receivers are those there were, as often. */
  lemma ReceiversStay(
    t: Trip, owner: MG.Owner, grown: seq<Mount>, drops: seq<Drop>, copies: seq<Seat>, more: seq<Seat>, s: Seat)
    requires Mounted(t, grown, drops, copies) && MG.OneFs(owner, more) && 0 !in owner
    requires t.parent.peer in MG.SameFs(owner, t.parent.fs)
    requires forall ns :: For(more, ns) == t.Base(ns) + AddedTo(t, grown, copies, ns)
    ensures Turns(t.all, t.parent.peer, s) == Turns(more, t.parent.peer, s)
    ensures s in more && Turns(more, t.parent.peer, s) > 0 ==> multiset(t.all)[s] == multiset(more)[s]
    ensures s in t.all ==> s in more
  {
    SameSeats(t, grown, drops, copies, more);
    SameTurns(owner, t.all, more, t.parent.peer, t.parent.fs, s);
    if s in more && Turns(more, t.parent.peer, s) > 0 {
      assert MG.Fits(owner, s.mount) && s.mount.fs == t.parent.fs;
      SeatCount(t.all, s);
      SeatCount(more, s);
      AddedElsewhere(t, grown, drops, copies, s);
    }
  }

  lemma AddedElsewhere(t: Trip, grown: seq<Mount>, drops: seq<Drop>, copies: seq<Seat>, s: Seat)
    requires Mounted(t, grown, drops, copies) && s.mount.fs == t.parent.fs
    ensures s.mount !in AddedTo(t, grown, copies, s.ns)
  {
    assert t.parent in t.Base(t.current);
    if s.mount in For(copies, s.ns) { CopiesFrom(grown, t.At(), t.all, drops, s.ns, s.mount); }
  }

  lemma ListsAfter(t: Trip, grown: seq<Mount>, drops: seq<Drop>, copies: seq<Seat>, now: seq<Mount>,
                   nowParked: map<nat, seq<Mount>>, ns: nat)
    requires Mounted(t, grown, drops, copies) && nowParked.Keys == t.parked.Keys && t.current !in t.parked
    requires now == t.was + grown + For(copies, t.current)
    requires forall ns :: ns in nowParked ==> nowParked[ns] == t.parked[ns] + For(copies, ns)
    ensures ListOf(t.current, now, nowParked, ns) == t.Base(ns) + AddedTo(t, grown, copies, ns)
  {
    if ns == t.current {
      assert t.was + grown + For(copies, ns) == t.was + (grown + For(copies, ns));
    } else if ns !in t.parked {
      NoneForOthers(t, grown, drops, copies, ns);
    }
  }

  /** A namespace that is not there gets no copy. */
  lemma NoneForOthers(t: Trip, grown: seq<Mount>, drops: seq<Drop>, copies: seq<Seat>, ns: nat)
    requires Mounted(t, grown, drops, copies) && ns != t.current && ns !in t.parked
    ensures For(copies, ns) == []
  {
    var list := For(copies, ns);
    if list != [] {
      CopiesFrom(grown, t.At(), t.all, drops, ns, list[0]);
      var i: nat :| CopyFrom(t.all, t.At(), drops, ns, t.fs, list[0], i);
      SeatIsListed(t.all, t.all[i]);
    }
  }

  /** Another listing with the same receivers, as often. */
  ghost predicate SameFound(t: Trip, more: seq<Seat>) {
    forall targets {:trigger FoundIn(more, t.parent.peer, targets)} ::
      FoundIn(more, t.parent.peer, targets) ==> Finds(t, targets)
  }

  lemma FoundAlike(
    t: Trip, owner: MG.Owner, grown: seq<Mount>, drops: seq<Drop>, copies: seq<Seat>, more: seq<Seat>,
    targets: seq<Seat>)
    requires Mounted(t, grown, drops, copies) && MG.OneFs(owner, more) && 0 !in owner
    requires t.parent.peer in MG.SameFs(owner, t.parent.fs) && FoundIn(more, t.parent.peer, targets)
    requires forall ns :: For(more, ns) == t.Base(ns) + AddedTo(t, grown, copies, ns)
    ensures Finds(t, targets)
  {
    forall s ensures multiset(targets)[s] == Times(Turns(t.all, t.parent.peer, s), multiset(t.all)[s]) {
      ReceiversStay(t, owner, grown, drops, copies, more, s);
      assert s !in more ==> multiset(more)[s] == 0 && multiset(t.all)[s] == 0;
    }
  }

  /** What is known of the table once the filesystem is mounted. */
  lemma AfterMount(table: MountTable, t: Trip, grown: seq<Mount>, drops: seq<Drop>, copies: seq<Seat>)
    requires table.Valid() && t.Ready() && t.current == table.current
    requires AttachOutcome(t.current, t.was, t.parked, [GuestMount(t.point, t.fs)], table.mounts, table.parked,
                           t.all, grown, drops, copies)
    ensures Mounted(t, grown, drops, copies) && t.current !in t.parked
    ensures table.mounts == t.was + AddedTo(t, grown, copies, t.current)
    ensures Refusal(table.mounts, t.current, t.point) == OK && Parent(table.mounts, t.point) == Some(t.parent)
    ensures forall more :: table.Lists(more) ==> SameFound(t, more)
  {
    UnmountStarts(t, grown, drops, copies);
    forall ns ensures table.List(ns) == t.Base(ns) + AddedTo(t, grown, copies, ns) {
      ListsAfter(t, grown, drops, copies, table.mounts, table.parked, ns);
    }
    assert t.parent in table.mounts && MG.Fits(table.owner, t.parent);
    forall more | table.Lists(more) ensures SameFound(t, more) {
      table.SeatsFit(more);
      assert forall ns :: For(more, ns) == t.Base(ns) + AddedTo(t, grown, copies, ns);
      forall targets | FoundIn(more, t.parent.peer, targets) ensures Finds(t, targets) {
        FoundAlike(t, table.owner, grown, drops, copies, more, targets);
      }
    }
  }

  /** Both calls together changed nothing. */
  ghost predicate CameBack(t: Trip, mounts: seq<Mount>, parked: map<nat, seq<Mount>>) {
    mounts == t.was && parked == t.parked
  }

  /** The unmount, as the table states it. */
  ghost predicate Unmounts(
    current: nat, was: seq<Mount>, wasParked: map<nat, seq<Mount>>, point: Path, n: nat,
    now: seq<Mount>, nowParked: map<nat, seq<Mount>>, targets: seq<Seat>)
    requires LastAt(was, point).Some?
  {
    var parent, gone := Parent(was, point), was[LastAt(was, point).value];
    var mid := Propagated(was, current, parent, current, gone, targets);
    var r := UnmountReply(mid, point, false, n);
    && now == UnmountResult(mid, point, r) && nowParked.Keys == wasParked.Keys
    && forall ns :: ns in nowParked ==> nowParked[ns] == Propagated(wasParked[ns], ns, parent, current, gone, targets)
  }

  lemma BackIsReturned(
    t: Trip, grown: seq<Mount>, drops: seq<Drop>, copies: seq<Seat>, targets: seq<Seat>, n: nat,
    mid: seq<Mount>, midParked: map<nat, seq<Mount>>, now: seq<Mount>, nowParked: map<nat, seq<Mount>>)
    requires Mounted(t, grown, drops, copies) && t.current !in t.parked
    requires mid == t.was + AddedTo(t, grown, copies, t.current) && midParked.Keys == t.parked.Keys
    requires forall ns :: ns in t.parked ==> midParked[ns] == t.parked[ns] + For(copies, ns)
    requires LastAt(mid, t.point).Some? && Unmounts(t.current, mid, midParked, t.point, n, now, nowParked, targets)
    ensures CameBack(t, now, nowParked) <==> Returns(t, grown, copies, targets, n)
  {
    UnmountStarts(t, grown, drops, copies);
  }

  lemma TripEnds(
    t: Trip, grown: seq<Mount>, drops: seq<Drop>, copies: seq<Seat>, targets: seq<Seat>, n: nat,
    mid: seq<Mount>, midParked: map<nat, seq<Mount>>, now: seq<Mount>, nowParked: map<nat, seq<Mount>>)
    requires Mounted(t, grown, drops, copies) && Finds(t, targets) && t.current !in t.parked
    requires mid == t.was + AddedTo(t, grown, copies, t.current) && midParked.Keys == t.parked.Keys
    requires forall ns :: ns in t.parked ==> midParked[ns] == t.parked[ns] + For(copies, ns)
    requires LastAt(mid, t.point).Some? && Unmounts(t.current, mid, midParked, t.point, n, now, nowParked, targets)
    ensures CameBack(t, now, nowParked) <==> Clean(t)
  {
    BackIsReturned(t, grown, drops, copies, targets, n, mid, midParked, now, nowParked);
    UnmountUndoesMount(t, grown, drops, copies, targets, n);
  }

  /**
   `mount_guest` and then `unmount`, under a shared mount where nothing is mounted yet:
   every namespace's list is what it was, if and only if the trip is clean.
   */
  method MountAndUnmount(table: MountTable, point: Path, fs: nat) returns (ghost t: Trip)
    requires table.Valid() && Clear(point, table.detached)
    modifies table
    ensures table.Valid()
    ensures t.current == old(table.current) && t.was == old(table.mounts) && t.parked == old(table.parked)
    ensures t.point == point && t.fs == fs && (Winner(t.was, point).Some? ==> t.parent == Winner(t.was, point).value)
    ensures Listing(t.current, t.was, t.parked, t.all)
    ensures t.Ready() ==> (CameBack(t, table.mounts, table.parked) <==> Clean(t))
  {
    ghost var was, parked, above := table.mounts, table.parked, Winner(table.mounts, point);
    ghost var parent := if above.Some? then above.value else GuestMount(point, fs);
    var every := table.AllMounts();
    ghost var start, grown, drops, copies := table.MountGuest(point, fs);
    t := Trip(table.current, was, parked, if parent.peer != 0 then start else every, parent, point, fs);
    ghost var now, nowParked, n := table.mounts, table.parked, table.detached;
    if t.Ready() {
      AfterMount(table, t, grown, drops, copies);
    }
    ghost var _, targets := table.Unmount(point, false);
    if t.Ready() {
      TripEnds(t, grown, drops, copies, targets, n, now, nowParked, table.mounts, table.parked);
    }
  }
}
