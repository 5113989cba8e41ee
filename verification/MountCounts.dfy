/**
 The copies of one new mount under a shared one, and the visits of an unmount, counted
 place by place.
 */
module MountCounts {
  import opened Paths
  import opened Mounts
  import opened MountPropagation
  import MG = MountGroups
  import opened MountWorklist
  import opened MountLists
  import opened MountKeep

  // The copies of one new mount.

  /** A receiver in whose filesystem part the place is. */
  ghost predicate Receives(all: seq<Seat>, start: nat, at: Path, i: nat) {
    i < |all| && IsReceiver(all, start, all[i]) && all[i].mount.subdir <= at
  }

  /**
   No place that receives a copy is above another in its namespace, nor in the current
   one above `point`: whether such a copy goes would hang on the order of the worklist.
   */
  ghost predicate Apart(c: Source, all: seq<Seat>, start: nat, at: Path, point: Path) {
    && (forall i: nat :: Receives(all, start, at, i) && all[i].ns == c.ns ==> !(PlaceOf(at, all[i]) < point))
    && (forall i: nat, j: nat :: Receives(all, start, at, i) && Receives(all, start, at, j) ==>
          IsSource(c, all[i]) || all[i].ns != all[j].ns || !(PlaceOf(at, all[i]) < PlaceOf(at, all[j])))
  }

  /** The copies of a single mount at `top`, in namespace `ns`, with the places they are at. */
  ghost predicate CopyFrom(all: seq<Seat>, at: Path, drops: seq<Drop>, ns: nat, fs: nat, m: Mount, i: nat) {
    && i < |all| && Served(drops, i) && all[i].ns == ns && all[i].mount.subdir <= at
    && m.point == PlaceOf(at, all[i]) && m.fs == fs && m.guest && !m.locked
  }

  lemma OneCopy(tree: seq<Mount>, at: Path, s: Seat, d: Drop, ns: nat)
    requires |tree| == |d.peers| == |d.masters| == 1
    ensures var out := For(MG.CopiesUnder(tree, tree[0].point, at, s, d), ns);
            if s.ns == ns && s.mount.subdir <= at then
              |out| == 1 && out[0].point == PlaceOf(at, s) && out[0].fs == tree[0].fs && out[0].guest && !out[0].locked
            else out == []
  {
    var under := MG.CopiesUnder(tree, tree[0].point, at, s, d);
    if s.mount.subdir <= at {
      assert under == [] + [under[0]] && For([], ns) == [];
      assert under[..0] == [];
      assert tree[0].point[|tree[0].point|..] == [];
    }
  }

  lemma {:induction false} CopiesFrom(
    tree: seq<Mount>, at: Path, all: seq<Seat>, drops: seq<Drop>, ns: nat, m: Mount)
    requires |tree| == 1 && TreeAt(tree, tree[0].point) && Sized(tree, all, drops)
    requires m in For(AllCopies(tree, tree[0].point, at, all, drops), ns)
    ensures exists i :: CopyFrom(all, at, drops, ns, tree[0].fs, m, i)
    decreases |drops|
  {
    var rest, d := drops[..|drops| - 1], drops[|drops| - 1];
    var before, here := AllCopies(tree, tree[0].point, at, all, rest),
                        MG.CopiesUnder(tree, tree[0].point, at, all[d.seat], d);
    ForConcat(before, here, ns);
    OneCopy(tree, at, all[d.seat], d, ns);
    if m in For(before, ns) {
      CopiesFrom(tree, at, all, rest, ns, m);
      var i :| CopyFrom(all, at, rest, ns, tree[0].fs, m, i);
      ServedMore(rest, d, i);
      assert CopyFrom(all, at, drops, ns, tree[0].fs, m, i);
    } else {
      assert Served(drops, d.seat);
      assert CopyFrom(all, at, drops, ns, tree[0].fs, m, d.seat);
    }
  }

  lemma ServedMore(rest: seq<Drop>, d: Drop, i: nat)
    ensures Served(rest + [d], i) <==> Served(rest, i) || d.seat == i
  {
    ServedConcat(rest, [d], i);
    assert d in [d];
  }

  lemma NotServedTwice(rest: seq<Drop>, d: Drop, i: nat)
    requires Distinct(rest + [d]) && Served(rest, i)
    ensures d.seat != i
  {
    var x :| x in rest && x.seat == i;
    var k :| 0 <= k < |rest| && rest[k] == x;
    assert (rest + [d])[k].seat != (rest + [d])[|rest|].seat;
  }

  // Counting.

  /** The sum of the first `n`. */
  function Tally(k: seq<nat>, n: nat): nat
    requires n <= |k|
  {
    if n == 0 then 0 else Tally(k, n - 1) + k[n - 1]
  }

  lemma {:induction false} TallySum(k: seq<nat>, a: seq<nat>, b: seq<nat>, n: nat)
    requires n <= |k| == |a| == |b| && forall i :: 0 <= i < |k| ==> k[i] == a[i] + b[i]
    ensures Tally(k, n) == Tally(a, n) + Tally(b, n)
  {
    if n > 0 { TallySum(k, a, b, n - 1); }
  }

  lemma {:induction false} TallyLeast(a: seq<nat>, b: seq<nat>, n: nat)
    requires n <= |a| == |b| && forall i :: 0 <= i < |a| ==> a[i] <= b[i]
    ensures Tally(a, n) <= Tally(b, n)
  {
    if n > 0 { TallyLeast(a, b, n - 1); }
  }

  lemma {:induction false} TallyPositive(k: seq<nat>, n: nat)
    requires n <= |k|
    ensures Tally(k, n) > 0 <==> exists i :: 0 <= i < n && k[i] > 0
  {
    if n > 0 { TallyPositive(k, n - 1); }
  }

  lemma {:induction false} TallyBump(a: seq<nat>, b: seq<nat>, j: nat, n: nat)
    requires n <= |a| == |b| && j < |a| && b[j] == a[j] + 1
    requires forall i :: 0 <= i < |a| && i != j ==> b[i] == a[i]
    ensures Tally(b, n) == Tally(a, n) + if j < n then 1 else 0
  {
    if n > 0 { TallyBump(a, b, j, n - 1); }
  }

  // How many copies a place gets, and how many it is asked to give up.

  /** Mount number `i` receives a copy at `p`, in namespace `ns`. */
  ghost predicate Here(all: seq<Seat>, start: nat, at: Path, ns: nat, p: Path, i: nat) {
    Receives(all, start, at, i) && all[i].ns == ns && PlaceOf(at, all[i]) == p
  }

  /** One if it does so away from the parent's own place. */
  ghost function Other(c: Source, all: seq<Seat>, start: nat, at: Path, ns: nat, p: Path, i: nat): nat {
    if Here(all, start, at, ns, p, i) && !IsSource(c, all[i]) then 1 else 0
  }

  /** One if it is also found twice, being shared and a slave of another reached group. */
  ghost function Again(c: Source, all: seq<Seat>, start: nat, at: Path, ns: nat, p: Path, i: nat): nat {
    if Here(all, start, at, ns, p, i) && !IsSource(c, all[i]) && Turns(all, start, all[i]) == 2 then 1 else 0
  }

  /** One if it does so at the parent's own place, not being shared. */
  ghost function Unshared(c: Source, all: seq<Seat>, start: nat, at: Path, ns: nat, p: Path, i: nat): nat {
    if Here(all, start, at, ns, p, i) && IsSource(c, all[i]) && all[i].mount.peer == 0 then 1 else 0
  }

  ghost function OtherList(c: Source, all: seq<Seat>, start: nat, at: Path, ns: nat, p: Path): seq<nat> {
    seq(|all|, i requires 0 <= i < |all| => Other(c, all, start, at, ns, p, i))
  }

  ghost function AgainList(c: Source, all: seq<Seat>, start: nat, at: Path, ns: nat, p: Path): seq<nat> {
    seq(|all|, i requires 0 <= i < |all| => Again(c, all, start, at, ns, p, i))
  }

  ghost function UnsharedList(c: Source, all: seq<Seat>, start: nat, at: Path, ns: nat, p: Path): seq<nat> {
    seq(|all|, i requires 0 <= i < |all| => Unshared(c, all, start, at, ns, p, i))
  }

  /** How many mounts are such. */
  ghost function Others(c: Source, all: seq<Seat>, start: nat, at: Path, ns: nat, p: Path): nat {
    Tally(OtherList(c, all, start, at, ns, p), |all|)
  }

  ghost function Twice(c: Source, all: seq<Seat>, start: nat, at: Path, ns: nat, p: Path): nat {
    Tally(AgainList(c, all, start, at, ns, p), |all|)
  }

  ghost function Slaves(c: Source, all: seq<Seat>, start: nat, at: Path, ns: nat, p: Path): nat {
    Tally(UnsharedList(c, all, start, at, ns, p), |all|)
  }

  lemma OthersCount(c: Source, all: seq<Seat>, start: nat, at: Path, ns: nat, p: Path)
    ensures Twice(c, all, start, at, ns, p) <= Others(c, all, start, at, ns, p)
    ensures Others(c, all, start, at, ns, p) > 0 <==>
            exists i: nat :: i < |all| && Here(all, start, at, ns, p, i) && !IsSource(c, all[i])
  {
    var list := OtherList(c, all, start, at, ns, p);
    TallyLeast(AgainList(c, all, start, at, ns, p), list, |all|);
    TallyPositive(list, |all|);
    if i: nat :| i < |all| && Here(all, start, at, ns, p, i) && !IsSource(c, all[i]) {
      assert list[i] > 0;
    }
  }

  // The copies.

  predicate Lands(s: Seat, at: Path, ns: nat, p: Path) {
    s.ns == ns && s.mount.subdir <= at && PlaceOf(at, s) == p
  }

  ghost function CopyList(all: seq<Seat>, at: Path, drops: seq<Drop>, ns: nat, p: Path): seq<nat> {
    seq(|all|, i requires 0 <= i < |all| => if Served(drops, i) && Lands(all[i], at, ns, p) then 1 else 0)
  }

  ghost function CopiesAt(all: seq<Seat>, at: Path, drops: seq<Drop>, ns: nat, p: Path): nat {
    Tally(CopyList(all, at, drops, ns, p), |all|)
  }

  lemma CopiesAtMore(all: seq<Seat>, at: Path, rest: seq<Drop>, d: Drop, ns: nat, p: Path)
    requires d.seat < |all| && Distinct(rest + [d])
    ensures CopiesAt(all, at, rest + [d], ns, p) ==
            CopiesAt(all, at, rest, ns, p) + if Lands(all[d.seat], at, ns, p) then 1 else 0
  {
    var a, b := CopyList(all, at, rest, ns, p), CopyList(all, at, rest + [d], ns, p);
    forall i | 0 <= i < |all| ensures Served(rest + [d], i) <==> Served(rest, i) || d.seat == i {
      ServedMore(rest, d, i);
    }
    if Served(rest, d.seat) { NotServedTwice(rest, d, d.seat); }
    if Lands(all[d.seat], at, ns, p) {
      TallyBump(a, b, d.seat, |all|);
    } else {
      assert a == b;
    }
  }

  lemma NoCopies(all: seq<Seat>, at: Path, ns: nat, p: Path)
    ensures CopiesAt(all, at, [], ns, p) == 0
  {
    TallyPositive(CopyList(all, at, [], ns, p), |all|);
  }

  lemma {:induction false} PointsConcat(a: seq<Mount>, b: seq<Mount>)
    ensures Points(a + b) == Points(a) + Points(b)
    decreases |b|
  {
    if b == [] {
      assert a + b == a;
    } else {
      assert (a + b)[..|a + b| - 1] == a + b[..|b| - 1];
      PointsConcat(a, b[..|b| - 1]);
    }
  }

  lemma OnePoint(ms: seq<Mount>, p: Path)
    requires |ms| == 1
    ensures Points(ms)[p] == if ms[0].point == p then 1 else 0
  {
    assert ms == [ms[0]] && ms[..0] == [];
    assert Points(ms) == Points([]) + multiset{ms[0].point};
  }

  lemma PointsMore(before: seq<Seat>, here: seq<Seat>, ns: nat, p: Path)
    ensures Points(For(before + here, ns))[p] == Points(For(before, ns))[p] + Points(For(here, ns))[p]
  {
    ForConcat(before, here, ns);
    PointsConcat(For(before, ns), For(here, ns));
  }

  lemma OneCopyPoints(tree: seq<Mount>, at: Path, s: Seat, d: Drop, ns: nat, p: Path)
    requires |tree| == |d.peers| == |d.masters| == 1
    ensures Points(For(MG.CopiesUnder(tree, tree[0].point, at, s, d), ns))[p] == if Lands(s, at, ns, p) then 1 else 0
  {
    var out := For(MG.CopiesUnder(tree, tree[0].point, at, s, d), ns);
    OneCopy(tree, at, s, d, ns);
    if out != [] { OnePoint(out, p); }
  }

  /** The copies at a place are those of the mounts served whose place it is. */
  lemma {:induction false} CopyPoints(
    tree: seq<Mount>, at: Path, all: seq<Seat>, drops: seq<Drop>, ns: nat, p: Path)
    requires |tree| == 1 && TreeAt(tree, tree[0].point) && Sized(tree, all, drops) && Distinct(drops)
    ensures Points(For(AllCopies(tree, tree[0].point, at, all, drops), ns))[p] == CopiesAt(all, at, drops, ns, p)
    decreases |drops|
  {
    if drops == [] {
      NoCopies(all, at, ns, p);
    } else {
      var rest, d := drops[..|drops| - 1], drops[|drops| - 1];
      assert drops == rest + [d];
      var before, here := AllCopies(tree, tree[0].point, at, all, rest),
                          MG.CopiesUnder(tree, tree[0].point, at, all[d.seat], d);
      CopyPoints(tree, at, all, rest, ns, p);
      PointsMore(before, here, ns, p);
      OneCopyPoints(tree, at, all[d.seat], d, ns, p);
      CopiesAtMore(all, at, rest, d, ns, p);
    }
  }

  /** The mounts served: all others, and the slaves at the parent's own place. */
  ghost predicate ServesReceivers(c: Source, all: seq<Seat>, start: nat, drops: seq<Drop>) {
    forall i :: 0 <= i < |all| ==>
      (Served(drops, i) <==> IsReceiver(all, start, all[i]) && (all[i].mount.peer != 0 ==> !IsSource(c, all[i])))
  }

  lemma CopiesAreOthersAndSlaves(
    c: Source, all: seq<Seat>, start: nat, at: Path, drops: seq<Drop>, ns: nat, p: Path)
    requires ServesReceivers(c, all, start, drops)
    ensures CopiesAt(all, at, drops, ns, p) == Others(c, all, start, at, ns, p) + Slaves(c, all, start, at, ns, p)
  {
    TallySum(CopyList(all, at, drops, ns, p), OtherList(c, all, start, at, ns, p),
             UnsharedList(c, all, start, at, ns, p), |all|);
  }

  // The visits.

  function Repeated(s: Seat, k: nat): seq<Seat> {
    if k == 0 then [] else if k == 1 then [s] else [s, s]
  }

  /** The first `n` lists, one after the other. */
  function Joined(lists: seq<seq<Seat>>, n: nat): seq<Seat>
    requires n <= |lists|
  {
    if n == 0 then [] else Joined(lists, n - 1) + lists[n - 1]
  }

  lemma CountMore(a: seq<Seat>, b: seq<Seat>, s: Seat)
    ensures multiset(a + b)[s] == multiset(a)[s] + multiset(b)[s]
  {
  }

  lemma {:induction false} JoinedCounts(lists: seq<seq<Seat>>, counts: seq<nat>, s: Seat, n: nat)
    requires n <= |lists| == |counts| && forall i :: 0 <= i < |lists| ==> multiset(lists[i])[s] == counts[i]
    ensures multiset(Joined(lists, n))[s] == Tally(counts, n)
  {
    if n > 0 {
      JoinedCounts(lists, counts, s, n - 1);
      CountMore(Joined(lists, n - 1), lists[n - 1], s);
    }
  }

  lemma PrefixCount(all: seq<Seat>, n: nat, s: Seat)
    requires 0 < n <= |all|
    ensures multiset(all[..n])[s] == multiset(all[..n - 1])[s] + if all[n - 1] == s then 1 else 0
  {
    assert all[..n] == all[..n - 1] + [all[n - 1]];
  }

  lemma {:induction false} CountedTimes(all: seq<Seat>, counts: seq<nat>, s: Seat, v: nat, n: nat)
    requires n <= |all| == |counts| && v <= 2
    requires forall i :: 0 <= i < |all| ==> counts[i] == if all[i] == s then v else 0
    ensures Tally(counts, n) == Times(v, multiset(all[..n])[s])
  {
    if n > 0 {
      CountedTimes(all, counts, s, v, n - 1);
      PrefixCount(all, n, s);
    }
  }

  /** Each mount as often as it is found. */
  ghost function Found(all: seq<Seat>, start: nat): seq<seq<Seat>> {
    seq(|all|, i requires 0 <= i < |all| => Repeated(all[i], Turns(all, start, all[i])))
  }

  lemma RepeatedCounts(x: Seat, k: nat, s: Seat)
    requires k <= 2
    ensures multiset(Repeated(x, k))[s] == if x == s then k else 0
  {
    assert multiset([x]) == multiset{x} && multiset([x, x]) == multiset{x, x};
  }

  lemma FoundCounts(all: seq<Seat>, start: nat, s: Seat)
    ensures multiset(Joined(Found(all, start), |all|))[s] == Times(Turns(all, start, s), multiset(all)[s])
  {
    var v := Turns(all, start, s);
    var counts: seq<nat> := seq(|all|, i requires 0 <= i < |all| => if all[i] == s then v else 0);
    TurnsOfReceiver(all, start, s);
    forall i | 0 <= i < |all| ensures multiset(Found(all, start)[i])[s] == counts[i] {
      TurnsOfReceiver(all, start, all[i]);
      RepeatedCounts(all[i], Turns(all, start, all[i]), s);
    }
    JoinedCounts(Found(all, start), counts, s, |all|);
    CountedTimes(all, counts, s, v, |all|);
    assert all[..|all|] == all;
  }

  lemma FoundIsJoined(all: seq<Seat>, start: nat, targets: seq<Seat>)
    requires FoundIn(all, start, targets)
    ensures multiset(targets) == multiset(Joined(Found(all, start), |all|))
  {
    forall s ensures multiset(targets)[s] == multiset(Joined(Found(all, start), |all|))[s] {
      FoundCounts(all, start, s);
    }
  }

  lemma TurnsOfReceiver(all: seq<Seat>, start: nat, s: Seat)
    ensures Turns(all, start, s) <= 2 && (Turns(all, start, s) > 0 <==> IsReceiver(all, start, s))
  {
  }

  lemma EmptiedRepeated(base: seq<Mount>, ns: nat, c: Source, at: Path, s: Seat, k: nat, p: Path)
    requires k <= 2
    ensures Emptied(base, ns, c, at, Repeated(s, k))[p] == Times(k, EmptiedBy(base, ns, c, at, s)[p])
  {
    EmptiedSnoc(base, ns, c, at, [], s);
    EmptiedSnoc(base, ns, c, at, [s], s);
    assert [] + [s] == [s] && [s] + [s] == [s, s];
  }

  lemma EmptiedMore(base: seq<Mount>, ns: nat, c: Source, at: Path, a: seq<Seat>, b: seq<Seat>, p: Path)
    ensures Emptied(base, ns, c, at, a + b)[p] == Emptied(base, ns, c, at, a)[p] + Emptied(base, ns, c, at, b)[p]
  {
    EmptiedConcat(base, ns, c, at, a, b);
  }

  lemma {:induction false} JoinedEmptied(
    base: seq<Mount>, ns: nat, c: Source, at: Path, lists: seq<seq<Seat>>, visits: seq<nat>, p: Path, n: nat)
    requires n <= |lists| == |visits|
    requires forall i :: 0 <= i < |lists| ==> Emptied(base, ns, c, at, lists[i])[p] == visits[i]
    ensures Emptied(base, ns, c, at, Joined(lists, n))[p] == Tally(visits, n)
  {
    if n > 0 {
      JoinedEmptied(base, ns, c, at, lists, visits, p, n - 1);
      EmptiedMore(base, ns, c, at, Joined(lists, n - 1), lists[n - 1], p);
    }
  }

  /** Every receiver away from the parent's own place is on the parent's filesystem. */
  ghost predicate OnFs(c: Source, all: seq<Seat>, start: nat) {
    forall i :: 0 <= i < |all| && IsReceiver(all, start, all[i]) && !IsSource(c, all[i]) ==> all[i].mount.fs == c.fs
  }

  lemma VisitOf(base: seq<Mount>, c: Source, all: seq<Seat>, start: nat, at: Path, ns: nat, p: Path, i: nat)
    requires i < |all| && OnFs(c, all, start) && IsReceiver(all, start, all[i])
    ensures EmptiedBy(base, ns, c, at, all[i])[p] ==
            if Here(all, start, at, ns, p, i) && !IsSource(c, all[i]) && !Busy(base, p) then 1 else 0
  {
  }

  lemma VisitsAre(base: seq<Mount>, c: Source, all: seq<Seat>, start: nat, at: Path, ns: nat, p: Path, i: nat)
    requires i < |all| && OnFs(c, all, start)
    ensures Emptied(base, ns, c, at, Found(all, start)[i])[p] ==
            if Busy(base, p) then 0 else Other(c, all, start, at, ns, p, i) + Again(c, all, start, at, ns, p, i)
  {
    TurnsOfReceiver(all, start, all[i]);
    EmptiedRepeated(base, ns, c, at, all[i], Turns(all, start, all[i]), p);
    if IsReceiver(all, start, all[i]) { VisitOf(base, c, all, start, at, ns, p, i); }
  }

  ghost function VisitList(
    base: seq<Mount>, c: Source, all: seq<Seat>, start: nat, at: Path, ns: nat, p: Path): seq<nat>
  {
    seq(|all|, i requires 0 <= i < |all| =>
      if Busy(base, p) then 0 else Other(c, all, start, at, ns, p, i) + Again(c, all, start, at, ns, p, i))
  }

  lemma VisitsTally(base: seq<Mount>, c: Source, all: seq<Seat>, start: nat, at: Path, ns: nat, p: Path)
    ensures Tally(VisitList(base, c, all, start, at, ns, p), |all|) ==
            if Busy(base, p) then 0 else Others(c, all, start, at, ns, p) + Twice(c, all, start, at, ns, p)
  {
    var list := VisitList(base, c, all, start, at, ns, p);
    if Busy(base, p) {
      TallyPositive(list, |all|);
    } else {
      TallySum(list, OtherList(c, all, start, at, ns, p), AgainList(c, all, start, at, ns, p), |all|);
    }
  }

  /** One visit for each of the others, and one more for those found twice; none to a place that is busy. */
  lemma VisitsCount(
    base: seq<Mount>, c: Source, all: seq<Seat>, start: nat, at: Path, ns: nat, p: Path, targets: seq<Seat>)
    requires OnFs(c, all, start) && FoundIn(all, start, targets)
    ensures Emptied(base, ns, c, at, targets)[p] ==
            if Busy(base, p) then 0 else Others(c, all, start, at, ns, p) + Twice(c, all, start, at, ns, p)
  {
    var visits := VisitList(base, c, all, start, at, ns, p);
    FoundIsJoined(all, start, targets);
    EmptiedInAnyOrder(base, ns, c, at, targets, Joined(Found(all, start), |all|));
    forall i | 0 <= i < |all| ensures Emptied(base, ns, c, at, Found(all, start)[i])[p] == visits[i] {
      VisitsAre(base, c, all, start, at, ns, p, i);
    }
    JoinedEmptied(base, ns, c, at, Found(all, start), visits, p, |all|);
    VisitsTally(base, c, all, start, at, ns, p);
  }
}
