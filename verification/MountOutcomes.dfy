/**
 What the operations on the whole mount table come to, on values.
 */
module MountOutcomes {
  import opened Errno
  import opened Options
  import opened Paths
  import opened Mounts
  import opened MountPivot
  import opened MountDetach
  import opened MountBind
  import opened MountPropagation
  import MG = MountGroups
  import opened MountLevels
  import opened MountWorklist
  import opened MountClear
  import opened MountLists

  datatype Propagation = Shared | Slave | Private | Unbindable

  lemma {:induction false} ForFits(owner: MG.Owner, copies: seq<Seat>, ns: nat)
    requires MG.OneFs(owner, copies)
    ensures forall m :: m in For(copies, ns) ==> MG.Fits(owner, m)
    decreases |copies|
  {
    if copies != [] {
      assert copies[|copies| - 1] in copies;
      ForFits(owner, copies[..|copies| - 1], ns);
    }
  }

  lemma {:induction false} ForClear(copies: seq<Seat>, ns: nat, n: nat)
    requires SeatsClear(copies, n)
    ensures AllClear(For(copies, ns), n)
    decreases |copies|
  {
    if copies != [] {
      assert copies[|copies| - 1] in copies;
      ForClear(copies[..|copies| - 1], ns, n);
    }
  }

  ghost predicate AllFit(owner: MG.Owner, ms: seq<Mount>) {
    forall m :: m in ms ==> MG.Fits(owner, m)
  }

  lemma {:induction false} CopiesAreKnown(
    tree: seq<Mount>, top: Path, at: Path, all: seq<Seat>, drops: seq<Drop>)
    requires TreeAt(tree, top) && Sized(tree, all, drops)
    ensures forall s :: s in AllCopies(tree, top, at, all, drops) ==> exists t :: t in all && t.ns == s.ns
    decreases |drops|
  {
    if drops != [] {
      var d := drops[|drops| - 1];
      CopiesAreKnown(tree, top, at, all, drops[..|drops| - 1]);
      assert all[d.seat] in all;
    }
  }

  /** The outcome of attaching `tree` under a shared parent. */
  ghost predicate Attached(c: Source, start: nat, tree: seq<Mount>, at: Path, all: seq<Seat>,
                           grown: seq<Mount>, drops: seq<Drop>, copies: seq<Seat>)
    requires tree != []
  {
    && SharedTree(tree, grown) && TreeAt(grown, tree[0].point)
    && Distinct(drops) && (forall i :: 0 <= i < |all| ==> (Served(drops, i) <==> GetsCopy(c, all, start, all[i])))
    && (forall i :: 0 <= i < |all| ==>
          (Served(drops, i) <==> IsReceiver(all, start, all[i]) && (all[i].mount.peer != 0 ==> !IsSource(c, all[i]))))
    && Sized(grown, all, drops) && copies == AllCopies(grown, tree[0].point, at, all, drops)
    && Grouped(c.fs, all, start, tree, grown, drops)
  }

  function GuestMount(point: Path, fs: nat): Mount {
    Mount(point, fs, [], true, false, false, 0, 0, 0, false)
  }

  predicate UnderShared(ms: seq<Mount>, point: Path) {
    Winner(ms, point).Some? && Winner(ms, point).value.peer != 0
  }

  /** What attaching `tree` does to every namespace: a private parent keeps it to the current one. */
  ghost predicate AttachOutcome(
    current: nat, was: seq<Mount>, wasParked: map<nat, seq<Mount>>, tree: seq<Mount>,
    now: seq<Mount>, nowParked: map<nat, seq<Mount>>,
    all: seq<Seat>, grown: seq<Mount>, drops: seq<Drop>, copies: seq<Seat>)
    requires tree != []
  {
    var parent := Winner(was, tree[0].point);
    if !UnderShared(was, tree[0].point) then now == was + tree && nowParked == wasParked
    else
      && Listing(current, was, wasParked, all) && nowParked.Keys == wasParked.Keys
      && Attached(Source(parent.value.fs, current, parent.value.point), parent.value.peer, tree,
                  FsPath(parent.value, tree[0].point), all, grown, drops, copies)
      && now == was + grown + For(copies, current)
      && forall ns :: ns in nowParked ==> nowParked[ns] == wasParked[ns] + For(copies, ns)
  }

  /** The tree with every mount in a peer group. */
  ghost predicate SharedTree(tree: seq<Mount>, grown: seq<Mount>) {
    |grown| == |tree| && forall k :: 0 <= k < |tree| ==>
      grown[k].peer != 0 && grown[k] == tree[k].(peer := grown[k].peer) && (tree[k].peer != 0 ==> grown[k] == tree[k])
  }

  /** The copies fit where they go. */
  lemma CopiesAreSound(owner: MG.Owner, tree: seq<Mount>, grown: seq<Mount>, top: Path, at: Path, all: seq<Seat>,
                       drops: seq<Drop>, copies: seq<Seat>, n: nat)
    requires Done(owner, grown, top, at, all, drops, copies) && SharedTree(tree, grown)
    requires AllClear(tree, n) && SeatsClear(all, n) && Clear(at, n)
    ensures MG.OneFs(owner, copies) && forall s :: s in copies ==> exists t :: t in all && t.ns == s.ns
    ensures AllClear(grown, n) && SeatsClear(copies, n)
  {
    AllCopiesFit(owner, grown, top, at, all, drops);
    CopiesAreKnown(grown, top, at, all, drops);
    SamePlacesClear(tree, grown, n);
    AllCopiesClear(grown, top, at, all, drops, n);
  }

  /** The copies of a tree whose mounts have their groups, and that they fit. */
  method PlaceCopies(c: Source, all: seq<Seat>, tree: seq<Mount>, grown: seq<Mount>, at: Path, start: nat, groups: nat,
                     ghost lo: nat, ghost owner: MG.Owner, ghost n: nat)
    returns (copies: seq<Seat>, last: nat, ghost drops: seq<Drop>, ghost more: MG.Owner)
    requires tree != [] && TreeAt(tree, tree[0].point) && SharedTree(tree, grown) && AllFit(owner, grown)
    requires MG.OneFs(owner, all) && MG.Numbered(owner, groups) && start in MG.SameFs(owner, c.fs)
    requires lo <= groups && UpTo(all, tree, lo) && NewPeers(tree, grown, lo, groups)
    requires AllClear(tree, n) && SeatsClear(all, n) && Clear(at, n)
    ensures Attached(c, start, tree, at, all, grown, drops, copies)
    ensures MG.Numbered(more, last) && MG.Extends(more, owner) && AllFit(more, grown) && AllClear(grown, n)
    ensures MG.OneFs(more, copies) && SeatsClear(copies, n)
    ensures forall s :: s in copies ==> exists t :: t in all && t.ns == s.ns
  {
    ghost var levels;
    TargetsAreReceivers(owner, c, all, start);
    assert forall k :: 0 <= k < |grown| ==> grown[k] in grown;
    copies, last, drops, more, levels := Propagate(c, all, grown, tree[0].point, at, start, groups, owner);
    assert GroupedBy(c.fs, all, start, tree, grown, levels, drops, lo, groups, last);
    CopiesAreSound(more, tree, grown, tree[0].point, at, all, drops, copies, n);
    ExtendedFits(more, owner, grown);
  }

  /** A mount of the tree gets a new group. */
  lemma GrownFits(before: MG.Owner, owner: MG.Owner, ms: seq<Mount>, k: nat, g: nat)
    requires AllFit(before, ms) && k < |ms| && MG.Extends(owner, before) && MG.Numbered(before, g)
    requires g !in before && g in owner && owner[g] == ms[k].fs && g > 0
    ensures AllFit(owner, ms[k := ms[k].(peer := g)])
  {
    var grown := ms[k := ms[k].(peer := g)];
    forall m | m in grown ensures MG.Fits(owner, m) {
      var j :| 0 <= j < |grown| && grown[j] == m;
      assert ms[j] in ms && MG.Fits(before, ms[j]);
    }
  }

  /** No group in use is past the last number given out. */
  lemma GroupsUpTo(owner: MG.Owner, all: seq<Seat>, tree: seq<Mount>, groups: nat)
    requires MG.OneFs(owner, all) && AllFit(owner, tree) && MG.Numbered(owner, groups)
    ensures UpTo(all, tree, groups)
  {
    forall s | s in all ensures s.mount.peer <= groups && s.mount.master <= groups {
      assert MG.Fits(owner, s.mount);
    }
    forall m | m in tree ensures m.peer <= groups && m.master <= groups {
      assert MG.Fits(owner, m);
    }
  }

  /** A mount changed in place, where it is. */
  lemma Replaced(owner: MG.Owner, ms: seq<Mount>, i: nat, m: Mount, n: nat)
    requires AllFit(owner, ms) && AllClear(ms, n) && i < |ms| && MG.Fits(owner, m)
    requires m.point == ms[i].point && m.subdir == ms[i].subdir
    ensures AllFit(owner, ms[i := m]) && AllClear(ms[i := m], n)
  {
    SamePlacesClear(ms, ms[i := m], n);
    forall x | x in ms[i := m] ensures MG.Fits(owner, x) {
      assert x == m || x in ms;
    }
  }

  /** Lists with the copies added are as sound as they were. */
  lemma WithCopies(owner: MG.Owner, ms: seq<Mount>, more: seq<Mount>, copies: seq<Seat>, ns: nat, n: nat)
    requires AllFit(owner, ms) && AllClear(ms, n) && AllFit(owner, more) && AllClear(more, n)
    requires MG.OneFs(owner, copies) && SeatsClear(copies, n)
    ensures AllFit(owner, ms + more + For(copies, ns)) && AllClear(ms + more + For(copies, ns), n)
    ensures AllFit(owner, ms + For(copies, ns)) && AllClear(ms + For(copies, ns), n)
  {
    ForFits(owner, copies, ns);
    ForClear(copies, ns, n);
  }

  /** The same of every parked list. */
  lemma AllWithCopies(owner: MG.Owner, parked: map<nat, seq<Mount>>, copies: seq<Seat>, n: nat)
    requires forall ns :: ns in parked ==> AllFit(owner, parked[ns]) && AllClear(parked[ns], n)
    requires MG.OneFs(owner, copies) && SeatsClear(copies, n)
    ensures forall ns :: ns in parked ==>
              AllFit(owner, parked[ns] + For(copies, ns)) && AllClear(parked[ns] + For(copies, ns), n)
  {
    forall ns | ns in parked
      ensures AllFit(owner, parked[ns] + For(copies, ns)) && AllClear(parked[ns] + For(copies, ns), n)
    {
      WithCopies(owner, parked[ns], [], copies, ns, n);
    }
  }

  /** The mounts that get a copy, by the other worklist. */
  lemma TargetsAreReceivers(owner: MG.Owner, c: Source, all: seq<Seat>, start: nat)
    requires MG.OneFs(owner, all) && 0 !in owner && start in MG.SameFs(owner, c.fs)
    ensures forall i :: 0 <= i < |all| ==>
              (GetsCopy(c, all, start, all[i]) <==>
               IsReceiver(all, start, all[i]) && (all[i].mount.peer != 0 ==> !IsSource(c, all[i])))
  {
    forall i | 0 <= i < |all|
      ensures GetsCopy(c, all, start, all[i]) <==>
              IsReceiver(all, start, all[i]) && (all[i].mount.peer != 0 ==> !IsSource(c, all[i]))
    {
      ReceiversGetCopies(owner, c, all, start, all[i]);
    }
  }

  lemma ExtendedFits(more: MG.Owner, owner: MG.Owner, ms: seq<Mount>)
    requires MG.Extends(more, owner) && AllFit(owner, ms)
    ensures AllFit(more, ms)
  {
    forall m | m in ms ensures MG.Fits(more, m) {
      assert MG.Fits(owner, m);
    }
  }

  lemma {:induction false} MirroredFits(owner: MG.Owner, ms: seq<Mount>, source: Path, target: Path)
    requires AllFit(owner, ms)
    ensures AllFit(owner, Mirrored(ms, source, target)) && TreeAt(Mirrored(ms, source, target), target)
    decreases |ms|
  {
    if ms != [] {
      assert ms[|ms| - 1] in ms;
      MirroredFits(owner, ms[..|ms| - 1], source, target);
    }
  }

  datatype Stage = Stage(mounts: seq<Mount>, groups: nat)

  /** One mount's propagation set: the group it gets, and the master a slave is left with. */
  ghost predicate SetStep(current: nat, parked: map<nat, seq<Mount>>, was: Stage, i: nat, kind: Propagation, now: Stage)
    requires i < |was.mounts|
  {
    var m := was.mounts[i];
    match kind
    case Shared =>
      var g := if m.peer == 0 then was.groups + 1 else was.groups;
      now == Stage(was.mounts[i := m.(peer := if m.peer == 0 then g else m.peer, unbindable := false)], g)
    case Private => now == was.(mounts := was.mounts[i := m.(peer := 0, master := 0, unbindable := false)])
    case Unbindable => now == was.(mounts := was.mounts[i := m.(peer := 0, master := 0, unbindable := true)])
    case Slave =>
      if m.peer == 0 then now == was.(mounts := was.mounts[i := m.(unbindable := false)])
      else exists all :: && Listing(current, was.mounts, parked, all)
                         && now == was.(mounts := was.mounts[i := m.(
                              peer := 0, unbindable := false,
                              master := if PeerCount(all, m.peer) > 1 then m.peer else m.master)])
  }

  /** The turn of mount `i`: changed if it was asked for. */
  ghost predicate SetTurn(current: nat, parked: map<nat, seq<Mount>>, top: nat, point: Path, kind: Propagation,
                          recursive: bool, was: Stage, i: nat, now: Stage)
  {
    && i < |was.mounts|
    && if i == top || (recursive && point < was.mounts[i].point)
       then SetStep(current, parked, was, i, kind, now) else now == was
  }

  /** The mounts in turn. */
  ghost predicate SetRun(current: nat, parked: map<nat, seq<Mount>>, top: nat, point: Path, kind: Propagation,
                         recursive: bool, run: seq<Stage>)
  {
    forall i: nat :: i + 1 < |run| ==> SetTurn(current, parked, top, point, kind, recursive, run[i], i, run[i + 1])
  }

  lemma SetRunSnoc(current: nat, parked: map<nat, seq<Mount>>, top: nat, point: Path, kind: Propagation,
                   recursive: bool, run: seq<Stage>, next: Stage)
    requires SetRun(current, parked, top, point, kind, recursive, run) && run != []
    requires SetTurn(current, parked, top, point, kind, recursive, run[|run| - 1], |run| - 1, next)
    ensures SetRun(current, parked, top, point, kind, recursive, run + [next])
  {
  }

  /** What is mounted, and where, stays. */
  ghost predicate SamePlaces(a: seq<Mount>, b: seq<Mount>) {
    && |a| == |b|
    && forall j :: 0 <= j < |a| ==> a[j].point == b[j].point && a[j].fs == b[j].fs && a[j].subdir == b[j].subdir
  }

  lemma {:induction false} SetRunKeepsPlaces(
    current: nat, parked: map<nat, seq<Mount>>, top: nat, point: Path, kind: Propagation, recursive: bool,
    run: seq<Stage>)
    requires run != [] && SetRun(current, parked, top, point, kind, recursive, run)
    ensures SamePlaces(run[0].mounts, run[|run| - 1].mounts)
    decreases |run|
  {
    if |run| > 1 {
      var n := |run| - 2;
      SetRunKeepsPlaces(current, parked, top, point, kind, recursive, run[..n + 1]);
      assert SetTurn(current, parked, top, point, kind, recursive, run[n], n, run[n + 1]);
    }
  }

  // Unmounting.

  /** The deepest mount strictly above `point`. */
  function Parent(ms: seq<Mount>, point: Path): (w: Option<Mount>)
    ensures w.Some? ==> w.value.point < point
  {
    if ms == [] then None
    else
      var m := ms[|ms| - 1];
      Later(Parent(ms[..|ms| - 1], point), if m.point < point then Some(m) else None)
  }

  method ParentLoop(ms: seq<Mount>, point: Path) returns (w: Option<Mount>)
    ensures w == Parent(ms, point)
  {
    w := None;
    for i := 0 to |ms|
      invariant w == Parent(ms[..i], point)
    {
      assert ms[..i + 1][..i] == ms[..i];
      if ms[i].point <= point && ms[i].point != point && (w.None? || |w.value.point| <= |ms[i].point|) {
        w := Some(ms[i]);
      }
    }
    assert ms[..|ms|] == ms;
  }

  /** The last mount of `fs` at exactly `point`. */
  function LastOf(ms: seq<Mount>, point: Path, fs: nat): (i: Option<nat>)
    ensures i.Some? ==> i.value < |ms| && ms[i.value].point == point && ms[i.value].fs == fs
  {
    if ms == [] then None
    else if ms[|ms| - 1].point == point && ms[|ms| - 1].fs == fs then Some(|ms| - 1)
    else LastOf(ms[..|ms| - 1], point, fs)
  }

  /** A copy goes unless something is mounted below it. */
  function PruneOne(ms: seq<Mount>, point: Path, fs: nat): seq<Mount> {
    var k := LastOf(ms, point, fs);
    if (exists m :: m in ms && point < m.point) || k.None? then ms
    else ms[..k.value] + ms[k.value + 1..]
  }

  /** The same under the receiver `s`, in namespace `ns`. */
  function Pruned(ms: seq<Mount>, ns: nat, c: Source, at: Path, fs: nat, s: Seat): seq<Mount> {
    if s.ns == ns && !IsSource(c, s) && s.mount.fs == c.fs && s.mount.subdir <= at
    then PruneOne(ms, s.mount.point + at[|s.mount.subdir|..], fs) else ms
  }

  /** The list of namespace `ns` after the unmount has reached `targets`. */
  function Prune(ms: seq<Mount>, ns: nat, c: Source, at: Path, fs: nat, targets: seq<Seat>): seq<Mount>
    decreases |targets|
  {
    if targets == [] then ms
    else Pruned(Prune(ms, ns, c, at, fs, targets[..|targets| - 1]), ns, c, at, fs, targets[|targets| - 1])
  }

  /** Unmounting takes away the copy mounting put there. */
  lemma PruneUndoesCopy(ms: seq<Mount>, copy: Mount)
    requires forall m :: m in ms ==> !(copy.point < m.point)
    ensures PruneOne(ms + [copy], copy.point, copy.fs) == ms
  {
    assert (ms + [copy])[..|ms|] == ms && (ms + [copy])[|ms| + 1..] == [];
  }

  lemma PruneFits(owner: MG.Owner, ms: seq<Mount>, point: Path, fs: nat)
    requires AllFit(owner, ms)
    ensures AllFit(owner, PruneOne(ms, point, fs))
    ensures forall n :: AllClear(ms, n) ==> AllClear(PruneOne(ms, point, fs), n)
  {
  }

  datatype Unmounted = Refused(errno: nat) | Gone | Hid(move: PathMove)

  /** What `unmount` refuses before it looks at anything but the mount. */
  function Refusal(ms: seq<Mount>, ns: nat, point: Path): nat {
    var i := LastAt(ms, point);
    if i.None? || ms[i.value].locked then EINVAL
    else if !ms[i.value].guest && ns == 0 then EBUSY
    else OK
  }

  /** The list of namespace `ns` once the copies of `gone` under the parent's receivers are gone. */
  function Propagated(ms: seq<Mount>, ns: nat, parent: Option<Mount>, current: nat, gone: Mount, targets: seq<Seat>)
    : seq<Mount>
    requires parent.Some? ==> parent.value.point <= gone.point
  {
    if parent.None? || parent.value.peer == 0 then ms
    else
      var c := Source(parent.value.fs, current, parent.value.point);
      Prune(ms, ns, c, FsPath(parent.value, gone.point), gone.fs, targets)
  }

  /** What it answers once the copies elsewhere are gone. */
  function UnmountReply(ms: seq<Mount>, point: Path, detach: bool, detached: nat): Unmounted {
    var i := LastAt(ms, point);
    if i.None? then Refused(EINVAL)
    else if (exists m :: m in ms && GoesAlong(m, point, ms[i.value].pivotSide)) && !detach then Refused(EBUSY)
    else if !detach then Gone
    else Hid(PathMove(point, Hidden(detached)))
  }

  /** And the mounts it leaves. */
  function UnmountResult(ms: seq<Mount>, point: Path, r: Unmounted): seq<Mount>
    requires !r.Refused? ==> LastAt(ms, point).Some?
  {
    match r
    case Refused(_) => ms
    case Gone => var i := LastAt(ms, point).value; ms[..i] + ms[i + 1..]
    case Hid(move) => Detached(ms, LastAt(ms, point).value, move.to)
  }

  /** `path` is in the mount on top at `point`, or in one that goes along with it. */
  predicate FollowsMove(ms: seq<Mount>, point: Path, path: Path) {
    var i, w := LastAt(ms, point), Winner(ms, path);
    && i.Some? && w.Some? && point <= path
    && (w.value.point == point || GoesAlong(w.value, point, ms[i.value].pivotSide))
  }

  lemma HiddenStillResolves(ms: seq<Mount>, point: Path, i: nat, n: nat)
    requires AllClear(ms, n) && LastAt(ms, point) == Some(i)
    ensures var move := PathMove(point, Hidden(n));
            forall path :: FollowsMove(ms, point, path) ==>
              Resolve(Detached(ms, i, Hidden(n)), MountDetach.Translate(move, path)) == Resolve(ms, path)
  {
    ClearIsFresh(ms, n);
    var move := PathMove(point, Hidden(n));
    forall path | FollowsMove(ms, point, path)
      ensures Resolve(Detached(ms, i, Hidden(n)), MountDetach.Translate(move, path)) == Resolve(ms, path)
    {
      DetachKeepsPaths(ms, point, i, n, path);
    }
  }

  lemma DetachFits(owner: MG.Owner, ms: seq<Mount>, i: nat, to: Path)
    requires AllFit(owner, ms) && i < |ms|
    ensures AllFit(owner, Detached(ms, i, to)) && AllFit(owner, ms[..i] + ms[i + 1..])
  {
    var g, rest := ms[i], ms[..i] + ms[i + 1..];
    assert g in ms;
    forall m | m in MovedAll(rest, g.point, g.pivotSide, to) ensures MG.Fits(owner, m) {
      MovedAllFrom(rest, g.point, g.pivotSide, to, m);
      var o :| o in rest && m == Moved(o, g.point, g.pivotSide, to);
      assert o in ms;
    }
  }
}
