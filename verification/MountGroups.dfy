/**
 The worklists of propagation as they run, the numbering of new peer groups, and the
 filesystem each group belongs to.
 */
module MountGroups {
  import opened Paths
  import opened Mounts
  import opened MountPropagation

  // Each group on one filesystem.

  type Owner = map<nat, nat>

  predicate OnGroup(owner: Owner, g: nat, fs: nat) {
    g == 0 || (g in owner && owner[g] == fs)
  }

  /** A master is older than what follows it. */
  predicate Follows(peer: nat, master: nat) {
    peer != 0 ==> master < peer
  }

  /** `m` and the groups it is in agree on its filesystem, and its group came after its master. */
  predicate Fits(owner: Owner, m: Mount) {
    OnGroup(owner, m.peer, m.fs) && OnGroup(owner, m.master, m.fs) && Follows(m.peer, m.master)
  }

  ghost predicate OneFs(owner: Owner, all: seq<Seat>) {
    forall s :: s in all ==> Fits(owner, s.mount)
  }

  ghost predicate Numbered(owner: Owner, groups: nat) {
    forall g :: g in owner ==> 0 < g <= groups
  }

  ghost predicate Extends(more: Owner, owner: Owner) {
    forall g :: g in owner ==> g in more && more[g] == owner[g]
  }

  /** A reached group has the filesystem of the group it is reached from. */
  ghost function SameFs(owner: Owner, fs: nat): set<nat> {
    set g | g in owner && owner[g] == fs
  }

  /**
   Where groups keep to one filesystem, asking for the filesystem on the way changes
   nothing: `receivers`, which does not ask, reaches what `attach`, which does, reaches.
   */
  lemma ReachedOnOneFs(owner: Owner, all: seq<Seat>, fs: nat, start: nat, g: nat)
    requires OneFs(owner, all) && 0 !in owner && start in SameFs(owner, fs)
    ensures Reached(SeatsOn(all, fs), start, g) <==> Reached(Seats(all), start, g)
    ensures Reached(Seats(all), start, g) ==> g in SameFs(owner, fs)
  {
    forall groups | Closed(Seats(all), groups) && start in groups
      ensures Closed(SeatsOn(all, fs), groups)
    {
    }
    forall groups | Closed(SeatsOn(all, fs), groups) && start in groups
      ensures Closed(Seats(all), groups * SameFs(owner, fs))
    {
      KeepsToFs(owner, all, fs, groups);
    }
    if Reached(Seats(all), start, g) {
      KeepsToFs(owner, all, fs, SameFs(owner, fs));
      assert SameFs(owner, fs) * SameFs(owner, fs) == SameFs(owner, fs);
    }
  }

  lemma KeepsToFs(owner: Owner, all: seq<Seat>, fs: nat, groups: set<nat>)
    requires OneFs(owner, all) && 0 !in owner
    requires Closed(SeatsOn(all, fs), groups) || groups == SameFs(owner, fs)
    ensures Closed(Seats(all), groups * SameFs(owner, fs))
  {
    var both := groups * SameFs(owner, fs);
    forall s | s in Seats(all) && s.mount.master in both && s.mount.peer != 0 ensures s.mount.peer in both {
      assert Fits(owner, s.mount);
      assert s in SeatsOn(all, fs);
    }
  }

  // What a copy looks like.

  function CopyOf(m: Mount, top: Path, at: Path, target: Mount, peer: nat, master: nat): Mount
    requires target.subdir <= at && top <= m.point
  {
    m.(point := target.point + at[|target.subdir|..] + m.point[|top|..], guest := true, locked := false,
       pivotSide := target.pivotSide, peer := peer, master := master)
  }

  /** The tree under `s`, if the place is in the part of the filesystem mounted there. */
  function CopiesUnder(tree: seq<Mount>, top: Path, at: Path, s: Seat, d: Drop): seq<Seat>
    requires |d.peers| == |d.masters| == |tree| && forall k :: 0 <= k < |tree| ==> top <= tree[k].point
  {
    if s.mount.subdir <= at then
      seq(|tree|, k requires 0 <= k < |tree| =>
        Seat(s.ns, CopyOf(tree[k], top, at, s.mount, d.peers[k], d.masters[k])))
    else []
  }

  /** Below every mount that gets a copy, the copy is at the same place of the filesystem. */
  lemma CopyIsAtThePlace(m: Mount, top: Path, at: Path, target: Mount, peer: nat, master: nat)
    requires target.subdir <= at && top <= m.point
    ensures var p := CopyOf(m, top, at, target, peer, master).point;
      target.point <= p && FsPath(target, p) == at + m.point[|top|..]
  {
    var p := CopyOf(m, top, at, target, peer, master).point;
    assert p[|target.point|..] == at[|target.subdir|..] + m.point[|top|..];
    assert target.subdir + at[|target.subdir|..] == at;
  }

  // Levels: the groups the copies of each mount of the tree get.

  ghost predicate Level(owner: Owner, tree: seq<Mount>, gs: seq<nat>) {
    |gs| == |tree| && forall k :: 0 <= k < |tree| ==> OnGroup(owner, gs[k], tree[k].fs)
  }

  ghost predicate InOrder(peers: seq<nat>, masters: seq<nat>) {
    |peers| == |masters| && forall k :: 0 <= k < |peers| ==> Follows(peers[k], masters[k])
  }

  ghost predicate DropFits(owner: Owner, tree: seq<Mount>, d: Drop) {
    Level(owner, tree, d.peers) && Level(owner, tree, d.masters) && InOrder(d.peers, d.masters)
  }

  ghost predicate EntryFits(owner: Owner, tree: seq<Mount>, e: Entry) {
    Level(owner, tree, e.peers) && Level(owner, tree, e.masters) && InOrder(e.peers, e.masters)
  }

  lemma {:induction false} TurnFits(owner: Owner, tree: seq<Mount>, c: Source, all: seq<Seat>, e: Entry)
    requires EntryFits(owner, tree, e)
    ensures forall d :: d in Drops(c, all, e) ==> DropFits(owner, tree, d)
    ensures forall p :: p in Pushes(c, all, e) ==> EntryFits(owner, tree, p)
    decreases |all|
  {
    if all != [] { TurnFits(owner, tree, c, all[..|all| - 1], e); }
  }

  lemma CopiesFit(owner: Owner, tree: seq<Mount>, top: Path, at: Path, s: Seat, d: Drop)
    requires DropFits(owner, tree, d) && forall k :: 0 <= k < |tree| ==> top <= tree[k].point
    ensures OneFs(owner, CopiesUnder(tree, top, at, s, d))
  {
  }

  /** New numbers, each greater than the one before, above `lo` and up to `hi`. */
  ghost predicate NewNumbers(gs: seq<nat>, lo: nat, hi: nat) {
    && (forall k :: 0 <= k < |gs| ==> lo < gs[k] <= hi)
    && (forall j, k :: 0 <= j < k < |gs| ==> gs[j] < gs[k])
  }

  ghost predicate Disjoint(a: seq<nat>, b: seq<nat>) {
    forall x :: x in a ==> x !in b
  }

  ghost predicate NoneMissing(gs: seq<nat>) {
    0 !in gs
  }

  ghost predicate AllMissing(gs: seq<nat>) {
    gs == Zeros(|gs|)
  }

  /** Numbers for the groups still missing. */
  method AssignLevel(tree: seq<Mount>, gs: seq<nat>, groups: nat, ghost masters: seq<nat>, ghost owner: Owner)
    returns (out: seq<nat>, last: nat, ghost more: Owner)
    requires Level(owner, tree, gs) && Numbered(owner, groups)
    requires Level(owner, tree, masters) && InOrder(gs, masters)
    ensures Level(more, tree, out) && Numbered(more, last) && Extends(more, owner)
    ensures forall k :: 0 <= k < |out| ==> out[k] != 0 && (gs[k] != 0 ==> out[k] == gs[k])
    ensures groups <= last && (NoneMissing(gs) ==> out == gs)
    ensures AllMissing(gs) ==> NewNumbers(out, groups, last)
    ensures InOrder(out, masters)
  {
    out, last, more := gs, groups, owner;
    for k := 0 to |gs|
      invariant Level(more, tree, out) && Numbered(more, last) && Extends(more, owner) && groups <= last
      invariant forall j :: 0 <= j < k ==> out[j] != 0
      invariant forall j :: 0 <= j < |gs| && gs[j] != 0 ==> out[j] == gs[j]
      invariant forall j :: k <= j < |gs| ==> out[j] == gs[j]
      invariant AllMissing(gs) ==> NewNumbers(out[..k], groups, last)
      invariant InOrder(out, masters)
    {
      if out[k] == 0 {
        last := last + 1;
        more := more[last := tree[k].fs];
        out := out[k := last];
      }
    }
    assert out[..|gs|] == out;
  }

  ghost predicate SameGroups(a: seq<Entry>, b: seq<Entry>) {
    |a| == |b| && forall i :: 0 <= i < |a| ==> a[i].group == b[i].group && a[i].masters == b[i].masters
  }

  lemma ExtendedFits(owner: Owner, more: Owner, tree: seq<Mount>, e: Entry)
    requires Extends(more, owner) && EntryFits(owner, tree, e)
    ensures EntryFits(more, tree, e)
  {
  }

  /** Complete entries stay; the others get numbers of their own. */
  ghost predicate Assigned(queue: seq<Entry>, out: seq<Entry>, n: nat, groups: nat, last: nat)
    requires n <= |queue| == |out|
  {
    && (forall i :: 0 <= i < n && NoneMissing(queue[i].peers) ==> out[i] == queue[i])
    && (forall i :: 0 <= i < n && AllMissing(queue[i].peers) ==> NewNumbers(out[i].peers, groups, last))
    && (forall i, j :: 0 <= i < j < n && AllMissing(queue[i].peers) && AllMissing(queue[j].peers) ==>
          Disjoint(out[i].peers, out[j].peers))
  }

  lemma AssignedMore(queue: seq<Entry>, was: seq<Entry>, n: nat, groups: nat, mid: nat, peers: seq<nat>, last: nat)
    requires n < |queue| == |was| && Assigned(queue, was, n, groups, mid) && groups <= mid <= last
    requires was[n] == queue[n] && (NoneMissing(queue[n].peers) ==> peers == queue[n].peers)
    requires AllMissing(queue[n].peers) ==> NewNumbers(peers, mid, last)
    ensures Assigned(queue, was[n := was[n].(peers := peers)], n + 1, groups, last)
  {
    var out := was[n := was[n].(peers := peers)];
    forall i | 0 <= i < n && AllMissing(queue[i].peers) && AllMissing(queue[n].peers)
      ensures Disjoint(out[i].peers, out[n].peers)
    {
      assert NewNumbers(was[i].peers, groups, mid);
    }
  }

  method AssignAll(tree: seq<Mount>, queue: seq<Entry>, groups: nat, ghost owner: Owner)
    returns (out: seq<Entry>, last: nat, ghost more: Owner)
    requires Numbered(owner, groups) && forall i :: 0 <= i < |queue| ==> EntryFits(owner, tree, queue[i])
    ensures Numbered(more, last) && Extends(more, owner) && SameGroups(out, queue) && groups <= last
    ensures forall i :: 0 <= i < |out| ==> EntryFits(more, tree, out[i])
    ensures Assigned(queue, out, |queue|, groups, last)
  {
    out, last, more := queue, groups, owner;
    for i := 0 to |queue|
      invariant Numbered(more, last) && Extends(more, owner) && SameGroups(out, queue) && groups <= last
      invariant forall j :: 0 <= j < |queue| ==> EntryFits(more, tree, out[j])
      invariant forall j :: i <= j < |queue| ==> out[j] == queue[j]
      invariant Assigned(queue, out, i, groups, last)
    {
      ghost var before, mid := more, last;
      var peers;
      peers, last, more := AssignLevel(tree, out[i].peers, last, out[i].masters, more);
      forall j | 0 <= j < |queue| ensures EntryFits(more, tree, out[j]) {
        ExtendedFits(before, more, tree, out[j]);
      }
      AssignedMore(queue, out, i, groups, mid, peers, last);
      out := out[i := out[i].(peers := peers)];
    }
  }
}
