/**
 The mount table object: the current namespace's mounts, the parked ones, and the
 counters, changed in place. Every method keeps each peer group on one filesystem and
 the hidden places still to come free.
 */
module MountTableObject {
  import opened Errno
  import opened Options
  import opened Paths
  import opened Mounts
  import opened MountPivot
  import opened MountDetach
  import opened MountBind
  import opened MountCarry
  import opened MountPropagation
  import MG = MountGroups
  import opened MountLevels
  import opened MountWorklist
  import opened MountClear
  import opened MountLists
  import opened MountOutcomes

  class MountTable {
    var mounts: seq<Mount>
    var current: nat
    var parked: map<nat, seq<Mount>>
    var pivots: nat
    var detached: nat
    var groups: nat
    ghost var owner: MG.Owner

    /**
     Members and slaves of a peer group are on one filesystem, in every namespace, and no
     mount is in the way of one still to be hidden.
     */
    ghost predicate Valid()
      reads this
    {
      && MG.Numbered(owner, groups) && current !in parked
      && AllFit(owner, mounts) && AllClear(mounts, detached)
      && forall ns :: ns in parked ==> AllFit(owner, parked[ns]) && AllClear(parked[ns], detached)
    }

    constructor ()
      ensures Valid() && mounts == [] && current == 0 && parked == map[] && detached == groups == 0
    {
      mounts, current, parked, pivots, detached, groups, owner := [], 0, map[], 0, 0, 0, map[];
    }

    /** Answer from here on for namespace `ns`. */
    method Enter(ns: nat)
      requires Valid()
      modifies this`mounts, this`current, this`parked
      ensures Valid() && current == ns
      ensures parked[current := mounts] == old(parked[current := mounts])[ns := mounts]
      ensures mounts == if ns == old(current) then old(mounts) else if ns in old(parked) then old(parked)[ns] else []
    {
      if current != ns {
        var incoming := if ns in parked then parked[ns] else [];
        parked := (parked - {ns})[current := mounts];
        mounts, current := incoming, ns;
      }
    }

    /** What a copied namespace sees of a mount: with `lock`, shared becomes slave. */
    static function Inherited(m: Mount, lock: bool): Mount {
      if !lock then m
      else
        var l := if m.point != [] then m.(locked := true) else m;
        if l.peer != 0 then l.(master := l.peer, peer := 0) else l
    }

    method CopyNamespace(from: nat, to: nat, lock: bool)
      requires Valid() && to != current
      modifies this`parked
      ensures Valid() && to in parked && parked - {to} == old(parked) - {to}
      ensures var was := if from == current then mounts else if from in old(parked) then old(parked)[from] else [];
        parked[to] == seq(|was|, i requires 0 <= i < |was| => Inherited(was[i], lock))
    {
      var was := if from == current then mounts else if from in parked then parked[from] else [];
      var copy := was;
      for i := 0 to |was|
        invariant |copy| == |was| && forall j :: i <= j < |was| ==> copy[j] == was[j]
        invariant forall j :: 0 <= j < i ==> copy[j] == Inherited(was[j], lock)
        invariant AllFit(owner, was)
      {
        if lock {
          var m := copy[i];
          if m.point != [] { m := m.(locked := true); }
          if m.peer != 0 { m := m.(master := m.peer, peer := 0); }
          copy := copy[i := m];
        }
      }
      forall m | m in copy ensures MG.Fits(owner, m) {
        var j :| 0 <= j < |copy| && copy[j] == m;
        assert was[j] in was;
      }
      SamePlacesClear(was, copy, detached);
      parked := parked[to := copy];
    }

    method FreshGroup(ghost fs: nat) returns (g: nat)
      requires MG.Numbered(owner, groups)
      modifies this`groups, this`owner
      ensures g == groups == old(groups) + 1 && owner == old(owner)[g := fs]
      ensures MG.Numbered(owner, groups) && MG.Extends(owner, old(owner))
    {
      groups := groups + 1;
      g := groups;
      owner := owner[g := fs];
    }

    /** The mounts of namespace `ns`. */
    function List(ns: nat): seq<Mount>
      reads this
    {
      ListOf(current, mounts, parked, ns)
    }

    /** Every mount of every namespace once, each namespace's in order. */
    method AllMounts() returns (all: seq<Seat>)
      requires Valid()
      ensures forall ns :: For(all, ns) == List(ns)
    {
      all := ListAll(current, mounts, parked);
    }

    lemma SeatsFit(all: seq<Seat>)
      requires Valid() && forall ns :: For(all, ns) == List(ns)
      ensures MG.OneFs(owner, all) && SeatsClear(all, detached)
      ensures forall s :: s in all ==> s.ns == current || s.ns in parked
    {
      forall s | s in all
        ensures MG.Fits(owner, s.mount) && ClearMount(s.mount, detached) && (s.ns == current || s.ns in parked)
      {
        SeatIsListed(all, s);
        assert s.mount in List(s.ns);
      }
    }

    /** Copies go to the end of their namespaces' lists. */
    method PushCopies(copies: seq<Seat>)
      requires forall s :: s in copies ==> s.ns == current || s.ns in parked
      requires current !in parked
      modifies this`mounts, this`parked
      ensures mounts == old(mounts) + For(copies, current) && parked.Keys == old(parked).Keys
      ensures forall ns :: ns in parked ==> parked[ns] == old(parked)[ns] + For(copies, ns)
    {
      for i := 0 to |copies|
        invariant parked.Keys == old(parked).Keys
        invariant mounts == old(mounts) + For(copies[..i], current)
        invariant forall ns :: ns in parked ==> parked[ns] == old(parked)[ns] + For(copies[..i], ns)
      {
        var s := copies[i];
        assert copies[..i + 1][..i] == copies[..i];
        if s.ns == current {
          mounts := mounts + [s.mount];
        } else {
          parked := parked[s.ns := parked[s.ns] + [s.mount]];
        }
      }
      assert copies[..|copies|] == copies;
    }

    /** Each mount of a tree to be attached gets a peer group. */
    method ShareTree(tree: seq<Mount>) returns (grown: seq<Mount>)
      requires MG.Numbered(owner, groups) && AllFit(owner, tree)
      modifies this`groups, this`owner
      ensures SharedTree(tree, grown) && AllFit(owner, grown)
      ensures MG.Numbered(owner, groups) && MG.Extends(owner, old(owner))
      ensures old(groups) <= groups && NewPeers(tree, grown, old(groups), groups)
    {
      grown := tree;
      for k := 0 to |tree|
        invariant |grown| == |tree| && forall j :: k <= j < |tree| ==> grown[j] == tree[j]
        invariant SharedTree(tree[..k], grown[..k])
        invariant AllFit(owner, grown) && MG.Numbered(owner, groups) && MG.Extends(owner, old(owner))
        invariant old(groups) <= groups && NewPeers(tree[..k], grown[..k], old(groups), groups)
      {
        ghost var was, mid := grown, groups;
        if grown[k].peer == 0 {
          ghost var before := owner;
          var g := FreshGroup(grown[k].fs);
          GrownFits(before, owner, grown, k, g);
          grown := grown[k := grown[k].(peer := g)];
        }
        NewPeersMore(tree, was, grown, k, old(groups), mid, groups);
      }
      assert tree[..|tree|] == tree && grown[..|tree|] == grown;
    }

    /** The copies a tree under a shared parent needs, with the groups they get. */
    method Spread(tree: seq<Mount>, parent: Mount)
      returns (grown: seq<Mount>, copies: seq<Seat>, ghost all: seq<Seat>, ghost drops: seq<Drop>)
      requires Valid() && tree != [] && AllFit(owner, tree) && TreeAt(tree, tree[0].point) && AllClear(tree, detached)
      requires parent in mounts && parent.point <= tree[0].point && parent.peer != 0
      modifies this`groups, this`owner
      ensures Valid() && Lists(all)
      ensures Attached(Source(parent.fs, current, parent.point), parent.peer, tree,
                       FsPath(parent, tree[0].point), all, grown, drops, copies)
      ensures AllFit(owner, grown) && AllClear(grown, detached)
      ensures MG.OneFs(owner, copies) && SeatsClear(copies, detached)
      ensures forall s :: s in copies ==> s.ns == current || s.ns in parked
    {
      ghost var before, lo := owner, groups;
      var every := AllMounts();
      all := every;
      SeatsFit(every);
      GroupsUpTo(owner, every, tree, groups);
      assert MG.Fits(owner, parent) && ClearMount(parent, detached) && ClearMount(tree[0], detached);
      var c, at := Source(parent.fs, current, parent.point), FsPath(parent, tree[0].point);
      grown := ShareTree(tree);
      StillValid(before);
      SeatsFit(every);
      var last;
      copies, last, drops, owner := PlaceCopies(c, every, tree, grown, at, parent.peer, groups, lo, owner, detached);
      groups := last;
      StillValid(before);
    }

    /** Add a tree under a shared parent, here and in every namespace that follows it. */
    method AttachShared(tree: seq<Mount>, parent: Mount)
      returns (ghost all: seq<Seat>, ghost grown: seq<Mount>, ghost drops: seq<Drop>, ghost copies: seq<Seat>)
      requires Valid() && tree != [] && AllFit(owner, tree) && TreeAt(tree, tree[0].point) && AllClear(tree, detached)
      requires parent in mounts && parent.point <= tree[0].point && parent.peer != 0
      modifies this`mounts, this`parked, this`groups, this`owner
      ensures Valid() && parked.Keys == old(parked).Keys && old(Lists(all))
      ensures Attached(Source(parent.fs, current, parent.point), parent.peer, tree,
                       FsPath(parent, tree[0].point), all, grown, drops, copies)
      ensures mounts == old(mounts) + grown + For(copies, current)
      ensures forall ns :: ns in parked ==> parked[ns] == old(parked)[ns] + For(copies, ns)
    {
      var big, places;
      big, places, all, drops := Spread(tree, parent);
      grown, copies := big, places;
      PlaceAll(big, places);
    }

    /** The tree here, and its copies where they go. */
    method PlaceAll(tree: seq<Mount>, copies: seq<Seat>)
      requires Valid() && AllFit(owner, tree) && AllClear(tree, detached)
      requires MG.OneFs(owner, copies) && SeatsClear(copies, detached)
      requires forall s :: s in copies ==> s.ns == current || s.ns in parked
      modifies this`mounts, this`parked
      ensures Valid() && parked.Keys == old(parked).Keys && mounts == old(mounts) + tree + For(copies, current)
      ensures forall ns :: ns in parked ==> parked[ns] == old(parked)[ns] + For(copies, ns)
    {
      WithCopies(owner, mounts, tree, copies, current, detached);
      AllWithCopies(owner, parked, copies, detached);
      mounts := mounts + tree;
      PushCopies(copies);
    }

    /** More groups do not disturb the mounts there are. */
    lemma StillValid(before: MG.Owner)
      requires MG.Numbered(owner, groups) && current !in parked && MG.Extends(owner, before)
      requires AllFit(before, mounts) && forall ns :: ns in parked ==> AllFit(before, parked[ns])
      requires AllClear(mounts, detached) && forall ns :: ns in parked ==> AllClear(parked[ns], detached)
      ensures Valid()
    {
      ExtendedFits(owner, before, mounts);
      forall ns | ns in parked ensures AllFit(owner, parked[ns]) {
        ExtendedFits(owner, before, parked[ns]);
      }
    }

    /** Add a tree of mounts where its first one says; a private parent keeps it to this namespace. */
    method Attach(tree: seq<Mount>)
      returns (ghost all: seq<Seat>, ghost grown: seq<Mount>, ghost drops: seq<Drop>, ghost copies: seq<Seat>)
      requires Valid() && tree != [] && AllFit(owner, tree) && TreeAt(tree, tree[0].point) && AllClear(tree, detached)
      modifies this`mounts, this`parked, this`groups, this`owner
      ensures Valid() && (!UnderShared(old(mounts), tree[0].point) ==> groups == old(groups))
      ensures AttachOutcome(current, old(mounts), old(parked), tree, mounts, parked, all, grown, drops, copies)
    {
      all, grown, drops, copies := [], [], [], [];
      var i := BestMount(mounts, tree[0].point);
      if i.None? || mounts[i.value].peer == 0 {
        mounts := mounts + tree;
      } else {
        all, grown, drops, copies := AttachShared(tree, mounts[i.value]);
      }
    }

    /** A filesystem of its own, mounted by the guest. */
    method MountGuest(point: Path, fs: nat)
      returns (ghost all: seq<Seat>, ghost grown: seq<Mount>, ghost drops: seq<Drop>, ghost copies: seq<Seat>)
      requires Valid() && Clear(point, detached)
      modifies this`mounts, this`parked, this`groups, this`owner
      ensures Valid() && (!UnderShared(old(mounts), point) ==> groups == old(groups))
      ensures AttachOutcome(current, old(mounts), old(parked), [GuestMount(point, fs)], mounts, parked,
                            all, grown, drops, copies)
    {
      all, grown, drops, copies := Attach([GuestMount(point, fs)]);
    }

    /** A mount of the embedder's own, which no guest can remove. */
    method MountOwn(point: Path, fs: nat)
      requires Valid() && Clear(point, detached)
      modifies this`mounts
      ensures Valid() && mounts == old(mounts) + [Mount(point, fs, [], false, false, false, 0, 0, 0, false)]
    {
      mounts := mounts + [Mount(point, fs, [], false, false, false, 0, 0, 0, false)];
    }

    /** Move the mount at `from`, and any at or below it, to `to`. */
    method MoveMount(from: Path, to: Path) returns (errno: nat)
      requires Valid() && Clear(to, detached)
      modifies this`mounts
      ensures Valid() && |mounts| == |old(mounts)|
      ensures errno == if exists m :: m in old(mounts) && m.point == from && !m.locked then OK else EINVAL
      ensures errno != OK ==> mounts == old(mounts)
      ensures errno == OK ==> forall i :: 0 <= i < |mounts| ==>
        mounts[i] == if from <= old(mounts)[i].point
                     then old(mounts)[i].(point := to + old(mounts)[i].point[|from|..]) else old(mounts)[i]
    {
      var was := mounts;
      if !exists m :: m in was && m.point == from && !m.locked { return EINVAL; }
      for i := 0 to |was|
        invariant Valid() && |mounts| == |was| && forall j :: i <= j < |was| ==> mounts[j] == was[j]
        invariant forall j :: 0 <= j < i ==>
          mounts[j] == if from <= was[j].point then was[j].(point := to + was[j].point[|from|..]) else was[j]
      {
        assert mounts[i] in mounts;
        if from <= mounts[i].point {
          mounts := mounts[i := mounts[i].(point := to + mounts[i].point[|from|..])];
        }
      }
      errno := OK;
    }

    /** Forget the namespaces nobody is in; the first is kept. */
    method CollectNamespaces(used: set<nat>)
      requires Valid()
      modifies this`parked
      ensures Valid() && parked.Keys == old(parked).Keys * (used + {0})
      ensures forall ns :: ns in parked ==> parked[ns] == old(parked)[ns]
    {
      parked := map ns | ns in parked && (ns == 0 || ns in used) :: parked[ns];
    }

    /** The mounts a bind of `source` at `target` adds. */
    method BindTree(i: nat, source: Path, target: Path, recursive: bool) returns (tree: seq<Mount>)
      requires i < |mounts| && mounts[i].point <= source && AllFit(owner, mounts) && AllClear(mounts, detached)
      requires Clear(source, detached) && Clear(target, detached)
      ensures tree == [Bound(mounts[i], source, target)] + (if recursive then Mirrored(mounts, source, target) else [])
      ensures TreeAt(tree, target) && AllFit(owner, tree) && AllClear(tree, detached)
    {
      tree := [Bound(mounts[i], source, target)];
      if recursive {
        for j := 0 to |mounts|
          invariant tree == [Bound(mounts[i], source, target)] + Mirrored(mounts[..j], source, target)
        {
          assert mounts[..j + 1][..j] == mounts[..j];
          var m := mounts[j];
          if m.point != source && source <= m.point && !m.unbindable {
            tree := tree + [Mirror(m, source, target)];
          }
        }
        assert mounts[..|mounts|] == mounts;
        MirroredFits(owner, mounts, source, target);
        MirroredClear(mounts, source, target, detached);
      }
      assert mounts[i] in mounts;
      BoundClear(mounts[i], source, target, detached);
    }

    /** Bind `source`, with `recursive` also the mounts below it, onto `target`. */
    method Bind(source: Path, target: Path, recursive: bool)
      returns (errno: nat,
               ghost all: seq<Seat>, ghost grown: seq<Mount>, ghost drops: seq<Drop>, ghost copies: seq<Seat>)
      requires Valid() && Clear(source, detached) && Clear(target, detached)
      modifies this`mounts, this`parked, this`groups, this`owner
      ensures Valid() && (!UnderShared(old(mounts), target) ==> groups == old(groups))
      ensures var w := Winner(old(mounts), source);
              errno == if w.None? then ENOENT else if w.value.unbindable then EINVAL else OK
      ensures errno != OK ==> mounts == old(mounts) && parked == old(parked)
      ensures errno == OK ==>
                var tree := BindMounts(old(mounts), source, target, recursive);
                && tree != [] && tree[0].point == target
                && AttachOutcome(current, old(mounts), old(parked), tree, mounts, parked, all, grown, drops, copies)
    {
      all, grown, drops, copies := [], [], [], [];
      var i := BestMount(mounts, source);
      if i.None? { return ENOENT, all, grown, drops, copies; }
      if mounts[i.value].unbindable { return EINVAL, all, grown, drops, copies; }
      var tree := BindTree(i.value, source, target, recursive);
      all, grown, drops, copies := Attach(tree);
      errno := OK;
    }

    /** `all` lists every mount of every namespace once. */
    ghost predicate Lists(all: seq<Seat>)
      reads this
    {
      forall ns :: For(all, ns) == List(ns)
    }

    /** Whether peer group `g` has more than one mount, in all namespaces together. */
    method HasCompany(g: nat) returns (others: bool, ghost all: seq<Seat>)
      requires Valid()
      ensures Lists(all) && others == (PeerCount(all, g) > 1)
    {
      var every := AllMounts();
      var count := 0;
      for i := 0 to |every|
        invariant count == PeerCount(every[..i], g)
      {
        assert every[..i + 1][..i] == every[..i];
        if every[i].mount.peer == g { count := count + 1; }
      }
      assert every[..|every|] == every;
      others, all := count > 1, every;
    }

    /** Change how one mount propagates. */
    method SetOne(i: nat, kind: Propagation)
      requires Valid() && i < |mounts|
      modifies this`mounts, this`groups, this`owner
      ensures Valid() && SetStep(current, parked, old(Stage(mounts, groups)), i, kind, Stage(mounts, groups))
    {
      var m := mounts[i];
      assert m in mounts;
      match kind {
        case Shared =>
          if m.peer == 0 {
            ghost var before := owner;
            var g := FreshGroup(m.fs);
            StillValid(before);
            m := m.(peer := g);
          }
          m := m.(unbindable := false);
        case Private =>
          m := m.(peer := 0, master := 0, unbindable := false);
        case Unbindable =>
          m := m.(peer := 0, master := 0, unbindable := true);
        case Slave =>
          if m.peer != 0 {
            var others, all := HasCompany(m.peer);
            assert Listing(current, mounts, parked, all);
            if others { m := m.(master := m.peer); }
            m := m.(peer := 0);
          }
          m := m.(unbindable := false);
      }
      Replaced(owner, mounts, i, m, detached);
      mounts := mounts[i := m];
    }

    /**
     `mount --make-shared`, `--make-slave`, `--make-private` and `--make-unbindable`: the
     mount on top at `point`, or with `recursive` those below too, one after the other.
     */
    method SetPropagation(point: Path, kind: Propagation, recursive: bool) returns (errno: nat, ghost run: seq<Stage>)
      requires Valid()
      modifies this`mounts, this`groups, this`owner
      ensures Valid()
      ensures errno == if LastAt(old(mounts), point).Some? then OK else EINVAL
      ensures errno != OK ==> mounts == old(mounts)
      ensures errno == OK ==>
                && SetRun(current, parked, LastAt(old(mounts), point).value, point, kind, recursive, run)
                && |run| == |old(mounts)| + 1 && run[0] == old(Stage(mounts, groups))
                && run[|old(mounts)|] == Stage(mounts, groups) && SamePlaces(old(mounts), mounts)
    {
      run := [Stage(mounts, groups)];
      var top := LastAt(mounts, point);
      if top.None? { return EINVAL, run; }
      var was := mounts;
      for i := 0 to |was|
        invariant Valid() && |run| == i + 1 && run[i] == Stage(mounts, groups) && |mounts| == |was|
        invariant run[0] == old(Stage(mounts, groups))
        invariant SetRun(current, parked, top.value, point, kind, recursive, run)
      {
        if i == top.value || (recursive && point <= mounts[i].point && mounts[i].point != point) {
          SetOne(i, kind);
        }
        SetRunSnoc(current, parked, top.value, point, kind, recursive, run, Stage(mounts, groups));
        run := run + [Stage(mounts, groups)];
      }
      SetRunKeepsPlaces(current, parked, top.value, point, kind, recursive, run);
      errno := OK;
    }

    /** Make `newRoot` the root of this namespace and put the old one at `putOld`. */
    method PivotRoot(newRoot: Path, putOld: Path) returns (map_: Option<PivotMap>)
      requires Valid() && Clear(putOld, detached)
      modifies this`mounts, this`pivots
      ensures Valid() && (map_.Some? <==> CanPivot(old(mounts), newRoot, putOld))
      ensures map_.None? ==> mounts == old(mounts) && pivots == old(pivots)
      ensures map_.Some? ==> map_.value == PivotMap(newRoot, putOld[|newRoot|..]) && pivots == old(pivots) + 1
      ensures map_.Some? ==> mounts == Pivoted(old(mounts), newRoot, putOld, pivots)
    {
      var top := LastAt(mounts, newRoot);
      if top.None? || !(newRoot <= putOld) || newRoot == [] { return None; }
      var put := putOld[|newRoot|..];
      pivots := pivots + 1;
      var kept, past := [], [];
      for i := 0 to |mounts|
        invariant kept == KeptUpTo(mounts, top.value, newRoot, i)
        invariant past == PastUpTo(mounts, top.value, newRoot, put, pivots, i)
        invariant AllFit(owner, kept) && AllFit(owner, past)
      {
        var m := mounts[i];
        assert m in mounts;
        if i >= top.value && newRoot <= m.point {
          kept := kept + [m.(point := m.point[|newRoot|..])];
        } else {
          past := past + [Sided(m, put, pivots)];
        }
      }
      SplitIsPivot(mounts, newRoot, putOld, pivots);
      PivotKeepsClear(mounts, newRoot, putOld, pivots, detached);
      mounts := kept + past;
      return Some(PivotMap(newRoot, put));
    }

    /** The list of a namespace that is there. */
    method SetList(ns: nat, ms: seq<Mount>)
      requires ns == current || ns in parked
      requires current !in parked
      modifies this`mounts, this`parked
      ensures forall n :: List(n) == if n == ns then ms else old(List(n))
      ensures parked.Keys == old(parked).Keys
    {
      if ns == current { mounts := ms; } else { parked := parked[ns := ms]; }
    }

    /** One receiver of `propagate_unmount`. */
    method PruneUnder(c: Source, at: Path, fs: nat, s: Seat)
      requires Valid() && (s.ns == current || s.ns in parked)
      modifies this`mounts, this`parked
      ensures Valid() && parked.Keys == old(parked).Keys
      ensures forall ns :: List(ns) == Pruned(old(List(ns)), ns, c, at, fs, s)
    {
      if !IsSource(c, s) && s.mount.fs == c.fs && s.mount.subdir <= at {
        var ms := List(s.ns);
        assert AllFit(owner, ms) && AllClear(ms, detached);
        var point := s.mount.point + at[|s.mount.subdir|..];
        PruneFits(owner, ms, point, fs);
        SetList(s.ns, PruneOne(ms, point, fs));
        assert List(current) == mounts;
        forall ns | ns in parked ensures AllFit(owner, parked[ns]) && AllClear(parked[ns], detached) {
          assert parked[ns] == List(ns);
        }
      }
    }

    /** The loop of `propagate_unmount` over the receivers. */
    method PruneAll(c: Source, at: Path, fs: nat, targets: seq<Seat>)
      requires Valid() && forall s :: s in targets ==> s.ns == current || s.ns in parked
      modifies this`mounts, this`parked
      ensures Valid() && parked.Keys == old(parked).Keys
      ensures forall ns :: List(ns) == Prune(old(List(ns)), ns, c, at, fs, targets)
    {
      for i := 0 to |targets|
        invariant Valid() && parked.Keys == old(parked).Keys
        invariant forall ns :: List(ns) == Prune(old(List(ns)), ns, c, at, fs, targets[..i])
      {
        assert targets[..i + 1][..i] == targets[..i] && targets[i] in targets;
        PruneUnder(c, at, fs, targets[i]);
      }
      assert targets[..|targets|] == targets;
    }

    /** Exactly the receivers of a shared parent. */
    ghost predicate Targets(parent: Option<Mount>, targets: seq<Seat>)
      reads this
    {
      parent.Some? && parent.value.peer != 0 ==>
        exists all :: && Lists(all) && FoundIn(all, parent.value.peer, targets)
                      && forall s :: s in targets <==> s in all && IsReceiver(all, parent.value.peer, s)
    }

    /** The mount at index `i` is going: so do its copies under the parent's peers and slaves. */
    method PropagateUnmount(i: nat) returns (ghost targets: seq<Seat>)
      requires Valid() && i < |mounts|
      modifies this`mounts, this`parked
      ensures Valid() && parked.Keys == old(parked).Keys && old(Targets(Parent(mounts, mounts[i].point), targets))
      ensures var parent, gone := Parent(old(mounts), old(mounts)[i].point), old(mounts)[i];
              forall ns :: List(ns) == Propagated(old(List(ns)), ns, parent, current, gone, targets)
    {
      targets := [];
      var gone := mounts[i];
      var parent := ParentLoop(mounts, gone.point);
      if parent.None? || parent.value.peer == 0 { return; }
      var all := AllMounts();
      SeatsFit(all);
      assert old(Lists(all));
      var found := Receivers(all, parent.value.peer);
      targets := found;
      PruneAll(Source(parent.value.fs, current, parent.value.point), FsPath(parent.value, gone.point), gone.fs, found);
    }

    /**
     Remove the mount on top at `point`, or with `detach` hide it and what goes along. A
     path into what was hidden still finds the same file, by the move answered.
     */
    method Unmount(point: Path, detach: bool) returns (r: Unmounted, ghost targets: seq<Seat>)
      requires Valid()
      modifies this`mounts, this`parked, this`detached
      ensures Valid() && parked.Keys == old(parked).Keys
      ensures
        if Refusal(old(mounts), old(current), point) != OK then
          r == Refused(Refusal(old(mounts), old(current), point)) && mounts == old(mounts) && parked == old(parked)
        else
          var parent, gone := Parent(old(mounts), point), old(mounts)[LastAt(old(mounts), point).value];
          var mid := Propagated(old(mounts), current, parent, current, gone, targets);
          && old(Targets(Parent(mounts, point), targets))
          && r == UnmountReply(mid, point, detach, old(detached)) && mounts == UnmountResult(mid, point, r)
          && (forall ns :: ns in parked ==>
                parked[ns] == Propagated(old(parked)[ns], ns, parent, current, gone, targets))
          && (r.Hid? ==> forall path :: FollowsMove(mid, point, path) ==>
                Resolve(mounts, MountDetach.Translate(r.move, path)) == Resolve(mid, path))
      ensures detached == if r.Hid? then old(detached) + 1 else old(detached)
    {
      targets := [];
      var i := LastAt(mounts, point);
      if i.None? || mounts[i.value].locked { return Refused(EINVAL), targets; }
      if !mounts[i.value].guest && current == 0 { return Refused(EBUSY), targets; }
      targets := PropagateUnmount(i.value);
      assert List(current) == mounts && forall ns :: ns in parked ==> parked[ns] == List(ns);
      r := RemoveTop(point, detach);
    }

    /** The rest of it, in this namespace alone. */
    method RemoveTop(point: Path, detach: bool) returns (r: Unmounted)
      requires Valid()
      modifies this`mounts, this`detached
      ensures Valid() && r == UnmountReply(old(mounts), point, detach, old(detached))
      ensures mounts == UnmountResult(old(mounts), point, r)
      ensures r.Hid? ==> forall path :: FollowsMove(old(mounts), point, path) ==>
                Resolve(mounts, MountDetach.Translate(r.move, path)) == Resolve(old(mounts), path)
      ensures detached == if r.Hid? then old(detached) + 1 else old(detached)
    {
      var i := LastAt(mounts, point);
      if i.None? { return Refused(EINVAL); }
      var side := mounts[i.value].pivotSide;
      if (exists m :: m in mounts && GoesAlong(m, point, side)) && !detach { return Refused(EBUSY); }
      DetachFits(owner, mounts, i.value, Hidden(detached));
      if !detach {
        mounts := mounts[..i.value] + mounts[i.value + 1..];
        return Gone;
      }
      DetachKeepsClear(mounts, i.value, detached);
      ParkedStayClear();
      HiddenStillResolves(mounts, point, i.value, detached);
      mounts := Detached(mounts, i.value, Hidden(detached));
      detached := detached + 1;
      return Hid(PathMove(point, Hidden(detached - 1)));
    }

    lemma ParkedStayClear()
      requires Valid()
      ensures forall ns :: ns in parked ==> AllClear(parked[ns], detached + 1)
    {
      forall ns | ns in parked ensures AllClear(parked[ns], detached + 1) {
        ClearLater(parked[ns], detached, detached + 1);
      }
    }

    /** Keep `paths`, as namespace `from` resolves them, reachable from this one. */
    method CarryFrom(from: nat, paths: seq<Path>) returns (out: seq<Option<Path>>)
      requires Valid()
      modifies this`mounts, this`detached
      ensures Valid() && |out| == |paths|
      ensures from == current ==> mounts == old(mounts) && forall k :: 0 <= k < |paths| ==> out[k] == Some(paths[k])
      ensures from != current && from !in parked ==>
                mounts == old(mounts) && forall k :: 0 <= k < |paths| ==> out[k] == None
      ensures from in parked ==> forall k :: 0 <= k < |paths| ==> Carried(parked[from], paths[k], mounts, out[k])
      ensures forall path {:trigger Winner(mounts, path)} ::
        (forall n :: old(detached) <= n ==> !(Hidden(n) <= path)) ==> Winner(mounts, path) == Winner(old(mounts), path)
    {
      if from == current { return seq(|paths|, k requires 0 <= k < |paths| => Some(paths[k])); }
      if from !in parked { return seq(|paths|, _ => None); }
      var added;
      out, added := CarryPaths(parked[from], paths);
      ClearIsFresh(mounts, detached);
      CarryKeepsClear(mounts, added, detached);
      forall ns | ns in parked ensures AllClear(parked[ns], detached + |added|) {
        ClearLater(parked[ns], detached, detached + |added|);
      }
      forall k | 0 <= k < |paths| ensures Carried(parked[from], paths[k], mounts + added, out[k]) {
        PlacedIsCarried(mounts, added, detached, parked[from], paths[k], out[k]);
      }
      forall path | forall n :: detached <= n ==> !(Hidden(n) <= path)
        ensures Winner(mounts + added, path) == Winner(mounts, path)
      {
        CarryLeavesOthers(mounts, added, detached, path);
      }
      mounts := mounts + added;
      detached := detached + |added|;
    }

    /** The hidden mount for the mount at index `i` of `source`, made on first use. */
    method CarryMount(source: seq<Mount>, i: nat, carried: map<nat, nat>, added: seq<Mount>)
      returns (now: map<nat, nat>, more: seq<Mount>, at: nat)
      requires AllFit(owner, source) && AllClear(source, detached) && i < |source|
      requires AllFit(owner, added) && forall m :: m in added ==> Clear(m.subdir, detached)
      requires Numbered(added, detached) && Carriers(source, carried, added, detached)
      ensures added <= more && AllFit(owner, more) && Numbered(more, detached) && Carriers(source, now, more, detached)
      ensures forall m :: m in more ==> Clear(m.subdir, detached)
      ensures at < |more| && more[at] == source[i].(point := Hidden(detached + at))
    {
      assert source[i] in source;
      now, more := carried, added;
      if i !in carried {
        CarriersMore(source, carried, added, detached, i);
        now := carried[i := |added|];
        more := added + [source[i].(point := Hidden(detached + |added|))];
      }
      at := now[i];
    }

    /** The loop: one hidden mount for each mount that owns a path. */
    method CarryPaths(source: seq<Mount>, paths: seq<Path>) returns (out: seq<Option<Path>>, added: seq<Mount>)
      requires AllFit(owner, source) && AllClear(source, detached)
      ensures |out| == |paths| && Numbered(added, detached) && AllFit(owner, added)
      ensures forall m :: m in added ==> Clear(m.subdir, detached)
      ensures forall k :: 0 <= k < |paths| ==> Placed(source, paths[k], added, detached, out[k])
    {
      out, added := [], [];
      var carried: map<nat, nat> := map[];
      for k := 0 to |paths|
        invariant |out| == k && Numbered(added, detached) && AllFit(owner, added)
        invariant forall m :: m in added ==> Clear(m.subdir, detached)
        invariant Carriers(source, carried, added, detached)
        invariant forall j :: 0 <= j < k ==> Placed(source, paths[j], added, detached, out[j])
      {
        var path := paths[k];
        var i := BestMount(source, path);
        if i.None? {
          out := out + [None];
        } else {
          ghost var before := added;
          var at;
          carried, added, at := CarryMount(source, i.value, carried, added);
          forall j | 0 <= j < k ensures Placed(source, paths[j], added, detached, out[j]) {
            StillPlaced(source, paths[j], before, added, detached, out[j]);
          }
          var answer := Hidden(detached + at) + path[|source[i.value].point|..];
          assert PlacedAt(source[i.value], path, added, detached, Some(answer), at);
          out := out + [Some(answer)];
        }
      }
    }

    /** Drop the hidden mounts that no path of `used` lies in. */
    method CollectDetached(used: seq<Path>)
      requires Valid()
      modifies this`mounts
      ensures Valid() && mounts == Collected(old(mounts), used)
    {
      var kept := [];
      for i := 0 to |mounts|
        invariant kept == Collected(mounts[..i], used) && AllFit(owner, kept) && AllClear(kept, detached)
      {
        assert mounts[..i + 1][..i] == mounts[..i] && mounts[i] in mounts;
        if Stays(mounts[i], used) { kept := kept + [mounts[i]]; }
      }
      assert mounts[..|mounts|] == mounts;
      mounts := kept;
    }
  }
}
