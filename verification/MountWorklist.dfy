/**
 The two worklist loops over peer groups.
 */
module MountWorklist {
  import opened Paths
  import opened Mounts
  import opened MountPropagation
  import opened MountGroups
  import opened MountLevels

  /** A tree of mounts: each at or below the first. */
  ghost predicate TreeAt(tree: seq<Mount>, top: Path) {
    forall k :: 0 <= k < |tree| ==> top <= tree[k].point
  }

  ghost predicate Sized(tree: seq<Mount>, all: seq<Seat>, drops: seq<Drop>) {
    forall d :: d in drops ==> d.seat < |all| && |d.peers| == |d.masters| == |tree|
  }

  ghost function AllCopies(tree: seq<Mount>, top: Path, at: Path, all: seq<Seat>, drops: seq<Drop>): seq<Seat>
    requires TreeAt(tree, top) && Sized(tree, all, drops)
  {
    if drops == [] then []
    else
      var d := drops[|drops| - 1];
      AllCopies(tree, top, at, all, drops[..|drops| - 1]) + CopiesUnder(tree, top, at, all[d.seat], d)
  }

  lemma Regroup(a: seq<Seat>, b: seq<Seat>, c: seq<Seat>)
    ensures a + b + c == a + (b + c)
  {
  }

  lemma {:induction false} AllCopiesConcat(
    tree: seq<Mount>, top: Path, at: Path, all: seq<Seat>, a: seq<Drop>, b: seq<Drop>)
    requires TreeAt(tree, top) && Sized(tree, all, a) && Sized(tree, all, b)
    ensures AllCopies(tree, top, at, all, a + b) == AllCopies(tree, top, at, all, a) + AllCopies(tree, top, at, all, b)
    decreases |b|
  {
    if b == [] {
      assert a + b == a;
    } else {
      var rest, d := b[..|b| - 1], b[|b| - 1];
      assert (a + b)[..|a + b| - 1] == a + rest && (a + b)[|a + b| - 1] == d;
      AllCopiesConcat(tree, top, at, all, a, rest);
      Regroup(AllCopies(tree, top, at, all, a), AllCopies(tree, top, at, all, rest),
        CopiesUnder(tree, top, at, all[d.seat], d));
    }
  }

  lemma {:induction false} AllCopiesFit(
    owner: Owner, tree: seq<Mount>, top: Path, at: Path, all: seq<Seat>, drops: seq<Drop>)
    requires TreeAt(tree, top) && Sized(tree, all, drops) && forall d :: d in drops ==> DropFits(owner, tree, d)
    ensures OneFs(owner, AllCopies(tree, top, at, all, drops))
    decreases |drops|
  {
    if drops != [] {
      var d := drops[|drops| - 1];
      AllCopiesFit(owner, tree, top, at, all, drops[..|drops| - 1]);
      CopiesFit(owner, tree, top, at, all[d.seat], d);
    }
  }

  lemma AllCopiesSnoc(tree: seq<Mount>, top: Path, at: Path, all: seq<Seat>, drops: seq<Drop>, d: Drop)
    requires TreeAt(tree, top) && Sized(tree, all, drops) && d.seat < |all| && |d.peers| == |d.masters| == |tree|
    ensures Sized(tree, all, drops + [d])
    ensures AllCopies(tree, top, at, all, drops + [d]) ==
      AllCopies(tree, top, at, all, drops) + CopiesUnder(tree, top, at, all[d.seat], d)
  {
    assert (drops + [d])[..|drops|] == drops;
  }

  /** The outcome of a turn over the first `i` mounts. */
  ghost predicate Visited(c: Source, all: seq<Seat>, i: nat, tree: seq<Mount>, top: Path, at: Path, e: Entry,
                          copies: seq<Seat>, pushed: seq<Entry>)
    requires i <= |all| && TreeAt(tree, top)
  {
    && pushed == Pushes(c, all[..i], e)
    && Sized(tree, all, Drops(c, all[..i], e))
    && copies == AllCopies(tree, top, at, all, Drops(c, all[..i], e))
  }

  lemma VisitNext(c: Source, all: seq<Seat>, i: nat, e: Entry)
    requires i < |all|
    ensures Pushes(c, all[..i + 1], e) == Pushes(c, all[..i], e) + PushesAt(c, all[i], e)
    ensures Drops(c, all[..i + 1], e) == Drops(c, all[..i], e) + DropsAt(c, all[i], i, e)
  {
    assert all[..i + 1][..i] == all[..i];
  }

  /** A mount that gets no copy now. */
  lemma VisitPasses(c: Source, all: seq<Seat>, i: nat, tree: seq<Mount>, top: Path, at: Path, e: Entry,
                    copies: seq<Seat>, pushed: seq<Entry>)
    requires i < |all| && TreeAt(tree, top) && Visited(c, all, i, tree, top, at, e, copies, pushed)
    requires DropsAt(c, all[i], i, e) == []
    ensures Visited(c, all, i + 1, tree, top, at, e, copies, pushed + PushesAt(c, all[i], e))
  {
    VisitNext(c, all, i, e);
    assert Drops(c, all[..i], e) + [] == Drops(c, all[..i], e);
  }

  /** A mount that gets one. */
  lemma VisitDrops(c: Source, all: seq<Seat>, i: nat, tree: seq<Mount>, top: Path, at: Path, e: Entry,
                   copies: seq<Seat>, pushed: seq<Entry>, d: Drop)
    requires i < |all| && TreeAt(tree, top) && Visited(c, all, i, tree, top, at, e, copies, pushed)
    requires DropsAt(c, all[i], i, e) == [d] && |d.peers| == |d.masters| == |tree|
    ensures Visited(c, all, i + 1, tree, top, at, e, copies + CopiesUnder(tree, top, at, all[i], d), pushed)
  {
    VisitNext(c, all, i, e);
    AllCopiesSnoc(tree, top, at, all, Drops(c, all[..i], e), d);
    assert pushed + [] == pushed;
  }

  /** One turn: the loop over every mount of every namespace. */
  method Visit(c: Source, all: seq<Seat>, tree: seq<Mount>, top: Path, at: Path, e: Entry)
    returns (copies: seq<Seat>, pushed: seq<Entry>)
    requires TreeAt(tree, top) && |e.peers| == |e.masters| == |tree|
    ensures pushed == Pushes(c, all, e)
    ensures Sized(tree, all, Drops(c, all, e)) && copies == AllCopies(tree, top, at, all, Drops(c, all, e))
  {
    copies, pushed := [], [];
    for i := 0 to |all|
      invariant Visited(c, all, i, tree, top, at, e, copies, pushed)
    {
      var s := all[i];
      if s.mount.peer == e.group && !IsSource(c, s) && s.mount.fs == c.fs {
        var d := Drop(i, e.peers, e.masters);
        VisitDrops(c, all, i, tree, top, at, e, copies, pushed, d);
        copies := copies + CopiesUnder(tree, top, at, s, d);
      } else if s.mount.master == e.group && s.mount.fs == c.fs && s.mount.peer == 0 {
        var d := Drop(i, Zeros(|tree|), e.peers);
        VisitDrops(c, all, i, tree, top, at, e, copies, pushed, d);
        copies := copies + CopiesUnder(tree, top, at, s, d);
      } else {
        VisitPasses(c, all, i, tree, top, at, e, copies, pushed);
        if s.mount.master == e.group && s.mount.fs == c.fs {
          pushed := pushed + [Entry(s.mount.peer, Zeros(|tree|), e.peers)];
        } else {
          assert pushed + [] == pushed;
        }
      }
    }
    assert all[..|all|] == all;
  }

  function Groups(all: seq<Seat>, start: nat): set<nat> {
    (set s | s in all :: s.mount.peer) + {start}
  }

  lemma RenamedQueue(seats: set<Seat>, start: nat, seen: set<nat>, a: seq<Entry>, b: seq<Entry>)
    requires Exploring(seats, start, seen, a) && SameGroups(b, a)
    ensures Exploring(seats, start, seen, b)
  {
    forall g | Queued(a, g) ensures Queued(b, g) {
      var i :| 0 <= i < |a| && a[i].group == g;
      assert b[i] in b;
    }
    forall e | e in b ensures e.group != 0 && Reached(seats, start, e.group) {
      var i :| 0 <= i < |b| && b[i] == e;
      assert a[i] in a;
    }
  }

  lemma QueueIsKnown(c: Source, all: seq<Seat>, e: Entry, start: nat)
    ensures forall p :: p in Pushes(c, all, e) ==> p.group in Groups(all, start)
  {
    forall p | p in Pushes(c, all, e) ensures p.group in Groups(all, start) {
      PushedFrom(c, all, e, p);
    }
  }

  /** What is known of the tree and the mounts when propagation starts. */
  ghost predicate Prepared(owner: Owner, groups: nat, all: seq<Seat>, tree: seq<Mount>, top: Path) {
    && TreeAt(tree, top) && Numbered(owner, groups) && OneFs(owner, all)
    && forall k :: 0 <= k < |tree| ==> Fits(owner, tree[k])
  }

  ghost predicate Pending(owner: Owner, tree: seq<Mount>, known: set<nat>, queue: seq<Entry>) {
    forall i :: 0 <= i < |queue| ==> EntryFits(owner, tree, queue[i]) && queue[i].group in known
  }

  ghost predicate Done(owner: Owner, tree: seq<Mount>, top: Path, at: Path, all: seq<Seat>, drops: seq<Drop>,
                       copies: seq<Seat>)
  {
    && TreeAt(tree, top) && Sized(tree, all, drops)
    && (forall d :: d in drops ==> DropFits(owner, tree, d))
    && copies == AllCopies(tree, top, at, all, drops)
  }

  /** One turn at the head of the queue `rest + [e]`. */
  method Turn(c: Source, all: seq<Seat>, tree: seq<Mount>, top: Path, at: Path,
              rest: seq<Entry>, e: Entry, copies: seq<Seat>, groups: nat,
              ghost known: set<nat>, ghost drops: seq<Drop>, ghost owner: Owner)
    returns (queue: seq<Entry>, copied: seq<Seat>, last: nat, ghost more: Owner)
    requires Numbered(owner, groups) && Pending(owner, tree, known, rest + [e])
    requires Groups(all, e.group) <= known + {e.group} && Done(owner, tree, top, at, all, drops, copies)
    ensures Numbered(more, last) && Extends(more, owner)
    ensures SameGroups(queue, rest + Pushes(c, all, e)) && Pending(more, tree, known, queue)
    ensures Done(more, tree, top, at, all, drops + Drops(c, all, e), copied)
    ensures groups <= last && Assigned(rest + Pushes(c, all, e), queue, |queue|, groups, last)
  {
    assert EntryFits(owner, tree, (rest + [e])[|rest|]);
    var here, pushed := Visit(c, all, tree, top, at, e);
    copied := copies + here;
    PendingMore(owner, tree, known, c, all, rest, e);
    queue, last, more := AssignAll(tree, rest + pushed, groups, owner);
    TurnFits(owner, tree, c, all, e);
    DoneMore(owner, more, tree, top, at, all, drops, Drops(c, all, e), copies, here);
  }

  lemma PendingMore(owner: Owner, tree: seq<Mount>, known: set<nat>, c: Source, all: seq<Seat>,
                    rest: seq<Entry>, e: Entry)
    requires Pending(owner, tree, known, rest + [e]) && Groups(all, e.group) <= known + {e.group}
    ensures Pending(owner, tree, known, rest + Pushes(c, all, e))
  {
    var pushed := Pushes(c, all, e);
    assert EntryFits(owner, tree, (rest + [e])[|rest|]) && (rest + [e])[|rest|].group in known;
    TurnFits(owner, tree, c, all, e);
    QueueIsKnown(c, all, e, e.group);
    forall i | 0 <= i < |rest + pushed|
      ensures EntryFits(owner, tree, (rest + pushed)[i]) && (rest + pushed)[i].group in known
    {
      if i < |rest| {
        assert (rest + pushed)[i] == (rest + [e])[i];
      } else {
        assert (rest + pushed)[i] in pushed;
      }
    }
  }

  lemma DoneMore(owner: Owner, more: Owner, tree: seq<Mount>, top: Path, at: Path, all: seq<Seat>,
                 drops: seq<Drop>, next: seq<Drop>, copies: seq<Seat>, here: seq<Seat>)
    requires Extends(more, owner)
    requires Done(owner, tree, top, at, all, drops, copies) && Done(owner, tree, top, at, all, next, here)
    ensures Done(more, tree, top, at, all, drops + next, copies + here)
  {
    AllCopiesConcat(tree, top, at, all, drops, next);
    forall d | d in drops + next ensures DropFits(more, tree, d) {
      assert DropFits(owner, tree, d);
    }
  }

  lemma LastApart(queue: seq<Entry>)
    requires queue != []
    ensures queue == queue[..|queue| - 1] + [queue[|queue| - 1]]
  {
  }

  /** The worklist under way: what is seen, what is placed, and the groups given out. */
  ghost predicate Running(c: Source, all: seq<Seat>, start: nat, peers: seq<nat>, seen: set<nat>, queue: seq<Entry>,
                          drops: seq<Drop>, levels: Levels, lo: nat, hi: nat)
  {
    && Exploring(SeatsOn(all, c.fs), start, seen, queue) && Serving(c, all, seen, drops)
    && levels.Keys == seen && (forall g :: g in levels ==> |levels[g]| == |peers|)
    && Leveling(c.fs, all, start, peers, levels, queue, drops, lo, hi)
  }

  lemma TurnRuns(c: Source, all: seq<Seat>, start: nat, peers: seq<nat>, seen: set<nat>, rest: seq<Entry>, e: Entry,
                 drops: seq<Drop>, levels: Levels, queue: seq<Entry>, lo: nat, hi: nat, last: nat)
    requires Running(c, all, start, peers, seen, rest + [e], drops, levels, lo, hi) && e.group !in seen
    requires |e.peers| == |e.masters| == |peers| && hi <= last
    requires SameGroups(queue, rest + Pushes(c, all, e)) && Assigned(rest + Pushes(c, all, e), queue, |queue|, hi, last)
    ensures Running(c, all, start, peers, seen + {e.group}, queue, drops + Drops(c, all, e),
                    levels[e.group := e.peers], lo, last)
  {
    assert (rest + [e])[|rest|] in rest + [e];
    TurnExplores(c, all, start, seen, rest, e);
    TurnServesMore(c, all, seen, drops, e);
    RenamedQueue(SeatsOn(all, c.fs), start, seen + {e.group}, rest + Pushes(c, all, e), queue);
    LevelingTurn(c, all, start, peers, levels, rest, e, drops, queue, lo, hi, last);
  }

  lemma SkipRuns(c: Source, all: seq<Seat>, start: nat, peers: seq<nat>, seen: set<nat>, rest: seq<Entry>, e: Entry,
                 drops: seq<Drop>, levels: Levels, lo: nat, hi: nat)
    requires Running(c, all, start, peers, seen, rest + [e], drops, levels, lo, hi) && e.group in seen
    ensures Running(c, all, start, peers, seen, rest, drops, levels, lo, hi)
  {
    SkipExplores(SeatsOn(all, c.fs), start, seen, rest, e);
    LevelingSkip(c.fs, all, start, peers, levels, rest, e, drops, lo, hi);
  }

  /** The worklist of `attach`: one copy to exactly the mounts reached from `start`. */
  method Propagate(c: Source, all: seq<Seat>, tree: seq<Mount>, top: Path, at: Path, start: nat, groups: nat,
                   ghost owner: Owner)
    returns (copies: seq<Seat>, last: nat, ghost drops: seq<Drop>, ghost more: Owner, ghost levels: Levels)
    requires Prepared(owner, groups, all, tree, top) && start != 0
    ensures Distinct(drops) && forall i :: 0 <= i < |all| ==> (Served(drops, i) <==> GetsCopy(c, all, start, all[i]))
    ensures Done(more, tree, top, at, all, drops, copies)
    ensures Numbered(more, last) && Extends(more, owner)
    ensures Leveled(c.fs, all, start, tree, levels, drops, groups, last)
  {
    ghost var known := Groups(all, start);
    var peers := seq(|tree|, k requires 0 <= k < |tree| => tree[k].peer);
    var queue := [Entry(start, peers, Zeros(|tree|))];
    var seen := {};
    copies, last, drops, more, levels := [], groups, [], owner, map[];
    assert queue[0] in queue;
    while queue != []
      invariant seen <= known && Pending(more, tree, known, queue)
      invariant Running(c, all, start, peers, seen, queue, drops, levels, groups, last)
      invariant Done(more, tree, top, at, all, drops, copies)
      invariant Numbered(more, last) && Extends(more, owner)
      decreases known - seen, |queue|
    {
      var e, rest := queue[|queue| - 1], queue[..|queue| - 1];
      LastApart(queue);
      if e.group in seen {
        SkipRuns(c, all, start, peers, seen, rest, e, drops, levels, groups, last);
        queue := rest;
      } else {
        assert EntryFits(more, tree, queue[|queue| - 1]);
        ghost var hi := last;
        queue, copies, last, more := Turn(c, all, tree, top, at, rest, e, copies, last, known, drops, more);
        TurnRuns(c, all, start, peers, seen, rest, e, drops, levels, queue, groups, hi, last);
        seen, drops, levels := seen + {e.group}, drops + Drops(c, all, e), levels[e.group := e.peers];
      }
    }
    AllServed(c, all, start, seen, drops);
    AllLeveled(c.fs, all, start, tree, peers, levels, drops, groups, last);
  }

  lemma AllServed(c: Source, all: seq<Seat>, start: nat, seen: set<nat>, drops: seq<Drop>)
    requires Exploring(SeatsOn(all, c.fs), start, seen, []) && Serving(c, all, seen, drops)
    ensures forall i :: 0 <= i < |all| ==> (Served(drops, i) <==> GetsCopy(c, all, start, all[i]))
  {
    forall i | 0 <= i < |all| ensures Served(drops, i) <==> GetsCopy(c, all, start, all[i]) {
      ExploredIsReached(SeatsOn(all, c.fs), start, seen, Home(all[i].mount));
    }
  }

  // `receivers`.

  /** Everything found is reached, and everything one step further is found or to come. */
  ghost predicate Searching(seats: set<Seat>, start: nat, seen: set<nat>, todo: seq<nat>) {
    && 0 !in seen && 0 !in todo
    && (forall g :: g in seen || g in todo ==> Reached(seats, start, g))
    && (start in seen || start in todo)
    && (forall s :: s in seats && s.mount.master in seen && s.mount.peer != 0 ==>
          s.mount.peer in seen || s.mount.peer in todo)
  }

  predicate Touches(s: Seat, groups: set<nat>) {
    s.mount.peer in groups || s.mount.master in groups
  }

  /** One turn: the mounts of group `g` and its slaves, and the groups of its shared slaves. */
  method Gather(all: seq<Seat>, g: nat) returns (out: seq<Seat>, next: seq<nat>)
    ensures forall s :: s in out <==> s in all && Touches(s, {g})
    ensures forall s :: multiset(out)[s] == if Touches(s, {g}) then multiset(all)[s] else 0
    ensures forall p :: p in next <==>
              exists s :: s in all && s.mount.master == g && s.mount.peer != 0 && s.mount.peer == p
  {
    out, next := [], [];
    for i := 0 to |all|
      invariant forall s :: s in out <==> s in all[..i] && Touches(s, {g})
      invariant forall s :: multiset(out)[s] == if Touches(s, {g}) then multiset(all[..i])[s] else 0
      invariant forall p :: p in next <==>
        exists s :: s in all[..i] && s.mount.master == g && s.mount.peer != 0 && s.mount.peer == p
    {
      var s := all[i];
      assert all[..i + 1] == all[..i] + [s];
      if s.mount.peer == g || s.mount.master == g {
        out := out + [s];
        if s.mount.master == g && s.mount.peer != 0 { next := next + [s.mount.peer]; }
      }
    }
    assert all[..|all|] == all;
  }

  lemma GatherSearches(all: seq<Seat>, start: nat, seen: set<nat>, rest: seq<nat>, g: nat, next: seq<nat>)
    requires Searching(Seats(all), start, seen, rest + [g])
    requires forall p :: p in next <==>
               exists s :: s in all && s.mount.master == g && s.mount.peer != 0 && s.mount.peer == p
    ensures Searching(Seats(all), start, seen + {g}, rest + next)
  {
    var seats := Seats(all);
    assert g in rest + [g];
    forall p | p in next ensures Reached(seats, start, p) {
      var s :| s in all && s.mount.master == g && s.mount.peer != 0 && s.mount.peer == p;
      assert s in seats;
    }
    forall s | s in seats && s.mount.master in seen + {g} && s.mount.peer != 0
      ensures s.mount.peer in seen + {g} || s.mount.peer in rest + next
    {
      if s.mount.master in seen { assert s.mount.peer in seen || s.mount.peer in rest + [g]; }
    }
    assert forall p :: p in rest ==> p in rest + [g];
  }

  lemma SkipSearches(seats: set<Seat>, start: nat, seen: set<nat>, rest: seq<nat>, g: nat)
    requires Searching(seats, start, seen, rest + [g]) && g in seen
    ensures Searching(seats, start, seen, rest)
  {
    assert forall p :: p in rest + [g] <==> p in rest || p == g;
  }

  /** Whether what happens under the group `start` happens under this mount. */
  ghost predicate IsReceiver(all: seq<Seat>, start: nat, s: Seat) {
    (s.mount.peer != 0 && Reached(Seats(all), start, s.mount.peer))
    || (s.mount.master != 0 && Reached(Seats(all), start, s.mount.master))
  }

  /** The turns in which a mount is found: its group's, and its master's if that is another. */
  function TurnsIn(s: Seat, groups: set<nat>): nat {
    (if s.mount.peer in groups then 1 else 0)
    + if s.mount.master in groups && s.mount.master != s.mount.peer then 1 else 0
  }

  ghost function Turns(all: seq<Seat>, start: nat, s: Seat): nat {
    var m := s.mount;
    (if m.peer != 0 && Reached(Seats(all), start, m.peer) then 1 else 0)
    + if m.master != 0 && Reached(Seats(all), start, m.master) && m.master != m.peer then 1 else 0
  }

  function Times(k: nat, n: nat): nat {
    if k == 0 then 0 else if k == 1 then n else n + n
  }

  /** Each mount is listed once for each turn it is found in. */
  ghost predicate FoundIn(all: seq<Seat>, start: nat, out: seq<Seat>) {
    forall s :: multiset(out)[s] == Times(Turns(all, start, s), multiset(all)[s])
  }

  /** The worklist of `receivers`. */
  method Receivers(all: seq<Seat>, start: nat) returns (out: seq<Seat>)
    requires start != 0
    ensures forall s :: s in out <==> s in all && IsReceiver(all, start, s)
    ensures FoundIn(all, start, out)
  {
    ghost var known, seats := Groups(all, start), Seats(all);
    var todo, seen := [start], {};
    out := [];
    while todo != []
      invariant seen <= known && forall g :: g in todo ==> g in known
      invariant Searching(seats, start, seen, todo)
      invariant forall s :: s in out <==> s in all && Touches(s, seen)
      invariant forall s :: multiset(out)[s] == Times(TurnsIn(s, seen), multiset(all)[s])
      decreases known - seen, |todo|
    {
      var g, rest := todo[|todo| - 1], todo[..|todo| - 1];
      assert todo == rest + [g] && g in todo;
      if g in seen {
        SkipSearches(seats, start, seen, rest, g);
        todo := rest;
      } else {
        var here, next := Gather(all, g);
        GatherSearches(all, start, seen, rest, g, next);
        FoundMore(all, seen, g, out, here);
        out, todo, seen := out + here, rest + next, seen + {g};
      }
    }
    assert Closed(seats, seen);
    forall s ensures TurnsIn(s, seen) == Turns(all, start, s) {
    }
  }

  lemma FoundMore(all: seq<Seat>, seen: set<nat>, g: nat, out: seq<Seat>, here: seq<Seat>)
    requires g !in seen && forall s :: multiset(out)[s] == Times(TurnsIn(s, seen), multiset(all)[s])
    requires forall s :: multiset(here)[s] == if Touches(s, {g}) then multiset(all)[s] else 0
    ensures forall s :: multiset(out + here)[s] == Times(TurnsIn(s, seen + {g}), multiset(all)[s])
  {
    forall s ensures multiset(out + here)[s] == Times(TurnsIn(s, seen + {g}), multiset(all)[s]) {
      assert multiset(out + here)[s] == multiset(out)[s] + multiset(here)[s];
      assert TurnsIn(s, seen + {g}) == TurnsIn(s, seen) + if Touches(s, {g}) then 1 else 0;
    }
  }

  // Both worklists compared.

  /** Among groups on one filesystem nothing leads to group 0. */
  lemma ReceiverIsOnFs(owner: Owner, all: seq<Seat>, fs: nat, start: nat, s: Seat)
    requires OneFs(owner, all) && 0 !in owner && start in SameFs(owner, fs) && s in all && IsReceiver(all, start, s)
    ensures s.mount.fs == fs && Reached(SeatsOn(all, fs), start, Home(s.mount))
  {
    assert Fits(owner, s.mount);
    ReachedOnOneFs(owner, all, fs, start, s.mount.peer);
    ReachedOnOneFs(owner, all, fs, start, s.mount.master);
    if s.mount.peer != 0 && Reached(Seats(all), start, s.mount.master) {
      assert s in Seats(all);
    }
  }

  /**
   The mounts that get a copy are the receivers, less the shared ones at the place the
   tree was attached to.
   */
  lemma ReceiversGetCopies(owner: Owner, c: Source, all: seq<Seat>, start: nat, s: Seat)
    requires OneFs(owner, all) && 0 !in owner && start in SameFs(owner, c.fs) && s in all
    ensures GetsCopy(c, all, start, s) <==> IsReceiver(all, start, s) && (s.mount.peer != 0 ==> !IsSource(c, s))
  {
    ReachedOnOneFs(owner, all, c.fs, start, Home(s.mount));
    if IsReceiver(all, start, s) { ReceiverIsOnFs(owner, all, c.fs, start, s); }
  }

  /** A mount at the parent's own place gets a copy exactly when it is an unshared slave. */
  lemma SourceSlaveGetsCopy(owner: Owner, c: Source, all: seq<Seat>, start: nat, s: Seat)
    requires OneFs(owner, all) && 0 !in owner && start in SameFs(owner, c.fs) && s in all && IsSource(c, s)
    ensures GetsCopy(c, all, start, s) <==> IsReceiver(all, start, s) && s.mount.peer == 0
  {
    ReceiversGetCopies(owner, c, all, start, s);
  }
}
