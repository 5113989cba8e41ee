/**
 Which peer groups and masters the copies of a propagated tree get: one level of groups
 for each peer group reached, each the slave of the level it was reached from.
 */
module MountLevels {
  import opened Mounts
  import opened MountPropagation
  import opened MountGroups

  /** For a peer group reached, the groups its members' copies of each mount of the tree get. */
  type Levels = map<nat, seq<nat>>

  /** `s` is a member of the entry's group, and slave of the group whose level its masters are. */
  predicate IsOrigin(s: Seat, fs: nat, levels: Levels, group: nat, masters: seq<nat>) {
    && s.mount.fs == fs && s.mount.peer == group
    && s.mount.master in levels && masters == levels[s.mount.master]
  }

  ghost predicate HasOrigin(fs: nat, all: seq<Seat>, levels: Levels, group: nat, masters: seq<nat>) {
    exists s :: s in all && IsOrigin(s, fs, levels, group, masters)
  }

  /**
   The groups of the copies under one mount. Not shared: no peer group, and slaves of its
   master's level. Shared: its group's level, and slaves of the level that one was reached
   from; under the parent's own group of none.
   */
  ghost predicate DropGrouped(fs: nat, all: seq<Seat>, start: nat, levels: Levels, d: Drop) {
    && d.seat < |all|
    && var m := all[d.seat].mount;
       if m.peer == 0 then
         AllMissing(d.peers) && m.master in levels && d.masters == levels[m.master]
       else
         && m.peer in levels && d.peers == levels[m.peer]
         && if m.peer == start then AllMissing(d.masters) else HasOrigin(fs, all, levels, m.peer, d.masters)
  }

  ghost predicate AllGrouped(fs: nat, all: seq<Seat>, start: nat, levels: Levels, drops: seq<Drop>) {
    forall d :: d in drops ==> DropGrouped(fs, all, start, levels, d)
  }

  /** Levels but the first are numbers given out since `lo`, each for one mount of one level. */
  ghost predicate LevelsApart(levels: Levels, start: nat, lo: nat, hi: nat) {
    && (forall g :: g in levels && g != start ==> NewNumbers(levels[g], lo, hi))
    && (forall g, h :: g in levels && h in levels && g != start && h != start && g != h ==>
          Disjoint(levels[g], levels[h]))
  }

  ghost predicate QueueApart(levels: Levels, start: nat, queue: seq<Entry>, lo: nat, hi: nat) {
    && (forall i :: 0 <= i < |queue| ==> NewNumbers(queue[i].peers, lo, hi))
    && (forall i, j :: 0 <= i < j < |queue| ==> Disjoint(queue[i].peers, queue[j].peers))
    && (forall g, i :: g in levels && g != start && 0 <= i < |queue| ==> Disjoint(levels[g], queue[i].peers))
  }

  ghost predicate QueueHasOrigins(fs: nat, all: seq<Seat>, levels: Levels, queue: seq<Entry>) {
    forall i :: 0 <= i < |queue| ==> HasOrigin(fs, all, levels, queue[i].group, queue[i].masters)
  }

  /** The worklist so far. */
  ghost predicate Leveling(
    fs: nat, all: seq<Seat>, start: nat, first: seq<nat>, levels: Levels, queue: seq<Entry>, drops: seq<Drop>,
    lo: nat, hi: nat)
  {
    && lo <= hi && AllGrouped(fs, all, start, levels, drops)
    && if levels == map[] then queue == [Entry(start, first, Zeros(|first|))]
       else
         && start in levels && levels[start] == first
         && LevelsApart(levels, start, lo, hi) && QueueApart(levels, start, queue, lo, hi)
         && QueueHasOrigins(fs, all, levels, queue)
  }

  /** The worklist done: a level for each group reached, that of the start being the tree's own. */
  ghost predicate Leveled(fs: nat, all: seq<Seat>, start: nat, tree: seq<Mount>, levels: Levels, drops: seq<Drop>,
                          lo: nat, hi: nat)
  {
    && (forall g :: g in levels <==> Reached(SeatsOn(all, fs), start, g)) && start in levels
    && (forall g :: g in levels ==> |levels[g]| == |tree|)
    && (forall k :: 0 <= k < |tree| ==> levels[start][k] == tree[k].peer)
    && AllGrouped(fs, all, start, levels, drops) && LevelsApart(levels, start, lo, hi)
  }

  ghost predicate UpTo(all: seq<Seat>, tree: seq<Mount>, lo: nat) {
    && (forall s :: s in all ==> s.mount.peer <= lo && s.mount.master <= lo)
    && (forall m :: m in tree ==> m.peer <= lo && m.master <= lo)
  }

  /** Mounts of the tree that had no group have new ones, one each. */
  ghost predicate NewPeers(tree: seq<Mount>, grown: seq<Mount>, lo: nat, hi: nat)
    requires |tree| == |grown|
  {
    && (forall k :: 0 <= k < |tree| && tree[k].peer == 0 ==> lo < grown[k].peer <= hi)
    && (forall j, k :: 0 <= j < k < |tree| && tree[j].peer == 0 && tree[k].peer == 0 ==>
          grown[j].peer < grown[k].peer)
  }

  lemma NewPeersMore(tree: seq<Mount>, was: seq<Mount>, grown: seq<Mount>, k: nat, lo: nat, mid: nat, hi: nat)
    requires |tree| == |was| == |grown| && k < |tree| && grown == was[k := grown[k]]
    requires lo <= mid <= hi && NewPeers(tree[..k], was[..k], lo, mid)
    requires tree[k].peer == 0 ==> mid < grown[k].peer <= hi
    ensures NewPeers(tree[..k + 1], grown[..k + 1], lo, hi)
  {
    assert forall j :: 0 <= j < k ==> tree[..k][j] == tree[..k + 1][j] && was[..k][j] == grown[..k + 1][j];
  }

  /** The groups given out: first those of the tree, then those of the levels, none in use before. */
  ghost predicate GroupedBy(fs: nat, all: seq<Seat>, start: nat, tree: seq<Mount>, grown: seq<Mount>, levels: Levels,
                            drops: seq<Drop>, lo: nat, mid: nat, hi: nat)
  {
    && lo <= mid && |tree| == |grown| && UpTo(all, tree, lo) && NewPeers(tree, grown, lo, mid)
    && Leveled(fs, all, start, grown, levels, drops, mid, hi)
  }

  ghost predicate Grouped(fs: nat, all: seq<Seat>, start: nat, tree: seq<Mount>, grown: seq<Mount>, drops: seq<Drop>) {
    exists levels, lo: nat, mid: nat, hi: nat :: GroupedBy(fs, all, start, tree, grown, levels, drops, lo, mid, hi)
  }

  // One turn.

  lemma {:induction false} DropIsAt(c: Source, all: seq<Seat>, e: Entry, d: Drop)
    requires d in Drops(c, all, e)
    ensures d.seat < |all| && DropsAt(c, all[d.seat], d.seat, e) == [d]
    decreases |all|
  {
    var n := |all| - 1;
    if d in Drops(c, all[..n], e) { DropIsAt(c, all[..n], e, d); }
  }

  lemma OriginStays(fs: nat, all: seq<Seat>, levels: Levels, more: Levels, group: nat, masters: seq<nat>)
    requires HasOrigin(fs, all, levels, group, masters) && forall g :: g in levels ==> g in more && more[g] == levels[g]
    ensures HasOrigin(fs, all, more, group, masters)
  {
    var s :| s in all && IsOrigin(s, fs, levels, group, masters);
    assert IsOrigin(s, fs, more, group, masters);
  }

  lemma GroupedStays(fs: nat, all: seq<Seat>, start: nat, levels: Levels, more: Levels, drops: seq<Drop>)
    requires AllGrouped(fs, all, start, levels, drops) && forall g :: g in levels ==> g in more && more[g] == levels[g]
    ensures AllGrouped(fs, all, start, more, drops)
  {
    forall d | d in drops ensures DropGrouped(fs, all, start, more, d) {
      assert DropGrouped(fs, all, start, levels, d);
      var m := all[d.seat].mount;
      if m.peer != 0 && m.peer != start { OriginStays(fs, all, levels, more, m.peer, d.masters); }
    }
  }

  /** What is known of the entry whose turn it is. */
  ghost predicate TurnOf(fs: nat, all: seq<Seat>, start: nat, levels: Levels, e: Entry) {
    && e.group != 0 && |e.peers| == |e.masters| && e.group in levels && levels[e.group] == e.peers
    && if e.group == start then AllMissing(e.masters) else HasOrigin(fs, all, levels, e.group, e.masters)
  }

  lemma TurnGroups(c: Source, all: seq<Seat>, start: nat, levels: Levels, e: Entry)
    requires TurnOf(c.fs, all, start, levels, e)
    ensures AllGrouped(c.fs, all, start, levels, Drops(c, all, e))
  {
    forall d | d in Drops(c, all, e) ensures DropGrouped(c.fs, all, start, levels, d) {
      DropIsAt(c, all, e, d);
    }
  }

  lemma PushesHaveOrigins(c: Source, all: seq<Seat>, levels: Levels, e: Entry)
    requires e.group in levels && levels[e.group] == e.peers
    ensures QueueHasOrigins(c.fs, all, levels, Pushes(c, all, e))
    ensures forall p :: p in Pushes(c, all, e) ==> AllMissing(p.peers)
  {
    var pushed := Pushes(c, all, e);
    forall p | p in pushed ensures HasOrigin(c.fs, all, levels, p.group, p.masters) && AllMissing(p.peers) {
      PushedFrom(c, all, e, p);
      var s :| s in all && PushesAt(c, s, e) == [p];
      assert IsOrigin(s, c.fs, levels, p.group, p.masters);
    }
    forall i | 0 <= i < |pushed| ensures HasOrigin(c.fs, all, levels, pushed[i].group, pushed[i].masters) {
      assert pushed[i] in pushed;
    }
  }

  lemma OriginsAfter(fs: nat, all: seq<Seat>, levels: Levels, more: Levels, rest: seq<Entry>, pushed: seq<Entry>,
                     queue: seq<Entry>)
    requires QueueHasOrigins(fs, all, levels, rest) && QueueHasOrigins(fs, all, more, pushed)
    requires SameGroups(queue, rest + pushed) && forall g :: g in levels ==> g in more && more[g] == levels[g]
    ensures QueueHasOrigins(fs, all, more, queue)
  {
    forall i | 0 <= i < |queue| ensures HasOrigin(fs, all, more, queue[i].group, queue[i].masters) {
      if i < |rest| {
        OriginStays(fs, all, levels, more, rest[i].group, rest[i].masters);
        assert (rest + pushed)[i] == rest[i];
      } else {
        assert (rest + pushed)[i] == pushed[i - |rest|];
      }
    }
  }

  /** The entries of the queue after the turn: those left as they were, those pushed with new numbers. */
  lemma QueueAfter(rest: seq<Entry>, pushed: seq<Entry>, queue: seq<Entry>, lo: nat, hi: nat, last: nat)
    requires |queue| == |rest + pushed| && Assigned(rest + pushed, queue, |queue|, hi, last) && lo <= hi <= last
    requires forall i :: 0 <= i < |rest| ==> NewNumbers(rest[i].peers, lo, hi)
    requires forall p :: p in pushed ==> AllMissing(p.peers)
    ensures forall i :: 0 <= i < |rest| ==> queue[i] == rest[i]
    ensures forall i :: |rest| <= i < |queue| ==> NewNumbers(queue[i].peers, hi, last)
    ensures forall i, j :: |rest| <= i < j < |queue| ==> Disjoint(queue[i].peers, queue[j].peers)
  {
    var all := rest + pushed;
    forall i | 0 <= i < |rest| ensures all[i] == rest[i] && NoneMissing(all[i].peers) {
      assert NewNumbers(rest[i].peers, lo, hi);
    }
    forall i | |rest| <= i < |all| ensures AllMissing(all[i].peers) {
      assert all[i] == pushed[i - |rest|] && all[i] in pushed;
    }
  }

  lemma NewerDisjoint(a: seq<nat>, b: seq<nat>, lo: nat, hi: nat, last: nat)
    requires NewNumbers(a, lo, hi) && NewNumbers(b, hi, last)
    ensures Disjoint(a, b)
  {
  }

  lemma NewNumbersMore(gs: seq<nat>, lo: nat, hi: nat, lo': nat, hi': nat)
    requires NewNumbers(gs, lo, hi) && lo' <= lo && hi <= hi'
    ensures NewNumbers(gs, lo', hi')
  {
  }

  lemma QueueApartAfter(
    levels: Levels, start: nat, rest: seq<Entry>, pushed: seq<Entry>, queue: seq<Entry>, lo: nat, hi: nat, last: nat)
    requires QueueApart(levels, start, rest, lo, hi) && LevelsApart(levels, start, lo, hi)
    requires |queue| == |rest + pushed| && Assigned(rest + pushed, queue, |queue|, hi, last) && lo <= hi <= last
    requires forall p :: p in pushed ==> AllMissing(p.peers)
    ensures QueueApart(levels, start, queue, lo, last)
  {
    QueueAfter(rest, pushed, queue, lo, hi, last);
    forall i | 0 <= i < |queue| ensures NewNumbers(queue[i].peers, lo, last) {
      if i < |rest| {
        NewNumbersMore(rest[i].peers, lo, hi, lo, last);
      } else {
        NewNumbersMore(queue[i].peers, hi, last, lo, last);
      }
    }
    forall i, j | 0 <= i < j < |queue| ensures Disjoint(queue[i].peers, queue[j].peers) {
      if i < |rest| <= j { NewerDisjoint(rest[i].peers, queue[j].peers, lo, hi, last); }
      if j < |rest| { assert Disjoint(rest[i].peers, rest[j].peers); }
    }
    forall g, i | g in levels && g != start && 0 <= i < |queue| ensures Disjoint(levels[g], queue[i].peers) {
      if i < |rest| {
        assert Disjoint(levels[g], rest[i].peers);
      } else {
        NewerDisjoint(levels[g], queue[i].peers, lo, hi, last);
      }
    }
  }

  /** The entry at the head becomes the level of its group. */
  lemma HeadBecomesLevel(levels: Levels, start: nat, rest: seq<Entry>, e: Entry, lo: nat, hi: nat)
    requires LevelsApart(levels, start, lo, hi) && QueueApart(levels, start, rest + [e], lo, hi)
    requires e.group !in levels && e.group != start
    ensures var more := levels[e.group := e.peers];
            LevelsApart(more, start, lo, hi) && QueueApart(more, start, rest, lo, hi)
  {
    var more, all := levels[e.group := e.peers], rest + [e];
    assert all[|rest|] == e;
    forall i | 0 <= i < |rest| ensures all[i] == rest[i] && Disjoint(e.peers, rest[i].peers) {
      assert Disjoint(all[i].peers, all[|rest|].peers);
    }
    forall i, j | 0 <= i < j < |rest| ensures Disjoint(rest[i].peers, rest[j].peers) {
      assert Disjoint(all[i].peers, all[j].peers);
    }
    forall g | g in levels && g != start ensures Disjoint(levels[g], e.peers) && Disjoint(e.peers, levels[g]) {
      assert Disjoint(levels[g], all[|rest|].peers);
    }
    forall g, i | g in more && g != start && 0 <= i < |rest| ensures Disjoint(more[g], rest[i].peers) {
      if g != e.group { assert Disjoint(levels[g], all[i].peers); }
    }
  }

  lemma LevelsApartMore(levels: Levels, start: nat, lo: nat, hi: nat, last: nat)
    requires LevelsApart(levels, start, lo, hi) && hi <= last
    ensures LevelsApart(levels, start, lo, last)
  {
    forall g | g in levels && g != start ensures NewNumbers(levels[g], lo, last) {
      NewNumbersMore(levels[g], lo, hi, lo, last);
    }
  }

  /** A turn keeps it all. */
  lemma LevelingTurn(
    c: Source, all: seq<Seat>, start: nat, first: seq<nat>, levels: Levels, rest: seq<Entry>, e: Entry,
    drops: seq<Drop>, queue: seq<Entry>, lo: nat, hi: nat, last: nat)
    requires Leveling(c.fs, all, start, first, levels, rest + [e], drops, lo, hi) && e.group !in levels
    requires e.group != 0 && |e.peers| == |e.masters| && hi <= last
    requires SameGroups(queue, rest + Pushes(c, all, e)) && Assigned(rest + Pushes(c, all, e), queue, |queue|, hi, last)
    ensures Leveling(c.fs, all, start, first, levels[e.group := e.peers], queue, drops + Drops(c, all, e), lo, last)
  {
    var more, pushed := levels[e.group := e.peers], Pushes(c, all, e);
    assert (rest + [e])[|rest|] == e && forall i :: 0 <= i < |rest| ==> (rest + [e])[i] == rest[i];
    if levels == map[] {
      assert rest == [] && e == Entry(start, first, Zeros(|first|));
      assert QueueHasOrigins(c.fs, all, levels, rest);
    } else {
      HeadBecomesLevel(levels, start, rest, e, lo, hi);
      OriginStays(c.fs, all, levels, more, e.group, e.masters);
    }
    PushesHaveOrigins(c, all, more, e);
    OriginsAfter(c.fs, all, levels, more, rest, pushed, queue);
    TurnGroups(c, all, start, more, e);
    GroupedStays(c.fs, all, start, levels, more, drops);
    QueueApartAfter(more, start, rest, pushed, queue, lo, hi, last);
    LevelsApartMore(more, start, lo, hi, last);
  }

  lemma LevelingSkip(
    fs: nat, all: seq<Seat>, start: nat, first: seq<nat>, levels: Levels, rest: seq<Entry>, e: Entry,
    drops: seq<Drop>, lo: nat, hi: nat)
    requires Leveling(fs, all, start, first, levels, rest + [e], drops, lo, hi) && levels != map[]
    ensures Leveling(fs, all, start, first, levels, rest, drops, lo, hi)
  {
    var queue := rest + [e];
    forall i | 0 <= i < |rest|
      ensures queue[i] == rest[i] && NewNumbers(rest[i].peers, lo, hi)
              && HasOrigin(fs, all, levels, rest[i].group, rest[i].masters)
    {
      assert NewNumbers(queue[i].peers, lo, hi) && HasOrigin(fs, all, levels, queue[i].group, queue[i].masters);
    }
    forall i, j | 0 <= i < j < |rest| ensures Disjoint(rest[i].peers, rest[j].peers) {
      assert Disjoint(queue[i].peers, queue[j].peers);
    }
    forall g, i | g in levels && g != start && 0 <= i < |rest| ensures Disjoint(levels[g], rest[i].peers) {
      assert Disjoint(levels[g], queue[i].peers);
    }
  }

  /** Nothing left in the queue. */
  lemma AllLeveled(fs: nat, all: seq<Seat>, start: nat, tree: seq<Mount>, first: seq<nat>, levels: Levels,
                   drops: seq<Drop>, lo: nat, hi: nat)
    requires Leveling(fs, all, start, first, levels, [], drops, lo, hi)
    requires Exploring(SeatsOn(all, fs), start, levels.Keys, []) && forall g :: g in levels ==> |levels[g]| == |tree|
    requires |first| == |tree| && forall k :: 0 <= k < |tree| ==> first[k] == tree[k].peer
    ensures Leveled(fs, all, start, tree, levels, drops, lo, hi)
  {
    forall g ensures g in levels <==> Reached(SeatsOn(all, fs), start, g) {
      ExploredIsReached(SeatsOn(all, fs), start, levels.Keys, g);
    }
  }
}
