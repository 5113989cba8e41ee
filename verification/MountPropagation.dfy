/**
 Propagation of a mount to the peers of its parent and, through them, to their slaves
 (`attach` and `receivers` of `src/fs/mount.rs`): who gets a copy, that each gets exactly
 one, and that no peer group ever spans two filesystems.
 */
module MountPropagation {
  import opened Paths
  import opened Mounts

  /** A mount of some namespace. */
  datatype Seat = Seat(ns: nat, mount: Mount)

  /** Where something is being attached: the parent's filesystem, and where the parent itself is. */
  datatype Source = Source(fs: nat, ns: nat, point: Path)

  predicate IsSource(c: Source, s: Seat) {
    s.ns == c.ns && s.mount.point == c.point
  }

  // Which groups are reached.

  /** `groups` contains the peer group of every shared slave of its members. */
  ghost predicate Closed(seats: set<Seat>, groups: set<nat>) {
    forall s :: s in seats && s.mount.master in groups && s.mount.peer != 0 ==> s.mount.peer in groups
  }

  /** In every such set that contains `start`. */
  ghost predicate Reached(seats: set<Seat>, start: nat, g: nat) {
    forall groups {:trigger Closed(seats, groups)} :: Closed(seats, groups) && start in groups ==> g in groups
  }

  function Seats(all: seq<Seat>): set<Seat> {
    set s | s in all
  }

  function SeatsOn(all: seq<Seat>, fs: nat): set<Seat> {
    set s | s in all && s.mount.fs == fs
  }

  // Who gets a copy.

  /** The group whose turn places a copy under `m`. */
  function Home(m: Mount): nat {
    if m.peer != 0 then m.peer else m.master
  }

  /** A peer in its group's turn, or a slave that is not shared in its master's. */
  predicate Takes(c: Source, s: Seat, g: nat) {
    s.mount.fs == c.fs && g != 0 && Home(s.mount) == g && (s.mount.peer != 0 ==> !IsSource(c, s))
  }

  // One turn of the worklist.

  datatype Entry = Entry(group: nat, peers: seq<nat>, masters: seq<nat>)

  /** A copy of the tree under seat number `seat`, with these groups. */
  datatype Drop = Drop(seat: nat, peers: seq<nat>, masters: seq<nat>)

  function Zeros(n: nat): seq<nat> {
    seq(n, _ => 0)
  }

  predicate AsPeer(c: Source, s: Seat, g: nat) {
    s.mount.peer == g && !IsSource(c, s) && s.mount.fs == c.fs
  }

  predicate AsSlave(c: Source, s: Seat, g: nat) {
    !AsPeer(c, s, g) && s.mount.master == g && s.mount.fs == c.fs
  }

  function DropsAt(c: Source, s: Seat, i: nat, e: Entry): seq<Drop> {
    if AsPeer(c, s, e.group) then [Drop(i, e.peers, e.masters)]
    else if AsSlave(c, s, e.group) && s.mount.peer == 0 then [Drop(i, Zeros(|e.peers|), e.peers)]
    else []
  }

  function PushesAt(c: Source, s: Seat, e: Entry): seq<Entry> {
    if AsSlave(c, s, e.group) && s.mount.peer != 0 then [Entry(s.mount.peer, Zeros(|e.peers|), e.peers)]
    else []
  }

  function Drops(c: Source, all: seq<Seat>, e: Entry): seq<Drop> {
    if all == [] then []
    else
      var n := |all| - 1;
      Drops(c, all[..n], e) + DropsAt(c, all[n], n, e)
  }

  function Pushes(c: Source, all: seq<Seat>, e: Entry): seq<Entry> {
    if all == [] then []
    else
      var n := |all| - 1;
      Pushes(c, all[..n], e) + PushesAt(c, all[n], e)
  }

  ghost predicate Distinct(drops: seq<Drop>) {
    forall i, j :: 0 <= i < j < |drops| ==> drops[i].seat != drops[j].seat
  }

  ghost predicate Served(drops: seq<Drop>, seat: nat) {
    exists d :: d in drops && d.seat == seat
  }

  lemma DropTakes(c: Source, s: Seat, i: nat, e: Entry)
    requires e.group != 0
    ensures DropsAt(c, s, i, e) != [] <==> Takes(c, s, e.group)
  {
  }

  /** A turn gives one copy to exactly the seats whose turn it is. */
  lemma {:induction false} TurnServes(c: Source, all: seq<Seat>, e: Entry)
    requires e.group != 0
    ensures Distinct(Drops(c, all, e))
    ensures forall d :: d in Drops(c, all, e) ==> d.seat < |all|
    ensures forall i :: 0 <= i < |all| ==> (Served(Drops(c, all, e), i) <==> Takes(c, all[i], e.group))
    decreases |all|
  {
    if all != [] {
      var n := |all| - 1;
      var rest, last := Drops(c, all[..n], e), DropsAt(c, all[n], n, e);
      TurnServes(c, all[..n], e);
      DropTakes(c, all[n], n, e);
      forall i | 0 <= i < |all| ensures Served(rest + last, i) <==> Takes(c, all[i], e.group) {
        ServedConcat(rest, last, i);
        if i < n { assert all[..n][i] == all[i]; }
        if i == n && last != [] { assert last[0] in last; }
      }
    }
  }

  lemma ServedConcat(a: seq<Drop>, b: seq<Drop>, seat: nat)
    ensures Served(a + b, seat) <==> Served(a, seat) || Served(b, seat)
  {
    if Served(a + b, seat) {
      var d :| d in a + b && d.seat == seat;
      assert d in a || d in b;
    }
    if Served(a, seat) {
      var d :| d in a && d.seat == seat;
      assert d in a + b;
    }
    if Served(b, seat) {
      var d :| d in b && d.seat == seat;
      assert d in a + b;
    }
  }

  lemma {:induction false} PushedFrom(c: Source, all: seq<Seat>, e: Entry, p: Entry)
    requires p in Pushes(c, all, e)
    ensures exists s :: s in all && PushesAt(c, s, e) == [p]
    decreases |all|
  {
    var n := |all| - 1;
    if p in Pushes(c, all[..n], e) {
      PushedFrom(c, all[..n], e, p);
    } else {
      assert all[n] in all && PushesAt(c, all[n], e) == [p];
    }
  }

  lemma {:induction false} SlavesArePushed(c: Source, all: seq<Seat>, e: Entry, s: Seat)
    requires s in all && s.mount.fs == c.fs && s.mount.master == e.group && s.mount.peer != 0
    ensures s.mount.peer == e.group || exists p :: p in Pushes(c, all, e) && p.group == s.mount.peer
    decreases |all|
  {
    var n := |all| - 1;
    if s in all[..n] {
      SlavesArePushed(c, all[..n], e, s);
      if s.mount.peer != e.group {
        var p :| p in Pushes(c, all[..n], e) && p.group == s.mount.peer;
        assert p in Pushes(c, all, e);
      }
    } else if s.mount.peer != e.group {
      var p := Entry(s.mount.peer, Zeros(|e.peers|), e.peers);
      assert p in Pushes(c, all, e);
    }
  }

  // The whole worklist.

  ghost predicate Queued(queue: seq<Entry>, g: nat) {
    exists e :: e in queue && e.group == g
  }

  /** Everything found is reached, and everything one step further is found or queued. */
  ghost predicate Exploring(seats: set<Seat>, start: nat, seen: set<nat>, queue: seq<Entry>) {
    && 0 !in seen && (forall g :: g in seen ==> Reached(seats, start, g))
    && (forall e :: e in queue ==> e.group != 0 && Reached(seats, start, e.group))
    && (start in seen || Queued(queue, start))
    && (forall s :: s in seats && s.mount.master in seen && s.mount.peer != 0 ==>
          s.mount.peer in seen || Queued(queue, s.mount.peer))
  }

  /** The seats of the groups seen so far have their one copy. */
  ghost predicate Serving(c: Source, all: seq<Seat>, seen: set<nat>, drops: seq<Drop>) {
    && Distinct(drops) && (forall d :: d in drops ==> d.seat < |all|)
    && forall i :: 0 <= i < |all| ==>
         (Served(drops, i) <==> Takes(c, all[i], Home(all[i].mount)) && Home(all[i].mount) in seen)
  }

  lemma SkipExplores(seats: set<Seat>, start: nat, seen: set<nat>, rest: seq<Entry>, e: Entry)
    requires Exploring(seats, start, seen, rest + [e]) && e.group in seen
    ensures Exploring(seats, start, seen, rest)
  {
    forall g | Queued(rest + [e], g) ensures g in seen || Queued(rest, g) {
      var x :| x in rest + [e] && x.group == g;
      assert x in rest || x == e;
    }
  }

  lemma StillQueued(rest: seq<Entry>, e: Entry, more: seq<Entry>, g: nat)
    requires Queued(rest + [e], g) && g != e.group
    ensures Queued(rest + more, g)
  {
    var x :| x in rest + [e] && x.group == g;
    assert x in rest + more;
  }

  lemma TurnExplores(c: Source, all: seq<Seat>, start: nat, seen: set<nat>, rest: seq<Entry>, e: Entry)
    requires Exploring(SeatsOn(all, c.fs), start, seen, rest + [e])
    ensures Exploring(SeatsOn(all, c.fs), start, seen + {e.group}, rest + Pushes(c, all, e))
  {
    var seats, more := SeatsOn(all, c.fs), Pushes(c, all, e);
    assert e in rest + [e];
    forall x | x in rest + more ensures x.group != 0 && Reached(seats, start, x.group) {
      if x in rest {
        assert x in rest + [e];
      } else {
        PushedFrom(c, all, e, x);
        var s :| s in all && PushesAt(c, s, e) == [x];
        assert s in seats;
      }
    }
    if start !in seen && start != e.group { StillQueued(rest, e, more, start); }
    forall s | s in seats && s.mount.master in seen + {e.group} && s.mount.peer != 0
      ensures s.mount.peer in seen + {e.group} || Queued(rest + more, s.mount.peer)
    {
      if s.mount.peer !in seen && s.mount.peer != e.group {
        if s.mount.master in seen {
          StillQueued(rest, e, more, s.mount.peer);
        } else {
          SlavesArePushed(c, all, e, s);
          var p :| p in more && p.group == s.mount.peer;
          assert p in rest + more;
        }
      }
    }
  }

  lemma TurnServesMore(c: Source, all: seq<Seat>, seen: set<nat>, drops: seq<Drop>, e: Entry)
    requires Serving(c, all, seen, drops) && e.group != 0 && e.group !in seen
    ensures Serving(c, all, seen + {e.group}, drops + Drops(c, all, e))
  {
    var more := Drops(c, all, e);
    TurnServes(c, all, e);
    forall i | 0 <= i < |all|
      ensures Served(drops + more, i) <==>
        Takes(c, all[i], Home(all[i].mount)) && Home(all[i].mount) in seen + {e.group}
    {
      ServedConcat(drops, more, i);
    }
    forall a, b | a in drops && b in more ensures a.seat != b.seat {
      assert Served(drops, a.seat) && Served(more, b.seat);
    }
  }

  /** With the queue empty, the groups seen are those reached. */
  lemma ExploredIsReached(seats: set<Seat>, start: nat, seen: set<nat>, g: nat)
    requires Exploring(seats, start, seen, [])
    ensures g in seen <==> Reached(seats, start, g)
  {
    assert Closed(seats, seen);
  }

  /** Whether attaching under the group `start` gives the seat a copy of the tree. */
  ghost predicate GetsCopy(c: Source, all: seq<Seat>, start: nat, s: Seat) {
    Takes(c, s, Home(s.mount)) && Reached(SeatsOn(all, c.fs), start, Home(s.mount))
  }
}
