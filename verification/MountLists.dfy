/**
 The mounts of all namespaces, as lists.
 */
module MountLists {
  import opened Mounts
  import opened MountPropagation

  function SeatList(ns: nat, ms: seq<Mount>): seq<Seat> {
    seq(|ms|, i requires 0 <= i < |ms| => Seat(ns, ms[i]))
  }

  /** The copies that go to namespace `ns`, in order. */
  function For(copies: seq<Seat>, ns: nat): seq<Mount> {
    if copies == [] then []
    else
      var rest, s := For(copies[..|copies| - 1], ns), copies[|copies| - 1];
      if s.ns == ns then rest + [s.mount] else rest
  }

  lemma {:induction false} ForConcat(a: seq<Seat>, b: seq<Seat>, ns: nat)
    ensures For(a + b, ns) == For(a, ns) + For(b, ns)
    decreases |b|
  {
    if b == [] {
      assert a + b == a;
    } else {
      assert (a + b)[..|a + b| - 1] == a + b[..|b| - 1];
      ForConcat(a, b[..|b| - 1], ns);
    }
  }

  lemma {:induction false} ForSeatList(from: nat, ms: seq<Mount>, ns: nat)
    ensures For(SeatList(from, ms), ns) == if from == ns then ms else []
    decreases |ms|
  {
    if ms != [] {
      var n := |ms| - 1;
      assert SeatList(from, ms)[..n] == SeatList(from, ms[..n]);
      ForSeatList(from, ms[..n], ns);
      assert ms == ms[..n] + [ms[n]];
    }
  }

  lemma ForPlus(before: seq<Seat>, from: nat, ms: seq<Mount>, ns: nat)
    ensures For(before + SeatList(from, ms), ns) == if from == ns then For(before, ns) + ms else For(before, ns)
  {
    ForConcat(before, SeatList(from, ms), ns);
    ForSeatList(from, ms, ns);
    assert For(before, ns) + [] == For(before, ns);
  }

  /** Every seat is in its namespace's list. */
  lemma {:induction false} SeatIsListed(all: seq<Seat>, s: Seat)
    requires s in all
    ensures s.mount in For(all, s.ns)
    decreases |all|
  {
    if s != all[|all| - 1] { SeatIsListed(all[..|all| - 1], s); }
  }

  function ListOf(current: nat, mounts: seq<Mount>, parked: map<nat, seq<Mount>>, ns: nat): seq<Mount> {
    if ns == current then mounts else if ns in parked then parked[ns] else []
  }

  /** `all` lists the current namespace and the parked ones but `todo`. */
  ghost predicate Listed(
    current: nat, mounts: seq<Mount>, parked: map<nat, seq<Mount>>, todo: set<nat>, all: seq<Seat>)
  {
    forall n :: For(all, n) == if n in todo then [] else ListOf(current, mounts, parked, n)
  }

  lemma ListBegins(current: nat, mounts: seq<Mount>, parked: map<nat, seq<Mount>>)
    requires current !in parked
    ensures Listed(current, mounts, parked, parked.Keys, SeatList(current, mounts))
  {
    forall n ensures For(SeatList(current, mounts), n) ==
      if n in parked.Keys then [] else ListOf(current, mounts, parked, n)
    {
      ForSeatList(current, mounts, n);
    }
  }

  lemma ListMore(
    current: nat, mounts: seq<Mount>, parked: map<nat, seq<Mount>>, todo: set<nat>, all: seq<Seat>, ns: nat)
    requires current !in parked && ns in parked && ns in todo && Listed(current, mounts, parked, todo, all)
    ensures Listed(current, mounts, parked, todo - {ns}, all + SeatList(ns, parked[ns]))
  {
    forall n ensures For(all + SeatList(ns, parked[ns]), n) ==
      if n in todo - {ns} then [] else ListOf(current, mounts, parked, n)
    {
      ForPlus(all, ns, parked[ns], n);
    }
  }

  method ListAll(current: nat, mounts: seq<Mount>, parked: map<nat, seq<Mount>>) returns (all: seq<Seat>)
    requires current !in parked
    ensures forall ns :: For(all, ns) == ListOf(current, mounts, parked, ns)
  {
    all := SeatList(current, mounts);
    var todo := parked.Keys;
    ListBegins(current, mounts, parked);
    while todo != {}
      invariant todo <= parked.Keys && Listed(current, mounts, parked, todo, all)
      decreases todo
    {
      var ns := AnyOf(todo);
      ListMore(current, mounts, parked, todo, all, ns);
      all := all + SeatList(ns, parked[ns]);
      todo := todo - {ns};
    }
  }

  method AnyOf<T>(s: set<T>) returns (x: T)
    requires s != {}
    ensures x in s
  {
    x :| x in s;
  }

  /** `all` lists the mounts of every namespace. */
  ghost predicate Listing(current: nat, mounts: seq<Mount>, parked: map<nat, seq<Mount>>, all: seq<Seat>) {
    forall ns :: For(all, ns) == ListOf(current, mounts, parked, ns)
  }

  function PeerCount(all: seq<Seat>, g: nat): nat {
    if all == [] then 0
    else PeerCount(all[..|all| - 1], g) + if all[|all| - 1].mount.peer == g then 1 else 0
  }
}
