/**
 A slave beneath a shared mount of the same directory: how it comes about, and that it
 keeps what is mounted and unmounted above it.
 */
module MountBeneath {
  import opened Options
  import opened Paths
  import opened Mounts
  import opened MountPivot
  import opened MountBind
  import opened MountPropagation
  import opened MountLists
  import opened MountOutcomes
  import opened MountClear
  import opened MountTableObject
  import opened MountKeep
  import opened MountCounts
  import opened MountRestore

  const A: Path := ["a"]
  const B: Path := ["b"]

  function OfGroup(point: Path, peer: nat, master: nat): Mount {
    GuestMount(point, 7).(peer := peer, master := master)
  }

  /** One directory mounted at two places, and once more at the first over its own slave. */
  function Beneath(): seq<Mount> {
    [OfGroup(A, 0, 1), OfGroup(B, 1, 0), OfGroup(A, 1, 0)]
  }

  /** Mounts of a namespace in a group are counted in it. */
  lemma {:induction false} CountedInGroup(all: seq<Seat>, ns: nat, i: nat, j: nat, g: nat)
    requires i < j < |For(all, ns)| && For(all, ns)[i].peer == g && For(all, ns)[j].peer == g
    ensures PeerCount(all, g) > 1
    decreases |all|
  {
    var rest, s := all[..|all| - 1], all[|all| - 1];
    if s.ns == ns && j == |For(rest, ns)| {
      OneInGroup(rest, ns, i, g);
    } else {
      CountedInGroup(rest, ns, i, j, g);
    }
  }

  lemma {:induction false} OneInGroup(all: seq<Seat>, ns: nat, i: nat, g: nat)
    requires i < |For(all, ns)| && For(all, ns)[i].peer == g
    ensures PeerCount(all, g) > 0
    decreases |all|
  {
    var rest, s := all[..|all| - 1], all[|all| - 1];
    if !(s.ns == ns && i == |For(rest, ns)|) { OneInGroup(rest, ns, i, g); }
  }

  lemma OneAlone(m: Mount, path: Path)
    ensures Winner([m], path) == (if m.point <= path then Some(m) else None)
    ensures LastAt([m], path) == if m.point == path then Some(0) else None
  {
    assert [m] == [] + [m];
    WinnerSnoc([], m, path);
    assert [m][..0] == [];
  }

  lemma TwoMounts(m: Mount, o: Mount, path: Path)
    requires m.point == A && o.point == B
    ensures path == A ==> Winner([m, o], path) == Some(m) && LastAt([m, o], path) == Some(0)
    ensures path == B ==> Winner([m, o], path) == Some(o)
  {
    OneAlone(m, path);
    assert [m, o] == [m] + [o] && [m, o][..1] == [m];
    WinnerSnoc([m], o, path);
    assert A[0] != B[0];
  }

  lemma SharedAlone(current: nat, parked: map<nat, seq<Mount>>, run: seq<Stage>)
    requires |run| == 2 && run[0] == Stage([OfGroup(A, 0, 0)], 0)
    requires SetRun(current, parked, 0, A, Shared, false, run)
    ensures run[1] == Stage([OfGroup(A, 1, 0)], 1)
  {
    assert SetTurn(current, parked, 0, A, Shared, false, run[0], 0, run[1]);
  }

  lemma FirstEnslaved(current: nat, parked: map<nat, seq<Mount>>, run: seq<Stage>)
    requires |run| == 3 && run[0] == Stage([OfGroup(A, 1, 0), OfGroup(B, 1, 0)], 1)
    requires SetRun(current, parked, 0, A, Slave, false, run)
    ensures run[2] == Stage([OfGroup(A, 0, 1), OfGroup(B, 1, 0)], 1)
  {
    assert SetTurn(current, parked, 0, A, Slave, false, run[0], 0, run[1]);
    assert SetTurn(current, parked, 0, A, Slave, false, run[1], 1, run[2]);
    var all :| && Listing(current, run[0].mounts, parked, all)
               && run[1].mounts == run[0].mounts[0 := run[0].mounts[0].(
                    peer := 0, unbindable := false,
                    master := if PeerCount(all, 1) > 1 then 1 else 0)];
    assert For(all, current) == run[0].mounts;
    CountedInGroup(all, current, 0, 1, 1);
  }

  lemma BindOfRoot(ms: seq<Mount>, m: Mount, source: Path, target: Path)
    requires Winner(ms, source) == Some(m) && m == OfGroup(source, 1, 0)
    ensures BindMounts(ms, source, target, false) == [OfGroup(target, 1, 0)]
  {
    assert FsPath(m, source) == [];
    assert [OfGroup(target, 1, 0)] + [] == [OfGroup(target, 1, 0)];
  }

  ghost predicate Holds(table: MountTable, mounts: seq<Mount>, groups: nat)
    reads table
  {
    && table.Valid() && table.mounts == mounts && table.groups == groups
    && table.parked == map[] && table.current == 0 && table.detached == 0
  }

  /** Mount, share, bind, make the first a slave, bind again. */
  method MakeBeneath() returns (table: MountTable)
    ensures fresh(table) && Holds(table, Beneath(), 1)
  {
    table := new MountTable();
    MakeShared(table);
    BindThere(table);
    MakeSlave(table);
    BindBack(table);
  }

  method MakeShared(table: MountTable)
    requires Holds(table, [], 0)
    modifies table
    ensures Holds(table, [OfGroup(A, 1, 0)], 1)
  {
    GuestPathIsClear(A, 0);
    var _, _, _, _ := table.MountGuest(A, 7);
    OneAlone(OfGroup(A, 0, 0), A);
    assert table.mounts == [OfGroup(A, 0, 0)];
    var _, run := table.SetPropagation(A, Shared, false);
    SharedAlone(table.current, table.parked, run);
  }

  method BindThere(table: MountTable)
    requires Holds(table, [OfGroup(A, 1, 0)], 1)
    modifies table
    ensures Holds(table, [OfGroup(A, 1, 0), OfGroup(B, 1, 0)], 1)
  {
    GuestPathIsClear(A, 0);
    GuestPathIsClear(B, 0);
    OneAlone(OfGroup(A, 1, 0), A);
    OneAlone(OfGroup(A, 1, 0), B);
    BindOfRoot(table.mounts, OfGroup(A, 1, 0), A, B);
    var _, _, _, _, _ := table.Bind(A, B, false);
  }

  method MakeSlave(table: MountTable)
    requires Holds(table, [OfGroup(A, 1, 0), OfGroup(B, 1, 0)], 1)
    modifies table
    ensures Holds(table, [OfGroup(A, 0, 1), OfGroup(B, 1, 0)], 1)
  {
    TwoMounts(OfGroup(A, 1, 0), OfGroup(B, 1, 0), A);
    var _, run := table.SetPropagation(A, Slave, false);
    FirstEnslaved(table.current, table.parked, run);
  }

  method BindBack(table: MountTable)
    requires Holds(table, [OfGroup(A, 0, 1), OfGroup(B, 1, 0)], 1)
    modifies table
    ensures Holds(table, Beneath(), 1)
  {
    GuestPathIsClear(A, 0);
    GuestPathIsClear(B, 0);
    TwoMounts(OfGroup(A, 0, 1), OfGroup(B, 1, 0), A);
    TwoMounts(OfGroup(A, 0, 1), OfGroup(B, 1, 0), B);
    BindOfRoot(table.mounts, OfGroup(B, 1, 0), B, A);
    var _, _, _, _, _ := table.Bind(B, A, false);
  }

  function BeneathTrip(): Trip {
    Trip(0, Beneath(), map[], SeatList(0, Beneath()), OfGroup(A, 1, 0), A + ["x"], 8)
  }

  lemma SlaveBeneathGetsCopy()
    ensures var t := BeneathTrip();
            && Winner(t.was, t.point) == Some(t.parent)
            && IsSource(t.Source(), t.all[0]) && GetsCopy(t.Source(), t.all, t.parent.peer, t.all[0])
  {
  }

  lemma BeneathPlaces(i: nat)
    requires i < 3
    ensures var t := BeneathTrip();
            && t.all[i].mount.subdir <= t.At() && PlaceOf(t.At(), t.all[i]) == (if i == 1 then B else A) + ["x"]
            && (IsSource(t.Source(), t.all[i]) <==> i != 1)
  {
    assert BeneathTrip().At() == ["x"] && ["x"][0..] == ["x"];
    assert A[0] != B[0];
  }

  lemma BeneathApart()
    ensures var t := BeneathTrip(); Apart(t.Source(), t.all, t.parent.peer, t.At(), t.point)
  {
    var t := BeneathTrip();
    BeneathPlaces(0);
    BeneathPlaces(1);
    BeneathPlaces(2);
    assert (A + ["x"])[0] != (B + ["x"])[0];
    forall i: nat, j: nat | i < 3 && j < 3 && i != j && !IsSource(t.Source(), t.all[i])
      ensures !(PlaceOf(t.At(), t.all[i]) <= PlaceOf(t.At(), t.all[j]))
    {
    }
  }

  /** The slave gets a copy that nothing found twice comes to take away. */
  lemma OneSlaveTooMany()
    ensures var t := BeneathTrip();
            Slaves(t.Source(), t.all, 1, t.At(), 0, t.point) > Twice(t.Source(), t.all, 1, t.At(), 0, t.point)
  {
    var t := BeneathTrip();
    var c, at := t.Source(), t.At();
    SlaveBeneathGetsCopy();
    BeneathPlaces(0);
    BeneathPlaces(1);
    BeneathPlaces(2);
    assert (A + ["x"])[0] != (B + ["x"])[0];
    var slaves, twice := UnsharedList(c, t.all, 1, at, 0, t.point), AgainList(c, t.all, 1, at, 0, t.point);
    assert slaves[0] == 1 && forall i :: 0 <= i < 3 ==> twice[i] == 0;
    TallyPositive(slaves, 3);
    TallyPositive(twice, 3);
  }

  /** Its copy of what is mounted under the shared mount is never taken away again. */
  lemma SlaveBeneathKeepsCopy()
    ensures BeneathTrip().Ready() && !Clean(BeneathTrip())
  {
    var t := BeneathTrip();
    SlaveBeneathGetsCopy();
    BeneathApart();
    BeneathPlaces(0);
    forall ns ensures For(t.all, ns) == ListOf(t.current, t.was, t.parked, ns) {
      ForSeatList(0, t.was, ns);
    }
    OneSlaveTooMany();
    assert !t.AllSettled(0);
  }
}
