/**
 Operations on the cgroup hierarchy that move tasks in bulk or change its shape
 (`src/fs/cgroupfs.rs`): `migrate`, `mkdir`, `rmdir`, forking under `pids.max`.
 */
module CgroupOps {
  import opened Errno
  import opened Options
  import opened Cgroups

  // ---- migrate. ----

  /**
   The alive flags agree with the tree: a task counted live elsewhere is not called
   dead the first time it comes up in the list.
   */
  ghost predicate FlagsAgree(t: Tree, tids: seq<(int, bool)>, node: nat) {
    forall i :: 0 <= i < |tids| && CountedElsewhere(t, tids[i].0, node) && First(tids, i) ==> tids[i].1
  }

  predicate CountedElsewhere(t: Tree, tid: int, node: nat) {
    tid in t.members && t.members[tid].live && t.members[tid].node != node
  }

  ghost predicate First(tids: seq<(int, bool)>, i: nat)
    requires i < |tids|
  {
    forall j :: 0 <= j < i ==> tids[j].0 != tids[i].0
  }

  /** After some of the list: those tasks are in `node`, the others are as they were. */
  lemma {:induction false} Migrated(t: Tree, tids: seq<(int, bool)>, node: nat, tid: int)
    requires Descending(t.nodes)
    ensures var r := Migrate(t, tids, node);
            && ((exists i :: 0 <= i < |tids| && tids[i].0 == tid) ==> NodeOf(r, tid) == node)
            && ((forall i :: 0 <= i < |tids| ==> tids[i].0 != tid) ==>
                  (tid in r.members <==> tid in t.members) && (tid in t.members ==> r.members[tid] == t.members[tid]))
    ensures Migrate(t, tids, node).nextId == t.nextId && Migrate(t, tids, node).nsRoots == t.nsRoots
  {
    if tids != [] {
      Migrated(t, tids[..|tids| - 1], node, tid);
    }
  }

  /** What holds of the tree whatever the counters have become. */
  ghost predicate Weak(t: Tree) {
    && Shaped(t.nodes)
    && forall m :: m in t.members ==> t.members[m].node in t.nodes && (t.members[m].node == ROOT ==> !t.members[m].live)
  }

  /** How far the live counter of `n` is ahead of the live members. */
  ghost function Drift(t: Tree, n: nat): int
    requires Descending(t.nodes) && n in t.nodes
  {
    t.nodes[n].live - |LiveIn(t.members, Below(t.nodes, n))|
  }

  lemma MoveTaskWeak(t: Tree, tid: int, alive: bool, node: nat)
    requires Weak(t) && node in t.nodes
    ensures Weak(MoveTask(t, tid, alive, node))
  {
    if NodeOf(t, tid) != node {
      SameShapeShaped(t.nodes, MoveTask(t, tid, alive, node).nodes);
    }
  }

  /** A live counter never falls behind; calling a live task dead puts its cgroup's one further ahead. */
  lemma MoveTaskDrift(t: Tree, tid: int, alive: bool, node: nat, n: nat)
    requires Weak(t) && node in t.nodes && n in t.nodes && n != ROOT && Drift(t, n) >= 0
    ensures Descending(MoveTask(t, tid, alive, node).nodes) && Drift(MoveTask(t, tid, alive, node), n) >= Drift(t, n)
    ensures CountedElsewhere(t, tid, node) && !alive && NodeOf(t, tid) == n ==>
              Drift(MoveTask(t, tid, alive, node), n) > Drift(t, n)
  {
    var t' := MoveTask(t, tid, alive, node);
    if NodeOf(t, tid) != node {
      var rest, s := t.members - {tid}, Below(t.nodes, n);
      SameBelow(t.nodes, t'.nodes, n);
      RootWalk(t.nodes, n);
      if tid in t.members {
        CountAdded(rest, t.members, tid, s);
      } else {
        assert rest == t.members;
      }
      if node != ROOT { CountAdded(rest, t'.members, tid, s); }
    }
  }

  lemma {:induction false} MigrateDrift(t: Tree, tids: seq<(int, bool)>, node: nat, n: nat)
    requires Weak(t) && node in t.nodes && n in t.nodes && n != ROOT && Drift(t, n) >= 0
    ensures Weak(Migrate(t, tids, node)) && Drift(Migrate(t, tids, node), n) >= Drift(t, n)
  {
    if tids != [] {
      var mid, last := Migrate(t, tids[..|tids| - 1], node), tids[|tids| - 1];
      MigrateDrift(t, tids[..|tids| - 1], node, n);
      MoveTaskWeak(mid, last.0, last.1, node);
      MoveTaskDrift(mid, last.0, last.1, node, n);
    }
  }

  lemma FlagsAgreeInit(t: Tree, tids: seq<(int, bool)>, node: nat)
    requires tids != [] && FlagsAgree(t, tids, node)
    ensures FlagsAgree(t, tids[..|tids| - 1], node)
  {
    var init := tids[..|tids| - 1];
    forall i | 0 <= i < |init| && CountedElsewhere(t, init[i].0, node) && First(init, i) ensures init[i].1 {
      assert First(tids, i);
    }
  }

  /** When the last task's turn comes it is in `node` already, or as it was at the start. */
  lemma LastAgrees(t: Tree, tids: seq<(int, bool)>, node: nat, mid: Tree)
    requires Descending(t.nodes) && tids != [] && FlagsAgree(t, tids, node)
    requires mid == Migrate(t, tids[..|tids| - 1], node)
    ensures CountedElsewhere(mid, tids[|tids| - 1].0, node) ==> tids[|tids| - 1].1
  {
    var last := tids[|tids| - 1];
    Migrated(t, tids[..|tids| - 1], node, last.0);
    if CountedElsewhere(mid, last.0, node) {
      assert First(tids, |tids| - 1);
      assert CountedElsewhere(t, last.0, node);
    }
  }

  lemma MoveCounted(t: Tree, tid: int, alive: bool, node: nat)
    requires Valid(t) && node in t.nodes
    requires CountedElsewhere(t, tid, node) ==> alive
    ensures Valid(MoveTask(t, tid, alive, node))
  {
    if NodeOf(t, tid) != node { MoveTaskValid(t, tid, alive, node); }
  }

  lemma {:induction false} MigrateAgreeing(t: Tree, tids: seq<(int, bool)>, node: nat)
    requires Valid(t) && node in t.nodes && FlagsAgree(t, tids, node)
    ensures Valid(Migrate(t, tids, node))
  {
    if tids != [] {
      var mid := Migrate(t, tids[..|tids| - 1], node);
      FlagsAgreeInit(t, tids, node);
      MigrateAgreeing(t, tids[..|tids| - 1], node);
      LastAgrees(t, tids, node, mid);
      MoveCounted(mid, tids[|tids| - 1].0, tids[|tids| - 1].1, node);
    }
  }

  /** Whatever comes after it, the first disagreement leaves its cgroup's live counter ahead. */
  lemma {:induction false} DisagreementDrifts(t: Tree, tids: seq<(int, bool)>, node: nat, i: nat, n: nat)
    requires Weak(t) && node in t.nodes && i < |tids| && n in t.nodes && n != ROOT && Drift(t, n) >= 0
    requires CountedElsewhere(t, tids[i].0, node) && First(tids, i) && !tids[i].1 && t.members[tids[i].0].node == n
    ensures Weak(Migrate(t, tids, node)) && Drift(Migrate(t, tids, node), n) > 0
  {
    var init, last := tids[..|tids| - 1], tids[|tids| - 1];
    MigrateDrift(t, init, node, n);
    if i == |init| {
      Migrated(t, init, node, last.0);
    } else {
      assert First(init, i);
      DisagreementDrifts(t, init, node, i, n);
    }
    TurnDrifts(Migrate(t, init, node), last.0, last.1, node, n);
  }

  /** A turn that disagrees makes a drift, and one that follows a drift keeps it. */
  lemma {:induction false} TurnDrifts(t: Tree, tid: int, alive: bool, node: nat, n: nat)
    requires Weak(t) && node in t.nodes && n in t.nodes && n != ROOT && Drift(t, n) >= 0
    requires Drift(t, n) > 0 || (CountedElsewhere(t, tid, node) && !alive && NodeOf(t, tid) == n)
    ensures Weak(MoveTask(t, tid, alive, node)) && Drift(MoveTask(t, tid, alive, node), n) > 0
  {
    MoveTaskWeak(t, tid, alive, node);
    MoveTaskDrift(t, tid, alive, node, n);
  }

  lemma MigrateDisagreeing(t: Tree, tids: seq<(int, bool)>, node: nat, i: nat)
    requires Valid(t) && node in t.nodes && i < |tids|
    requires CountedElsewhere(t, tids[i].0, node) && First(tids, i) && !tids[i].1
    ensures !Valid(Migrate(t, tids, node))
  {
    var n := t.members[tids[i].0].node;
    assert ExactAt(t, n);
    DisagreementDrifts(t, tids, node, i, n);
    assert !ExactAt(Migrate(t, tids, node), n);
  }

  /** `migrate` keeps every counter exact if and only if its alive flags agree with the tree. */
  lemma MigrateExactIff(t: Tree, tids: seq<(int, bool)>, node: nat)
    requires Valid(t) && node in t.nodes
    ensures Valid(Migrate(t, tids, node)) <==> FlagsAgree(t, tids, node)
  {
    if FlagsAgree(t, tids, node) {
      MigrateAgreeing(t, tids, node);
    } else {
      var i :| 0 <= i < |tids| && CountedElsewhere(t, tids[i].0, node) && First(tids, i) && !tids[i].1;
      MigrateDisagreeing(t, tids, node, i);
    }
  }

  // ---- Forking under pids.max. ----

  /** One more task would go over `pids.max`. */
  predicate Full(x: Node) {
    x.pidsMax.Some? && x.tasks + 1 > x.pidsMax.value
  }

  /** The nearest full cgroup from `node` up. */
  function FirstFull(nodes: Nodes, node: nat): Option<nat>
    requires Descending(nodes)
    decreases node
  {
    if node !in nodes then None
    else if Full(nodes[node]) then Some(node)
    else if nodes[node].parent.Some? then FirstFull(nodes, nodes[node].parent.value)
    else None
  }

  predicate HasPopulatedChild(nodes: Nodes, node: nat) {
    node in nodes && exists s | s in nodes[node].children ::
      nodes[node].children[s] in nodes && nodes[nodes[node].children[s]].live > 0
  }

  /** `check_attach`: the "no internal processes" rule, as 0 or an error. */
  function CheckAttach(nodes: Nodes, node: nat): nat {
    if node !in nodes then ENOENT
    else if node != ROOT && nodes[node].pidsBelow && HasPopulatedChild(nodes, node) then EBUSY
    else 0
  }

  /** `can_fork`, as 0 or an error. */
  function CanFork(t: Tree, node: nat, explicit: bool): nat
    requires Descending(t.nodes)
  {
    if explicit && CheckAttach(t.nodes, node) != 0 then CheckAttach(t.nodes, node)
    else if node !in t.nodes then ENOENT
    else if FirstFull(t.nodes, node).Some? then EAGAIN
    else 0
  }

  /** A refusal for `pids.max` is noted where it happened. */
  function NoteRefusal(t: Tree, n: nat): Tree {
    if n in t.nodes then t.(nodes := t.nodes[n := t.nodes[n].(pidsEvents := t.nodes[n].pidsEvents + 1)]) else t
  }

  /** `fork`: the new tree, and 0 or an error. */
  function Fork(t: Tree, parent: int, tid: int, into: Option<nat>): (Tree, nat)
    requires Descending(t.nodes)
  {
    var node := if into.Some? then into.value else NodeOf(t, parent);
    var e := CanFork(t, node, into.Some?);
    if e == 0 then (AttachNew(t, tid, node), 0)
    else if e == EAGAIN then (NoteRefusal(t, FirstFull(t.nodes, node).value), e)
    else (t, e)
  }

  /** `n` is full, on the way up from `node`, with nothing full before it. */
  ghost predicate NearestFull(nodes: Nodes, node: nat, n: nat)
    requires Descending(nodes)
  {
    && n in nodes && Within(nodes, node, n) && Full(nodes[n])
    && forall a :: a in nodes && a != n && Within(nodes, node, a) && Within(nodes, a, n) ==> !Full(nodes[a])
  }

  lemma {:induction false} FirstFullIsNearest(nodes: Nodes, node: nat)
    requires Shaped(nodes) && node in nodes
    ensures match FirstFull(nodes, node)
            case None => forall a :: a in nodes && Within(nodes, node, a) ==> !Full(nodes[a])
            case Some(n) => NearestFull(nodes, node, n)
    decreases node
  {
    assert HasParent(nodes, node);
    if !Full(nodes[node]) {
      if node != ROOT {
        FirstFullIsNearest(nodes, nodes[node].parent.value);
      }
    } else {
      forall a | a in nodes && a != node && Within(nodes, node, a) ensures !Within(nodes, a, node) {
        StrictlyAbove(nodes, node, a);
      }
    }
  }

  lemma StrictlyAbove(nodes: Nodes, node: nat, a: nat)
    requires Shaped(nodes) && node in nodes && a in nodes && a != node && Within(nodes, node, a)
    ensures !Within(nodes, a, node)
  {
    WithinExists(nodes, node, a);
    if Within(nodes, a, node) { WithinExists(nodes, a, node); }
  }

  /** A fork that succeeds leaves every cgroup on the new task's way up at or below its `pids.max`. */
  lemma ForkRespectsPidsMax(t: Tree, parent: int, tid: int, into: Option<nat>, n: nat)
    requires Valid(t) && Fork(t, parent, tid, into).1 == 0 && n in t.nodes
    requires Within(t.nodes, if into.Some? then into.value else NodeOf(t, parent), n)
    ensures var x := Fork(t, parent, tid, into).0.nodes[n];
            x.pidsMax.Some? ==> x.tasks <= x.pidsMax.value
  {
    FirstFullIsNearest(t.nodes, if into.Some? then into.value else NodeOf(t, parent));
  }

  /** One refused for `pids.max` changes only the `pids.events` of the nearest full cgroup. */
  lemma RefusalIsNotedOnce(t: Tree, parent: int, tid: int, into: Option<nat>)
    requires Shaped(t.nodes) && Fork(t, parent, tid, into).1 == EAGAIN
    ensures
      var node := if into.Some? then into.value else NodeOf(t, parent);
      exists n :: && NearestFull(t.nodes, node, n)
                  && Fork(t, parent, tid, into).0 ==
                     t.(nodes := t.nodes[n := t.nodes[n].(pidsEvents := t.nodes[n].pidsEvents + 1)])
  {
    var node := if into.Some? then into.value else NodeOf(t, parent);
    FirstFullIsNearest(t.nodes, node);
    assert NearestFull(t.nodes, node, FirstFull(t.nodes, node).value);
  }

  lemma NoteRefusalValid(t: Tree, n: nat)
    requires Valid(t)
    ensures Valid(NoteRefusal(t, n))
  {
    if n in t.nodes {
      forall m | m in t.nodes && m != ROOT ensures Counts(NoteRefusal(t, n).nodes[m], t.members, Below(t.nodes, m)) {
        assert ExactAt(t, m);
      }
      ValidSameShape(t, NoteRefusal(t, n));
    }
  }

  lemma ForkValid(t: Tree, parent: int, tid: int, into: Option<nat>)
    requires Valid(t) && tid !in t.members
    ensures Valid(Fork(t, parent, tid, into).0)
  {
    var node := if into.Some? then into.value else NodeOf(t, parent);
    if CanFork(t, node, into.Some?) == 0 {
      AttachNewValid(t, tid, node);
    } else if CanFork(t, node, into.Some?) == EAGAIN {
      NoteRefusalValid(t, FirstFull(t.nodes, node).value);
    }
  }
}
