/**
 The kernel's side of cgroups (`src/kernel/cgroup.rs`): the task table next to the
 hierarchy, with the cached `frozen` flag on every task.
 */
module CgroupKernel {
  import opened Errno
  import opened Options
  import opened Cgroups
  import opened CgroupOps
  import opened CgroupShape

  /** What the cgroup code needs of a task. */
  datatype Task = Task(pid: int, tgid: int, zombie: bool, frozen: bool, killed: bool, parked: bool)

  /** The hierarchy and the task table. */
  datatype Kernel = Kernel(tree: Tree, tasks: seq<Task>)

  predicate IsAlive(tasks: seq<Task>, pid: int) {
    exists i :: 0 <= i < |tasks| && tasks[i].pid == pid && !tasks[i].zombie
  }

  predicate Exists(tasks: seq<Task>, pid: int) {
    exists i :: 0 <= i < |tasks| && tasks[i].pid == pid
  }

  /** The two differ in counters only. */
  ghost predicate OnlyCounters(a: Nodes, b: Nodes) {
    a.Keys == b.Keys && forall n :: n in a ==> b[n] == a[n].(tasks := b[n].tasks, live := b[n].live)
  }

  lemma OnlyCountersFrozen(a: Nodes, b: Nodes, x: nat)
    requires Descending(a) && OnlyCounters(a, b)
    ensures Descending(b) && Frozen(a, x) == Frozen(b, x)
  {
    SameFrozen(a, b, x);
  }

  // ---- The invariant. ----

  /** A live task's cached flag is "its cgroup or some ancestor has freeze set". */
  ghost predicate FlagRight(t: Tree, p: Task)
    requires Descending(t.nodes)
  {
    !p.zombie ==> p.frozen == Frozen(t.nodes, NodeOf(t, p.pid))
  }

  ghost predicate DistinctPids(tasks: seq<Task>) {
    forall i, j :: 0 <= i < j < |tasks| ==> tasks[i].pid != tasks[j].pid
  }

  ghost predicate Inv(k: Kernel) {
    && Valid(k.tree)
    && NoDots(k.tree.nodes)
    && DistinctPids(k.tasks)
    && (forall m :: m in k.tree.members ==> Exists(k.tasks, m))
    && (forall p :: p in k.tasks ==> CountedLive(k.tree, p) && FlagRight(k.tree, p))
  }

  /** The tree may be late to hear that a task has exited, never that it lives. */
  predicate CountedLive(t: Tree, p: Task) {
    !p.zombie && p.pid in t.members ==> t.members[p.pid].live
  }

  // ---- The operations. ----

  /** `sync_exits`: the members whose task is a zombie or gone are marked, and nothing else but counters changes. */
  ghost predicate Synced(t: Tree, tasks: seq<Task>, s: Tree) {
    && Valid(s) && OnlyCounters(t.nodes, s.nodes) && s.nextId == t.nextId && s.nsRoots == t.nsRoots
    && s.members.Keys == t.members.Keys
    && forall m :: m in t.members ==>
         s.members[m] == t.members[m].(live := t.members[m].live && IsAlive(tasks, m))
  }

  /** The tasks of a thread group, with whether each is alive. */
  function Moving(tasks: seq<Task>, tgid: int): seq<(int, bool)> {
    if tasks == [] then []
    else
      var last := tasks[|tasks| - 1];
      Moving(tasks[..|tasks| - 1], tgid) + if last.tgid == tgid then [(last.pid, !last.zombie)] else []
  }

  function WithFlag(tasks: seq<Task>, tgid: int, frozen: bool): (r: seq<Task>)
    ensures |r| == |tasks|
  {
    seq(|tasks|, i requires 0 <= i < |tasks| =>
      if tasks[i].tgid == tgid then tasks[i].(frozen := frozen) else tasks[i])
  }

  ghost function Moved(k: Kernel, tgid: int, node: nat): Kernel
    requires Descending(k.tree.nodes)
  {
    var t := Migrate(k.tree, Moving(k.tasks, tgid), node);
    Kernel(t, WithFlag(k.tasks, tgid, Frozen(t.nodes, node)))
  }

  /** `cgroup_freeze`: set the flag and recompute it for the tasks at or below. */
  ghost function FreezeTasks(k: Kernel, node: nat, on: bool): Kernel
    requires Shaped(k.tree.nodes)
  {
    var t := Froze(k.tree, node, on);
    Kernel(t, seq(|k.tasks|, i requires 0 <= i < |k.tasks| => Refrozen(k.tree, t, k.tasks[i], node)))
  }

  ghost function Refrozen(was: Tree, t: Tree, p: Task, node: nat): Task
    requires Descending(was.nodes) && Descending(t.nodes)
  {
    if NodeOf(was, p.pid) in Below(was.nodes, node)
    then p.(frozen := Frozen(t.nodes, NodeOf(was, p.pid)), parked := false)
    else p
  }

  datatype Op =
    | CheckOp(node: nat, explicit: bool)
    | AttachOp(pid: int, tgid: int, node: nat)
    | ExitOp(pid: int)
    | ReapOp(pid: int)
    | SyncOp(synced: Tree)
    | MoveOp(tgid: int, node: nat, synced: Tree)
    | FreezeOp(node: nat, on: bool)
    | MkdirOp(dir: nat, name: string, uid: nat)
    | RmdirOp(node: nat)
    | LimitOp(node: nat, limit: Limit)

  /** The three limits a write can set or lift. */
  datatype Limit = PidsMax(value: Option<nat>) | MaxDepth(value: Option<nat>) | MaxDescendants(value: Option<nat>)

  function Limited(t: Tree, node: nat, limit: Limit): Tree {
    if node !in t.nodes then t
    else
      var x := t.nodes[node];
      t.(nodes := t.nodes[node :=
        match limit
        case PidsMax(v) => x.(pidsMax := v)
        case MaxDepth(v) => x.(maxDepth := v)
        case MaxDescendants(v) => x.(maxDescendants := v)])
  }

  /** `cgroup_can_fork`: a refusal for `pids.max` is noted. */
  function Checked(t: Tree, node: nat, explicit: bool): Tree
    requires Descending(t.nodes)
  {
    if CanFork(t, node, explicit) == EAGAIN then NoteRefusal(t, FirstFull(t.nodes, node).value) else t
  }

  /** `cgroup_fork`, which takes the lock anew after `cgroup_can_fork`: it asks nothing again. */
  ghost function Attached(k: Kernel, pid: int, tgid: int, node: nat): Kernel
    requires Descending(k.tree.nodes)
  {
    var t := AttachNew(k.tree, pid, node);
    Kernel(t, k.tasks + [Task(pid, tgid, false, Frozen(t.nodes, node), false, false)])
  }

  function Died(tasks: seq<Task>, pid: int): seq<Task> {
    seq(|tasks|, i requires 0 <= i < |tasks| => if tasks[i].pid == pid then tasks[i].(zombie := true) else tasks[i])
  }

  function Reaped(tasks: seq<Task>, pid: int): seq<Task> {
    if tasks == [] then []
    else Reaped(tasks[..|tasks| - 1], pid) + if tasks[|tasks| - 1].pid == pid then [] else [tasks[|tasks| - 1]]
  }

  /** One step of the kernel; a failing call leaves the tree and the tasks alone. */
  ghost predicate Next(k: Kernel, op: Op, k': Kernel)
    requires Shaped(k.tree.nodes)
  {
    match op
    case CheckOp(node, explicit) => k' == k.(tree := Checked(k.tree, node, explicit))
    case AttachOp(pid, tgid, node) => !Exists(k.tasks, pid) && k' == Attached(k, pid, tgid, node)
    case ExitOp(pid) => k' == k.(tasks := Died(k.tasks, pid))
    case ReapOp(pid) => k' == Kernel(Release(k.tree, pid), Reaped(k.tasks, pid))
    case SyncOp(s) => Synced(k.tree, k.tasks, s) && k' == k.(tree := s)
    case MoveOp(tgid, node, s) =>
      Synced(k.tree, k.tasks, s) && node in k.tree.nodes && k' == Moved(k.(tree := s), tgid, node)
    case FreezeOp(node, on) => node in k.tree.nodes && k' == FreezeTasks(k, node, on)
    case MkdirOp(parent, name, uid) =>
      k' == (match Mkdir(k.tree, parent, name, uid) case Ok(t) => k.(tree := t) case Err(_) => k)
    case RmdirOp(node) =>
      k' == (match Rmdir(k.tree, node) case Ok(t) => k.(tree := t) case Err(_) => k)
    case LimitOp(node, limit) => k' == k.(tree := Limited(k.tree, node, limit))
  }

  // ---- Each keeps the invariant. ----

  predicate SameMember(t: Tree, t': Tree, m: int) {
    (m in t.members <==> m in t'.members) && (m in t.members ==> t.members[m] == t'.members[m])
  }

  /** A task whose cgroup is not moved, in a tree whose shape and flags stay, keeps its flag right. */
  lemma TaskKept(t: Tree, t': Tree, p: Task)
    requires Descending(t.nodes) && SameShape(t.nodes, t'.nodes)
    requires forall n :: n in t.nodes ==> t.nodes[n].freeze == t'.nodes[n].freeze
    requires SameMember(t, t', p.pid)
    requires CountedLive(t, p) && FlagRight(t, p)
    ensures Descending(t'.nodes) && CountedLive(t', p) && FlagRight(t', p)
  {
    SameFrozen(t.nodes, t'.nodes, NodeOf(t, p.pid));
  }

  /** Only what is said of task `pid` changed. */
  ghost predicate Touches(t: Tree, t': Tree, pid: int) {
    && SameShape(t.nodes, t'.nodes)
    && (forall n :: n in t.nodes ==> t.nodes[n].freeze == t'.nodes[n].freeze)
    && (forall m :: m != pid ==> SameMember(t, t', m))
  }

  lemma OthersKept(t: Tree, t': Tree, tasks: seq<Task>, pid: int)
    requires Descending(t.nodes) && Touches(t, t', pid)
    requires forall p :: p in tasks ==> CountedLive(t, p) && FlagRight(t, p)
    ensures Descending(t'.nodes)
    ensures forall p :: p in tasks && p.pid != pid ==> CountedLive(t', p) && FlagRight(t', p)
  {
    forall p | p in tasks && p.pid != pid ensures Descending(t'.nodes) && CountedLive(t', p) && FlagRight(t', p) {
      TaskKept(t, t', p);
    }
  }

  ghost predicate SameFlags(a: Nodes, b: Nodes) {
    a.Keys == b.Keys && forall n :: n in a ==> a[n].freeze == b[n].freeze
  }

  /** A change to limits and event counts only. */
  ghost predicate OnlySettings(t: Tree, t': Tree) {
    SameShape(t.nodes, t'.nodes) && SameFlags(t.nodes, t'.nodes) && t'.members == t.members
  }

  lemma {:induction false} SettingsKeep(k: Kernel, t: Tree)
    requires Inv(k) && Valid(t) && OnlySettings(k.tree, t)
    ensures Inv(k.(tree := t))
  {
    forall p | p in k.tasks ensures CountedLive(t, p) && FlagRight(t, p) {
      TaskKept(k.tree, t, p);
    }
  }

  lemma NoteIsSetting(t: Tree, n: nat)
    ensures OnlySettings(t, NoteRefusal(t, n))
  {
  }

  lemma LimitIsSetting(t: Tree, node: nat, limit: Limit)
    ensures OnlySettings(t, Limited(t, node, limit))
  {
  }

  lemma {:induction false} NoteKeeps(k: Kernel, n: nat)
    requires Inv(k)
    ensures Inv(k.(tree := NoteRefusal(k.tree, n)))
  {
    NoteIsSetting(k.tree, n);
    NoteRefusalValid(k.tree, n);
    SettingsKeep(k, NoteRefusal(k.tree, n));
  }

  lemma {:induction false} CheckKeeps(k: Kernel, node: nat, explicit: bool)
    requires Inv(k)
    ensures Inv(k.(tree := Checked(k.tree, node, explicit)))
  {
    if CanFork(k.tree, node, explicit) == EAGAIN { NoteKeeps(k, FirstFull(k.tree.nodes, node).value); }
  }

  lemma AttachTouches(t: Tree, pid: int, node: nat)
    requires Descending(t.nodes) && pid !in t.members
    ensures var t' := AttachNew(t, pid, node);
            && Touches(t, t', pid) && NodeOf(t', pid) == node && (pid in t'.members ==> t'.members[pid].live)
            && forall m :: m in t'.members ==> m == pid || m in t.members
  {
  }

  /** The new task and all the others are counted and flagged right. */
  lemma AttachedRight(k: Kernel, pid: int, tgid: int, node: nat, p: Task)
    requires Inv(k) && !Exists(k.tasks, pid) && p in Attached(k, pid, tgid, node).tasks
    ensures var t := AttachNew(k.tree, pid, node);
            Descending(t.nodes) && CountedLive(t, p) && FlagRight(t, p)
  {
    var t := AttachNew(k.tree, pid, node);
    assert pid !in k.tree.members;
    AttachTouches(k.tree, pid, node);
    if p in k.tasks { TaskKept(k.tree, t, p); }
  }

  lemma {:induction false} AttachKeeps(k: Kernel, pid: int, tgid: int, node: nat)
    requires Inv(k) && !Exists(k.tasks, pid) && node in k.tree.nodes
    ensures Inv(Attached(k, pid, tgid, node))
  {
    var k' := Attached(k, pid, tgid, node);
    assert pid !in k.tree.members;
    AttachNewValid(k.tree, pid, node);
    forall p | p in k'.tasks ensures CountedLive(k'.tree, p) && FlagRight(k'.tree, p) {
      AttachedRight(k, pid, tgid, node, p);
    }
    ExistsSnoc(k.tasks, k'.tasks[|k.tasks|]);
  }

  lemma ExistsSnoc(tasks: seq<Task>, p: Task)
    ensures Exists(tasks + [p], p.pid) && forall m :: Exists(tasks, m) ==> Exists(tasks + [p], m)
  {
    assert (tasks + [p])[|tasks|].pid == p.pid;
    forall m | Exists(tasks, m) ensures Exists(tasks + [p], m) {
      var i :| 0 <= i < |tasks| && tasks[i].pid == m;
      assert (tasks + [p])[i].pid == m;
    }
  }

  /** A new task keeps the account right if and only if the cgroup the check allowed is still there. */
  lemma AttachKeepsIff(k: Kernel, pid: int, tgid: int, node: nat)
    requires Inv(k) && !Exists(k.tasks, pid)
    ensures Inv(Attached(k, pid, tgid, node)) <==> node in k.tree.nodes
  {
    if node in k.tree.nodes {
      AttachKeeps(k, pid, tgid, node);
    } else {
      assert pid in AttachNew(k.tree, pid, node).members;
    }
  }

  lemma PidsKept(a: seq<Task>, b: seq<Task>)
    requires |a| == |b| && forall i :: 0 <= i < |a| ==> a[i].pid == b[i].pid
    ensures DistinctPids(a) ==> DistinctPids(b)
    ensures forall m :: Exists(a, m) ==> Exists(b, m)
  {
    forall m | Exists(a, m) ensures Exists(b, m) {
      var i :| 0 <= i < |a| && a[i].pid == m;
      assert b[i].pid == m;
    }
  }

  lemma ExitKeeps(k: Kernel, pid: int)
    requires Inv(k)
    ensures Inv(k.(tasks := Died(k.tasks, pid)))
  {
    var k' := k.(tasks := Died(k.tasks, pid));
    forall p | p in k'.tasks ensures CountedLive(k'.tree, p) && FlagRight(k'.tree, p) {
      var i :| 0 <= i < |k'.tasks| && k'.tasks[i] == p;
      assert k.tasks[i] in k.tasks;
    }
    PidsKept(k.tasks, k'.tasks);
  }

  lemma {:induction false} ReapedAre(tasks: seq<Task>, pid: int)
    ensures forall p :: p in Reaped(tasks, pid) <==> p in tasks && p.pid != pid
    ensures DistinctPids(tasks) ==> DistinctPids(Reaped(tasks, pid))
  {
    if tasks != [] {
      var init := tasks[..|tasks| - 1];
      ReapedAre(init, pid);
      assert tasks == init + [tasks[|tasks| - 1]];
      if DistinctPids(tasks) {
        forall i | 0 <= i < |Reaped(init, pid)| ensures Reaped(init, pid)[i].pid != tasks[|tasks| - 1].pid {
          assert Reaped(init, pid)[i] in init;
        }
      }
    }
  }

  lemma ReleaseTouches(t: Tree, pid: int)
    requires Descending(t.nodes)
    ensures Touches(t, Release(t, pid), pid) && pid !in Release(t, pid).members
  {
  }

  lemma ReapKeeps(k: Kernel, pid: int)
    requires Inv(k)
    ensures Inv(Kernel(Release(k.tree, pid), Reaped(k.tasks, pid)))
  {
    var k' := Kernel(Release(k.tree, pid), Reaped(k.tasks, pid));
    ReleaseValid(k.tree, pid);
    ReapedAre(k.tasks, pid);
    ReleaseTouches(k.tree, pid);
    OthersKept(k.tree, k'.tree, k.tasks, pid);
    forall m | m in k'.tree.members ensures Exists(k'.tasks, m) {
      var i :| 0 <= i < |k.tasks| && k.tasks[i].pid == m;
      assert k.tasks[i] in k'.tasks;
    }
  }

  lemma SyncKeeps(k: Kernel, s: Tree)
    requires Inv(k) && Synced(k.tree, k.tasks, s)
    ensures Inv(k.(tree := s))
    ensures forall m :: m in s.members && s.members[m].live ==> IsAlive(k.tasks, m)
  {
    forall p | p in k.tasks ensures CountedLive(s, p) && FlagRight(s, p) {
      var i :| 0 <= i < |k.tasks| && k.tasks[i] == p;
      OnlyCountersFrozen(k.tree.nodes, s.nodes, NodeOf(k.tree, p.pid));
    }
  }

  // ---- Moving a process. ----

  /** The list names exactly the group's tasks, each with its own state. */
  lemma {:induction false} MovingLists(tasks: seq<Task>, tgid: int, x: (int, bool))
    ensures x in Moving(tasks, tgid) <==>
            exists i :: 0 <= i < |tasks| && tasks[i].tgid == tgid && x == (tasks[i].pid, !tasks[i].zombie)
  {
    if tasks != [] {
      var init := tasks[..|tasks| - 1];
      MovingLists(init, tgid, x);
      if i :| 0 <= i < |tasks| && tasks[i].tgid == tgid && x == (tasks[i].pid, !tasks[i].zombie) {
        assert i < |init| ==> init[i] == tasks[i];
      }
    }
  }

  /** After `sync_exits` the alive flags agree with the tree. */
  lemma MovingAgrees(k: Kernel, tgid: int, node: nat)
    requires DistinctPids(k.tasks)
    requires forall m :: m in k.tree.members && k.tree.members[m].live ==> IsAlive(k.tasks, m)
    ensures FlagsAgree(k.tree, Moving(k.tasks, tgid), node)
  {
    var list := Moving(k.tasks, tgid);
    forall i | 0 <= i < |list| && CountedElsewhere(k.tree, list[i].0, node) && First(list, i) ensures list[i].1 {
      MovingLists(k.tasks, tgid, list[i]);
      var a :| 0 <= a < |k.tasks| && k.tasks[a].tgid == tgid && list[i] == (k.tasks[a].pid, !k.tasks[a].zombie);
      var b :| 0 <= b < |k.tasks| && k.tasks[b].pid == list[i].0 && !k.tasks[b].zombie;
    }
  }

  /** Without it they may not: a task counted live and listed as dead leaves its cgroup's counter ahead. */
  lemma MigrateWithoutSync()
    ensures
      var t := Boot(1).tree;
      && Descending(t.nodes) && Mkdir(t, ROOT, "a", 0).Ok?
      && var made := Mkdir(t, ROOT, "a", 0).value;
         && Descending(made.nodes)
         && var u := AttachNew(made, 5, 1);
            Valid(u) && !Valid(Migrate(u, [(5, false)], ROOT))
  {
    var t := Boot(1).tree;
    BootInv(1);
    MkdirValid(t, ROOT, "a", 0);
    var made := Mkdir(t, ROOT, "a", 0).value;
    AttachNewValid(made, 5, 1);
    var u := AttachNew(made, 5, 1);
    var tids := [(5, false)];
    assert CountedElsewhere(u, tids[0].0, ROOT) && First(tids, 0);
    MigrateDisagreeing(u, tids, ROOT, 0);
  }

  /** A living task moved stays counted live. */
  lemma {:induction false} MigratedLive(t: Tree, tids: seq<(int, bool)>, node: nat, tid: int)
    requires Descending(t.nodes) && (tid in t.members ==> t.members[tid].live)
    requires forall i :: 0 <= i < |tids| && tids[i].0 == tid ==> tids[i].1
    ensures tid in Migrate(t, tids, node).members ==> Migrate(t, tids, node).members[tid].live
  {
    if tids != [] { MigratedLive(t, tids[..|tids| - 1], node, tid); }
  }

  lemma {:induction false} MigrateSameFlags(t: Tree, tids: seq<(int, bool)>, node: nat)
    requires Descending(t.nodes)
    ensures SameFlags(t.nodes, Migrate(t, tids, node).nodes)
  {
    if tids != [] {
      MigrateSameFlags(t, tids[..|tids| - 1], node);
      MoveTaskSameFlags(Migrate(t, tids[..|tids| - 1], node), tids[|tids| - 1].0, tids[|tids| - 1].1, node);
    }
  }

  lemma MoveTaskSameFlags(t: Tree, tid: int, alive: bool, node: nat)
    requires Descending(t.nodes)
    ensures SameFlags(t.nodes, MoveTask(t, tid, alive, node).nodes)
  {
  }

  /** A task of the group, moved: in `node`, and counted live if alive. */
  lemma MovedTask(t: Tree, tasks: seq<Task>, tgid: int, node: nat, p: Task)
    requires Descending(t.nodes) && DistinctPids(tasks) && CountedLive(t, p) && p in tasks && p.tgid == tgid
    ensures var t' := Migrate(t, Moving(tasks, tgid), node);
            NodeOf(t', p.pid) == node && CountedLive(t', p)
  {
    var list := Moving(tasks, tgid);
    MovingLists(tasks, tgid, (p.pid, !p.zombie));
    Migrated(t, list, node, p.pid);
    if !p.zombie {
      OneEntry(tasks, tgid, p);
      MigratedLive(t, list, node, p.pid);
    }
  }

  /** Every entry of the list with the task's id carries its state; other groups' ids are not in it. */
  lemma OneEntry(tasks: seq<Task>, tgid: int, p: Task)
    requires DistinctPids(tasks) && p in tasks
    ensures forall i :: 0 <= i < |Moving(tasks, tgid)| && Moving(tasks, tgid)[i].0 == p.pid ==>
              p.tgid == tgid && Moving(tasks, tgid)[i].1 == !p.zombie
  {
    var list := Moving(tasks, tgid);
    forall i | 0 <= i < |list| && list[i].0 == p.pid ensures p.tgid == tgid && list[i].1 == !p.zombie {
      MovingLists(tasks, tgid, list[i]);
      var a :| 0 <= a < |tasks| && tasks[a].tgid == tgid && list[i] == (tasks[a].pid, !tasks[a].zombie);
      var b :| 0 <= b < |tasks| && tasks[b] == p;
    }
  }

  /** Any other task: not touched. */
  lemma UnmovedTask(t: Tree, tasks: seq<Task>, tgid: int, node: nat, p: Task)
    requires Descending(t.nodes) && DistinctPids(tasks) && p in tasks && p.tgid != tgid
    requires CountedLive(t, p) && FlagRight(t, p)
    ensures var t' := Migrate(t, Moving(tasks, tgid), node);
            Descending(t'.nodes) && CountedLive(t', p) && FlagRight(t', p)
  {
    var list := Moving(tasks, tgid);
    OneEntry(tasks, tgid, p);
    Migrated(t, list, node, p.pid);
    MigrateSameFlags(t, list, node);
    TaskKept(t, Migrate(t, list, node), p);
  }

  lemma MovedMembers(k: Kernel, tgid: int, node: nat, m: int)
    requires Inv(k) && m in Migrate(k.tree, Moving(k.tasks, tgid), node).members
    ensures Exists(k.tasks, m)
  {
    var list := Moving(k.tasks, tgid);
    Migrated(k.tree, list, node, m);
    if m !in k.tree.members {
      var i :| 0 <= i < |list| && list[i].0 == m;
      MovingLists(k.tasks, tgid, list[i]);
    }
  }

  lemma MoveKeeps(k: Kernel, tgid: int, node: nat)
    requires Inv(k) && node in k.tree.nodes
    requires forall m :: m in k.tree.members && k.tree.members[m].live ==> IsAlive(k.tasks, m)
    ensures Inv(Moved(k, tgid, node))
  {
    var k' := Moved(k, tgid, node);
    MovingAgrees(k, tgid, node);
    MigrateAgreeing(k.tree, Moving(k.tasks, tgid), node);
    forall p' | p' in k'.tasks ensures CountedLive(k'.tree, p') && FlagRight(k'.tree, p') {
      var i :| 0 <= i < |k'.tasks| && k'.tasks[i] == p';
      var p := k.tasks[i];
      if p.tgid == tgid {
        MovedTask(k.tree, k.tasks, tgid, node, p);
      } else {
        UnmovedTask(k.tree, k.tasks, tgid, node, p);
      }
    }
    PidsKept(k.tasks, k'.tasks);
    forall m | m in k'.tree.members ensures Exists(k.tasks, m) {
      MovedMembers(k, tgid, node, m);
    }
  }

  // ---- Freezing, making and removing cgroups. ----

  lemma FreezeKeeps(k: Kernel, node: nat, on: bool)
    requires Inv(k) && node in k.tree.nodes
    ensures Inv(FreezeTasks(k, node, on))
  {
    var k' := FreezeTasks(k, node, on);
    FrozeValid(k.tree, node, on);
    forall p' | p' in k'.tasks ensures CountedLive(k'.tree, p') && FlagRight(k'.tree, p') {
      var i :| 0 <= i < |k'.tasks| && k'.tasks[i] == p';
      var p := k.tasks[i];
      assert p in k.tasks;
      if NodeOf(k.tree, p.pid) !in Below(k.tree.nodes, node) {
        FreezeReaches(k.tree, node, on, NodeOf(k.tree, p.pid));
      }
    }
    PidsKept(k.tasks, k'.tasks);
  }

  lemma MkdirKeeps(k: Kernel, parent: nat, name: string, uid: nat)
    requires Inv(k) && Mkdir(k.tree, parent, name, uid).Ok?
    ensures Inv(k.(tree := Mkdir(k.tree, parent, name, uid).value))
  {
    var t := Mkdir(k.tree, parent, name, uid).value;
    MkdirValid(k.tree, parent, name, uid);
    forall p | p in k.tasks ensures CountedLive(t, p) && FlagRight(t, p) {
      WithNodeFrozen(k.tree, parent, name, uid, NodeOf(k.tree, p.pid));
    }
  }

  /** A cgroup that can be removed has no living task in it. */
  lemma RemovableIsEmpty(k: Kernel, node: nat, p: Task)
    requires Inv(k) && Rmdir(k.tree, node).Ok? && p in k.tasks && !p.zombie
    ensures NodeOf(k.tree, p.pid) != node
  {
    assert ExactAt(k.tree, node) by { assert HasParent(k.tree.nodes, node); }
    var counted := LiveIn(k.tree.members, Below(k.tree.nodes, node));
    assert counted == {};
    assert CountedLive(k.tree, p);
    assert NodeOf(k.tree, p.pid) == node && p.pid in k.tree.members ==> p.pid in counted;
  }

  lemma RmdirKeeps(k: Kernel, node: nat)
    requires Inv(k) && Rmdir(k.tree, node).Ok?
    ensures Inv(k.(tree := Rmdir(k.tree, node).value))
  {
    var t := Rmdir(k.tree, node).value;
    RmdirValid(k.tree, node);
    forall p | p in k.tasks ensures CountedLive(t, p) && FlagRight(t, p) {
      assert CountedLive(k.tree, p) && FlagRight(k.tree, p);
      if !p.zombie {
        RemovableIsEmpty(k, node, p);
        WithoutNodeFrozen(k.tree, node, NodeOf(k.tree, p.pid));
      }
    }
  }

  lemma LimitValid(t: Tree, node: nat, limit: Limit)
    requires Valid(t)
    ensures Valid(Limited(t, node, limit))
  {
    if node in t.nodes {
      var t' := Limited(t, node, limit);
      forall n | n in t.nodes && n != ROOT ensures Counts(t'.nodes[n], t.members, Below(t.nodes, n)) {
        assert ExactAt(t, n);
      }
      ValidSameShape(t, t');
    }
  }

  lemma {:induction false} LimitKeeps(k: Kernel, node: nat, limit: Limit)
    requires Inv(k)
    ensures Inv(k.(tree := Limited(k.tree, node, limit)))
  {
    LimitIsSetting(k.tree, node, limit);
    LimitValid(k.tree, node, limit);
    SettingsKeep(k, Limited(k.tree, node, limit));
  }

  lemma StepKeeps(k: Kernel, op: Op, k': Kernel)
    requires Inv(k) && Next(k, op, k') && (op.AttachOp? ==> op.node in k.tree.nodes)
    ensures Inv(k')
  {
    match op
    case CheckOp(node, explicit) => CheckKeeps(k, node, explicit);
    case AttachOp(pid, tgid, node) => AttachKeeps(k, pid, tgid, node);
    case ExitOp(pid) => ExitKeeps(k, pid);
    case ReapOp(pid) => ReapKeeps(k, pid);
    case SyncOp(s) => SyncKeeps(k, s);
    case MoveOp(tgid, node, s) =>
      SyncKeeps(k, s);
      MoveKeeps(k.(tree := s), tgid, node);
    case FreezeOp(node, on) => FreezeKeeps(k, node, on);
    case MkdirOp(parent, name, uid) =>
      if Mkdir(k.tree, parent, name, uid).Ok? { MkdirKeeps(k, parent, name, uid); }
    case RmdirOp(node) =>
      if Rmdir(k.tree, node).Ok? { RmdirKeeps(k, node); }
    case LimitOp(node, limit) => LimitKeeps(k, node, limit);
  }

  // ---- Runs. ----

  /** The kernel at boot: the root cgroup, and the first task in it. */
  function Boot(pid: int): Kernel {
    Kernel(Tree(map[ROOT := NewNode("", None, 0)], map[], 1, map[]), [Task(pid, pid, false, false, false, false)])
  }

  lemma BootInv(pid: int)
    ensures Inv(Boot(pid))
  {
    assert Frozen(Boot(pid).tree.nodes, ROOT) == false;
  }

  ghost predicate Steps(ks: seq<Kernel>, ops: seq<Op>) {
    && |ks| == |ops| + 1
    && forall i :: 0 <= i < |ops| ==> Shaped(ks[i].tree.nodes) && Next(ks[i], ops[i], ks[i + 1])
  }

  /**
   The attach at `i` follows the check at `j`, which allowed its cgroup. One lock is held
   over both halves of a fork and over every `rmdir`, so no `rmdir` comes between.
   */
  ghost predicate Allowed(ks: seq<Kernel>, ops: seq<Op>, j: nat, i: nat)
    requires Steps(ks, ops) && i < |ops| && ops[i].AttachOp?
  {
    && j < i && ops[j].CheckOp? && ops[j].node == ops[i].node
    && CanFork(ks[j].tree, ops[j].node, ops[j].explicit) == 0
    && forall l :: j < l < i ==> !ops[l].RmdirOp?
  }

  ghost predicate IsRun(ks: seq<Kernel>, ops: seq<Op>, pid: int) {
    && Steps(ks, ops) && ks[0] == Boot(pid)
    && forall i: nat :: i < |ops| && ops[i].AttachOp? ==> exists j: nat :: Allowed(ks, ops, j, i)
  }

  /** Only `rmdir` takes a cgroup away. */
  lemma CgroupStays(k: Kernel, op: Op, k': Kernel, n: nat)
    requires Shaped(k.tree.nodes) && Next(k, op, k') && !op.RmdirOp? && n in k.tree.nodes
    ensures n in k'.tree.nodes
  {
    if op.MoveOp? { MigrateSameFlags(op.synced, Moving(k.tasks, op.tgid), op.node); }
  }

  lemma {:induction false} CgroupStaysOver(ks: seq<Kernel>, ops: seq<Op>, j: nat, i: nat, n: nat)
    requires Steps(ks, ops) && j <= i < |ks| && n in ks[j].tree.nodes
    requires forall l :: j <= l < i ==> !ops[l].RmdirOp?
    ensures n in ks[i].tree.nodes
    decreases i
  {
    if j < i {
      var k := i - 1;
      CgroupStaysOver(ks, ops, j, k, n);
      assert Next(ks[k], ops[k], ks[k + 1]);
      CgroupStays(ks[k], ops[k], ks[i], n);
    }
  }

  /** What a check allowed is there when the task is attached, whatever else has happened. */
  lemma AllowedIsThere(ks: seq<Kernel>, ops: seq<Op>, j: nat, i: nat)
    requires Steps(ks, ops) && i < |ops| && ops[i].AttachOp? && Allowed(ks, ops, j, i)
    ensures ops[i].node in ks[i].tree.nodes
  {
    CgroupStaysOver(ks, ops, j, i, ops[i].node);
  }

  /**
   In every state of every run: each cgroup below the root counts exactly its members
   and its live ones, each live task's flag says whether its cgroup or one above is
   frozen, and no cgroup is called `..`.
   */
  lemma {:induction false} EveryRun(ks: seq<Kernel>, ops: seq<Op>, pid: int, i: nat)
    requires IsRun(ks, ops, pid) && i < |ks|
    ensures Inv(ks[i])
  {
    if i == 0 {
      BootInv(pid);
    } else {
      EveryRun(ks, ops, pid, i - 1);
      if ops[i - 1].AttachOp? {
        var j: nat :| Allowed(ks, ops, j, i - 1);
        AllowedIsThere(ks, ops, j, i - 1);
      }
      StepKeeps(ks[i - 1], ops[i - 1], ks[i]);
    }
  }

  /** After a check that allowed `node`, and any steps but an `rmdir`, a new task can go into it. */
  lemma CheckedForkKeeps(ks: seq<Kernel>, ops: seq<Op>, boot: int, j: nat, i: nat, pid: int, tgid: int)
    requires IsRun(ks, ops, boot) && j < i < |ks| && ops[j].CheckOp?
    requires CanFork(ks[j].tree, ops[j].node, ops[j].explicit) == 0 && !Exists(ks[i].tasks, pid)
    requires forall l :: j < l < i ==> !ops[l].RmdirOp?
    ensures Inv(ks[i]) && Inv(Attached(ks[i], pid, tgid, ops[j].node))
  {
    EveryRun(ks, ops, boot, i);
    CgroupStaysOver(ks, ops, j, i, ops[j].node);
    AttachKeepsIff(ks[i], pid, tgid, ops[j].node);
  }
}
