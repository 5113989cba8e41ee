/**
 The calls of `src/kernel/cgroup.rs` that loop over the task table, as an object
 holding the table next to the shared tree.
 */
module CgroupTasks {
  import opened Errno
  import opened Options
  import opened Cgroups
  import opened CgroupOps
  import opened CgroupShape
  import opened CgroupObject
  import opened CgroupKernel

  /** `r` is the nearest cgroup that both are within. */
  ghost predicate NearestCommon(nodes: Nodes, a: nat, b: nat, r: nat)
    requires Descending(nodes)
  {
    && r in nodes && Within(nodes, a, r) && Within(nodes, b, r)
    && forall c: nat :: Within(nodes, a, c) && Within(nodes, b, c) ==> Within(nodes, r, c)
  }

  lemma NearestIsOne(nodes: Nodes, a: nat, b: nat, r: nat, q: nat)
    requires Shaped(nodes) && NearestCommon(nodes, a, b, r) && NearestCommon(nodes, a, b, q)
    ensures r == q
  {
    WithinExists(nodes, r, q);
    WithinExists(nodes, q, r);
  }

  /** The writer owns the nearest cgroup above both ends of the move. */
  ghost predicate OwnsAbove(nodes: Nodes, from: nat, node: nat, euid: nat)
    requires Descending(nodes)
  {
    exists r :: NearestCommon(nodes, from, node, r) && nodes[r].uid == euid
  }

  /** What a write to `cgroup.procs` answers, exits marked, for a task that is alive. */
  ghost function MoveErrno(t: Tree, target: int, node: nat, thread: bool, nsRoot: nat, privileged: bool, euid: nat): nat
    requires Descending(t.nodes)
  {
    var from := NodeOf(t, target);
    if !Within(t.nodes, node, nsRoot) || !Within(t.nodes, from, nsRoot) then ENOENT
    else if thread then if from == node then 0 else EOPNOTSUPP
    else if CheckAttach(t.nodes, node) != 0 then CheckAttach(t.nodes, node)
    else if !privileged && !OwnsAbove(t.nodes, from, node, euid) then EACCES
    else 0
  }

  /** The kernel's step in such a write, for the living task at index `i`. */
  ghost predicate MoveDone(k: Kernel, i: nat, s: Tree, node: nat, thread: bool, errno: nat, k': Kernel)
    requires Shaped(k.tree.nodes)
  {
    i < |k.tasks| && Next(k, if errno == 0 && !thread then MoveOp(k.tasks[i].tgid, node, s) else SyncOp(s), k')
  }

  lemma DoneMoving(k: Kernel, i: nat, s: Tree, node: nat, k': Kernel)
    requires Shaped(k.tree.nodes) && i < |k.tasks| && Synced(k.tree, k.tasks, s) && node in k.tree.nodes
    requires k' == Moved(k.(tree := s), k.tasks[i].tgid, node)
    ensures MoveDone(k, i, s, node, false, 0, k')
  {
  }

  lemma DoneMarking(k: Kernel, i: nat, s: Tree, node: nat, thread: bool, errno: nat)
    requires Shaped(k.tree.nodes) && i < |k.tasks| && Synced(k.tree, k.tasks, s) && (errno != 0 || thread)
    ensures MoveDone(k, i, s, node, thread, errno, k.(tree := s))
  {
  }

  lemma FrozeSame(t: Tree, node: nat, on: bool)
    ensures SameShape(t.nodes, Froze(t, node, on).nodes)
  {
  }

  lemma FrozeShape(t: Tree, node: nat, on: bool)
    requires Shaped(t.nodes)
    ensures Shaped(Froze(t, node, on).nodes) && Below(Froze(t, node, on).nodes, node) == Below(t.nodes, node)
  {
    FrozeSame(t, node, on);
    SameShapeShaped(t.nodes, Froze(t, node, on).nodes);
    SameBelow(t.nodes, Froze(t, node, on).nodes, node);
  }

  class TaskTable {
    const tree: CgroupTree
    var tasks: seq<Task>

    function K(): Kernel reads this, tree { Kernel(tree.State(), tasks) }

    constructor (tree: CgroupTree, pid: int)
      requires tree.State() == Boot(pid).tree
      ensures this.tree == tree && K() == Boot(pid)
    {
      this.tree := tree;
      tasks := [Task(pid, pid, false, false, false, false)];
    }

    /** Each task outside the root that the tree counts live, once. */
    method LiveMembers() returns (out: seq<int>)
      ensures forall m :: m in out <==> m in tree.members && tree.members[m].live
      ensures forall i, j :: 0 <= i < j < |out| ==> out[i] != out[j]
    {
      var live := set m | m in tree.members && tree.members[m].live;
      out := Enumerate(live);
    }

    /** Whether `pid` names a task that has not exited. */
    method FindAlive(pid: int) returns (at: Option<nat>)
      ensures at.Some? <==> IsAlive(tasks, pid)
      ensures at.Some? ==> at.value < |tasks| && tasks[at.value].pid == pid && !tasks[at.value].zombie
    {
      for i := 0 to |tasks|
        invariant forall j :: 0 <= j < i ==> tasks[j].pid != pid || tasks[j].zombie
      {
        if tasks[i].pid == pid && !tasks[i].zombie { return Some(i); }
      }
      return None;
    }

    /** Mark the tasks that have exited since the tree last looked. */
    method SyncExits()
      requires Valid(tree.State())
      modifies tree`nodes, tree`members
      ensures Synced(old(tree.State()), tasks, tree.State())
    {
      ghost var was := tree.State();
      var tids := LiveMembers();
      for i := 0 to |tids|
        invariant tree.nextId == was.nextId && tree.nsRoots == was.nsRoots
        invariant SyncedUpTo(was, tasks, tids, i, tree.State())
      {
        var at := FindAlive(tids[i]);
        SyncStep(was, tasks, tids, i, tree.State());
        if at.None? { tree.ExitTask(tids[i]); }
      }
      SyncedAll(was, tasks, tids, tree.State());
    }

    /**
     A write to `cgroup.procs` (or `cgroup.threads`, when `thread`): move the process of
     task `target` to `node`. `nsRoot` is the writer's cgroup namespace root.
     */
    method MoveProcess(target: int, node: nat, thread: bool, nsRoot: nat, privileged: bool, euid: nat)
      returns (errno: nat)
      requires Inv(K())
      modifies this`tasks, tree`nodes, tree`members
      ensures Inv(K())
      ensures if !IsAlive(old(tasks), target) then errno == ESRCH && K() == old(K())
              else exists i: nat, s: Tree ::
                  && Descending(s.nodes) && MoveDone(old(K()), i, s, node, thread, errno, K())
                  && old(tasks)[i].pid == target && !old(tasks)[i].zombie
                  && errno == MoveErrno(s, target, node, thread, nsRoot, privileged, euid)
    {
      ghost var was := K();
      var at := FindAlive(target);
      if at.None? { return ESRCH; }
      var tgid := tasks[at.value].tgid;
      SyncExits();
      ghost var s := tree.State();
      SyncKeeps(was, s);
      errno := CheckMove(target, node, thread, nsRoot, privileged, euid);
      assert K() == was.(tree := s);
      if errno == 0 && !thread {
        MoveGroup(tgid, node);
        DoneMoving(was, at.value, s, node, K());
      } else {
        DoneMarking(was, at.value, s, node, thread, errno);
      }
    }

    /** The move itself, exits marked. */
    method MoveGroup(tgid: int, node: nat)
      requires Inv(K()) && node in tree.nodes
      requires forall m :: m in tree.members && tree.members[m].live ==> IsAlive(tasks, m)
      modifies this`tasks, tree`nodes, tree`members
      ensures Inv(K()) && K() == Moved(old(K()), tgid, node)
    {
      ghost var was := K();
      MoveKeeps(was, tgid, node);
      var moving := ListGroup(tgid);
      var frozen := tree.MigrateTasks(moving, node);
      SetFlags(tgid, frozen);
      assert K() == Moved(was, tgid, node);
    }

    /** The checks before the move. */
    method CheckMove(target: int, node: nat, thread: bool, nsRoot: nat, privileged: bool, euid: nat)
      returns (errno: nat)
      requires Valid(tree.State())
      ensures errno == MoveErrno(tree.State(), target, node, thread, nsRoot, privileged, euid)
      ensures errno == 0 && !thread ==> node in tree.nodes
    {
      var from := NodeOf(tree.State(), target);
      var up := tree.ChainOf(node);
      var fromUp := tree.ChainOf(from);
      if nsRoot !in up || nsRoot !in fromUp { return ENOENT; }
      if thread {
        return if from == node then 0 else EOPNOTSUPP;
      }
      errno := CheckAttach(tree.nodes, node);
      if errno != 0 { return; }
      var ancestor := tree.CommonAncestor(from, node);
      WithinExists(tree.nodes, from, ancestor);
      assert NearestCommon(tree.nodes, from, node, ancestor);
      if !privileged && tree.nodes[ancestor].uid != euid {
        forall r | NearestCommon(tree.nodes, from, node, r) ensures r == ancestor {
          NearestIsOne(tree.nodes, from, node, r, ancestor);
        }
        return EACCES;
      }
    }

    method ListGroup(tgid: int) returns (moving: seq<(int, bool)>)
      ensures moving == Moving(tasks, tgid)
    {
      moving := [];
      for i := 0 to |tasks|
        invariant moving == Moving(tasks[..i], tgid)
      {
        assert tasks[..i + 1][..i] == tasks[..i];
        if tasks[i].tgid == tgid { moving := moving + [(tasks[i].pid, !tasks[i].zombie)]; }
      }
      assert tasks[..|tasks|] == tasks;
    }

    method SetFlags(tgid: int, frozen: bool)
      modifies this`tasks
      ensures tasks == WithFlag(old(tasks), tgid, frozen)
    {
      for i := 0 to |tasks|
        invariant |tasks| == |old(tasks)|
        invariant forall j :: 0 <= j < i ==> tasks[j] == WithFlag(old(tasks), tgid, frozen)[j]
        invariant forall j :: i <= j < |tasks| ==> tasks[j] == old(tasks)[j]
      {
        if tasks[i].tgid == tgid { tasks := tasks[i := tasks[i].(frozen := frozen)]; }
      }
    }

    /** A write to `cgroup.freeze`. */
    method FreezeCgroup(node: nat, on: bool)
      requires Inv(K())
      modifies this`tasks, tree`nodes
      ensures Inv(K())
      ensures if node in old(tree.nodes) && old(tree.nodes)[node].freeze != on
              then Next(old(K()), FreezeOp(node, on), K()) else K() == old(K())
    {
      ghost var was := K();
      FrozeShape(was.tree, node, on);
      if node in tree.nodes { FreezeKeeps(was, node, on); }
      var changed := tree.SetFreeze(node, on);
      if !changed { return; }
      var below := tree.SubtreeOf(node);
      RefreezeTasks(below, node, was.tree);
      assert K() == FreezeTasks(was, node, on);
    }

    /** Recompute the flag of every task in one of the cgroups `below`. */
    method RefreezeTasks(below: seq<nat>, ghost node: nat, ghost was: Tree)
      requires Descending(was.nodes) && Descending(tree.nodes) && tree.members == was.members
      requires forall n :: n in below <==> n in Below(was.nodes, node)
      modifies this`tasks
      ensures |tasks| == |old(tasks)|
      ensures forall j :: 0 <= j < |tasks| ==> tasks[j] == Refrozen(was, tree.State(), old(tasks)[j], node)
    {
      for i := 0 to |tasks|
        invariant |tasks| == |old(tasks)|
        invariant forall j :: 0 <= j < i ==> tasks[j] == Refrozen(was, tree.State(), old(tasks)[j], node)
        invariant forall j :: i <= j < |tasks| ==> tasks[j] == old(tasks)[j]
      {
        var n := NodeOf(tree.State(), tasks[i].pid);
        if n in below {
          var frozen := tree.FrozenAt(n);
          tasks := tasks[i := tasks[i].(frozen := frozen, parked := false)];
        }
      }
    }

    /** A write of `1` to `cgroup.kill`: exactly the living tasks at or below are doomed and woken. */
    method KillCgroup(node: nat)
      requires Shaped(tree.nodes) && node in tree.nodes
      modifies this`tasks
      ensures |tasks| == |old(tasks)|
      ensures forall i :: 0 <= i < |tasks| ==> tasks[i] == AfterKill(tree.State(), old(tasks)[i], node)
    {
      var doomed := tree.SubtreeOf(node);
      for i := 0 to |tasks|
        invariant |tasks| == |old(tasks)|
        invariant forall j :: 0 <= j < i ==> tasks[j] == AfterKill(tree.State(), old(tasks)[j], node)
        invariant forall j :: i <= j < |tasks| ==> tasks[j] == old(tasks)[j]
      {
        if !tasks[i].zombie && NodeOf(tree.State(), tasks[i].pid) in doomed {
          tasks := tasks[i := tasks[i].(killed := true, parked := false)];
        }
      }
    }
  }

  ghost function AfterKill(t: Tree, p: Task, node: nat): Task
    requires Descending(t.nodes)
  {
    if !p.zombie && NodeOf(t, p.pid) in Below(t.nodes, node) then p.(killed := true, parked := false) else p
  }

  /** A finite set as a list without repetition, in some order. */
  method Enumerate<T(==)>(s: set<T>) returns (out: seq<T>)
    ensures forall x :: x in out <==> x in s
    ensures forall i, j :: 0 <= i < j < |out| ==> out[i] != out[j]
  {
    out := [];
    var todo := s;
    while todo != {}
      invariant todo <= s
      invariant forall x :: x in out <==> x in s && x !in todo
      invariant forall i, j :: 0 <= i < j < |out| ==> out[i] != out[j]
      decreases todo
    {
      var x :| x in todo;
      out := out + [x];
      todo := todo - {x};
    }
  }

  /** The first `i` of the list are marked where their task is not alive. */
  ghost predicate MarkedUpTo(was: map<int, Member>, tasks: seq<Task>, tids: seq<int>, i: nat, now: map<int, Member>)
    requires i <= |tids|
  {
    && now.Keys == was.Keys
    && forall m :: m in was ==> now[m] == was[m].(live := was[m].live && (IsAlive(tasks, m) || m !in tids[..i]))
  }

  lemma MarkedStep(was: map<int, Member>, tasks: seq<Task>, tids: seq<int>, i: nat, now: map<int, Member>)
    requires i < |tids| && MarkedUpTo(was, tasks, tids, i, now) && tids[i] in was
    ensures MarkedUpTo(was, tasks, tids, i + 1,
                       if IsAlive(tasks, tids[i]) then now else now[tids[i] := now[tids[i]].(live := false)])
  {
    assert tids[..i + 1] == tids[..i] + [tids[i]];
  }

  ghost predicate SyncedUpTo(was: Tree, tasks: seq<Task>, tids: seq<int>, i: nat, now: Tree)
    requires i <= |tids|
  {
    Valid(now) && OnlyCounters(was.nodes, now.nodes) && MarkedUpTo(was.members, tasks, tids, i, now.members)
  }

  lemma SyncStep(was: Tree, tasks: seq<Task>, tids: seq<int>, i: nat, now: Tree)
    requires i < |tids| && SyncedUpTo(was, tasks, tids, i, now) && tids[i] in was.members
    ensures SyncedUpTo(was, tasks, tids, i + 1, if IsAlive(tasks, tids[i]) then now else Exit(now, tids[i]))
  {
    MarkedStep(was.members, tasks, tids, i, now.members);
    if !IsAlive(tasks, tids[i]) {
      ExitValid(now, tids[i]);
      ExitOnlyCounters(now, tids[i]);
      OnlyCountersJoin(was.nodes, now.nodes, Exit(now, tids[i]).nodes);
      ExitMarks(now, tids[i]);
    }
  }

  lemma ExitMarks(t: Tree, tid: int)
    requires Descending(t.nodes) && tid in t.members
    ensures Exit(t, tid).members == t.members[tid := t.members[tid].(live := false)]
  {
    assert !t.members[tid].live ==> t.members[tid := t.members[tid].(live := false)] == t.members;
  }

  lemma SyncedAll(was: Tree, tasks: seq<Task>, tids: seq<int>, now: Tree)
    requires SyncedUpTo(was, tasks, tids, |tids|, now) && now.nextId == was.nextId && now.nsRoots == was.nsRoots
    requires forall m :: m in tids <==> m in was.members && was.members[m].live
    ensures Synced(was, tasks, now)
  {
    assert tids[..|tids|] == tids;
    forall m | m in was.members
      ensures now.members[m] == was.members[m].(live := was.members[m].live && IsAlive(tasks, m))
    {
      assert m in tids <==> was.members[m].live;
    }
  }

  lemma ExitOnlyCounters(t: Tree, tid: int)
    requires Descending(t.nodes)
    ensures OnlyCounters(t.nodes, Exit(t, tid).nodes)
  {
  }

  lemma OnlyCountersJoin(a: Nodes, b: Nodes, c: Nodes)
    requires OnlyCounters(a, b) && OnlyCounters(b, c)
    ensures OnlyCounters(a, c)
  {
  }
}
