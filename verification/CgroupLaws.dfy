/**
 What the operations on the cgroup hierarchy answer and leave, told by the tasks that are
 in each cgroup rather than by its counters, with the error numbers spelled out.
 */
module CgroupLaws {
  import opened Options
  import opened Cgroups
  import opened CgroupShape
  import opened CgroupOps
  import opened CgroupTasks

  /** A task that has not exited is in `n` or below it. */
  ghost predicate Populated(t: Tree, n: nat)
    requires Descending(t.nodes)
  {
    exists m :: m in t.members && t.members[m].live && Within(t.nodes, t.members[m].node, n)
  }

  /** The tasks that are in `n` or below it, exited ones not yet reaped among them. */
  function TasksWithin(t: Tree, n: nat): set<int>
    requires Descending(t.nodes)
  {
    set m | m in t.members && Within(t.nodes, t.members[m].node, n)
  }

  ghost predicate IsParent(nodes: Nodes, n: nat) {
    exists c :: c in nodes && nodes[c].parent == Some(n)
  }

  // What the counters come to.

  lemma TasksAreMembers(t: Tree, n: nat)
    requires Descending(t.nodes) && forall m :: m in t.members ==> t.members[m].node in t.nodes
    ensures TasksWithin(t, n) == MembersIn(t.members, Below(t.nodes, n))
  {
    forall m ensures m in TasksWithin(t, n) <==> m in MembersIn(t.members, Below(t.nodes, n)) {
    }
  }

  lemma LiveAreSome(t: Tree, n: nat)
    requires Descending(t.nodes) && forall m :: m in t.members ==> t.members[m].node in t.nodes
    ensures LiveIn(t.members, Below(t.nodes, n)) != {} <==> Populated(t, n)
  {
    var live := LiveIn(t.members, Below(t.nodes, n));
    forall m ensures m in live ==> Populated(t, n) {
      if m in live { assert Within(t.nodes, t.members[m].node, n); }
    }
    assert !Populated(t, n) ==> live == {};
    if Populated(t, n) {
      var m :| m in t.members && t.members[m].live && Within(t.nodes, t.members[m].node, n);
      assert m in live;
    }
  }

  lemma LiveIsPopulated(t: Tree, n: nat)
    requires Valid(t) && n in t.nodes && n != ROOT
    ensures t.nodes[n].live > 0 <==> Populated(t, n)
    ensures t.nodes[n].tasks == |TasksWithin(t, n)|
  {
    assert ExactAt(t, n);
    TasksAreMembers(t, n);
    LiveAreSome(t, n);
  }

  lemma ChildlessIsNoParent(nodes: Nodes, n: nat)
    requires Shaped(nodes) && n in nodes
    ensures nodes[n].children == map[] <==> !IsParent(nodes, n)
  {
    if c :| c in nodes && nodes[c].parent == Some(n) {
      assert HasParent(nodes, c);
    }
    if nodes[n].children != map[] {
      var s :| s in nodes[n].children;
      assert HasChild(nodes, n, s);
    }
  }

  /** Below a cgroup without children there is only itself. */
  lemma OnlyItself(t: Tree, n: nat)
    requires Valid(t) && n in t.nodes && t.nodes[n].children == map[]
    ensures Populated(t, n) <==> exists m :: m in t.members && t.members[m].live && t.members[m].node == n
  {
    forall x | x in t.nodes && x != n ensures !Within(t.nodes, x, n) {
      LeafUnreached(t.nodes, n, x);
    }
  }

  // rmdir.

  ghost predicate HasLiveTask(t: Tree, n: nat) {
    exists m :: m in t.members && t.members[m].live && t.members[m].node == n
  }

  /** A cgroup can be removed if and only if it is there, is not the root, is no parent and has no living task. */
  lemma RmdirAnswers(t: Tree, node: nat)
    requires Valid(t)
    ensures Rmdir(t, node).Ok? <==>
            node in t.nodes && node != ROOT && !IsParent(t.nodes, node) && !HasLiveTask(t, node)
    ensures Rmdir(t, node).Err? ==> Rmdir(t, node).errno == if node in t.nodes then 16 else 2
  {
    if node in t.nodes {
      assert HasParent(t.nodes, node);
      ChildlessIsNoParent(t.nodes, node);
      if node != ROOT && t.nodes[node].children == map[] {
        LiveIsPopulated(t, node);
        OnlyItself(t, node);
      }
    }
  }

  /**
   And then: it is gone, its tasks, all of them dead, are in its parent, every other task
   is where it was, and of the other cgroups only the parent's list of children changes.
   */
  lemma RmdirLeaves(t: Tree, node: nat)
    requires Valid(t) && Rmdir(t, node).Ok?
    ensures var was, now := t.members, Rmdir(t, node).value.members;
      && now.Keys == was.Keys
      && forall m :: m in was ==>
           if was[m].node == node then now[m].node == t.nodes[node].parent.value && !now[m].live && !was[m].live
           else now[m] == was[m]
    ensures var was, now := t.nodes, Rmdir(t, node).value.nodes;
      && now.Keys == was.Keys - {node}
      && forall n :: n in now ==> now[n] == was[n].(children := now[n].children)
    ensures var was, now := t.nodes, Rmdir(t, node).value.nodes;
      forall n, s :: n in now ==>
        (s in now[n].children <==> s in was[n].children && was[n].children[s] != node)
        && (s in now[n].children ==> now[n].children[s] == was[n].children[s])
    ensures Rmdir(t, node).value.nextId == t.nextId
    ensures var was, now := t.nsRoots, Rmdir(t, node).value.nsRoots;
      forall ns :: (ns in now <==> ns in was && was[ns] != node) && (ns in now ==> now[ns] == was[ns])
  {
    RmdirAnswers(t, node);
    assert HasParent(t.nodes, node);
    var was, now := t.nodes, Rmdir(t, node).value.nodes;
    forall n, s | n in now
      ensures (s in now[n].children <==> s in was[n].children && was[n].children[s] != node)
              && (s in now[n].children ==> now[n].children[s] == was[n].children[s])
    {
      assert HasChild(was, n, s);
    }
  }

  // mkdir.

  ghost predicate HasNamed(nodes: Nodes, parent: nat, name: string) {
    exists c :: c in nodes && nodes[c].parent == Some(parent) && nodes[c].name == name
  }

  lemma NamedIsListed(nodes: Nodes, parent: nat, name: string)
    requires Shaped(nodes) && parent in nodes
    ensures name in nodes[parent].children <==> HasNamed(nodes, parent, name)
  {
    assert HasChild(nodes, parent, name);
    if c :| c in nodes && nodes[c].parent == Some(parent) && nodes[c].name == name {
      assert HasParent(nodes, c);
    }
  }

  /** A cgroup at or above `parent` that allows no more below it, or none so deep. */
  ghost predicate Limits(nodes: Nodes, parent: nat, n: nat)
    requires Descending(nodes)
  {
    && n in nodes && Within(nodes, parent, n)
    && ((nodes[n].maxDescendants.Some? && |Below(nodes, n)| > nodes[n].maxDescendants.value)
        || (nodes[n].maxDepth.Some? && |Chain(nodes, parent)| - |Chain(nodes, n)| + 1 > nodes[n].maxDepth.value))
  }

  lemma MkdirAnswers(t: Tree, parent: nat, name: string, uid: nat)
    requires Valid(t)
    ensures Mkdir(t, parent, name, uid).Ok? <==>
            && parent in t.nodes && !HasNamed(t.nodes, parent, name) && !HasFile(t.nodes, parent, name)
            && '\n' !in name && name != "." && name != ".." && !exists n :: Limits(t.nodes, parent, n)
    ensures Mkdir(t, parent, name, uid).Err? ==>
              Mkdir(t, parent, name, uid).errno ==
                if parent !in t.nodes then 2
                else if HasNamed(t.nodes, parent, name) || HasFile(t.nodes, parent, name) then 17
                else if '\n' in name || name == "." || name == ".." then 22 else 11
  {
    if parent in t.nodes {
      NamedIsListed(t.nodes, parent, name);
      forall n ensures Limits(t.nodes, parent, n) <==>
                       n in t.nodes && Within(t.nodes, parent, n) && OverLimit(t.nodes, parent, n) {
      }
    }
  }

  /** The new cgroup has a number of its own, this name and owner, no limit and no task; nothing else changes. */
  lemma MkdirMakes(t: Tree, parent: nat, name: string, uid: nat)
    requires Valid(t) && Mkdir(t, parent, name, uid).Ok?
    ensures var now := Mkdir(t, parent, name, uid).value;
      && now.nodes.Keys == t.nodes.Keys + {t.nextId} && t.nextId !in t.nodes && now.nextId == t.nextId + 1
      && var x := now.nodes[t.nextId];
         && x.name == name && x.parent == Some(parent) && x.uid == uid && x.children == map[] && x.pidsMax.None?
         && x.maxDepth.None? && x.maxDescendants.None? && !x.freeze && !x.pidsBelow && x.tasks == x.live == 0
         && x.pidsEvents == 0
    ensures var now := Mkdir(t, parent, name, uid).value;
      && now.members == t.members && now.nsRoots == t.nsRoots
      && forall n :: n in t.nodes ==>
           now.nodes[n] == if n == parent then t.nodes[n].(children := t.nodes[n].children[name := t.nextId])
                           else t.nodes[n]
  {
  }

  // Putting tasks in.

  ghost predicate HasPopulatedBelow(t: Tree, node: nat)
    requires Descending(t.nodes)
  {
    exists c :: c in t.nodes && t.nodes[c].parent == Some(node) && Populated(t, c)
  }

  lemma PopulatedChild(t: Tree, node: nat)
    requires Valid(t) && node in t.nodes
    ensures HasPopulatedChild(t.nodes, node) <==> HasPopulatedBelow(t, node)
  {
    forall s | s in t.nodes[node].children
      ensures var c := t.nodes[node].children[s];
        c in t.nodes && t.nodes[c].parent == Some(node) && (t.nodes[c].live > 0 <==> Populated(t, c))
    {
      assert HasChild(t.nodes, node, s);
      LiveIsPopulated(t, t.nodes[node].children[s]);
    }
    if c :| c in t.nodes && t.nodes[c].parent == Some(node) && Populated(t, c) {
      assert HasParent(t.nodes, c);
      assert t.nodes[c].name in t.nodes[node].children;
    }
  }

  /** A cgroup that hands the controller down takes no task while something below it is populated. */
  lemma AttachAnswers(t: Tree, node: nat)
    requires Valid(t)
    ensures CheckAttach(t.nodes, node) ==
            if node !in t.nodes then 2
            else if node != ROOT && t.nodes[node].pidsBelow && HasPopulatedBelow(t, node) then 16
            else 0
  {
    if node in t.nodes { PopulatedChild(t, node); }
  }

  /** One task more than `pids.max` allows. */
  ghost predicate NoRoom(t: Tree, node: nat, n: nat)
    requires Descending(t.nodes)
  {
    && n in t.nodes && Within(t.nodes, node, n) && t.nodes[n].pidsMax.Some?
    && (if n == ROOT then t.nodes[n].tasks else |TasksWithin(t, n)|) >= t.nodes[n].pidsMax.value
  }

  /** `fork`: refused for want of room if and only if some cgroup on the way up has none. */
  lemma ForkAnswers(t: Tree, parent: int, tid: int, into: Option<nat>)
    requires Valid(t)
    ensures var node := if into.Some? then into.value else NodeOf(t, parent);
      Fork(t, parent, tid, into).1 ==
        if node !in t.nodes then 2
        else if into.Some? && node != ROOT && t.nodes[node].pidsBelow && HasPopulatedBelow(t, node) then 16
        else if exists n :: NoRoom(t, node, n) then 11
        else 0
  {
    var node := if into.Some? then into.value else NodeOf(t, parent);
    AttachAnswers(t, node);
    if node in t.nodes {
      FirstFullIsNearest(t.nodes, node);
      forall n | n in t.nodes && Within(t.nodes, node, n) ensures Full(t.nodes[n]) <==> NoRoom(t, node, n) {
        if n != ROOT { LiveIsPopulated(t, n); }
      }
    }
  }

  /** A fork that succeeds makes the new task a living member of the cgroup, and moves nobody. */
  lemma ForkPuts(t: Tree, parent: int, tid: int, into: Option<nat>)
    requires Valid(t) && tid !in t.members && Fork(t, parent, tid, into).1 == 0
    ensures var now := Fork(t, parent, tid, into).0;
      && NodeOf(now, tid) == (if into.Some? then into.value else NodeOf(t, parent))
      && (tid in now.members ==> now.members[tid].live)
      && forall m :: m != tid ==>
           (m in now.members <==> m in t.members) && (m in t.members ==> now.members[m] == t.members[m])
  {
  }

  /** A write to `cgroup.procs`. */
  lemma MoveAnswers(t: Tree, target: int, node: nat, thread: bool, nsRoot: nat, privileged: bool, euid: nat)
    requires Valid(t)
    ensures var from := NodeOf(t, target);
      MoveErrno(t, target, node, thread, nsRoot, privileged, euid) ==
        if !Within(t.nodes, node, nsRoot) || !Within(t.nodes, from, nsRoot) then 2
        else if thread then if from == node then 0 else 95
        else if node !in t.nodes then 2
        else if node != ROOT && t.nodes[node].pidsBelow && HasPopulatedBelow(t, node) then 16
        else if !privileged && !OwnsAbove(t.nodes, from, node, euid) then 13
        else 0
  {
    AttachAnswers(t, node);
  }

  // Freezing.

  /** Freezing a cgroup freezes it and all below; thawing leaves frozen what another cgroup above freezes. */
  lemma FreezeSets(t: Tree, node: nat, on: bool, x: nat)
    requires Shaped(t.nodes) && node in t.nodes && x in t.nodes
    ensures Descending(Froze(t, node, on).nodes)
    ensures Frozen(Froze(t, node, on).nodes, x) <==>
            || (on && Within(t.nodes, x, node))
            || exists a :: a in t.nodes && a != node && Within(t.nodes, x, a) && t.nodes[a].freeze
  {
    var now := Froze(t, node, on).nodes;
    FrozeSame(t, node, on);
    forall a ensures Descending(now) && Within(now, x, a) == Within(t.nodes, x, a) {
      SameWithin(t.nodes, now, x, a);
    }
    if on && Within(t.nodes, x, node) { assert now[node].freeze; }
    if a :| a in t.nodes && a != node && Within(t.nodes, x, a) && t.nodes[a].freeze {
      assert now[a].freeze;
    }
  }
}
