/**
 Making and removing cgroups, and what the walks up and down agree on
 (`src/fs/cgroupfs.rs`).
 */
module CgroupShape {
  import opened Errno
  import opened Options
  import opened Cgroups

  // ---- rmdir. ----

  /** The hierarchy without the leaf `node`, its members now in its parent. */
  function WithoutNode(t: Tree, node: nat): Tree
    requires node in t.nodes && t.nodes[node].parent.Some?
  {
    var parent, name := t.nodes[node].parent.value, t.nodes[node].name;
    Tree(
      map n | n in t.nodes && n != node ::
        if n == parent then t.nodes[n].(children := t.nodes[n].children - {name}) else t.nodes[n],
      map m | m in t.members ::
        if t.members[m].node == node then t.members[m].(node := parent) else t.members[m],
      t.nextId,
      map ns | ns in t.nsRoots && t.nsRoots[ns] != node :: t.nsRoots[ns])
  }

  function Rmdir(t: Tree, node: nat): Result<Tree> {
    if node !in t.nodes then Err(ENOENT)
    else if t.nodes[node].parent.None? then Err(EBUSY)
    else if t.nodes[node].children != map[] || t.nodes[node].live > 0 then Err(EBUSY)
    else Ok(WithoutNode(t, node))
  }

  /** Nothing has a childless cgroup for parent. */
  lemma LeafIsNoParent(nodes: Nodes, node: nat, n: nat)
    requires Shaped(nodes) && node in nodes && nodes[node].children == map[] && n in nodes
    ensures nodes[n].parent != Some(node)
  {
    assert HasParent(nodes, n);
  }

  lemma WithoutNodeShaped(t: Tree, node: nat)
    requires Shaped(t.nodes) && node in t.nodes && node != ROOT && t.nodes[node].children == map[]
    requires t.nodes[node].parent.Some?
    ensures Shaped(WithoutNode(t, node).nodes)
  {
    var nodes, nodes' := t.nodes, WithoutNode(t, node).nodes;
    assert HasParent(nodes, node);
    forall n ensures HasParent(nodes', n) {
      assert HasParent(nodes, n);
      if n in nodes' { LeafIsNoParent(nodes, node, n); }
    }
    forall n, s ensures HasChild(nodes', n, s) {
      assert HasChild(nodes, n, s);
    }
  }

  lemma {:induction false} WithoutNodeWithin(t: Tree, node: nat, x: nat, n: nat)
    requires Shaped(t.nodes) && node in t.nodes && node != ROOT && t.nodes[node].children == map[]
    requires t.nodes[node].parent.Some? && x in t.nodes && x != node
    ensures Descending(WithoutNode(t, node).nodes)
    ensures Within(WithoutNode(t, node).nodes, x, n) == Within(t.nodes, x, n)
    decreases x
  {
    WithoutNodeShaped(t, node);
    assert HasParent(t.nodes, x);
    if x != n && x != ROOT {
      LeafIsNoParent(t.nodes, node, x);
      WithoutNodeWithin(t, node, t.nodes[x].parent.value, n);
    }
  }

  /** The counts of every cgroup left stay: its zombies were counted in the parent already. */
  lemma WithoutNodeCounts(t: Tree, node: nat, n: nat)
    requires Shaped(t.nodes) && node in t.nodes && node != ROOT && t.nodes[node].children == map[]
    requires t.nodes[node].parent.Some? && n in t.nodes && n != node
    requires forall m :: m in t.members ==> t.members[m].node in t.nodes
    ensures Descending(WithoutNode(t, node).nodes)
    ensures var t' := WithoutNode(t, node);
            && MembersIn(t'.members, Below(t'.nodes, n)) == MembersIn(t.members, Below(t.nodes, n))
            && LiveIn(t'.members, Below(t'.nodes, n)) == LiveIn(t.members, Below(t.nodes, n))
  {
    var t' := WithoutNode(t, node);
    WithoutNodeShaped(t, node);
    assert HasParent(t.nodes, node);
    var p := t.nodes[node].parent.value;
    assert node in Below(t.nodes, n) <==> p in Below(t.nodes, n);
    forall x | x in t'.nodes ensures x in Below(t'.nodes, n) <==> x in Below(t.nodes, n) {
      WithoutNodeWithin(t, node, x, n);
    }
    forall m | m in t.members
      ensures t'.members[m].node in Below(t'.nodes, n) <==> t.members[m].node in Below(t.nodes, n)
    {
    }
  }

  lemma RmdirValid(t: Tree, node: nat)
    requires Valid(t) && Rmdir(t, node).Ok?
    ensures Valid(Rmdir(t, node).value)
  {
    var t' := WithoutNode(t, node);
    assert HasParent(t.nodes, node);
    WithoutNodeShaped(t, node);
    var counted := LiveIn(t.members, Below(t.nodes, node));
    assert ExactAt(t, node) && counted == {};
    assert forall m :: m in t.members && t.members[m].node == node && t.members[m].live ==> m in counted;
    forall n | n in t'.nodes && n != ROOT ensures ExactAt(t', n) {
      assert ExactAt(t, n);
      WithoutNodeCounts(t, node, n);
    }
  }

  // ---- mkdir. ----

  const CORE_FILES: set<string> := {
    "cgroup.controllers", "cgroup.events", "cgroup.freeze", "cgroup.kill", "cgroup.max.depth",
    "cgroup.max.descendants", "cgroup.procs", "cgroup.stat", "cgroup.subtree_control", "cgroup.threads",
    "cgroup.type", "cpu.stat"}

  const NOT_AT_ROOT: set<string> := {"cgroup.events", "cgroup.freeze", "cgroup.kill", "cgroup.type"}

  const PIDS_FILES: set<string> := {"pids.current", "pids.events", "pids.max"}

  /** The interface files `node` has. */
  predicate HasFile(nodes: Nodes, node: nat, name: string) {
    || (name in CORE_FILES && (node != ROOT || name !in NOT_AT_ROOT))
    || (name in PIDS_FILES && node in nodes && nodes[node].parent.Some? && nodes[node].parent.value in nodes
        && nodes[nodes[node].parent.value].pidsBelow)
  }

  function Depth(nodes: Nodes, n: nat): nat
    requires Descending(nodes)
  {
    |Chain(nodes, n)| - 1
  }

  /** How many cgroups there are strictly below `n`. */
  function Descendants(nodes: Nodes, n: nat): int
    requires Descending(nodes)
  {
    |Below(nodes, n)| - 1
  }

  /** A new cgroup in `parent` breaks a limit `n` has on depth or number below it. */
  predicate OverLimit(nodes: Nodes, parent: nat, n: nat)
    requires Descending(nodes) && n in nodes
  {
    || (nodes[n].maxDepth.Some? && Depth(nodes, parent) + 1 - Depth(nodes, n) > nodes[n].maxDepth.value)
    || (nodes[n].maxDescendants.Some? && Descendants(nodes, n) + 1 > nodes[n].maxDescendants.value)
  }

  function WithNode(t: Tree, parent: nat, name: string, uid: nat): Tree
    requires parent in t.nodes
  {
    t.(nodes := t.nodes[t.nextId := NewNode(name, Some(parent), uid)]
                [parent := t.nodes[parent].(children := t.nodes[parent].children[name := t.nextId])],
       nextId := t.nextId + 1)
  }

  ghost function Mkdir(t: Tree, parent: nat, name: string, uid: nat): Result<Tree>
    requires Descending(t.nodes)
  {
    if parent !in t.nodes then Err(ENOENT)
    else if name in t.nodes[parent].children || HasFile(t.nodes, parent, name) then Err(EEXIST)
    else if '\n' in name || name == "." || name == ".." then Err(EINVAL)
    else if exists n :: n in t.nodes && Within(t.nodes, parent, n) && OverLimit(t.nodes, parent, n) then Err(EAGAIN)
    else Ok(WithNode(t, parent, name, uid))
  }

  lemma WithNodeShaped(t: Tree, parent: nat, name: string, uid: nat)
    requires Shaped(t.nodes) && parent in t.nodes && name !in t.nodes[parent].children
    requires forall n :: n in t.nodes ==> n < t.nextId
    ensures Shaped(WithNode(t, parent, name, uid).nodes)
  {
    var nodes, nodes' := t.nodes, WithNode(t, parent, name, uid).nodes;
    forall n ensures HasParent(nodes', n) {
      assert HasParent(nodes, n);
    }
    forall n, s ensures HasChild(nodes', n, s) {
      assert HasChild(nodes, n, s);
    }
  }

  lemma {:induction false} WithNodeWithin(t: Tree, parent: nat, name: string, uid: nat, x: nat, n: nat)
    requires Shaped(t.nodes) && parent in t.nodes && name !in t.nodes[parent].children && x in t.nodes
    requires forall k :: k in t.nodes ==> k < t.nextId
    ensures Descending(WithNode(t, parent, name, uid).nodes)
    ensures Within(WithNode(t, parent, name, uid).nodes, x, n) == Within(t.nodes, x, n)
    ensures Within(t.nodes, x, n) ==> n != t.nextId
    decreases x
  {
    WithNodeShaped(t, parent, name, uid);
    assert HasParent(t.nodes, x);
    if x != n && x != ROOT {
      WithNodeWithin(t, parent, name, uid, t.nodes[x].parent.value, n);
    }
  }

  /** The cgroups below each other cgroup: the new one too, where its parent is. */
  lemma WithNodeBelow(t: Tree, parent: nat, name: string, uid: nat, n: nat)
    requires Shaped(t.nodes) && parent in t.nodes && name !in t.nodes[parent].children
    requires forall k :: k in t.nodes ==> k < t.nextId
    ensures Descending(WithNode(t, parent, name, uid).nodes)
    ensures Below(WithNode(t, parent, name, uid).nodes, n) ==
            Below(t.nodes, n) + (if n == t.nextId || parent in Below(t.nodes, n) then {t.nextId} else {})
    ensures t.nextId !in Below(t.nodes, n) && Below(t.nodes, t.nextId) == {}
  {
    var t' := WithNode(t, parent, name, uid);
    WithNodeShaped(t, parent, name, uid);
    forall x | x in t.nodes ensures x in Below(t'.nodes, n) <==> x in Below(t.nodes, n) {
      WithNodeWithin(t, parent, name, uid, x, n);
    }
    forall x | x in t.nodes ensures x !in Below(t.nodes, t.nextId) {
      WithNodeWithin(t, parent, name, uid, x, t.nextId);
    }
    WithNodeWithin(t, parent, name, uid, parent, n);
  }

  /** No member is in the new cgroup, so no count changes. */
  lemma WithNodeCounts(t: Tree, parent: nat, name: string, uid: nat, n: nat)
    requires Valid(t) && parent in t.nodes && name !in t.nodes[parent].children
    requires n == t.nextId || (n in t.nodes && n != ROOT)
    ensures var t' := WithNode(t, parent, name, uid);
            Descending(t'.nodes) && Counts(t'.nodes[n], t.members, Below(t'.nodes, n))
  {
    var t' := WithNode(t, parent, name, uid);
    WithNodeBelow(t, parent, name, uid, n);
    if n != t.nextId { assert ExactAt(t, n); }
    NoneThere(t.members, Below(t.nodes, n), t.nextId);
    assert Below(t'.nodes, n) == Below(t.nodes, n) || Below(t'.nodes, n) == Below(t.nodes, n) + {t.nextId};
    if n == t.nextId { assert MembersIn(t.members, {}) == {} && LiveIn(t.members, {}) == {}; }
  }

  lemma NoneThere(ms: map<int, Member>, s: set<nat>, id: nat)
    requires forall m :: m in ms ==> ms[m].node != id
    ensures MembersIn(ms, s + {id}) == MembersIn(ms, s) && LiveIn(ms, s + {id}) == LiveIn(ms, s)
  {
    forall m | m in ms ensures ms[m].node in s + {id} <==> ms[m].node in s {
    }
  }

  lemma WithNodeValid(t: Tree, parent: nat, name: string, uid: nat)
    requires Valid(t) && parent in t.nodes && name !in t.nodes[parent].children
    ensures Valid(WithNode(t, parent, name, uid))
  {
    var t' := WithNode(t, parent, name, uid);
    WithNodeShaped(t, parent, name, uid);
    forall n | n in t'.nodes && n != ROOT ensures ExactAt(t', n) {
      WithNodeCounts(t, parent, name, uid, n);
    }
  }

  lemma MkdirValid(t: Tree, parent: nat, name: string, uid: nat)
    requires Valid(t) && Mkdir(t, parent, name, uid).Ok?
    ensures Valid(Mkdir(t, parent, name, uid).value)
  {
    WithNodeValid(t, parent, name, uid);
  }

  lemma {:induction false} WithNodeChain(t: Tree, parent: nat, name: string, uid: nat, x: nat)
    requires Shaped(t.nodes) && parent in t.nodes && name !in t.nodes[parent].children && x in t.nodes
    requires forall k :: k in t.nodes ==> k < t.nextId
    ensures Descending(WithNode(t, parent, name, uid).nodes)
    ensures Chain(WithNode(t, parent, name, uid).nodes, x) == Chain(t.nodes, x)
    decreases x
  {
    WithNodeShaped(t, parent, name, uid);
    assert HasParent(t.nodes, x);
    if x != ROOT { WithNodeChain(t, parent, name, uid, t.nodes[x].parent.value); }
  }

  /** A cgroup that could be made leaves every ancestor within its limits on number and depth below it. */
  lemma MkdirRespectsLimits(t: Tree, parent: nat, name: string, uid: nat, n: nat)
    requires Valid(t) && Mkdir(t, parent, name, uid).Ok? && n in t.nodes && Within(t.nodes, parent, n)
    ensures var t' := Mkdir(t, parent, name, uid).value;
            && Descending(t'.nodes)
            && (t.nodes[n].maxDescendants.Some? ==> Descendants(t'.nodes, n) <= t.nodes[n].maxDescendants.value)
            && (t.nodes[n].maxDepth.Some? ==>
                  Depth(t'.nodes, t.nextId) - Depth(t'.nodes, n) <= t.nodes[n].maxDepth.value)
  {
    WithNodeBelow(t, parent, name, uid, n);
    WithNodeChain(t, parent, name, uid, n);
    WithNodeChain(t, parent, name, uid, parent);
    assert !OverLimit(t.nodes, parent, n);
  }

  // ---- Freezing. ----

  /** A task in `node` is frozen: it, or a cgroup above it, is. */
  ghost predicate Frozen(nodes: Nodes, node: nat)
    requires Descending(nodes)
  {
    exists a :: a in nodes && Within(nodes, node, a) && nodes[a].freeze
  }

  function Froze(t: Tree, node: nat, on: bool): Tree {
    if node in t.nodes then t.(nodes := t.nodes[node := t.nodes[node].(freeze := on)]) else t
  }

  lemma FrozeValid(t: Tree, node: nat, on: bool)
    requires Valid(t)
    ensures Valid(Froze(t, node, on))
  {
    if node in t.nodes {
      forall n | n in t.nodes && n != ROOT ensures Counts(Froze(t, node, on).nodes[n], t.members, Below(t.nodes, n)) {
        assert ExactAt(t, n);
      }
      ValidSameShape(t, Froze(t, node, on));
    }
  }

  /** Setting one cgroup's flag can only change what is at or below it. */
  lemma FreezeReaches(t: Tree, node: nat, on: bool, x: nat)
    requires Descending(t.nodes) && !Within(t.nodes, x, node)
    ensures Descending(Froze(t, node, on).nodes)
    ensures Frozen(Froze(t, node, on).nodes, x) == Frozen(t.nodes, x)
  {
    var t' := Froze(t, node, on);
    forall a ensures Descending(t'.nodes) && Within(t'.nodes, x, a) == Within(t.nodes, x, a) {
      SameWithin(t.nodes, t'.nodes, x, a);
    }
  }

  /** Operations that touch neither shape nor flags leave every task's freezing alone. */
  lemma SameFrozen(a: Nodes, b: Nodes, x: nat)
    requires Descending(a) && SameShape(a, b) && forall n :: n in a ==> a[n].freeze == b[n].freeze
    ensures Descending(b) && Frozen(a, x) == Frozen(b, x)
  {
    forall n ensures Descending(b) && Within(a, x, n) == Within(b, x, n) { SameWithin(a, b, x, n); }
  }

  lemma WithoutNodeFrozen(t: Tree, node: nat, x: nat)
    requires Shaped(t.nodes) && node in t.nodes && node != ROOT && t.nodes[node].children == map[]
    requires t.nodes[node].parent.Some? && x in t.nodes && x != node
    ensures Descending(WithoutNode(t, node).nodes) && Frozen(WithoutNode(t, node).nodes, x) == Frozen(t.nodes, x)
  {
    WithoutNodeShaped(t, node);
    forall n ensures Within(WithoutNode(t, node).nodes, x, n) == Within(t.nodes, x, n) {
      WithoutNodeWithin(t, node, x, n);
    }
    LeafUnreached(t.nodes, node, x);
  }

  /** Nothing else is within a childless cgroup. */
  lemma {:induction false} LeafUnreached(nodes: Nodes, node: nat, x: nat)
    requires Shaped(nodes) && node in nodes && nodes[node].children == map[] && x in nodes && x != node
    ensures !Within(nodes, x, node)
    decreases x
  {
    assert HasParent(nodes, x);
    if x != ROOT {
      LeafIsNoParent(nodes, node, x);
      LeafUnreached(nodes, node, nodes[x].parent.value);
    }
  }

  lemma WithNodeFrozen(t: Tree, parent: nat, name: string, uid: nat, x: nat)
    requires Shaped(t.nodes) && parent in t.nodes && name !in t.nodes[parent].children && x in t.nodes
    requires forall k :: k in t.nodes ==> k < t.nextId
    ensures Descending(WithNode(t, parent, name, uid).nodes)
    ensures Frozen(WithNode(t, parent, name, uid).nodes, x) == Frozen(t.nodes, x)
  {
    WithNodeShaped(t, parent, name, uid);
    forall n ensures Within(WithNode(t, parent, name, uid).nodes, x, n) == Within(t.nodes, x, n) {
      WithNodeWithin(t, parent, name, uid, x, n);
    }
  }
}
