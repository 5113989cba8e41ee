/**
 The cgroup v2 hierarchy (`src/fs/cgroupfs.rs`) as values: its shape, the upward walk,
 and what the counters kept along it mean.
 */
module Cgroups {
  import opened Options

  datatype Result<+T> = Ok(value: T) | Err(errno: nat)

  const ROOT: nat := 0

  /** One cgroup. */
  datatype Node = Node(
    name: string, parent: Option<nat>, children: map<string, nat>,
    pidsBelow: bool, pidsMax: Option<nat>, pidsEvents: nat,
    maxDepth: Option<nat>, maxDescendants: Option<nat>,
    freeze: bool, tasks: nat, live: nat, uid: nat)

  function NewNode(name: string, parent: Option<nat>, uid: nat): Node {
    Node(name, parent, map[], false, None, 0, None, None, false, 0, 0, uid)
  }

  /** A task with a cgroup other than the root (or a zombie moved up to it). */
  datatype Member = Member(node: nat, live: bool)

  type Nodes = map<nat, Node>

  datatype Tree = Tree(nodes: Nodes, members: map<int, Member>, nextId: nat, nsRoots: map<nat, nat>)

  // ---- Shape. ----

  /** Ids are handed out increasingly, so a parent's is below its child's: every upward walk ends. */
  ghost predicate Descending(nodes: Nodes) {
    forall n :: n in nodes && nodes[n].parent.Some? ==> nodes[n].parent.value < n
  }

  /** Exactly the root has no parent; parents exist, and list exactly their children, by name. */
  ghost predicate Shaped(nodes: Nodes) {
    && Descending(nodes)
    && ROOT in nodes && nodes[ROOT].parent.None?
    && (forall n :: HasParent(nodes, n))
    && (forall n, s :: HasChild(nodes, n, s))
  }

  ghost predicate HasParent(nodes: Nodes, n: nat) {
    n in nodes && n != ROOT ==>
      && nodes[n].parent.Some? && nodes[n].parent.value in nodes
      && nodes[n].name in nodes[nodes[n].parent.value].children
      && nodes[nodes[n].parent.value].children[nodes[n].name] == n
  }

  ghost predicate HasChild(nodes: Nodes, n: nat, s: string) {
    n in nodes && s in nodes[n].children ==>
      var c := nodes[n].children[s];
      c in nodes && c != ROOT && nodes[c].parent == Some(n) && nodes[c].name == s
  }

  /** No cgroup is called `..`. */
  ghost predicate NoDots(nodes: Nodes) {
    forall n :: n in nodes && n != ROOT ==> nodes[n].name != ".."
  }

  /** `inner` is `outer` or below it. */
  predicate Within(nodes: Nodes, inner: nat, outer: nat)
    requires Descending(nodes)
    decreases inner
  {
    inner == outer
    || (inner in nodes && nodes[inner].parent.Some? && Within(nodes, nodes[inner].parent.value, outer))
  }

  /** `node`, then its ancestors up to the root. */
  function Chain(nodes: Nodes, node: nat): seq<nat>
    requires Descending(nodes)
    decreases node
  {
    if node in nodes && nodes[node].parent.Some? then [node] + Chain(nodes, nodes[node].parent.value) else [node]
  }

  lemma {:induction false} ChainIsWithin(nodes: Nodes, node: nat, n: nat)
    requires Descending(nodes)
    ensures n in Chain(nodes, node) <==> Within(nodes, node, n)
    ensures forall m :: m in Chain(nodes, node) ==> m <= node
    decreases node
  {
    if node in nodes && nodes[node].parent.Some? {
      ChainIsWithin(nodes, nodes[node].parent.value, n);
    }
  }

  /** The walk lists no cgroup twice: ids only go down along it. */
  lemma {:induction false} ChainDescends(nodes: Nodes, node: nat)
    requires Descending(nodes)
    ensures forall i, j :: 0 <= i < j < |Chain(nodes, node)| ==> Chain(nodes, node)[j] < Chain(nodes, node)[i]
    decreases node
  {
    if node in nodes && nodes[node].parent.Some? {
      var p := nodes[node].parent.value;
      ChainDescends(nodes, p);
      ChainIsWithin(nodes, p, p);
      assert forall j :: 0 <= j < |Chain(nodes, p)| ==> Chain(nodes, p)[j] in Chain(nodes, p);
    }
  }

  /** Of two cgroups on one way up, the one with the smaller id is above the other. */
  lemma {:induction false} WithinOneLine(nodes: Nodes, n: nat, a: nat, b: nat)
    requires Shaped(nodes) && n in nodes && Within(nodes, n, a) && Within(nodes, n, b) && b <= a
    ensures Within(nodes, a, b)
    decreases n
  {
    assert HasParent(nodes, n);
    WithinExists(nodes, n, a);
    if n != a { WithinOneLine(nodes, nodes[n].parent.value, a, b); }
  }

  /** Everything is within the root. */
  lemma {:induction false} WithinRoot(nodes: Nodes, n: nat)
    requires Shaped(nodes) && n in nodes
    ensures Within(nodes, n, ROOT)
    decreases n
  {
    assert HasParent(nodes, n);
    if n != ROOT { WithinRoot(nodes, nodes[n].parent.value); }
  }

  /** What an existing cgroup is within exists. */
  lemma {:induction false} WithinExists(nodes: Nodes, n: nat, a: nat)
    requires Shaped(nodes) && n in nodes && Within(nodes, n, a)
    ensures a in nodes && a <= n
    decreases n
  {
    assert HasParent(nodes, n);
    if n != a { WithinExists(nodes, nodes[n].parent.value, a); }
  }

  /** The two hierarchies have the same cgroups under the same parents. */
  ghost predicate SameShape(a: Nodes, b: Nodes) {
    && a.Keys == b.Keys
    && forall n :: n in a ==> a[n].parent == b[n].parent && a[n].children == b[n].children && a[n].name == b[n].name
  }

  lemma {:induction false} SameWithin(a: Nodes, b: Nodes, inner: nat, outer: nat)
    requires Descending(a) && SameShape(a, b)
    ensures Descending(b) && Within(a, inner, outer) == Within(b, inner, outer)
    decreases inner
  {
    if inner != outer && inner in a && a[inner].parent.Some? {
      SameWithin(a, b, a[inner].parent.value, outer);
    }
  }

  lemma SameShapeShaped(a: Nodes, b: Nodes)
    requires Shaped(a) && SameShape(a, b)
    ensures Shaped(b)
  {
    forall n, s ensures HasChild(b, n, s) {
      assert HasChild(a, n, s);
    }
    forall n ensures HasParent(b, n) {
      assert HasParent(a, n);
    }
  }

  // ---- What the counters mean. ----

  /** The cgroups from `n` down. */
  function Below(nodes: Nodes, n: nat): set<nat>
    requires Descending(nodes)
  {
    set x | x in nodes && Within(nodes, x, n)
  }

  lemma SameBelow(a: Nodes, b: Nodes, n: nat)
    requires Descending(a) && SameShape(a, b)
    ensures Descending(b) && Below(a, n) == Below(b, n)
  {
    forall x ensures x in Below(a, n) <==> x in Below(b, n) { SameWithin(a, b, x, n); }
  }

  /** The members in one of the cgroups `s`. */
  function MembersIn(members: map<int, Member>, s: set<nat>): set<int> {
    set m | m in members && members[m].node in s
  }

  /** Those of them that have not exited. */
  function LiveIn(members: map<int, Member>, s: set<nat>): set<int> {
    set m | m in members && members[m].node in s && members[m].live
  }

  ghost predicate ExactAt(t: Tree, n: nat)
    requires Descending(t.nodes) && n in t.nodes
  {
    && t.nodes[n].tasks == |MembersIn(t.members, Below(t.nodes, n))|
    && t.nodes[n].live == |LiveIn(t.members, Below(t.nodes, n))|
  }

  /** Every counter below the root is what counting the members anew would give. */
  ghost predicate Exact(t: Tree)
    requires Descending(t.nodes)
  {
    forall n :: n in t.nodes && n != ROOT ==> ExactAt(t, n)
  }

  ghost predicate Valid(t: Tree) {
    && Shaped(t.nodes)
    && (forall n :: n in t.nodes ==> n < t.nextId)
    && (forall m :: m in t.members ==>
          t.members[m].node in t.nodes && (t.members[m].node == ROOT ==> !t.members[m].live))
    && (forall ns :: ns in t.nsRoots ==> t.nsRoots[ns] in t.nodes)
    && Exact(t)
  }

  function NodeOf(t: Tree, tid: int): nat {
    if tid in t.members then t.members[tid].node else ROOT
  }

  // ---- The counter operations. ----

  function Saturating(x: int): nat {
    if x < 0 then 0 else x
  }

  function ChargeNode(x: Node, tasks: int, live: int): Node {
    x.(tasks := Saturating(x.tasks + tasks), live := Saturating(x.live + live))
  }

  /** `charge`: add to every cgroup from `node` up. */
  function Charged(nodes: Nodes, node: nat, tasks: int, live: int): (r: Nodes)
    requires Descending(nodes)
    ensures SameShape(nodes, r)
  {
    map n | n in nodes :: if Within(nodes, node, n) then ChargeNode(nodes[n], tasks, live) else nodes[n]
  }

  /** `attach_new`. */
  function AttachNew(t: Tree, tid: int, node: nat): Tree
    requires Descending(t.nodes)
  {
    t.(nodes := Charged(t.nodes, node, 1, 1),
       members := if node != ROOT then t.members[tid := Member(node, true)] else t.members)
  }

  /** `exit`: the task stops making its cgroups populated; a task already marked is left. */
  function Exit(t: Tree, tid: int): Tree
    requires Descending(t.nodes)
  {
    if tid !in t.members then t.(nodes := Charged(t.nodes, ROOT, 0, -1))
    else if t.members[tid].live then
      t.(nodes := Charged(t.nodes, t.members[tid].node, 0, -1),
         members := t.members[tid := t.members[tid].(live := false)])
    else t
  }

  /** `release`: the task is gone for good. */
  function Release(t: Tree, tid: int): Tree
    requires Descending(t.nodes)
  {
    var t1 := if tid in t.members && t.members[tid].live then Exit(t, tid) else t;
    t1.(nodes := Charged(t1.nodes, NodeOf(t1, tid), -1, 0), members := t1.members - {tid})
  }

  /** One task's charges taken off the walk from `from` and put on the walk from `to`. */
  function Recharged(nodes: Nodes, from: nat, to: nat, live: int): (r: Nodes)
    requires Descending(nodes)
    ensures SameShape(nodes, r)
  {
    map n | n in nodes ::
      var x := if Within(nodes, from, n) then ChargeNode(nodes[n], -1, -live) else nodes[n];
      if Within(nodes, to, n) then ChargeNode(x, 1, live) else x
  }

  lemma RechargedIsTwoCharges(nodes: Nodes, from: nat, to: nat, live: int)
    requires Descending(nodes)
    ensures Charged(Charged(nodes, from, -1, -live), to, 1, live) == Recharged(nodes, from, to, live)
  {
    var mid := Charged(nodes, from, -1, -live);
    forall n | n in nodes ensures Charged(mid, to, 1, live)[n] == Recharged(nodes, from, to, live)[n] {
      SameWithin(nodes, mid, to, n);
    }
  }

  /** One step of `migrate`. */
  function MoveTask(t: Tree, tid: int, alive: bool, node: nat): Tree
    requires Descending(t.nodes)
  {
    if NodeOf(t, tid) == node then t
    else
      var live := if alive && (tid in t.members ==> t.members[tid].live) then 1 else 0;
      t.(nodes := Recharged(t.nodes, NodeOf(t, tid), node, live),
         members := if node == ROOT then t.members - {tid} else t.members[tid := Member(node, live != 0)])
  }

  /** `migrate`: each of `tids` in turn. */
  function Migrate(t: Tree, tids: seq<(int, bool)>, node: nat): (r: Tree)
    requires Descending(t.nodes)
    ensures SameShape(t.nodes, r.nodes)
  {
    if tids == [] then t
    else
      var last := tids[|tids| - 1];
      MoveTask(Migrate(t, tids[..|tids| - 1], node), last.0, last.1, node)
  }

  // ---- Each of them keeps the counters exact. ----

  /** `ms'` is `ms` with the member `tid` added. */
  ghost predicate Added(ms: map<int, Member>, ms': map<int, Member>, tid: int) {
    && tid !in ms && tid in ms'
    && forall m :: m != tid ==> (m in ms <==> m in ms') && (m in ms ==> ms'[m] == ms[m])
  }

  /** Adding one member changes each count by whether it is inside. */
  lemma CountAdded(ms: map<int, Member>, ms': map<int, Member>, tid: int, s: set<nat>)
    requires Added(ms, ms', tid)
    ensures |MembersIn(ms', s)| == |MembersIn(ms, s)| + (if ms'[tid].node in s then 1 else 0)
    ensures |LiveIn(ms', s)| == |LiveIn(ms, s)| + (if ms'[tid].node in s && ms'[tid].live then 1 else 0)
  {
    MembersAdded(ms, ms', tid, s);
    LiveAdded(ms, ms', tid, s);
  }

  lemma MembersAdded(ms: map<int, Member>, ms': map<int, Member>, tid: int, s: set<nat>)
    requires Added(ms, ms', tid)
    ensures |MembersIn(ms', s)| == |MembersIn(ms, s)| + (if ms'[tid].node in s then 1 else 0)
  {
    var a, b := MembersIn(ms, s), MembersIn(ms', s);
    forall x ensures x in b <==> x in a || (x == tid && ms'[tid].node in s) {
      assert x in ms' <==> x == tid || x in ms;
    }
    if ms'[tid].node in s {
      assert b == a + {tid};
    } else {
      assert b == a;
    }
  }

  lemma LiveAdded(ms: map<int, Member>, ms': map<int, Member>, tid: int, s: set<nat>)
    requires Added(ms, ms', tid)
    ensures |LiveIn(ms', s)| == |LiveIn(ms, s)| + (if ms'[tid].node in s && ms'[tid].live then 1 else 0)
  {
    var a, b := LiveIn(ms, s), LiveIn(ms', s);
    forall x ensures x in b <==> x in a || (x == tid && ms'[tid].node in s && ms'[tid].live) {
      assert x in ms' <==> x == tid || x in ms;
    }
    if ms'[tid].node in s && ms'[tid].live {
      assert b == a + {tid};
    } else {
      assert b == a;
    }
  }

  /** A walk from the root reaches nothing below it. */
  lemma RootWalk(nodes: Nodes, n: nat)
    requires Descending(nodes) && ROOT in nodes && nodes[ROOT].parent.None?
    ensures Within(nodes, ROOT, n) <==> n == ROOT
  {
  }

  /** Counters of the right size for the members `ms` at `n`. */
  ghost predicate Counts(x: Node, ms: map<int, Member>, s: set<nat>) {
    x.tasks == |MembersIn(ms, s)| && x.live == |LiveIn(ms, s)|
  }

  /** What is left to check when an operation keeps the shape. */
  lemma ValidSameShape(t: Tree, t': Tree)
    requires Valid(t) && SameShape(t.nodes, t'.nodes) && t'.nextId == t.nextId && t'.nsRoots == t.nsRoots
    requires forall m :: m in t'.members ==>
               t'.members[m].node in t'.nodes && (t'.members[m].node == ROOT ==> !t'.members[m].live)
    requires forall n :: n in t.nodes && n != ROOT ==> Counts(t'.nodes[n], t'.members, Below(t.nodes, n))
    ensures Valid(t')
  {
    SameShapeShaped(t.nodes, t'.nodes);
    forall n | n in t'.nodes && n != ROOT ensures ExactAt(t', n) {
      SameBelow(t.nodes, t'.nodes, n);
      assert Counts(t'.nodes[n], t'.members, Below(t.nodes, n));
    }
  }

  lemma AttachNewValid(t: Tree, tid: int, node: nat)
    requires Valid(t) && node in t.nodes && tid !in t.members
    ensures Valid(AttachNew(t, tid, node))
  {
    var t' := AttachNew(t, tid, node);
    forall n | n in t.nodes && n != ROOT ensures Counts(t'.nodes[n], t'.members, Below(t.nodes, n)) {
      assert ExactAt(t, n);
      RootWalk(t.nodes, n);
      if node != ROOT {
        CountAdded(t.members, t'.members, tid, Below(t.nodes, n));
      }
    }
    ValidSameShape(t, t');
  }

  lemma ExitValid(t: Tree, tid: int)
    requires Valid(t)
    ensures Valid(Exit(t, tid))
  {
    var t' := Exit(t, tid);
    forall n | n in t.nodes && n != ROOT ensures Counts(t'.nodes[n], t'.members, Below(t.nodes, n)) {
      assert ExactAt(t, n);
      RootWalk(t.nodes, n);
      if tid in t.members && t.members[tid].live {
        var rest := t.members - {tid};
        CountAdded(rest, t.members, tid, Below(t.nodes, n));
        CountAdded(rest, t'.members, tid, Below(t.nodes, n));
      }
    }
    ValidSameShape(t, t');
  }

  lemma ReapValid(t: Tree, tid: int)
    requires Valid(t) && (tid in t.members ==> !t.members[tid].live)
    ensures Valid(Release(t, tid))
  {
    var t' := Release(t, tid);
    forall n | n in t.nodes && n != ROOT ensures Counts(t'.nodes[n], t'.members, Below(t.nodes, n)) {
      assert ExactAt(t, n);
      RootWalk(t.nodes, n);
      if tid in t.members {
        CountAdded(t'.members, t.members, tid, Below(t.nodes, n));
      } else {
        assert t'.members == t.members;
      }
    }
    ValidSameShape(t, t');
  }

  lemma ReleaseValid(t: Tree, tid: int)
    requires Valid(t)
    ensures Valid(Release(t, tid))
  {
    if tid in t.members && t.members[tid].live {
      ExitValid(t, tid);
      ReapValid(Exit(t, tid), tid);
    } else {
      ReapValid(t, tid);
    }
  }

  lemma MoveTaskCounts(t: Tree, tid: int, alive: bool, node: nat, n: nat)
    requires Valid(t) && node in t.nodes && NodeOf(t, tid) != node && n in t.nodes && n != ROOT
    requires tid in t.members && t.members[tid].live ==> alive
    ensures Counts(MoveTask(t, tid, alive, node).nodes[n], MoveTask(t, tid, alive, node).members, Below(t.nodes, n))
  {
    var t' := MoveTask(t, tid, alive, node);
    var rest := t.members - {tid};
    assert ExactAt(t, n);
    RootWalk(t.nodes, n);
    if tid in t.members {
      CountAdded(rest, t.members, tid, Below(t.nodes, n));
    } else {
      assert rest == t.members;
    }
    if node != ROOT {
      CountAdded(rest, t'.members, tid, Below(t.nodes, n));
    }
  }

  /** Moving one task keeps the counters exact when it is not called dead while counted live. */
  lemma MoveTaskValid(t: Tree, tid: int, alive: bool, node: nat)
    requires Valid(t) && node in t.nodes
    requires tid in t.members && t.members[tid].live ==> alive
    ensures Valid(MoveTask(t, tid, alive, node))
  {
    if NodeOf(t, tid) != node {
      forall n | n in t.nodes && n != ROOT { MoveTaskCounts(t, tid, alive, node, n); }
      ValidSameShape(t, MoveTask(t, tid, alive, node));
    }
  }
}
