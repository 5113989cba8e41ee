/**
 The `CgroupTree` object (`src/fs/cgroupfs.rs`): its loops, each proved against the
 hierarchy's value-level meaning.
 */
module CgroupObject {
  import opened Errno
  import opened Options
  import opened Cgroups
  import opened CgroupOps
  import opened CgroupShape

  class CgroupTree {
    var nodes: Nodes
    var members: map<int, Member>
    var nextId: nat
    var nsRoots: map<nat, nat>

    function State(): Tree reads this { Tree(nodes, members, nextId, nsRoots) }

    /** A new hierarchy holding only the root. */
    constructor ()
      ensures State() == Tree(map[ROOT := NewNode("", None, 0)], map[], 1, map[]) && Valid(State())
    {
      nodes, members, nextId, nsRoots := map[ROOT := NewNode("", None, 0)], map[], 1, map[];
    }

    method ChainOf(node: nat) returns (out: seq<nat>)
      requires Descending(nodes)
      ensures out == Chain(nodes, node)
      ensures forall n :: n in out <==> Within(nodes, node, n)
    {
      out := [];
      var at := Some(node);
      while at.Some?
        invariant at.Some? ==> out + Chain(nodes, at.value) == Chain(nodes, node)
        invariant at.None? ==> out == Chain(nodes, node)
        decreases if at.Some? then at.value + 1 else 0
      {
        var n := at.value;
        out := out + [n];
        at := if n in nodes then nodes[n].parent else None;
      }
      forall n ensures n in out <==> Within(nodes, node, n) { ChainIsWithin(nodes, node, n); }
    }

    /** The nearest cgroup both are within. */
    method CommonAncestor(a: nat, b: nat) returns (r: nat)
      requires Shaped(nodes) && a in nodes && b in nodes
      ensures Within(nodes, a, r) && Within(nodes, b, r)
      ensures forall c: nat :: Within(nodes, a, c) && Within(nodes, b, c) ==> Within(nodes, r, c)
    {
      var up := ChainOf(b);
      var down := ChainOf(a);
      ChainDescends(nodes, a);
      WithinRoot(nodes, a);
      WithinRoot(nodes, b);
      // The root is on both walks, so the search always ends.
      assert ROOT in down && ROOT in up;
      ghost var end :| 0 <= end < |down| && down[end] == ROOT;
      var i := 0;
      while down[i] !in up
        invariant i <= end && forall j :: 0 <= j < i ==> down[j] !in up
        decreases end - i
      {
        i := i + 1;
      }
      r := down[i];
      forall c: nat | Within(nodes, a, c) && Within(nodes, b, c) ensures Within(nodes, r, c) {
        assert c in down && c in up;
        var j :| 0 <= j < |down| && down[j] == c;
        WithinOneLine(nodes, a, r, c);
      }
    }

    /** Whether tasks in `node` are frozen. */
    method FrozenAt(node: nat) returns (r: bool)
      requires Descending(nodes)
      ensures r == Frozen(nodes, node)
    {
      var chain := ChainOf(node);
      for i := 0 to |chain|
        invariant forall j :: 0 <= j < i ==> chain[j] in nodes ==> !nodes[chain[j]].freeze
      {
        if chain[i] in nodes && nodes[chain[i]].freeze {
          assert chain[i] in chain;
          return true;
        }
      }
      forall a | a in nodes && Within(nodes, node, a) ensures !nodes[a].freeze {
        assert a in chain;
      }
      return false;
    }

    /** Add to each cgroup of a walk, one after the other. */
    method Charge(ghost node: nat, chain: seq<nat>, tasks: int, live: int)
      requires Descending(nodes) && chain == Chain(nodes, node)
      modifies this`nodes
      ensures nodes == Charged(old(nodes), node, tasks, live)
    {
      ghost var was, done: set<nat> := nodes, {};
      ChainDescends(was, node);
      for i := 0 to |chain|
        invariant nodes.Keys == was.Keys
        invariant forall j :: 0 <= j < |chain| ==> (chain[j] in done <==> j < i)
        invariant forall n :: n in done ==> n in chain
        invariant forall n :: n in was && n in done ==> nodes[n] == ChargeNode(was[n], tasks, live)
        invariant forall n :: n in was && n !in done ==> nodes[n] == was[n]
      {
        var n := chain[i];
        if n in nodes {
          nodes := nodes[n := ChargeNode(nodes[n], tasks, live)];
        }
        done := done + {n};
      }
      ChargedIs(was, node, tasks, live, done, nodes);
    }

    method AttachTask(tid: int, node: nat) returns (frozen: bool)
      requires Descending(nodes)
      modifies this`nodes, this`members
      ensures State() == AttachNew(old(State()), tid, node)
      ensures Descending(nodes) && frozen == Frozen(nodes, node)
    {
      var chain := ChainOf(node);
      Charge(node, chain, 1, 1);
      if node != ROOT { members := members[tid := Member(node, true)]; }
      frozen := FrozenAt(node);
    }

    method ExitTask(tid: int)
      requires Descending(nodes)
      modifies this`nodes, this`members
      ensures State() == Exit(old(State()), tid)
    {
      var node := ROOT;
      if tid in members {
        if !members[tid].live { return; }
        node := members[tid].node;
        members := members[tid := members[tid].(live := false)];
      }
      var chain := ChainOf(node);
      Charge(node, chain, 0, -1);
    }

    method ReleaseTask(tid: int)
      requires Descending(nodes)
      modifies this`nodes, this`members
      ensures State() == Release(old(State()), tid)
    {
      if tid in members && members[tid].live { ExitTask(tid); }
      var node := if tid in members then members[tid].node else ROOT;
      members := members - {tid};
      var chain := ChainOf(node);
      Charge(node, chain, -1, 0);
    }

    /** Move each of `tids`, with whether it is still alive, to `node`. */
    method MigrateTasks(tids: seq<(int, bool)>, node: nat) returns (frozen: bool)
      requires Descending(nodes)
      modifies this`nodes, this`members
      ensures State() == Migrate(old(State()), tids, node)
      ensures Descending(nodes) && frozen == Frozen(nodes, node)
    {
      ghost var was := State();
      for i := 0 to |tids|
        invariant State() == Migrate(was, tids[..i], node) && Descending(nodes)
      {
        assert tids[..i + 1][..i] == tids[..i];
        MoveOne(tids[i].0, tids[i].1, node);
      }
      assert tids[..|tids|] == tids;
      frozen := FrozenAt(node);
    }

    method MoveOne(tid: int, alive: bool, node: nat)
      requires Descending(nodes)
      modifies this`nodes, this`members
      ensures State() == MoveTask(old(State()), tid, alive, node)
    {
      var from := if tid in members then members[tid].node else ROOT;
      if from == node { return; }
      var live := if alive && (tid in members ==> members[tid].live) then 1 else 0;
      RechargedIsTwoCharges(nodes, from, node, live);
      var out := ChainOf(from);
      Charge(from, out, -1, -live);
      var into := ChainOf(node);
      Charge(node, into, 1, live);
      if node == ROOT {
        members := members - {tid};
      } else {
        members := members[tid := Member(node, live != 0)];
      }
    }

    /** Every cgroup from `node` down, each once. */
    method SubtreeOf(node: nat) returns (out: seq<nat>)
      requires Shaped(nodes)
      ensures Distinct(out)
      ensures node in nodes ==> forall n :: n in out <==> n in Below(nodes, node)
      ensures node !in nodes ==> out == [node]
    {
      out := [node];
      if node !in nodes { return; }
      var i := 0;
      while i < |out|
        invariant Listed(nodes, node, out, i)
        decreases |nodes.Keys| - i
      {
        var kids := Kids(out[i]);
        ListedStep(nodes, node, out, i, kids);
        DistinctFits(out, nodes.Keys);
        out := out + kids;
        i := i + 1;
      }
      forall n ensures n in out <==> n in Below(nodes, node) {
        if n in Below(nodes, node) { ListedAll(nodes, node, out, n); }
      }
    }

    /** The children's ids, in some order. */
    method Kids(n: nat) returns (kids: seq<nat>)
      requires Shaped(nodes) && n in nodes
      ensures Distinct(kids) && forall c :: c in kids <==> IsKid(nodes, n, c)
    {
      kids := [];
      forall c | IsKid(nodes, n, c) ensures nodes[c].name in nodes[n].children { assert HasParent(nodes, c); }
      var todo := nodes[n].children.Keys;
      while todo != {}
        invariant todo <= nodes[n].children.Keys
        invariant Distinct(kids)
        invariant forall c :: c in kids <==> IsKid(nodes, n, c) && nodes[c].name !in todo
      {
        var s :| s in todo;
        assert HasChild(nodes, n, s);
        kids := kids + [nodes[n].children[s]];
        todo := todo - {s};
        forall c | IsKid(nodes, n, c) && nodes[c].name == s ensures c == nodes[n].children[s] {
          assert HasParent(nodes, c);
        }
      }
    }

    method SetFreeze(node: nat, on: bool) returns (changed: bool)
      modifies this`nodes
      ensures changed == (node in old(nodes) && old(nodes)[node].freeze != on)
      ensures State() == if changed then Froze(old(State()), node, on) else old(State())
    {
      changed := node in nodes && nodes[node].freeze != on;
      if changed { nodes := nodes[node := nodes[node].(freeze := on)]; }
    }

    /** `can_fork` then `attach_new`. */
    method ForkTask(parent: int, tid: int, into: Option<nat>) returns (errno: nat, frozen: bool)
      requires Shaped(nodes)
      modifies this`nodes, this`members
      ensures (State(), errno) == Fork(old(State()), parent, tid, into)
      ensures errno == 0 ==>
                (Descending(nodes)
                 && frozen == Frozen(nodes, if into.Some? then into.value else NodeOf(old(State()), parent)))
    {
      frozen := false;
      var node := if into.Some? then into.value else NodeOf(State(), parent);
      errno := TryFork(node, into.Some?);
      if errno != 0 { return; }
      frozen := AttachTask(tid, node);
    }

    method TryFork(node: nat, explicit: bool) returns (errno: nat)
      requires Shaped(nodes)
      modifies this`nodes
      ensures errno == CanFork(old(State()), node, explicit)
      ensures State() == if errno == EAGAIN then NoteRefusal(old(State()), FirstFull(old(nodes), node).value)
                         else old(State())
    {
      if explicit {
        var e := CheckAttach(nodes, node);
        if e != 0 { return e; }
      }
      var at := Some(node);
      while at.Some?
        invariant nodes == old(nodes)
        invariant node in nodes && at.Some? ==> at.value in nodes
        invariant node !in nodes ==> at == Some(node)
        invariant FirstFull(nodes, node) == if at.Some? then FirstFull(nodes, at.value) else None
        decreases if at.Some? then at.value + 1 else 0
      {
        var n := at.value;
        if n !in nodes { return ENOENT; }
        if Full(nodes[n]) {
          nodes := nodes[n := nodes[n].(pidsEvents := nodes[n].pidsEvents + 1)];
          return EAGAIN;
        }
        assert HasParent(nodes, n);
        at := nodes[n].parent;
      }
      return 0;
    }

    method RemoveCgroup(node: nat) returns (errno: nat)
      modifies this
      ensures match Rmdir(old(State()), node)
              case Ok(t) => errno == 0 && State() == t
              case Err(e) => errno == e && State() == old(State())
    {
      if node !in nodes { return ENOENT; }
      var n := nodes[node];
      if n.parent.None? { return EBUSY; }
      var parent := n.parent.value;
      if n.children != map[] || n.live > 0 { return EBUSY; }
      ghost var was := State();
      // Zombies still charged here move up.
      members := map m | m in members ::
        if members[m].node == node then members[m].(node := parent) else members[m];
      nodes := nodes - {node};
      if parent in nodes {
        nodes := nodes[parent := nodes[parent].(children := nodes[parent].children - {n.name})];
      }
      assert nodes == WithoutNode(was, node).nodes;
      nsRoots := map ns | ns in nsRoots && nsRoots[ns] != node :: nsRoots[ns];
      return 0;
    }

    method MakeCgroup(parent: nat, name: string, uid: nat) returns (r: Result<nat>)
      requires Valid(State())
      modifies this`nodes, this`nextId
      ensures match Mkdir(old(State()), parent, name, uid)
              case Ok(t) => r == Ok(old(nextId)) && State() == t
              case Err(e) => r == Err(e) && State() == old(State())
    {
      if parent !in nodes { return Err(ENOENT); }
      if name in nodes[parent].children || HasFile(nodes, parent, name) { return Err(EEXIST); }
      if '\n' in name || name == "." || name == ".." { return Err(EINVAL); }
      var chain := ChainOf(parent);
      WithinAll(nodes, parent, chain);
      for i := 0 to |chain|
        invariant State() == old(State())
        invariant forall j :: 0 <= j < i ==> !OverLimit(nodes, parent, chain[j])
      {
        var below := SubtreeOf(chain[i]);
        var up := ChainOf(chain[i]);
        SubtreeSize(nodes, chain[i], below);
        var x := nodes[chain[i]];
        var depth := |chain| - |up| + 1;
        if (x.maxDepth.Some? && depth > x.maxDepth.value)
           || (x.maxDescendants.Some? && |below| > x.maxDescendants.value) {
          assert OverLimit(nodes, parent, chain[i]) && chain[i] in chain;
          return Err(EAGAIN);
        }
      }
      var id := nextId;
      nextId := nextId + 1;
      nodes := nodes[id := NewNode(name, Some(parent), uid)];
      nodes := nodes[parent := nodes[parent].(children := nodes[parent].children[name := id])];
      r := Ok(id);
    }
  }

  lemma ChargedIs(was: Nodes, node: nat, tasks: int, live: int, done: set<nat>, nodes: Nodes)
    requires Descending(was) && nodes.Keys == was.Keys && forall n :: n in done <==> n in Chain(was, node)
    requires forall n :: n in was && n in done ==> nodes[n] == ChargeNode(was[n], tasks, live)
    requires forall n :: n in was && n !in done ==> nodes[n] == was[n]
    ensures nodes == Charged(was, node, tasks, live)
  {
    forall n | n in was ensures nodes[n] == Charged(was, node, tasks, live)[n] { ChainIsWithin(was, node, n); }
  }

  ghost predicate Distinct(s: seq<nat>) {
    forall i, j :: 0 <= i < j < |s| ==> s[i] != s[j]
  }

  ghost predicate IsKid(nodes: Nodes, n: nat, c: nat) {
    c in nodes && nodes[c].parent == Some(n)
  }

  /** A list without repetition of elements of a set is no longer than it. */
  lemma {:induction false} DistinctFits(s: seq<nat>, all: set<nat>)
    requires Distinct(s) && forall x :: x in s ==> x in all
    ensures |s| <= |all|
    ensures (forall x :: x in all ==> x in s) ==> |s| == |all|
  {
    if s != [] {
      var x := s[|s| - 1];
      var init := s[..|s| - 1];
      DistinctFits(init, all - {x});
    } else if all != {} {
      var x :| x in all;
    }
  }

  lemma SubtreeSize(nodes: Nodes, n: nat, below: seq<nat>)
    requires Descending(nodes) && Distinct(below) && forall x :: x in below <==> x in Below(nodes, n)
    ensures |below| == |Below(nodes, n)|
  {
    DistinctFits(below, Below(nodes, n));
  }

  lemma WithinAll(nodes: Nodes, node: nat, chain: seq<nat>)
    requires Shaped(nodes) && node in nodes && forall n :: n in chain <==> Within(nodes, node, n)
    ensures forall i :: 0 <= i < |chain| ==> chain[i] in nodes
  {
    forall i | 0 <= i < |chain| ensures chain[i] in nodes {
      assert chain[i] in chain;
      WithinExists(nodes, node, chain[i]);
    }
  }

  /**
   The state of the downward walk: no cgroup twice, all of them below `node`, the
   children of the first `i` present, and every one but `node` put there by its parent.
   */
  ghost predicate Listed(nodes: Nodes, node: nat, out: seq<nat>, i: nat)
    requires Descending(nodes)
  {
    && i <= |out| && Distinct(out) && out != [] && out[0] == node
    && (forall x :: x in out ==> x in nodes && Within(nodes, x, node))
    && (forall j, c :: 0 <= j < i && IsKid(nodes, out[j], c) ==> c in out)
    && (forall k :: 0 < k < |out| ==> nodes[out[k]].parent.Some? && nodes[out[k]].parent.value in out[..i])
  }

  lemma JoinDistinct(a: seq<nat>, b: seq<nat>)
    requires Distinct(a) && Distinct(b) && forall i, j :: 0 <= i < |a| && 0 <= j < |b| ==> a[i] != b[j]
    ensures Distinct(a + b)
  {
  }

  lemma KidsAreNew(nodes: Nodes, node: nat, out: seq<nat>, i: nat, kids: seq<nat>)
    requires Shaped(nodes) && Listed(nodes, node, out, i) && i < |out|
    requires forall c :: c in kids ==> IsKid(nodes, out[i], c)
    ensures forall k, j :: 0 <= k < |out| && 0 <= j < |kids| ==> out[k] != kids[j]
    ensures forall c :: c in kids ==> Within(nodes, c, node)
  {
    assert out[i] in out && out[i] !in out[..i];
    WithinExists(nodes, out[i], node);
    forall k, j | 0 <= k < |out| && 0 <= j < |kids| ensures out[k] != kids[j] {
      assert kids[j] in kids;
      assert k > 0 ==> nodes[out[k]].parent.value in out[..i];
    }
  }

  lemma ListedStep(nodes: Nodes, node: nat, out: seq<nat>, i: nat, kids: seq<nat>)
    requires Shaped(nodes) && Listed(nodes, node, out, i) && i < |out|
    requires Distinct(kids) && forall c :: c in kids <==> IsKid(nodes, out[i], c)
    ensures Listed(nodes, node, out + kids, i + 1)
  {
    var out' := out + kids;
    KidsAreNew(nodes, node, out, i, kids);
    JoinDistinct(out, kids);
    ParentsListed(nodes, out, i, kids);
    forall j, c | 0 <= j < i + 1 && IsKid(nodes, out'[j], c) ensures c in out' {
      assert out'[j] == out[j];
    }
  }

  lemma ParentsListed(nodes: Nodes, out: seq<nat>, i: nat, kids: seq<nat>)
    requires i < |out| && (forall x :: x in out ==> x in nodes) && forall c :: c in kids ==> IsKid(nodes, out[i], c)
    requires forall k :: 0 < k < |out| ==> nodes[out[k]].parent.Some? && nodes[out[k]].parent.value in out[..i]
    ensures forall k :: 0 < k < |out + kids| ==>
              && (out + kids)[k] in nodes && nodes[(out + kids)[k]].parent.Some?
              && nodes[(out + kids)[k]].parent.value in (out + kids)[..i + 1]
  {
    var out' := out + kids;
    assert out'[..i + 1] == out[..i] + [out[i]];
    forall k | 0 < k < |out'|
      ensures out'[k] in nodes && nodes[out'[k]].parent.Some? && nodes[out'[k]].parent.value in out'[..i + 1]
    {
      if k >= |out| { assert out'[k] == kids[k - |out|] && out'[k] in kids; }
    }
  }

  /** Once every listed cgroup's children are listed, all below `node` is. */
  lemma {:induction false} ListedAll(nodes: Nodes, node: nat, out: seq<nat>, x: nat)
    requires Shaped(nodes) && Listed(nodes, node, out, |out|) && x in Below(nodes, node)
    ensures x in out
    decreases x
  {
    assert HasParent(nodes, x);
    if x != node {
      var p := nodes[x].parent.value;
      ListedAll(nodes, node, out, p);
      var j :| 0 <= j < |out| && out[j] == p;
      assert IsKid(nodes, out[j], x);
    }
  }
}
