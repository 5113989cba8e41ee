/**
 Printing a cgroup's path and looking one up (`path_from` and `lookup` of
 `src/fs/cgroupfs.rs`).
 */
module CgroupPaths {
  import opened Options
  import opened Cgroups
  import opened CgroupShape
  import opened CgroupObject
  import opened Paths

  // ---- lookup. ----

  /** What a path names: a cgroup, or one of its files. */
  datatype Target = Target(node: nat, file: Option<string>)

  function LookupParts(nodes: Nodes, node: nat, parts: Path): Option<Target>
    decreases |parts|
  {
    if parts == [] then Some(Target(node, None))
    else if node !in nodes then None
    else if parts[0] in nodes[node].children then LookupParts(nodes, nodes[node].children[parts[0]], parts[1..])
    else if |parts| == 1 && HasFile(nodes, node, parts[0]) then Some(Target(node, Some(parts[0])))
    else None
  }

  function Lookup(nodes: Nodes, root: nat, rel: string): Option<Target> {
    LookupParts(nodes, root, Components(rel))
  }

  /** The walk of `lookup`, a component at a time. */
  method LookUp(nodes: Nodes, root: nat, rel: string) returns (r: Option<Target>)
    ensures r == Lookup(nodes, root, rel)
  {
    var node, parts := root, Components(rel);
    while parts != []
      invariant LookupParts(nodes, node, parts) == Lookup(nodes, root, rel)
      decreases |parts|
    {
      if node !in nodes { return None; }
      if parts[0] in nodes[node].children {
        node, parts := nodes[node].children[parts[0]], parts[1..];
      } else if |parts| == 1 && HasFile(nodes, node, parts[0]) {
        return Some(Target(node, Some(parts[0])));
      } else {
        return None;
      }
    }
    return Some(Target(node, None));
  }

  // ---- path_from. ----

  /** The nearest cgroup from `node` up that `root` is within. */
  function Meet(nodes: Nodes, root: nat, node: nat): nat
    requires Shaped(nodes) && node in nodes && root in nodes
    decreases node
  {
    if Within(nodes, root, node) then node
    else
      assert HasParent(nodes, node);
      WithinRoot(nodes, root);
      Meet(nodes, root, nodes[node].parent.value)
  }

  /** The names from below `top` down to `node`. */
  function Names(nodes: Nodes, top: nat, node: nat): Path
    requires Shaped(nodes) && node in nodes && Within(nodes, node, top)
    decreases node
  {
    if node == top then []
    else
      assert HasParent(nodes, node);
      Names(nodes, top, nodes[node].parent.value) + [nodes[node].name]
  }

  /** One `..` for each step from `root` up to `top`. */
  function Ups(nodes: Nodes, root: nat, top: nat): Path
    requires Descending(nodes) && Within(nodes, root, top)
    decreases root
  {
    if root == top then [] else [".."] + Ups(nodes, nodes[root].parent.value, top)
  }

  lemma {:induction false} MeetIsBoth(nodes: Nodes, root: nat, node: nat)
    requires Shaped(nodes) && node in nodes && root in nodes
    ensures var m := Meet(nodes, root, node); m in nodes && Within(nodes, root, m) && Within(nodes, node, m)
    decreases node
  {
    if !Within(nodes, root, node) {
      assert HasParent(nodes, node);
      WithinRoot(nodes, root);
      MeetIsBoth(nodes, root, nodes[node].parent.value);
    }
  }

  function PathParts(nodes: Nodes, root: nat, node: nat): Path
    requires Shaped(nodes) && node in nodes && root in nodes
  {
    MeetIsBoth(nodes, root, node);
    var m := Meet(nodes, root, node);
    Ups(nodes, root, m) + Names(nodes, m, node)
  }

  function PathFrom(nodes: Nodes, root: nat, node: nat): string
    requires Shaped(nodes) && node in nodes && root in nodes
  {
    Render(PathParts(nodes, root, node))
  }

  /** The two loops of `path_from`: names collected on the way up, then a `..` for each step `root` is below. */
  method PrintPath(tree: CgroupTree, root: nat, node: nat) returns (s: string)
    requires Shaped(tree.nodes) && node in tree.nodes && root in tree.nodes
    ensures s == PathFrom(tree.nodes, root, node)
  {
    var nodes := tree.nodes;
    var up := tree.ChainOf(root);
    var down := [];
    var at := node;
    MeetIsBoth(nodes, root, node);
    ghost var m := Meet(nodes, root, node);
    while at !in up
      invariant at in nodes && Meet(nodes, root, at) == m && Within(nodes, at, m)
      invariant Names(nodes, m, node) == Names(nodes, m, at) + Reversed(down)
      decreases at
    {
      assert HasParent(nodes, at);
      WithinRoot(nodes, root);
      MeetIsBoth(nodes, root, at);
      down := down + [nodes[at].name];
      at := nodes[at].parent.value;
    }
    assert at == m && Names(nodes, m, at) == [];
    assert Reversed(down) == [] + Reversed(down);
    var parts: Path := [];
    var i := 0;
    ghost var here := root;
    while up[i] != at
      invariant i < |up| && up[i..] == Chain(nodes, here) && here in nodes && Within(nodes, here, m)
      invariant Ups(nodes, root, m) == parts + Ups(nodes, here, m)
      decreases here
    {
      assert HasParent(nodes, here);
      assert up[i] == Chain(nodes, here)[0];
      assert up[i + 1..] == up[i..][1..];
      parts := parts + [".."];
      here := nodes[here].parent.value;
      i := i + 1;
    }
    assert up[i] == Chain(nodes, here)[0];
    assert parts == parts + [];
    s := Render(parts + Reversed(down));
  }

  function Reversed(s: Path): Path {
    if s == [] then [] else [s[|s| - 1]] + Reversed(s[..|s| - 1])
  }

  // ---- They undo each other. ----

  lemma {:induction false} LookupNames(nodes: Nodes, top: nat, node: nat, rest: Path)
    requires Shaped(nodes) && node in nodes && top in nodes && Within(nodes, node, top)
    ensures LookupParts(nodes, top, Names(nodes, top, node) + rest) == LookupParts(nodes, node, rest)
    decreases node
  {
    if node == top {
      assert [] + rest == rest;
    } else {
      assert HasParent(nodes, node);
      var p := nodes[node].parent.value;
      LookupNames(nodes, top, p, [nodes[node].name] + rest);
      assert Names(nodes, top, node) + rest == Names(nodes, top, p) + ([nodes[node].name] + rest);
      assert ([nodes[node].name] + rest)[1..] == rest;
    }
  }

  /** Reaching a cgroup by components means having named its path. */
  lemma {:induction false} LookupReaches(nodes: Nodes, top: nat, parts: Path, node: nat)
    requires Shaped(nodes) && top in nodes && LookupParts(nodes, top, parts) == Some(Target(node, None))
    ensures node in nodes && Within(nodes, node, top) && Names(nodes, top, node) == parts
    decreases |parts|
  {
    if parts != [] {
      assert HasChild(nodes, top, parts[0]);
      var c := nodes[top].children[parts[0]];
      LookupReaches(nodes, c, parts[1..], node);
      NamesFrom(nodes, top, c, node);
      assert [parts[0]] + parts[1..] == parts;
    }
  }

  lemma {:induction false} NamesFrom(nodes: Nodes, top: nat, c: nat, node: nat)
    requires Shaped(nodes) && top in nodes && c in nodes && node in nodes && nodes[c].parent == Some(top)
    requires Within(nodes, node, c)
    ensures Within(nodes, node, top) && Names(nodes, top, node) == [nodes[c].name] + Names(nodes, c, node)
    decreases node
  {
    assert HasParent(nodes, node) && HasParent(nodes, c);
    WithinExists(nodes, node, c);
    if node == c {
      assert Names(nodes, top, top) == [];
    } else {
      NamesFrom(nodes, top, c, nodes[node].parent.value);
    }
  }

  /** Below `root` the meeting point is `root` itself. */
  lemma {:induction false} MeetBelow(nodes: Nodes, root: nat, node: nat)
    requires Shaped(nodes) && node in nodes && root in nodes && Within(nodes, node, root)
    ensures Meet(nodes, root, node) == root
    decreases node
  {
    assert HasParent(nodes, node);
    if node != root {
      WithinExists(nodes, node, root);
      if Within(nodes, root, node) { WithinExists(nodes, root, node); }
      MeetBelow(nodes, root, nodes[node].parent.value);
    }
  }

  /**
   Looking up the printed path of a cgroup at or below `root` finds it, if and only if
   every name on the way is one a path can hold.
   */
  lemma LookupUndoesPathFrom(nodes: Nodes, root: nat, node: nat)
    requires Shaped(nodes) && root in nodes && node in nodes && Within(nodes, node, root)
    ensures Lookup(nodes, root, PathFrom(nodes, root, node)) == Some(Target(node, None))
            <==> Good(Names(nodes, root, node))
  {
    MeetBelow(nodes, root, node);
    var parts := Names(nodes, root, node);
    assert PathParts(nodes, root, node) == [] + parts == parts;
    if Good(parts) {
      RoundTrip(parts);
      LookupNames(nodes, root, node, []);
      assert parts + [] == parts;
    } else {
      var read := Components(PathFrom(nodes, root, node));
      ComponentsGood(PathFrom(nodes, root, node));
      if LookupParts(nodes, root, read) == Some(Target(node, None)) {
        LookupReaches(nodes, root, read, node);
      }
    }
  }

  /** It does fail: `mkdir` takes the empty name, whose path reads back as the directory it is in. */
  lemma EmptyNameIsLost()
    ensures
      var t := Tree(map[ROOT := NewNode("", None, 0)], map[], 1, map[]);
      && Descending(t.nodes) && Mkdir(t, ROOT, "", 0).Ok?
      && var nodes := Mkdir(t, ROOT, "", 0).value.nodes;
         Shaped(nodes) && 1 in nodes && ROOT in nodes
         && Lookup(nodes, ROOT, PathFrom(nodes, ROOT, 1)) != Some(Target(1, None))
  {
    var t := Tree(map[ROOT := NewNode("", None, 0)], map[], 1, map[]);
    assert Valid(t);
    MkdirValid(t, ROOT, "", 0);
    var nodes := Mkdir(t, ROOT, "", 0).value.nodes;
    LookupUndoesPathFrom(nodes, ROOT, 1);
    assert Names(nodes, ROOT, ROOT) == [];
    assert "" in Names(nodes, ROOT, 1) && !GoodPart("");
  }

  /** Follow components, `..` going to the parent. */
  function Walk(nodes: Nodes, node: nat, parts: Path): Option<nat>
    decreases |parts|
  {
    if parts == [] then Some(node)
    else if node !in nodes then None
    else if parts[0] == ".." then
      if nodes[node].parent.Some? then Walk(nodes, nodes[node].parent.value, parts[1..]) else None
    else if parts[0] in nodes[node].children then Walk(nodes, nodes[node].children[parts[0]], parts[1..])
    else None
  }

  lemma {:induction false} WalkUps(nodes: Nodes, root: nat, top: nat, rest: Path)
    requires Descending(nodes) && Within(nodes, root, top)
    ensures Walk(nodes, root, Ups(nodes, root, top) + rest) == Walk(nodes, top, rest)
    decreases root
  {
    if root == top {
      assert [] + rest == rest;
    } else {
      var p := nodes[root].parent.value;
      WalkUps(nodes, p, top, rest);
      var all := Ups(nodes, root, top) + rest;
      assert all[0] == ".." && all[1..] == Ups(nodes, p, top) + rest;
    }
  }

  lemma {:induction false} WalkNames(nodes: Nodes, top: nat, node: nat, rest: Path)
    requires Shaped(nodes) && node in nodes && top in nodes && Within(nodes, node, top) && NoDots(nodes)
    ensures Walk(nodes, top, Names(nodes, top, node) + rest) == Walk(nodes, node, rest)
    decreases node
  {
    if node == top {
      assert [] + rest == rest;
    } else {
      assert HasParent(nodes, node);
      var p := nodes[node].parent.value;
      WalkNames(nodes, top, p, [nodes[node].name] + rest);
      assert Names(nodes, top, node) + rest == Names(nodes, top, p) + ([nodes[node].name] + rest);
      assert ([nodes[node].name] + rest)[1..] == rest;
    }
  }

  /** The meeting point is below every other cgroup the two are both within. */
  lemma {:induction false} MeetIsNearest(nodes: Nodes, root: nat, node: nat, x: nat)
    requires Shaped(nodes) && node in nodes && root in nodes && Within(nodes, node, x) && Within(nodes, root, x)
    ensures Within(nodes, Meet(nodes, root, node), x)
    decreases node
  {
    if !Within(nodes, root, node) {
      assert HasParent(nodes, node);
      WithinRoot(nodes, root);
      MeetIsNearest(nodes, root, nodes[node].parent.value, x);
    }
  }

  /** A name no path can hold belongs to a cgroup on the way down. */
  lemma {:induction false} BadOnTheWay(nodes: Nodes, top: nat, node: nat) returns (bad: nat)
    requires Shaped(nodes) && node in nodes && Within(nodes, node, top) && !Good(Names(nodes, top, node))
    ensures bad in nodes && bad != top && Within(nodes, bad, top) && Within(nodes, node, bad)
    ensures !GoodPart(nodes[bad].name)
    decreases node
  {
    assert HasParent(nodes, node);
    var p := nodes[node].parent.value;
    if GoodPart(nodes[node].name) { bad := BadOnTheWay(nodes, top, p); } else { bad := node; }
  }

  /** Components a path can hold never lead into a cgroup whose name is none. */
  lemma {:induction false} WalkStaysOut(nodes: Nodes, at: nat, parts: Path, bad: nat)
    requires Shaped(nodes) && at in nodes && !Within(nodes, at, bad) && Good(parts)
    requires bad in nodes && !GoodPart(nodes[bad].name)
    ensures match Walk(nodes, at, parts) case Some(n) => !Within(nodes, n, bad) case None => true
    decreases |parts|
  {
    if parts != [] {
      assert HasParent(nodes, at) && HasChild(nodes, at, parts[0]) && parts[0] in parts;
      if parts[0] == ".." {
        if nodes[at].parent.Some? { WalkStaysOut(nodes, nodes[at].parent.value, parts[1..], bad); }
      } else if parts[0] in nodes[at].children {
        WalkStaysOut(nodes, nodes[at].children[parts[0]], parts[1..], bad);
      }
    }
  }

  lemma {:induction false} UpsGood(nodes: Nodes, root: nat, top: nat)
    requires Descending(nodes) && Within(nodes, root, top)
    ensures Good(Ups(nodes, root, top))
    decreases root
  {
    assert GoodPart("..");
    if root != top { UpsGood(nodes, nodes[root].parent.value, top); }
  }

  /**
   For any two cgroups, walking the printed path from one ends at the other, if and
   only if every name on it is one a path can hold.
   */
  lemma WalkFollowsPathFrom(nodes: Nodes, root: nat, node: nat)
    requires Shaped(nodes) && NoDots(nodes) && root in nodes && node in nodes
    ensures Walk(nodes, root, Components(PathFrom(nodes, root, node))) == Some(node)
            <==> Good(PathParts(nodes, root, node))
  {
    MeetIsBoth(nodes, root, node);
    var m := Meet(nodes, root, node);
    if Good(PathParts(nodes, root, node)) {
      RoundTrip(PathParts(nodes, root, node));
      WalkUps(nodes, root, m, Names(nodes, m, node));
      WalkNames(nodes, m, node, []);
      assert Names(nodes, m, node) + [] == Names(nodes, m, node);
    } else {
      UpsGood(nodes, root, m);
      var bad := BadOnTheWay(nodes, m, node);
      if Within(nodes, root, bad) {
        MeetIsNearest(nodes, root, node, bad);
        WithinExists(nodes, m, bad);
        WithinExists(nodes, bad, m);
      }
      ComponentsGood(PathFrom(nodes, root, node));
      WalkStaysOut(nodes, root, Components(PathFrom(nodes, root, node)), bad);
    }
  }
}
