/**
 The filesystem object itself: entries, inodes and the quota changed in place, each
 method proved to do what its function on values says.
 */
module TmpFsObject {
  import opened Errno
  import opened Quotas
  import opened RelPaths
  import opened TmpFsModel
  import opened TmpFsInvariant
  import opened TmpFsRename
  import opened TmpFsRuns
  import Paths

  method SumXattrs(x: Xattrs) returns (sum: nat)
    ensures sum == XattrCost(x)
  {
    sum := 0;
    var left := x;
    while left != map[]
      invariant sum + XattrCost(left) == XattrCost(x)
      decreases |left|
    {
      var name :| name in left;
      XattrCostPut(left, name, left[name]);
      sum := sum + XattrBytes(name, left[name]);
      left := left - {name};
    }
    NoXattrsCostNothing();
  }

  method CostOf(rel: string, node: Node) returns (c: nat)
    ensures c == NodeCost(rel, node)
  {
    var contents := 0;
    if !node.File? {
      contents := SumXattrs(node.xattrs);
      if node.Symlink? { contents := |node.target| + contents; }
    }
    c := NODE_OVERHEAD + |rel| + contents;
  }

  method SumNodes(nodes: Nodes) returns (sum: nat)
    ensures sum == NodesCost(nodes)
  {
    sum := 0;
    var left := nodes;
    while left != map[]
      invariant sum + NodesCost(left) == NodesCost(nodes)
      decreases |left|
    {
      var k :| k in left;
      NodesCostPut(left, k, left[k]);
      var c := CostOf(k, left[k]);
      sum := sum + c;
      left := left - {k};
    }
    assert NodeCosts(left) == map[];
  }

  method SumFiles(files: Files) returns (sum: nat)
    ensures sum == FilesCost(files)
  {
    sum := 0;
    var left := files;
    while left != map[]
      invariant sum + FilesCost(left) == FilesCost(files)
      decreases |left|
    {
      var i := AnyKey(left);
      FilesCostPut(left, i, left[i]);
      var c := SumXattrs(left[i].xattrs);
      sum := sum + left[i].capacity + c;
      left := left - {i};
    }
    assert InodeCosts(left) == map[];
  }

  method AnyKey<K(==), V>(m: map<K, V>) returns (k: K)
    requires m != map[]
    ensures k in m
  {
    assert m.Keys != {};
    k :| k in m;
  }

  class TmpFs {
    var nodes: Nodes
    var files: Files
    var nextInode: nat
    var quota: Quota
    ghost var others: int

    ghost function State(): Fs
      reads this
    {
      Fs(nodes, files, nextInode, quota)
    }

    ghost predicate Valid()
      reads this
    {
      TmpFsModel.Inv(State(), others)
    }

    constructor ()
      ensures State() == New() && others == -256 && Valid()
    {
      nodes, files, nextInode, quota := map["" := Dir(map[])], map[], 2, Quota(U64_MAX, 0);
      others := -256;
      NewIsValid();
    }

    method Attach(q: Quota)
      requires Valid()
      modifies this
      ensures State() == AttachQuota(old(State()), q) && others == q.used && Valid()
    {
      var n := SumNodes(nodes);
      var f := SumFiles(files);
      quota := q.Charge(n + f);
      others := q.used;
    }

    /** Whether an ancestor of `rel` is there and no directory. */
    method AncestorBlocks(rel: string) returns (blocked: bool)
      ensures blocked == Blocked(nodes, rel)
    {
      var parent := ParentOf(rel);
      if parent == "" { return false; }
      var cs, prefix, i := Paths.Split(parent), "", 0;
      assert cs[0..] == cs;
      while i < |cs|
        invariant 0 <= i <= |cs|
        invariant Blocked(nodes, rel) <==> BlockedBy(nodes, prefix, cs[i..])
      {
        prefix := if prefix == "" then cs[i] else prefix + "/" + cs[i];
        if prefix in nodes && !nodes[prefix].Dir? { return true; }
        assert cs[i..][1..] == cs[i + 1..];
        i := i + 1;
      }
      return false;
    }

    method CheckParent(rel: string) returns (errno: nat)
      ensures errno == RequireParent(nodes, rel)
    {
      var blocked := AncestorBlocks(rel);
      if blocked { return ENOTDIR; }
      var p := ParentOf(rel);
      if p !in nodes { return ENOENT; }
      return if nodes[p].Dir? then OK else ENOTDIR;
    }

    method InsertNode(rel: string, node: Node) returns (ok: bool)
      modifies this`nodes, this`quota
      ensures ok == old(quota).Fits(NodeCost(rel, node))
      ensures ok ==> nodes == old(nodes)[rel := node] && quota == old(quota).Charge(NodeCost(rel, node))
      ensures !ok ==> nodes == old(nodes) && quota == old(quota)
    {
      var c := CostOf(rel, node);
      ok := quota.Fits(c);
      if ok {
        quota := quota.Charge(c);
        nodes := nodes[rel := node];
      }
    }

    /** Make the inode and the name, or undo the inode when the quota is full. */
    method AddFresh(rel: string, what: Fresh) returns (ok: bool)
      requires rel !in nodes && nextInode !in files
      modifies this`nodes, this`files, this`nextInode, this`quota
      ensures var node := NodeOf(what, old(nextInode));
        && nextInode == old(nextInode) + 1
        && ok == old(quota).Fits(NodeCost(rel, node))
        && (ok ==> nodes == old(nodes)[rel := node] && quota == old(quota).Charge(NodeCost(rel, node)))
        && (!ok ==> nodes == old(nodes) && quota == old(quota))
        && files == if ok && what.FreshFile? then old(files)[old(nextInode) := Inode([], 0, 1, map[])]
                    else old(files)
    {
      var ino := nextInode;
      nextInode := nextInode + 1;
      if what.FreshFile? { files := files[ino := Inode([], 0, 1, map[])]; }
      ok := InsertNode(rel, NodeOf(what, ino));
      if !ok && what.FreshFile? { files := files - {ino}; }
    }

    /** `create`, `mkdir`, `symlink` and the two cases of `mknod`. */
    method AddEntry(rel: string, what: Fresh) returns (errno: nat)
      requires Valid()
      modifies this`nodes, this`files, this`nextInode, this`quota
      ensures Reply(State(), errno) == Add(old(State()), rel, what) && Valid()
    {
      AddKeeps(State(), rel, what, others);
      errno := CheckParent(rel);
      if errno != OK { return; }
      if rel in nodes { return EEXIST; }
      var ok := AddFresh(rel, what);
      if !ok { errno := ENOSPC; }
    }

    method MakeNode(rel: string, mode: nat) returns (errno: nat)
      requires Valid()
      modifies this`nodes, this`files, this`nextInode, this`quota
      ensures Reply(State(), errno) == Mknod(old(State()), rel, mode) && Valid()
    {
      var typ := mode / 0x1000 % 16;
      if typ == 0 || typ == 8 {
        errno := AddEntry(rel, FreshFile);
      } else if typ == 1 {
        errno := AddEntry(rel, FreshFifo);
      } else {
        errno := EPERM;
      }
    }

    method DropEntry(rel: string)
      requires rel in nodes
      modifies this`nodes, this`files, this`quota
      ensures State() == RemoveEntry(old(State()), rel)
    {
      var node := nodes[rel];
      var c := CostOf(rel, node);
      nodes := nodes - {rel};
      quota := quota.Release(c);
      if node.File? && node.ino in files {
        var f := files[node.ino];
        if f.links > 1 {
          files := files[node.ino := f.(links := f.links - 1)];
        } else {
          files := files - {node.ino};
          var x := SumXattrs(f.xattrs);
          quota := quota.Release(f.capacity + x);
        }
      }
    }

    method UnlinkEntry(rel: string) returns (errno: nat)
      requires Valid()
      modifies this`nodes, this`files, this`quota
      ensures Reply(State(), errno) == Unlink(old(State()), rel) && Valid()
    {
      StepKeeps(State(), OpUnlink(rel), others);
      var blocked := AncestorBlocks(rel);
      if blocked { return ENOTDIR; }
      if rel !in nodes { return ENOENT; }
      if nodes[rel].Dir? { return EISDIR; }
      DropEntry(rel);
      errno := OK;
    }

    method RemoveDir(rel: string) returns (errno: nat)
      requires Valid() && rel != ""
      modifies this`nodes, this`files, this`quota
      ensures Reply(State(), errno) == Rmdir(old(State()), rel) && Valid()
    {
      StepKeeps(State(), OpRmdir(rel), others);
      var blocked := AncestorBlocks(rel);
      if blocked { return ENOTDIR; }
      if rel !in nodes { return ENOENT; }
      if !nodes[rel].Dir? { return ENOTDIR; }
      if HasChild(nodes, rel) { return ENOTEMPTY; }
      DropEntry(rel);
      errno := OK;
    }

    /** One more name for an inode, counted. */
    method AddName(rel: string, ino: nat) returns (ok: bool)
      requires ino in files
      modifies this`nodes, this`files, this`quota
      ensures ok == old(quota).Fits(NodeCost(rel, File(ino)))
      ensures State() ==
        if ok then old(State()).(
          nodes := old(nodes)[rel := File(ino)],
          files := old(files)[ino := old(files)[ino].(links := old(files)[ino].links + 1)],
          quota := old(quota).Charge(NodeCost(rel, File(ino))))
        else old(State())
    {
      ok := InsertNode(rel, File(ino));
      if ok { files := files[ino := files[ino].(links := files[ino].links + 1)]; }
    }

    method HardLink(source: string, rel: string) returns (errno: nat)
      requires Valid()
      modifies this`nodes, this`files, this`quota
      ensures Reply(State(), errno) == Link(old(State()), source, rel) && Valid()
    {
      LinkKeeps(State(), source, rel, others);
      if source !in nodes { return ENOENT; }
      if nodes[source].Dir? { return EPERM; }
      if !nodes[source].File? { return EOPNOTSUPP; }
      var ino := nodes[source].ino;
      errno := CheckParent(rel);
      if errno != OK { return; }
      if rel in nodes { return EEXIST; }
      var ok := AddName(rel, ino);
      if !ok { return ENOSPC; }
    }

    /** Make room for `end` bytes in a file; a failure leaves everything as it was. */
    method GrowFile(f: Inode, end: nat, alloc: Alloc) returns (ok: bool, grown: Inode)
      modifies this`quota
      ensures var g := Grow(old(quota), f.capacity, end, alloc);
        ok == g.ok && quota == g.quota && grown == f.(capacity := g.capacity)
    {
      grown := f;
      if end <= f.capacity { return true, f; }
      var double := Max(end, f.capacity * 2);
      var target;
      if quota.Fits(double - f.capacity) {
        target := double;
      } else if quota.Fits(end - f.capacity) {
        target := end;
      } else {
        return false, f;
      }
      quota := quota.Charge(target - f.capacity);
      if alloc.fails {
        quota := quota.Release(target - f.capacity);
        return false, f;
      }
      grown := f.(capacity := target + alloc.slack);
      quota := quota.Charge(grown.capacity - target);
      return true, grown;
    }

    method Write(rel: string, off: nat, buf: seq<nat>, alloc: Alloc) returns (errno: nat)
      requires Valid()
      modifies this`files, this`quota
      ensures Reply(State(), errno) == WriteAt(old(State()), rel, off, buf, alloc) && Valid()
    {
      WriteKeeps(State(), rel, off, buf, alloc, others);
      if rel !in nodes { return ENOENT; }
      if !nodes[rel].File? { return EISDIR; }
      var ino, end := nodes[rel].ino, off + |buf|;
      var f := files[ino];
      if end > MAX_FILE_SIZE { return EFBIG; }
      if |f.data| < end {
        var ok;
        ok, f := GrowFile(f, end, alloc);
        if !ok { return ENOSPC; }
        f := f.(data := Resized(f.data, end));
      }
      f := f.(data := f.data[..end - |buf|] + buf + f.data[end..]);
      files := files[ino := f];
      errno := OK;
    }

    /** The inode of a file cut or extended to `len`, and the quota with it. */
    method ResizeFile(f: Inode, len: nat, alloc: Alloc, kept: nat) returns (ok: bool, after: Inode)
      modifies this`quota
      ensures var g := Grow(old(quota), f.capacity, len, alloc);
        && ok == g.ok
        && (!ok ==> quota == old(quota))
        && (ok ==>
              var c := if len < g.capacity / 2 then Shrunk(g.capacity, len, kept) else g.capacity;
              && after == f.(data := Resized(f.data, len), capacity := c)
              && quota == g.quota.Release(g.capacity - c))
    {
      ok, after := true, f;
      if len > f.capacity {
        ok, after := GrowFile(f, len, alloc);
        if !ok { return; }
      }
      after := after.(data := Resized(after.data, len));
      if len < after.capacity / 2 {
        var before := after.capacity;
        after := after.(capacity := Shrunk(before, len, kept));
        quota := quota.Release(before - after.capacity);
      }
    }

    method SetLength(rel: string, len: nat, alloc: Alloc, kept: nat) returns (errno: nat)
      requires Valid()
      modifies this`files, this`quota
      ensures Reply(State(), errno) == Truncate(old(State()), rel, len, alloc, kept) && Valid()
    {
      TruncateKeeps(State(), rel, len, alloc, kept, others);
      if rel !in nodes { return ENOENT; }
      if nodes[rel].Dir? { return EISDIR; }
      if !nodes[rel].File? { return EINVAL; }
      var ino := nodes[rel].ino;
      if len > MAX_FILE_SIZE { return EFBIG; }
      var ok, f := ResizeFile(files[ino], len, alloc, kept);
      if !ok { return ENOSPC; }
      files := files[ino := f];
      errno := OK;
    }

    method PutXattr(rel: string, name: string, value: seq<nat>) returns (errno: nat)
      requires Valid()
      modifies this`nodes, this`files, this`quota
      ensures Reply(State(), errno) == SetXattr(old(State()), rel, name, value) && Valid()
    {
      SetXattrKeeps(State(), rel, name, value, others);
      if rel !in nodes { return ENOENT; }
      if !quota.Fits(XattrBytes(name, value)) { return ENOSPC; }
      quota := quota.Charge(XattrBytes(name, value));
      var node := nodes[rel];
      var x := if node.File? then files[node.ino].xattrs else node.xattrs;
      if node.File? {
        files := files[node.ino := files[node.ino].(xattrs := x[name := value])];
      } else {
        nodes := nodes[rel := node.(xattrs := x[name := value])];
      }
      if name in x { quota := quota.Release(XattrBytes(name, x[name])); }
      errno := OK;
    }

    method DropXattr(rel: string, name: string) returns (errno: nat)
      requires Valid()
      modifies this`nodes, this`files, this`quota
      ensures Reply(State(), errno) == RemoveXattr(old(State()), rel, name) && Valid()
    {
      RemoveXattrKeeps(State(), rel, name, others);
      if rel !in nodes { return ENOENT; }
      var node := nodes[rel];
      var x := if node.File? then files[node.ino].xattrs else node.xattrs;
      if name !in x { return ENODATA; }
      if node.File? {
        files := files[node.ino := files[node.ino].(xattrs := x - {name})];
      } else {
        nodes := nodes[rel := node.(xattrs := x - {name})];
      }
      quota := quota.Release(XattrBytes(name, x[name]));
      errno := OK;
    }

    /** One turn of the loop of `rename`. */
    method MoveKey(key: string, newKey: string)
      requires key in nodes && newKey !in nodes
      requires quota.used == others + NodesCost(nodes) + FilesCost(files) && quota.used + |newKey| >= |key|
      modifies this`nodes, this`quota
      ensures nodes == MoveOne(old(nodes), key, newKey) && quota.limit == old(quota).limit
      ensures quota.used == others + NodesCost(nodes) + FilesCost(files)
    {
      MoveOneCounts(nodes, key, newKey, 0);
      var node := nodes[key];
      nodes := nodes - {key};
      quota := quota.Charge(|newKey|).Release(|key|);
      nodes := nodes[newKey := node];
    }

    /** The loop of `rename`: one key at a time, in whatever order. */
    method MoveKeys(from: string, to: string)
      requires Exact(State(), others) && Ready(nodes, from, to)
      modifies this`nodes, this`quota
      ensures nodes == Renamed(old(nodes), from, to)
      ensures Exact(State(), others) && quota.limit == old(quota).limit
    {
      ghost var was := nodes;
      var todo := Moved(nodes, from);
      MoveBegins(nodes, from, to);
      while todo != {}
        invariant Moving(was, todo, from, to, nodes)
        invariant quota.limit == old(quota).limit
        invariant quota.used == others + NodesCost(nodes) + FilesCost(files)
        decreases todo
      {
        var key :| key in todo;
        MoveTurn(was, todo, from, to, nodes, key);
        MoveKey(key, NewKey(key, from, to));
        todo := todo - {key};
      }
      MoveEnds(was, from, to, nodes);
    }

    /** The second half of `rename`, once nothing speaks against it. */
    method ReplaceAndMove(from: string, to: string)
      requires Valid() && from != "" && Renames(State(), from, to)
      modifies this`nodes, this`files, this`quota
      ensures State() == Rename(old(State()), from, to).fs
    {
      RenameStart(State(), from, to, others);
      if to in nodes { DropEntry(to); }
      ghost var start := State();
      MoveKeys(from, to);
      MoveAllIs(start, State(), from, to, others);
    }

    method RenameEntry(from: string, to: string) returns (errno: nat)
      requires Valid() && from != ""
      modifies this`nodes, this`files, this`quota
      ensures Reply(State(), errno) == Rename(old(State()), from, to) && Valid()
    {
      RenameKeeps(State(), from, to, others);
      if from == to { return if from in nodes then OK else ENOENT; }
      if from !in nodes { return ENOENT; }
      if SameFile(nodes, from, to) { return OK; }
      var fromDir := nodes[from].Dir?;
      if fromDir && IsBelow(to, from) { return EINVAL; }
      errno := CheckParent(to);
      if errno != OK { return; }
      if to in nodes {
        errno := ReplaceError(nodes, fromDir, to);
        if errno != OK { return; }
      }
      ReplaceAndMove(from, to);
    }
  }
}
