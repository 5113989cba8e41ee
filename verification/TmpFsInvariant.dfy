/**
 What every run of the in-memory filesystem keeps: the flat map stays a tree, link
 counts count names, no inode is without a name, and the quota holds exactly what the
 entries and inodes cost.
 */
module TmpFsInvariant {
  import opened Errno
  import opened Sums
  import Quotas
  import opened RelPaths
  import opened TmpFsModel

  // Costs under one change of a map.

  lemma NodesCostPut(nodes: Nodes, k: string, n: Node)
    ensures NodesCost(nodes[k := n]) == NodesCost(nodes - {k}) + NodeCost(k, n)
    ensures k in nodes ==> NodesCost(nodes) == NodesCost(nodes - {k}) + NodeCost(k, nodes[k])
    ensures k !in nodes ==> nodes - {k} == nodes
  {
    assert NodeCosts(nodes[k := n]) == NodeCosts(nodes)[k := NodeCost(k, n)];
    assert NodeCosts(nodes - {k}) == NodeCosts(nodes) - {k};
    TotalPut(NodeCosts(nodes), k, NodeCost(k, n));
    if k in nodes { TotalRemove(NodeCosts(nodes), k); } else { assert nodes - {k} == nodes; }
  }

  lemma FilesCostPut(files: Files, i: nat, f: Inode)
    ensures FilesCost(files[i := f]) == FilesCost(files - {i}) + InodeCost(f)
    ensures i in files ==> FilesCost(files) == FilesCost(files - {i}) + InodeCost(files[i])
    ensures i !in files ==> files - {i} == files
  {
    assert InodeCosts(files[i := f]) == InodeCosts(files)[i := InodeCost(f)];
    assert InodeCosts(files - {i}) == InodeCosts(files) - {i};
    TotalPut(InodeCosts(files), i, InodeCost(f));
    if i in files { TotalRemove(InodeCosts(files), i); } else { assert files - {i} == files; }
  }

  lemma XattrCostPut(x: Xattrs, name: string, value: seq<nat>)
    ensures XattrCost(x[name := value]) == XattrCost(x - {name}) + XattrBytes(name, value)
    ensures name in x ==> XattrCost(x) == XattrCost(x - {name}) + XattrBytes(name, x[name])
    ensures name !in x ==> x - {name} == x
  {
    assert XattrCosts(x[name := value]) == XattrCosts(x)[name := XattrBytes(name, value)];
    assert XattrCosts(x - {name}) == XattrCosts(x) - {name};
    TotalPut(XattrCosts(x), name, XattrBytes(name, value));
    if name in x { TotalRemove(XattrCosts(x), name); } else { assert x - {name} == x; }
  }

  lemma NoXattrsCostNothing()
    ensures XattrCost(map[]) == 0
  {
    assert XattrCosts(map[]) == map[];
  }

  /** The root entry is always there, so an unpaid root never makes a release saturate. */
  lemma RootIsPaid(fs: Fs, k: string, others: int)
    requires Inv(fs, others) && k in fs.nodes && k != ""
    ensures fs.quota.used >= NodeCost(k, fs.nodes[k]) + FilesCost(fs.files)
  {
    NodesCostPut(fs.nodes, k, fs.nodes[k]);
    NodesCostPut(fs.nodes - {k}, "", fs.nodes[""]);
  }

  // Names under one change of a map.

  lemma NamesPut(nodes: Nodes, k: string, n: Node, i: nat)
    requires k !in nodes
    ensures |Names(nodes[k := n], i)| == |Names(nodes, i)| + (if n == File(i) then 1 else 0)
  {
    if n == File(i) {
      assert Names(nodes[k := n], i) == Names(nodes, i) + {k};
    } else {
      assert Names(nodes[k := n], i) == Names(nodes, i);
    }
  }

  lemma NamesDrop(nodes: Nodes, k: string, i: nat)
    requires k in nodes
    ensures |Names(nodes - {k}, i)| == |Names(nodes, i)| - (if nodes[k] == File(i) then 1 else 0)
  {
    if nodes[k] == File(i) {
      assert Names(nodes - {k}, i) == Names(nodes, i) - {k};
    } else {
      assert Names(nodes - {k}, i) == Names(nodes, i);
    }
  }

  lemma NoNames(nodes: Nodes, files: Files, i: nat)
    requires Linked(nodes, files) && i !in files
    ensures Names(nodes, i) == {}
  {
    assert forall k :: k in nodes && nodes[k] == File(i) ==> nodes[k].ino in files;
  }

  // Adding an entry.

  lemma PutKeepsTree(nodes: Nodes, rel: string, n: Node)
    requires Tree(nodes)
    requires if rel in nodes then n.Dir? <==> nodes[rel].Dir? else HasParent(nodes, rel)
    ensures Tree(nodes[rel := n])
  {
    var after := nodes[rel := n];
    forall k | k in after && k != "" ensures HasParent(after, k) {
      assert HasParent(nodes, k);
    }
  }

  /** A new name for an inode whose count goes up by one; a new inode starts from none. */
  lemma NameKeepsLinked(nodes: Nodes, files: Files, rel: string, ino: nat, f: Inode)
    requires Linked(nodes, files) && rel !in nodes
    requires f.links == 1 + if ino in files then files[ino].links else 0
    ensures Linked(nodes[rel := File(ino)], files[ino := f])
  {
    var after := nodes[rel := File(ino)];
    if ino !in files { NoNames(nodes, files, ino); }
    var counted := files[ino := f];
    forall i | i in counted ensures CountsNames(after, counted[i], i) {
      assert i in files ==> CountsNames(nodes, files[i], i);
      NamesPut(nodes, rel, File(ino), i);
    }
  }

  lemma EntryKeepsLinked(nodes: Nodes, files: Files, rel: string, n: Node)
    requires Linked(nodes, files) && !n.File? && (rel in nodes ==> !nodes[rel].File?)
    ensures Linked(nodes[rel := n], files)
  {
    forall i | i in files ensures CountsNames(nodes[rel := n], files[i], i) {
      assert CountsNames(nodes, files[i], i);
      assert Names(nodes[rel := n], i) == Names(nodes, i);
    }
  }

  lemma AddKeeps(fs: Fs, rel: string, what: Fresh, others: int)
    requires Inv(fs, others)
    ensures Inv(Add(fs, rel, what).fs, others)
  {
    var r := Add(fs, rel, what);
    if r.errno == OK {
      var node := NodeOf(what, fs.nextInode);
      NodesCostPut(fs.nodes, rel, node);
      PutKeepsTree(fs.nodes, rel, node);
      if what.FreshFile? {
        var f := Inode([], 0, 1, map[]);
        NameKeepsLinked(fs.nodes, fs.files, rel, fs.nextInode, f);
        FilesCostPut(fs.files, fs.nextInode, f);
        NoXattrsCostNothing();
      } else {
        EntryKeepsLinked(fs.nodes, fs.files, rel, node);
      }
    }
  }

  lemma LinkKeeps(fs: Fs, source: string, rel: string, others: int)
    requires Inv(fs, others)
    ensures Inv(Link(fs, source, rel).fs, others)
  {
    var r := Link(fs, source, rel);
    if r.errno == OK {
      var ino := fs.nodes[source].ino;
      NodesCostPut(fs.nodes, rel, File(ino));
      PutKeepsTree(fs.nodes, rel, File(ino));
      FilesCostPut(fs.files, ino, r.fs.files[ino]);
      NameKeepsLinked(fs.nodes, fs.files, rel, ino, r.fs.files[ino]);
    }
  }

  // Removing an entry with nothing below it.

  lemma RemoveKeepsTree(nodes: Nodes, rel: string)
    requires Tree(nodes) && rel in nodes && rel != ""
    requires nodes[rel].Dir? ==> !HasChild(nodes, rel)
    ensures Tree(nodes - {rel})
  {
    forall k | k in nodes - {rel} && k != "" ensures HasParent(nodes - {rel}, k) {
      assert HasParent(nodes, k);
      assert ParentOf(k) == rel ==> HasChild(nodes, rel);
    }
  }

  lemma RemoveKeepsLinked(fs: Fs, rel: string)
    requires rel in fs.nodes && Linked(fs.nodes, fs.files)
    ensures var s := RemoveEntry(fs, rel); Linked(s.nodes, s.files)
  {
    var s := RemoveEntry(fs, rel);
    forall i | i in s.files ensures CountsNames(s.nodes, s.files[i], i) {
      assert CountsNames(fs.nodes, fs.files[i], i);
      NamesDrop(fs.nodes, rel, i);
    }
    forall k | k in s.nodes && s.nodes[k].File? ensures s.nodes[k].ino in s.files {
      var i := s.nodes[k].ino;
      if fs.nodes[rel] == File(i) {
        assert CountsNames(fs.nodes, fs.files[i], i);
        TwoNames(Names(fs.nodes, i), k, rel);
      }
    }
  }

  lemma TwoNames(s: set<string>, a: string, b: string)
    requires a in s && b in s && a != b
    ensures |s| > 1
  {
    assert b in s - {a};
    assert |s| == |s - {a}| + 1;
  }

  lemma RemoveKeepsExact(fs: Fs, rel: string, others: int)
    requires Inv(fs, others) && rel in fs.nodes && rel != ""
    ensures Exact(RemoveEntry(fs, rel), others)
  {
    var node := fs.nodes[rel];
    RootIsPaid(fs, rel, others);
    NodesCostPut(fs.nodes, rel, node);
    if node.File? {
      var f := fs.files[node.ino];
      FilesCostPut(fs.files, node.ino, f.(links := f.links - 1));
    }
  }

  lemma RemoveKeeps(fs: Fs, rel: string, others: int)
    requires Inv(fs, others) && rel in fs.nodes && rel != ""
    requires fs.nodes[rel].Dir? ==> !HasChild(fs.nodes, rel)
    ensures Inv(RemoveEntry(fs, rel), others)
  {
    RemoveKeepsTree(fs.nodes, rel);
    RemoveKeepsLinked(fs, rel);
    RemoveKeepsExact(fs, rel, others);
  }

  // Changing an inode or an entry in place.

  lemma SameLinksKeepLinked(nodes: Nodes, files: Files, ino: nat, f: Inode)
    requires Linked(nodes, files) && ino in files && f.links == files[ino].links
    ensures Linked(nodes, files[ino := f])
  {
    var after := files[ino := f];
    forall i | i in after ensures CountsNames(nodes, after[i], i) {
      assert CountsNames(nodes, files[i], i);
    }
  }

  /** An inode whose links stay is replaced: only its cost matters. */
  lemma InodeKeeps(fs: Fs, ino: nat, f: Inode, q: Quotas.Quota, others: int)
    requires Inv(fs, others) && ino in fs.files
    requires f.links == fs.files[ino].links && |f.data| <= f.capacity
    requires q.used - fs.quota.used == InodeCost(f) - InodeCost(fs.files[ino])
    ensures Inv(fs.(files := fs.files[ino := f], quota := q), others)
  {
    FilesCostPut(fs.files, ino, f);
    SameLinksKeepLinked(fs.nodes, fs.files, ino, f);
  }

  lemma EntryKeeps(fs: Fs, rel: string, n: Node, q: Quotas.Quota, others: int)
    requires Inv(fs, others) && rel in fs.nodes
    requires !fs.nodes[rel].File? && !n.File? && (n.Dir? <==> fs.nodes[rel].Dir?)
    requires q.used - fs.quota.used == NodeCost(rel, n) - NodeCost(rel, fs.nodes[rel])
    ensures Inv(fs.(nodes := fs.nodes[rel := n], quota := q), others)
  {
    NodesCostPut(fs.nodes, rel, n);
    PutKeepsTree(fs.nodes, rel, n);
    EntryKeepsLinked(fs.nodes, fs.files, rel, n);
  }

  lemma WriteKeeps(fs: Fs, rel: string, off: nat, buf: seq<nat>, alloc: Alloc, others: int)
    requires Inv(fs, others)
    ensures Inv(WriteAt(fs, rel, off, buf, alloc).fs, others)
  {
    var r := WriteAt(fs, rel, off, buf, alloc);
    if r.errno == OK {
      var ino := fs.nodes[rel].ino;
      InodeKeeps(fs, ino, r.fs.files[ino], r.fs.quota, others);
    }
  }

  lemma TruncateKeeps(fs: Fs, rel: string, len: nat, alloc: Alloc, kept: nat, others: int)
    requires Inv(fs, others)
    ensures Inv(Truncate(fs, rel, len, alloc, kept).fs, others)
  {
    var r := Truncate(fs, rel, len, alloc, kept);
    if r.errno == OK {
      var ino := fs.nodes[rel].ino;
      FilesCostPut(fs.files, ino, r.fs.files[ino]);
      NodesCostPut(fs.nodes, "", fs.nodes[""]);
      InodeKeeps(fs, ino, r.fs.files[ino], r.fs.quota, others);
    }
  }

  /** New attributes keep everything when the quota moves by what they cost. */
  lemma XattrsKeep(fs: Fs, rel: string, x: Xattrs, q: Quotas.Quota, others: int)
    requires Inv(fs, others) && HasMeta(fs, rel)
    requires q.used - fs.quota.used == XattrCost(x) - XattrCost(XattrsOf(fs, rel))
    ensures Inv(WithXattrs(fs, rel, x).(quota := q), others)
  {
    var node := fs.nodes[rel];
    if node.File? {
      InodeKeeps(fs, node.ino, fs.files[node.ino].(xattrs := x), q, others);
    } else {
      EntryKeeps(fs, rel, node.(xattrs := x), q, others);
    }
  }

  /** Attributes are paid for. */
  lemma XattrsArePaid(fs: Fs, rel: string, others: int)
    requires Inv(fs, others) && HasMeta(fs, rel)
    ensures fs.quota.used >= XattrCost(XattrsOf(fs, rel))
  {
    var node := fs.nodes[rel];
    NodesCostPut(fs.nodes, "", fs.nodes[""]);
    if node.File? {
      FilesCostPut(fs.files, node.ino, fs.files[node.ino]);
    } else if rel != "" {
      RootIsPaid(fs, rel, others);
    }
  }

  lemma SetXattrKeeps(fs: Fs, rel: string, name: string, value: seq<nat>, others: int)
    requires Inv(fs, others)
    ensures Inv(SetXattr(fs, rel, name, value).fs, others)
  {
    var r := SetXattr(fs, rel, name, value);
    if r.errno == OK {
      var x := XattrsOf(fs, rel);
      XattrCostPut(x, name, value);
      XattrsArePaid(fs, rel, others);
      XattrsKeep(fs, rel, x[name := value], r.fs.quota, others);
    }
  }

  lemma RemoveXattrKeeps(fs: Fs, rel: string, name: string, others: int)
    requires Inv(fs, others)
    ensures Inv(RemoveXattr(fs, rel, name).fs, others)
  {
    var r := RemoveXattr(fs, rel, name);
    if r.errno == OK {
      var x := XattrsOf(fs, rel);
      XattrCostPut(x, name, []);
      XattrsArePaid(fs, rel, others);
      XattrsKeep(fs, rel, x - {name}, r.fs.quota, others);
    }
  }
}
