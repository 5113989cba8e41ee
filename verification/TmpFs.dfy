/**
 The in-memory filesystem (`src/fs/tmpfs.rs`) as a value: a flat map from paths to
 entries, regular files as inodes shared by their names, and the quota all of it is
 charged to. Each operation is a function from a state to a state and an error number.
 */
module TmpFsModel {
  import opened Errno
  import opened Sums
  import opened Quotas
  import opened RelPaths
  import Paths

  const NODE_OVERHEAD: nat := 256
  const MAX_FILE_SIZE: nat := 0x7FFF_FFFF_FFFF_FFFF

  type Xattrs = map<string, seq<nat>>

  datatype Node =
    | Dir(xattrs: Xattrs)
    | File(ino: nat)
    | Fifo(xattrs: Xattrs)
    | Symlink(target: string, xattrs: Xattrs)

  datatype Inode = Inode(data: seq<nat>, capacity: nat, links: nat, xattrs: Xattrs)

  type Nodes = map<string, Node>
  type Files = map<nat, Inode>

  datatype Fs = Fs(nodes: Nodes, files: Files, nextInode: nat, quota: Quota)

  datatype Reply = Reply(fs: Fs, errno: nat)

  // What things cost.

  function XattrBytes(name: string, value: seq<nat>): nat {
    |name| + |value| + NODE_OVERHEAD
  }

  function XattrCosts(x: Xattrs): map<string, nat> {
    map n | n in x :: XattrBytes(n, x[n])
  }

  ghost function XattrCost(x: Xattrs): nat {
    Total(XattrCosts(x))
  }

  ghost function NodeCost(rel: string, node: Node): nat {
    NODE_OVERHEAD + |rel| + match node
    case File(_) => 0
    case Dir(x) => XattrCost(x)
    case Fifo(x) => XattrCost(x)
    case Symlink(target, x) => |target| + XattrCost(x)
  }

  ghost function InodeCost(f: Inode): nat {
    f.capacity + XattrCost(f.xattrs)
  }

  ghost function NodeCosts(nodes: Nodes): map<string, nat> {
    map k | k in nodes :: NodeCost(k, nodes[k])
  }

  ghost function InodeCosts(files: Files): map<nat, nat> {
    map i | i in files :: InodeCost(files[i])
  }

  ghost function NodesCost(nodes: Nodes): nat {
    Total(NodeCosts(nodes))
  }

  ghost function FilesCost(files: Files): nat {
    Total(InodeCosts(files))
  }

  // The invariant.

  /** Every path but the root is under a directory that is there. */
  ghost predicate Tree(nodes: Nodes) {
    && "" in nodes && nodes[""].Dir?
    && forall k {:trigger HasParent(nodes, k)} :: k in nodes && k != "" ==> HasParent(nodes, k)
  }

  predicate HasParent(nodes: Nodes, k: string) {
    ParentOf(k) in nodes && nodes[ParentOf(k)].Dir?
  }

  /** The names of an inode. */
  function Names(nodes: Nodes, ino: nat): set<string> {
    set k | k in nodes && nodes[k] == File(ino)
  }

  /** Every name has its inode, and every inode counts its names, of which there is one at least. */
  ghost predicate Linked(nodes: Nodes, files: Files) {
    && (forall k :: k in nodes && nodes[k].File? ==> nodes[k].ino in files)
    && forall i :: i in files ==> CountsNames(nodes, files[i], i)
  }

  predicate CountsNames(nodes: Nodes, f: Inode, i: nat) {
    f.links == |Names(nodes, i)| && f.links >= 1
  }

  ghost predicate Sound(files: Files, nextInode: nat) {
    forall i :: i in files ==> i < nextInode && |files[i].data| <= files[i].capacity
  }

  /**
   `others` is what else is charged to the quota. A filesystem never attached to a quota
   has not paid for its root entry, so there it starts one entry below zero.
   */
  ghost predicate Exact(fs: Fs, others: int) {
    && others + NODE_OVERHEAD >= 0
    && fs.quota.used == others + NodesCost(fs.nodes) + FilesCost(fs.files)
  }

  ghost predicate Inv(fs: Fs, others: int) {
    Tree(fs.nodes) && Linked(fs.nodes, fs.files) && Sound(fs.files, fs.nextInode) && Exact(fs, others)
  }

  // Paths of the operations.

  /** Some prefix built from `prefix` and the components `cs` is there and no directory. */
  predicate BlockedBy(nodes: Nodes, prefix: string, cs: seq<string>)
    decreases |cs|
  {
    cs != [] &&
    var p := if prefix == "" then cs[0] else prefix + "/" + cs[0];
    (p in nodes && !nodes[p].Dir?) || BlockedBy(nodes, p, cs[1..])
  }

  predicate Blocked(nodes: Nodes, rel: string) {
    var parent := ParentOf(rel);
    parent != "" && BlockedBy(nodes, "", Paths.Split(parent))
  }

  function RequireParent(nodes: Nodes, rel: string): (errno: nat)
    ensures errno == OK ==> HasParent(nodes, rel)
  {
    if Blocked(nodes, rel) then ENOTDIR
    else if ParentOf(rel) !in nodes then ENOENT
    else if nodes[ParentOf(rel)].Dir? then OK
    else ENOTDIR
  }

  predicate HasChild(nodes: Nodes, dir: string) {
    exists k :: k in nodes && k != "" && ParentOf(k) == dir
  }

  // Operations.

  function New(): Fs {
    Fs(map["" := Dir(map[])], map[], 2, Quota(U64_MAX, 0))
  }

  ghost function AttachQuota(fs: Fs, quota: Quota): Fs {
    fs.(quota := quota.Charge(NodesCost(fs.nodes) + FilesCost(fs.files)))
  }

  datatype Fresh = FreshFile | FreshDir | FreshFifo | FreshLink(target: string)

  function NodeOf(what: Fresh, ino: nat): Node {
    match what
    case FreshFile => File(ino)
    case FreshDir => Dir(map[])
    case FreshFifo => Fifo(map[])
    case FreshLink(target) => Symlink(target, map[])
  }

  /** `create`, `mkdir`, `mknod` and `symlink`: an inode number is used up even on a full quota. */
  ghost function Add(fs: Fs, rel: string, what: Fresh): Reply {
    var e := RequireParent(fs.nodes, rel);
    if e != OK then Reply(fs, e)
    else if rel in fs.nodes then Reply(fs, EEXIST)
    else
      var node := NodeOf(what, fs.nextInode);
      var used := fs.(nextInode := fs.nextInode + 1);
      if !fs.quota.Fits(NodeCost(rel, node)) then Reply(used, ENOSPC)
      else Reply(used.(
        nodes := fs.nodes[rel := node],
        files := if what.FreshFile? then fs.files[fs.nextInode := Inode([], 0, 1, map[])] else fs.files,
        quota := fs.quota.Charge(NodeCost(rel, node))), OK)
  }

  /** The type bits of a mode choose what `mknod` makes: 0 and 8 a regular file, 1 a FIFO. */
  ghost function Mknod(fs: Fs, rel: string, mode: nat): Reply {
    var typ := mode / 0x1000 % 16;
    if typ == 0 || typ == 8 then Add(fs, rel, FreshFile)
    else if typ == 1 then Add(fs, rel, FreshFifo)
    else Reply(fs, EPERM)
  }

  ghost function RemoveEntry(fs: Fs, rel: string): Fs
    requires rel in fs.nodes
  {
    var node := fs.nodes[rel];
    var gone := fs.(nodes := fs.nodes - {rel}, quota := fs.quota.Release(NodeCost(rel, node)));
    if !node.File? || node.ino !in fs.files then gone
    else
      var f := fs.files[node.ino];
      if f.links > 1 then gone.(files := fs.files[node.ino := f.(links := f.links - 1)])
      else gone.(files := fs.files - {node.ino}, quota := gone.quota.Release(InodeCost(f)))
  }

  ghost function Unlink(fs: Fs, rel: string): Reply {
    if Blocked(fs.nodes, rel) then Reply(fs, ENOTDIR)
    else if rel !in fs.nodes then Reply(fs, ENOENT)
    else if fs.nodes[rel].Dir? then Reply(fs, EISDIR)
    else Reply(RemoveEntry(fs, rel), OK)
  }

  ghost function Rmdir(fs: Fs, rel: string): Reply {
    if Blocked(fs.nodes, rel) then Reply(fs, ENOTDIR)
    else if rel !in fs.nodes then Reply(fs, ENOENT)
    else if !fs.nodes[rel].Dir? then Reply(fs, ENOTDIR)
    else if HasChild(fs.nodes, rel) then Reply(fs, ENOTEMPTY)
    else Reply(RemoveEntry(fs, rel), OK)
  }

  ghost function Link(fs: Fs, old_: string, rel: string): Reply {
    if old_ !in fs.nodes then Reply(fs, ENOENT)
    else match fs.nodes[old_]
      case Dir(_) => Reply(fs, EPERM)
      case Fifo(_) => Reply(fs, EOPNOTSUPP)
      case Symlink(_, _) => Reply(fs, EOPNOTSUPP)
      case File(ino) =>
        var e := RequireParent(fs.nodes, rel);
        if e != OK then Reply(fs, e)
        else if rel in fs.nodes then Reply(fs, EEXIST)
        else if !fs.quota.Fits(NodeCost(rel, File(ino))) then Reply(fs, ENOSPC)
        else Reply(fs.(
          nodes := fs.nodes[rel := File(ino)],
          files := if ino in fs.files then fs.files[ino := fs.files[ino].(links := fs.files[ino].links + 1)]
                   else fs.files,
          quota := fs.quota.Charge(NodeCost(rel, File(ino)))), OK)
  }

  // File data. What the allocator does is an input: whether it fails, and by how much it rounds up.

  datatype Alloc = Alloc(fails: bool, slack: nat)

  datatype Grown = Grown(ok: bool, quota: Quota, capacity: nat)

  function Max(a: nat, b: nat): nat { if a < b then b else a }

  /** The capacity asked for: double, or an exact fit near the quota; 0 when neither fits. */
  function Target(q: Quota, capacity: nat, end: nat): nat
    requires capacity < end
  {
    var double := Max(end, capacity * 2);
    if q.Fits(double - capacity) then double
    else if q.Fits(end - capacity) then end
    else 0
  }

  /** Whatever the allocator does, the quota moves by the capacity gained. */
  function Grow(q: Quota, capacity: nat, end: nat, alloc: Alloc): (g: Grown)
    ensures g.capacity >= capacity && g.quota == q.Charge(g.capacity - capacity)
    ensures if g.ok then g.capacity >= end else g.capacity == capacity
  {
    if end <= capacity then Grown(true, q, capacity)
    else
      var target := Target(q, capacity, end);
      if target == 0 || alloc.fails then Grown(false, q, capacity)
      else Grown(true, q.Charge(target + alloc.slack - capacity), target + alloc.slack)
  }

  /** Zeros up to `len`, or cut to it. */
  function Resized(data: seq<nat>, len: nat): seq<nat> {
    if len <= |data| then data[..len] else data + seq(len - |data|, _ => 0)
  }

  function Overwritten(data: seq<nat>, off: nat, buf: seq<nat>): seq<nat> {
    var d := if |data| < off + |buf| then Resized(data, off + |buf|) else data;
    d[..off] + buf + d[off + |buf|..]
  }

  function WriteAt(fs: Fs, rel: string, off: nat, buf: seq<nat>, alloc: Alloc): Reply {
    if rel !in fs.nodes then Reply(fs, ENOENT)
    else if !fs.nodes[rel].File? then Reply(fs, EISDIR)
    else
      var ino := fs.nodes[rel].ino;
      if ino !in fs.files then Reply(fs, ENOENT)
      else
        var f, end := fs.files[ino], off + |buf|;
        if end > MAX_FILE_SIZE then Reply(fs, EFBIG)
        else
          var g := if |f.data| < end then Grow(fs.quota, f.capacity, end, alloc)
                   else Grown(true, fs.quota, f.capacity);
          if !g.ok then Reply(fs, ENOSPC)
          else Reply(fs.(
            files := fs.files[ino := f.(data := Overwritten(f.data, off, buf), capacity := g.capacity)],
            quota := g.quota), OK)
  }

  /** `shrink_to` may keep more than it is asked to, never less than the data or more than it had. */
  function Shrunk(capacity: nat, len: nat, kept: nat): (c: nat)
    requires len <= capacity
    ensures len <= c <= capacity
  {
    if kept < len then len else if kept < capacity then kept else capacity
  }

  function Truncate(fs: Fs, rel: string, len: nat, alloc: Alloc, kept: nat): Reply {
    if rel !in fs.nodes then Reply(fs, ENOENT)
    else if fs.nodes[rel].Dir? then Reply(fs, EISDIR)
    else if !fs.nodes[rel].File? then Reply(fs, EINVAL)
    else
      var ino := fs.nodes[rel].ino;
      if ino !in fs.files then Reply(fs, ENOENT)
      else
        var f := fs.files[ino];
        if len > MAX_FILE_SIZE then Reply(fs, EFBIG)
        else
          var g := Grow(fs.quota, f.capacity, len, alloc);
          if !g.ok then Reply(fs, ENOSPC)
          else
            var c := if len < g.capacity / 2 then Shrunk(g.capacity, len, kept) else g.capacity;
            Reply(fs.(
              files := fs.files[ino := f.(data := Resized(f.data, len), capacity := c)],
              quota := g.quota.Release(g.capacity - c)), OK)
  }

  // Extended attributes live with the entry, or with the inode of a regular file.

  predicate HasMeta(fs: Fs, rel: string) {
    rel in fs.nodes && (fs.nodes[rel].File? ==> fs.nodes[rel].ino in fs.files)
  }

  function XattrsOf(fs: Fs, rel: string): Xattrs
    requires HasMeta(fs, rel)
  {
    if fs.nodes[rel].File? then fs.files[fs.nodes[rel].ino].xattrs else fs.nodes[rel].xattrs
  }

  function WithXattrs(fs: Fs, rel: string, x: Xattrs): Fs
    requires HasMeta(fs, rel)
  {
    var node := fs.nodes[rel];
    if node.File? then fs.(files := fs.files[node.ino := fs.files[node.ino].(xattrs := x)])
    else fs.(nodes := fs.nodes[rel := node.(xattrs := x)])
  }

  function SetXattr(fs: Fs, rel: string, name: string, value: seq<nat>): Reply {
    if !HasMeta(fs, rel) then Reply(fs, ENOENT)
    else if !fs.quota.Fits(XattrBytes(name, value)) then Reply(fs, ENOSPC)
    else
      var x := XattrsOf(fs, rel);
      var q := fs.quota.Charge(XattrBytes(name, value));
      Reply(WithXattrs(fs, rel, x[name := value]).(
        quota := if name in x then q.Release(XattrBytes(name, x[name])) else q), OK)
  }

  function RemoveXattr(fs: Fs, rel: string, name: string): Reply {
    if !HasMeta(fs, rel) then Reply(fs, ENOENT)
    else
      var x := XattrsOf(fs, rel);
      if name !in x then Reply(fs, ENODATA)
      else Reply(WithXattrs(fs, rel, x - {name}).(
        quota := fs.quota.Release(XattrBytes(name, x[name]))), OK)
  }

  // Renaming rewrites the prefix of an entry and of everything below it.

  function Moved(nodes: Nodes, from: string): set<string> {
    set k | k in nodes && AtOrBelow(k, from)
  }

  function NewKey(k: string, from: string, to: string): string
    requires |from| <= |k|
  {
    to + k[|from|..]
  }

  /** `nodes` with the entries `done` moved from below `from` to below `to`. */
  ghost function Substituted(nodes: Nodes, done: set<string>, from: string, to: string): Nodes
    requires done <= Moved(nodes, from)
  {
    var image := set k | k in done :: NewKey(k, from, to);
    (nodes - done) + map j | j in image && |to| <= |j| && NewKey(j, to, from) in nodes :: nodes[NewKey(j, to, from)]
  }

  /** Names that change length are charged for without asking. */
  function Rekeyed(q: Quota, delta: int): Quota {
    q.(used := if q.used + delta >= 0 then q.used + delta else 0)
  }

  /** The change in length of `n` names. */
  function Growth(n: nat, from: string, to: string): int {
    if n == 0 then 0 else Growth(n - 1, from, to) + |to| - |from|
  }

  ghost function MoveAll(fs: Fs, from: string, to: string): Fs {
    var moved := Moved(fs.nodes, from);
    fs.(nodes := Substituted(fs.nodes, moved, from, to),
        quota := Rekeyed(fs.quota, Growth(|moved|, from, to)))
  }

  /** Why a rename onto an existing entry is refused. */
  function ReplaceError(nodes: Nodes, fromDir: bool, to: string): nat
    requires to in nodes
  {
    if fromDir then
      if !nodes[to].Dir? then ENOTDIR
      else if exists k :: k in nodes && ParentOf(k) == to then ENOTEMPTY
      else OK
    else if nodes[to].Dir? then EISDIR else OK
  }

  predicate SameFile(nodes: Nodes, a: string, b: string) {
    a in nodes && b in nodes && nodes[a].File? && nodes[a] == nodes[b]
  }

  ghost function Rename(fs: Fs, from: string, to: string): Reply {
    if from !in fs.nodes then Reply(fs, ENOENT)
    else if from == to || SameFile(fs.nodes, from, to) then Reply(fs, OK)
    else
      var fromDir := fs.nodes[from].Dir?;
      if fromDir && IsBelow(to, from) then Reply(fs, EINVAL)
      else
        var e := RequireParent(fs.nodes, to);
        if e != OK then Reply(fs, e)
        else if to !in fs.nodes then Reply(MoveAll(fs, from, to), OK)
        else
          var r := ReplaceError(fs.nodes, fromDir, to);
          if r != OK then Reply(fs, r)
          else Reply(MoveAll(RemoveEntry(fs, to), from, to), OK)
  }

  datatype Op =
    | OpAdd(rel: string, what: Fresh)
    | OpMknod(rel: string, mode: nat)
    | OpUnlink(rel: string)
    | OpRmdir(rel: string)
    | OpLink(source: string, rel: string)
    | OpWrite(rel: string, off: nat, buf: seq<nat>, alloc: Alloc)
    | OpTruncate(rel: string, len: nat, alloc: Alloc, kept: nat)
    | OpSetXattr(rel: string, name: string, value: seq<nat>)
    | OpRemoveXattr(rel: string, name: string)
    | OpRename(source: string, rel: string)

  /** The root entry is never removed or renamed. */
  predicate Allowed(op: Op) {
    match op
    case OpRmdir(rel) => rel != ""
    case OpRename(source, _) => source != ""
    case _ => true
  }

  ghost function Apply(fs: Fs, op: Op): Reply {
    match op
    case OpAdd(rel, what) => Add(fs, rel, what)
    case OpMknod(rel, mode) => Mknod(fs, rel, mode)
    case OpUnlink(rel) => Unlink(fs, rel)
    case OpRmdir(rel) => Rmdir(fs, rel)
    case OpLink(source, rel) => Link(fs, source, rel)
    case OpWrite(rel, off, buf, alloc) => WriteAt(fs, rel, off, buf, alloc)
    case OpTruncate(rel, len, alloc, kept) => Truncate(fs, rel, len, alloc, kept)
    case OpSetXattr(rel, name, value) => SetXattr(fs, rel, name, value)
    case OpRemoveXattr(rel, name) => RemoveXattr(fs, rel, name)
    case OpRename(source, rel) => Rename(fs, source, rel)
  }
}
