/**
 Whole runs of the in-memory filesystem, and what its operations mean to a caller.
 */
module TmpFsRuns {
  import opened Errno
  import Quotas
  import opened RelPaths
  import opened TmpFsModel
  import opened TmpFsInvariant
  import opened TmpFsRename
  import Paths

  lemma StepKeeps(fs: Fs, op: Op, others: int)
    requires Inv(fs, others) && Allowed(op)
    ensures Inv(Apply(fs, op).fs, others)
  {
    match op
    case OpAdd(rel, what) => AddKeeps(fs, rel, what, others);
    case OpMknod(rel, mode) =>
      AddKeeps(fs, rel, FreshFile, others);
      AddKeeps(fs, rel, FreshFifo, others);
    case OpUnlink(rel) =>
      if Unlink(fs, rel).errno == OK { RemoveKeeps(fs, rel, others); }
    case OpRmdir(rel) =>
      if Rmdir(fs, rel).errno == OK { RemoveKeeps(fs, rel, others); }
    case OpLink(source, rel) => LinkKeeps(fs, source, rel, others);
    case OpWrite(rel, off, buf, alloc) => WriteKeeps(fs, rel, off, buf, alloc, others);
    case OpTruncate(rel, len, alloc, kept) => TruncateKeeps(fs, rel, len, alloc, kept, others);
    case OpSetXattr(rel, name, value) => SetXattrKeeps(fs, rel, name, value, others);
    case OpRemoveXattr(rel, name) => RemoveXattrKeeps(fs, rel, name, others);
    case OpRename(source, rel) => RenameKeeps(fs, source, rel, others);
  }

  /** An operation that fails has charged nothing and changed nothing but the next inode number. */
  lemma FailureChangesNothing(fs: Fs, op: Op)
    requires Apply(fs, op).errno != OK
    ensures Apply(fs, op).fs.(nextInode := fs.nextInode) == fs
  {
  }

  /** What happens to a filesystem: an operation, or being put on a quota. */
  datatype Event = Do(op: Op) | Attach(quota: Quotas.Quota)

  ghost function After(events: seq<Event>): Fs {
    if events == [] then New()
    else
      var fs := After(events[..|events| - 1]);
      match events[|events| - 1]
      case Do(op) => Apply(fs, op).fs
      case Attach(quota) => AttachQuota(fs, quota)
  }

  /** What else was on the quota when it was attached; before that, minus the root entry. */
  function Others(events: seq<Event>): int {
    if events == [] then -256
    else match events[|events| - 1]
      case Do(_) => Others(events[..|events| - 1])
      case Attach(quota) => quota.used
  }

  lemma NewIsValid()
    ensures Inv(New(), -256)
  {
    var none: Nodes := map[];
    NoXattrsCostNothing();
    NodesCostPut(none, "", Dir(map[]));
    assert none - {""} == none && none["" := Dir(map[])] == New().nodes;
    assert NodeCosts(none) == map[];
    var noFiles: Files := map[];
    assert InodeCosts(noFiles) == map[];
  }

  /**
   In every reachable state the map is a tree, every inode has as many names as it counts
   and one at least, and the quota holds exactly what is stored on top of what was there.
   */
  lemma {:induction false} EveryRun(events: seq<Event>)
    requires forall e :: e in events && e.Do? ==> Allowed(e.op)
    ensures Inv(After(events), Others(events))
    decreases |events|
  {
    if events == [] {
      NewIsValid();
    } else {
      var rest, last := events[..|events| - 1], events[|events| - 1];
      EveryRun(rest);
      if last.Do? { StepKeeps(After(rest), last.op, Others(rest)); }
    }
  }

  // Reading back what was written.

  datatype ReadReply = Bytes(data: seq<nat>) | NoBytes(errno: nat)

  /** `read_at`: up to `len` bytes from `off` on. */
  function ReadAt(fs: Fs, rel: string, off: nat, len: nat): ReadReply {
    if rel !in fs.nodes then NoBytes(ENOENT)
    else if !fs.nodes[rel].File? then NoBytes(EISDIR)
    else if fs.nodes[rel].ino !in fs.files then NoBytes(ENOENT)
    else
      var data := fs.files[fs.nodes[rel].ino].data;
      if off >= |data| then Bytes([])
      else Bytes(data[off..off + if len < |data| - off then len else |data| - off])
  }

  lemma OverwrittenAt(data: seq<nat>, off: nat, buf: seq<nat>, i: nat)
    requires i < |Overwritten(data, off, buf)|
    ensures |Overwritten(data, off, buf)| == Max(|data|, off + |buf|)
    ensures Overwritten(data, off, buf)[i] ==
            if off <= i < off + |buf| then buf[i - off] else if i < |data| then data[i] else 0
  {
  }

  /**
   After a write every name of the file reads back the bytes written, the old ones around
   them and zeros in a hole; every other name reads what it read before.
   */
  lemma WriteReadsBack(fs: Fs, rel: string, off: nat, buf: seq<nat>, alloc: Alloc, name: string, at: nat, len: nat)
    requires WriteAt(fs, rel, off, buf, alloc).errno == OK
    ensures
      var was, now := ReadAt(fs, name, at, len), ReadAt(WriteAt(fs, rel, off, buf, alloc).fs, name, at, len);
      if name in fs.nodes && fs.nodes[name] == fs.nodes[rel] then
        var data := fs.files[fs.nodes[rel].ino].data;
        var end := Max(|data|, off + |buf|);
        && now.Bytes? && |now.data| == (if at >= end then 0 else if len < end - at then len else end - at)
        && forall i :: 0 <= i < |now.data| ==>
             now.data[i] == if off <= at + i < off + |buf| then buf[at + i - off]
                            else if at + i < |data| then data[at + i] else 0
      else now == was
  {
    if name in fs.nodes && fs.nodes[name] == fs.nodes[rel] {
      var data := fs.files[fs.nodes[rel].ino].data;
      var now := ReadAt(WriteAt(fs, rel, off, buf, alloc).fs, name, at, len);
      forall i | 0 <= i < |now.data|
        ensures now.data[i] == if off <= at + i < off + |buf| then buf[at + i - off]
                               else if at + i < |data| then data[at + i] else 0
      {
        OverwrittenAt(data, off, buf, at + i);
      }
    }
  }

  // Paths with no empty component.

  predicate Clean(p: string) {
    p == "" || "" !in Paths.Split(p)
  }

  function Joined(prefix: string, cs: seq<string>): string
    decreases |cs|
  {
    if cs == [] then prefix
    else Joined(if prefix == "" then cs[0] else prefix + "/" + cs[0], cs[1..])
  }

  /** The first piece of a path, and the rest after its slash. */
  lemma {:induction false} SplitHead(s: string)
    ensures var c := Paths.Split(s)[0];
      && |c| <= |s| && s[..|c|] == c
      && (|c| == |s| ==> Paths.Split(s)[1..] == [])
      && (|c| < |s| ==> s[|c|] == '/' && Paths.Split(s)[1..] == Paths.Split(s[|c| + 1..]))
  {
    if s != "" && s[0] != '/' {
      SplitHead(s[1..]);
      var d := Paths.Split(s[1..])[0];
      assert Paths.Split(s)[0] == [s[0]] + d;
      assert s[..|d| + 1] == [s[0]] + s[1..][..|d|];
      if |d| < |s[1..]| { assert s[1..][|d| + 1..] == s[|d| + 2..]; }
    }
  }

  lemma {:induction false} JoinSplit(prefix: string, s: string)
    requires "" !in Paths.Split(s)
    ensures Joined(prefix, Paths.Split(s)) == if prefix == "" then s else prefix + "/" + s
    decreases |s|
  {
    SplitHead(s);
    var c := Paths.Split(s)[0];
    var p := if prefix == "" then c else prefix + "/" + c;
    assert c != "";
    if |c| < |s| {
      var rest := s[|c| + 1..];
      assert "" !in Paths.Split(rest) by {
        assert forall x :: x in Paths.Split(s)[1..] ==> x in Paths.Split(s);
      }
      JoinSplit(p, rest);
      assert s == c + "/" + rest;
      assert prefix + "/" + s == p + "/" + rest || prefix == "";
    }
  }

  lemma {:induction false} JoinedBelow(prefix: string, cs: seq<string>)
    requires prefix != ""
    ensures AtOrBelow(Joined(prefix, cs), prefix)
    decreases |cs|
  {
    if cs != [] {
      var p := prefix + "/" + cs[0];
      JoinedBelow(p, cs[1..]);
      assert IsBelow(p, prefix);
      BelowTransitive(Joined(p, cs[1..]), p, prefix);
    }
  }

  lemma {:induction false} NotBlockedBy(nodes: Nodes, prefix: string, cs: seq<string>)
    requires Tree(nodes) && "" !in cs
    requires Joined(prefix, cs) in nodes && nodes[Joined(prefix, cs)].Dir?
    ensures !BlockedBy(nodes, prefix, cs)
    decreases |cs|
  {
    if cs != [] {
      assert cs[0] in cs;
      var p := if prefix == "" then cs[0] else prefix + "/" + cs[0];
      JoinedBelow(p, cs[1..]);
      if Joined(p, cs[1..]) != p { BelowNeedsDir(nodes, Joined(p, cs[1..]), p); }
      NotBlockedBy(nodes, p, cs[1..]);
    }
  }

  /** In a tree, the scan of all ancestors asks no more than a parent directory. */
  lemma ParentIsEnough(nodes: Nodes, rel: string)
    requires Tree(nodes) && Clean(ParentOf(rel))
    ensures RequireParent(nodes, rel) == OK <==> HasParent(nodes, rel)
    ensures rel in nodes && rel != "" ==> !Blocked(nodes, rel)
  {
    var p := ParentOf(rel);
    assert rel in nodes && rel != "" ==> HasParent(nodes, rel);
    if p != "" && HasParent(nodes, rel) {
      JoinSplit("", p);
      NotBlockedBy(nodes, "", Paths.Split(p));
    }
  }

  lemma FreePlaceRenames(fs: Fs, from: string, to: string)
    requires from in fs.nodes && to !in fs.nodes && !IsBelow(to, from)
    requires RequireParent(fs.nodes, to) == OK
    ensures Renames(fs, from, to)
  {
  }

  /** Away from quota and names, a rename to a free place changes nothing. */
  lemma FreePlaceKeeps(fs: Fs, from: string, to: string)
    requires to !in fs.nodes
    ensures var s := Rename(fs, from, to).fs;
      s.files == fs.files && s.nextInode == fs.nextInode && s.quota.limit == fs.quota.limit
  {
  }

  lemma BackIsAllowed(fs: Fs, from: string, to: string, others: int)
    requires Inv(fs, others) && from != "" && Renames(fs, from, to)
    requires to !in fs.nodes && Clean(ParentOf(from))
    ensures to != "" && Renames(Rename(fs, from, to).fs, to, from)
    ensures from !in Rename(fs, from, to).fs.nodes
  {
    var mid := Rename(fs, from, to).fs;
    assert Tree(mid.nodes) by { RenameKeeps(fs, from, to, others); }
    assert HasParent(fs.nodes, from);
    AbsentIsClear(fs.nodes, to);
    assert to in mid.nodes by {
      RenameIsSubstitution(fs, from, to, to, others);
      assert NewKey(to, to, from) == from;
    }
    RenameIsSubstitution(fs, from, to, from, others);
    RenameIsSubstitution(fs, from, to, ParentOf(from), others);
    ParentIsEnough(mid.nodes, from);
    FreePlaceRenames(mid, to, from);
  }

  lemma BackAt(fs: Fs, from: string, to: string, j: string, others: int)
    requires Inv(fs, others) && from != "" && Renames(fs, from, to) && to !in fs.nodes
    requires to != "" && Renames(Rename(fs, from, to).fs, to, from)
    ensures var end := Rename(Rename(fs, from, to).fs, to, from).fs;
      SameAt(end.nodes, fs.nodes, j)
  {
    var mid := Rename(fs, from, to).fs;
    RenameKeeps(fs, from, to, others);
    AbsentIsClear(fs.nodes, to);
    RenameIsSubstitution(mid, to, from, j, others);
    RenameIsSubstitution(fs, from, to, j, others);
    if AtOrBelow(j, from) {
      NewKeyUndone(j, from, to);
      RenameIsSubstitution(fs, from, to, NewKey(j, from, to), others);
    }
  }

  /** Renaming to a free place and back gives the very state before. */
  lemma RenameBack(fs: Fs, from: string, to: string, others: int)
    requires Inv(fs, others) && from != "" && Renames(fs, from, to)
    requires to !in fs.nodes && Clean(ParentOf(from))
    ensures Rename(Rename(fs, from, to).fs, to, from) == Reply(fs, OK)
  {
    var mid := Rename(fs, from, to).fs;
    BackIsAllowed(fs, from, to, others);
    var end := Rename(mid, to, from).fs;
    assert Exact(end, others) by {
      RenameKeeps(fs, from, to, others);
      RenameKeeps(mid, to, from, others);
    }
    forall j ensures SameAt(end.nodes, fs.nodes, j) {
      BackAt(fs, from, to, j, others);
    }
    SameEverywhere(end.nodes, fs.nodes);
    FreePlaceKeeps(fs, from, to);
    FreePlaceKeeps(mid, to, from);
  }
}
