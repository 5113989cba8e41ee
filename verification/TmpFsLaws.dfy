/**
 What a caller sees of the in-memory filesystem before and after each operation, at every
 path, with the numbers spelled out.
 */
module TmpFsLaws {
  import Quotas
  import opened RelPaths
  import opened TmpFsModel
  import opened TmpFsInvariant
  import opened TmpFsRename
  import opened TmpFsRuns
  import Paths

  /** What is at a path. */
  datatype Sight =
    | Nothing
    | Folder(attrs: Xattrs)
    | Regular(data: seq<nat>, attrs: Xattrs)
    | Pipe(attrs: Xattrs)
    | Pointer(target: string, attrs: Xattrs)

  function At(fs: Fs, name: string): Sight {
    if name !in fs.nodes then Nothing
    else match fs.nodes[name]
      case Dir(x) => Folder(x)
      case Fifo(x) => Pipe(x)
      case Symlink(t, x) => Pointer(t, x)
      case File(ino) => if ino in fs.files then Regular(fs.files[ino].data, fs.files[ino].xattrs) else Nothing
  }

  /** Two names of one regular file. */
  predicate OneFile(fs: Fs, a: string, b: string) {
    a in fs.nodes && b in fs.nodes && fs.nodes[a].File? && fs.nodes[a] == fs.nodes[b]
  }

  /** Nothing is seen to change but at `rel`. */
  ghost predicate SameElsewhere(was: Fs, now: Fs, rel: string) {
    forall name :: name != rel ==> At(now, name) == At(was, name)
  }

  lemma AllNamed(fs: Fs, others: int, name: string)
    requires Inv(fs, others)
    ensures At(fs, name) == Nothing <==> name !in fs.nodes
    ensures At(fs, name).Folder? <==> name in fs.nodes && fs.nodes[name].Dir?
    ensures At(fs, name).Regular? <==> name in fs.nodes && fs.nodes[name].File?
  {
  }

  // Making an entry.

  function Made(what: Fresh): Sight {
    match what
    case FreshFile => Regular([], map[])
    case FreshDir => Folder(map[])
    case FreshFifo => Pipe(map[])
    case FreshLink(target) => Pointer(target, map[])
  }

  function TargetLength(what: Fresh): nat {
    if what.FreshLink? then |what.target| else 0
  }

  /**
   `create`, `mkdir`, `mknod`, `symlink`: with a directory above and nothing there, the entry
   is made if 256 bytes, its name and its target are to be had; it is a new one, empty, and
   costs just that.
   */
  lemma AddMakes(fs: Fs, rel: string, what: Fresh, others: int)
    requires Inv(fs, others) && Clean(ParentOf(rel)) && At(fs, ParentOf(rel)).Folder?
    ensures var r, total := Add(fs, rel, what), fs.quota.used + 256 + |rel| + TargetLength(what);
      && r.errno == (if At(fs, rel) != Nothing then 17
                     else if total > fs.quota.limit || total > 0xFFFF_FFFF_FFFF_FFFF then 28 else 0)
      && (r.errno == 0 ==>
            && At(r.fs, rel) == Made(what) && SameElsewhere(fs, r.fs, rel) && r.fs.quota.used == total
            && forall name :: name != rel ==> !OneFile(r.fs, name, rel))
  {
    ParentIsEnough(fs.nodes, rel);
    NoXattrsCostNothing();
    AllNamed(fs, others, rel);
    var r := Add(fs, rel, what);
    if r.errno == 0 {
      forall name | name != rel ensures At(r.fs, name) == At(fs, name) && !OneFile(r.fs, name, rel) {
        if name in fs.nodes && fs.nodes[name].File? { assert fs.nodes[name].ino in fs.files; }
      }
    }
  }

  /** `mknod` by the type bits of its mode: none or a regular file, a FIFO, or nothing else. */
  lemma MknodMakes(fs: Fs, rel: string, mode: nat)
    requires mode < 0x1_0000
    ensures Mknod(fs, rel, mode) ==
            if mode < 0x1000 || 0x8000 <= mode < 0x9000 then Add(fs, rel, FreshFile)
            else if mode < 0x2000 then Add(fs, rel, FreshFifo)
            else Reply(fs, 1)
  {
  }

  // Removing one.

  /** `unlink`: anything there that is no directory goes; what was at other names stays. */
  lemma UnlinkRemoves(fs: Fs, rel: string, others: int)
    requires Inv(fs, others) && Clean(ParentOf(rel)) && At(fs, ParentOf(rel)).Folder?
    ensures var r := Unlink(fs, rel);
      && r.errno == (match At(fs, rel) case Nothing => 2 case Folder(_) => 21 case _ => 0)
      && (r.errno == 0 ==> At(r.fs, rel) == Nothing && SameElsewhere(fs, r.fs, rel))
  {
    ParentIsEnough(fs.nodes, rel);
    AllNamed(fs, others, rel);
    if Unlink(fs, rel).errno == 0 { RemovedElsewhere(fs, rel, others); }
  }

  /** `rmdir`: a directory with nothing in it. */
  lemma RmdirRemoves(fs: Fs, rel: string, others: int)
    requires Inv(fs, others) && Clean(ParentOf(rel)) && At(fs, ParentOf(rel)).Folder? && rel != ""
    ensures var r := Rmdir(fs, rel);
      && r.errno == (match At(fs, rel)
                     case Nothing => 2
                     case Folder(_) => if exists k :: k != "" && ParentOf(k) == rel && At(fs, k) != Nothing
                                       then 39 else 0
                     case _ => 20)
      && (r.errno == 0 ==> At(r.fs, rel) == Nothing && SameElsewhere(fs, r.fs, rel))
  {
    ParentIsEnough(fs.nodes, rel);
    AllNamed(fs, others, rel);
    forall k ensures At(fs, k) != Nothing <==> k in fs.nodes { AllNamed(fs, others, k); }
    if Rmdir(fs, rel).errno == 0 { RemovedElsewhere(fs, rel, others); }
  }

  lemma RemovedElsewhere(fs: Fs, rel: string, others: int)
    requires Inv(fs, others) && rel in fs.nodes
    ensures At(RemoveEntry(fs, rel), rel) == Nothing && SameElsewhere(fs, RemoveEntry(fs, rel), rel)
  {
    var now := RemoveEntry(fs, rel);
    forall name | name != rel ensures At(now, name) == At(fs, name) {
      if OneFile(fs, name, rel) {
        var i := fs.nodes[rel].ino;
        assert CountsNames(fs.nodes, fs.files[i], i);
        TwoNames(Names(fs.nodes, i), name, rel);
      }
    }
  }

  // Linking.

  /** `link`: both names are then the same file, which reads as it did. */
  lemma LinkJoins(fs: Fs, source: string, rel: string, others: int)
    requires Inv(fs, others) && Clean(ParentOf(rel)) && At(fs, ParentOf(rel)).Folder?
    ensures var r, total := Link(fs, source, rel), fs.quota.used + 256 + |rel|;
      && r.errno == (match At(fs, source)
                     case Nothing => 2
                     case Folder(_) => 1
                     case Pipe(_) => 95
                     case Pointer(_, _) => 95
                     case Regular(_, _) =>
                       if At(fs, rel) != Nothing then 17
                       else if total > fs.quota.limit || total > 0xFFFF_FFFF_FFFF_FFFF then 28 else 0)
      && (r.errno == 0 ==>
            && OneFile(r.fs, source, rel) && At(r.fs, rel) == At(fs, source) && SameElsewhere(fs, r.fs, rel)
            && r.fs.quota.used == total)
  {
    ParentIsEnough(fs.nodes, rel);
    AllNamed(fs, others, rel);
    AllNamed(fs, others, source);
  }

  // Cutting and extending.

  lemma ResizedAt(data: seq<nat>, len: nat, i: nat)
    requires i < len
    ensures |Resized(data, len)| == len && Resized(data, len)[i] == if i < |data| then data[i] else 0
  {
  }

  /**
   After `truncate` every name of the file reads `len` bytes, the old ones and zeros after
   them; every other name reads what it read before.
   */
  lemma TruncateReadsBack(fs: Fs, rel: string, len: nat, alloc: Alloc, kept: nat, name: string, at: nat, n: nat)
    requires Truncate(fs, rel, len, alloc, kept).errno == 0
    ensures
      var was, now := ReadAt(fs, name, at, n), ReadAt(Truncate(fs, rel, len, alloc, kept).fs, name, at, n);
      if name in fs.nodes && fs.nodes[name] == fs.nodes[rel] then
        var data := fs.files[fs.nodes[rel].ino].data;
        && now.Bytes? && |now.data| == (if at >= len then 0 else if n < len - at then n else len - at)
        && forall i :: 0 <= i < |now.data| ==> now.data[i] == if at + i < |data| then data[at + i] else 0
      else now == was
  {
    if name in fs.nodes && fs.nodes[name] == fs.nodes[rel] {
      var data := fs.files[fs.nodes[rel].ino].data;
      var now := ReadAt(Truncate(fs, rel, len, alloc, kept).fs, name, at, n);
      forall i | 0 <= i < |now.data| ensures now.data[i] == if at + i < |data| then data[at + i] else 0 {
        ResizedAt(data, len, at + i);
      }
    }
  }

  /** The bytes set aside for a file. */
  function Room(fs: Fs, rel: string): nat
    requires At(fs, rel).Regular?
  {
    fs.files[fs.nodes[rel].ino].capacity
  }

  /** Room for `end` bytes is there or to be had: the quota has it and so does the host. */
  predicate CanHold(fs: Fs, rel: string, end: nat, alloc: Alloc)
    requires At(fs, rel).Regular?
  {
    || end <= Room(fs, rel)
    || (!alloc.fails && fs.quota.used + (end - Room(fs, rel)) <= fs.quota.limit
        && fs.quota.used + (end - Room(fs, rel)) <= 0xFFFF_FFFF_FFFF_FFFF)
  }

  /** What `truncate` answers, and that it changes nothing about any name but the bytes of this file. */
  lemma TruncateAnswers(fs: Fs, rel: string, len: nat, alloc: Alloc, kept: nat)
    ensures var r := Truncate(fs, rel, len, alloc, kept);
      && r.errno == (match At(fs, rel)
                     case Nothing => 2
                     case Folder(_) => 21
                     case Regular(_, _) => if len > 0x7FFF_FFFF_FFFF_FFFF then 27
                                           else if CanHold(fs, rel, len, alloc) then 0 else 28
                     case _ => 22)
      && (r.errno == 0 ==> forall name ::
            At(r.fs, name) == if OneFile(fs, name, rel) then At(fs, name).(data := At(r.fs, rel).data)
                              else At(fs, name))
  {
  }

  /** The same of a write. */
  lemma WriteAnswers(fs: Fs, rel: string, off: nat, buf: seq<nat>, alloc: Alloc, others: int)
    requires Inv(fs, others)
    ensures var r := WriteAt(fs, rel, off, buf, alloc);
      && r.errno == (match At(fs, rel)
                     case Nothing => 2
                     case Regular(_, _) => if off + |buf| > 0x7FFF_FFFF_FFFF_FFFF then 27
                                           else if CanHold(fs, rel, off + |buf|, alloc) then 0 else 28
                     case _ => 21)
      && (r.errno == 0 ==> forall name ::
            At(r.fs, name) == if OneFile(fs, name, rel) then At(fs, name).(data := At(r.fs, rel).data)
                              else At(fs, name))
  {
    AllNamed(fs, others, rel);
  }

  /** Room is charged for: the quota moves by what a file gains or gives back, and holds all its bytes. */
  lemma RoomIsCharged(fs: Fs, rel: string, r: Reply, others: int)
    requires Inv(fs, others) && Inv(r.fs, others) && At(fs, rel).Regular? && r.fs.nodes == fs.nodes
    requires var ino := fs.nodes[rel].ino;
      && ino in r.fs.files && r.fs.files == fs.files[ino := r.fs.files[ino]]
      && r.fs.files[ino].xattrs == fs.files[ino].xattrs
    ensures r.fs.quota.used + Room(fs, rel) == fs.quota.used + Room(r.fs, rel)
    ensures |At(r.fs, rel).data| <= Room(r.fs, rel)
  {
    var ino := fs.nodes[rel].ino;
    FilesCostPut(fs.files, ino, r.fs.files[ino]);
  }

  lemma WriteIsCharged(fs: Fs, rel: string, off: nat, buf: seq<nat>, alloc: Alloc, others: int)
    requires Inv(fs, others) && WriteAt(fs, rel, off, buf, alloc).errno == 0
    ensures var now := WriteAt(fs, rel, off, buf, alloc).fs;
      && At(fs, rel).Regular? && At(now, rel).Regular?
      && now.quota.used + Room(fs, rel) == fs.quota.used + Room(now, rel) && |At(now, rel).data| <= Room(now, rel)
  {
    AllNamed(fs, others, rel);
    WriteKeeps(fs, rel, off, buf, alloc, others);
    RoomIsCharged(fs, rel, WriteAt(fs, rel, off, buf, alloc), others);
  }

  lemma TruncateIsCharged(fs: Fs, rel: string, len: nat, alloc: Alloc, kept: nat, others: int)
    requires Inv(fs, others) && Truncate(fs, rel, len, alloc, kept).errno == 0
    ensures var now := Truncate(fs, rel, len, alloc, kept).fs;
      && At(fs, rel).Regular? && At(now, rel).Regular?
      && now.quota.used + Room(fs, rel) == fs.quota.used + Room(now, rel) && len <= Room(now, rel)
  {
    TruncateKeeps(fs, rel, len, alloc, kept, others);
    RoomIsCharged(fs, rel, Truncate(fs, rel, len, alloc, kept), others);
  }

  /** Room that has to grow doubles where the quota allows it, and else is just enough. */
  lemma RoomDoubles(fs: Fs, rel: string, off: nat, buf: seq<nat>, alloc: Alloc, others: int)
    requires Inv(fs, others) && WriteAt(fs, rel, off, buf, alloc).errno == 0 && At(fs, rel).Regular?
    requires off + |buf| > Room(fs, rel)
    ensures var now, end, room := WriteAt(fs, rel, off, buf, alloc).fs, off + |buf|, Room(fs, rel);
      var double := if end < 2 * room then 2 * room else end;
      && At(now, rel).Regular?
      && Room(now, rel) == alloc.slack +
         if fs.quota.used + double - room <= fs.quota.limit && fs.quota.used + double - room <= 0xFFFF_FFFF_FFFF_FFFF
         then double else end
  {
  }

  // Attributes.

  ghost predicate SeenWith(was: Sight, now: Sight, attrs: Xattrs) {
    match was
    case Nothing => false
    case Folder(_) => now == Folder(attrs)
    case Regular(data, _) => now == Regular(data, attrs)
    case Pipe(_) => now == Pipe(attrs)
    case Pointer(target, _) => now == Pointer(target, attrs)
  }

  /** At every name of what is at `rel` these are now the attributes; nothing else changes. */
  ghost predicate AttrsBecome(was: Fs, now: Fs, rel: string, attrs: Xattrs) {
    forall name ::
      if name == rel || OneFile(was, name, rel) then SeenWith(At(was, name), At(now, name), attrs)
      else At(now, name) == At(was, name)
  }

  lemma AttrsWritten(fs: Fs, rel: string, x: Xattrs, q: Quotas.Quota)
    requires HasMeta(fs, rel)
    ensures AttrsBecome(fs, WithXattrs(fs, rel, x).(quota := q), rel, x)
  {
  }

  /** `setxattr`: the value is set, the other attributes stay. */
  lemma SetXattrSets(fs: Fs, rel: string, name: string, value: seq<nat>)
    ensures var r, total := SetXattr(fs, rel, name, value), fs.quota.used + |name| + |value| + 256;
      && r.errno == (if At(fs, rel) == Nothing then 2
                     else if total > fs.quota.limit || total > 0xFFFF_FFFF_FFFF_FFFF then 28 else 0)
      && (r.errno == 0 ==> AttrsBecome(fs, r.fs, rel, At(fs, rel).attrs[name := value]))
  {
    if HasMeta(fs, rel) {
      AttrsWritten(fs, rel, XattrsOf(fs, rel)[name := value], SetXattr(fs, rel, name, value).fs.quota);
    }
  }

  /** `removexattr`: it is gone, the other attributes stay. */
  lemma RemoveXattrRemoves(fs: Fs, rel: string, name: string)
    ensures var r := RemoveXattr(fs, rel, name);
      && r.errno == (if At(fs, rel) == Nothing then 2 else if name !in At(fs, rel).attrs then 61 else 0)
      && (r.errno == 0 ==> AttrsBecome(fs, r.fs, rel, At(fs, rel).attrs - {name}))
  {
    if HasMeta(fs, rel) {
      AttrsWritten(fs, rel, XattrsOf(fs, rel) - {name}, RemoveXattr(fs, rel, name).fs.quota);
    }
  }

  // Renaming.

  /** A file's directory keeps a name with something in it. */
  ghost predicate Occupied(fs: Fs, dir: string) {
    exists k :: ParentOf(k) == dir && At(fs, k) != Nothing
  }

  /** What `rename` answers where the new name has a directory above it. */
  lemma RenameAnswers(fs: Fs, from: string, to: string, others: int)
    requires Inv(fs, others) && Clean(ParentOf(to)) && At(fs, ParentOf(to)).Folder?
    ensures Rename(fs, from, to).errno ==
            if At(fs, from) == Nothing then 2
            else if from == to || OneFile(fs, from, to) then 0
            else if At(fs, from).Folder? && IsBelow(to, from) then 22
            else if At(fs, to) == Nothing then 0
            else if At(fs, from).Folder? then
              if !At(fs, to).Folder? then 20 else if Occupied(fs, to) then 39 else 0
            else if At(fs, to).Folder? then 21 else 0
  {
    ParentIsEnough(fs.nodes, to);
    AllNamed(fs, others, from);
    AllNamed(fs, others, to);
    forall k ensures At(fs, k) != Nothing <==> k in fs.nodes { AllNamed(fs, others, k); }
  }

  /** Renaming onto itself, or onto another name of the file, does nothing. */
  lemma RenameToItself(fs: Fs, from: string, to: string)
    requires from in fs.nodes && (from == to || OneFile(fs, from, to))
    ensures Rename(fs, from, to) == Reply(fs, 0)
  {
  }

  /** What is seen after any other: at the new name and below it what was at the old; nothing is left there. */
  lemma RenameShows(fs: Fs, from: string, to: string, j: string, others: int)
    requires Inv(fs, others) && from != "" && Renames(fs, from, to)
    ensures var now := Rename(fs, from, to).fs;
      At(now, j) == if AtOrBelow(j, to) then At(fs, NewKey(j, to, from))
                    else if AtOrBelow(j, from) then Nothing else At(fs, j)
  {
    var s, now := Replaced(fs, to), Rename(fs, from, to).fs;
    RenameStart(fs, from, to, others);
    RenameIsSubstitution(fs, from, to, j, others);
    if to in fs.nodes { RemovedElsewhere(fs, to, others); }
    if AtOrBelow(j, to) {
      NewKeyUndone(j, to, from);
      NotIntoItself(fs, from, to, others);
      SameSight(now, j, s, NewKey(j, to, from));
    } else if !AtOrBelow(j, from) {
      SameSight(now, j, s, j);
    }
  }

  lemma SameSight(a: Fs, x: string, b: Fs, y: string)
    requires a.files == b.files && (x in a.nodes <==> y in b.nodes) && (x in a.nodes ==> a.nodes[x] == b.nodes[y])
    ensures At(a, x) == At(b, y)
  {
  }

  // A path whose parent is no directory.

  /** Something that is no directory is at or above the parent. */
  ghost predicate Barred(nodes: Nodes, parent: string) {
    exists p :: p in nodes && !nodes[p].Dir? && AtOrBelow(parent, p)
  }

  lemma NoSlash(s: string)
    ensures forall c :: c in Paths.Split(s) ==> '/' !in c
  {
    if s != "" {
      NoSlash(s[1..]);
      assert forall c :: c in Paths.Split(s[1..])[1..] ==> c in Paths.Split(s[1..]);
    }
  }

  /** A directory at or above a joined path, longer than the prefix, is one of the joined prefixes. */
  lemma {:induction false} FoundOnTheWay(nodes: Nodes, prefix: string, cs: seq<string>, p: string)
    requires (forall c :: c in cs ==> c != "" && '/' !in c) && p in nodes && !nodes[p].Dir?
    requires AtOrBelow(Joined(prefix, cs), p) && |p| > |prefix| && cs != []
    ensures BlockedBy(nodes, prefix, cs)
    decreases |cs|
  {
    assert cs[0] in cs;
    var next := if prefix == "" then cs[0] else prefix + "/" + cs[0];
    JoinedBelow(next, cs[1..]);
    if |p| < |next| {
      BelowBoth(Joined(prefix, cs), p, next);
    } else {
      BelowBoth(Joined(prefix, cs), next, p);
      assert forall c :: c in cs[1..] ==> c in cs;
      if p != next { FoundOnTheWay(nodes, next, cs[1..], p); }
    }
  }

  lemma {:induction false} BlockedSomewhere(nodes: Nodes, prefix: string, cs: seq<string>)
    requires BlockedBy(nodes, prefix, cs) && "" !in cs
    ensures Barred(nodes, Joined(prefix, cs))
    decreases |cs|
  {
    assert cs[0] in cs;
    var p := if prefix == "" then cs[0] else prefix + "/" + cs[0];
    JoinedBelow(p, cs[1..]);
    if BlockedBy(nodes, p, cs[1..]) { BlockedSomewhere(nodes, p, cs[1..]); }
  }

  lemma BlockedIsBarred(nodes: Nodes, rel: string)
    requires Tree(nodes) && Clean(ParentOf(rel))
    ensures Blocked(nodes, rel) <==> Barred(nodes, ParentOf(rel))
  {
    var parent := ParentOf(rel);
    if parent != "" {
      JoinSplit("", parent);
      NoSlash(parent);
      if Blocked(nodes, rel) { BlockedSomewhere(nodes, "", Paths.Split(parent)); }
      if p :| p in nodes && !nodes[p].Dir? && AtOrBelow(parent, p) {
        FoundOnTheWay(nodes, "", Paths.Split(parent), p);
      }
    }
  }

  /**
   Where the parent is no directory, every operation that needs one answers 20 if
   something on the way there is no directory, and 2 if something is missing.
   */
  lemma WithoutParent(fs: Fs, rel: string, what: Fresh, others: int)
    requires Inv(fs, others) && Clean(ParentOf(rel)) && !At(fs, ParentOf(rel)).Folder? && rel != ""
    ensures var e := if Barred(fs.nodes, ParentOf(rel)) then 20 else 2;
      && Add(fs, rel, what) == Reply(fs, e) && Unlink(fs, rel) == Reply(fs, e) && Rmdir(fs, rel) == Reply(fs, e)
      && forall source :: At(fs, source).Regular? ==> Link(fs, source, rel) == Reply(fs, e)
  {
    BlockedIsBarred(fs.nodes, rel);
    AllNamed(fs, others, ParentOf(rel));
    assert rel in fs.nodes ==> HasParent(fs.nodes, rel);
    assert ParentOf(rel) in fs.nodes ==> AtOrBelow(ParentOf(rel), ParentOf(rel));
  }
}
