/**
 Subtree rename of the in-memory filesystem: the loop that rewrites one key at a time is
 prefix substitution, it never overwrites an entry, and it keeps the invariant.
 */
module TmpFsRename {
  import opened Errno
  import opened RelPaths
  import opened TmpFsModel
  import opened TmpFsInvariant

  /** In a tree, what lies below a path makes that path a directory. */
  lemma {:induction false} BelowNeedsDir(nodes: Nodes, k: string, dir: string)
    requires Tree(nodes) && k in nodes && IsBelow(k, dir)
    ensures dir in nodes && nodes[dir].Dir?
    decreases |k|
  {
    BelowParent(k, dir);
    assert HasParent(nodes, k);
    if ParentOf(k) != dir {
      BelowNeedsDir(nodes, ParentOf(k), dir);
    }
  }

  /** Nothing at `to` or below it. */
  ghost predicate Clear(nodes: Nodes, to: string) {
    forall k :: k in nodes ==> !AtOrBelow(k, to)
  }

  lemma AbsentIsClear(nodes: Nodes, to: string)
    requires Tree(nodes) && to !in nodes
    ensures Clear(nodes, to)
  {
    forall k | k in nodes ensures !AtOrBelow(k, to) {
      if IsBelow(k, to) { BelowNeedsDir(nodes, k, to); }
    }
  }

  lemma NewKeyUndone(k: string, from: string, to: string)
    requires AtOrBelow(k, from)
    ensures AtOrBelow(NewKey(k, from, to), to)
    ensures NewKey(NewKey(k, from, to), to, from) == k
  {
    var j := NewKey(k, from, to);
    assert j[..|to|] == to && j[|to|..] == k[|from|..];
    assert from + k[|from|..] == k;
  }

  /** Where each entry of a partly moved map comes from. */
  lemma SubstitutedAt(nodes: Nodes, done: set<string>, from: string, to: string, j: string)
    requires done <= Moved(nodes, from) && Clear(nodes, to)
    ensures var s := Substituted(nodes, done, from, to);
      if AtOrBelow(j, to) then
        var k := NewKey(j, to, from);
        && (j in s <==> k in done)
        && (k in done ==> s[j] == nodes[k])
      else
        && (j in s <==> j in nodes && j !in done)
        && (j in s ==> s[j] == nodes[j])
  {
    forall k | k in done ensures AtOrBelow(NewKey(k, from, to), to) && NewKey(NewKey(k, from, to), to, from) == k {
      NewKeyUndone(k, from, to);
    }
    if AtOrBelow(j, to) {
      NewKeyUndone(j, to, from);
    }
  }

  ghost function MoveOne(nodes: Nodes, k: string, j: string): Nodes
    requires k in nodes
  {
    (nodes - {k})[j := nodes[k]]
  }

  predicate SameAt(a: Nodes, b: Nodes, j: string) {
    (j in a <==> j in b) && (j in a ==> a[j] == b[j])
  }

  lemma SameEverywhere(a: Nodes, b: Nodes)
    requires forall j :: SameAt(a, b, j)
    ensures a == b
  {
    assert forall j :: j in a ==> SameAt(a, b, j);
    assert forall j :: j in b ==> SameAt(a, b, j);
  }

  /** The entry to move is still there, and its new place is free. */
  lemma MoveIsFree(nodes: Nodes, done: set<string>, from: string, to: string, k: string)
    requires done <= Moved(nodes, from) && Clear(nodes, to)
    requires k in Moved(nodes, from) && k !in done
    ensures var s := Substituted(nodes, done, from, to);
      k in s && s[k] == nodes[k] && NewKey(k, from, to) !in s
  {
    NewKeyUndone(k, from, to);
    SubstitutedAt(nodes, done, from, to, k);
    SubstitutedAt(nodes, done, from, to, NewKey(k, from, to));
  }

  lemma MoveStepAt(nodes: Nodes, done: set<string>, from: string, to: string, k: string, j: string)
    requires done <= Moved(nodes, from) && Clear(nodes, to)
    requires k in Moved(nodes, from) && k !in done && k in Substituted(nodes, done, from, to)
    ensures var t := Substituted(nodes, done + {k}, from, to);
      var moved := MoveOne(Substituted(nodes, done, from, to), k, NewKey(k, from, to));
      SameAt(t, moved, j)
  {
    NewKeyUndone(k, from, to);
    SubstitutedAt(nodes, done, from, to, k);
    SubstitutedAt(nodes, done, from, to, j);
    SubstitutedAt(nodes, done + {k}, from, to, j);
    if AtOrBelow(j, to) { NewKeyUndone(j, to, from); }
  }

  /** One turn of the loop. */
  lemma MoveStep(nodes: Nodes, done: set<string>, from: string, to: string, k: string)
    requires done <= Moved(nodes, from) && Clear(nodes, to)
    requires k in Moved(nodes, from) && k !in done
    ensures var s := Substituted(nodes, done, from, to);
      && k in s && s[k] == nodes[k]
      && NewKey(k, from, to) !in s
      && MoveOne(s, k, NewKey(k, from, to)) == Substituted(nodes, done + {k}, from, to)
  {
    MoveIsFree(nodes, done, from, to, k);
    var t := Substituted(nodes, done + {k}, from, to);
    var moved := MoveOne(Substituted(nodes, done, from, to), k, NewKey(k, from, to));
    forall j ensures SameAt(t, moved, j) {
      MoveStepAt(nodes, done, from, to, k, j);
    }
    SameEverywhere(t, moved);
  }

  lemma MoveOneCounts(nodes: Nodes, k: string, j: string, i: nat)
    requires k in nodes && j !in nodes
    ensures NodesCost(MoveOne(nodes, k, j)) == NodesCost(nodes) + |j| - |k|
    ensures |Names(MoveOne(nodes, k, j), i)| == |Names(nodes, i)|
  {
    NodesCostPut(nodes, k, nodes[k]);
    NodesCostPut(nodes - {k}, j, nodes[k]);
    NamesDrop(nodes, k, i);
    NamesPut(nodes - {k}, j, nodes[k], i);
  }

  lemma MoveStepCounts(nodes: Nodes, done: set<string>, from: string, to: string, k: string, i: nat)
    requires done <= Moved(nodes, from) && Clear(nodes, to)
    requires k in Moved(nodes, from) && k !in done
    ensures var s, t := Substituted(nodes, done, from, to), Substituted(nodes, done + {k}, from, to);
      NodesCost(t) == NodesCost(s) + |to| - |from| && |Names(t, i)| == |Names(s, i)|
  {
    MoveStep(nodes, done, from, to, k);
    MoveOneCounts(Substituted(nodes, done, from, to), k, NewKey(k, from, to), i);
  }

  lemma NoneMoved(nodes: Nodes, from: string, to: string)
    ensures Substituted(nodes, {}, from, to) == nodes
  {
  }

  /** Moving entries keeps every name count and changes the cost by the change in name lengths. */
  lemma {:induction false} MovedCounts(nodes: Nodes, done: set<string>, from: string, to: string, i: nat)
    requires done <= Moved(nodes, from) && Clear(nodes, to)
    ensures NodesCost(Substituted(nodes, done, from, to)) == NodesCost(nodes) + Growth(|done|, from, to)
    ensures |Names(Substituted(nodes, done, from, to), i)| == |Names(nodes, i)|
    decreases |done|
  {
    if done == {} {
      NoneMoved(nodes, from, to);
    } else {
      var k :| k in done;
      var rest := done - {k};
      MovedCounts(nodes, rest, from, to, i);
      MoveStepCounts(nodes, rest, from, to, k, i);
      assert rest + {k} == done && |done| == |rest| + 1;
    }
  }

  // The whole rename.

  /** Everything a rename needs of where it goes: a directory above, nothing there, no way into itself. */
  ghost predicate Ready(nodes: Nodes, from: string, to: string) {
    && Tree(nodes) && from in nodes && from != ""
    && to !in nodes && HasParent(nodes, to) && !AtOrBelow(to, from)
  }

  ghost function Renamed(nodes: Nodes, from: string, to: string): Nodes {
    Substituted(nodes, Moved(nodes, from), from, to)
  }

  /** Entries not moved keep their parent. */
  lemma StayingParent(nodes: Nodes, from: string, to: string, k: string)
    requires Ready(nodes, from, to) && HasParent(nodes, k) && !AtOrBelow(k, from)
    ensures HasParent(Renamed(nodes, from, to), k)
  {
    var p := ParentOf(k);
    BelowParent(k, from);
    AbsentIsClear(nodes, to);
    SubstitutedAt(nodes, Moved(nodes, from), from, to, p);
  }

  /** Entries moved have their old parent, moved. */
  lemma MovingParent(nodes: Nodes, from: string, to: string, suffix: string)
    requires Ready(nodes, from, to) && from + suffix in nodes
    requires suffix != "" && suffix[0] == '/'
    ensures HasParent(Renamed(nodes, from, to), to + suffix)
  {
    ParentAfter(from, suffix);
    ParentAfter(to, suffix);
    var rest := suffix[..LastSlash(suffix)];
    assert HasParent(nodes, from + suffix);
    assert rest == "" || rest[0] == '/';
    assert from + rest in Moved(nodes, from);
    AbsentIsClear(nodes, to);
    assert AtOrBelow(to + rest, to);
    assert NewKey(to + rest, to, from) == from + rest;
    SubstitutedAt(nodes, Moved(nodes, from), from, to, to + rest);
  }

  /** In the middle of the loop the root entry is still there beside the next key. */
  lemma PartlyMovedIsPaid(nodes: Nodes, done: set<string>, from: string, to: string, k: string)
    requires Ready(nodes, from, to) && done <= Moved(nodes, from)
    requires k in Moved(nodes, from) && k !in done
    ensures NodesCost(Substituted(nodes, done, from, to)) >= NODE_OVERHEAD + |k|
  {
    var s := Substituted(nodes, done, from, to);
    AbsentIsClear(nodes, to);
    MoveStep(nodes, done, from, to, k);
    SubstitutedAt(nodes, done, from, to, "");
    NodesCostPut(s, k, s[k]);
    NodesCostPut(s - {k}, "", s[""]);
  }

  /** The entries `now` of a loop with `todo` still to move. */
  ghost predicate Moving(nodes: Nodes, todo: set<string>, from: string, to: string, now: Nodes) {
    && Ready(nodes, from, to) && todo <= Moved(nodes, from)
    && now == Substituted(nodes, Moved(nodes, from) - todo, from, to)
  }

  lemma MoveBegins(nodes: Nodes, from: string, to: string)
    requires Ready(nodes, from, to)
    ensures Moving(nodes, Moved(nodes, from), from, to, nodes)
  {
    NoneMoved(nodes, from, to);
    assert Moved(nodes, from) - Moved(nodes, from) == {};
  }

  lemma MoveEnds(nodes: Nodes, from: string, to: string, now: Nodes)
    requires Moving(nodes, {}, from, to, now)
    ensures now == Renamed(nodes, from, to)
  {
    assert Moved(nodes, from) - {} == Moved(nodes, from);
  }

  lemma MoveTurn(nodes: Nodes, todo: set<string>, from: string, to: string, now: Nodes, k: string)
    requires Moving(nodes, todo, from, to, now) && k in todo
    ensures |from| <= |k| && k in now && NewKey(k, from, to) !in now && NodesCost(now) >= NODE_OVERHEAD + |k|
    ensures Moving(nodes, todo - {k}, from, to, MoveOne(now, k, NewKey(k, from, to)))
  {
    var done := Moved(nodes, from) - todo;
    AbsentIsClear(nodes, to);
    MoveStep(nodes, done, from, to, k);
    PartlyMovedIsPaid(nodes, done, from, to, k);
    assert done + {k} == Moved(nodes, from) - (todo - {k});
  }

  lemma RenamedIsTree(nodes: Nodes, from: string, to: string)
    requires Ready(nodes, from, to)
    ensures Tree(Renamed(nodes, from, to))
  {
    var after := Renamed(nodes, from, to);
    AbsentIsClear(nodes, to);
    SubstitutedAt(nodes, Moved(nodes, from), from, to, "");
    forall k | k in after && k != "" ensures HasParent(after, k) {
      SubstitutedAt(nodes, Moved(nodes, from), from, to, k);
      if !AtOrBelow(k, to) {
        assert HasParent(nodes, k);
        StayingParent(nodes, from, to, k);
      } else if k == to {
        StayingParent(nodes, from, to, to);
      } else {
        assert k == to + k[|to|..];
        MovingParent(nodes, from, to, k[|to|..]);
      }
    }
  }

  lemma RenamedIsLinked(nodes: Nodes, files: Files, from: string, to: string)
    requires Ready(nodes, from, to) && Linked(nodes, files)
    ensures Linked(Renamed(nodes, from, to), files)
  {
    var after, moved := Renamed(nodes, from, to), Moved(nodes, from);
    AbsentIsClear(nodes, to);
    forall k | k in after && after[k].File? ensures after[k].ino in files {
      SubstitutedAt(nodes, moved, from, to, k);
    }
    forall i | i in files ensures CountsNames(after, files[i], i) {
      assert CountsNames(nodes, files[i], i);
      MovedCounts(nodes, moved, from, to, i);
    }
  }

  /** Exact charges leave only one quota possible after the loop. */
  lemma MoveAllIs(fs: Fs, after: Fs, from: string, to: string, others: int)
    requires Exact(fs, others) && Exact(after, others) && Ready(fs.nodes, from, to)
    requires after.nodes == Renamed(fs.nodes, from, to)
    requires after == fs.(nodes := after.nodes, quota := fs.quota.(used := after.quota.used))
    ensures after == MoveAll(fs, from, to)
  {
    AbsentIsClear(fs.nodes, to);
    MovedCounts(fs.nodes, Moved(fs.nodes, from), from, to, 0);
  }

  lemma MoveAllKeeps(fs: Fs, from: string, to: string, others: int)
    requires Inv(fs, others) && Ready(fs.nodes, from, to)
    ensures Inv(MoveAll(fs, from, to), others)
  {
    var after := Renamed(fs.nodes, from, to);
    RenamedIsTree(fs.nodes, from, to);
    RenamedIsLinked(fs.nodes, fs.files, from, to);
    AbsentIsClear(fs.nodes, to);
    MovedCounts(fs.nodes, Moved(fs.nodes, from), from, to, 0);
    NodesCostPut(after, "", after[""]);
  }

  /** The state the loop of `rename` starts from. */
  ghost function Replaced(fs: Fs, to: string): Fs {
    if to in fs.nodes then RemoveEntry(fs, to) else fs
  }

  /** A rename that is not a no-op and is not refused. */
  ghost predicate Renames(fs: Fs, from: string, to: string) {
    from != to && !SameFile(fs.nodes, from, to) && Rename(fs, from, to).errno == OK
  }

  lemma NotIntoItself(fs: Fs, from: string, to: string, others: int)
    requires Inv(fs, others) && Renames(fs, from, to)
    ensures !AtOrBelow(to, from)
  {
    if IsBelow(to, from) {
      BelowParent(to, from);
      if ParentOf(to) != from { BelowNeedsDir(fs.nodes, ParentOf(to), from); }
    }
  }

  /** What a rename replaces has nothing below it and is not the root. */
  lemma ReplacedIsLeaf(fs: Fs, from: string, to: string, others: int)
    requires Inv(fs, others) && Renames(fs, from, to) && to in fs.nodes
    ensures to != "" && (fs.nodes[to].Dir? ==> !HasChild(fs.nodes, to))
  {
    assert ParentOf("") == "";
    assert ReplaceError(fs.nodes, fs.nodes[from].Dir?, to) == OK;
  }

  lemma ReplacedKeeps(fs: Fs, from: string, to: string, others: int)
    requires Inv(fs, others) && Renames(fs, from, to)
    ensures Inv(Replaced(fs, to), others) && Replaced(fs, to).nodes == fs.nodes - {to}
  {
    if to in fs.nodes {
      ReplacedIsLeaf(fs, from, to, others);
      RemoveKeeps(fs, to, others);
    } else {
      assert fs.nodes - {to} == fs.nodes;
    }
  }

  lemma RenameStart(fs: Fs, from: string, to: string, others: int)
    requires Inv(fs, others) && from != "" && Renames(fs, from, to)
    ensures var s := Replaced(fs, to);
      && Inv(s, others) && Ready(s.nodes, from, to)
      && s.nodes == fs.nodes - {to}
      && Rename(fs, from, to).fs == MoveAll(s, from, to)
  {
    NotIntoItself(fs, from, to, others);
    ReplacedKeeps(fs, from, to, others);
    assert HasParent(fs.nodes, to);
    assert ParentOf(to) != to by {
      if to in fs.nodes { ReplacedIsLeaf(fs, from, to, others); }
    }
  }

  lemma RenameKeeps(fs: Fs, from: string, to: string, others: int)
    requires Inv(fs, others) && from != ""
    ensures Inv(Rename(fs, from, to).fs, others)
  {
    if Renames(fs, from, to) {
      RenameStart(fs, from, to, others);
      MoveAllKeeps(Replaced(fs, to), from, to, others);
    }
  }

  /**
   A rename that succeeds between two different files or directories is prefix
   substitution, seen at any one path: what is at or below the target is what was at or
   below the source, nothing is left at or below the source, every other path is as it was.
   */
  lemma RenameIsSubstitution(fs: Fs, from: string, to: string, j: string, others: int)
    requires Inv(fs, others) && from != "" && Renames(fs, from, to)
    ensures var was, now := fs.nodes, Rename(fs, from, to).fs.nodes;
      && (AtOrBelow(j, to) ==>
            var k := NewKey(j, to, from);
            (j in now <==> k in was) && (k in was ==> now[j] == was[k]))
      && (AtOrBelow(j, from) ==> j !in now)
      && (!AtOrBelow(j, to) && !AtOrBelow(j, from) ==>
            (j in now <==> j in was) && (j in was ==> now[j] == was[j]))
  {
    RenameStart(fs, from, to, others);
    var s := Replaced(fs, to);
    var moved := Moved(s.nodes, from);
    AbsentIsClear(s.nodes, to);
    SubstitutedAt(s.nodes, moved, from, to, j);
    if AtOrBelow(j, to) {
      NewKeyUndone(j, to, from);
      if AtOrBelow(j, from) {
        if |to| <= |from| { BelowBoth(j, to, from); } else { BelowBoth(j, from, to); }
      }
    }
  }
}
