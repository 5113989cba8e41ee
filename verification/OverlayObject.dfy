/**
 The overlay object itself, its upper layer and whiteouts changed step by step, each
 method proved to do what its function on values says.
 */
module OverlayObject {
  import opened Errno
  import opened Options
  import opened RelPaths
  import opened OverlayModel
  import opened OverlaySteps
  import opened OverlayRefinement
  import opened OverlayCopyUp
  import TmpFsModel

  /** What is below a hidden directory is hidden. */
  lemma HiddenBelow(whites: set<string>, rel: string, child: string)
    requires rel != "" && child != "" && ParentOf(child) == rel
    ensures IsWhited(whites, rel) ==> IsWhited(whites, child)
  {
  }

  class OverlayFs {
    var upper: Layer
    const lower: Layer
    var whites: set<string>

    ghost function State(): Overlay
      reads this
    {
      Overlay(upper, lower, whites)
    }

    constructor (lower: Layer)
      requires Tree(lower)
      ensures Inv(State()) && Shows(State(), lower)
    {
      this.lower := lower;
      upper, whites := map["" := Dir], {};
      FreshShowsLower(lower);
    }

    method Whited(rel: string) returns (hidden: bool)
      ensures hidden == IsWhited(whites, rel)
    {
      if rel in whites { return true; }
      var p := rel;
      while '/' in p
        invariant p !in whites
        invariant IsWhited(whites, rel) <==> IsWhited(whites, p)
        decreases |p|
      {
        p := ParentOf(p);
        if p in whites { return true; }
      }
      return false;
    }

    method Stat(rel: string) returns (item: Option<Item>)
      ensures item == View(State(), rel)
    {
      var hidden := Whited(rel);
      if hidden { return None; }
      if rel in upper { return Some(upper[rel]); }
      return if rel in lower then Some(lower[rel]) else None;
    }

    method ReadDir(dir: string) returns (errno: nat, names: set<string>)
      requires Inv(State())
      ensures errno == OK <==> Visible(State(), dir)
      ensures errno == OK ==> forall k :: k in names <==> k != "" && ParentOf(k) == dir && Visible(State(), k)
    {
      names := {};
      var item := Stat(dir);
      if item == None { return ENOENT, {}; }
      var todo := Children(lower, dir);
      while todo != {}
        invariant todo <= Children(lower, dir)
        invariant names == set k | k in Children(lower, dir) - todo && !IsWhited(whites, k)
        decreases todo
      {
        var k :| k in todo;
        var hidden := Whited(k);
        if !hidden { names := names + {k}; }
        todo := todo - {k};
      }
      names := names + Children(upper, dir);
      errno := OK;
      assert names == Listing(State(), dir);
      forall k ensures k in names <==> k != "" && ParentOf(k) == dir && Visible(State(), k) {
        ListingIsView(State(), dir, k);
      }
    }

    /** Directory `dir` and those above it in the upper layer. */
    method EnsureDir(dir: string)
      requires Inv(State()) && VisibleDir(State(), dir)
      modifies this`upper
      ensures State() == EnsureDirs(old(State()), dir)
      decreases |dir|
    {
      if dir == "" || dir in upper {
        AboveUpperIsEmpty(State(), dir);
        return;
      }
      ViewIsTree(State(), dir);
      AboveGrows(State(), dir);
      EnsureDir(ParentOf(dir));
      upper := upper[dir := Dir];
    }

    /** Bring `rel`, and everything in sight below it, into the upper layer; whiteouts over `rel` are not asked for. */
    method CopyUpPath(rel: string)
      requires Inv(State()) && (Visible(State(), rel) || Missing(State(), rel))
      modifies this`upper
      ensures State() == CopiedUp(old(State()), rel)
      decreases Under(lower, rel)
    {
      if rel in upper || rel !in lower { return; }
      if Visible(State(), rel) {
        ViewIsTree(State(), rel);
        AboveGrows(State(), rel);
      }
      EnsureDirsKeeps(State(), ParentOf(rel));
      EnsureDir(ParentOf(rel));
      if lower[rel].Dir? {
        upper := upper[rel := Dir];
        CopyChildren(old(State()), rel);
      } else {
        upper := upper[rel := lower[rel]];
        if Visible(old(State()), rel) { LeafCopies(old(State()), rel); }
      }
    }

    /** The loop of `copy_up` over the lower children of a directory. */
    method CopyChildren(ghost was: Overlay, rel: string)
      requires Inv(was) && was.lower == lower && was.whites == whites
      requires rel != "" && rel in was.lower && rel !in was.upper
      requires State() == if LowerOnly(was, rel) then EnsureDirs(was, rel) else PullHidden(was, rel)
      modifies this`upper
      ensures State() == CopiedUp(was, rel)
      decreases Under(lower, rel), 0
    {
      var todo := Children(lower, rel);
      if LowerOnly(was, rel) { PartBegins(was, rel); }
      while todo != {}
        invariant todo <= Children(lower, rel)
        invariant State() == if LowerOnly(was, rel) then Pull(was, Part(was, rel, todo)) else PullHidden(was, rel)
        decreases todo
      {
        var c :| c in todo;
        var hidden := Whited(c);
        HiddenBelow(whites, rel, c);
        if hidden {
          PartSkips(was, rel, todo, c);
        } else {
          PartIsPullable(was, rel, todo);
          PullKeeps(was, Part(was, rel, todo));
          PartStep(was, rel, todo, c);
          UnderShrinks(lower, rel, c);
          CopyUpPath(c);
        }
        todo := todo - {c};
      }
      PartEnds(was, rel);
    }

    /** `create`, `mkdir` and `symlink`. */
    method AddEntry(rel: string, item: Item) returns (errno: nat)
      requires Inv(State()) && (Visible(State(), rel) || VisibleDir(State(), ParentOf(rel)))
      modifies this`upper, this`whites
      ensures Reply(State(), errno) == Add(old(State()), rel, item)
    {
      var seen := Stat(rel);
      if seen != None { return EEXIST; }
      EnsureBeside(rel);
      if rel in upper { return EEXIST; }
      upper := upper[rel := item];
      errno := OK;
    }

    /** The whiteout of a new name goes, and the directories above it come up. */
    method EnsureBeside(rel: string)
      requires Inv(State()) && VisibleDir(State(), ParentOf(rel)) && rel != ""
      modifies this`upper, this`whites
      ensures var up := EnsureDirs(old(State()), ParentOf(rel)); State() == up.(whites := up.whites - {rel})
    {
      EnsureDir(ParentOf(rel));
      whites := whites - {rel};
    }

    method WriteAt(rel: string, off: nat, buf: seq<nat>) returns (errno: nat)
      requires Inv(State()) && (Visible(State(), rel) || Missing(State(), rel))
      modifies this`upper
      ensures Reply(State(), errno) == if Visible(old(State()), rel) then Write(old(State()), rel, off, buf)
                                       else WriteHidden(old(State()), rel, off, buf)
    {
      if Visible(State(), rel) { CopyUpKeeps(State(), rel); }
      CopyUpPath(rel);
      if rel !in upper { return ENOENT; }
      if !upper[rel].File? { return EISDIR; }
      if off + |buf| > TmpFsModel.MAX_FILE_SIZE { return EFBIG; }
      upper := upper[rel := File(TmpFsModel.Overwritten(upper[rel].data, off, buf))];
      assert Visible(old(State()), rel) ==> whites - {rel} == whites;
      errno := OK;
    }

    method SetLength(rel: string, len: nat) returns (errno: nat)
      requires Inv(State()) && (Visible(State(), rel) || Missing(State(), rel))
      modifies this`upper
      ensures Reply(State(), errno) == if Visible(old(State()), rel) then Truncate(old(State()), rel, len)
                                       else TruncateHidden(old(State()), rel, len)
    {
      if Visible(State(), rel) { CopyUpKeeps(State(), rel); }
      CopyUpPath(rel);
      if rel !in upper { return ENOENT; }
      if upper[rel].Dir? { return EISDIR; }
      if upper[rel].Link? { return EINVAL; }
      if len > TmpFsModel.MAX_FILE_SIZE { return EFBIG; }
      upper := upper[rel := File(TmpFsModel.Resized(upper[rel].data, len))];
      assert Visible(old(State()), rel) ==> whites - {rel} == whites;
      errno := OK;
    }

    method UnlinkEntry(rel: string) returns (errno: nat)
      modifies this`upper, this`whites
      ensures Reply(State(), errno) == Unlink(old(State()), rel)
    {
      var item := Stat(rel);
      if item == None { return ENOENT; }
      if item.value.Dir? { return EISDIR; }
      upper := upper - {rel};
      whites := whites + {rel};
      errno := OK;
    }

    method RemoveDir(rel: string) returns (errno: nat)
      requires Inv(State()) && rel != ""
      modifies this`upper, this`whites
      ensures Reply(State(), errno) == Rmdir(old(State()), rel)
    {
      var item := Stat(rel);
      if item == None { return ENOENT; }
      if !item.value.Dir? { return ENOTDIR; }
      var e, names := ReadDir(rel);
      forall k ensures k in names <==> k in Listing(State(), rel) {
        ListingIsView(State(), rel, k);
      }
      assert names == Listing(State(), rel);
      if names != {} { return ENOTEMPTY; }
      upper := upper - {rel};
      whites := whites + {rel};
      errno := OK;
    }

    /** Rename of a file or symlink, or of nothing. */
    method RenameEntry(from: string, to: string) returns (errno: nat)
      requires Inv(State()) && !VisibleDir(State(), from)
      requires Visible(State(), to) || VisibleDir(State(), ParentOf(to))
      modifies this`upper, this`whites
      ensures Reply(State(), errno) == Rename(old(State()), from, to)
    {
      var item := Stat(from);
      if item == None { return ENOENT; }
      if from == to { return OK; }
      var target := Stat(to);
      if target == Some(Dir) { return EISDIR; }
      assert VisibleDir(State(), "");
      if target != None { ViewIsTree(State(), to); }
      MoveUp(from, to);
      errno := OK;
    }

    /** The second half: clear the target, bring both sides up, rename within the upper layer. */
    method MoveUp(from: string, to: string)
      requires Inv(State()) && Visible(State(), from) && !VisibleDir(State(), from) && from != to && to != ""
      requires !VisibleDir(State(), to) && VisibleDir(State(), ParentOf(to))
      modifies this`upper, this`whites
      ensures var up := EnsureDirs(CopyUp(old(State()), from), ParentOf(to));
        State() == Put(Hide(up, from), to, View(old(State()), from).value)
    {
      ghost var was := State();
      upper := upper - {to};
      WithoutKeeps(was, to);
      CopyUpWithout(was, from, to);
      CopyUpKeeps(State(), from);
      CopyUpPath(from);
      EnsureDirsWithout(CopyUp(was, from), to);
      EnsureDirsKeeps(State(), ParentOf(to));
      EnsureDir(ParentOf(to));
      whites := whites - {to};
      upper := (upper - {from})[to := upper[from]];
      whites := whites + {from};
      assert whites == (was.whites + {from}) - {to};
    }
  }
}
