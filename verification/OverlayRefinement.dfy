/**
 The overlay's operations, the same operations on one plain map of paths, and the proof
 that over every run the merged view is that map.
 */
module OverlayRefinement {
  import opened Errno
  import opened Options
  import opened RelPaths
  import opened OverlayModel
  import opened OverlaySteps
  import TmpFsModel

  // What is copied up.

  /** Whether `k` is in sight and only in the lower layer. */
  predicate LowerOnly(ov: Overlay, k: string) {
    k in ov.lower && k !in ov.upper && !IsWhited(ov.whites, k)
  }

  /** The directories above `dir`, and `dir`, that are missing from the upper layer. */
  function AboveSet(ov: Overlay, dir: string): set<string> {
    set k | k in ov.lower && LowerOnly(ov, k) && AtOrBelow(dir, k)
  }

  /** Those, and everything below. */
  function CopySet(ov: Overlay, rel: string): set<string> {
    set k | k in ov.lower && LowerOnly(ov, k) && (AtOrBelow(rel, k) || AtOrBelow(k, rel))
  }

  function EnsureDirs(ov: Overlay, dir: string): Overlay {
    Pull(ov, AboveSet(ov, dir))
  }

  /** `copy_up` of a visible path. */
  function CopyUp(ov: Overlay, rel: string): Overlay {
    if rel in ov.upper then ov else Pull(ov, CopySet(ov, rel))
  }

  lemma AboveIsPullable(ov: Overlay, dir: string)
    requires Inv(ov)
    ensures Pullable(ov, AboveSet(ov, dir))
  {
    forall k | k in AboveSet(ov, dir) ensures ParentOf(k) in AboveSet(ov, dir) || ParentOf(k) in ov.upper {
      AboveParent(ov, dir, k);
    }
  }

  lemma AboveParent(ov: Overlay, dir: string, k: string)
    requires Inv(ov) && LowerOnly(ov, k) && AtOrBelow(dir, k)
    ensures ParentOf(k) in ov.upper || (LowerOnly(ov, ParentOf(k)) && AtOrBelow(dir, ParentOf(k)))
  {
    assert HasParent(ov.lower, k);
    if '/' in k {
      BelowParent(k, ParentOf(k));
      BelowTransitive(dir, k, ParentOf(k));
    }
  }

  lemma CopyIsPullable(ov: Overlay, rel: string)
    requires Inv(ov)
    ensures Pullable(ov, CopySet(ov, rel))
  {
    var keys := CopySet(ov, rel);
    forall k | k in keys ensures ParentOf(k) in keys || ParentOf(k) in ov.upper {
      if AtOrBelow(rel, k) {
        AboveParent(ov, rel, k);
      } else {
        BelowParent(k, rel);
        assert HasParent(ov.lower, k);
      }
    }
  }

  /** Copying up, of one path or a whole directory, leaves the view as it was. */
  lemma CopyUpKeeps(ov: Overlay, rel: string)
    requires Inv(ov)
    ensures Inv(CopyUp(ov, rel))
    ensures forall k :: View(CopyUp(ov, rel), k) == View(ov, k)
    ensures Visible(ov, rel) ==> rel in CopyUp(ov, rel).upper
  {
    CopyIsPullable(ov, rel);
    PullKeeps(ov, CopySet(ov, rel));
  }

  lemma EnsureDirsKeeps(ov: Overlay, dir: string)
    requires Inv(ov)
    ensures Inv(EnsureDirs(ov, dir))
    ensures forall k :: View(EnsureDirs(ov, dir), k) == View(ov, k)
    ensures VisibleDir(ov, dir) ==> dir in EnsureDirs(ov, dir).upper && EnsureDirs(ov, dir).upper[dir].Dir?
  {
    AboveIsPullable(ov, dir);
    PullKeeps(ov, AboveSet(ov, dir));
  }

  // The operations, on visible targets with visible parent directories.

  datatype Reply = Reply(ov: Overlay, errno: nat)

  /** `create`, `mkdir` and `symlink`. */
  function Add(ov: Overlay, rel: string, item: Item): Reply {
    if Visible(ov, rel) then Reply(ov, EEXIST)
    else
      var up := EnsureDirs(ov, ParentOf(rel));
      if rel in up.upper then Reply(up.(whites := up.whites - {rel}), EEXIST)
      else Reply(Put(up, rel, item), OK)
  }

  function Write(ov: Overlay, rel: string, off: nat, buf: seq<nat>): Reply
    requires Visible(ov, rel)
  {
    var up := CopyUp(ov, rel);
    if rel !in up.upper || !up.upper[rel].File? then Reply(up, EISDIR)
    else if off + |buf| > TmpFsModel.MAX_FILE_SIZE then Reply(up, EFBIG)
    else Reply(Put(up, rel, File(TmpFsModel.Overwritten(up.upper[rel].data, off, buf))), OK)
  }

  function Truncate(ov: Overlay, rel: string, len: nat): Reply
    requires Visible(ov, rel)
  {
    var up := CopyUp(ov, rel);
    if rel !in up.upper || up.upper[rel].Dir? then Reply(up, EISDIR)
    else if up.upper[rel].Link? then Reply(up, EINVAL)
    else if len > TmpFsModel.MAX_FILE_SIZE then Reply(up, EFBIG)
    else Reply(Put(up, rel, File(TmpFsModel.Resized(up.upper[rel].data, len))), OK)
  }

  function Unlink(ov: Overlay, rel: string): Reply {
    match View(ov, rel)
    case None => Reply(ov, ENOENT)
    case Some(Dir) => Reply(ov, EISDIR)
    case Some(_) => Reply(Hide(ov, rel), OK)
  }

  /** What `readdir` lists: unhidden lower children and all upper ones. */
  function Listing(ov: Overlay, dir: string): set<string> {
    (set k | k in ov.lower && k != "" && ParentOf(k) == dir && !IsWhited(ov.whites, k))
    + (set k | k in ov.upper && k != "" && ParentOf(k) == dir)
  }

  function Rmdir(ov: Overlay, rel: string): Reply {
    match View(ov, rel)
    case None => Reply(ov, ENOENT)
    case Some(File(_)) => Reply(ov, ENOTDIR)
    case Some(Link(_)) => Reply(ov, ENOTDIR)
    case Some(Dir) => if Listing(ov, rel) != {} then Reply(ov, ENOTEMPTY) else Reply(Hide(ov, rel), OK)
  }

  /** Renaming a visible file or symlink. */
  function Rename(ov: Overlay, from: string, to: string): Reply {
    if !Visible(ov, from) then Reply(ov, ENOENT)
    else if from == to then Reply(ov, OK)
    else if VisibleDir(ov, to) then Reply(ov, EISDIR)
    else
      var up := EnsureDirs(CopyUp(ov, from), ParentOf(to));
      Reply(Put(Hide(up, from), to, View(ov, from).value), OK)
  }

  datatype Op =
    | OpAdd(rel: string, item: Item)
    | OpWrite(rel: string, off: nat, buf: seq<nat>)
    | OpTruncate(rel: string, len: nat)
    | OpUnlink(rel: string)
    | OpRmdir(rel: string)
    | OpRename(from: string, rel: string)

  // The same on a plain map.

  datatype PlainReply = PlainReply(m: Layer, errno: nat)

  function Plain(m: Layer, op: Op): PlainReply {
    match op
    case OpAdd(rel, item) =>
      if rel in m then PlainReply(m, EEXIST) else PlainReply(m[rel := item], OK)
    case OpWrite(rel, off, buf) =>
      if rel !in m then PlainReply(m, ENOENT)
      else if !m[rel].File? then PlainReply(m, EISDIR)
      else if off + |buf| > TmpFsModel.MAX_FILE_SIZE then PlainReply(m, EFBIG)
      else PlainReply(m[rel := File(TmpFsModel.Overwritten(m[rel].data, off, buf))], OK)
    case OpTruncate(rel, len) =>
      if rel !in m then PlainReply(m, ENOENT)
      else if m[rel].Dir? then PlainReply(m, EISDIR)
      else if m[rel].Link? then PlainReply(m, EINVAL)
      else if len > TmpFsModel.MAX_FILE_SIZE then PlainReply(m, EFBIG)
      else PlainReply(m[rel := File(TmpFsModel.Resized(m[rel].data, len))], OK)
    case OpUnlink(rel) =>
      if rel !in m then PlainReply(m, ENOENT)
      else if m[rel].Dir? then PlainReply(m, EISDIR)
      else PlainReply(m - {rel}, OK)
    case OpRmdir(rel) =>
      if rel !in m then PlainReply(m, ENOENT)
      else if !m[rel].Dir? then PlainReply(m, ENOTDIR)
      else if exists k :: k in m && k != "" && ParentOf(k) == rel then PlainReply(m, ENOTEMPTY)
      else PlainReply(m - {rel}, OK)
    case OpRename(from, rel) =>
      if from !in m then PlainReply(m, ENOENT)
      else if from == rel then PlainReply(m, OK)
      else if rel in m && m[rel].Dir? then PlainReply(m, EISDIR)
      else PlainReply((m - {from})[rel := m[from]], OK)
  }

  /** Writes go to what is in sight, new entries into directories in sight; the root stays. */
  predicate Allowed(m: Layer, op: Op) {
    match op
    case OpAdd(rel, _) => rel in m || HasParent(m, rel)
    case OpWrite(rel, _, _) => rel in m
    case OpTruncate(rel, _) => rel in m
    case OpUnlink(_) => true
    case OpRmdir(rel) => rel != ""
    case OpRename(from, rel) => (from in m ==> !m[from].Dir?) && (rel in m || HasParent(m, rel))
  }

  ghost predicate Shows(ov: Overlay, m: Layer) {
    forall k :: View(ov, k) == if k in m then Some(m[k]) else None
  }

  function Apply(ov: Overlay, op: Op): Reply
    requires op.OpWrite? || op.OpTruncate? ==> Visible(ov, op.rel)
  {
    match op
    case OpAdd(rel, item) => Add(ov, rel, item)
    case OpWrite(rel, off, buf) => Write(ov, rel, off, buf)
    case OpTruncate(rel, len) => Truncate(ov, rel, len)
    case OpUnlink(rel) => Unlink(ov, rel)
    case OpRmdir(rel) => Rmdir(ov, rel)
    case OpRename(from, rel) => Rename(ov, from, rel)
  }

  ghost predicate Agree(r: Reply, p: PlainReply) {
    Inv(r.ov) && Shows(r.ov, p.m) && r.errno == p.errno
  }

  lemma RootShows(ov: Overlay, m: Layer)
    requires Inv(ov) && Shows(ov, m)
    ensures "" in m && m[""].Dir?
  {
    assert View(ov, "") == Some(Dir);
  }

  lemma AddAgrees(ov: Overlay, m: Layer, rel: string, item: Item)
    requires Inv(ov) && Shows(ov, m) && Allowed(m, OpAdd(rel, item))
    ensures Agree(Add(ov, rel, item), Plain(m, OpAdd(rel, item)))
  {
    RootShows(ov, m);
    assert View(ov, rel) == if rel in m then Some(m[rel]) else None;
    if rel !in m {
      EnsureDirsKeeps(ov, ParentOf(rel));
      assert VisibleDir(ov, ParentOf(rel));
      PutKeeps(EnsureDirs(ov, ParentOf(rel)), rel, item);
    }
  }

  /** A file in the upper layer gets new contents. */
  lemma ReplaceAgrees(ov: Overlay, m: Layer, rel: string, data: seq<nat>)
    requires Inv(ov) && Shows(ov, m) && rel in m && m[rel].File?
    ensures var up := CopyUp(ov, rel);
            Inv(Put(up, rel, File(data))) && Shows(Put(up, rel, File(data)), m[rel := File(data)])
  {
    RootShows(ov, m);
    CopyUpKeeps(ov, rel);
    var up := CopyUp(ov, rel);
    assert View(ov, rel) == Some(m[rel]) && View(up, rel) == Some(m[rel]);
    assert HasParent(up.upper, rel);
    PutKeeps(up, rel, File(data));
  }

  lemma WriteAgrees(ov: Overlay, m: Layer, rel: string, off: nat, buf: seq<nat>)
    requires Inv(ov) && Shows(ov, m) && rel in m
    ensures Visible(ov, rel) && Agree(Write(ov, rel, off, buf), Plain(m, OpWrite(rel, off, buf)))
  {
    CopyUpKeeps(ov, rel);
    assert View(ov, rel) == Some(m[rel]) && View(CopyUp(ov, rel), rel) == Some(m[rel]);
    if m[rel].File? {
      ReplaceAgrees(ov, m, rel, TmpFsModel.Overwritten(m[rel].data, off, buf));
    }
  }

  lemma TruncateAgrees(ov: Overlay, m: Layer, rel: string, len: nat)
    requires Inv(ov) && Shows(ov, m) && rel in m
    ensures Visible(ov, rel) && Agree(Truncate(ov, rel, len), Plain(m, OpTruncate(rel, len)))
  {
    CopyUpKeeps(ov, rel);
    assert View(ov, rel) == Some(m[rel]) && View(CopyUp(ov, rel), rel) == Some(m[rel]);
    if m[rel].File? {
      ReplaceAgrees(ov, m, rel, TmpFsModel.Resized(m[rel].data, len));
    }
  }

  lemma UnlinkAgrees(ov: Overlay, m: Layer, rel: string)
    requires Inv(ov) && Shows(ov, m)
    ensures Agree(Unlink(ov, rel), Plain(m, OpUnlink(rel)))
  {
    RootShows(ov, m);
    assert View(ov, rel) == if rel in m then Some(m[rel]) else None;
    if rel in m && !m[rel].Dir? {
      NoChildrenUnlessDir(ov, rel);
      HideKeeps(ov, rel);
    }
  }

  /** `readdir` lists exactly the visible entries of the directory. */
  lemma ListingIsView(ov: Overlay, dir: string, k: string)
    requires Inv(ov)
    ensures k in Listing(ov, dir) <==> k != "" && ParentOf(k) == dir && Visible(ov, k)
  {
  }

  lemma RmdirAgrees(ov: Overlay, m: Layer, rel: string)
    requires Inv(ov) && Shows(ov, m) && rel != ""
    ensures Agree(Rmdir(ov, rel), Plain(m, OpRmdir(rel)))
  {
    assert View(ov, rel) == if rel in m then Some(m[rel]) else None;
    forall k ensures k in Listing(ov, rel) <==> k in m && k != "" && ParentOf(k) == rel {
      ListingIsView(ov, rel, k);
      assert View(ov, k) == if k in m then Some(m[k]) else None;
    }
    if rel in m && m[rel].Dir? && Listing(ov, rel) == {} {
      assert forall k :: k !in Listing(ov, rel);
      assert NoChildren(ov, rel);
      HideKeeps(ov, rel);
    }
  }

  lemma RenameAgrees(ov: Overlay, m: Layer, from: string, to: string)
    requires Inv(ov) && Shows(ov, m) && Allowed(m, OpRename(from, to))
    ensures Agree(Rename(ov, from, to), Plain(m, OpRename(from, to)))
  {
    RootShows(ov, m);
    assert View(ov, from) == if from in m then Some(m[from]) else None;
    assert View(ov, to) == if to in m then Some(m[to]) else None;
    if from in m && from != to && !(to in m && m[to].Dir?) {
      var p := ParentOf(to);
      assert VisibleDir(ov, p) by {
        assert View(ov, p) == if p in m then Some(m[p]) else None;
        if to in m { ViewIsTree(ov, to); }
      }
      CopyUpKeeps(ov, from);
      EnsureDirsKeeps(CopyUp(ov, from), p);
      var up := EnsureDirs(CopyUp(ov, from), p);
      NoChildrenUnlessDir(up, from);
      HideKeeps(up, from);
      PutKeeps(Hide(up, from), to, m[from]);
    }
  }

  lemma StepAgrees(ov: Overlay, m: Layer, op: Op)
    requires Inv(ov) && Shows(ov, m) && Allowed(m, op)
    ensures op.OpWrite? || op.OpTruncate? ==> Visible(ov, op.rel)
    ensures Agree(Apply(ov, op), Plain(m, op))
  {
    match op
    case OpAdd(rel, item) => AddAgrees(ov, m, rel, item);
    case OpWrite(rel, off, buf) => WriteAgrees(ov, m, rel, off, buf);
    case OpTruncate(rel, len) => TruncateAgrees(ov, m, rel, len);
    case OpUnlink(rel) => UnlinkAgrees(ov, m, rel);
    case OpRmdir(rel) => RmdirAgrees(ov, m, rel);
    case OpRename(from, rel) => RenameAgrees(ov, m, from, rel);
  }

  /** What a list of operations comes to: the state, and the error number of each. */
  datatype Ran<S> = Ran(state: S, errnos: seq<nat>)

  /** The plain map after a list of operations, each allowed in its turn. */
  function PlainRun(m: Layer, ops: seq<Op>): Option<Ran<Layer>>
    decreases |ops|
  {
    if ops == [] then Some(Ran(m, []))
    else if !Allowed(m, ops[0]) then None
    else
      var first := Plain(m, ops[0]);
      match PlainRun(first.m, ops[1..])
      case None => None
      case Some(rest) => Some(Ran(rest.state, [first.errno] + rest.errnos))
  }

  function Run(ov: Overlay, ops: seq<Op>): Option<Ran<Overlay>>
    decreases |ops|
  {
    if ops == [] then Some(Ran(ov, []))
    else if (ops[0].OpWrite? || ops[0].OpTruncate?) && !Visible(ov, ops[0].rel) then None
    else
      var first := Apply(ov, ops[0]);
      match Run(first.ov, ops[1..])
      case None => None
      case Some(rest) => Some(Ran(rest.state, [first.errno] + rest.errnos))
  }

  /** Over every run the answers, and the merged view, are those of the plain map given the same operations. */
  lemma {:induction false} EveryRun(ov: Overlay, m: Layer, ops: seq<Op>)
    requires Inv(ov) && Shows(ov, m) && PlainRun(m, ops).Some?
    ensures Run(ov, ops).Some?
    ensures var r, plain := Run(ov, ops).value, PlainRun(m, ops).value;
            Inv(r.state) && Shows(r.state, plain.state) && r.errnos == plain.errnos && |r.errnos| == |ops|
    decreases |ops|
  {
    if ops != [] {
      StepAgrees(ov, m, ops[0]);
      EveryRun(Apply(ov, ops[0]).ov, Plain(m, ops[0]).m, ops[1..]);
    }
  }

  /** A fresh overlay shows its lower tree. */
  lemma FreshShowsLower(lower: Layer)
    requires Tree(lower)
    ensures var ov := Overlay(map["" := Dir], lower, {}); Inv(ov) && Shows(ov, lower)
  {
    var ov := Overlay(map["" := Dir], lower, {});
    forall k ensures !IsWhited({}, k) {
      NothingWhited(k);
    }
  }

  lemma {:induction false} NothingWhited(k: string)
    ensures !IsWhited({}, k)
    decreases |k|
  {
    if '/' in k { NothingWhited(ParentOf(k)); }
  }

  // Writing to a path that is not in sight.

  /** What is under a whiteout, copied up all the same. */
  function PullHidden(ov: Overlay, rel: string): Overlay
    requires rel in ov.lower
  {
    var dirs := EnsureDirs(ov, ParentOf(rel));
    dirs.(upper := dirs.upper[rel := ov.lower[rel]])
  }

  /** A name not in sight in a directory that is. */
  predicate Missing(ov: Overlay, rel: string) {
    rel != "" && VisibleDir(ov, ParentOf(rel)) && !Visible(ov, rel)
  }

  /** `copy_up` of either kind of name. */
  function CopiedUp(ov: Overlay, rel: string): Overlay {
    if Visible(ov, rel) then CopyUp(ov, rel) else if rel in ov.lower then PullHidden(ov, rel) else ov
  }

  /** `truncate` does not ask for whiteouts either. */
  function TruncateHidden(ov: Overlay, rel: string, len: nat): Reply {
    if rel !in ov.lower then Reply(ov, ENOENT)
    else
      var up := PullHidden(ov, rel);
      if ov.lower[rel].Dir? then Reply(up, EISDIR)
      else if ov.lower[rel].Link? then Reply(up, EINVAL)
      else if len > TmpFsModel.MAX_FILE_SIZE then Reply(up, EFBIG)
      else Reply(up.(upper := up.upper[rel := File(TmpFsModel.Resized(ov.lower[rel].data, len))]), OK)
  }

  /** `write_at` does not ask for whiteouts: whatever the lower layer has is copied up first. */
  function WriteHidden(ov: Overlay, rel: string, off: nat, buf: seq<nat>): Reply {
    if rel !in ov.lower then Reply(ov, ENOENT)
    else
      var up := PullHidden(ov, rel);
      if !ov.lower[rel].File? then Reply(up, EISDIR)
      else if off + |buf| > TmpFsModel.MAX_FILE_SIZE then Reply(up, EFBIG)
      else Reply(up.(upper := up.upper[rel := File(TmpFsModel.Overwritten(ov.lower[rel].data, off, buf))]), OK)
  }

  /**
   In a visible directory, a write to a missing name is refused and harmless exactly when
   the lower layer never had that name.
   */
  lemma HiddenWriteIsRefused(ov: Overlay, rel: string, off: nat, buf: seq<nat>)
    requires Inv(ov) && Missing(ov, rel)
    ensures var r := WriteHidden(ov, rel, off, buf);
      r.errno == ENOENT && Inv(r.ov) <==> rel !in ov.lower
  {
    if rel in ov.lower {
      var r := WriteHidden(ov, rel, off, buf);
      assert rel in r.ov.upper && IsWhited(r.ov.whites, rel);
    }
  }

  /** So is a change of its length. */
  lemma HiddenTruncateIsRefused(ov: Overlay, rel: string, len: nat)
    requires Inv(ov) && Missing(ov, rel)
    ensures var r := TruncateHidden(ov, rel, len);
            r.errno == ENOENT && Inv(r.ov) <==> rel !in ov.lower
  {
    if rel in ov.lower {
      var r := TruncateHidden(ov, rel, len);
      assert rel in r.ov.upper && IsWhited(r.ov.whites, rel);
    }
  }

  /** It does happen: delete a lower file, write to its name, create it, and the old contents are back. */
  lemma DeletedFileComesBack()
    ensures
      var lower: Layer := map["" := Dir, "f" := File([1])];
      var gone := Unlink(Overlay(map["" := Dir], lower, {}), "f");
      var written := WriteHidden(gone.ov, "f", 1, [2]);
      var made := Add(written.ov, "f", File([]));
      && gone.errno == OK && View(gone.ov, "f") == None
      && written.errno == OK && View(written.ov, "f") == None
      && made.errno == EEXIST && View(made.ov, "f") == Some(File([1, 2]))
  {
    var lower: Layer := map["" := Dir, "f" := File([1])];
    var ov := Overlay(map["" := Dir], lower, {});
    NothingWhited("f");
    var gone := Unlink(ov, "f");
    assert gone == Reply(Hide(ov, "f"), OK);
    assert ParentOf("f") == "";
    assert forall k :: !AtOrBelow("", k) || k == "";
    var written := WriteHidden(gone.ov, "f", 1, [2]);
    assert AboveSet(gone.ov, "") == {};
    assert TmpFsModel.Overwritten([1], 1, [2]) == [1, 2];
    assert written.ov.upper == map["" := Dir, "f" := File([1, 2])];
    assert AboveSet(written.ov, "") == {};
    var made := Add(written.ov, "f", File([]));
    assert made.ov.whites == {};
  }

  /** The same by truncating it: what was deleted is back, cut short. */
  lemma DeletedFileComesBackCut()
    ensures
      var lower: Layer := map["" := Dir, "f" := File([1, 2])];
      var gone := Unlink(Overlay(map["" := Dir], lower, {}), "f");
      var cut := TruncateHidden(gone.ov, "f", 1);
      var made := Add(cut.ov, "f", File([]));
      && gone.errno == OK && View(gone.ov, "f") == None
      && cut.errno == OK && View(cut.ov, "f") == None
      && made.errno == EEXIST && View(made.ov, "f") == Some(File([1]))
  {
    var lower: Layer := map["" := Dir, "f" := File([1, 2])];
    var ov := Overlay(map["" := Dir], lower, {});
    NothingWhited("f");
    var gone := Unlink(ov, "f");
    assert gone == Reply(Hide(ov, "f"), OK);
    assert ParentOf("f") == "";
    assert forall k :: !AtOrBelow("", k) || k == "";
    var cut := TruncateHidden(gone.ov, "f", 1);
    assert AboveSet(gone.ov, "") == {};
    assert TmpFsModel.Resized([1, 2], 1) == [1];
    assert cut.ov.upper == map["" := Dir, "f" := File([1])];
    assert AboveSet(cut.ov, "") == {};
    var made := Add(cut.ov, "f", File([]));
    assert made.ov.whites == {};
  }
}
