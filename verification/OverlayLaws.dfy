/**
 What a caller sees of the overlay before and after each operation, at every path, with
 the numbers spelled out.
 */
module OverlayLaws {
  import opened Options
  import opened RelPaths
  import TmpFsModel
  import TmpFsLaws
  import TmpFsRuns
  import opened OverlayModel
  import opened OverlayRefinement

  /** What is in sight, as one map. */
  function Merged(ov: Overlay): Layer {
    map k | k in ov.upper.Keys + ov.lower.Keys && Visible(ov, k) :: View(ov, k).value
  }

  lemma MergedShows(ov: Overlay)
    ensures Shows(ov, Merged(ov))
  {
  }

  /** Nothing is seen to change but at `rel`. */
  ghost predicate SameElsewhere(was: Overlay, now: Overlay, rel: string) {
    forall k :: k != rel ==> View(now, k) == View(was, k)
  }

  lemma PlainShows(was: Overlay, now: Overlay, m: Layer, p: Layer)
    requires Shows(was, m) && Shows(now, p)
    ensures forall k :: (k in p <==> k in m) && (k in m ==> p[k] == m[k]) ==> View(now, k) == View(was, k)
  {
  }

  /** `create`, `mkdir` and `symlink`, in a directory in sight. */
  lemma AddShows(ov: Overlay, rel: string, item: Item)
    requires Inv(ov) && (Visible(ov, rel) || VisibleDir(ov, ParentOf(rel)))
    ensures var r := Add(ov, rel, item);
      && Inv(r.ov) && r.errno == (if Visible(ov, rel) then 17 else 0)
      && (r.errno == 0 ==> View(r.ov, rel) == Some(item) && SameElsewhere(ov, r.ov, rel))
      && (r.errno != 0 ==> forall k :: View(r.ov, k) == View(ov, k))
  {
    var m := Merged(ov);
    MergedShows(ov);
    AddAgrees(ov, m, rel, item);
    PlainShows(ov, Add(ov, rel, item).ov, m, Plain(m, OpAdd(rel, item)).m);
  }

  /** `unlink`. */
  lemma UnlinkShows(ov: Overlay, rel: string)
    requires Inv(ov)
    ensures var r := Unlink(ov, rel);
      && Inv(r.ov) && r.errno == (match View(ov, rel) case None => 2 case Some(Dir) => 21 case Some(_) => 0)
      && (r.errno == 0 ==> View(r.ov, rel) == None && SameElsewhere(ov, r.ov, rel))
      && (r.errno != 0 ==> r.ov == ov)
  {
    var m := Merged(ov);
    MergedShows(ov);
    UnlinkAgrees(ov, m, rel);
    PlainShows(ov, Unlink(ov, rel).ov, m, Plain(m, OpUnlink(rel)).m);
  }

  /** Something in sight is directly in `dir`. */
  ghost predicate Occupied(ov: Overlay, dir: string) {
    exists k :: k != "" && ParentOf(k) == dir && Visible(ov, k)
  }

  lemma OccupiedShows(ov: Overlay, m: Layer, dir: string)
    requires Shows(ov, m)
    ensures Occupied(ov, dir) <==> exists k :: k in m && k != "" && ParentOf(k) == dir
  {
    forall k ensures Visible(ov, k) <==> k in m {
      assert View(ov, k) == if k in m then Some(m[k]) else None;
    }
  }

  /** `rmdir`. */
  lemma RmdirShows(ov: Overlay, rel: string)
    requires Inv(ov) && rel != ""
    ensures var r := Rmdir(ov, rel);
      && Inv(r.ov)
      && r.errno == (match View(ov, rel)
                     case None => 2
                     case Some(Dir) => if Occupied(ov, rel) then 39 else 0
                     case Some(_) => 20)
      && (r.errno == 0 ==> View(r.ov, rel) == None && SameElsewhere(ov, r.ov, rel))
      && (r.errno != 0 ==> r.ov == ov)
  {
    var m := Merged(ov);
    MergedShows(ov);
    RmdirAgrees(ov, m, rel);
    OccupiedShows(ov, m, rel);
    PlainShows(ov, Rmdir(ov, rel).ov, m, Plain(m, OpRmdir(rel)).m);
  }

  /** A write to a name in sight: the bytes written, the old ones around them and zeros in a hole. */
  lemma WriteShows(ov: Overlay, rel: string, off: nat, buf: seq<nat>)
    requires Inv(ov) && Visible(ov, rel)
    ensures var r, was := Write(ov, rel, off, buf), View(ov, rel).value;
      && Inv(r.ov) && SameElsewhere(ov, r.ov, rel)
      && r.errno == (if !was.File? then 21 else if off + |buf| > 0x7FFF_FFFF_FFFF_FFFF then 27 else 0)
      && (r.errno != 0 ==> View(r.ov, rel) == View(ov, rel))
      && (r.errno == 0 ==>
            && View(r.ov, rel).Some? && View(r.ov, rel).value.File?
            && var d := View(r.ov, rel).value.data;
               && |d| == (if |was.data| < off + |buf| then off + |buf| else |was.data|)
               && forall i :: 0 <= i < |d| ==>
                    d[i] == if off <= i < off + |buf| then buf[i - off]
                            else if i < |was.data| then was.data[i] else 0)
  {
    var m := Merged(ov);
    MergedShows(ov);
    WriteAgrees(ov, m, rel, off, buf);
    PlainShows(ov, Write(ov, rel, off, buf).ov, m, Plain(m, OpWrite(rel, off, buf)).m);
    if m[rel].File? {
      var d := TmpFsModel.Overwritten(m[rel].data, off, buf);
      forall i | 0 <= i < |d|
        ensures d[i] == if off <= i < off + |buf| then buf[i - off] else if i < |m[rel].data| then m[rel].data[i] else 0
      {
        TmpFsRuns.OverwrittenAt(m[rel].data, off, buf, i);
      }
    }
  }

  /** A truncate of a name in sight: the old bytes up to `len`, and zeros after them. */
  lemma TruncateShows(ov: Overlay, rel: string, len: nat)
    requires Inv(ov) && Visible(ov, rel)
    ensures var r, was := Truncate(ov, rel, len), View(ov, rel).value;
      && Inv(r.ov) && SameElsewhere(ov, r.ov, rel)
      && r.errno == (match was
                     case Dir => 21
                     case Link(_) => 22
                     case File(_) => if len > 0x7FFF_FFFF_FFFF_FFFF then 27 else 0)
      && (r.errno != 0 ==> View(r.ov, rel) == View(ov, rel))
      && (r.errno == 0 ==>
            && View(r.ov, rel).Some? && View(r.ov, rel).value.File?
            && var d := View(r.ov, rel).value.data;
               |d| == len && forall i :: 0 <= i < len ==> d[i] == if i < |was.data| then was.data[i] else 0)
  {
    var m := Merged(ov);
    MergedShows(ov);
    TruncateAgrees(ov, m, rel, len);
    PlainShows(ov, Truncate(ov, rel, len).ov, m, Plain(m, OpTruncate(rel, len)).m);
    if m[rel].File? {
      forall i | 0 <= i < len
        ensures TmpFsModel.Resized(m[rel].data, len)[i] == if i < |m[rel].data| then m[rel].data[i] else 0
      {
        TmpFsLaws.ResizedAt(m[rel].data, len, i);
      }
    }
  }

  /** Renaming a file or symlink to a name in a directory in sight. */
  lemma RenameShows(ov: Overlay, from: string, to: string)
    requires Inv(ov) && !VisibleDir(ov, from) && (Visible(ov, to) || VisibleDir(ov, ParentOf(to)))
    ensures var r := Rename(ov, from, to);
      && Inv(r.ov)
      && r.errno == (if !Visible(ov, from) then 2 else if from != to && VisibleDir(ov, to) then 21 else 0)
      && forall k :: View(r.ov, k) ==
           if r.errno != 0 || from == to then View(ov, k)
           else if k == to then View(ov, from) else if k == from then None else View(ov, k)
  {
    var m := Merged(ov);
    MergedShows(ov);
    RenameAgrees(ov, m, from, to);
    PlainShows(ov, Rename(ov, from, to).ov, m, Plain(m, OpRename(from, to)).m);
  }
}
