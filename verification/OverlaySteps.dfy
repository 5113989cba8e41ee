/**
 Copying up leaves the merged view alone; putting an entry and hiding one change it at
 exactly one path. All three keep the invariant.
 */
module OverlaySteps {
  import opened Options
  import opened RelPaths
  import opened OverlayModel

  /** `keys` can be copied up: in sight in the lower layer only, each with its parent. */
  ghost predicate Pullable(ov: Overlay, keys: set<string>) {
    && keys <= ov.lower.Keys
    && forall k :: k in keys ==>
         k !in ov.upper && !IsWhited(ov.whites, k) && (ParentOf(k) in keys || ParentOf(k) in ov.upper)
  }

  lemma PullKeepsTree(ov: Overlay, keys: set<string>)
    requires Inv(ov) && Pullable(ov, keys)
    ensures Tree(Pull(ov, keys).upper)
  {
    var upper := Pull(ov, keys).upper;
    assert "" in ov.upper && "" !in keys;
    forall k | k in upper && k != "" ensures HasParent(upper, k) {
      if k in keys {
        assert HasParent(ov.lower, k);
        ViewIsTree(ov, k);
      } else {
        assert HasParent(ov.upper, k);
        assert ParentOf(k) !in keys;
      }
    }
  }

  /** Copy-up alone never changes the view. */
  lemma PullKeeps(ov: Overlay, keys: set<string>)
    requires Inv(ov) && Pullable(ov, keys)
    ensures Inv(Pull(ov, keys))
    ensures forall k :: View(Pull(ov, keys), k) == View(ov, k)
  {
    PullKeepsTree(ov, keys);
    var after := Pull(ov, keys);
    forall k | Covered(after, k) ensures Emptied(after, k) {
      assert Covered(ov, k) && Emptied(ov, k);
    }
  }

  /** No entry right below `dir` is in sight. */
  ghost predicate NoChildren(ov: Overlay, dir: string) {
    forall k :: k != "" && ParentOf(k) == dir ==> !Visible(ov, k)
  }

  lemma NoChildrenUnlessDir(ov: Overlay, dir: string)
    requires Inv(ov) && !VisibleDir(ov, dir)
    ensures NoChildren(ov, dir)
  {
    forall k | k != "" && ParentOf(k) == dir ensures !Visible(ov, k) {
      if Visible(ov, k) { ViewIsTree(ov, k); }
    }
  }

  lemma {:induction false} NothingBelow(ov: Overlay, dir: string, k: string)
    requires Inv(ov) && NoChildren(ov, dir) && IsBelow(k, dir)
    ensures !Visible(ov, k)
    decreases |k|
  {
    BelowParent(k, dir);
    if ParentOf(k) != dir && Visible(ov, k) {
      NothingBelow(ov, dir, ParentOf(k));
      ViewIsTree(ov, k);
    }
  }

  // Putting an entry.

  /** `item` may be put at `rel`: in a directory of the upper layer, over nothing or file over file. */
  ghost predicate Puttable(ov: Overlay, rel: string, item: Item) {
    && Inv(ov) && rel != "" && HasParent(ov.upper, rel)
    && !VisibleDir(ov, rel) && (Visible(ov, rel) ==> !item.Dir?)
  }

  /** A lower directory that does not show has children with whiteouts of their own. */
  lemma HiddenDirIsEmptied(ov: Overlay, rel: string)
    requires Inv(ov) && rel != "" && HasParent(ov.upper, rel) && !VisibleDir(ov, rel)
    requires rel in ov.lower && ov.lower[rel].Dir?
    ensures Emptied(ov, rel)
  {
    assert !IsWhited(ov.whites, ParentOf(rel));
    assert Covered(ov, rel);
  }

  lemma PutShows(ov: Overlay, rel: string, item: Item)
    requires Puttable(ov, rel, item)
    ensures !IsWhited(ov.whites - {rel}, rel)
  {
    var p := ParentOf(rel);
    if '/' in rel {
      WhitedElsewhere(ov.whites, ov.whites - {rel}, rel, p);
    }
  }

  lemma PutBelow(ov: Overlay, rel: string, item: Item, k: string)
    requires Puttable(ov, rel, item) && IsBelow(k, rel)
    ensures k !in ov.upper && !Visible(ov, k) && !Visible(Put(ov, rel, item), k)
  {
    NoChildrenUnlessDir(ov, rel);
    NothingBelow(ov, rel, k);
    if k in ov.lower {
      BelowNeedsDir(ov.lower, k, rel);
      HiddenDirIsEmptied(ov, rel);
      EmptiedIsHidden(ov, ov.whites - {rel}, rel, k);
    }
  }

  lemma PutView(ov: Overlay, rel: string, item: Item, k: string)
    requires Puttable(ov, rel, item)
    ensures View(Put(ov, rel, item), k) == if k == rel then Some(item) else View(ov, k)
    ensures k in Put(ov, rel, item).upper ==> !IsWhited(ov.whites - {rel}, k)
  {
    if k == rel {
      PutShows(ov, rel, item);
    } else if IsBelow(k, rel) {
      PutBelow(ov, rel, item, k);
    } else {
      WhitedElsewhere(ov.whites, ov.whites - {rel}, rel, k);
    }
  }

  lemma PutKeepsTree(ov: Overlay, rel: string, item: Item)
    requires Puttable(ov, rel, item)
    ensures Tree(ov.upper[rel := item])
  {
    var after := ov.upper[rel := item];
    assert rel in ov.upper ==> Visible(ov, rel);
    forall k | k in after && k != "" ensures HasParent(after, k) {
      assert HasParent(ov.upper, k);
    }
  }

  lemma PutKeepsCovered(ov: Overlay, rel: string, item: Item, k: string)
    requires Puttable(ov, rel, item) && Covered(Put(ov, rel, item), k)
    ensures Emptied(Put(ov, rel, item), k)
  {
    if k == rel {
      HiddenDirIsEmptied(ov, rel);
    } else {
      assert Covered(ov, k) && Emptied(ov, k);
      assert k != ParentOf(rel);
    }
  }

  /** Putting an entry changes the view there and nowhere else. */
  lemma PutKeeps(ov: Overlay, rel: string, item: Item)
    requires Puttable(ov, rel, item)
    ensures Inv(Put(ov, rel, item))
    ensures forall k :: View(Put(ov, rel, item), k) == if k == rel then Some(item) else View(ov, k)
  {
    PutKeepsTree(ov, rel, item);
    var after := Put(ov, rel, item);
    forall k ensures View(after, k) == if k == rel then Some(item) else View(ov, k) {
      PutView(ov, rel, item, k);
    }
    forall k | k in after.upper ensures !IsWhited(after.whites, k) {
      PutView(ov, rel, item, k);
    }
    forall k | Covered(after, k) ensures Emptied(after, k) {
      PutKeepsCovered(ov, rel, item, k);
    }
  }

  // Hiding an entry.

  ghost predicate Hideable(ov: Overlay, rel: string) {
    Inv(ov) && rel != "" && Visible(ov, rel) && NoChildren(ov, rel)
  }

  lemma HideView(ov: Overlay, rel: string, k: string)
    requires Hideable(ov, rel)
    ensures View(Hide(ov, rel), k) == if k == rel then None else View(ov, k)
    ensures k in Hide(ov, rel).upper ==> !IsWhited(ov.whites + {rel}, k)
  {
    if IsBelow(k, rel) {
      WhitedBelow(ov.whites + {rel}, k, rel);
      NothingBelow(ov, rel, k);
    } else if k != rel {
      WhitedElsewhere(ov.whites, ov.whites + {rel}, rel, k);
    }
  }

  lemma HideKeepsTree(ov: Overlay, rel: string)
    requires Hideable(ov, rel)
    ensures Tree(ov.upper - {rel})
  {
    var after := ov.upper - {rel};
    forall k | k in after && k != "" ensures HasParent(after, k) {
      assert HasParent(ov.upper, k);
      assert Visible(ov, k);
    }
  }

  lemma HideKeepsCovered(ov: Overlay, rel: string, k: string)
    requires Hideable(ov, rel) && Covered(Hide(ov, rel), k)
    ensures Emptied(Hide(ov, rel), k)
  {
    if k == rel {
      forall c | c in ov.lower && c != "" && ParentOf(c) == rel ensures c in ov.whites + {rel} {
        assert !Visible(ov, c);
      }
    } else {
      assert Covered(ov, k) && Emptied(ov, k);
    }
  }

  /** Hiding an entry with nothing below it takes exactly that entry out of the view. */
  lemma HideKeeps(ov: Overlay, rel: string)
    requires Hideable(ov, rel)
    ensures Inv(Hide(ov, rel))
    ensures forall k :: View(Hide(ov, rel), k) == if k == rel then None else View(ov, k)
  {
    HideKeepsTree(ov, rel);
    var after := Hide(ov, rel);
    forall k ensures View(after, k) == if k == rel then None else View(ov, k) {
      HideView(ov, rel, k);
    }
    forall k | k in after.upper ensures !IsWhited(after.whites, k) {
      HideView(ov, rel, k);
    }
    forall k | Covered(after, k) ensures Emptied(after, k) {
      HideKeepsCovered(ov, rel, k);
    }
  }
}
