/**
 The copy-on-write overlay (`src/fs/overlay.rs`) as a value: a writable upper layer, an
 immutable lower tree and a set of whiteouts, with the merged view they present.
 */
module OverlayModel {
  import opened Options
  import opened RelPaths

  datatype Item = Dir | File(data: seq<nat>) | Link(target: string)

  type Layer = map<string, Item>

  datatype Overlay = Overlay(upper: Layer, lower: Layer, whites: set<string>)

  /** A whiteout at `rel` or at an ancestor hides it. */
  predicate IsWhited(whites: set<string>, rel: string)
    decreases |rel|
  {
    rel in whites || ('/' in rel && IsWhited(whites, ParentOf(rel)))
  }

  /** What `stat`, `read_at` and `readlink` see. */
  function View(ov: Overlay, rel: string): Option<Item> {
    if IsWhited(ov.whites, rel) then None
    else if rel in ov.upper then Some(ov.upper[rel])
    else if rel in ov.lower then Some(ov.lower[rel])
    else None
  }

  predicate Visible(ov: Overlay, rel: string) {
    View(ov, rel).Some?
  }

  predicate VisibleDir(ov: Overlay, rel: string) {
    View(ov, rel) == Some(Dir)
  }

  // The invariant.

  predicate HasParent(layer: Layer, k: string) {
    ParentOf(k) in layer && layer[ParentOf(k)].Dir?
  }

  ghost predicate Tree(layer: Layer) {
    && "" in layer && layer[""].Dir?
    && forall k {:trigger HasParent(layer, k)} :: k in layer && k != "" ==> HasParent(layer, k)
  }

  /** Each lower child of `dir` has its own whiteout. */
  ghost predicate Emptied(ov: Overlay, dir: string) {
    forall k :: k in ov.lower && k != "" && ParentOf(k) == dir ==> k in ov.whites
  }

  /** Where the lower directory `k` does not show as one: behind a whiteout or a non-directory. */
  predicate Covered(ov: Overlay, k: string) {
    k in ov.lower && ov.lower[k].Dir? && (k in ov.whites || (k in ov.upper && !ov.upper[k].Dir?))
  }

  ghost predicate Inv(ov: Overlay) {
    && Tree(ov.upper) && Tree(ov.lower) && "" !in ov.whites
    && (forall k :: k in ov.upper ==> !IsWhited(ov.whites, k))
    && (forall k {:trigger Emptied(ov, k)} :: Covered(ov, k) ==> Emptied(ov, k))
  }

  // The three ways a state changes.

  /** Copies of lower entries placed in the upper layer. */
  function Pull(ov: Overlay, keys: set<string>): Overlay
    requires keys <= ov.lower.Keys
  {
    ov.(upper := ov.upper + map k | k in keys :: ov.lower[k])
  }

  /** `item` in the upper layer, in sight. */
  function Put(ov: Overlay, rel: string, item: Item): Overlay {
    ov.(upper := ov.upper[rel := item], whites := ov.whites - {rel})
  }

  /** Gone from the upper layer, and hidden below it. */
  function Hide(ov: Overlay, rel: string): Overlay {
    ov.(upper := ov.upper - {rel}, whites := ov.whites + {rel})
  }

  // Whiteouts along a path.

  lemma {:induction false} WhitedBelow(whites: set<string>, rel: string, dir: string)
    requires AtOrBelow(rel, dir) && IsWhited(whites, dir)
    ensures IsWhited(whites, rel)
    decreases |rel|
  {
    if rel != dir {
      BelowParent(rel, dir);
      WhitedBelow(whites, ParentOf(rel), dir);
    }
  }

  /** A whiteout taken away or added matters only at its path and below. */
  lemma {:induction false} WhitedElsewhere(a: set<string>, b: set<string>, rel: string, k: string)
    requires !AtOrBelow(k, rel) && a - {rel} == b - {rel}
    ensures IsWhited(a, k) <==> IsWhited(b, k)
    decreases |k|
  {
    assert k in a - {rel} <==> k in b - {rel};
    if '/' in k {
      BelowParent(k, rel);
      WhitedElsewhere(a, b, rel, ParentOf(k));
    }
  }

  /** Below a path whose lower children all have their own whiteout, no lower entry shows. */
  lemma {:induction false} EmptiedIsHidden(ov: Overlay, whites: set<string>, dir: string, k: string)
    requires Tree(ov.lower) && Emptied(ov, dir) && ov.whites - {dir} <= whites
    requires k in ov.lower && IsBelow(k, dir)
    ensures IsWhited(whites, k)
    decreases |k|
  {
    BelowParent(k, dir);
    assert HasParent(ov.lower, k);
    if ParentOf(k) != dir {
      EmptiedIsHidden(ov, whites, dir, ParentOf(k));
    }
  }

  lemma {:induction false} BelowNeedsDir(layer: Layer, k: string, dir: string)
    requires Tree(layer) && k in layer && IsBelow(k, dir)
    ensures dir in layer && layer[dir].Dir?
    decreases |k|
  {
    BelowParent(k, dir);
    assert HasParent(layer, k);
    if ParentOf(k) != dir {
      BelowNeedsDir(layer, ParentOf(k), dir);
    }
  }

  /** Every visible entry but the root is in a visible directory. */
  lemma ViewIsTree(ov: Overlay, k: string)
    requires Inv(ov) && Visible(ov, k) && k != ""
    ensures VisibleDir(ov, ParentOf(k))
  {
    var p := ParentOf(k);
    if '/' !in k { assert p == ""; }
    assert p != "" ==> '/' in k;
    assert !IsWhited(ov.whites, p);
    if k in ov.upper {
      assert HasParent(ov.upper, k);
    } else {
      assert HasParent(ov.lower, k);
      assert Covered(ov, p) ==> Emptied(ov, p);
    }
  }
}
