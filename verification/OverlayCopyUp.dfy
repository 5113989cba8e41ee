/**
 Why the recursive copy-up, one child after another, brings up exactly the unhidden
 lower entries above, at and below a path.
 */
module OverlayCopyUp {
  import opened RelPaths
  import opened OverlayModel
  import opened OverlaySteps
  import opened OverlayRefinement

  // Ancestors.

  lemma AboveUpperIsEmpty(ov: Overlay, dir: string)
    requires Inv(ov) && dir in ov.upper
    ensures AboveSet(ov, dir) == {} && EnsureDirs(ov, dir) == ov
  {
    forall k | IsBelow(dir, k) ensures k in ov.upper {
      BelowNeedsDir(ov.upper, dir, k);
    }
    assert AboveSet(ov, dir) == {};
    assert ov.upper + map[] == ov.upper;
  }

  lemma AboveGrows(ov: Overlay, rel: string)
    requires Inv(ov) && LowerOnly(ov, rel)
    ensures AboveSet(ov, rel) == AboveSet(ov, ParentOf(rel)) + {rel}
    ensures EnsureDirs(ov, rel).upper == EnsureDirs(ov, ParentOf(rel)).upper[rel := ov.lower[rel]]
  {
    var p := ParentOf(rel);
    forall k ensures k in AboveSet(ov, rel) <==> k in AboveSet(ov, p) + {rel} {
      BelowParent(rel, k);
    }
    assert AboveSet(ov, rel) == AboveSet(ov, p) + {rel};
  }

  // Children.

  function Children(lower: Layer, rel: string): set<string> {
    set k | k in lower && k != "" && ParentOf(k) == rel
  }

  function Under(lower: Layer, rel: string): set<string> {
    set k | k in lower && AtOrBelow(k, rel)
  }

  lemma ChildIsBelow(lower: Layer, rel: string, c: string)
    requires rel != "" && c in Children(lower, rel)
    ensures IsBelow(c, rel)
  {
    BelowParent(c, rel);
  }

  /** A child has less below it. */
  lemma UnderShrinks(lower: Layer, rel: string, c: string)
    requires rel != "" && rel in lower && c in Children(lower, rel)
    ensures Under(lower, c) < Under(lower, rel)
  {
    ChildIsBelow(lower, rel, c);
    forall k | k in Under(lower, c) ensures k in Under(lower, rel) {
      BelowTransitive(k, c, rel);
    }
    assert rel !in Under(lower, c);
  }

  /** Whatever is below a directory is at or below one of its children. */
  lemma {:induction false} ChildToward(lower: Layer, rel: string, k: string) returns (c: string)
    requires Tree(lower) && rel != "" && k in lower && IsBelow(k, rel)
    ensures c in Children(lower, rel) && AtOrBelow(k, c)
    decreases |k|
  {
    BelowParent(k, rel);
    assert HasParent(lower, k);
    if ParentOf(k) == rel {
      c := k;
    } else {
      c := ChildToward(lower, rel, ParentOf(k));
      BelowParent(k, c);
    }
  }

  lemma SiblingsAreApart(lower: Layer, rel: string, c: string, d: string, k: string)
    requires rel != "" && c in Children(lower, rel) && d in Children(lower, rel) && c != d && AtOrBelow(k, c)
    ensures !AtOrBelow(k, d)
  {
    if AtOrBelow(k, d) {
      if |c| <= |d| {
        BelowBoth(k, c, d);
        BelowParent(d, c);
      } else {
        BelowBoth(k, d, c);
        BelowParent(c, d);
      }
    }
  }

  // The loop over the children.

  /** What has been copied up with the children `todo` still to come. */
  function Part(ov: Overlay, rel: string, todo: set<string>): set<string> {
    set k | k in CopySet(ov, rel) && forall c :: c in todo ==> !AtOrBelow(k, c)
  }

  lemma PartIsPullable(ov: Overlay, rel: string, todo: set<string>)
    requires Inv(ov) && rel != "" && todo <= Children(ov.lower, rel)
    ensures Pullable(ov, Part(ov, rel, todo))
  {
    CopyIsPullable(ov, rel);
    forall k | k in Part(ov, rel, todo)
      ensures ParentOf(k) in Part(ov, rel, todo) || ParentOf(k) in ov.upper
    {
      forall c | c in todo && AtOrBelow(ParentOf(k), c) ensures AtOrBelow(k, c) {
        BelowParent(k, c);
      }
    }
  }

  lemma PartBegins(ov: Overlay, rel: string)
    requires Inv(ov) && rel != "" && LowerOnly(ov, rel)
    ensures Part(ov, rel, Children(ov.lower, rel)) == AboveSet(ov, rel)
  {
    var children := Children(ov.lower, rel);
    forall k | k in AboveSet(ov, rel) ensures k in Part(ov, rel, children) {
      forall c | c in children ensures !AtOrBelow(k, c) {
        ChildIsBelow(ov.lower, rel, c);
      }
    }
    forall k | k in Part(ov, rel, children) ensures k in AboveSet(ov, rel) {
      if IsBelow(k, rel) {
        var c := ChildToward(ov.lower, rel, k);
      }
    }
  }

  lemma PartEnds(ov: Overlay, rel: string)
    ensures Part(ov, rel, {}) == CopySet(ov, rel)
  {
  }

  /** A hidden child is passed over. */
  lemma PartSkips(ov: Overlay, rel: string, todo: set<string>, c: string)
    requires c in todo && IsWhited(ov.whites, c)
    ensures Part(ov, rel, todo) == Part(ov, rel, todo - {c})
  {
    forall k | k in Part(ov, rel, todo - {c}) ensures k in Part(ov, rel, todo) {
      if AtOrBelow(k, c) { WhitedBelow(ov.whites, k, c); }
    }
  }

  ghost predicate InLoop(ov: Overlay, rel: string, todo: set<string>, c: string) {
    Inv(ov) && rel != "" && LowerOnly(ov, rel) && todo <= Children(ov.lower, rel) && c in todo
  }

  lemma PartWith(ov: Overlay, rel: string, todo: set<string>, c: string, k: string)
    requires InLoop(ov, rel, todo, c) && LowerOnly(ov, k)
    ensures k in Part(ov, rel, todo - {c}) <==> k in Part(ov, rel, todo) || AtOrBelow(k, c)
  {
    if AtOrBelow(k, c) {
      ChildIsBelow(ov.lower, rel, c);
      BelowTransitive(k, c, rel);
      forall d | d in todo - {c} ensures !AtOrBelow(k, d) {
        SiblingsAreApart(ov.lower, rel, c, d, k);
      }
    }
  }

  /** Seen from the half-copied state, copying the child brings up what is at or below it. */
  lemma ChildBrings(ov: Overlay, rel: string, todo: set<string>, c: string, k: string)
    requires InLoop(ov, rel, todo, c)
    ensures var mid := Pull(ov, Part(ov, rel, todo));
      k in CopySet(mid, c) <==> LowerOnly(ov, k) && k !in Part(ov, rel, todo) && AtOrBelow(k, c)
  {
    if LowerOnly(ov, k) && IsBelow(c, k) {
      BelowParent(c, k);
      forall d | d in todo ensures !AtOrBelow(k, d) {
        ChildIsBelow(ov.lower, rel, d);
      }
    }
  }

  lemma ChildIsMissing(ov: Overlay, rel: string, todo: set<string>, c: string)
    requires InLoop(ov, rel, todo, c)
    ensures c !in Pull(ov, Part(ov, rel, todo)).upper
  {
    assert c in ov.upper ==> HasParent(ov.upper, c);
  }

  lemma PartStep(ov: Overlay, rel: string, todo: set<string>, c: string)
    requires InLoop(ov, rel, todo, c)
    ensures CopyUp(Pull(ov, Part(ov, rel, todo)), c) == Pull(ov, Part(ov, rel, todo - {c}))
  {
    var mid := Pull(ov, Part(ov, rel, todo));
    ChildIsMissing(ov, rel, todo, c);
    forall k ensures k in Part(ov, rel, todo) + CopySet(mid, c) <==> k in Part(ov, rel, todo - {c}) {
      ChildBrings(ov, rel, todo, c, k);
      if LowerOnly(ov, k) { PartWith(ov, rel, todo, c, k); }
    }
    assert Part(ov, rel, todo) + CopySet(mid, c) == Part(ov, rel, todo - {c});
    PullTwice(ov, Part(ov, rel, todo), CopySet(mid, c));
  }

  lemma PullTwice(ov: Overlay, a: set<string>, b: set<string>)
    requires a <= ov.lower.Keys && b <= ov.lower.Keys
    ensures Pull(Pull(ov, a), b) == Pull(ov, a + b)
  {
    assert Pull(Pull(ov, a), b).upper == Pull(ov, a + b).upper;
  }

  /** A file or symlink has nothing below it to bring. */
  lemma LeafCopies(ov: Overlay, rel: string)
    requires Inv(ov) && LowerOnly(ov, rel) && !ov.lower[rel].Dir?
    ensures CopyUp(ov, rel) == EnsureDirs(ov, rel)
  {
    forall k | k in CopySet(ov, rel) ensures AtOrBelow(rel, k) {
      if IsBelow(k, rel) { BelowNeedsDir(ov.lower, k, rel); }
    }
    assert CopySet(ov, rel) == AboveSet(ov, rel);
  }

  // Taking the target of a rename out of the upper layer first makes no difference.

  function Without(ov: Overlay, to: string): Overlay {
    ov.(upper := ov.upper - {to})
  }

  lemma WithoutKeeps(ov: Overlay, to: string)
    requires Inv(ov) && to != "" && !VisibleDir(ov, to)
    ensures Inv(Without(ov, to))
    ensures forall k :: k != to ==> View(Without(ov, to), k) == View(ov, k)
  {
    var after := Without(ov, to);
    forall k | k in after.upper && k != "" ensures HasParent(after.upper, k) {
      assert HasParent(ov.upper, k);
    }
    forall k | Covered(after, k) ensures Emptied(after, k) {
      assert Covered(ov, k) && Emptied(ov, k);
    }
  }

  lemma CopyUpWithout(ov: Overlay, from: string, to: string)
    requires Inv(ov) && Visible(ov, from) && !VisibleDir(ov, from) && from != to && to != ""
    requires !VisibleDir(ov, to)
    ensures CopyUp(Without(ov, to), from) == Without(CopyUp(ov, from), to)
  {
    if from !in ov.upper {
      assert !IsBelow(from, to) by {
        NoChildrenUnlessDir(ov, to);
        if IsBelow(from, to) { NothingBelow(ov, to, from); }
      }
      if to in ov.upper {
        NoChildrenUnlessDir(ov, from);
        assert !IsBelow(to, from) by {
          if IsBelow(to, from) { NothingBelow(ov, from, to); }
        }
        SameCopies(ov, from, to);
      } else {
        ToIsNotCopied(ov, from, to);
        assert ov.upper - {to} == ov.upper;
        assert CopyUp(ov, from).upper - {to} == CopyUp(ov, from).upper;
      }
    }
  }

  lemma SameCopies(ov: Overlay, from: string, to: string)
    requires from !in ov.upper && from != to && to in ov.upper && !IsBelow(from, to) && !IsBelow(to, from)
    ensures Pull(Without(ov, to), CopySet(Without(ov, to), from)) == Without(Pull(ov, CopySet(ov, from)), to)
  {
    var after := Without(ov, to);
    assert CopySet(after, from) == CopySet(ov, from);
    assert Pull(after, CopySet(ov, from)).upper == Pull(ov, CopySet(ov, from)).upper - {to};
  }

  lemma ToIsNotCopied(ov: Overlay, from: string, to: string)
    requires Inv(ov) && Visible(ov, from) && !VisibleDir(ov, from) && from != to && !IsBelow(from, to)
    ensures to !in CopySet(ov, from)
  {
    NoChildrenUnlessDir(ov, from);
    if IsBelow(to, from) { NothingBelow(ov, from, to); }
  }

  lemma EnsureDirsWithout(ov: Overlay, to: string)
    requires to != ""
    ensures EnsureDirs(Without(ov, to), ParentOf(to)) == Without(EnsureDirs(ov, ParentOf(to)), to)
  {
    var p, after := ParentOf(to), Without(ov, to);
    assert AboveSet(after, p) == AboveSet(ov, p);
    assert Pull(after, AboveSet(ov, p)).upper == Pull(ov, AboveSet(ov, p)).upper - {to};
  }
}
