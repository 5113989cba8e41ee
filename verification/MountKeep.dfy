/**
 Taking the mounts of one filesystem out of a list again, place by place.
 */
module MountKeep {
  import opened Options
  import opened Paths
  import opened Mounts
  import opened MountPropagation
  import opened MountOutcomes

  // Taking mounts of one filesystem out of a list.

  /** What is left when each place in `gone` has lost that many mounts, the last ones first. */
  function Left(ms: seq<Mount>, gone: multiset<Path>): seq<Mount>
    decreases |ms|
  {
    if ms == [] then []
    else
      var rest, x := ms[..|ms| - 1], ms[|ms| - 1];
      if x.point in gone then Left(rest, gone - multiset{x.point}) else Left(rest, gone) + [x]
  }

  /** The places mounts are at. */
  function Points(ms: seq<Mount>): multiset<Path> {
    if ms == [] then multiset{} else Points(ms[..|ms| - 1]) + multiset{ms[|ms| - 1].point}
  }

  lemma LeftSnoc(ms: seq<Mount>, x: Mount, gone: multiset<Path>)
    ensures Left(ms + [x], gone) == if x.point in gone then Left(ms, gone - multiset{x.point}) else Left(ms, gone) + [x]
    ensures Points(ms + [x]) == Points(ms) + multiset{x.point}
  {
    assert (ms + [x])[..|ms|] == ms;
  }

  lemma {:induction false} PointsSize(ms: seq<Mount>)
    ensures |Points(ms)| == |ms|
    decreases |ms|
  {
    if ms != [] { PointsSize(ms[..|ms| - 1]); }
  }

  lemma {:induction false} LeftPoints(ms: seq<Mount>, gone: multiset<Path>)
    ensures Points(Left(ms, gone)) == Points(ms) - gone
    decreases |ms|
  {
    if ms != [] {
      var rest, x := ms[..|ms| - 1], ms[|ms| - 1];
      if x.point in gone {
        LeftPoints(rest, gone - multiset{x.point});
        assert Points(rest) - (gone - multiset{x.point}) == (Points(rest) + multiset{x.point}) - gone;
      } else {
        LeftPoints(rest, gone);
        LeftSnoc(Left(rest, gone), x, gone);
        assert (Points(rest) - gone) + multiset{x.point} == (Points(rest) + multiset{x.point}) - gone;
      }
    }
  }

  /** Nothing is left, exactly if each place lost as many as were there. */
  lemma LeftNothing(ms: seq<Mount>, gone: multiset<Path>)
    ensures Left(ms, gone) == [] <==> forall p :: Points(ms)[p] <= gone[p]
  {
    LeftPoints(ms, gone);
    PointsSize(Left(ms, gone));
    if forall p :: Points(ms)[p] <= gone[p] {
      assert Points(ms) - gone == multiset{};
    }
    if Left(ms, gone) == [] {
      assert forall p :: (Points(ms) - gone)[p] == 0;
    }
  }

  lemma MinusOneMore(gone: multiset<Path>, q: multiset<Path>, x: Path)
    ensures x in gone ==> gone - multiset{x} - q == gone - (q + multiset{x})
    ensures x !in gone ==> gone - q == gone - (q + multiset{x})
  {
  }

  lemma {:induction false} LeftConcat(a: seq<Mount>, b: seq<Mount>, gone: multiset<Path>)
    ensures Left(a + b, gone) == Left(a, gone - Points(b)) + Left(b, gone)
    decreases |b|
  {
    if b == [] {
      assert a + b == a && gone - multiset{} == gone;
    } else {
      var rest, x := b[..|b| - 1], b[|b| - 1];
      assert a + b == (a + rest) + [x];
      LeftSnoc(a + rest, x, gone);
      MinusOneMore(gone, Points(rest), x.point);
      LeftConcat(a, rest, if x.point in gone then gone - multiset{x.point} else gone);
    }
  }

  lemma {:induction false} PointsAt(ms: seq<Mount>, p: Path)
    ensures p in Points(ms) <==> exists m :: m in ms && m.point == p
    decreases |ms|
  {
    if ms != [] {
      var rest, x := ms[..|ms| - 1], ms[|ms| - 1];
      PointsAt(rest, p);
      assert x in ms && forall m :: m in ms <==> m in rest || m == x;
    }
  }

  ghost predicate Without(ms: seq<Mount>, fs: nat) {
    forall m :: m in ms ==> m.fs != fs
  }

  ghost predicate AllOf(ms: seq<Mount>, fs: nat) {
    forall m :: m in ms ==> m.fs == fs
  }

  predicate Busy(ms: seq<Mount>, p: Path) {
    exists m :: m in ms && p < m.point
  }

  function TakeOut(ms: seq<Mount>, k: Option<nat>): seq<Mount>
    requires k.Some? ==> k.value < |ms|
  {
    if k.None? then ms else ms[..k.value] + ms[k.value + 1..]
  }

  lemma {:induction false} LastOfNone(ms: seq<Mount>, p: Path, fs: nat)
    requires Without(ms, fs)
    ensures LastOf(ms, p, fs).None?
    decreases |ms|
  {
    if ms != [] {
      assert ms[|ms| - 1] in ms;
      LastOfNone(ms[..|ms| - 1], p, fs);
    }
  }

  lemma LastOfSnoc(ms: seq<Mount>, x: Mount, p: Path, fs: nat)
    ensures LastOf(ms + [x], p, fs) == if x.point == p && x.fs == fs then Some(|ms|) else LastOf(ms, p, fs)
  {
    assert (ms + [x])[..|ms|] == ms;
  }

  lemma TakeOutLast(ms: seq<Mount>, more: seq<Mount>, x: Mount, p: Path, fs: nat)
    requires x.point == p && x.fs == fs
    ensures var all := ms + (more + [x]); TakeOut(all, LastOf(all, p, fs)) == ms + more
  {
    assert ms + (more + [x]) == (ms + more) + [x];
    LastOfSnoc(ms + more, x, p, fs);
  }

  lemma TakeOutBefore(ms: seq<Mount>, more: seq<Mount>, x: Mount, p: Path, fs: nat, left: seq<Mount>)
    requires x.point != p && TakeOut(ms + more, LastOf(ms + more, p, fs)) == ms + left
    ensures var all := ms + (more + [x]); TakeOut(all, LastOf(all, p, fs)) == ms + (left + [x])
  {
    assert ms + (more + [x]) == (ms + more) + [x] && ms + (left + [x]) == (ms + left) + [x];
    LastOfSnoc(ms + more, x, p, fs);
    TakeOutSnoc(ms + more, x, LastOf(ms + more, p, fs));
  }

  lemma TakeOutSnoc(ms: seq<Mount>, x: Mount, k: Option<nat>)
    requires k.Some? ==> k.value < |ms|
    ensures TakeOut(ms + [x], k) == TakeOut(ms, k) + [x]
  {
  }

  /** Taking out the last mount at `p` is one more for that place. */
  lemma {:induction false} TakeOutLeaves(base: seq<Mount>, added: seq<Mount>, gone: multiset<Path>, p: Path, fs: nat)
    requires Without(base, fs) && AllOf(added, fs)
    ensures var ms := base + Left(added, gone);
            TakeOut(ms, LastOf(ms, p, fs)) == base + Left(added, gone + multiset{p})
    decreases |added|
  {
    if added == [] {
      assert base + [] == base;
      LastOfNone(base, p, fs);
    } else {
      var rest, x := added[..|added| - 1], added[|added| - 1];
      assert added == rest + [x] && x in added;
      var more := gone + multiset{p};
      LeftSnoc(rest, x, gone);
      LeftSnoc(rest, x, more);
      if x.point in gone {
        TakeOutLeaves(base, rest, gone - multiset{x.point}, p, fs);
        assert gone - multiset{x.point} + multiset{p} == more - multiset{x.point};
      } else if x.point == p {
        TakeOutLast(base, Left(rest, gone), x, p, fs);
        assert more - multiset{p} == gone;
      } else {
        TakeOutLeaves(base, rest, gone, p, fs);
        TakeOutBefore(base, Left(rest, gone), x, p, fs, Left(rest, more));
      }
    }
  }

  lemma {:induction false} LeftFrom(ms: seq<Mount>, gone: multiset<Path>, m: Mount)
    requires m in Left(ms, gone)
    ensures m in ms
    decreases |ms|
  {
    var rest, x := ms[..|ms| - 1], ms[|ms| - 1];
    if x.point in gone {
      LeftFrom(rest, gone - multiset{x.point}, m);
    } else if m in Left(rest, gone) {
      LeftFrom(rest, gone, m);
    }
  }

  /** One place of `propagate_unmount`. */
  lemma PruneLeaves(base: seq<Mount>, added: seq<Mount>, gone: multiset<Path>, p: Path, fs: nat)
    requires Without(base, fs) && AllOf(added, fs) && !Busy(added, p)
    ensures PruneOne(base + Left(added, gone), p, fs)
            == base + Left(added, if Busy(base, p) then gone else gone + multiset{p})
  {
    var ms := base + Left(added, gone);
    TakeOutLeaves(base, added, gone, p, fs);
    if Busy(base, p) {
      var m :| m in base && p < m.point;
      assert m in ms;
    } else {
      forall m | m in ms ensures !(p < m.point) {
        if m in Left(added, gone) { LeftFrom(added, gone, m); }
      }
    }
  }

  // All of them.

  /** A receiver that `propagate_unmount` looks at in namespace `ns`, and the place it looks at. */
  predicate Looks(c: Source, at: Path, ns: nat, s: Seat) {
    s.ns == ns && !IsSource(c, s) && s.mount.fs == c.fs && s.mount.subdir <= at
  }

  function PlaceOf(at: Path, s: Seat): Path
    requires s.mount.subdir <= at
  {
    s.mount.point + at[|s.mount.subdir|..]
  }

  /** The place a receiver empties, in a namespace whose list was `base`. */
  function EmptiedBy(base: seq<Mount>, ns: nat, c: Source, at: Path, s: Seat): multiset<Path> {
    if Looks(c, at, ns, s) && !Busy(base, PlaceOf(at, s)) then multiset{PlaceOf(at, s)} else multiset{}
  }

  function Emptied(base: seq<Mount>, ns: nat, c: Source, at: Path, targets: seq<Seat>): multiset<Path> {
    if targets == [] then multiset{}
    else Emptied(base, ns, c, at, targets[..|targets| - 1]) + EmptiedBy(base, ns, c, at, targets[|targets| - 1])
  }

  lemma EmptiedSnoc(base: seq<Mount>, ns: nat, c: Source, at: Path, rest: seq<Seat>, s: Seat)
    ensures Emptied(base, ns, c, at, rest + [s]) == Emptied(base, ns, c, at, rest) + EmptiedBy(base, ns, c, at, s)
  {
    assert (rest + [s])[..|rest|] == rest;
  }

  lemma {:induction false} EmptiedConcat(base: seq<Mount>, ns: nat, c: Source, at: Path, a: seq<Seat>, b: seq<Seat>)
    ensures Emptied(base, ns, c, at, a + b) == Emptied(base, ns, c, at, a) + Emptied(base, ns, c, at, b)
    decreases |b|
  {
    if b == [] {
      assert a + b == a;
    } else {
      var rest, s := b[..|b| - 1], b[|b| - 1];
      assert a + b == (a + rest) + [s];
      EmptiedSnoc(base, ns, c, at, a + rest, s);
      EmptiedConcat(base, ns, c, at, a, rest);
    }
  }

  lemma EmptiedTaken(base: seq<Mount>, ns: nat, c: Source, at: Path, front: seq<Seat>, s: Seat, back: seq<Seat>)
    ensures Emptied(base, ns, c, at, (front + [s]) + back)
            == Emptied(base, ns, c, at, front + back) + EmptiedBy(base, ns, c, at, s)
  {
    EmptiedConcat(base, ns, c, at, front, back);
    EmptiedConcat(base, ns, c, at, front + [s], back);
    EmptiedSnoc(base, ns, c, at, front, s);
  }

  lemma OneOut(rest: seq<Seat>, front: seq<Seat>, s: Seat, back: seq<Seat>)
    requires multiset(rest + [s]) == multiset((front + [s]) + back)
    ensures multiset(rest) == multiset(front + back)
  {
    assert multiset(rest + [s]) == multiset(rest) + multiset{s};
    assert multiset((front + [s]) + back) == multiset(front + back) + multiset{s};
    assert multiset(rest) == multiset(rest) + multiset{s} - multiset{s};
    assert multiset(front + back) == multiset(front + back) + multiset{s} - multiset{s};
  }

  /** The order of the receivers does not matter. */
  lemma {:induction false} EmptiedInAnyOrder(
    base: seq<Mount>, ns: nat, c: Source, at: Path, a: seq<Seat>, b: seq<Seat>)
    requires multiset(a) == multiset(b)
    ensures Emptied(base, ns, c, at, a) == Emptied(base, ns, c, at, b)
    decreases |a|
  {
    if a == [] {
      assert |multiset(b)| == 0;
    } else {
      var rest, s := a[..|a| - 1], a[|a| - 1];
      assert a == rest + [s] && s in multiset(b);
      var k :| 0 <= k < |b| && b[k] == s;
      var front, back := b[..k], b[k + 1..];
      assert b == (front + [s]) + back;
      OneOut(rest, front, s, back);
      EmptiedInAnyOrder(base, ns, c, at, rest, front + back);
      EmptiedTaken(base, ns, c, at, front, s, back);
    }
  }

  /** Nothing was added below a place that is looked at. */
  ghost predicate Spread(added: seq<Mount>, ns: nat, c: Source, at: Path, targets: seq<Seat>) {
    forall s :: s in targets && Looks(c, at, ns, s) ==> !Busy(added, PlaceOf(at, s))
  }

  lemma {:induction false} PruneEmpties(
    base: seq<Mount>, added: seq<Mount>, ns: nat, c: Source, at: Path, fs: nat, targets: seq<Seat>)
    requires Without(base, fs) && AllOf(added, fs) && Spread(added, ns, c, at, targets)
    ensures Prune(base + added, ns, c, at, fs, targets) == base + Left(added, Emptied(base, ns, c, at, targets))
    decreases |targets|
  {
    if targets == [] {
      LeftAll(added);
    } else {
      var rest, s := targets[..|targets| - 1], targets[|targets| - 1];
      assert targets == rest + [s];
      PruneEmpties(base, added, ns, c, at, fs, rest);
      var gone := Emptied(base, ns, c, at, rest);
      if Looks(c, at, ns, s) { PruneLeaves(base, added, gone, PlaceOf(at, s), fs); }
      assert gone + multiset{} == gone;
    }
  }

  lemma {:induction false} LeftAll(ms: seq<Mount>)
    ensures Left(ms, multiset{}) == ms
    decreases |ms|
  {
    if ms != [] { LeftAll(ms[..|ms| - 1]); }
  }
}
