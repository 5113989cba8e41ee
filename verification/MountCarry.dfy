/**
 Paths carried into another namespace under hidden names, and the collection of hidden
 mounts that no held path lies in.
 */
module MountCarry {
  import opened Options
  import opened Paths
  import opened Mounts
  import opened MountDetach

  // Carrying.

  /** Mounts added at the hidden places from `base` on, in order. */
  ghost predicate Numbered(added: seq<Mount>, base: nat) {
    forall j :: 0 <= j < |added| ==> added[j].point == Hidden(base + j)
  }

  /** Where only the `j`-th mount is above a path, it wins. */
  lemma {:induction false} OnlyOneWins(ms: seq<Mount>, j: nat, t: Path)
    requires forall k :: 0 <= k < |ms| && k != j ==> !(ms[k].point <= t)
    requires j < |ms| ==> ms[j].point <= t
    ensures Winner(ms, t) == if j < |ms| then Some(ms[j]) else None
    decreases |ms|
  {
    if ms != [] { OnlyOneWins(ms[..|ms| - 1], j, t); }
  }

  lemma OthersAreElsewhere(a: nat, b: nat, t: Path)
    requires a != b && Hidden(b) <= t
    ensures !(Hidden(a) <= t)
  {
    if Hidden(a) <= t {
      Nested(Hidden(a), Hidden(b), t);
      HiddenDiffer(a, b);
    }
  }

  lemma AddedWinner(added: seq<Mount>, base: nat, j: nat, t: Path)
    requires Numbered(added, base) && j < |added| && Hidden(base + j) <= t
    ensures Winner(added, t) == Some(added[j])
  {
    forall k | 0 <= k < |added| && k != j ensures !(added[k].point <= t) {
      OthersAreElsewhere(base + k, base + j, t);
    }
    OnlyOneWins(added, j, t);
  }

  lemma {:induction false} AddedElsewhere(added: seq<Mount>, base: nat, path: Path)
    requires Numbered(added, base) && forall n :: base <= n ==> !(Hidden(n) <= path)
    ensures Winner(added, path).None?
    decreases |added|
  {
    if added != [] {
      AddedElsewhere(added[..|added| - 1], base, path);
    }
  }

  lemma OnlyRootReaches(ms: seq<Mount>, n: nat, base: nat, t: Path)
    requires Fresh(ms, base) && base <= n && Hidden(n) <= t
    ensures Winner(ms, t).Some? ==> Winner(ms, t).value.point == []
  {
    var w := Winner(ms, t);
    if w.Some? {
      assert !(Hidden(n) <= w.value.point);
      NotHidden(w.value.point, n, t);
    }
  }

  lemma CarriedWinner(ms: seq<Mount>, added: seq<Mount>, base: nat, j: nat, t: Path)
    requires Fresh(ms, base) && Numbered(added, base) && j < |added| && Hidden(base + j) <= t
    ensures Winner(ms + added, t) == Some(added[j])
  {
    WinnerConcat(ms, added, t);
    AddedWinner(added, base, j, t);
    OnlyRootReaches(ms, base + j, base, t);
    RootLoses(Winner(ms, t), added[j]);
  }

  lemma RootLoses(w: Option<Mount>, m: Mount)
    requires w.Some? ==> w.value.point == []
    ensures Later(w, Some(m)) == Some(m)
  {
  }

  /** The carried name of a path finds in this namespace what the path finds in the other. */
  lemma CarriedFinds(ms: seq<Mount>, added: seq<Mount>, base: nat, j: nat, source: seq<Mount>, path: Path)
    requires Fresh(ms, base) && Numbered(added, base) && j < |added|
    requires var w := Winner(source, path); w.Some? && added[j] == w.value.(point := Hidden(base + j))
    ensures Resolve(ms + added, Hidden(base + j) + path[|Winner(source, path).value.point|..]) == Resolve(source, path)
  {
    var w, to := Winner(source, path).value, Hidden(base + j);
    var rest := path[|w.point|..];
    CarriedWinner(ms, added, base, j, to + rest);
    assert (to + rest)[|to|..] == rest;
  }

  /** Other paths resolve as they did. */
  lemma CarryLeavesOthers(ms: seq<Mount>, added: seq<Mount>, base: nat, path: Path)
    requires Numbered(added, base) && forall n :: base <= n ==> !(Hidden(n) <= path)
    ensures Winner(ms + added, path) == Winner(ms, path)
  {
    WinnerConcat(ms, added, path);
    AddedElsewhere(added, base, path);
  }

  /** The answer names the `j`-th hidden mount, a copy of the one that owns the path. */
  predicate PlacedAt(w: Mount, path: Path, added: seq<Mount>, base: nat, answer: Option<Path>, j: nat)
    requires w.point <= path
  {
    && j < |added| && added[j] == w.(point := Hidden(base + j))
    && answer == Some(Hidden(base + j) + path[|w.point|..])
  }

  ghost predicate Placed(source: seq<Mount>, path: Path, added: seq<Mount>, base: nat, answer: Option<Path>) {
    var w := Winner(source, path);
    if w.None? then answer.None? else exists j :: PlacedAt(w.value, path, added, base, answer, j)
  }

  /** Which of the added mounts stands for which mount of `source`. */
  ghost predicate Carriers(source: seq<Mount>, carried: map<nat, nat>, added: seq<Mount>, base: nat) {
    forall i :: i in carried ==>
      i < |source| && carried[i] < |added| && added[carried[i]] == source[i].(point := Hidden(base + carried[i]))
  }

  lemma CarriersMore(source: seq<Mount>, carried: map<nat, nat>, added: seq<Mount>, base: nat, i: nat)
    requires Numbered(added, base) && Carriers(source, carried, added, base) && i < |source|
    ensures var more := added + [source[i].(point := Hidden(base + |added|))];
      Numbered(more, base) && Carriers(source, carried[i := |added|], more, base)
  {
  }

  lemma StillPlaced(
    source: seq<Mount>, path: Path, before: seq<Mount>, added: seq<Mount>, base: nat, answer: Option<Path>)
    requires Placed(source, path, before, base, answer) && before <= added
    ensures Placed(source, path, added, base, answer)
  {
    var w := Winner(source, path);
    if w.Some? {
      var j :| PlacedAt(w.value, path, before, base, answer, j);
      assert PlacedAt(w.value, path, added, base, answer, j);
    }
  }

  lemma PlacedIsCarried(
    ms: seq<Mount>, added: seq<Mount>, base: nat, source: seq<Mount>, path: Path, answer: Option<Path>)
    requires Fresh(ms, base) && Numbered(added, base) && Placed(source, path, added, base, answer)
    ensures Carried(source, path, ms + added, answer)
  {
    var w := Winner(source, path);
    if w.Some? {
      var j :| PlacedAt(w.value, path, added, base, answer, j);
      CarriedFinds(ms, added, base, j, source, path);
    }
  }

  /** What `carry_from` answers for one path. */
  ghost predicate Carried(source: seq<Mount>, path: Path, mounts: seq<Mount>, answer: Option<Path>) {
    if Winner(source, path).None? then answer.None?
    else answer.Some? && Resolve(mounts, answer.value) == Resolve(source, path)
  }

  // Collecting.

  function DetachedRoot(path: Path): Option<Path> {
    if path != [] && path[0] != "" && path[0][0] == MARK then Some(path[..1]) else None
  }

  predicate InUse(root: Path, used: seq<Path>) {
    exists p :: p in used && root <= p
  }

  predicate Stays(m: Mount, used: seq<Path>) {
    var root := DetachedRoot(m.point);
    root.None? || InUse(root.value, used)
  }

  function Collected(ms: seq<Mount>, used: seq<Path>): seq<Mount> {
    if ms == [] then []
    else Collected(ms[..|ms| - 1], used) + (if Stays(ms[|ms| - 1], used) then [ms[|ms| - 1]] else [])
  }

  /** Exactly the mounts under a hidden root that no held path lies in are dropped. */
  lemma {:induction false} CollectDropsUnused(ms: seq<Mount>, used: seq<Path>, m: Mount)
    ensures m in Collected(ms, used) <==> m in ms && Stays(m, used)
    decreases |ms|
  {
    if ms != [] { CollectDropsUnused(ms[..|ms| - 1], used, m); }
  }

  /** Every held path, and every path without the mark, resolves as before. */
  lemma {:induction false} CollectKeepsPaths(ms: seq<Mount>, used: seq<Path>, path: Path)
    requires path in used || DetachedRoot(path).None?
    ensures Winner(Collected(ms, used), path) == Winner(ms, path)
    decreases |ms|
  {
    if ms != [] {
      var rest, m := ms[..|ms| - 1], ms[|ms| - 1];
      CollectKeepsPaths(rest, used, path);
      if Stays(m, used) {
        WinnerSnoc(Collected(rest, used), m, path);
      } else {
        DroppedIsElsewhere(m, used, path);
        assert Collected(rest, used) + [] == Collected(rest, used);
      }
    }
  }

  lemma DroppedIsElsewhere(m: Mount, used: seq<Path>, path: Path)
    requires !Stays(m, used) && (path in used || DetachedRoot(path).None?)
    ensures !(m.point <= path)
  {
    if m.point <= path { FirstOfPrefix(m.point, path); }
  }

  lemma FirstOfPrefix(a: Path, b: Path)
    requires a <= b && a != []
    ensures b != [] && a[0] == b[0] && a[..1] == b[..1] && a[..1] <= b
  {
  }
}
