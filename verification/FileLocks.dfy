/**
 File locks (`src/kernel/fcntl.rs`): POSIX and open-file-description record locks,
 `flock`, the releases on close and exit, and which of these wake parked waiters.
 */
module FileLocking {
  import opened Errno
  import opened Options

  /** A file's identity: mount point and inode. */
  type FileKey = (string, nat)

  datatype Owner = Process(tgid: int) | Ofd(id: nat)

  /** A record lock over the bytes `[start, end)`. */
  datatype RecLock = RecLock(owner: Owner, write: bool, start: nat, end: nat, pid: int)

  datatype Flock = Flock(ofd: nat, exclusive: bool)

  datatype LockType = ReadLock | WriteLock | Unlock

  /** What the `FileLocks` object holds. */
  datatype LockState = LockState(records: map<FileKey, seq<RecLock>>, flocks: map<FileKey, seq<Flock>>)

  function RecordsAt(s: LockState, key: FileKey): seq<RecLock> {
    if key in s.records then s.records[key] else []
  }

  function FlocksAt(s: LockState, key: FileKey): seq<Flock> {
    if key in s.flocks then s.flocks[key] else []
  }

  // ---- The meaning of a lock list: who holds which byte, and how. ----

  predicate Covers(l: RecLock, b: nat) {
    l.start <= b < l.end
  }

  /** `o` holds byte `b`, for writing if `w` and for reading otherwise. */
  ghost predicate Holds(ls: seq<RecLock>, o: Owner, b: nat, w: bool) {
    exists l :: l in ls && l.owner == o && l.write == w && Covers(l, b)
  }

  /** The two locks may stand side by side. */
  predicate Compatible(a: RecLock, b: RecLock) {
    a.start < b.end && b.start < a.end ==> a.owner != b.owner && !a.write && !b.write
  }

  /** One owner's locks are disjoint, different owners overlap only when all read, none is empty. */
  ghost predicate ValidRecords(ls: seq<RecLock>) {
    && (forall i :: 0 <= i < |ls| ==> ls[i].start < ls[i].end)
    && (forall i, j :: 0 <= i < j < |ls| ==> Compatible(ls[i], ls[j]))
  }

  /** A description appears once, and an exclusive holder is alone. */
  ghost predicate ValidFlocks(fs: seq<Flock>) {
    && (forall i, j :: 0 <= i < j < |fs| ==> fs[i].ofd != fs[j].ofd)
    && (forall i :: 0 <= i < |fs| && fs[i].exclusive ==> |fs| == 1)
  }

  ghost predicate Valid(s: LockState) {
    && (forall k :: k in s.records ==> s.records[k] != [] && ValidRecords(s.records[k]))
    && (forall k :: k in s.flocks ==> s.flocks[k] != [] && ValidFlocks(s.flocks[k]))
  }

  // ---- Requests and conflicts. ----

  datatype Request =
    | RecordRequest(key: FileKey, owner: Owner, write: bool, start: nat, end: nat)
    | FlockRequest(key: FileKey, ofd: nat, exclusive: bool)

  predicate Blocks(l: RecLock, owner: Owner, write: bool, start: nat, end: nat) {
    l.owner != owner && l.start < end && start < l.end && (write || l.write)
  }

  ghost predicate Conflicts(s: LockState, r: Request) {
    match r
    case RecordRequest(key, owner, write, start, end) =>
      exists l :: l in RecordsAt(s, key) && Blocks(l, owner, write, start, end)
    case FlockRequest(key, ofd, exclusive) =>
      exists f :: f in FlocksAt(s, key) && f.ofd != ofd && (exclusive || f.exclusive)
  }

  // ---- Setting a record lock. ----

  /** What is left of `l` once `owner` gives up `[start, end)`. */
  function Pieces(l: RecLock, owner: Owner, start: nat, end: nat): seq<RecLock> {
    if l.owner != owner || l.end <= start || end <= l.start then [l]
    else
      (if l.start < start then [l.(end := start)] else [])
      + (if end < l.end then [l.(start := end)] else [])
  }

  function Trimmed(ls: seq<RecLock>, owner: Owner, start: nat, end: nat): seq<RecLock> {
    if ls == [] then []
    else Trimmed(ls[..|ls| - 1], owner, start, end) + Pieces(ls[|ls| - 1], owner, start, end)
  }

  function Relocked(ls: seq<RecLock>, owner: Owner, typ: LockType, start: nat, end: nat, pid: int): seq<RecLock> {
    Trimmed(ls, owner, start, end)
    + (if typ.Unlock? then [] else [RecLock(owner, typ.WriteLock?, start, end, pid)])
  }

  function WithRecords(s: LockState, key: FileKey, ls: seq<RecLock>): LockState {
    s.(records := if ls == [] then s.records - {key} else s.records[key := ls])
  }

  lemma {:induction false} TrimmedHolds(ls: seq<RecLock>, owner: Owner, start: nat, end: nat, o: Owner, b: nat, w: bool)
    requires start <= end
    ensures Holds(Trimmed(ls, owner, start, end), o, b, w) <==>
            Holds(ls, o, b, w) && !(o == owner && start <= b < end)
  {
    if ls != [] {
      var init, last := ls[..|ls| - 1], ls[|ls| - 1];
      TrimmedHolds(init, owner, start, end, o, b, w);
      var ps := Pieces(last, owner, start, end);
      assert ls == init + [last];
      assert Holds(ls, o, b, w) <==> Holds(init, o, b, w) || Holds([last], o, b, w) by {
        assert last in [last];
      }
      assert Holds(Trimmed(ls, owner, start, end), o, b, w) <==>
             Holds(Trimmed(init, owner, start, end), o, b, w) || Holds(ps, o, b, w);
      PiecesHold(last, owner, start, end, o, b, w);
    }
  }

  lemma PiecesHold(l: RecLock, owner: Owner, start: nat, end: nat, o: Owner, b: nat, w: bool)
    requires start <= end
    ensures Holds(Pieces(l, owner, start, end), o, b, w) <==>
            Holds([l], o, b, w) && !(o == owner && start <= b < end)
  {
    var ps := Pieces(l, owner, start, end);
    assert l in [l];
    if l.owner == owner && !(l.end <= start || end <= l.start) {
      if l.start < start { assert l.(end := start) in ps; }
      if end < l.end { assert l.(start := end) in ps; }
    }
  }

  /**
   `set` is assignment to a per-owner, per-byte mode map: exactly the bytes of the
   range change, exactly for that owner, and to exactly the requested mode.
   */
  lemma SetRefinesByteMap(ls: seq<RecLock>, owner: Owner, typ: LockType, start: nat, end: nat, pid: int,
                          o: Owner, b: nat, w: bool)
    requires start <= end
    ensures Holds(Relocked(ls, owner, typ, start, end, pid), o, b, w) <==>
            if o == owner && start <= b < end then !typ.Unlock? && w == typ.WriteLock?
            else Holds(ls, o, b, w)
  {
    TrimmedHolds(ls, owner, start, end, o, b, w);
    var out := Relocked(ls, owner, typ, start, end, pid);
    if !typ.Unlock? {
      var added := RecLock(owner, typ.WriteLock?, start, end, pid);
      assert added in out;
      assert out == Trimmed(ls, owner, start, end) + [added];
    }
  }

  /** Every piece lies inside a lock of the list, keeps its owner and mode, and avoids the range. */
  lemma {:induction false} TrimmedInside(ls: seq<RecLock>, owner: Owner, start: nat, end: nat)
    requires start < end
    ensures forall p :: p in Trimmed(ls, owner, start, end) ==>
              exists l :: l in ls && Inside(p, l) && (l.start < l.end ==> p.start < p.end)
                          && (p.owner == owner ==> p.end <= start || end <= p.start)
  {
    if ls != [] {
      var init, last := ls[..|ls| - 1], ls[|ls| - 1];
      TrimmedInside(init, owner, start, end);
      assert forall p :: p in Pieces(last, owner, start, end) ==> Inside(p, last);
      assert last in ls && forall l :: l in init ==> l in ls;
    }
  }

  predicate Inside(p: RecLock, l: RecLock) {
    p.owner == l.owner && p.write == l.write && l.start <= p.start && p.end <= l.end
  }

  lemma JoinedValid(a: seq<RecLock>, b: seq<RecLock>)
    requires ValidRecords(a) && ValidRecords(b)
    requires forall x, y :: x in a && y in b ==> Compatible(x, y)
    ensures ValidRecords(a + b)
  {
    var c := a + b;
    forall i, j | 0 <= i < j < |c| ensures Compatible(c[i], c[j]) {
      if i < |a| <= j { assert c[i] in a && c[j] in b; }
    }
  }

  lemma PiecesValid(l: RecLock, owner: Owner, start: nat, end: nat)
    requires start < end && l.start < l.end
    ensures ValidRecords(Pieces(l, owner, start, end))
    ensures forall p :: p in Pieces(l, owner, start, end) ==> Inside(p, l)
  {
  }

  lemma InsideCompatible(x: RecLock, l: RecLock, y: RecLock, m: RecLock)
    requires Inside(x, l) && Inside(y, m) && Compatible(l, m)
    ensures Compatible(x, y)
  {
  }

  lemma {:induction false} TrimmedValid(ls: seq<RecLock>, owner: Owner, start: nat, end: nat)
    requires start < end && ValidRecords(ls)
    ensures ValidRecords(Trimmed(ls, owner, start, end))
  {
    if ls != [] {
      var init, last := ls[..|ls| - 1], ls[|ls| - 1];
      assert ValidRecords(init);
      assert forall l :: l in init ==> Compatible(l, last);
      TrimmedValid(init, owner, start, end);
      TrimmedInside(init, owner, start, end);
      PiecesValid(last, owner, start, end);
      var t, ps := Trimmed(init, owner, start, end), Pieces(last, owner, start, end);
      forall x, y | x in t && y in ps ensures Compatible(x, y) {
        var l :| l in init && Inside(x, l);
        InsideCompatible(x, l, y, last);
      }
      JoinedValid(t, ps);
    }
  }

  /** A lock granted without a conflict leaves the list valid; an unlock always does. */
  lemma RelockedValid(ls: seq<RecLock>, owner: Owner, typ: LockType, start: nat, end: nat, pid: int)
    requires start < end && ValidRecords(ls)
    requires typ.Unlock? || forall l :: l in ls ==> !Blocks(l, owner, typ.WriteLock?, start, end)
    ensures ValidRecords(Relocked(ls, owner, typ, start, end, pid))
  {
    TrimmedValid(ls, owner, start, end);
    TrimmedInside(ls, owner, start, end);
    var t := Trimmed(ls, owner, start, end);
    if !typ.Unlock? {
      var added := RecLock(owner, typ.WriteLock?, start, end, pid);
      forall x | x in t ensures Compatible(x, added) {
        var l :| l in ls && Inside(x, l) && (x.owner == owner ==> x.end <= start || end <= x.start);
      }
      JoinedValid(t, [added]);
    }
  }

  // ---- Dropping locks. ----

  function Kept<T(!new)>(s: seq<T>, drop: T -> bool): (r: seq<T>)
    ensures forall x :: x in r <==> x in s && !drop(x)
    ensures |r| <= |s|
    ensures |r| == |s| ==> r == s
  {
    if s == [] then []
    else
      var init := Kept(s[..|s| - 1], drop);
      assert s == s[..|s| - 1] + [s[|s| - 1]];
      if drop(s[|s| - 1]) then init else init + [s[|s| - 1]]
  }

  lemma {:induction false} KeptRecordsValid(ls: seq<RecLock>, drop: RecLock -> bool)
    requires ValidRecords(ls)
    ensures ValidRecords(Kept(ls, drop))
  {
    if ls != [] {
      var init := ls[..|ls| - 1];
      KeptRecordsValid(init, drop);
      JoinedValid(Kept(init, drop), [ls[|ls| - 1]]);
    }
  }

  lemma {:induction false} KeptFlocksValid(fs: seq<Flock>, drop: Flock -> bool)
    requires ValidFlocks(fs)
    ensures ValidFlocks(Kept(fs, drop))
  {
    if fs != [] {
      var init := fs[..|fs| - 1];
      KeptFlocksValid(init, drop);
      forall i | 0 <= i < |Kept(init, drop)| ensures Kept(init, drop)[i].ofd != fs[|fs| - 1].ofd {
        assert Kept(init, drop)[i] in init;
      }
      forall i | 0 <= i < |Kept(fs, drop)| && Kept(fs, drop)[i].exclusive ensures |Kept(fs, drop)| == 1 {
        assert Kept(fs, drop)[i] in fs;
      }
    }
  }

  /** `drop_where`: filter the lists of `key` (of every file when `None`), forgetting empty ones. */
  function Dropped(s: LockState, key: Option<FileKey>, rec: RecLock -> bool, fl: Flock -> bool): LockState {
    LockState(DroppedLists(s.records, key, rec), DroppedLists(s.flocks, key, fl))
  }

  function DroppedLists<T(!new)>(m: map<FileKey, seq<T>>, key: Option<FileKey>, drop: T -> bool): map<FileKey, seq<T>> {
    NonEmpty(map k | k in m :: KeptAt(k, m[k], key, drop))
  }

  function NonEmpty<T>(m: map<FileKey, seq<T>>): map<FileKey, seq<T>> {
    map k | k in m && m[k] != [] :: m[k]
  }

  function KeptAt<T(!new)>(k: FileKey, v: seq<T>, key: Option<FileKey>, drop: T -> bool): seq<T> {
    if key.None? || key.value == k then Kept(v, drop) else v
  }

  lemma DroppedValid(s: LockState, key: Option<FileKey>, rec: RecLock -> bool, fl: Flock -> bool)
    requires Valid(s)
    ensures Valid(Dropped(s, key, rec, fl))
  {
    forall k | k in s.records ensures ValidRecords(KeptAt(k, s.records[k], key, rec)) {
      KeptRecordsValid(s.records[k], rec);
    }
    forall k | k in s.flocks ensures ValidFlocks(KeptAt(k, s.flocks[k], key, fl)) {
      KeptFlocksValid(s.flocks[k], fl);
    }
  }

  // ---- The system calls, as steps on the lock state. ----

  const I64_MAX: int := 0x7FFF_FFFF_FFFF_FFFF
  const U64_MAX: nat := 0xFFFF_FFFF_FFFF_FFFF
  const LOCK_SH: bv32 := 1
  const LOCK_EX: bv32 := 2
  const LOCK_NB: bv32 := 4
  const LOCK_UN: bv32 := 8

  datatype Range = Bad(errno: nat) | Range(typ: LockType, start: nat, end: nat)

  predicate IsI64(x: int) {
    -I64_MAX - 1 <= x <= I64_MAX
  }

  /** Decode a `struct flock` against the descriptor's position and the file's size. */
  function ReadFlock(typ: int, whence: int, start: int, len: int, pos: int, size: int): (r: Range)
    requires IsI64(start) && IsI64(len)
    ensures r.Range? ==> r.start < r.end
  {
    if typ < 0 || 2 < typ then Bad(EINVAL)
    else if whence < 0 || 2 < whence then Bad(EINVAL)
    else
      var base := if whence == 0 then 0 else if whence == 1 then pos else size;
      var s := base + start;
      if !IsI64(s) then Bad(EOVERFLOW)
      else if len > 0 && !IsI64(s + len) then Bad(EOVERFLOW)
      else
        var e := if len == 0 then I64_MAX else if len > 0 then s + len else s;
        var first := if len < 0 then s + len else s;
        if first < 0 then Bad(EINVAL)
        else
          Range(if typ == 0 then ReadLock else if typ == 1 then WriteLock else Unlock,
                first, if e == I64_MAX then U64_MAX else e)
  }

  /** The bytes a decoded range covers are the ones POSIX says, at every offset a file can have. */
  lemma ReadFlockCovers(typ: int, whence: int, start: int, len: int, pos: int, size: int, b: nat)
    requires IsI64(start) && IsI64(len) && b < I64_MAX
    requires ReadFlock(typ, whence, start, len, pos, size).Range?
    ensures
      var r := ReadFlock(typ, whence, start, len, pos, size);
      var at := start + (if whence == 0 then 0 else if whence == 1 then pos else size);
      (r.start <= b < r.end) <==>
        (if len == 0 then at <= b else if len > 0 then at <= b < at + len else at + len <= b < at)
  {
  }

  datatype Cmd = GetLk | SetLk | SetLkW

  datatype FcntlArgs = FcntlArgs(
    cmd: Cmd, ofdCmd: bool, file: Option<FileKey>, readable: bool, writable: bool, ofd: nat, tgid: int,
    typ: int, whence: int, start: int, len: int, lpid: int, pos: int, size: int)

  type ValidArgs = a: FcntlArgs | IsI64(a.start) && IsI64(a.len)
    witness FcntlArgs(GetLk, false, None, false, false, 0, 0, 0, 0, 0, 0, 0, 0, 0)

  /** A call's effect: the new lock state, its return value, whether it parks the caller or unparks all. */
  datatype Outcome = Outcome(state: LockState, ret: int, block: bool, unpark: bool)

  function Failed(s: LockState, errno: int): Outcome {
    Outcome(s, -errno, false, false)
  }

  function OwnerOf(a: FcntlArgs): Owner {
    if a.ofdCmd then Ofd(a.ofd) else Process(a.tgid)
  }

  function RequestOf(a: ValidArgs): (r: Request)
    ensures r.RecordRequest?
  {
    var range := ReadFlock(a.typ, a.whence, a.start, a.len, a.pos, a.size);
    RecordRequest(if a.file.Some? then a.file.value else ("", 0), OwnerOf(a),
                  range.Range? && range.typ.WriteLock?,
                  if range.Range? then range.start else 0, if range.Range? then range.end else 1)
  }

  ghost function FcntlStep(s: LockState, a: ValidArgs): Outcome {
    var range := ReadFlock(a.typ, a.whence, a.start, a.len, a.pos, a.size);
    if a.file.None? then Failed(s, EBADF)
    else if range.Bad? then Failed(s, range.errno)
    else if a.ofdCmd && a.lpid != 0 then Failed(s, EINVAL)
    else if a.cmd.GetLk? then
      if range.typ.Unlock? then Failed(s, EINVAL) else Outcome(s, 0, false, false)
    else if (range.typ.ReadLock? && !a.readable) || (range.typ.WriteLock? && !a.writable) then Failed(s, EBADF)
    else if !range.typ.Unlock? && Conflicts(s, RequestOf(a)) then
      if a.cmd.SetLkW? then Outcome(s, 0, true, false) else Failed(s, EAGAIN)
    else
      Outcome(
        WithRecords(s, a.file.value,
                    Relocked(RecordsAt(s, a.file.value), OwnerOf(a), range.typ, range.start, range.end,
                             if a.ofdCmd then -1 else a.tgid)),
        0, false, !range.typ.WriteLock?)
  }

  function WithFlocks(s: LockState, key: FileKey, fs: seq<Flock>): LockState {
    s.(flocks := if fs == [] then s.flocks - {key} else s.flocks[key := fs])
  }

  ghost function FlockStep(s: LockState, file: Option<FileKey>, ofd: nat, op: bv32): Outcome {
    var kind := op & !LOCK_NB;
    if kind != LOCK_SH && kind != LOCK_EX && kind != LOCK_UN then Failed(s, EINVAL)
    else if file.None? then Failed(s, EBADF)
    else
      var others := Kept(FlocksAt(s, file.value), (f: Flock) => f.ofd == ofd);
      if kind == LOCK_UN then Outcome(WithFlocks(s, file.value, others), 0, false, true)
      else if Conflicts(s, FlockRequest(file.value, ofd, kind == LOCK_EX)) then
        if op & LOCK_NB != 0 then Failed(s, EAGAIN) else Outcome(s, 0, true, false)
      else Outcome(WithFlocks(s, file.value, others + [Flock(ofd, kind == LOCK_EX)]), 0, false, kind != LOCK_EX)
  }

  function ClosedRecord(tgid: int, ofd: nat, last: bool): RecLock -> bool {
    (l: RecLock) => l.owner == Process(tgid) || (last && l.owner == Ofd(ofd))
  }

  function ClosedFlock(ofd: nat, last: bool): Flock -> bool {
    (f: Flock) => last && f.ofd == ofd
  }

  function CloseStep(s: LockState, file: Option<FileKey>, tgid: int, ofd: nat, last: bool): Outcome {
    var s' := Dropped(s, file, ClosedRecord(tgid, ofd, last), ClosedFlock(ofd, last));
    Outcome(s', 0, false, s' != s)
  }

  function ExitStep(s: LockState, tgid: int): Outcome {
    var s' := Dropped(s, None, ClosedRecord(tgid, 0, false), (f: Flock) => false);
    Outcome(s', 0, false, s' != s)
  }

  /**
   Which record locks a close leaves: all but the process's own on that file, and the
   description's when this was its last descriptor. When the descriptor's path no
   longer names a file, "that file" is every file.
   */
  lemma CloseKeepsExactly(s: LockState, file: Option<FileKey>, tgid: int, ofd: nat, last: bool, k: FileKey, l: RecLock)
    ensures l in RecordsAt(CloseStep(s, file, tgid, ofd, last).state, k) <==>
            l in RecordsAt(s, k)
            && !((file.None? || file == Some(k)) && (l.owner == Process(tgid) || (last && l.owner == Ofd(ofd))))
  {
    if k in s.records {
      assert KeptAt(k, s.records[k], file, ClosedRecord(tgid, ofd, last)) == [] ==>
               l !in KeptAt(k, s.records[k], file, ClosedRecord(tgid, ofd, last));
    }
  }

  /** It loses locks so: closing some other descriptor, its path gone, drops the process's lock on this file. */
  lemma UnresolvedCloseDropsOthers()
    ensures
      var k, l := ("b", 0), RecLock(Process(1), true, 0, 10, 1);
      var s := LockState(map[k := [l]], map[]);
      && Valid(s) && RecordsAt(s, k) == [l]
      && RecordsAt(CloseStep(s, None, 1, 7, false).state, k) == []
      && RecordsAt(CloseStep(s, Some(("a", 0)), 1, 7, false).state, k) == [l]
  {
    var k, l := ("b", 0), RecLock(Process(1), true, 0, 10, 1);
    var s := LockState(map[k := [l]], map[]);
    assert KeptAt(k, [l], None, ClosedRecord(1, 7, false)) == [];
    assert KeptAt(k, [l], Some(("a", 0)), ClosedRecord(1, 7, false)) == [l];
  }

  datatype Call =
    | Fcntl(args: ValidArgs)
    | FlockCall(file: Option<FileKey>, ofd: nat, op: bv32)
    | Close(file: Option<FileKey>, tgid: int, ofd: nat, last: bool)
    | Exit(tgid: int)

  ghost function Step(s: LockState, c: Call): Outcome {
    match c
    case Fcntl(args) => FcntlStep(s, args)
    case FlockCall(file, ofd, op) => FlockStep(s, file, ofd, op)
    case Close(file, tgid, ofd, last) => CloseStep(s, file, tgid, ofd, last)
    case Exit(tgid) => ExitStep(s, tgid)
  }

  lemma FlockGrantValid(fs: seq<Flock>, ofd: nat, exclusive: bool)
    requires ValidFlocks(fs)
    ensures ValidFlocks(Kept(fs, (f: Flock) => f.ofd == ofd))
    ensures (forall f :: f in fs ==> f.ofd == ofd || !(exclusive || f.exclusive)) ==>
              ValidFlocks(Kept(fs, (f: Flock) => f.ofd == ofd) + [Flock(ofd, exclusive)])
  {
    KeptFlocksValid(fs, (f: Flock) => f.ofd == ofd);
    var others := Kept(fs, (f: Flock) => f.ofd == ofd);
    assert forall i :: 0 <= i < |others| ==> others[i] in others;
    if exclusive && others != [] && (forall f :: f in fs ==> f.ofd == ofd) {
      assert others[0] in others;
    }
  }

  lemma FcntlKeepsValid(s: LockState, a: ValidArgs)
    requires Valid(s)
    ensures Valid(FcntlStep(s, a).state)
  {
    if FcntlStep(s, a).state != s {
      var range := ReadFlock(a.typ, a.whence, a.start, a.len, a.pos, a.size);
      RelockedValid(RecordsAt(s, a.file.value), OwnerOf(a), range.typ, range.start, range.end,
                    if a.ofdCmd then -1 else a.tgid);
    }
  }

  lemma FlockKeepsValid(s: LockState, file: Option<FileKey>, ofd: nat, op: bv32)
    requires Valid(s)
    ensures Valid(FlockStep(s, file, ofd, op).state)
  {
    if FlockStep(s, file, ofd, op).state != s {
      FlockGrantValid(FlocksAt(s, file.value), ofd, op & !LOCK_NB == LOCK_EX);
    }
  }

  /** Every call keeps disjointness, exclusion, lone exclusive holders and no empty list. */
  lemma StepKeepsValid(s: LockState, c: Call)
    requires Valid(s)
    ensures Valid(Step(s, c).state)
  {
    match c
    case Fcntl(a) => FcntlKeepsValid(s, a);
    case FlockCall(file, ofd, op) => FlockKeepsValid(s, file, ofd, op);
    case Close(file, tgid, ofd, last) =>
      DroppedValid(s, file, ClosedRecord(tgid, ofd, last), ClosedFlock(ofd, last));
    case Exit(tgid) =>
      DroppedValid(s, None, ClosedRecord(tgid, 0, false), (f: Flock) => false);
  }

  // ---- No lost wake-up. ----

  /** A request for at least one byte, as every decoded one is. */
  predicate Proper(r: Request) {
    r.RecordRequest? ==> r.start < r.end
  }

  /** A conflict is a byte of the range someone else holds in the way. */
  lemma ConflictIsAHeldByte(s: LockState, r: Request)
    requires Valid(s) && Proper(r) && r.RecordRequest?
    ensures Conflicts(s, r) <==>
            exists o, b, w ::
              o != r.owner && r.start <= b < r.end && (r.write || w) && Holds(RecordsAt(s, r.key), o, b, w)
  {
    if Conflicts(s, r) {
      var l :| l in RecordsAt(s, r.key) && Blocks(l, r.owner, r.write, r.start, r.end);
      var b := if l.start < r.start then r.start else l.start;
      assert Covers(l, b);
      assert Holds(RecordsAt(s, r.key), l.owner, b, l.write);
    }
  }

  /** Setting a write lock never removes a conflict for anyone. */
  lemma WriteLockRemovesNoConflict(s: LockState, key: FileKey, owner: Owner, start: nat, end: nat, pid: int, r: Request)
    requires Valid(s) && start < end && Proper(r) && Conflicts(s, r)
    requires !Conflicts(s, RecordRequest(key, owner, true, start, end))
    ensures Conflicts(WithRecords(s, key, Relocked(RecordsAt(s, key), owner, WriteLock, start, end, pid)), r)
  {
    if r.RecordRequest? && r.key == key {
      var ls := RecordsAt(s, key);
      var s' := WithRecords(s, key, Relocked(ls, owner, WriteLock, start, end, pid));
      RelockedValid(ls, owner, WriteLock, start, end, pid);
      ConflictIsAHeldByte(s, r);
      ConflictIsAHeldByte(s', r);
      var o, b, w :| o != r.owner && r.start <= b < r.end && (r.write || w) && Holds(ls, o, b, w);
      var w' := w || (o == owner && start <= b < end);
      SetRefinesByteMap(ls, owner, WriteLock, start, end, pid, o, b, w');
      assert Holds(RecordsAt(s', key), o, b, w');
    }
  }

  /** Granting an exclusive `flock` never removes a conflict for anyone. */
  lemma ExclusiveFlockRemovesNoConflict(s: LockState, key: FileKey, ofd: nat, r: Request)
    requires Valid(s) && Conflicts(s, r)
    requires !Conflicts(s, FlockRequest(key, ofd, true))
    ensures Conflicts(WithFlocks(s, key, Kept(FlocksAt(s, key), (f: Flock) => f.ofd == ofd) + [Flock(ofd, true)]), r)
  {
    if r.FlockRequest? && r.key == key {
      var s' := WithFlocks(s, key, Kept(FlocksAt(s, key), (f: Flock) => f.ofd == ofd) + [Flock(ofd, true)]);
      assert Flock(ofd, true) in FlocksAt(s', key);
    }
  }

  lemma QuietFcntlKeepsConflicts(s: LockState, a: ValidArgs, r: Request)
    requires Valid(s) && Proper(r) && Conflicts(s, r) && !FcntlStep(s, a).unpark
    ensures Conflicts(FcntlStep(s, a).state, r)
  {
    if FcntlStep(s, a).state != s {
      var range := ReadFlock(a.typ, a.whence, a.start, a.len, a.pos, a.size);
      WriteLockRemovesNoConflict(s, a.file.value, OwnerOf(a), range.start, range.end,
                                 if a.ofdCmd then -1 else a.tgid, r);
    }
  }

  lemma QuietFlockKeepsConflicts(s: LockState, file: Option<FileKey>, ofd: nat, op: bv32, r: Request)
    requires Valid(s) && Proper(r) && Conflicts(s, r) && !FlockStep(s, file, ofd, op).unpark
    ensures Conflicts(FlockStep(s, file, ofd, op).state, r)
  {
    if FlockStep(s, file, ofd, op).state != s {
      ExclusiveFlockRemovesNoConflict(s, file.value, ofd, r);
    }
  }

  /** If a request conflicted before the step and does not after it, the step unparks all waiters. */
  lemma NoLostWakeup(s: LockState, c: Call, r: Request)
    requires Valid(s) && Proper(r)
    requires Conflicts(s, r) && !Conflicts(Step(s, c).state, r)
    ensures Step(s, c).unpark
  {
    if !Step(s, c).unpark {
      match c
      case Fcntl(a) => QuietFcntlKeepsConflicts(s, a, r);
      case FlockCall(file, ofd, op) => QuietFlockKeepsConflicts(s, file, ofd, op, r);
      case Close(_, _, _, _) =>
      case Exit(_) =>
    }
  }

  // ---- Runs: tasks calling in, waiting and being woken. ----

  /** The lock state and, for each parked task, the request it waits for. */
  datatype System = System(locks: LockState, parked: map<int, Request>)

  datatype Event = Event(task: int, call: Call)

  /** A blocked call parks its task on its request; an unpark wakes every task to try again. */
  ghost function Deliver(y: System, e: Event): System {
    var o := Step(y.locks, e.call);
    var rest := if o.unpark then map[] else y.parked - {e.task};
    System(o.state, if o.block then rest[e.task := WaitsFor(e.call)] else rest)
  }

  function WaitsFor(c: Call): Request
    requires c.Fcntl? || c.FlockCall?
  {
    match c
    case Fcntl(a) => RequestOf(a)
    case FlockCall(file, ofd, op) =>
      FlockRequest(if file.Some? then file.value else ("", 0), ofd, op & !LOCK_NB == LOCK_EX)
  }

  ghost function Run(es: seq<Event>): System {
    if es == [] then System(LockState(map[], map[]), map[])
    else Deliver(Run(es[..|es| - 1]), es[|es| - 1])
  }

  ghost predicate Inv(y: System) {
    && Valid(y.locks)
    && forall t :: t in y.parked ==> Proper(y.parked[t]) && Conflicts(y.locks, y.parked[t])
  }

  /** After any run the lock lists are valid, and every task still parked could not be granted its lock. */
  lemma {:induction false} EveryParkedTaskIsBlocked(es: seq<Event>)
    ensures Inv(Run(es))
  {
    if es != [] {
      EveryParkedTaskIsBlocked(es[..|es| - 1]);
      var y, e := Run(es[..|es| - 1]), es[|es| - 1];
      StepKeepsValid(y.locks, e.call);
      forall t | t in y.parked && !Conflicts(Step(y.locks, e.call).state, y.parked[t])
        ensures Step(y.locks, e.call).unpark
      {
        NoLostWakeup(y.locks, e.call, y.parked[t]);
      }
    }
  }

  // ---- The object. ----

  class FileLocks {
    var records: map<FileKey, seq<RecLock>>
    var flocks: map<FileKey, seq<Flock>>

    function State(): LockState reads this { LockState(records, flocks) }

    constructor ()
      ensures State() == LockState(map[], map[])
    {
      records, flocks := map[], map[];
    }

    /** The first lock in the way of the request, if any is. */
    method Conflict(key: FileKey, owner: Owner, write: bool, start: nat, end: nat) returns (r: Option<RecLock>)
      ensures r.Some? <==> Conflicts(State(), RecordRequest(key, owner, write, start, end))
      ensures r.Some? ==> exists i :: 0 <= i < |RecordsAt(State(), key)| && RecordsAt(State(), key)[i] == r.value
                            && Blocks(r.value, owner, write, start, end)
                            && forall j :: 0 <= j < i ==> !Blocks(RecordsAt(State(), key)[j], owner, write, start, end)
    {
      if key !in records { return None; }
      var v := records[key];
      for i := 0 to |v|
        invariant forall j :: 0 <= j < i ==> !Blocks(v[j], owner, write, start, end)
      {
        if Blocks(v[i], owner, write, start, end) { return Some(v[i]); }
      }
      return None;
    }

    method Set(key: FileKey, owner: Owner, typ: LockType, start: nat, end: nat, pid: int)
      modifies this`records
      ensures State() == WithRecords(old(State()), key,
                                     Relocked(RecordsAt(old(State()), key), owner, typ, start, end, pid))
    {
      var v := if key in records then records[key] else [];
      var out := [];
      for i := 0 to |v|
        invariant out == Trimmed(v[..i], owner, start, end)
      {
        var l := v[i];
        assert v[..i + 1][..i] == v[..i];
        if l.owner != owner || l.end <= start || end <= l.start {
          out := out + [l];
        } else {
          if l.start < start { out := out + [l.(end := start)]; }
          if end < l.end { out := out + [l.(start := end)]; }
        }
      }
      assert v[..|v|] == v;
      if typ != Unlock {
        out := out + [RecLock(owner, typ.WriteLock?, start, end, pid)];
      }
      assert out == Relocked(v, owner, typ, start, end, pid);
      records := if out == [] then records - {key} else records[key := out];
    }

    method DropWhere(key: Option<FileKey>, rec: RecLock -> bool, fl: Flock -> bool) returns (any: bool)
      modifies this
      ensures State() == Dropped(old(State()), key, rec, fl)
      ensures Valid(old(State())) ==> (any <==> State() != old(State()))
    {
      var anyRec, anyFl;
      records, anyRec := FilterLists(records, key, rec);
      flocks, anyFl := FilterLists(flocks, key, fl);
      any := anyRec || anyFl;
    }

    /** `F_GETLK`, `F_SETLK` and `F_SETLKW`, in their process and description forms. */
    method FcntlLock(a: ValidArgs) returns (o: Outcome, report: Option<RecLock>)
      modifies this`records
      ensures o == FcntlStep(old(State()), a) && o.state == State()
      ensures o.ret == 0 && a.cmd.GetLk? ==>
                && (report.Some? <==> Conflicts(State(), RequestOf(a)))
                && (report.Some? ==>
                      && report.value in RecordsAt(State(), a.file.value)
                      && Blocks(report.value, OwnerOf(a), RequestOf(a).write, RequestOf(a).start, RequestOf(a).end))
    {
      report := None;
      if a.file.None? { return Failed(State(), EBADF), None; }
      var key := a.file.value;
      var range := ReadFlock(a.typ, a.whence, a.start, a.len, a.pos, a.size);
      if range.Bad? { return Failed(State(), range.errno), None; }
      if a.ofdCmd && a.lpid != 0 { return Failed(State(), EINVAL), None; }
      var owner := OwnerOf(a);
      var write := range.typ.WriteLock?;
      if a.cmd.GetLk? {
        if range.typ.Unlock? { return Failed(State(), EINVAL), None; }
        report := Conflict(key, owner, write, range.start, range.end);
        return Outcome(State(), 0, false, false), report;
      }
      if (range.typ.ReadLock? && !a.readable) || (range.typ.WriteLock? && !a.writable) {
        return Failed(State(), EBADF), None;
      }
      if !range.typ.Unlock? {
        var c := Conflict(key, owner, write, range.start, range.end);
        if c.Some? {
          return if a.cmd.SetLkW? then Outcome(State(), 0, true, false) else Failed(State(), EAGAIN), None;
        }
      }
      Set(key, owner, range.typ, range.start, range.end, if a.ofdCmd then -1 else a.tgid);
      o := Outcome(State(), 0, false, !write);
    }

    /** `flock(2)`. */
    method SysFlock(file: Option<FileKey>, ofd: nat, op: bv32) returns (o: Outcome)
      requires Valid(State())
      modifies this`flocks
      ensures o == FlockStep(old(State()), file, ofd, op) && o.state == State()
    {
      var kind := op & !LOCK_NB;
      if kind != LOCK_SH && kind != LOCK_EX && kind != LOCK_UN { return Failed(State(), EINVAL); }
      if file.None? { return Failed(State(), EBADF); }
      var key := file.value;
      ghost var was := State();
      var list := if key in flocks then flocks[key] else [];
      flocks := flocks[key := list];
      if kind == LOCK_UN {
        list := Kept(list, (f: Flock) => f.ofd == ofd);
        flocks := if list == [] then flocks - {key} else flocks[key := list];
        assert State().flocks == WithFlocks(was, key, list).flocks;
        return Outcome(State(), 0, false, true);
      }
      var exclusive := kind == LOCK_EX;
      var blocked := false;
      for i := 0 to |list|
        invariant blocked <==> exists f :: f in list[..i] && f.ofd != ofd && (exclusive || f.exclusive)
      {
        assert list[..i + 1] == list[..i] + [list[i]];
        blocked := blocked || (list[i].ofd != ofd && (exclusive || list[i].exclusive));
      }
      assert list[..|list|] == list;
      if blocked {
        // A blocked list has a holder in it, so the entry is the one that was there.
        assert flocks == was.flocks;
        return if op & LOCK_NB != 0 then Failed(State(), EAGAIN) else Outcome(State(), 0, true, false);
      }
      list := Kept(list, (f: Flock) => f.ofd == ofd) + [Flock(ofd, exclusive)];
      flocks := flocks[key := list];
      assert State().flocks == WithFlocks(was, key, list).flocks;
      o := Outcome(State(), 0, false, !exclusive);
    }

    /** Closing a descriptor of the file `file` names now (`None`: nothing any more). */
    method ReleaseFdLocks(file: Option<FileKey>, tgid: int, ofd: nat, last: bool) returns (o: Outcome)
      requires Valid(State())
      modifies this
      ensures o == CloseStep(old(State()), file, tgid, ofd, last) && o.state == State()
    {
      if records == map[] && flocks == map[] {
        assert CloseStep(State(), file, tgid, ofd, last).state == State();
        return Outcome(State(), 0, false, false);
      }
      var released := DropWhere(file, ClosedRecord(tgid, ofd, last), ClosedFlock(ofd, last));
      o := Outcome(State(), 0, false, released);
    }

    /** The thread group is gone. */
    method ReleaseProcessLocks(tgid: int) returns (o: Outcome)
      requires Valid(State())
      modifies this
      ensures o == ExitStep(old(State()), tgid) && o.state == State()
    {
      if records == map[] && flocks == map[] {
        assert ExitStep(State(), tgid).state == State();
        return Outcome(State(), 0, false, false);
      }
      var released := DropWhere(None, ClosedRecord(tgid, 0, false), (f: Flock) => false);
      o := Outcome(State(), 0, false, released);
    }
  }

  /** One pass over the lists, in any order of the keys; a list that got shorter is noted. */
  method FilterPass<T(==, !new)>(m: map<FileKey, seq<T>>, key: Option<FileKey>, drop: T -> bool)
    returns (m': map<FileKey, seq<T>>, any: bool)
    ensures m' == map k | k in m :: KeptAt(k, m[k], key, drop)
    ensures any <==> exists k :: k in m && m'[k] != m[k]
  {
    m', any := m, false;
    var todo := m.Keys;
    while todo != {}
      invariant todo <= m.Keys == m'.Keys
      invariant forall k :: k in m && k in todo ==> m'[k] == m[k]
      invariant forall k :: k in m && k !in todo ==> m'[k] == KeptAt(k, m[k], key, drop)
      invariant any <==> exists k :: k in m && m'[k] != m[k]
      decreases todo
    {
      var k :| k in todo;
      ghost var was := m';
      var v := if key.None? || key.value == k then Kept(m'[k], drop) else m'[k];
      any := any || |v| != |m'[k]|;
      m' := m'[k := v];
      todo := todo - {k};
      assert forall j :: j in m && j != k ==> m'[j] == was[j];
      assert m'[k] != m[k] <==> |v| != |m[k]|;
    }
  }

  method FilterLists<T(==, !new)>(m: map<FileKey, seq<T>>, key: Option<FileKey>, drop: T -> bool)
    returns (m': map<FileKey, seq<T>>, any: bool)
    ensures m' == DroppedLists(m, key, drop)
    ensures (forall k :: k in m ==> m[k] != []) ==> (any <==> m' != m)
  {
    var filtered;
    filtered, any := FilterPass(m, key, drop);
    m' := NonEmpty(filtered);
    FilteredDiffers(m, filtered);
  }

  /** Forgetting the emptied lists does not hide that something changed. */
  lemma FilteredDiffers<T>(m: map<FileKey, seq<T>>, filtered: map<FileKey, seq<T>>)
    requires filtered.Keys == m.Keys
    ensures (forall k :: k in m ==> m[k] != []) ==> (filtered != m <==> NonEmpty(filtered) != m)
  {
    if (forall k :: k in m ==> m[k] != []) && filtered != m {
      var k :| k in m && filtered[k] != m[k];
      assert k in NonEmpty(filtered) ==> NonEmpty(filtered)[k] != m[k];
    }
  }
}
