/**
 What the lock calls answer and leave, in terms of who holds which byte of which file,
 with the numbers of the ABI spelled out.
 */
module FileLockLaws {
  import opened Options
  import opened FileLocking

  // Which bytes a request means.

  /** Where the request starts: from the beginning, the descriptor's position or the end of the file. */
  function From(a: FcntlArgs): int {
    a.start + (if a.whence == 0 then 0 else if a.whence == 1 then a.pos else a.size)
  }

  function First(a: FcntlArgs): int {
    if a.len < 0 then From(a) + a.len else From(a)
  }

  function Last(a: FcntlArgs): int {
    if a.len > 0 then From(a) + a.len else From(a)
  }

  /** Length 0 is to the end and beyond; so, here, is a range that reaches the largest offset. */
  predicate Asks(a: FcntlArgs, b: nat) {
    First(a) <= b < if a.len == 0 || Last(a) == 0x7FFF_FFFF_FFFF_FFFF then 0xFFFF_FFFF_FFFF_FFFF else Last(a)
  }

  function Holder(a: FcntlArgs): Owner {
    if a.ofdCmd then Ofd(a.ofd) else Process(a.tgid)
  }

  /** Another owner holds a byte asked for, and one of the two is for writing. */
  ghost predicate Contended(s: LockState, k: FileKey, a: FcntlArgs) {
    exists o, b, w :: o != Holder(a) && Asks(a, b) && (a.typ == 1 || w) && FileLocking.Holds(RecordsAt(s, k), o, b, w)
  }

  /** What is wrong with the request itself, or 0. */
  function Fault(a: FcntlArgs): int {
    if a.typ < 0 || a.typ > 2 || a.whence < 0 || a.whence > 2 then 22
    else if From(a) < -0x8000_0000_0000_0000 || Last(a) > 0x7FFF_FFFF_FFFF_FFFF then 75
    else if First(a) < 0 || (a.ofdCmd && a.lpid != 0) then 22
    else 0
  }

  lemma FaultIsBad(a: ValidArgs)
    ensures var r := ReadFlock(a.typ, a.whence, a.start, a.len, a.pos, a.size);
      Fault(a) == if r.Bad? then r.errno else if a.ofdCmd && a.lpid != 0 then 22 else 0
  {
  }

  lemma DecodedAsks(a: ValidArgs, b: nat)
    requires Fault(a) == 0
    ensures var r := ReadFlock(a.typ, a.whence, a.start, a.len, a.pos, a.size);
      && r.Range? && (Asks(a, b) <==> r.start <= b < r.end)
      && (r.typ.ReadLock? <==> a.typ == 0) && (r.typ.WriteLock? <==> a.typ == 1) && (r.typ.Unlock? <==> a.typ == 2)
  {
    FaultIsBad(a);
  }

  lemma ContendedConflicts(s: LockState, a: ValidArgs)
    requires Valid(s) && a.file.Some? && Fault(a) == 0
    ensures Conflicts(s, RequestOf(a)) <==> Contended(s, a.file.value, a)
  {
    var r := RequestOf(a);
    DecodedAsks(a, 0);
    ConflictIsAHeldByte(s, r);
    forall b: nat ensures Asks(a, b) <==> r.start <= b < r.end {
      DecodedAsks(a, b);
    }
  }

  /** `fcntl` with a record-lock command: what it returns and whether it waits. */
  lemma FcntlAnswers(s: LockState, a: ValidArgs)
    requires Valid(s)
    ensures var o := FcntlStep(s, a);
      o.ret == (if a.file.None? then -9
                else if Fault(a) != 0 then -Fault(a)
                else if a.cmd.GetLk? then if a.typ == 2 then -22 else 0
                else if (a.typ == 0 && !a.readable) || (a.typ == 1 && !a.writable) then -9
                else if a.typ != 2 && Contended(s, a.file.value, a) && a.cmd.SetLk? then -11
                else 0)
    ensures FcntlStep(s, a).block <==>
            && a.file.Some? && Fault(a) == 0 && a.cmd.SetLkW? && (a.typ == 0 ==> a.readable)
            && (a.typ == 1 ==> a.writable) && a.typ != 2 && Contended(s, a.file.value, a)
  {
    FaultIsBad(a);
    if a.file.Some? && Fault(a) == 0 {
      DecodedAsks(a, 0);
      ContendedConflicts(s, a);
    }
  }

  /** The call sets or clears a lock. */
  ghost predicate Sets(s: LockState, a: ValidArgs) {
    FcntlStep(s, a).ret == 0 && !FcntlStep(s, a).block && !a.cmd.GetLk?
  }

  /**
   And what it leaves: type 0 has the owner hold exactly the bytes asked for, for reading;
   type 1 for writing; type 2 not at all. Nobody else's bytes change, nor the owner's
   others, nor any other file's; and a call that sets nothing changes nothing.
   */
  lemma FcntlSets(s: LockState, a: ValidArgs, k: FileKey, o: Owner, b: nat, w: bool)
    ensures var now := FcntlStep(s, a).state;
      FileLocking.Holds(RecordsAt(now, k), o, b, w) <==>
        if Sets(s, a) && a.file == Some(k) && o == Holder(a) && Asks(a, b)
        then (a.typ == 0 && !w) || (a.typ == 1 && w)
        else FileLocking.Holds(RecordsAt(s, k), o, b, w)
    ensures FcntlStep(s, a).state.flocks == s.flocks
    ensures FcntlStep(s, a).unpark <==> Sets(s, a) && a.typ != 1
  {
    FaultIsBad(a);
    if Sets(s, a) {
      DecodedAsks(a, b);
      var r := ReadFlock(a.typ, a.whence, a.start, a.len, a.pos, a.size);
      if a.file == Some(k) {
        SetRefinesByteMap(RecordsAt(s, k), Holder(a), r.typ, r.start, r.end, if a.ofdCmd then -1 else a.tgid, o, b, w);
      }
    }
  }

  /** The bytes are the ones POSIX says, at every offset a file can have. */
  lemma AsksIsPosix(a: FcntlArgs, b: nat)
    requires b < 0x7FFF_FFFF_FFFF_FFFF
    ensures Asks(a, b) <==>
            if a.len == 0 then From(a) <= b
            else if a.len > 0 then From(a) <= b < From(a) + a.len else From(a) + a.len <= b < From(a)
  {
  }

  // What F_GETLK reports.

  /** The fields of the `struct flock` it fills in. */
  datatype Report = Report(typ: int, start: int, len: int, pid: int)

  function ReportOf(l: RecLock): Report {
    Report(if l.write then 1 else 0, l.start, if l.end == U64_MAX then 0 else l.end - l.start, l.pid)
  }

  /** Asking for what was reported asks for that lock's bytes, unless it ends at the largest offset. */
  lemma ReportReadsBack(l: RecLock, pos: int, size: int)
    requires l.start < l.end && l.start <= I64_MAX && (l.end <= I64_MAX || l.end == U64_MAX)
    ensures var r := ReportOf(l);
      ReadFlock(r.typ, 0, r.start, r.len, pos, size) == Range(if l.write then WriteLock else ReadLock, l.start, l.end)
      <==> l.end != 0x7FFF_FFFF_FFFF_FFFF
  {
  }

  /** A lock of a process carries its number, one of a description -1. */
  predicate PidTells(l: RecLock) {
    l.pid == match l.owner case Process(tgid) => tgid case Ofd(_) => -1
  }

  ghost predicate PidsTell(s: LockState) {
    forall k, l :: l in RecordsAt(s, k) ==> PidTells(l)
  }

  lemma {:induction false} TrimmedTells(ls: seq<RecLock>, owner: Owner, start: nat, end: nat)
    requires forall l :: l in ls ==> PidTells(l)
    ensures forall p :: p in Trimmed(ls, owner, start, end) ==> PidTells(p)
    decreases |ls|
  {
    if ls != [] {
      var n := |ls| - 1;
      assert ls[n] in ls;
      TrimmedTells(ls[..n], owner, start, end);
    }
  }

  lemma FcntlKeepsPids(s: LockState, a: ValidArgs)
    requires PidsTell(s)
    ensures PidsTell(FcntlStep(s, a).state)
  {
    var now := FcntlStep(s, a).state;
    forall k, l | l in RecordsAt(now, k) ensures PidTells(l) {
      if a.file == Some(k) && RecordsAt(now, k) != RecordsAt(s, k) {
        var r := ReadFlock(a.typ, a.whence, a.start, a.len, a.pos, a.size);
        TrimmedTells(RecordsAt(s, k), OwnerOf(a), r.start, r.end);
      } else {
        assert l in RecordsAt(s, k);
      }
    }
  }

  /** What is dropped or left in place tells what it told. */
  lemma FewerTell(s: LockState, now: LockState)
    requires PidsTell(s) && forall k, l :: l in RecordsAt(now, k) ==> l in RecordsAt(s, k)
    ensures PidsTell(now)
  {
  }

  lemma ReleaseKeepsPids(s: LockState, c: Call)
    requires PidsTell(s) && !c.Fcntl?
    ensures PidsTell(Step(s, c).state)
  {
    var now := Step(s, c).state;
    forall k, l | l in RecordsAt(now, k) ensures l in RecordsAt(s, k) {
      match c
      case FlockCall(file, ofd, op) => FlockLeaves(s, file, ofd, op, k, Flock(0, false));
      case Close(file, tgid, ofd, last) => CloseKeepsExactly(s, file, tgid, ofd, last, k, l);
      case Exit(tgid) => ExitKeepsExactly(s, tgid, k, l);
    }
    FewerTell(s, now);
  }

  /** So it is after every call. */
  lemma StepKeepsPids(s: LockState, c: Call)
    requires PidsTell(s)
    ensures PidsTell(Step(s, c).state)
  {
    if c.Fcntl? {
      FcntlKeepsPids(s, c.args);
    } else {
      ReleaseKeepsPids(s, c);
    }
  }

  // flock.

  /** Another description holds the file, and one of the two wants it for itself. */
  ghost predicate FlockContended(s: LockState, k: FileKey, ofd: nat, exclusive: bool) {
    exists f :: f in FlocksAt(s, k) && f.ofd != ofd && (exclusive || f.exclusive)
  }

  predicate Shares(op: bv32) { op == 1 || op == 5 }

  predicate Excludes(op: bv32) { op == 2 || op == 6 }

  predicate Unlocks(op: bv32) { op == 8 || op == 12 }

  lemma FlockKinds(op: bv32)
    ensures op & !LOCK_NB == LOCK_SH <==> Shares(op)
    ensures op & !LOCK_NB == LOCK_EX <==> Excludes(op)
    ensures op & !LOCK_NB == LOCK_UN <==> Unlocks(op)
    ensures Shares(op) || Excludes(op) ==> (op & LOCK_NB != 0 <==> op == 5 || op == 6)
  {
  }

  /** `flock`: what it returns and whether it waits. */
  lemma FlockAnswers(s: LockState, file: Option<FileKey>, ofd: nat, op: bv32)
    ensures var o := FlockStep(s, file, ofd, op);
      && o.ret == (if !Shares(op) && !Excludes(op) && !Unlocks(op) then -22
                   else if file.None? then -9
                   else if (op == 5 || op == 6) && FlockContended(s, file.value, ofd, op == 6) then -11
                   else 0)
      && (o.block <==> file.Some? && (op == 1 || op == 2) && FlockContended(s, file.value, ofd, op == 2))
  {
    FlockKinds(op);
  }

  ghost predicate FlockSets(s: LockState, file: Option<FileKey>, ofd: nat, op: bv32) {
    FlockStep(s, file, ofd, op).ret == 0 && !FlockStep(s, file, ofd, op).block
  }

  /** And what it leaves: this description's lock as asked, every other as it was. */
  lemma FlockLeaves(s: LockState, file: Option<FileKey>, ofd: nat, op: bv32, k: FileKey, f: Flock)
    ensures var now := FlockStep(s, file, ofd, op).state;
      f in FlocksAt(now, k) <==>
        if FlockSets(s, file, ofd, op) && file == Some(k) && f.ofd == ofd
        then (Shares(op) && !f.exclusive) || (Excludes(op) && f.exclusive)
        else f in FlocksAt(s, k)
    ensures FlockStep(s, file, ofd, op).state.records == s.records
    ensures FlockStep(s, file, ofd, op).unpark <==> FlockSets(s, file, ofd, op) && !Excludes(op)
  {
    FlockKinds(op);
    if FlockSets(s, file, ofd, op) && file == Some(k) {
      var others := Kept(FlocksAt(s, k), (g: Flock) => g.ofd == ofd);
      assert f in others <==> f in FlocksAt(s, k) && f.ofd != ofd;
      assert f in others + [Flock(ofd, Excludes(op))] <==> f in others || f == Flock(ofd, Excludes(op));
    }
  }

  // Closing and exiting.

  /** A close drops the description's `flock` on the file with its last descriptor, and no other. */
  lemma CloseKeepsFlocks(s: LockState, file: Option<FileKey>, tgid: int, ofd: nat, last: bool, k: FileKey, f: Flock)
    ensures f in FlocksAt(CloseStep(s, file, tgid, ofd, last).state, k) <==>
            f in FlocksAt(s, k) && !((file.None? || file == Some(k)) && last && f.ofd == ofd)
  {
    if k in s.flocks {
      assert KeptAt(k, s.flocks[k], file, ClosedFlock(ofd, last)) == [] ==>
               f !in KeptAt(k, s.flocks[k], file, ClosedFlock(ofd, last));
    }
  }

  /** An exit drops the process's record locks on every file, and nothing else. */
  lemma ExitKeepsExactly(s: LockState, tgid: int, k: FileKey, l: RecLock)
    ensures l in RecordsAt(ExitStep(s, tgid).state, k) <==> l in RecordsAt(s, k) && l.owner != Process(tgid)
    ensures forall f :: f in FlocksAt(ExitStep(s, tgid).state, k) <==> f in FlocksAt(s, k)
  {
    if k in s.records {
      assert KeptAt(k, s.records[k], None, ClosedRecord(tgid, 0, false)) == [] ==>
               l !in KeptAt(k, s.records[k], None, ClosedRecord(tgid, 0, false));
    }
    if k in s.flocks {
      var kept := KeptAt(k, s.flocks[k], None, (f: Flock) => false);
      assert forall f :: f in kept <==> f in s.flocks[k];
      if kept != [] { assert kept[0] in s.flocks[k]; }
      if kept == [] { assert forall f :: f !in s.flocks[k]; }
    }
  }
}
