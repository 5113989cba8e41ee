/**
 What the loader puts on the initial stack, and that the reader of the auxiliary vector
 gets back exactly what was put there.
 */
module StackLayout {
  import opened Options
  import opened StackModel

  const AT_NULL: nat := 0
  const AT_IGNORE: nat := 1
  const AT_PHDR: nat := 3
  const AT_PHENT: nat := 4
  const AT_PHNUM: nat := 5
  const AT_PAGESZ: nat := 6
  const AT_BASE: nat := 7
  const AT_FLAGS: nat := 8
  const AT_ENTRY: nat := 9
  const AT_UID: nat := 11
  const AT_EUID: nat := 12
  const AT_GID: nat := 13
  const AT_EGID: nat := 14
  const AT_PLATFORM: nat := 15
  const AT_HWCAP: nat := 16
  const AT_CLKTCK: nat := 17
  const AT_SECURE: nat := 23
  const AT_RANDOM: nat := 25
  const AT_HWCAP2: nat := 26
  const AT_EXECFN: nat := 31
  const AT_SYSINFO_EHDR: nat := 33

  const EM_X86_64: nat := 62
  const PHDR_LEN: nat := 56
  const HWCAP_X86_64: nat := 0x788_A179
  const HWCAP_AARCH64: nat := 0x2FB3_FFFB
  const HWCAP2_AARCH64: nat := 0x6181

  /** What is loaded: strings as bytes, header values, and the 16 random bytes. */
  datatype Process = Process(
    argv: seq<seq<nat>>, envp: seq<seq<nat>>, machine: nat, phdr: nat, phnum: nat, interpBase: nat,
    entry: nat, vdso: nat, random: seq<nat>)

  /** An entry of the auxiliary vector. */
  datatype Aux = Aux(tag: nat, val: nat)

  predicate Sane(p: Process) {
    && p.phdr < U64 && p.phnum < U64 && p.interpBase < U64 && p.entry < U64 && p.vdso < U64
    && |p.random| == 16
  }

  function PlatformName(machine: nat): seq<nat> {
    // "x86_64" and "aarch64"
    if machine == EM_X86_64 then [120, 56, 54, 95, 54, 52] else [97, 97, 114, 99, 104, 54, 52]
  }

  function Strings(p: Process): seq<seq<nat>> {
    p.argv + p.envp + [PlatformName(p.machine)]
  }

  function AuxvAt(p: Process, strBase: nat, randomAddr: nat, platform: nat): (aux: seq<Aux>)
    ensures |aux| == 20
  {
    var x86 := p.machine == EM_X86_64;
    [ if x86 then Aux(AT_SYSINFO_EHDR, p.vdso) else Aux(AT_IGNORE, 0),
      Aux(AT_PHDR, p.phdr),
      Aux(AT_PHENT, PHDR_LEN),
      Aux(AT_PHNUM, p.phnum),
      Aux(AT_PAGESZ, PAGE_SIZE),
      Aux(AT_BASE, p.interpBase),
      Aux(AT_FLAGS, 0),
      Aux(AT_ENTRY, p.entry),
      Aux(AT_UID, 0),
      Aux(AT_EUID, 0),
      Aux(AT_GID, 0),
      Aux(AT_EGID, 0),
      Aux(AT_HWCAP, if x86 then HWCAP_X86_64 else HWCAP_AARCH64),
      Aux(AT_HWCAP2, if x86 then 0 else HWCAP2_AARCH64),
      Aux(AT_CLKTCK, 100),
      Aux(AT_SECURE, 0),
      Aux(AT_RANDOM, randomAddr),
      Aux(AT_PLATFORM, platform),
      Aux(AT_EXECFN, strBase),
      Aux(AT_NULL, 0) ]
  }

  function Auxv(p: Process, strBase: nat, randomAddr: nat): (aux: seq<Aux>)
    ensures |aux| == 20
  {
    AuxvAt(p, strBase, randomAddr, strBase + Off(Strings(p), |p.argv| + |p.envp|))
  }

  function Flat(pairs: seq<Aux>): (ws: seq<nat>)
    ensures |ws| == 2 * |pairs|
  {
    if pairs == [] then [] else [pairs[0].tag, pairs[0].val] + Flat(pairs[1..])
  }

  /** Pointers to the strings from number `lo` to before number `hi`. */
  function Pointers(ss: seq<seq<nat>>, strBase: nat, lo: nat, hi: nat): (ps: seq<nat>)
    requires lo <= hi <= |ss|
    ensures |ps| == hi - lo && forall k :: 0 <= k < |ps| ==> ps[k] == strBase + Off(ss, lo + k)
  {
    if lo == hi then [] else Pointers(ss, strBase, lo, hi - 1) + [strBase + Off(ss, hi - 1)]
  }

  /** The argument count, the two pointer lists each with a null, and the pairs. */
  function VectorOf(args: seq<nat>, env: seq<nat>, aux: seq<nat>): (ws: seq<nat>)
    ensures |ws| == 3 + |args| + |env| + |aux|
  {
    [|args|] + args + [0] + (env + [0] + aux)
  }

  // Where it goes, from the top of memory down.

  datatype Layout = Layout(strBase: nat, randomAddr: nat, sp: nat)

  /** `None` where an address would go below zero. */
  function LayoutOf(top: nat, blob: nat, words: nat): (l: Option<Layout>)
    ensures l.Some? ==>
      && l.value.sp % 16 == 0 && l.value.randomAddr % 16 == 0 && l.value.strBase % 8 == 0
      && l.value.sp + 8 * words <= l.value.randomAddr
      && l.value.randomAddr + 16 <= l.value.strBase
      && l.value.strBase + blob <= top
  {
    if top < blob then None
    else
      var strBase := Down8(top - blob);
      if strBase < 16 then None
      else
        var randomAddr := Down16(strBase - 16);
        if randomAddr < 8 * words then None
        else Some(Layout(strBase, randomAddr, Down16(randomAddr - 8 * words)))
  }

  /** No aligned parts, in the same order, go higher; and where there are any, these are found. */
  lemma {:induction false} LayoutIsHighest(top: nat, blob: nat, words: nat, other: Layout)
    requires other.sp % 16 == 0 && other.randomAddr % 16 == 0 && other.strBase % 8 == 0
    requires other.sp + 8 * words <= other.randomAddr && other.randomAddr + 16 <= other.strBase
    requires other.strBase + blob <= top
    ensures LayoutOf(top, blob, words).Some?
    ensures var l := LayoutOf(top, blob, words).value;
      other.strBase <= l.strBase && other.randomAddr <= l.randomAddr && other.sp <= l.sp
  {
    var strBase := Down8(top - blob);
    Highest8(top - blob, other.strBase);
    var randomAddr := Down16(strBase - 16);
    Highest16(strBase - 16, other.randomAddr);
    Highest16(randomAddr - 8 * words, other.sp);
  }

  /** A stack: where its parts are, its strings (arguments, environment, platform) and its pairs. */
  datatype Stack = Stack(at: Layout, strings: seq<seq<nat>>, argc: nat, aux: seq<Aux>) {

    predicate Formed() {
      argc < |strings|
    }

    function Args(): (ps: seq<nat>)
      requires Formed()
      ensures |ps| == argc
    {
      Pointers(strings, at.strBase, 0, argc)
    }

    function Env(): (ps: seq<nat>)
      requires Formed()
      ensures |ps| == |strings| - 1 - argc
    {
      Pointers(strings, at.strBase, argc, |strings| - 1)
    }

    function Words(): (ws: seq<nat>)
      requires Formed()
      ensures |ws| == 2 + |strings| + 2 * |aux|
    {
      VectorOf(Args(), Env(), Flat(aux))
    }
  }

  /** The stack for `p` with its parts at `l`. */
  function StackFor(p: Process, l: Layout): (st: Stack)
    ensures st.Formed() && |st.aux| == 20 && |st.strings| == |p.argv| + |p.envp| + 1
  {
    Stack(l, Strings(p), |p.argv|, Auxv(p, l.strBase, l.randomAddr))
  }

  function PlaceOf(p: Process, top: nat): Option<Layout> {
    LayoutOf(top, |Blob(Strings(p))|, 2 + |Strings(p)| + 40)
  }

  /** In order from low to high: vector, random bytes, strings; none over another, all below `top`. */
  ghost predicate Apart(st: Stack, top: nat) {
    && st.Formed() && st.at.sp % 16 == 0
    && st.at.sp + 8 * |st.Words()| <= st.at.randomAddr
    && st.at.randomAddr + 16 <= st.at.strBase
    && st.at.strBase + |Blob(st.strings)| <= top
  }

  /** The stack is in memory. */
  ghost predicate Standing(m: Memory, top: nat, st: Stack) {
    && Apart(st, top)
    && HoldsWords(WordsOf(m), st.at.sp, st.Words())
    && Inside(m, st.at.strBase, |Blob(st.strings)|)
    && Bytes(m, st.at.strBase, |Blob(st.strings)|) == Blob(st.strings)
  }

  // Every word of the vector fits its eight bytes.

  ghost predicate AllSmall(ws: seq<nat>, least: nat) {
    forall k :: 0 <= k < |ws| ==> least <= ws[k] < U64
  }

  ghost predicate AuxSmall(aux: seq<Aux>) {
    forall i :: 0 <= i < |aux| ==> aux[i].tag < U64 && aux[i].val < U64
  }

  lemma {:induction false} OffIsInside(ss: seq<seq<nat>>, k: nat)
    requires k < |ss|
    ensures Off(ss, k) < |Blob(ss)|
  {
    BlobAt(ss, k);
  }

  lemma {:induction false} FlatIsSmall(pairs: seq<Aux>)
    requires AuxSmall(pairs)
    ensures AllSmall(Flat(pairs), 0)
    decreases |pairs|
  {
    if pairs != [] { FlatIsSmall(pairs[1..]); }
  }

  lemma {:induction false} AuxvIsSmall(p: Process, top: nat, l: Layout)
    requires Sane(p) && top < U64 && PlaceOf(p, top) == Some(l)
    ensures AuxSmall(StackFor(p, l).aux)
  {
    OffIsInside(Strings(p), |p.argv| + |p.envp|);
  }

  lemma {:induction false} PointersAreSmall(ss: seq<seq<nat>>, strBase: nat, top: nat, lo: nat, hi: nat)
    requires 0 < strBase && strBase + |Blob(ss)| <= top < U64 && lo <= hi <= |ss|
    ensures AllSmall(Pointers(ss, strBase, lo, hi), 1)
  {
    var ps := Pointers(ss, strBase, lo, hi);
    forall k | 0 <= k < |ps| ensures 1 <= ps[k] < U64 {
      OffIsInside(ss, lo + k);
    }
  }

  lemma {:induction false} WordsAreSmall(st: Stack, top: nat)
    requires Apart(st, top) && top < U64
    requires AuxSmall(st.aux)
    ensures AllSmall(st.Words(), 0)
  {
    FlatIsSmall(st.aux);
    PointersAreSmall(st.strings, st.at.strBase, top, 0, st.argc);
    PointersAreSmall(st.strings, st.at.strBase, top, st.argc, |st.strings| - 1);
    SmallParts(st.Args(), st.Env(), Flat(st.aux));
  }

  lemma {:induction false} SmallParts(args: seq<nat>, env: seq<nat>, aux: seq<nat>)
    requires |args| < U64 && AllSmall(args, 1) && AllSmall(env, 1) && AllSmall(aux, 0)
    ensures AllSmall(VectorOf(args, env, aux), 0)
  {
  }

  // Reading it back.

  lemma {:induction false} StringInBlob(m: Memory, strBase: nat, ss: seq<seq<nat>>, k: nat)
    requires k < |ss| && Inside(m, strBase, |Blob(ss)|) && Bytes(m, strBase, |Blob(ss)|) == Blob(ss)
    ensures var at, n := strBase + Off(ss, k), |ss[k]| + 1;
      at + n <= strBase + |Blob(ss)| && Inside(m, at, n) && Bytes(m, at, n) == ss[k] + [0]
  {
    BlobAt(ss, k);
    SliceOfBytes(m, strBase, |Blob(ss)|, Off(ss, k), |ss[k]| + 1);
  }

  lemma {:induction false} SliceOfBytes(m: Memory, at: nat, n: nat, o: nat, k: nat)
    requires Inside(m, at, n) && o + k <= n
    ensures Inside(m, at + o, k) && Bytes(m, at + o, k) == Bytes(m, at, n)[o..o + k]
  {
  }

  /** The parts of the vector, where a reader finds them. */
  lemma {:induction false} VectorParts(w: Reader, sp: nat, args: seq<nat>, env: seq<nat>, aux: seq<nat>)
    requires HoldsWords(w, sp, VectorOf(args, env, aux))
    ensures HoldsWords(w, sp, [|args|]) && HoldsWords(w, sp + 8, args + [0])
    ensures HoldsWords(w, sp + 8 * (|args| + 2), env + [0])
    ensures HoldsWords(w, sp + 8 * (|args| + 2) + 8 * |env| + 8, aux)
  {
    var head, tail := [|args|] + args + [0], env + [0] + aux;
    HoldsParts(w, sp, head, tail);
    assert head == [|args|] + (args + [0]);
    HoldsParts(w, sp, [|args|], args + [0]);
    HoldsParts(w, sp + 8 * (|args| + 2), env + [0], aux);
  }

  lemma {:induction false} FirstWord(r: Reader, at: nat, v: nat)
    requires HoldsWords(r, at, [v])
    ensures Reads(r, at, v)
  {
    assert HeldAt(r, at, [v], 0);
  }

  /** Word `k` of a list with a null after it. */
  lemma {:induction false} ListedWord(w: Reader, at: nat, ws: seq<nat>, k: nat)
    requires HoldsWords(w, at, ws + [0]) && k <= |ws|
    ensures Reads(w, at + 8 * k, if k < |ws| then ws[k] else 0)
  {
    assert HeldAt(w, at, ws + [0], k);
  }

  /** A pointer in memory at `slot` to the string `s` with its NUL, all below `top`. */
  ghost predicate Reaches(m: Memory, slot: nat, s: seq<nat>, top: nat) {
    && Word(m, slot).Some?
    && var at := Word(m, slot).value;
       at + |s| + 1 <= top && Inside(m, at, |s| + 1) && Bytes(m, at, |s| + 1) == s + [0]
  }

  /** A listed pointer reaches its string. */
  lemma {:induction false} ListReaches(
    m: Memory, at: nat, top: nat, ss: seq<seq<nat>>, strBase: nat, lo: nat, hi: nat, k: nat)
    requires lo <= hi <= |ss| && k <= hi - lo && HoldsWords(WordsOf(m), at, Pointers(ss, strBase, lo, hi) + [0])
    requires Inside(m, strBase, |Blob(ss)|) && Bytes(m, strBase, |Blob(ss)|) == Blob(ss) && strBase + |Blob(ss)| <= top
    ensures if k < hi - lo then Reaches(m, at + 8 * k, ss[lo + k], top) else Word(m, at + 8 * k) == Some(0)
  {
    ListedWord(WordsOf(m), at, Pointers(ss, strBase, lo, hi), k);
    if k < hi - lo { StringInBlob(m, strBase, ss, lo + k); }
  }

  /** Each argument pointer reaches its own NUL-terminated string; a null pointer ends the list. */
  lemma {:induction false} ArgIsReached(m: Memory, top: nat, st: Stack, k: nat)
    requires Standing(m, top, st) && k <= st.argc
    ensures Word(m, st.at.sp) == Some(st.argc)
    ensures if k < st.argc then Reaches(m, st.at.sp + 8 + 8 * k, st.strings[k], top)
            else Word(m, st.at.sp + 8 + 8 * k) == Some(0)
  {
    VectorParts(WordsOf(m), st.at.sp, st.Args(), st.Env(), Flat(st.aux));
    FirstWord(WordsOf(m), st.at.sp, st.argc);
    ListReaches(m, st.at.sp + 8, top, st.strings, st.at.strBase, 0, st.argc, k);
  }

  /** The same, where the arguments are the first of the strings. */
  lemma {:induction false} ArgOf(m: Memory, top: nat, st: Stack, argv: seq<seq<nat>>, envp: seq<seq<nat>>,
                                 last: seq<nat>, k: nat)
    requires Standing(m, top, st) && st.strings == argv + envp + [last] && st.argc == |argv| && k <= |argv|
    ensures Word(m, st.at.sp) == Some(|argv|)
    ensures if k < |argv| then Reaches(m, st.at.sp + 8 + 8 * k, argv[k], top)
            else Word(m, st.at.sp + 8 + 8 * k) == Some(0)
  {
    ArgIsReached(m, top, st, k);
    assert k < |argv| ==> st.strings[k] == argv[k];
  }

  lemma {:induction false} EnvIsHeld(m: Memory, top: nat, st: Stack)
    requires Standing(m, top, st)
    ensures HoldsWords(WordsOf(m), st.at.sp + 8 * (st.argc + 2),
                       Pointers(st.strings, st.at.strBase, st.argc, |st.strings| - 1) + [0])
  {
    VectorParts(WordsOf(m), st.at.sp, st.Args(), st.Env(), Flat(st.aux));
  }

  /** So does each environment pointer. */
  lemma {:induction false} EnvIsReached(m: Memory, top: nat, st: Stack, k: nat)
    requires Standing(m, top, st) && k <= |st.strings| - 1 - st.argc
    ensures var slot := st.at.sp + 8 * (st.argc + 2) + 8 * k;
      if k < |st.strings| - 1 - st.argc then Reaches(m, slot, st.strings[st.argc + k], top)
      else Word(m, slot) == Some(0)
  {
    EnvIsHeld(m, top, st);
    ListReaches(m, st.at.sp + 8 * (st.argc + 2), top, st.strings, st.at.strBase, st.argc, |st.strings| - 1, k);
  }

  lemma {:induction false} EnvOf(m: Memory, top: nat, st: Stack, argv: seq<seq<nat>>, envp: seq<seq<nat>>,
                                 last: seq<nat>, k: nat)
    requires Standing(m, top, st) && st.strings == argv + envp + [last] && st.argc == |argv| && k <= |envp|
    ensures var slot := st.at.sp + 8 * (|argv| + 2) + 8 * k;
      if k < |envp| then Reaches(m, slot, envp[k], top) else Word(m, slot) == Some(0)
  {
    EnvIsReached(m, top, st, k);
    assert k < |envp| ==> st.strings[|argv| + k] == envp[k];
  }

  // `read_auxv`.

  const SCAN_CAP: nat := 0x10_0000
  const PAIR_CAP: nat := 256

  /** From `at` past non-zero words, to `end` at most. */
  ghost function SkipWords(w: Reader, at: nat, end: nat): Option<nat>
    decreases end - at
  {
    if at >= end then Some(at)
    else if at !in w then None
    else if w[at] == 0 then Some(at)
    else SkipWords(w, at + 8, end)
  }

  /** Pairs through the one tagged zero, up to `end` at most. */
  ghost function Pairs(w: Reader, at: nat, end: nat): Option<seq<Aux>>
    decreases end - at
  {
    if at >= end then Some([])
    else if at !in w || at + 8 !in w then None
    else if w[at] == AT_NULL then Some([Aux(w[at], w[at + 8])])
    else match Pairs(w, at + 16, end)
      case None => None
      case Some(rest) => Some([Aux(w[at], w[at + 8])] + rest)
  }

  function Min(a: nat, b: nat): nat { if a < b then a else b }

  /** `None` where the stack cannot be walked. */
  ghost function ReadAuxv(m: Memory, sp: nat): Option<seq<Aux>> {
    ReadWords(WordsOf(m), sp)
  }

  ghost function ReadWords(w: Reader, sp: nat): Option<seq<Aux>> {
    if sp !in w then None
    else
      var start := sp + 8 * (Min(w[sp], SCAN_CAP) + 2);
      match SkipWords(w, start, start + 8 * SCAN_CAP)
      case None => None
      case Some(at) => Pairs(w, at + 8, at + 8 + 16 * PAIR_CAP)
  }

  lemma {:induction false} SkipsTo(w: Reader, at: nat, ws: seq<nat>, end: nat)
    requires HoldsWords(w, at, ws + [0]) && at + 8 * |ws| < end && AllSmall(ws, 1)
    ensures SkipWords(w, at, end) == Some(at + 8 * |ws|)
    decreases |ws|
  {
    assert HeldAt(w, at, ws + [0], 0);
    if ws != [] {
      assert ws + [0] == [ws[0]] + (ws[1..] + [0]);
      HoldsParts(w, at, [ws[0]], ws[1..] + [0]);
      SkipsTo(w, at + 8, ws[1..], end);
    }
  }

  /** Exactly the last pair is tagged zero. */
  predicate Terminated(aux: seq<Aux>) {
    aux != [] && if |aux| == 1 then aux[0].tag == AT_NULL else aux[0].tag != AT_NULL && Terminated(aux[1..])
  }

  lemma {:induction false} EndsInNull(aux: seq<Aux>)
    requires aux != [] && forall i :: 0 <= i < |aux| ==> (aux[i].tag == AT_NULL <==> i == |aux| - 1)
    ensures Terminated(aux)
    decreases |aux|
  {
    if |aux| > 1 { EndsInNull(aux[1..]); }
  }

  lemma {:induction false} OnlyTheLastIsNull(p: Process, l: Layout)
    ensures Terminated(StackFor(p, l).aux)
  {
    EndsInNull(Auxv(p, l.strBase, l.randomAddr));
  }

  lemma {:induction false} PairsReadBack(w: Reader, at: nat, aux: seq<Aux>, end: nat)
    requires HoldsWords(w, at, Flat(aux)) && at + 16 * |aux| <= end && Terminated(aux)
    ensures Pairs(w, at, end) == Some(aux)
    decreases |aux|
  {
    var first := [aux[0].tag, aux[0].val];
    HoldsParts(w, at, first, Flat(aux[1..]));
    assert HeldAt(w, at, first, 0) && HeldAt(w, at, first, 1);
    if |aux| > 1 {
      PairsReadBack(w, at + 16, aux[1..], end);
      assert [aux[0]] + aux[1..] == aux;
    } else {
      assert aux == [aux[0]];
    }
  }

  lemma {:induction false} ReadInStages(w: Reader, sp: nat, argc: nat, at: nat, aux: seq<Aux>)
    requires Reads(w, sp, argc) && argc <= SCAN_CAP
    requires var start := sp + 8 * (argc + 2); SkipWords(w, start, start + 8 * SCAN_CAP) == Some(at)
    requires Pairs(w, at + 8, at + 8 + 16 * PAIR_CAP) == Some(aux)
    ensures ReadWords(w, sp) == Some(aux)
  {
  }

  /** Reading undoes writing, for any vector within the caps. */
  lemma {:induction false} ReaderUndoesWriter(w: Reader, sp: nat, args: seq<nat>, env: seq<nat>, aux: seq<Aux>)
    requires HoldsWords(w, sp, VectorOf(args, env, Flat(aux))) && AllSmall(env, 1) && Terminated(aux)
    requires |args| <= SCAN_CAP && |env| < SCAN_CAP && |aux| <= PAIR_CAP
    ensures ReadWords(w, sp) == Some(aux)
  {
    var start := sp + 8 * (|args| + 2);
    var at := start + 8 * |env|;
    VectorParts(w, sp, args, env, Flat(aux));
    FirstWord(w, sp, |args|);
    SkipsTo(w, start, env, start + 8 * SCAN_CAP);
    PairsReadBack(w, at + 8, aux, at + 8 + 16 * PAIR_CAP);
    ReadInStages(w, sp, |args|, at, aux);
  }

  /**
   The reader returns exactly the pairs written: a stack of at most eight mebibytes never
   holds enough words to reach the caps on the scan.
   */
  lemma {:induction false} AuxvReadsBack(m: Memory, top: nat, st: Stack)
    requires Standing(m, top, st) && top < U64 && Terminated(st.aux) && |st.aux| <= PAIR_CAP
    requires top - st.at.sp <= 8 * 1024 * 1024
    ensures ReadAuxv(m, st.at.sp) == Some(st.aux)
  {
    PointersAreSmall(st.strings, st.at.strBase, top, st.argc, |st.strings| - 1);
    ReaderUndoesWriter(WordsOf(m), st.at.sp, st.Args(), st.Env(), st.aux);
  }

  // What the pairs say, by tag.

  /** There is such a pair; where tags differ, no other has its tag. */
  predicate Says(aux: seq<Aux>, tag: nat, val: nat) {
    Aux(tag, val) in aux
  }

  /** The string with its NUL is at `at`, below `top`. */
  ghost predicate StringAt(m: Memory, at: nat, s: seq<nat>, top: nat) {
    at + |s| + 1 <= top && Inside(m, at, |s| + 1) && Bytes(m, at, |s| + 1) == s + [0]
  }

  ghost predicate TagsDiffer(aux: seq<Aux>) {
    forall i, j :: 0 <= i < j < |aux| ==> aux[i].tag != aux[j].tag
  }

  /** The entries that are plain numbers, by the numbers the psABI and Linux give them. */
  ghost predicate Describes(aux: seq<Aux>, p: Process) {
    && |aux| == 20 && aux[19] == Aux(0, 0)
    && Says(aux, 3, p.phdr) && Says(aux, 4, 56) && Says(aux, 5, p.phnum) && Says(aux, 6, 4096)
    && Says(aux, 7, p.interpBase) && Says(aux, 8, 0) && Says(aux, 9, p.entry)
    && Says(aux, 11, 0) && Says(aux, 12, 0) && Says(aux, 13, 0) && Says(aux, 14, 0)
    && Says(aux, 17, 100) && Says(aux, 23, 0)
    && if p.machine == 62 then Says(aux, 33, p.vdso) && Says(aux, 16, 0x788_A179) && Says(aux, 26, 0)
       else Says(aux, 1, 0) && Says(aux, 16, 0x2FB3_FFFB) && Says(aux, 26, 0x6181)
  }

  ghost predicate LeadsTo(aux: seq<Aux>, randomAddr: nat, platform: nat, strBase: nat) {
    Says(aux, 25, randomAddr) && Says(aux, 15, platform) && Says(aux, 31, strBase)
  }

  /** The pairs in their order. */
  ghost predicate Rows(aux: seq<Aux>, p: Process, strBase: nat, randomAddr: nat, platform: nat) {
    && |aux| == 20 && aux[0] == (if p.machine == 62 then Aux(33, p.vdso) else Aux(1, 0))
    && aux[1] == Aux(3, p.phdr) && aux[2] == Aux(4, 56) && aux[3] == Aux(5, p.phnum) && aux[4] == Aux(6, 4096)
    && aux[5] == Aux(7, p.interpBase) && aux[6] == Aux(8, 0) && aux[7] == Aux(9, p.entry)
    && aux[8] == Aux(11, 0) && aux[9] == Aux(12, 0) && aux[10] == Aux(13, 0) && aux[11] == Aux(14, 0)
    && aux[12] == Aux(16, if p.machine == 62 then 0x788_A179 else 0x2FB3_FFFB)
    && aux[13] == Aux(26, if p.machine == 62 then 0 else 0x6181) && aux[14] == Aux(17, 100) && aux[15] == Aux(23, 0)
    && aux[16] == Aux(25, randomAddr) && aux[17] == Aux(15, platform) && aux[18] == Aux(31, strBase)
    && aux[19] == Aux(0, 0)
  }

  lemma {:induction false} AuxvRows(p: Process, strBase: nat, randomAddr: nat, platform: nat)
    ensures Rows(AuxvAt(p, strBase, randomAddr, platform), p, strBase, randomAddr, platform)
  {
  }

  lemma {:induction false} RowsDescribe(aux: seq<Aux>, p: Process, strBase: nat, randomAddr: nat, platform: nat)
    requires Rows(aux, p, strBase, randomAddr, platform)
    ensures Describes(aux, p) && LeadsTo(aux, randomAddr, platform, strBase)
  {
    assert forall i :: 0 <= i < |aux| ==> aux[i] in aux;
  }

  lemma {:induction false} RowsDiffer(aux: seq<Aux>, p: Process, strBase: nat, randomAddr: nat, platform: nat)
    requires Rows(aux, p, strBase, randomAddr, platform)
    ensures TagsDiffer(aux)
  {
  }
}
