/**
 Guest memory changed in place, the loader that builds the initial stack in it with a
 moving cursor, and the loop that reads the auxiliary vector back.
 */
module StackObject {
  import opened Options
  import opened StackModel
  import opened StackLayout

  /** The pages a run of bytes lies in, first and last. */
  function FirstPage(base: nat, a: nat): nat
    requires base <= a
  {
    (a - base) / PAGE_SIZE
  }

  /** Bytes are mapped exactly when all the pages they lie in are. */
  lemma {:induction false} PagesCover(m: Memory, a: nat, n: nat)
    requires Inside(m, a, n) && n > 0
    ensures Mapped(m, a, n) <==>
      forall p :: FirstPage(m.base, a) <= p <= FirstPage(m.base, a + n - 1) ==> p in m.pages
  {
    var first, last := FirstPage(m.base, a), FirstPage(m.base, a + n - 1);
    if Mapped(m, a, n) {
      forall p | first <= p <= last ensures p in m.pages {
        var i := if p == first then a else m.base + p * PAGE_SIZE;
        InPage(m.base, a, n, p);
        assert MappedAt(m, i);
      }
    }
    if forall p :: first <= p <= last ==> p in m.pages {
      forall i | a <= i < a + n ensures MappedAt(m, i) {
        assert first <= FirstPage(m.base, i) <= last;
      }
    }
  }

  /** Every page between the first and the last has a byte of the run. */
  lemma {:induction false} InPage(base: nat, a: nat, n: nat, p: nat)
    requires base <= a && n > 0 && FirstPage(base, a) <= p <= FirstPage(base, a + n - 1)
    ensures var i := if p == FirstPage(base, a) then a else base + p * PAGE_SIZE;
      a <= i < a + n && FirstPage(base, i) == p
  {
  }

  /** A run of whole pages has the bytes of those pages. */
  lemma {:induction false} PagesOfRun(base: nat, start: nat, end: nat, i: nat)
    requires base <= start < end && base <= i
    requires base % PAGE_SIZE == 0 && start % PAGE_SIZE == 0 && end % PAGE_SIZE == 0
    ensures FirstPage(base, start) <= FirstPage(base, i) <= FirstPage(base, end - 1) <==> start <= i < end
  {
  }

  lemma {:induction false} MappedMore(was: Memory, now: Memory, start: nat, end: nat)
    requires now.base == was.base <= start < end <= was.base + |was.bytes| && |now.bytes| == |was.bytes|
    requires was.base % PAGE_SIZE == 0 && start % PAGE_SIZE == 0 && end % PAGE_SIZE == 0
    requires forall q: nat :: q in now.pages <==>
               q in was.pages || FirstPage(was.base, start) <= q <= FirstPage(was.base, end - 1)
    ensures forall i: nat :: MappedAt(now, i) <==> MappedAt(was, i) || start <= i < end
  {
    forall i: nat ensures MappedAt(now, i) <==> MappedAt(was, i) || start <= i < end {
      if was.base <= i { PagesOfRun(was.base, start, end, i); }
    }
  }

  class GuestMemory {
    const base: nat
    var pages: set<nat>
    var bytes: seq<nat>

    function State(): Memory
      reads this
    {
      Memory(base, pages, bytes)
    }

    constructor (base: nat, bytes: seq<nat>)
      ensures State() == Memory(base, {}, bytes)
    {
      this.base, this.pages, this.bytes := base, {}, bytes;
    }

    /** Whether all pages of a run are mapped. */
    method Check(a: nat, n: nat) returns (ok: bool)
      requires n > 0
      ensures ok == Mapped(State(), a, n)
    {
      if a < base || a + n > base + |bytes| { return false; }
      PagesCover(State(), a, n);
      var first, last := FirstPage(base, a), FirstPage(base, a + n - 1);
      var p := first;
      while p <= last
        invariant first <= p <= last + 1
        invariant forall q :: first <= q < p ==> q in pages
      {
        if p !in pages { return false; }
        p := p + 1;
      }
      return true;
    }

    /** Map the pages of a run afresh: they read as zero. */
    method Map(a: nat, n: nat) returns (ok: bool)
      requires n > 0 && base % PAGE_SIZE == 0
      modifies this
      ensures |bytes| == |old(bytes)|
      ensures ok <==> base <= a - a % PAGE_SIZE && RoundUp(a + n) <= base + |bytes|
      ensures ok ==> forall i: nat ::
                MappedAt(State(), i) <==> MappedAt(old(State()), i) || a - a % PAGE_SIZE <= i < RoundUp(a + n)
      ensures ok ==> forall i :: 0 <= i < |bytes| ==>
        bytes[i] == if a - a % PAGE_SIZE <= base + i < RoundUp(a + n) then 0 else old(bytes)[i]
      ensures !ok ==> State() == old(State())
    {
      var start, end := a - a % PAGE_SIZE, RoundUp(a + n);
      if start < base || end > base + |bytes| { return false; }
      MarkPages(FirstPage(base, start), FirstPage(base, end - 1));
      bytes := bytes[..start - base] + seq(end - start, _ => 0) + bytes[end - base..];
      MappedMore(old(State()), State(), start, end);
      return true;
    }

    method MarkPages(first: nat, last: nat)
      requires first <= last
      modifies this`pages
      ensures forall q: nat :: q in pages <==> q in old(pages) || first <= q <= last
    {
      var p := first;
      while p <= last
        invariant first <= p <= last + 1
        invariant forall q: nat :: q in pages <==> q in old(pages) || first <= q < p
      {
        pages := pages + {p};
        p := p + 1;
      }
    }

    method WriteInit(a: nat, buf: seq<nat>) returns (ok: bool)
      requires buf != []
      modifies this`bytes
      ensures ok == Mapped(old(State()), a, |buf|)
      ensures State() == if ok then Put(old(State()), a, buf) else old(State())
    {
      ok := Check(a, |buf|);
      if ok {
        var o := a - base;
        bytes := bytes[..o] + buf + bytes[o + |buf|..];
      }
    }

    method ReadWord(a: nat) returns (w: Option<nat>)
      ensures w == Word(State(), a)
    {
      var ok := Check(a, 8);
      TwoPages(State(), a);
      if !ok { return None; }
      return Some(FromLe(bytes[a - base..a - base + 8]));
    }

    ghost predicate Shows(w: Reader)
      reads this
    {
      forall a: nat {:trigger Word(State(), a)} :: Word(State(), a) == if a in w then Some(w[a]) else None
    }

    lemma ShowsItsWords()
      ensures Shows(WordsOf(State()))
    {
    }

    /** A word, as the map `w` of all words has it. */
    method Fetch(a: nat, ghost w: Reader) returns (v: Option<nat>)
      requires Shows(w)
      ensures v == if a in w then Some(w[a]) else None
    {
      v := ReadWord(a);
    }

    /** Write words with a moving cursor; stop at the first that fails. */
    method PushAll(at: nat, ws: seq<nat>) returns (ok: bool)
      modifies this`bytes
      ensures |bytes| == |old(bytes)|
      ensures ok == (forall k :: 0 <= k < |ws| ==> Mapped(old(State()), at + 8 * k, 8))
      ensures ok && ws != [] ==> Inside(old(State()), at, 8 * |ws|) && State() == Put(old(State()), at, Encoded(ws))
    {
      var cur := at;
      for k := 0 to |ws|
        invariant cur == at + 8 * k && |bytes| == |old(bytes)|
        invariant forall j :: 0 <= j < k ==> Mapped(old(State()), at + 8 * j, 8)
        invariant k > 0 ==> Inside(old(State()), at, 8 * k) && State() == Put(old(State()), at, Encoded(ws[..k]))
        invariant k == 0 ==> State() == old(State())
      {
        ghost var before := State();
        SamePages(old(State()), before, cur);
        var done := WriteInit(cur, LeWord(ws[k]));
        if !done { return false; }
        assert ws[..k + 1][..k] == ws[..k];
        if k > 0 {
          PutTwice(old(State()), at, Encoded(ws[..k]), LeWord(ws[k]));
        } else {
          assert Encoded(ws[..0]) + LeWord(ws[0]) == LeWord(ws[0]);
        }
        cur := cur + 8;
      }
      assert ws[..|ws|] == ws;
      return true;
    }
  }

  function RoundUp(x: nat): (r: nat)
    ensures x <= r < x + PAGE_SIZE && r % PAGE_SIZE == 0
  {
    (x + PAGE_SIZE - 1) - (x + PAGE_SIZE - 1) % PAGE_SIZE
  }

  /** A word lies in the pages of its first and last byte. */
  lemma {:induction false} TwoPages(m: Memory, a: nat)
    ensures Mapped(m, a, 8) <==> Inside(m, a, 8) && MappedAt(m, a) && MappedAt(m, a + 7)
  {
    if Inside(m, a, 8) { PagesCover(m, a, 8); }
  }

  /** Writing does not change what is mapped. */
  lemma {:induction false} SamePages(m: Memory, n: Memory, a: nat)
    requires m.base == n.base && m.pages == n.pages && |m.bytes| == |n.bytes|
    ensures Mapped(m, a, 8) <==> Mapped(n, a, 8)
  {
    if Mapped(m, a, 8) {
      forall i | a <= i < a + 8 ensures MappedAt(n, i) { assert MappedAt(m, i); }
    }
    if Mapped(n, a, 8) {
      forall i | a <= i < a + 8 ensures MappedAt(m, i) { assert MappedAt(n, i); }
    }
  }

  // Building.

  lemma {:induction false} BlobNext(ss: seq<seq<nat>>, k: nat)
    requires k < |ss|
    ensures Blob(ss[..k + 1]) == Blob(ss[..k]) + ss[k] + [0]
  {
    assert ss[..k + 1][..k] == ss[..k];
  }

  /** Append the strings of `ss` from number `lo` on to a blob of those before, noting where each starts. */
  method AppendStrings(blob: seq<nat>, ss: seq<seq<nat>>, lo: nat, hi: nat) returns (out: seq<nat>, offs: seq<nat>)
    requires lo <= hi <= |ss| && blob == Blob(ss[..lo])
    ensures out == Blob(ss[..hi]) && |offs| == hi - lo
    ensures forall k :: 0 <= k < |offs| ==> offs[k] == Off(ss, lo + k)
  {
    out, offs := blob, [];
    for k := lo to hi
      invariant out == Blob(ss[..k]) && |offs| == k - lo
      invariant forall j :: 0 <= j < |offs| ==> offs[j] == Off(ss, lo + j)
    {
      BlobNext(ss, k);
      offs := offs + [|out|];
      out := out + ss[k] + [0];
    }
  }

  datatype Outcome = Built(at: Layout) | NoFit | Unwritable | Underflow

  /** Offsets turned into pointers. */
  method PointersFrom(strBase: nat, offs: seq<nat>, ghost ss: seq<seq<nat>>, ghost lo: nat) returns (ps: seq<nat>)
    requires lo + |offs| <= |ss| && forall k :: 0 <= k < |offs| ==> offs[k] == Off(ss, lo + k)
    ensures ps == Pointers(ss, strBase, lo, lo + |offs|)
  {
    ps := [];
    for k := 0 to |offs|
      invariant ps == Pointers(ss, strBase, lo, lo + k)
    {
      ps := ps + [strBase + offs[k]];
    }
  }

  /** The string blob of a process, and where its strings start. */
  method BuildBlob(p: Process) returns (blob: seq<nat>, argOff: seq<nat>, envOff: seq<nat>, platformOff: nat)
    ensures blob == Blob(Strings(p)) && platformOff == Off(Strings(p), |p.argv| + |p.envp|)
    ensures |argOff| == |p.argv| && forall k :: 0 <= k < |p.argv| ==> argOff[k] == Off(Strings(p), 0 + k)
    ensures |envOff| == |p.envp| && forall k :: 0 <= k < |p.envp| ==> envOff[k] == Off(Strings(p), |p.argv| + k)
  {
    var ss, n := Strings(p), |p.argv| + |p.envp|;
    blob, argOff := AppendStrings([], ss, 0, |p.argv|);
    blob, envOff := AppendStrings(blob, ss, |p.argv|, n);
    platformOff := |blob|;
    BlobNext(ss, n);
    assert ss[..n + 1] == ss;
    blob := blob + PlatformName(p.machine) + [0];
  }

  /** Memory with the three parts of a stack written, strings first. */
  ghost function Written(m: Memory, st: Stack, random: seq<nat>): Memory
    requires st.Formed() && Inside(m, st.at.strBase, |Blob(st.strings)|) && Inside(m, st.at.randomAddr, |random|)
    requires Inside(m, st.at.sp, 8 * |st.Words()|)
  {
    var a := Put(m, st.at.strBase, Blob(st.strings));
    var b := Put(a, st.at.randomAddr, random);
    Put(b, st.at.sp, Encoded(st.Words()))
  }

  /** The last of three writes leaves the first two alone, and they each other. */
  lemma {:induction false} ThreeWrites(m: Memory, a: nat, x: seq<nat>, b: nat, y: seq<nat>, c: nat, z: seq<nat>)
    requires Inside(m, a, |x|) && Inside(m, b, |y|) && Inside(m, c, |z|)
    requires c + |z| <= b && b + |y| <= a
    ensures var after := Put(Put(Put(m, a, x), b, y), c, z);
      && Inside(after, a, |x|) && Bytes(after, a, |x|) == x
      && Inside(after, b, |y|) && Bytes(after, b, |y|) == y
      && Inside(after, c, |z|) && Bytes(after, c, |z|) == z
  {
    var one := Put(m, a, x);
    var two := Put(one, b, y);
    PutReads(m, a, x, a, |x|);
    PutReads(one, b, y, a, |x|);
    PutReads(two, c, z, a, |x|);
    PutReads(one, b, y, b, |y|);
    PutReads(two, c, z, b, |y|);
    PutReads(two, c, z, c, |z|);
  }

  /** No part overwrites another. */
  lemma {:induction false} PartsSurvive(m: Memory, top: nat, st: Stack, random: seq<nat>)
    requires Apart(st, top) && |random| == 16 && Inside(m, st.at.sp, top - st.at.sp)
    ensures var after := Written(m, st, random);
      && Bytes(after, st.at.strBase, |Blob(st.strings)|) == Blob(st.strings)
      && Bytes(after, st.at.randomAddr, 16) == random
      && Bytes(after, st.at.sp, 8 * |st.Words()|) == Encoded(st.Words())
  {
    ThreeWrites(m, st.at.strBase, Blob(st.strings), st.at.randomAddr, random, st.at.sp, Encoded(st.Words()));
  }

  lemma {:induction false} StackStands(m: Memory, top: nat, st: Stack, random: seq<nat>)
    requires Apart(st, top) && top < U64 && |random| == 16 && Inside(m, st.at.sp, top - st.at.sp)
    requires forall k :: 0 <= k < |st.Words()| ==> Mapped(m, st.at.sp + 8 * k, 8)
    requires AuxSmall(st.aux)
    ensures Standing(Written(m, st, random), top, st)
    ensures Bytes(Written(m, st, random), st.at.randomAddr, 16) == random
  {
    var after := Written(m, st, random);
    PartsSurvive(m, top, st, random);
    WordsAreSmall(st, top);
    forall k | 0 <= k < |st.Words()| ensures Mapped(after, st.at.sp + 8 * k, 8) {
      SamePages(m, after, st.at.sp + 8 * k);
    }
    RunIsMapped(after, st.at.sp, |st.Words()|);
    HoldsEncoded(after, st.at.sp, st.Words());
  }

  /** Word by word mapped is mapped. */
  lemma {:induction false} RunIsMapped(m: Memory, a: nat, n: nat)
    requires Inside(m, a, 8 * n) && forall k :: 0 <= k < n ==> Mapped(m, a + 8 * k, 8)
    ensures Mapped(m, a, 8 * n)
  {
    forall i | a <= i < a + 8 * n ensures MappedAt(m, i) {
      var k := (i - a) / 8;
      assert Mapped(m, a + 8 * k, 8);
    }
  }

  lemma {:induction false} PlaceIsApart(p: Process, top: nat, l: Layout)
    requires PlaceOf(p, top) == Some(l)
    ensures Apart(StackFor(p, l), top)
  {
  }

  /** The three runs a stack is written in can be. */
  ghost predicate Writable(m: Memory, st: Stack)
    requires st.Formed()
  {
    && Mapped(m, st.at.strBase, |Blob(st.strings)|) && Mapped(m, st.at.randomAddr, 16)
    && Mapped(m, st.at.sp, 8 * |st.Words()|)
  }

  /** Strings, random bytes, vector. */
  method WriteParts(mem: GuestMemory, l: Layout, blob: seq<nat>, random: seq<nat>, words: seq<nat>,
                    ghost st: Stack, ghost top: nat) returns (ok: bool)
    requires Apart(st, top) && st.at == l && blob == Blob(st.strings) && words == st.Words()
    requires |random| == 16 && top == mem.base + |mem.bytes|
    modifies mem`bytes
    ensures |mem.bytes| == |old(mem.bytes)|
    ensures ok ==> Inside(old(mem.State()), l.sp, top - l.sp) && mem.State() == Written(old(mem.State()), st, random)
    ensures ok ==> forall k :: 0 <= k < |words| ==> Mapped(old(mem.State()), l.sp + 8 * k, 8)
    ensures ok <==> Writable(old(mem.State()), st)
  {
    ghost var was := mem.State();
    BlobIsNotEmpty(st.strings);
    WordRuns(was, l.sp, 8 * |words|, |words|);
    ok := mem.WriteInit(l.strBase, blob);
    if !ok { return; }
    MappedAlike(was, mem.State());
    ok := mem.WriteInit(l.randomAddr, random);
    if !ok { return; }
    MappedAlike(was, mem.State());
    ok := mem.PushAll(l.sp, words);
    if ok { RunIsMapped(was, l.sp, |words|); }
  }

  lemma {:induction false} WordRuns(m: Memory, a: nat, n: nat, words: nat)
    requires 8 * words <= n
    ensures Mapped(m, a, n) ==> forall k :: 0 <= k < words ==> Mapped(m, a + 8 * k, 8)
  {
    forall k | 0 <= k < words ensures Mapped(m, a, n) ==> Mapped(m, a + 8 * k, 8) {
      SubRun(m, a, n, a + 8 * k, 8);
    }
  }

  method WriteStack(mem: GuestMemory, l: Layout, blob: seq<nat>, random: seq<nat>, words: seq<nat>,
                    ghost st: Stack, ghost top: nat) returns (ok: bool)
    requires Apart(st, top) && st.at == l && blob == Blob(st.strings) && words == st.Words() && AuxSmall(st.aux)
    requires |random| == 16 && top == mem.base + |mem.bytes| < U64
    modifies mem`bytes
    ensures |mem.bytes| == |old(mem.bytes)|
    ensures ok ==> Standing(mem.State(), top, st)
    ensures ok ==> Inside(mem.State(), l.randomAddr, 16) && Bytes(mem.State(), l.randomAddr, 16) == random
    ensures ok <==> Writable(old(mem.State()), st)
  {
    ghost var was := mem.State();
    ok := WriteParts(mem, l, blob, random, words, st, top);
    if ok { StackStands(was, top, st, random); }
  }

  /** Part of a run: mapped if the run is. */
  lemma {:induction false} SubRun(m: Memory, a: nat, n: nat, b: nat, k: nat)
    requires a <= b && b + k <= a + n
    ensures Mapped(m, a, n) ==> Mapped(m, b, k)
  {
  }

  lemma {:induction false} MappedAlike(m: Memory, n: Memory)
    requires m.base == n.base && m.pages == n.pages && |m.bytes| == |n.bytes|
    ensures forall a: nat, k: nat :: Mapped(m, a, k) <==> Mapped(n, a, k)
  {
    assert forall i: nat :: MappedAt(m, i) <==> MappedAt(n, i);
  }

  lemma {:induction false} BlobIsNotEmpty(ss: seq<seq<nat>>)
    requires ss != []
    ensures Blob(ss) != []
  {
  }

  /** The stack of `p` stands at `l`, random bytes included. */
  ghost predicate Holds(m: Memory, top: nat, p: Process, l: Layout) {
    && PlaceOf(p, top) == Some(l) && Standing(m, top, StackFor(p, l))
    && Inside(m, l.randomAddr, 16) && Bytes(m, l.randomAddr, 16) == p.random
  }

  lemma {:induction false} WordsOfStack(p: Process, l: Layout, args: seq<nat>, env: seq<nat>, aux: seq<Aux>)
    requires args == Pointers(Strings(p), l.strBase, 0, |p.argv|)
    requires env == Pointers(Strings(p), l.strBase, |p.argv|, |p.argv| + |p.envp|)
    requires aux == Auxv(p, l.strBase, l.randomAddr)
    ensures VectorOf(args, env, Flat(aux)) == StackFor(p, l).Words()
  {
    var st := StackFor(p, l);
    assert st.Args() == args && st.Env() == env && st.aux == aux;
  }

  lemma {:induction false} AuxvIsThere(p: Process, l: Layout, platformOff: nat)
    requires platformOff == Off(Strings(p), |p.argv| + |p.envp|)
    ensures AuxvAt(p, l.strBase, l.randomAddr, l.strBase + platformOff) == Auxv(p, l.strBase, l.randomAddr)
  {
  }

  method BuildVector(p: Process, l: Layout, argOff: seq<nat>, envOff: seq<nat>, platformOff: nat)
    returns (words: seq<nat>)
    requires platformOff == Off(Strings(p), |p.argv| + |p.envp|)
    requires |argOff| == |p.argv| && forall k :: 0 <= k < |p.argv| ==> argOff[k] == Off(Strings(p), 0 + k)
    requires |envOff| == |p.envp| && forall k :: 0 <= k < |p.envp| ==> envOff[k] == Off(Strings(p), |p.argv| + k)
    ensures words == StackFor(p, l).Words()
  {
    var args := PointersFrom(l.strBase, argOff, Strings(p), 0);
    var env := PointersFrom(l.strBase, envOff, Strings(p), |p.argv|);
    var aux := AuxvAt(p, l.strBase, l.randomAddr, l.strBase + platformOff);
    AuxvIsThere(p, l, platformOff);
    WordsOfStack(p, l, args, env, aux);
    words := VectorOf(args, env, Flat(aux));
  }

  /** Everything after the layout is known to fit. */
  method Fill(mem: GuestMemory, p: Process, l: Layout, blob: seq<nat>, argOff: seq<nat>, envOff: seq<nat>,
              platformOff: nat, ghost top: nat) returns (ok: bool)
    requires Sane(p) && top == mem.base + |mem.bytes| < U64 && PlaceOf(p, top) == Some(l)
    requires blob == Blob(Strings(p)) && platformOff == Off(Strings(p), |p.argv| + |p.envp|)
    requires |argOff| == |p.argv| && forall k :: 0 <= k < |p.argv| ==> argOff[k] == Off(Strings(p), 0 + k)
    requires |envOff| == |p.envp| && forall k :: 0 <= k < |p.envp| ==> envOff[k] == Off(Strings(p), |p.argv| + k)
    modifies mem`bytes
    ensures |mem.bytes| == |old(mem.bytes)|
    ensures ok ==> Holds(mem.State(), top, p, l)
    ensures ok <==> Writable(old(mem.State()), StackFor(p, l))
  {
    var words := BuildVector(p, l, argOff, envOff, platformOff);
    PlaceIsApart(p, top, l);
    AuxvIsSmall(p, top, l);
    ok := WriteStack(mem, l, blob, p.random, words, StackFor(p, l), top);
  }

  /** Bytes that are mapped once the window below `top` is. */
  ghost predicate InReach(m: Memory, top: nat, a: nat, n: nat) {
    Inside(m, a, n) && forall i: nat :: a <= i < a + n ==> MappedAt(m, i) || top - INITIAL_STACK_MAP <= i < top
  }

  ghost predicate StackInReach(m: Memory, top: nat, st: Stack)
    requires st.Formed()
  {
    && InReach(m, top, st.at.strBase, |Blob(st.strings)|) && InReach(m, top, st.at.randomAddr, 16)
    && InReach(m, top, st.at.sp, 8 * |st.Words()|)
  }

  /** What `build_stack` answers once the window is mapped, with `size` bytes reserved. */
  ghost function PlaceOutcome(m: Memory, top: nat, size: nat, p: Process): Outcome {
    match PlaceOf(p, top)
    case None => Underflow
    case Some(l) =>
      if top - l.sp > size then NoFit
      else if StackInReach(m, top, StackFor(p, l)) then Built(l) else Unwritable
  }

  /** The window can be mapped in memory of `size` bytes up to `top`. */
  predicate WindowMaps(top: nat, size: nat) {
    top % PAGE_SIZE == 0 && INITIAL_STACK_MAP <= size
  }

  ghost function OutcomeBelow(m: Memory, top: nat, size: nat, p: Process): Outcome {
    if top < size then Underflow
    else if !WindowMaps(top, |m.bytes|) then Unwritable
    else PlaceOutcome(m, top, size, p)
  }

  /** What it answers, by the memory it is given. */
  ghost function OutcomeOf(m: Memory, p: Process): Outcome {
    OutcomeBelow(m, m.base + |m.bytes|, StackSize(|m.bytes|), p)
  }

  predicate InWindow(p: Process, top: nat) {
    PlaceOf(p, top).Some? && top - PlaceOf(p, top).value.sp <= INITIAL_STACK_MAP
  }

  /** Whether everything fits the window that is mapped up front. */
  predicate FitsWindow(p: Process, base: nat, size: nat) {
    WindowMaps(base + size, size) && StackSize(size) <= base + size && InWindow(p, base + size)
  }

  lemma {:induction false} RunInWindow(m: Memory, top: nat, a: nat, n: nat)
    requires top == m.base + |m.bytes| && INITIAL_STACK_MAP <= |m.bytes| && top - INITIAL_STACK_MAP <= a && a + n <= top
    ensures InReach(m, top, a, n)
  {
  }

  lemma {:induction false} PlacedInWindow(m: Memory, top: nat, p: Process, l: Layout)
    requires top == m.base + |m.bytes| && INITIAL_STACK_MAP <= |m.bytes| && PlaceOf(p, top) == Some(l)
    requires top - l.sp <= INITIAL_STACK_MAP
    ensures StackInReach(m, top, StackFor(p, l))
  {
    var st := StackFor(p, l);
    PlaceIsApart(p, top, l);
    RunInWindow(m, top, l.strBase, |Blob(st.strings)|);
    RunInWindow(m, top, l.randomAddr, 16);
    RunInWindow(m, top, l.sp, 8 * |st.Words()|);
  }

  lemma {:induction false} OnlyInWindow(m: Memory, top: nat, p: Process, l: Layout)
    requires m.pages == {} && StackInReach(m, top, StackFor(p, l))
    ensures top - l.sp <= INITIAL_STACK_MAP
  {
    HasWords(p, l);
    assert !MappedAt(m, l.sp);
  }

  lemma {:induction false} HasWords(p: Process, l: Layout)
    ensures |StackFor(p, l).Words()| > 0
  {
  }

  /**
   What fits the window is built, whatever else is mapped. Where nothing is, that is also
   needed: a stack the reservation has room for fails if the window does not hold it.
   */
  lemma {:induction false} WindowDecides(m: Memory, p: Process)
    ensures FitsWindow(p, m.base, |m.bytes|) ==> OutcomeOf(m, p).Built?
    ensures m.pages == {} && OutcomeOf(m, p).Built? ==> FitsWindow(p, m.base, |m.bytes|)
  {
    BelowDecides(m, m.base + |m.bytes|, StackSize(|m.bytes|), p);
  }

  /** It does happen: one argument longer than the window, in a memory of 64 mebibytes. */
  lemma {:induction false} LongArgumentFails(p: Process, bytes: seq<nat>)
    requires |p.argv| == 1 && |p.argv[0]| == 300 * 1024 && p.envp == [] && |bytes| == 64 * 1024 * 1024
    ensures OutcomeOf(Memory(0, {}, bytes), p) == Unwritable
  {
    var m := Memory(0, {}, bytes);
    BlobOfTwo(p.argv[0], PlatformName(p.machine));
    assert Strings(p) == [p.argv[0], PlatformName(p.machine)];
    assert StackSize(|bytes|) == 8 * 1024 * 1024;
    WindowDecides(m, p);
  }

  lemma {:induction false} BlobOfTwo(a: seq<nat>, b: seq<nat>)
    ensures |Blob([a, b])| == |a| + |b| + 2
  {
    assert [a, b][..1] == [a] && [a][..0] == [];
    assert Blob([a]) == Blob([]) + a + [0];
  }

  lemma {:induction false} BelowDecides(m: Memory, top: nat, size: nat, p: Process)
    requires top == m.base + |m.bytes| && INITIAL_STACK_MAP <= size
    ensures size <= top && WindowMaps(top, |m.bytes|) && InWindow(p, top) ==> OutcomeBelow(m, top, size, p).Built?
    ensures m.pages == {} && OutcomeBelow(m, top, size, p).Built? ==>
              size <= top && WindowMaps(top, |m.bytes|) && InWindow(p, top)
  {
    if WindowMaps(top, |m.bytes|) && PlaceOf(p, top).Some? {
      var l := PlaceOf(p, top).value;
      if top - l.sp <= INITIAL_STACK_MAP { PlacedInWindow(m, top, p, l); }
      if m.pages == {} && StackInReach(m, top, StackFor(p, l)) { OnlyInWindow(m, top, p, l); }
    }
  }

  /** The strings, the layout and the writes. */
  method PlaceStack(mem: GuestMemory, p: Process, top: nat, size: nat) returns (r: Outcome)
    requires Sane(p) && top == mem.base + |mem.bytes| < U64 && size <= top
    modifies mem`bytes
    ensures |mem.bytes| == |old(mem.bytes)| && (r.Built? ==> Holds(mem.State(), top, p, r.at))
    ensures r == match PlaceOf(p, top)
                 case None => Underflow
                 case Some(l) =>
                   if top - l.sp > size then NoFit
                   else if Writable(old(mem.State()), StackFor(p, l)) then Built(l) else Unwritable
  {
    var blob, argOff, envOff, platformOff := BuildBlob(p);
    var l := LayoutOf(top, |blob|, 2 + (|p.argv| + |p.envp| + 1) + 40);
    assert l == PlaceOf(p, top);
    if l.None? { return Underflow; }
    if l.value.sp < top - size { return NoFit; }
    var ok := Fill(mem, p, l.value, blob, argOff, envOff, platformOff, top);
    return if ok then Built(l.value) else Unwritable;
  }

  /** The part of the stack that is mapped up front. */
  method MapWindow(mem: GuestMemory, top: nat) returns (ok: bool)
    requires top == mem.base + |mem.bytes| && INITIAL_STACK_MAP <= top && mem.base % PAGE_SIZE == 0
    modifies mem
    ensures |mem.bytes| == |old(mem.bytes)|
    ensures ok ==> forall i: nat ::
              MappedAt(mem.State(), i) <==> MappedAt(old(mem.State()), i) || top - INITIAL_STACK_MAP <= i < top
    ensures ok <==> WindowMaps(top, |mem.bytes|)
  {
    ok := mem.Map(top - INITIAL_STACK_MAP, INITIAL_STACK_MAP);
  }

  /** Build the initial stack at the top of memory. */
  method BuildStack(mem: GuestMemory, p: Process) returns (r: Outcome)
    requires Sane(p) && mem.base % PAGE_SIZE == 0 && mem.base + |mem.bytes| < U64
    modifies mem
    ensures |mem.bytes| == |old(mem.bytes)| && r == OutcomeOf(old(mem.State()), p)
    ensures r.Built? ==> Holds(mem.State(), mem.base + |old(mem.bytes)|, p, r.at)
  {
    r := BuildBelow(mem, p, mem.base + |mem.bytes|, StackSize(|mem.bytes|));
  }

  method BuildBelow(mem: GuestMemory, p: Process, top: nat, size: nat) returns (r: Outcome)
    requires Sane(p) && mem.base % PAGE_SIZE == 0 && top == mem.base + |mem.bytes| < U64
    requires INITIAL_STACK_MAP <= size
    modifies mem
    ensures |mem.bytes| == |old(mem.bytes)| && (r.Built? ==> Holds(mem.State(), top, p, r.at))
    ensures r == OutcomeBelow(old(mem.State()), top, size, p)
  {
    if top < size { return Underflow; }
    ghost var was := mem.State();
    var mapped := MapWindow(mem, top);
    if !mapped { return Unwritable; }
    WindowMakesWritable(was, mem.State(), p, top);
    r := PlaceStack(mem, p, top, size);
  }

  lemma {:induction false} WindowMakesWritable(was: Memory, m: Memory, p: Process, top: nat)
    requires m.base == was.base && |m.bytes| == |was.bytes|
    requires forall i: nat :: MappedAt(m, i) <==> MappedAt(was, i) || top - INITIAL_STACK_MAP <= i < top
    ensures PlaceOf(p, top).Some? ==>
              var st := StackFor(p, PlaceOf(p, top).value);
              Writable(m, st) <==> StackInReach(was, top, st)
  {
    if PlaceOf(p, top).Some? {
      var st := StackFor(p, PlaceOf(p, top).value);
      RunInReach(was, m, top, st.at.strBase, |Blob(st.strings)|);
      RunInReach(was, m, top, st.at.randomAddr, 16);
      RunInReach(was, m, top, st.at.sp, 8 * |st.Words()|);
    }
  }

  lemma {:induction false} RunInReach(was: Memory, m: Memory, top: nat, a: nat, n: nat)
    requires m.base == was.base && |m.bytes| == |was.bytes|
    requires forall i: nat :: MappedAt(m, i) <==> MappedAt(was, i) || top - INITIAL_STACK_MAP <= i < top
    ensures Mapped(m, a, n) <==> InReach(was, top, a, n)
  {
  }

  /** What a stack that was built answers to its reader: every pointer, and the twenty pairs. */
  lemma {:induction false} BuiltReadsBack(m: Memory, top: nat, p: Process, l: Layout)
    requires Sane(p) && top < U64 && Holds(m, top, p, l) && top - l.sp <= 8 * 1024 * 1024
    ensures l.sp % 16 == 0 && Word(m, l.sp) == Some(|p.argv|)
    ensures ReadAuxv(m, l.sp) == Some(Auxv(p, l.strBase, l.randomAddr))
  {
    var st := StackFor(p, l);
    OnlyTheLastIsNull(p, l);
    AuxvReadsBack(m, top, st);
    ArgIsReached(m, top, st, st.argc);
  }

  /** The arguments of the process, each behind its pointer, and a null after them. */
  lemma {:induction false} ArgvIsReached(m: Memory, top: nat, p: Process, l: Layout, k: nat)
    requires Holds(m, top, p, l) && k <= |p.argv|
    ensures Word(m, l.sp) == Some(|p.argv|)
    ensures if k < |p.argv| then Reaches(m, l.sp + 8 + 8 * k, p.argv[k], top) else Word(m, l.sp + 8 + 8 * k) == Some(0)
  {
    ArgOf(m, top, StackFor(p, l), p.argv, p.envp, PlatformName(p.machine), k);
  }

  /** And its environment. */
  lemma {:induction false} EnvpIsReached(m: Memory, top: nat, p: Process, l: Layout, k: nat)
    requires Holds(m, top, p, l) && k <= |p.envp|
    ensures var slot := l.sp + 8 * (|p.argv| + 2) + 8 * k;
      if k < |p.envp| then Reaches(m, slot, p.envp[k], top) else Word(m, slot) == Some(0)
  {
    EnvOf(m, top, StackFor(p, l), p.argv, p.envp, PlatformName(p.machine), k);
  }

  /** The string at the start of the blob. */
  function FirstString(p: Process): seq<nat> {
    if p.argv != [] then p.argv[0] else if p.envp != [] then p.envp[0] else PlatformName(p.machine)
  }

  lemma {:induction false} BlobString(m: Memory, top: nat, p: Process, l: Layout, k: nat)
    requires Holds(m, top, p, l) && k < |Strings(p)|
    ensures StringAt(m, l.strBase + Off(Strings(p), k), Strings(p)[k], top)
  {
    StringInBlob(m, l.strBase, Strings(p), k);
  }

  lemma {:induction false} StringsAt(p: Process)
    ensures Strings(p)[0] == FirstString(p) && Off(Strings(p), 0) == 0
    ensures Strings(p)[|p.argv| + |p.envp|] == PlatformName(p.machine)
  {
    assert Strings(p)[..0] == [];
  }

  /** The bytes are behind the value of `tag`. */
  ghost predicate SaysBytes(m: Memory, aux: seq<Aux>, tag: nat, bytes: seq<nat>) {
    exists at: nat :: Says(aux, tag, at) && Inside(m, at, |bytes|) && Bytes(m, at, |bytes|) == bytes
  }

  /** The string is behind the value of `tag`. */
  ghost predicate SaysString(m: Memory, aux: seq<Aux>, tag: nat, s: seq<nat>, top: nat) {
    exists at: nat :: Says(aux, tag, at) && StringAt(m, at, s, top)
  }

  lemma {:induction false} AuxvHasRows(aux: seq<Aux>, p: Process, l: Layout)
    requires aux == Auxv(p, l.strBase, l.randomAddr)
    ensures Rows(aux, p, l.strBase, l.randomAddr, l.strBase + Off(Strings(p), |p.argv| + |p.envp|))
  {
    AuxvRows(p, l.strBase, l.randomAddr, l.strBase + Off(Strings(p), |p.argv| + |p.envp|));
  }

  /** What is behind the addresses: the random bytes, the first string and the platform's name. */
  lemma {:induction false} AddressesLead(m: Memory, top: nat, p: Process, l: Layout)
    requires Holds(m, top, p, l)
    ensures Inside(m, l.randomAddr, 16) && Bytes(m, l.randomAddr, 16) == p.random
    ensures StringAt(m, l.strBase, FirstString(p), top)
    ensures StringAt(m, l.strBase + Off(Strings(p), |p.argv| + |p.envp|), PlatformName(p.machine), top)
  {
    StringsAt(p);
    BlobString(m, top, p, l, |p.argv| + |p.envp|);
    BlobString(m, top, p, l, 0);
  }

  /** The numbers a process finds in the auxiliary vector of its stack, by tag. */
  lemma {:induction false} AuxvSays(m: Memory, top: nat, p: Process, l: Layout)
    requires Sane(p) && top < U64 && Holds(m, top, p, l) && top - l.sp <= 8 * 1024 * 1024
    ensures ReadAuxv(m, l.sp).Some? && Describes(ReadAuxv(m, l.sp).value, p) && TagsDiffer(ReadAuxv(m, l.sp).value)
  {
    BuiltReadsBack(m, top, p, l);
    var aux, platform := ReadAuxv(m, l.sp).value, l.strBase + Off(Strings(p), |p.argv| + |p.envp|);
    AuxvHasRows(aux, p, l);
    RowsDescribe(aux, p, l.strBase, l.randomAddr, platform);
    RowsDiffer(aux, p, l.strBase, l.randomAddr, platform);
  }

  /**
   And what is behind its addresses: the random bytes behind 25, the name of the program
   behind 31 and, behind 15, "x86_64" or "aarch64".
   */
  lemma {:induction false} AuxvLeads(m: Memory, top: nat, p: Process, l: Layout)
    requires Sane(p) && top < U64 && Holds(m, top, p, l) && top - l.sp <= 8 * 1024 * 1024
    ensures ReadAuxv(m, l.sp).Some? && SaysBytes(m, ReadAuxv(m, l.sp).value, 25, p.random)
    ensures p.argv != [] ==> SaysString(m, ReadAuxv(m, l.sp).value, 31, p.argv[0], top)
    ensures p.machine == 62 ==> SaysString(m, ReadAuxv(m, l.sp).value, 15, [120, 56, 54, 95, 54, 52], top)
    ensures p.machine != 62 ==> SaysString(m, ReadAuxv(m, l.sp).value, 15, [97, 97, 114, 99, 104, 54, 52], top)
  {
    BuiltReadsBack(m, top, p, l);
    var aux, platform := ReadAuxv(m, l.sp).value, l.strBase + Off(Strings(p), |p.argv| + |p.envp|);
    AuxvHasRows(aux, p, l);
    RowsDescribe(aux, p, l.strBase, l.randomAddr, platform);
    AddressesLead(m, top, p, l);
  }

  // Reading.

  /** `read_auxv`: skip the arguments and the environment, then collect pairs. */
  method LoadAuxv(mem: GuestMemory, sp: nat) returns (pairs: Option<seq<Aux>>)
    ensures pairs == ReadAuxv(mem.State(), sp)
  {
    mem.ShowsItsWords();
    pairs := LoadWords(mem, sp, WordsOf(mem.State()));
  }

  method LoadWords(mem: GuestMemory, sp: nat, ghost w: Reader) returns (pairs: Option<seq<Aux>>)
    requires mem.Shows(w)
    ensures pairs == ReadWords(w, sp)
  {
    var argc := mem.Fetch(sp, w);
    if argc.None? { return None; }
    var at := SkipLoop(mem, sp + 8 * (Min(argc.value, SCAN_CAP) + 2), w);
    if at.None? { return None; }
    pairs := LoadPairs(mem, at.value + 8, w);
  }

  method SkipLoop(mem: GuestMemory, start: nat, ghost w: Reader) returns (r: Option<nat>)
    requires mem.Shows(w)
    ensures r == SkipWords(w, start, start + 8 * SCAN_CAP)
  {
    var at, left := start, SCAN_CAP;
    while left > 0
      invariant 0 <= left <= SCAN_CAP && at + 8 * left == start + 8 * SCAN_CAP
      invariant SkipWords(w, start, start + 8 * SCAN_CAP) == SkipWords(w, at, start + 8 * SCAN_CAP)
    {
      var word := mem.Fetch(at, w);
      if word.None? { return None; }
      if word.value == 0 { return Some(at); }
      at, left := at + 8, left - 1;
    }
    return Some(at);
  }

  method LoadPairs(mem: GuestMemory, from: nat, ghost w: Reader) returns (pairs: Option<seq<Aux>>)
    requires mem.Shows(w)
    ensures pairs == Pairs(w, from, from + 16 * PAIR_CAP)
  {
    ghost var end := from + 16 * PAIR_CAP;
    var out, at, left := [], from, PAIR_CAP;
    PrefixedNone(Pairs(w, from, end));
    while left > 0
      invariant 0 <= left <= PAIR_CAP && at + 16 * left == end
      invariant Pairs(w, from, end) == Prefixed(out, Pairs(w, at, end))
    {
      var tag := mem.Fetch(at, w);
      var val := mem.Fetch(at + 8, w);
      if tag.None? || val.None? { return None; }
      ghost var before := out;
      out := out + [Aux(tag.value, val.value)];
      if tag.value == AT_NULL { return Some(out); }
      PrefixedMore(before, Aux(tag.value, val.value), Pairs(w, at + 16, end));
      at, left := at + 16, left - 1;
    }
    assert out + [] == out;
    return Some(out);
  }

  lemma {:induction false} PrefixedNone(rest: Option<seq<Aux>>)
    ensures Prefixed([], rest) == rest
  {
    if rest.Some? { assert [] + rest.value == rest.value; }
  }

  function Prefixed(out: seq<Aux>, rest: Option<seq<Aux>>): Option<seq<Aux>> {
    match rest
    case None => None
    case Some(more) => Some(out + more)
  }

  lemma {:induction false} PrefixedMore(out: seq<Aux>, a: Aux, rest: Option<seq<Aux>>)
    ensures Prefixed(out + [a], rest) == Prefixed(out, Prefixed([a], rest))
  {
    if rest.Some? { assert out + [a] + rest.value == out + ([a] + rest.value); }
  }
}
