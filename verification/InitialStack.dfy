/**
 The initial process stack (`src/loader.rs`, section 3.4.1 of the System V AMD64 psABI):
 guest memory, the layout of strings, random bytes and vector, and the reader that gets
 the auxiliary vector back.
 */
module StackModel {
  import opened Options

  const PAGE_SIZE: nat := 4096
  const U64: nat := 0x1_0000_0000_0000_0000
  const INITIAL_STACK_MAP: nat := 256 * 1024

  // Little-endian words.

  function ToLe(v: nat, n: nat): (b: seq<nat>)
    ensures |b| == n
  {
    if n == 0 then [] else [v % 256] + ToLe(v / 256, n - 1)
  }

  function FromLe(b: seq<nat>): nat {
    if b == [] then 0 else b[0] + 256 * FromLe(b[1..])
  }

  function Bound(n: nat): nat {
    if n == 0 then 1 else 256 * Bound(n - 1)
  }

  lemma {:induction false} FromToLe(v: nat, n: nat)
    requires v < Bound(n)
    ensures FromLe(ToLe(v, n)) == v
  {
    if n > 0 {
      FromToLe(v / 256, n - 1);
      assert ToLe(v, n)[1..] == ToLe(v / 256, n - 1);
    }
  }

  const WORD: nat := 8

  /** The eight bytes of a word, from which it can be read back. */
  function LeWord(v: nat): (b: seq<nat>)
    ensures |b| == 8 && (v < U64 ==> FromLe(b) == v)
  {
    EightBytes(v);
    ToLe(v, WORD)
  }

  lemma {:induction false} EightBytes(v: nat)
    ensures v < U64 ==> FromLe(ToLe(v, WORD)) == v
  {
    assert Bound(2) == 0x1_0000;
    assert Bound(4) == 0x1_0000_0000;
    assert Bound(6) == 0x1_0000_0000_0000;
    if v < U64 { FromToLe(v, WORD); }
  }

  // Guest memory: a run of bytes from `base` on, of which some pages are mapped.

  datatype Memory = Memory(base: nat, pages: set<nat>, bytes: seq<nat>)

  predicate Inside(m: Memory, a: nat, n: nat) {
    m.base <= a && a + n <= m.base + |m.bytes|
  }

  predicate MappedAt(m: Memory, a: nat) {
    m.base <= a < m.base + |m.bytes| && (a - m.base) / PAGE_SIZE in m.pages
  }

  predicate Mapped(m: Memory, a: nat, n: nat) {
    Inside(m, a, n) && forall i :: a <= i < a + n ==> MappedAt(m, i)
  }

  function Bytes(m: Memory, a: nat, n: nat): (b: seq<nat>)
    requires Inside(m, a, n)
    ensures |b| == n
  {
    m.bytes[a - m.base..a - m.base + n]
  }

  function Put(m: Memory, a: nat, buf: seq<nat>): Memory
    requires Inside(m, a, |buf|)
  {
    var o := a - m.base;
    m.(bytes := m.bytes[..o] + buf + m.bytes[o + |buf|..])
  }

  function Word(m: Memory, a: nat): Option<nat> {
    if Inside(m, a, 8) && MappedAt(m, a) && MappedAt(m, a + 7) then Some(FromLe(Bytes(m, a, 8))) else None
  }

  /** Reading words, whatever they are read from. */
  type Reader = imap<nat, nat>

  ghost function WordsOf(m: Memory): Reader {
    imap a: nat | Word(m, a).Some? :: Word(m, a).value
  }

  /** What was written last reads back; the rest reads as before. */
  lemma {:induction false} PutReads(m: Memory, a: nat, buf: seq<nat>, p: nat, n: nat)
    requires Inside(m, a, |buf|) && Inside(m, p, n)
    ensures a <= p && p + n <= a + |buf| ==> Bytes(Put(m, a, buf), p, n) == buf[p - a..p - a + n]
    ensures p + n <= a || a + |buf| <= p ==> Bytes(Put(m, a, buf), p, n) == Bytes(m, p, n)
  {
  }

  lemma {:induction false} PutTwice(m: Memory, a: nat, x: seq<nat>, y: seq<nat>)
    requires Inside(m, a, |x| + |y|)
    ensures Put(Put(m, a, x), a + |x|, y) == Put(m, a, x + y)
  {
  }

  // Words in a row.

  function Encoded(ws: seq<nat>): (b: seq<nat>)
    ensures |b| == 8 * |ws|
  {
    if ws == [] then [] else Encoded(ws[..|ws| - 1]) + LeWord(ws[|ws| - 1])
  }

  lemma {:induction false} EncodedAt(ws: seq<nat>, k: nat)
    requires k < |ws|
    ensures Encoded(ws)[8 * k..8 * k + 8] == LeWord(ws[k])
    decreases |ws|
  {
    var n := |ws| - 1;
    var rest, last := Encoded(ws[..n]), LeWord(ws[n]);
    if k < n {
      EncodedAt(ws[..n], k);
      SliceOfSum(rest, last, 8 * k);
    } else {
      assert (rest + last)[|rest|..] == last;
    }
  }

  lemma {:induction false} SliceOfSum(x: seq<nat>, y: seq<nat>, o: nat)
    requires o + 8 <= |x|
    ensures (x + y)[o..o + 8] == x[o..o + 8]
  {
  }

  ghost predicate Reads(w: Reader, a: nat, v: nat) {
    a in w && w[a] == v
  }

  /** Word number `k` of `ws`, laid out from `p` on, if there is one. */
  ghost predicate HeldAt(w: Reader, p: nat, ws: seq<nat>, k: nat) {
    k < |ws| ==> Reads(w, p + 8 * k, ws[k])
  }

  ghost predicate HoldsWords(w: Reader, p: nat, ws: seq<nat>) {
    forall k: nat :: HeldAt(w, p, ws, k)
  }

  lemma {:induction false} BytesWithin(m: Memory, p: nat, n: nat, o: nat)
    requires Mapped(m, p, n) && o + 8 <= n
    ensures Mapped(m, p + o, 8) && Bytes(m, p + o, 8) == Bytes(m, p, n)[o..o + 8]
  {
  }

  lemma {:induction false} HoldsEncoded(m: Memory, p: nat, ws: seq<nat>)
    requires Mapped(m, p, 8 * |ws|) && Bytes(m, p, 8 * |ws|) == Encoded(ws)
    requires forall k :: 0 <= k < |ws| ==> ws[k] < U64
    ensures HoldsWords(WordsOf(m), p, ws)
  {
    forall k: nat ensures HeldAt(WordsOf(m), p, ws, k) {
      if k < |ws| { EncodedWord(m, p, ws, k); }
    }
  }

  lemma {:induction false} EncodedWord(m: Memory, p: nat, ws: seq<nat>, k: nat)
    requires Mapped(m, p, 8 * |ws|) && Bytes(m, p, 8 * |ws|) == Encoded(ws) && k < |ws| && ws[k] < U64
    ensures Word(m, p + 8 * k) == Some(ws[k])
  {
    EncodedAt(ws, k);
    BytesWithin(m, p, 8 * |ws|, 8 * k);
  }

  lemma {:induction false} HoldsParts(w: Reader, p: nat, a: seq<nat>, b: seq<nat>)
    requires HoldsWords(w, p, a + b)
    ensures HoldsWords(w, p, a) && HoldsWords(w, p + 8 * |a|, b)
  {
    forall k: nat ensures HeldAt(w, p, a, k) {
      assert HeldAt(w, p, a + b, k);
    }
    var q := p + 8 * |a|;
    forall k: nat ensures HeldAt(w, q, b, k) {
      assert HeldAt(w, p, a + b, |a| + k);
      assert p + 8 * (|a| + k) == q + 8 * k;
    }
  }

  // Strings, each with its NUL, one after the other.

  function Blob(ss: seq<seq<nat>>): seq<nat> {
    if ss == [] then [] else Blob(ss[..|ss| - 1]) + ss[|ss| - 1] + [0]
  }

  /** Where string `k` starts. */
  function Off(ss: seq<seq<nat>>, k: nat): nat
    requires k <= |ss|
  {
    |Blob(ss[..k])|
  }

  lemma {:induction false} BlobAt(ss: seq<seq<nat>>, k: nat)
    requires k < |ss|
    ensures Off(ss, k) + |ss[k]| + 1 <= |Blob(ss)|
    ensures Blob(ss)[Off(ss, k)..Off(ss, k) + |ss[k]| + 1] == ss[k] + [0]
    decreases |ss|
  {
    var n := |ss| - 1;
    var rest := ss[..n];
    if k < n {
      BlobAt(rest, k);
      assert rest[..k] == ss[..k];
      var lo, hi := Off(ss, k), Off(ss, k) + |ss[k]| + 1;
      assert Blob(ss)[lo..hi] == Blob(rest)[lo..hi];
    } else {
      assert ss[..k] == rest;
    }
  }

  // Layout.

  function Down8(x: nat): (r: nat)
    ensures r <= x < r + 8 && r % 8 == 0
  {
    x - x % 8
  }

  function Down16(x: nat): (r: nat)
    ensures r <= x < r + 16 && r % 16 == 0
  {
    x - x % 16
  }

  lemma Highest8(x: nat, y: nat)
    requires y % 8 == 0 && y <= x
    ensures y <= Down8(x)
  {
    assert y / 8 <= x / 8;
  }

  lemma Highest16(x: nat, y: nat)
    requires y % 16 == 0 && y <= x
    ensures y <= Down16(x)
  {
    assert y / 16 <= x / 16;
  }

  /** Eight mebibytes, or an eighth of a small memory, but a quarter mebibyte at least. */
  function StackSize(memSize: nat): (s: nat)
    ensures 256 * 1024 <= s <= 8 * 1024 * 1024
    ensures memSize >= 64 * 1024 * 1024 ==> s == 8 * 1024 * 1024
    ensures 2 * 1024 * 1024 <= memSize < 64 * 1024 * 1024 ==> 8 * s <= memSize < 8 * s + 8
    ensures memSize < 2 * 1024 * 1024 ==> s == 256 * 1024
  {
    var r := if memSize / 8 < 8 * 1024 * 1024 then memSize / 8 else 8 * 1024 * 1024;
    if r < 256 * 1024 then 256 * 1024 else r
  }
}
