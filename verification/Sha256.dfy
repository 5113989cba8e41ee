/**
 The streaming SHA-256 of `src/image.rs` against FIPS 180-4: padding (section 5.1.1),
 parsing (5.2.1) and the block-by-block hash computation (6.2.2). Words are the
 numbers they stand for.
 */
module Sha256Digest {

  type Byte = x: nat | x < 0x100

  const BLOCK: nat := 64

  /** A 32-bit word, as the number it stands for. */
  type Word = x: nat | x < WORD32

  const WORD32: nat := 0x1_0000_0000
  const WORD64: nat := 0x1_0000_0000_0000_0000

  datatype Vars = Vars(a: Word, b: Word, c: Word, d: Word, e: Word, f: Word, g: Word, h: Word)

  // ---- Section 2.2.2 and 3.2: operations on words. ----

  /** Addition modulo 2^32. */
  function Add(x: Word, y: Word): Word {
    if x + y < WORD32 then x + y else x + y - WORD32
  }

  lemma AddIsModular(x: Word, y: Word)
    ensures Add(x, y) == (x + y) % WORD32
  {
  }

  /** Bitwise exclusive or, from the lowest bit up. */
  function XorBits(x: nat, y: nat): nat {
    if x == 0 then y else 2 * XorBits(x / 2, y / 2) + (if x % 2 != y % 2 then 1 else 0)
  }

  /** Bitwise and, from the lowest bit up. */
  function AndBits(x: nat, y: nat): (r: nat)
    ensures r <= x
  {
    if x == 0 then 0 else 2 * AndBits(x / 2, y / 2) + (if x % 2 == 1 && y % 2 == 1 then 1 else 0)
  }

  function Pow2(n: nat): nat {
    if n == 0 then 1 else 2 * Pow2(n - 1)
  }

  lemma {:induction false} XorFits(x: nat, y: nat, n: nat)
    requires x < Pow2(n) && y < Pow2(n)
    ensures XorBits(x, y) < Pow2(n)
  {
    if x != 0 && n > 0 { XorFits(x / 2, y / 2, n - 1); }
  }

  lemma Pow2Word()
    ensures Pow2(32) == WORD32
  {
    assert Pow2(8) == 0x100;
    assert Pow2(16) == 0x1_0000;
    assert Pow2(24) == 0x100_0000;
  }

  function Xor(x: Word, y: Word): Word {
    Pow2Word();
    XorFits(x, y, 32);
    XorBits(x, y)
  }

  function And(x: Word, y: Word): Word { AndBits(x, y) }

  function Not(x: Word): Word { WORD32 - 1 - x }

  /** Rotation right by `n` bits, where `low` is 2^n and `high` is 2^(32-n). */
  function Rotr(x: Word, low: nat, high: nat): Word
    requires low * high == WORD32
  {
    RotateFits(x, low, high);
    x / low + (x % low) * high
  }

  lemma RotateFits(x: Word, low: nat, high: nat)
    requires low * high == WORD32
    ensures low > 0 && x / low + (x % low) * high < WORD32
  {
    assert low > 0 && high > 0;
    var q, r := x / low, x % low;
    assert x == q * low + r;
    assert q < high;
    assert r * high <= (low - 1) * high;
  }

  // ---- Section 4.1.2: the functions, and 4.2.2: the constants. ----

  function BigSigma0(x: Word): Word {
    Xor(Xor(Rotr(x, 0x4, 0x4000_0000), Rotr(x, 0x2000, 0x8_0000)), Rotr(x, 0x40_0000, 0x400))
  }

  function BigSigma1(x: Word): Word {
    Xor(Xor(Rotr(x, 0x40, 0x400_0000), Rotr(x, 0x800, 0x20_0000)), Rotr(x, 0x200_0000, 0x80))
  }

  function SmallSigma0(x: Word): Word {
    Xor(Xor(Rotr(x, 0x80, 0x200_0000), Rotr(x, 0x4_0000, 0x4000)), x / 0x8)
  }

  function SmallSigma1(x: Word): Word {
    Xor(Xor(Rotr(x, 0x2_0000, 0x8000), Rotr(x, 0x8_0000, 0x2000)), x / 0x400)
  }

  function Ch(x: Word, y: Word, z: Word): Word { Xor(And(x, y), And(Not(x), z)) }

  function Maj(x: Word, y: Word, z: Word): Word { Xor(Xor(And(x, y), And(x, z)), And(y, z)) }

  const H0 := Vars(0x6a09e667, 0xbb67ae85, 0x3c6ef372, 0xa54ff53a, 0x510e527f, 0x9b05688c, 0x1f83d9ab, 0x5be0cd19)

  function BytesToWord(a: Byte, b: Byte, c: Byte, d: Byte): Word {
    0x100_0000 * a + 0x1_0000 * b + 0x100 * c + d
  }

  function WordBytes(x: Word): (r: seq<Byte>)
    ensures |r| == 4
  {
    [x / 0x100_0000, x / 0x1_0000 % 0x100, x / 0x100 % 0x100, x % 0x100]
  }

  // ---- Section 6.2.2: one block. ----

  /** The word `W_t` of the message schedule. */
  function Schedule(block: seq<Byte>, t: nat): Word
    requires |block| == BLOCK
  {
    if t < 16 then BytesToWord(block[4 * t], block[4 * t + 1], block[4 * t + 2], block[4 * t + 3])
    else
      Add(Add(Add(SmallSigma1(Schedule(block, t - 2)), Schedule(block, t - 7)),
              SmallSigma0(Schedule(block, t - 15))),
          Schedule(block, t - 16))
  }

  /** One round: the two temporaries, then the shift of the working variables. */
  function Round(v: Vars, k: Word, w: Word): Vars {
    var t1 := Add(Add(Add(Add(v.h, BigSigma1(v.e)), Ch(v.e, v.f, v.g)), k), w);
    var t2 := Add(BigSigma0(v.a), Maj(v.a, v.b, v.c));
    Vars(Add(t1, t2), v.a, v.b, v.c, Add(v.d, t1), v.e, v.f, v.g)
  }

  /** The working variables after the first `t` rounds, with the constants `k`. */
  function Rounds(k: seq<Word>, v: Vars, block: seq<Byte>, t: nat): Vars
    requires |block| == BLOCK && t <= |k|
  {
    if t == 0 then v else Round(Rounds(k, v, block, t - 1), k[t - 1], Schedule(block, t - 1))
  }

  function AddInto(h: Vars, v: Vars): Vars {
    Vars(Add(h.a, v.a), Add(h.b, v.b), Add(h.c, v.c), Add(h.d, v.d),
         Add(h.e, v.e), Add(h.f, v.f), Add(h.g, v.g), Add(h.h, v.h))
  }

  /** The intermediate hash value after one more block. */
  function Compress(k: seq<Word>, h: Vars, block: seq<Byte>): Vars
    requires |block| == BLOCK && |k| == 64
  {
    AddInto(h, Rounds(k, h, block, |k|))
  }

  // ---- Sections 5.1.1 and 5.2.1: padding, and hashing all blocks. ----

  type Block = b: seq<Byte> | |b| == BLOCK witness seq(BLOCK, _ => 0)

  /** A message cut into blocks, the last one outermost. */
  datatype Blocks = NoBlocks | Snoc(init: Blocks, last: Block)

  /** The hash value after the blocks `bs`. */
  function HashBlocks(k: seq<Word>, bs: Blocks): Vars
    requires |k| == 64
  {
    match bs
    case NoBlocks => H0
    case Snoc(init, last) => Compress(k, HashBlocks(k, init), last)
  }

  function Flatten(bs: Blocks): (m: seq<Byte>)
    ensures |m| % BLOCK == 0
  {
    match bs
    case NoBlocks => []
    case Snoc(init, last) => Flatten(init) + last
  }

  /** A message of whole blocks, cut into them. */
  function Parse(m: seq<Byte>): (bs: Blocks)
    requires |m| % BLOCK == 0
    ensures Flatten(bs) == m
  {
    if m == [] then NoBlocks else Snoc(Parse(m[..|m| - BLOCK]), m[|m| - BLOCK..])
  }

  /** There is only one way to cut it. */
  lemma {:induction false} ParseIsUnique(bs: Blocks)
    ensures Parse(Flatten(bs)) == bs
  {
    if bs.Snoc? {
      ParseIsUnique(bs.init);
      var m := Flatten(bs);
      assert m[..|m| - BLOCK] == Flatten(bs.init) && m[|m| - BLOCK..] == bs.last;
    }
  }

  function Power256(n: nat): (p: nat)
    ensures p > 0
  {
    if n == 0 then 1 else 0x100 * Power256(n - 1)
  }

  /** `v` as 64 bits, most significant byte first. */
  function BigEndian64(v: nat): (r: seq<Byte>)
    ensures |r| == 8
  {
    seq(8, i requires 0 <= i < 8 => v / Power256(7 - i) % 0x100)
  }

  function Zeros(n: nat): (r: seq<Byte>)
    ensures |r| == n
  {
    seq(n, _ => 0)
  }

  /** How many zero bytes follow the `1` bit: enough to make the length 56 modulo 64. */
  function ZeroPad(len: nat): (k: nat)
    ensures k < BLOCK && (len + 1 + k) % BLOCK == 56
  {
    (55 + BLOCK - len % BLOCK) % BLOCK
  }

  /** And no smaller number does. */
  lemma ZeroPadIsLeast(len: nat, k: nat)
    requires (len + 1 + k) % BLOCK == 56
    ensures ZeroPad(len) <= k
  {
  }

  /** Counting in a 64-bit word, and turning bytes to bits in one, lose nothing but multiples of 2^64. */
  lemma CountWraps(a: nat, b: nat)
    ensures (a % WORD64 + b) % WORD64 == (a + b) % WORD64
    ensures a % WORD64 * 8 % WORD64 == 8 * a % WORD64
  {
    var q, r := a / WORD64, a % WORD64;
    assert a == WORD64 * q + r;
    assert 8 * a == 8 * r + WORD64 * (8 * q);
  }

  /** The padded message; its length field is the bit count, modulo 2^64. */
  function Pad(m: seq<Byte>): (r: seq<Byte>)
    ensures |r| % BLOCK == 0 && m <= r
  {
    m + [0x80] + Zeros(ZeroPad(|m|)) + BigEndian64(8 * |m| % WORD64)
  }

  function ReadOut(h: Vars): (r: seq<Byte>)
    ensures |r| == 32
  {
    WordBytes(h.a) + WordBytes(h.b) + WordBytes(h.c) + WordBytes(h.d)
    + WordBytes(h.e) + WordBytes(h.f) + WordBytes(h.g) + WordBytes(h.h)
  }

  /** The standard's one-shot digest. */
  function Digest(k: seq<Word>, m: seq<Byte>): (r: seq<Byte>)
    requires |k| == 64
    ensures |r| == 32
  {
    ReadOut(HashBlocks(k, Parse(Pad(m))))
  }

  // ---- The streaming form. ----

  /** Addition modulo 2^32 may be regrouped. */
  lemma Regroup(a: Word, b: Word, c: Word, d: Word)
    ensures Add(Add(Add(a, b), c), d) == Add(Add(Add(d, c), b), a)
  {
  }

  /** The schedule, filled in place. */
  method Expand(block: seq<Byte>) returns (w: array<Word>)
    requires |block| == BLOCK
    ensures fresh(w) && w.Length == 64 && forall t :: 0 <= t < 64 ==> w[t] == Schedule(block, t)
  {
    w := new Word[64];
    for i := 0 to 16
      invariant forall t :: 0 <= t < i ==> w[t] == Schedule(block, t)
    {
      w[i] := BytesToWord(block[4 * i], block[4 * i + 1], block[4 * i + 2], block[4 * i + 3]);
    }
    for i := 16 to 64
      invariant forall t :: 0 <= t < i ==> w[t] == Schedule(block, t)
    {
      var s0 := SmallSigma0(w[i - 15]);
      var s1 := SmallSigma1(w[i - 2]);
      Regroup(w[i - 16], s0, w[i - 7], s1);
      w[i] := Add(Add(Add(w[i - 16], s0), w[i - 7]), s1);
    }
  }

  /** The rounds, the working variables shifted one at a time. */
  method RunRounds(k: seq<Word>, v: Vars, block: seq<Byte>, w: array<Word>) returns (r: Vars)
    requires |block| == BLOCK && w.Length == 64 == |k|
    requires forall t :: 0 <= t < 64 ==> w[t] == Schedule(block, t)
    ensures r == Rounds(k, v, block, |k|)
  {
    var a, b, c, d, e, f, g, h := v.a, v.b, v.c, v.d, v.e, v.f, v.g, v.h;
    for i := 0 to 64
      invariant Vars(a, b, c, d, e, f, g, h) == Rounds(k, v, block, i)
    {
      var temp1 := Add(Add(Add(Add(h, BigSigma1(e)), Ch(e, f, g)), k[i]), w[i]);
      var temp2 := Add(BigSigma0(a), Maj(a, b, c));
      h := g;
      g := f;
      f := e;
      e := Add(d, temp1);
      d := c;
      c := b;
      b := a;
      a := Add(temp1, temp2);
    }
    r := Vars(a, b, c, d, e, f, g, h);
  }

  method CompressBlock(k: seq<Word>, h: Vars, block: Block) returns (r: Vars)
    requires |k| == 64
    ensures r == Compress(k, h, block)
  {
    var w := Expand(block);
    var v := RunRounds(k, h, block, w);
    r := AddInto(h, v);
  }

  /** `hash` is `HashBlocks(k, _)`. */
  ghost predicate IsHash(k: seq<Word>, hash: imap<Blocks, Vars>) {
    |k| == 64 && forall bs {:trigger HashBlocks(k, bs)} :: bs in hash && hash[bs] == HashBlocks(k, bs)
  }

  lemma HashOf(k: seq<Word>, hash: imap<Blocks, Vars>, bs: Blocks)
    requires IsHash(k, hash)
    ensures bs in hash && hash[bs] == HashBlocks(k, bs)
  {
    var h := HashBlocks(k, bs);
  }

  lemma HashOneMore(k: seq<Word>, hash: imap<Blocks, Vars>, bs: Blocks, block: Block)
    requires IsHash(k, hash)
    ensures bs in hash && Snoc(bs, block) in hash && hash[Snoc(bs, block)] == Compress(k, hash[bs], block)
  {
    HashOf(k, hash, bs);
    HashOf(k, hash, Snoc(bs, block));
  }

  /** The bytes `finalize` feeds before the length are the `1` bit and the zero bits. */
  lemma PadFront(pad: seq<Byte>, len: nat, bufLen: nat, padLen: nat)
    requires pad == [0x80] + Zeros(63) && bufLen == len % BLOCK
    requires padLen == if bufLen < 56 then 56 - bufLen else 120 - bufLen
    ensures padLen <= |pad| && pad[..padLen] == [0x80] + Zeros(ZeroPad(len))
  {
    assert padLen == 1 + ZeroPad(len);
  }

  /** A padded message leaves nothing in the buffer. */
  lemma WholeBlocks(done: Blocks, rest: seq<Byte>, m: seq<Byte>)
    requires Flatten(done) + rest == Pad(m) && |rest| < BLOCK
    ensures rest == [] && Flatten(done) == Pad(m)
  {
    assert |Pad(m)| == |Flatten(done)| + |rest|;
    InBlock(|Flatten(done)|, |rest|);
    assert rest == [];
  }

  lemma InBlock(whole: nat, rest: nat)
    requires whole % BLOCK == 0 && rest < BLOCK
    ensures (whole + rest) % BLOCK == rest
  {
  }

  lemma DigestIs(k: seq<Word>, hash: imap<Blocks, Vars>, done: Blocks, rest: seq<Byte>, m: seq<Byte>)
    requires IsHash(k, hash)
    requires Flatten(done) + rest == Pad(m) && |rest| < BLOCK
    ensures rest == [] && done in hash && ReadOut(hash[done]) == Digest(k, m)
  {
    WholeBlocks(done, rest, m);
    ParseIsUnique(done);
    HashOf(k, hash, done);
  }

  class Sha256 {
    /** The round constants. */
    const k: seq<Word>
    var state: Vars
    const buf: array<Byte>
    var bufLen: nat
    /** Message bytes fed so far, as a 64-bit word. */
    var msgLen: nat
    /** The whole blocks already folded into `state`. */
    ghost var done: Blocks
    /** `HashBlocks(k, _)` as a value, so that buffering is proved without looking inside a block. */
    ghost const hash: imap<Blocks, Vars>

    ghost predicate Valid()
      reads this
    {
      buf.Length == BLOCK && bufLen < BLOCK && Hashed()
    }

    /** `state` is the hash of the blocks done. */
    ghost predicate Hashed()
      reads this
    {
      IsHash(k, hash) && done in hash && state == hash[done]
    }

    /** Everything absorbed so far. */
    ghost function Absorbed(): seq<Byte>
      requires Valid()
      reads this, buf
    {
      Flatten(done) + buf[..bufLen]
    }

    constructor (k: seq<Word>)
      requires |k| == 64
      ensures this.k == k && Valid() && Absorbed() == [] && msgLen == 0 && fresh(buf)
    {
      this.k := k;
      state := H0;
      hash := imap bs: Blocks :: HashBlocks(k, bs);
      buf := new Byte[64](i => 0);
      bufLen, msgLen := 0, 0;
      done := NoBlocks;
    }

    /** Fold one block into `state`. */
    method ProcessBlock(block: Block)
      requires Hashed()
      modifies this`state, this`done
      ensures done == Snoc(old(done), block) && Hashed()
    {
      HashOneMore(k, hash, done, block);
      state := CompressBlock(k, state, block);
      done := Snoc(done, block);
    }

    /** Copy `s` into the buffer at `at`. */
    method CopyIn(at: nat, s: seq<Byte>)
      requires at + |s| <= buf.Length
      modifies buf
      ensures buf[..at + |s|] == old(buf[..at]) + s
    {
      for i := 0 to |s|
        invariant buf[..at + i] == old(buf[..at]) + s[..i]
      {
        buf[at + i] := s[i];
        assert buf[..at + i + 1] == buf[..at + i] + [s[i]];
      }
    }

    /** Top the buffer up from the front of `data`, folding it in if that fills it. */
    method FillBuffer(data: seq<Byte>) returns (rest: seq<Byte>)
      requires Valid() && bufLen > 0
      modifies this`state, this`bufLen, this`done, buf
      ensures Valid() && Absorbed() + rest == old(Absorbed()) + data
      ensures rest == [] || bufLen == 0
    {
      var need := BLOCK - bufLen;
      var take := if need <= |data| then need else |data|;
      CopyIn(bufLen, data[..take]);
      assert data == data[..take] + data[take..];
      bufLen := bufLen + take;
      rest := data[take..];
      if bufLen == BLOCK {
        ProcessBlock(buf[..]);
        bufLen := 0;
      }
    }

    method Absorb(data: seq<Byte>)
      requires Valid()
      modifies this`state, this`bufLen, this`done, buf
      ensures Valid() && Absorbed() == old(Absorbed()) + data
    {
      var rest := data;
      if bufLen > 0 {
        rest := FillBuffer(data);
      }
      while |rest| >= BLOCK
        invariant Valid() && (rest == [] || bufLen == 0)
        invariant Absorbed() + rest == old(Absorbed()) + data
      {
        assert rest == rest[..BLOCK] + rest[BLOCK..];
        ProcessBlock(rest[..BLOCK]);
        rest := rest[BLOCK..];
      }
      if |rest| > 0 {
        CopyIn(0, rest);
        bufLen := |rest|;
      }
    }

    method Update(data: seq<Byte>)
      requires Valid() && msgLen == |Absorbed()| % WORD64
      modifies this`state, this`bufLen, this`msgLen, this`done, buf
      ensures Valid() && msgLen == |Absorbed()| % WORD64
      ensures Absorbed() == old(Absorbed()) + data
    {
      CountWraps(|Absorbed()|, |data|);
      msgLen := (msgLen + |data|) % WORD64;
      Absorb(data);
    }

    /** Pad and read out: the digest of all bytes fed, the buffer left empty. */
    method Finalize() returns (digest: seq<Byte>)
      requires Valid() && msgLen == |Absorbed()| % WORD64
      modifies this`state, this`bufLen, this`done, buf
      ensures digest == Digest(k, old(Absorbed()))
      ensures bufLen == 0
    {
      ghost var m := Absorbed();
      CountWraps(|m|, 0);
      var bitLen := msgLen * 8 % WORD64;
      var pad := [0x80] + Zeros(63);
      var padLen := if bufLen < 56 then 56 - bufLen else 120 - bufLen;
      InBlock(|Flatten(done)|, bufLen);
      PadFront(pad, |m|, bufLen, padLen);
      Absorb(pad[..padLen]);
      Absorb(BigEndian64(bitLen));
      assert Absorbed() == Pad(m);
      DigestIs(k, hash, done, buf[..bufLen], m);
      digest := ReadOut(state);
    }
  }

  function Concat(parts: seq<seq<Byte>>): seq<Byte> {
    if parts == [] then [] else Concat(parts[..|parts| - 1]) + parts[|parts| - 1]
  }

  /** Feeding `parts` one `Update` at a time digests their concatenation, for every way of cutting. */
  method DigestOfParts(k: seq<Word>, parts: seq<seq<Byte>>) returns (digest: seq<Byte>)
    requires |k| == 64
    ensures digest == Digest(k, Concat(parts))
  {
    var h := new Sha256(k);
    for i := 0 to |parts|
      invariant h.Valid() && h.msgLen == |h.Absorbed()| % WORD64 && h.k == k
      invariant h.Absorbed() == Concat(parts[..i]) && fresh(h) && fresh(h.buf)
    {
      assert parts[..i + 1][..i] == parts[..i];
      h.Update(parts[i]);
    }
    assert parts[..|parts|] == parts;
    digest := h.Finalize();
  }

  /** Row `r` of the table of round constants. */
  function ConstantRow(r: nat): (row: seq<Word>)
    ensures |row| == 8
  {
    if r == 0 then [0x428a2f98, 0x71374491, 0xb5c0fbcf, 0xe9b5dba5, 0x3956c25b, 0x59f111f1, 0x923f82a4, 0xab1c5ed5]
    else if r == 1 then [0xd807aa98, 0x12835b01, 0x243185be, 0x550c7dc3, 0x72be5d74, 0x80deb1fe, 0x9bdc06a7, 0xc19bf174]
    else if r == 2 then [0xe49b69c1, 0xefbe4786, 0x0fc19dc6, 0x240ca1cc, 0x2de92c6f, 0x4a7484aa, 0x5cb0a9dc, 0x76f988da]
    else if r == 3 then [0x983e5152, 0xa831c66d, 0xb00327c8, 0xbf597fc7, 0xc6e00bf3, 0xd5a79147, 0x06ca6351, 0x14292967]
    else if r == 4 then [0x27b70a85, 0x2e1b2138, 0x4d2c6dfc, 0x53380d13, 0x650a7354, 0x766a0abb, 0x81c2c92e, 0x92722c85]
    else if r == 5 then [0xa2bfe8a1, 0xa81a664b, 0xc24b8b70, 0xc76c51a3, 0xd192e819, 0xd6990624, 0xf40e3585, 0x106aa070]
    else if r == 6 then [0x19a4c116, 0x1e376c08, 0x2748774c, 0x34b0bcb5, 0x391c0cb3, 0x4ed8aa4a, 0x5b9cca4f, 0x682e6ff3]
    else [0x748f82ee, 0x78a5636f, 0x84c87814, 0x8cc70208, 0x90befffa, 0xa4506ceb, 0xbef9a3f7, 0xc67178f2]
  }

  const SHA256_K: seq<Word> := seq(64, t requires 0 <= t < 64 => ConstantRow(t / 8)[t % 8])

  method Sha256OfParts(parts: seq<seq<Byte>>) returns (digest: seq<Byte>)
    ensures digest == Digest(SHA256_K, Concat(parts))
  {
    digest := DigestOfParts(SHA256_K, parts);
  }
}
