/**
 SHA-256 against FIPS 180-4 once more: every function of section 4.1.2 by its bits, the
 constants of 4.2.2 and 5.3.3 by the roots they come from, the padding and the byte
 orders as numbers, and a round that can be undone.
 */
module Sha256Laws {
  import opened Sha256Digest
  import opened Sha256Bits

  // Section 4.1.2.

  /** Where bit `i` comes from in a rotation by `n`. */
  function Round32(i: nat): nat {
    if i < 32 then i else i - 32
  }

  lemma XorOfThree(x: Word, y: Word, z: Word, i: nat)
    ensures Bit(Xor(Xor(x, y), z), i) <==> (Bit(x, i) != Bit(y, i)) != Bit(z, i)
  {
    XorBit(x, y, i);
    XorBit(Xor(x, y), z, i);
  }

  /** Ch chooses: the bit of `y` where that of `x` is set, of `z` where it is not. */
  lemma ChBit(x: Word, y: Word, z: Word, i: nat)
    requires i < 32
    ensures Bit(Ch(x, y, z), i) <==> if Bit(x, i) then Bit(y, i) else Bit(z, i)
  {
    AndBit(x, y, i);
    AndBit(Not(x), z, i);
    NotBit(x, i);
    XorBit(And(x, y), And(Not(x), z), i);
  }

  /** Maj is set where two of the three are. */
  lemma MajBit(x: Word, y: Word, z: Word, i: nat)
    ensures Bit(Maj(x, y, z), i) <==>
            (Bit(x, i) && Bit(y, i)) || (Bit(x, i) && Bit(z, i)) || (Bit(y, i) && Bit(z, i))
  {
    AndBit(x, y, i);
    AndBit(x, z, i);
    AndBit(y, z, i);
    XorOfThree(And(x, y), And(x, z), And(y, z), i);
  }

  lemma PowersOfTwo()
    ensures Pow2(2) == 0x4 && Pow2(6) == 0x40 && Pow2(7) == 0x80 && Pow2(10) == 0x400 && Pow2(11) == 0x800
    ensures Pow2(13) == 0x2000 && Pow2(14) == 0x4000 && Pow2(15) == 0x8000 && Pow2(17) == 0x2_0000
    ensures Pow2(18) == 0x4_0000 && Pow2(19) == 0x8_0000 && Pow2(21) == 0x20_0000 && Pow2(22) == 0x40_0000
    ensures Pow2(25) == 0x200_0000 && Pow2(26) == 0x400_0000 && Pow2(30) == 0x4000_0000
  {
    assert Pow2(8) == 0x100;
    assert Pow2(16) == 0x1_0000;
    assert Pow2(24) == 0x100_0000;
  }

  lemma BigSigma0Bit(x: Word, i: nat)
    requires i < 32
    ensures Bit(BigSigma0(x), i) <==>
            (Bit(x, Round32(i + 2)) != Bit(x, Round32(i + 13))) != Bit(x, Round32(i + 22))
  {
    PowersOfTwo();
    RotrBit(x, 2, 0x4, 0x4000_0000, i);
    RotrBit(x, 13, 0x2000, 0x8_0000, i);
    RotrBit(x, 22, 0x40_0000, 0x400, i);
    XorOfThree(Rotr(x, 0x4, 0x4000_0000), Rotr(x, 0x2000, 0x8_0000), Rotr(x, 0x40_0000, 0x400), i);
  }

  lemma BigSigma1Bit(x: Word, i: nat)
    requires i < 32
    ensures Bit(BigSigma1(x), i) <==>
            (Bit(x, Round32(i + 6)) != Bit(x, Round32(i + 11))) != Bit(x, Round32(i + 25))
  {
    PowersOfTwo();
    RotrBit(x, 6, 0x40, 0x400_0000, i);
    RotrBit(x, 11, 0x800, 0x20_0000, i);
    RotrBit(x, 25, 0x200_0000, 0x80, i);
    XorOfThree(Rotr(x, 0x40, 0x400_0000), Rotr(x, 0x800, 0x20_0000), Rotr(x, 0x200_0000, 0x80), i);
  }

  /** A shift right brings in zeros. */
  lemma ShiftedBit(x: Word, n: nat, q: nat, i: nat)
    requires Pow2(n) > 0 && q == x / Pow2(n)
    ensures Bit(q, i) <==> i + n < 32 && Bit(x, i + n)
  {
    ShiftBit(x, n, q, i);
    if i + n >= 32 {
      Pow2Word();
      HighBit(x, 32, i + n);
    }
  }

  lemma {:induction false} HighBit(x: nat, n: nat, i: nat)
    requires x < Pow2(n) && n <= i
    ensures !Bit(x, i)
  {
    if i > 0 && n > 0 {
      HighBit(x / 2, n - 1, i - 1);
    } else {
      ZeroBits(i);
    }
  }

  lemma SmallSigma0Bit(x: Word, i: nat)
    requires i < 32
    ensures Bit(SmallSigma0(x), i) <==>
            (Bit(x, Round32(i + 7)) != Bit(x, Round32(i + 18))) != (i + 3 < 32 && Bit(x, i + 3))
  {
    PowersOfTwo();
    assert Pow2(3) == 0x8;
    RotrBit(x, 7, 0x80, 0x200_0000, i);
    RotrBit(x, 18, 0x4_0000, 0x4000, i);
    ShiftedBit(x, 3, x / 0x8, i);
    XorOfThree(Rotr(x, 0x80, 0x200_0000), Rotr(x, 0x4_0000, 0x4000), x / 0x8, i);
  }

  lemma SmallSigma1Bit(x: Word, i: nat)
    requires i < 32
    ensures Bit(SmallSigma1(x), i) <==>
            (Bit(x, Round32(i + 17)) != Bit(x, Round32(i + 19))) != (i + 10 < 32 && Bit(x, i + 10))
  {
    PowersOfTwo();
    RotrBit(x, 17, 0x2_0000, 0x8000, i);
    RotrBit(x, 19, 0x8_0000, 0x2000, i);
    ShiftedBit(x, 10, x / 0x400, i);
    XorOfThree(Rotr(x, 0x2_0000, 0x8000), Rotr(x, 0x8_0000, 0x2000), x / 0x400, i);
  }

  // Section 3.1 and 5.1.1: bytes and the numbers they spell, most significant first.

  function Number(b: seq<Byte>): nat {
    if b == [] then 0 else Number(b[..|b| - 1]) * 0x100 + b[|b| - 1]
  }

  lemma {:induction false} NumberSnoc(b: seq<Byte>, x: Byte)
    ensures Number(b + [x]) == Number(b) * 0x100 + x
  {
    assert (b + [x])[..|b|] == b;
  }

  lemma NumberOfFour(a: Byte, b: Byte, c: Byte, d: Byte)
    ensures Number([a, b, c, d]) == ((a * 0x100 + b) * 0x100 + c) * 0x100 + d
  {
    NumberSnoc([], a);
    NumberSnoc([a], b);
    NumberSnoc([a, b], c);
    NumberSnoc([a, b, c], d);
    assert [] + [a] == [a] && [a] + [b] == [a, b] && [a, b] + [c] == [a, b, c];
    assert [a, b, c] + [d] == [a, b, c, d];
  }

  lemma BytesSpellWord(a: Byte, b: Byte, c: Byte, d: Byte)
    ensures BytesToWord(a, b, c, d) == Number([a, b, c, d]) && WordBytes(BytesToWord(a, b, c, d)) == [a, b, c, d]
  {
    NumberOfFour(a, b, c, d);
    WordTakenApart(BytesToWord(a, b, c, d), a, b, c, d);
  }

  lemma WordTakenApart(x: nat, a: Byte, b: Byte, c: Byte, d: Byte)
    requires x == 0x100_0000 * a + 0x1_0000 * b + 0x100 * c + d
    ensures x / 0x100_0000 == a && x / 0x1_0000 % 0x100 == b && x / 0x100 % 0x100 == c && x % 0x100 == d
  {
    DivideOnce(x, 0x100_0000, a, 0x1_0000 * b + 0x100 * c + d);
    DivideOnce(x, 0x1_0000, 0x100 * a + b, 0x100 * c + d);
    DivideOnce(x, 0x100, 0x1_0000 * a + 0x100 * b + c, d);
  }

  lemma WordSpelled(x: Word)
    ensures Number(WordBytes(x)) == x
  {
    var b := WordBytes(x);
    NumberOfFour(b[0], b[1], b[2], b[3]);
    assert b == [b[0], b[1], b[2], b[3]];
  }

  /** Byte `i` of `b` is digit `i` of the number, counted from the most significant of `n`. */
  predicate IsDigit(v: nat, n: nat, b: seq<Byte>, i: nat) {
    i < n == |b| && b[i] == v / Power256(n - 1 - i) % 0x100
  }

  lemma {:induction false} DigitsSpell(v: nat, n: nat, b: seq<Byte>)
    requires |b| == n && forall i: nat :: i < n ==> IsDigit(v, n, b, i)
    ensures Number(b) == v % Power256(n)
    decreases n
  {
    if n > 0 {
      var w, rest, m := v / 0x100, b[..n - 1], n - 1;
      forall i: nat | i < m ensures IsDigit(w, m, rest, i) {
        assert IsDigit(v, n, b, i);
        ByteFirst(v, Power256(m - 1 - i));
      }
      DigitsSpell(w, m, rest);
      ByteFirst(v, Power256(n - 1));
      assert IsDigit(v, n, b, n - 1) && Power256(0) == 1;
    }
  }

  /** Dividing by 256 times `d`: the lowest byte goes first. */
  lemma ByteFirst(x: nat, d: nat)
    requires d > 0
    ensures x / (0x100 * d) == x / 0x100 / d && x % (0x100 * d) == 0x100 * (x / 0x100 % d) + x % 0x100
  {
    var q, r := x / 0x100 / d, x / 0x100 % d;
    assert x / 0x100 == q * d + r;
    assert x == q * (0x100 * d) + (0x100 * r + x % 0x100);
    DivideOnce(x, 0x100 * d, q, 0x100 * r + x % 0x100);
  }

  /** The length field spells the length. */
  lemma LengthSpelled(v: nat)
    requires v < 0x1_0000_0000_0000_0000
    ensures Number(BigEndian64(v)) == v
  {
    var b := BigEndian64(v);
    forall i: nat | i < 8 ensures IsDigit(v, 8, b, i) {
    }
    DigitsSpell(v, 8, b);
    EightBytes();
  }

  lemma EightBytes()
    ensures Power256(8) == 0x1_0000_0000_0000_0000
  {
    assert Power256(2) == 0x1_0000;
    assert Power256(4) == 0x1_0000_0000;
    assert Power256(6) == 0x1_0000_0000_0000;
  }

  /**
   The padded message: the message, a byte 0x80, zeros and in the last eight bytes the
   number of bits; a whole number of blocks, the fewest that hold all of it.
   */
  lemma PadSpelled(m: seq<Byte>)
    ensures var p, n := Pad(m), |m|;
      && |p| % 64 == 0 && n + 9 <= |p| < n + 9 + 64 && p[..n] == m && p[n] == 0x80
      && (forall i :: n < i < |p| - 8 ==> p[i] == 0)
      && Number(p[|p| - 8..]) == 8 * n % 0x1_0000_0000_0000_0000
  {
    var p, n := Pad(m), |m|;
    LengthSpelled(8 * n % 0x1_0000_0000_0000_0000);
    assert p[|p| - 8..] == BigEndian64(8 * n % WORD64);
  }

  /** The digest is the eight words in order, each spelled in four bytes. */
  lemma ReadOutSpells(h: Vars)
    ensures var r := ReadOut(h);
      && Number(r[..4]) == h.a && Number(r[4..8]) == h.b && Number(r[8..12]) == h.c && Number(r[12..16]) == h.d
      && Number(r[16..20]) == h.e && Number(r[20..24]) == h.f && Number(r[24..28]) == h.g && Number(r[28..]) == h.h
  {
    var r := ReadOut(h);
    assert r[..4] == WordBytes(h.a) && r[4..8] == WordBytes(h.b);
    assert r[8..12] == WordBytes(h.c) && r[12..16] == WordBytes(h.d);
    assert r[16..20] == WordBytes(h.e) && r[20..24] == WordBytes(h.f);
    assert r[24..28] == WordBytes(h.g) && r[28..] == WordBytes(h.h);
    WordSpelled(h.a);
    WordSpelled(h.b);
    WordSpelled(h.c);
    WordSpelled(h.d);
    WordSpelled(h.e);
    WordSpelled(h.f);
    WordSpelled(h.g);
    WordSpelled(h.h);
  }

  // Section 6.2.2: nothing is lost in a round or in the schedule.

  function Sub(x: Word, y: Word): Word {
    if x >= y then x - y else x + WORD32 - y
  }

  lemma SubUndoesAdd(x: Word, y: Word)
    ensures Sub(Add(x, y), y) == x && Sub(Add(x, y), x) == y && Add(Sub(x, y), y) == x && Add(y, Sub(x, y)) == x
  {
  }

  /** The working variables before a round, from those after it. */
  function Unround(v: Vars, k: Word, w: Word): Vars {
    var t1 := Sub(v.a, Add(BigSigma0(v.b), Maj(v.b, v.c, v.d)));
    Vars(v.b, v.c, v.d, Sub(v.e, t1), v.f, v.g, v.h,
         Sub(Sub(Sub(Sub(t1, w), k), Ch(v.f, v.g, v.h)), BigSigma1(v.f)))
  }

  lemma RoundUndone(v: Vars, k: Word, w: Word)
    ensures Unround(Round(v, k, w), k, w) == v && Round(Unround(v, k, w), k, w) == v
  {
    var s, c := BigSigma1(v.e), Ch(v.e, v.f, v.g);
    var t2 := Add(BigSigma0(v.a), Maj(v.a, v.b, v.c));
    AddsUndone(v.h, s, c, k, w);
    SubUndoesAdd(Add(Add(Add(Add(v.h, s), c), k), w), t2);
    SubUndoesAdd(v.d, Add(Add(Add(Add(v.h, s), c), k), w));
    var t := Add(BigSigma0(v.b), Maj(v.b, v.c, v.d));
    var t1 := Sub(v.a, t);
    SubUndoesAdd(v.a, t);
    SubUndoesAdd(v.e, t1);
    SubsUndone(t1, w, k, Ch(v.f, v.g, v.h), BigSigma1(v.f));
  }

  lemma AddsUndone(h: Word, s: Word, c: Word, k: Word, w: Word)
    ensures Sub(Sub(Sub(Sub(Add(Add(Add(Add(h, s), c), k), w), w), k), c), s) == h
  {
    SubUndoesAdd(Add(Add(Add(h, s), c), k), w);
    SubUndoesAdd(Add(Add(h, s), c), k);
    SubUndoesAdd(Add(h, s), c);
    SubUndoesAdd(h, s);
  }

  lemma SubsUndone(t: Word, w: Word, k: Word, c: Word, s: Word)
    ensures Add(Add(Add(Add(Sub(Sub(Sub(Sub(t, w), k), c), s), s), c), k), w) == t
  {
    SubUndoesAdd(Sub(Sub(Sub(t, w), k), c), s);
    SubUndoesAdd(Sub(Sub(t, w), k), c);
    SubUndoesAdd(Sub(t, w), k);
    SubUndoesAdd(t, w);
  }

  /** Different working variables stay different through any number of rounds over a block. */
  lemma {:induction false} RoundsKeepApart(k: seq<Word>, v: Vars, u: Vars, block: seq<Byte>, t: nat)
    requires |block| == BLOCK && t <= |k| && Rounds(k, v, block, t) == Rounds(k, u, block, t)
    ensures v == u
    decreases t
  {
    if t > 0 {
      var x, y := Rounds(k, v, block, t - 1), Rounds(k, u, block, t - 1);
      RoundUndone(x, k[t - 1], Schedule(block, t - 1));
      RoundUndone(y, k[t - 1], Schedule(block, t - 1));
      RoundsKeepApart(k, v, u, block, t - 1);
    }
  }

  /** The first sixteen words of the schedule spell the block; each later one gives back the one sixteen before. */
  lemma ScheduleSpells(block: seq<Byte>, t: nat)
    requires |block| == BLOCK
    ensures t < 16 ==> WordBytes(Schedule(block, t)) == block[4 * t..4 * t + 4]
    ensures Sub(Sub(Sub(Schedule(block, t + 16), SmallSigma0(Schedule(block, t + 1))), Schedule(block, t + 9)),
                SmallSigma1(Schedule(block, t + 14))) == Schedule(block, t)
  {
    if t < 16 {
      BytesSpellWord(block[4 * t], block[4 * t + 1], block[4 * t + 2], block[4 * t + 3]);
    }
    var s0, s1 := SmallSigma0(Schedule(block, t + 1)), SmallSigma1(Schedule(block, t + 14));
    var w7, w16 := Schedule(block, t + 9), Schedule(block, t);
    assert Schedule(block, t + 16) == Add(Add(Add(s1, w7), s0), w16);
    Regroup(s1, w7, s0, w16);
    TakenBack(w16, s0, w7, s1);
  }

  lemma TakenBack(w: Word, s0: Word, v: Word, s1: Word)
    ensures Sub(Sub(Sub(Add(Add(Add(w, s0), v), s1), s0), v), s1) == w
  {
    var x := (w + s0 + v + s1) % WORD32;
    assert Add(Add(Add(w, s0), v), s1) == x;
  }

  /** A block adds the outcome of its 64 rounds to each word of the hash value. */
  lemma CompressAdds(k: seq<Word>, h: Vars, block: seq<Byte>)
    requires |block| == BLOCK && |k| == 64
    ensures var n, v := Compress(k, h, block), Rounds(k, h, block, 64);
      && Sub(n.a, h.a) == v.a && Sub(n.b, h.b) == v.b && Sub(n.c, h.c) == v.c && Sub(n.d, h.d) == v.d
      && Sub(n.e, h.e) == v.e && Sub(n.f, h.f) == v.f && Sub(n.g, h.g) == v.g && Sub(n.h, h.h) == v.h
  {
    var v := Rounds(k, h, block, 64);
    SubUndoesAdd(h.a, v.a);
    SubUndoesAdd(h.b, v.b);
    SubUndoesAdd(h.c, v.c);
    SubUndoesAdd(h.d, v.d);
    SubUndoesAdd(h.e, v.e);
    SubUndoesAdd(h.f, v.f);
    SubUndoesAdd(h.g, v.g);
    SubUndoesAdd(h.h, v.h);
  }
}
