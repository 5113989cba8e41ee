/**
 The word operations and the byte orders of SHA-256, bit by bit and as numbers.
 */
module Sha256Bits {
  import opened Sha256Digest

  /** Bit `i` of a number, the lowest being bit 0. */
  predicate Bit(x: nat, i: nat) {
    if i == 0 then x % 2 == 1 else Bit(x / 2, i - 1)
  }

  /** A word is its 32 bits. */
  lemma {:induction false} BitsTell(x: nat, y: nat, n: nat)
    requires x < Pow2(n) && y < Pow2(n) && forall i :: 0 <= i < n ==> (Bit(x, i) <==> Bit(y, i))
    ensures x == y
  {
    if n > 0 {
      assert Bit(x, 0) <==> Bit(y, 0);
      forall i | 0 <= i < n - 1 ensures Bit(x / 2, i) <==> Bit(y / 2, i) {
        assert Bit(x, i + 1) <==> Bit(y, i + 1);
      }
      BitsTell(x / 2, y / 2, n - 1);
    }
  }

  lemma {:induction false} ZeroBits(i: nat)
    ensures !Bit(0, i)
  {
    if i > 0 { ZeroBits(i - 1); }
  }

  lemma {:induction false} XorBit(x: nat, y: nat, i: nat)
    ensures Bit(XorBits(x, y), i) <==> Bit(x, i) != Bit(y, i)
  {
    if x == 0 {
      ZeroBits(i);
    } else if i > 0 {
      XorBit(x / 2, y / 2, i - 1);
    }
  }

  lemma {:induction false} AndBit(x: nat, y: nat, i: nat)
    ensures Bit(AndBits(x, y), i) <==> Bit(x, i) && Bit(y, i)
  {
    if x == 0 {
      ZeroBits(i);
    } else if i > 0 {
      AndBit(x / 2, y / 2, i - 1);
    }
  }

  lemma {:induction false} NotBits(x: nat, n: nat, i: nat)
    requires x < Pow2(n) && i < n
    ensures Bit(Pow2(n) - 1 - x, i) <==> !Bit(x, i)
  {
    if i > 0 {
      assert (Pow2(n) - 1 - x) / 2 == Pow2(n - 1) - 1 - x / 2;
      NotBits(x / 2, n - 1, i - 1);
    }
  }

  lemma NotBit(x: Word, i: nat)
    requires i < 32
    ensures Bit(Not(x), i) <==> !Bit(x, i)
  {
    Pow2Word();
    NotBits(x, 32, i);
  }

  // Shifts and rotations.

  lemma DivideOnce(x: nat, d: nat, q: nat, r: nat)
    requires d > 0 && x == q * d + r && r < d
    ensures x / d == q && x % d == r
  {
    var k := x / d;
    assert (k - q) * d == r - x % d;
    assert k - q >= 1 ==> (k - q) * d >= d;
    assert q - k >= 1 ==> (q - k) * d >= d;
  }

  lemma QuotientFits(x: nat, low: nat, high: nat)
    requires low > 0 && x < low * high
    ensures x / low < high
  {
    var q := x / low;
    assert q * low <= x;
    assert q >= high ==> q * low >= high * low;
  }

  /** Dividing by twice `d`: the lowest bit goes first. */
  lemma HalvesFirst(x: nat, d: nat)
    requires d > 0
    ensures x / (2 * d) == x / 2 / d && x % (2 * d) == 2 * (x / 2 % d) + x % 2
  {
    var q, r := x / 2 / d, x / 2 % d;
    assert x / 2 == q * d + r;
    assert x == q * (2 * d) + (2 * r + x % 2);
    DivideOnce(x, 2 * d, q, 2 * r + x % 2);
  }

  lemma {:induction false} Pow2Positive(n: nat)
    ensures Pow2(n) > 0
  {
    if n > 0 { Pow2Positive(n - 1); }
  }

  lemma NextBit(x: nat, i: nat)
    requires i > 0
    ensures Bit(x, i) <==> Bit(x / 2, i - 1)
  {
  }

  lemma {:induction false} ShiftBit(x: nat, n: nat, q: nat, i: nat)
    requires Pow2(n) > 0 && q == x / Pow2(n)
    ensures Bit(q, i) <==> Bit(x, i + n)
    decreases n
  {
    if n > 0 {
      Pow2Positive(n - 1);
      HalvesFirst(x, Pow2(n - 1));
      ShiftBit(x / 2, n - 1, q, i);
      NextBit(x, i + n);
    }
  }

  lemma {:induction false} LowBits(x: nat, n: nat, i: nat)
    ensures Pow2(n) > 0 && (Bit(x % Pow2(n), i) <==> i < n && Bit(x, i))
    decreases n
  {
    Pow2Positive(n);
    if n == 0 {
      ZeroBits(i);
    } else {
      Pow2Positive(n - 1);
      HalvesFirst(x, Pow2(n - 1));
      if i > 0 { LowBits(x / 2, n - 1, i - 1); }
    }
  }

  /** Bits of `r` above `m` bits of `q`. */
  lemma {:induction false} JoinedBits(q: nat, r: nat, m: nat, i: nat)
    requires q < Pow2(m)
    ensures Bit(q + r * Pow2(m), i) <==> if i < m then Bit(q, i) else Bit(r, i - m)
    decreases m
  {
    if m > 0 {
      var p := Pow2(m - 1);
      assert r * Pow2(m) == 2 * (r * p);
      assert (q + r * Pow2(m)) / 2 == q / 2 + r * p && (q + r * Pow2(m)) % 2 == q % 2;
      if i > 0 { JoinedBits(q / 2, r, m - 1, i - 1); }
    }
  }

  /** Rotating right by `n` brings bit `i + n`, counted round, to place `i`. */
  lemma RotrBit(x: Word, n: nat, low: nat, high: nat, i: nat)
    requires 0 < n < 32 && i < 32 && low == Pow2(n) && high == Pow2(32 - n) && low * high == WORD32
    ensures Bit(Rotr(x, low, high), i) <==> Bit(x, if i + n < 32 then i + n else i + n - 32)
  {
    Pow2Positive(n);
    ShiftBit(x, n, x / low, i);
    QuotientFits(x, low, high);
    JoinedBits(x / low, x % low, 32 - n, i);
    if i + n >= 32 { LowBits(x, n, i - (32 - n)); }
  }
}
