/** Word operations bit by bit: what section 3.2 of FIPS 180-4 means by them. Bit 0 is the least significant. */
module Bits {
  import opened Words
  import opened Fips180

  // ---- bits and division ----

  lemma DivDiv(x: nat, d: nat)
    requires d > 0
    ensures x / 2 / d == x / (2 * d)
  {
    var q := x / 2 / d;
    var r := x / 2 % d;
    assert x / 2 == q * d + r && x == 2 * (x / 2) + x % 2;
    assert x == q * (2 * d) + (2 * r + x % 2) && 0 <= 2 * r + x % 2 < 2 * d;
    DivUnique(x, 2 * d, q, 2 * r + x % 2);
  }

  lemma Multiples(d: nat, k: int)
    ensures k >= 1 ==> d * k >= d
    ensures k <= -1 ==> d * k <= -(d as int)
  {
  }

  lemma DivUnique(x: nat, d: nat, q: nat, r: nat)
    requires x == q * d + r && r < d
    ensures x / d == q && x % d == r
  {
    var k := x / d - q;
    assert x == d * (x / d) + x % d && d * k == r - x % d;
    Multiples(d, k);
  }

  /** Bit `i` is the parity of the quotient by `2^i`. */
  lemma {:induction false} BitIs(x: nat, i: nat)
    ensures Pow2(i) > 0
    ensures Bit(x, i) <==> x / Pow2(i) % 2 == 1
  {
    if i > 0 {
      BitIs(x / 2, i - 1);
      DivDiv(x, Pow2(i - 1));
    }
  }

  lemma {:induction false} HighBit(x: nat, m: nat, i: nat)
    requires x < Pow2(m) && m <= i
    ensures !Bit(x, i)
  {
    if m > 0 {
      HighBit(x / 2, m - 1, i - 1);
    } else {
      ZeroBit(i);
    }
  }

  lemma {:induction false} ZeroBit(i: nat)
    ensures !Bit(0, i)
  {
    if i > 0 { ZeroBit(i - 1); }
  }

  /** A word is determined by its 32 bits, so the laws below determine every operation. */
  lemma {:induction false} SameBits(x: nat, y: nat, m: nat)
    requires x < Pow2(m) && y < Pow2(m) && forall i: nat :: i < m ==> Bit(x, i) == Bit(y, i)
    ensures x == y
  {
    if m > 0 {
      assert Bit(x, 0) == Bit(y, 0);
      forall i: nat | i < m - 1
        ensures Bit(x / 2, i) == Bit(y / 2, i)
      {
        assert Bit(x, i + 1) == Bit(y, i + 1);
      }
      SameBits(x / 2, y / 2, m - 1);
    }
  }

  // ---- logical operations ----

  lemma LogicBits(a: Word, b: Word, i: nat)
    requires i < 32
    ensures Bit(And(a, b), i) <==> Bit(a, i) && Bit(b, i)
    ensures Bit(Or(a, b), i) <==> Bit(a, i) || Bit(b, i)
    ensures Bit(Xor(a, b), i) <==> Bit(a, i) != Bit(b, i)
  {
    BitwiseBit(AndOp, a, b, 32, i);
    BitwiseBit(OrOp, a, b, 32, i);
    BitwiseBit(XorOp, a, b, 32, i);
  }

  lemma {:induction false} ComplementBit(a: nat, m: nat, i: nat)
    requires a < Pow2(m) && i < m
    ensures Bit(Pow2(m) - 1 - a, i) <==> !Bit(a, i)
  {
    var c := Pow2(m) - 1 - a;
    assert c == 2 * (Pow2(m - 1) - 1 - a / 2) + (1 - a % 2);
    assert c % 2 == 1 - a % 2 && c / 2 == Pow2(m - 1) - 1 - a / 2;
    if i > 0 { ComplementBit(a / 2, m - 1, i - 1); }
  }

  lemma NotBit(a: Word, i: nat)
    requires i < 32
    ensures Bit(Not(a), i) <==> !Bit(a, i)
  {
    Pow32();
    ComplementBit(a, 32, i);
  }

  // ---- shifts and rotations ----

  lemma {:induction false} QuotientBit(x: nat, n: nat, q: nat, i: nat)
    requires Pow2(n) > 0 && q == x / Pow2(n)
    ensures Bit(q, i) <==> Bit(x, i + n)
  {
    if n > 0 {
      DivDiv(x, Pow2(n - 1));
      QuotientBit(x / 2, n - 1, q, i);
    }
  }

  /** A right shift by `n` moves bit `i + n` to bit `i`. */
  lemma ShrBit(x: Word, n: nat, i: nat)
    requires n < 32
    ensures Bit(Shr(x, n), i) <==> Bit(x, i + n)
  {
    PowPositive(n);
    QuotientBit(x, n, Shr(x, n), i);
  }

  lemma {:induction false} ProductBit(x: nat, n: nat, i: nat)
    ensures Bit(x * Pow2(n), i) <==> n <= i && Bit(x, i - n)
  {
    if n > 0 {
      var half := x * Pow2(n - 1);
      assert x * Pow2(n) == 2 * half;
      if i > 0 { ProductBit(x, n - 1, i - 1); }
    }
  }

  lemma {:induction false} RemainderBit(y: nat, m: nat, i: nat)
    requires i < m
    ensures Pow2(m) > 0 && (Bit(y % Pow2(m), i) <==> Bit(y, i))
  {
    PowPositive(m);
    PowPositive(m - 1);
    var d := Pow2(m - 1);
    var r := y / 2 % d;
    assert y / 2 == y / 2 / d * d + r;
    assert y == y / 2 / d * (2 * d) + (2 * r + y % 2);
    DivUnique(y, 2 * d, y / 2 / d, 2 * r + y % 2);
    if i > 0 { RemainderBit(y / 2, m - 1, i - 1); }
  }

  /** A left shift by `n` moves bit `i - n` to bit `i` and fills with zeros. */
  lemma ShlBit(x: Word, n: nat, i: nat)
    requires i < 32
    ensures Bit(Shl(x, n), i) <==> n <= i && Bit(x, i - n)
  {
    Pow32();
    RemainderBit(x * Pow2(n), 32, i);
    ProductBit(x, n, i);
  }

  /** A rotation to the right by `n` moves bit `i + n`, counted around the word, to bit `i`. */
  lemma RotrBit(x: Word, n: nat, i: nat)
    requires 0 < n < 32 && i < 32
    ensures Bit(Rotr(x, n), i) <==> Bit(x, (i + n) % 32)
  {
    hide Bit, Pow2, Shr, Shl, Or;
    Pow32();
    LogicBits(Shr(x, n), Shl(x, 32 - n), i);
    ShrBit(x, n, i);
    ShlBit(x, 32 - n, i);
    if i + n >= 32 { HighBit(x, 32, i + n); }
  }

  // ---- the standard's functions ----

  /** Choice: the first word selects, bit by bit, between the other two. */
  lemma ChBit(x: Word, y: Word, z: Word, i: nat)
    requires i < 32
    ensures Bit(Ch(x, y, z), i) <==> if Bit(x, i) then Bit(y, i) else Bit(z, i)
  {
    LogicBits(x, y, i);
    NotBit(x, i);
    LogicBits(Not(x), z, i);
    LogicBits(And(x, y), And(Not(x), z), i);
  }

  /** Majority: at least two of the three bits. */
  lemma MajBit(x: Word, y: Word, z: Word, i: nat)
    requires i < 32
    ensures Bit(Maj(x, y, z), i) <==>
              (Bit(x, i) && Bit(y, i)) || (Bit(x, i) && Bit(z, i)) || (Bit(y, i) && Bit(z, i))
  {
    LogicBits(x, y, i);
    LogicBits(x, z, i);
    LogicBits(y, z, i);
    LogicBits(And(x, y), And(x, z), i);
    LogicBits(Xor(And(x, y), And(x, z)), And(y, z), i);
  }

  lemma Xor3Bit(a: Word, b: Word, c: Word, i: nat)
    requires i < 32
    ensures Bit(Xor(Xor(a, b), c), i) <==> (Bit(a, i) != Bit(b, i)) != Bit(c, i)
  {
    LogicBits(a, b, i);
    LogicBits(Xor(a, b), c, i);
  }

  /** The four sigma functions, by the bits they add up modulo two. */
  lemma SigmaBits(x: Word, i: nat)
    requires i < 32
    ensures Bit(BigSigma0(x), i) <==> (Bit(x, (i + 2) % 32) != Bit(x, (i + 13) % 32)) != Bit(x, (i + 22) % 32)
    ensures Bit(BigSigma1(x), i) <==> (Bit(x, (i + 6) % 32) != Bit(x, (i + 11) % 32)) != Bit(x, (i + 25) % 32)
    ensures Bit(SmallSigma0(x), i) <==> (Bit(x, (i + 7) % 32) != Bit(x, (i + 18) % 32)) != Bit(x, i + 3)
    ensures Bit(SmallSigma1(x), i) <==> (Bit(x, (i + 17) % 32) != Bit(x, (i + 19) % 32)) != Bit(x, i + 10)
  {
    hide Bit, Rotr, Shr, Xor;
    Rotations(x, i, 2, 13);
    Rotations(x, i, 22, 6);
    Rotations(x, i, 11, 25);
    Rotations(x, i, 7, 18);
    Rotations(x, i, 17, 19);
    ShrBit(x, 3, i);
    ShrBit(x, 10, i);
    Xor3Bit(Rotr(x, 2), Rotr(x, 13), Rotr(x, 22), i);
    Xor3Bit(Rotr(x, 6), Rotr(x, 11), Rotr(x, 25), i);
    Xor3Bit(Rotr(x, 7), Rotr(x, 18), Shr(x, 3), i);
    Xor3Bit(Rotr(x, 17), Rotr(x, 19), Shr(x, 10), i);
  }

  lemma Rotations(x: Word, i: nat, m: nat, n: nat)
    requires 0 < m < 32 && 0 < n < 32 && i < 32
    ensures Bit(Rotr(x, m), i) <==> Bit(x, (i + m) % 32)
    ensures Bit(Rotr(x, n), i) <==> Bit(x, (i + n) % 32)
  {
    RotrBit(x, m, i);
    RotrBit(x, n, i);
  }

  /** The limits: 64 bits of message length, and the integers a double holds exactly. */
  lemma Limits()
    ensures 8 * MAX_BYTES == Pow2(32) * Pow2(32) && TWO32 == Pow2(32) && TWO31 == Pow2(31)
    ensures MAX_SAFE == Pow2(32) * Pow2(21)
  {
    Pow32();
    assert Pow2(8) == 256 && Pow2(16) == 0x1_0000 && Pow2(21) == 0x20_0000 && Pow2(24) == 0x100_0000;
    assert Pow2(32) == 2 * Pow2(31);
  }

  // ---- bytes ----

  /** Four bytes, most significant first. */
  lemma WordBytesValue(w: Word)
    ensures var bs: seq<int> := WordBytes(w);
            w == bs[0] * 0x100_0000 + bs[1] * 0x1_0000 + bs[2] * 0x100 + bs[3]
  {
    var q1, q2 := w / 256, w / 256 / 256;
    assert w == 256 * q1 + w % 256 && q1 == 256 * q2 + q1 % 256 && q2 == 256 * (q2 / 256) + q2 % 256;
  }

  lemma WordAtValue(bs: seq<int>, i: nat)
    requires i + 4 <= |bs| && forall j :: 0 <= j < |bs| ==> 0 <= bs[j] < 256
    ensures WordAt(bs, i) == bs[i] * 0x100_0000 + bs[i + 1] * 0x1_0000 + bs[i + 2] * 0x100 + bs[i + 3]
  {
  }
}
