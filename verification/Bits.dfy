/** Fixed-width unsigned integers and the C bit operators on them.

  Unsigned arithmetic in the kernel wraps modulo 2^32, so every sum, difference and
  product that C computes in a `uint32_t` is written `U32(...)` here.  The bit operators
  are defined bit by bit and then related to division and remainder. */
module Bits {

  type uint8 = x: int | 0 <= x < 0x100
  type uint16 = x: int | 0 <= x < 0x1_0000
  type uint32 = x: int | 0 <= x < 0x1_0000_0000

  const WORD: nat := 0x1_0000_0000

  /** The value kept by a `uint32_t`: v modulo 2^32 (U32IsRemainder), for negative v too.
      Wrapping step by step keeps the proofs that use it in linear arithmetic. */
  function U32(v: int): uint32
    decreases if v < 0 then WORD - v else v
  {
    if v < 0 then U32(v + WORD)
    else if v < WORD then v
    else U32(v - WORD)
  }

  lemma {:induction false} U32IsRemainder(v: int)
    ensures U32(v) == v % 0x1_0000_0000
    decreases if v < 0 then WORD - v else v
  {
    if v < 0 {
      U32IsRemainder(v + WORD);
    } else if v >= WORD {
      U32IsRemainder(v - WORD);
    }
  }

  /** The value kept by a `uint8_t` */
  function U8(v: int): uint8 {
    v % 0x100
  }

  function Pow2(k: nat): (p: nat)
    ensures p >= 1
  {
    if k == 0 then 1 else 2 * Pow2(k - 1)
  }

  function And(x: nat, y: nat): nat {
    if x == 0 || y == 0 then 0
    else 2 * And(x / 2, y / 2) + (if x % 2 == 1 && y % 2 == 1 then 1 else 0)
  }

  function Or(x: nat, y: nat): nat {
    if x == 0 then y
    else if y == 0 then x
    else 2 * Or(x / 2, y / 2) + (if x % 2 == 1 || y % 2 == 1 then 1 else 0)
  }

  function Shl(x: nat, k: nat): nat {
    if k == 0 then x else 2 * Shl(x, k - 1)
  }

  function Shr(x: nat, k: nat): nat {
    if k == 0 then x else Shr(x / 2, k - 1)
  }

  lemma Pow2Values()
    ensures Pow2(4) == 0x10 && Pow2(8) == 0x100
    ensures Pow2(16) == 0x1_0000 && Pow2(24) == 0x100_0000
    ensures Pow2(28) == 0x1000_0000
  {
    assert Pow2(4) == 0x10;
    assert Pow2(8) == 0x100;
    assert Pow2(12) == 0x1000;
    assert Pow2(16) == 0x1_0000;
    assert Pow2(20) == 0x10_0000;
    assert Pow2(24) == 0x100_0000;
  }

  /** Halving a remainder modulo `2 * m` */
  lemma HalveMod(x: nat, m: nat)
    requires m >= 1
    ensures x % (2 * m) == 2 * (x / 2 % m) + x % 2
  {
    var q := x / 2 / m;
    var r := x / 2 % m;
    assert x / 2 == q * m + r;
    assert x == (2 * m) * q + (2 * r + x % 2) by {
      assert 2 * (q * m) == (2 * m) * q;
    }
    DivModUnique(x, 2 * m, q, 2 * r + x % 2);
  }

  /** Quotient and remainder are determined by their defining equation */
  lemma DivModUnique(x: int, m: nat, q: int, r: int)
    requires m >= 1 && 0 <= r < m && x == m * q + r
    ensures x / m == q && x % m == r
  {
    var q' := x / m;
    MulDistributes(m, q, q');
    SmallMultiple(m, q - q');
  }

  lemma MulDistributes(m: int, a: int, b: int)
    ensures m * (a - b) == m * a - m * b
    ensures m * (a + b) == m * a + m * b
  {
  }

  lemma SmallMultiple(m: int, d: int)
    requires -m < m * d < m
    ensures d == 0
  {
    if d >= 1 {
      MulMonotone(m, 1, d);
    } else if d <= -1 {
      MulMonotone(m, d, -1);
    }
  }

  lemma MulMonotone(m: int, a: int, b: int)
    requires 0 <= m && a <= b
    ensures m * a <= m * b && a * m <= b * m
  {
  }

  lemma MulCommutes(a: int, b: int)
    ensures a * b == b * a
  {
  }

  lemma MulAssoc(a: int, b: int, c: int)
    ensures a * (b * c) == (a * b) * c
  {
  }

  lemma AndStep(x: nat, y: nat)
    ensures And(x, y) == 2 * And(x / 2, y / 2) + (if x % 2 == 1 && y % 2 == 1 then 1 else 0)
  {
  }

  lemma OrStep(x: nat, y: nat)
    ensures Or(x, y) == 2 * Or(x / 2, y / 2) + (if x % 2 == 1 || y % 2 == 1 then 1 else 0)
  {
  }

  /** The k low bits */
  function LowBits(x: nat, k: nat): nat {
    if k == 0 then 0 else 2 * LowBits(x / 2, k - 1) + x % 2
  }

  lemma {:induction false} LowBitsIsRemainder(x: nat, k: nat)
    ensures LowBits(x, k) == x % Pow2(k)
  {
    if k > 0 {
      LowBitsIsRemainder(x / 2, k - 1);
      HalveMod(x, Pow2(k - 1));
    }
  }

  lemma {:induction false} AndOnes(x: nat, k: nat)
    ensures And(x, Pow2(k) - 1) == LowBits(x, k)
  {
    if k > 0 {
      var m := Pow2(k - 1);
      AndOnes(x / 2, k - 1);
      AndStep(x, 2 * m - 1);
      assert (2 * m - 1) / 2 == m - 1;
    }
  }

  /** Masking with k one bits keeps the remainder modulo 2^k */
  lemma AndMask(x: nat, k: nat)
    ensures And(x, Pow2(k) - 1) == x % Pow2(k)
  {
    AndOnes(x, k);
    LowBitsIsRemainder(x, k);
  }

  lemma {:induction false} AndAllOnes(x: nat, k: nat)
    requires x < Pow2(k)
    ensures And(x, Pow2(k) - 1) == x
  {
    if k > 0 {
      var m := Pow2(k - 1);
      AndAllOnes(x / 2, k - 1);
      AndStep(x, 2 * m - 1);
      assert (2 * m - 1) / 2 == m - 1;
    }
  }

  lemma {:induction false} ShlIsProduct(x: nat, k: nat)
    ensures Shl(x, k) == x * Pow2(k)
  {
    if k > 0 {
      ShlIsProduct(x, k - 1);
      Doubled(x, Pow2(k - 1));
    }
  }

  lemma {:induction false} ShrIsQuotient(x: nat, k: nat)
    ensures Shr(x, k) == x / Pow2(k)
  {
    if k > 0 {
      ShrIsQuotient(x / 2, k - 1);
      DivTwice(x, Pow2(k - 1));
    }
  }

  lemma Doubled(a: nat, p: nat)
    ensures a * (2 * p) == 2 * (a * p) >= 0
  {
  }

  /** A mask whose k low bits are clear acts on the remaining high bits */
  lemma {:induction false} AndShifted(x: nat, m: nat, k: nat)
    ensures And(x, Shl(m, k)) == Shl(And(Shr(x, k), m), k)
  {
    if k > 0 {
      AndShifted(x / 2, m, k - 1);
      AndStep(x, Shl(m, k));
    }
  }

  lemma DivTwice(x: nat, m: nat)
    requires m >= 1
    ensures x / 2 / m == x / (2 * m)
  {
    var q := x / 2 / m;
    var r := x / 2 % m;
    assert x / 2 == m * q + r;
    assert x == (2 * m) * q + (2 * r + x % 2) by {
      assert 2 * (m * q) == (2 * m) * q;
    }
    DivModUnique(x, 2 * m, q, 2 * r + x % 2);
  }

  lemma {:induction false} ShlZero(x: nat, k: nat)
    ensures Shl(x, k) == 0 <==> x == 0
  {
    if k > 0 {
      ShlZero(x, k - 1);
    }
  }

  /** Testing one bit */
  lemma {:induction false} AndBit(x: nat, k: nat)
    ensures And(x, Shl(1, k)) != 0 <==> Shr(x, k) % 2 == 1
  {
    AndShifted(x, 1, k);
    AndStep(Shr(x, k), 1);
    ShlZero(And(Shr(x, k), 1), k);
  }

  /** An OR of values that share no bit position is a sum */
  lemma {:induction false} OrDisjoint(hi: nat, lo: nat, k: nat)
    requires lo < Pow2(k)
    ensures Or(Shl(hi, k), lo) == Shl(hi, k) + lo
  {
    if k > 0 {
      OrDisjoint(hi, lo / 2, k - 1);
      OrStep(Shl(hi, k), lo);
    }
  }

  /** A common shift moves out of an OR */
  lemma {:induction false} OrShifted(x: nat, y: nat, k: nat)
    ensures Or(Shl(x, k), Shl(y, k)) == Shl(Or(x, y), k)
  {
    if k > 0 {
      OrShifted(x, y, k - 1);
      OrStep(Shl(x, k), Shl(y, k));
    }
  }

  /** Adding an offset and taking it back, modulo 2^32 */
  lemma OffsetRoundTrip(base: uint32, k: uint32, at: uint32)
    ensures U32(at - base) == k <==> at == U32(base + k)
  {
    assert U32(at - base) == if at < base then at - base + WORD else at - base;
    assert U32(base + k) == if base + k < WORD then base + k else base + k - WORD;
  }

  /** Only the residue of an offset matters */
  lemma WrapInside(a: int, b: int)
    ensures U32(a + U32(b)) == U32(a + b)
    ensures U32(a - U32(b)) == U32(a - b)
  {
    var q := b / WORD;
    U32IsRemainder(b);
    ModShift(a + U32(b), q);
    ModShift(a - U32(b), -q);
  }

  lemma ModShift(v: int, q: int)
    ensures U32(v + WORD * q) == U32(v)
  {
    U32IsRemainder(v);
    U32IsRemainder(v + WORD * q);
    DivModUnique(v + WORD * q, WORD, v / WORD + q, v % WORD);
  }

  lemma WrapSum(p: int, q: int)
    ensures U32(p + q) == U32(U32(p) + U32(q))
  {
    WrapInside(p, q);
    WrapInside(U32(q), p);
  }

  lemma WrapProduct(v: int, f: int)
    ensures U32(f * U32(v)) == U32(f * v)
  {
    var q, r := v / WORD, U32(v);
    U32IsRemainder(v);
    assert v == WORD * q + r;
    assert f * v == f * r + WORD * (f * q) by {
      MulDistributes(f, WORD * q, r);
      MulAssoc(f, WORD, q);
      MulAssoc(WORD, f, q);
    }
    ModShift(f * r, f * q);
  }
}
