/** 64-bit integer arithmetic on patterns: two's complement, or, left shift. */
module Bits {

  type Byte = n: int | 0 <= n < 256

  const TWO_60 := 0x1000_0000_0000_0000
  const TWO_63 := 0x8000_0000_0000_0000
  const TWO_64 := 0x1_0000_0000_0000_0000

  function Pow2(n: nat): (p: nat)
    ensures p > 0
  {
    if n == 0 then 1 else 2 * Pow2(n - 1)
  }

  /** A 64-bit pattern read as a signed number. */
  function Signed(u: int): (x: int)
    requires 0 <= u < TWO_64
    ensures -TWO_63 <= x < TWO_63
  {
    if u < TWO_63 then u else u - TWO_64
  }

  /** The int64 value of the sum of two int64 values. */
  function Wrap(sum: int): (w: int) {
    if sum >= TWO_63 then sum - TWO_64 else if sum < -TWO_63 then sum + TWO_64 else sum
  }

  /** It is the sum modulo 2^64, in range. */
  lemma WrapIsTwosComplement(a: int, b: int)
    requires -TWO_63 <= a < TWO_63 && -TWO_63 <= b < TWO_63
    ensures -TWO_63 <= Wrap(a + b) < TWO_63
    ensures Wrap(a + b) == Signed((a + b) % TWO_64)
  {
  }

  /** Bitwise or of two patterns. */
  function Or(a: nat, b: nat): (c: nat) {
    if a == 0 && b == 0 then 0
    else 2 * Or(a / 2, b / 2) + (if a % 2 == 1 || b % 2 == 1 then 1 else 0)
  }

  /** Left shift of a 64-bit pattern; bits shifted past the top are lost. */
  function Shl(v: nat, s: nat): (p: nat)
    ensures p < TWO_64
  {
    v * Pow2(s) % TWO_64
  }

  lemma Associate(x: nat, y: nat, z: nat)
    ensures x * (y * z) == (x * y) * z
  {
  }

  lemma Scale(a: nat, b: nat, p: nat)
    requires a <= b
    ensures a * p <= b * p
  {
  }

  lemma {:induction false} Pow2Add(a: nat, b: nat)
    ensures Pow2(a + b) == Pow2(a) * Pow2(b)
    decreases b
  {
    if b > 0 {
      Pow2Add(a, b - 1);
      Associate(2, Pow2(a), Pow2(b - 1));
      Associate(Pow2(a), 2, Pow2(b - 1));
    }
  }

  lemma Pow2Plus5(s: nat)
    ensures Pow2(s + 5) == 32 * Pow2(s)
  {
    assert Pow2(s + 1) == 2 * Pow2(s);
    assert Pow2(s + 2) == 2 * Pow2(s + 1);
    assert Pow2(s + 3) == 2 * Pow2(s + 2);
    assert Pow2(s + 4) == 2 * Pow2(s + 3);
  }

  lemma {:induction false} Pow2Grows(a: nat, b: nat)
    requires a <= b
    ensures Pow2(a) <= Pow2(b)
    decreases b
  {
    if a < b { Pow2Grows(a, b - 1); }
  }

  lemma Pow2Constants()
    ensures Pow2(60) == TWO_60 && Pow2(64) == TWO_64
  {
    assert Pow2(10) == 0x400;
    Pow2Add(10, 10);
    Pow2Add(20, 20);
    Pow2Add(40, 20);
    Pow2Add(60, 4);
    assert Pow2(4) == 16;
  }

  lemma {:induction false} OrZero(q: nat)
    ensures Or(0, q) == q && Or(q, 0) == q
  {
    if q > 0 { OrZero(q / 2); }
  }

  /** Or is addition when the second pattern has no bit below the first one's length. */
  lemma {:induction false} OrDisjoint(a: nat, q: nat, s: nat)
    requires a < Pow2(s)
    ensures Or(a, q * Pow2(s)) == a + q * Pow2(s)
    decreases s
  {
    if s == 0 {
      OrZero(q);
    } else {
      var b, half := q * Pow2(s), q * Pow2(s - 1);
      assert b == 2 * half;
      OrDisjoint(a / 2, q, s - 1);
      OrHalves(a, half);
    }
  }

  lemma OrHalves(a: nat, half: nat)
    requires Or(a / 2, half) == a / 2 + half
    ensures Or(a, 2 * half) == a + 2 * half
  {
    assert (2 * half) / 2 == half && (2 * half) % 2 == 0;
  }

  lemma DropMultiple(x: nat, k: nat)
    ensures (x + k * TWO_64) % TWO_64 == x % TWO_64
  {
  }

  lemma Fits(low: nat, d: nat, s: nat)
    requires low < Pow2(s) && d < 32 && s + 5 <= 60
    ensures low + d * Pow2(s) < TWO_64
  {
    Pow2Constants();
    Pow2Plus5(s);
    Pow2Grows(s + 5, 60);
    Scale(d, 31, Pow2(s));
  }

  /** All bits of the group fit. */
  lemma OrStepLow(low: nat, d: nat, s: nat)
    requires low < Pow2(s) && d < 32 && s + 5 <= 60
    ensures Or(low % TWO_64, Shl(d, s)) == (low + d * Pow2(s)) % TWO_64
  {
    Fits(low, d, s);
    OrDisjoint(low, d, s);
    Small(low);
    Small(d * Pow2(s));
    Small(low + d * Pow2(s));
  }

  lemma Small(x: nat)
    requires x < TWO_64
    ensures x % TWO_64 == x
  {
  }

  /** The group at shift 60 loses its top bit. */
  lemma OrStepTop(low: nat, d: nat, s: nat)
    requires low < Pow2(s) && d < 32 && s == 60
    ensures Or(low % TWO_64, Shl(d, s)) == (low + d * Pow2(s)) % TWO_64
  {
    Pow2Constants();
    var r, q := d % 16, d / 16;
    OrDisjoint(low, r, s);
    assert d * Pow2(s) == r * TWO_60 + q * TWO_64 by {
      assert d == r + 16 * q;
    }
    DropMultiple(r * TWO_60, q);
    DropMultiple(low + r * TWO_60, q);
    Small(low);
    Small(r * TWO_60);
    Small(low + r * TWO_60);
  }

  lemma HighMultiple(d: nat, s: nat) returns (k: nat)
    requires s >= 64
    ensures d * Pow2(s) == k * TWO_64
  {
    k := d * Pow2(s - 64);
    Pow2Constants();
    Pow2Add(s - 64, 64);
    Associate(d, Pow2(s - 64), TWO_64);
  }

  /** Later groups vanish. */
  lemma OrStepHigh(low: nat, d: nat, s: nat)
    requires s >= 64
    ensures Or(low % TWO_64, Shl(d, s)) == (low + d * Pow2(s)) % TWO_64
  {
    var k := HighMultiple(d, s);
    DropMultiple(0, k);
    DropMultiple(low, k);
    OrZero(low % TWO_64);
  }

  /**
   One step of the varint loop, at shift 0, 5, 10, ...: or-ing in the next five bits adds them at their
   place, modulo 2^64.
   */
  lemma OrStep(low: nat, d: nat, s: nat, k: nat)
    requires low < Pow2(s) && d < 32 && s == 5 * k
    ensures Or(low % TWO_64, Shl(d, s)) == (low + d * Pow2(s)) % TWO_64
  {
    if s + 5 <= 60 {
      OrStepLow(low, d, s);
    } else if s == 60 {
      OrStepTop(low, d, s);
    } else {
      OrStepHigh(low, d, s);
    }
  }
}
