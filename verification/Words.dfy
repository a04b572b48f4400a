/**
 Unsigned machine words as natural numbers.  A word of w bits is a number below
 Pow2(w); shifting left multiplies and truncates, shifting right divides, and the
 bitwise operators are defined digit by digit in base two.
 */
module Words {

  type Byte = x: int | 0 <= x < 256
  type Bytes = seq<Byte>

  function Pow2(n: nat): (r: nat)
    ensures r >= 1
  {
    if n == 0 then 1 else 2 * Pow2(n - 1)
  }

  /** A left shift drops the digits that leave the word. */
  function ShiftLeft(x: nat, n: nat, width: nat): nat
    decreases n
  {
    if n == 0 then x else ShiftLeft(2 * x % Pow2(width), n - 1, width)
  }

  function ShiftRight(x: nat, n: nat): nat
    decreases n
  {
    if n == 0 then x else ShiftRight(x / 2, n - 1)
  }

  function BitAnd(x: nat, y: nat): nat
    decreases x
  {
    if x == 0 then 0 else 2 * BitAnd(x / 2, y / 2) + (if x % 2 == 1 && y % 2 == 1 then 1 else 0)
  }

  function BitOr(x: nat, y: nat): nat
    decreases x + y
  {
    if x == 0 && y == 0 then 0
    else 2 * BitOr(x / 2, y / 2) + (if x % 2 == 1 || y % 2 == 1 then 1 else 0)
  }

  /** The complement of an eight-bit word. */
  function Not8(x: Byte): Byte {
    255 - x
  }

  lemma {:induction false} Pow2Add(m: nat, n: nat)
    ensures Pow2(m + n) == Pow2(m) * Pow2(n)
  {
    if m == 0 {
    } else {
      Pow2Add(m - 1, n);
      calc {
        Pow2(m + n);
        2 * Pow2(m - 1 + n);
        2 * (Pow2(m - 1) * Pow2(n));
        (2 * Pow2(m - 1)) * Pow2(n);
        Pow2(m) * Pow2(n);
      }
    }
  }

  lemma {:induction false} Pow2Monotone(m: nat, n: nat)
    requires m <= n
    ensures Pow2(m) <= Pow2(n)
  {
    if m < n {
      Pow2Monotone(m, n - 1);
    }
  }

  lemma Pow2Values()
    ensures Pow2(0) == 1 && Pow2(1) == 2 && Pow2(2) == 4 && Pow2(3) == 8 && Pow2(4) == 16
    ensures Pow2(5) == 32 && Pow2(6) == 64 && Pow2(7) == 128 && Pow2(8) == 256
    ensures Pow2(10) == 1024 && Pow2(12) == 4096 && Pow2(16) == 65536 && Pow2(18) == 262144
  {
    assert Pow2(2) == 4;
    assert Pow2(4) == 16;
    assert Pow2(6) == 64;
    assert Pow2(8) == 256;
    assert Pow2(10) == 1024;
    assert Pow2(12) == 4096;
    assert Pow2(14) == 16384;
    assert Pow2(16) == 65536;
  }

  /** The number formed by the n lowest binary digits. */
  function LowBits(x: nat, n: nat): nat {
    if n == 0 then 0 else 2 * LowBits(x / 2, n - 1) + x % 2
  }

  lemma {:induction false} LowBitsIsRemainder(x: nat, n: nat)
    ensures LowBits(x, n) == x % Pow2(n)
    decreases n
  {
    if n > 0 {
      LowBitsIsRemainder(x / 2, n - 1);
      ModDouble(x, Pow2(n - 1));
    }
  }

  lemma {:induction false} AndIsLowBits(x: nat, n: nat)
    ensures BitAnd(Pow2(n) - 1, x) == LowBits(x, n)
    decreases n
  {
    if n > 0 {
      AndIsLowBits(x / 2, n - 1);
      AndOdd(Pow2(n - 1) - 1, x);
    }
  }

  lemma AndOdd(half: nat, x: nat)
    ensures BitAnd(2 * half + 1, x) == 2 * BitAnd(half, x / 2) + x % 2
  {
    var m := 2 * half + 1;
    assert m / 2 == half && m % 2 == 1;
  }

  /** Masking with n ones keeps the remainder modulo 2^n. */
  lemma AndLowMask(x: nat, n: nat)
    ensures BitAnd(Pow2(n) - 1, x) == x % Pow2(n)
  {
    AndIsLowBits(x, n);
    LowBitsIsRemainder(x, n);
  }

  /** Splitting off the lowest binary digit of a remainder. */
  lemma ModDouble(x: nat, p: nat)
    requires p >= 1
    ensures x % (2 * p) == 2 * ((x / 2) % p) + x % 2
    ensures x / (2 * p) == (x / 2) / p
  {
    var h := x / 2;
    var q, r := h / p, h % p;
    assert h == q * p + r;
    var rest := 2 * r + x % 2;
    assert x == 2 * h + x % 2;
    assert x == q * (2 * p) + rest;
    assert 0 <= rest < 2 * p;
    DivModUnique(x, 2 * p, q, rest);
  }

  lemma {:induction false} ShiftRightIsQuotient(x: nat, n: nat)
    ensures ShiftRight(x, n) == x / Pow2(n)
    decreases n
  {
    if n > 0 {
      ShiftRightIsQuotient(x / 2, n - 1);
      ModDouble(x, Pow2(n - 1));
    }
  }

  /** A left shift that loses no digit is a multiplication. */
  lemma {:induction false} ShiftLeftExact(x: nat, n: nat, width: nat)
    requires x * Pow2(n) < Pow2(width)
    ensures ShiftLeft(x, n, width) == x * Pow2(n)
    decreases n
  {
    if n > 0 {
      DoubleFits(x, Pow2(n - 1), Pow2(width));
      ShiftLeftExact(2 * x, n - 1, width);
    }
  }

  lemma DoubleFits(x: nat, p: nat, w: nat)
    requires p >= 1 && x * (2 * p) < w
    ensures (2 * x) * p == x * (2 * p) && 2 * x % w == 2 * x
  {
    assert (2 * x) * p == x * (2 * p);
    assert (2 * x) * p == 2 * x + (2 * x) * (p - 1);
    ProductNonNegative(2 * x, p - 1);
  }

  lemma ProductNonNegative(x: nat, y: nat)
    ensures x * y >= 0
  {
  }

  lemma DivModUnique(x: int, d: int, q: int, r: int)
    requires d > 0 && x == q * d + r && 0 <= r < d
    ensures x / d == q && x % d == r
  {
    var k, s := q - x / d, x % d;
    assert k * d == s - r by {
      assert x == (x / d) * d + s;
      assert k * d == q * d - (x / d) * d;
    }
    SmallMultipleIsZero(k, d);
  }

  lemma SmallMultipleIsZero(k: int, d: int)
    requires -d < k * d < d
    ensures k == 0
  {
    MultipleBounds(k, d);
  }

  lemma MultipleBounds(k: int, d: int)
    requires d > 0
    ensures k >= 1 ==> k * d >= d
    ensures k <= -1 ==> k * d <= -d
  {
    if k >= 1 {
      assert k * d == (k - 1) * d + d;
    } else if k <= -1 {
      assert k * d == (k + 1) * d - d;
    }
  }

  /** Combining words whose digits do not overlap is addition. */
  lemma {:induction false} OrDisjoint(hi: nat, lo: nat, n: nat)
    requires lo < Pow2(n)
    ensures BitOr(hi * Pow2(n), lo) == hi * Pow2(n) + lo
    decreases n
  {
    if n == 0 {
      assert lo == 0;
      OrZero(hi);
    } else {
      var p := Pow2(n - 1);
      assert hi * Pow2(n) == 2 * (hi * p);
      assert (2 * (hi * p)) / 2 == hi * p;
      OrDisjoint(hi, lo / 2, n - 1);
      if hi * Pow2(n) == 0 && lo == 0 {
      } else {
        assert BitOr(hi * Pow2(n), lo) == 2 * BitOr(hi * p, lo / 2) + lo % 2;
      }
    }
  }

  lemma {:induction false} OrZero(x: nat)
    ensures BitOr(x, 0) == x
    decreases x
  {
    if x > 0 {
      OrZero(x / 2);
    }
  }
}
