/**
 Bit strings, most significant bit first, and what the word operators do to them.
 */
module Bits {
  import opened Words

  /** The n lowest bits of v. */
  function ToBits(v: nat, n: nat): (s: seq<bool>)
    ensures |s| == n
    decreases n
  {
    if n == 0 then [] else ToBits(v / 2, n - 1) + [v % 2 == 1]
  }

  /** The number a bit string denotes. */
  function FromBits(s: seq<bool>): nat {
    if s == [] then 0 else 2 * FromBits(s[..|s| - 1]) + (if s[|s| - 1] then 1 else 0)
  }

  function Zeros(n: nat): (s: seq<bool>)
    ensures |s| == n && forall i :: 0 <= i < n ==> !s[i]
  {
    if n == 0 then [] else Zeros(n - 1) + [false]
  }

  lemma ZerosUnique(s: seq<bool>)
    requires forall i :: 0 <= i < |s| ==> !s[i]
    ensures s == Zeros(|s|)
  {
  }

  // ----------------------------------------------------- numbers and strings

  lemma {:induction false} FromToBits(v: nat, n: nat)
    ensures FromBits(ToBits(v, n)) == v % Pow2(n)
    decreases n
  {
    if n > 0 {
      var s := ToBits(v, n);
      assert s[..n - 1] == ToBits(v / 2, n - 1);
      FromToBits(v / 2, n - 1);
      ModDouble(v, Pow2(n - 1));
    }
  }

  lemma {:induction false} ToFromBits(s: seq<bool>)
    ensures ToBits(FromBits(s), |s|) == s
  {
    if s != [] {
      var front := s[..|s| - 1];
      ToFromBits(front);
      assert FromBits(s) / 2 == FromBits(front);
      assert s == front + [s[|s| - 1]];
    }
  }

  lemma {:induction false} FromBitsBound(s: seq<bool>)
    ensures FromBits(s) < Pow2(|s|)
  {
    if s != [] {
      FromBitsBound(s[..|s| - 1]);
    }
  }

  /** Concatenating bit strings shifts the first number up. */
  lemma {:induction false} FromBitsAppend(a: seq<bool>, b: seq<bool>)
    ensures FromBits(a + b) == FromBits(a) * Pow2(|b|) + FromBits(b)
    decreases |b|
  {
    if b == [] {
      assert a + b == a;
    } else {
      var front, last := b[..|b| - 1], if b[|b| - 1] then 1 else 0;
      assert (a + b)[..|a + b| - 1] == a + front;
      FromBitsAppend(a, front);
      DoubleSum(FromBits(a), Pow2(|front|), FromBits(front), last);
    }
  }

  lemma DoubleSum(a: nat, p: nat, f: nat, last: nat)
    ensures 2 * (a * p + f) + last == a * (2 * p) + (2 * f + last)
  {
  }

  lemma {:induction false} ZerosValue(n: nat)
    ensures FromBits(Zeros(n)) == 0
  {
    if n > 0 {
      assert Zeros(n)[..n - 1] == Zeros(n - 1);
      ZerosValue(n - 1);
    }
  }

  /** The high part of a word's bits is the bits of the shifted word. */
  lemma {:induction false} ToBitsSplit(v: nat, m: nat, n: nat)
    ensures ToBits(v, m + n) == ToBits(ShiftRight(v, n), m) + ToBits(v, n)
    decreases n
  {
    if n == 0 {
      assert ToBits(v, 0) == [];
      assert ToBits(v, m) + [] == ToBits(v, m);
    } else {
      ToBitsSplit(v / 2, m, n - 1);
      assert ToBits(v, m + n) == ToBits(v / 2, m + n - 1) + [v % 2 == 1];
      assert ToBits(v, n) == ToBits(v / 2, n - 1) + [v % 2 == 1];
    }
  }

  lemma {:induction false} ToBitsOfSmall(v: nat, m: nat, n: nat)
    requires v < Pow2(n)
    ensures ToBits(v, m + n) == Zeros(m) + ToBits(v, n)
  {
    ToBitsSplit(v, m, n);
    ShiftRightIsQuotient(v, n);
    DivModUnique(v, Pow2(n), 0, v);
    ZeroBits(m);
  }

  lemma {:induction false} ZeroBits(n: nat)
    ensures ToBits(0, n) == Zeros(n)
  {
    if n > 0 {
      ZeroBits(n - 1);
    }
  }

  // ------------------------------------------------------ bits of operations

  lemma {:induction false} AndBits(x: nat, y: nat, n: nat)
    ensures forall i :: 0 <= i < n ==> ToBits(BitAnd(x, y), n)[i] == (ToBits(x, n)[i] && ToBits(y, n)[i])
    decreases n
  {
    if n > 0 {
      AndBits(x / 2, y / 2, n - 1);
      AndParts(x, y);
    }
  }

  lemma AndParts(x: nat, y: nat)
    ensures BitAnd(x, y) / 2 == BitAnd(x / 2, y / 2)
    ensures BitAnd(x, y) % 2 == 1 <==> x % 2 == 1 && y % 2 == 1
  {
    hide BitAnd;
    AndDefinition(x, y);
    AndDefinition(x / 2, y / 2);
    var low := if x % 2 == 1 && y % 2 == 1 then 1 else 0;
    DivModUnique(BitAnd(x, y), 2, BitAnd(x / 2, y / 2), low);
  }

  lemma AndDefinition(x: nat, y: nat)
    ensures BitAnd(x, y) == 2 * BitAnd(x / 2, y / 2) + if x % 2 == 1 && y % 2 == 1 then 1 else 0
  {
  }

  lemma {:induction false} OrBits(x: nat, y: nat, n: nat)
    ensures forall i :: 0 <= i < n ==> ToBits(BitOr(x, y), n)[i] == (ToBits(x, n)[i] || ToBits(y, n)[i])
    decreases n
  {
    if n > 0 {
      OrBits(x / 2, y / 2, n - 1);
      OrParts(x, y);
    }
  }

  lemma OrParts(x: nat, y: nat)
    ensures BitOr(x, y) / 2 == BitOr(x / 2, y / 2)
    ensures BitOr(x, y) % 2 == 1 <==> x % 2 == 1 || y % 2 == 1
  {
    hide BitOr;
    OrDefinition(x, y);
    var low := if x % 2 == 1 || y % 2 == 1 then 1 else 0;
    DivModUnique(BitOr(x, y), 2, BitOr(x / 2, y / 2), low);
  }

  lemma OrDefinition(x: nat, y: nat)
    ensures BitOr(x, y) == 2 * BitOr(x / 2, y / 2) + if x % 2 == 1 || y % 2 == 1 then 1 else 0
  {
  }

  /** The complement of an n-bit word flips its bits. */
  lemma {:induction false} ComplementBits(x: nat, n: nat)
    requires x < Pow2(n)
    ensures forall i :: 0 <= i < n ==> ToBits(Pow2(n) - 1 - x, n)[i] == !ToBits(x, n)[i]
    decreases n
  {
    if n > 0 {
      ComplementBits(x / 2, n - 1);
      var c := Pow2(n) - 1 - x;
      assert c / 2 == Pow2(n - 1) - 1 - x / 2 && (c % 2 == 1 <==> x % 2 == 0);
    }
  }

  /** A left shift drops bits at the front and adds zeros at the back. */
  lemma {:induction false} ShiftLeftBits(x: nat, k: nat, n: nat)
    requires k <= n
    ensures ToBits(ShiftLeft(x, k, n), n) == ToBits(x, n)[k..] + Zeros(k)
    decreases k
  {
    if k == 0 {
      assert ToBits(x, n)[0..] + Zeros(0) == ToBits(x, n);
    } else {
      var y := 2 * x % Pow2(n);
      ShiftLeftBits(y, k - 1, n);
      DoubleBits(x, n);
      calc {
        ToBits(y, n)[k - 1..] + Zeros(k - 1);
        (ToBits(x, n)[1..] + [false])[k - 1..] + Zeros(k - 1);
        ToBits(x, n)[k..] + [false] + Zeros(k - 1);
        { ZerosUnique([false] + Zeros(k - 1)); }
        ToBits(x, n)[k..] + Zeros(k);
      }
    }
  }

  lemma DoubleBits(x: nat, n: nat)
    requires n > 0
    ensures ToBits(2 * x % Pow2(n), n) == ToBits(x, n)[1..] + [false]
  {
    var y := 2 * x % Pow2(n);
    ModDouble(2 * x, Pow2(n - 1));
    assert y == 2 * (x % Pow2(n - 1));
    assert y / 2 == x % Pow2(n - 1) && y % 2 == 0;
    RemainderBits(x, n - 1);
    ToBitsSplit(x, 1, n - 1);
    assert ToBits(x, n)[1..] == ToBits(x, n - 1);
  }

  /** The n lowest bits do not depend on the digits above them. */
  lemma RemainderBits(x: nat, n: nat)
    ensures ToBits(x % Pow2(n), n) == ToBits(x, n)
  {
    FromToBits(x, n);
    ToFromBits(ToBits(x, n));
  }

  /** A right shift of an n-bit word adds zeros at the front. */
  lemma ShiftRightBits(x: nat, k: nat, n: nat)
    requires k <= n && x < Pow2(n)
    ensures ToBits(ShiftRight(x, k), n) == Zeros(k) + ToBits(x, n)[..n - k]
    ensures ShiftRight(x, k) < Pow2(n)
  {
    ToBitsSplit(x, n, k);
    ToBitsOfSmall(x, k, n);
    assert ToBits(x, n + k) == Zeros(k) + ToBits(x, n);
    assert ToBits(ShiftRight(x, k), n) == ToBits(x, n + k)[..n];
    ShiftRightShrinks(x, k);
  }

  lemma {:induction false} ShiftRightShrinks(x: nat, k: nat)
    ensures ShiftRight(x, k) <= x
    decreases k
  {
    if k > 0 {
      ShiftRightShrinks(x / 2, k - 1);
    }
  }
}
