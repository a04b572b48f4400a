/**
 The byte operations of the bit reader and writer, in the masks and shifts of the source,
 and what they do to the bits of a byte.
 */
module ByteBits {
  import opened Words
  import opened Bits

  /** The lowest count bits of a byte. */
  function LowestBits(byte: Byte, count: nat): (r: Byte)
    requires count <= 8
    ensures r == FromBits(ToBits(byte, 8)[8 - count..])
  {
    LowestBitsMeaning(byte, count);
    BitAnd(Pow2(count) - 1, byte)
  }

  /** The highest count bits of a byte, moved to the right. */
  function HighestBits(byte: Byte, count: nat): (r: Byte)
    requires count <= 8
    ensures r == FromBits(ToBits(byte, 8)[..count])
  {
    HighestBitsMeaning(byte, count);
    ShiftRight(BitAnd(byte, ShiftLeft(0xFF, 8 - count, 8)), 8 - count)
  }

  /** The highest byte of a 64-bit word. */
  function HighestByte(val: nat): (r: Byte)
    requires val < Pow2(64)
    ensures ToBits(r, 8) == ToBits(val, 64)[..8]
  {
    HighestByteMeaning(val);
    ShiftRight(val, 56)
  }

  /** The mask over the bits a partial write replaces. */
  function PartialMask(count: nat, offset: nat): (mask: Byte)
    requires offset < 8 && count <= 8 - offset
    ensures forall i :: 0 <= i < 8 ==> (ToBits(mask, 8)[i] <==> offset <= i < offset + count)
  {
    PartialMaskMeaning(count, offset);
    ShiftRight(ShiftLeft(0xFF, 8 - count, 8), offset)
  }

  /** The bits of a partial write: the field is replaced, and lower bits of the source show behind it. */
  predicate PartialBits(source: seq<bool>, count: nat, target: seq<bool>, offset: nat, r: seq<bool>) {
    && |source| == |target| == |r| == 8
    && forall i :: 0 <= i < 8 ==>
         r[i] == if i < offset then target[i]
                 else if i < offset + count then source[i - offset]
                 else target[i] || source[i - offset]
  }

  /**
   Writes the highest count bits of source over target from an offset on.  The bits behind the
   field keep those of the target when the source has no lower bits set.
   */
  function WritePartialByte(source: Byte, count: nat, target: Byte, offset: nat): (r: Byte)
    requires offset < 8 && count <= 8 - offset
    ensures PartialBits(ToBits(source, 8), count, ToBits(target, 8), offset, ToBits(r, 8))
    ensures (forall i :: count <= i < 8 - offset ==> !ToBits(source, 8)[i]) ==>
      ToBits(r, 8)
      == ToBits(target, 8)[..offset] + ToBits(source, 8)[..count] + ToBits(target, 8)[offset + count..]
  {
    PartialByteMeaning(source, count, target, offset);
    BitOr(BitAnd(target, Not8(PartialMask(count, offset))), ShiftRight(source, offset))
  }

  // ------------------------------------------------------------------ proofs

  lemma ByteValue(b: Byte)
    ensures FromBits(ToBits(b, 8)) == b
  {
    hide *;
    Pow2Values();
    FromToBits(b, 8);
    DivModUnique(b, 256, 0, b);
  }

  lemma LowestBitsMeaning(byte: Byte, count: nat)
    requires count <= 8
    ensures BitAnd(Pow2(count) - 1, byte) == FromBits(ToBits(byte, 8)[8 - count..])
    ensures BitAnd(Pow2(count) - 1, byte) < 256
  {
    hide *;
    AndLowMask(byte, count);
    ToBitsSplit(byte, 8 - count, count);
    FromToBits(byte, count);
    assert ToBits(byte, 8)[8 - count..] == ToBits(byte, count);
    Pow2Monotone(count, 8);
    Pow2Values();
  }

  lemma {:induction false} AndAtMost(x: nat, y: nat)
    ensures BitAnd(x, y) <= x
    decreases x
  {
    if x > 0 {
      AndAtMost(x / 2, y / 2);
    }
  }

  lemma {:induction false} OrBelow(x: nat, y: nat, n: nat)
    requires x < Pow2(n) && y < Pow2(n)
    ensures BitOr(x, y) < Pow2(n)
    decreases n
  {
    if n > 0 {
      OrBelow(x / 2, y / 2, n - 1);
      OrDefinition(x, y);
    }
  }

  lemma {:induction false} ShiftRightBelow(x: nat, k: nat, n: nat)
    requires x < Pow2(n + k)
    ensures ShiftRight(x, k) < Pow2(n)
    decreases k
  {
    if k > 0 {
      ShiftRightBelow(x / 2, k - 1, n);
    }
  }

  lemma {:induction false} ShiftLeftBelow(x: nat, k: nat, width: nat)
    requires x < Pow2(width)
    ensures ShiftLeft(x, k, width) < Pow2(width)
    decreases k
  {
    if k > 0 {
      ShiftLeftBelow(2 * x % Pow2(width), k - 1, width);
    }
  }

  lemma OnesBits()
    ensures forall i :: 0 <= i < 8 ==> ToBits(255, 8)[i]
  {
    assert ToBits(255, 8) == [true, true, true, true, true, true, true, true];
  }

  /** The mask of the highest count bits. */
  lemma HighMask(count: nat, mask: nat)
    requires count <= 8 && mask == ShiftLeft(0xFF, 8 - count, 8)
    ensures mask < 256
    ensures forall i :: 0 <= i < 8 ==> (ToBits(mask, 8)[i] <==> i < count)
  {
    hide *;
    Pow2Values();
    ShiftLeftBelow(255, 8 - count, 8);
    ShiftLeftBits(255, 8 - count, 8);
    OnesBits();
    var s := ToBits(255, 8)[8 - count..] + Zeros(8 - count);
    forall i | 0 <= i < 8 ensures s[i] <==> i < count {
      if i < count {
        assert s[i] == ToBits(255, 8)[8 - count + i];
      } else {
        assert s[i] == Zeros(8 - count)[i - count];
      }
    }
  }

  lemma HighestBitsMeaning(byte: Byte, count: nat)
    requires count <= 8
    ensures ShiftRight(BitAnd(byte, ShiftLeft(0xFF, 8 - count, 8)), 8 - count) == FromBits(ToBits(byte, 8)[..count])
    ensures ShiftRight(BitAnd(byte, ShiftLeft(0xFF, 8 - count, 8)), 8 - count) < 256
  {
    hide *;
    Pow2Values();
    var shift, mask := 8 - count, ShiftLeft(0xFF, 8 - count, 8);
    var masked := BitAnd(byte, mask);
    var top := ToBits(byte, 8)[..count];
    HighMask(count, mask);
    AndBits(byte, mask, 8);
    AndAtMost(byte, mask);
    assert ToBits(masked, 8)[..count] == top;
    ShiftRightBits(masked, shift, 8);
    ByteValue(ShiftRight(masked, shift));
    FromBitsAppend(Zeros(shift), top);
    ZerosValue(shift);
  }

  lemma HighestByteMeaning(val: nat)
    requires val < Pow2(64)
    ensures ShiftRight(val, 56) < 256
    ensures ToBits(ShiftRight(val, 56), 8) == ToBits(val, 64)[..8]
  {
    hide *;
    Pow2Values();
    ToBitsSplit(val, 8, 56);
    ShiftRightBelow(val, 56, 8);
  }

  lemma PartialMaskMeaning(count: nat, offset: nat)
    requires offset < 8 && count <= 8 - offset
    ensures var mask := ShiftRight(ShiftLeft(0xFF, 8 - count, 8), offset);
            && mask < 256
            && forall i :: 0 <= i < 8 ==> (ToBits(mask, 8)[i] <==> offset <= i < offset + count)
  {
    hide *;
    Pow2Values();
    var high := ShiftLeft(0xFF, 8 - count, 8);
    HighMask(count, high);
    ShiftRightBits(high, offset, 8);
    var s := Zeros(offset) + ToBits(high, 8)[..8 - offset];
    forall i | 0 <= i < 8 ensures s[i] <==> offset <= i < offset + count {
      if i >= offset {
        assert s[i] == ToBits(high, 8)[i - offset];
      }
    }
  }

  lemma PartialByteMeaning(source: Byte, count: nat, target: Byte, offset: nat)
    requires offset < 8 && count <= 8 - offset
    ensures var r := BitOr(BitAnd(target, Not8(PartialMask(count, offset))), ShiftRight(source, offset));
            && r < 256
            && PartialBits(ToBits(source, 8), count, ToBits(target, 8), offset, ToBits(r, 8))
            && ((forall i :: count <= i < 8 - offset ==> !ToBits(source, 8)[i]) ==>
                  ToBits(r, 8)
                  == ToBits(target, 8)[..offset] + ToBits(source, 8)[..count] + ToBits(target, 8)[offset + count..])
  {
    hide ToBits, BitAnd, BitOr, ShiftRight, PartialMask, Pow2;
    Pow2Values();
    var mask := PartialMask(count, offset);
    var kept, moved := BitAnd(target, Not8(mask)), ShiftRight(source, offset);
    ComplementBits(mask, 8);
    AndBits(target, Not8(mask), 8);
    AndAtMost(target, Not8(mask));
    ShiftRightBits(source, offset, 8);
    OrBits(kept, moved, 8);
    OrBelow(kept, moved, 8);
    var t, s, r := ToBits(target, 8), ToBits(source, 8), ToBits(BitOr(kept, moved), 8);
    forall i | 0 <= i < 8
      ensures r[i] == ((t[i] && !(offset <= i < offset + count)) || (Zeros(offset) + s[..8 - offset])[i])
    {
      assert ToBits(Not8(mask), 8)[i] == !ToBits(mask, 8)[i];
      assert r[i] == (ToBits(kept, 8)[i] || ToBits(moved, 8)[i]);
    }
    OverwrittenBits(t, s, count, offset, r);
  }

  /** The bits of a partial write, position by position. */
  lemma OverwrittenBits(target: seq<bool>, source: seq<bool>, count: nat, offset: nat, r: seq<bool>)
    requires |target| == 8 && |source| == 8 && |r| == 8 && offset < 8 && count <= 8 - offset
    requires forall i :: 0 <= i < 8 ==>
      r[i] == ((target[i] && !(offset <= i < offset + count)) || (Zeros(offset) + source[..8 - offset])[i])
    ensures PartialBits(source, count, target, offset, r)
    ensures (forall i :: count <= i < 8 - offset ==> !source[i]) ==>
              r == target[..offset] + source[..count] + target[offset + count..]
  {
    var expected := target[..offset] + source[..count] + target[offset + count..];
    var moved := Zeros(offset) + source[..8 - offset];
    forall i | 0 <= i < 8
      ensures r[i] == if i < offset then target[i]
                      else if i < offset + count then source[i - offset]
                      else target[i] || source[i - offset]
    {
      assert moved[i] == (i >= offset && source[i - offset]);
    }
    if forall i :: count <= i < 8 - offset ==> !source[i] {
      assert forall i :: 0 <= i < 8 ==> r[i] == expected[i];
    }
  }
}
