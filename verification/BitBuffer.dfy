/**
 BitBuffer and BitBufferWriter: unaligned big-endian bit fields over a byte array, proved
 against the stream of bits of module BitStream.
 */
module BitBuffer {
  import opened Maybe
  import opened Words
  import opened Bits
  import opened BitStream
  import opened ByteBits

  class BitBufferWriter {
    const bytes: array<Byte>
    var byteOffset: nat
    var bitOffset: nat

    ghost predicate Valid()
      reads this
    {
      byteOffset <= bytes.Length && bitOffset < 8 && (byteOffset == bytes.Length ==> bitOffset == 0)
    }

    /** The offset in bits from the start of the buffer. */
    function Position(): nat
      reads this
    {
      8 * byteOffset + bitOffset
    }

    /** The whole buffer as bits. */
    ghost function View(): seq<bool>
      reads bytes
    {
      Stream(bytes[..])
    }

    constructor (bytes: array<Byte>)
      ensures this.bytes == bytes && Valid() && Position() == 0
    {
      this.bytes := bytes;
      byteOffset, bitOffset := 0, 0;
    }

    function RemainingBitCount(): (r: nat)
      reads this
      requires Valid()
      ensures Position() + r == 8 * bytes.Length
    {
      (bytes.Length - byteOffset) * 8 - bitOffset
    }

    method ConsumeBits(bitCount: nat) returns (ok: bool)
      requires Valid()
      modifies this
      ensures Valid()
      ensures ok <==> bitCount <= old(RemainingBitCount())
      ensures Position() == old(Position()) + if ok then bitCount else 0
      ensures !ok ==> byteOffset == old(byteOffset) && bitOffset == old(bitOffset)
    {
      if bitCount > RemainingBitCount() {
        return false;
      }
      byteOffset := byteOffset + (bitOffset + bitCount) / 8;
      bitOffset := (bitOffset + bitCount) % 8;
      ok := true;
    }

    method Seek(toByte: nat, toBit: nat) returns (ok: bool)
      requires Valid()
      modifies this
      ensures Valid()
      ensures ok <==> toBit <= 7 && 8 * toByte + toBit <= 8 * bytes.Length
      ensures if ok then byteOffset == toByte && bitOffset == toBit
              else byteOffset == old(byteOffset) && bitOffset == old(bitOffset)
    {
      if toByte > bytes.Length || toBit > 7 || (toByte == bytes.Length && toBit > 0) {
        return false;
      }
      byteOffset, bitOffset := toByte, toBit;
      ok := true;
    }

    /** The next bits as a big-endian number; the cursor does not move. */
    method PeekBits(bitCount: nat) returns (ok: bool, val: nat)
      requires Valid()
      ensures ok <==> bitCount <= RemainingBitCount() && bitCount <= 32
      ensures ok ==> val == FromBits(View()[Position()..Position() + bitCount])
    {
      hide ToBits, FromBits, Stream, LowestBits, HighestBits, BitOr, ShiftLeft;
      if bitCount > RemainingBitCount() || bitCount > 32 {
        return false, 0;
      }
      ok := true;
      if byteOffset == bytes.Length {
        val := PeekNothing();
        EmptyField(View(), Position());
        return;
      }
      ghost var s, pos := View(), Position();
      StreamLength(bytes[..]);
      var at := byteOffset;
      var inByte := 8 - bitOffset;
      StreamSlice(bytes[..], at, bitOffset, 8);
      var bits: nat := LowestBits(bytes[at], inByte);
      assert ToBits(bytes[at], 8)[8 - inByte..] == ToBits(bytes[at], 8)[bitOffset..8];
      at := at + 1;
      assert s[pos..pos + inByte] == s[pos..8 * at];
      if bitCount < inByte {
        FieldInByte(bits, bitOffset, s[pos..pos + inByte], bitCount);
        assert s[pos..pos + inByte][..bitCount] == s[pos..pos + bitCount];
        return true, HighestBits(bits, bitOffset + bitCount);
      }
      var left := bitCount - inByte;
      while left >= 8
        invariant 0 <= left && 8 * at + left == pos + bitCount && pos <= 8 * at
        invariant bits == FromBits(s[pos..8 * at])
      {
        StreamSlice(bytes[..], at, 0, 8);
        assert ToBits(bytes[at], 8)[0..8] == ToBits(bytes[at], 8);
        ByteValue(bytes[at]);
        ShiftIn(s[pos..8 * at], ToBits(bytes[at], 8));
        assert s[pos..8 * at + 8] == s[pos..8 * at] + ToBits(bytes[at], 8);
        bits := BitOr(ShiftLeft(bits, 8, 32), bytes[at]);
        at := at + 1;
        left := left - 8;
      }
      if left > 0 {
        StreamSlice(bytes[..], at, 0, left);
        assert ToBits(bytes[at], 8)[0..left] == ToBits(bytes[at], 8)[..left];
        ShiftIn(s[pos..8 * at], ToBits(bytes[at], 8)[..left]);
        assert s[pos..8 * at + left] == s[pos..8 * at] + ToBits(bytes[at], 8)[..left];
        bits := ShiftLeft(bits, left, 32);
        bits := BitOr(bits, HighestBits(bytes[at], left));
      }
      val := bits;
    }

    /** No bits at the end of the buffer: the byte behind it is loaded, and nothing of it is used. */
    static method PeekNothing() returns (val: nat)
      ensures val == 0
    {
      var behind: Byte := *;
      var bits: nat := LowestBits(behind, 8);
      val := HighestBits(bits, 0);
      assert ToBits(bits, 8)[..0] == [];
    }

    method ReadBits(bitCount: nat) returns (ok: bool, val: nat)
      requires Valid()
      modifies this
      ensures Valid()
      ensures ok <==> bitCount <= old(RemainingBitCount()) && bitCount <= 32
      ensures ok ==> val == FromBits(View()[old(Position())..old(Position()) + bitCount])
      ensures Position() == old(Position()) + if ok then bitCount else 0
      ensures !ok ==> byteOffset == old(byteOffset) && bitOffset == old(bitOffset)
    {
      ok, val := PeekBits(bitCount);
      if ok {
        ok := ConsumeBits(bitCount);
      }
    }

    /** Consumes the zero bits at the cursor. */
    method SkipZeros() returns (zeroBitCount: nat)
      requires Valid()
      modifies this
      ensures Valid() && zeroBitCount == LeadingZeros(View(), old(Position()))
      ensures Position() == old(Position()) + zeroBitCount
    {
      hide ToBits, FromBits, Stream, LeadingZeros, Pow2;
      ghost var s, pos := View(), Position();
      StreamLength(bytes[..]);
      zeroBitCount := 0;
      var peeked, bit := PeekBits(1);
      while peeked && bit == 0
        invariant Valid() && Position() == pos + zeroBitCount
        invariant peeked <==> RemainingBitCount() >= 1
        invariant peeked ==> bit == FromBits(s[Position()..Position() + 1])
        invariant LeadingZeros(s, pos) == zeroBitCount + LeadingZeros(s, Position())
        decreases RemainingBitCount()
      {
        PeekedBit(s, Position());
        zeroBitCount := zeroBitCount + 1;
        var _ := ConsumeBits(1);
        peeked, bit := PeekBits(1);
      }
      PeekedBit(s, Position());
    }

    /** The Exp-Golomb code at the cursor; a failed read restores the offset. */
    method ReadExponentialGolomb() returns (ok: bool, val: nat)
      requires Valid()
      modifies this
      ensures Valid()
      ensures ReadGolomb(View(), old(Position())) == if ok then Some(Code(val, Position())) else None
      ensures !ok ==> byteOffset == old(byteOffset) && bitOffset == old(bitOffset)
    {
      hide ToBits, FromBits, Stream, LeadingZeros, ReadGolomb, Pow2;
      ghost var s, pos := View(), Position();
      StreamLength(bytes[..]);
      var originalByte, originalBit := byteOffset, bitOffset;
      var zeroBitCount := SkipZeros();
      GolombStep(s, pos, zeroBitCount);
      var valueBitCount := zeroBitCount + 1;
      if valueBitCount > 32 {
        ok := false;
      } else {
        ok, val := ReadBits(valueBitCount);
      }
      if !ok {
        var restored := Seek(originalByte, originalBit);
        assert restored;
        return false, 0;
      }
      val := val - 1;
    }

    /** Stores a byte; the other bytes keep their bits. */
    method PutByte(at: nat, b: Byte)
      requires at < bytes.Length
      modifies bytes
      ensures View() == Splice(old(View()), 8 * at, ToBits(b, 8))
    {
      StreamUpdate(bytes[..], at, b);
      assert bytes[..][at := b] == old(bytes[..])[at := b];
      bytes[at] := b;
      assert bytes[..] == old(bytes[..])[at := b];
    }

    /** Writes the lowest bits of a value at the cursor; a failed write changes nothing. */
    method WriteBits(val: nat, bitCount: nat) returns (ok: bool)
      requires Valid() && val < Pow2(64)
      requires bitCount <= RemainingBitCount() ==> 1 <= bitCount <= 64
      modifies this, bytes
      ensures Valid()
      ensures var after := WriteField(Cursor(old(View()), old(Position())), BitField(val, bitCount));
              && (ok <==> after.Some?)
              && Cursor(View(), Position()) == if ok then after.value else Cursor(old(View()), old(Position()))
    {
      hide ToBits, Stream, Splice, Zeros, ShiftLeft, HighestByte, WritePartialByte, PartialBits, Pow2;
      hide WriteField, FieldBits;
      StreamLength(bytes[..]);
      FieldLength(View(), Position(), val, bitCount);
      if bitCount > RemainingBitCount() {
        return false;
      }
      ghost var s, p, w := View(), Position(), ToBits(val, bitCount);
      SpliceNothing(s, p, w);
      SpliceWrites(s, p, val, bitCount);
      AlignedBits(val, bitCount);
      var word: nat := ShiftLeft(val, 64 - bitCount, 64);
      var at := byteOffset;
      var inByte := 8 - bitOffset;
      var first := if bitCount < inByte then bitCount else inByte;
      StreamSlice(bytes[..], at, 0, 8);
      PartialStep(s, p, w, 0, word, at, bytes[at], bitOffset, first);
      PutByte(at, WritePartialByte(HighestByte(word), first, bytes[at], bitOffset));
      if bitCount <= inByte {
        ok := ConsumeBits(bitCount);
        return;
      }
      ShiftStep(w, 0, word, first);
      word := ShiftLeft(word, first, 64);
      at := at + 1;
      var left := bitCount - first;
      while left >= 8
        invariant 0 <= left <= bitCount && 8 * at + left == p + bitCount && p <= 8 * at && Valid() && Position() == p
        invariant View() == Splice(s, p, w[..bitCount - left])
        invariant word < Pow2(64) && ToBits(word, 64) == w[bitCount - left..] + Zeros(64 - left)
      {
        FullStep(s, p, w, bitCount - left, word, at);
        PutByte(at, HighestByte(word));
        at := at + 1;
        ShiftStep(w, bitCount - left, word, 8);
        word := ShiftLeft(word, 8, 64);
        left := left - 8;
      }
      if left > 0 {
        StreamSlice(bytes[..], at, 0, 8);
        PartialStep(s, p, w, bitCount - left, word, at, bytes[at], 0, left);
        PutByte(at, WritePartialByte(HighestByte(word), left, bytes[at], 0));
      }
      assert View() == Splice(s, p, w);
      ok := ConsumeBits(bitCount);
    }

    /** Writes an Exp-Golomb code; 2^32 - 1 has none and is refused. */
    method WriteExponentialGolomb(val: nat) returns (ok: bool)
      requires Valid() && val < Pow2(32)
      modifies this, bytes
      ensures Valid()
      ensures var after := WriteField(Cursor(old(View()), old(Position())), Golomb(val));
              && (ok <==> Readable(Golomb(val)) && after.Some?)
              && Cursor(View(), Position()) == if ok then after.value else Cursor(old(View()), old(Position()))
    {
      hide ToBits, Stream, CountBits, Pow2;
      Pow2Is32();
      if val == 0xFFFF_FFFF {
        return false;
      }
      CodeLength(val);
      var count := CountBitsUsed(val + 1);
      ok := WriteBits(val + 1, count * 2 - 1);
    }
  }

  lemma EmptyField(s: seq<bool>, pos: nat)
    requires pos <= |s|
    ensures FromBits(s[pos..pos + 0]) == 0
  {
  }

  /** Counts the binary digits of a value by shifting them out. */
  method CountBitsUsed(val: nat) returns (bitCount: nat)
    ensures bitCount == CountBits(val)
  {
    bitCount := 0;
    var rest := val;
    while rest != 0
      invariant bitCount + CountBits(rest) == CountBits(val)
    {
      bitCount := bitCount + 1;
      rest := ShiftRight(rest, 1);
    }
  }

  lemma Pow2Is32()
    ensures Pow2(32) == 0x1_0000_0000 && Pow2(32) < Pow2(64)
  {
    hide *;
    Pow2Values();
    Pow2Add(16, 16);
    Pow2Add(32, 32);
  }

  lemma CodeLength(v: nat)
    requires v < Pow2(32) - 1
    ensures 1 <= CountBits(v + 1) <= 32
    ensures FieldBits(Golomb(v)) == FieldBits(BitField(v + 1, CountBits(v + 1) * 2 - 1))
    ensures v + 1 < Pow2(64)
  {
    hide CountBits, ToBits, Pow2;
    Pow2Is32();
    CountBitsBounds(v + 1);
    CountBitsAtMost(v + 1, 32);
  }

  /** s with w written at position p. */
  function Splice(s: seq<bool>, p: nat, w: seq<bool>): (r: seq<bool>)
    requires p + |w| <= |s|
    ensures |r| == |s|
  {
    s[..p] + w + s[p + |w|..]
  }

  lemma FieldLength(s: seq<bool>, p: nat, v: nat, n: nat)
    requires p <= |s|
    ensures |ToBits(v, n)| == n
    ensures p + n > |s| ==> WriteField(Cursor(s, p), BitField(v, n)) == None
  {
  }

  lemma SpliceNothing(s: seq<bool>, p: nat, w: seq<bool>)
    requires p + |w| <= |s|
    ensures Splice(s, p, w[..0]) == s && w[0..] == w && w[..|w|] == w
  {
  }

  lemma SpliceWrites(s: seq<bool>, p: nat, v: nat, n: nat)
    requires p + |ToBits(v, n)| <= |s|
    ensures WriteField(Cursor(s, p), BitField(v, n)) == Some(Cursor(Splice(s, p, ToBits(v, n)), p + |ToBits(v, n)|))
  {
  }

  /** The value moved to the top of a 64-bit word. */
  lemma AlignedBits(val: nat, n: nat)
    requires val < Pow2(64) && n <= 64
    ensures ShiftLeft(val, 64 - n, 64) < Pow2(64)
    ensures ToBits(ShiftLeft(val, 64 - n, 64), 64) == ToBits(val, n) + Zeros(64 - n)
  {
    hide *;
    ShiftLeftBelow(val, 64 - n, 64);
    ShiftLeftBits(val, 64 - n, 64);
    ToBitsSplit(val, 64 - n, n);
  }

  /** Shifting off what was written leaves the rest on top. */
  lemma ShiftStep(w: seq<bool>, done: nat, word: nat, k: nat)
    requires done + k <= |w| <= 64 && word < Pow2(64)
    requires ToBits(word, 64) == w[done..] + Zeros(64 - (|w| - done))
    ensures ShiftLeft(word, k, 64) < Pow2(64)
    ensures ToBits(ShiftLeft(word, k, 64), 64) == w[done + k..] + Zeros(64 - (|w| - (done + k)))
  {
    hide *;
    ShiftLeftBelow(word, k, 64);
    ShiftLeftBits(word, k, 64);
    ZerosConcat(64 - (|w| - done), k);
    assert (w[done..] + Zeros(64 - (|w| - done)))[k..] == w[done + k..] + Zeros(64 - (|w| - done));
  }

  lemma ZerosConcat(m: nat, n: nat)
    ensures Zeros(m) + Zeros(n) == Zeros(m + n)
  {
  }

  /** Writing some bits of w inside a byte extends the written part. */
  lemma SpliceExtend(s: seq<bool>, p: nat, w: seq<bool>, done: nat, k: nat, q: nat, b: seq<bool>)
    requires p + |w| <= |s| && done + k <= |w| && q <= p + done && p + done + k <= q + 8 <= |s|
    requires var now, offset := Splice(s, p, w[..done]), p + done - q;
             b == now[q..q + 8][..offset] + w[done..done + k] + now[q..q + 8][offset + k..]
    ensures Splice(Splice(s, p, w[..done]), q, b) == Splice(s, p, w[..done + k])
  {
    hide *;
    var now, offset := Splice(s, p, w[..done]), p + done - q;
    var l, r := Splice(now, q, b), Splice(s, p, w[..done + k]);
    forall i | 0 <= i < |s| ensures l[i] == r[i] {
      SpliceAt(now, q, b, i);
      SpliceAt(s, p, w[..done], i);
      SpliceAt(s, p, w[..done + k], i);
      if q <= i < q + 8 {
        var window := now[q..q + 8];
        if i < q + offset {
          assert b[i - q] == window[i - q] == now[i];
        } else if i < q + offset + k {
          assert b[i - q] == w[done + (i - q - offset)];
        } else {
          assert b[i - q] == window[i - q] == now[i];
        }
      }
    }
  }

  lemma SpliceAt(s: seq<bool>, p: nat, w: seq<bool>, i: nat)
    requires p + |w| <= |s| && i < |s|
    ensures Splice(s, p, w)[i] == if p <= i < p + |w| then w[i - p] else s[i]
  {
  }

  /** A full byte of the word. */
  lemma FullStep(s: seq<bool>, p: nat, w: seq<bool>, done: nat, word: nat, at: nat)
    requires p + |w| <= |s| && done + 8 <= |w| <= 64 && word < Pow2(64) && 8 * at == p + done
    requires ToBits(word, 64) == w[done..] + Zeros(64 - (|w| - done))
    ensures Splice(Splice(s, p, w[..done]), 8 * at, ToBits(HighestByte(word), 8)) == Splice(s, p, w[..done + 8])
  {
    hide *;
    var b := ToBits(HighestByte(word), 8);
    assert b == (w[done..] + Zeros(64 - (|w| - done)))[..8] == w[done..done + 8];
    SpliceExtend(s, p, w, done, 8, 8 * at, b);
  }

  /** The first and the last byte, which keep the bits outside the field. */
  lemma PartialStep(
      s: seq<bool>, p: nat, w: seq<bool>, done: nat, word: nat, at: nat, target: Byte, offset: nat, count: nat)
    requires p + |w| <= |s| && done <= |w| <= 64 && word < Pow2(64) && offset < 8
    requires 8 * at + offset == p + done && 8 * at + 8 <= |s|
    requires ToBits(word, 64) == w[done..] + Zeros(64 - (|w| - done))
    requires count == if |w| - done < 8 - offset then |w| - done else 8 - offset
    requires Splice(s, p, w[..done])[8 * at..8 * at + 8] == ToBits(target, 8)[0..8]
    ensures Splice(Splice(s, p, w[..done]), 8 * at,
                   ToBits(WritePartialByte(HighestByte(word), count, target, offset), 8))
            == Splice(s, p, w[..done + count])
  {
    hide *;
    var source, t := ToBits(HighestByte(word), 8), ToBits(target, 8);
    var aligned := w[done..] + Zeros(64 - (|w| - done));
    assert source == aligned[..8];
    assert source[..count] == w[done..done + count];
    forall i | count <= i < 8 - offset ensures !source[i] {
      assert source[i] == Zeros(64 - (|w| - done))[i - (|w| - done)];
    }
    assert t[0..8] == t;
    SpliceExtend(s, p, w, done, count, 8 * at, t[..offset] + w[done..done + count] + t[offset + count..]);
  }

  lemma StreamLength(bytes: Bytes)
    ensures |Stream(bytes)| == 8 * |bytes|
  {
  }

  /** Reading fewer bits than the byte has left. */
  lemma FieldInByte(bits: nat, offset: nat, rest: seq<bool>, count: nat)
    requires offset <= 8 && |rest| == 8 - offset && bits == FromBits(rest) && count <= |rest| && bits < 256
    ensures FromBits(ToBits(bits, 8)[..offset + count]) == FromBits(rest[..count])
  {
    hide *;
    FromBitsBound(rest);
    ToBitsOfSmall(bits, offset, 8 - offset);
    ToFromBits(rest);
    assert ToBits(bits, 8) == Zeros(offset) + rest;
    assert ToBits(bits, 8)[..offset + count] == Zeros(offset) + rest[..count];
    FromBitsAppend(Zeros(offset), rest[..count]);
    ZerosValue(offset);
  }

  /** Shifting a 32-bit word and filling in the low bits appends them. */
  lemma ShiftIn(s: seq<bool>, t: seq<bool>)
    requires |s| + |t| <= 32
    ensures BitOr(ShiftLeft(FromBits(s), |t|, 32), FromBits(t)) == FromBits(s + t)
  {
    hide *;
    FromBitsBound(s);
    FromBitsBound(t);
    FromBitsAppend(s, t);
    FromBitsBound(s + t);
    Pow2Monotone(|s + t|, 32);
    ShiftLeftExact(FromBits(s), |t|, 32);
    OrDisjoint(FromBits(s), FromBits(t), |t|);
  }

  /** Decoding, once the leading zeros are counted. */
  lemma GolombStep(s: seq<bool>, pos: nat, z: nat)
    requires pos <= |s| && z == LeadingZeros(s, pos)
    ensures z + 1 > 32 || z + 1 > |s| - (pos + z) ==> ReadGolomb(s, pos) == None
    ensures z + 1 <= 32 && z + 1 <= |s| - (pos + z) ==>
      && FromBits(s[pos + z..pos + z + (z + 1)]) >= 1
      && ReadGolomb(s, pos) == Some(Code(FromBits(s[pos + z..pos + z + (z + 1)]) - 1, pos + z + (z + 1)))
  {
    hide FromBits, LeadingZeros, Pow2;
    if z + 1 <= 32 && z + 1 <= |s| - (pos + z) {
      assert pos + z + (z + 1) == pos + 2 * z + 1;
      LeadingOne(s[pos + z..pos + 2 * z + 1]);
    }
  }

  /** What peeking one bit tells about the leading zeros. */
  lemma PeekedBit(s: seq<bool>, p: nat)
    requires p <= |s|
    ensures p == |s| ==> LeadingZeros(s, p) == 0
    ensures p < |s| && FromBits(s[p..p + 1]) == 0 ==> LeadingZeros(s, p) == 1 + LeadingZeros(s, p + 1)
    ensures p < |s| && FromBits(s[p..p + 1]) != 0 ==> LeadingZeros(s, p) == 0
  {
    if p < |s| {
      assert s[p..p + 1] == [s[p]];
      SingleBit(s[p]);
    }
  }
}
