/**
 Bit fields and Exp-Golomb codes in a stream of bits: what the bit reader and writer
 compute, and the round trip of any sequence of writes.
 */
module BitStream {
  import opened Maybe
  import opened Words
  import opened Bits

  /** The bits of a byte array, big-endian. */
  function Stream(bytes: Bytes): (s: seq<bool>)
    ensures |s| == 8 * |bytes|
  {
    if bytes == [] then [] else ToBits(bytes[0], 8) + Stream(bytes[1..])
  }

  /** Part of a byte, as part of the stream. */
  lemma {:induction false} StreamSlice(bytes: Bytes, i: nat, from: nat, to: nat)
    requires i < |bytes| && from <= to <= 8
    ensures Stream(bytes)[8 * i + from..8 * i + to] == ToBits(bytes[i], 8)[from..to]
  {
    hide ToBits, Stream;
    StreamStep(bytes);
    var head, rest := ToBits(bytes[0], 8), Stream(bytes[1..]);
    if i == 0 {
      assert (head + rest)[from..to] == head[from..to];
    } else {
      StreamSlice(bytes[1..], i - 1, from, to);
      ConcatDrop(head, rest, 8 * (i - 1) + from, 8 * (i - 1) + to);
    }
  }

  lemma ConcatDrop(head: seq<bool>, s: seq<bool>, a: nat, b: nat)
    requires |head| == 8 && a <= b <= |s|
    ensures (head + s)[a + 8..b + 8] == s[a..b]
  {
  }

  /** Storing a byte replaces its eight bits and no other. */
  lemma {:induction false} StreamUpdate(bytes: Bytes, i: nat, b: Byte)
    requires i < |bytes|
    ensures Stream(bytes[i := b]) == Stream(bytes)[..8 * i] + ToBits(b, 8) + Stream(bytes)[8 * i + 8..]
  {
    hide ToBits, Stream;
    var updated, rest := bytes[i := b], bytes[1..];
    StreamStep(bytes);
    StreamStep(updated);
    if i == 0 {
      assert updated[1..] == rest;
    } else {
      assert updated[1..] == rest[i - 1 := b];
      StreamUpdate(rest, i - 1, b);
      ConcatSlices(ToBits(bytes[0], 8), Stream(rest), 8 * (i - 1));
    }
  }

  lemma StreamStep(bytes: Bytes)
    requires bytes != []
    ensures Stream(bytes) == ToBits(bytes[0], 8) + Stream(bytes[1..])
  {
  }

  lemma ConcatSlices(head: seq<bool>, s: seq<bool>, k: nat)
    requires |head| == 8 && k + 8 <= |s|
    ensures (head + s)[..k + 8] == head + s[..k]
    ensures (head + s)[k + 16..] == s[k + 8..]
    ensures (head + s)[k + 8..k + 16] == s[k..k + 8]
  {
  }

  // -------------------------------------------------------------- Exp-Golomb

  /** The number of leading zeros from pos on, up to the first one or the end. */
  function LeadingZeros(bits: seq<bool>, pos: nat): (z: nat)
    requires pos <= |bits|
    ensures pos + z <= |bits|
    ensures forall i :: pos <= i < pos + z ==> !bits[i]
    ensures pos + z < |bits| ==> bits[pos + z]
    decreases |bits| - pos
  {
    if pos == |bits| || bits[pos] then 0 else 1 + LeadingZeros(bits, pos + 1)
  }

  datatype Code = Code(value: nat, end: nat)

  /** Decoding: z zeros, then z + 1 bits that hold the value plus one. */
  function ReadGolomb(bits: seq<bool>, pos: nat): Option<Code>
    requires pos <= |bits|
  {
    var z := LeadingZeros(bits, pos);
    var end := pos + 2 * z + 1;
    if z > 31 || end > |bits| then None
    else
      LeadingOne(bits[pos + z..end]);
      Some(Code(FromBits(bits[pos + z..end]) - 1, end))
  }

  /** A string that starts with a one denotes a power of two plus the rest. */
  lemma LeadingOne(s: seq<bool>)
    requires s != [] && s[0]
    ensures FromBits(s) == Pow2(|s| - 1) + FromBits(s[1..])
  {
    hide *;
    assert s == [true] + s[1..];
    FromBitsAppend([true], s[1..]);
    SingleBit(true);
  }

  lemma SingleBit(b: bool)
    ensures FromBits([b]) == if b then 1 else 0
    ensures forall p: nat :: FromBits([b]) * p == if b then p else 0
  {
  }

  /**
   Decoding meets section 9.1 of ITU-T H.264: with z leading zeros it succeeds exactly when
   z <= 31 and z + 1 more bits are present, and yields 2^z - 1 plus the z-bit suffix.
   */
  lemma GolombMeaning(bits: seq<bool>, pos: nat)
    requires pos <= |bits|
    ensures var z := LeadingZeros(bits, pos);
            var r := ReadGolomb(bits, pos);
            && (r.Some? <==> z <= 31 && |bits| - (pos + z) >= z + 1)
            && (r.Some? ==>
                  && r.value.end == pos + 2 * z + 1
                  && r.value.value == Pow2(z) - 1 + FromBits(bits[pos + z + 1..pos + 2 * z + 1]))
  {
    var z := LeadingZeros(bits, pos);
    if z <= 31 && pos + 2 * z + 1 <= |bits| {
      var s := bits[pos + z..pos + 2 * z + 1];
      LeadingOne(s);
      assert s[1..] == bits[pos + z + 1..pos + 2 * z + 1];
    }
  }

  /** How many binary digits a number has. */
  function CountBits(v: nat): nat {
    if v == 0 then 0 else 1 + CountBits(v / 2)
  }

  lemma {:induction false} CountBitsBounds(v: nat)
    ensures v < Pow2(CountBits(v))
    ensures v > 0 ==> CountBits(v) >= 1 && Pow2(CountBits(v) - 1) <= v
  {
    if v > 1 {
      CountBitsBounds(v / 2);
    }
  }

  lemma CountBitsAtMost(v: nat, n: nat)
    requires v < Pow2(n)
    ensures CountBits(v) <= n
  {
    var c := CountBits(v);
    if c > n {
      Pow2Monotone(n, c - 1);
      CountBitsBounds(v);
    }
  }

  /** The bits written for v: as many zeros as v + 1 has digits, less one, then v + 1. */
  function GolombBits(v: nat): seq<bool> {
    var c := CountBits(v + 1);
    ToBits(v + 1, c * 2 - 1)
  }

  lemma GolombShape(v: nat)
    ensures var c := CountBits(v + 1);
            && c >= 1 && GolombBits(v) == Zeros(c - 1) + ToBits(v + 1, c)
            && ToBits(v + 1, c)[0] && FromBits(ToBits(v + 1, c)) == v + 1
  {
    var c := CountBits(v + 1);
    CountBitsBounds(v + 1);
    ToBitsOfSmall(v + 1, c - 1, c);
    FromToBits(v + 1, c);
    DivModUnique(v + 1, Pow2(c), 0, v + 1);
    TopBit(v + 1, c);
  }

  lemma TopBit(v: nat, c: nat)
    requires c >= 1 && Pow2(c - 1) <= v < Pow2(c)
    ensures ToBits(v, c)[0]
  {
    var s := ToBits(v, c);
    FromToBits(v, c);
    DivModUnique(v, Pow2(c), 0, v);
    assert s == [s[0]] + s[1..];
    FromBitsAppend([s[0]], s[1..]);
    FromBitsBound(s[1..]);
    SingleBit(s[0]);
  }

  lemma {:induction false} ZerosThenOne(bits: seq<bool>, pos: nat, z: nat)
    requires pos + z < |bits| && bits[pos + z]
    requires forall i :: pos <= i < pos + z ==> !bits[i]
    ensures LeadingZeros(bits, pos) == z
    decreases z
  {
    if z > 0 {
      ZerosThenOne(bits, pos + 1, z - 1);
    }
  }

  /** Exp-Golomb codes are self-delimiting and read back, wherever they stand. */
  lemma GolombReadsBack(bits: seq<bool>, pos: nat, v: nat)
    requires v < Pow2(32) - 1
    requires pos + |GolombBits(v)| <= |bits| && bits[pos..pos + |GolombBits(v)|] == GolombBits(v)
    ensures ReadGolomb(bits, pos) == Some(Code(v, pos + |GolombBits(v)|))
  {
    hide ToBits, FromBits, GolombBits, LeadingZeros, CountBits, Pow2;
    var c := CountBits(v + 1);
    var code := GolombBits(v);
    GolombShape(v);
    CountBitsAtMost(v + 1, 32);
    var window := bits[pos..pos + |code|];
    assert forall i :: 0 <= i < |code| ==> bits[pos + i] == window[i];
    forall i | pos <= i < pos + (c - 1) ensures !bits[i] {
      assert bits[pos + (i - pos)] == window[i - pos];
    }
    assert bits[pos + (c - 1)] == code[c - 1] == ToBits(v + 1, c)[0];
    ZerosThenOne(bits, pos, c - 1);
    assert bits[pos + (c - 1)..pos + |code|] == code[c - 1..] == ToBits(v + 1, c);
  }

  // -------------------------------------------------------------- round trip

  /** One write: n bits of a value, or an Exp-Golomb code. */
  datatype Field = BitField(v: nat, n: nat) | Golomb(v: nat)

  /** The writes that have matching reads: at most 32 bits, and a value below 2^32 - 1. */
  predicate Readable(f: Field) {
    match f
    case BitField(_, n) => 1 <= n <= 32
    case Golomb(v) => v < Pow2(32) - 1
  }

  function FieldBits(f: Field): seq<bool> {
    match f
    case BitField(v, n) => ToBits(v, n)
    case Golomb(v) => GolombBits(v)
  }

  /** What reading the field back must return: a bit field keeps the value modulo 2^n. */
  function FieldValue(f: Field): nat {
    match f
    case BitField(v, n) => v % Pow2(n)
    case Golomb(v) => v
  }

  datatype Cursor = Cursor(bits: seq<bool>, pos: nat)

  /** The writer's step: overwrite at the cursor and advance, or fail and change nothing. */
  function WriteField(c: Cursor, f: Field): (r: Option<Cursor>)
    requires c.pos <= |c.bits|
    ensures r.Some? ==> r.value.pos <= |r.value.bits| == |c.bits|
  {
    var code := FieldBits(f);
    if c.pos + |code| > |c.bits| then None
    else Some(Cursor(c.bits[..c.pos] + code + c.bits[c.pos + |code|..], c.pos + |code|))
  }

  /** The reader's step for the same kind of field. */
  function ReadField(c: Cursor, f: Field): (r: Option<Code>)
    requires c.pos <= |c.bits|
    ensures r.Some? ==> r.value.end <= |c.bits|
  {
    match f
    case BitField(_, n) =>
      if c.pos + n > |c.bits| || n > 32 then None
      else Some(Code(FromBits(c.bits[c.pos..c.pos + n]), c.pos + n))
    case Golomb(_) => ReadGolomb(c.bits, c.pos)
  }

  function WriteAll(c: Cursor, fields: seq<Field>): (r: Option<Cursor>)
    requires c.pos <= |c.bits|
    ensures r.Some? ==> r.value.pos <= |r.value.bits|
    decreases |fields|
  {
    if fields == [] then Some(c)
    else
      match WriteField(c, fields[0])
      case None => None
      case Some(next) => WriteAll(next, fields[1..])
  }

  /** The values read back, and where the reader ends. */
  datatype Reads = Reads(values: seq<nat>, end: nat)

  function ReadAll(c: Cursor, fields: seq<Field>): Option<Reads>
    requires c.pos <= |c.bits|
    decreases |fields|
  {
    if fields == [] then Some(Reads([], c.pos))
    else
      match ReadField(c, fields[0])
      case None => None
      case Some(code) =>
        match ReadAll(c.(pos := code.end), fields[1..])
        case None => None
        case Some(rest) => Some(Reads([code.value] + rest.values, rest.end))
  }

  function Values(fields: seq<Field>): seq<nat> {
    if fields == [] then [] else [FieldValue(fields[0])] + Values(fields[1..])
  }

  /** A field standing at the cursor reads back. */
  lemma FieldReadsBack(c: Cursor, f: Field)
    requires Readable(f) && c.pos + |FieldBits(f)| <= |c.bits|
    requires c.bits[c.pos..c.pos + |FieldBits(f)|] == FieldBits(f)
    ensures ReadField(c, f) == Some(Code(FieldValue(f), c.pos + |FieldBits(f)|))
  {
    hide ToBits, FromBits, GolombBits, ReadGolomb, Pow2;
    match f
    case BitField(v, n) => FromToBits(v, n);
    case Golomb(v) => GolombReadsBack(c.bits, c.pos, v);
  }

  /** Later writes keep everything before the cursor, and the length. */
  lemma {:induction false} WriteAllKeeps(c: Cursor, fields: seq<Field>, p: nat)
    requires p <= c.pos <= |c.bits|
    ensures var r := WriteAll(c, fields);
            r.Some? ==> |r.value.bits| == |c.bits| && c.pos <= r.value.pos && r.value.bits[..p] == c.bits[..p]
    decreases |fields|
  {
    if fields != [] && WriteField(c, fields[0]).Some? {
      var next := WriteField(c, fields[0]).value;
      assert next.bits[..p] == c.bits[..p];
      WriteAllKeeps(next, fields[1..], p);
    }
  }

  /**
   The round trip: after any sequence of writes that all succeed, from any offset, seeking
   back and making the matching reads returns every value and ends at the same offset.
   */
  lemma {:induction false} RoundTrip(c: Cursor, fields: seq<Field>)
    requires c.pos <= |c.bits| && forall i :: 0 <= i < |fields| ==> Readable(fields[i])
    requires WriteAll(c, fields).Some?
    ensures var written := WriteAll(c, fields).value;
            && c.pos <= |written.bits|
            && ReadAll(written.(pos := c.pos), fields) == Some(Reads(Values(fields), written.pos))
    decreases |fields|
  {
    hide FieldBits, ReadField, Readable;
    WriteAllKeeps(c, fields, c.pos);
    if fields != [] {
      var f := fields[0];
      var code := FieldBits(f);
      var next := WriteField(c, f).value;
      var written := WriteAll(c, fields).value;
      assert written == WriteAll(next, fields[1..]).value;
      WriteAllKeeps(next, fields[1..], next.pos);
      assert next.bits[c.pos..next.pos] == code;
      assert written.bits[c.pos..next.pos] == written.bits[..next.pos][c.pos..];
      assert next.bits[c.pos..next.pos] == next.bits[..next.pos][c.pos..];
      FieldReadsBack(written.(pos := c.pos), f);
      RoundTrip(next, fields[1..]);
    }
  }
}
