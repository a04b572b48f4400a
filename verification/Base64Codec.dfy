/**
 The Base64 encoder and decoder in the steps of the source: masks and shifts, a four-byte
 buffer for the quantum, and the positions moved by the loops.
 */
module Base64Codec {
  import opened Words
  import opened Base64

  // ---------------------------------------------------------------- bits of a byte

  lemma SplitByte(b: Byte)
    ensures BitAnd(0x3F, ShiftRight(b, 2)) == b / 4
    ensures BitAnd(0x3F, ShiftLeft(b, 4, 32)) == b % 4 * 16
    ensures BitAnd(0x0F, ShiftRight(b, 4)) == b / 16
    ensures BitAnd(0x3F, ShiftLeft(b, 2, 32)) == b % 16 * 4
    ensures BitAnd(0x03, ShiftRight(b, 6)) == b / 64
    ensures BitAnd(0x3F, b) == b % 64
  {
    hide *;
    Pow2Values();
    Pow2Monotone(16, 32);
    ShiftRightIsQuotient(b, 2);
    ShiftRightIsQuotient(b, 4);
    ShiftRightIsQuotient(b, 6);
    ShiftLeftExact(b, 4, 32);
    ShiftLeftExact(b, 2, 32);
    AndLowMask(b / 4, 6);
    AndLowMask(b * 16, 6);
    AndLowMask(b / 16, 4);
    AndLowMask(b * 4, 6);
    AndLowMask(b / 64, 2);
    AndLowMask(b, 6);
    Products(b);
  }

  lemma Products(b: Byte)
    ensures b * 16 % 64 == b % 4 * 16 && b * 4 % 64 == b % 16 * 4
    ensures b / 4 % 64 == b / 4 && b / 16 % 16 == b / 16 && b / 64 % 4 == b / 64
  {
  }

  lemma JoinBytes(hi: nat, lo: nat)
    ensures hi < 4 && lo < 16 ==> BitOr(hi * 16, lo) == hi * 16 + lo
    ensures hi < 16 && lo < 4 ==> BitOr(hi * 4, lo) == hi * 4 + lo
  {
    hide *;
    Pow2Values();
    if hi < 4 && lo < 16 {
      OrDisjoint(hi, lo, 4);
    }
    if hi < 16 && lo < 4 {
      OrDisjoint(hi, lo, 2);
    }
  }

  // ---------------------------------------------------------------- encoding

  method EncodeFromArray(data: Bytes) returns (text: Bytes)
    ensures text == Encode(data)
  {
    hide Encode, Group;
    var result := new Byte[(|data| + 2) / 3 * 4];
    var i, at := 0, 0;
    assert data[0..] == data;
    while i < |data|
      invariant i <= |data| && at + |Encode(data[i..])| == result.Length
      invariant result[..at] + Encode(data[i..]) == Encode(data)
    {
      EncodeStep(data[i..]);
      ghost var done, rest := result[..at], data[i..];
      var n := EncodeQuantum(data, i, result, at);
      assert data[i..i + n] == rest[..n] && data[i + n..] == rest[n..];
      assert result[..at + 4] == done + Group(rest[..n]);
      i, at := i + n, at + 4;
    }
    text := result[..];
    assert text + [] == text;
  }

  /** The body of the encoder's loop: one to three bytes become four characters. */
  method EncodeQuantum(data: Bytes, start: nat, result: array<Byte>, at: nat) returns (n: nat)
    requires start < |data| && at + 4 <= result.Length
    modifies result
    ensures n == (if |data| - start < 3 then |data| - start else 3)
    ensures result[..at] == old(result[..at]) && result[at..at + 4] == Group(data[start..start + n])
  {
    hide *;
    var i := start;
    SplitByte(data[i]);
    var c := BitAnd(0x3F, ShiftRight(data[i], 2));
    result[at] := Letter(c);

    c := BitAnd(0x3F, ShiftLeft(data[i], 4, 32));
    i := i + 1;
    if i < |data| {
      SplitByte(data[i]);
      JoinBytes(data[start] % 4, data[i] / 16);
      c := BitOr(c, BitAnd(0x0F, ShiftRight(data[i], 4)));
    }
    result[at + 1] := Letter(c);

    if i < |data| {
      c := BitAnd(0x3F, ShiftLeft(data[i], 2, 32));
      i := i + 1;
      if i < |data| {
        SplitByte(data[i]);
        JoinBytes(data[start + 1] % 16, data[i] / 64);
        c := BitOr(c, BitAnd(0x03, ShiftRight(data[i], 6)));
      }
      result[at + 2] := Letter(c);
    } else {
      result[at + 2] := PAD_CHAR;
    }

    if i < |data| {
      c := BitAnd(0x3F, data[i]);
      result[at + 3] := Letter(c);
      i := i + 1;
    } else {
      result[at + 3] := PAD_CHAR;
    }
    n := i - start;
    GroupCharacters(data[start..start + n]);
  }

  lemma EncodeStep(b: Bytes)
    requires b != []
    ensures var n := if |b| < 3 then |b| else 3;
            Encode(b) == Group(b[..n]) + Encode(b[n..])
  {
    hide Group;
    if |b| <= 3 {
      assert b[..|b|] == b && b[|b|..] == [];
    }
  }

  lemma GroupCharacters(b: Bytes)
    requires 1 <= |b| <= 3
    ensures var g := Group(b);
            && g[0] == Letter(b[0] / 4)
            && g[1] == Letter(b[0] % 4 * 16 + if |b| > 1 then b[1] / 16 else 0)
            && g[2] == (if |b| > 1 then Letter(b[1] % 16 * 4 + if |b| > 2 then b[2] / 64 else 0) else PAD_CHAR)
            && g[3] == (if |b| > 2 then Letter(b[2] % 64) else PAD_CHAR)
  {
    hide Letter;
  }

  // ---------------------------------------------------------------- decoding

  /** The buffer holds the values of a quantum, with zeros after them. */
  predicate Holds(buffer: Bytes, q: seq<Sextet>) {
    && |buffer| == 4 && |q| <= 4
    && (forall k :: 0 <= k < |q| ==> buffer[k] == q[k])
    && (forall k :: |q| <= k < 4 ==> buffer[k] == 0)
  }

  /** Scans one quantum into the buffer, rolling back over pads that do not fill it up. */
  method GetNextQuantum(parse: Parse, illegalPads: bool, data: Bytes, start: nat, qbuf: array<Byte>)
    returns (byteLen: nat, dpos: nat, padded: bool)
    requires start <= |data| && qbuf.Length == 4
    modifies qbuf
    ensures var r := NextQuantum(parse, illegalPads, data, start);
            byteLen == |r.q| && dpos == r.next && padded == r.padded && Holds(qbuf[..], r.q)
  {
    hide ScanFrom, DecodeTable, NextQuantum;
    dpos, byteLen := start, 0;
    var padLen, padStart := 0, 0;
    ghost var q: seq<Sextet> := [];
    ghost var scan := ScanFrom(parse, illegalPads, data, start, [], 0, 0);
    while byteLen < 4 && dpos < |data|
      invariant dpos <= |data| && byteLen == |q| && byteLen + padLen <= 4 && (padLen > 0 ==> padStart < dpos)
      invariant forall k :: 0 <= k < |q| ==> qbuf[k] == q[k]
      invariant scan == ScanFrom(parse, illegalPads, data, dpos, q, padLen, padStart)
      decreases |data| - dpos
    {
      ghost var stops := MoveAt(parse, illegalPads, data[dpos], byteLen, padLen) == Stop;
      if stops {
        ScanStops(parse, illegalPads, data, dpos, q, padLen, padStart);
      }
      qbuf[byteLen] := DecodeTable(data[dpos]);
      if qbuf[byteLen] == IL || (illegalPads && qbuf[byteLen] == PD) {
        if parse != ParseAny {
          break;
        }
        ScanSkips(parse, illegalPads, data, dpos, q, padLen, padStart);
      } else if qbuf[byteLen] == SP {
        if parse == ParseStrict {
          break;
        }
        ScanSkips(parse, illegalPads, data, dpos, q, padLen, padStart);
      } else if qbuf[byteLen] == PD {
        if byteLen < 2 || byteLen + padLen >= 4 {
          if parse != ParseAny {
            break;
          }
          ScanSkips(parse, illegalPads, data, dpos, q, padLen, padStart);
        } else {
          ScanCounts(parse, illegalPads, data, dpos, q, padLen, padStart);
          padLen := padLen + 1;
          if padLen == 1 {
            padStart := dpos;
          }
        }
      } else {
        if padLen > 0 && parse != ParseAny {
          break;
        }
        ScanTakes(parse, illegalPads, data, dpos, q, padLen, padStart, qbuf[byteLen]);
        q := q + [qbuf[byteLen]];
        padLen := 0;
        byteLen := byteLen + 1;
      }
      dpos := dpos + 1;
    }
    if byteLen == 4 || dpos == |data| {
      ScanStops(parse, illegalPads, data, dpos, q, padLen, padStart);
    }
    assert scan == Scan(dpos, q, padLen, padStart);
    for i := byteLen to 4
      invariant forall k :: 0 <= k < |q| ==> qbuf[k] == q[k]
      invariant forall k :: byteLen <= k < i ==> qbuf[k] == 0
    {
      qbuf[i] := 0;
    }
    padded := byteLen + padLen == 4;
    if !padded && padLen > 0 {
      dpos := padStart;
    }
    QuantumOfScan(parse, illegalPads, data, start);
  }

  lemma QuantumOfScan(parse: Parse, noPads: bool, s: Bytes, i: nat)
    requires i <= |s|
    ensures var scan := ScanFrom(parse, noPads, s, i, [], 0, 0);
            var padded := |scan.q| + scan.pads == 4;
            NextQuantum(parse, noPads, s, i)
            == Quantum(scan.q, padded, if !padded && scan.pads > 0 then scan.padStart else scan.pos)
  {
    hide ScanFrom;
  }

  /** The three bytes of a quantum, from its values. */
  lemma JoinSextets(a: Sextet, b: Sextet, c: Sextet, d: Sextet)
    ensures var x, y, z, w: int := a, b, c, d;
            && BitOr(ShiftLeft(a, 2, 32), BitAnd(0x3, ShiftRight(b, 4))) == x * 4 + y / 16
            && BitOr(BitAnd(0xF0, ShiftLeft(b, 4, 32)), BitAnd(0xF, ShiftRight(c, 2))) == y % 16 * 16 + z / 4
            && BitOr(BitAnd(0xC0, ShiftLeft(c, 6, 32)), d) == z % 4 * 64 + w
  {
    hide *;
    var x: int, y: int, z: int := a, b, c;
    Pow2Values();
    Pow2Monotone(16, 32);
    ShiftLeftExact(a, 2, 32);
    ShiftRightIsQuotient(b, 4);
    AndLowMask(y / 16, 2);
    OrDisjoint(a, y / 16, 2);
    ShiftLeftExact(b, 4, 32);
    AndShifted(15, b, 4);
    AndLowMask(b, 4);
    ShiftRightIsQuotient(c, 2);
    AndLowMask(z / 4, 4);
    OrDisjoint(y % 16, z / 4, 4);
    ShiftLeftExact(c, 6, 32);
    AndShifted(3, c, 6);
    AndLowMask(c, 2);
    OrDisjoint(z % 4, d, 6);
  }

  /** Masking numbers with the same zero digits at the end. */
  lemma {:induction false} AndShifted(m: nat, x: nat, n: nat)
    ensures BitAnd(m * Pow2(n), x * Pow2(n)) == BitAnd(m, x) * Pow2(n)
    decreases n
  {
    hide BitAnd;
    if n > 0 {
      var p := Pow2(n - 1);
      AndShifted(m, x, n - 1);
      Doubled(m, p);
      Doubled(x, p);
      Doubled(BitAnd(m, x), p);
      AndEven(m * p, x * p);
    }
  }

  lemma Doubled(x: nat, p: nat)
    ensures x * (2 * p) == 2 * (x * p) && x * p >= 0
  {
  }

  lemma AndEven(m: nat, x: nat)
    ensures BitAnd(2 * m, 2 * x) == 2 * BitAnd(m, x)
  {
    assert 2 * m / 2 == m && 2 * x / 2 == x && 2 * m % 2 == 0;
  }

  /** Decodes the whole bytes of one quantum and the bits left over. */
  method QuantumBytes(qbuf: array<Byte>, qlen: nat, ghost q: seq<Sextet>) returns (bytes: Bytes, c: Byte)
    requires qbuf.Length == 4 && Holds(qbuf[..], q) && qlen == |q|
    ensures bytes == WholeBytes(q)
    ensures qlen < 4 ==> c == LeftOver(q)
  {
    hide BitAnd, BitOr, ShiftLeft, ShiftRight;
    assert forall k :: 0 <= k < 4 ==> qbuf[k] == qbuf[..][k];
    assert forall k :: 0 <= k < 4 ==> qbuf[k] < 64;
    JoinSextets(qbuf[0], qbuf[1], qbuf[2], qbuf[3]);
    bytes := [];
    c := BitOr(ShiftLeft(qbuf[0], 2, 32), BitAnd(0x3, ShiftRight(qbuf[1], 4)));
    if qlen >= 2 {
      bytes := bytes + [c];
      c := BitOr(BitAnd(0xF0, ShiftLeft(qbuf[1], 4, 32)), BitAnd(0xF, ShiftRight(qbuf[2], 2)));
      if qlen >= 3 {
        bytes := bytes + [c];
        c := BitOr(BitAnd(0xC0, ShiftLeft(qbuf[2], 6, 32)), qbuf[3]);
        if qlen >= 4 {
          bytes := bytes + [c];
          c := 0;
        }
      }
    }
  }

  method DecodeFromArray(data: Bytes, flags: Flags) returns (success: bool, result: Bytes, used: nat)
    ensures Decoded(success, result, used) == Decode(flags, data)
  {
    hide NextQuantum, WholeBytes, LeftOver, Holds;
    result, success := [], true;
    var dpos := 0;
    var qbuf := new Byte[4];
    ghost var whole := DecodeFrom(flags, data, 0);
    while dpos < |data|
      invariant dpos <= |data| && success
      invariant var rest := DecodeFrom(flags, data, dpos);
                whole == rest.(bytes := result + rest.bytes)
      decreases |data| - dpos
    {
      ghost var r := NextQuantum(flags.parse, flags.pad == PadNo, data, dpos);
      var qlen, next, padded := GetNextQuantum(flags.parse, flags.pad == PadNo, data, dpos, qbuf);
      var bytes, c := QuantumBytes(qbuf, qlen, r.q);
      result := result + bytes;
      dpos := next;
      if qlen < 4 {
        if flags.term != TermAny && c != 0 {
          success := false;
        }
        if flags.pad == PadYes && !padded {
          success := false;
        }
        break;
      }
    }
    assert whole == Decoded(success, result, dpos);
    if flags.term == TermBuffer && dpos != |data| {
      success := false;
    }
    used := dpos;
  }
}
