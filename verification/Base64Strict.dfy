/**
 The strict bijection: decoding inverts encoding, and under the strictest flags nothing but
 an encoding is accepted.
 */
module Base64Strict {
  import opened Words
  import opened Base64

  // ------------------------------------------------------------- the 6-bit groups

  lemma BytesOfSextets(b: Bytes)
    requires 1 <= |b| <= 3
    ensures WholeBytes(Sextets(b)) == b
    ensures |b| < 3 ==> LeftOver(Sextets(b)) == 0
  {
  }

  lemma SextetsOfBytes(q: seq<Sextet>)
    requires 2 <= |q| <= 4 && (|q| < 4 ==> LeftOver(q) == 0)
    ensures Sextets(WholeBytes(q)) == q
  {
    var a: int, b: int := q[0], q[1];
    DivModUnique(a * 4 + b / 16, 4, a, b / 16);
    if |q| > 2 {
      var c: int := q[2];
      DivModUnique(b % 16 * 16 + c / 4, 16, b % 16, c / 4);
      if |q| > 3 {
        DivModUnique(c % 4 * 64 + q[3], 64, c % 4, q[3]);
      }
    }
  }

  // ------------------------------------------------------------- decoding an encoding

  /** Characters of the alphabet are collected under all flags. */
  lemma {:induction false} ScanLetters(
      parse: Parse, noPads: bool, s: Bytes, i: nat, q: seq<Sextet>, w: seq<Sextet>)
    requires i + |w| <= |s| && |q| + |w| <= 4 && s[i..i + |w|] == Letters(w)
    ensures ScanFrom(parse, noPads, s, i, q, 0, 0) == ScanFrom(parse, noPads, s, i + |w|, q + w, 0, 0)
    decreases |w|
  {
    hide *;
    if w == [] {
      assert q + w == q;
    } else {
      LettersStep(w);
      assert s[i] == s[i..i + |w|][0];
      TakeLetter(parse, noPads, w[0], |q|);
      ScanTakes(parse, noPads, s, i, q, 0, 0, w[0]);
      assert s[i + 1..i + 1 + |w[1..]|] == s[i..i + |w|][1..];
      ScanLetters(parse, noPads, s, i + 1, q + [w[0]], w[1..]);
      assert q + [w[0]] + w[1..] == q + w;
    }
  }

  lemma LettersStep(w: seq<Sextet>)
    requires w != []
    ensures Letters(w) == [Letter(w[0])] + Letters(w[1..])
  {
  }

  lemma TakeLetter(parse: Parse, noPads: bool, v: Sextet, have: nat)
    ensures MoveAt(parse, noPads, Letter(v), have, 0) == Take(v)
  {
    LetterClass(v);
  }

  /** Pads that fill up a quantum at the end of the input are counted under all flags that allow pads. */
  lemma {:induction false} ScanPads(parse: Parse, s: Bytes, i: nat, q: seq<Sextet>, pads: nat, padStart: nat)
    requires i <= |s| && 2 <= |q| && |q| + pads + (|s| - i) == 4 && (pads > 0 ==> padStart < i)
    requires forall k :: i <= k < |s| ==> s[k] == PAD_CHAR
    ensures var r := ScanFrom(parse, false, s, i, q, pads, padStart);
            r.pos == |s| && r.q == q && r.pads == 4 - |q|
    decreases |s| - i
  {
    hide *;
    if i < |s| {
      PadMove(parse, false, s[i], |q|, pads);
      ScanCounts(parse, false, s, i, q, pads, padStart);
      ScanPads(parse, s, i + 1, q, pads + 1, if pads == 0 then i else padStart);
    } else {
      ScanStops(parse, false, s, i, q, pads, padStart);
    }
  }

  /** A group of one to three bytes is one quantum. */
  lemma GroupQuantum(parse: Parse, noPads: bool, s: Bytes, i: nat, b: Bytes)
    requires 1 <= |b| <= 3 && i + 4 <= |s| && s[i..i + 4] == Group(b)
    requires |b| < 3 ==> i + 4 == |s| && !noPads
    ensures NextQuantum(parse, noPads, s, i) == Quantum(Sextets(b), true, i + 4)
  {
    hide ScanFrom, Letters, Pads, Sextets;
    var q := Sextets(b);
    var n := |q|;
    var group := s[i..i + 4];
    assert s[i..i + n] == group[..n];
    ScanLetters(parse, noPads, s, i, [], q);
    assert [] + q == q;
    if |b| < 3 {
      forall k | i + n <= k < |s| ensures s[k] == PAD_CHAR {
        assert s[k] == group[k - i];
      }
      ScanPads(parse, s, i + n, q, 0, 0);
    } else {
      ScanStops(parse, noPads, s, i + 4, q, 0, 0);
    }
  }

  /** Decoding inverts encoding under every combination of flags that allows pads. */
  lemma {:induction false} DecodeOfEncode(f: Flags, s: Bytes, i: nat, b: Bytes)
    requires f.pad != PadNo && i <= |s| && s[i..] == Encode(b)
    ensures DecodeFrom(f, s, i) == Decoded(true, b, |s|)
    decreases |b|
  {
    hide Group, Sextets, WholeBytes, LeftOver, NextQuantum;
    if 1 <= |b| <= 3 {
      assert s[i..i + 4] == s[i..] == Group(b);
      GroupQuantum(f.parse, false, s, i, b);
      BytesOfSextets(b);
      if |b| == 3 {
        assert DecodeFrom(f, s, i + 4) == Decoded(true, [], |s|);
        assert b + [] == b;
      }
    } else if |b| > 3 {
      assert s[i..i + 4] == s[i..][..4] == Group(b[..3]);
      assert s[i + 4..] == s[i..][4..] == Encode(b[3..]);
      GroupQuantum(f.parse, false, s, i, b[..3]);
      BytesOfSextets(b[..3]);
      DecodeOfEncode(f, s, i + 4, b[3..]);
      assert b[..3] + b[3..] == b;
    }
  }

  lemma RoundTrip(f: Flags, b: Bytes)
    requires f.pad != PadNo
    ensures Decode(f, Encode(b)) == Decoded(true, b, |Encode(b)|)
  {
    hide DecodeFrom, Encode;
    assert Encode(b)[0..] == Encode(b);
    DecodeOfEncode(f, Encode(b), 0, b);
  }

  // ------------------------------------------------------------- what strict decoding accepts

  /** What a strict scan passed over: letters, then pads, and nothing else. */
  predicate Passed(s: Bytes, i: nat, q: seq<Sextet>, pads: nat, r: Scan) {
    && i <= r.pos <= |s| && |q| <= |r.q| && r.q[..|q|] == q && pads <= r.pads
    && (r.pads > 0 ==> |r.q| >= 2)
    && (pads > 0 ==> r.q == q)
    && s[i..r.pos] == Letters(r.q[|q|..]) + Pads(r.pads - pads)
  }

  lemma {:induction false} StrictScan(s: Bytes, i: nat, q: seq<Sextet>, pads: nat, padStart: nat)
    requires i <= |s| && |q| + pads <= 4 && (pads > 0 ==> padStart < i && |q| >= 2)
    ensures Passed(s, i, q, pads, ScanFrom(ParseStrict, false, s, i, q, pads, padStart))
    decreases |s| - i
  {
    hide *;
    var move := if i == |s| then Stop else MoveAt(ParseStrict, false, s[i], |q|, pads);
    if |q| == 4 || move == Stop {
      ScanStops(ParseStrict, false, s, i, q, pads, padStart);
      PassedNothing(s, i, q, pads, padStart);
    } else {
      StrictMove(s[i], |q|, pads);
      match move
      case CountPad =>
        var start := if pads == 0 then i else padStart;
        ScanCounts(ParseStrict, false, s, i, q, pads, padStart);
        StrictScan(s, i + 1, q, pads + 1, start);
        PassedPad(s, i, q, pads, ScanFrom(ParseStrict, false, s, i + 1, q, pads + 1, start));
      case Take(v) =>
        ScanTakes(ParseStrict, false, s, i, q, pads, padStart, v);
        StrictScan(s, i + 1, q + [v], 0, padStart);
        PassedLetter(s, i, q, v, ScanFrom(ParseStrict, false, s, i + 1, q + [v], 0, padStart));
      case _ =>
    }
  }

  lemma PassedNothing(s: Bytes, i: nat, q: seq<Sextet>, pads: nat, padStart: nat)
    requires i <= |s| && (pads > 0 ==> |q| >= 2)
    ensures Passed(s, i, q, pads, Scan(i, q, pads, padStart))
  {
  }

  lemma PassedPad(s: Bytes, i: nat, q: seq<Sextet>, pads: nat, r: Scan)
    requires i < |s| && s[i] == PAD_CHAR && Passed(s, i + 1, q, pads + 1, r)
    ensures Passed(s, i, q, pads, r)
  {
    assert s[i..r.pos] == [s[i]] + s[i + 1..r.pos];
  }

  lemma PassedLetter(s: Bytes, i: nat, q: seq<Sextet>, v: Sextet, r: Scan)
    requires i < |s| && s[i] == Letter(v) && Passed(s, i + 1, q + [v], 0, r)
    ensures Passed(s, i, q, 0, r)
  {
    hide Letters, Letter, Pads;
    var n := |q|;
    assert r.q[..n] == r.q[..n + 1][..n];
    assert r.q[n] == r.q[..n + 1][n] == v;
    assert r.q[n..][1..] == r.q[n + 1..];
    LettersStep(r.q[n..]);
    assert s[i..r.pos] == [s[i]] + s[i + 1..r.pos];
  }

  lemma StrictMove(c: Byte, have: nat, pads: nat)
    ensures var m := MoveAt(ParseStrict, false, c, have, pads);
            && m != Skip
            && (m == CountPad ==> c == PAD_CHAR && have >= 2 && have + pads < 4)
            && (m.Take? ==> c == Letter(m.v) && pads == 0)
  {
  }

  /** A quantum that strict decoding does not refuse is a group. */
  lemma StrictQuantum(s: Bytes, i: nat)
    requires i < |s|
    ensures var r := NextQuantum(ParseStrict, false, s, i);
            && (|r.q| == 4 ==> s[i..r.next] == Group(WholeBytes(r.q)))
            && (|r.q| < 4 && r.padded && LeftOver(r.q) == 0 ==>
                  WholeBytes(r.q) != [] && s[i..r.next] == Group(WholeBytes(r.q)))
  {
    hide ScanFrom, Sextets, WholeBytes, LeftOver, Letters, Pads;
    StrictScan(s, i, [], 0, 0);
    var r := NextQuantum(ParseStrict, false, s, i);
    if |r.q| == 4 || (r.padded && LeftOver(r.q) == 0) {
      assert r.q[0..] == r.q;
      SextetsOfBytes(r.q);
    }
  }

  /** What the strict decoder accepts is the encoding of what it returns. */
  lemma {:induction false} EncodeOfDecode(s: Bytes, i: nat)
    requires i <= |s|
    ensures var r := DecodeFrom(STRICT, s, i);
            r.ok && r.used == |s| ==> s[i..] == Encode(r.bytes)
    decreases |s| - i
  {
    hide NextQuantum, WholeBytes, LeftOver, Group;
    if i < |s| {
      StrictQuantum(s, i);
      var r := NextQuantum(ParseStrict, false, s, i);
      if |r.q| == 4 {
        EncodeOfDecode(s, r.next);
        EncodeGroup(WholeBytes(r.q), DecodeFrom(STRICT, s, r.next).bytes);
        assert s[i..] == s[i..r.next] + s[r.next..];
      }
    }
  }

  lemma EncodeGroup(b: Bytes, rest: Bytes)
    requires |b| == 3
    ensures Encode(b + rest) == Group(b) + Encode(rest)
  {
    assert (b + rest)[..3] == b && (b + rest)[3..] == rest;
    if rest == [] {
      assert b + rest == b;
    }
  }

  /** The strict decoder accepts exactly the encodings, and inverts them. */
  lemma Bijection(s: Bytes, b: Bytes)
    ensures Decode(STRICT, s).ok && Decode(STRICT, s).bytes == b <==> s == Encode(b)
  {
    hide DecodeFrom, Encode;
    RoundTrip(STRICT, b);
    EncodeOfDecode(s, 0);
    assert s[0..] == s;
  }
}
