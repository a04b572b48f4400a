/**
 Lenient decoding: skipping whitespace gives what strict decoding gives without it, and
 skipping everything illegal gives what the letters alone give.
 */
module Base64Lenient {
  import opened Words
  import opened Base64
  import opened Base64Strict

  // ------------------------------------------------------------- what is left of an input

  /** The characters that count under a way of parsing. */
  predicate Kept(parse: Parse, c: Byte) {
    match parse
    case ParseStrict => true
    case ParseWhite => !IsSpace(c)
    case ParseAny => IsLetter(c)
  }

  function Strip(parse: Parse, s: Bytes): (t: Bytes)
    ensures |t| <= |s|
  {
    if s == [] then []
    else
      var t := Strip(parse, s[..|s| - 1]);
      if Kept(parse, s[|s| - 1]) then t + [s[|s| - 1]] else t
  }

  /** The position in the stripped input that corresponds to position i. */
  function At(parse: Parse, s: Bytes, i: nat): nat
    requires i <= |s|
  {
    |Strip(parse, s[..i])|
  }

  lemma {:induction false} StripPrefix(parse: Parse, s: Bytes, i: nat)
    requires i <= |s|
    ensures Strip(parse, s[..i]) <= Strip(parse, s)
    decreases |s|
  {
    if i == |s| {
      assert s[..i] == s;
    } else {
      StripPrefix(parse, s[..|s| - 1], i);
      assert s[..|s| - 1][..i] == s[..i];
    }
  }

  /** One character on, in the input and in the stripped input. */
  lemma StripAt(parse: Parse, s: Bytes, i: nat)
    requires i < |s|
    ensures var t, j := Strip(parse, s), At(parse, s, i);
            if Kept(parse, s[i]) then j < |t| && t[j] == s[i] && At(parse, s, i + 1) == j + 1
            else j <= |t| && At(parse, s, i + 1) == j
  {
    StripPrefix(parse, s, i);
    StripPrefix(parse, s, i + 1);
    assert s[..i + 1][..i] == s[..i] && s[..i + 1][i] == s[i];
  }

  lemma AtEnds(parse: Parse, s: Bytes)
    ensures At(parse, s, 0) == 0 && At(parse, s, |s|) == |Strip(parse, s)|
    ensures forall i :: 0 <= i <= |s| ==> At(parse, s, i) <= |Strip(parse, s)|
  {
    assert s[..|s|] == s;
    forall i | 0 <= i <= |s| ensures At(parse, s, i) <= |Strip(parse, s)| {
      StripPrefix(parse, s, i);
    }
  }

  // ------------------------------------------------------------- one quantum with whitespace

  /** A scan with whitespace skipped, beside the strict scan of the stripped input. */
  predicate Mirrors(s: Bytes, i: nat, q: seq<Sextet>, w: Scan, r: Scan) {
    && w.pos <= |s| && w.q == r.q && w.pads == r.pads && r.pos == At(ParseWhite, s, w.pos)
    && (w.pads > 0 ==>
          && w.padStart < |s| && r.padStart == At(ParseWhite, s, w.padStart)
          && r.padStart < |Strip(ParseWhite, s)|)
    && (|w.q| < 4 ==> (w.pos == |s| <==> r.pos == |Strip(ParseWhite, s)|))
    && (|q| < 4 && |w.q| == 4 ==> i < w.pos && !IsSpace(s[w.pos - 1]))
  }

  lemma {:induction false} WhiteScan(
      noPads: bool, s: Bytes, i: nat, q: seq<Sextet>, pads: nat, padStart: nat, mirrored: nat)
    requires i <= |s| && |q| + pads <= 4
    requires At(ParseWhite, s, i) <= |Strip(ParseWhite, s)|
    requires pads > 0 ==>
      padStart < i && mirrored < At(ParseWhite, s, i) && mirrored == At(ParseWhite, s, padStart)
    ensures Mirrors(s, i, q,
                    ScanFrom(ParseWhite, noPads, s, i, q, pads, padStart),
                    ScanFrom(ParseStrict, noPads, Strip(ParseWhite, s), At(ParseWhite, s, i), q, pads, mirrored))
    decreases |s| - i
  {
    hide *;
    var t, j := Strip(ParseWhite, s), At(ParseWhite, s, i);
    if i == |s| || |q| == 4 {
      AtEnds(ParseWhite, s);
      ScanStops(ParseWhite, noPads, s, i, q, pads, padStart);
      ScanStops(ParseStrict, noPads, t, j, q, pads, mirrored);
      MirrorsHere(s, i, q, pads, padStart, mirrored);
    } else {
      StripAt(ParseWhite, s, i);
      WhiteMove(noPads, s[i], |q|, pads);
      var move := MoveAt(ParseWhite, noPads, s[i], |q|, pads);
      match move
      case Stop =>
        ScanStops(ParseWhite, noPads, s, i, q, pads, padStart);
        ScanStops(ParseStrict, noPads, t, j, q, pads, mirrored);
        MirrorsHere(s, i, q, pads, padStart, mirrored);
      case Skip =>
        ScanSkips(ParseWhite, noPads, s, i, q, pads, padStart);
        WhiteScan(noPads, s, i + 1, q, pads, padStart, mirrored);
        MirrorsOn(s, i, q, q, ScanFrom(ParseWhite, noPads, s, i, q, pads, padStart),
                  ScanFrom(ParseStrict, noPads, t, j, q, pads, mirrored));
      case CountPad =>
        ScanCounts(ParseWhite, noPads, s, i, q, pads, padStart);
        ScanCounts(ParseStrict, noPads, t, j, q, pads, mirrored);
        WhiteScan(noPads, s, i + 1, q, pads + 1, if pads == 0 then i else padStart, if pads == 0 then j else mirrored);
        MirrorsOn(s, i, q, q, ScanFrom(ParseWhite, noPads, s, i, q, pads, padStart),
                  ScanFrom(ParseStrict, noPads, t, j, q, pads, mirrored));
      case Take(v) =>
        ScanTakes(ParseWhite, noPads, s, i, q, pads, padStart, v);
        ScanTakes(ParseStrict, noPads, t, j, q, pads, mirrored, v);
        WhiteScan(noPads, s, i + 1, q + [v], 0, padStart, mirrored);
        if |q| == 3 {
          ScanStops(ParseWhite, noPads, s, i + 1, q + [v], 0, padStart);
        }
        MirrorsOn(s, i, q, q + [v], ScanFrom(ParseWhite, noPads, s, i, q, pads, padStart),
                  ScanFrom(ParseStrict, noPads, t, j, q, pads, mirrored));
    }
  }

  /** Apart from whitespace the two ways of parsing move alike. */
  lemma WhiteMove(noPads: bool, c: Byte, have: nat, pads: nat)
    ensures var m := MoveAt(ParseWhite, noPads, c, have, pads);
            && (m == Skip <==> IsSpace(c))
            && (Kept(ParseWhite, c) <==> !IsSpace(c))
            && (!IsSpace(c) ==> MoveAt(ParseStrict, noPads, c, have, pads) == m)
            && (m == CountPad ==> have + pads < 4)
            && (m.Take? ==> pads == 0)
  {
  }

  lemma MirrorsHere(s: Bytes, i: nat, q: seq<Sextet>, pads: nat, padStart: nat, mirrored: nat)
    requires i <= |s| && |q| <= 4 && At(ParseWhite, s, i) <= |Strip(ParseWhite, s)|
    requires pads > 0 ==>
      padStart < i && mirrored < At(ParseWhite, s, i) && mirrored == At(ParseWhite, s, padStart)
    requires |q| == 4 || (i == |s| <==> At(ParseWhite, s, i) == |Strip(ParseWhite, s)|)
    ensures Mirrors(s, i, q, Scan(i, q, pads, padStart), Scan(At(ParseWhite, s, i), q, pads, mirrored))
  {
  }

  lemma MirrorsOn(s: Bytes, i: nat, q: seq<Sextet>, next: seq<Sextet>, w: Scan, r: Scan)
    requires i < |s| && |next| <= 4 && Mirrors(s, i + 1, next, w, r)
    requires |next| == 4 && |q| < 4 ==> w.pos == i + 1 && !IsSpace(s[i])
    ensures Mirrors(s, i, q, w, r)
  {
  }

  /** A quantum with whitespace skipped, beside the strict quantum of the stripped input. */
  lemma WhiteQuantum(noPads: bool, s: Bytes, i: nat)
    requires i <= |s| && At(ParseWhite, s, i) <= |Strip(ParseWhite, s)|
    ensures var w := NextQuantum(ParseWhite, noPads, s, i);
            var r := NextQuantum(ParseStrict, noPads, Strip(ParseWhite, s), At(ParseWhite, s, i));
            && w.q == r.q && w.padded == r.padded && r.next == At(ParseWhite, s, w.next)
            && (|w.q| < 4 ==> (w.next == |s| <==> r.next == |Strip(ParseWhite, s)|))
            && (|w.q| == 4 ==> !IsSpace(s[w.next - 1]))
  {
    hide ScanFrom, Strip, At, DecodeTable;
    WhiteScan(noPads, s, i, [], 0, 0, 0);
  }

  /** Nothing but whitespace remains. */
  lemma BlankQuantum(noPads: bool, s: Bytes, i: nat)
    requires i < |s| && At(ParseWhite, s, i) == |Strip(ParseWhite, s)|
    ensures NextQuantum(ParseWhite, noPads, s, i) == Quantum([], false, |s|) && IsSpace(s[|s| - 1])
  {
    hide ScanFrom, Strip, At, MoveAt, DecodeTable;
    WhiteQuantum(noPads, s, i);
    AtEnds(ParseWhite, s);
    ScanStops(ParseStrict, noPads, Strip(ParseWhite, s), At(ParseWhite, s, i), [], 0, 0);
    AllBlank(s, i);
  }

  lemma {:induction false} AllBlank(s: Bytes, i: nat)
    requires i < |s| && At(ParseWhite, s, i) == |Strip(ParseWhite, s)|
    ensures IsSpace(s[|s| - 1])
    decreases |s| - i
  {
    hide Strip, At, DecodeTable;
    StripAt(ParseWhite, s, i);
    if i + 1 < |s| {
      AllBlank(s, i + 1);
    }
  }

  // ------------------------------------------------------------- whole inputs with whitespace

  /** The input ends in whitespace, and from position i on only full quanta precede it. */
  predicate BlankAfterQuanta(s: Bytes, i: nat)
    requires i <= |s|
  {
    var t, j := Strip(ParseWhite, s), At(ParseWhite, s, i);
    i < |s| && IsSpace(s[|s| - 1]) && (|t| - j) % 4 == 0 && AllLetters(t, j)
  }

  predicate AllLetters(t: Bytes, j: nat) {
    forall k :: j <= k < |t| ==> IsLetter(t[k])
  }

  /** The result with whitespace, beside the strict result of the stripped input. */
  predicate Agrees(pad: Pad, s: Bytes, i: nat, w: Decoded, r: Decoded)
    requires i <= |s|
  {
    && w.bytes == r.bytes
    && (w.used == |s| <==> r.used == |Strip(ParseWhite, s)|)
    && (w.ok <==> r.ok && !(pad == PadYes && BlankAfterQuanta(s, i)))
  }

  lemma {:induction false} WhiteDecode(pad: Pad, term: Term, s: Bytes, i: nat)
    requires i <= |s| && At(ParseWhite, s, i) <= |Strip(ParseWhite, s)|
    ensures Agrees(pad, s, i,
                   DecodeFrom(Flags(ParseWhite, pad, term), s, i),
                   DecodeFrom(Flags(ParseStrict, pad, term), Strip(ParseWhite, s), At(ParseWhite, s, i)))
    decreases |s| - i
  {
    hide NextQuantum, Strip, At, WholeBytes, LeftOver, DecodeTable, AllLetters;
    var t, j := Strip(ParseWhite, s), At(ParseWhite, s, i);
    AtEnds(ParseWhite, s);
    if i < |s| {
      WhiteQuantum(pad == PadNo, s, i);
      var w := NextQuantum(ParseWhite, pad == PadNo, s, i);
      if j == |t| {
        BlankQuantum(pad == PadNo, s, i);
        NoLetters(t, j);
      } else if |w.q| == 4 {
        WhiteDecode(pad, term, s, w.next);
        if pad == PadYes {
          FullQuantum(t, j);
        }
      } else if (|t| - j) % 4 == 0 && AllLetters(t, j) {
        FourLetters(pad == PadNo, t, j);
      }
    }
  }

  lemma NoLetters(t: Bytes, j: nat)
    requires j >= |t|
    ensures AllLetters(t, j)
    ensures WholeBytes([]) == [] && LeftOver([]) == 0
  {
  }

  /** A strict quantum with four values is four letters. */
  lemma FullQuantum(t: Bytes, j: nat)
    requires j < |t| && |NextQuantum(ParseStrict, false, t, j).q| == 4
    ensures NextQuantum(ParseStrict, false, t, j).next == j + 4 <= |t|
    ensures AllLetters(t, j) <==> AllLetters(t, j + 4)
  {
    hide ScanFrom, Letters, Pads, DecodeTable;
    StrictScan(t, j, [], 0, 0);
    var r := ScanFrom(ParseStrict, false, t, j, [], 0, 0);
    assert r.q[0..] == r.q;
    forall k | j <= k < j + 4 ensures IsLetter(t[k]) {
      assert t[k] == t[j..j + 4][k - j] == Letter(r.q[k - j]);
      LetterClass(r.q[k - j]);
    }
  }

  /** Four letters ahead make a full quantum. */
  lemma FourLetters(noPads: bool, t: Bytes, j: nat)
    requires j < |t| && (|t| - j) % 4 == 0 && AllLetters(t, j)
    ensures |NextQuantum(ParseStrict, noPads, t, j).q| == 4
  {
    hide ScanFrom, Letters, DecodeTable;
    var w: seq<Sextet> := [DecodeTable(t[j]), DecodeTable(t[j + 1]), DecodeTable(t[j + 2]), DecodeTable(t[j + 3])];
    assert t[j..j + 4] == Letters(w);
    ScanLetters(ParseStrict, noPads, t, j, [], w);
    assert [] + w == w;
    ScanStops(ParseStrict, noPads, t, j + 4, w, 0, 0);
  }

  /**
   Whitespace is neutral: skipping it gives the bytes of strict decoding without it, always,
   and the same verdict unless pads are required and whitespace follows full quanta, where
   the empty quantum after them is refused for its missing pads.
   */
  lemma WhitespaceNeutral(pad: Pad, term: Term, s: Bytes)
    ensures var w := Decode(Flags(ParseWhite, pad, term), s);
            var r := Decode(Flags(ParseStrict, pad, term), Strip(ParseWhite, s));
            && w.bytes == r.bytes
            && (w.ok <==> r.ok && !(pad == PadYes && BlankAfterQuanta(s, 0)))
  {
    hide DecodeFrom, Strip, At, BlankAfterQuanta;
    AtEnds(ParseWhite, s);
    WhiteDecode(pad, term, s, 0);
  }

  /** A single blank: nothing is encoded, and yet pads are missed. */
  lemma BlankRefused()
    ensures Strip(ParseWhite, [32]) == [] && Decode(STRICT, []).ok
    ensures !Decode(Flags(ParseWhite, PadYes, TermBuffer), [32]).ok
  {
    assert [32][..0] == [];
    WhitespaceNeutral(PadYes, TermBuffer, [32]);
  }

  // ------------------------------------------------------------- only the letters count

  /** How many pads stand behind the last letter. */
  function PadsBehind(s: Bytes): nat {
    if s == [] || IsLetter(s[|s| - 1]) then 0
    else (if s[|s| - 1] == PAD_CHAR then 1 else 0) + PadsBehind(s[..|s| - 1])
  }

  lemma PadsBehindOn(s: Bytes, i: nat)
    requires i < |s|
    ensures PadsBehind(s[..i + 1])
         == if IsLetter(s[i]) then 0 else (if s[i] == PAD_CHAR then 1 else 0) + PadsBehind(s[..i])
  {
    assert s[..i + 1][..i] == s[..i] && s[..i + 1][i] == s[i];
  }

  /** How many of n pads a quantum with some values counts: none below two values, and no more than fill it up. */
  function Counted(noPads: bool, values: nat, n: nat): nat {
    if noPads || values < 2 || values > 4 then 0 else if n < 4 - values then n else 4 - values
  }

  /** The scan that skips all but letters, beside the strict scan of the letters. */
  predicate Collects(noPads: bool, s: Bytes, i: nat, q: seq<Sextet>, w: Scan, r: Scan) {
    && i <= |s| && w.q == r.q && r.pads == 0 && w.pos <= |s|
    && |w.q| - |q| == r.pos - At(ParseAny, s, i) && r.pos == At(ParseAny, s, w.pos)
    && (|w.q| < 4 ==> w.pos == |s| && w.pads == Counted(noPads, |w.q|, PadsBehind(s)))
    && (|q| < 4 && |w.q| == 4 ==> i < w.pos && IsLetter(s[w.pos - 1]))
  }

  /** Skipping all but letters: the scan collects the values of the letters alone, and the pads behind them. */
  lemma {:induction false} AnyScan(
      noPads: bool, strict: bool, s: Bytes, i: nat, q: seq<Sextet>, pads: nat, padStart: nat)
    requires i <= |s| && |q| + pads <= 4 && (pads > 0 ==> padStart < i)
    requires At(ParseAny, s, i) <= |Strip(ParseAny, s)| && pads == Counted(noPads, |q|, PadsBehind(s[..i]))
    ensures Collects(noPads, s, i, q,
                     ScanFrom(ParseAny, noPads, s, i, q, pads, padStart),
                     ScanFrom(ParseStrict, strict, Strip(ParseAny, s), At(ParseAny, s, i), q, 0, 0))
    decreases |s| - i
  {
    hide *;
    var t, j := Strip(ParseAny, s), At(ParseAny, s, i);
    if i == |s| || |q| == 4 {
      AtEnds(ParseAny, s);
      ScanStops(ParseAny, noPads, s, i, q, pads, padStart);
      ScanStops(ParseStrict, strict, t, j, q, 0, 0);
      CollectsHere(noPads, s, i, q, pads, padStart);
    } else {
      StripAt(ParseAny, s, i);
      PadsBehindOn(s, i);
      AnyMove(noPads, strict, s[i], |q|, pads, PadsBehind(s[..i]));
      match MoveAt(ParseAny, noPads, s[i], |q|, pads)
      case Skip =>
        ScanSkips(ParseAny, noPads, s, i, q, pads, padStart);
        AnyScan(noPads, strict, s, i + 1, q, pads, padStart);
        CollectsOn(noPads, s, i, q, q, ScanFrom(ParseAny, noPads, s, i, q, pads, padStart),
                   ScanFrom(ParseStrict, strict, t, j, q, 0, 0));
      case CountPad =>
        ScanCounts(ParseAny, noPads, s, i, q, pads, padStart);
        AnyScan(noPads, strict, s, i + 1, q, pads + 1, if pads == 0 then i else padStart);
        CollectsOn(noPads, s, i, q, q, ScanFrom(ParseAny, noPads, s, i, q, pads, padStart),
                   ScanFrom(ParseStrict, strict, t, j, q, 0, 0));
      case Take(v) =>
        ScanTakes(ParseAny, noPads, s, i, q, pads, padStart, v);
        ScanTakes(ParseStrict, strict, t, j, q, 0, 0, v);
        AnyScan(noPads, strict, s, i + 1, q + [v], 0, padStart);
        if |q| == 3 {
          ScanStops(ParseAny, noPads, s, i + 1, q + [v], 0, padStart);
        }
        CollectsOn(noPads, s, i, q, q + [v], ScanFrom(ParseAny, noPads, s, i, q, pads, padStart),
                   ScanFrom(ParseStrict, strict, t, j, q, 0, 0));
      case Stop =>
    }
  }

  lemma CollectsHere(noPads: bool, s: Bytes, i: nat, q: seq<Sextet>, pads: nat, padStart: nat)
    requires i <= |s| && |q| <= 4 && (i == |s| || |q| == 4) && pads == Counted(noPads, |q|, PadsBehind(s[..i]))
    ensures Collects(noPads, s, i, q, Scan(i, q, pads, padStart), Scan(At(ParseAny, s, i), q, 0, 0))
  {
    if i == |s| {
      assert s[..i] == s;
    }
  }

  lemma CollectsOn(noPads: bool, s: Bytes, i: nat, q: seq<Sextet>, next: seq<Sextet>, w: Scan, r: Scan)
    requires i < |s| && |next| <= 4 && Collects(noPads, s, i + 1, next, w, r)
    requires |next| - |q| == At(ParseAny, s, i + 1) - At(ParseAny, s, i)
    requires |next| == 4 && |q| < 4 ==> w.pos == i + 1 && IsLetter(s[i])
    ensures Collects(noPads, s, i, q, w, r)
  {
  }

  lemma AnyMove(noPads: bool, strict: bool, c: Byte, have: nat, pads: nat, behind: nat)
    requires have < 4 && pads == Counted(noPads, have, behind)
    ensures var m := MoveAt(ParseAny, noPads, c, have, pads);
            && m != Stop && (m.Take? <==> IsLetter(c)) && (Kept(ParseAny, c) <==> IsLetter(c))
            && (m.Take? ==> MoveAt(ParseStrict, strict, c, have, 0) == m && Counted(noPads, have + 1, 0) == 0)
            && (m == CountPad ==> have + pads < 4)
            && (!m.Take? ==> Counted(noPads, have, (if c == PAD_CHAR then 1 else 0) + behind)
                             == if m == CountPad then pads + 1 else pads)
  {
  }

  /** A quantum that skips all but letters, beside the strict quantum of the letters. */
  lemma AnyQuantum(noPads: bool, strict: bool, s: Bytes, i: nat)
    requires i <= |s| && At(ParseAny, s, i) <= |Strip(ParseAny, s)|
    ensures var w := NextQuantum(ParseAny, noPads, s, i);
            var r := NextQuantum(ParseStrict, strict, Strip(ParseAny, s), At(ParseAny, s, i));
            var pads := Counted(noPads, |w.q|, PadsBehind(s));
            && w.q == r.q && r.next == At(ParseAny, s, i) + |w.q| && (|w.q| < 4 ==> !r.padded)
            && (|w.q| == 4 ==> r.next == At(ParseAny, s, w.next) && IsLetter(s[w.next - 1]))
            && (|w.q| < 4 ==> r.next == |Strip(ParseAny, s)|)
            && (|w.q| < 4 ==> (w.padded <==> |w.q| + pads == 4) && (w.next == |s| <==> pads == 0 || |w.q| + pads == 4))
  {
    hide ScanFrom, Strip, At, PadsBehind, IsLetter;
    AtEnds(ParseAny, s);
    AnyScan(noPads, strict, s, i, [], 0, 0);
  }

  /** Where no letter is left the input does not end in one. */
  lemma {:induction false} NoLetterLeft(s: Bytes, i: nat)
    requires i < |s| && At(ParseAny, s, i) == |Strip(ParseAny, s)|
    ensures !IsLetter(s[|s| - 1])
    decreases |s| - i
  {
    hide Strip, At, IsLetter;
    StripAt(ParseAny, s, i);
    if i + 1 < |s| {
      NoLetterLeft(s, i + 1);
    }
  }

  /** The verdict on the pads when m letters are left over. */
  predicate PadsFit(pad: Pad, s: Bytes, m: nat) {
    pad == PadYes ==> if m == 0 then s == [] || IsLetter(s[|s| - 1]) else m >= 2 && m + PadsBehind(s) >= 4
  }

  /** Pads that do not fill up the last quantum stay behind. */
  predicate PadsRemain(pad: Pad, s: Bytes, m: nat) {
    pad != PadNo && m >= 2 && 0 < PadsBehind(s) < 4 - m
  }

  /** The result when all but letters are skipped, beside the strict result of the letters. */
  predicate LettersAgree(pad: Pad, strictPad: Pad, s: Bytes, m: nat, w: Decoded, r: Decoded) {
    && w.bytes == r.bytes
    && (strictPad != PadYes ==> (w.ok <==> r.ok && PadsFit(pad, s, m)))
    && (w.used == |s| <==> !PadsRemain(pad, s, m)) && r.used == |Strip(ParseAny, s)|
  }

  lemma {:induction false} AnyDecode(pad: Pad, strictPad: Pad, term: Term, s: Bytes, i: nat)
    requires i <= |s| && At(ParseAny, s, i) <= |Strip(ParseAny, s)|
    requires i == 0 || IsLetter(s[i - 1])
    ensures LettersAgree(pad, strictPad, s, (|Strip(ParseAny, s)| - At(ParseAny, s, i)) % 4,
                         DecodeFrom(Flags(ParseAny, pad, term), s, i),
                         DecodeFrom(Flags(ParseStrict, strictPad, term), Strip(ParseAny, s), At(ParseAny, s, i)))
    decreases |s| - i
  {
    hide *;
    var t, j := Strip(ParseAny, s), At(ParseAny, s, i);
    AnyQuantum(pad == PadNo, strictPad == PadNo, s, i);
    var w := NextQuantum(ParseAny, pad == PadNo, s, i);
    if |w.q| == 4 {
      AtEnds(ParseAny, s);
      AnyDecode(pad, strictPad, term, s, w.next);
      SameRest(|t| - j);
      DecodeGoesOn(Flags(ParseAny, pad, term), s, i);
      DecodeGoesOn(Flags(ParseStrict, strictPad, term), t, j);
      LettersGoOn(pad, strictPad, s, (|t| - j) % 4, WholeBytes(w.q),
                  DecodeFrom(Flags(ParseAny, pad, term), s, w.next),
                  DecodeFrom(Flags(ParseStrict, strictPad, term), t, j + 4));
    } else {
      LastLetters(pad, strictPad, term, s, i);
    }
  }

  lemma DecodeGoesOn(f: Flags, s: Bytes, i: nat)
    requires i <= |s| && |NextQuantum(f.parse, f.pad == PadNo, s, i).q| == 4
    ensures var r := NextQuantum(f.parse, f.pad == PadNo, s, i);
            var rest := DecodeFrom(f, s, r.next);
            DecodeFrom(f, s, i) == Decoded(rest.ok, WholeBytes(r.q) + rest.bytes, rest.used)
  {
    hide NextQuantum, WholeBytes, LeftOver;
  }

  lemma LettersGoOn(pad: Pad, strictPad: Pad, s: Bytes, m: nat, first: Bytes, w: Decoded, r: Decoded)
    requires LettersAgree(pad, strictPad, s, m, w, r)
    ensures LettersAgree(pad, strictPad, s, m,
                         Decoded(w.ok, first + w.bytes, w.used), Decoded(r.ok, first + r.bytes, r.used))
  {
  }

  /** The last quantum, or none at all. */
  lemma LastLetters(pad: Pad, strictPad: Pad, term: Term, s: Bytes, i: nat)
    requires i <= |s| && At(ParseAny, s, i) <= |Strip(ParseAny, s)| && (i == 0 || IsLetter(s[i - 1]))
    requires |NextQuantum(ParseAny, pad == PadNo, s, i).q| < 4
    ensures LettersAgree(pad, strictPad, s, (|Strip(ParseAny, s)| - At(ParseAny, s, i)) % 4,
                         DecodeFrom(Flags(ParseAny, pad, term), s, i),
                         DecodeFrom(Flags(ParseStrict, strictPad, term), Strip(ParseAny, s), At(ParseAny, s, i)))
  {
    hide NextQuantum, Strip, At, WholeBytes, LeftOver, DecodeTable, PadsBehind, IsLetter;
    var t, j := Strip(ParseAny, s), At(ParseAny, s, i);
    AtEnds(ParseAny, s);
    AnyQuantum(pad == PadNo, strictPad == PadNo, s, i);
    NoLetters(t, |t|);
    if i < |s| && j == |t| {
      NoLetterLeft(s, i);
    }
  }

  lemma SameRest(n: int)
    ensures (n - 4) % 4 == n % 4
  {
  }

  /**
   The lax decoder sees only the letters and the pads behind the last one.  The bytes are those
   of the letters.  The verdict is that of the letters, except for pads: where they are required
   they must fill up the last quantum, or nothing may follow full quanta; and where the whole
   input must be used they must fill it up or be absent.
   */
  lemma OnlyLettersCount(pad: Pad, term: Term, s: Bytes)
    ensures var t := Strip(ParseAny, s);
            var w := Decode(Flags(ParseAny, pad, term), s);
            && w.bytes == Decode(Flags(ParseStrict, pad, term), t).bytes
            && (w.ok <==> Decode(Flags(ParseStrict, PadAny, term), t).ok && PadsFit(pad, s, |t| % 4)
                          && !(term == TermBuffer && PadsRemain(pad, s, |t| % 4)))
  {
    hide DecodeFrom, Strip, At, PadsFit, PadsRemain;
    AtEnds(ParseAny, s);
    AnyDecode(pad, pad, term, s, 0);
    AnyDecode(pad, PadAny, term, s, 0);
  }
}
