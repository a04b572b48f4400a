/**
 Base64: the strings the encoder produces, what the flag-driven decoder computes, and the
 laws that tie the two.
 */
module Base64 {
  import opened Words

  const PAD_CHAR: Byte := 61

  // The classes of the decode table beside the values 0 to 63: padding, whitespace, illegal.
  const PD: Byte := 0xFD
  const SP: Byte := 0xFE
  const IL: Byte := 0xFF

  type Sextet = x: int | 0 <= x < 64 witness 0

  /** The alphabet: A-Z, a-z, 0-9, plus and slash. */
  function Letter(v: Sextet): Byte {
    if v < 26 then v + 65
    else if v < 52 then v + 71
    else if v < 62 then v - 4
    else if v == 62 then 43
    else 47
  }

  /** The class of a character. */
  function DecodeTable(c: Byte): (v: Byte)
    ensures v < 64 || v == PD || v == SP || v == IL
    ensures v < 64 ==> Letter(v) == c
    ensures v == PD <==> c == PAD_CHAR
  {
    if 65 <= c <= 90 then c - 65
    else if 97 <= c <= 122 then c - 71
    else if 48 <= c <= 57 then c + 4
    else if c == 43 then 62
    else if c == 47 then 63
    else if c == 61 then PD
    else if 9 <= c <= 13 || c == 32 then SP
    else IL
  }

  /** The decode table inverts the alphabet. */
  lemma LetterClass(v: Sextet)
    ensures DecodeTable(Letter(v)) == v
  {
  }

  predicate IsLetter(c: Byte) {
    DecodeTable(c) < 64
  }

  predicate IsSpace(c: Byte) {
    DecodeTable(c) == SP
  }

  // ---------------------------------------------------------------- encoding

  /** The 6-bit groups of up to three bytes, the last one filled up with zero bits. */
  function Sextets(b: Bytes): (q: seq<Sextet>)
    requires 1 <= |b| <= 3
    ensures |q| == |b| + 1
  {
    if |b| == 1 then [b[0] / 4, b[0] % 4 * 16]
    else if |b| == 2 then [b[0] / 4, b[0] % 4 * 16 + b[1] / 16, b[1] % 16 * 4]
    else [b[0] / 4, b[0] % 4 * 16 + b[1] / 16, b[1] % 16 * 4 + b[2] / 64, b[2] % 64]
  }

  function Letters(q: seq<Sextet>): (s: Bytes)
    ensures |s| == |q| && forall i :: 0 <= i < |q| ==> s[i] == Letter(q[i])
  {
    if q == [] then [] else [Letter(q[0])] + Letters(q[1..])
  }

  function Pads(n: nat): (s: Bytes)
    ensures |s| == n && forall i :: 0 <= i < n ==> s[i] == PAD_CHAR
  {
    if n == 0 then [] else [PAD_CHAR] + Pads(n - 1)
  }

  /** One to three bytes as four characters. */
  function Group(b: Bytes): (s: Bytes)
    requires 1 <= |b| <= 3
    ensures |s| == 4
  {
    Letters(Sextets(b)) + Pads(3 - |b|)
  }

  /** The encoding of a byte string, as in section 4 of RFC 4648. */
  function Encode(b: Bytes): (s: Bytes)
    ensures |s| == (|b| + 2) / 3 * 4
  {
    if b == [] then []
    else if |b| <= 3 then Group(b)
    else Group(b[..3]) + Encode(b[3..])
  }

  // ---------------------------------------------------------------- decoding

  datatype Parse = ParseStrict | ParseWhite | ParseAny
  datatype Pad = PadYes | PadAny | PadNo
  datatype Term = TermBuffer | TermChar | TermAny
  datatype Flags = Flags(parse: Parse, pad: Pad, term: Term)

  const STRICT := Flags(ParseStrict, PadYes, TermBuffer)

  /** What the scan of a quantum does with a character. */
  datatype Move = Stop | Skip | CountPad | Take(v: Sextet)

  function MoveAt(parse: Parse, noPads: bool, c: Byte, have: nat, pads: nat): Move {
    var d := DecodeTable(c);
    if d == IL || (noPads && d == PD) then
      if parse != ParseAny then Stop else Skip
    else if d == SP then
      if parse == ParseStrict then Stop else Skip
    else if d == PD then
      if have < 2 || have + pads >= 4 then
        if parse != ParseAny then Stop else Skip
      else CountPad
    else if pads > 0 && parse != ParseAny then Stop
    else Take(d)
  }

  lemma PadMove(parse: Parse, noPads: bool, c: Byte, have: nat, pads: nat)
    ensures MoveAt(parse, noPads, c, have, pads) == CountPad
            <==> c == PAD_CHAR && !noPads && have >= 2 && have + pads < 4
  {
  }

  /** Where the scan of a quantum stopped, the values it collected, and the pads pending. */
  datatype Scan = Scan(pos: nat, q: seq<Sextet>, pads: nat, padStart: nat)

  /** The scan of one quantum: up to four values, with pads counted, skipped or refused. */
  function ScanFrom(parse: Parse, noPads: bool, s: Bytes, i: nat, q: seq<Sextet>, pads: nat, padStart: nat): (r: Scan)
    requires i <= |s| && |q| + pads <= 4 && (pads > 0 ==> padStart < i)
    ensures r.pads > 0 ==> r.padStart < r.pos
    ensures i <= r.pos <= |s| && |q| <= |r.q| && |r.q| + r.pads <= 4 && |r.q| - |q| <= r.pos - i
    decreases |s| - i
  {
    if |q| == 4 || i == |s| then Scan(i, q, pads, padStart)
    else
      match MoveAt(parse, noPads, s[i], |q|, pads)
      case Stop => Scan(i, q, pads, padStart)
      case Skip => ScanFrom(parse, noPads, s, i + 1, q, pads, padStart)
      case CountPad => ScanFrom(parse, noPads, s, i + 1, q, pads + 1, if pads == 0 then i else padStart)
      case Take(v) => ScanFrom(parse, noPads, s, i + 1, q + [v], 0, padStart)
  }

  lemma ScanStops(parse: Parse, noPads: bool, s: Bytes, i: nat, q: seq<Sextet>, pads: nat, padStart: nat)
    requires i <= |s| && |q| + pads <= 4 && (pads > 0 ==> padStart < i)
    requires |q| == 4 || i == |s| || MoveAt(parse, noPads, s[i], |q|, pads) == Stop
    ensures ScanFrom(parse, noPads, s, i, q, pads, padStart) == Scan(i, q, pads, padStart)
  {
    hide MoveAt;
  }

  lemma ScanSkips(parse: Parse, noPads: bool, s: Bytes, i: nat, q: seq<Sextet>, pads: nat, padStart: nat)
    requires i < |s| && |q| < 4 && |q| + pads <= 4 && (pads > 0 ==> padStart < i)
    requires MoveAt(parse, noPads, s[i], |q|, pads) == Skip
    ensures ScanFrom(parse, noPads, s, i, q, pads, padStart) == ScanFrom(parse, noPads, s, i + 1, q, pads, padStart)
  {
    hide MoveAt;
  }

  lemma ScanCounts(parse: Parse, noPads: bool, s: Bytes, i: nat, q: seq<Sextet>, pads: nat, padStart: nat)
    requires i < |s| && |q| < 4 && |q| + pads < 4 && (pads > 0 ==> padStart < i)
    requires MoveAt(parse, noPads, s[i], |q|, pads) == CountPad
    ensures ScanFrom(parse, noPads, s, i, q, pads, padStart)
            == ScanFrom(parse, noPads, s, i + 1, q, pads + 1, if pads == 0 then i else padStart)
  {
    hide MoveAt;
  }

  lemma ScanTakes(parse: Parse, noPads: bool, s: Bytes, i: nat, q: seq<Sextet>, pads: nat, padStart: nat, v: Sextet)
    requires i < |s| && |q| < 4 && |q| + pads <= 4 && (pads > 0 ==> padStart < i)
    requires MoveAt(parse, noPads, s[i], |q|, pads) == Take(v)
    ensures ScanFrom(parse, noPads, s, i, q, pads, padStart) == ScanFrom(parse, noPads, s, i + 1, q + [v], 0, padStart)
  {
    hide MoveAt;
  }

  /** A quantum: its values, whether it is filled up, and where the next one starts. */
  datatype Quantum = Quantum(q: seq<Sextet>, padded: bool, next: nat)

  function NextQuantum(parse: Parse, noPads: bool, s: Bytes, i: nat): (r: Quantum)
    requires i <= |s|
    ensures |r.q| <= 4 && r.next <= |s| && (|r.q| == 4 ==> i + 4 <= r.next)
  {
    var scan := ScanFrom(parse, noPads, s, i, [], 0, 0);
    var padded := |scan.q| + scan.pads == 4;
    Quantum(scan.q, padded, if !padded && scan.pads > 0 then scan.padStart else scan.pos)
  }

  /** The whole bytes in the values of a quantum. */
  function WholeBytes(q: seq<Sextet>): (b: Bytes)
    requires |q| <= 4
    ensures |b| == if |q| < 2 then 0 else |q| - 1
  {
    if |q| < 2 then []
    else
      var a: int, b: int := q[0], q[1];
      if |q| == 2 then [a * 4 + b / 16]
      else
        var c: int := q[2];
        if |q| == 3 then [a * 4 + b / 16, b % 16 * 16 + c / 4]
        else [a * 4 + b / 16, b % 16 * 16 + c / 4, c % 4 * 64 + q[3]]
  }

  /** The bits after the last whole byte, moved to the top of a byte. */
  function LeftOver(q: seq<Sextet>): Byte
    requires |q| < 4
  {
    if |q| == 0 then 0
    else
      var last: int := q[|q| - 1];
      if |q| == 1 then last * 4
      else if |q| == 2 then last % 16 * 16
      else last % 4 * 64
  }

  datatype Decoded = Decoded(ok: bool, bytes: Bytes, used: nat)

  /** Decoding from a position on, up to the first quantum that is not full. */
  function DecodeFrom(f: Flags, s: Bytes, i: nat): (r: Decoded)
    requires i <= |s|
    ensures r.used <= |s|
    decreases |s| - i
  {
    if i == |s| then Decoded(true, [], i)
    else
      var r := NextQuantum(f.parse, f.pad == PadNo, s, i);
      if |r.q| < 4 then
        Decoded((f.term == TermAny || LeftOver(r.q) == 0) && (f.pad == PadYes ==> r.padded), WholeBytes(r.q), r.next)
      else
        var rest := DecodeFrom(f, s, r.next);
        Decoded(rest.ok, WholeBytes(r.q) + rest.bytes, rest.used)
  }

  function Decode(f: Flags, s: Bytes): Decoded {
    var r := DecodeFrom(f, s, 0);
    r.(ok := r.ok && (f.term == TermBuffer ==> r.used == |s|))
  }
}
