/**
 Tokens of a JSON document: the specification of Reader::readToken and of the scanners
 it calls.  A document is read through a cursor; one position past its last byte holds
 a zero.
 */
module JsonLexer {
  import opened Words
  import opened JsonText

  datatype TokenType =
    | EndOfStream | ObjectBegin | ObjectEnd | ArrayBegin | ArrayEnd
    | StringToken | NumberToken | TrueToken | FalseToken | NullToken
    | ArraySeparator | MemberSeparator | Comment | ErrorToken

  datatype Token = Token(kind: TokenType, start: nat, end: nat)

  const SLASH: Byte := 0x2F
  const STAR: Byte := 0x2A
  const RETURN: Byte := 0x0D
  const RUE: Bytes := [0x72, 0x75, 0x65]
  const ALSE: Bytes := [0x61, 0x6C, 0x73, 0x65]
  const ULL: Bytes := [0x75, 0x6C, 0x6C]

  function Peek(doc: Bytes, p: nat): Byte {
    if p < |doc| then doc[p] else 0
  }

  /** Where getNextChar leaves the cursor. */
  function Next(doc: Bytes, p: nat): nat {
    if p < |doc| then p + 1 else p
  }

  predicate IsSpace(c: Byte) {
    c == 0x20 || c == 0x09 || c == 0x0D || c == 0x0A
  }

  function SkipSpaces(doc: Bytes, p: nat): (q: nat)
    requires p <= |doc|
    ensures p <= q <= |doc|
    decreases |doc| - p
  {
    if p < |doc| && IsSpace(doc[p]) then SkipSpaces(doc, p + 1) else p
  }

  function SkipDigits(doc: Bytes, p: nat): (q: nat)
    requires p <= |doc|
    ensures p <= q <= |doc|
    decreases |doc| - p
  {
    if p < |doc| && IsDigit(doc[p]) then SkipDigits(doc, p + 1) else p
  }

  /** readNumber: digits, then an optional fraction, then an optional exponent. */
  function NumberEnd(doc: Bytes, p: nat): (q: nat)
    requires p <= |doc|
    ensures p <= q <= |doc|
  {
    var integral := SkipDigits(doc, p);
    var fraction := if Peek(doc, integral) == 0x2E then SkipDigits(doc, integral + 1) else integral;
    if Peek(doc, fraction) == 0x65 || Peek(doc, fraction) == 0x45 then
      var sign := Peek(doc, fraction + 1);
      SkipDigits(doc, if sign == 0x2B || sign == MINUS then fraction + 2 else fraction + 1)
    else fraction
  }

  datatype Scan = Scan(ok: bool, end: nat)

  /** readString, from just after the opening quote. */
  function ScanString(doc: Bytes, p: nat): (r: Scan)
    requires p <= |doc|
    ensures p <= r.end <= |doc| && (r.ok ==> p < r.end)
    decreases |doc| - p
  {
    if p == |doc| then Scan(false, p)
    else if doc[p] == BACKSLASH then ScanString(doc, Next(doc, p + 1))
    else if doc[p] == QUOTE then Scan(true, p + 1)
    else ScanString(doc, p + 1)
  }

  function ScanCStyleComment(doc: Bytes, p: nat): (r: Scan)
    requires p <= |doc|
    ensures p <= r.end <= |doc|
    decreases |doc| - p
  {
    if p == |doc| then Scan(false, p)
    else if doc[p] == STAR && Peek(doc, p + 1) == SLASH then Scan(true, p + 2)
    else ScanCStyleComment(doc, p + 1)
  }

  function ScanCppStyleComment(doc: Bytes, p: nat): (q: nat)
    requires p <= |doc|
    ensures p <= q <= |doc|
    decreases |doc| - p
  {
    if p == |doc| then p
    else if doc[p] == NEWLINE then p + 1
    else if doc[p] == RETURN then (if Peek(doc, p + 1) == NEWLINE then p + 2 else p + 1)
    else ScanCppStyleComment(doc, p + 1)
  }

  /** readComment, from just after the first slash. */
  function ScanComment(doc: Bytes, p: nat): (r: Scan)
    requires p <= |doc|
    ensures p <= r.end <= |doc|
  {
    if Peek(doc, p) == STAR then ScanCStyleComment(doc, p + 1)
    else if Peek(doc, p) == SLASH then Scan(true, ScanCppStyleComment(doc, p + 1))
    else Scan(false, Next(doc, p))
  }

  function ScanMatch(doc: Bytes, p: nat, pattern: Bytes): (r: Scan)
    requires p <= |doc|
    ensures p <= r.end <= |doc|
  {
    if p + |pattern| <= |doc| && doc[p..p + |pattern|] == pattern then Scan(true, p + |pattern|)
    else Scan(false, p)
  }

  function Scanned(kind: TokenType, start: nat, r: Scan): Token {
    Token(if r.ok then kind else ErrorToken, start, r.end)
  }

  /** The token that starts at position s, which holds no white space. */
  function TokenAt(doc: Bytes, s: nat): (t: Token)
    requires s <= |doc|
    ensures t.start == s && s <= t.end <= |doc|
    ensures t.end == s <==> s == |doc|
    ensures s == |doc| ==> t.kind == EndOfStream
    ensures t.kind == StringToken ==> s + 2 <= t.end
  {
    if s == |doc| then Token(EndOfStream, s, s)
    else
      var c, p := doc[s], s + 1;
      if c == OBJECT_BEGIN then Token(ObjectBegin, s, p)
      else if c == OBJECT_END then Token(ObjectEnd, s, p)
      else if c == ARRAY_BEGIN then Token(ArrayBegin, s, p)
      else if c == ARRAY_END then Token(ArrayEnd, s, p)
      else if c == QUOTE then Scanned(StringToken, s, ScanString(doc, p))
      else if c == SLASH then Scanned(Comment, s, ScanComment(doc, p))
      else if IsDigit(c) || c == MINUS then Token(NumberToken, s, NumberEnd(doc, p))
      else if c == 0x74 then Scanned(TrueToken, s, ScanMatch(doc, p, RUE))
      else if c == 0x66 then Scanned(FalseToken, s, ScanMatch(doc, p, ALSE))
      else if c == 0x6E then Scanned(NullToken, s, ScanMatch(doc, p, ULL))
      else if c == COMMA then Token(ArraySeparator, s, p)
      else if c == COLON then Token(MemberSeparator, s, p)
      else if c == 0 then Token(EndOfStream, s, p)
      else Token(ErrorToken, s, p)
  }

  function ReadToken(doc: Bytes, p: nat): (t: Token)
    requires p <= |doc|
    ensures p <= t.start <= t.end <= |doc|
    ensures t.end == t.start <==> t.start == |doc|
    ensures t.start == |doc| ==> t.kind == EndOfStream
    ensures t.kind == StringToken ==> t.start + 2 <= t.end
  {
    TokenAt(doc, SkipSpaces(doc, p))
  }

  /** The first token from p on that is not a comment. */
  function SkipComments(doc: Bytes, p: nat): (t: Token)
    requires p <= |doc|
    ensures p <= t.start <= t.end <= |doc|
    ensures t.end == t.start <==> t.start == |doc|
    ensures t.start == |doc| ==> t.kind == EndOfStream
    ensures t.kind != Comment
    ensures t.kind == StringToken ==> t.start + 2 <= t.end
    decreases |doc| - p
  {
    var t := ReadToken(doc, p);
    if t.kind == Comment then SkipComments(doc, t.end) else t
  }

  /** recoverFromError: where the cursor stops after looking for a closing token. */
  function RecoverTo(doc: Bytes, p: nat, until: TokenType): (q: nat)
    requires p <= |doc|
    ensures p <= q <= |doc|
    decreases |doc| - p
  {
    var t := ReadToken(doc, p);
    if t.kind == until || t.kind == EndOfStream then t.end else RecoverTo(doc, t.end, until)
  }
}
