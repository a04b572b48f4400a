/**
 What string and number tokens mean: the specification of Reader::decodeString and
 Reader::decodeNumber, and of the UTF-8 encoding of escaped code points.
 */
module JsonDecode {
  import opened Maybe
  import opened Words
  import opened JsonValue
  import opened JsonText
  import opened JsonLexer

  // ------------------------------------------------------------------- UTF-8

  /** A byte 10xxxxxx carrying the six lowest bits of x; the others are the leading bytes. */
  function Continuation(x: nat): Byte { 0x80 + x % 64 }
  function Lead2(x: nat): Byte { 0xC0 + x % 32 }
  function Lead3(x: nat): Byte { 0xE0 + x % 16 }
  function Lead4(x: nat): Byte { 0xF0 + x % 8 }

  /** The same bytes in the operators the source writes them with. */
  lemma PrefixBits(x: nat)
    ensures Continuation(x) == BitOr(0x80, BitAnd(0x3F, x))
    ensures Lead2(x) == BitOr(0xC0, BitAnd(0x1F, x))
    ensures Lead3(x) == BitOr(0xE0, BitAnd(0xF, x))
    ensures Lead4(x) == BitOr(0xF0, BitAnd(0x7, x))
  {
    PrefixedMask(2, x, 6);
    PrefixedMask(6, x, 5);
    PrefixedMask(14, x, 4);
    PrefixedMask(30, x, 3);
    Pow2Values();
  }

  lemma PrefixedMask(prefix: nat, x: nat, n: nat)
    ensures BitOr(prefix * Pow2(n), BitAnd(Pow2(n) - 1, x)) == prefix * Pow2(n) + x % Pow2(n)
  {
    AndLowMask(x, n);
    OrDisjoint(prefix, x % Pow2(n), n);
  }

  function TwoOctets(cp: nat): Bytes {
    [Lead2(ShiftRight(cp, 6)), Continuation(cp)]
  }

  function ThreeOctets(cp: nat): Bytes {
    [Lead3(ShiftRight(cp, 12)), Continuation(ShiftRight(cp, 6)), Continuation(cp)]
  }

  function FourOctets(cp: nat): Bytes {
    [Lead4(ShiftRight(cp, 18)), Continuation(ShiftRight(cp, 12)), Continuation(ShiftRight(cp, 6)), Continuation(cp)]
  }

  /** codePointToUTF8. */
  function CodePointToUtf8(cp: nat): Bytes {
    if cp <= 0x7F then [cp]
    else if cp <= 0x7FF then TwoOctets(cp)
    else if cp <= 0xFFFF then ThreeOctets(cp)
    else if cp <= 0x10FFFF then FourOctets(cp)
    else []
  }

  predicate IsContinuation(b: Byte) {
    0x80 <= b < 0xC0
  }

  /** The number a UTF-8 octet sequence denotes, by the table in section 3 of RFC 3629. */
  function Utf8Number(bs: Bytes): Option<nat> {
    if |bs| == 1 && bs[0] < 0x80 then Some(bs[0])
    else if |bs| == 2 && 0xC0 <= bs[0] < 0xE0 && IsContinuation(bs[1]) then
      Some(0x40 * Payload(bs[0], 0xC0) + Payload(bs[1], 0x80))
    else if |bs| == 3 && 0xE0 <= bs[0] < 0xF0 && IsContinuation(bs[1]) && IsContinuation(bs[2]) then
      Some(0x1000 * Payload(bs[0], 0xE0) + 0x40 * Payload(bs[1], 0x80) + Payload(bs[2], 0x80))
    else if |bs| == 4 && 0xF0 <= bs[0] < 0xF8 && IsContinuation(bs[1]) && IsContinuation(bs[2])
            && IsContinuation(bs[3]) then
      Some(0x4_0000 * Payload(bs[0], 0xF0) + 0x1000 * Payload(bs[1], 0x80) + 0x40 * Payload(bs[2], 0x80)
           + Payload(bs[3], 0x80))
    else None
  }

  /** The bits of a byte below a fixed prefix. */
  function Payload(b: Byte, prefix: Byte): nat
    requires prefix <= b
  {
    b - prefix
  }

  /** How many octets the table gives a character number. */
  function Utf8Length(cp: nat): nat {
    if cp < 0x80 then 1 else if cp < 0x800 then 2 else if cp < 0x1_0000 then 3 else 4
  }

  /** Every code point is written in its shortest form and denotes itself. */
  lemma Utf8Faithful(cp: nat)
    requires cp <= 0x10FFFF
    ensures Utf8Number(CodePointToUtf8(cp)) == Some(cp)
    ensures |CodePointToUtf8(cp)| == Utf8Length(cp)
  {
    if 0x80 <= cp < 0x800 {
      TwoOctetsFaithful(cp);
    } else if 0x800 <= cp < 0x1_0000 {
      ThreeOctetsFaithful(cp);
    } else if 0x1_0000 <= cp {
      FourOctetsFaithful(cp);
    }
  }

  lemma TwoOctetsFaithful(cp: nat)
    requires 0x80 <= cp < 0x800
    ensures Utf8Number(TwoOctets(cp)) == Some(cp)
  {
    hide Utf8Number, ShiftRight;
    Shifts(cp);
    Base64Digits(cp);
    TwoOctetNumber(cp / 64, cp % 64);
    assert TwoOctets(cp) == [0xC0 + cp / 64, 0x80 + cp % 64];
  }

  lemma TwoOctetNumber(a: nat, b: nat)
    requires a < 32 && b < 64
    ensures Utf8Number([0xC0 + a, 0x80 + b]) == Some(64 * a + b)
  {
  }

  lemma ThreeOctetsFaithful(cp: nat)
    requires 0x800 <= cp < 0x1_0000
    ensures Utf8Number(ThreeOctets(cp)) == Some(cp)
  {
    hide Utf8Number, ShiftRight;
    Shifts(cp);
    Base64Digits(cp);
    ThreeOctetNumber(cp / 4096, cp / 64 % 64, cp % 64);
    assert ThreeOctets(cp) == [0xE0 + cp / 4096, 0x80 + cp / 64 % 64, 0x80 + cp % 64];
  }

  lemma ThreeOctetNumber(a: nat, b: nat, c: nat)
    requires a < 16 && b < 64 && c < 64
    ensures Utf8Number([0xE0 + a, 0x80 + b, 0x80 + c]) == Some(4096 * a + 64 * b + c)
  {
  }

  lemma FourOctetsFaithful(cp: nat)
    requires 0x1_0000 <= cp <= 0x10FFFF
    ensures Utf8Number(FourOctets(cp)) == Some(cp)
  {
    hide Utf8Number, ShiftRight;
    Shifts(cp);
    Base64Digits(cp);
    FourOctetNumber(cp / 262144, cp / 4096 % 64, cp / 64 % 64, cp % 64);
    assert FourOctets(cp) == [0xF0 + cp / 262144, 0x80 + cp / 4096 % 64, 0x80 + cp / 64 % 64, 0x80 + cp % 64];
  }

  lemma FourOctetNumber(a: nat, b: nat, c: nat, d: nat)
    requires a < 8 && b < 64 && c < 64 && d < 64
    ensures Utf8Number([0xF0 + a, 0x80 + b, 0x80 + c, 0x80 + d]) == Some(262144 * a + 4096 * b + 64 * c + d)
  {
  }

  lemma Shifts(x: nat)
    ensures ShiftRight(x, 6) == x / 64 && ShiftRight(x, 12) == x / 4096 && ShiftRight(x, 18) == x / 262144
  {
    Pow2Values();
    ShiftRightIsQuotient(x, 6);
    ShiftRightIsQuotient(x, 12);
    ShiftRightIsQuotient(x, 18);
  }

  /** A number below 2^24 is the sum of its digits in base 64. */
  lemma Base64Digits(x: nat)
    ensures x == 64 * (x / 64) + x % 64
    ensures x / 64 == 64 * (x / 4096) + x / 64 % 64
    ensures x / 4096 == 64 * (x / 262144) + x / 4096 % 64
  {
    assert x / 4096 == x / 64 / 64;
    assert x / 262144 == x / 4096 / 64;
  }

  // ----------------------------------------------------------------- strings

  /** The messages of addError. */
  datatype Message =
    | ValueExpected | MissingMemberName | MissingColon | MissingObjectSeparator | MissingArraySeparator
    | EmptyEscape | BadEscape | SurrogateTooShort | SurrogateExpected | FourDigitsExpected | HexDigitExpected
    | NotANumber | RootNotContainer

  datatype CodePoint = CodePoint(cp: nat, next: nat) | BadCodePoint(message: Message, extra: nat)

  datatype Decoded = Decoded(text: Bytes) | BadString(message: Message, extra: nat)

  function HexValue(c: Byte): Option<nat> {
    if 0x30 <= c <= 0x39 then Some(c - 0x30)
    else if 0x61 <= c <= 0x66 then Some(c - 0x61 + 10)
    else if 0x41 <= c <= 0x46 then Some(c - 0x41 + 10)
    else None
  }

  /** The remaining hexadecimal digits of an escape, most significant first. */
  function HexDigits(doc: Bytes, cur: nat, left: nat, acc: nat): (r: CodePoint)
    requires left <= 4 && cur + left <= |doc| && acc < HexLimit(4 - left)
    ensures r.CodePoint? ==> r.next == cur + left && r.cp < HexLimit(4)
    decreases left
  {
    if left == 0 then CodePoint(acc, cur)
    else
      match HexValue(doc[cur])
      case None => BadCodePoint(HexDigitExpected, cur + 1)
      case Some(d) => HexDigits(doc, cur + 1, left - 1, 16 * acc + d)
  }

  /** What n hexadecimal digits can count to. */
  function HexLimit(n: nat): nat {
    if n == 0 then 1 else 16 * HexLimit(n - 1)
  }

  function UnicodeEscape(doc: Bytes, cur: nat, end: nat): (r: CodePoint)
    requires cur <= end <= |doc|
    ensures r.CodePoint? ==> r.next == cur + 4 <= end && r.cp <= 0xFFFF
  {
    assert HexLimit(4) == 0x1_0000;
    if end - cur < 4 then BadCodePoint(FourDigitsExpected, cur)
    else HexDigits(doc, cur, 4, 0)
  }

  /** decodeUnicodeCodePoint: a single escape, or two that form a surrogate pair. */
  function DecodeCodePoint(doc: Bytes, cur: nat, end: nat): (r: CodePoint)
    requires cur <= end <= |doc|
    ensures r.CodePoint? ==> cur < r.next <= end && r.cp <= 0x10FFFF
  {
    var first := UnicodeEscape(doc, cur, end);
    if first.BadCodePoint? || !(0xD800 <= first.cp <= 0xDBFF) then first
    else if end - first.next < 6 then BadCodePoint(SurrogateTooShort, first.next)
    else if doc[first.next] != BACKSLASH then BadCodePoint(SurrogateExpected, first.next + 1)
    else if doc[first.next + 1] != 0x75 then BadCodePoint(SurrogateExpected, first.next + 2)
    else
      var second := UnicodeEscape(doc, first.next + 2, end);
      if second.BadCodePoint? then second
      else CodePoint(SurrogatePair(first.cp, second.cp), second.next)
  }

  function SurrogatePair(high: nat, low: nat): (cp: nat)
    ensures 0x10000 <= cp <= 0x10FFFF
  {
    0x10000 + (high % 1024) * 1024 + low % 1024
  }

  /** The same number in the operators the source writes it with. */
  lemma SurrogateBits(high: nat, low: nat)
    ensures SurrogatePair(high, low) == 0x10000 + ShiftLeft(BitAnd(0x3FF, high), 10, 32) + BitAnd(0x3FF, low)
  {
    AndLowMask(high, 10);
    AndLowMask(low, 10);
    Pow2Values();
    ShiftTenFits(high % 1024);
  }

  lemma ShiftTenFits(x: nat)
    requires x < 1024
    ensures ShiftLeft(x, 10, 32) == x * 1024
  {
    Pow2Values();
    Pow2Add(10, 10);
    Pow2Monotone(20, 32);
    ShiftLeftExact(x, 10, 32);
  }

  function SimpleEscape(c: Byte): Option<Byte> {
    if c == 0x22 then Some(0x22)
    else if c == 0x2F then Some(0x2F)
    else if c == 0x5C then Some(0x5C)
    else if c == 0x62 then Some(0x08)
    else if c == 0x66 then Some(0x0C)
    else if c == 0x6E then Some(0x0A)
    else if c == 0x72 then Some(0x0D)
    else if c == 0x74 then Some(0x09)
    else None
  }

  /** decodeString's loop from position cur, with acc already decoded. */
  function DecodeFrom(doc: Bytes, cur: nat, end: nat, acc: Bytes): Decoded
    requires cur <= end <= |doc|
    decreases end - cur
  {
    if cur == end || doc[cur] == QUOTE then Decoded(acc)
    else if doc[cur] != BACKSLASH then DecodeFrom(doc, cur + 1, end, acc + [doc[cur]])
    else if cur + 1 == end then BadString(EmptyEscape, cur + 1)
    else if doc[cur + 1] == 0x75 then
      match DecodeCodePoint(doc, cur + 2, end)
      case BadCodePoint(message, extra) => BadString(message, extra)
      case CodePoint(cp, next) => DecodeFrom(doc, next, end, acc + CodePointToUtf8(cp))
    else
      match SimpleEscape(doc[cur + 1])
      case None => BadString(BadEscape, cur + 2)
      case Some(c) => DecodeFrom(doc, cur + 2, end, acc + [c])
  }

  function DecodeString(doc: Bytes, t: Token): Decoded
    requires t.start + 2 <= t.end <= |doc|
  {
    DecodeFrom(doc, t.start + 1, t.end - 1, [])
  }

  // ----------------------------------------------------------------- numbers

  /** The tag the reader gives an integer. */
  function IntegerValue(negative: bool, n: nat): Value {
    if negative then Int(0 - n) else if n <= MAX_INT then Int(n) else UInt(n)
  }

  /** The largest magnitude that is stored as an integer. */
  function MagnitudeLimit(negative: bool): nat {
    if negative then MAX_LARGEST_INT + 1 else MAX_LARGEST_UINT
  }

  /**
   The value of a number token: the exact integer when the text is an optional minus sign
   and digits whose number fits 64 bits, and otherwise whatever the C library's double
   conversion makes of the text.
   */
  function DecodeNumber(text: Bytes, toDouble: Bytes -> Option<Double>): Option<Value>
    requires text != []
  {
    var negative := text[0] == MINUS;
    var digits := if negative then text[1..] else text;
    if AllDigits(digits) && DecimalValue(digits) <= MagnitudeLimit(negative) then
      Some(IntegerValue(negative, DecimalValue(digits)))
    else
      match toDouble(text)
      case None => None
      case Some(r) => Some(Real(r))
  }
}
