/**
 The reader against the extended grammar: every text of it is read to what it means, at every
 place of a document and every depth.
 */
module JsonReading {
  import opened Maybe
  import opened Words
  import opened JsonValue
  import opened JsonText
  import opened JsonLexer
  import D = JsonDecode
  import opened JsonParser
  import opened JsonSteps
  import G = JsonGrammar
  import L = JsonLocality
  import X = JsonExtended

  // ------------------------------------------------------------------------- fillers

  lemma BlankStep(doc: Bytes, p: nat)
    requires p < |doc| && IsSpace(doc[p])
    ensures SkipSpaces(doc, p) == SkipSpaces(doc, p + 1) && ReadToken(doc, p) == ReadToken(doc, p + 1)
    ensures SkipComments(doc, p) == SkipComments(doc, p + 1)
  {
    hide TokenAt;
  }

  lemma {:induction false} BlockEnds(doc: Bytes, p: nat, body: Bytes)
    requires X.ProperPiece(X.Block(body)) && Has(doc, p, body + [STAR, SLASH])
    ensures p <= |doc| && ScanCStyleComment(doc, p) == Scan(true, p + |body| + 2)
    decreases |body|
  {
    var text := body + [STAR, SLASH];
    HasAt(doc, p, text);
    assert doc[p + 0] == text[0] && doc[p + 1] == text[1];
    if body != [] {
      var rest := body[1..];
      assert text == [body[0]] + (rest + [STAR, SLASH]);
      HasSplit(doc, p, [body[0]], rest + [STAR, SLASH]);
      assert forall i :: 0 <= i < |rest| + 2 ==> (rest + [STAR, SLASH])[i] == text[i + 1];
      BlockEnds(doc, p + 1, rest);
    }
  }

  /** A line comment takes a line feed behind its carriage return along. */
  lemma {:induction false} LineEnds(doc: Bytes, p: nat, body: Bytes, ending: Bytes)
    requires X.ProperPiece(X.Line(body, ending)) && Has(doc, p, body + ending)
    ensures var q := p + |body + ending|;
            && p <= q <= |doc|
            && (ScanCppStyleComment(doc, p) == q
                || (ScanCppStyleComment(doc, p) == q + 1 && q < |doc| && doc[q] == NEWLINE))
    decreases |body|
  {
    var text := body + ending;
    HasAt(doc, p, text);
    assert doc[p + 0] == text[0];
    if body != [] {
      assert text == [body[0]] + (body[1..] + ending);
      HasSplit(doc, p, [body[0]], body[1..] + ending);
      LineEnds(doc, p + 1, body[1..], ending);
    } else if |ending| == 2 {
      assert doc[p + 1] == text[1];
    }
  }

  lemma CommentStep(doc: Bytes, p: nat, c: X.Piece)
    requires X.ProperPiece(c) && !c.Blank? && Has(doc, p, X.PieceText(c))
    ensures var q := p + |X.PieceText(c)|;
            && p < q <= |doc| && doc[p] == SLASH && ReadToken(doc, p).kind == Comment && SkipSpaces(doc, p) == p
            && SkipComments(doc, p) == SkipComments(doc, q)
  {
    hide *;
    var q := p + |X.PieceText(c)|;
    CommentEnd(doc, p, c);
    CommentRead(doc, p);
    if ReadToken(doc, p).end == q + 1 {
      BlankStep(doc, q);
    }
  }

  lemma CommentEnd(doc: Bytes, p: nat, c: X.Piece)
    requires X.ProperPiece(c) && !c.Blank? && Has(doc, p, X.PieceText(c))
    ensures var q := p + |X.PieceText(c)|;
            && p + 1 < q <= |doc| && doc[p] == SLASH && ScanComment(doc, p + 1).ok
            && (ScanComment(doc, p + 1).end == q
                || (ScanComment(doc, p + 1).end == q + 1 && q < |doc| && IsSpace(doc[q])))
  {
    hide ScanCStyleComment, ScanCppStyleComment, X.ProperPiece, Has;
    var inner := if c.Block? then c.body + [STAR, SLASH] else c.body + c.ending;
    var open := [SLASH, if c.Block? then STAR else SLASH];
    assert X.PieceText(c) == open + inner;
    HasSplit(doc, p, open, inner);
    HasAt(doc, p, open);
    assert doc[p + 0] == SLASH && doc[p + 1] == open[1];
    if c.Block? {
      HasAt(doc, p + 2, inner);
      BlockEnds(doc, p + 2, c.body);
    } else {
      LineEnds(doc, p + 2, c.body, c.ending);
    }
  }

  lemma CommentRead(doc: Bytes, p: nat)
    requires p + 1 < |doc| && doc[p] == SLASH && ScanComment(doc, p + 1).ok
    ensures ReadToken(doc, p) == Token(Comment, p, ScanComment(doc, p + 1).end) && SkipSpaces(doc, p) == p
    ensures SkipComments(doc, p) == SkipComments(doc, ScanComment(doc, p + 1).end)
  {
    hide ScanComment;
  }

  /** A filler, up to a token that is no comment. */
  lemma {:induction false} SkipFiller(doc: Bytes, p: nat, gap: seq<X.Piece>, q: nat)
    requires X.ProperFiller(gap) && Has(doc, p, X.FillerText(gap)) && q == p + |X.FillerText(gap)|
    requires q < |doc| && !IsSpace(doc[q]) && TokenAt(doc, q).kind != Comment
    ensures p <= q && SkipComments(doc, p) == TokenAt(doc, q)
    ensures X.Bare(gap) ==> SkipSpaces(doc, p) == q && ReadToken(doc, p) == TokenAt(doc, q)
    ensures !X.Bare(gap) ==> ReadToken(doc, p).kind == Comment
    ensures var first := SkipSpaces(doc, p); first < |doc| && (doc[first] == SLASH || doc[first] == doc[q])
    decreases |gap|
  {
    hide TokenAt, X.PieceText, X.ProperPiece;
    if gap == [] {
    } else {
      var text := X.PieceText(gap[0]);
      HasSplit(doc, p, text, X.FillerText(gap[1..]));
      SkipFiller(doc, p + |text|, gap[1..], q);
      if gap[0].Blank? {
        BlankText(doc, p, gap[0]);
        BlankStep(doc, p);
      } else {
        CommentStep(doc, p, gap[0]);
      }
    }
  }

  lemma BlankText(doc: Bytes, p: nat, c: X.Piece)
    requires X.ProperPiece(c) && c.Blank? && Has(doc, p, X.PieceText(c))
    ensures |X.PieceText(c)| == 1 && p < |doc| && IsSpace(doc[p])
  {
    HasAt(doc, p, X.PieceText(c));
    assert doc[p + 0] == c.b;
  }

  /** Only a slash starts a comment. */
  lemma NoComment(doc: Bytes, q: nat)
    requires q < |doc| && doc[q] != SLASH
    ensures TokenAt(doc, q).kind != Comment
  {
    hide ScanString, ScanMatch, NumberEnd;
  }

  lemma FirstAfter(f: Features, doc: Bytes, p: nat, gap: seq<X.Piece>, q: nat)
    requires X.Allowed(gap, f.allowComments) && Has(doc, p, X.FillerText(gap)) && q == p + |X.FillerText(gap)|
    requires q < |doc| && !IsSpace(doc[q]) && doc[q] != SLASH
    ensures p <= q && FirstToken(f, doc, p) == TokenAt(doc, q)
  {
    hide TokenAt, SkipComments, ReadToken, X.FillerText;
    NoComment(doc, q);
    SkipFiller(doc, p, gap, q);
  }

  // ------------------------------------------------------------------------- strings

  /** The scanner steps over one character. */
  lemma ScanChar(doc: Bytes, p: nat, c: G.Char)
    requires X.ProperChar(c) && Has(doc, p, G.CharText(c))
    ensures p + |G.CharText(c)| <= |doc| && ScanString(doc, p) == ScanString(doc, p + |G.CharText(c)|)
  {
    var text := G.CharText(c);
    HasAt(doc, p, text);
    match c
    case Plain(b) =>
      assert doc[p] == text[0];
      ScanPlain(doc, p);
    case Short(letter) => assert doc[p] == text[0];
    case Unicode(hex) => ScanEscape(doc, p, hex);
    case Pair(high, low) =>
      assert text == ([BACKSLASH, 0x75] + high) + ([BACKSLASH, 0x75] + low);
      HasSplit(doc, p, [BACKSLASH, 0x75] + high, [BACKSLASH, 0x75] + low);
      ScanEscape(doc, p, high);
      ScanEscape(doc, p + 6, low);
  }

  lemma ScanEscape(doc: Bytes, p: nat, hex: Bytes)
    requires G.FourHex(hex) && Has(doc, p, [BACKSLASH, 0x75] + hex)
    ensures p + 6 <= |doc| && ScanString(doc, p) == ScanString(doc, p + 6)
  {
    var text := [BACKSLASH, 0x75] + hex;
    HasAt(doc, p, text);
    assert forall i :: 0 <= i < 4 ==> doc[p + (2 + i)] == text[2 + i] == hex[i];
    assert doc[p] == text[0] && doc[p + 1] == text[1];
    ScanPlain(doc, p + 2);
    ScanPlain(doc, p + 3);
    ScanPlain(doc, p + 4);
    ScanPlain(doc, p + 5);
  }

  /** The scanner stops exactly at the closing quote, whatever follows. */
  lemma {:induction false} ScanChars(doc: Bytes, p: nat, cs: seq<G.Char>)
    requires X.ProperChars(cs) && Has(doc, p, G.CharsText(cs) + [QUOTE])
    ensures p <= |doc| && ScanString(doc, p) == Scan(true, p + |G.CharsText(cs)| + 1)
    decreases |cs|
  {
    hide G.CharText, ScanString, X.ProperChar;
    HasAt(doc, p, G.CharsText(cs) + [QUOTE]);
    if cs == [] {
      assert G.CharsText(cs) + [QUOTE] == [QUOTE];
      assert doc[p] == [QUOTE][0];
      ScanClosing(doc, p);
    } else {
      var first, rest := G.CharText(cs[0]), G.CharsText(cs[1..]) + [QUOTE];
      assert G.CharsText(cs) + [QUOTE] == first + rest;
      HasSplit(doc, p, first, rest);
      ScanChar(doc, p, cs[0]);
      ScanChars(doc, p + |first|, cs[1..]);
    }
  }

  lemma ScanClosing(doc: Bytes, p: nat)
    requires p < |doc| && doc[p] == QUOTE
    ensures ScanString(doc, p) == Scan(true, p + 1)
  {
  }

  /** Four hexadecimal digits in a document. */
  lemma HexInDocument(doc: Bytes, p: nat, end: nat, hex: Bytes)
    requires G.FourHex(hex) && Has(doc, p, hex) && p + 4 <= end <= |doc|
    ensures D.UnicodeEscape(doc, p, end) == D.CodePoint(G.HexNumber(hex), p + 4)
  {
    hide G.HexValue, D.HexValue;
    HasAt(doc, p, hex);
    SameHex(hex[0]);
    SameHex(hex[1]);
    SameHex(hex[2]);
    SameHex(hex[3]);
    assert doc[p + 0] == hex[0] && doc[p + 1] == hex[1] && doc[p + 2] == hex[2] && doc[p + 3] == hex[3];
    var a, b := G.HexValue(hex[0]).value, G.HexValue(hex[1]).value;
    var c, d := G.HexValue(hex[2]).value, G.HexValue(hex[3]).value;
    calc {
      D.HexDigits(doc, p, 4, 0);
      D.HexDigits(doc, p + 1, 3, a);
      D.HexDigits(doc, p + 2, 2, 16 * a + b);
      D.HexDigits(doc, p + 3, 1, 16 * (16 * a + b) + c);
      D.HexDigits(doc, p + 4, 0, 16 * (16 * (16 * a + b) + c) + d);
    }
  }

  lemma SameHex(c: Byte)
    ensures D.HexValue(c) == G.HexValue(c)
    ensures G.HexValue(c).Some? ==> G.HexValue(c).value < 16
  {
  }

  lemma SameUtf8(cp: nat)
    requires cp <= 0x10FFFF
    ensures D.CodePointToUtf8(cp) == G.Utf8(cp)
  {
    hide ShiftRight;
    D.Shifts(cp);
  }

  lemma SameEscape(letter: Byte)
    ensures D.SimpleEscape(letter) == G.ShortMeaning(letter)
    ensures G.ShortMeaning(letter).Some? ==> letter != 0x75
  {
  }

  /** The decoder turns one character into its meaning. */
  lemma DecodeChar(doc: Bytes, p: nat, end: nat, acc: Bytes, c: G.Char)
    requires X.ProperChar(c) && Has(doc, p, G.CharText(c)) && p + |G.CharText(c)| <= end <= |doc|
    ensures D.DecodeFrom(doc, p, end, acc) == D.DecodeFrom(doc, p + |G.CharText(c)|, end, acc + X.CharMeaning(c))
  {
    hide D.CodePointToUtf8, D.SimpleEscape, D.DecodeCodePoint, G.Utf8, G.HexNumber;
    var text := G.CharText(c);
    HasAt(doc, p, text);
    assert doc[p] == text[0];
    match c
    case Plain(b) =>
    case Short(letter) =>
      assert doc[p + 1] == text[1];
      SameEscape(letter);
    case Unicode(hex) =>
      assert doc[p + 1] == text[1];
      HasSplit(doc, p, [BACKSLASH, 0x75], hex);
      SingleEscape(doc, p + 2, end, hex);
      SameUtf8(G.HexNumber(hex));
    case Pair(high, low) =>
      assert doc[p + 1] == text[1];
      PairEscape(doc, p, end, high, low);
      SameUtf8(0x1_0000 + (G.HexNumber(high) - 0xD800) * 0x400 + G.HexNumber(low) % 0x400);
  }

  lemma SingleEscape(doc: Bytes, p: nat, end: nat, hex: Bytes)
    requires G.FourHex(hex) && !(0xD800 <= G.HexNumber(hex) <= 0xDBFF) && Has(doc, p, hex) && p + 4 <= end <= |doc|
    ensures D.DecodeCodePoint(doc, p, end) == D.CodePoint(G.HexNumber(hex), p + 4)
  {
    hide G.HexNumber, D.UnicodeEscape;
    HexInDocument(doc, p, end, hex);
  }

  lemma PairEscape(doc: Bytes, p: nat, end: nat, high: Bytes, low: Bytes)
    requires X.ProperChar(G.Pair(high, low)) && Has(doc, p, G.CharText(G.Pair(high, low))) && p + 12 <= end <= |doc|
    ensures D.DecodeCodePoint(doc, p + 2, end)
            == D.CodePoint(0x1_0000 + (G.HexNumber(high) - 0xD800) * 0x400 + G.HexNumber(low) % 0x400, p + 12)
  {
    hide G.HexNumber, D.UnicodeEscape;
    var text := G.CharText(G.Pair(high, low));
    assert text == [BACKSLASH, 0x75] + (high + ([BACKSLASH, 0x75] + low));
    HasSplit(doc, p, [BACKSLASH, 0x75], high + ([BACKSLASH, 0x75] + low));
    HasSplit(doc, p + 2, high, [BACKSLASH, 0x75] + low);
    HasSplit(doc, p + 6, [BACKSLASH, 0x75], low);
    HasAt(doc, p + 6, [BACKSLASH, 0x75]);
    assert doc[p + 6 + 0] == BACKSLASH && doc[p + 6 + 1] == 0x75;
    HexInDocument(doc, p + 2, end, high);
    HexInDocument(doc, p + 8, end, low);
    SurrogateNumber(G.HexNumber(high), G.HexNumber(low));
  }

  lemma SurrogateNumber(high: nat, low: nat)
    requires 0xD800 <= high <= 0xDBFF
    ensures D.SurrogatePair(high, low) == 0x1_0000 + (high - 0xD800) * 0x400 + low % 0x400
  {
  }

  lemma {:induction false} DecodeChars(doc: Bytes, p: nat, cs: seq<G.Char>, acc: Bytes)
    requires X.ProperChars(cs) && Has(doc, p, G.CharsText(cs))
    ensures p + |G.CharsText(cs)| <= |doc|
    ensures D.DecodeFrom(doc, p, p + |G.CharsText(cs)|, acc) == D.Decoded(acc + X.CharsMeaning(cs))
    decreases |cs|
  {
    hide G.CharText, X.CharMeaning, X.ProperChar, D.DecodeFrom;
    HasAt(doc, p, G.CharsText(cs));
    if cs == [] {
      DecodeDone(doc, p, acc);
      assert acc + X.CharsMeaning(cs) == acc;
    } else {
      var first := G.CharText(cs[0]);
      HasSplit(doc, p, first, G.CharsText(cs[1..]));
      DecodeChar(doc, p, p + |G.CharsText(cs)|, acc, cs[0]);
      DecodeChars(doc, p + |first|, cs[1..], acc + X.CharMeaning(cs[0]));
      assert acc + X.CharMeaning(cs[0]) + X.CharsMeaning(cs[1..]) == acc + X.CharsMeaning(cs);
    }
  }

  /** A string is self-delimiting, whatever follows it, and decodes to what it means. */
  lemma StringReads(doc: Bytes, p: nat, cs: seq<G.Char>)
    requires X.ProperChars(cs) && Has(doc, p, G.StringText(cs))
    ensures TokenAt(doc, p) == Token(StringToken, p, p + |G.StringText(cs)|)
    ensures D.DecodeString(doc, TokenAt(doc, p)) == D.Decoded(X.CharsMeaning(cs))
  {
    hide *;
    StringPieces(cs);
    HasSplit(doc, p, [QUOTE], G.CharsText(cs) + [QUOTE]);
    HasAt(doc, p, [QUOTE]);
    assert doc[p + 0] == [QUOTE][0];
    QuoteToken(doc, p);
    ScanChars(doc, p + 1, cs);
    HasSplit(doc, p + 1, G.CharsText(cs), [QUOTE]);
    DecodeChars(doc, p + 1, cs, []);
    assert [] + X.CharsMeaning(cs) == X.CharsMeaning(cs);
  }

  lemma StringPieces(cs: seq<G.Char>)
    ensures G.StringText(cs) == [QUOTE] + (G.CharsText(cs) + [QUOTE]) && |G.StringText(cs)| == |G.CharsText(cs)| + 2
    ensures G.StringText(cs)[0] == QUOTE && !G.IsWhite(QUOTE)
  {
  }

  // ------------------------------------------------------------------------- numbers

  function FractionText(n: G.Numeral): Bytes {
    if n.fraction.Some? then [0x2E] + n.fraction.value else []
  }

  function ExponentText(n: G.Numeral): Bytes {
    if n.exponent.Some? then [n.exponent.value.e] + n.exponent.value.sign + n.exponent.value.digits else []
  }

  lemma NumeralPieces(n: G.Numeral)
    ensures G.NumeralText(n)
            == ((if n.minus then [MINUS] else []) + n.integer) + (FractionText(n) + ExponentText(n))
  {
  }

  /** A number ends with a document it ends. */
  lemma NumeralWhole(a: Bytes, p: nat, n: G.Numeral)
    requires X.ProperNumeral(n) && Has(a, p, G.NumeralText(n)) && p + |G.NumeralText(n)| == |a|
    ensures p < |a| && (a[p] == MINUS || IsDigit(a[p])) && NumberEnd(a, p + 1) == |a|
  {
    hide *;
    var sign := if n.minus then [MINUS] else [];
    var fraction, exponent := FractionText(n), ExponentText(n);
    NumeralPieces(n);
    HasSplit(a, p, sign + n.integer, fraction + exponent);
    var integral := p + |sign + n.integer|;
    HasSplit(a, integral, fraction, exponent);
    IntegerWhole(a, p, n);
    FractionWhole(a, integral, n);
    L.DigitsTo(a, p + 1, integral);
    ExponentWhole(a, integral + |fraction|, n);
    L.NumberEndIs(a, p + 1);
  }

  lemma IntegerWhole(a: Bytes, p: nat, n: G.Numeral)
    requires X.ProperNumeral(n) && Has(a, p, (if n.minus then [MINUS] else []) + n.integer)
    ensures p < |a| && (a[p] == MINUS || IsDigit(a[p]))
    ensures var integral := p + |(if n.minus then [MINUS] else []) + n.integer|;
            p + 1 <= integral <= |a| && forall i :: p + 1 <= i < integral ==> IsDigit(a[i])
  {
    var text := (if n.minus then [MINUS] else []) + n.integer;
    HasAt(a, p, text);
    assert a[p + 0] == text[0];
    forall i | p + 1 <= i < p + |text| ensures IsDigit(a[i]) {
      assert a[p + (i - p)] == text[i - p];
    }
  }

  lemma FractionWhole(a: Bytes, p: nat, n: G.Numeral)
    requires X.ProperNumeral(n) && Has(a, p, FractionText(n) + ExponentText(n))
    requires p + |FractionText(n) + ExponentText(n)| == |a|
    ensures !IsDigit(Peek(a, p)) && L.FractionEnd(a, p) == p + |FractionText(n)|
  {
    hide SkipDigits;
    var text := FractionText(n) + ExponentText(n);
    HasAt(a, p, text);
    var end := p + |FractionText(n)|;
    if end < |a| {
      assert a[p + |FractionText(n)|] == text[|FractionText(n)|] == n.exponent.value.e;
    }
    if n.fraction.Some? {
      assert a[p + 0] == 0x2E;
      forall i | p + 1 <= i < end ensures IsDigit(a[i]) {
        assert a[p + (i - p)] == text[i - p] == n.fraction.value[i - p - 1];
      }
      L.DigitsTo(a, p + 1, end);
    }
  }

  lemma ExponentWhole(a: Bytes, p: nat, n: G.Numeral)
    requires X.ProperNumeral(n) && Has(a, p, ExponentText(n)) && p + |ExponentText(n)| == |a|
    ensures L.ExponentEnd(a, p) == |a|
  {
    hide SkipDigits;
    var text := ExponentText(n);
    HasAt(a, p, text);
    if n.exponent.Some? {
      var x := n.exponent.value;
      var from := p + 1 + |x.sign|;
      assert a[p + 0] == x.e;
      forall i | from <= i < |a| ensures IsDigit(a[i]) {
        assert a[p + (i - p)] == text[i - p] == x.digits[i - from];
      }
      if x.sign != [] {
        assert a[p + 1] == text[1] == x.sign[0];
      }
      L.DigitsTo(a, from, |a|);
    }
  }

  /** Nothing behind the number continues it. */
  predicate Settled(n: G.Numeral, c: Byte) {
    G.NumeralText(n) != [] ==> !L.Continues(G.NumeralText(n)[1..], c)
  }

  /** A number is one token if nothing behind it continues it. */
  lemma NumeralToken(doc: Bytes, p: nat, n: G.Numeral)
    requires X.ProperNumeral(n) && Has(doc, p, G.NumeralText(n))
    requires Settled(n, Peek(doc, p + |G.NumeralText(n)|))
    ensures TokenAt(doc, p) == Token(NumberToken, p, p + |G.NumeralText(n)|)
  {
    hide NumberEnd, L.Continues, X.ProperNumeral;
    var text := G.NumeralText(n);
    X.NumeralSplit(n);
    hide G.NumeralText;
    var k := p + |text|;
    var a := doc[..k];
    assert Has(a, p, text);
    NumeralWhole(a, p, n);
    assert a[p + 1..k] == text[1..];
    L.NumberEndsAt(a, doc, k, p + 1);
    assert doc[p] == a[p];
    NumberStarts(doc, p);
  }

  lemma NumberStarts(doc: Bytes, p: nat)
    requires p < |doc| && (doc[p] == MINUS || IsDigit(doc[p]))
    ensures TokenAt(doc, p) == Token(NumberToken, p, NumberEnd(doc, p + 1))
  {
    hide NumberEnd;
  }

  /** A number decodes to what it means. */
  lemma NumeralDecodes(n: G.Numeral, toDouble: Bytes -> Option<Double>)
    requires X.ProperNumeral(n)
    ensures G.NumeralText(n) != [] && D.DecodeNumber(G.NumeralText(n), toDouble) == G.NumeralMeaning(n, toDouble)
  {
    hide G.NumeralText, X.Tail, DecimalValue;
    X.NumeralSplit(n);
    if X.Tail(n) == [] {
      assert n.integer + [] == n.integer;
    } else {
      assert (n.integer + X.Tail(n))[|n.integer|] == X.Tail(n)[0];
    }
  }

  /** Bytes that continue no number. */
  predicate Stops(c: Byte) {
    IsSpace(c) || c == SLASH || c == COMMA || c == ARRAY_END || c == OBJECT_END || c == QUOTE
  }

  lemma StopsSettle(n: G.Numeral, c: Byte)
    requires Stops(c)
    ensures Settled(n, c)
  {
    hide G.NumeralText;
  }

  // ------------------------------------------------------------------------- lexemes

  lemma {:induction false} QuotedEnds(doc: Bytes, p: nat, w: Bytes)
    requires X.Quoted(w) && Has(doc, p, w)
    ensures p <= |doc| && ScanString(doc, p) == Scan(true, p + |w|)
    decreases |w|
  {
    HasAt(doc, p, w);
    assert doc[p + 0] == w[0];
    if w == [QUOTE] {
    } else if w[0] == BACKSLASH {
      assert w == w[..2] + w[2..];
      HasSplit(doc, p, w[..2], w[2..]);
      QuotedEnds(doc, p + 2, w[2..]);
    } else {
      assert w == w[..1] + w[1..];
      HasSplit(doc, p, w[..1], w[1..]);
      QuotedEnds(doc, p + 1, w[1..]);
    }
  }

  /** A lexeme before such a byte is one token, and neither a comment nor, unless it is one, a closing bracket. */
  lemma LexemeToken(doc: Bytes, p: nat, w: Bytes)
    requires X.IsLexeme(w) && Has(doc, p, w) && p + |w| < |doc| && Stops(doc[p + |w|])
    ensures |w| > 0 && TokenAt(doc, p).end == p + |w| && TokenAt(doc, p).kind != Comment && !IsSpace(doc[p])
    ensures TokenAt(doc, p).kind == ObjectEnd ==> w == [OBJECT_END]
  {
    hide ScanString, NumberEnd, X.Quoted, X.ProperNumeral, G.NumeralText, Settled, X.IsNumeral;
    HasAt(doc, p, w);
    if |w| == 1 && (IsDigit(w[0]) || w[0] == MINUS) {
      ByteNumeral(w);
    }
    if X.IsNumeral(w) {
      NumberLexeme(doc, p, w);
    } else if w == NULL_TEXT || w == TRUE_TEXT || w == FALSE_TEXT {
      LiteralToken(doc, p, w);
      assert doc[p + 0] == w[0];
    } else if |w| >= 2 && w[0] == QUOTE {
      assert doc[p + 0] == w[0];
      assert w == w[..1] + w[1..];
      HasSplit(doc, p, w[..1], w[1..]);
      QuotedEnds(doc, p + 1, w[1..]);
    } else if |w| == 2 {
      assert doc[p + 0] == w[0] && doc[p + 1] == w[1];
    } else {
      assert doc[p + 0] == w[0];
      ByteLexeme(doc, p);
      assert w == [w[0]];
    }
  }

  /** A digit or a minus sign alone is a number of the extended grammar. */
  lemma ByteNumeral(w: Bytes)
    requires |w| == 1 && (IsDigit(w[0]) || w[0] == MINUS)
    ensures X.IsNumeral(w)
  {
    var n := if w[0] == MINUS then G.Numeral(true, [], None, None) else G.Numeral(false, w, None, None);
    assert X.ProperNumeral(n) && G.NumeralText(n) == w;
  }

  lemma NumberLexeme(doc: Bytes, p: nat, w: Bytes)
    requires X.IsNumeral(w) && Has(doc, p, w) && p + |w| < |doc| && Stops(doc[p + |w|])
    ensures |w| > 0 && TokenAt(doc, p) == Token(NumberToken, p, p + |w|) && !IsSpace(doc[p])
  {
    hide TokenAt, X.ProperNumeral, G.NumeralText, Settled;
    var n :| X.ProperNumeral(n) && G.NumeralText(n) == w;
    StopsSettle(n, doc[p + |w|]);
    NumeralToken(doc, p, n);
    NumberStart(doc, p);
  }

  lemma NumberStart(doc: Bytes, p: nat)
    requires p <= |doc| && TokenAt(doc, p).kind == NumberToken
    ensures p < |doc| && !IsSpace(doc[p]) && TokenAt(doc, p).end > p
  {
    hide ScanString, ScanComment, ScanMatch, NumberEnd;
  }

  /** Any other single byte is a token by itself. */
  lemma ByteLexeme(doc: Bytes, p: nat)
    requires p + 1 < |doc| && Stops(doc[p + 1]) && !IsSpace(doc[p]) && doc[p] != QUOTE && doc[p] != SLASH
    requires !IsDigit(doc[p]) && doc[p] != MINUS
    ensures TokenAt(doc, p).end == p + 1 && TokenAt(doc, p).kind != Comment
    ensures TokenAt(doc, p).kind == ObjectEnd ==> doc[p] == OBJECT_END
  {
    hide ScanString, ScanComment, ScanMatch, NumberEnd;
    if doc[p] == 0x74 {
      NoMatch(doc, p + 1, RUE);
    } else if doc[p] == 0x66 {
      NoMatch(doc, p + 1, ALSE);
    } else if doc[p] == 0x6E {
      NoMatch(doc, p + 1, ULL);
    }
  }

  lemma NoMatch(doc: Bytes, p: nat, pattern: Bytes)
    requires p < |doc| && Stops(doc[p]) && pattern in {RUE, ALSE, ULL}
    ensures ScanMatch(doc, p, pattern) == Scan(false, p)
  {
    if p + |pattern| <= |doc| {
      assert doc[p..p + |pattern|][0] == doc[p];
    }
  }

  // ----------------------------------------------------------------- reading and depth

  /** What reading a text of some depth gives. */
  predicate ReadsAs(r: Outcome, s: State, end: nat, depth: nat, v: Value) {
    r == if s.depth + depth <= STACK_LIMIT then Returned(true, s.(pos := end), v) else Threw
  }

  lemma TooDeep(s: State, end: nat, depth: nat, v: Value)
    requires s.depth >= STACK_LIMIT && depth >= 1
    ensures ReadsAs(Threw, s, end, depth, v)
  {
  }

  lemma ScalarReads(s: State, end: nat, v: Value)
    requires s.depth < STACK_LIMIT
    ensures ReadsAs(Returned(true, s.(pos := end), v), s, end, 1, v)
  {
  }

  lemma EmptyReads(s: State, end: nat, v: Value)
    requires s.depth <= STACK_LIMIT
    ensures ReadsAs(Returned(true, s.(pos := end), v), s, end, 0, v)
  {
  }

  /** A container reads one level deeper than its contents. */
  lemma Outer(inner: Outcome, outer: Outcome, s: State, q: nat, end: nat, depth: nat, v: Value)
    requires ReadsAs(inner, State(q, s.depth + 1, s.errors), end, depth, v) && Nested(inner, outer)
    ensures ReadsAs(outer, s, end, 1 + depth, v)
  {
  }

  lemma ReadsFirst(r: Outcome, s: State, end: nat, depth: nat, v: Value)
    requires ReadsAs(r, s, end, depth, v)
    ensures r == if s.depth + depth <= STACK_LIMIT then Returned(true, s.(pos := end), v) else Threw
  {
  }

  lemma ReadsTooDeep(s: State, end: nat, depth: nat, rest: nat, v: Value)
    requires s.depth + depth > STACK_LIMIT
    ensures ReadsAs(Threw, s, end, depth, v) && ReadsAs(Threw, s, end, G.Max(depth, rest), v)
  {
  }

  lemma ReadsLast(s: State, end: nat, depth: nat, v: Value)
    requires s.depth + depth <= STACK_LIMIT
    ensures ReadsAs(Returned(true, s.(pos := end), v), s, end, depth, v)
  {
  }

  lemma ReadsMore(r: Outcome, s: State, p: nat, end: nat, depth: nat, rest: nat, v: Value)
    requires s.depth + depth <= STACK_LIMIT && ReadsAs(r, s.(pos := p), end, rest, v)
    ensures ReadsAs(r, s, end, G.Max(depth, rest), v)
  {
  }

  // -------------------------------------------------------------------------- values

  /** A value starts with a byte that is no space, no slash and no closing bracket. */
  lemma RenderStart(t: X.Text, comments: bool, toDouble: Bytes -> Option<Double>)
    requires X.Proper(t, comments, toDouble)
    ensures X.Render(t) != []
    ensures var c := X.Render(t)[0]; !IsSpace(c) && c != SLASH && c != ARRAY_END
  {
    hide G.NumeralText, G.CharsText, X.ElementsText, X.MembersText, X.FillerText, G.NumeralMeaning;
    if t.NumberText? {
      NumeralStart(t.n);
    }
  }

  lemma NumeralStart(n: G.Numeral)
    requires X.ProperNumeral(n)
    ensures G.NumeralText(n) != [] && (G.NumeralText(n)[0] == MINUS || IsDigit(G.NumeralText(n)[0]))
  {
    var text := G.NumeralText(n);
    assert text[0] == if n.minus then MINUS else n.integer[0];
  }

  /** A number at the end of a text is not continued. */
  predicate Ends(doc: Bytes, end: nat, t: X.Text) {
    t.NumberText? ==> Settled(t.n, Peek(doc, end))
  }

  /** Where the first token of a text stands behind its filler. */
  lemma TextAt(f: Features, doc: Bytes, p: nat, gap: seq<X.Piece>, t: X.Text, q: nat)
    requires X.Allowed(gap, f.allowComments) && X.Proper(t, f.allowComments, f.toDouble)
    requires Has(doc, p, X.FillerText(gap) + X.Render(t)) && q == p + |X.FillerText(gap)|
    ensures p <= |doc| && q < |doc| && Has(doc, p, X.FillerText(gap)) && Has(doc, q, X.Render(t))
    ensures FirstToken(f, doc, p) == TokenAt(doc, q) && q + |X.Render(t)| <= |doc| && doc[q] != ARRAY_END
    ensures !IsSpace(doc[q]) && TokenAt(doc, q).kind != Comment
  {
    hide FirstToken, TokenAt, X.FillerText, X.Render, X.Proper, X.Allowed;
    RenderStart(t, f.allowComments, f.toDouble);
    HasSplit(doc, p, X.FillerText(gap), X.Render(t));
    HasAt(doc, q, X.Render(t));
    assert doc[q + 0] == X.Render(t)[0];
    FirstAfter(f, doc, p, gap, q);
    NoComment(doc, q);
  }

  /** Reading a text behind a filler. */
  lemma {:induction false} ReadText(f: Features, doc: Bytes, s: State, gap: seq<X.Piece>, held: Value, t: X.Text)
    requires X.Allowed(gap, f.allowComments) && X.Proper(t, f.allowComments, f.toDouble) && s.pos <= |doc|
    requires Has(doc, s.pos, X.FillerText(gap) + X.Render(t)) && Ends(doc, s.pos + |X.FillerText(gap) + X.Render(t)|, t)
    ensures ReadsAs(ReadValue(f, doc, s, held), s, s.pos + |X.FillerText(gap) + X.Render(t)|, X.Depth(t),
                    X.Meaning(t, f.allowComments, f.toDouble))
    decreases t, 2
  {
    hide *;
    var q := s.pos + |X.FillerText(gap)|;
    TextAt(f, doc, s.pos, gap, t, q);
    if s.depth >= STACK_LIMIT {
      ReadValueThrows(f, doc, s, held);
      TooDeep(s, s.pos + |X.FillerText(gap) + X.Render(t)|, X.Depth(t), X.Meaning(t, f.allowComments, f.toDouble));
    } else {
      match t
      case EmptyArray(_) => ReadEmptyText(f, doc, s, q, held, t);
      case ArrayText(es) => ReadArrayText(f, doc, s, q, held, es);
      case ObjectText(ms) => ReadObjectText(f, doc, s, q, held, ms);
      case _ => ReadScalarText(f, doc, s, q, held, t);
    }
  }

  // ------------------------------------------------------------------------- scalars

  lemma ScalarParts(t: X.Text, comments: bool, toDouble: Bytes -> Option<Double>)
    requires X.Proper(t, comments, toDouble) && !t.EmptyArray? && !t.ArrayText? && !t.ObjectText?
    ensures X.Depth(t) == 1
    ensures t.NullText? ==> X.Render(t) == NULL_TEXT && X.Meaning(t, comments, toDouble) == Null
    ensures t.BoolText? ==> && X.Render(t) == (if t.b then TRUE_TEXT else FALSE_TEXT)
                            && X.Meaning(t, comments, toDouble) == Bool(t.b)
    ensures t.StringText? ==> && X.ProperChars(t.cs) && X.Render(t) == G.StringText(t.cs)
                              && X.Meaning(t, comments, toDouble) == Str(X.CharsMeaning(t.cs))
    ensures t.NumberText? ==> && X.ProperNumeral(t.n) && X.Render(t) == G.NumeralText(t.n)
                              && G.NumeralMeaning(t.n, toDouble) == Some(X.Meaning(t, comments, toDouble))
  {
    hide G.NumeralMeaning, G.NumeralText, G.StringText, X.CharsMeaning;
  }

  lemma EndsIs(doc: Bytes, end: nat, t: X.Text)
    requires Ends(doc, end, t)
    ensures t.NumberText? ==> Settled(t.n, Peek(doc, end))
  {
  }

  lemma ReadScalarText(f: Features, doc: Bytes, s: State, q: nat, held: Value, t: X.Text)
    requires X.Proper(t, f.allowComments, f.toDouble) && !t.EmptyArray? && !t.ArrayText? && !t.ObjectText?
    requires s.pos <= |doc| && s.depth < STACK_LIMIT && q <= |doc| && FirstToken(f, doc, s.pos) == TokenAt(doc, q)
    requires Has(doc, q, X.Render(t)) && Ends(doc, q + |X.Render(t)|, t)
    ensures ReadsAs(ReadValue(f, doc, s, held), s, q + |X.Render(t)|, X.Depth(t),
                    X.Meaning(t, f.allowComments, f.toDouble))
  {
    hide *;
    ScalarParts(t, f.allowComments, f.toDouble);
    EndsIs(doc, q + |X.Render(t)|, t);
    if t.StringText? {
      StringReads(doc, q, t.cs);
      ReadValueString(f, doc, s, held, TokenAt(doc, q), X.CharsMeaning(t.cs));
    } else if t.NumberText? {
      NumeralToken(doc, q, t.n);
      NumeralDecodes(t.n, f.toDouble);
      HasIs(doc, q, G.NumeralText(t.n));
      ReadValueNumber(f, doc, s, held, TokenAt(doc, q), X.Meaning(t, f.allowComments, f.toDouble));
    } else {
      LiteralToken(doc, q, X.Render(t));
      ReadValueLiteral(f, doc, s, held, TokenAt(doc, q));
    }
    ScalarReads(s, q + |X.Render(t)|, X.Meaning(t, f.allowComments, f.toDouble));
  }

  lemma HasIs(doc: Bytes, p: nat, w: Bytes)
    requires Has(doc, p, w)
    ensures p + |w| <= |doc| && doc[p..p + |w|] == w
  {
  }

  // -------------------------------------------------------------------------- arrays

  lemma Punctuation()
    ensures !IsSpace(ARRAY_END) && !IsSpace(OBJECT_END) && !IsSpace(COMMA) && !IsSpace(COLON) && !IsSpace(QUOTE)
    ensures SLASH !in {ARRAY_END, OBJECT_END, COMMA, COLON, QUOTE}
    ensures Stops(COMMA) && Stops(ARRAY_END) && Stops(OBJECT_END) && Stops(SLASH) && Stops(QUOTE)
    ensures ARRAY_END != COMMA && OBJECT_END != COMMA
  {
  }

  lemma Opening(f: Features, doc: Bytes, q: nat, open: Byte, body: Bytes)
    requires open == ARRAY_BEGIN || open == OBJECT_BEGIN
    requires Has(doc, q, [open] + body)
    ensures q + 1 <= |doc| && Has(doc, q + 1, body)
    ensures TokenAt(doc, q) == Token(if open == ARRAY_BEGIN then ArrayBegin else ObjectBegin, q, q + 1)
  {
    hide TokenAt;
    HasSplit(doc, q, [open], body);
    HasAt(doc, q, [open]);
    assert doc[q + 0] == open;
    PunctuationToken(doc, q);
  }

  lemma ReadEmptyText(f: Features, doc: Bytes, s: State, q: nat, held: Value, t: X.Text)
    requires t.EmptyArray? && X.Proper(t, f.allowComments, f.toDouble)
    requires s.pos <= |doc| && s.depth < STACK_LIMIT && q <= |doc| && FirstToken(f, doc, s.pos) == TokenAt(doc, q)
    requires Has(doc, q, X.Render(t))
    ensures ReadsAs(ReadValue(f, doc, s, held), s, q + |X.Render(t)|, X.Depth(t),
                    X.Meaning(t, f.allowComments, f.toDouble))
  {
    hide *;
    EmptyParts(t, f.allowComments, f.toDouble);
    var body := X.FillerText(t.gap) + [ARRAY_END];
    Opening(f, doc, q, ARRAY_BEGIN, body);
    var inner := State(q + 1, s.depth + 1, s.errors);
    var c := q + 1 + |X.FillerText(t.gap)|;
    HasSplit(doc, q + 1, X.FillerText(t.gap), [ARRAY_END]);
    ByteAt(doc, c, ARRAY_END);
    Punctuation();
    NoComment(doc, c);
    SkipFiller(doc, q + 1, t.gap, c);
    ReadArrayAt(f, doc, inner, c);
    EmptyReads(inner, c + 1, Array([]));
    ReadValueArray(f, doc, s, held, TokenAt(doc, q));
    Outer(ReadArray(f, doc, inner), ReadValue(f, doc, s, held), s, q + 1, c + 1, 0, Array([]));
  }

  lemma ByteAt(doc: Bytes, p: nat, b: Byte)
    requires Has(doc, p, [b])
    ensures p < |doc| && doc[p] == b
  {
    HasAt(doc, p, [b]);
    assert doc[p + 0] == b;
  }

  lemma EmptyParts(t: X.Text, comments: bool, toDouble: Bytes -> Option<Double>)
    requires t.EmptyArray? && X.Proper(t, comments, toDouble)
    ensures X.ProperFiller(t.gap) && X.Bare(t.gap) && X.Depth(t) == 1
    ensures X.Render(t) == [ARRAY_BEGIN] + (X.FillerText(t.gap) + [ARRAY_END])
    ensures X.Meaning(t, comments, toDouble) == Array([])
  {
    hide X.FillerText;
  }

  lemma ReadArrayAt(f: Features, doc: Bytes, s: State, q: nat)
    requires s.pos <= |doc| && SkipSpaces(doc, s.pos) == q < |doc|
    ensures doc[q] == ARRAY_END ==> ReadArray(f, doc, s) == Returned(true, s.(pos := q + 1), Array([]))
    ensures doc[q] != ARRAY_END ==> ReadArray(f, doc, s) == ReadItems(f, doc, s, [])
  {
    hide SkipComments, SkipSpaces, ReadItems;
    L.SpacesTwice(doc, s.pos);
    PunctuationToken(doc, q);
    SameItemsFrom(f, doc, s, q);
  }

  /** Elements are read alike from before or behind the spaces in front of them. */
  lemma SameItemsFrom(f: Features, doc: Bytes, s: State, q: nat)
    requires s.pos <= |doc| && SkipSpaces(doc, s.pos) == q
    ensures ReadItems(f, doc, s.(pos := q), []) == ReadItems(f, doc, s, [])
  {
    hide ReadValue;
    SameValueFrom(f, doc, s, q);
  }

  lemma SameValueFrom(f: Features, doc: Bytes, s: State, q: nat)
    requires s.pos <= |doc| && SkipSpaces(doc, s.pos) == q
    ensures ReadValue(f, doc, s.(pos := q), Null) == ReadValue(f, doc, s, Null)
  {
    hide FirstToken, ReadMembers, ReadArray, ReadScalar;
    SameFirstFrom(f, doc, s.pos, q);
  }

  lemma SameFirstFrom(f: Features, doc: Bytes, p: nat, q: nat)
    requires p <= |doc| && SkipSpaces(doc, p) == q
    ensures FirstToken(f, doc, q) == FirstToken(f, doc, p)
  {
    hide TokenAt, SkipSpaces;
    L.SpacesTwice(doc, p);
  }

  lemma ArrayParts(es: X.Elements, comments: bool, toDouble: Bytes -> Option<Double>)
    requires X.Proper(X.ArrayText(es), comments, toDouble)
    ensures var t := X.ArrayText(es);
            && X.ProperElements(es, comments, toDouble) && X.Render(t) == [ARRAY_BEGIN] + X.ElementsText(es)
            && X.Meaning(t, comments, toDouble) == Array(X.ElementsMeaning(es, comments, toDouble))
            && X.Depth(t) == 1 + X.ElementsDepth(es)
  {
    hide X.ProperElements, X.ElementsText, X.ElementsMeaning, X.ElementsDepth;
  }

  lemma ReadArrayText(f: Features, doc: Bytes, s: State, q: nat, held: Value, es: X.Elements)
    requires X.Proper(X.ArrayText(es), f.allowComments, f.toDouble)
    requires s.pos <= |doc| && s.depth < STACK_LIMIT && q <= |doc| && FirstToken(f, doc, s.pos) == TokenAt(doc, q)
    requires Has(doc, q, X.Render(X.ArrayText(es)))
    ensures var t := X.ArrayText(es);
            ReadsAs(ReadValue(f, doc, s, held), s, q + |X.Render(t)|, X.Depth(t),
                    X.Meaning(t, f.allowComments, f.toDouble))
    decreases X.ArrayText(es), 1
  {
    hide *;
    ArrayParts(es, f.allowComments, f.toDouble);
    Opening(f, doc, q, ARRAY_BEGIN, X.ElementsText(es));
    var inner := State(q + 1, s.depth + 1, s.errors);
    var end := q + 1 + |X.ElementsText(es)|;
    var meaning := X.ElementsMeaning(es, f.allowComments, f.toDouble);
    ElementsStart(f, doc, q + 1, es);
    ReadArrayAt(f, doc, inner, SkipSpaces(doc, q + 1));
    ReadElements(f, doc, inner, [], es);
    assert [] + meaning == meaning;
    ReadValueArray(f, doc, s, held, TokenAt(doc, q));
    Outer(ReadArray(f, doc, inner), ReadValue(f, doc, s, held), s, q + 1, end, X.ElementsDepth(es), Array(meaning));
  }

  /** An element and what follows it. */
  lemma ElementPlaces(f: Features, doc: Bytes, p: nat, e: X.Element, tail: Bytes)
    requires X.ProperElement(e, f.allowComments, f.toDouble) && tail != [] && (tail[0] == COMMA || tail[0] == ARRAY_END)
    requires Has(doc, p, X.ElementText(e) + tail)
    ensures X.Allowed(e.before, f.allowComments) && X.Proper(e.text, f.allowComments, f.toDouble)
    ensures var text := X.FillerText(e.before) + X.Render(e.text);
            var end := p + |text|;
            var c := p + |X.ElementText(e)|;
            && p <= |doc| && Has(doc, p, text) && Ends(doc, end, e.text) && c < |doc| && doc[c] == tail[0]
            && Has(doc, c, tail) && end <= |doc|
            && SkipComments(doc, end)
               == TokenAt(doc, c) == Token(if tail[0] == COMMA then ArraySeparator else ArrayEnd, c, c + 1)
  {
    hide *;
    ElementIs(e, f.allowComments, f.toDouble);
    Punctuation();
    var text, after := X.FillerText(e.before) + X.Render(e.text), X.FillerText(e.after);
    Associate(text, after, tail);
    HasSplit(doc, p, text, after + tail);
    HasSplit(doc, p + |text|, after, tail);
    var c := p + |text| + |after|;
    FirstByte(doc, c, tail);
    HasIs(doc, p, text);
    AfterText(doc, p + |text|, e.after, c, e.text);
    PunctuationToken(doc, c);
  }

  lemma Associate(a: Bytes, b: Bytes, c: Bytes)
    ensures a + b + c == a + (b + c)
  {
  }

  lemma ElementIs(e: X.Element, comments: bool, toDouble: Bytes -> Option<Double>)
    requires X.ProperElement(e, comments, toDouble)
    ensures X.Allowed(e.before, comments) && X.Proper(e.text, comments, toDouble) && X.ProperFiller(e.after)
    ensures X.ElementText(e) == X.FillerText(e.before) + X.Render(e.text) + X.FillerText(e.after)
  {
    hide X.FillerText, X.Render, X.Proper, X.Allowed, X.ProperFiller;
  }

  lemma FirstByte(doc: Bytes, p: nat, w: Bytes)
    requires w != [] && Has(doc, p, w)
    ensures p < |doc| && doc[p] == w[0]
  {
    HasAt(doc, p, w);
    assert doc[p + 0] == w[0];
  }

  /** Behind a text, a filler leads to the next token and continues no number. */
  lemma AfterText(doc: Bytes, p: nat, gap: seq<X.Piece>, c: nat, t: X.Text)
    requires X.ProperFiller(gap) && Has(doc, p, X.FillerText(gap)) && c == p + |X.FillerText(gap)|
    requires c < |doc| && doc[c] in {COMMA, ARRAY_END, OBJECT_END}
    ensures p <= c && Ends(doc, p, t) && SkipComments(doc, p) == TokenAt(doc, c)
    ensures !X.Bare(gap) <==> ReadToken(doc, p).kind == Comment
    ensures X.Bare(gap) ==> ReadToken(doc, p) == TokenAt(doc, c)
  {
    hide TokenAt, SkipComments, ReadToken, Settled;
    Punctuation();
    NoComment(doc, c);
    SkipFiller(doc, p, gap, c);
    FillerStops(doc, p, gap, c);
    if t.NumberText? {
      StopsSettle(t.n, doc[p]);
    }
  }

  /** A filler starts with a space or a slash. */
  lemma FillerStops(doc: Bytes, p: nat, gap: seq<X.Piece>, c: nat)
    requires X.ProperFiller(gap) && Has(doc, p, X.FillerText(gap)) && c == p + |X.FillerText(gap)|
    requires c < |doc| && Stops(doc[c])
    ensures p < |doc| && Stops(doc[p])
  {
    hide X.ProperPiece;
    if gap != [] {
      var text := X.PieceText(gap[0]);
      HasSplit(doc, p, text, X.FillerText(gap[1..]));
      FirstByte(doc, p, text);
      PieceStart(gap[0]);
    }
  }

  lemma PieceStart(c: X.Piece)
    requires X.ProperPiece(c)
    ensures X.PieceText(c) != [] && Stops(X.PieceText(c)[0])
  {
  }

  /** Behind the opening bracket the first byte that is no space is no closing one. */
  lemma ElementsStart(f: Features, doc: Bytes, p: nat, es: X.Elements)
    requires X.ProperElements(es, f.allowComments, f.toDouble) && Has(doc, p, X.ElementsText(es))
    ensures p <= |doc| && SkipSpaces(doc, p) < |doc| && doc[SkipSpaces(doc, p)] != ARRAY_END
  {
    hide *;
    ElementsCases(es, f.allowComments, f.toDouble);
    var e := es.element;
    var tail := if es.LastElement? then [ARRAY_END] else [COMMA] + X.ElementsText(es.rest);
    ElementIs(e, f.allowComments, f.toDouble);
    Punctuation();
    HasSplit(doc, p, X.ElementText(e), tail);
    var text := X.FillerText(e.before) + X.Render(e.text);
    HasSplit(doc, p, text, X.FillerText(e.after));
    var q := p + |X.FillerText(e.before)|;
    TextAt(f, doc, p, e.before, e.text, q);
    AllowedIs(e.before, f.allowComments);
    SkipFiller(doc, p, e.before, q);
  }

  lemma AllowedIs(gap: seq<X.Piece>, comments: bool)
    requires X.Allowed(gap, comments)
    ensures X.ProperFiller(gap)
  {
  }

  lemma ElementsCases(es: X.Elements, comments: bool, toDouble: Bytes -> Option<Double>)
    requires X.ProperElements(es, comments, toDouble)
    ensures X.ProperElement(es.element, comments, toDouble) && X.Proper(es.element.text, comments, toDouble)
    ensures X.ElementsText(es)
            == X.ElementText(es.element) + if es.LastElement? then [ARRAY_END] else [COMMA] + X.ElementsText(es.rest)
    ensures var v := X.Meaning(es.element.text, comments, toDouble);
            && (es.LastElement? ==>
                  X.ElementsMeaning(es, comments, toDouble) == [v] && X.ElementsDepth(es) == X.Depth(es.element.text))
            && (es.MoreElements? ==>
                  && X.ProperElements(es.rest, comments, toDouble)
                  && X.ElementsMeaning(es, comments, toDouble) == [v] + X.ElementsMeaning(es.rest, comments, toDouble)
                  && X.ElementsDepth(es) == G.Max(X.Depth(es.element.text), X.ElementsDepth(es.rest)))
  {
    hide X.Proper, X.Meaning, X.Depth, X.ElementText;
    assert X.ProperElement(es.element, comments, toDouble);
  }

  lemma {:induction false} ReadElements(f: Features, doc: Bytes, s: State, items: seq<Value>, es: X.Elements)
    requires X.ProperElements(es, f.allowComments, f.toDouble) && s.pos <= |doc| && Has(doc, s.pos, X.ElementsText(es))
    ensures ReadsAs(ReadItems(f, doc, s, items), s, s.pos + |X.ElementsText(es)|, X.ElementsDepth(es),
                    Array(items + X.ElementsMeaning(es, f.allowComments, f.toDouble)))
    decreases es, 0
  {
    hide *;
    ElementsCases(es, f.allowComments, f.toDouble);
    Punctuation();
    var e := es.element;
    var tail := if es.LastElement? then [ARRAY_END] else [COMMA] + X.ElementsText(es.rest);
    ElementPlaces(f, doc, s.pos, e, tail);
    var v := X.Meaning(e.text, f.allowComments, f.toDouble);
    var all := Array(items + X.ElementsMeaning(es, f.allowComments, f.toDouble));
    var text := X.FillerText(e.before) + X.Render(e.text);
    var c, end := s.pos + |X.ElementText(e)|, s.pos + |X.ElementsText(es)|;
    ReadText(f, doc, s, e.before, Null, e.text);
    ReadsFirst(ReadValue(f, doc, s, Null), s, s.pos + |text|, X.Depth(e.text), v);
    ReadItemsStep(f, doc, s, items, ReadValue(f, doc, s, Null));
    if s.depth + X.Depth(e.text) > STACK_LIMIT {
      ReadsTooDeep(s, end, X.Depth(e.text), if es.LastElement? then 0 else X.ElementsDepth(es.rest), all);
    } else if es.LastElement? {
      ReadsLast(s, end, X.Depth(e.text), all);
    } else {
      HasSplit(doc, c, [COMMA], X.ElementsText(es.rest));
      ReadElements(f, doc, s.(pos := c + 1), items + [v], es.rest);
      var rest := X.ElementsMeaning(es.rest, f.allowComments, f.toDouble);
      assert items + [v] + rest == items + ([v] + rest);
      ReadsMore(ReadItems(f, doc, s, items), s, c + 1, end, X.Depth(e.text), X.ElementsDepth(es.rest), all);
    }
  }

  // ------------------------------------------------------------------------- objects

  lemma ReadObjectText(f: Features, doc: Bytes, s: State, q: nat, held: Value, ms: X.Members)
    requires X.Proper(X.ObjectText(ms), f.allowComments, f.toDouble)
    requires s.pos <= |doc| && s.depth < STACK_LIMIT && q <= |doc| && FirstToken(f, doc, s.pos) == TokenAt(doc, q)
    requires Has(doc, q, X.Render(X.ObjectText(ms)))
    ensures var t := X.ObjectText(ms);
            ReadsAs(ReadValue(f, doc, s, held), s, q + |X.Render(t)|, X.Depth(t),
                    X.Meaning(t, f.allowComments, f.toDouble))
    decreases X.ObjectText(ms), 1
  {
    hide *;
    ObjectParts(ms, f.allowComments, f.toDouble);
    Opening(f, doc, q, OBJECT_BEGIN, X.MembersText(ms));
    var inner := State(q + 1, s.depth + 1, s.errors);
    var end := q + 1 + |X.MembersText(ms)|;
    ReadMembersText(f, doc, inner, [], [], ms);
    ReadValueObject(f, doc, s, held, TokenAt(doc, q));
    Outer(ReadMembers(f, doc, inner, [], []), ReadValue(f, doc, s, held), s, q + 1, end, X.MembersDepth(ms),
          X.Meaning(X.ObjectText(ms), f.allowComments, f.toDouble));
  }

  lemma ObjectParts(ms: X.Members, comments: bool, toDouble: Bytes -> Option<Double>)
    requires X.Proper(X.ObjectText(ms), comments, toDouble)
    ensures var t := X.ObjectText(ms);
            && X.ProperMembers(ms, [], comments, toDouble) && X.Render(t) == [OBJECT_BEGIN] + X.MembersText(ms)
            && X.Meaning(t, comments, toDouble) == Object(X.MembersMeaning(ms, [], [], comments, toDouble))
            && X.Depth(t) == 1 + X.MembersDepth(ms)
    ensures ARRAY_BEGIN != OBJECT_BEGIN
  {
    hide X.ProperMembers, X.MembersText, X.MembersMeaning, X.MembersDepth;
  }

  lemma {:induction false} ReadMembersText(
      f: Features, doc: Bytes, s: State, done: seq<Member>, name: Bytes, ms: X.Members)
    requires X.ProperMembers(ms, name, f.allowComments, f.toDouble) && s.depth <= STACK_LIMIT
    requires s.pos <= |doc| && Has(doc, s.pos, X.MembersText(ms))
    ensures ReadsAs(ReadMembers(f, doc, s, done, name), s, s.pos + |X.MembersText(ms)|, X.MembersDepth(ms),
                    Object(X.MembersMeaning(ms, done, name, f.allowComments, f.toDouble)))
    decreases ms, 0
  {
    hide *;
    if ms.NoMember? {
      ReadNoMember(f, doc, s, done, name, ms);
    } else {
      MembersCases(ms, done, name, f.allowComments, f.toDouble);
      var e := ms.entry;
      var separator := if ms.LastMember? then [OBJECT_END] else ms.separator;
      var tail := if ms.LastMember? then [] else X.MembersText(ms.rest);
      var key, v := X.CharsMeaning(e.key), X.Meaning(e.text, f.allowComments, f.toDouble);
      var extended := Put(done, key, v);
      var all := Object(X.MembersMeaning(ms, done, name, f.allowComments, f.toDouble));
      var end := s.pos + |X.MembersText(ms)|;
      SeparatorPlace(f, doc, s.pos, ms, name);
      var before := s.pos + |EntryFront(e)|;
      var c := s.pos + |X.EntryText(e)|;
      ReadEntryText(f, doc, s, done, name, e);
      if s.depth + X.Depth(e.text) > STACK_LIMIT {
        ReadsTooDeep(s, end, X.Depth(e.text), if ms.LastMember? then 0 else X.MembersDepth(ms.rest), all);
      } else if ms.LastMember? {
        AfterEnds(f, doc, s.(pos := before), extended, key);
        ReadsLast(s, end, X.Depth(e.text), all);
      } else {
        AfterGoesOn(f, doc, s.(pos := before), extended, key);
        ReadMembersText(f, doc, s.(pos := c + |separator|), extended, key, ms.rest);
        ReadsMore(ReadMembers(f, doc, s, done, name), s, c + |separator|, end, X.Depth(e.text),
                  X.MembersDepth(ms.rest), all);
      }
    }
  }

  lemma ReadNoMember(f: Features, doc: Bytes, s: State, done: seq<Member>, name: Bytes, ms: X.Members)
    requires ms.NoMember? && X.ProperMembers(ms, name, f.allowComments, f.toDouble) && s.depth <= STACK_LIMIT
    requires s.pos <= |doc| && Has(doc, s.pos, X.MembersText(ms))
    ensures ReadsAs(ReadMembers(f, doc, s, done, name), s, s.pos + |X.MembersText(ms)|, X.MembersDepth(ms),
                    Object(X.MembersMeaning(ms, done, name, f.allowComments, f.toDouble)))
  {
    hide *;
    NoMemberIs(ms, done, name, f.allowComments, f.toDouble);
    var c := s.pos + |X.FillerText(ms.gap)|;
    HasSplit(doc, s.pos, X.FillerText(ms.gap), [OBJECT_END]);
    ByteAt(doc, c, OBJECT_END);
    Punctuation();
    NoComment(doc, c);
    SkipFiller(doc, s.pos, ms.gap, c);
    PunctuationToken(doc, c);
    EmptyMembers(f, doc, s, done, c);
    EmptyReads(s, c + 1, Object(done));
  }

  lemma NoMemberIs(ms: X.Members, done: seq<Member>, name: Bytes, comments: bool, toDouble: Bytes -> Option<Double>)
    requires ms.NoMember? && X.ProperMembers(ms, name, comments, toDouble)
    ensures X.ProperFiller(ms.gap) && name == [] && X.MembersText(ms) == X.FillerText(ms.gap) + [OBJECT_END]
    ensures X.MembersMeaning(ms, done, name, comments, toDouble) == done && X.MembersDepth(ms) == 0
  {
  }

  lemma EmptyMembers(f: Features, doc: Bytes, s: State, done: seq<Member>, c: nat)
    requires s.pos <= |doc| && SkipComments(doc, s.pos) == Token(ObjectEnd, c, c + 1)
    ensures ReadMembers(f, doc, s, done, []) == Returned(true, s.(pos := c + 1), Object(done))
  {
    hide SkipComments, ReadToken, D.DecodeString, ReadMember;
  }

  lemma MembersCases(ms: X.Members, done: seq<Member>, name: Bytes, comments: bool, toDouble: Bytes -> Option<Double>)
    requires !ms.NoMember? && X.ProperMembers(ms, name, comments, toDouble)
    ensures var e := ms.entry;
            && X.ProperEntry(e, comments, toDouble) && X.ProperChars(e.key) && X.Proper(e.text, comments, toDouble)
            && var key := X.CharsMeaning(e.key);
               var extended := Put(done, key, X.Meaning(e.text, comments, toDouble));
               && (ms.LastMember? ==>
                     && X.MembersText(ms) == X.EntryText(e) + [OBJECT_END]
                     && X.MembersMeaning(ms, done, name, comments, toDouble) == extended
                     && X.MembersDepth(ms) == X.Depth(e.text))
               && (ms.MoreMembers? ==>
                     && X.ProperMembers(ms.rest, key, comments, toDouble) && X.Separates(ms.separator, e.after)
                     && X.MembersText(ms) == X.EntryText(e) + (ms.separator + X.MembersText(ms.rest))
                     && X.MembersMeaning(ms, done, name, comments, toDouble)
                        == X.MembersMeaning(ms.rest, extended, key, comments, toDouble)
                     && X.MembersDepth(ms) == G.Max(X.Depth(e.text), X.MembersDepth(ms.rest)))
  {
    hide X.Proper, X.Meaning, X.Depth, X.EntryText, X.CharsMeaning, X.ProperChars, Put, X.Separates;
    assert X.ProperEntry(ms.entry, comments, toDouble);
  }

  /** A member without the filler behind it. */
  function EntryFront(e: X.Entry): Bytes {
    X.FillerText(e.before)
    + (G.StringText(e.key)
       + (X.FillerText(e.beforeColon) + ([COLON] + (X.FillerText(e.afterColon) + X.Render(e.text)))))
  }

  lemma EntrySplit(e: X.Entry)
    ensures X.EntryText(e) == EntryFront(e) + X.FillerText(e.after)
  {
    hide X.FillerText, X.Render, G.StringText;
    var value := X.FillerText(e.afterColon) + X.Render(e.text);
    Associate(X.FillerText(e.afterColon), X.Render(e.text), X.FillerText(e.after));
    Associate([COLON], value, X.FillerText(e.after));
    Associate(X.FillerText(e.beforeColon), [COLON] + value, X.FillerText(e.after));
    Associate(G.StringText(e.key), X.FillerText(e.beforeColon) + ([COLON] + value), X.FillerText(e.after));
    Associate(X.FillerText(e.before), G.StringText(e.key) + (X.FillerText(e.beforeColon) + ([COLON] + value)),
              X.FillerText(e.after));
  }

  /** What stands behind a member, and where it leads. */
  lemma SeparatorPlace(f: Features, doc: Bytes, p: nat, ms: X.Members, name: Bytes)
    requires !ms.NoMember? && X.ProperMembers(ms, name, f.allowComments, f.toDouble) && Has(doc, p, X.MembersText(ms))
    ensures var e := ms.entry;
            var before := p + |EntryFront(e)|;
            var c := p + |X.EntryText(e)|;
            && before <= c < |doc| && Has(doc, p, EntryFront(e)) && Ends(doc, before, e.text)
            && (ms.LastMember? ==> SkipComments(doc, before) == Token(ObjectEnd, c, c + 1))
            && (ms.MoreMembers? ==>
                  && c + |ms.separator| <= |doc| && Has(doc, c + |ms.separator|, X.MembersText(ms.rest))
                  && SkipComments(doc, before).end == c + |ms.separator|
                  && SkipComments(doc, before).kind != ObjectEnd
                  && (SkipComments(doc, before).kind == ArraySeparator || ReadToken(doc, before).kind == Comment))
  {
    hide *;
    MembersCases(ms, [], name, f.allowComments, f.toDouble);
    var e := ms.entry;
    var c := p + |X.EntryText(e)|;
    EntrySplit(e);
    EntryFillers(e, f.allowComments, f.toDouble);
    Punctuation();
    var before := p + |EntryFront(e)|;
    if ms.LastMember? {
      HasSplit(doc, p, X.EntryText(e), [OBJECT_END]);
      ByteAt(doc, c, OBJECT_END);
      HasSplit(doc, p, EntryFront(e), X.FillerText(e.after));
      AfterText(doc, before, e.after, c, e.text);
      PunctuationToken(doc, c);
    } else {
      HasSplit(doc, p, X.EntryText(e), ms.separator + X.MembersText(ms.rest));
      HasSplit(doc, c, ms.separator, X.MembersText(ms.rest));
      HasSplit(doc, p, EntryFront(e), X.FillerText(e.after));
      SeparatorToken(f, doc, before, c, e, ms.separator, ms.rest);
    }
  }

  lemma EntryFillers(e: X.Entry, comments: bool, toDouble: Bytes -> Option<Double>)
    requires X.ProperEntry(e, comments, toDouble)
    ensures X.ProperFiller(e.before) && X.ProperFiller(e.beforeColon) && X.Bare(e.beforeColon)
    ensures X.Allowed(e.afterColon, comments) && X.ProperFiller(e.after)
  {
  }

  /** Members start with a space, a slash, a quote or a closing bracket. */
  lemma MembersStop(f: Features, doc: Bytes, p: nat, ms: X.Members, name: Bytes)
    requires X.ProperMembers(ms, name, f.allowComments, f.toDouble) && Has(doc, p, X.MembersText(ms))
    ensures p < |doc| && Stops(doc[p])
  {
    hide *;
    Punctuation();
    if ms.NoMember? {
      NoMemberIs(ms, [], name, f.allowComments, f.toDouble);
      HasSplit(doc, p, X.FillerText(ms.gap), [OBJECT_END]);
      ByteAt(doc, p + |X.FillerText(ms.gap)|, OBJECT_END);
      FillerStops(doc, p, ms.gap, p + |X.FillerText(ms.gap)|);
    } else {
      MembersCases(ms, [], name, f.allowComments, f.toDouble);
      var e := ms.entry;
      EntrySplit(e);
      EntryFillers(e, f.allowComments, f.toDouble);
      HasSplit(doc, p, X.EntryText(e), if ms.LastMember? then [OBJECT_END] else ms.separator + X.MembersText(ms.rest));
      HasSplit(doc, p, EntryFront(e), X.FillerText(e.after));
      var rest := G.StringText(e.key)
                  + (X.FillerText(e.beforeColon) + ([COLON] + (X.FillerText(e.afterColon) + X.Render(e.text))));
      FrontIs(e);
      HasSplit(doc, p, X.FillerText(e.before), rest);
      StringPieces(e.key);
      FirstByte(doc, p + |X.FillerText(e.before)|, rest);
      FillerStops(doc, p, e.before, p + |X.FillerText(e.before)|);
    }
  }

  lemma FrontIs(e: X.Entry)
    ensures EntryFront(e)
            == X.FillerText(e.before)
               + (G.StringText(e.key)
                  + (X.FillerText(e.beforeColon) + ([COLON] + (X.FillerText(e.afterColon) + X.Render(e.text)))))
  {
  }

  lemma SeparatorToken(
      f: Features, doc: Bytes, before: nat, c: nat, e: X.Entry, separator: Bytes, rest: X.Members)
    requires X.ProperFiller(e.after) && Has(doc, before, X.FillerText(e.after)) && c == before + |X.FillerText(e.after)|
    requires X.ProperChars(e.key) && X.ProperMembers(rest, X.CharsMeaning(e.key), f.allowComments, f.toDouble)
    requires X.Separates(separator, e.after) && Has(doc, c, separator) && Has(doc, c + |separator|, X.MembersText(rest))
    ensures before <= c < |doc| && c + |separator| <= |doc| && Ends(doc, before, e.text)
    ensures SkipComments(doc, before).end == c + |separator| && SkipComments(doc, before).kind != ObjectEnd
    ensures SkipComments(doc, before).kind == ArraySeparator || ReadToken(doc, before).kind == Comment
  {
    hide *;
    Punctuation();
    MembersStop(f, doc, c + |separator|, rest, X.CharsMeaning(e.key));
    SeparatesIs(separator, e.after);
    if separator == [COMMA] {
      ByteAt(doc, c, COMMA);
      AfterText(doc, before, e.after, c, e.text);
      PunctuationToken(doc, c);
    } else {
      LexemeToken(doc, c, separator);
      SkipFiller(doc, before, e.after, c);
      CommentFirst(doc, before, e.after);
      if e.text.NumberText? {
        StopsSettle(e.text.n, Peek(doc, before));
      }
      EndsWhen(doc, before, e.text);
    }
  }

  lemma SeparatesIs(separator: Bytes, gap: seq<X.Piece>)
    requires X.Separates(separator, gap)
    ensures separator == [COMMA] || (!X.Bare(gap) && X.IsLexeme(separator) && separator != [OBJECT_END])
  {
  }

  lemma EndsWhen(doc: Bytes, end: nat, t: X.Text)
    requires t.NumberText? ==> Settled(t.n, Peek(doc, end))
    ensures Ends(doc, end, t)
  {
  }

  lemma CommentFirst(doc: Bytes, p: nat, gap: seq<X.Piece>)
    requires X.ProperFiller(gap) && !X.Bare(gap) && Has(doc, p, X.FillerText(gap))
    ensures Stops(Peek(doc, p))
  {
    hide X.ProperPiece;
    var text := X.PieceText(gap[0]);
    HasSplit(doc, p, text, X.FillerText(gap[1..]));
    PieceStart(gap[0]);
    FirstByte(doc, p, text);
  }

  /** What follows a member ends the object. */
  lemma AfterEnds(f: Features, doc: Bytes, s: State, members: seq<Member>, name: Bytes)
    requires s.pos <= |doc| && SkipComments(doc, s.pos).kind == ObjectEnd
    ensures AfterMember(f, doc, s, members, name)
            == Returned(true, s.(pos := SkipComments(doc, s.pos).end), Object(members))
  {
    hide ReadToken, ReadMembers;
  }

  /** What follows a member leads to the next one. */
  lemma AfterGoesOn(f: Features, doc: Bytes, s: State, members: seq<Member>, name: Bytes)
    requires s.pos <= |doc|
    requires var last := SkipComments(doc, s.pos);
             && last.kind != ObjectEnd && (last.kind == ArraySeparator || ReadToken(doc, s.pos).kind == Comment)
    ensures AfterMember(f, doc, s, members, name)
            == ReadMembers(f, doc, s.(pos := SkipComments(doc, s.pos).end), members, name)
  {
    hide ReadToken, ReadMembers;
  }

  /** Where the key, the colon and the value of a member stand. */
  lemma EntryPlaces(f: Features, doc: Bytes, p: nat, e: X.Entry)
    requires X.ProperEntry(e, f.allowComments, f.toDouble) && Has(doc, p, EntryFront(e)) && X.ProperChars(e.key)
    ensures var k := p + |X.FillerText(e.before)|;
            var colon := k + |G.StringText(e.key)| + |X.FillerText(e.beforeColon)|;
            && p <= k && k + |G.StringText(e.key)| <= |doc| && colon < |doc|
            && SkipComments(doc, p) == TokenAt(doc, k) && Has(doc, k, G.StringText(e.key))
            && ReadToken(doc, k + |G.StringText(e.key)|) == Token(MemberSeparator, colon, colon + 1)
            && Has(doc, colon + 1, X.FillerText(e.afterColon) + X.Render(e.text))
            && colon + 1 + |X.FillerText(e.afterColon) + X.Render(e.text)| == p + |EntryFront(e)|
  {
    hide *;
    FrontIs(e);
    EntryFillers(e, f.allowComments, f.toDouble);
    Punctuation();
    StringPieces(e.key);
    var value := X.FillerText(e.afterColon) + X.Render(e.text);
    var key := G.StringText(e.key);
    var k := p + |X.FillerText(e.before)|;
    HasSplit(doc, p, X.FillerText(e.before), key + (X.FillerText(e.beforeColon) + ([COLON] + value)));
    HasSplit(doc, k, key, X.FillerText(e.beforeColon) + ([COLON] + value));
    FirstByte(doc, k, key);
    NoComment(doc, k);
    SkipFiller(doc, p, e.before, k);
    HasSplit(doc, k + |key|, X.FillerText(e.beforeColon), [COLON] + value);
    var colon := k + |key| + |X.FillerText(e.beforeColon)|;
    HasSplit(doc, colon, [COLON], value);
    ByteAt(doc, colon, COLON);
    NoComment(doc, colon);
    SkipFiller(doc, k + |key|, e.beforeColon, colon);
    PunctuationToken(doc, colon);
  }

  /** One member: its key, the colon and its value. */
  lemma ReadEntryText(f: Features, doc: Bytes, s: State, done: seq<Member>, name: Bytes, e: X.Entry)
    requires X.ProperEntry(e, f.allowComments, f.toDouble) && X.ProperChars(e.key)
    requires X.Proper(e.text, f.allowComments, f.toDouble)
    requires s.pos <= |doc| && Has(doc, s.pos, EntryFront(e)) && Ends(doc, s.pos + |EntryFront(e)|, e.text)
    ensures s.pos + |EntryFront(e)| <= |doc|
    ensures var key, v := X.CharsMeaning(e.key), X.Meaning(e.text, f.allowComments, f.toDouble);
            ReadMembers(f, doc, s, done, name)
            == if s.depth + X.Depth(e.text) <= STACK_LIMIT
               then AfterMember(f, doc, s.(pos := s.pos + |EntryFront(e)|), Put(done, key, v), key)
               else Threw
    decreases e, 0
  {
    hide *;
    HasIs(doc, s.pos, EntryFront(e));
    EntryFillers(e, f.allowComments, f.toDouble);
    EntryPlaces(f, doc, s.pos, e);
    var key, v := X.CharsMeaning(e.key), X.Meaning(e.text, f.allowComments, f.toDouble);
    var k := s.pos + |X.FillerText(e.before)|;
    var colon := k + |G.StringText(e.key)| + |X.FillerText(e.beforeColon)|;
    StringReads(doc, k, e.key);
    var at := s.(pos := colon + 1);
    var r := ReadValue(f, doc, at, Find(done, key));
    ReadText(f, doc, at, e.afterColon, Find(done, key), e.text);
    ReadsFirst(r, at, s.pos + |EntryFront(e)|, X.Depth(e.text), v);
    ReadMembersStep(f, doc, s, done, name, TokenAt(doc, k), key, ReadToken(doc, k + |G.StringText(e.key)|), r);
  }

  // ----------------------------------------------------------------------- documents

  /**
   Every text of the extended grammar behind a filler parses to what it means when it is nested
   at most STACK_LIMIT deep, whatever follows that does not continue a number; deeper ones raise
   the stack limit.
   */
  lemma ParsePrefix(f: Features, doc: Bytes, gap: seq<X.Piece>, t: X.Text, root: Value)
    requires X.Allowed(gap, f.allowComments) && X.Proper(t, f.allowComments, f.toDouble)
    requires X.FillerText(gap) + X.Render(t) <= doc && Ends(doc, |X.FillerText(gap) + X.Render(t)|, t)
    requires f.strictRoot ==> t.EmptyArray? || t.ArrayText? || t.ObjectText?
    ensures |X.FillerText(gap) + X.Render(t)| <= |doc|
    ensures Parse(f, doc, root)
            == if X.Depth(t) <= STACK_LIMIT
               then Returned(true, State(FirstToken(f, doc, |X.FillerText(gap) + X.Render(t)|).end, 0, []),
                             X.Meaning(t, f.allowComments, f.toDouble))
               else Threw
  {
    hide *;
    var s, text := State(0, 0, []), X.FillerText(gap) + X.Render(t);
    assert Has(doc, 0, text) by {
      PrefixHas(doc, text);
    }
    ReadText(f, doc, s, gap, root, t);
    ReadsFirst(ReadValue(f, doc, s, root), s, |text|, X.Depth(t), X.Meaning(t, f.allowComments, f.toDouble));
    ContainerMeaning(t, f.allowComments, f.toDouble);
    ParseStep(f, doc, root, ReadValue(f, doc, s, root));
  }

  lemma PrefixHas(doc: Bytes, text: Bytes)
    requires text <= doc
    ensures Has(doc, 0, text)
  {
  }

  lemma ContainerMeaning(t: X.Text, comments: bool, toDouble: Bytes -> Option<Double>)
    requires X.Proper(t, comments, toDouble)
    ensures var v := X.Meaning(t, comments, toDouble);
            v.Array? || v.Object? <==> t.EmptyArray? || t.ArrayText? || t.ObjectText?
  {
  }
}
