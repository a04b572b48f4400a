/**
 What the reader accepts: every document that parses without an error is a text of the extended
 grammar, perhaps with something behind it, and parses to what this text means.
 */
module JsonAccepted {
  import opened Maybe
  import opened Words
  import opened JsonValue
  import opened JsonText
  import opened JsonLexer
  import opened JsonDecode
  import opened JsonParser
  import opened JsonSteps
  import G = JsonGrammar
  import L = JsonLocality
  import R = JsonReading
  import X = JsonExtended

  /** The document reads w from position p to q. */
  predicate Span(doc: Bytes, p: nat, q: nat, w: Bytes) {
    p <= q <= |doc| && doc[p..q] == w
  }

  lemma Join(doc: Bytes, p: nat, q: nat, r: nat, u: Bytes, w: Bytes)
    requires Span(doc, p, q, u) && Span(doc, q, r, w)
    ensures Span(doc, p, r, u + w)
  {
    assert doc[p..r] == doc[p..q] + doc[q..r];
  }

  lemma One(doc: Bytes, p: nat)
    requires p < |doc|
    ensures Span(doc, p, p + 1, [doc[p]])
  {
  }

  // ------------------------------------------------------------------------- fillers

  lemma {:induction false} BlanksOf(doc: Bytes, p: nat) returns (gap: seq<X.Piece>)
    requires p <= |doc|
    ensures X.ProperFiller(gap) && X.Bare(gap) && Span(doc, p, SkipSpaces(doc, p), X.FillerText(gap))
    decreases |doc| - p
  {
    if p < |doc| && IsSpace(doc[p]) {
      var rest := BlanksOf(doc, p + 1);
      gap := [X.Blank(doc[p])] + rest;
      assert gap[1..] == rest;
      One(doc, p);
      Join(doc, p, p + 1, SkipSpaces(doc, p), [doc[p]], X.FillerText(rest));
    } else {
      gap := [];
    }
  }

  lemma {:induction false} AppendFiller(a: seq<X.Piece>, b: seq<X.Piece>)
    ensures X.FillerText(a + b) == X.FillerText(a) + X.FillerText(b)
    ensures X.ProperFiller(a) && X.ProperFiller(b) ==> X.ProperFiller(a + b)
    ensures !X.Bare(a) || !X.Bare(b) ==> !X.Bare(a + b)
  {
    if a == [] {
      assert a + b == b;
    } else {
      assert (a + b)[1..] == a[1..] + b;
      AppendFiller(a[1..], b);
      NotBare(a, b);
    }
  }

  lemma NotBare(a: seq<X.Piece>, b: seq<X.Piece>)
    ensures !X.Bare(a) || !X.Bare(b) ==> !X.Bare(a + b)
  {
    if X.Bare(a + b) {
      assert forall i :: 0 <= i < |a| ==> a[i] == (a + b)[i];
      assert forall i :: 0 <= i < |b| ==> b[i] == (a + b)[|a| + i];
    }
  }

  /** A block comment ends at the first star that a slash follows. */
  lemma {:induction false} BlockOf(doc: Bytes, p: nat)
    requires p <= |doc| && ScanCStyleComment(doc, p).ok
    ensures var e := ScanCStyleComment(doc, p).end;
            && p + 2 <= e && Span(doc, e - 2, e, [STAR, SLASH])
            && forall i :: p <= i < e - 2 ==> !(doc[i] == STAR && doc[i + 1] == SLASH)
    decreases |doc| - p
  {
    if !(doc[p] == STAR && Peek(doc, p + 1) == SLASH) {
      BlockOf(doc, p + 1);
    }
  }

  /** A line comment ends at the first line feed or carriage return. */
  lemma {:induction false} LineOf(doc: Bytes, p: nat) returns (n: nat)
    requires p <= |doc| && ScanCppStyleComment(doc, p) < |doc|
    ensures var e := ScanCppStyleComment(doc, p);
            && p <= n <= e && (forall i :: p <= i < n ==> doc[i] != NEWLINE && doc[i] != RETURN)
            && (doc[n..e] == [NEWLINE] || doc[n..e] == [RETURN] || doc[n..e] == [RETURN, NEWLINE])
    decreases |doc| - p
  {
    if doc[p] == NEWLINE || doc[p] == RETURN {
      n := p;
    } else {
      n := LineOf(doc, p + 1);
    }
  }

  lemma CommentOf(doc: Bytes, s: nat) returns (c: X.Piece)
    requires s < |doc| && TokenAt(doc, s).kind == Comment && TokenAt(doc, s).end < |doc|
    ensures X.ProperPiece(c) && !c.Blank? && Span(doc, s, TokenAt(doc, s).end, X.PieceText(c))
  {
    CommentToken(doc, s);
    var e := ScanComment(doc, s + 1).end;
    if Peek(doc, s + 1) == STAR {
      BlockOf(doc, s + 2);
      var body := doc[s + 2..e - 2];
      c := X.Block(body);
      assert doc[s + 2..e] == body + [STAR, SLASH];
      assert forall i :: 0 <= i < |body| + 2 ==> (body + [STAR, SLASH])[i] == doc[s + 2 + i];
      assert Span(doc, s, s + 2, [SLASH, STAR]);
      Join(doc, s, s + 2, e, [SLASH, STAR], body + [STAR, SLASH]);
    } else {
      var n := LineOf(doc, s + 2);
      c := X.Line(doc[s + 2..n], doc[n..e]);
      assert Span(doc, s, s + 2, [SLASH, SLASH]);
      Join(doc, s + 2, n, e, doc[s + 2..n], doc[n..e]);
      Join(doc, s, s + 2, e, [SLASH, SLASH], doc[s + 2..n] + doc[n..e]);
    }
  }

  /** A comment starts with a slash, and goes on as its scanner says. */
  lemma CommentToken(doc: Bytes, s: nat)
    requires s < |doc| && TokenAt(doc, s).kind == Comment
    ensures doc[s] == SLASH && ScanComment(doc, s + 1).ok && TokenAt(doc, s).end == ScanComment(doc, s + 1).end
    ensures Peek(doc, s + 1) == STAR || Peek(doc, s + 1) == SLASH
  {
    hide ScanString, NumberEnd, ScanMatch, ScanCStyleComment, ScanCppStyleComment;
  }

  /** What stands before a token that is no comment. */
  lemma {:induction false} FillerOf(doc: Bytes, p: nat) returns (gap: seq<X.Piece>)
    requires p <= |doc| && SkipComments(doc, p).start < |doc|
    ensures X.ProperFiller(gap) && Span(doc, p, SkipComments(doc, p).start, X.FillerText(gap))
    ensures X.Bare(gap) <==> ReadToken(doc, p).kind != Comment
    decreases |doc| - p
  {
    hide TokenAt, X.FillerText, X.PieceText, X.ProperPiece;
    var t := ReadToken(doc, p);
    gap := BlanksOf(doc, p);
    if t.kind == Comment {
      var c := CommentOf(doc, t.start);
      var rest := FillerOf(doc, t.end);
      Cons(c, rest);
      AppendFiller(gap, [c] + rest);
      Join(doc, t.start, t.end, SkipComments(doc, p).start, X.PieceText(c), X.FillerText(rest));
      Join(doc, p, t.start, SkipComments(doc, p).start, X.FillerText(gap), X.FillerText([c] + rest));
      assert !X.Bare([c] + rest) by {
        assert ([c] + rest)[0] == c;
      }
      gap := gap + ([c] + rest);
    }
  }

  lemma Cons(c: X.Piece, rest: seq<X.Piece>)
    requires X.ProperPiece(c) && X.ProperFiller(rest)
    ensures X.ProperFiller([c] + rest) && X.FillerText([c] + rest) == X.PieceText(c) + X.FillerText(rest)
  {
    assert ([c] + rest)[1..] == rest;
  }

  /** What stands before a value, where comments depend on the settings. */
  lemma BeforeValue(f: Features, doc: Bytes, p: nat) returns (gap: seq<X.Piece>)
    requires p <= |doc| && FirstToken(f, doc, p).start < |doc|
    ensures X.Allowed(gap, f.allowComments) && Span(doc, p, FirstToken(f, doc, p).start, X.FillerText(gap))
  {
    hide SkipComments, X.FillerText, TokenAt;
    if f.allowComments {
      gap := FillerOf(doc, p);
    } else {
      gap := BlanksOf(doc, p);
    }
  }

  // ------------------------------------------------------------------------- strings

  /** Four digits that the decoder takes. */
  lemma HexOf(doc: Bytes, cur: nat, end: nat)
    requires cur <= end <= |doc| && UnicodeEscape(doc, cur, end).CodePoint?
    ensures cur + 4 <= end && G.FourHex(doc[cur..cur + 4])
    ensures UnicodeEscape(doc, cur, end) == CodePoint(G.HexNumber(doc[cur..cur + 4]), cur + 4)
  {
    hide HexValue, G.HexValue;
    var hex := doc[cur..cur + 4];
    HexDigitsValid(doc, cur, 4, 0);
    forall i | 0 <= i < 4 ensures G.HexValue(hex[i]).Some? {
      R.SameHex(doc[cur + i]);
      assert hex[i] == doc[cur + i];
    }
    assert Has(doc, cur, hex);
    R.HexInDocument(doc, cur, end, hex);
  }

  lemma {:induction false} HexDigitsValid(doc: Bytes, cur: nat, left: nat, acc: nat)
    requires left <= 4 && cur + left <= |doc| && acc < HexLimit(4 - left) && HexDigits(doc, cur, left, acc).CodePoint?
    ensures forall i :: cur <= i < cur + left ==> HexValue(doc[i]).Some?
    decreases left
  {
    if left > 0 {
      HexDigitsValid(doc, cur + 1, left - 1, 16 * acc + HexValue(doc[cur]).value);
    }
  }

  /** The scanner and the decoder step over a character together. */
  ghost predicate StepsOver(doc: Bytes, p: nat, e: nat, acc: Bytes, c: G.Char) {
    var q := p + |G.CharText(c)|;
    && X.ProperChar(c) && p < q < e <= |doc|
    && Span(doc, p, q, G.CharText(c)) && ScanString(doc, q) == Scan(true, e)
    && DecodeFrom(doc, p, e - 1, acc) == DecodeFrom(doc, q, e - 1, acc + X.CharMeaning(c))
  }

  lemma CharOf(doc: Bytes, p: nat, e: nat, acc: Bytes) returns (c: G.Char)
    requires p < e - 1 < |doc| && ScanString(doc, p) == Scan(true, e)
    requires DecodeFrom(doc, p, e - 1, acc).Decoded?
    ensures StepsOver(doc, p, e, acc, c)
  {
    hide *;
    ScanCases(doc, p, e);
    if doc[p] != BACKSLASH {
      c := G.Plain(doc[p]);
      PlainStep(doc, p, e, acc);
    } else if doc[p + 1] == 0x75 {
      c := EscapeOf(doc, p, e, acc);
    } else {
      c := G.Short(doc[p + 1]);
      ShortStep(doc, p, e, acc);
    }
  }

  lemma ScanCases(doc: Bytes, p: nat, e: nat)
    requires p < e - 1 < |doc| && ScanString(doc, p) == Scan(true, e)
    ensures doc[p] != QUOTE
    ensures doc[p] != BACKSLASH ==> ScanString(doc, p + 1) == Scan(true, e)
    ensures doc[p] == BACKSLASH ==> p + 2 < e && ScanString(doc, p + 2) == Scan(true, e)
  {
  }

  lemma PlainStep(doc: Bytes, p: nat, e: nat, acc: Bytes)
    requires p < e - 1 < |doc| && ScanString(doc, p + 1) == Scan(true, e) && doc[p] != QUOTE && doc[p] != BACKSLASH
    ensures StepsOver(doc, p, e, acc, G.Plain(doc[p]))
  {
    hide ScanString, DecodeCodePoint, CodePointToUtf8, SimpleEscape;
  }

  lemma ShortStep(doc: Bytes, p: nat, e: nat, acc: Bytes)
    requires p + 2 < e <= |doc| && ScanString(doc, p + 2) == Scan(true, e) && doc[p] == BACKSLASH && doc[p + 1] != 0x75
    requires DecodeFrom(doc, p, e - 1, acc).Decoded?
    ensures StepsOver(doc, p, e, acc, G.Short(doc[p + 1]))
  {
    hide ScanString, DecodeCodePoint, CodePointToUtf8, SimpleEscape;
    R.SameEscape(doc[p + 1]);
  }

  /** What the decoder makes of an escape. */
  lemma EscapeStep(doc: Bytes, p: nat, e: nat, acc: Bytes)
    requires p + 2 < e <= |doc| && doc[p] == BACKSLASH && doc[p + 1] == 0x75
    requires DecodeFrom(doc, p, e - 1, acc).Decoded?
    ensures var point := DecodeCodePoint(doc, p + 2, e - 1);
            && point.CodePoint? && p + 2 < point.next <= e - 1 && point.cp <= 0x10FFFF
            && DecodeFrom(doc, p, e - 1, acc) == DecodeFrom(doc, point.next, e - 1, acc + CodePointToUtf8(point.cp))
  {
    hide DecodeCodePoint, CodePointToUtf8, SimpleEscape;
  }

  lemma EscapeOf(doc: Bytes, p: nat, e: nat, acc: Bytes) returns (c: G.Char)
    requires p + 2 < e <= |doc| && doc[p] == BACKSLASH && doc[p + 1] == 0x75
    requires ScanString(doc, p) == Scan(true, e) && DecodeFrom(doc, p, e - 1, acc).Decoded?
    ensures StepsOver(doc, p, e, acc, c)
  {
    hide ScanString, DecodeFrom, UnicodeEscape, CodePointToUtf8, G.Utf8, G.FourHex, G.HexNumber;
    EscapeStep(doc, p, e, acc);
    HexOf(doc, p + 2, e - 1);
    var high := doc[p + 2..p + 6];
    assert Span(doc, p, p + 6, [BACKSLASH, 0x75] + high);
    R.ScanEscape(doc, p, high);
    if 0xD800 <= G.HexNumber(high) <= 0xDBFF {
      HexOf(doc, p + 8, e - 1);
      var low := doc[p + 8..p + 12];
      c := G.Pair(high, low);
      assert Span(doc, p + 6, p + 12, [BACKSLASH, 0x75] + low);
      R.ScanEscape(doc, p + 6, low);
      Join(doc, p, p + 6, p + 12, [BACKSLASH, 0x75] + high, [BACKSLASH, 0x75] + low);
      assert G.CharText(c) == ([BACKSLASH, 0x75] + high) + ([BACKSLASH, 0x75] + low);
      R.SurrogateNumber(G.HexNumber(high), G.HexNumber(low));
      R.SameUtf8(SurrogatePair(G.HexNumber(high), G.HexNumber(low)));
    } else {
      c := G.Unicode(high);
      R.SameUtf8(G.HexNumber(high));
    }
  }

  lemma {:induction false} CharsOf(doc: Bytes, p: nat, e: nat, acc: Bytes) returns (cs: seq<G.Char>)
    requires p <= |doc| && ScanString(doc, p) == Scan(true, e) && p <= e - 1
    requires DecodeFrom(doc, p, e - 1, acc).Decoded?
    ensures X.ProperChars(cs) && Span(doc, p, e - 1, G.CharsText(cs)) && doc[e - 1] == QUOTE
    ensures DecodeFrom(doc, p, e - 1, acc) == Decoded(acc + X.CharsMeaning(cs))
    decreases e - p
  {
    hide DecodeFrom, G.CharText, X.CharMeaning, X.ProperChar;
    if p == e - 1 {
      cs := [];
      ClosingQuote(doc, p);
      DecodeDone(doc, p, acc);
    } else {
      var c := CharOf(doc, p, e, acc);
      var q := p + |G.CharText(c)|;
      var rest := CharsOf(doc, q, e, acc + X.CharMeaning(c));
      cs := [c] + rest;
      assert cs[1..] == rest;
      Join(doc, p, q, e - 1, G.CharText(c), G.CharsText(rest));
      assert acc + X.CharMeaning(c) + X.CharsMeaning(rest) == acc + X.CharsMeaning(cs);
    }
  }

  lemma ClosingQuote(doc: Bytes, p: nat)
    requires p <= |doc| && ScanString(doc, p) == Scan(true, p + 1)
    ensures doc[p] == QUOTE
  {
  }

  lemma StringOf(doc: Bytes, s: nat) returns (cs: seq<G.Char>)
    requires s <= |doc| && TokenAt(doc, s).kind == StringToken && DecodeString(doc, TokenAt(doc, s)).Decoded?
    ensures X.ProperChars(cs) && Span(doc, s, TokenAt(doc, s).end, G.StringText(cs))
    ensures DecodeString(doc, TokenAt(doc, s)) == Decoded(X.CharsMeaning(cs))
  {
    hide ScanString, DecodeFrom, G.CharsText, X.CharsMeaning;
    StringTokenIs(doc, s);
    var e := TokenAt(doc, s).end;
    cs := CharsOf(doc, s + 1, e, []);
    assert [] + X.CharsMeaning(cs) == X.CharsMeaning(cs);
    One(doc, s);
    One(doc, e - 1);
    Join(doc, s, s + 1, e - 1, [QUOTE], G.CharsText(cs));
    Join(doc, s, e - 1, e, [QUOTE] + G.CharsText(cs), [QUOTE]);
  }

  lemma StringTokenIs(doc: Bytes, s: nat)
    requires s <= |doc| && TokenAt(doc, s).kind == StringToken
    ensures s < |doc| && doc[s] == QUOTE && ScanString(doc, s + 1) == Scan(true, TokenAt(doc, s).end)
    ensures s + 2 <= TokenAt(doc, s).end
  {
    hide ScanString, ScanComment, NumberEnd, ScanMatch;
  }

  // ------------------------------------------------------------------------- numbers

  lemma NumberOf(doc: Bytes, s: nat) returns (n: G.Numeral)
    requires s <= |doc| && TokenAt(doc, s).kind == NumberToken
    ensures X.ProperNumeral(n) && Span(doc, s, TokenAt(doc, s).end, G.NumeralText(n))
  {
    hide TokenAt, NumberEnd, SkipDigits, L.FractionEnd, L.ExponentEnd;
    NumberTokenIs(doc, s);
    var integral := SkipDigits(doc, s + 1);
    var fraction := L.FractionEnd(doc, integral);
    L.NumberEndIs(doc, s + 1);
    var minus := doc[s] == MINUS;
    var integer := IntegerOf(doc, s);
    var fractionPart := FractionOf(doc, integral);
    var exponentPart := ExponentOf(doc, fraction);
    n := G.Numeral(minus, integer, fractionPart, exponentPart);
    var sign := if minus then [MINUS] else [];
    Join(doc, s, integral, fraction, sign + integer, R.FractionText(n));
    Join(doc, s, fraction, L.ExponentEnd(doc, fraction), sign + integer + R.FractionText(n), R.ExponentText(n));
  }

  lemma IntegerOf(doc: Bytes, s: nat) returns (integer: Bytes)
    requires s < |doc| && (IsDigit(doc[s]) || doc[s] == MINUS)
    ensures AllDigits(integer) && (doc[s] != MINUS ==> integer != [])
    ensures Span(doc, s, SkipDigits(doc, s + 1), (if doc[s] == MINUS then [MINUS] else []) + integer)
  {
    hide SkipDigits;
    var integral := SkipDigits(doc, s + 1);
    L.DigitsRun(doc, s + 1);
    if doc[s] == MINUS {
      integer := doc[s + 1..integral];
      One(doc, s);
      Join(doc, s, s + 1, integral, [MINUS], integer);
    } else {
      integer := doc[s..integral];
      assert [] + integer == integer;
    }
  }

  lemma NumberTokenIs(doc: Bytes, s: nat)
    requires s <= |doc| && TokenAt(doc, s).kind == NumberToken
    ensures s < |doc| && (IsDigit(doc[s]) || doc[s] == MINUS) && TokenAt(doc, s).end == NumberEnd(doc, s + 1)
  {
    hide ScanString, ScanComment, NumberEnd, ScanMatch;
  }

  lemma FractionOf(doc: Bytes, integral: nat) returns (fraction: Option<Bytes>)
    requires integral <= |doc|
    ensures fraction.Some? ==> AllDigits(fraction.value)
    ensures Span(doc, integral, L.FractionEnd(doc, integral), if fraction.Some? then [0x2E] + fraction.value else [])
  {
    hide SkipDigits;
    if Peek(doc, integral) == 0x2E {
      L.DigitsRun(doc, integral + 1);
      var digits := doc[integral + 1..SkipDigits(doc, integral + 1)];
      fraction := Some(digits);
      One(doc, integral);
      Join(doc, integral, integral + 1, L.FractionEnd(doc, integral), [0x2E], digits);
    } else {
      fraction := None;
    }
  }

  lemma ExponentOf(doc: Bytes, p: nat) returns (exponent: Option<G.Exponent>)
    requires p <= |doc|
    ensures exponent.Some? ==>
      var x := exponent.value;
      && (x.e == 0x65 || x.e == 0x45) && (x.sign == [] || x.sign == [0x2B] || x.sign == [MINUS]) && AllDigits(x.digits)
    ensures Span(doc, p, L.ExponentEnd(doc, p),
                 if exponent.Some? then [exponent.value.e] + exponent.value.sign + exponent.value.digits else [])
  {
    hide SkipDigits;
    if L.IsExponentMark(Peek(doc, p)) {
      var c := Peek(doc, p + 1);
      var from := if c == 0x2B || c == MINUS then p + 2 else p + 1;
      var e := L.ExponentEnd(doc, p);
      L.DigitsRun(doc, from);
      var sign, digits := doc[p + 1..from], doc[from..e];
      exponent := Some(G.Exponent(doc[p], sign, digits));
      One(doc, p);
      Join(doc, p, p + 1, from, [doc[p]], sign);
      Join(doc, p, from, e, [doc[p]] + sign, digits);
    } else {
      exponent := None;
    }
  }

  // ------------------------------------------------------------------------- lexemes

  lemma {:induction false} QuotedOf(doc: Bytes, p: nat)
    requires p <= |doc| && ScanString(doc, p).ok
    ensures p < ScanString(doc, p).end && X.Quoted(doc[p..ScanString(doc, p).end])
    decreases |doc| - p
  {
    var e := ScanString(doc, p).end;
    var w := doc[p..e];
    if doc[p] == BACKSLASH {
      QuotedOf(doc, Next(doc, p + 1));
      assert w[2..] == doc[p + 2..e];
    } else if doc[p] == QUOTE {
      assert w == [QUOTE];
    } else {
      QuotedOf(doc, p + 1);
      assert w[1..] == doc[p + 1..e];
    }
  }

  /** A token that something follows is a lexeme. */
  lemma LexemeOf(doc: Bytes, s: nat)
    requires s < |doc| && !IsSpace(doc[s]) && TokenAt(doc, s).kind != Comment && TokenAt(doc, s).end < |doc|
    ensures X.IsLexeme(doc[s..TokenAt(doc, s).end])
    ensures TokenAt(doc, s).kind != ObjectEnd ==> doc[s..TokenAt(doc, s).end] != [OBJECT_END]
  {
    hide ScanString, ScanCStyleComment, ScanCppStyleComment, NumberEnd, X.Quoted, G.NumeralText, X.ProperNumeral;
    var t := TokenAt(doc, s);
    var w := doc[s..t.end];
    var c := doc[s];
    if c == QUOTE {
      L.StringFails(doc, s + 1);
      QuotedOf(doc, s + 1);
      assert w[1..] == doc[s + 1..t.end];
    } else if c == SLASH {
      if Peek(doc, s + 1) == STAR {
        L.CStyleFails(doc, s + 2);
      }
    } else if IsDigit(c) || c == MINUS {
      var n := NumberOf(doc, s);
      assert G.NumeralText(n) == w;
    } else if c == 0x74 || c == 0x66 || c == 0x6E {
      var pattern := if c == 0x74 then RUE else if c == 0x66 then ALSE else ULL;
      L.MatchEnd(doc, s + 1, pattern);
      LiteralOf(doc, s, pattern);
    }
    assert w[0] == c;
  }

  lemma LiteralOf(doc: Bytes, s: nat, pattern: Bytes)
    requires s < |doc|
    ensures ScanMatch(doc, s + 1, pattern).ok ==> doc[s..s + 1 + |pattern|] == [doc[s]] + pattern
  {
  }

  // -------------------------------------------------------------------------- values

  /** A read that succeeded from position p on, and the text it read. */
  ghost predicate Derived(f: Features, doc: Bytes, s: State, r: Outcome, gap: seq<X.Piece>, t: X.Text) {
    && r.Returned? && X.Allowed(gap, f.allowComments) && X.Proper(t, f.allowComments, f.toDouble)
    && Span(doc, s.pos, r.state.pos, X.FillerText(gap) + X.Render(t))
    && r.value == X.Meaning(t, f.allowComments, f.toDouble)
    && s.depth + X.Depth(t) <= STACK_LIMIT && R.Ends(doc, r.state.pos, t)
  }

  ghost predicate DerivedElements(f: Features, doc: Bytes, s: State, items: seq<Value>, r: Outcome, es: X.Elements) {
    && r.Returned? && X.ProperElements(es, f.allowComments, f.toDouble)
    && Span(doc, s.pos, r.state.pos, X.ElementsText(es))
    && r.value == Array(items + X.ElementsMeaning(es, f.allowComments, f.toDouble))
    && s.depth + X.ElementsDepth(es) <= STACK_LIMIT
  }

  ghost predicate DerivedMembers(
      f: Features, doc: Bytes, s: State, done: seq<Member>, name: Bytes, r: Outcome, ms: X.Members)
  {
    && r.Returned? && X.ProperMembers(ms, name, f.allowComments, f.toDouble)
    && Span(doc, s.pos, r.state.pos, X.MembersText(ms))
    && r.value == Object(X.MembersMeaning(ms, done, name, f.allowComments, f.toDouble))
    && s.depth + X.MembersDepth(ms) <= STACK_LIMIT
  }

  predicate Succeeded(r: Outcome) {
    r.Returned? && r.ok
  }

  /** Every value that is read is a text of the extended grammar, behind a filler. */
  lemma {:induction false} ValueOf(f: Features, doc: Bytes, s: State, held: Value)
    returns (gap: seq<X.Piece>, t: X.Text)
    requires s.pos <= |doc| && Succeeded(ReadValue(f, doc, s, held))
    ensures Derived(f, doc, s, ReadValue(f, doc, s, held), gap, t)
    decreases |doc| - s.pos, 0
  {
    hide *;
    var token := FirstToken(f, doc, s.pos);
    var inner := State(token.end, s.depth + 1, s.errors);
    ValueCases(f, doc, s, held);
    gap := BeforeValue(f, doc, s.pos);
    if token.kind == ObjectBegin {
      var ms := MembersOf(f, doc, inner, [], []);
      t := X.ObjectText(ms);
      ObjectDerived(f, doc, s, held, gap, ms);
    } else if token.kind == ArrayBegin {
      t := ArrayOf(f, doc, inner);
      ArrayDerived(f, doc, s, held, gap, t);
    } else {
      t := ScalarOf(f, doc, s, held);
      ScalarDerived(f, doc, s, held, gap, t);
    }
  }

  /** How a successful read unfolds. */
  lemma ValueCases(f: Features, doc: Bytes, s: State, held: Value)
    requires s.pos <= |doc| && Succeeded(ReadValue(f, doc, s, held))
    ensures var t := FirstToken(f, doc, s.pos);
            var inner := State(t.end, s.depth + 1, s.errors);
            var r := ReadValue(f, doc, s, held);
            && s.depth < STACK_LIMIT && t.start < t.end && t.start < |doc|
            && (t.kind == ObjectBegin ==>
                  var m := ReadMembers(f, doc, inner, [], []);
                  Succeeded(m) && m.state.pos == r.state.pos && m.value == r.value)
            && (t.kind == ArrayBegin ==>
                  var a := ReadArray(f, doc, inner);
                  Succeeded(a) && a.state.pos == r.state.pos && a.value == r.value)
            && (t.kind != ObjectBegin && t.kind != ArrayBegin ==>
                  && r == ReadScalar(f, doc, inner, t, held) && r.state.pos == t.end
                  && t.kind in {NumberToken, StringToken, TrueToken, FalseToken, NullToken})
  {
    hide FirstToken, ReadArray, ReadMembers, DecodeNumber, DecodeString;
  }

  // ------------------------------------------------------------------------- scalars

  lemma FirstTokenIs(f: Features, doc: Bytes, p: nat)
    requires p <= |doc|
    ensures FirstToken(f, doc, p) == TokenAt(doc, FirstToken(f, doc, p).start)
  {
    hide SkipComments, ReadToken, TokenAt;
    L.NumberTokens(doc, p);
  }

  lemma ScalarOf(f: Features, doc: Bytes, s: State, held: Value) returns (t: X.Text)
    requires s.pos <= |doc| && Succeeded(ReadValue(f, doc, s, held))
    requires var k := FirstToken(f, doc, s.pos).kind; k != ObjectBegin && k != ArrayBegin
    ensures X.Proper(t, f.allowComments, f.toDouble) && X.Depth(t) == 1
    ensures Span(doc, FirstToken(f, doc, s.pos).start, ReadValue(f, doc, s, held).state.pos, X.Render(t))
    ensures ReadValue(f, doc, s, held).value == X.Meaning(t, f.allowComments, f.toDouble)
    ensures R.Ends(doc, ReadValue(f, doc, s, held).state.pos, t)
  {
    hide *;
    ValueCases(f, doc, s, held);
    FirstTokenIs(f, doc, s.pos);
    var token := FirstToken(f, doc, s.pos);
    var inner := State(token.end, s.depth + 1, s.errors);
    SucceededIs(ReadValue(f, doc, s, held));
    ScalarCases(f, doc, inner, token, held);
    if token.kind == NumberToken {
      var n := NumberOf(doc, token.start);
      SpanIs(doc, token.start, token.end, G.NumeralText(n));
      R.NumeralDecodes(n, f.toDouble);
      t := X.NumberText(n);
      NumberTextIs(n, f.allowComments, f.toDouble);
      NumberSettled(doc, token.start, n);
    } else if token.kind == StringToken {
      var cs := StringOf(doc, token.start);
      t := X.StringText(cs);
      StringTextIs(cs, f.allowComments, f.toDouble);
    } else {
      t := if token.kind == NullToken then X.NullText else X.BoolText(token.kind == TrueToken);
      LiteralIs(doc, token.start, f.allowComments, f.toDouble);
    }
    R.EndsWhen(doc, token.end, t);
  }

  /** Nothing behind a number token continues it. */
  lemma NumberSettled(doc: Bytes, s: nat, n: G.Numeral)
    requires s <= |doc| && TokenAt(doc, s).kind == NumberToken
    requires Span(doc, s, TokenAt(doc, s).end, G.NumeralText(n))
    ensures R.Settled(n, Peek(doc, TokenAt(doc, s).end))
  {
    hide TokenAt, NumberEnd, G.NumeralText, L.Continues;
    NumberTokenIs(doc, s);
    var k := TokenAt(doc, s).end;
    L.NumberEndsAt(doc, doc, k, s + 1);
    assert doc[s..k][1..] == doc[s + 1..k];
  }

  lemma SucceededIs(r: Outcome)
    ensures Succeeded(r) <==> r.Returned? && r.ok
  {
  }

  lemma SpanIs(doc: Bytes, p: nat, q: nat, w: Bytes)
    requires Span(doc, p, q, w)
    ensures p <= q <= |doc| && doc[p..q] == w
  {
  }

  lemma ScalarCases(f: Features, doc: Bytes, inner: State, t: Token, held: Value)
    requires ReadScalar.requires(f, doc, inner, t, held)
    requires ReadScalar(f, doc, inner, t, held).Returned? && ReadScalar(f, doc, inner, t, held).ok
    requires t.start < t.end
    ensures var v := ReadScalar(f, doc, inner, t, held).value;
            && (t.kind == NumberToken ==> DecodeNumber(doc[t.start..t.end], f.toDouble) == Some(v))
            && (t.kind == StringToken ==> DecodeString(doc, t).Decoded? && v == Str(DecodeString(doc, t).text))
            && (t.kind == TrueToken ==> v == Bool(true)) && (t.kind == FalseToken ==> v == Bool(false))
            && (t.kind == NullToken ==> v == Null)
  {
    hide DecodeNumber, DecodeString;
  }

  lemma NumberTextIs(n: G.Numeral, comments: bool, toDouble: Bytes -> Option<Double>)
    requires X.ProperNumeral(n) && G.NumeralMeaning(n, toDouble).Some?
    ensures var t := X.NumberText(n);
            && X.Proper(t, comments, toDouble) && X.Depth(t) == 1 && X.Render(t) == G.NumeralText(n)
            && X.Meaning(t, comments, toDouble) == G.NumeralMeaning(n, toDouble).value
  {
    hide G.NumeralText, X.ProperNumeral;
  }

  lemma StringTextIs(cs: seq<G.Char>, comments: bool, toDouble: Bytes -> Option<Double>)
    requires X.ProperChars(cs)
    ensures var t := X.StringText(cs);
            && X.Proper(t, comments, toDouble) && X.Depth(t) == 1 && X.Render(t) == G.StringText(cs)
            && X.Meaning(t, comments, toDouble) == Str(X.CharsMeaning(cs))
  {
    hide G.StringText, X.CharsMeaning, X.ProperChars;
  }

  lemma LiteralIs(doc: Bytes, s: nat, comments: bool, toDouble: Bytes -> Option<Double>)
    requires s <= |doc| && TokenAt(doc, s).kind in {TrueToken, FalseToken, NullToken}
    ensures var k := TokenAt(doc, s).kind;
            var t := if k == NullToken then X.NullText else X.BoolText(k == TrueToken);
            && Span(doc, s, TokenAt(doc, s).end, X.Render(t)) && X.Depth(t) == 1
            && X.Proper(t, comments, toDouble)
            && X.Meaning(t, comments, toDouble) == if k == NullToken then Null else Bool(k == TrueToken)
  {
    hide ScanString, ScanComment, NumberEnd;
    var c := doc[s];
    var pattern := if c == 0x74 then RUE else if c == 0x66 then ALSE else ULL;
    LiteralOf(doc, s, pattern);
    L.MatchEnd(doc, s + 1, pattern);
  }

  lemma ScalarDerived(f: Features, doc: Bytes, s: State, held: Value, gap: seq<X.Piece>, t: X.Text)
    requires s.pos <= |doc| && Succeeded(ReadValue(f, doc, s, held)) && s.depth < STACK_LIMIT
    requires X.Proper(t, f.allowComments, f.toDouble) && X.Depth(t) == 1
    requires X.Allowed(gap, f.allowComments)
    requires Span(doc, s.pos, FirstToken(f, doc, s.pos).start, X.FillerText(gap))
    requires Span(doc, FirstToken(f, doc, s.pos).start, ReadValue(f, doc, s, held).state.pos, X.Render(t))
    requires ReadValue(f, doc, s, held).value == X.Meaning(t, f.allowComments, f.toDouble)
    requires R.Ends(doc, ReadValue(f, doc, s, held).state.pos, t)
    ensures Derived(f, doc, s, ReadValue(f, doc, s, held), gap, t)
  {
    hide ReadValue, FirstToken, X.Proper, X.Render, X.Meaning, X.Depth, X.FillerText, Span, X.Allowed;
    Join(doc, s.pos, FirstToken(f, doc, s.pos).start, ReadValue(f, doc, s, held).state.pos,
         X.FillerText(gap), X.Render(t));
  }

  // -------------------------------------------------------------------------- arrays

  lemma ArrayOf(f: Features, doc: Bytes, s: State) returns (t: X.Text)
    requires s.pos <= |doc| && s.depth <= STACK_LIMIT && Succeeded(ReadArray(f, doc, s))
    ensures DerivedArray(f, doc, s, ReadArray(f, doc, s), t)
    decreases |doc| - s.pos, 2
  {
    hide *;
    var p := SkipSpaces(doc, s.pos);
    ArrayCases(f, doc, s);
    var gap := BlanksOf(doc, s.pos);
    if Peek(doc, p) == ARRAY_END {
      t := X.EmptyArray(gap);
      EmptyDerived(f, doc, s, gap);
    } else {
      var es := ItemsOf(f, doc, s.(pos := p), []);
      t := WithBlanks(f, doc, s, gap, es);
    }
  }

  /** What the body of an array derives, behind its opening bracket. */
  ghost predicate DerivedArray(f: Features, doc: Bytes, s: State, r: Outcome, t: X.Text) {
    && r.Returned? && X.Proper(t, f.allowComments, f.toDouble)
    && Span(doc, s.pos, r.state.pos, BodyText(t)) && X.Render(t) == [ARRAY_BEGIN] + BodyText(t)
    && r.value == X.Meaning(t, f.allowComments, f.toDouble)
    && s.depth + X.Depth(t) <= 1 + STACK_LIMIT && !t.NumberText?
  }

  function BodyText(t: X.Text): Bytes {
    match t
    case EmptyArray(gap) => X.FillerText(gap) + [ARRAY_END]
    case ArrayText(es) => X.ElementsText(es)
    case _ => []
  }

  lemma ArrayCases(f: Features, doc: Bytes, s: State)
    requires s.pos <= |doc| && Succeeded(ReadArray(f, doc, s))
    ensures var p := SkipSpaces(doc, s.pos);
            var r := ReadArray(f, doc, s);
            && (Peek(doc, p) == ARRAY_END ==>
                  p < |doc| && doc[p] == ARRAY_END && r.state.pos == p + 1 && r.value == Array([]))
            && (Peek(doc, p) != ARRAY_END ==> Succeeded(r) && r == ReadItems(f, doc, s.(pos := p), []))
  {
    hide ReadItems, SkipSpaces, TokenAt;
    var p := SkipSpaces(doc, s.pos);
    L.SpacesTwice(doc, s.pos);
    if Peek(doc, p) == ARRAY_END {
      L.ClosingToken(doc, p);
    }
  }

  lemma EmptyDerived(f: Features, doc: Bytes, s: State, gap: seq<X.Piece>)
    requires s.pos <= |doc| && s.depth <= STACK_LIMIT && Succeeded(ReadArray(f, doc, s))
    requires var p := SkipSpaces(doc, s.pos);
             && Peek(doc, p) == ARRAY_END && p < |doc| && doc[p] == ARRAY_END
             && Span(doc, s.pos, p, X.FillerText(gap)) && ReadArray(f, doc, s).state.pos == p + 1
             && ReadArray(f, doc, s).value == Array([])
    requires X.ProperFiller(gap) && X.Bare(gap)
    ensures DerivedArray(f, doc, s, ReadArray(f, doc, s), X.EmptyArray(gap))
  {
    hide ReadArray, SkipSpaces, X.FillerText, X.ProperFiller, X.Bare;
    var p := SkipSpaces(doc, s.pos);
    One(doc, p);
    Join(doc, s.pos, p, p + 1, X.FillerText(gap), [ARRAY_END]);
  }

  /** The white space behind the bracket belongs to the first element. */
  lemma WithBlanks(f: Features, doc: Bytes, s: State, gap: seq<X.Piece>, es: X.Elements) returns (t: X.Text)
    requires s.pos <= |doc| && X.ProperFiller(gap) && X.Bare(gap)
    requires var p := SkipSpaces(doc, s.pos);
             && Span(doc, s.pos, p, X.FillerText(gap))
             && ReadArray(f, doc, s) == ReadItems(f, doc, s.(pos := p), [])
             && DerivedElements(f, doc, s.(pos := p), [], ReadArray(f, doc, s), es)
    ensures DerivedArray(f, doc, s, ReadArray(f, doc, s), t)
  {
    hide ReadArray, ReadItems, SkipSpaces, X.FillerText, X.ProperFiller, X.Bare, X.Render;
    var e := es.element;
    var first := e.(before := gap + e.before);
    var all := if es.LastElement? then X.LastElement(first) else X.MoreElements(first, es.rest);
    t := X.ArrayText(all);
    FirstElement(gap, es, f.allowComments, f.toDouble);
    var p := SkipSpaces(doc, s.pos);
    Join(doc, s.pos, p, ReadArray(f, doc, s).state.pos, X.FillerText(gap), X.ElementsText(es));
    var meaning := X.ElementsMeaning(es, f.allowComments, f.toDouble);
    assert [] + meaning == meaning;
    ArrayTextIs(all, f.allowComments, f.toDouble);
  }

  lemma ArrayTextIs(es: X.Elements, comments: bool, toDouble: Bytes -> Option<Double>)
    requires X.ProperElements(es, comments, toDouble)
    ensures var t := X.ArrayText(es);
            && X.Proper(t, comments, toDouble) && X.Render(t) == [ARRAY_BEGIN] + X.ElementsText(es)
            && X.Meaning(t, comments, toDouble) == Array(X.ElementsMeaning(es, comments, toDouble))
            && X.Depth(t) == 1 + X.ElementsDepth(es)
  {
    hide X.ProperElements, X.ElementsText, X.ElementsMeaning, X.ElementsDepth;
  }

  lemma FirstElement(gap: seq<X.Piece>, es: X.Elements, comments: bool, toDouble: Bytes -> Option<Double>)
    requires X.ProperFiller(gap) && X.Bare(gap) && X.ProperElements(es, comments, toDouble)
    ensures var first := es.element.(before := gap + es.element.before);
            var all := if es.LastElement? then X.LastElement(first) else X.MoreElements(first, es.rest);
            && X.ProperElements(all, comments, toDouble)
            && X.ElementsText(all) == X.FillerText(gap) + X.ElementsText(es)
            && X.ElementsMeaning(all, comments, toDouble) == X.ElementsMeaning(es, comments, toDouble)
            && X.ElementsDepth(all) == X.ElementsDepth(es)
  {
    hide X.FillerText, X.ProperFiller, X.Proper, X.Render, X.Meaning, X.Depth;
    var e := es.element;
    assert X.ProperElement(e, comments, toDouble);
    AppendFiller(gap, e.before);
    assert X.Bare(e.before) ==> X.Bare(gap + e.before);
    assert X.ProperElement(e.(before := gap + e.before), comments, toDouble);
    assert X.ElementText(e.(before := gap + e.before)) == X.FillerText(gap) + X.ElementText(e);
  }

  lemma {:induction false} ItemsOf(f: Features, doc: Bytes, s: State, items: seq<Value>) returns (es: X.Elements)
    requires s.pos <= |doc| && Succeeded(ReadItems(f, doc, s, items))
    ensures DerivedElements(f, doc, s, items, ReadItems(f, doc, s, items), es)
    decreases |doc| - s.pos, 1
  {
    hide *;
    ItemsCases(f, doc, s, items);
    var r := ReadValue(f, doc, s, Null);
    var t := SkipComments(doc, r.state.pos);
    var gap, text := ValueOf(f, doc, s, Null);
    var after := FillerOf(doc, r.state.pos);
    var e := X.Element(gap, text, after);
    ElementDerived(f, doc, s, r, gap, text, after);
    if t.kind == ArrayEnd {
      es := X.LastElement(e);
      LastDerived(f, doc, s, items, e, r, t);
    } else {
      var rest := ItemsOf(f, doc, r.state.(pos := t.end), items + [r.value]);
      es := X.MoreElements(e, rest);
      MoreDerived(f, doc, s, items, e, r, t, rest);
    }
  }

  lemma ItemsCases(f: Features, doc: Bytes, s: State, items: seq<Value>)
    requires s.pos <= |doc| && Succeeded(ReadItems(f, doc, s, items))
    ensures var r := ReadValue(f, doc, s, Null);
            && Succeeded(r) && r.Returned? && r.state.pos <= |doc| && r.state.depth == s.depth
            && var t := SkipComments(doc, r.state.pos);
               && t.start < |doc| && t.start + 1 == t.end
               && doc[t.start] == (if t.kind == ArrayEnd then ARRAY_END else COMMA)
               && s.pos < t.end <= |doc|
               && (t.kind == ArrayEnd || t.kind == ArraySeparator)
               && (t.kind == ArrayEnd ==>
                     ReadItems(f, doc, s, items) == Returned(true, r.state.(pos := t.end), Array(items + [r.value])))
               && (t.kind == ArraySeparator ==>
                     && ReadItems(f, doc, s, items) == ReadItems(f, doc, r.state.(pos := t.end), items + [r.value])
                     && Succeeded(ReadItems(f, doc, r.state.(pos := t.end), items + [r.value])))
  {
    hide ReadValue, SkipComments;
    var r := ReadValue(f, doc, s, Null);
    var t := SkipComments(doc, r.state.pos);
    SimpleToken(doc, r.state.pos);
  }

  /** The tokens that are one byte. */
  lemma SimpleToken(doc: Bytes, p: nat)
    requires p <= |doc|
    ensures var t := SkipComments(doc, p);
            && t == TokenAt(doc, t.start)
            && (t.kind == ArrayEnd ==> t.start < |doc| && doc[t.start] == ARRAY_END && t.end == t.start + 1)
            && (t.kind == ArraySeparator ==> t.start < |doc| && doc[t.start] == COMMA && t.end == t.start + 1)
            && (t.kind == ObjectEnd ==> t.start < |doc| && doc[t.start] == OBJECT_END && t.end == t.start + 1)
    ensures var t := ReadToken(doc, p);
            && t == TokenAt(doc, t.start)
            && (t.kind == MemberSeparator ==> t.start < |doc| && doc[t.start] == COLON && t.end == t.start + 1)
  {
    hide TokenAt, SkipComments, ReadToken;
    L.NumberTokens(doc, p);
    ByteToken(doc, SkipComments(doc, p).start);
    ByteToken(doc, ReadToken(doc, p).start);
  }

  lemma ByteToken(doc: Bytes, s: nat)
    requires s <= |doc|
    ensures var t := TokenAt(doc, s);
            && (t.kind == ArrayEnd ==> s < |doc| && doc[s] == ARRAY_END && t.end == s + 1)
            && (t.kind == ArraySeparator ==> s < |doc| && doc[s] == COMMA && t.end == s + 1)
            && (t.kind == ObjectEnd ==> s < |doc| && doc[s] == OBJECT_END && t.end == s + 1)
            && (t.kind == MemberSeparator ==> s < |doc| && doc[s] == COLON && t.end == s + 1)
  {
    hide ScanString, ScanComment, NumberEnd, ScanMatch;
  }

  /** An element with what follows it. */
  ghost predicate ElementAt(f: Features, doc: Bytes, s: State, r: Outcome, e: X.Element, q: nat) {
    && r.Returned? && X.ProperElement(e, f.allowComments, f.toDouble)
    && X.Proper(e.text, f.allowComments, f.toDouble)
    && Span(doc, s.pos, q, X.ElementText(e)) && r.value == X.Meaning(e.text, f.allowComments, f.toDouble)
    && s.depth + X.Depth(e.text) <= STACK_LIMIT
  }

  lemma ElementDerived(
      f: Features, doc: Bytes, s: State, r: Outcome, gap: seq<X.Piece>, text: X.Text, after: seq<X.Piece>)
    requires Derived(f, doc, s, r, gap, text) && X.ProperFiller(after) && r.state.pos <= |doc|
    requires Span(doc, r.state.pos, SkipComments(doc, r.state.pos).start, X.FillerText(after))
    ensures ElementAt(f, doc, s, r, X.Element(gap, text, after), SkipComments(doc, r.state.pos).start)
  {
    hide SkipComments, X.Proper, X.Render, X.Meaning, X.Depth, X.FillerText, X.Allowed, X.ProperFiller, Span;
    var q := SkipComments(doc, r.state.pos).start;
    Join(doc, s.pos, r.state.pos, q, X.FillerText(gap) + X.Render(text), X.FillerText(after));
    assert X.FillerText(gap) + X.Render(text) + X.FillerText(after)
        == X.FillerText(gap) + (X.Render(text) + X.FillerText(after));
  }

  lemma LastDerived(f: Features, doc: Bytes, s: State, items: seq<Value>, e: X.Element, r: Outcome, t: Token)
    requires r.Returned? && ElementAt(f, doc, s, r, e, t.start) && t.end == t.start + 1 && t.start < |doc|
    requires doc[t.start] == ARRAY_END
    ensures DerivedElements(f, doc, s, items, Returned(true, r.state.(pos := t.end), Array(items + [r.value])),
                            X.LastElement(e))
  {
    hide X.Proper, X.ElementText, X.Meaning, X.Depth, X.ProperElement, Span;
    One(doc, t.start);
    Join(doc, s.pos, t.start, t.end, X.ElementText(e), [ARRAY_END]);
  }

  lemma MoreDerived(
      f: Features, doc: Bytes, s: State, items: seq<Value>, e: X.Element, r: Outcome, t: Token, rest: X.Elements)
    requires r.Returned? && ElementAt(f, doc, s, r, e, t.start) && t.end == t.start + 1 && t.start < |doc|
    requires doc[t.start] == COMMA && r.state.depth == s.depth && s.pos <= |doc|
    requires ReadItems(f, doc, s, items) == ReadItems(f, doc, r.state.(pos := t.end), items + [r.value])
    requires DerivedElements(f, doc, r.state.(pos := t.end), items + [r.value],
                             ReadItems(f, doc, r.state.(pos := t.end), items + [r.value]), rest)
    ensures DerivedElements(f, doc, s, items, ReadItems(f, doc, s, items), X.MoreElements(e, rest))
  {
    hide ReadItems, X.Proper, X.ElementText, X.Meaning, X.Depth, X.ProperElement, Span;
    var end := ReadItems(f, doc, s, items).state.pos;
    One(doc, t.start);
    Join(doc, t.start, t.end, end, [COMMA], X.ElementsText(rest));
    Join(doc, s.pos, t.start, end, X.ElementText(e), [COMMA] + X.ElementsText(rest));
    var more := X.ElementsMeaning(rest, f.allowComments, f.toDouble);
    assert items + [r.value] + more == items + ([r.value] + more);
  }

  lemma ArrayDerived(f: Features, doc: Bytes, s: State, held: Value, gap: seq<X.Piece>, t: X.Text)
    requires s.pos <= |doc| && Succeeded(ReadValue(f, doc, s, held)) && X.Allowed(gap, f.allowComments)
    requires var token := FirstToken(f, doc, s.pos);
             var inner := State(token.end, s.depth + 1, s.errors);
             && token.kind == ArrayBegin && Span(doc, s.pos, token.start, X.FillerText(gap))
             && DerivedArray(f, doc, inner, ReadArray(f, doc, inner), t)
    ensures Derived(f, doc, s, ReadValue(f, doc, s, held), gap, t)
  {
    hide ReadArray, FirstToken, ReadValue, X.Proper, X.Render, X.Meaning, X.Depth, X.FillerText, X.Allowed;
    hide BodyText, Span;
    var token := FirstToken(f, doc, s.pos);
    ValueCases(f, doc, s, held);
    FirstTokenIs(f, doc, s.pos);
    OpeningByte(doc, token.start);
    var end := ReadValue(f, doc, s, held).state.pos;
    One(doc, token.start);
    Join(doc, token.start, token.end, end, [ARRAY_BEGIN], BodyText(t));
    Join(doc, s.pos, token.start, end, X.FillerText(gap), X.Render(t));
  }

  lemma OpeningByte(doc: Bytes, s: nat)
    requires s <= |doc|
    ensures var t := TokenAt(doc, s);
            && (t.kind == ArrayBegin ==> s < |doc| && doc[s] == ARRAY_BEGIN && t.end == s + 1)
            && (t.kind == ObjectBegin ==> s < |doc| && doc[s] == OBJECT_BEGIN && t.end == s + 1)
  {
    hide ScanString, ScanComment, NumberEnd, ScanMatch;
  }

  // ------------------------------------------------------------------------- objects

  lemma {:induction false} MembersOf(f: Features, doc: Bytes, s: State, done: seq<Member>, name: Bytes)
    returns (ms: X.Members)
    requires s.pos <= |doc| && s.depth <= STACK_LIMIT && Succeeded(ReadMembers(f, doc, s, done, name))
    ensures DerivedMembers(f, doc, s, done, name, ReadMembers(f, doc, s, done, name), ms)
    decreases |doc| - s.pos, 1
  {
    hide *;
    MembersCases(f, doc, s, done, name);
    var t := SkipComments(doc, s.pos);
    var before := FillerOf(doc, s.pos);
    SimpleToken(doc, s.pos);
    if t.kind == ObjectEnd {
      ms := X.NoMember(before);
      NoneDerived(f, doc, s, done, name, before);
    } else {
      var key := DecodeString(doc, t).text;
      var colon := ReadToken(doc, t.end);
      var v := ReadValue(f, doc, s.(pos := colon.end), Find(done, key));
      var extended := Put(done, key, v.value);
      var chars := StringOf(doc, t.start);
      var beforeColon := BlanksOf(doc, t.end);
      var afterColon, text := ValueOf(f, doc, s.(pos := colon.end), Find(done, key));
      AfterCases(f, doc, v.state, extended, key);
      var last := SkipComments(doc, v.state.pos);
      var after := FillerOf(doc, v.state.pos);
      var e := X.Entry(before, chars, beforeColon, afterColon, text, after);
      EntryDerived(f, doc, s, key, v, e);
      SimpleToken(doc, v.state.pos);
      if last.kind == ObjectEnd {
        ms := X.LastMember(e);
        LastMemberDerived(f, doc, s, done, name, key, v, e, last);
      } else {
        var separator := doc[last.start..last.end];
        SeparatorOf(doc, v.state.pos, after);
        var rest := MembersOf(f, doc, v.state.(pos := last.end), extended, key);
        ms := X.MoreMembers(e, separator, rest);
        MoreMembersDerived(f, doc, s, done, name, key, v, e, last, rest);
      }
    }
  }

  /** How a successful read of members unfolds. */
  lemma MembersCases(f: Features, doc: Bytes, s: State, done: seq<Member>, name: Bytes)
    requires s.pos <= |doc| && Succeeded(ReadMembers(f, doc, s, done, name))
    ensures var t := SkipComments(doc, s.pos);
            var r := ReadMembers(f, doc, s, done, name);
            && t.start < |doc| && (t.kind == ObjectEnd || t.kind == StringToken)
            && (t.kind == ObjectEnd ==> name == [] && r == Returned(true, s.(pos := t.end), Object(done)))
            && (t.kind == StringToken ==>
                  && DecodeString(doc, t).Decoded?
                  && var key, colon := DecodeString(doc, t).text, ReadToken(doc, t.end);
                     && colon.kind == MemberSeparator && s.pos < colon.end <= |doc|
                     && var v := ReadValue(f, doc, s.(pos := colon.end), Find(done, key));
                        && Succeeded(v) && v.Returned? && colon.end <= v.state.pos <= |doc| && v.state.depth == s.depth
                        && r == AfterMember(f, doc, v.state, Put(done, key, v.value), key) && Succeeded(r))
  {
    hide SkipComments, ReadToken, DecodeString, ReadValue, AfterMember, Find, Put;
  }

  lemma AfterCases(f: Features, doc: Bytes, s: State, members: seq<Member>, name: Bytes)
    requires s.pos <= |doc| && Succeeded(AfterMember(f, doc, s, members, name))
    ensures var last := SkipComments(doc, s.pos);
            var r := AfterMember(f, doc, s, members, name);
            && last.start < |doc| && last.kind != Comment && s.pos < last.end
            && (last.kind == ObjectEnd ==> r == Returned(true, s.(pos := last.end), Object(members)))
            && (last.kind != ObjectEnd ==>
                  && last.end < |doc| && (last.kind == ArraySeparator || ReadToken(doc, s.pos).kind == Comment)
                  && r == ReadMembers(f, doc, s.(pos := last.end), members, name) && Succeeded(r))
  {
    hide ReadMembers, ReadToken;
    var last := SkipComments(doc, s.pos);
    if last.kind != ObjectEnd {
      L.MembersStart(f, doc, s.(pos := last.end), members, name);
    }
  }

  lemma NoneDerived(f: Features, doc: Bytes, s: State, done: seq<Member>, name: Bytes, gap: seq<X.Piece>)
    requires s.pos <= |doc| && s.depth <= STACK_LIMIT && X.ProperFiller(gap) && name == []
    requires var t := SkipComments(doc, s.pos);
             && t.start < |doc| && doc[t.start] == OBJECT_END && t.end == t.start + 1
             && Span(doc, s.pos, t.start, X.FillerText(gap))
             && ReadMembers(f, doc, s, done, name) == Returned(true, s.(pos := t.end), Object(done))
    ensures DerivedMembers(f, doc, s, done, name, ReadMembers(f, doc, s, done, name), X.NoMember(gap))
  {
    hide SkipComments, ReadMembers, X.FillerText, X.ProperFiller, Span;
    var t := SkipComments(doc, s.pos);
    One(doc, t.start);
    Join(doc, s.pos, t.start, t.end, X.FillerText(gap), [OBJECT_END]);
  }

  /** A member with what follows it. */
  ghost predicate EntryAt(f: Features, doc: Bytes, s: State, key: Bytes, v: Outcome, e: X.Entry, q: nat) {
    && v.Returned? && X.ProperEntry(e, f.allowComments, f.toDouble)
    && X.ProperChars(e.key) && X.Proper(e.text, f.allowComments, f.toDouble)
    && Span(doc, s.pos, q, X.EntryText(e)) && X.CharsMeaning(e.key) == key
    && v.value == X.Meaning(e.text, f.allowComments, f.toDouble)
    && s.depth + X.Depth(e.text) <= STACK_LIMIT
  }

  lemma EntryDerived(f: Features, doc: Bytes, s: State, key: Bytes, v: Outcome, e: X.Entry)
    requires s.pos <= |doc| && X.ProperFiller(e.before) && X.ProperChars(e.key) && X.CharsMeaning(e.key) == key
    requires v.Returned? && X.ProperFiller(e.beforeColon) && X.Bare(e.beforeColon) && X.ProperFiller(e.after)
    requires var t := SkipComments(doc, s.pos);
             var colon := ReadToken(doc, t.end);
             && Span(doc, s.pos, t.start, X.FillerText(e.before)) && Span(doc, t.start, t.end, G.StringText(e.key))
             && Span(doc, t.end, SkipSpaces(doc, t.end), X.FillerText(e.beforeColon))
             && colon.kind == MemberSeparator
             && Derived(f, doc, s.(pos := colon.end), v, e.afterColon, e.text)
             && v.state.pos <= |doc|
             && Span(doc, v.state.pos, SkipComments(doc, v.state.pos).start, X.FillerText(e.after))
    ensures EntryAt(f, doc, s, key, v, e, SkipComments(doc, v.state.pos).start)
  {
    hide *;
    var t := SkipComments(doc, s.pos);
    var colon := ReadToken(doc, t.end);
    var q := SkipComments(doc, v.state.pos).start;
    DerivedIs(f, doc, s.(pos := colon.end), v, e.afterColon, e.text);
    ColonPlace(doc, t.end);
    One(doc, colon.start);
    var text := X.FillerText(e.afterColon) + X.Render(e.text);
    Join(doc, colon.end, v.state.pos, q, text, X.FillerText(e.after));
    Associate(X.FillerText(e.afterColon), X.Render(e.text), X.FillerText(e.after));
    var value := X.FillerText(e.afterColon) + (X.Render(e.text) + X.FillerText(e.after));
    Join(doc, colon.start, colon.end, q, [COLON], value);
    Join(doc, t.end, colon.start, q, X.FillerText(e.beforeColon), [COLON] + value);
    Join(doc, t.start, t.end, q, G.StringText(e.key), X.FillerText(e.beforeColon) + ([COLON] + value));
    Join(doc, s.pos, t.start, q, X.FillerText(e.before),
         G.StringText(e.key) + (X.FillerText(e.beforeColon) + ([COLON] + value)));
    EntryIs(f, doc, s, key, v, e, q);
  }

  lemma Associate(a: Bytes, b: Bytes, c: Bytes)
    ensures a + b + c == a + (b + c)
  {
  }

  lemma DerivedIs(f: Features, doc: Bytes, s: State, r: Outcome, gap: seq<X.Piece>, t: X.Text)
    requires Derived(f, doc, s, r, gap, t)
    ensures r.Returned? && X.Allowed(gap, f.allowComments) && X.Proper(t, f.allowComments, f.toDouble)
    ensures Span(doc, s.pos, r.state.pos, X.FillerText(gap) + X.Render(t))
    ensures r.value == X.Meaning(t, f.allowComments, f.toDouble) && s.depth + X.Depth(t) <= STACK_LIMIT
  {
  }

  lemma ColonPlace(doc: Bytes, p: nat)
    requires p <= |doc| && ReadToken(doc, p).kind == MemberSeparator
    ensures var colon := ReadToken(doc, p);
            && colon.start == SkipSpaces(doc, p) && colon.start < |doc| && doc[colon.start] == COLON
            && colon.end == colon.start + 1
  {
    hide TokenAt, SkipSpaces;
    ByteToken(doc, SkipSpaces(doc, p));
  }

  lemma EntryIs(f: Features, doc: Bytes, s: State, key: Bytes, v: Outcome, e: X.Entry, q: nat)
    requires v.Returned? && X.ProperFiller(e.before) && X.ProperChars(e.key) && X.CharsMeaning(e.key) == key
    requires X.ProperFiller(e.beforeColon) && X.Bare(e.beforeColon) && X.Allowed(e.afterColon, f.allowComments)
    requires X.Proper(e.text, f.allowComments, f.toDouble) && X.ProperFiller(e.after)
    requires Span(doc, s.pos, q, X.FillerText(e.before)
                  + (G.StringText(e.key)
                     + (X.FillerText(e.beforeColon)
                        + ([COLON] + (X.FillerText(e.afterColon) + (X.Render(e.text) + X.FillerText(e.after)))))))
    requires v.value == X.Meaning(e.text, f.allowComments, f.toDouble) && s.depth + X.Depth(e.text) <= STACK_LIMIT
    ensures EntryAt(f, doc, s, key, v, e, q)
  {
    hide X.ProperFiller, X.ProperChars, X.CharsMeaning, X.Bare, X.Proper, X.Meaning, X.Depth, X.Render, X.FillerText,
         G.StringText, Span;
  }

  lemma TokenStart(doc: Bytes, p: nat)
    requires p <= |doc|
    ensures SkipComments(doc, p).start < |doc| ==> !IsSpace(doc[SkipComments(doc, p).start])
    decreases |doc| - p
  {
    hide TokenAt;
    L.SpacesTwice(doc, p);
    if ReadToken(doc, p).kind == Comment {
      TokenStart(doc, ReadToken(doc, p).end);
    }
  }

  /** What stands between two members. */
  lemma SeparatorOf(doc: Bytes, p: nat, gap: seq<X.Piece>)
    requires p <= |doc| && (X.Bare(gap) <==> ReadToken(doc, p).kind != Comment)
    requires var last := SkipComments(doc, p);
             && last.start < last.end < |doc| && last.kind != ObjectEnd
             && (last.kind == ArraySeparator || ReadToken(doc, p).kind == Comment)
    ensures var last := SkipComments(doc, p);
            X.Separates(doc[last.start..last.end], gap)
  {
    hide SkipComments, ReadToken, TokenAt, X.IsLexeme, X.Bare;
    var last := SkipComments(doc, p);
    SimpleToken(doc, p);
    if last.kind != ArraySeparator {
      TokenStart(doc, p);
      LexemeOf(doc, last.start);
    }
  }

  lemma LastMemberDerived(f: Features, doc: Bytes, s: State, done: seq<Member>, name: Bytes, key: Bytes,
                          v: Outcome, e: X.Entry, last: Token)
    requires v.Returned? && EntryAt(f, doc, s, key, v, e, last.start) && last.end == last.start + 1
    requires last.start < |doc| && doc[last.start] == OBJECT_END
    ensures DerivedMembers(f, doc, s, done, name,
                           Returned(true, v.state.(pos := last.end), Object(Put(done, key, v.value))), X.LastMember(e))
  {
    hide X.Proper, X.EntryText, X.Meaning, X.Depth, X.ProperEntry, X.ProperChars, X.CharsMeaning, Put, Span;
    One(doc, last.start);
    Join(doc, s.pos, last.start, last.end, X.EntryText(e), [OBJECT_END]);
  }

  lemma MoreMembersDerived(f: Features, doc: Bytes, s: State, done: seq<Member>, name: Bytes, key: Bytes,
                           v: Outcome, e: X.Entry, last: Token, rest: X.Members)
    requires s.pos <= |doc| && v.Returned? && EntryAt(f, doc, s, key, v, e, last.start) && v.state.depth == s.depth
    requires last.start < last.end <= |doc| && X.Separates(doc[last.start..last.end], e.after)
    requires ReadMembers(f, doc, s, done, name)
             == ReadMembers(f, doc, v.state.(pos := last.end), Put(done, key, v.value), key)
    requires DerivedMembers(f, doc, v.state.(pos := last.end), Put(done, key, v.value), key,
                            ReadMembers(f, doc, v.state.(pos := last.end), Put(done, key, v.value), key), rest)
    ensures DerivedMembers(f, doc, s, done, name, ReadMembers(f, doc, s, done, name),
                           X.MoreMembers(e, doc[last.start..last.end], rest))
  {
    hide ReadMembers, X.Proper, X.EntryText, X.Meaning, X.Depth, X.ProperEntry, X.ProperChars, X.CharsMeaning;
    hide Put, Span, X.Separates;
    var separator, end := doc[last.start..last.end], ReadMembers(f, doc, s, done, name).state.pos;
    Whole(doc, last.start, last.end);
    Join(doc, last.start, last.end, end, separator, X.MembersText(rest));
    Join(doc, s.pos, last.start, end, X.EntryText(e), separator + X.MembersText(rest));
  }

  lemma Whole(doc: Bytes, p: nat, q: nat)
    requires p <= q <= |doc|
    ensures Span(doc, p, q, doc[p..q])
  {
  }

  lemma ObjectDerived(f: Features, doc: Bytes, s: State, held: Value, gap: seq<X.Piece>, ms: X.Members)
    requires s.pos <= |doc| && Succeeded(ReadValue(f, doc, s, held)) && X.Allowed(gap, f.allowComments)
    requires var token := FirstToken(f, doc, s.pos);
             var inner := State(token.end, s.depth + 1, s.errors);
             && token.kind == ObjectBegin && Span(doc, s.pos, token.start, X.FillerText(gap))
             && DerivedMembers(f, doc, inner, [], [], ReadMembers(f, doc, inner, [], []), ms)
    ensures Derived(f, doc, s, ReadValue(f, doc, s, held), gap, X.ObjectText(ms))
  {
    hide ReadMembers, FirstToken, ReadValue, X.ProperMembers, X.MembersText, X.MembersMeaning, X.MembersDepth,
         X.FillerText, X.Allowed, Span;
    var token := FirstToken(f, doc, s.pos);
    ValueCases(f, doc, s, held);
    FirstTokenIs(f, doc, s.pos);
    OpeningByte(doc, token.start);
    var end := ReadValue(f, doc, s, held).state.pos;
    One(doc, token.start);
    Join(doc, token.start, token.end, end, [OBJECT_BEGIN], X.MembersText(ms));
    Join(doc, s.pos, token.start, end, X.FillerText(gap), X.Render(X.ObjectText(ms)));
  }

  // ----------------------------------------------------------------------- documents

  /**
   The document starts with a text of the extended grammar behind a filler; the text means v, is
   nested at most STACK_LIMIT deep and is a container where the settings demand one, and nothing
   behind it continues a number.
   */
  ghost predicate Conforms(f: Features, doc: Bytes, gap: seq<X.Piece>, t: X.Text, v: Value) {
    && X.Allowed(gap, f.allowComments) && X.Proper(t, f.allowComments, f.toDouble)
    && X.FillerText(gap) + X.Render(t) <= doc && R.Ends(doc, |X.FillerText(gap) + X.Render(t)|, t)
    && X.Meaning(t, f.allowComments, f.toDouble) == v && X.Depth(t) <= STACK_LIMIT
    && (f.strictRoot ==> t.EmptyArray? || t.ArrayText? || t.ObjectText?)
  }

  /** Whatever parses without an error conforms, up to where the root value ends. */
  lemma AcceptedIsText(f: Features, doc: Bytes, root: Value) returns (gap: seq<X.Piece>, t: X.Text)
    requires Succeeded(Parse(f, doc, root))
    ensures Conforms(f, doc, gap, t, Parse(f, doc, root).value)
    ensures ReadValue(f, doc, State(0, 0, []), root).Returned?
    ensures |X.FillerText(gap) + X.Render(t)| == ReadValue(f, doc, State(0, 0, []), root).state.pos
  {
    var s := State(0, 0, []);
    RootSucceeded(f, doc, root);
    gap, t := ValueOf(f, doc, s, root);
    R.ContainerMeaning(t, f.allowComments, f.toDouble);
    hide ReadValue, Parse, X.FillerText, X.Render, X.Meaning, X.Depth, X.Proper, R.Ends;
    var r := ReadValue(f, doc, s, root);
    assert doc[0..r.state.pos] <= doc;
  }

  /** The reader accepts a document with a value exactly when it conforms to the extended grammar with this value. */
  lemma AcceptsExactly(f: Features, doc: Bytes, root: Value, v: Value)
    ensures (var r := Parse(f, doc, root); r.Returned? && r.ok && r.value == v)
            <==> exists gap, t :: Conforms(f, doc, gap, t, v)
  {
    hide *;
    var r := Parse(f, doc, root);
    SucceededIs(r);
    if r.Returned? && r.ok && r.value == v {
      var gap, t := AcceptedIsText(f, doc, root);
      assert Conforms(f, doc, gap, t, v);
    }
    forall gap, t | Conforms(f, doc, gap, t, v) ensures r.Returned? && r.ok && r.value == v {
      ConformsIs(f, doc, gap, t, v);
      R.ParsePrefix(f, doc, gap, t, root);
    }
  }

  lemma ConformsIs(f: Features, doc: Bytes, gap: seq<X.Piece>, t: X.Text, v: Value)
    requires Conforms(f, doc, gap, t, v)
    ensures X.Allowed(gap, f.allowComments) && X.Proper(t, f.allowComments, f.toDouble)
    ensures X.FillerText(gap) + X.Render(t) <= doc && R.Ends(doc, |X.FillerText(gap) + X.Render(t)|, t)
    ensures X.Meaning(t, f.allowComments, f.toDouble) == v && X.Depth(t) <= STACK_LIMIT
    ensures f.strictRoot ==> t.EmptyArray? || t.ArrayText? || t.ObjectText?
  {
  }

  lemma RootSucceeded(f: Features, doc: Bytes, root: Value)
    requires Succeeded(Parse(f, doc, root))
    ensures var r := ReadValue(f, doc, State(0, 0, []), root);
            && Succeeded(r) && Parse(f, doc, root).value == r.value
            && (f.strictRoot ==> r.value.Array? || r.value.Object?)
  {
    hide ReadValue, FirstToken;
  }
}
