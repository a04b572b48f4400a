/**
 A successful read depends only on the text it consumed: the scanners, the decoders and the
 parser give the same result on every document that starts with this text.
 */
module JsonLocality {
  import opened Words
  import opened JsonValue
  import opened JsonText
  import opened JsonLexer
  import opened JsonDecode
  import opened JsonParser

  /** The first k bytes of two documents are the same. */
  predicate Agree(a: Bytes, b: Bytes, k: nat) {
    k <= |a| && k <= |b| && forall i :: 0 <= i < k ==> a[i] == b[i]
  }

  predicate IsExponentMark(c: Byte) {
    c == 0x65 || c == 0x45
  }

  /**
   The byte c would continue a number whose text behind its first character is given: a digit
   always, a point before any point or exponent, an exponent before any exponent, and a sign
   right behind the exponent mark.
   */
  predicate Continues(text: Bytes, c: Byte) {
    || IsDigit(c)
    || (c == 0x2E && 0x2E !in text && 0x65 !in text && 0x45 !in text)
    || (IsExponentMark(c) && 0x65 !in text && 0x45 !in text)
    || ((c == 0x2B || c == MINUS) && text != [] && IsExponentMark(text[|text| - 1]))
  }

  // ------------------------------------------------------------------ scanners

  lemma {:induction false} SameSpaces(a: Bytes, b: Bytes, k: nat, p: nat)
    requires Agree(a, b, k) && p <= |a| && SkipSpaces(a, p) < k
    ensures p <= k && SkipSpaces(b, p) == SkipSpaces(a, p)
    decreases |a| - p
  {
    assert a[p] == b[p];
    if IsSpace(a[p]) {
      SameSpaces(a, b, k, p + 1);
    }
  }

  /** What digits are skipped: all up to the first byte that is none. */
  lemma {:induction false} DigitsRun(a: Bytes, p: nat)
    requires p <= |a|
    ensures forall i :: p <= i < SkipDigits(a, p) ==> IsDigit(a[i])
    ensures !IsDigit(Peek(a, SkipDigits(a, p)))
    decreases |a| - p
  {
    if p < |a| && IsDigit(a[p]) {
      DigitsRun(a, p + 1);
    }
  }

  lemma {:induction false} DigitsTo(b: Bytes, p: nat, k: nat)
    requires p <= k <= |b| && forall i :: p <= i < k ==> IsDigit(b[i])
    ensures if IsDigit(Peek(b, k)) then SkipDigits(b, p) > k else SkipDigits(b, p) == k
    decreases k - p
  {
    if p < k {
      DigitsTo(b, p + 1, k);
    }
  }

  /** Digits that a skips up to q, b skips as well, and no more if the byte at q is the same or no digit. */
  lemma SameDigits(a: Bytes, b: Bytes, k: nat, p: nat)
    requires Agree(a, b, k) && p <= |a| && SkipDigits(a, p) <= k
    ensures p <= k
    ensures SkipDigits(a, p) < k ==> SkipDigits(b, p) == SkipDigits(a, p)
    ensures SkipDigits(a, p) == k ==> if IsDigit(Peek(b, k)) then SkipDigits(b, p) > k else SkipDigits(b, p) == k
  {
    hide SkipDigits;
    var q := SkipDigits(a, p);
    DigitsRun(a, p);
    DigitsTo(b, p, q);
    if q < k {
      assert a[q] == b[q];
    }
  }

  /** The end of the fraction of a number whose integer part ends at a position. */
  function FractionEnd(doc: Bytes, integral: nat): (q: nat)
    requires integral <= |doc|
    ensures integral <= q <= |doc|
  {
    if Peek(doc, integral) == 0x2E then SkipDigits(doc, integral + 1) else integral
  }

  /** The end of a number whose fraction ends at a position. */
  function ExponentEnd(doc: Bytes, fraction: nat): (q: nat)
    requires fraction <= |doc|
    ensures fraction <= q <= |doc|
    ensures q == fraction <==> !IsExponentMark(Peek(doc, fraction))
  {
    if IsExponentMark(Peek(doc, fraction)) then
      var sign := Peek(doc, fraction + 1);
      SkipDigits(doc, if sign == 0x2B || sign == MINUS then fraction + 2 else fraction + 1)
    else fraction
  }

  lemma NumberEndIs(doc: Bytes, p: nat)
    requires p <= |doc|
    ensures NumberEnd(doc, p) == ExponentEnd(doc, FractionEnd(doc, SkipDigits(doc, p)))
  {
    hide SkipDigits;
  }

  lemma SameExponent(a: Bytes, b: Bytes, k: nat, f: nat)
    requires Agree(a, b, k) && f < k && ExponentEnd(a, f) <= k
    ensures ExponentEnd(a, f) < k ==> ExponentEnd(b, f) == ExponentEnd(a, f)
    ensures ExponentEnd(a, f) == k ==>
      var c := Peek(b, k);
      if IsDigit(c) || ((c == 0x2B || c == MINUS) && IsExponentMark(a[k - 1])) then ExponentEnd(b, f) > k
      else ExponentEnd(b, f) == k
  {
    hide SkipDigits;
    assert a[f] == b[f];
    if IsExponentMark(a[f]) {
      var sign := Peek(a, f + 1);
      var from := if sign == 0x2B || sign == MINUS then f + 2 else f + 1;
      SameDigits(a, b, k, from);
      DigitsRun(a, from);
      if f + 1 < k {
        assert a[f + 1] == b[f + 1];
      }
    }
  }

  /** A number that ends before k is the same in b. */
  lemma SameNumberEnd(a: Bytes, b: Bytes, k: nat, p: nat)
    requires Agree(a, b, k) && p <= |a| && NumberEnd(a, p) < k
    ensures p <= k && NumberEnd(b, p) == NumberEnd(a, p)
  {
    hide SkipDigits, NumberEnd, ExponentEnd;
    NumberEndIs(a, p);
    NumberEndIs(b, p);
    var integral := SkipDigits(a, p);
    SameDigits(a, b, k, p);
    assert a[integral] == b[integral];
    if Peek(a, integral) == 0x2E {
      SameDigits(a, b, k, integral + 1);
    }
    SameExponent(a, b, k, FractionEnd(a, integral));
  }

  /** A number that ends at k ends there in b exactly when the byte of b at k does not continue it. */
  lemma NumberEndsAt(a: Bytes, b: Bytes, k: nat, p: nat)
    requires Agree(a, b, k) && p <= |a| && NumberEnd(a, p) == k
    ensures p <= k && (NumberEnd(b, p) == k <==> !Continues(a[p..k], Peek(b, k)))
  {
    hide SkipDigits, NumberEnd, ExponentEnd, FractionEnd, Continues;
    NumberEndIs(a, p);
    NumberEndIs(b, p);
    var integral := SkipDigits(a, p);
    SameDigits(a, b, k, p);
    DigitsRun(a, p);
    if integral == k {
      IntegerContinues(a, b, k, p);
    } else {
      FractionContinues(a, b, k, p, integral);
    }
  }

  lemma IntegerContinues(a: Bytes, b: Bytes, k: nat, p: nat)
    requires Agree(a, b, k) && p <= k && forall i :: p <= i < k ==> IsDigit(a[i])
    requires if IsDigit(Peek(b, k)) then SkipDigits(b, p) > k else SkipDigits(b, p) == k
    ensures ExponentEnd(b, FractionEnd(b, SkipDigits(b, p))) == k <==> !Continues(a[p..k], Peek(b, k))
  {
    hide SkipDigits;
    NoMarks(a, p, k);
  }

  /** Digits hold neither a point nor an exponent. */
  lemma NoMarks(a: Bytes, p: nat, k: nat)
    requires p <= k <= |a| && forall i :: p <= i < k ==> IsDigit(a[i])
    ensures 0x2E !in a[p..k] && 0x65 !in a[p..k] && 0x45 !in a[p..k]
    ensures p < k ==> !IsExponentMark(a[p..k][|a[p..k]| - 1])
  {
    var text := a[p..k];
    assert forall i :: 0 <= i < |text| ==> text[i] == a[p + i];
  }

  lemma FractionContinues(a: Bytes, b: Bytes, k: nat, p: nat, integral: nat)
    requires Agree(a, b, k) && p <= integral < k && forall i :: p <= i < integral ==> IsDigit(a[i])
    requires SkipDigits(b, p) == integral && ExponentEnd(a, FractionEnd(a, integral)) == k
    ensures ExponentEnd(b, FractionEnd(b, SkipDigits(b, p))) == k <==> !Continues(a[p..k], Peek(b, k))
  {
    hide SkipDigits, ExponentEnd, Continues;
    assert a[integral] == b[integral];
    if a[integral] == 0x2E {
      SameDigits(a, b, k, integral + 1);
      DigitsRun(a, integral + 1);
    }
    var fraction := FractionEnd(a, integral);
    if fraction == k {
      PointContinues(a, p, k, integral, Peek(b, k));
      AtEnd(b, FractionEnd(b, integral), k);
    } else {
      assert IsExponentMark(a[fraction]);
      SameExponent(a, b, k, fraction);
      MarkContinues(a, p, k, fraction, Peek(b, k));
    }
  }

  lemma AtEnd(b: Bytes, fraction: nat, k: nat)
    requires k <= fraction <= |b|
    ensures ExponentEnd(b, fraction) == k <==> fraction == k && !IsExponentMark(Peek(b, k))
  {
  }

  /** What continues digits, a point and digits. */
  lemma PointContinues(a: Bytes, p: nat, k: nat, integral: nat, c: Byte)
    requires p <= integral < k <= |a| && a[integral] == 0x2E
    requires forall i :: p <= i < k && i != integral ==> IsDigit(a[i])
    ensures Continues(a[p..k], c) <==> IsDigit(c) || IsExponentMark(c)
  {
    var text := a[p..k];
    assert forall i :: 0 <= i < |text| ==> text[i] == a[p + i];
    assert text[integral - p] == 0x2E;
  }

  /** What continues a number with an exponent. */
  lemma MarkContinues(a: Bytes, p: nat, k: nat, f: nat, c: Byte)
    requires p <= f < k <= |a| && IsExponentMark(a[f])
    ensures Continues(a[p..k], c) <==> IsDigit(c) || ((c == 0x2B || c == MINUS) && IsExponentMark(a[k - 1]))
  {
    var text := a[p..k];
    assert text[f - p] == a[f];
    assert text[|text| - 1] == a[k - 1];
  }

  lemma {:induction false} SameString(a: Bytes, b: Bytes, k: nat, p: nat)
    requires Agree(a, b, k) && p <= |a| && ScanString(a, p).ok && ScanString(a, p).end <= k
    ensures p <= k && ScanString(b, p) == ScanString(a, p)
    decreases |a| - p
  {
    assert a[p] == b[p];
    if a[p] == BACKSLASH {
      SameString(a, b, k, Next(a, p + 1));
    } else if a[p] != QUOTE {
      SameString(a, b, k, p + 1);
    }
  }

  lemma {:induction false} SameCStyle(a: Bytes, b: Bytes, k: nat, p: nat)
    requires Agree(a, b, k) && p <= |a| && ScanCStyleComment(a, p).ok && ScanCStyleComment(a, p).end <= k
    ensures p + 2 <= k && ScanCStyleComment(b, p) == ScanCStyleComment(a, p)
    decreases |a| - p
  {
    if !(a[p] == STAR && Peek(a, p + 1) == SLASH) {
      SameCStyle(a, b, k, p + 1);
    }
    assert a[p] == b[p] && a[p + 1] == b[p + 1];
  }

  lemma {:induction false} SameCppStyle(a: Bytes, b: Bytes, k: nat, p: nat)
    requires Agree(a, b, k) && p <= |a| && ScanCppStyleComment(a, p) < k
    ensures p <= k && ScanCppStyleComment(b, p) == ScanCppStyleComment(a, p)
    decreases |a| - p
  {
    assert a[p] == b[p];
    if a[p] == RETURN {
      assert a[p + 1] == b[p + 1];
    } else if a[p] != NEWLINE {
      SameCppStyle(a, b, k, p + 1);
    }
  }

  lemma SameMatch(a: Bytes, b: Bytes, k: nat, p: nat, pattern: Bytes)
    requires Agree(a, b, k) && p <= |a| && pattern != []
    requires ScanMatch(a, p, pattern).ok ==> p + |pattern| <= k
    requires !ScanMatch(a, p, pattern).ok ==> p < k && a[p] != pattern[0]
    ensures p <= k && ScanMatch(b, p, pattern) == ScanMatch(a, p, pattern)
  {
    if ScanMatch(a, p, pattern).ok {
      assert a[p..p + |pattern|] == b[p..p + |pattern|];
    } else if p + |pattern| <= |b| {
      assert b[p..p + |pattern|][0] == b[p] == a[p];
    }
  }

  // -------------------------------------------------------------------- tokens

  /** What the text behind a token must satisfy for the token not to change with it. */
  predicate Settled(a: Bytes, b: Bytes, k: nat, t: Token) {
    && t.start < k && t.end <= k
    && (t.kind == NumberToken && t.end == k <= |a| && t.start < k ==> !Continues(a[t.start + 1..k], Peek(b, k)))
    && (t.kind == Comment ==> t.end < k)
    && (t.kind == ErrorToken ==> t.end < k <= |a| && a[t.end] != 0x72 && a[t.end] != 0x61 && a[t.end] != 0x75)
  }

  lemma SameComment(a: Bytes, b: Bytes, k: nat, p: nat)
    requires Agree(a, b, k) && p <= |a| && ScanComment(a, p).end < k
    ensures p <= k && ScanComment(b, p) == ScanComment(a, p)
  {
    hide ScanCStyleComment, ScanCppStyleComment;
    assert a[p] == b[p];
    if a[p] == STAR {
      CStyleFails(a, p + 1);
      SameCStyle(a, b, k, p + 1);
    } else if a[p] == SLASH {
      SameCppStyle(a, b, k, p + 1);
    }
  }

  /** An unterminated comment runs to the end of the document. */
  lemma {:induction false} CStyleFails(a: Bytes, p: nat)
    requires p <= |a| && ScanCStyleComment(a, p).end < |a|
    ensures ScanCStyleComment(a, p).ok
    decreases |a| - p
  {
    if !(a[p] == STAR && Peek(a, p + 1) == SLASH) {
      CStyleFails(a, p + 1);
    }
  }

  lemma {:induction false} StringFails(a: Bytes, p: nat)
    requires p <= |a| && ScanString(a, p).end < |a|
    ensures ScanString(a, p).ok
    decreases |a| - p
  {
    if a[p] == BACKSLASH {
      StringFails(a, Next(a, p + 1));
    } else if a[p] != QUOTE {
      StringFails(a, p + 1);
    }
  }

  lemma SameTokenAt(a: Bytes, b: Bytes, k: nat, s: nat)
    requires Agree(a, b, k) && s < k && Settled(a, b, k, TokenAt(a, s))
    ensures TokenAt(b, s) == TokenAt(a, s)
  {
    hide ScanString, ScanComment, NumberEnd, ScanMatch;
    var c := a[s];
    assert c == b[s];
    if c == QUOTE {
      if !ScanString(a, s + 1).ok {
        StringFails(a, s + 1);
      } else {
        SameString(a, b, k, s + 1);
      }
    } else if c == SLASH {
      SameComment(a, b, k, s + 1);
    } else if IsDigit(c) || c == MINUS {
      if NumberEnd(a, s + 1) < k {
        SameNumberEnd(a, b, k, s + 1);
      } else {
        NumberEndsAt(a, b, k, s + 1);
      }
    } else if c == 0x74 || c == 0x66 || c == 0x6E {
      var pattern := if c == 0x74 then RUE else if c == 0x66 then ALSE else ULL;
      MatchEnd(a, s + 1, pattern);
      SameMatch(a, b, k, s + 1, pattern);
    }
  }

  lemma MatchEnd(a: Bytes, p: nat, pattern: Bytes)
    requires p <= |a|
    ensures ScanMatch(a, p, pattern).end == if ScanMatch(a, p, pattern).ok then p + |pattern| else p
  {
  }

  lemma SameReadToken(a: Bytes, b: Bytes, k: nat, p: nat)
    requires Agree(a, b, k) && p <= |a| && Settled(a, b, k, ReadToken(a, p))
    ensures p <= k && ReadToken(b, p) == ReadToken(a, p)
  {
    hide SkipSpaces, TokenAt;
    SameSpaces(a, b, k, p);
    SameTokenAt(a, b, k, SkipSpaces(a, p));
  }

  lemma {:induction false} SameSkipComments(a: Bytes, b: Bytes, k: nat, p: nat)
    requires Agree(a, b, k) && p <= |a| && Settled(a, b, k, SkipComments(a, p))
    ensures p <= k && SkipComments(b, p) == SkipComments(a, p)
    decreases |a| - p
  {
    hide ReadToken;
    SameReadToken(a, b, k, p);
    if ReadToken(a, p).kind == Comment {
      SameSkipComments(a, b, k, ReadToken(a, p).end);
    }
  }

  lemma SameFirstToken(f: Features, a: Bytes, b: Bytes, k: nat, p: nat)
    requires Agree(a, b, k) && p <= |a| && Settled(a, b, k, FirstToken(f, a, p))
    ensures p <= k && FirstToken(f, b, p) == FirstToken(f, a, p)
  {
    hide ReadToken, SkipComments;
    if f.allowComments {
      SameSkipComments(a, b, k, p);
    } else {
      SameReadToken(a, b, k, p);
    }
  }

  /** A number that is prolonged still starts where it did. */
  lemma {:induction false} SameStart(a: Bytes, b: Bytes, k: nat, p: nat)
    requires Agree(a, b, k) && p <= |a| && SkipComments(a, p).kind == NumberToken && SkipComments(a, p).start < k
    ensures p <= k
    ensures SkipComments(b, p) == TokenAt(b, SkipComments(a, p).start)
    ensures ReadToken(a, p).kind == NumberToken ==> ReadToken(b, p) == TokenAt(b, ReadToken(a, p).start)
    decreases |a| - p
  {
    hide TokenAt, SkipSpaces;
    var t := ReadToken(a, p);
    if t.kind == Comment {
      SameReadToken(a, b, k, p);
      SameStart(a, b, k, t.end);
    } else {
      SameSpaces(a, b, k, p);
      NumberStart(a, b, k, t.start);
    }
  }

  lemma NumberStart(a: Bytes, b: Bytes, k: nat, s: nat)
    requires Agree(a, b, k) && s < k && TokenAt(a, s).kind == NumberToken
    ensures TokenAt(a, s).end == NumberEnd(a, s + 1) && TokenAt(b, s) == Token(NumberToken, s, NumberEnd(b, s + 1))
  {
    hide ScanString, ScanComment, NumberEnd, ScanMatch;
    assert a[s] == b[s];
  }

  /** The number at the start of a document that ends at k, and the one in a document that agrees up to k. */
  lemma FirstNumber(f: Features, a: Bytes, b: Bytes, k: nat, p: nat)
    requires Agree(a, b, k) && p <= |a| && FirstToken(f, a, p).kind == NumberToken && FirstToken(f, a, p).end == k
    ensures p <= k && FirstToken(f, b, p).kind == NumberToken
    ensures FirstToken(f, b, p).end == k <==> !Prolongs(f, a, p, k, Peek(b, k))
  {
    hide SkipComments, ReadToken, TokenAt, NumberEnd, Continues;
    var s := FirstToken(f, a, p).start;
    NumberTokens(a, p);
    SameStart(a, b, k, p);
    NumberStart(a, b, k, s);
    NumberEndsAt(a, b, k, s + 1);
  }

  lemma NumberTokens(a: Bytes, p: nat)
    requires p <= |a|
    ensures ReadToken(a, p).kind == NumberToken ==> SkipComments(a, p) == ReadToken(a, p)
    ensures ReadToken(a, p) == TokenAt(a, ReadToken(a, p).start)
    ensures SkipComments(a, p) == TokenAt(a, SkipComments(a, p).start)
    decreases |a| - p
  {
    hide TokenAt, SkipSpaces;
    if ReadToken(a, p).kind == Comment {
      NumberTokens(a, ReadToken(a, p).end);
    }
  }

  // ------------------------------------------------------------------- decoding

  lemma {:induction false} SameHexDigits(a: Bytes, b: Bytes, k: nat, cur: nat, left: nat, acc: nat)
    requires Agree(a, b, k) && left <= 4 && cur + left <= k && acc < HexLimit(4 - left)
    ensures HexDigits(b, cur, left, acc) == HexDigits(a, cur, left, acc)
    decreases left
  {
    if left > 0 {
      assert a[cur] == b[cur];
      if HexValue(a[cur]).Some? {
        SameHexDigits(a, b, k, cur + 1, left - 1, 16 * acc + HexValue(a[cur]).value);
      }
    }
  }

  lemma SameCodePoint(a: Bytes, b: Bytes, k: nat, cur: nat, end: nat)
    requires Agree(a, b, k) && cur <= end <= k
    ensures DecodeCodePoint(b, cur, end) == DecodeCodePoint(a, cur, end)
  {
    hide HexDigits;
    SameEscape(a, b, k, cur, end);
    var first := UnicodeEscape(a, cur, end);
    if first.CodePoint? && end - first.next >= 6 {
      assert a[first.next] == b[first.next] && a[first.next + 1] == b[first.next + 1];
      SameEscape(a, b, k, first.next + 2, end);
    }
  }

  lemma SameEscape(a: Bytes, b: Bytes, k: nat, cur: nat, end: nat)
    requires Agree(a, b, k) && cur <= end <= k
    ensures UnicodeEscape(b, cur, end) == UnicodeEscape(a, cur, end)
  {
    if end - cur >= 4 {
      SameHexDigits(a, b, k, cur, 4, 0);
    }
  }

  lemma {:induction false} SameDecoding(a: Bytes, b: Bytes, k: nat, cur: nat, end: nat, acc: Bytes)
    requires Agree(a, b, k) && cur <= end <= k
    ensures DecodeFrom(b, cur, end, acc) == DecodeFrom(a, cur, end, acc)
    decreases end - cur
  {
    hide DecodeCodePoint, CodePointToUtf8, SimpleEscape;
    if cur < end {
      assert a[cur] == b[cur];
      if a[cur] == BACKSLASH && cur + 1 < end {
        assert a[cur + 1] == b[cur + 1];
        SameCodePoint(a, b, k, cur + 2, end);
        var point := DecodeCodePoint(a, cur + 2, end);
        if a[cur + 1] == 0x75 && point.CodePoint? {
          SameDecoding(a, b, k, point.next, end, acc + CodePointToUtf8(point.cp));
        } else if a[cur + 1] != 0x75 && SimpleEscape(a[cur + 1]).Some? {
          SameDecoding(a, b, k, cur + 2, end, acc + [SimpleEscape(a[cur + 1]).value]);
        }
      } else if a[cur] != BACKSLASH {
        SameDecoding(a, b, k, cur + 1, end, acc + [a[cur]]);
      }
    }
  }

  lemma SameDecodeString(a: Bytes, b: Bytes, k: nat, t: Token)
    requires Agree(a, b, k) && t.start + 2 <= t.end <= k
    ensures DecodeString(b, t) == DecodeString(a, t)
  {
    SameDecoding(a, b, k, t.start + 1, t.end - 1, []);
  }

  // --------------------------------------------------------------------- values

  predicate IsNumber(v: Value) {
    v.Int? || v.UInt? || v.Real?
  }

  /** The byte c would continue the number that is read from position p on and ends at k. */
  predicate Prolongs(f: Features, doc: Bytes, p: nat, k: nat, c: Byte)
    requires p <= |doc|
  {
    var start := FirstToken(f, doc, p).start;
    start < k <= |doc| && Continues(doc[start + 1..k], c)
  }

  /** The read succeeded within the first k bytes, and what b holds there does not prolong a number. */
  predicate Within(f: Features, a: Bytes, b: Bytes, k: nat, s: State, r: Outcome)
    requires s.pos <= |a|
  {
    && r.Returned? && r.ok && r.state.pos <= k
    && (IsNumber(r.value) && r.state.pos == k ==> !Prolongs(f, a, s.pos, k, Peek(b, k)))
  }

  lemma SameScalar(f: Features, a: Bytes, b: Bytes, k: nat, inner: State, t: Token, held: Value)
    requires Agree(a, b, k) && ReadScalar.requires(f, a, inner, t, held) && t.end <= k
    requires ReadScalar(f, a, inner, t, held).Returned? && ReadScalar(f, a, inner, t, held).ok
    ensures ReadScalar(f, b, inner, t, held) == ReadScalar(f, a, inner, t, held)
    ensures t.kind == NumberToken <==> IsNumber(ReadScalar(f, a, inner, t, held).value)
    ensures t.kind in {NumberToken, StringToken, TrueToken, FalseToken, NullToken}
    ensures ReadScalar(f, a, inner, t, held).state.pos == inner.pos
  {
    hide DecodeString, AllDigits;
    if t.kind == NumberToken {
      assert a[t.start..t.end] == b[t.start..t.end];
    } else if t.kind == StringToken {
      SameDecodeString(a, b, k, t);
    }
  }

  /** Success depends only on the text consumed. */
  lemma {:induction false} SameValue(f: Features, a: Bytes, b: Bytes, k: nat, s: State, held: Value)
    requires Agree(a, b, k) && s.pos <= |a| && Within(f, a, b, k, s, ReadValue(f, a, s, held))
    ensures s.pos <= k && ReadValue(f, b, s, held) == ReadValue(f, a, s, held)
    decreases |a| - s.pos, 0
  {
    hide FirstToken, ReadScalar, ReadArray, ReadMembers, Continues;
    var t := FirstToken(f, a, s.pos);
    var inner := State(t.end, s.depth + 1, s.errors);
    if t.kind == ObjectBegin {
      SameMembers(f, a, b, k, inner, [], []);
    } else if t.kind == ArrayBegin {
      SameArray(f, a, b, k, inner);
    } else {
      ScalarEnd(f, a, inner, t, held);
      SameScalar(f, a, b, k, inner, t, held);
    }
    SameFirstToken(f, a, b, k, s.pos);
  }

  /**
   A successful read is the same on every document that starts with its text, exactly unless it
   is of a number and the next byte continues it.
   */
  lemma SameExactly(f: Features, a: Bytes, b: Bytes, k: nat, s: State, held: Value)
    requires Agree(a, b, k) && s.pos <= |a|
    requires var r := ReadValue(f, a, s, held); r.Returned? && r.ok && r.state.pos == k
    ensures s.pos <= k
    ensures ReadValue(f, b, s, held) == ReadValue(f, a, s, held)
            <==> !(IsNumber(ReadValue(f, a, s, held).value) && Prolongs(f, a, s.pos, k, Peek(b, k)))
  {
    hide FirstToken, ReadScalar, ReadArray, ReadMembers, Prolongs;
    var r := ReadValue(f, a, s, held);
    if IsNumber(r.value) && Prolongs(f, a, s.pos, k, Peek(b, k)) {
      NumberRead(f, a, s, held);
      FirstNumber(f, a, b, k, s.pos);
      var t := FirstToken(f, b, s.pos);
      ScalarEnd(f, b, State(t.end, s.depth + 1, s.errors), t, held);
    } else {
      SameValue(f, a, b, k, s, held);
    }
  }

  /** A number comes from a number token. */
  lemma NumberRead(f: Features, a: Bytes, s: State, held: Value)
    requires s.pos <= |a|
    requires var r := ReadValue(f, a, s, held); r.Returned? && r.ok && IsNumber(r.value)
    ensures var t := FirstToken(f, a, s.pos);
            t.kind == NumberToken && t.end == ReadValue(f, a, s, held).state.pos && s.depth < STACK_LIMIT
  {
    hide FirstToken, ReadScalar;
    var t := FirstToken(f, a, s.pos);
    var inner := State(t.end, s.depth + 1, s.errors);
    if t.kind == ObjectBegin {
      MembersValue(f, a, inner, [], []);
    } else if t.kind == ArrayBegin {
      ArrayValue(f, a, inner);
    } else {
      ScalarEnd(f, a, inner, t, held);
      SameScalar(f, a, a, |a|, inner, t, held);
    }
  }

  lemma {:induction false} MembersValue(f: Features, a: Bytes, s: State, members: seq<Member>, name: Bytes)
    requires s.pos <= |a|
    ensures var r := ReadMembers(f, a, s, members, name); r.Returned? ==> r.value.Object?
    decreases |a| - s.pos, 0
  {
    hide SkipComments, ReadToken, DecodeString, ReadValue, AfterMember;
    var t := SkipComments(a, s.pos);
    if t.kind == StringToken && DecodeString(a, t).Decoded? {
      var colon, key := ReadToken(a, t.end), DecodeString(a, t).text;
      if colon.kind == MemberSeparator {
        var r := ReadValue(f, a, s.(pos := colon.end), Find(members, key));
        if r.Returned? && r.ok {
          AfterValue(f, a, r.state, Put(members, key, r.value), key);
        }
      }
    }
  }

  lemma {:induction false} AfterValue(f: Features, a: Bytes, s: State, members: seq<Member>, name: Bytes)
    requires s.pos <= |a|
    ensures var r := AfterMember(f, a, s, members, name); r.Returned? ==> r.value.Object?
    decreases |a| - s.pos, 1
  {
    hide SkipComments, ReadToken, ReadMembers;
    var comma := ReadToken(a, s.pos);
    if comma.kind == ArraySeparator || comma.kind == Comment {
      var last := if comma.kind == Comment then SkipComments(a, comma.end) else comma;
      if last.kind != ObjectEnd {
        MembersValue(f, a, s.(pos := last.end), members, name);
      }
    }
  }

  lemma ArrayValue(f: Features, a: Bytes, s: State)
    requires s.pos <= |a|
    ensures var r := ReadArray(f, a, s); r.Returned? ==> r.value.Array?
  {
    hide SkipSpaces, ReadItems, ReadToken;
    ItemsValue(f, a, s.(pos := SkipSpaces(a, s.pos)), []);
  }

  lemma {:induction false} ItemsValue(f: Features, a: Bytes, s: State, items: seq<Value>)
    requires s.pos <= |a|
    ensures var r := ReadItems(f, a, s, items); r.Returned? ==> r.value.Array?
    decreases |a| - s.pos
  {
    hide SkipComments, ReadValue;
    var r := ReadValue(f, a, s, Null);
    if r.Returned? && r.ok {
      var t := SkipComments(a, r.state.pos);
      if t.kind == ArraySeparator {
        ItemsValue(f, a, r.state.(pos := t.end), items + [r.value]);
      }
    }
  }

  lemma ScalarEnd(f: Features, a: Bytes, inner: State, t: Token, held: Value)
    requires ReadScalar.requires(f, a, inner, t, held)
    ensures ReadScalar(f, a, inner, t, held).Returned? && ReadScalar(f, a, inner, t, held).state.pos == inner.pos
  {
  }

  lemma SameArray(f: Features, a: Bytes, b: Bytes, k: nat, s: State)
    requires Agree(a, b, k) && s.pos <= |a|
    requires var r := ReadArray(f, a, s); r.Returned? && r.ok && r.state.pos <= k
    ensures s.pos < k && ReadArray(f, b, s) == ReadArray(f, a, s)
    decreases |a| - s.pos, 2
  {
    hide SkipSpaces, ReadItems, TokenAt;
    var p := SkipSpaces(a, s.pos);
    SpacesTwice(a, s.pos);
    if Peek(a, p) == ARRAY_END {
      ClosingToken(a, p);
      SameReadToken(a, b, k, p);
    } else {
      SameItems(f, a, b, k, s.(pos := p), []);
    }
    SameSpaces(a, b, k, s.pos);
    assert a[p] == b[p];
  }

  lemma {:induction false} SpacesTwice(a: Bytes, p: nat)
    requires p <= |a|
    ensures SkipSpaces(a, SkipSpaces(a, p)) == SkipSpaces(a, p)
    decreases |a| - p
  {
    if p < |a| && IsSpace(a[p]) {
      SpacesTwice(a, p + 1);
    }
  }

  lemma ClosingToken(a: Bytes, p: nat)
    requires p < |a| && a[p] == ARRAY_END
    ensures ReadToken(a, p) == Token(ArrayEnd, p, p + 1)
  {
  }

  lemma {:induction false} SameItems(f: Features, a: Bytes, b: Bytes, k: nat, s: State, items: seq<Value>)
    requires Agree(a, b, k) && s.pos <= |a|
    requires var r := ReadItems(f, a, s, items); r.Returned? && r.ok && r.state.pos <= k
    ensures s.pos < k && ReadItems(f, b, s, items) == ReadItems(f, a, s, items)
    decreases |a| - s.pos, 1
  {
    hide ReadValue, SkipComments, Continues;
    var r := ReadValue(f, a, s, Null);
    var t := SkipComments(a, r.state.pos);
    if t.kind == ArraySeparator {
      SameItems(f, a, b, k, r.state.(pos := t.end), items + [r.value]);
    }
    SameSkipComments(a, b, k, r.state.pos);
    SameValue(f, a, b, k, s, Null);
  }

  // -------------------------------------------------------------------- objects

  lemma {:induction false} SameMembers(
      f: Features, a: Bytes, b: Bytes, k: nat, s: State, members: seq<Member>, name: Bytes)
    requires Agree(a, b, k) && s.pos <= |a|
    requires var r := ReadMembers(f, a, s, members, name); r.Returned? && r.ok && r.state.pos <= k
    ensures s.pos < k && ReadMembers(f, b, s, members, name) == ReadMembers(f, a, s, members, name)
    decreases |a| - s.pos, 1
  {
    hide SkipComments, ReadToken, DecodeString, ReadMember, Continues;
    var t := SkipComments(a, s.pos);
    if t.kind == StringToken {
      var colon := ReadToken(a, t.end);
      var key := DecodeString(a, t).text;
      SameMember(f, a, b, k, s.(pos := colon.end), members, key);
      SameReadToken(a, b, k, t.end);
      SameDecodeString(a, b, k, t);
    }
    SameSkipComments(a, b, k, s.pos);
  }

  lemma {:induction false} SameMember(
      f: Features, a: Bytes, b: Bytes, k: nat, s: State, members: seq<Member>, key: Bytes)
    requires Agree(a, b, k) && s.pos <= |a|
    requires var r := ReadMember(f, a, s, members, key); r.Returned? && r.ok && r.state.pos <= k
    ensures s.pos < k && ReadMember(f, b, s, members, key) == ReadMember(f, a, s, members, key)
    decreases |a| - s.pos, 3
  {
    hide ReadValue, AfterMember, Find, Put, Continues;
    var r := ReadValue(f, a, s, Find(members, key));
    SameAfter(f, a, b, k, r.state, Put(members, key, r.value), key);
    SameValue(f, a, b, k, s, Find(members, key));
  }

  lemma {:induction false} SameAfter(
      f: Features, a: Bytes, b: Bytes, k: nat, s: State, members: seq<Member>, name: Bytes)
    requires Agree(a, b, k) && s.pos <= |a|
    requires var r := AfterMember(f, a, s, members, name); r.Returned? && r.ok && r.state.pos <= k
    ensures s.pos < k && AfterMember(f, b, s, members, name) == AfterMember(f, a, s, members, name)
    decreases |a| - s.pos, 2
  {
    hide SkipComments, ReadToken, ReadMembers, Continues;
    var comma := ReadToken(a, s.pos);
    var last := if comma.kind == Comment then SkipComments(a, comma.end) else comma;
    if last.kind != ObjectEnd {
      MembersStart(f, a, s.(pos := last.end), members, name);
      SameMembers(f, a, b, k, s.(pos := last.end), members, name);
    }
    if comma.kind == Comment {
      SameSkipComments(a, b, k, comma.end);
    }
    SameReadToken(a, b, k, s.pos);
  }

  /** Members go on with a key, a closing bracket, a comment or white space. */
  lemma MembersStart(f: Features, a: Bytes, s: State, members: seq<Member>, name: Bytes)
    requires s.pos <= |a|
    requires var r := ReadMembers(f, a, s, members, name); r.Returned? && r.ok
    ensures s.pos < |a| && a[s.pos] != 0x72 && a[s.pos] != 0x61 && a[s.pos] != 0x75
  {
    hide DecodeString, ReadMember;
    StartOfToken(a, s.pos);
  }

  lemma StartOfToken(a: Bytes, p: nat)
    requires p <= |a| && (SkipComments(a, p).kind == StringToken || SkipComments(a, p).kind == ObjectEnd)
    ensures p < |a| && a[p] != 0x72 && a[p] != 0x61 && a[p] != 0x75
  {
    hide ScanString, ScanComment, ScanMatch, NumberEnd;
  }
}
