/**
 Four ways in which the reader departs from RFC 8259, and exactly when: integers the grammar does
 not have, text behind the root value, tokens taken for the comma between members, and a comma
 behind the last member.
 */
module JsonDeviations {
  import opened Maybe
  import opened Words
  import opened JsonValue
  import opened JsonText
  import opened JsonLexer
  import opened JsonDecode
  import opened JsonParser
  import opened JsonSteps
  import G = JsonGrammar
  import L = JsonLocality
  import R = JsonReading
  import T = JsonStandard
  import X = JsonExtended

  // -------------------------------------------------------------------- numbers

  /** The text is a number of section 6 of RFC 8259. */
  ghost predicate IsNumeral(text: Bytes) {
    exists n :: G.ProperNumeral(n) && G.NumeralText(n) == text
  }

  /** A number without fraction and exponent that fits the integer types. */
  predicate Whole(text: Bytes) {
    && text != [] && AllDigits(X.Digits(text))
    && DecimalValue(X.Digits(text)) <= MagnitudeLimit(text[0] == MINUS)
  }

  /**
   The reader takes every such text for an integer; it is none of RFC 8259 exactly when it has
   no digit at all or a zero before another digit.
   */
  lemma WholeNumbers(text: Bytes, toDouble: Bytes -> Option<Double>)
    requires Whole(text)
    ensures DecodeNumber(text, toDouble) == Some(IntegerValue(text[0] == MINUS, DecimalValue(X.Digits(text))))
    ensures IsNumeral(text) <==> X.Digits(text) != [] && (X.Digits(text)[0] == 0x30 ==> |X.Digits(text)| == 1)
  {
    var digits := X.Digits(text);
    var n := G.Numeral(text[0] == MINUS, digits, None, None);
    if digits != [] && (digits[0] == 0x30 ==> |digits| == 1) {
      assert G.ProperNumeral(n) && G.NumeralText(n) == text;
    }
    forall m | G.ProperNumeral(m) && G.NumeralText(m) == text ensures m == n {
      OnlyDigits(m, text);
    }
  }

  lemma NoTail(digits: Bytes, tail: Bytes)
    requires AllDigits(digits + tail) && (tail != [] ==> !IsDigit(tail[0]))
    ensures tail == []
  {
    assert tail == (digits + tail)[|digits|..];
  }

  /** Digits alone come from the integer part alone. */
  lemma OnlyDigits(m: G.Numeral, text: Bytes)
    requires G.ProperNumeral(m) && G.NumeralText(m) == text && text != [] && AllDigits(X.Digits(text))
    ensures m == G.Numeral(text[0] == MINUS, X.Digits(text), None, None)
  {
    hide G.NumeralText, X.Tail, X.Digits;
    X.NumeralSplit(m);
    NoTail(m.integer, X.Tail(m));
    assert m.integer + [] == m.integer;
    assert text[0] == if m.minus then MINUS else m.integer[0];
  }

  /** Such a text alone is an accepted document. */
  lemma ParseWhole(f: Features, text: Bytes, root: Value)
    requires Whole(text) && !f.strictRoot
    ensures Parse(f, text, root)
            == Returned(true, State(|text|, 0, []), IntegerValue(text[0] == MINUS, DecimalValue(X.Digits(text))))
  {
    WholeText(text, f.allowComments, f.toDouble);
    var n := G.Numeral(text[0] == MINUS, X.Digits(text), None, None);
    hide *;
    Alone(text, X.NumberText(n));
    R.ParsePrefix(f, text, [], X.NumberText(n), root);
    EndToken(f, text, |text|);
  }

  /** The derivation of such a text. */
  lemma WholeText(text: Bytes, comments: bool, toDouble: Bytes -> Option<Double>)
    requires Whole(text)
    ensures var t := X.NumberText(G.Numeral(text[0] == MINUS, X.Digits(text), None, None));
            && X.Proper(t, comments, toDouble) && X.Allowed([], comments) && X.FillerText([]) + X.Render(t) == text
            && X.Meaning(t, comments, toDouble) == IntegerValue(text[0] == MINUS, DecimalValue(X.Digits(text)))
            && X.Depth(t) == 1 <= STACK_LIMIT
  {
    hide DecimalValue;
    var digits := X.Digits(text);
    var n := G.Numeral(text[0] == MINUS, digits, None, None);
    assert G.NumeralText(n) == text;
    assert text[0] != MINUS ==> digits == text;
  }

  /** Nothing follows a text that ends the document. */
  lemma Alone(text: Bytes, t: X.Text)
    ensures R.Ends(text, |text|, t) && SkipSpaces(text, |text|) == |text|
  {
    hide G.NumeralText;
  }

  /** A lone minus sign is read as zero. */
  lemma LoneMinus(f: Features, root: Value)
    requires !f.strictRoot
    ensures Parse(f, [MINUS], root) == Returned(true, State(1, 0, []), Int(0)) && !IsNumeral([MINUS])
  {
    ParseWhole(f, [MINUS], root);
    WholeNumbers([MINUS], f.toDouble);
  }

  /** 07 is read as seven. */
  lemma LeadingZero(f: Features, root: Value)
    requires !f.strictRoot
    ensures Parse(f, [0x30, 0x37], root) == Returned(true, State(2, 0, []), Int(7)) && !IsNumeral([0x30, 0x37])
  {
    var text := [0x30, 0x37];
    assert text[..1] == [0x30] && DecimalValue([0x30]) == 0;
    assert DecimalValue(text) == 7;
    ParseWhole(f, text, root);
    WholeNumbers(text, f.toDouble);
  }

  // ------------------------------------------------------ text behind the root value

  /** Where the root value ends. */
  function RootEnd(f: Features, doc: Bytes, root: Value): (k: nat)
    requires ReadValue(f, doc, State(0, 0, []), root).Returned?
    ensures k <= |doc|
  {
    ReadValue(f, doc, State(0, 0, []), root).state.pos
  }

  /** What follows the root value continues it: it is a number, and the next byte belongs to it. */
  predicate RootGoesOn(f: Features, doc: Bytes, rest: Bytes, root: Value)
    requires ReadValue(f, doc, State(0, 0, []), root).Returned?
  {
    && L.IsNumber(ReadValue(f, doc, State(0, 0, []), root).value)
    && L.Prolongs(f, doc, 0, RootEnd(f, doc, root), Peek(rest, 0))
  }

  /**
   What follows the root value changes nothing in how it is read, exactly unless it continues a
   number; and then neither the verdict nor the value of the document.
   */
  lemma RestIgnored(f: Features, doc: Bytes, rest: Bytes, root: Value)
    requires var r := ReadValue(f, doc, State(0, 0, []), root); r.Returned? && r.ok
    ensures var other := doc[..RootEnd(f, doc, root)] + rest;
            var here, there := Parse(f, doc, root), Parse(f, other, root);
            && (ReadValue(f, other, State(0, 0, []), root) == ReadValue(f, doc, State(0, 0, []), root)
                <==> !RootGoesOn(f, doc, rest, root))
            && (!RootGoesOn(f, doc, rest, root) ==>
                  here.Returned? && there.Returned? && there.ok == here.ok && there.value == here.value)
  {
    hide ReadValue, FirstToken, L.Prolongs;
    var s := State(0, 0, []);
    var k := RootEnd(f, doc, root);
    var other := doc[..k] + rest;
    assert Peek(other, k) == Peek(rest, 0);
    L.SameExactly(f, doc, other, k, s, root);
  }

  /** The document []] is accepted. */
  lemma TrailingBracket(f: Features, root: Value)
    ensures var r := Parse(f, [ARRAY_BEGIN, ARRAY_END, ARRAY_END], root);
            r.Returned? && r.ok && r.value == Array([])
  {
    var t := X.EmptyArray([]);
    assert X.FillerText([]) + X.Render(t) == [ARRAY_BEGIN, ARRAY_END];
    hide Parse, FirstToken;
    R.ParsePrefix(f, [ARRAY_BEGIN, ARRAY_END, ARRAY_END], [], t, root);
  }

  // ----------------------------------------------------------- between two members

  predicate Succeeds(r: Outcome) {
    r.Returned? && r.ok
  }

  /**
   A token that is neither a comma nor a closing bracket is taken for the comma exactly when a
   comment comes before it; otherwise it is reported.
   */
  lemma SeparatorAfterComment(f: Features, doc: Bytes, s: State, members: seq<Member>, name: Bytes)
    requires s.pos <= |doc|
    requires var last := SkipComments(doc, s.pos); last.kind != ObjectEnd && last.kind != ArraySeparator
    ensures var last := SkipComments(doc, s.pos);
            var after := AfterMember(f, doc, s, members, name);
            var next := ReadMembers(f, doc, s.(pos := last.end), members, name);
            && (Succeeds(after) <==> ReadToken(doc, s.pos).kind == Comment && Succeeds(next))
            && (ReadToken(doc, s.pos).kind == Comment ==> after == next)
            && (ReadToken(doc, s.pos).kind != Comment ==>
                  after.Returned? && after.state.errors == s.errors + [ErrorInfo(last, MissingObjectSeparator, None)])
  {
    hide ReadMembers, ReadToken;
  }

  /** A comma before the closing bracket is accepted exactly behind a member with an empty key. */
  lemma TrailingComma(f: Features, doc: Bytes, s: State, members: seq<Member>, name: Bytes)
    requires s.pos <= |doc| && ReadToken(doc, s.pos).kind == ArraySeparator
    requires SkipComments(doc, ReadToken(doc, s.pos).end).kind == ObjectEnd
    ensures var r := AfterMember(f, doc, s, members, name);
            (Succeeds(r) <==> name == []) && (name == [] ==> r.value == Object(members) && r.state.depth == s.depth)
  {
    hide ReadToken, SkipComments, DecodeString;
  }

  /** A member with a one-digit value. */
  function Small(key: seq<G.Char>, digit: Byte, after: seq<X.Piece>): X.Entry {
    X.Entry([], key, [], [], X.NumberText(G.Numeral(false, [digit], None, None)), after)
  }

  lemma SmallIs(key: seq<G.Char>, digit: Byte, after: seq<X.Piece>, comments: bool,
                toDouble: Bytes -> Option<Double>)
    requires IsDigit(digit) && X.ProperChars(key) && X.ProperFiller(after)
    ensures var e := Small(key, digit, after);
            && e.key == key && e.after == after
            && X.ProperEntry(e, comments, toDouble) && X.Proper(e.text, comments, toDouble)
            && X.EntryText(e) == G.StringText(key) + ([COLON, digit] + X.FillerText(after))
            && X.Meaning(e.text, comments, toDouble) == Int(digit - 0x30) && X.Depth(e.text) == 1
  {
    hide G.StringText, X.ProperChars, X.FillerText, X.Render, X.Proper, X.Meaning, X.ProperFiller, X.Bare;
    DigitIs(digit, comments, toDouble);
    NoFiller();
    Squeeze(G.StringText(key), digit, X.FillerText(after));
  }

  lemma DigitIs(digit: Byte, comments: bool, toDouble: Bytes -> Option<Double>)
    requires IsDigit(digit)
    ensures var t := X.NumberText(G.Numeral(false, [digit], None, None));
            && X.Proper(t, comments, toDouble) && X.Render(t) == [digit]
            && X.Meaning(t, comments, toDouble) == Int(digit - 0x30) && X.Depth(t) == 1
  {
    assert DecimalValue([digit]) == digit - 0x30;
  }

  lemma NoFiller()
    ensures X.FillerText([]) == [] && X.ProperFiller([]) && X.Bare([])
    ensures forall comments :: X.Allowed([], comments)
  {
  }

  lemma Squeeze(key: Bytes, digit: Byte, after: Bytes)
    ensures [] + (key + ([] + ([COLON] + ([] + ([digit] + after))))) == key + ([COLON, digit] + after)
  {
    assert [COLON] + ([] + ([digit] + after)) == [COLON, digit] + after;
  }

  /** A key of one byte, or of none. */
  lemma SmallKeys()
    ensures G.StringText([]) == [QUOTE, QUOTE] && X.ProperChars([]) && X.CharsMeaning([]) == []
    ensures forall b: Byte :: b != QUOTE && b != BACKSLASH ==>
              var key := [G.Plain(b)];
              G.StringText(key) == [QUOTE, b, QUOTE] && X.ProperChars(key) && X.CharsMeaning(key) == [b]
  {
    assert G.CharsText([]) == [];
    forall b: Byte | b != QUOTE && b != BACKSLASH
      ensures var key := [G.Plain(b)];
              G.StringText(key) == [QUOTE, b, QUOTE] && X.ProperChars(key) && X.CharsMeaning(key) == [b]
    {
      var key := [G.Plain(b)];
      assert key[1..] == [];
      assert G.CharsText(key) == [b] + [];
      assert X.CharsMeaning(key) == [b] + [];
    }
  }

  /** Two members, and between them a comment and a colon. */
  const COLON_FOR_COMMA: Bytes :=
    [OBJECT_BEGIN, QUOTE, 0x61, QUOTE, COLON, 0x31, SLASH, STAR, STAR, SLASH, COLON,
     QUOTE, 0x62, QUOTE, COLON, 0x32, OBJECT_END]

  /** It is accepted; the colon stands for the comma. */
  lemma ColonForComma(f: Features, root: Value)
    ensures var r := Parse(f, COLON_FOR_COMMA, root);
            Succeeds(r) && r.value == Object([Member([0x61], Int(1)), Member([0x62], Int(2))])
  {
    hide *;
    Constants();
    SmallKeys();
    CommentIs();
    NoFiller();
    TwoPuts();
    var a, b := [G.Plain(0x61)], [G.Plain(0x62)];
    var first, second := Small(a, 0x31, [X.Block([])]), Small(b, 0x32, []);
    SmallIs(a, 0x31, [X.Block([])], f.allowComments, f.toDouble);
    SmallIs(b, 0x32, [], f.allowComments, f.toDouble);
    var rest := X.LastMember(second);
    var ms := X.MoreMembers(first, [COLON], rest);
    T.LastMemberIs(second, [Member([0x61], Int(1))], [0x61], f.allowComments, f.toDouble);
    T.MoreMembersIs(first, [COLON], rest, [], [], f.allowComments, f.toDouble);
    T.ObjectIs(ms, f.allowComments, f.toDouble);
    T.MaxIs(1, 1);
    ColonText();
    AcceptsObject(f, COLON_FOR_COMMA, ms, root);
  }

  /** An object that is the whole document. */
  lemma AcceptsObject(f: Features, doc: Bytes, ms: X.Members, root: Value)
    requires X.Proper(X.ObjectText(ms), f.allowComments, f.toDouble) && X.Render(X.ObjectText(ms)) == doc
    requires X.Depth(X.ObjectText(ms)) <= STACK_LIMIT
    ensures var r := Parse(f, doc, root);
            Succeeds(r) && r.value == X.Meaning(X.ObjectText(ms), f.allowComments, f.toDouble)
  {
    hide Parse, FirstToken, X.Proper, X.Render, X.Meaning, X.Depth, X.FillerText;
    NoFiller();
    assert [] + X.Render(X.ObjectText(ms)) == doc;
    R.ParsePrefix(f, doc, [], X.ObjectText(ms), root);
  }

  lemma Constants()
    ensures STACK_LIMIT == 1000 && IsDigit(0x31) && IsDigit(0x32)
    ensures 0x61 != QUOTE && 0x61 != BACKSLASH && 0x62 != QUOTE && 0x62 != BACKSLASH
  {
  }

  lemma ColonText()
    ensures [OBJECT_BEGIN]
            + (([QUOTE, 0x61, QUOTE] + ([COLON, 0x31] + [SLASH, STAR, STAR, SLASH]))
               + ([COLON] + (([QUOTE, 0x62, QUOTE] + ([COLON, 0x32] + [])) + [OBJECT_END])))
            == COLON_FOR_COMMA
  {
  }

  lemma CommentIs()
    ensures var gap := [X.Block([])];
            X.ProperFiller(gap) && !X.Bare(gap) && X.FillerText(gap) == [SLASH, STAR, STAR, SLASH]
    ensures X.Separates([COLON], [X.Block([])])
  {
    var gap := [X.Block([])];
    assert gap[1..] == [] && !gap[0].Blank?;
    assert X.FillerText(gap) == X.PieceText(gap[0]) + X.FillerText([]);
  }

  lemma TwoPuts()
    ensures var first := [Member([0x61], Int(1))];
            && Put([], [0x61], Int(1)) == first
            && Put(first, [0x62], Int(2)) == [Member([0x61], Int(1)), Member([0x62], Int(2))]
    ensures Put([], [], Int(1)) == [Member([], Int(1))]
  {
    var first := [Member([0x61], Int(1))];
    assert BytesLess([0x61], [0x62]);
    assert !BytesLess([0x62], [0x61]);
    assert first[1..] == [];
    assert Put(first, [0x62], Int(2)) == [first[0]] + Put(first[1..], [0x62], Int(2));
  }

  /** One member with an empty key, a comma, and the closing bracket. */
  const COMMA_AT_END: Bytes := [OBJECT_BEGIN, QUOTE, QUOTE, COLON, 0x31, COMMA, OBJECT_END]

  /** It is accepted. */
  lemma CommaAtEnd(f: Features, root: Value)
    ensures var r := Parse(f, COMMA_AT_END, root); Succeeds(r) && r.value == Object([Member([], Int(1))])
  {
    hide *;
    Constants();
    SmallKeys();
    NoFiller();
    TwoPuts();
    var first, rest := Small([], 0x31, []), X.NoMember([]);
    var ms := X.MoreMembers(first, [COMMA], rest);
    SmallIs([], 0x31, [], f.allowComments, f.toDouble);
    T.NoneIs([], f.allowComments, f.toDouble);
    T.CommaSeparates([]);
    T.MoreMembersIs(first, [COMMA], rest, [], [], f.allowComments, f.toDouble);
    T.ObjectIs(ms, f.allowComments, f.toDouble);
    T.MaxIs(1, 0);
    CommaText();
    AcceptsObject(f, COMMA_AT_END, ms, root);
  }

  lemma CommaText()
    ensures [OBJECT_BEGIN] + (([QUOTE, QUOTE] + ([COLON, 0x31] + [])) + ([COMMA] + ([] + [OBJECT_END]))) == COMMA_AT_END
  {
  }
}
