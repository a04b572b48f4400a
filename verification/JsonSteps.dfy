/**
 The reader one step at a time: what its scanners do at a given place of a document, and how
 the functions of the parser unfold there.
 */
module JsonSteps {
  import opened Maybe
  import opened Words
  import opened JsonValue
  import opened JsonText
  import opened JsonLexer
  import opened JsonDecode
  import opened JsonParser

  /** The document contains w at position p. */
  predicate Has(doc: Bytes, p: nat, w: Bytes) {
    p + |w| <= |doc| && doc[p..p + |w|] == w
  }

  lemma HasSplit(doc: Bytes, p: nat, a: Bytes, b: Bytes)
    requires Has(doc, p, a + b)
    ensures Has(doc, p, a) && Has(doc, p + |a|, b)
  {
    var w := doc[p..p + |a + b|];
    assert w[..|a|] == a && w[|a|..] == b;
    assert doc[p..p + |a|] == w[..|a|];
    assert doc[p + |a|..p + |a| + |b|] == w[|a|..];
  }

  lemma HasAt(doc: Bytes, p: nat, w: Bytes)
    requires Has(doc, p, w)
    ensures p + |w| <= |doc|
    ensures forall i :: 0 <= i < |w| ==> doc[p + i] == w[i]
  {
    forall i | 0 <= i < |w| ensures doc[p + i] == w[i] {
      assert doc[p..p + |w|][i] == w[i];
    }
  }

  lemma ScanPlain(doc: Bytes, p: nat)
    requires p < |doc| && doc[p] != BACKSLASH && doc[p] != QUOTE
    ensures ScanString(doc, p) == ScanString(doc, p + 1)
  {
  }

  lemma DecodeDone(doc: Bytes, p: nat, acc: Bytes)
    requires p <= |doc|
    ensures DecodeFrom(doc, p, p, acc) == Decoded(acc)
  {
  }

  /** What the lexer does on an opening quote. */
  lemma QuoteToken(doc: Bytes, p: nat)
    requires p < |doc| && doc[p] == QUOTE
    ensures var r := ScanString(doc, p + 1);
            && TokenAt(doc, p) == Token(if r.ok then StringToken else ErrorToken, p, r.end)
            && (r.ok ==> DecodeString(doc, TokenAt(doc, p)) == DecodeFrom(doc, p + 1, r.end - 1, []))
  {
  }

  /** Reading past a token that is no comment. */
  lemma FirstTokenAt(f: Features, doc: Bytes, p: nat, q: nat)
    requires p <= |doc| && SkipSpaces(doc, p) == q && TokenAt(doc, q).kind != Comment
    ensures FirstToken(f, doc, p) == ReadToken(doc, p) == SkipComments(doc, p) == TokenAt(doc, q)
  {
  }

  /** The tokens that are a single character. */
  lemma PunctuationToken(doc: Bytes, p: nat)
    requires p < |doc|
    ensures doc[p] == OBJECT_BEGIN ==> TokenAt(doc, p) == Token(ObjectBegin, p, p + 1)
    ensures doc[p] == OBJECT_END ==> TokenAt(doc, p) == Token(ObjectEnd, p, p + 1)
    ensures doc[p] == ARRAY_BEGIN ==> TokenAt(doc, p) == Token(ArrayBegin, p, p + 1)
    ensures doc[p] == ARRAY_END ==> TokenAt(doc, p) == Token(ArrayEnd, p, p + 1)
    ensures doc[p] == COMMA ==> TokenAt(doc, p) == Token(ArraySeparator, p, p + 1)
    ensures doc[p] == COLON ==> TokenAt(doc, p) == Token(MemberSeparator, p, p + 1)
  {
  }

  /** A read one level down, as its caller sees it. */
  predicate Nested(inner: Outcome, outer: Outcome) {
    && (inner.Threw? ==> outer.Threw?)
    && (inner.Returned? && inner.state.depth > 0 ==>
          outer == Returned(inner.ok, inner.state.(depth := inner.state.depth - 1), inner.value))
  }

  lemma ReadValueThrows(f: Features, doc: Bytes, s: State, held: Value)
    requires s.pos <= |doc| && s.depth >= STACK_LIMIT
    ensures ReadValue(f, doc, s, held) == Threw
  {
  }

  lemma ReadValueArray(f: Features, doc: Bytes, s: State, held: Value, t: Token)
    requires s.pos <= |doc| && s.depth < STACK_LIMIT && t == FirstToken(f, doc, s.pos) && t.kind == ArrayBegin
    ensures Nested(ReadArray(f, doc, State(t.end, s.depth + 1, s.errors)), ReadValue(f, doc, s, held))
  {
    hide FirstToken, ReadArray, ReadMembers, ReadScalar;
  }

  lemma ReadValueObject(f: Features, doc: Bytes, s: State, held: Value, t: Token)
    requires s.pos <= |doc| && s.depth < STACK_LIMIT && t == FirstToken(f, doc, s.pos) && t.kind == ObjectBegin
    ensures Nested(ReadMembers(f, doc, State(t.end, s.depth + 1, s.errors), [], []), ReadValue(f, doc, s, held))
  {
    hide FirstToken, ReadArray, ReadMembers, ReadScalar;
  }

  lemma ReadValueScalar(f: Features, doc: Bytes, s: State, held: Value, t: Token)
    requires s.pos <= |doc| && s.depth < STACK_LIMIT && t == FirstToken(f, doc, s.pos)
    requires t.kind != ObjectBegin && t.kind != ArrayBegin
    ensures ReadValue(f, doc, s, held) == ReadScalar(f, doc, State(t.end, s.depth + 1, s.errors), t, held)
  {
    hide FirstToken, ReadArray, ReadMembers, ReadScalar;
  }

  lemma ReadValueNumber(f: Features, doc: Bytes, s: State, held: Value, t: Token, v: Value)
    requires s.pos <= |doc| && s.depth < STACK_LIMIT && t == FirstToken(f, doc, s.pos) && t.kind == NumberToken
    requires DecodeNumber(doc[t.start..t.end], f.toDouble) == Some(v)
    ensures ReadValue(f, doc, s, held) == Returned(true, s.(pos := t.end), v)
  {
    hide FirstToken, DecodeNumber, DecodeString, ReadValue;
    ReadValueScalar(f, doc, s, held, t);
  }

  lemma ReadValueString(f: Features, doc: Bytes, s: State, held: Value, t: Token, text: Bytes)
    requires s.pos <= |doc| && s.depth < STACK_LIMIT && t == FirstToken(f, doc, s.pos) && t.kind == StringToken
    requires DecodeString(doc, t) == Decoded(text)
    ensures ReadValue(f, doc, s, held) == Returned(true, s.(pos := t.end), Str(text))
  {
    hide FirstToken, DecodeNumber, DecodeString, ReadValue;
    ReadValueScalar(f, doc, s, held, t);
  }

  lemma ReadValueLiteral(f: Features, doc: Bytes, s: State, held: Value, t: Token)
    requires s.pos <= |doc| && s.depth < STACK_LIMIT && t == FirstToken(f, doc, s.pos)
    requires t.kind in {NullToken, TrueToken, FalseToken}
    ensures ReadValue(f, doc, s, held)
         == Returned(true, s.(pos := t.end), if t.kind == NullToken then Null else Bool(t.kind == TrueToken))
  {
    hide FirstToken, DecodeNumber, DecodeString, ReadValue;
    ReadValueScalar(f, doc, s, held, t);
  }

  lemma ReadItemsStep(f: Features, doc: Bytes, s: State, items: seq<Value>, r: Outcome)
    requires s.pos <= |doc| && r == ReadValue(f, doc, s, Null)
    ensures r.Threw? ==> ReadItems(f, doc, s, items) == Threw
    ensures r.Returned? && r.ok ==>
      var t := SkipComments(doc, r.state.pos);
      var result := ReadItems(f, doc, s, items);
      var next := r.state.(pos := t.end);
      && (t.kind == ArrayEnd ==> result == Returned(true, next, Array(items + [r.value])))
      && (t.kind == ArraySeparator ==> result == ReadItems(f, doc, next, items + [r.value]))
  {
    hide SkipComments, ReadValue;
  }

  lemma ReadMembersStep(f: Features, doc: Bytes, s: State, members: seq<Member>, name: Bytes,
                        t: Token, key: Bytes, colon: Token, r: Outcome)
    requires s.pos <= |doc| && t == SkipComments(doc, s.pos) && t.kind == StringToken
    requires DecodeString(doc, t) == Decoded(key) && colon == ReadToken(doc, t.end) && colon.kind == MemberSeparator
    requires r == ReadValue(f, doc, s.(pos := colon.end), Find(members, key))
    ensures r.Threw? ==> ReadMembers(f, doc, s, members, name) == Threw
    ensures r.Returned? && r.ok ==>
      ReadMembers(f, doc, s, members, name) == AfterMember(f, doc, r.state, Put(members, key, r.value), key)
  {
    hide SkipComments, ReadToken, DecodeString, ReadValue, Find, Put, AfterMember;
  }

  lemma LiteralToken(doc: Bytes, p: nat, text: Bytes)
    requires Has(doc, p, text)
    ensures text == NULL_TEXT ==> TokenAt(doc, p) == Token(NullToken, p, p + |text|)
    ensures text == TRUE_TEXT ==> TokenAt(doc, p) == Token(TrueToken, p, p + |text|)
    ensures text == FALSE_TEXT ==> TokenAt(doc, p) == Token(FalseToken, p, p + |text|)
  {
    if text in {NULL_TEXT, TRUE_TEXT, FALSE_TEXT} {
      var tail := text[1..];
      assert text == [text[0]] + tail;
      HasSplit(doc, p, [text[0]], tail);
      HasAt(doc, p, [text[0]]);
      assert tail == if text == NULL_TEXT then ULL else if text == TRUE_TEXT then RUE else ALSE;
      assert ScanMatch(doc, p + 1, tail) == Scan(true, p + |text|);
    }
  }

  lemma EndToken(f: Features, doc: Bytes, p: nat)
    requires p <= |doc| && SkipSpaces(doc, p) == |doc|
    ensures FirstToken(f, doc, p).end == |doc|
  {
    FirstTokenAt(f, doc, p, |doc|);
  }

  lemma ParseStep(f: Features, doc: Bytes, root: Value, r: Outcome)
    requires r == ReadValue(f, doc, State(0, 0, []), root)
    ensures r.Threw? ==> Parse(f, doc, root) == Threw
    ensures r.Returned? && (f.strictRoot ==> r.value.Array? || r.value.Object?) ==>
              Parse(f, doc, root) == Returned(r.ok, r.state.(pos := FirstToken(f, doc, r.state.pos).end), r.value)
  {
    hide ReadValue, FirstToken;
  }
}
