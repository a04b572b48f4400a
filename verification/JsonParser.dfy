/**
 The specification of Reader::parse: a recursive-descent parser over positions of the
 document, with error recovery and a nesting limit.
 */
module JsonParser {
  import opened Maybe
  import opened Words
  import opened JsonValue
  import opened JsonText
  import opened JsonLexer
  import opened JsonDecode

  const STACK_LIMIT: nat := 1000

  /** Reader's settings; the conversion of other numbers comes from the C library. */
  datatype Features = Features(allowComments: bool, strictRoot: bool, toDouble: Bytes -> Option<Double>)

  datatype ErrorInfo = ErrorInfo(token: Token, message: Message, extra: Option<nat>)

  /** The cursor, the nesting depth and the errors recorded so far. */
  datatype State = State(pos: nat, depth: nat, errors: seq<ErrorInfo>) {
    function Add(token: Token, message: Message, extra: Option<nat>): State {
      this.(errors := errors + [ErrorInfo(token, message, extra)])
    }

    function Recover(doc: Bytes, until: TokenType): State
      requires pos <= |doc|
    {
      this.(pos := RecoverTo(doc, pos, until))
    }
  }

  /** How a read ends: with the exception of the stack limit, or with a verdict and the value left behind. */
  datatype Outcome = Threw | Returned(ok: bool, state: State, value: Value)

  /**
   What every read promises: the cursor moves forward within the document; success records
   nothing and balances the depth, failure records exactly one error.
   */
  predicate Sound(doc: Bytes, s: State, r: Outcome) {
    r.Returned? ==>
      && s.pos <= r.state.pos <= |doc|
      && s.depth <= r.state.depth
      && (r.ok ==> r.state.errors == s.errors && r.state.depth == s.depth)
      && (!r.ok ==> |r.state.errors| == |s.errors| + 1 && s.errors < r.state.errors)
  }

  function FirstToken(f: Features, doc: Bytes, p: nat): (t: Token)
    requires p <= |doc|
    ensures p <= t.start <= t.end <= |doc|
    ensures t.end == t.start <==> t.start == |doc|
    ensures t.start == |doc| ==> t.kind == EndOfStream
    ensures t.kind == StringToken ==> t.start + 2 <= t.end
  {
    if f.allowComments then SkipComments(doc, p) else ReadToken(doc, p)
  }

  function Leave(r: Outcome): Outcome
    requires r.Returned? ==> r.state.depth > 0
  {
    match r
    case Threw => Threw
    case Returned(ok, state, value) => Returned(ok, state.(depth := state.depth - 1), value)
  }

  /** readValue; held is what the node contains before the call. */
  function ReadValue(f: Features, doc: Bytes, s: State, held: Value): (r: Outcome)
    requires s.pos <= |doc|
    ensures Sound(doc, s, r)
    decreases |doc| - s.pos, 0
  {
    if s.depth >= STACK_LIMIT then Threw
    else
      var t := FirstToken(f, doc, s.pos);
      var inner := State(t.end, s.depth + 1, s.errors);
      if t.kind == ObjectBegin then Leave(ReadMembers(f, doc, inner, [], []))
      else if t.kind == ArrayBegin then Leave(ReadArray(f, doc, inner))
      else ReadScalar(f, doc, inner, t, held)
  }

  /** The other tokens a value can start with; a token that starts no value leaves the depth unbalanced. */
  function ReadScalar(f: Features, doc: Bytes, inner: State, t: Token, held: Value): Outcome
    requires inner.depth > 0
    requires t.end <= |doc| && (t.start < t.end || t.kind == EndOfStream)
    requires t.kind == StringToken ==> t.start + 2 <= t.end
  {
    match t.kind
    case NumberToken => Leave(ReadNumber(f, doc, inner, t, held))
    case StringToken => Leave(ReadString(doc, inner, t, held))
    case TrueToken => Leave(Returned(true, inner, Bool(true)))
    case FalseToken => Leave(Returned(true, inner, Bool(false)))
    case NullToken => Leave(Returned(true, inner, Null))
    case _ => Returned(false, inner.Add(t, ValueExpected, None), held)
  }

  function ReadNumber(f: Features, doc: Bytes, s: State, t: Token, held: Value): Outcome
    requires t.start < t.end <= |doc|
  {
    match DecodeNumber(doc[t.start..t.end], f.toDouble)
    case None => Returned(false, s.Add(t, NotANumber, None), held)
    case Some(v) => Returned(true, s, v)
  }

  function ReadString(doc: Bytes, s: State, t: Token, held: Value): Outcome
    requires t.start + 2 <= t.end <= |doc|
  {
    match DecodeString(doc, t)
    case BadString(message, extra) => Returned(false, s.Add(t, message, Some(extra)), held)
    case Decoded(text) => Returned(true, s, Str(text))
  }

  /** readObject's loop: members are complete, and name is the key read last. */
  function ReadMembers(f: Features, doc: Bytes, s: State, members: seq<Member>, name: Bytes): (r: Outcome)
    requires s.pos <= |doc|
    ensures Sound(doc, s, r)
    decreases |doc| - s.pos, 1
  {
    var t := SkipComments(doc, s.pos);
    var s1 := s.(pos := t.end);
    if t.kind == ObjectEnd && name == [] then Returned(true, s1, Object(members))
    else if t.kind != StringToken then
      Returned(false, s1.Add(t, MissingMemberName, None).Recover(doc, ObjectEnd), Object(members))
    else
      match DecodeString(doc, t)
      case BadString(message, extra) =>
        Returned(false, s1.Add(t, message, Some(extra)).Recover(doc, ObjectEnd), Object(members))
      case Decoded(key) =>
        var colon := ReadToken(doc, t.end);
        var s2 := s.(pos := colon.end);
        if colon.kind != MemberSeparator then
          Returned(false, s2.Add(colon, MissingColon, None).Recover(doc, ObjectEnd), Object(members))
        else ReadMember(f, doc, s2, members, key)
  }

  /** The value of a member, and what follows it. */
  function ReadMember(f: Features, doc: Bytes, s: State, members: seq<Member>, key: Bytes): (r: Outcome)
    requires s.pos <= |doc|
    ensures Sound(doc, s, r)
    decreases |doc| - s.pos, 3
  {
    match ReadValue(f, doc, s, Find(members, key))
    case Threw => Threw
    case Returned(ok, s1, v) =>
      var extended := Put(members, key, v);
      if !ok then Returned(false, s1.Recover(doc, ObjectEnd), Object(extended))
      else AfterMember(f, doc, s1, extended, key)
  }

  /** What follows a member: a comma or the end, possibly behind comments. */
  function AfterMember(f: Features, doc: Bytes, s: State, members: seq<Member>, name: Bytes): (r: Outcome)
    requires s.pos <= |doc|
    ensures Sound(doc, s, r)
    decreases |doc| - s.pos, 2
  {
    var comma := ReadToken(doc, s.pos);
    if comma.kind != ObjectEnd && comma.kind != ArraySeparator && comma.kind != Comment then
      var s1 := s.(pos := comma.end).Add(comma, MissingObjectSeparator, None);
      Returned(false, s1.Recover(doc, ObjectEnd), Object(members))
    else
      var last := if comma.kind == Comment then SkipComments(doc, comma.end) else comma;
      if last.kind == ObjectEnd then Returned(true, s.(pos := last.end), Object(members))
      else ReadMembers(f, doc, s.(pos := last.end), members, name)
  }

  function ReadArray(f: Features, doc: Bytes, s: State): (r: Outcome)
    requires s.pos <= |doc|
    ensures Sound(doc, s, r)
    decreases |doc| - s.pos, 2
  {
    var p := SkipSpaces(doc, s.pos);
    if Peek(doc, p) == ARRAY_END then Returned(true, s.(pos := ReadToken(doc, p).end), Array([]))
    else ReadItems(f, doc, s.(pos := p), [])
  }

  /** readArray's loop: items are complete. */
  function ReadItems(f: Features, doc: Bytes, s: State, items: seq<Value>): (r: Outcome)
    requires s.pos <= |doc|
    ensures Sound(doc, s, r)
    decreases |doc| - s.pos, 1
  {
    match ReadValue(f, doc, s, Null)
    case Threw => Threw
    case Returned(ok, s1, v) =>
      var extended := items + [v];
      if !ok then Returned(false, s1.Recover(doc, ArrayEnd), Array(extended))
      else
        var t := SkipComments(doc, s1.pos);
        var s2 := s1.(pos := t.end);
        if t.kind == ArrayEnd then Returned(true, s2, Array(extended))
        else if t.kind == ArraySeparator then ReadItems(f, doc, s2, extended)
        else Returned(false, s2.Add(t, MissingArraySeparator, None).Recover(doc, ArrayEnd), Array(extended))
  }

  /** The result of parse; root is what the caller's value holds before the call. */
  function Parse(f: Features, doc: Bytes, root: Value): (r: Outcome)
    ensures r.Returned? ==> r.state.pos <= |doc|
    ensures r.Returned? ==> (r.ok <==> r.state.errors == [])
    ensures r.Returned? ==> |r.state.errors| <= 2
  {
    match ReadValue(f, doc, State(0, 0, []), root)
    case Threw => Threw
    case Returned(ok, s, value) =>
      var s1 := s.(pos := FirstToken(f, doc, s.pos).end);
      if f.strictRoot && !value.Array? && !value.Object? then
        Returned(false, s1.Add(Token(ErrorToken, 0, |doc|), RootNotContainer, None), value)
      else Returned(ok, s1, value)
  }

  // ------------------------------------------------------- the map invariant

  /** Reading keeps the keys of every object strictly ascending. */
  lemma {:induction false} ReadValueWellFormed(f: Features, doc: Bytes, s: State, held: Value)
    requires s.pos <= |doc| && WellFormed(held)
    ensures var r := ReadValue(f, doc, s, held); r.Returned? ==> WellFormed(r.value)
    decreases |doc| - s.pos, 0
  {
    if s.depth < STACK_LIMIT {
      var t := FirstToken(f, doc, s.pos);
      var inner := State(t.end, s.depth + 1, s.errors);
      if t.kind == ObjectBegin {
        ReadMembersWellFormed(f, doc, inner, [], []);
      } else if t.kind == ArrayBegin {
        ReadArrayWellFormed(f, doc, inner);
      } else {
        ReadScalarWellFormed(f, doc, inner, t, held);
      }
    }
  }

  lemma ReadScalarWellFormed(f: Features, doc: Bytes, inner: State, t: Token, held: Value)
    requires ReadScalar.requires(f, doc, inner, t, held) && WellFormed(held)
    ensures var r := ReadScalar(f, doc, inner, t, held); r.Returned? && WellFormed(r.value)
  {
  }

  lemma ReadArrayWellFormed(f: Features, doc: Bytes, s: State)
    requires s.pos <= |doc|
    ensures var r := ReadArray(f, doc, s); r.Returned? ==> WellFormed(r.value)
    decreases |doc| - s.pos, 2
  {
    var p := SkipSpaces(doc, s.pos);
    if Peek(doc, p) != ARRAY_END {
      ReadItemsWellFormed(f, doc, s.(pos := p), []);
    }
  }

  lemma {:induction false} ReadMembersWellFormed(f: Features, doc: Bytes, s: State, members: seq<Member>, name: Bytes)
    requires s.pos <= |doc| && WellFormed(Object(members))
    ensures var r := ReadMembers(f, doc, s, members, name); r.Returned? ==> WellFormed(r.value)
    decreases |doc| - s.pos, 1
  {
    var t := SkipComments(doc, s.pos);
    if t.kind == StringToken && DecodeString(doc, t).Decoded? {
      var key := DecodeString(doc, t).text;
      var colon := ReadToken(doc, t.end);
      if colon.kind == MemberSeparator {
        ReadMemberWellFormed(f, doc, s.(pos := colon.end), members, key);
      }
    }
  }

  lemma {:induction false} ReadMemberWellFormed(f: Features, doc: Bytes, s: State, members: seq<Member>, key: Bytes)
    requires s.pos <= |doc| && WellFormed(Object(members))
    ensures var r := ReadMember(f, doc, s, members, key); r.Returned? ==> WellFormed(r.value)
    decreases |doc| - s.pos, 3
  {
    FindWellFormed(members, key);
    ReadValueWellFormed(f, doc, s, Find(members, key));
    var v := ReadValue(f, doc, s, Find(members, key));
    if v.Returned? {
      PutWellFormed(members, key, v.value);
      if v.ok {
        AfterMemberWellFormed(f, doc, v.state, Put(members, key, v.value), key);
      }
    }
  }

  lemma {:induction false} AfterMemberWellFormed(f: Features, doc: Bytes, s: State, members: seq<Member>, name: Bytes)
    requires s.pos <= |doc| && WellFormed(Object(members))
    ensures var r := AfterMember(f, doc, s, members, name); r.Returned? ==> WellFormed(r.value)
    decreases |doc| - s.pos, 2
  {
    var comma := ReadToken(doc, s.pos);
    if comma.kind == ObjectEnd || comma.kind == ArraySeparator || comma.kind == Comment {
      var last := if comma.kind == Comment then SkipComments(doc, comma.end) else comma;
      if last.kind != ObjectEnd {
        ReadMembersWellFormed(f, doc, s.(pos := last.end), members, name);
      }
    }
  }

  lemma {:induction false} ReadItemsWellFormed(f: Features, doc: Bytes, s: State, items: seq<Value>)
    requires s.pos <= |doc| && WellFormed(Array(items))
    ensures var r := ReadItems(f, doc, s, items); r.Returned? ==> WellFormed(r.value)
    decreases |doc| - s.pos, 1
  {
    ReadValueWellFormed(f, doc, s, Null);
    var r := ReadValue(f, doc, s, Null);
    if r.Returned? {
      var extended := items + [r.value];
      assert WellFormed(Array(extended));
      var t := SkipComments(doc, r.state.pos);
      if r.ok && t.kind == ArraySeparator {
        ReadItemsWellFormed(f, doc, r.state.(pos := t.end), extended);
      }
    }
  }

  lemma {:induction false} FindWellFormed(members: seq<Member>, key: Bytes)
    requires WellFormed(Object(members))
    ensures WellFormed(Find(members, key))
  {
    if members != [] && members[0].key != key {
      assert WellFormed(Object(members[1..]));
      FindWellFormed(members[1..], key);
    }
  }

  /** Assigning through operator[] keeps the map sorted. */
  lemma {:induction false} PutWellFormed(members: seq<Member>, key: Bytes, value: Value)
    requires WellFormed(Object(members)) && WellFormed(value)
    ensures WellFormed(Object(Put(members, key, value)))
    ensures forall m :: m in Put(members, key, value) ==> m in members || m.key == key
  {
    if members == [] {
    } else if BytesLess(key, members[0].key) {
      PutFrontSorted(members, key, value);
    } else if members[0].key == key {
      var rest := members[1..];
      assert forall i :: 0 <= i < |rest| ==> rest[i] == members[i + 1];
    } else {
      BytesTrichotomy(key, members[0].key);
      var rest := members[1..];
      assert forall i :: 0 <= i < |rest| ==> rest[i] == members[i + 1];
      PutWellFormed(rest, key, value);
      ConsSorted(members[0], Put(rest, key, value));
    }
  }

  lemma PutFrontSorted(members: seq<Member>, key: Bytes, value: Value)
    requires WellFormed(Object(members)) && WellFormed(value)
    requires members != [] && BytesLess(key, members[0].key)
    ensures WellFormed(Object([Member(key, value)] + members))
  {
    forall i | 0 <= i < |members| ensures BytesLess(key, members[i].key) {
      if i > 0 {
        BytesLessTransitive(key, members[0].key, members[i].key);
      }
    }
    ConsSorted(Member(key, value), members);
  }

  lemma ConsSorted(m: Member, rest: seq<Member>)
    requires WellFormed(m.value) && WellFormed(Object(rest))
    requires forall r :: r in rest ==> BytesLess(m.key, r.key)
    ensures WellFormed(Object([m] + rest))
  {
    var all := [m] + rest;
    forall i, j | 0 <= i < j < |all| ensures BytesLess(all[i].key, all[j].key) {
      assert all[j] == rest[j - 1];
      if i > 0 {
        assert all[i] == rest[i - 1];
      }
    }
  }
}
