/**
 Reading what was written: the writer's text of a value is a text of the grammar that means
 this value, so the reader gives it back at every nesting depth it accepts.
 */
module JsonRoundTrip {
  import opened Maybe
  import opened Words
  import opened JsonValue
  import opened JsonText
  import opened JsonParser
  import G = JsonGrammar
  import R = JsonStandard
  import Q = JsonReading

  // ----------------------------------------------------------------- strings

  /** The character the writer uses for a byte. */
  function CharOf(c: Byte): G.Char {
    if ShortEscape(c) != 0 then G.Short(ShortEscape(c))
    else if IsControl(c) || c == 0 then G.Unicode([0x30, 0x30, HexDigit(c / 16), HexDigit(c % 16)])
    else G.Plain(c)
  }

  lemma CharOfIs(c: Byte)
    ensures G.ProperChar(CharOf(c)) && G.CharText(CharOf(c)) == EscapeByte(c) && G.CharMeaning(CharOf(c)) == [c]
  {
    if ShortEscape(c) == 0 && (IsControl(c) || c == 0) {
      HexDigitValue(c / 16);
      HexDigitValue(c % 16);
      var hex := [0x30, 0x30, HexDigit(c / 16), HexDigit(c % 16)];
      assert G.HexValue(hex[0]) == Some(0);
      assert G.FourHex(hex) && G.HexNumber(hex) == c;
    }
  }

  lemma HexDigitValue(n: nat)
    requires n < 16
    ensures G.HexValue(HexDigit(n)) == Some(n)
  {
  }

  function CharsOf(s: Bytes): seq<G.Char> {
    if s == [] then [] else [CharOf(s[0])] + CharsOf(s[1..])
  }

  lemma {:induction false} CharsOfIs(s: Bytes)
    ensures G.ProperChars(CharsOf(s)) && G.CharsText(CharsOf(s)) == Escape(s) && G.CharsMeaning(CharsOf(s)) == s
  {
    if s != [] {
      hide CharOf, EscapeByte, G.ProperChar, G.CharText, G.CharMeaning;
      CharOfIs(s[0]);
      CharsOfIs(s[1..]);
      assert CharsOf(s)[1..] == CharsOf(s[1..]);
      assert s == [s[0]] + s[1..];
    }
  }

  // ---------------------------------------------------------------- integers

  /** The integers the reader tags the way they are written. */
  predicate CanonicalInteger(v: Value) {
    (v.Int? && -MAX_LARGEST_INT - 1 <= v.i <= MAX_INT) || (v.UInt? && MAX_INT < v.u <= MAX_LARGEST_UINT)
  }

  function IntegerText(v: Value): Bytes
    requires CanonicalInteger(v)
  {
    if v.Int? then IntText(v.i) else Decimal(v.u)
  }

  function NumeralOf(v: Value): G.Numeral
    requires CanonicalInteger(v)
  {
    if v.Int? && v.i < 0 then G.Numeral(true, Decimal(-v.i), None, None)
    else G.Numeral(false, Decimal(if v.Int? then v.i else v.u), None, None)
  }

  lemma NumeralOfIs(v: Value, toDouble: Bytes -> Option<Double>)
    requires CanonicalInteger(v)
    ensures G.ProperNumeral(NumeralOf(v)) && G.NumeralText(NumeralOf(v)) == IntegerText(v)
    ensures G.NumeralMeaning(NumeralOf(v), toDouble) == Some(v)
  {
    hide DecimalValue, Decimal, G.NumeralText, G.ProperNumeral, G.NumeralMeaning;
    var n: nat := if v.UInt? then v.u else if v.i < 0 then -v.i else v.i;
    DecimalInverse(n);
    NoLeadingZero(n);
    WholeNumeral(v.Int? && v.i < 0, Decimal(n));
    WholeMeaning(v, n, toDouble);
  }

  lemma WholeMeaning(v: Value, n: nat, toDouble: Bytes -> Option<Double>)
    requires CanonicalInteger(v) && n == (if v.UInt? then v.u else if v.i < 0 then -v.i else v.i)
    requires G.ProperNumeral(NumeralOf(v)) && DecimalValue(Decimal(n)) == n
    ensures G.NumeralMeaning(NumeralOf(v), toDouble) == Some(v)
  {
    hide DecimalValue, Decimal, G.NumeralText, G.ProperNumeral;
  }

  lemma WholeNumeral(minus: bool, digits: Bytes)
    requires digits != [] && AllDigits(digits) && (digits[0] == 0x30 ==> |digits| == 1)
    ensures var n := G.Numeral(minus, digits, None, None);
            G.ProperNumeral(n) && G.NumeralText(n) == if minus then [MINUS] + digits else digits
  {
  }

  lemma {:induction false} NoLeadingZero(n: nat)
    ensures Decimal(n)[0] == 0x30 ==> n == 0
    ensures n == 0 ==> |Decimal(n)| == 1
  {
    if n >= 10 {
      NoLeadingZero(n / 10);
    }
  }

  // ------------------------------------------------------------------ values

  /** Values whose text determines them: canonical integers and no reals. */
  predicate Canonical(v: Value) {
    match v
    case Int(_) => CanonicalInteger(v)
    case UInt(_) => CanonicalInteger(v)
    case Real(_) => false
    case Array(items) => forall i :: 0 <= i < |items| ==> Canonical(items[i])
    case Object(members) => forall i :: 0 <= i < |members| ==> Canonical(members[i].value)
    case _ => true
  }

  predicate AllCanonical(items: seq<Value>) {
    forall i :: 0 <= i < |items| ==> Canonical(items[i])
  }

  predicate AllMembersCanonical(members: seq<Member>) {
    forall i :: 0 <= i < |members| ==> Canonical(members[i].value)
  }

  /** Nesting depth; a scalar has depth one. */
  function Depth(v: Value): (d: nat)
    ensures d >= 1
    decreases v, 0
  {
    match v
    case Array(items) => 1 + ItemsDepth(items)
    case Object(members) => 1 + MembersDepth(members)
    case _ => 1
  }

  function ItemsDepth(items: seq<Value>): nat
    decreases items
  {
    if items == [] then 0 else G.Max(Depth(items[0]), ItemsDepth(items[1..]))
  }

  function MembersDepth(members: seq<Member>): nat
    decreases members
  {
    if members == [] then 0 else G.Max(Depth(members[0].value), MembersDepth(members[1..]))
  }

  /** The derivation the writer follows. */
  function TreeOf(o: WriterOptions, v: Value): G.Text
    requires Canonical(v)
    decreases v, 0
  {
    match v
    case Null => G.NullText
    case Bool(b) => G.BoolText(b)
    case Str(s) => G.StringValue(CharsOf(s))
    case Array(items) => G.ArrayText([], ItemsOf(o, items))
    case Object(members) => G.ObjectText([], EntriesOf(o, members))
    case _ => G.NumberText(NumeralOf(v))
  }

  function ItemsOf(o: WriterOptions, items: seq<Value>): seq<G.Item>
    requires AllCanonical(items)
    decreases items
  {
    if items == [] then [] else [G.Item([], TreeOf(o, items[0]), [])] + ItemsOf(o, items[1..])
  }

  function EntryOf(o: WriterOptions, m: Member): G.Entry
    requires Canonical(m.value)
    decreases m
  {
    G.Entry([], CharsOf(m.key), [], o.Separator()[1..], TreeOf(o, m.value), [])
  }

  function EntriesOf(o: WriterOptions, members: seq<Member>): seq<G.Entry>
    requires AllMembersCanonical(members)
    decreases members
  {
    if members == [] then [] else [EntryOf(o, members[0])] + EntriesOf(o, members[1..])
  }

  /** What the writer writes is a text of the grammar, and it means the value. */
  lemma {:induction false} WritesGrammar(o: WriterOptions, v: Value, toDouble: Bytes -> Option<Double>)
    requires !o.dropNullPlaceholders && Canonical(v) && WellFormed(v)
    ensures G.Proper(TreeOf(o, v), toDouble)
    ensures G.Render(TreeOf(o, v)) == ValueText(o, v)
    ensures G.Meaning(TreeOf(o, v), toDouble) == v
    ensures G.Depth(TreeOf(o, v)) == Depth(v)
    decreases v, 1
  {
    match v
    case Array(items) => WritesArray(o, items, toDouble);
    case Object(members) => WritesObject(o, members, toDouble);
    case _ => WritesScalar(o, v, toDouble);
  }

  lemma WritesScalar(o: WriterOptions, v: Value, toDouble: Bytes -> Option<Double>)
    requires !o.dropNullPlaceholders && Canonical(v) && !v.Array? && !v.Object?
    ensures G.Proper(TreeOf(o, v), toDouble)
    ensures G.Render(TreeOf(o, v)) == ValueText(o, v)
    ensures G.Meaning(TreeOf(o, v), toDouble) == v
    ensures G.Depth(TreeOf(o, v)) == Depth(v)
  {
    hide CharsOf, NumeralOf, Escape, Decimal, G.CharsText, G.CharsMeaning, G.NumeralText, G.NumeralMeaning,
         G.ProperChars, G.ProperNumeral;
    if v.Str? {
      CharsOfIs(v.s);
    } else if CanonicalInteger(v) {
      NumeralOfIs(v, toDouble);
    }
  }

  // ------------------------------------------------------------------ arrays

  lemma WritesArray(o: WriterOptions, items: seq<Value>, toDouble: Bytes -> Option<Double>)
    requires !o.dropNullPlaceholders && Canonical(Array(items)) && WellFormed(Array(items))
    ensures var t := TreeOf(o, Array(items));
            && G.Proper(t, toDouble) && G.Render(t) == ValueText(o, Array(items))
            && G.Meaning(t, toDouble) == Array(items) && G.Depth(t) == Depth(Array(items))
    decreases Array(items), 0
  {
    hide *;
    ArrayTree(o, items);
    WritesItems(o, items, toDouble);
    ArrayOf(ItemsOf(o, items), toDouble);
    R.ArrayTextParts([], ItemsOf(o, items), toDouble);
    if items != [] {
      assert [] + G.ItemsTail(ItemsOf(o, items)) == G.ItemsTail(ItemsOf(o, items));
      BeforeFirst(o, items);
    }
  }

  lemma ArrayTree(o: WriterOptions, items: seq<Value>)
    requires Canonical(Array(items)) && WellFormed(Array(items))
    ensures AllCanonical(items) && (forall i :: 0 <= i < |items| ==> WellFormed(items[i]))
    ensures TreeOf(o, Array(items)) == G.ArrayText([], ItemsOf(o, items))
    ensures ValueText(o, Array(items)) == [ARRAY_BEGIN] + (ItemsText(o, items) + [ARRAY_END])
    ensures items == [] ==> ItemsText(o, items) == []
    ensures Depth(Array(items)) == 1 + ItemsDepth(items)
    ensures |ItemsOf(o, items)| == 0 <==> items == []
  {
  }

  lemma BeforeFirst(o: WriterOptions, items: seq<Value>)
    requires AllCanonical(items) && items != []
    ensures ItemsOf(o, items) != [] && ItemsOf(o, items)[0].before == []
  {
  }

  lemma ArrayOf(items: seq<G.Item>, toDouble: Bytes -> Option<Double>)
    requires R.ProperItems(items, toDouble)
    ensures G.Proper(G.ArrayText([], items), toDouble)
  {
  }

  lemma ItemsOfStep(o: WriterOptions, items: seq<Value>)
    requires AllCanonical(items) && items != []
    ensures AllCanonical(items[1..]) && Canonical(items[0])
    ensures ItemsOf(o, items) == [G.Item([], TreeOf(o, items[0]), [])] + ItemsOf(o, items[1..])
  {
    hide TreeOf, Canonical;
  }

  lemma ItemsTextStep(o: WriterOptions, items: seq<Value>)
    requires items != []
    ensures ItemsText(o, items) + [ARRAY_END]
            == ValueText(o, items[0])
               + if |items| == 1 then [ARRAY_END] else [COMMA] + (ItemsText(o, items[1..]) + [ARRAY_END])
    ensures ItemsDepth(items) == G.Max(Depth(items[0]), ItemsDepth(items[1..]))
  {
    hide ValueText, Depth;
  }

  lemma NoItems(o: WriterOptions, toDouble: Bytes -> Option<Double>)
    ensures ItemsOf(o, []) == [] && R.ProperItems([], toDouble)
    ensures G.ItemsMeaning([], toDouble) == [] && G.ItemsDepth([]) == ItemsDepth([]) == 0
  {
  }

  lemma {:induction false} WritesItems(o: WriterOptions, items: seq<Value>, toDouble: Bytes -> Option<Double>)
    requires !o.dropNullPlaceholders && AllCanonical(items)
    requires forall i :: 0 <= i < |items| ==> WellFormed(items[i])
    ensures var all := ItemsOf(o, items);
            && R.ProperItems(all, toDouble) && (forall i :: 0 <= i < |all| ==> G.Proper(all[i].text, toDouble))
            && (items != [] ==> all != [] && G.ItemsTail(all) == ItemsText(o, items) + [ARRAY_END])
            && G.ItemsMeaning(all, toDouble) == items
            && G.ItemsDepth(all) == ItemsDepth(items)
    decreases items, 0
  {
    hide *;
    if items == [] {
      NoItems(o, toDouble);
    } else {
      var all := ItemsOf(o, items);
      ItemsOfStep(o, items);
      ItemsTextStep(o, items);
      assert all[1..] == ItemsOf(o, items[1..]);
      if |items| > 1 {
        ItemsOfStep(o, items[1..]);
      } else {
        NoItems(o, toDouble);
      }
      WritesGrammar(o, items[0], toDouble);
      WritesItems(o, items[1..], toDouble);
      ConsProperItems(all, toDouble);
      R.ItemsPieces(all, toDouble);
      R.ItemsParts(all, toDouble);
      assert items == [items[0]] + items[1..];
      var text, rest := ValueText(o, items[0]), ItemsText(o, items[1..]) + [ARRAY_END];
      assert [] + [ARRAY_END] == [ARRAY_END] && [] + rest == rest && [] + ([COMMA] + rest) == [COMMA] + rest;
    }
  }

  lemma ConsProperItems(all: seq<G.Item>, toDouble: Bytes -> Option<Double>)
    requires all != [] && all[0].before == [] && all[0].after == [] && G.Proper(all[0].text, toDouble)
    requires R.ProperItems(all[1..], toDouble)
    ensures R.ProperItems(all, toDouble)
  {
    hide G.Proper;
    forall i | 0 < i < |all|
      ensures G.White(all[i].before) && G.Proper(all[i].text, toDouble) && G.White(all[i].after)
    {
      assert all[i] == all[1..][i - 1];
    }
  }

  // ----------------------------------------------------------------- objects

  lemma WritesObject(o: WriterOptions, members: seq<Member>, toDouble: Bytes -> Option<Double>)
    requires !o.dropNullPlaceholders && Canonical(Object(members)) && WellFormed(Object(members))
    ensures var t := TreeOf(o, Object(members));
            && G.Proper(t, toDouble) && G.Render(t) == ValueText(o, Object(members))
            && G.Meaning(t, toDouble) == Object(members) && G.Depth(t) == Depth(Object(members))
    decreases Object(members), 0
  {
    hide *;
    ObjectTree(o, members);
    assert [] + members == members;
    WritesMembers(o, [], members, toDouble);
    ObjectOf(EntriesOf(o, members), toDouble);
    R.ObjectTextParts([], EntriesOf(o, members), toDouble);
    if members != [] {
      assert [] + G.EntriesTail(EntriesOf(o, members)) == G.EntriesTail(EntriesOf(o, members));
      BeforeFirstKey(o, members);
    }
  }

  lemma ObjectTree(o: WriterOptions, members: seq<Member>)
    requires Canonical(Object(members)) && WellFormed(Object(members))
    ensures AllMembersCanonical(members) && SortedKeys(members)
    ensures forall i :: 0 <= i < |members| ==> WellFormed(members[i].value)
    ensures TreeOf(o, Object(members)) == G.ObjectText([], EntriesOf(o, members))
    ensures ValueText(o, Object(members)) == [OBJECT_BEGIN] + (MembersText(o, members) + [OBJECT_END])
    ensures members == [] ==> MembersText(o, members) == []
    ensures Depth(Object(members)) == 1 + MembersDepth(members)
    ensures |EntriesOf(o, members)| == 0 <==> members == []
  {
  }

  lemma BeforeFirstKey(o: WriterOptions, members: seq<Member>)
    requires AllMembersCanonical(members) && members != []
    ensures EntriesOf(o, members) != [] && EntriesOf(o, members)[0].before == []
  {
  }

  lemma ObjectOf(entries: seq<G.Entry>, toDouble: Bytes -> Option<Double>)
    requires R.ProperEntries(entries, toDouble)
    ensures G.Proper(G.ObjectText([], entries), toDouble)
  {
  }

  lemma EntriesOfStep(o: WriterOptions, members: seq<Member>)
    requires AllMembersCanonical(members) && members != []
    ensures AllMembersCanonical(members[1..]) && Canonical(members[0].value)
    ensures EntriesOf(o, members) == [EntryOf(o, members[0])] + EntriesOf(o, members[1..])
    ensures EntryOf(o, members[0]).before == [] && EntryOf(o, members[0]).after == []
  {
    hide TreeOf, Canonical, CharsOf;
  }

  lemma MembersTextStep(o: WriterOptions, members: seq<Member>)
    requires members != []
    ensures MembersText(o, members) + [OBJECT_END]
            == MemberText(o, members[0])
               + if |members| == 1 then [OBJECT_END] else [COMMA] + (MembersText(o, members[1..]) + [OBJECT_END])
    ensures MembersDepth(members) == G.Max(Depth(members[0].value), MembersDepth(members[1..]))
  {
    hide ValueText, MemberText, Depth;
  }

  lemma NoMembers(o: WriterOptions, toDouble: Bytes -> Option<Double>)
    ensures EntriesOf(o, []) == [] && R.ProperEntries([], toDouble)
    ensures G.EntriesDepth([]) == MembersDepth([]) == 0
  {
  }

  /** One member. */
  lemma WritesMember(o: WriterOptions, m: Member, toDouble: Bytes -> Option<Double>)
    requires !o.dropNullPlaceholders && Canonical(m.value) && WellFormed(m.value)
    ensures var e := EntryOf(o, m);
            && R.ProperEntry(e, toDouble) && G.EntryText(e) == MemberText(o, m)
            && G.ProperChars(e.key) && G.CharsMeaning(e.key) == m.key
            && G.Proper(e.text, toDouble) && G.Meaning(e.text, toDouble) == m.value && G.Depth(e.text) == Depth(m.value)
    decreases m
  {
    hide *;
    WritesGrammar(o, m.value, toDouble);
    CharsOfIs(m.key);
    EntryOfIs(o, m);
    MemberTextIs(o, m, Escape(m.key), ValueText(o, m.value));
    ProperEntryIs(EntryOf(o, m), toDouble);
    R.EntryTextIs(EntryOf(o, m), toDouble);
    Q.StringPieces(CharsOf(m.key));
    assert [] + ([COLON] + (o.Separator()[1..] + ValueText(o, m.value)))
        == [COLON] + (o.Separator()[1..] + ValueText(o, m.value));
  }

  lemma EntryOfIs(o: WriterOptions, m: Member)
    requires Canonical(m.value)
    ensures |o.Separator()| > 0 && G.White(o.Separator()[1..]) && G.White([])
    ensures EntryOf(o, m) == G.Entry([], CharsOf(m.key), [], o.Separator()[1..], TreeOf(o, m.value), [])
  {
    hide TreeOf, CharsOf, Canonical;
  }

  lemma MemberTextIs(o: WriterOptions, m: Member, key: Bytes, text: Bytes)
    requires key == Escape(m.key) && text == ValueText(o, m.value) && |o.Separator()| > 0
    ensures MemberText(o, m) == [QUOTE] + (key + [QUOTE]) + ([COLON] + (o.Separator()[1..] + text))
  {
    hide Escape, ValueText;
    var gap, quoted := o.Separator()[1..], [QUOTE] + (key + [QUOTE]);
    assert o.Separator() == [COLON] + gap;
    assert Quote(m.key) == quoted;
    Reassociate(quoted, [COLON], gap, text);
  }

  lemma Reassociate(a: Bytes, b: Bytes, c: Bytes, d: Bytes)
    ensures a + (b + c) + d == a + (b + (c + d))
  {
  }

  lemma ProperEntryIs(e: G.Entry, toDouble: Bytes -> Option<Double>)
    requires G.White(e.before) && G.White(e.beforeColon) && G.White(e.afterColon) && G.White(e.after)
    requires G.ProperChars(e.key) && G.Proper(e.text, toDouble)
    ensures R.ProperEntry(e, toDouble)
  {
  }

  lemma {:induction false} WritesMembers(
      o: WriterOptions, done: seq<Member>, members: seq<Member>, toDouble: Bytes -> Option<Double>)
    requires !o.dropNullPlaceholders && AllMembersCanonical(members) && SortedKeys(done + members)
    requires forall i :: 0 <= i < |members| ==> WellFormed(members[i].value)
    ensures var all := EntriesOf(o, members);
            && R.ProperEntries(all, toDouble)
            && (forall i :: 0 <= i < |all| ==> G.ProperChars(all[i].key) && G.Proper(all[i].text, toDouble))
            && (members != [] ==> all != [] && G.EntriesTail(all) == MembersText(o, members) + [OBJECT_END])
            && G.EntriesMeaning(all, done, toDouble) == done + members
            && G.EntriesDepth(all) == MembersDepth(members)
    decreases members, 0
  {
    hide *;
    if members == [] {
      NoMembers(o, toDouble);
      R.NoMoreEntries(done, toDouble);
      assert done + members == done;
    } else {
      var all, m := EntriesOf(o, members), members[0];
      EntriesOfStep(o, members);
      MembersTextStep(o, members);
      assert all[1..] == EntriesOf(o, members[1..]);
      if |members| > 1 {
        EntriesOfStep(o, members[1..]);
      } else {
        NoMembers(o, toDouble);
      }
      WritesMember(o, m, toDouble);
      PutLast(done, members);
      assert done + members == done + [m] + members[1..];
      WritesMembers(o, done + [m], members[1..], toDouble);
      ConsProperEntries(all, toDouble);
      R.EntriesPieces(all, toDouble);
      R.EntriesParts(all, done, toDouble);
      var rest := MembersText(o, members[1..]) + [OBJECT_END];
      assert [] + [OBJECT_END] == [OBJECT_END] && [] + rest == rest && [] + ([COMMA] + rest) == [COMMA] + rest;
    }
  }

  lemma ConsProperEntries(all: seq<G.Entry>, toDouble: Bytes -> Option<Double>)
    requires all != [] && R.ProperEntry(all[0], toDouble) && R.ProperEntries(all[1..], toDouble)
    ensures R.ProperEntries(all, toDouble)
  {
    hide R.ProperEntry;
    forall i | 0 < i < |all| ensures R.ProperEntry(all[i], toDouble) {
      assert all[i] == all[1..][i - 1];
    }
  }

  lemma PutLast(done: seq<Member>, members: seq<Member>)
    requires members != [] && SortedKeys(done + members)
    ensures Put(done, members[0].key, members[0].value) == done + [members[0]]
  {
    var all := done + members;
    forall i | 0 <= i < |done| ensures BytesLess(done[i].key, members[0].key) {
      assert all[i] == done[i] && all[|done|] == members[0];
    }
    PutAbove(done, members[0]);
  }

  lemma {:induction false} PutAbove(done: seq<Member>, m: Member)
    requires forall i :: 0 <= i < |done| ==> BytesLess(done[i].key, m.key)
    ensures Put(done, m.key, m.value) == done + [m]
  {
    if done != [] {
      BytesTrichotomy(done[0].key, m.key);
      PutAbove(done[1..], m);
      assert done == [done[0]] + done[1..];
    }
  }

  // --------------------------------------------------------------- documents

  /**
   The round trip: parsing a written document succeeds and rebuilds exactly the value when
   it is nested at most STACK_LIMIT deep, and raises the stack limit otherwise.
   */
  lemma RoundTrip(f: Features, o: WriterOptions, v: Value, root: Value)
    requires !o.dropNullPlaceholders && Canonical(v) && WellFormed(v)
    requires f.strictRoot ==> v.Array? || v.Object?
    ensures Parse(f, Document(o, v), root)
         == if Depth(v) <= STACK_LIMIT then Returned(true, State(|Document(o, v)|, 0, []), v) else Threw
  {
    hide *;
    var after := if o.omitEndingLineFeed then [] else [NEWLINE];
    WritesGrammar(o, v, f.toDouble);
    DocumentIs(o, v, after);
    R.ParseText(f, [], TreeOf(o, v), after, root);
  }

  lemma DocumentIs(o: WriterOptions, v: Value, after: Bytes)
    requires Canonical(v) && after == if o.omitEndingLineFeed then [] else [NEWLINE]
    ensures Document(o, v) == [] + ValueText(o, v) + after && G.White([]) && G.White(after)
    ensures v.Array? || v.Object? ==> TreeOf(o, v).ArrayText? || TreeOf(o, v).ObjectText?
  {
  }
}
