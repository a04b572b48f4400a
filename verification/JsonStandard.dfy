/**
 The standard within the extension: every text of RFC 8259 is a text of the extended grammar,
 written alike and with the same meaning, so it parses to what it means.
 */
module JsonStandard {
  import opened Maybe
  import opened Words
  import opened JsonValue
  import opened JsonText
  import opened JsonGrammar
  import J = JsonLexer
  import P = JsonParser
  import R = JsonReading
  import S = JsonSteps
  import X = JsonExtended

  // ----------------------------------------------------------------- parts of a text

  predicate ProperItems(items: seq<Item>, toDouble: Bytes -> Option<Double>) {
    forall i :: 0 <= i < |items| ==>
      White(items[i].before) && Proper(items[i].text, toDouble) && White(items[i].after)
  }

  lemma ArrayTextParts(gap: Bytes, items: seq<Item>, toDouble: Bytes -> Option<Double>)
    requires Proper(ArrayText(gap, items), toDouble)
    ensures White(gap) && ProperItems(items, toDouble) && Depth(ArrayText(gap, items)) == 1 + ItemsDepth(items)
    ensures Render(ArrayText(gap, items))
            == [ARRAY_BEGIN] + if items == [] then gap + [ARRAY_END] else items[0].before + ItemsTail(items)
    ensures Meaning(ArrayText(gap, items), toDouble) == Array(ItemsMeaning(items, toDouble))
    ensures items == [] ==> ItemsDepth(items) == 0 && ItemsMeaning(items, toDouble) == []
  {
  }

  /** The text of a list: its first element, and what comes after it. */
  lemma ItemsPieces(items: seq<Item>, toDouble: Bytes -> Option<Double>)
    requires items != [] && ProperItems(items, toDouble)
    ensures White(items[0].before) && Proper(items[0].text, toDouble) && White(items[0].after)
    ensures ProperItems(items[1..], toDouble) && (|items| > 1 ==> White(items[1].before))
    ensures ItemsTail(items)
            == Render(items[0].text)
               + (items[0].after + if |items| == 1 then [ARRAY_END]
                                   else [COMMA] + (items[1].before + ItemsTail(items[1..])))
  {
    hide Render, Proper, White;
  }

  lemma ItemsParts(items: seq<Item>, toDouble: Bytes -> Option<Double>)
    requires items != [] && ProperItems(items, toDouble)
    ensures forall i :: 0 <= i < |items| ==> Proper(items[i].text, toDouble)
    ensures forall i :: 0 <= i < |items[1..]| ==> Proper(items[1..][i].text, toDouble)
    ensures ItemsMeaning(items, toDouble) == [Meaning(items[0].text, toDouble)] + ItemsMeaning(items[1..], toDouble)
    ensures ItemsDepth(items) == Max(Depth(items[0].text), ItemsDepth(items[1..]))
    ensures |items| == 1 ==> ItemsMeaning(items[1..], toDouble) == [] && ItemsDepth(items[1..]) == 0
  {
    hide Proper, White, Meaning, Depth;
  }

  predicate ProperEntry(e: Entry, toDouble: Bytes -> Option<Double>) {
    && White(e.before) && ProperChars(e.key) && White(e.beforeColon)
    && White(e.afterColon) && Proper(e.text, toDouble) && White(e.after)
  }

  predicate ProperEntries(entries: seq<Entry>, toDouble: Bytes -> Option<Double>) {
    forall i :: 0 <= i < |entries| ==> ProperEntry(entries[i], toDouble)
  }

  lemma ObjectTextParts(gap: Bytes, entries: seq<Entry>, toDouble: Bytes -> Option<Double>)
    requires Proper(ObjectText(gap, entries), toDouble)
    ensures White(gap) && ProperEntries(entries, toDouble)
    ensures Depth(ObjectText(gap, entries)) == 1 + EntriesDepth(entries)
    ensures Render(ObjectText(gap, entries))
            == [OBJECT_BEGIN] + if entries == [] then gap + [OBJECT_END] else entries[0].before + EntriesTail(entries)
    ensures Meaning(ObjectText(gap, entries), toDouble) == Object(EntriesMeaning(entries, [], toDouble))
    ensures entries == [] ==> EntriesDepth(entries) == 0 && EntriesMeaning(entries, [], toDouble) == []
  {
  }

  lemma EntriesPieces(entries: seq<Entry>, toDouble: Bytes -> Option<Double>)
    requires entries != [] && ProperEntries(entries, toDouble)
    ensures ProperEntry(entries[0], toDouble) && ProperEntries(entries[1..], toDouble)
    ensures ProperChars(entries[0].key) && Proper(entries[0].text, toDouble)
    ensures White(entries[0].before) && White(entries[0].after) && (|entries| > 1 ==> White(entries[1].before))
    ensures EntriesTail(entries)
            == EntryText(entries[0])
               + (entries[0].after + if |entries| == 1 then [OBJECT_END]
                                     else [COMMA] + (entries[1].before + EntriesTail(entries[1..])))
  {
    hide EntryText, Proper, White, ProperChars;
  }

  lemma EntriesParts(entries: seq<Entry>, done: seq<Member>, toDouble: Bytes -> Option<Double>)
    requires entries != [] && ProperEntries(entries, toDouble)
    ensures forall i :: 0 <= i < |entries| ==> ProperChars(entries[i].key) && Proper(entries[i].text, toDouble)
    ensures forall i :: 0 <= i < |entries[1..]| ==>
              ProperChars(entries[1..][i].key) && Proper(entries[1..][i].text, toDouble)
    ensures EntriesMeaning(entries, done, toDouble)
            == EntriesMeaning(entries[1..],
                              Put(done, CharsMeaning(entries[0].key), Meaning(entries[0].text, toDouble)), toDouble)
    ensures EntriesDepth(entries) == Max(Depth(entries[0].text), EntriesDepth(entries[1..]))
    ensures |entries| == 1 ==> EntriesDepth(entries[1..]) == 0
  {
    hide Proper, ProperChars, White, Meaning, CharsMeaning, Depth, Put;
  }

  lemma NoMoreEntries(done: seq<Member>, toDouble: Bytes -> Option<Double>)
    ensures EntriesMeaning([], done, toDouble) == done
  {
  }

  lemma EntryTextIs(e: Entry, toDouble: Bytes -> Option<Double>)
    requires ProperEntry(e, toDouble)
    ensures ProperChars(e.key) && White(e.beforeColon) && White(e.afterColon) && Proper(e.text, toDouble)
    ensures EntryText(e) == StringText(e.key) + (e.beforeColon + ([COLON] + (e.afterColon + Render(e.text))))
  {
    hide Render, StringText;
  }

  // ------------------------------------------------------------- strings and numbers

  lemma SameChar(c: Char)
    requires ProperChar(c)
    ensures X.ProperChar(c) && X.CharMeaning(c) == CharMeaning(c)
  {
    hide Utf8, HexNumber;
    if c.Pair? {
      LowSurrogate(HexNumber(c.low));
    }
  }

  lemma LowSurrogate(low: nat)
    requires 0xDC00 <= low <= 0xDFFF
    ensures low % 0x400 == low - 0xDC00
  {
  }

  lemma {:induction false} SameChars(cs: seq<Char>)
    requires ProperChars(cs)
    ensures X.ProperChars(cs) && X.CharsMeaning(cs) == CharsMeaning(cs)
  {
    hide ProperChar, X.ProperChar, CharMeaning, X.CharMeaning;
    if cs != [] {
      SameChar(cs[0]);
      SameChars(cs[1..]);
      assert forall i :: 0 < i < |cs| ==> cs[i] == cs[1..][i - 1];
    }
  }

  lemma SameNumeral(n: Numeral)
    requires ProperNumeral(n)
    ensures X.ProperNumeral(n)
  {
  }

  // -------------------------------------------------------------------------- values

  function Blanks(ws: Bytes): seq<X.Piece> {
    if ws == [] then [] else [X.Blank(ws[0])] + Blanks(ws[1..])
  }

  lemma {:induction false} BlanksAre(ws: Bytes)
    requires White(ws)
    ensures X.ProperFiller(Blanks(ws)) && X.Bare(Blanks(ws)) && X.FillerText(Blanks(ws)) == ws
  {
    if ws != [] {
      BlanksAre(ws[1..]);
      assert Blanks(ws)[1..] == Blanks(ws[1..]);
      assert ws == [ws[0]] + ws[1..];
    }
  }

  /** The derivation in the extended grammar. */
  function Loose(t: Text): X.Text
    decreases t, 0
  {
    match t
    case NullText => X.NullText
    case BoolText(b) => X.BoolText(b)
    case NumberText(n) => X.NumberText(n)
    case StringValue(cs) => X.StringText(cs)
    case ArrayText(gap, items) => if items == [] then X.EmptyArray(Blanks(gap)) else X.ArrayText(LooseItems(items))
    case ObjectText(gap, entries) =>
      X.ObjectText(if entries == [] then X.NoMember(Blanks(gap)) else LooseEntries(entries))
  }

  function LooseItem(item: Item): X.Element
    decreases item, 0
  {
    X.Element(Blanks(item.before), Loose(item.text), Blanks(item.after))
  }

  function LooseItems(items: seq<Item>): X.Elements
    requires items != []
    decreases items, 0
  {
    if |items| == 1 then X.LastElement(LooseItem(items[0]))
    else X.MoreElements(LooseItem(items[0]), LooseItems(items[1..]))
  }

  function LooseEntry(e: Entry): X.Entry
    decreases e, 0
  {
    X.Entry(Blanks(e.before), e.key, Blanks(e.beforeColon), Blanks(e.afterColon), Loose(e.text), Blanks(e.after))
  }

  function LooseEntries(entries: seq<Entry>): X.Members
    requires entries != []
    decreases entries, 0
  {
    if |entries| == 1 then X.LastMember(LooseEntry(entries[0]))
    else X.MoreMembers(LooseEntry(entries[0]), [COMMA], LooseEntries(entries[1..]))
  }

  /** Written alike, with the same meaning and depth. */
  ghost predicate Same(t: Text, comments: bool, toDouble: Bytes -> Option<Double>)
    requires Proper(t, toDouble)
  {
    var u := Loose(t);
    && X.Proper(u, comments, toDouble) && X.Render(u) == Render(t)
    && X.Meaning(u, comments, toDouble) == Meaning(t, toDouble) && X.Depth(u) == Depth(t)
  }

  lemma {:induction false} IsExtended(t: Text, comments: bool, toDouble: Bytes -> Option<Double>)
    requires Proper(t, toDouble)
    ensures Same(t, comments, toDouble)
    decreases t, 1
  {
    match t
    case ArrayText(gap, items) => ArraySame(gap, items, comments, toDouble);
    case ObjectText(gap, entries) => ObjectSame(gap, entries, comments, toDouble);
    case _ => ScalarSame(t, comments, toDouble);
  }

  lemma ScalarSame(t: Text, comments: bool, toDouble: Bytes -> Option<Double>)
    requires Proper(t, toDouble) && !t.ArrayText? && !t.ObjectText?
    ensures Same(t, comments, toDouble)
  {
    hide NumeralText, NumeralMeaning, StringText, CharsMeaning, X.CharsMeaning, ProperChars, X.ProperChars;
    hide ProperNumeral, X.ProperNumeral;
    if t.NumberText? {
      SameNumeral(t.n);
    } else if t.StringValue? {
      SameChars(t.cs);
    }
  }

  // -------------------------------------------------------------------------- arrays

  lemma ArraySame(gap: Bytes, items: seq<Item>, comments: bool, toDouble: Bytes -> Option<Double>)
    requires Proper(ArrayText(gap, items), toDouble)
    ensures Same(ArrayText(gap, items), comments, toDouble)
    decreases ArrayText(gap, items), 0
  {
    hide *;
    ArrayTextParts(gap, items, toDouble);
    LooseArray(gap, items);
    if items == [] {
      BlanksAre(gap);
      EmptySame(Blanks(gap), comments, toDouble);
    } else {
      ItemsSame(items, comments, toDouble);
      ArrayIs(LooseItems(items), comments, toDouble);
    }
    SameIs(ArrayText(gap, items), comments, toDouble);
  }

  lemma LooseArray(gap: Bytes, items: seq<Item>)
    ensures Loose(ArrayText(gap, items))
            == if items == [] then X.EmptyArray(Blanks(gap)) else X.ArrayText(LooseItems(items))
  {
  }

  lemma EmptySame(gap: seq<X.Piece>, comments: bool, toDouble: Bytes -> Option<Double>)
    requires X.ProperFiller(gap) && X.Bare(gap)
    ensures var u := X.EmptyArray(gap);
            && X.Proper(u, comments, toDouble) && X.Render(u) == [ARRAY_BEGIN] + (X.FillerText(gap) + [ARRAY_END])
            && X.Meaning(u, comments, toDouble) == Array([]) && X.Depth(u) == 1
  {
  }

  lemma ArrayIs(es: X.Elements, comments: bool, toDouble: Bytes -> Option<Double>)
    requires X.ProperElements(es, comments, toDouble)
    ensures var u := X.ArrayText(es);
            && X.Proper(u, comments, toDouble) && X.Render(u) == [ARRAY_BEGIN] + X.ElementsText(es)
            && X.Meaning(u, comments, toDouble) == Array(X.ElementsMeaning(es, comments, toDouble))
            && X.Depth(u) == 1 + X.ElementsDepth(es)
  {
    hide X.ProperElements, X.ElementsText, X.ElementsMeaning, X.ElementsDepth;
  }

  lemma SameIs(t: Text, comments: bool, toDouble: Bytes -> Option<Double>)
    requires Proper(t, toDouble)
    requires X.Proper(Loose(t), comments, toDouble) && X.Render(Loose(t)) == Render(t)
    requires X.Meaning(Loose(t), comments, toDouble) == Meaning(t, toDouble) && X.Depth(Loose(t)) == Depth(t)
    ensures Same(t, comments, toDouble)
  {
  }

  lemma SameGives(t: Text, comments: bool, toDouble: Bytes -> Option<Double>)
    requires Proper(t, toDouble) && Same(t, comments, toDouble)
    ensures X.Proper(Loose(t), comments, toDouble) && X.Render(Loose(t)) == Render(t)
    ensures X.Meaning(Loose(t), comments, toDouble) == Meaning(t, toDouble) && X.Depth(Loose(t)) == Depth(t)
  {
  }

  lemma {:induction false} ItemsSame(items: seq<Item>, comments: bool, toDouble: Bytes -> Option<Double>)
    requires items != [] && ProperItems(items, toDouble)
    ensures forall i :: 0 <= i < |items| ==> Proper(items[i].text, toDouble)
    ensures var es := LooseItems(items);
            && X.ProperElements(es, comments, toDouble)
            && X.ElementsText(es) == items[0].before + ItemsTail(items)
            && X.ElementsMeaning(es, comments, toDouble) == ItemsMeaning(items, toDouble)
            && X.ElementsDepth(es) == ItemsDepth(items)
    decreases items, 0
  {
    hide *;
    ItemsPieces(items, toDouble);
    ItemsParts(items, toDouble);
    LooseItemsIs(items);
    var item, e := items[0], LooseItem(items[0]);
    BlanksAre(item.before);
    BlanksAre(item.after);
    IsExtended(item.text, comments, toDouble);
    SameGives(item.text, comments, toDouble);
    ElementIs(item, comments, toDouble);
    var v := Meaning(item.text, toDouble);
    if |items| == 1 {
      LastIs(e, comments, toDouble);
      assert [v] + [] == [v];
      MaxIs(Depth(item.text), 0);
      Text2(item.before, Render(item.text), item.after, [ARRAY_END]);
    } else {
      ItemsSame(items[1..], comments, toDouble);
      MoreIs(e, LooseItems(items[1..]), comments, toDouble);
      Text2(item.before, Render(item.text), item.after, [COMMA] + (items[1].before + ItemsTail(items[1..])));
    }
  }

  lemma LooseItemsIs(items: seq<Item>)
    requires items != []
    ensures LooseItems(items)
            == if |items| == 1 then X.LastElement(LooseItem(items[0]))
               else X.MoreElements(LooseItem(items[0]), LooseItems(items[1..]))
    ensures LooseItem(items[0])
            == X.Element(Blanks(items[0].before), Loose(items[0].text), Blanks(items[0].after))
  {
  }

  lemma ElementIs(item: Item, comments: bool, toDouble: Bytes -> Option<Double>)
    requires X.ProperFiller(Blanks(item.before)) && X.Bare(Blanks(item.before)) && X.ProperFiller(Blanks(item.after))
    requires X.Proper(Loose(item.text), comments, toDouble)
    ensures X.ProperElement(LooseItem(item), comments, toDouble)
    ensures X.ElementText(LooseItem(item))
            == X.FillerText(Blanks(item.before)) + (X.Render(Loose(item.text)) + X.FillerText(Blanks(item.after)))
  {
    hide X.Proper, X.Render, X.FillerText, Blanks, Loose;
  }

  lemma LastIs(e: X.Element, comments: bool, toDouble: Bytes -> Option<Double>)
    requires X.ProperElement(e, comments, toDouble) && X.Proper(e.text, comments, toDouble)
    ensures var es := X.LastElement(e);
            && X.ProperElements(es, comments, toDouble) && X.ElementsText(es) == X.ElementText(e) + [ARRAY_END]
            && X.ElementsMeaning(es, comments, toDouble) == [X.Meaning(e.text, comments, toDouble)]
            && X.ElementsDepth(es) == X.Depth(e.text)
  {
    hide X.Proper, X.Meaning, X.Depth, X.ElementText, X.ProperElement;
  }

  lemma MoreIs(e: X.Element, rest: X.Elements, comments: bool, toDouble: Bytes -> Option<Double>)
    requires X.ProperElement(e, comments, toDouble) && X.Proper(e.text, comments, toDouble)
    requires X.ProperElements(rest, comments, toDouble)
    ensures var es := X.MoreElements(e, rest);
            && X.ProperElements(es, comments, toDouble)
            && X.ElementsText(es) == X.ElementText(e) + ([COMMA] + X.ElementsText(rest))
            && X.ElementsMeaning(es, comments, toDouble)
               == [X.Meaning(e.text, comments, toDouble)] + X.ElementsMeaning(rest, comments, toDouble)
            && X.ElementsDepth(es) == Max(X.Depth(e.text), X.ElementsDepth(rest))
  {
    hide X.Proper, X.Meaning, X.Depth, X.ElementText, X.ProperElement;
  }

  lemma Text2(a: Bytes, b: Bytes, c: Bytes, d: Bytes)
    ensures a + (b + c) + d == a + (b + (c + d))
  {
  }

  lemma MaxIs(a: nat, b: nat)
    ensures Max(a, b) == if a < b then b else a
  {
  }

  // ------------------------------------------------------------------------- objects

  lemma ObjectSame(gap: Bytes, entries: seq<Entry>, comments: bool, toDouble: Bytes -> Option<Double>)
    requires Proper(ObjectText(gap, entries), toDouble)
    ensures Same(ObjectText(gap, entries), comments, toDouble)
    decreases ObjectText(gap, entries), 0
  {
    hide *;
    ObjectTextParts(gap, entries, toDouble);
    LooseObject(gap, entries);
    if entries == [] {
      BlanksAre(gap);
      NoneIs(Blanks(gap), comments, toDouble);
      ObjectIs(X.NoMember(Blanks(gap)), comments, toDouble);
    } else {
      EntriesSame(entries, [], [], comments, toDouble);
      ObjectIs(LooseEntries(entries), comments, toDouble);
    }
    SameIs(ObjectText(gap, entries), comments, toDouble);
  }

  lemma LooseObject(gap: Bytes, entries: seq<Entry>)
    ensures Loose(ObjectText(gap, entries))
            == X.ObjectText(if entries == [] then X.NoMember(Blanks(gap)) else LooseEntries(entries))
  {
  }

  lemma NoneIs(gap: seq<X.Piece>, comments: bool, toDouble: Bytes -> Option<Double>)
    requires X.ProperFiller(gap)
    ensures var ms := X.NoMember(gap);
            && X.ProperMembers(ms, [], comments, toDouble) && X.MembersText(ms) == X.FillerText(gap) + [OBJECT_END]
            && (forall done :: X.MembersMeaning(ms, done, [], comments, toDouble) == done) && X.MembersDepth(ms) == 0
  {
  }

  lemma ObjectIs(ms: X.Members, comments: bool, toDouble: Bytes -> Option<Double>)
    requires X.ProperMembers(ms, [], comments, toDouble)
    ensures var u := X.ObjectText(ms);
            && X.Proper(u, comments, toDouble) && X.Render(u) == [OBJECT_BEGIN] + X.MembersText(ms)
            && X.Meaning(u, comments, toDouble) == Object(X.MembersMeaning(ms, [], [], comments, toDouble))
            && X.Depth(u) == 1 + X.MembersDepth(ms)
  {
    hide X.ProperMembers, X.MembersText, X.MembersMeaning, X.MembersDepth;
  }

  lemma {:induction false} EntriesSame(
      entries: seq<Entry>, done: seq<Member>, name: Bytes, comments: bool, toDouble: Bytes -> Option<Double>)
    requires entries != [] && ProperEntries(entries, toDouble)
    ensures forall i :: 0 <= i < |entries| ==> ProperChars(entries[i].key) && Proper(entries[i].text, toDouble)
    ensures var ms := LooseEntries(entries);
            && X.ProperMembers(ms, name, comments, toDouble)
            && X.MembersText(ms) == entries[0].before + EntriesTail(entries)
            && X.MembersMeaning(ms, done, name, comments, toDouble) == EntriesMeaning(entries, done, toDouble)
            && X.MembersDepth(ms) == EntriesDepth(entries)
    decreases entries, 0
  {
    hide *;
    EntriesPieces(entries, toDouble);
    EntriesParts(entries, done, toDouble);
    LooseEntriesIs(entries);
    var e, u := entries[0], LooseEntry(entries[0]);
    EntrySame(e, comments, toDouble);
    var key, v := CharsMeaning(e.key), Meaning(e.text, toDouble);
    var extended := Put(done, key, v);
    if |entries| == 1 {
      LastMemberIs(u, done, name, comments, toDouble);
      assert entries[1..] == [];
      NoMoreEntries(extended, toDouble);
      MaxIs(Depth(e.text), 0);
      Text2(e.before, EntryText(e), e.after, [OBJECT_END]);
    } else {
      EntriesSame(entries[1..], extended, key, comments, toDouble);
      CommaSeparates(u.after);
      MoreMembersIs(u, [COMMA], LooseEntries(entries[1..]), done, name, comments, toDouble);
      Text2(e.before, EntryText(e), e.after, [COMMA] + (entries[1].before + EntriesTail(entries[1..])));
    }
  }

  lemma LooseEntriesIs(entries: seq<Entry>)
    requires entries != []
    ensures LooseEntries(entries)
            == if |entries| == 1 then X.LastMember(LooseEntry(entries[0]))
               else X.MoreMembers(LooseEntry(entries[0]), [COMMA], LooseEntries(entries[1..]))
  {
  }

  lemma EntrySame(e: Entry, comments: bool, toDouble: Bytes -> Option<Double>)
    requires ProperEntry(e, toDouble)
    ensures ProperChars(e.key) && Proper(e.text, toDouble)
    ensures var u := LooseEntry(e);
            && X.ProperEntry(u, comments, toDouble) && X.ProperChars(u.key) && X.Proper(u.text, comments, toDouble)
            && X.EntryText(u) == e.before + (EntryText(e) + e.after)
            && X.CharsMeaning(u.key) == CharsMeaning(e.key)
            && X.Meaning(u.text, comments, toDouble) == Meaning(e.text, toDouble) && X.Depth(u.text) == Depth(e.text)
    decreases e
  {
    hide *;
    EntryTextIs(e, toDouble);
    EntryWhite(e, toDouble);
    BlanksAre(e.before);
    BlanksAre(e.beforeColon);
    BlanksAre(e.afterColon);
    BlanksAre(e.after);
    SameChars(e.key);
    IsExtended(e.text, comments, toDouble);
    SameGives(e.text, comments, toDouble);
    LooseEntryIs(e, comments, toDouble);
    Text5(StringText(e.key), e.beforeColon, e.afterColon, Render(e.text), e.after);
  }

  lemma EntryWhite(e: Entry, toDouble: Bytes -> Option<Double>)
    requires ProperEntry(e, toDouble)
    ensures White(e.before) && White(e.beforeColon) && White(e.afterColon) && White(e.after)
  {
  }

  lemma LooseEntryIs(e: Entry, comments: bool, toDouble: Bytes -> Option<Double>)
    requires X.ProperFiller(Blanks(e.before)) && X.ProperFiller(Blanks(e.after)) && X.ProperChars(e.key)
    requires X.ProperFiller(Blanks(e.beforeColon)) && X.Bare(Blanks(e.beforeColon))
    requires X.ProperFiller(Blanks(e.afterColon)) && X.Bare(Blanks(e.afterColon))
    requires X.Proper(Loose(e.text), comments, toDouble)
    ensures var u := LooseEntry(e);
            && u.key == e.key && u.text == Loose(e.text) && X.ProperEntry(u, comments, toDouble)
            && X.EntryText(u)
               == X.FillerText(Blanks(e.before))
                  + (StringText(e.key)
                     + (X.FillerText(Blanks(e.beforeColon))
                        + ([COLON] + (X.FillerText(Blanks(e.afterColon))
                                      + (X.Render(Loose(e.text)) + X.FillerText(Blanks(e.after)))))))
  {
    hide X.Proper, X.Render, X.FillerText, X.ProperFiller, X.Bare, Blanks, Loose, StringText, X.ProperChars;
  }

  lemma Text5(key: Bytes, a: Bytes, b: Bytes, text: Bytes, after: Bytes)
    ensures key + (a + ([COLON] + (b + (text + after)))) == key + (a + ([COLON] + (b + text))) + after
  {
    R.Associate(b, text, after);
    R.Associate([COLON], b + text, after);
    R.Associate(a, [COLON] + (b + text), after);
    R.Associate(key, a + ([COLON] + (b + text)), after);
  }

  lemma LastMemberIs(
      u: X.Entry, done: seq<Member>, name: Bytes, comments: bool, toDouble: Bytes -> Option<Double>)
    requires X.ProperEntry(u, comments, toDouble) && X.ProperChars(u.key) && X.Proper(u.text, comments, toDouble)
    ensures var ms := X.LastMember(u);
            && X.ProperMembers(ms, name, comments, toDouble) && X.MembersText(ms) == X.EntryText(u) + [OBJECT_END]
            && X.MembersMeaning(ms, done, name, comments, toDouble)
               == Put(done, X.CharsMeaning(u.key), X.Meaning(u.text, comments, toDouble))
            && X.MembersDepth(ms) == X.Depth(u.text)
  {
    hide X.Proper, X.Meaning, X.Depth, X.EntryText, X.ProperEntry, X.ProperChars, X.CharsMeaning, Put;
  }

  lemma MoreMembersIs(u: X.Entry, separator: Bytes, rest: X.Members, done: seq<Member>, name: Bytes, comments: bool,
                      toDouble: Bytes -> Option<Double>)
    requires X.ProperEntry(u, comments, toDouble) && X.ProperChars(u.key) && X.Proper(u.text, comments, toDouble)
    requires X.Separates(separator, u.after) && X.ProperMembers(rest, X.CharsMeaning(u.key), comments, toDouble)
    ensures var ms := X.MoreMembers(u, separator, rest);
            var key := X.CharsMeaning(u.key);
            && X.ProperMembers(ms, name, comments, toDouble)
            && X.MembersText(ms) == X.EntryText(u) + (separator + X.MembersText(rest))
            && X.MembersMeaning(ms, done, name, comments, toDouble)
               == X.MembersMeaning(rest, Put(done, key, X.Meaning(u.text, comments, toDouble)), key, comments, toDouble)
            && X.MembersDepth(ms) == Max(X.Depth(u.text), X.MembersDepth(rest))
  {
    hide X.Proper, X.Meaning, X.Depth, X.EntryText, X.ProperEntry, X.ProperChars, X.CharsMeaning, Put, X.Separates;
  }

  lemma CommaSeparates(gap: seq<X.Piece>)
    ensures X.Separates([COMMA], gap)
  {
  }

  // ----------------------------------------------------------------------- documents

  /**
   Every text of RFC 8259, between white space, parses to what it means when it is nested at most
   STACK_LIMIT deep, and raises the stack limit otherwise.
   */
  lemma ParseText(f: P.Features, before: Bytes, t: Text, after: Bytes, root: Value)
    requires Proper(t, f.toDouble) && White(before) && White(after)
    requires f.strictRoot ==> t.ArrayText? || t.ObjectText?
    ensures var doc := before + Render(t) + after;
            P.Parse(f, doc, root)
            == if Depth(t) <= P.STACK_LIMIT then P.Returned(true, P.State(|doc|, 0, []), Meaning(t, f.toDouble))
               else P.Threw
  {
    hide *;
    var doc, u, gap := before + Render(t) + after, Loose(t), Blanks(before);
    IsExtended(t, f.allowComments, f.toDouble);
    SameGives(t, f.allowComments, f.toDouble);
    BlanksAre(before);
    BareAllowed(gap, f.allowComments);
    var end := |before + Render(t)|;
    assert before + Render(t) <= doc;
    WhiteEnd(doc, end, after);
    Whole(doc, end, after, t);
    R.ParsePrefix(f, doc, gap, u, root);
    S.EndToken(f, doc, end);
  }

  lemma BareAllowed(gap: seq<X.Piece>, comments: bool)
    requires X.ProperFiller(gap) && X.Bare(gap)
    ensures X.Allowed(gap, comments)
  {
  }

  /** White space behind a text continues no number, and containers stay containers. */
  lemma Whole(doc: Bytes, end: nat, after: Bytes, t: Text)
    requires White(after) && end <= |doc| && doc[end..] == after
    ensures R.Ends(doc, end, Loose(t))
    ensures t.ArrayText? || t.ObjectText? ==>
              Loose(t).EmptyArray? || Loose(t).ArrayText? || Loose(t).ObjectText?
  {
    if after != [] {
      assert doc[end] == after[0];
    }
    if t.NumberText? && after != [] {
      R.StopsSettle(t.n, doc[end]);
    }
  }

  lemma {:induction false} WhiteEnd(doc: Bytes, p: nat, after: Bytes)
    requires White(after) && p <= |doc| && doc[p..] == after
    ensures J.SkipSpaces(doc, p) == |doc|
    decreases |doc| - p
  {
    if after != [] {
      assert doc[p] == after[0];
      assert doc[p + 1..] == after[1..];
      WhiteEnd(doc, p + 1, after[1..]);
    }
  }
}
