/**
 The grammar of RFC 8259 extended by what the reader lets through besides: comments, raw bytes
 and any surrogates in strings, numbers with missing digits or leading zeros, other tokens
 behind a comment where a comma belongs, and a comma behind the last member.  As in the plain
 grammar a derivation says how it is written and which value it stands for.
 */
module JsonExtended {
  import opened Maybe
  import opened Words
  import opened JsonValue
  import opened JsonText
  import G = JsonGrammar

  // ------------------------------------------------------------------------- fillers

  const STAR: Byte := 0x2A
  const SLASH: Byte := 0x2F
  const RETURN: Byte := 0x0D

  /** White space, or a comment of either style. */
  datatype Piece = Blank(b: Byte) | Block(body: Bytes) | Line(body: Bytes, ending: Bytes)

  predicate ProperPiece(p: Piece) {
    match p
    case Blank(b) => G.IsWhite(b)
    case Block(body) =>
      var text := body + [STAR, SLASH];
      forall i :: 0 <= i < |body| ==> !(text[i] == STAR && text[i + 1] == SLASH)
    case Line(body, ending) =>
      && (forall i :: 0 <= i < |body| ==> body[i] != NEWLINE && body[i] != RETURN)
      && (ending == [NEWLINE] || ending == [RETURN] || ending == [RETURN, NEWLINE])
  }

  function PieceText(p: Piece): Bytes {
    match p
    case Blank(b) => [b]
    case Block(body) => [SLASH, STAR] + (body + [STAR, SLASH])
    case Line(body, ending) => [SLASH, SLASH] + (body + ending)
  }

  predicate ProperFiller(gap: seq<Piece>) {
    forall i :: 0 <= i < |gap| ==> ProperPiece(gap[i])
  }

  function FillerText(gap: seq<Piece>): Bytes {
    if gap == [] then [] else PieceText(gap[0]) + FillerText(gap[1..])
  }

  /** A filler without comments. */
  predicate Bare(gap: seq<Piece>) {
    forall i :: 0 <= i < |gap| ==> gap[i].Blank?
  }

  /** A filler where comments depend on the settings. */
  predicate Allowed(gap: seq<Piece>, comments: bool) {
    ProperFiller(gap) && (comments || Bare(gap))
  }

  // ------------------------------------------------------------- strings and numbers

  /** Any byte stands for itself, and the second of a pair of escapes need not be a low surrogate. */
  predicate ProperChar(c: G.Char) {
    match c
    case Plain(b) => b != QUOTE && b != BACKSLASH
    case Short(letter) => G.ShortMeaning(letter).Some?
    case Unicode(hex) => G.FourHex(hex) && !(0xD800 <= G.HexNumber(hex) <= 0xDBFF)
    case Pair(high, low) => G.FourHex(high) && 0xD800 <= G.HexNumber(high) <= 0xDBFF && G.FourHex(low)
  }

  function CharMeaning(c: G.Char): Bytes
    requires ProperChar(c)
  {
    match c
    case Plain(b) => [b]
    case Short(letter) => [G.ShortMeaning(letter).value]
    case Unicode(hex) => G.Utf8(G.HexNumber(hex))
    case Pair(high, low) =>
      G.Utf8(0x1_0000 + (G.HexNumber(high) - 0xD800) * 0x400 + G.HexNumber(low) % 0x400)
  }

  predicate ProperChars(cs: seq<G.Char>) {
    forall i :: 0 <= i < |cs| ==> ProperChar(cs[i])
  }

  function CharsMeaning(cs: seq<G.Char>): Bytes
    requires ProperChars(cs)
  {
    if cs == [] then [] else CharMeaning(cs[0]) + CharsMeaning(cs[1..])
  }

  /** Digits may be missing everywhere, but a number starts with a digit or a minus sign. */
  predicate ProperNumeral(n: G.Numeral) {
    && AllDigits(n.integer) && (!n.minus ==> n.integer != [])
    && (n.fraction.Some? ==> AllDigits(n.fraction.value))
    && (n.exponent.Some? ==>
          var x := n.exponent.value;
          && (x.e == 0x65 || x.e == 0x45) && (x.sign == [] || x.sign == [0x2B] || x.sign == [MINUS])
          && AllDigits(x.digits))
  }

  /** What follows the integer part of a number. */
  function Tail(n: G.Numeral): Bytes {
    (if n.fraction.Some? then [0x2E] + n.fraction.value else [])
    + (if n.exponent.Some? then [n.exponent.value.e] + n.exponent.value.sign + n.exponent.value.digits else [])
  }

  /** A text without its minus sign. */
  function Digits(text: Bytes): Bytes {
    if text != [] && text[0] == MINUS then text[1..] else text
  }

  lemma NumeralSplit(n: G.Numeral)
    requires ProperNumeral(n)
    ensures G.NumeralText(n) == (if n.minus then [MINUS] else []) + (n.integer + Tail(n))
    ensures G.NumeralText(n) != [] && (G.NumeralText(n)[0] == MINUS <==> n.minus)
    ensures Digits(G.NumeralText(n)) == n.integer + Tail(n)
    ensures Tail(n) != [] ==> !IsDigit(Tail(n)[0])
    ensures Tail(n) == [] <==> n.fraction.None? && n.exponent.None?
  {
  }

  // ------------------------------------------------------------------------- lexemes

  /** What follows the opening quote of a string, with any byte behind a backslash. */
  predicate Quoted(w: Bytes) {
    || w == [QUOTE]
    || (|w| >= 1 && w[0] != QUOTE && w[0] != BACKSLASH && Quoted(w[1..]))
    || (|w| >= 2 && w[0] == BACKSLASH && Quoted(w[2..]))
  }

  ghost predicate IsNumeral(w: Bytes) {
    exists n :: ProperNumeral(n) && G.NumeralText(n) == w
  }

  /** A string, a number, a literal, a slash that starts no comment with the byte behind it, or any other byte. */
  ghost predicate IsLexeme(w: Bytes) {
    || (|w| >= 2 && w[0] == QUOTE && Quoted(w[1..]))
    || IsNumeral(w)
    || w == NULL_TEXT || w == TRUE_TEXT || w == FALSE_TEXT
    || (|w| == 2 && w[0] == SLASH && w[1] != STAR && w[1] != SLASH)
    || (|w| == 1 && !G.IsWhite(w[0]) && w[0] != QUOTE && w[0] != SLASH)
  }

  // -------------------------------------------------------------------------- values

  datatype Element = Element(before: seq<Piece>, text: Text, after: seq<Piece>)

  datatype Elements = LastElement(element: Element) | MoreElements(element: Element, rest: Elements)

  datatype Entry = Entry(
    before: seq<Piece>, key: seq<G.Char>, beforeColon: seq<Piece>, afterColon: seq<Piece>, text: Text,
    after: seq<Piece>)

  /** Members up to the closing bracket; what separates two of them is a comma, or another lexeme behind a comment. */
  datatype Members =
    | NoMember(gap: seq<Piece>)
    | LastMember(entry: Entry)
    | MoreMembers(entry: Entry, separator: Bytes, rest: Members)

  datatype Text =
    | NullText
    | BoolText(b: bool)
    | NumberText(n: G.Numeral)
    | StringText(cs: seq<G.Char>)
    | EmptyArray(gap: seq<Piece>)
    | ArrayText(elements: Elements)
    | ObjectText(members: Members)

  function Render(t: Text): Bytes {
    match t
    case NullText => NULL_TEXT
    case BoolText(b) => if b then TRUE_TEXT else FALSE_TEXT
    case NumberText(n) => G.NumeralText(n)
    case StringText(cs) => G.StringText(cs)
    case EmptyArray(gap) => [ARRAY_BEGIN] + (FillerText(gap) + [ARRAY_END])
    case ArrayText(elements) => [ARRAY_BEGIN] + ElementsText(elements)
    case ObjectText(members) => [OBJECT_BEGIN] + MembersText(members)
  }

  function ElementText(e: Element): Bytes {
    FillerText(e.before) + (Render(e.text) + FillerText(e.after))
  }

  function ElementsText(es: Elements): Bytes {
    match es
    case LastElement(e) => ElementText(e) + [ARRAY_END]
    case MoreElements(e, rest) => ElementText(e) + ([COMMA] + ElementsText(rest))
  }

  function EntryText(e: Entry): Bytes {
    FillerText(e.before)
    + (G.StringText(e.key)
       + (FillerText(e.beforeColon)
          + ([COLON] + (FillerText(e.afterColon) + (Render(e.text) + FillerText(e.after))))))
  }

  function MembersText(ms: Members): Bytes {
    match ms
    case NoMember(gap) => FillerText(gap) + [OBJECT_END]
    case LastMember(e) => EntryText(e) + [OBJECT_END]
    case MoreMembers(e, separator, rest) => EntryText(e) + (separator + MembersText(rest))
  }

  /** What may separate two members: a comma, or behind a comment any lexeme but the closing bracket. */
  ghost predicate Separates(separator: Bytes, gap: seq<Piece>) {
    separator == [COMMA] || (!Bare(gap) && IsLexeme(separator) && separator != [OBJECT_END])
  }

  /** A derivation under the reader's setting for comments, whose numbers the double conversion accepts. */
  ghost predicate Proper(t: Text, comments: bool, toDouble: Bytes -> Option<Double>) {
    match t
    case NullText => true
    case BoolText(_) => true
    case NumberText(n) => ProperNumeral(n) && G.NumeralMeaning(n, toDouble).Some?
    case StringText(cs) => ProperChars(cs)
    case EmptyArray(gap) => Allowed(gap, false)
    case ArrayText(elements) => ProperElements(elements, comments, toDouble)
    case ObjectText(members) => ProperMembers(members, [], comments, toDouble)
  }

  ghost predicate ProperElement(e: Element, comments: bool, toDouble: Bytes -> Option<Double>) {
    Allowed(e.before, comments) && Proper(e.text, comments, toDouble) && ProperFiller(e.after)
  }

  ghost predicate ProperElements(es: Elements, comments: bool, toDouble: Bytes -> Option<Double>) {
    match es
    case LastElement(e) => ProperElement(e, comments, toDouble)
    case MoreElements(e, rest) => ProperElement(e, comments, toDouble) && ProperElements(rest, comments, toDouble)
  }

  ghost predicate ProperEntry(e: Entry, comments: bool, toDouble: Bytes -> Option<Double>) {
    && ProperFiller(e.before) && ProperChars(e.key) && Allowed(e.beforeColon, false)
    && Allowed(e.afterColon, comments) && Proper(e.text, comments, toDouble) && ProperFiller(e.after)
  }

  /** The list may end without a member at its start, and behind a member with an empty key. */
  ghost predicate ProperMembers(ms: Members, name: Bytes, comments: bool, toDouble: Bytes -> Option<Double>) {
    match ms
    case NoMember(gap) => ProperFiller(gap) && name == []
    case LastMember(e) => ProperEntry(e, comments, toDouble)
    case MoreMembers(e, separator, rest) =>
      && ProperEntry(e, comments, toDouble) && Separates(separator, e.after)
      && ProperMembers(rest, CharsMeaning(e.key), comments, toDouble)
  }

  ghost function Meaning(t: Text, comments: bool, toDouble: Bytes -> Option<Double>): Value
    requires Proper(t, comments, toDouble)
  {
    match t
    case NullText => Null
    case BoolText(b) => Bool(b)
    case NumberText(n) => G.NumeralMeaning(n, toDouble).value
    case StringText(cs) => Str(CharsMeaning(cs))
    case EmptyArray(_) => Array([])
    case ArrayText(elements) => Array(ElementsMeaning(elements, comments, toDouble))
    case ObjectText(members) => Object(MembersMeaning(members, [], [], comments, toDouble))
  }

  ghost function ElementsMeaning(es: Elements, comments: bool, toDouble: Bytes -> Option<Double>): seq<Value>
    requires ProperElements(es, comments, toDouble)
  {
    match es
    case LastElement(e) =>
      assert ProperElement(e, comments, toDouble);
      [Meaning(e.text, comments, toDouble)]
    case MoreElements(e, rest) =>
      assert ProperElement(e, comments, toDouble);
      [Meaning(e.text, comments, toDouble)] + ElementsMeaning(rest, comments, toDouble)
  }

  /** Members are kept in the order of their keys; of equal keys the last one counts. */
  ghost function MembersMeaning(
      ms: Members, done: seq<Member>, name: Bytes, comments: bool, toDouble: Bytes -> Option<Double>): seq<Member>
    requires ProperMembers(ms, name, comments, toDouble)
  {
    match ms
    case NoMember(_) => done
    case LastMember(e) =>
      assert ProperEntry(e, comments, toDouble);
      Put(done, CharsMeaning(e.key), Meaning(e.text, comments, toDouble))
    case MoreMembers(e, _, rest) =>
      assert ProperEntry(e, comments, toDouble);
      var key := CharsMeaning(e.key);
      MembersMeaning(rest, Put(done, key, Meaning(e.text, comments, toDouble)), key, comments, toDouble)
  }

  /** Nesting depth; a scalar has depth one. */
  function Depth(t: Text): (d: nat)
    ensures d >= 1
  {
    match t
    case ArrayText(elements) => 1 + ElementsDepth(elements)
    case ObjectText(members) => 1 + MembersDepth(members)
    case _ => 1
  }

  function ElementsDepth(es: Elements): nat {
    match es
    case LastElement(e) => Depth(e.text)
    case MoreElements(e, rest) => G.Max(Depth(e.text), ElementsDepth(rest))
  }

  function MembersDepth(ms: Members): nat {
    match ms
    case NoMember(_) => 0
    case LastMember(e) => Depth(e.text)
    case MoreMembers(e, _, rest) => G.Max(Depth(e.text), MembersDepth(rest))
  }
}
