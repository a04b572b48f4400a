/**
 The texts of RFC 8259 as derivations with their layout: how a derivation is written, and
 the value it stands for.  Nothing here refers to the reader.
 */
module JsonGrammar {
  import opened Maybe
  import opened Words
  import opened JsonValue
  import opened JsonText

  // ------------------------------------------------------------ strings (section 7)

  /** A character: unescaped, one of the two-character escapes, an escape, or a surrogate pair. */
  datatype Char = Plain(b: Byte) | Short(letter: Byte) | Unicode(hex: Bytes) | Pair(high: Bytes, low: Bytes)

  /** What a two-character escape stands for, by its letter. */
  function ShortMeaning(letter: Byte): Option<Byte> {
    if letter == 0x22 || letter == 0x5C || letter == 0x2F then Some(letter)
    else if letter == 0x62 then Some(0x08)
    else if letter == 0x66 then Some(0x0C)
    else if letter == 0x6E then Some(0x0A)
    else if letter == 0x72 then Some(0x0D)
    else if letter == 0x74 then Some(0x09)
    else None
  }

  function HexValue(c: Byte): Option<nat> {
    if 0x30 <= c <= 0x39 then Some(c - 0x30)
    else if 0x41 <= c <= 0x46 then Some(c - 0x37)
    else if 0x61 <= c <= 0x66 then Some(c - 0x57)
    else None
  }

  predicate FourHex(hex: Bytes) {
    |hex| == 4 && forall i :: 0 <= i < 4 ==> HexValue(hex[i]).Some?
  }

  function HexNumber(hex: Bytes): (n: nat)
    requires FourHex(hex)
    ensures n < 0x1_0000
  {
    HexValue(hex[0]).value * 0x1000 + HexValue(hex[1]).value * 0x100 + HexValue(hex[2]).value * 0x10
    + HexValue(hex[3]).value
  }

  predicate ProperChar(c: Char) {
    match c
    case Plain(b) => b >= 0x20 && b != QUOTE && b != BACKSLASH
    case Short(letter) => ShortMeaning(letter).Some?
    case Unicode(hex) => FourHex(hex) && !(0xD800 <= HexNumber(hex) <= 0xDFFF)
    case Pair(high, low) =>
      && FourHex(high) && 0xD800 <= HexNumber(high) <= 0xDBFF
      && FourHex(low) && 0xDC00 <= HexNumber(low) <= 0xDFFF
  }

  function CharText(c: Char): Bytes {
    match c
    case Plain(b) => [b]
    case Short(letter) => [BACKSLASH, letter]
    case Unicode(hex) => [BACKSLASH, 0x75] + hex
    case Pair(high, low) => [BACKSLASH, 0x75] + high + [BACKSLASH, 0x75] + low
  }

  /** The octets of a character number, by section 3 of RFC 3629. */
  function Utf8(cp: nat): Bytes
    requires cp <= 0x10FFFF
  {
    if cp < 0x80 then [cp]
    else if cp < 0x800 then [0xC0 + cp / 64, 0x80 + cp % 64]
    else if cp < 0x1_0000 then [0xE0 + cp / 4096, 0x80 + cp / 64 % 64, 0x80 + cp % 64]
    else [0xF0 + cp / 262144, 0x80 + cp / 4096 % 64, 0x80 + cp / 64 % 64, 0x80 + cp % 64]
  }

  function CharMeaning(c: Char): Bytes
    requires ProperChar(c)
  {
    match c
    case Plain(b) => [b]
    case Short(letter) => [ShortMeaning(letter).value]
    case Unicode(hex) => Utf8(HexNumber(hex))
    case Pair(high, low) => Utf8(0x1_0000 + (HexNumber(high) - 0xD800) * 0x400 + (HexNumber(low) - 0xDC00))
  }

  predicate ProperChars(cs: seq<Char>) {
    forall i :: 0 <= i < |cs| ==> ProperChar(cs[i])
  }

  function CharsText(cs: seq<Char>): Bytes {
    if cs == [] then [] else CharText(cs[0]) + CharsText(cs[1..])
  }

  function CharsMeaning(cs: seq<Char>): Bytes
    requires ProperChars(cs)
  {
    if cs == [] then [] else CharMeaning(cs[0]) + CharsMeaning(cs[1..])
  }

  function StringText(cs: seq<Char>): Bytes {
    [QUOTE] + CharsText(cs) + [QUOTE]
  }

  // ------------------------------------------------------------ numbers (section 6)

  datatype Exponent = Exponent(e: Byte, sign: Bytes, digits: Bytes)

  datatype Numeral = Numeral(minus: bool, integer: Bytes, fraction: Option<Bytes>, exponent: Option<Exponent>)

  predicate ProperNumeral(n: Numeral) {
    && n.integer != [] && AllDigits(n.integer) && (n.integer[0] == 0x30 ==> |n.integer| == 1)
    && (n.fraction.Some? ==> n.fraction.value != [] && AllDigits(n.fraction.value))
    && (n.exponent.Some? ==>
          var x := n.exponent.value;
          && (x.e == 0x65 || x.e == 0x45) && (x.sign == [] || x.sign == [0x2B] || x.sign == [MINUS])
          && x.digits != [] && AllDigits(x.digits))
  }

  function NumeralText(n: Numeral): Bytes {
    (if n.minus then [MINUS] else []) + n.integer
    + (if n.fraction.Some? then [0x2E] + n.fraction.value else [])
    + (if n.exponent.Some? then [n.exponent.value.e] + n.exponent.value.sign + n.exponent.value.digits else [])
  }

  /** A whole number that fits 64 bits; other numbers are doubles. */
  predicate IsInteger(n: Numeral)
    requires AllDigits(n.integer)
  {
    && n.fraction.None? && n.exponent.None?
    && DecimalValue(n.integer) <= if n.minus then MAX_LARGEST_INT + 1 else MAX_LARGEST_UINT
  }

  function NumeralMeaning(n: Numeral, toDouble: Bytes -> Option<Double>): Option<Value>
    requires AllDigits(n.integer)
  {
    if IsInteger(n) then
      var k := DecimalValue(n.integer);
      Some(if n.minus then Int(0 - k) else if k <= MAX_INT then Int(k) else UInt(k))
    else
      match toDouble(NumeralText(n))
      case None => None
      case Some(d) => Some(Real(d))
  }

  // ------------------------------------------------------- values (sections 2 to 5)

  datatype Item = Item(before: Bytes, text: Text, after: Bytes)

  datatype Entry = Entry(
    before: Bytes, key: seq<Char>, beforeColon: Bytes, afterColon: Bytes, text: Text, after: Bytes)

  /** A value with the white space inside it; the gap of a container counts only if it is empty. */
  datatype Text =
    | NullText
    | BoolText(b: bool)
    | NumberText(n: Numeral)
    | StringValue(cs: seq<Char>)
    | ArrayText(gap: Bytes, items: seq<Item>)
    | ObjectText(gap: Bytes, entries: seq<Entry>)

  predicate IsWhite(c: Byte) {
    c == 0x20 || c == 0x09 || c == 0x0A || c == 0x0D
  }

  predicate White(ws: Bytes) {
    forall i :: 0 <= i < |ws| ==> IsWhite(ws[i])
  }

  /** A derivation of the grammar whose numbers the double conversion accepts. */
  predicate Proper(t: Text, toDouble: Bytes -> Option<Double>)
    decreases t
  {
    match t
    case NullText => true
    case BoolText(_) => true
    case NumberText(n) => ProperNumeral(n) && NumeralMeaning(n, toDouble).Some?
    case StringValue(cs) => ProperChars(cs)
    case ArrayText(gap, items) =>
      White(gap) && forall i :: 0 <= i < |items| ==>
        White(items[i].before) && Proper(items[i].text, toDouble) && White(items[i].after)
    case ObjectText(gap, entries) =>
      White(gap) && forall i :: 0 <= i < |entries| ==>
        && White(entries[i].before) && ProperChars(entries[i].key) && White(entries[i].beforeColon)
        && White(entries[i].afterColon) && Proper(entries[i].text, toDouble) && White(entries[i].after)
  }

  function Render(t: Text): Bytes
    decreases t, 0
  {
    match t
    case NullText => NULL_TEXT
    case BoolText(b) => if b then TRUE_TEXT else FALSE_TEXT
    case NumberText(n) => NumeralText(n)
    case StringValue(cs) => StringText(cs)
    case ArrayText(gap, items) =>
      [ARRAY_BEGIN] + if items == [] then gap + [ARRAY_END] else items[0].before + ItemsTail(items)
    case ObjectText(gap, entries) =>
      [OBJECT_BEGIN] + if entries == [] then gap + [OBJECT_END] else entries[0].before + EntriesTail(entries)
  }

  /** From the first value of an array to its closing bracket. */
  function ItemsTail(items: seq<Item>): Bytes
    requires items != []
    decreases items
  {
    Render(items[0].text) + (items[0].after
    + if |items| == 1 then [ARRAY_END] else [COMMA] + (items[1].before + ItemsTail(items[1..])))
  }

  function EntryText(e: Entry): Bytes
    decreases e
  {
    StringText(e.key) + (e.beforeColon + ([COLON] + (e.afterColon + Render(e.text))))
  }

  /** From the first key of an object to its closing bracket. */
  function EntriesTail(entries: seq<Entry>): Bytes
    requires entries != []
    decreases entries
  {
    EntryText(entries[0]) + (entries[0].after
    + if |entries| == 1 then [OBJECT_END] else [COMMA] + (entries[1].before + EntriesTail(entries[1..])))
  }

  function Meaning(t: Text, toDouble: Bytes -> Option<Double>): Value
    requires Proper(t, toDouble)
    decreases t, 0
  {
    match t
    case NullText => Null
    case BoolText(b) => Bool(b)
    case NumberText(n) => NumeralMeaning(n, toDouble).value
    case StringValue(cs) => Str(CharsMeaning(cs))
    case ArrayText(_, items) => Array(ItemsMeaning(items, toDouble))
    case ObjectText(_, entries) => Object(EntriesMeaning(entries, [], toDouble))
  }

  function ItemsMeaning(items: seq<Item>, toDouble: Bytes -> Option<Double>): seq<Value>
    requires forall i :: 0 <= i < |items| ==> Proper(items[i].text, toDouble)
    decreases items
  {
    if items == [] then [] else [Meaning(items[0].text, toDouble)] + ItemsMeaning(items[1..], toDouble)
  }

  /** Members are kept in the order of their keys; of equal keys the last one counts. */
  function EntriesMeaning(entries: seq<Entry>, done: seq<Member>, toDouble: Bytes -> Option<Double>): seq<Member>
    requires forall i :: 0 <= i < |entries| ==> ProperChars(entries[i].key) && Proper(entries[i].text, toDouble)
    decreases entries
  {
    if entries == [] then done
    else
      var e := entries[0];
      EntriesMeaning(entries[1..], Put(done, CharsMeaning(e.key), Meaning(e.text, toDouble)), toDouble)
  }

  function Max(a: nat, b: nat): nat {
    if a < b then b else a
  }

  /** Nesting depth; a scalar has depth one. */
  function Depth(t: Text): (d: nat)
    ensures d >= 1
    decreases t, 0
  {
    match t
    case ArrayText(_, items) => 1 + ItemsDepth(items)
    case ObjectText(_, entries) => 1 + EntriesDepth(entries)
    case _ => 1
  }

  function ItemsDepth(items: seq<Item>): nat
    decreases items
  {
    if items == [] then 0 else Max(Depth(items[0].text), ItemsDepth(items[1..]))
  }

  function EntriesDepth(entries: seq<Entry>): nat
    decreases entries
  {
    if entries == [] then 0 else Max(Depth(entries[0].text), EntriesDepth(entries[1..]))
  }
}
