/**
 The text FastWriter produces, as functions of the value: decimal integers, quoted
 strings, arrays and objects.
 */
module JsonText {
  import opened Words
  import opened JsonValue

  const QUOTE: Byte := 0x22
  const BACKSLASH: Byte := 0x5C
  const COMMA: Byte := 0x2C
  const COLON: Byte := 0x3A
  const MINUS: Byte := 0x2D
  const SPACE: Byte := 0x20
  const NEWLINE: Byte := 0x0A
  const ARRAY_BEGIN: Byte := 0x5B
  const ARRAY_END: Byte := 0x5D
  const OBJECT_BEGIN: Byte := 0x7B
  const OBJECT_END: Byte := 0x7D
  const NULL_TEXT: Bytes := [0x6E, 0x75, 0x6C, 0x6C]
  const TRUE_TEXT: Bytes := [0x74, 0x72, 0x75, 0x65]
  const FALSE_TEXT: Bytes := [0x66, 0x61, 0x6C, 0x73, 0x65]

  // ---------------------------------------------------------------- integers

  predicate IsDigit(c: Byte) {
    0x30 <= c <= 0x39
  }

  predicate AllDigits(ds: Bytes) {
    forall i :: 0 <= i < |ds| ==> IsDigit(ds[i])
  }

  function Decimal(n: nat): (ds: Bytes)
    ensures ds != [] && AllDigits(ds)
  {
    if n < 10 then [0x30 + n] else Decimal(n / 10) + [0x30 + n % 10]
  }

  function IntText(i: int): Bytes {
    if i < 0 then [MINUS] + Decimal(-i) else Decimal(i)
  }

  /** The number a digit string stands for. */
  function DecimalValue(ds: Bytes): nat
    requires AllDigits(ds)
  {
    if ds == [] then 0 else 10 * DecimalValue(ds[..|ds| - 1]) + (ds[|ds| - 1] - 0x30)
  }

  lemma {:induction false} DecimalInverse(n: nat)
    ensures DecimalValue(Decimal(n)) == n
  {
    if n >= 10 {
      var ds := Decimal(n);
      assert ds[..|ds| - 1] == Decimal(n / 10);
      DecimalInverse(n / 10);
    }
  }

  function Pow10(k: nat): nat {
    if k == 0 then 1 else 10 * Pow10(k - 1)
  }

  lemma {:induction false} DecimalLength(n: nat, k: nat)
    requires k >= 1 && n < Pow10(k)
    ensures |Decimal(n)| <= k
  {
    if n >= 10 {
      DecimalLength(n / 10, k - 1);
    }
  }

  /** Every 64-bit number prints in at most twenty digits. */
  lemma DecimalFits(n: nat)
    requires n <= MAX_LARGEST_UINT
    ensures |Decimal(n)| <= 20
  {
    assert Pow10(4) == 10_000;
    assert Pow10(8) == 100_000_000;
    assert Pow10(12) == 1_000_000_000_000;
    assert Pow10(16) == 10_000_000_000_000_000;
    assert Pow10(20) == 100_000_000_000_000_000_000;
    DecimalLength(n, 20);
  }

  // ----------------------------------------------------------------- strings

  predicate IsControl(c: Byte) {
    1 <= c <= 0x1F
  }

  function HexDigit(n: nat): Byte
    requires n < 16
  {
    if n < 10 then 0x30 + n else 0x41 + n - 10
  }

  /** The seven characters with a two-character escape, paired with its second character. */
  function ShortEscape(c: Byte): Byte {
    if c == 0x22 then 0x22
    else if c == 0x5C then 0x5C
    else if c == 0x08 then 0x62
    else if c == 0x0C then 0x66
    else if c == 0x0A then 0x6E
    else if c == 0x0D then 0x72
    else if c == 0x09 then 0x74
    else 0
  }

  function EscapeByte(c: Byte): Bytes {
    if ShortEscape(c) != 0 then [BACKSLASH, ShortEscape(c)]
    else if IsControl(c) || c == 0 then [BACKSLASH, 0x75, 0x30, 0x30, HexDigit(c / 16), HexDigit(c % 16)]
    else [c]
  }

  function Escape(s: Bytes): Bytes {
    if s == [] then [] else EscapeByte(s[0]) + Escape(s[1..])
  }

  function Quote(s: Bytes): Bytes {
    [QUOTE] + Escape(s) + [QUOTE]
  }

  predicate NeedsEscape(c: Byte) {
    ShortEscape(c) != 0 || IsControl(c) || c == 0
  }

  lemma {:induction false} EscapePlain(s: Bytes)
    requires forall i :: 0 <= i < |s| ==> !NeedsEscape(s[i])
    ensures Escape(s) == s
  {
    if s != [] {
      EscapePlain(s[1..]);
      assert s == [s[0]] + s[1..];
    }
  }

  lemma {:induction false} EscapeAppend(s: Bytes, c: Byte)
    ensures Escape(s + [c]) == Escape(s) + EscapeByte(c)
  {
    if s == [] {
      assert ([c])[1..] == [];
      assert s + [c] == [c];
    } else {
      assert (s + [c])[1..] == s[1..] + [c];
      EscapeAppend(s[1..], c);
    }
  }

  // ------------------------------------------------------------------ values

  /** FastWriter's settings; the text of a real number comes from the C library. */
  datatype WriterOptions = WriterOptions(
    yamlCompatibility: bool, dropNullPlaceholders: bool, omitEndingLineFeed: bool, realText: Double -> Bytes)
  {
    function Separator(): Bytes {
      if yamlCompatibility then [COLON, SPACE] else [COLON]
    }
  }

  function ValueText(o: WriterOptions, v: Value): Bytes
    decreases v, 0
  {
    match v
    case Null => if o.dropNullPlaceholders then [] else NULL_TEXT
    case Int(i) => IntText(i)
    case UInt(u) => Decimal(u)
    case Real(r) => o.realText(r)
    case Str(s) => Quote(s)
    case Bool(b) => if b then TRUE_TEXT else FALSE_TEXT
    case Array(items) => [ARRAY_BEGIN] + ItemsText(o, items) + [ARRAY_END]
    case Object(members) => [OBJECT_BEGIN] + MembersText(o, members) + [OBJECT_END]
  }

  function ItemsText(o: WriterOptions, items: seq<Value>): Bytes
    decreases items
  {
    if items == [] then []
    else ValueText(o, items[0]) + CommaIfMore(|items|) + ItemsText(o, items[1..])
  }

  function MemberText(o: WriterOptions, m: Member): Bytes
    decreases m
  {
    Quote(m.key) + o.Separator() + ValueText(o, m.value)
  }

  function MembersText(o: WriterOptions, members: seq<Member>): Bytes
    decreases members
  {
    if members == [] then []
    else MemberText(o, members[0]) + CommaIfMore(|members|) + MembersText(o, members[1..])
  }

  function CommaIfMore(n: nat): Bytes {
    if n > 1 then [COMMA] else []
  }

  function Document(o: WriterOptions, v: Value): Bytes {
    ValueText(o, v) + if o.omitEndingLineFeed then [] else [NEWLINE]
  }

  // -------------------------------------------------------------- map lookup

  /** The invariant of std::map: keys strictly ascending, at every level of the tree. */
  predicate WellFormed(v: Value) {
    match v
    case Array(items) => forall i :: 0 <= i < |items| ==> WellFormed(items[i])
    case Object(members) =>
      SortedKeys(members) && forall i :: 0 <= i < |members| ==> WellFormed(members[i].value)
    case _ => true
  }

  predicate SortedKeys(members: seq<Member>) {
    forall i, j :: 0 <= i < j < |members| ==> BytesLess(members[i].key, members[j].key)
  }

  predicate HasKey(members: seq<Member>, key: Bytes) {
    members != [] && (members[0].key == key || HasKey(members[1..], key))
  }

  function Find(members: seq<Member>, key: Bytes): Value {
    if members == [] then Null
    else if members[0].key == key then members[0].value
    else Find(members[1..], key)
  }

  /** std::map::operator[] followed by an assignment. */
  function Put(members: seq<Member>, key: Bytes, value: Value): seq<Member> {
    if members == [] || BytesLess(key, members[0].key) then [Member(key, value)] + members
    else if members[0].key == key then [Member(key, value)] + members[1..]
    else [members[0]] + Put(members[1..], key, value)
  }

  lemma {:induction false} FindAt(members: seq<Member>, k: nat)
    requires SortedKeys(members) && k < |members|
    ensures HasKey(members, members[k].key) && Find(members, members[k].key) == members[k].value
  {
    if k > 0 {
      BytesTrichotomy(members[0].key, members[k].key);
      FindAt(members[1..], k - 1);
    }
  }
}
