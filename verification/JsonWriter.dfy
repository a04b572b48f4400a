/**
 FastWriter and the string conversions it uses, as the imperative code that fills a
 buffer or appends to a document, proved to produce the text of module JsonText.
 */
module JsonWriter {
  import opened Words
  import opened JsonValue
  import opened JsonText

  // uintToStringBufferSize: three characters per byte of a 64-bit integer, plus one.
  const BUFFER_SIZE: nat := 25

  /** Writes the digits of value, then a terminating zero, so that they end at position current. */
  method UIntToString(value: nat, buffer: array<Byte>, current: nat) returns (start: nat)
    requires value <= MAX_LARGEST_UINT
    requires 21 <= current <= buffer.Length
    modifies buffer
    ensures start + |Decimal(value)| + 1 == current && |Decimal(value)| <= 20
    ensures buffer[start..current] == Decimal(value) + [0]
    ensures forall i :: 0 <= i < buffer.Length && !(start <= i < current) ==> buffer[i] == old(buffer[i])
  {
    hide *;
    DecimalFits(value);
    start := current - 1;
    buffer[start] := 0;
    var rest := value;
    start := start - 1;
    buffer[start] := rest % 10 + 0x30;
    rest := rest / 10;
    assert buffer[start..current] == [value % 10 + 0x30] + [0];
    DecimalSplit(value);
    while rest != 0
      invariant 0 <= start < current
      invariant DigitsLeft(rest) + buffer[start..current] == Decimal(value) + [0]
      invariant forall i :: 0 <= i < buffer.Length && !(start <= i < current) ==> buffer[i] == old(buffer[i])
    {
      ghost var written := buffer[start..current];
      DigitsLeftSplit(rest);
      assert |DigitsLeft(rest)| + |written| == |Decimal(value)| + 1;
      start := start - 1;
      buffer[start] := rest % 10 + 0x30;
      assert buffer[start..current] == [rest % 10 + 0x30] + written;
      rest := rest / 10;
    }
    NoDigitsLeft();
  }

  /** The digits above those already written. */
  function DigitsLeft(rest: nat): Bytes {
    if rest == 0 then [] else Decimal(rest)
  }

  lemma DecimalSplit(n: nat)
    ensures Decimal(n) == DigitsLeft(n / 10) + [n % 10 + 0x30]
  {
  }

  lemma DigitsLeftSplit(n: nat)
    requires n != 0
    ensures DigitsLeft(n) == DigitsLeft(n / 10) + [n % 10 + 0x30]
  {
  }

  lemma NoDigitsLeft()
    ensures DigitsLeft(0) == []
  {
  }

  /** The std::string built from a zero-terminated buffer. */
  function CString(s: Bytes): Bytes {
    if s == [] || s[0] == 0 then [] else [s[0]] + CString(s[1..])
  }

  lemma {:induction false} CStringStops(s: Bytes, t: Bytes)
    requires forall i :: 0 <= i < |s| ==> s[i] != 0
    requires t == [] || t[0] == 0
    ensures CString(s + t) == s
  {
    if s == [] {
      assert s + t == t;
    } else {
      assert (s + t)[1..] == s[1..] + t;
      CStringStops(s[1..], t);
    }
  }

  /** valueToString(LargestInt): the fixed buffer is never overrun. */
  method IntToString(value: int) returns (text: Bytes)
    requires -MAX_LARGEST_INT - 1 <= value <= MAX_LARGEST_INT
    ensures text == IntText(value)
  {
    var buffer := new Byte[BUFFER_SIZE];
    var current: nat := BUFFER_SIZE;
    if value == -MAX_LARGEST_INT - 1 {
      current := UIntToString(MAX_LARGEST_INT + 1, buffer, current);
      ghost var digits := buffer[current..BUFFER_SIZE];
      current := current - 1;
      buffer[current] := MINUS;
      assert buffer[current..BUFFER_SIZE] == [MINUS] + digits;
    } else if value < 0 {
      current := UIntToString(-value, buffer, current);
      ghost var digits := buffer[current..BUFFER_SIZE];
      current := current - 1;
      buffer[current] := MINUS;
      assert buffer[current..BUFFER_SIZE] == [MINUS] + digits;
    } else {
      current := UIntToString(value, buffer, current);
    }
    assert current >= 0;
    assert buffer[current..] == buffer[current..BUFFER_SIZE];
    assert buffer[current..] == IntText(value) + [0];
    CStringStops(IntText(value), [0]);
    text := CString(buffer[current..]);
  }

  /** valueToString(LargestUInt). */
  method UIntValueToString(value: nat) returns (text: Bytes)
    requires value <= MAX_LARGEST_UINT
    ensures text == Decimal(value)
  {
    var buffer := new Byte[BUFFER_SIZE];
    var current := UIntToString(value, buffer, BUFFER_SIZE);
    assert buffer[current..] == Decimal(value) + [0];
    CStringStops(Decimal(value), [0]);
    text := CString(buffer[current..]);
  }

  method StrNPbrk(value: Bytes, accept: Bytes) returns (found: bool)
    ensures found <==> exists i :: 0 <= i < |value| && value[i] in accept
  {
    for cur := 0 to |value|
      invariant forall i :: 0 <= i < cur ==> value[i] !in accept
    {
      for a := 0 to |accept|
        invariant value[cur] !in accept[..a]
      {
        if accept[a] == value[cur] {
          return true;
        }
      }
      assert accept == accept[..|accept|];
    }
    found := false;
  }

  method ContainsControlCharacter0(value: Bytes) returns (found: bool)
    ensures found <==> exists i :: 0 <= i < |value| && (IsControl(value[i]) || value[i] == 0)
  {
    for i := 0 to |value|
      invariant forall j :: 0 <= j < i ==> !IsControl(value[j]) && value[j] != 0
    {
      if IsControl(value[i]) || value[i] == 0 {
        return true;
      }
    }
    found := false;
  }

  const SPECIAL: Bytes := [0x22, 0x5C, 0x08, 0x0C, 0x0A, 0x0D, 0x09]

  /** valueToQuotedStringN: the unescaped fast path and the escaping loop agree. */
  method ValueToQuotedString(value: Bytes) returns (result: Bytes)
    ensures result == Quote(value)
  {
    hide *;
    var special := StrNPbrk(value, SPECIAL);
    var control := ContainsControlCharacter0(value);
    if !special && !control {
      PlainIsUnescaped(value);
      return [QUOTE] + CString(value) + [QUOTE];
    }
    result := [QUOTE];
    EscapeNothing();
    for c := 0 to |value|
      invariant result == [QUOTE] + Escape(value[..c])
    {
      assert value[..c + 1] == value[..c] + [value[c]];
      EscapeAppend(value[..c], value[c]);
      result := AppendEscaped(result, value[c]);
    }
    assert value[..|value|] == value;
    result := result + [QUOTE];
    QuoteIs(value);
  }

  lemma PlainIsUnescaped(value: Bytes)
    requires !exists i :: 0 <= i < |value| && value[i] in SPECIAL
    requires !exists i :: 0 <= i < |value| && (IsControl(value[i]) || value[i] == 0)
    ensures [QUOTE] + CString(value) + [QUOTE] == Quote(value)
  {
    hide *;
    forall i | 0 <= i < |value| ensures !NeedsEscape(value[i]) && value[i] != 0 {
      assert value[i] !in SPECIAL;
      OnlySpecialNeedEscape(value[i]);
    }
    EscapePlain(value);
    CStringStops(value, []);
    assert value + [] == value;
    QuoteIs(value);
  }

  lemma OnlySpecialNeedEscape(c: Byte)
    ensures NeedsEscape(c) ==> c in SPECIAL || IsControl(c) || c == 0
  {
  }

  lemma EscapeNothing()
    ensures Escape([]) == []
  {
  }

  lemma QuoteIs(value: Bytes)
    ensures Quote(value) == [QUOTE] + Escape(value) + [QUOTE]
  {
  }

  /** The switch of the escaping loop. */
  method AppendEscaped(text: Bytes, c: Byte) returns (result: Bytes)
    ensures result == text + EscapeByte(c)
  {
    if c == 0x22 {
      result := text + [BACKSLASH, 0x22];
    } else if c == 0x5C {
      result := text + [BACKSLASH, BACKSLASH];
    } else if c == 0x08 {
      result := text + [BACKSLASH, 0x62];
    } else if c == 0x0C {
      result := text + [BACKSLASH, 0x66];
    } else if c == 0x0A {
      result := text + [BACKSLASH, 0x6E];
    } else if c == 0x0D {
      result := text + [BACKSLASH, 0x72];
    } else if c == 0x09 {
      result := text + [BACKSLASH, 0x74];
    } else if IsControl(c) || c == 0 {
      result := text + [BACKSLASH, 0x75, 0x30, 0x30, HexDigit(c / 16), HexDigit(c % 16)];
    } else {
      result := text + [c];
    }
  }

  /** The ranges of the C++ integer types, at every level of the tree. */
  predicate InRange(v: Value) {
    match v
    case Int(i) => -MAX_LARGEST_INT - 1 <= i <= MAX_LARGEST_INT
    case UInt(u) => u <= MAX_LARGEST_UINT
    case Array(items) => forall i :: 0 <= i < |items| ==> InRange(items[i])
    case Object(members) => forall i :: 0 <= i < |members| ==> InRange(members[i].value)
    case _ => true
  }

  class FastWriter {
    const options: WriterOptions
    var document: Bytes

    constructor (options: WriterOptions)
      ensures this.options == options && document == []
    {
      this.options := options;
      document := [];
    }

    method Write(root: Value) returns (text: Bytes)
      requires WellFormed(root) && InRange(root)
      modifies this
      ensures text == document == Document(options, root)
    {
      document := [];
      WriteValue(root);
      if !options.omitEndingLineFeed {
        document := document + [NEWLINE];
      }
      text := document;
    }

    method WriteValue(value: Value)
      requires WellFormed(value) && InRange(value)
      modifies this
      ensures document == old(document) + ValueText(options, value)
      decreases value, 1
    {
      match value
      case Null =>
        if !options.dropNullPlaceholders {
          document := document + NULL_TEXT;
        }
      case Int(i) =>
        var text := IntToString(i);
        document := document + text;
      case UInt(u) =>
        var text := UIntValueToString(u);
        document := document + text;
      case Real(r) =>
        document := document + options.realText(r);
      case Str(s) =>
        var text := ValueToQuotedString(s);
        document := document + text;
      case Bool(b) =>
        document := document + if b then TRUE_TEXT else FALSE_TEXT;
      case Array(items) =>
        WriteArray(items);
      case Object(members) =>
        WriteObject(members);
    }

    method WriteArray(items: seq<Value>)
      requires forall i :: 0 <= i < |items| ==> WellFormed(items[i]) && InRange(items[i])
      modifies this
      ensures document == old(document) + [ARRAY_BEGIN] + ItemsText(options, items) + [ARRAY_END]
      decreases items, 0
    {
      hide *;
      document := document + [ARRAY_BEGIN];
      ghost var whole := document + ItemsLeft(options, items, 0);
      assert whole == document + ItemsText(options, items) by { ItemsLeftStart(options, items); }
      for index := 0 to |items|
        invariant document + ItemsLeft(options, items, index) == whole
      {
        ItemsLeftStep(options, items, index);
        Regroup(document, CommaAt(index, |items|), ValueText(options, items[index]),
                ItemsLeft(options, items, index + 1));
        CommaBefore(index, |items|);
        if index > 0 {
          document := document + [COMMA];
        }
        WriteValue(items[index]);
      }
      ItemsLeftEnd(options, items);
      document := document + [ARRAY_END];
    }

    method WriteObject(members: seq<Member>)
      requires SortedKeys(members)
      requires forall i :: 0 <= i < |members| ==> WellFormed(members[i].value) && InRange(members[i].value)
      modifies this
      ensures document == old(document) + [OBJECT_BEGIN] + MembersText(options, members) + [OBJECT_END]
      decreases members, 1
    {
      hide *;
      document := document + [OBJECT_BEGIN];
      ghost var whole := document + MembersLeft(options, members, 0);
      assert whole == document + MembersText(options, members) by { MembersLeftStart(options, members); }
      for k := 0 to |members|
        invariant document + MembersLeft(options, members, k) == whole
      {
        MembersLeftStep(options, members, k);
        Regroup(document, CommaAt(k, |members|), MemberText(options, members[k]),
                MembersLeft(options, members, k + 1));
        CommaBefore(k, |members|);
        if k > 0 {
          document := document + [COMMA];
        }
        WriteMember(members, k);
      }
      MembersLeftEnd(options, members);
      document := document + [OBJECT_END];
    }

    method WriteMember(members: seq<Member>, k: nat)
      requires SortedKeys(members) && k < |members|
      requires WellFormed(members[k].value) && InRange(members[k].value)
      modifies this
      ensures document == old(document) + MemberText(options, members[k])
      decreases members, 0
    {
      hide *;
      var name := members[k].key;
      var quoted := ValueToQuotedString(name);
      document := document + quoted;
      document := document + options.Separator();
      FindAt(members, k);
      WriteValue(Find(members, name));
      MemberTextIs(options, members[k]);
    }
  }

  lemma MemberTextIs(o: WriterOptions, m: Member)
    ensures MemberText(o, m) == Quote(m.key) + o.Separator() + ValueText(o, m.value)
  {
  }

  lemma Regroup(document: Bytes, comma: Bytes, item: Bytes, rest: Bytes)
    ensures document + (comma + item + rest) == document + comma + item + rest
  {
  }

  /** The comma before item index of n: every item but the first has one. */
  function CommaAt(index: nat, n: nat): Bytes {
    if 0 < index < n then [COMMA] else []
  }

  lemma CommaBefore(index: nat, n: nat)
    requires index < n
    ensures CommaAt(index, n) == if index > 0 then [COMMA] else []
  {
  }

  /** The text still to be written from item index on. */
  function ItemsLeft(o: WriterOptions, items: seq<Value>, index: nat): Bytes
    requires index <= |items|
  {
    CommaAt(index, |items|) + ItemsText(o, items[index..])
  }

  lemma ItemsLeftStart(o: WriterOptions, items: seq<Value>)
    ensures ItemsLeft(o, items, 0) == ItemsText(o, items)
  {
    assert items[0..] == items;
  }

  lemma ItemsLeftStep(o: WriterOptions, items: seq<Value>, index: nat)
    requires index < |items|
    ensures ItemsLeft(o, items, index)
         == CommaAt(index, |items|) + ValueText(o, items[index]) + ItemsLeft(o, items, index + 1)
  {
    hide *;
    var left, comma := items[index..], CommaAt(index, |items|);
    assert left[0] == items[index] && left[1..] == items[index + 1..];
    ItemsTextStep(o, left);
    CommaAgrees(index, |items|);
    ItemsLeftIs(o, items, index);
    ItemsLeftIs(o, items, index + 1);
    Reassociate(comma, ValueText(o, left[0]), CommaIfMore(|left|), ItemsText(o, left[1..]));
  }

  lemma ItemsLeftIs(o: WriterOptions, items: seq<Value>, index: nat)
    requires index <= |items|
    ensures ItemsLeft(o, items, index) == CommaAt(index, |items|) + ItemsText(o, items[index..])
  {
  }

  lemma Reassociate(a: Bytes, b: Bytes, c: Bytes, d: Bytes)
    ensures a + (b + c + d) == a + b + (c + d)
  {
  }

  lemma ItemsLeftEnd(o: WriterOptions, items: seq<Value>)
    ensures ItemsLeft(o, items, |items|) == []
  {
  }

  lemma CommaAgrees(index: nat, n: nat)
    requires index < n
    ensures CommaIfMore(n - index) == CommaAt(index + 1, n)
  {
  }

  lemma ItemsTextStep(o: WriterOptions, items: seq<Value>)
    requires items != []
    ensures ItemsText(o, items) == ValueText(o, items[0]) + CommaIfMore(|items|) + ItemsText(o, items[1..])
  {
  }

  lemma MembersTextStep(o: WriterOptions, members: seq<Member>)
    requires members != []
    ensures MembersText(o, members) == MemberText(o, members[0]) + CommaIfMore(|members|) + MembersText(o, members[1..])
  {
  }

  function MembersLeft(o: WriterOptions, members: seq<Member>, k: nat): Bytes
    requires k <= |members|
  {
    CommaAt(k, |members|) + MembersText(o, members[k..])
  }

  lemma MembersLeftStart(o: WriterOptions, members: seq<Member>)
    ensures MembersLeft(o, members, 0) == MembersText(o, members)
  {
    assert members[0..] == members;
  }

  lemma MembersLeftStep(o: WriterOptions, members: seq<Member>, k: nat)
    requires k < |members|
    ensures MembersLeft(o, members, k)
         == CommaAt(k, |members|) + MemberText(o, members[k]) + MembersLeft(o, members, k + 1)
  {
    hide *;
    var left, comma := members[k..], CommaAt(k, |members|);
    assert left[0] == members[k] && left[1..] == members[k + 1..];
    MembersTextStep(o, left);
    CommaAgrees(k, |members|);
    MembersLeftIs(o, members, k);
    MembersLeftIs(o, members, k + 1);
    Reassociate(comma, MemberText(o, left[0]), CommaIfMore(|left|), MembersText(o, left[1..]));
  }

  lemma MembersLeftIs(o: WriterOptions, members: seq<Member>, k: nat)
    requires k <= |members|
    ensures MembersLeft(o, members, k) == CommaAt(k, |members|) + MembersText(o, members[k..])
  {
  }

  lemma MembersLeftEnd(o: WriterOptions, members: seq<Member>)
    ensures MembersLeft(o, members, |members|) == []
  {
  }
}
