/**
 JSON values as the library stores them.  An object is a std::map from byte-string
 keys to values, kept here as the sequence of its entries in iteration order; an array
 is a map whose keys are 0, 1, ..., so only the items are kept.
 */
module JsonValue {
  import opened Words

  /** A C++ double; the two zeros are one. */
  datatype Double = Finite(r: real) | Infinite(negative: bool) | NaN

  predicate DoubleLess(a: Double, b: Double) {
    match a
    case NaN => false
    case Infinite(negative) => negative && !b.NaN? && a != b
    case Finite(x) =>
      match b
      case NaN => false
      case Infinite(negative) => !negative
      case Finite(y) => x < y
  }

  predicate DoubleEqual(a: Double, b: Double) {
    !a.NaN? && a == b
  }

  datatype Member = Member(key: Bytes, value: Value)

  datatype Value =
    | Null
    | Int(i: int)
    | UInt(u: nat)
    | Real(r: Double)
    | Str(s: Bytes)
    | Bool(b: bool)
    | Array(items: seq<Value>)
    | Object(members: seq<Member>)

  const MAX_INT: int := 0x7fff_ffff
  const MAX_LARGEST_INT: int := 0x7fff_ffff_ffff_ffff
  const MAX_LARGEST_UINT: int := 0xffff_ffff_ffff_ffff

  // ---------------------------------------------------------------- key order

  /** Sign of memcmp over the first n bytes. */
  function MemCmp(a: Bytes, b: Bytes, n: nat): int
    requires n <= |a| && n <= |b|
    decreases n
  {
    if n == 0 then 0
    else if a[0] < b[0] then -1
    else if a[0] > b[0] then 1
    else MemCmp(a[1..], b[1..], n - 1)
  }

  function Min(a: nat, b: nat): nat {
    if a < b then a else b
  }

  predicate BytesLess(a: Bytes, b: Bytes) {
    var comp := MemCmp(a, b, Min(|a|, |b|));
    comp < 0 || (comp == 0 && |a| < |b|)
  }

  predicate BytesEqual(a: Bytes, b: Bytes) {
    |a| == |b| && MemCmp(a, b, |a|) == 0
  }

  /** memcmp is zero exactly on equal bytes, and swapping its arguments flips the sign. */
  lemma {:induction false} MemCmpMeaning(a: Bytes, b: Bytes, n: nat)
    requires n <= |a| && n <= |b|
    ensures MemCmp(a, b, n) == 0 <==> a[..n] == b[..n]
    ensures MemCmp(a, b, n) == -MemCmp(b, a, n)
    decreases n
  {
    if n > 0 {
      MemCmpMeaning(a[1..], b[1..], n - 1);
      assert a[..n] == [a[0]] + a[1..][..n - 1];
      assert b[..n] == [b[0]] + b[1..][..n - 1];
    }
  }

  lemma BytesTrichotomy(a: Bytes, b: Bytes)
    ensures BytesEqual(a, b) <==> a == b
    ensures BytesLess(a, b) ==> !BytesLess(b, a) && a != b
    ensures BytesLess(a, b) || BytesLess(b, a) || a == b
  {
    var n := Min(|a|, |b|);
    MemCmpMeaning(a, b, n);
    if |a| == |b| {
      assert a == a[..n] && b == b[..n];
    }
  }

  lemma {:induction false} BytesLessTransitive(a: Bytes, b: Bytes, c: Bytes)
    requires BytesLess(a, b) && BytesLess(b, c)
    ensures BytesLess(a, c)
    decreases |a|
  {
    if a != [] && a[0] == b[0] && b[0] == c[0] {
      BytesLessStep(a, b);
      BytesLessStep(b, c);
      BytesLessStep(a, c);
      BytesLessTransitive(a[1..], b[1..], c[1..]);
    }
  }

  lemma BytesLessStep(a: Bytes, b: Bytes)
    requires a != [] && b != [] && a[0] == b[0]
    ensures BytesLess(a, b) <==> BytesLess(a[1..], b[1..])
  {
  }

  // ------------------------------------------------------------- value order

  /** A measure for recursion that swaps its two arguments. */
  function Size(v: Value): nat
    decreases v, 0
  {
    match v
    case Array(items) => 1 + ItemsSize(items)
    case Object(members) => 1 + MembersSize(members)
    case _ => 1
  }

  function ItemsSize(items: seq<Value>): nat
    decreases items
  {
    if items == [] then 0 else 1 + Size(items[0]) + ItemsSize(items[1..])
  }

  function MembersSize(members: seq<Member>): nat
    decreases members
  {
    if members == [] then 0 else 1 + Size(members[0].value) + MembersSize(members[1..])
  }

  /** The numeric value of ValueType. */
  function Tag(v: Value): nat {
    match v
    case Null => 0
    case Int(_) => 1
    case UInt(_) => 2
    case Real(_) => 3
    case Str(_) => 4
    case Bool(_) => 5
    case Array(_) => 6
    case Object(_) => 7
  }

  predicate Less(a: Value, b: Value)
    decreases Size(a) + Size(b)
  {
    if Tag(a) != Tag(b) then Tag(a) < Tag(b)
    else match a
      case Null => false
      case Int(i) => i < b.i
      case UInt(u) => u < b.u
      case Real(r) => DoubleLess(r, b.r)
      case Str(s) => BytesLess(s, b.s)
      case Bool(x) => !x && b.b
      case Array(items) =>
        if |items| != |b.items| then |items| < |b.items| else ItemsLess(items, b.items)
      case Object(members) =>
        if |members| != |b.members| then |members| < |b.members| else MembersLess(members, b.members)
  }

  /** Lexicographic comparison of the items of two arrays. */
  predicate ItemsLess(a: seq<Value>, b: seq<Value>)
    decreases ItemsSize(a) + ItemsSize(b)
  {
    if b == [] then false
    else if a == [] then true
    else if Less(a[0], b[0]) then true
    else if Less(b[0], a[0]) then false
    else ItemsLess(a[1..], b[1..])
  }

  /** Lexicographic comparison of the (key, value) pairs of two maps. */
  predicate MembersLess(a: seq<Member>, b: seq<Member>)
    decreases MembersSize(a) + MembersSize(b)
  {
    if b == [] then false
    else if a == [] then true
    else if BytesLess(a[0].key, b[0].key) then true
    else if BytesLess(b[0].key, a[0].key) then false
    else if Less(a[0].value, b[0].value) then true
    else if Less(b[0].value, a[0].value) then false
    else MembersLess(a[1..], b[1..])
  }

  predicate Equal(a: Value, b: Value)
    decreases Size(a)
  {
    Tag(a) == Tag(b) &&
    match a
    case Null => true
    case Int(i) => i == b.i
    case UInt(u) => u == b.u
    case Real(r) => DoubleEqual(r, b.r)
    case Str(s) => BytesEqual(s, b.s)
    case Bool(x) => x == b.b
    case Array(items) => |items| == |b.items| && ItemsEqual(items, b.items)
    case Object(members) => |members| == |b.members| && MembersEqual(members, b.members)
  }

  predicate ItemsEqual(a: seq<Value>, b: seq<Value>)
    requires |a| == |b|
    decreases ItemsSize(a)
  {
    a == [] || (Equal(a[0], b[0]) && ItemsEqual(a[1..], b[1..]))
  }

  predicate MembersEqual(a: seq<Member>, b: seq<Member>)
    requires |a| == |b|
    decreases MembersSize(a)
  {
    a == [] || (BytesEqual(a[0].key, b[0].key) && Equal(a[0].value, b[0].value) && MembersEqual(a[1..], b[1..]))
  }

  // ------------------------------------------------------------- total order

  /** No number in the tree is a NaN. */
  predicate NaNFree(v: Value)
    decreases v
  {
    match v
    case Real(r) => !r.NaN?
    case Array(items) => forall i :: 0 <= i < |items| ==> NaNFree(items[i])
    case Object(members) => forall i :: 0 <= i < |members| ==> NaNFree(members[i].value)
    case _ => true
  }

  predicate ItemsNaNFree(items: seq<Value>) {
    forall i :: 0 <= i < |items| ==> NaNFree(items[i])
  }

  predicate MembersNaNFree(members: seq<Member>) {
    forall i :: 0 <= i < |members| ==> NaNFree(members[i].value)
  }

  /** operator== is equality of stored trees without a NaN, which is equal to nothing. */
  lemma {:induction false} EqualIsIdentity(a: Value, b: Value)
    ensures Equal(a, b) <==> a == b && NaNFree(a)
    decreases Size(a)
  {
    match a
    case Array(items) =>
      if b.Array? && |items| == |b.items| { ItemsEqualIsIdentity(items, b.items); }
    case Object(members) =>
      if b.Object? && |members| == |b.members| { MembersEqualIsIdentity(members, b.members); }
    case Str(s) =>
      if b.Str? { BytesTrichotomy(s, b.s); }
    case _ =>
  }

  lemma {:induction false} ItemsEqualIsIdentity(a: seq<Value>, b: seq<Value>)
    requires |a| == |b|
    ensures ItemsEqual(a, b) <==> a == b && ItemsNaNFree(a)
    decreases ItemsSize(a)
  {
    if a != [] {
      EqualIsIdentity(a[0], b[0]);
      ItemsEqualIsIdentity(a[1..], b[1..]);
      assert a == [a[0]] + a[1..] && b == [b[0]] + b[1..];
      ItemsNaNFreeStep(a);
    }
  }

  lemma ItemsNaNFreeStep(a: seq<Value>)
    requires a != []
    ensures ItemsNaNFree(a) <==> NaNFree(a[0]) && ItemsNaNFree(a[1..])
  {
    hide NaNFree;
    assert forall i :: 0 < i < |a| ==> a[i] == a[1..][i - 1];
    assert forall i :: 0 <= i < |a| - 1 ==> a[1..][i] == a[i + 1];
  }

  lemma {:induction false} MembersEqualIsIdentity(a: seq<Member>, b: seq<Member>)
    requires |a| == |b|
    ensures MembersEqual(a, b) <==> a == b && MembersNaNFree(a)
    decreases MembersSize(a)
  {
    if a != [] {
      BytesTrichotomy(a[0].key, b[0].key);
      EqualIsIdentity(a[0].value, b[0].value);
      MembersEqualIsIdentity(a[1..], b[1..]);
      assert a == [a[0]] + a[1..] && b == [b[0]] + b[1..];
      MembersNaNFreeStep(a);
    }
  }

  lemma MembersNaNFreeStep(a: seq<Member>)
    requires a != []
    ensures MembersNaNFree(a) <==> NaNFree(a[0].value) && MembersNaNFree(a[1..])
  {
    hide NaNFree;
    assert forall i :: 0 < i < |a| ==> a[i] == a[1..][i - 1];
    assert forall i :: 0 <= i < |a| - 1 ==> a[1..][i] == a[i + 1];
  }

  /** Without a NaN exactly one of a < b, b < a and a == b holds. */
  lemma {:induction false} Trichotomy(a: Value, b: Value)
    requires NaNFree(a) && NaNFree(b)
    ensures Less(a, b) ==> !Less(b, a) && !Equal(a, b)
    ensures Equal(a, b) ==> !Less(a, b) && !Less(b, a)
    ensures Less(a, b) || Less(b, a) || Equal(a, b)
    decreases Size(a) + Size(b)
  {
    EqualIsIdentity(a, b);
    if Tag(a) == Tag(b) {
      match a
      case Array(items) =>
        if |items| == |b.items| { ItemsTrichotomy(items, b.items); }
      case Object(members) =>
        if |members| == |b.members| { MembersTrichotomy(members, b.members); }
      case Str(s) => BytesTrichotomy(s, b.s);
      case _ =>
    }
  }

  lemma {:induction false} ItemsTrichotomy(a: seq<Value>, b: seq<Value>)
    requires |a| == |b| && ItemsNaNFree(a) && ItemsNaNFree(b)
    ensures ItemsLess(a, b) ==> !ItemsLess(b, a) && a != b
    ensures a == b ==> !ItemsLess(a, b)
    ensures ItemsLess(a, b) || ItemsLess(b, a) || a == b
    decreases ItemsSize(a) + ItemsSize(b)
  {
    if a != [] {
      ItemsNaNFreeStep(a);
      ItemsNaNFreeStep(b);
      Trichotomy(a[0], b[0]);
      EqualIsIdentity(a[0], b[0]);
      ItemsTrichotomy(a[1..], b[1..]);
      assert a == [a[0]] + a[1..] && b == [b[0]] + b[1..];
    }
  }

  lemma {:induction false} MembersTrichotomy(a: seq<Member>, b: seq<Member>)
    requires |a| == |b| && MembersNaNFree(a) && MembersNaNFree(b)
    ensures MembersLess(a, b) ==> !MembersLess(b, a) && a != b
    ensures a == b ==> !MembersLess(a, b)
    ensures MembersLess(a, b) || MembersLess(b, a) || a == b
    decreases MembersSize(a) + MembersSize(b)
  {
    if a != [] {
      MembersNaNFreeStep(a);
      MembersNaNFreeStep(b);
      BytesTrichotomy(a[0].key, b[0].key);
      Trichotomy(a[0].value, b[0].value);
      EqualIsIdentity(a[0].value, b[0].value);
      MembersTrichotomy(a[1..], b[1..]);
      assert a == [a[0]] + a[1..] && b == [b[0]] + b[1..];
    }
  }

  /** A value is comparable with itself exactly when it holds no NaN. */
  lemma ComparableWithItself(a: Value)
    ensures Less(a, a) || Equal(a, a) <==> NaNFree(a)
  {
    EqualIsIdentity(a, a);
    Irreflexive(a);
  }

  lemma {:induction false} Irreflexive(a: Value)
    ensures !Less(a, a)
    decreases Size(a)
  {
    match a
    case Array(items) => ItemsIrreflexive(items);
    case Object(members) => MembersIrreflexive(members);
    case Str(s) => BytesTrichotomy(s, s);
    case _ =>
  }

  lemma {:induction false} ItemsIrreflexive(a: seq<Value>)
    ensures !ItemsLess(a, a)
    decreases ItemsSize(a)
  {
    if a != [] {
      Irreflexive(a[0]);
      ItemsIrreflexive(a[1..]);
    }
  }

  lemma {:induction false} MembersIrreflexive(a: seq<Member>)
    ensures !MembersLess(a, a)
    decreases MembersSize(a)
  {
    if a != [] {
      BytesTrichotomy(a[0].key, a[0].key);
      Irreflexive(a[0].value);
      MembersIrreflexive(a[1..]);
    }
  }

  /** Without a NaN operator< is transitive, through any depth of nesting. */
  lemma {:induction false} LessTransitive(a: Value, b: Value, c: Value)
    requires NaNFree(a) && NaNFree(b) && NaNFree(c)
    requires Less(a, b) && Less(b, c)
    ensures Less(a, c)
    decreases Size(a), 0
  {
    if Tag(a) == Tag(b) == Tag(c) {
      match a
      case Array(items) =>
        if |items| == |b.items| == |c.items| { ItemsLessTransitive(items, b.items, c.items); }
      case Object(members) =>
        if |members| == |b.members| == |c.members| { MembersLessTransitive(members, b.members, c.members); }
      case Str(s) => BytesLessTransitive(s, b.s, c.s);
      case _ =>
    }
  }

  /** A NaN inside an array breaks transitivity. */
  lemma NaNNotTransitive()
    ensures var a := Array([Real(Finite(2.0)), Int(0)]);
            var b := Array([Real(NaN), Int(1)]);
            var c := Array([Real(Finite(1.0)), Int(2)]);
            Less(a, b) && Less(b, c) && Less(c, a)
  {
  }

  lemma {:induction false} ItemsLessTransitive(a: seq<Value>, b: seq<Value>, c: seq<Value>)
    requires |a| == |b| == |c| && ItemsNaNFree(a) && ItemsNaNFree(b) && ItemsNaNFree(c)
    requires ItemsLess(a, b) && ItemsLess(b, c)
    ensures ItemsLess(a, c)
    decreases ItemsSize(a)
  {
    ItemsNaNFreeStep(a);
    ItemsNaNFreeStep(b);
    ItemsNaNFreeStep(c);
    Trichotomy(a[0], b[0]);
    Trichotomy(b[0], c[0]);
    ValueChain(a[0], b[0], c[0]);
    if a[0] == b[0] == c[0] {
      Irreflexive(a[0]);
      ItemsLessTransitive(a[1..], b[1..], c[1..]);
    }
  }

  /** One position of a lexicographic comparison: the order of the heads decides unless they are equal. */
  lemma ValueChain(x: Value, y: Value, z: Value)
    requires NaNFree(x) && NaNFree(y) && NaNFree(z)
    requires !Less(y, x) && !Less(z, y)
    ensures x == y == z || (Less(x, z) && !Less(z, x))
    decreases Size(x), 1
  {
    Trichotomy(x, y);
    Trichotomy(y, z);
    Trichotomy(x, z);
    EqualIsIdentity(x, y);
    EqualIsIdentity(y, z);
    if Less(x, y) && Less(y, z) {
      LessTransitive(x, y, z);
    }
  }

  lemma {:induction false} MembersLessTransitive(a: seq<Member>, b: seq<Member>, c: seq<Member>)
    requires |a| == |b| == |c| && MembersNaNFree(a) && MembersNaNFree(b) && MembersNaNFree(c)
    requires MembersLess(a, b) && MembersLess(b, c)
    ensures MembersLess(a, c)
    decreases MembersSize(a)
  {
    MembersNaNFreeStep(a);
    MembersNaNFreeStep(b);
    MembersNaNFreeStep(c);
    BytesTrichotomy(a[0].key, b[0].key);
    BytesTrichotomy(b[0].key, c[0].key);
    KeyChain(a[0].key, b[0].key, c[0].key);
    if a[0].key == b[0].key == c[0].key {
      BytesTrichotomy(a[0].key, a[0].key);
      Trichotomy(a[0].value, b[0].value);
      Trichotomy(b[0].value, c[0].value);
      ValueChain(a[0].value, b[0].value, c[0].value);
      if a[0].value == b[0].value == c[0].value {
        Irreflexive(a[0].value);
        MembersLessTransitive(a[1..], b[1..], c[1..]);
      }
    }
  }

  lemma KeyChain(x: Bytes, y: Bytes, z: Bytes)
    requires !BytesLess(y, x) && !BytesLess(z, y)
    ensures x == y == z || (BytesLess(x, z) && !BytesLess(z, x))
  {
    BytesTrichotomy(x, y);
    BytesTrichotomy(y, z);
    BytesTrichotomy(x, z);
    if BytesLess(x, y) && BytesLess(y, z) {
      BytesLessTransitive(x, y, z);
    }
  }
}
