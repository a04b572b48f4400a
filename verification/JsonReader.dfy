/**
 Reader: the imperative parser, with its cursor, its stack of node pointers, its error
 list and its nesting counter, proved to compute module JsonParser's functions.
 */
module JsonReader {
  import opened Maybe
  import opened Words
  import opened JsonValue
  import opened JsonText
  import opened JsonTree
  import L = JsonLexer
  import D = JsonDecode
  import P = JsonParser

  newtype uint64 = x: int | 0 <= x <= 0xffff_ffff_ffff_ffff

  /** A call returns a flag or throws. */
  datatype Verdict = Exception | Flag(ok: bool)

  class Reader {
    const features: P.Features
    var document: Bytes
    var current: nat
    var errors: seq<P.ErrorInfo>
    var nodes: seq<Path>
    var stackDepth: nat
    var root: Value

    constructor (features: P.Features)
      ensures this.features == features && document == [] && current == 0 && errors == [] && nodes == []
    {
      this.features := features;
      document, current, errors, nodes, stackDepth, root := [], 0, [], [], 0, Null;
    }

    // --------------------------------------------------------------- scanning

    method GetNextChar() returns (c: Byte)
      modifies this`current
      requires current <= |document|
      ensures c == L.Peek(document, old(current)) && current == L.Next(document, old(current))
    {
      if current == |document| {
        return 0;
      }
      c := document[current];
      current := current + 1;
    }

    method SkipSpaces()
      modifies this`current
      requires current <= |document|
      ensures current == L.SkipSpaces(document, old(current))
    {
      while current != |document|
        invariant current <= |document|
        invariant L.SkipSpaces(document, current) == L.SkipSpaces(document, old(current))
      {
        var c := document[current];
        if L.IsSpace(c) {
          current := current + 1;
        } else {
          break;
        }
      }
    }

    method Match(pattern: Bytes) returns (ok: bool)
      modifies this`current
      requires current <= |document|
      ensures L.Scan(ok, current) == L.ScanMatch(document, old(current), pattern)
    {
      if |document| - current < |pattern| {
        return false;
      }
      var index := |pattern|;
      while index > 0
        invariant 0 <= index <= |pattern|
        invariant forall k :: index <= k < |pattern| ==> document[current + k] == pattern[k]
      {
        index := index - 1;
        if document[current + index] != pattern[index] {
          return false;
        }
      }
      assert document[current..current + |pattern|] == pattern;
      current := current + |pattern|;
      ok := true;
    }

    method ReadCStyleComment() returns (ok: bool)
      modifies this`current
      requires current <= |document|
      ensures L.Scan(ok, current) == L.ScanCStyleComment(document, old(current))
    {
      ghost var found := false;
      while current != |document|
        invariant current <= |document|
        invariant !found ==>
          L.ScanCStyleComment(document, current) == L.ScanCStyleComment(document, old(current))
      {
        var c := GetNextChar();
        if c == L.STAR && L.Peek(document, current) == L.SLASH {
          found := true;
          assert L.ScanCStyleComment(document, old(current)) == L.Scan(true, current + 1);
          break;
        }
      }
      var last := GetNextChar();
      ok := last == L.SLASH;
    }

    method ReadCppStyleComment()
      modifies this`current
      requires current <= |document|
      ensures current == L.ScanCppStyleComment(document, old(current))
    {
      while current != |document|
        invariant current <= |document|
        invariant L.ScanCppStyleComment(document, current) == L.ScanCppStyleComment(document, old(current))
      {
        var c := GetNextChar();
        if c == NEWLINE {
          return;
        }
        if c == L.RETURN {
          if current != |document| && document[current] == NEWLINE {
            var _ := GetNextChar();
          }
          return;
        }
      }
    }

    method ReadComment() returns (ok: bool)
      modifies this`current
      requires current <= |document|
      ensures L.Scan(ok, current) == L.ScanComment(document, old(current))
    {
      var c := GetNextChar();
      ok := false;
      if c == L.STAR {
        ok := ReadCStyleComment();
      } else if c == L.SLASH {
        ReadCppStyleComment();
        ok := true;
      }
    }

    method ReadString() returns (ok: bool)
      modifies this`current
      requires current <= |document|
      ensures L.Scan(ok, current) == L.ScanString(document, old(current))
    {
      var c: Byte := 0;
      while current != |document|
        invariant current <= |document|
        invariant c != QUOTE
        invariant L.ScanString(document, current) == L.ScanString(document, old(current))
      {
        c := GetNextChar();
        if c == BACKSLASH {
          var _ := GetNextChar();
        } else if c == QUOTE {
          break;
        }
      }
      ok := c == QUOTE;
    }

    /** The reader's one-line step: the cursor moves to p, and the character there is fetched. */
    method Fetch(p: nat) returns (c: Byte, next: nat)
      modifies this`current
      requires p <= |document|
      ensures current == p && c == L.Peek(document, p) && next == L.Next(document, p)
    {
      current := p;
      if p < |document| {
        c, next := document[p], p + 1;
      } else {
        c, next := 0, p;
      }
    }

    /** Fetches until the character is no digit. */
    method FetchDigits(c: Byte, p: nat) returns (last: Byte, next: nat)
      modifies this`current
      requires current <= |document| && p <= |document|
      requires !IsDigit(c) ==> c == L.Peek(document, current) && p == L.Next(document, current)
      ensures current == if IsDigit(c) then L.SkipDigits(document, p) else old(current)
      ensures c == L.Peek(document, old(current)) && p == L.Next(document, old(current)) ==>
        current == L.SkipDigits(document, old(current))
      ensures !IsDigit(last) && last == L.Peek(document, current) && next == L.Next(document, current)
    {
      last, next := c, p;
      while IsDigit(last)
        invariant current <= |document| && next <= |document|
        invariant !IsDigit(last) ==> last == L.Peek(document, current) && next == L.Next(document, current)
        invariant !IsDigit(last) && !IsDigit(c) ==> current == old(current)
        invariant !IsDigit(last) && IsDigit(c) ==> current == L.SkipDigits(document, p)
        invariant IsDigit(last) ==> IsDigit(c) && L.SkipDigits(document, next) == L.SkipDigits(document, p)
        decreases |document| - next, IsDigit(last)
      {
        last, next := Fetch(next);
      }
    }

    method ReadNumber()
      modifies this`current
      requires current <= |document|
      ensures current == L.NumberEnd(document, old(current))
    {
      hide L.SkipDigits;
      var c, p := FetchDigits(0x30, current);
      if c == 0x2E {
        c, p := Fetch(p);
        c, p := FetchDigits(c, p);
      }
      if c == 0x65 || c == 0x45 {
        c, p := Fetch(p);
        if c == 0x2B || c == MINUS {
          c, p := Fetch(p);
        }
        c, p := FetchDigits(c, p);
      }
    }

    method ReadToken() returns (token: L.Token)
      modifies this`current
      requires current <= |document|
      ensures token == L.ReadToken(document, old(current)) && current == token.end
    {
      SkipSpaces();
      var start := current;
      var kind, ok := ReadTokenKind();
      token := L.Token(if ok then kind else L.ErrorToken, start, current);
    }

    /** The switch of readToken. */
    method ReadTokenKind() returns (kind: L.TokenType, ok: bool)
      modifies this`current
      requires current <= |document|
      ensures L.Token(if ok then kind else L.ErrorToken, old(current), current) == L.TokenAt(document, old(current))
    {
      var c := GetNextChar();
      ok := true;
      if c == OBJECT_BEGIN {
        kind := L.ObjectBegin;
      } else if c == OBJECT_END {
        kind := L.ObjectEnd;
      } else if c == ARRAY_BEGIN {
        kind := L.ArrayBegin;
      } else if c == ARRAY_END {
        kind := L.ArrayEnd;
      } else if c == QUOTE {
        kind := L.StringToken;
        ok := ReadString();
      } else if c == L.SLASH {
        kind := L.Comment;
        ok := ReadComment();
      } else if IsDigit(c) || c == MINUS {
        kind := L.NumberToken;
        ReadNumber();
      } else if c == 0x74 {
        kind := L.TrueToken;
        ok := Match(L.RUE);
      } else if c == 0x66 {
        kind := L.FalseToken;
        ok := Match(L.ALSE);
      } else if c == 0x6E {
        kind := L.NullToken;
        ok := Match(L.ULL);
      } else if c == COMMA {
        kind := L.ArraySeparator;
      } else if c == COLON {
        kind := L.MemberSeparator;
      } else if c == 0 {
        kind := L.EndOfStream;
      } else {
        kind, ok := L.ErrorToken, false;
      }
    }

    /** readToken, repeated while it yields comments. */
    method ReadPastComments() returns (token: L.Token)
      modifies this`current
      requires current <= |document|
      ensures token == L.SkipComments(document, old(current)) && current == token.end
    {
      token := ReadToken();
      while token.kind == L.Comment
        invariant current == token.end <= |document|
        invariant (if token.kind == L.Comment then L.SkipComments(document, current) else token)
               == L.SkipComments(document, old(current))
        invariant token.kind == L.Comment ==> token.start < token.end
        decreases |document| - token.start, token.kind == L.Comment
      {
        token := ReadToken();
      }
    }

    method SkipCommentTokens() returns (token: L.Token)
      modifies this`current
      requires current <= |document|
      ensures token == P.FirstToken(features, document, old(current)) && current == token.end
    {
      if features.allowComments {
        token := ReadPastComments();
      } else {
        token := ReadToken();
      }
    }

    // --------------------------------------------------------------- decoding

    method AddError(token: L.Token, message: D.Message, extra: Option<nat>)
      modifies this`errors
      ensures errors == old(errors) + [P.ErrorInfo(token, message, extra)]
    {
      errors := errors + [P.ErrorInfo(token, message, extra)];
    }

    /** The error list after a decoding step that ended with code point c. */
    ghost function ErrorsAfter(before: seq<P.ErrorInfo>, token: L.Token, c: D.CodePoint): seq<P.ErrorInfo> {
      match c
      case CodePoint(_, _) => before
      case BadCodePoint(message, extra) => before + [P.ErrorInfo(token, message, Some(extra))]
    }

    method DecodeUnicodeEscapeSequence(token: L.Token, cur: nat, end: nat)
      returns (ok: bool, next: nat, unicode: nat)
      modifies this`errors
      requires cur <= end <= |document|
      ensures var c := D.UnicodeEscape(document, cur, end);
              && ok == c.CodePoint? && errors == ErrorsAfter(old(errors), token, c)
              && (ok ==> c == D.CodePoint(unicode, next))
    {
      hide D.HexDigits, D.HexLimit, D.HexValue;
      HexDigitsDone();
      next, unicode := cur, 0;
      if end - cur < 4 {
        AddError(token, D.FourDigitsExpected, Some(cur));
        return false, next, unicode;
      }
      for index := 0 to 4
        invariant next == cur + index && unicode < D.HexLimit(index)
        invariant errors == old(errors)
        invariant D.UnicodeEscape(document, cur, end) == D.HexDigits(document, next, 4 - index, unicode)
      {
        HexDigitsStep(document, next, 4 - index, unicode);
        var c := document[next];
        next := next + 1;
        unicode := unicode * 16;
        var isHex, digit := HexCharacter(c);
        if !isHex {
          AddError(token, D.HexDigitExpected, Some(next));
          return false, next, unicode;
        }
        unicode := unicode + digit;
      }
      ok := true;
    }

    static method HexCharacter(c: Byte) returns (ok: bool, digit: nat)
      ensures D.HexValue(c) == if ok then Some(digit) else None
      ensures digit < 16
    {
      if 0x30 <= c <= 0x39 {
        return true, c - 0x30;
      } else if 0x61 <= c <= 0x66 {
        return true, c - 0x61 + 10;
      } else if 0x41 <= c <= 0x46 {
        return true, c - 0x41 + 10;
      }
      return false, 0;
    }

    method DecodeUnicodeCodePoint(token: L.Token, cur: nat, end: nat)
      returns (ok: bool, next: nat, unicode: nat)
      modifies this`errors
      requires cur <= end <= |document|
      ensures var c := D.DecodeCodePoint(document, cur, end);
              && ok == c.CodePoint? && errors == ErrorsAfter(old(errors), token, c)
              && (ok ==> c == D.CodePoint(unicode, next))
    {
      hide D.UnicodeEscape;
      ok, next, unicode := DecodeUnicodeEscapeSequence(token, cur, end);
      if !ok {
        return;
      }
      if 0xD800 <= unicode <= 0xDBFF {
        if end - next < 6 {
          AddError(token, D.SurrogateTooShort, Some(next));
          return false, next, unicode;
        }
        var isBackslash := document[next] == BACKSLASH;
        next := next + 1;
        var isU := false;
        if isBackslash {
          isU := document[next] == 0x75;
          next := next + 1;
        }
        if !isU {
          AddError(token, D.SurrogateExpected, Some(next));
          return false, next, unicode;
        }
        var high := unicode;
        var low;
        ok, next, low := DecodeUnicodeEscapeSequence(token, next, end);
        unicode := D.SurrogatePair(high, low);
      }
    }

    method DecodeString(token: L.Token) returns (ok: bool, decoded: Bytes)
      modifies this`errors
      requires token.start + 2 <= token.end <= |document|
      ensures match D.DecodeString(document, token)
              case Decoded(text) => ok && decoded == text && errors == old(errors)
              case BadString(message, extra) =>
                !ok && errors == old(errors) + [P.ErrorInfo(token, message, Some(extra))]
    {
      hide D.DecodeCodePoint, D.CodePointToUtf8;
      var cur, end := token.start + 1, token.end - 1;
      decoded := [];
      while cur != end
        invariant cur <= end
        invariant errors == old(errors)
        invariant D.DecodeString(document, token) == D.DecodeFrom(document, cur, end, decoded)
        decreases end - cur
      {
        var c := document[cur];
        cur := cur + 1;
        if c == QUOTE {
          return true, decoded;
        } else if c == BACKSLASH {
          if cur == end {
            AddError(token, D.EmptyEscape, Some(cur));
            return false, decoded;
          }
          var escape := document[cur];
          cur := cur + 1;
          if escape == 0x75 {
            var unicode;
            ok, cur, unicode := DecodeUnicodeCodePoint(token, cur, end);
            if !ok {
              return;
            }
            decoded := decoded + D.CodePointToUtf8(unicode);
          } else {
            match D.SimpleEscape(escape)
            case Some(plain) =>
              decoded := decoded + [plain];
            case None =>
              AddError(token, D.BadEscape, Some(cur));
              return false, decoded;
          }
        } else {
          decoded := decoded + [c];
        }
      }
      ok := true;
    }

    /** The conversion through the C library, for numbers that are not 64-bit integers. */
    method DecodeDouble(token: L.Token) returns (ok: bool, decoded: Value)
      modifies this`errors
      requires token.start < token.end <= |document|
      ensures match features.toDouble(document[token.start..token.end])
              case Some(r) => ok && decoded == Real(r) && errors == old(errors)
              case None => !ok && errors == old(errors) + [P.ErrorInfo(token, D.NotANumber, None)]
    {
      match features.toDouble(document[token.start..token.end])
      case Some(r) => ok, decoded := true, Real(r);
      case None =>
        AddError(token, D.NotANumber, None);
        ok, decoded := false, Null;
    }

    /** The integer is exact, and the accumulation never leaves 64 bits. */
    method DecodeNumber(token: L.Token) returns (ok: bool, decoded: Value)
      modifies this`errors
      requires token.start < token.end <= |document|
      ensures match D.DecodeNumber(document[token.start..token.end], features.toDouble)
              case Some(v) => ok && decoded == v && errors == old(errors)
              case None => !ok && errors == old(errors) + [P.ErrorInfo(token, D.NotANumber, None)]
    {
      hide D.DecodeNumber, AllDigits, DecimalValue, IsDigit;
      ghost var text := document[token.start..token.end];
      var pos := token.start;
      var isNegative := document[pos] == MINUS;
      if isNegative {
        pos := pos + 1;
      }
      ghost var first := pos;
      ghost var digits := document[first..token.end];
      assert digits == if text[0] == MINUS then text[1..] else text;
      NumberMeaning(text, features.toDouble, digits);
      var maxIntegerValue: uint64 := if isNegative then 0x8000_0000_0000_0000 else 0xffff_ffff_ffff_ffff;
      var threshold := maxIntegerValue / 10;
      var value: uint64 := 0;
      NoDigits();
      assert document[first..pos] == [];
      while pos < token.end
        invariant first <= pos <= token.end
        invariant AllDigits(document[first..pos]) && value as int == DecimalValue(document[first..pos])
        invariant value <= maxIntegerValue
        invariant errors == old(errors)
      {
        var c := document[pos];
        ghost var done := document[first..pos];
        SliceStep(document, first, pos, token.end);
        pos := pos + 1;
        if !IsDigit(c) {
          NotAllDigits(digits, |done|);
          ok, decoded := DecodeDouble(token);
          return;
        }
        var digit := DigitValue(c);
        if value >= threshold && (value > threshold || pos != token.end || digit > maxIntegerValue % 10) {
          TooLarge(done, c, document[pos..token.end], maxIntegerValue as int);
          ok, decoded := DecodeDouble(token);
          return;
        }
        DecimalAppend(done, c);
        value := value * 10 + digit;
      }
      assert document[first..pos] == digits;
      ok := true;
      if isNegative && value == maxIntegerValue {
        decoded := Int(-0x8000_0000_0000_0000);
      } else if isNegative {
        decoded := Int(-(value as int));
      } else if value <= 0x7fff_ffff {
        decoded := Int(value as int);
      } else {
        decoded := UInt(value as int);
      }
    }

    // ---------------------------------------------------------------- reading

    method RecoverFromError(until: L.TokenType)
      modifies this`current, this`errors
      requires current <= |document|
      ensures current == L.RecoverTo(document, old(current), until) && errors == old(errors)
    {
      var errorCount := |errors|;
      while true
        invariant current <= |document| && errors == old(errors)
        invariant L.RecoverTo(document, current, until) == L.RecoverTo(document, old(current), until)
        decreases |document| - current
      {
        var skip := ReadToken();
        if skip.kind == until || skip.kind == L.EndOfStream {
          break;
        }
      }
      errors := errors[..errorCount];
    }

    method AddErrorAndRecover(message: D.Message, token: L.Token, until: L.TokenType)
      modifies this`current, this`errors
      requires current <= |document|
      ensures P.State(current, stackDepth, errors)
           == P.State(old(current), stackDepth, old(errors)).Add(token, message, None).Recover(document, until)
    {
      AddError(token, message, None);
      RecoverFromError(until);
    }

    /** The pointer on top of the stack. */
    function Top(): Path
      reads this`nodes
      requires nodes != []
    {
      nodes[|nodes| - 1]
    }

    /** The reader stands where a read ended, with the node it was given replaced in the tree. */
    ghost predicate Reflects(r: P.Outcome, verdict: Verdict, before: Value, top: Path)
      reads this`current, this`stackDepth, this`errors, this`root
      requires HasPath(before, top)
    {
      match r
      case Threw => verdict == Exception
      case Returned(ok, state, value) =>
        && verdict == Flag(ok)
        && state == P.State(current, stackDepth, errors)
        && root == Set(before, top, value)
    }

    method SwapPayload(value: Value)
      modifies this`root
      requires nodes != [] && HasPath(root, Top())
      ensures root == Set(old(root), Top(), value)
      ensures HasPath(root, Top()) && Get(root, Top()) == value
    {
      GetSet(root, Top(), value);
      root := Set(root, Top(), value);
    }

    /** Pushes a pointer to a child of the current node, reads a value into it, and pops the pointer. */
    method ReadChild(sel: Selector) returns (verdict: Verdict)
      modifies this`current, this`errors, this`nodes, this`stackDepth, this`root
      requires current <= |document| && nodes != []
      requires WellFormed(root) && HasPath(root, Top()) && HasChild(Get(root, Top()), sel)
      ensures var node := Get(old(root), old(Top()));
              match P.ReadValue(features, document, P.State(old(current), old(stackDepth), old(errors)),
                                Child(node, sel))
              case Threw => verdict == Exception
              case Returned(ok, state, value) =>
                && verdict == Flag(ok)
                && state == P.State(current, stackDepth, errors)
                && nodes == old(nodes)
                && root == Set(old(root), old(Top()), WithChild(node, sel, value))
      decreases |document| - current, 1
    {
      hide P.ReadValue, Set, Get, HasPath, HasChild, Child, WithChild, WellFormed;
      ghost var before, top := root, Top();
      SetChildAll(before, top, sel);
      nodes := nodes + [Top() + [sel]];
      assert Top() == top + [sel];
      verdict := ReadValue();
      if verdict == Exception {
        return;
      }
      nodes := nodes[..|nodes| - 1];
    }

    method ReadValue() returns (verdict: Verdict)
      modifies this`current, this`errors, this`nodes, this`stackDepth, this`root
      requires current <= |document| && nodes != []
      requires WellFormed(root) && HasPath(root, Top())
      ensures Reflects(P.ReadValue(features, document, P.State(old(current), old(stackDepth), old(errors)),
                                   Get(old(root), old(Top()))),
                       verdict, old(root), old(Top()))
      ensures verdict != Exception ==> nodes == old(nodes)
      decreases |document| - current, 0
    {
      hide P.ReadMembers, P.ReadArray, P.ReadScalar, P.FirstToken, Set, Get, HasPath, WellFormed;
      if stackDepth >= P.STACK_LIMIT {
        return Exception;
      }
      stackDepth := stackDepth + 1;
      var token := SkipCommentTokens();
      if token.kind == L.ObjectBegin {
        verdict := ReadObject();
      } else if token.kind == L.ArrayBegin {
        verdict := ReadArray();
      } else {
        verdict := ReadScalar(token);
        return;
      }
      if verdict != Exception {
        stackDepth := stackDepth - 1;
      }
    }

    /** The cases of readValue's switch that read no nested value. */
    method ReadScalar(token: L.Token) returns (verdict: Verdict)
      modifies this`errors, this`stackDepth, this`root
      requires current <= |document| && nodes != [] && WellFormed(root) && HasPath(root, Top())
      requires stackDepth > 0 && current == token.end && (token.start < token.end || token.kind == L.EndOfStream)
      requires token.kind == L.StringToken ==> token.start + 2 <= token.end
      requires token.kind != L.ObjectBegin && token.kind != L.ArrayBegin
      ensures Reflects(P.ReadScalar(features, document, P.State(current, old(stackDepth), old(errors)), token,
                                    Get(old(root), Top())),
                       verdict, old(root), Top())
    {
      hide D.DecodeNumber, D.DecodeString;
      SetGet(root, Top());
      var ok := true;
      if token.kind == L.NumberToken {
        var decoded;
        ok, decoded := DecodeNumber(token);
        if ok {
          SwapPayload(decoded);
        }
      } else if token.kind == L.StringToken {
        var text;
        ok, text := DecodeString(token);
        if ok {
          SwapPayload(Str(text));
        }
      } else if token.kind == L.TrueToken {
        SwapPayload(Bool(true));
      } else if token.kind == L.FalseToken {
        SwapPayload(Bool(false));
      } else if token.kind == L.NullToken {
        SwapPayload(Null);
      } else {
        AddError(token, D.ValueExpected, None);
        return Flag(false);
      }
      stackDepth := stackDepth - 1;
      verdict := Flag(ok);
    }

    /** Creates element index of the current array and reads a value into it. */
    method ReadElement(index: nat, ghost before: Value, ghost items: seq<Value>) returns (verdict: Verdict)
      modifies this`current, this`errors, this`nodes, this`stackDepth, this`root
      requires current <= |document| && nodes != [] && index == |items|
      requires WellFormed(before) && HasPath(before, Top()) && root == Set(before, Top(), Array(items))
      requires WellFormed(Array(items))
      ensures match P.ReadValue(features, document, P.State(old(current), old(stackDepth), old(errors)), Null)
              case Threw => verdict == Exception
              case Returned(ok, state, value) =>
                && verdict == Flag(ok)
                && state == P.State(current, stackDepth, errors)
                && nodes == old(nodes)
                && root == Set(before, old(Top()), Array(items + [value]))
      decreases |document| - current, 2
    {
      hide *;
      SetReplaced(before, Top(), Array(items));
      SwapPayload(Array(Get(root, Top()).items + [Null]));
      SetReplaced(before, Top(), Array(items + [Null]));
      LastChild(items);
      NullWellFormed();
      AppendWellFormed(items, Null);
      SetWellFormed(before, Top(), Array(items + [Null]));
      verdict := ReadChild(Index(index));
    }

    /** Creates member name of the current object if it is missing, and reads a value into it. */
    method ReadMemberValue(name: Bytes, ghost before: Value, ghost members: seq<Member>) returns (verdict: Verdict)
      modifies this`current, this`errors, this`nodes, this`stackDepth, this`root
      requires current <= |document| && nodes != []
      requires WellFormed(before) && HasPath(before, Top()) && root == Set(before, Top(), Object(members))
      requires WellFormed(Object(members))
      ensures match P.ReadValue(features, document, P.State(old(current), old(stackDepth), old(errors)),
                                Find(members, name))
              case Threw => verdict == Exception
              case Returned(ok, state, value) =>
                && verdict == Flag(ok)
                && state == P.State(current, stackDepth, errors)
                && nodes == old(nodes)
                && root == Set(before, old(Top()), Object(Put(members, name, value)))
      decreases |document| - current, 2
    {
      hide *;
      SetReplaced(before, Top(), Object(members));
      var found := Get(root, Top()).members;
      ghost var extended := members;
      if !HasKey(found, name) {
        SwapPayload(Object(Put(found, name, Null)));
        extended := Put(members, name, Null);
      }
      SetReplaced(before, Top(), Object(extended));
      NamedChild(members, name);
      NullWellFormed();
      P.PutWellFormed(members, name, Null);
      SetWellFormed(before, Top(), Object(extended));
      verdict := ReadChild(Key(name));
    }

    method ReadArray() returns (verdict: Verdict)
      modifies this`current, this`errors, this`nodes, this`stackDepth, this`root
      requires current <= |document| && nodes != []
      requires WellFormed(root) && HasPath(root, Top())
      ensures Reflects(P.ReadArray(features, document, P.State(old(current), old(stackDepth), old(errors))),
                       verdict, old(root), old(Top()))
      ensures verdict != Exception ==> nodes == old(nodes)
      decreases |document| - current, 5
    {
      hide P.ReadItems, Set, Get, HasPath, L.ReadToken, L.SkipSpaces;
      SwapPayload(Array([]));
      SkipSpaces();
      if L.Peek(document, current) == ARRAY_END {
        var _ := ReadToken();
        return Flag(true);
      }
      verdict := ReadElements(old(root));
    }

    /** The loop of readArray. */
    method ReadElements(ghost before: Value) returns (verdict: Verdict)
      modifies this`current, this`errors, this`nodes, this`stackDepth, this`root
      requires current <= |document| && nodes != []
      requires WellFormed(before) && HasPath(before, Top()) && root == Set(before, Top(), Array([]))
      ensures Reflects(P.ReadItems(features, document, P.State(old(current), old(stackDepth), old(errors)), []),
                       verdict, before, old(Top()))
      ensures verdict != Exception ==> nodes == old(nodes)
      decreases |document| - current, 4
    {
      hide P.ReadItems, Set, Get, HasPath;
      ghost var items: seq<Value> := [];
      var index := 0;
      while true
        invariant current <= |document| && nodes == old(nodes) && index == |items|
        invariant old(current) <= current
        invariant HasPath(before, Top()) && root == Set(before, Top(), Array(items)) && WellFormed(Array(items))
        invariant P.ReadItems(features, document, P.State(current, stackDepth, errors), items)
               == P.ReadItems(features, document, P.State(old(current), old(stackDepth), old(errors)), [])
        decreases |document| - current
      {
        var done;
        ghost var extended;
        done, verdict, extended := ReadItem(index, before, items);
        if done {
          return;
        }
        items := extended;
        index := index + 1;
      }
    }

    /** One element and the token after it; done tells whether the array ends here. */
    method ReadItem(index: nat, ghost before: Value, ghost items: seq<Value>)
      returns (done: bool, verdict: Verdict, ghost extended: seq<Value>)
      modifies this`current, this`errors, this`nodes, this`stackDepth, this`root
      requires current <= |document| && nodes != [] && index == |items|
      requires WellFormed(before) && HasPath(before, Top()) && root == Set(before, Top(), Array(items))
      requires WellFormed(Array(items))
      ensures verdict != Exception ==> nodes == old(nodes)
      ensures var r := P.ReadItems(features, document, P.State(old(current), old(stackDepth), old(errors)), items);
              if done then Reflects(r, verdict, before, old(Top()))
              else
                && verdict != Exception && old(current) < current <= |document|
                && r == P.ReadItems(features, document, P.State(current, stackDepth, errors), extended)
                && |extended| == index + 1
                && root == Set(before, old(Top()), Array(extended)) && WellFormed(Array(extended))
      decreases |document| - current, 3
    {
      hide P.ReadValue, Set, Get, HasPath, WellFormed, L.SkipComments, L.RecoverTo;
      ghost var s := P.State(current, stackDepth, errors);
      ghost var r := P.ReadValue(features, document, s, Null);
      NullWellFormed();
      P.ReadValueWellFormed(features, document, s, Null);
      extended := items;
      verdict := ReadElement(index, before, items);
      if verdict == Exception {
        done := true;
        return;
      }
      AppendWellFormed(items, r.value);
      extended := items + [r.value];
      if !verdict.ok {
        RecoverFromError(L.ArrayEnd);
        return true, Flag(false), extended;
      }
      var token := ReadPastComments();
      if token.kind != L.ArraySeparator && token.kind != L.ArrayEnd {
        AddErrorAndRecover(D.MissingArraySeparator, token, L.ArrayEnd);
        return true, Flag(false), extended;
      }
      done := token.kind == L.ArrayEnd;
    }

    method ReadObject() returns (verdict: Verdict)
      modifies this`current, this`errors, this`nodes, this`stackDepth, this`root
      requires current <= |document| && nodes != []
      requires WellFormed(root) && HasPath(root, Top())
      ensures Reflects(P.ReadMembers(features, document, P.State(old(current), old(stackDepth), old(errors)), [], []),
                       verdict, old(root), old(Top()))
      ensures verdict != Exception ==> nodes == old(nodes)
      decreases |document| - current, 5
    {
      hide P.ReadMembers, P.ReadMember, Set, Get, HasPath, WellFormed;
      SwapPayload(Object([]));
      EmptyObjectWellFormed();
      ghost var members: seq<Member> := [];
      var name: Bytes := [];
      while true
        invariant current <= |document| && nodes == old(nodes)
        invariant old(current) <= current
        invariant HasPath(old(root), Top()) && root == Set(old(root), Top(), Object(members))
        invariant WellFormed(Object(members))
        invariant P.ReadMembers(features, document, P.State(current, stackDepth, errors), members, name)
               == P.ReadMembers(features, document, P.State(old(current), old(stackDepth), old(errors)), [], [])
        decreases |document| - current
      {
        var proceed, ok, key := ReadName(members, name);
        if !proceed {
          return Flag(ok);
        }
        name := key;
        var done;
        ghost var extended;
        done, verdict, extended := ReadMember(name, old(root), members);
        if done {
          return;
        }
        members := extended;
      }
    }

    /** From the head of readObject's loop to just after the colon, unless the object ends before. */
    method ReadName(ghost members: seq<Member>, name: Bytes) returns (proceed: bool, ok: bool, key: Bytes)
      modifies this`current, this`errors
      requires current <= |document|
      ensures current <= |document| && (proceed ==> old(current) < current)
      ensures var now := P.State(current, stackDepth, errors);
              P.ReadMembers(features, document, P.State(old(current), stackDepth, old(errors)), members, name)
              == if proceed then P.ReadMember(features, document, now, members, key)
                 else P.Returned(ok, now, Object(members))
    {
      hide P.ReadMember, D.DecodeString, L.SkipComments, L.ReadToken, L.RecoverTo;
      key := [];
      var tokenName := ReadPastComments();
      if tokenName.kind == L.ObjectEnd && name == [] {
        return false, true, key;
      }
      if tokenName.kind != L.StringToken {
        AddErrorAndRecover(D.MissingMemberName, tokenName, L.ObjectEnd);
        return false, false, key;
      }
      ok, key := DecodeString(tokenName);
      if !ok {
        RecoverFromError(L.ObjectEnd);
        return false, false, key;
      }
      var colon := ReadToken();
      if colon.kind != L.MemberSeparator {
        AddErrorAndRecover(D.MissingColon, colon, L.ObjectEnd);
        return false, false, key;
      }
      proceed := true;
    }

    /** The value of a member and what follows it; done tells whether the object ends here. */
    method ReadMember(key: Bytes, ghost before: Value, ghost members: seq<Member>)
      returns (done: bool, verdict: Verdict, ghost extended: seq<Member>)
      modifies this`current, this`errors, this`nodes, this`stackDepth, this`root
      requires current <= |document| && nodes != []
      requires WellFormed(before) && HasPath(before, Top()) && root == Set(before, Top(), Object(members))
      requires WellFormed(Object(members))
      ensures verdict != Exception ==> nodes == old(nodes)
      ensures var start := P.State(old(current), old(stackDepth), old(errors));
              var r := P.ReadMember(features, document, start, members, key);
              if done then Reflects(r, verdict, before, old(Top()))
              else
                && verdict != Exception && old(current) <= current <= |document|
                && r == P.ReadMembers(features, document, P.State(current, stackDepth, errors), extended, key)
                && root == Set(before, old(Top()), Object(extended)) && WellFormed(Object(extended))
      decreases |document| - current, 3
    {
      hide P.ReadValue, P.AfterMember, P.ReadMembers, Put, Find, Set, Get, HasPath, WellFormed, L.RecoverTo;
      ghost var s := P.State(current, stackDepth, errors);
      ghost var r := P.ReadValue(features, document, s, Find(members, key));
      P.FindWellFormed(members, key);
      P.ReadValueWellFormed(features, document, s, Find(members, key));
      extended := members;
      verdict := ReadMemberValue(key, before, members);
      if verdict == Exception {
        done := true;
        return;
      }
      P.PutWellFormed(members, key, r.value);
      extended := Put(members, key, r.value);
      if !verdict.ok {
        RecoverFromError(L.ObjectEnd);
        return true, Flag(false), extended;
      }
      var ok;
      done, ok := ReadSeparator(extended, key);
      verdict := Flag(ok);
    }

    /** What follows a member: done tells whether the object ends here, by a brace or by an error. */
    method ReadSeparator(ghost members: seq<Member>, ghost name: Bytes) returns (done: bool, ok: bool)
      modifies this`current, this`errors
      requires current <= |document|
      ensures current <= |document| && (!done ==> old(current) <= current)
      ensures var now := P.State(current, stackDepth, errors);
              P.AfterMember(features, document, P.State(old(current), stackDepth, old(errors)), members, name)
              == if done then P.Returned(ok, now, Object(members))
                 else P.ReadMembers(features, document, now, members, name)
    {
      hide P.ReadMembers, L.SkipComments, L.ReadToken, L.RecoverTo;
      var comma := ReadToken();
      if comma.kind != L.ObjectEnd && comma.kind != L.ArraySeparator && comma.kind != L.Comment {
        AddErrorAndRecover(D.MissingObjectSeparator, comma, L.ObjectEnd);
        return true, false;
      }
      if comma.kind == L.Comment {
        comma := ReadPastComments();
      }
      return comma.kind == L.ObjectEnd, true;
    }

    /** parse: for every document, the verdict, the tree and the errors of module JsonParser. */
    method Parse(text: Bytes, target: Value) returns (verdict: Verdict)
      requires WellFormed(target)
      modifies this
      ensures match P.Parse(features, text, target)
              case Threw => verdict == Exception
              case Returned(ok, state, value) =>
                && verdict == Flag(ok)
                && state == P.State(current, stackDepth, errors)
                && root == value
                && nodes == [[]]
    {
      hide P.ReadValue, P.FirstToken;
      document, current, errors, root := text, 0, [], target;
      while nodes != []
        invariant document == text && current == 0 && errors == [] && root == target
        decreases |nodes|
      {
        nodes := nodes[..|nodes| - 1];
      }
      nodes := nodes + [[]];
      stackDepth := 0;
      verdict := ReadValue();
      if verdict == Exception {
        return;
      }
      var token := SkipCommentTokens();
      if features.strictRoot && !root.Array? && !root.Object? {
        AddError(L.Token(L.ErrorToken, 0, |document|), D.RootNotContainer, None);
        return Flag(false);
      }
    }
  }

  // ------------------------------------------------------------ tree updates

  lemma SetChildAll(v: Value, path: Path, sel: Selector)
    requires HasPath(v, path) && HasChild(Get(v, path), sel)
    ensures HasPath(v, path + [sel]) && Get(v, path + [sel]) == Child(Get(v, path), sel)
    ensures forall node: Value ::
      Set(v, path + [sel], node) == Set(v, path, WithChild(Get(v, path), sel, node))
  {
    SetChild(v, path, sel, Null);
    forall node: Value ensures Set(v, path + [sel], node) == Set(v, path, WithChild(Get(v, path), sel, node)) {
      SetChild(v, path, sel, node);
    }
  }

  /** The node just assigned, and what assigning it again does. */
  lemma SetReplaced(v: Value, path: Path, node: Value)
    requires HasPath(v, path)
    ensures HasPath(Set(v, path, node), path) && Get(Set(v, path, node), path) == node
    ensures forall other: Value :: Set(Set(v, path, node), path, other) == Set(v, path, other)
  {
    GetSet(v, path, node);
    forall other: Value ensures Set(Set(v, path, node), path, other) == Set(v, path, other) {
      SetSet(v, path, node, other);
    }
  }

  /** Assigning a node to itself changes nothing. */
  lemma {:induction false} SetGet(v: Value, path: Path)
    requires HasPath(v, path) && WellFormed(v)
    ensures Set(v, path, Get(v, path)) == v
    decreases |path|
  {
    if path != [] {
      ChildWellFormed(v, path[0]);
      SetGet(Child(v, path[0]), path[1..]);
      WithSameChild(v, path[0]);
    }
  }

  lemma WithSameChild(v: Value, sel: Selector)
    requires HasChild(v, sel) && WellFormed(v)
    ensures WithChild(v, sel, Child(v, sel)) == v
  {
    if sel.Key? {
      PutSame(v.members, sel.key);
    }
  }

  lemma {:induction false} PutSame(members: seq<Member>, key: Bytes)
    requires SortedKeys(members) && HasKey(members, key)
    ensures Put(members, key, Find(members, key)) == members
  {
    BytesTrichotomy(key, members[0].key);
    if members[0].key != key {
      KeyAbove(members, key);
      assert SortedKeys(members[1..]);
      PutSame(members[1..], key);
    }
    assert members == [members[0]] + members[1..];
  }

  /** In a sorted map, the keys after the first are above it. */
  lemma {:induction false} KeyAbove(members: seq<Member>, key: Bytes)
    requires SortedKeys(members) && members != [] && HasKey(members[1..], key)
    ensures BytesLess(members[0].key, key) && !BytesLess(key, members[0].key)
    decreases |members|
  {
    var next := members[1];
    assert BytesLess(members[0].key, next.key);
    if next.key != key {
      var rest := members[1..];
      assert SortedKeys(rest);
      KeyAbove(rest, key);
      BytesLessTransitive(members[0].key, next.key, key);
    }
    BytesTrichotomy(members[0].key, key);
  }

  lemma ChildWellFormed(v: Value, sel: Selector)
    requires HasChild(v, sel) && WellFormed(v)
    ensures WellFormed(Child(v, sel))
  {
    if sel.Key? {
      P.FindWellFormed(v.members, sel.key);
    }
  }

  /** Assigning a well-formed node keeps the whole tree well-formed. */
  lemma {:induction false} SetWellFormed(v: Value, path: Path, node: Value)
    requires HasPath(v, path) && WellFormed(v) && WellFormed(node)
    ensures WellFormed(Set(v, path, node))
    decreases |path|
  {
    if path != [] {
      var sel := path[0];
      ChildWellFormed(v, sel);
      SetWellFormed(Child(v, sel), path[1..], node);
      if sel.Key? {
        P.PutWellFormed(v.members, sel.key, Set(Child(v, sel), path[1..], node));
      }
    }
  }

  lemma NullWellFormed()
    ensures WellFormed(Null)
  {
  }

  lemma EmptyObjectWellFormed()
    ensures WellFormed(Object([]))
  {
  }

  lemma AppendWellFormed(items: seq<Value>, v: Value)
    requires WellFormed(Array(items)) && WellFormed(v)
    ensures WellFormed(Array(items + [v]))
  {
  }

  lemma LastChild(items: seq<Value>)
    ensures HasChild(Array(items + [Null]), Index(|items|))
    ensures Child(Array(items + [Null]), Index(|items|)) == Null
    ensures forall v: Value :: WithChild(Array(items + [Null]), Index(|items|), v) == Array(items + [v])
  {
    assert forall v: Value :: (items + [Null])[|items| := v] == items + [v];
  }

  lemma NamedChild(members: seq<Member>, name: Bytes)
    ensures var extended := if HasKey(members, name) then members else Put(members, name, Null);
            && HasChild(Object(extended), Key(name))
            && Child(Object(extended), Key(name)) == Find(members, name)
            && forall v: Value :: WithChild(Object(extended), Key(name), v) == Object(Put(members, name, v))
  {
    PutFind(members, name, Null);
    FindMissing(members, name);
    forall v: Value ensures Put(Put(members, name, Null), name, v) == Put(members, name, v) {
      PutTwice(members, name, Null, v);
    }
  }

  lemma {:induction false} FindMissing(members: seq<Member>, name: Bytes)
    ensures !HasKey(members, name) ==> Find(members, name) == Null
  {
    if members != [] {
      FindMissing(members[1..], name);
    }
  }

  function DigitValue(c: Byte): (d: uint64)
    requires IsDigit(c)
    ensures d as int == c - 0x30 && d < 10
  {
    (c - 0x30) as uint64
  }

  lemma HexDigitsStep(doc: Bytes, cur: nat, left: nat, acc: nat)
    requires 0 < left <= 4 && cur + left <= |doc| && acc < D.HexLimit(4 - left)
    ensures 16 * acc + 16 <= D.HexLimit(4 - left + 1)
    ensures D.HexDigits(doc, cur, left, acc)
         == match D.HexValue(doc[cur])
            case None => D.BadCodePoint(D.HexDigitExpected, cur + 1)
            case Some(d) => D.HexDigits(doc, cur + 1, left - 1, 16 * acc + d)
  {
  }

  lemma HexDigitsDone()
    ensures D.HexLimit(0) == 1
    ensures forall doc: Bytes, cur: nat, acc: nat :: cur <= |doc| && acc < D.HexLimit(4) ==>
      D.HexDigits(doc, cur, 0, acc) == D.CodePoint(acc, cur)
  {
  }

  /** The two ways a number token decodes. */
  lemma NumberMeaning(text: Bytes, toDouble: Bytes -> Option<Double>, digits: Bytes)
    requires text != [] && digits == if text[0] == MINUS then text[1..] else text
    ensures AllDigits(digits) && DecimalValue(digits) <= D.MagnitudeLimit(text[0] == MINUS) ==>
      D.DecodeNumber(text, toDouble) == Some(D.IntegerValue(text[0] == MINUS, DecimalValue(digits)))
    ensures !(AllDigits(digits) && DecimalValue(digits) <= D.MagnitudeLimit(text[0] == MINUS)) ==>
      D.DecodeNumber(text, toDouble)
      == match toDouble(text) { case None => None case Some(r) => Some(Real(r)) }
  {
  }

  lemma NotAllDigits(digits: Bytes, k: nat)
    requires k < |digits| && !IsDigit(digits[k])
    ensures !AllDigits(digits)
  {
  }

  lemma SliceStep(doc: Bytes, first: nat, pos: nat, end: nat)
    requires first <= pos < end <= |doc|
    ensures doc[first..end] == doc[first..pos] + [doc[pos]] + doc[pos + 1..end]
    ensures doc[first..pos + 1] == doc[first..pos] + [doc[pos]]
    ensures doc[first..end][|doc[first..pos]|] == doc[pos]
  {
  }

  lemma NoDigits()
    ensures AllDigits([]) && DecimalValue([]) == 0
  {
  }

  lemma DecimalAppend(ds: Bytes, c: Byte)
    requires AllDigits(ds) && IsDigit(c)
    ensures AllDigits(ds + [c]) && DecimalValue(ds + [c]) == 10 * DecimalValue(ds) + (c - 0x30)
  {
    assert (ds + [c])[..|ds|] == ds;
  }

  /** Digits appended to a number multiply it. */
  lemma {:induction false} DecimalGrows(ds: Bytes, more: Bytes)
    requires AllDigits(ds + more)
    ensures AllDigits(ds) && AllDigits(more)
    ensures DecimalValue(ds + more) >= DecimalValue(ds)
    ensures more != [] ==> DecimalValue(ds + more) >= 10 * DecimalValue(ds)
    decreases |more|
  {
    assert forall i :: 0 <= i < |ds| ==> ds[i] == (ds + more)[i];
    assert forall i :: 0 <= i < |more| ==> more[i] == (ds + more)[|ds| + i];
    if more == [] {
      assert ds + more == ds;
    } else {
      var front := more[..|more| - 1];
      assert ds + more == (ds + front) + [more[|more| - 1]];
      assert (ds + more)[..|ds + more| - 1] == ds + front;
      DecimalGrows(ds, front);
    }
  }

  /** The digit that fails the threshold test makes the whole number too large. */
  lemma TooLarge(done: Bytes, c: Byte, rest: Bytes, max: nat)
    requires AllDigits(done) && IsDigit(c)
    requires DecimalValue(done) >= max / 10
    requires DecimalValue(done) > max / 10 || rest != [] || c - 0x30 > max % 10
    requires max >= 10
    ensures AllDigits(done + [c] + rest) ==> DecimalValue(done + [c] + rest) > max
  {
    var ds := done + [c] + rest;
    if AllDigits(ds) {
      DecimalAppend(done, c);
      DecimalGrows(done + [c], rest);
    }
  }
}
