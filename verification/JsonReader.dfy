/**
  class Reader of http_codec/json/json_reader.cpp.

  The stack `nodes` holds values where the source holds pointers to them: what is pushed is
  the child as it is in its parent, and popping it writes the child back into the parent.
 */
module JsonReader {
  import opened Common
  import opened JsonValue
  import opened JsonScan
  import opened JsonParse

  class Reader {
    const cfg: Config
    var document: string
    var current: nat
    var nodes: seq<Value>
    var errors: seq<Error>

    constructor (cfg: Config)
      ensures this.cfg == cfg && Valid()
    {
      this.cfg := cfg;
      document, current, nodes, errors := "", 0, [], [];
    }

    ghost predicate Valid()
      reads this
    {
      current <= |document|
    }

    ghost function Rest(): string
      reads this
      requires Valid()
    {
      document[current..]
    }

    function CurrentValue(): Value
      reads this
      requires nodes != []
    {
      nodes[|nodes| - 1]
    }

    method SetCurrent(v: Value)
      requires nodes != []
      modifies this`nodes
      ensures nodes == old(nodes)[..|old(nodes)| - 1] + [v]
    {
      nodes := nodes[..|nodes| - 1] + [v];
    }

    // ---------- Characters and tokens ----------

    method GetNextChar() returns (c: char)
      requires Valid()
      modifies this`current
      ensures Valid() && c == Peek(old(Rest())) && Rest() == Advance(old(Rest()))
    {
      if current == |document| {
        return '\0';
      }
      c := document[current];
      current := current + 1;
    }

    method SkipSpaces()
      requires Valid()
      modifies this`current
      ensures Valid() && old(current) <= current && Rest() == JsonScan.SkipSpaces(old(Rest()))
    {
      while current != |document|
        invariant Valid() && old(current) <= current
        invariant JsonScan.SkipSpaces(Rest()) == JsonScan.SkipSpaces(old(Rest()))
        decreases |document| - current
      {
        var c := document[current];
        assert Rest()[1..] == document[current + 1..];
        if c == ' ' || c == '\t' || c == '\r' || c == '\n' {
          current := current + 1;
        } else {
          break;
        }
      }
    }

    method MatchText(pattern: string) returns (ok: bool)
      requires Valid()
      modifies this`current
      ensures Valid() && Skip(ok, Rest()) == Match(old(Rest()), pattern)
    {
      if |document| - current < |pattern| {
        return false;
      }
      var index := |pattern|;
      while index > 0
        invariant 0 <= index <= |pattern|
        invariant forall k :: index <= k < |pattern| ==> Rest()[k] == pattern[k]
      {
        index := index - 1;
        if document[current + index] != pattern[index] {
          assert Rest()[index] != pattern[index];
          return false;
        }
      }
      assert Rest()[..|pattern|] == pattern;
      assert document[current..][|pattern|..] == document[current + |pattern|..];
      current := current + |pattern|;
      ok := true;
    }

    method ReadCStyleComment() returns (ok: bool)
      requires Valid()
      modifies this`current
      ensures Valid()
      ensures var v := ToStarSlash(old(Rest())); ok == (Peek(v) == '/') && Rest() == Advance(v)
    {
      while current != |document|
        invariant Valid() && ToStarSlash(Rest()) == ToStarSlash(old(Rest()))
        decreases |document| - current
      {
        ghost var before := Rest();
        var c := GetNextChar();
        if c == '*' && (if current == |document| then '\0' else document[current]) == '/' {
          assert ToStarSlash(before) == Rest();
          var slash := GetNextChar();
          return slash == '/';
        }
      }
      var c := GetNextChar();
      ok := c == '/';
    }

    method ReadCppStyleComment() returns (ok: bool)
      requires Valid()
      modifies this`current
      ensures Valid() && ok && Rest() == PastLine(old(Rest()))
    {
      ok := true;
      while current != |document|
        invariant Valid() && PastLine(Rest()) == PastLine(old(Rest()))
        decreases |document| - current
      {
        var c := GetNextChar();
        if c == '\r' || c == '\n' {
          return;
        }
      }
    }

    method ReadComment() returns (ok: bool)
      requires Valid()
      modifies this`current
      ensures Valid() && Skip(ok, Rest()) == SkipComment(old(Rest()))
    {
      var c := GetNextChar();
      ok := false;
      if c == '*' {
        ok := ReadCStyleComment();
      } else if c == '/' {
        ok := ReadCppStyleComment();
      }
    }

    method ReadNumber()
      requires Valid()
      modifies this`current
      ensures Valid() && Rest() == SkipNumber(old(Rest()))
    {
      while current != |document|
        invariant Valid() && SkipNumber(Rest()) == SkipNumber(old(Rest()))
        decreases |document| - current
      {
        assert Rest()[1..] == document[current + 1..];
        if !IsNumberChar(document[current]) {
          break;
        }
        current := current + 1;
      }
    }

    method ReadString() returns (ok: bool)
      requires Valid()
      modifies this`current
      ensures Valid() && Skip(ok, Rest()) == SkipString(old(Rest()))
    {
      var c := '\0';
      while current != |document|
        invariant Valid() && SkipString(Rest()) == SkipString(old(Rest())) && c != '"'
        decreases |document| - current
      {
        c := GetNextChar();
        if c == '\\' {
          var escaped := GetNextChar();
        } else if c == '"' {
          break;
        }
      }
      ok := c == '"';
    }

    // The switch of readToken, on the first character of the token
    method ReadRest(c: char) returns (kind: TokenType, ok: bool)
      requires Valid()
      modifies this`current
      ensures Valid() && (kind, Skip(ok, Rest())) == ReadBody(c, old(Rest()))
    {
      ok := true;
      match c {
        case '{' => kind := ObjectBegin;
        case '}' => kind := ObjectEnd;
        case '[' => kind := ArrayBegin;
        case ']' => kind := ArrayEnd;
        case '"' => kind := StringToken; ok := ReadString();
        case '/' => kind := CommentToken; ok := ReadComment();
        case 't' => kind := TrueToken; ok := MatchText("rue");
        case 'f' => kind := FalseToken; ok := MatchText("alse");
        case 'n' => kind := NullToken; ok := MatchText("ull");
        case ',' => kind := ArraySeparator;
        case ':' => kind := MemberSeparator;
        case '\0' => kind := EndOfStream;
        case _ =>
          if IsDigit(c) || c == '-' {
            kind := NumberToken;
            ReadNumber();
          } else {
            kind := ErrorToken;
            ok := false;
          }
      }
    }

    method ReadToken() returns (token: Token)
      requires Valid()
      modifies this`current
      ensures Valid() && Scan(token, Rest()) == JsonScan.ReadToken(old(Rest()))
    {
      hide SkipString, SkipComment, SkipNumber, JsonScan.SkipSpaces;
      SkipSpaces();
      var start := current;
      ghost var u := Rest();
      var c := GetNextChar();
      var kind, ok := ReadRest(c);
      if !ok {
        kind := ErrorToken;
      }
      assert |Rest()| <= |u|;
      assert u[..|u| - |Rest()|] == document[start..current];
      token := Token(kind, document[start..current]);
    }

    // On to the first token that is no comment
    method SkipComments(first: Token) returns (token: Token)
      requires Valid()
      modifies this`current
      ensures Valid() && Scan(token, Rest()) == PastComments(Scan(first, old(Rest())))
    {
      token := first;
      while token.kind == CommentToken
        invariant Valid() && PastComments(Scan(token, Rest())) == PastComments(Scan(first, old(Rest())))
        decreases |document| - current, token.kind == CommentToken
      {
        token := ReadToken();
      }
    }

    method SkipCommentTokens() returns (token: Token)
      requires Valid()
      modifies this`current
      ensures Valid() && Scan(token, Rest()) == JsonParse.SkipCommentTokens(cfg, old(Rest()))
    {
      token := ReadToken();
      if cfg.allowComments {
        token := SkipComments(token);
      }
    }

    // ---------- Errors ----------

    method AddError(message: string, token: Token) returns (ok: bool)
      modifies this`errors
      ensures !ok && errors == old(errors) + [Error(message, token)]
    {
      errors := errors + [Error(message, token)];
      ok := false;
    }

    method RecoverFromError(skipUntil: TokenType) returns (ok: bool)
      requires Valid()
      modifies this`current
      ensures Valid() && !ok && Rest() == Recover(old(Rest()), skipUntil)
    {
      while true
        invariant Valid() && Recover(Rest(), skipUntil) == Recover(old(Rest()), skipUntil)
        decreases |document| - current
      {
        var skip := ReadToken();
        if skip.kind == skipUntil || skip.kind == EndOfStream {
          break;
        }
      }
      ok := false;
    }

    // ---------- Decoding a token ----------

    // decodeUnicodeEscapeSequence, at `at` of `text`
    method DecodeUnicodeEscapeSequence(token: Token, text: string, at: nat) returns (ok: bool, unicode: int, next: nat)
      requires at <= |text|
      modifies this`errors
      ensures ok ==>
        errors == old(errors) && at <= next <= |text| && Escape4(text[at..]) == CodePoint(unicode, text[next..])
      ensures !ok ==>
        Escape4(text[at..]).BadCode? && errors == old(errors) + [Error(Escape4(text[at..]).message, token)]
    {
      unicode, next := 0, at;
      if |text| - at < 4 {
        ok := AddError(FOUR_DIGITS, token);
        return;
      }
      ghost var s := text[at..];
      ghost var parts := [0, HexDigit(s[0]), HexDigit(s[0]) * 16 + HexDigit(s[1]),
        (HexDigit(s[0]) * 16 + HexDigit(s[1])) * 16 + HexDigit(s[2]), Hex4(s)];
      for index := 0 to 4
        invariant forall k :: 0 <= k < index ==> HexDigit(s[k]) >= 0
        invariant next == at + index && errors == old(errors)
        invariant unicode == parts[index]
      {
        var digit := HexDigit(text[next]);
        next := next + 1;
        if digit < 0 {
          ok := AddError(HEX_EXPECTED, token);
          return;
        }
        unicode := unicode * 16 + digit;
      }
      assert s[4..] == text[next..];
      ok := true;
    }

    method DecodeUnicodeCodePoint(token: Token, text: string, at: nat) returns (ok: bool, unicode: int, next: nat)
      requires at <= |text|
      modifies this`errors
      ensures ok ==>
        errors == old(errors) && at <= next <= |text| && ReadCodePoint(text[at..]) == CodePoint(unicode, text[next..])
      ensures !ok ==>
        ReadCodePoint(text[at..]).BadCode? && errors == old(errors) + [Error(ReadCodePoint(text[at..]).message, token)]
    {
      ok, unicode, next := DecodeUnicodeEscapeSequence(token, text, at);
      if !ok {
        return;
      }
      if 0xD800 <= unicode <= 0xDBFF {
        if |text| - next < 6 {
          ok := AddError(SIX_MORE, token);
          return;
        }
        if text[next] == '\\' && text[next + 1] == 'u' {
          assert text[next..][2..] == text[next + 2..];
          var surrogatePair;
          ok, surrogatePair, next := DecodeUnicodeEscapeSequence(token, text, next + 2);
          if !ok {
            return;
          }
          unicode := 0x1_0000 + (unicode % 0x400) * 0x400 + surrogatePair % 0x400;
        } else {
          ok := AddError(SECOND_HALF, token);
        }
      }
    }

    // decodeString( Token &, std::string & ): the text between the quotes of a string token
    method DecodeStringTo(token: Token) returns (ok: bool, decoded: string)
      requires |token.text| >= 2
      modifies this`errors
      ensures ok ==> DecodeToken(token.text) == Decoded(decoded) && errors == old(errors)
      ensures !ok ==>
        DecodeToken(token.text).BadText? && errors == old(errors) + [Error(DecodeToken(token.text).message, token)]
    {
      var text := token.text[1..|token.text| - 1];
      var current := 0;
      decoded := "";
      while current != |text|
        invariant current <= |text| && errors == old(errors)
        invariant Decode(text) == Prepend(decoded, Decode(text[current..]))
        decreases |text| - current
      {
        var c := text[current];
        ghost var s := text[current..];
        assert s[1..] == text[current + 1..];
        current := current + 1;
        if c == '"' {
          assert decoded + "" == decoded;
          ok := true;
          return;
        } else if c == '\\' {
          if current == |text| {
            ok := AddError(EMPTY_ESCAPE, token);
            return;
          }
          var escape := text[current];
          current := current + 1;
          assert s[2..] == text[current..];
          if escape == 'u' {
            var unicode;
            ok, unicode, current := DecodeUnicodeCodePoint(token, text, current);
            if !ok {
              return;
            }
            PrependTwice(decoded, Utf8(unicode), Decode(text[current..]));
            decoded := decoded + Utf8(unicode);
          } else if SimpleEscape(escape) != [] {
            PrependTwice(decoded, SimpleEscape(escape), Decode(text[current..]));
            decoded := decoded + SimpleEscape(escape);
          } else {
            ok := AddError(BAD_ESCAPE, token);
            return;
          }
        } else {
          PrependTwice(decoded, [c], Decode(text[current..]));
          decoded := decoded + [c];
        }
      }
      assert decoded + "" == decoded;
      ok := true;
    }

    method DecodeNumber(token: Token) returns (ok: bool)
      requires nodes != [] && token.text != ""
      modifies this`nodes, this`errors
      ensures var r := JsonParse.DecodeNumber(cfg, token, "", old(CurrentValue()));
        ok == r.ok && nodes == old(nodes)[..|old(nodes)| - 1] + [r.value] && errors == old(errors) + r.errors
    {
      var isDouble := false;
      var inspect := 0;
      while inspect != |token.text|
        invariant inspect <= |token.text|
        invariant isDouble <==> exists i :: 0 <= i < inspect && RealMark(token.text, i)
      {
        isDouble := isDouble || RealMark(token.text, inspect);
        inspect := inspect + 1;
      }
      if isDouble {
        ok := DecodeDouble(token);
        return;
      }
      var isNegative := token.text[0] == '-';
      var current := if isNegative then 1 else 0;
      var threshold := if isNegative then NEGATIVE_THRESHOLD else POSITIVE_THRESHOLD;
      var value := 0;
      ghost var digits := if isNegative then token.text[1..] else token.text;
      assert digits == token.text[current..];
      while current < |token.text|
        invariant current <= |token.text|
        invariant Accumulate(digits, 0, threshold) == Accumulate(token.text[current..], value, threshold)
      {
        var c := token.text[current];
        assert token.text[current..][1..] == token.text[current + 1..];
        current := current + 1;
        if c < '0' || c > '9' {
          ok := AddError("'" + token.text + "' is not a number.", token);
          return;
        }
        if value >= threshold {
          ok := DecodeDouble(token);
          return;
        }
        value := value * 10 + (c as int - '0' as int);
      }
      if isNegative {
        SetCurrent(Int(-value));
      } else if value <= MAX_INT {
        SetCurrent(Int(value));
      } else {
        SetCurrent(UInt(value));
      }
      ok := true;
    }

    method DecodeDouble(token: Token) returns (ok: bool)
      requires nodes != []
      modifies this`nodes, this`errors
      ensures var r := JsonParse.DecodeDouble(cfg, token, "", old(CurrentValue()));
        ok == r.ok && nodes == old(nodes)[..|old(nodes)| - 1] + [r.value] && errors == old(errors) + r.errors
    {
      match cfg.scan(token.text)
      case NoDouble =>
        ok := AddError("'" + token.text + "' is not a number.", token);
      case Double(text) =>
        SetCurrent(Real(text));
        ok := true;
    }

    // decodeString( Token & )
    method DecodeString(token: Token) returns (ok: bool)
      requires nodes != [] && |token.text| >= 2
      modifies this`nodes, this`errors
      ensures var d := DecodeToken(token.text);
        if d.BadText? then !ok && nodes == old(nodes) && errors == old(errors) + [Error(d.message, token)]
        else ok && nodes == old(nodes)[..|old(nodes)| - 1] + [Str(CStr(d.text))] && errors == old(errors)
    {
      var decoded;
      ok, decoded := DecodeStringTo(token);
      if ok {
        SetCurrent(Str(CStr(decoded)));
      }
    }

    // ---------- Values ----------

    // What one call does to the stack and the error list, given its outcome
    twostate predicate Delivered(r: Outcome, ok: bool)
      requires old(nodes) != [] && Valid()
      reads this
    {
      && ok == r.ok && Rest() == r.rest && errors == old(errors) + r.errors
      && nodes == old(nodes)[..|old(nodes)| - 1] + [r.value]
    }

    method ReadScalar(token: Token) returns (ok: bool)
      requires Valid() && nodes != [] && Shaped(token)
      modifies this`nodes, this`errors
      ensures Delivered(ScalarOutcome(cfg, Scan(token, Rest()), old(CurrentValue())), ok)
    {
      match token.kind {
        case NumberToken => ok := DecodeNumber(token);
        case StringToken => ok := DecodeString(token);
        case TrueToken => SetCurrent(Bool(true)); ok := true;
        case FalseToken => SetCurrent(Bool(false)); ok := true;
        case NullToken => SetCurrent(Null); ok := true;
        case _ => ok := AddError(SYNTAX, token);
      }
    }

    method ReadValue() returns (ok: bool)
      requires Valid() && nodes != []
      modifies this`current, this`nodes, this`errors
      ensures Valid() && Delivered(JsonParse.ReadValue(cfg, old(Rest()), old(CurrentValue())), ok)
      decreases |document| - current, 0
    {
      hide JsonParse.SkipCommentTokens, JsonScan.ReadToken, ReadMembers, ArrayOutcome, ScalarOutcome;
      var token := SkipCommentTokens();
      match token.kind {
        case ObjectBegin => ok := ReadObject();
        case ArrayBegin => ok := ReadArray();
        case _ => ok := ReadScalar(token);
      }
    }

    // A value read into a child, which is on the stack meanwhile
    method ReadChild(child: Value) returns (ok: bool, v: Value)
      requires Valid() && nodes != []
      modifies this`current, this`nodes, this`errors
      ensures Valid() && nodes == old(nodes)
      ensures var r := JsonParse.ReadValue(cfg, old(Rest()), child);
        ok == r.ok && v == r.value && Rest() == r.rest && errors == old(errors) + r.errors
      decreases |document| - current, 1
    {
      nodes := nodes + [child];
      ok := ReadValue();
      v := CurrentValue();
      nodes := nodes[..|nodes| - 1];
    }

    method ReadArray() returns (ok: bool)
      requires Valid() && nodes != []
      modifies this`current, this`nodes, this`errors
      ensures Valid() && Delivered(ArrayOutcome(cfg, old(Rest())), ok)
      decreases |document| - current, 3
    {
      SetCurrent(Arr([]));
      SkipSpaces();
      if current < |document| && document[current] == ']' {
        var endArray := ReadToken();
        return true;
      }
      ok := ReadElements();
    }

    // The loop of readArray
    method ReadElements() returns (ok: bool)
      requires Valid() && nodes != []
      modifies this`current, this`nodes, this`errors
      ensures Valid() && Delivered(ReadElems(cfg, old(Rest()), []), ok)
      decreases |document| - current, 2
    {
      hide JsonScan.ReadToken, PastComments, Recover;
      var elems: seq<Value> := [];
      while true
        invariant Valid() && old(current) <= current && errors == old(errors) && |nodes| == |old(nodes)|
        invariant nodes[..|nodes| - 1] == old(nodes)[..|old(nodes)| - 1]
        invariant ReadElems(cfg, Rest(), elems) == ReadElems(cfg, old(Rest()), [])
        decreases |document| - current
      {
        SetCurrent(Arr(elems + [Null]));
        var good, value := ReadChild(Null);
        elems := elems + [value];
        SetCurrent(Arr(elems));
        if !good {
          ok := RecoverFromError(ArrayEnd);
          return;
        }
        var token := ReadToken();
        token := SkipComments(token);
        if token.kind == ArrayEnd {
          break;
        }
      }
      ok := true;
    }

    method AddErrorAndRecover(message: string, token: Token, skipUntil: TokenType) returns (ok: bool)
      requires Valid()
      modifies this`current, this`errors
      ensures Valid() && !ok && Rest() == Recover(old(Rest()), skipUntil) &&
        errors == old(errors) + [Error(message, token)]
    {
      ok := AddError(message, token);
      ok := RecoverFromError(skipUntil);
    }

    // operator[] makes the member, or finds it, before its value is read
    method ReadMemberValue(key: string, before: seq<Member>) returns (ok: bool, members: seq<Member>)
      requires Valid() && nodes != [] && CurrentValue() == Obj(before)
      modifies this`current, this`nodes, this`errors
      ensures Valid() && old(current) <= current
      ensures var e := JsonParse.ReadValue(cfg, old(Rest()), Lookup(before, key));
        members == Put(before, key, e.value) && ok == e.ok && Rest() == e.rest && errors == old(errors) + e.errors
      ensures nodes == old(nodes)[..|old(nodes)| - 1] + [Obj(members)]
      decreases |document| - current, 2
    {
      hide JsonParse.ReadValue, Put, Lookup;
      var value := Lookup(before, key);
      SetCurrent(Obj(Put(before, key, value)));
      ok, value := ReadChild(value);
      members := Put(before, key, value);
      SetCurrent(Obj(members));
    }

    // From the name token of a member through the token after its value
    method ReadMember(tokenName: Token, before: seq<Member>)
      returns (done: bool, ok: bool, name: string, members: seq<Member>)
      requires Valid() && nodes != [] && CurrentValue() == Obj(before) && |tokenName.text| >= 2
      modifies this`current, this`nodes, this`errors
      ensures Valid()
      ensures var r := MemberStep(cfg, tokenName, old(Rest()), before);
        && done == r.Done? && (done ==> Delivered(r.outcome, ok))
        && (!done ==> More(Rest(), name, members) == r && errors == old(errors))
        && (!done ==> nodes == old(nodes)[..|old(nodes)| - 1] + [Obj(members)])
      decreases |document| - current, 3
    {
      hide JsonScan.ReadToken, JsonParse.ReadValue, DecodeToken, Put, Lookup, CStr, Recover, AfterMember;
      done, ok, members := true, false, before;
      var good;
      good, name := DecodeStringTo(tokenName);
      if !good {
        ok := RecoverFromError(ObjectEnd);
        return;
      }
      var colon := ReadToken();
      if colon.kind != MemberSeparator {
        ok := AddErrorAndRecover(MISSING_COLON, colon, ObjectEnd);
        return;
      }
      good, members := ReadMemberValue(CStr(name), members);
      if !good {
        ok := RecoverFromError(ObjectEnd);
        return;
      }
      done, ok := ReadComma(name, members);
    }

    method ReadComma(ghost name: string, ghost members: seq<Member>) returns (done: bool, ok: bool)
      requires Valid() && nodes != [] && CurrentValue() == Obj(members)
      modifies this`current, this`errors
      ensures Valid()
      ensures var r := AfterMember(old(Rest()), name, members);
        && done == r.Done? && (done ==> Delivered(r.outcome, ok))
        && (!done ==> More(Rest(), name, members) == r && errors == old(errors))
    {
      hide JsonScan.ReadToken, PastComments, Recover;
      done, ok := true, false;
      var comma := ReadToken();
      if comma.kind != ObjectEnd && comma.kind != ArraySeparator && comma.kind != CommentToken {
        ok := AddErrorAndRecover(MISSING_COMMA, comma, ObjectEnd);
        return;
      }
      comma := SkipComments(comma);
      if comma.kind == ObjectEnd {
        ok := true;
        return;
      }
      done := false;
    }

    method ReadObject() returns (ok: bool)
      requires Valid() && nodes != []
      modifies this`current, this`nodes, this`errors
      ensures Valid() && Delivered(ReadMembers(cfg, old(Rest()), "", []), ok)
      decreases |document| - current, 4
    {
      hide JsonScan.ReadToken, PastComments, Recover;
      var name: string, members: seq<Member> := "", [];
      SetCurrent(Obj(members));
      var tokenName;
      while true
        invariant Valid() && old(current) <= current && errors == old(errors)
        invariant nodes == old(nodes)[..|old(nodes)| - 1] + [Obj(members)]
        invariant ReadMembers(cfg, Rest(), name, members) == ReadMembers(cfg, old(Rest()), "", [])
        decreases |document| - current
      {
        tokenName := ReadToken();
        tokenName := SkipComments(tokenName);
        if tokenName.kind == ObjectEnd && name == "" {
          return true;
        }
        if tokenName.kind != StringToken {
          break;
        }
        var done;
        done, ok, name, members := ReadMember(tokenName, members);
        if done {
          return;
        }
      }
      ok := AddErrorAndRecover(MISSING_NAME, tokenName, ObjectEnd);
    }

    // ---------- The entry point ----------

    method Parse(text: string, root: Value) returns (ok: bool, value: Value)
      modifies this
      ensures Valid() && document == text && |nodes| == 1
      ensures var r := JsonParse.Parse(cfg, text, root);
        ok == r.ok && value == r.value && errors == r.errors && Rest() == r.rest
      ensures ok <==> errors == []
    {
      hide JsonParse.ReadValue, JsonParse.SkipCommentTokens;
      document, current, errors, nodes := text, 0, [], [root];
      assert Rest() == text;
      ok := ReadValue();
      value := CurrentValue();
      var token := SkipCommentTokens();
      if cfg.strictRoot {
        if !IsArray(value) && !IsObject(value) {
          ok := AddError(BAD_ROOT, Token(ErrorToken, document));
        }
      }
    }
  }
}
