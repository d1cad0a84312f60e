/**
  The reader gets each lexeme of a value back as one token, and each token back as what it was written for.
 */
module JsonLexeme {
  import opened Common
  import opened JsonValue
  import opened JsonScan
  import opened JsonText

  // ---------- Strings ----------

  lemma HexBack(d: int)
    requires 0 <= d < 16
    ensures HexDigit(Hex(d)) == d
  {
  }

  lemma ControlBack(c: char, rest: string)
    requires IsControl(c)
    ensures Decode("\\u00" + [Hex(c as int / 16), Hex(c as int % 16)] + rest) == Prepend([c], Decode(rest))
  {
    hide Hex, HexDigit;
    var hi, lo := c as int / 16, c as int % 16;
    var s := "\\u00" + [Hex(hi), Hex(lo)] + rest;
    HexBack(hi);
    HexBack(lo);
    HexBack(0);
    assert HexDigit('0') == 0 by { HexZero(); }
    var u := s[2..];
    assert u == ['0', '0', Hex(hi), Hex(lo)] + rest;
    assert Hex4(u) == c as int;
    assert u[4..] == rest;
  }

  lemma HexZero()
    ensures HexDigit('0') == 0
  {
  }

  lemma SimpleBack(c: char)
    requires |EscapeChar(c)| == 2
    ensures EscapeChar(c)[0] == '\\' && EscapeChar(c)[1] != 'u' && SimpleEscape(EscapeChar(c)[1]) == [c]
  {
  }

  lemma EscapeCharBack(c: char, rest: string)
    ensures Decode(EscapeChar(c) + rest) == Prepend([c], Decode(rest))
  {
    hide ReadCodePoint, Utf8, Hex, EscapeChar, SimpleEscape;
    EscapeCharShape(c);
    var s := EscapeChar(c) + rest;
    if |EscapeChar(c)| == 1 {
      assert s[1..] == rest;
    } else if |EscapeChar(c)| == 2 {
      SimpleBack(c);
      assert s[2..] == rest;
    } else {
      ControlBack(c, rest);
    }
  }

  // valueToQuotedString and decodeString are inverse
  lemma {:induction false} EscapeBack(x: string)
    ensures Decode(Escape(x)) == Decoded(x)
  {
    if x != [] {
      EscapeBack(x[1..]);
      EscapeCharBack(x[0], Escape(x[1..]));
      assert x == [x[0]] + x[1..];
    }
  }

  lemma ControlSkipped(c: char, t: string)
    requires IsControl(c)
    ensures SkipString("\\u00" + [Hex(c as int / 16), Hex(c as int % 16)] + t) == SkipString(t)
  {
    var u := ['0', '0', Hex(c as int / 16), Hex(c as int % 16)];
    var s := "\\u00" + [Hex(c as int / 16), Hex(c as int % 16)] + t;
    assert s[1..][1..] == u + t;
    PlainSkipped(u, t);
  }

  lemma EscapeCharShape(c: char)
    ensures |EscapeChar(c)| >= 1
    ensures |EscapeChar(c)| == 1 ==> EscapeChar(c) == [c] && c != '\\' && c != '"'
    ensures |EscapeChar(c)| == 2 ==> EscapeChar(c)[0] == '\\'
    ensures |EscapeChar(c)| > 2 ==> IsControl(c) && EscapeChar(c) == "\\u00" + [Hex(c as int / 16), Hex(c as int % 16)]
  {
  }

  lemma TwoSkipped(e: string, t: string)
    requires |e| == 2 && e[0] == '\\'
    ensures SkipString(e + t) == SkipString(t)
  {
    assert (e + t)[1..][1..] == t;
  }

  lemma EscapeCharSkipped(c: char, t: string)
    ensures SkipString(EscapeChar(c) + t) == SkipString(t)
  {
    hide EscapeChar, SkipString, Hex;
    EscapeCharShape(c);
    if |EscapeChar(c)| == 1 {
      PlainSkipped([c], t);
    } else if |EscapeChar(c)| == 2 {
      TwoSkipped(EscapeChar(c), t);
    } else {
      ControlSkipped(c, t);
    }
  }

  lemma {:induction false} PlainSkipped(u: string, t: string)
    requires forall i :: 0 <= i < |u| ==> u[i] != '\\' && u[i] != '"'
    ensures SkipString(u + t) == SkipString(t)
  {
    if u == [] {
      assert u + t == t;
    } else {
      assert (u + t)[1..] == u[1..] + t;
      PlainSkipped(u[1..], t);
    }
  }

  // The closing quote is found, and no quote before it
  lemma {:induction false} EscapeSkipped(x: string, t: string)
    ensures SkipString(Escape(x) + "\"" + t) == Skip(true, t)
  {
    if x == [] {
      assert Escape(x) + "\"" + t == "\"" + t;
      assert ("\"" + t)[1..] == t;
    } else {
      EscapeSkipped(x[1..], t);
      EscapeCharSkipped(x[0], Escape(x[1..]) + "\"" + t);
      Shift(EscapeChar(x[0]), Escape(x[1..]), "\"", t);
    }
  }

  lemma Shift(a: string, b: string, c: string, d: string)
    ensures a + b + c + d == a + (b + c + d)
  {
  }

  lemma StringLexeme(s: string, x: string)
    requires Eat(s, [Quote(x)]).Left?
    ensures JsonScan.ReadToken(s) == Scan(Token(StringToken, Quote(x)), Eat(s, [Quote(x)]).rest)
    ensures DecodeToken(Quote(x)) == Decoded(x)
  {
    hide Escape, Decode, SkipString;
    var u, t := SkipSpaces(s), Eat(s, [Quote(x)]).rest;
    assert u == Quote(x) + t;
    assert u[0] == '"' && u[1..] == Escape(x) + "\"" + t;
    EscapeSkipped(x, t);
    assert u[..|u| - |t|] == Quote(x);
    assert Quote(x)[1..|Quote(x)| - 1] == Escape(x);
    EscapeBack(x);
  }

  // ---------- Punctuation and words ----------

  function PunctuationOf(c: char): TokenType {
    match c
    case '{' => ObjectBegin
    case '}' => ObjectEnd
    case '[' => ArrayBegin
    case ']' => ArrayEnd
    case ',' => ArraySeparator
    case ':' => MemberSeparator
    case _ => ErrorToken
  }

  lemma PunctuationLexeme(s: string, c: char)
    requires Eat(s, [[c]]).Left? && PunctuationOf(c) != ErrorToken
    ensures JsonScan.ReadToken(s) == Scan(Token(PunctuationOf(c), [c]), Eat(s, [[c]]).rest)
    ensures SkipSpaces(s) != [] && SkipSpaces(s)[0] == c
    ensures s[0] == c || IsSpace(s[0])
  {
    var u, t := SkipSpaces(s), Eat(s, [[c]]).rest;
    assert u == [c] + t;
    assert u[..|u| - |t|] == [c];
  }

  lemma WordLexeme(s: string, word: string)
    requires word in {"null", "true", "false"} && Eat(s, [word]).Left?
    ensures var kind := if word == "null" then NullToken else if word == "true" then TrueToken else FalseToken;
      JsonScan.ReadToken(s) == Scan(Token(kind, word), Eat(s, [word]).rest)
  {
    var u, t := SkipSpaces(s), Eat(s, [word]).rest;
    assert u == word + t;
    assert u[1..] == word[1..] + t;
    assert (word[1..] + t)[|word| - 1..] == t;
    assert u[..|u| - |t|] == word;
  }

  // ---------- Numbers ----------

  // Nothing that could still belong to a number
  predicate NumberEnds(s: string) { s == [] || !IsNumberChar(s[0]) }

  lemma {:induction false} DigitsSkipped(d: string, t: string)
    requires (forall i :: 0 <= i < |d| ==> IsNumberChar(d[i])) && NumberEnds(t)
    ensures SkipNumber(d + t) == t
  {
    if d == [] {
      assert d + t == t;
    } else {
      assert (d + t)[1..] == d[1..] + t;
      DigitsSkipped(d[1..], t);
    }
  }

  // What the reader takes for a number token
  ghost predicate NumberText(text: string) {
    text != "" && (IsDigit(text[0]) || text[0] == '-') && forall i :: 0 <= i < |text| ==> IsNumberChar(text[i])
  }

  lemma NumberLexeme(s: string, text: string)
    requires NumberText(text)
    requires Eat(s, [text]).Left? && NumberEnds(Eat(s, [text]).rest)
    ensures JsonScan.ReadToken(s) == Scan(Token(NumberToken, text), Eat(s, [text]).rest)
  {
    var u, t := SkipSpaces(s), Eat(s, [text]).rest;
    assert u == text + t;
    assert u[1..] == text[1..] + t;
    DigitsSkipped(text[1..], t);
    assert u[..|u| - |t|] == text;
  }

  lemma {:induction false} AccumulateAppend(a: string, c: char, value: int, threshold: int)
    requires IsDigit(c) && forall i :: 0 <= i < |a| ==> IsDigit(a[i])
    ensures Accumulate(a + [c], value, threshold) ==
      match Accumulate(a, value, threshold)
      case Value(n) => if n >= threshold then TooLarge else Accumulated.Value(n * 10 + (c as int - '0' as int))
      case other => other
  {
    if a == [] {
      assert a + [c] == [c];
      assert [c][1..] == [];
    } else {
      assert (a + [c])[1..] == a[1..] + [c];
      if value < threshold {
        AccumulateAppend(a[1..], c, value * 10 + (a[0] as int - '0' as int), threshold);
      }
    }
  }

  // The digit loop gives a number back exactly when the number without its last digit is below the threshold
  lemma {:induction false} DecBack(n: int, threshold: int)
    requires n >= 0 && threshold > 0
    ensures Accumulate(Dec(n), 0, threshold) == if n / 10 < threshold then Accumulated.Value(n) else TooLarge
  {
    if n < 10 {
      assert Dec(n)[1..] == [];
    } else {
      DecBack(n / 10, threshold);
      AccumulateAppend(Dec(n / 10), ('0' as int + n % 10) as char, 0, threshold);
    }
  }

  lemma DecNotReal(n: int)
    requires n >= 0
    ensures !LooksReal(Dec(n)) && !LooksReal("-" + Dec(n)) && NumberText(Dec(n)) && NumberText("-" + Dec(n))
  {
    var d, m := Dec(n), "-" + Dec(n);
    forall i | 0 <= i < |m| ensures !RealMark(m, i) {
      if i > 0 {
        assert m[i] == d[i - 1];
      }
    }
  }
}
