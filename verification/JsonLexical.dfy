/**
  Where the tokens of http_codec/json/json_reader.cpp begin and end, and what they denote, by the
  characters themselves (RFC 8259, sections 2, 6 and 7).
 */
module JsonLexical {
  import opened Common
  import opened JsonValue
  import opened JsonScan
  import opened JsonLexeme

  // ---------- Blanks ----------

  // Space, tab, line feed and carriage return, as section 2 of RFC 8259 has them
  ghost predicate Blank(c: char) { c as int in {0x20, 0x09, 0x0A, 0x0D} }

  // Exactly the blanks at the beginning are skipped
  lemma {:induction false} BlanksSkipped(w: string, s: string)
    requires (forall i :: 0 <= i < |w| ==> Blank(w[i])) && (s == "" || !Blank(s[0]))
    ensures SkipSpaces(w + s) == s
  {
    if w == "" {
      assert w + s == s;
    } else {
      BlanksSkipped(w[1..], s);
      assert (w + s)[1..] == w[1..] + s;
    }
  }

  // ---------- Comments ----------

  ghost predicate StarSlashAt(s: string, i: int) { 0 <= i < |s| - 1 && s[i] == '*' && s[i + 1] == '/' }

  lemma {:induction false} FirstStarSlash(u: string, t: string)
    requires forall i :: 0 <= i < |u| ==> !StarSlashAt(u + "*/", i)
    ensures ToStarSlash(u + "*/" + t) == "/" + t
  {
    var s := u + "*/" + t;
    if u == "" {
      assert s[1..] == "/" + t;
    } else {
      assert s[1..] == u[1..] + "*/" + t;
      assert !StarSlashAt(u + "*/", 0);
      assert s[0] == u[0] && s[1] == (u + "*/")[1];
      forall i | 0 <= i < |u| - 1 ensures !StarSlashAt(u[1..] + "*/", i) {
        assert !StarSlashAt(u + "*/", i + 1);
        assert (u + "*/")[1..] == u[1..] + "*/";
      }
      FirstStarSlash(u[1..], t);
    }
  }

  // A comment that began with a slash and a star ends at the first star with a slash behind it
  lemma CommentEnds(u: string, t: string)
    requires forall i :: 0 <= i < |u| ==> !StarSlashAt(u + "*/", i)
    ensures SkipComment("*" + u + "*/" + t) == Skip(true, t)
  {
    hide ToStarSlash;
    FirstStarSlash(u, t);
    assert ("*" + u + "*/" + t)[1..] == u + "*/" + t;
    assert ("/" + t)[1..] == t;
  }

  lemma {:induction false} NoStarSlash(s: string)
    requires forall i :: 0 <= i < |s| ==> !StarSlashAt(s, i)
    ensures ToStarSlash(s) == ""
  {
    if s != "" {
      assert !StarSlashAt(s, 0);
      forall i | 0 <= i < |s| - 1 ensures !StarSlashAt(s[1..], i) {
        assert !StarSlashAt(s, i + 1);
      }
      NoStarSlash(s[1..]);
    }
  }

  // ... and is an error when there is none
  lemma CommentUnclosed(u: string)
    requires forall i :: 0 <= i < |u| ==> !StarSlashAt(u, i)
    ensures SkipComment("*" + u) == Skip(false, "")
  {
    hide ToStarSlash;
    NoStarSlash(u);
    assert ("*" + u)[1..] == u;
  }

  // Line feed or carriage return
  ghost predicate EndsLine(c: char) { c as int in {0x0A, 0x0D} }

  lemma {:induction false} LineEnds(u: string, t: string)
    requires (forall i :: 0 <= i < |u| ==> !EndsLine(u[i])) && (t == "" || EndsLine(t[0]))
    ensures PastLine(u + t) == if t == "" then "" else t[1..]
  {
    if u == "" {
      assert u + t == t;
    } else {
      LineEnds(u[1..], t);
      assert (u + t)[1..] == u[1..] + t;
    }
  }

  // A comment that began with two slashes ends with its line, or with the text
  lemma LineCommentEnds(u: string, t: string)
    requires (forall i :: 0 <= i < |u| ==> !EndsLine(u[i])) && (t == "" || EndsLine(t[0]))
    ensures SkipComment("/" + u + t) == Skip(true, if t == "" then "" else t[1..])
  {
    LineEnds(u, t);
    assert ("/" + u + t)[1..] == u + t;
  }

  // ---------- Strings ----------

  // Characters other than quotes and backslashes, and backslashes with any character behind each
  ghost predicate Units(u: string) {
    u == "" || (u[0] != '"' && u[0] != '\\' && Units(u[1..])) || (u[0] == '\\' && |u| >= 2 && Units(u[2..]))
  }

  // A string ends at the first quote that is not escaped
  lemma {:induction false} StringEnds(u: string, t: string)
    requires Units(u)
    ensures SkipString(u + "\"" + t) == Skip(true, t)
    decreases |u|
  {
    var s := u + "\"" + t;
    if u == "" {
      assert s[1..] == t;
    } else if u[0] == '\\' {
      assert s[1..][1..] == u[2..] + "\"" + t;
      StringEnds(u[2..], t);
    } else {
      assert s[1..] == u[1..] + "\"" + t;
      StringEnds(u[1..], t);
    }
  }

  lemma {:induction false} StringBegins(s: string) returns (u: string)
    requires SkipString(s).ok
    ensures Units(u) && s == u + "\"" + SkipString(s).rest
    decreases |s|
  {
    if s[0] == '"' {
      u := "";
    } else if s[0] == '\\' {
      var v := StringBegins(s[2..]);
      u := s[..2] + v;
      assert u[2..] == v;
    } else {
      var v := StringBegins(s[1..]);
      u := [s[0]] + v;
      assert u[1..] == v;
    }
  }

  // ---------- Escapes ----------

  const LOWER := "0123456789abcdef"
  const UPPER := "0123456789ABCDEF"

  // Hexadecimal digits of either case
  lemma HexDigitIs(c: char, d: int)
    requires 0 <= d < 16
    ensures HexDigit(c) == d <==> c == LOWER[d] || c == UPPER[d]
  {
  }

  lemma Hex4Is(s: string)
    requires |s| >= 4
    ensures Hex4(s) == -1 <==> exists i :: 0 <= i < 4 && HexDigit(s[i]) == -1
    ensures Hex4(s) != -1 ==>
      Hex4(s) == 0x1000 * HexDigit(s[0]) + 0x100 * HexDigit(s[1]) + 0x10 * HexDigit(s[2]) + HexDigit(s[3])
  {
  }

  // The characters that may stand behind a backslash, and the codes they stand for (section 7 of RFC 8259)
  const ESCAPES := "\"\\/bfnrt"
  const CODES := [0x22, 0x5C, 0x2F, 0x08, 0x0C, 0x0A, 0x0D, 0x09]

  lemma EscapeIs(i: nat, rest: string)
    requires i < 8
    ensures Decode("\\" + [ESCAPES[i]] + rest) == Prepend([CODES[i] as char], Decode(rest))
  {
    hide ReadCodePoint, Utf8;
    var s := "\\" + [ESCAPES[i]] + rest;
    assert s[2..] == rest;
  }

  // Any other character there is an error, save the u of an escape by number
  lemma EscapeIsNot(c: char, rest: string)
    requires c !in ESCAPES && c != 'u'
    ensures Decode("\\" + [c] + rest) == BadText(BAD_ESCAPE)
  {
    hide ReadCodePoint, Utf8;
    assert ESCAPES[0] == '"' && ESCAPES[1] == '\\' && ESCAPES[2] == '/' && ESCAPES[3] == 'b';
    assert ESCAPES[4] == 'f' && ESCAPES[5] == 'n' && ESCAPES[6] == 'r' && ESCAPES[7] == 't';
  }

  // ---------- Integers ----------

  lemma {:induction false} DenotedNotNegative(d: string)
    requires AllDigits(d)
    ensures Denoted(d) >= 0
  {
    if d != "" {
      DenotedNotNegative(d[..|d| - 1]);
    }
  }

  // The digit loop computes what the digits denote, leading zeros or not, unless all digits but the last
  // denote the threshold or more
  lemma {:induction false} DigitsRead(d: string, threshold: int)
    requires AllDigits(d) && threshold > 0
    ensures Accumulate(d, 0, threshold) ==
      if d == "" || Denoted(d[..|d| - 1]) < threshold then Accumulated.Value(Denoted(d)) else TooLarge
  {
    if d != "" {
      var n := |d| - 1;
      DigitsRead(d[..n], threshold);
      assert d == d[..n] + [d[n]];
      AccumulateAppend(d[..n], d[n], 0, threshold);
      if n > 0 {
        assert d[..n][..n - 1] == d[..n - 1];
        DenotedNotNegative(d[..n - 1]);
      }
    }
  }

  // ---------- Kinds ----------

  // The first characters decide which token it is; what no token begins with is an error
  lemma KindIs(s: string)
    ensures var u, k := SkipSpaces(s), JsonScan.ReadToken(s).token.kind;
      && (k == EndOfStream <==> u == "" || u[0] == '\0')
      && (k == ObjectBegin <==> u != "" && u[0] == '{') && (k == ObjectEnd <==> u != "" && u[0] == '}')
      && (k == ArrayBegin <==> u != "" && u[0] == '[') && (k == ArrayEnd <==> u != "" && u[0] == ']')
      && (k == ArraySeparator <==> u != "" && u[0] == ',') && (k == MemberSeparator <==> u != "" && u[0] == ':')
      && (k == StringToken <==> u != "" && u[0] == '"' && SkipString(u[1..]).ok)
      && (k == NumberToken <==> u != "" && (u[0] == '-' || '0' <= u[0] <= '9'))
      && (k == TrueToken <==> "true" <= u) && (k == FalseToken <==> "false" <= u) && (k == NullToken <==> "null" <= u)
      && (k == CommentToken <==> u != "" && u[0] == '/' && SkipComment(u[1..]).ok)
  {
    hide SkipSpaces, SkipString, SkipComment, SkipNumber;
    var u := SkipSpaces(s);
    if u != "" {
      Word(u, "true");
      Word(u, "false");
      Word(u, "null");
    }
  }

  lemma Word(u: string, word: string)
    requires u != "" && word != ""
    ensures word <= u <==> u[0] == word[0] && word[1..] <= u[1..]
  {
    if u[0] == word[0] && word[1..] <= u[1..] {
      assert u[1..][..|word| - 1] == u[1..|word|];
      assert u[..|word|] == [u[0]] + u[1..|word|] && word == [word[0]] + word[1..];
    }
  }
}
