/**
  What the printers write, as the reader sees it: the same tokens from both, and the value back.
 */
module JsonTokens {
  import opened Common
  import opened JsonValue
  import opened JsonScan
  import opened JsonParse
  import opened JsonText
  import opened JsonLexeme
  import opened JsonRoundTrip
  import opened JsonPrint
  import opened JsonSound

  // Every token of a text, by the reader's own tokenizer
  ghost function Tokens(s: string): seq<Token>
    decreases |s|
  {
    var t := JsonScan.ReadToken(s);
    if t.token.kind == EndOfStream then [] else [t.token] + Tokens(t.rest)
  }

  // ---------- The token of a lexeme ----------

  ghost predicate IsWord(lexeme: string) { lexeme in {"null", "true", "false"} }

  ghost predicate IsPunctuation(lexeme: string) { |lexeme| == 1 && PunctuationOf(lexeme[0]) != ErrorToken }

  ghost predicate IsQuoted(lexeme: string) { exists x :: lexeme == Quote(x) }

  ghost function KindOf(lexeme: string): TokenType {
    if IsPunctuation(lexeme) then PunctuationOf(lexeme[0])
    else if lexeme == "null" then NullToken
    else if lexeme == "true" then TrueToken
    else if lexeme == "false" then FalseToken
    else if IsQuoted(lexeme) then StringToken
    else NumberToken
  }

  ghost predicate IsLexeme(lexeme: string) {
    IsPunctuation(lexeme) || IsWord(lexeme) || IsQuoted(lexeme) || NumberText(lexeme)
  }

  // Lexemes of the grammar, a number only before punctuation or at the end
  ghost predicate Readable(lexemes: seq<string>) {
    lexemes != [] ==>
      && IsLexeme(lexemes[0])
      && (NumberText(lexemes[0]) && |lexemes| > 1 ==> IsPunctuation(lexemes[1]))
      && Readable(lexemes[1..])
  }

  lemma NumberIsNothingElse(lexeme: string)
    requires NumberText(lexeme)
    ensures !IsPunctuation(lexeme) && !IsWord(lexeme) && !IsQuoted(lexeme)
  {
  }

  lemma QuotedIsNothingElse(x: string)
    ensures IsQuoted(Quote(x)) && !IsPunctuation(Quote(x)) && !IsWord(Quote(x)) && !NumberText(Quote(x))
  {
    assert Quote(x)[0] == '"';
  }

  lemma LexemeToken(s: string, lexeme: string)
    requires IsLexeme(lexeme) && Eat(s, [lexeme]).Left? && (NumberText(lexeme) ==> NumberEnds(Eat(s, [lexeme]).rest))
    ensures JsonScan.ReadToken(s) == Scan(Token(KindOf(lexeme), lexeme), Eat(s, [lexeme]).rest)
  {
    hide Eat, JsonScan.ReadToken, NumberText, Quote, NumberEnds, PunctuationOf, DecodeToken;
    if NumberText(lexeme) {
      NumberIsNothingElse(lexeme);
      NumberLexeme(s, lexeme);
    } else if IsPunctuation(lexeme) {
      assert lexeme == [lexeme[0]];
      PunctuationLexeme(s, lexeme[0]);
    } else if IsWord(lexeme) {
      WordLexeme(s, lexeme);
    } else {
      var x :| lexeme == Quote(x);
      StringLexeme(s, x);
    }
  }

  ghost function TokensOf(lexemes: seq<string>): seq<Token> {
    if lexemes == [] then [] else [Token(KindOf(lexemes[0]), lexemes[0])] + TokensOf(lexemes[1..])
  }

  lemma BlanksHaveNoToken(s: string)
    requires AllSpace(s)
    ensures Tokens(s) == [] && NumberEnds(s)
  {
    assert s + "" == s;
    SkipSpacesBlank(s, "");
  }

  lemma TokensStep(s: string, t: Scan)
    requires JsonScan.ReadToken(s) == t && t.token.kind != EndOfStream
    ensures Tokens(s) == [t.token] + Tokens(t.rest)
  {
    hide JsonScan.ReadToken;
  }

  lemma KindIsNotEnd(lexeme: string)
    requires IsLexeme(lexeme)
    ensures KindOf(lexeme) != EndOfStream
  {
    hide NumberText, Quote;
  }

  // The tokens of a text are the lexemes it was written with
  lemma {:induction false} WritesTokens(s: string, lexemes: seq<string>)
    requires Readable(lexemes) && Writes(s, lexemes)
    ensures Tokens(s) == TokensOf(lexemes)
    decreases |lexemes|
  {
    hide Eat, JsonScan.ReadToken, Tokens, IsLexeme, NumberText, NumberEnds, IsPunctuation, KindOf, AllSpace;
    if lexemes == [] {
      EatNothing(s);
      BlanksHaveNoToken(s);
    } else {
      var x, more := lexemes[0], lexemes[1..];
      assert lexemes == [x] + more;
      EatConcat(s, [x], more);
      var rest := Eat(s, [x]).rest;
      if NumberText(x) {
        NumberFollowed(rest, more);
      }
      LexemeToken(s, x);
      KindIsNotEnd(x);
      TokensStep(s, JsonScan.ReadToken(s));
      WritesTokens(rest, more);
    }
  }

  lemma NumberFollowed(rest: string, more: seq<string>)
    requires Writes(rest, more) && (more != [] ==> IsPunctuation(more[0]))
    ensures NumberEnds(rest)
  {
    hide Eat, AllSpace;
    if more == [] {
      EatNothing(rest);
      BlanksHaveNoToken(rest);
    } else {
      assert more[0] == [more[0][0]] && more == [more[0]] + more[1..];
      PunctuationNext(rest, more[0][0], more[1..]);
    }
  }

  // ---------- The lexemes of a value are readable ----------

  lemma {:induction false} ReadableConcat(a: seq<string>, b: seq<string>)
    requires Readable(a) && Readable(b) && (b != [] ==> IsPunctuation(b[0]))
    ensures Readable(a + b)
    decreases |a|
  {
    hide IsLexeme, NumberText, IsPunctuation;
    if a == [] {
      assert a + b == b;
    } else {
      ReadableConcat(a[1..], b);
      assert (a + b)[1..] == a[1..] + b;
    }
  }

  lemma ReadablePunctuation(c: char, b: seq<string>)
    requires PunctuationOf(c) != ErrorToken && Readable(b)
    ensures Readable([[c]] + b)
  {
    hide PunctuationOf, NumberText;
    assert ([[c]] + b)[1..] == b;
    assert IsPunctuation([c]);
    if NumberText([c]) {
      NumberIsNothingElse([c]);
    }
  }

  lemma ReadableOne(lexeme: string)
    requires IsLexeme(lexeme)
    ensures Readable([lexeme])
  {
    assert [lexeme][1..] == [];
  }

  lemma ReadableClose(c: char)
    requires PunctuationOf(c) != ErrorToken
    ensures Readable([[c]])
  {
    assert [[c]] + [] == [[c]];
    ReadablePunctuation(c, []);
  }

  lemma ReadableQuote(x: string)
    ensures Readable([Quote(x)])
  {
    hide Quote;
    QuotedIsNothingElse(x);
    ReadableOne(Quote(x));
  }

  lemma ScalarReadable(v: Value)
    requires Proper(v) && !v.Arr? && !v.Obj?
    ensures Readable(Lexemes(v))
  {
    hide Readable, Quote;
    if v.Str? {
      QuotedIsNothingElse(v.s);
    } else if v.Int? {
      DecNotReal(if v.i < 0 then -v.i else v.i);
    } else if v.UInt? {
      DecNotReal(v.u);
    }
    ReadableOne(Lexemes(v)[0]);
  }

  lemma {:induction false} LexemesReadable(v: Value)
    requires Proper(v)
    ensures Readable(Lexemes(v))
    decreases v, 1
  {
    hide Readable, IsLexeme, Quote, Dec;
    match v {
      case Arr(es) =>
        ElemLexemesReadable(es);
        ReadableClose(']');
        ReadableConcat(ElemLexemes(es), ["]"]);
        ReadablePunctuation('[', ElemLexemes(es) + ["]"]);
        Assoc(["["], ElemLexemes(es), ["]"]);
      case Obj(ms) =>
        MemberLexemesReadable(ms);
        ReadableClose('}');
        ReadableConcat(MemberLexemes(ms), ["}"]);
        ReadablePunctuation('{', MemberLexemes(ms) + ["}"]);
        Assoc(["{"], MemberLexemes(ms), ["}"]);
      case _ => ScalarReadable(v);
    }
  }

  lemma {:induction false} ElemLexemesReadable(es: seq<Value>)
    requires ProperElems(es)
    ensures Readable(ElemLexemes(es))
    decreases es, 0
  {
    hide IsLexeme, Lexemes, Proper;
    if es != [] {
      LexemesReadable(es[0]);
      if |es| > 1 {
        ElemLexemesReadable(es[1..]);
        ReadablePunctuation(',', ElemLexemes(es[1..]));
        ReadableConcat(Lexemes(es[0]), [","] + ElemLexemes(es[1..]));
        Assoc(Lexemes(es[0]), [","], ElemLexemes(es[1..]));
      }
    }
  }

  lemma {:induction false} MemberLexemesReadable(ms: seq<Member>)
    requires ProperMembers(ms)
    ensures Readable(MemberLexemes(ms))
    decreases ms, 0
  {
    hide IsLexeme, Lexemes, Proper, Quote;
    if ms != [] {
      var key, value := Quote(ms[0].key), Lexemes(ms[0].val);
      ReadableQuote(ms[0].key);
      LexemesReadable(ms[0].val);
      ReadablePunctuation(':', value);
      ReadableConcat([key], [":"] + value);
      assert [key, ":"] + value == [key] + ([":"] + value);
      if |ms| > 1 {
        MemberLexemesReadable(ms[1..]);
        ReadablePunctuation(',', MemberLexemes(ms[1..]));
        ReadableConcat([key, ":"] + value, [","] + MemberLexemes(ms[1..]));
        Assoc([key, ":"] + value, [","], MemberLexemes(ms[1..]));
      }
    }
  }

  // ---------- The printers ----------

  lemma FastWrites(yaml: bool, v: Value)
    requires Proper(v)
    ensures Writes(FastText(yaml, v) + "\n", Lexemes(v))
  {
    hide Eat, FastText;
    FastSpells(yaml, v);
    EatMore(FastText(yaml, v), Lexemes(v), "\n");
  }

  lemma StyledWrites(v: Value)
    requires Proper(v)
    ensures Writes(Styled("", "", v) + "\n", Lexemes(v))
  {
    hide Eat, Styled;
    StyledSpells("", "", v);
    assert Styled("", "", v)[0..] == Styled("", "", v);
    EatMore(Styled("", "", v), Lexemes(v), "\n");
  }

  // The two printers differ only in blanks
  lemma SameTokens(yaml: bool, v: Value)
    requires Proper(v)
    ensures Tokens(FastText(yaml, v) + "\n") == Tokens(Styled("", "", v) + "\n") == TokensOf(Lexemes(v))
  {
    hide Tokens, Writes, FastText, Styled, Lexemes, Readable;
    LexemesReadable(v);
    FastWrites(yaml, v);
    StyledWrites(v);
    WritesTokens(FastText(yaml, v) + "\n", Lexemes(v));
    WritesTokens(Styled("", "", v) + "\n", Lexemes(v));
  }

  // Parsing what either printer wrote gives an equal value, and no error, exactly when the value is one that is kept
  lemma RoundTrip(cfg: Config, yaml: bool, v: Value, root: Value)
    requires Proper(v) && Scans(cfg, v) && !cfg.strictRoot
    ensures var r := Parse(cfg, FastText(yaml, v) + "\n", root); r.ok && (r.value == v <==> Kept(cfg, v))
    ensures var r := Parse(cfg, Styled("", "", v) + "\n", root); r.ok && (r.value == v <==> Kept(cfg, v))
  {
    hide Writes, FastText, Styled, Lexemes, Kept, Reread, Parse;
    FastWrites(yaml, v);
    StyledWrites(v);
    ParsesSpelling(cfg, FastText(yaml, v) + "\n", v, root);
    ParsesSpelling(cfg, Styled("", "", v) + "\n", v, root);
    RereadIsSame(cfg, v);
  }

  // A strict root is accepted when it is a container, or null
  lemma RoundTripStrict(cfg: Config, yaml: bool, v: Value, root: Value)
    requires Proper(v) && Scans(cfg, v) && cfg.strictRoot
    ensures var r := Parse(cfg, FastText(yaml, v) + "\n", root);
      r.value == Reread(cfg, v) && (r.ok <==> v.Null? || v.Arr? || v.Obj?)
    ensures var r := Parse(cfg, Styled("", "", v) + "\n", root);
      r.value == Reread(cfg, v) && (r.ok <==> v.Null? || v.Arr? || v.Obj?)
  {
    hide Writes, FastText, Styled, Lexemes, Kept, Reread, Parse;
    FastWrites(yaml, v);
    StyledWrites(v);
    ParsesSpelling(cfg, FastText(yaml, v) + "\n", v, root);
    ParsesSpelling(cfg, Styled("", "", v) + "\n", v, root);
  }

  // Read any text at all, write what came of it, read that: the value is the same
  lemma ReadWriteRead(cfg: Config, document: string, yaml: bool, root: Value)
    requires Sound(root)
    requires RealsBack(cfg, Parse(cfg, document, root).value)
    ensures var v := Parse(cfg, document, root).value;
      Parse(cfg, FastText(yaml, v) + "\n", root).value == v == Parse(cfg, Styled("", "", v) + "\n", root).value
  {
    hide Writes, FastText, Styled, Lexemes, Sound, RealsBack, Parse, Kept, Scans, Proper;
    var v := Parse(cfg, document, root).value;
    ParseSound(cfg, document, root);
    SoundIsKept(cfg, v);
    FastWrites(yaml, v);
    StyledWrites(v);
    RereadsWhatWasRead(cfg, document, FastText(yaml, v) + "\n", root);
    RereadsWhatWasRead(cfg, document, Styled("", "", v) + "\n", root);
  }
}
