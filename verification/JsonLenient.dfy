/**
  What the reader of http_codec/json/json_reader.cpp takes although its messages, its options or
  the grammar of RFC 8259 say otherwise.
 */
module JsonLenient {
  import opened Common
  import opened JsonValue
  import opened JsonScan
  import opened JsonParse
  import opened JsonText
  import opened JsonLexeme
  import opened JsonRoundTrip

  // ---------- The root ----------

  // The message asks for an array or an object; a null, written in any way, passes as well
  lemma NullRoot(cfg: Config, document: string, root: Value)
    requires Writes(document, ["null"])
    ensures var r := Parse(cfg, document, root); r.ok && r.value == Null
  {
    hide Writes, Parse;
    ParsesSpelling(cfg, document, Null, root);
  }

  lemma NullLine(cfg: Config, root: Value)
    ensures Parse(cfg, "null\n", root).ok
  {
    var s := "null\n";
    assert SkipSpaces(s) == s && s[..4] == "null" && s[4..] == "\n";
    assert Eat(s, ["null"]) == Left("\n");
    NullRoot(cfg, s, root);
  }

  // ---------- Numbers ----------

  // A minus sign with no digits is zero
  lemma LoneMinus(cfg: Config, s: string, cur: Value)
    requires Eat(s, ["-"]).Left? && NumberEnds(Eat(s, ["-"]).rest)
    ensures ReadValue(cfg, s, cur) == Outcome(true, Int(0), Eat(s, ["-"]).rest, [])
  {
    hide Eat, JsonScan.ReadToken, ReadValue;
    NumberLexeme(s, "-");
    ReadsToken(cfg, s, cur);
    assert !LooksReal("-");
    assert "-"[1..] == "";
  }

  // ---------- Commas ----------

  // One element and what follows it: any token but a closing bracket leads to the next, and comments are skipped
  lemma AfterElement(cfg: Config, s: string, before: seq<Value>)
    requires ReadValue(cfg, s, Null).ok
    ensures var e := ReadValue(cfg, s, Null);
      var t := PastComments(JsonScan.ReadToken(e.rest));
      ReadElems(cfg, s, before) ==
        if t.token.kind == ArrayEnd then Outcome(true, Arr(before + [e.value]), t.rest, [])
        else ReadElems(cfg, t.rest, before + [e.value])
  {
    hide JsonScan.ReadToken, ReadValue, PastComments;
  }

  // `s` begins with the elements, a token of any kind but a closing bracket between each two of them
  ghost predicate Lists(s: string, es: seq<Value>, rest: string)
    decreases |es|
  {
    && es != [] && Eat(s, Lexemes(es[0])).Left?
    && var r := Eat(s, Lexemes(es[0])).rest;
      var t := PastComments(JsonScan.ReadToken(r));
      && (IsNumber(es[0]) ==> NumberEnds(r))
      && if |es| == 1 then t.token.kind == ArrayEnd && t.rest == rest
         else t.token.kind != ArrayEnd && Lists(t.rest, es[1..], rest)
  }

  // Any token does for the commas of an array: a string, a number, even an error token
  lemma {:induction false} AnySeparator(cfg: Config, s: string, es: seq<Value>, before: seq<Value>, rest: string)
    requires ProperElems(es) && ScansElems(cfg, es) && Lists(s, es, rest)
    ensures ReadElems(cfg, s, before) == Outcome(true, Arr(before + RereadElems(cfg, es)), rest, [])
    decreases |es|
  {
    hide JsonScan.ReadToken, PastComments, ReadValue, ReadElems, Eat, Lexemes, Proper, Reread, Scans, NumberEnds;
    var e := Reread(cfg, es[0]);
    ReadsValue(cfg, s, es[0], Null);
    AfterElement(cfg, s, before);
    if |es| == 1 {
      assert es[1..] == [];
      assert RereadElems(cfg, es) == [e];
    } else {
      var t := PastComments(JsonScan.ReadToken(Eat(s, Lexemes(es[0])).rest));
      AnySeparator(cfg, t.rest, es[1..], before + [e], rest);
      Focus(before, e, RereadElems(cfg, es[1..]));
    }
  }

  // The lexemes of elements with `c` between them
  function Separated(es: seq<Value>, c: char): seq<string> {
    if es == [] then []
    else if |es| == 1 then Lexemes(es[0])
    else Lexemes(es[0]) + [[c]] + Separated(es[1..], c)
  }

  lemma {:induction false} PunctuationLists(s: string, es: seq<Value>, c: char)
    requires es != [] && PunctuationOf(c) != ErrorToken && PunctuationOf(c) != ArrayEnd
    requires Eat(s, Separated(es, c) + ["]"]).Left?
    ensures Lists(s, es, Eat(s, Separated(es, c) + ["]"]).rest)
    decreases |es|
  {
    hide JsonScan.ReadToken, Eat, Lexemes, NumberEnds;
    var first, last := Lexemes(es[0]), |es| == 1;
    var d, more := if last then ']' else c, if last then [] else Separated(es[1..], c) + ["]"];
    Regroup(first, [[c]], Separated(es[1..], c), ["]"]);
    assert Separated(es, c) + ["]"] == first + ([[d]] + more) by {
      assert ["]"] + [] == ["]"];
    }
    EatConcat(s, first, [[d]] + more);
    var r := Eat(s, first).rest;
    PunctuationNext(r, d, more);
    if last {
      EatNothing(JsonScan.ReadToken(r).rest);
    } else {
      PunctuationLists(JsonScan.ReadToken(r).rest, es[1..], c);
    }
  }

  // So does punctuation of any kind but a closing bracket, blanks or not
  lemma AnyPunctuation(cfg: Config, s: string, es: seq<Value>, c: char, before: seq<Value>)
    requires es != [] && ProperElems(es) && ScansElems(cfg, es)
    requires PunctuationOf(c) != ErrorToken && PunctuationOf(c) != ArrayEnd
    requires Eat(s, Separated(es, c) + ["]"]).Left?
    ensures ReadElems(cfg, s, before)
         == Outcome(true, Arr(before + RereadElems(cfg, es)), Eat(s, Separated(es, c) + ["]"]).rest, [])
  {
    hide Lists, Eat, ReadElems, Separated;
    PunctuationLists(s, es, c);
    AnySeparator(cfg, s, es, before, Eat(s, Separated(es, c) + ["]"]).rest);
  }

  lemma DigitEaten(s: string, d: char, t: string)
    requires IsDigit(d) && NumberEnds(t) && (s == [d] + t || s == " " + [d] + t)
    ensures Eat(s, [[d]]) == Left(t) && JsonScan.ReadToken(s) == Scan(Token(NumberToken, [d]), t)
  {
    hide JsonScan.ReadToken;
    var u := [d] + t;
    assert SkipSpaces(u) == u && u[1..] == t;
    assert s != u ==> s[1..] == u;
    assert [[d]][1..] == [];
    NumberLexeme(s, [d]);
  }

  lemma BracketRead(c: char, t: string)
    requires PunctuationOf(c) != ErrorToken
    ensures JsonScan.ReadToken([c] + t) == Scan(Token(PunctuationOf(c), [c]), t)
  {
    hide JsonScan.ReadToken;
    var s := [c] + t;
    assert SkipSpaces(s) == s && s[1..] == t && [[c]][1..] == [];
    assert Eat(s, [[c]]) == Left(t);
    PunctuationLexeme(s, c);
  }

  // Without its commas an array loses every other element, and no error is reported
  lemma CommasMissing(cfg: Config, cur: Value)
    ensures ReadValue(cfg, "[1 2 3]", cur) == Outcome(true, Arr([Int(1), Int(3)]), "", [])
  {
    hide JsonScan.ReadToken, ReadValue, ReadElems, Eat, Lists;
    var s, es := "1 2 3]", [Int(1), Int(3)];
    BracketRead('[', s);
    assert "[1 2 3]" == ['['] + s;
    Opens(cfg, "[1 2 3]", cur, ArrayBegin);
    assert ArrayOutcome(cfg, s) == ReadElems(cfg, s, []) by {
      assert SkipSpaces(s) == s;
    }
    OneAndThree();
    IntsKept(cfg, es);
    AnySeparator(cfg, s, es, [], "");
    assert [] + es == es;
  }

  lemma {:induction false} IntsKept(cfg: Config, es: seq<Value>)
    requires forall i :: 0 <= i < |es| ==> es[i].Int? && LEAST_EXACT <= es[i].i <= MAX_INT
    ensures RereadElems(cfg, es) == es && ProperElems(es) && ScansElems(cfg, es)
  {
    if es != [] {
      IntsKept(cfg, es[1..]);
      assert es == [es[0]] + es[1..];
    }
  }

  lemma OneAndThree()
    ensures Lists("1 2 3]", [Int(1), Int(3)], "")
  {
    hide JsonScan.ReadToken, Eat;
    DigitEaten("1 2 3]", '1', " 2 3]");
    DigitEaten(" 2 3]", '2', " 3]");
    DigitEaten(" 3]", '3', "]");
    BracketRead(']', "");
    assert "]" == [']'] + "";
    var es := [Int(1), Int(3)];
    assert es[1..] == [Int(3)];
    assert Lists(" 3]", [Int(3)], "");
  }

  // In an object a comma may be missing only behind a comment: the error is raised if and only if ...
  lemma CommaOfObject(s: string, name: string, members: seq<Member>)
    ensures var r := AfterMember(s, name, members);
      r.Done? && !r.outcome.ok <==> JsonScan.ReadToken(s).token.kind !in {ObjectEnd, ArraySeparator, CommentToken}
  {
    hide JsonScan.ReadToken, PastComments, Recover;
  }

  // ... and behind a comment any token but a closing brace leads to the next member
  lemma AfterComment(s: string, name: string, members: seq<Member>)
    requires JsonScan.ReadToken(s).token.kind == CommentToken
    ensures var t := PastComments(JsonScan.ReadToken(s));
      AfterMember(s, name, members) ==
        if t.token.kind == ObjectEnd then Done(Outcome(true, Obj(members), t.rest, []))
        else More(t.rest, name, members)
  {
    hide JsonScan.ReadToken, PastComments, Recover;
  }

  // After a comma a brace closes an object exactly when the name of the member before was empty
  lemma BraceAfterComma(cfg: Config, s: string, name: string, members: seq<Member>)
    requires JsonScan.ReadToken(s).token.kind == ObjectEnd
    ensures ReadMembers(cfg, s, name, members).ok <==> name == ""
    ensures name == "" ==> ReadMembers(cfg, s, name, members).value == Obj(members)
  {
    hide JsonScan.ReadToken;
  }

  lemma TrailingComma(cfg: Config, s: string, key: string, v: Value, cur: Value)
    requires NulFree(key) && Proper(v) && Scans(cfg, v)
    requires Eat(s, ["{", Quote(key), ":"] + Lexemes(v) + [",", "}"]).Left?
    ensures ReadValue(cfg, s, cur).ok <==> key == ""
    ensures key == "" ==> ReadValue(cfg, s, cur).value == Obj([Member("", Reread(cfg, v))])
  {
    hide JsonScan.ReadToken, ReadValue, ReadMembers, Eat, Lexemes, Quote, Proper, Reread, Scans, NumberEnds,
      DecodeToken, NulFree;
    var value, e := Lexemes(v), Reread(cfg, v);
    var a, b, c := [":"] + (value + [",", "}"]), value + [",", "}"], ["}"];
    assert ["{", Quote(key), ":"] + value + [",", "}"] == ["{"] + ([Quote(key)] + a);
    assert [",", "}"] == [","] + c && c == ["}"] + [];
    PunctuationNext(s, '{', [Quote(key)] + a);
    Opens(cfg, s, cur, ObjectBegin);
    var open := JsonScan.ReadToken(s);
    EatConcat(open.rest, [Quote(key)], a);
    StringLexeme(open.rest, key);
    var named := JsonScan.ReadToken(open.rest);
    PunctuationNext(named.rest, ':', b);
    var colon := JsonScan.ReadToken(named.rest);
    EatConcat(colon.rest, value, [",", "}"]);
    var r := Eat(colon.rest, value).rest;
    PunctuationNext(r, ',', c);
    ReadsValue(cfg, colon.rest, v, Null);
    var after := JsonScan.ReadToken(r);
    MemberRound(cfg, open.rest, "", [], key, named, colon, e, r, after);
    PunctuationNext(after.rest, '}', []);
    BraceAfterComma(cfg, after.rest, key, [Member(key, e)]);
    assert [] + [Member(key, e)] == [Member(key, e)];
  }

  // ---------- Comments ----------

  // Comments before a value are an error when they are switched off
  lemma CommentBeforeValue(cfg: Config, s: string, cur: Value)
    requires JsonScan.ReadToken(s).token.kind == CommentToken
    ensures cfg.allowComments ==> ReadValue(cfg, s, cur) == ReadValue(cfg, JsonScan.ReadToken(s).rest, cur)
    ensures !cfg.allowComments ==> ReadValue(cfg, s, cur).errors == [Error(SYNTAX, JsonScan.ReadToken(s).token)]
  {
    hide JsonScan.ReadToken, ArrayOutcome, ReadMembers;
  }

  // Comments before a name are skipped all the same
  lemma CommentBeforeName(cfg: Config, s: string, name: string, members: seq<Member>)
    requires JsonScan.ReadToken(s).token.kind == CommentToken
    ensures ReadMembers(cfg, s, name, members) == ReadMembers(cfg, JsonScan.ReadToken(s).rest, name, members)
  {
    hide JsonScan.ReadToken, MemberStep, Recover;
  }
}
