/**
  The text of a JSON value as a sequence of lexemes, whatever blanks stand between them.
 */
module JsonText {
  import opened Common
  import opened JsonValue
  import opened JsonScan

  // ---------- Lexemes ----------

  // A control character in the sense of json_writer.cpp; NUL ends a string
  predicate IsControl(c: char) { '\0' < c <= 0x1F as char }

  function Hex(d: int): char
    requires 0 <= d < 16
  {
    if d < 10 then ('0' as int + d) as char else ('A' as int + d - 10) as char
  }

  function EscapeChar(c: char): string {
    if c == '"' then "\\\""
    else if c == '\\' then "\\\\"
    else if c == BACKSPACE then "\\b"
    else if c == FORM_FEED then "\\f"
    else if c == '\n' then "\\n"
    else if c == '\r' then "\\r"
    else if c == '\t' then "\\t"
    else if IsControl(c) then "\\u00" + [Hex(c as int / 16), Hex(c as int % 16)]
    else [c]
  }

  function Escape(s: string): string {
    if s == [] then [] else EscapeChar(s[0]) + Escape(s[1..])
  }

  function Quote(s: string): string { "\"" + Escape(s) + "\"" }

  // valueToString( Int ), two's complement included: the digits of the magnitude, up to 2^31
  function IntText(i: int): string { if i < 0 then "-" + Dec(-i) else Dec(i) }

  function BoolText(b: bool): string { if b then "true" else "false" }

  // ---------- The lexemes of a value ----------

  function Lexemes(v: Value): seq<string>
    decreases v, 1
  {
    match v
    case Null => ["null"]
    case Int(i) => [IntText(i)]
    case UInt(u) => [if u < 0 then "" else Dec(u)]
    case Real(text) => [text]
    case Str(s) => [Quote(s)]
    case Bool(b) => [BoolText(b)]
    case Arr(es) => ["["] + ElemLexemes(es) + ["]"]
    case Obj(ms) => ["{"] + MemberLexemes(ms) + ["}"]
  }

  function ElemLexemes(es: seq<Value>): seq<string>
    decreases es, 0
  {
    if es == [] then []
    else if |es| == 1 then Lexemes(es[0])
    else Lexemes(es[0]) + [","] + ElemLexemes(es[1..])
  }

  function MemberLexemes(ms: seq<Member>): seq<string>
    decreases ms, 0
  {
    if ms == [] then []
    else
      var first := [Quote(ms[0].key), ":"] + Lexemes(ms[0].val);
      if |ms| == 1 then first else first + [","] + MemberLexemes(ms[1..])
  }

  // ---------- Text made of lexemes ----------

  datatype Left = Left(rest: string) | Stuck

  // What is left of `s` once the given lexemes have been taken off, blanks before each skipped
  function Eat(s: string, lexemes: seq<string>): Left
    decreases |lexemes|
  {
    if lexemes == [] then Left(s) else
    var u := SkipSpaces(s);
    if lexemes[0] <= u then Eat(u[|lexemes[0]|..], lexemes[1..]) else Stuck
  }

  ghost predicate AllSpace(s: string) { forall i :: 0 <= i < |s| ==> IsSpace(s[i]) }

  // A lexeme starts with something that is no blank
  ghost predicate Solid(lexemes: seq<string>) {
    forall i :: 0 <= i < |lexemes| ==> lexemes[i] != [] && !IsSpace(lexemes[i][0])
  }

  // `s` is exactly these lexemes, with blanks allowed before each of them
  ghost predicate Spells(s: string, lexemes: seq<string>) {
    Eat(s, lexemes) == Left("")
  }

  // `s` is these lexemes and blanks
  ghost predicate Writes(s: string, lexemes: seq<string>) {
    Eat(s, lexemes).Left? && AllSpace(Eat(s, lexemes).rest)
  }

  lemma {:induction false} EatConcat(s: string, a: seq<string>, b: seq<string>)
    ensures Eat(s, a + b) == if Eat(s, a).Left? then Eat(Eat(s, a).rest, b) else Stuck
    decreases |a|
  {
    if a == [] {
      assert a + b == b;
    } else {
      var u := SkipSpaces(s);
      assert (a + b)[0] == a[0] && (a + b)[1..] == a[1..] + b;
      if a[0] <= u {
        EatConcat(u[|a[0]|..], a[1..], b);
      }
    }
  }

  lemma {:induction false} SkipSpacesMore(s: string, t: string)
    requires SkipSpaces(s) != []
    ensures SkipSpaces(s + t) == SkipSpaces(s) + t
  {
    if IsSpace(s[0]) {
      SkipSpacesMore(s[1..], t);
      assert (s + t)[1..] == s[1..] + t;
    }
  }

  lemma {:induction false} SkipSpacesBlank(w: string, s: string)
    requires AllSpace(w)
    ensures SkipSpaces(w + s) == SkipSpaces(s)
  {
    if w == [] {
      assert w + s == s;
    } else {
      assert (w + s)[1..] == w[1..] + s;
      SkipSpacesBlank(w[1..], s);
    }
  }

  // Text behind what was taken off stays
  lemma {:induction false} EatMore(s: string, lexemes: seq<string>, t: string)
    requires Solid(lexemes) && Eat(s, lexemes).Left?
    ensures Eat(s + t, lexemes) == Left(Eat(s, lexemes).rest + t)
    decreases |lexemes|
  {
    if lexemes != [] {
      var u := SkipSpaces(s);
      SkipSpacesMore(s, t);
      assert (u + t)[..|lexemes[0]|] == u[..|lexemes[0]|] == lexemes[0];
      assert (u + t)[|lexemes[0]|..] == u[|lexemes[0]|..] + t;
      EatMore(u[|lexemes[0]|..], lexemes[1..], t);
    }
  }

  lemma SpellsConcat(s: string, a: seq<string>, t: string, b: seq<string>)
    requires Solid(a) && Spells(s, a) && Spells(t, b)
    ensures Spells(s + t, a + b)
  {
    EatMore(s, a, t);
    EatConcat(s + t, a, b);
    assert "" + t == t;
  }

  lemma SpellsAfterBlank(w: string, s: string, lexemes: seq<string>)
    requires AllSpace(w) && lexemes != [] && Spells(s, lexemes)
    ensures Spells(w + s, lexemes)
  {
    SkipSpacesBlank(w, s);
  }

  lemma SpellsOne(lexeme: string)
    requires Solid([lexeme])
    ensures Spells(lexeme, [lexeme])
  {
    assert SkipSpaces(lexeme) == lexeme;
    assert [lexeme][1..] == [];
  }

  // ---------- Values a text can stand for ----------

  // The lexeme of a number that is not an integer
  ghost predicate RealLexeme(text: string) {
    && text != "" && (IsDigit(text[0]) || text[0] == '-') && LooksReal(text)
    && forall i :: 0 <= i < |text| ==> IsNumberChar(text[i])
  }

  // Integers in range, C strings, doubles that print as numbers; the members of an object in any order
  ghost predicate Proper(v: Value)
    decreases v, 1
  {
    match v
    case Int(i) => MIN_INT <= i <= MAX_INT
    case UInt(u) => 0 <= u <= MAX_UINT
    case Real(text) => RealLexeme(text)
    case Str(s) => NulFree(s)
    case Arr(es) => ProperElems(es)
    case Obj(ms) => ProperMembers(ms)
    case _ => true
  }
  ghost predicate ProperElems(es: seq<Value>)
    decreases es, 0
  {
    es == [] || (Proper(es[0]) && ProperElems(es[1..]))
  }
  ghost predicate ProperMembers(ms: seq<Member>)
    decreases ms, 0
  {
    ms == [] || (NulFree(ms[0].key) && Proper(ms[0].val) && ProperMembers(ms[1..]))
  }

  lemma {:induction false} LexemesSolid(v: Value)
    requires Proper(v)
    ensures Solid(Lexemes(v)) && Lexemes(v) != []
    decreases v, 1
  {
    match v
    case Arr(es) => ElemLexemesSolid(es);
    case Obj(ms) => MemberLexemesSolid(ms);
    case _ =>
  }
  lemma {:induction false} ElemLexemesSolid(es: seq<Value>)
    requires ProperElems(es)
    ensures Solid(ElemLexemes(es))
    decreases es, 0
  {
    if es != [] {
      LexemesSolid(es[0]);
      ElemLexemesSolid(es[1..]);
    }
  }
  lemma {:induction false} MemberLexemesSolid(ms: seq<Member>)
    requires ProperMembers(ms)
    ensures Solid(MemberLexemes(ms))
    decreases ms, 0
  {
    if ms != [] {
      LexemesSolid(ms[0].val);
      MemberLexemesSolid(ms[1..]);
    }
  }
}
