/**
  What the two printers of http_codec/json/json_writer.cpp write, as functions of the value,
  and that both spell the lexemes of the value.  No value carries a comment.
 */
module JsonPrint {
  import opened Common
  import opened JsonValue
  import opened JsonScan
  import opened JsonText

  // The text of a value that fills no line of its own
  function LeafText(v: Value): string {
    match v
    case Null => "null"
    case Int(i) => IntText(i)
    case UInt(u) => if u < 0 then "" else Dec(u)
    case Real(text) => text
    case Str(s) => Quote(CStr(s))
    case Bool(b) => BoolText(b)
    case Arr(_) => "[]"
    case Obj(_) => "{}"
  }

  predicate IsLeaf(v: Value) { (v.Arr? ==> v.elems == []) && (v.Obj? ==> v.members == []) }

  // ---------- FastWriter ----------

  function FastText(yaml: bool, v: Value): string
    decreases v, 1
  {
    match v
    case Arr(es) => "[" + FastElems(yaml, es) + "]"
    case Obj(ms) => "{" + FastMembers(yaml, ms) + "}"
    case _ => LeafText(v)
  }
  function FastElems(yaml: bool, es: seq<Value>): string
    decreases es, 0
  {
    if es == [] then "" else FastText(yaml, es[0]) + if |es| == 1 then "" else "," + FastElems(yaml, es[1..])
  }
  function Colon(yaml: bool): string { if yaml then ": " else ":" }

  function FastMembers(yaml: bool, ms: seq<Member>): string
    decreases ms, 0
  {
    if ms == [] then ""
    else
      Quote(CStr(ms[0].key)) + Colon(yaml) + FastText(yaml, ms[0].val)
      + if |ms| == 1 then "" else "," + FastMembers(yaml, ms[1..])
  }

  // ---------- StyledWriter ----------

  const RIGHT_MARGIN := 74
  const INDENT := "   "

  // writeIndent
  function Indented(doc: string, indent: string): string {
    if doc == "" then indent
    else if doc[|doc| - 1] == ' ' then doc
    else if doc[|doc| - 1] != '\n' then doc + "\n" + indent
    else doc + indent
  }

  function LeafLengths(es: seq<Value>): nat {
    if es == [] then 0 else |LeafText(es[0])| + LeafLengths(es[1..])
  }

  predicate HasContainer(es: seq<Value>) { exists i :: 0 <= i < |es| && !IsLeaf(es[i]) }

  // isMultineArray of a non-empty array
  predicate MultiLine(es: seq<Value>) {
    |es| * 3 >= RIGHT_MARGIN || HasContainer(es) || 4 + (|es| - 1) * 2 + LeafLengths(es) >= RIGHT_MARGIN
  }

  function Row(es: seq<Value>): string {
    if es == [] then "" else LeafText(es[0]) + if |es| == 1 then "" else ", " + Row(es[1..])
  }

  // The document after a value has been written at its end
  function Styled(doc: string, indent: string, v: Value): string
    decreases v, 1
  {
    if IsLeaf(v) then doc + LeafText(v)
    else if v.Obj? then
      Indented(StyledMembers(Indented(doc, indent) + "{", indent + INDENT, v.members), indent) + "}"
    else if MultiLine(v.elems) then
      Indented(StyledElems(Indented(doc, indent) + "[", indent + INDENT, v.elems), indent) + "]"
    else doc + "[ " + Row(v.elems) + " ]"
  }
  function StyledElems(doc: string, indent: string, es: seq<Value>): string
    decreases es, 0
  {
    if es == [] then doc else
    var d := Styled(Indented(doc, indent), indent, es[0]);
    if |es| == 1 then d else StyledElems(d + ",", indent, es[1..])
  }
  function StyledMembers(doc: string, indent: string, ms: seq<Member>): string
    decreases ms, 0
  {
    if ms == [] then doc else
    var d := Styled(Indented(doc, indent) + Quote(CStr(ms[0].key)) + " : ", indent, ms[0].val);
    if |ms| == 1 then d else StyledMembers(d + ",", indent, ms[1..])
  }

  // ---------- Both spell the lexemes ----------

  lemma LeafSpells(v: Value)
    requires Proper(v) && IsLeaf(v)
    ensures Spells(LeafText(v), Lexemes(v)) && Solid(Lexemes(v))
  {
    hide Eat;
    LexemesSolid(v);
    if v.Arr? || v.Obj? {
      var open, close := if v.Arr? then "[" else "{", if v.Arr? then "]" else "}";
      SpellsOne(open);
      SpellsOne(close);
      SpellsConcat(open, [open], close, [close]);
      assert Lexemes(v) == [open] + [close] && LeafText(v) == open + close;
    } else {
      SpellsOne(LeafText(v));
    }
  }

  lemma {:induction false} FastSpells(yaml: bool, v: Value)
    requires Proper(v)
    ensures Spells(FastText(yaml, v), Lexemes(v)) && Solid(Lexemes(v))
    decreases v, 1
  {
    hide Eat, Spells, Quote, Dec;
    LexemesSolid(v);
    match v {
      case Arr(es) =>
        SpellsOne("[");
        SpellsOne("]");
        FastElemsSpell(yaml, es);
        SpellsConcat("[", ["["], FastElems(yaml, es), ElemLexemes(es));
        SpellsConcat("[" + FastElems(yaml, es), ["["] + ElemLexemes(es), "]", ["]"]);
      case Obj(ms) =>
        SpellsOne("{");
        SpellsOne("}");
        FastMembersSpell(yaml, ms);
        SpellsConcat("{", ["{"], FastMembers(yaml, ms), MemberLexemes(ms));
        SpellsConcat("{" + FastMembers(yaml, ms), ["{"] + MemberLexemes(ms), "}", ["}"]);
      case _ => LeafSpells(v);
    }
  }

  lemma SpellsNothing()
    ensures Spells("", [])
  {
  }

  lemma {:induction false} FastElemsSpell(yaml: bool, es: seq<Value>)
    requires ProperElems(es)
    ensures Spells(FastElems(yaml, es), ElemLexemes(es)) && Solid(ElemLexemes(es))
    decreases es, 0
  {
    hide Eat, Spells;
    if es == [] {
      SpellsNothing();
    } else {
      var first, lexemes := FastText(yaml, es[0]), Lexemes(es[0]);
      FastSpells(yaml, es[0]);
      if |es| == 1 {
        assert FastElems(yaml, es) == first;
      } else {
        FastElemsSpell(yaml, es[1..]);
        SpellsOne(",");
        SpellsConcat(first, lexemes, ",", [","]);
        SpellsConcat(first + ",", lexemes + [","], FastElems(yaml, es[1..]), ElemLexemes(es[1..]));
        Assoc(first, ",", FastElems(yaml, es[1..]));
      }
    }
  }

  lemma Assoc<T>(a: seq<T>, b: seq<T>, c: seq<T>)
    ensures (a + b) + c == a + (b + c)
  {
  }

  lemma ColonSpells(yaml: bool, text: string, lexemes: seq<string>)
    requires Spells(text, lexemes) && lexemes != [] && Solid(lexemes)
    ensures Spells(Colon(yaml) + text, [":"] + lexemes) && Solid([":"] + lexemes)
  {
    hide Eat, Spells;
    SpellsOne(":");
    if yaml {
      SpellsAfterBlank(" ", text, lexemes);
      SpellsConcat(":", [":"], " " + text, lexemes);
      assert ": " + text == ":" + (" " + text);
    } else {
      SpellsConcat(":", [":"], text, lexemes);
    }
  }

  lemma {:induction false} FastMembersSpell(yaml: bool, ms: seq<Member>)
    requires ProperMembers(ms)
    ensures Spells(FastMembers(yaml, ms), MemberLexemes(ms)) && Solid(MemberLexemes(ms))
    decreases ms, 0
  {
    hide Eat, Spells, Quote, Colon;
    MemberLexemesSolid(ms);
    if ms == [] {
      SpellsNothing();
    } else {
      var key, text, lexemes := Quote(ms[0].key), FastText(yaml, ms[0].val), Lexemes(ms[0].val);
      FastSpells(yaml, ms[0].val);
      QuoteSpells(ms[0].key);
      LexemesSolid(ms[0].val);
      ColonSpells(yaml, text, lexemes);
      SpellsConcat(key, [key], Colon(yaml) + text, [":"] + lexemes);
      Assoc(key, Colon(yaml), text);
      assert [key, ":"] + lexemes == [key] + ([":"] + lexemes);
      var first, firsts := key + Colon(yaml) + text, [key, ":"] + lexemes;
      if |ms| == 1 {
        assert first + "" == first;
      } else {
        FastMembersSpell(yaml, ms[1..]);
        SpellsOne(",");
        SpellsConcat(first, firsts, ",", [","]);
        SpellsConcat(first + ",", firsts + [","], FastMembers(yaml, ms[1..]), MemberLexemes(ms[1..]));
        Assoc(first, ",", FastMembers(yaml, ms[1..]));
      }
    }
  }

  lemma QuoteSpells(s: string)
    ensures Spells(Quote(s), [Quote(s)]) && Solid([Quote(s)])
  {
    SpellsOne(Quote(s));
  }

  // ---------- A document that grows ----------

  // `doc'` is `doc` and text that spells the lexemes
  ghost predicate Extends(doc: string, doc': string, lexemes: seq<string>) {
    doc <= doc' && Spells(doc'[|doc|..], lexemes)
  }

  lemma ExtendsText(doc: string, text: string, lexemes: seq<string>)
    requires Spells(text, lexemes)
    ensures Extends(doc, doc + text, lexemes)
  {
    assert (doc + text)[|doc|..] == text;
  }

  lemma ExtendsMore(a: string, b: string, c: string, xs: seq<string>, ys: seq<string>)
    requires Solid(xs) && Extends(a, b, xs) && Extends(b, c, ys)
    ensures Extends(a, c, xs + ys)
  {
    hide Eat, Spells;
    SpellsConcat(b[|a|..], xs, c[|b|..], ys);
    assert c[|a|..] == b[|a|..] + c[|b|..];
  }

  lemma ExtendsBlank(doc: string, w: string, doc': string, lexemes: seq<string>)
    requires AllSpace(w) && lexemes != [] && Extends(doc + w, doc', lexemes)
    ensures Extends(doc, doc', lexemes)
  {
    hide Eat, Spells;
    SpellsAfterBlank(w, doc'[|doc + w|..], lexemes);
    assert doc'[|doc|..] == w + doc'[|doc + w|..];
  }

  lemma ExtendsIndented(doc: string, indent: string, doc': string, lexemes: seq<string>)
    requires AllSpace(indent) && lexemes != [] && Extends(Indented(doc, indent), doc', lexemes)
    ensures Extends(doc, doc', lexemes)
  {
    hide Extends;
    var w := if doc == "" then indent else if doc[|doc| - 1] == ' ' then ""
      else if doc[|doc| - 1] != '\n' then "\n" + indent else indent;
    assert Indented(doc, indent) == doc + w;
    ExtendsBlank(doc, w, doc', lexemes);
  }

  // writeWithIndent
  lemma ExtendsIndentedText(doc: string, indent: string, lexeme: string)
    requires AllSpace(indent) && Solid([lexeme])
    ensures Extends(doc, Indented(doc, indent) + lexeme, [lexeme])
  {
    hide Extends, Indented;
    SpellsOne(lexeme);
    ExtendsText(Indented(doc, indent), lexeme, [lexeme]);
    ExtendsIndented(doc, indent, Indented(doc, indent) + lexeme, [lexeme]);
  }

  lemma {:induction false} RowSpells(es: seq<Value>)
    requires ProperElems(es) && !HasContainer(es)
    ensures Spells(Row(es), ElemLexemes(es)) && Solid(ElemLexemes(es))
  {
    hide Eat, Spells, LeafText, Proper, Lexemes;
    if es == [] {
      SpellsNothing();
    } else {
      var first, lexemes := LeafText(es[0]), Lexemes(es[0]);
      assert IsLeaf(es[0]);
      LeafSpells(es[0]);
      if |es| == 1 {
        assert Row(es) == first;
      } else {
        forall i | 0 <= i < |es[1..]| ensures IsLeaf(es[1..][i]) {
          assert es[1..][i] == es[i + 1];
        }
        RowSpells(es[1..]);
        LexemesSolid(es[1]);
        SpellsOne(",");
        SpellsConcat(first, lexemes, ",", [","]);
        SpellsAfterBlank(" ", Row(es[1..]), ElemLexemes(es[1..]));
        SpellsConcat(first + ",", lexemes + [","], " " + Row(es[1..]), ElemLexemes(es[1..]));
        assert first + "," + (" " + Row(es[1..])) == first + (", " + Row(es[1..]));
      }
    }
  }

  lemma RowExtends(doc: string, es: seq<Value>)
    requires es != [] && ProperElems(es) && !HasContainer(es)
    ensures Extends(doc, doc + "[ " + Row(es) + " ]", ["["] + ElemLexemes(es) + ["]"])
  {
    hide Eat, Spells, Extends;
    RowSpells(es);
    var lexemes := ElemLexemes(es);
    LexemesSolid(es[0]);
    SpellsOne("[");
    SpellsOne("]");
    SpellsAfterBlank(" ", Row(es), lexemes);
    SpellsConcat("[", ["["], " " + Row(es), lexemes);
    SpellsAfterBlank(" ", "]", ["]"]);
    SpellsConcat("[" + (" " + Row(es)), ["["] + lexemes, " " + "]", ["]"]);
    var text := "[" + (" " + Row(es)) + (" " + "]");
    ExtendsText(doc, text, ["["] + lexemes + ["]"]);
    Brackets(doc, Row(es));
  }

  lemma Brackets(doc: string, row: string)
    ensures doc + ("[" + (" " + row) + (" " + "]")) == doc + "[ " + row + " ]"
  {
  }

  lemma {:induction false} StyledSpells(doc: string, indent: string, v: Value)
    requires Proper(v) && AllSpace(indent)
    ensures Extends(doc, Styled(doc, indent, v), Lexemes(v)) && Solid(Lexemes(v)) && Lexemes(v) != []
    decreases v, 1
  {
    hide Eat, Spells, Extends, Indented, Row, LeafText, RIGHT_MARGIN, LeafLengths;
    LexemesSolid(v);
    if IsLeaf(v) {
      LeafSpells(v);
      ExtendsText(doc, LeafText(v), Lexemes(v));
    } else if v.Obj? {
      var begun := Indented(doc, indent) + "{";
      var filled := StyledMembers(begun, indent + INDENT, v.members);
      StyledMembersSpell(begun, indent + INDENT, v.members);
      Bracketed(doc, indent, "{", filled, "}", MemberLexemes(v.members));
    } else if MultiLine(v.elems) {
      var begun := Indented(doc, indent) + "[";
      var filled := StyledElems(begun, indent + INDENT, v.elems);
      StyledElemsSpell(begun, indent + INDENT, v.elems);
      Bracketed(doc, indent, "[", filled, "]", ElemLexemes(v.elems));
    } else {
      RowExtends(doc, v.elems);
    }
  }

  lemma Bracketed(doc: string, indent: string, open: string, filled: string, close: string, lexemes: seq<string>)
    requires AllSpace(indent) && Solid([open]) && Solid([close]) && Solid(lexemes)
    requires Extends(Indented(doc, indent) + open, filled, lexemes)
    ensures Extends(doc, Indented(filled, indent) + close, [open] + lexemes + [close])
  {
    hide Eat, Spells, Extends, Indented;
    ExtendsIndentedText(doc, indent, open);
    ExtendsMore(doc, Indented(doc, indent) + open, filled, [open], lexemes);
    ExtendsIndentedText(filled, indent, close);
    ExtendsMore(doc, filled, Indented(filled, indent) + close, [open] + lexemes, [close]);
  }

  // The value just written is followed by a comma
  lemma CommaExtends(doc: string, doc': string, lexemes: seq<string>)
    requires Solid(lexemes) && Extends(doc, doc', lexemes)
    ensures Extends(doc, doc' + ",", lexemes + [","])
  {
    hide Eat, Spells, Extends;
    SpellsOne(",");
    ExtendsText(doc', ",", [","]);
    ExtendsMore(doc, doc', doc' + ",", lexemes, [","]);
  }

  lemma {:induction false} StyledElemsSpell(doc: string, indent: string, es: seq<Value>)
    requires es != [] && ProperElems(es) && AllSpace(indent)
    ensures Extends(doc, StyledElems(doc, indent, es), ElemLexemes(es)) && Solid(ElemLexemes(es))
    decreases es, 0
  {
    hide Eat, Spells, Extends, Indented, Styled, Lexemes, Proper;
    var d, lexemes := Styled(Indented(doc, indent), indent, es[0]), Lexemes(es[0]);
    StyledSpells(Indented(doc, indent), indent, es[0]);
    ExtendsIndented(doc, indent, d, lexemes);
    if |es| > 1 {
      CommaExtends(doc, d, lexemes);
      StyledElemsSpell(d + ",", indent, es[1..]);
      ExtendsMore(doc, d + ",", StyledElems(d + ",", indent, es[1..]), lexemes + [","], ElemLexemes(es[1..]));
    }
  }

  lemma {:induction false} StyledMembersSpell(doc: string, indent: string, ms: seq<Member>)
    requires ms != [] && ProperMembers(ms) && AllSpace(indent)
    ensures Extends(doc, StyledMembers(doc, indent, ms), MemberLexemes(ms)) && Solid(MemberLexemes(ms))
    decreases ms, 0
  {
    hide Eat, Spells, Extends, Indented, Styled, Lexemes, Proper, Quote;
    var key, lexemes := Quote(ms[0].key), Lexemes(ms[0].val);
    var named := Indented(doc, indent) + key;
    var d := Styled(named + " : ", indent, ms[0].val);
    QuoteSpells(ms[0].key);
    ExtendsIndentedText(doc, indent, key);
    StyledSpells(named + " : ", indent, ms[0].val);
    ColonExtends(named, d, lexemes);
    ExtendsMore(doc, named, d, [key], [":"] + lexemes);
    assert [key, ":"] + lexemes == [key] + ([":"] + lexemes);
    if |ms| > 1 {
      CommaExtends(doc, d, [key, ":"] + lexemes);
      StyledMembersSpell(d + ",", indent, ms[1..]);
      ExtendsMore(doc, d + ",", StyledMembers(d + ",", indent, ms[1..]), [key, ":"] + lexemes + [","],
        MemberLexemes(ms[1..]));
    }
  }

  lemma ColonExtends(doc: string, doc': string, lexemes: seq<string>)
    requires Extends(doc + " : ", doc', lexemes) && Solid(lexemes) && lexemes != []
    ensures Extends(doc, doc', [":"] + lexemes)
  {
    hide Eat, Spells, Extends;
    SpellsOne(":");
    SpellsAfterBlank(" ", ":", [":"]);
    assert " :" == " " + ":";
    ExtendsText(doc, " :", [":"]);
    assert doc + " : " == doc + " :" + " ";
    ExtendsBlank(doc + " :", " ", doc', lexemes);
    ExtendsMore(doc, doc + " :", doc', [":"], lexemes);
  }
}
