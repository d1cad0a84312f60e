/**
  How the outputs of the two printers of http_codec/json/json_writer.cpp look, to the last blank.
 */
module JsonLayout {
  import opened Common
  import opened JsonValue
  import opened JsonScan
  import opened JsonText
  import opened JsonPrint

  // ---------- FastWriter ----------

  // The lexemes one behind the other, with `colon` for each colon
  function Glued(lexemes: seq<string>, colon: string): string {
    if lexemes == [] then "" else (if lexemes[0] == ":" then colon else lexemes[0]) + Glued(lexemes[1..], colon)
  }

  lemma {:induction false} GluedConcat(a: seq<string>, b: seq<string>, colon: string)
    ensures Glued(a + b, colon) == Glued(a, colon) + Glued(b, colon)
  {
    if a == [] {
      assert a + b == b;
    } else {
      GluedConcat(a[1..], b, colon);
      assert (a + b)[1..] == a[1..] + b;
    }
  }

  lemma GluedOne(lexeme: string, colon: string)
    requires lexeme != ":"
    ensures Glued([lexeme], colon) == lexeme
  {
    assert [lexeme][1..] == [];
  }

  lemma LeafGlued(v: Value, colon: string)
    requires Proper(v) && !v.Arr? && !v.Obj?
    ensures Glued(Lexemes(v), colon) == LeafText(v)
  {
    hide Dec, RealLexeme;
    LeafSolid(v);
    GluedOne(LeafText(v), colon);
  }

  // The text of a scalar is its lexeme; it is no colon, and does not end with a blank or a new line
  lemma LeafSolid(v: Value)
    requires Proper(v) && IsLeaf(v)
    ensures LeafText(v) != "" && LeafText(v) != ":" && !IsSpace(LeafText(v)[|LeafText(v)| - 1])
    ensures !v.Arr? && !v.Obj? ==> Lexemes(v) == [LeafText(v)]
  {
    match v
    case Str(s) => assert Quote(s)[0] == '"' && Quote(s)[|Quote(s)| - 1] == '"';
    case _ =>
  }

  // FastWriter writes nothing but the lexemes, and in YAML mode a blank behind each colon
  lemma {:induction false} FastIs(yaml: bool, v: Value)
    requires Proper(v)
    ensures FastText(yaml, v) == Glued(Lexemes(v), if yaml then ": " else ":")
    decreases v, 1
  {
    hide LeafText, Quote;
    var colon := if yaml then ": " else ":";
    match v {
      case Arr(es) =>
        FastElemsAre(yaml, es);
        GluedConcat(["["], ElemLexemes(es), colon);
        GluedConcat(["["] + ElemLexemes(es), ["]"], colon);
        GluedOne("[", colon);
        GluedOne("]", colon);
      case Obj(ms) =>
        FastMembersAre(yaml, ms);
        GluedConcat(["{"], MemberLexemes(ms), colon);
        GluedConcat(["{"] + MemberLexemes(ms), ["}"], colon);
        GluedOne("{", colon);
        GluedOne("}", colon);
      case _ => LeafGlued(v, colon);
    }
  }

  lemma {:induction false} FastElemsAre(yaml: bool, es: seq<Value>)
    requires ProperElems(es)
    ensures FastElems(yaml, es) == Glued(ElemLexemes(es), if yaml then ": " else ":")
    decreases es, 0
  {
    hide Lexemes, FastText;
    var colon := if yaml then ": " else ":";
    if es != [] {
      FastIs(yaml, es[0]);
      if |es| > 1 {
        FastElemsAre(yaml, es[1..]);
        GluedConcat(Lexemes(es[0]), [","], colon);
        GluedConcat(Lexemes(es[0]) + [","], ElemLexemes(es[1..]), colon);
        GluedOne(",", colon);
        Regroup(FastText(yaml, es[0]), ",", FastElems(yaml, es[1..]));
      }
    }
  }

  lemma {:induction false} FastMembersAre(yaml: bool, ms: seq<Member>)
    requires ProperMembers(ms)
    ensures FastMembers(yaml, ms) == Glued(MemberLexemes(ms), if yaml then ": " else ":")
    decreases ms, 0
  {
    hide Lexemes, FastText, Quote;
    var colon := if yaml then ": " else ":";
    if ms != [] {
      var key, value := Quote(ms[0].key), Lexemes(ms[0].val);
      var text := FastText(yaml, ms[0].val);
      FastIs(yaml, ms[0].val);
      NameGlued(ms[0].key, colon);
      GluedConcat([key, ":"], value, colon);
      assert Glued([key, ":"] + value, colon) == key + colon + text;
      if |ms| > 1 {
        FastMembersAre(yaml, ms[1..]);
        GluedConcat([key, ":"] + value, [","], colon);
        GluedConcat([key, ":"] + value + [","], MemberLexemes(ms[1..]), colon);
        GluedOne(",", colon);
        Regroup(key + colon + text, ",", FastMembers(yaml, ms[1..]));
      }
    }
  }

  lemma Regroup(a: string, b: string, c: string)
    ensures a + (b + c) == a + b + c
  {
  }

  lemma NameGlued(key: string, colon: string)
    ensures Glued([Quote(key), ":"], colon) == Quote(key) + colon
  {
    assert Quote(key)[0] == '"';
    assert [Quote(key), ":"][1..] == [":"] && [":"][1..] == [];
    assert Glued([":"], colon) == colon;
  }

  // ---------- StyledWriter ----------

  function Spaces(n: nat): string { seq(n, _ => ' ') }

  // Scalars with a comma and a blank between them
  function Listed(es: seq<Value>): string {
    if es == [] then "" else if |es| == 1 then LeafText(es[0]) else LeafText(es[0]) + ", " + Listed(es[1..])
  }

  // An array goes on one line when it is short of 25 elements, has no containers but empty ones, and the line is
  // short of 74 characters
  predicate OneLine(es: seq<Value>) {
    |es| < 25 && (forall i :: 0 <= i < |es| ==> IsLeaf(es[i])) && |"[ " + Listed(es) + " ]"| < 74
  }

  // A value on `depth` levels: what is inside goes on lines of its own, three blanks further to the right
  function Laid(v: Value, depth: nat): string
    decreases v, 1
  {
    if IsLeaf(v) then LeafText(v)
    else if v.Obj? then "{" + LaidMembers(v.members, depth + 1) + "\n" + Spaces(3 * depth) + "}"
    else if OneLine(v.elems) then "[ " + Listed(v.elems) + " ]"
    else "[" + LaidElems(v.elems, depth + 1) + "\n" + Spaces(3 * depth) + "]"
  }
  function LaidElems(es: seq<Value>, depth: nat): string
    decreases es, 0
  {
    if es == [] then ""
    else "\n" + Spaces(3 * depth) + Laid(es[0], depth) + if |es| == 1 then "" else "," + LaidElems(es[1..], depth)
  }
  function LaidMembers(ms: seq<Member>, depth: nat): string
    decreases ms, 0
  {
    if ms == [] then ""
    else
      "\n" + Spaces(3 * depth) + Quote(CStr(ms[0].key)) + " : " + Laid(ms[0].val, depth)
      + if |ms| == 1 then "" else "," + LaidMembers(ms[1..], depth)
  }

  lemma {:induction false} ListedRow(es: seq<Value>)
    ensures Row(es) == Listed(es) && (es != [] ==> |Listed(es)| == 2 * (|es| - 1) + LeafLengths(es))
  {
    hide LeafText;
    if es != [] {
      ListedRow(es[1..]);
      if |es| == 1 {
        assert LeafLengths(es[1..]) == 0;
      } else {
        Regroup(LeafText(es[0]), ", ", Row(es[1..]));
      }
    }
  }

  // Too many elements, a container that is not empty, or too long a line
  lemma MultiLineIs(es: seq<Value>)
    requires es != []
    ensures MultiLine(es) <==> !OneLine(es)
  {
    ListedRow(es);
  }

  // Where a new line has to begin
  ghost predicate Open(doc: string) { doc != "" && doc[|doc| - 1] != ' ' && doc[|doc| - 1] != '\n' }

  lemma NewLine(doc: string, indent: string)
    requires Open(doc)
    ensures Indented(doc, indent) == doc + "\n" + indent
  {
  }

  // Where a value is due: at the start of the document, or behind a blank
  ghost predicate Due(doc: string, depth: nat) {
    if doc == "" then depth == 0 else doc[|doc| - 1] == ' '
  }

  lemma OnTheLine(doc: string, depth: nat)
    requires Due(doc, depth)
    ensures Indented(doc, Spaces(3 * depth)) == doc
  {
    assert doc == "" ==> Spaces(3 * depth) == "";
  }

  lemma Deeper(depth: nat)
    ensures Spaces(3 * depth) + INDENT == Spaces(3 * (depth + 1))
  {
  }

  lemma {:induction false} LaidEnds(v: Value, depth: nat)
    requires Proper(v)
    ensures Open(Laid(v, depth))
  {
    hide Listed, LaidElems, LaidMembers, Spaces, LeafText;
    if IsLeaf(v) {
      LeafSolid(v);
    }
  }

  lemma OpenMore(a: string, b: string)
    requires Open(b)
    ensures Open(a + b)
  {
  }

  // StyledWriter lays the value out like that
  lemma {:induction false} StyledIs(doc: string, v: Value, depth: nat)
    requires Proper(v) && Due(doc, depth)
    ensures Styled(doc, Spaces(3 * depth), v) == doc + Laid(v, depth)
    decreases v, 1
  {
    hide Due, Open, Indented, Spaces, Row, Listed, MultiLine, OneLine, LeafText, StyledElems, StyledMembers;
    hide LaidElems, LaidMembers;
    var indent := Spaces(3 * depth);
    if !IsLeaf(v) {
      OnTheLine(doc, depth);
      Deeper(depth);
      if v.Obj? {
        Opened(doc, "{");
        StyledMembersAre(doc + "{", v.members, depth + 1);
        Closed(doc, "{", LaidMembers(v.members, depth + 1), indent, "}");
      } else {
        MultiLineIs(v.elems);
        if OneLine(v.elems) {
          ListedRow(v.elems);
          Regroup(doc, "[ ", Listed(v.elems));
          Regroup(doc, "[ " + Listed(v.elems), " ]");
        } else {
          Opened(doc, "[");
          StyledElemsAre(doc + "[", v.elems, depth + 1);
          Closed(doc, "[", LaidElems(v.elems, depth + 1), indent, "]");
        }
      }
    }
  }

  lemma Opened(doc: string, bracket: string)
    requires bracket == "{" || bracket == "["
    ensures Open(doc + bracket)
  {
  }

  lemma Closed(doc: string, bracket: string, inner: string, indent: string, close: string)
    requires Open(doc + bracket + inner)
    ensures Indented(doc + bracket + inner, indent) + close == doc + (bracket + inner + "\n" + indent + close)
  {
    NewLine(doc + bracket + inner, indent);
  }

  lemma {:induction false} StyledElemsAre(doc: string, es: seq<Value>, depth: nat)
    requires ProperElems(es) && es != [] && Open(doc) && depth > 0
    ensures StyledElems(doc, Spaces(3 * depth), es) == doc + LaidElems(es, depth)
    ensures Open(doc + LaidElems(es, depth))
    decreases es, 0
  {
    hide Open, Indented, Styled, Laid, Spaces, Due, Proper;
    var indent, text := Spaces(3 * depth), Laid(es[0], depth);
    var line := doc + "\n" + indent;
    NewLine(doc, indent);
    Indentation(doc, depth);
    StyledIs(line, es[0], depth);
    LaidEnds(es[0], depth);
    OpenMore(line, text);
    assert line + text == doc + ("\n" + indent + text);
    if |es| > 1 {
      OpenComma(line + text);
      StyledElemsAre(line + text + ",", es[1..], depth);
      var more := LaidElems(es[1..], depth);
      assert line + text + "," + more == doc + ("\n" + indent + text + ("," + more));
    } else {
      assert "\n" + indent + text + "" == "\n" + indent + text;
    }
  }

  lemma Indentation(doc: string, depth: nat)
    requires depth > 0
    ensures Due(doc + "\n" + Spaces(3 * depth), depth)
  {
  }

  lemma OpenComma(doc: string)
    ensures Open(doc + ",")
  {
  }

  lemma {:induction false} StyledMembersAre(doc: string, ms: seq<Member>, depth: nat)
    requires ProperMembers(ms) && ms != [] && Open(doc) && depth > 0
    ensures StyledMembers(doc, Spaces(3 * depth), ms) == doc + LaidMembers(ms, depth)
    ensures Open(doc + LaidMembers(ms, depth))
    decreases ms, 0
  {
    hide Open, Indented, Styled, Laid, Spaces, Due, Proper, Quote;
    var indent, name, text := Spaces(3 * depth), Quote(CStr(ms[0].key)), Laid(ms[0].val, depth);
    var line := doc + "\n" + indent + name + " : ";
    NewLine(doc, indent);
    AfterName(doc + "\n" + indent + name, depth);
    StyledIs(line, ms[0].val, depth);
    LaidEnds(ms[0].val, depth);
    OpenMore(line, text);
    assert line + text == doc + ("\n" + indent + name + " : " + text);
    if |ms| > 1 {
      OpenComma(line + text);
      StyledMembersAre(line + text + ",", ms[1..], depth);
      var more := LaidMembers(ms[1..], depth);
      assert line + text + "," + more == doc + ("\n" + indent + name + " : " + text + ("," + more));
    } else {
      assert "\n" + indent + name + " : " + text + "" == "\n" + indent + name + " : " + text;
    }
  }

  lemma AfterName(doc: string, depth: nat)
    ensures Due(doc + " : ", depth)
  {
  }

  // The whole output
  lemma StyledRoot(v: Value)
    requires Proper(v)
    ensures Styled("", "", v) == Laid(v, 0)
  {
    assert Spaces(3 * 0) == "" && "" + Laid(v, 0) == Laid(v, 0);
    StyledIs("", v, 0);
  }

  // ---------- Strings ----------

  // Quotes, backslashes and the control characters 1 to 31 are escaped, and nothing else is
  lemma EscapedOnly(c: char)
    ensures EscapeChar(c) == [c] <==> c as int != 0x22 && c as int != 0x5C && !(1 <= c as int <= 0x1F)
    ensures EscapeChar(c) != [c] ==> |EscapeChar(c)| >= 2 && EscapeChar(c)[0] == '\\'
  {
  }

  // No control character is left, as section 7 of RFC 8259 demands
  lemma {:induction false} NoControls(s: string)
    requires NulFree(s)
    ensures forall i :: 0 <= i < |Escape(s)| ==> Escape(s)[i] as int >= 0x20
  {
    hide EscapeChar;
    if s != "" {
      NoControls(s[1..]);
      PrintableEscape(s[0]);
    }
  }

  lemma PrintableEscape(c: char)
    requires c != '\0'
    ensures forall i :: 0 <= i < |EscapeChar(c)| ==> EscapeChar(c)[i] as int >= 0x20
  {
  }
}
