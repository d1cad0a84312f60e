/**
  The printers of http_codec/json/json_writer.cpp.
 */
module JsonWriter {
  import opened Common
  import opened JsonValue
  import opened JsonScan
  import opened JsonText
  import opened JsonPrint

  // ---------- Numbers ----------

  const BUFFER_SIZE := 32

  lemma {:induction false} DecShort(n: int, digits: nat)
    requires 0 <= n < Pow10(digits) && digits >= 1
    ensures |Dec(n)| <= digits
  {
    if n >= 10 {
      DecShort(n / 10, digits - 1);
    }
  }

  function Pow10(k: nat): (p: nat)
    ensures p >= 1
  {
    if k == 0 then 1 else 10 * Pow10(k - 1)
  }

  lemma UIntShort(n: int)
    requires 0 <= n <= MAX_UINT
    ensures |Dec(n)| <= 10
  {
    assert Pow10(5) == 100000;
    assert Pow10(10) == 100000 * Pow10(5);
    DecShort(n, 10);
  }

  lemma DecStep(n: int, tail: string)
    requires n >= 0
    ensures Dec(n) + tail == (if n / 10 == 0 then "" else Dec(n / 10)) + ([('0' as int + n % 10) as char] + tail)
  {
  }

  // uintToString: the digits go into the buffer from its end, before a NUL
  method UintToString(value: int, buffer: array<char>, current: nat) returns (start: nat)
    requires 0 <= value <= MAX_UINT && 11 <= current <= buffer.Length
    modifies buffer
    ensures current - 11 <= start < current - 1
    ensures buffer[start..current - 1] == Dec(value) && buffer[current - 1] == '\0'
    ensures buffer[..start] == old(buffer[..start]) && buffer[current..] == old(buffer[current..])
  {
    UIntShort(value);
    start := current - 1;
    buffer[start] := '\0';
    var rest, more := value, true;
    while more
      invariant 0 <= rest <= MAX_UINT && start < current && buffer[current - 1] == '\0'
      invariant Dec(value) == (if more then Dec(rest) else "") + buffer[start..current - 1]
      invariant !more ==> start < current - 1
      invariant buffer[..start] == old(buffer[..start]) && buffer[current..] == old(buffer[current..])
      decreases rest, more
    {
      DecStep(rest, buffer[start..current - 1]);
      ghost var tail := buffer[start..current - 1];
      start := start - 1;
      buffer[start] := ('0' as int + rest % 10) as char;
      assert buffer[start..current - 1] == [buffer[start]] + tail;
      rest := rest / 10;
      more := rest != 0;
    }
  }

  lemma CStrOf(text: string, more: string)
    requires NulFree(text)
    ensures CStr(text + "\0" + more) == text
  {
    if text == [] {
    } else {
      CStrOf(text[1..], more);
      assert (text + "\0" + more)[1..] == text[1..] + "\0" + more;
      assert text == [text[0]] + text[1..];
    }
  }

  // valueToString( Int ); the negation is two's complement, so that of the least Int is itself
  method IntToString(value: int) returns (text: string)
    requires MIN_INT <= value <= MAX_INT
    ensures text == IntText(value)
  {
    hide Dec, CStr;
    var buffer := new char[BUFFER_SIZE];
    var isNegative := value < 0;
    var v := if isNegative && value != MIN_INT then -value else value;
    var magnitude := if v < 0 then v + 0x1_0000_0000 else v;
    var current := UintToString(magnitude, buffer, BUFFER_SIZE);
    if isNegative {
      assert buffer[current..BUFFER_SIZE - 1] == Dec(magnitude);
      current := current - 1;
      buffer[current] := '-';
      assert buffer[current..BUFFER_SIZE - 1] == "-" + Dec(magnitude);
    }
    assert |buffer[current..]| == |IntText(value)| + 1;
    assert buffer[current..] == IntText(value) + "\0" + "";
    CStrOf(IntText(value), "");
    text := CStr(buffer[current..]);
  }

  // valueToString( UInt )
  method UIntToString(value: int) returns (text: string)
    requires 0 <= value <= MAX_UINT
    ensures text == Dec(value)
  {
    var buffer := new char[BUFFER_SIZE];
    var current := UintToString(value, buffer, BUFFER_SIZE);
    assert buffer[current..] == Dec(value) + "\0" + "";
    CStrOf(Dec(value), "");
    text := CStr(buffer[current..]);
  }

  // ---------- Strings ----------

  // The character at a place of a C string, with the NUL at its end
  function At(value: string, i: nat): char {
    if i < |value| then value[i] else '\0'
  }

  predicate IsSpecial(c: char) {
    c == '"' || c == '\\' || c == BACKSPACE || c == FORM_FEED || c == '\n' || c == '\r' || c == '\t'
  }

  lemma CStrStep(value: string, i: nat)
    requires i <= |value|
    ensures At(value, i) == '\0' ==> CStr(value[i..]) == []
    ensures At(value, i) != '\0' ==> CStr(value[i..]) == [value[i]] + CStr(value[i + 1..])
  {
    if i < |value| {
      assert value[i..][1..] == value[i + 1..];
    }
  }

  // Also strpbrk( value, "\"\\\b\f\n\r\t" ) != NULL
  method ContainsCharacter(value: string, special: char -> bool) returns (found: bool)
    ensures found <==> exists c :: c in CStr(value) && special(c)
  {
    var i := 0;
    while At(value, i) != '\0'
      invariant i <= |value|
      invariant (exists c :: c in CStr(value) && special(c)) <==> exists c :: c in CStr(value[i..]) && special(c)
      decreases |value| - i
    {
      CStrStep(value, i);
      if special(value[i]) {
        assert value[i] in CStr(value[i..]);
        return true;
      }
      i := i + 1;
    }
    CStrStep(value, i);
    found := false;
  }

  lemma {:induction false} NothingToEscape(s: string)
    requires forall c :: c in s ==> !IsSpecial(c) && !IsControl(c)
    ensures Escape(s) == s
  {
    if s != [] {
      assert s[0] in s;
      assert s == [s[0]] + s[1..];
      NothingToEscape(s[1..]);
    }
  }

  // setw( 4 ), setfill( '0' ), hex, uppercase
  method HexText(c: char) returns (text: string)
    requires IsControl(c)
    ensures text == "00" + [Hex(c as int / 16), Hex(c as int % 16)]
  {
    var n, digits := c as int, "";
    while n != 0
      invariant 0 <= n <= c as int && |digits| <= 2
      invariant |digits| == 0 ==> n == c as int
      invariant |digits| == 1 ==> n == c as int / 16 && digits == [Hex(c as int % 16)]
      invariant |digits| == 2 ==> n == 0 && digits == [Hex(c as int / 16), Hex(c as int % 16)]
    {
      digits := [Hex(n % 16)] + digits;
      n := n / 16;
    }
    text := digits;
    while |text| < 4
      invariant |digits| <= |text| <= 4
      invariant text == seq(|text| - |digits|, _ => '0') + digits
    {
      text := "0" + text;
    }
  }

  method EscapedChar(c: char) returns (text: string)
    requires c != '\0'
    ensures text == EscapeChar(c)
  {
    if c == '"' { return "\\\""; }
    if c == '\\' { return "\\\\"; }
    if c == BACKSPACE { return "\\b"; }
    if c == FORM_FEED { return "\\f"; }
    if c == '\n' { return "\\n"; }
    if c == '\r' { return "\\r"; }
    if c == '\t' { return "\\t"; }
    if IsControl(c) {
      text := HexText(c);
      text := "\\u" + text;
    } else {
      text := [c];
    }
  }

  // valueToQuotedString, with its short cut for strings that need no escape
  method ValueToQuotedString(value: string) returns (result: string)
    ensures result == Quote(CStr(value))
  {
    var special := ContainsCharacter(value, IsSpecial);
    if !special {
      var control := ContainsCharacter(value, IsControl);
      if !control {
        NothingToEscape(CStr(value));
        return "\"" + CStr(value) + "\"";
      }
    }
    result := EscapeAll(value);
    Assoc("\"", Escape(CStr(value)), "\"");
    result := result + "\"";
  }

  // What is still to be escaped
  ghost function EscapeFrom(value: string, i: nat): string
    requires i <= |value|
  {
    Escape(CStr(value[i..]))
  }

  lemma EscapeStep(value: string, i: nat)
    requires i <= |value|
    ensures At(value, i) == '\0' ==> EscapeFrom(value, i) == ""
    ensures At(value, i) != '\0' ==> EscapeFrom(value, i) == EscapeChar(value[i]) + EscapeFrom(value, i + 1)
  {
    hide CStr;
    CStrStep(value, i);
    if At(value, i) != '\0' {
      var s := CStr(value[i + 1..]);
      assert ([value[i]] + s)[1..] == s;
    }
  }

  method EscapeAll(value: string) returns (result: string)
    ensures result == "\"" + Escape(CStr(value))
  {
    hide Escape, CStr, EscapeChar, EscapeFrom;
    result := "\"";
    var i := 0;
    assert EscapeFrom(value, 0) == Escape(CStr(value)) by { EscapeFromStart(value); }
    while At(value, i) != '\0'
      invariant i <= |value|
      invariant result + EscapeFrom(value, i) == "\"" + Escape(CStr(value))
      decreases |value| - i
    {
      EscapeStep(value, i);
      var text := EscapedChar(value[i]);
      Assoc(result, text, EscapeFrom(value, i + 1));
      result := result + text;
      i := i + 1;
    }
    EscapeStep(value, i);
    assert result + "" == result;
  }

  lemma EscapeFromStart(value: string)
    ensures EscapeFrom(value, 0) == Escape(CStr(value))
  {
    assert value[0..] == value;
  }

  // ---------- Values a C++ program can hold ----------

  ghost predicate Fits(v: Value)
    decreases v, 1
  {
    match v
    case Int(i) => MIN_INT <= i <= MAX_INT
    case UInt(u) => 0 <= u <= MAX_UINT
    case Arr(es) => forall i :: 0 <= i < |es| ==> Fits(es[i])
    case Obj(ms) => forall i :: 0 <= i < |ms| ==> Fits(ms[i].val)
    case _ => true
  }

  method LeafToString(v: Value) returns (text: string)
    requires Fits(v) && IsLeaf(v)
    ensures text == LeafText(v)
  {
    match v {
      case Null => text := "null";
      case Int(i) => text := IntToString(i);
      case UInt(u) => text := UIntToString(u);
      case Real(t) => text := t;
      case Str(s) => text := ValueToQuotedString(s);
      case Bool(b) => text := BoolText(b);
      case Arr(_) => text := "[]";
      case Obj(_) => text := "{}";
    }
  }

  lemma Regroup(a: string, b: string, c: string, d: string)
    ensures a + (b + c + d) == a + b + c + d
  {
  }

  // ---------- FastWriter ----------

  class FastWriter {
    var yaml: bool
    var document: string

    constructor ()
      ensures !yaml
    {
      yaml, document := false, "";
    }

    method EnableYamlCompatibility()
      modifies this`yaml
      ensures yaml
    {
      yaml := true;
    }

    method Write(root: Value) returns (text: string)
      requires Fits(root)
      modifies this`document
      ensures text == document == FastText(yaml, root) + "\n"
    {
      document := "";
      WriteValue(root);
      document := document + "\n";
      return document;
    }

    method WriteValue(value: Value)
      requires Fits(value)
      modifies this`document
      ensures document == old(document) + FastText(yaml, value)
      decreases value, 1
    {
      match value {
        case Arr(es) => WriteArray(es);
        case Obj(ms) => WriteObject(ms);
        case _ =>
          var text := LeafToString(value);
          document := document + text;
      }
    }

    // What the loops of writeValue have still to write before element `i`
    ghost function ElemsFrom(es: seq<Value>, i: nat): string
      requires i <= |es|
      reads this`yaml
    {
      if i == 0 then FastElems(yaml, es) else if i == |es| then "" else "," + FastElems(yaml, es[i..])
    }

    ghost function MembersFrom(ms: seq<Member>, i: nat): string
      requires i <= |ms|
      reads this`yaml
    {
      if i == 0 then FastMembers(yaml, ms) else if i == |ms| then "" else "," + FastMembers(yaml, ms[i..])
    }

    lemma ElemsEnds(es: seq<Value>)
      ensures ElemsFrom(es, 0) == FastElems(yaml, es) && ElemsFrom(es, |es|) == ""
    {
    }

    lemma MembersEnds(ms: seq<Member>)
      ensures MembersFrom(ms, 0) == FastMembers(yaml, ms) && MembersFrom(ms, |ms|) == ""
    {
    }

    lemma ElemsStep(es: seq<Value>, i: nat)
      requires i < |es|
      ensures ElemsFrom(es, i) == (if i > 0 then "," else "") + FastText(yaml, es[i]) + ElemsFrom(es, i + 1)
    {
      assert es[i..][1..] == es[i + 1..] && es[0..] == es;
      Assoc(",", FastText(yaml, es[i]), ElemsFrom(es, i + 1));
    }

    lemma MembersStep(ms: seq<Member>, i: nat)
      requires i < |ms|
      ensures MembersFrom(ms, i) ==
        (if i > 0 then "," else "") + (Quote(CStr(ms[i].key)) + Colon(yaml) + FastText(yaml, ms[i].val))
          + MembersFrom(ms, i + 1)
    {
      hide Quote, CStr, Colon;
      assert ms[i..][1..] == ms[i + 1..] && ms[0..] == ms;
      Assoc(",", Quote(CStr(ms[i].key)) + Colon(yaml) + FastText(yaml, ms[i].val), MembersFrom(ms, i + 1));
    }

    method WriteArray(es: seq<Value>)
      requires forall i :: 0 <= i < |es| ==> Fits(es[i])
      modifies this`document
      ensures document == old(document) + FastText(yaml, Arr(es))
      decreases es, 1
    {
      hide FastElems, ElemsFrom, Fits;
      ElemsEnds(es);
      document := document + "[";
      var index := 0;
      while index < |es|
        invariant index <= |es|
        invariant document + ElemsFrom(es, index) == old(document) + "[" + FastElems(yaml, es)
      {
        WriteElem(es, index);
        index := index + 1;
      }
      document := document + "]";
      Regroup(old(document), "[", FastElems(yaml, es), "]");
    }

    method WriteElem(es: seq<Value>, index: nat)
      requires index < |es| && Fits(es[index])
      modifies this`document
      ensures document + ElemsFrom(es, index + 1) == old(document) + ElemsFrom(es, index)
      decreases es, 0
    {
      hide FastText, ElemsFrom;
      ElemsStep(es, index);
      var comma := if index > 0 then "," else "";
      document := document + comma;
      WriteValue(es[index]);
      Regroup(old(document), comma, FastText(yaml, es[index]), ElemsFrom(es, index + 1));
    }

    method WriteObject(ms: seq<Member>)
      requires forall i :: 0 <= i < |ms| ==> Fits(ms[i].val)
      modifies this`document
      ensures document == old(document) + FastText(yaml, Obj(ms))
      decreases ms, 2
    {
      hide FastMembers, MembersFrom, Fits;
      MembersEnds(ms);
      document := document + "{";
      var index := 0;
      while index < |ms|
        invariant index <= |ms|
        invariant document + MembersFrom(ms, index) == old(document) + "{" + FastMembers(yaml, ms)
      {
        WriteNext(ms, index);
        index := index + 1;
      }
      document := document + "}";
      Regroup(old(document), "{", FastMembers(yaml, ms), "}");
    }

    method WriteNext(ms: seq<Member>, index: nat)
      requires index < |ms| && Fits(ms[index].val)
      modifies this`document
      ensures document + MembersFrom(ms, index + 1) == old(document) + MembersFrom(ms, index)
      decreases ms, 1
    {
      hide FastText, MembersFrom, Quote, CStr, Colon;
      MembersStep(ms, index);
      var comma := if index > 0 then "," else "";
      document := document + comma;
      WriteMember(ms[index]);
      Regroup(old(document), comma, Quote(CStr(ms[index].key)) + Colon(yaml) + FastText(yaml, ms[index].val),
        MembersFrom(ms, index + 1));
    }

    method WriteMember(m: Member)
      requires Fits(m.val)
      modifies this`document
      ensures document == old(document) + (Quote(CStr(m.key)) + Colon(yaml) + FastText(yaml, m.val))
      decreases m, 0
    {
      ghost var before := document;
      var name := ValueToQuotedString(m.key);
      document := document + name;
      document := document + if yaml then ": " else ":";
      WriteValue(m.val);
      Regroup(before, name, Colon(yaml), FastText(yaml, m.val));
    }
  }

  // ---------- StyledWriter ----------

  class StyledWriter {
    const rightMargin := 74
    const indentSize := 3
    var document: string
    var indentString: string
    var addChildValues: bool
    var childValues: seq<string>

    constructor ()
      ensures !addChildValues
    {
      document, indentString, addChildValues, childValues := "", "", false, [];
    }

    method Write(root: Value) returns (text: string)
      requires Fits(root)
      modifies this
      ensures text == document == Styled("", "", root) + "\n"
    {
      document := "";
      addChildValues := false;
      indentString := "";
      WriteValue(root);
      document := document + "\n";
      return document;
    }

    method PushValue(value: string)
      modifies this`document, this`childValues
      ensures document == if addChildValues then old(document) else old(document) + value
      ensures childValues == if addChildValues then old(childValues) + [value] else old(childValues)
    {
      if addChildValues {
        childValues := childValues + [value];
      } else {
        document := document + value;
      }
    }

    method WriteIndent()
      modifies this`document
      ensures document == Indented(old(document), indentString)
    {
      if document != "" {
        var last := document[|document| - 1];
        if last == ' ' {
          return;
        }
        if last != '\n' {
          document := document + "\n";
        }
      }
      document := document + indentString;
    }

    method WriteWithIndent(value: string)
      modifies this`document
      ensures document == Indented(old(document), indentString) + value
    {
      WriteIndent();
      document := document + value;
    }

    method Indent()
      modifies this`indentString
      ensures indentString == old(indentString) + INDENT
    {
      indentString := indentString + seq(indentSize, _ => ' ');
    }

    // The assertion of unindent holds: what was there before the last indent comes back
    method Unindent(ghost before: string)
      requires indentString == before + INDENT
      modifies this`indentString
      ensures indentString == before
    {
      assert |indentString| >= indentSize;
      indentString := indentString[..|indentString| - indentSize];
    }

    // While child values are collected only leaves are written
    method WriteValue(value: Value)
      requires Fits(value) && (addChildValues ==> IsLeaf(value))
      modifies this`document, this`indentString, this`addChildValues, this`childValues
      ensures addChildValues == old(addChildValues) && indentString == old(indentString)
      ensures old(addChildValues) ==> document == old(document) && childValues == old(childValues) + [LeafText(value)]
      ensures !old(addChildValues) ==> document == Styled(old(document), indentString, value)
      decreases value, 3
    {
      match value {
        case Arr(es) => WriteArrayValue(es);
        case Obj(ms) =>
          if ms == [] {
            PushValue("{}");
          } else {
            WriteObjectValue(ms);
          }
        case _ =>
          var text := LeafToString(value);
          PushValue(text);
      }
    }

    method WriteObjectValue(ms: seq<Member>)
      requires ms != [] && !addChildValues && forall i :: 0 <= i < |ms| ==> Fits(ms[i].val)
      modifies this`document, this`indentString, this`addChildValues, this`childValues
      ensures !addChildValues && indentString == old(indentString)
      ensures document == Styled(old(document), indentString, Obj(ms))
      decreases ms, 2
    {
      WriteWithIndent("{");
      Indent();
      ghost var begun := document;
      var index := 0;
      while true
        invariant index < |ms| && !addChildValues && indentString == old(indentString) + INDENT
        invariant StyledMembers(document, indentString, ms[index..]) == StyledMembers(begun, indentString, ms)
        decreases |ms| - index
      {
        assert ms[index..][1..] == ms[index + 1..];
        WriteMember(ms[index]);
        index := index + 1;
        if index == |ms| {
          break;
        }
        document := document + ",";
      }
      Unindent(old(indentString));
      WriteWithIndent("}");
    }

    method WriteMember(m: Member)
      requires !addChildValues && Fits(m.val)
      modifies this`document, this`indentString, this`addChildValues, this`childValues
      ensures !addChildValues && indentString == old(indentString)
      ensures document == Styled(Indented(old(document), indentString) + Quote(CStr(m.key)) + " : ", indentString,
        m.val)
      decreases m, 0
    {
      var name := ValueToQuotedString(m.key);
      WriteWithIndent(name);
      document := document + " : ";
      WriteValue(m.val);
    }

    method WriteArrayValue(es: seq<Value>)
      requires (addChildValues ==> es == []) && forall i :: 0 <= i < |es| ==> Fits(es[i])
      modifies this`document, this`indentString, this`addChildValues, this`childValues
      ensures addChildValues == old(addChildValues) && indentString == old(indentString)
      ensures old(addChildValues) ==> document == old(document) && childValues == old(childValues) + ["[]"]
      ensures !old(addChildValues) ==> document == Styled(old(document), indentString, Arr(es))
      decreases es, 2
    {
      if es == [] {
        PushValue("[]");
      } else {
        var isArrayMultiLine := IsMultilineArray(es);
        if isArrayMultiLine {
          WriteLines(es);
        } else {
          assert |childValues| == |es|;
          document := document + "[ ";
          WriteRow(es);
          document := document + " ]";
        }
      }
    }

    // The leaf texts of all the elements, or none
    ghost predicate Collected(es: seq<Value>)
      reads this`childValues
    {
      childValues == LeafTexts(es) && !HasContainer(es)
    }

    ghost function LeafTexts(es: seq<Value>): seq<string> {
      seq(|es|, i requires 0 <= i < |es| => LeafText(es[i]))
    }

    lemma StyledLines(doc: string, indent: string, es: seq<Value>)
      requires MultiLine(es) && es != []
      ensures Styled(doc, indent, Arr(es)) ==
        Indented(StyledElems(Indented(doc, indent) + "[", indent + INDENT, es), indent) + "]"
    {
    }

    lemma StyledLeaf(doc: string, indent: string, v: Value)
      requires IsLeaf(v)
      ensures Styled(doc, indent, v) == doc + LeafText(v)
    {
    }

    method WriteLines(es: seq<Value>)
      requires es != [] && !addChildValues && forall i :: 0 <= i < |es| ==> Fits(es[i])
      requires MultiLine(es) && (Collected(es) || childValues == [])
      modifies this`document, this`indentString, this`addChildValues, this`childValues
      ensures !addChildValues && indentString == old(indentString)
      ensures document == Styled(old(document), indentString, Arr(es))
      decreases es, 1
    {
      hide Styled, Fits, MultiLine, Quote;
      StyledLines(document, indentString, es);
      WriteWithIndent("[");
      Indent();
      ghost var begun := document;
      var hasChildValue := childValues != [];
      var index := 0;
      while true
        invariant index < |es| && !addChildValues && indentString == old(indentString) + INDENT
        invariant hasChildValue ==> Collected(es)
        invariant StyledElems(document, indentString, es[index..]) == StyledElems(begun, indentString, es)
        decreases |es| - index
      {
        assert es[index..][1..] == es[index + 1..];
        if hasChildValue {
          StyledLeaf(Indented(document, indentString), indentString, es[index]);
          WriteWithIndent(childValues[index]);
        } else {
          WriteIndent();
          WriteValue(es[index]);
        }
        index := index + 1;
        if index == |es| {
          break;
        }
        document := document + ",";
      }
      Unindent(old(indentString));
      WriteWithIndent("]");
    }

    method WriteRow(es: seq<Value>)
      requires Collected(es)
      modifies this`document
      ensures document == old(document) + Row(es)
    {
      var index := 0;
      while index < |es|
        invariant index <= |es|
        invariant document + RowFrom(es, index) == old(document) + Row(es)
      {
        WriteCell(es, index);
        index := index + 1;
      }
    }

    method WriteCell(ghost es: seq<Value>, index: nat)
      requires index < |es| && Collected(es)
      modifies this`document
      ensures document + RowFrom(es, index + 1) == old(document) + RowFrom(es, index)
    {
      hide Row, RowFrom, LeafText;
      RowStep(es, index);
      var comma := if index > 0 then ", " else "";
      document := document + comma;
      document := document + childValues[index];
      Regroup(old(document), comma, LeafText(es[index]), RowFrom(es, index + 1));
    }

    ghost function RowFrom(es: seq<Value>, i: nat): string
      requires i <= |es|
    {
      if i == 0 then Row(es) else if i == |es| then "" else ", " + Row(es[i..])
    }

    lemma RowStep(es: seq<Value>, i: nat)
      requires i < |es|
      ensures RowFrom(es, i) == (if i > 0 then ", " else "") + LeafText(es[i]) + RowFrom(es, i + 1)
    {
      hide LeafText;
      assert es[i..][1..] == es[i + 1..] && es[0..] == es;
      Assoc(", ", LeafText(es[i]), RowFrom(es, i + 1));
    }

    method IsMultilineArray(es: seq<Value>) returns (isMultiLine: bool)
      requires es != [] && !addChildValues && forall i :: 0 <= i < |es| ==> Fits(es[i])
      modifies this`document, this`indentString, this`addChildValues, this`childValues
      ensures !addChildValues && document == old(document) && indentString == old(indentString)
      ensures isMultiLine <==> MultiLine(es)
      ensures Collected(es) || (isMultiLine && childValues == [])
      decreases es, 1
    {
      hide Fits, Styled, LeafText;
      var size := |es|;
      isMultiLine := size * 3 >= rightMargin;
      childValues := [];
      var index := 0;
      while index < size && !isMultiLine
        invariant index <= size
        invariant !isMultiLine ==> size * 3 < rightMargin && forall i :: 0 <= i < index ==> IsLeaf(es[i])
        invariant isMultiLine ==> size * 3 >= rightMargin || HasContainer(es)
      {
        isMultiLine := !IsLeaf(es[index]);
        index := index + 1;
      }
      if !isMultiLine {
        addChildValues := true;
        var lineLength := 4 + (size - 1) * 2;
        index := 0;
        while index < size
          invariant index <= size && addChildValues && document == old(document) && indentString == old(indentString)
          invariant childValues == LeafTexts(es)[..index]
          invariant lineLength + LeafLengths(es[index..]) == 4 + (size - 1) * 2 + LeafLengths(es)
        {
          assert es[index..][1..] == es[index + 1..];
          WriteValue(es[index]);
          lineLength := lineLength + |childValues[index]|;
          index := index + 1;
        }
        addChildValues := false;
        isMultiLine := lineLength >= rightMargin;
      }
    }
  }
}
