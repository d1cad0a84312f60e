/**
  Which texts the reader of http_codec/json/json_reader.cpp accepts, and as which values: a grammar
  of documents, and the proof that the reader accepts a text exactly when a document derives it.
 */
module JsonGrammar {
  import opened Common
  import opened JsonValue
  import opened JsonScan
  import opened JsonParse
  import opened JsonLexeme
  import opened JsonLexical

  // What is written: a scalar, a list of documents, or a table of named ones, in the order of the text
  datatype Doc = Scalar(v: Value) | List(elems: seq<Doc>) | Table(entries: seq<Entry>)
  datatype Entry = Entry(name: string, doc: Doc)

  // ---------- Scalars ----------

  // A tenth of the magnitude has to stay below a tenth of the greatest one, or the number is a double
  ghost predicate IntegerFits(digits: string, negative: bool) {
    digits == "" || Denoted(digits[..|digits| - 1]) < if negative then 214748364 else 429496729
  }

  ghost predicate NumberDenotes(cfg: Config, text: string, v: Value) {
    var negative := text != "" && text[0] == '-';
    var digits := if negative then text[1..] else text;
    if LooksReal(text) || !IntegerFits(digits, negative) then
      cfg.scan(text).Double? && v == Real(cfg.scan(text).text)
    else if negative then v == Int(-Denoted(digits))
    else if Denoted(digits) <= 2147483647 then v == Int(Denoted(digits))
    else v == UInt(Denoted(digits))
  }

  ghost predicate ScalarDenotes(cfg: Config, t: Token, v: Value) {
    match t.kind
    case NullToken => v == Null
    case TrueToken => v == Bool(true)
    case FalseToken => v == Bool(false)
    case StringToken => DecodeToken(t.text).Decoded? && v == Str(CStr(DecodeToken(t.text).text))
    case NumberToken => NumberDenotes(cfg, t.text, v)
    case _ => false
  }

  lemma {:induction false} NumberTaken(s: string)
    ensures |SkipNumber(s)| <= |s| && forall i :: 0 <= i < |s| - |SkipNumber(s)| ==> IsNumberChar(s[i])
  {
    if s != "" && IsNumberChar(s[0]) {
      NumberTaken(s[1..]);
    }
  }

  lemma NumberTokenText(s: string)
    requires JsonScan.ReadToken(s).token.kind == NumberToken
    ensures NumberText(JsonScan.ReadToken(s).token.text)
  {
    hide SkipSpaces, SkipString, SkipComment;
    NumberTaken(Advance(SkipSpaces(s)));
  }

  // The digits of a number token that does not look like a double
  lemma IntegerDigits(text: string)
    requires NumberText(text) && !LooksReal(text)
    ensures AllDigits(if text[0] == '-' then text[1..] else text)
  {
    forall i | 0 <= i < |text| && (i > 0 || text[0] != '-') ensures '0' <= text[i] <= '9' {
      assert !RealMark(text, i);
    }
  }

  lemma NumberIs(cfg: Config, t: Token, rest: string, cur: Value, v: Value)
    requires NumberText(t.text)
    ensures DecodeNumber(cfg, t, rest, cur) == Outcome(true, v, rest, []) <==> NumberDenotes(cfg, t.text, v)
  {
    hide Accumulate, LooksReal, NumberText, Denoted;
    assert t.text != "" by { NumberNotEmpty(t.text); }
    if !LooksReal(t.text) {
      var negative := t.text[0] == '-';
      var digits := if negative then t.text[1..] else t.text;
      IntegerDigits(t.text);
      DigitsRead(digits, if negative then NEGATIVE_THRESHOLD else POSITIVE_THRESHOLD);
    }
  }

  lemma NumberNotEmpty(text: string)
    requires NumberText(text)
    ensures text != ""
  {
  }

  lemma ScalarIs(cfg: Config, t: Scan, cur: Value, v: Value)
    requires t.token.kind == NumberToken ==> NumberText(t.token.text)
    ensures ScalarOutcome(cfg, t, cur) == Outcome(true, v, t.rest, []) <==> ScalarDenotes(cfg, t.token, v)
  {
    hide DecodeNumber, DecodeToken, NumberDenotes, NumberText, CStr;
    if t.token.kind == NumberToken {
      NumberIs(cfg, t.token, t.rest, cur, v);
    }
  }

  // ---------- The grammar ----------

  // `s` begins with a text of the document, and `rest` is what follows
  ghost predicate IsText(cfg: Config, s: string, doc: Doc, rest: string)
    decreases doc, 1
  {
    var t := SkipCommentTokens(cfg, s);
    match doc
    case Scalar(v) => ScalarDenotes(cfg, t.token, v) && rest == t.rest
    case List(es) =>
      && t.token.kind == ArrayBegin
      && if es == [] then JsonScan.ReadToken(t.rest).token.kind == ArrayEnd && rest == JsonScan.ReadToken(t.rest).rest
         else IsElems(cfg, t.rest, es, rest)
    case Table(ms) => t.token.kind == ObjectBegin && IsEntries(cfg, t.rest, "", ms, rest)
  }

  // Documents with a token between each two of them, any but a closing bracket, and then a closing bracket
  ghost predicate IsElems(cfg: Config, s: string, es: seq<Doc>, rest: string)
    decreases es, 1
  {
    es != [] && exists r :: IsText(cfg, s, es[0], r) && ElemEnds(cfg, r, es, rest)
  }
  ghost predicate ElemEnds(cfg: Config, r: string, es: seq<Doc>, rest: string)
    requires es != []
    decreases es, 0
  {
    var t := PastComments(JsonScan.ReadToken(r));
    if |es| == 1 then t.token.kind == ArrayEnd && rest == t.rest
    else t.token.kind != ArrayEnd && IsElems(cfg, t.rest, es[1..], rest)
  }

  // Entries up to a closing brace; `name` is the one before
  ghost predicate IsEntries(cfg: Config, s: string, name: string, ms: seq<Entry>, rest: string)
    decreases ms, 2
  {
    var t := PastComments(JsonScan.ReadToken(s));
    if ms == [] then t.token.kind == ObjectEnd && name == "" && rest == t.rest
    else
      && t.token.kind == StringToken && DecodeToken(t.token.text) == Decoded(ms[0].name)
      && JsonScan.ReadToken(t.rest).token.kind == MemberSeparator
      && IsEntry(cfg, JsonScan.ReadToken(t.rest).rest, ms, rest)
  }

  ghost predicate IsEntry(cfg: Config, s: string, ms: seq<Entry>, rest: string)
    requires ms != []
    decreases ms, 1
  {
    exists r :: IsText(cfg, s, ms[0].doc, r) && EntryEnds(cfg, r, ms, rest)
  }

  // A comma, a brace or a comment behind an entry; behind a comment, any token
  ghost predicate EntryEnds(cfg: Config, r: string, ms: seq<Entry>, rest: string)
    requires ms != []
    decreases ms, 0
  {
    var t := JsonScan.ReadToken(r);
    var next := PastComments(t);
    t.token.kind in {ObjectEnd, ArraySeparator, CommentToken} &&
    if next.token.kind == ObjectEnd then |ms| == 1 && rest == next.rest
    else IsEntries(cfg, next.rest, ms[0].name, ms[1..], rest)
  }

  // ---------- The value of a document ----------

  function Denotes(doc: Doc): Value
    decreases doc, 1
  {
    match doc
    case Scalar(v) => v
    case List(es) => Arr(DenotesElems(es))
    case Table(ms) => Obj(PutAll([], DenotesEntries(ms)))
  }
  function DenotesElems(es: seq<Doc>): seq<Value>
    decreases es, 0
  {
    if es == [] then [] else [Denotes(es[0])] + DenotesElems(es[1..])
  }
  function DenotesEntries(ms: seq<Entry>): seq<Member>
    decreases ms, 0
  {
    if ms == [] then [] else [Member(CStr(ms[0].name), Denotes(ms[0].doc))] + DenotesEntries(ms[1..])
  }

  // ---------- What is derived is accepted ----------

  lemma TokenText(cfg: Config, s: string)
    ensures SkipCommentTokens(cfg, s).token.kind == NumberToken ==> NumberText(SkipCommentTokens(cfg, s).token.text)
  {
    hide NumberText, JsonScan.ReadToken;
    if JsonScan.ReadToken(s).token.kind == NumberToken {
      NumberTokenText(s);
    }
    PastText(JsonScan.ReadToken(s));
  }

  lemma {:induction false} PastText(t: Scan)
    requires t.token.kind == NumberToken ==> NumberText(t.token.text)
    ensures PastComments(t).token.kind == NumberToken ==> NumberText(PastComments(t).token.text)
    decreases |t.rest|, t.token.kind == CommentToken
  {
    hide NumberText, JsonScan.ReadToken;
    if t.token.kind == CommentToken {
      var u := JsonScan.ReadToken(t.rest);
      if u.token.kind == NumberToken {
        NumberTokenText(t.rest);
      }
      if u.token.kind != EndOfStream {
        PastText(u);
      }
    }
  }

  lemma {:induction false} TextRead(cfg: Config, s: string, doc: Doc, rest: string, cur: Value)
    requires IsText(cfg, s, doc, rest)
    ensures ReadValue(cfg, s, cur) == Outcome(true, Denotes(doc), rest, [])
    decreases doc, 1
  {
    hide JsonScan.ReadToken, SkipCommentTokens, PastComments, ScalarOutcome, ScalarDenotes, ReadElems, ReadMembers;
    hide IsElems, IsEntries, NumberText, SkipSpaces;
    var t := SkipCommentTokens(cfg, s);
    match doc {
      case Scalar(v) =>
        TokenText(cfg, s);
        ScalarIs(cfg, t, cur, v);
        ScalarKind(cfg, t.token, v);
      case List(es) =>
        if es == [] {
          EmptyRead(cfg, t.rest);
        } else {
          ElemsRead(cfg, t.rest, es, rest, []);
          FullRead(cfg, t.rest, es, rest);
          assert [] + DenotesElems(es) == DenotesElems(es);
        }
      case Table(ms) =>
        EntriesRead(cfg, t.rest, "", ms, rest, []);
    }
  }

  lemma ScalarKind(cfg: Config, t: Token, v: Value)
    requires ScalarDenotes(cfg, t, v)
    ensures t.kind in {NullToken, TrueToken, FalseToken, StringToken, NumberToken}
  {
  }

  lemma SameToken(s: string)
    ensures JsonScan.ReadToken(SkipSpaces(s)) == JsonScan.ReadToken(s)
  {
    hide SkipNumber, SkipString, SkipComment;
    assert SkipSpaces(SkipSpaces(s)) == SkipSpaces(s);
  }

  lemma BlanksFirst(cfg: Config, s: string)
    ensures JsonScan.ReadToken(SkipSpaces(s)) == JsonScan.ReadToken(s)
    ensures ReadElems(cfg, SkipSpaces(s), []) == ReadElems(cfg, s, [])
  {
    hide PastComments, Recover, ReadMembers, ArrayOutcome, ScalarOutcome;
    SameToken(s);
    hide SkipSpaces, JsonScan.ReadToken;
    assert ReadValue(cfg, SkipSpaces(s), Null) == ReadValue(cfg, s, Null);
  }

  lemma EmptyRead(cfg: Config, s: string)
    requires JsonScan.ReadToken(s).token.kind == ArrayEnd
    ensures ArrayOutcome(cfg, s) == Outcome(true, Arr([]), JsonScan.ReadToken(s).rest, [])
  {
    hide JsonScan.ReadToken, ReadElems;
    KindIs(s);
    BlanksFirst(cfg, s);
  }

  lemma NotClosed(cfg: Config, s: string, doc: Doc, rest: string)
    requires IsText(cfg, s, doc, rest)
    ensures JsonScan.ReadToken(s).token.kind != ArrayEnd
  {
    hide JsonScan.ReadToken, IsElems, IsEntries, NumberDenotes, DecodeToken;
  }

  lemma FullRead(cfg: Config, s: string, es: seq<Doc>, rest: string)
    requires IsElems(cfg, s, es, rest)
    ensures ArrayOutcome(cfg, s) == ReadElems(cfg, s, [])
  {
    hide IsText, ElemEnds;
    var r :| IsText(cfg, s, es[0], r) && ElemEnds(cfg, r, es, rest);
    NotClosed(cfg, s, es[0], r);
    OpenRead(cfg, s);
  }

  lemma {:induction false} ElemsRead(cfg: Config, s: string, es: seq<Doc>, rest: string, before: seq<Value>)
    requires IsElems(cfg, s, es, rest)
    ensures ReadElems(cfg, s, before) == Outcome(true, Arr(before + DenotesElems(es)), rest, [])
    decreases es, 0
  {
    hide JsonScan.ReadToken, PastComments, IsText, ReadValue, Denotes;
    var r :| IsText(cfg, s, es[0], r) && ElemEnds(cfg, r, es, rest);
    TextRead(cfg, s, es[0], r, Null);
    var e, t := Denotes(es[0]), PastComments(JsonScan.ReadToken(r));
    if |es| == 1 {
      assert DenotesElems(es) == [e] + DenotesElems(es[1..]) == [e];
    } else {
      ElemsRead(cfg, t.rest, es[1..], rest, before + [e]);
      assert (before + [e]) + DenotesElems(es[1..]) == before + DenotesElems(es);
    }
  }

  lemma {:induction false} EntriesRead(cfg: Config, s: string, name: string, ms: seq<Entry>, rest: string,
    before: seq<Member>)
    requires IsEntries(cfg, s, name, ms, rest)
    ensures ReadMembers(cfg, s, name, before) == Outcome(true, Obj(PutAll(before, DenotesEntries(ms))), rest, [])
    decreases ms, 0
  {
    hide JsonScan.ReadToken, PastComments, IsText, ReadValue, Denotes, DecodeToken, Put, Lookup, CStr;
    if ms != [] {
      var t := PastComments(JsonScan.ReadToken(s));
      var colon := JsonScan.ReadToken(t.rest);
      assert IsEntry(cfg, colon.rest, ms, rest);
      var r :| IsText(cfg, colon.rest, ms[0].doc, r) && EntryEnds(cfg, r, ms, rest);
      var key := CStr(ms[0].name);
      TextRead(cfg, colon.rest, ms[0].doc, r, Lookup(before, key));
      var x := Member(key, Denotes(ms[0].doc));
      FirstPut(before, x, DenotesEntries(ms[1..]));
      var next := PastComments(JsonScan.ReadToken(r));
      if next.token.kind == ObjectEnd {
        assert ms[1..] == [];
      } else {
        EntriesRead(cfg, next.rest, ms[0].name, ms[1..], rest, Put(before, key, x.val));
      }
    }
  }

  lemma FirstPut(before: seq<Member>, x: Member, ms: seq<Member>)
    ensures PutAll(before, [x] + ms) == PutAll(Put(before, x.key, x.val), ms)
  {
    assert ([x] + ms)[1..] == ms;
  }

  // ---------- What is accepted is derived ----------

  lemma ScalarDerived(cfg: Config, s: string, cur: Value)
    requires ReadValue(cfg, s, cur).ok && SkipCommentTokens(cfg, s).token.kind !in {ObjectBegin, ArrayBegin}
    ensures var r := ReadValue(cfg, s, cur); IsText(cfg, s, Scalar(r.value), r.rest)
  {
    hide SkipCommentTokens, ScalarOutcome, ScalarDenotes, NumberText;
    TokenText(cfg, s);
    ScalarIs(cfg, SkipCommentTokens(cfg, s), cur, ReadValue(cfg, s, cur).value);
  }

  lemma {:induction false} Derived(cfg: Config, s: string, cur: Value) returns (doc: Doc)
    requires ReadValue(cfg, s, cur).ok
    ensures IsText(cfg, s, doc, ReadValue(cfg, s, cur).rest) && Denotes(doc) == ReadValue(cfg, s, cur).value
    decreases |s|, 0
  {
    hide JsonScan.ReadToken, SkipCommentTokens, ArrayOutcome, ReadMembers, ScalarOutcome, ScalarDenotes;
    hide IsElems, IsEntries, PutAll;
    var t := SkipCommentTokens(cfg, s);
    if t.token.kind == ObjectBegin {
      var ms := EntriesDerived(cfg, t.rest, "", []);
      doc := Table(ms);
    } else if t.token.kind == ArrayBegin {
      if JsonScan.ReadToken(t.rest).token.kind == ArrayEnd {
        EmptyRead(cfg, t.rest);
        doc := List([]);
      } else {
        OpenRead(cfg, t.rest);
        var es := ElemsDerived(cfg, t.rest, []);
        doc := List(es);
        assert [] + DenotesElems(es) == DenotesElems(es);
      }
    } else {
      ScalarDerived(cfg, s, cur);
      doc := Scalar(ReadValue(cfg, s, cur).value);
    }
  }

  lemma OpenRead(cfg: Config, s: string)
    requires JsonScan.ReadToken(s).token.kind != ArrayEnd
    ensures ArrayOutcome(cfg, s) == ReadElems(cfg, s, [])
  {
    hide JsonScan.ReadToken, ReadElems;
    KindIs(s);
    BlanksFirst(cfg, s);
  }

  lemma {:induction false} ElemsDerived(cfg: Config, s: string, before: seq<Value>) returns (es: seq<Doc>)
    requires ReadElems(cfg, s, before).ok
    ensures es != [] && IsElems(cfg, s, es, ReadElems(cfg, s, before).rest)
    ensures ReadElems(cfg, s, before).value == Arr(before + DenotesElems(es))
    decreases |s|, 1
  {
    hide JsonScan.ReadToken, PastComments, IsText, ReadValue, Denotes, Recover;
    var e := ReadValue(cfg, s, Null);
    var doc := Derived(cfg, s, Null);
    var t := PastComments(JsonScan.ReadToken(e.rest));
    if t.token.kind == ArrayEnd {
      es := [doc];
      assert DenotesElems(es) == [e.value] + DenotesElems(es[1..]) == [e.value];
      assert ElemEnds(cfg, e.rest, es, t.rest);
    } else {
      var more := ElemsDerived(cfg, t.rest, before + [e.value]);
      es := [doc] + more;
      assert es[1..] == more;
      assert (before + [e.value]) + DenotesElems(more) == before + DenotesElems(es);
      assert ElemEnds(cfg, e.rest, es, ReadElems(cfg, s, before).rest);
    }
  }

  lemma {:induction false} EntriesDerived(cfg: Config, s: string, name: string, before: seq<Member>)
    returns (ms: seq<Entry>)
    requires ReadMembers(cfg, s, name, before).ok
    ensures IsEntries(cfg, s, name, ms, ReadMembers(cfg, s, name, before).rest)
    ensures ReadMembers(cfg, s, name, before).value == Obj(PutAll(before, DenotesEntries(ms)))
    decreases |s|, 1
  {
    hide JsonScan.ReadToken, PastComments, IsText, ReadValue, Denotes, DecodeToken, Put, Lookup, CStr, Recover;
    var t := PastComments(JsonScan.ReadToken(s));
    if t.token.kind == ObjectEnd && name == "" {
      ms := [];
    } else {
      var d, colon := DecodeToken(t.token.text), JsonScan.ReadToken(t.rest);
      var key := CStr(d.text);
      var e := ReadValue(cfg, colon.rest, Lookup(before, key));
      var doc := Derived(cfg, colon.rest, Lookup(before, key));
      var x := Entry(d.text, doc);
      var next := PastComments(JsonScan.ReadToken(e.rest));
      if next.token.kind == ObjectEnd {
        ms := [x];
        assert ms[1..] == [];
        FirstPut(before, Member(key, e.value), []);
        assert DenotesEntries(ms) == [Member(key, e.value)] + [];
        assert EntryEnds(cfg, e.rest, ms, next.rest);
      } else {
        var more := EntriesDerived(cfg, next.rest, d.text, Put(before, key, e.value));
        ms := [x] + more;
        assert ms[1..] == more;
        FirstPut(before, Member(key, e.value), DenotesEntries(more));
        assert EntryEnds(cfg, e.rest, ms, ReadMembers(cfg, s, name, before).rest);
      }
    }
  }

  // ---------- The theorem ----------

  // The reader accepts exactly the texts of documents, and makes of each the value it denotes
  lemma Accepts(cfg: Config, s: string, cur: Value, v: Value, rest: string)
    ensures ReadValue(cfg, s, cur) == Outcome(true, v, rest, []) <==>
      exists doc :: IsText(cfg, s, doc, rest) && Denotes(doc) == v
  {
    hide ReadValue, IsText, Denotes;
    if ReadValue(cfg, s, cur) == Outcome(true, v, rest, []) {
      var doc := Derived(cfg, s, cur);
    }
    if doc :| IsText(cfg, s, doc, rest) && Denotes(doc) == v {
      TextRead(cfg, s, doc, rest, cur);
    }
  }

  ghost predicate RootAllowed(cfg: Config, v: Value) { cfg.strictRoot ==> v.Null? || v.Arr? || v.Obj? }

  // A whole text is accepted when it begins with a document's, and that is a container or null if the root must be
  lemma ParseAccepts(cfg: Config, document: string, root: Value)
    ensures Parse(cfg, document, root).ok <==>
      exists doc, rest :: IsText(cfg, document, doc, rest) && RootAllowed(cfg, Denotes(doc))
  {
    hide ReadValue, IsText, Denotes, SkipCommentTokens;
    var r := ReadValue(cfg, document, root);
    if r.ok {
      var doc := Derived(cfg, document, root);
    }
    if doc, rest :| IsText(cfg, document, doc, rest) && RootAllowed(cfg, Denotes(doc)) {
      TextRead(cfg, document, doc, rest, root);
    }
  }

  // ---------- After an error ----------

  // What is left behind `n` tokens
  ghost function Behind(s: string, n: nat): string
    decreases n
  {
    if n == 0 then s else Behind(JsonScan.ReadToken(s).rest, n - 1)
  }

  ghost predicate StopsAt(s: string, n: nat, until: TokenType) {
    JsonScan.ReadToken(Behind(s, n)).token.kind in {until, EndOfStream}
  }

  // The reader goes on behind the first token of the kind it looks for, or at the end of the text
  lemma {:induction false} RecoverIs(s: string, until: TokenType) returns (n: nat)
    ensures StopsAt(s, n, until) && forall k: nat :: k < n ==> !StopsAt(s, k, until)
    ensures Recover(s, until) == JsonScan.ReadToken(Behind(s, n)).rest
    decreases |s|
  {
    hide JsonScan.ReadToken;
    var t := JsonScan.ReadToken(s);
    if t.token.kind == until || t.token.kind == EndOfStream {
      n := 0;
    } else {
      var m := RecoverIs(t.rest, until);
      n := m + 1;
      forall k: nat | k < n ensures !StopsAt(s, k, until) {
        if k > 0 {
          assert !StopsAt(t.rest, k - 1, until);
        }
      }
    }
  }

  // The message fits the token it is about
  ghost predicate Apt(e: Error) {
    || (e.message == SYNTAX && e.token.kind !in {ObjectBegin, ArrayBegin, NullToken, TrueToken, FalseToken})
    || (e.message == MISSING_COLON && e.token.kind != MemberSeparator)
    || (e.message == MISSING_COMMA && e.token.kind !in {ObjectEnd, ArraySeparator, CommentToken})
    || (e.message == MISSING_NAME && e.token.kind != StringToken)
    || (e.token.kind == NumberToken && e == NotANumber(e.token))
    || (e.token.kind == StringToken && DecodeToken(e.token.text) == BadText(e.message))
  }

  ghost predicate JustOne(errors: seq<Error>) { |errors| == 1 && Apt(errors[0]) }

  // A value that is not accepted is reported once, with a message that fits: what goes wrong while the reader
  // recovers is not reported
  lemma {:induction false} OneError(cfg: Config, s: string, cur: Value)
    ensures !ReadValue(cfg, s, cur).ok ==> JustOne(ReadValue(cfg, s, cur).errors)
    decreases |s|, 0
  {
    hide JsonScan.ReadToken, SkipCommentTokens, ReadMembers, ReadElems, DecodeNumber, DecodeToken, SkipSpaces, Apt;
    var t := SkipCommentTokens(cfg, s);
    if t.token.kind == ObjectBegin {
      OneMemberError(cfg, t.rest, "", []);
    } else if t.token.kind == ArrayBegin {
      OneElemError(cfg, SkipSpaces(t.rest), []);
    } else {
      OneScalarError(cfg, t, cur);
    }
  }

  lemma OneScalarError(cfg: Config, t: Scan, cur: Value)
    requires t.token.kind != ObjectBegin && t.token.kind != ArrayBegin
    ensures !ScalarOutcome(cfg, t, cur).ok ==> JustOne(ScalarOutcome(cfg, t, cur).errors)
  {
    hide DecodeNumber, DecodeToken;
    if t.token.kind == NumberToken {
      OneNumberError(cfg, t.token, t.rest, cur);
    }
  }

  lemma OneNumberError(cfg: Config, t: Token, rest: string, cur: Value)
    ensures !DecodeNumber(cfg, t, rest, cur).ok ==> DecodeNumber(cfg, t, rest, cur).errors == [NotANumber(t)]
  {
    hide Accumulate, LooksReal;
  }

  lemma {:induction false} OneElemError(cfg: Config, s: string, elems: seq<Value>)
    ensures !ReadElems(cfg, s, elems).ok ==> JustOne(ReadElems(cfg, s, elems).errors)
    decreases |s|, 1
  {
    hide JsonScan.ReadToken, PastComments, ReadValue, Recover, Apt;
    OneError(cfg, s, Null);
    var e := ReadValue(cfg, s, Null);
    var t := PastComments(JsonScan.ReadToken(e.rest));
    if e.ok && t.token.kind != ArrayEnd {
      OneElemError(cfg, t.rest, elems + [e.value]);
    }
  }

  lemma {:induction false} OneMemberError(cfg: Config, s: string, name: string, members: seq<Member>)
    ensures !ReadMembers(cfg, s, name, members).ok ==> JustOne(ReadMembers(cfg, s, name, members).errors)
    decreases |s|, 2
  {
    hide JsonScan.ReadToken, PastComments, MemberStep, Recover;
    var t := PastComments(JsonScan.ReadToken(s));
    if t.token.kind == StringToken {
      OneStepError(cfg, t.token, t.rest, members);
      match MemberStep(cfg, t.token, t.rest, members) {
        case Done(_) =>
        case More(rest, name', members') => OneMemberError(cfg, rest, name', members');
      }
    }
  }

  lemma OneStepError(cfg: Config, t: Token, s: string, members: seq<Member>)
    requires t.kind == StringToken
    ensures var r := MemberStep(cfg, t, s, members); r.Done? && !r.outcome.ok ==> JustOne(r.outcome.errors)
    decreases |s|, 1
  {
    hide JsonScan.ReadToken, PastComments, ReadValue, Recover, DecodeToken, Put, Lookup;
    var d, colon := DecodeToken(t.text), JsonScan.ReadToken(s);
    if d.Decoded? && colon.token.kind == MemberSeparator {
      OneError(cfg, colon.rest, Lookup(members, CStr(d.text)));
    }
  }
}
