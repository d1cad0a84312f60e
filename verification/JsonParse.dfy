/**
  The recursive-descent reader of http_codec/json/json_reader.cpp, as functions of the unread text.
 */
module JsonParse {
  import opened Common
  import opened JsonValue
  import opened JsonScan

  // What sscanf("%lf") makes of a text: nothing, or a double, known by the text that prints it
  datatype Scanned = NoDouble | Double(text: string)

  datatype Config = Config(allowComments: bool, strictRoot: bool, scan: string -> Scanned)

  datatype Error = Error(message: string, token: Token)

  // `value` is what the current value holds when the call ends, also when it fails
  datatype Outcome = Outcome(ok: bool, value: Value, rest: string, errors: seq<Error>)

  const SYNTAX := "Syntax error: value, object or array expected."
  const MISSING_COLON := "Missing ':' after object member name"
  const MISSING_COMMA := "Missing ',' or '}' in object declaration"
  const MISSING_NAME := "Missing '}' or object member name"
  const BAD_ROOT := "A valid JSON document must be either an array or an object value."

  function NotANumber(t: Token): Error { Error("'" + t.text + "' is not a number.", t) }

  function SkipCommentTokens(cfg: Config, s: string): (r: Scan)
    ensures |r.rest| <= |s| && (r.token.kind != EndOfStream ==> |r.rest| < |s|) && Shaped(r.token)
  {
    if cfg.allowComments then PastComments(ReadToken(s)) else ReadToken(s)
  }

  // recoverFromError
  function Recover(s: string, until: TokenType): (r: string)
    ensures |r| <= |s|
    decreases |s|
  {
    var t := ReadToken(s);
    if t.token.kind == until || t.token.kind == EndOfStream then t.rest else Recover(t.rest, until)
  }

  function DecodeDouble(cfg: Config, t: Token, rest: string, cur: Value): Outcome {
    match cfg.scan(t.text)
    case NoDouble => Outcome(false, cur, rest, [NotANumber(t)])
    case Double(text) => Outcome(true, Real(text), rest, [])
  }

  function DecodeNumber(cfg: Config, t: Token, rest: string, cur: Value): (r: Outcome)
    ensures r.ok <==> r.errors == []
    ensures r.rest == rest
  {
    if LooksReal(t.text) then DecodeDouble(cfg, t, rest, cur) else
    var negative := Peek(t.text) == '-';
    var digits := if negative then t.text[1..] else t.text;
    match Accumulate(digits, 0, if negative then NEGATIVE_THRESHOLD else POSITIVE_THRESHOLD)
    case NotNumber => Outcome(false, cur, rest, [NotANumber(t)])
    case TooLarge => DecodeDouble(cfg, t, rest, cur)
    case Value(n) => Outcome(true, if negative then Int(-n) else if n <= MAX_INT then Int(n) else UInt(n), rest, [])
  }

  // The switch of readValue on a token that starts no container
  function ScalarOutcome(cfg: Config, t: Scan, cur: Value): (r: Outcome)
    ensures r.rest == t.rest && (r.ok <==> r.errors == [])
    ensures r.ok ==> t.token.kind != EndOfStream
  {
    match t.token.kind
    case NumberToken => DecodeNumber(cfg, t.token, t.rest, cur)
    case StringToken =>
      var d := DecodeToken(t.token.text);
      if d.BadText? then Outcome(false, cur, t.rest, [Error(d.message, t.token)])
      else Outcome(true, Str(CStr(d.text)), t.rest, [])
    case TrueToken => Outcome(true, Bool(true), t.rest, [])
    case FalseToken => Outcome(true, Bool(false), t.rest, [])
    case NullToken => Outcome(true, Null, t.rest, [])
    case _ => Outcome(false, cur, t.rest, [Error(SYNTAX, t.token)])
  }

  function ReadValue(cfg: Config, s: string, cur: Value): (r: Outcome)
    ensures |r.rest| <= |s| && (r.ok ==> |r.rest| < |s|)
    ensures r.ok <==> r.errors == []
    decreases |s|, 0
  {
    var t := SkipCommentTokens(cfg, s);
    if t.token.kind == ObjectBegin then ReadMembers(cfg, t.rest, "", [])
    else if t.token.kind == ArrayBegin then ArrayOutcome(cfg, t.rest)
    else ScalarOutcome(cfg, t, cur)
  }

  // The loop of readArray; any token but ']' after an element leads to the next one
  function ReadElems(cfg: Config, s: string, elems: seq<Value>): (r: Outcome)
    ensures |r.rest| <= |s| && (r.ok ==> |r.rest| < |s|)
    ensures r.ok <==> r.errors == []
    decreases |s|, 1
  {
    var e := ReadValue(cfg, s, Null);
    var elems' := elems + [e.value];
    if !e.ok then Outcome(false, Arr(elems'), Recover(e.rest, ArrayEnd), e.errors) else
    var t := PastComments(ReadToken(e.rest));
    if t.token.kind == ArrayEnd then Outcome(true, Arr(elems'), t.rest, [])
    else ReadElems(cfg, t.rest, elems')
  }

  // readArray, after the bracket
  function ArrayOutcome(cfg: Config, s: string): (r: Outcome)
    ensures |r.rest| <= |s|
    ensures r.ok <==> r.errors == []
    decreases |s|, 2
  {
    var u := SkipSpaces(s);
    if Peek(u) == ']' then Outcome(true, Arr([]), ReadToken(u).rest, []) else ReadElems(cfg, u, [])
  }

  function Fail(members: seq<Member>, rest: string, errors: seq<Error>): Outcome {
    Outcome(false, Obj(members), Recover(rest, ObjectEnd), errors)
  }

  // One round of readObject: the object is finished, or another member follows
  datatype Step = Done(outcome: Outcome) | More(rest: string, name: string, members: seq<Member>)

  // The token after a member's value
  function AfterMember(s: string, name: string, members: seq<Member>): (r: Step)
    ensures r.Done? ==> |r.outcome.rest| <= |s| && (r.outcome.ok <==> r.outcome.errors == [])
    ensures r.More? ==> |r.rest| <= |s|
  {
    var comma := ReadToken(s);
    if comma.token.kind !in {ObjectEnd, ArraySeparator, CommentToken} then
      Done(Fail(members, comma.rest, [Error(MISSING_COMMA, comma.token)]))
    else
    var next := PastComments(comma);
    if next.token.kind == ObjectEnd then Done(Outcome(true, Obj(members), next.rest, []))
    else More(next.rest, name, members)
  }

  // From the name token `t` of a member through the token after its value
  function MemberStep(cfg: Config, t: Token, s: string, members: seq<Member>): (r: Step)
    ensures r.Done? ==> |r.outcome.rest| <= |s| && (r.outcome.ok <==> r.outcome.errors == [])
    ensures r.More? ==> |r.rest| < |s|
    decreases |s|, 1
  {
    var d := DecodeToken(t.text);
    if d.BadText? then Done(Fail(members, s, [Error(d.message, t)])) else
    var colon := ReadToken(s);
    if colon.token.kind != MemberSeparator then
      Done(Fail(members, colon.rest, [Error(MISSING_COLON, colon.token)])) else
    var key := CStr(d.text);
    var e := ReadValue(cfg, colon.rest, Lookup(members, key));
    var members' := Put(members, key, e.value);
    if !e.ok then Done(Fail(members', e.rest, e.errors)) else AfterMember(e.rest, d.text, members')
  }

  // The loop of readObject; `name` is the member name read last
  function ReadMembers(cfg: Config, s: string, name: string, members: seq<Member>): (r: Outcome)
    ensures |r.rest| <= |s| && (r.ok ==> |r.rest| < |s|)
    ensures r.ok <==> r.errors == []
    decreases |s|, 1
  {
    var t := PastComments(ReadToken(s));
    if t.token.kind == ObjectEnd && name == "" then Outcome(true, Obj(members), t.rest, [])
    else if t.token.kind != StringToken then Fail(members, t.rest, [Error(MISSING_NAME, t.token)])
    else
      match MemberStep(cfg, t.token, t.rest, members)
      case Done(outcome) => outcome
      case More(rest, name', members') => ReadMembers(cfg, rest, name', members')
  }

  // Value::isArray and Value::isObject: null counts as either
  predicate IsArray(v: Value) { v.Null? || v.Arr? }
  predicate IsObject(v: Value) { v.Null? || v.Obj? }

  // parse: what follows the first value is not looked at
  function Parse(cfg: Config, document: string, root: Value): (r: Outcome)
    ensures r.ok <==> r.errors == []
  {
    var r := ReadValue(cfg, document, root);
    var rest := SkipCommentTokens(cfg, r.rest).rest;
    if cfg.strictRoot && !IsArray(r.value) && !IsObject(r.value) then
      Outcome(false, r.value, rest, r.errors + [Error(BAD_ROOT, Token(ErrorToken, document))])
    else Outcome(r.ok, r.value, rest, r.errors)
  }
}
