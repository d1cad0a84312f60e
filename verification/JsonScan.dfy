/**
  The tokenizer and the token decoders of http_codec/json/json_reader.cpp, as functions
  of the text that is still unread.  Past the end the reader sees a NUL character.
 */
module JsonScan {
  import opened Common
  import opened JsonValue

  const BACKSPACE := 8 as char
  const FORM_FEED := 12 as char

  datatype TokenType =
    | EndOfStream | ObjectBegin | ObjectEnd | ArrayBegin | ArrayEnd | StringToken | NumberToken
    | TrueToken | FalseToken | NullToken | ArraySeparator | MemberSeparator | CommentToken | ErrorToken

  datatype Token = Token(kind: TokenType, text: string)
  datatype Scan = Scan(token: Token, rest: string)

  predicate IsSpace(c: char) { c == ' ' || c == '\t' || c == '\r' || c == '\n' }
  predicate IsNumberChar(c: char) { IsDigit(c) || c == '.' || c == 'e' || c == 'E' || c == '+' || c == '-' }

  function Peek(s: string): char { if s == [] then '\0' else s[0] }
  function Advance(s: string): string { if s == [] then s else s[1..] }  // getNextChar

  function SkipSpaces(s: string): (r: string)
    ensures |r| <= |s| && (r == [] || !IsSpace(r[0]))
  {
    if s != [] && IsSpace(s[0]) then SkipSpaces(s[1..]) else s
  }

  function SkipNumber(s: string): (r: string)
    ensures |r| <= |s| && (r == [] || !IsNumberChar(r[0]))
  {
    if s != [] && IsNumberChar(s[0]) then SkipNumber(s[1..]) else s
  }

  datatype Skip = Skip(ok: bool, rest: string)

  // readString, after the opening quote
  function SkipString(s: string): (r: Skip)
    ensures |r.rest| <= |s| && (r.ok ==> |r.rest| < |s|)
    decreases |s|
  {
    if s == [] then Skip(false, s)
    else if s[0] == '\\' then
      var r := SkipString(Advance(s[1..]));
      r
    else if s[0] == '"' then Skip(true, s[1..])
    else SkipString(s[1..])
  }

  // readCStyleComment: up to a star with a slash behind it
  function ToStarSlash(s: string): (r: string)
    ensures |r| <= |s|
  {
    if s == [] then s
    else if s[0] == '*' && Peek(s[1..]) == '/' then s[1..]
    else ToStarSlash(s[1..])
  }

  // readCppStyleComment: through the end of the line
  function PastLine(s: string): (r: string)
    ensures |r| <= |s|
  {
    if s == [] then s
    else if s[0] == '\r' || s[0] == '\n' then s[1..]
    else PastLine(s[1..])
  }

  // readComment, after the first slash
  function SkipComment(s: string): (r: Skip)
    ensures |r.rest| <= |s|
  {
    var u := Advance(s);
    if Peek(s) == '*' then
      var v := ToStarSlash(u);
      Skip(Peek(v) == '/', Advance(v))
    else if Peek(s) == '/' then Skip(true, PastLine(u))
    else Skip(false, u)
  }

  function Match(s: string, pattern: string): (r: Skip)
    ensures |r.rest| <= |s|
  {
    if pattern <= s then Skip(true, s[|pattern|..]) else Skip(false, s)
  }

  // What follows the first character `c` of a token
  function ReadBody(c: char, s: string): (r: (TokenType, Skip))
    ensures |r.1.rest| <= |s|
  {
    match c
    case '{' => (ObjectBegin, Skip(true, s))
    case '}' => (ObjectEnd, Skip(true, s))
    case '[' => (ArrayBegin, Skip(true, s))
    case ']' => (ArrayEnd, Skip(true, s))
    case '"' => (StringToken, SkipString(s))
    case '/' => (CommentToken, SkipComment(s))
    case 't' => (TrueToken, Match(s, "rue"))
    case 'f' => (FalseToken, Match(s, "alse"))
    case 'n' => (NullToken, Match(s, "ull"))
    case ',' => (ArraySeparator, Skip(true, s))
    case ':' => (MemberSeparator, Skip(true, s))
    case '\0' => (EndOfStream, Skip(true, s))
    case _ => if IsDigit(c) || c == '-' then (NumberToken, Skip(true, SkipNumber(s))) else (ErrorToken, Skip(false, s))
  }

  // A string token has its two quotes, a number token its first character
  ghost predicate Shaped(t: Token) {
    (t.kind == StringToken ==> |t.text| >= 2) && (t.kind == NumberToken ==> t.text != "")
  }

  function ReadToken(s: string): (r: Scan)
    ensures |r.rest| <= |s| && Shaped(r.token)
    ensures r.token.kind != EndOfStream ==> |r.rest| < |s|
  {
    var u := SkipSpaces(s);
    var (kind, body) := ReadBody(Peek(u), Advance(u));
    Scan(Token(if body.ok then kind else ErrorToken, u[..|u| - |body.rest|]), body.rest)
  }

  // On to the first token that is no comment
  function PastComments(t: Scan): (r: Scan)
    ensures |r.rest| <= |t.rest| && r.token.kind != CommentToken
    ensures Shaped(t.token) ==> Shaped(r.token)
    ensures t.token.kind == CommentToken && r.token.kind != EndOfStream ==> |r.rest| < |t.rest|
    decreases |t.rest|, t.token.kind == CommentToken
  {
    if t.token.kind != CommentToken then t else
      var u := ReadToken(t.rest);
      if u.token.kind == EndOfStream then u else
        var r := PastComments(u);
        r
  }

  // ---------- Escapes ----------

  datatype Decoded = Decoded(text: string) | BadText(message: string)

  function HexDigit(c: char): (d: int)
    ensures -1 <= d < 16
  {
    if '0' <= c <= '9' then c as int - '0' as int
    else if 'a' <= c <= 'f' then c as int - 'a' as int + 10
    else if 'A' <= c <= 'F' then c as int - 'A' as int + 10
    else -1
  }

  // decodeUnicodeEscapeSequence: four hexadecimal digits, or -1
  function Hex4(s: string): (u: int)
    requires |s| >= 4
    ensures -1 <= u < 0x1_0000
  {
    var a, b, c, d := HexDigit(s[0]), HexDigit(s[1]), HexDigit(s[2]), HexDigit(s[3]);
    if a < 0 || b < 0 || c < 0 || d < 0 then -1 else ((a * 16 + b) * 16 + c) * 16 + d
  }

  datatype CodePoint = CodePoint(cp: int, rest: string) | BadCode(message: string)

  const FOUR_DIGITS := "Bad unicode escape sequence in string: four digits expected."
  const HEX_EXPECTED := "Bad unicode escape sequence in string: hexadecimal digit expected."
  const SIX_MORE := "additional six characters expected to parse unicode surrogate pair."
  const SECOND_HALF := "expecting another \\u token to begin the second half of a unicode surrogate pair"
  const EMPTY_ESCAPE := "Empty escape sequence in string"
  const BAD_ESCAPE := "Bad escape sequence in string"

  // decodeUnicodeEscapeSequence
  function Escape4(s: string): (r: CodePoint)
    ensures r.CodePoint? ==> 0 <= r.cp < 0x1_0000 && |s| >= 4 && r.rest == s[4..]
  {
    if |s| < 4 then BadCode(FOUR_DIGITS)
    else if Hex4(s) < 0 then BadCode(HEX_EXPECTED)
    else CodePoint(Hex4(s), s[4..])
  }

  // decodeUnicodeCodePoint, after the `u`; the second half of a pair is not checked to be one
  function ReadCodePoint(s: string): (r: CodePoint)
    ensures r.CodePoint? ==> 0 <= r.cp <= 0x10_FFFF && |r.rest| < |s|
  {
    var first := Escape4(s);
    if first.BadCode? || !(0xD800 <= first.cp <= 0xDBFF) then first
    else if |first.rest| < 6 then BadCode(SIX_MORE)
    else if first.rest[0] != '\\' || first.rest[1] != 'u' then BadCode(SECOND_HALF)
    else
      var second := Escape4(first.rest[2..]);
      if second.BadCode? then second
      else CodePoint(0x1_0000 + (first.cp % 0x400) * 0x400 + second.cp % 0x400, second.rest)
  }

  // codePointToUTF8
  function Utf8(cp: int): string
    requires 0 <= cp
  {
    if cp <= 0x7F then [cp as char]
    else if cp <= 0x7FF then [(0xC0 + cp / 0x40) as char, (0x80 + cp % 0x40) as char]
    else if cp <= 0xFFFF then
      [(0xE0 + cp / 0x1000) as char, (0x80 + cp / 0x40 % 0x40) as char, (0x80 + cp % 0x40) as char]
    else if cp <= 0x10_FFFF then
      [(0xF0 + cp / 0x4_0000) as char, (0x80 + cp / 0x1000 % 0x40) as char, (0x80 + cp / 0x40 % 0x40) as char,
        (0x80 + cp % 0x40) as char]
    else []
  }

  // The character a one-letter escape stands for
  function SimpleEscape(c: char): (r: string)
    ensures |r| <= 1
  {
    match c
    case '"' => "\""
    case '/' => "/"
    case '\\' => "\\"
    case 'b' => [BACKSPACE]
    case 'f' => [FORM_FEED]
    case 'n' => "\n"
    case 'r' => "\r"
    case 't' => "\t"
    case _ => []
  }

  function Prepend(text: string, d: Decoded): Decoded {
    if d.Decoded? then Decoded(text + d.text) else d
  }

  lemma PrependTwice(a: string, b: string, d: Decoded)
    ensures Prepend(a, Prepend(b, d)) == Prepend(a + b, d)
  {
    if d.Decoded? {
      assert a + (b + d.text) == a + b + d.text;
    }
  }

  // decodeString: `s` is the token without its two quotes
  function Decode(s: string): Decoded
    decreases |s|
  {
    if s == [] || s[0] == '"' then Decoded("")
    else if s[0] != '\\' then Prepend([s[0]], Decode(s[1..]))
    else if |s| == 1 then BadText(EMPTY_ESCAPE)
    else if s[1] == 'u' then
      var r := ReadCodePoint(s[2..]);
      if r.BadCode? then BadText(r.message) else Prepend(Utf8(r.cp), Decode(r.rest))
    else if SimpleEscape(s[1]) == [] then BadText(BAD_ESCAPE)
    else Prepend(SimpleEscape(s[1]), Decode(s[2..]))
  }

  // decodeString of a token
  function DecodeToken(text: string): Decoded {
    Decode(if |text| < 2 then "" else text[1..|text| - 1])
  }

  // ---------- Numbers ----------

  predicate RealMark(text: string, i: nat)
    requires i < |text|
  {
    text[i] == '.' || text[i] == 'e' || text[i] == 'E' || text[i] == '+' || (text[i] == '-' && i > 0)
  }

  predicate LooksReal(text: string) { exists i :: 0 <= i < |text| && RealMark(text, i) }

  datatype Accumulated = Value(n: int) | TooLarge | NotNumber

  // The digit loop of decodeNumber; before each digit is taken in, the value is compared with the threshold
  function Accumulate(s: string, value: int, threshold: int): Accumulated {
    if s == [] then Accumulated.Value(value)
    else if !IsDigit(s[0]) then NotNumber
    else if value >= threshold then TooLarge
    else Accumulate(s[1..], value * 10 + (s[0] as int - '0' as int), threshold)
  }

  const NEGATIVE_THRESHOLD := 0x8000_0000 / 10
  const POSITIVE_THRESHOLD := MAX_UINT / 10
}
