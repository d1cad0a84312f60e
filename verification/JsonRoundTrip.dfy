/**
  Reading a text that spells a value gives the value back, up to what the reader does to numbers.
 */
module JsonRoundTrip {
  import opened Common
  import opened JsonValue
  import opened JsonScan
  import opened JsonParse
  import opened JsonText
  import opened JsonLexeme

  const LEAST_EXACT := -2147483639
  const GREATEST_EXACT := 4294967289

  // ---------- What comes back ----------

  function Rescan(cfg: Config, text: string): Value {
    match cfg.scan(text)
    case NoDouble => Null
    case Double(t) => Real(t)
  }

  // The value read back: integers near the ends of their ranges turn into doubles, small unsigned ones signed,
  // and the members of an object are put into its map one after the other
  function Reread(cfg: Config, v: Value): Value
    decreases v, 1
  {
    match v
    case Int(i) => if i < LEAST_EXACT then Rescan(cfg, IntText(i)) else v
    case UInt(u) => if 0 <= u <= MAX_INT then Int(u) else if GREATEST_EXACT < u then Rescan(cfg, Dec(u)) else v
    case Real(text) => Rescan(cfg, text)
    case Arr(es) => Arr(RereadElems(cfg, es))
    case Obj(ms) => Obj(PutAll([], RereadMembers(cfg, ms)))
    case _ => v
  }
  function RereadElems(cfg: Config, es: seq<Value>): seq<Value>
    decreases es, 0
  {
    if es == [] then [] else [Reread(cfg, es[0])] + RereadElems(cfg, es[1..])
  }
  function RereadMembers(cfg: Config, ms: seq<Member>): seq<Member>
    decreases ms, 0
  {
    if ms == [] then [] else [Member(ms[0].key, Reread(cfg, ms[0].val))] + RereadMembers(cfg, ms[1..])
  }

  // sscanf makes a double of the text of every number in the value that the reader does not take for an integer
  ghost predicate Scans(cfg: Config, v: Value)
    decreases v, 1
  {
    match v
    case Int(i) => i < LEAST_EXACT ==> cfg.scan(IntText(i)).Double?
    case UInt(u) => GREATEST_EXACT < u ==> cfg.scan(Dec(u)).Double?
    case Real(text) => cfg.scan(text).Double?
    case Arr(es) => ScansElems(cfg, es)
    case Obj(ms) => ScansMembers(cfg, ms)
    case _ => true
  }
  ghost predicate ScansElems(cfg: Config, es: seq<Value>)
    decreases es, 0
  {
    es == [] || (Scans(cfg, es[0]) && ScansElems(cfg, es[1..]))
  }
  ghost predicate ScansMembers(cfg: Config, ms: seq<Member>)
    decreases ms, 0
  {
    ms == [] || (Scans(cfg, ms[0].val) && ScansMembers(cfg, ms[1..]))
  }

  ghost predicate IsNumber(v: Value) { v.Int? || v.UInt? || v.Real? }

  // ---------- Scalars ----------

  lemma ReadsDigits(cfg: Config, n: int, rest: string, cur: Value)
    requires 0 <= n <= MAX_UINT && Scans(cfg, UInt(n))
    ensures NumberText(Dec(n))
    ensures DecodeNumber(cfg, Token(TokenType.NumberToken, Dec(n)), rest, cur)
      == Outcome(true, Reread(cfg, UInt(n)), rest, [])
  {
    hide Dec, Accumulate, LooksReal;
    DecNotReal(n);
    DecBack(n, POSITIVE_THRESHOLD);
  }

  // The quotient by 10 of a magnitude is below the threshold exactly up to LEAST_EXACT
  lemma NegativeLimit(i: int)
    requires i < 0
    ensures -i / 10 < NEGATIVE_THRESHOLD <==> LEAST_EXACT <= i
  {
  }

  lemma ReadsNegative(cfg: Config, i: int, rest: string, cur: Value)
    requires MIN_INT <= i < 0 && Scans(cfg, Int(i))
    ensures NumberText(IntText(i))
    ensures DecodeNumber(cfg, Token(TokenType.NumberToken, IntText(i)), rest, cur)
      == Outcome(true, Reread(cfg, Int(i)), rest, [])
  {
    hide Dec, Accumulate, LooksReal, NumberText;
    DecNotReal(-i);
    DecBack(-i, NEGATIVE_THRESHOLD);
    NegativeLimit(i);
    assert ("-" + Dec(-i))[1..] == Dec(-i);
  }

  lemma ReadsReal(cfg: Config, text: string, rest: string, cur: Value)
    requires RealLexeme(text) && Scans(cfg, Real(text))
    ensures NumberText(text)
    ensures DecodeNumber(cfg, Token(TokenType.NumberToken, text), rest, cur)
      == Outcome(true, Reread(cfg, Real(text)), rest, [])
  {
    hide Accumulate;
  }

  lemma ReadsNumber(cfg: Config, v: Value, rest: string, cur: Value)
    requires Proper(v) && IsNumber(v) && Scans(cfg, v)
    ensures |Lexemes(v)| == 1 && NumberText(Lexemes(v)[0])
    ensures DecodeNumber(cfg, Token(TokenType.NumberToken, Lexemes(v)[0]), rest, cur)
      == Outcome(true, Reread(cfg, v), rest, [])
  {
    hide Dec, DecodeNumber, NumberText, RealLexeme;
    match v
    case Int(i) => if i < 0 { ReadsNegative(cfg, i, rest, cur); } else { ReadsDigits(cfg, i, rest, cur); }
    case UInt(u) => ReadsDigits(cfg, u, rest, cur);
    case Real(text) => ReadsReal(cfg, text, rest, cur);
  }

  // A token that is no comment is the one the reader looks at, and a scalar token is the whole value
  lemma ReadsToken(cfg: Config, s: string, cur: Value)
    requires JsonScan.ReadToken(s).token.kind !in {CommentToken, ObjectBegin, ArrayBegin}
    ensures ReadValue(cfg, s, cur) == ScalarOutcome(cfg, JsonScan.ReadToken(s), cur)
  {
    hide ScalarOutcome, JsonScan.ReadToken, ArrayOutcome, ReadMembers;
  }

  lemma ReadsScalar(cfg: Config, s: string, v: Value, cur: Value)
    requires Proper(v) && Scans(cfg, v) && !v.Arr? && !v.Obj?
    requires Eat(s, Lexemes(v)).Left? && (IsNumber(v) ==> NumberEnds(Eat(s, Lexemes(v)).rest))
    ensures ReadValue(cfg, s, cur) == Outcome(true, Reread(cfg, v), Eat(s, Lexemes(v)).rest, [])
  {
    hide JsonScan.ReadToken, ReadValue, Eat, DecodeNumber, DecodeToken, Quote, Dec, NumberText, NumberEnds, RealLexeme,
      Scans;
    var rest := Eat(s, Lexemes(v)).rest;
    if v.Null? {
      WordLexeme(s, "null");
    } else if v.Bool? {
      WordLexeme(s, BoolText(v.b));
    } else if v.Str? {
      StringLexeme(s, v.s);
    } else {
      ReadsNumber(cfg, v, rest, cur);
      NumberLexeme(s, Lexemes(v)[0]);
    }
    ReadsToken(cfg, s, cur);
  }

  // ---------- Containers ----------

  // The text of a value does not begin with a closing bracket
  lemma FirstLexeme(v: Value)
    requires Proper(v)
    ensures Lexemes(v) != [] && Lexemes(v)[0] != [] && Lexemes(v)[0][0] != ']' && !IsSpace(Lexemes(v)[0][0])
  {
    LexemesSolid(v);
  }

  // A lexeme of punctuation is the next token, and ends a number before it
  lemma PunctuationNext(s: string, c: char, more: seq<string>)
    requires Eat(s, [[c]] + more).Left? && PunctuationOf(c) != ErrorToken
    ensures NumberEnds(s) && Eat(s, [[c]]).Left?
    ensures JsonScan.ReadToken(s) == Scan(Token(PunctuationOf(c), [c]), Eat(s, [[c]]).rest)
    ensures Eat(s, [[c]] + more) == Eat(Eat(s, [[c]]).rest, more)
  {
    hide JsonScan.ReadToken, Eat;
    EatConcat(s, [[c]], more);
    PunctuationLexeme(s, c);
  }

  // One element and the token after it
  lemma ElemRound(cfg: Config, s: string, before: seq<Value>, e: Value, r: string, after: Scan)
    requires ReadValue(cfg, s, Null) == Outcome(true, e, r, [])
    requires JsonScan.ReadToken(r) == after && after.token.kind != CommentToken
    ensures ReadElems(cfg, s, before) ==
      if after.token.kind == ArrayEnd then Outcome(true, Arr(before + [e]), after.rest, [])
      else ReadElems(cfg, after.rest, before + [e])
  {
    hide JsonScan.ReadToken, ReadValue;
  }

  lemma {:induction false} ReadsElems(cfg: Config, s: string, es: seq<Value>, before: seq<Value>)
    requires es != [] && ProperElems(es) && ScansElems(cfg, es)
    requires Eat(s, ElemLexemes(es) + ["]"]).Left?
    ensures ReadElems(cfg, s, before) == Outcome(true, Arr(before + RereadElems(cfg, es)),
      Eat(s, ElemLexemes(es) + ["]"]).rest, [])
    decreases es, 0
  {
    hide JsonScan.ReadToken, ReadValue, ReadElems, Eat, Lexemes, Proper, Reread, Scans, NumberEnds;
    var first, e := Lexemes(es[0]), Reread(cfg, es[0]);
    var rest := ElemLexemes(es[1..]) + ["]"];
    var c, more := if |es| == 1 then ']' else ',', if |es| == 1 then [] else rest;
    Regroup(first, [","], ElemLexemes(es[1..]), ["]"]);
    assert ElemLexemes(es) + ["]"] == first + ([[c]] + more) by {
      assert ["]"] + [] == ["]"];
    }
    EatConcat(s, first, [[c]] + more);
    var r := Eat(s, first).rest;
    PunctuationNext(r, c, more);
    ReadsValue(cfg, s, es[0], Null);
    var after := JsonScan.ReadToken(r);
    ElemRound(cfg, s, before, e, r, after);
    if |es| == 1 {
      assert es[1..] == [];
      assert RereadElems(cfg, es) == [e];
      EatNothing(after.rest);
    } else {
      ReadsElems(cfg, after.rest, es[1..], before + [e]);
      Focus(before, e, RereadElems(cfg, es[1..]));
    }
  }

  lemma Regroup<T>(a: seq<T>, b: seq<T>, c: seq<T>, d: seq<T>)
    ensures a + b + c + d == a + (b + (c + d))
  {
  }

  lemma Focus<T>(a: seq<T>, x: T, b: seq<T>)
    ensures (a + [x]) + b == a + ([x] + b)
  {
  }

  lemma EatNothing(s: string)
    ensures Eat(s, []) == Left(s)
  {
  }

  // One member from its name to the token after its value
  lemma MemberRound(cfg: Config, s: string, name: string, before: seq<Member>, key: string, named: Scan, colon: Scan,
    e: Value, r: string, after: Scan)
    requires JsonScan.ReadToken(s) == named && named.token.kind == StringToken
    requires DecodeToken(named.token.text) == Decoded(key) && NulFree(key)
    requires JsonScan.ReadToken(named.rest) == colon && colon.token.kind == MemberSeparator
    requires ReadValue(cfg, colon.rest, Lookup(before, key)) == Outcome(true, e, r, [])
    requires JsonScan.ReadToken(r) == after && after.token.kind in {ObjectEnd, ArraySeparator}
    ensures ReadMembers(cfg, s, name, before) ==
      if after.token.kind == ObjectEnd then Outcome(true, Obj(Put(before, key, e)), after.rest, [])
      else ReadMembers(cfg, after.rest, key, Put(before, key, e))
  {
    hide JsonScan.ReadToken, ReadValue, DecodeToken, Put, Lookup, CStr;
    assert CStr(key) == key;
  }

  lemma {:induction false} ReadsMembers(cfg: Config, s: string, name: string, ms: seq<Member>, before: seq<Member>)
    requires ms != [] && ProperMembers(ms) && ScansMembers(cfg, ms)
    requires Eat(s, MemberLexemes(ms) + ["}"]).Left?
    ensures ReadMembers(cfg, s, name, before)
      == Outcome(true, Obj(PutAll(before, RereadMembers(cfg, ms))), Eat(s, MemberLexemes(ms) + ["}"]).rest, [])
    decreases ms, 0
  {
    hide JsonScan.ReadToken, ReadValue, ReadMembers, Eat, Lexemes, Quote, Proper, Reread, Scans, NumberEnds,
      DecodeToken;
    hide NulFree, StrLess, Put, Lookup;
    var x, value := ms[0], Lexemes(ms[0].val);
    var quoted, e := Quote(x.key), Reread(cfg, x.val);
    var rest := MemberLexemes(ms[1..]) + ["}"];
    var c, more := if |ms| == 1 then '}' else ',', if |ms| == 1 then [] else rest;
    Regroup([quoted, ":"] + value, [","], MemberLexemes(ms[1..]), ["}"]);
    assert ["}"] + [] == ["}"];
    assert MemberLexemes(ms) + ["}"] == [quoted, ":"] + value + ([[c]] + more);
    Regroup([quoted], [":"], value, [[c]] + more);
    assert [quoted, ":"] == [quoted] + [":"];
    EatConcat(s, [quoted], [":"] + (value + ([[c]] + more)));
    StringLexeme(s, x.key);
    var named := JsonScan.ReadToken(s);
    PunctuationNext(named.rest, ':', value + ([[c]] + more));
    var colon := JsonScan.ReadToken(named.rest);
    EatConcat(colon.rest, value, [[c]] + more);
    var r := Eat(colon.rest, value).rest;
    PunctuationNext(r, c, more);
    ReadsValue(cfg, colon.rest, x.val, Lookup(before, x.key));
    var after := JsonScan.ReadToken(r);
    MemberRound(cfg, s, name, before, x.key, named, colon, e, r, after);
    RereadFirst(cfg, ms, before);
    if |ms| == 1 {
      assert ms[1..] == [];
      EatNothing(after.rest);
    } else {
      ReadsMembers(cfg, after.rest, x.key, ms[1..], Put(before, x.key, e));
    }
  }

  lemma RereadFirst(cfg: Config, ms: seq<Member>, before: seq<Member>)
    requires ms != []
    ensures PutAll(before, RereadMembers(cfg, ms))
      == PutAll(Put(before, ms[0].key, Reread(cfg, ms[0].val)), RereadMembers(cfg, ms[1..]))
  {
    hide Put, Reread;
    var x, rest := Member(ms[0].key, Reread(cfg, ms[0].val)), RereadMembers(cfg, ms[1..]);
    assert ([x] + rest)[1..] == rest;
  }

  lemma EmptyArray(cfg: Config, t: string)
    requires Eat(t, ["]"]).Left?
    ensures ArrayOutcome(cfg, t) == Outcome(true, Arr([]), Eat(t, ["]"]).rest, [])
  {
    var u := SkipSpaces(t);
    assert SkipSpaces(u) == u;
    PunctuationLexeme(u, ']');
  }

  lemma FullArray(cfg: Config, t: string, es: seq<Value>)
    requires es != [] && Proper(es[0])
    requires Eat(t, ElemLexemes(es) + ["]"]).Left?
    ensures Eat(SkipSpaces(t), ElemLexemes(es) + ["]"]) == Eat(t, ElemLexemes(es) + ["]"])
    ensures ArrayOutcome(cfg, t) == ReadElems(cfg, SkipSpaces(t), [])
  {
    hide ReadElems, Lexemes, Proper;
    var u := SkipSpaces(t);
    assert SkipSpaces(u) == u;
    FirstLexeme(es[0]);
    assert (ElemLexemes(es) + ["]"])[0] == Lexemes(es[0])[0];
  }

  lemma EmptyObject(cfg: Config, t: string)
    requires Eat(t, ["}"]).Left?
    ensures ReadMembers(cfg, t, "", []) == Outcome(true, Obj([]), Eat(t, ["}"]).rest, [])
  {
    hide Eat, JsonScan.ReadToken;
    PunctuationLexeme(t, '}');
  }

  // The bracket that begins a container
  lemma Opens(cfg: Config, s: string, cur: Value, kind: TokenType)
    requires JsonScan.ReadToken(s).token.kind == kind
    ensures kind == ArrayBegin ==> ReadValue(cfg, s, cur) == ArrayOutcome(cfg, JsonScan.ReadToken(s).rest)
    ensures kind == ObjectBegin ==> ReadValue(cfg, s, cur) == ReadMembers(cfg, JsonScan.ReadToken(s).rest, "", [])
  {
    hide JsonScan.ReadToken, ArrayOutcome, ReadMembers, ScalarOutcome;
  }

  // What follows the value is left unread
  lemma {:induction false} ReadsValue(cfg: Config, s: string, v: Value, cur: Value)
    requires Proper(v) && Scans(cfg, v)
    requires Eat(s, Lexemes(v)).Left? && (IsNumber(v) ==> NumberEnds(Eat(s, Lexemes(v)).rest))
    ensures ReadValue(cfg, s, cur) == Outcome(true, Reread(cfg, v), Eat(s, Lexemes(v)).rest, [])
    decreases v, 1
  {
    hide JsonScan.ReadToken, ReadValue, ArrayOutcome, ReadMembers, ReadElems, Eat, SkipSpaces;
    match v {
      case Arr(es) =>
        var more := ElemLexemes(es) + ["]"];
        assert Lexemes(v) == ["["] + more;
        PunctuationNext(s, '[', more);
        Opens(cfg, s, cur, ArrayBegin);
        var t := JsonScan.ReadToken(s).rest;
        if es == [] {
          assert more == ["]"];
          EmptyArray(cfg, t);
        } else {
          FullArray(cfg, t, es);
          ReadsElems(cfg, SkipSpaces(t), es, []);
          assert [] + RereadElems(cfg, es) == RereadElems(cfg, es);
        }
      case Obj(ms) =>
        var more := MemberLexemes(ms) + ["}"];
        assert Lexemes(v) == ["{"] + more;
        PunctuationNext(s, '{', more);
        Opens(cfg, s, cur, ObjectBegin);
        var t := JsonScan.ReadToken(s).rest;
        if ms == [] {
          assert more == ["}"];
          EmptyObject(cfg, t);
        } else {
          ReadsMembers(cfg, t, "", ms, []);
        }
      case _ => ReadsScalar(cfg, s, v, cur);
    }
  }

  // Whatever the order of the members, and however often a name is repeated: the object has the names that are
  // spelled, in ascending order, and each leads to the value spelled last under it
  lemma LastSpelled(cfg: Config, s: string, ms: seq<Member>, cur: Value)
    requires Proper(Obj(ms)) && Scans(cfg, Obj(ms)) && Eat(s, Lexemes(Obj(ms))).Left?
    ensures var r := ReadValue(cfg, s, cur);
      && r.ok && r.value.Obj? && Ascending(r.value.members)
      && (forall k :: HasKey(r.value.members, k) <==> HasKey(ms, k))
      && forall i :: 0 <= i < |ms| && (forall j :: i < j < |ms| ==> ms[j].key != ms[i].key) ==>
        Lookup(r.value.members, ms[i].key) == Reread(cfg, ms[i].val)
  {
    hide ReadValue, Eat, Lexemes, Proper, Scans, HasKey, Ascending, RereadMembers, PutAll, Lookup;
    var read := RereadMembers(cfg, ms);
    ReadsValue(cfg, s, Obj(ms), cur);
    RereadKeys(cfg, ms);
    NothingAscends();
    PutAllAscending([], read);
    forall k ensures HasKey(PutAll([], read), k) <==> HasKey(ms, k) {
      PutAllLookup([], read, k);
      SameKeys(ms, read, k);
    }
    forall i | 0 <= i < |ms| && forall j :: i < j < |ms| ==> ms[j].key != ms[i].key
      ensures Lookup(PutAll([], read), ms[i].key) == Reread(cfg, ms[i].val)
    {
      PutAllLookup([], read, ms[i].key);
    }
  }

  lemma NothingAscends()
    ensures Ascending([]) && forall k :: !HasKey([], k)
  {
  }

  lemma SameKeys(ms: seq<Member>, read: seq<Member>, k: string)
    requires |ms| == |read| && forall i :: 0 <= i < |ms| ==> read[i].key == ms[i].key
    ensures HasKey(read, k) <==> HasKey(ms, k)
  {
    if HasKey(read, k) {
      var m :| m in read && m.key == k;
      var i :| 0 <= i < |read| && read[i] == m;
      assert ms[i] in ms && ms[i].key == k;
    }
    if HasKey(ms, k) {
      var m :| m in ms && m.key == k;
      var i :| 0 <= i < |ms| && ms[i] == m;
      assert read[i] in read && read[i].key == k;
    }
  }

  // ---------- The round trip ----------

  // parse gives back every value from any text that writes it, whatever the root held before
  lemma ParsesSpelling(cfg: Config, document: string, v: Value, root: Value)
    requires Proper(v) && Scans(cfg, v) && Writes(document, Lexemes(v))
    ensures var r := Parse(cfg, document, root);
      r.value == Reread(cfg, v) &&
      r.errors ==
        if cfg.strictRoot && !IsArray(v) && !IsObject(v) then [Error(BAD_ROOT, Token(ErrorToken, document))] else []
  {
    hide ReadValue, Lexemes, Eat, SkipCommentTokens, Scans, Proper;
    ReadsValue(cfg, document, v, root);
    RereadKind(cfg, v);
  }

  lemma RereadKind(cfg: Config, v: Value)
    requires Scans(cfg, v)
    ensures Reread(cfg, v).Null? == v.Null? && Reread(cfg, v).Arr? == v.Arr? && Reread(cfg, v).Obj? == v.Obj?
  {
  }

  // Values the reader gives back as they were
  ghost predicate Kept(cfg: Config, v: Value)
    decreases v, 1
  {
    match v
    case Int(i) => LEAST_EXACT <= i
    case UInt(u) => MAX_INT < u <= GREATEST_EXACT
    case Real(text) => cfg.scan(text) == Double(text)
    case Arr(es) => KeptElems(cfg, es)
    case Obj(ms) => KeptMembers(cfg, ms) && Ascending(ms)
    case _ => true
  }
  ghost predicate KeptElems(cfg: Config, es: seq<Value>)
    decreases es, 0
  {
    es == [] || (Kept(cfg, es[0]) && KeptElems(cfg, es[1..]))
  }
  ghost predicate KeptMembers(cfg: Config, ms: seq<Member>)
    decreases ms, 0
  {
    ms == [] || (Kept(cfg, ms[0].val) && KeptMembers(cfg, ms[1..]))
  }

  // A value comes back equal if and only if its integers stay clear of the ends of their ranges, its unsigned
  // integers are too large to be signed, its doubles print exactly, and its members are in order, as a map has them
  lemma {:induction false} RereadIsSame(cfg: Config, v: Value)
    requires Proper(v)
    ensures Reread(cfg, v) == v <==> Kept(cfg, v)
    decreases v, 1
  {
    match v {
      case Arr(es) => RereadElemsIsSame(cfg, es);
      case Obj(ms) => RereadObjectIsSame(cfg, ms);
      case _ =>
    }
  }
  lemma {:induction false} RereadElemsIsSame(cfg: Config, es: seq<Value>)
    requires ProperElems(es)
    ensures RereadElems(cfg, es) == es <==> KeptElems(cfg, es)
    decreases es, 0
  {
    if es != [] {
      RereadIsSame(cfg, es[0]);
      RereadElemsIsSame(cfg, es[1..]);
      SameCons(Reread(cfg, es[0]), RereadElems(cfg, es[1..]), es);
    }
  }
  lemma {:induction false} RereadObjectIsSame(cfg: Config, ms: seq<Member>)
    requires ProperMembers(ms)
    ensures PutAll([], RereadMembers(cfg, ms)) == ms <==> KeptMembers(cfg, ms) && Ascending(ms)
    decreases ms, 1
  {
    hide KeptMembers, Reread, RereadMembers, PutAll, Proper, ProperMembers, Ascending;
    var r := RereadMembers(cfg, ms);
    RereadMembersIsSame(cfg, ms);
    RereadKeys(cfg, ms);
    AscendingKeys(ms, r);
    NothingAscends();
    PutAllAscending([], r);
    assert [] + r == r;
    if Ascending(ms) {
      PutAllInOrder([], r);
    }
  }

  lemma AscendingKeys(ms: seq<Member>, r: seq<Member>)
    requires |r| == |ms| && forall i :: 0 <= i < |ms| ==> r[i].key == ms[i].key
    ensures Ascending(r) <==> Ascending(ms)
  {
  }

  lemma {:induction false} RereadKeys(cfg: Config, ms: seq<Member>)
    ensures |RereadMembers(cfg, ms)| == |ms|
    ensures forall i :: 0 <= i < |ms| ==> RereadMembers(cfg, ms)[i] == Member(ms[i].key, Reread(cfg, ms[i].val))
    decreases |ms|
  {
    if ms != [] {
      RereadKeys(cfg, ms[1..]);
    }
  }

  lemma {:induction false} RereadMembersIsSame(cfg: Config, ms: seq<Member>)
    requires ProperMembers(ms)
    ensures RereadMembers(cfg, ms) == ms <==> KeptMembers(cfg, ms)
    decreases ms, 0
  {
    if ms != [] {
      RereadIsSame(cfg, ms[0].val);
      RereadMembersIsSame(cfg, ms[1..]);
      SameCons(Member(ms[0].key, Reread(cfg, ms[0].val)), RereadMembers(cfg, ms[1..]), ms);
    }
  }

  lemma SameCons<T>(x: T, xs: seq<T>, ys: seq<T>)
    requires ys != []
    ensures [x] + xs == ys <==> x == ys[0] && xs == ys[1..]
  {
    if [x] + xs == ys {
      assert ([x] + xs)[0] == x && ([x] + xs)[1..] == xs;
    }
  }
}
