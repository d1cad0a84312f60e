/**
  What the reader makes of any text whatever: values it would itself read back unchanged.
 */
module JsonSound {
  import opened Common
  import opened JsonValue
  import opened JsonScan
  import opened JsonParse
  import opened JsonText
  import opened JsonRoundTrip

  // Integers away from the ends of their ranges, unsigned ones only above the signed range, C strings, ascending keys
  ghost predicate Sound(v: Value)
    decreases v, 1
  {
    match v
    case Int(i) => LEAST_EXACT <= i <= MAX_INT
    case UInt(u) => MAX_INT < u <= GREATEST_EXACT
    case Str(s) => NulFree(s)
    case Arr(es) => SoundElems(es)
    case Obj(ms) => SoundMembers(ms) && Ascending(ms)
    case _ => true
  }
  ghost predicate SoundElems(es: seq<Value>)
    decreases es, 0
  {
    es == [] || (Sound(es[0]) && SoundElems(es[1..]))
  }
  ghost predicate SoundMembers(ms: seq<Member>)
    decreases ms, 0
  {
    ms == [] || (NulFree(ms[0].key) && Sound(ms[0].val) && SoundMembers(ms[1..]))
  }

  // The digit loop never leaves the range of an unsigned int
  lemma {:induction false} AccumulateBounded(s: string, value: int, threshold: int)
    requires 0 <= value <= 10 * threshold - 1
    ensures var r := Accumulate(s, value, threshold); r.Value? ==> 0 <= r.n <= 10 * threshold - 1
  {
    if s != [] && IsDigit(s[0]) && value < threshold {
      AccumulateBounded(s[1..], value * 10 + (s[0] as int - '0' as int), threshold);
    }
  }

  lemma NumberSound(cfg: Config, t: Token, rest: string, cur: Value)
    requires Sound(cur)
    ensures Sound(DecodeNumber(cfg, t, rest, cur).value)
  {
    hide Accumulate, LooksReal;
    var digits := if Peek(t.text) == '-' then t.text[1..] else t.text;
    AccumulateBounded(digits, 0, NEGATIVE_THRESHOLD);
    AccumulateBounded(digits, 0, POSITIVE_THRESHOLD);
  }

  lemma ScalarSound(cfg: Config, t: Scan, cur: Value)
    requires Sound(cur)
    ensures Sound(ScalarOutcome(cfg, t, cur).value)
  {
    hide DecodeNumber, DecodeToken;
    NumberSound(cfg, t.token, t.rest, cur);
  }

  lemma {:induction false} SoundAppend(es: seq<Value>, e: Value)
    requires SoundElems(es) && Sound(e)
    ensures SoundElems(es + [e])
  {
    if es != [] {
      SoundAppend(es[1..], e);
      assert (es + [e])[1..] == es[1..] + [e];
    }
  }

  lemma {:induction false} SoundLookup(ms: seq<Member>, key: string)
    requires SoundMembers(ms)
    ensures Sound(Lookup(ms, key))
  {
    if ms != [] {
      SoundLookup(ms[1..], key);
    }
  }

  lemma {:induction false} SoundPut(ms: seq<Member>, key: string, val: Value)
    requires SoundMembers(ms) && NulFree(key) && Sound(val)
    ensures SoundMembers(Put(ms, key, val))
  {
    if ms != [] {
      SoundPut(ms[1..], key, val);
      Tail(Member(key, val), ms[1..]);
      Tail(Member(key, val), ms);
      Tail(ms[0], Put(ms[1..], key, val));
    }
  }

  lemma Tail<T>(x: T, xs: seq<T>)
    ensures ([x] + xs)[0] == x && ([x] + xs)[1..] == xs
  {
  }

  ghost predicate SoundObject(ms: seq<Member>) { SoundMembers(ms) && Ascending(ms) }

  lemma SoundObjectPut(ms: seq<Member>, key: string, val: Value)
    requires SoundObject(ms) && NulFree(key) && Sound(val)
    ensures SoundObject(Put(ms, key, val))
  {
    hide Put, Sound, NulFree, Ascending;
    SoundPut(ms, key, val);
    PutAscending(ms, key, val);
  }

  // For every text, well formed or not, and whatever comes of it
  lemma {:induction false} ReadsSound(cfg: Config, s: string, cur: Value)
    requires Sound(cur)
    ensures Sound(ReadValue(cfg, s, cur).value)
    decreases |s|, 0
  {
    hide ScalarOutcome, SkipCommentTokens, ReadMembers, ReadElems, SkipSpaces, JsonScan.ReadToken;
    var t := SkipCommentTokens(cfg, s);
    if t.token.kind == ObjectBegin {
      ReadsSoundMembers(cfg, t.rest, "", []);
    } else if t.token.kind == ArrayBegin {
      var u := SkipSpaces(t.rest);
      ReadsSoundElems(cfg, u, []);
    } else {
      ScalarSound(cfg, t, cur);
    }
  }

  lemma {:induction false} ReadsSoundElems(cfg: Config, s: string, elems: seq<Value>)
    requires SoundElems(elems)
    ensures Sound(ReadElems(cfg, s, elems).value)
    decreases |s|, 1
  {
    hide ReadValue, JsonScan.ReadToken, PastComments, Recover;
    ReadsSound(cfg, s, Null);
    var e := ReadValue(cfg, s, Null);
    SoundAppend(elems, e.value);
    if e.ok {
      var t := PastComments(JsonScan.ReadToken(e.rest));
      if t.token.kind != ArrayEnd {
        ReadsSoundElems(cfg, t.rest, elems + [e.value]);
      }
    }
  }

  ghost predicate SoundStep(r: Step) {
    match r
    case Done(outcome) => Sound(outcome.value)
    case More(_, _, members) => SoundObject(members)
  }

  lemma MemberStepSound(cfg: Config, t: Token, s: string, members: seq<Member>)
    requires SoundObject(members)
    ensures SoundStep(MemberStep(cfg, t, s, members))
    decreases |s|, 1
  {
    hide ReadValue, JsonScan.ReadToken, PastComments, Recover, DecodeToken, Put, Lookup, SoundMembers, Ascending;
    var d, colon := DecodeToken(t.text), JsonScan.ReadToken(s);
    if d.Decoded? && colon.token.kind == MemberSeparator {
      var key := CStr(d.text);
      SoundLookup(members, key);
      ReadsSound(cfg, colon.rest, Lookup(members, key));
      SoundObjectPut(members, key, ReadValue(cfg, colon.rest, Lookup(members, key)).value);
    }
  }

  lemma {:induction false} ReadsSoundMembers(cfg: Config, s: string, name: string, members: seq<Member>)
    requires SoundObject(members)
    ensures Sound(ReadMembers(cfg, s, name, members).value)
    decreases |s|, 1
  {
    hide MemberStep, JsonScan.ReadToken, Recover, SoundMembers, Ascending;
    var t := PastComments(JsonScan.ReadToken(s));
    if t.token.kind == StringToken {
      MemberStepSound(cfg, t.token, t.rest, members);
      match MemberStep(cfg, t.token, t.rest, members) {
        case Done(_) =>
        case More(rest, name', members') => ReadsSoundMembers(cfg, rest, name', members');
      }
    }
  }

  // Every double in the value prints as a number that is read as the same double
  ghost predicate RealsBack(cfg: Config, v: Value)
    decreases v, 1
  {
    match v
    case Real(text) => RealLexeme(text) && cfg.scan(text) == Double(text)
    case Arr(es) => RealsBackElems(cfg, es)
    case Obj(ms) => RealsBackMembers(cfg, ms)
    case _ => true
  }
  ghost predicate RealsBackElems(cfg: Config, es: seq<Value>)
    decreases es, 0
  {
    es == [] || (RealsBack(cfg, es[0]) && RealsBackElems(cfg, es[1..]))
  }
  ghost predicate RealsBackMembers(cfg: Config, ms: seq<Member>)
    decreases ms, 0
  {
    ms == [] || (RealsBack(cfg, ms[0].val) && RealsBackMembers(cfg, ms[1..]))
  }

  lemma {:induction false} SoundIsKept(cfg: Config, v: Value)
    requires Sound(v) && RealsBack(cfg, v)
    ensures Proper(v) && Scans(cfg, v) && Kept(cfg, v)
    decreases v, 1
  {
    match v {
      case Arr(es) => SoundElemsAreKept(cfg, es);
      case Obj(ms) => SoundMembersAreKept(cfg, ms);
      case _ =>
    }
  }
  lemma {:induction false} SoundElemsAreKept(cfg: Config, es: seq<Value>)
    requires SoundElems(es) && RealsBackElems(cfg, es)
    ensures ProperElems(es) && ScansElems(cfg, es) && KeptElems(cfg, es)
    decreases es, 0
  {
    if es != [] {
      SoundIsKept(cfg, es[0]);
      SoundElemsAreKept(cfg, es[1..]);
    }
  }
  lemma {:induction false} SoundMembersAreKept(cfg: Config, ms: seq<Member>)
    requires SoundMembers(ms) && RealsBackMembers(cfg, ms)
    ensures ProperMembers(ms) && ScansMembers(cfg, ms) && KeptMembers(cfg, ms)
    decreases ms, 0
  {
    if ms != [] {
      SoundIsKept(cfg, ms[0].val);
      SoundMembersAreKept(cfg, ms[1..]);
    }
  }

  lemma ParseSound(cfg: Config, document: string, root: Value)
    requires Sound(root)
    ensures Sound(Parse(cfg, document, root).value)
  {
    hide ReadValue, SkipCommentTokens, Sound;
    ReadsSound(cfg, document, root);
  }

  // Whatever was read from a text, any text that writes it is read as the same value:
  // reading, writing and reading again changes nothing
  lemma RereadsWhatWasRead(cfg: Config, document: string, again: string, root: Value)
    requires Sound(root)
    requires var v := Parse(cfg, document, root).value; RealsBack(cfg, v) && Writes(again, Lexemes(v))
    ensures Parse(cfg, again, root).value == Parse(cfg, document, root).value
  {
    hide ReadValue, Lexemes, Eat, SkipCommentTokens, Scans, Proper, Sound, RealsBack, Kept, Reread;
    var v := Parse(cfg, document, root).value;
    ParseSound(cfg, document, root);
    SoundIsKept(cfg, v);
    ParsesSpelling(cfg, again, v, root);
    RereadIsSame(cfg, v);
  }
}
