/**
  The Unicode escapes of the reader against UTF-8 as section 3 of RFC 3629 defines it.
 */
module JsonUtf8 {
  import opened Common
  import opened JsonValue
  import opened JsonScan

  predicate IsSurrogate(cp: int) { 0xD800 <= cp <= 0xDFFF }
  predicate IsScalar(cp: int) { 0 <= cp <= 0x10_FFFF && !IsSurrogate(cp) }

  // ---------- Escapes of scalar values (section 7 of RFC 8259) ----------

  // `s` is a backslash, a `u` and four hexadecimal digits of either case that stand for `unit`
  predicate SpellsUnit(s: string, unit: int) {
    |s| == 6 && s[0] == '\\' && s[1] == 'u' && Hex4(s[2..]) == unit
  }

  // One unit, or the two halves of a surrogate pair
  predicate SpellsScalar(s: string, cp: int) {
    if cp <= 0xFFFF then SpellsUnit(s, cp)
    else
      && |s| == 12
      && SpellsUnit(s[..6], 0xD800 + (cp - 0x1_0000) / 0x400)
      && SpellsUnit(s[6..], 0xDC00 + (cp - 0x1_0000) % 0x400)
  }

  ghost function Concat(pieces: seq<string>): string {
    if pieces == [] then "" else pieces[0] + Concat(pieces[1..])
  }

  ghost function Utf8All(cps: seq<int>): string
    requires forall i :: 0 <= i < |cps| ==> IsScalar(cps[i])
  {
    if cps == [] then "" else
      assert IsScalar(cps[0]);
      Utf8(cps[0]) + Utf8All(cps[1..])
  }

  lemma Hex4Prefix(s: string, t: string)
    requires |s| == 4
    ensures Hex4(s + t) == Hex4(s) && (s + t)[4..] == t
  {
  }

  lemma UnitRead(s: string, unit: int, rest: string)
    requires SpellsUnit(s, unit) && 0 <= unit
    ensures Escape4((s + rest)[2..]) == CodePoint(unit, rest)
  {
    hide Hex4;
    assert (s + rest)[2..] == s[2..] + rest;
    Hex4Prefix(s[2..], rest);
  }

  lemma PairValue(cp: int)
    requires 0x1_0000 <= cp <= 0x10_FFFF
    ensures var high, low := 0xD800 + (cp - 0x1_0000) / 0x400, 0xDC00 + (cp - 0x1_0000) % 0x400;
      0xD800 <= high <= 0xDBFF && 0xDC00 <= low <= 0xDFFF && cp == 0x1_0000 + (high % 0x400) * 0x400 + low % 0x400
  {
  }

  lemma ScalarRead(s: string, cp: int, rest: string)
    requires IsScalar(cp) && SpellsScalar(s, cp)
    ensures Decode(s + rest) == Prepend(Utf8(cp), Decode(rest))
  {
    hide Hex4, Utf8, Escape4;
    if cp <= 0xFFFF {
      UnitRead(s, cp, rest);
    } else {
      PairValue(cp);
      var high, low := 0xD800 + (cp - 0x1_0000) / 0x400, 0xDC00 + (cp - 0x1_0000) % 0x400;
      UnitRead(s[..6], high, s[6..] + rest);
      UnitRead(s[6..], low, rest);
      assert s + rest == s[..6] + (s[6..] + rest);
      assert (s[6..] + rest)[0] == '\\' && (s[6..] + rest)[1] == 'u';
      assert ReadCodePoint((s + rest)[2..]) == CodePoint(cp, rest);
    }
  }

  // Any scalar values, written as escapes in any way, decode to their UTF-8 one after the other
  lemma {:induction false} EscapesDecode(pieces: seq<string>, cps: seq<int>)
    requires |pieces| == |cps| && forall i :: 0 <= i < |cps| ==> IsScalar(cps[i]) && SpellsScalar(pieces[i], cps[i])
    ensures Decode(Concat(pieces)) == Decoded(Utf8All(cps))
  {
    hide SpellsScalar, Utf8;
    if cps != [] {
      EscapesDecode(pieces[1..], cps[1..]);
      ScalarRead(pieces[0], cps[0], Concat(pieces[1..]));
    }
  }

  // ---------- UTF-8 ----------

  datatype Decoding = Character(cp: int, rest: string) | Malformed

  function Byte(s: string, i: nat): int { if i < |s| then s[i] as int else -1 }

  predicate IsTail(b: int) { 0x80 <= b <= 0xBF }

  // The first character of a byte sequence, by the ABNF of section 4 of RFC 3629
  function DecodeUtf8(s: string): Decoding {
    var a, b, c, d := Byte(s, 0), Byte(s, 1), Byte(s, 2), Byte(s, 3);
    if 0 <= a <= 0x7F then Character(a, s[1..])
    else if 0xC2 <= a <= 0xDF && IsTail(b) then Character((a - 0xC0) * 0x40 + (b - 0x80), s[2..])
    else if 0xE0 <= a <= 0xEF && IsTail(b) && IsTail(c) && (a == 0xE0 ==> 0xA0 <= b) && (a == 0xED ==> b <= 0x9F) then
      Character(((a - 0xE0) * 0x40 + (b - 0x80)) * 0x40 + (c - 0x80), s[3..])
    else if 0xF0 <= a <= 0xF4 && IsTail(b) && IsTail(c) && IsTail(d) && (a == 0xF0 ==> 0x90 <= b) &&
      (a == 0xF4 ==> b <= 0x8F) then
      Character((((a - 0xF0) * 0x40 + (b - 0x80)) * 0x40 + (c - 0x80)) * 0x40 + (d - 0x80), s[4..])
    else Malformed
  }

  lemma Split3(cp: int)
    requires 0 <= cp
    ensures cp == (cp / 0x1000 * 0x40 + cp / 0x40 % 0x40) * 0x40 + cp % 0x40
  {
    assert cp / 0x40 / 0x40 == cp / 0x1000;
  }

  lemma Split4(cp: int)
    requires 0 <= cp
    ensures cp == ((cp / 0x4_0000 * 0x40 + cp / 0x1000 % 0x40) * 0x40 + cp / 0x40 % 0x40) * 0x40 + cp % 0x40
  {
    Split3(cp);
    assert cp / 0x1000 / 0x40 == cp / 0x4_0000;
  }

  // codePointToUTF8 writes what the standard reads back
  lemma Utf8Read(cp: int, rest: string)
    requires IsScalar(cp)
    ensures DecodeUtf8(Utf8(cp) + rest) == Character(cp, rest)
  {
    var s := Utf8(cp) + rest;
    if cp <= 0x7F {
      assert s[1..] == rest;
    } else if cp <= 0x7FF {
      assert s[2..] == rest;
    } else if cp <= 0xFFFF {
      assert s[3..] == rest;
      Split3(cp);
    } else {
      assert s[4..] == rest;
      Split4(cp);
    }
  }

  lemma Utf8NotEmpty(cp: int)
    requires IsScalar(cp)
    ensures Utf8(cp) != ""
  {
  }

  // Different sequences of scalar values give different bytes
  lemma {:induction false} Utf8Injective(xs: seq<int>, ys: seq<int>)
    requires forall i :: 0 <= i < |xs| ==> IsScalar(xs[i])
    requires forall i :: 0 <= i < |ys| ==> IsScalar(ys[i])
    requires Utf8All(xs) == Utf8All(ys)
    ensures xs == ys
  {
    hide Utf8, DecodeUtf8;
    if xs == [] || ys == [] {
      if xs != [] {
        Utf8NotEmpty(xs[0]);
      }
      if ys != [] {
        Utf8NotEmpty(ys[0]);
      }
    } else {
      Utf8Read(xs[0], Utf8All(xs[1..]));
      Utf8Read(ys[0], Utf8All(ys[1..]));
      Utf8Injective(xs[1..], ys[1..]);
      assert xs == [xs[0]] + xs[1..] && ys == [ys[0]] + ys[1..];
    }
  }

  // ---------- Escapes that stand for no scalar value ----------

  // The reader takes a code point that is no scalar value exactly when the first unit is a low surrogate
  lemma ScalarExactly(s: string)
    requires ReadCodePoint(s).CodePoint?
    ensures IsScalar(ReadCodePoint(s).cp) <==> !(0xDC00 <= Hex4(s) <= 0xDFFF)
    ensures IsScalar(ReadCodePoint(s).cp) <==> DecodeUtf8(Utf8(ReadCodePoint(s).cp)).Character?
  {
    hide Hex4;
    var cp := ReadCodePoint(s).cp;
    if IsScalar(cp) {
      assert Utf8(cp) + "" == Utf8(cp);
      Utf8Read(cp, "");
    }
  }

  // After a high surrogate any second escape is taken; the character read is the one that was written
  // exactly when the second unit is a low surrogate
  lemma SecondHalf(s: string)
    requires |s| >= 10 && 0xD800 <= Hex4(s) <= 0xDBFF && s[4] == '\\' && s[5] == 'u' && Hex4(s[6..]) >= 0
    ensures ReadCodePoint(s).CodePoint? && ReadCodePoint(s).rest == s[10..] && IsScalar(ReadCodePoint(s).cp)
    ensures SpellsScalar("\\u" + s[..10], ReadCodePoint(s).cp) <==> 0xDC00 <= Hex4(s[6..]) <= 0xDFFF
  {
    hide Hex4;
    var high, low := Hex4(s), Hex4(s[6..]);
    assert s[4..][2..] == s[6..] && s[6..][4..] == s[10..];
    var cp := 0x1_0000 + (high % 0x400) * 0x400 + low % 0x400;
    assert ReadCodePoint(s) == CodePoint(cp, s[10..]);
    PairParts(high, low);
    var t := "\\u" + s[..10];
    assert t[..6][2..] == s[..4] && t[6..][2..] == s[6..10] && t[6..][..2] == "\\u";
    Hex4Prefix(s[..4], s[4..]);
    Hex4Prefix(s[6..10], s[10..]);
    assert s[..4] + s[4..] == s && s[6..10] + s[10..] == s[6..];
  }

  lemma PairParts(high: int, low: int)
    requires 0xD800 <= high <= 0xDBFF && 0 <= low < 0x1_0000
    ensures var cp := 0x1_0000 + (high % 0x400) * 0x400 + low % 0x400;
      && 0x1_0000 <= cp <= 0x10_FFFF && high == 0xD800 + (cp - 0x1_0000) / 0x400
      && (low == 0xDC00 + (cp - 0x1_0000) % 0x400 <==> 0xDC00 <= low <= 0xDFFF)
  {
  }

  // What the reader takes is the escape of a scalar value, and read as that value, exactly when no low
  // surrogate comes first and after a high one a low one comes second
  lemma ReadAsWritten(s: string)
    requires ReadCodePoint(s).CodePoint?
    ensures var r := ReadCodePoint(s);
      IsScalar(r.cp) && SpellsScalar("\\u" + s[..|s| - |r.rest|], r.cp) <==>
        !(0xDC00 <= Hex4(s) <= 0xDFFF) && (0xD800 <= Hex4(s) <= 0xDBFF ==> 0xDC00 <= Hex4(s[6..]) <= 0xDFFF)
  {
    hide Hex4;
    if 0xD800 <= Hex4(s) <= 0xDBFF {
      assert s[4..][2..] == s[6..];
      SecondHalf(s);
    } else {
      var t := "\\u" + s[..4];
      assert t[2..] == s[..4] && s[..4] + s[4..] == s;
      Hex4Prefix(s[..4], s[4..]);
    }
  }

  lemma PairDecodes(s: string)
    requires |s| == 12 && s[..2] == "\\u" == s[6..8] && 0xD800 <= Hex4(s[2..]) <= 0xDBFF && Hex4(s[8..]) >= 0
    ensures Decode(s) == Decoded(Utf8(0x1_0000 + (Hex4(s[2..]) % 0x400) * 0x400 + Hex4(s[8..]) % 0x400))
  {
    hide Hex4, Utf8;
    assert s[2..][4..] == s[6..] && s[2..][6..] == s[6..][2..] == s[8..] && s[8..][4..] == "";
    assert s[0] == s[..2][0] && s[1] == s[..2][1] && s[6] == s[6..8][0] && s[7] == s[6..8][1];
    assert ReadCodePoint(s[2..])
        == CodePoint(0x1_0000 + (Hex4(s[2..]) % 0x400) * 0x400 + Hex4(s[8..]) % 0x400, "");
    assert Decode("") == Decoded("");
  }

  // The second half is not checked: one that is no low surrogate reads like the one that is
  lemma SecondHalfUnchecked()
    ensures Decode("\\uD800\\u0041") == Decode("\\uD800\\uDC41") == Decoded(Utf8(0x1_0041))
  {
    hide Utf8, Decode;
    var a, b := "\\uD800\\u0041", "\\uD800\\uDC41";
    assert Hex4(a[2..]) == 0xD800 == Hex4(b[2..]) && Hex4(a[8..]) == 0x41 && Hex4(b[8..]) == 0xDC41;
    PairDecodes(a);
    PairDecodes(b);
  }
}
