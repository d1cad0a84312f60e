/**
  What several components share: sequences without repetition, powers of two, C strings and
  decimal digits.
 */
module Common {
  ghost predicate NoDup<T>(s: seq<T>) {
    forall i, j :: 0 <= i < j < |s| ==> s[i] != s[j]
  }

  lemma Focus3<T>(b: seq<T>, l: seq<T>, x: T, r: seq<T>, a: seq<T>)
    ensures b + l + ([x] + r + a) == b + (l + [x] + r) + a
    ensures b + l + [x] + r + a == b + (l + [x] + r) + a
  {
  }

  function Pow2(n: nat): (p: nat)
    ensures p >= 1
  {
    if n == 0 then 1 else 2 * Pow2(n - 1)
  }

  lemma {:induction false} Pow2Grows(a: nat, b: nat)
    requires a <= b
    ensures Pow2(a) <= Pow2(b)
  {
    if a < b {
      Pow2Grows(a, b - 1);
    }
  }

  predicate NulFree(s: string) { forall i :: 0 <= i < |s| ==> s[i] != '\0' }

  // What a C string function sees of a buffer
  function CStr(s: string): (r: string)
    ensures NulFree(r) && r <= s && (NulFree(s) ==> r == s)
  {
    if s == [] || s[0] == '\0' then [] else
      var r := CStr(s[1..]);
      assert s == [s[0]] + s[1..];
      [s[0]] + r
  }

  predicate IsDigit(c: char) { '0' <= c <= '9' }

  // Decimal digits
  function Dec(n: int): (r: string)
    requires n >= 0
    ensures r != [] && forall i :: 0 <= i < |r| ==> IsDigit(r[i])
  {
    if n < 10 then [('0' as int + n) as char] else Dec(n / 10) + [('0' as int + n % 10) as char]
  }

  ghost predicate AllDigits(s: string) { forall i :: 0 <= i < |s| ==> '0' <= s[i] <= '9' }

  // The number that decimal digits denote, the high one first
  ghost function Denoted(s: string): int {
    if s == "" then 0 else 10 * Denoted(s[..|s| - 1]) + (s[|s| - 1] as int - '0' as int)
  }

  lemma {:induction false} DecDenotes(n: nat)
    ensures AllDigits(Dec(n)) && Denoted(Dec(n)) == n
  {
    var d := Dec(n);
    if n < 10 {
      assert d[..0] == "";
    } else {
      DecDenotes(n / 10);
      assert d[..|d| - 1] == Dec(n / 10);
    }
  }
}
