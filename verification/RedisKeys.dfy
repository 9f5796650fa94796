/** The textual keys of the rate limiter's counters, and why no two counters share one. */
module RedisKeys {

  function DigitChar(d: nat): char
    requires d < 10
  {
    ['0', '1', '2', '3', '4', '5', '6', '7', '8', '9'][d]
  }

  /** Decimal digits of a natural number, most significant first. */
  function Digits(n: nat): (s: string)
    ensures |s| > 0 && forall i :: 0 <= i < |s| ==> '0' <= s[i] <= '9'
  {
    if n < 10 then [DigitChar(n)] else Digits(n / 10) + [DigitChar(n % 10)]
  }

  function Decimal(n: int): (s: string)
    ensures ':' !in s
  {
    if n < 0 then "-" + Digits(-n) else Digits(n)
  }

  function WindowTag(windowSecs: int): string {
    "w" + Decimal(windowSecs)
  }

  /** The text of a counter's key: the caller's key, the window size in seconds and the window's first second. */
  function RedisKey(key: string, windowSecs: int, start: int): string {
    (("rl:" + key) + [':'] + WindowTag(windowSecs)) + [':'] + Decimal(start)
  }

  lemma DigitCharInjective(a: nat, b: nat)
    requires a < 10 && b < 10 && DigitChar(a) == DigitChar(b)
    ensures a == b
  {
  }

  lemma {:induction false} DigitsInjective(a: nat, b: nat)
    requires Digits(a) == Digits(b)
    ensures a == b
  {
    var s, t := Digits(a), Digits(b);
    assert a < 10 <==> |s| == 1;
    assert b < 10 <==> |t| == 1;
    if a < 10 {
      assert s[0] == t[0];
      DigitCharInjective(a, b);
    } else {
      assert s[..|s| - 1] == Digits(a / 10) && t[..|t| - 1] == Digits(b / 10);
      assert s[|s| - 1] == DigitChar(a % 10) && t[|t| - 1] == DigitChar(b % 10);
      DigitCharInjective(a % 10, b % 10);
      DigitsInjective(a / 10, b / 10);
    }
  }

  lemma DecimalInjective(a: int, b: int)
    requires Decimal(a) == Decimal(b)
    ensures a == b
  {
    var s, t := Decimal(a), Decimal(b);
    assert a < 0 <==> s[0] == '-';
    assert b < 0 <==> t[0] == '-';
    if a < 0 {
      assert s[1..] == Digits(-a) && t[1..] == Digits(-b);
      DigitsInjective(-a, -b);
    } else {
      DigitsInjective(a, b);
    }
  }

  /** A separator that the last field cannot contain determines where that field starts. */
  lemma LastSeparator(a: string, x: string, b: string, y: string)
    requires ':' !in x && ':' !in y
    requires a + [':'] + x == b + [':'] + y
    ensures a == b && x == y
  {
    var s := a + [':'] + x;
    assert s[|a|] == ':' && s[|b|] == ':';
    assert forall i :: |a| < i < |s| ==> s[i] == x[i - |a| - 1];
    assert forall i :: |b| < i < |s| ==> s[i] == y[i - |b| - 1];
    assert a == s[..|a|] && b == s[..|b|];
    assert x == s[|a| + 1..] && y == s[|b| + 1..];
  }

  /** Distinct (key, window size, start) triples never share a key, whatever characters the key contains. */
  lemma RedisKeyInjective(k1: string, w1: int, s1: int, k2: string, w2: int, s2: int)
    requires RedisKey(k1, w1, s1) == RedisKey(k2, w2, s2)
    ensures k1 == k2 && w1 == w2 && s1 == s2
  {
    LastSeparator(("rl:" + k1) + [':'] + WindowTag(w1), Decimal(s1), ("rl:" + k2) + [':'] + WindowTag(w2), Decimal(s2));
    DecimalInjective(s1, s2);
    LastSeparator("rl:" + k1, WindowTag(w1), "rl:" + k2, WindowTag(w2));
    assert WindowTag(w1)[1..] == Decimal(w1) && WindowTag(w2)[1..] == Decimal(w2);
    DecimalInjective(w1, w2);
    assert ("rl:" + k1)[3..] == k1 && ("rl:" + k2)[3..] == k2;
  }
}
