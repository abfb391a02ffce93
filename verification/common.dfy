/** Small shared vocabulary: an optional value (the source's nullable
    references), integer minimum/maximum as `Math.min` / `Math.max`, the
    decimal rendering of a count, and two facts about whole-number division. */
module Common {

  /** A Java reference that may be null. */
  datatype Option<+T> = None | Some(value: T)

  function Min(a: int, b: int): int
  {
    if a <= b then a else b
  }

  function Max(a: int, b: int): int
  {
    if a >= b then a else b
  }

  /** Decimal digits of `n`, as string concatenation with an `int` renders it. */
  function NatToString(n: nat): (r: string)
    ensures |r| >= 1
    ensures forall k :: 0 <= k < |r| ==> '0' <= r[k] <= '9'
    decreases n
  {
    if n < 10 then [DigitChar(n)] else NatToString(n / 10) + [DigitChar(n % 10)]
  }

  function DigitChar(d: nat): (c: char)
    requires d < 10
    ensures '0' <= c <= '9' && c as int - '0' as int == d
  {
    (48 + d) as char
  }

  /** The number a string of decimal digits denotes, most significant first. */
  ghost function DecimalValue(s: string): int
  {
    if s == [] then 0 else DecimalValue(s[..|s| - 1]) * 10 + (s[|s| - 1] as int - '0' as int)
  }

  /** The rendering denotes n and has no leading zero. */
  lemma {:induction false} NatToStringValue(n: nat)
    ensures DecimalValue(NatToString(n)) == n
    ensures |NatToString(n)| > 1 ==> NatToString(n)[0] != '0'
    decreases n
  {
    if n >= 10 {
      NatToStringValue(n / 10);
      var s := NatToString(n);
      assert s[..|s| - 1] == NatToString(n / 10);
      assert s[0] == NatToString(n / 10)[0];
    }
  }

  /** Different numbers render differently, so the rendered count names the
      number it came from. */
  lemma {:induction false} NatToStringInjective(a: nat, b: nat)
    requires NatToString(a) == NatToString(b)
    ensures a == b
    decreases a
  {
    if a >= 10 && b >= 10 {
      var s := NatToString(a);
      var sa, sb := NatToString(a / 10), NatToString(b / 10);
      assert s == sa + [DigitChar(a % 10)] == sb + [DigitChar(b % 10)];
      assert sa == s[..|s| - 1] == sb;
      assert DigitChar(a % 10) == s[|s| - 1] == DigitChar(b % 10);
      NatToStringInjective(a / 10, b / 10);
    }
  }

  /** Quotient and remainder are the only such pair. */
  lemma DivUnique(a: int, d: int, q: int, m: int)
    requires d >= 1 && 0 <= m < d && a == d * q + m
    ensures a / d == q
  {
    var q2, m2 := a / d, a % d;
    assert d * q2 + m2 == d * q + m;
    if q2 > q {
      assert d * q2 - d * q == d * (q2 - q);
      MulAtLeast(d, q2 - q);
    } else if q2 < q {
      assert d * q - d * q2 == d * (q - q2);
      MulAtLeast(d, q - q2);
    }
  }

  /** Multiplying by a positive whole number does not shrink a positive number. */
  lemma MulAtLeast(d: int, k: int)
    requires d >= 1 && k >= 1
    ensures d * k >= d
  {
    assert d * k == d * (k - 1) + d;
  }
}
