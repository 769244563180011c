/** Decimal numerals. */
module Decimals {
  predicate IsDigit(c: char) { '0' <= c <= '9' }

  ghost predicate AllDigits(s: string) { forall c :: c in s ==> IsDigit(c) }

  function Decimal(n: nat): (s: string)
    ensures s != "" && AllDigits(s)
  {
    (if n < 10 then "" else Decimal(n / 10)) + ['0' + (n % 10) as char]
  }

  function Value(s: string): nat
    requires AllDigits(s)
  {
    if s == "" then 0 else
    assert s[|s| - 1] in s;
    10 * Value(s[..|s| - 1]) + (s[|s| - 1] - '0') as nat
  }

  lemma {:induction false} ValueOfDecimal(n: nat)
    ensures Value(Decimal(n)) == n
    ensures n < 1000 ==> |Decimal(n)| <= 3
  {
    var s := Decimal(n);
    if n < 10 {
      assert s[..0] == "";
    } else {
      ValueOfDecimal(n / 10);
      assert s[..|s| - 1] == Decimal(n / 10);
      if n < 1000 { assert n / 10 < 100; TwoDigits(n / 10); }
    }
  }

  lemma TwoDigits(n: nat)
    requires n < 100
    ensures |Decimal(n)| <= 2
  {
    if n >= 10 { assert |Decimal(n / 10)| == 1; }
  }

  function Digit(d: nat): (s: string)
    requires d < 10
    ensures |s| == 1 && AllDigits(s)
  {
    ['0' + d as char]
  }

  lemma LastDigit(t: string, d: nat)
    requires AllDigits(t) && d < 10
    ensures AllDigits(t + Digit(d)) && Value(t + Digit(d)) == 10 * Value(t) + d
  {
    var s := t + Digit(d);
    assert s[..|s| - 1] == t;
  }

  lemma DecimalSplit(n: nat, d: nat)
    requires d < 10
    ensures Decimal(10 * n + d) == if n > 0 then Decimal(n) + Digit(d) else Digit(d)
  {
    assert (10 * n + d) / 10 == n && (10 * n + d) % 10 == d;
    assert "" + Digit(d) == Digit(d);
  }

  lemma Snoc(s: string) returns (t: string, d: nat)
    requires s != "" && AllDigits(s)
    ensures d < 10 && AllDigits(t) && |t| < |s| && s == t + Digit(d)
  {
    var n := |s| - 1;
    assert s[n] in s;
    t, d := s[..n], (s[n] - '0') as nat;
  }

  /** A numeral is how its value prints exactly if it has no leading zero. */
  lemma {:induction false} CanonicalIff(s: string)
    requires s != "" && AllDigits(s)
    ensures Decimal(Value(s)) == s <==> |s| == 1 || s[0] != '0'
    ensures s[0] != '0' ==> Value(s) > 0
    decreases |s|
  {
    var t, d := Snoc(s);
    LastDigit(t, d);
    DecimalSplit(Value(t), d);
    if t == "" {
      assert s == Digit(d);
    } else {
      CanonicalIff(t);
      FirstDigit(Value(s));
      NoShorter(t, Digit(d), Decimal(Value(t)), Decimal(Value(s)));
    }
  }

  /** A leading zero stays one, and what prints has none. */
  lemma NoShorter(t: string, last: string, front: string, printed: string)
    requires t != "" && |last| == 1 && (printed == front + last || printed == last)
    requires t[0] != '0' ==> front == t && printed == front + last
    requires printed == "0" || (printed != "" && printed[0] != '0')
    ensures printed == t + last <==> t[0] != '0'
  {
    if t[0] == '0' { assert (t + last)[0] == '0' && |t + last| > 1; }
  }

  lemma {:induction false} FirstDigit(n: nat)
    ensures n > 0 ==> Decimal(n)[0] != '0'
    ensures n == 0 ==> Decimal(n) == "0"
  {
    if n >= 10 { FirstDigit(n / 10); }
  }
}
