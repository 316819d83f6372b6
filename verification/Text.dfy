/** Text as the database compares it (byte by byte) and decimal digits as Go prints them. */
module Text {
  import opened Prelude

  /** Strict lexicographic order. */
  predicate TextLess(a: string, b: string) {
    b != [] && (a == [] || a[0] < b[0] || (a[0] == b[0] && TextLess(a[1..], b[1..])))
  }

  lemma {:induction false} TextLessTrichotomy(a: string, b: string)
    ensures TextLess(a, b) || a == b || TextLess(b, a)
    ensures !(TextLess(a, b) && TextLess(b, a)) && !TextLess(a, a)
  {
    if a != [] {
      TextLessTrichotomy(a[1..], a[1..]);
      if b != [] {
        TextLessTrichotomy(a[1..], b[1..]);
        if a[0] == b[0] && a[1..] == b[1..] {
          assert a == [a[0]] + a[1..] && b == [b[0]] + b[1..];
        }
      }
    }
  }

  lemma {:induction false} TextLessTransitive(a: string, b: string, c: string)
    requires TextLess(a, b) && TextLess(b, c)
    ensures TextLess(a, c)
  {
    if a != [] && a[0] == b[0] == c[0] {
      TextLessTransitive(a[1..], b[1..], c[1..]);
    }
  }

  /** Texts whose first parts have the same length are ordered by those parts first. */
  lemma {:induction false} TextLessConcat(p: string, q: string, p': string, q': string)
    requires |p| == |p'|
    ensures TextLess(p + q, p' + q') <==> TextLess(p, p') || (p == p' && TextLess(q, q'))
  {
    if p == [] {
      assert p + q == q && p' + q' == q';
    } else {
      assert (p + q)[1..] == p[1..] + q && (p' + q')[1..] == p'[1..] + q';
      TextLessConcat(p[1..], q, p'[1..], q');
      assert p == [p[0]] + p[1..] && p' == [p'[0]] + p'[1..];
    }
  }

  // ----- Digits --------------------------------------------------------------------------------

  function DigitChar(d: int): (c: char)
    requires 0 <= d < 10
    ensures IsDigit(c) && DigitValue(c) == d
  {
    '0' + d as char
  }

  predicate IsDigit(c: char) {
    '0' <= c <= '9'
  }

  function DigitValue(c: char): (d: int)
    requires IsDigit(c)
    ensures 0 <= d < 10
  {
    (c - '0') as int
  }

  predicate AllDigits(s: string) {
    forall i :: 0 <= i < |s| ==> IsDigit(s[i])
  }

  function Digits(n: nat): (s: string)
    ensures s != [] && AllDigits(s)
  {
    if n < 10 then [DigitChar(n)] else Digits(n / 10) + [DigitChar(n % 10)]
  }

  function DigitsValue(s: string): nat
    requires AllDigits(s)
  {
    if s == [] then 0 else 10 * DigitsValue(Front(s)) + DigitValue(Last(s))
  }

  lemma {:induction false} DigitsRoundTrip(n: nat)
    ensures DigitsValue(Digits(n)) == n
  {
    if n < 10 {
      assert Front([DigitChar(n)]) == [];
    } else {
      DigitsRoundTrip(n / 10);
      assert Front(Digits(n)) == Digits(n / 10);
    }
  }

  /** `strconv.Itoa`. */
  function Itoa(n: int): string {
    if n < 0 then "-" + Digits(-n) else Digits(n)
  }

  lemma ItoaInjective(n: int, m: int)
    requires Itoa(n) == Itoa(m)
    ensures n == m
  {
    DigitsRoundTrip(if n < 0 then -n else n);
    DigitsRoundTrip(if m < 0 then -m else m);
    assert n < 0 ==> Itoa(n)[0] == '-' && Itoa(n)[1..] == Digits(-n);
    assert m < 0 ==> Itoa(m)[0] == '-' && Itoa(m)[1..] == Digits(-m);
    assert n >= 0 ==> IsDigit(Itoa(n)[0]);
    assert m >= 0 ==> IsDigit(Itoa(m)[0]);
  }

  // ----- Fixed-width numbers -------------------------------------------------------------------

  /** The last two decimal digits. */
  function Pad2(n: nat): (s: string)
    ensures |s| == 2
  {
    [DigitChar(n / 10 % 10), DigitChar(n % 10)]
  }

  function Number2(s: string): (n: int)
    requires |s| == 2 && AllDigits(s)
    ensures 0 <= n < 100
  {
    DigitValue(s[0]) * 10 + DigitValue(s[1])
  }

  lemma Number2RoundTrip(s: string)
    requires |s| == 2 && AllDigits(s)
    ensures Pad2(Number2(s)) == s
  {
    DigitOfValue(s[0]);
    DigitOfValue(s[1]);
    hide IsDigit, DigitChar, DigitValue;
    var a, b := DigitValue(s[0]), DigitValue(s[1]);
    assert (a * 10 + b) / 10 % 10 == a && (a * 10 + b) % 10 == b;
  }

  lemma DigitOfValue(c: char)
    requires IsDigit(c)
    ensures DigitChar(DigitValue(c)) == c
  {}

  lemma Pad2RoundTrip(n: nat)
    requires n < 100
    ensures AllDigits(Pad2(n)) && Number2(Pad2(n)) == n
  {}

  /** The last four decimal digits. */
  function Pad4(n: nat): (s: string)
    ensures |s| == 4
  {
    Pad2(n / 100) + Pad2(n % 100)
  }

  /** Zero padding makes text order agree with numeric order. */
  lemma {:induction false} Pad2Order(n: nat, m: nat)
    requires n < m < 100
    ensures TextLess(Pad2(n), Pad2(m))
  {}

  lemma Pad4Order(n: nat, m: nat)
    requires n < m < 10_000
    ensures TextLess(Pad4(n), Pad4(m))
  {
    TextLessConcat(Pad2(n / 100), Pad2(n % 100), Pad2(m / 100), Pad2(m % 100));
    if n / 100 < m / 100 {
      Pad2Order(n / 100, m / 100);
    } else {
      Pad2Order(n % 100, m % 100);
    }
  }
}
