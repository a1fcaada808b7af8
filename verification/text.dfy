/** The three pieces of Python string behaviour the dashboard relies on:
    `str(year)` for an integer year, `int(text)` for a year chosen as text, and
    the code-point order in which `sorted` arranges strings. */
module Text {
  import opened Wrappers
  import opened Sequences

  /** `a` and `b` agree on their first `k` code points, and `a` ends there or
      has the smaller code point there while `b` goes on. */
  ghost predicate SmallerAt(a: string, b: string, k: int) {
    && 0 <= k <= |a| && k < |b|
    && a[..k] == b[..k]
    && (k == |a| || a[k] < b[k])
  }

  /** Dropping an agreeing first code point moves the place of difference one
      step left. */
  lemma SmallerAtTail(a: string, b: string, k: int)
    requires |a| > 0 && |b| > 0 && a[0] == b[0]
    ensures SmallerAt(a, b, k + 1) <==> SmallerAt(a[1..], b[1..], k)
  {
    if 0 <= k < |a| && k + 1 < |b| {
      assert a[..k + 1] == [a[0]] + a[1..][..k] && b[..k + 1] == [b[0]] + b[1..][..k];
    }
  }

  /** Python's `<` on strings: `a` is smaller when, at the first code point
      where the two differ, `a`'s is smaller, or when `a` is a proper prefix
      of `b`. */
  predicate LexLess(a: string, b: string)
    ensures LexLess(a, b) <==> exists k :: SmallerAt(a, b, k)
    decreases |a|
  {
    if |a| == 0 then
      assert |b| > 0 ==> SmallerAt(a, b, 0);
      |b| > 0
    else if |b| == 0 then false
    else if a[0] < b[0] then
      assert SmallerAt(a, b, 0);
      true
    else if a[0] == b[0] then
      var r := LexLess(a[1..], b[1..]);
      assert r ==> exists k :: SmallerAt(a, b, k) by {
        if r {
          var k :| SmallerAt(a[1..], b[1..], k);
          SmallerAtTail(a, b, k);
        }
      }
      assert (exists k :: SmallerAt(a, b, k)) ==> r by {
        if exists k :: SmallerAt(a, b, k) {
          var k :| SmallerAt(a, b, k);
          assert k != 0;
          SmallerAtTail(a, b, k - 1);
        }
      }
      r
    else
      assert forall k :: !SmallerAt(a, b, k) by {
        forall k
          ensures !SmallerAt(a, b, k)
        {
          if 0 < k <= |a| && k < |b| {
            assert a[..k][0] == a[0] && b[..k][0] == b[0];
          }
        }
      }
      false
  }

  lemma {:induction false} LexIrreflexive(a: string)
    ensures !LexLess(a, a)
    decreases |a|
  {
    if |a| > 0 {
      LexIrreflexive(a[1..]);
    }
  }

  lemma {:induction false} LexTransitive(a: string, b: string, c: string)
    requires LexLess(a, b) && LexLess(b, c)
    ensures LexLess(a, c)
    decreases |a|
  {
    if |a| > 0 && a[0] == b[0] && b[0] == c[0] {
      LexTransitive(a[1..], b[1..], c[1..]);
    }
  }

  lemma {:induction false} LexTotal(a: string, b: string)
    requires a != b
    ensures LexLess(a, b) || LexLess(b, a)
    decreases |a|
  {
    if |a| > 0 && |b| > 0 && a[0] == b[0] {
      assert a == [a[0]] + a[1..] && b == [b[0]] + b[1..];
      LexTotal(a[1..], b[1..]);
    }
  }

  /** The string order is a strict total order, so sorting strings is well defined. */
  lemma LexStrictTotalOrder()
    ensures StrictTotalOrder(LexLess)
  {
    forall a: string
      ensures !LexLess(a, a)
    {
      LexIrreflexive(a);
    }
    forall a: string, b: string, c: string | LexLess(a, b) && LexLess(b, c)
      ensures LexLess(a, c)
    {
      LexTransitive(a, b, c);
    }
    forall a: string, b: string | a != b
      ensures LexLess(a, b) || LexLess(b, a)
    {
      LexTotal(a, b);
    }
  }

  /** A common prefix does not change how two strings compare. */
  lemma {:induction false} LexCommonPrefix(p: string, x: string, y: string)
    requires LexLess(x, y)
    ensures LexLess(p + x, p + y)
    decreases |p|
  {
    var px, py := p + x, p + y;
    if |p| == 0 {
      assert px == x && py == y;
    } else {
      assert px[0] == p[0] == py[0];
      assert px[1..] == p[1..] + x && py[1..] == p[1..] + y;
      LexCommonPrefix(p[1..], x, y);
      assert LexLess(px[1..], py[1..]);
    }
  }

  /** Two strings of equal length keep their order whatever follows them. */
  lemma {:induction false} LexEqualLengthExtend(p: string, q: string, x: string, y: string)
    requires |p| == |q| && LexLess(p, q)
    ensures LexLess(p + x, q + y)
    decreases |p|
  {
    assert (p + x)[0] == p[0] && (q + y)[0] == q[0];
    if p[0] == q[0] {
      assert (p + x)[1..] == p[1..] + x && (q + y)[1..] == q[1..] + y;
      LexEqualLengthExtend(p[1..], q[1..], x, y);
    }
  }

  predicate IsDigit(c: char) {
    '0' <= c <= '9'
  }

  function DigitChar(d: int): (c: char)
    requires 0 <= d < 10
    ensures IsDigit(c) && c as int - '0' as int == d
  {
    (d + '0' as int) as char
  }

  /** Decimal digits of `n`, most significant first, with no leading zero. */
  function NatString(n: nat): string
    decreases n
  {
    if n < 10 then [DigitChar(n)] else NatString(n / 10) + [DigitChar(n % 10)]
  }

  /** Python's `str(y)` for an integer year. Reading the text back gives the
      year: `int(str(y)) == y`. */
  function YearString(y: int): (s: string)
    ensures ParseYear(s) == Some(y)
  {
    if y < 0 then
      NatStringValue(-y);
      var s := "-" + NatString(-y);
      assert s[1..] == NatString(-y);
      s
    else
      NatStringValue(y);
      NatStringShape(y);
      var s := NatString(y);
      assert s[0] != '-';
      s
  }

  predicate AllDigits(s: string) {
    forall i :: 0 <= i < |s| ==> IsDigit(s[i])
  }

  /** The number a string of decimal digits denotes. */
  function DigitsValue(s: string): nat
    requires AllDigits(s)
    decreases |s|
  {
    if |s| == 0 then 0
    else DigitsValue(s[..|s| - 1]) * 10 + (s[|s| - 1] as int - '0' as int)
  }

  /** Python's `int(text)` on the texts a year is written as: an optional minus
      sign and at least one decimal digit; anything else is rejected. */
  function ParseYear(s: string): (r: Option<int>)
    ensures r.Some? <==> |s| > 0 && IsDigit(s[|s| - 1]) && forall i :: 0 <= i < |s| ==> IsDigit(s[i]) || (i == 0 && s[i] == '-')
    ensures r.Some? && IsDigit(s[0]) ==> r.value >= 0
    ensures r.Some? && s[0] == '-' ==> r.value <= 0
  {
    if |s| > 1 && s[0] == '-' && AllDigits(s[1..]) then
      assert forall i :: 1 <= i < |s| ==> s[i] == s[1..][i - 1];
      Some(0 - DigitsValue(s[1..]) as int)
    else if |s| > 0 && AllDigits(s) then Some(DigitsValue(s))
    else
      assert |s| > 1 && s[0] == '-' ==> !forall i :: 1 <= i < |s| ==> IsDigit(s[i]) by {
        if |s| > 1 && s[0] == '-' {
          var j :| 0 <= j < |s[1..]| && !IsDigit(s[1..][j]);
          assert s[j + 1] == s[1..][j];
        }
      }
      None
  }

  lemma {:induction false} NatStringShape(n: nat)
    ensures |NatString(n)| >= 1 && AllDigits(NatString(n))
    ensures n >= 10 ==> |NatString(n)| >= 2
    decreases n
  {
    if n >= 10 {
      NatStringShape(n / 10);
    }
  }

  lemma {:induction false} NatStringValue(n: nat)
    ensures AllDigits(NatString(n)) && DigitsValue(NatString(n)) == n
    decreases n
  {
    NatStringShape(n);
    var s := NatString(n);
    if n < 10 {
      assert s[..0] == [];
    } else {
      NatStringValue(n / 10);
      assert s[..|s| - 1] == NatString(n / 10);
    }
  }

  /** The texts `str` writes for an integer: "0", or decimal digits without a
      leading zero, optionally after a minus sign. */
  predicate CanonicalInt(s: string) {
    || s == "0"
    || (|s| > 0 && AllDigits(s) && s[0] != '0')
    || (|s| > 1 && s[0] == '-' && AllDigits(s[1..]) && s[1] != '0')
  }

  /** `str(y)` is always canonical. */
  lemma YearStringCanonical(y: int)
    ensures CanonicalInt(YearString(y))
  {
    if y < 0 {
      NatStringShape(-y);
      NatStringLead(-y);
      assert YearString(y)[1..] == NatString(-y);
    } else {
      NatStringShape(y);
      NatStringLead(y);
    }
  }

  /** Printing the number a canonical text reads as gives back that text:
      `str(int(s)) == s`. */
  lemma ParseYearRoundTrip(s: string)
    requires CanonicalInt(s)
    ensures ParseYear(s).Some? && YearString(ParseYear(s).value) == s
  {
    if s[0] == '-' {
      var d := s[1..];
      DigitsRoundTrip(d);
      DigitsValuePositive(d);
      assert s == "-" + d;
    } else {
      DigitsRoundTrip(s);
    }
  }

  /** A leading zero does not change the number a text reads as, with or
      without a minus sign; "-0" reads as 0. */
  lemma ParseYearLeadingZero(s: string)
    requires |s| > 0 && AllDigits(s)
    ensures ParseYear("0" + s) == ParseYear(s)
    ensures ParseYear("-0" + s) == ParseYear("-" + s)
    ensures ParseYear("-0") == Some(0)
  {
    DigitsLeadingZero(s);
    assert ("-0" + s)[1..] == "0" + s;
    assert ("-" + s)[1..] == s;
    assert "-0"[1..] == "0";
  }

  lemma {:induction false} DigitsLeadingZero(s: string)
    requires AllDigits(s)
    ensures AllDigits("0" + s) && DigitsValue("0" + s) == DigitsValue(s)
    decreases |s|
  {
    if |s| > 0 {
      var init := s[..|s| - 1];
      DigitsLeadingZero(init);
      assert ("0" + s)[..|s|] == "0" + init;
    }
  }

  lemma {:induction false} DigitsValuePositive(s: string)
    requires |s| > 0 && AllDigits(s) && s[0] != '0'
    ensures DigitsValue(s) >= 1
    decreases |s|
  {
    if |s| > 1 {
      DigitsValuePositive(s[..|s| - 1]);
    }
  }

  /** Digits without a leading zero, or the single digit 0, are what
      `NatString` writes for their value. */
  lemma {:induction false} DigitsRoundTrip(s: string)
    requires |s| > 0 && AllDigits(s) && (s[0] != '0' || s == "0")
    ensures NatString(DigitsValue(s)) == s
    decreases |s|
  {
    if |s| > 1 {
      var init := s[..|s| - 1];
      DigitsRoundTrip(init);
      DigitsValuePositive(init);
      var n := DigitsValue(s);
      assert n / 10 == DigitsValue(init) && n % 10 == s[|s| - 1] as int - '0' as int;
      assert s == init + [s[|s| - 1]];
    }
  }

  lemma {:induction false} NatStringLead(n: nat)
    ensures n == 0 ==> NatString(n) == "0"
    ensures n >= 1 ==> |NatString(n)| > 0 && NatString(n)[0] != '0'
    decreases n
  {
    if n >= 10 {
      NatStringLead(n / 10);
    }
  }

  /** Different years are written differently. */
  lemma YearStringInjective(a: int, b: int)
    requires YearString(a) == YearString(b)
    ensures a == b
  {
  }

  /** Among numbers with the same count of digits, text order is number order. */
  lemma {:induction false} NatStringMonotone(a: nat, b: nat)
    requires a < b && |NatString(a)| == |NatString(b)|
    ensures LexLess(NatString(a), NatString(b))
    decreases b
  {
    NatStringShape(a);
    NatStringShape(b);
    if b < 10 {
      assert NatString(a) == [DigitChar(a)] && NatString(b) == [DigitChar(b)];
      assert NatString(a)[1..] == [] && NatString(b)[1..] == [];
    } else {
      NatStringShape(a / 10);
      NatStringShape(b / 10);
      var pa, pb := NatString(a / 10), NatString(b / 10);
      if a / 10 < b / 10 {
        NatStringMonotone(a / 10, b / 10);
        LexEqualLengthExtend(pa, pb, [DigitChar(a % 10)], [DigitChar(b % 10)]);
      } else {
        assert pa == pb;
        assert a % 10 < b % 10;
        LexCommonPrefix(pa, [DigitChar(a % 10)], [DigitChar(b % 10)]);
      }
    }
  }

  /** Every year from 1000 to 9999 is written with exactly four digits. */
  lemma FourDigits(y: int)
    requires 1000 <= y <= 9999
    ensures |YearString(y)| == 4
  {
    var d1 := y / 10;
    var d2 := d1 / 10;
    var d3 := d2 / 10;
    assert 100 <= d1 <= 999 && 10 <= d2 <= 99 && 1 <= d3 <= 9;
    assert |NatString(d3)| == 1;
    assert |NatString(d2)| == |NatString(d3)| + 1;
    assert |NatString(d1)| == |NatString(d2)| + 1;
    assert |NatString(y)| == |NatString(d1)| + 1;
  }

  /** For four-digit years, sorting their texts sorts the years. */
  lemma FourDigitYearOrder(a: int, b: int)
    requires 1000 <= a <= 9999 && 1000 <= b <= 9999
    ensures a < b <==> LexLess(YearString(a), YearString(b))
  {
    FourDigits(a);
    FourDigits(b);
    if a < b {
      NatStringMonotone(a, b);
    } else if a == b {
      LexIrreflexive(YearString(a));
    } else {
      NatStringMonotone(b, a);
      LexIrreflexive(YearString(a));
      if LexLess(YearString(a), YearString(b)) {
        LexTransitive(YearString(a), YearString(b), YearString(a));
      }
    }
  }
}
