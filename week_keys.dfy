/** Week keys ("week1", "week2", ...) and their numbers: the `parseWeekNumber` helpers of
    src/Pages/TeamPage.tsx and src/Pages/Standings.tsx and the `week${i}` keys the pages
    build. */
module WeekKeys {
  import opened Wrappers

  predicate IsDigit(c: char)
  {
    '0' <= c <= '9'
  }

  predicate AllDigits(ds: string)
  {
    forall i :: 0 <= i < |ds| ==> IsDigit(ds[i])
  }

  /** Decimal digits without a superfluous leading zero. */
  predicate IsCanonicalDigits(ds: string)
  {
    |ds| >= 1 && AllDigits(ds) && (|ds| > 1 ==> ds[0] != '0')
  }

  function DigitValue(c: char): (d: nat)
    requires IsDigit(c)
    ensures d < 10
  {
    c as int - '0' as int
  }

  function DigitChar(d: nat): (c: char)
    requires d < 10
    ensures IsDigit(c) && DigitValue(c) == d
  {
    ('0' as int + d) as char
  }

  /** The decimal text of n, as `${n}` renders it. */
  function NatToString(n: nat): (s: string)
    ensures |s| >= 1
    ensures n >= 10 ==> |s| > 1
    decreases n
  {
    if n < 10 then [DigitChar(n)] else NatToString(n / 10) + [DigitChar(n % 10)]
  }

  /** The number a string of decimal digits denotes. */
  function DigitsValue(ds: string): nat
    requires AllDigits(ds)
    decreases |ds|
  {
    if ds == [] then 0 else DigitsValue(ds[..|ds| - 1]) * 10 + DigitValue(ds[|ds| - 1])
  }

  /** The key under which the pages store week n. */
  function WeekKey(n: nat): string
  {
    "week" + NatToString(n)
  }

  /** parseWeekNumber: the number of a "week<digits>" key. Keys of any other shape do
      not parse. */
  function ParseWeek(s: string): (r: Option<nat>)
    ensures r.Some? ==> s == WeekKey(r.value)
  {
    if |s| > 4 && s[..4] == "week" && IsCanonicalDigits(s[4..]) then
      TextRoundTrip(s[4..]);
      assert s == s[..4] + s[4..];
      Some(DigitsValue(s[4..]))
    else
      None
  }

  /** Rendering a number gives canonical digits, and reading them back gives the
      number. */
  lemma {:induction false} NumberRoundTrip(n: nat)
    ensures IsCanonicalDigits(NatToString(n)) && DigitsValue(NatToString(n)) == n
    decreases n
  {
    if n >= 10 {
      var s := NatToString(n);
      var p := NatToString(n / 10);
      assert s == p + [DigitChar(n % 10)];
      NumberRoundTrip(n / 10);
      assert p[0] != '0' by {
        if |p| == 1 {
          assert p == [DigitChar(n / 10)];
        }
      }
      assert s[0] == p[0];
      assert s[..|s| - 1] == p;
    }
  }

  /** Digits that start with a non-zero digit denote a positive number. */
  lemma {:induction false} LeadingDigitPositive(ds: string)
    requires |ds| >= 1 && AllDigits(ds) && ds[0] != '0'
    ensures DigitsValue(ds) >= 1
    decreases |ds|
  {
    if |ds| > 1 {
      LeadingDigitPositive(ds[..|ds| - 1]);
    }
  }

  /** Reading canonical digits and rendering the number gives the digits back. */
  lemma {:induction false} TextRoundTrip(ds: string)
    requires IsCanonicalDigits(ds)
    ensures NatToString(DigitsValue(ds)) == ds
    decreases |ds|
  {
    if |ds| == 1 {
      assert DigitsValue(ds) == DigitValue(ds[0]);
      assert DigitChar(DigitValue(ds[0])) == ds[0];
    } else {
      var p := ds[..|ds| - 1];
      var d := DigitValue(ds[|ds| - 1]);
      LeadingDigitPositive(p);
      TextRoundTrip(p);
      var v := DigitsValue(ds);
      assert v == DigitsValue(p) * 10 + d;
      assert v / 10 == DigitsValue(p) && v % 10 == d;
      assert DigitChar(d) == ds[|ds| - 1];
      assert ds == p + [ds[|ds| - 1]];
    }
  }

  /** Every week key parses back to its number. */
  lemma ParseWeekKey(n: nat)
    ensures ParseWeek(WeekKey(n)) == Some(n)
  {
    var s := WeekKey(n);
    assert s[..4] == "week" && s[4..] == NatToString(n);
    NumberRoundTrip(n);
  }

  /** A key parses to n exactly when it is the key of week n; so distinct weeks have
      distinct keys. */
  lemma ParseWeekIff(s: string, n: nat)
    ensures ParseWeek(s) == Some(n) <==> s == WeekKey(n)
  {
    ParseWeekKey(n);
  }

  /** Examples: "week3" is week 3; shapes other than "week" plus digits do not parse. */
  lemma ParseWeekExamples()
    ensures ParseWeek("week3") == Some(3)
    ensures ParseWeek("week12") == Some(12)
    ensures ParseWeek("week") == None
    ensures ParseWeek("w3") == None
    ensures ParseWeek("week-3") == None
  {
    assert "week3"[4..] == "3";
    assert "week12"[4..] == "12";
    assert DigitsValue("12") == DigitsValue("1") * 10 + 2;
    assert "week-3"[4..] == "-3" && !IsDigit("-3"[0]);
  }
}
