/**
 * The `yyyyMMdd` date pattern the prefix catalogue probes with: the year zero-padded to at least
 * four digits, the month and the day of the month zero-padded to two digits each.
 */
module DateFormat {

  /** The calendar fields of the date being probed (the time zone that yields them is not modelled). */
  datatype CalendarDate = CalendarDate(year: nat, month: nat, day: nat)

  predicate IsDigit(c: char) { '0' <= c <= '9' }

  predicate AllDigits(s: string) {
    forall i :: 0 <= i < |s| ==> IsDigit(s[i])
  }

  function DigitChar(d: nat): (c: char)
    requires d < 10
    ensures IsDigit(c)
  {
    ['0', '1', '2', '3', '4', '5', '6', '7', '8', '9'][d]
  }

  function DigitValue(c: char): (d: nat)
    requires IsDigit(c)
    ensures d < 10
  {
    (c as int - '0' as int) as nat
  }

  lemma DigitRoundTrip(d: nat)
    requires d < 10
    ensures DigitValue(DigitChar(d)) == d
  {
  }

  /** The decimal representation of `n`, without leading zeros. */
  function DecimalDigits(n: nat): (r: string)
    ensures |r| >= 1 && AllDigits(r)
  {
    if n < 10 then [DigitChar(n)] else DecimalDigits(n / 10) + [DigitChar(n % 10)]
  }

  function Zeros(k: nat): (r: string)
    ensures |r| == k && AllDigits(r)
  {
    if k == 0 then [] else Zeros(k - 1) + ['0']
  }

  /** `n` in decimal, zero-padded on the left to at least `width` characters. */
  function Padded(n: nat, width: nat): (r: string)
    ensures AllDigits(r) && |r| >= width
  {
    var digits := DecimalDigits(n);
    if |digits| >= width then digits else Zeros(width - |digits|) + digits
  }

  /** The number a string of decimal digits denotes. */
  function ValueOf(s: string): nat
    requires AllDigits(s)
  {
    if s == [] then 0 else ValueOf(s[..|s| - 1]) * 10 + DigitValue(s[|s| - 1])
  }

  function Pow10(k: nat): (r: nat)
    ensures r >= 1
  {
    if k == 0 then 1 else 10 * Pow10(k - 1)
  }

  lemma {:induction false} ValueOfDecimalDigits(n: nat)
    ensures ValueOf(DecimalDigits(n)) == n
  {
    if n >= 10 {
      ValueOfDecimalDigits(n / 10);
      var d := DecimalDigits(n);
      assert d[..|d| - 1] == DecimalDigits(n / 10);
    }
  }

  lemma {:induction false} DecimalDigitsLength(n: nat, width: nat)
    requires width >= 1 && n < Pow10(width)
    ensures |DecimalDigits(n)| <= width
  {
    if n >= 10 {
      assert width >= 2;
      DecimalDigitsLength(n / 10, width - 1);
    }
  }

  lemma {:induction false} ValueOfSnoc(s: string, c: char)
    requires AllDigits(s) && IsDigit(c)
    ensures ValueOf(s + [c]) == ValueOf(s) * 10 + DigitValue(c)
  {
    assert (s + [c])[..|s + [c]| - 1] == s;
  }

  lemma {:induction false} LeadingZeros(k: nat, s: string)
    requires AllDigits(s)
    ensures ValueOf(Zeros(k) + s) == ValueOf(s)
    decreases |s|, k
  {
    if s == [] {
      assert Zeros(k) + s == Zeros(k);
      if k > 0 {
        assert Zeros(k)[..k - 1] == Zeros(k - 1);
        LeadingZeros(k - 1, []);
        assert Zeros(k - 1) + [] == Zeros(k - 1);
      }
    } else {
      var init := s[..|s| - 1];
      LeadingZeros(k, init);
      assert Zeros(k) + s == (Zeros(k) + init) + [s[|s| - 1]];
      ValueOfSnoc(Zeros(k) + init, s[|s| - 1]);
      assert init + [s[|s| - 1]] == s;
      ValueOfSnoc(init, s[|s| - 1]);
    }
  }

  /** Reading a padded number back gives the number. */
  lemma PaddedRoundTrip(n: nat, width: nat)
    ensures ValueOf(Padded(n, width)) == n
  {
    ValueOfDecimalDigits(n);
    var digits := DecimalDigits(n);
    if |digits| < width {
      LeadingZeros(width - |digits|, digits);
    }
  }

  /** A number that fits in `width` digits is padded to exactly `width` characters. */
  lemma PaddedLength(n: nat, width: nat)
    requires width >= 1 && n < Pow10(width)
    ensures |Padded(n, width)| == width
  {
    DecimalDigitsLength(n, width);
  }

  /** `new SimpleDateFormat("yyyyMMdd").format(date)`. */
  function Yyyymmdd(d: CalendarDate): (r: string)
    ensures AllDigits(r) && |r| >= 8
  {
    Padded(d.year, 4) + Padded(d.month, 2) + Padded(d.day, 2)
  }

  /** The fields of an eight-digit `yyyyMMdd` string. */
  function ParseYyyymmdd(s: string): CalendarDate
    requires |s| == 8 && AllDigits(s)
  {
    CalendarDate(ValueOf(s[..4]), ValueOf(s[4..6]), ValueOf(s[6..]))
  }

  /**
   * For a four-digit year and two-digit month and day the formatted date is eight digits long
   * and determines the date.
   */
  lemma YyyymmddRoundTrip(d: CalendarDate)
    requires d.year < 10000 && d.month < 100 && d.day < 100
    ensures |Yyyymmdd(d)| == 8
    ensures ParseYyyymmdd(Yyyymmdd(d)) == d
  {
    var y, m, dd := Padded(d.year, 4), Padded(d.month, 2), Padded(d.day, 2);
    assert Pow10(4) == 10000 && Pow10(2) == 100;
    PaddedLength(d.year, 4);
    PaddedLength(d.month, 2);
    PaddedLength(d.day, 2);
    var s := Yyyymmdd(d);
    assert s[..4] == y && s[4..6] == m && s[6..] == dd;
    PaddedRoundTrip(d.year, 4);
    PaddedRoundTrip(d.month, 2);
    PaddedRoundTrip(d.day, 2);
  }

  /** The date the catalogue's example uses. */
  lemma FirstOfJanuary2024()
    ensures Yyyymmdd(CalendarDate(2024, 1, 1)) == "20240101"
  {
    assert DecimalDigits(2024) == "2024" by {
      assert DecimalDigits(202) == "202" by {
        assert DecimalDigits(20) == "20";
      }
    }
    assert Zeros(1) == "0";
  }
}
