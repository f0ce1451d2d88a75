/**
 * The `YYYY-MM-DD` text of a date (Python's `str(date)`), its inverse, and
 * Python's prefix slice `s[:n]`, which the report column names are built from.
 */
module IsoDate {
  import opened Options
  import opened Calendar

  predicate IsDigit(c: char)
  {
    '0' <= c <= '9'
  }

  predicate AllDigits(s: string)
  {
    forall i :: 0 <= i < |s| ==> IsDigit(s[i])
  }

  function DigitChar(n: int): (c: char)
    requires 0 <= n <= 9
    ensures IsDigit(c)
  {
    ('0' as int + n) as char
  }

  function DigitValue(c: char): (n: int)
    requires IsDigit(c)
    ensures 0 <= n <= 9
  {
    c as int - '0' as int
  }

  /** Value of a string of decimal digits, most significant first. */
  function NumberValue(s: string): (n: nat)
    requires AllDigits(s)
  {
    if |s| == 0 then 0 else NumberValue(s[..|s| - 1]) * 10 + DigitValue(s[|s| - 1])
  }

  /** `%02d` of a number below 100. */
  function Pad2(n: int): (s: string)
    requires 0 <= n < 100
  {
    [DigitChar(n / 10), DigitChar(n % 10)]
  }

  /** `%04d` of a number below 10000. */
  function Pad4(n: int): (s: string)
    requires 0 <= n < 10000
  {
    [DigitChar(n / 1000), DigitChar(n / 100 % 10), DigitChar(n / 10 % 10), DigitChar(n % 10)]
  }

  /** Python's `str(date)`: `YYYY-MM-DD`, zero padded. */
  function Format(d: CalDate): (s: string)
    ensures |s| == 10 && s[4] == '-' && s[7] == '-'
  {
    Pad4(d.year) + "-" + Pad2(d.month) + "-" + Pad2(d.day)
  }

  /** `YYYY-MM`: the year and month of a date as text. */
  function YearMonth(d: CalDate): (s: string)
    ensures |s| == 7
  {
    Pad4(d.year) + "-" + Pad2(d.month)
  }

  /** Python's prefix slice `s[:n]`: all of `s` when it is shorter than `n`. */
  function Take(s: string, n: nat): (r: string)
    ensures |r| == if |s| <= n then |s| else n
    ensures forall i :: 0 <= i < |r| ==> r[i] == s[i]
  {
    if |s| <= n then s else s[..n]
  }

  /** Reads `YYYY-MM-DD` back; anything else, or a day not on the calendar, is None. */
  function Parse(s: string): (r: Option<CalDate>)
  {
    if |s| == 10 && s[4] == '-' && s[7] == '-'
       && AllDigits(s[0..4]) && AllDigits(s[5..7]) && AllDigits(s[8..10]) then
      var d := Date(NumberValue(s[0..4]), NumberValue(s[5..7]), NumberValue(s[8..10]));
      if Valid(d) then Some(d) else None
    else
      None
  }

  lemma Pad2Value(n: int)
    requires 0 <= n < 100
    ensures AllDigits(Pad2(n)) && NumberValue(Pad2(n)) == n
  {
    var s := Pad2(n);
    assert s[..1] == [s[0]];
    assert NumberValue(s[..0]) == 0;
  }

  lemma Pad4Value(n: int)
    requires 0 <= n < 10000
    ensures AllDigits(Pad4(n)) && NumberValue(Pad4(n)) == n
  {
    var s := Pad4(n);
    FourDigitsValue(s);
    PlaceValues(n);
  }

  /** A number below 10000 is the sum of its four decimal places. */
  lemma PlaceValues(n: int)
    requires 0 <= n < 10000
    ensures n == n / 1000 * 1000 + n / 100 % 10 * 100 + n / 10 % 10 * 10 + n % 10
  {
    var m1, d0 := n / 10, n % 10;
    var m2, d1 := m1 / 10, m1 % 10;
    var m3, d2 := m2 / 10, m2 % 10;
    DivMod(n, 100, m2, d1 * 10 + d0);
    DivMod(n, 1000, m3, d2 * 100 + d1 * 10 + d0);
  }

  lemma DivMod(n: int, k: int, q: int, r: int)
    requires k == 10 || k == 100 || k == 1000
    requires 0 <= r < k && n == q * k + r
    ensures n / k == q && n % k == r
  {
    if k == 10 {
      assert n == q * 10 + r;
    } else if k == 100 {
      assert n == q * 100 + r;
    } else {
      assert n == q * 1000 + r;
    }
  }

  lemma Pad2OfValue(s: string)
    requires |s| == 2 && AllDigits(s)
    ensures NumberValue(s) < 100 && Pad2(NumberValue(s)) == s
  {
    assert s[..1][..0] == s[..0];
    assert NumberValue(s[..1]) == DigitValue(s[0]);
    var n := NumberValue(s);
    assert n == DigitValue(s[0]) * 10 + DigitValue(s[1]);
  }

  lemma Pad4OfValue(s: string)
    requires |s| == 4 && AllDigits(s)
    ensures NumberValue(s) < 10000 && Pad4(NumberValue(s)) == s
  {
    var a, b, c, e := DigitValue(s[0]), DigitValue(s[1]), DigitValue(s[2]), DigitValue(s[3]);
    FourDigitsValue(s);
    Pad4OfDigits(a, b, c, e);
    assert s == [DigitChar(a), DigitChar(b), DigitChar(c), DigitChar(e)];
  }

  /** The value of four digits, place by place. */
  lemma FourDigitsValue(s: string)
    requires |s| == 4 && AllDigits(s)
    ensures NumberValue(s) == DigitValue(s[0]) * 1000 + DigitValue(s[1]) * 100 + DigitValue(s[2]) * 10 + DigitValue(s[3])
  {
    assert s[..3][..2] == s[..2];
    assert s[..2][..1] == s[..1];
    assert s[..1][..0] == s[..0];
    assert NumberValue(s[..1]) == DigitValue(s[0]);
    assert NumberValue(s[..2]) == DigitValue(s[0]) * 10 + DigitValue(s[1]);
  }

  /** Padding the number with digits a, b, c, e gives those digits back. */
  lemma Pad4OfDigits(a: int, b: int, c: int, e: int)
    requires 0 <= a <= 9 && 0 <= b <= 9 && 0 <= c <= 9 && 0 <= e <= 9
    ensures Pad4(a * 1000 + b * 100 + c * 10 + e) == [DigitChar(a), DigitChar(b), DigitChar(c), DigitChar(e)]
  {
    var n := a * 1000 + b * 100 + c * 10 + e;
    DivMod(n, 1000, a, b * 100 + c * 10 + e);
    DivMod(n, 100, a * 10 + b, c * 10 + e);
    DivMod(a * 10 + b, 10, a, b);
    DivMod(n, 10, a * 100 + b * 10 + c, e);
    DivMod(a * 100 + b * 10 + c, 10, a * 10 + b, c);
  }

  /** Reading back the text of a date gives the date. */
  lemma {:induction false} ParseFormat(d: CalDate)
    ensures Parse(Format(d)) == Some(d)
  {
    var s := Format(d);
    assert s[0..4] == Pad4(d.year);
    assert s[5..7] == Pad2(d.month);
    assert s[8..10] == Pad2(d.day);
    Pad4Value(d.year);
    Pad2Value(d.month);
    Pad2Value(d.day);
  }

  /** Any text that reads as a date is exactly that date's text. */
  lemma {:induction false} FormatParse(s: string)
    requires Parse(s).Some?
    ensures Format(Parse(s).value) == s
  {
    var d := Parse(s).value;
    Pad4OfValue(s[0..4]);
    Pad2OfValue(s[5..7]);
    Pad2OfValue(s[8..10]);
    assert s == s[0..4] + "-" + s[5..7] + "-" + s[8..10];
  }

  /** The first seven characters of a date's text are its `YYYY-MM`. */
  lemma {:induction false} TakeSevenIsYearMonth(d: CalDate)
    ensures Take(Format(d), 7) == YearMonth(d)
  {
  }

  /** Distinct months have distinct `YYYY-MM` texts. */
  lemma {:induction false} YearMonthInjective(a: CalDate, b: CalDate)
    requires YearMonth(a) == YearMonth(b)
    ensures a.year == b.year && a.month == b.month
  {
    assert YearMonth(a)[0..4] == Pad4(a.year);
    assert YearMonth(b)[0..4] == Pad4(b.year);
    assert YearMonth(a)[5..7] == Pad2(a.month);
    assert YearMonth(b)[5..7] == Pad2(b.month);
    Pad4Value(a.year);
    Pad4Value(b.year);
    Pad2Value(a.month);
    Pad2Value(b.month);
  }
}
