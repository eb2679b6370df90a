/** The date text the calendar writes and reads: date-fns `format` with the
    patterns 'yyyy-MM-dd' and 'yyyy-MM', and the parsing of a stored
    'yyyy-MM-dd' string back into a calendar date. */
module DateFormat {
  import opened Wrappers
  import opened Dates

  predicate IsDigit(c: char) {
    '0' <= c <= '9'
  }

  predicate AllDigits(s: string) {
    forall i :: 0 <= i < |s| ==> IsDigit(s[i])
  }

  function DigitChar(n: int): (c: char)
    requires 0 <= n < 10
    ensures IsDigit(c)
  {
    ('0' as int + n) as char
  }

  function DigitValue(c: char): int
    requires IsDigit(c)
  {
    c as int - '0' as int
  }

  function Pow10(k: nat): nat {
    if k == 0 then 1 else 10 * Pow10(k - 1)
  }

  /** Value of a string of decimal digits (leading zeros allowed). */
  function DigitsValue(s: string): nat
    requires AllDigits(s)
  {
    if s == [] then 0 else DigitsValue(s[..|s| - 1]) * 10 + DigitValue(s[|s| - 1])
  }

  /** Decimal digits of `n`, without leading zeros (Number.prototype.toString):
      the first digit is '0' only for zero itself, which is the one-digit "0". */
  function Decimal(n: nat): (s: string)
    ensures |s| >= 1 && AllDigits(s)
    ensures DigitsValue(s) == n
    ensures |s| == 1 <==> n < 10
    ensures s[0] == '0' <==> n == 0
    decreases n
  {
    if n < 10 then [DigitChar(n)]
    else
      var s := Decimal(n / 10) + [DigitChar(n % 10)];
      assert s[..|s| - 1] == Decimal(n / 10);
      assert s[0] == Decimal(n / 10)[0];
      s
  }

  function Zeros(k: nat): (s: string)
    ensures |s| == k && AllDigits(s)
  {
    seq(k, _ => '0')
  }

  /** date-fns `addLeadingZeros` for a non-negative number: its digits, left-padded
      with '0' to at least `width` characters. */
  function PadNumber(n: nat, width: nat): (s: string)
    ensures AllDigits(s) && DigitsValue(s) == n
    ensures |s| >= width && |s| >= 1
    ensures |s| > width ==> |s| == 1 || s[0] != '0'
  {
    var t := Decimal(n);
    if |t| >= width then t
    else
      LeadingZerosValue(width - |t|, t);
      Zeros(width - |t|) + t
  }

  /** The 'yyyy' token: the year of the era, so years before 1 are written as `1 - year`. */
  function FormatYear(y: int): (s: string)
    ensures AllDigits(s) && |s| >= 4
    ensures DigitsValue(s) == if y > 0 then y else 1 - y
  {
    PadNumber(if y > 0 then y else 1 - y, 4)
  }

  /** `format(date, 'yyyy-MM')`: the year, a dash and the two-digit month. */
  function FormatYearMonth(d: Date): (s: string)
    requires IsValid(d)
    ensures |s| == |FormatYear(d.year)| + 3 && s[..|s| - 3] == FormatYear(d.year) && s[|s| - 3] == '-'
    ensures AllDigits(s[|s| - 2..]) && DigitsValue(s[|s| - 2..]) == d.month
  {
    PadNumberValue(d.month, 2);
    var s := FormatYear(d.year) + "-" + PadNumber(d.month, 2);
    assert s[|s| - 2..] == PadNumber(d.month, 2);
    s
  }

  /** `format(date, 'yyyy-MM-dd')`: the `yyyy-MM` stamp, a dash and the two-digit day. */
  function FormatDate(d: Date): (s: string)
    requires IsValid(d)
    ensures |s| == |FormatYearMonth(d)| + 3 && s[..|s| - 3] == FormatYearMonth(d) && s[|s| - 3] == '-'
    ensures AllDigits(s[|s| - 2..]) && DigitsValue(s[|s| - 2..]) == d.day
  {
    PadNumberValue(d.day, 2);
    var s := FormatYearMonth(d) + "-" + PadNumber(d.day, 2);
    assert s[|s| - 2..] == PadNumber(d.day, 2);
    s
  }

  /** Reads a stored 'yyyy-MM-dd' date; None stands for an Invalid Date (wrong shape
      or a day that does not exist). */
  function ParseDate(s: string): (r: Option<Date>)
    ensures r.Some? ==> IsValid(r.value) && r.value.year >= 0
  {
    if |s| == 10 && s[4] == '-' && s[7] == '-'
       && AllDigits(s[..4]) && AllDigits(s[5..7]) && AllDigits(s[8..])
    then
      var d := Date(DigitsValue(s[..4]), DigitsValue(s[5..7]), DigitsValue(s[8..]));
      if IsValid(d) then Some(d) else None
    else None
  }

  // ---------------------------------------------------------------------------
  // Lemmas

  lemma {:induction false} DecimalLength(n: nat, k: nat)
    requires k >= 1 && n < Pow10(k)
    ensures |Decimal(n)| <= k
    decreases n
  {
    if n >= 10 {
      DecimalLength(n / 10, k - 1);
    }
  }

  lemma {:induction false} ZerosValue(k: nat)
    ensures DigitsValue(Zeros(k)) == 0
  {
    if k > 0 {
      assert Zeros(k)[..k - 1] == Zeros(k - 1);
      ZerosValue(k - 1);
    }
  }

  /** Leading zeros do not change the value of a digit string. */
  lemma {:induction false} LeadingZerosValue(k: nat, t: string)
    requires AllDigits(t)
    ensures AllDigits(Zeros(k) + t) && DigitsValue(Zeros(k) + t) == DigitsValue(t)
    decreases |t|
  {
    var s := Zeros(k) + t;
    if t == [] {
      assert s == Zeros(k);
      ZerosValue(k);
    } else {
      assert s[..|s| - 1] == Zeros(k) + t[..|t| - 1];
      LeadingZerosValue(k, t[..|t| - 1]);
    }
  }

  /** Padding keeps the number's value, and a number below 10^width fills exactly `width` characters. */
  lemma PadNumberValue(n: nat, width: nat)
    requires width >= 1 && n < Pow10(width)
    ensures |PadNumber(n, width)| == width
    ensures AllDigits(PadNumber(n, width)) && DigitsValue(PadNumber(n, width)) == n
  {
    DecimalLength(n, width);
    var t := Decimal(n);
    if |t| < width {
      LeadingZerosValue(width - |t|, t);
    }
  }

  lemma {:induction false} ZeroValueIsZeros(t: string)
    requires AllDigits(t) && DigitsValue(t) == 0
    ensures t == Zeros(|t|)
  {
    if t != [] {
      var init := t[..|t| - 1];
      assert DigitsValue(init) == 0 && DigitValue(t[|t| - 1]) == 0;
      ZeroValueIsZeros(init);
      forall i | 0 <= i < |t|
        ensures t[i] == '0'
      {
        if i < |t| - 1 {
          assert t[i] == init[i];
        }
      }
    }
  }

  /** A digit string is the padded form of its own value. */
  lemma {:induction false} DigitsArePadded(t: string)
    requires |t| >= 1 && AllDigits(t)
    ensures |Decimal(DigitsValue(t))| <= |t|
    ensures t == Zeros(|t| - |Decimal(DigitsValue(t))|) + Decimal(DigitsValue(t))
    decreases |t|
  {
    var init, c := t[..|t| - 1], t[|t| - 1];
    assert t == init + [c];
    var n := DigitsValue(t);
    if DigitsValue(init) == 0 {
      ZeroValueIsZeros(init);
      assert n == DigitValue(c);
      assert Decimal(n) == [c];
    } else {
      DigitsArePadded(init);
      assert n / 10 == DigitsValue(init) && n % 10 == DigitValue(c);
      assert Decimal(n) == Decimal(n / 10) + [c];
    }
  }

  lemma PadNumberOfDigits(t: string)
    requires |t| >= 1 && AllDigits(t)
    ensures PadNumber(DigitsValue(t), |t|) == t
  {
    DigitsArePadded(t);
  }

  /** Every date of years 1 to 9999 is written as ten characters `yyyy-MM-dd`. */
  lemma FormatDateShape(d: Date)
    requires IsValid(d) && 1 <= d.year <= 9999
    ensures |FormatDate(d)| == 10 && FormatDate(d)[4] == '-' && FormatDate(d)[7] == '-'
    ensures FormatDate(d)[..7] == FormatYearMonth(d)
    ensures |FormatYearMonth(d)| == 7
  {
    PadNumberValue(d.year, 4);
    PadNumberValue(d.month, 2);
    PadNumberValue(d.day, 2);
  }

  /** Reading back a written date gives the same date (years 1 to 9999). */
  lemma ParseFormatDate(d: Date)
    requires IsValid(d) && 1 <= d.year <= 9999
    ensures ParseDate(FormatDate(d)) == Some(d)
  {
    var s := FormatDate(d);
    PadNumberValue(d.year, 4);
    PadNumberValue(d.month, 2);
    PadNumberValue(d.day, 2);
    assert s[..4] == FormatYear(d.year);
    assert s[5..7] == PadNumber(d.month, 2);
    assert s[8..] == PadNumber(d.day, 2);
  }

  /** A string that reads as a date of year 1 or later is exactly that date written out:
      the stored form of a date is unique. */
  lemma FormatParseDate(s: string, d: Date)
    requires ParseDate(s) == Some(d) && d.year >= 1
    ensures FormatDate(d) == s
  {
    PadNumberOfDigits(s[..4]);
    PadNumberOfDigits(s[5..7]);
    PadNumberOfDigits(s[8..]);
    assert s == s[..4] + "-" + s[5..7] + "-" + s[8..];
  }
}
