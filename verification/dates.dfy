/** Calendar dates and their ISO rendering, as produced by `str(d.date())` on
    the publication timestamp of a search hit. */
module Dates {
  import opened Wrappers

  /** A timestamp as delivered by the search provider. */
  datatype DateTime = DateTime(year: nat, month: nat, day: nat, hour: nat, minute: nat, second: nat)

  /** A calendar date without time of day. */
  datatype Date = Date(year: nat, month: nat, day: nat)

  predicate IsLeapYear(y: nat) {
    y % 4 == 0 && (y % 100 != 0 || y % 400 == 0)
  }

  function DaysInMonth(y: nat, m: nat): nat
    requires 1 <= m <= 12
  {
    if m == 2 then (if IsLeapYear(y) then 29 else 28)
    else if m == 4 || m == 6 || m == 9 || m == 11 then 30
    else 31
  }

  /** The range Python's `date` type admits (MINYEAR = 1, MAXYEAR = 9999). */
  predicate ValidDate(d: Date) {
    && 1 <= d.year <= 9999
    && 1 <= d.month <= 12
    && 1 <= d.day <= DaysInMonth(d.year, d.month)
  }

  /** `datetime.date()`: drops the time of day. */
  function DateOf(t: DateTime): Date {
    Date(t.year, t.month, t.day)
  }

  predicate IsDigit(c: char) {
    '0' <= c <= '9'
  }

  predicate AllDigits(s: string) {
    forall i :: 0 <= i < |s| ==> IsDigit(s[i])
  }

  function DigitChar(n: nat): (c: char)
    requires n < 10
    ensures IsDigit(c)
  {
    ('0' as int + n) as char
  }

  function DigitValue(c: char): (n: nat)
    requires IsDigit(c)
    ensures n < 10
  {
    c as int - '0' as int
  }

  function Pow10(w: nat): (p: nat)
    ensures p >= 1
  {
    if w == 0 then 1 else 10 * Pow10(w - 1)
  }

  /** The value of a string of decimal digits, most significant first. */
  function ParseDigits(s: string): nat
    requires AllDigits(s)
  {
    if |s| == 0 then 0 else ParseDigits(s[..|s| - 1]) * 10 + DigitValue(s[|s| - 1])
  }

  /** `str(n)` for a non-negative integer: the decimal rendering, with no
      leading zero (`DecimalNoLeadingZero`). Reading the digits back gives
      `n` again. */
  function Decimal(n: nat): (s: string)
    ensures 1 <= |s|
    ensures AllDigits(s)
    ensures ParseDigits(s) == n
  {
    if n < 10 then [DigitChar(n)]
    else
      var s := Decimal(n / 10) + [DigitChar(n % 10)];
      assert s[..|s| - 1] == Decimal(n / 10);
      s
  }

  /** The rendering starts with `0` only when it is `0` itself. */
  lemma {:induction false} DecimalNoLeadingZero(n: nat)
    ensures |Decimal(n)| > 1 ==> Decimal(n)[0] != '0'
    ensures Decimal(n)[0] == '0' ==> n == 0
  {
    if n >= 10 {
      DecimalNoLeadingZero(n / 10);
      assert Decimal(n)[0] == Decimal(n / 10)[0];
    }
  }

  function Zeros(k: nat): (z: string)
    ensures |z| == k
    ensures forall i :: 0 <= i < k ==> z[i] == '0'
  {
    if k == 0 then [] else Zeros(k - 1) + ['0']
  }

  /** `"%0*d" % (width, n)`: the decimal rendering of `n` left-padded with
      zeros to at least `width` characters. */
  function Pad(n: nat, width: nat): string {
    var s := Decimal(n);
    if |s| < width then Zeros(width - |s|) + s else s
  }

  /** `str(date)`: `YYYY-MM-DD` with zero-padded fields. */
  function FormatDate(d: Date): string {
    Pad(d.year, 4) + "-" + Pad(d.month, 2) + "-" + Pad(d.day, 2)
  }

  /** Reads a `YYYY-MM-DD` string back into a date; anything else is None. */
  function ParseIsoDate(s: string): Option<Date> {
    if |s| == 10 && s[4] == '-' && s[7] == '-'
       && AllDigits(s[..4]) && AllDigits(s[5..7]) && AllDigits(s[8..])
    then Some(Date(ParseDigits(s[..4]), ParseDigits(s[5..7]), ParseDigits(s[8..])))
    else None
  }

  lemma {:induction false} ZerosValue(k: nat)
    ensures AllDigits(Zeros(k)) && ParseDigits(Zeros(k)) == 0
  {
    var z := Zeros(k);
    assert AllDigits(z);
    if k > 0 {
      ZerosValue(k - 1);
      assert z[..k - 1] == Zeros(k - 1);
      assert ParseDigits(z) == ParseDigits(Zeros(k - 1)) * 10 + DigitValue(z[k - 1]);
    }
  }

  /** Leading zeros do not change the value of a digit string. */
  lemma {:induction false} LeadingZerosValue(k: nat, s: string)
    requires AllDigits(s)
    ensures AllDigits(Zeros(k) + s)
    ensures ParseDigits(Zeros(k) + s) == ParseDigits(s)
  {
    ZerosValue(k);
    if |s| == 0 {
      assert Zeros(k) + s == Zeros(k);
    } else {
      var t := Zeros(k) + s;
      LeadingZerosValue(k, s[..|s| - 1]);
      assert t[..|t| - 1] == Zeros(k) + s[..|s| - 1];
    }
  }

  /** A number below `10^w` (w >= 1) needs at most `w` digits. */
  lemma {:induction false} DecimalWidth(n: nat, w: nat)
    requires 1 <= w && n < Pow10(w)
    ensures |Decimal(n)| <= w
  {
    if n >= 10 {
      DecimalWidth(n / 10, w - 1);
    }
  }

  /** Padding is invisible to the value, and below `10^w` the rendering is
      exactly `w` characters wide. */
  lemma PadRoundTrip(n: nat, w: nat)
    requires 1 <= w && n < Pow10(w)
    ensures |Pad(n, w)| == w
    ensures AllDigits(Pad(n, w))
    ensures ParseDigits(Pad(n, w)) == n
  {
    DecimalWidth(n, w);
    var s := Decimal(n);
    if |s| < w {
      LeadingZerosValue(w - |s|, s);
      assert Pad(n, w) == Zeros(w - |s|) + s;
    } else {
      assert Pad(n, w) == s;
    }
  }

  /** Every date Python can hold renders as ten characters, dashes at
      offsets 4 and 7, and reads back as the same date: the stored
      `published` string loses nothing but the time of day. */
  lemma IsoDateRoundTrip(d: Date)
    requires ValidDate(d)
    ensures |FormatDate(d)| == 10
    ensures FormatDate(d)[4] == '-' && FormatDate(d)[7] == '-'
    ensures ParseIsoDate(FormatDate(d)) == Some(d)
  {
    PadRoundTrip(d.year, 4);
    PadRoundTrip(d.month, 2);
    PadRoundTrip(d.day, 2);
    var y, m, dd := Pad(d.year, 4), Pad(d.month, 2), Pad(d.day, 2);
    var s := FormatDate(d);
    assert s[..4] == y;
    assert s[5..7] == m;
    assert s[8..] == dd;
  }
}
