/**
  `_convert_ics_date`: `datetime.strptime(s, "%d%m%y")` followed by
  `strftime("%Y%m%d")`. The result is the DATE value form of section 3.3.4 of
  RFC 5545 (four-digit year, two-digit month, two-digit day). The time zone
  attached in between does not change the formatted date and is not modelled.
 */
module Dates {
  import opened Results
  import opened Text

  /** The input form accepted here: exactly six ASCII digits `ddmmyy`. */
  predicate IsSixDigits(s: string) {
    |s| == 6 && IsDigits(s)
  }

  /** The value of one ASCII digit. */
  function Digit(c: char): (n: nat)
    requires IsDigit(c)
    ensures n < 10
  {
    c as int - '0' as int
  }

  /** The day field, read as `%d` reads two digits. */
  function Day(s: string): (n: nat)
    requires IsSixDigits(s)
    ensures n < 100
  {
    Digit(s[0]) * 10 + Digit(s[1])
  }

  /** The month field (`%m`). */
  function Month(s: string): (n: nat)
    requires IsSixDigits(s)
    ensures n < 100
  {
    Digit(s[2]) * 10 + Digit(s[3])
  }

  /** The two-digit year field (`%y`). */
  function TwoDigitYear(s: string): (n: nat)
    requires IsSixDigits(s)
    ensures n < 100
  {
    Digit(s[4]) * 10 + Digit(s[5])
  }

  /** The POSIX `%y` rule used by strptime: 69..99 are 1969..1999, 00..68 are 2000..2068. */
  function FullYear(yy: nat): nat
    requires yy < 100
  {
    if yy <= 68 then 2000 + yy else 1900 + yy
  }

  /** Gregorian leap years. */
  predicate IsLeapYear(y: nat) {
    y % 4 == 0 && (y % 100 != 0 || y % 400 == 0)
  }

  function DaysInMonth(m: nat, y: nat): nat
    requires 1 <= m <= 12
  {
    if m == 2 then (if IsLeapYear(y) then 29 else 28)
    else if m == 4 || m == 6 || m == 9 || m == 11 then 30
    else 31
  }

  predicate IsCalendarDate(d: nat, m: nat, y: nat) {
    1 <= m <= 12 && 1 <= d <= DaysInMonth(m, y)
  }

  /** The year digits strftime writes for a two-digit year: "20" or "19". */
  function Century(s: string): string
    requires IsSixDigits(s)
  {
    if TwoDigitYear(s) <= 68 then "20" else "19"
  }

  /** strftime's zero-padded `%m` and `%d`. */
  function Pad2(n: nat): string
    requires n < 100
  {
    [DigitChar(n / 10), DigitChar(n % 10)]
  }

  /** strftime's `%Y` for years below 10000. */
  function Pad4(n: nat): string
    requires n < 10000
  {
    Pad2(n / 100) + Pad2(n % 100)
  }

  lemma Pad2OfDigits(a: char, b: char)
    requires IsDigit(a) && IsDigit(b)
    ensures Pad2(Digit(a) * 10 + Digit(b)) == [a, b]
  {
    var n := Digit(a) * 10 + Digit(b);
    assert n / 10 == Digit(a) && n % 10 == Digit(b);
  }

  /** What strftime writes for the parsed fields is the input's digits, reordered, after the century. */
  lemma FormatFields(s: string)
    requires IsSixDigits(s)
    ensures Pad4(FullYear(TwoDigitYear(s))) + Pad2(Month(s)) + Pad2(Day(s))
         == Century(s) + s[4..6] + s[2..4] + s[0..2]
  {
    var yy := TwoDigitYear(s);
    var y := FullYear(yy);
    assert y / 100 == (if yy <= 68 then 20 else 19) && y % 100 == yy;
    Pad2OfDigits(s[0], s[1]);
    Pad2OfDigits(s[2], s[3]);
    Pad2OfDigits(s[4], s[5]);
    assert Pad2(20) == "20" && Pad2(19) == "19";
    assert s[0..2] == [s[0], s[1]] && s[2..4] == [s[2], s[3]] && s[4..6] == [s[4], s[5]];
  }

  /**
    The date conversion. It fails exactly when the six digits do not name a
    calendar day; the result keeps the day and month digits and expands the
    two-digit year.
   */
  function ConvertIcsDate(s: string): (r: Result<string>)
    ensures r.Ok? <==> IsSixDigits(s) && IsCalendarDate(Day(s), Month(s), FullYear(TwoDigitYear(s)))
    ensures r.Ok? ==> IsSixDigits(s) && r.value == Century(s) + s[4..6] + s[2..4] + s[0..2]
    ensures r.Err? ==> r.error == DateParse(s)
  {
    if !IsSixDigits(s) then Err(DateParse(s))
    else
      var d, m, y := Day(s), Month(s), FullYear(TwoDigitYear(s));
      if IsCalendarDate(d, m, y) then
        FormatFields(s);
        Ok(Pad4(y) + Pad2(m) + Pad2(d))
      else Err(DateParse(s))
  }

  /** The DATE form of section 3.3.4 of RFC 5545, with the day valid for its month and year. */
  predicate IsIcsDate(v: string) {
    && |v| == 8 && IsDigits(v)
    && IsCalendarDate(DateDay(v), DateMonth(v), DateYear(v))
  }

  function DateYear(v: string): nat
    requires |v| == 8 && IsDigits(v)
  {
    Digit(v[0]) * 1000 + Digit(v[1]) * 100 + Digit(v[2]) * 10 + Digit(v[3])
  }

  function DateMonth(v: string): nat
    requires |v| == 8 && IsDigits(v)
  {
    Digit(v[4]) * 10 + Digit(v[5])
  }

  function DateDay(v: string): nat
    requires |v| == 8 && IsDigits(v)
  {
    Digit(v[6]) * 10 + Digit(v[7])
  }

  /** Reading the converted text back gives the same day, month and full year. */
  lemma ConvertedIsIcsDate(s: string)
    requires ConvertIcsDate(s).Ok?
    ensures IsIcsDate(ConvertIcsDate(s).value)
    ensures DateDay(ConvertIcsDate(s).value) == Day(s)
    ensures DateMonth(ConvertIcsDate(s).value) == Month(s)
    ensures DateYear(ConvertIcsDate(s).value) == FullYear(TwoDigitYear(s))
  {
    var v := ConvertIcsDate(s).value;
    assert v[0] == Century(s)[0] && v[1] == Century(s)[1];
    assert v[2] == s[4] && v[3] == s[5] && v[4] == s[2] && v[5] == s[3] && v[6] == s[0] && v[7] == s[1];
    assert forall i :: 0 <= i < 8 ==> IsDigit(v[i]);
  }

  /** Two valid inputs convert to the same date exactly when they are the same text. */
  lemma ConvertInjective(a: string, b: string)
    requires ConvertIcsDate(a).Ok? && ConvertIcsDate(b).Ok?
    ensures ConvertIcsDate(a).value == ConvertIcsDate(b).value <==> a == b
  {
    var va, vb := ConvertIcsDate(a).value, ConvertIcsDate(b).value;
    if va == vb {
      assert a[0..2] == va[6..8] == vb[6..8] == b[0..2];
      assert a[2..4] == va[4..6] == vb[4..6] == b[2..4];
      assert a[4..6] == va[2..4] == vb[2..4] == b[4..6];
      assert a == a[0..2] + a[2..4] + a[4..6];
      assert b == b[0..2] + b[2..4] + b[4..6];
    }
  }

  /** Two sample conversions. */
  lemma ConversionExamples()
    ensures ConvertIcsDate("010124") == Ok("20240101")
    ensures ConvertIcsDate("311223") == Ok("20231231")
  {
    var s;
    s := "010124";
    assert s[0] == '0' && s[1] == '1' && s[2] == '0' && s[3] == '1' && s[4] == '2' && s[5] == '4';
    assert IsSixDigits(s);
    assert Day(s) == 1 && Month(s) == 1 && TwoDigitYear(s) == 24;
    assert IsCalendarDate(1, 1, FullYear(24));
    assert Century(s) == "20" && s[4..6] == "24" && s[2..4] == "01" && s[0..2] == "01";
    assert "20" + "24" + "01" + "01" == "20240101";
    assert ConvertIcsDate(s) == Ok("20240101");
    s := "311223";
    assert s[0] == '3' && s[1] == '1' && s[2] == '1' && s[3] == '2' && s[4] == '2' && s[5] == '3';
    assert IsSixDigits(s);
    assert Day(s) == 31 && Month(s) == 12 && TwoDigitYear(s) == 23;
    assert IsCalendarDate(31, 12, FullYear(23));
    assert Century(s) == "20" && s[4..6] == "23" && s[2..4] == "12" && s[0..2] == "31";
    assert "20" + "23" + "12" + "31" == "20231231";
    assert ConvertIcsDate(s) == Ok("20231231");
  }

  /** The `%y` pivot and a leap day. */
  lemma PivotExamples()
    ensures ConvertIcsDate("010169") == Ok("19690101")
    ensures ConvertIcsDate("290200") == Ok("20000229")
  {
    var s;
    s := "010169";
    assert s[0] == '0' && s[1] == '1' && s[2] == '0' && s[3] == '1' && s[4] == '6' && s[5] == '9';
    assert IsSixDigits(s);
    assert Day(s) == 1 && Month(s) == 1 && TwoDigitYear(s) == 69;
    assert IsCalendarDate(1, 1, FullYear(69));
    assert Century(s) == "19" && s[4..6] == "69" && s[2..4] == "01" && s[0..2] == "01";
    assert "19" + "69" + "01" + "01" == "19690101";
    assert ConvertIcsDate(s) == Ok("19690101");
    s := "290200";
    assert s[0] == '2' && s[1] == '9' && s[2] == '0' && s[3] == '2' && s[4] == '0' && s[5] == '0';
    assert IsSixDigits(s);
    assert Day(s) == 29 && Month(s) == 2 && TwoDigitYear(s) == 0;
    assert IsCalendarDate(29, 2, FullYear(0));
    assert Century(s) == "20" && s[4..6] == "00" && s[2..4] == "02" && s[0..2] == "29";
    assert "20" + "00" + "02" + "29" == "20000229";
    assert ConvertIcsDate(s) == Ok("20000229");
  }

  /** Impossible dates and non-digit text are rejected. */
  lemma RejectExamples()
    ensures ConvertIcsDate("290269").Err?
    ensures ConvertIcsDate("310424").Err?
    ensures ConvertIcsDate("011324").Err?
    ensures ConvertIcsDate("01/01/24").Err?
  {
    assert "01/01/24"[2] == '/';
    assert Day("290269") == 29 && Month("290269") == 2 && TwoDigitYear("290269") == 69;
    assert Day("310424") == 31 && Month("310424") == 4;
    assert Month("011324") == 13;
  }
}
