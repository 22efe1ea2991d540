/**
 * `parse_user_date`: reading `dd/mm` (year 2026) or `dd/mm/yyyy` the way
 * `datetime.strptime(..., "%d/%m/%Y")` does, with every failure turned into
 * `None`.
 */
module DateParse {
  import opened Wrappers
  import opened Text
  import opened Calendar

  /** The default year appended to a five-character `dd/mm` input. */
  const DefaultYear: int := 2026

  /** The `%d` field: `3[01]`, `[12]` digit, `0[1-9]`, `[1-9]` or a space then `[1-9]`. */
  predicate DayField(s: string) {
    if |s| == 1 then '1' <= s[0] <= '9'
    else if |s| == 2 then
      || (s[0] == '3' && (s[1] == '0' || s[1] == '1'))
      || ('1' <= s[0] <= '2' && IsDigit(s[1]))
      || (s[0] == '0' && '1' <= s[1] <= '9')
      || (s[0] == ' ' && '1' <= s[1] <= '9')
    else false
  }

  function DayValue(s: string): (r: int)
    requires DayField(s)
    ensures 1 <= r <= 31
  {
    if |s| == 1 then DigitValue(s[0])
    else if s[0] == ' ' then DigitValue(s[1])
    else 10 * DigitValue(s[0]) + DigitValue(s[1])
  }

  /** The `%m` field: `1[0-2]`, `0[1-9]` or `[1-9]`. */
  predicate MonthField(s: string) {
    if |s| == 1 then '1' <= s[0] <= '9'
    else if |s| == 2 then
      || (s[0] == '1' && '0' <= s[1] <= '2')
      || (s[0] == '0' && '1' <= s[1] <= '9')
    else false
  }

  function MonthValue(s: string): (r: int)
    requires MonthField(s)
    ensures 1 <= r <= 12
  {
    if |s| == 1 then DigitValue(s[0]) else 10 * DigitValue(s[0]) + DigitValue(s[1])
  }

  /** The `%Y` field: exactly four digits. */
  predicate YearField(s: string) {
    |s| == 4 && AllDigits(s)
  }

  /**
   * `datetime.strptime(s, "%d/%m/%Y")`: the whole of `s` must be the three
   * fields separated by `/` (no field can hold a `/`, so splitting on it
   * finds them), and the date they name must exist.
   */
  function ParseDmy(s: string): (r: Option<Date>)
    ensures r.Some? ==> Valid(r.value)
    ensures r.Some? ==>
      (var p := Split(s, '/'); |p| == 3 && YearField(p[2]) && r.value.year == NumberValue(p[2]))
  {
    var parts := Split(s, '/');
    if |parts| == 3 && DayField(parts[0]) && MonthField(parts[1]) && YearField(parts[2]) then
      var d := Date(NumberValue(parts[2]), MonthValue(parts[1]), DayValue(parts[0]));
      if Valid(d) then Some(d) else None
    else None
  }

  /** `parse_user_date`: a five-character input gets `/2026` appended first. */
  function ParseUserDate(s: string): (r: Option<Date>)
    ensures r.Some? ==> Valid(r.value)
    ensures |s| == 5 && r.Some? ==> r.value.year == DefaultYear
  {
    if |s| == 5 then
      assert s + "/2026" == s + ['/'] + "2026";
      SplitAppend(s, "2026", '/');
      assert Split("2026", '/') == ["2026"];
      assert NumberValue("2026") == 2026 by {
        assert "2026"[..3] == "202" && "202"[..2] == "20" && "20"[..1] == "2";
      }
      ParseDmy(s + "/2026")
    else ParseDmy(s)
  }

  /** Splitting at a separator splits the two sides independently. */
  lemma {:induction false} SplitAppend(a: string, b: string, sep: char)
    ensures Split(a + [sep] + b, sep) == Split(a, sep) + Split(b, sep)
  {
    var s := a + [sep] + b;
    if |a| == 0 {
      assert s == [sep] + b;
      assert s[1..] == b;
    } else {
      assert s[0] == a[0];
      assert s[1..] == a[1..] + [sep] + b;
      SplitAppend(a[1..], b, sep);
    }
  }

  /** Two decimal digits with leading zero. */
  function Pad2(n: int): (r: string)
    requires 0 <= n <= 99
    ensures |r| == 2 && AllDigits(r) && NumberValue(r) == n
  {
    var r := [DigitChar(n / 10), DigitChar(n % 10)];
    assert r[..1] == [DigitChar(n / 10)];
    assert r[..1][..0] == [];
    assert NumberValue(r[..1]) == n / 10;
    r
  }

  /** Four decimal digits with leading zeros. */
  function Pad4(n: int): (r: string)
    requires 0 <= n <= 9999
    ensures |r| == 4 && AllDigits(r) && NumberValue(r) == n
  {
    var r := Pad2(n / 100) + Pad2(n % 100);
    assert r[..3] == Pad2(n / 100) + [r[2]];
    assert r[..3][..2] == Pad2(n / 100);
    r
  }

  /** A string without the separator splits into itself alone. */
  lemma {:induction false} SplitNoSep(a: string, sep: char)
    requires sep !in a
    ensures Split(a, sep) == [a]
  {
    if |a| > 0 {
      assert sep !in a[1..] by {
        forall i | 0 <= i < |a[1..]| ensures a[1..][i] != sep {
          assert a[1..][i] == a[i + 1];
        }
      }
      SplitNoSep(a[1..], sep);
      assert a == [a[0]] + a[1..];
    }
  }

  /** `dd/mm/yyyy` split at its two slashes. */
  lemma SplitThree(d: string, m: string, y: string)
    requires '/' !in d && '/' !in m && '/' !in y
    ensures Split(d + "/" + m + "/" + y, '/') == [d, m, y]
  {
    assert d + "/" + m + "/" + y == d + ['/'] + (m + ['/'] + y);
    SplitAppend(d, m + ['/'] + y, '/');
    SplitAppend(m, y, '/');
    SplitNoSep(d, '/');
    SplitNoSep(m, '/');
    SplitNoSep(y, '/');
  }

  lemma TwoDigitValue(s: string)
    requires |s| == 2 && AllDigits(s)
    ensures NumberValue(s) == 10 * DigitValue(s[0]) + DigitValue(s[1])
  {
    var h := s[..1];
    assert h[..0] == [] && h[0] == s[0];
    assert NumberValue(h) == DigitValue(s[0]);
  }

  /** Two zero-padded digits are a day field exactly for 1..31 and a month field exactly for 1..12. */
  lemma TwoDigitFields(s: string)
    requires |s| == 2 && AllDigits(s)
    ensures DayField(s) <==> 1 <= NumberValue(s) <= 31
    ensures MonthField(s) <==> 1 <= NumberValue(s) <= 12
    ensures DayField(s) ==> DayValue(s) == NumberValue(s)
    ensures MonthField(s) ==> MonthValue(s) == NumberValue(s)
  {
    TwoDigitValue(s);
  }

  lemma DigitsHaveNoSlash(s: string)
    requires AllDigits(s)
    ensures '/' !in s
  {
    assert forall i :: 0 <= i < |s| ==> s[i] != '/';
  }

  /**
   * A five-character `dd/mm` of ASCII digits names day `dd` of month `mm`
   * in 2026, and parses to that date exactly when the date exists.
   */
  lemma ShortForm(s: string)
    requires |s| == 5 && s[2] == '/'
    requires IsDigit(s[0]) && IsDigit(s[1]) && IsDigit(s[3]) && IsDigit(s[4])
    ensures var d := Date(DefaultYear, 10 * DigitValue(s[3]) + DigitValue(s[4]),
                          10 * DigitValue(s[0]) + DigitValue(s[1]));
      ParseUserDate(s) == (if Valid(d) then Some(d) else None)
  {
    var dd, mm := s[..2], s[3..];
    assert s + "/2026" == dd + "/" + mm + "/" + "2026";
    DigitsHaveNoSlash(dd);
    DigitsHaveNoSlash(mm);
    DigitsHaveNoSlash("2026");
    SplitThree(dd, mm, "2026");
    TwoDigitFields(dd);
    TwoDigitFields(mm);
    TwoDigitValue(dd);
    TwoDigitValue(mm);
    assert NumberValue("2026") == 2026 by {
      assert "2026"[..3] == "202" && "202"[..2] == "20" && "20"[..1] == "2";
    }
  }

  /**
   * A ten-character `dd/mm/yyyy` of ASCII digits names day `dd` of month
   * `mm` of year `yyyy`, and parses to that date exactly when the date
   * exists.
   */
  lemma LongForm(s: string)
    requires |s| == 10 && s[2] == '/' && s[5] == '/'
    requires IsDigit(s[0]) && IsDigit(s[1]) && IsDigit(s[3]) && IsDigit(s[4])
    requires AllDigits(s[6..])
    ensures var d := Date(NumberValue(s[6..]), 10 * DigitValue(s[3]) + DigitValue(s[4]),
                          10 * DigitValue(s[0]) + DigitValue(s[1]));
      ParseUserDate(s) == (if Valid(d) then Some(d) else None)
  {
    var dd, mm, yy := s[..2], s[3..5], s[6..];
    assert s == dd + "/" + mm + "/" + yy;
    DigitsHaveNoSlash(dd);
    DigitsHaveNoSlash(mm);
    DigitsHaveNoSlash(yy);
    SplitThree(dd, mm, yy);
    TwoDigitFields(dd);
    TwoDigitFields(mm);
    TwoDigitValue(dd);
    TwoDigitValue(mm);
  }

  /** Long-form dates that do not exist give `None`, not an error. */
  lemma NonexistentLongDate()
    ensures ParseUserDate("31/02/2026") == None
    ensures ParseUserDate("00/01/2026") == None
    ensures ParseUserDate("29/02/2027") == None
  {
    NoDay("31/02/2026");
    NoDay("00/01/2026");
    NotLeap2027();
  }

  /** `31/02/2026` (a day past the end of February) and `00/01/2026` (day zero) name no date. */
  lemma NoDay(s: string)
    requires s == "31/02/2026" || s == "00/01/2026"
    ensures ParseUserDate(s) == None
  {
    LongForm(s);
    assert s[..2] == "31" || s[..2] == "00";
  }

  /** 2027 is not a leap year, so `29/02/2027` does not exist. */
  lemma NotLeap2027()
    ensures ParseUserDate("29/02/2027") == None
  {
    var s := "29/02/2027";
    assert s[6..] == "2027";
    Value2027();
    LongForm(s);
  }

  lemma Value2027()
    ensures NumberValue("2027") == 2027
  {
    assert "2027"[..3] == "202" && "202"[..2] == "20" && "20"[..1] == "2";
  }

  /** `dd/mm/yyyy` with zero padding, as a date is normally written. */
  function Format(d: Date): (r: string)
    requires Valid(d)
    ensures |r| == 10
  {
    Pad2(d.day) + "/" + Pad2(d.month) + "/" + Pad4(d.year)
  }

  /** Every existing date written as `dd/mm/yyyy` parses back to itself. */
  lemma FormatRoundTrip(d: Date)
    requires Valid(d)
    ensures ParseUserDate(Format(d)) == Some(d)
  {
    var dd, mm, yy := Pad2(d.day), Pad2(d.month), Pad4(d.year);
    DigitsHaveNoSlash(dd);
    DigitsHaveNoSlash(mm);
    DigitsHaveNoSlash(yy);
    SplitThree(dd, mm, yy);
    TwoDigitFields(dd);
    TwoDigitFields(mm);
  }

  /** Every 2026 date written as `dd/mm` parses back to itself. */
  lemma ShortFormatRoundTrip(d: Date)
    requires Valid(d) && d.year == DefaultYear
    ensures ParseUserDate(Pad2(d.day) + "/" + Pad2(d.month)) == Some(d)
  {
    var dd, mm := Pad2(d.day), Pad2(d.month);
    var s := dd + "/" + mm;
    assert s[..2] == dd && s[3..] == mm;
    TwoDigitValue(dd);
    TwoDigitValue(mm);
    ShortForm(s);
  }

  /** A day that does not exist in its month gives `None`, not an error. */
  lemma NonexistentDate()
    ensures ParseUserDate("31/02") == None
    ensures ParseUserDate("29/02") == None
  {
    ShortForm("31/02");
    ShortForm("29/02");
  }
}
