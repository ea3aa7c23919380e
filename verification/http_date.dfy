/** The `Last-Modified` value: a modification time, in whole seconds since
    1970-01-01T00:00:00Z (negative before it), rendered in UTC with chrono's
    pattern `%a, %d %b %Y %H:%M:%S GMT`, which for years 0 to 9999 is the
    IMF-fixdate of section 5.6.7 of RFC 9110, e.g.
    `Sun, 06 Nov 1994 08:49:37 GMT`. Dates are proleptic Gregorian. */
module HttpDate {
  import opened Common
  import Decimal

  predicate IsLeap(y: int) {
    y % 4 == 0 && (y % 100 != 0 || y % 400 == 0)
  }

  function YearLength(y: int): nat {
    if IsLeap(y) then 366 else 365
  }

  /** The days in the `n` years from 1970 on. */
  function DaysAfterEpoch(n: nat): nat {
    if n == 0 then 0 else DaysAfterEpoch(n - 1) + YearLength(1969 + n)
  }

  /** The days in the `n` years before 1970. */
  function DaysBeforeEpoch(n: nat): nat {
    if n == 0 then 0 else DaysBeforeEpoch(n - 1) + YearLength(1970 - n)
  }

  /** The day number of 1 January of year `y`, counted from 1 January 1970
      (negative before it). */
  function YearStart(y: int): int {
    if y >= 1970 then DaysAfterEpoch(y - 1970) else 0 - DaysBeforeEpoch(1970 - y) as int
  }

  /** 1970 starts at day 0 and each year starts where the one before it ends. */
  lemma YearStartStep(y: int)
    ensures YearStart(1970) == 0
    ensures YearStart(y + 1) == YearStart(y) + YearLength(y)
  {
  }

  /** Days in month `m` (1 = January) of year `y`. */
  function MonthLength(y: int, m: int): nat
    requires 1 <= m <= 12
  {
    if m == 2 then (if IsLeap(y) then 29 else 28)
    else if m in {4, 6, 9, 11} then 30
    else 31
  }

  /** Days of year `y` before the first of month `m`; `MonthStart(y, 13)` is
      the length of the year. */
  function MonthStart(y: int, m: int): nat
    requires 1 <= m <= 13
  {
    var common := [0, 31, 59, 90, 120, 151, 181, 212, 243, 273, 304, 334, 365][m - 1];
    if m > 2 && IsLeap(y) then common + 1 else common
  }

  lemma MonthStartStep(y: int, m: int)
    requires 1 <= m <= 12
    ensures MonthStart(y, m + 1) == MonthStart(y, m) + MonthLength(y, m)
    ensures MonthStart(y, 13) == YearLength(y)
  {
  }

  /** The year holding day number `d`, and the day's 0-based position in
      that year. */
  function FindYear(d: int): (r: (int, nat))
    ensures r.1 < YearLength(r.0)
    ensures YearStart(r.0) + r.1 == d
  {
    YearStartStep(1970);
    if d >= 0 then YearFrom(d, 1970) else YearBefore(-d, 1970)
  }

  /** The year holding the day `d` days after 1 January of `y`. */
  function YearFrom(d: nat, y: int): (r: (int, nat))
    ensures r.1 < YearLength(r.0)
    ensures YearStart(r.0) + r.1 == YearStart(y) + d
    decreases d
  {
    if d < YearLength(y) then (y, d)
    else
      YearStartStep(y);
      YearFrom(d - YearLength(y), y + 1)
  }

  /** The year holding the day `n` days before 1 January of `y`. */
  function YearBefore(n: nat, y: int): (r: (int, nat))
    requires n > 0
    ensures r.1 < YearLength(r.0)
    ensures YearStart(r.0) + r.1 == YearStart(y) - n
    decreases n
  {
    YearStartStep(y - 1);
    if n <= YearLength(y - 1) then (y - 1, YearLength(y - 1) - n)
    else YearBefore(n - YearLength(y - 1), y - 1)
  }

  /** The month (at most `m`) holding day `doy` of year `y`. */
  function FindMonth(doy: nat, y: int, m: nat): (r: nat)
    requires 1 <= m <= 12
    requires doy < MonthStart(y, m + 1)
    ensures 1 <= r <= m
    ensures MonthStart(y, r) <= doy < MonthStart(y, r + 1)
    decreases m
  {
    if MonthStart(y, m) <= doy then m else FindMonth(doy, y, m - 1)
  }

  /** A broken-down UTC time; `weekday` counts from Sunday = 0. */
  datatype DateTime = DateTime(year: int, month: int, day: int,
                               hour: int, minute: int, second: int, weekday: int)

  predicate Valid(dt: DateTime) {
    && 1 <= dt.month <= 12
    && 1 <= dt.day <= MonthLength(dt.year, dt.month)
    && 0 <= dt.hour < 24 && 0 <= dt.minute < 60 && 0 <= dt.second < 60
    && 0 <= dt.weekday < 7
  }

  /** The day number (from 1970-01-01) of a date. */
  function DayNumber(dt: DateTime): int
    requires Valid(dt)
  {
    YearStart(dt.year) + MonthStart(dt.year, dt.month) + dt.day - 1
  }

  /** The instant a broken-down time denotes, in seconds since the epoch. */
  function Timestamp(dt: DateTime): int
    requires Valid(dt)
  {
    DayNumber(dt) * 86400 + dt.hour * 3600 + dt.minute * 60 + dt.second
  }

  /** The weekday of a day number: 1970-01-01 was a Thursday. */
  function WeekdayOf(dayNumber: int): int {
    (dayNumber + 4) % 7
  }

  /** The UTC calendar date and time of instant `t`. */
  function Civil(t: int): (dt: DateTime)
    ensures Valid(dt)
    ensures dt.weekday == WeekdayOf(DayNumber(dt))
  {
    var days := t / 86400;
    var secs := t % 86400;
    var (y, doy) := FindYear(days);
    MonthStartStep(y, 12);
    var m := FindMonth(doy, y, 12);
    MonthStartStep(y, m);
    DateTime(y, m, doy - MonthStart(y, m) + 1, secs / 3600, secs % 3600 / 60, secs % 60, WeekdayOf(days))
  }

  /** Breaking an instant down loses nothing: it is the instant its fields denote. */
  lemma TimestampCivil(t: int)
    ensures Timestamp(Civil(t)) == t
  {
    var days := t / 86400;
    var secs := t % 86400;
    assert DayNumber(Civil(t)) == days;
    assert secs == secs / 3600 * 3600 + secs % 3600 / 60 * 60 + secs % 60;
  }

  const DayNames: seq<string> := ["Sun", "Mon", "Tue", "Wed", "Thu", "Fri", "Sat"]
  const MonthNames: seq<string> :=
    ["Jan", "Feb", "Mar", "Apr", "May", "Jun", "Jul", "Aug", "Sep", "Oct", "Nov", "Dec"]

  /** `n` as exactly two digits (`%d`, `%H`, `%M`, `%S`). */
  function TwoDigits(n: int): (s: string)
    requires 0 <= n < 100
    ensures |s| == 2 && Decimal.AllDigits(s)
  {
    [Decimal.DigitChar(n / 10), Decimal.DigitChar(n % 10)]
  }

  /** `s` padded on the left with zeros to at least `width` characters. */
  function ZeroPad(s: string, width: nat): (r: string)
    ensures |r| == if |s| < width then width else |s|
    ensures r[|r| - |s|..] == s
  {
    if |s| < width then seq(width - |s|, _ => '0') + s else s
  }

  /** `%Y`: four digits for years 0 to 9999; otherwise an explicit sign and
      at least four digits. */
  function YearText(y: int): string {
    if 0 <= y <= 9999 then ZeroPad(Decimal.Show(y), 4)
    else if y > 9999 then "+" + Decimal.Show(y)
    else "-" + ZeroPad(Decimal.Show(-y), 4)
  }

  /** The fixed layout `Www, DD Mmm YYYY HH:MM:SS GMT` around its fields. */
  function Layout(day: string, dd: string, month: string, year: string,
                  hh: string, mm: string, ss: string): string
  {
    day + ", " + dd + " " + month + " " + year + " " + hh + ":" + mm + ":" + ss + " GMT"
  }

  /** The `Last-Modified` text for instant `t`. */
  function Format(t: int): string {
    var dt := Civil(t);
    Layout(DayNames[dt.weekday], TwoDigits(dt.day), MonthNames[dt.month - 1], YearText(dt.year),
           TwoDigits(dt.hour), TwoDigits(dt.minute), TwoDigits(dt.second))
  }

  /** Where each field of a 29-character layout sits. */
  lemma LayoutSlices(day: string, dd: string, month: string, year: string,
                     hh: string, mm: string, ss: string)
    requires |day| == 3 && |dd| == 2 && |month| == 3 && |year| == 4
    requires |hh| == 2 && |mm| == 2 && |ss| == 2
    ensures var s := Layout(day, dd, month, year, hh, mm, ss);
            && |s| == 29
            && s[..3] == day && s[3..5] == ", " && s[5..7] == dd && s[7] == ' '
            && s[8..11] == month && s[11] == ' ' && s[12..16] == year && s[16] == ' '
            && s[17..19] == hh && s[19] == ':' && s[20..22] == mm && s[22] == ':'
            && s[23..25] == ss && s[25..] == " GMT"
  {
  }

  /** For the years 0 to 9999 the `Last-Modified` text is the IMF-fixdate of
      the instant's UTC breakdown: its weekday and month names, its day, year,
      hour, minute and second as zero-padded digits, each in its fixed place. */
  lemma FormatFields(t: int)
    requires 0 <= Civil(t).year <= 9999
    ensures var dt := Civil(t);
            var s := Format(t);
            && |s| == 29
            && s[..3] == DayNames[dt.weekday] && s[3..5] == ", "
            && s[5..7] == TwoDigits(dt.day) && TwoDigitsValue(s[5..7]) == dt.day && s[7] == ' '
            && s[8..11] == MonthNames[dt.month - 1] && s[11] == ' '
            && Decimal.AllDigits(s[12..16]) && Decimal.DigitsValue(s[12..16]) == dt.year && s[16] == ' '
            && s[17..19] == TwoDigits(dt.hour) && TwoDigitsValue(s[17..19]) == dt.hour && s[19] == ':'
            && s[20..22] == TwoDigits(dt.minute) && TwoDigitsValue(s[20..22]) == dt.minute && s[22] == ':'
            && s[23..25] == TwoDigits(dt.second) && TwoDigitsValue(s[23..25]) == dt.second && s[25..] == " GMT"
  {
    var dt := Civil(t);
    NumericFields(DayNames[dt.weekday], dt.day, MonthNames[dt.month - 1], dt.year, dt.hour, dt.minute, dt.second);
  }

  /** The layout with its numeric fields rendered: each field reads back as
      its number in its fixed place. */
  lemma NumericFields(dn: string, day: int, mn: string, year: int, hour: int, minute: int, second: int)
    requires |dn| == 3 && |mn| == 3
    requires 0 <= day < 100 && 0 <= year <= 9999
    requires 0 <= hour < 100 && 0 <= minute < 100 && 0 <= second < 100
    ensures var s := Layout(dn, TwoDigits(day), mn, YearText(year), TwoDigits(hour), TwoDigits(minute), TwoDigits(second));
            && |s| == 29
            && s[..3] == dn && s[3..5] == ", "
            && s[5..7] == TwoDigits(day) && TwoDigitsValue(s[5..7]) == day && s[7] == ' '
            && s[8..11] == mn && s[11] == ' '
            && Decimal.AllDigits(s[12..16]) && Decimal.DigitsValue(s[12..16]) == year && s[16] == ' '
            && s[17..19] == TwoDigits(hour) && TwoDigitsValue(s[17..19]) == hour && s[19] == ':'
            && s[20..22] == TwoDigits(minute) && TwoDigitsValue(s[20..22]) == minute && s[22] == ':'
            && s[23..25] == TwoDigits(second) && TwoDigitsValue(s[23..25]) == second && s[25..] == " GMT"
  {
    var dd, yt, hh, mm, ss := TwoDigits(day), YearText(year), TwoDigits(hour), TwoDigits(minute), TwoDigits(second);
    YearTextValue(year);
    LayoutSlices(dn, dd, mn, yt, hh, mm, ss);
    TwoDigitsRoundTrip(day);
    TwoDigitsRoundTrip(hour);
    TwoDigitsRoundTrip(minute);
    TwoDigitsRoundTrip(second);
  }

  /** A layout whose year field is longer than four characters. */
  lemma LayoutLength(day: string, dd: string, month: string, year: string,
                     hh: string, mm: string, ss: string)
    requires |day| == 3 && |dd| == 2 && |month| == 3 && |year| >= 5
    requires |hh| == 2 && |mm| == 2 && |ss| == 2
    ensures |Layout(day, dd, month, year, hh, mm, ss)| >= 30
  {
  }

  function IndexOf(names: seq<string>, s: string): (r: Option<nat>)
    ensures r.Some? ==> r.value < |names| && names[r.value] == s
    ensures r.None? ==> s !in names
    decreases |names|
  {
    if |names| == 0 then None
    else if names[0] == s then Some(0)
    else
      match IndexOf(names[1..], s)
      case None => None
      case Some(i) => Some(i + 1)
  }

  function TwoDigitsValue(s: string): nat
    requires |s| == 2 && Decimal.AllDigits(s)
  {
    Decimal.DigitValue(s[0]) * 10 + Decimal.DigitValue(s[1])
  }

  /** Reads an IMF-fixdate back into an instant, rejecting anything that is not
      one: wrong layout, unknown names, out-of-range fields, or a weekday that
      does not match the date. */
  function Parse(s: string): (r: Option<int>)
    ensures r.Some? ==> |s| == 29
  {
    if |s| != 29 then None
    else if s[3..5] != ", " || s[7] != ' ' || s[11] != ' ' || s[16] != ' '
         || s[19] != ':' || s[22] != ':' || s[25..] != " GMT" then None
    else if !Decimal.AllDigits(s[5..7]) || !Decimal.AllDigits(s[12..16])
         || !Decimal.AllDigits(s[17..19]) || !Decimal.AllDigits(s[20..22])
         || !Decimal.AllDigits(s[23..25]) then None
    else
      match (IndexOf(DayNames, s[..3]), IndexOf(MonthNames, s[8..11]))
      case (Some(w), Some(mi)) =>
        var dt := DateTime(Decimal.DigitsValue(s[12..16]), mi + 1, TwoDigitsValue(s[5..7]),
                           TwoDigitsValue(s[17..19]), TwoDigitsValue(s[20..22]),
                           TwoDigitsValue(s[23..25]), w);
        if Valid(dt) && dt.weekday == WeekdayOf(DayNumber(dt)) then Some(Timestamp(dt)) else None
      case _ => None
  }

  /** For every instant in the years 0 to 9999, the formatted text is 29
      characters long and reads back as the same instant; other years do not
      fit the fixed layout. */
  lemma ParseFormat(t: int)
    ensures 0 <= Civil(t).year <= 9999 ==> |Format(t)| == 29 && Parse(Format(t)) == Some(t)
    ensures !(0 <= Civil(t).year <= 9999) ==> Parse(Format(t)) == None
  {
    var dt := Civil(t);
    var dn := DayNames[dt.weekday];
    var mn := MonthNames[dt.month - 1];
    var dd := TwoDigits(dt.day);
    var hh := TwoDigits(dt.hour);
    var mm := TwoDigits(dt.minute);
    var ss := TwoDigits(dt.second);
    var yt := YearText(dt.year);
    if 0 <= dt.year <= 9999 {
      YearTextValue(dt.year);
      LayoutSlices(dn, dd, mn, yt, hh, mm, ss);
      NamesDistinct();
      IndexOfDistinct(DayNames, dt.weekday);
      IndexOfDistinct(MonthNames, dt.month - 1);
      TwoDigitsRoundTrip(dt.day);
      TwoDigitsRoundTrip(dt.hour);
      TwoDigitsRoundTrip(dt.minute);
      TwoDigitsRoundTrip(dt.second);
      TimestampCivil(t);
    } else {
      YearTextLength(dt.year);
      LayoutLength(dn, dd, mn, yt, hh, mm, ss);
    }
  }

  lemma TwoDigitsRoundTrip(n: int)
    requires 0 <= n < 100
    ensures TwoDigitsValue(TwoDigits(n)) == n
  {
  }

  lemma IndexOfDistinct(names: seq<string>, i: nat)
    requires i < |names|
    requires forall a, b :: 0 <= a < b < |names| ==> names[a] != names[b]
    ensures IndexOf(names, names[i]) == Some(i)
  {
    var r := IndexOf(names, names[i]);
    assert r.Some?;
  }

  /** Four-digit years print as four digits that read back as the year. */
  lemma YearTextValue(y: int)
    requires 0 <= y <= 9999
    ensures |YearText(y)| == 4 && Decimal.AllDigits(YearText(y))
    ensures Decimal.DigitsValue(YearText(y)) == y
  {
    Decimal.ParseShow(y);
    var s := Decimal.Show(y);
    assert |s| <= 4 by { ShowLength(y); }
    PaddedValue(s, 4);
  }

  /** Other years need more than four characters. */
  lemma YearTextLength(y: int)
    requires !(0 <= y <= 9999)
    ensures |YearText(y)| >= 5
  {
    if y > 9999 {
      ShowLength(y);
    }
  }

  lemma ShowLength(n: nat)
    ensures n < 10000 ==> |Decimal.Show(n)| <= 4
    ensures n >= 10000 ==> |Decimal.Show(n)| >= 5
  {
    Decimal.ShowLengthBelow(n, 4);
    Decimal.ShowLengthAbove(n, 4);
  }

  /** Leading zeros do not change the value of a digit string. */
  lemma {:induction false} PaddedValue(s: string, width: nat)
    requires Decimal.AllDigits(s)
    ensures Decimal.AllDigits(ZeroPad(s, width))
    ensures Decimal.DigitsValue(ZeroPad(s, width)) == Decimal.DigitsValue(s)
    decreases |s|
  {
    var r := ZeroPad(s, width);
    if |s| == 0 {
      ZerosValue(r);
    } else {
      var init := s[..|s| - 1];
      PaddedValue(init, if width > 0 then width - 1 else 0);
      assert r[..|r| - 1] == ZeroPad(init, if width > 0 then width - 1 else 0);
    }
  }

  lemma {:induction false} ZerosValue(z: string)
    requires forall i :: 0 <= i < |z| ==> z[i] == '0'
    ensures Decimal.AllDigits(z) && Decimal.DigitsValue(z) == 0
    decreases |z|
  {
    if |z| > 0 {
      ZerosValue(z[..|z| - 1]);
    }
  }

  lemma NamesDistinct()
    ensures forall i, j :: 0 <= i < j < |DayNames| ==> DayNames[i] != DayNames[j]
    ensures forall i, j :: 0 <= i < j < |MonthNames| ==> MonthNames[i] != MonthNames[j]
  {
  }

  /** The leap years among the years 1 to `y` (for `y < 0`, minus those
      among `y + 1` to 0). */
  function Leaps(y: int): int {
    y / 4 - y / 100 + y / 400
  }

  lemma LeapsStep(y: int)
    ensures Leaps(y) - Leaps(y - 1) == if IsLeap(y) then 1 else 0
  {
    DivStep(y, 4);
    DivStep(y, 100);
    DivStep(y, 400);
  }

  lemma DivStep(y: int, k: int)
    requires k > 0
    ensures y / k - (y - 1) / k == if y % k == 0 then 1 else 0
  {
    var q := y / k;
    var r := y % k;
    if r == 0 {
      DivUnique(y - 1, k, q - 1, k - 1);
    } else {
      DivUnique(y - 1, k, q, r - 1);
    }
  }

  /** Division is determined by any quotient and remainder that fit. */
  lemma DivUnique(x: int, k: int, q: int, r: int)
    requires k > 0 && 0 <= r < k && x == q * k + r
    ensures x / k == q && x % k == r
  {
    var d := x / k - q;
    assert k * d == r - x % k;
  }

  /** The day count in closed form: 365 days a year plus one per leap year
      in between. */
  lemma {:induction false} YearStartClosed(y: int)
    ensures YearStart(y) == 365 * (y - 1970) + Leaps(y - 1) - Leaps(1969)
    decreases if y >= 1970 then y - 1970 else 1970 - y
  {
    if y > 1970 {
      YearStartClosed(y - 1);
      YearStartStep(y - 1);
      LeapsStep(y - 1);
    } else if y < 1970 {
      YearStartClosed(y + 1);
      YearStartStep(y);
      LeapsStep(y);
    }
  }

  /** Years follow each other without overlap. */
  lemma {:induction false} YearStartGrows(a: int, b: int)
    requires a < b
    ensures YearStart(a) + YearLength(a) <= YearStart(b)
    decreases b - a
  {
    YearStartStep(a);
    if a + 1 < b {
      YearStartGrows(a + 1, b);
    }
  }

  /** Day `k` of year `Y` is where `FindYear` finds it. */
  lemma FindYearUnique(d: int, year: int, k: nat)
    requires k < YearLength(year)
    requires YearStart(year) + k == d
    ensures FindYear(d) == (year, k)
  {
    var r := FindYear(d);
    if r.0 < year {
      YearStartGrows(r.0, year);
    } else if year < r.0 {
      YearStartGrows(year, r.0);
    }
  }

  lemma MonthStartGrows(y: int, a: int, b: int)
    requires 1 <= a < b <= 13
    ensures MonthStart(y, a) + MonthLength(y, a) <= MonthStart(y, b)
  {
  }

  /** Day `doy` of month `month` is where `FindMonth` finds it. */
  lemma FindMonthUnique(doy: nat, y: int, m: nat, month: int)
    requires 1 <= month <= m <= 12
    requires MonthStart(y, month) <= doy < MonthStart(y, month + 1)
    requires doy < MonthStart(y, m + 1)
    ensures FindMonth(doy, y, m) == month
  {
    var r := FindMonth(doy, y, m);
    if r < month {
      MonthStartGrows(y, r, month);
    } else if month < r {
      MonthStartGrows(y, month, r);
    }
  }

  /** Breaking down the instant a valid time denotes gives that time back: the
      other half of the bijection between instants and broken-down times. */
  lemma CivilTimestamp(dt: DateTime)
    requires Valid(dt) && dt.weekday == WeekdayOf(DayNumber(dt))
    ensures Civil(Timestamp(dt)) == dt
  {
    var t := Timestamp(dt);
    var dn := DayNumber(dt);
    var secs := dt.hour * 3600 + dt.minute * 60 + dt.second;
    assert 0 <= secs < 86400;
    assert t / 86400 == dn && t % 86400 == secs by {
      assert t == dn * 86400 + secs;
    }
    var k := MonthStart(dt.year, dt.month) + dt.day - 1;
    MonthStartStep(dt.year, dt.month);
    MonthStartStep(dt.year, 12);
    if dt.month < 12 {
      MonthStartGrows(dt.year, dt.month + 1, 13);
    }
    FindYearUnique(dn, dt.year, k);
    FindMonthUnique(k, dt.year, 12, dt.month);
    assert secs / 3600 == dt.hour;
    assert secs % 3600 == dt.minute * 60 + dt.second;
    assert secs % 3600 / 60 == dt.minute;
    assert secs % 60 == dt.second;
  }
}
