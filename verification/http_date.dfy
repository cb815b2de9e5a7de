/**
 * The cookie `Expires` date parser: the three HTTP-date forms of section
 * 7.1.1.1 of RFC 7231 (an RFC 1123 date, an obsolete RFC 850 date and an
 * ANSI C asctime() date), as cookies carry them in practice, converted to
 * seconds since the Unix epoch, UTC.
 *
 * Accepted shapes (the day name is checked against the list of names but not
 * against the calendar):
 *   RFC 1123:  Thu, 5-Dec-2013 04:50:12 GMT   (day of 1 or 2 digits,
 *              `-` or space between day, month and year; 4-digit year)
 *   RFC 850:   Thursday, 5-Dec-2013 04:50:12 GMT   (as above with the full
 *              day name; a 2-digit year is also accepted)
 *   asctime:   Thu Dec  5 04:50:12 2013   (day space-padded to two places)
 * The field ranges are those of section 5.1.1 of RFC 6265.
 */
module HttpDate {
  import opened Wrappers
  import opened Strings

  datatype DateTime = DateTime(year: int, month: int, day: int, hour: int, minute: int, second: int)

  /** The field ranges section 5.1.1 of RFC 6265 lets through. */
  predicate Valid(dt: DateTime) {
    && 1601 <= dt.year
    && 1 <= dt.month <= 12
    && 1 <= dt.day <= 31
    && 0 <= dt.hour <= 23
    && 0 <= dt.minute <= 59
    && 0 <= dt.second <= 59
  }

  // ---------------------------------------------------------------------
  // Calendar arithmetic (proleptic Gregorian, UTC)
  // ---------------------------------------------------------------------

  predicate IsLeap(y: int) {
    y % 4 == 0 && (y % 100 != 0 || y % 400 == 0)
  }

  function YearLength(y: int): int {
    if IsLeap(y) then 366 else 365
  }

  function MonthLength(y: int, m: int): int
    requires 1 <= m <= 12
  {
    if m == 2 then (if IsLeap(y) then 29 else 28)
    else if m == 4 || m == 6 || m == 9 || m == 11 then 30
    else 31
  }

  /** Leap years among 1 .. y (for y >= 0), by the Gregorian rule. */
  function LeapsThrough(y: int): int {
    y / 4 - y / 100 + y / 400
  }

  /** Days from 1970-01-01 to the first of January of year y: the closed form. */
  function DaysBeforeYear(y: int): int {
    365 * (y - 1970) + LeapsThrough(y - 1) - LeapsThrough(1969)
  }

  /** Days from the first of January to the first of month m: the closed form. */
  function DaysBeforeMonth(y: int, m: int): int
    requires 1 <= m <= 12
  {
    var table := [0, 31, 59, 90, 120, 151, 181, 212, 243, 273, 304, 334];
    table[m - 1] + (if m > 2 && IsLeap(y) then 1 else 0)
  }

  function EpochDay(y: int, m: int, d: int): int
    requires 1 <= m <= 12
  {
    DaysBeforeYear(y) + DaysBeforeMonth(y, m) + d - 1
  }

  /** gmmktime(): the UTC instant of a date, in seconds since the epoch. */
  function Epoch(dt: DateTime): int
    requires 1 <= dt.month <= 12
  {
    EpochDay(dt.year, dt.month, dt.day) * 86400 + dt.hour * 3600 + dt.minute * 60 + dt.second
  }

  /** Reference definition: count whole years one by one from 1970. */
  function DaysBeforeYearByCounting(y: int): int
    decreases if y >= 1970 then y - 1970 else 1970 - y
  {
    if y == 1970 then 0
    else if y > 1970 then DaysBeforeYearByCounting(y - 1) + YearLength(y - 1)
    else DaysBeforeYearByCounting(y + 1) - YearLength(y)
  }

  /** Reference definition: count whole months one by one from January. */
  function DaysBeforeMonthByCounting(y: int, m: int): int
    requires 1 <= m <= 12
  {
    if m == 1 then 0 else DaysBeforeMonthByCounting(y, m - 1) + MonthLength(y, m - 1)
  }

  /** Euclidean division by one of the calendar moduli is determined by quotient and remainder. */
  lemma DivUnique(a: int, k: int, q: int, r: int)
    requires k == 4 || k == 100 || k == 400
    requires a == k * q + r && 0 <= r < k
    ensures a / k == q && a % k == r
  {
  }

  lemma DivStep(y: int, k: int)
    requires k == 4 || k == 100 || k == 400
    ensures y / k - (y - 1) / k == if y % k == 0 then 1 else 0
  {
    var q := (y - 1) / k;
    var r := (y - 1) % k;
    DivUnique(y - 1, k, q, r);
    if r == k - 1 {
      DivUnique(y, k, q + 1, 0);
    } else {
      DivUnique(y, k, q, r + 1);
    }
  }

  /** A multiple of 400 is a multiple of 100, and a multiple of 100 one of 4. */
  lemma MultipleOf(y: int, k: int, j: int)
    requires (k == 400 && j == 100) || (k == 100 && j == 4)
    requires y % k == 0
    ensures y % j == 0
  {
    var q := y / k;
    assert y == j * ((k / j) * q);
  }

  /** Exactly the leap years add one to the leap count. */
  lemma LeapStep(y: int)
    ensures LeapsThrough(y) - LeapsThrough(y - 1) == if IsLeap(y) then 1 else 0
  {
    DivStep(y, 4);
    DivStep(y, 100);
    DivStep(y, 400);
    if y % 400 == 0 {
      MultipleOf(y, 400, 100);
      MultipleOf(y, 100, 4);
    } else if y % 100 == 0 {
      MultipleOf(y, 100, 4);
    }
  }

  /** The closed form grows by one year's length per year. */
  lemma YearStep(y: int)
    ensures DaysBeforeYear(y + 1) == DaysBeforeYear(y) + YearLength(y)
  {
    LeapStep(y);
  }

  /** The closed form for years agrees with counting year by year. */
  lemma {:induction false} DaysBeforeYearAgrees(y: int)
    ensures DaysBeforeYear(y) == DaysBeforeYearByCounting(y)
    decreases if y >= 1970 then y - 1970 else 1970 - y
  {
    if y > 1970 {
      DaysBeforeYearAgrees(y - 1);
      YearStep(y - 1);
    } else if y < 1970 {
      DaysBeforeYearAgrees(y + 1);
      YearStep(y);
    }
  }

  /** The month table agrees with counting month by month. */
  lemma DaysBeforeMonthAgrees(y: int, m: int)
    requires 1 <= m <= 12
    ensures DaysBeforeMonth(y, m) == DaysBeforeMonthByCounting(y, m)
  {
    if m > 1 {
      DaysBeforeMonthAgrees(y, m - 1);
    }
  }

  /** 0 = Monday, ..., 6 = Sunday; 1970-01-01 was a Thursday. */
  function Weekday(dt: DateTime): (w: nat)
    requires 1 <= dt.month <= 12
    ensures w < 7
  {
    (EpochDay(dt.year, dt.month, dt.day) + 3) % 7
  }

  // ---------------------------------------------------------------------
  // Names
  // ---------------------------------------------------------------------

  const ShortDays: seq<string> := ["Mon", "Tue", "Wed", "Thu", "Fri", "Sat", "Sun"]
  const LongDays: seq<string> := ["Monday", "Tuesday", "Wednesday", "Thursday", "Friday", "Saturday", "Sunday"]
  const MonthNames: seq<string> := ["Jan", "Feb", "Mar", "Apr", "May", "Jun", "Jul", "Aug", "Sep", "Oct", "Nov", "Dec"]

  function MonthNumber(name: string): (r: Option<int>)
    ensures r.Some? ==> 1 <= r.value <= 12 && MonthNames[r.value - 1] == name
  {
    if name == "Jan" then Some(1)
    else if name == "Feb" then Some(2)
    else if name == "Mar" then Some(3)
    else if name == "Apr" then Some(4)
    else if name == "May" then Some(5)
    else if name == "Jun" then Some(6)
    else if name == "Jul" then Some(7)
    else if name == "Aug" then Some(8)
    else if name == "Sep" then Some(9)
    else if name == "Oct" then Some(10)
    else if name == "Nov" then Some(11)
    else if name == "Dec" then Some(12)
    else None
  }

  lemma MonthNumberOfName(m: int)
    requires 1 <= m <= 12
    ensures MonthNumber(MonthNames[m - 1]) == Some(m)
  {
  }

  predicate AllLetters(s: string) {
    forall i :: 0 <= i < |s| ==> IsLetter(s[i])
  }

  lemma NamesAreWords()
    ensures forall i :: 0 <= i < 7 ==> |ShortDays[i]| > 0 && AllLetters(ShortDays[i])
    ensures forall i :: 0 <= i < 7 ==> |LongDays[i]| > 0 && AllLetters(LongDays[i])
    ensures forall i :: 0 <= i < 12 ==> |MonthNames[i]| > 0 && AllLetters(MonthNames[i])
  {
  }

  lemma DayListsDisjoint(w: nat)
    requires w < 7
    ensures ShortDays[w] !in LongDays && LongDays[w] !in ShortDays
  {
    assert forall i :: 0 <= i < 7 ==> |ShortDays[i]| == 3 && |LongDays[i]| > 3;
  }

  // ---------------------------------------------------------------------
  // Scanning
  // ---------------------------------------------------------------------

  datatype CharClass = Digits | Letters

  predicate InClass(c: char, k: CharClass) {
    if k == Digits then IsDigit(c) else IsLetter(c)
  }

  /** Length of the longest prefix of s whose characters are all in class k. */
  function RunLength(s: string, k: CharClass): (n: nat)
    ensures n <= |s|
    ensures forall i :: 0 <= i < n ==> InClass(s[i], k)
    ensures n == |s| || !InClass(s[n], k)
  {
    if s != [] && InClass(s[0], k) then 1 + RunLength(s[1..], k) else 0
  }

  lemma {:induction false} RunOf(a: string, b: string, k: CharClass)
    requires forall i :: 0 <= i < |a| ==> InClass(a[i], k)
    requires b == [] || !InClass(b[0], k)
    ensures RunLength(a + b, k) == |a|
  {
    if a != [] {
      assert (a + b)[1..] == a[1..] + b;
      RunOf(a[1..], b, k);
    }
  }

  /** A non-empty run of letters and the text after it. */
  function Word(s: string): Option<(string, string)> {
    var n := RunLength(s, Letters);
    if n == 0 then None else Some((s[..n], s[n..]))
  }

  /** Between lo and hi digits: their value, how many there were, and the text after. */
  function Number(s: string, lo: nat, hi: nat): Option<(nat, nat, string)> {
    var n := RunLength(s, Digits);
    if n == 0 || n < lo || hi < n then None
    else Some((DigitsValue(s[..n]), n, s[n..]))
  }

  function Expect(s: string, c: char): Option<string> {
    if s != [] && s[0] == c then Some(s[1..]) else None
  }

  /** The day-month-year separator of the RFC 1123 and RFC 850 forms. */
  function Separator(s: string): Option<string> {
    if s != [] && (s[0] == '-' || s[0] == ' ') then Some(s[1..]) else None
  }

  /** HH:MM:SS. */
  function Clock(s: string): Option<(nat, nat, nat, string)> {
    var h :- Number(s, 2, 2);
    var r1 :- Expect(h.2, ':');
    var m :- Number(r1, 2, 2);
    var r2 :- Expect(m.2, ':');
    var sec :- Number(r2, 2, 2);
    Some((h.0, m.0, sec.0, sec.2))
  }

  /**
   * `5-Dec-2013 04:50:12 GMT`, the part the RFC 1123 and RFC 850 forms
   * share: the fields as written (the year not yet widened) and the number
   * of year digits.
   */
  function DayMonthYearClock(s: string, yearLo: nat, yearHi: nat): Option<(DateTime, nat)> {
    var dm :- DayMonth(s);
    var yc :- YearClock(dm.2, yearLo, yearHi);
    Some((DateTime(yc.0, dm.1, dm.0, yc.2, yc.3, yc.4), yc.1))
  }

  /** `5-Dec-`: the day, the month number and what follows the second separator. */
  function DayMonth(s: string): Option<(nat, int, string)> {
    var d :- Number(s, 1, 2);
    var r1 :- Separator(d.2);
    var m :- Word(r1);
    var month :- MonthNumber(m.0);
    var r2 :- Separator(m.1);
    Some((d.0, month, r2))
  }

  /** `2013 04:50:12 GMT`: the year, its digit count and the clock fields. */
  function YearClock(s: string, yearLo: nat, yearHi: nat): Option<(nat, nat, nat, nat, nat)> {
    var y :- Number(s, yearLo, yearHi);
    var r3 :- Expect(y.2, ' ');
    var c :- Clock(r3);
    if c.3 != " GMT" then None else
    Some((y.0, y.1, c.0, c.1, c.2))
  }

  /** Two-digit years, as section 5.1.1 of RFC 6265 reads them. */
  function ExpandYear(y: int, digits: nat): int {
    if digits == 2 && 0 <= y < 70 then y + 2000
    else if digits == 2 && 70 <= y < 100 then y + 1900
    else y
  }

  function Checked(dt: DateTime): (r: Option<DateTime>)
    ensures r.Some? ==> Valid(r.value)
  {
    if Valid(dt) then Some(dt) else None
  }

  /** `Thu, 5-Dec-2013 04:50:12 GMT`. */
  function ParseRfc1123(s: string): (r: Option<DateTime>)
    ensures r.Some? ==> Valid(r.value)
  {
    var w :- Word(s);
    if w.0 !in ShortDays then None else
    var r1 :- Expect(w.1, ',');
    var r2 :- Expect(r1, ' ');
    var f :- DayMonthYearClock(r2, 4, 4);
    Checked(f.0)
  }

  /** `Thursday, 5-Dec-2013 04:50:12 GMT`, or with a two-digit year. */
  function ParseRfc850(s: string): (r: Option<DateTime>)
    ensures r.Some? ==> Valid(r.value)
  {
    var w :- Word(s);
    if w.0 !in LongDays then None else
    var r1 :- Expect(w.1, ',');
    var r2 :- Expect(r1, ' ');
    var f :- DayMonthYearClock(r2, 2, 4);
    if f.1 == 3 then None else
    Checked(f.0.(year := ExpandYear(f.0.year, f.1)))
  }

  /** `Dec  5 04:50:12 2013`: what follows the day name in an asctime() date. */
  function AsctimeFields(s: string): Option<DateTime> {
    var m :- Word(s);
    var month :- MonthNumber(m.0);
    var r1 :- Expect(m.1, ' ');
    var d :- if r1 != [] && r1[0] == ' ' then Number(r1[1..], 1, 1) else Number(r1, 2, 2);
    var r2 :- Expect(d.2, ' ');
    var c :- Clock(r2);
    var r3 :- Expect(c.3, ' ');
    var y :- Number(r3, 4, 4);
    if y.2 != [] then None else
    Some(DateTime(y.0, month, d.0, c.0, c.1, c.2))
  }

  /** `Thu Dec  5 04:50:12 2013`. */
  function ParseAsctime(s: string): (r: Option<DateTime>)
    ensures r.Some? ==> Valid(r.value)
  {
    var w :- Word(s);
    if w.0 !in ShortDays then None else
    var r1 :- Expect(w.1, ' ');
    var dt :- AsctimeFields(r1);
    Checked(dt)
  }

  /**
   * The instant an `Expires` value names, trying the three forms in turn;
   * None (PHP's `false` from strtotime) when none of them reads it.
   */
  function ParseHttpDate(s: string): (r: Option<int>)
    ensures r.Some? ==> exists dt :: Valid(dt) && r.value == Epoch(dt)
  {
    match ParseRfc1123(s)
    case Some(dt) => Some(Epoch(dt))
    case None =>
      match ParseRfc850(s)
      case Some(dt) => Some(Epoch(dt))
      case None =>
        match ParseAsctime(s)
        case Some(dt) => Some(Epoch(dt))
        case None => None
  }

  /** A text that does not start with a day name is no date. */
  lemma NoDayNameNoDate(s: string, w: string, rest: string)
    requires Word(s) == Some((w, rest)) && w !in ShortDays && w !in LongDays
    ensures ParseHttpDate(s) == None
  {
  }

  // ---------------------------------------------------------------------
  // Printing, and reading back what was printed
  // ---------------------------------------------------------------------

  /** A date the printers can write: valid, with a four-digit year. */
  predicate Printable(dt: DateTime) {
    Valid(dt) && dt.year <= 9999
  }

  function ClockText(dt: DateTime): string
    requires Printable(dt)
  {
    Pad(dt.hour, 2) + (":" + (Pad(dt.minute, 2) + (":" + Pad(dt.second, 2))))
  }

  /** `5-Dec-2013 04:50:12 GMT` with the given separator and day width. */
  function DayMonthYearText(dt: DateTime, sep: char, dayWidth: nat): string
    requires Printable(dt) && dt.day < Pow10(dayWidth)
  {
    Pad(dt.day, dayWidth) + ([sep] + (MonthNames[dt.month - 1]
      + ([sep] + (Pad(dt.year, 4) + (" " + (ClockText(dt) + " GMT"))))))
  }

  function DayWidth(day: int): nat {
    if day < 10 then 1 else 2
  }

  function FormatRfc1123(dt: DateTime, sep: char): string
    requires Printable(dt) && (sep == '-' || sep == ' ')
  {
    ShortDays[Weekday(dt)] + (", " + DayMonthYearText(dt, sep, DayWidth(dt.day)))
  }

  function FormatRfc850(dt: DateTime): string
    requires Printable(dt)
  {
    LongDays[Weekday(dt)] + (", " + DayMonthYearText(dt, '-', DayWidth(dt.day)))
  }

  function AsctimeText(dt: DateTime): string
    requires Printable(dt)
  {
    MonthNames[dt.month - 1] + (" " + ((if dt.day < 10 then " " + Pad(dt.day, 1) else Pad(dt.day, 2))
      + (" " + (ClockText(dt) + (" " + Pad(dt.year, 4))))))
  }

  function FormatAsctime(dt: DateTime): string
    requires Printable(dt)
  {
    ShortDays[Weekday(dt)] + (" " + AsctimeText(dt))
  }

  lemma WordOf(a: string, b: string)
    requires |a| > 0 && AllLetters(a)
    requires b == [] || !IsLetter(b[0])
    ensures Word(a + b) == Some((a, b))
  {
    RunOf(a, b, Letters);
    assert (a + b)[..|a|] == a && (a + b)[|a|..] == b;
  }

  lemma NumberOf(n: nat, w: nat, b: string, lo: nat, hi: nat)
    requires 0 < lo <= w <= hi && n < Pow10(w)
    requires b == [] || !IsDigit(b[0])
    ensures Number(Pad(n, w) + b, lo, hi) == Some((n, w, b))
  {
    var a := Pad(n, w);
    RunOf(a, b, Digits);
    assert (a + b)[..|a|] == a && (a + b)[|a|..] == b;
    PadRoundTrip(n, w);
  }

  lemma ClockOf(dt: DateTime, b: string)
    requires Printable(dt)
    requires b == [] || !IsDigit(b[0])
    ensures Clock(ClockText(dt) + b) == Some((dt.hour, dt.minute, dt.second, b))
  {
    var sText := Pad(dt.second, 2);
    var mText := Pad(dt.minute, 2);
    var hText := Pad(dt.hour, 2);
    var r2 := sText + b;
    var r1 := mText + (":" + r2);
    var all := hText + (":" + r1);
    assert ClockText(dt) + b == all;
    NumberOf(dt.hour, 2, ":" + r1, 2, 2);
    assert (":" + r1)[1..] == r1;
    NumberOf(dt.minute, 2, ":" + r2, 2, 2);
    assert (":" + r2)[1..] == r2;
    NumberOf(dt.second, 2, b, 2, 2);
  }

  lemma DayMonthYearClockOf(dt: DateTime, sep: char, dayWidth: nat, yearLo: nat, yearHi: nat)
    requires Printable(dt) && (sep == '-' || sep == ' ')
    requires 1 <= dayWidth <= 2 && dt.day < Pow10(dayWidth)
    requires 0 < yearLo <= 4 <= yearHi
    ensures DayMonthYearClock(DayMonthYearText(dt, sep, dayWidth), yearLo, yearHi) == Some((dt, 4))
  {
    var rest := Pad(dt.year, 4) + (" " + (ClockText(dt) + " GMT"));
    var s := Pad(dt.day, dayWidth) + ([sep] + (MonthNames[dt.month - 1] + ([sep] + rest)));
    assert DayMonthYearText(dt, sep, dayWidth) == s;
    DayMonthOf(dt.day, dt.month, sep, dayWidth, rest, s);
    YearClockOf(dt, rest, yearLo, yearHi);
  }

  /** The day and month of the RFC 1123 and RFC 850 forms read back, leaving what follows them. */
  lemma DayMonthOf(day: nat, month: int, sep: char, dayWidth: nat, rest: string, s: string)
    requires 1 <= month <= 12 && (sep == '-' || sep == ' ')
    requires 1 <= dayWidth <= 2 && day < Pow10(dayWidth)
    requires s == Pad(day, dayWidth) + ([sep] + (MonthNames[month - 1] + ([sep] + rest)))
    ensures DayMonth(s) == Some((day, month, rest))
  {
    var afterMonth := [sep] + rest;
    var afterDay := [sep] + (MonthNames[month - 1] + afterMonth);
    NumberOf(day, dayWidth, afterDay, 1, 2);
    assert Separator(afterDay) == Some(MonthNames[month - 1] + afterMonth);
    MonthOf(month, afterMonth, sep);
    assert Separator(afterMonth) == Some(rest);
  }

  /** The year and clock at the end of the RFC 1123 and RFC 850 forms read back with nothing but ` GMT` left. */
  lemma YearClockOf(dt: DateTime, rest: string, yearLo: nat, yearHi: nat)
    requires Printable(dt) && 0 < yearLo <= 4 <= yearHi
    requires rest == Pad(dt.year, 4) + (" " + (ClockText(dt) + " GMT"))
    ensures YearClock(rest, yearLo, yearHi) == Some((dt.year, 4, dt.hour, dt.minute, dt.second))
  {
    var tail := " " + (ClockText(dt) + " GMT");
    NumberOf(dt.year, 4, tail, yearLo, yearHi);
    assert tail[1..] == ClockText(dt) + " GMT";
    ClockOf(dt, " GMT");
  }

  /** A month name followed by a separator reads back as its number. */
  lemma MonthOf(month: int, rest: string, sep: char)
    requires 1 <= month <= 12 && rest != [] && rest[0] == sep && (sep == '-' || sep == ' ')
    ensures Word(MonthNames[month - 1] + rest) == Some((MonthNames[month - 1], rest))
    ensures MonthNumber(MonthNames[month - 1]) == Some(month)
  {
    NamesAreWords();
    WordOf(MonthNames[month - 1], rest);
    MonthNumberOfName(month);
  }

  /** A day name followed by `, ` reads back as the name and what follows the comma and space. */
  lemma DayNameOf(name: string, rest: string)
    requires |name| > 0 && AllLetters(name)
    ensures Word(name + (", " + rest)) == Some((name, ", " + rest))
    ensures Expect(", " + rest, ',') == Some(" " + rest)
    ensures Expect(" " + rest, ' ') == Some(rest)
  {
    WordOf(name, ", " + rest);
    assert (", " + rest)[1..] == " " + rest;
    assert (" " + rest)[1..] == rest;
  }

  /** The RFC 1123 form reads back as the date it was printed from. */
  lemma Rfc1123RoundTrip(dt: DateTime, sep: char)
    requires Printable(dt) && (sep == '-' || sep == ' ')
    ensures ParseRfc1123(FormatRfc1123(dt, sep)) == Some(dt)
  {
    NamesAreWords();
    var name := ShortDays[Weekday(dt)];
    var rest := DayMonthYearText(dt, sep, DayWidth(dt.day));
    DayNameOf(name, rest);
    assert name in ShortDays;
    DayMonthYearClockOf(dt, sep, DayWidth(dt.day), 4, 4);
    assert Checked(dt) == Some(dt);
  }

  /** The RFC 850 form reads back as the date it was printed from. */
  lemma Rfc850RoundTrip(dt: DateTime)
    requires Printable(dt)
    ensures ParseRfc850(FormatRfc850(dt)) == Some(dt)
  {
    NamesAreWords();
    var name := LongDays[Weekday(dt)];
    var rest := DayMonthYearText(dt, '-', DayWidth(dt.day));
    DayNameOf(name, rest);
    assert name in LongDays;
    DayMonthYearClockOf(dt, '-', DayWidth(dt.day), 2, 4);
    assert ExpandYear(dt.year, 4) == dt.year;
    assert dt.(year := dt.year) == dt;
    assert Checked(dt) == Some(dt);
  }

  /** What follows the day in the asctime form: the clock, then the year. */
  lemma AsctimeClockYearOf(dt: DateTime, afterDay: string)
    requires Printable(dt)
    requires afterDay == " " + (ClockText(dt) + (" " + Pad(dt.year, 4)))
    ensures Expect(afterDay, ' ') == Some(ClockText(dt) + (" " + Pad(dt.year, 4)))
    ensures Clock(ClockText(dt) + (" " + Pad(dt.year, 4))) == Some((dt.hour, dt.minute, dt.second, " " + Pad(dt.year, 4)))
    ensures Expect(" " + Pad(dt.year, 4), ' ') == Some(Pad(dt.year, 4))
    ensures Number(Pad(dt.year, 4), 4, 4) == Some((dt.year, 4, []))
  {
    var afterClock := " " + Pad(dt.year, 4);
    assert afterDay[1..] == ClockText(dt) + afterClock;
    ClockOf(dt, afterClock);
    assert afterClock[1..] == Pad(dt.year, 4);
    assert Pad(dt.year, 4) + [] == Pad(dt.year, 4);
    NumberOf(dt.year, 4, [], 4, 4);
  }

  /** The day of the asctime form, space-padded below 10, reads back with what follows it. */
  lemma AsctimeDayOf(dt: DateTime, dayText: string, afterDay: string)
    requires Printable(dt)
    requires dayText == if dt.day < 10 then " " + Pad(dt.day, 1) else Pad(dt.day, 2)
    requires afterDay != [] && afterDay[0] == ' '
    ensures var r1 := dayText + afterDay;
            (if r1 != [] && r1[0] == ' ' then Number(r1[1..], 1, 1) else Number(r1, 2, 2)).Some?
    ensures var r1 := dayText + afterDay;
            var d := if r1 != [] && r1[0] == ' ' then Number(r1[1..], 1, 1) else Number(r1, 2, 2);
            d.value.0 == dt.day && d.value.2 == afterDay
  {
    var r1 := dayText + afterDay;
    if dt.day < 10 {
      assert r1[0] == ' ';
      assert r1[1..] == Pad(dt.day, 1) + afterDay;
      NumberOf(dt.day, 1, afterDay, 1, 1);
    } else {
      assert IsDigit(Pad(dt.day, 2)[0]);
      NumberOf(dt.day, 2, afterDay, 2, 2);
    }
  }

  lemma AsctimeFieldsOf(dt: DateTime)
    requires Printable(dt)
    ensures AsctimeFields(AsctimeText(dt)) == Some(dt)
  {
    NamesAreWords();
    var afterDay := " " + (ClockText(dt) + (" " + Pad(dt.year, 4)));
    var dayText := if dt.day < 10 then " " + Pad(dt.day, 1) else Pad(dt.day, 2);
    var afterMonth := " " + (dayText + afterDay);
    assert AsctimeText(dt) == MonthNames[dt.month - 1] + afterMonth;
    WordOf(MonthNames[dt.month - 1], afterMonth);
    MonthNumberOfName(dt.month);
    assert afterMonth[1..] == dayText + afterDay;
    AsctimeDayOf(dt, dayText, afterDay);
    AsctimeClockYearOf(dt, afterDay);
  }

  /** The asctime form reads back as the date it was printed from. */
  lemma AsctimeRoundTrip(dt: DateTime)
    requires Printable(dt)
    ensures ParseAsctime(FormatAsctime(dt)) == Some(dt)
  {
    NamesAreWords();
    var rest := AsctimeText(dt);
    WordOf(ShortDays[Weekday(dt)], " " + rest);
    assert (" " + rest)[1..] == rest;
    AsctimeFieldsOf(dt);
  }

  /**
   * The three forms of one wall-clock time name the same UTC instant, and it
   * is the instant gmmktime() gives for that date.
   */
  lemma FormsAgree(dt: DateTime, sep: char)
    requires Printable(dt) && (sep == '-' || sep == ' ')
    ensures ParseHttpDate(FormatRfc1123(dt, sep)) == Some(Epoch(dt))
    ensures ParseHttpDate(FormatRfc850(dt)) == Some(Epoch(dt))
    ensures ParseHttpDate(FormatAsctime(dt)) == Some(Epoch(dt))
  {
    Rfc1123RoundTrip(dt, sep);
    Rfc850RoundTrip(dt);
    AsctimeRoundTrip(dt);
    NamesAreWords();
    var wd := Weekday(dt);
    DayListsDisjoint(wd);
    WordOf(LongDays[wd], ", " + DayMonthYearText(dt, '-', DayWidth(dt.day)));
    WordOf(ShortDays[wd], " " + AsctimeText(dt));
  }
}
