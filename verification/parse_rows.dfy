/**
 * The parsing rows of the cookie test suite: name and value, the three
 * `Expires` forms, `Max-Age`, and parsing the same header again after a
 * second normalisation.
 */
module CookieParseRows {
  import opened Wrappers
  import opened Strings
  import OrderedDict
  import opened HttpDate
  import opened Cookies
  import opened CookieProperties
  import opened Extraction
  import opened CookieTestRows

  // ---------------------------------------------------------------------
  // The dates of the rows
  // ---------------------------------------------------------------------

  /** 5 December 2013, 04:50:12 UTC: a Thursday. */
  const Dec2013 := DateTime(2013, 12, 5, 4, 50, 12)

  /** 5 December 2014, 04:50:12 UTC: a Friday. */
  const Dec2014 := DateTime(2014, 12, 5, 4, 50, 12)

  /** gmmktime(4, 50, 12, 12, 5, 2013). */
  const Instant2013 := 1386219012

  /** gmmktime(4, 50, 12, 12, 5, 2014). */
  const Instant2014 := 1417755012

  lemma InstantsAreGmmktime()
    ensures Epoch(Dec2013) == Instant2013 && Epoch(Dec2014) == Instant2014
  {
  }

  lemma Weekdays()
    ensures Weekday(Dec2013) == 3 && Weekday(Dec2014) == 4
  {
  }

  lemma Fields()
    ensures Pad(5, 1) == "5" && Pad(2013, 4) == "2013" && Pad(2014, 4) == "2014"
    ensures ClockText(Dec2013) == "04:50:12" && ClockText(Dec2014) == "04:50:12"
  {
    PadDay();
    PadYear2013();
    PadYear2014();
    Clock(Dec2013);
    Clock(Dec2014);
  }

  lemma PadDay()
    ensures Pad(5, 1) == "5"
  {
  }

  lemma PadYear2013()
    ensures Pad(2013, 4) == "2013"
  {
    assert Pad(20, 2) == "20";
  }

  lemma PadYear2014()
    ensures Pad(2014, 4) == "2014"
  {
    assert Pad(20, 2) == "20";
  }

  lemma PadClockFields()
    ensures Pad(4, 2) == "04" && Pad(50, 2) == "50" && Pad(12, 2) == "12"
  {
  }

  lemma Clock(dt: DateTime)
    requires dt.hour == 4 && dt.minute == 50 && dt.second == 12 && Printable(dt)
    ensures ClockText(dt) == "04:50:12"
  {
    PadClockFields();
    var s := "04:50:12";
    assert forall i | 0 <= i < |s| :: ("04" + (":" + ("50" + (":" + "12"))))[i] == s[i];
  }

  lemma Rfc1123Shape(dt: DateTime, wd: string, day: string, mon: string, year: string, clock: string, s: string)
    requires Printable(dt) && dt.day < 10
    requires ShortDays[Weekday(dt)] == wd && Pad(dt.day, 1) == day && MonthNames[dt.month - 1] == mon
    requires Pad(dt.year, 4) == year && ClockText(dt) == clock
    requires s == wd + (", " + (day + ("-" + (mon + ("-" + (year + (" " + (clock + " GMT"))))))))
    ensures ParseHttpDate(s) == Some(Epoch(dt))
  {
    FormsAgree(dt, '-');
  }

  lemma Rfc850Shape(dt: DateTime, wd: string, day: string, mon: string, year: string, clock: string, s: string)
    requires Printable(dt) && dt.day < 10
    requires LongDays[Weekday(dt)] == wd && Pad(dt.day, 1) == day && MonthNames[dt.month - 1] == mon
    requires Pad(dt.year, 4) == year && ClockText(dt) == clock
    requires s == wd + (", " + (day + ("-" + (mon + ("-" + (year + (" " + (clock + " GMT"))))))))
    ensures ParseHttpDate(s) == Some(Epoch(dt))
  {
    FormsAgree(dt, '-');
  }

  lemma AsctimeShape(dt: DateTime, wd: string, day: string, mon: string, year: string, clock: string, s: string)
    requires Printable(dt) && dt.day < 10
    requires ShortDays[Weekday(dt)] == wd && Pad(dt.day, 1) == day && MonthNames[dt.month - 1] == mon
    requires Pad(dt.year, 4) == year && ClockText(dt) == clock
    requires s == wd + (" " + (mon + (" " + ((" " + day) + (" " + (clock + (" " + year)))))))
    ensures ParseHttpDate(s) == Some(Epoch(dt))
  {
    FormsAgree(dt, '-');
  }

  lemma Thu2013Rfc1123Text()
    ensures "Thu" + (", " + ("5" + ("-" + ("Dec" + ("-" + ("2013" + (" " + ("04:50:12" + " GMT")))))))) == "Thu, 5-Dec-2013 04:50:12 GMT"
  {
    var s := "Thu, 5-Dec-2013 04:50:12 GMT";
    assert forall i | 0 <= i < |s| :: ("Thu" + (", " + ("5" + ("-" + ("Dec" + ("-" + ("2013" + (" " + ("04:50:12" + " GMT")))))))))[i] == s[i];
  }

  lemma Thu2013Rfc1123()
    ensures ParseHttpDate("Thu, 5-Dec-2013 04:50:12 GMT") == Some(Instant2013)
  {
    Weekdays();
    Fields();
    InstantsAreGmmktime();
    Thu2013Rfc1123Text();
    Rfc1123Shape(Dec2013, "Thu", "5", "Dec", "2013", "04:50:12", "Thu, 5-Dec-2013 04:50:12 GMT");
  }

  lemma Thu2013Rfc850Text()
    ensures "Thursday" + (", " + ("5" + ("-" + ("Dec" + ("-" + ("2013" + (" " + ("04:50:12" + " GMT")))))))) == "Thursday, 5-Dec-2013 04:50:12 GMT"
  {
    var s := "Thursday, 5-Dec-2013 04:50:12 GMT";
    assert forall i | 0 <= i < |s| :: ("Thursday" + (", " + ("5" + ("-" + ("Dec" + ("-" + ("2013" + (" " + ("04:50:12" + " GMT")))))))))[i] == s[i];
  }

  lemma Thu2013Rfc850()
    ensures ParseHttpDate("Thursday, 5-Dec-2013 04:50:12 GMT") == Some(Instant2013)
  {
    Weekdays();
    Fields();
    InstantsAreGmmktime();
    Thu2013Rfc850Text();
    Rfc850Shape(Dec2013, "Thursday", "5", "Dec", "2013", "04:50:12", "Thursday, 5-Dec-2013 04:50:12 GMT");
  }

  lemma Thu2013AsctimeText()
    ensures "Thu" + (" " + ("Dec" + (" " + ((" " + "5") + (" " + ("04:50:12" + (" " + "2013"))))))) == "Thu Dec  5 04:50:12 2013"
  {
    var s := "Thu Dec  5 04:50:12 2013";
    assert forall i | 0 <= i < |s| :: ("Thu" + (" " + ("Dec" + (" " + ((" " + "5") + (" " + ("04:50:12" + (" " + "2013"))))))))[i] == s[i];
  }

  lemma Thu2013Asctime()
    ensures ParseHttpDate("Thu Dec  5 04:50:12 2013") == Some(Instant2013)
  {
    Weekdays();
    Fields();
    InstantsAreGmmktime();
    Thu2013AsctimeText();
    AsctimeShape(Dec2013, "Thu", "5", "Dec", "2013", "04:50:12", "Thu Dec  5 04:50:12 2013");
  }

  lemma Fri2014Rfc1123Text()
    ensures "Fri" + (", " + ("5" + ("-" + ("Dec" + ("-" + ("2014" + (" " + ("04:50:12" + " GMT")))))))) == "Fri, 5-Dec-2014 04:50:12 GMT"
  {
    var s := "Fri, 5-Dec-2014 04:50:12 GMT";
    assert forall i | 0 <= i < |s| :: ("Fri" + (", " + ("5" + ("-" + ("Dec" + ("-" + ("2014" + (" " + ("04:50:12" + " GMT")))))))))[i] == s[i];
  }

  lemma Fri2014Rfc1123()
    ensures ParseHttpDate("Fri, 5-Dec-2014 04:50:12 GMT") == Some(Instant2014)
  {
    Weekdays();
    Fields();
    InstantsAreGmmktime();
    Fri2014Rfc1123Text();
    Rfc1123Shape(Dec2014, "Fri", "5", "Dec", "2014", "04:50:12", "Fri, 5-Dec-2014 04:50:12 GMT");
  }

  lemma Fri2014Rfc850Text()
    ensures "Friday" + (", " + ("5" + ("-" + ("Dec" + ("-" + ("2014" + (" " + ("04:50:12" + " GMT")))))))) == "Friday, 5-Dec-2014 04:50:12 GMT"
  {
    var s := "Friday, 5-Dec-2014 04:50:12 GMT";
    assert forall i | 0 <= i < |s| :: ("Friday" + (", " + ("5" + ("-" + ("Dec" + ("-" + ("2014" + (" " + ("04:50:12" + " GMT")))))))))[i] == s[i];
  }

  lemma Fri2014Rfc850()
    ensures ParseHttpDate("Friday, 5-Dec-2014 04:50:12 GMT") == Some(Instant2014)
  {
    Weekdays();
    Fields();
    InstantsAreGmmktime();
    Fri2014Rfc850Text();
    Rfc850Shape(Dec2014, "Friday", "5", "Dec", "2014", "04:50:12", "Friday, 5-Dec-2014 04:50:12 GMT");
  }

  lemma Fri2014AsctimeText()
    ensures "Fri" + (" " + ("Dec" + (" " + ((" " + "5") + (" " + ("04:50:12" + (" " + "2014"))))))) == "Fri Dec  5 04:50:12 2014"
  {
    var s := "Fri Dec  5 04:50:12 2014";
    assert forall i | 0 <= i < |s| :: ("Fri" + (" " + ("Dec" + (" " + ((" " + "5") + (" " + ("04:50:12" + (" " + "2014"))))))))[i] == s[i];
  }

  lemma Fri2014Asctime()
    ensures ParseHttpDate("Fri Dec  5 04:50:12 2014") == Some(Instant2014)
  {
    Weekdays();
    Fields();
    InstantsAreGmmktime();
    Fri2014AsctimeText();
    AsctimeShape(Dec2014, "Fri", "5", "Dec", "2014", "04:50:12", "Fri Dec  5 04:50:12 2014");
  }

  // ---------------------------------------------------------------------
  // Shapes of the rows
  // ---------------------------------------------------------------------

  /**
   * Parsing normalises once; normalising the parsed cookie again keeps its
   * name, value, expiry and every attribute other than `domain`.
   */
  lemma ParseNormalisedAgain(header: string, ref: int, k: string)
    requires Lower(k) != "domain"
    ensures Normalize(Parse(header, ref)).name == Parse(header, ref).name
    ensures Normalize(Parse(header, ref)).value == Parse(header, ref).value
    ensures IsExpired(Normalize(Parse(header, ref))) == IsExpired(Parse(header, ref))
    ensures Attr(Normalize(Parse(header, ref)), k) == Attr(Parse(header, ref), k)
  {
    var parts := Split(header, ';');
    var nv := NameValue(parts[0]);
    var raw := Cookie(Trim(nv.0), Trim(nv.1), ParseAttributes(parts[1..]), MergeFlags(NoOverrides), ref);
    assert Parse(header, ref) == Normalize(raw);
    NormalizeTwiceKeepsObservations(raw);
    NormalizeTwiceKeepsAttribute(raw, k);
  }

  lemma MixedCaseKeys()
    ensures Lower("Expires") == "expires" && Lower("Max-Age") == "max-age"
  {
    LowerExpiresKey();
    LowerMaxAgeKey();
  }

  lemma LowerExpiresKey()
    ensures Lower("Expires") == "expires"
  {
    assert forall i | 0 <= i < 7 :: Lower("Expires")[i] == "expires"[i];
  }

  lemma LowerMaxAgeKey()
    ensures Lower("Max-Age") == "max-age"
  {
    assert forall i | 0 <= i < 7 :: Lower("Max-Age")[i] == "max-age"[i];
  }

  lemma Prefixes()
    ensures ("foo" + "=" + "bar") + ";" + (" " + "Expires" + "=") == "foo=bar; Expires="
    ensures ("foo" + "=" + "bar") + ";" + (" " + "Max-Age" + "=") == "foo=bar; Max-Age="
  {
    var p := "foo=bar; Expires=";
    assert forall i | 0 <= i < |p| :: (("foo" + "=" + "bar") + ";" + (" " + "Expires" + "="))[i] == p[i];
    var q := "foo=bar; Max-Age=";
    assert forall i | 0 <= i < |q| :: (("foo" + "=" + "bar") + ";" + (" " + "Max-Age" + "="))[i] == q[i];
  }

  /** `foo=bar; <key>=<v>` for the two expiry keys of the rows. */
  lemma FooBarAttribute(header: string, key: string, v: string)
    requires (key == "Expires" && header == "foo=bar; Expires=" + v) || (key == "Max-Age" && header == "foo=bar; Max-Age=" + v)
    requires PlainText(v)
    ensures Parse(header, Ref2014) == NewCookie("foo", "bar", [(Lower(key), Text(v))], NoOverrides, Ref2014)
  {
    Prefixes();
    var p := ("foo" + "=" + "bar") + ";" + (" " + key + "=");
    assert header == p + v;
    assert p + v == ("foo" + "=" + "bar") + ";" + (" " + key + "=" + v);
    ParseSingleAttribute(header, "foo", "bar", key, v, Ref2014);
  }

  /** `foo=bar; Expires=<s>` is the cookie `foo=bar` with the one attribute `expires`. */
  lemma ExpiresHeader(header: string, s: string)
    requires header == "foo=bar; Expires=" + s
    requires PlainText(s)
    ensures Parse(header, Ref2014) == NewCookie("foo", "bar", [("expires", Text(s))], NoOverrides, Ref2014)
  {
    FooBarAttribute(header, "Expires", s);
    MixedCaseKeys();
  }

  /** `foo=bar; Expires=<s>` read at the start of 2014, for a date `s` that parses to `t`. */
  lemma ExpiresRow(header: string, s: string, t: int)
    requires header == "foo=bar; Expires=" + s
    requires PlainText(s) && ParseHttpDate(s) == Some(t)
    ensures Parse(header, Ref2014).name == "foo" && Parse(header, Ref2014).value == "bar"
    ensures Attr(Parse(header, Ref2014), "expires") == Some(Time(t))
    ensures IsExpired(Parse(header, Ref2014)) <==> t <= Ref2014
  {
    var a: Attributes := [("expires", Text(s))];
    ExpiresHeader(header, s);
    assert OrderedDict.Get(a, "max-age") == None;
    ExpiresDecides("foo", "bar", a, NoOverrides, Ref2014, s, t);
  }

  /** `foo=bar; Expires=<s>` for text `s` that is no date: no expiry at all. */
  lemma BadExpiresRow(header: string, s: string)
    requires header == "foo=bar; Expires=" + s
    requires PlainText(s) && ParseHttpDate(s).None?
    ensures Attr(Parse(header, Ref2014), "expires") == None
    ensures !IsExpired(Parse(header, Ref2014))
  {
    FooBarAttribute(header, "Expires", s);
    MixedCaseKeys();
    BadExpiresDropped("foo", "bar", [("expires", Text(s))], NoOverrides, Ref2014, s);
  }

  /** `foo=bar; Max-Age=<n>`: the instant `n` seconds after the reference, or 0 when `n <= 0`. */
  lemma MaxAgeRow(header: string, n: int)
    requires header == "foo=bar; Max-Age=" + IntToString(n)
    requires PlainText(IntToString(n))
    ensures Attr(Parse(header, Ref2014), "max-age") == Some(Time(if n <= 0 then 0 else Ref2014 + n))
    ensures IsExpired(Parse(header, Ref2014)) <==> n <= 0
  {
    FooBarAttribute(header, "Max-Age", IntToString(n));
    MixedCaseKeys();
    MaxAgeDecides("foo", "bar", [("max-age", Text(IntToString(n)))], NoOverrides, Ref2014, n);
  }

  /** `foo=bar; Max-Age=<s>` for text `s` that is no integer: no max-age, not expired. */
  lemma BadMaxAgeRow(header: string, s: string)
    requires header == "foo=bar; Max-Age=" + s
    requires PlainText(s) && ParseInt(s).None?
    ensures Attr(Parse(header, Ref2014), "max-age") == None
    ensures !IsExpired(Parse(header, Ref2014))
  {
    FooBarAttribute(header, "Max-Age", s);
    MixedCaseKeys();
    BadMaxAgeDropped("foo", "bar", [("max-age", Text(s))], NoOverrides, Ref2014, s);
  }

  lemma NeverIsNoDate()
    ensures ParseHttpDate("never") == None
  {
    var s := "never";
    NamesAreWords();
    assert AllLetters(s) by {
      assert forall i | 0 <= i < |s| :: IsLetter(s[i]);
    }
    WordOf(s, []);
    assert s + [] == s;
    assert forall i | 0 <= i < 7 :: ShortDays[i] != s && LongDays[i] != s;
    NoDayNameNoDate(s, s, []);
  }

  // ---------------------------------------------------------------------
  // Basic parsing
  // ---------------------------------------------------------------------

  /** `foo=bar`: name `foo`, value `bar`, no attributes; normalising again keeps both. */
  lemma NameAndValue()
    ensures Parse("foo=bar", Ref2014) == Cookie("foo", "bar", [], DefaultFlags, Ref2014)
    ensures Normalize(Parse("foo=bar", Ref2014)).name == "foo"
    ensures Normalize(Parse("foo=bar", Ref2014)).value == "bar"
  {
    assert FormatForHeader(Cookie("foo", "bar", [], DefaultFlags, Ref2014)) == "foo=bar";
    ParseHeaderRoundTrip("foo", "bar", Ref2014);
  }

  lemma BarAlone()
    ensures Split("bar", ';') == ["bar"] && '=' !in "bar" && IsTrim("bar")
  {
    assert ';' !in "bar";
    assert SplitOnce("bar", ';') == None;
  }

  /** `bar`: a header without `=` is a value with an empty name. */
  lemma ValueOnly()
    ensures Parse("bar", Ref2014).name == "" && Parse("bar", Ref2014).value == "bar"
    ensures Normalize(Parse("bar", Ref2014)).name == "" && Normalize(Parse("bar", Ref2014)).value == "bar"
  {
    BarAlone();
    ParseWithoutName("bar", Ref2014);
    TrimOfTrimmed("bar");
    ParseNormalisedAgain("bar", Ref2014, "");
  }

  // ---------------------------------------------------------------------
  // The Expires rows: three date forms, one year expired and one not
  // ---------------------------------------------------------------------

  /** The header of the expiry rows: `foo=bar; Expires=<date>`. */
  function ExpiresLine(date: string): string {
    "foo=bar; Expires=" + date
  }

  /** The header of the Max-Age rows: `foo=bar; Max-Age=<text>`. */
  function MaxAgeLine(text: string): string {
    "foo=bar; Max-Age=" + text
  }

  /** A date row, parsed and parsed then normalised again: the instant is kept and decides expiry. */
  lemma ExpiresLineBoth(date: string, t: int)
    requires PlainText(date) && ParseHttpDate(date) == Some(t)
    ensures Attr(Parse(ExpiresLine(date), Ref2014), "expires") == Some(Time(t))
    ensures IsExpired(Parse(ExpiresLine(date), Ref2014)) <==> t <= Ref2014
    ensures Attr(Normalize(Parse(ExpiresLine(date), Ref2014)), "expires") == Some(Time(t))
    ensures IsExpired(Normalize(Parse(ExpiresLine(date), Ref2014))) <==> t <= Ref2014
  {
    ExpiresRow(ExpiresLine(date), date, t);
    ParseNormalisedAgain(ExpiresLine(date), Ref2014, "expires");
  }

  /** A row whose text is no date, parsed and parsed then normalised again: no expiry. */
  lemma BadExpiresLineBoth(date: string)
    requires PlainText(date) && ParseHttpDate(date).None?
    ensures Attr(Parse(ExpiresLine(date), Ref2014), "expires") == None
    ensures !IsExpired(Parse(ExpiresLine(date), Ref2014))
    ensures Attr(Normalize(Parse(ExpiresLine(date), Ref2014)), "expires") == None
    ensures !IsExpired(Normalize(Parse(ExpiresLine(date), Ref2014)))
  {
    BadExpiresRow(ExpiresLine(date), date);
    ParseNormalisedAgain(ExpiresLine(date), Ref2014, "expires");
  }

  /** A Max-Age row, parsed and parsed then normalised again. */
  lemma MaxAgeLineBoth(n: int)
    requires PlainText(IntToString(n))
    ensures Attr(Parse(MaxAgeLine(IntToString(n)), Ref2014), "max-age") == Some(Time(MaxAgeInstant(n, Ref2014)))
    ensures IsExpired(Parse(MaxAgeLine(IntToString(n)), Ref2014)) <==> n <= 0
    ensures Attr(Normalize(Parse(MaxAgeLine(IntToString(n)), Ref2014)), "max-age") == Some(Time(MaxAgeInstant(n, Ref2014)))
    ensures IsExpired(Normalize(Parse(MaxAgeLine(IntToString(n)), Ref2014))) <==> n <= 0
  {
    var h := MaxAgeLine(IntToString(n));
    MaxAgeRow(h, n);
    assert Attr(Parse(h, Ref2014), "max-age") == Some(Time(MaxAgeInstant(n, Ref2014)));
    ParseNormalisedAgain(h, Ref2014, "max-age");
  }

  /** A Max-Age row whose text is no integer, parsed and parsed then normalised again. */
  lemma BadMaxAgeLineBoth(text: string)
    requires PlainText(text) && ParseInt(text).None?
    ensures Attr(Parse(MaxAgeLine(text), Ref2014), "max-age") == None
    ensures !IsExpired(Parse(MaxAgeLine(text), Ref2014))
    ensures Attr(Normalize(Parse(MaxAgeLine(text), Ref2014)), "max-age") == None
    ensures !IsExpired(Normalize(Parse(MaxAgeLine(text), Ref2014)))
  {
    BadMaxAgeRow(MaxAgeLine(text), text);
    ParseNormalisedAgain(MaxAgeLine(text), Ref2014, "max-age");
  }

  lemma Rfc1123ExpiredPlain()
    ensures PlainText("Thu, 5-Dec-2013 04:50:12 GMT")
  {
    var d := "Thu, 5-Dec-2013 04:50:12 GMT";
    assert forall i | 0 <= i < |d| :: d[i] != ';';
  }

  /** `foo=bar; Expires=Thu, 5-Dec-2013 04:50:12 GMT`, parsed and parsed then normalised again. */
  lemma Rfc1123Expired()
    ensures Attr(Parse(ExpiresLine("Thu, 5-Dec-2013 04:50:12 GMT"), Ref2014), "expires") == Some(Time(Epoch(Dec2013)))
    ensures IsExpired(Parse(ExpiresLine("Thu, 5-Dec-2013 04:50:12 GMT"), Ref2014))
    ensures Attr(Normalize(Parse(ExpiresLine("Thu, 5-Dec-2013 04:50:12 GMT"), Ref2014)), "expires") == Some(Time(Epoch(Dec2013)))
    ensures IsExpired(Normalize(Parse(ExpiresLine("Thu, 5-Dec-2013 04:50:12 GMT"), Ref2014)))
  {
    Rfc1123ExpiredPlain();
    Thu2013Rfc1123();
    InstantsAreGmmktime();
    ExpiresLineBoth("Thu, 5-Dec-2013 04:50:12 GMT", Instant2013);
  }

  lemma Rfc1123LivePlain()
    ensures PlainText("Fri, 5-Dec-2014 04:50:12 GMT")
  {
    var d := "Fri, 5-Dec-2014 04:50:12 GMT";
    assert forall i | 0 <= i < |d| :: d[i] != ';';
  }

  /** `foo=bar; Expires=Fri, 5-Dec-2014 04:50:12 GMT`, parsed and parsed then normalised again. */
  lemma Rfc1123Live()
    ensures Attr(Parse(ExpiresLine("Fri, 5-Dec-2014 04:50:12 GMT"), Ref2014), "expires") == Some(Time(Epoch(Dec2014)))
    ensures !IsExpired(Parse(ExpiresLine("Fri, 5-Dec-2014 04:50:12 GMT"), Ref2014))
    ensures Attr(Normalize(Parse(ExpiresLine("Fri, 5-Dec-2014 04:50:12 GMT"), Ref2014)), "expires") == Some(Time(Epoch(Dec2014)))
    ensures !IsExpired(Normalize(Parse(ExpiresLine("Fri, 5-Dec-2014 04:50:12 GMT"), Ref2014)))
  {
    Rfc1123LivePlain();
    Fri2014Rfc1123();
    InstantsAreGmmktime();
    ExpiresLineBoth("Fri, 5-Dec-2014 04:50:12 GMT", Instant2014);
  }

  lemma Rfc850ExpiredPlain()
    ensures PlainText("Thursday, 5-Dec-2013 04:50:12 GMT")
  {
    var d := "Thursday, 5-Dec-2013 04:50:12 GMT";
    assert forall i | 0 <= i < |d| :: d[i] != ';';
  }

  /** `foo=bar; Expires=Thursday, 5-Dec-2013 04:50:12 GMT`, parsed and parsed then normalised again. */
  lemma Rfc850Expired()
    ensures Attr(Parse(ExpiresLine("Thursday, 5-Dec-2013 04:50:12 GMT"), Ref2014), "expires") == Some(Time(Epoch(Dec2013)))
    ensures IsExpired(Parse(ExpiresLine("Thursday, 5-Dec-2013 04:50:12 GMT"), Ref2014))
    ensures Attr(Normalize(Parse(ExpiresLine("Thursday, 5-Dec-2013 04:50:12 GMT"), Ref2014)), "expires") == Some(Time(Epoch(Dec2013)))
    ensures IsExpired(Normalize(Parse(ExpiresLine("Thursday, 5-Dec-2013 04:50:12 GMT"), Ref2014)))
  {
    Rfc850ExpiredPlain();
    Thu2013Rfc850();
    InstantsAreGmmktime();
    ExpiresLineBoth("Thursday, 5-Dec-2013 04:50:12 GMT", Instant2013);
  }

  lemma Rfc850LivePlain()
    ensures PlainText("Friday, 5-Dec-2014 04:50:12 GMT")
  {
    var d := "Friday, 5-Dec-2014 04:50:12 GMT";
    assert forall i | 0 <= i < |d| :: d[i] != ';';
  }

  /** `foo=bar; Expires=Friday, 5-Dec-2014 04:50:12 GMT`, parsed and parsed then normalised again. */
  lemma Rfc850Live()
    ensures Attr(Parse(ExpiresLine("Friday, 5-Dec-2014 04:50:12 GMT"), Ref2014), "expires") == Some(Time(Epoch(Dec2014)))
    ensures !IsExpired(Parse(ExpiresLine("Friday, 5-Dec-2014 04:50:12 GMT"), Ref2014))
    ensures Attr(Normalize(Parse(ExpiresLine("Friday, 5-Dec-2014 04:50:12 GMT"), Ref2014)), "expires") == Some(Time(Epoch(Dec2014)))
    ensures !IsExpired(Normalize(Parse(ExpiresLine("Friday, 5-Dec-2014 04:50:12 GMT"), Ref2014)))
  {
    Rfc850LivePlain();
    Fri2014Rfc850();
    InstantsAreGmmktime();
    ExpiresLineBoth("Friday, 5-Dec-2014 04:50:12 GMT", Instant2014);
  }

  lemma AsctimeExpiredPlain()
    ensures PlainText("Thu Dec  5 04:50:12 2013")
  {
    var d := "Thu Dec  5 04:50:12 2013";
    assert forall i | 0 <= i < |d| :: d[i] != ';';
  }

  /** `foo=bar; Expires=Thu Dec  5 04:50:12 2013`, parsed and parsed then normalised again. */
  lemma AsctimeExpired()
    ensures Attr(Parse(ExpiresLine("Thu Dec  5 04:50:12 2013"), Ref2014), "expires") == Some(Time(Epoch(Dec2013)))
    ensures IsExpired(Parse(ExpiresLine("Thu Dec  5 04:50:12 2013"), Ref2014))
    ensures Attr(Normalize(Parse(ExpiresLine("Thu Dec  5 04:50:12 2013"), Ref2014)), "expires") == Some(Time(Epoch(Dec2013)))
    ensures IsExpired(Normalize(Parse(ExpiresLine("Thu Dec  5 04:50:12 2013"), Ref2014)))
  {
    AsctimeExpiredPlain();
    Thu2013Asctime();
    InstantsAreGmmktime();
    ExpiresLineBoth("Thu Dec  5 04:50:12 2013", Instant2013);
  }

  lemma AsctimeLivePlain()
    ensures PlainText("Fri Dec  5 04:50:12 2014")
  {
    var d := "Fri Dec  5 04:50:12 2014";
    assert forall i | 0 <= i < |d| :: d[i] != ';';
  }

  /** `foo=bar; Expires=Fri Dec  5 04:50:12 2014`, parsed and parsed then normalised again. */
  lemma AsctimeLive()
    ensures Attr(Parse(ExpiresLine("Fri Dec  5 04:50:12 2014"), Ref2014), "expires") == Some(Time(Epoch(Dec2014)))
    ensures !IsExpired(Parse(ExpiresLine("Fri Dec  5 04:50:12 2014"), Ref2014))
    ensures Attr(Normalize(Parse(ExpiresLine("Fri Dec  5 04:50:12 2014"), Ref2014)), "expires") == Some(Time(Epoch(Dec2014)))
    ensures !IsExpired(Normalize(Parse(ExpiresLine("Fri Dec  5 04:50:12 2014"), Ref2014)))
  {
    AsctimeLivePlain();
    Fri2014Asctime();
    InstantsAreGmmktime();
    ExpiresLineBoth("Fri Dec  5 04:50:12 2014", Instant2014);
  }

  lemma NeverPlain()
    ensures PlainText("never")
  {
    var d := "never";
    assert forall i | 0 <= i < |d| :: d[i] != ';';
  }

  /** `foo=bar; Expires=never`: the attribute is dropped and the cookie does not expire. */
  lemma NeverExpires()
    ensures Attr(Parse(ExpiresLine("never"), Ref2014), "expires") == None
    ensures !IsExpired(Parse(ExpiresLine("never"), Ref2014))
    ensures Attr(Normalize(Parse(ExpiresLine("never"), Ref2014)), "expires") == None
    ensures !IsExpired(Normalize(Parse(ExpiresLine("never"), Ref2014)))
  {
    NeverPlain();
    NeverIsNoDate();
    BadExpiresLineBoth("never");
  }

  // ---------------------------------------------------------------------
  // The Max-Age rows
  // ---------------------------------------------------------------------

  /** gmmktime(0, 0, 10, 1, 1, 2014) and gmmktime(1, 1, 0, 1, 1, 2014). */
  lemma MaxAgeInstants()
    ensures Epoch(DateTime(2014, 1, 1, 0, 0, 10)) == Ref2014 + 10
    ensures Epoch(DateTime(2014, 1, 1, 1, 1, 0)) == Ref2014 + 3660
  {
  }

  lemma Numerals()
    ensures IntToString(10) == "10" && IntToString(3660) == "3660"
    ensures IntToString(0) == "0" && IntToString(-1000) == "-1000"
  {
  }

  lemma MaxAgeTenPlain()
    ensures PlainText("10")
  {
    var d := "10";
    assert forall i | 0 <= i < |d| :: d[i] != ';';
  }

  /** `foo=bar; Max-Age=10`, parsed and parsed then normalised again. */
  lemma MaxAgeTen()
    ensures Attr(Parse(MaxAgeLine("10"), Ref2014), "max-age") == Some(Time(Epoch(DateTime(2014, 1, 1, 0, 0, 10))))
    ensures !IsExpired(Parse(MaxAgeLine("10"), Ref2014))
    ensures Attr(Normalize(Parse(MaxAgeLine("10"), Ref2014)), "max-age") == Some(Time(Epoch(DateTime(2014, 1, 1, 0, 0, 10))))
    ensures !IsExpired(Normalize(Parse(MaxAgeLine("10"), Ref2014)))
  {
    MaxAgeTenPlain();
    Numerals();
    MaxAgeInstants();
    MaxAgeLineBoth(10);
  }

  lemma MaxAgeHourAndMinutePlain()
    ensures PlainText("3660")
  {
    var d := "3660";
    assert forall i | 0 <= i < |d| :: d[i] != ';';
  }

  /** `foo=bar; Max-Age=3660`, parsed and parsed then normalised again. */
  lemma MaxAgeHourAndMinute()
    ensures Attr(Parse(MaxAgeLine("3660"), Ref2014), "max-age") == Some(Time(Epoch(DateTime(2014, 1, 1, 1, 1, 0))))
    ensures !IsExpired(Parse(MaxAgeLine("3660"), Ref2014))
    ensures Attr(Normalize(Parse(MaxAgeLine("3660"), Ref2014)), "max-age") == Some(Time(Epoch(DateTime(2014, 1, 1, 1, 1, 0))))
    ensures !IsExpired(Normalize(Parse(MaxAgeLine("3660"), Ref2014)))
  {
    MaxAgeHourAndMinutePlain();
    Numerals();
    MaxAgeInstants();
    MaxAgeLineBoth(3660);
  }

  lemma MaxAgeZeroPlain()
    ensures PlainText("0")
  {
    var d := "0";
    assert forall i | 0 <= i < |d| :: d[i] != ';';
  }

  /** `foo=bar; Max-Age=0`, parsed and parsed then normalised again. */
  lemma MaxAgeZero()
    ensures Attr(Parse(MaxAgeLine("0"), Ref2014), "max-age") == Some(Time(0))
    ensures IsExpired(Parse(MaxAgeLine("0"), Ref2014))
    ensures Attr(Normalize(Parse(MaxAgeLine("0"), Ref2014)), "max-age") == Some(Time(0))
    ensures IsExpired(Normalize(Parse(MaxAgeLine("0"), Ref2014)))
  {
    MaxAgeZeroPlain();
    Numerals();
    MaxAgeInstants();
    MaxAgeLineBoth(0);
  }

  lemma MaxAgeNegativePlain()
    ensures PlainText("-1000")
  {
    var d := "-1000";
    assert forall i | 0 <= i < |d| :: d[i] != ';';
  }

  /** `foo=bar; Max-Age=-1000`, parsed and parsed then normalised again. */
  lemma MaxAgeNegative()
    ensures Attr(Parse(MaxAgeLine("-1000"), Ref2014), "max-age") == Some(Time(0))
    ensures IsExpired(Parse(MaxAgeLine("-1000"), Ref2014))
    ensures Attr(Normalize(Parse(MaxAgeLine("-1000"), Ref2014)), "max-age") == Some(Time(0))
    ensures IsExpired(Normalize(Parse(MaxAgeLine("-1000"), Ref2014)))
  {
    MaxAgeNegativePlain();
    Numerals();
    MaxAgeInstants();
    MaxAgeLineBoth(-1000);
  }

  lemma ExponentIsNoInteger()
    ensures PlainText("1e6") && ParseInt("1e6").None?
  {
    var d := "1e6";
    assert forall i | 0 <= i < |d| :: d[i] != ';';
    assert !IsDigit(d[1]);
  }

  /** `foo=bar; Max-Age=1e6`: not an integer, so dropped, and the cookie does not expire. */
  lemma MaxAgeExponent()
    ensures Attr(Parse(MaxAgeLine("1e6"), Ref2014), "max-age") == None
    ensures !IsExpired(Parse(MaxAgeLine("1e6"), Ref2014))
    ensures Attr(Normalize(Parse(MaxAgeLine("1e6"), Ref2014)), "max-age") == None
    ensures !IsExpired(Normalize(Parse(MaxAgeLine("1e6"), Ref2014)))
  {
    ExponentIsNoInteger();
    BadMaxAgeLineBoth("1e6");
  }
}
