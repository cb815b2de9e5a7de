/**
 * The concrete rows of the cookie test suite, each stated as a lemma about
 * the model and proved from the general properties.
 */
module CookieTestRows {
  import opened Wrappers
  import opened Strings
  import OrderedDict
  import HttpDate
  import opened Cookies
  import opened CookieProperties

  /** gmmktime(0, 0, 0, 1, 1, 2014), the reference time of the parsing rows. */
  const Ref2014 := 1388534400

  lemma ReferenceTimeIsNewYear2014()
    ensures HttpDate.Epoch(HttpDate.DateTime(2014, 1, 1, 0, 0, 0)) == Ref2014
  {
  }

  // ---------------------------------------------------------------------
  // Construction and formatting
  // ---------------------------------------------------------------------

  lemma BasicCookie(ref: int)
    ensures var c := NewCookie("requests-testcookie", "testvalue", [], NoOverrides, ref);
            && c.name == "requests-testcookie" && c.value == "testvalue"
            && ToString(c) == "testvalue"
            && FormatForHeader(c) == "requests-testcookie=testvalue"
            && FormatForSetCookie(c) == "requests-testcookie=testvalue"
  {
  }

  /** The attributes of the second constructor row: a flag and a path. */
  const HttpOnlyRoot: Attributes := [("httponly", Flag), ("path", Text("/"))]

  lemma HttpOnlyRootKept(ref: int)
    ensures NormalizeAttributes(HttpOnlyRoot, ref) == HttpOnlyRoot
  {
    assert OrderedDict.Unique(HttpOnlyRoot) by {
      assert OrderedDict.Keys(HttpOnlyRoot[1..]) == ["path"];
    }
    OrdinaryAttributesKept(HttpOnlyRoot, ref);
  }

  lemma HttpOnlyRootText()
    ensures AttributesText(HttpOnlyRoot) == "; httponly; path=/"
  {
    assert HttpOnlyRoot[1..][1..] == [];
  }

  lemma HttpOnlyRootCookie(ref: int)
    ensures NewCookie("requests-testcookie", "testvalue", HttpOnlyRoot, NoOverrides, ref)
            == Cookie("requests-testcookie", "testvalue", HttpOnlyRoot, DefaultFlags, ref)
  {
    HttpOnlyRootKept(ref);
  }

  lemma HttpOnlyRootSetCookie(ref: int)
    ensures FormatForSetCookie(Cookie("requests-testcookie", "testvalue", HttpOnlyRoot, DefaultFlags, ref))
            == "requests-testcookie=testvalue; httponly; path=/"
  {
    HttpOnlyRootText();
  }

  lemma CookieWithAttributes(ref: int)
    ensures var c := NewCookie("requests-testcookie", "testvalue", HttpOnlyRoot, NoOverrides, ref);
            && FormatForHeader(c) == "requests-testcookie=testvalue"
            && FormatForSetCookie(c) == "requests-testcookie=testvalue; httponly; path=/"
  {
    var c := Cookie("requests-testcookie", "testvalue", HttpOnlyRoot, DefaultFlags, ref);
    TestCookieHeader(c);
    HttpOnlyRootCookie(ref);
    HttpOnlyRootSetCookie(ref);
  }

  /** The header form of any cookie carrying the test name and value. */
  lemma TestCookieHeader(c: Cookie)
    requires c.name == "requests-testcookie" && c.value == "testvalue"
    ensures FormatForHeader(c) == "requests-testcookie=testvalue"
  {
  }

  lemma TestIsBare()
    ensures ';' !in "test" && '=' !in "test" && Trim("test") == "test"
    ensures Split("test", ';') == ["test"]
  {
    TrimOfTrimmed("test");
    assert NoneContains(["test"], ';') by {
      assert ["test"][0] == "test";
    }
    SplitJoin(["test"], ';');
  }

  lemma EmptyCookieName(ref: int)
    ensures Parse("test", ref).name == "" && Parse("test", ref).value == "test"
  {
    TestIsBare();
    ParseWithoutName("test", ref);
  }

  lemma LowerHttpOnly()
    ensures Lower("HttpOnly") == "httponly"
  {
    assert forall i :: 0 <= i < 8 ==> Lower("HttpOnly")[i] == "httponly"[i];
  }

  lemma FooBarHttpOnlyShape()
    ensures "foo=bar; HttpOnly" == ("foo" + "=" + "bar") + ";" + (" " + "HttpOnly")
    ensures PlainText("foo") && PlainText("bar") && PlainText("HttpOnly")
    ensures '=' !in "foo" && '=' !in "HttpOnly"
  {
  }

  lemma FooBarHttpOnlyParses(ref: int)
    ensures Parse("foo=bar; HttpOnly", ref) == NewCookie("foo", "bar", [("httponly", Flag)], NoOverrides, ref)
  {
    FooBarHttpOnlyShape();
    ParseSingleFlag("foo=bar; HttpOnly", "foo", "bar", "HttpOnly", ref);
    LowerHttpOnly();
  }

  lemma HttpOnlyKept(ref: int)
    ensures Attr(NewCookie("foo", "bar", [("httponly", Flag)], NoOverrides, ref), "httponly") == Some(Flag)
  {
    OrdinaryAttributeKept("foo", "bar", [("httponly", Flag)], NoOverrides, ref, "httponly");
  }

  lemma EmptyAttributes(ref: int)
    ensures Attr(Parse("foo=bar; HttpOnly", ref), "httponly") == Some(Flag)
  {
    FooBarHttpOnlyParses(ref);
    HttpOnlyKept(ref);
  }

  // ---------------------------------------------------------------------
  // Domain matching (host-only by default, and with host-only cleared)
  // ---------------------------------------------------------------------

  /** The test cookie with the given attributes and host-only flag. */
  function TestCookie(a: Attributes, hostOnly: bool, ref: int): Cookie {
    Cookie("requests-testcookie", "testvalue", a, Flags(hostOnly, false), ref)
  }

  /** new Cookie(name, value, ['domain' => d], flags): the domain is stored with one leading dot removed. */
  lemma DomainCookieIs(d: string, hostOnly: Option<bool>, ref: int)
    requires !PhpEmpty(d)
    ensures NewCookie("requests-testcookie", "testvalue", [("domain", Text(d))], FlagOverrides(hostOnly, None), ref)
            == TestCookie([("domain", Text(StripDot(d)))], hostOnly != Some(false), ref)
  {
    DomainStored("requests-testcookie", "testvalue", d, FlagOverrides(hostOnly, None), ref);
  }

  lemma ExampleComRows(hostOnly: bool, ref: int)
    ensures var c := TestCookie([("domain", Text("example.com"))], hostOnly, ref);
            && DomainMatches(c, "example.com")
            && DomainMatches(c, "www.example.com") == !hostOnly
            && !DomainMatches(c, "example.net")
            && !DomainMatches(c, "notexample.com")
            && !DomainMatches(c, "notexample.net")
  {
    var c := TestCookie([("domain", Text("example.com"))], hostOnly, ref);
    ExampleComMatches(c, hostOnly);
    ExampleComMisses(c);
  }

  lemma ExampleComMatches(c: Cookie, hostOnly: bool)
    requires Attr(c, "domain") == Some(Text("example.com")) && c.flags.hostOnly == hostOnly
    ensures DomainMatches(c, "example.com")
    ensures DomainMatches(c, "www.example.com") == !hostOnly
  {
    assert "www.example.com"[4..] == "example.com";
  }

  lemma ExampleComMisses(c: Cookie)
    requires Attr(c, "domain") == Some(Text("example.com"))
    ensures !DomainMatches(c, "example.net")
    ensures !DomainMatches(c, "notexample.com")
    ensures !DomainMatches(c, "notexample.net")
  {
    SuffixNeedsLabelBoundary(c, "example.com", "not");
    assert "not" + "example.com" == "notexample.com";
  }

  lemma AbcIpLooksLikeIp(host: string)
    requires host == "abc.127.0.0.1"
    ensures LooksLikeIpAddress(host)
  {
    assert forall i | 0 <= i < |host| :: ("abc" + "." + "127" + "." + "0" + "." + "0" + "." + "1")[i] == host[i];
    assert host == "abc" + "." + "127" + "." + "0" + "." + "0" + "." + "1";
    DottedQuad(host, "abc", "127", "0", "0", "1");
  }

  lemma IpAddressRows(hostOnly: bool, ref: int)
    ensures var c := TestCookie([("domain", Text("127.0.0.1"))], hostOnly, ref);
            && DomainMatches(c, "127.0.0.1")
            && !DomainMatches(c, "abc.127.0.0.1")
            && !DomainMatches(c, "example.com")
  {
    var c := TestCookie([("domain", Text("127.0.0.1"))], hostOnly, ref);
    assert Attr(c, "domain") == Some(Text("127.0.0.1"));
    AbcIpLooksLikeIp("abc.127.0.0.1");
    assert !DomainMatches(c, "abc.127.0.0.1");
    assert "127.0.0.1" != "example.com";
    assert !HasDomainSuffix("example.com", "127.0.0.1");
  }

  lemma LengthIsCheckedRow(hostOnly: bool, ref: int)
    ensures DomainMatches(TestCookie([("domain", Text("127.com"))], hostOnly, ref), "test.127.com") == !hostOnly
  {
    assert "test.127.com"[5..] == "127.com";
  }

  /** The rows of the domain table, for the default (host-only) cookie and with host-only cleared. */
  lemma DomainTable(hostOnly: Option<bool>, ref: int)
    requires hostOnly == None || hostOnly == Some(false)
    ensures var c := NewCookie("requests-testcookie", "testvalue", [("domain", Text("example.com"))], FlagOverrides(hostOnly, None), ref);
            && DomainMatches(c, "example.com")
            && DomainMatches(c, "www.example.com") == hostOnly.Some?
            && !DomainMatches(c, "example.net")
            && !DomainMatches(c, "notexample.com")
            && !DomainMatches(c, "notexample.net")
    ensures var c := NewCookie("requests-testcookie", "testvalue", [("domain", Text(".example.com"))], FlagOverrides(hostOnly, None), ref);
            && DomainMatches(c, "example.com")
            && DomainMatches(c, "www.example.com") == hostOnly.Some?
            && !DomainMatches(c, "example.net")
    ensures var c := NewCookie("requests-testcookie", "testvalue", [("domain", Text("127.0.0.1"))], FlagOverrides(hostOnly, None), ref);
            && DomainMatches(c, "127.0.0.1")
            && !DomainMatches(c, "abc.127.0.0.1")
            && !DomainMatches(c, "example.com")
    ensures DomainMatches(NewCookie("requests-testcookie", "testvalue", [("domain", Text("127.com"))], FlagOverrides(hostOnly, None), ref),
                          "test.127.com") == hostOnly.Some?
  {
    DomainTableExampleCom(hostOnly, ref);
    DomainTableDotted(hostOnly, ref);
    DomainTableIp(hostOnly, ref);
    DomainTableLength(hostOnly, ref);
  }

  lemma DomainTableExampleCom(hostOnly: Option<bool>, ref: int)
    requires hostOnly == None || hostOnly == Some(false)
    ensures var c := NewCookie("requests-testcookie", "testvalue", [("domain", Text("example.com"))], FlagOverrides(hostOnly, None), ref);
            && DomainMatches(c, "example.com")
            && DomainMatches(c, "www.example.com") == hostOnly.Some?
            && !DomainMatches(c, "example.net")
            && !DomainMatches(c, "notexample.com")
            && !DomainMatches(c, "notexample.net")
  {
    DomainTableRow("example.com", "example.com", hostOnly, ref);
    ExampleComRows(hostOnly != Some(false), ref);
  }

  lemma DomainTableDotted(hostOnly: Option<bool>, ref: int)
    requires hostOnly == None || hostOnly == Some(false)
    ensures var c := NewCookie("requests-testcookie", "testvalue", [("domain", Text(".example.com"))], FlagOverrides(hostOnly, None), ref);
            && DomainMatches(c, "example.com")
            && DomainMatches(c, "www.example.com") == hostOnly.Some?
            && !DomainMatches(c, "example.net")
  {
    DomainTableRow(".example.com", "example.com", hostOnly, ref);
    ExampleComRows(hostOnly != Some(false), ref);
  }

  lemma DomainTableIp(hostOnly: Option<bool>, ref: int)
    ensures var c := NewCookie("requests-testcookie", "testvalue", [("domain", Text("127.0.0.1"))], FlagOverrides(hostOnly, None), ref);
            && DomainMatches(c, "127.0.0.1")
            && !DomainMatches(c, "abc.127.0.0.1")
            && !DomainMatches(c, "example.com")
  {
    DomainTableRow("127.0.0.1", "127.0.0.1", hostOnly, ref);
    IpAddressRows(hostOnly != Some(false), ref);
  }

  lemma DomainTableLength(hostOnly: Option<bool>, ref: int)
    requires hostOnly == None || hostOnly == Some(false)
    ensures DomainMatches(NewCookie("requests-testcookie", "testvalue", [("domain", Text("127.com"))], FlagOverrides(hostOnly, None), ref),
                          "test.127.com") == hostOnly.Some?
  {
    DomainTableRow("127.com", "127.com", hostOnly, ref);
    LengthIsCheckedRow(hostOnly != Some(false), ref);
  }

  /** A constructed cookie for domain `d` is the test cookie for `stored`, host-only unless cleared. */
  lemma DomainTableRow(d: string, stored: string, hostOnly: Option<bool>, ref: int)
    requires !PhpEmpty(d) && StripDot(d) == stored
    ensures NewCookie("requests-testcookie", "testvalue", [("domain", Text(d))], FlagOverrides(hostOnly, None), ref)
            == TestCookie([("domain", Text(stored))], hostOnly != Some(false), ref)
  {
    DomainCookieIs(d, hostOnly, ref);
  }

  // ---------------------------------------------------------------------
  // Path matching
  // ---------------------------------------------------------------------

  lemma PathCookieIs(p: string, ref: int)
    ensures NewCookie("requests-testcookie", "testvalue", [("path", Text(p))], NoOverrides, ref)
            == TestCookie([("path", Text(p))], true, ref)
  {
    OrdinaryAttributesKept([("path", Text(p))], ref);
  }

  lemma RootPathRows(ref: int)
    ensures var c := TestCookie([("path", Text("/"))], true, ref);
            && PathMatches(c, "") && PathMatches(c, "/") && PathMatches(c, "/test") && PathMatches(c, "/test/")
  {
  }

  lemma TestPathRows(ref: int)
    ensures var c := TestCookie([("path", Text("/test"))], true, ref);
            && !PathMatches(c, "/") && PathMatches(c, "/test") && !PathMatches(c, "/testing")
            && PathMatches(c, "/test/") && PathMatches(c, "/test/ing") && PathMatches(c, "/test/ing/")
  {
    assert "/testing"[..5] == "/test" && "/testing"[5] == 'i';
    assert "/test/"[..5] == "/test";
    assert "/test/ing"[..5] == "/test";
    assert "/test/ing/"[..5] == "/test";
  }

  lemma TestDirPathRows(ref: int)
    ensures var c := TestCookie([("path", Text("/test/"))], true, ref);
            && PathMatches(c, "/test/") && !PathMatches(c, "/")
  {
  }

  /** The rows of the path table. */
  lemma PathTable(ref: int)
    ensures var c := NewCookie("requests-testcookie", "testvalue", [("path", Text("/"))], NoOverrides, ref);
            && PathMatches(c, "") && PathMatches(c, "/") && PathMatches(c, "/test") && PathMatches(c, "/test/")
    ensures var c := NewCookie("requests-testcookie", "testvalue", [("path", Text("/test"))], NoOverrides, ref);
            && !PathMatches(c, "/") && PathMatches(c, "/test") && !PathMatches(c, "/testing")
            && PathMatches(c, "/test/") && PathMatches(c, "/test/ing") && PathMatches(c, "/test/ing/")
    ensures var c := NewCookie("requests-testcookie", "testvalue", [("path", Text("/test/"))], NoOverrides, ref);
            && PathMatches(c, "/test/") && !PathMatches(c, "/")
  {
    PathCookieIs("/", ref);
    PathCookieIs("/test", ref);
    PathCookieIs("/test/", ref);
    RootPathRows(ref);
    TestPathRows(ref);
    TestDirPathRows(ref);
  }

  // ---------------------------------------------------------------------
  // URI matching
  // ---------------------------------------------------------------------

  /** The attributes of the URI rows: domain example.com and the given path. */
  function ScopedAttributes(p: string): (a: Attributes)
    ensures OrderedDict.Unique(a)
  {
    ScopedAttributesUnique(p);
    [("domain", Text("example.com")), ("path", Text(p))]
  }

  lemma ScopedAttributesUnique(p: string)
    ensures OrderedDict.Unique([("domain", Text("example.com")), ("path", Text(p))])
  {
    var a := [("domain", Text("example.com")), ("path", Text(p))];
    assert a[1..] == [("path", Text(p))] && OrderedDict.Keys(a[1..]) == ["path"];
    assert "domain" != "path";
  }

  lemma ScopedAttributesSettle(p: string, ref: int)
    ensures OrderedDict.Unique(ScopedAttributes(p))
    ensures NormalizeAttributes(ScopedAttributes(p), ref) == ScopedAttributes(p)
  {
    LowerPath();
    LowerDomain();
    var path := ("path", Text(p));
    ConsSettles(path, [], ref);
    ConsSettles(("domain", Text("example.com")), [path], ref);
    assert ScopedAttributes(p) == [("domain", Text("example.com"))] + [path];
  }

  lemma ScopedCookieIs(p: string, hostOnly: Option<bool>, ref: int)
    ensures NewCookie("requests-testcookie", "testvalue", ScopedAttributes(p), FlagOverrides(hostOnly, None), ref)
            == TestCookie(ScopedAttributes(p), hostOnly != Some(false), ref)
  {
    ScopedAttributesSettle(p, ref);
    var raw := Cookie("requests-testcookie", "testvalue", ScopedAttributes(p), MergeFlags(FlagOverrides(hostOnly, None)), ref);
    assert MergeFlags(FlagOverrides(hostOnly, None)) == Flags(hostOnly != Some(false), false);
    assert Normalize(raw) == raw;
  }

  /** The domain half of the URI rows. */
  lemma ScopedDomainRows(p: string, hostOnly: bool, ref: int)
    ensures var c := TestCookie(ScopedAttributes(p), hostOnly, ref);
            && DomainMatches(c, "example.com")
            && DomainMatches(c, "www.example.com") == !hostOnly
            && !DomainMatches(c, "example.net")
            && !DomainMatches(c, "www.example.net")
  {
    assert "www.example.com"[4..] == "example.com";
    assert "www.example.net"[4..] != "example.com";
  }

  lemma ScopedPathRows(hostOnly: bool, ref: int)
    ensures PathMatches(TestCookie(ScopedAttributes("/"), hostOnly, ref), "/")
    ensures var c := TestCookie(ScopedAttributes("/test"), hostOnly, ref);
            && !PathMatches(c, "/") && PathMatches(c, "/test") && !PathMatches(c, "/testing") && PathMatches(c, "/test/")
    ensures !PathMatches(TestCookie(ScopedAttributes("/test/"), hostOnly, ref), "/")
  {
    assert "/testing"[..5] == "/test" && "/testing"[5] == 'i';
    assert "/test/"[..5] == "/test";
  }

  lemma ScopedNotSecure(p: string, hostOnly: bool, ref: int)
    ensures !IsSecure(TestCookie(ScopedAttributes(p), hostOnly, ref))
  {
  }

  /**
   * The rows of the URI table over http: exact matching for the default
   * cookie, subdomains too once host-only is cleared.
   */
  lemma UriTable(hostOnly: Option<bool>, ref: int)
    requires hostOnly == None || hostOnly == Some(false)
    ensures var c := NewCookie("requests-testcookie", "testvalue", ScopedAttributes("/"), FlagOverrides(hostOnly, None), ref);
            && UriMatches(c, Origin("http", "example.com", "/"))
            && UriMatches(c, Origin("http", "www.example.com", "/")) == hostOnly.Some?
            && !UriMatches(c, Origin("http", "example.net", "/"))
            && !UriMatches(c, Origin("http", "www.example.net", "/"))
    ensures var c := NewCookie("requests-testcookie", "testvalue", ScopedAttributes("/test"), FlagOverrides(hostOnly, None), ref);
            && !UriMatches(c, Origin("http", "example.com", "/"))
            && !UriMatches(c, Origin("http", "www.example.com", "/"))
            && UriMatches(c, Origin("http", "example.com", "/test"))
            && UriMatches(c, Origin("http", "www.example.com", "/test")) == hostOnly.Some?
            && !UriMatches(c, Origin("http", "example.com", "/testing"))
            && !UriMatches(c, Origin("http", "www.example.com", "/testing"))
            && UriMatches(c, Origin("http", "example.com", "/test/"))
            && UriMatches(c, Origin("http", "www.example.com", "/test/")) == hostOnly.Some?
    ensures var c := NewCookie("requests-testcookie", "testvalue", ScopedAttributes("/test/"), FlagOverrides(hostOnly, None), ref);
            && !UriMatches(c, Origin("http", "example.com", "/"))
            && !UriMatches(c, Origin("http", "www.example.com", "/"))
  {
    UriRootRows(hostOnly, ref);
    UriTestRows(hostOnly, ref);
    UriTestDirRows(hostOnly, ref);
  }

  lemma UriRootRows(hostOnly: Option<bool>, ref: int)
    requires hostOnly == None || hostOnly == Some(false)
    ensures var c := NewCookie("requests-testcookie", "testvalue", ScopedAttributes("/"), FlagOverrides(hostOnly, None), ref);
            && UriMatches(c, Origin("http", "example.com", "/"))
            && UriMatches(c, Origin("http", "www.example.com", "/")) == hostOnly.Some?
            && !UriMatches(c, Origin("http", "example.net", "/"))
            && !UriMatches(c, Origin("http", "www.example.net", "/"))
  {
    var h := hostOnly != Some(false);
    ScopedCookieIs("/", hostOnly, ref);
    ScopedDomainRows("/", h, ref);
    ScopedPathRows(h, ref);
    ScopedNotSecure("/", h, ref);
  }

  lemma UriTestRows(hostOnly: Option<bool>, ref: int)
    requires hostOnly == None || hostOnly == Some(false)
    ensures var c := NewCookie("requests-testcookie", "testvalue", ScopedAttributes("/test"), FlagOverrides(hostOnly, None), ref);
            && !UriMatches(c, Origin("http", "example.com", "/"))
            && !UriMatches(c, Origin("http", "www.example.com", "/"))
            && UriMatches(c, Origin("http", "example.com", "/test"))
            && UriMatches(c, Origin("http", "www.example.com", "/test")) == hostOnly.Some?
            && !UriMatches(c, Origin("http", "example.com", "/testing"))
            && !UriMatches(c, Origin("http", "www.example.com", "/testing"))
            && UriMatches(c, Origin("http", "example.com", "/test/"))
            && UriMatches(c, Origin("http", "www.example.com", "/test/")) == hostOnly.Some?
  {
    var h := hostOnly != Some(false);
    ScopedCookieIs("/test", hostOnly, ref);
    ScopedDomainRows("/test", h, ref);
    ScopedPathRows(h, ref);
    ScopedNotSecure("/test", h, ref);
  }

  lemma UriTestDirRows(hostOnly: Option<bool>, ref: int)
    requires hostOnly == None || hostOnly == Some(false)
    ensures var c := NewCookie("requests-testcookie", "testvalue", ScopedAttributes("/test/"), FlagOverrides(hostOnly, None), ref);
            && !UriMatches(c, Origin("http", "example.com", "/"))
            && !UriMatches(c, Origin("http", "www.example.com", "/"))
  {
    var h := hostOnly != Some(false);
    ScopedCookieIs("/test/", hostOnly, ref);
    ScopedDomainRows("/test/", h, ref);
    ScopedPathRows(h, ref);
    ScopedNotSecure("/test/", h, ref);
  }

  function SecureAttributes(): (a: Attributes)
    ensures OrderedDict.Unique(a)
  {
    SecureShapeSettles([("domain", Text("example.com")), ("path", Text("/")), ("secure", Flag)], "example.com", "/", 0);
    [("domain", Text("example.com")), ("path", Text("/")), ("secure", Flag)]
  }

  /** A path followed by the secure flag normalises to itself. */
  lemma SecureTailSettles(tail: Attributes, p: string, ref: int)
    requires tail == [("path", Text(p)), ("secure", Flag)]
    ensures OrderedDict.Unique(tail) && NormalizeAttributes(tail, ref) == tail
    ensures "domain" !in OrderedDict.Keys(tail)
  {
    LowerPath();
    LowerSecure();
    assert NormalizeAttribute("secure", Flag, ref) == Some(Flag);
    NormalizeSingle("secure", Flag, ref, Flag);
    assert "path" != "secure";
    ConsSettles(("path", Text(p)), [("secure", Flag)], ref);
    assert [("path", Text(p))] + [("secure", Flag)] == tail;
    assert OrderedDict.Keys(tail) == ["path", "secure"];
  }

  /** A dotless domain, a path and the secure flag normalise to themselves. */
  lemma SecureShapeSettles(a: Attributes, d: string, p: string, ref: int)
    requires a == [("domain", Text(d)), ("path", Text(p)), ("secure", Flag)]
    requires !PhpEmpty(d) && d[0] != '.'
    ensures OrderedDict.Unique(a) && NormalizeAttributes(a, ref) == a
  {
    var tail := [("path", Text(p)), ("secure", Flag)];
    SecureTailSettles(tail, p, ref);
    DomainConsSettles(d, tail, ref);
    assert [("domain", Text(d))] + tail == a;
  }

  /** A dotless domain in front of settled attributes without a domain keeps everything settled. */
  lemma DomainConsSettles(d: string, rest: Attributes, ref: int)
    requires !PhpEmpty(d) && d[0] != '.'
    requires OrderedDict.Unique(rest) && NormalizeAttributes(rest, ref) == rest
    requires "domain" !in OrderedDict.Keys(rest)
    ensures OrderedDict.Unique([("domain", Text(d))] + rest)
    ensures NormalizeAttributes([("domain", Text(d))] + rest, ref) == [("domain", Text(d))] + rest
  {
    DomainNormalizes(d, ref);
    ConsSettles(("domain", Text(d)), rest, ref);
  }

  lemma SecureAttributesSettle(ref: int)
    ensures OrderedDict.Unique(SecureAttributes())
    ensures NormalizeAttributes(SecureAttributes(), ref) == SecureAttributes()
  {
    SecureShapeSettles(SecureAttributes(), "example.com", "/", ref);
  }

  lemma SecureCookieIs(ref: int)
    ensures NewCookie("requests-testcookie", "testvalue", SecureAttributes(), FlagOverrides(Some(false), None), ref)
            == TestCookie(SecureAttributes(), false, ref)
  {
    SecureAttributesSettle(ref);
    var raw := Cookie("requests-testcookie", "testvalue", SecureAttributes(), MergeFlags(FlagOverrides(Some(false), None)), ref);
    assert MergeFlags(FlagOverrides(Some(false), None)) == Flags(false, false);
    assert Normalize(raw) == raw;
  }

  lemma SecureCookieMatches(ref: int)
    ensures var c := TestCookie(SecureAttributes(), false, ref);
            && IsSecure(c)
            && DomainMatches(c, "example.com") && DomainMatches(c, "www.example.com")
            && PathMatches(c, "/")
  {
    assert "www.example.com"[4..] == "example.com";
  }

  /** A secure cookie is sent over https only, to the domain and its subdomains. */
  lemma SecureRows(ref: int)
    ensures var c := NewCookie("requests-testcookie", "testvalue", SecureAttributes(), FlagOverrides(Some(false), None), ref);
            && UriMatches(c, Origin("https", "example.com", "/"))
            && !UriMatches(c, Origin("http", "example.com", "/"))
            && UriMatches(c, Origin("https", "www.example.com", "/"))
            && !UriMatches(c, Origin("http", "www.example.com", "/"))
  {
    SecureCookieIs(ref);
    SecureCookieMatches(ref);
  }

  /** A cookie built by hand, with no domain or path, matches every host, path and URI. */
  lemma ManuallySetRows(ref: int)
    ensures var c := NewCookie("requests-testcookie", "testvalue", [], NoOverrides, ref);
            && DomainMatches(c, "example.com") && DomainMatches(c, "example.net")
            && PathMatches(c, "/") && PathMatches(c, "/test") && PathMatches(c, "/test/")
            && UriMatches(c, Origin("http", "example.com", "/"))
            && UriMatches(c, Origin("http", "example.com", "/test"))
            && UriMatches(c, Origin("http", "example.com", "/test/"))
            && UriMatches(c, Origin("http", "example.net", "/"))
            && UriMatches(c, Origin("http", "example.net", "/test"))
            && UriMatches(c, Origin("http", "example.net", "/test/"))
  {
  }
}
