/**
 * The rows that read one Set-Cookie value against the origin of the request:
 * the default path, an explicit or invalid path, a cross-site domain, an
 * empty domain, and a domain for the host itself or for its parent.
 */
module CookieOriginRows {
  import opened Wrappers
  import opened Strings
  import OrderedDict
  import opened Cookies
  import opened CookieProperties
  import opened Extraction
  import opened CookieTestRows

  /** http://example.com followed by a path. */
  function ExampleCom(path: string): Origin {
    Origin("http", "example.com", path)
  }

  /** http://test.example.com/. */
  const TestExampleCom := Origin("http", "test.example.com", "/")

  // ---------------------------------------------------------------------
  // Shapes of the rows
  // ---------------------------------------------------------------------

  lemma Prefixes()
    ensures ("name" + "=" + "value") + ";" + (" " + "path" + "=") == "name=value; path="
    ensures ("name" + "=" + "value") + ";" + (" " + "domain" + "=") == "name=value; domain="
  {
    var p := "name=value; path=";
    assert forall i | 0 <= i < |p| :: (("name" + "=" + "value") + ";" + (" " + "path" + "="))[i] == p[i];
    var q := "name=value; domain=";
    assert forall i | 0 <= i < |q| :: (("name" + "=" + "value") + ";" + (" " + "domain" + "="))[i] == q[i];
  }

  /** `name=value; <key>=<v>` parses to the one attribute, key as written. */
  lemma NameValueAttribute(header: string, key: string, v: string)
    requires (key == "path" && header == "name=value; path=" + v) || (key == "domain" && header == "name=value; domain=" + v)
    requires PlainText(v)
    ensures Parse(header, Ref2014) == NewCookie("name", "value", [(Lower(key), Text(v))], NoOverrides, Ref2014)
  {
    Prefixes();
    var p := ("name" + "=" + "value") + ";" + (" " + key + "=");
    assert header == p + v;
    assert p + v == ("name" + "=" + "value") + ";" + (" " + key + "=" + v);
    ParseSingleAttribute(header, "name", "value", key, v, Ref2014);
  }

  /** `name=value` with no attributes. */
  lemma BareParse()
    ensures Parse("name=value", Ref2014) == Cookie("name", "value", [], DefaultFlags, Ref2014)
  {
    assert FormatForHeader(Cookie("name", "value", [], DefaultFlags, Ref2014)) == "name=value";
    ParseHeaderRoundTrip("name", "value", Ref2014);
  }

  /**
   * `name=value` from any origin: one host-only cookie for the origin host,
   * stored with the default path of the origin path.
   */
  lemma BareHeaderFromOrigin(o: Origin)
    ensures |ParseFromHeaders(["name=value"], Some(o), Ref2014)| == 1
    ensures var c := ParseFromHeaders(["name=value"], Some(o), Ref2014)[0].1;
            && Attr(c, "path") == Some(Text(DefaultPath(o.path)))
            && Attr(c, "domain") == Some(Text(o.host))
            && c.flags.hostOnly
  {
    BareParse();
    var p := Parse("name=value", Ref2014);
    MissingDomainIsHostOnly(p, o);
    InvalidPathReplaced(p, o);
    SingleHeader("name=value", Some(o), Ref2014);
  }

  /**
   * `name=value; path=<v>` from any origin: one host-only cookie whose path is
   * `v` when it starts with `/` and the default path of the origin otherwise.
   */
  lemma PathHeaderFromOrigin(header: string, v: string, o: Origin)
    requires header == "name=value; path=" + v && PlainText(v)
    ensures |ParseFromHeaders([header], Some(o), Ref2014)| == 1
    ensures var c := ParseFromHeaders([header], Some(o), Ref2014)[0].1;
            && Attr(c, "path") == Some(Text(if v != "" && v[0] == '/' then v else DefaultPath(o.path)))
            && c.flags.hostOnly
  {
    NameValueAttribute(header, "path", v);
    KnownKeysLower();
    var p := Parse(header, Ref2014);
    assert OrderedDict.Get([("path", Text(v))], "domain") == None;
    assert OrderedDict.Get([("path", Text(v))], "path") == Some(Text(v));
    OrdinaryAttributeKept("name", "value", [("path", Text(v))], NoOverrides, Ref2014, "path");
    MissingDomainIsHostOnly(p, o);
    if v != "" && v[0] == '/' {
      ValidPathKept(p, o);
    } else {
      InvalidPathReplaced(p, o);
    }
    SingleHeader(header, Some(o), Ref2014);
  }

  /**
   * `name=value; domain=<d>` from any origin: kept, as a cookie for `d` that
   * is not host-only, exactly when the origin host domain-matches `d`.
   */
  lemma DomainHeaderFromOrigin(header: string, d: string, o: Origin)
    requires header == "name=value; domain=" + d && PlainText(d)
    requires !PhpEmpty(d) && d[0] != '.'
    ensures |ParseFromHeaders([header], Some(o), Ref2014)| <= 1
    ensures |ParseFromHeaders([header], Some(o), Ref2014)| == 1 <==>
              o.host == d || (HasDomainSuffix(o.host, d) && !LooksLikeIpAddress(o.host))
    ensures |ParseFromHeaders([header], Some(o), Ref2014)| == 1 ==>
              var c := ParseFromHeaders([header], Some(o), Ref2014)[0].1;
              Attr(c, "domain") == Some(Text(d)) && !c.flags.hostOnly
  {
    var p := Cookie("name", "value", [("domain", Text(d))], DefaultFlags, Ref2014);
    DomainHeaderParses(header, d);
    DeclaredDomainOutcome(header, d, o, p);
  }

  lemma DomainHeaderParses(header: string, d: string)
    requires header == "name=value; domain=" + d && PlainText(d)
    requires !PhpEmpty(d) && d[0] != '.'
    ensures Parse(header, Ref2014) == Cookie("name", "value", [("domain", Text(d))], DefaultFlags, Ref2014)
  {
    NameValueAttribute(header, "domain", d);
    KnownKeysLower();
    DomainStored("name", "value", d, NoOverrides, Ref2014);
  }

  /** A header that parses to a cookie declaring domain `d`, read against an origin. */
  lemma DeclaredDomainOutcome(header: string, d: string, o: Origin, p: Cookie)
    requires Parse(header, Ref2014) == p
    requires p == Cookie("name", "value", [("domain", Text(d))], DefaultFlags, Ref2014) && !PhpEmpty(d)
    ensures |ParseFromHeaders([header], Some(o), Ref2014)| <= 1
    ensures |ParseFromHeaders([header], Some(o), Ref2014)| == 1 <==>
              o.host == d || (HasDomainSuffix(o.host, d) && !LooksLikeIpAddress(o.host))
    ensures |ParseFromHeaders([header], Some(o), Ref2014)| == 1 ==>
              var c := ParseFromHeaders([header], Some(o), Ref2014)[0].1;
              Attr(c, "domain") == Some(Text(d)) && !c.flags.hostOnly
  {
    assert Attr(p, "domain") == Some(Text(d));
    DeclaredDomainChecked(p, o, d);
    SingleHeaderParsed(header, Some(o), Ref2014, p);
  }

  /** `name=value; domain=` from any origin: the empty domain counts as none. */
  lemma EmptyDomainFromOrigin(o: Origin)
    ensures |ParseFromHeaders(["name=value; domain="], Some(o), Ref2014)| == 1
    ensures var c := ParseFromHeaders(["name=value; domain="], Some(o), Ref2014)[0].1;
            Attr(c, "domain") == Some(Text(o.host)) && c.flags.hostOnly
  {
    EmptyDomainParses();
    HostOnlyOutcome("name=value; domain=", o, Parse("name=value; domain=", Ref2014));
  }

  lemma EmptyDomainParses()
    ensures Attr(Parse("name=value; domain=", Ref2014), "domain") == None
  {
    assert "name=value; domain=" == "name=value; domain=" + "";
    NameValueAttribute("name=value; domain=", "domain", "");
    KnownKeysLower();
    assert OrderedDict.Get([("domain", Text(""))], "domain") == Some(Text(""));
  }

  /** A header that parses to a cookie without a domain, read against an origin. */
  lemma HostOnlyOutcome(header: string, o: Origin, p: Cookie)
    requires Parse(header, Ref2014) == p
    requires Attr(p, "domain") == None
    ensures |ParseFromHeaders([header], Some(o), Ref2014)| == 1
    ensures var c := ParseFromHeaders([header], Some(o), Ref2014)[0].1;
            Attr(c, "domain") == Some(Text(o.host)) && c.flags.hostOnly
  {
    MissingDomainIsHostOnly(p, o);
    SingleHeaderParsed(header, Some(o), Ref2014, p);
  }

  // ---------------------------------------------------------------------
  // Varying origin path
  // ---------------------------------------------------------------------

  lemma DefaultPaths()
    ensures DefaultPath("/") == "/" && DefaultPath("/test") == "/"
    ensures DefaultPath("/test/") == "/test" && DefaultPath("/test/abc") == "/test"
    ensures DefaultPath("/test/abc/") == "/test/abc"
  {
    TopLevelDefaultPaths();
    TestDefaultPaths();
    TestAbcDefaultPath();
  }

  lemma TopLevelDefaultPaths()
    ensures DefaultPath("/") == "/" && DefaultPath("/test") == "/"
  {
    DefaultPathAt("/", 0);
    DefaultPathAt("/test", 0);
  }

  lemma TestDefaultPaths()
    ensures DefaultPath("/test/") == "/test" && DefaultPath("/test/abc") == "/test"
  {
    DefaultPathAt("/test/", 5);
    DefaultPathAt("/test/abc", 5);
  }

  lemma TestAbcDefaultPath()
    ensures DefaultPath("/test/abc/") == "/test/abc"
  {
    DefaultPathAt("/test/abc/", 9);
  }

  /** `name=value` from http://example.com with five request paths. */
  lemma VaryingOriginPath()
    ensures forall p | p in ["/", "/test", "/test/", "/test/abc", "/test/abc/"] ::
              |ParseFromHeaders(["name=value"], Some(ExampleCom(p)), Ref2014)| == 1
              && ParseFromHeaders(["name=value"], Some(ExampleCom(p)), Ref2014)[0].1.flags.hostOnly
    ensures Attr(ParseFromHeaders(["name=value"], Some(ExampleCom("/")), Ref2014)[0].1, "path") == Some(Text("/"))
    ensures Attr(ParseFromHeaders(["name=value"], Some(ExampleCom("/test")), Ref2014)[0].1, "path") == Some(Text("/"))
    ensures Attr(ParseFromHeaders(["name=value"], Some(ExampleCom("/test/")), Ref2014)[0].1, "path") == Some(Text("/test"))
    ensures Attr(ParseFromHeaders(["name=value"], Some(ExampleCom("/test/abc")), Ref2014)[0].1, "path") == Some(Text("/test"))
    ensures Attr(ParseFromHeaders(["name=value"], Some(ExampleCom("/test/abc/")), Ref2014)[0].1, "path") == Some(Text("/test/abc"))
  {
    DefaultPaths();
    forall p | p in ["/", "/test", "/test/", "/test/abc", "/test/abc/"]
      ensures |ParseFromHeaders(["name=value"], Some(ExampleCom(p)), Ref2014)| == 1
      ensures Attr(ParseFromHeaders(["name=value"], Some(ExampleCom(p)), Ref2014)[0].1, "path") == Some(Text(DefaultPath(p)))
      ensures ParseFromHeaders(["name=value"], Some(ExampleCom(p)), Ref2014)[0].1.flags.hostOnly
    {
      BareHeaderFromOrigin(ExampleCom(p));
    }
  }

  // ---------------------------------------------------------------------
  // With specified path, and an invalid one
  // ---------------------------------------------------------------------

  lemma RootPathHeader()
    ensures "name=value; path=/" == "name=value; path=" + "/"
    ensures PlainText("/")
  {
    var h := "name=value; path=/";
    var p := "name=value; path=";
    var d := "/";
    assert forall i | 0 <= i < |p| :: h[i] == p[i];
    assert forall i | 0 <= i < |d| :: h[|p| + i] == d[i];
    Glue(h, p, d);
  }

  lemma TestPathHeader()
    ensures "name=value; path=/test" == "name=value; path=" + "/test"
    ensures PlainText("/test")
  {
    var h := "name=value; path=/test";
    var p := "name=value; path=";
    var d := "/test";
    assert forall i | 0 <= i < |p| :: h[i] == p[i];
    assert forall i | 0 <= i < |d| :: h[|p| + i] == d[i];
    Glue(h, p, d);
  }

  lemma TestDirPathHeader()
    ensures "name=value; path=/test/" == "name=value; path=" + "/test/"
    ensures PlainText("/test/")
  {
    var h := "name=value; path=/test/";
    var p := "name=value; path=";
    var d := "/test/";
    assert forall i | 0 <= i < |p| :: h[i] == p[i];
    assert forall i | 0 <= i < |d| :: h[|p| + i] == d[i];
    Glue(h, p, d);
  }

  lemma YoloHeader()
    ensures "name=value; path=yolo" == "name=value; path=" + "yolo"
    ensures PlainText("yolo")
  {
    var h := "name=value; path=yolo";
    var p := "name=value; path=";
    var d := "yolo";
    assert forall i | 0 <= i < |p| :: h[i] == p[i];
    assert forall i | 0 <= i < |d| :: h[|p| + i] == d[i];
    Glue(h, p, d);
  }

  /** An explicit path starting with `/` is kept, whatever the request path. */
  lemma SpecifiedPath()
    ensures var r := ParseFromHeaders(["name=value; path=/"], Some(ExampleCom("/")), Ref2014);
            |r| == 1 && Attr(r[0].1, "path") == Some(Text("/")) && r[0].1.flags.hostOnly
    ensures var r := ParseFromHeaders(["name=value; path=/test"], Some(ExampleCom("/")), Ref2014);
            |r| == 1 && Attr(r[0].1, "path") == Some(Text("/test")) && r[0].1.flags.hostOnly
    ensures var r := ParseFromHeaders(["name=value; path=/test/"], Some(ExampleCom("/")), Ref2014);
            |r| == 1 && Attr(r[0].1, "path") == Some(Text("/test/")) && r[0].1.flags.hostOnly
  {
    RootPathHeader();
    PathHeaderFromOrigin("name=value; path=/", "/", ExampleCom("/"));
    TestPathHeader();
    PathHeaderFromOrigin("name=value; path=/test", "/test", ExampleCom("/"));
    TestDirPathHeader();
    PathHeaderFromOrigin("name=value; path=/test/", "/test/", ExampleCom("/"));
  }

  /** `path=yolo` does not start with `/`: the default path of the request is used. */
  lemma InvalidPath()
    ensures var r := ParseFromHeaders(["name=value; path=yolo"], Some(ExampleCom("/")), Ref2014);
            |r| == 1 && Attr(r[0].1, "path") == Some(Text("/")) && r[0].1.flags.hostOnly
    ensures var r := ParseFromHeaders(["name=value; path=yolo"], Some(ExampleCom("/test/")), Ref2014);
            |r| == 1 && Attr(r[0].1, "path") == Some(Text("/test")) && r[0].1.flags.hostOnly
  {
    YoloHeader();
    DefaultPaths();
    PathHeaderFromOrigin("name=value; path=yolo", "yolo", ExampleCom("/"));
    PathHeaderFromOrigin("name=value; path=yolo", "yolo", ExampleCom("/test/"));
  }

  // ---------------------------------------------------------------------
  // Domains
  // ---------------------------------------------------------------------

  lemma ExampleOrgDomainHeader()
    ensures "name=value; domain=example.org" == "name=value; domain=" + "example.org"
    ensures PlainText("example.org")
  {
    var h := "name=value; domain=example.org";
    var p := "name=value; domain=";
    var d := "example.org";
    assert forall i | 0 <= i < |p| :: h[i] == p[i];
    assert forall i | 0 <= i < |d| :: h[|p| + i] == d[i];
    Glue(h, p, d);
  }

  lemma TestExampleComDomainHeader()
    ensures "name=value; domain=test.example.com" == "name=value; domain=" + "test.example.com"
    ensures PlainText("test.example.com")
  {
    var h := "name=value; domain=test.example.com";
    var p := "name=value; domain=";
    var d := "test.example.com";
    assert forall i | 0 <= i < |p| :: h[i] == p[i];
    assert forall i | 0 <= i < |d| :: h[|p| + i] == d[i];
    Glue(h, p, d);
  }

  lemma ExampleComDomainHeader()
    ensures "name=value; domain=example.com" == "name=value; domain=" + "example.com"
    ensures PlainText("example.com")
  {
    var h := "name=value; domain=example.com";
    var p := "name=value; domain=";
    var d := "example.com";
    assert forall i | 0 <= i < |p| :: h[i] == p[i];
    assert forall i | 0 <= i < |d| :: h[|p| + i] == d[i];
    Glue(h, p, d);
  }

  /** A cookie for example.org set by example.com is rejected. */
  lemma CrossOriginRow()
    ensures ParseFromHeaders(["name=value; domain=example.org"], Some(ExampleCom("/")), Ref2014) == []
  {
    ExampleOrgDomainHeader();
    assert !HasDomainSuffix("example.com", "example.org");
    DomainHeaderFromOrigin("name=value; domain=example.org", "example.org", ExampleCom("/"));
  }

  /** An empty domain gives one cookie. */
  lemma EmptyDomainRow()
    ensures |ParseFromHeaders(["name=value; domain="], Some(ExampleCom("/test/")), Ref2014)| == 1
  {
    EmptyDomainFromOrigin(ExampleCom("/test/"));
  }

  /** test.example.com lies one label under example.com and is no IP address. */
  lemma TestHostUnderExampleCom()
    ensures HasDomainSuffix("test.example.com", "example.com")
    ensures !LooksLikeIpAddress("test.example.com")
  {
    var h := "test.example.com";
    var d := "example.com";
    assert forall i | 0 <= i < |d| :: h[5 + i] == d[i];
    assert h[5..] == d;
    assert TrailingDigits(h) == 0;
  }

  /** A domain naming the host itself is kept and is not host-only. */
  lemma SameHostDomainRow()
    ensures var r := ParseFromHeaders(["name=value; domain=test.example.com"], Some(TestExampleCom), Ref2014);
            |r| == 1 && Attr(r[0].1, "domain") == Some(Text("test.example.com")) && !r[0].1.flags.hostOnly
  {
    TestExampleComDomainHeader();
    DomainHeaderFromOrigin("name=value; domain=test.example.com", "test.example.com", TestExampleCom);
  }

  /** A domain naming the parent of the host is kept and is not host-only. */
  lemma ParentDomainRow()
    ensures var r := ParseFromHeaders(["name=value; domain=example.com"], Some(TestExampleCom), Ref2014);
            |r| == 1 && Attr(r[0].1, "domain") == Some(Text("example.com")) && !r[0].1.flags.hostOnly
  {
    ExampleComDomainHeader();
    TestHostUnderExampleCom();
    DomainHeaderFromOrigin("name=value; domain=example.com", "example.com", TestExampleCom);
  }
}
