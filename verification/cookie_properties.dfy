/**
 * Properties of a single cookie: what the matching predicates accept, what
 * normalisation keeps, how expiry is decided, and the parse/format round trip.
 */
module CookieProperties {
  import opened Wrappers
  import opened Strings
  import OrderedDict
  import HttpDate
  import opened Cookies

  /** The attribute keys the model looks up are already lower case. */
  lemma KnownKeysLower()
    ensures Lower("expires") == "expires" && Lower("max-age") == "max-age"
    ensures Lower("domain") == "domain" && Lower("path") == "path" && Lower("secure") == "secure"
  {
    LowerExpires();
    LowerMaxAge();
    LowerDomain();
    LowerPath();
    LowerSecure();
  }

  lemma LowerExpires()
    ensures Lower("expires") == "expires"
  {
  }

  lemma LowerMaxAge()
    ensures Lower("max-age") == "max-age"
  {
  }

  lemma LowerDomain()
    ensures Lower("domain") == "domain"
  {
  }

  lemma LowerPath()
    ensures Lower("path") == "path"
  {
  }

  lemma LowerSecure()
    ensures Lower("secure") == "secure"
  {
  }

  // ---------------------------------------------------------------------
  // Domain matching
  // ---------------------------------------------------------------------

  /** HasDomainSuffix says exactly "the host is some label text, a dot, then d". */
  lemma DomainSuffixShape(host: string, d: string)
    ensures HasDomainSuffix(host, d) <==> exists p :: host == p + "." + d
  {
    if HasDomainSuffix(host, d) {
      var p := host[..|host| - |d| - 1];
      assert host == p + "." + d;
    }
    if exists p :: host == p + "." + d {
      var p :| host == p + "." + d;
      assert host[|host| - |d|..] == d;
      assert host[|host| - |d| - 1] == '.';
    }
  }

  /**
   * The domain rule of section 5.1.3 of RFC 6265 as the cookie applies it: the
   * host equals the domain, or the cookie is not host-only, the host is the
   * domain behind a further label, and the host is not an IP address.
   */
  lemma DomainMatchesSpec(c: Cookie, d: string, host: string)
    requires Attr(c, "domain") == Some(Text(d))
    ensures DomainMatches(c, host) <==>
              host == d || (!c.flags.hostOnly && (exists p :: host == p + "." + d) && !LooksLikeIpAddress(host))
  {
    DomainSuffixShape(host, d);
  }

  /** A host-only cookie is sent to its own host and to no other. */
  lemma HostOnlyMatchesOnlyItself(c: Cookie, d: string, host: string)
    requires Attr(c, "domain") == Some(Text(d)) && c.flags.hostOnly
    ensures DomainMatches(c, host) <==> host == d
  {
  }

  /** A bare suffix is not enough: the character before the domain must be a dot. */
  lemma SuffixNeedsLabelBoundary(c: Cookie, d: string, p: string)
    requires Attr(c, "domain") == Some(Text(d))
    requires p != "" && p[|p| - 1] != '.'
    ensures !DomainMatches(c, p + d)
  {
    assert (p + d)[|p| - 1] == p[|p| - 1];
  }

  /** A dot followed by digits ends in exactly those digits. */
  lemma {:induction false} TrailingDigitsOf(pre: string, lab: string)
    requires forall i :: 0 <= i < |lab| ==> IsDigit(lab[i])
    ensures TrailingDigits(pre + "." + lab) == |lab|
    decreases |lab|
  {
    var s := pre + "." + lab;
    if lab == [] {
      assert s[|s| - 1] == '.';
    } else {
      var init := lab[..|lab| - 1];
      assert s[..|s| - 1] == pre + "." + init;
      assert s[|s| - 1] == lab[|lab| - 1];
      TrailingDigitsOf(pre, init);
    }
  }

  /** One more label of one to three digits behind a dot. */
  lemma DigitLabel(pre: string, lab: string, n: nat)
    requires 1 <= |lab| <= 3 && (forall i :: 0 <= i < |lab| ==> IsDigit(lab[i])) && |pre| >= 1
    requires n >= 1 && (n == 1 || EndsWithDigitLabels(pre, n - 1))
    ensures EndsWithDigitLabels(pre + "." + lab, n)
  {
    var s := pre + "." + lab;
    TrailingDigitsOf(pre, lab);
    assert s[..|s| - |lab| - 1] == pre;
    assert s[|s| - |lab| - 1] == '.';
  }

  /** Four labels of one to three digits behind a non-empty prefix look like an IP address. */
  lemma DottedQuad(host: string, pre: string, a: string, b: string, c: string, d: string)
    requires host == pre + "." + a + "." + b + "." + c + "." + d
    requires |pre| >= 1
    requires 1 <= |a| <= 3 && forall i :: 0 <= i < |a| ==> IsDigit(a[i])
    requires 1 <= |b| <= 3 && forall i :: 0 <= i < |b| ==> IsDigit(b[i])
    requires 1 <= |c| <= 3 && forall i :: 0 <= i < |c| ==> IsDigit(c[i])
    requires 1 <= |d| <= 3 && forall i :: 0 <= i < |d| ==> IsDigit(d[i])
    ensures LooksLikeIpAddress(host)
  {
    DigitLabel(pre, a, 1);
    DigitLabel(pre + "." + a, b, 2);
    DigitLabel(pre + "." + a + "." + b, c, 3);
    DigitLabel(pre + "." + a + "." + b + "." + c, d, 4);
  }

  /** A string of digits ends in all of them. */
  lemma {:induction false} TrailingDigitsWhole(lab: string)
    requires forall i :: 0 <= i < |lab| ==> IsDigit(lab[i])
    ensures TrailingDigits(lab) == |lab|
    decreases |lab|
  {
    if lab != [] {
      TrailingDigitsWhole(lab[..|lab| - 1]);
    }
  }

  /** Four labels of one to three digits and nothing else: a bare dotted quad is an IP address. */
  lemma BareDottedQuad(host: string, a: string, b: string, c: string, d: string)
    requires host == a + "." + b + "." + c + "." + d
    requires 1 <= |a| <= 3 && forall i :: 0 <= i < |a| ==> IsDigit(a[i])
    requires 1 <= |b| <= 3 && forall i :: 0 <= i < |b| ==> IsDigit(b[i])
    requires 1 <= |c| <= 3 && forall i :: 0 <= i < |c| ==> IsDigit(c[i])
    requires 1 <= |d| <= 3 && forall i :: 0 <= i < |d| ==> IsDigit(d[i])
    ensures LooksLikeIpAddress(host)
  {
    TrailingDigitsWhole(a);
    assert EndsWithDigitLabels(a, 1);
    DigitLabel(a, b, 2);
    DigitLabel(a + "." + b, c, 3);
    DigitLabel(a + "." + b + "." + c, d, 4);
  }

  /**
   * A bare dotted quad is never matched through a suffix: `1.2.3.4` does not
   * match a cookie for `2.3.4`, even one that is not host-only.
   */
  lemma BareQuadNotSuffixMatched()
    ensures !DomainMatches(Cookie("a", "b", [("domain", Text("2.3.4"))], Flags(false, false), 0), "1.2.3.4")
  {
    BareDottedQuad("1.2.3.4", "1", "2", "3", "4");
  }

  /** A host that looks like an IP address only matches a domain equal to it. */
  lemma IpHostMatchesOnlyExactly(c: Cookie, d: string, host: string)
    requires Attr(c, "domain") == Some(Text(d)) && LooksLikeIpAddress(host)
    ensures DomainMatches(c, host) <==> host == d
  {
  }

  /**
   * A `domain` given without a value is no empty domain: it is kept as the PHP
   * `true`, and a cookie carrying it matches no host at all.
   */
  lemma ValuelessDomainMatchesNothing(name: string, value: string, flags: FlagOverrides, ref: int, host: string)
    ensures Attr(NewCookie(name, value, [("domain", Flag)], flags, ref), "domain") == Some(Flag)
    ensures !DomainMatches(NewCookie(name, value, [("domain", Flag)], flags, ref), host)
  {
    LowerDomain();
    NormalizeSingle("domain", Flag, ref, Flag);
  }

  /** A cookie without a domain attribute matches every host. */
  lemma NoDomainMatchesEveryHost(c: Cookie, host: string)
    requires Attr(c, "domain") == None
    ensures DomainMatches(c, host)
  {
  }

  /**
   * A leading dot on the domain given to the constructor makes no difference:
   * `.example.com` and `example.com` match the same hosts.
   */
  lemma LeadingDotIgnored(name: string, value: string, d: string, flags: FlagOverrides, ref: int, host: string)
    requires !PhpEmpty(d) && d[0] != '.'
    ensures Attr(NewCookie(name, value, [("domain", Text("." + d))], flags, ref), "domain") == Some(Text(d))
    ensures DomainMatches(NewCookie(name, value, [("domain", Text("." + d))], flags, ref), host)
            == DomainMatches(NewCookie(name, value, [("domain", Text(d))], flags, ref), host)
  {
    assert ("." + d)[1..] == d;
    DomainStored(name, value, "." + d, flags, ref);
    DomainStored(name, value, d, flags, ref);
  }

  /** Normalising a cookie whose only attribute is a domain removes one leading dot. */
  lemma LoneDomainNormalized(c: Cookie, d: string)
    requires c.attributes == [("domain", Text(d))] && !PhpEmpty(d)
    ensures Normalize(c) == c.(attributes := [("domain", Text(StripDot(d)))])
    ensures Attr(Normalize(c), "domain") == Some(Text(StripDot(d)))
  {
    DomainNormalizes(d, c.referenceTime);
    NormalizeSingle("domain", Text(d), c.referenceTime, Text(StripDot(d)));
    assert OrderedDict.Get([("domain", Text(StripDot(d)))], "domain") == Some(Text(StripDot(d)));
  }

  /** A non-empty domain value normalises to itself without one leading dot. */
  lemma DomainNormalizes(d: string, ref: int)
    requires !PhpEmpty(d)
    ensures NormalizeAttribute("domain", Text(d), ref) == Some(Text(StripDot(d)))
  {
    LowerDomain();
  }

  /** A one-entry dictionary normalises to the entry's normalised value under the same key. */
  lemma NormalizeSingle(k: string, v: AttrValue, ref: int, w: AttrValue)
    requires NormalizeAttribute(k, v, ref) == Some(w)
    ensures NormalizeAttributes([(k, v)], ref) == [(k, w)]
  {
    assert [(k, v)][1..] == [];
  }

  /** A lone domain attribute is stored with one leading dot removed. */
  lemma DomainStored(name: string, value: string, d: string, flags: FlagOverrides, ref: int)
    requires !PhpEmpty(d)
    ensures NewCookie(name, value, [("domain", Text(d))], flags, ref)
            == Cookie(name, value, [("domain", Text(StripDot(d)))], MergeFlags(flags), ref)
  {
    LoneDomainNormalized(Cookie(name, value, [("domain", Text(d))], MergeFlags(flags), ref), d);
  }

  // ---------------------------------------------------------------------
  // Path matching
  // ---------------------------------------------------------------------

  /**
   * The path rule of section 5.1.4 of RFC 6265: a cookie path ending in `/`
   * matches every request path it prefixes; any other cookie path matches
   * itself and the paths that continue it with `/`.
   */
  lemma PathMatchesSpec(c: Cookie, p: string, path: string)
    requires Attr(c, "path") == Some(Text(p))
    ensures p != "" && p[|p| - 1] == '/' ==> (PathMatches(c, path) <==> p <= RequestPath(path))
    ensures (p == "" || p[|p| - 1] != '/') ==>
              (PathMatches(c, path) <==> RequestPath(path) == p || p + "/" <= RequestPath(path))
  {
    var rp := RequestPath(path);
    if p + "/" <= rp {
      assert rp[..|p|] == p && rp[|p|] == '/';
    }
    if |rp| > |p| && rp[..|p|] == p && rp[|p|] == '/' {
      assert rp[..|p| + 1] == p + "/";
    }
  }

  /** An empty request path is treated as `/`, so a `/` cookie path always matches it. */
  lemma EmptyPathIsRoot(c: Cookie, path: string)
    requires Attr(c, "path") == Some(Text("/")) && PhpEmpty(path)
    ensures PathMatches(c, path)
  {
  }

  // ---------------------------------------------------------------------
  // URI matching
  // ---------------------------------------------------------------------

  /** A cookie built with no attributes is sent to every origin. */
  lemma GlobalCookieMatchesEverything(name: string, value: string, flags: FlagOverrides, ref: int, o: Origin)
    ensures UriMatches(NewCookie(name, value, [], flags, ref), o)
  {
  }

  /** A secure cookie is never sent over a scheme other than https. */
  lemma SecureNeedsHttps(c: Cookie, o: Origin)
    requires IsSecure(c) && o.scheme != "https"
    ensures !UriMatches(c, o)
  {
  }

  /**
   * The URI rule written out in full: the host is the domain or, for a cookie
   * that is not host-only, a non-IP host below it at a label boundary; the
   * request path is the cookie path, or continues it after a `/` the cookie
   * path ends with or that follows it; and a secure cookie needs https.
   */
  lemma UriMatchesSpec(c: Cookie, d: string, p: string, o: Origin)
    requires Attr(c, "domain") == Some(Text(d)) && Attr(c, "path") == Some(Text(p))
    ensures UriMatches(c, o) <==>
              && (o.host == d || (!c.flags.hostOnly && (exists q :: o.host == q + "." + d) && !LooksLikeIpAddress(o.host)))
              && (RequestPath(o.path) == p || (p != "" && p[|p| - 1] == '/' && p <= RequestPath(o.path))
                  || p + "/" <= RequestPath(o.path))
              && (IsSecure(c) ==> o.scheme == "https")
  {
    DomainMatchesSpec(c, d, o.host);
    PathMatchesSpec(c, p, o.path);
  }

  // ---------------------------------------------------------------------
  // Expiry
  // ---------------------------------------------------------------------

  /**
   * is_expired() reads the stored instants: `max-age` when present, else
   * `expires`, each compared with the reference time.
   */
  lemma ExpiryFromInstants(c: Cookie)
    ensures Attr(c, "max-age") == None && Attr(c, "expires") == None ==> !IsExpired(c)
    ensures forall t :: Attr(c, "max-age") == Some(Time(t)) ==> (IsExpired(c) <==> t <= c.referenceTime)
    ensures forall t :: Attr(c, "max-age") == None && Attr(c, "expires") == Some(Time(t)) ==>
              (IsExpired(c) <==> t <= c.referenceTime)
  {
  }

  /**
   * `Max-Age=n` is stored as an instant and decides expiry on its own: a
   * cookie is expired exactly when n is not positive, whatever `expires` says.
   */
  lemma MaxAgeDecides(name: string, value: string, a: Attributes, flags: FlagOverrides, ref: int, n: int)
    requires OrderedDict.Unique(a)
    requires OrderedDict.Get(a, "max-age") == Some(Text(IntToString(n)))
    requires ref >= 0
    ensures Attr(NewCookie(name, value, a, flags, ref), "max-age") == Some(Time(MaxAgeInstant(n, ref)))
    ensures IsExpired(NewCookie(name, value, a, flags, ref)) <==> n <= 0
  {
    IntRoundTrip(n);
    KnownKeysLower();
    var na := NormalizeAttributes(a, ref);
    assert NormalizeAttribute("max-age", Text(IntToString(n)), ref) == Some(Time(MaxAgeInstant(n, ref)));
    assert OrderedDict.Get(na, "max-age") == Some(Time(MaxAgeInstant(n, ref)));
    var c := NewCookie(name, value, a, flags, ref);
    assert c.attributes == na;
    ExpiryFromInstants(c);
  }

  /** A `Max-Age` that is not an integer is dropped and leaves expiry to `expires`. */
  lemma BadMaxAgeDropped(name: string, value: string, a: Attributes, flags: FlagOverrides, ref: int, s: string)
    requires OrderedDict.Unique(a)
    requires OrderedDict.Get(a, "max-age") == Some(Text(s)) && ParseInt(s).None?
    requires OrderedDict.Get(a, "expires") == None
    ensures Attr(NewCookie(name, value, a, flags, ref), "max-age") == None
    ensures !IsExpired(NewCookie(name, value, a, flags, ref))
  {
    KnownKeysLower();
    var na := NormalizeAttributes(a, ref);
    assert NormalizeAttribute("max-age", Text(s), ref) == None;
    assert OrderedDict.Get(na, "max-age") == None && OrderedDict.Get(na, "expires") == None;
    var c := NewCookie(name, value, a, flags, ref);
    assert c.attributes == na;
    ExpiryFromInstants(c);
  }

  /** The text of an HTTP date in one of the three accepted forms. */
  function DateText(dt: HttpDate.DateTime, form: nat): (s: string)
    requires HttpDate.Printable(dt) && form < 4
    ensures HttpDate.ParseHttpDate(s) == Some(HttpDate.Epoch(dt))
  {
    HttpDate.FormsAgree(dt, '-');
    HttpDate.FormsAgree(dt, ' ');
    if form == 0 then HttpDate.FormatRfc1123(dt, '-')
    else if form == 1 then HttpDate.FormatRfc1123(dt, ' ')
    else if form == 2 then HttpDate.FormatRfc850(dt)
    else HttpDate.FormatAsctime(dt)
  }

  /**
   * An `expires` text that reads as an HTTP date is stored as its instant;
   * without `max-age` the cookie is expired exactly when that instant is not
   * after the reference time.
   */
  lemma ExpiresDecides(name: string, value: string, a: Attributes, flags: FlagOverrides, ref: int, s: string, t: int)
    requires OrderedDict.Unique(a)
    requires OrderedDict.Get(a, "expires") == Some(Text(s)) && HttpDate.ParseHttpDate(s) == Some(t)
    requires OrderedDict.Get(a, "max-age") == None
    ensures Attr(NewCookie(name, value, a, flags, ref), "expires") == Some(Time(t))
    ensures IsExpired(NewCookie(name, value, a, flags, ref)) <==> t <= ref
  {
    KnownKeysLower();
    var na := NormalizeAttributes(a, ref);
    assert NormalizeAttribute("expires", Text(s), ref) == Some(Time(t));
    assert OrderedDict.Get(na, "expires") == Some(Time(t));
    assert OrderedDict.Get(na, "max-age") == None;
    var c := NewCookie(name, value, a, flags, ref);
    assert c.attributes == na;
    assert Attr(c, "max-age") == None && Attr(c, "expires") == Some(Time(t));
    ExpiryFromInstants(c);
  }

  /** The same for a date written in any of the three accepted forms. */
  lemma ExpiresInAnyForm(name: string, value: string, a: Attributes, flags: FlagOverrides, ref: int,
                         dt: HttpDate.DateTime, form: nat)
    requires OrderedDict.Unique(a)
    requires HttpDate.Printable(dt) && form < 4
    requires OrderedDict.Get(a, "expires") == Some(Text(DateText(dt, form)))
    requires OrderedDict.Get(a, "max-age") == None
    ensures IsExpired(NewCookie(name, value, a, flags, ref)) <==> HttpDate.Epoch(dt) <= ref
  {
    ExpiresDecides(name, value, a, flags, ref, DateText(dt, form), HttpDate.Epoch(dt));
  }

  /** An `expires` text that is no HTTP date is dropped; the cookie is then a session cookie. */
  lemma BadExpiresDropped(name: string, value: string, a: Attributes, flags: FlagOverrides, ref: int, s: string)
    requires OrderedDict.Unique(a)
    requires OrderedDict.Get(a, "expires") == Some(Text(s)) && HttpDate.ParseHttpDate(s).None?
    requires OrderedDict.Get(a, "max-age") == None
    ensures Attr(NewCookie(name, value, a, flags, ref), "expires") == None
    ensures !IsExpired(NewCookie(name, value, a, flags, ref))
  {
    KnownKeysLower();
    var na := NormalizeAttributes(a, ref);
    assert NormalizeAttribute("expires", Text(s), ref) == None;
    assert OrderedDict.Get(na, "max-age") == None && OrderedDict.Get(na, "expires") == None;
    var c := NewCookie(name, value, a, flags, ref);
    assert c.attributes == na;
    ExpiryFromInstants(c);
  }

  /** An attribute with a lower-case key normalisation does not rewrite is stored as given. */
  lemma OrdinaryAttributeKept(name: string, value: string, a: Attributes, flags: FlagOverrides, ref: int, k: string)
    requires OrderedDict.Unique(a)
    requires NoUpper(k) && !IsSpecialKey(k) && OrderedDict.Get(a, k).Some?
    ensures Attr(NewCookie(name, value, a, flags, ref), k) == OrderedDict.Get(a, k)
  {
    LowerNormalises(k);
  }

  /** Normalisation leaves attributes alone whose keys are lower-case and not rewritten. */
  lemma OrdinaryAttributesKept(a: Attributes, ref: int)
    requires OrderedDict.Unique(a)
    requires forall i :: 0 <= i < |a| ==> NoUpper(a[i].0) && !IsSpecialKey(a[i].0)
    ensures NormalizeAttributes(a, ref) == a
  {
    forall i | 0 <= i < |a|
      ensures NormalizeAttribute(a[i].0, a[i].1, ref) == Some(a[i].1)
    {
      LowerNormalises(a[i].0);
    }
    NormalizeFixes(a, ref);
  }

  // ---------------------------------------------------------------------
  // Normalising twice
  // ---------------------------------------------------------------------

  /** Normalising an already normalised value changes nothing unless the key is `domain`. */
  lemma NormalizeAttributeSettles(key: string, v: AttrValue, ref: int)
    requires NormalizeAttribute(key, v, ref).Some? && Lower(key) != "domain"
    ensures NormalizeAttribute(key, NormalizeAttribute(key, v, ref).value, ref) == NormalizeAttribute(key, v, ref)
  {
  }

  /** A second normalisation keeps every attribute except `domain`. */
  lemma NormalizeTwiceKeepsAttribute(c: Cookie, k: string)
    requires WellFormed(c) && Lower(k) != "domain"
    ensures Attr(Normalize(Normalize(c)), k) == Attr(Normalize(c), k)
  {
    var v := Attr(c, k);
    if v.Some? && NormalizeAttribute(k, v.value, c.referenceTime).Some? {
      NormalizeAttributeSettles(k, v.value, c.referenceTime);
    }
  }

  /**
   * A second normalisation keeps name, value, flags and expiry; only the
   * `domain` attribute can change.
   */
  lemma NormalizeTwiceKeepsObservations(c: Cookie)
    requires WellFormed(c)
    ensures Normalize(Normalize(c)).name == c.name && Normalize(Normalize(c)).value == c.value
    ensures Normalize(Normalize(c)).flags == Normalize(c).flags
    ensures IsExpired(Normalize(Normalize(c))) == IsExpired(Normalize(c))
  {
    KnownKeysLower();
    NormalizeTwiceKeepsAttribute(c, "max-age");
    NormalizeTwiceKeepsAttribute(c, "expires");
    var once := Normalize(c);
    var twice := Normalize(once);
    assert Attr(twice, "max-age") == Attr(once, "max-age") && Attr(twice, "expires") == Attr(once, "expires");
    assert twice.referenceTime == once.referenceTime;
  }

  /**
   * A domain value normalisation settles in one step: it is dropped, or what
   * is left after removing one dot is neither empty nor starts with a dot.
   */
  predicate DomainSettles(s: string) {
    PhpEmpty(s) || (!PhpEmpty(StripDot(s)) && StripDot(s)[0] != '.')
  }

  predicate DomainsSettle(a: Attributes) {
    forall i :: 0 <= i < |a| && Lower(a[i].0) == "domain" && a[i].1.Text? ==> DomainSettles(a[i].1.text)
  }

  /** An attribute that normalises to itself, put in front of settled attributes, leaves them settled. */
  lemma ConsSettles(e: (string, AttrValue), rest: Attributes, ref: int)
    requires OrderedDict.Unique(rest) && NormalizeAttributes(rest, ref) == rest
    requires e.0 !in OrderedDict.Keys(rest) && NormalizeAttribute(e.0, e.1, ref) == Some(e.1)
    ensures OrderedDict.Unique([e] + rest)
    ensures NormalizeAttributes([e] + rest, ref) == [e] + rest
  {
    assert ([e] + rest)[1..] == rest;
  }

  /** Normalisation is the identity on attributes every one of which it keeps as they are. */
  lemma {:induction false} NormalizeFixes(a: Attributes, ref: int)
    requires OrderedDict.Unique(a)
    requires forall i :: 0 <= i < |a| ==> NormalizeAttribute(a[i].0, a[i].1, ref) == Some(a[i].1)
    ensures NormalizeAttributes(a, ref) == a
  {
    if a != [] {
      assert forall i :: 0 <= i < |a[1..]| ==> a[1..][i] == a[i + 1];
      NormalizeFixes(a[1..], ref);
      assert a == [(a[0].0, a[0].1)] + a[1..];
    }
  }

  /** When every domain value settles in one step, normalisation is idempotent. */
  lemma NormalizeIdempotent(c: Cookie)
    requires WellFormed(c) && DomainsSettle(c.attributes)
    ensures Normalize(Normalize(c)) == Normalize(c)
  {
    var n1 := Normalize(c);
    var a1 := n1.attributes;
    var ref := c.referenceTime;
    forall i | 0 <= i < |a1|
      ensures NormalizeAttribute(a1[i].0, a1[i].1, ref) == Some(a1[i].1)
    {
      var k := a1[i].0;
      OrderedDict.GetEntry(a1, i);
      var v := OrderedDict.Get(c.attributes, k).value;
      assert NormalizeAttribute(k, v, ref) == Some(a1[i].1);
      if Lower(k) == "domain" {
        if v.Text? {
          var j :| 0 <= j < |c.attributes| && c.attributes[j].0 == k && c.attributes[j].1 == v;
          assert DomainSettles(v.text);
        }
      } else {
        NormalizeAttributeSettles(k, v, ref);
      }
    }
    NormalizeFixes(a1, ref);
  }

  /**
   * Without that condition normalisation is not idempotent: a domain written
   * with two leading dots loses one per pass, and the host-only cookie that
   * did not match its bare domain after the first pass matches it after the
   * second.
   */
  lemma NormalizeTwiceStripsTwoDots()
    ensures var c := Cookie("a", "b", [("domain", Text("..example.com"))], DefaultFlags, 0);
            && Attr(Normalize(c), "domain") == Some(Text(".example.com"))
            && Attr(Normalize(Normalize(c)), "domain") == Some(Text("example.com"))
            && !DomainMatches(Normalize(c), "example.com")
            && DomainMatches(Normalize(Normalize(c)), "example.com")
  {
    var c := Cookie("a", "b", [("domain", Text("..example.com"))], DefaultFlags, 0);
    assert "..example.com"[1..] == ".example.com";
    assert ".example.com"[1..] == "example.com";
    LoneDomainNormalized(c, "..example.com");
    LoneDomainNormalized(Normalize(c), ".example.com");
    assert !HasDomainSuffix("example.com", ".example.com");
  }

  // ---------------------------------------------------------------------
  // Parse and format
  // ---------------------------------------------------------------------

  /** The request-header form carries no attribute: it adds no `;` to name and value. */
  lemma HeaderCarriesNoAttribute(c: Cookie)
    requires ';' !in c.name && ';' !in c.value
    ensures ';' !in FormatForHeader(c)
  {
  }

  /**
   * The Set-Cookie form begins with the request-header form, and is exactly
   * that form when the cookie has no attributes.
   */
  lemma SetCookieExtendsHeader(c: Cookie)
    ensures FormatForHeader(c) <= FormatForSetCookie(c)
    ensures FormatForSetCookie(c) == FormatForHeader(c) <==> c.attributes == []
  {
    if c.attributes != [] {
      assert |AttributesText(c.attributes)| > 0;
    }
  }

  /** A fragment without `=` before the first `;` is a value with an empty name. */
  lemma ParseWithoutName(header: string, ref: int)
    requires '=' !in Split(header, ';')[0]
    ensures Parse(header, ref).name == ""
    ensures Parse(header, ref).value == Trim(Split(header, ';')[0])
  {
    TrimOfTrimmed("");
  }

  /** The `;`-separated parts of a Set-Cookie line after the name-value pair. */
  function AttributeParts(a: Attributes): (parts: seq<string>)
    ensures |parts| == |a|
  {
    seq(|a|, i requires 0 <= i < |a| => " " + AttributeText(a[i].0, a[i].1))
  }

  lemma AttributePartsCons(a: Attributes)
    requires a != []
    ensures AttributeParts(a) == [" " + AttributeText(a[0].0, a[0].1)] + AttributeParts(a[1..])
  {
    var p := [" " + AttributeText(a[0].0, a[0].1)] + AttributeParts(a[1..]);
    assert forall i | 0 <= i < |a| :: AttributeParts(a)[i] == p[i];
  }

  lemma SemicolonSpace(nv: string, at: string, rest: string)
    ensures nv + ("; " + at + rest) == nv + [';'] + ((" " + at) + rest)
  {
    assert "; " == [';'] + " ";
  }

  /** Writing the attributes after `nv` is joining the parts with `;`. */
  lemma {:induction false} AttributesTextJoins(nv: string, a: Attributes)
    ensures nv + AttributesText(a) == Join([nv] + AttributeParts(a), ';')
    decreases |a|
  {
    if a != [] {
      var at := AttributeText(a[0].0, a[0].1);
      var p0 := " " + at;
      var rest := AttributesText(a[1..]);
      AttributesTextJoins(p0, a[1..]);
      AttributePartsCons(a);
      var xs := [nv] + AttributeParts(a);
      assert xs[0] == nv && |xs| >= 2;
      assert xs[1..] == [p0] + AttributeParts(a[1..]);
      assert Join(xs, ';') == nv + [';'] + (p0 + rest);
      assert AttributesText(a) == "; " + at + rest;
      SemicolonSpace(nv, at, rest);
    }
  }

  /** A string that survives the round trip through a Set-Cookie line: trimmed, no `;`. */
  predicate PlainText(s: string) {
    ';' !in s && IsTrim(s)
  }

  /** An attribute that survives the round trip: plain lower-case key without `=`, text or flag value. */
  predicate PlainAttribute(k: string, v: AttrValue) {
    && PlainText(k) && '=' !in k && NoUpper(k) && !IsSpecialKey(k)
    && (v.Flag? || (v.Text? && PlainText(v.text)))
  }

  /**
   * A cookie Parse can rebuild from its Set-Cookie line: plain name and value,
   * plain attributes, default flags.
   */
  predicate Plain(c: Cookie) {
    && PlainText(c.name) && '=' !in c.name && PlainText(c.value)
    && OrderedDict.Unique(c.attributes)
    && (forall i :: 0 <= i < |c.attributes| ==> PlainAttribute(c.attributes[i].0, c.attributes[i].1))
    && c.flags == DefaultFlags
  }

  lemma ParseAttributeOf(k: string, v: AttrValue)
    requires PlainAttribute(k, v)
    ensures ParseAttribute(" " + AttributeText(k, v)) == (k, v)
  {
    if v.Text? {
      ParseTextAttributeOf(k, v.text, " " + AttributeText(k, v));
    } else {
      ParseFlagOf(k, " " + AttributeText(k, v));
    }
  }

  lemma ParseFlagOf(k: string, part: string)
    requires PlainText(k) && '=' !in k && NoUpper(k)
    requires part == " " + k
    ensures ParseAttribute(part) == (k, Flag)
  {
    LowerNormalises(k);
    TrimAfterSpace(k);
    assert '=' !in part by {
      assert forall i | 1 <= i < |part| :: part[i] == k[i - 1];
    }
  }

  lemma ParseTextAttributeOf(k: string, s: string, part: string)
    requires PlainText(k) && '=' !in k && NoUpper(k) && PlainText(s)
    requires part == " " + k + "=" + s
    ensures ParseAttribute(part) == (k, Text(s))
  {
    LowerNormalises(k);
    TrimAfterSpace(k);
    assert '=' !in " " + k;
    SplitOnceAt(" " + k, '=', s);
    assert part == " " + k + ['='] + s;
    TrimOfTrimmed(s);
  }

  lemma {:induction false} ParseAttributesOf(a: Attributes)
    requires OrderedDict.Unique(a)
    requires forall i :: 0 <= i < |a| ==> PlainAttribute(a[i].0, a[i].1)
    ensures ParseAttributes(AttributeParts(a)) == a
  {
    if a != [] {
      var n := |a|;
      var init := a[..n - 1];
      var last := a[n - 1];
      assert init + [last] == a;
      OrderedDict.UniqueAppend(init, last);
      assert AttributeParts(a)[..n - 1] == AttributeParts(init);
      ParseAttributesOf(init);
      ParseAttributeOf(last.0, last.1);
      OrderedDict.PutNewKey(init, last.0, last.1);
    }
  }

  lemma PartHasNoSemicolon(k: string, v: AttrValue)
    requires PlainAttribute(k, v)
    ensures ';' !in " " + AttributeText(k, v)
  {
    if v.Text? {
      assert " " + AttributeText(k, v) == " " + k + "=" + v.text;
    }
  }

  lemma PartsHaveNoSemicolon(nv: string, a: Attributes)
    requires ';' !in nv
    requires forall i :: 0 <= i < |a| ==> PlainAttribute(a[i].0, a[i].1)
    ensures NoneContains([nv] + AttributeParts(a), ';')
  {
    var tail := AttributeParts(a);
    forall j | 0 <= j < |tail|
      ensures ';' !in tail[j]
    {
      PartHasNoSemicolon(a[j].0, a[j].1);
    }
    var parts := [nv] + tail;
    forall i | 0 <= i < |parts|
      ensures ';' !in parts[i]
    {
      if i > 0 {
        assert parts[i] == tail[i - 1];
      }
    }
  }

  /** A Set-Cookie line splits at `;` into the name-value pair and one part per attribute. */
  lemma SplitSetCookie(c: Cookie)
    requires Plain(c)
    ensures Split(FormatForSetCookie(c), ';') == [c.name + "=" + c.value] + AttributeParts(c.attributes)
  {
    var a := c.attributes;
    var nv := c.name + "=" + c.value;
    AttributesTextJoins(nv, a);
    PartsHaveNoSemicolon(nv, a);
    SplitJoin([nv] + AttributeParts(a), ';');
  }

  /** Parsing a cookie's Set-Cookie line rebuilds the cookie. */
  lemma ParseFormatRoundTrip(c: Cookie)
    requires Plain(c)
    ensures Parse(FormatForSetCookie(c), c.referenceTime) == c
  {
    var a := c.attributes;
    var nv := c.name + "=" + c.value;
    SplitSetCookie(c);
    assert ([nv] + AttributeParts(a))[1..] == AttributeParts(a);
    SplitOnceAt(c.name, '=', c.value);
    assert NameValue(nv) == (c.name, c.value);
    TrimOfTrimmed(c.name);
    TrimOfTrimmed(c.value);
    ParseAttributesOf(a);
    forall i | 0 <= i < |a|
      ensures NormalizeAttribute(a[i].0, a[i].1, c.referenceTime) == Some(a[i].1)
    {
      LowerNormalises(a[i].0);
    }
    NormalizeFixes(a, c.referenceTime);
  }

  /** The Cookie header form of a plain cookie parses back to its name and value. */
  lemma ParseHeaderRoundTrip(name: string, value: string, ref: int)
    requires PlainText(name) && '=' !in name && PlainText(value)
    ensures Parse(FormatForHeader(Cookie(name, value, [], DefaultFlags, ref)), ref) == Cookie(name, value, [], DefaultFlags, ref)
  {
    var c := Cookie(name, value, [], DefaultFlags, ref);
    assert FormatForSetCookie(c) == FormatForHeader(c) + "";
    assert FormatForHeader(c) + "" == FormatForHeader(c);
    assert Plain(c);
    ParseFormatRoundTrip(c);
  }

  /** A value-less attribute part is stored as a flag under its lower-cased, trimmed key. */
  lemma ValuelessAttributeIsFlag(kv: string, part: string, ref: int)
    requires ';' !in kv && ';' !in part && '=' !in part
    requires !IsSpecialKey(Lower(Trim(part)))
    ensures Attr(Parse(kv + ";" + part, ref), Lower(Trim(part))) == Some(Flag)
  {
    var header := kv + ";" + part;
    var k := Lower(Trim(part));
    SplitTwo(kv, part);
    var parts := Split(header, ';');
    assert parts[0] == kv && parts[1..] == [part];
    var nv := NameValue(kv);
    FlagPartParses(part);
    assert Parse(header, ref) == NewCookie(Trim(nv.0), Trim(nv.1), [(k, Flag)], NoOverrides, ref);
    LoneFlagKept(Trim(nv.0), Trim(nv.1), k, ref);
  }

  /** A part without `=` is one flag attribute under its lower-cased trimmed key. */
  lemma FlagPartParses(part: string)
    requires '=' !in part
    ensures ParseAttributes([part]) == [(Lower(Trim(part)), Flag)]
  {
    ParseAttributesOne(part);
  }

  /** A lone flag under an ordinary lower-case key survives normalisation. */
  lemma LoneFlagKept(name: string, value: string, k: string, ref: int)
    requires !IsSpecialKey(k) && NoUpper(k)
    ensures Attr(NewCookie(name, value, [(k, Flag)], NoOverrides, ref), k) == Some(Flag)
  {
    LowerNormalises(k);
    assert NormalizeAttribute(k, Flag, ref) == Some(Flag);
    assert OrderedDict.Get([(k, Flag)], k) == Some(Flag);
  }

  /** Parse reads the first `;`-part as `name=value` and the rest as attributes. */
  lemma ParseOf(header: string, name: string, value: string, parts: seq<string>, ref: int)
    requires Split(header, ';') == [name + "=" + value] + parts
    requires PlainText(name) && '=' !in name && PlainText(value)
    ensures Parse(header, ref) == NewCookie(name, value, ParseAttributes(parts), NoOverrides, ref)
  {
    assert Split(header, ';')[1..] == parts;
    SplitOnceAt(name, '=', value);
    assert NameValue(name + "=" + value) == (name, value);
    TrimOfTrimmed(name);
    TrimOfTrimmed(value);
  }

  /** The Split of `a;b` when neither part holds `;`. */
  lemma SplitTwo(a: string, b: string)
    requires ';' !in a && ';' !in b
    ensures Split(a + ";" + b, ';') == [a] + [b]
  {
    SplitJoin([a, b], ';');
    assert Join([a, b], ';') == a + ";" + b;
  }

  lemma ParseAttributesOne(part: string)
    ensures ParseAttributes([part]) == [ParseAttribute(part)]
  {
    assert [part][..0] == [];
  }

  lemma ParseAttributeText(key: string, v: string)
    requires PlainText(key) && '=' !in key && PlainText(v)
    ensures ParseAttribute(" " + key + "=" + v) == (Lower(key), Text(v))
  {
    SplitOnceAt(" " + key, '=', v);
    TrimAfterSpace(key);
    TrimOfTrimmed(v);
  }

  /** `name=value; key=v` reads as the cookie built from that one attribute, its key lower-cased. */
  lemma ParseSingleAttribute(header: string, name: string, value: string, key: string, v: string, ref: int)
    requires header == (name + "=" + value) + ";" + (" " + key + "=" + v)
    requires PlainText(name) && '=' !in name && PlainText(value)
    requires PlainText(key) && '=' !in key && PlainText(v)
    ensures Parse(header, ref) == NewCookie(name, value, [(Lower(key), Text(v))], NoOverrides, ref)
  {
    var nv := name + "=" + value;
    var part := " " + key + "=" + v;
    assert ';' !in part;
    SplitTwo(nv, part);
    ParseAttributeText(key, v);
    ParseAttributesOne(part);
    ParseOf(header, name, value, [part], ref);
  }

  /** `name=value; key` reads as the cookie built from that one flag, its key lower-cased. */
  lemma ParseSingleFlag(header: string, name: string, value: string, key: string, ref: int)
    requires header == (name + "=" + value) + ";" + (" " + key)
    requires PlainText(name) && '=' !in name && PlainText(value)
    requires PlainText(key) && '=' !in key
    ensures Parse(header, ref) == NewCookie(name, value, [(Lower(key), Flag)], NoOverrides, ref)
  {
    var nv := name + "=" + value;
    var part := " " + key;
    SplitTwo(nv, part);
    TrimAfterSpace(key);
    assert ParseAttribute(part) == (Lower(key), Flag);
    ParseAttributesOne(part);
    ParseOf(header, name, value, [part], ref);
  }
}
