/**
 * Turning the Set-Cookie values of a response into cookies with the origin
 * of the request in mind: the default path of section 5.1.4 of RFC 6265,
 * host-only cookies for a missing domain, and rejection of a domain the
 * origin host does not domain-match (section 5.3 of RFC 6265).
 */
module Extraction {
  import opened Wrappers
  import opened Strings
  import OrderedDict
  import opened Cookies

  /** Position of the last occurrence of `c`, as strrpos(). */
  function LastIndexOf(s: string, c: char): (r: Option<nat>)
    ensures r.None? <==> c !in s
    ensures r.Some? ==> r.value < |s| && s[r.value] == c && c !in s[r.value + 1..]
  {
    if s == [] then None
    else if s[|s| - 1] == c then Some(|s| - 1)
    else
      var r := LastIndexOf(s[..|s| - 1], c);
      assert r.Some? ==> s[r.value + 1..] == s[..|s| - 1][r.value + 1..] + [s[|s| - 1]];
      r
  }

  /**
   * The default path of a request path: the text before its last `/`, or
   * `/` when the path does not start with `/` or has no other `/`.
   */
  function DefaultPath(path: string): (r: string)
    ensures |r| >= 1 && r[0] == '/'
    ensures r == "/" || exists rest :: path == r + "/" + rest && '/' !in rest
  {
    if path == "" || path[0] != '/' then "/"
    else
      var i := LastIndexOf(path, '/').value;
      if i == 0 then "/"
      else
        assert path == path[..i] + "/" + path[i + 1..];
        path[..i]
  }
  /** The default path read off the position of the last `/`. */
  lemma DefaultPathAt(path: string, i: nat)
    requires i < |path| && path[0] == '/' && path[i] == '/' && '/' !in path[i + 1..]
    ensures DefaultPath(path) == if i == 0 then "/" else path[..i]
  {
    var j := LastIndexOf(path, '/').value;
    assert j == i;
  }


  /**
   * A cookie stored with the default path of a request path is sent back to
   * that path (an empty request path counts as `/`).
   */
  lemma DefaultPathMatchesRequest(c: Cookie, path: string)
    requires Attr(c, "path") == Some(Text(DefaultPath(path)))
    requires PhpEmpty(path) || path[0] == '/'
    ensures PathMatches(c, path)
  {
    var p := DefaultPath(path);
    if !PhpEmpty(path) && p != "/" {
      var rest :| path == p + "/" + rest && '/' !in rest;
      assert path[..|p|] == p && path[|p|] == '/';
    }
  }

  /** A path the cookie may keep: non-empty text starting with `/`. */
  predicate PathIsValid(v: Option<AttrValue>) {
    v.Some? && v.value.Text? && v.value.text != "" && v.value.text[0] == '/'
  }

  /** The domain attribute is missing or PHP-empty. */
  predicate DomainIsEmpty(v: Option<AttrValue>) {
    v.None? || EmptyValue(v.value)
  }

  /**
   * The domain step of extraction: a cookie without a domain takes the origin
   * host and becomes host-only; any other cookie is marked not host-only.
   */
  function FillDomain(parsed: Cookie, origin: Option<Origin>): (r: Cookie)
    requires WellFormed(parsed)
    ensures WellFormed(r)
    ensures r.name == parsed.name && r.value == parsed.value && r.referenceTime == parsed.referenceTime
    ensures forall k :: k != "domain" ==> Attr(r, k) == Attr(parsed, k)
    ensures DomainIsEmpty(Attr(parsed, "domain")) && origin.Some? ==>
              Attr(r, "domain") == Some(Text(origin.value.host)) && r.flags.hostOnly
    ensures !(DomainIsEmpty(Attr(parsed, "domain")) && origin.Some?) ==>
              Attr(r, "domain") == Attr(parsed, "domain") && !r.flags.hostOnly && r.attributes == parsed.attributes
  {
    if DomainIsEmpty(Attr(parsed, "domain")) && origin.Some? then
      parsed.(attributes := OrderedDict.Put(parsed.attributes, "domain", Text(origin.value.host)),
              flags := parsed.flags.(hostOnly := true))
    else
      parsed.(flags := parsed.flags.(hostOnly := false))
  }

  /** The path step of extraction: a missing or invalid path becomes the origin's default path. */
  function FillPath(c: Cookie, origin: Option<Origin>): (r: Cookie)
    requires WellFormed(c)
    ensures WellFormed(r)
    ensures r.name == c.name && r.value == c.value && r.referenceTime == c.referenceTime && r.flags == c.flags
    ensures forall k :: k != "path" ==> Attr(r, k) == Attr(c, k)
    ensures !PathIsValid(Attr(c, "path")) && origin.Some? ==> Attr(r, "path") == Some(Text(DefaultPath(origin.value.path)))
    ensures !(!PathIsValid(Attr(c, "path")) && origin.Some?) ==> r == c
  {
    if !PathIsValid(Attr(c, "path")) && origin.Some? then
      c.(attributes := OrderedDict.Put(c.attributes, "path", Text(DefaultPath(origin.value.path))))
    else
      c
  }

  /**
   * A parsed cookie checked against an optional origin. Without a domain the
   * cookie becomes host-only for the origin host; an invalid path is replaced
   * by the origin's default path; a cookie whose domain does not match the
   * origin host is rejected. Without an origin only host-only is cleared.
   */
  function ApplyOrigin(parsed: Cookie, origin: Option<Origin>): (r: Option<Cookie>)
    requires WellFormed(parsed)
    ensures origin.None? ==> r.Some?
    ensures r.Some? ==> WellFormed(r.value)
    ensures r.Some? ==> r.value.name == parsed.name && r.value.value == parsed.value
    ensures r.Some? ==> r.value.referenceTime == parsed.referenceTime
    ensures r.Some? && origin.Some? ==> DomainMatches(r.value, origin.value.host) && PathIsValid(Attr(r.value, "path"))
  {
    var withPath := FillPath(FillDomain(parsed, origin), origin);
    if origin.Some? && !DomainMatches(withPath, origin.value.host) then None
    else Some(withPath)
  }

  /** One Set-Cookie value read against an optional origin. */
  function ExtractOne(header: string, origin: Option<Origin>, ref: int): (r: Option<Cookie>)
    ensures origin.None? ==> r.Some?
    ensures r.Some? ==> r.value.name == Parse(header, ref).name && r.value.value == Parse(header, ref).value
    ensures r.Some? && origin.Some? ==> DomainMatches(r.value, origin.value.host)
  {
    ApplyOrigin(Parse(header, ref), origin)
  }

  /**
   * parse_from_headers(): every Set-Cookie value in order, the accepted
   * cookies keyed by name; a later cookie of the same name replaces the
   * earlier one in its place.
   */
  function ParseFromHeaders(headers: seq<string>, origin: Option<Origin>, ref: int): (r: seq<(string, Cookie)>)
    ensures OrderedDict.Unique(r)
    ensures forall i :: 0 <= i < |r| ==> r[i].1.name == r[i].0
    ensures forall i :: 0 <= i < |r| && origin.Some? ==> DomainMatches(r[i].1, origin.value.host)
    ensures |r| <= |headers|
  {
    if headers == [] then []
    else
      var prev := ParseFromHeaders(headers[..|headers| - 1], origin, ref);
      match ExtractOne(headers[|headers| - 1], origin, ref)
      case None => prev
      case Some(c) =>
        PutKeepsEntries(prev, c, origin);
        OrderedDict.Put(prev, c.name, c)
  }

  /** Storing an accepted cookie under its name keeps every entry named after its cookie and matching the origin. */
  lemma PutKeepsEntries(prev: seq<(string, Cookie)>, c: Cookie, origin: Option<Origin>)
    requires OrderedDict.Unique(prev)
    requires forall i :: 0 <= i < |prev| ==> prev[i].1.name == prev[i].0
    requires forall i :: 0 <= i < |prev| && origin.Some? ==> DomainMatches(prev[i].1, origin.value.host)
    requires origin.Some? ==> DomainMatches(c, origin.value.host)
    ensures var r := OrderedDict.Put(prev, c.name, c);
            && (forall i :: 0 <= i < |r| ==> r[i].1.name == r[i].0)
            && (forall i :: 0 <= i < |r| && origin.Some? ==> DomainMatches(r[i].1, origin.value.host))
            && |r| <= |prev| + 1
  {
    var r := OrderedDict.Put(prev, c.name, c);
    forall i | 0 <= i < |r|
      ensures r[i].1.name == r[i].0
      ensures origin.Some? ==> DomainMatches(r[i].1, origin.value.host)
    {
      if r[i] != (c.name, c) {
        var j :| 0 <= j < |prev| && prev[j] == r[i];
      }
    }
    assert |OrderedDict.Keys(r)| <= |OrderedDict.Keys(prev)| + 1;
  }

  /**
   * A declared domain survives extraction exactly when it domain-matches the
   * origin host as a non-host-only cookie; the kept cookie is not host-only.
   */
  lemma DeclaredDomainChecked(c: Cookie, o: Origin, d: string)
    requires WellFormed(c)
    requires Attr(c, "domain") == Some(Text(d)) && !PhpEmpty(d)
    ensures ApplyOrigin(c, Some(o)).Some? <==>
              o.host == d || (HasDomainSuffix(o.host, d) && !LooksLikeIpAddress(o.host))
    ensures ApplyOrigin(c, Some(o)).Some? ==>
              Attr(ApplyOrigin(c, Some(o)).value, "domain") == Some(Text(d))
              && !ApplyOrigin(c, Some(o)).value.flags.hostOnly
  {
  }

  /** A cookie from another site is dropped: the origin host neither is nor lies under its domain. */
  lemma CrossOriginRejected(c: Cookie, o: Origin, d: string)
    requires WellFormed(c)
    requires Attr(c, "domain") == Some(Text(d)) && !PhpEmpty(d)
    requires o.host != d && !HasDomainSuffix(o.host, d)
    ensures ApplyOrigin(c, Some(o)) == None
  {
    DeclaredDomainChecked(c, o, d);
  }

  /**
   * A valueless `Domain` (PHP `true`) is not empty, so it is kept as a declared
   * domain; it equals no host and is no suffix, so the cookie is rejected.
   */
  lemma ValuelessDomainRejected(c: Cookie, o: Origin)
    requires WellFormed(c)
    requires Attr(c, "domain") == Some(Flag)
    ensures ApplyOrigin(c, Some(o)) == None
  {
    var filled := FillDomain(c, Some(o));
    assert Attr(FillPath(filled, Some(o)), "domain") == Some(Flag);
  }

  /** Without a domain the cookie is kept, host-only, for the origin host. */
  lemma MissingDomainIsHostOnly(c: Cookie, o: Origin)
    requires WellFormed(c)
    requires DomainIsEmpty(Attr(c, "domain"))
    ensures ApplyOrigin(c, Some(o)).Some?
    ensures Attr(ApplyOrigin(c, Some(o)).value, "domain") == Some(Text(o.host))
    ensures ApplyOrigin(c, Some(o)).value.flags.hostOnly
  {
    var withDomain := FillDomain(c, Some(o));
    assert Attr(withDomain, "domain") == Some(Text(o.host)) && withDomain.flags.hostOnly;
    var withPath := FillPath(withDomain, Some(o));
    assert Attr(withPath, "domain") == Some(Text(o.host)) && withPath.flags.hostOnly;
    assert DomainMatches(withPath, o.host);
    assert ApplyOrigin(c, Some(o)) == Some(withPath);
  }

  /** A path that starts with `/` is kept as given. */
  lemma ValidPathKept(c: Cookie, o: Origin)
    requires WellFormed(c)
    requires PathIsValid(Attr(c, "path"))
    ensures ApplyOrigin(c, Some(o)).Some? ==> Attr(ApplyOrigin(c, Some(o)).value, "path") == Attr(c, "path")
  {
  }

  /** A missing or invalid path is replaced by the default path of the origin. */
  lemma InvalidPathReplaced(c: Cookie, o: Origin)
    requires WellFormed(c)
    requires !PathIsValid(Attr(c, "path"))
    ensures ApplyOrigin(c, Some(o)).Some? ==> Attr(ApplyOrigin(c, Some(o)).value, "path") == Some(Text(DefaultPath(o.path)))
  {
  }

  /** Without an origin a header gives the parsed cookie, marked not host-only. */
  lemma WithoutOriginKeepsParse(c: Cookie)
    requires WellFormed(c)
    ensures ApplyOrigin(c, None).Some?
    ensures ApplyOrigin(c, None).value.attributes == c.attributes
    ensures !ApplyOrigin(c, None).value.flags.hostOnly
  {
  }

  /** The last accepted cookie of a name, scanning the headers from the end. */
  function LastAccepted(headers: seq<string>, origin: Option<Origin>, ref: int, name: string): (r: Option<Cookie>)
    ensures r.Some? ==> r.value.name == name
  {
    if headers == [] then None
    else
      match ExtractOne(headers[|headers| - 1], origin, ref)
      case Some(c) =>
        if c.name == name then Some(c) else LastAccepted(headers[..|headers| - 1], origin, ref, name)
      case None => LastAccepted(headers[..|headers| - 1], origin, ref, name)
  }

  /** Each name maps to the last cookie of that name that was accepted. */
  lemma {:induction false} ParseFromHeadersKeepsLast(headers: seq<string>, origin: Option<Origin>, ref: int, name: string)
    ensures OrderedDict.Get(ParseFromHeaders(headers, origin, ref), name) == LastAccepted(headers, origin, ref, name)
  {
    if headers != [] {
      ParseFromHeadersKeepsLast(headers[..|headers| - 1], origin, ref, name);
    }
  }

  /** Without an origin one header gives exactly one cookie. */
  lemma OneHeaderOneCookie(header: string, ref: int)
    ensures |ParseFromHeaders([header], None, ref)| == 1
  {
    assert [header][..0] == [];
  }

  /** One Set-Cookie value gives at most one cookie: the one ExtractOne accepts. */
  lemma SingleHeader(header: string, origin: Option<Origin>, ref: int)
    ensures ExtractOne(header, origin, ref).None? ==> ParseFromHeaders([header], origin, ref) == []
    ensures ExtractOne(header, origin, ref).Some? ==>
              ParseFromHeaders([header], origin, ref) == [(Parse(header, ref).name, ExtractOne(header, origin, ref).value)]
  {
    assert [header][..0] == [];
  }

  /** The same, stated for a header whose parse is already known. */
  lemma SingleHeaderParsed(header: string, origin: Option<Origin>, ref: int, p: Cookie)
    requires Parse(header, ref) == p
    ensures ApplyOrigin(p, origin).None? ==> ParseFromHeaders([header], origin, ref) == []
    ensures ApplyOrigin(p, origin).Some? ==>
              ParseFromHeaders([header], origin, ref) == [(p.name, ApplyOrigin(p, origin).value)]
  {
    SingleHeader(header, origin, ref);
  }

  /**
   * Reading one header through parse_from_headers without an origin gives one
   * cookie that agrees with Parse on name, value, attributes and expiry.
   */
  lemma HeaderObjectMatchesParse(header: string, ref: int)
    ensures |ParseFromHeaders([header], None, ref)| == 1
    ensures var c := ParseFromHeaders([header], None, ref)[0].1;
            && c.name == Parse(header, ref).name && c.value == Parse(header, ref).value
            && c.attributes == Parse(header, ref).attributes
            && IsExpired(c) == IsExpired(Parse(header, ref))
  {
    var p := Parse(header, ref);
    SingleHeader(header, None, ref);
    WithoutOriginKeepsParse(p);
    var c := ApplyOrigin(p, None).value;
    assert c == p.(flags := c.flags);
    ExpiryIgnoresFlags(p, c.flags);
  }

  lemma ExpiryIgnoresFlags(c: Cookie, f: Flags)
    ensures IsExpired(c.(flags := f)) == IsExpired(c)
  {
  }
}
