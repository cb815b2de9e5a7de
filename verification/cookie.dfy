/**
 * A single cookie: its record, attribute normalisation, expiry, the matching
 * predicates of sections 5.1.3 and 5.1.4 of RFC 6265, header formatting, and
 * parsing of one Set-Cookie fragment.
 */
module Cookies {
  import opened Wrappers
  import opened Strings
  import OrderedDict
  import HttpDate

  /**
   * An attribute value: text as received, the PHP `true` stored for an
   * attribute given without `=`, or an instant (seconds since the epoch)
   * after `expires` / `max-age` normalisation.
   */
  datatype AttrValue = Text(text: string) | Flag | Time(instant: int)

  /** The ordered attribute dictionary; keys are unique. */
  type Attributes = seq<(string, AttrValue)>

  /** Metadata about how the cookie entered the jar (not sent on the wire). */
  datatype Flags = Flags(hostOnly: bool, persistent: bool)

  /** The flags a cookie gets when the caller passes none. */
  const DefaultFlags := Flags(true, false)

  /** Flags given to the constructor; each present one replaces the default. */
  datatype FlagOverrides = FlagOverrides(hostOnly: Option<bool>, persistent: Option<bool>)

  const NoOverrides := FlagOverrides(None, None)

  datatype Cookie = Cookie(
    name: string,
    value: string,
    attributes: Attributes,
    flags: Flags,
    referenceTime: int)

  /** The parts of a request URI the cookie logic reads. */
  datatype Origin = Origin(scheme: string, host: string, path: string)

  function MergeFlags(o: FlagOverrides): (f: Flags)
    ensures f.hostOnly == (if o.hostOnly.Some? then o.hostOnly.value else true)
    ensures f.persistent == (if o.persistent.Some? then o.persistent.value else false)
  {
    Flags(
      match o.hostOnly case Some(b) => b case None => DefaultFlags.hostOnly,
      match o.persistent case Some(b) => b case None => DefaultFlags.persistent)
  }

  /** PHP's empty() on an attribute value. */
  predicate EmptyValue(v: AttrValue) {
    match v
    case Text(s) => PhpEmpty(s)
    case Flag => false
    case Time(t) => t == 0
  }

  function Attr(c: Cookie, key: string): Option<AttrValue> {
    OrderedDict.Get(c.attributes, key)
  }

  // ---------------------------------------------------------------------
  // Normalisation
  // ---------------------------------------------------------------------

  /** The attribute keys normalisation rewrites. */
  predicate IsSpecialKey(k: string) {
    k == "expires" || k == "max-age" || k == "domain"
  }

  /** The stored instant for `Max-Age=n` (section 5.2.2 of RFC 6265). */
  function MaxAgeInstant(n: int, ref: int): int {
    if n <= 0 then 0 else ref + n
  }

  /** One leading dot removed, as domain normalisation removes it. */
  function StripDot(s: string): (r: string)
    ensures |r| == |s| || (|s| > 0 && s[0] == '.' && r == s[1..])
  {
    if s != "" && s[0] == '.' then s[1..] else s
  }

  /**
   * One attribute after normalisation; None means the attribute is dropped.
   * `expires` text is read as an HTTP date; `max-age` text must be a signed
   * integer; a `domain` that PHP's empty() rejects is dropped, and one leading
   * dot is removed from a text domain. A valueless `domain` (PHP `true`) is
   * not empty and stays as it is.
   */
  function NormalizeAttribute(key: string, v: AttrValue, ref: int): (r: Option<AttrValue>)
    ensures !IsSpecialKey(Lower(key)) ==> r == Some(v)
    ensures r.Some? && (Lower(key) == "expires" || Lower(key) == "max-age") ==> r.value.Time?
    ensures Lower(key) == "domain" ==> (r.None? <==> EmptyValue(v))
    ensures r.Some? && Lower(key) == "domain" ==> r.value.Text? == v.Text? && (!v.Text? ==> r.value == v)
    ensures v.Time? && Lower(key) != "domain" ==> r == Some(v)
  {
    var k := Lower(key);
    if k == "expires" then
      match v
      case Time(_) => Some(v)
      case Text(s) => (match HttpDate.ParseHttpDate(s) case Some(t) => Some(Time(t)) case None => None)
      case Flag => None
    else if k == "max-age" then
      match v
      case Time(_) => Some(v)
      case Text(s) => (match ParseInt(s) case Some(n) => Some(Time(MaxAgeInstant(n, ref))) case None => None)
      case Flag => None
    else if k == "domain" then
      if EmptyValue(v) then None
      else match v
        case Text(s) => Some(Text(StripDot(s)))
        case _ => Some(v)
    else
      Some(v)
  }

  /** Every attribute normalised in place; dropped ones removed, order kept. */
  function NormalizeAttributes(a: Attributes, ref: int): (r: Attributes)
    requires OrderedDict.Unique(a)
    ensures OrderedDict.Unique(r)
    ensures forall k ::
              OrderedDict.Get(r, k) ==
              (match OrderedDict.Get(a, k) case None => None case Some(v) => NormalizeAttribute(k, v, ref))
  {
    if a == [] then []
    else
      var rest := NormalizeAttributes(a[1..], ref);
      match NormalizeAttribute(a[0].0, a[0].1, ref)
      case None => rest
      case Some(v) =>
        assert OrderedDict.Get(rest, a[0].0) == None;
        OrderedDict.KeysCons((a[0].0, v), rest);
        assert ([(a[0].0, v)] + rest)[1..] == rest;
        [(a[0].0, v)] + rest
  }

  predicate WellFormed(c: Cookie) {
    OrderedDict.Unique(c.attributes)
  }

  /** normalize(). */
  function Normalize(c: Cookie): (r: Cookie)
    requires WellFormed(c)
    ensures WellFormed(r)
    ensures r.name == c.name && r.value == c.value && r.flags == c.flags && r.referenceTime == c.referenceTime
  {
    c.(attributes := NormalizeAttributes(c.attributes, c.referenceTime))
  }

  /** new Cookie($name, $value, $attributes, $flags, $reference_time). */
  function NewCookie(name: string, value: string, attributes: Attributes, flags: FlagOverrides, ref: int): (c: Cookie)
    requires OrderedDict.Unique(attributes)
    ensures WellFormed(c)
    ensures c.name == name && c.value == value && c.referenceTime == ref
    ensures c.flags == MergeFlags(flags)
  {
    Normalize(Cookie(name, value, attributes, MergeFlags(flags), ref))
  }

  /** The string cast of a cookie. */
  function ToString(c: Cookie): string {
    c.value
  }

  // ---------------------------------------------------------------------
  // Expiry
  // ---------------------------------------------------------------------

  /** The instant an expiry attribute holds, if it holds one. */
  function Instant(v: Option<AttrValue>): Option<int> {
    match v
    case Some(Time(t)) => Some(t)
    case _ => None
  }

  /**
   * is_expired(): `max-age`, when present, decides; otherwise `expires`;
   * a cookie with neither is a session cookie and never expired.
   */
  function IsExpired(c: Cookie): (r: bool)
    ensures Attr(c, "max-age").None? && Attr(c, "expires").None? ==> !r
    ensures r ==> exists t :: t <= c.referenceTime && (Attr(c, "max-age") == Some(Time(t)) || Attr(c, "expires") == Some(Time(t)))
  {
    if Attr(c, "max-age").Some? then
      match Instant(Attr(c, "max-age")) case Some(t) => t <= c.referenceTime case None => false
    else if Attr(c, "expires").Some? then
      match Instant(Attr(c, "expires")) case Some(t) => t <= c.referenceTime case None => false
    else
      false
  }

  // ---------------------------------------------------------------------
  // Matching
  // ---------------------------------------------------------------------

  /** The number of digits at the end of s. */
  function TrailingDigits(s: string): (n: nat)
    ensures n <= |s|
    ensures forall i :: |s| - n <= i < |s| ==> IsDigit(s[i])
    ensures n == |s| || !IsDigit(s[|s| - n - 1])
  {
    if s != [] && IsDigit(s[|s| - 1]) then 1 + TrailingDigits(s[..|s| - 1]) else 0
  }

  /**
   * s ends with `labels` dot-separated groups of one to three digits; the
   * first of them starts the string or follows a dot preceded by at least
   * one character.
   */
  predicate EndsWithDigitLabels(s: string, labels: nat)
    requires labels >= 1
    decreases labels
  {
    var k := TrailingDigits(s);
    && 1 <= k <= 3
    && if labels == 1 then |s| == k || (|s| >= k + 2 && s[|s| - k - 1] == '.')
       else |s| >= k + 2 && s[|s| - k - 1] == '.' && EndsWithDigitLabels(s[..|s| - k - 1], labels - 1)
  }

  /** A host that is, or ends with, an IPv4 dotted quad. */
  predicate LooksLikeIpAddress(host: string) {
    EndsWithDigitLabels(host, 4)
  }

  /** host is d behind one more label: a dot right before the suffix d. */
  predicate HasDomainSuffix(host: string, d: string) {
    |host| > |d| && host[|host| - |d|..] == d && host[|host| - |d| - 1] == '.'
  }

  /**
   * domain_matches(): a cookie without a domain matches every host; an equal
   * domain always matches; a host-only cookie matches nothing else; otherwise
   * a host that is the domain behind a further label matches unless it looks
   * like an IP address.
   */
  function DomainMatches(c: Cookie, host: string): (r: bool)
    ensures Attr(c, "domain") == Some(Text(host)) ==> r
    ensures Attr(c, "domain").Some? && !Attr(c, "domain").value.Text? ==> !r
    ensures r && c.flags.hostOnly ==> Attr(c, "domain").None? || Attr(c, "domain") == Some(Text(host))
    ensures r && LooksLikeIpAddress(host) ==> Attr(c, "domain").None? || Attr(c, "domain") == Some(Text(host))
  {
    match Attr(c, "domain")
    case None => true
    case Some(Text(d)) =>
      if d == host then true
      else if c.flags.hostOnly then false
      else HasDomainSuffix(host, d) && !LooksLikeIpAddress(host)
    case Some(_) => false
  }

  /** An empty request path counts as the root. */
  function RequestPath(path: string): string {
    if PhpEmpty(path) then "/" else path
  }

  /**
   * path_matches(): a cookie without a path matches every path; otherwise the
   * request path must equal the cookie path or extend it at a `/`.
   */
  function PathMatches(c: Cookie, path: string): (r: bool)
    ensures Attr(c, "path") == Some(Text(RequestPath(path))) ==> r
    ensures r && Attr(c, "path").Some? ==> Attr(c, "path").value.Text? && Attr(c, "path").value.text <= RequestPath(path)
  {
    var rp := RequestPath(path);
    match Attr(c, "path")
    case None => true
    case Some(Text(p)) =>
      p == rp
      || (|rp| > |p| && rp[..|p|] == p && ((|p| > 0 && p[|p| - 1] == '/') || rp[|p|] == '/'))
    case Some(_) => false
  }

  /** The `secure` attribute is set (present and not PHP-empty). */
  predicate IsSecure(c: Cookie) {
    match Attr(c, "secure") case Some(v) => !EmptyValue(v) case None => false
  }

  /** uri_matches(). */
  function UriMatches(c: Cookie, o: Origin): (r: bool)
    ensures r ==> DomainMatches(c, o.host) && PathMatches(c, o.path)
    ensures r && IsSecure(c) ==> o.scheme == "https"
    ensures Attr(c, "domain").None? && Attr(c, "path").None? && !IsSecure(c) ==> r
  {
    DomainMatches(c, o.host) && PathMatches(c, o.path) && (!IsSecure(c) || o.scheme == "https")
  }

  // ---------------------------------------------------------------------
  // Formatting
  // ---------------------------------------------------------------------

  /** format_for_header(): `name=value`, never any attribute. */
  function FormatForHeader(c: Cookie): string {
    c.name + "=" + c.value
  }

  /** One attribute as written back: `key` for a flag, `key=value` otherwise. */
  function AttributeText(key: string, v: AttrValue): string {
    match v
    case Flag => key
    case Text(s) => key + "=" + s
    case Time(t) => key + "=" + IntToString(t)
  }

  /** `; attr` for every attribute, in dictionary order. */
  function AttributesText(a: Attributes): string {
    if a == [] then "" else "; " + AttributeText(a[0].0, a[0].1) + AttributesText(a[1..])
  }

  /** format_for_set_cookie(). */
  function FormatForSetCookie(c: Cookie): string {
    FormatForHeader(c) + AttributesText(c.attributes)
  }

  // ---------------------------------------------------------------------
  // Parsing
  // ---------------------------------------------------------------------

  /** The `name=value` pair; without `=`, an empty name and the whole text as value. */
  function NameValue(kv: string): (r: (string, string))
    ensures '=' !in kv ==> r == ("", kv)
    ensures '=' in kv ==> r.0 + "=" + r.1 == kv && '=' !in r.0
  {
    match SplitOnce(kv, '=')
    case None => ("", kv)
    case Some(p) => p
  }

  /** One `; attr[=value]` part: lower-cased trimmed key; `true` when there is no `=`. */
  function ParseAttribute(part: string): (r: (string, AttrValue))
    ensures NoUpper(r.0)
    ensures '=' !in part <==> r.1 == Flag
  {
    LowerNormalises(Trim(part));
    match SplitOnce(part, '=')
    case None => (Lower(Trim(part)), Flag)
    case Some((k, v)) =>
      LowerNormalises(Trim(k));
      (Lower(Trim(k)), Text(Trim(v)))
  }

  predicate KeysLower(a: Attributes) {
    forall k :: k in OrderedDict.Keys(a) ==> NoUpper(k)
  }

  /** Normalisation drops or rewrites values but never introduces a key. */
  lemma NormalizeKeepsKeysLower(a: Attributes, ref: int)
    requires OrderedDict.Unique(a) && KeysLower(a)
    ensures KeysLower(NormalizeAttributes(a, ref))
  {
    var r := NormalizeAttributes(a, ref);
    forall k | k in OrderedDict.Keys(r)
      ensures NoUpper(k)
    {
      assert OrderedDict.Get(r, k).Some?;
    }
  }

  /** The attribute parts stored one after another; a repeated key keeps its place and takes the later value. */
  function ParseAttributes(parts: seq<string>): (a: Attributes)
    ensures OrderedDict.Unique(a)
    ensures KeysLower(a)
  {
    if parts == [] then []
    else
      var prev := ParseAttributes(parts[..|parts| - 1]);
      var kv := ParseAttribute(parts[|parts| - 1]);
      OrderedDict.Put(prev, kv.0, kv.1)
  }

  /** Cookie::parse($header, '', $reference_time). */
  function Parse(header: string, ref: int): (c: Cookie)
    ensures WellFormed(c)
    ensures c.referenceTime == ref && c.flags == DefaultFlags
    ensures IsTrim(c.name) && IsTrim(c.value)
    ensures KeysLower(c.attributes)
  {
    var parts := Split(header, ';');
    var nv := NameValue(parts[0]);
    var attributes := ParseAttributes(parts[1..]);
    NormalizeKeepsKeysLower(attributes, ref);
    NewCookie(Trim(nv.0), Trim(nv.1), attributes, NoOverrides, ref)
  }
}
