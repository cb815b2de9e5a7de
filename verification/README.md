# Requests cookie engine in Dafny

A model of the cookie engine of the PHP HTTP library Requests:

- **Cookie record and formatting.** A cookie holds:
  - a name and a value;
  - an insertion-ordered attribute dictionary;
  - flags, of which `host-only` and `persistent` are modelled;
  - the reference time used for expiry.

  It is written out as `name=value` for a request header, and as `name=value; key; key=value` for a Set-Cookie line.
- **Fragment parser.** `Cookie::parse` splits `name=value; attr[=value]…` at `;`. It trims, and lower-cases attribute keys. Normalisation then does three things:
  - turns `Expires` into an epoch instant, read as one of the three HTTP-date forms of section 7.1.1.1 of RFC 7231 (RFC 1123, RFC 850 and asctime);
  - turns `Max-Age=n` into the reference time plus `n`, or 0 when `n <= 0` (section 5.2.2 of RFC 6265);
  - drops a `domain` that PHP's `empty()` rejects and strips one leading dot from a text domain. A valueless `domain` (PHP `true`) is kept; it then matches no host.
- **Matching.** `domain_matches`, `path_matches` and `uri_matches`, following sections 5.1.3 and 5.1.4 of RFC 6265. The host-only flag and the `secure` scheme check are included.
- **Origin-aware extraction.** `parse_from_headers` does the following:
  - derives the default path (section 5.1.4 of RFC 6265);
  - replaces an invalid path;
  - makes a cookie without a domain host-only for the origin host;
  - drops a cookie whose declared domain does not domain-match the origin host (section 5.3 of RFC 6265).
- **Jar.** An insertion-ordered dictionary from name to entry. Keyless (list-style) assignment is a usage error.

The model covers the behaviour of `Cookie` and `Cookie\Jar` that the repository's test suite, `tests/CookiesTest.php`, asserts. What those classes do beyond that is listed under "## Left out". Every data-provider row of the suite is a lemma over the pure functions. The reference time is an explicit integer, and `Ref2014` is 2014-01-01 00:00:00 UTC.

Layout, one module per file:

| module | file | contents |
|---|---|---|
| `Wrappers` | wrappers.dfy | `Option`, `Result` |
| `Strings` | strings.dfy | PHP string helpers: `trim`, `strtolower`, `explode`, `empty()`, integer parsing and printing |
| `OrderedDict` | ordered_dict.dfy | PHP arrays used as maps: put in place or append, remove, lookup |
| `HttpDate` | http_date.dfy | civil-date arithmetic (`gmmktime`), the three date grammars, formatters for each and round trips |
| `Cookies` | cookie.dfy | the cookie record, normalisation, expiry, matching, formatting, parsing |
| `CookieProperties` | cookie_properties.dfy | general properties of the cookie operations |
| `Extraction` | extraction.dfy | default path, origin rules, `parse_from_headers` |
| `CookieJar` | jar.dfy | the jar |
| `CookieTestRows` | test_rows.dfy | construction, domain, path, uri, secure and manual-cookie rows |
| `CookieParseRows` | parse_rows.dfy | the parse data provider, single and double normalisation |
| `CookieOriginRows` | origin_rows.dfy | the parse-from-headers data provider |

Three choices of the model go beyond what the test suite pins down:
- **Jar values are stored as given.** The jar stores a plain string unchanged, and `get` returns it (tests/CookiesTest.php:64).
- **Flag attributes.** A valueless attribute is stored as `true` (line 45) and written back as `; key`.
- **Valueless `Expires` and `Max-Age`.** They carry no time and are dropped by normalisation.

## Model

| member | source | states |
|---|---|---|
| Cookies.NewCookie | tests/CookiesTest.php:15-35 | The constructor keeps name, value and reference time. Its flags are the defaults, with each given flag overriding its default. CookieProperties.DomainStored, MaxAgeDecides and OrdinaryAttributeKept say what it stores for each attribute. |
| Cookies.NormalizeAttribute | tests/CookiesTest.php:386-466 | Keys other than `expires`, `max-age` and `domain` keep their value. A kept `expires` or `max-age` is an instant, and an instant stays as it is. A `domain` is dropped exactly when PHP's `empty()` holds for it; a kept one stays text when it was text and is unchanged otherwise. |
| Cookies.NormalizeAttributes | tests/CookiesTest.php:386-466 | Keys stay distinct. Looking up any key after normalisation gives the normalised value of what it held before, or nothing when it held nothing or its value is dropped. |
| Cookies.Normalize | tests/CookiesTest.php:503-517 | Normalisation changes only the attributes: name, value, flags and reference time are kept. CookieProperties.NormalizeFixes and NormalizeIdempotent say when it changes nothing. |
| Cookies.Parse | tests/CookiesTest.php:386-501 | A parsed cookie has the default flags and the given reference time. Its name and value are trimmed, and its attribute keys are lower case and distinct. CookieProperties.ParseFormatRoundTrip is its inverse. |
| Cookies.IsExpired | tests/CookiesTest.php:469-490 | A cookie with neither `max-age` nor `expires` is never expired. An expired cookie holds one of them as an instant not after the reference time. CookieProperties.MaxAgeDecides and ExpiresDecides give the exact conditions. |
| Cookies.DomainMatches | tests/CookiesTest.php:210-256 | A cookie always matches its own domain. A valueless domain matches nothing. A host-only cookie, and any IP-like host, matches only an equal domain or a cookie without one. CookieProperties.DomainMatchesSpec states the rule in full. |
| Cookies.PathMatches | tests/CookiesTest.php:258-285 | A cookie matches its own path. When it matches, its path is a prefix of the request path, with the empty request path read as `/`. CookieProperties.PathMatchesSpec states the rule in full. |
| Cookies.UriMatches | tests/CookiesTest.php:288-384 | A uri-match implies domain-match and path-match, and https for a secure cookie. A cookie with no domain, no path and no `secure` matches every URI. |
| CookieProperties.HeaderCarriesNoAttribute | tests/CookiesTest.php:15-35 | `format_for_header` writes no attribute: for a name and value without `;`, the request-header form has no `;`. CookieProperties.ParseHeaderRoundTrip is its inverse. |
| CookieProperties.SetCookieExtendsHeader | tests/CookiesTest.php:15-35 | The Set-Cookie form begins with the request-header form, and equals it exactly when there are no attributes. CookieProperties.ParseFormatRoundTrip is its inverse. |
| CookieTestRows.BasicCookie | tests/CookiesTest.php:15-24 | A cookie built from a name and a value keeps both. Its string cast is the value. Both header forms are `requests-testcookie=testvalue`. |
| CookieProperties.ParseHeaderRoundTrip | tests/CookiesTest.php:15-24 | Parsing the request-header form of an attribute-less cookie gives back the same cookie, for any plain name and value. |
| CookieTestRows.CookieWithAttributes | tests/CookiesTest.php:26-35 | With a valueless `httponly` and `path=/`, the request-header form still has no attributes. The Set-Cookie form is `requests-testcookie=testvalue; httponly; path=/`: flags as `; key`, in insertion order. |
| CookieProperties.AttributesTextJoins | tests/CookiesTest.php:26-35 | A Set-Cookie line is the `;`-join of the name-value pair and one ` key[=value]` part per attribute, in dictionary order. |
| CookieProperties.SplitSetCookie | tests/CookiesTest.php:26-35 | Splitting a plain cookie's Set-Cookie line at `;` gives back exactly the name-value pair and one part per attribute. |
| CookieProperties.ParseAttributesOf | tests/CookiesTest.php:26-35 | Parsing the attribute parts of a Set-Cookie line rebuilds the attribute dictionary: keys, values, flags and order. |
| CookieProperties.ParseFormatRoundTrip | tests/CookiesTest.php:26-35 | Parsing the Set-Cookie form of a plain cookie gives back the same cookie. |
| CookieProperties.ParseWithoutName | tests/CookiesTest.php:37-41 | A header whose first fragment has no `=` parses to the empty name and the trimmed fragment as value. |
| CookieTestRows.EmptyCookieName | tests/CookiesTest.php:37-41 | `test` parses to name `''` and value `test`. |
| CookieProperties.ValuelessAttributeIsFlag | tests/CookiesTest.php:43-46 | An attribute without `=` is stored as `true` under its trimmed, lower-cased key, unless that key is one normalisation rewrites. |
| CookieTestRows.EmptyAttributes | tests/CookiesTest.php:43-46 | `foo=bar; HttpOnly` stores `true` under `httponly`. |
| CookieJar.Set | tests/CookiesTest.php:48-58 | A keyless assignment fails with the dictionary error, and a keyed one never fails. Afterwards the name reads back as the assigned entry, every other name reads as before, and the keys stay distinct. |
| CookieJar.SetterMatchesConstructor | tests/CookiesTest.php:48-58 | Filling an empty jar key by key gives the jar constructed from the same array, for every array. |
| CookieJar.Get | tests/CookiesTest.php:60-69 | Lookup is empty exactly when no entry has the name. Otherwise it returns an entry stored under the name. |
| CookieJar.Has | tests/CookiesTest.php:60-69 | `isset` holds exactly when lookup is non-empty. |
| CookieJar.Unset | tests/CookiesTest.php:60-69 | After unset, the name reads as empty and `isset` is false, and every other name reads as before. The entries are those of the jar with the name's entry deleted, the rest in their order. An absent name leaves the jar unchanged. |
| OrderedDict.RemoveKeepsOrder | tests/CookiesTest.php:60-69 | Unsetting a key deletes exactly its entry and keeps the other entries in order. Unsetting an absent key changes nothing. |
| CookieJar.UnsetForgets | tests/CookiesTest.php:60-69 | Assigning then unsetting a name leaves it empty and not set, whatever the jar held. |
| CookieJar.KeylessAppendFails | tests/CookiesTest.php:71-76 | `$jar[] = …` fails with the message `Object is a dictionary, not a list`. |
| CookieJar.New | tests/CookiesTest.php:78-88 | A constructed jar has distinct keys, and every entry it holds comes from the given array. |
| CookieJar.Items | tests/CookiesTest.php:78-88 | Iteration yields one pair per entry, with distinct names. Each pair's entry is what lookup returns for its name. |
| CookieJar.IterationYieldsPairs | tests/CookiesTest.php:78-88 | Iterating a jar built from an array with distinct names yields exactly that array, in order. |
| CookieProperties.DomainMatchesSpec | tests/CookiesTest.php:210-256 | For a cookie with domain `d`, domain-match holds iff the host equals `d`, or the cookie is not host-only, the host is `p.d` for some `p`, and the host does not look like an IP address. |
| CookieProperties.DomainSuffixShape | tests/CookiesTest.php:229-230 | The suffix test is a full-label test: the host is `d` behind one more label and a dot, never a bare string suffix. |
| CookieProperties.HostOnlyMatchesOnlyItself | tests/CookiesTest.php:238-246 | A host-only cookie domain-matches exactly its own domain. |
| CookieProperties.SuffixNeedsLabelBoundary | tests/CookiesTest.php:220-222 | A host that is the domain behind text not ending in `.` never matches, in either mode. |
| CookieProperties.IpHostMatchesOnlyExactly | tests/CookiesTest.php:224-227 | A host that looks like an IP address matches only a cookie domain equal to it. This covers a bare dotted quad and one behind further labels. |
| CookieProperties.BareDottedQuad | tests/CookiesTest.php:224-227 | Four labels of one to three digits and nothing else look like an IP address. |
| CookieProperties.BareQuadNotSuffixMatched | tests/CookiesTest.php:224-227 | `1.2.3.4` does not match a cookie for `2.3.4`, even one that is not host-only. |
| CookieProperties.DottedQuad | tests/CookiesTest.php:224-227 | A host ending in four dot-separated labels of one to three digits, behind another label, looks like an IP address. |
| CookieProperties.LeadingDotIgnored | tests/CookiesTest.php:216-218 | A domain given with one leading dot is stored without it and matches exactly the hosts the undotted domain matches. |
| CookieProperties.DomainStored | tests/CookiesTest.php:238-256 | The constructor stores a non-empty domain with one leading dot removed, and keeps name, value and reference time. The flags it stores are the defaults overridden by those given. |
| CookieProperties.ValuelessDomainMatchesNothing | tests/CookiesTest.php:210-256 | A `domain` given without a value is not dropped as an empty domain. It is kept as `true`, and the cookie matches no host. |
| CookieProperties.NoDomainMatchesEveryHost | tests/CookiesTest.php:371-384 | A cookie without a domain domain-matches every host. |
| CookieTestRows.DomainTable | tests/CookiesTest.php:210-256 | Every row of the domain table, for the default (host-only) cookie and with host-only cleared. |
| CookieTestRows.ExampleComRows | tests/CookiesTest.php:211-222 | `example.com` matches itself, matches `www.example.com` exactly when not host-only, and never matches `example.net`, `notexample.com` or `notexample.net`. |
| CookieTestRows.DomainTableDotted | tests/CookiesTest.php:215-218 | `.example.com` behaves as `example.com` on its three rows. |
| CookieTestRows.IpAddressRows | tests/CookiesTest.php:224-227 | `127.0.0.1` matches itself and neither `abc.127.0.0.1` nor `example.com`, in both modes. |
| CookieTestRows.LengthIsCheckedRow | tests/CookiesTest.php:229-230 | `127.com` matches `test.127.com` exactly when not host-only. |
| CookieProperties.PathMatchesSpec | tests/CookiesTest.php:258-285 | For a cookie path `p`, path-match holds iff either `p` ends in `/` and prefixes the request path, or the request path is `p` or begins with `p/`. The empty request path counts as `/`. |
| CookieProperties.EmptyPathIsRoot | tests/CookiesTest.php:260 | Cookie path `/` matches the empty request path. |
| CookieTestRows.PathTable | tests/CookiesTest.php:258-285 | Every row of the path table for constructed cookies. |
| CookieTestRows.TestPathRows | tests/CookiesTest.php:264-269 | `/test` matches `/test`, `/test/`, `/test/ing` and `/test/ing/`, but not `/` or `/testing`. |
| CookieProperties.UriMatchesSpec | tests/CookiesTest.php:288-361 | For a cookie with domain `d` and path `p`, uri-match holds iff three things hold. The host is `d`, or the cookie is not host-only and the host is `q.d` for some `q` and is no IP address. The request path is `p`, or has `p` as a prefix when `p` ends in `/`, or starts with `p/`. A secure cookie also needs scheme https. |
| CookieProperties.SecureNeedsHttps | tests/CookiesTest.php:346-361 | A secure cookie never uri-matches a non-https origin. |
| CookieTestRows.UriTable | tests/CookiesTest.php:288-344 | Every row of the uri table, host-only and not. |
| CookieTestRows.UriTestRows | tests/CookiesTest.php:296-307 | The `/test` rows: the root path misses, `/test` and `/test/` match, and `/testing` misses, for both hosts. |
| CookieTestRows.SecureRows | tests/CookiesTest.php:346-361 | The secure `example.com` cookie that is not host-only matches https at `example.com` and `www.example.com`, and matches http at neither. |
| CookieProperties.GlobalCookieMatchesEverything | tests/CookiesTest.php:371-384 | A cookie constructed without attributes uri-matches every origin. |
| CookieTestRows.ManuallySetRows | tests/CookiesTest.php:371-384 | The manual cookie matches the listed hosts, paths and URIs. |
| CookieParseRows.NameAndValue | tests/CookiesTest.php:389-392 | `foo=bar` parses to name `foo` and value `bar`, before and after a second normalisation. |
| CookieParseRows.ValueOnly | tests/CookiesTest.php:393-396 | `bar` parses to name `''` and value `bar`, before and after a second normalisation. |
| HttpDate.ParseHttpDate | tests/CookiesTest.php:398-437 | A date that parses is the epoch instant of a valid calendar date and time. |
| HttpDate.Rfc1123RoundTrip | tests/CookiesTest.php:400-409 | The RFC 1123 reader inverts its formatter, with `-` or space separators, for every printable date. |
| HttpDate.Rfc850RoundTrip | tests/CookiesTest.php:411-420 | The RFC 850 reader inverts its formatter for every printable date. |
| HttpDate.AsctimeRoundTrip | tests/CookiesTest.php:422-431 | The asctime reader inverts its formatter, including the space-padded day, for every printable date. |
| HttpDate.FormsAgree | tests/CookiesTest.php:398-431 | The same wall-clock time written in any of the three forms reads as the same instant. |
| HttpDate.DaysBeforeYearAgrees | tests/CookiesTest.php:403 | The closed-form day count before a year equals counting year lengths one by one from 1970, so `gmmktime` is read correctly. |
| HttpDate.DaysBeforeMonthAgrees | tests/CookiesTest.php:403 | The table of days before a month equals summing month lengths. |
| HttpDate.NoDayNameNoDate | tests/CookiesTest.php:432-437 | Text that starts with a word that is no day name is no date. |
| CookieProperties.ExpiresDecides | tests/CookiesTest.php:398-431 | An `expires` text that reads as instant `t` is stored as `t`. Without `max-age`, the cookie is expired iff `t <=` the reference time. |
| CookieProperties.ExpiresInAnyForm | tests/CookiesTest.php:398-431 | For a date written in any of the three forms, expiry is decided by its instant alone. |
| CookieProperties.BadExpiresDropped | tests/CookiesTest.php:432-437 | An `expires` text that is no date is dropped, and the cookie is not expired. |
| CookieProperties.MaxAgeDecides | tests/CookiesTest.php:439-459 | `max-age` written as integer `n` is stored as the reference time plus `n`, or 0 when `n <= 0`. The cookie is expired iff `n <= 0`. |
| CookieProperties.BadMaxAgeDropped | tests/CookiesTest.php:460-465 | A `max-age` that is no integer is dropped, and without `expires` the cookie is not expired. |
| Strings.IntRoundTrip | tests/CookiesTest.php:439-459 | Reading back the decimal text of any integer, negative ones included, gives the integer. |
| CookieParseRows.ExpiresRow | tests/CookiesTest.php:398-431 | `foo=bar; Expires=<date>` keeps name and value, stores the date's instant, and is expired iff that instant is not after 2014-01-01. |
| CookieParseRows.BadExpiresRow | tests/CookiesTest.php:432-437 | `foo=bar; Expires=<text>` with a non-date stores no expiry and is not expired. |
| CookieParseRows.MaxAgeRow | tests/CookiesTest.php:439-459 | `foo=bar; Max-Age=<n>` stores 2014-01-01 plus `n`, or 0, and is expired iff `n <= 0`. |
| CookieParseRows.BadMaxAgeRow | tests/CookiesTest.php:460-465 | `foo=bar; Max-Age=<text>` with a non-integer stores no max-age and is not expired. |
| CookieParseRows.ExpiresLineBoth | tests/CookiesTest.php:494-517 | For an `Expires` line, the stored instant and the expiry verdict are the same after parsing and after a second normalisation. |
| CookieParseRows.MaxAgeLineBoth | tests/CookiesTest.php:494-517 | For a `Max-Age` line, the stored instant and the expiry verdict are the same after parsing and after a second normalisation. |
| CookieParseRows.Rfc1123Expired | tests/CookiesTest.php:400-404 | `Thu, 5-Dec-2013 04:50:12 GMT` is stored as `gmmktime(4, 50, 12, 12, 5, 2013)` and is expired, once or twice normalised. |
| CookieParseRows.Rfc1123Live | tests/CookiesTest.php:405-409 | `Fri, 5-Dec-2014 04:50:12 GMT` is stored as its instant and is not expired, once or twice normalised. |
| CookieParseRows.Rfc850Expired | tests/CookiesTest.php:411-415 | `Thursday, 5-Dec-2013 04:50:12 GMT` is stored as its instant and is expired, once or twice normalised. |
| CookieParseRows.Rfc850Live | tests/CookiesTest.php:416-420 | `Friday, 5-Dec-2014 04:50:12 GMT` is stored as its instant and is not expired, once or twice normalised. |
| CookieParseRows.AsctimeExpired | tests/CookiesTest.php:422-426 | `Thu Dec  5 04:50:12 2013` is stored as its instant and is expired, once or twice normalised. |
| CookieParseRows.AsctimeLive | tests/CookiesTest.php:427-431 | `Fri Dec  5 04:50:12 2014` is stored as its instant and is not expired, once or twice normalised. |
| CookieParseRows.NeverExpires | tests/CookiesTest.php:432-437 | `Expires=never` stores no expiry and is not expired, once or twice normalised. |
| CookieParseRows.MaxAgeTen | tests/CookiesTest.php:440-444 | `Max-Age=10` stores `gmmktime(0, 0, 10, 1, 1, 2014)` and is not expired. |
| CookieParseRows.MaxAgeHourAndMinute | tests/CookiesTest.php:445-449 | `Max-Age=3660` stores `gmmktime(1, 1, 0, 1, 1, 2014)` and is not expired. |
| CookieParseRows.MaxAgeZero | tests/CookiesTest.php:450-454 | `Max-Age=0` stores 0 and is expired. |
| CookieParseRows.MaxAgeNegative | tests/CookiesTest.php:455-459 | `Max-Age=-1000` stores 0 and is expired. |
| CookieParseRows.MaxAgeExponent | tests/CookiesTest.php:460-465 | `Max-Age=1e6` stores no max-age and is not expired. |
| CookieParseRows.InstantsAreGmmktime | tests/CookiesTest.php:403-408 | The two expiry instants are the epoch seconds of 2013-12-05 and 2014-12-05 04:50:12 UTC. |
| CookieTestRows.ReferenceTimeIsNewYear2014 | tests/CookiesTest.php:495-496 | The reference time is the epoch second of 2014-01-01 00:00:00 UTC. |
| CookieProperties.NormalizeTwiceKeepsObservations | tests/CookiesTest.php:507-517 | A second normalisation keeps name, value, flags and the expiry verdict of any cookie. |
| CookieProperties.NormalizeTwiceKeepsAttribute | tests/CookiesTest.php:507-517 | A second normalisation keeps every attribute other than `domain`. |
| CookieParseRows.ParseNormalisedAgain | tests/CookiesTest.php:507-517 | For every header: normalising the parsed cookie again keeps its name, value, expiry verdict and every attribute other than `domain`. |
| CookieProperties.NormalizeIdempotent | tests/CookiesTest.php:507-517 | Normalisation is idempotent on cookies whose domain values settle in one step. |
| CookieProperties.NormalizeTwiceStripsTwoDots | tests/CookiesTest.php:507-517 | `..example.com` shows the side condition is needed: one normalisation leaves `.example.com`, which does not match `example.com`, and a second gives `example.com`, which does. |
| CookieProperties.NormalizeFixes | tests/CookiesTest.php:507-517 | Attributes that each normalise to themselves are left unchanged as a whole. |
| Extraction.HeaderObjectMatchesParse | tests/CookiesTest.php:519-534 | Without an origin, one header gives exactly one cookie. It agrees with `parse` on name, value, attributes and expiry. |
| Extraction.WithoutOriginKeepsParse | tests/CookiesTest.php:519-534 | Without an origin, extraction keeps the parsed attributes and only clears host-only. |
| Extraction.DefaultPath | tests/CookiesTest.php:538-573 | The default path starts with `/`. It is `/` or the text before the request path's last `/`. |
| Extraction.DefaultPathAt | tests/CookiesTest.php:538-573 | For a path starting with `/` whose last `/` is at `i`, the default path is `/` when `i` is 0 and the first `i` characters otherwise. |
| Extraction.DefaultPathMatchesRequest | tests/CookiesTest.php:538-573 | A cookie with the default path of a request path path-matches that request path. |
| Extraction.FillDomain | tests/CookiesTest.php:538-573 | Without a usable domain and with an origin, the domain becomes the origin host and the cookie host-only. Otherwise the attributes are unchanged and host-only is cleared. No other attribute changes. |
| Extraction.FillPath | tests/CookiesTest.php:575-612 | With an origin, a path that is absent or does not start with `/` becomes the origin's default path. Otherwise the cookie is unchanged. No other attribute changes. |
| Extraction.ApplyOrigin | tests/CookiesTest.php:649-666 | Without an origin a cookie is always kept. With one, a kept cookie domain-matches the origin host and has a path starting with `/`. Name, value and reference time are kept. |
| Extraction.ParseFromHeaders | tests/CookiesTest.php:649-666 | The result is keyed by cookie name with distinct keys, has at most one cookie per header, and with an origin holds only cookies that domain-match its host. |
| Extraction.ParseFromHeadersKeepsLast | tests/CookiesTest.php:649-666 | Looking a name up in the result gives the last accepted cookie of that name. |
| Extraction.MissingDomainIsHostOnly | tests/CookiesTest.php:538-573 | A cookie without a domain, or with an empty one, is always kept from an origin, as a host-only cookie for the origin host. |
| Extraction.ValidPathKept | tests/CookiesTest.php:575-596 | A path starting with `/` is kept. |
| Extraction.InvalidPathReplaced | tests/CookiesTest.php:598-612 | A path not starting with `/` is replaced by the origin's default path. |
| Extraction.DeclaredDomainChecked | tests/CookiesTest.php:614-642 | A declared domain `d` is kept iff the origin host is `d`, or is `d` behind a label and does not look like an IP address. A kept cookie is not host-only and keeps `d`. |
| Extraction.CrossOriginRejected | tests/CookiesTest.php:614-619 | A declared domain that is neither the origin host nor a parent of it rejects the cookie. |
| Extraction.ValuelessDomainRejected | tests/CookiesTest.php:614-642 | A cookie whose `domain` has no value counts as a declared domain, not an empty one. From any origin it is rejected, never made host-only. |
| CookieOriginRows.BareHeaderFromOrigin | tests/CookiesTest.php:538-573 | `name=value` from any origin gives one host-only cookie for the origin host, with the origin's default path. |
| CookieOriginRows.VaryingOriginPath | tests/CookiesTest.php:538-573 | The five rows: `/`, `/test`, `/test/`, `/test/abc` and `/test/abc/` give paths `/`, `/`, `/test`, `/test` and `/test/abc`, all host-only. |
| CookieOriginRows.DefaultPaths | tests/CookiesTest.php:538-573 | The default paths of the five request paths of the provider. |
| CookieOriginRows.PathHeaderFromOrigin | tests/CookiesTest.php:575-612 | `name=value; path=v` from any origin gives one host-only cookie. Its path is `v` when `v` starts with `/`, and the origin's default path otherwise. |
| CookieOriginRows.SpecifiedPath | tests/CookiesTest.php:575-596 | The three explicit-path rows. |
| CookieOriginRows.InvalidPath | tests/CookiesTest.php:598-612 | The two `path=yolo` rows. |
| CookieOriginRows.DomainHeaderFromOrigin | tests/CookiesTest.php:614-642 | `name=value; domain=d` from any origin gives at most one cookie. It gives one iff the origin host domain-matches `d` as a cookie that is not host-only. The kept cookie is not host-only. |
| CookieOriginRows.CrossOriginRow | tests/CookiesTest.php:614-619 | `domain=example.org` from `example.com` yields no cookie. |
| CookieOriginRows.EmptyDomainFromOrigin | tests/CookiesTest.php:621-626 | `name=value; domain=` from any origin yields one host-only cookie for the origin host. |
| CookieOriginRows.EmptyDomainRow | tests/CookiesTest.php:621-626 | The empty-domain row yields one cookie. |
| CookieOriginRows.SameHostDomainRow | tests/CookiesTest.php:628-635 | `domain=test.example.com` from `test.example.com` is kept with that domain, not host-only. |
| CookieOriginRows.ParentDomainRow | tests/CookiesTest.php:636-642 | `domain=example.com` from `test.example.com` is kept with that domain, not host-only. |

## Left out

- The network tests and their helper (tests/CookiesTest.php:90-208). They need an HTTP transport, redirects, JSON decoding and the wall clock. Building a jar from a list of `Cookie` objects is exercised only there, so it is left out too.
- `Requests::before_request` cookie injection, and the jar's conversion of raw entries into cookies when a request is sent. Neither is exercised outside the network tests.
- `Iri` URL parsing: an origin is given as a record of scheme, host and path.
- `Headers` and `CaseInsensitiveDictionary` internals. The Set-Cookie values are a sequence of strings. Attribute keys are lower-cased by the parser; constructor keys are stored as given and looked up lower-cased by normalisation.
- The current time (`time()`): the reference time is always a parameter.
- The `creation-time`, `last-access-time` and `removed` flags, which no test reads. The name override of `Cookie::parse` is left out too; every test passes `null` for it.
- Numeric (positional) attribute keys such as PHP's `0 => 'httponly'`: the constructor row is written with the flag under its own key.
- HttpDate.ParseHttpDate: accepts only the three forms with `GMT` (asctime has no zone), and does not check that the weekday name fits the date. Other zones and looser date syntaxes are left out.
- Cookies.MaxAgeInstant: the sum of reference time and `n` uses unbounded integers. PHP's integer overflow to float for huge `Max-Age` values is not modelled.
- Cookies.IsExpired: uses `instant <= reference time`. No row pins the boundary second.
- Cookies.LooksLikeIpAddress: a host that is a dotted quad, or ends in one behind another label, with labels of one to three digits. Digit values above 255 are not rejected.
- CookieProperties.NormalizeIdempotent: requires that every domain value settle in one step. `..example.com` is the counterexample, shown by CookieProperties.NormalizeTwiceStripsTwoDots.
