/**
 * The URL allowlist check `is_valid_url` (app.py:54-64) and the part of
 * Python's `urllib.parse.urlsplit` it depends on: the scheme before the first
 * `:`, and the netloc that follows `//` up to the first `/`, `?` or `#`
 * (roughly the authority of section 3.2 of RFC 3986). The check strips the
 * port from the netloc but keeps any userinfo.
 */
module Url {
  import opened Wrappers
  import opened Text
  import opened Seqs
  import opened Domains

  const MAX_URL_LENGTH: nat := 500

  /** The `ValueError("Invalid IPv6 URL")` that `urlsplit` raises. */
  datatype UrlError = InvalidIPv6

  /** The fields of `urlsplit`'s result that the check reads; `rest` is path,
      query and fragment still joined. */
  datatype UrlParts = UrlParts(scheme: string, netloc: string, rest: string)

  /** The C0 controls and space, which `urlsplit` strips from the front. */
  predicate IsC0OrSpace(c: char) { c as int <= 0x20 }

  /** Tab, CR and LF, which `urlsplit` deletes wherever they occur. */
  predicate IsUnsafe(c: char) { c == '\t' || c == '\r' || c == '\n' }

  predicate IsSchemeChar(c: char) {
    IsAsciiAlpha(c) || IsAsciiDigit(c) || c == '+' || c == '-' || c == '.'
  }

  /** The characters that end a netloc. */
  predicate IsDelimiter(c: char) { c == '/' || c == '?' || c == '#' }

  function RemoveUnsafe(s: string): (r: string)
    ensures |r| <= |s|
    ensures forall i :: 0 <= i < |r| ==> !IsUnsafe(r[i])
    ensures (forall i :: 0 <= i < |s| ==> !IsUnsafe(s[i])) ==> r == s
  {
    if s == [] then []
    else (if IsUnsafe(s[0]) then [] else [s[0]]) + RemoveUnsafe(s[1..])
  }

  /** The text `urlsplit` actually parses. */
  function Clean(url: string): string {
    RemoveUnsafe(TrimLeft(url, IsC0OrSpace))
  }

  /** Index of the first `/`, `?` or `#` of `s`, or `|s|` when there is none. */
  function DelimiterIndex(s: string): (i: nat)
    ensures i <= |s|
    ensures i < |s| ==> IsDelimiter(s[i])
    ensures forall j :: 0 <= j < i ==> !IsDelimiter(s[j])
  {
    if s == [] || IsDelimiter(s[0]) then 0 else 1 + DelimiterIndex(s[1..])
  }

  /** `urlsplit` takes the text before the first `:` as the scheme only when it
      is non-empty, starts with an ASCII letter and has only scheme characters. */
  predicate HasScheme(c: string) {
    var i := IndexOf(c, ':');
    0 < i < |c| && IsAsciiAlpha(c[0]) && forall j :: 0 <= j < i ==> IsSchemeChar(c[j])
  }

  /** Scheme (lower-cased) and what follows its `:`; an empty scheme and the
      whole text when there is none. */
  function SplitScheme(c: string): (string, string) {
    if HasScheme(c) then
      var i := IndexOf(c, ':');
      (Lower(c[..i]), c[i + 1..])
    else ("", c)
  }

  /** `urlsplit(url)` as far as scheme and netloc go. */
  function Split(url: string): (r: Result<UrlParts, UrlError>)
    ensures r.Success? ==> ('[' in r.value.netloc) == (']' in r.value.netloc)
    ensures r.Success? ==> forall j :: 0 <= j < |r.value.netloc| ==> !IsDelimiter(r.value.netloc[j])
  {
    SplitText(Clean(url))
  }

  /** `urlsplit` on text already cleaned. */
  function SplitText(c: string): Result<UrlParts, UrlError> {
    var (scheme, after) := SplitScheme(c);
    if IsPrefixOf("//", after) then SplitNetloc(scheme, after[2..])
    else Success(UrlParts(scheme, "", after))
  }

  /** `_splitnetloc` and the bracket check, on the text after `//`. */
  function SplitNetloc(scheme: string, s: string): Result<UrlParts, UrlError> {
    var d := DelimiterIndex(s);
    var netloc := s[..d];
    if ('[' in netloc) != (']' in netloc) then Failure(InvalidIPv6)
    else Success(UrlParts(scheme, netloc, s[d..]))
  }

  /** `s.split(':')[0]`. */
  function BeforeColon(s: string): string {
    s[..IndexOf(s, ':')]
  }

  /** What `is_valid_url` compares: `netloc.split(':')[0].lower()`. */
  function Host(netloc: string): string {
    Lower(BeforeColon(netloc))
  }

  /** `host == domain or host.endswith('.' + domain)`. */
  predicate MatchesDomain(host: string, domain: string) {
    host == domain || EndsWith(host, "." + domain)
  }

  /** The `any(...)` over TRUSTED_DOMAINS. */
  predicate IsTrustedHost(host: string) {
    exists i :: 0 <= i < |SUPPORTED_DOMAINS| && MatchesDomain(host, SUPPORTED_DOMAINS[i])
  }

  predicate IsHttpScheme(scheme: string) {
    scheme == "http" || scheme == "https"
  }

  /** `is_valid_url` (app.py:54-64). A `Failure` is the `ValueError` that
      `urlparse` raises and `is_valid_url` lets escape. */
  function IsValidUrl(url: string): (r: Result<bool, UrlError>)
    ensures r == Success(true) ==> 0 < |url| <= MAX_URL_LENGTH && '\n' !in url && '\r' !in url
    ensures r.Failure? ==> Split(url).Failure?
    ensures url == [] || |url| > MAX_URL_LENGTH || '\n' in url || '\r' in url ==> r == Success(false)
  {
    if url == [] || |url| > MAX_URL_LENGTH then Success(false)
    else if '\n' in url || '\r' in url then Success(false)
    else match Split(url)
      case Failure(e) => Failure(e)
      case Success(p) =>
        if !IsHttpScheme(p.scheme) || p.netloc == [] then Success(false)
        else Success(IsTrustedHost(Host(p.netloc)))
  }

  /** `c` is `scheme://authority` followed by nothing or by a path, query or
      fragment, and the scheme is `http` or `https` in any letter case. */
  ghost predicate IsHttpUrlText(c: string, scheme: string, authority: string, rest: string) {
    && c == scheme + "://" + authority + rest
    && IsHttpScheme(Lower(scheme))
    && (forall j :: 0 <= j < |authority| ==> !IsDelimiter(authority[j]))
    && (rest == [] || IsDelimiter(rest[0]))
  }

  /** The netloc is everything after `//` up to the first delimiter. */
  lemma SplitNetlocShape(scheme: string, s: string)
    requires SplitNetloc(scheme, s).Success?
    ensures var p := SplitNetloc(scheme, s).value;
      && p.scheme == scheme && s == p.netloc + p.rest
      && (forall j :: 0 <= j < |p.netloc| ==> !IsDelimiter(p.netloc[j]))
      && (p.rest == [] || IsDelimiter(p.rest[0]))
  {
    var d := DelimiterIndex(s);
    assert s == s[..d] + s[d..];
  }

  /** A scheme that `urlsplit` found is the lower-cased text before the `:`. */
  lemma SchemeShape(c: string)
    requires HasScheme(c)
    ensures var (scheme, after) := SplitScheme(c);
      exists written :: c == written + ":" + after && Lower(written) == scheme
  {
    var i := IndexOf(c, ':');
    assert c == c[..i] + ":" + c[i + 1..] by {
      assert c == c[..i] + c[i..];
      assert c[i..] == [c[i]] + c[i + 1..];
    }
  }

  lemma ConcatUrl(written: string, after: string, netloc: string, rest: string)
    requires after == "//" + (netloc + rest)
    ensures written + ":" + after == written + "://" + netloc + rest
  {
  }

  /** The scheme field of the split is the one `SplitScheme` found. */
  lemma SplitTextScheme(c: string)
    requires SplitText(c).Success?
    ensures SplitText(c).value.scheme == SplitScheme(c).0
  {
  }

  /** An http(s) split with a netloc came from `scheme://netloc` followed by
      nothing or by a path, query or fragment. */
  lemma SplitShape(c: string)
    requires SplitText(c).Success?
    requires IsHttpScheme(SplitText(c).value.scheme) && SplitText(c).value.netloc != []
    ensures var p := SplitText(c).value;
      exists written :: IsHttpUrlText(c, written, p.netloc, p.rest) && Lower(written) == p.scheme
  {
    var (scheme, after) := SplitScheme(c);
    var p := SplitText(c).value;
    SplitTextScheme(c);
    assert HasScheme(c);
    assert IsPrefixOf("//", after);
    var tail := after[2..];
    assert SplitText(c) == SplitNetloc(scheme, tail);
    SplitNetlocShape(scheme, tail);
    SchemeShape(c);
    var written :| c == written + ":" + after && Lower(written) == scheme;
    assert after == "//" + tail;
    ConcatUrl(written, after, p.netloc, p.rest);
    assert IsHttpUrlText(c, written, p.netloc, p.rest);
  }

  /** Whatever `is_valid_url` accepts passed the length and line-break guards
      and reads `http(s)://authority...`, where the authority's text before its
      first `:`, lower-cased, is a trusted domain or a subdomain of one. */
  lemma AcceptedUrlShape(url: string)
    requires IsValidUrl(url) == Success(true)
    ensures 0 < |url| <= MAX_URL_LENGTH && '\n' !in url && '\r' !in url
    ensures exists scheme, authority, rest ::
      && IsHttpUrlText(Clean(url), scheme, authority, rest)
      && authority != []
      && IsTrustedHost(Host(authority))
  {
    var p := Split(url).value;
    SplitShape(Clean(url));
    var written :| IsHttpUrlText(Clean(url), written, p.netloc, p.rest);
  }

  /** Text already in the form `urlsplit` parses into scheme and netloc. */
  predicate IsComposable(scheme: string, netloc: string, rest: string) {
    && scheme != [] && IsAsciiAlpha(scheme[0])
    && (forall i :: 0 <= i < |scheme| ==> IsSchemeChar(scheme[i]))
    && (forall i :: 0 <= i < |netloc| ==> !IsDelimiter(netloc[i]) && !IsUnsafe(netloc[i]))
    && (forall i :: 0 <= i < |rest| ==> !IsUnsafe(rest[i]))
    && (rest == [] || IsDelimiter(rest[0]))
    && (('[' in netloc) <==> (']' in netloc))
  }

  lemma ComposedIsClean(scheme: string, netloc: string, rest: string)
    requires IsComposable(scheme, netloc, rest)
    ensures var url := scheme + "://" + netloc + rest;
      Clean(url) == url && '\n' !in url && '\r' !in url
  {
    var url := scheme + "://" + netloc + rest;
    var k := |scheme|;
    forall i | 0 <= i < |url| ensures !IsUnsafe(url[i]) {
      if i < k { assert url[i] == scheme[i]; }
      else if i < k + 3 { }
      else if i < k + 3 + |netloc| { assert url[i] == netloc[i - k - 3]; }
      else { assert url[i] == rest[i - k - 3 - |netloc|]; }
    }
    assert TrimLeft(url, IsC0OrSpace) == url by { assert url[0] == scheme[0]; }
  }

  lemma ComposedScheme(scheme: string, after: string)
    requires scheme != [] && IsAsciiAlpha(scheme[0])
    requires forall i :: 0 <= i < |scheme| ==> IsSchemeChar(scheme[i])
    ensures SplitScheme(scheme + ":" + after) == (Lower(scheme), after)
  {
    var c := scheme + ":" + after;
    var k := |scheme|;
    assert c[k] == ':';
    forall j | 0 <= j < k ensures c[j] == scheme[j] && c[j] != ':' {
      assert c[j] == scheme[j];
    }
    assert IndexOf(c, ':') == k;
    assert c[..k] == scheme;
    assert c[k + 1..] == after;
  }

  lemma ComposedNetloc(scheme: string, netloc: string, rest: string)
    requires forall i :: 0 <= i < |netloc| ==> !IsDelimiter(netloc[i])
    requires rest == [] || IsDelimiter(rest[0])
    requires ('[' in netloc) <==> (']' in netloc)
    ensures SplitNetloc(scheme, netloc + rest) == Success(UrlParts(scheme, netloc, rest))
  {
    var s := netloc + rest;
    var d := DelimiterIndex(s);
    forall j | 0 <= j < |netloc| ensures !IsDelimiter(s[j]) {
      assert s[j] == netloc[j];
    }
    if |netloc| < |s| { assert s[|netloc|] == rest[0]; }
    assert d == |netloc|;
    assert s[..d] == netloc && s[d..] == rest;
  }

  /** `urlsplit` takes `scheme://netloc rest` apart again: the partner of
      `Split`, with the scheme lower-cased. */
  lemma SplitComposed(scheme: string, netloc: string, rest: string)
    requires IsComposable(scheme, netloc, rest)
    ensures Split(scheme + "://" + netloc + rest) == Success(UrlParts(Lower(scheme), netloc, rest))
  {
    var url := scheme + "://" + netloc + rest;
    ComposedIsClean(scheme, netloc, rest);
    var after := "//" + (netloc + rest);
    ConcatUrl(scheme, after, netloc, rest);
    ComposedScheme(scheme, after);
    assert after[..2] == "//" && after[2..] == netloc + rest;
    ComposedNetloc(Lower(scheme), netloc, rest);
    assert SplitText(url) == SplitNetloc(Lower(scheme), netloc + rest);
  }

  /** An http(s) URL of composable form within the length guard is accepted
      exactly when its host is trusted. */
  lemma ComposedVerdict(scheme: string, netloc: string, rest: string)
    requires IsComposable(scheme, netloc, rest)
    requires IsHttpScheme(Lower(scheme)) && netloc != []
    requires |scheme| + 3 + |netloc| + |rest| <= MAX_URL_LENGTH
    ensures IsValidUrl(scheme + "://" + netloc + rest) == Success(IsTrustedHost(Host(netloc)))
  {
    SplitComposed(scheme, netloc, rest);
    ComposedIsClean(scheme, netloc, rest);
  }

  /** The part of `s` after its last `@`: the host and port of an authority
      (section 3.2.1 of RFC 3986 puts the userinfo before the `@`). */
  function AfterLastAt(s: string): (r: string)
    ensures |r| <= |s| && r == s[|s| - |r|..]
    ensures '@' !in r
    ensures |r| < |s| ==> s[|s| - |r| - 1] == '@'
  {
    if s == [] then []
    else if s[|s| - 1] == '@' then []
    else AfterLastAt(s[..|s| - 1]) + [s[|s| - 1]]
  }

  /** The host an HTTP client connects to for this netloc: userinfo and port
      removed, lower-cased. */
  function RequestHost(netloc: string): string {
    Lower(BeforeColon(AfterLastAt(netloc)))
  }

  /** `is_valid_url` with the host taken after the userinfo, and a bracketed
      IP literal never trusted. */
  function IsValidUrlByHost(url: string): (r: Result<bool, UrlError>)
    ensures r == Success(true) ==> 0 < |url| <= MAX_URL_LENGTH && '\n' !in url && '\r' !in url
    ensures r.Failure? ==> Split(url).Failure?
    ensures url == [] || |url| > MAX_URL_LENGTH || '\n' in url || '\r' in url ==> r == Success(false)
  {
    if url == [] || |url| > MAX_URL_LENGTH then Success(false)
    else if '\n' in url || '\r' in url then Success(false)
    else match Split(url)
      case Failure(e) => Failure(e)
      case Success(p) =>
        if !IsHttpScheme(p.scheme) || p.netloc == [] then Success(false)
        else
          var host := RequestHost(p.netloc);
          Success('[' !in host && IsTrustedHost(host))
  }

  /** Whatever the corrected check accepts reads `http(s)://authority...`
      where the host a client would connect to is a trusted domain or a
      subdomain of one. */
  lemma AcceptedByHostShape(url: string)
    requires IsValidUrlByHost(url) == Success(true)
    ensures 0 < |url| <= MAX_URL_LENGTH && '\n' !in url && '\r' !in url
    ensures exists scheme, authority, rest ::
      && IsHttpUrlText(Clean(url), scheme, authority, rest)
      && authority != []
      && IsTrustedHost(RequestHost(authority))
  {
    var p := Split(url).value;
    SplitShape(Clean(url));
    var written :| IsHttpUrlText(Clean(url), written, p.netloc, p.rest);
  }

  lemma LowerKeepsBracket(s: string)
    requires '[' !in s
    ensures '[' !in Lower(s)
  {
    forall j | 0 <= j < |s| ensures Lower(s)[j] != '[' {
      assert s[j] != '[';
    }
  }

  /** Without userinfo and without brackets in the netloc, the corrected
      check gives the same verdict as the original. */
  lemma ByHostAgreesWithoutUserinfo(url: string)
    requires Split(url).Success?
    requires '@' !in Split(url).value.netloc && '[' !in Split(url).value.netloc
    ensures IsValidUrlByHost(url) == IsValidUrl(url)
  {
    var p := Split(url).value;
    PlainNetlocHost(p.netloc);
    if url != [] && |url| <= MAX_URL_LENGTH && '\n' !in url && '\r' !in url
       && IsHttpScheme(p.scheme) && p.netloc != [] {
      assert IsValidUrl(url) == Success(IsTrustedHost(Host(p.netloc)));
      assert IsValidUrlByHost(url)
        == Success('[' !in RequestHost(p.netloc) && IsTrustedHost(RequestHost(p.netloc)));
    }
  }

  /** Without `@` and `[`, both checks read the same host, and it is no IP
      literal. */
  lemma PlainNetlocHost(netloc: string)
    requires '@' !in netloc && '[' !in netloc
    ensures RequestHost(netloc) == Host(netloc) && '[' !in Host(netloc)
  {
    NoAtAfterLastAt(netloc);
    var b := BeforeColon(netloc);
    assert '[' !in b by {
      forall j | 0 <= j < |b| ensures b[j] != '[' { assert b[j] == netloc[j]; }
    }
    LowerKeepsBracket(b);
  }

  /** A host name of lower-case ASCII letters, digits, dots and hyphens. */
  predicate IsPlainHostName(h: string) {
    forall j :: 0 <= j < |h| ==>
      'a' <= h[j] <= 'z' || IsAsciiDigit(h[j]) || h[j] == '.' || h[j] == '-'
  }

  lemma PlainHostChars(h: string)
    requires IsPlainHostName(h)
    ensures forall j :: 0 <= j < |h| ==> !IsDelimiter(h[j]) && !IsUnsafe(h[j])
    ensures '[' !in h && ']' !in h && '@' !in h && ':' !in h
  {
  }

  lemma PlainLower(h: string)
    requires IsPlainHostName(h)
    ensures Lower(h) == h
  {
    forall j | 0 <= j < |h| ensures Lower(h)[j] == h[j] {
      assert !IsAsciiUpper(h[j]);
    }
  }

  lemma NoColonBeforeColon(h: string)
    requires ':' !in h
    ensures BeforeColon(h) == h
  {
    assert IndexOf(h, ':') == |h|;
  }

  lemma NoAtAfterLastAt(h: string)
    requires '@' !in h
    ensures AfterLastAt(h) == h
  {
    var r := AfterLastAt(h);
    assert |r| == |h|;
  }

  /** The corrected check on a URL of composable form within the length
      guard: accepted exactly when the request host is trusted and not an IP
      literal. */
  lemma ComposedVerdictByHost(scheme: string, netloc: string, rest: string)
    requires IsComposable(scheme, netloc, rest)
    requires IsHttpScheme(Lower(scheme)) && netloc != []
    requires |scheme| + 3 + |netloc| + |rest| <= MAX_URL_LENGTH
    ensures IsValidUrlByHost(scheme + "://" + netloc + rest)
      == Success('[' !in RequestHost(netloc) && IsTrustedHost(RequestHost(netloc)))
  {
    SplitComposed(scheme, netloc, rest);
    ComposedIsClean(scheme, netloc, rest);
  }

  /** `d:pw@evil` is a netloc `urlsplit` passes through unchanged. */
  lemma UserinfoComposable(d: string, pw: string, evil: string)
    requires IsPlainHostName(d) && IsPlainHostName(pw) && IsPlainHostName(evil)
    ensures IsComposable("https", d + ":" + pw + "@" + evil, "/")
  {
    PlainHostChars(d);
    PlainHostChars(pw);
    PlainHostChars(evil);
    var netloc := d + ":" + pw + "@" + evil;
    var k := |d| + 1 + |pw| + 1;
    forall j | 0 <= j < |netloc|
      ensures !IsDelimiter(netloc[j]) && !IsUnsafe(netloc[j])
      ensures netloc[j] != '[' && netloc[j] != ']'
    {
      if j < |d| { assert netloc[j] == d[j]; }
      else if j == |d| { }
      else if j < k - 1 { assert netloc[j] == pw[j - |d| - 1]; }
      else if j == k - 1 { }
      else { assert netloc[j] == evil[j - k]; }
    }
    assert "https"[0] == 'h';
  }

  /** `is_valid_url` reads the text before the first `:`, which is `d`. */
  lemma UserinfoHost(d: string, pw: string, evil: string)
    requires IsPlainHostName(d)
    ensures Host(d + ":" + pw + "@" + evil) == d
  {
    PlainHostChars(d);
    PlainLower(d);
    var netloc := d + ":" + pw + "@" + evil;
    assert netloc[|d|] == ':';
    forall j | 0 <= j < |d| ensures netloc[j] != ':' { assert netloc[j] == d[j]; }
    assert IndexOf(netloc, ':') == |d|;
    assert netloc[..|d|] == d;
  }

  /** A client connects to the host after the `@`, which is `evil`. */
  lemma UserinfoRequestHost(d: string, pw: string, evil: string)
    requires IsPlainHostName(evil)
    ensures RequestHost(d + ":" + pw + "@" + evil) == evil
  {
    PlainHostChars(evil);
    AfterLastAtSuffix(d + ":" + pw, evil);
    NoColonBeforeColon(evil);
    PlainLower(evil);
  }

  /** The scheme `https` is already lower-case and is an HTTP scheme. */
  lemma HttpsIsHttp()
    ensures Lower("https") == "https" && IsHttpScheme(Lower("https"))
  {
    assert Lower("https") == "https";
  }

  /** The userinfo bypass: for every trusted plain domain `d`, any plain
      password `pw` and any plain host `evil`, `https://d:pw@evil/` is
      accepted, although the host a client connects to is `evil`; the
      corrected check judges `evil` itself. */
  lemma UserinfoBypass(d: string, pw: string, evil: string)
    requires IsPlainHostName(d) && IsPlainHostName(pw) && IsPlainHostName(evil)
    requires IsTrustedHost(d)
    requires |d| + |pw| + |evil| <= 400
    ensures var netloc := d + ":" + pw + "@" + evil;
      && IsValidUrl("https" + "://" + netloc + "/") == Success(true)
      && RequestHost(netloc) == evil
      && IsValidUrlByHost("https" + "://" + netloc + "/") == Success(IsTrustedHost(evil))
  {
    var netloc := d + ":" + pw + "@" + evil;
    UserinfoComposable(d, pw, evil);
    UserinfoHost(d, pw, evil);
    UserinfoRequestHost(d, pw, evil);
    PlainHostChars(evil);
    HttpsIsHttp();
    ComposedVerdict("https", netloc, "/");
    ComposedVerdictByHost("https", netloc, "/");
  }

  lemma {:induction false} AfterLastAtSuffix(p: string, h: string)
    requires '@' !in h
    ensures AfterLastAt(p + "@" + h) == h
    decreases |h|
  {
    var s := p + "@" + h;
    if h == [] {
      assert s[|s| - 1] == '@';
    } else {
      var init := h[..|h| - 1];
      assert s[..|s| - 1] == p + "@" + init;
      AfterLastAtSuffix(p, init);
      assert init + [h[|h| - 1]] == h;
    }
  }

  lemma EvilUntrusted()
    ensures !IsTrustedHost("evil.com")
  {
    forall i | 0 <= i < |SUPPORTED_DOMAINS| ensures !MatchesDomain("evil.com", SUPPORTED_DOMAINS[i]) {
    }
  }

  /** The concrete input: `https://food.com:x@evil.com/` passes `is_valid_url`
      while a client would fetch from `evil.com`, which the corrected check
      refuses. */
  lemma UserinfoBypassExample()
    ensures IsValidUrl("https://food.com:x@evil.com/") == Success(true)
    ensures RequestHost("food.com:x@evil.com") == "evil.com"
    ensures IsValidUrlByHost("https://food.com:x@evil.com/") == Success(false)
  {
    ExampleHostsPlain();
    FoodTrusted();
    EvilUntrusted();
    UserinfoBypass("food.com", "x", "evil.com");
    ExampleUrlText();
  }

  lemma ExampleHostsPlain()
    ensures IsPlainHostName("food.com") && IsPlainHostName("x") && IsPlainHostName("evil.com")
  {
  }

  lemma FoodTrusted()
    ensures IsTrustedHost("food.com")
  {
    assert MatchesDomain("food.com", SUPPORTED_DOMAINS[11]);
  }

  /** The example URL and netloc are the concatenations `UserinfoBypass`
      speaks of. */
  lemma ExampleUrlText()
    ensures "food.com" + ":" + "x" + "@" + "evil.com" == "food.com:x@evil.com"
    ensures "https" + "://" + "food.com:x@evil.com" + "/" == "https://food.com:x@evil.com/"
  {
  }
}
