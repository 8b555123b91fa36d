// Which cookie belongs where: host and path matching, default paths, and the parsing of
// one Set-Cookie value (RFC 6265, sections 5.1.3, 5.1.4, 5.2 and 5.3).
module CookieRules {
  import opened Wrappers
  import opened Text

  // What the code takes from its surroundings: address parsing, the Public Suffix List
  // and date parsing.
  datatype Env = Env(
    isIp: string -> bool,
    registrable: string -> Option<string>,
    httpDate: string -> Option<int>)

  datatype Uri = Uri(scheme: Option<string>, host: Option<string>, path: string)

  datatype Cookie = Cookie(
    name: string,
    value: string,
    domain: string,
    hostOnly: bool,
    path: string,
    secure: bool)

  // Lowercase, without brackets around it and without dots at its end.
  function CanonicalHost(host: string): string {
    ToLower(TrimEnd(Unbracketed(host), IsDot))
  }

  lemma LowerExactly(c: char)
    ensures if 'A' <= c <= 'Z' then Lower(c) as int == c as int + 32 else Lower(c) == c
  {
  }

  // The canonical form of a host: brackets off, dots off its end, letters lowered.
  lemma CanonicalText(bare: string, dots: string)
    requires (bare == "" || bare[|bare| - 1] != '.') && Only(dots, '.')
    ensures CanonicalHost("[" + bare + dots + "]") == ToLower(bare)
    ensures !(bare != "" && bare[0] == '[' && dots == "" && bare[|bare| - 1] == ']') ==>
      CanonicalHost(bare + dots) == ToLower(bare)
  {
    var host := bare + dots;
    var bracketed := "[" + bare + dots + "]";
    assert bracketed[1..|bracketed| - 1] == host;
    TrimEndAll(bare, dots, IsDot);
    if dots != "" {
      assert host[|host| - 1] == '.';
    } else {
      assert host == bare;
    }
    hide ToLower, TrimEnd;
  }

  // The documented form: a single dot stripped.
  function DocumentedHost(host: string): string {
    ToLower(OneDotOff(Unbracketed(host)))
  }

  function OneDotOff(s: string): string {
    if s != [] && IsDot(s[|s| - 1]) then s[..|s| - 1] else s
  }

  lemma TrimmedDots(s: string)
    ensures if EndsWith(s, "..") then |TrimEnd(s, IsDot)| < |OneDotOff(s)| else TrimEnd(s, IsDot) == OneDotOff(s)
  {
    if s != [] && IsDot(s[|s| - 1]) {
      var t := s[..|s| - 1];
      assert EndsWith(s, "..") <==> t != [] && IsDot(t[|t| - 1]) by {
        TwoDots(s);
      }
      assert TrimEnd(s, IsDot) == TrimEnd(t, IsDot);
    }
  }

  lemma TwoDots(s: string)
    ensures EndsWith(s, "..") <==> |s| > 1 && IsDot(s[|s| - 1]) && IsDot(s[|s| - 2])
  {
    if |s| > 1 {
      assert s[|s| - 2..] == [s[|s| - 2], s[|s| - 1]];
    }
  }

  // The two differ exactly on hosts that end in two dots.
  lemma TrailingDots(host: string)
    ensures CanonicalHost(host) == DocumentedHost(host) <==> !EndsWith(Unbracketed(host), "..")
  {
    hide ToLower, TrimEnd, OneDotOff, Unbracketed, EndsWith;
    TrimmedDots(Unbracketed(host));
  }

  lemma TrailingDotsExample()
    ensures CanonicalHost("a..") == "a" && DocumentedHost("a..") == "a."
  {
    assert "a.."[..2] == "a." && "a."[..1] == "a";
  }

  // ---- matching ----

  predicate DomainMatches(env: Env, host: string, domain: string) {
    host == domain ||
    (!env.isIp(host) && |host| > |domain| && EndsWith(host, domain) && host[|host| - |domain| - 1] == '.')
  }

  predicate PathMatches(requestPath: string, cookiePath: string) {
    requestPath == cookiePath ||
    (StartsWith(requestPath, cookiePath) &&
     ((cookiePath != [] && cookiePath[|cookiePath| - 1] == '/') || requestPath[|cookiePath|] == '/'))
  }

  function LastSlash(s: string): (i: Option<nat>)
    ensures i.Some? ==> i.value < |s| && s[i.value] == '/' && '/' !in s[i.value + 1..]
    ensures i.None? ==> '/' !in s
  {
    if s == [] then None
    else if s[|s| - 1] == '/' then Some(|s| - 1)
    else
      assert s == s[..|s| - 1] + [s[|s| - 1]];
      LastSlash(s[..|s| - 1])
  }

  function DefaultPath(requestPath: string): string {
    if !StartsWith(requestPath, "/") then "/"
    else match LastSlash(requestPath)
      case None => "/"
      case Some(i) => if i == 0 then "/" else requestPath[..i]
  }

  // Both kinds of matching are reflexive and transitive.
  lemma DomainMatchesOrder(env: Env, a: string, b: string, c: string)
    requires DomainMatches(env, a, b) && DomainMatches(env, b, c)
    ensures DomainMatches(env, a, a) && DomainMatches(env, a, c)
  {
    if a != b && b != c {
      assert b == a[|a| - |b|..];
      assert a[|a| - |c|..] == b[|b| - |c|..];
      assert a[|a| - |c| - 1] == b[|b| - |c| - 1];
    }
  }

  lemma PathMatchesOrder(a: string, b: string, c: string)
    requires PathMatches(a, b) && PathMatches(b, c)
    ensures PathMatches(a, a) && PathMatches(a, c)
  {
    if a != b && b != c {
      assert c == b[..|c|] && b == a[..|b|];
      assert a[..|c|] == c && a[|c|] == b[|c|];
    }
  }

  // The default path of an absolute path covers it, and only of an absolute path.
  lemma DefaultPathCovers(requestPath: string)
    ensures PathMatches(requestPath, DefaultPath(requestPath)) <==> StartsWith(requestPath, "/")
  {
    if StartsWith(requestPath, "/") {
      assert requestPath[0] == '/';
      var i := LastSlash(requestPath).value;
      if i == 0 {
        assert requestPath[..1] == "/";
      }
    }
  }

  // ---- matching, label by label and segment by segment ----

  function Labels(host: string): seq<string> {
    Split(host, '.')
  }

  function Segments(path: string): seq<string> {
    Split(path, '/')
  }

  // A domain reaches itself and, unless the host is an address, the hosts whose labels end
  // in the domain's.
  predicate Reaches(env: Env, domain: string, host: string) {
    host == domain || (!env.isIp(host) && EndsIn(Labels(host), Labels(domain)))
  }

  lemma DomainLabels(env: Env, host: string, domain: string)
    ensures DomainMatches(env, host, domain) <==> Reaches(env, domain, host)
  {
    SplitSuffix(host, domain, '.');
    hide Split;
  }

  // A cookie path covers the request paths whose segments begin with its own; one that
  // ends in a slash covers what is properly below it.
  predicate Covers(cookiePath: string, requestPath: string) {
    if EndsWith(cookiePath, "/") then
      var above := Segments(cookiePath[..|cookiePath| - 1]);
      above <= Segments(requestPath) && above != Segments(requestPath)
    else Segments(cookiePath) <= Segments(requestPath)
  }

  lemma PathSegments(requestPath: string, cookiePath: string)
    ensures PathMatches(requestPath, cookiePath) <==> Covers(cookiePath, requestPath)
  {
    hide Split, Join;
    var n := |cookiePath|;
    if n > 0 && cookiePath[n - 1] == '/' {
      var above := cookiePath[..n - 1];
      assert cookiePath == above + ['/'] && cookiePath[n - 1..] == "/";
      SplitPrefix(requestPath, above, '/');
      JoinSplit(requestPath, '/');
      JoinSplit(above, '/');
      assert StartsWith(requestPath, cookiePath) <==> GoesOn(requestPath, above, '/');
    } else {
      assert !EndsWith(cookiePath, "/");
      SplitPrefix(requestPath, cookiePath, '/');
    }
  }

  // The default path is the request path without its last segment, or the root.
  lemma DefaultPathExactly(requestPath: string)
    ensures StartsWith(requestPath, "/") ==> |Segments(requestPath)| >= 2
    ensures var segments := Segments(requestPath);
      DefaultPath(requestPath) ==
        if !StartsWith(requestPath, "/") || |segments| == 2 then "/" else Join(segments[..|segments| - 1], '/')
  {
    hide Split, Join;
    if StartsWith(requestPath, "/") {
      assert requestPath[0] == '/';
      var i := LastSlash(requestPath).value;
      var above, last := requestPath[..i], requestPath[i + 1..];
      assert requestPath == above + ['/'] + last;
      SplitAppend(above, last, '/');
      SplitNone(last, '/');
      JoinSplit(above, '/');
      if i == 0 {
        SplitNone(above, '/');
      } else {
        assert above == "" + ['/'] + above[1..];
        SplitAppend("", above[1..], '/');
      }
    }
  }

  // ---- one Set-Cookie value ----

  // A signed 64-bit decimal number, as the integer parser takes it.
  function ParseI64(s: string): Option<int> {
    var (negative, digits) :=
      if s != [] && s[0] == '-' then (true, s[1..])
      else if s != [] && s[0] == '+' then (false, s[1..])
      else (false, s);
    if digits == [] || !AllDigits(digits) then None
    else
      var d: int := Decimal(digits);
      var v := if negative then -d else d;
      if -0x8000_0000_0000_0000 <= v < 0x8000_0000_0000_0000 then Some(v) else None
  }

  predicate AllDigits(s: string) {
    forall i :: 0 <= i < |s| ==> '0' <= s[i] <= '9'
  }

  function Decimal(digits: string): (v: nat) {
    if digits == [] then 0
    else 10 * Decimal(digits[..|digits| - 1]) + (digits[|digits| - 1] as int - '0' as int) % 10
  }

  function Attribute(attr: string): (string, string) {
    var a := Trim(attr);
    match SplitOnce(a, '=')
    case Some((k, v)) => (Trim(k), Trim(v))
    case None => (a, "")
  }

  function DomainValue(aval: string): string {
    CanonicalHost(TrimStart(aval, IsDot))
  }

  // The last Domain attribute with a name left in it.
  function LastDomain(attrs: seq<string>): Option<string> {
    if attrs == [] then None
    else
      var (key, aval) := Attribute(attrs[|attrs| - 1]);
      if EqIgnoreCase(key, "domain") && DomainValue(aval) != [] then Some(DomainValue(aval))
      else LastDomain(attrs[..|attrs| - 1])
  }

  // The last Path attribute that is absolute.
  function LastPath(attrs: seq<string>): Option<string> {
    if attrs == [] then None
    else
      var (key, aval) := Attribute(attrs[|attrs| - 1]);
      if EqIgnoreCase(key, "path") && StartsWith(aval, "/") then Some(aval)
      else LastPath(attrs[..|attrs| - 1])
  }

  predicate HasSecure(attrs: seq<string>) {
    exists i :: 0 <= i < |attrs| && EqIgnoreCase(Attribute(attrs[i]).0, "secure")
  }

  // What the last Max-Age says: nothing, if it is not a number.
  function LastMaxAge(attrs: seq<string>): Option<int> {
    if attrs == [] then None
    else
      var (key, aval) := Attribute(attrs[|attrs| - 1]);
      if EqIgnoreCase(key, "max-age") then ParseI64(aval) else LastMaxAge(attrs[..|attrs| - 1])
  }

  function LastExpires(env: Env, attrs: seq<string>): Option<int> {
    if attrs == [] then None
    else
      var (key, aval) := Attribute(attrs[|attrs| - 1]);
      if EqIgnoreCase(key, "expires") then env.httpDate(aval) else LastExpires(env, attrs[..|attrs| - 1])
  }

  // The domain a cookie is scoped to and whether it stays on its own host; none when the
  // attribute names somewhere the host may not set cookies for.
  function Scope(env: Env, host: string, domain: Option<string>): Option<(string, bool)> {
    match domain
    case None => Some((host, true))
    case Some(d) =>
      if !DomainMatches(env, host, d) then None
      else if env.isIp(host) then Some((host, true))
      else if env.registrable(d).None? then (if d == host then Some((host, true)) else None)
      else if env.registrable(host) != env.registrable(d) then None
      else Some((d, false))
  }

  // Max-Age wins over Expires.
  predicate Expired(now: int, maxAge: Option<int>, expires: Option<int>) {
    match maxAge
    case Some(secs) => secs <= 0
    case None => expires.Some? && expires.value <= now
  }

  // The cookie made of a name-value pair and what the attributes came to, and whether it
  // is already expired.
  function Assembled(env: Env, now: int, pair: string, domain: Option<string>, path: Option<string>, secure: bool,
                     maxAge: Option<int>, expires: Option<int>, host: string, requestPath: string): Option<(Cookie, bool)>
  {
    match SplitOnce(Trim(pair), '=')
    case None => None
    case Some((n, v)) =>
      if Trim(n) == [] then None
      else match Scope(env, host, domain)
        case None => None
        case Some((scope, hostOnly)) =>
          var cookiePath := match path case Some(p) => p case None => DefaultPath(requestPath);
          Some((Cookie(Trim(n), Trim(v), scope, hostOnly, cookiePath, secure), Expired(now, maxAge, expires)))
  }

  // What one Set-Cookie value, read at the time now, means for a request.
  function Parsed(env: Env, now: int, value: string, host: string, path: string): Option<(Cookie, bool)> {
    var parts := Split(value, ';');
    var attrs := parts[1..];
    Assembled(env, now, parts[0], LastDomain(attrs), LastPath(attrs), HasSecure(attrs),
              LastMaxAge(attrs), LastExpires(env, attrs), host, path)
  }

  method ParseSetCookie(env: Env, now: int, value: string, requestHost: string, requestPath: string)
    returns (r: Option<(Cookie, bool)>)
    ensures r == Parsed(env, now, value, requestHost, requestPath)
  {
    hide Split, Attribute, DomainValue, ParseI64, EqIgnoreCase, Trim, DomainMatches, DefaultPath;
    var parts := Split(value, ';');
    var pair := Trim(parts[0]);
    var split := SplitOnce(pair, '=');
    if split.None? {
      return None;
    }
    var (name, val) := split.value;
    name := Trim(name);
    if name == [] {
      return None;
    }
    var domain: Option<string> := None;
    var path: Option<string> := None;
    var secure := false;
    var maxAge: Option<int> := None;
    var expires: Option<int> := None;
    var attrs := parts[1..];
    for i := 0 to |attrs|
      invariant domain == LastDomain(attrs[..i]) && path == LastPath(attrs[..i])
      invariant secure == exists k :: 0 <= k < i && EqIgnoreCase(Attribute(attrs[k]).0, "secure")
      invariant maxAge == LastMaxAge(attrs[..i]) && expires == LastExpires(env, attrs[..i])
    {
      ghost var seen := attrs[..i + 1];
      assert seen[..i] == attrs[..i] && seen[i] == attrs[i];
      var (key, aval) := Attribute(attrs[i]);
      KeysDiffer(key);
      if EqIgnoreCase(key, "domain") {
        var d := DomainValue(aval);
        if d != [] {
          domain := Some(d);
        }
      } else if EqIgnoreCase(key, "path") {
        if StartsWith(aval, "/") {
          path := Some(aval);
        }
      } else if EqIgnoreCase(key, "secure") {
        secure := true;
      } else if EqIgnoreCase(key, "max-age") {
        maxAge := ParseI64(aval);
      } else if EqIgnoreCase(key, "expires") {
        expires := env.httpDate(aval);
      }
    }
    assert attrs[..|attrs|] == attrs;
    var scopeDomain, hostOnly := requestHost, true;
    match domain {
      case None =>
      case Some(d) =>
        if !DomainMatches(env, requestHost, d) {
          return None;
        }
        if env.isIp(requestHost) {
        } else if env.registrable(d).None? {
          if d != requestHost {
            return None;
          }
        } else if env.registrable(requestHost) != env.registrable(d) {
          return None;
        } else {
          scopeDomain, hostOnly := d, false;
        }
    }
    var expired := match maxAge
      case Some(secs) => secs <= 0
      case None => match expires case Some(when) => when <= now case None => false;
    var cookiePath := match path case Some(p) => p case None => DefaultPath(requestPath);
    return Some((Cookie(name, Trim(val), scopeDomain, hostOnly, cookiePath, secure), expired));
  }

  // The attribute names are different words.
  lemma KeysDiffer(key: string)
    ensures EqIgnoreCase(key, "path") ==> !EqIgnoreCase(key, "domain")
    ensures EqIgnoreCase(key, "secure") ==> !EqIgnoreCase(key, "domain") && !EqIgnoreCase(key, "path")
    ensures EqIgnoreCase(key, "max-age") ==>
      !EqIgnoreCase(key, "domain") && !EqIgnoreCase(key, "path") && !EqIgnoreCase(key, "secure")
    ensures EqIgnoreCase(key, "expires") ==>
      !EqIgnoreCase(key, "domain") && !EqIgnoreCase(key, "path") &&
      !EqIgnoreCase(key, "secure") && !EqIgnoreCase(key, "max-age")
  {
    assert ToLower("domain")[0] == 'd' && ToLower("secure")[0] == 's';
    assert ToLower("max-age")[0] == 'm' && ToLower("expires")[0] == 'e';
    assert |ToLower(key)| == |key|;
  }

  // Whatever is accepted, the cookie reaches only hosts its setter may speak for.
  lemma ParsedScope(env: Env, now: int, value: string, host: string, path: string)
    requires Parsed(env, now, value, host, path).Some?
    ensures var c := Parsed(env, now, value, host, path).value.0;
      if c.hostOnly then c.domain == host
      else DomainMatches(env, host, c.domain) && env.registrable(c.domain).Some? &&
           env.registrable(host) == env.registrable(c.domain)
  {
    hide Split, Trim, LastDomain, LastPath, LastMaxAge, LastExpires, DomainMatches, DefaultPath, SplitOnce;
  }

  // The name and value of a cookie survive being printed as one pair among others.
  predicate PairOk(c: Cookie) {
    c.name != [] && Trimmed(c.name) && '=' !in c.name && ';' !in c.name &&
    Trimmed(c.value) && ';' !in c.value
  }

  lemma ParsedPair(env: Env, now: int, value: string, host: string, path: string)
    requires Parsed(env, now, value, host, path).Some?
    ensures PairOk(Parsed(env, now, value, host, path).value.0)
  {
    var first := Split(value, ';')[0];
    SplitPieces(value, ';');
    hide Split, Trim, LastDomain, LastPath, LastMaxAge, LastExpires, Scope, DefaultPath, SplitOnce, Trimmed, Expired;
    var pair := Trim(first);
    TrimKeeps(first, ';');
    var (n, v) := SplitOnce(pair, '=').value;
    assert ';' !in n && ';' !in v;
    TrimTrims(n);
    TrimTrims(v);
    TrimKeeps(n, '=');
    TrimKeeps(n, ';');
    TrimKeeps(v, ';');
  }
}
