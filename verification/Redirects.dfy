// Following redirects: which hops are made and which cookies each one carries.
module Redirects {
  import opened Wrappers
  import opened Text
  import opened CookieRules
  import opened SetCookieText
  import opened Cookies
  import opened CookieHistory
  import opened CookieHeaders
  import opened CookieMerge

  datatype Config = Config(
    followRedirects: bool,
    redirectLimit: nat,
    forwardRedirectCookies: bool,
    headers: seq<HeaderLine>)

  // A reply, with the time at which each of its header lines is read.
  datatype Reply = Reply(status: nat, lines: seq<HeaderLine>, location: Option<string>, clock: nat -> int)

  // A request as sent: the target and the chain's Cookie header for it.
  datatype Request = Request(uri: Uri, cookies: Option<string>)

  datatype Outcome = Answered(reply: Reply) | SendFailed | TooManyRedirects | NoLocation | BadRedirect

  predicate IsRedirect(status: nat) {
    status == 301 || status == 302 || status == 303 || status == 307 || status == 308
  }

  // ---- what a run is ----

  function CallerNames(config: Config): seq<string> {
    Distinct(AllNames(config.headers))
  }

  // The first k responses of a run.
  function Hops(serve: nat -> Option<Reply>, sent: seq<Request>, k: nat): (hops: seq<Hop>)
    requires k <= |sent| && forall j: nat :: j < k ==> serve(j).Some?
    ensures |hops| == k
  {
    seq(k, j requires 0 <= j < k => Hop(sent[j].uri, serve(j).value.lines, serve(j).value.clock))
  }

  function CookiesFor(config: Config, env: Env, hops: seq<Hop>, uri: Uri): Option<string> {
    if config.forwardRedirectCookies then HeaderFor(env, ChainAfter(CallerNames(config), env, hops).cookies, uri)
    else None
  }

  // Request k follows from reply k - 1, and carries the cookies the replies so far call for.
  ghost predicate Follows(config: Config, env: Env, serve: nat -> Option<Reply>,
                          resolve: (Uri, string) -> Option<Uri>, sent: seq<Request>, k: int)
  {
    0 < k < |sent| && k <= config.redirectLimit && config.followRedirects &&
    (forall j: nat :: j < k ==> serve(j).Some?) &&
    var reply := serve(k - 1).value;
    IsRedirect(reply.status) && reply.location.Some? &&
    resolve(sent[k - 1].uri, reply.location.value) == Some(sent[k].uri) &&
    sent[k].cookies == CookiesFor(config, env, Hops(serve, sent, k), sent[k].uri)
  }

  ghost predicate IsRun(config: Config, env: Env, start: Uri, serve: nat -> Option<Reply>,
                        resolve: (Uri, string) -> Option<Uri>, sent: seq<Request>)
  {
    |sent| > 0 && sent[0] == Request(start, None) &&
    forall k :: 0 < k < |sent| ==> Follows(config, env, serve, resolve, sent, k)
  }

  // Why a run stopped where it did.
  ghost predicate StopsWith(config: Config, serve: nat -> Option<Reply>,
                            resolve: (Uri, string) -> Option<Uri>, sent: seq<Request>, outcome: Outcome)
    requires |sent| > 0
  {
    var k := |sent| - 1;
    match serve(k)
    case None => outcome == SendFailed
    case Some(reply) =>
      if !IsRedirect(reply.status) || !config.followRedirects then outcome == Answered(reply)
      else if k >= config.redirectLimit then outcome == TooManyRedirects
      else match reply.location
        case None => outcome == NoLocation
        case Some(location) => resolve(sent[k].uri, location).None? && outcome == BadRedirect
  }

  lemma RunMore(config: Config, env: Env, start: Uri, serve: nat -> Option<Reply>,
                resolve: (Uri, string) -> Option<Uri>, sent: seq<Request>, next: Request)
    requires IsRun(config, env, start, serve, resolve, sent)
    requires Follows(config, env, serve, resolve, sent + [next], |sent|)
    ensures IsRun(config, env, start, serve, resolve, sent + [next])
  {
    hide CookiesFor;
    var more := sent + [next];
    forall k | 0 < k < |more| ensures Follows(config, env, serve, resolve, more, k) {
      if k < |sent| {
        assert Follows(config, env, serve, resolve, sent, k);
        assert Hops(serve, more, k) == Hops(serve, sent, k);
      }
    }
  }

  // The redirect loop. `serve` gives the reply to each request in turn, none when the
  // exchange fails; `resolve` resolves a Location against the current target.
  method SendInner(config: Config, env: Env, start: Uri, serve: nat -> Option<Reply>,
                   resolve: (Uri, string) -> Option<Uri>)
    returns (outcome: Outcome, sent: seq<Request>)
    ensures IsRun(config, env, start, serve, resolve, sent) && |sent| <= config.redirectLimit + 1
    ensures StopsWith(config, serve, resolve, sent, outcome)
  {
    hide ChainAfter, HeaderFor, StoreOk, IsRedirect, AbsorbAll, Distinct, AllNames;
    var uri := start;
    var hops := 0;
    var callerNames := CallerCookieNames(config.headers);
    var chainCookies := new ChainCookies.WithCallerCookies(callerNames);
    var hopCookies: Option<string> := None;
    sent := [];
    ghost var past: seq<Hop> := [];
    EmptyChain(callerNames, env);
    while true
      invariant hops == |sent| == |past| <= config.redirectLimit
      invariant fresh(chainCookies) && chainCookies.Valid() && chainCookies.callerNames == callerNames
      invariant forall j: nat :: j < hops ==> serve(j).Some?
      invariant past == Hops(serve, sent, hops)
      invariant config.forwardRedirectCookies ==>
        chainCookies.State() == ChainAfter(callerNames, env, past)
      invariant !config.forwardRedirectCookies ==> hopCookies.None?
      invariant IsRun(config, env, start, serve, resolve, sent + [Request(uri, hopCookies)])
      decreases config.redirectLimit - hops
    {
      var attempt := serve(hops);
      sent := sent + [Request(uri, hopCookies)];
      if attempt.None? {
        return SendFailed, sent;
      }
      var resp := attempt.value;
      if !(IsRedirect(resp.status) && config.followRedirects) {
        return Answered(resp), sent;
      }
      hops := hops + 1;
      if hops > config.redirectLimit {
        return TooManyRedirects, sent;
      }
      if resp.location.None? {
        return NoLocation, sent;
      }
      var resolved := resolve(uri, resp.location.value);
      if resolved.None? {
        return BadRedirect, sent;
      }
      var nextUri := resolved.value;
      ghost var hop := Hop(uri, resp.lines, resp.clock);
      NextHop(callerNames, env, past, hop);
      past := past + [hop];
      assert past == Hops(serve, sent, hops);
      if config.forwardRedirectCookies {
        var rejected := chainCookies.Store(env, resp.clock, resp.lines, uri);
        hopCookies := HeaderFor(env, chainCookies.cookies, nextUri);
      }
      ghost var next := Request(nextUri, hopCookies);
      assert Hops(serve, sent + [next], hops) == past;
      assert Follows(config, env, serve, resolve, sent + [next], hops);
      RunMore(config, env, start, serve, resolve, sent, next);
      uri := nextUri;
    }
  }

  lemma EmptyChain(callerNames: seq<string>, env: Env)
    ensures ChainAfter(callerNames, env, []) == Chain([], [])
  {
  }

  lemma NextHop(callerNames: seq<string>, env: Env, hops: seq<Hop>, hop: Hop)
    ensures ChainAfter(callerNames, env, hops + [hop])
         == AbsorbAll(ChainAfter(callerNames, env, hops), callerNames, env, hop.clock, hop.lines, hop.uri)
  {
    assert (hops + [hop])[..|hops + [hop]| - 1] == hops;
  }

  // ---- what a run amounts to ----

  // A run follows only replies with one of the five redirect statuses, at most as many as the
  // limit allows; it ends with the first reply that has none of them, or with a redirect it
  // was told not to follow, or that exceeds the limit, or that leads nowhere.
  lemma RunStops(config: Config, env: Env, start: Uri, serve: nat -> Option<Reply>,
                 resolve: (Uri, string) -> Option<Uri>, sent: seq<Request>, outcome: Outcome)
    requires IsRun(config, env, start, serve, resolve, sent) && StopsWith(config, serve, resolve, sent, outcome)
    ensures forall k: nat :: k < |sent| - 1 ==>
      serve(k).Some? && serve(k).value.status in {301, 302, 303, 307, 308} && serve(k).value.location.Some? &&
      resolve(sent[k].uri, serve(k).value.location.value) == Some(sent[k + 1].uri)
    ensures |sent| > 1 ==> config.followRedirects && |sent| - 1 <= config.redirectLimit
    ensures var last := serve(|sent| - 1);
      if last.None? then outcome.SendFailed?
      else if last.value.status !in {301, 302, 303, 307, 308} || !config.followRedirects then outcome == Answered(last.value)
      else if |sent| > config.redirectLimit then outcome.TooManyRedirects? && |sent| == config.redirectLimit + 1
      else if last.value.location.None? then outcome.NoLocation?
      else outcome.BadRedirect? && resolve(sent[|sent| - 1].uri, last.value.location.value).None?
  {
    hide CookiesFor, Hops;
    forall k: nat | k < |sent| - 1
      ensures serve(k).Some? && serve(k).value.status in {301, 302, 303, 307, 308} && serve(k).value.location.Some?
      ensures resolve(sent[k].uri, serve(k).value.location.value) == Some(sent[k + 1].uri)
    {
      assert Follows(config, env, serve, resolve, sent, k + 1);
    }
    if |sent| > 1 {
      assert Follows(config, env, serve, resolve, sent, |sent| - 1);
    }
  }

  // Without forwarding, no request of a run carries a cookie of the chain; the first never
  // does.
  lemma RunForwards(config: Config, env: Env, start: Uri, serve: nat -> Option<Reply>,
                    resolve: (Uri, string) -> Option<Uri>, sent: seq<Request>, k: nat)
    requires IsRun(config, env, start, serve, resolve, sent) && k < |sent|
    ensures sent[k].cookies.Some? ==> k > 0 && config.forwardRedirectCookies
  {
    hide Hops, ChainAfter, HeaderFor;
    if k > 0 {
      assert Follows(config, env, serve, resolve, sent, k);
    }
  }

  // ---- where the cookies of a hop come from ----

  // Arrival i of the log, from hop h, is why c is sent: it is the last word on c's name,
  // domain and path, and its setter could speak for c's domain.
  ghost predicate Justifies(env: Env, log: seq<Event>, hops: seq<Hop>, i: int, h: int, c: Cookie) {
    Live(log, i) && log[i].cookie == c && CameFrom(log[i], env, hops, h) &&
    var setter := CanonicalHost(hops[h].uri.host.value);
    if c.hostOnly then c.domain == setter
    else DomainMatches(env, setter, c.domain) && env.registrable(c.domain).Some? &&
         env.registrable(setter) == env.registrable(c.domain)
  }

  lemma Provenance(callerNames: seq<string>, env: Env, hops: seq<Hop>, uri: Uri, c: Cookie)
    returns (i: int, h: int)
    requires c in Matched(env, ChainAfter(callerNames, env, hops).cookies, uri)
    ensures Justifies(env, ChainAfter(callerNames, env, hops).log, hops, i, h, c)
    ensures Applies(env, c, uri) && c.name !in callerNames
  {
    hide Applies, Parsed, Live, LiveCookies, EqIgnoreCase;
    var chain := ChainAfter(callerNames, env, hops);
    ChainKeeps(callerNames, env, hops);
    MatchedApply(env, chain.cookies, uri);
    i := LiveSource(chain.log, |chain.log|, c);
    LiveIsArrival(chain.log, i);
    assert FromSome(chain.log[i], env, hops);
    h :| CameFrom(chain.log[i], env, hops, h);
    var line :| SetBy(chain.log[i], env, hops[h], line);
    ParsedScope(env, hops[h].clock(line), chain.log[i].value, CanonicalHost(hops[h].uri.host.value), hops[h].uri.path);
  }

  lemma LiveIsArrival(log: seq<Event>, i: int)
    requires Live(log, i)
    ensures 0 <= i < |log|
  {
  }

  // The labels of the host end in those of the domain.
  predicate Under(uri: Uri, domain: string) {
    uri.host.Some? && EndsIn(Labels(CanonicalHost(uri.host.value)), Labels(domain))
  }

  lemma JustifiedUnder(env: Env, log: seq<Event>, hops: seq<Hop>, i: int, h: int, c: Cookie)
    requires Justifies(env, log, hops, i, h, c)
    ensures 0 <= h < |hops| && Under(hops[h].uri, c.domain)
  {
    hide Live, Parsed, EqIgnoreCase, DomainMatches, CanonicalHost, Labels;
    DomainLabels(env, CanonicalHost(hops[h].uri.host.value), c.domain);
  }

  lemma AppliesUnder(env: Env, c: Cookie, uri: Uri)
    requires Applies(env, c, uri)
    ensures Under(uri, c.domain) && Covers(c.path, uri.path) && (c.secure ==> uri.scheme == Some("https"))
  {
    AppliesExactly(env, c, uri);
    hide Applies, Covers, Labels, CanonicalHost;
  }

  // Over a whole run: the Cookie header of each hop reads back as pairs of which each is
  // justified by an earlier response of the same run and applies to the hop; none is a
  // caller's name, and the header is at most 8190 bytes. The labels of the hop's host and of
  // the setter's both end in those of the cookie's domain, the hop's path lies under the
  // cookie's, and its transport is secure if the cookie is.
  lemma RunProvenance(config: Config, env: Env, start: Uri, serve: nat -> Option<Reply>,
                      resolve: (Uri, string) -> Option<Uri>, sent: seq<Request>, k: nat)
    requires IsRun(config, env, start, serve, resolve, sent) && k < |sent| && sent[k].cookies.Some?
    ensures k > 0 && forall j: nat :: j < k ==> serve(j).Some?
    ensures var hops := Hops(serve, sent, k);
      var chain := ChainAfter(CallerNames(config), env, hops);
      var matched := Matched(env, chain.cookies, sent[k].uri);
      |sent[k].cookies.value| <= 8190 &&
      ReadPairs(Split(sent[k].cookies.value, ';')) == PairsOf(ByPath(matched)) &&
      forall c :: c in matched ==>
        Applies(env, c, sent[k].uri) && c.name !in CallerNames(config) &&
        Under(sent[k].uri, c.domain) && Covers(c.path, sent[k].uri.path) &&
        (c.secure ==> sent[k].uri.scheme == Some("https")) &&
        exists i, h :: Justifies(env, chain.log, hops, i, h, c) && 0 <= h < k && Under(sent[h].uri, c.domain)
  {
    hide ChainAfter, Matched, Applies, Justifies, ReadPairs, Split, StoreOk, CallerNames, Under, Covers;
    assert k > 0 && Follows(config, env, serve, resolve, sent, k);
    var hops := Hops(serve, sent, k);
    var names, uri := CallerNames(config), sent[k].uri;
    var chain := ChainAfter(names, env, hops);
    ChainKeeps(names, env, hops);
    HeaderFits(env, chain.cookies, names, uri);
    HeaderRoundTrip(env, chain.cookies, names, uri);
    forall c | c in Matched(env, chain.cookies, uri)
      ensures Applies(env, c, uri) && c.name !in names
      ensures Under(uri, c.domain) && Covers(c.path, uri.path) && (c.secure ==> uri.scheme == Some("https"))
      ensures exists i, h :: Justifies(env, chain.log, hops, i, h, c) && 0 <= h < k && Under(sent[h].uri, c.domain)
    {
      var i, h := Provenance(names, env, hops, uri, c);
      AppliesUnder(env, c, uri);
      JustifiedUnder(env, chain.log, hops, i, h, c);
      assert hops[h].uri == sent[h].uri;
    }
  }

  // The line of arrival i carries Secure.
  ghost predicate SetSecure(log: seq<Event>, i: int) {
    0 <= i < |log| && CarriesSecure(log[i].value)
  }

  // Over a whole run: what a hop that is not https is sent was last set by a line without
  // Secure; a cookie whose last accepted line carries Secure is not among it.
  lemma RunSecure(config: Config, env: Env, start: Uri, serve: nat -> Option<Reply>,
                  resolve: (Uri, string) -> Option<Uri>, sent: seq<Request>, k: nat)
    requires IsRun(config, env, start, serve, resolve, sent) && k < |sent| && sent[k].cookies.Some?
    requires sent[k].uri.scheme != Some("https")
    ensures k > 0 && forall j: nat :: j < k ==> serve(j).Some?
    ensures var chain := ChainAfter(CallerNames(config), env, Hops(serve, sent, k));
      var matched := Matched(env, chain.cookies, sent[k].uri);
      (forall c :: c in matched ==> exists i, h ::
        Justifies(env, chain.log, Hops(serve, sent, k), i, h, c) && !SetSecure(chain.log, i)) &&
      (forall i: nat :: i < |chain.log| && Live(chain.log, i) && CarriesSecure(chain.log[i].value) ==> chain.log[i].cookie !in matched)
  {
    hide ChainAfter, Matched, Applies, Justifies, ReadPairs, Split, StoreOk, CallerNames, Under, Covers, CarriesSecure, Live;
    RunProvenance(config, env, start, serve, resolve, sent, k);
    var names, hops := CallerNames(config), Hops(serve, sent, k);
    var chain := ChainAfter(names, env, hops);
    var matched := Matched(env, chain.cookies, sent[k].uri);
    ChainKeeps(names, env, hops);
    forall c | c in matched
      ensures exists i, h :: Justifies(env, chain.log, hops, i, h, c) && !SetSecure(chain.log, i)
    {
      var i, h :| Justifies(env, chain.log, hops, i, h, c);
      JustifiedArrival(env, chain.log, hops, i, h, c);
      ArrivalSecure(env, chain, names, hops, i);
    }
    forall i: nat | i < |chain.log| && Live(chain.log, i) && CarriesSecure(chain.log[i].value)
      ensures chain.log[i].cookie !in matched
    {
      ArrivalSecure(env, chain, names, hops, i);
    }
  }

  lemma JustifiedArrival(env: Env, log: seq<Event>, hops: seq<Hop>, i: int, h: int, c: Cookie)
    requires Justifies(env, log, hops, i, h, c)
    ensures 0 <= i < |log| && log[i].cookie == c
  {
  }

  // A recorded cookie is secure exactly when its line says so.
  lemma ArrivalSecure(env: Env, chain: Chain, callerNames: seq<string>, hops: seq<Hop>, i: int)
    requires ChainOk(chain, callerNames, env, hops) && 0 <= i < |chain.log|
    ensures chain.log[i].cookie.secure <==> CarriesSecure(chain.log[i].value)
  {
    hide IsHistory, StoreOk, Parsed, CarriesSecure, EqIgnoreCase;
    var e := chain.log[i];
    assert FromSome(e, env, hops);
    var h :| CameFrom(e, env, hops, h);
    var line :| SetBy(e, env, hops[h], line);
    SecureExactly(env, hops[h].clock(line), e.value, CanonicalHost(e.uri.host.value), e.uri.path);
  }

  // On the wire of every hop, the names are the caller's and the chain's, and the two are
  // disjoint; the caller's come first, in order, exactly when the caller's later Cookie
  // lines add no name (or the chain adds none).
  lemma RunMerge(config: Config, env: Env, start: Uri, serve: nat -> Option<Reply>,
                 resolve: (Uri, string) -> Option<Uri>, sent: seq<Request>, k: nat)
    requires IsRun(config, env, start, serve, resolve, sent) && k < |sent| && sent[k].cookies.Some?
    ensures var lines, extra := config.headers, sent[k].cookies.value;
      var chain := NamesIn(Split(extra, ';'));
      var merged := Distinct(AllNames(Merged(lines, extra)));
      (forall n :: n in chain ==> n !in AllNames(lines)) &&
      (forall n :: n in merged <==> n in AllNames(lines) || n in chain) &&
      (merged == Distinct(AllNames(lines)) + Distinct(chain) <==>
        chain == [] || forall n :: n in LaterNames(lines) ==> n in FirstNames(lines))
  {
    var lines, extra := config.headers, sent[k].cookies.value;
    RunProvenance(config, env, start, serve, resolve, sent, k);
    hide ChainAfter, Matched, Applies, Justifies, ReadPairs, Split, NamesIn, AllNames, Distinct, Merged, ByPath;
    var matched := Matched(env, ChainAfter(CallerNames(config), env, Hops(serve, sent, k)).cookies, sent[k].uri);
    DistinctMembers(AllNames(lines));
    forall n | n in NamesIn(Split(extra, ';')) ensures n !in AllNames(lines) {
      NameHasPair(Split(extra, ';'), n);
      var i :| 0 <= i < |PairsOf(ByPath(matched))| && PairsOf(ByPath(matched))[i].0 == n;
      ByPathSorts(matched, 0);
      assert ByPath(matched)[i] in multiset(ByPath(matched));
      assert ByPath(matched)[i] in matched;
    }
    MergedOrder(lines, extra);
  }

  // ---- a cookie without attributes comes back ----

  predicate Plain(value: string) {
    LastDomain(Split(value, ';')[1..]).None? && LastPath(Split(value, ';')[1..]).None?
  }

  // Whether a URI takes back the plain cookie it set.
  predicate TakesBack(uri: Uri, c: Cookie) {
    StartsWith(uri.path, "/") && (c.secure ==> uri.scheme == Some("https"))
  }

  // After any chain of responses: a cookie set with no Domain and no Path, and not replaced
  // or removed since, is chosen for the URI that set it exactly when that URI has an
  // absolute path and Secure does not forbid it.
  lemma ComesBack(callerNames: seq<string>, env: Env, hops: seq<Hop>, i: nat)
    requires Live(ChainAfter(callerNames, env, hops).log, i)
    requires Plain(ChainAfter(callerNames, env, hops).log[i].value)
    ensures var chain := ChainAfter(callerNames, env, hops); var e := chain.log[i];
      e.cookie in Matched(env, chain.cookies, e.uri) <==> TakesBack(e.uri, e.cookie)
  {
    hide Applies, Parsed, LastDomain, LastPath, Split, Live, LiveCookies, EqIgnoreCase;
    var chain := ChainAfter(callerNames, env, hops);
    ChainKeeps(callerNames, env, hops);
    LiveIsArrival(chain.log, i);
    var e := chain.log[i];
    assert FromSome(e, env, hops);
    var h :| CameFrom(e, env, hops, h);
    var line :| SetBy(e, env, hops[h], line);
    LiveIsKept(chain.log, |chain.log|, i);
    MatchedApply(env, chain.cookies, e.uri);
    SentBack(env, hops[h].clock(line), e.value, e.uri);
  }

  // Over a whole run: on a request back to the URI that set it, such a cookie is in the
  // Cookie header, as a pair that reads back. (That the replies before request k exist
  // follows from the run.)
  lemma RunComesBack(config: Config, env: Env, start: Uri, serve: nat -> Option<Reply>,
                     resolve: (Uri, string) -> Option<Uri>, sent: seq<Request>, k: nat, i: nat)
    requires IsRun(config, env, start, serve, resolve, sent) && 0 < k < |sent| && config.forwardRedirectCookies
    requires forall j: nat :: j < k ==> serve(j).Some?
    requires var log := ChainAfter(CallerNames(config), env, Hops(serve, sent, k)).log;
      Live(log, i) && Plain(log[i].value) && sent[k].uri == log[i].uri && TakesBack(log[i].uri, log[i].cookie)
    ensures sent[k].cookies.Some?
    ensures PairOf(ChainAfter(CallerNames(config), env, Hops(serve, sent, k)).log[i].cookie)
         in ReadPairs(Split(sent[k].cookies.value, ';'))
  {
    hide ChainAfter, Matched, ReadPairs, Split, StoreOk, CallerNames, Live, Plain, TakesBack, LastDomain, LastPath,
         ByPath, Print;
    assert Follows(config, env, serve, resolve, sent, k);
    var names, uri, hops := CallerNames(config), sent[k].uri, Hops(serve, sent, k);
    var chain := ChainAfter(names, env, hops);
    LiveIsArrival(chain.log, i);
    var c := chain.log[i].cookie;
    ComesBack(names, env, hops, i);
    var matched := Matched(env, chain.cookies, uri);
    assert c in matched;
    ChainKeeps(names, env, hops);
    HeaderRoundTrip(env, chain.cookies, names, uri);
    ByPathSorts(matched, 0);
    PairAmong(ByPath(matched), matched, c);
  }

  lemma PairAmong(sorted: seq<Cookie>, matched: seq<Cookie>, c: Cookie)
    requires multiset(sorted) == multiset(matched) && c in matched
    ensures PairOf(c) in PairsOf(sorted)
  {
    assert c in multiset(sorted);
    var j :| 0 <= j < |sorted| && sorted[j] == c;
    assert PairsOf(sorted)[j] == PairOf(c);
  }
}
