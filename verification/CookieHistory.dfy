// The store as a function of its history, over a whole chain of responses.
module CookieHistory {
  import opened Wrappers
  import opened Text
  import opened CookieRules
  import opened Cookies

  // One response on the way: where it came from, its header lines, and when each was read.
  datatype Hop = Hop(uri: Uri, lines: seq<HeaderLine>, clock: nat -> int)

  function ChainAfter(callerNames: seq<string>, env: Env, hops: seq<Hop>): Chain {
    if hops == [] then Chain([], [])
    else
      var last := hops[|hops| - 1];
      AbsorbAll(ChainAfter(callerNames, env, hops[..|hops| - 1]), callerNames, env, last.clock, last.lines, last.uri)
  }

  // ---- which cookies are alive ----

  predicate Overrides(e: Event, c: Cookie) {
    (e.verdict.Stored? || e.verdict.Removed?) && SameKey(c, e.cookie)
  }

  // The i-th arrival was stored, and nothing since has replaced or removed it.
  ghost predicate Live(log: seq<Event>, i: int) {
    0 <= i < |log| && log[i].verdict.Stored? &&
    forall j :: i < j < |log| ==> !Overrides(log[j], log[i].cookie)
  }

  // The live cookies among the first n arrivals, in the order they were stored.
  ghost function LiveCookies(log: seq<Event>, n: nat): seq<Cookie>
    requires n <= |log|
  {
    if n == 0 then []
    else if Live(log, n - 1) then LiveCookies(log, n - 1) + [log[n - 1].cookie]
    else LiveCookies(log, n - 1)
  }

  lemma {:induction false} LiveAfter(log: seq<Event>, e: Event, n: nat)
    requires n <= |log|
    ensures LiveCookies(log + [e], n)
         == if e.verdict.Stored? || e.verdict.Removed? then Without(LiveCookies(log, n), e.cookie) else LiveCookies(log, n)
  {
    hide SameKey, Live, Overrides, Without;
    if n > 0 {
      var log' := log + [e];
      assert log'[n - 1] == log[n - 1];
      LiveAfter(log, e, n - 1);
      LiveStep(log, e, n - 1);
      LiveSnoc(LiveCookies(log, n - 1), log[n - 1].cookie, e, Live(log, n - 1));
    } else {
      WithoutNone([], e.cookie);
    }
  }

  lemma LiveSnoc(older: seq<Cookie>, c: Cookie, e: Event, live: bool)
    ensures var clears := e.verdict.Stored? || e.verdict.Removed?;
      var newer := if clears then Without(older, e.cookie) else older;
      (if live && !Overrides(e, c) then newer + [c] else newer)
      == var all := if live then older + [c] else older; if clears then Without(all, e.cookie) else all
  {
    hide Without;
    WithoutSnoc(older, c, e.cookie);
    assert Without(older, e.cookie) + [] == Without(older, e.cookie);
  }

  lemma LiveStep(log: seq<Event>, e: Event, i: nat)
    requires i < |log|
    ensures Live(log + [e], i) <==> Live(log, i) && !Overrides(e, log[i].cookie)
  {
    hide SameKey;
    var log' := log + [e];
    assert log'[|log|] == e;
    assert forall j :: 0 <= j < |log| ==> log'[j] == log[j];
  }

  // The store is exactly its live cookies, in order.
  ghost predicate IsHistory(chain: Chain) {
    chain.cookies == LiveCookies(chain.log, |chain.log|)
  }

  lemma AbsorbedIsHistory(chain: Chain, e: Event)
    requires IsHistory(chain)
    ensures IsHistory(Absorbed(chain, Some(e)))
  {
    LiveAfter(chain.log, e, |chain.log|);
    var log := chain.log + [e];
    assert Live(log, |log| - 1) <==> e.verdict.Stored?;
  }

  // ---- what every arrival is ----

  // Line i of the response is the event's Set-Cookie, parsed for the host and path it came
  // from at the time it was read.
  ghost predicate SetBy(e: Event, env: Env, hop: Hop, i: int) {
    0 <= i < |hop.lines| && EqIgnoreCase(hop.lines[i].0, "set-cookie") && e.value == hop.lines[i].1 &&
    e.uri == hop.uri && e.uri.host.Some? &&
    Parsed(env, hop.clock(i), e.value, CanonicalHost(e.uri.host.value), e.uri.path) == Some((e.cookie, e.expired))
  }

  // An event is a Set-Cookie line of one of the hops.
  ghost predicate CameFrom(e: Event, env: Env, hops: seq<Hop>, h: int) {
    0 <= h < |hops| && exists i :: SetBy(e, env, hops[h], i)
  }

  ghost predicate FromSome(e: Event, env: Env, hops: seq<Hop>) {
    exists h :: CameFrom(e, env, hops, h)
  }

  ghost predicate LogOk(log: seq<Event>, env: Env, hops: seq<Hop>) {
    forall e :: e in log ==> FromSome(e, env, hops)
  }

  ghost predicate ChainOk(chain: Chain, callerNames: seq<string>, env: Env, hops: seq<Hop>) {
    IsHistory(chain) && StoreOk(chain.cookies, callerNames) && LogOk(chain.log, env, hops)
  }

  lemma EventKeeps(chain: Chain, callerNames: seq<string>, env: Env, hops: seq<Hop>, h: nat, i: nat)
    requires ChainOk(chain, callerNames, env, hops) && h < |hops| && i < |hops[h].lines|
    ensures ChainOk(Absorbed(chain, EventOf(chain, callerNames, env, hops[h].clock(i), hops[h].lines[i], hops[h].uri)),
                    callerNames, env, hops)
  {
    hide IsHistory, StoreOk, Parsed, Judge, Updated;
    var uri, line, now := hops[h].uri, hops[h].lines[i], hops[h].clock(i);
    match EventOf(chain, callerNames, env, now, line, uri)
    case None =>
    case Some(e) =>
      AbsorbedIsHistory(chain, e);
      ParsedPair(env, now, line.1, CanonicalHost(uri.host.value), uri.path);
      DecisionKeeps(chain.cookies, callerNames, e.cookie, e.expired);
      assert SetBy(e, env, hops[h], i);
      assert CameFrom(e, env, hops, h);
  }

  lemma {:induction false} ResponseKeeps(chain: Chain, callerNames: seq<string>, env: Env, hops: seq<Hop>, h: nat, n: nat)
    requires ChainOk(chain, callerNames, env, hops) && h < |hops| && n <= |hops[h].lines|
    ensures ChainOk(AbsorbAll(chain, callerNames, env, hops[h].clock, hops[h].lines[..n], hops[h].uri),
                    callerNames, env, hops)
  {
    hide ChainOk, EventOf, Absorbed;
    if n > 0 {
      var lines := hops[h].lines[..n];
      assert lines[..|lines| - 1] == hops[h].lines[..n - 1];
      ResponseKeeps(chain, callerNames, env, hops, h, n - 1);
      EventKeeps(AbsorbAll(chain, callerNames, env, hops[h].clock, lines[..n - 1], hops[h].uri),
                 callerNames, env, hops, h, n - 1);
    }
  }

  lemma LogOkMore(log: seq<Event>, env: Env, hops: seq<Hop>, hop: Hop)
    requires LogOk(log, env, hops)
    ensures LogOk(log, env, hops + [hop])
  {
    var more := hops + [hop];
    forall e | e in log ensures FromSome(e, env, more) {
      assert FromSome(e, env, hops);
      var h :| CameFrom(e, env, hops, h);
      assert more[h] == hops[h];
      assert CameFrom(e, env, more, h);
    }
  }

  // Over any chain of responses: the store is exactly the live cookies of the history,
  // within its bounds and clear of the caller's names, and every arrival is a Set-Cookie
  // of one of the hops.
  lemma {:induction false} ChainKeeps(callerNames: seq<string>, env: Env, hops: seq<Hop>)
    ensures ChainOk(ChainAfter(callerNames, env, hops), callerNames, env, hops)
  {
    if hops != [] {
      var init, last := hops[..|hops| - 1], hops[|hops| - 1];
      ChainKeeps(callerNames, env, init);
      var chain := ChainAfter(callerNames, env, init);
      assert hops == init + [last];
      hide IsHistory, StoreOk, FromSome, AbsorbAll, LogOk;
      LogOkMore(chain.log, env, init, last);
      ResponseKeeps(chain, callerNames, env, hops, |init|, |last.lines|);
      assert last.lines[..|last.lines|] == last.lines;
    }
  }

  // And a live arrival's cookie is among the live cookies.
  lemma {:induction false} LiveIsKept(log: seq<Event>, n: nat, i: nat)
    requires i < n <= |log| && Live(log, i)
    ensures log[i].cookie in LiveCookies(log, n)
  {
    hide Live;
    if i < n - 1 {
      LiveIsKept(log, n - 1, i);
    }
  }

  // ---- every arrival is recorded ----

  ghost predicate Logged(log: seq<Event>, env: Env, hop: Hop, i: int) {
    exists e :: e in log && SetBy(e, env, hop, i)
  }

  predicate Parses(env: Env, hop: Hop, i: nat)
    requires i < |hop.lines|
  {
    hop.uri.host.Some? && EqIgnoreCase(hop.lines[i].0, "set-cookie") &&
    Parsed(env, hop.clock(i), hop.lines[i].1, CanonicalHost(hop.uri.host.value), hop.uri.path).Some?
  }

  lemma {:induction false} LogGrows(chain: Chain, callerNames: seq<string>, env: Env, hop: Hop, n: nat)
    requires n <= |hop.lines|
    ensures chain.log <= AbsorbAll(chain, callerNames, env, hop.clock, hop.lines[..n], hop.uri).log
  {
    hide EventOf;
    if n > 0 {
      assert hop.lines[..n][..n - 1] == hop.lines[..n - 1];
      LogGrows(chain, callerNames, env, hop, n - 1);
    }
  }

  lemma {:induction false} ResponseLogs(chain: Chain, callerNames: seq<string>, env: Env, hop: Hop, n: nat, i: nat)
    requires i < n <= |hop.lines| && Parses(env, hop, i)
    ensures Logged(AbsorbAll(chain, callerNames, env, hop.clock, hop.lines[..n], hop.uri).log, env, hop, i)
  {
    hide Parsed, Judge, EqIgnoreCase, Updated;
    assert hop.lines[..n][..n - 1] == hop.lines[..n - 1];
    var before := AbsorbAll(chain, callerNames, env, hop.clock, hop.lines[..n - 1], hop.uri);
    var e := EventOf(before, callerNames, env, hop.clock(n - 1), hop.lines[n - 1], hop.uri);
    if i == n - 1 {
      assert SetBy(e.value, env, hop, i);
      assert e.value in before.log + [e.value];
    } else {
      ResponseLogs(chain, callerNames, env, hop, n - 1, i);
    }
  }

  // Every Set-Cookie line that parses, of every response of a chain, is in the record.
  lemma {:induction false} EveryLineLogged(callerNames: seq<string>, env: Env, hops: seq<Hop>, h: nat, i: nat)
    requires h < |hops| && i < |hops[h].lines| && Parses(env, hops[h], i)
    ensures Logged(ChainAfter(callerNames, env, hops).log, env, hops[h], i)
  {
    hide Parses, SetBy, AbsorbAll;
    var init, last := hops[..|hops| - 1], hops[|hops| - 1];
    var before := ChainAfter(callerNames, env, init);
    assert last.lines[..|last.lines|] == last.lines;
    if h == |init| {
      ResponseLogs(before, callerNames, env, last, |last.lines|, i);
    } else {
      EveryLineLogged(callerNames, env, init, h, i);
      LogGrows(before, callerNames, env, last, |last.lines|);
    }
  }

  // A cookie in the store is the last accepted Set-Cookie for its name, domain and path.
  lemma {:induction false} LiveSource(log: seq<Event>, n: nat, c: Cookie) returns (i: nat)
    requires n <= |log| && c in LiveCookies(log, n)
    ensures i < n && Live(log, i) && log[i].cookie == c
  {
    hide Live;
    if Live(log, n - 1) && log[n - 1].cookie == c {
      i := n - 1;
    } else {
      i := LiveSource(log, n - 1, c);
    }
  }
}
