// The cookies one redirect chain holds: a bounded, ordered store.
module Cookies {
  import opened Wrappers
  import opened Text
  import opened CookieRules

  const MAX_COOKIE_BYTES: nat := 4096
  const MAX_COOKIES: nat := 50
  const MAX_CHAIN_BYTES: nat := 8192

  function EntrySize(c: Cookie): nat {
    |c.name| + |c.value| + 3
  }

  function Bytes(cookies: seq<Cookie>): nat {
    if cookies == [] then 0 else Bytes(cookies[..|cookies| - 1]) + EntrySize(cookies[|cookies| - 1])
  }

  // A cookie is replaced by one with the same name, domain and path.
  predicate SameKey(a: Cookie, b: Cookie) {
    a.name == b.name && a.domain == b.domain && a.path == b.path
  }

  function Without(cookies: seq<Cookie>, c: Cookie): seq<Cookie> {
    if cookies == [] then []
    else
      var init, last := cookies[..|cookies| - 1], cookies[|cookies| - 1];
      if SameKey(last, c) then Without(init, c) else Without(init, c) + [last]
  }

  // ---- what the store decides ----

  datatype Verdict = CallerOwned | TooLarge | Removed | OverBudget | Stored

  function Judge(cookies: seq<Cookie>, callerNames: seq<string>, c: Cookie, expired: bool): Verdict {
    if c.name in callerNames then CallerOwned
    else if EntrySize(c) > MAX_COOKIE_BYTES then TooLarge
    else if expired then Removed
    else
      var others := Without(cookies, c);
      if |others| >= MAX_COOKIES || Bytes(others) + EntrySize(c) > MAX_CHAIN_BYTES then OverBudget else Stored
  }

  // A stored cookie goes to the end, whether or not it replaces one.
  function Updated(cookies: seq<Cookie>, c: Cookie, verdict: Verdict): seq<Cookie> {
    match verdict
    case Removed => Without(cookies, c)
    case Stored => Without(cookies, c) + [c]
    case CallerOwned => cookies
    case TooLarge => cookies
    case OverBudget => cookies
  }

  // One well-formed Set-Cookie that arrived, and what was decided about it.
  datatype Event = Event(uri: Uri, value: string, cookie: Cookie, expired: bool, verdict: Verdict)

  // The store, with the whole history of what arrived.
  datatype Chain = Chain(cookies: seq<Cookie>, log: seq<Event>)

  datatype Rejected = Rejected(callerOwned: seq<string>, overLimit: seq<string>)

  function Noted(list: seq<string>, name: string): seq<string> {
    if name in list then list else list + [name]
  }

  function Reported(r: Rejected, name: string, verdict: Verdict): Rejected {
    match verdict
    case CallerOwned => r.(callerOwned := Noted(r.callerOwned, name))
    case TooLarge => r.(overLimit := Noted(r.overLimit, name))
    case OverBudget => r.(overLimit := Noted(r.overLimit, name))
    case Removed => r
    case Stored => r
  }

  type HeaderLine = (string, string)

  // The event a header line read at the time now gives rise to, if it is a Set-Cookie that
  // parses.
  function EventOf(chain: Chain, callerNames: seq<string>, env: Env, now: int, line: HeaderLine, uri: Uri)
    : Option<Event>
  {
    if uri.host.None? || !EqIgnoreCase(line.0, "set-cookie") then None
    else match Parsed(env, now, line.1, CanonicalHost(uri.host.value), uri.path)
      case None => None
      case Some((c, expired)) =>
        Some(Event(uri, line.1, c, expired, Judge(chain.cookies, callerNames, c, expired)))
  }

  function Absorbed(chain: Chain, e: Option<Event>): Chain {
    match e
    case None => chain
    case Some(event) => Chain(Updated(chain.cookies, event.cookie, event.verdict), chain.log + [event])
  }

  // The lines of one response, in order; clock gives the time at which each is read.
  function AbsorbAll(chain: Chain, callerNames: seq<string>, env: Env, clock: nat -> int,
                     lines: seq<HeaderLine>, uri: Uri): Chain
  {
    if lines == [] then chain
    else
      var last := |lines| - 1;
      var before := AbsorbAll(chain, callerNames, env, clock, lines[..last], uri);
      Absorbed(before, EventOf(before, callerNames, env, clock(last), lines[last], uri))
  }

  // The report on one response: its refused names, from its events.
  function ReportOn(log: seq<Event>, from: nat): Rejected
    requires from <= |log|
    decreases |log|
  {
    if |log| == from then Rejected([], [])
    else
      var last := log[|log| - 1];
      Reported(ReportOn(log[..|log| - 1], from), last.cookie.name, last.verdict)
  }

  // ---- the store invariant ----

  ghost predicate KeysUnique(cookies: seq<Cookie>) {
    forall i, j :: 0 <= i < j < |cookies| ==> !SameKey(cookies[i], cookies[j])
  }

  ghost predicate StoreOk(cookies: seq<Cookie>, callerNames: seq<string>) {
    |cookies| <= MAX_COOKIES && Bytes(cookies) <= MAX_CHAIN_BYTES && KeysUnique(cookies) &&
    forall c :: c in cookies ==> EntrySize(c) <= MAX_COOKIE_BYTES && c.name !in callerNames && PairOk(c)
  }

  lemma {:induction false} WithoutMembers(cookies: seq<Cookie>, c: Cookie)
    ensures forall d :: d in Without(cookies, c) <==> d in cookies && !SameKey(d, c)
  {
    hide SameKey;
    if cookies != [] {
      var init, last := cookies[..|cookies| - 1], cookies[|cookies| - 1];
      assert cookies == init + [last];
      WithoutMembers(init, c);
    }
  }

  lemma {:induction false} WithoutShrinks(cookies: seq<Cookie>, c: Cookie)
    ensures |Without(cookies, c)| <= |cookies| && Bytes(Without(cookies, c)) <= Bytes(cookies)
  {
    if cookies != [] {
      var init, last := cookies[..|cookies| - 1], cookies[|cookies| - 1];
      WithoutShrinks(init, c);
      BytesSnoc(Without(init, c), last);
    }
  }

  lemma BytesSnoc(cookies: seq<Cookie>, c: Cookie)
    ensures Bytes(cookies + [c]) == Bytes(cookies) + EntrySize(c)
  {
    assert (cookies + [c])[..|cookies + [c]| - 1] == cookies;
  }

  lemma {:induction false} WithoutUnique(cookies: seq<Cookie>, c: Cookie)
    requires KeysUnique(cookies)
    ensures KeysUnique(Without(cookies, c))
  {
    if cookies != [] {
      var init, last := cookies[..|cookies| - 1], cookies[|cookies| - 1];
      WithoutUnique(init, c);
      WithoutMembers(init, c);
      var w := Without(init, c);
      forall d | d in w ensures !SameKey(d, last) {
        var i :| 0 <= i < |init| && init[i] == d;
        assert cookies[i] == d;
      }
    }
  }

  lemma KeyOfOther(a: Cookie, b: Cookie, c: Cookie)
    requires SameKey(a, c)
    ensures SameKey(a, b) == SameKey(b, c) && SameKey(b, a) == SameKey(b, c)
  {
  }

  lemma WithoutSnoc(cookies: seq<Cookie>, d: Cookie, c: Cookie)
    ensures Without(cookies + [d], c) == Without(cookies, c) + if SameKey(d, c) then [] else [d]
  {
    var all := cookies + [d];
    assert all[..|all| - 1] == cookies;
  }

  lemma {:induction false} WithoutNone(cookies: seq<Cookie>, c: Cookie)
    requires forall i :: 0 <= i < |cookies| ==> !SameKey(cookies[i], c)
    ensures Without(cookies, c) == cookies
  {
    hide SameKey;
    if cookies != [] {
      var init, last := cookies[..|cookies| - 1], cookies[|cookies| - 1];
      assert cookies == init + [last];
      WithoutNone(init, c);
      WithoutSnoc(init, last, c);
    }
  }

  // The cookies after the one with the key of c are kept as they are.
  lemma {:induction false} WithoutTail(head: seq<Cookie>, tail: seq<Cookie>, c: Cookie)
    requires forall i :: 0 <= i < |tail| ==> !SameKey(tail[i], c)
    ensures Without(head + tail, c) == Without(head, c) + tail
    ensures Bytes(head + tail) == Bytes(head) + Bytes(tail)
  {
    hide SameKey, EntrySize;
    if tail == [] {
      assert head + tail == head && Without(head, c) + tail == Without(head, c);
    } else {
      hide Without, Bytes;
      var init, last := tail[..|tail| - 1], tail[|tail| - 1];
      assert tail == init + [last];
      WithoutTail(head, init, c);
      WithoutSnoc(head + init, last, c);
      Associative(head, init, [last]);
      Associative(Without(head, c), init, [last]);
      BytesSnoc(head + init, last);
      BytesSnoc(init, last);
    }
  }

  lemma Associative(a: seq<Cookie>, b: seq<Cookie>, c: seq<Cookie>)
    ensures a + b + c == a + (b + c)
  {
  }

  // Taking out the one cookie with a key.
  lemma WithoutAt(cookies: seq<Cookie>, i: nat, c: Cookie)
    requires KeysUnique(cookies) && i < |cookies| && SameKey(cookies[i], c)
    ensures Without(cookies, c) == cookies[..i] + cookies[i + 1..]
    ensures Bytes(Without(cookies, c)) == Bytes(cookies) - EntrySize(cookies[i])
    ensures |Without(cookies, c)| == |cookies| - 1
  {
    var before, d, after := cookies[..i], cookies[i], cookies[i + 1..];
    forall k | 0 <= k < |cookies| && k != i ensures !SameKey(cookies[k], c) {
      KeyOfOther(d, cookies[k], c);
    }
    hide SameKey, EntrySize, KeysUnique, Without, Bytes;
    assert cookies == before + [d] + after;
    WithoutNone(before, c);
    WithoutSnoc(before, d, c);
    WithoutTail(before + [d], after, c);
    BytesSnoc(before, d);
    assert before + [] == before;
    WithoutTail(before, after, c);
  }

  lemma WithoutOk(cookies: seq<Cookie>, callerNames: seq<string>, c: Cookie)
    requires StoreOk(cookies, callerNames)
    ensures StoreOk(Without(cookies, c), callerNames)
  {
    hide PairOk, Bytes, Without, KeysUnique, EntrySize;
    WithoutShrinks(cookies, c);
    WithoutUnique(cookies, c);
    WithoutMembers(cookies, c);
  }

  lemma AppendOk(cookies: seq<Cookie>, callerNames: seq<string>, c: Cookie)
    requires StoreOk(cookies, callerNames) && PairOk(c) && c.name !in callerNames
    requires forall d :: d in cookies ==> !SameKey(d, c)
    requires |cookies| < MAX_COOKIES && Bytes(cookies) + EntrySize(c) <= MAX_CHAIN_BYTES
    requires EntrySize(c) <= MAX_COOKIE_BYTES
    ensures StoreOk(cookies + [c], callerNames)
  {
    hide PairOk, Bytes, EntrySize, SameKey;
    BytesSnoc(cookies, c);
  }

  // Every decision keeps the bounds, the unique keys and the caller's names; every
  // refusal leaves the store alone.
  lemma DecisionKeeps(cookies: seq<Cookie>, callerNames: seq<string>, c: Cookie, expired: bool)
    requires StoreOk(cookies, callerNames) && PairOk(c)
    ensures var verdict := Judge(cookies, callerNames, c, expired);
      StoreOk(Updated(cookies, c, verdict), callerNames) &&
      (verdict.CallerOwned? || verdict.TooLarge? || verdict.OverBudget? ==> Updated(cookies, c, verdict) == cookies)
  {
    hide PairOk, Bytes, Without, StoreOk, EntrySize, SameKey;
    WithoutOk(cookies, callerNames, c);
    WithoutMembers(cookies, c);
    if Judge(cookies, callerNames, c, expired).Stored? {
      AppendOk(Without(cookies, c), callerNames, c);
    }
  }

  // What a cookie costs, counting what is printed around it.
  lemma CostOf(c: Cookie)
    ensures EntrySize(c) == |c.name + "=" + c.value + "; "|
  {
  }

  // The cookie at position i, if any, is the one with the name, domain and path of c.
  ghost predicate Incumbent(cookies: seq<Cookie>, c: Cookie, i: Option<nat>) {
    match i
    case Some(k) =>
      k < |cookies| && cookies[k].name == c.name && cookies[k].domain == c.domain && cookies[k].path == c.path
    case None =>
      forall k :: 0 <= k < |cookies| ==>
        cookies[k].name != c.name || cookies[k].domain != c.domain || cookies[k].path != c.path
  }

  // The store without its incumbent.
  function Rest(cookies: seq<Cookie>, i: Option<nat>): seq<Cookie>
    requires i.Some? ==> i.value < |cookies|
  {
    match i case Some(k) => cookies[..k] + cookies[k + 1..] case None => cookies
  }

  lemma RestIsWithout(cookies: seq<Cookie>, c: Cookie, i: Option<nat>)
    requires KeysUnique(cookies) && Incumbent(cookies, c, i)
    ensures Without(cookies, c) == Rest(cookies, i)
    ensures Bytes(Rest(cookies, i)) == Bytes(cookies) - if i.Some? then EntrySize(cookies[i.value]) else 0
  {
    hide Without, Bytes, EntrySize;
    match i
    case Some(k) => WithoutAt(cookies, k, c);
    case None => WithoutNone(cookies, c);
  }

  // Which cookies are stored, which remove one, and what the store is then: a replacement is
  // credited the room its predecessor frees, and goes to the end.
  lemma DecisionExactly(cookies: seq<Cookie>, callerNames: seq<string>, c: Cookie, expired: bool, i: Option<nat>)
    requires KeysUnique(cookies) && Incumbent(cookies, c, i)
    ensures var verdict := Judge(cookies, callerNames, c, expired);
      var after := Updated(cookies, c, verdict);
      var own := c.name in callerNames; var large := |c.name| + |c.value| + 3 > 4096;
      var credit := if i.Some? then EntrySize(cookies[i.value]) else 0;
      var room := |Rest(cookies, i)| < 50 && Bytes(cookies) - credit + EntrySize(c) <= 8192;
      (verdict.CallerOwned? <==> own) && (verdict.TooLarge? <==> !own && large) &&
      (verdict.Removed? <==> !own && !large && expired) &&
      (verdict.Stored? <==> !own && !large && !expired && room) &&
      after == (if own || large then cookies else if expired then Rest(cookies, i)
                else if room then Rest(cookies, i) + [c] else cookies)
  {
    RestIsWithout(cookies, c, i);
    hide Without, Bytes, Rest, Incumbent;
  }

  // ---- the report ----

  ghost predicate Refused(log: seq<Event>, from: nat, name: string, own: bool) {
    exists i :: from <= i < |log| && log[i].cookie.name == name &&
      if own then log[i].verdict.CallerOwned? else log[i].verdict.TooLarge? || log[i].verdict.OverBudget?
  }

  ghost predicate Once(names: seq<string>) {
    forall i, j :: 0 <= i < j < |names| ==> names[i] != names[j]
  }

  // The report on a response names, once each, the cookies refused as the caller's own and
  // those refused for their size.
  lemma {:induction false} ReportExactly(log: seq<Event>, from: nat)
    requires from <= |log|
    ensures var r := ReportOn(log, from);
      Once(r.callerOwned) && Once(r.overLimit) &&
      (forall n :: n in r.callerOwned <==> Refused(log, from, n, true)) &&
      (forall n :: n in r.overLimit <==> Refused(log, from, n, false))
    decreases |log|
  {
    if |log| > from {
      var init, last := log[..|log| - 1], log[|log| - 1];
      ReportExactly(init, from);
      var r := ReportOn(init, from);
      hide ReportOn;
      forall n ensures Refused(log, from, n, true) <==> Refused(init, from, n, true) || (last.cookie.name == n && last.verdict.CallerOwned?) {
        RefusedSnoc(init, last, from, n, true);
        assert init + [last] == log;
      }
      forall n ensures Refused(log, from, n, false)
        <==> Refused(init, from, n, false) || (last.cookie.name == n && (last.verdict.TooLarge? || last.verdict.OverBudget?))
      {
        RefusedSnoc(init, last, from, n, false);
        assert init + [last] == log;
      }
      ReportSnoc(log, from);
    }
  }

  lemma RefusedSnoc(log: seq<Event>, e: Event, from: nat, name: string, own: bool)
    requires from <= |log|
    ensures Refused(log + [e], from, name, own) <==>
      Refused(log, from, name, own) ||
      (e.cookie.name == name && if own then e.verdict.CallerOwned? else e.verdict.TooLarge? || e.verdict.OverBudget?)
  {
    var more := log + [e];
    assert forall i :: 0 <= i < |log| ==> more[i] == log[i];
    assert more[|log|] == e;
  }

  lemma ReportSnoc(log: seq<Event>, from: nat)
    requires from < |log|
    ensures var last := log[|log| - 1];
      ReportOn(log, from) == Reported(ReportOn(log[..|log| - 1], from), last.cookie.name, last.verdict)
  {
  }

  // ---- the class ----

  class ChainCookies {
    var cookies: seq<Cookie>
    const callerNames: seq<string>
    ghost var log: seq<Event>

    ghost predicate Valid()
      reads this
    {
      StoreOk(cookies, callerNames)
    }

    ghost function State(): Chain
      reads this
    {
      Chain(cookies, log)
    }

    constructor ()
      ensures Valid() && State() == Chain([], []) && callerNames == []
    {
      cookies, callerNames, log := [], [], [];
    }

    constructor WithCallerCookies(callerNames: seq<string>)
      ensures Valid() && State() == Chain([], []) && this.callerNames == callerNames
    {
      this.cookies, this.callerNames, this.log := [], callerNames, [];
    }

    // The position of the cookie with the key of c.
    method Position(c: Cookie) returns (i: Option<nat>)
      ensures i.Some? ==> i.value < |cookies| && SameKey(cookies[i.value], c)
      ensures i.None? ==> forall k :: 0 <= k < |cookies| ==> !SameKey(cookies[k], c)
    {
      for k := 0 to |cookies|
        invariant forall m :: 0 <= m < k ==> !SameKey(cookies[m], c)
      {
        if SameKey(cookies[k], c) {
          return Some(k);
        }
      }
      return None;
    }

    // Decide about one parsed cookie: the body of the loop in Store.
    method StoreOne(cookie: Cookie, expired: bool, rejected: Rejected)
      returns (report: Rejected, ghost verdict: Verdict)
      requires Valid() && PairOk(cookie)
      modifies this`cookies
      ensures Valid() && verdict == Judge(old(cookies), callerNames, cookie, expired)
      ensures cookies == Updated(old(cookies), cookie, verdict)
      ensures report == Reported(rejected, cookie.name, verdict)
    {
      hide PairOk, Bytes, EntrySize, Without;
      DecisionKeeps(cookies, callerNames, cookie, expired);
      verdict := Judge(cookies, callerNames, cookie, expired);
      report := rejected;
      if cookie.name in callerNames {
        report := report.(callerOwned := Noted(report.callerOwned, cookie.name));
        return;
      }
      if EntrySize(cookie) > MAX_COOKIE_BYTES {
        report := report.(overLimit := Noted(report.overLimit, cookie.name));
        return;
      }
      var replacing := Position(cookie);
      if replacing.Some? {
        WithoutAt(cookies, replacing.value, cookie);
      } else {
        WithoutNone(cookies, cookie);
      }
      if expired {
        if replacing.Some? {
          var i := replacing.value;
          cookies := cookies[..i] + cookies[i + 1..];
        }
        return;
      }
      var freed := if replacing.Some? then EntrySize(cookies[replacing.value]) else 0;
      var held := |cookies| - if replacing.Some? then 1 else 0;
      if held >= MAX_COOKIES || Bytes(cookies) - freed + EntrySize(cookie) > MAX_CHAIN_BYTES {
        report := report.(overLimit := Noted(report.overLimit, cookie.name));
        return;
      }
      if replacing.Some? {
        var i := replacing.value;
        cookies := cookies[..i] + cookies[i + 1..];
      }
      cookies := cookies + [cookie];
    }

    // Take every Set-Cookie out of a response that came back from uri.
    method Store(env: Env, clock: nat -> int, headers: seq<HeaderLine>, uri: Uri) returns (rejected: Rejected)
      requires Valid()
      modifies this`cookies, this`log
      ensures Valid() && State() == AbsorbAll(old(State()), callerNames, env, clock, headers, uri)
      ensures old(log) <= log && rejected == ReportOn(log, |old(log)|)
    {
      hide StoreOk, Judge, Updated, Parsed, Reported;
      rejected := Rejected([], []);
      if uri.host.None? {
        NothingWithoutHost(State(), callerNames, env, clock, headers, uri);
        return;
      }
      var host := CanonicalHost(uri.host.value);
      var requestPath := uri.path;
      for i := 0 to |headers|
        invariant Valid() && State() == AbsorbAll(old(State()), callerNames, env, clock, headers[..i], uri)
        invariant old(log) <= log && rejected == ReportOn(log, |old(log)|)
      {
        assert headers[..i + 1][..i] == headers[..i];
        var (name, value) := headers[i];
        if !EqIgnoreCase(name, "set-cookie") {
          continue;
        }
        var parsed := ParseSetCookie(env, clock(i), value, host, requestPath);
        if parsed.None? {
          continue;
        }
        var (cookie, expired) := parsed.value;
        ParsedPair(env, clock(i), value, host, requestPath);
        ghost var verdict;
        rejected, verdict := StoreOne(cookie, expired, rejected);
        ghost var event := Event(uri, value, cookie, expired, verdict);
        assert (log + [event])[..|log + [event]| - 1] == log;
        log := log + [event];
      }
      assert headers[..|headers|] == headers;
    }
  }

  lemma {:induction false} NothingWithoutHost(chain: Chain, callerNames: seq<string>, env: Env, clock: nat -> int,
                                              lines: seq<HeaderLine>, uri: Uri)
    requires uri.host.None?
    ensures AbsorbAll(chain, callerNames, env, clock, lines, uri) == chain
  {
    if lines != [] {
      NothingWithoutHost(chain, callerNames, env, clock, lines[..|lines| - 1], uri);
    }
  }
}
