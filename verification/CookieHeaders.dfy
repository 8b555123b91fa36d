// The Cookie header of a hop: which cookies, in which order, printed how; and the
// caller's own cookies beside them.
module CookieHeaders {
  import opened Wrappers
  import opened Text
  import opened CookieRules
  import opened Cookies

  // ---- choosing and ordering ----

  predicate Applies(env: Env, c: Cookie, uri: Uri) {
    uri.host.Some? &&
    (c.secure ==> uri.scheme == Some("https")) &&
    (if c.hostOnly then CanonicalHost(uri.host.value) == c.domain
     else DomainMatches(env, CanonicalHost(uri.host.value), c.domain)) &&
    PathMatches(uri.path, c.path)
  }

  function Matched(env: Env, cookies: seq<Cookie>, uri: Uri): seq<Cookie> {
    if cookies == [] then []
    else if Applies(env, cookies[0], uri) then [cookies[0]] + Matched(env, cookies[1..], uri)
    else Matched(env, cookies[1..], uri)
  }

  // Before every cookie with a path no longer than its own.
  function InsertByPath(c: Cookie, sorted: seq<Cookie>): seq<Cookie> {
    if sorted == [] || |c.path| >= |sorted[0].path| then [c] + sorted
    else [sorted[0]] + InsertByPath(c, sorted[1..])
  }

  // The stable sort: longer paths first.
  function ByPath(cookies: seq<Cookie>): seq<Cookie> {
    if cookies == [] then [] else InsertByPath(cookies[0], ByPath(cookies[1..]))
  }

  function Pair(c: Cookie): string {
    c.name + "=" + c.value
  }

  function Print(cookies: seq<Cookie>): string {
    if cookies == [] then []
    else if |cookies| == 1 then Pair(cookies[0])
    else Pair(cookies[0]) + "; " + Print(cookies[1..])
  }

  // The Cookie header value for a hop, or none when nothing applies.
  function HeaderFor(env: Env, cookies: seq<Cookie>, uri: Uri): Option<string> {
    var matched := Matched(env, cookies, uri);
    if matched == [] then None else Some(Print(ByPath(matched)))
  }

  lemma {:induction false} MatchedApply(env: Env, cookies: seq<Cookie>, uri: Uri)
    ensures forall c :: c in Matched(env, cookies, uri) <==> c in cookies && Applies(env, c, uri)
  {
    hide Applies;
    if cookies != [] {
      MatchedApply(env, cookies[1..], uri);
      assert cookies == [cookies[0]] + cookies[1..];
    }
  }

  // A cookie applies to a URI exactly when it has a host, its transport is secure if the
  // cookie is, its host is the cookie's or has labels that end in those of the cookie's
  // domain, and the segments of its path begin with those of the cookie's path.
  lemma AppliesExactly(env: Env, c: Cookie, uri: Uri)
    ensures Applies(env, c, uri) <==>
      uri.host.Some? && (c.secure ==> uri.scheme == Some("https")) &&
      (if c.hostOnly then CanonicalHost(uri.host.value) == c.domain
       else Reaches(env, c.domain, CanonicalHost(uri.host.value))) &&
      Covers(c.path, uri.path)
  {
    hide DomainMatches, PathMatches, Reaches, Covers, CanonicalHost;
    PathSegments(uri.path, c.path);
    if uri.host.Some? {
      DomainLabels(env, CanonicalHost(uri.host.value), c.domain);
    }
  }

  // Choosing keeps the order of the store, cookie by cookie.
  lemma {:induction false} MatchedAppend(env: Env, cookies: seq<Cookie>, c: Cookie, uri: Uri)
    ensures Matched(env, [], uri) == []
    ensures Matched(env, cookies + [c], uri) == Matched(env, cookies, uri) + if Applies(env, c, uri) then [c] else []
  {
    hide Applies;
    var all := cookies + [c];
    if cookies == [] {
      assert all[1..] == [] && all[0] == c;
      assert Matched(env, all[1..], uri) == [];
    } else {
      assert all[0] == cookies[0] && all[1..] == cookies[1..] + [c];
      MatchedAppend(env, cookies[1..], c, uri);
    }
  }

  ghost predicate LongestFirst(cookies: seq<Cookie>) {
    forall i, j :: 0 <= i < j < |cookies| ==> |cookies[i].path| >= |cookies[j].path|
  }

  // The cookies whose path has length n, in order.
  function OfLength(cookies: seq<Cookie>, n: nat): seq<Cookie> {
    if cookies == [] then []
    else if |cookies[0].path| == n then [cookies[0]] + OfLength(cookies[1..], n)
    else OfLength(cookies[1..], n)
  }

  lemma {:induction false} InsertMultiset(c: Cookie, sorted: seq<Cookie>)
    ensures multiset(InsertByPath(c, sorted)) == multiset(sorted) + multiset{c}
  {
    if sorted != [] && |c.path| < |sorted[0].path| {
      InsertMultiset(c, sorted[1..]);
      assert sorted == [sorted[0]] + sorted[1..];
    }
  }

  lemma {:induction false} InsertSorts(c: Cookie, sorted: seq<Cookie>)
    requires LongestFirst(sorted)
    ensures LongestFirst(InsertByPath(c, sorted))
    ensures forall d :: d in InsertByPath(c, sorted) ==> d in sorted || d == c
  {
    if sorted != [] && |c.path| < |sorted[0].path| {
      var rest := sorted[1..];
      InsertSorts(c, rest);
      var r := InsertByPath(c, rest);
      forall d | d in r ensures |d.path| <= |sorted[0].path| && (d in sorted || d == c) {
      }
    }
  }

  lemma {:induction false} InsertStable(c: Cookie, sorted: seq<Cookie>, n: nat)
    requires LongestFirst(sorted)
    ensures OfLength(InsertByPath(c, sorted), n)
         == if |c.path| == n then [c] + OfLength(sorted, n) else OfLength(sorted, n)
  {
    if sorted != [] && |c.path| < |sorted[0].path| {
      var rest := sorted[1..];
      InsertStable(c, rest, n);
      var all := [sorted[0]] + InsertByPath(c, rest);
      assert all[1..] == InsertByPath(c, rest);
      if |sorted[0].path| == n {
        assert |c.path| != n;
      }
    } else {
      assert ([c] + sorted)[1..] == sorted;
    }
  }

  lemma OfLengthCons(cookies: seq<Cookie>, n: nat)
    requires cookies != []
    ensures OfLength(cookies, n)
         == if |cookies[0].path| == n then [cookies[0]] + OfLength(cookies[1..], n) else OfLength(cookies[1..], n)
  {
  }

  // Sorting reorders the cookies, puts longer paths first and keeps ties in stored order.
  lemma {:induction false} ByPathSorts(cookies: seq<Cookie>, n: nat)
    ensures LongestFirst(ByPath(cookies))
    ensures multiset(ByPath(cookies)) == multiset(cookies)
    ensures OfLength(ByPath(cookies), n) == OfLength(cookies, n)
  {
    if cookies != [] {
      hide LongestFirst, OfLength, InsertByPath;
      OfLengthCons(cookies, n);
      ByPathSorts(cookies[1..], n);
      InsertSorts(cookies[0], ByPath(cookies[1..]));
      InsertMultiset(cookies[0], ByPath(cookies[1..]));
      InsertStable(cookies[0], ByPath(cookies[1..]), n);
      assert cookies == [cookies[0]] + cookies[1..];
    }
  }

  // ---- the size of the header ----

  function Cost(cookies: seq<Cookie>): nat {
    if cookies == [] then 0 else EntrySize(cookies[0]) + Cost(cookies[1..])
  }

  lemma {:induction false} CostAppend(a: seq<Cookie>, b: seq<Cookie>)
    ensures Cost(a + b) == Cost(a) + Cost(b)
  {
    if a == [] {
      assert a + b == b;
    } else {
      assert (a + b)[0] == a[0] && (a + b)[1..] == a[1..] + b;
      CostAppend(a[1..], b);
    }
  }

  lemma {:induction false} CostIsBytes(cookies: seq<Cookie>)
    ensures Cost(cookies) == Bytes(cookies)
  {
    if cookies != [] {
      var init, last := cookies[..|cookies| - 1], [cookies[|cookies| - 1]];
      CostIsBytes(init);
      CostAppend(init, last);
      assert cookies == init + last;
      assert Cost(last) == EntrySize(last[0]) + Cost([]);
    }
  }

  lemma {:induction false} MatchedCost(env: Env, cookies: seq<Cookie>, uri: Uri)
    ensures Cost(Matched(env, cookies, uri)) <= Cost(cookies)
  {
    hide Applies;
    if cookies != [] {
      MatchedCost(env, cookies[1..], uri);
      var rest := Matched(env, cookies[1..], uri);
      assert ([cookies[0]] + rest)[1..] == rest;
    }
  }

  lemma {:induction false} InsertCost(c: Cookie, sorted: seq<Cookie>)
    ensures Cost(InsertByPath(c, sorted)) == EntrySize(c) + Cost(sorted)
  {
    if sorted == [] || |c.path| >= |sorted[0].path| {
      assert ([c] + sorted)[1..] == sorted;
    } else {
      InsertCost(c, sorted[1..]);
      var rest := InsertByPath(c, sorted[1..]);
      assert ([sorted[0]] + rest)[1..] == rest;
    }
  }

  lemma {:induction false} ByPathCost(cookies: seq<Cookie>)
    ensures Cost(ByPath(cookies)) == Cost(cookies)
  {
    if cookies != [] {
      ByPathCost(cookies[1..]);
      InsertCost(cookies[0], ByPath(cookies[1..]));
    }
  }

  lemma {:induction false} PrintLength(cookies: seq<Cookie>)
    requires cookies != []
    ensures |Print(cookies)| + 2 == Cost(cookies)
  {
    if |cookies| > 1 {
      PrintLength(cookies[1..]);
    } else {
      assert Cost(cookies[1..]) == 0;
    }
  }

  // Any header made from a store within its bounds fits 8190 bytes.
  lemma HeaderFits(env: Env, cookies: seq<Cookie>, callerNames: seq<string>, uri: Uri)
    requires StoreOk(cookies, callerNames) && HeaderFor(env, cookies, uri).Some?
    ensures |HeaderFor(env, cookies, uri).value| <= 8190
  {
    hide Matched, ByPath, Print, Cost, Bytes;
    var matched := Matched(env, cookies, uri);
    CostIsBytes(cookies);
    MatchedCost(env, cookies, uri);
    ByPathCost(matched);
    ByPathSorts(matched, 0);
    assert |ByPath(matched)| == |multiset(ByPath(matched))| == |multiset(matched)| == |matched|;
    PrintLength(ByPath(matched));
  }

  // ---- reading a Cookie header ----

  // One piece of a header: a name and a value, when there is an equals sign.
  function ReadPair(piece: string): Option<(string, string)> {
    match SplitOnce(piece, '=')
    case None => None
    case Some((n, v)) => Some((Trim(n), Trim(v)))
  }

  function ReadPairs(pieces: seq<string>): seq<(string, string)> {
    if pieces == [] then []
    else
      (match ReadPair(pieces[0]) case None => [] case Some(p) => [p]) + ReadPairs(pieces[1..])
  }

  lemma {:induction false} ReadPairsAppend(a: seq<string>, b: seq<string>)
    ensures ReadPairs(a + b) == ReadPairs(a) + ReadPairs(b)
  {
    hide ReadPair;
    if a == [] {
      assert a + b == b;
    } else {
      assert (a + b)[0] == a[0] && (a + b)[1..] == a[1..] + b;
      ReadPairsAppend(a[1..], b);
    }
  }

  function PairOf(c: Cookie): (string, string) {
    (c.name, c.value)
  }

  function PairsOf(cookies: seq<Cookie>): (p: seq<(string, string)>)
    ensures |p| == |cookies|
  {
    seq(|cookies|, i requires 0 <= i < |cookies| => PairOf(cookies[i]))
  }

  // A pair, with a space before it or not, reads back.
  lemma PairRoundTrip(c: Cookie, space: string)
    requires PairOk(c) && (space == "" || space == " ")
    ensures Split(space + Pair(c), ';') == [space + Pair(c)]
    ensures ReadPairs([space + Pair(c)]) == [PairOf(c)]
  {
    var piece := space + Pair(c);
    SplitNone(piece, ';');
    SplitOnceAt(space + c.name, c.value, '=');
    assert piece == space + c.name + ['='] + c.value;
    hide SplitOnce, Split, Trim, Trimmed;
    TrimPadded(space, c.name);
    TrimPadded("", c.value);
    assert "" + c.value == c.value;
    assert ReadPair(piece) == Some(PairOf(c));
    assert ReadPairs([piece]) == [PairOf(c)] + ReadPairs([]);
  }

  // What is printed splits back into exactly the pairs that were printed.
  lemma {:induction false} PrintRoundTrip(cookies: seq<Cookie>, space: string)
    requires cookies != [] && (forall c :: c in cookies ==> PairOk(c)) && (space == "" || space == " ")
    ensures ReadPairs(Split(space + Print(cookies), ';')) == PairsOf(cookies)
  {
    hide PairOk, Pair, ReadPairs, Split;
    var first, rest := cookies[0], cookies[1..];
    PairRoundTrip(first, space);
    if rest == [] {
      assert PairsOf(cookies) == [PairOf(first)];
    } else {
      var head, tail := space + Pair(first), " " + Print(rest);
      assert space + Print(cookies) == head + [';'] + tail;
      SplitAppend(head, tail, ';');
      PrintRoundTrip(rest, " ");
      ReadPairsAppend([head], Split(tail, ';'));
      assert PairsOf(cookies) == [PairOf(first)] + PairsOf(rest);
    }
  }

  // The header of a hop reads back as exactly the matched pairs, in sorted order.
  lemma HeaderRoundTrip(env: Env, cookies: seq<Cookie>, callerNames: seq<string>, uri: Uri)
    requires StoreOk(cookies, callerNames) && HeaderFor(env, cookies, uri).Some?
    ensures ReadPairs(Split(HeaderFor(env, cookies, uri).value, ';'))
         == PairsOf(ByPath(Matched(env, cookies, uri)))
  {
    hide Matched, ByPath, Print, PairOk, ReadPairs, Split;
    var matched := Matched(env, cookies, uri);
    MatchedApply(env, cookies, uri);
    ByPathSorts(matched, 0);
    var sorted := ByPath(matched);
    forall c | c in sorted ensures PairOk(c) {
      assert c in multiset(sorted);
    }
    assert sorted != [] by {
      assert |multiset(sorted)| == |multiset(matched)|;
    }
    PrintRoundTrip(sorted, "");
    assert "" + Print(sorted) == Print(sorted);
  }

  // ---- a cookie goes back to where it came from ----

  // A cookie without Domain and Path is sent back to the URI that set it exactly when
  // that URI has an absolute path and a transport the cookie allows.
  lemma SentBack(env: Env, now: int, value: string, uri: Uri)
    requires uri.host.Some?
    requires Parsed(env, now, value, CanonicalHost(uri.host.value), uri.path).Some?
    requires LastDomain(Split(value, ';')[1..]).None? && LastPath(Split(value, ';')[1..]).None?
    ensures var c := Parsed(env, now, value, CanonicalHost(uri.host.value), uri.path).value.0;
      Applies(env, c, uri) <==> StartsWith(uri.path, "/") && (c.secure ==> uri.scheme == Some("https"))
  {
    hide Split, Trim, LastDomain, LastPath, LastMaxAge, LastExpires, PathMatches, DefaultPath, SplitOnce;
    DefaultPathCovers(uri.path);
  }
}
