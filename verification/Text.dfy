// The string operations the cookie and encoding code is built from. Strings here are
// sequences of characters; the header values they come from are ASCII, so lengths in
// characters are lengths in bytes.
module Text {
  import opened Wrappers

  // Unicode White_Space, which is what trimming removes.
  predicate IsSpace(c: char) {
    '\U{0009}' <= c <= '\U{000D}' || c == ' ' || c == '\U{0085}' || c == '\U{00A0}' || c == '\U{1680}' ||
    '\U{2000}' <= c <= '\U{200A}' || c == '\U{2028}' || c == '\U{2029}' || c == '\U{202F}' ||
    c == '\U{205F}' || c == '\U{3000}'
  }

  function TrimStart(s: string, drop: char -> bool): (t: string)
    ensures |t| <= |s| && t == s[|s| - |t|..]
  {
    if s != [] && drop(s[0]) then TrimStart(s[1..], drop) else s
  }

  function TrimEnd(s: string, drop: char -> bool): (t: string)
    ensures t <= s
  {
    if s != [] && drop(s[|s| - 1]) then TrimEnd(s[..|s| - 1], drop) else s
  }

  function Trim(s: string): (t: string) {
    TrimEnd(TrimStart(s, IsSpace), IsSpace)
  }

  predicate Trimmed(s: string) {
    s == [] || (!IsSpace(s[0]) && !IsSpace(s[|s| - 1]))
  }

  predicate IsDot(c: char) {
    c == '.'
  }

  // A host without the brackets around an IPv6 literal.
  function Unbracketed(host: string): string {
    if |host| >= 2 && host[0] == '[' && host[|host| - 1] == ']' then host[1..|host| - 1] else host
  }

  function Lower(c: char): char {
    if 'A' <= c <= 'Z' then c - 'A' + 'a' else c
  }

  function ToLower(s: string): (t: string)
    ensures |t| == |s|
  {
    seq(|s|, i requires 0 <= i < |s| => Lower(s[i]))
  }

  predicate EqIgnoreCase(s: string, t: string) {
    ToLower(s) == ToLower(t)
  }

  // The pieces between separators; always at least one.
  function Split(s: string, sep: char): (parts: seq<string>)
    ensures |parts| > 0
  {
    if s == [] then [[]]
    else
      var rest := Split(s[1..], sep);
      if s[0] == sep then [[]] + rest else [[s[0]] + rest[0]] + rest[1..]
  }

  // What stands before and after the first separator.
  function SplitOnce(s: string, sep: char): (r: Option<(string, string)>)
    ensures r.Some? ==> s == r.value.0 + [sep] + r.value.1 && sep !in r.value.0
    ensures r.None? ==> sep !in s
  {
    if s == [] then None
    else if s[0] == sep then Some(([], s[1..]))
    else
      match SplitOnce(s[1..], sep)
      case None => None
      case Some((a, b)) => Some(([s[0]] + a, b))
  }

  predicate StartsWith(s: string, p: string) {
    p <= s
  }

  predicate EndsWith(s: string, p: string) {
    |p| <= |s| && s[|s| - |p|..] == p
  }

  // ---- trimming ----

  lemma {:induction false} TrimStartDrops(w: string, s: string, drop: char -> bool)
    requires forall i :: 0 <= i < |w| ==> drop(w[i])
    ensures TrimStart(w + s, drop) == TrimStart(s, drop)
  {
    if w == [] {
      assert w + s == s;
    } else {
      assert (w + s)[0] == w[0] && (w + s)[1..] == w[1..] + s;
      TrimStartDrops(w[1..], s, drop);
    }
  }

  lemma {:induction false} TrimStartStops(s: string, drop: char -> bool)
    ensures TrimStart(s, drop) != [] ==> !drop(TrimStart(s, drop)[0])
  {
    if s != [] && drop(s[0]) {
      TrimStartStops(s[1..], drop);
    }
  }

  lemma {:induction false} TrimEndStops(s: string, drop: char -> bool)
    ensures var t := TrimEnd(s, drop); t != [] ==> !drop(t[|t| - 1]) && t[0] == s[0]
    ensures forall i :: |TrimEnd(s, drop)| <= i < |s| ==> drop(s[i])
  {
    if s != [] && drop(s[|s| - 1]) {
      TrimEndStops(s[..|s| - 1], drop);
    }
  }

  // A string of one character.
  predicate Only(s: string, c: char) {
    forall i :: 0 <= i < |s| ==> s[i] == c
  }

  lemma TrimStartOnly(w: string, c: char, s: string, drop: char -> bool)
    requires Only(w, c) && drop(c) && s != [] && !drop(s[0])
    ensures TrimStart(w + s, drop) == s
  {
    TrimStartDrops(w, s, drop);
  }

  lemma TrimEndOnly(s: string, w: string, c: char, drop: char -> bool)
    requires Only(w, c) && drop(c) && s != [] && !drop(s[|s| - 1])
    ensures TrimEnd(s + w, drop) == s
  {
    TrimEndAll(s, w, drop);
  }

  lemma {:induction false} TrimEndAll(s: string, w: string, drop: char -> bool)
    requires (forall i :: 0 <= i < |w| ==> drop(w[i])) && (s == [] || !drop(s[|s| - 1]))
    ensures TrimEnd(s + w, drop) == s
    decreases |w|
  {
    if w == [] {
      assert s + w == s;
    } else {
      assert (s + w)[..|s + w| - 1] == s + w[..|w| - 1];
      TrimEndAll(s, w[..|w| - 1], drop);
    }
  }

  lemma TrimTrims(s: string)
    ensures Trimmed(Trim(s))
  {
    TrimStartStops(s, IsSpace);
    TrimEndStops(TrimStart(s, IsSpace), IsSpace);
  }

  lemma TrimmedTrim(s: string)
    requires Trimmed(s)
    ensures Trim(s) == s
  {
  }

  // A trimmed string is what trimming it with spaces around gives.
  lemma TrimPadded(w: string, s: string)
    requires Trimmed(s) && forall i :: 0 <= i < |w| ==> IsSpace(w[i])
    ensures Trim(w + s) == s
  {
    TrimStartDrops(w, s, IsSpace);
    TrimmedTrim(s);
  }

  // Trimming keeps only characters of the string.
  lemma TrimKeeps(s: string, c: char)
    ensures c in Trim(s) ==> c in s
  {
    hide TrimStart, TrimEnd;
    var t := TrimStart(s, IsSpace);
    var u := TrimEnd(t, IsSpace);
    if c in u {
      var i :| 0 <= i < |u| && u[i] == c;
      assert t[i] == c;
      assert s[|s| - |t|..][i] == c;
      assert s[|s| - |t| + i] == c;
    }
  }

  // ---- splitting ----

  lemma {:induction false} SplitNone(s: string, sep: char)
    requires sep !in s
    ensures Split(s, sep) == [s]
  {
    if s != [] {
      SplitNone(s[1..], sep);
      assert s == [s[0]] + s[1..];
    }
  }

  lemma {:induction false} SplitAppend(s: string, t: string, sep: char)
    ensures Split(s + [sep] + t, sep) == Split(s, sep) + Split(t, sep)
  {
    var whole := s + [sep] + t;
    if s == [] {
      assert whole[1..] == t;
    } else {
      assert whole[0] == s[0] && whole[1..] == s[1..] + [sep] + t;
      SplitAppend(s[1..], t, sep);
    }
  }

  // Pieces contain no separator.
  lemma {:induction false} SplitPieces(s: string, sep: char)
    ensures forall i :: 0 <= i < |Split(s, sep)| ==> sep !in Split(s, sep)[i]
  {
    if s != [] {
      SplitPieces(s[1..], sep);
      var rest := Split(s[1..], sep);
      forall i | 0 <= i < |Split(s, sep)| ensures sep !in Split(s, sep)[i] {
        assert sep !in rest[0];
        assert i > 0 ==> Split(s, sep)[i] in rest;
      }
    }
  }

  lemma {:induction false} SplitOnceAt(a: string, b: string, sep: char)
    requires sep !in a
    ensures SplitOnce(a + [sep] + b, sep) == Some((a, b))
  {
    var s := a + [sep] + b;
    if a == [] {
      assert s[0] == sep && s[1..] == b;
    } else {
      assert s[0] == a[0] && s[1..] == a[1..] + [sep] + b;
      SplitOnceAt(a[1..], b, sep);
      assert a == [a[0]] + a[1..];
    }
  }

  // ---- joining, and what splitting says about prefixes and suffixes ----

  function Join(parts: seq<string>, sep: char): string
    requires parts != []
  {
    if |parts| == 1 then parts[0] else parts[0] + [sep] + Join(parts[1..], sep)
  }

  lemma {:induction false} JoinSplit(s: string, sep: char)
    ensures Join(Split(s, sep), sep) == s
  {
    if s != [] {
      var rest := Split(s[1..], sep);
      JoinSplit(s[1..], sep);
      assert s == [s[0]] + s[1..];
      if s[0] == sep {
        assert ([[]] + rest)[1..] == rest;
      } else {
        JoinLead(s[0], rest, sep);
      }
    }
  }

  lemma JoinLead(c: char, parts: seq<string>, sep: char)
    requires parts != []
    ensures Join([[c] + parts[0]] + parts[1..], sep) == [c] + Join(parts, sep)
  {
    var grown := [[c] + parts[0]] + parts[1..];
    if |parts| > 1 {
      assert grown[1..] == parts[1..];
      assert [c] + parts[0] + [sep] + Join(parts[1..], sep) == [c] + (parts[0] + [sep] + Join(parts[1..], sep));
    }
  }

  lemma {:induction false} JoinAppend(a: seq<string>, b: seq<string>, sep: char)
    requires a != [] && b != []
    ensures Join(a + b, sep) == Join(a, sep) + [sep] + Join(b, sep)
  {
    assert (a + b)[1..] == a[1..] + b;
    if |a| == 1 {
      assert a[1..] + b == b;
    } else {
      JoinAppend(a[1..], b, sep);
      var x, y, z := a[0], Join(a[1..], sep), Join(b, sep);
      assert x + [sep] + (y + [sep] + z) == x + [sep] + y + [sep] + z;
    }
  }

  // The list b is the end of the list a.
  predicate EndsIn(a: seq<string>, b: seq<string>) {
    |b| <= |a| && a[|a| - |b|..] == b
  }

  // s goes on, after a separator, with t.
  predicate EndsAfter(s: string, t: string, sep: char) {
    |s| > |t| && s[|s| - |t|..] == t && s[|s| - |t| - 1] == sep
  }

  // s goes on with a separator after t.
  predicate GoesOn(s: string, t: string, sep: char) {
    |s| > |t| && s[..|t|] == t && s[|t|] == sep
  }

  lemma JoinedEnds(head: string, t: string, sep: char)
    ensures EndsAfter(head + [sep] + t, t, sep) && GoesOn(head + [sep] + t, head, sep)
  {
  }

  lemma EndsJoined(s: string, t: string, sep: char) returns (head: string)
    requires EndsAfter(s, t, sep)
    ensures s == head + [sep] + t
  {
    head := s[..|s| - |t| - 1];
  }

  lemma GoesJoined(s: string, t: string, sep: char) returns (tail: string)
    requires GoesOn(s, t, sep)
    ensures s == t + [sep] + tail
  {
    tail := s[|t| + 1..];
  }

  // The pieces of t end the pieces of s exactly when t is s, or ends s right after a
  // separator.
  lemma SplitSuffix(s: string, t: string, sep: char)
    ensures EndsIn(Split(s, sep), Split(t, sep)) <==> s == t || EndsAfter(s, t, sep)
  {
    hide Split, Join, EndsAfter;
    var a, b := Split(s, sep), Split(t, sep);
    JoinSplit(s, sep);
    JoinSplit(t, sep);
    if EndsAfter(s, t, sep) {
      var head := EndsJoined(s, t, sep);
      SplitAppend(head, t, sep);
    } else if EndsIn(a, b) && |b| == |a| {
      assert a == b;
    } else if EndsIn(a, b) {
      var head := a[..|a| - |b|];
      assert a == head + b;
      JoinAppend(head, b, sep);
      JoinedEnds(Join(head, sep), t, sep);
      assert false;
    }
  }

  // The pieces of t begin the pieces of s exactly when t is s, or s goes on after t with a
  // separator.
  lemma SplitPrefix(s: string, t: string, sep: char)
    ensures Split(t, sep) <= Split(s, sep) <==> s == t || GoesOn(s, t, sep)
  {
    hide Split, Join, GoesOn;
    var a, b := Split(s, sep), Split(t, sep);
    JoinSplit(s, sep);
    JoinSplit(t, sep);
    if GoesOn(s, t, sep) {
      var tail := GoesJoined(s, t, sep);
      SplitAppend(t, tail, sep);
    } else if b <= a && |b| == |a| {
      assert a == b;
    } else if b <= a {
      var tail := a[|b|..];
      assert a == b + tail;
      JoinAppend(b, tail, sep);
      JoinedEnds(t, Join(tail, sep), sep);
      assert false;
    }
  }
}
