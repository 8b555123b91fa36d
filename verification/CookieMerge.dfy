// The caller's own Cookie headers: the names they pin, and the merged request.
module CookieMerge {
  import opened Wrappers
  import opened Text
  import opened CookieRules
  import opened Cookies
  import opened CookieHeaders

  // ---- names, once each ----

  function Distinct(names: seq<string>): seq<string> {
    if names == [] then [] else Noted(Distinct(names[..|names| - 1]), names[|names| - 1])
  }

  // The names of a list that are not among those seen, once each.
  function Fresh(names: seq<string>, seen: seq<string>): seq<string> {
    if names == [] then []
    else
      var init, last := Fresh(names[..|names| - 1], seen), names[|names| - 1];
      if last in seen then init else Noted(init, last)
  }

  lemma {:induction false} DistinctMembers(names: seq<string>)
    ensures forall n :: n in Distinct(names) <==> n in names
  {
    if names != [] {
      var init := names[..|names| - 1];
      DistinctMembers(init);
      assert names == init + [names[|names| - 1]];
    }
  }

  lemma {:induction false} FreshMembers(names: seq<string>, seen: seq<string>)
    ensures forall n :: n in Fresh(names, seen) <==> n in names && n !in seen
  {
    if names != [] {
      var init := names[..|names| - 1];
      FreshMembers(init, seen);
      assert names == init + [names[|names| - 1]];
    }
  }

  lemma DistinctSnoc(names: seq<string>, n: string)
    ensures Distinct(names + [n]) == Noted(Distinct(names), n)
  {
    assert (names + [n])[..|names + [n]| - 1] == names;
  }

  lemma FreshSnoc(names: seq<string>, n: string, seen: seq<string>)
    ensures Fresh(names + [n], seen) == if n in seen then Fresh(names, seen) else Noted(Fresh(names, seen), n)
  {
    assert (names + [n])[..|names + [n]| - 1] == names;
  }

  lemma {:induction false} DistinctAppend(a: seq<string>, b: seq<string>)
    ensures Distinct(a + b) == Distinct(a) + Fresh(b, a)
  {
    if b == [] {
      assert a + b == a;
    } else {
      hide Distinct, Fresh, Noted;
      var init, last := b[..|b| - 1], b[|b| - 1];
      assert b == init + [last] && a + b == a + init + [last];
      DistinctAppend(a, init);
      DistinctMembers(a);
      DistinctSnoc(a + init, last);
      FreshSnoc(init, last, a);
      NotedAppend(Distinct(a), Fresh(init, a), last);
    }
  }

  lemma NotedAppend(a: seq<string>, b: seq<string>, n: string)
    ensures Noted(a + b, n) == if n in a then a + b else a + Noted(b, n)
  {
    assert n !in a && n !in b ==> a + b + [n] == a + (b + [n]);
  }

  // ---- reading the caller's headers ----

  // The cookie name in one piece of a header; a piece without an equals sign has none.
  function NameIn(piece: string): (names: seq<string>) {
    match SplitOnce(piece, '=')
    case None => []
    case Some((n, _)) => if Trim(n) == [] then [] else [Trim(n)]
  }

  function NamesIn(pieces: seq<string>): seq<string> {
    if pieces == [] then [] else NamesIn(pieces[..|pieces| - 1]) + NameIn(pieces[|pieces| - 1])
  }

  predicate IsCookieLine(line: HeaderLine) {
    EqIgnoreCase(line.0, "cookie")
  }

  function LineNames(line: HeaderLine): seq<string> {
    if IsCookieLine(line) then NamesIn(Split(line.1, ';')) else []
  }

  // Every name in every Cookie line, in order, repetitions included.
  function AllNames(lines: seq<HeaderLine>): seq<string> {
    if lines == [] then [] else AllNames(lines[..|lines| - 1]) + LineNames(lines[|lines| - 1])
  }

  lemma NamesInSnoc(pieces: seq<string>, piece: string)
    ensures NamesIn(pieces + [piece]) == NamesIn(pieces) + NameIn(piece)
  {
    assert (pieces + [piece])[..|pieces + [piece]| - 1] == pieces;
  }

  lemma AllNamesSnoc(lines: seq<HeaderLine>, line: HeaderLine)
    ensures AllNames(lines + [line]) == AllNames(lines) + LineNames(line)
  {
    assert (lines + [line])[..|lines + [line]| - 1] == lines;
  }

  method CallerCookieNames(headers: seq<HeaderLine>) returns (names: seq<string>)
    ensures names == Distinct(AllNames(headers))
  {
    hide Distinct, Fresh, Split, Trim, SplitOnce, EqIgnoreCase, NamesIn, AllNames;
    names := [];
    NothingNamed();
    for i := 0 to |headers|
      invariant names == Distinct(AllNames(headers[..i]))
    {
      assert headers[..i + 1] == headers[..i] + [headers[i]];
      AllNamesSnoc(headers[..i], headers[i]);
      var (name, value) := headers[i];
      ghost var before := AllNames(headers[..i]);
      if !IsCookieLine(headers[i]) {
        assert before + [] == before;
        continue;
      }
      var pieces := Split(value, ';');
      assert before + [] == before;
      for j := 0 to |pieces|
        invariant names == Distinct(before + NamesIn(pieces[..j]))
      {
        assert pieces[..j + 1] == pieces[..j] + [pieces[j]];
        NamesInSnoc(pieces[..j], pieces[j]);
        ghost var seen := before + NamesIn(pieces[..j]);
        SeenMore(before, NamesIn(pieces[..j]), NameIn(pieces[j]));
        var pair := SplitOnce(pieces[j], '=');
        if pair.None? {
          continue;
        }
        var n := Trim(pair.value.0);
        if n != [] {
          DistinctMembers(seen);
          DistinctSnoc(seen, n);
          if n !in names {
            names := names + [n];
          }
        }
      }
      assert pieces[..|pieces|] == pieces;
    }
    assert headers[..|headers|] == headers;
  }

  lemma NothingNamed()
    ensures Distinct([]) == [] && AllNames([]) == [] && NamesIn([]) == []
  {
  }

  lemma SeenMore(before: seq<string>, names: seq<string>, more: seq<string>)
    ensures before + (names + more) == before + names + more
    ensures before + names + [] == before + names
  {
  }

  lemma EmptyNames()
    ensures Distinct([]) == []
  {
  }

  // ---- merging ----

  predicate IsStray(c: char) {
    c == ';' || c == ' '
  }

  // The caller's header value without stray separators at its end, then the chain's.
  function MergedValue(value: string, extra: string): string {
    var caller := TrimEnd(Trim(value), IsStray);
    if caller == [] then extra else caller + "; " + extra
  }

  // The chain's cookies go into the first Cookie line, or into one of their own at the end.
  function Merged(lines: seq<HeaderLine>, extra: string): seq<HeaderLine> {
    if lines == [] then [("Cookie", extra)]
    else if IsCookieLine(lines[0]) then [(lines[0].0, MergedValue(lines[0].1, extra))] + lines[1..]
    else [lines[0]] + Merged(lines[1..], extra)
  }

  lemma MergedNone(extra: string)
    ensures Merged([], extra) == [("Cookie", extra)]
  {
  }

  lemma MergedStep(line: HeaderLine, rest: seq<HeaderLine>, extra: string)
    ensures Merged([line] + rest, extra)
         == if IsCookieLine(line) then [(line.0, MergedValue(line.1, extra))] + rest else [line] + Merged(rest, extra)
  {
    assert ([line] + rest)[1..] == rest;
  }

  method MergeCookies(headers: seq<HeaderLine>, redirectCookies: Option<string>) returns (out: seq<HeaderLine>)
    ensures out == match redirectCookies case None => headers case Some(extra) => Merged(headers, extra)
  {
    hide EqIgnoreCase, MergedValue, IsCookieLine, Merged;
    out := [];
    var mergedCookies := false;
    if redirectCookies.Some? {
      MergedNone(redirectCookies.value);
    }
    assert headers[0..] == headers;
    for i := 0 to |headers|
      invariant match redirectCookies
        case None => !mergedCookies && out == headers[..i]
        case Some(extra) =>
          Merged(headers, extra) == out + if mergedCookies then headers[i..] else Merged(headers[i..], extra)
    {
      assert headers[i..] == [headers[i]] + headers[i + 1..];
      assert headers[..i + 1] == headers[..i] + [headers[i]];
      if redirectCookies.Some? {
        MergedStep(headers[i], headers[i + 1..], redirectCookies.value);
      }
      var (name, value) := headers[i];
      if redirectCookies.Some? && !mergedCookies && IsCookieLine(headers[i]) {
        mergedCookies := true;
        out := out + [(name, MergedValue(value, redirectCookies.value))];
        continue;
      }
      out := out + [(name, value)];
    }
    assert headers[..|headers|] == headers && headers[|headers|..] == [];
    if redirectCookies.Some? && !mergedCookies {
      out := out + [("Cookie", redirectCookies.value)];
    }
  }

  // ---- what merging does to the names ----

  lemma {:induction false} AllNamesAppend(a: seq<HeaderLine>, b: seq<HeaderLine>)
    ensures AllNames(a + b) == AllNames(a) + AllNames(b)
  {
    hide LineNames;
    if b == [] {
      assert a + b == a;
    } else {
      var init, last := b[..|b| - 1], b[|b| - 1];
      assert b == init + [last] && a + b == a + init + [last];
      AllNamesAppend(a, init);
      hide AllNames;
      AllNamesSnoc(a + init, last);
      AllNamesSnoc(init, last);
    }
  }

  predicate Droppable(c: char) {
    IsSpace(c) || c == ';'
  }

  // Spaces and semicolons at the end of a header change no pair.
  lemma {:induction false} PairsDropEnd(s: string, w: string)
    requires forall i :: 0 <= i < |w| ==> Droppable(w[i])
    ensures ReadPairs(Split(s + w, ';')) == ReadPairs(Split(s, ';'))
    decreases |w|
  {
    hide Droppable, ReadPairs, Split;
    if w == [] {
      assert s + w == s;
    } else {
      var init, last := w[..|w| - 1], w[|w| - 1];
      PairsDropEnd(s, init);
      assert s + w == s + init + [last];
      PairsDropLast(s + init, last);
    }
  }

  lemma PairsDropLast(s: string, c: char)
    requires Droppable(c)
    ensures ReadPairs(Split(s + [c], ';')) == ReadPairs(Split(s, ';'))
  {
    hide ReadPairs, Split, ReadPair, IsSpace;
    var pieces := Split(s, ';');
    if c == ';' {
      SplitAppend(s, "", ';');
      NoPairs();
      assert s + [';'] + "" == s + [c];
      ReadPairsAppend(pieces, [""]);
      assert ReadPairs(pieces) + [] == ReadPairs(pieces);
    } else {
      SplitGrowLast(s, c, ';');
      var init, last := pieces[..|pieces| - 1], pieces[|pieces| - 1];
      assert pieces == init + [last] && GrowLast(pieces, c) == init + [last + [c]];
      PairGrow(last, c);
      ReadPairsAppend(init, [last]);
      ReadPairsAppend(init, [last + [c]]);
    }
  }

  lemma NoPairs()
    ensures Split("", ';') == [""] && ReadPairs([""]) == []
  {
    assert [""][1..] == [] && ReadPairs([]) == [];
  }

  lemma PairGrow(piece: string, c: char)
    requires IsSpace(c)
    ensures ReadPairs([piece + [c]]) == ReadPairs([piece])
  {
    hide IsSpace, Trim;
    NoEquals(c);
    match SplitOnce(piece, '=') {
      case Some((n, v)) =>
        SplitOnceAt(n, v + [c], '=');
        assert n + ['='] + (v + [c]) == piece + [c];
        TrimGrow(v, c);
      case None =>
        assert '=' !in piece + [c];
    }
    OnePiece(piece);
    OnePiece(piece + [c]);
  }

  lemma OnePiece(piece: string)
    ensures ReadPairs([piece]) == match ReadPair(piece) case None => [] case Some(p) => [p]
  {
    hide ReadPair;
    assert [piece][1..] == [] && ReadPairs([]) == [];
  }

  // A space more at the end is trimmed.
  lemma TrimGrow(s: string, c: char)
    requires IsSpace(c)
    ensures Trim(s + [c]) == Trim(s)
  {
    TrimStartGrow(s, c);
    hide TrimStart, IsSpace;
    var t := TrimStart(s, IsSpace);
    assert (t + [c])[..|t + [c]| - 1] == t;
  }

  lemma {:induction false} TrimStartGrow(s: string, c: char)
    requires IsSpace(c)
    ensures var t := TrimStart(s, IsSpace); TrimStart(s + [c], IsSpace) == if t == [] then [] else t + [c]
  {
    hide IsSpace, TrimStart;
    if s == [] {
      TrimStartLead(c, []);
      assert s + [c] == [c] + [];
    } else {
      var h, rest := s[0], s[1..];
      assert s == [h] + rest && s + [c] == [h] + (rest + [c]);
      TrimStartLead(h, rest);
      TrimStartLead(h, rest + [c]);
      if IsSpace(h) {
        TrimStartGrow(rest, c);
      }
    }
  }

  lemma TrimStartLead(h: char, rest: string)
    ensures TrimStart([h] + rest, IsSpace) == if IsSpace(h) then TrimStart(rest, IsSpace) else [h] + rest
    ensures TrimStart([], IsSpace) == []
  {
    hide IsSpace;
    assert ([h] + rest)[1..] == rest;
  }

  lemma SplitLead(c: char, s: string, sep: char)
    ensures Split([c] + s, sep)
         == if c == sep then [[]] + Split(s, sep) else [[c] + Split(s, sep)[0]] + Split(s, sep)[1..]
  {
    assert ([c] + s)[1..] == s;
  }

  lemma {:induction false} SplitGrowLast(s: string, c: char, sep: char)
    requires c != sep
    ensures Split(s + [c], sep) == GrowLast(Split(s, sep), c)
  {
    if s == [] {
      assert s + [c] == [c] + [];
      SplitLead(c, [], sep);
    } else {
      var rest := Split(s[1..], sep);
      SplitGrowLast(s[1..], c, sep);
      SplitLead(s[0], s[1..] + [c], sep);
      SplitLead(s[0], s[1..], sep);
      assert s + [c] == [s[0]] + (s[1..] + [c]) && s == [s[0]] + s[1..];
      hide Split;
      GrowRest(rest, s[0], c);
    }
  }

  // Growing the last piece commutes with what stands before it.
  lemma GrowRest(rest: seq<string>, first: char, c: char)
    requires |rest| > 0
    ensures GrowLast([[]] + rest, c) == [[]] + GrowLast(rest, c)
    ensures GrowLast([[first] + rest[0]] + rest[1..], c) == [[first] + GrowLast(rest, c)[0]] + GrowLast(rest, c)[1..]
  {
    if |rest| == 1 {
      assert [first] + rest[0] + [c] == [first] + (rest[0] + [c]);
    }
  }

  // c added to the last piece.
  function GrowLast(pieces: seq<string>, c: char): (r: seq<string>)
    requires |pieces| > 0
    ensures |r| == |pieces|
  {
    pieces[..|pieces| - 1] + [pieces[|pieces| - 1] + [c]]
  }

  // Spaces at the start of a header change no pair.
  lemma {:induction false} PairsDropStart(w: string, s: string)
    requires forall i :: 0 <= i < |w| ==> IsSpace(w[i])
    ensures ReadPairs(Split(w + s, ';')) == ReadPairs(Split(s, ';'))
  {
    hide IsSpace, Split, ReadPairs;
    if w == [] {
      assert w + s == s;
    } else {
      PairsDropStart(w[1..], s);
      assert w + s == [w[0]] + (w[1..] + s);
      PairsLead(w[0], w[1..] + s);
    }
  }

  lemma PairsLead(c: char, t: string)
    requires IsSpace(c)
    ensures ReadPairs(Split([c] + t, ';')) == ReadPairs(Split(t, ';'))
  {
    NoEquals(c);
    SplitLead(c, t, ';');
    hide IsSpace, Split, ReadPairs;
    FirstLead(c, Split(t, ';'));
  }

  lemma FirstLead(c: char, pieces: seq<string>)
    requires IsSpace(c) && pieces != []
    ensures ReadPairs([[c] + pieces[0]] + pieces[1..]) == ReadPairs(pieces)
  {
    hide IsSpace, ReadPairs;
    var first, rest := pieces[0], pieces[1..];
    PairLead(c, first);
    ReadPairsAppend([[c] + first], rest);
    ReadPairsAppend([first], rest);
    assert pieces == [first] + rest;
  }

  lemma PairLead(c: char, piece: string)
    requires IsSpace(c)
    ensures ReadPairs([[c] + piece]) == ReadPairs([piece])
  {
    hide IsSpace, TrimStart, TrimEnd, SplitOnce;
    NoEquals(c);
    match SplitOnce(piece, '=') {
      case Some((n, v)) =>
        SplitOnceAt([c] + n, v, '=');
        assert [c] + n + ['='] + v == [c] + piece;
        TrimStartDrops([c], n, IsSpace);
      case None =>
        assert '=' !in [c] + piece;
    }
    OnePiece(piece);
    OnePiece([c] + piece);
  }

  lemma NoEquals(c: char)
    requires IsSpace(c)
    ensures c != '=' && c != ';'
  {
  }

  // The merged line carries exactly the caller's pairs, then the chain's.
  lemma MergedValuePairs(value: string, extra: string)
    ensures ReadPairs(Split(MergedValue(value, extra), ';')) == ReadPairs(Split(value, ';')) + ReadPairs(Split(extra, ';'))
  {
    CallerValuePairs(value);
    hide Split, Trim, ReadPairs;
    var caller := TrimEnd(Trim(value), IsStray);
    if caller == [] {
      NoPairs();
    } else {
      assert caller + "; " + extra == caller + [';'] + (" " + extra);
      SplitAppend(caller, " " + extra, ';');
      ReadPairsAppend(Split(caller, ';'), Split(" " + extra, ';'));
      PairsDropStart(" ", extra);
    }
  }

  lemma CallerValuePairs(value: string)
    ensures ReadPairs(Split(TrimEnd(Trim(value), IsStray), ';')) == ReadPairs(Split(value, ';'))
  {
    hide Split, ReadPairs, TrimStart, TrimEnd, IsSpace, IsStray, Droppable;
    PairsTrimStart(value);
    SpaceDroppable();
    PairsTrimEnd(TrimStart(value, IsSpace), IsSpace);
    StrayDroppable();
    PairsTrimEnd(TrimEnd(TrimStart(value, IsSpace), IsSpace), IsStray);
  }

  lemma PairsTrimStart(s: string)
    ensures ReadPairs(Split(TrimStart(s, IsSpace), ';')) == ReadPairs(Split(s, ';'))
  {
    hide Split, ReadPairs, TrimStart, IsSpace;
    var t := TrimStart(s, IsSpace);
    var w := s[..|s| - |t|];
    assert s == w + t;
    TrimStartDropped(s, IsSpace);
    PairsDropStart(w, t);
  }

  lemma PairsTrimEnd(s: string, drop: char -> bool)
    requires forall c :: drop(c) ==> Droppable(c)
    ensures ReadPairs(Split(TrimEnd(s, drop), ';')) == ReadPairs(Split(s, ';'))
  {
    hide Split, ReadPairs, TrimEnd, Droppable;
    var t := TrimEnd(s, drop);
    var w := s[|t|..];
    TrimEndStops(s, drop);
    assert s == t + w;
    PairsDropEnd(t, w);
  }

  lemma SpaceDroppable()
    ensures forall c :: IsSpace(c) ==> Droppable(c)
  {
  }

  lemma StrayDroppable()
    ensures forall c :: IsStray(c) ==> Droppable(c)
  {
  }

  lemma {:induction false} TrimStartDropped(s: string, drop: char -> bool)
    ensures forall i :: 0 <= i < |s| - |TrimStart(s, drop)| ==> drop(s[i])
  {
    if s != [] && drop(s[0]) {
      TrimStartDropped(s[1..], drop);
      assert forall i :: 1 <= i < |s| ==> s[i] == s[1..][i - 1];
    }
  }

  // The names of a list of pairs; a pair with an empty name has none.
  function NamesOf(pairs: seq<(string, string)>): seq<string> {
    if pairs == [] then []
    else NamesOf(pairs[..|pairs| - 1]) + if pairs[|pairs| - 1].0 == [] then [] else [pairs[|pairs| - 1].0]
  }

  lemma NamesOfSnoc(pairs: seq<(string, string)>, p: (string, string))
    ensures NamesOf(pairs + [p]) == NamesOf(pairs) + if p.0 == [] then [] else [p.0]
  {
    assert (pairs + [p])[..|pairs + [p]| - 1] == pairs;
  }

  lemma {:induction false} NamesOfAppend(a: seq<(string, string)>, b: seq<(string, string)>)
    ensures NamesOf(a + b) == NamesOf(a) + NamesOf(b)
  {
    if b == [] {
      assert a + b == a;
    } else {
      var init, last := b[..|b| - 1], b[|b| - 1];
      assert b == init + [last] && a + b == a + init + [last];
      NamesOfAppend(a, init);
      hide NamesOf;
      NamesOfSnoc(a + init, last);
      NamesOfSnoc(init, last);
    }
  }

  // The names in a header are those of its pairs.
  lemma {:induction false} NamesFromPairs(pieces: seq<string>)
    ensures NamesIn(pieces) == NamesOf(ReadPairs(pieces))
  {
    if pieces != [] {
      var init, last := pieces[..|pieces| - 1], pieces[|pieces| - 1];
      assert pieces == init + [last];
      hide NamesIn, ReadPairs, NamesOf, Trim, SplitOnce;
      NamesFromPairs(init);
      NamesInSnoc(init, last);
      ReadPairsAppend(init, [last]);
      OnePiece(last);
      if ReadPair(last).Some? {
        NamesOfSnoc(ReadPairs(init), ReadPair(last).value);
      } else {
        assert ReadPairs(init) + [] == ReadPairs(init);
      }
    }
  }

  // So the merged line carries the caller's names, then the chain's.
  lemma MergedValueNames(value: string, extra: string)
    ensures NamesIn(Split(MergedValue(value, extra), ';')) == NamesIn(Split(value, ';')) + NamesIn(Split(extra, ';'))
  {
    hide Split, ReadPairs, NamesIn, NamesOf, MergedValue;
    MergedValuePairs(value, extra);
    NamesFromPairs(Split(MergedValue(value, extra), ';'));
    NamesFromPairs(Split(value, ';'));
    NamesFromPairs(Split(extra, ';'));
    NamesOfAppend(ReadPairs(Split(value, ';')), ReadPairs(Split(extra, ';')));
  }

  // ---- the text of the merged request ----

  // Whatever separators and spaces trail the caller's value, exactly one separator and one
  // space stand between it and the chain's; a value of nothing else gives way altogether.
  lemma MergedText(caller: string, stray: string, extra: string)
    requires forall i :: 0 <= i < |stray| ==> stray[i] == ';' || stray[i] == ' '
    requires caller != [] ==> !IsSpace(caller[0]) && !IsSpace(caller[|caller| - 1]) && caller[|caller| - 1] != ';'
    ensures MergedValue(caller + stray, extra) == if caller == [] then extra else caller + "; " + extra
  {
    var value := caller + stray;
    var t := Trim(value);
    if caller == [] {
      assert value == stray;
      TrimEndAll([], t, IsStray) by { StrayTrimmed(stray); }
      assert [] + t == t;
    } else {
      CallerTrimmed(caller, stray);
      assert t == caller + t[|caller|..];
      TrimEndAll(caller, t[|caller|..], IsStray);
    }
  }

  lemma StrayTrimmed(stray: string)
    requires forall i :: 0 <= i < |stray| ==> IsStray(stray[i])
    ensures forall i :: 0 <= i < |Trim(stray)| ==> IsStray(Trim(stray)[i])
  {
    hide IsSpace, IsStray, TrimStart, TrimEnd;
    var t := TrimStart(stray, IsSpace);
    var u := TrimEnd(t, IsSpace);
    forall i | 0 <= i < |u| ensures IsStray(u[i]) {
      assert u[i] == t[i] == stray[|stray| - |t|..][i] == stray[|stray| - |t| + i];
    }
  }

  lemma CallerTrimmed(caller: string, stray: string)
    requires forall i :: 0 <= i < |stray| ==> IsStray(stray[i])
    requires caller != [] && !IsSpace(caller[0]) && !IsSpace(caller[|caller| - 1])
    ensures var t := Trim(caller + stray); caller <= t && forall i :: |caller| <= i < |t| ==> IsStray(t[i])
  {
    hide IsSpace;
    var value := caller + stray;
    assert TrimStart(value, IsSpace) == value;
    TrimEndKeeps(caller, stray);
    var t := TrimEnd(value, IsSpace);
    assert forall i :: |caller| <= i < |t| ==> t[i] == stray[i - |caller|];
  }

  lemma {:induction false} TrimEndKeeps(s: string, w: string)
    requires s != [] && !IsSpace(s[|s| - 1])
    ensures s <= TrimEnd(s + w, IsSpace)
    decreases |w|
  {
    hide IsSpace;
    if w == [] {
      assert s + w == s;
    } else {
      assert (s + w)[..|s + w| - 1] == s + w[..|w| - 1];
      TrimEndKeeps(s, w[..|w| - 1]);
    }
  }

  // Of the lines, only the first Cookie line changes, and only its value; without one, a
  // line is added at the end.
  lemma {:induction false} MergedLines(before: seq<HeaderLine>, after: seq<HeaderLine>, extra: string)
    requires forall i :: 0 <= i < |before| ==> ToLower(before[i].0) != "cookie"
    requires after != [] ==> ToLower(after[0].0) == "cookie"
    ensures Merged(before + after, extra) == before +
      if after == [] then [("Cookie", extra)] else [(after[0].0, MergedValue(after[0].1, extra))] + after[1..]
  {
    CookieLower();
    hide MergedValue, ToLower;
    if before == [] {
      assert before + after == after;
    } else {
      assert before + after == [before[0]] + (before[1..] + after);
      MergedStep(before[0], before[1..] + after, extra);
      MergedLines(before[1..], after, extra);
    }
  }

  lemma CookieLower()
    ensures ToLower("cookie") == "cookie"
  {
  }

  // The names up to and including the first Cookie line, and those of the lines after it.
  function FirstNames(lines: seq<HeaderLine>): seq<string> {
    if lines == [] then []
    else if IsCookieLine(lines[0]) then NamesIn(Split(lines[0].1, ';'))
    else FirstNames(lines[1..])
  }

  function LaterNames(lines: seq<HeaderLine>): seq<string> {
    if lines == [] then []
    else if IsCookieLine(lines[0]) then AllNames(lines[1..])
    else LaterNames(lines[1..])
  }

  lemma {:induction false} NamesSplit(lines: seq<HeaderLine>)
    ensures AllNames(lines) == FirstNames(lines) + LaterNames(lines)
  {
    hide NamesIn, IsCookieLine;
    if lines != [] {
      NamesSplit(lines[1..]);
      AllNamesAppend([lines[0]], lines[1..]);
      assert lines == [lines[0]] + lines[1..];
      OneLine(lines[0]);
    }
  }

  lemma OneLine(line: HeaderLine)
    ensures AllNames([line]) == LineNames(line)
  {
    hide LineNames;
    assert [line][..0] == [];
  }

  // The merged request names the caller's first cookies, the chain's, then the caller's others.
  lemma {:induction false} MergedNames(lines: seq<HeaderLine>, extra: string)
    ensures AllNames(Merged(lines, extra)) == FirstNames(lines) + NamesIn(Split(extra, ';')) + LaterNames(lines)
  {
    hide NamesIn, MergedValue, AllNames, Split;
    if lines == [] {
      CookieIsCookie();
      OneLine(("Cookie", extra));
    } else {
      var first, rest := lines[0], lines[1..];
      if IsCookieLine(first) {
        var line := (first.0, MergedValue(first.1, extra));
        OneLine(line);
        AllNamesAppend([line], rest);
        MergedValueNames(first.1, extra);
      } else {
        MergedNames(rest, extra);
        OneLine(first);
        AllNamesAppend([first], Merged(rest, extra));
      }
    }
  }

  lemma CookieIsCookie()
    ensures EqIgnoreCase("Cookie", "cookie")
  {
  }

  // The names the server sees: the caller's and the chain's, which are disjoint when the
  // chain holds none of the caller's. The caller's come first, in their order, exactly
  // when later Cookie lines add no name of their own (or the chain adds none).
  lemma MergedOrder(lines: seq<HeaderLine>, extra: string)
    requires var chain := NamesIn(Split(extra, ';')); forall n :: n in chain ==> n !in AllNames(lines)
    ensures var chain := NamesIn(Split(extra, ';')); var merged := Distinct(AllNames(Merged(lines, extra)));
      (forall n :: n in merged <==> n in AllNames(lines) || n in chain) &&
      (merged == Distinct(AllNames(lines)) + Distinct(chain) <==>
        chain == [] || forall n :: n in LaterNames(lines) ==> n in FirstNames(lines))
  {
    hide NamesIn, Split, AllNames, Merged, FirstNames, LaterNames, Distinct, Fresh;
    var a, c, b := FirstNames(lines), NamesIn(Split(extra, ';')), LaterNames(lines);
    MergedNames(lines, extra);
    NamesSplit(lines);
    DistinctMembers(a + c + b);
    DistinctAppend(a + c, b);
    DistinctAppend(a, c);
    DistinctAppend(a, b);
    FreshDisjoint(c, a);
    FreshWider(b, a, c);
    DistinctMembers(c);
    FreshMembers(b, a);
    SwapOrder(Distinct(a), Distinct(c), Fresh(b, a));
    if c == [] {
      EmptyNames();
    } else {
      assert c[0] in Distinct(c);
    }
    var f := Fresh(b, a);
    assert f != [] ==> f[0] in f;
    if n :| n in b && n !in a {
      assert n in f;
    }
  }

  // Two disjoint lists commute exactly when one is empty.
  lemma SwapOrder(a: seq<string>, c: seq<string>, f: seq<string>)
    requires forall n :: n in c ==> n !in f
    ensures a + c + f == a + f + c <==> c == [] || f == []
  {
    if c == [] || f == [] {
      assert a + c + f == a + f + c;
    } else {
      assert (a + c + f)[|a|] == c[0] && (a + f + c)[|a|] == f[0];
      assert c[0] in c && f[0] in f;
    }
  }

  lemma {:induction false} FreshDisjoint(names: seq<string>, seen: seq<string>)
    requires forall n :: n in names ==> n !in seen
    ensures Fresh(names, seen) == Distinct(names)
  {
    if names != [] {
      FreshDisjoint(names[..|names| - 1], seen);
    }
  }

  lemma {:induction false} FreshWider(names: seq<string>, seen: seq<string>, more: seq<string>)
    requires forall n :: n in names ==> n !in more
    ensures Fresh(names, seen + more) == Fresh(names, seen)
  {
    if names != [] {
      FreshWider(names[..|names| - 1], seen, more);
    }
  }

  // Every name in a header belongs to a pair that reads back from it.
  lemma {:induction false} NameHasPair(pieces: seq<string>, n: string)
    requires n in NamesIn(pieces)
    ensures exists i :: 0 <= i < |ReadPairs(pieces)| && ReadPairs(pieces)[i].0 == n
  {
    hide ReadPairs, NameIn;
    var init, last := pieces[..|pieces| - 1], pieces[|pieces| - 1];
    assert pieces == init + [last];
    ReadPairsAppend(init, [last]);
    var a, b := ReadPairs(init), ReadPairs([last]);
    if n in NamesIn(init) {
      NameHasPair(init, n);
      var i :| 0 <= i < |a| && a[i].0 == n;
      assert (a + b)[i].0 == n;
    } else {
      assert n in NameIn(last);
      OnePair(last, n);
      assert (a + b)[|a|].0 == n;
    }
  }

  lemma OnePair(piece: string, n: string)
    requires n in NameIn(piece)
    ensures |ReadPairs([piece])| == 1 && ReadPairs([piece])[0].0 == n
  {
    hide ReadPair, NameIn;
    NamePiece(piece, n);
    assert [piece][1..] == [];
    assert ReadPairs([]) == [];
  }

  lemma NamePiece(piece: string, n: string)
    requires n in NameIn(piece)
    ensures ReadPair(piece).Some? && ReadPair(piece).value.0 == n
  {
    hide Trim, SplitOnce;
  }

  // Two Cookie lines of the caller's, one name each.
  lemma TwoLines(a: string, b: string)
    requires '=' !in a && '=' !in b && ';' !in a && ';' !in b && Trimmed(a) && Trimmed(b) && a != [] && b != []
    ensures FirstNames([("Cookie", a + "=" + "1"), ("Cookie", b + "=" + "2")]) == [a]
    ensures LaterNames([("Cookie", a + "=" + "1"), ("Cookie", b + "=" + "2")]) == [b]
  {
    hide Split, Trim, SplitOnce, EqIgnoreCase, NamesIn, AllNames, Trimmed;
    CookieIsCookie();
    NameOfPair(a, "1");
    NameOfPair(b, "2");
    var first, second := ("Cookie", a + "=" + "1"), ("Cookie", b + "=" + "2");
    assert [first, second][1..] == [second];
    OneLine(second);
  }

  // With two Cookie lines of the caller's, the chain's name lands between theirs.
  lemma MergedOrderExample()
    ensures Distinct(AllNames(Merged([("Cookie", "a=1"), ("Cookie", "b=2")], "c=3"))) == ["a", "c", "b"]
    ensures Distinct(AllNames([("Cookie", "a=1"), ("Cookie", "b=2")])) == ["a", "b"]
  {
    var lines := [("Cookie", "a=1"), ("Cookie", "b=2")];
    hide Split, Trim, TrimStart, TrimEnd, SplitOnce, EqIgnoreCase, NamesIn, NameIn, Merged, AllNames, LineNames, Distinct, Noted,
         FirstNames, LaterNames;
    NameOfPair("c", "3");
    TwoLines("a", "b");
    assert "a" + "=" + "1" == "a=1" && "b" + "=" + "2" == "b=2" && "c" + "=" + "3" == "c=3";
    MergedNames(lines, "c=3");
    NamesSplit(lines);
    assert ["a"] + ["c"] + ["b"] == ["a", "c", "b"] && ["a"] + ["b"] == ["a", "b"];
    ThreeDistinct("a", "c", "b");
    ThreeDistinct("a", "b", "c");
  }

  lemma ThreeDistinct(a: string, b: string, c: string)
    requires a != b && a != c && b != c
    ensures Distinct([a, b, c]) == [a, b, c] && Distinct([a, b]) == [a, b]
  {
    EmptyNames();
    hide Distinct;
    DistinctSnoc([], a);
    assert [] + [a] == [a];
    DistinctSnoc([a], b);
    assert [a] + [b] == [a, b];
    DistinctSnoc([a, b], c);
    assert [a, b] + [c] == [a, b, c];
  }

  lemma OneName(piece: string)
    ensures NamesIn([piece]) == NameIn(piece)
  {
    hide NameIn;
    assert [piece][..0] == [];
  }

  lemma NameOfPair(n: string, v: string)
    requires n != [] && Trimmed(n) && '=' !in n && ';' !in n && ';' !in v
    ensures NamesIn(Split(n + "=" + v, ';')) == [n]
  {
    var piece := n + "=" + v;
    SplitNone(piece, ';');
    SplitOnceAt(n, v, '=');
    TrimmedTrim(n);
    OneName(piece);
  }
}
