// Percent-encoding the bytes a URI may not contain. Strings are given by the bytes of
// their UTF-8 form.
module Sanitizer {
  import opened Bits

  predicate IsHex(b: byte) {
    '0' as int <= b <= '9' as int || 'A' as int <= b <= 'F' as int || 'a' as int <= b <= 'f' as int
  }

  predicate MustEncode(b: byte) {
    b == ' ' as int || b == '"' as int || b == '<' as int || b == '>' as int || b == '{' as int ||
    b == '}' as int || b <= 0x1F || b == 0x7F
  }

  const PERCENT: byte := 0x25

  predicate AtEscape(s: seq<byte>) {
    |s| >= 3 && s[0] == PERCENT && IsHex(s[1]) && IsHex(s[2])
  }

  function HexDigit(v: nat): (b: byte)
    requires v < 16
    ensures IsHex(b) && HexValue(b) == v
  {
    if v < 10 then '0' as int + v else 'A' as int + v - 10
  }

  function HexValue(b: byte): (v: nat)
    requires IsHex(b)
    ensures v < 16
  {
    if b <= '9' as int then b - '0' as int
    else if b <= 'F' as int then b - 'A' as int + 10
    else b - 'a' as int + 10
  }

  function Escape(b: byte): (e: seq<byte>)
    ensures |e| == 3 && AtEscape(e)
  {
    [PERCENT, HexDigit(b / 16), HexDigit(b % 16)]
  }

  ghost predicate Ascii(s: seq<byte>) {
    forall i :: 0 <= i < |s| ==> s[i] < 0x80
  }

  // The UTF-8 form of the character with the number b, which is what pushing a byte as a
  // character writes.
  function Utf8(b: byte): (u: seq<byte>)
    ensures |u| == if b < 0x80 then 1 else 2
    ensures u[0] == b || u[0] >= 0x80
  {
    if b < 0x80 then [b] else [0xC0 + b / 64, 0x80 + b % 64]
  }

  // A string is read an escape or a byte at a time.
  function Taken(s: seq<byte>): (n: nat)
    requires s != []
    ensures 1 <= n <= |s|
  {
    if AtEscape(s) then 3 else 1
  }

  // What is written for the first of them.
  function Piece(s: seq<byte>): (piece: seq<byte>)
    requires s != []
    ensures piece != [] && (piece[0] == s[0] || piece[0] == PERCENT || piece[0] >= 0x80)
  {
    if AtEscape(s) then s[..3] else if MustEncode(s[0]) then Escape(s[0]) else Utf8(s[0])
  }

  function Sanitized(s: seq<byte>): (t: seq<byte>)
    ensures s != [] ==> t != [] && (t[0] == s[0] || t[0] == PERCENT || t[0] >= 0x80)
    decreases |s|
  {
    if s == [] then [] else Piece(s) + Sanitized(s[Taken(s)..])
  }

  // The first n bytes of s are taken.
  lemma Written(out: seq<byte>, s: seq<byte>, piece: seq<byte>, n: nat)
    requires s != [] && n == Taken(s) && piece == Piece(s)
    ensures out + Sanitized(s) == out + piece + Sanitized(s[n..])
  {
    assert out + (piece + Sanitized(s[n..])) == out + piece + Sanitized(s[n..]);
  }

  method SanitizeUri(bytes: seq<byte>) returns (out: seq<byte>)
    ensures out == Sanitized(bytes)
  {
    hide Sanitized, Utf8, Escape, MustEncode, IsHex;
    out := [];
    var i := 0;
    assert bytes[0..] == bytes && out + Sanitized(bytes) == Sanitized(bytes);
    while i < |bytes|
      invariant 0 <= i <= |bytes| && Sanitized(bytes) == out + Sanitized(bytes[i..])
      decreases |bytes| - i
    {
      var b := bytes[i];
      ghost var s := bytes[i..];
      assert s[Taken(s)..] == bytes[i + Taken(s)..];
      Written(out, s, Piece(s), Taken(s));
      if b == PERCENT && i + 2 < |bytes| && IsHex(bytes[i + 1]) && IsHex(bytes[i + 2]) {
        EscapePushed(out, s);
        out := out + Utf8(b);
        out := out + Utf8(bytes[i + 1]);
        out := out + Utf8(bytes[i + 2]);
        i := i + 3;
      } else if MustEncode(b) {
        out := out + Escape(b);
        i := i + 1;
      } else {
        out := out + Utf8(b);
        i := i + 1;
      }
    }
    NothingLeft(bytes, out);
  }

  // The three characters of an escape are pushed one by one.
  lemma EscapePushed(out: seq<byte>, s: seq<byte>)
    requires AtEscape(s)
    ensures out + Utf8(s[0]) + Utf8(s[1]) + Utf8(s[2]) == out + Piece(s)
  {
  }

  lemma NothingLeft(bytes: seq<byte>, out: seq<byte>)
    ensures out + Sanitized(bytes[|bytes|..]) == out
  {
  }

  // What a URL says: escapes read as the bytes they stand for, anything else as it is.
  function Said(s: seq<byte>): byte
    requires s != []
  {
    if AtEscape(s) then 16 * HexValue(s[1]) + HexValue(s[2]) else s[0]
  }

  function Meaning(s: seq<byte>): seq<byte>
    decreases |s|
  {
    if s == [] then [] else [Said(s)] + Meaning(s[Taken(s)..])
  }

  lemma HexIsPlain(b: byte)
    ensures IsHex(b) ==> !MustEncode(b) && b != PERCENT && b < 0x80
  {
  }

  // A percent sign that does not start an escape does not start one afterwards either.
  lemma NoNewEscape(s: seq<byte>)
    requires s != [] && !AtEscape(s)
    ensures !AtEscape([s[0]] + Sanitized(s[1..]))
  {
    var rest := s[1..];
    if s[0] == PERCENT && rest != [] {
      var t := Sanitized(rest);
      HexIsPlain(t[0]);
      if IsHex(t[0]) {
        assert !AtEscape(rest) && Piece(rest) == [rest[0]];
        assert t == [rest[0]] + Sanitized(rest[1..]);
      }
    }
  }

  // What is written for an ASCII byte or an escape reads back as one piece that says the
  // same and is written as it is.
  lemma PieceAgain(s: seq<byte>)
    requires s != [] && s[0] < 0x80
    ensures var t := Sanitized(s);
      Taken(t) == |Piece(s)| && t[Taken(t)..] == Sanitized(s[Taken(s)..]) &&
      Piece(t) == Piece(s) && Said(t) == Said(s)
  {
    var piece, rest := Piece(s), Sanitized(s[Taken(s)..]);
    var t := piece + rest;
    assert t[|piece|..] == rest;
    if AtEscape(s) || MustEncode(s[0]) {
      assert t[..3] == piece;
    } else {
      NoNewEscape(s);
    }
  }

  // With only ASCII bytes, sanitizing keeps what the URL says and changes nothing the
  // second time.
  lemma {:induction false} AsciiKept(s: seq<byte>)
    requires Ascii(s)
    ensures Meaning(Sanitized(s)) == Meaning(s) && Sanitized(Sanitized(s)) == Sanitized(s)
    decreases |s|
  {
    if s != [] {
      hide Piece, Said, Taken, AtEscape;
      AsciiKept(s[Taken(s)..]);
      PieceAgain(s);
    }
  }

  // ---- bytes above 0x7F are doubled ----

  lemma AsciiSplit(a: seq<byte>, b: seq<byte>)
    ensures Ascii(a + b) <==> Ascii(a) && Ascii(b)
  {
    var c := a + b;
    assert forall i :: 0 <= i < |a| ==> c[i] == a[i];
    assert forall i :: 0 <= i < |b| ==> c[|a| + i] == b[i];
  }

  // The first piece of s is ASCII unless s starts with a byte above 0x7F, which is written
  // as two such bytes.
  lemma PieceGrows(s: seq<byte>)
    requires s != []
    ensures |Piece(s)| >= Taken(s) && (Ascii(Piece(s)) <==> s[0] < 0x80) && (Ascii(s[..Taken(s)]) <==> s[0] < 0x80)
    ensures s[0] >= 0x80 ==> Taken(s) == 1 && |Piece(s)| == 2 && forall i :: 0 <= i < 2 ==> Piece(s)[i] >= 0x80
  {
    HexIsPlain(HexDigit(s[0] / 16));
    HexIsPlain(HexDigit(s[0] % 16));
    if AtEscape(s) {
      HexIsPlain(s[1]);
      HexIsPlain(s[2]);
    }
  }

  lemma MeaningOfTwo(two: seq<byte>, rest: seq<byte>)
    requires |two| == 2 && two[0] >= 0x80 && two[1] >= 0x80
    ensures |Meaning(two + rest)| == 2 + |Meaning(rest)|
  {
    var all := two + rest;
    assert all[1..][1..] == rest;
  }

  lemma OfNothing()
    ensures Sanitized([]) == [] && Meaning([]) == [] && Ascii([])
  {
  }

  lemma FirstPiece(s: seq<byte>)
    requires s != []
    ensures Sanitized(s) == Piece(s) + Sanitized(s[Taken(s)..])
  {
  }

  lemma MeaningStep(s: seq<byte>)
    requires s != []
    ensures |Meaning(s)| == 1 + |Meaning(s[Taken(s)..])|
    ensures |Meaning(Sanitized(s))| == (if s[0] < 0x80 then 1 else 2) + |Meaning(Sanitized(s[Taken(s)..]))|
  {
    hide Piece, Said, Taken, AtEscape;
    PieceGrows(s);
    if s[0] < 0x80 {
      PieceAgain(s);
    } else {
      MeaningOfTwo(Piece(s), Sanitized(s[Taken(s)..]));
    }
  }

  // A byte above 0x7F makes the output longer and makes it say more.
  lemma {:induction false} Grows(s: seq<byte>)
    ensures |Sanitized(s)| >= |s| && |Meaning(Sanitized(s))| >= |Meaning(s)|
    ensures !Ascii(s) ==> |Sanitized(s)| > |s| && |Meaning(Sanitized(s))| > |Meaning(s)| && !Ascii(Sanitized(s))
    decreases |s|
  {
    hide Piece, Said, Taken, AtEscape, Ascii, Sanitized, Meaning;
    if s == [] {
      OfNothing();
    } else {
      var n := Taken(s);
      Grows(s[n..]);
      PieceGrows(s);
      assert s == s[..n] + s[n..];
      AsciiSplit(s[..n], s[n..]);
      AsciiSplit(Piece(s), Sanitized(s[n..]));
      FirstPiece(s);
      MeaningStep(s);
    }
  }

  // Sanitizing keeps what the URL says exactly when the URL is ASCII.
  lemma MeaningKept(s: seq<byte>)
    ensures Meaning(Sanitized(s)) == Meaning(s) <==> Ascii(s)
  {
    hide Ascii, Meaning, Sanitized;
    Grows(s);
    if Ascii(s) {
      AsciiKept(s);
    }
  }

  // Sanitizing twice is sanitizing once exactly when the URL is ASCII.
  lemma Idempotent(s: seq<byte>)
    ensures Sanitized(Sanitized(s)) == Sanitized(s) <==> Ascii(s)
  {
    hide Ascii, Meaning, Sanitized;
    Grows(s);
    Grows(Sanitized(s));
    if Ascii(s) {
      AsciiKept(s);
    }
  }

  // One accented letter, two bytes, comes out as four.
  lemma AccentExample()
    ensures Sanitized([0xC3, 0xA9]) == [0xC3, 0x83, 0xC2, 0xA9]
  {
    assert [0xC3, 0xA9][1..] == [0xA9] && Utf8(0xC3) == [0xC3, 0x83] && Utf8(0xA9) == [0xC2, 0xA9];
    assert Sanitized([0xA9]) == Utf8(0xA9) + Sanitized([]);
    hide Utf8;
    assert [0xC3, 0x83] + [0xC2, 0xA9] == [0xC3, 0x83, 0xC2, 0xA9];
  }

  // An escape is a percent sign and two digits, letters as capitals.
  lemma EscapeIsUpper(b: byte)
    ensures Escape(b)[0] == '%' as int
    ensures forall i :: 1 <= i < 3 ==>
      '0' as int <= Escape(b)[i] <= '9' as int || 'A' as int <= Escape(b)[i] <= 'F' as int
  {
  }

  // The characters that http::Uri rejects: controls, space, double quote, angle brackets and
  // braces.
  predicate IsRejected(b: byte) {
    b < 0x20 || b == 0x7F || b in [0x20, 0x22, 0x3C, 0x3E, 0x7B, 0x7D]
  }

  lemma RejectedExactly(b: byte)
    ensures MustEncode(b) <==> IsRejected(b)
  {
  }

  // No rejected character is left.
  lemma {:induction false} Clean(s: seq<byte>)
    ensures forall b :: b in Sanitized(s) ==> !IsRejected(b)
    decreases |s|
  {
    if s != [] {
      Clean(s[Taken(s)..]);
      PieceClean(s);
      FirstPiece(s);
      hide Sanitized, Piece, IsRejected;
    }
  }

  lemma PieceClean(s: seq<byte>)
    requires s != []
    ensures forall b :: b in Piece(s) ==> !IsRejected(b)
  {
    RejectedExactly(s[0]);
    HexIsPlain(HexDigit(s[0] / 16));
    HexIsPlain(HexDigit(s[0] % 16));
    if AtEscape(s) {
      HexIsPlain(s[1]);
      HexIsPlain(s[2]);
      RejectedExactly(s[1]);
      RejectedExactly(s[2]);
    }
  }

  ghost predicate Acceptable(s: seq<byte>) {
    Ascii(s) && forall b :: b in s ==> !IsRejected(b)
  }

  // What needs no change gets none, and nothing else is left alone: sanitizing keeps exactly
  // the ASCII URLs without a rejected character.
  lemma KeptExactly(s: seq<byte>)
    ensures Sanitized(s) == s <==> Acceptable(s)
  {
    hide Ascii, Sanitized, IsRejected;
    Clean(s);
    Grows(s);
    if Acceptable(s) {
      AcceptableKept(s);
    }
  }

  lemma {:induction false} AcceptableKept(s: seq<byte>)
    requires Acceptable(s)
    ensures Sanitized(s) == s
    decreases |s|
  {
    if s != [] {
      var n := Taken(s);
      assert s == s[..n] + s[n..];
      FirstPiece(s);
      RejectedExactly(s[0]);
      assert Piece(s) == s[..n];
      hide Sanitized, IsRejected, MustEncode, Piece;
      AcceptableKept(s[n..]);
    }
  }
}
