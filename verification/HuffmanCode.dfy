// The code as bit strings: it is prefix-free and complete, so a bit string can be cut
// into codes in at most one way, and encoding has at most one inverse.
module HuffmanCode {
  import opened Bits
  import opened HuffmanTable

  function CodeBits(s: Symbol): (b: seq<bool>) {
    BitsOf(Entry(s).value, Entry(s).len)
  }

  // The codes of a string of symbols, one after the other.
  function Codes(x: seq<Symbol>): (b: seq<bool>) {
    if x == [] then [] else CodeBits(x[0]) + Codes(x[1..])
  }

  ghost predicate ProperPrefix(p: seq<bool>, b: seq<bool>) {
    p <= b && |p| < |b|
  }

  function PadLen(n: nat): nat {
    (8 - n % 8) % 8
  }

  function PadToByte(b: seq<bool>): (s: seq<byte>)
    ensures |s| == (|b| + 7) / 8
  {
    PadLenSum(|b|);
    Pack(b + Ones(PadLen(|b|)))
  }

  // Section 5.2 of RFC 7541: the codes of the bytes, then 1-bits up to a byte boundary.
  function Encoding(s: seq<byte>): (x: seq<byte>) {
    PadToByte(Codes(s))
  }

  lemma PadLenSum(n: nat)
    ensures (n + PadLen(n)) % 8 == 0 && (n + PadLen(n)) / 8 == (n + 7) / 8
  {
  }

  // ---- every symbol has its own rank ----

  predicate IsRanked(s: Symbol) {
    var c := Entry(s);
    First(c.len) <= c.value < First(c.len) + Count(c.len) &&
    Ranked(c.len, c.value - First(c.len)) == s
  }

  // How many symbols have codes shorter than l.
  function Shorter(l: nat): nat {
    if l == 0 then 0 else Shorter(l - 1) + Count(l - 1)
  }

  // Its code is among the first n of length l, or shorter.
  predicate Before(s: Symbol, l: nat, n: nat) {
    Entry(s).len < l || (Entry(s).len == l && Entry(s).value < First(l) + n)
  }

  // The next code belongs to a symbol that is not among the ones before it.
  lemma NextRanked(l: nat, n: nat)
    requires n < Count(l)
    ensures var s := Ranked(l, n); IsRanked(s) && Before(s, l, n + 1) && !Before(s, l, n)
  {
    hide Entry, First, Ranked, Count;
    RankedEntry(l, n);
  }

  // The symbols with the first Shorter(l) + n codes: all different, all ranked.
  lemma {:induction false} Collect(l: nat, n: nat) returns (found: set<Symbol>)
    requires n <= Count(l)
    ensures |found| == Shorter(l) + n
    ensures forall s :: s in found ==> IsRanked(s) && Before(s, l, n)
    decreases l, n
  {
    hide Entry, First, Ranked, Count, IsRanked;
    if n != 0 {
      var fewer := Collect(l, n - 1);
      NextRanked(l, n - 1);
      assert Ranked(l, n - 1) !in fewer;
      found := fewer + {Ranked(l, n - 1)};
    } else if l != 0 {
      found := Collect(l - 1, Count(l - 1));
    } else {
      found := {};
    }
  }

  lemma {:induction false} SymbolsBelow(n: nat) returns (all: set<Symbol>)
    requires n <= 257
    ensures |all| == n && forall s: Symbol :: s in all <==> s < n
  {
    if n == 0 {
      all := {};
    } else {
      var fewer := SymbolsBelow(n - 1);
      all := fewer + {n - 1};
    }
  }

  lemma ShorterThan15()
    ensures Shorter(15) == 92
  {
    assert Shorter(7) == 36;
    assert Shorter(11) == 79;
  }

  lemma ShorterThan24()
    ensures Shorter(24) == 174
  {
    ShorterThan15();
    assert Shorter(20) == 98;
  }

  lemma ShorterTotal()
    ensures Shorter(30) + Count(30) == 257
  {
    ShorterThan24();
    assert Shorter(27) == 205;
  }

  // The ranked symbols are 257 in number, so they are all the symbols there are.
  lemma EveryRanked(s: Symbol)
    ensures IsRanked(s)
  {
    hide Entry, First, Ranked, Count;
    ShorterTotal();
    var found := Collect(30, Count(30));
    var all := SymbolsBelow(257);
    if s !in found {
      assert found <= all - {s};
      SubsetSize(found, all - {s});
    }
  }

  lemma {:induction false} SubsetSize(a: set<Symbol>, b: set<Symbol>)
    requires a <= b
    ensures |a| <= |b|
  {
    assert b == a + (b - a);
  }

  // ---- prefix-free ----

  lemma {:induction false} CodesFit(l: nat)
    requires l <= 30
    ensures First(l) + Count(l) <= Pow2(l)
    decreases 30 - l
  {
    if l < 30 {
      CodesFit(l + 1);
      FirstStep(l);
    } else {
      FirstStep(0);
      assert Pow2(10) == 1024 && Pow2(20) == 0x10_0000;
    }
  }

  lemma EntryFits(s: Symbol)
    ensures 5 <= Entry(s).len <= 30 && Entry(s).value < Pow2(Entry(s).len)
  {
    hide Entry, First, Ranked;
    EveryRanked(s);
    CodesFit(Entry(s).len);
  }

  // A code that is at least First(l + d) extends none of the codes of length l.
  lemma {:induction false} ShorterCodesBelow(v: nat, l: nat, d: nat)
    requires d > 0 && l + d <= 30 && v >= First(l + d)
    ensures Shr(v, d) >= First(l) + Count(l)
  {
    hide First, Count;
    FirstStep(l + d - 1);
    if d > 1 {
      ShorterCodesBelow(v / 2, l, d - 1);
    } else {
      assert Shr(v, 1) == v / 2;
    }
  }

  // A code that begins another is its value shifted right.
  lemma PrefixValue(s: Symbol, t: Symbol)
    requires CodeBits(s) <= CodeBits(t)
    ensures Entry(s).len <= Entry(t).len <= 30
    ensures Shr(Entry(t).value, Entry(t).len - Entry(s).len) == Entry(s).value
  {
    hide Entry;
    EntryFits(s);
    EntryFits(t);
    var a, b := Entry(s), Entry(t);
    var d := b.len - a.len;
    BitsOfSplit(b.value, a.len, d);
    ShrBound(b.value, a.len, d);
    assert BitsOf(Shr(b.value, d), a.len) == CodeBits(t)[..a.len] == CodeBits(s);
    ValBitsOf(a.value, a.len);
    ValBitsOf(Shr(b.value, d), a.len);
  }

  lemma PrefixFree(s: Symbol, t: Symbol)
    requires CodeBits(s) <= CodeBits(t)
    ensures s == t
  {
    hide Entry, First, Ranked, Count, CodeBits;
    PrefixValue(s, t);
    EveryRanked(s);
    EveryRanked(t);
    var a, b := Entry(s), Entry(t);
    var d := b.len - a.len;
    if d > 0 {
      ShorterCodesBelow(b.value, a.len, d);
    }
  }

  // ---- complete ----

  // Every string of 30 bits starts with a code.
  lemma {:induction false} FindCode(x: nat, l: nat) returns (s: Symbol)
    requires x < 0x4000_0000 && l <= 30 && Shr(x, 30 - l) >= First(l)
    ensures CodeBits(s) <= BitsOf(x, 30)
    decreases 30 - l
  {
    hide Entry, First, Ranked, Count;
    FirstStep(if l < 30 then l else 0);
    var v := Shr(x, 30 - l);
    if v < First(l) + Count(l) {
      s := Ranked(l, v - First(l));
      RankedEntry(l, v - First(l));
      BitsOfSplit(x, l, 30 - l);
    } else {
      assert l < 30;
      ShrStep(x, 29 - l);
      s := FindCode(x, l + 1);
    }
  }

  lemma StartsWithCode(b: seq<bool>) returns (s: Symbol)
    requires |b| == 30
    ensures CodeBits(s) <= b
  {
    ValBound(b);
    assert Pow2(10) == 1024 && Pow2(20) == 0x10_0000 && Pow2(30) == 0x4000_0000;
    BitsOfVal(b);
    assert Shr(Val(b), 30) >= First(0) by { assert First(0) == 0; }
    hide Entry, First;
    s := FindCode(Val(b), 0);
  }

  // Whatever bit follows a proper prefix of a code, the result still begins a code.
  lemma Complete(p: seq<bool>, t: Symbol, bit: bool) returns (s: Symbol)
    requires ProperPrefix(p, CodeBits(t))
    ensures p + [bit] <= CodeBits(s)
  {
    hide Entry;
    EntryFits(t);
    var b := p + [bit] + Ones(29 - |p|);
    s := StartsWithCode(b);
    if |CodeBits(s)| <= |p| {
      assert CodeBits(s) == b[..|CodeBits(s)|] == p[..|CodeBits(s)|] == CodeBits(t)[..|CodeBits(s)|];
      PrefixFree(s, t);
    }
    assert p + [bit] == b[..|p| + 1] == CodeBits(s)[..|p| + 1];
  }

  // ---- unique parsing ----

  lemma CodesNone()
    ensures Codes([]) == []
  {
  }

  lemma CodesCons(s: Symbol, x: seq<Symbol>)
    ensures Codes([s] + x) == CodeBits(s) + Codes(x)
  {
    hide CodeBits;
    assert ([s] + x)[1..] == x;
  }

  lemma {:induction false} CodesAppend(x: seq<Symbol>, y: seq<Symbol>)
    ensures Codes(x + y) == Codes(x) + Codes(y)
  {
    hide CodeBits, Codes;
    if x == [] {
      CodesNone();
      assert x + y == y && [] + Codes(y) == Codes(y);
    } else {
      CodesAppend(x[1..], y);
      CodesCons(x[0], x[1..] + y);
      CodesCons(x[0], x[1..]);
      var c, d, e := CodeBits(x[0]), Codes(x[1..]), Codes(y);
      assert x + y == [x[0]] + (x[1..] + y) && x == [x[0]] + x[1..];
      assert c + (d + e) == (c + d) + e;
    }
  }

  lemma CodesSnoc(x: seq<Symbol>, s: Symbol)
    ensures Codes(x + [s]) == Codes(x) + CodeBits(s)
  {
    hide CodeBits;
    CodesAppend(x, [s]);
    assert Codes([s]) == CodeBits(s) + Codes([]);
  }

  // If the codes of x begin a bit string that ends inside a code after the codes of y,
  // then x begins y.
  lemma {:induction false} ParseUnique(x: seq<Symbol>, rest: seq<bool>, y: seq<Symbol>, p: seq<bool>, t: Symbol)
    requires Codes(x) + rest == Codes(y) + p
    requires ProperPrefix(p, CodeBits(t))
    ensures x <= y
  {
    hide CodeBits;
    if x != [] {
      var c := CodeBits(x[0]);
      var whole := Codes(x) + rest;
      assert whole == c + (Codes(x[1..]) + rest);
      assert c == whole[..|c|];
      if y == [] {
        assert c == p[..|c|] == CodeBits(t)[..|c|];
        PrefixFree(x[0], t);
        assert false;
      }
      var d := CodeBits(y[0]);
      assert whole == d + (Codes(y[1..]) + p);
      assert d == whole[..|d|];
      if |c| <= |d| {
        assert c == d[..|c|];
        PrefixFree(x[0], y[0]);
      } else {
        assert d == c[..|d|];
        PrefixFree(y[0], x[0]);
      }
      assert Codes(x[1..]) + rest == whole[|c|..] == Codes(y[1..]) + p;
      ParseUnique(x[1..], rest, y[1..], p, t);
      assert x == [x[0]] + x[1..] && y == [y[0]] + y[1..];
    }
  }

  lemma EosIsOnes()
    ensures CodeBits(EOS) == Ones(30)
  {
    BitsOfOnes(30);
    assert Pow2(10) == 1024 && Pow2(20) == 0x10_0000 && Pow2(30) == 0x4000_0000;
  }

  lemma PaddingInsideEOS(n: nat)
    requires n < 30
    ensures ProperPrefix(Ones(n), CodeBits(EOS))
  {
    EosIsOnes();
    assert Ones(n) == Ones(30)[..n];
  }

  // The prefixes of EOS are the strings of up to thirty 1-bits.
  lemma EosPrefix(p: seq<bool>)
    ensures p <= CodeBits(EOS) <==> AllOnes(p) && |p| <= 30
  {
    EosIsOnes();
    hide CodeBits;
    if AllOnes(p) && |p| <= 30 {
      assert p == Ones(30)[..|p|];
    }
  }

  lemma EncodingBits(s: seq<byte>)
    ensures ByteBits(Encoding(s)) == Codes(s) + Ones(PadLen(|Codes(s)|))
  {
    hide Codes;
    ByteBitsPack(Codes(s) + Ones(PadLen(|Codes(s)|)));
  }

  lemma EncodingInjective(s: seq<byte>, t: seq<byte>)
    requires Encoding(s) == Encoding(t)
    ensures s == t
  {
    hide Codes, CodeBits, Encoding;
    EncodingBits(s);
    EncodingBits(t);
    var p, q := Ones(PadLen(|Codes(s)|)), Ones(PadLen(|Codes(t)|));
    PaddingInsideEOS(|p|);
    PaddingInsideEOS(|q|);
    ParseUnique(s, p, t, q, EOS);
    ParseUnique(t, q, s, p, EOS);
  }

  // Every code has at least five bits, so decoding at most expands 8 bytes for 5.
  lemma {:induction false} CodesLength(x: seq<Symbol>)
    ensures 5 * |x| <= |Codes(x)|
  {
    hide Entry;
    if x != [] {
      EntryFits(x[0]);
      CodesLength(x[1..]);
    }
  }

  lemma EncodingLength(s: seq<byte>)
    ensures |Encoding(s)| == (|Codes(s)| + 7) / 8
    ensures 5 * |s| <= 8 * |Encoding(s)|
  {
    hide Codes;
    CodesLength(s);
  }
}
