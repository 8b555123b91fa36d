// Variable-length integers, section 5.1 of RFC 7541, with the deliberate overlong form.
module HpackInteger {
  import opened Wrappers
  import opened Bits
  import opened HpackTypes

  // ---- the wire form ----

  // The continuation bytes of v: seven bits each, least significant first.
  function Digits(v: nat): (d: seq<byte>)
    ensures |d| > 0
  {
    if v < 128 then [v] else [v % 128 + 128] + Digits(v / 128)
  }

  // The given number of zero digits put before the last one.
  function Bloated(d: seq<byte>, bloat: nat): (r: seq<byte>)
    requires |d| > 0
    ensures |r| == |d| + bloat
  {
    d[..|d| - 1] + Zeros(bloat) + [d[|d| - 1]]
  }

  function Zeros(n: nat): (z: seq<byte>)
    ensures |z| == n
  {
    seq(n, _ => 0x80)
  }

  function MaxPrefix(n: nat): (m: nat)
    requires 1 <= n <= 8
    ensures 1 <= m < 256 && m == Pow2(n) - 1
  {
    Pow2Mono(1, n);
    Pow2Mono(n, 8);
    assert Pow2(1) == 2 && Pow2(8) == 256;
    Pow2(n) - 1
  }

  // A prefix pattern occupies only bits above the n-bit prefix.
  predicate PatternOk(pattern: byte, n: nat) {
    Low(pattern, n) == 0
  }

  function IntegerForm(value: nat, n: nat, pattern: byte, bloat: nat): (r: seq<byte>)
    requires 1 <= n <= 8 && PatternOk(pattern, n)
  {
    var max := MaxPrefix(n);
    if value < max then
      PrefixByte(pattern, value, n);
      [Or(pattern, value)]
    else
      PrefixByte(pattern, max, n);
      [Or(pattern, max)] + Bloated(Digits(value - max), bloat)
  }

  // The first byte holds the pattern and the prefix side by side.
  lemma PrefixByte(pattern: byte, v: nat, n: nat)
    requires 1 <= n <= 8 && PatternOk(pattern, n) && v <= MaxPrefix(n)
    ensures Or(pattern, v) == pattern + v < 256
    ensures Low(Or(pattern, v), n) == v && Shr(Or(pattern, v), n) == Shr(pattern, n)
  {
    hide Or, Shl, Shr, Low, Pow2, MaxPrefix;
    var h := Shr(pattern, n);
    ShrShl(pattern, n);
    OrShl(h, v, n);
    LowSum(h, v, n);
    ByteAbove(h, v, n);
    ShrSum(h, v, n);
  }

  lemma {:induction false} ShrSum(v: nat, c: nat, n: nat)
    requires c < Pow2(n)
    ensures Shr(Shl(v, n) + c, n) == v
  {
    if n != 0 {
      assert (Shl(v, n) + c) / 2 == Shl(v, n - 1) + c / 2;
      ShrSum(v, c / 2, n - 1);
    }
  }

  lemma ByteAbove(h: nat, v: nat, n: nat)
    requires n <= 8 && Shl(h, n) < 256 && v < Pow2(n)
    ensures Shl(h, n) + v < 256
  {
    assert Pow2(8) == 256;
    Below(h, v, n, 8);
  }

  // A multiple of 2^n below 2^m stays below it when the n low-order bits are filled in.
  lemma {:induction false} Below(h: nat, v: nat, n: nat, m: nat)
    requires n <= m && Shl(h, n) < Pow2(m) && v < Pow2(n)
    ensures Shl(h, n) + v < Pow2(m)
  {
    if n != 0 {
      Below(h, v / 2, n - 1, m - 1);
    }
  }

  method WriteInteger(out: Buffer, value: nat, n: nat, pattern: byte, bloat: nat)
    requires value < U32 && 1 <= n <= 8 && PatternOk(pattern, n)
    modifies out
    ensures out.bytes == old(out.bytes) + IntegerForm(value, n, pattern, bloat)
  {
    hide Or, Low, Pow2, PatternOk;
    var maxPrefix := MaxPrefix(n);
    if value < maxPrefix {
      PrefixByte(pattern, value, n);
      out.bytes := out.bytes + [Or(pattern, value)];
      return;
    }
    PrefixByte(pattern, maxPrefix, n);
    out.bytes := out.bytes + [Or(pattern, maxPrefix)];
    WriteDigits(out, value - maxPrefix);
    ghost var start := old(out.bytes) + [Or(pattern, maxPrefix)];
    InsertBloat(out, start, Digits(value - maxPrefix), bloat);
    assert start + Bloated(Digits(value - maxPrefix), bloat)
        == old(out.bytes) + ([Or(pattern, maxPrefix)] + Bloated(Digits(value - maxPrefix), bloat));
  }

  method WriteDigits(out: Buffer, v: nat)
    modifies out
    ensures out.bytes == old(out.bytes) + Digits(v)
  {
    var remaining := v;
    while remaining >= 128
      invariant 0 <= remaining
      invariant out.bytes + Digits(remaining) == old(out.bytes) + Digits(v)
    {
      ghost var before, rest := out.bytes, Digits(remaining / 128);
      assert before + ([remaining % 128 + 128] + rest) == before + [remaining % 128 + 128] + rest;
      out.bytes := out.bytes + [remaining % 128 + 128];
      remaining := remaining / 128;
    }
    out.bytes := out.bytes + [remaining];
  }

  // Insert zero digits before the last byte, one at a time.
  method InsertBloat(out: Buffer, ghost start: seq<byte>, ghost digits: seq<byte>, bloat: nat)
    requires |digits| > 0 && out.bytes == start + digits
    modifies out
    ensures out.bytes == start + Bloated(digits, bloat)
  {
    BloatedNone(digits);
    for i := 0 to bloat
      invariant out.bytes == start + Bloated(digits, i)
    {
      var last := out.bytes[|out.bytes| - 1];
      assert out.bytes[..|out.bytes| - 1] == start + (digits[..|digits| - 1] + Zeros(i));
      assert Zeros(i + 1) == Zeros(i) + [0x80];
      out.bytes := out.bytes[..|out.bytes| - 1];
      out.bytes := out.bytes + [0x80];
      out.bytes := out.bytes + [last];
    }
  }

  lemma BloatedNone(d: seq<byte>)
    requires |d| > 0
    ensures Bloated(d, 0) == d
  {
  }

  // ---- reading ----

  // What reading at the start of s gives: the value and the length read.
  function ReadInt(s: seq<byte>, n: nat): (r: Result<(nat, nat), DecodeError>)
    requires 1 <= n <= 8
    ensures r.Ok? ==> 0 < r.value.1 <= |s| && r.value.0 < U32
  {
    if s == [] then Err(UnexpectedEof(0)) else
      var first := Low(s[0], n);
      if first < MaxPrefix(n) then Ok((first, 1)) else ReadMore(s, 1, MaxPrefix(n), 0)
  }

  // The continuation bytes from position p on. Shifts of 32 or more are refused; a
  // smaller shift silently loses the bits above a 32-bit word.
  function ReadMore(s: seq<byte>, p: nat, value: nat, shift: nat): (r: Result<(nat, nat), DecodeError>)
    requires p <= |s|
    ensures r.Ok? ==> p < r.value.1 <= |s| && r.value.0 < U32
    decreases |s| - p
  {
    if p == |s| then Err(UnexpectedEof(p))
    else if shift >= 32 then Err(IntegerOverflow)
    else
      var value' := value + Low(Shl(s[p] % 128, shift), 32);
      if value' >= U32 then Err(IntegerOverflow)
      else if s[p] < 128 then Ok((value', p + 1))
      else ReadMore(s, p + 1, value', shift + 7)
  }

  method ReadInteger(buf: seq<byte>, pos: nat, n: nat) returns (r: Result<(nat, nat), DecodeError>)
    requires 1 <= n <= 8
    ensures r == if pos > |buf| then Err(UnexpectedEof(pos)) else Moved(ReadInt(buf[pos..], n), pos)
  {
    hide Low, Shl, Pow2;
    if pos >= |buf| {
      return Err(UnexpectedEof(pos));
    }
    var maxPrefix := MaxPrefix(n);
    var first := Low(buf[pos], n);
    if first < maxPrefix {
      return Ok((first, pos + 1));
    }
    var value: nat := maxPrefix;
    var shift := 0;
    var p := pos + 1;
    ghost var s := buf[pos..];
    while true
      invariant pos < p <= |buf| && 0 <= shift
      invariant ReadInt(s, n) == ReadMore(s, p - pos, value, shift)
      decreases |buf| - p
    {
      if p >= |buf| {
        return Err(UnexpectedEof(p));
      }
      var b := buf[p];
      p := p + 1;
      if shift >= 32 {
        return Err(IntegerOverflow);
      }
      var contribution := Low(Shl(b % 128, shift), 32);
      if value + contribution >= U32 {
        return Err(IntegerOverflow);
      }
      value := value + contribution;
      if b < 128 {
        return Ok((value, p));
      }
      shift := shift + 7;
    }
  }

  // ---- the round trip ----

  lemma {:induction false} ReadDigits(s: seq<byte>, p: nat, value: nat, shift: nat, v: nat)
    requires p <= |s| && Digits(v) <= s[p..]
    requires shift < 32 && value + Shl(v, shift) < U32
    ensures ReadMore(s, p, value, shift) == Ok((value + Shl(v, shift), p + |Digits(v)|))
    decreases v
  {
    hide Low, Pow2;
    var d := Digits(v);
    assert s[p] == d[0];
    ReadDigit(value, shift, v);
    if v >= 128 {
      assert s[p + 1..] == s[p..][1..] && d[1..] == Digits(v / 128);
      ReadDigits(s, p + 1, value + Shl(v % 128, shift), shift + 7, v / 128);
    }
  }

  // One digit of v, and what is left of v.
  lemma ReadDigit(value: nat, shift: nat, v: nat)
    requires value + Shl(v, shift) < U32
    ensures Shl(v, shift) == Shl(v % 128, shift) + Shl(v / 128, shift + 7)
    ensures Low(Shl(v % 128, shift), 32) == Shl(v % 128, shift)
    ensures v >= 128 ==> shift + 7 < 32
  {
    ShlSum(v % 128, 128 * (v / 128), shift);
    Shl7(v / 128);
    ShlShl(v / 128, 7, shift);
    Word32();
    LowSmall(Shl(v % 128, shift), 32);
    if v >= 128 {
      ShlBound(v / 128, shift + 7);
      if shift + 7 >= 32 {
        Pow2Mono(32, shift + 7);
      }
    }
  }

  lemma Shl7(v: nat)
    ensures Shl(v, 7) == 128 * v
  {
    assert Shl(v, 1) == 2 * v;
    assert Shl(v, 3) == 8 * v;
    assert Shl(v, 5) == 32 * v;
  }

  lemma Word32()
    ensures Pow2(32) == U32
  {
    assert Pow2(8) == 256 && Pow2(16) == 0x1_0000 && Pow2(24) == 0x100_0000;
  }

  // Section 5.1 of RFC 7541: the reader inverts the writer, for every value of a
  // 32-bit word, every prefix and whatever follows.
  lemma IntegerRoundTrip(value: nat, n: nat, pattern: byte, rest: seq<byte>)
    requires value < U32 && 1 <= n <= 8 && PatternOk(pattern, n)
    ensures ReadInt(IntegerForm(value, n, pattern, 0) + rest, n)
         == Ok((value, |IntegerForm(value, n, pattern, 0)|))
  {
    hide Or, Low, Pow2, PatternOk;
    var max := MaxPrefix(n);
    var form := IntegerForm(value, n, pattern, 0);
    var s := form + rest;
    if value < max {
      PrefixByte(pattern, value, n);
    } else {
      PrefixByte(pattern, max, n);
      var d := Digits(value - max);
      BloatedNone(d);
      assert s[1..] == d + rest;
      ReadDigits(s, 1, max, 0, value - max);
    }
  }

  // ---- the overlong form ----

  // Zero digits change nothing but the shift, until it is too large.
  lemma {:induction false} ReadZeros(s: seq<byte>, p: nat, value: nat, shift: nat, k: nat)
    requires p <= |s| && Zeros(k) <= s[p..] && value < U32
    ensures p + k <= |s|
    ensures ReadMore(s, p, value, shift) == ReadMore(s, p + k, value, shift + 7 * k)
         || ReadMore(s, p, value, shift) == Err(IntegerOverflow)
    decreases k
  {
    if k > 0 {
      hide ReadMore;
      assert s[p] == Zeros(k)[0] == 0x80;
      assert s[p + 1..] == s[p..][1..] && Zeros(k)[1..] == Zeros(k - 1);
      ReadZero(s, p, value, shift);
      ReadZeros(s, p + 1, value, shift + 7, k - 1);
    }
  }

  lemma ReadZero(s: seq<byte>, p: nat, value: nat, shift: nat)
    requires p < |s| && s[p] == 0x80 && value < U32
    ensures ReadMore(s, p, value, shift)
         == if shift < 32 then ReadMore(s, p + 1, value, shift + 7) else Err(IntegerOverflow)
  {
    hide Low, Shl;
    ShlZero(shift);
  }

  lemma {:induction false} ShlZero(n: nat)
    ensures Shl(0, n) == 0 && Low(0, 32) == 0
  {
    LowSmall(0, 32);
    if n != 0 {
      ShlZero(n - 1);
    }
  }

  // No nonzero word equals itself shifted left, even modulo the word size.
  lemma {:induction false} ShiftedDiffers(u: nat, m: nat, k: nat)
    requires m > 0 && Low(Shl(u, m), k) == u
    ensures u == 0
  {
    if k != 0 {
      hide Low, Shl;
      ShiftedHalf(u, m, k);
      ShiftedDiffers(u / 2, m, k - 1);
    }
  }

  lemma ShiftedHalf(u: nat, m: nat, k: nat)
    requires m > 0 && k > 0 && Low(Shl(u, m), k) == u
    ensures u % 2 == 0 && Low(Shl(u / 2, m), k - 1) == u / 2
  {
    var x := Shl(u, m);
    assert x == 2 * Shl(u, m - 1) && Low(x, k) == 2 * Low(x / 2, k - 1) + x % 2;
    hide Low, Shl;
    var h := u / 2;
    assert u == h + h;
    ShlSum(h, h, m);
  }

  lemma BloatedDigits(v: nat, bloat: nat)
    requires v >= 128
    ensures Bloated(Digits(v), bloat) == [v % 128 + 128] + Bloated(Digits(v / 128), bloat)
  {
    var d := Digits(v);
    assert d[1..] == Digits(v / 128);
    assert d[..|d| - 1] == [d[0]] + d[1..][..|d| - 2];
  }

  lemma {:induction false} ReadBloated(s: seq<byte>, p: nat, value: nat, shift: nat, v: nat, bloat: nat)
    requires p <= |s| && Bloated(Digits(v), bloat) <= s[p..]
    requires shift < 32 && value + Shl(v, shift) < U32 && v > 0 && bloat > 0
    ensures match ReadMore(s, p, value, shift)
      case Ok((w, _)) => w != value + Shl(v, shift)
      case Err(e) => e == IntegerOverflow
    decreases v
  {
    hide Low, Pow2, Shl, Bloated;
    if v >= 128 {
      ReadDigit(value, shift, v);
      BloatedDigits(v, bloat);
      var b := Bloated(Digits(v), bloat);
      assert s[p] == b[0] && s[p + 1..] == s[p..][1..];
      ReadBloated(s, p + 1, value + Shl(v % 128, shift), shift + 7, v / 128, bloat);
    } else {
      LastBloated(s, p, value, shift, v, bloat);
    }
  }

  lemma LastBloated(s: seq<byte>, p: nat, value: nat, shift: nat, v: byte, bloat: nat)
    requires p <= |s| && Bloated([v], bloat) <= s[p..]
    requires shift < 32 && value + Shl(v, shift) < U32 && 0 < v < 128 && bloat > 0
    ensures match ReadMore(s, p, value, shift)
      case Ok((w, _)) => w != value + Shl(v, shift)
      case Err(e) => e == IntegerOverflow
  {
    hide Low, Pow2, Shl;
    var b := Bloated([v], bloat);
    assert b == Zeros(bloat) + [v];
    assert Zeros(bloat) == b[..bloat] == s[p..][..bloat];
    assert s[p + bloat] == b[bloat];
    ReadZeros(s, p, value, shift, bloat);
    LastDigitMoved(v, shift, bloat);
  }

  lemma LastDigitMoved(v: nat, shift: nat, bloat: nat)
    requires v > 0 && bloat > 0
    ensures Low(Shl(v, shift + 7 * bloat), 32) != Shl(v, shift)
  {
    ShlBound(v, shift);
    ShlShl(v, shift, 7 * bloat);
    if Low(Shl(Shl(v, shift), 7 * bloat), 32) == Shl(v, shift) {
      ShiftedDiffers(Shl(v, shift), 7 * bloat, 32);
    }
  }

  // With one to three zero digits inserted, a value survives exactly when it is at
  // most 2^n - 1; a larger one reads back as another value or overflows.
  lemma BloatRoundTrip(value: nat, n: nat, pattern: byte, bloat: nat, rest: seq<byte>)
    requires value < U32 && 1 <= n <= 8 && PatternOk(pattern, n) && 1 <= bloat <= 3
    ensures var form := IntegerForm(value, n, pattern, bloat);
      if value <= Pow2(n) - 1 then ReadInt(form + rest, n) == Ok((value, |form|))
      else match ReadInt(form + rest, n)
        case Ok((w, _)) => w != value
        case Err(e) => e == IntegerOverflow
  {
    hide Or, Low, Pow2, PatternOk;
    var max := MaxPrefix(n);
    var form := IntegerForm(value, n, pattern, bloat);
    var s := form + rest;
    PrefixByte(pattern, if value < max then value else max, n);
    if value >= max {
      var d := Digits(value - max);
      assert s[1..] == Bloated(d, bloat) + rest;
      if value > max {
        ReadBloated(s, 1, max, 0, value - max, bloat);
      } else {
        BloatedMax(s, max, bloat, rest);
      }
    }
  }

  lemma BloatedMax(s: seq<byte>, max: nat, bloat: nat, rest: seq<byte>)
    requires |s| > 0 && s[1..] == Bloated(Digits(0), bloat) + rest && max < 256 && bloat <= 3
    ensures ReadMore(s, 1, max, 0) == Ok((max, 2 + bloat))
  {
    var z := Zeros(bloat) + [0];
    assert Bloated(Digits(0), bloat) == z;
    assert s[1..][..|z|] == z;
    ReadZeroValue(s, 1, max, 0, bloat);
  }

  lemma {:induction false} ReadZeroValue(s: seq<byte>, p: nat, value: nat, shift: nat, k: nat)
    requires p <= |s| && Zeros(k) + [0] <= s[p..] && value < U32 && shift + 7 * k < 32
    ensures ReadMore(s, p, value, shift) == Ok((value, p + k + 1))
    decreases k
  {
    var z := Zeros(k) + [0];
    assert s[p] == z[0];
    ShlZero(shift);
    if k > 0 {
      assert z[1..] == Zeros(k - 1) + [0] && s[p + 1..] == s[p..][1..];
      hide Low;
      ReadZeroValue(s, p + 1, value, shift + 7, k - 1);
    }
  }

  lemma FullPrefix7()
    ensures MaxPrefix(7) == 127 && Low(127, 7) == 127
  {
    assert Pow2(7) == 128;
    hide Low, Pow2;
    LowSmall(127, 7);
  }

  lemma ExampleForm()
    ensures PatternOk(0, 7) && IntegerForm(128, 7, 0, 1) == [127, 0x80, 1]
  {
    LowSmall(0, 7);
    FullPrefix7();
    PrefixByte(0, 127, 7);
    hide Or, Low, Shl, Pow2;
    assert Digits(1) == [1] && Bloated([1], 1) == [0x80, 1];
  }

  // One zero digit inserted into the length 128 makes it read as 255.
  lemma BloatExample()
    ensures PatternOk(0, 7) && ReadInt(IntegerForm(128, 7, 0, 1), 7) == Ok((255, 3))
  {
    ExampleForm();
    FullPrefix7();
    hide Or, Low, Shl, Pow2, Digits, Bloated, IntegerForm, ReadMore, PatternOk;
    var form := IntegerForm(128, 7, 0, 1);
    ReadZero(form, 1, 127, 0);
    LastExample(form);
  }

  lemma LastExample(form: seq<byte>)
    requires form == [127, 0x80, 1]
    ensures ReadMore(form, 2, 127, 7) == Ok((255, 3))
  {
    Shl7(1);
    Word32();
    LowSmall(128, 32);
    hide Shl, Low, Pow2;
  }

  // ---- what is read, byte string by byte string ----

  // The numeral in the continuation bytes from position p on, and where it ends: at the
  // first byte below 128.
  function Numeral(s: seq<byte>, p: nat): (r: Option<(nat, nat)>)
    ensures r.Some? ==> p < r.value.1 <= |s|
    decreases |s| - p
  {
    if p >= |s| then None
    else if s[p] < 128 then Some((s[p], p + 1))
    else match Numeral(s, p + 1)
      case None => None
      case Some((v, q)) => Some((s[p] % 128 + 128 * v, q))
  }

  // The multiples of 2^32 that a digit at shift 28 loses.
  function Lost(digit: nat): nat {
    digit / 16 * U32
  }

  // i digits are read already; the last of k more is lost in part when it is the fifth.
  function LostAt(i: nat, k: nat, last: byte): nat {
    if i + k == 5 then Lost(last) else 0
  }

  // The digit at shift 7 * i, as the reader cuts it.
  lemma DigitCut(d: nat, i: nat)
    requires d < 128 && i < 5
    ensures Low(Shl(d, 7 * i), 32) == Shl(d, 7 * i) - (if i == 4 then Lost(d) else 0)
  {
    hide Low, Shl;
    LowShl(d, 32, 7 * i);
    if i == 4 {
      Low4(d);
      Shl28(d);
      Shl28(d % 16);
    } else {
      assert Pow2(7) == 128;
      Pow2Mono(7, 32 - 7 * i);
      LowSmall(d, 32 - 7 * i);
    }
  }

  lemma Low4(v: nat)
    ensures Low(v, 4) == v % 16
  {
    Low2(v / 4);
    var h, q := v / 2, v / 4;
    assert h / 2 == q && v == 2 * h + v % 2 && h == 2 * q + h % 2;
    assert Low(h, 3) == 2 * Low(q, 2) + h % 2;
    assert Low(v, 4) == 2 * Low(h, 3) + v % 2;
    hide Low;
    assert v % 16 == 4 * (q % 4) + 2 * (h % 2) + v % 2;
  }

  lemma Low2(v: nat)
    ensures Low(v, 2) == v % 4
  {
    assert Low(v / 2, 1) == v / 2 % 2;
  }

  lemma Shl28(v: nat)
    ensures Shl(v, 28) == v * 0x1000_0000
  {
    hide Shl;
    Shl7(v);
    ShlShl(v, 7, 7);
    Shl7(Shl(v, 7));
    ShlShl(v, 14, 7);
    Shl7(Shl(v, 14));
    ShlShl(v, 21, 7);
    Shl7(Shl(v, 21));
  }

  lemma {:induction false} ReadNumeral(s: seq<byte>, p: nat, value: nat, i: nat)
    requires p <= |s| && i <= 5 && value < U32
    ensures match Numeral(s, p)
      case None => ReadMore(s, p, value, 7 * i).Err?
      case Some((v, q)) =>
        var lost := LostAt(i, q - p, s[q - 1]);
        lost <= Shl(v, 7 * i) &&
        ReadMore(s, p, value, 7 * i) ==
          if i + (q - p) > 5 || value + Shl(v, 7 * i) - lost >= U32 then Err(IntegerOverflow)
          else Ok((value + Shl(v, 7 * i) - lost, q))
    decreases |s| - p
  {
    hide Low, Shl, Pow2, Lost;
    if p < |s| && i < 5 {
      var d := s[p] % 128;
      DigitCut(d, i);
      var value' := value + Low(Shl(d, 7 * i), 32);
      if s[p] >= 128 {
        ReadNumeral(s, p + 1, if value' < U32 then value' else 0, i + 1);
        if Numeral(s, p + 1).Some? {
          NextDigit(d, Numeral(s, p + 1).value.0, i);
        }
      }
    }
  }

  lemma NextDigit(d: nat, v: nat, i: nat)
    ensures Shl(d + 128 * v, 7 * i) == Shl(d, 7 * i) + Shl(v, 7 * (i + 1))
  {
    ShlSum(d, 128 * v, 7 * i);
    Shl7(v);
    ShlShl(v, 7, 7 * i);
  }

  // What the reader makes of any byte string that starts with a full prefix: the numeral
  // on the wire, less what a fifth digit loses, or overflow.
  lemma ReadExactly(s: seq<byte>, n: nat)
    requires 1 <= n <= 8 && s != [] && Low(s[0], n) == MaxPrefix(n)
    ensures match Numeral(s, 1)
      case None => ReadInt(s, n).Err?
      case Some((v, q)) =>
        var lost := LostAt(0, q - 1, s[q - 1]);
        lost <= v &&
        ReadInt(s, n) ==
          if q > 6 || MaxPrefix(n) + v - lost >= U32 then Err(IntegerOverflow)
          else Ok((MaxPrefix(n) + v - lost, q))
  {
    hide ReadMore, Lost;
    ReadNumeral(s, 1, MaxPrefix(n), 0);
    if Numeral(s, 1).Some? {
      assert Shl(Numeral(s, 1).value.0, 0) == Numeral(s, 1).value.0;
    }
  }

  // Whatever is read is the numeral on the wire exactly when there is no fifth digit or it
  // is below 16; so the overflow check does not catch every number of more than 32 bits.
  lemma ReadFaithful(s: seq<byte>, n: nat)
    requires 1 <= n <= 8 && s != [] && Low(s[0], n) == MaxPrefix(n) && ReadInt(s, n).Ok?
    ensures Numeral(s, 1).Some?
    ensures var (v, q) := Numeral(s, 1).value; var (w, end) := ReadInt(s, n).value;
      end == q && (w == MaxPrefix(n) + v <==> q < 6 || s[5] < 16)
  {
    hide ReadInt;
    ReadExactly(s, n);
  }

  // A number of 33 bits read as 127.
  lemma ReadLossExample()
    ensures ReadInt([0x7f, 0x80, 0x80, 0x80, 0x80, 0x10], 7) == Ok((127, 6))
    ensures Numeral([0x7f, 0x80, 0x80, 0x80, 0x80, 0x10], 1) == Some((U32, 6))
  {
    hide ReadInt, Low, Pow2, MaxPrefix;
    var s := [0x7f, 0x80, 0x80, 0x80, 0x80, 0x10];
    FullPrefix7();
    assert Numeral(s, 4) == Some((128 * 0x10, 6));
    assert Numeral(s, 2) == Some((128 * 128 * 128 * 0x10, 6));
    ReadExactly(s, 7);
  }
}
