// Bits, bytes and shifts: most significant bit first, as they travel on the wire.
module Bits {

  type byte = x: int | 0 <= x < 256

  function Pow2(n: nat): (r: nat)
    ensures r > 0
  {
    if n == 0 then 1 else 2 * Pow2(n - 1)
  }

  // v << n on unbounded integers.
  function Shl(v: nat, n: nat): nat {
    if n == 0 then v else 2 * Shl(v, n - 1)
  }

  // v >> n.
  function Shr(v: nat, n: nat): nat {
    if n == 0 then v else Shr(v / 2, n - 1)
  }

  // v & (2^n - 1), the n low-order bits of v as a number.
  function Low(v: nat, n: nat): nat {
    if n == 0 then 0 else 2 * Low(v / 2, n - 1) + v % 2
  }

  // Bitwise or.
  function Or(v: nat, w: nat): nat {
    if v == 0 && w == 0 then 0 else 2 * Or(v / 2, w / 2) + (if v % 2 == 1 || w % 2 == 1 then 1 else 0)
  }

  // The n low-order bits of v as a bit string.
  function BitsOf(v: nat, n: nat): (b: seq<bool>)
    ensures |b| == n
  {
    if n == 0 then [] else BitsOf(v / 2, n - 1) + [v % 2 == 1]
  }

  // The value of a bit string read as a binary numeral.
  function Val(b: seq<bool>): nat {
    if b == [] then 0 else 2 * Val(b[..|b| - 1]) + (if b[|b| - 1] then 1 else 0)
  }

  function Ones(n: nat): (b: seq<bool>)
    ensures |b| == n
  {
    seq(n, _ => true)
  }

  ghost predicate AllOnes(b: seq<bool>) {
    forall i :: 0 <= i < |b| ==> b[i]
  }

  // The bits of a byte string.
  function ByteBits(s: seq<byte>): (b: seq<bool>)
    ensures |b| == 8 * |s|
  {
    if s == [] then [] else ByteBits(s[..|s| - 1]) + BitsOf(s[|s| - 1], 8)
  }

  // The byte string with the given bits, the inverse of ByteBits.
  function Pack(b: seq<bool>): (s: seq<byte>)
    requires |b| % 8 == 0
    ensures |s| == |b| / 8
    decreases |b|
  {
    if b == [] then [] else
      ByteValue(b[|b| - 8..]);
      Pack(b[..|b| - 8]) + [Val(b[|b| - 8..])]
  }

  // ---- numerals ----

  lemma {:induction false} ValBound(b: seq<bool>)
    ensures Val(b) < Pow2(|b|)
  {
    if b != [] {
      ValBound(b[..|b| - 1]);
    }
  }

  lemma {:induction false} BitsOfVal(b: seq<bool>)
    ensures BitsOf(Val(b), |b|) == b
  {
    if b != [] {
      BitsOfVal(b[..|b| - 1]);
      assert b == b[..|b| - 1] + [b[|b| - 1]];
    }
  }

  lemma {:induction false} ValBitsOf(v: nat, n: nat)
    requires v < Pow2(n)
    ensures Val(BitsOf(v, n)) == v
  {
    if n != 0 {
      ValBitsOf(v / 2, n - 1);
      var b := BitsOf(v, n);
      assert b[..n - 1] == BitsOf(v / 2, n - 1);
    }
  }

  // A numeral of m + n bits is its high part followed by its n low-order bits.
  lemma {:induction false} BitsOfSplit(v: nat, m: nat, n: nat)
    ensures BitsOf(v, m + n) == BitsOf(Shr(v, n), m) + BitsOf(v, n)
  {
    if n != 0 {
      BitsOfSplit(v / 2, m, n - 1);
      assert BitsOf(v, m + n) == BitsOf(v / 2, m + (n - 1)) + [v % 2 == 1];
    } else {
      assert BitsOf(v, m) + [] == BitsOf(v, m);
    }
  }

  // Shifting left by n and adding n new low-order bits appends them to the numeral.
  lemma {:induction false} BitsOfShl(v: nat, c: nat, m: nat, n: nat)
    requires c < Pow2(n)
    ensures BitsOf(Shl(v, n) + c, m + n) == BitsOf(v, m) + BitsOf(c, n)
  {
    if n != 0 {
      var w := Shl(v, n) + c;
      assert w / 2 == Shl(v, n - 1) + c / 2 && w % 2 == c % 2;
      BitsOfShl(v, c / 2, m, n - 1);
      assert BitsOf(w, m + n) == BitsOf(w / 2, m + (n - 1)) + [w % 2 == 1];
    } else {
      assert BitsOf(v, m) + [] == BitsOf(v, m);
    }
  }

  // Dropping high-order bits leaves the low-order ones alone.
  lemma {:induction false} BitsOfLow(v: nat, m: nat, n: nat)
    requires n <= m
    ensures BitsOf(Low(v, m), n) == BitsOf(v, n)
  {
    if n != 0 {
      BitsOfLow(v / 2, m - 1, n - 1);
      assert Low(v, m) / 2 == Low(v / 2, m - 1);
    }
  }

  // Where no bit is set in both operands, bitwise or is addition.
  lemma {:induction false} OrShl(v: nat, c: nat, n: nat)
    requires c < Pow2(n)
    ensures Or(Shl(v, n), c) == Shl(v, n) + c
  {
    if n == 0 {
      OrZero(v);
    } else {
      assert Shl(v, n) / 2 == Shl(v, n - 1) && Shl(v, n) % 2 == 0;
      OrShl(v, c / 2, n - 1);
    }
  }

  lemma {:induction false} OrZero(v: nat)
    ensures Or(v, 0) == v && Or(0, v) == v
  {
    if v != 0 {
      OrZero(v / 2);
    }
  }

  lemma {:induction false} ShrBound(v: nat, m: nat, n: nat)
    requires v < Pow2(m + n)
    ensures Shr(v, n) < Pow2(m)
  {
    if n != 0 {
      ShrBound(v / 2, m, n - 1);
    }
  }

  lemma {:induction false} ShrStep(v: nat, n: nat)
    ensures Shr(v, n + 1) == Shr(v, n) / 2
  {
    if n != 0 {
      ShrStep(v / 2, n - 1);
    }
  }

  lemma {:induction false} LowBound(v: nat, n: nat)
    ensures Low(v, n) < Pow2(n)
  {
    if n != 0 {
      LowBound(v / 2, n - 1);
    }
  }

  lemma {:induction false} LowSmall(v: nat, n: nat)
    requires v < Pow2(n)
    ensures Low(v, n) == v
  {
    if n != 0 {
      LowSmall(v / 2, n - 1);
    }
  }

  // A number is its high part, shifted back, plus its low part.
  lemma {:induction false} ShrShl(v: nat, n: nat)
    ensures v == Shl(Shr(v, n), n) + Low(v, n)
  {
    if n != 0 {
      ShrShl(v / 2, n - 1);
    }
  }

  // Cutting a shifted number is shifting a cut one.
  lemma {:induction false} LowShl(v: nat, m: nat, n: nat)
    requires n <= m
    ensures Low(Shl(v, n), m) == Shl(Low(v, m - n), n)
  {
    if n != 0 {
      LowShl(v, m - 1, n - 1);
      assert Shl(v, n) / 2 == Shl(v, n - 1) && Shl(v, n) % 2 == 0;
    }
  }

  lemma {:induction false} LowSum(v: nat, c: nat, n: nat)
    requires c < Pow2(n)
    ensures Low(Shl(v, n) + c, n) == c
  {
    if n != 0 {
      assert (Shl(v, n) + c) / 2 == Shl(v, n - 1) + c / 2;
      LowSum(v, c / 2, n - 1);
    }
  }

  lemma {:induction false} ShlSum(v: nat, w: nat, n: nat)
    ensures Shl(v + w, n) == Shl(v, n) + Shl(w, n)
  {
    if n != 0 {
      ShlSum(v, w, n - 1);
    }
  }

  lemma {:induction false} ShlShl(v: nat, m: nat, n: nat)
    ensures Shl(Shl(v, m), n) == Shl(v, m + n)
  {
    if n != 0 {
      ShlShl(v, m, n - 1);
    }
  }

  lemma {:induction false} ShlBound(v: nat, n: nat)
    ensures v <= Shl(v, n) && (v > 0 ==> Pow2(n) <= Shl(v, n))
  {
    if n != 0 {
      ShlBound(v, n - 1);
    }
  }

  lemma {:induction false} Pow2Mono(m: nat, n: nat)
    requires m <= n
    ensures Pow2(m) <= Pow2(n)
  {
    if m < n {
      Pow2Mono(m, n - 1);
    }
  }

  // The i-th bit of a numeral, by shifting.
  lemma {:induction false} BitsOfAt(v: nat, n: nat, i: nat)
    requires i < n
    ensures BitsOf(v, n)[i] == (Shr(v, n - 1 - i) % 2 == 1)
  {
    if i < n - 1 {
      BitsOfAt(v / 2, n - 1, i);
    }
  }

  lemma {:induction false} BitsOfOnes(n: nat)
    ensures BitsOf(Pow2(n) - 1, n) == Ones(n)
  {
    if n != 0 {
      BitsOfOnes(n - 1);
      assert (Pow2(n) - 1) / 2 == Pow2(n - 1) - 1;
      assert Ones(n) == Ones(n - 1) + [true];
    }
  }

  // ---- byte strings ----

  // Eight bits make a byte.
  lemma ByteValue(b: seq<bool>)
    requires |b| == 8
    ensures Val(b) < 256 && BitsOf(Val(b), 8) == b
  {
    ValBound(b);
    BitsOfVal(b);
    assert Pow2(8) == 256;
  }

  lemma ByteInjective(v: byte, w: byte)
    requires BitsOf(v, 8) == BitsOf(w, 8)
    ensures v == w
  {
    assert Pow2(8) == 256;
    ValBitsOf(v, 8);
    ValBitsOf(w, 8);
  }

  lemma {:induction false} ByteBitsPack(b: seq<bool>)
    requires |b| % 8 == 0
    ensures ByteBits(Pack(b)) == b
    decreases |b|
  {
    if b != [] {
      var init, last := b[..|b| - 8], b[|b| - 8..];
      hide BitsOf, Val, ByteBits;
      ByteBitsPack(init);
      ByteValue(last);
      ByteBitsSnoc(Pack(init), Val(last));
      assert b == init + last;
    }
  }

  lemma ByteBitsSnoc(s: seq<byte>, v: byte)
    ensures ByteBits(s + [v]) == ByteBits(s) + BitsOf(v, 8)
  {
    assert (s + [v])[..|s + [v]| - 1] == s;
  }

  // A byte string is determined by its bits.
  lemma {:induction false} ByteBitsInjective(s: seq<byte>, t: seq<byte>)
    requires ByteBits(s) == ByteBits(t)
    ensures s == t
  {
    if s != [] {
      var init, last := s[..|s| - 1], s[|s| - 1];
      var init', last' := t[..|t| - 1], t[|t| - 1];
      assert ByteBits(init) == ByteBits(s)[..8 * |init|] == ByteBits(init');
      ByteBitsInjective(init, init');
      assert BitsOf(last, 8) == ByteBits(s)[8 * |init|..] == BitsOf(last', 8);
      ByteInjective(last, last');
      assert s == init + [last] && t == init' + [last'];
    }
  }

  // Bit c of byte i of a byte string.
  lemma {:induction false} ByteBitsAt(s: seq<byte>, i: nat, c: nat)
    requires i < |s| && c < 8
    ensures ByteBits(s)[8 * i + c] == (Shr(s[i], 7 - c) % 2 == 1)
  {
    if i == |s| - 1 {
      BitsOfAt(s[i], 8, c);
    } else {
      ByteBitsAt(s[..|s| - 1], i, c);
    }
  }
}
