// The code table of RFC 7541, Appendix B, and the proof that it is a canonical code:
// the codes of each length are consecutive numbers, one per symbol, and together the
// 257 codes fill the code space exactly.
module HuffmanTable {
  import opened Bits

  // Byte values are the symbols 0..255; 256 is the end-of-string symbol.
  type Symbol = s: nat | s <= 256

  const EOS: Symbol := 256

  // A code value, right-justified, and its length in bits.
  datatype Code = Code(value: nat, len: nat)

  // The table is split into sixteen rows of sixteen entries, read by comparing indices:
  // this keeps every lookup cheap to reason about.
  function Entry(s: Symbol): Code {
    if s / 16 == 0 then Row0(s % 16) else if s / 16 == 1 then Row1(s % 16) else if s / 16 == 2 then Row2(s % 16) else
    if s / 16 == 3 then Row3(s % 16) else if s / 16 == 4 then Row4(s % 16) else if s / 16 == 5 then Row5(s % 16) else
    if s / 16 == 6 then Row6(s % 16) else if s / 16 == 7 then Row7(s % 16) else if s / 16 == 8 then Row8(s % 16) else
    if s / 16 == 9 then Row9(s % 16) else if s / 16 == 10 then Row10(s % 16) else if s / 16 == 11 then Row11(s % 16) else
    if s / 16 == 12 then Row12(s % 16) else if s / 16 == 13 then Row13(s % 16) else if s / 16 == 14 then Row14(s % 16) else
    if s / 16 == 15 then Row15(s % 16) else Code(0x3fff_ffff, 30)
  }

  function Row0(i: nat): Code {
    if i == 0 then Code(0x1ff8, 13) else if i == 1 then Code(0x7fffd8, 23) else if i == 2 then Code(0xfffffe2, 28) else
    if i == 3 then Code(0xfffffe3, 28) else if i == 4 then Code(0xfffffe4, 28) else if i == 5 then Code(0xfffffe5, 28) else
    if i == 6 then Code(0xfffffe6, 28) else if i == 7 then Code(0xfffffe7, 28) else if i == 8 then Code(0xfffffe8, 28) else
    if i == 9 then Code(0xffffea, 24) else if i == 10 then Code(0x3ffffffc, 30) else if i == 11 then Code(0xfffffe9, 28) else
    if i == 12 then Code(0xfffffea, 28) else if i == 13 then Code(0x3ffffffd, 30) else if i == 14 then Code(0xfffffeb, 28) else
    Code(0xfffffec, 28)
  }

  function Row1(i: nat): Code {
    if i == 0 then Code(0xfffffed, 28) else if i == 1 then Code(0xfffffee, 28) else if i == 2 then Code(0xfffffef, 28) else
    if i == 3 then Code(0xffffff0, 28) else if i == 4 then Code(0xffffff1, 28) else if i == 5 then Code(0xffffff2, 28) else
    if i == 6 then Code(0x3ffffffe, 30) else if i == 7 then Code(0xffffff3, 28) else if i == 8 then Code(0xffffff4, 28) else
    if i == 9 then Code(0xffffff5, 28) else if i == 10 then Code(0xffffff6, 28) else if i == 11 then Code(0xffffff7, 28) else
    if i == 12 then Code(0xffffff8, 28) else if i == 13 then Code(0xffffff9, 28) else if i == 14 then Code(0xffffffa, 28) else
    Code(0xffffffb, 28)
  }

  function Row2(i: nat): Code {
    if i == 0 then Code(0x14, 6) else if i == 1 then Code(0x3f8, 10) else if i == 2 then Code(0x3f9, 10) else
    if i == 3 then Code(0xffa, 12) else if i == 4 then Code(0x1ff9, 13) else if i == 5 then Code(0x15, 6) else
    if i == 6 then Code(0xf8, 8) else if i == 7 then Code(0x7fa, 11) else if i == 8 then Code(0x3fa, 10) else
    if i == 9 then Code(0x3fb, 10) else if i == 10 then Code(0xf9, 8) else if i == 11 then Code(0x7fb, 11) else
    if i == 12 then Code(0xfa, 8) else if i == 13 then Code(0x16, 6) else if i == 14 then Code(0x17, 6) else
    Code(0x18, 6)
  }

  function Row3(i: nat): Code {
    if i == 0 then Code(0x0, 5) else if i == 1 then Code(0x1, 5) else if i == 2 then Code(0x2, 5) else
    if i == 3 then Code(0x19, 6) else if i == 4 then Code(0x1a, 6) else if i == 5 then Code(0x1b, 6) else
    if i == 6 then Code(0x1c, 6) else if i == 7 then Code(0x1d, 6) else if i == 8 then Code(0x1e, 6) else
    if i == 9 then Code(0x1f, 6) else if i == 10 then Code(0x5c, 7) else if i == 11 then Code(0xfb, 8) else
    if i == 12 then Code(0x7ffc, 15) else if i == 13 then Code(0x20, 6) else if i == 14 then Code(0xffb, 12) else
    Code(0x3fc, 10)
  }

  function Row4(i: nat): Code {
    if i == 0 then Code(0x1ffa, 13) else if i == 1 then Code(0x21, 6) else if i == 2 then Code(0x5d, 7) else
    if i == 3 then Code(0x5e, 7) else if i == 4 then Code(0x5f, 7) else if i == 5 then Code(0x60, 7) else
    if i == 6 then Code(0x61, 7) else if i == 7 then Code(0x62, 7) else if i == 8 then Code(0x63, 7) else
    if i == 9 then Code(0x64, 7) else if i == 10 then Code(0x65, 7) else if i == 11 then Code(0x66, 7) else
    if i == 12 then Code(0x67, 7) else if i == 13 then Code(0x68, 7) else if i == 14 then Code(0x69, 7) else
    Code(0x6a, 7)
  }

  function Row5(i: nat): Code {
    if i == 0 then Code(0x6b, 7) else if i == 1 then Code(0x6c, 7) else if i == 2 then Code(0x6d, 7) else
    if i == 3 then Code(0x6e, 7) else if i == 4 then Code(0x6f, 7) else if i == 5 then Code(0x70, 7) else
    if i == 6 then Code(0x71, 7) else if i == 7 then Code(0x72, 7) else if i == 8 then Code(0xfc, 8) else
    if i == 9 then Code(0x73, 7) else if i == 10 then Code(0xfd, 8) else if i == 11 then Code(0x1ffb, 13) else
    if i == 12 then Code(0x7fff0, 19) else if i == 13 then Code(0x1ffc, 13) else if i == 14 then Code(0x3ffc, 14) else
    Code(0x22, 6)
  }

  function Row6(i: nat): Code {
    if i == 0 then Code(0x7ffd, 15) else if i == 1 then Code(0x3, 5) else if i == 2 then Code(0x23, 6) else
    if i == 3 then Code(0x4, 5) else if i == 4 then Code(0x24, 6) else if i == 5 then Code(0x5, 5) else
    if i == 6 then Code(0x25, 6) else if i == 7 then Code(0x26, 6) else if i == 8 then Code(0x27, 6) else
    if i == 9 then Code(0x6, 5) else if i == 10 then Code(0x74, 7) else if i == 11 then Code(0x75, 7) else
    if i == 12 then Code(0x28, 6) else if i == 13 then Code(0x29, 6) else if i == 14 then Code(0x2a, 6) else
    Code(0x7, 5)
  }

  function Row7(i: nat): Code {
    if i == 0 then Code(0x2b, 6) else if i == 1 then Code(0x76, 7) else if i == 2 then Code(0x2c, 6) else
    if i == 3 then Code(0x8, 5) else if i == 4 then Code(0x9, 5) else if i == 5 then Code(0x2d, 6) else
    if i == 6 then Code(0x77, 7) else if i == 7 then Code(0x78, 7) else if i == 8 then Code(0x79, 7) else
    if i == 9 then Code(0x7a, 7) else if i == 10 then Code(0x7b, 7) else if i == 11 then Code(0x7ffe, 15) else
    if i == 12 then Code(0x7fc, 11) else if i == 13 then Code(0x3ffd, 14) else if i == 14 then Code(0x1ffd, 13) else
    Code(0xffffffc, 28)
  }

  function Row8(i: nat): Code {
    if i == 0 then Code(0xfffe6, 20) else if i == 1 then Code(0x3fffd2, 22) else if i == 2 then Code(0xfffe7, 20) else
    if i == 3 then Code(0xfffe8, 20) else if i == 4 then Code(0x3fffd3, 22) else if i == 5 then Code(0x3fffd4, 22) else
    if i == 6 then Code(0x3fffd5, 22) else if i == 7 then Code(0x7fffd9, 23) else if i == 8 then Code(0x3fffd6, 22) else
    if i == 9 then Code(0x7fffda, 23) else if i == 10 then Code(0x7fffdb, 23) else if i == 11 then Code(0x7fffdc, 23) else
    if i == 12 then Code(0x7fffdd, 23) else if i == 13 then Code(0x7fffde, 23) else if i == 14 then Code(0xffffeb, 24) else
    Code(0x7fffdf, 23)
  }

  function Row9(i: nat): Code {
    if i == 0 then Code(0xffffec, 24) else if i == 1 then Code(0xffffed, 24) else if i == 2 then Code(0x3fffd7, 22) else
    if i == 3 then Code(0x7fffe0, 23) else if i == 4 then Code(0xffffee, 24) else if i == 5 then Code(0x7fffe1, 23) else
    if i == 6 then Code(0x7fffe2, 23) else if i == 7 then Code(0x7fffe3, 23) else if i == 8 then Code(0x7fffe4, 23) else
    if i == 9 then Code(0x1fffdc, 21) else if i == 10 then Code(0x3fffd8, 22) else if i == 11 then Code(0x7fffe5, 23) else
    if i == 12 then Code(0x3fffd9, 22) else if i == 13 then Code(0x7fffe6, 23) else if i == 14 then Code(0x7fffe7, 23) else
    Code(0xffffef, 24)
  }

  function Row10(i: nat): Code {
    if i == 0 then Code(0x3fffda, 22) else if i == 1 then Code(0x1fffdd, 21) else if i == 2 then Code(0xfffe9, 20) else
    if i == 3 then Code(0x3fffdb, 22) else if i == 4 then Code(0x3fffdc, 22) else if i == 5 then Code(0x7fffe8, 23) else
    if i == 6 then Code(0x7fffe9, 23) else if i == 7 then Code(0x1fffde, 21) else if i == 8 then Code(0x7fffea, 23) else
    if i == 9 then Code(0x3fffdd, 22) else if i == 10 then Code(0x3fffde, 22) else if i == 11 then Code(0xfffff0, 24) else
    if i == 12 then Code(0x1fffdf, 21) else if i == 13 then Code(0x3fffdf, 22) else if i == 14 then Code(0x7fffeb, 23) else
    Code(0x7fffec, 23)
  }

  function Row11(i: nat): Code {
    if i == 0 then Code(0x1fffe0, 21) else if i == 1 then Code(0x1fffe1, 21) else if i == 2 then Code(0x3fffe0, 22) else
    if i == 3 then Code(0x1fffe2, 21) else if i == 4 then Code(0x7fffed, 23) else if i == 5 then Code(0x3fffe1, 22) else
    if i == 6 then Code(0x7fffee, 23) else if i == 7 then Code(0x7fffef, 23) else if i == 8 then Code(0xfffea, 20) else
    if i == 9 then Code(0x3fffe2, 22) else if i == 10 then Code(0x3fffe3, 22) else if i == 11 then Code(0x3fffe4, 22) else
    if i == 12 then Code(0x7ffff0, 23) else if i == 13 then Code(0x3fffe5, 22) else if i == 14 then Code(0x3fffe6, 22) else
    Code(0x7ffff1, 23)
  }

  function Row12(i: nat): Code {
    if i == 0 then Code(0x3ffffe0, 26) else if i == 1 then Code(0x3ffffe1, 26) else if i == 2 then Code(0xfffeb, 20) else
    if i == 3 then Code(0x7fff1, 19) else if i == 4 then Code(0x3fffe7, 22) else if i == 5 then Code(0x7ffff2, 23) else
    if i == 6 then Code(0x3fffe8, 22) else if i == 7 then Code(0x1ffffec, 25) else if i == 8 then Code(0x3ffffe2, 26) else
    if i == 9 then Code(0x3ffffe3, 26) else if i == 10 then Code(0x3ffffe4, 26) else if i == 11 then Code(0x7ffffde, 27) else
    if i == 12 then Code(0x7ffffdf, 27) else if i == 13 then Code(0x3ffffe5, 26) else if i == 14 then Code(0xfffff1, 24) else
    Code(0x1ffffed, 25)
  }

  function Row13(i: nat): Code {
    if i == 0 then Code(0x7fff2, 19) else if i == 1 then Code(0x1fffe3, 21) else if i == 2 then Code(0x3ffffe6, 26) else
    if i == 3 then Code(0x7ffffe0, 27) else if i == 4 then Code(0x7ffffe1, 27) else if i == 5 then Code(0x3ffffe7, 26) else
    if i == 6 then Code(0x7ffffe2, 27) else if i == 7 then Code(0xfffff2, 24) else if i == 8 then Code(0x1fffe4, 21) else
    if i == 9 then Code(0x1fffe5, 21) else if i == 10 then Code(0x3ffffe8, 26) else if i == 11 then Code(0x3ffffe9, 26) else
    if i == 12 then Code(0xffffffd, 28) else if i == 13 then Code(0x7ffffe3, 27) else if i == 14 then Code(0x7ffffe4, 27) else
    Code(0x7ffffe5, 27)
  }

  function Row14(i: nat): Code {
    if i == 0 then Code(0xfffec, 20) else if i == 1 then Code(0xfffff3, 24) else if i == 2 then Code(0xfffed, 20) else
    if i == 3 then Code(0x1fffe6, 21) else if i == 4 then Code(0x3fffe9, 22) else if i == 5 then Code(0x1fffe7, 21) else
    if i == 6 then Code(0x1fffe8, 21) else if i == 7 then Code(0x7ffff3, 23) else if i == 8 then Code(0x3fffea, 22) else
    if i == 9 then Code(0x3fffeb, 22) else if i == 10 then Code(0x1ffffee, 25) else if i == 11 then Code(0x1ffffef, 25) else
    if i == 12 then Code(0xfffff4, 24) else if i == 13 then Code(0xfffff5, 24) else if i == 14 then Code(0x3ffffea, 26) else
    Code(0x7ffff4, 23)
  }

  function Row15(i: nat): Code {
    if i == 0 then Code(0x3ffffeb, 26) else if i == 1 then Code(0x7ffffe6, 27) else if i == 2 then Code(0x3ffffec, 26) else
    if i == 3 then Code(0x3ffffed, 26) else if i == 4 then Code(0x7ffffe7, 27) else if i == 5 then Code(0x7ffffe8, 27) else
    if i == 6 then Code(0x7ffffe9, 27) else if i == 7 then Code(0x7ffffea, 27) else if i == 8 then Code(0x7ffffeb, 27) else
    if i == 9 then Code(0xffffffe, 28) else if i == 10 then Code(0x7ffffec, 27) else if i == 11 then Code(0x7ffffed, 27) else
    if i == 12 then Code(0x7ffffee, 27) else if i == 13 then Code(0x7ffffef, 27) else if i == 14 then Code(0x7fffff0, 27) else
    Code(0x3ffffee, 26)
  }

  // ---- the canonical order ----

  // How many codes have length l.
  function Count(l: nat): nat {
    if l == 5 then 10 else if l == 6 then 26 else if l == 7 then 32 else if l == 8 then 6 else
    if l == 10 then 5 else if l == 11 then 3 else if l == 12 then 2 else if l == 13 then 6 else
    if l == 14 then 2 else if l == 15 then 3 else if l == 19 then 3 else if l == 20 then 8 else
    if l == 21 then 13 else if l == 22 then 26 else if l == 23 then 29 else if l == 24 then 12 else
    if l == 25 then 4 else if l == 26 then 15 else if l == 27 then 19 else if l == 28 then 29 else
    if l == 30 then 4 else 0
  }

  // The smallest code value of length l (FirstStep says how it arises).
  function First(l: nat): nat {
    if l == 6 then 0x14 else if l == 7 then 0x5c else if l == 8 then 0xf8 else if l == 9 then 0x1fc else
    if l == 10 then 0x3f8 else if l == 11 then 0x7fa else if l == 12 then 0xffa else if l == 13 then 0x1ff8 else
    if l == 14 then 0x3ffc else if l == 15 then 0x7ffc else if l == 16 then 0xfffe else if l == 17 then 0x1fffc else
    if l == 18 then 0x3fff8 else if l == 19 then 0x7fff0 else if l == 20 then 0xfffe6 else if l == 21 then 0x1fffdc else
    if l == 22 then 0x3fffd2 else if l == 23 then 0x7fffd8 else if l == 24 then 0xffffea else if l == 25 then 0x1ffffec else
    if l == 26 then 0x3ffffe0 else if l == 27 then 0x7ffffde else if l == 28 then 0xfffffe2 else if l == 29 then 0x1ffffffe else
    if l == 30 then 0x3ffffffc else 0
  }

  // The symbol of the i-th code of length l.
  function Ranked(l: nat, i: nat): Symbol {
    if l == 5 then Ranked5(i) else if l == 6 then Ranked6(i) else if l == 7 then Ranked7(i) else
    if l == 8 then Ranked8(i) else if l == 10 then Ranked10(i) else if l == 11 then Ranked11(i) else
    if l == 12 then Ranked12(i) else if l == 13 then Ranked13(i) else if l == 14 then Ranked14(i) else
    if l == 15 then Ranked15(i) else if l == 19 then Ranked19(i) else if l == 20 then Ranked20(i) else
    if l == 21 then Ranked21(i) else if l == 22 then Ranked22(i) else if l == 23 then Ranked23(i) else
    if l == 24 then Ranked24(i) else if l == 25 then Ranked25(i) else if l == 26 then Ranked26(i) else
    if l == 27 then Ranked27(i) else if l == 28 then Ranked28(i) else if l == 30 then Ranked30(i) else
    0
  }

  function Ranked5(i: nat): Symbol {
    if i == 0 then 48 else if i == 1 then 49 else if i == 2 then 50 else if i == 3 then 97 else if i == 4 then 99 else
    if i == 5 then 101 else if i == 6 then 105 else if i == 7 then 111 else if i == 8 then 115 else 116
  }

  function Ranked6(i: nat): Symbol {
    if i == 0 then 32 else if i == 1 then 37 else if i == 2 then 45 else if i == 3 then 46 else if i == 4 then 47 else
    if i == 5 then 51 else if i == 6 then 52 else if i == 7 then 53 else if i == 8 then 54 else if i == 9 then 55 else
    if i == 10 then 56 else if i == 11 then 57 else if i == 12 then 61 else if i == 13 then 65 else if i == 14 then 95 else
    if i == 15 then 98 else if i == 16 then 100 else if i == 17 then 102 else if i == 18 then 103 else if i == 19 then 104 else
    if i == 20 then 108 else if i == 21 then 109 else if i == 22 then 110 else if i == 23 then 112 else if i == 24 then 114 else
    117
  }

  function Ranked7(i: nat): Symbol {
    if i == 0 then 58 else if i == 1 then 66 else if i == 2 then 67 else if i == 3 then 68 else if i == 4 then 69 else
    if i == 5 then 70 else if i == 6 then 71 else if i == 7 then 72 else if i == 8 then 73 else if i == 9 then 74 else
    if i == 10 then 75 else if i == 11 then 76 else if i == 12 then 77 else if i == 13 then 78 else if i == 14 then 79 else
    if i == 15 then 80 else if i == 16 then 81 else if i == 17 then 82 else if i == 18 then 83 else if i == 19 then 84 else
    if i == 20 then 85 else if i == 21 then 86 else if i == 22 then 87 else if i == 23 then 89 else if i == 24 then 106 else
    if i == 25 then 107 else if i == 26 then 113 else if i == 27 then 118 else if i == 28 then 119 else if i == 29 then 120 else
    if i == 30 then 121 else 122
  }

  function Ranked8(i: nat): Symbol {
    if i == 0 then 38 else if i == 1 then 42 else if i == 2 then 44 else if i == 3 then 59 else if i == 4 then 88 else
    90
  }

  function Ranked10(i: nat): Symbol {
    if i == 0 then 33 else if i == 1 then 34 else if i == 2 then 40 else if i == 3 then 41 else 63
  }

  function Ranked11(i: nat): Symbol {
    if i == 0 then 39 else if i == 1 then 43 else 124
  }

  function Ranked12(i: nat): Symbol {
    if i == 0 then 35 else 62
  }

  function Ranked13(i: nat): Symbol {
    if i == 0 then 0 else if i == 1 then 36 else if i == 2 then 64 else if i == 3 then 91 else if i == 4 then 93 else
    126
  }

  function Ranked14(i: nat): Symbol {
    if i == 0 then 94 else 125
  }

  function Ranked15(i: nat): Symbol {
    if i == 0 then 60 else if i == 1 then 96 else 123
  }

  function Ranked19(i: nat): Symbol {
    if i == 0 then 92 else if i == 1 then 195 else 208
  }

  function Ranked20(i: nat): Symbol {
    if i == 0 then 128 else if i == 1 then 130 else if i == 2 then 131 else if i == 3 then 162 else if i == 4 then 184 else
    if i == 5 then 194 else if i == 6 then 224 else 226
  }

  function Ranked21(i: nat): Symbol {
    if i == 0 then 153 else if i == 1 then 161 else if i == 2 then 167 else if i == 3 then 172 else if i == 4 then 176 else
    if i == 5 then 177 else if i == 6 then 179 else if i == 7 then 209 else if i == 8 then 216 else if i == 9 then 217 else
    if i == 10 then 227 else if i == 11 then 229 else 230
  }

  function Ranked22(i: nat): Symbol {
    if i == 0 then 129 else if i == 1 then 132 else if i == 2 then 133 else if i == 3 then 134 else if i == 4 then 136 else
    if i == 5 then 146 else if i == 6 then 154 else if i == 7 then 156 else if i == 8 then 160 else if i == 9 then 163 else
    if i == 10 then 164 else if i == 11 then 169 else if i == 12 then 170 else if i == 13 then 173 else if i == 14 then 178 else
    if i == 15 then 181 else if i == 16 then 185 else if i == 17 then 186 else if i == 18 then 187 else if i == 19 then 189 else
    if i == 20 then 190 else if i == 21 then 196 else if i == 22 then 198 else if i == 23 then 228 else if i == 24 then 232 else
    233
  }

  function Ranked23(i: nat): Symbol {
    if i == 0 then 1 else if i == 1 then 135 else if i == 2 then 137 else if i == 3 then 138 else if i == 4 then 139 else
    if i == 5 then 140 else if i == 6 then 141 else if i == 7 then 143 else if i == 8 then 147 else if i == 9 then 149 else
    if i == 10 then 150 else if i == 11 then 151 else if i == 12 then 152 else if i == 13 then 155 else if i == 14 then 157 else
    if i == 15 then 158 else if i == 16 then 165 else if i == 17 then 166 else if i == 18 then 168 else if i == 19 then 174 else
    if i == 20 then 175 else if i == 21 then 180 else if i == 22 then 182 else if i == 23 then 183 else if i == 24 then 188 else
    if i == 25 then 191 else if i == 26 then 197 else if i == 27 then 231 else 239
  }

  function Ranked24(i: nat): Symbol {
    if i == 0 then 9 else if i == 1 then 142 else if i == 2 then 144 else if i == 3 then 145 else if i == 4 then 148 else
    if i == 5 then 159 else if i == 6 then 171 else if i == 7 then 206 else if i == 8 then 215 else if i == 9 then 225 else
    if i == 10 then 236 else 237
  }

  function Ranked25(i: nat): Symbol {
    if i == 0 then 199 else if i == 1 then 207 else if i == 2 then 234 else 235
  }

  function Ranked26(i: nat): Symbol {
    if i == 0 then 192 else if i == 1 then 193 else if i == 2 then 200 else if i == 3 then 201 else if i == 4 then 202 else
    if i == 5 then 205 else if i == 6 then 210 else if i == 7 then 213 else if i == 8 then 218 else if i == 9 then 219 else
    if i == 10 then 238 else if i == 11 then 240 else if i == 12 then 242 else if i == 13 then 243 else 255
  }

  function Ranked27(i: nat): Symbol {
    if i == 0 then 203 else if i == 1 then 204 else if i == 2 then 211 else if i == 3 then 212 else if i == 4 then 214 else
    if i == 5 then 221 else if i == 6 then 222 else if i == 7 then 223 else if i == 8 then 241 else if i == 9 then 244 else
    if i == 10 then 245 else if i == 11 then 246 else if i == 12 then 247 else if i == 13 then 248 else if i == 14 then 250 else
    if i == 15 then 251 else if i == 16 then 252 else if i == 17 then 253 else 254
  }

  function Ranked28(i: nat): Symbol {
    if i == 0 then 2 else if i == 1 then 3 else if i == 2 then 4 else if i == 3 then 5 else if i == 4 then 6 else
    if i == 5 then 7 else if i == 6 then 8 else if i == 7 then 11 else if i == 8 then 12 else if i == 9 then 14 else
    if i == 10 then 15 else if i == 11 then 16 else if i == 12 then 17 else if i == 13 then 18 else if i == 14 then 19 else
    if i == 15 then 20 else if i == 16 then 21 else if i == 17 then 23 else if i == 18 then 24 else if i == 19 then 25 else
    if i == 20 then 26 else if i == 21 then 27 else if i == 22 then 28 else if i == 23 then 29 else if i == 24 then 30 else
    if i == 25 then 31 else if i == 26 then 127 else if i == 27 then 220 else 249
  }

  function Ranked30(i: nat): Symbol {
    if i == 0 then 10 else if i == 1 then 13 else if i == 2 then 22 else 256
  }

  // The first code of each length is one past the codes one bit shorter, made one bit longer;
  // the last code, of length 30, is all ones.
  lemma FirstStep(l: nat)
    requires l < 30
    ensures First(l + 1) == 2 * (First(l) + Count(l))
    ensures First(30) + Count(30) == 0x4000_0000
  {
  }

  // Each ranked symbol has the code its rank says. The eleven lemmas share out the lengths.
  lemma RankedEntry5(l: nat, i: nat)
    requires 5 <= l <= 6 && i < Count(l)
    ensures Entry(Ranked(l, i)) == Code(First(l) + i, l)
  {
  }

  lemma RankedEntry7(l: nat, i: nat)
    requires 7 <= l <= 8 && i < Count(l)
    ensures Entry(Ranked(l, i)) == Code(First(l) + i, l)
  {
  }

  lemma RankedEntry10(l: nat, i: nat)
    requires 10 <= l <= 12 && i < Count(l)
    ensures Entry(Ranked(l, i)) == Code(First(l) + i, l)
  {
  }

  lemma RankedEntry13(l: nat, i: nat)
    requires 13 <= l <= 15 && i < Count(l)
    ensures Entry(Ranked(l, i)) == Code(First(l) + i, l)
  {
  }

  lemma RankedEntry19(l: nat, i: nat)
    requires 19 <= l <= 21 && i < Count(l)
    ensures Entry(Ranked(l, i)) == Code(First(l) + i, l)
  {
  }

  lemma RankedEntry22(l: nat, i: nat)
    requires 22 <= l <= 22 && i < Count(l)
    ensures Entry(Ranked(l, i)) == Code(First(l) + i, l)
  {
  }

  lemma RankedEntry23(l: nat, i: nat)
    requires 23 <= l <= 23 && i < Count(l)
    ensures Entry(Ranked(l, i)) == Code(First(l) + i, l)
  {
  }

  lemma RankedEntry24(l: nat, i: nat)
    requires 24 <= l <= 25 && i < Count(l)
    ensures Entry(Ranked(l, i)) == Code(First(l) + i, l)
  {
  }

  lemma RankedEntry26(l: nat, i: nat)
    requires 26 <= l <= 26 && i < Count(l)
    ensures Entry(Ranked(l, i)) == Code(First(l) + i, l)
  {
  }

  lemma RankedEntry27(l: nat, i: nat)
    requires 27 <= l <= 27 && i < Count(l)
    ensures Entry(Ranked(l, i)) == Code(First(l) + i, l)
  {
  }

  lemma RankedEntry28(l: nat, i: nat)
    requires 28 <= l <= 30 && i < Count(l)
    ensures Entry(Ranked(l, i)) == Code(First(l) + i, l)
  {
  }

  lemma RankedEntry(l: nat, i: nat)
    requires i < Count(l)
    ensures Entry(Ranked(l, i)) == Code(First(l) + i, l)
  {
    if l <= 6 {
      RankedEntry5(l, i);
    } else if l <= 8 {
      RankedEntry7(l, i);
    } else if l <= 12 {
      RankedEntry10(l, i);
    } else if l <= 15 {
      RankedEntry13(l, i);
    } else if l <= 21 {
      RankedEntry19(l, i);
    } else if l <= 22 {
      RankedEntry22(l, i);
    } else if l <= 23 {
      RankedEntry23(l, i);
    } else if l <= 25 {
      RankedEntry24(l, i);
    } else if l <= 26 {
      RankedEntry26(l, i);
    } else if l <= 27 {
      RankedEntry27(l, i);
    } else {
      RankedEntry28(l, i);
    }
  }

}
