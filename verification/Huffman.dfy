// Huffman encoding through a 64-bit shift buffer, and decoding by walking the tree.
module Huffman {
  import opened Wrappers
  import opened Bits
  import opened HuffmanTable
  import opened HuffmanCode
  import opened HuffmanTree

  datatype HuffmanError = EosInStream | BadPadding

  // The input contains the code of EOS where a code was due.
  ghost predicate HasEos(x: seq<byte>) {
    exists s: seq<byte>, rest: seq<bool> :: EosAfter(x, s, rest)
  }

  ghost predicate EosAfter(x: seq<byte>, s: seq<byte>, rest: seq<bool>) {
    ByteBits(x) == Codes(s) + CodeBits(EOS) + rest
  }

  // What x decodes to, told by the encoder alone.
  ghost function Decoding(x: seq<byte>): Result<seq<byte>, HuffmanError> {
    if s: seq<byte> :| Encoding(s) == x then Ok(s)
    else if HasEos(x) then Err(EosInStream)
    else Err(BadPadding)
  }

  // Decoding inverts encoding, in both directions.
  lemma DecodingInvertsEncoding(x: seq<byte>, s: seq<byte>)
    ensures Decoding(x) == Ok(s) <==> Encoding(s) == x
  {
    hide Encoding;
    if Encoding(s) == x {
      var t: seq<byte> :| Encoding(t) == x && Decoding(x) == Ok(t);
      EncodingInjective(s, t);
    }
  }

  // No encoding contains the code of EOS.
  lemma EncodingHasNoEos(s: seq<byte>)
    ensures !HasEos(Encoding(s))
  {
    hide Codes, CodeBits, Encoding;
    if t: seq<byte>, rest: seq<bool> :| EosAfter(Encoding(s), t, rest) {
      EncodingBits(s);
      var p := Ones(PadLen(|Codes(s)|));
      PaddingInsideEOS(|p|);
      CodesSnoc(t, EOS);
      ParseUnique(t + [EOS], rest, s, p, EOS);
      assert s[|t|] == (t + [EOS])[|t|] == EOS;
    }
  }

  // ---- encoding ----

  // x << n on 64-bit words: bits shifted out are lost.
  function Shl64(x: nat, n: nat): nat {
    Low(Shl(x, n), 64)
  }

  // The pending bits survive a shift that appends a code, as long as they fit the word.
  lemma AppendCode(buf: nat, pending: nat, code: nat, len: nat)
    requires code < Pow2(len) && pending + len <= 64
    ensures BitsOf(Or(Shl64(buf, len), code), pending + len) == BitsOf(buf, pending) + BitsOf(code, len)
  {
    LowShl(buf, 64, len);
    OrShl(Low(buf, 64 - len), code, len);
    BitsOfShl(Low(buf, 64 - len), code, pending, len);
    BitsOfLow(buf, 64 - len, pending);
  }

  // The byte above the n pending bits.
  lemma TakeByte(buf: nat, n: nat)
    ensures Low(Shr(buf, n), 8) < 256
    ensures BitsOf(buf, 8 + n) == BitsOf(Low(Shr(buf, n), 8), 8) + BitsOf(buf, n)
  {
    BitsOfSplit(buf, 8, n);
    BitsOfLow(Shr(buf, n), 8, 8);
    LowBound(Shr(buf, n), 8);
    assert Pow2(8) == 256;
  }

  method Encode(input: seq<byte>) returns (out: seq<byte>)
    ensures out == Encoding(input)
  {
    hide Entry, Low, Shr, Shl, Or, BitsOf, Encoding, Codes;
    out := [];
    var bitBuf: nat := 0;
    var bitsInBuf := 0;
    EmptyCodes(bitBuf);
    for i := 0 to |input|
      invariant 0 <= bitsInBuf < 8
      invariant ByteBits(out) + BitsOf(bitBuf, bitsInBuf) == Codes(input[..i])
    {
      var b := input[i];
      var codeLen := Entry(b).len;
      EntryFits(b);
      ghost var pending := BitsOf(bitBuf, bitsInBuf);
      AppendCode(bitBuf, bitsInBuf, Entry(b).value, codeLen);
      bitBuf := Or(Shl64(bitBuf, codeLen), Entry(b).value);
      bitsInBuf := bitsInBuf + codeLen;
      NextCode(input, i, ByteBits(out), pending, BitsOf(bitBuf, bitsInBuf));
      while bitsInBuf >= 8
        invariant 0 <= bitsInBuf
        invariant ByteBits(out) + BitsOf(bitBuf, bitsInBuf) == Codes(input[..i + 1])
      {
        bitsInBuf := bitsInBuf - 8;
        TakeByte(bitBuf, bitsInBuf);
        var v := Low(Shr(bitBuf, bitsInBuf), 8);
        ByteBitsSnoc(out, v);
        assert ByteBits(out) + (BitsOf(v, 8) + BitsOf(bitBuf, bitsInBuf))
            == ByteBits(out) + BitsOf(v, 8) + BitsOf(bitBuf, bitsInBuf);
        out := out + [v];
      }
    }
    assert input[..|input|] == input;
    ghost var k := 0;
    ghost var rest := BitsOf(bitBuf, bitsInBuf);
    if bitsInBuf > 0 {
      var pad := 8 - bitsInBuf;
      k := pad;
      BitsOfOnes(pad);
      AppendCode(bitBuf, bitsInBuf, Pow2(pad) - 1, pad);
      bitBuf := Or(Shl64(bitBuf, pad), Pow2(pad) - 1);
      TakeByte(bitBuf, 0);
      LastByte(bitBuf);
      ByteBitsSnoc(out, Low(bitBuf, 8));
      assert ByteBits(out) + (rest + Ones(pad)) == ByteBits(out) + rest + Ones(pad);
      out := out + [Low(bitBuf, 8)];
    }
    Padded(input, out, k);
  }

  lemma EmptyCodes(v: nat)
    ensures ByteBits([]) + BitsOf(v, 0) == Codes([])
  {
  }

  lemma NextCode(input: seq<byte>, i: nat, done: seq<bool>, pending: seq<bool>, appended: seq<bool>)
    requires i < |input| && done + pending == Codes(input[..i])
    requires appended == pending + CodeBits(input[i])
    ensures done + appended == Codes(input[..i + 1])
  {
    hide CodeBits, Codes;
    CodesSnoc(input[..i], input[i]);
    assert input[..i + 1] == input[..i] + [input[i]];
    assert done + appended == done + pending + CodeBits(input[i]);
  }

  lemma LastByte(v: nat)
    ensures Shr(v, 0) == v && BitsOf(v, 0) == []
    ensures Low(v, 8) < 256 && BitsOf(v, 8) == BitsOf(Low(v, 8), 8)
  {
    TakeByte(v, 0);
    assert BitsOf(v, 8 + 0) == BitsOf(Low(v, 8), 8) + [];
  }

  // Codes and at most seven 1-bits up to a byte boundary are the encoding.
  lemma Padded(s: seq<byte>, out: seq<byte>, k: nat)
    requires k < 8 && ByteBits(out) == Codes(s) + Ones(k)
    ensures out == Encoding(s)
  {
    hide Codes, Encoding, ByteBits, PadLen;
    OnePadLen(|Codes(s)|, k, |out|);
    EncodingBits(s);
    ByteBitsInjective(out, Encoding(s));
  }

  lemma OnePadLen(n: nat, k: nat, bytes: nat)
    requires k < 8 && 8 * bytes == n + k
    ensures k == PadLen(n)
  {
  }

  method EncodedLen(input: seq<byte>) returns (n: nat)
    ensures n == |Encoding(input)|
  {
    hide Entry, Codes, Encoding;
    var bits := 0;
    assert input[..0] == [];
    EmptyCodes(0);
    for i := 0 to |input|
      invariant bits == |Codes(input[..i])|
    {
      CodesSnoc(input[..i], input[i]);
      assert input[..i + 1] == input[..i] + [input[i]];
      bits := bits + Entry(input[i]).len;
    }
    assert input[..|input|] == input;
    EncodingLength(input);
    n := (bits + 7) / 8;
  }

  // ---- decoding ----

  // The finished tree.
  ghost predicate Built(nodes: seq<HuffNode>, index: map<seq<bool>, nat>) {
    Shaped(nodes, index) && Contents(nodes, index) == Inserted(257)
  }

  lemma {:induction false} AllOnesDepth(p: seq<bool>)
    requires AllOnes(p)
    ensures TrailingOnes(p) == |p|
  {
    if p != [] {
      AllOnesDepth(p[..|p| - 1]);
    }
  }

  // On every path of the tree, the flag says whether the path begins the code of EOS, and
  // where it does, the depth is the length of the path: the padding seen so far.
  ghost predicate EosMarked(nodes: seq<HuffNode>, index: map<seq<bool>, nat>) {
    forall p :: p in index ==>
      index[p] < |nodes| &&
      (nodes[index[p]].prefixOfEos <==> p <= CodeBits(EOS)) &&
      (nodes[index[p]].prefixOfEos ==> nodes[index[p]].allOnesDepth == |p|)
  }

  lemma TreeMarks(nodes: seq<HuffNode>, index: map<seq<bool>, nat>)
    requires Built(nodes, index)
    ensures EosMarked(nodes, index)
  {
    hide CodeBits, Inserted, TrailingOnes;
    forall p | p in index
      ensures index[p] < |nodes|
      ensures nodes[index[p]].prefixOfEos <==> p <= CodeBits(EOS)
      ensures nodes[index[p]].prefixOfEos ==> nodes[index[p]].allOnesDepth == |p|
    {
      Lookup(nodes, index, p);
      EosPrefix(p);
      PathLength(p);
      if AllOnes(p) {
        AllOnesDepth(p);
      }
    }
  }

  lemma PathLength(p: seq<bool>)
    requires p in Inserted(257)
    ensures |p| <= 30
  {
    hide Inserted, Entry;
    InsertedPaths(257, p);
    if p != [] {
      var s: Symbol :| p <= CodeBits(s);
      EntryFits(s);
    }
  }

  method BuildTree() returns (tree: Tree)
    ensures fresh(tree) && tree.Valid() && tree.Paths() == Inserted(257)
    ensures EosMarked(tree.nodes, tree.index)
  {
    hide Entry, Insert, Contents, Shaped, EosMarked;
    tree := new Tree();
    for sym := 0 to 256
      invariant fresh(tree) && tree.Valid() && tree.Paths() == Inserted(sym)
    {
      tree.InsertSymbol(Entry(sym).value, Entry(sym).len, sym);
    }
    EosEntry();
    tree.InsertSymbol(0x3fff_ffff, 30, 256);
    TreeMarks(tree.nodes, tree.index);
  }

  lemma EosEntry()
    ensures Entry(EOS) == Code(0x3fff_ffff, 30)
  {
  }

  // A path that stops inside the finished tree.
  ghost predicate Inside(nodes: seq<HuffNode>, index: map<seq<bool>, nat>, path: seq<bool>) {
    Built(nodes, index) && path in index && Contents(nodes, index)[path] == None
  }

  // One step of the walk: from inside the tree, either bit leads to a node, which
  // is either inside again or the end of a code.
  lemma WalkStep(nodes: seq<HuffNode>, index: map<seq<bool>, nat>, path: seq<bool>, bit: bool)
    requires Inside(nodes, index, path)
    ensures path + [bit] in index && index[path] < |nodes| && index[path + [bit]] < |nodes|
    ensures index[path + [bit]] == if bit then nodes[index[path]].right else nodes[index[path]].left
    ensures match nodes[index[path + [bit]]].symbol
      case Some(s) => path + [bit] == CodeBits(s)
      case None => Inside(nodes, index, path + [bit])
  {
    hide CodeBits, Inserted;
    FullTree(path);
    Lookup(nodes, index, path);
    FullTree(path + [bit]);
    Lookup(nodes, index, path + [bit]);
  }

  // A walk that ends inside the tree is accepted exactly when it ends in padding.
  lemma WalkEnd(nodes: seq<HuffNode>, index: map<seq<bool>, nat>, path: seq<bool>,
                input: seq<byte>, out: seq<byte>)
    requires Inside(nodes, index, path) && Codes(out) + path == ByteBits(input)
    ensures index[path] < |nodes|
    ensures var node := nodes[index[path]];
      Decoding(input) == if index[path] != 0 && (node.allOnesDepth > 7 || !node.prefixOfEos)
        then Err(BadPadding) else Ok(out)
  {
    hide CodeBits, Inserted, Codes, Decoding, TrailingOnes;
    Lookup(nodes, index, path);
    FullTree(path);
    if AllOnes(path) {
      AllOnesDepth(path);
    }
    assert path != [] ==> NodeOk(nodes, index, path);
    if AllOnes(path) && |path| < 8 {
      Accept(input, out, path);
    } else {
      var t: Symbol :| ProperPrefix(path, CodeBits(t));
      Reject(input, out, path, t);
    }
  }

  lemma Accept(input: seq<byte>, out: seq<byte>, path: seq<bool>)
    requires Codes(out) + path == ByteBits(input) && AllOnes(path) && |path| < 8
    ensures Decoding(input) == Ok(out)
  {
    hide Codes, Decoding;
    assert path == Ones(|path|);
    Padded(out, input, |path|);
    DecodingInvertsEncoding(input, out);
  }

  lemma Reject(input: seq<byte>, out: seq<byte>, path: seq<bool>, t: Symbol)
    requires Codes(out) + path == ByteBits(input) && ProperPrefix(path, CodeBits(t))
    requires !(AllOnes(path) && |path| < 8)
    ensures Decoding(input) == Err(BadPadding)
  {
    hide CodeBits, Codes, Encoding;
    NoEosInside(input, out, path, t);
    if s: seq<byte> :| Encoding(s) == input {
      EncodedEnd(s, out, path, t);
    }
  }

  lemma EncodedEnd(s: seq<byte>, out: seq<byte>, path: seq<bool>, t: Symbol)
    requires Codes(out) + path == ByteBits(Encoding(s)) && ProperPrefix(path, CodeBits(t))
    ensures s == out && AllOnes(path) && |path| < 8
  {
    hide CodeBits, Codes, Encoding;
    EncodingBits(s);
    var p := Ones(PadLen(|Codes(s)|));
    PaddingInsideEOS(|p|);
    ParseUnique(s, p, out, path, t);
    ParseUnique(out, path, s, p, EOS);
    assert s == out;
    var c := Codes(s);
    assert c + p == c + path;
    assert p == (c + p)[|c|..] == (c + path)[|c|..] == path;
  }

  lemma NoEosInside(input: seq<byte>, out: seq<byte>, path: seq<bool>, t: Symbol)
    requires Codes(out) + path == ByteBits(input) && ProperPrefix(path, CodeBits(t))
    ensures !HasEos(input)
  {
    hide CodeBits, Codes;
    if s: seq<byte>, rest: seq<bool> :| EosAfter(input, s, rest) {
      CodesSnoc(s, EOS);
      ParseUnique(s + [EOS], rest, out, path, t);
      assert out[|s|] == (s + [EOS])[|s|] == EOS;
    }
  }

  lemma EosReached(input: seq<byte>, out: seq<byte>, n: nat)
    requires n <= 8 * |input| && Codes(out) + CodeBits(EOS) == ByteBits(input)[..n]
    ensures Decoding(input) == Err(EosInStream)
  {
    hide CodeBits, Codes, Encoding;
    var b := ByteBits(input);
    assert b == b[..n] + b[n..];
    assert EosAfter(input, out, b[n..]);
    if s: seq<byte> :| Encoding(s) == input {
      EncodingHasNoEos(s);
    }
  }

  lemma NextBit(input: seq<byte>, i: nat, c: nat, done: seq<bool>, path: seq<bool>)
    requires i < |input| && c < 8 && done + path == ByteBits(input)[..8 * i + c]
    ensures done + (path + [Shr(input[i], 7 - c) % 2 == 1]) == ByteBits(input)[..8 * i + c + 1]
  {
    ByteBitsAt(input, i, c);
    hide Shr, ByteBits;
    var b, n := ByteBits(input), 8 * i + c;
    assert b[..n + 1] == b[..n] + [b[n]];
  }

  method Decode(input: seq<byte>) returns (r: Result<seq<byte>, HuffmanError>)
    ensures r == Decoding(input)
  {
    hide CodeBits, Codes, Decoding, Inserted, Contents, Shaped, Inside, ByteBits, Shr, EosMarked;
    var tree := BuildTree();
    var nodes := tree.nodes;
    ghost var index := tree.index;
    var out: seq<byte> := [];
    var nodeIdx := 0;
    var bitsConsumedInByte := 0;
    var bytePos := 0;
    ghost var path := [];
    WalkStart(nodes, index);
    while bytePos < |input|
      invariant 0 <= bytePos <= |input| && 0 <= bitsConsumedInByte < 8
      invariant bytePos == |input| ==> bitsConsumedInByte == 0
      invariant Inside(nodes, index, path) && path in index && nodeIdx == index[path]
      invariant Codes(out) + path == ByteBits(input)[..8 * bytePos + bitsConsumedInByte]
      decreases |input| - bytePos, 8 - bitsConsumedInByte
    {
      var b := input[bytePos];
      var bit := Shr(b, 7 - bitsConsumedInByte) % 2 == 1;
      WalkStep(nodes, index, path, bit);
      NextBit(input, bytePos, bitsConsumedInByte, Codes(out), path);
      path := path + [bit];
      nodeIdx := if !bit then nodes[nodeIdx].left else nodes[nodeIdx].right;
      bitsConsumedInByte := bitsConsumedInByte + 1;
      if bitsConsumedInByte == 8 {
        bitsConsumedInByte := 0;
        bytePos := bytePos + 1;
      }
      var node := nodes[nodeIdx];
      if node.symbol.Some? {
        var sym := node.symbol.value;
        if sym == 256 {
          EosReached(input, out, 8 * bytePos + bitsConsumedInByte);
          return Err(EosInStream);
        }
        CodesSnoc(out, sym);
        out := out + [sym];
        nodeIdx := 0;
        path := [];
        WalkStart(nodes, index);
        assert Codes(out) + [] == Codes(out);
      }
    }
    assert ByteBits(input)[..8 * |input|] == ByteBits(input);
    WalkEnd(nodes, index, path, input, out);
    if nodeIdx != 0 {
      var node := nodes[nodeIdx];
      if node.allOnesDepth > 7 || !node.prefixOfEos {
        return Err(BadPadding);
      }
    }
    return Ok(out);
  }

  lemma WalkStart(nodes: seq<HuffNode>, index: map<seq<bool>, nat>)
    requires Built(nodes, index)
    ensures Inside(nodes, index, []) && [] in index && index[[]] == 0
    ensures Codes([]) + [] == []
  {
    hide CodeBits, Inserted, Contents;
    FullTree([]);
    if s: Symbol :| Inserted(257)[[]] == Some(s) {
      CodeNonempty(s);
    }
  }

  // An accepted string is at most 8/5 as long as its input.
  lemma DecodedLength(x: seq<byte>)
    ensures Decoding(x).Ok? ==> 5 * |Decoding(x).value| <= 8 * |x|
  {
    hide Encoding;
    if Decoding(x).Ok? {
      DecodingInvertsEncoding(x, Decoding(x).value);
      EncodingLength(Decoding(x).value);
    }
  }
}
