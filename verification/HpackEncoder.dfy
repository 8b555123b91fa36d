// The header-block encoder: string literals, one header, a list of headers.
module HpackEncoder {
  import opened Wrappers
  import opened Bits
  import opened HuffmanCode
  import Huffman
  import opened HpackTypes
  import opened HpackInteger

  // ---- string literals, section 5.2 of RFC 7541 ----

  predicate UsesHuffman(data: seq<byte>, huffman: Option<bool>) {
    match huffman
    case Some(h) => h
    case None => |Encoding(data)| < |data|
  }

  function Payload(data: seq<byte>, huffman: Option<bool>): seq<byte> {
    if UsesHuffman(data, huffman) then Encoding(data) else data
  }

  // The Huffman flag is the one bit above the 7-bit length prefix; the length is
  // cut down to a 32-bit word.
  function StringForm(data: seq<byte>, huffman: Option<bool>, bloat: nat): (r: seq<byte>) {
    var flag := if UsesHuffman(data, huffman) then 0x80 else 0;
    FlagOk(flag);
    var payload := Payload(data, huffman);
    IntegerForm(|payload| % U32, 7, flag, bloat) + payload
  }

  lemma FlagOk(flag: byte)
    requires flag == 0 || flag == 0x80
    ensures PatternOk(flag, 7) && Shr(flag, 7) == flag / 128
  {
    assert Low(128, 7) == 0 && Low(0, 7) == 0;
    assert Shr(128, 7) == 1 && Shr(0, 7) == 0;
  }

  method WriteString(out: Buffer, data: seq<byte>, huffman: Option<bool>, lengthBloat: nat)
    modifies out
    ensures out.bytes == old(out.bytes) + StringForm(data, huffman, lengthBloat)
  {
    hide Encoding, IntegerForm, PatternOk;
    var useHuffman;
    match huffman {
      case Some(h) => useHuffman := h;
      case None =>
        var len := Huffman.EncodedLen(data);
        useHuffman := len < |data|;
    }
    var encoded := data;
    var flag: byte := 0x00;
    if useHuffman {
      encoded := Huffman.Encode(data);
      flag := 0x80;
    }
    FlagOk(flag);
    WriteInteger(out, |encoded| % U32, 7, flag, lengthBloat);
    ghost var prefix := IntegerForm(|encoded| % U32, 7, flag, lengthBloat);
    assert old(out.bytes) + (prefix + encoded) == old(out.bytes) + prefix + encoded;
    out.bytes := out.bytes + encoded;
  }

  // ---- one header ----

  predicate IsLowercaseTokenChar(b: byte) {
    'a' as int <= b <= 'z' as int || '0' as int <= b <= '9' as int ||
    b in ['!' as int, '#' as int, '$' as int, '%' as int, '&' as int, '\'' as int, '*' as int, '+' as int,
          '-' as int, '.' as int, '^' as int, '_' as int, '`' as int, '|' as int, '~' as int]
  }

  // A lowercase token, or a colon followed by one.
  predicate IsNameValid(name: seq<byte>) {
    name != [] &&
    (if name[0] == ':' as int then |name| > 1 else IsLowercaseTokenChar(name[0])) &&
    forall i :: 1 <= i < |name| ==> IsLowercaseTokenChar(name[i])
  }

  predicate IsValueValid(value: seq<byte>) {
    forall i :: 0 <= i < |value| ==> value[i] !in {0x00, 0x0A, 0x0D}
  }

  // The first reason to refuse a header, if there is one.
  function Refusal(h: Header): Option<EncodeError> {
    if h.name == [] && h.forceStaticIndex.None? then Some(EmptyName)
    else if h.lengthBloatName > 3 then Some(BloatOutOfRange(h.lengthBloatName))
    else if h.lengthBloatValue > 3 then Some(BloatOutOfRange(h.lengthBloatValue))
    else if !h.allowInvalidName && h.forceStaticIndex.None? && !IsNameValid(h.name) then Some(InvalidName)
    else if !h.allowInvalidValue && !IsValueValid(h.value) then Some(InvalidValue)
    else match h.forceStaticIndex
      case Some(i) => if 1 <= i <= 61 then None else Some(StaticIndexOutOfRange(i))
      case None => None
  }

  // ---- what is refused, in the terms of the standards ----

  // The delimiters of section 3.2.6 of RFC 7230.
  predicate IsDelimiter(b: byte) {
    b in ['"' as int, '(' as int, ')' as int, ',' as int, '/' as int, ':' as int, ';' as int, '<' as int, '=' as int,
          '>' as int, '?' as int, '@' as int, '[' as int, '\\' as int, ']' as int, '{' as int, '}' as int]
  }

  // A token character is a visible ASCII character that is no delimiter; capital letters are
  // out in HTTP/2 (section 8.2.1 of RFC 9113).
  predicate IsFieldNameChar(b: byte) {
    0x21 <= b <= 0x7E && !IsDelimiter(b) && !(0x41 <= b <= 0x5A)
  }

  lemma TokenChars(b: byte)
    ensures IsLowercaseTokenChar(b) <==> IsFieldNameChar(b)
  {
    if b < 0x30 {
    } else if b < 0x5B {
    } else {
    }
  }

  predicate AreFieldNameChars(s: seq<byte>) {
    forall i :: 0 <= i < |s| ==> IsFieldNameChar(s[i])
  }

  // A field name, or a colon followed by one.
  predicate IsFieldName(name: seq<byte>) {
    var token := if name != [] && name[0] == ':' as int then name[1..] else name;
    token != [] && AreFieldNameChars(token)
  }

  // The same, by the first character and the others.
  lemma FieldNameParts(name: seq<byte>)
    requires name != []
    ensures AreFieldNameChars(name[1..]) <==> forall i :: 1 <= i < |name| ==> IsFieldNameChar(name[i])
    ensures AreFieldNameChars(name) <==> IsFieldNameChar(name[0]) && AreFieldNameChars(name[1..])
  {
    hide IsFieldNameChar;
    var rest := name[1..];
    assert forall i :: 0 <= i < |rest| ==> rest[i] == name[i + 1];
    assert forall i :: 1 <= i < |name| ==> name[i] == rest[i - 1];
  }

  lemma NamesExactly(name: seq<byte>)
    ensures IsNameValid(name) <==> IsFieldName(name)
  {
    hide IsLowercaseTokenChar, IsFieldNameChar, AreFieldNameChars;
    forall b: byte ensures IsLowercaseTokenChar(b) <==> IsFieldNameChar(b) {
      TokenChars(b);
    }
    if name != [] {
      FieldNameParts(name);
    }
  }

  // A header is accepted exactly when its overlong lengths are at most three bytes, its name
  // is given by an index of the static table, or is not empty and a field name unless that is
  // waived, and its value has no NUL, CR or LF unless that is waived.
  lemma AcceptedExactly(h: Header)
    ensures Refusal(h).None? <==>
      h.lengthBloatName <= 3 && h.lengthBloatValue <= 3 &&
      (match h.forceStaticIndex
       case Some(i) => 1 <= i <= 61
       case None => h.name != [] && (h.allowInvalidName || IsFieldName(h.name))) &&
      (h.allowInvalidValue || (0x00 !in h.value && 0x0A !in h.value && 0x0D !in h.value))
  {
    hide IsNameValid, IsFieldName;
    NamesExactly(h.name);
    ValueExactly(h.value);
  }

  lemma ValueExactly(value: seq<byte>)
    ensures IsValueValid(value) <==> 0x00 !in value && 0x0A !in value && 0x0D !in value
  {
  }

  // Of several reasons to refuse, the one given is the first in this order.
  lemma RefusedFor(h: Header, e: EncodeError)
    requires Refusal(h) == Some(e)
    ensures e.EmptyName? <==> h.name == [] && h.forceStaticIndex.None?
    ensures !e.EmptyName? && h.lengthBloatName > 3 ==> e == BloatOutOfRange(h.lengthBloatName)
    ensures !e.EmptyName? && h.lengthBloatName <= 3 && h.lengthBloatValue > 3 ==> e == BloatOutOfRange(h.lengthBloatValue)
    ensures e.BloatOutOfRange? ==> h.lengthBloatName > 3 || h.lengthBloatValue > 3
    ensures e.InvalidName? ==> !h.allowInvalidName && h.forceStaticIndex.None? && !IsFieldName(h.name)
    ensures e.InvalidValue? ==>
      !h.allowInvalidValue && (h.allowInvalidName || h.forceStaticIndex.Some? || IsFieldName(h.name))
    ensures e.StaticIndexOutOfRange? ==> h.forceStaticIndex == Some(e.index) && !(1 <= e.index <= 61)
  {
    hide IsNameValid, IsFieldName, IsValueValid;
    NamesExactly(h.name);
  }

  // The representation: its bit pattern and the size of the index prefix below it.
  function Representation(indexing: Indexing): (r: (byte, nat))
    ensures 1 <= r.1 <= 8
  {
    match indexing
    case With => (0x40, 6)
    case Without => (0x00, 4)
    case Never => (0x10, 4)
  }

  lemma RepresentationOk(indexing: Indexing)
    ensures var (pattern, bits) := Representation(indexing); PatternOk(pattern, bits)
    ensures var (pattern, bits) := Representation(indexing); pattern == Shl(Shr(pattern, bits), bits)
  {
    assert Low(64, 6) == 0 && Low(0, 4) == 0 && Low(16, 4) == 0;
    var (pattern, bits) := Representation(indexing);
    ShrShl(pattern, bits);
  }

  function NameIndex(h: Header): nat {
    match h.forceStaticIndex case Some(i) => i case None => 0
  }

  function IndexForm(h: Header): seq<byte> {
    var (pattern, bits) := Representation(h.indexing);
    RepresentationOk(h.indexing);
    IntegerForm(NameIndex(h), bits, pattern, 0)
  }

  function HeaderForm(h: Header): (r: seq<byte>) {
    IndexForm(h)
    + (if NameIndex(h) == 0 then StringForm(h.name, h.huffmanName, h.lengthBloatName) else [])
    + StringForm(h.value, h.huffmanValue, h.lengthBloatValue)
  }

  method EncodeOne(h: Header, out: Buffer) returns (refused: Option<EncodeError>)
    modifies out
    ensures refused == Refusal(h)
    ensures refused.None? ==> out.bytes == old(out.bytes) + HeaderForm(h)
  {
    hide IntegerForm, StringForm, PatternOk, IsNameValid, IsValueValid;
    if h.name == [] && h.forceStaticIndex.None? {
      return Some(EmptyName);
    }
    if h.lengthBloatName > 3 {
      return Some(BloatOutOfRange(h.lengthBloatName));
    }
    if h.lengthBloatValue > 3 {
      return Some(BloatOutOfRange(h.lengthBloatValue));
    }
    if !h.allowInvalidName && h.forceStaticIndex.None? && !IsNameValid(h.name) {
      return Some(InvalidName);
    }
    if !h.allowInvalidValue && !IsValueValid(h.value) {
      return Some(InvalidValue);
    }
    var (prefixPattern, prefixBits) := Representation(h.indexing);
    RepresentationOk(h.indexing);
    var nameIndex := 0;
    match h.forceStaticIndex {
      case Some(idx) =>
        if !(1 <= idx <= 61) {
          return Some(StaticIndexOutOfRange(idx));
        }
        nameIndex := idx;
      case None =>
    }
    WriteInteger(out, nameIndex, prefixBits, prefixPattern, 0);
    ghost var index := IntegerForm(nameIndex, prefixBits, prefixPattern, 0);
    ghost var name := if nameIndex == 0 then StringForm(h.name, h.huffmanName, h.lengthBloatName) else [];
    if nameIndex == 0 {
      WriteString(out, h.name, h.huffmanName, h.lengthBloatName);
    }
    assert out.bytes == old(out.bytes) + index + name;
    WriteString(out, h.value, h.huffmanValue, h.lengthBloatValue);
    ghost var value := StringForm(h.value, h.huffmanValue, h.lengthBloatValue);
    assert old(out.bytes) + index + name + value == old(out.bytes) + (index + name + value);
    return None;
  }

  // ---- a list of headers ----

  // The block of a list is the concatenation of its headers' forms; the first refused
  // header refuses the list.
  function Block(headers: seq<Header>): Result<seq<byte>, EncodeError> {
    if headers == [] then Ok([]) else
      match Refusal(headers[0])
      case Some(e) => Err(e)
      case None =>
        match Block(headers[1..])
        case Err(e) => Err(e)
        case Ok(rest) => Ok(HeaderForm(headers[0]) + rest)
  }

  method EncodeHeaders(headers: seq<Header>) returns (r: Result<seq<byte>, EncodeError>)
    ensures r == Block(headers)
  {
    hide HeaderForm, Refusal;
    var out := new Buffer();
    assert headers[0..] == headers;
    PrependedEmpty(out.bytes, Block(headers));
    for i := 0 to |headers|
      invariant fresh(out)
      invariant Block(headers) == Prepended(out.bytes, Block(headers[i..]))
    {
      ghost var before, rest := out.bytes, headers[i..];
      assert rest[0] == headers[i] && rest[1..] == headers[i + 1..];
      var refused := EncodeOne(headers[i], out);
      if refused.Some? {
        return Err(refused.value);
      }
      PrependedTwice(before, HeaderForm(headers[i]), Block(rest[1..]));
    }
    assert headers[|headers|..] == [];
    assert out.bytes + [] == out.bytes;
    return Ok(out.bytes);
  }

  ghost function Prepended(p: seq<byte>, r: Result<seq<byte>, EncodeError>): Result<seq<byte>, EncodeError> {
    match r
    case Ok(s) => Ok(p + s)
    case Err(e) => Err(e)
  }

  lemma PrependedEmpty(p: seq<byte>, r: Result<seq<byte>, EncodeError>)
    requires p == []
    ensures Prepended(p, r) == r
  {
    if r.Ok? {
      assert p + r.value == r.value;
    }
  }

  lemma PrependedTwice(p: seq<byte>, q: seq<byte>, r: Result<seq<byte>, EncodeError>)
    ensures Prepended(p, Prepended(q, r)) == Prepended(p + q, r)
  {
    if r.Ok? {
      assert p + (q + r.value) == p + q + r.value;
    }
  }

  ghost predicate FirstRefused(headers: seq<Header>, i: int, e: EncodeError) {
    0 <= i < |headers| && Refusal(headers[i]) == Some(e) &&
    forall j :: 0 <= j < i ==> Refusal(headers[j]).None?
  }

  // A list is refused exactly when one of its headers is, and for the first such reason.
  lemma {:induction false} BlockRefused(headers: seq<Header>)
    ensures Block(headers).Ok? <==> forall i :: 0 <= i < |headers| ==> Refusal(headers[i]).None?
    ensures Block(headers).Err? ==> exists i :: FirstRefused(headers, i, Block(headers).error)
  {
    hide HeaderForm, Refusal;
    if headers != [] {
      var rest := headers[1..];
      BlockRefused(rest);
      assert forall i :: 1 <= i < |headers| ==> headers[i] == rest[i - 1];
      if Refusal(headers[0]).None? && Block(rest).Err? {
        var i :| FirstRefused(rest, i, Block(rest).error);
        assert FirstRefused(headers, i + 1, Block(headers).error);
      } else if Refusal(headers[0]).Some? {
        assert FirstRefused(headers, 0, Block(headers).error);
      }
    }
  }
}
