// What single bytes of a header block mean on the wire: references into both tables, size
// updates, the representations of sections 6.1 to 6.3 of RFC 7541, and blocks cut short.
module HpackWire {
  import opened Wrappers
  import opened Bits
  import opened HuffmanCode
  import Huffman
  import opened HpackTypes
  import opened HpackInteger
  import opened HpackStaticTable
  import opened HpackStaticList
  import opened HpackTable
  import opened HpackEncoder
  import opened HpackDecoder
  import opened HpackProperties

  // ---- references into the static table ----

  // From any table, a reference to 1 to 61 is that row of Appendix A, name and value, and
  // leaves the table alone; a reference to 0 is refused.
  lemma StaticReference(i: nat, base: nat, table: Table)
    requires i <= 61
    ensures var o := Decoded(Reference(i), base, table);
      o.table == table && o.result == if i == 0 then Err(InvalidIndex(0)) else Ok([Listed(i)])
  {
    ReadReference(i, base, table);
    hide Decoded, Reference, StaticEntry, Listed;
    if i > 0 {
      TableIsListed(i);
    }
  }

  // Different references give different fields.
  lemma StaticReferencesDiffer(i: nat, j: nat, base: nat, table: Table)
    requires 1 <= i < j <= 61
    ensures Decoded(Reference(i), base, table).result != Decoded(Reference(j), base, table).result
  {
    hide Decoded, Reference, Listed;
    StaticReference(i, base, table);
    StaticReference(j, base, table);
    ListedDistinct(i, j);
  }

  // ---- names by reference ----

  // A literal field that takes its name from a table.
  function NamedLiteral(idx: nat, indexing: Indexing, value: seq<byte>, huffman: Option<bool>): seq<byte> {
    var (pattern, bits) := Representation(indexing);
    RepresentationOk(indexing);
    IntegerForm(idx, bits, pattern, 0) + StringForm(value, huffman, 0)
  }

  lemma NameRead(idx: nat, indexing: Indexing, rest: seq<byte>)
    requires idx < U32
    ensures var (pattern, bits) := Representation(indexing); PatternOk(pattern, bits)
    ensures var (pattern, bits) := Representation(indexing); var form := IntegerForm(idx, bits, pattern, 0);
      form != [] && ReadInt(form + rest, bits) == Ok((idx, |form|)) &&
      (if indexing == With then 0x40 <= form[0] < 0x80 else form[0] < 0x20)
  {
    var (pattern, bits) := Representation(indexing);
    RepresentationOk(indexing);
    IntegerRoundTrip(idx, bits, pattern, rest);
    assert Pow2(4) == 16 && Pow2(6) == 64;
    var max := MaxPrefix(bits);
    PrefixByte(pattern, if idx < max then idx else max, bits);
    hide Or, PatternOk, Pow2, ReadInt, Digits;
  }

  // What such a literal decodes to, told by what the index means.
  lemma NamedLiteralReads(idx: nat, indexing: Indexing, value: seq<byte>, huffman: Option<bool>, base: nat, table: Table)
    requires 0 < idx < U32 && |Payload(value, huffman)| < U32
    ensures Decoded(NamedLiteral(idx, indexing, value, huffman), base, table) ==
      var f := Lookup(table.entries, idx);
      if f.Err? then Outcome(Err(f.error), table, [])
      else
        var field := (f.value.0, value);
        Outcome(Ok([field]), if indexing == With then Inserted(table, field) else table,
                if indexing == With then [field] else [])
  {
    hide Decoded;
    var (pattern, bits) := Representation(indexing);
    var str := StringForm(value, huffman, 0);
    NameRead(idx, indexing, str);
    LookupErrors(table.entries, idx);
    var s := NamedLiteral(idx, indexing, value, huffman);
    NamedRead(s, IntegerForm(idx, bits, pattern, 0), idx, bits, value, huffman, table.entries);
    hide IntegerForm, StringForm, ReadLiteral, ReadRep, Lookup, Inserted, Payload, Representation;
    LiteralRep(s, indexing, table);
    DecodedOne(s, base, table);
  }

  // The first byte of a literal says how it is read.
  lemma LiteralRep(s: seq<byte>, indexing: Indexing, table: Table)
    requires s != [] && if indexing == With then 0x40 <= s[0] < 0x80 else s[0] < 0x20
    ensures var r := ReadLiteral(s, Representation(indexing).1, table.entries);
      ReadRep(s, table) ==
        if r.Err? then Err(r.error) else Ok((Literal(r.value.0, indexing == With), r.value.1))
  {
    hide ReadLiteral;
  }

  lemma NamedRead(s: seq<byte>, form: seq<byte>, idx: nat, bits: nat, value: seq<byte>, huffman: Option<bool>, entries: seq<Field>)
    requires 1 <= bits <= 8 && idx > 0 && |Payload(value, huffman)| < U32
    requires s == form + StringForm(value, huffman, 0) && ReadInt(s, bits) == Ok((idx, |form|))
    ensures var f := Lookup(entries, idx);
      ReadLiteral(s, bits, entries) == if f.Err? then Err(f.error) else Ok(((f.value.0, value), |s|))
  {
    hide ReadInt, Lookup, StringForm, Payload, ReadStr;
    var str := StringForm(value, huffman, 0);
    assert s[|form|..] == str && str + [] == str;
    StringRoundTrip(value, huffman, 0, []);
  }

  // A literal named by 1 to 61 takes the name of that row; one named by 62 + k the name of
  // the field inserted k insertions ago while it is kept, and is refused once it is not.
  lemma NamedByReference(idx: nat, indexing: Indexing, value: seq<byte>, huffman: Option<bool>, base: nat,
                         table: Table, history: seq<Field>)
    requires 0 < idx < U32 && |Payload(value, huffman)| < U32 && table.entries == Fit(history, table.max)
    ensures var o := Decoded(NamedLiteral(idx, indexing, value, huffman), base, table);
      |Fit(history, table.max)| <= |history| &&
      if 61 < idx && idx - 62 >= |Fit(history, table.max)| then o.result == Err(InvalidIndex(idx)) && o.table == table
      else
        var field := (if idx <= 61 then Listed(idx).0 else history[idx - 62].0, value);
        o.result == Ok([field]) && o.inserted == (if indexing == With then [field] else []) &&
        o.table == if indexing == With then Table(Fit([field] + history, table.max), table.max) else table
  {
    hide Decoded, NamedLiteral, Fit, Listed, StaticEntry, Payload;
    NamedLiteralReads(idx, indexing, value, huffman, base, table);
    assert table.entries <= history;
    if idx <= 61 {
      TableIsListed(idx);
      FitInsert(history, table.max, (Listed(idx).0, value));
    } else if idx - 62 < |table.entries| {
      FitInsert(history, table.max, (history[idx - 62].0, value));
    }
  }

  // ---- size updates ----

  lemma UpdatePatternOk()
    ensures PatternOk(0x20, 5)
  {
    assert Low(0x20, 5) == 0;
  }

  function SizeForm(n: nat): seq<byte> {
    UpdatePatternOk();
    IntegerForm(n, 5, 0x20, 0)
  }

  // Section 6.3 of RFC 7541: a size up to the maximum becomes the maximum, and what no longer
  // fits is dropped; a larger one is refused and changes nothing.
  lemma SizeUpdated(n: nat, base: nat, table: Table)
    requires n < U32
    ensures Decoded(SizeForm(n), base, table) ==
      if n <= table.max then Outcome(Ok([]), Table(Fit(table.entries, n), n), [])
      else Outcome(Err(TableSizeTooLarge(n, table.max)), table, [])
  {
    hide Decoded, Fit;
    UpdatePatternOk();
    IntegerRoundTrip(n, 5, 0x20, []);
    assert Pow2(5) == 32;
    PrefixByte(0x20, if n < 31 then n else 31, 5);
    hide Or, PatternOk, Pow2, ReadInt, Digits, Low;
    var s := SizeForm(n);
    assert s + [] == s && 0x20 <= s[0] < 0x40;
    DecodedOne(s, base, table);
  }

  // ---- representations ----

  // The first byte of a header tells its indexing: 01xxxxxx with, 0000xxxx without, 0001xxxx
  // never (sections 6.2.1 to 6.2.3 of RFC 7541).
  lemma RepresentationByte(h: Header)
    requires Refusal(h).None?
    ensures HeaderForm(h) != [] &&
      match h.indexing
      case With => 0x40 <= HeaderForm(h)[0] < 0x80
      case Without => HeaderForm(h)[0] < 0x10
      case Never => 0x10 <= HeaderForm(h)[0] < 0x20
  {
    var (pattern, bits) := Representation(h.indexing);
    RepresentationOk(h.indexing);
    assert Pow2(4) == 16 && Pow2(6) == 64;
    var max := MaxPrefix(bits);
    PrefixByte(pattern, if NameIndex(h) < max then NameIndex(h) else max, bits);
    hide Or, PatternOk, Pow2, Digits, StringForm;
  }

  // ---- the choice of a string's coding ----

  // The high bit of a string literal says whether it is Huffman-coded: as told, or else
  // exactly when that is shorter.
  lemma CodingChosen(data: seq<byte>, huffman: Option<bool>, bloat: nat)
    ensures StringForm(data, huffman, bloat) != []
    ensures StringForm(data, huffman, bloat)[0] >= 0x80
      <==> huffman == Some(true) || (huffman == None && |Encoding(data)| < |data|)
  {
    hide Encoding;
    var flag := if UsesHuffman(data, huffman) then 0x80 else 0;
    FlagOk(flag);
    var length := |Payload(data, huffman)| % U32;
    assert Pow2(7) - 1 == 127;
    PrefixByte(flag, if length < 127 then length else 127, 7);
    hide Or, PatternOk, Pow2, Digits, Payload;
  }

  lemma {:induction false} DigitsLonger(v: nat, w: nat)
    requires v <= w
    ensures |Digits(v)| <= |Digits(w)|
  {
    if v >= 128 {
      DigitsLonger(v / 128, w / 128);
    }
  }

  lemma LengthLonger(v: nat, w: nat, f: byte, g: byte)
    requires v <= w && PatternOk(f, 7) && PatternOk(g, 7)
    ensures |IntegerForm(v, 7, f, 0)| <= |IntegerForm(w, 7, g, 0)|
  {
    var max := MaxPrefix(7);
    hide PatternOk, Or, Pow2;
    if v >= max {
      DigitsLonger(v - max, w - max);
    }
  }

  // Left to itself the encoder takes the shorter form.
  lemma ShortestForm(data: seq<byte>, b: bool)
    requires |data| < U32 && |Encoding(data)| < U32
    ensures |StringForm(data, None, 0)| <= |StringForm(data, Some(b), 0)|
  {
    hide Encoding, IntegerForm, PatternOk;
    FlagOk(0x80);
    FlagOk(0);
    if |Encoding(data)| < |data| {
      LengthLonger(|Encoding(data)|, |data|, 0x80, 0);
    } else {
      LengthLonger(|data|, |Encoding(data)|, 0, 0x80);
    }
  }

  // ---- cut short ----

  lemma {:induction false} ReadMoreCut(s: seq<byte>, k: nat, p: nat, value: nat, shift: nat)
    requires p <= k <= |s| && ReadMore(s, p, value, shift).Ok? && k < ReadMore(s, p, value, shift).value.1
    ensures ReadMore(s[..k], p, value, shift) == Err(UnexpectedEof(k))
    decreases k - p
  {
    hide Low, Shl;
    if p < k {
      assert s[..k][p] == s[p];
      ReadMoreCut(s, k, p + 1, value + Low(Shl(s[p] % 128, shift), 32), shift + 7);
    }
  }

  // An integer cut short is reported at the end of the input.
  lemma IntegerCut(s: seq<byte>, n: nat, k: nat)
    requires 1 <= n <= 8 && ReadInt(s, n).Ok? && k < ReadInt(s, n).value.1
    ensures ReadInt(s[..k], n) == Err(UnexpectedEof(k))
  {
    hide Low, ReadMore;
    if k > 0 {
      assert s[..k][0] == s[0];
      ReadMoreCut(s, k, 1, MaxPrefix(n), 0);
    }
  }

  // A string literal cut short is reported at the end of the input when the cut is in its
  // length, and at the end the length calls for otherwise.
  lemma StringCut(s: seq<byte>, k: nat)
    requires ReadStr(s).Ok? && k < ReadStr(s).value.1
    ensures ReadInt(s, 7).Ok?
    ensures ReadStr(s[..k]) == Err(UnexpectedEof(if k < ReadInt(s, 7).value.1 then k else ReadStr(s).value.1))
  {
    hide ReadInt, Huffman.Decoding;
    var (length, start) := ReadInt(s, 7).value;
    if k < start {
      IntegerCut(s, 7, k);
    } else {
      assert s == s[..k] + s[k..];
      IntegerWhole(s, 7, k);
    }
  }

  // What is read of an integer does not depend on what follows it.
  lemma IntegerWhole(s: seq<byte>, n: nat, k: nat)
    requires 1 <= n <= 8 && ReadInt(s, n).Ok? && ReadInt(s, n).value.1 <= k <= |s|
    ensures ReadInt(s[..k], n) == ReadInt(s, n)
  {
    hide Low, ReadMore;
    assert s[..k][0] == s[0];
    if Low(s[0], n) >= MaxPrefix(n) {
      ReadMoreWhole(s, k, 1, MaxPrefix(n), 0);
    }
  }

  lemma {:induction false} ReadMoreWhole(s: seq<byte>, k: nat, p: nat, value: nat, shift: nat)
    requires p <= |s| && ReadMore(s, p, value, shift).Ok? && ReadMore(s, p, value, shift).value.1 <= k <= |s|
    ensures ReadMore(s[..k], p, value, shift) == ReadMore(s, p, value, shift)
    decreases |s| - p
  {
    hide Low, Shl;
    assert s[..k][p] == s[p];
    if s[p] >= 128 {
      ReadMoreWhole(s, k, p + 1, value + Low(Shl(s[p] % 128, shift), 32), shift + 7);
    }
  }
}
