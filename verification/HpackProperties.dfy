// What the encoder and the decoder promise together: round trips from any decoder
// state, decoding block by block, and the table as a function of the history.
module HpackProperties {
  import opened Wrappers
  import opened Bits
  import opened HuffmanCode
  import Huffman
  import opened HpackTypes
  import opened HpackInteger
  import opened HpackStaticTable
  import opened HpackTable
  import opened HpackEncoder
  import opened HpackDecoder

  // ---- round trip of strings ----

  // The length fits its 32-bit word, and an overlong length is one that survives
  // (HpackInteger.BloatRoundTrip).
  predicate StringSendable(data: seq<byte>, huffman: Option<bool>, bloat: nat) {
    |Payload(data, huffman)| < U32 && (bloat == 0 || |Payload(data, huffman)| <= 127)
  }

  // A string literal reads back, whatever follows, exactly when it is sendable: otherwise
  // what is read, if anything, is another string.
  lemma StringRoundTrip(data: seq<byte>, huffman: Option<bool>, bloat: nat, rest: seq<byte>)
    requires bloat <= 3
    ensures var form := StringForm(data, huffman, bloat); var r := ReadStr(form + rest);
      if StringSendable(data, huffman, bloat) then r == Ok((data, |form|)) else r.Ok? ==> r.value.0 != data
  {
    hide IntegerForm, ReadInt, Encoding, Huffman.Decoding, ReadStr;
    var payload := Payload(data, huffman);
    var flag := if UsesHuffman(data, huffman) then 0x80 else 0;
    FlagOk(flag);
    var length := IntegerForm(|payload| % U32, 7, flag, bloat);
    LengthRoundTrip(|payload| % U32, flag, bloat, payload + rest);
    var s := length + payload + rest;
    assert s == length + (payload + rest);
    if StringSendable(data, huffman, bloat) {
      ReadPayload(length, payload, rest);
      if UsesHuffman(data, huffman) {
        Huffman.DecodingInvertsEncoding(payload, data);
      }
    } else if ReadStr(s).Ok? && ReadStr(s).value.0 == data {
      SameLength(s, data, huffman);
      assert false;
    }
  }

  lemma ReadPayload(length: seq<byte>, payload: seq<byte>, rest: seq<byte>)
    requires length != [] && ReadInt(length + (payload + rest), 7) == Ok((|payload|, |length|))
    ensures ReadStr(length + payload + rest) ==
      match (if length[0] >= 0x80 then LiftHuffman(Huffman.Decoding(payload)) else Ok(payload))
      case Ok(b) => Ok((b, |length + payload|))
      case Err(e) => Err(e)
  {
    hide ReadInt, Huffman.Decoding;
    var s := length + payload + rest;
    assert s == length + (payload + rest);
    assert s[|length|..|length| + |payload|] == payload;
  }

  // Whoever reads the data back has read the length of its payload: no other byte string
  // stands for it.
  lemma SameLength(s: seq<byte>, data: seq<byte>, huffman: Option<bool>)
    requires s != [] && (s[0] >= 0x80 <==> UsesHuffman(data, huffman))
    requires ReadStr(s).Ok? && ReadStr(s).value.0 == data
    ensures ReadInt(s, 7).Ok? && ReadInt(s, 7).value.0 == |Payload(data, huffman)|
  {
    hide ReadInt, Huffman.Decoding, Encoding;
    var (length, start) := ReadInt(s, 7).value;
    if s[0] >= 0x80 {
      Huffman.DecodingInvertsEncoding(s[start..start + length], data);
    }
  }

  // A length reads back unless it is bloated and above 127; then it does not.
  lemma LengthRoundTrip(length: nat, flag: byte, bloat: nat, rest: seq<byte>)
    requires length < U32 && bloat <= 3
    requires (flag == 0 || flag == 0x80) && PatternOk(flag, 7)
    ensures var form := IntegerForm(length, 7, flag, bloat);
      form != [] && (form[0] >= 0x80 <==> flag == 0x80) &&
      if bloat == 0 || length <= 127 then ReadInt(form + rest, 7) == Ok((length, |form|))
      else ReadInt(form + rest, 7).Ok? ==> ReadInt(form + rest, 7).value.0 != length
  {
    assert Pow2(7) - 1 == 127;
    PrefixByte(flag, if length < 127 then length else 127, 7);
    hide Or, PatternOk, Pow2, ReadInt, Digits;
    if bloat == 0 {
      IntegerRoundTrip(length, 7, flag, rest);
    } else {
      BloatRoundTrip(length, 7, flag, bloat, rest);
    }
  }

  // ---- round trip of headers ----

  predicate Sendable(h: Header) {
    StringSendable(h.value, h.huffmanValue, h.lengthBloatValue) &&
    (h.forceStaticIndex.None? ==> StringSendable(h.name, h.huffmanName, h.lengthBloatName))
  }

  // What the receiver should see: the static name under a forced index.
  function Received(h: Header): Field
    requires Refusal(h).None?
  {
    match h.forceStaticIndex
    case Some(i) => (StaticEntry(i).0, h.value)
    case None => (h.name, h.value)
  }

  lemma IndexRoundTrip(h: Header, rest: seq<byte>)
    requires NameIndex(h) <= STATIC_LEN
    ensures var form := IndexForm(h);
      form != [] && ReadInt(form + rest, Representation(h.indexing).1) == Ok((NameIndex(h), |form|)) &&
      (if h.indexing == With then 0x40 <= form[0] < 0x80 else form[0] < 0x20)
  {
    var (pattern, bits) := Representation(h.indexing);
    RepresentationOk(h.indexing);
    IntegerRoundTrip(NameIndex(h), bits, pattern, rest);
    assert Pow2(4) == 16 && Pow2(6) == 64;
    var max := MaxPrefix(bits);
    PrefixByte(pattern, if NameIndex(h) < max then NameIndex(h) else max, bits);
    hide Or, PatternOk, Pow2, ReadInt, Digits;
  }

  // A header that is not refused reads back as one literal with its indexing, exactly when
  // its strings are sendable; otherwise another field is read, if any.
  lemma HeaderRoundTrip(h: Header, rest: seq<byte>, table: Table)
    requires Refusal(h).None?
    ensures HeaderForm(h) != []
    ensures var rep := ReadRep(HeaderForm(h) + rest, table);
      if Sendable(h) then rep == Ok((Literal(Received(h), h.indexing == With), |HeaderForm(h)|))
      else rep.Ok? ==> rep.value.0.Literal? && rep.value.0.field != Received(h)
  {
    var bits := Representation(h.indexing).1;
    hide IndexForm, ReadInt, StringForm, StringSendable, ReadLiteral, IsNameValid, IsValueValid, StaticEntry, ReadStr;
    IndexRoundTrip(h, HeaderForm(h)[|IndexForm(h)|..] + rest);
    assert HeaderForm(h) + rest == IndexForm(h) + (HeaderForm(h)[|IndexForm(h)|..] + rest);
    LiteralRoundTrip(h, rest, table);
  }

  lemma LiteralRoundTrip(h: Header, rest: seq<byte>, table: Table)
    requires Refusal(h).None?
    ensures var r := ReadLiteral(HeaderForm(h) + rest, Representation(h.indexing).1, table.entries);
      if Sendable(h) then r == Ok((Received(h), |HeaderForm(h)|)) else r.Ok? ==> r.value.0 != Received(h)
  {
    hide IndexForm, ReadInt, StringForm, StringSendable, ReadStr, IsNameValid, IsValueValid, StaticEntry;
    var index := IndexForm(h);
    var name := if NameIndex(h) == 0 then StringForm(h.name, h.huffmanName, h.lengthBloatName) else [];
    var value := StringForm(h.value, h.huffmanValue, h.lengthBloatValue);
    var s := HeaderForm(h) + rest;
    assert s == index + (name + (value + rest));
    IndexRoundTrip(h, name + (value + rest));
    assert s[|index|..] == name + (value + rest);
    if NameIndex(h) == 0 {
      StringRoundTrip(h.name, h.huffmanName, h.lengthBloatName, value + rest);
    }
    if NameIndex(h) != 0 || StringSendable(h.name, h.huffmanName, h.lengthBloatName) {
      assert s[|index| + |name|..] == value + rest;
      StringRoundTrip(h.value, h.huffmanValue, h.lengthBloatValue, rest);
    }
  }

  // ---- round trip of header lists ----

  function ReceivedAll(headers: seq<Header>): (fields: seq<Field>)
    requires forall i :: 0 <= i < |headers| ==> Refusal(headers[i]).None?
    ensures |fields| == |headers|
    ensures forall i :: 0 <= i < |headers| ==> fields[i] == Received(headers[i])
  {
    seq(|headers|, i requires 0 <= i < |headers| => Received(headers[i]))
  }

  // The headers sent with incremental indexing, inserted in order.
  function InsertedAll(table: Table, headers: seq<Header>): Table
    requires forall i :: 0 <= i < |headers| ==> Refusal(headers[i]).None?
    decreases |headers|
  {
    if headers == [] then table
    else
      var table' := if headers[0].indexing == With then Inserted(table, Received(headers[0])) else table;
      InsertedAll(table', headers[1..])
  }

  // Decoding what the encoder made gives the headers back, from any decoder state and
  // for every choice of indexing and Huffman coding, exactly when their strings are
  // sendable, and leaves exactly the indexed headers inserted.
  lemma {:induction false} BlockRoundTrip(headers: seq<Header>, base: nat, table: Table)
    requires Block(headers).Ok?
    ensures forall i :: 0 <= i < |headers| ==> Refusal(headers[i]).None?
    ensures var o := Decoded(Block(headers).value, base, table);
      (o.result == Ok(ReceivedAll(headers)) <==> AllSendable(headers)) &&
      (AllSendable(headers) ==> o.table == InsertedAll(table, headers))
  {
    hide HeaderForm, Refusal, ReadRep, Sendable, Received, Inserted;
    BlockRefused(headers);
    if headers != [] {
      var h, rest := headers[0], headers[1..];
      var tail := Block(rest).value;
      var form := HeaderForm(h);
      assert Block(headers).value == form + tail;
      HeaderRoundTrip(h, tail, table);
      assert ReceivedAll(headers) == [Received(h)] + ReceivedAll(rest);
      if Sendable(h) {
        assert (form + tail)[|form|..] == tail;
        var rep := Literal(Received(h), h.indexing == With);
        BlockRoundTrip(rest, base + |form|, Applied(table, rep));
        SendableRest(headers);
        AfterFirst(rep, Decoded(tail, base + |form|, Applied(table, rep)), ReceivedAll(rest));
      } else if ReadRep(form + tail, table).Ok? {
        var (rep, p) := ReadRep(form + tail, table).value;
        FirstDiffers(rep, Decoded((form + tail)[p..], base + p, Applied(table, rep)), ReceivedAll(headers));
      }
    }
  }

  ghost predicate AllSendable(headers: seq<Header>) {
    forall i :: 0 <= i < |headers| ==> Sendable(headers[i])
  }

  lemma SendableRest(headers: seq<Header>)
    requires headers != [] && Sendable(headers[0])
    ensures AllSendable(headers) <==> AllSendable(headers[1..])
  {
    hide Sendable;
    assert forall i :: 1 <= i < |headers| ==> headers[i] == headers[1..][i - 1];
  }

  lemma AfterFirst(rep: Rep, rest: Outcome, fields: seq<Field>)
    requires rep.Literal?
    ensures After(rep, rest).result == Ok([rep.field] + fields) <==> rest.result == Ok(fields)
  {
    if rest.result.Ok? {
      assert ([rep.field] + rest.result.value)[1..] == rest.result.value;
      assert ([rep.field] + fields)[1..] == fields;
    }
  }

  lemma FirstDiffers(rep: Rep, rest: Outcome, fields: seq<Field>)
    requires rep.Literal? && fields != [] && rep.field != fields[0]
    ensures After(rep, rest).result != Ok(fields)
  {
    if rest.result.Ok? {
      assert ([rep.field] + rest.result.value)[0] == rep.field;
    }
  }

  // ---- decoding is local ----

  lemma {:induction false} ReadMoreLocal(s: seq<byte>, t: seq<byte>, p: nat, value: nat, shift: nat)
    requires p <= |s| && ReadMore(s, p, value, shift).Ok?
    ensures ReadMore(s + t, p, value, shift) == ReadMore(s, p, value, shift)
    decreases |s| - p
  {
    hide Low, Shl;
    assert (s + t)[p] == s[p];
    if s[p] >= 128 {
      ReadMoreLocal(s, t, p + 1, value + Low(Shl(s[p] % 128, shift), 32), shift + 7);
    }
  }

  lemma ReadIntLocal(s: seq<byte>, t: seq<byte>, n: nat)
    requires 1 <= n <= 8 && ReadInt(s, n).Ok?
    ensures ReadInt(s + t, n) == ReadInt(s, n)
  {
    hide Low, ReadMore;
    assert (s + t)[0] == s[0];
    if Low(s[0], n) >= MaxPrefix(n) {
      ReadMoreLocal(s, t, 1, MaxPrefix(n), 0);
    }
  }

  lemma ReadStrLocal(s: seq<byte>, t: seq<byte>)
    requires ReadStr(s).Ok?
    ensures ReadStr(s + t) == ReadStr(s)
  {
    hide ReadInt, Huffman.Decoding;
    ReadIntLocal(s, t, 7);
    var (length, start) := ReadInt(s, 7).value;
    assert (s + t)[start..start + length] == s[start..start + length];
  }

  lemma ReadLiteralLocal(s: seq<byte>, t: seq<byte>, n: nat, entries: seq<Field>)
    requires 1 <= n <= 8 && ReadLiteral(s, n, entries).Ok?
    ensures ReadLiteral(s + t, n, entries) == ReadLiteral(s, n, entries)
  {
    hide ReadInt, ReadStr, Lookup;
    ReadIntLocal(s, t, n);
    var (idx, p) := ReadInt(s, n).value;
    assert (s + t)[p..] == s[p..] + t;
    if idx == 0 {
      ReadStrLocal(s[p..], t);
    }
    var (name, q) := ReadName(s, p, idx, entries).value;
    assert (s + t)[q..] == s[q..] + t;
    ReadStrLocal(s[q..], t);
  }

  lemma ReadRepLocal(s: seq<byte>, t: seq<byte>, table: Table)
    requires s != [] && ReadRep(s, table).Ok?
    ensures ReadRep(s + t, table) == ReadRep(s, table)
  {
    hide ReadInt, ReadLiteral, Lookup;
    assert (s + t)[0] == s[0];
    if s[0] >= 0x80 {
      ReadIntLocal(s, t, 7);
    } else if s[0] >= 0x40 {
      ReadLiteralLocal(s, t, 6, table.entries);
    } else if s[0] >= 0x20 {
      ReadIntLocal(s, t, 5);
    } else {
      ReadLiteralLocal(s, t, 4, table.entries);
    }
  }

  // Decoding distributes over concatenation: after a block that decodes, what follows
  // decodes as a block of its own from the table left behind.
  lemma {:induction false} DecodedConcat(a: seq<byte>, b: seq<byte>, base: nat, table: Table)
    requires Decoded(a, base, table).result.Ok?
    ensures var first := Decoded(a, base, table);
      Decoded(a + b, base, table)
      == Done(first.result.value, first.inserted, Decoded(b, base + |a|, first.table))
    decreases |a|
  {
    hide ReadRep, Applied, Emitted, Insertions, Done, After;
    if a == [] {
      assert a + b == b;
      DoneNothing(Decoded(b, base, table));
    } else {
      var (rep, p) := ReadRep(a, table).value;
      ReadRepLocal(a, b, table);
      assert (a + b)[p..] == a[p..] + b;
      var table' := Applied(table, rep);
      var rest := Decoded(a[p..], base + p, table');
      AfterOk(rep, rest);
      DecodedConcat(a[p..], b, base + p, table');
      var second := Decoded(b, base + |a|, rest.table);
      AfterDone(rep, rest.result.value, rest.inserted, second);
    }
  }

  lemma AfterOk(rep: Rep, rest: Outcome)
    ensures After(rep, rest).result.Ok? <==> rest.result.Ok?
    ensures rest.result.Ok? ==>
      After(rep, rest) == Outcome(Ok(Emitted(rep) + rest.result.value), rest.table, rest.inserted + Insertions(rep))
  {
  }

  lemma AfterDone(rep: Rep, out: seq<Field>, inserted: seq<Field>, o: Outcome)
    ensures After(rep, Done(out, inserted, o)) == Done(Emitted(rep) + out, inserted + Insertions(rep), o)
  {
    if o.result.Ok? {
      assert Emitted(rep) + (out + o.result.value) == Emitted(rep) + out + o.result.value;
    }
    assert o.inserted + inserted + Insertions(rep) == o.inserted + (inserted + Insertions(rep));
  }

  // Where a block starts changes nothing but the positions in errors.
  lemma {:induction false} DecodedBase(s: seq<byte>, base: nat, offset: nat, table: Table)
    ensures var here, there := Decoded(s, base, table), Decoded(s, offset + base, table);
      there.table == here.table && there.inserted == here.inserted &&
      there.result == match here.result case Ok(f) => Ok(f) case Err(e) => Err(MovedError(e, offset))
    decreases |s|
  {
    hide ReadRep, Applied, Emitted, Insertions;
    if s != [] && ReadRep(s, table).Ok? {
      var (rep, p) := ReadRep(s, table).value;
      DecodedBase(s[p..], base + p, offset, Applied(table, rep));
    }
  }

  // ---- the table is a function of the history ----

  // After any block, decoded to the end or not, the table is the longest prefix of the
  // history that fits the maximum, and the maximum has not grown.
  lemma {:induction false} DecodedFits(s: seq<byte>, base: nat, table: Table, history: seq<Field>)
    requires table.entries == Fit(history, table.max)
    ensures var o := Decoded(s, base, table);
      o.table.max <= table.max && o.table.entries == Fit(o.inserted + history, o.table.max)
    decreases |s|
  {
    hide ReadRep, Fit, TableSize, Applied, Insertions, After;
    if s == [] || ReadRep(s, table).Err? {
      assert [] + history == history;
    } else {
      var (rep, p) := ReadRep(s, table).value;
      RepFits(s, rep, p, table, history);
      DecodedFits(s[p..], base + p, Applied(table, rep), Insertions(rep) + history);
      AfterHistory(rep, Decoded(s[p..], base + p, Applied(table, rep)), history);
    }
  }

  lemma AfterHistory(rep: Rep, rest: Outcome, history: seq<Field>)
    ensures After(rep, rest).table == rest.table
    ensures After(rep, rest).inserted + history == rest.inserted + (Insertions(rep) + history)
  {
  }

  lemma RepFits(s: seq<byte>, rep: Rep, p: nat, table: Table, history: seq<Field>)
    requires s != [] && ReadRep(s, table) == Ok((rep, p)) && table.entries == Fit(history, table.max)
    ensures Applied(table, rep).max <= table.max
    ensures Applied(table, rep).entries == Fit(Insertions(rep) + history, Applied(table, rep).max)
  {
    hide ReadInt, ReadLiteral, Lookup, Fit, TableSize;
    match rep
    case Indexed(_) =>
      assert [] + history == history;
    case Literal(f, indexing) =>
      FitInsert(history, table.max, f);
      assert [] + history == history;
    case SizeUpdate(max) =>
      FitFit(history, table.max, max);
      assert [] + history == history;
  }

  // A run of blocks: the table and the history they leave.
  ghost function Run(blocks: seq<seq<byte>>, table: Table, history: seq<Field>): (Table, seq<Field>) {
    if blocks == [] then (table, history)
    else
      var o := Decoded(blocks[0], 0, table);
      Run(blocks[1..], o.table, o.inserted + history)
  }

  lemma {:induction false} RunFits(blocks: seq<seq<byte>>, table: Table, history: seq<Field>)
    requires table.entries == Fit(history, table.max)
    ensures var (table', history') := Run(blocks, table, history);
      table'.max <= table.max && table'.entries == Fit(history', table'.max)
  {
    hide Decoded, Fit;
    if blocks != [] {
      var o := Decoded(blocks[0], 0, table);
      DecodedFits(blocks[0], 0, table, history);
      RunFits(blocks[1..], o.table, o.inserted + history);
    }
  }

  // ---- addressing the dynamic table ----

  // The indexed representation of an index, section 6.1 of RFC 7541.
  function Reference(idx: nat): seq<byte> {
    FlagOk(0x80);
    IntegerForm(idx, 7, 0x80, 0)
  }

  lemma ReadReference(idx: nat, base: nat, table: Table)
    requires idx < U32
    ensures Decoded(Reference(idx), base, table).table == table
    ensures Decoded(Reference(idx), base, table).result
         == match Lookup(table.entries, idx) case Ok(f) => Ok([f]) case Err(e) => Err(e)
  {
    FlagOk(0x80);
    LengthRoundTrip(idx, 0x80, 0, []);
    hide ReadInt, IntegerForm, Lookup, Decoded;
    var s := Reference(idx);
    assert s + [] == s;
    LookupErrors(table.entries, idx);
    DecodedOne(s, base, table);
  }

  // A block of one representation.
  lemma DecodedOne(s: seq<byte>, base: nat, table: Table)
    requires s != [] && (ReadRep(s, table).Ok? ==> ReadRep(s, table).value.1 == |s|)
    ensures var r := ReadRep(s, table);
      Decoded(s, base, table) ==
        if r.Err? then Outcome(Err(MovedError(r.error, base)), table, [])
        else Outcome(Ok(Emitted(r.value.0)), Applied(table, r.value.0), Insertions(r.value.0))
  {
    hide ReadRep, Applied, Emitted, Insertions;
    if ReadRep(s, table).Ok? {
      var rep := ReadRep(s, table).value.0;
      assert Decoded(s[|s|..], base + |s|, Applied(table, rep)) == Outcome(Ok([]), Applied(table, rep), []);
      assert Emitted(rep) + [] == Emitted(rep) && [] + Insertions(rep) == Insertions(rep);
    }
  }

  // What a lookup refuses has no position in the block.
  lemma LookupErrors(entries: seq<Field>, idx: nat)
    ensures Lookup(entries, idx).Err? ==> Lookup(entries, idx).error == InvalidIndex(idx)
  {
    hide StaticEntry;
  }

  // After any block, the field inserted k insertions ago, in this block or in the history
  // before it, is what index 62 + k means as long as it is kept; an index past the kept
  // fields is refused.
  lemma ReferBack(s: seq<byte>, base: nat, table: Table, history: seq<Field>, k: nat)
    requires table.entries == Fit(history, table.max) && 62 + k < U32
    requires Decoded(s, base, table).result.Ok?
    ensures var o := Decoded(s, base, table); var all := o.inserted + history;
      var later := Decoded(s + Reference(62 + k), base, table);
      |Fit(all, o.table.max)| <= |all| && later.table == o.table &&
      later.result == if k < |Fit(all, o.table.max)| then Ok(o.result.value + [all[k]]) else Err(InvalidIndex(62 + k))
  {
    hide Decoded, Fit, Reference, TableSize;
    var o := Decoded(s, base, table);
    var all := o.inserted + history;
    DecodedFits(s, base, table, history);
    assert o.table.entries <= all;
    DecodedConcat(s, Reference(62 + k), base, table);
    ReadReference(62 + k, base + |s|, o.table);
    assert Lookup(o.table.entries, 62 + k)
        == if k < |o.table.entries| then Ok(all[k]) else Err(InvalidIndex(62 + k));
  }

  // A header sent for indexing that fits the table can be sent again as the single byte 0xBE.
  lemma RepeatHeader(h: Header, base: nat, table: Table, history: seq<Field>)
    requires table.entries == Fit(history, table.max)
    requires Refusal(h).None? && Sendable(h) && h.indexing == With && EntrySize(Received(h)) <= table.max
    ensures Decoded(HeaderForm(h) + [0xBE], base, table).result == Ok([Received(h), Received(h)])
  {
    hide HeaderForm, Refusal, Sendable, Received, ReadRep, Fit, TableSize, Reference, Decoded;
    var s := HeaderForm(h);
    HeaderRoundTrip(h, [], table);
    assert s + [] == s;
    var f := Received(h);
    DecodedOne(s, base, table);
    FitCons(f, history, table.max);
    assert [f] + [f] == [f, f];
    ReferBack(s, base, table, history, 0);
    FirstReference();
  }

  lemma FirstReference()
    ensures Reference(62) == [0xBE]
  {
    FlagOk(0x80);
    FullPrefix7();
    hide Or, Low, Pow2, PatternOk;
    PrefixByte(0x80, 62, 7);
  }
}
