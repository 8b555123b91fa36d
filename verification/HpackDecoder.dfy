// The stateful header-block decoder.
module HpackDecoder {
  import opened Wrappers
  import opened Bits
  import Huffman
  import opened HpackTypes
  import opened HpackInteger
  import opened HpackStaticTable
  import opened HpackTable

  // ---- what a block means, given a table ----

  function LiftHuffman(r: Result<seq<byte>, Huffman.HuffmanError>): Result<seq<byte>, DecodeError> {
    match r
    case Ok(s) => Ok(s)
    case Err(e) => Err(HuffmanFailed(e))
  }

  // A string literal at the start of s.
  ghost function ReadStr(s: seq<byte>): (r: Result<(seq<byte>, nat), DecodeError>)
    ensures r.Ok? ==> 0 < r.value.1 <= |s|
  {
    if s == [] then Err(UnexpectedEof(0)) else
      match ReadInt(s, 7)
      case Err(e) => Err(e)
      case Ok((length, start)) =>
        var end := start + length;
        if end > |s| then Err(UnexpectedEof(end))
        else
          var bytes := if s[0] >= 128 then LiftHuffman(Huffman.Decoding(s[start..end])) else Ok(s[start..end]);
          match bytes
          case Ok(b) => Ok((b, end))
          case Err(e) => Err(e)
  }

  // The name of a literal field: by index, or a string.
  ghost function ReadName(s: seq<byte>, p: nat, idx: nat, entries: seq<Field>)
    : (r: Result<(seq<byte>, nat), DecodeError>)
    requires p <= |s|
    ensures r.Ok? ==> p <= r.value.1 <= |s|
  {
    if idx == 0 then Moved(ReadStr(s[p..]), p)
    else match Lookup(entries, idx)
      case Ok(f) => Ok((f.0, p))
      case Err(e) => Err(e)
  }

  // A literal field with an n-bit name index.
  ghost function ReadLiteral(s: seq<byte>, n: nat, entries: seq<Field>): (r: Result<(Field, nat), DecodeError>)
    requires 1 <= n <= 8
    ensures r.Ok? ==> 0 < r.value.1 <= |s|
  {
    match ReadInt(s, n)
    case Err(e) => Err(e)
    case Ok((idx, p)) =>
      match ReadName(s, p, idx, entries)
      case Err(e) => Err(e)
      case Ok((name, q)) =>
        match Moved(ReadStr(s[q..]), q)
        case Err(e) => Err(e)
        case Ok((value, end)) => Ok(((name, value), end))
  }

  // One representation, section 6 of RFC 7541.
  datatype Rep =
    | Indexed(field: Field)
    | Literal(field: Field, indexing: bool)
    | SizeUpdate(max: nat)

  ghost function ReadRep(s: seq<byte>, table: Table): (r: Result<(Rep, nat), DecodeError>)
    requires s != []
    ensures r.Ok? ==> 0 < r.value.1 <= |s|
  {
    if s[0] >= 0x80 then
      match ReadInt(s, 7)
      case Err(e) => Err(e)
      case Ok((idx, p)) =>
        match Lookup(table.entries, idx)
        case Ok(f) => Ok((Indexed(f), p))
        case Err(e) => Err(e)
    else if s[0] >= 0x40 then
      match ReadLiteral(s, 6, table.entries)
      case Err(e) => Err(e)
      case Ok((f, p)) => Ok((Literal(f, true), p))
    else if s[0] >= 0x20 then
      match ReadInt(s, 5)
      case Err(e) => Err(e)
      case Ok((size, p)) =>
        if size > table.max then Err(TableSizeTooLarge(size, table.max)) else Ok((SizeUpdate(size), p))
    else
      match ReadLiteral(s, 4, table.entries)
      case Err(e) => Err(e)
      case Ok((f, p)) => Ok((Literal(f, false), p))
  }

  function Applied(table: Table, rep: Rep): Table {
    match rep
    case Indexed(_) => table
    case Literal(f, indexing) => if indexing then Inserted(table, f) else table
    case SizeUpdate(max) => Resized(table, max)
  }

  function Emitted(rep: Rep): seq<Field> {
    if rep.SizeUpdate? then [] else [rep.field]
  }

  function Insertions(rep: Rep): seq<Field> {
    if rep.Literal? && rep.indexing then [rep.field] else []
  }

  // The outcome of a block: its fields or its first error, the table left behind, and
  // the fields submitted for insertion, newest first.
  datatype Outcome = Outcome(result: Result<seq<Field>, DecodeError>, table: Table, inserted: seq<Field>)

  ghost function Decoded(s: seq<byte>, base: nat, table: Table): (o: Outcome)
    decreases |s|
  {
    if s == [] then Outcome(Ok([]), table, []) else
      match ReadRep(s, table)
      case Err(e) => Outcome(Err(MovedError(e, base)), table, [])
      case Ok((rep, p)) => After(rep, Decoded(s[p..], base + p, Applied(table, rep)))
  }

  // A first representation, then an outcome.
  function After(rep: Rep, rest: Outcome): Outcome {
    Outcome(Before(Emitted(rep), rest.result), rest.table, rest.inserted + Insertions(rep))
  }

  function Before(out: seq<Field>, r: Result<seq<Field>, DecodeError>): Result<seq<Field>, DecodeError> {
    match r
    case Ok(fields) => Ok(out + fields)
    case Err(e) => Err(e)
  }

  // ---- readers ----

  method ReadString(buf: seq<byte>, pos: nat) returns (r: Result<(seq<byte>, nat), DecodeError>)
    ensures r == if pos > |buf| then Err(UnexpectedEof(pos)) else Moved(ReadStr(buf[pos..]), pos)
  {
    hide ReadInt, Huffman.Decoding;
    if pos >= |buf| {
      return Err(UnexpectedEof(pos));
    }
    var huffman := buf[pos] >= 0x80;
    var integer := ReadInteger(buf, pos, 7);
    if integer.Err? {
      return Err(integer.error);
    }
    var (length, newPos) := integer.value;
    var end := newPos + length;
    if end > |buf| {
      return Err(UnexpectedEof(end));
    }
    var raw := buf[newPos..end];
    assert raw == buf[pos..][newPos - pos..end - pos];
    if huffman {
      var bytes := Huffman.Decode(raw);
      if bytes.Err? {
        return Err(HuffmanFailed(bytes.error));
      }
      return Ok((bytes.value, end));
    }
    return Ok((raw, end));
  }

  // Strings grow by at most 8/5 when decoded.
  lemma StringLength(s: seq<byte>)
    ensures ReadStr(s).Ok? ==> 5 * |ReadStr(s).value.0| <= 8 * ReadStr(s).value.1
  {
    hide Huffman.Decoding, ReadInt;
    if ReadStr(s).Ok? {
      var (length, start) := ReadInt(s, 7).value;
      Huffman.DecodedLength(s[start..start + length]);
    }
  }

  const MAX_BLOCK: nat := 0x4000_0000
  const MAX_TABLE: nat := 0x8000_0000

  // With tables under 2 GiB and blocks up to 1 GiB, a literal's size fits a 32-bit word.
  lemma LiteralSize(s: seq<byte>, n: nat, entries: seq<Field>)
    requires 1 <= n <= 8 && |s| <= MAX_BLOCK && TableSize(entries) < MAX_TABLE
    ensures ReadLiteral(s, n, entries).Ok? ==> EntrySize(ReadLiteral(s, n, entries).value.0) < U32
  {
    hide ReadInt, ReadStr, StaticEntry;
    if ReadLiteral(s, n, entries).Ok? {
      var (idx, p) := ReadInt(s, n).value;
      var (name, q) := ReadName(s, p, idx, entries).value;
      StringLength(s[p..]);
      StringLength(s[q..]);
      if idx > STATIC_LEN {
        EntryInTable(entries, idx - 1 - STATIC_LEN);
      }
    }
  }

  // Every insertion the block asks for is computed exactly on 32-bit words.
  ghost predicate ExactBlock(s: seq<byte>, table: Table)
    decreases |s|
  {
    s == [] ||
    match ReadRep(s, table)
    case Err(_) => true
    case Ok((rep, p)) => ExactRep(rep, table) && ExactBlock(s[p..], Applied(table, rep))
  }

  predicate ExactRep(rep: Rep, table: Table) {
    rep.Literal? && rep.indexing ==> Exact(table, rep.field)
  }

  // Blocks up to 1 GiB and tables under 2 GiB are always within it.
  lemma {:induction false} SmallBlocksExact(s: seq<byte>, table: Table)
    requires |s| <= MAX_BLOCK && TableSize(table.entries) <= table.max < MAX_TABLE
    ensures ExactBlock(s, table)
    decreases |s|
  {
    hide ReadRep, Applied, ExactRep, TableSize;
    if s != [] && ReadRep(s, table).Ok? {
      var (rep, p) := ReadRep(s, table).value;
      RepExact(s, rep, p, table);
      SmallBlocksExact(s[p..], Applied(table, rep));
    }
  }

  lemma RepExact(s: seq<byte>, rep: Rep, p: nat, table: Table)
    requires s != [] && |s| <= MAX_BLOCK && TableSize(table.entries) <= table.max < MAX_TABLE
    requires ReadRep(s, table) == Ok((rep, p))
    ensures ExactRep(rep, table)
    ensures TableSize(Applied(table, rep).entries) <= Applied(table, rep).max <= table.max
  {
    hide ReadInt, ReadLiteral, Lookup, Fit, TableSize, EntrySize;
    if rep.Literal? && rep.indexing {
      LiteralSize(s, 6, table.entries);
    }
  }

  // ---- the decoder ----

  class Decoder {
    var dynamicTable: seq<Field>
    var dynamicTableSize: nat
    var maxTableSize: nat
    // Every field ever submitted for insertion, newest first.
    ghost var history: seq<Field>

    ghost predicate Valid()
      reads this
    {
      dynamicTable == Fit(history, maxTableSize) &&
      dynamicTableSize == TableSize(dynamicTable) &&
      maxTableSize < U32
    }

    ghost function State(): Table
      reads this
    {
      Table(dynamicTable, maxTableSize)
    }

    constructor ()
      ensures Valid() && State() == Table([], 4096) && history == []
    {
      dynamicTable := [];
      dynamicTableSize := 0;
      maxTableSize := 4096;
      history := [];
    }

    constructor WithMaxTableSize(max: nat)
      requires max < U32
      ensures Valid() && State() == Table([], max) && history == []
    {
      dynamicTable := [];
      dynamicTableSize := 0;
      maxTableSize := max;
      history := [];
    }

    function LookupIndex(idx: nat): (r: Result<Field, DecodeError>)
      reads this
      ensures r == Lookup(dynamicTable, idx)
    {
      if idx == 0 then Err(InvalidIndex(0))
      else if idx <= STATIC_LEN then Ok(StaticEntry(idx))
      else
        var dynIdx := idx - 1 - STATIC_LEN;
        if dynIdx < |dynamicTable| then Ok(dynamicTable[dynIdx]) else Err(InvalidIndex(idx))
    }

    // Evict the oldest entries until what is left leaves room, as far as 32-bit words tell.
    method Evict(room: nat, ghost was: seq<Field>)
      requires dynamicTable == was && dynamicTableSize == TableSize(was) < U32 && room <= maxTableSize < U32
      requires TableSize(was) + room >= U32 ==> TableSize(was) <= maxTableSize
      modifies this`dynamicTable, this`dynamicTableSize
      ensures dynamicTable == if TableSize(was) + room >= U32 then was else Fit(was, maxTableSize - room)
      ensures dynamicTableSize == TableSize(dynamicTable)
    {
      hide Fit, TableSize;
      ghost var limit := maxTableSize - room;
      if TableSize(was) + room < U32 {
        FitShorter(was, limit);
      }
      while (dynamicTableSize + room) % U32 > maxTableSize
        invariant dynamicTable <= was && dynamicTableSize == TableSize(dynamicTable) <= TableSize(was)
        invariant if TableSize(was) + room >= U32 then dynamicTable == was else |Fit(was, limit)| <= |dynamicTable|
        decreases |dynamicTable|
      {
        OverMax(dynamicTableSize, TableSize(was), room, maxTableSize);
        EvictStep(was, limit, dynamicTable);
        if |dynamicTable| > 0 {
          var (n, v) := dynamicTable[|dynamicTable| - 1];
          dynamicTable := dynamicTable[..|dynamicTable| - 1];
          dynamicTableSize := dynamicTableSize - (|n| + |v| + 32) % U32;
        } else {
          break;
        }
      }
      OverMax(dynamicTableSize, TableSize(was), room, maxTableSize);
      if TableSize(was) + room < U32 {
        EvictEnd(was, limit, dynamicTable);
      }
    }

    // The table and its size become what 32-bit words make of them; they are right exactly
    // when the sizes did not wrap (HpackTable.WrappedExact).
    method AddToDynamicTable(name: seq<byte>, value: seq<byte>)
      requires Valid()
      modifies this
      ensures State() == WrappedInsert(old(State()), (name, value))
      ensures dynamicTableSize == TableSize(dynamicTable) % U32
      ensures history == [(name, value)] + old(history)
      ensures Exact(old(State()), (name, value)) ==> Valid() && State() == Inserted(old(State()), (name, value))
    {
      hide Fit, TableSize, Inserted, Exact;
      var f: Field := (name, value);
      if Exact(State(), f) {
        ExactInsert(history, maxTableSize, f);
      }
      history := [f] + history;
      var entrySize := (|name| + |value| + 32) % U32;
      if entrySize > maxTableSize {
        dynamicTable := [];
        dynamicTableSize := 0;
        SizeCons(f, []);
        return;
      }
      Evict(entrySize, dynamicTable);
      SizeCons(f, dynamicTable);
      WordSum(dynamicTableSize, EntrySize(f));
      dynamicTable := [f] + dynamicTable;
      dynamicTableSize := (dynamicTableSize + entrySize) % U32;
    }

    method ResizeTable(newSize: nat)
      requires Valid() && newSize <= maxTableSize
      modifies this
      ensures Valid() && State() == Resized(old(State()), newSize)
      ensures history == old(history) && maxTableSize == newSize
    {
      FitFit(history, maxTableSize, newSize);
      maxTableSize := newSize;
      Evict(0, dynamicTable);
    }

    // A literal field from pos on; nothing is changed.
    method ReadLiteralAt(block: seq<byte>, pos: nat, n: nat) returns (r: Result<(Field, nat), DecodeError>)
      requires pos < |block| && 1 <= n <= 8
      ensures r == Moved(ReadLiteral(block[pos..], n, dynamicTable), pos)
    {
      hide ReadInt, ReadStr, Lookup;
      ghost var s := block[pos..];
      var integer := ReadInteger(block, pos, n);
      if integer.Err? {
        return Err(integer.error);
      }
      var (idx, newPos) := integer.value;
      var name;
      if idx == 0 {
        assert block[newPos..] == s[newPos - pos..];
        var str := ReadString(block, newPos);
        if str.Err? {
          return Err(str.error);
        }
        name := str.value.0;
        newPos := str.value.1;
      } else {
        var entry := LookupIndex(idx);
        if entry.Err? {
          return Err(entry.error);
        }
        name := entry.value.0;
      }
      assert block[newPos..] == s[newPos - pos..];
      var str := ReadString(block, newPos);
      if str.Err? {
        return Err(str.error);
      }
      return Ok(((name, str.value.0), str.value.1));
    }

    // Decode one representation and apply it to the table: the body of the loop below.
    method DecodeOne(block: seq<byte>, pos: nat)
      returns (r: Result<(seq<Field>, nat), DecodeError>, ghost rep: Rep)
      requires Valid() && pos < |block|
      requires ReadRep(block[pos..], State()).Ok? ==> ExactRep(ReadRep(block[pos..], State()).value.0, State())
      modifies this
      ensures Valid() && maxTableSize <= old(maxTableSize)
      ensures match ReadRep(block[pos..], old(State()))
        case Err(e) => r == Err(MovedError(e, pos)) && State() == old(State()) && history == old(history)
        case Ok((rep', p)) =>
          rep == rep' && r == Ok((Emitted(rep), pos + p)) &&
          State() == Applied(old(State()), rep) && history == Insertions(rep) + old(history)
    {
      hide ReadInt, ReadLiteral, Lookup, Fit, TableSize, Inserted, Resized, EntrySize, Exact;
      var b := block[pos];
      ghost var s := block[pos..];
      rep := SizeUpdate(0);
      if b >= 0x80 {
        var integer := ReadInteger(block, pos, 7);
        if integer.Err? {
          return Err(integer.error), rep;
        }
        var (idx, newPos) := integer.value;
        var entry := LookupIndex(idx);
        if entry.Err? {
          return Err(entry.error), rep;
        }
        return Ok(([entry.value], newPos)), Indexed(entry.value);
      } else if b >= 0x40 {
        var field := ReadLiteralAt(block, pos, 6);
        if field.Err? {
          return Err(field.error), rep;
        }
        var ((name, value), newPos) := field.value;
        AddToDynamicTable(name, value);
        return Ok(([(name, value)], newPos)), Literal((name, value), true);
      } else if b >= 0x20 {
        var integer := ReadInteger(block, pos, 5);
        if integer.Err? {
          return Err(integer.error), rep;
        }
        var (newSize, newPos) := integer.value;
        if newSize > maxTableSize {
          return Err(TableSizeTooLarge(newSize, maxTableSize)), rep;
        }
        ResizeTable(newSize);
        return Ok(([], newPos)), SizeUpdate(newSize);
      } else {
        var field := ReadLiteralAt(block, pos, 4);
        if field.Err? {
          return Err(field.error), rep;
        }
        return Ok(([field.value.0], field.value.1)), Literal(field.value.0, false);
      }
    }

    // Decode one block. Whatever the result, the table stays the longest fitting prefix
    // of the history, and the maximum has not grown.
    method DecodeHeaders(block: seq<byte>) returns (r: Result<seq<Field>, DecodeError>)
      requires Valid() && ExactBlock(block, State())
      modifies this
      ensures Valid() && maxTableSize <= old(maxTableSize)
      ensures r == Decoded(block, 0, old(State())).result
      ensures State() == Decoded(block, 0, old(State())).table
      ensures history == Decoded(block, 0, old(State())).inserted + old(history)
    {
      hide ReadRep, Applied, Insertions, Emitted, Fit, TableSize, Done, ExactRep;
      ghost var table0, inserted := State(), [];
      var out: seq<Field> := [];
      var pos := 0;
      assert block[0..] == block;
      DoneNothing(Decoded(block, 0, table0));
      while pos < |block|
        invariant 0 <= pos <= |block| && Valid() && maxTableSize <= table0.max
        invariant ExactBlock(block[pos..], State())
        invariant Decoded(block, 0, table0) == Done(out, inserted, Decoded(block[pos..], pos, State()))
        invariant history == inserted + old(history)
        decreases |block| - pos
      {
        ghost var s := block[pos..];
        var one, rep := DecodeOne(block, pos);
        if one.Err? {
          DoneFailed(out, inserted, one.error, State());
          return Err(one.error);
        }
        var (fields, newPos) := one.value;
        assert block[newPos..] == s[newPos - pos..];
        DoneMore(out, inserted, rep, Decoded(block[newPos..], newPos, State()));
        inserted := Insertions(rep) + inserted;
        out := out + fields;
        pos := newPos;
      }
      DoneAll(out, inserted, State());
      return Ok(out);
    }
  }

  // Some output and insertions so far, then an outcome.
  ghost function Done(out: seq<Field>, inserted: seq<Field>, rest: Outcome): Outcome {
    Outcome(Before(out, rest.result), rest.table, rest.inserted + inserted)
  }

  lemma DoneNothing(o: Outcome)
    ensures Done([], [], o) == o
  {
    if o.result.Ok? {
      assert [] + o.result.value == o.result.value;
    }
    assert o.inserted + [] == o.inserted;
  }

  lemma DoneAll(out: seq<Field>, inserted: seq<Field>, table: Table)
    ensures Done(out, inserted, Outcome(Ok([]), table, [])) == Outcome(Ok(out), table, inserted)
  {
    assert out + [] == out && [] + inserted == inserted;
  }

  lemma DoneFailed(out: seq<Field>, inserted: seq<Field>, e: DecodeError, table: Table)
    ensures Done(out, inserted, Outcome(Err(e), table, [])) == Outcome(Err(e), table, inserted)
  {
    assert [] + inserted == inserted;
  }

  lemma DoneMore(out: seq<Field>, inserted: seq<Field>, rep: Rep, rest: Outcome)
    ensures Done(out, inserted, After(rep, rest)) == Done(out + Emitted(rep), Insertions(rep) + inserted, rest)
  {
    if rest.result.Ok? {
      assert out + (Emitted(rep) + rest.result.value) == out + Emitted(rep) + rest.result.value;
    }
    assert rest.inserted + Insertions(rep) + inserted == rest.inserted + (Insertions(rep) + inserted);
  }
}
