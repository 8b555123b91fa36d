// The dynamic table: sizes, eviction and lookup, sections 2.3 and 4 of RFC 7541.
module HpackTable {
  import opened Wrappers
  import opened Bits
  import opened HpackTypes
  import opened HpackStaticTable

  function EntrySize(f: Field): nat {
    |f.0| + |f.1| + 32
  }

  function TableSize(t: seq<Field>): nat {
    if t == [] then 0 else EntrySize(t[0]) + TableSize(t[1..])
  }

  // The longest prefix of h, newest first, whose size fits max (FitLongest).
  function Fit(h: seq<Field>, max: nat): (t: seq<Field>)
    ensures t <= h
    ensures TableSize(t) <= max
  {
    if h == [] || EntrySize(h[0]) > max then []
    else
      var rest := Fit(h[1..], max - EntrySize(h[0]));
      assert ([h[0]] + rest)[1..] == rest;
      [h[0]] + rest
  }

  datatype Table = Table(entries: seq<Field>, max: nat)

  function Inserted(t: Table, f: Field): Table {
    t.(entries := Fit([f] + t.entries, t.max))
  }

  function Resized(t: Table, max: nat): Table {
    Table(Fit(t.entries, max), max)
  }

  // What inserting does on 32-bit words: the size of the entry is cut to a word, and where
  // the sum of the sizes does not fit a word it wraps round, so that nothing is evicted.
  function WrappedInsert(t: Table, f: Field): Table {
    var size := EntrySize(f) % U32;
    if size > t.max then t.(entries := [])
    else if TableSize(t.entries) + size >= U32 then t.(entries := [f] + t.entries)
    else t.(entries := [f] + Fit(t.entries, t.max - size))
  }

  // The sizes are computed exactly, or the entry is refused anyway.
  predicate Exact(t: Table, f: Field) {
    if EntrySize(f) < U32 then EntrySize(f) > t.max || TableSize(t.entries) + EntrySize(f) < U32
    else EntrySize(f) % U32 > t.max
  }

  // Indices count from 1 through the static table and on into the dynamic one, newest first.
  function Lookup(entries: seq<Field>, idx: nat): Result<Field, DecodeError> {
    if idx == 0 then Err(InvalidIndex(0))
    else if idx <= STATIC_LEN then Ok(StaticEntry(idx))
    else if idx - 1 - STATIC_LEN < |entries| then Ok(entries[idx - 1 - STATIC_LEN])
    else Err(InvalidIndex(idx))
  }

  // ---- Fit is the longest prefix that fits ----

  lemma {:induction false} FitLongest(h: seq<Field>, max: nat, k: nat)
    requires k <= |h| && TableSize(h[..k]) <= max
    ensures k <= |Fit(h, max)|
  {
    if k > 0 {
      assert h[..k][0] == h[0] && h[..k][1..] == h[1..][..k - 1];
      FitLongest(h[1..], max - EntrySize(h[0]), k - 1);
    }
  }

  // Fitting a smaller bound after a larger one is fitting the smaller one.
  lemma {:induction false} FitFit(h: seq<Field>, max: nat, max': nat)
    requires max' <= max
    ensures Fit(Fit(h, max), max') == Fit(h, max')
  {
    if h != [] && EntrySize(h[0]) <= max {
      var rest := Fit(h[1..], max - EntrySize(h[0]));
      assert Fit(h, max) == [h[0]] + rest;
      assert Fit(h, max)[1..] == rest;
      if EntrySize(h[0]) <= max' {
        FitFit(h[1..], max - EntrySize(h[0]), max' - EntrySize(h[0]));
      }
    }
  }

  // What was already dropped never matters again: inserting into what fits is
  // inserting into the whole history.
  lemma {:induction false} FitInsert(h: seq<Field>, max: nat, f: Field)
    ensures Fit([f] + Fit(h, max), max) == Fit([f] + h, max)
  {
    assert ([f] + h)[1..] == h && ([f] + Fit(h, max))[1..] == Fit(h, max);
    if EntrySize(f) <= max {
      FitFit(h, max, max - EntrySize(f));
    }
  }

  lemma FitCons(f: Field, h: seq<Field>, max: nat)
    ensures Fit([f] + h, max) == if EntrySize(f) > max then [] else [f] + Fit(h, max - EntrySize(f))
    ensures TableSize([f] + h) == EntrySize(f) + TableSize(h)
  {
    assert ([f] + h)[1..] == h;
  }

  // Inserting f into the table kept for a history h: the new entry and what still fits.
  lemma InsertStep(h: seq<Field>, max: nat, f: Field)
    ensures Inserted(Table(Fit(h, max), max), f).max == max
    ensures var kept := Inserted(Table(Fit(h, max), max), f).entries;
      kept == Fit([f] + h, max) &&
      (if EntrySize(f) > max then kept == [] && TableSize(kept) == 0
       else
         var older := Fit(Fit(h, max), max - EntrySize(f));
         kept == [f] + older && TableSize(kept) == EntrySize(f) + TableSize(older))
  {
    FitInsert(h, max, f);
    FitCons(f, Fit(h, max), max);
    if EntrySize(f) <= max {
      FitCons(f, Fit(Fit(h, max), max - EntrySize(f)), max);
    }
  }

  // Section 4.1 of RFC 7541: an entry counts its name, its value and 32 bytes more. One alone
  // is kept if that fits; beside another, if both fit.
  lemma SizesExactly(f: Field, g: Field, max: nat)
    ensures var size := |f.0| + |f.1| + 32; var other := |g.0| + |g.1| + 32;
      Inserted(Table([], max), f).entries == (if size <= max then [f] else []) &&
      (other <= max ==>
        Inserted(Table([g], max), f).entries ==
          if size > max then [] else if size + other <= max then [f, g] else [f])
  {
    FitCons(f, [], max);
    assert [f] + [] == [f] && [f] + [g] == [f, g];
    FitCons(f, [g], max);
    if EntrySize(f) <= max {
      assert [g] == [g] + [];
      FitCons(g, [], max - EntrySize(f));
    }
  }

  // ---- sizes in 32-bit words ----

  // The code inserts as it should exactly when the sizes do not wrap.
  lemma WrappedExact(t: Table, f: Field)
    requires TableSize(t.entries) <= t.max < U32
    ensures WrappedInsert(t, f) == Inserted(t, f) <==> Exact(t, f)
  {
    FitCons(f, t.entries, t.max);
    hide Fit, TableSize;
    if EntrySize(f) < U32 && EntrySize(f) <= t.max {
      var kept := Fit(t.entries, t.max - EntrySize(f));
      if [f] + t.entries == [f] + kept {
        assert t.entries == ([f] + t.entries)[1..] == ([f] + kept)[1..] == kept;
      }
    }
  }

  lemma WordSum(a: nat, b: nat)
    ensures (a + b % U32) % U32 == (a + b) % U32
  {
  }

  // Whether a 32-bit sum of sizes exceeds the maximum.
  lemma OverMax(size: nat, total: nat, room: nat, max: nat)
    requires size <= total < U32 && room <= max < U32
    requires total + room >= U32 ==> size == total <= max
    ensures (size + room) % U32 > max <==> total + room < U32 && size > max - room
  {
  }

  // After an exact insertion the table is again what fits of the history, and its size is
  // not cut.
  lemma ExactInsert(h: seq<Field>, max: nat, f: Field)
    requires max < U32 && Exact(Table(Fit(h, max), max), f)
    ensures var t := WrappedInsert(Table(Fit(h, max), max), f);
      t == Inserted(Table(Fit(h, max), max), f) &&
      t.entries == Fit([f] + h, max) && TableSize(t.entries) % U32 == TableSize(t.entries)
  {
    WrappedExact(Table(Fit(h, max), max), f);
    InsertStep(h, max, f);
    hide TableSize;
  }

  // Two entries of 2 GiB in a table of 2 GiB: the sum wraps to 0, and both are kept.
  lemma WrapExample(half: nat, f: Field)
    requires half == 0x8000_0000 && EntrySize(f) == half
    ensures WrappedInsert(Table([f], half), f).entries == [f, f]
    ensures Inserted(Table([f], half), f).entries == [f]
  {
    var one := [f];
    assert TableSize(one) == EntrySize(f) + TableSize(one[1..]) == half;
    assert [f] + one == [f, f];
    FitCons(f, one, half);
    assert Fit(one, 0) == [];
  }

  // ---- eviction, one entry at a time ----

  lemma {:induction false} SizeAppend(a: seq<Field>, b: seq<Field>)
    ensures TableSize(a + b) == TableSize(a) + TableSize(b)
  {
    if a == [] {
      assert a + b == b;
    } else {
      assert (a + b)[0] == a[0] && (a + b)[1..] == a[1..] + b;
      SizeAppend(a[1..], b);
    }
  }

  lemma SizeCons(f: Field, t: seq<Field>)
    ensures TableSize([f] + t) == EntrySize(f) + TableSize(t)
    ensures TableSize([]) == 0
  {
    assert ([f] + t)[1..] == t;
  }

  lemma SizeLast(t: seq<Field>)
    requires t != []
    ensures TableSize(t) == TableSize(t[..|t| - 1]) + EntrySize(t[|t| - 1])
  {
    var last := [t[|t| - 1]];
    assert t == t[..|t| - 1] + last;
    SizeAppend(t[..|t| - 1], last);
    assert TableSize(last) == EntrySize(last[0]) + TableSize([]);
  }

  // Each entry of a table is at most as large as the table.
  lemma {:induction false} EntryInTable(t: seq<Field>, i: nat)
    requires i < |t|
    ensures EntrySize(t[i]) <= TableSize(t)
  {
    if i > 0 {
      EntryInTable(t[1..], i - 1);
    }
  }

  lemma FitShorter(h: seq<Field>, limit: nat)
    ensures |Fit(h, limit)| <= |h|
  {
  }

  // A prefix too large for the limit is longer than the longest one that fits, so
  // dropping its last entry does not drop too much.
  lemma EvictStep(h: seq<Field>, limit: nat, t: seq<Field>)
    requires t <= h && TableSize(t) > limit && |Fit(h, limit)| <= |t|
    ensures t != [] && |Fit(h, limit)| <= |t| - 1 && t[..|t| - 1] <= h
    ensures TableSize(t[..|t| - 1]) == TableSize(t) - EntrySize(t[|t| - 1])
  {
    hide Fit, TableSize;
    SizeLast(t);
    var f := Fit(h, limit);
    assert f == h[..|f|] && t == h[..|t|];
  }

  lemma EvictEnd(h: seq<Field>, limit: nat, t: seq<Field>)
    requires t <= h && TableSize(t) <= limit && |Fit(h, limit)| <= |t|
    ensures t == Fit(h, limit)
  {
    assert h[..|t|] == t;
    FitLongest(h, limit, |t|);
  }
}
