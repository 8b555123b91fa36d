// The static table told a second time, row by row, against which decoding is checked; and
// the proof that no two of its entries are the same.
module HpackStaticList {
  import opened Bits
  import opened HpackStaticTable

  type Row = (string, string)

  function Rows1(): (rows: seq<Row>)
    ensures |rows| == 8
  {
    [(":authority", ""), (":method", "GET"), (":method", "POST"), (":path", "/"), (":path", "/index.html"),
      (":scheme", "http"), (":scheme", "https"), (":status", "200")]
  }

  function Rows9(): (rows: seq<Row>)
    ensures |rows| == 8
  {
    [(":status", "204"), (":status", "206"), (":status", "304"), (":status", "400"), (":status", "404"),
      (":status", "500"), ("accept-charset", ""), ("accept-encoding", "gzip, deflate")]
  }

  function Rows17(): (rows: seq<Row>)
    ensures |rows| == 8
  {
    [("accept-language", ""), ("accept-ranges", ""), ("accept", ""), ("access-control-allow-origin", ""),
      ("age", ""), ("allow", ""), ("authorization", ""), ("cache-control", "")]
  }

  function Rows25(): (rows: seq<Row>)
    ensures |rows| == 8
  {
    [("content-disposition", ""), ("content-encoding", ""), ("content-language", ""), ("content-length", ""),
      ("content-location", ""), ("content-range", ""), ("content-type", ""), ("cookie", "")]
  }

  function Rows33(): (rows: seq<Row>)
    ensures |rows| == 8
  {
    [("date", ""), ("etag", ""), ("expect", ""), ("expires", ""), ("from", ""), ("host", ""),
      ("if-match", ""), ("if-modified-since", "")]
  }

  function Rows41(): (rows: seq<Row>)
    ensures |rows| == 8
  {
    [("if-none-match", ""), ("if-range", ""), ("if-unmodified-since", ""), ("last-modified", ""),
      ("link", ""), ("location", ""), ("max-forwards", ""), ("proxy-authenticate", "")]
  }

  function Rows49(): (rows: seq<Row>)
    ensures |rows| == 8
  {
    [("proxy-authorization", ""), ("range", ""), ("referer", ""), ("refresh", ""), ("retry-after", ""),
      ("server", ""), ("set-cookie", ""), ("strict-transport-security", "")]
  }

  function Rows57(): (rows: seq<Row>)
    ensures |rows| == 5
  {
    [("transfer-encoding", ""), ("user-agent", ""), ("vary", ""), ("via", ""), ("www-authenticate", "")]
  }

  // Row i of Appendix A of RFC 7541, numbered from 1.
  function Row61(i: nat): Row
    requires 1 <= i <= 61
  {
    if i <= 8 then Rows1()[i - 1]
    else if i <= 16 then Rows9()[i - 9]
    else if i <= 24 then Rows17()[i - 17]
    else if i <= 32 then Rows25()[i - 25]
    else if i <= 40 then Rows33()[i - 33]
    else if i <= 48 then Rows41()[i - 41]
    else if i <= 56 then Rows49()[i - 49]
    else Rows57()[i - 57]
  }

  function Listed(i: nat): (seq<byte>, seq<byte>)
    requires 1 <= i <= 61
  {
    (Ascii(Row61(i).0), Ascii(Row61(i).1))
  }

  lemma Agree1(i: nat)
    requires 1 <= i <= 8
    ensures Row61(i) == Static1(i)
  {
  }

  lemma Agree9(i: nat)
    requires 9 <= i <= 16
    ensures Row61(i) == Static1(i)
  {
  }

  lemma Agree17(i: nat)
    requires 17 <= i <= 24
    ensures Row61(i) == Static17(i)
  {
  }

  lemma Agree25(i: nat)
    requires 25 <= i <= 32
    ensures Row61(i) == Static17(i)
  {
  }

  lemma Agree33(i: nat)
    requires 33 <= i <= 40
    ensures Row61(i) == Static33(i)
  {
  }

  lemma Agree41(i: nat)
    requires 41 <= i <= 48
    ensures Row61(i) == Static33(i)
  {
  }

  lemma Agree49(i: nat)
    requires 49 <= i <= 56
    ensures Row61(i) == Static49(i)
  {
  }

  lemma Agree57(i: nat)
    requires 57 <= i <= 61
    ensures Row61(i) == Static49(i)
  {
  }

  // The table is the list.
  lemma TableIsListed(i: nat)
    requires 1 <= i <= 61
    ensures StaticEntry(i) == Listed(i)
  {
    hide Row61, Static1, Static17, Static33, Static49;
    if i <= 8 {
      Agree1(i);
    } else if i <= 16 {
      Agree9(i);
    } else if i <= 24 {
      Agree17(i);
    } else if i <= 32 {
      Agree25(i);
    } else if i <= 40 {
      Agree33(i);
    } else if i <= 48 {
      Agree41(i);
    } else if i <= 56 {
      Agree49(i);
    } else {
      Agree57(i);
    }
  }

  // ---- no two rows are the same ----

  function Code(c: char): nat {
    c as int % 256
  }

  // A number that tells the rows apart: lengths, first and last characters.
  function Mark(f: Row): nat {
    var (n, v) := f;
    (if n == [] then 0 else Code(n[0]) + 0x80 * Code(n[|n| - 1])) + 0x4000 * |n| + 0x10_0000 * |v|
    + (if v == [] then 0 else 0x400_0000 * Code(v[0]) + 0x2_0000_0000 * Code(v[|v| - 1]))
  }

  function MarkIndex(m: nat): nat {
    if m == 179386 then 1 else if m == 726322508346 then 2 else if m == 726927536698 then 3 else
    if m == 406882186298 then 4 else if m == 930878682170 then 5 else if m == 969056318138 then 6 else
    if m == 994827170490 then 7 else if m == 415675578810 then 8 else if m == 450035317178 then 9 else
    if m == 467215186362 then 10 else if m == 450102426042 then 11 else if m == 415809796538 then 12 else
    if m == 450169534906 then 13 else if m == 415876905402 then 14 else if m == 244321 then 15 else
    if m == 874509497313 then 16 else if m == 258785 then 17 else if m == 227809 then 18 else
    if m == 113249 then 19 else if m == 456545 then 20 else if m == 62177 then 21 else
    if m == 97249 then 22 else if m == 227169 then 23 else if m == 226915 then 24 else
    if m == 325475 then 25 else if m == 275427 then 26 else if m == 275171 then 27 else
    if m == 242787 then 28 else if m == 276323 then 29 else if m == 226019 then 30 else
    if m == 209635 then 31 else if m == 111331 then 32 else if m == 78564 then 33 else
    if m == 78821 then 34 else if m == 113253 then 35 else if m == 129509 then 36 else
    if m == 79590 then 37 else if m == 80488 then 38 else if m == 144489 then 39 else
    if m == 291561 then 40 else if m == 226409 then 41 else if m == 144105 then 42 else
    if m == 324329 then 43 else if m == 225900 then 44 else if m == 79340 then 45 else
    if m == 145260 then 46 else if m == 211437 then 47 else if m == 307952 then 48 else
    if m == 325488 then 49 else if m == 94962 then 50 else if m == 129394 then 51 else
    if m == 128114 then 52 else if m == 194930 then 53 else if m == 113011 then 54 else
    if m == 176883 then 55 else if m == 425203 then 56 else if m == 291828 then 57 else
    if m == 178805 then 58 else if m == 81142 then 59 else if m == 61686 then 60 else
    if m == 275191 then 61 else 0
  }

  // The marks of the rows.
  function MarkOf(i: nat): nat {
    if i == 1 then 179386 else if i == 2 then 726322508346 else if i == 3 then 726927536698 else
    if i == 4 then 406882186298 else if i == 5 then 930878682170 else if i == 6 then 969056318138 else
    if i == 7 then 994827170490 else if i == 8 then 415675578810 else if i == 9 then 450035317178 else
    if i == 10 then 467215186362 else if i == 11 then 450102426042 else if i == 12 then 415809796538 else
    if i == 13 then 450169534906 else if i == 14 then 415876905402 else if i == 15 then 244321 else
    if i == 16 then 874509497313 else if i == 17 then 258785 else if i == 18 then 227809 else
    if i == 19 then 113249 else if i == 20 then 456545 else if i == 21 then 62177 else
    if i == 22 then 97249 else if i == 23 then 227169 else if i == 24 then 226915 else
    if i == 25 then 325475 else if i == 26 then 275427 else if i == 27 then 275171 else
    if i == 28 then 242787 else if i == 29 then 276323 else if i == 30 then 226019 else
    if i == 31 then 209635 else if i == 32 then 111331 else if i == 33 then 78564 else
    if i == 34 then 78821 else if i == 35 then 113253 else if i == 36 then 129509 else
    if i == 37 then 79590 else if i == 38 then 80488 else if i == 39 then 144489 else
    if i == 40 then 291561 else if i == 41 then 226409 else if i == 42 then 144105 else
    if i == 43 then 324329 else if i == 44 then 225900 else if i == 45 then 79340 else
    if i == 46 then 145260 else if i == 47 then 211437 else if i == 48 then 307952 else
    if i == 49 then 325488 else if i == 50 then 94962 else if i == 51 then 129394 else
    if i == 52 then 128114 else if i == 53 then 194930 else if i == 54 then 113011 else
    if i == 55 then 176883 else if i == 56 then 425203 else if i == 57 then 291828 else
    if i == 58 then 178805 else if i == 59 then 81142 else if i == 60 then 61686 else
    275191
  }

  lemma Known1(i: nat)
    requires 1 <= i <= 16
    ensures MarkIndex(MarkOf(i)) == i
  {
  }

  lemma Known17(i: nat)
    requires 17 <= i <= 32
    ensures MarkIndex(MarkOf(i)) == i
  {
  }

  lemma Known33(i: nat)
    requires 33 <= i <= 48
    ensures MarkIndex(MarkOf(i)) == i
  {
  }

  lemma Known49(i: nat)
    requires 49 <= i <= 61
    ensures MarkIndex(MarkOf(i)) == i
  {
  }

  lemma Marked1(i: nat)
    requires 1 <= i <= 2
    ensures Mark(Row61(i)) == MarkOf(i)
  {
    hide MarkIndex;
  }

  lemma Marked3(i: nat)
    requires 3 <= i <= 4
    ensures Mark(Row61(i)) == MarkOf(i)
  {
    hide MarkIndex;
  }

  lemma Marked5(i: nat)
    requires 5 <= i <= 6
    ensures Mark(Row61(i)) == MarkOf(i)
  {
    hide MarkIndex;
  }

  lemma Marked7(i: nat)
    requires 7 <= i <= 8
    ensures Mark(Row61(i)) == MarkOf(i)
  {
    hide MarkIndex;
  }

  lemma Marked9(i: nat)
    requires 9 <= i <= 10
    ensures Mark(Row61(i)) == MarkOf(i)
  {
    hide MarkIndex;
  }

  lemma Marked11(i: nat)
    requires 11 <= i <= 12
    ensures Mark(Row61(i)) == MarkOf(i)
  {
    hide MarkIndex;
  }

  lemma Marked13(i: nat)
    requires 13 <= i <= 14
    ensures Mark(Row61(i)) == MarkOf(i)
  {
    hide MarkIndex;
  }

  lemma Marked15(i: nat)
    requires 15 <= i <= 16
    ensures Mark(Row61(i)) == MarkOf(i)
  {
    hide MarkIndex;
  }

  lemma Marked17(i: nat)
    requires 17 <= i <= 20
    ensures Mark(Row61(i)) == MarkOf(i)
  {
    hide MarkIndex;
  }

  lemma Marked21(i: nat)
    requires 21 <= i <= 24
    ensures Mark(Row61(i)) == MarkOf(i)
  {
    hide MarkIndex;
  }

  lemma Marked25(i: nat)
    requires 25 <= i <= 28
    ensures Mark(Row61(i)) == MarkOf(i)
  {
    hide MarkIndex;
  }

  lemma Marked29(i: nat)
    requires 29 <= i <= 32
    ensures Mark(Row61(i)) == MarkOf(i)
  {
    hide MarkIndex;
  }

  lemma Marked33(i: nat)
    requires 33 <= i <= 36
    ensures Mark(Row61(i)) == MarkOf(i)
  {
    hide MarkIndex;
  }

  lemma Marked37(i: nat)
    requires 37 <= i <= 40
    ensures Mark(Row61(i)) == MarkOf(i)
  {
    hide MarkIndex;
  }

  lemma Marked41(i: nat)
    requires 41 <= i <= 44
    ensures Mark(Row61(i)) == MarkOf(i)
  {
    hide MarkIndex;
  }

  lemma Marked45(i: nat)
    requires 45 <= i <= 48
    ensures Mark(Row61(i)) == MarkOf(i)
  {
    hide MarkIndex;
  }

  lemma Marked49(i: nat)
    requires 49 <= i <= 52
    ensures Mark(Row61(i)) == MarkOf(i)
  {
    hide MarkIndex;
  }

  lemma Marked53(i: nat)
    requires 53 <= i <= 56
    ensures Mark(Row61(i)) == MarkOf(i)
  {
    hide MarkIndex;
  }

  lemma Marked57(i: nat)
    requires 57 <= i <= 60
    ensures Mark(Row61(i)) == MarkOf(i)
  {
    hide MarkIndex;
  }

  lemma Marked61(i: nat)
    requires 61 <= i <= 61
    ensures Mark(Row61(i)) == MarkOf(i)
  {
    hide MarkIndex;
  }

  lemma Marked(i: nat)
    requires 1 <= i <= 61
    ensures Mark(Row61(i)) == MarkOf(i)
  {
    hide Row61, Mark, MarkOf;
    if i <= 2 {
      Marked1(i);
    } else if i <= 4 {
      Marked3(i);
    } else if i <= 6 {
      Marked5(i);
    } else if i <= 8 {
      Marked7(i);
    } else if i <= 10 {
      Marked9(i);
    } else if i <= 12 {
      Marked11(i);
    } else if i <= 14 {
      Marked13(i);
    } else if i <= 16 {
      Marked15(i);
    } else if i <= 20 {
      Marked17(i);
    } else if i <= 24 {
      Marked21(i);
    } else if i <= 28 {
      Marked25(i);
    } else if i <= 32 {
      Marked29(i);
    } else if i <= 36 {
      Marked33(i);
    } else if i <= 40 {
      Marked37(i);
    } else if i <= 44 {
      Marked41(i);
    } else if i <= 48 {
      Marked45(i);
    } else if i <= 52 {
      Marked49(i);
    } else if i <= 56 {
      Marked53(i);
    } else if i <= 60 {
      Marked57(i);
    } else {
      Marked61(i);
    }
  }

  lemma MarkKnown(i: nat)
    requires 1 <= i <= 61
    ensures MarkIndex(MarkOf(i)) == i
  {
    hide MarkIndex, MarkOf;
    if i <= 16 {
      Known1(i);
    } else if i <= 32 {
      Known17(i);
    } else if i <= 48 {
      Known33(i);
    } else {
      Known49(i);
    }
  }

  // The same bytes have the same mark.
  lemma SameMark(a: Row, b: Row)
    requires Ascii(a.0) == Ascii(b.0) && Ascii(a.1) == Ascii(b.1)
    ensures Mark(a) == Mark(b)
  {
    assert |a.0| == |Ascii(a.0)| == |b.0| && |a.1| == |Ascii(a.1)| == |b.1|;
    assert forall k :: 0 <= k < |a.0| ==> Code(a.0[k]) == Ascii(a.0)[k] == Code(b.0[k]);
    assert forall k :: 0 <= k < |a.1| ==> Code(a.1[k]) == Ascii(a.1)[k] == Code(b.1[k]);
  }

  lemma ListedDistinct(i: nat, j: nat)
    requires 1 <= i < j <= 61
    ensures Listed(i) != Listed(j)
  {
    hide Row61, Mark, MarkIndex, MarkOf, Ascii;
    Marked(i);
    Marked(j);
    MarkKnown(i);
    MarkKnown(j);
    if Listed(i) == Listed(j) {
      SameMark(Row61(i), Row61(j));
    }
  }
}
