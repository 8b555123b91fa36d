// The static table of RFC 7541, Appendix A.
module HpackStaticTable {
  import opened Bits

  const STATIC_LEN: nat := 61

  function Ascii(s: string): (b: seq<byte>)
    ensures |b| == |s|
  {
    seq(|s|, i requires 0 <= i < |s| => s[i] as int % 256)
  }

  // Entries are numbered from 1.
  function StaticEntry(i: nat): (f: (seq<byte>, seq<byte>))
    requires 1 <= i <= STATIC_LEN
    ensures |f.0| <= 32 && |f.1| <= 32
  {
    var (name, value) :=
      if i <= 16 then Static1(i) else if i <= 32 then Static17(i) else if i <= 48 then Static33(i) else Static49(i);
    (Ascii(name), Ascii(value))
  }

  function Static1(i: nat): (f: (string, string))
    ensures |f.0| <= 32 && |f.1| <= 32
  {
    if i == 1 then (":authority", "") else if i == 2 then (":method", "GET") else
    if i == 3 then (":method", "POST") else if i == 4 then (":path", "/") else
    if i == 5 then (":path", "/index.html") else if i == 6 then (":scheme", "http") else
    if i == 7 then (":scheme", "https") else if i == 8 then (":status", "200") else
    if i == 9 then (":status", "204") else if i == 10 then (":status", "206") else
    if i == 11 then (":status", "304") else if i == 12 then (":status", "400") else
    if i == 13 then (":status", "404") else if i == 14 then (":status", "500") else
    if i == 15 then ("accept-charset", "") else ("accept-encoding", "gzip, deflate")
  }

  function Static17(i: nat): (f: (string, string))
    ensures |f.0| <= 32 && |f.1| <= 32
  {
    if i == 17 then ("accept-language", "") else if i == 18 then ("accept-ranges", "") else
    if i == 19 then ("accept", "") else if i == 20 then ("access-control-allow-origin", "") else
    if i == 21 then ("age", "") else if i == 22 then ("allow", "") else
    if i == 23 then ("authorization", "") else if i == 24 then ("cache-control", "") else
    if i == 25 then ("content-disposition", "") else if i == 26 then ("content-encoding", "") else
    if i == 27 then ("content-language", "") else if i == 28 then ("content-length", "") else
    if i == 29 then ("content-location", "") else if i == 30 then ("content-range", "") else
    if i == 31 then ("content-type", "") else ("cookie", "")
  }

  function Static33(i: nat): (f: (string, string))
    ensures |f.0| <= 32 && |f.1| <= 32
  {
    if i == 33 then ("date", "") else if i == 34 then ("etag", "") else
    if i == 35 then ("expect", "") else if i == 36 then ("expires", "") else
    if i == 37 then ("from", "") else if i == 38 then ("host", "") else
    if i == 39 then ("if-match", "") else if i == 40 then ("if-modified-since", "") else
    if i == 41 then ("if-none-match", "") else if i == 42 then ("if-range", "") else
    if i == 43 then ("if-unmodified-since", "") else if i == 44 then ("last-modified", "") else
    if i == 45 then ("link", "") else if i == 46 then ("location", "") else
    if i == 47 then ("max-forwards", "") else ("proxy-authenticate", "")
  }

  function Static49(i: nat): (f: (string, string))
    ensures |f.0| <= 32 && |f.1| <= 32
  {
    if i == 49 then ("proxy-authorization", "") else if i == 50 then ("range", "") else
    if i == 51 then ("referer", "") else if i == 52 then ("refresh", "") else
    if i == 53 then ("retry-after", "") else if i == 54 then ("server", "") else
    if i == 55 then ("set-cookie", "") else if i == 56 then ("strict-transport-security", "") else
    if i == 57 then ("transfer-encoding", "") else if i == 58 then ("user-agent", "") else
    if i == 59 then ("vary", "") else if i == 60 then ("via", "") else
    ("www-authenticate", "")
  }
}
