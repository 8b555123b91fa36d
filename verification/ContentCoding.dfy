// Reading a response body up to a cap and peeling its content codings.
module ContentCoding {
  import opened Wrappers
  import opened Bits
  import opened Text

  type Bytes = seq<byte>

  // What a decompressor makes of its input: the bytes it yields, and whether the stream
  // then ends cleanly or fails.
  datatype Stream = Stream(output: Bytes, clean: bool)

  datatype Coders = Coders(
    gzip: Bytes -> Stream,
    zlib: Bytes -> Stream,
    rawDeflate: Bytes -> Stream,
    brotli: Bytes -> Stream)

  datatype Codec = Gzip | Deflate | Brotli | Identity

  datatype Reason =
    | Unsupported(token: string)
    | NothingInflated(codec: Codec)
    | NotClean(codec: Codec)
    | Layers(peeled: nat, declared: nat, why: Reason)

  datatype Inflated = Whole(bytes: Bytes) | Partial(bytes: Bytes, why: Reason) | Failed(why: Reason)

  datatype Decoded = Decoded(body: Bytes, decodeError: Option<Reason>)

  // ---- one coding ----

  function FromToken(token: string): Option<Codec> {
    if token == "gzip" || token == "x-gzip" then Some(Gzip)
    else if token == "deflate" then Some(Deflate)
    else if token == "br" then Some(Brotli)
    else if token == "identity" then Some(Identity)
    else None
  }

  // At most max bytes of a stream; reaching the cap reads as a clean end.
  function ReadBounded(s: Stream, max: nat, codec: Codec): (r: Inflated)
    ensures !r.Failed? ==> |r.bytes| <= max
  {
    if |s.output| >= max then Whole(s.output[..max])
    else if s.clean then Whole(s.output)
    else if s.output == [] then Failed(NothingInflated(codec))
    else Partial(s.output, NotClean(codec))
  }

  predicate HasZlibHeader(data: Bytes) {
    |data| >= 2 && data[0] % 16 == 8 && (data[0] as int * 256 + data[1] as int) % 31 == 0
  }

  function DecodeDeflate(coders: Coders, data: Bytes, max: nat): (r: Inflated)
    ensures !r.Failed? ==> |r.bytes| <= max
  {
    var zlibFirst := HasZlibHeader(data);
    var first := ReadBounded(if zlibFirst then coders.zlib(data) else coders.rawDeflate(data), max, Deflate);
    if !first.Failed? then first
    else
      var second := ReadBounded(if zlibFirst then coders.rawDeflate(data) else coders.zlib(data), max, Deflate);
      if second.Failed? then first else second
  }

  function DecodeOne(coders: Coders, codec: Codec, data: Bytes, max: nat): (r: Inflated)
    ensures !r.Failed? && !codec.Identity? ==> |r.bytes| <= max
  {
    match codec
    case Gzip => ReadBounded(coders.gzip(data), max, codec)
    case Deflate => DecodeDeflate(coders, data, max)
    case Brotli => ReadBounded(coders.brotli(data), max, codec)
    case Identity => Whole(data)
  }

  // ---- the list of codings ----

  // The non-identity codings of a header value in order, or the first unknown token.
  function Codecs(pieces: seq<string>): Result<seq<Codec>, string> {
    if pieces == [] then Ok([])
    else
      match Codecs(pieces[..|pieces| - 1])
      case Err(token) => Err(token)
      case Ok(codecs) =>
        var token := Trim(pieces[|pieces| - 1]);
        if token == [] then Ok(codecs)
        else match FromToken(token)
          case None => Err(token)
          case Some(codec) => Ok(if codec.Identity? then codecs else codecs + [codec])
  }

  lemma {:induction false} CodecsReal(pieces: seq<string>)
    ensures Codecs(pieces).Ok? ==> forall c :: c in Codecs(pieces).value ==> !c.Identity?
  {
    hide FromToken, Trim;
    if pieces != [] {
      CodecsReal(pieces[..|pieces| - 1]);
    }
  }

  lemma {:induction false} CodecsPrefix(pieces: seq<string>, n: nat)
    requires n <= |pieces| && Codecs(pieces[..n]).Err?
    ensures Codecs(pieces) == Err(Codecs(pieces[..n]).error)
  {
    hide FromToken, Trim;
    if n < |pieces| {
      assert pieces[..|pieces| - 1][..n] == pieces[..n];
      CodecsPrefix(pieces[..|pieces| - 1], n);
    } else {
      assert pieces[..n] == pieces;
    }
  }

  // ---- peeling ----

  // The layers under the outermost, innermost last to come off: the bytes in hand, the
  // first complaint so far, and how many have come off.
  function Peel(coders: Coders, codecs: seq<Codec>, out: Bytes, incomplete: Option<Reason>,
                peeled: nat, declared: nat, max: nat): Decoded
  {
    if codecs == [] then Decoded(out, incomplete)
    else
      match DecodeOne(coders, codecs[|codecs| - 1], out, max)
      case Whole(next) => Peel(coders, codecs[..|codecs| - 1], next, incomplete, peeled + 1, declared, max)
      case Partial(next, why) =>
        Peel(coders, codecs[..|codecs| - 1], next, if incomplete.Some? then incomplete else Some(why),
             peeled + 1, declared, max)
      case Failed(why) => Decoded(out, Some(Layers(peeled, declared, why)))
  }

  // The whole list, outermost coding last.
  function Decompressed(coders: Coders, encoding: string, data: Bytes, max: nat): Decoded {
    if data == [] then Decoded([], None)
    else
      match Codecs(Split(encoding, ','))
      case Err(token) => Decoded(data, Some(Unsupported(token)))
      case Ok(codecs) =>
        if codecs == [] then Decoded(data, None)
        else
          var rest := codecs[..|codecs| - 1];
          match DecodeOne(coders, codecs[|codecs| - 1], data, max)
          case Whole(out) => Peel(coders, rest, out, None, 1, |codecs|, max)
          case Partial(out, why) => Peel(coders, rest, out, Some(why), 1, |codecs|, max)
          case Failed(why) => Decoded(data, Some(why))
  }

  method Decompress(coders: Coders, encoding: string, data: Bytes, maxSize: nat) returns (r: Decoded)
    ensures r == Decompressed(coders, encoding, data, maxSize)
  {
    hide DecodeOne, FromToken, Trim, Split;
    if data == [] {
      return Decoded([], None);
    }
    var codecs: seq<Codec> := [];
    var pieces := Split(encoding, ',');
    assert Codecs(pieces[..0]) == Ok([]);
    for i := 0 to |pieces|
      invariant Codecs(pieces[..i]) == Ok(codecs)
    {
      assert pieces[..i + 1][..i] == pieces[..i];
      var token := Trim(pieces[i]);
      if token == [] {
        continue;
      }
      var codec := FromToken(token);
      if codec.None? {
        CodecsPrefix(pieces, i + 1);
        return Decoded(data, Some(Unsupported(token)));
      }
      if !codec.value.Identity? {
        codecs := codecs + [codec.value];
      }
    }
    assert pieces[..|pieces|] == pieces;
    var declared := |codecs|;
    if declared == 0 {
      return Decoded(data, None);
    }
    var incomplete: Option<Reason> := None;
    var out;
    match DecodeOne(coders, codecs[declared - 1], data, maxSize) {
      case Whole(next) => out := next;
      case Partial(next, why) =>
        incomplete := Some(why);
        out := next;
      case Failed(why) => return Decoded(data, Some(why));
    }
    var peeled := 1;
    var remaining := declared - 1;
    while remaining > 0
      invariant 0 <= remaining < declared && peeled == declared - remaining
      invariant Decompressed(coders, encoding, data, maxSize)
             == Peel(coders, codecs[..remaining], out, incomplete, peeled, declared, maxSize)
    {
      var codec := codecs[remaining - 1];
      assert codecs[..remaining][..remaining - 1] == codecs[..remaining - 1];
      remaining := remaining - 1;
      match DecodeOne(coders, codec, out, maxSize) {
        case Whole(next) =>
          out := next;
          peeled := peeled + 1;
        case Partial(next, why) =>
          out := next;
          peeled := peeled + 1;
          incomplete := if incomplete.Some? then incomplete else Some(why);
        case Failed(why) =>
          return Decoded(out, Some(Layers(peeled, declared, why)));
      }
    }
    assert codecs[..0] == [];
    return Decoded(out, incomplete);
  }

  // ---- how far peeling gets ----

  // Layers from the outermost down to k come off, in whole or in part: outs[i] is what is
  // left once layers i and above are off.
  ghost predicate ComesOff(coders: Coders, codecs: seq<Codec>, outs: seq<Bytes>, k: nat, max: nat) {
    k <= |codecs| && |outs| == |codecs| + 1 &&
    forall i :: k <= i < |codecs| ==>
      var r := DecodeOne(coders, codecs[i], outs[i + 1], max); !r.Failed? && r.bytes == outs[i]
  }

  // The complaint of the outermost layer from n - 1 down to k that came off in part.
  ghost function Complaint(coders: Coders, codecs: seq<Codec>, outs: seq<Bytes>, k: nat, n: nat, max: nat): Option<Reason>
    requires k <= n <= |codecs| && |outs| == |codecs| + 1
  {
    if n == k then None
    else
      match DecodeOne(coders, codecs[n - 1], outs[n], max)
      case Partial(_, why) => Some(why)
      case _ => Complaint(coders, codecs, outs, k, n - 1, max)
  }

  lemma {:induction false} PeelFrom(coders: Coders, codecs: seq<Codec>, outs: seq<Bytes>, k: nat, n: nat, max: nat,
                                    incomplete: Option<Reason>, peeled: nat, declared: nat)
    requires ComesOff(coders, codecs, outs, k, max) && k <= n <= |codecs|
    requires k == 0 || DecodeOne(coders, codecs[k - 1], outs[k], max).Failed?
    ensures Peel(coders, codecs[..n], outs[n], incomplete, peeled, declared, max) ==
      if k == 0 then Decoded(outs[0], if incomplete.Some? then incomplete else Complaint(coders, codecs, outs, 0, n, max))
      else Decoded(outs[k], Some(Layers(peeled + (n - k), declared, DecodeOne(coders, codecs[k - 1], outs[k], max).why)))
    decreases n
  {
    hide DecodeOne;
    if n > k {
      assert codecs[..n][..n - 1] == codecs[..n - 1];
      var r := DecodeOne(coders, codecs[n - 1], outs[n], max);
      var next := if incomplete.Some? || r.Whole? then incomplete else Some(r.why);
      PeelFrom(coders, codecs, outs, k, n - 1, max, next, peeled + 1, declared);
    } else if k > 0 {
      assert codecs[..k][..k - 1] == codecs[..k - 1];
    }
  }

  // The body is what is left when the first layer fails, or all are off. The complaint is
  // that layer's, with how many came off, or else that of the outermost one to come off only
  // in part.
  lemma PeelsDeepest(coders: Coders, encoding: string, codecs: seq<Codec>, outs: seq<Bytes>, k: nat, max: nat)
    requires Codecs(Split(encoding, ',')) == Ok(codecs) && codecs != []
    requires ComesOff(coders, codecs, outs, k, max) && outs[|codecs|] != []
    requires k == 0 || DecodeOne(coders, codecs[k - 1], outs[k], max).Failed?
    ensures Decompressed(coders, encoding, outs[|codecs|], max) ==
      if k == 0 then Decoded(outs[0], Complaint(coders, codecs, outs, 0, |codecs|, max))
      else
        var why := DecodeOne(coders, codecs[k - 1], outs[k], max).why;
        Decoded(outs[k], Some(if k == |codecs| then why else Layers(|codecs| - k, |codecs|, why)))
  {
    hide DecodeOne, Split, Codecs, Peel;
    var n := |codecs|;
    if k < n {
      var r := DecodeOne(coders, codecs[n - 1], outs[n], max);
      PeelFrom(coders, codecs, outs, k, n - 1, max, if r.Whole? then None else Some(r.why), 1, n);
    }
  }

  // ---- when the result is content ----

  // Every layer comes off whole, outermost first, and body is what is left.
  ghost predicate ComesOffWhole(coders: Coders, codecs: seq<Codec>, data: Bytes, body: Bytes, max: nat) {
    if codecs == [] then body == data
    else match DecodeOne(coders, codecs[|codecs| - 1], data, max)
      case Whole(next) => ComesOffWhole(coders, codecs[..|codecs| - 1], next, body, max)
      case Partial(_, _) => false
      case Failed(_) => false
  }

  lemma {:induction false} PeelIsContent(coders: Coders, codecs: seq<Codec>, out: Bytes, incomplete: Option<Reason>,
                                         peeled: nat, declared: nat, body: Bytes, max: nat)
    ensures Peel(coders, codecs, out, incomplete, peeled, declared, max) == Decoded(body, None)
      <==> incomplete.None? && ComesOffWhole(coders, codecs, out, body, max)
  {
    hide DecodeOne;
    if codecs != [] {
      var rest := codecs[..|codecs| - 1];
      match DecodeOne(coders, codecs[|codecs| - 1], out, max)
      case Whole(next) => PeelIsContent(coders, rest, next, incomplete, peeled + 1, declared, body, max);
      case Partial(next, why) =>
        PeelIsContent(coders, rest, next, if incomplete.Some? then incomplete else Some(why),
                      peeled + 1, declared, body, max);
      case Failed(_) =>
    }
  }

  ghost predicate IsContent(coders: Coders, encoding: string, data: Bytes, body: Bytes, max: nat) {
    if data == [] then body == []
    else
      var codecs := Codecs(Split(encoding, ','));
      codecs.Ok? && ComesOffWhole(coders, codecs.value, data, body, max)
  }

  // The result is free of a decode error, with a given body, exactly when there was no
  // data, or every token is known and every coding comes off whole to that body.
  lemma ContentExactly(coders: Coders, encoding: string, data: Bytes, body: Bytes, max: nat)
    ensures Decompressed(coders, encoding, data, max) == Decoded(body, None)
      <==> IsContent(coders, encoding, data, body, max)
  {
    hide DecodeOne, Split, Codecs;
    if data != [] && Codecs(Split(encoding, ',')).Ok? {
      var all := Codecs(Split(encoding, ',')).value;
      if all != [] {
        var rest := all[..|all| - 1];
        match DecodeOne(coders, all[|all| - 1], data, max)
        case Whole(out) => PeelIsContent(coders, rest, out, None, 1, |all|, body, max);
        case Partial(out, why) => PeelIsContent(coders, rest, out, Some(why), 1, |all|, body, max);
        case Failed(_) =>
      }
    }
  }

  // ---- recovery ----

  // coded is plain under one coding: its decoder reads it whole. A deflate body may be
  // bare; if it then looks like zlib by coincidence, the zlib decoder makes nothing of it.
  ghost predicate Codes(coders: Coders, codec: Codec, plain: Bytes, coded: Bytes) {
    match codec
    case Gzip => coders.gzip(coded) == Stream(plain, true)
    case Brotli => coders.brotli(coded) == Stream(plain, true)
    case Deflate =>
      (HasZlibHeader(coded) && coders.zlib(coded) == Stream(plain, true)) ||
      (coders.rawDeflate(coded) == Stream(plain, true) &&
       (HasZlibHeader(coded) ==> coders.zlib(coded) == Stream([], false)))
    case Identity => coded == plain
  }

  // layers[0] is the content and each following layer is the one before it, coded once more.
  ghost predicate Layered(coders: Coders, codecs: seq<Codec>, layers: seq<Bytes>) {
    |layers| == |codecs| + 1 &&
    forall i :: 0 <= i < |codecs| ==> Codes(coders, codecs[i], layers[i], layers[i + 1])
  }

  lemma DecodesWhole(coders: Coders, codec: Codec, plain: Bytes, coded: Bytes, max: nat)
    requires Codes(coders, codec, plain, coded) && |plain| <= max
    ensures DecodeOne(coders, codec, coded, max) == Whole(plain)
  {
  }

  lemma {:induction false} LayersComeOff(coders: Coders, codecs: seq<Codec>, layers: seq<Bytes>, max: nat)
    requires Layered(coders, codecs, layers)
    requires forall i :: 0 <= i < |codecs| ==> |layers[i]| <= max
    ensures ComesOffWhole(coders, codecs, layers[|codecs|], layers[0], max)
  {
    hide DecodeOne, Codes;
    var n := |codecs|;
    if n > 0 {
      DecodesWhole(coders, codecs[n - 1], layers[n - 1], layers[n], max);
      LayersComeOff(coders, codecs[..n - 1], layers[..n], max);
    }
  }

  // A body built by applying the listed codings in order is recovered whenever every
  // intermediate fits the cap (an empty wire body stands for empty content only).
  lemma Recovered(coders: Coders, encoding: string, codecs: seq<Codec>, layers: seq<Bytes>, max: nat)
    requires Codecs(Split(encoding, ',')) == Ok(codecs) && Layered(coders, codecs, layers)
    requires forall i :: 0 <= i < |codecs| ==> |layers[i]| <= max
    requires layers[|codecs|] == [] ==> layers[0] == []
    ensures Decompressed(coders, encoding, layers[|codecs|], max) == Decoded(layers[0], None)
  {
    hide Decompressed, ComesOffWhole;
    LayersComeOff(coders, codecs, layers, max);
    ContentExactly(coders, encoding, layers[|codecs|], layers[0], max);
  }

  // ---- what the header says ----

  // One more token, spaces around it aside: the names of the codings, in order.
  lemma TokenAppended(encoding: string, token: string)
    requires ',' !in token
    ensures Codecs(Split(encoding + "," + token, ',')) ==
      var before, t := Codecs(Split(encoding, ',')), Trim(token);
      if before.Err? || t == "" || t == "identity" then before
      else if t == "gzip" || t == "x-gzip" then Ok(before.value + [Gzip])
      else if t == "deflate" then Ok(before.value + [Deflate])
      else if t == "br" then Ok(before.value + [Brotli])
      else Err(t)
  {
    hide Split, Trim;
    var pieces := Split(encoding, ',');
    assert encoding + "," + token == encoding + [','] + token;
    SplitAppend(encoding, token, ',');
    SplitNone(token, ',');
    assert (pieces + [token])[..|pieces + [token]| - 1] == pieces;
  }

  lemma NoTokens()
    ensures Codecs(Split("", ',')) == Ok([])
  {
    assert Trim("") == "";
    assert Codecs([""][..0]) == Ok([]);
  }

  // ---- what one decoder's stream comes to ----

  // The bytes kept of a stream, and whether they count as its whole content: at most max of
  // them, whole when the stream ended cleanly or filled the cap; nothing when not a byte came
  // of it.
  function Kept(s: Stream, max: nat): Option<(Bytes, bool)> {
    if s.output == [] && !s.clean && max > 0 then None
    else Some((s.output[..if |s.output| < max then |s.output| else max], s.clean || |s.output| >= max))
  }

  // The bytes handed on, and whether they are content: of a single coding that comes off at
  // all, what is kept of it; the body as it arrived otherwise.
  ghost predicate ComesTo(d: Decoded, kept: Option<(Bytes, bool)>, data: Bytes) {
    match kept
    case None => d.body == data && d.decodeError.Some?
    case Some((bytes, whole)) => d.body == bytes && (d.decodeError.None? <==> whole)
  }

  ghost predicate Keeps(r: Inflated, kept: Option<(Bytes, bool)>) {
    match r
    case Whole(out) => kept == Some((out, true))
    case Partial(out, _) => kept == Some((out, false))
    case Failed(_) => kept == None
  }

  lemma BoundedKept(s: Stream, max: nat, codec: Codec)
    ensures Keeps(ReadBounded(s, max, codec), Kept(s, max))
  {
    assert s.output[..|s.output|] == s.output;
  }

  // The first two bytes of a zlib stream (RFC 1950, section 2.2): compression method 8 in the
  // low half of the first, and a multiple of 31 together.
  lemma ZlibHeaderExactly(info: nat, compression: nat, flags: byte, rest: Bytes)
    requires info < 16 && compression < 16
    ensures HasZlibHeader([16 * info + compression, flags] + rest)
      <==> compression == 8 && (0x1000 * info + 0x100 * compression + flags) % 31 == 0
    ensures !HasZlibHeader([]) && !HasZlibHeader([flags])
  {
    var data := [16 * info + compression, flags] + rest;
    assert data[0] == 16 * info + compression && data[1] == flags;
  }

  lemma DeflateKept(coders: Coders, data: Bytes, max: nat)
    ensures var zlib, raw := Kept(coders.zlib(data), max), Kept(coders.rawDeflate(data), max);
      Keeps(DecodeDeflate(coders, data, max), if (HasZlibHeader(data) && zlib.Some?) || raw.None? then zlib else raw)
  {
    BoundedKept(coders.zlib(data), max, Deflate);
    BoundedKept(coders.rawDeflate(data), max, Deflate);
    hide Kept, ReadBounded, HasZlibHeader;
  }

  lemma OneLayer(coders: Coders, encoding: string, codec: Codec, data: Bytes, max: nat, kept: Option<(Bytes, bool)>)
    requires data != [] && Codecs(Split(encoding, ',')) == Ok([codec])
    requires Keeps(DecodeOne(coders, codec, data, max), kept)
    ensures ComesTo(Decompressed(coders, encoding, data, max), kept, data)
  {
    hide Split, Codecs, DecodeOne;
    assert [codec][..|[codec]| - 1] == [];
  }

  // A body under one coding comes to what is kept of its decoder's stream. For deflate the
  // stream is the one the first two bytes point at, unless nothing comes of it and something
  // does of the other.
  lemma SingleCoding(coders: Coders, encoding: string, codec: Codec, data: Bytes, max: nat)
    requires data != [] && Codecs(Split(encoding, ',')) == Ok([codec])
    ensures var d := Decompressed(coders, encoding, data, max);
      var zlib, raw := Kept(coders.zlib(data), max), Kept(coders.rawDeflate(data), max);
      match codec
      case Gzip => ComesTo(d, Kept(coders.gzip(data), max), data)
      case Brotli => ComesTo(d, Kept(coders.brotli(data), max), data)
      case Deflate => ComesTo(d, if (HasZlibHeader(data) && zlib.Some?) || raw.None? then zlib else raw, data)
      case Identity => true
  {
    hide Split, Codecs, Kept, ReadBounded, DecodeDeflate, Decompressed, HasZlibHeader, ComesTo;
    var zlib, raw := Kept(coders.zlib(data), max), Kept(coders.rawDeflate(data), max);
    match codec
    case Gzip =>
      BoundedKept(coders.gzip(data), max, Gzip);
      OneLayer(coders, encoding, codec, data, max, Kept(coders.gzip(data), max));
    case Brotli =>
      BoundedKept(coders.brotli(data), max, Brotli);
      OneLayer(coders, encoding, codec, data, max, Kept(coders.brotli(data), max));
    case Deflate =>
      DeflateKept(coders, data, max);
      OneLayer(coders, encoding, codec, data, max, if (HasZlibHeader(data) && zlib.Some?) || raw.None? then zlib else raw);
    case Identity =>
  }

  // ---- the cap ----

  lemma {:induction false} PeelBounded(coders: Coders, codecs: seq<Codec>, out: Bytes, incomplete: Option<Reason>,
                                       peeled: nat, declared: nat, max: nat)
    requires |out| <= max && forall c :: c in codecs ==> !c.Identity?
    ensures |Peel(coders, codecs, out, incomplete, peeled, declared, max).body| <= max
  {
    hide DecodeOne;
    if codecs != [] {
      var rest := codecs[..|codecs| - 1];
      match DecodeOne(coders, codecs[|codecs| - 1], out, max)
      case Whole(next) => PeelBounded(coders, rest, next, incomplete, peeled + 1, declared, max);
      case Partial(next, why) =>
        PeelBounded(coders, rest, next, if incomplete.Some? then incomplete else Some(why), peeled + 1, declared, max);
      case Failed(_) =>
    }
  }

  lemma DecompressedBounded(coders: Coders, encoding: string, data: Bytes, max: nat)
    requires |data| <= max
    ensures |Decompressed(coders, encoding, data, max).body| <= max
  {
    hide DecodeOne, Split, Codecs;
    CodecsReal(Split(encoding, ','));
    if data != [] && Codecs(Split(encoding, ',')).Ok? {
      var codecs := Codecs(Split(encoding, ',')).value;
      if codecs != [] {
        var rest := codecs[..|codecs| - 1];
        match DecodeOne(coders, codecs[|codecs| - 1], data, max)
        case Whole(out) => PeelBounded(coders, rest, out, None, 1, |codecs|, max);
        case Partial(out, why) => PeelBounded(coders, rest, out, Some(why), 1, |codecs|, max);
        case Failed(_) =>
      }
    }
  }

  // ---- reading the body ----

  datatype BodyFrame = Data(chunk: Bytes) | Trailers | Broken

  // The body bytes up to the first broken frame.
  function Payload(frames: seq<BodyFrame>): Bytes {
    if frames == [] || frames[0].Broken? then []
    else (if frames[0].Data? then frames[0].chunk else []) + Payload(frames[1..])
  }

  // Each data frame adds its bytes, trailers none, and nothing counts after a broken frame.
  lemma {:induction false} PayloadAppended(frames: seq<BodyFrame>, f: BodyFrame)
    ensures Payload(frames + [f]) == Payload(frames) + if Broken !in frames && f.Data? then f.chunk else []
  {
    var all := frames + [f];
    if frames == [] {
      assert all[1..] == [] && Payload(all[1..]) == [];
    } else {
      assert all[0] == frames[0] && all[1..] == frames[1..] + [f];
      assert frames == [frames[0]] + frames[1..];
      PayloadAppended(frames[1..], f);
    }
  }

  // The first max bytes, and whether the cap cut the body; a broken frame only matters
  // if the cap is not passed before it.
  function BodyOf(frames: seq<BodyFrame>, max: nat): Option<(Bytes, bool)> {
    var all := Payload(frames);
    if |all| > max then Some((all[..max], true))
    else if Broken in frames then None
    else Some((all, false))
  }

  method ReadBody(frames: seq<BodyFrame>, maxSize: nat) returns (r: Option<(Bytes, bool)>)
    ensures r == BodyOf(frames, maxSize)
  {
    var out: Bytes := [];
    assert frames[0..] == frames && out + Payload(frames) == Payload(frames);
    for i := 0 to |frames|
      invariant |out| <= maxSize && Payload(frames) == out + Payload(frames[i..])
      invariant Broken !in frames[..i]
    {
      assert frames[i..][1..] == frames[i + 1..] && frames[..i + 1] == frames[..i] + [frames[i]];
      match frames[i] {
        case Broken =>
          assert out + [] == out;
          return None;
        case Trailers =>
          assert [] + Payload(frames[i + 1..]) == Payload(frames[i + 1..]);
          continue;
        case Data(chunk) =>
          var rest := Payload(frames[i + 1..]);
          assert out + (chunk + rest) == out + chunk + rest;
          if chunk == [] {
            assert out + chunk == out;
            continue;
          }
          var room := maxSize - |out|;
          if |chunk| > room {
            assert (out + chunk + rest)[..maxSize] == out + chunk[..room];
            out := out + chunk[..room];
            return Some((out, true));
          }
          out := out + chunk;
      }
    }
    assert frames[|frames|..] == [] && frames[..|frames|] == frames && out + [] == out;
    return Some((out, false));
  }

  // Whatever arrives, the final body never exceeds the cap.
  method ParseBody(coders: Coders, encoding: string, frames: seq<BodyFrame>, maxBody: nat)
    returns (r: Option<Decoded>)
    ensures r == match BodyOf(frames, maxBody)
      case None => None
      case Some((raw, _)) =>
        Some(if encoding == [] then Decoded(raw, None) else Decompressed(coders, encoding, raw, maxBody))
    ensures r.Some? ==> |r.value.body| <= maxBody
  {
    hide Decompressed, Payload;
    var read := ReadBody(frames, maxBody);
    if read.None? {
      return None;
    }
    var (raw, cut) := read.value;
    if encoding == [] {
      return Some(Decoded(raw, None));
    }
    DecompressedBounded(coders, encoding, raw, maxBody);
    var decoded := Decompress(coders, encoding, raw, maxBody);
    return Some(decoded);
  }
}
