// A whole request as one byte string, and a receiver that takes it apart again.
module Probe {
  import opened Wrappers
  import opened Bits
  import opened HpackTypes
  import opened HpackTable
  import opened HpackStaticTable
  import opened HpackEncoder
  import opened HpackDecoder
  import opened HpackProperties
  import opened Frames

  // The connection preface, PRI * HTTP/2.0 CRLF CRLF SM CRLF CRLF.
  function Preface(): (p: seq<byte>)
    ensures |p| == 24
  {
    Ascii("PRI * HTTP/2.0\r\n\r\nSM\r\n\r\n")
  }

  datatype ProbeOpts = ProbeOpts(
    sendPreface: bool,
    prefaceOverride: Option<seq<byte>>,
    settings: Option<seq<Setting>>,
    streamId: nat,
    body: Option<seq<byte>>,
    splitHeadersAfter: Option<nat>,
    padHeaders: byte,
    padData: byte,
    priority: Option<Priority>,
    forceNoEndStreamOnHeaders: bool,
    extraFramesBeforeHeaders: seq<byte>,
    extraFramesAfter: seq<byte>)

  function PrefaceBytes(opts: ProbeOpts): seq<byte> {
    if !opts.sendPreface then []
    else match opts.prefaceOverride case Some(p) => p case None => Preface()
  }

  // How much of the block goes into the HEADERS frame.
  function Split(block: seq<byte>, opts: ProbeOpts): (n: nat)
    ensures n <= |block|
  {
    match opts.splitHeadersAfter
    case None => |block|
    case Some(n) => if n < |block| then n else |block|
  }

  function EndStreamOnHeaders(opts: ProbeOpts): bool {
    !opts.forceNoEndStreamOnHeaders && opts.body.None?
  }

  function HeadersOpts(block: seq<byte>, opts: ProbeOpts): HeadersFrameOpts {
    HeadersFrameOpts(block[..Split(block, opts)], opts.streamId, EndStreamOnHeaders(opts),
                     Split(block, opts) == |block|, opts.padHeaders, opts.priority)
  }

  // Field widths, and the 24-bit length limit that the frame builder asserts.
  predicate Fits(block: seq<byte>, opts: ProbeOpts) {
    opts.streamId < 0x1_0000_0000 &&
    OptsOk(HeadersOpts(block, opts)) && |block| < MAX_PAYLOAD &&
    (opts.settings.Some? ==>
      6 * |opts.settings.value| < MAX_PAYLOAD &&
      forall i :: 0 <= i < |opts.settings.value| ==> SettingOk(opts.settings.value[i])) &&
    (opts.body.Some? ==> |Padded(opts.body.value, opts.padData)| < MAX_PAYLOAD)
  }

  // ---- the frames of a probe ----

  function SettingsFrames(opts: ProbeOpts): seq<Frame> {
    match opts.settings
    case None => []
    case Some(s) => [Frame(FRAME_SETTINGS, 0, 0, SettingsForm(s))]
  }

  function BlockFrames(block: seq<byte>, opts: ProbeOpts): seq<Frame>
    requires Fits(block, opts)
  {
    var n := Split(block, opts);
    [HeadersFrame(HeadersOpts(block, opts))] +
    if n < |block| then [ContinuationFrame(block[n..], opts.streamId, true)] else []
  }

  function BodyFrames(opts: ProbeOpts): seq<Frame> {
    match opts.body
    case None => []
    case Some(b) => [DataFrame(b, opts.streamId, true, opts.padData)]
  }

  function ProbeForm(block: seq<byte>, opts: ProbeOpts): seq<byte>
    requires Fits(block, opts)
  {
    PrefaceBytes(opts) + FramesForm(SettingsFrames(opts)) + opts.extraFramesBeforeHeaders
    + FramesForm(BlockFrames(block, opts)) + FramesForm(BodyFrames(opts)) + opts.extraFramesAfter
  }

  lemma FormOfOne(f: Frame)
    ensures FramesForm([f]) == FrameForm(f)
  {
    assert FramesForm([f]) == FrameForm(f) + FramesForm([]);
  }

  method BuildBlockFrames(headerBlock: seq<byte>, opts: ProbeOpts) returns (out: seq<byte>)
    requires Fits(headerBlock, opts)
    ensures out == FramesForm(BlockFrames(headerBlock, opts))
  {
    hide FrameForm, FramesForm, HeadersFrame, ContinuationFrame, Padded, OptsOk;
    var endStreamOnHeaders := if opts.forceNoEndStreamOnHeaders then false else !opts.body.Some?;
    ghost var frame := HeadersFrame(HeadersOpts(headerBlock, opts));
    FormOfOne(frame);
    if opts.splitHeadersAfter.Some? {
      var splitAfter := opts.splitHeadersAfter.value;
      var split := if splitAfter < |headerBlock| then splitAfter else |headerBlock|;
      var first, rest := headerBlock[..split], headerBlock[split..];
      var moreComing := rest != [];
      out := BuildHeadersFrame(
        HeadersFrameOpts(first, opts.streamId, endStreamOnHeaders, !moreComing, opts.padHeaders, opts.priority));
      if moreComing {
        var continuation := BuildContinuationFrame(rest, opts.streamId, true);
        ghost var next := ContinuationFrame(rest, opts.streamId, true);
        FormOfOne(next);
        FramesFormAppend([frame], [next]);
        out := out + continuation;
      } else {
        assert [frame] + [] == [frame];
      }
    } else {
      assert headerBlock[..|headerBlock|] == headerBlock && [frame] + [] == [frame];
      out := BuildHeadersFrame(
        HeadersFrameOpts(headerBlock, opts.streamId, endStreamOnHeaders, true, opts.padHeaders, opts.priority));
    }
  }

  method BuildProbe(headers: seq<Header>, opts: ProbeOpts) returns (r: Result<seq<byte>, EncodeError>)
    requires Block(headers).Ok? ==> Fits(Block(headers).value, opts)
    ensures r == match Block(headers) case Ok(block) => Ok(ProbeForm(block, opts)) case Err(e) => Err(e)
  {
    hide Block, FrameForm, BlockFrames, Padded, OptsOk, Preface, SettingsForm;
    var encoded := EncodeHeaders(headers);
    if encoded.Err? {
      return Err(encoded.error);
    }
    var headerBlock := encoded.value;
    var out: seq<byte> := [];
    if opts.sendPreface {
      match opts.prefaceOverride {
        case Some(p) => out := out + p;
        case None => out := out + Preface();
      }
    }
    assert out == PrefaceBytes(opts);
    match opts.settings {
      case Some(settings) =>
        var frame := BuildSettingsFrame(settings, false);
        FormOfOne(Frame(FRAME_SETTINGS, 0, 0, SettingsForm(settings)));
        out := out + frame;
      case None =>
    }
    assert out == PrefaceBytes(opts) + FramesForm(SettingsFrames(opts));
    out := out + opts.extraFramesBeforeHeaders;
    var frames := BuildBlockFrames(headerBlock, opts);
    out := out + frames;
    ghost var before := out;
    match opts.body {
      case Some(body) =>
        var frame := BuildDataFrame(body, opts.streamId, true, opts.padData);
        FormOfOne(DataFrame(body, opts.streamId, true, opts.padData));
        out := out + frame;
      case None =>
    }
    assert out == before + FramesForm(BodyFrames(opts));
    out := out + opts.extraFramesAfter;
    return Ok(out);
  }

  // ---- a receiver ----

  // One request as the frames carry it.
  datatype Request = Request(
    settings: Option<seq<Setting>>,
    priority: Option<Priority>,
    block: seq<byte>,
    body: Option<seq<byte>>,
    ended: bool)

  // The fragments that follow a HEADERS frame, up to the one with END_HEADERS, and what
  // comes after them (RFC 9113, section 6.10).
  function JoinFragments(fs: seq<Frame>, stream: nat): Option<(seq<byte>, seq<Frame>)> {
    if fs == [] || fs[0].kind != FRAME_CONTINUATION || fs[0].stream != stream then None
    else if Has(fs[0].flags, FLAG_END_HEADERS) then Some((fs[0].payload, fs[1..]))
    else
      match JoinFragments(fs[1..], stream)
      case None => None
      case Some((more, rest)) => Some((fs[0].payload + more, rest))
  }

  // The header block of a stream and the frames after it.
  function ReadBlock(fs: seq<Frame>): Option<(Option<Priority>, seq<byte>, seq<Frame>)> {
    if fs == [] || fs[0].kind != FRAME_HEADERS then None
    else
      match ReadHeaders(fs[0])
      case None => None
      case Some((priority, fragment)) =>
        if Has(fs[0].flags, FLAG_END_HEADERS) then Some((priority, fragment, fs[1..]))
        else
          match JoinFragments(fs[1..], fs[0].stream)
          case None => None
          case Some((more, rest)) => Some((priority, fragment + more, rest))
  }

  function ReadBody(fs: seq<Frame>, stream: nat): Option<(Option<seq<byte>>, bool)> {
    if fs == [] then Some((None, false))
    else if |fs| > 1 || fs[0].kind != FRAME_DATA || fs[0].stream != stream then None
    else
      match Unpadded(fs[0].payload, Has(fs[0].flags, FLAG_PADDED))
      case None => None
      case Some(data) => Some((Some(data), Has(fs[0].flags, FLAG_END_STREAM)))
  }

  function ReadPreamble(fs: seq<Frame>): Option<(Option<seq<Setting>>, seq<Frame>)> {
    if fs != [] && fs[0].kind == FRAME_SETTINGS then
      match ReadSettings(fs[0].payload)
      case None => None
      case Some(s) => Some((Some(s), fs[1..]))
    else Some((None, fs))
  }

  function Receive(fs: seq<Frame>): Option<Request> {
    match ReadPreamble(fs)
    case None => None
    case Some((settings, rest)) =>
      match ReadBlock(rest)
      case None => None
      case Some((priority, block, after)) =>
        match ReadBody(after, rest[0].stream)
        case None => None
        case Some((body, ended)) =>
          Some(Request(settings, priority, block, body, ended || Has(rest[0].flags, FLAG_END_STREAM)))
  }

  // ---- what a receiver finds ----

  lemma BlockRoundTripFrames(block: seq<byte>, opts: ProbeOpts, after: seq<Frame>)
    requires Fits(block, opts)
    ensures var fs := BlockFrames(block, opts) + after;
      ReadBlock(fs) == Some((Sent(opts.priority), block, after)) &&
      fs[0].stream == opts.streamId % STREAM_BOUND &&
      Has(fs[0].flags, FLAG_END_STREAM) == EndStreamOnHeaders(opts)
  {
    var h := HeadersOpts(block, opts);
    var fs := BlockFrames(block, opts) + after;
    var n := Split(block, opts);
    HeadersRoundTrip(h);
    hide ReadHeaders, HeadersFlags, Has, Padded, OptsOk;
    if n < |block| {
      assert fs[1] == ContinuationFrame(block[n..], opts.streamId, true);
      assert Has(FLAG_END_HEADERS, FLAG_END_HEADERS) by { EndHeadersSet(); }
      assert fs[1..][1..] == after;
      assert block == block[..n] + block[n..];
    } else {
      assert fs[1..] == after && block[..n] == block;
    }
  }

  lemma EndHeadersSet()
    ensures Has(FLAG_END_HEADERS, FLAG_END_HEADERS)
  {
  }

  function ProbeFrames(block: seq<byte>, opts: ProbeOpts): (fs: seq<Frame>)
    requires Fits(block, opts)
  {
    SettingsFrames(opts) + BlockFrames(block, opts) + BodyFrames(opts)
  }

  lemma FramesAreOk(block: seq<byte>, opts: ProbeOpts)
    requires Fits(block, opts)
    ensures forall i :: 0 <= i < |SettingsFrames(opts)| ==> FrameOk(SettingsFrames(opts)[i])
    ensures forall i :: 0 <= i < |BlockFrames(block, opts)| ==> FrameOk(BlockFrames(block, opts)[i])
    ensures forall i :: 0 <= i < |BodyFrames(opts)| ==> FrameOk(BodyFrames(opts)[i])
  {
    hide Padded, PriorityForm, HeadersFlags, SettingsForm;
  }

  // After the preface the probe is exactly its frames, the extra frames in their places:
  // those given for before the headers between the settings and the block, the others last.
  lemma ProbeWalkExtra(block: seq<byte>, opts: ProbeOpts, before: seq<Frame>, after: seq<Frame>)
    requires Fits(block, opts)
    requires opts.extraFramesBeforeHeaders == FramesForm(before) && opts.extraFramesAfter == FramesForm(after)
    requires (forall i :: 0 <= i < |before| ==> FrameOk(before[i])) && forall i :: 0 <= i < |after| ==> FrameOk(after[i])
    ensures PrefaceBytes(opts) <= ProbeForm(block, opts)
    ensures Walk(ProbeForm(block, opts)[|PrefaceBytes(opts)|..])
         == Some(SettingsFrames(opts) + before + BlockFrames(block, opts) + BodyFrames(opts) + after)
  {
    hide BlockFrames, BodyFrames, SettingsFrames, FramesForm, Walk, Fits, PrefaceBytes, FrameOk;
    var s, b, d := SettingsFrames(opts), BlockFrames(block, opts), BodyFrames(opts);
    FramesFormAppend(s, before);
    FramesFormAppend(s + before, b);
    FramesFormAppend(s + before + b, d);
    FramesFormAppend(s + before + b + d, after);
    var all := FramesForm(s + before + b + d + after);
    assert ProbeForm(block, opts) == PrefaceBytes(opts) + all;
    assert (PrefaceBytes(opts) + all)[|PrefaceBytes(opts)|..] == all;
    FramesAreOk(block, opts);
    WalkRoundTrip(s + before + b + d + after);
  }

  lemma ProbeWalk(block: seq<byte>, opts: ProbeOpts)
    requires Fits(block, opts) && opts.extraFramesBeforeHeaders == [] && opts.extraFramesAfter == []
    ensures PrefaceBytes(opts) <= ProbeForm(block, opts)
    ensures Walk(ProbeForm(block, opts)[|PrefaceBytes(opts)|..]) == Some(ProbeFrames(block, opts))
  {
    hide BlockFrames, BodyFrames, SettingsFrames, FramesForm, Walk, Fits, PrefaceBytes, ProbeForm;
    FramesFormNone();
    ProbeWalkExtra(block, opts, [], []);
    var s, b, d := SettingsFrames(opts), BlockFrames(block, opts), BodyFrames(opts);
    assert s + [] + b + d + [] == s + b + d;
  }

  // The preface is the octets of section 3.4 of RFC 9113, unless it is replaced or left out.
  lemma PrefaceOctets(block: seq<byte>, opts: ProbeOpts)
    requires Fits(block, opts)
    ensures opts.sendPreface && opts.prefaceOverride.None? ==>
      |ProbeForm(block, opts)| >= 24 &&
      ProbeForm(block, opts)[..24] ==
        [0x50, 0x52, 0x49, 0x20, 0x2a, 0x20, 0x48, 0x54, 0x54, 0x50, 0x2f, 0x32,
         0x2e, 0x30, 0x0d, 0x0a, 0x0d, 0x0a, 0x53, 0x4d, 0x0d, 0x0a, 0x0d, 0x0a]
    ensures opts.sendPreface && opts.prefaceOverride.Some? ==> opts.prefaceOverride.value <= ProbeForm(block, opts)
  {
    hide BlockFrames, BodyFrames, SettingsFrames, FramesForm, Fits;
    PrefaceText();
    hide Preface;
    if opts.sendPreface && opts.prefaceOverride.None? {
      assert ProbeForm(block, opts)[..24] == Preface();
    }
  }

  lemma PrefaceText()
    ensures Preface() ==
      [0x50, 0x52, 0x49, 0x20, 0x2a, 0x20, 0x48, 0x54, 0x54, 0x50, 0x2f, 0x32,
       0x2e, 0x30, 0x0d, 0x0a, 0x0d, 0x0a, 0x53, 0x4d, 0x0d, 0x0a, 0x0d, 0x0a]
  {
  }

  // The block is split where asked: a HEADERS frame with that much of it, or all there is, and
  // a CONTINUATION frame with the rest, if any.
  lemma BlockSplit(block: seq<byte>, opts: ProbeOpts)
    requires Fits(block, opts)
    ensures var b := BlockFrames(block, opts);
      var n := if opts.splitHeadersAfter.Some? && opts.splitHeadersAfter.value < |block|
               then opts.splitHeadersAfter.value else |block|;
      ReadHeaders(b[0]) == Some((Sent(opts.priority), block[..n])) &&
      if n == |block| then |b| == 1 else |b| == 2 && b[1].payload == block[n..]
  {
    HeadersRoundTrip(HeadersOpts(block, opts));
    hide ReadHeaders, OptsOk, HeadersFlags, Padded;
  }

  // A receiver finds the settings, the priority, the whole header block at every split
  // point, the body, and the end of the stream unless it was forced off with no body.
  lemma ProbeReceived(block: seq<byte>, opts: ProbeOpts)
    requires Fits(block, opts)
    ensures Receive(ProbeFrames(block, opts)) ==
      Some(Request(opts.settings, Sent(opts.priority), block, opts.body,
                   opts.body.Some? || !opts.forceNoEndStreamOnHeaders))
  {
    hide SettingsForm, ReadPreamble, ReadBody, Padded, Unpadded, HeadersFlags, OptsOk, Has, SettingsFrames, BodyFrames,
         BlockFrames, ReadHeaders, JoinFragments;
    var s, b, d := SettingsFrames(opts), BlockFrames(block, opts), BodyFrames(opts);
    assert ProbeFrames(block, opts) == s + (b + d);
    BlockRoundTripFrames(block, opts, d);
    BodyReceived(opts);
    SettingsOk(block, opts);
    PreambleReceived(opts, b + d);
  }

  lemma SettingsOk(block: seq<byte>, opts: ProbeOpts)
    requires Fits(block, opts)
    ensures opts.settings.Some? ==>
      forall i :: 0 <= i < |opts.settings.value| ==> SettingOk(opts.settings.value[i])
  {
  }

  lemma PreambleReceived(opts: ProbeOpts, rest: seq<Frame>)
    requires opts.settings.Some? ==>
      forall i :: 0 <= i < |opts.settings.value| ==> SettingOk(opts.settings.value[i])
    requires rest != [] && rest[0].kind == FRAME_HEADERS
    ensures ReadPreamble(SettingsFrames(opts) + rest) == Some((opts.settings, rest))
  {
    hide SettingsForm, ReadSettings, SettingOk;
    var fs := SettingsFrames(opts) + rest;
    match opts.settings
    case None =>
      assert fs == rest;
    case Some(settings) =>
      SettingsRoundTrip(settings);
      assert fs[1..] == rest;
  }

  lemma BodyReceived(opts: ProbeOpts)
    ensures ReadBody(BodyFrames(opts), opts.streamId % STREAM_BOUND) == Some((opts.body, opts.body.Some?))
  {
    hide Padded, Unpadded, HeadersFlags, Has;
    if opts.body.Some? {
      PaddedRoundTrip(opts.body.value, opts.padData);
    }
  }

  // Of the frames of the block only the last ends it, and at most one frame ends the stream.
  lemma FlagsOnce(block: seq<byte>, opts: ProbeOpts)
    requires Fits(block, opts)
    ensures var b := BlockFrames(block, opts);
      |b| <= 2 && forall i :: 0 <= i < |b| ==> Has(b[i].flags, FLAG_END_HEADERS) == (i == |b| - 1)
    ensures |EndStreams(BlockFrames(block, opts) + BodyFrames(opts))|
         == if opts.body.Some? || !opts.forceNoEndStreamOnHeaders then 1 else 0
  {
    hide HeadersFlags, Padded, OptsOk;
    var b, d := BlockFrames(block, opts), BodyFrames(opts);
    EndHeadersSet();
    assert !Has(FLAG_END_HEADERS, FLAG_END_STREAM);
    var fs := b + d;
    assert |fs| <= 3 && forall i :: 1 <= i < |b| ==> fs[i] == b[i] && b[i].kind == FRAME_CONTINUATION;
    var all := set i | 0 <= i < |fs| && EndsStream(fs[i]);
    assert EndStreams(fs) == all;
    if opts.body.Some? {
      assert EndsStream(fs[|b|]) && !EndsStream(fs[0]);
      assert all == {|b|};
    } else if opts.forceNoEndStreamOnHeaders {
      assert all == {};
    } else {
      assert EndsStream(fs[0]);
      assert all == {0};
    }
  }

  predicate EndsStream(f: Frame) {
    (f.kind == FRAME_HEADERS || f.kind == FRAME_DATA) && Has(f.flags, FLAG_END_STREAM)
  }

  function EndStreams(fs: seq<Frame>): set<nat> {
    set i: nat | i < |fs| && EndsStream(fs[i])
  }

  // End to end: frames walked, fragments joined and the block decoded from any table,
  // the receiver has the headers that were sent.
  lemma ProbeDelivers(headers: seq<Header>, opts: ProbeOpts, table: Table)
    requires Block(headers).Ok? && Fits(Block(headers).value, opts)
    requires opts.extraFramesBeforeHeaders == [] && opts.extraFramesAfter == []
    ensures forall i :: 0 <= i < |headers| ==> Refusal(headers[i]).None?
    ensures match Walk(ProbeForm(Block(headers).value, opts)[|PrefaceBytes(opts)|..])
      case None => false
      case Some(fs) => match Receive(fs)
        case None => false
        case Some(request) =>
          var o := Decoded(request.block, 0, table);
          (o.result == Ok(ReceivedAll(headers)) <==> AllSendable(headers)) &&
          (AllSendable(headers) ==> o.table == InsertedAll(table, headers)) &&
          request.body == opts.body && request.settings == opts.settings
  {
    hide Block, ProbeForm, ProbeFrames, Walk, Receive, Decoded, Fits, Refusal, AllSendable, PrefaceBytes;
    var block := Block(headers).value;
    BlockRoundTrip(headers, 0, table);
    ProbeWalk(block, opts);
    ProbeReceived(block, opts);
  }
}
