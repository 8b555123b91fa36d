// HTTP/2 frames, RFC 9113 sections 4.1, 6.1, 6.2, 6.5 and 6.10: building and reading.
module Frames {
  import opened Wrappers
  import opened Bits

  const FRAME_DATA: byte := 0x00
  const FRAME_HEADERS: byte := 0x01
  const FRAME_SETTINGS: byte := 0x04
  const FRAME_CONTINUATION: byte := 0x09

  const FLAG_END_STREAM: byte := 0x01
  const FLAG_ACK: byte := 0x01
  const FLAG_END_HEADERS: byte := 0x04
  const FLAG_PADDED: byte := 0x08
  const FLAG_PRIORITY: byte := 0x20

  const MAX_PAYLOAD: nat := 0x100_0000
  const STREAM_BOUND: nat := 0x8000_0000

  datatype Frame = Frame(kind: byte, flags: byte, stream: nat, payload: seq<byte>)

  predicate FrameOk(f: Frame) {
    f.stream < STREAM_BOUND && |f.payload| < MAX_PAYLOAD
  }

  predicate Has(flags: byte, bit: byte)
    requires bit > 0
  {
    flags / bit % 2 == 1
  }

  // flags | bit, for a flag that is a power of two and at most 0x20.
  function WithFlag(flags: byte, bit: byte): (r: byte)
    requires 0 < bit <= 0x20 && flags < 0x40
    ensures r == flags || r == flags + bit
  {
    if Has(flags, bit) then flags else flags + bit
  }

  // ---- big-endian numbers ----

  function Be2(v: nat): (b: seq<byte>)
    ensures |b| == 2
  {
    [v / 0x100 % 0x100, v % 0x100]
  }

  function Be4(v: nat): (b: seq<byte>)
    ensures |b| == 4
  {
    [v / 0x100_0000 % 0x100, v / 0x1_0000 % 0x100, v / 0x100 % 0x100, v % 0x100]
  }

  function Read2(b: seq<byte>): (v: nat)
    requires |b| == 2
  {
    b[0] as int * 0x100 + b[1] as int
  }

  function Read4(b: seq<byte>): (v: nat)
    requires |b| == 4
  {
    b[0] as int * 0x100_0000 + b[1] as int * 0x1_0000 + b[2] as int * 0x100 + b[3] as int
  }

  lemma Be2RoundTrip(v: nat)
    requires v < 0x1_0000
    ensures Read2(Be2(v)) == v
  {
  }

  lemma Be4RoundTrip(v: nat)
    requires v < 0x1_0000_0000
    ensures Read4(Be4(v)) == v
  {
    assert v / 0x1_0000 == v / 0x100 / 0x100;
    assert v / 0x100_0000 == v / 0x1_0000 / 0x100;
  }

  // ---- one frame ----

  function FrameForm(f: Frame): (b: seq<byte>)
    ensures |b| == 9 + |f.payload|
  {
    var len := |f.payload|;
    [len / 0x1_0000 % 0x100, len / 0x100 % 0x100, len % 0x100, f.kind, f.flags] + Be4(f.stream) + f.payload
  }

  // The first frame of a byte string and what follows it. The reserved bit above the
  // stream identifier is ignored.
  function ReadFrame(s: seq<byte>): (r: Option<(Frame, seq<byte>)>)
    ensures r.Some? ==> |r.value.1| < |s|
  {
    if |s| < 9 then None else
      var len := s[0] as int * 0x1_0000 + s[1] as int * 0x100 + s[2] as int;
      if |s| < 9 + len then None
      else Some((Frame(s[3], s[4], Read4(s[5..9]) % STREAM_BOUND, s[9..9 + len]), s[9 + len..]))
  }

  // A byte string cut into frames.
  function Walk(s: seq<byte>): Option<seq<Frame>>
    decreases |s|
  {
    if s == [] then Some([]) else
      match ReadFrame(s)
      case None => None
      case Some((f, rest)) =>
        match Walk(rest)
        case None => None
        case Some(fs) => Some([f] + fs)
  }

  function FramesForm(fs: seq<Frame>): seq<byte> {
    if fs == [] then [] else FrameForm(fs[0]) + FramesForm(fs[1..])
  }

  lemma LengthRoundTrip(len: nat)
    requires len < MAX_PAYLOAD
    ensures (len / 0x1_0000 % 0x100) * 0x1_0000 + (len / 0x100 % 0x100) * 0x100 + len % 0x100 == len
  {
    assert len / 0x1_0000 == len / 0x100 / 0x100;
  }

  lemma FrameRoundTrip(f: Frame, rest: seq<byte>)
    requires FrameOk(f)
    ensures ReadFrame(FrameForm(f) + rest) == Some((f, rest))
  {
    var s := FrameForm(f) + rest;
    hide Be4, Read4;
    LengthRoundTrip(|f.payload|);
    assert s[5..9] == Be4(f.stream);
    Be4RoundTrip(f.stream);
    assert s[9..9 + |f.payload|] == f.payload;
    assert s[9 + |f.payload|..] == rest;
  }

  // Walking concatenated frames gives the frames back.
  lemma {:induction false} WalkRoundTrip(fs: seq<Frame>)
    requires forall i :: 0 <= i < |fs| ==> FrameOk(fs[i])
    ensures Walk(FramesForm(fs)) == Some(fs)
  {
    hide FrameForm, ReadFrame;
    if fs != [] {
      FrameRoundTrip(fs[0], FramesForm(fs[1..]));
      WalkRoundTrip(fs[1..]);
      assert fs == [fs[0]] + fs[1..];
    }
  }

  lemma FramesFormNone()
    ensures FramesForm([]) == []
  {
  }

  lemma FramesFormCons(f: Frame, fs: seq<Frame>)
    ensures FramesForm([f] + fs) == FrameForm(f) + FramesForm(fs)
  {
    hide FrameForm;
    assert ([f] + fs)[1..] == fs;
  }

  lemma {:induction false} FramesFormAppend(a: seq<Frame>, b: seq<Frame>)
    ensures FramesForm(a + b) == FramesForm(a) + FramesForm(b)
  {
    hide FrameForm, FramesForm;
    if a == [] {
      FramesFormNone();
      assert a + b == b && [] + FramesForm(b) == FramesForm(b);
    } else {
      FramesFormAppend(a[1..], b);
      FramesFormCons(a[0], a[1..] + b);
      FramesFormCons(a[0], a[1..]);
      var f, x, y := FrameForm(a[0]), FramesForm(a[1..]), FramesForm(b);
      assert a + b == [a[0]] + (a[1..] + b) && a == [a[0]] + a[1..];
      assert f + (x + y) == f + x + y;
    }
  }

  method BuildRawFrame(frameType: byte, flags: byte, streamId: nat, payload: seq<byte>) returns (out: seq<byte>)
    requires |payload| < MAX_PAYLOAD && streamId < 0x1_0000_0000
    ensures out == FrameForm(Frame(frameType, flags, streamId % STREAM_BOUND, payload))
  {
    var len := |payload|;
    out := [];
    out := out + [len / 0x1_0000 % 0x100];
    out := out + [len / 0x100 % 0x100];
    out := out + [len % 0x100];
    out := out + [frameType];
    out := out + [flags];
    var sid := streamId % STREAM_BOUND;
    out := out + [sid / 0x100_0000 % 0x100];
    out := out + [sid / 0x1_0000 % 0x100];
    out := out + [sid / 0x100 % 0x100];
    out := out + [sid % 0x100];
    out := out + payload;
  }

  // ---- SETTINGS ----

  type Setting = (nat, nat)

  predicate SettingOk(s: Setting) {
    s.0 < 0x1_0000 && s.1 < 0x1_0000_0000
  }

  function SettingsForm(settings: seq<Setting>): (b: seq<byte>)
    ensures |b| == 6 * |settings|
  {
    if settings == [] then []
    else SettingsForm(settings[..|settings| - 1]) + Be2(settings[|settings| - 1].0) + Be4(settings[|settings| - 1].1)
  }

  function ReadSettings(b: seq<byte>): (r: Option<seq<Setting>>) {
    if b == [] then Some([])
    else if |b| < 6 then None
    else
      match ReadSettings(b[..|b| - 6])
      case None => None
      case Some(init) => Some(init + [(Read2(b[|b| - 6..|b| - 4]), Read4(b[|b| - 4..]))])
  }

  lemma SettingsSplit(init: seq<byte>, id: seq<byte>, val: seq<byte>)
    requires |id| == 2 && |val| == 4
    ensures var b := init + id + val;
      b[..|b| - 6] == init && b[|b| - 6..|b| - 4] == id && b[|b| - 4..] == val
  {
  }

  lemma {:induction false} SettingsRoundTrip(settings: seq<Setting>)
    requires forall i :: 0 <= i < |settings| ==> SettingOk(settings[i])
    ensures ReadSettings(SettingsForm(settings)) == Some(settings)
  {
    if settings != [] {
      hide Be2, Be4, Read2, Read4, SettingOk;
      var init, last := settings[..|settings| - 1], settings[|settings| - 1];
      assert SettingOk(last);
      SettingsRoundTrip(init);
      Be2RoundTrip(last.0);
      Be4RoundTrip(last.1);
      SettingsSplit(SettingsForm(init), Be2(last.0), Be4(last.1));
      assert settings == init + [last];
    }
  }

  method BuildSettingsFrame(settings: seq<Setting>, ack: bool) returns (out: seq<byte>)
    requires 6 * |settings| < MAX_PAYLOAD && forall i :: 0 <= i < |settings| ==> SettingOk(settings[i])
    ensures out == FrameForm(Frame(FRAME_SETTINGS, if ack then FLAG_ACK else 0, 0, SettingsForm(settings)))
  {
    hide FrameForm;
    var flags: byte := if ack then FLAG_ACK else 0;
    var payload: seq<byte> := [];
    assert settings[..0] == [];
    for i := 0 to |settings|
      invariant payload == SettingsForm(settings[..i])
    {
      assert settings[..i + 1][..i] == settings[..i];
      var (id, val) := settings[i];
      assert SettingOk(settings[i]);
      payload := payload + [id / 0x100 % 0x100];
      payload := payload + [id % 0x100];
      payload := payload + Be4(val);
    }
    assert settings[..|settings|] == settings;
    out := BuildRawFrame(FRAME_SETTINGS, flags, 0, payload);
  }

  // ---- HEADERS, CONTINUATION, DATA ----

  // Stream dependency, weight and exclusive flag.
  type Priority = (nat, byte, bool)

  function PriorityForm(priority: Option<Priority>): (b: seq<byte>)
    requires priority.Some? ==> priority.value.0 < 0x1_0000_0000
    ensures |b| == if priority.Some? then 5 else 0
  {
    match priority
    case None => []
    case Some((dep, weight, exclusive)) =>
      Be4(dep % STREAM_BOUND + if exclusive then STREAM_BOUND else 0) + [weight]
  }

  function Padding(n: nat): (b: seq<byte>)
    ensures |b| == n
  {
    seq(n, _ => 0)
  }

  // A payload framed by its pad length and its padding, when there is any.
  function Padded(content: seq<byte>, padding: byte): (b: seq<byte>)
    ensures |b| == |content| + if padding > 0 then padding + 1 else 0
  {
    (if padding > 0 then [padding] else []) + content + Padding(padding)
  }

  function HeadersFlags(endStream: bool, endHeaders: bool, padded: bool, priority: bool): (f: byte)
    ensures Has(f, FLAG_END_STREAM) == endStream && Has(f, FLAG_END_HEADERS) == endHeaders
    ensures Has(f, FLAG_PADDED) == padded && Has(f, FLAG_PRIORITY) == priority
  {
    (if endStream then 0x01 else 0) + (if endHeaders then 0x04 else 0)
    + (if padded then 0x08 else 0) + (if priority then 0x20 else 0)
  }

  datatype HeadersFrameOpts = HeadersFrameOpts(
    headerBlock: seq<byte>,
    streamId: nat,
    endStream: bool,
    endHeaders: bool,
    padding: byte,
    priority: Option<Priority>)

  predicate OptsOk(opts: HeadersFrameOpts) {
    opts.streamId < 0x1_0000_0000 &&
    (opts.priority.Some? ==> opts.priority.value.0 < 0x1_0000_0000) &&
    |Padded(PriorityForm(opts.priority) + opts.headerBlock, opts.padding)| < MAX_PAYLOAD
  }

  function HeadersFrame(opts: HeadersFrameOpts): Frame
    requires OptsOk(opts)
  {
    Frame(FRAME_HEADERS,
          HeadersFlags(opts.endStream, opts.endHeaders, opts.padding > 0, opts.priority.Some?),
          opts.streamId % STREAM_BOUND,
          Padded(PriorityForm(opts.priority) + opts.headerBlock, opts.padding))
  }

  method BuildHeadersFrame(opts: HeadersFrameOpts) returns (out: seq<byte>)
    requires OptsOk(opts)
    ensures out == FrameForm(HeadersFrame(opts))
  {
    hide FrameForm, Be4;
    var payload: seq<byte> := [];
    if opts.padding > 0 {
      payload := payload + [opts.padding];
    }
    ghost var start := payload;
    match opts.priority {
      case Some((dep, weight, exclusive)) =>
        var depWord := dep % STREAM_BOUND;
        if exclusive {
          depWord := depWord + STREAM_BOUND;
        }
        payload := payload + Be4(depWord);
        payload := payload + [weight];
      case None =>
    }
    assert payload == start + PriorityForm(opts.priority);
    payload := payload + opts.headerBlock;
    payload := payload + Padding(opts.padding);
    assert payload == Padded(PriorityForm(opts.priority) + opts.headerBlock, opts.padding);
    var flags := 0;
    if opts.endStream {
      flags := WithFlag(flags, FLAG_END_STREAM);
    }
    if opts.endHeaders {
      flags := WithFlag(flags, FLAG_END_HEADERS);
    }
    if opts.padding > 0 {
      flags := WithFlag(flags, FLAG_PADDED);
    }
    if opts.priority.Some? {
      flags := WithFlag(flags, FLAG_PRIORITY);
    }
    out := BuildRawFrame(FRAME_HEADERS, flags, opts.streamId, payload);
  }

  function ContinuationFrame(headerBlock: seq<byte>, streamId: nat, endHeaders: bool): Frame {
    Frame(FRAME_CONTINUATION, if endHeaders then FLAG_END_HEADERS else 0, streamId % STREAM_BOUND, headerBlock)
  }

  method BuildContinuationFrame(headerBlock: seq<byte>, streamId: nat, endHeaders: bool) returns (out: seq<byte>)
    requires |headerBlock| < MAX_PAYLOAD && streamId < 0x1_0000_0000
    ensures out == FrameForm(ContinuationFrame(headerBlock, streamId, endHeaders))
  {
    var flags: byte := if endHeaders then FLAG_END_HEADERS else 0;
    out := BuildRawFrame(FRAME_CONTINUATION, flags, streamId, headerBlock);
  }

  function DataFrame(data: seq<byte>, streamId: nat, endStream: bool, padding: byte): Frame {
    Frame(FRAME_DATA, HeadersFlags(endStream, false, padding > 0, false), streamId % STREAM_BOUND,
          Padded(data, padding))
  }

  method BuildDataFrame(data: seq<byte>, streamId: nat, endStream: bool, padding: byte) returns (out: seq<byte>)
    requires |Padded(data, padding)| < MAX_PAYLOAD && streamId < 0x1_0000_0000
    ensures out == FrameForm(DataFrame(data, streamId, endStream, padding))
  {
    hide FrameForm;
    var payload: seq<byte> := [];
    if padding > 0 {
      payload := payload + [padding];
    }
    payload := payload + data;
    payload := payload + Padding(padding);
    assert payload == Padded(data, padding);
    var flags := 0;
    if endStream {
      flags := WithFlag(flags, FLAG_END_STREAM);
    }
    if padding > 0 {
      flags := WithFlag(flags, FLAG_PADDED);
    }
    out := BuildRawFrame(FRAME_DATA, flags, streamId, payload);
  }

  // ---- reading payloads back ----

  // Section 6.1 of RFC 9113: the content without pad length and padding.
  function Unpadded(payload: seq<byte>, padded: bool): (r: Option<seq<byte>>) {
    if !padded then Some(payload)
    else if payload == [] || payload[0] + 1 > |payload| then None
    else Some(payload[1..|payload| - payload[0]])
  }

  // Section 6.2 of RFC 9113: priority fields and header block fragment.
  function ReadHeaders(f: Frame): (r: Option<(Option<Priority>, seq<byte>)>) {
    match Unpadded(f.payload, Has(f.flags, FLAG_PADDED))
    case None => None
    case Some(b) => ReadPriority(b, Has(f.flags, FLAG_PRIORITY))
  }

  lemma PaddedRoundTrip(content: seq<byte>, padding: byte)
    ensures Unpadded(Padded(content, padding), padding > 0) == Some(content)
  {
    var b := Padded(content, padding);
    if padding > 0 {
      assert b[1..|b| - padding] == content;
    } else {
      assert b == content;
    }
  }

  // The priority fields and the block fragment, once padding is off.
  function ReadPriority(b: seq<byte>, present: bool): (r: Option<(Option<Priority>, seq<byte>)>) {
    if !present then Some((None, b))
    else if |b| < 5 then None
    else
      var word := Read4(b[..4]);
      Some((Some((word % STREAM_BOUND, b[4], word >= STREAM_BOUND)), b[5..]))
  }

  lemma PriorityRoundTrip(priority: Option<Priority>, block: seq<byte>)
    requires priority.Some? ==> priority.value.0 < 0x1_0000_0000
    ensures ReadPriority(PriorityForm(priority) + block, priority.Some?) == Some((Sent(priority), block))
  {
    hide Be4, Read4;
    var b := PriorityForm(priority) + block;
    match priority
    case None =>
      assert b == block;
    case Some((dep, weight, exclusive)) =>
      var word := dep % STREAM_BOUND + if exclusive then STREAM_BOUND else 0;
      Be4RoundTrip(word);
      assert b[..4] == Be4(word) && b[4] == weight && b[5..] == block;
  }

  // Reading a HEADERS frame back: the dependency is cut to 31 bits, the rest is exact.
  lemma HeadersRoundTrip(opts: HeadersFrameOpts)
    requires OptsOk(opts)
    ensures ReadHeaders(HeadersFrame(opts)) == Some((Sent(opts.priority), opts.headerBlock))
  {
    hide HeadersFlags, Has, Padded, Unpadded, ReadPriority, Sent;
    PaddedRoundTrip(PriorityForm(opts.priority) + opts.headerBlock, opts.padding);
    PriorityRoundTrip(opts.priority, opts.headerBlock);
  }

  function Sent(priority: Option<Priority>): Option<Priority> {
    match priority
    case None => None
    case Some((dep, weight, exclusive)) => Some((dep % STREAM_BOUND, weight, exclusive))
  }

  // ---- the bytes on the wire ----

  function Bit(b: bool, value: nat): nat {
    if b then value else 0
  }

  // The type and flag bytes of each frame, with the numbers of sections 6.1, 6.2, 6.5 and
  // 6.10 of RFC 9113.
  lemma FrameBytes(opts: HeadersFrameOpts, data: seq<byte>, stream: nat, endStream: bool, padding: byte,
                   settings: seq<Setting>, ack: bool)
    requires OptsOk(opts)
    ensures var f := FrameForm(HeadersFrame(opts));
      f[3] == 1 &&
      f[4] == Bit(opts.endStream, 1) + Bit(opts.endHeaders, 4) + Bit(opts.padding > 0, 8) + Bit(opts.priority.Some?, 32)
    ensures var f := FrameForm(DataFrame(data, stream, endStream, padding));
      f[3] == 0 && f[4] == Bit(endStream, 1) + Bit(padding > 0, 8)
    ensures var f := FrameForm(ContinuationFrame(data, stream, endStream)); f[3] == 9 && f[4] == Bit(endStream, 4)
    ensures var f := FrameForm(Frame(FRAME_SETTINGS, if ack then FLAG_ACK else 0, 0, SettingsForm(settings)));
      f[3] == 4 && f[4] == Bit(ack, 1)
  {
    hide Padded, PriorityForm, SettingsForm, OptsOk, Be4;
  }

  // A byte string read as a number, most significant byte first.
  function BigEndian(b: seq<byte>): nat {
    if b == [] then 0 else 256 * BigEndian(b[..|b| - 1]) + b[|b| - 1] as int
  }

  lemma BigEndian4(b: seq<byte>)
    requires |b| == 4
    ensures BigEndian(b) == Read4(b)
  {
    assert b[..3][..2] == b[..2] && b[..2][..1] == b[..1] && b[..1][..0] == [];
    assert BigEndian(b[..1]) == b[0] as int;
    assert BigEndian(b[..2]) == 256 * BigEndian(b[..1]) + b[1] as int;
    assert BigEndian(b[..3]) == 256 * BigEndian(b[..2]) + b[2] as int;
  }

  lemma BigEndian3(b: seq<byte>)
    requires |b| == 3
    ensures BigEndian(b) == b[0] as int * 0x1_0000 + b[1] as int * 0x100 + b[2] as int
  {
    assert b[..2][..1] == b[..1] && b[..1][..0] == [];
    assert BigEndian(b[..1]) == b[0] as int;
    assert BigEndian(b[..2]) == 256 * BigEndian(b[..1]) + b[1] as int;
  }

  // The length and stream of a frame, most significant byte first, the reserved bit clear.
  lemma FrameNumbers(f: Frame)
    requires FrameOk(f)
    ensures var b := FrameForm(f);
      BigEndian(b[..3]) == |f.payload| && BigEndian(b[5..9]) == f.stream && b[5] < 0x80 && b[9..] == f.payload
  {
    var b := FrameForm(f);
    LengthRoundTrip(|f.payload|);
    Be4RoundTrip(f.stream);
    BigEndian3(b[..3]);
    BigEndian4(b[5..9]);
    assert b[5..9] == Be4(f.stream);
  }

  // Padding is a length byte before and as many zero bytes after.
  lemma PaddingBytes(content: seq<byte>, padding: byte)
    ensures var b := Padded(content, padding);
      if padding == 0 then b == content
      else b[0] == padding && b[1..1 + |content|] == content && |b| == 1 + |content| + padding &&
           forall i :: 1 + |content| <= i < |b| ==> b[i] == 0
  {
    var b := Padded(content, padding);
    if padding == 0 {
      assert b == content;
    }
  }

  // The priority fields: the dependency under the exclusive bit, then the weight.
  lemma PriorityBytes(dep: nat, weight: byte, exclusive: bool)
    requires dep < 0x1_0000_0000
    ensures var b := PriorityForm(Some((dep, weight, exclusive)));
      BigEndian(b[..4]) == dep % 0x8000_0000 + Bit(exclusive, 0x8000_0000) && b[4] == weight
  {
    hide BigEndian;
    var word := dep % STREAM_BOUND + if exclusive then STREAM_BOUND else 0;
    var b := PriorityForm(Some((dep, weight, exclusive)));
    assert b[..4] == Be4(word);
    Be4RoundTrip(word);
    BigEndian4(Be4(word));
  }

  // One more setting: its identifier in two bytes, then its value in four.
  lemma SettingBytes(settings: seq<Setting>, s: Setting)
    requires SettingOk(s)
    ensures var before, after := SettingsForm(settings), SettingsForm(settings + [s]); var n := |before|;
      |after| == n + 6 && after[..n] == before &&
      BigEndian(after[n..n + 2]) == s.0 && BigEndian(after[n + 2..]) == s.1
  {
    hide BigEndian;
    var all := settings + [s];
    assert all[..|all| - 1] == settings;
    var before, after := SettingsForm(settings), SettingsForm(all);
    var n := |before|;
    assert after == before + Be2(s.0) + Be4(s.1);
    assert after[n..n + 2] == Be2(s.0) && after[n + 2..] == Be4(s.1);
    Be4RoundTrip(s.1);
    BigEndian4(Be4(s.1));
    BigEndian2(Be2(s.0));
  }

  lemma BigEndian2(b: seq<byte>)
    requires |b| == 2
    ensures BigEndian(b) == Read2(b)
  {
    assert b[..1][..0] == [];
    assert BigEndian(b[..1]) == b[0] as int;
  }
}
