# Verified model of blasthttp's wire codecs, redirect cookies and batch machinery

This project models the parts of blasthttp where a wrong byte or a wrong decision is hard
to see, and proves what they promise.

* **HPACK and HTTP/2 framing** (`Bits`, `HuffmanTable`, `HuffmanCode`, `HuffmanTree`, `Huffman`,
  `HpackTypes`, `HpackInteger`, `HpackEncoder`, `HpackStaticTable`, `HpackStaticList`, `HpackTable`,
  `HpackDecoder`, `HpackProperties`, `HpackWire`, `Frames`, `Probe`). The Huffman encoder with its 64-bit shift buffer, the tree
  built node by node in a growing vector, and the decoder that walks it; variable-length integers
  with the deliberate overlong form; string literals; the header-block encoder; the stateful decoder
  with its dynamic table; frame builders and the probe assembler. The bit-level meaning is defined
  once, by `HuffmanCode.Encoding`; decoding is characterised by the encoder alone. A probe is followed
  end to end: frames walked, padding and priority stripped, fragments joined, block decoded.
* **Cookies on a redirect chain** (`Text`, `CookieRules`, `SetCookieText`, `Cookies`, `CookieHistory`,
  `CookieHeaders`, `CookieMerge`, `Redirects`). Parsing of `Set-Cookie`, the bounded store, which cookies go to which
  hop, how the header is printed, how it is merged with the caller's own, and the redirect loop. Every
  `Set-Cookie` that arrives is recorded with what was decided about it; the store is proved to be a
  function of that record. What each rule means is also proved on the text it reads, apart from the
  rule's own definition: hosts by their labels, paths by their segments, a `Set-Cookie` attribute by
  what adding it to a value changes.
* **Rate limiting and batch dispatch** (`RateLimiter`, `Batch`, `BatchStream`). Step systems over every
  interleaving, for any number of tasks and any run.
* **Body decoding, calendar, proxy bypass, URL sanitizing** (`ContentCoding`, `Calendar`, `Cidr`,
  `Sanitizer`).

Conventions: a specification function is a noun (`Encoding`, `IntegerForm`, `Fit`), a method that
mirrors imperative code is a verb (`Encode`, `WriteInteger`, `Evict`) and is proved equal to its
specification; the lemmas are about the specifications. Loops whose bodies are long are split into a
method for the body and the loop itself (`DecodeOne`, `StoreOne`, `Descend`).

What the surroundings supply comes in as parameters: the Public Suffix List, address parsing, date
parsing (`CookieRules.Env`), the clock at each `Set-Cookie` line (`CookieHistory.Hop`), the decompressors (`ContentCoding.Coders`), the server's
replies and URI resolution (`Redirects.SendInner`), address and number parsing (`Cidr.Parsers`).

Points where the statements depend on what the code really does:

* An overlong length changes the value it encodes unless the value is at most 2^n - 1
  (`HpackInteger.BloatRoundTrip`, both directions, with a concrete case in `HpackInteger.BloatExample`),
  although src/h2/hpack.rs:139-141 describes the extra bytes as having value zero.
* The chain's cookie names follow *all* of the caller's only if the caller's later `Cookie` lines add no
  name of their own, because the chain's cookies are folded into the first such line
  (`CookieMerge.MergedOrder`, both directions; counterexample `CookieMerge.MergedOrderExample`).
* A batch with no permits never collects anything, so completion needs a concurrency of at least 1
  (`Batch.NoPermitsNoResults`, `BatchStream.NoPermitsNoStream`). A panicked task still yields a result in `send_batch`, without its URL,
  and yields nothing in the stream (`BatchStream.StreamDelivers`).
* A request path that does not start with `/` is not covered by its own default path
  (`CookieRules.DefaultPathCovers`, both directions).
* A rate-limited call may return any time less than a millisecond before its slot
  (`RateLimiter.EarlyReturn`), which the exact rate carries (`RateLimiter.RateExact`, both directions).
* `canonical_host` strips every trailing dot, although src/cookies.rs:288 says a single one; the two
  differ exactly on hosts that end in two dots (`CookieRules.TrailingDots`, with `"a.."` in
  `CookieRules.TrailingDotsExample`).
* A sanitized URL means what the original means, and sanitizing is idempotent, exactly when every byte
  is ASCII, because src/client/hyper.rs:54 pushes each byte as a character of its own
  (`Sanitizer.MeaningKept`, `Sanitizer.Idempotent`; two bytes become four in `Sanitizer.AccentExample`).
* The integer reader's overflow check misses numbers whose fifth continuation byte is 16 or more: they
  lose their high bits (`HpackInteger.ReadFaithful`, both directions, with a number of 33 bits read as 127
  in `HpackInteger.ReadLossExample`).
* The decoder's table sizes are 32-bit words. An insertion is right exactly when the sizes do not wrap
  (`HpackTable.WrappedExact`, with two entries of 2 GiB in `HpackTable.WrapExample`); tables under 2 GiB
  and blocks up to 1 GiB never do (`HpackDecoder.SmallBlocksExact`).
* src/h2/mod.rs:12-15 and src/h2/huffman.rs:3-6 say that there is no decoder; there is one.

Character strings are sequences of characters. Header values reach the cookie code through a conversion
that admits only visible ASCII, so lengths in characters are lengths in bytes.

## Model

| member | source | states |
|---|---|---|
| HuffmanTable.RankedEntry | src/h2/huffman.rs:185-250 | the code table is canonical: the codes of each length are consecutive, in rank order |
| HuffmanCode.EveryRanked | src/h2/huffman.rs:185-250 | each of the 257 symbols has exactly one rank, by counting |
| HuffmanCode.PrefixFree | src/h2/huffman.rs:185-250 | no code begins another |
| HuffmanCode.Complete | src/h2/huffman.rs:53-61 | whatever bit follows a proper prefix of a code, the result still begins a code, so a walk never meets a missing child |
| HuffmanCode.ParseUnique | src/h2/huffman.rs:49-89 | a bit string is cut into codes in at most one way |
| HuffmanCode.EncodingInjective | src/h2/huffman.rs:11-31 | different byte strings have different encodings |
| HuffmanCode.EncodingLength | src/h2/huffman.rs:36-42 | the encoding has the bit count of the codes rounded up to bytes, and at least five eighths of the input's length |
| Huffman.AppendCode | src/h2/huffman.rs:17-18 | shifting a 64-bit word and or-ing a code appends the code to the pending bits; nothing pending is lost to the word size |
| Huffman.Encode | src/h2/huffman.rs:11-31 | the bytes written are the concatenated codes followed by 1-bits up to a byte boundary |
| Huffman.EncodedLen | src/h2/huffman.rs:36-42 | the computed length is the length of the encoding |
| Huffman.TreeMarks | src/h2/huffman.rs:96-158 | in the finished tree prefix_of_eos holds exactly on the paths that begin the code of EOS, and there all_ones_depth is the length of the path |
| HuffmanTree.Tree.InsertSymbol | src/h2/huffman.rs:137-167 | inserting a code adds exactly its prefixes as paths and puts the symbol at its end, leaving other symbols alone |
| HuffmanTree.FullTree | src/h2/huffman.rs:118-135 | in the finished tree a code ends at its own leaf, and every other node is inside a code and has both children |
| HuffmanTree.CodeWalk | src/h2/huffman.rs:118-135 | walking a code from the root meets no symbol before its own |
| Huffman.BuildTree | src/h2/huffman.rs:118-135 | the loop over the table and EOS builds exactly the tree of the 257 codes |
| Huffman.WalkEnd | src/h2/huffman.rs:80-88 | a walk that stops inside the tree is accepted exactly when it stops in at most seven 1-bits |
| Huffman.Decode | src/h2/huffman.rs:49-89 | the walk returns what the input is the encoding of, EosInStream when the code of EOS stands where a code was due, and BadPadding otherwise |
| Huffman.DecodingInvertsEncoding | src/h2/huffman.rs:49-89 | an input decodes to s if and only if it is the encoding of s |
| Huffman.EncodingHasNoEos | src/h2/huffman.rs:69-73 | no encoding contains the code of EOS |
| HpackInteger.WriteInteger | src/h2/hpack.rs:129-161 | the bytes appended are the prefix byte and the base-128 digits, with zero digits inserted before the last |
| HpackInteger.ReadInteger | src/h2/hpack.rs:446-476 | reads the value and end position, or the end-of-input position, or overflow, with digits cut to 32 bits at each shift |
| HpackInteger.IntegerRoundTrip | src/h2/hpack.rs:129-161 | reading inverts writing for every 32-bit value, prefix size, pattern and rest, with the exact end position |
| HpackInteger.BloatRoundTrip | src/h2/hpack.rs:150-161 | with one to three extra bytes the value survives exactly when it is at most 2^n - 1; otherwise another value or overflow is read |
| HpackInteger.BloatExample | src/h2/hpack.rs:150-161 | a length of 128 with one extra byte reads as 255 |
| HpackInteger.ReadExactly | src/h2/hpack.rs:446-476 | any byte string with a full prefix reads as the numeral on the wire less what a fifth digit loses at shift 28, or overflows |
| HpackInteger.ReadFaithful | src/h2/hpack.rs:462-475 | what is read is the numeral on the wire exactly when there is no fifth continuation byte or it is below 16 |
| HpackInteger.ReadLossExample | src/h2/hpack.rs:462-475 | a number of 33 bits is accepted and reads as 127 |
| HpackEncoder.WriteString | src/h2/hpack.rs:168-181 | appends the string literal, Huffman-coded when forced or shorter |
| HpackEncoder.EncodeOne | src/h2/hpack.rs:67-115 | appends the header's literal representation, or gives the first reason to refuse it |
| HpackEncoder.EncodeHeaders | src/h2/hpack.rs:59-65 | a block is the concatenation of its headers' forms, or the first refusal |
| HpackEncoder.BlockRefused | src/h2/hpack.rs:59-83 | a list is accepted exactly when every header is; otherwise the first refused header's reason is reported |
| HpackEncoder.AcceptedExactly | src/h2/hpack.rs:67-105 | a header is accepted exactly when its overlong lengths, its index or its name, and its value are allowed, names being lowercase tokens of RFC 7230 |
| HpackEncoder.RefusedFor | src/h2/hpack.rs:67-105 | which reason is given, and that of several it is the first in order |
| HpackEncoder.TokenChars | src/h2/hpack.rs:211-220 | the token characters are the visible ASCII characters that are neither delimiters nor capitals |
| HpackWire.RepresentationByte | src/h2/hpack.rs:87-91 | the first byte is 01xxxxxx with indexing, 0000xxxx without, 0001xxxx for never |
| HpackWire.CodingChosen | src/h2/hpack.rs:168-179 | the high bit of a string says it is Huffman-coded: as told, or else exactly when that is shorter |
| HpackWire.ShortestForm | src/h2/hpack.rs:168-181 | left to itself the encoder takes the shorter form |
| HpackTable.FitLongest | src/h2/hpack.rs:405-424 | the kept entries are the longest prefix, newest first, that fits |
| HpackTable.FitInsert | src/h2/hpack.rs:405-424 | entries already evicted never matter to a later insertion |
| HpackTable.FitFit | src/h2/hpack.rs:426-435 | shrinking a table is fitting its history to the smaller bound |
| HpackTable.SizesExactly | src/h2/hpack.rs:405-424 | an entry counts its name, its value and 32 bytes; one or two are kept exactly when the sizes add up |
| HpackTable.WrappedExact | src/h2/hpack.rs:405-424 | inserting with sizes in 32-bit words inserts as it should exactly when the sizes do not wrap |
| HpackTable.WrapExample | src/h2/hpack.rs:415-423 | two entries of 2 GiB are both kept in a table of 2 GiB |
| HpackDecoder.Decoder.Evict | src/h2/hpack.rs:415-421 | evicting from the old end leaves the longest prefix that leaves room, with its size, and evicts nothing where the sum wraps |
| HpackDecoder.Decoder.AddToDynamicTable | src/h2/hpack.rs:405-424 | for any table and entry the new table is the 32-bit insertion; where that is exact, the longest fitting prefix of the history with the new entry, its size exact |
| HpackDecoder.Decoder.ResizeTable | src/h2/hpack.rs:426-435 | a size update lowers the maximum and keeps what still fits |
| HpackDecoder.SmallBlocksExact | src/h2/hpack.rs:405-424 | with a table under 2 GiB a block up to 1 GiB never makes a size wrap |
| HpackDecoder.ReadString | src/h2/hpack.rs:480-497 | reads one string literal and its end position, or the reader's error at its absolute position |
| HpackDecoder.Decoder.DecodeOne | src/h2/hpack.rs:337-385 | one representation: its field, its effect on table and history, and no effect when it fails |
| HpackDecoder.Decoder.DecodeHeaders | src/h2/hpack.rs:333-387 | the loop's result, table and history are those of the block's representations in order; the table invariant survives errors and the maximum never grows |
| HpackProperties.StringRoundTrip | src/h2/hpack.rs:480-497 | a string literal reads back, for either coding, whatever follows, exactly when its length fits a 32-bit word and is at most 127 if overlong |
| HpackProperties.HeaderRoundTrip | src/h2/hpack.rs:67-115 | an encoded header reads back as one literal field with its indexing, the static name substituted under a forced index, exactly when its strings do |
| HpackProperties.BlockRoundTrip | src/h2/hpack.rs:333-387 | decoding an encoded list gives the list back from any decoder state exactly when every string does, and then leaves exactly the indexed headers inserted, in order |
| HpackProperties.ReferBack | src/h2/hpack.rs:389-403 | after any block, index 62 + k decodes to the field inserted k insertions ago while it is kept, and is refused once it is not |
| HpackProperties.RepeatHeader | src/h2/hpack.rs:389-403 | a header sent for indexing that fits comes out a second time for the single byte 0xBE |
| HpackStaticList.ListedDistinct | src/h2/hpack.rs:259-291 | no two of the 61 rows of Appendix A are the same |
| HpackStaticList.TableIsListed | src/h2/hpack.rs:259-291 | the static table is the list of Appendix A, row by row |
| HpackWire.StaticReference | src/h2/hpack.rs:338-342 | from any table, an indexed field 1 to 61 decodes to that row, name and value, and leaves the table alone; 0 is refused |
| HpackWire.StaticReferencesDiffer | src/h2/hpack.rs:389-396 | different static indices give different fields |
| HpackWire.NamedByReference | src/h2/hpack.rs:343-358 | a literal named by an index takes the name of that static row, or of the field inserted k insertions ago while it is kept, and is inserted exactly when indexed |
| HpackWire.SizeUpdated | src/h2/hpack.rs:359-368 | a size update up to the maximum becomes the maximum and drops what no longer fits; a larger one is refused and changes nothing |
| HpackWire.IntegerCut | src/h2/hpack.rs:446-476 | an integer cut short is reported at the end of the input |
| HpackWire.StringCut | src/h2/hpack.rs:480-497 | a string cut short is reported where the cut or the missing end is |
| HpackProperties.DecodedConcat | src/h2/hpack.rs:333-387 | after a block that decodes, what follows decodes as a block of its own from the table left behind |
| HpackProperties.DecodedBase | src/h2/hpack.rs:333-387 | where a block starts changes only the positions in errors |
| HpackProperties.DecodedFits | src/h2/hpack.rs:301-436 | after any block, failed or not, the table is the longest fitting prefix of the history |
| HpackProperties.RunFits | src/h2/hpack.rs:301-436 | the same over any run of blocks, with a maximum that never grows |
| Frames.BuildRawFrame | src/h2/frame.rs:51-70 | nine header bytes, big-endian length and stream with the reserved bit clear, then the payload |
| Frames.FrameRoundTrip | src/h2/frame.rs:51-70 | a frame reads back, whatever follows it |
| Frames.WalkRoundTrip | src/h2/frame.rs:51-70 | concatenated frames walk back into the same frames |
| Frames.BuildSettingsFrame | src/h2/frame.rs:75-84 | a SETTINGS frame carries its pairs in six bytes each |
| Frames.SettingsRoundTrip | src/h2/frame.rs:75-84 | the pairs of a SETTINGS payload read back |
| Frames.BuildHeadersFrame | src/h2/frame.rs:105-135 | the HEADERS frame with pad length, priority, fragment, padding and matching flags |
| Frames.HeadersRoundTrip | src/h2/frame.rs:105-135 | stripping padding and priority gives the fragment back, and the priority with its dependency cut to 31 bits |
| Frames.BuildContinuationFrame | src/h2/frame.rs:139-142 | the CONTINUATION frame around a fragment |
| Frames.BuildDataFrame | src/h2/frame.rs:145-160 | the DATA frame around padded data |
| Frames.PaddedRoundTrip | src/h2/frame.rs:145-160 | padding comes off exactly |
| Frames.FrameBytes | src/h2/frame.rs:22-38 | the type and flag bytes of each frame, in the numbers of RFC 9113 |
| Frames.FrameNumbers | src/h2/frame.rs:51-70 | length and stream stand most significant byte first, the reserved bit clear |
| Frames.PaddingBytes | src/h2/frame.rs:105-124 | padding is a length byte before and as many zero bytes after |
| Frames.PriorityBytes | src/h2/frame.rs:110-117 | the dependency under the exclusive bit, then the weight |
| Frames.SettingBytes | src/h2/frame.rs:78-82 | each setting adds its identifier in two bytes and its value in four |
| Probe.BuildProbe | src/h2/probe.rs:84-146 | preface, settings, extra bytes, block frames, body frame and extra bytes in order, or the encoder's error |
| Probe.ProbeWalk | src/h2/probe.rs:84-146 | after the preface a probe without extra frames walks into exactly its frames |
| Probe.ProbeWalkExtra | src/h2/probe.rs:84-146 | with any extra frames, they stand in their places: between the settings and the block, and last |
| Probe.PrefaceOctets | src/h2/probe.rs:88-93 | a probe starts with the 24 octets of RFC 9113, unless they are replaced or left out |
| Probe.BlockSplit | src/h2/probe.rs:111-134 | the block is split where asked, with the rest in one CONTINUATION frame, if any |
| Probe.ProbeReceived | src/h2/probe.rs:84-146 | a receiver finds the settings, priority, whole block at every split point, body and end of stream |
| Probe.FlagsOnce | src/h2/probe.rs:101-141 | END_HEADERS is on the last block frame only, END_STREAM on exactly one frame unless forced off with no body |
| Probe.ProbeDelivers | src/h2/probe.rs:84-146 | end to end, the receiver decodes the headers that were sent, from any table |
| RateLimiter.StepKeeps | src/batch.rs:69-109 | every step of every task keeps each slot equal to the larger of cursor and clock, and chained to the one before |
| RateLimiter.SlotsSpaced | src/batch.rs:75-86 | below saturation slots are at least an interval apart in the order they are won |
| RateLimiter.SlotsOfRun | src/batch.rs:69-109 | over every interleaving: slots are spaced, none is earlier than its call, no call returns a millisecond or more early |
| RateLimiter.WinsAlone | src/batch.rs:75-92 | in every state of every run a call in progress wins a slot of its own within five steps of its task if left alone, its start unchanged |
| RateLimiter.PromptReturn | src/batch.rs:93-108 | in every state of every run a call holding a slot the clock has reached can return at once, within two steps of its task |
| RateLimiter.SleepsToSlot | src/batch.rs:104-108 | a sleeping call stays where it is until the clock reaches its slot |
| RateLimiter.OnTime | src/batch.rs:93-108 | however long the wait found at the first look, some run returns exactly at the slot |
| RateLimiter.RateBound | src/batch.rs:69-109 | over every run, c calls inside a window of length w satisfy (c - 1) * interval < w + 1ms |
| RateLimiter.RateExact | src/batch.rs:69-109 | some run serves c calls inside some window of length w if and only if (c - 1) * interval < w + 1ms, as long as c slots fit 64 bits |
| RateLimiter.EarlyReturn | src/batch.rs:93-108 | for every time under a millisecond some call returns that much before its slot |
| Batch.StepKeeps | src/batch.rs:139-182 | free permits plus in-flight sends stay at the concurrency, results stay those of the first requests in order, and each step brings the end nearer by one |
| Batch.BatchCompletes | src/batch.rs:139-182 | with concurrency at least 1 a run that can go no further has one result per request, in input order, after exactly 4n steps |
| Batch.NoPermitsNoResults | src/batch.rs:139-182 | with concurrency 0 nothing is ever sent or collected |
| BatchStream.PlayedKeeps | src/batch.rs:211-251 | every run keeps permits plus in-flight sends at the concurrency and each finished result queued or delivered exactly once |
| BatchStream.StreamCompletes | src/batch.rs:211-251 | with concurrency at least 1 the stream stops exactly when it has closed, within 3n steps |
| BatchStream.NoPermitsNoStream | src/batch.rs:211-251 | with concurrency 0 no step is possible, and the stream is closed only if there are no requests |
| BatchStream.StreamDelivers | src/batch.rs:211-251 | a closed stream has delivered, once each, exactly the results of the requests whose task did not panic |
| CookieRules.TrailingDots | src/cookies.rs:288-302 | the canonical host is the documented one, a single dot stripped, exactly unless the host ends in two dots |
| CookieRules.TrailingDotsExample | src/cookies.rs:288-302 | `a..` becomes `a`, not `a.` |
| CookieRules.CanonicalText | src/cookies.rs:288-302 | brackets come off, dots come off the end, letters are lowered |
| CookieRules.DomainLabels | src/cookies.rs:331-341 | a domain reaches itself and, unless the host is an address, the hosts whose labels end in its own |
| CookieRules.PathSegments | src/cookies.rs:345-353 | a cookie path covers the paths whose segments begin with its own, properly if it ends in a slash |
| CookieRules.DefaultPathExactly | src/cookies.rs:357-365 | the default path is the request path without its last segment, or the root |
| CookieRules.DomainMatchesOrder | src/cookies.rs:331-341 | domain matching is reflexive and transitive, addresses included |
| CookieRules.PathMatchesOrder | src/cookies.rs:345-353 | path matching is reflexive and transitive |
| CookieRules.DefaultPathCovers | src/cookies.rs:357-365 | the default path covers the request path exactly when that path is absolute |
| CookieRules.ParseSetCookie | src/cookies.rs:374-480 | the attribute loop takes the last usable Domain and Path, any Secure, the last Max-Age over the last Expires, and scopes or refuses the domain |
| CookieRules.ParsedScope | src/cookies.rs:413-457 | an accepted cookie is host-only, or its domain covers the setter and shares its registrable domain |
| CookieRules.ParsedPair | src/cookies.rs:374-380 | stored names and values are trimmed and free of the separators they are printed with |
| SetCookieText.BarePair | src/cookies.rs:374-380 | a bare name=value is a session cookie for its own host and the default path, not secure, not expired |
| SetCookieText.ParsedHasPair | src/cookies.rs:375-380 | a value without a named pair is refused |
| SetCookieText.SecureAppended | src/cookies.rs:404-405 | "; Secure" makes the cookie secure and changes nothing else |
| SetCookieText.SecureExactly | src/cookies.rs:404-405 | a cookie is secure exactly when some attribute is called Secure |
| SetCookieText.PathAppended | src/cookies.rs:400-403 | "; Path=p" decides the path if p is absolute, and nothing else |
| SetCookieText.MaxAgeAppended | src/cookies.rs:406-407 | "; Max-Age=n" decides the expiry when n is a number, whatever Expires says |
| SetCookieText.ExpiresAppended | src/cookies.rs:408-410 | "; Expires=d" decides the expiry unless a Max-Age does |
| SetCookieText.DomainAppended | src/cookies.rs:413-457 | a last "; Domain=d" decides exactly whether the cookie is refused, kept to the host, or given to d |
| SetCookieText.OtherAppended | src/cookies.rs:389-411 | an attribute of any other name changes nothing |
| SetCookieText.NumberRoundTrip | src/cookies.rs:406-407 | a decimal numeral, signed or not, reads as its number when it fits 64 bits |
| SetCookieText.NotANumber | src/cookies.rs:406-407 | anything else is not read as a number |
| Cookies.DecisionKeeps | src/cookies.rs:159-208 | every decision keeps at most 50 cookies, each and all within their byte budgets, keys unique, caller names out; every refusal changes nothing |
| Cookies.DecisionExactly | src/cookies.rs:159-208 | which cookies are refused, removed or stored, and the store after: a replacement is credited the room it frees and goes to the end |
| Cookies.CostOf | src/cookies.rs:57-66 | a cookie costs what its pair and separator take in the header |
| Cookies.ReportExactly | src/cookies.rs:90-101 | the report names, once each, the cookies refused as the caller's own and those refused for size |
| Cookies.ChainCookies.StoreOne | src/cookies.rs:164-206 | the store after one cookie is the one its decision calls for, a replaced cookie moving to the end |
| Cookies.ChainCookies.Store | src/cookies.rs:144-209 | all lines of a response are absorbed in order, each recorded, and the refused names reported |
| CookieHistory.ChainKeeps | src/cookies.rs:144-209 | over any chain of responses the store is exactly the accepted cookies not since replaced or removed, in order, and each came from a hop's Set-Cookie |
| CookieHistory.EveryLineLogged | src/cookies.rs:144-209 | every Set-Cookie line that parses, of every response of a chain, is in the record |
| CookieHistory.LiveAfter | src/cookies.rs:177-206 | one more arrival removes exactly the live cookies it overrides |
| CookieHeaders.ByPathSorts | src/cookies.rs:247-250 | the sort keeps the cookies, puts longer paths first and ties in stored order |
| CookieHeaders.HeaderFits | src/cookies.rs:57-66 | any emitted header is at most 8190 bytes |
| CookieHeaders.PrintRoundTrip | src/cookies.rs:252-260 | printed pairs split back into exactly the pairs printed |
| CookieHeaders.HeaderRoundTrip | src/cookies.rs:221-261 | a hop's header reads back as exactly the matched pairs in sorted order |
| CookieHeaders.SentBack | src/cookies.rs:219-243 | a cookie with no Domain and no Path applies to its own URI exactly when the path is absolute and the transport allowed |
| CookieHeaders.AppliesExactly | src/cookies.rs:219-243 | a cookie applies exactly when transport, host labels and path segments allow |
| CookieHeaders.MatchedAppend | src/cookies.rs:224-243 | choosing goes cookie by cookie, in stored order |
| CookieMerge.CallerCookieNames | src/cookies.rs:269-286 | the distinct names of every Cookie line, in first-seen order |
| CookieMerge.MergeCookies | src/client/hyper.rs:1326-1361 | the chain's cookies join the first Cookie line, or get one of their own |
| CookieMerge.MergedValueNames | src/client/hyper.rs:1340-1350 | trimming and joining lose no name and add none |
| CookieMerge.MergedValuePairs | src/client/hyper.rs:1340-1350 | the merged line reads back as exactly the caller's pairs, values included, then the chain's |
| CookieMerge.MergedText | src/client/hyper.rs:1340-1350 | whatever separators and spaces trail the caller's value, exactly one "; " stands between it and the chain's |
| CookieMerge.MergedLines | src/client/hyper.rs:1326-1361 | only the first Cookie line changes, and only its value; without one a line is added |
| CookieMerge.NamesFromPairs | src/cookies.rs:269-286 | the names in a header are the non-empty names of its pairs |
| CookieMerge.MergedNames | src/client/hyper.rs:1326-1361 | the merged request names the caller's first cookies, the chain's, then the caller's others |
| CookieMerge.MergedOrder | src/client/hyper.rs:1326-1361 | the server sees the union; the caller's names come first exactly when later Cookie lines add none |
| CookieMerge.MergedOrderExample | src/client/hyper.rs:1326-1361 | two Cookie lines of the caller's with the chain's name between them |
| Redirects.SendInner | src/client/hyper.rs:1719-1846 | the loop's requests are a run, hop by hop with the cookies the replies so far call for, within the redirect limit, and it stops for the reason given |
| Redirects.RunStops | src/client/hyper.rs:1719-1846 | a run follows only the five redirect statuses to where they lead, within the limit, and ends for the reason its last reply gives |
| Redirects.RunForwards | src/client/hyper.rs:1719-1846 | the first request, and every one without forwarding, carries no cookie of the chain |
| Redirects.Provenance | src/client/hyper.rs:1801-1842 | a cookie sent on a hop is the last accepted Set-Cookie for its key from an earlier hop whose host could speak for its domain |
| Redirects.RunProvenance | src/client/hyper.rs:1719-1846 | over a whole run, every pair of every Cookie header is justified by an earlier hop and applies to the hop: the labels of both hosts end in the cookie's domain, the path lies under its path, Secure needs https; none is a caller's name; headers fit |
| Redirects.RunSecure | src/client/hyper.rs:1719-1846 | over a whole run, what a hop that is not https is sent was last set by a line without Secure |
| Redirects.RunMerge | src/client/hyper.rs:1326-1361 | on every hop the caller's and the chain's names are disjoint and both reach the server |
| Redirects.ComesBack | src/cookies.rs:219-243 | after any chain of responses, a live cookie set with no Domain and no Path is chosen for the URI that set it exactly when the path is absolute and Secure does not forbid |
| Redirects.RunComesBack | src/client/hyper.rs:1801-1842 | over a whole run, a request back to the URI that set such a cookie carries it, as a pair of its Cookie header |
| ContentCoding.Decompress | src/client/hyper.rs:1929-2017 | the loops over the listed codings give the peeled body and the first complaint |
| ContentCoding.TokenAppended | src/client/hyper.rs:1934-1953 | which token names which coding, in order; empty tokens and identity add none, an unknown one is refused |
| ContentCoding.SingleCoding | src/client/hyper.rs:2106-2218 | what one decoder's stream comes to: whole, cut at the cap, partial, or the bytes as they arrived; deflate tries what the first bytes point at, then the other |
| ContentCoding.ZlibHeaderExactly | src/client/hyper.rs:2165-2175 | method 8 and a multiple of 31 |
| ContentCoding.PeelsDeepest | src/client/hyper.rs:1962-2017 | the body is what is left at the first failure or at the end, with that layer's complaint or the outermost partial one |
| ContentCoding.PayloadAppended | src/client/hyper.rs:2223-2252 | data frames add their bytes, trailers none, and nothing counts after a broken frame |
| ContentCoding.ContentExactly | src/client/hyper.rs:2029-2050 | there is no decode error exactly when there is no data, or every token is known and every coding comes off whole in reverse order |
| ContentCoding.Recovered | src/client/hyper.rs:1929-2017 | a body built by applying the listed codings is recovered whenever every intermediate fits the cap |
| ContentCoding.DecompressedBounded | src/client/hyper.rs:1922-1926 | a body within the cap stays within it through every layer |
| ContentCoding.ReadBody | src/client/hyper.rs:2223-2252 | the first max_size bytes of the frames, marked cut exactly when there are more |
| ContentCoding.ParseBody | src/client/hyper.rs:1411-1496 | the final body never exceeds the cap |
| Calendar.NextIsOneMore | src/cookies.rs:570-578 | each calendar day adds exactly one, across months, leap years and eras |
| Calendar.DaysCount | src/cookies.rs:570-578 | n days later on the calendar is n more |
| Calendar.Epoch | src/cookies.rs:559-578 | 1970-01-01 is day 0 and n days after it is day n |
| Cidr.SamePrefix | src/config.rs:247-268 | comparing masked addresses is comparing their leading bits, for both families |
| Cidr.BlockIsInterval | src/config.rs:247-268 | a block is the aligned interval of 2^(width - prefix) addresses |
| Cidr.BlocksNest | src/config.rs:247-268 | blocks that share an address are nested |
| Cidr.OutsideBlocks | src/config.rs:247-268 | addresses of different families share no block, and no prefix is longer than the address |
| Cidr.StarAndNothing | src/config.rs:185-193 | "*" matches every host, an empty pattern none |
| Cidr.BlockPattern | src/config.rs:195-207 | net/prefix matches exactly the addresses in the block |
| Cidr.AddressPattern | src/config.rs:209-214 | an address matches itself alone |
| Cidr.NamePattern | src/config.rs:216-223 | a name, with or without stars and dots, matches exactly the hosts whose labels end in its own, never an address |
| Cidr.SuffixLabels | src/config.rs:230-243 | suffix matching is matching of labels, whatever the case |
| Cidr.HostBypassesProxy | src/config.rs:174-228 | the loop with its early returns says whether some pattern matches the host |
| Cidr.BypassOfAddress | src/config.rs:174-215 | an address, in brackets or not, bypasses by exactly that address |
| Cidr.BypassOfName | src/config.rs:174-228 | a name, with or without dots at its end, bypasses by the names it is under; no host never does |
| Cidr.BypassIsDisjunction | src/config.rs:174-228 | the verdict on a list is the disjunction of the verdicts on its patterns alone |
| Cidr.BypassMonotone | src/config.rs:174-228 | more patterns, in any order, never take a bypass away |
| Sanitizer.SanitizeUri | src/client/hyper.rs:25-58 | the bytes of the returned string: existing escapes as they are, escapes for the bytes a URI may not contain, and every other byte as the character of its number |
| Sanitizer.MeaningKept | src/client/hyper.rs:21-58 | percent-decoding a sanitized URL gives what the original decodes to if and only if every byte is ASCII |
| Sanitizer.Idempotent | src/client/hyper.rs:21-58 | sanitizing twice is sanitizing once if and only if every byte is ASCII |
| Sanitizer.AccentExample | src/client/hyper.rs:53-56 | the two bytes of an accented letter come out as four |
| Sanitizer.Clean | src/client/hyper.rs:30-35 | no byte that must be encoded is left |
| Sanitizer.KeptExactly | src/client/hyper.rs:21-58 | a URL is left as it is exactly when it is ASCII and has no rejected character |
| Sanitizer.EscapeIsUpper | src/client/hyper.rs:51 | an escape is a percent sign and two digits, letters as capitals |

## Left out

- Huffman.Decode: the tree is built afresh by each call; the source builds the tree once and shares it, with the same contents.
- HpackDecoder.Decoder.DecodeHeaders: what a block decodes to after one of its own insertions has wrapped a 32-bit size (HpackTable.WrappedExact says when one does; a build that checks overflow stops there instead).
- Probe.BuildProbe: requires the frame payloads to be under 2^24 bytes, which the source asserts.
- RateLimiter.RateExact: about runs whose cursor has not saturated at the largest 64-bit number.
- RateLimiter: the conversion of requests per second to an interval, and memory orderings weaker than the single atomic cursor.
- Batch.StepKeeps: the time a spawn waits for the rate limiter is not modelled; a spawn may happen at any moment.
- BatchStream.StreamDelivers: the moment a consumer drops the stream early is not modelled.
- ContentCoding.Decompress: error texts are replaced by a structured reason; the real decompressors and how they chunk their output are abstract.
- CookieRules.ParseSetCookie: date parsing (`parse_http_date`), the Public Suffix List and address parsing are parameters.
- Redirects.SendInner: connection modes, proxies, the direct-dispatch path, per-hop bookkeeping (redirect chain entries, peer addresses, timings, logs) and URI parsing and resolution.
- Cidr.HostBypassesProxy: address and prefix-length parsing are parameters.
- `merge_limiters` across callers: a stricter per-call limiter replaces the shared one, so no joint bound follows.
- `retry_backoff`, multipart bodies, mocks, the Python binding, the command line, TLS, sockets, raw connections and proxy handshakes: input and output, or single formulas.
- The remaining frame builders (WINDOW_UPDATE, PING, RST_STREAM, GOAWAY, PRIORITY) and tests: would only add easy members.
