# Voleeo core, modelled and proved in Dafny

Voleeo is a desktop API client. This project models the parts of its Rust core where state or recursion is subtle,
and proves what those parts are for. Text is a sequence of bytes, `new_id` is a supply of distinct ids, `order` is an
integer, and payloads that the algorithms never look into are opaque bytes.

| Component | Files | What is proved |
|---|---|---|
| Server-sent events | `SseDecoder`, `SsePrinting`, `SseLayout`, `SseConsumers` | The byte-level decoder gives the same frames however the stream is cut, with the exact condition; layout does not matter, and every frame is what its field lines say; printing and decoding are inverse, with the exact condition; when the live read and the sink-less read of one stream agree, with the exact condition |
| In-flight cancellation | `InFlight` | An inductive invariant over every interleaving of draw, register, cancel, complete and cleanup; the token bound under which it holds is exact |
| Request signing | `Utf8`, `Encode`, `Signing` | Percent-encoding round trip and injectivity; canonical query, canonical path, OAuth base string and signing key identify what is signed, with the exact price of repairing ill-formed UTF-8 |
| Response bodies | `BodyWindow`, `BodyCache`, `BodySearch` | Line index, bracket folds, bounded cache and search against independent definitions |
| Cookies | `Cookies` | Matching, default paths, identities over every run, invisible pruning, and exactly when an accepted cookie comes back |
| Path trie | `PathTrie` | Grouping conserves requests and puts each one where its path says |
| `$ref` and examples | `RefExample`, `ExampleMeaning` | Termination on every document, what a reference resolves to, what an example holds for every kind of schema, and a bound on its depth |
| Import | `ImportIr`, `ImportTree`, `ImportThenExport`, `ImportPreview` | Flattening a tree and exporting it gives the tree back; preview ids and selection |
| Export | `Forest`, `Bundles`, `PostmanExport`, `ExactlyOnce`, `ExportRun`, `InheritedAuth`, `ExportedAuth` | Folder selection as closures on possibly cyclic parent links; exactly-once export of one workspace and of a whole collection, with the exact condition; the auth every exported item carries |

`Utf8` is the repair of `String::from_utf8_lossy`. `Text` and `Sequences` hold the pieces of Rust's `str`, `slice` and `sort_by` the model relies on.
`dafny verify dfyconfig.toml` covers all of it.

## How the model is laid out

Code that updates state is a class or a method with the loops of the source (`SseDecoder`, `SseAccum`,
`HttpExecutor`, `BodyCache`, `CookieJar`, `Bundle`, `ConvertedPlan`); its contract ties the new state to a function of
the old one, and the theorems are about that function, over all inputs, runs or reachable states. Code that is
recursion and expressions is functions.

The two standards followed by the code are the WHATWG HTML Living Standard, sections 9.2.5 and 9.2.6, for event
streams, and RFC 6265, sections 5.1.3, 5.1.4, 5.3 and 5.4, for cookies; signing follows sections 2.1 and 2.3 of
RFC 3986, sections 3.4.1.1 and 3.4.1.3.2 of RFC 5849, and the canonical request of AWS Signature Version 4.

## What the proofs show that the code does not say

- Chunking of an event stream matters in one situation only. The byte order mark is looked for once three bytes have
  arrived, but a line that ends within the first two bytes is drained at once, so a mark right after such a line is
  removed or kept depending on where the chunks were cut. `ChunkingExact` shows that this is the whole condition.
- A printed frame loses a final carriage return of its event name, of its id and of each data line, ill-formed UTF-8 is
  repaired, and nothing else changes; `PrintDecodeRoundTrip` gives the exact set of frames that come back.
- The live read and the sink-less read of a stream that ends normally hold the same frames up to the cap. After a failure
  they agree if and only if no frame is left open or the sink-less read has reached the cap before; else it has one frame
  more, since it flushes what is left open and the live read does not (`ReadBothWays`, `FailureSplitsConsumers`).
- `percent_decode` repairs ill-formed UTF-8, so `a=%FF` and `a=%FE` are signed alike (`RepairCollides`). A canonical query
  identifies the decoded parameters always, and the bytes its escapes denote exactly when no decoded key or value holds
  U+FFFD (`CanonicalQueryIdentifiesBytes`).
- Cleanup in `send_scoped` compares 64-bit tokens. The invariant holds in every run that draws at most 2^64 of them,
  and `WrapAroundBreaksCleanup` gives a run with one more in which a cleanup removes another send's handle.
- A send that is replaced is stopped even if its token is the larger one: newest means last to insert. The comment in
  crates/voleeo-http/src/lib.rs:277-279 says that dropping another send's handle would silently disarm its cancel;
  in the code a dropped handle resolves the receiver at once, so it would cancel that send instead. The model follows
  the code.
- The OAuth base string identifies method, URL and parameters for every method text, with or without `&`: the two
  encoded parts hold no `&`, so the string can be read from the right. It does not tell a query parameter from a protocol
  parameter of the same name, so `oauth_token=t` in the query is signed like the token `t` (`TokenInQueryCollides`);
  `BaseStringCoversProtocol` shows that reserved keys in the query are the only case.
- The canonical path identifies the path, with the one exception that the empty path is signed as `/`.
- In an export, a request is lost exactly when it lies below a selected folder that is on a cycle of parent links:
  such a folder counts as its own selected ancestor, so it is no root (`CycleLosesRequest`). The application's own command
  refuses a selected folder that has a parent (src-tauri/src/commands/export/mod.rs:316-325), and then nothing is lost;
  only other callers of the crate's public functions can meet the case. A workspace exported whole loses exactly what
  lies below a missing folder or on a cycle (`MissingFolderLosesRequest`).
- A reference in a schema is expanded once per example, cyclic or not; a second use of the same reference gives
  `null`.
- A cookie accepted from a URL comes back to that URL unless its header has let it expire, its path does not cover the
  URL, or the header names no domain and the host starts with a dot (`DottedHostLosesItsCookie`: stored domains lose
  their leading dots, hosts do not).

## Model

| member | source | states |
|---|---|---|
| SseDecoding.SseDecoder.PushChunk | crates/voleeo-http/src/sse.rs:32-56 | One `push` takes the abstract decoder state to the state and frames of `Push`, byte order mark check and draining loop included |
| SseDecoding.SseDecoder.FinishStream | crates/voleeo-http/src/sse.rs:60-72 | `finish` feeds the unterminated line, flushes a gathered frame and leaves an empty decoder |
| SseDecoding.SseDecoder.FeedLine | crates/voleeo-http/src/sse.rs:74-95 | One line dispatches, is a comment, sets a field or is ignored; buffer and mark flag stay |
| SseDecoding.SseDecoder.TakeFrame | crates/voleeo-http/src/sse.rs:97-107 | The frame holds what was gathered, data lines joined by LF, and nothing stays gathered |
| SseDecoding.PushReachable | crates/voleeo-http/src/sse.rs:32-56 | What every `push` keeps: a decoder that has not looked for the mark has fewer than three bytes buffered and has gathered nothing it could misread |
| SseDecoding.PushTwo | crates/voleeo-http/src/sse.rs:32-56 | One `push` of two pieces joined is two pushes, unless a line ended before the mark check |
| SseDecoding.ChunkingIrrelevant | crates/voleeo-http/src/sse.rs:32-56 | For any split of a stream, frames and final state are those of one `push` of the whole, when the mark check is done or no line ends in the first two bytes |
| SseDecoding.ChunkingExact | crates/voleeo-http/src/sse.rs:32-56 | The condition is necessary as well: a decoder with two bytes seen gives cut-independent frames for every continuation if and only if neither byte is LF |
| SsePrinting.DecodePrint | crates/voleeo-http/src/sse.rs:32-107 | Any list of frames with one-line names, printed and decoded over any chunking, comes back with only final carriage returns lost and ill-formed UTF-8 repaired |
| SsePrinting.PrintDecodeRoundTrip | crates/voleeo-http/src/sse.rs:32-107 | Printing then decoding is the identity over every chunking if and only if every frame has one-line fields of well-formed UTF-8 without a final carriage return |
| SsePrinting.DecodedOneLine | crates/voleeo-http/src/sse.rs:74-107 | Every frame decoded from any chunks has an event name and an id without line feeds |
| SseLayout.LayoutIrrelevant | crates/voleeo-http/src/sse.rs:32-95 | Two streams whose lines agree up to comments and unknown fields anywhere, a space after the colon or none, a bare name or one with a colon, CRLF or LF, a byte order mark, and the cutting into chunks decode to the same frames |
| SseLayout.DecodesBlocks | crates/voleeo-http/src/sse.rs:32-107 | Field lines in any order and number, in any such layout over any chunks, decode to one frame per non-empty block: its last event name, id and retry time and all its data lines |
| SseLayout.UnfinishedCounts | crates/voleeo-http/src/sse.rs:60-72 | What a stream leaves unfinished is decoded as if its last line and a blank line had come |
| SseLayout.RetryTimeMeaning | crates/voleeo-http/src/sse.rs:90 | A retry time is an optional plus sign and decimal digits of a number below 2^32, and nothing else is |
| SseConsumers.SseAccum.Open | crates/voleeo-http/src/sse_accum.rs:36-47 | Opening stores status and set-up rows and keeps the frames |
| SseConsumers.SseAccum.Frame | crates/voleeo-http/src/sse_accum.rs:50-60 | After any frames, the accumulator holds exactly the last `FRAME_CAP` frames and rows and the saturating total size |
| SseConsumers.SizeMeaning | crates/voleeo-http/src/sse_accum.rs:50-60 | The total size is that of all data together, cut off at 2^32 - 1 |
| SseConsumers.SseAccum.Timeline | crates/voleeo-http/src/sse_accum.rs:77-82 | Set-up rows, then the kept frame rows |
| SseConsumers.SseAccum.Finalize | crates/voleeo-http/src/sse_accum.rs:86-101 | An event stream gets the timeline with its last `done` row and the total size; any other response only gets the (empty) frames |
| SseConsumers.LastDoneMeaning | crates/voleeo-http/src/sse_accum.rs:86-101 | The row kept is the last one of kind `done`, if there is one |
| SseConsumers.SseAccum.Rebuild | crates/voleeo-http/src/sse_accum.rs:117-150 | A stream that ended early keeps what it has, with one closing row |
| SseConsumers.PushSseFrame | crates/voleeo-http/src/send_body.rs:20-38 | Frame, number and row reach the accumulator; the number wraps at 2^32 |
| SseConsumers.ReadLive | crates/voleeo-http/src/send_body.rs:88-102 | The live read leaves the accumulator with every frame decoded before a failure, flushing only at a normal end |
| SseConsumers.ReadLocal | crates/voleeo-http/src/send_body.rs:103-158 | The sink-less read returns the first `FRAME_CAP` decoded frames, each with its event, data, id, retry time and number, and their size, flushes unless capped, and notes the cap or the failure |
| SseConsumers.CollectUpToCap | crates/voleeo-http/src/send_body.rs:137-143 | The inner loop stops exactly when the cap is reached |
| SseConsumers.LiveResponse | crates/voleeo-http/src/sse_accum.rs:86-150 | The response of a live read, finalised or rebuilt after a failure: the last `FRAME_CAP` frames field by field, the total size, the set-up rows, the rows of the kept frames and the closing row |
| SseConsumers.ReadBothWays | crates/voleeo-http/src/send_body.rs:88-158 | One stream read both ways: ending normally, it gives the live response and the sink-less read the same frames and size up to the cap, and the last and the first `FRAME_CAP` frames beyond it; after a failure they agree if and only if the decoder has no open frame when the stream stops or `FRAME_CAP` frames have arrived, and else the sink-less read has that one frame more |
| SseConsumers.FlushesWhatIsOpen | crates/voleeo-http/src/sse.rs:60-72 | `finish` yields a frame if and only if fields are gathered or the unterminated line sets one |
| SseConsumers.FailureSplitsConsumers | crates/voleeo-http/src/send_body.rs:88-158 | A stream that fails after one `data` line: no frame has arrived and the flush yields one, so the two reads differ |
| SseConsumers.KeptNumbersConsecutive | crates/voleeo-http/src/sse_accum.rs:50-60 | Kept frames are numbered consecutively modulo 2^32 and end with the newest |
| InFlight.HttpExecutor.DrawToken | crates/voleeo-http/src/lib.rs:239 | `fetch_add` hands out the counter and wraps at 2^64 |
| InFlight.HttpExecutor.Register | crates/voleeo-http/src/lib.rs:240-244 | The insert replaces the entry of the id and signals the send it replaced |
| InFlight.HttpExecutor.CancelRequest | crates/voleeo-http/src/lib.rs:147-153 | Cancelling removes the entry and signals its send, or does nothing |
| InFlight.HttpExecutor.Complete | crates/voleeo-http/src/lib.rs:262-266 | A signalled send ends as cancelled, any other with its response (the select is biased) |
| InFlight.HttpExecutor.CleanUp | crates/voleeo-http/src/lib.rs:280-284 | Cleanup removes the entry only if the token matches |
| InFlight.InvHolds | crates/voleeo-http/src/lib.rs:147-153 | The inductive invariant holds in every state of every interleaving |
| InFlight.OwnerIsTheLiveSend | crates/voleeo-http/src/lib.rs:237-244 | A send that is registered, unsignalled and not cleaned up is exactly the owner of its id's entry; so there is at most one |
| InFlight.CleanupTouchesOnlyItsOwn | crates/voleeo-http/src/lib.rs:277-284 | In every reachable state, a cleanup leaves every other send, its entry and its signal untouched |
| InFlight.NothingLeaks | crates/voleeo-http/src/lib.rs:280-284 | Once all registered sends of an id have cleaned up, no entry for it remains |
| InFlight.CancelReachesTheRunningSend | crates/voleeo-http/src/lib.rs:145-153 | `cancel(id)` signals the running send of the id, which can then only end as cancelled, whatever follows |
| InFlight.DoomedForever | crates/voleeo-http/src/lib.rs:261-267 | A signalled send stays so, or has ended cancelled, after any steps |
| InFlight.LastToInsertOwns | crates/voleeo-http/src/lib.rs:237-244 | A later insert for the id owns the entry and stops the earlier send, whichever token is larger |
| InFlight.CancelledForAReason | crates/voleeo-http/src/lib.rs:237-267 | Behind every cancelled send stands one step, taken while it was running, that cancelled its id or registered a newer send |
| InFlight.WrapAroundBreaksCleanup | crates/voleeo-http/src/lib.rs:239 | A run that draws 2^64 + 1 tokens in which a cleanup removes another send's entry |
| InFlight.TokenBoundIsExact | crates/voleeo-http/src/lib.rs:239-284 | Cleanups are harmless in all runs of at most `n` draws if and only if `n` is at most 2^64 |
| Encode.UriEncodeLoop | crates/voleeo-auth/src/encode.rs:13-27 | The loop computes the byte-wise encoding |
| Utf8.RepairFixes | crates/voleeo-auth/src/encode.rs:44 | The repair always gives well-formed UTF-8 and keeps exactly the texts that are well formed |
| Utf8.AsciiSeparates | crates/voleeo-http/src/sse.rs:81-85 | Text on both sides of an ASCII byte is repaired, and is well formed, on its own; so separators survive the repair |
| Utf8.SpoilRepairs | crates/voleeo-auth/src/encode.rs:44 | Wherever a well-formed text holds U+FFFD, an ill-formed one is repaired to it |
| Utf8.ValidMeaning | crates/voleeo-auth/src/encode.rs:44 | Text is well formed if and only if it is the encoding of some Unicode scalar values |
| Utf8.RepairMeaning | crates/voleeo-auth/src/encode.rs:44 | A character at the start is kept; otherwise the longest piece that begins one, or a single byte, becomes U+FFFD |
| Encode.PercentDecodeLoop | crates/voleeo-auth/src/encode.rs:29-45 | The loop decodes each well-formed escape, copies everything else, and repairs the result to text |
| Encode.UnescapeEncode | crates/voleeo-auth/src/encode.rs:13-45 | The escapes of an encoding denote the bytes encoded |
| Encode.EncodeByteMeaning | crates/voleeo-auth/src/encode.rs:6-27 | Letters, digits and `-._~` stand for themselves; any other byte is `%` and two upper-case digits |
| Encode.EncodeAppend | crates/voleeo-auth/src/encode.rs:13-25 | Texts are encoded byte by byte: the encoding of a concatenation is that of its parts, concatenated |
| Encode.UnescapeReads | crates/voleeo-auth/src/encode.rs:29-62 | Bytes spelled plainly or as escapes with digits in either case are read as those bytes; a plus sign stays one |
| Encode.HexLower | crates/voleeo-auth/src/encode.rs:64-71 | Two lower-case digits a byte, from which each byte can be read back |
| Encode.DecodeEncode | crates/voleeo-auth/src/encode.rs:13-45 | Decoding undoes encoding if and only if what was encoded is well-formed UTF-8, as every string is |
| Encode.UriEncodeInjective | crates/voleeo-auth/src/encode.rs:13-27 | Two texts have one encoding if and only if they are equal |
| Encode.EncodedAlphabet | crates/voleeo-auth/src/encode.rs:6-27 | The output holds unreserved characters and `%` only, so no separator used in signing |
| Encode.UnreservedUnchanged | crates/voleeo-auth/src/encode.rs:6-27 | A text is its own encoding if and only if it is unreserved throughout |
| Signing.CanonicalQuery | crates/voleeo-auth/src/sigv4.rs:162-183 | The canonical query is the normal form of the pairs decoded to text: read back as `k=v` pieces it lists them encoded, each as often as it is there, in ascending order by key and then by value |
| Signing.QueryReads | crates/voleeo-auth/src/sigv4.rs:166-175 | A query is read piece by piece: empty pieces count for nothing, a bare key has the empty value, only the first equals sign separates |
| Signing.NormalizeIdentifiesParameters | crates/voleeo-auth/src/oauth1.rs:123-142 | Two parameter lists have one normal form if and only if they are equal as multisets |
| Signing.CanonicalQueryIdentifiesParameters | crates/voleeo-auth/src/sigv4.rs:162-183 | Two queries have one canonical form if and only if they carry the same pairs, decoded and repaired, as multisets |
| Signing.CanonicalQueryIdempotent | crates/voleeo-auth/src/sigv4.rs:162-183 | A canonical query carries the same pairs and is its own canonical form |
| Signing.RepairCollides | crates/voleeo-auth/src/sigv4.rs:162-183 | `a=%FF` and `a=%FE` have one canonical form, `a=%EF%BF%BD`, although their escapes denote different bytes |
| Signing.CanonicalQueryIdentifiesBytes | crates/voleeo-auth/src/sigv4.rs:162-183 | The canonical form of a query determines the multiset of byte pairs its escapes denote if and only if no decoded key or value holds U+FFFD |
| Signing.CanonicalUriIdentifiesPath | crates/voleeo-auth/src/sigv4.rs:142-160 | Two paths have one canonical form, single or double encoded, if and only if they are equal or are the empty path and `/` |
| Signing.CanonicalUriReads | crates/voleeo-auth/src/sigv4.rs:142-160 | Segment by segment, the canonical path is encoded once for `s3` and twice for every other service |
| Signing.ProtocolParamsIdentify | crates/voleeo-auth/src/oauth1.rs:93-121 | Two requests send the same protocol parameters, as multisets, if and only if key, nonce, method label, timestamp and version after defaults, token, callback and verifier all agree |
| Signing.BaseStringCoversProtocol | crates/voleeo-auth/src/oauth1.rs:92-149 | Two requests share a base string and their queries agree on the eight `oauth_...` keys if and only if method, URL, query parameters and everything the protocol parameters say agree; so without such keys in either query, a base string identifies all of them |
| Signing.TokenInQueryCollides | crates/voleeo-auth/src/oauth1.rs:92-149 | A token in the query and the same token as protocol parameter give one base string |
| Signing.NormalizedParams | crates/voleeo-auth/src/oauth1.rs:123-142 | Query and protocol parameters, decoded to text, encoded and joined, each as often as it is there, in ascending order by key and then by value |
| Signing.SigningInput | crates/voleeo-auth/src/oauth1.rs:92-157 | What is signed and with which key: method, URL and ascending parameters in this order, the parameters being those of the query and the protocol values under their names; the key is both secrets in order |
| Signing.BaseStringIdentifiesRequest | crates/voleeo-auth/src/oauth1.rs:123-149 | Two requests share a base string if and only if they have the same method, URL and multiset of decoded parameters, for every method |
| Signing.SigningKeyIdentifiesSecrets | crates/voleeo-auth/src/oauth1.rs:151-157 | The signing key determines both secrets |
| BodyWindow.LineRanges | crates/voleeo-storage/src/body_window.rs:130-144 | The loop computes the index of the lines that splitting at LF gives, without an empty last one |
| BodyWindow.LineIndexCovers | crates/voleeo-storage/src/body_window.rs:130-144 | The ranges are LF-free, consecutive, one line end apart and cover the text |
| BodyWindow.FoldEnds | crates/voleeo-storage/src/body_window.rs:112-127 | The one-pass stack gives every line its fold end, as defined by bracket depth, on any text |
| BodyWindow.FoldEndMeaning | crates/voleeo-storage/src/body_window.rs:112-127 | A nonzero end below 2^32 is recorded if and only if it is the line that depth counting pairs with the opener; one beyond is recorded as none |
| BodyWindow.LineShapeMeaning | crates/voleeo-storage/src/body_window.rs:112-121 | White space of any kind apart, a line closes a block if it starts with `}` or `]` and opens one if it ends with `{` or `[` |
| BodyWindow.FoldsNestOrFollow | crates/voleeo-storage/src/body_window.rs:112-127 | Two folds are nested or disjoint, touching at most in one line |
| BodyWindow.NoSharedClose | crates/voleeo-storage/src/body_window.rs:112-127 | No line closes two folds |
| BodyWindow.FoldEndsUnique | crates/voleeo-storage/src/body_window.rs:112-127 | The text determines the fold ends |
| BodyWindow.Parse | crates/voleeo-storage/src/body_window.rs:102-106 | A parsed body is its text with line index and folds |
| BodyCaching.BodyCache.GetOrLoad | crates/voleeo-storage/src/body_window.rs:166-183 | A hit returns the entry; a failed load changes nothing; a load enters the key and evicts the oldest beyond the cap |
| BodyCaching.BodyCache.Invalidate | crates/voleeo-storage/src/body_window.rs:185-188 | The key leaves map and queue, and nothing else changes |
| BodyCaching.BodyCache.Window | crates/voleeo-storage/src/body_window.rs:200-220 | Shows the lines from the one asked for on, as many as asked for and as there are, with their fold ends and the number of all lines |
| BodyCaching.LineTexts | crates/voleeo-storage/src/body_window.rs:208-215 | Slicing the text by its line index gives its lines |
| BodyCaching.RunsAreCoherent | crates/voleeo-storage/src/body_window.rs:160-189 | Over every run of loads, invalidations and body changes, map and queue hold the same at most `CACHE_CAP` distinct keys, and every entry is the index of the current body |
| BodyCaching.LoadsAreTransparent | crates/voleeo-storage/src/body_window.rs:166-183 | After every run a load returns the index of the body as stored, or the load's error with the cache unchanged |
| BodyCaching.LoadDropsOldest | crates/voleeo-storage/src/body_window.rs:169-188 | A newly loaded body is the newest; from a full cache the one loaded longest ago goes, and no other |
| BodyCaching.LoadChangesNothing | crates/voleeo-storage/src/body_window.rs:169-177 | A cached body, and a load that fails, leave the cache as it was |
| BodySearching.Search | crates/voleeo-storage/src/body_window.rs:223-280 | The count is the number of hits, the first `MATCH_CAP` are returned located, and truncation is reported exactly when some are missing |
| BodySearching.MatchesCover | crates/voleeo-storage/src/body_window.rs:259 | The matches scanned are the leftmost non-overlapping occurrences |
| BodySearching.CoverIsUnique | crates/voleeo-storage/src/body_window.rs:259 | There is only one such list |
| BodySearching.LocateMapsBack | crates/voleeo-storage/src/body_window.rs:265-274 | The `(line, col)` found by binary search determines the position, as the only boundary of that line with that column and with no other line holding it, if and only if the line index and the column are below 2^32; in a text of fewer than 2^32 bytes they are |
| BodySearching.HitsAreBoundaries | crates/voleeo-storage/src/body_window.rs:242-251 | Folding case keeps offsets, so every hit is a character boundary of the original text where the query matches |
| BodySearching.HitsMeaning | crates/voleeo-storage/src/body_window.rs:236-263 | The hits are, of the leftmost non-overlapping places where the query stands, ASCII case aside unless it counts, those with no letter, digit or underscore on either side if whole words are asked for |
| BodySearching.CharCountMeaning | crates/voleeo-storage/src/body_window.rs:253-270 | Columns and lengths count characters |
| Cookies.DomainMatchMeaning | crates/voleeo-cookies/src/matching.rs:213-226 | Domains match if and only if they are equal after canonicalisation, or the cookie's is a dot-separated suffix of a host name and it is not host-only |
| Cookies.PathMatchMeaning | crates/voleeo-cookies/src/matching.rs:233-242 | Paths match if and only if they are equal or the request lies below the cookie's directory, segment by segment |
| Cookies.DefaultPathCovers | crates/voleeo-cookies/src/matching.rs:244-253 | The default path covers its own URL if and only if the path is empty or absolute |
| Cookies.DefaultPathIsDirectory | crates/voleeo-cookies/src/matching.rs:244-253 | The default path of an absolute URL path is everything before its last slash, or the root |
| Cookies.CookieJar.IngestSetCookie | crates/voleeo-cookies/src/matching.rs:71-176 | A header is rejected, with the jar unchanged, exactly for an empty name, no host, a foreign domain or `Secure` without https. An accepted cookie carries what the header says; it replaces the first cookie of its domain, path and name in place, keeping id, spelling of the domain, creation time and encryption mark, or else is appended as new; every other cookie stays |
| Cookies.CookieJar.PruneExpired | crates/voleeo-cookies/src/matching.rs:189-196 | Exactly the expired cookies go, and are counted |
| Cookies.MatchingMeaning | crates/voleeo-cookies/src/matching.rs:15-56 | A cookie is sent if and only if it is in the jar, its domain and path cover the URL, it is not expired and not `Secure` without https; longer paths first, then older; ties keep jar order |
| Cookies.PruningIsInvisible | crates/voleeo-cookies/src/matching.rs:189-196 | Pruning at `t` changes nothing that is sent at `t` or later, order included |
| Cookies.RunsKeepIdentitiesUnique | crates/voleeo-cookies/src/matching.rs:71-196 | Over every run of ingest and prune no two cookies share an identity |
| Cookies.AcceptedCookieComesBack | crates/voleeo-cookies/src/matching.rs:15-176 | A cookie accepted from a URL is returned for that URL if and only if the header's expiry has not passed, its path covers the URL, and the header names a domain or the host has no leading dot |
| Cookies.DottedHostLosesItsCookie | crates/voleeo-cookies/src/matching.rs:15-176 | A cookie set without a domain by a host with a leading dot is accepted and never returned |
| PathTrie.GroupByPath | crates/voleeo-import/src/util.rs:338-348 | The loop builds the trie of all requests and unfolds it |
| PathTrie.TrieHolds | crates/voleeo-import/src/util.rs:338-347 | The trie holds at each path the requests with that path, in input order |
| PathTrie.GroupByPathPlaces | crates/voleeo-import/src/util.rs:338-364 | For every path, its requests come out once each, in input order, under the folders named by all segments, or all but the last when a request is alone |
| PathTrie.GroupByPathConserves | crates/voleeo-import/src/util.rs:338-364 | Requests are conserved as a multiset |
| PathTrie.GroupByPathTidy | crates/voleeo-import/src/util.rs:350-364 | Sibling folders have distinct names and no folder is without a request below it |
| PathTrie.GroupByPathOrdered | crates/voleeo-import/src/util.rs:350-364 | In every folder the requests that end there come first, then sub-folders and lone requests by ascending segment; folders carry only their name |
| PathTrie.SegmentsMeaning | crates/voleeo-import/src/util.rs:342 | Segments are the non-empty pieces between slashes |
| PathTrie.CollapseMeansAlone | crates/voleeo-import/src/util.rs:354-361 | A segment becomes no folder if and only if at most one request has the path and none goes below it |
| RefExample.LookupLoop | crates/voleeo-import/src/util.rs:74-83 | The pointer walk through objects, with unescaping; an array on the way, like a missing key, finds nothing |
| RefExample.PointerRoundTrip | crates/voleeo-import/src/util.rs:74-83 | A pointer written for a path of keys, whatever bytes they hold, finds what the path finds |
| RefExample.LookupMisses | crates/voleeo-import/src/util.rs:74-83 | A pointer that does not start with `#/` finds nothing |
| RefExample.ResolveLoop | crates/voleeo-import/src/util.rs:60-72 | The loop computes the resolved node and the references marked |
| RefExample.ResolveShrinks | crates/voleeo-import/src/util.rs:60-72 | Resolving stays at the node or uses up a reference of the document |
| RefExample.ResolveFollowsChain | crates/voleeo-import/src/util.rs:60-72 | It follows a chain of new, distinct references, marks exactly those, and stops at a node whose reference is absent, seen or dangling |
| RefExample.ExampleInner | crates/voleeo-import/src/util.rs:93-145 | Termination on every document, cycles included, by references left and then schema size; marked references only grow |
| RefExample.ReferenceExpandsOnce | crates/voleeo-import/src/util.rs:93-103 | The example of a bare reference is that of its target the first time and `null` afterwards |
| ExampleMeaning.OfferedValueWins | crates/voleeo-import/src/util.rs:100-111 | The resolved schema's own `example` comes first, then its `default`, then its first `enum` entry |
| ExampleMeaning.AllOfExample | crates/voleeo-import/src/util.rs:112-120 | `allOf` gives one object with the fields of all parts that are objects, the later part winning |
| ExampleMeaning.FirstVariantCounts | crates/voleeo-import/src/util.rs:121-127 | The first variant of `oneOf` counts, and of `anyOf` if there is none |
| ExampleMeaning.ScalarExample | crates/voleeo-import/src/util.rs:129-145 | Scalar types have their placeholders, a string one by its format; an unknown type has `null` |
| ExampleMeaning.ObjectExample | crates/voleeo-import/src/util.rs:147-163 | Above depth 0 an object has exactly the keys of `properties`, sorted, each with the example of its property one level lower |
| ExampleMeaning.EmptyObjectExample | crates/voleeo-import/src/util.rs:147-163 | At depth 0 or without properties the object is empty |
| ExampleMeaning.ArrayExample | crates/voleeo-import/src/util.rs:165-179 | An array holds one example of `items` one level lower, `null` without `items`, and nothing at depth 0 |
| RefExample.ExampleHeight | crates/voleeo-import/src/util.rs:93-179 | An example is at most `depth` levels higher than the literals the document offers, although `allOf`, `oneOf` and references do not lower `depth` |
| Bundles.Bundle.FilterToFolders | crates/voleeo-export/src/lib.rs:48-112 | Refuses unknown ids without change; otherwise keeps the folders of the subtree and the ancestry of the selection and exactly the requests, WebSocket and gRPC items inside the subtree, each as often as it was there, on any parent links |
| Bundles.CollectSubtrees | crates/voleeo-export/src/lib.rs:62-80 | The worklist computes the least set closed under children around the selection, and terminates on cycles |
| Bundles.AncestorChain | crates/voleeo-export/src/lib.rs:82-93 | The walk computes the least set closed under parents above a folder |
| Bundles.SubtreeMeaning | crates/voleeo-export/src/lib.rs:62-80 | With unique ids the subtree is exactly what lies below a selected folder |
| Bundles.AncestryMeaning | crates/voleeo-export/src/lib.rs:82-93 | The ancestry is exactly what lies strictly above a selected folder |
| Bundles.RestrictionKeepsParents | crates/voleeo-export/src/lib.rs:95-100 | The folders kept hold the parent of each member whenever it exists, so their chains are those of the workspace |
| PostmanExport.ChildrenLoop | crates/voleeo-export/src/lib.rs:155-169 | The loops and the sort give the children of a scope, stable by `order` |
| PostmanExport.ChildrenCounted | crates/voleeo-export/src/lib.rs:155-169 | Every folder and request of a scope is a child as often as it is listed, and nothing else is |
| PostmanExport.ChildrenOrdered | crates/voleeo-export/src/lib.rs:155-169 | Children come by ascending `order`; at equal order folders before requests, both as listed |
| PostmanExport.EffectiveInheritedAuth | crates/voleeo-export/src/postman.rs:160-194 | The walk with its `seen` set gives the specified auth and terminates on cycles |
| PostmanExport.RootFolders | crates/voleeo-export/src/postman.rs:79-114 | Exactly the selected folders without a selected proper ancestor, in list order |
| PostmanExport.HasSelectedAncestor | crates/voleeo-export/src/postman.rs:92-111 | The walk finds a selected proper ancestor if and only if there is one, on any parent links |
| PostmanExport.ToPostmanWithRoots | crates/voleeo-export/src/postman.rs:26-60 | Name and items of the collection: selected roots of each workspace, or the workspace |
| ExportedAuth.CollectionShown | crates/voleeo-export/src/postman.rs:26-204 | The items show every selected root, or the workspace with its name and auth, and below it every folder and request in its place. A root that inherits carries the auth of its nearest active ancestor or the workspace in the order it asks, and its own if neither exists; anything nested does so if it inherits from the workspace and keeps its auth otherwise |
| ExactlyOnce.RootIsTopmost | crates/voleeo-export/src/postman.rs:79-114 | No root lies below another selected folder |
| ExactlyOnce.FindRoot | crates/voleeo-export/src/postman.rs:79-114 | Above every selected folder, cycles apart, there is a root |
| ExactlyOnce.BundleEmits | crates/voleeo-export/src/postman.rs:41-60 | On any parent links with unique ids the export returns and emits exactly the requests below its roots, each as often as listed |
| ExactlyOnce.SelectedEmits | crates/voleeo-export/src/postman.rs:41-53 | A request inside a selected folder is emitted once per occurrence, or not at all when a selected folder above it is on a cycle |
| ExactlyOnce.FilterThenExport | crates/voleeo-export/src/lib.rs:95-100 | Selecting folders and exporting them emits each kept request once per occurrence, with the same exception |
| ExactlyOnce.ExactlyOnceExport | crates/voleeo-export/src/postman.rs:41-53 | The emitted requests equal the kept ones as multisets if and only if no kept request lies below a selected folder on a cycle |
| ExportRun.WholeWorkspaceEmits | crates/voleeo-export/src/postman.rs:41-60 | A workspace without selected folders emits each request once per occurrence, except exactly those below a missing folder or on a cycle |
| ExportRun.MissingFolderLosesRequest | crates/voleeo-export/src/postman.rs:41-60 | Nothing selected and a request in a folder that does not exist: it is missing from the export |
| ExportRun.SelectionDelivers | crates/voleeo-export/src/lib.rs:48-112 | Selecting and exporting one workspace emits, in terms of the workspace before the selection, what lies inside a selected folder and below none on a cycle |
| ExportRun.CollectionDelivers | crates/voleeo-export/src/postman.rs:40-53 | The collection emits the sum over all workspaces of what is wanted of each |
| ExportRun.CollectionExactlyOnce | crates/voleeo-export/src/postman.rs:40-53 | The collection holds every request of every workspace exactly once per occurrence if and only if each is wanted |
| ExportRun.TopLevelSelectionLosesNothing | src-tauri/src/commands/export/mod.rs:316-325 | With top-level folders only, as the application demands, everything inside a selected folder is exported |
| ExportRun.ExportWorkspaces | src-tauri/src/commands/export/mod.rs:258-331 | Select on every workspace, then export: refuses unknown folders, otherwise delivers exactly what is wanted of every workspace and shows it with the auth it should carry |
| ExportRun.CycleLosesRequest | crates/voleeo-export/src/postman.rs:79-114 | Two folders that are each other's parent, one selected: the request inside is kept by the selection and missing from the export |
| InheritedAuth.NearestAncestorDecides | crates/voleeo-export/src/postman.rs:169-186 | The walk up finds the auth of the nearest ancestor with an active one, or there is none, on any parent links |
| InheritedAuth.InheritedAuthMeaning | crates/voleeo-export/src/postman.rs:160-194 | Nearest folder before workspace, or workspace before nearest folder, as the item asks; its own auth if neither has one |
| InheritedAuth.SelectionKeepsAuth | crates/voleeo-export/src/lib.rs:82-100 | What a kept folder or request inherits is the same before and after the selection |
| ImportTree.ConvertedPlan.ConvertItems | crates/voleeo-import/src/convert.rs:40-96 | The recursion appends the preorder of the items, folders and requests apart, numbered from the counter |
| ImportTree.BuildPlan | crates/voleeo-import/src/convert.rs:20-38 | The plan holds the preorder of the whole tree |
| ImportTree.PreorderNumbers | crates/voleeo-import/src/convert.rs:48-50 | Item number `k` carries the `k`-th id and the `k`-th order, folders and requests counted together |
| ImportTree.TopsInScope | crates/voleeo-import/src/convert.rs:40-96 | What has a tree's parent link is its top level, in order |
| ImportTree.PreorderWired | crates/voleeo-import/src/convert.rs:40-96 | Anywhere in a flattened list, each folder's id links exactly that folder's items, in order |
| ImportTree.AuthConverted | crates/voleeo-import/src/convert.rs:170-190 | A configured scheme is enabled, inheriting means from the folder, anything else has no auth |
| ImportThenExport.ChildrenAfterImport | crates/voleeo-export/src/lib.rs:155-169 | After an import every scope has its old children followed by the new ones, whatever order the lists are in |
| ImportThenExport.ImportExportRoundTrip | crates/voleeo-export/src/postman.rs:196-204 | Exporting a workspace after an import gives what it gave before, followed by the imported tree: names, nesting, sibling order, auth and payloads |
| ImportThenExport.NewWorkspaceRoundTrip | crates/voleeo-import/src/convert.rs:20-96 | A new workspace exports as exactly the imported tree |
| ImportPreview.FilterInner | crates/voleeo-import/src/convert.rs:306-331 | The loop keeps what the specification keeps, numbering every item by its index |
| ImportPreview.FilterItems | crates/voleeo-import/src/convert.rs:302-304 | The same from the root |
| ImportPreview.PreviewIdsDistinct | crates/voleeo-import/src/convert.rs:269-297 | Preview ids are pairwise distinct, over all depths |
| ImportPreview.PreviewMirrors | crates/voleeo-import/src/convert.rs:269-297 | The preview shows the tree node by node: kind, name, method and path of each item, its position as id |
| ImportPreview.SelectionKeeps | crates/voleeo-import/src/convert.rs:269-331 | The selection keeps exactly the requests and the empty folders whose preview id is selected, in order and inside the same folders; so a kept folder is empty only if it was empty and selected |
| ImportPreview.SelectAllKeepsAll | crates/voleeo-import/src/convert.rs:306-331 | Selecting the id of every request and every empty folder keeps the tree as it is |
| ImportPreview.SelectionRoundTrip | crates/voleeo-import/src/convert.rs:265-331 | Over a whole tree: distinct ids, selecting all shown changes nothing, selecting none drops everything |

## Left out

- Network, TLS, DNS, redirects, body attachment and the timeline texts of the HTTP crate; arrival times; the batching sink in `src-tauri`.
- Lock poisoning and futures dropped in the middle of a send: every registered send reaches its cleanup step.
- InFlight.InvHolds: holds for runs that draw at most 2^64 tokens; `TokenBoundIsExact` shows that the bound cannot be dropped.
- Lone carriage returns as line ends and a persistent last event id: the decoder leaves them out on purpose (crates/voleeo-http/src/sse.rs:5-8), and so does the model.
- HMAC, RSA and SHA computations, the missing-key error of RSA signing, header assembly, and the rest of the canonical request and string to sign of AWS Signature Version 4.
- `normalize_templates`, JSONPath filtering, `format_for_storage` and `count_lines`.
- BodySearching.Search: the `total` counter is unbounded; it does not model an overflow past 2^32 hits.
- Cookies.CookieJar.IngestSetCookie: starts after the header is parsed; times are integers, and whether the host is an IP literal is a property of the URL.
- PathTrie.GroupByPath: builds the trie as a value, not as mutable nodes; children are kept in ascending order as in the ordered map.
- RefExample.ExampleInner: a JSON object is a list of fields with distinct keys; an insert that replaces a field keeps its place; numbers are integers with a mark for floats.
- Merging of parameters, parameter classification and the other field-by-field mappings of the importers, including `yaak.rs`.
- ImportTree.BuildPlan: parameter and body-field ids, timestamps, the conversion of variables and the root auth are not part of this model; one id is drawn per item; `order` is an integer rather than a float.
- ImportThenExport.ImportExportRoundTrip: for an import at the workspace root; the re-parenting under a chosen folder in `src-tauri` and the raw source path of a request, which is not stored, are not part of it.
- ExportRun.ExportWorkspaces: leaves out loading, decryption and the application's refusal of selected folders that have a parent, so that it covers every caller of the crate.
- PostmanExport.ToPostmanWithRoots: URL splitting, headers, bodies, collection variables, environments and warnings, which map fields one by one.
- ImportPreview.PreviewMirrors: the description of a folder is not part of this model.
- The gRPC executor (its cleanup uses no token), WebSocket and gRPC exports, git, stores, keychain, commands and user interface.
