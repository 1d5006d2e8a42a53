# http-serve request evaluation in Dafny

This is a model of how http-serve answers a GET or HEAD request for a byte-ranged entity.
It covers both versions of `serve`:

- the current one in src/serving.rs;
- the older one in src/lib.rs.

Each version evaluates the conditional headers of RFC 7232: If-Match, If-None-Match,
If-Unmodified-Since and If-Modified-Since. It then gates the `Range` header on If-Range and
resolves it against the entity's length (section 2.1 of RFC 7233). The answer is one of:

- 405 for any other method;
- 412 Precondition Failed;
- 304 Not Modified;
- 416 Range Not Satisfiable;
- 206 Partial Content with a single range;
- a multipart/byteranges 206 (current version only);
- 200 with the whole entity.

The project has seven modules, one per file:

- `Http` (http.dfy) holds the vocabulary:
  - entity tags and their strong and weak comparisons;
  - range specs and the parsed request headers;
  - status codes and the response headers the core sets;
  - the response under construction, a `Response` class whose status, headers and body the
    serving methods assign in turn.
- `Text` (text.dfy) holds ASCII bytes and the decimal rendering that `Content-Range` lines use,
  with a round-trip lemma.
- `Ranges` (ranges.dfy) models `parse_range_header`, which is the same in both versions.
  - `Resolve` is the function that specifies it.
  - `ParseRangeHeader` is its loop, proved equal to it.
- `Conditional` (conditional.dfy) models `any_match` and `none_match`, also shared by both
  versions.
  - `AnyMatches` and `NoneMatches` are the predicates.
  - `AnyMatch` and `NoneMatch` are the early-return loops, proved equal to them.
- `Multipart` (multipart.dfy) models `send_multipart`.
  - The up-front loop computes the part headers and the Content-Length.
  - The body is a `MultipartStream` class: a state machine of integer states that hands out
    part header i at state 2i, the bytes of range i at 2i+1, and the trailer at 2n, and then
    stops.
  - `Drain` pulls the stream to its end. It is proved to yield exactly the precomputed
    Content-Length of bytes.
- `Serving` (serving.dfy) models the current `serve`.
  - `Decide` is the response as a function of the entity, the request and the clock reading.
  - `Serve` builds the response step by step, as the source does, and is proved to end in
    `Decide`'s response, together with the multipart stream when there is one.
- `Legacy` (legacy.dfy) models the older `serve` in the same way.
  - It checks If-Unmodified-Since before If-Match.
  - A date in If-Range matches when it equals the modification time.
  - Several ranges always fall back to a 200 of the whole entity.
  - Content-Type is its only entity header.

Where the source's code and its documentation disagree, the model follows the code, with the
two exceptions listed under Findings. Two points where the model follows the code differ from
RFC 7233:

- The current version never honours a date in If-Range (the comment at src/serving.rs:169-175
  gives the reason). The model does the same.
- A suffix range at least as long as the entity is dropped as unsatisfiable
  (src/serving.rs:61-63), where section 2.1 of RFC 7233 asks for the whole entity. The model
  does the same.

The two exceptions are the places where the code is evidently wrong: `bytes=-0` and a
last-byte-pos of u64::MAX. On these two inputs the model follows the doc comment at
src/serving.rs:33-36 and RFC 7233 rather than the code. `Resolve`, `ParseRangeHeader`,
`Decide` and `Serve` use the corrected conversion. The code's own conversion is kept beside it
at header level (`Ranges.ResolveAsWritten`) and at reply level (`Serving.DecideAsWritten`,
`Legacy.DecideAsWritten`). Lemmas prove that the two agree on every header without those
inputs, and they give the code's replies on the two inputs.

## Model

| member | source | states |
|---|---|---|
| Http.StrongEqImpliesWeakEq | src/serving.rs:83-103 | A strong match implies a weak match, and both comparisons are symmetric. |
| Http.WeakTagNeverStrongEq | src/serving.rs:100-108 | A weak tag fails the strong comparison even against itself, yet weak-matches itself. |
| Text.Ascii | src/serving.rs:301-312 | An ASCII literal becomes the same number of bytes, each with its character's code. |
| Text.Decimal | src/serving.rs:301-307 | `{}` of an integer gives a non-empty string of decimal digits, with no leading zero unless the number is 0. |
| Text.DecimalRoundTrip | src/serving.rs:301-307 | Reading the decimal rendering back gives the number, so a client parses the `Content-Range` value the server meant. |
| Text.DecimalExamples | tests/entity-acceptance.rs:241-251 | The renderings of 0, 1, 3, 4 and 240 that the multipart test body shows. |
| Ranges.ResolveSpec | src/serving.rs:46-65 | A kept spec is a non-empty interval inside the entity (the corrected conversion, see Findings). |
| Ranges.ResolveSpecAsWritten | src/serving.rs:46-65 | The conversion as written keeps only intervals inside the entity that end past offset 0, but they can be empty. |
| Ranges.Kept | src/serving.rs:44-67 | The loop keeps at most one interval per spec, each non-empty and inside the entity. |
| Ranges.Resolve | src/serving.rs:42-74 | A Satisfiable outcome holds at least one interval, and every interval is non-empty and inside the entity. |
| Ranges.KeptAppend | src/serving.rs:45-67 | Resolution distributes over concatenation of specs: output follows input order, neither merged nor reordered. |
| Ranges.KeptMembers | src/serving.rs:45-67 | An interval is kept if and only if some spec of the header resolves to it. |
| Ranges.KeptEmptyIff | src/serving.rs:68-71 | Nothing is kept if and only if every spec is unsatisfiable. |
| Ranges.ResolveOutcomes | src/serving.rs:42-74 | Absent if and only if there is no bytes header; NotSatisfiable if and only if all specs are dropped; Satisfiable ranges are non-empty and in bounds. |
| Ranges.ZeroLengthUnsatisfiable | src/serving.rs:457-466 | On an empty entity every bytes header is unsatisfiable. |
| Ranges.SingleSpecRules | src/serving.rs:46-65 | The outcome for each of the three spec forms, alone in a header. |
| Ranges.FromToClampsToEntity | src/serving.rs:47-52 | A last-byte-pos at or past the entity's end is clamped to the last byte, u64::MAX included. |
| Ranges.FromToOverflowCounterexample | src/serving.rs:48 | As written, `bytes=0-18446744073709551615` on a 10-byte entity is dropped; corrected, it is the whole entity. |
| Ranges.EmptySuffixCounterexample | src/serving.rs:60-64 | As written, `bytes=-0` on a 10-byte entity keeps the empty interval [10, 10); corrected, it is dropped. |
| Ranges.AsWrittenAgreesElsewhere | src/serving.rs:46-65 | Outside those two inputs, the as-written conversion and the corrected one agree. |
| Ranges.ResolvePair | src/serving.rs:45-71 | A two-spec header resolves to the images of its specs, in order. |
| Ranges.KeptStep | src/serving.rs:45-67 | One more spec appends its image to the kept intervals. |
| Ranges.RfcExamples | src/serving.rs:359-387 | The single-spec examples of section 14.35.1 of RFC 2616. |
| Ranges.RfcPairExamples | src/serving.rs:389-432 | A first-and-last pair, an adjacent pair and an overlapping pair are all kept apart and in order. |
| Ranges.SatisfiabilityExamples | src/serving.rs:436-453 | A dropped spec alone gives NotSatisfiable; beside a kept one it vanishes; an absent header gives Absent (src/serving.rs:485). |
| Ranges.SmallEntityExamples | src/serving.rs:455-480 | Nothing fits in an empty entity; the only byte of a one-byte entity does; an oversized last-byte-pos is clamped. |
| Ranges.KeptAsWritten | src/serving.rs:44-67 | The source's own loop keeps at most one interval per spec, each inside the entity and ending past offset 0, possibly empty. |
| Ranges.ResolveAsWritten | src/serving.rs:42-74 | `parse_range_header` as written: a Satisfiable outcome holds at least one interval inside the entity, possibly empty. |
| Ranges.KeptAgrees | src/serving.rs:44-67 | On specs that are neither `-0` nor a `FromTo` ending at u64::MAX, the source's loop keeps exactly what the corrected one keeps. |
| Ranges.ResolveAgrees | src/serving.rs:42-74 | On every header free of those two inputs, the source's `parse_range_header` and the corrected one give the same outcome. The same code is src/lib.rs:57-90. |
| Ranges.EmptySuffixKeptAsWritten | src/serving.rs:60-64 | A `-0` anywhere in the header of a non-empty entity makes the source keep [len, len), which the corrected resolution never keeps. |
| Ranges.FindingHeaders | src/serving.rs:48-64 | On any non-empty entity, `bytes=-0` is Satisfiable([len, len)) as written and NotSatisfiable corrected; `bytes=0-18446744073709551615` is NotSatisfiable as written and the whole entity corrected. |
| Ranges.ParseRangeHeader | src/serving.rs:42-74 | The push loop returns exactly `Resolve` of the header. The same code is src/lib.rs:57-90. |
| Conditional.NoEtagDecides | src/serving.rs:77-111 | Without an entity tag, an If-Match list always fails and an If-None-Match list always passes; `*` decides alike either way. |
| Conditional.WeakEtagFailsIfMatch | src/serving.rs:100-108 | An entity with a weak tag never satisfies an If-Match list. |
| Conditional.IfNoneMatchIgnoresStrength | src/serving.rs:80-86 | If-None-Match matches on the tag value, whether either side is weak or strong. |
| Conditional.StrongMatchIsWeakMatch | src/serving.rs:77-111 | A tag list that passes If-Match's strong test also matches under If-None-Match's weak test. |
| Conditional.AnyMatch | src/serving.rs:95-111 | The loop that returns at the first strong match computes `AnyMatches`. The same code is src/lib.rs:111-127. |
| Conditional.NoneMatch | src/serving.rs:77-92 | The loop that returns at the first weak match computes `NoneMatches`. The same code is src/lib.rs:93-108. |
| Multipart.Crlf | src/serving.rs:296 | The blank line is two bytes. |
| Multipart.Trailer | src/serving.rs:312-313 | The trailer `\r\n--B--\r\n` is nine bytes. |
| Multipart.PartPrefix | src/serving.rs:303 | The fixed start of each part header is 28 bytes. |
| Multipart.EachPartHeaders | src/serving.rs:289-296 | The shared block is the entity's headers (only when included) followed by a blank line. |
| Multipart.PartHeader | src/serving.rs:300-308 | A part header's length is 32 bytes plus the digits of start, end-1 and length, plus the shared block. |
| Multipart.PartHeaders | src/serving.rs:298-311 | There is one part header per range, and header k is range k's own header, with its `Content-Range: bytes start-(end-1)/len` line. |
| Multipart.ChunkSequence | src/serving.rs:326-342 | The stream has 2n+1 chunks: a header and the bytes for each part, then the trailer. |
| Multipart.PartsLengthAppend | src/serving.rs:309 | Summing one more part adds its header length and its range length. |
| Multipart.FlattenAppend | src/serving.rs:344 | Concatenating the flattened stream distributes over appending chunks. |
| Multipart.ChunkAt | src/serving.rs:328-341 | Chunk 2i is header i, chunk 2i+1 is the bytes of range i, and chunk 2n is the trailer. |
| Multipart.ChunksSumToBodyLength | src/serving.rs:309-315 | The bytes of all chunks add up to the precomputed Content-Length. |
| Multipart.PartHeadersStep | src/serving.rs:299-311 | One more range appends its header to the list. |
| Multipart.PrepareParts | src/serving.rs:288-313 | The loop renders exactly the part headers and computes exactly the body length (headers, range bytes and trailer). |
| Multipart.MultipartStream.constructor | src/serving.rs:328 | The stream starts at state 0 over the given ranges, reader and part headers. |
| Multipart.MultipartStream.Next | src/serving.rs:328-342 | Before the end, Next yields the chunk of the current state and advances by one, releasing a header once it has been handed out; at the end it yields nothing and stays put. |
| Multipart.Drain | src/serving.rs:344-345 | Pulling the stream to its end yields the whole chunk sequence, whose length is the precomputed body length. |
| Serving.PartsOf | src/serving.rs:289-311 | There is one rendered part header per range, and header k is range k's header followed by the shared block of entity headers. |
| Serving.Decide | src/serving.rs:117-259 | 405 if and only if the method is neither GET nor HEAD, and only a 405 carries `Allow`. |
| Serving.SendMultipart | src/serving.rs:280-347 | Sets 206, the computed Content-Length and the multipart Content-Type; for GET sets the body and returns a fresh stream at state 0 over the rendered part headers; for HEAD returns no stream. |
| Serving.EvaluatePreconditions | src/serving.rs:128-149 | Computes `precondition_failed` and `not_modified` exactly as the predicates define them. |
| Serving.SetValidators | src/serving.rs:179-198 | Leaves exactly Accept-Ranges, Date, Last-Modified (no later than Date) and ETag on the new response. |
| Serving.GateRange | src/serving.rs:154-177 | Returns the Range header that survives If-Range, and whether a 206 includes the entity's headers. |
| Serving.SendEntityRange | src/serving.rs:246-258 | Adds the entity headers if asked, sets Content-Length to the range's length, and for GET sets the range as the body. |
| Serving.ServeRange | src/serving.rs:212-258 | The range stage ends in the response `DecideRange` gives, and returns a stream exactly for a multipart body. |
| Serving.Serve | src/serving.rs:117-259 | The response built step by step is `Decide`'s response; a stream is returned if and only if the body is multipart, and it starts valid at state 0 over that body's ranges and part headers. |
| Serving.PreconditionFailedRule | src/serving.rs:131-139 | 412 if and only if If-Match fails or the entity changed after If-Unmodified-Since (so 412 wins over 304), with the fixed text as body. |
| Serving.NotModifiedRule | src/serving.rs:141-149 | 304 if and only if no 412 applies and If-None-Match matches or the entity is unmodified since If-Modified-Since; a 304 has no body, Content-Range or Content-Length. |
| Serving.RangeStageKeepsValidators | src/serving.rs:212-258 | Whatever the resolved header, the range stage leaves Accept-Ranges, Date, Last-Modified and ETag as they were. |
| Serving.ValidatorsOnEveryResponse | src/serving.rs:179-198 | Every GET or HEAD response has Accept-Ranges and the entity's ETag; Last-Modified is present exactly when the entity has one, and is no later than the Date, which is the clock reading (section 2.2.1 of RFC 7232). |
| Serving.IfRangeDateIgnoresRange | src/serving.rs:169-175 | A date in If-Range is answered as if neither If-Range nor Range had been sent. |
| Serving.IfRangeTagMismatchIgnoresRange | src/serving.rs:156-168 | A tag in If-Range that does not strong-match the entity's tag discards the range in the same way. |
| Serving.SingleRangeRule | src/serving.rs:216-223 | One satisfiable range gives a 206 with `Content-Range: bytes start-(end-1)/len`, the range's length as Content-Length, the entity's headers unless a matching If-Range was sent, and for GET that range's bytes. |
| Serving.RangeStageSingle | src/serving.rs:216-223 | With one satisfiable range the range stage sends exactly that range as a 206. |
| Serving.MatchingIfRangeOmitsEntityHeaders | src/serving.rs:155-160 | A strongly matching If-Range tag keeps a single range and omits the entity's headers (section 3.2 of RFC 7233). |
| Serving.MultipleRangesRule | src/serving.rs:224-233 | Several ranges give a 206 if and only if the estimate is below the entity's length. The 206 is multipart/byteranges with a Content-Length equal to the bytes the stream yields; otherwise the reply is a 200 with the whole entity. |
| Serving.WholeEntityRule | src/serving.rs:214 | No effective Range gives a 200 with the whole entity, its headers and its length. |
| Serving.UnsatisfiableRule | src/serving.rs:236-244 | No satisfiable range gives a 416 with `Content-Range: bytes */len`, no Content-Length and no body. |
| Serving.RangeStageHeadMirrorsGet | src/serving.rs:254-256 | The range stage answers HEAD with GET's status and headers, without the bytes. |
| Serving.HeadMirrorsGet | src/serving.rs:254-256 | HEAD gets exactly GET's status and headers; only the entity's bytes are left out (src/serving.rs:322-324 for multipart). |
| Serving.ContentLengthMatchesBody | src/serving.rs:252-253 | Content-Length equals the bytes the body carries, for one range and for the multipart stream. |
| Serving.DecideAgreesAsWritten | src/serving.rs:42-74 | For every request whose Range header avoids the two inputs of the findings, the corrected `Decide` gives exactly the reply of `serve` as written. |
| Serving.EmptySuffixReplyAsWritten | src/serving.rs:60-64 | As written, `bytes=-0` of the 240-byte entity is a 206 with `Content-Range: bytes 240-239/240`, Content-Length 0 and the empty range as body; corrected, it is a 416. |
| Serving.OverflowReplyAsWritten | src/serving.rs:48 | As written, `bytes=0-18446744073709551615` of the 240-byte entity is a 416; corrected, it is a 206 of all 240 bytes. |
| Serving.TestEntity | tests/entity-acceptance.rs:57-61 | The test entity's rendered header is 40 bytes. |
| Serving.MultipartTestBodyLength | tests/entity-acceptance.rs:239-252 | The multipart test body is 171 bytes. |
| Serving.MultipartAcceptanceExample | tests/entity-acceptance.rs:220-252 | `bytes=0-1,3-4` of 240 bytes is a multipart 206 with boundary B, no Content-Range and 171 bytes. |
| Serving.MultipartFallbackExample | tests/entity-acceptance.rs:254-273 | `bytes=0-100,120-240` of 240 bytes is a 200 of the whole entity, because the estimate is 381 bytes. |
| Serving.IfRangeDateExample | tests/entity-acceptance.rs:293-307 | An If-Range of the entity's own date still gets the whole entity. |
| Serving.IfRangeTagMatchExample | tests/entity-acceptance.rs:425-445 | A strong matching If-Range tag gets a 206 of bytes 1-3 without the entity's headers. |
| Serving.IfRangeTagMismatchExamples | tests/entity-acceptance.rs:528-546 | A weak tag, or an entity without a tag, gets the whole entity (also tests/entity-acceptance.rs:326-344). |
| Serving.PreconditionExamples | tests/entity-acceptance.rs:151-201 | The precondition tests: weak If-Match gives 412, weak If-None-Match gives 304, an If-Match tag on an untagged entity gives 412, If-Modified-Since of the entity's date gives 304, and `If-None-Match: *` gives 304 (also tests/entity-acceptance.rs:490-508). |
| Legacy.Decide | src/lib.rs:138-251 | 405 if and only if the method is neither GET nor HEAD, and only a 405 carries `Allow`. |
| Legacy.GateRange | src/lib.rs:184-213 | Returns the Range header that survives If-Range, where a date matches on equality, and whether a 206 includes Content-Type. |
| Legacy.ServeRange | src/lib.rs:214-250 | The range stage ends in the response `Legacy.DecideRange` gives. |
| Legacy.Serve | src/lib.rs:138-251 | The response built by the early-return sequence is `Legacy.Decide`'s response. |
| Legacy.PreconditionFailedRule | src/lib.rs:156-168 | If-Unmodified-Since is checked first; 412 if and only if it fails or If-Match fails. |
| Legacy.NotModifiedRule | src/lib.rs:170-182 | 304 if and only if no 412 applies and If-None-Match matches or the entity is unmodified since If-Modified-Since; a 304 has an empty body. |
| Legacy.IfRangeDateRule | src/lib.rs:202-211 | A date in If-Range keeps the range if and only if it equals the modification time; otherwise the request is answered as if neither header had been sent. |
| Legacy.MultipleRangesFallBack | src/lib.rs:225-229 | Several satisfiable ranges always give a 200 with the whole entity, its Content-Type and no Content-Range. |
| Legacy.SingleRangeRule | src/lib.rs:218-224 | One range gives a 206 with its Content-Range and length, with Content-Type exactly when no matching If-Range was sent. |
| Legacy.UnsatisfiableRule | src/lib.rs:231-239 | A 416 with `bytes */len`, no Content-Type and an empty body. |
| Legacy.ContentTypeRule | src/lib.rs:141-144 | The entity's Content-Type is on the 200s and on the 206s that did not answer a matching If-Range, and nowhere else; a 405 carries text/plain (src/lib.rs:241-243). |
| Legacy.RangeStageHeadMirrorsGet | src/lib.rs:244-249 | The range stage answers HEAD with GET's status and headers, without the bytes. |
| Legacy.HeadMirrorsGet | src/lib.rs:244-249 | HEAD gets GET's status and headers, without the entity's bytes. |
| Legacy.DecideAgreesAsWritten | src/lib.rs:57-90 | For every request whose Range header avoids the two inputs of the findings, the corrected `Legacy.Decide` gives exactly the reply of the older `serve` as written. |
| Legacy.FindingRepliesAsWritten | src/lib.rs:62-80 | As written, `bytes=-0` of five bytes is a 206 with `bytes 5-4/5` and Content-Length 0, and `bytes=0-18446744073709551615` is a 416; corrected, the first is a 416 and the second a 206 of all five bytes. |
| Legacy.SingleRangeExample | src/lib.rs:505-517 | `bytes=1-3` of five bytes is a 206 of bytes 1-3. |
| Legacy.MultipleRangesExample | src/lib.rs:519-529 | Two ranges fall back to the whole entity. |
| Legacy.UnsatisfiableExample | src/lib.rs:531-543 | `bytes=500-` of five bytes is a 416 with `bytes */5`. |
| Legacy.IfRangeSameDateExample | src/lib.rs:545-558 | If-Range with the entity's own date honours the range. |
| Legacy.IfRangeMismatchExamples | src/lib.rs:560-587 | A later date, or a tag the entity lacks, gets the whole entity. |

## Left out

- The transport (hyper's request and response objects, futures, the `InnerBody` poll and
  `flatten`) is not modelled. The request is a value holding the parsed headers the core
  reads, and the response body records what it will carry. The bytes themselves come from the
  entity's range reader, a parameter.
- HTTP-date parsing and formatting are not modelled. Timestamps are integer seconds, and the
  older version's `to_timespec` comparison becomes integer comparison.
- `SystemTime::now()` is not modelled. The clock reading is the `now` parameter.
- The already-set-Date branch (src/serving.rs:186-187) is not modelled. `serve` has just
  created the response, so the branch cannot be taken there, and the model always sets the
  Date to `now`.
- The header wire format is not modelled. The entity's own headers (`add_headers`) are an
  opaque byte block in the current version; in the older one they are its Content-Type.
  Whether they were added is a flag on the response headers.
- Serving.MultipartAcceptanceExample: only the length (171 bytes) and the headers of the
  multipart test body are proved, not its exact bytes.
- Serving.EstimatedLength and Multipart.PrepareParts: the u64 sums `est_len` and `body_len`
  are unbounded integers here, and their overflow is out of scope. The source's sums wrap when
  the total of 80 plus the length over all ranges (or of the part headers plus the lengths)
  exceeds 2^64 - 1. `bytes=0-,0-` on a 2^63-byte entity is such a case.
- Multipart.MultipartStream.Next: pulling after the end returns nothing. The source's
  `unfold` is never polled again once it has ended.
- Errors from writing to the connection in the older version (`res.send`, `res.start`,
  `write_to`) are not modelled, nor is the Content-Length that hyper adds to the fixed-text
  bodies.
- The test harness (server start-up, HTTP client) and the logging set-up of both versions'
  tests are not modelled.

## Findings

| source | as written | input that shows it | evidently intended | confidence | as-written member | corrected member |
|---|---|---|---|---|---|---|
| src/serving.rs:48 | `range_to + 1` is computed in u64. It overflows at u64::MAX, and wraps to 0 in a release build (src/lib.rs:63 is the same). | `Range: bytes=0-18446744073709551615` on a 10-byte entity: the end becomes min(0, 10) = 0, so the spec is dropped and the reply is a 416. | A last-byte-pos past the end is clamped to the entity's last byte, so the whole entity is served as a 206. | not executed | Serving.OverflowReplyAsWritten | Ranges.FromToClampsToEntity |
| src/serving.rs:60-64 | The suffix spec `-0` passes the `last >= len` test and keeps the empty interval [len, len) (src/lib.rs:75-80 is the same). | `Range: bytes=-0` on a 10-byte entity: the reply is a 206 with `Content-Range: bytes 10-9/10` and an empty body. | A zero-length suffix is unsatisfiable (section 2.1 of RFC 7233), so the spec is dropped. | not executed | Serving.EmptySuffixReplyAsWritten | Ranges.SingleSpecRules |
