/** The current `serve` (src/serving.rs): GET and HEAD of a byte-ranged entity with the
    conditional requests of section 3 of RFC 7232 and the range requests of sections 3.1, 3.2
    and 4.1 of RFC 7233. `Decide` states the response the request gets; `Serve` builds it field
    by field as the source does and is proved to end in that response. */
module Serving {
  import opened Http
  import opened Ranges
  import opened Conditional
  import opened Text
  import opened Multipart

  /** The entity as the `Entity` trait presents it: its length, validators, its own headers
      (rendered, opaque here) and its range reader. */
  datatype Entity = Entity(
    len: u64,
    etag: Option<EntityTag>,
    lastModified: Option<Timestamp>,
    headerBlock: seq<byte>,
    read: RangeReader)

  const NOT_ALLOWED_TEXT: string := "This resource only supports GET and HEAD."
  const PRECONDITION_FAILED_TEXT: string := "Precondition failed"

  predicate IsGetOrHead(m: Method) {
    m.Get? || m.Head?
  }

  /** `precondition_failed`: If-Match fails, or the entity changed after If-Unmodified-Since. */
  predicate PreconditionFails(e: Entity, req: Request) {
    || !AnyMatches(e.etag, req.ifMatch)
    || (e.lastModified.Some? && req.ifUnmodifiedSince.Some? && e.lastModified.value > req.ifUnmodifiedSince.value)
  }

  /** `not_modified`: If-None-Match matches, or the entity has not changed since If-Modified-Since. */
  predicate NotModifiedSince(e: Entity, req: Request) {
    || !NoneMatches(e.etag, req.ifNoneMatch)
    || (e.lastModified.Some? && req.ifModifiedSince.Some? && e.lastModified.value <= req.ifModifiedSince.value)
  }

  /** Whether `If-Range` lets the `Range` header stand: only a tag that strong-compares equal
      to the entity's tag does; a date never does, since the entity could have changed twice
      within the second it names. */
  predicate RangeHonoured(e: Entity, ifRange: Option<IfRange>) {
    match ifRange
    case None => true
    case Some(IfRangeTag(t)) => e.etag.Some? && StrongEq(t, e.etag.value)
    case Some(IfRangeDate(_)) => false
  }

  /** `include_entity_headers_on_range`: a 206 answering a matching `If-Range` omits the entity's
      headers (section 3.2 of RFC 7233). */
  predicate IncludeOnRange(e: Entity, ifRange: Option<IfRange>) {
    !(ifRange.Some? && RangeHonoured(e, ifRange))
  }

  /** The `Range` header after `If-Range` gating. */
  function EffectiveRange(e: Entity, req: Request): Option<RangeHeader> {
    if RangeHonoured(e, req.ifRange) then req.range else None
  }

  /** `est_len`: 80 bytes of part header per range (the estimate of section 4.1 of RFC 7233)
      plus the range's bytes. */
  function EstimatedLength(rs: seq<ByteRange>): nat {
    if rs == [] then 0 else 80 + Length(rs[0]) + EstimatedLength(rs[1..])
  }

  /** The headers every GET or HEAD response carries before the outcome is known: Accept-Ranges,
      and when the entity has them its ETag, a Date of `now` and a Last-Modified of at most `now`. */
  function Validators(e: Entity, now: Timestamp): Headers {
    NoHeaders.(
      acceptRangesBytes := true,
      date := if e.lastModified.Some? then Some(now) else None,
      lastModified := if e.lastModified.Some? then Some(Min(e.lastModified.value, now)) else None,
      etag := e.etag)
  }

  /** The part headers of a multipart response. */
  function PartsOf(e: Entity, rs: seq<ByteRange>, withEntity: bool): (hs: seq<seq<byte>>)
    requires Renderable(rs)
    ensures |hs| == |rs|
    ensures forall k :: 0 <= k < |rs| ==> hs[k] == PartHeader(rs[k], e.len, EachPartHeaders(e.headerBlock, withEntity))
  {
    PartHeaders(rs, e.len, EachPartHeaders(e.headerBlock, withEntity))
  }

  /** The bytes of a multipart body: what draining its stream yields. */
  function MultipartBytes(e: Entity, rs: seq<ByteRange>, withEntity: bool): seq<byte>
    requires Renderable(rs)
  {
    Flatten(ChunkSequence(PartsOf(e, rs, withEntity), rs, e.read))
  }

  /** One range of the entity (all of it, or a single requested range) as the body. */
  function SendRange(req: Request, status: Status, h: Headers, range: ByteRange, withEntity: bool): Reply {
    Reply(
      status,
      h.(entityHeaders := withEntity, contentLength := Some(Length(range))),
      if req.verb.Head? then Empty else EntityRange(range))
  }

  /** `send_multipart`: a 206 whose body is the multipart/byteranges stream. */
  function SendMultipartReply(e: Entity, req: Request, h: Headers, rs: seq<ByteRange>, withEntity: bool): Reply
    requires Renderable(rs)
  {
    Reply(
      PartialContent,
      h.(contentLength := Some(BodyLength(PartsOf(e, rs, withEntity), rs)),
         contentType := Some(MultipartByteranges(BOUNDARY))),
      if req.verb.Head? then Empty else Multipart(rs, withEntity))
  }

  /** The range stage of `serve`, once the preconditions have passed: the whole entity, one
      range, a multipart body, or 416. `h` holds the headers set so far. */
  function DecideRange(e: Entity, req: Request, h: Headers): Reply {
    RangeReply(e, req, h, Resolve(EffectiveRange(e, req), e.len))
  }

  /** What the range stage sends for a resolved `Range` header. */
  function RangeReply(e: Entity, req: Request, h: Headers, resolved: ResolvedRanges): Reply
    requires resolved.Satisfiable? ==> 0 < |resolved.ranges| && Renderable(resolved.ranges)
  {
    match resolved
    case Absent =>
      SendRange(req, Ok, h, ByteRange(0, e.len), true)
    case NotSatisfiable =>
      Reply(RangeNotSatisfiable, h.(contentRange := Some(Unsatisfied(e.len))), Empty)
    case Satisfiable(rs) =>
      if |rs| == 1 then
        SendRange(req, PartialContent, h.(contentRange := Some(Satisfied(rs[0].start, rs[0].end - 1, e.len))),
                  rs[0], IncludeOnRange(e, req.ifRange))
      else if EstimatedLength(rs) < e.len then
        SendMultipartReply(e, req, h, rs, IncludeOnRange(e, req.ifRange))
      else
        SendRange(req, Ok, h, ByteRange(0, e.len), true)
  }

  /** The response `serve` gives, with `now` the clock reading it takes for the Date header. */
  function Decide(e: Entity, req: Request, now: Timestamp): (reply: Reply)
    ensures reply.status == MethodNotAllowed <==> !IsGetOrHead(req.verb)
    ensures reply.headers.allow != [] <==> !IsGetOrHead(req.verb)
  {
    if !IsGetOrHead(req.verb) then
      Reply(MethodNotAllowed, NoHeaders.(allow := [Get, Head]), Text(NOT_ALLOWED_TEXT))
    else
      var h := Validators(e, now);
      if PreconditionFails(e, req) then
        Reply(PreconditionFailed, h, Text(PRECONDITION_FAILED_TEXT))
      else if NotModifiedSince(e, req) then
        Reply(NotModified, h, Empty)
      else
        DecideRange(e, req, h)
  }

  /** `send_multipart`: render the part headers and the length, set the multipart headers, and
      for GET hand back the body stream, positioned at its first chunk. */
  method SendMultipart(e: Entity, req: Request, res: Response, rs: seq<ByteRange>, withEntity: bool)
    returns (stream: MultipartStream?)
    requires InBounds(rs, e.len)
    modifies res
    ensures res.status == PartialContent
    ensures res.headers == old(res.headers).(contentLength := Some(BodyLength(PartsOf(e, rs, withEntity), rs)),
                                              contentType := Some(MultipartByteranges(BOUNDARY)))
    ensures res.body == if req.verb.Head? then old(res.body) else Multipart(rs, withEntity)
    ensures stream != null <==> !req.verb.Head?
    ensures stream != null ==>
              && fresh(stream) && stream.Valid() && stream.state == 0
              && stream.ranges == rs && stream.read == e.read && stream.headers == PartsOf(e, rs, withEntity)
  {
    var bodyLen, partHeaders := PrepareParts(rs, e.len, e.headerBlock, withEntity);
    res.headers := res.headers.(contentLength := Some(bodyLen));
    res.headers := res.headers.(contentType := Some(MultipartByteranges(BOUNDARY)));
    res.status := PartialContent;
    if req.verb.Head? {
      return null;
    }
    stream := new MultipartStream(rs, e.read, partHeaders);
    res.body := Multipart(rs, withEntity);
  }

  /** The precondition step of `serve`: evaluate `precondition_failed` and `not_modified`. */
  method EvaluatePreconditions(e: Entity, req: Request) returns (preconditionFailed: bool, notModified: bool)
    ensures preconditionFailed == PreconditionFails(e, req)
    ensures notModified == NotModifiedSince(e, req)
  {
    var lastModified := e.lastModified;
    var etag := e.etag;

    var anyMatch := AnyMatch(etag, req.ifMatch);
    preconditionFailed := false;
    if !anyMatch {
      preconditionFailed := true;
    } else if lastModified.Some? && req.ifUnmodifiedSince.Some? {
      preconditionFailed := lastModified.value > req.ifUnmodifiedSince.value;
    }

    var noneMatch := NoneMatch(etag, req.ifNoneMatch);
    notModified := false;
    if !noneMatch {
      notModified := true;
    } else if lastModified.Some? && req.ifModifiedSince.Some? {
      notModified := lastModified.value <= req.ifModifiedSince.value;
    }
  }

  /** The header step of `serve`: Accept-Ranges, then Date and Last-Modified (never later than
      the Date) when the entity has a modification time, then the ETag. */
  method SetValidators(e: Entity, now: Timestamp, res: Response)
    requires res.headers == NoHeaders
    modifies res
    ensures res.status == old(res.status) && res.body == old(res.body)
    ensures res.headers == Validators(e, now)
  {
    var lastModified := e.lastModified;
    var etag := e.etag;
    res.headers := res.headers.(acceptRangesBytes := true);
    if lastModified.Some? {
      // The response is new, so it has no Date yet: set it to the clock reading.
      var d := now;
      res.headers := res.headers.(date := Some(d));
      res.headers := res.headers.(lastModified := Some(Min(lastModified.value, d)));
    }
    if etag.Some? {
      res.headers := res.headers.(etag := etag);
    }
  }

  /** The `If-Range` step of `serve`: drop the `Range` header unless the validator matches, and
      decide whether a 206 carries the entity's headers. */
  method GateRange(e: Entity, req: Request) returns (rangeHdr: Option<RangeHeader>, includeOnRange: bool)
    ensures rangeHdr == EffectiveRange(e, req)
    ensures includeOnRange == IncludeOnRange(e, req.ifRange)
  {
    rangeHdr := req.range;
    includeOnRange := true;
    match req.ifRange {
      case Some(IfRangeTag(ifEtag)) =>
        if e.etag.Some? && StrongEq(ifEtag, e.etag.value) {
          includeOnRange := false;
        } else {
          rangeHdr := None;
        }
      case Some(IfRangeDate(_)) =>
        rangeHdr := None;
      case None =>
    }
  }

  /** The last step of `serve` for a single body: the entity's headers when asked for, the
      Content-Length, and for GET the range's bytes. */
  method SendEntityRange(req: Request, res: Response, range: ByteRange, withEntity: bool)
    requires range.start <= range.end
    requires res.body == Empty && !res.headers.entityHeaders
    modifies res
    ensures res.Snapshot() == SendRange(req, old(res.status), old(res.headers), range, withEntity)
  {
    if withEntity {
      res.headers := res.headers.(entityHeaders := true);
    }
    res.headers := res.headers.(contentLength := Some(range.end - range.start));
    if req.verb.Head? {
      return;
    }
    res.body := EntityRange(range);
  }

  /** `serve`: the response built step by step, with the multipart body stream when there is one. */
  method Serve(e: Entity, req: Request, now: Timestamp) returns (res: Response, stream: MultipartStream?)
    ensures fresh(res)
    ensures res.Snapshot() == Decide(e, req, now)
    ensures stream != null <==> res.body.Multipart?
    ensures stream != null ==>
              && fresh(stream) && stream.Valid() && stream.state == 0 && InBounds(res.body.parts, e.len)
              && stream.ranges == res.body.parts && stream.read == e.read
              && stream.headers == PartsOf(e, res.body.parts, res.body.partEntityHeaders)
  {
    stream := null;
    res := new Response();
    if !(req.verb.Get? || req.verb.Head?) {
      res.status := MethodNotAllowed;
      res.headers := res.headers.(allow := [Get, Head]);
      res.body := Text(NOT_ALLOWED_TEXT);
      return;
    }

    var preconditionFailed, notModified := EvaluatePreconditions(e, req);
    var rangeHdr, includeOnRange := GateRange(e, req);
    SetValidators(e, now, res);

    if preconditionFailed {
      res.status := PreconditionFailed;
      res.body := Text(PRECONDITION_FAILED_TEXT);
      return;
    }
    if notModified {
      res.status := NotModified;
      return;
    }

    stream := ServeRange(e, req, res, rangeHdr, includeOnRange);
  }

  /** The range stage of `serve`: resolve the gated `Range` header and send what it selects. */
  method ServeRange(e: Entity, req: Request, res: Response, rangeHdr: Option<RangeHeader>, includeOnRange: bool)
    returns (stream: MultipartStream?)
    requires rangeHdr == EffectiveRange(e, req) && includeOnRange == IncludeOnRange(e, req.ifRange)
    requires res.status == Ok && res.body == Empty && !res.headers.entityHeaders
    modifies res
    ensures res.Snapshot() == DecideRange(e, req, old(res.headers))
    ensures stream != null <==> res.body.Multipart?
    ensures stream != null ==>
              && fresh(stream) && stream.Valid() && stream.state == 0 && InBounds(res.body.parts, e.len)
              && stream.ranges == res.body.parts && stream.read == e.read
              && stream.headers == PartsOf(e, res.body.parts, res.body.partEntityHeaders)
  {
    stream := null;
    var len := e.len;
    var resolved := ParseRangeHeader(rangeHdr, len);
    var range := ByteRange(0, len);
    var includeEntityHeaders := true;
    match resolved {
      case Absent =>
      case Satisfiable(rs) =>
        if |rs| == 1 {
          res.headers := res.headers.(contentRange := Some(Satisfied(rs[0].start, rs[0].end - 1, len)));
          res.status := PartialContent;
          range, includeEntityHeaders := rs[0], includeOnRange;
        } else {
          var estLen := EstimatedLength(rs);
          if estLen < len {
            stream := SendMultipart(e, req, res, rs, includeOnRange);
            return;
          }
        }
      case NotSatisfiable =>
        res.headers := res.headers.(contentRange := Some(Unsatisfied(len)));
        res.status := RangeNotSatisfiable;
        return;
    }
    SendEntityRange(req, res, range, includeEntityHeaders);
  }

  /** GET and HEAD: 412 exactly when `If-Match` fails or the entity was modified after
      `If-Unmodified-Since` (so 412 wins over 304), with the fixed text as body. */
  lemma PreconditionFailedRule(e: Entity, req: Request, now: Timestamp)
    requires IsGetOrHead(req.verb)
    ensures Decide(e, req, now).status == PreconditionFailed <==>
              || !AnyMatches(e.etag, req.ifMatch)
              || (e.lastModified.Some? && req.ifUnmodifiedSince.Some? && e.lastModified.value > req.ifUnmodifiedSince.value)
    ensures Decide(e, req, now).status == PreconditionFailed ==> Decide(e, req, now).body == Text(PRECONDITION_FAILED_TEXT)
  {
  }

  /** GET and HEAD: 304 exactly when no 412 applies and `If-None-Match` matches or the entity
      is unmodified since `If-Modified-Since`; a 304 has no body and no range headers. */
  lemma NotModifiedRule(e: Entity, req: Request, now: Timestamp)
    requires IsGetOrHead(req.verb)
    ensures Decide(e, req, now).status == NotModified <==>
              && !PreconditionFails(e, req)
              && (|| !NoneMatches(e.etag, req.ifNoneMatch)
                  || (e.lastModified.Some? && req.ifModifiedSince.Some? && e.lastModified.value <= req.ifModifiedSince.value))
    ensures Decide(e, req, now).status == NotModified ==>
              var reply := Decide(e, req, now);
              reply.body == Empty && reply.headers.contentRange.None? && reply.headers.contentLength.None?
  {
  }

  /** The range stage only adds headers: the ones set before it are kept. */
  lemma RangeStageKeepsValidators(e: Entity, req: Request, h: Headers, resolved: ResolvedRanges)
    requires resolved.Satisfiable? ==> 0 < |resolved.ranges| && Renderable(resolved.ranges)
    ensures var r := RangeReply(e, req, h, resolved).headers;
              r.acceptRangesBytes == h.acceptRangesBytes && r.date == h.date && r.lastModified == h.lastModified && r.etag == h.etag
  {
    match resolved
    case Absent =>
    case NotSatisfiable =>
    case Satisfiable(rs) =>
  }

  /** Every GET or HEAD response carries Accept-Ranges and the entity's ETag, and the
      Last-Modified it sends is never later than its Date (section 2.2.1 of RFC 7232). */
  lemma ValidatorsOnEveryResponse(e: Entity, req: Request, now: Timestamp)
    requires IsGetOrHead(req.verb)
    ensures var h := Decide(e, req, now).headers;
              && h.acceptRangesBytes && h.etag == e.etag
              && (h.lastModified.Some? <==> e.lastModified.Some?)
              && (h.lastModified.Some? ==> h.date == Some(now) && h.lastModified.value <= now
                                            && h.lastModified.value <= e.lastModified.value)
  {
    if !PreconditionFails(e, req) && !NotModifiedSince(e, req) {
      RangeStageKeepsValidators(e, req, Validators(e, now), Resolve(EffectiveRange(e, req), e.len));
    }
  }

  /** A date in `If-Range` never matches: the request is answered as if it had neither
      `If-Range` nor `Range`. */
  lemma IfRangeDateIgnoresRange(e: Entity, req: Request, now: Timestamp, d: Timestamp)
    ensures Decide(e, req.(ifRange := Some(IfRangeDate(d))), now) == Decide(e, req.(ifRange := None, range := None), now)
  {
  }

  /** An `If-Range` tag that does not strong-compare equal to the entity's tag (or an entity
      without a tag) also discards the range. */
  lemma IfRangeTagMismatchIgnoresRange(e: Entity, req: Request, now: Timestamp, t: EntityTag)
    requires !(e.etag.Some? && StrongEq(t, e.etag.value))
    ensures Decide(e, req.(ifRange := Some(IfRangeTag(t))), now) == Decide(e, req.(ifRange := None, range := None), now)
  {
  }

  /** One satisfiable range: 206 with `Content-Range: bytes start-(end-1)/len`, its length as
      Content-Length, the entity's headers unless a matching `If-Range` was sent, and for GET
      the bytes of that range. */
  lemma SingleRangeRule(e: Entity, req: Request, now: Timestamp, r: ByteRange)
    requires IsGetOrHead(req.verb) && !PreconditionFails(e, req) && !NotModifiedSince(e, req)
    requires Resolve(EffectiveRange(e, req), e.len) == Satisfiable([r])
    ensures var reply := Decide(e, req, now);
              && r.start < r.end <= e.len
              && reply.status == PartialContent
              && reply.headers.contentRange == Some(Satisfied(r.start, r.end - 1, e.len))
              && reply.headers.contentLength == Some(r.end - r.start)
              && reply.headers.contentType.None?
              && reply.headers.entityHeaders == IncludeOnRange(e, req.ifRange)
              && reply.body == if req.verb.Head? then Empty else EntityRange(r)
  {
    RangeStageSingle(e, req, Validators(e, now), r);
  }

  /** The range stage with one satisfiable range sends exactly that range. */
  lemma RangeStageSingle(e: Entity, req: Request, h: Headers, r: ByteRange)
    requires Resolve(EffectiveRange(e, req), e.len) == Satisfiable([r])
    ensures r.start < r.end <= e.len
    ensures DecideRange(e, req, h) ==
              SendRange(req, PartialContent, h.(contentRange := Some(Satisfied(r.start, r.end - 1, e.len))),
                        r, IncludeOnRange(e, req.ifRange))
  {
    assert Resolve(EffectiveRange(e, req), e.len).ranges[0] == r;
  }

  /** An `If-Range` tag that strong-matches keeps a single range and omits the entity's
      headers from the 206. */
  lemma MatchingIfRangeOmitsEntityHeaders(e: Entity, req: Request, now: Timestamp, r: ByteRange)
    requires IsGetOrHead(req.verb) && !PreconditionFails(e, req) && !NotModifiedSince(e, req)
    requires e.etag.Some? && req.ifRange == Some(IfRangeTag(e.etag.value)) && !e.etag.value.weak
    requires Resolve(req.range, e.len) == Satisfiable([r])
    ensures Decide(e, req, now).status == PartialContent
    ensures !Decide(e, req, now).headers.entityHeaders
  {
    SingleRangeRule(e, req, now, r);
  }

  /** Several ranges: multipart/byteranges exactly when the estimate is below the entity's
      length, with a Content-Length equal to the bytes the stream yields; otherwise a 200 with
      the whole entity and its headers. */
  lemma MultipleRangesRule(e: Entity, req: Request, now: Timestamp, rs: seq<ByteRange>)
    requires IsGetOrHead(req.verb) && !PreconditionFails(e, req) && !NotModifiedSince(e, req)
    requires Resolve(EffectiveRange(e, req), e.len) == Satisfiable(rs) && |rs| >= 2
    ensures InBounds(rs, e.len)
    ensures Decide(e, req, now).status == PartialContent <==> EstimatedLength(rs) < e.len
    ensures EstimatedLength(rs) < e.len ==>
              var reply := Decide(e, req, now);
              var withEntity := IncludeOnRange(e, req.ifRange);
              && reply.headers.contentType == Some(MultipartByteranges(BOUNDARY))
              && reply.headers.contentRange.None? && !reply.headers.entityHeaders
              && reply.headers.contentLength == Some(|MultipartBytes(e, rs, withEntity)|)
              && reply.body == if req.verb.Head? then Empty else Multipart(rs, withEntity)
    ensures EstimatedLength(rs) >= e.len ==>
              var reply := Decide(e, req, now);
              && reply.status == Ok && reply.headers.contentRange.None? && reply.headers.entityHeaders
              && reply.headers.contentLength == Some(e.len)
              && reply.body == if req.verb.Head? then Empty else EntityRange(ByteRange(0, e.len))
  {
    var withEntity := IncludeOnRange(e, req.ifRange);
    ChunksSumToBodyLength(PartsOf(e, rs, withEntity), rs, e.read);
  }

  /** No `Range` (or one discarded by `If-Range`): 200 with the whole entity and its headers. */
  lemma WholeEntityRule(e: Entity, req: Request, now: Timestamp)
    requires IsGetOrHead(req.verb) && !PreconditionFails(e, req) && !NotModifiedSince(e, req)
    requires Resolve(EffectiveRange(e, req), e.len) == Absent
    ensures var reply := Decide(e, req, now);
              && reply.status == Ok && reply.headers.contentRange.None? && reply.headers.entityHeaders
              && reply.headers.contentLength == Some(e.len)
              && reply.body == if req.verb.Head? then Empty else EntityRange(ByteRange(0, e.len))
  {
  }

  /** A `Range` none of whose specs fits: 416 with `Content-Range: bytes * /len` and no body. */
  lemma UnsatisfiableRule(e: Entity, req: Request, now: Timestamp)
    requires IsGetOrHead(req.verb) && !PreconditionFails(e, req) && !NotModifiedSince(e, req)
    requires Resolve(EffectiveRange(e, req), e.len) == NotSatisfiable
    ensures var reply := Decide(e, req, now);
              && reply.status == RangeNotSatisfiable && reply.headers.contentRange == Some(Unsatisfied(e.len))
              && reply.headers.contentLength.None? && !reply.headers.entityHeaders && reply.body == Empty
  {
  }

  /** The range stage answers HEAD as it answers GET, without the bytes. */
  lemma RangeStageHeadMirrorsGet(e: Entity, req: Request, h: Headers)
    ensures var get := DecideRange(e, req.(verb := Get), h);
            var head := DecideRange(e, req.(verb := Head), h);
              && head.status == get.status && head.headers == get.headers
              && head.body == if get.body.EntityRange? || get.body.Multipart? then Empty else get.body
  {
    var get := req.(verb := Get);
    var head := req.(verb := Head);
    assert EffectiveRange(e, get) == EffectiveRange(e, head) == EffectiveRange(e, req);
    match Resolve(EffectiveRange(e, req), e.len)
    case Absent =>
    case NotSatisfiable =>
    case Satisfiable(rs) =>
  }

  /** HEAD gets exactly GET's status and headers; it only leaves out the entity's bytes. */
  lemma HeadMirrorsGet(e: Entity, req: Request, now: Timestamp)
    ensures var get := Decide(e, req.(verb := Get), now);
            var head := Decide(e, req.(verb := Head), now);
              && head.status == get.status && head.headers == get.headers
              && head.body == if get.body.EntityRange? || get.body.Multipart? then Empty else get.body
  {
    var get := req.(verb := Get);
    var head := req.(verb := Head);
    assert EffectiveRange(e, get) == EffectiveRange(e, head);
    assert PreconditionFails(e, get) == PreconditionFails(e, head);
    assert NotModifiedSince(e, get) == NotModifiedSince(e, head);
    if !PreconditionFails(e, get) && !NotModifiedSince(e, get) {
      RangeStageHeadMirrorsGet(e, req, Validators(e, now));
    }
  }

  /** Content-Length always matches the body that follows: the range's bytes, or the bytes
      the multipart stream yields. */
  lemma ContentLengthMatchesBody(e: Entity, req: Request, now: Timestamp)
    ensures var reply := Decide(e, req, now);
              reply.body.EntityRange? ==> reply.headers.contentLength == Some(|e.read(reply.body.range)|)
    ensures var reply := Decide(e, req, now);
              reply.body.Multipart? ==>
                && reply.status == PartialContent && InBounds(reply.body.parts, e.len)
                && reply.headers.contentLength == Some(|MultipartBytes(e, reply.body.parts, reply.body.partEntityHeaders)|)
  {
    if IsGetOrHead(req.verb) && !PreconditionFails(e, req) && !NotModifiedSince(e, req) {
      match Resolve(EffectiveRange(e, req), e.len)
      case Absent =>
      case NotSatisfiable =>
      case Satisfiable(rs) =>
        if |rs| != 1 && EstimatedLength(rs) < e.len {
          ChunksSumToBodyLength(PartsOf(e, rs, IncludeOnRange(e, req.ifRange)), rs, e.read);
        }
    }
  }

  /** `serve` exactly as the source writes it: the same decision, with the range conversion of
      `ResolveAsWritten` in place of the corrected one. */
  function DecideAsWritten(e: Entity, req: Request, now: Timestamp): Reply {
    if IsGetOrHead(req.verb) && !PreconditionFails(e, req) && !NotModifiedSince(e, req) then
      RangeReply(e, req, Validators(e, now), ResolveAsWritten(EffectiveRange(e, req), e.len))
    else
      Decide(e, req, now)
  }

  /** The corrected model answers every request whose `Range` header avoids the two inputs of the
      findings exactly as the source does. */
  lemma DecideAgreesAsWritten(e: Entity, req: Request, now: Timestamp)
    requires HeaderClearOfFindings(req.range)
    ensures DecideAsWritten(e, req, now) == Decide(e, req, now)
  {
    ResolveAgrees(EffectiveRange(e, req), e.len);
  }

  /** As written, `bytes=-0` of the 240-byte entity is a 206 with `Content-Range: bytes
      240-239/240` and no bytes; corrected, it is a 416. */
  lemma EmptySuffixReplyAsWritten(read: RangeReader, now: Timestamp)
    ensures var reply := DecideAsWritten(TestEntity(None, read), TestGet(Some(Bytes([Last(0)])), None), now);
              && reply.status == PartialContent && reply.headers.contentRange == Some(Satisfied(240, 239, 240))
              && reply.headers.contentLength == Some(0) && reply.body == EntityRange(ByteRange(240, 240))
    ensures var reply := Decide(TestEntity(None, read), TestGet(Some(Bytes([Last(0)])), None), now);
              reply.status == RangeNotSatisfiable && reply.headers.contentRange == Some(Unsatisfied(240))
  {
    var e := TestEntity(None, read);
    var req := TestGet(Some(Bytes([Last(0)])), None);
    FindingHeaders(240);
    assert EffectiveRange(e, req) == req.range;
    UnsatisfiableRule(e, req, now);
  }

  /** As written (release build), `bytes=0-18446744073709551615` of the 240-byte entity is a 416;
      corrected, it is a 206 of all 240 bytes. */
  lemma OverflowReplyAsWritten(read: RangeReader, now: Timestamp)
    ensures var reply := DecideAsWritten(TestEntity(None, read), TestGet(Some(Bytes([FromTo(0, U64_MAX)])), None), now);
              reply.status == RangeNotSatisfiable && reply.headers.contentRange == Some(Unsatisfied(240))
    ensures var reply := Decide(TestEntity(None, read), TestGet(Some(Bytes([FromTo(0, U64_MAX)])), None), now);
              && reply.status == PartialContent && reply.headers.contentRange == Some(Satisfied(0, 239, 240))
              && reply.headers.contentLength == Some(240)
  {
    var e := TestEntity(None, read);
    var req := TestGet(Some(Bytes([FromTo(0, U64_MAX)])), None);
    FindingHeaders(240);
    assert EffectiveRange(e, req) == req.range;
    SingleRangeRule(e, req, now, ByteRange(0, 240));
  }

  /** "Sun, 06 Nov 1994 08:49:37 GMT", the modification time of the acceptance tests' entities. */
  const SOME_DATE: Timestamp := 784111777

  /** The acceptance tests' entity: 240 bytes whose one header is its content type. */
  function TestEntity(etag: Option<EntityTag>, read: RangeReader): (e: Entity)
    ensures |e.headerBlock| == 40
  {
    Entity(240, etag, Some(SOME_DATE), Ascii("content-type: application/octet-stream\r\n"), read)
  }

  function TestGet(range: Option<RangeHeader>, ifRange: Option<IfRange>): Request {
    Request(Get, None, None, None, None, ifRange, range)
  }

  /** The two part headers of the multipart test are 79 bytes each (37 of Content-Range line,
      40 of entity headers, 2 of blank line), so the body is 2 * (79 + 2) + 9 = 171 bytes. */
  lemma MultipartTestBodyLength(read: RangeReader)
    ensures var rs := [ByteRange(0, 2), ByteRange(3, 5)];
              BodyLength(PartsOf(TestEntity(None, read), rs, true), rs) == 171
  {
    var e := TestEntity(None, read);
    var rs := [ByteRange(0, 2), ByteRange(3, 5)];
    DecimalExamples();
    var each := EachPartHeaders(e.headerBlock, true);
    var hs := PartsOf(e, rs, true);
    assert hs[0] == PartHeader(rs[0], 240, each) && hs[1] == PartHeader(rs[1], 240, each);
    assert |hs[0]| == 79 && |hs[1]| == 79;
    assert hs[1..] == [hs[1]] && rs[1..] == [rs[1]];
    assert PartsLength([hs[1]], [rs[1]]) == 81 by {
      assert [hs[1]][1..] == [] && [rs[1]][1..] == [];
    }
  }

  /** `bytes=0-1,3-4` of the 240-byte entity is cheaper as multipart: a 206 of 171 bytes, two
      79-byte part headers with two bytes each, and the 9-byte trailer. */
  lemma MultipartAcceptanceExample(read: RangeReader, now: Timestamp)
    ensures var reply := Decide(TestEntity(None, read), TestGet(Some(Bytes([FromTo(0, 1), FromTo(3, 4)])), None), now);
              && reply.status == PartialContent
              && reply.headers.contentType == Some(MultipartByteranges("B"))
              && reply.headers.contentRange.None?
              && reply.headers.contentLength == Some(171)
              && reply.body == Multipart([ByteRange(0, 2), ByteRange(3, 5)], true)
  {
    var e := TestEntity(None, read);
    var req := TestGet(Some(Bytes([FromTo(0, 1), FromTo(3, 4)])), None);
    var rs := [ByteRange(0, 2), ByteRange(3, 5)];
    ResolvePair(FromTo(0, 1), FromTo(3, 4), 240);
    assert Resolve(EffectiveRange(e, req), e.len) == Satisfiable(rs);
    assert EstimatedLength(rs) == 164 by {
      assert rs[1..][1..] == [];
    }
    MultipleRangesRule(e, req, now, rs);
    MultipartTestBodyLength(read);
    ChunksSumToBodyLength(PartsOf(e, rs, true), rs, read);
  }

  /** `bytes=0-100,120-240` would cost more as multipart than the whole entity: 200 with all
      240 bytes and the entity's headers. */
  lemma MultipartFallbackExample(read: RangeReader, now: Timestamp)
    ensures var reply := Decide(TestEntity(None, read), TestGet(Some(Bytes([FromTo(0, 100), FromTo(120, 240)])), None), now);
              && reply.status == Ok && reply.headers.contentRange.None? && reply.headers.entityHeaders
              && reply.headers.contentLength == Some(240) && reply.body == EntityRange(ByteRange(0, 240))
  {
    var rs := [ByteRange(0, 101), ByteRange(120, 240)];
    ResolvePair(FromTo(0, 100), FromTo(120, 240), 240);
    assert EstimatedLength(rs) == 381 by {
      assert rs[1..][1..] == [];
    }
    MultipleRangesRule(TestEntity(None, read), TestGet(Some(Bytes([FromTo(0, 100), FromTo(120, 240)])), None), now, rs);
  }

  /** `If-Range` by the entity's own modification date still gets the whole entity. */
  lemma IfRangeDateExample(read: RangeReader, now: Timestamp)
    ensures var reply := Decide(TestEntity(None, read), TestGet(Some(Bytes([FromTo(1, 3)])), Some(IfRangeDate(SOME_DATE))), now);
              reply.status == Ok && reply.headers.entityHeaders && reply.body == EntityRange(ByteRange(0, 240))
  {
  }

  /** `If-Range` by tag: the strong tag `"foo"` of a matching entity keeps `bytes=1-3` and omits
      the entity's headers. */
  lemma IfRangeTagMatchExample(read: RangeReader, now: Timestamp)
    ensures var reply := Decide(TestEntity(Some(EntityTag(false, "foo")), read),
                                TestGet(Some(Bytes([FromTo(1, 3)])), Some(IfRangeTag(EntityTag(false, "foo")))), now);
              && reply.status == PartialContent && !reply.headers.entityHeaders
              && reply.headers.contentRange == Some(Satisfied(1, 3, 240)) && reply.body == EntityRange(ByteRange(1, 4))
  {
    var e := TestEntity(Some(EntityTag(false, "foo")), read);
    var req := TestGet(Some(Bytes([FromTo(1, 3)])), Some(IfRangeTag(EntityTag(false, "foo"))));
    SingleSpecRules(FromTo(1, 3), 240);
    assert EffectiveRange(e, req) == Some(Bytes([FromTo(1, 3)]));
    SingleRangeRule(e, req, now, ByteRange(1, 4));
  }

  /** Against a weak `W/"foo"` or a missing tag, an `If-Range` tag drops the range. */
  lemma IfRangeTagMismatchExamples(read: RangeReader, now: Timestamp)
    ensures var reply := Decide(TestEntity(Some(EntityTag(true, "foo")), read),
                                TestGet(Some(Bytes([FromTo(1, 3)])), Some(IfRangeTag(EntityTag(true, "foo")))), now);
              reply.status == Ok && reply.headers.entityHeaders && reply.headers.contentRange.None?
    ensures var reply := Decide(TestEntity(None, read),
                                TestGet(Some(Bytes([FromTo(1, 3)])), Some(IfRangeTag(EntityTag(false, "foo")))), now);
              reply.status == Ok && reply.headers.entityHeaders && reply.headers.contentRange.None?
  {
    var weak := TestEntity(Some(EntityTag(true, "foo")), read);
    var none := TestEntity(None, read);
    var plain := TestGet(None, None);
    IfRangeTagMismatchIgnoresRange(weak, TestGet(Some(Bytes([FromTo(1, 3)])), None), now, EntityTag(true, "foo"));
    IfRangeTagMismatchIgnoresRange(none, TestGet(Some(Bytes([FromTo(1, 3)])), None), now, EntityTag(false, "foo"));
    assert TestGet(Some(Bytes([FromTo(1, 3)])), None).(ifRange := Some(IfRangeTag(EntityTag(true, "foo")))) ==
           TestGet(Some(Bytes([FromTo(1, 3)])), Some(IfRangeTag(EntityTag(true, "foo"))));
    assert TestGet(Some(Bytes([FromTo(1, 3)])), None).(ifRange := None, range := None) == plain;
    WholeEntityRule(weak, plain, now);
    WholeEntityRule(none, plain, now);
  }

  /** The precondition tests: a weak tag fails `If-Match` even listed as itself, but satisfies
      `If-None-Match`; an entity unmodified since the given date gets 304. */
  lemma PreconditionExamples(read: RangeReader, now: Timestamp)
    ensures Decide(TestEntity(Some(EntityTag(true, "foo")), read),
                   TestGet(None, None).(ifMatch := Some(Items([EntityTag(true, "foo")]))), now).status == PreconditionFailed
    ensures Decide(TestEntity(Some(EntityTag(true, "foo")), read),
                   TestGet(None, None).(ifNoneMatch := Some(Items([EntityTag(true, "foo")]))), now).status == NotModified
    ensures Decide(TestEntity(None, read),
                   TestGet(None, None).(ifMatch := Some(Items([EntityTag(false, "foo")]))), now).status == PreconditionFailed
    ensures Decide(TestEntity(None, read), TestGet(None, None).(ifModifiedSince := Some(SOME_DATE)), now).status == NotModified
    ensures Decide(TestEntity(None, read), TestGet(None, None).(ifNoneMatch := Some(Any)), now).status == NotModified
  {
    var weak := [EntityTag(true, "foo")];
    assert WeakEq(weak[0], EntityTag(true, "foo"));
  }
}
