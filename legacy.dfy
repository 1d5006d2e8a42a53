/** The older `serve` (src/lib.rs): the same range resolution and tag predicates, but every
    entity has a modification time, If-Unmodified-Since is checked before If-Match, a date in
    If-Range matches when it equals that time, and several ranges always fall back to the whole
    entity. The response is written to the connection at once, so its Content-Type is the only
    entity header. */
module Legacy {
  import opened Http
  import opened Ranges
  import opened Conditional

  /** The entity as the older `Entity` trait presents it. */
  datatype Entity = Entity(len: u64, etag: Option<EntityTag>, lastModified: Timestamp, mime: string)

  const NOT_ALLOWED_TEXT: string := "This resource only supports GET and HEAD."
  const PRECONDITION_FAILED_TEXT: string := "Precondition failed"

  predicate IsGetOrHead(m: Method) {
    m.Get? || m.Head?
  }

  /** If-Unmodified-Since fails: the entity changed after the given time. */
  predicate ModifiedSinceUnmodified(e: Entity, req: Request) {
    req.ifUnmodifiedSince.Some? && e.lastModified > req.ifUnmodifiedSince.value
  }

  /** If-Modified-Since says unchanged: the entity has not changed since the given time. */
  predicate UnmodifiedSince(e: Entity, req: Request) {
    req.ifModifiedSince.Some? && e.lastModified <= req.ifModifiedSince.value
  }

  /** Whether `If-Range` lets the `Range` header stand: a tag that strong-compares equal to the
      entity's, or a date equal to its modification time. */
  predicate RangeHonoured(e: Entity, ifRange: Option<IfRange>) {
    match ifRange
    case None => true
    case Some(IfRangeTag(t)) => e.etag.Some? && StrongEq(t, e.etag.value)
    case Some(IfRangeDate(d)) => d == e.lastModified
  }

  /** `include_entity_headers_on_range`. */
  predicate IncludeOnRange(e: Entity, ifRange: Option<IfRange>) {
    !(ifRange.Some? && RangeHonoured(e, ifRange))
  }

  function EffectiveRange(e: Entity, req: Request): Option<RangeHeader> {
    if RangeHonoured(e, req.ifRange) then req.range else None
  }

  /** Accept-Ranges, Last-Modified and the ETag, set on every GET and HEAD response. */
  function Validators(e: Entity): Headers {
    NoHeaders.(acceptRangesBytes := true, lastModified := Some(e.lastModified), etag := e.etag)
  }

  /** The entity (or one range of it) as the body, with Content-Type when entity headers are
      included. */
  function SendRange(e: Entity, req: Request, status: Status, h: Headers, range: ByteRange, withEntity: bool): Reply {
    Reply(
      status,
      h.(contentType := if withEntity then Some(EntityType(e.mime)) else h.contentType,
         contentLength := Some(Length(range))),
      if req.verb.Get? then EntityRange(range) else Empty)
  }

  /** The range stage, once the preconditions have passed. */
  function DecideRange(e: Entity, req: Request, h: Headers): Reply {
    RangeReply(e, req, h, Resolve(EffectiveRange(e, req), e.len))
  }

  /** What the range stage sends for a resolved `Range` header. */
  function RangeReply(e: Entity, req: Request, h: Headers, resolved: ResolvedRanges): Reply
    requires resolved.Satisfiable? ==> 0 < |resolved.ranges| && 0 < resolved.ranges[0].end
  {
    match resolved
    case Absent =>
      SendRange(e, req, Ok, h, ByteRange(0, e.len), true)
    case NotSatisfiable =>
      Reply(RangeNotSatisfiable, h.(contentRange := Some(Unsatisfied(e.len))), Empty)
    case Satisfiable(rs) =>
      if |rs| == 1 then
        SendRange(e, req, PartialContent, h.(contentRange := Some(Satisfied(rs[0].start, rs[0].end - 1, e.len))),
                  rs[0], IncludeOnRange(e, req.ifRange))
      else
        SendRange(e, req, Ok, h, ByteRange(0, e.len), true)
  }

  /** The response the older `serve` sends. */
  function Decide(e: Entity, req: Request): (reply: Reply)
    ensures reply.status == MethodNotAllowed <==> !IsGetOrHead(req.verb)
    ensures reply.headers.allow != [] <==> !IsGetOrHead(req.verb)
  {
    if !IsGetOrHead(req.verb) then
      Reply(MethodNotAllowed, NoHeaders.(contentType := Some(TextPlain), allow := [Get, Head]), Text(NOT_ALLOWED_TEXT))
    else
      var h := Validators(e);
      if ModifiedSinceUnmodified(e, req) then
        Reply(PreconditionFailed, h, Text(PRECONDITION_FAILED_TEXT))
      else if !AnyMatches(e.etag, req.ifMatch) then
        Reply(PreconditionFailed, h, Text(PRECONDITION_FAILED_TEXT))
      else if !NoneMatches(e.etag, req.ifNoneMatch) then
        Reply(NotModified, h, Empty)
      else if UnmodifiedSince(e, req) then
        Reply(NotModified, h, Empty)
      else
        DecideRange(e, req, h)
  }

  /** The `If-Range` step: drop the `Range` header unless the validator matches. */
  method GateRange(e: Entity, req: Request) returns (rangeHdr: Option<RangeHeader>, includeOnRange: bool)
    ensures rangeHdr == EffectiveRange(e, req)
    ensures includeOnRange == IncludeOnRange(e, req.ifRange)
  {
    rangeHdr := req.range;
    match req.ifRange {
      case Some(IfRangeTag(ifEtag)) =>
        if e.etag.Some? && StrongEq(ifEtag, e.etag.value) {
          includeOnRange := false;
        } else {
          rangeHdr := None;
          includeOnRange := true;
        }
      case Some(IfRangeDate(ifDate)) =>
        if ifDate != e.lastModified {
          rangeHdr := None;
          includeOnRange := true;
        } else {
          includeOnRange := false;
        }
      case None =>
        includeOnRange := true;
    }
  }

  /** The range stage of `serve`: resolve, set Content-Range and the status, then Content-Type,
      Content-Length and (for GET) the bytes. */
  method ServeRange(e: Entity, req: Request, res: Response, rangeHdr: Option<RangeHeader>, includeOnRange: bool)
    requires rangeHdr == EffectiveRange(e, req) && includeOnRange == IncludeOnRange(e, req.ifRange)
    requires res.status == Ok && res.body == Empty
    modifies res
    ensures res.Snapshot() == DecideRange(e, req, old(res.headers))
  {
    var len := e.len;
    var resolved := ParseRangeHeader(rangeHdr, len);
    var range := ByteRange(0, len);
    var includeEntityHeaders := true;
    match resolved {
      case Absent =>
      case Satisfiable(rs) =>
        if |rs| == 1 {
          res.headers := res.headers.(contentRange := Some(Satisfied(rs[0].start, rs[0].end - 1, len)));
          res.status := PartialContent;
          range, includeEntityHeaders := rs[0], includeOnRange;
        }
      case NotSatisfiable =>
        res.headers := res.headers.(contentRange := Some(Unsatisfied(len)));
        res.status := RangeNotSatisfiable;
        return;
    }
    if includeEntityHeaders {
      res.headers := res.headers.(contentType := Some(EntityType(e.mime)));
    }
    res.headers := res.headers.(contentLength := Some(range.end - range.start));
    if req.verb.Get? {
      res.body := EntityRange(range);
    }
  }

  /** The older `serve`: each check sends its response and returns at once. */
  method Serve(e: Entity, req: Request) returns (res: Response)
    ensures fresh(res)
    ensures res.Snapshot() == Decide(e, req)
  {
    res := new Response();
    if req.verb != Get && req.verb != Head {
      res.status := MethodNotAllowed;
      res.headers := res.headers.(contentType := Some(TextPlain));
      res.headers := res.headers.(allow := [Get, Head]);
      res.body := Text(NOT_ALLOWED_TEXT);
      return;
    }

    res.headers := res.headers.(acceptRangesBytes := true);
    res.headers := res.headers.(lastModified := Some(e.lastModified));
    if e.etag.Some? {
      res.headers := res.headers.(etag := e.etag);
    }

    if req.ifUnmodifiedSince.Some? && e.lastModified > req.ifUnmodifiedSince.value {
      res.status := PreconditionFailed;
      res.body := Text(PRECONDITION_FAILED_TEXT);
      return;
    }
    var anyMatch := AnyMatch(e.etag, req.ifMatch);
    if !anyMatch {
      res.status := PreconditionFailed;
      res.body := Text(PRECONDITION_FAILED_TEXT);
      return;
    }
    var noneMatch := NoneMatch(e.etag, req.ifNoneMatch);
    if !noneMatch {
      res.status := NotModified;
      return;
    }
    if req.ifModifiedSince.Some? && e.lastModified <= req.ifModifiedSince.value {
      res.status := NotModified;
      return;
    }

    var rangeHdr, includeOnRange := GateRange(e, req);
    ServeRange(e, req, res, rangeHdr, includeOnRange);
  }

  /** If-Unmodified-Since is checked first: a modification after it gives 412 whatever the
      tag headers say; otherwise a failing If-Match does. */
  lemma PreconditionFailedRule(e: Entity, req: Request)
    requires IsGetOrHead(req.verb)
    ensures ModifiedSinceUnmodified(e, req) ==> Decide(e, req).status == PreconditionFailed
    ensures Decide(e, req).status == PreconditionFailed <==>
              ModifiedSinceUnmodified(e, req) || !AnyMatches(e.etag, req.ifMatch)
  {
  }

  /** 304 exactly when neither 412 applies and If-None-Match matches or the entity is unmodified
      since If-Modified-Since. */
  lemma NotModifiedRule(e: Entity, req: Request)
    requires IsGetOrHead(req.verb)
    ensures Decide(e, req).status == NotModified <==>
              && !ModifiedSinceUnmodified(e, req) && AnyMatches(e.etag, req.ifMatch)
              && (!NoneMatches(e.etag, req.ifNoneMatch) || UnmodifiedSince(e, req))
    ensures Decide(e, req).status == NotModified ==> Decide(e, req).body == Empty
  {
  }

  /** A date in If-Range keeps the range exactly when it equals the modification time;
      otherwise the request is answered as if it had neither If-Range nor Range. */
  lemma IfRangeDateRule(e: Entity, req: Request, d: Timestamp)
    ensures d != e.lastModified ==>
              Decide(e, req.(ifRange := Some(IfRangeDate(d)))) == Decide(e, req.(ifRange := None, range := None))
    ensures d == e.lastModified ==>
              EffectiveRange(e, req.(ifRange := Some(IfRangeDate(d)))) == req.range
              && !IncludeOnRange(e, Some(IfRangeDate(d)))
  {
  }

  /** Several satisfiable ranges always get a 200 with the whole entity and no Content-Range. */
  lemma MultipleRangesFallBack(e: Entity, req: Request, rs: seq<ByteRange>)
    requires IsGetOrHead(req.verb)
    requires !ModifiedSinceUnmodified(e, req) && AnyMatches(e.etag, req.ifMatch)
    requires NoneMatches(e.etag, req.ifNoneMatch) && !UnmodifiedSince(e, req)
    requires Resolve(EffectiveRange(e, req), e.len) == Satisfiable(rs) && |rs| >= 2
    ensures var reply := Decide(e, req);
              && reply.status == Ok && reply.headers.contentRange.None?
              && reply.headers.contentType == Some(EntityType(e.mime))
              && reply.headers.contentLength == Some(e.len)
              && reply.body == if req.verb.Get? then EntityRange(ByteRange(0, e.len)) else Empty
  {
  }

  /** One satisfiable range: 206 with `Content-Range: bytes start-(end-1)/len` and its length;
      Content-Type only when no matching If-Range was sent. */
  lemma SingleRangeRule(e: Entity, req: Request, r: ByteRange)
    requires IsGetOrHead(req.verb)
    requires !ModifiedSinceUnmodified(e, req) && AnyMatches(e.etag, req.ifMatch)
    requires NoneMatches(e.etag, req.ifNoneMatch) && !UnmodifiedSince(e, req)
    requires Resolve(EffectiveRange(e, req), e.len) == Satisfiable([r])
    ensures var reply := Decide(e, req);
              && r.start < r.end <= e.len
              && reply.status == PartialContent
              && reply.headers.contentRange == Some(Satisfied(r.start, r.end - 1, e.len))
              && reply.headers.contentLength == Some(r.end - r.start)
              && (reply.headers.contentType.Some? <==> IncludeOnRange(e, req.ifRange))
              && reply.body == if req.verb.Get? then EntityRange(r) else Empty
  {
    assert Resolve(EffectiveRange(e, req), e.len).ranges[0] == r;
  }

  /** No satisfiable range: 416 with `Content-Range: bytes * /len` and an empty body. */
  lemma UnsatisfiableRule(e: Entity, req: Request)
    requires IsGetOrHead(req.verb)
    requires !ModifiedSinceUnmodified(e, req) && AnyMatches(e.etag, req.ifMatch)
    requires NoneMatches(e.etag, req.ifNoneMatch) && !UnmodifiedSince(e, req)
    requires Resolve(EffectiveRange(e, req), e.len) == NotSatisfiable
    ensures var reply := Decide(e, req);
              && reply.status == RangeNotSatisfiable && reply.headers.contentRange == Some(Unsatisfied(e.len))
              && reply.headers.contentType.None? && reply.body == Empty
  {
  }

  /** The entity's Content-Type is sent on exactly the 200s and on the 206s that did not answer
      a matching If-Range; 405 sends text/plain. */
  lemma ContentTypeRule(e: Entity, req: Request)
    ensures var reply := Decide(e, req);
              reply.headers.contentType == Some(EntityType(e.mime)) <==>
                || reply.status == Ok
                || (reply.status == PartialContent && IncludeOnRange(e, req.ifRange))
    ensures Decide(e, req).status == MethodNotAllowed ==> Decide(e, req).headers.contentType == Some(TextPlain)
  {
  }

  /** HEAD gets GET's status and headers, without the entity's bytes. */
  lemma HeadMirrorsGet(e: Entity, req: Request)
    ensures var get := Decide(e, req.(verb := Get));
            var head := Decide(e, req.(verb := Head));
              && head.status == get.status && head.headers == get.headers
              && head.body == if get.body.EntityRange? then Empty else get.body
  {
    var get := req.(verb := Get);
    var head := req.(verb := Head);
    assert EffectiveRange(e, get) == EffectiveRange(e, head);
    if !ModifiedSinceUnmodified(e, req) && AnyMatches(e.etag, req.ifMatch)
       && NoneMatches(e.etag, req.ifNoneMatch) && !UnmodifiedSince(e, req) {
      RangeStageHeadMirrorsGet(e, req, Validators(e));
    }
  }

  /** The range stage answers HEAD as it answers GET, without the bytes. */
  lemma RangeStageHeadMirrorsGet(e: Entity, req: Request, h: Headers)
    ensures var get := DecideRange(e, req.(verb := Get), h);
            var head := DecideRange(e, req.(verb := Head), h);
              && head.status == get.status && head.headers == get.headers
              && head.body == if get.body.EntityRange? then Empty else get.body
  {
    var get := req.(verb := Get);
    var head := req.(verb := Head);
    assert EffectiveRange(e, get) == EffectiveRange(e, head) == EffectiveRange(e, req);
    match Resolve(EffectiveRange(e, req), e.len)
    case Absent =>
    case NotSatisfiable =>
    case Satisfiable(rs) =>
  }

  /** `serve` exactly as the source writes it: the same decision, with the range conversion of
      `ResolveAsWritten` in place of the corrected one. */
  function DecideAsWritten(e: Entity, req: Request): Reply {
    if && IsGetOrHead(req.verb) && !ModifiedSinceUnmodified(e, req) && AnyMatches(e.etag, req.ifMatch)
       && NoneMatches(e.etag, req.ifNoneMatch) && !UnmodifiedSince(e, req)
    then
      RangeReply(e, req, Validators(e), ResolveAsWritten(EffectiveRange(e, req), e.len))
    else
      Decide(e, req)
  }

  /** On every `Range` header avoiding the two inputs of the findings, the corrected model
      answers as the source does. */
  lemma DecideAgreesAsWritten(e: Entity, req: Request)
    requires HeaderClearOfFindings(req.range)
    ensures DecideAsWritten(e, req) == Decide(e, req)
  {
    ResolveAgrees(EffectiveRange(e, req), e.len);
  }

  /** As written, `bytes=-0` of the five-byte entity is a 206 with `Content-Range: bytes 5-4/5`
      and no bytes; `bytes=0-18446744073709551615` is a 416. Corrected, the first is a 416 and
      the second a 206 of all five bytes. */
  lemma FindingRepliesAsWritten()
    ensures var reply := DecideAsWritten(TestEntity(None), TestGet(Some(Bytes([Last(0)])), None));
              && reply.status == PartialContent && reply.headers.contentRange == Some(Satisfied(5, 4, 5))
              && reply.headers.contentLength == Some(0) && reply.body == EntityRange(ByteRange(5, 5))
    ensures Decide(TestEntity(None), TestGet(Some(Bytes([Last(0)])), None)).status == RangeNotSatisfiable
    ensures DecideAsWritten(TestEntity(None), TestGet(Some(Bytes([FromTo(0, U64_MAX)])), None)).status == RangeNotSatisfiable
    ensures var reply := Decide(TestEntity(None), TestGet(Some(Bytes([FromTo(0, U64_MAX)])), None));
              reply.status == PartialContent && reply.headers.contentRange == Some(Satisfied(0, 4, 5))
  {
    FindingHeaders(5);
    UnsatisfiableRule(TestEntity(None), TestGet(Some(Bytes([Last(0)])), None));
    SingleRangeRule(TestEntity(None), TestGet(Some(Bytes([FromTo(0, U64_MAX)])), None), ByteRange(0, 5));
  }

  /** "Sun, 06 Nov 1994 08:49:37 GMT" and an hour later. */
  const SOME_DATE: Timestamp := 784111777
  const LATER_DATE: Timestamp := 784115377

  /** The unit tests' five-byte entity. */
  function TestEntity(etag: Option<EntityTag>): Entity {
    Entity(5, etag, SOME_DATE, "application/octet-stream")
  }

  function TestGet(range: Option<RangeHeader>, ifRange: Option<IfRange>): Request {
    Request(Get, None, None, None, None, ifRange, range)
  }

  /** The basic range test: `bytes=1-3` is a 206 of bytes 1 to 3. */
  lemma SingleRangeExample()
    ensures var reply := Decide(TestEntity(None), TestGet(Some(Bytes([FromTo(1, 3)])), None));
              reply.status == PartialContent && reply.headers.contentRange == Some(Satisfied(1, 3, 5))
              && reply.body == EntityRange(ByteRange(1, 4))
  {
    SingleSpecRules(FromTo(1, 3), 5);
    SingleRangeRule(TestEntity(None), TestGet(Some(Bytes([FromTo(1, 3)])), None), ByteRange(1, 4));
  }

  /** Two ranges fall back to the whole entity. */
  lemma MultipleRangesExample()
    ensures var reply := Decide(TestEntity(None), TestGet(Some(Bytes([FromTo(0, 1), FromTo(3, 4)])), None));
              reply.status == Ok && reply.headers.contentRange.None? && reply.body == EntityRange(ByteRange(0, 5))
  {
    ResolvePair(FromTo(0, 1), FromTo(3, 4), 5);
    MultipleRangesFallBack(TestEntity(None), TestGet(Some(Bytes([FromTo(0, 1), FromTo(3, 4)])), None),
                           [ByteRange(0, 2), ByteRange(3, 5)]);
  }

  /** `bytes=500-` of five bytes is a 416. */
  lemma UnsatisfiableExample()
    ensures var reply := Decide(TestEntity(None), TestGet(Some(Bytes([AllFrom(500)])), None));
              reply.status == RangeNotSatisfiable && reply.headers.contentRange == Some(Unsatisfied(5))
              && reply.body == Empty
  {
    SingleSpecRules(AllFrom(500), 5);
    UnsatisfiableRule(TestEntity(None), TestGet(Some(Bytes([AllFrom(500)])), None));
  }

  /** An If-Range of the entity's own date honours the range, without Content-Type. */
  lemma IfRangeSameDateExample()
    ensures var reply := Decide(TestEntity(None), TestGet(Some(Bytes([FromTo(1, 3)])), Some(IfRangeDate(SOME_DATE))));
              reply.status == PartialContent && reply.headers.contentRange == Some(Satisfied(1, 3, 5))
              && reply.headers.contentType.None?
  {
    SingleSpecRules(FromTo(1, 3), 5);
    SingleRangeRule(TestEntity(None), TestGet(Some(Bytes([FromTo(1, 3)])), Some(IfRangeDate(SOME_DATE))), ByteRange(1, 4));
  }

  /** An If-Range of a later date, or of a tag when the entity has none, gets the whole entity. */
  lemma IfRangeMismatchExamples()
    ensures var reply := Decide(TestEntity(None), TestGet(Some(Bytes([FromTo(1, 3)])), Some(IfRangeDate(LATER_DATE))));
              reply.status == Ok && reply.headers.contentType == Some(EntityType("application/octet-stream"))
              && reply.headers.contentRange.None?
    ensures var reply := Decide(TestEntity(None), TestGet(Some(Bytes([FromTo(1, 3)])), Some(IfRangeTag(EntityTag(false, "foo")))));
              reply.status == Ok && reply.headers.contentRange.None?
  {
  }
}
