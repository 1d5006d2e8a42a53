/** Value types shared by both versions of the entity server: the parsed request headers that the
    transport layer hands over, entity tags with their two comparison functions, byte ranges,
    and the response that `serve` builds up field by field. */
module Http {

  datatype Option<+T> = None | Some(value: T)

  newtype byte = x: int | 0 <= x < 256

  /** Rust's u64. */
  const U64_LIMIT: int := 0x1_0000_0000_0000_0000
  const U64_MAX: int := U64_LIMIT - 1
  type u64 = x: int | 0 <= x < U64_LIMIT

  /** Timestamps are whole seconds; HTTP-date parsing is done by the transport. */
  type Timestamp = int

  function Min(a: int, b: int): int { if a <= b then a else b }

  datatype Method = Get | Head | Other(name: string)

  /** An entity tag: an opaque string, marked weak (`W/"..."`) or strong. */
  datatype EntityTag = EntityTag(weak: bool, tag: string)

  /** Strong comparison (section 2.3.2 of RFC 7232): both tags strong and their values equal. */
  predicate StrongEq(a: EntityTag, b: EntityTag) {
    !a.weak && !b.weak && a.tag == b.tag
  }

  /** Weak comparison (section 2.3.2 of RFC 7232): the values are equal, whatever the strength. */
  predicate WeakEq(a: EntityTag, b: EntityTag) {
    a.tag == b.tag
  }

  /** The value of an `If-Match` or `If-None-Match` header: `*` or a list of tags. */
  datatype EtagCondition = Any | Items(tags: seq<EntityTag>)

  /** The value of an `If-Range` header. */
  datatype IfRange = IfRangeTag(etag: EntityTag) | IfRangeDate(date: Timestamp)

  /** One byte-range-spec of a `Range: bytes=...` header (section 2.1 of RFC 7233):
      `a-b` (both inclusive), `a-`, or the suffix `-n`. */
  datatype ByteRangeSpec = FromTo(from: u64, to: u64) | AllFrom(from: u64) | Last(n: u64)

  /** A `Range` header: the `bytes` unit with its specs, or any other unit, which the server ignores. */
  datatype RangeHeader = Bytes(specs: seq<ByteRangeSpec>) | Unregistered(unit: string, value: string)

  /** A half-open interval `[start, end)` of byte offsets. */
  datatype ByteRange = ByteRange(start: u64, end: u64)

  /** The byte count of a range (zero for a reversed one). */
  function Length(r: ByteRange): nat {
    if r.start <= r.end then r.end - r.start else 0
  }

  /** A `Range` header resolved against an entity length. */
  datatype ResolvedRanges =
    | Absent                                  // no (bytes) Range header
    | NotSatisfiable                          // a header whose every spec was dropped
    | Satisfiable(ranges: seq<ByteRange>)     // the kept ranges, in request order

  /** The request as the transport has parsed it: the method and the six headers the core reads. */
  datatype Request = Request(
    verb: Method,
    ifMatch: Option<EtagCondition>,
    ifNoneMatch: Option<EtagCondition>,
    ifUnmodifiedSince: Option<Timestamp>,
    ifModifiedSince: Option<Timestamp>,
    ifRange: Option<IfRange>,
    range: Option<RangeHeader>)

  datatype Status = Ok | PartialContent | NotModified | MethodNotAllowed | PreconditionFailed | RangeNotSatisfiable

  /** `Content-Range: bytes first-last/length` or `Content-Range: bytes * /length` (no range). */
  datatype ContentRange = Satisfied(first: nat, last: nat, instanceLength: nat) | Unsatisfied(instanceLength: nat)

  datatype ContentType = TextPlain | MultipartByteranges(boundary: string) | EntityType(mime: string)

  /** The response headers the core sets. `entityHeaders` records that the entity's own
      headers (its content type and the like, rendered by the entity) were added. */
  datatype Headers = Headers(
    allow: seq<Method>,
    acceptRangesBytes: bool,
    date: Option<Timestamp>,
    lastModified: Option<Timestamp>,
    etag: Option<EntityTag>,
    contentRange: Option<ContentRange>,
    contentLength: Option<nat>,
    contentType: Option<ContentType>,
    entityHeaders: bool)

  const NoHeaders := Headers([], false, None, None, None, None, None, None, false)

  /**  What the response body will carry. `EntityRange` is the entity's bytes of one range,
       `Multipart` the multipart/byteranges stream over the given parts. */
  datatype Body = Empty | Text(message: string) | EntityRange(range: ByteRange) | Multipart(parts: seq<ByteRange>, partEntityHeaders: bool)

  datatype Reply = Reply(status: Status, headers: Headers, body: Body)

  /** The response under construction; `serve` sets its status, headers and body in turn. */
  class Response {
    var status: Status
    var headers: Headers
    var body: Body

    constructor ()
      ensures status == Ok && headers == NoHeaders && body == Empty
    {
      status, headers, body := Ok, NoHeaders, Empty;
    }

    function Snapshot(): Reply
      reads this
    {
      Reply(status, headers, body)
    }
  }

  lemma StrongEqImpliesWeakEq(a: EntityTag, b: EntityTag)
    ensures StrongEq(a, b) ==> WeakEq(a, b)
    ensures StrongEq(a, b) <==> StrongEq(b, a)
    ensures WeakEq(a, b) <==> WeakEq(b, a)
  {
  }

  /** A weak tag does not even strong-compare equal to itself. */
  lemma WeakTagNeverStrongEq(a: EntityTag)
    requires a.weak
    ensures !StrongEq(a, a) && WeakEq(a, a)
  {
  }
}
