/** The multipart/byteranges body of `send_multipart` (section 4.1 of RFC 7233): the part
    headers and the total Content-Length are computed up front, then the body is produced as a
    lazy sequence of chunks by a small state machine (state 2i: header i, 2i+1: the bytes of
    range i, 2n: the trailer, 2n+1: the end). */
module Multipart {
  import opened Http
  import opened Text

  /** The boundary token; the response's Content-Type is `multipart/byteranges; boundary=B`. */
  const BOUNDARY: string := "B"

  /** The entity's range reader: for every range it yields exactly that many bytes. The bytes
      themselves come from the application and are not modelled. */
  type RangeReader = f: ByteRange -> seq<byte> | forall r :: |f(r)| == Length(r)
    witness (r: ByteRange) => seq(Length(r), _ => 0 as byte)

  function Crlf(): (b: seq<byte>)
    ensures |b| == 2
  {
    ['\r' as byte, '\n' as byte]
  }

  /** `\r\n--B--\r\n`, sent after the last part. */
  function Trailer(): (t: seq<byte>)
    ensures |t| == 9
  {
    Ascii("\r\n--B--\r\n")
  }

  /** The block that ends every part header: the entity's own rendered headers when they are
      included, then the blank line. */
  function EachPartHeaders(entityHeaders: seq<byte>, withEntity: bool): (b: seq<byte>)
    ensures |b| == (if withEntity then |entityHeaders| else 0) + 2
  {
    (if withEntity then entityHeaders else []) + Crlf()
  }

  /** Every range is a non-empty interval inside an entity of `len` bytes. */
  predicate InBounds(rs: seq<ByteRange>, len: nat) {
    forall k :: 0 <= k < |rs| ==> rs[k].start < rs[k].end <= len
  }

  /** Every range is an interval (possibly empty) ending past offset 0, so its last byte
      position `end - 1` can be rendered. */
  predicate Renderable(rs: seq<ByteRange>) {
    forall k :: 0 <= k < |rs| ==> rs[k].start <= rs[k].end && 0 < rs[k].end
  }

  /** The header of one part: `\r\n--B\r\nContent-Range: bytes <start>-<end-1>/<len>\r\n` and
      the shared block. */
  function PartHeader(r: ByteRange, len: nat, each: seq<byte>): (h: seq<byte>)
    requires 0 < r.end
    ensures |h| == 32 + |Decimal(r.start)| + |Decimal(r.end - 1)| + |Decimal(len)| + |each|
  {
    PartPrefix() + Decimal(r.start) + ['-' as byte] + Decimal(r.end - 1) + ['/' as byte] + Decimal(len) + Crlf() + each
  }

  /** `\r\n--B\r\nContent-Range: bytes `, the start of every part header. */
  function PartPrefix(): (p: seq<byte>)
    ensures |p| == 28
  {
    Ascii("\r\n--B\r\nContent-Range: bytes ")
  }

  /** The headers of the parts, one per range, in order. */
  function PartHeaders(rs: seq<ByteRange>, len: nat, each: seq<byte>): (hs: seq<seq<byte>>)
    requires Renderable(rs)
    ensures |hs| == |rs|
    ensures forall k :: 0 <= k < |rs| ==> hs[k] == PartHeader(rs[k], len, each)
  {
    if rs == [] then []
    else
      var init := rs[..|rs| - 1];
      assert forall k :: 0 <= k < |init| ==> init[k] == rs[k];
      PartHeaders(init, len, each) + [PartHeader(rs[|rs| - 1], len, each)]
  }

  /** The number of bytes the parts take: each header plus the bytes of its range. */
  function PartsLength(headers: seq<seq<byte>>, rs: seq<ByteRange>): nat
    requires |headers| == |rs|
  {
    if rs == [] then 0 else |headers[0]| + Length(rs[0]) + PartsLength(headers[1..], rs[1..])
  }

  /** The Content-Length of the multipart body. */
  function BodyLength(headers: seq<seq<byte>>, rs: seq<ByteRange>): nat
    requires |headers| == |rs|
  {
    PartsLength(headers, rs) + |Trailer()|
  }

  /** The chunks of the body, in the order they are sent. */
  function ChunkSequence(headers: seq<seq<byte>>, rs: seq<ByteRange>, read: RangeReader): (cs: seq<seq<byte>>)
    requires |headers| == |rs|
    ensures |cs| == 2 * |rs| + 1
  {
    if rs == [] then [Trailer()] else [headers[0], read(rs[0])] + ChunkSequence(headers[1..], rs[1..], read)
  }

  /** The concatenation of a sequence of chunks. */
  function Flatten(chunks: seq<seq<byte>>): seq<byte> {
    if chunks == [] then [] else chunks[0] + Flatten(chunks[1..])
  }

  lemma {:induction false} PartsLengthAppend(headers: seq<seq<byte>>, rs: seq<ByteRange>, h: seq<byte>, r: ByteRange)
    requires |headers| == |rs|
    ensures PartsLength(headers + [h], rs + [r]) == PartsLength(headers, rs) + |h| + Length(r)
    decreases |rs|
  {
    if rs == [] {
      assert (headers + [h])[1..] == [] && (rs + [r])[1..] == [];
    } else {
      assert (headers + [h])[1..] == headers[1..] + [h];
      assert (rs + [r])[1..] == rs[1..] + [r];
      PartsLengthAppend(headers[1..], rs[1..], h, r);
    }
  }

  lemma {:induction false} FlattenAppend(a: seq<seq<byte>>, b: seq<seq<byte>>)
    ensures Flatten(a + b) == Flatten(a) + Flatten(b)
    decreases |a|
  {
    if a == [] {
      assert a + b == b;
    } else {
      assert (a + b)[1..] == a[1..] + b;
      FlattenAppend(a[1..], b);
    }
  }

  /** The chunk sequence is header 0, body 0, ..., header n-1, body n-1, trailer: chunk 2i is
      the header of part i, chunk 2i+1 its bytes, chunk 2n the trailer. */
  lemma {:induction false} ChunkAt(headers: seq<seq<byte>>, rs: seq<ByteRange>, read: RangeReader, i: nat)
    requires |headers| == |rs| && i <= |rs|
    ensures i < |rs| ==> ChunkSequence(headers, rs, read)[2 * i] == headers[i]
    ensures i < |rs| ==> ChunkSequence(headers, rs, read)[2 * i + 1] == read(rs[i])
    ensures i == |rs| ==> ChunkSequence(headers, rs, read)[2 * i] == Trailer()
    decreases i
  {
    if i > 0 {
      ChunkAt(headers[1..], rs[1..], read, i - 1);
    }
  }

  /** The bytes the chunks carry add up to the precomputed Content-Length. */
  lemma {:induction false} ChunksSumToBodyLength(headers: seq<seq<byte>>, rs: seq<ByteRange>, read: RangeReader)
    requires |headers| == |rs|
    ensures |Flatten(ChunkSequence(headers, rs, read))| == BodyLength(headers, rs)
    decreases |rs|
  {
    if rs == [] {
      assert [Trailer()][1..] == [];
    } else {
      var rest := ChunkSequence(headers[1..], rs[1..], read);
      FlattenAppend([headers[0], read(rs[0])], rest);
      assert [headers[0], read(rs[0])][1..] == [read(rs[0])];
      assert [read(rs[0])][1..] == [];
      ChunksSumToBodyLength(headers[1..], rs[1..], read);
    }
  }

  /** One more range adds its header at the end. */
  lemma PartHeadersStep(rs: seq<ByteRange>, len: nat, each: seq<byte>, k: nat)
    requires Renderable(rs) && k < |rs|
    ensures rs[..k + 1] == rs[..k] + [rs[k]]
    ensures PartHeaders(rs[..k + 1], len, each) == PartHeaders(rs[..k], len, each) + [PartHeader(rs[k], len, each)]
  {
    assert rs[..k + 1][..k] == rs[..k];
  }

  /** The up-front part of `send_multipart`: render every part header and add up the body length,
      without touching the entity's bytes. */
  method PrepareParts(rs: seq<ByteRange>, len: u64, entityHeaders: seq<byte>, withEntity: bool)
    returns (bodyLen: nat, partHeaders: seq<seq<byte>>)
    requires Renderable(rs)
    ensures partHeaders == PartHeaders(rs, len, EachPartHeaders(entityHeaders, withEntity))
    ensures bodyLen == BodyLength(partHeaders, rs)
  {
    var each := EachPartHeaders(entityHeaders, withEntity);
    bodyLen := 0;
    partHeaders := [];
    for k := 0 to |rs|
      invariant partHeaders == PartHeaders(rs[..k], len, each)
      invariant bodyLen == PartsLength(partHeaders, rs[..k])
    {
      var r := rs[k];
      var buf := PartHeader(r, len, each);
      PartsLengthAppend(partHeaders, rs[..k], buf, r);
      PartHeadersStep(rs, len, each, k);
      bodyLen := bodyLen + |buf| + (r.end - r.start);
      partHeaders := partHeaders + [buf];
    }
    assert rs[..|rs|] == rs;
    bodyLen := bodyLen + |Trailer()|;
  }

  /** The body stream of a multipart response. Each part header is handed out once and then
      released, and a range's bytes are read only when its chunk is pulled. */
  class MultipartStream {
    const ranges: seq<ByteRange>
    const read: RangeReader
    ghost const headers: seq<seq<byte>>
    var partHeaders: seq<seq<byte>>
    var state: nat

    ghost predicate Valid()
      reads this
    {
      && |headers| == |ranges| == |partHeaders|
      && state <= 2 * |ranges| + 1
      && forall i :: 0 <= i < |ranges| ==> partHeaders[i] == (if 2 * i < state then [] else headers[i])
    }

    /** The number of states before the end. */
    function Final(): nat
      reads this
    {
      2 * |ranges| + 1
    }

    constructor (rs: seq<ByteRange>, reader: RangeReader, partHeaders: seq<seq<byte>>)
      requires |partHeaders| == |rs|
      ensures Valid() && state == 0
      ensures ranges == rs && read == reader && headers == partHeaders
    {
      ranges, read, headers := rs, reader, partHeaders;
      this.partHeaders := partHeaders;
      state := 0;
    }

    /** Pull the next chunk: the chunk at the current state, or None once the trailer has gone. */
    method Next() returns (chunk: Option<seq<byte>>)
      requires Valid()
      modifies this
      ensures Valid()
      ensures old(state) < Final() ==>
                chunk == Some(ChunkSequence(headers, ranges, read)[old(state)]) && state == old(state) + 1
      ensures old(state) == Final() ==> chunk == None && state == old(state)
    {
      ChunkAt(headers, ranges, read, if state / 2 <= |ranges| then state / 2 else 0);
      var i := state / 2;
      var odd := state % 2 == 1;
      if i == |ranges| && odd {
        return None;
      } else if i == |ranges| {
        chunk := Some(Trailer());
      } else if odd {
        chunk := Some(read(ranges[i]));
      } else {
        var v := partHeaders[i];
        partHeaders := partHeaders[i := []];
        chunk := Some(v);
      }
      state := state + 1;
    }
  }

  /** The transport draining the stream: pull chunks until the end and concatenate them. The
      result is the whole chunk sequence, so its length is the precomputed body length. */
  method Drain(s: MultipartStream) returns (body: seq<byte>)
    requires s.Valid() && s.state == 0
    modifies s
    ensures s.Valid() && s.state == s.Final()
    ensures body == Flatten(ChunkSequence(s.headers, s.ranges, s.read))
    ensures |body| == BodyLength(s.headers, s.ranges)
  {
    ghost var all := ChunkSequence(s.headers, s.ranges, s.read);
    body := [];
    while true
      invariant s.Valid() && s.state <= |all|
      invariant body == Flatten(all[..s.state])
      decreases s.Final() - s.state
    {
      ghost var k := s.state;
      var chunk := s.Next();
      if chunk.None? {
        break;
      }
      FlattenAppend(all[..k], [chunk.value]);
      assert all[..k + 1] == all[..k] + [chunk.value];
      assert [chunk.value][1..] == [];
      body := body + chunk.value;
    }
    assert all[..s.state] == all;
    ChunksSumToBodyLength(s.headers, s.ranges, s.read);
  }
}
