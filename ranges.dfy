/** Resolution of a `Range: bytes=...` header against an entity length (section 2.1 of RFC 7233),
    as both versions of `parse_range_header` do it: each spec is converted to a half-open
    interval clamped to the entity, unsatisfiable specs are dropped, and the kept intervals stay
    in request order, neither merged nor de-duplicated. */
module Ranges {
  import opened Http

  /** One spec resolved against an entity of `len` bytes; None when it is unsatisfiable.
      This is the corrected conversion (see the two counterexample lemmas below): `to + 1` is
      computed without overflow, and the empty suffix `-0` is dropped. */
  function ResolveSpec(spec: ByteRangeSpec, len: u64): (r: Option<ByteRange>)
    ensures r.Some? ==> r.value.start < r.value.end <= len
  {
    match spec
    case FromTo(from, to) =>
      var end := Min(to + 1, len);
      if from >= end then None else Some(ByteRange(from, end))
    case AllFrom(from) =>
      if from >= len then None else Some(ByteRange(from, len))
    case Last(n) =>
      if n == 0 || n >= len then None else Some(ByteRange(len - n, len))
  }

  /** The conversion as the source writes it: `range_to + 1` is evaluated in u64 (a release
      build wraps to 0 at u64::MAX; a debug build panics), and `-0` is kept as the empty
      interval `[len, len)`. */
  function ResolveSpecAsWritten(spec: ByteRangeSpec, len: u64): (r: Option<ByteRange>)
    ensures r.Some? ==> r.value.start <= r.value.end <= len && 0 < r.value.end
  {
    match spec
    case FromTo(from, to) =>
      var end := Min((to + 1) % U64_LIMIT, len);
      if from >= end then None else Some(ByteRange(from, end))
    case AllFrom(from) =>
      if from >= len then None else Some(ByteRange(from, len))
    case Last(n) =>
      if n >= len then None else Some(ByteRange(len - n, len))
  }

  /** The image of one spec: its interval, or nothing when it is dropped. */
  function Image(spec: ByteRangeSpec, len: u64): seq<ByteRange> {
    match ResolveSpec(spec, len)
    case None => []
    case Some(r) => [r]
  }

  /** The intervals of the kept specs, in the order of the header (what the loop pushes). */
  function Kept(specs: seq<ByteRangeSpec>, len: u64): (rs: seq<ByteRange>)
    ensures |rs| <= |specs|
    ensures forall k :: 0 <= k < |rs| ==> rs[k].start < rs[k].end <= len
  {
    if specs == [] then [] else Kept(specs[..|specs| - 1], len) + Image(specs[|specs| - 1], len)
  }

  /** `parse_range_header`: the whole header resolved. A header in a unit other than bytes is
      treated as absent. */
  function Resolve(header: Option<RangeHeader>, len: u64): (resolved: ResolvedRanges)
    ensures resolved.Satisfiable? ==>
              0 < |resolved.ranges| && forall k :: 0 <= k < |resolved.ranges| ==> resolved.ranges[k].start < resolved.ranges[k].end <= len
  {
    match header
    case None => Absent
    case Some(Unregistered(_, _)) => Absent
    case Some(Bytes(specs)) =>
      var rs := Kept(specs, len);
      if rs == [] then NotSatisfiable else Satisfiable(rs)
  }

  /** Resolution distributes over concatenation of the header's specs: the output is the
      in-order image of the input, never reordered or coalesced. */
  lemma {:induction false} KeptAppend(a: seq<ByteRangeSpec>, b: seq<ByteRangeSpec>, len: u64)
    ensures Kept(a + b, len) == Kept(a, len) + Kept(b, len)
    decreases |b|
  {
    if b == [] {
      assert a + b == a;
    } else {
      var last := b[|b| - 1];
      var b' := b[..|b| - 1];
      assert (a + b)[..|a + b| - 1] == a + b';
      assert (a + b)[|a + b| - 1] == last;
      KeptAppend(a, b', len);
    }
  }

  /** Every kept interval comes from some spec of the header, and every satisfiable spec
      contributes its interval. */
  lemma {:induction false} KeptMembers(specs: seq<ByteRangeSpec>, len: u64, r: ByteRange)
    ensures r in Kept(specs, len) <==> exists i :: 0 <= i < |specs| && ResolveSpec(specs[i], len) == Some(r)
    decreases |specs|
  {
    if specs != [] {
      var init := specs[..|specs| - 1];
      KeptMembers(init, len, r);
      if r in Kept(specs, len) && r !in Kept(init, len) {
        assert ResolveSpec(specs[|specs| - 1], len) == Some(r);
      }
      if exists i :: 0 <= i < |specs| && ResolveSpec(specs[i], len) == Some(r) {
        var i :| 0 <= i < |specs| && ResolveSpec(specs[i], len) == Some(r);
        if i < |specs| - 1 {
          assert init[i] == specs[i];
        }
      }
    }
  }

  /** A present bytes header keeps nothing exactly when every one of its specs is unsatisfiable. */
  lemma {:induction false} KeptEmptyIff(specs: seq<ByteRangeSpec>, len: u64)
    ensures Kept(specs, len) == [] <==> forall i :: 0 <= i < |specs| ==> ResolveSpec(specs[i], len).None?
    decreases |specs|
  {
    if specs != [] {
      var init := specs[..|specs| - 1];
      KeptEmptyIff(init, len);
      assert forall i :: 0 <= i < |init| ==> init[i] == specs[i];
    }
  }

  /** The three outcomes of `parse_range_header`: no bytes header gives Absent; a present one
      never does, and gives NotSatisfiable exactly when all its specs were dropped; Satisfiable
      ranges are non-empty intervals inside the entity. */
  lemma ResolveOutcomes(header: Option<RangeHeader>, len: u64)
    ensures (header.None? || header.value.Unregistered?) <==> Resolve(header, len) == Absent
    ensures header.Some? && header.value.Bytes? ==>
              (Resolve(header, len) == NotSatisfiable <==>
                 forall i :: 0 <= i < |header.value.specs| ==> ResolveSpec(header.value.specs[i], len).None?)
    ensures Resolve(header, len).Satisfiable? ==>
              var rs := Resolve(header, len).ranges;
              0 < |rs| && forall k :: 0 <= k < |rs| ==> rs[k].start < rs[k].end <= len
  {
    if header.Some? && header.value.Bytes? {
      KeptEmptyIff(header.value.specs, len);
    }
  }

  /** On an empty entity every bytes header is unsatisfiable. */
  lemma ZeroLengthUnsatisfiable(specs: seq<ByteRangeSpec>)
    ensures Resolve(Some(Bytes(specs)), 0) == NotSatisfiable
  {
    KeptEmptyIff(specs, 0);
  }

  /** The per-spec rules, for a header holding that one spec. */
  lemma SingleSpecRules(spec: ByteRangeSpec, len: u64)
    ensures spec.FromTo? ==>
              var end := Min(spec.to + 1, len);
              Resolve(Some(Bytes([spec])), len) ==
                (if spec.from < end then Satisfiable([ByteRange(spec.from, end)]) else NotSatisfiable)
    ensures spec.AllFrom? ==>
              Resolve(Some(Bytes([spec])), len) ==
                (if spec.from < len then Satisfiable([ByteRange(spec.from, len)]) else NotSatisfiable)
    ensures spec.Last? ==>
              Resolve(Some(Bytes([spec])), len) ==
                (if 0 < spec.n < len then Satisfiable([ByteRange(len - spec.n, len)]) else NotSatisfiable)
  {
    assert [spec][..0] == [];
  }

  /** The corrected conversion clamps a last-byte-pos at or past the end of the entity to the
      entity's last byte, u64::MAX included. */
  lemma FromToClampsToEntity(from: u64, to: u64, len: u64)
    requires from < len && len <= to + 1
    ensures ResolveSpec(FromTo(from, to), len) == Some(ByteRange(from, len))
  {
  }

  /** As written, `bytes=0-18446744073709551615` (a request for the whole entity) is dropped as
      unsatisfiable on a release build, where the corrected conversion serves the whole entity. */
  lemma FromToOverflowCounterexample()
    ensures ResolveSpecAsWritten(FromTo(0, U64_MAX), 10) == None
    ensures ResolveSpec(FromTo(0, U64_MAX), 10) == Some(ByteRange(0, 10))
  {
  }

  /** As written, `bytes=-0` on a 10-byte entity keeps the empty interval [10, 10), which would be
      answered 206 with `Content-Range: bytes 10-9/10`; the corrected conversion drops it. */
  lemma EmptySuffixCounterexample()
    ensures ResolveSpecAsWritten(Last(0), 10) == Some(ByteRange(10, 10))
    ensures ResolveSpec(Last(0), 10) == None
  {
  }

  /** A spec that is neither `-0` nor a `FromTo` ending at u64::MAX. */
  predicate ClearOfFindings(spec: ByteRangeSpec) {
    (spec.FromTo? ==> spec.to < U64_MAX) && (spec.Last? ==> spec.n != 0)
  }

  /** Outside those two inputs the source's conversion and the corrected one agree. */
  lemma AsWrittenAgreesElsewhere(spec: ByteRangeSpec, len: u64)
    requires ClearOfFindings(spec)
    ensures ResolveSpecAsWritten(spec, len) == ResolveSpec(spec, len)
  {
  }

  /** A header of two specs resolves to the images of the two, in order. */
  lemma ResolvePair(a: ByteRangeSpec, b: ByteRangeSpec, len: u64)
    ensures Resolve(Some(Bytes([a, b])), len) ==
              (var rs := Image(a, len) + Image(b, len); if rs == [] then NotSatisfiable else Satisfiable(rs))
  {
    assert Kept([a], len) == Image(a, len) by { assert [a][..0] == []; }
    assert Kept([a, b], len) == Kept([a], len) + Image(b, len) by { assert [a, b][..1] == [a]; }
  }

  /** The single-spec examples of section 14.35.1 of RFC 2616, as the unit tests of both
      versions check them. */
  lemma RfcExamples()
    ensures Resolve(Some(Bytes([FromTo(0, 499)])), 10000) == Satisfiable([ByteRange(0, 500)])
    ensures Resolve(Some(Bytes([FromTo(500, 999)])), 10000) == Satisfiable([ByteRange(500, 1000)])
    ensures Resolve(Some(Bytes([Last(500)])), 10000) == Satisfiable([ByteRange(9500, 10000)])
    ensures Resolve(Some(Bytes([AllFrom(9500)])), 10000) == Satisfiable([ByteRange(9500, 10000)])
  {
    SingleSpecRules(FromTo(0, 499), 10000);
    SingleSpecRules(FromTo(500, 999), 10000);
    SingleSpecRules(Last(500), 10000);
    SingleSpecRules(AllFrom(9500), 10000);
  }

  /** The two-spec examples of the same tests: a first and a last byte, an adjacent pair and an
      overlapping pair, all kept apart and in order. */
  lemma RfcPairExamples()
    ensures Resolve(Some(Bytes([FromTo(0, 0), Last(1)])), 10000) ==
              Satisfiable([ByteRange(0, 1), ByteRange(9999, 10000)])
    ensures Resolve(Some(Bytes([FromTo(500, 600), FromTo(601, 999)])), 10000) ==
              Satisfiable([ByteRange(500, 601), ByteRange(601, 1000)])
    ensures Resolve(Some(Bytes([FromTo(500, 700), FromTo(601, 999)])), 10000) ==
              Satisfiable([ByteRange(500, 701), ByteRange(601, 1000)])
  {
    ResolvePair(FromTo(0, 0), Last(1), 10000);
    ResolvePair(FromTo(500, 600), FromTo(601, 999), 10000);
    ResolvePair(FromTo(500, 700), FromTo(601, 999), 10000);
  }

  /** The satisfiability unit tests on a 10000-byte entity: a dropped spec alone, and beside a
      kept one. */
  lemma SatisfiabilityExamples()
    ensures Resolve(Some(Bytes([AllFrom(10000)])), 10000) == NotSatisfiable
    ensures Resolve(Some(Bytes([FromTo(0, 499), AllFrom(10000)])), 10000) == Satisfiable([ByteRange(0, 500)])
    ensures Resolve(None, 10000) == Absent
  {
    SingleSpecRules(AllFrom(10000), 10000);
    ResolvePair(FromTo(0, 499), AllFrom(10000), 10000);
  }

  /** The satisfiability unit tests on tiny entities: nothing fits in an empty one, the only byte
      of a one-byte entity does, and a last-byte-pos past the end is clamped. */
  lemma SmallEntityExamples()
    ensures Resolve(Some(Bytes([Last(1)])), 0) == NotSatisfiable
    ensures Resolve(Some(Bytes([FromTo(0, 0)])), 0) == NotSatisfiable
    ensures Resolve(Some(Bytes([AllFrom(0)])), 0) == NotSatisfiable
    ensures Resolve(Some(Bytes([FromTo(0, 0)])), 1) == Satisfiable([ByteRange(0, 1)])
    ensures Resolve(Some(Bytes([FromTo(0, 10000)])), 500) == Satisfiable([ByteRange(0, 500)])
  {
    ZeroLengthUnsatisfiable([Last(1)]);
    ZeroLengthUnsatisfiable([FromTo(0, 0)]);
    ZeroLengthUnsatisfiable([AllFrom(0)]);
    SingleSpecRules(FromTo(0, 0), 1);
    SingleSpecRules(FromTo(0, 10000), 500);
  }

  /** One more spec appends its image. */
  lemma KeptStep(specs: seq<ByteRangeSpec>, len: u64, i: nat)
    requires i < |specs|
    ensures Kept(specs[..i + 1], len) == Kept(specs[..i], len) + Image(specs[i], len)
  {
    assert specs[..i + 1][..i] == specs[..i];
  }

  /** `parse_range_header`, as the loop over the specs that pushes each satisfiable interval. */
  method ParseRangeHeader(header: Option<RangeHeader>, len: u64) returns (resolved: ResolvedRanges)
    ensures resolved == Resolve(header, len)
  {
    if header.None? || header.value.Unregistered? {
      return Absent;
    }
    var specs := header.value.specs;
    var ranges: seq<ByteRange> := [];
    for i := 0 to |specs|
      invariant ranges == Kept(specs[..i], len)
    {
      KeptStep(specs, len, i);
      match specs[i] {
        case FromTo(from, to) =>
          var end := Min(to + 1, len);
          if from >= end {
            assert Image(specs[i], len) == [];
            continue;
          }
          assert Image(specs[i], len) == [ByteRange(from, end)];
          ranges := ranges + [ByteRange(from, end)];
        case AllFrom(from) =>
          if from >= len {
            assert Image(specs[i], len) == [];
            continue;
          }
          assert Image(specs[i], len) == [ByteRange(from, len)];
          ranges := ranges + [ByteRange(from, len)];
        case Last(n) =>
          if n == 0 || n >= len {
            assert Image(specs[i], len) == [];
            continue;
          }
          assert Image(specs[i], len) == [ByteRange(len - n, len)];
          ranges := ranges + [ByteRange(len - n, len)];
      }
    }
    assert specs[..|specs|] == specs;
    if ranges != [] {
      return Satisfiable(ranges);
    }
    return NotSatisfiable;
  }

  /** The image of one spec under the source's own conversion. */
  function ImageAsWritten(spec: ByteRangeSpec, len: u64): seq<ByteRange> {
    match ResolveSpecAsWritten(spec, len)
    case None => []
    case Some(r) => [r]
  }

  /** The intervals the source's loop keeps, in the order of the header. They may be empty, but
      each ends past offset 0, so `end - 1` never underflows. */
  function KeptAsWritten(specs: seq<ByteRangeSpec>, len: u64): (rs: seq<ByteRange>)
    ensures |rs| <= |specs|
    ensures forall k :: 0 <= k < |rs| ==> rs[k].start <= rs[k].end <= len && 0 < rs[k].end
  {
    if specs == [] then [] else KeptAsWritten(specs[..|specs| - 1], len) + ImageAsWritten(specs[|specs| - 1], len)
  }

  /** `parse_range_header` exactly as the source writes it. */
  function ResolveAsWritten(header: Option<RangeHeader>, len: u64): (resolved: ResolvedRanges)
    ensures resolved.Satisfiable? ==>
              0 < |resolved.ranges| && forall k :: 0 <= k < |resolved.ranges| ==>
                resolved.ranges[k].start <= resolved.ranges[k].end <= len && 0 < resolved.ranges[k].end
  {
    match header
    case None => Absent
    case Some(Unregistered(_, _)) => Absent
    case Some(Bytes(specs)) =>
      var rs := KeptAsWritten(specs, len);
      if rs == [] then NotSatisfiable else Satisfiable(rs)
  }

  /** A header none of whose specs is one of the two inputs of the findings. */
  predicate HeaderClearOfFindings(header: Option<RangeHeader>) {
    header.Some? && header.value.Bytes? ==>
      forall i :: 0 <= i < |header.value.specs| ==> ClearOfFindings(header.value.specs[i])
  }

  /** On every header without those two inputs, the source's loop keeps what the corrected one
      keeps. */
  lemma {:induction false} KeptAgrees(specs: seq<ByteRangeSpec>, len: u64)
    requires forall i :: 0 <= i < |specs| ==> ClearOfFindings(specs[i])
    ensures KeptAsWritten(specs, len) == Kept(specs, len)
    decreases |specs|
  {
    if specs != [] {
      var init := specs[..|specs| - 1];
      assert forall i :: 0 <= i < |init| ==> init[i] == specs[i];
      KeptAgrees(init, len);
      AsWrittenAgreesElsewhere(specs[|specs| - 1], len);
    }
  }

  /** So the corrected `parse_range_header` and the source's agree on every such header. */
  lemma ResolveAgrees(header: Option<RangeHeader>, len: u64)
    requires HeaderClearOfFindings(header)
    ensures ResolveAsWritten(header, len) == Resolve(header, len)
  {
    if header.Some? && header.value.Bytes? {
      KeptAgrees(header.value.specs, len);
    }
  }

  /** Conversely, a `-0` anywhere in the header of a non-empty entity makes the source keep the
      empty interval [len, len), which the corrected resolution never keeps. */
  lemma {:induction false} EmptySuffixKeptAsWritten(specs: seq<ByteRangeSpec>, len: u64, i: nat)
    requires i < |specs| && specs[i] == Last(0) && 0 < len
    ensures ByteRange(len, len) in KeptAsWritten(specs, len)
    ensures ByteRange(len, len) !in Kept(specs, len)
    decreases |specs|
  {
    var init := specs[..|specs| - 1];
    if i < |specs| - 1 {
      assert init[i] == specs[i];
      EmptySuffixKeptAsWritten(init, len, i);
    }
  }

  /** The two findings on whole headers, for any non-empty entity: `bytes=-0` is satisfiable by
      the empty interval [len, len) as written and unsatisfiable corrected;
      `bytes=0-18446744073709551615` is unsatisfiable as written and the whole entity corrected. */
  lemma FindingHeaders(len: u64)
    requires 0 < len
    ensures ResolveAsWritten(Some(Bytes([Last(0)])), len) == Satisfiable([ByteRange(len, len)])
    ensures Resolve(Some(Bytes([Last(0)])), len) == NotSatisfiable
    ensures ResolveAsWritten(Some(Bytes([FromTo(0, U64_MAX)])), len) == NotSatisfiable
    ensures Resolve(Some(Bytes([FromTo(0, U64_MAX)])), len) == Satisfiable([ByteRange(0, len)])
  {
    assert [Last(0)][..0] == [];
    assert [FromTo(0, U64_MAX)][..0] == [];
  }
}
