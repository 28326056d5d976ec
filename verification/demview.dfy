/** The decode loop of the `demview` viewer: the header, then version-1
    records until the file runs out. An `UnexpectedEof` from a record read
    ends the loop normally, keeping the records collected so far; any other
    error abandons the whole decode and is passed on. */
module Demview {
  import opened Bytes
  import opened Io
  import opened Ghosting
  import opened Layout

  /** `lines` in front of the records of a successful run; a failure stays
      a failure. */
  function Prepend(lines: seq<RunLineV1>, r: Result<seq<RunLineV1>>): Result<seq<RunLineV1>>
  {
    match r
    case Success(rest) => Success(lines + rest)
    case Failure(e) => Failure(e)
  }

  /** Prepending twice is prepending once. */
  lemma PrependPrepend(a: seq<RunLineV1>, b: seq<RunLineV1>, r: Result<seq<RunLineV1>>)
    ensures Prepend(a, Prepend(b, r)) == Prepend(a + b, r)
  {
    if r.Success? {
      assert a + (b + r.value) == (a + b) + r.value;
    }
  }

  /** Putting no records in front changes nothing. */
  lemma PrependNothing(r: Result<seq<RunLineV1>>)
    ensures Prepend([], r) == r
  {
    if r.Success? {
      assert [] + r.value == r.value;
    }
  }

  /** The record loop. Each record read either yields a record, pushed
      behind the ones before it, or ends the loop: normally on
      `UnexpectedEof`, with the error otherwise. Every successful read
      consumes at least 18 bytes, so the loop ends on every file; it fails
      exactly when the one fault lies ahead of it, and never with
      `UnexpectedEof`. */
  function ReadLines(s: Reader, lossy: Utf8Lossy): (r: Result<seq<RunLineV1>>)
    ensures r.Failure? <==> FaultAhead(s)
    ensures r.Failure? ==> r.error == Other
    ensures r.Success? ==> MinRecordSize * |r.value| <= |s.data| - s.pos
    decreases |s.data| - s.pos
  {
    match ReadRunLineV1(s, lossy)
    case Ok(line, s1) => Prepend([line], ReadLines(s1, lossy))
    case Err(UnexpectedEof, _) => Success([])
    case Err(e, _) => Failure(e)
  }

  /** `main` up to the viewer: the header with `?`, then the record loop.
      A header that cannot be read ends everything before any record is
      read. The decode fails exactly when the fault lies ahead or the file
      is too short for a header, with `Other` in the first case and
      `UnexpectedEof` in the second. */
  function DecodeAll(s: Reader, lossy: Utf8Lossy): (r: Result<(GhostHeader, seq<RunLineV1>)>)
    ensures ReadHeader(s).Err? ==> r == Failure(ReadHeader(s).error)
    ensures r.Failure? <==> FaultAhead(s) || |Remaining(s)| < HeaderSize
    ensures r.Failure? ==> (r.error == Other <==> FaultAhead(s))
    ensures r.Success? ==>
              && r.value.0 == ReadHeader(s).value
              && HeaderSize + MinRecordSize * |r.value.1| <= |Remaining(s)|
  {
    match ReadHeader(s)
    case Err(e, _) => Failure(e)
    case Ok(h, s1) =>
      match ReadLines(s1, lossy)
      case Failure(e) => Failure(e)
      case Success(lines) => Success((h, lines))
  }

  /** `main` as the program writes it: the header with `?`, then the
      record loop, whose error `?` passes on. It computes `DecodeAll`. */
  method Decode(s: Reader, lossy: Utf8Lossy) returns (r: Result<(GhostHeader, seq<RunLineV1>)>)
    ensures r == DecodeAll(s, lossy)
  {
    var hdr := ReadHeader(s);
    if hdr.Err? {
      return Failure(hdr.error);
    }
    var lines := RecordLoop(hdr.rest, lossy);
    if lines.Failure? {
      return Failure(lines.error);
    }
    return Success((hdr.value, lines.value));
  }

  /** The `loop` of `main`: each turn reads one record, pushes it onto
      `lines` and goes on; `UnexpectedEof` breaks out with the records so
      far, any other error leaves with that error. Each turn either ends the
      loop or grows `lines` by exactly the record just read, so the loop
      computes `ReadLines`. */
  method RecordLoop(start: Reader, lossy: Utf8Lossy) returns (r: Result<seq<RunLineV1>>)
    ensures r == ReadLines(start, lossy)
  {
    var buf := start;
    var lines: seq<RunLineV1> := [];
    PrependNothing(ReadLines(buf, lossy));
    while true
      invariant ReadLines(start, lossy) == Prepend(lines, ReadLines(buf, lossy))
      decreases |buf.data| - buf.pos
    {
      var line := ReadRunLineV1(buf, lossy);
      ReadLinesStep(buf, lossy);
      if line.Err? {
        if line.error == UnexpectedEof {
          assert lines + [] == lines;
          return Success(lines);
        }
        return Failure(line.error);
      }
      PrependPrepend(lines, [line.value], ReadLines(line.rest, lossy));
      lines := lines + [line.value];
      buf := line.rest;
    }
  }

  /** One turn of the record loop: a record read that succeeds puts its
      record in front of what the rest decodes to; `UnexpectedEof` ends the
      loop with no record; any other error is the loop's error. */
  lemma ReadLinesStep(s: Reader, lossy: Utf8Lossy)
    ensures var line := ReadRunLineV1(s, lossy);
            ReadLines(s, lossy) ==
              if line.Ok? then Prepend([line.value], ReadLines(line.rest, lossy))
              else if line.error == UnexpectedEof then Success([])
              else Failure(line.error)
  {
  }

  /** A run of whole records decodes to their `Decoded` records, names
      decoded lossily, in order, followed by whatever the bytes after them
      decode to. */
  lemma {:induction false} ReadLinesPrefix(s: Reader, lossy: Utf8Lossy, raws: seq<RawLine>, tail: seq<Byte>)
    requires AllEncodable(raws)
    requires Remaining(s) == LinesBytes(raws) + tail
    requires !HitsFault(s, |LinesBytes(raws)|)
    ensures s.pos + |LinesBytes(raws)| <= |s.data|
    ensures ReadLines(s, lossy) == Prepend(DecodedAll(raws, lossy), ReadLines(Skip(s, |LinesBytes(raws)|), lossy))
    decreases |raws|
  {
    assert |Remaining(s)| == |s.data| - s.pos;
    if raws == [] {
      assert Skip(s, 0) == s;
      PrependNothing(ReadLines(s, lossy));
    } else {
      var raw := raws[0];
      var rr := raws[1..];
      assert AllEncodable(rr) && raw.Encodable();
      var more := LinesBytes(rr);
      assert Remaining(s) == LineBytes(raw) + (more + tail);
      ReadRunLineV1RoundTrip(s, lossy, raw, more + tail);
      var s1 := ReadRunLineV1(s, lossy).rest;
      ReadLinesRecord(s, lossy, raw, more + tail);
      ReadLinesPrefix(s1, lossy, rr, tail);
      assert ReadLines(s1, lossy) == Prepend(DecodedAll(rr, lossy), ReadLines(Skip(s1, |LinesBytes(rr)|), lossy));
      var s2 := Skip(s1, |LinesBytes(rr)|);
      assert s2 == Skip(s, |LinesBytes(raws)|);
      assert ReadLines(s, lossy) == Prepend([Decoded(raw, lossy)], ReadLines(s1, lossy));
      assert DecodedAll(raws, lossy) == [Decoded(raw, lossy)] + DecodedAll(rr, lossy);
      PrependPrepend([Decoded(raw, lossy)], DecodedAll(rr, lossy), ReadLines(s2, lossy));
    }
  }

  /** One turn of the loop over the bytes of a whole record: the record
      goes in front of what the rest of the file decodes to. */
  lemma ReadLinesRecord(s: Reader, lossy: Utf8Lossy, raw: RawLine, more: seq<Byte>)
    requires raw.Encodable()
    requires Remaining(s) == LineBytes(raw) + more
    requires !HitsFault(s, |LineBytes(raw)|)
    ensures ReadLines(s, lossy) == Prepend([Decoded(raw, lossy)], ReadLines(ReadRunLineV1(s, lossy).rest, lossy))
  {
    ReadRunLineV1RoundTrip(s, lossy, raw, more);
  }

  /** Bytes that stop partway through a record decode to no records and no
      error: the partial record is dropped. */
  lemma ReadLinesIncomplete(s: Reader, lossy: Utf8Lossy)
    requires Incomplete(Remaining(s))
    requires !FaultAhead(s)
    ensures ReadLines(s, lossy) == Success([])
  {
  }

  /** A header, whole records and a tail that stops partway through a
      record, with no fault ahead, decode to that header and those records'
      `Decoded` forms in order. */
  lemma DecodeAllConcat(s: Reader, lossy: Utf8Lossy, reserved: Byte, h: GhostHeader, raws: seq<RawLine>, tail: seq<Byte>)
    requires AllEncodable(raws)
    requires Remaining(s) == HeaderBytes(reserved, h) + LinesBytes(raws) + tail
    requires Incomplete(tail)
    requires !FaultAhead(s)
    ensures DecodeAll(s, lossy) == Success((h, DecodedAll(raws, lossy)))
  {
    assert Remaining(s) == HeaderBytes(reserved, h) + (LinesBytes(raws) + tail);
    ReadHeaderRoundTrip(s, reserved, h, LinesBytes(raws) + tail);
    var s1 := Skip(s, HeaderSize);
    ReadLinesPrefix(s1, lossy, raws, tail);
    var s2 := Skip(s1, |LinesBytes(raws)|);
    RemainingSkip(s1, |LinesBytes(raws)|);
    assert Remaining(s2) == tail;
    ReadLinesIncomplete(s2, lossy);
    assert DecodedAll(raws, lossy) + [] == DecodedAll(raws, lossy);
  }
}
