/** The stand-alone `ghosting-rs` program: its own copies of the header,
    string and record decoders, and a decode loop that differs from the
    viewer's in one respect. A record read that fails with an error other
    than `UnexpectedEof` does not end the loop: the error is pushed onto the
    list as an entry of its own and the loop reads on from where the failed
    read left the reader. */
module GhostingRs {
  import opened Bytes
  import opened Io
  import Ghosting
  import Layout
  import Demview

  // ---------------------------------------------------------------------
  // The duplicated decoders.
  // ---------------------------------------------------------------------

  /** Three `read_u8` calls in a tuple, read left to right. They end as a
      three-byte read does and yield those three bytes. */
  function ReadRgb(s: Reader): (r: Read<Ghosting.Rgb>)
    ensures SameOutcome(r, ReadExact(s, 3))
    ensures r.Ok? ==> r.value == (s.data[s.pos], s.data[s.pos + 1], s.data[s.pos + 2])
  {
    ReadExactSplit(s, 1, 2);
    match ReadU8(s)
    case Err(e, rest) => Err(e, rest)
    case Ok(r0, s1) =>
      ReadExactSplit(s1, 1, 1);
      match ReadU8(s1)
      case Err(e, rest) => Err(e, rest)
      case Ok(g, s2) =>
        match ReadU8(s2)
        case Err(e, rest) => Err(e, rest)
        case Ok(b, s3) => Ok((r0, g, b), s3)
  }

  /** The last three reads of the header: the two colour triples and the
      trail length. They end as a seven-byte read does and yield those seven
      bytes in order. */
  function ReadColorsAndLength(s: Reader): (r: Read<(Ghosting.Rgb, Ghosting.Rgb, Byte)>)
    ensures SameOutcome(r, ReadExact(s, 7))
    ensures r.Ok? ==>
              && r.value.0 == (s.data[s.pos], s.data[s.pos + 1], s.data[s.pos + 2])
              && r.value.1 == (s.data[s.pos + 3], s.data[s.pos + 4], s.data[s.pos + 5])
              && r.value.2 == s.data[s.pos + 6]
  {
    ReadExactSplit(s, 3, 4);
    match ReadRgb(s)
    case Err(e, rest) => Err(e, rest)
    case Ok(trailColor, s1) =>
      ReadExactSplit(s1, 3, 1);
      match ReadRgb(s1)
      case Err(e, rest) => Err(e, rest)
      case Ok(ghostColor, s2) =>
        match ReadU8(s2)
        case Err(e, rest) => Err(e, rest)
        case Ok(trailLength, s3) => Ok((trailColor, ghostColor, trailLength), s3)
  }

  /** This program's `GhostHeader::read`: the discarded byte, version,
      game, the two colour triples and the trail length, each read with `?`.
      It ends as a ten-byte read does and decodes exactly what the library
      copy decodes. */
  function ReadHeader(s: Reader): (r: Read<Ghosting.GhostHeader>)
    ensures SameOutcome(r, ReadExact(s, Ghosting.HeaderSize))
    ensures r == Ghosting.ReadHeader(s)
  {
    ReadExactSplit(s, 1, 9);
    match ReadU8(s)
    case Err(e, rest) => Err(e, rest)
    case Ok(_, s1) =>
      ReadExactSplit(s1, 1, 8);
      match ReadU8(s1)
      case Err(e, rest) => Err(e, rest)
      case Ok(version, s2) =>
        ReadExactSplit(s2, 1, 7);
        match ReadU8(s2)
        case Err(e, rest) => Err(e, rest)
        case Ok(game, s3) =>
          match ReadColorsAndLength(s3)
          case Err(e, rest) => Err(e, rest)
          case Ok(tail, s4) =>
            Ok(Ghosting.GhostHeader(version, game, tail.2, tail.0, tail.1), s4)
  }

  /** This program's `read_length_prefixed_string`, written out again: it
      reads what the library copy reads and ends where it ends, so it too
      consumes exactly `1 + L` bytes when it succeeds. */
  function ReadLengthPrefixedString(s: Reader, lossy: Ghosting.Utf8Lossy): (r: Read<string>)
    ensures r == Ghosting.ReadLengthPrefixedString(s, lossy)
    ensures r.Ok? ==> r.rest.pos == s.pos + 1 + s.data[s.pos] as int
  {
    match ReadU8(s)
    case Err(e, rest) => Err(e, rest)
    case Ok(len, s1) =>
      match ReadExact(s1, len as nat)
      case Err(e, rest) => Err(e, rest)
      case Ok(buf, s2) => Ok(lossy(buf), s2)
  }

  /** This program's `RunLineV1::read`: map, name, then the four floats
      read one by one. It decodes exactly what the library copy decodes, so
      it consumes `1 + L1 + 1 + L2 + 16` bytes when it succeeds. */
  function ReadRunLineV1(s: Reader, lossy: Ghosting.Utf8Lossy): (r: Read<Ghosting.RunLineV1>)
    ensures r == Ghosting.ReadRunLineV1(s, lossy)
  {
    match ReadLengthPrefixedString(s, lossy)
    case Err(e, rest) => Err(e, rest)
    case Ok(mapName, s1) =>
      match ReadLengthPrefixedString(s1, lossy)
      case Err(e, rest) => Err(e, rest)
      case Ok(name, s2) =>
        match ReadF32Le(s2)
        case Err(e, rest) => Err(e, rest)
        case Ok(timestamp, s3) =>
          match ReadF32Le(s3)
          case Err(e, rest) => Err(e, rest)
          case Ok(x, s4) =>
            match ReadF32Le(s4)
            case Err(e, rest) => Err(e, rest)
            case Ok(y, s5) =>
              match ReadF32Le(s5)
              case Err(e, rest) => Err(e, rest)
              case Ok(z, s6) => Ok(Ghosting.RunLineV1(mapName, name, timestamp, x, y, z), s6)
  }

  /** `RunLineV1::read` of this program consumes exactly the record's
      extent, `1 + L1 + 1 + L2 + 16` bytes, and decodes the record the
      layout places at the read position. */
  lemma ReadRunLineV1Extent(s: Reader, lossy: Ghosting.Utf8Lossy)
    ensures ReadRunLineV1(s, lossy).Ok? ==>
              && Ghosting.RecordFits(s.data, s.pos)
              && var q := Ghosting.StringEnd(s.data, s.pos);
                 var g := Ghosting.StringEnd(s.data, q);
                 && ReadRunLineV1(s, lossy).rest.pos == g + 16
                 && ReadRunLineV1(s, lossy).value == Ghosting.RecordAt(s.data, s.pos, lossy)
  {
    if ReadRunLineV1(s, lossy).Ok? {
      var m := Ghosting.ReadLengthPrefixedString(s, lossy);
      var nm := Ghosting.ReadLengthPrefixedString(m.rest, lossy);
      assert ReadRunLineV1(s, lossy).rest == Ghosting.ReadSample(nm.rest).rest;
    }
  }

  /** What the loop has left to do: the bytes still unread, and one more
      step while a fault is pending. */
  function Unread(s: Reader): nat
  {
    |s.data| - s.pos + (if s.fault.Some? then 1 else 0)
  }

  /** The entry `main` pushes for one record read: the record, or the
      error. */
  function Entry(line: Read<Ghosting.RunLineV1>): Result<Ghosting.RunLineV1>
  {
    match line
    case Ok(value, _) => Success(value)
    case Err(error, _) => Failure(error)
  }

  /** One record read as the loop sees it; see `Ghosting.ReadRunLineV1Step`. */
  lemma ReadRunLineV1Step(s: Reader, lossy: Ghosting.Utf8Lossy)
    ensures ReadRunLineV1(s, lossy).Ok? ==>
              var s1 := ReadRunLineV1(s, lossy).rest;
              && s1.fault == s.fault && |s1.data| - s1.pos + Ghosting.MinRecordSize <= |s.data| - s.pos
              && (FaultAhead(s1) <==> FaultAhead(s))
    ensures ReadRunLineV1(s, lossy).Err? ==>
              (ReadRunLineV1(s, lossy).error == UnexpectedEof <==> !FaultAhead(s))
    ensures ReadRunLineV1(s, lossy).Err? && ReadRunLineV1(s, lossy).error == Other ==>
              var s1 := ReadRunLineV1(s, lossy).rest;
              && FaultAhead(s) && !FaultAhead(s1) && s1.fault.None? && |s1.data| - s1.pos <= |s.data| - s.pos
    ensures !(ReadRunLineV1(s, lossy).Err? && ReadRunLineV1(s, lossy).error == UnexpectedEof) ==>
              Unread(ReadRunLineV1(s, lossy).rest) < Unread(s)
  {
    Ghosting.ReadRunLineV1Step(s, lossy);
  }

  // ---------------------------------------------------------------------
  // The decode loop of `main`.
  // ---------------------------------------------------------------------

  /** The number of error entries in the list. */
  function Failures(entries: seq<Result<Ghosting.RunLineV1>>): nat
  {
    if |entries| == 0 then 0
    else (if entries[0].Failure? then 1 else 0) + Failures(entries[1..])
  }

  lemma FailuresCons(e: Result<Ghosting.RunLineV1>, entries: seq<Result<Ghosting.RunLineV1>>)
    ensures Failures([e] + entries) == (if e.Failure? then 1 else 0) + Failures(entries)
  {
    assert ([e] + entries)[1..] == entries;
  }

  /** Records as entries of the list, each one a success. */
  function Lift(lines: seq<Ghosting.RunLineV1>): seq<Result<Ghosting.RunLineV1>>
  {
    seq(|lines|, i requires 0 <= i < |lines| => Success(lines[i]))
  }

  /** The record loop of `main`. A record read that succeeds pushes the
      record; `UnexpectedEof` ends the loop; any other error is pushed as
      an entry and the loop reads on from where the failed read stopped.
      The list holds exactly one error when the fault lies ahead and none
      otherwise. */
  function ReadLines(s: Reader, lossy: Ghosting.Utf8Lossy): (r: seq<Result<Ghosting.RunLineV1>>)
    ensures Failures(r) == (if FaultAhead(s) then 1 else 0)
    decreases Unread(s)
  {
    ReadRunLineV1Step(s, lossy);
    var line := ReadRunLineV1(s, lossy);
    if line.Err? && line.error == UnexpectedEof then []
    else
      var rest := ReadLines(line.rest, lossy);
      FailuresCons(Entry(line), rest);
      [Entry(line)] + rest
  }

  /** No entry is ever `UnexpectedEof`: that error ends the loop instead
      of being pushed. */
  lemma {:induction false} ReadLinesNoEof(s: Reader, lossy: Ghosting.Utf8Lossy)
    ensures Failure(UnexpectedEof) !in ReadLines(s, lossy)
    decreases Unread(s)
  {
    ReadRunLineV1Step(s, lossy);
    var line := ReadRunLineV1(s, lossy);
    if !(line.Err? && line.error == UnexpectedEof) {
      ReadLinesNoEof(line.rest, lossy);
      assert ReadLines(s, lossy) == [Entry(line)] + ReadLines(line.rest, lossy);
    }
  }

  /** Every record entry stands for at least 18 consumed bytes. */
  lemma {:induction false} ReadLinesBound(s: Reader, lossy: Ghosting.Utf8Lossy)
    ensures Ghosting.MinRecordSize * (|ReadLines(s, lossy)| - Failures(ReadLines(s, lossy))) <= |s.data| - s.pos
    decreases Unread(s)
  {
    ReadRunLineV1Step(s, lossy);
    var line := ReadRunLineV1(s, lossy);
    if !(line.Err? && line.error == UnexpectedEof) {
      ReadLinesBound(line.rest, lossy);
      FailuresCons(Entry(line), ReadLines(line.rest, lossy));
    }
  }

  /** `main` up to the print: the header with `?`, then the record loop,
      which never fails as a whole. A header that cannot be read ends
      everything before any record is read. */
  function DecodeAll(s: Reader, lossy: Ghosting.Utf8Lossy): (r: Result<(Ghosting.GhostHeader, seq<Result<Ghosting.RunLineV1>>)>)
    ensures r.Failure? <==> |Remaining(s)| < Ghosting.HeaderSize || HitsFault(s, Ghosting.HeaderSize)
    ensures r.Failure? ==> r.error == ReadHeader(s).error
    ensures r.Success? ==>
              && r.value.0 == ReadHeader(s).value
              && Failures(r.value.1) == (if FaultAhead(s) then 1 else 0)
  {
    match ReadHeader(s)
    case Err(e, _) => Failure(e)
    case Ok(h, s1) => Success((h, ReadLines(s1, lossy)))
  }

  /** `main` as the program writes it: the header with `?`, then a loop
      that pushes every record and every error other than `UnexpectedEof`
      onto `lines`, in the order they are read, until `UnexpectedEof`. */
  method Decode(s: Reader, lossy: Ghosting.Utf8Lossy) returns (r: Result<(Ghosting.GhostHeader, seq<Result<Ghosting.RunLineV1>>)>)
    ensures r == DecodeAll(s, lossy)
  {
    var hdr := ReadHeader(s);
    if hdr.Err? {
      return Failure(hdr.error);
    }
    var buf := hdr.rest;
    var lines: seq<Result<Ghosting.RunLineV1>> := [];
    while true
      invariant ReadLines(hdr.rest, lossy) == lines + ReadLines(buf, lossy)
      decreases Unread(buf)
    {
      ReadRunLineV1Step(buf, lossy);
      var line := ReadRunLineV1(buf, lossy);
      if line.Err? && line.error == UnexpectedEof {
        assert lines + [] == lines;
        return Success((hdr.value, lines));
      }
      PushEntry(lines, Entry(line), ReadLines(line.rest, lossy));
      lines := lines + [Entry(line)];
      buf := line.rest;
    }
  }

  /** Pushing an entry moves it from the front of what is still to be read
      to the back of what has been read. */
  lemma PushEntry(lines: seq<Result<Ghosting.RunLineV1>>, e: Result<Ghosting.RunLineV1>,
                  rest: seq<Result<Ghosting.RunLineV1>>)
    ensures lines + ([e] + rest) == (lines + [e]) + rest
  {
  }

  // ---------------------------------------------------------------------
  // The loop against the viewer's loop and against the layout.
  // ---------------------------------------------------------------------

  lemma LiftCons(line: Ghosting.RunLineV1, lines: seq<Ghosting.RunLineV1>)
    ensures Lift([line] + lines) == [Success(line)] + Lift(lines)
  {
  }

  /** The two loops read the same records. The viewer's loop succeeds
      exactly when this one pushes no error, and then this one's entries
      are the viewer's records, in the same order. */
  lemma {:induction false} LoopsAgree(s: Reader, lossy: Ghosting.Utf8Lossy)
    ensures Demview.ReadLines(s, lossy).Success? <==> Failures(ReadLines(s, lossy)) == 0
    ensures Demview.ReadLines(s, lossy).Success? ==> ReadLines(s, lossy) == Lift(Demview.ReadLines(s, lossy).value)
    decreases |s.data| - s.pos
  {
    match Ghosting.ReadRunLineV1(s, lossy)
    case Ok(line, s1) =>
      LoopsAgree(s1, lossy);
      if Demview.ReadLines(s1, lossy).Success? {
        LiftCons(line, Demview.ReadLines(s1, lossy).value);
      }
    case Err(_, _) =>
  }

  /** A record read that meets the fault pushes one error and the loop goes
      on from the fault's offset with the fault gone. */
  lemma ReadLinesFault(s: Reader, lossy: Ghosting.Utf8Lossy)
    requires HitsFault(s, Ghosting.RecordExtent(Remaining(s)))
    ensures ReadLines(s, lossy) == [Failure(Other)] + ReadLines(Stream(s.data, s.fault.value, None), lossy)
  {
  }

  /** Bytes that stop partway through a record, with no fault ahead, add
      no entries: the partial record is dropped. */
  lemma ReadLinesIncomplete(s: Reader, lossy: Ghosting.Utf8Lossy)
    requires Layout.Incomplete(Remaining(s))
    requires !FaultAhead(s)
    ensures ReadLines(s, lossy) == []
  {
  }

  /** A fault-free header, whole records and a tail that stops partway
      through a record decode to that header and one success per record,
      in order. */
  lemma DecodeAllConcat(s: Reader, lossy: Ghosting.Utf8Lossy, reserved: Byte, h: Ghosting.GhostHeader,
                        raws: seq<Layout.RawLine>, tail: seq<Byte>)
    requires Layout.AllEncodable(raws)
    requires Remaining(s) == Layout.HeaderBytes(reserved, h) + Layout.LinesBytes(raws) + tail
    requires Layout.Incomplete(tail)
    requires !FaultAhead(s)
    ensures DecodeAll(s, lossy) == Success((h, Lift(Layout.DecodedAll(raws, lossy))))
  {
    Demview.DecodeAllConcat(s, lossy, reserved, h, raws, tail);
    LoopsAgree(ReadHeader(s).rest, lossy);
  }
}
