/** The `ghosting` library crate: the ghost replay header, the two record
    shapes, and the decoders for the header, a length-prefixed string and a
    version-1 record.

    Byte layout of a file: a 10-byte header (a reserved byte, version, game,
    trail colour R G B, ghost colour R G B, trail length), then records. A
    version-1 record is a map name and a player name, each one length byte
    `L` followed by `L` bytes of text, then four little-endian f32 fields:
    timestamp, x, y, z.

    Every decoder mirrors Rust's `?`: the first failing read ends it, and its
    error and the reader it left are passed on unchanged. */
module Ghosting {
  import opened Bytes
  import opened Io

  /** An f32 field, kept as its raw bit pattern. */
  type F32 = U32

  /** Replacement-on-error UTF-8 decoding (`String::from_utf8_lossy`),
      supplied by the caller: the model does not look inside it. */
  type Utf8Lossy = seq<Byte> -> string

  type Rgb = (Byte, Byte, Byte)

  datatype GhostHeader = GhostHeader(
    version: Byte,
    game: Byte,
    trailLength: Byte,
    trailColor: Rgb,
    ghostColor: Rgb)

  /** One position sample. The Rust field `map` is `mapName` here, since
      `map` is a Dafny keyword. */
  datatype RunLineV1 = RunLineV1(mapName: string, name: string, timestamp: F32, x: F32, y: F32, z: F32)

  /** The version-2 record shape. The library declares it but has no decoder
      for it, so nothing here produces one. */
  datatype RunLineV2 = RunLineV2(mapName: string, name: string, timestamp: F32, x: F32, y: F32, z: F32, yaw: F32)

  const HeaderSize: nat := 10

  /** Two length bytes and four 4-byte floats: the size of a record whose
      strings are both empty, and the least any record occupies. */
  const MinRecordSize: nat := 18

  /** The lossy decoder maps no bytes, and only no bytes, to the empty
      string; `from_utf8_lossy` does, since any non-empty input yields at
      least one character, decoded or U+FFFD. */
  ghost predicate EmptyOnlyForEmpty(lossy: Utf8Lossy)
  {
    && lossy([]) == []
    && forall b: seq<Byte> :: b != [] ==> lossy(b) != []
  }

  // ---------------------------------------------------------------------
  // Extents: how many bytes a field occupies, read off the bytes ahead.
  // ---------------------------------------------------------------------

  /** How many bytes a length-prefixed string starting at `b` occupies; when
      `b` is empty, the one length byte a read asks for first. */
  function StringExtent(b: seq<Byte>): nat
  {
    if |b| == 0 then 1 else 1 + b[0] as int
  }

  /** How many bytes a version-1 record starting at `b` occupies, as far as
      `b` determines it: once both length bytes are present this is the whole
      record, and otherwise it exceeds `|b|`. */
  function RecordExtent(b: seq<Byte>): nat
  {
    if |b| == 0 then 1
    else if |b| < 2 + b[0] as int then 2 + b[0] as int
    else MinRecordSize + b[0] as int + b[1 + b[0] as int] as int
  }

  /** The offset just past a length-prefixed string that starts at offset
      `p`: its length byte, then that many bytes. */
  function StringEnd(data: seq<Byte>, p: nat): nat
    requires p < |data|
  {
    p + 1 + data[p] as int
  }

  /** A whole version-1 record lies in `data` from offset `p`. */
  predicate RecordFits(data: seq<Byte>, p: nat)
  {
    && p < |data|
    && StringEnd(data, p) < |data|
    && StringEnd(data, StringEnd(data, p)) + 16 <= |data|
  }

  /** The text of the length-prefixed string that starts at offset `p`. */
  function TextAt(data: seq<Byte>, p: nat, lossy: Utf8Lossy): string
    requires p < |data| && StringEnd(data, p) <= |data|
  {
    lossy(data[p + 1..StringEnd(data, p)])
  }

  /** Timestamp, x, y and z: the little-endian values of the four 4-byte
      groups from offset `g`. */
  function SampleAt(data: seq<Byte>, g: nat): (F32, F32, F32, F32)
    requires g + 16 <= |data|
  {
    (LeU32(data[g..g + 4]), LeU32(data[g + 4..g + 8]), LeU32(data[g + 8..g + 12]), LeU32(data[g + 12..g + 16]))
  }

  /** The record that lies in `data` from offset `p`, every field read
      straight off its offset in the layout: the map name at `p`, the
      player name at `q`, the floats from `g`. */
  function RecordAt(data: seq<Byte>, p: nat, lossy: Utf8Lossy): RunLineV1
    requires RecordFits(data, p)
  {
    var q := StringEnd(data, p);
    var g := StringEnd(data, q);
    var sample := SampleAt(data, g);
    RunLineV1(TextAt(data, p, lossy), TextAt(data, q, lossy), sample.0, sample.1, sample.2, sample.3)
  }

  // ---------------------------------------------------------------------
  // The decoders.
  // ---------------------------------------------------------------------

  /** `k` successive `read_u8` calls, each one's failure ending the run.
      They end exactly as one read of `k` bytes does, and deliver the same
      bytes. */
  function ReadU8s(s: Reader, k: nat): (r: Read<seq<Byte>>)
    ensures SameOutcome(r, ReadExact(s, k))
    ensures r.Ok? ==> s.pos + k <= |s.data| && r.value == s.data[s.pos..s.pos + k]
    decreases k
  {
    if k == 0 then Ok([], s)
    else
      ReadExactSplit(s, 1, k - 1);
      match ReadU8(s)
      case Err(e, rest) => Err(e, rest)
      case Ok(b, s1) =>
        match ReadU8s(s1, k - 1)
        case Err(e, rest) => Err(e, rest)
        case Ok(bs, s2) =>
          ConsBytes(s.data, s.pos, k, b, bs);
          Ok([b] + bs, s2)
  }

  /** The byte at `p` in front of the `k - 1` bytes after it are the `k`
      bytes from `p`. */
  lemma ConsBytes(data: seq<Byte>, p: nat, k: nat, b: Byte, bs: seq<Byte>)
    requires 0 < k && p + k <= |data|
    requires b == data[p] && bs == data[p + 1..p + k]
    ensures [b] + bs == data[p..p + k]
  {
    var v := data[p..p + k];
    assert v == [v[0]] + v[1..];
  }

  /** `GhostHeader::read`: ten `read_u8` calls, the first result discarded.
      It ends exactly as a ten-byte read does, so it consumes exactly ten
      bytes and fails with `UnexpectedEof` exactly when fewer than ten remain
      and no fault comes first; the fields are the bytes at offsets 1, 2,
      3-5, 6-8 and 9. */
  function ReadHeader(s: Reader): (r: Read<GhostHeader>)
    ensures SameOutcome(r, ReadExact(s, HeaderSize))
    ensures r.Err? && r.error == UnexpectedEof <==> s.pos + HeaderSize > |s.data| && !HitsFault(s, HeaderSize)
    ensures r.Ok? ==>
              && r.value.version == s.data[s.pos + 1]
              && r.value.game == s.data[s.pos + 2]
              && r.value.trailColor == (s.data[s.pos + 3], s.data[s.pos + 4], s.data[s.pos + 5])
              && r.value.ghostColor == (s.data[s.pos + 6], s.data[s.pos + 7], s.data[s.pos + 8])
              && r.value.trailLength == s.data[s.pos + 9]
  {
    match ReadU8s(s, HeaderSize)
    case Err(e, rest) => Err(e, rest)
    case Ok(b, rest) =>
      Ok(GhostHeader(
           version := b[1],
           game := b[2],
           trailLength := b[9],
           trailColor := (b[3], b[4], b[5]),
           ghostColor := (b[6], b[7], b[8])),
         rest)
  }

  /** `read_length_prefixed_string`: a length byte `L`, then `L` bytes
      decoded lossily. It ends as a read of `1 + L` bytes does (of one byte
      when the input is empty), and the text is the lossy decoding of the `L`
      bytes after the length byte. */
  function ReadLengthPrefixedString(s: Reader, lossy: Utf8Lossy): (r: Read<string>)
    ensures SameOutcome(r, ReadExact(s, StringExtent(Remaining(s))))
    ensures r.Ok? ==>
              && s.pos < |s.data|
              && r.rest == Skip(s, 1 + s.data[s.pos] as int)
              && r.rest.pos == StringEnd(s.data, s.pos)
              && r.value == TextAt(s.data, s.pos, lossy)
  {
    ReadExactSplit(s, 1, StringExtent(Remaining(s)) - 1);
    match ReadU8(s)
    case Err(e, rest) => Err(e, rest)
    case Ok(len, s1) =>
      match ReadExact(s1, len as nat)
      case Err(e, rest) => Err(e, rest)
      case Ok(buf, s2) => Ok(lossy(buf), s2)
  }

  /** The four little-endian floats that close a version-1 record:
      timestamp, x, y and z, read one after another. They end as one 16-byte
      read does, and each is the little-endian value of its own four bytes. */
  function ReadSample(s: Reader): (r: Read<(F32, F32, F32, F32)>)
    ensures SameOutcome(r, ReadExact(s, 16))
    ensures r.Ok? ==> s.pos + 16 <= |s.data| && r.value == SampleAt(s.data, s.pos)
  {
    ReadExactSplit(s, 4, 12);
    match ReadF32Le(s)
    case Err(e, rest) => Err(e, rest)
    case Ok(timestamp, s1) =>
      ReadExactSplit(s1, 4, 8);
      match ReadF32Le(s1)
      case Err(e, rest) => Err(e, rest)
      case Ok(x, s2) =>
        ReadExactSplit(s2, 4, 4);
        match ReadF32Le(s2)
        case Err(e, rest) => Err(e, rest)
        case Ok(y, s3) =>
          match ReadF32Le(s3)
          case Err(e, rest) => Err(e, rest)
          case Ok(z, s4) => Ok((timestamp, x, y, z), s4)
  }

  /** `RunLineV1::read`: map, name, then timestamp, x, y, z. It ends as one
      read of the record's extent does: it consumes at least 18 bytes when it
      succeeds, and when the input ends anywhere inside the layout it fails
      with `UnexpectedEof` and yields no record. A decoded record is the one
      the layout places at the read position. */
  function ReadRunLineV1(s: Reader, lossy: Utf8Lossy): (r: Read<RunLineV1>)
    ensures SameOutcome(r, ReadExact(s, RecordExtent(Remaining(s))))
    ensures r.Ok? ==>
              && MinRecordSize <= RecordExtent(Remaining(s))
              && RecordFits(s.data, s.pos)
              && r.value == RecordAt(s.data, s.pos, lossy)
  {
    var b := Remaining(s);
    var e1 := StringExtent(b);
    ReadExactSplit(s, e1, RecordExtent(b) - e1);
    match ReadLengthPrefixedString(s, lossy)
    case Err(e, rest) => Err(e, rest)
    case Ok(mapName, s1) =>
      var e2 := StringExtent(Remaining(s1));
      assert e2 == StringExtent(b[e1..]);
      ReadExactSplit(s1, e2, RecordExtent(b) - e1 - e2);
      match ReadLengthPrefixedString(s1, lossy)
      case Err(e, rest) => Err(e, rest)
      case Ok(name, s2) =>
        assert RecordExtent(b) == e1 + e2 + 16;
        match ReadSample(s2)
        case Err(e, rest) => Err(e, rest)
        case Ok(sample, s3) =>
          PartsAt(s, lossy, Ok(mapName, s1), Ok(name, s2), Ok(sample, s3));
          Ok(RunLineV1(mapName, name, sample.0, sample.1, sample.2, sample.3), s3)
  }

  /** What one record read does to the reader, as the record loops see it:
      a success moves on at least 18 bytes and keeps the fault, which still
      lies ahead exactly when it did before; `UnexpectedEof` means no fault
      lay ahead; any other error means the fault was met, and the reader
      stops at it with the fault gone. */
  lemma ReadRunLineV1Step(s: Reader, lossy: Utf8Lossy)
    ensures ReadRunLineV1(s, lossy).Ok? ==>
              var s1 := ReadRunLineV1(s, lossy).rest;
              && s1.data == s.data && s1.fault == s.fault && s.pos + MinRecordSize <= s1.pos
              && (FaultAhead(s1) <==> FaultAhead(s))
    ensures ReadRunLineV1(s, lossy).Err? ==>
              (ReadRunLineV1(s, lossy).error == UnexpectedEof <==> !FaultAhead(s))
    ensures ReadRunLineV1(s, lossy).Err? && ReadRunLineV1(s, lossy).error == Other ==>
              ReadRunLineV1(s, lossy).rest == Stream(s.data, s.fault.value, None) && s.pos <= s.fault.value
  {
  }

  /** The three reads `RunLineV1::read` is made of, when all succeed, pick
      the fields the layout places at the read position. */
  lemma PartsAt(s: Reader, lossy: Utf8Lossy, m: Read<string>, nm: Read<string>, sample: Read<(F32, F32, F32, F32)>)
    requires m == ReadLengthPrefixedString(s, lossy) && m.Ok?
    requires nm == ReadLengthPrefixedString(m.rest, lossy) && nm.Ok?
    requires sample == ReadSample(nm.rest) && sample.Ok?
    ensures RecordFits(s.data, s.pos)
    ensures RecordAt(s.data, s.pos, lossy)
            == RunLineV1(m.value, nm.value, sample.value.0, sample.value.1, sample.value.2, sample.value.3)
  {
    assert m.rest.data == s.data && nm.rest.data == s.data;
  }
}
