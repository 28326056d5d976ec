/** The byte layout the decoders of the `ghosting` crate read, written out
    as encoders, and the round trips that tie each decoder to its layout.
    The crate itself has no write path: these functions exist to state what
    the decoders accept. */
module Layout {
  import opened Bytes
  import opened Io
  import opened Ghosting

  /** The ten header bytes: the reserved byte, version, game, trail colour,
      ghost colour, trail length. */
  function HeaderBytes(reserved: Byte, h: GhostHeader): (b: seq<Byte>)
    ensures |b| == HeaderSize
  {
    [reserved, h.version, h.game,
     h.trailColor.0, h.trailColor.1, h.trailColor.2,
     h.ghostColor.0, h.ghostColor.1, h.ghostColor.2,
     h.trailLength]
  }

  /** A length byte and the bytes it counts. */
  function StringBytes(text: seq<Byte>): (b: seq<Byte>)
    requires |text| < 0x100
    ensures |b| == 1 + |text|
  {
    [|text| as Byte] + text
  }

  /** A version-1 record before decoding: the raw bytes of both strings and
      the bit patterns of the four floats. */
  datatype RawLine = RawLine(mapBytes: seq<Byte>, nameBytes: seq<Byte>, timestamp: F32, x: F32, y: F32, z: F32)
  {
    /** Both strings fit behind a one-byte length. */
    predicate Encodable()
    {
      |mapBytes| < 0x100 && |nameBytes| < 0x100
    }
  }

  /** The bytes of a version-1 record. */
  function LineBytes(raw: RawLine): (b: seq<Byte>)
    requires raw.Encodable()
    ensures |b| == MinRecordSize + |raw.mapBytes| + |raw.nameBytes|
  {
    StringBytes(raw.mapBytes) + StringBytes(raw.nameBytes)
      + LeBytes(raw.timestamp) + LeBytes(raw.x) + LeBytes(raw.y) + LeBytes(raw.z)
  }

  /** The record `RunLineV1::read` is meant to produce from `raw`. */
  function Decoded(raw: RawLine, lossy: Utf8Lossy): RunLineV1
  {
    RunLineV1(lossy(raw.mapBytes), lossy(raw.nameBytes), raw.timestamp, raw.x, raw.y, raw.z)
  }

  // ---------------------------------------------------------------------
  // Header.
  // ---------------------------------------------------------------------

  /** Ten header bytes followed by anything decode to their header, and the
      read stops right after them. */
  lemma ReadHeaderRoundTrip(s: Reader, reserved: Byte, h: GhostHeader, more: seq<Byte>)
    requires Remaining(s) == HeaderBytes(reserved, h) + more
    requires !HitsFault(s, HeaderSize)
    ensures ReadHeader(s) == Ok(h, Skip(s, HeaderSize))
    ensures Remaining(ReadHeader(s).rest) == more
  {
    var b := HeaderBytes(reserved, h);
    assert s.data[s.pos..s.pos + HeaderSize] == b by {
      RemainingSlice(s, 0, HeaderSize);
      assert Remaining(s)[..HeaderSize] == b;
    }
    assert ReadHeader(s).Ok?;
    forall i | 0 <= i < HeaderSize
      ensures s.data[s.pos + i] == b[i]
    {
      assert s.data[s.pos..s.pos + HeaderSize][i] == b[i];
    }
    assert b[1] == h.version && b[2] == h.game && b[9] == h.trailLength;
    assert (b[3], b[4], b[5]) == h.trailColor && (b[6], b[7], b[8]) == h.ghostColor;
    assert Remaining(Skip(s, HeaderSize)) == Remaining(s)[HeaderSize..];
  }

  /** Conversely, a decoded header is read from exactly the bytes that
      encode it, behind whatever reserved byte the file holds. */
  lemma ReadHeaderBytes(s: Reader)
    requires ReadHeader(s).Ok?
    ensures Remaining(s)[..HeaderSize] == HeaderBytes(s.data[s.pos], ReadHeader(s).value)
  {
    var h := ReadHeader(s).value;
    RemainingSlice(s, 0, HeaderSize);
    var v := s.data[s.pos..s.pos + HeaderSize];
    assert v[0] == s.data[s.pos] && v[1] == h.version && v[2] == h.game && v[9] == h.trailLength;
    assert (v[3], v[4], v[5]) == h.trailColor && (v[6], v[7], v[8]) == h.ghostColor;
    HeaderBytesOf(v, s.data[s.pos], h);
  }

  /** Ten bytes that hold the header's fields at their offsets are that
      header's bytes. */
  lemma HeaderBytesOf(v: seq<Byte>, reserved: Byte, h: GhostHeader)
    requires |v| == HeaderSize && v[0] == reserved
    requires v[1] == h.version && v[2] == h.game && v[9] == h.trailLength
    requires (v[3], v[4], v[5]) == h.trailColor && (v[6], v[7], v[8]) == h.ghostColor
    ensures v == HeaderBytes(reserved, h)
  {
  }

  /** The reserved byte is read and thrown away: replacing it changes
      neither the outcome, nor where the read stops, nor the header. */
  lemma ReadHeaderIgnoresReserved(s: Reader, b: Byte)
    requires s.pos < |s.data|
    ensures var t := s.(data := s.data[s.pos := b]);
            && (ReadHeader(s).Ok? <==> ReadHeader(t).Ok?)
            && ReadHeader(s).rest.pos == ReadHeader(t).rest.pos
            && (ReadHeader(s).Err? ==> ReadHeader(s).error == ReadHeader(t).error)
            && (ReadHeader(s).Ok? ==> ReadHeader(s).value == ReadHeader(t).value)
  {
    var t := s.(data := s.data[s.pos := b]);
    assert HitsFault(s, HeaderSize) == HitsFault(t, HeaderSize);
    if ReadHeader(s).Ok? {
      assert forall i | s.pos + 1 <= i < s.pos + HeaderSize :: t.data[i] == s.data[i];
    }
  }

  // ---------------------------------------------------------------------
  // Length-prefixed strings.
  // ---------------------------------------------------------------------

  /** A length byte and the bytes it counts, followed by anything, decode to
      the lossy text of those bytes, and the read stops right after them. */
  lemma ReadLengthPrefixedStringRoundTrip(s: Reader, lossy: Utf8Lossy, text: seq<Byte>, more: seq<Byte>)
    requires |text| < 0x100
    requires Remaining(s) == StringBytes(text) + more
    requires !HitsFault(s, 1 + |text|)
    ensures ReadLengthPrefixedString(s, lossy) == Ok(lossy(text), Skip(s, 1 + |text|))
    ensures Remaining(ReadLengthPrefixedString(s, lossy).rest) == more
  {
    var b := StringBytes(text);
    assert s.data[s.pos] == b[0];
    assert StringExtent(Remaining(s)) == |b|;
    RemainingSlice(s, 1, |b|);
    assert Remaining(s)[1..|b|] == text;
    assert Remaining(Skip(s, |b|)) == Remaining(s)[|b|..];
  }

  /** With a decoder that maps only no bytes to no text, a decoded string is
      empty exactly when its length byte is 0. A length byte of 0 is how a
      record leaves its map name blank. */
  lemma ReadLengthPrefixedStringEmpty(s: Reader, lossy: Utf8Lossy)
    requires EmptyOnlyForEmpty(lossy)
    requires ReadLengthPrefixedString(s, lossy).Ok?
    ensures ReadLengthPrefixedString(s, lossy).value == [] <==> s.data[s.pos] == 0
  {
    var l := s.data[s.pos] as int;
    var text := s.data[s.pos + 1..s.pos + 1 + l];
    assert |text| == l;
    if l != 0 {
      assert text != [];
    }
  }

  // ---------------------------------------------------------------------
  // Version-1 records.
  // ---------------------------------------------------------------------

  /** Where each field of `raw` sits in the bytes `b`: the map's length
      byte and text, the name's length byte and text from `1 + L1`, and the
      four floats from `2 + L1 + L2`. */
  predicate LaysOut(raw: RawLine, b: seq<Byte>)
  {
    var l1 := |raw.mapBytes|;
    var g := 2 + l1 + |raw.nameBytes|;
    && |b| == g + 16
    && b[0] as int == l1
    && b[1..1 + l1] == raw.mapBytes
    && b[1 + l1] as int == |raw.nameBytes|
    && b[2 + l1..g] == raw.nameBytes
    && b[g..g + 4] == LeBytes(raw.timestamp)
    && b[g + 4..g + 8] == LeBytes(raw.x)
    && b[g + 8..g + 12] == LeBytes(raw.y)
    && b[g + 12..g + 16] == LeBytes(raw.z)
  }

  /** The bytes of a record follow the layout. */
  lemma LineBytesLayout(raw: RawLine)
    requires raw.Encodable()
    ensures LaysOut(raw, LineBytes(raw))
  {
    var m := StringBytes(raw.mapBytes);
    var n := StringBytes(raw.nameBytes);
    var f := LeBytes(raw.timestamp) + LeBytes(raw.x) + LeBytes(raw.y) + LeBytes(raw.z);
    assert LineBytes(raw) == m + n + f;
    var g := |m| + |n|;
    assert (m + n + f)[g..g + 4] == f[0..4];
    assert (m + n + f)[g + 4..g + 8] == f[4..8];
    assert (m + n + f)[g + 8..g + 12] == f[8..12];
    assert (m + n + f)[g + 12..g + 16] == f[12..16];
  }

  /** A record's bytes, whatever follows them, announce exactly their own
      length as the extent of the record. */
  lemma LineExtent(raw: RawLine, more: seq<Byte>)
    requires raw.Encodable()
    ensures RecordExtent(LineBytes(raw) + more) == |LineBytes(raw)|
  {
    LineBytesLayout(raw);
    var b := LineBytes(raw);
    var l1 := |raw.mapBytes|;
    assert (b + more)[0] == b[0];
    assert (b + more)[1 + l1] == b[1 + l1];
  }

  /** Every strict prefix of a record's bytes announces an extent beyond
      itself: some field is still missing. */
  lemma TruncatedLineIncomplete(raw: RawLine, m: nat)
    requires raw.Encodable()
    requires m < |LineBytes(raw)|
    ensures m < RecordExtent(LineBytes(raw)[..m]) <= |LineBytes(raw)|
  {
    LineBytesLayout(raw);
    var b := LineBytes(raw);
    var l1 := |raw.mapBytes|;
    if m > 0 {
      assert b[..m][0] == b[0];
      if m >= 2 + l1 {
        assert b[..m][1 + l1] == b[1 + l1];
      }
    }
  }

  /** The four bytes of a value followed by anything read back as that
      value, and the read stops right after them. */
  lemma ReadF32LeRoundTrip(s: Reader, v: U32, more: seq<Byte>)
    requires Remaining(s) == LeBytes(v) + more
    requires !HitsFault(s, 4)
    ensures ReadF32Le(s) == Ok(v, Skip(s, 4))
    ensures Remaining(ReadF32Le(s).rest) == more
  {
    RemainingSlice(s, 0, 4);
    assert s.data[s.pos..s.pos + 4] == LeBytes(v);
    LeU32OfLeBytes(v);
    assert Remaining(Skip(s, 4)) == Remaining(s)[4..];
  }

  /** The bytes of four floats followed by anything decode to those four
      values, and the read stops right after them. */
  lemma ReadSampleRoundTrip(s: Reader, t: F32, x: F32, y: F32, z: F32, more: seq<Byte>)
    requires Remaining(s) == LeBytes(t) + LeBytes(x) + LeBytes(y) + LeBytes(z) + more
    requires !HitsFault(s, 16)
    ensures ReadSample(s) == Ok((t, x, y, z), Skip(s, 16))
    ensures Remaining(ReadSample(s).rest) == more
  {
    var tail := LeBytes(z) + more;
    assert Remaining(s) == LeBytes(t) + (LeBytes(x) + (LeBytes(y) + tail));
    ReadF32LeRoundTrip(s, t, LeBytes(x) + (LeBytes(y) + tail));
    var s1 := ReadF32Le(s).rest;
    ReadF32LeRoundTrip(s1, x, LeBytes(y) + tail);
    var s2 := ReadF32Le(s1).rest;
    ReadF32LeRoundTrip(s2, y, tail);
    var s3 := ReadF32Le(s2).rest;
    ReadF32LeRoundTrip(s3, z, more);
  }

  /** The bytes of a record followed by anything decode to the record with
      the lossy texts of its two strings and its four bit patterns, and the
      read stops right after them. */
  lemma ReadRunLineV1RoundTrip(s: Reader, lossy: Utf8Lossy, raw: RawLine, more: seq<Byte>)
    requires raw.Encodable()
    requires Remaining(s) == LineBytes(raw) + more
    requires !HitsFault(s, |LineBytes(raw)|)
    ensures ReadRunLineV1(s, lossy) == Ok(Decoded(raw, lossy), Skip(s, |LineBytes(raw)|))
    ensures Remaining(ReadRunLineV1(s, lossy).rest) == more
  {
    var fb := LeBytes(raw.timestamp) + LeBytes(raw.x) + LeBytes(raw.y) + LeBytes(raw.z);
    assert Remaining(s) == StringBytes(raw.mapBytes) + StringBytes(raw.nameBytes) + (fb + more);
    ReadNamesRoundTrip(s, lossy, raw, fb + more);
    var s1 := ReadLengthPrefixedString(s, lossy).rest;
    var s2 := ReadLengthPrefixedString(s1, lossy).rest;
    assert Remaining(s2) == LeBytes(raw.timestamp) + LeBytes(raw.x) + LeBytes(raw.y) + LeBytes(raw.z) + more;
    ReadSampleRoundTrip(s2, raw.timestamp, raw.x, raw.y, raw.z, more);
    assert Skip(s2, 16) == Skip(s, |LineBytes(raw)|);
  }

  /** The bytes of the two strings of a record followed by anything decode
      to their lossy texts, and the reads stop right after them. */
  lemma ReadNamesRoundTrip(s: Reader, lossy: Utf8Lossy, raw: RawLine, more: seq<Byte>)
    requires raw.Encodable()
    requires Remaining(s) == StringBytes(raw.mapBytes) + StringBytes(raw.nameBytes) + more
    requires !HitsFault(s, 2 + |raw.mapBytes| + |raw.nameBytes|)
    ensures ReadLengthPrefixedString(s, lossy) == Ok(lossy(raw.mapBytes), Skip(s, 1 + |raw.mapBytes|))
    ensures var s1 := ReadLengthPrefixedString(s, lossy).rest;
            && ReadLengthPrefixedString(s1, lossy) == Ok(lossy(raw.nameBytes), Skip(s1, 1 + |raw.nameBytes|))
            && Remaining(ReadLengthPrefixedString(s1, lossy).rest) == more
  {
    var nb := StringBytes(raw.nameBytes);
    assert Remaining(s) == StringBytes(raw.mapBytes) + (nb + more);
    ReadLengthPrefixedStringRoundTrip(s, lossy, raw.mapBytes, nb + more);
    var s1 := ReadLengthPrefixedString(s, lossy).rest;
    ReadLengthPrefixedStringRoundTrip(s1, lossy, raw.nameBytes, more);
  }

  /** When the file ends partway through a record, `RunLineV1::read` yields
      no record: it fails with `UnexpectedEof` having consumed the rest of
      the file. */
  lemma ReadRunLineV1Truncated(s: Reader, lossy: Utf8Lossy, raw: RawLine, m: nat)
    requires raw.Encodable()
    requires m < |LineBytes(raw)|
    requires Remaining(s) == LineBytes(raw)[..m]
    requires !HitsFault(s, |LineBytes(raw)|)
    ensures ReadRunLineV1(s, lossy) == Err(UnexpectedEof, s.(pos := |s.data|))
  {
    TruncatedLineIncomplete(raw, m);
  }

  /** With a decoder that maps only no bytes to no text, a decoded record's
      map name is blank exactly when its first length byte is 0: the blank
      map name is a sentinel a reader of the records can test for. */
  lemma ReadRunLineV1BlankMap(s: Reader, lossy: Utf8Lossy)
    requires EmptyOnlyForEmpty(lossy)
    requires ReadRunLineV1(s, lossy).Ok?
    ensures ReadRunLineV1(s, lossy).value.mapName == [] <==> s.data[s.pos] == 0
  {
    assert ReadRunLineV1(s, lossy).value.mapName == ReadLengthPrefixedString(s, lossy).value;
    ReadLengthPrefixedStringEmpty(s, lossy);
  }

  // ---------------------------------------------------------------------
  // Runs of records.
  // ---------------------------------------------------------------------

  /** Every record of the run fits the one-byte length prefixes. */
  predicate AllEncodable(raws: seq<RawLine>)
  {
    forall i :: 0 <= i < |raws| ==> raws[i].Encodable()
  }

  /** The bytes of a run of records, one after another. */
  function LinesBytes(raws: seq<RawLine>): (b: seq<Byte>)
    requires AllEncodable(raws)
    ensures |b| >= MinRecordSize * |raws|
  {
    if raws == [] then [] else LineBytes(raws[0]) + LinesBytes(raws[1..])
  }

  /** The records a run of raw records is meant to decode to, in order. */
  function DecodedAll(raws: seq<RawLine>, lossy: Utf8Lossy): (lines: seq<RunLineV1>)
    ensures |lines| == |raws|
  {
    if raws == [] then [] else [Decoded(raws[0], lossy)] + DecodedAll(raws[1..], lossy)
  }

  /** Bytes that end before the record they start is complete: a read of
      one more record from them runs out. */
  predicate Incomplete(b: seq<Byte>)
  {
    |b| < RecordExtent(b)
  }
}

