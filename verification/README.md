# Ghost replay decoder, modelled in Dafny

This project models the decoder of the "ghost replay" file format in
`ghosting-rs`. A file is a 10-byte header and then version-1 records. Each
record holds a map name and a player name, each a length byte followed by that
many bytes of text, then four little-endian f32 fields: timestamp, x, y and z.
Three parts of the repository are modelled:

- **`ghosting` library.** The crate's decoders `GhostHeader::read`,
  `read_length_prefixed_string` and `RunLineV1::read`, in module `Ghosting`
  (`ghosting.dfy`).
- **`ghosting-rs` binary.** Its own copies of the same three decoders, and
  the record loop of its `main`, in module `GhostingRs` (`ghosting_rs.dfy`).
  That loop pushes a non-EOF error into the list and keeps reading.
- **`demview` viewer.** The header-then-records loop of its `main`, in module
  `Demview` (`demview.dfy`). That loop passes any non-EOF error on.

The reading primitives are in module `Io` (`io.dfy`): `read_exact`, and
`read_u8` / `read_f32::<LittleEndian>` from `byteorder`.

- **Input.** A reader is the file's bytes plus a read position.
- **Faults.** A reader may carry one pending fault: an offset at which the
  underlying reader fails once with an error other than end-of-file.
- **End of file.** A read that runs past the end consumes the rest and fails
  with `UnexpectedEof`.
- **Outcomes.** Every decoder returns `Ok(value, reader)` or
  `Err(kind, reader)`, mirroring Rust's `?`: the first failing read ends the
  decoder and passes its error on.

Other modules:

- **`Bytes`** (`bytes.dfy`): octets and the little-endian 32-bit value of
  four bytes. An f32 field is kept as its raw bit pattern.
- **`Layout`** (`layout.dfy`): the byte layout written out as encoders, and
  the round trips that tie each decoder to it. The repository itself has no
  writer; these functions only state what the decoders accept.

The main results:

- **Header.** It consumes exactly ten bytes and reads its fields from fixed
  offsets. The reserved byte never matters. It fails with `UnexpectedEof`
  exactly when fewer than ten bytes remain and no fault comes first.
- **Length-prefixed string.** It consumes `1 + L` bytes.
- **Record.** It consumes `1 + L1 + 1 + L2 + 16` bytes, at least 18. If the
  file ends anywhere inside the record, it yields no record.
- **Round trips.** Each read below stops right after its own bytes,
  whatever follows them.
  - Encoded headers decode back to themselves.
  - An encoded string decodes to the lossy text of its bytes.
  - An encoded record decodes to the lossy texts of its two strings and its
    four bit patterns.
- **Viewer loop.**
  - A header and whole records followed by a partial record decode to that
    header and exactly those records, in order, with lossily decoded map
    and player names.
  - It fails exactly when a fault lies ahead, or when the file is too short
    for a header.
  - It always terminates.
- **`ghosting-rs` loop.**
  - It pushes exactly one error entry when the one modelled fault lies
    ahead, and otherwise none.
  - It never pushes `UnexpectedEof`.
  - It agrees record for record with the viewer's loop whenever that one
    succeeds.
  - The imperative form of each `main` loop computes the recursive form.

## Model

| member | source | states |
|---|---|---|
| Io.ReadExact | ghosting/src/lib.rs:64 | `read_exact` of n bytes succeeds exactly when n bytes remain and the fault is not among them; it then yields those bytes and moves on n. It fails with `Other` exactly when it meets the fault, stopping at the fault with the fault cleared; otherwise it fails with `UnexpectedEof` having consumed the rest. |
| Io.ReadExactSplit | ghosting/src/lib.rs:62-64 | Reading a bytes and then b more ends as one read of a+b bytes does: same success, same error, same reader, and the concatenated bytes. |
| Io.ReadU8 | ghosting/src/lib.rs:62 | `read_u8` ends as a one-byte read does and yields the byte at the position. |
| Io.ReadF32Le | ghosting/src/lib.rs:76-79 | `read_f32::<LE>` ends as a four-byte read does and yields the little-endian value of those four bytes. |
| Bytes.LeU32OfLeBytes | ghosting/src/lib.rs:76-79 | The four little-endian bytes of a 32-bit value read back as that value. |
| Bytes.LeBytesOfLeU32 | ghosting/src/lib.rs:76-79 | Every four bytes are the encoding of their little-endian value, so distinct byte quadruples give distinct f32 bit patterns. |
| Ghosting.ReadU8s | ghosting/src/lib.rs:20-25 | k successive `read_u8` calls with `?` end exactly as one k-byte read does and deliver the same bytes. |
| Ghosting.ReadHeader | ghosting/src/lib.rs:15-34 | `GhostHeader::read` ends as a 10-byte read does. It fails with `UnexpectedEof` iff fewer than 10 bytes remain and no fault comes first. version, game, trail colour, ghost colour and trail length are the bytes at offsets 1, 2, 3-5, 6-8 and 9. |
| Ghosting.ReadLengthPrefixedString | ghosting/src/lib.rs:58-67 | The string read ends as a read of 1+L bytes does, or of one byte on empty input. On success it consumes exactly 1+L bytes and yields the lossy decoding of the L bytes after the length byte. |
| Ghosting.ReadSample | ghosting/src/lib.rs:76-79 | The four float reads end as one 16-byte read does; timestamp, x, y, z are the little-endian values of bytes 0-3, 4-7, 8-11, 12-15. |
| Ghosting.ReadRunLineV1 | ghosting/src/lib.rs:69-91 | `RunLineV1::read` ends as one read of the record's extent does: the extent is the whole record once both length bytes are present, and beyond the input otherwise. On success the extent is at least 18 and the record is the one the layout places at the position: map, name, timestamp, x, y, z. |
| Ghosting.PartsAt | ghosting/src/lib.rs:74-89 | When both strings and the four floats are read successfully, together they form the record found at the read position. |
| Ghosting.ReadRunLineV1Step | ghosting/src/lib.rs:74-79 | One record read either moves on at least 18 bytes, keeping whether a fault lies ahead, or fails. It fails with `UnexpectedEof` iff no fault lies ahead; with `Other` it stops at the fault, which is then gone. |
| Layout.ReadHeaderRoundTrip | ghosting/src/lib.rs:20-33 | The ten bytes of a header (any reserved byte first) followed by anything decode to that header, leaving exactly what follows. |
| Layout.ReadHeaderBytes | ghosting/src/lib.rs:20-33 | A decoded header is read from exactly the ten bytes that encode it behind the reserved byte. |
| Layout.ReadHeaderIgnoresReserved | ghosting/src/lib.rs:20 | Replacing byte 0 changes neither the outcome, the stopping position, the error, nor the decoded header. |
| Layout.ReadLengthPrefixedStringRoundTrip | ghosting/src/lib.rs:62-66 | A length byte and its L bytes followed by anything decode to the lossy text of those bytes, leaving exactly what follows. |
| Layout.ReadLengthPrefixedStringEmpty | ghosting/src/lib.rs:62-66 | With a decoder that maps only empty input to empty text, a decoded string is empty iff its length byte is 0. |
| Layout.LineBytesLayout | ghosting/src/lib.rs:74-79 | The encoded record puts the map's length byte and text first, then the name's, then the four 4-byte floats, in field order. |
| Layout.LineExtent | ghosting/src/lib.rs:74-79 | A record's bytes, whatever follows them, announce exactly their own length as the record's extent. |
| Layout.TruncatedLineIncomplete | ghosting/src/lib.rs:74-79 | Every strict prefix of a record's bytes announces an extent beyond itself. |
| Layout.ReadF32LeRoundTrip | ghosting/src/lib.rs:76 | The four bytes of a value followed by anything read back as that value and stop after them. |
| Layout.ReadSampleRoundTrip | ghosting/src/lib.rs:76-79 | Four encoded floats followed by anything decode to those values in order and stop after them. |
| Layout.ReadNamesRoundTrip | ghosting/src/lib.rs:74-75 | A record's two encoded strings followed by anything decode to their lossy texts, each read stopping right after its own bytes. |
| Layout.ReadRunLineV1RoundTrip | ghosting/src/lib.rs:69-90 | The bytes [L1] map [L2] name ts x y z followed by anything decode to the record with lossily decoded map and name and those four floats, leaving exactly what follows. |
| Layout.ReadRunLineV1Truncated | ghosting/src/lib.rs:74-79 | A file that ends anywhere inside a record yields no record: `UnexpectedEof`, having consumed the rest of the file. |
| Layout.ReadRunLineV1BlankMap | demview/src/main.rs:52 | With a decoder that maps only empty input to empty text, a record's map name is blank iff its first length byte is 0, which is what the viewer's blank-map test relies on. |
| Demview.ReadLines | demview/src/main.rs:22-32 | The record loop fails exactly when the fault lies ahead, then with `Other` and never `UnexpectedEof`. It ends on every input, and every record it returns accounts for at least 18 bytes. |
| Demview.DecodeAll | demview/src/main.rs:19-32 | A header failure ends the decode with that error before any record. The decode fails iff the fault lies ahead or fewer than 10 bytes remain, with `Other` exactly in the first case. On success the header is the one at the start. |
| Demview.Decode | demview/src/main.rs:19-32 | `main` up to the viewer, the header read with `?` and then the record loop with its error passed on, computes `DecodeAll`. |
| Demview.RecordLoop | demview/src/main.rs:22-32 | The imperative loop, which grows `lines` by one record per successful read, leaves on `UnexpectedEof` with the records so far and on any other error with that error, computes `ReadLines`. |
| Demview.ReadLinesPrefix | demview/src/main.rs:22-32 | Whole encoded records decode, in order, to their records with lossily decoded names, in front of whatever the bytes after them decode to. |
| Demview.ReadLinesRecord | demview/src/main.rs:24-31 | One whole record read pushes that record in front of the rest of the loop's result. |
| Demview.ReadLinesIncomplete | demview/src/main.rs:24-27 | Bytes that stop partway through a record, with no fault ahead, end the loop with no record and no error. |
| Demview.DecodeAllConcat | demview/src/main.rs:19-32 | Without a fault, header ++ r1 ++ ... ++ rn ++ a partial record decodes to that header and exactly r1 ... rn in order, each with lossily decoded map and name. |
| GhostingRs.ReadRgb | src/main.rs:23-24 | A colour triple read with three `read_u8` calls ends as a three-byte read does and yields those bytes in order. |
| GhostingRs.ReadColorsAndLength | src/main.rs:23-25 | The reads of the two colour triples and the trail length end as a seven-byte read does and yield those seven bytes in order. |
| GhostingRs.ReadHeader | src/main.rs:15-33 | The duplicated `GhostHeader::read` ends as a ten-byte read does and decodes exactly what the library copy decodes. |
| GhostingRs.ReadLengthPrefixedString | src/main.rs:56-62 | The duplicated string read equals the library copy and on success consumes exactly 1+L bytes. |
| GhostingRs.ReadRunLineV1 | src/main.rs:64-83 | The duplicated record read, floats read one by one, equals the library copy. |
| GhostingRs.ReadRunLineV1Extent | src/main.rs:69-74 | On success the duplicated record read stops at 1+L1+1+L2+16 bytes past the position and yields the record the layout places there. |
| GhostingRs.ReadRunLineV1Step | src/main.rs:99-107 | One record read as the loop sees it. A success keeps the fault and moves on at least 18 bytes. `UnexpectedEof` means no fault lies ahead. `Other` means the fault was met and is gone. Every step but the last leaves less to do. |
| GhostingRs.ReadLines | src/main.rs:98-108 | The loop's list holds exactly one error entry when the one modelled fault lies ahead and none otherwise. |
| GhostingRs.ReadLinesNoEof | src/main.rs:102-103 | `UnexpectedEof` is never pushed: it ends the loop instead. |
| GhostingRs.ReadLinesBound | src/main.rs:98-108 | Every record entry accounts for at least 18 consumed bytes. |
| GhostingRs.DecodeAll | src/main.rs:95-108 | The decode fails iff the header read fails, i.e. fewer than 10 bytes remain or the fault is among them, with the header's error. On success it yields that header and a list with one error entry iff the fault lies ahead. |
| GhostingRs.Decode | src/main.rs:95-108 | The imperative loop, which pushes one entry per read that does not end in `UnexpectedEof`, computes `DecodeAll`. |
| GhostingRs.LoopsAgree | src/main.rs:98-108 | The viewer's loop succeeds iff this loop pushes no error, and then this loop's entries are the viewer's records, in the same order. |
| GhostingRs.ReadLinesFault | src/main.rs:104-107 | A record read that meets the fault pushes one `Other` entry and the loop carries on from the fault's offset. |
| GhostingRs.ReadLinesIncomplete | src/main.rs:99-103 | Bytes that stop partway through a record, with no fault ahead, add no entries. |
| GhostingRs.DecodeAllConcat | src/main.rs:95-108 | Without a fault, header ++ r1 ++ ... ++ rn ++ a partial record decodes to that header and one success entry per record, in order. |

## Left out

- Command-line parsing (`clap`), `File::open`, `BufReader` and `anyhow`: the
  model starts from the file's bytes.
- Printing and logging (`println!`, `info!`, `env_logger`) have no effect on
  the decode.
- The viewer's window, camera, scaling and point drawing are rendering with
  float arithmetic.
- Indexing that can panic is left out: `lines[0]` in the viewer, `lines[1]`
  in `ghosting-rs`, and the viewer's `unwrap`s. The blank-map sentinel the
  viewer tests is covered by `Layout.ReadRunLineV1BlankMap`.
- `String::from_utf8_lossy` is a function the caller supplies. Where a
  property needs it, the only assumption made is that exactly the empty input
  decodes to the empty string.
- IEEE-754 is not interpreted. Each f32 is its 32-bit little-endian bit
  pattern, which is all the decoders produce.
- `RunLineV2` is declared as a record shape only. The code has no decoder for
  it, so none is modelled.
- No version dispatch is modelled: the code never inspects `version` or
  `game`.
- Only one kind of I/O error is modelled: a single transient fault. With a
  reader that failed at the same place forever, the `ghosting-rs` loop would
  push errors without end; that case is not modelled.
- Where a read stops after a non-EOF error is a modelling choice: the reader
  stops at the fault's offset, as a `BufReader` over a file does. The standard
  library leaves the bytes consumed by a failed `read_exact` unspecified.
  `GhostingRs.ReadLinesFault` and the entries the `ghosting-rs` loop pushes
  after an error rest on that choice.
- A non-EOF record error ends the viewer's decode; the `ghosting-rs` loop
  pushes it and reads on. Both are modelled as the code has them.
- The binary's duplicated struct declarations are not modelled separately.
  They are field for field the library's, so module `GhostingRs` reuses
  `Ghosting.GhostHeader` and `Ghosting.RunLineV1`.
- The Rust field `map` is called `mapName`, because `map` is a Dafny keyword.
- Layout.DecodedAll: its contract states only the length. Its per-record
  contents are what `Demview.DecodeAllConcat` and `Demview.ReadLinesPrefix`
  state.
