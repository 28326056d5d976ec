/** The reading primitives the decoders are built from: `read_exact` of
    `std::io::Read` and the `read_u8` / `read_f32::<LittleEndian>` helpers of
    the `byteorder` crate, over a finite file behind a buffered reader.

    A stream is the file's bytes, the read position, and optionally the offset
    at which the underlying reader fails once with an error that is not an
    end of file (a device or permission fault, say). A read that needs the
    byte at that offset fails with that error, leaves the position at the
    offset and clears the fault; a read that runs past the end of the bytes
    consumes what is left and fails with `UnexpectedEof`. */
module Io {
  import opened Bytes

  datatype Option<+T> = None | Some(value: T)

  /** The two `std::io::ErrorKind`s the decoders tell apart. */
  datatype ErrorKind = UnexpectedEof | Other

  /** Outcome of a whole decoding run: a value, or the error that ended it. */
  datatype Result<+T> = Success(value: T) | Failure(error: ErrorKind)

  datatype Stream = Stream(data: seq<Byte>, pos: nat, fault: Option<nat>)

  /** A stream whose position lies within its bytes. */
  type Reader = s: Stream | s.pos <= |s.data| witness Stream([], 0, None)

  /** Outcome of one read: the value and the reader after it, or the error
      kind and the reader as the failed read left it. */
  datatype Read<+T> = Ok(value: T, rest: Reader) | Err(error: ErrorKind, rest: Reader)

  /** The reader moved `n` bytes on. */
  function Skip(s: Reader, n: nat): Reader
    requires s.pos + n <= |s.data|
  {
    s.(pos := s.pos + n)
  }

  /** The bytes not yet consumed. */
  function Remaining(s: Reader): seq<Byte>
  {
    s.data[s.pos..]
  }

  /** A slice of the remaining bytes is the slice of the file at the read
      position. */
  lemma RemainingSlice(s: Reader, i: nat, j: nat)
    requires i <= j && s.pos + j <= |s.data|
    ensures Remaining(s)[i..j] == s.data[s.pos + i..s.pos + j]
  {
  }

  /** Moving on `n` bytes drops the first `n` remaining bytes. */
  lemma RemainingSkip(s: Reader, n: nat)
    requires s.pos + n <= |s.data|
    ensures Remaining(Skip(s, n)) == Remaining(s)[n..]
  {
  }

  /** A read of `n` bytes from `s` reaches the fault before the end of file. */
  predicate HitsFault(s: Reader, n: nat)
  {
    && s.fault.Some?
    && s.pos <= s.fault.value < s.pos + n
    && s.fault.value <= |s.data|
  }

  /** The fault lies at or after the read position and no later than the
      end of the bytes, so that reading on until the end of the file is
      bound to meet it. */
  predicate FaultAhead(s: Reader)
  {
    s.fault.Some? && s.pos <= s.fault.value <= |s.data|
  }

  /** Two reads end alike: both succeed or both fail with the same error kind,
      and either way they leave the reader in the same state. */
  predicate SameOutcome<A, B>(r: Read<A>, q: Read<B>)
  {
    && (r.Ok? <==> q.Ok?)
    && (r.Err? ==> r.error == q.error)
    && r.rest == q.rest
  }

  /** `read_exact` of `n` bytes. A zero-length read never touches the reader. */
  function ReadExact(s: Reader, n: nat): (r: Read<seq<Byte>>)
    ensures r.Ok? <==> s.pos + n <= |s.data| && !HitsFault(s, n)
    ensures r.Ok? ==> r.value == s.data[s.pos..s.pos + n] && r.rest == Skip(s, n)
    ensures r.Err? ==> (r.error == Other <==> HitsFault(s, n))
    ensures r.Err? && r.error == Other ==> r.rest == Stream(s.data, s.fault.value, None)
    ensures r.Err? && r.error == UnexpectedEof ==> r.rest == s.(pos := |s.data|)
  {
    if HitsFault(s, n) then
      Err(Other, Stream(s.data, s.fault.value, None))
    else if |s.data| < s.pos + n then
      Err(UnexpectedEof, s.(pos := |s.data|))
    else
      Ok(s.data[s.pos..s.pos + n], Skip(s, n))
  }

  /** Reading `a` bytes and then `b` more ends exactly as one read of `a + b`
      bytes does, and on success yields the same bytes. */
  lemma ReadExactSplit(s: Reader, a: nat, b: nat)
    ensures ReadExact(s, a).Err? ==> SameOutcome(ReadExact(s, a), ReadExact(s, a + b))
    ensures ReadExact(s, a).Ok? ==>
              && SameOutcome(ReadExact(ReadExact(s, a).rest, b), ReadExact(s, a + b))
              && (ReadExact(s, a + b).Ok? ==>
                    ReadExact(s, a + b).value == ReadExact(s, a).value + ReadExact(ReadExact(s, a).rest, b).value)
  {
    if ReadExact(s, a).Ok? && ReadExact(s, a + b).Ok? {
      assert s.data[s.pos..s.pos + a + b] == s.data[s.pos..s.pos + a] + s.data[s.pos + a..s.pos + a + b];
    }
  }

  /** `read_u8`: one byte. */
  function ReadU8(s: Reader): (r: Read<Byte>)
    ensures SameOutcome(r, ReadExact(s, 1))
    ensures r.Ok? ==> r.value == s.data[s.pos]
  {
    match ReadExact(s, 1)
    case Err(e, rest) => Err(e, rest)
    case Ok(b, rest) => Ok(b[0], rest)
  }

  /** `read_f32::<LittleEndian>`: four bytes, kept as their little-endian bit
      pattern. */
  function ReadF32Le(s: Reader): (r: Read<U32>)
    ensures SameOutcome(r, ReadExact(s, 4))
    ensures r.Ok? ==> r.value == LeU32(s.data[s.pos..s.pos + 4])
  {
    match ReadExact(s, 4)
    case Err(e, rest) => Err(e, rest)
    case Ok(b, rest) => Ok(LeU32(b), rest)
  }
}
