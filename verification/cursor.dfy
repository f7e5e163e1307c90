/**
  The byte cursor shared by every decoding primitive. The source passes a
  `std::string_view*` that each primitive shortens from the front; here a
  cursor is the sequence of bytes still unread, and a primitive returns the
  shortened sequence instead of mutating its argument. Where the source logs a
  "corrupt DWARF data" line and calls `exit(1)`, the model returns `Corrupt`
  carrying a tag for the diagnostic that would have been printed.
 */
module Cursor {

  /** One byte of a DWARF section. The source reads `char`, but only ever
      applies the masks 0x7f, 0x80 and 0x40, which select the same bits
      whether `char` is signed or not. */
  type Byte = bv8

  /** Which fatal diagnostic a primitive stopped with. */
  datatype Diagnostic =
    | UnterminatedLeb128           // no byte ended a LEB128 number in time
    | NotNullTerminated            // a string lacks its NUL terminator
    | TerminatorNotFound(c: Byte)  // any other terminator `c` is missing
    | OffsetOutOfRange             // a skip past the end of the section

  /** Either a decoded value together with the unread rest of the cursor, or
      the fatal corrupt-data outcome. */
  datatype Result<T> = Ok(value: T, rest: seq<Byte>) | Corrupt(diag: Diagnostic)

  function Min(a: nat, b: nat): nat {
    if a <= b then a else b
  }

  /** `rest` is what is left of `data` after consuming exactly `n` bytes from
      its front, the only way a cursor ever changes. */
  predicate ConsumedExactly(data: seq<Byte>, rest: seq<Byte>, n: nat) {
    n <= |data| && rest == data[n..]
  }

  /** Advances the cursor by `n` bytes. The definition of the source's
      `SkipBytes` is not part of this model; it is assumed to reject an
      offset beyond the end of the data. */
  function SkipBytes(n: nat, data: seq<Byte>): (r: Result<()>)
    ensures r.Ok? <==> n <= |data|
    ensures r.Ok? ==> ConsumedExactly(data, r.rest, n)
    ensures r.Corrupt? ==> r.diag == OffsetOutOfRange
  {
    if n <= |data| then Ok((), data[n..]) else Corrupt(OffsetOutOfRange)
  }
}
