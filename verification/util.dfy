/**
  Delimited reads from a byte cursor, as done by `ReadUntil` and
  `ReadUntilConsuming` in src/qemu_plugin/dwarf/util.cc. The source finds the
  delimiter with `memchr`; here that is a search for the first index holding
  it.
 */
module Util {
  import opened Cursor

  /** The index of the first `c` in `data`, or `|data|` when there is none:
      what `memchr` finds, as an offset from the start. */
  function FindByte(data: seq<Byte>, c: Byte): (n: nat)
    ensures n <= |data|
    ensures forall i :: 0 <= i < n ==> data[i] != c
    ensures n < |data| ==> data[n] == c
  {
    if |data| == 0 then 0
    else if data[0] == c then 0
    else 1 + FindByte(data[1..], c)
  }

  /** `ReadUntil(&data, c)`: everything before the first `c`, which stays in
      the cursor; all of `data` when there is no `c`. It never fails. */
  function ReadUntil(data: seq<Byte>, c: Byte): (r: Result<seq<Byte>>)
    ensures r.Ok?
    ensures r.value + r.rest == data
    ensures c !in r.value
    ensures r.rest == [] || r.rest[0] == c
  {
    var n := FindByte(data, c);
    Ok(data[..n], data[n..])
  }

  /** The diagnostic `ReadUntilConsuming` stops with when `c` is missing: the
      NUL terminator of a string gets a message of its own. */
  function MissingTerminator(c: Byte): Diagnostic {
    if c == 0 then NotNullTerminated else TerminatorNotFound(c)
  }

  /** `ReadUntilConsuming(&data, c)`: everything before the first `c`, and
      the `c` itself is consumed too; a fatal error when there is no `c`. */
  function ReadUntilConsuming(data: seq<Byte>, c: Byte): (r: Result<seq<Byte>>)
    ensures r.Corrupt? <==> c !in data
    ensures r.Corrupt? ==> r.diag == MissingTerminator(c)
    ensures r.Ok? ==> r.value + [c] + r.rest == data && c !in r.value
  {
    var u := ReadUntil(data, c);
    if u.rest == [] || u.rest[0] != c then
      assert u.value == data;
      Corrupt(MissingTerminator(c))
    else
      assert u.rest == [c] + u.rest[1..];
      assert data == u.value + [c] + u.rest[1..];
      Ok(u.value, u.rest[1..])
  }

  /** `ReadNullTerminated(&data)`, whose definition is not part of this
      model: assumed to be `ReadUntilConsuming` with the NUL byte. */
  function ReadNullTerminated(data: seq<Byte>): (r: Result<seq<Byte>>)
    ensures r.Corrupt? <==> 0 !in data
    ensures r.Ok? ==> r.value + [0] + r.rest == data && 0 !in r.value
  {
    ReadUntilConsuming(data, 0)
  }

  // ---------------------------------------------------------------------
  // Properties

  /** What `ReadUntil` returns is the only split of `data` with no `c` in the
      front part and the back part empty or starting with `c`. */
  lemma ReadUntilUnique(data: seq<Byte>, c: Byte, front: seq<Byte>, back: seq<Byte>)
    requires front + back == data && c !in front && (back == [] || back[0] == c)
    ensures ReadUntil(data, c) == Ok(front, back)
  {
    var r := ReadUntil(data, c);
    assert r.value == data[..|r.value|];
    assert front == data[..|front|];
  }

  /** Without a `c` in `data`, everything is read and the cursor is left
      empty. */
  lemma ReadUntilAbsent(data: seq<Byte>, c: Byte)
    requires c !in data
    ensures ReadUntil(data, c) == Ok(data, [])
  {
    ReadUntilUnique(data, c, data, []);
  }

  /** A second read right after the first returns nothing and leaves the
      cursor where it was, since the cursor is now empty or starts with `c`. */
  lemma ReadUntilIdempotent(data: seq<Byte>, c: Byte)
    ensures var rest := ReadUntil(data, c).rest;
            ReadUntil(rest, c) == Ok([], rest)
  {
    var rest := ReadUntil(data, c).rest;
    ReadUntilUnique(rest, c, [], rest);
  }

  /** On success `ReadUntilConsuming` returns what `ReadUntil` would, and
      consumes exactly one byte more: the terminator. */
  lemma ReadUntilConsumingAgrees(data: seq<Byte>, c: Byte)
    requires ReadUntilConsuming(data, c).Ok?
    ensures var r := ReadUntilConsuming(data, c);
            ReadUntil(data, c) == Ok(r.value, [c] + r.rest)
  {
    var r := ReadUntilConsuming(data, c);
    ReadUntilUnique(data, c, r.value, [c] + r.rest);
  }

  /** When the first `c` sits at index `n`, `ReadUntilConsuming` returns the
      `n` bytes before it and leaves everything after it. */
  lemma ReadUntilConsumingFirst(data: seq<Byte>, c: Byte, n: nat)
    requires n < |data| && data[n] == c && c !in data[..n]
    ensures ReadUntilConsuming(data, c) == Ok(data[..n], data[n + 1..])
  {
    assert data == data[..n] + data[n..];
    ReadUntilUnique(data, c, data[..n], data[n..]);
  }

  /** On "ab\0cd" (bytes 0x61 0x62 0x00 0x63 0x64) with the NUL terminator,
      `ReadUntil` stops in front of the NUL ... */
  lemma ReadUntilExample()
    ensures ReadUntil([0x61, 0x62, 0, 0x63, 0x64], 0) == Ok([0x61, 0x62], [0, 0x63, 0x64])
  {
    var data: seq<Byte> := [0x61, 0x62, 0, 0x63, 0x64];
    assert data == [0x61, 0x62] + [0, 0x63, 0x64];
    ReadUntilUnique(data, 0, [0x61, 0x62], [0, 0x63, 0x64]);
  }

  /** ... and `ReadUntilConsuming` removes the NUL as well. */
  lemma ReadUntilConsumingExample()
    ensures ReadUntilConsuming([0x61, 0x62, 0, 0x63, 0x64], 0) == Ok([0x61, 0x62], [0x63, 0x64])
  {
    var data: seq<Byte> := [0x61, 0x62, 0, 0x63, 0x64];
    ReadUntilExample();
    ReadUntilConsumingAgrees(data, 0);
  }

  /** Without its terminator, "ab" is fatal, with the message that fits the
      terminator. */
  lemma MissingTerminatorExample()
    ensures ReadUntilConsuming([0x61, 0x62], 0) == Corrupt(NotNullTerminated)
    ensures ReadUntilConsuming([0x61, 0x62], 0x3b) == Corrupt(TerminatorNotFound(0x3b))
  {
  }
}
