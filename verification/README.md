# DWARF cursor primitives of the QEMU plugin symbolizer, in Dafny

The QEMU plugin's symbolizer reads DWARF sections through a handful of small
decoding primitives. Most of them take a `std::string_view` cursor by pointer
and consume a prefix of it. `ReadLEB128Internal`, `SkipLEB128` and
`ReadUntilConsuming` log a diagnostic and exit on malformed input.
`ReadUntil` never fails. `ReadDebugStrEntry` takes the string section by
value and an offset, and fails when the offset is past the end or no NUL
follows it. `IsValidDwarfAddress` takes an address and an address size and
only answers yes or no. This project
models those primitives and proves what they compute:

- `ReadLEB128Internal` and `SkipLEB128`: unsigned and signed LEB128 numbers
  (section 7.6, "Variable Length Data", of the DWARF 5 standard), capped at ten
  bytes (module `Leb128`, worked inputs in `Leb128Examples`);
- `IsValidDwarfAddress`: the check that an address is neither zero nor the
  linker's all-ones tombstone of the unit's address width (module `DwarfUtil`);
- `ReadUntil` and `ReadUntilConsuming`: delimited reads (module `Util`);
- `ReadDebugStrEntry`: a lookup of a NUL-terminated string in the string
  section (module `DwarfUtil`).

A cursor is the `seq<bv8>` of bytes still unread. A primitive returns
`Ok(value, rest)` with the shortened cursor, or `Corrupt(diag)` where the source
exits, with `diag` naming the message it would have logged (module `Cursor`).
Values are `bv64`, so the 64-bit truncation and the two's-complement sign
extension of the source are the verifier's own arithmetic. The two decoding
loops are tail-recursive functions over the number of bytes read.

What a LEB128 number is, independently of either loop:

- `TerminatesAt(data, k)` says the first `k` bytes form one number within the
  ten-byte cap;
- `Unterminated(data)` says no byte among the first min(|data|, 10) ends one;
- `Combined(data, k)` is the 64-bit OR of `(b_i & 0x7f) << 7i` for `i < k`.

The lemmas tie both loops to these definitions. Through them, the lemmas also
tie the two loops to each other.

Sign extension tests the shift after the terminating byte's seven bits
have been added (src/qemu_plugin/dwarf/dwarf_util.cc:43-46), so the test is
7k < 64 for a number of k bytes. A nine-byte signed number is therefore
extended into bit 63 alone, and a ten-byte one is never extended.
`Leb128.FinishSignExtends` and the two nine- and ten-byte examples pin this
edge down.

## Model

| member | source | states |
|---|---|---|
| Leb128.ReadLoop | src/qemu_plugin/dwarf/dwarf_util.cc:40-54 | the decoding loop either fails with the unterminated-LEB128 diagnostic or consumes at least one and at most ten bytes in all |
| Leb128.ReadLeb128Internal | src/qemu_plugin/dwarf/dwarf_util.cc:33-55 | a successful decode removes between one and ten bytes from the front and leaves exactly the rest; the only failure is the unterminated-LEB128 diagnostic |
| Leb128.TerminationIsUnique | src/qemu_plugin/dwarf/dwarf_util.cc:44-45 | a number ends at one byte position at most |
| Leb128.TerminatedOrNot | src/qemu_plugin/dwarf/dwarf_util.cc:40-51 | every input either holds a complete number within ten bytes or is unterminated, never both |
| Leb128.ReadLoopRejects | src/qemu_plugin/dwarf/dwarf_util.cc:40-54 | on unterminated input the loop reaches the fatal path from any position, whatever it has accumulated |
| Leb128.ReadLoopDecodes | src/qemu_plugin/dwarf/dwarf_util.cc:40-50 | started inside a number with the OR of the payloads read so far, the loop stops right after the terminating byte with the OR of all payloads, sign-finished |
| Leb128.ReadLeb128Rejects | src/qemu_plugin/dwarf/dwarf_util.cc:40-54 | the decoder fails if and only if no byte among the first min(size, 10) has bit 0x80 clear (empty input, cut-short input, ten continuation bytes) |
| Leb128.ReadLeb128Decodes | src/qemu_plugin/dwarf/dwarf_util.cc:40-49 | on a number ending at byte k-1 the decoder removes exactly k bytes and returns the 64-bit OR of the payloads shifted by 7i, then sign-finished |
| Leb128.FinishSignExtends | src/qemu_plugin/dwarf/dwarf_util.cc:46-48 | sign extension sets every bit from 7k up, and happens only when signed, k is at most nine and the last byte has bit 0x40 set |
| Leb128.TenthByteTruncated | src/qemu_plugin/dwarf/dwarf_util.cc:42-43 | of a tenth byte only its lowest payload bit survives, as bit 63 |
| Leb128.SkipLoop | src/qemu_plugin/dwarf/dwarf_util.cc:60-68 | the skipping loop either fails with the unterminated-LEB128 diagnostic or removes more bytes than its index and at most min(size, 10) |
| Leb128.SkipLeb128 | src/qemu_plugin/dwarf/dwarf_util.cc:57-69 | a successful skip removes between one and ten bytes from the front and leaves exactly the rest; the only failure is the unterminated-LEB128 diagnostic |
| Leb128.SkipLoopRejects | src/qemu_plugin/dwarf/dwarf_util.cc:60-68 | on unterminated input the skipping loop fails from any index |
| Leb128.SkipLoopSkips | src/qemu_plugin/dwarf/dwarf_util.cc:60-64 | from any index inside a number ending at byte k-1 the skipping loop removes exactly k bytes |
| Leb128.SkipLeb128Rejects | src/qemu_plugin/dwarf/dwarf_util.cc:58-68 | the skipper fails if and only if the input is unterminated |
| Leb128.SkipLeb128Skips | src/qemu_plugin/dwarf/dwarf_util.cc:60-64 | on a number ending at byte k-1 the skipper removes exactly k bytes |
| Leb128.SkipAgreesWithRead | src/qemu_plugin/dwarf/dwarf_util.cc:40-68 | on every input the skipper fails exactly when the decoder does, signed or not, and otherwise leaves the same rest |
| Leb128Examples.DecodeOneByte | src/qemu_plugin/dwarf/dwarf_util.cc:40-49 | 0x05 decodes to 5 and leaves the following byte unread |
| Leb128Examples.DecodeTwoBytes | src/qemu_plugin/dwarf/dwarf_util.cc:42-43 | 0x80 0x01 decodes to 128 |
| Leb128Examples.DecodeMinusOne | src/qemu_plugin/dwarf/dwarf_util.cc:46-48 | 0x7f is -1 (all ones) when signed and 127 when unsigned |
| Leb128Examples.DecodeTenBytes | src/qemu_plugin/dwarf/dwarf_util.cc:42-48 | nine continuation bytes and 0x7f give bit 63 alone, signed or not: the high payload bits are truncated and a tenth byte is never sign-extended |
| Leb128Examples.DecodeNineBytesSigned | src/qemu_plugin/dwarf/dwarf_util.cc:46-48 | after nine bytes the shift is 63, still below 64, so a signed read with bit 0x40 set fills bit 63 |
| Leb128Examples.RejectExamples | src/qemu_plugin/dwarf/dwarf_util.cc:40-68 | the empty input and ten continuation bytes are fatal for both the decoder and the skipper |
| Leb128Examples.SkipTwoBytes | src/qemu_plugin/dwarf/dwarf_util.cc:60-64 | skipping 0x80 0x01 leaves exactly the byte after it |
| DwarfUtil.IsValidDwarfAddress | src/qemu_plugin/dwarf/dwarf_util.cc:23-31 | an address is valid if and only if it is nonzero and not the all-ones value of its own width (4 or 8 bytes) |
| DwarfUtil.ZeroIsInvalid | src/qemu_plugin/dwarf/dwarf_util.cc:24-25 | zero is invalid for every address size |
| DwarfUtil.TombstoneNeedsMatchingWidth | src/qemu_plugin/dwarf/dwarf_util.cc:26-30 | the 32-bit and 64-bit all-ones values are invalid only at their own width, and any nonzero address is valid for sizes other than 4 and 8 |
| Cursor.SkipBytes | src/qemu_plugin/dwarf/dwarf_util.cc:72 | skipping n bytes succeeds if and only if n is at most the size, and then removes exactly n bytes |
| Util.ReadNullTerminated | src/qemu_plugin/dwarf/dwarf_util.cc:73 | fails if and only if there is no NUL; otherwise the result, the NUL and the rest make up the input, with no NUL in the result |
| DwarfUtil.ReadDebugStrEntry | src/qemu_plugin/dwarf/dwarf_util.cc:71-74 | succeeds if and only if the offset is within the section and a NUL follows it; the result, a NUL and the rest then make up the section from the offset, with no NUL in the result; otherwise the diagnostic says which of the two failed |
| DwarfUtil.ReadDebugStrEntryIsFirstString | src/qemu_plugin/dwarf/dwarf_util.cc:71-74 | the entry is exactly the bytes from the offset up to the first NUL at or after it |
| Util.FindByte | src/qemu_plugin/dwarf/util.cc:40-43 | the length before the first occurrence of `c`: no `c` before it, and `c` at it unless it is the size |
| Util.ReadUntil | src/qemu_plugin/dwarf/util.cc:39-47 | never fails; the result followed by the new cursor is the old cursor; no `c` in the result; the new cursor is empty or starts with `c` |
| Util.ReadUntilUnique | src/qemu_plugin/dwarf/util.cc:39-47 | any split with no `c` in front and an empty or `c`-led back is the one `ReadUntil` returns |
| Util.ReadUntilAbsent | src/qemu_plugin/dwarf/util.cc:43-45 | without `c`, everything is returned and the cursor is left empty |
| Util.ReadUntilIdempotent | src/qemu_plugin/dwarf/util.cc:40-46 | a second read right after the first returns nothing and leaves the cursor unchanged |
| Util.ReadUntilConsuming | src/qemu_plugin/dwarf/util.cc:22-37 | fails if and only if `c` does not occur, with the NUL diagnostic for `c` = 0 and the other-terminator diagnostic otherwise; on success the result, `c` and the new cursor make up the old cursor, with no `c` in the result |
| Util.ReadUntilConsumingAgrees | src/qemu_plugin/dwarf/util.cc:23-36 | on success the result is what `ReadUntil` returns, and `ReadUntil` leaves exactly one more byte, the terminator |
| Util.ReadUntilConsumingFirst | src/qemu_plugin/dwarf/util.cc:22-36 | when the first `c` is at index n, the result is the n bytes before it and the new cursor is everything after it |
| Util.ReadUntilExample | src/qemu_plugin/dwarf/util.cc:39-47 | on "ab\0cd" with NUL, "ab" is returned and "\0cd" is left |
| Util.ReadUntilConsumingExample | src/qemu_plugin/dwarf/util.cc:22-37 | on "ab\0cd" with NUL, "ab" is returned and "cd" is left |
| Util.MissingTerminatorExample | src/qemu_plugin/dwarf/util.cc:25-33 | "ab" without a terminator is fatal, with the NUL diagnostic for NUL and the other one for ';' |

## Left out

- Logging and `exit(1)`: each fatal path is a `Corrupt` result whose tag names
  the message. The message text and the process exit are not modelled.
- Cursor.SkipBytes: the source's `SkipBytes` is defined in a header that is not
  part of this model. It is assumed to fail past the end of the section and
  otherwise to drop exactly `n` bytes.
- Util.ReadNullTerminated: the source's `ReadNullTerminated` is defined in a
  header that is not part of this model. It is assumed to be `ReadUntilConsuming`
  with the NUL terminator.
- `memchr` and the arithmetic on raw `char` addresses: these are replaced by `FindByte`, a search
  for the first index holding the byte.
- The signedness of C `char`: bytes are `bv8`. The masks 0x7f, 0x80 and 0x40
  select the same bits either way.
- The `size_t` width of the string-table offset: the offset is a `nat`, so an
  offset beyond the section is a failure and never wraps around.
- The typed wrappers around `ReadLEB128Internal` and the DIE, abbreviation and
  line-table walkers that use these primitives: they are outside this core.
- Leb128.ReadLeb128Decodes: no encode-then-decode round trip is stated, since
  the core holds no LEB128 encoder. The decoded value is instead pinned down by `Combined`, the OR of
  the shifted payloads, and by the sign-extension lemma.
