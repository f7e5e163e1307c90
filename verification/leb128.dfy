/**
  LEB128 decoding and skipping, as done by `ReadLEB128Internal` and
  `SkipLEB128` in src/qemu_plugin/dwarf/dwarf_util.cc. Both follow section 7.6
  ("Variable Length Data") of the DWARF 5 standard: seven payload bits per
  byte, least significant group first, bit 0x80 set on every byte but the
  last, and (for signed values) bit 0x40 of the last byte as the sign. Both
  give up after ten bytes.

  The two loops are modelled as tail-recursive functions over the number of
  bytes already read. The source's `shift` variable is always seven times that
  number; it is kept as a 64-bit word so that the accumulation is stated in the
  same machine arithmetic as the source.
 */
module Leb128 {
  import opened Cursor
  import opened Bits

  /** The scan limit shared by both loops: a shift limit of 70 bits in the
      decoder (dwarf_util.cc:36) and a byte limit of 10 in the skipper
      (dwarf_util.cc:58-59), that is ten bytes of seven bits. */
  const MaxBytes: nat := 10
  const MaxShift: bv64 := 70

  /** The value of the decoder's `shift` once `i` bytes have been read:
      it starts at 0 and grows by 7 with every byte. */
  const Shifts: seq<bv64> := [0, 7, 14, 21, 28, 35, 42, 49, 56, 63, 70]

  function Shift(i: nat): (s: bv64)
    requires i <= MaxBytes
    ensures i < MaxBytes ==> s < 64
    ensures i == MaxBytes ==> s == MaxShift
  {
    Shifts[i]
  }

  /** Bit 0x80 set: more bytes of the same number follow. */
  predicate IsContinuation(b: Byte) {
    b & 0x80 != 0
  }

  /** The seven data bits of a byte, widened to 64 bits (`byte & 0x7f`). */
  function Payload(b: Byte): (p: bv64)
    ensures p < 0x80
  {
    (b & 0x7f) as bv64
  }

  /** Bit 0x40 of the last byte: the sign of a signed number. */
  predicate SignBit(b: Byte) {
    b & 0x40 != 0
  }

  // ---------------------------------------------------------------------
  // ReadLEB128Internal

  /** The accumulation step of dwarf_util.cc:42 for byte number `pos`: its
      payload, widened to 64 bits and shifted up by 7 * pos, is or-ed into the
      accumulator; at shift 63 the high payload bits fall off the word. */
  function OrPayload(acc: bv64, b: Byte, pos: nat): bv64
    requires pos < MaxBytes
  {
    acc | (Payload(b) << Shift(pos))
  }

  /** What the decoder returns once byte number `k` (the last, `b`) has been
      or-ed in (dwarf_util.cc:46-48): when the number is signed, the shift
      after `k` bytes is below 64 and bit 0x40 of `b` is set, the two's
      complement negation of the bit at that shift is or-ed in as well. */
  function Finish(isSigned: bool, acc: bv64, b: Byte, k: nat): bv64
    requires 1 <= k <= MaxBytes
  {
    var shift := Shift(k);
    if isSigned && shift < 64 && SignBit(b) then acc | -(1 << shift) else acc
  }

  /** The decoding loop after `pos` bytes have been read into `acc`. It goes
      on while bytes remain and the shift is below the limit
      (dwarf_util.cc:40); a byte with bit 0x80
      clear ends the loop, sign-extending when the number is signed, fewer
      than 64 bits have been read and bit 0x40 of that byte is set. */
  function ReadLoop(isSigned: bool, data: seq<Byte>, pos: nat, acc: bv64): (r: Result<bv64>)
    requires pos <= |data| && pos <= MaxBytes
    ensures r.Corrupt? ==> r.diag == UnterminatedLeb128
    ensures r.Ok? ==> pos < |data| - |r.rest| <= MaxBytes
    ensures r.Ok? ==> ConsumedExactly(data, r.rest, |data| - |r.rest|)
    decreases |data| - pos
  {
    if pos < |data| && Shift(pos) < MaxShift then
      var b := data[pos];
      var acc' := OrPayload(acc, b, pos);
      if !IsContinuation(b) then
        Ok(Finish(isSigned, acc', b, pos + 1), data[pos + 1..])
      else
        ReadLoop(isSigned, data, pos + 1, acc')
    else
      Corrupt(UnterminatedLeb128)
  }

  /** `ReadLEB128Internal(is_signed, &data)`. */
  function ReadLeb128Internal(isSigned: bool, data: seq<Byte>): (r: Result<bv64>)
    ensures r.Corrupt? ==> r.diag == UnterminatedLeb128
    ensures r.Ok? ==> 1 <= |data| - |r.rest| <= MaxBytes
    ensures r.Ok? ==> ConsumedExactly(data, r.rest, |data| - |r.rest|)
  {
    ReadLoop(isSigned, data, 0, 0)
  }

  // ---------------------------------------------------------------------
  // SkipLEB128

  /** The skipping loop at index `i`; `limit` is min(size, 10). */
  function SkipLoop(data: seq<Byte>, i: nat, limit: nat): (r: Result<()>)
    requires limit == Min(|data|, MaxBytes) && i <= limit
    ensures r.Corrupt? ==> r.diag == UnterminatedLeb128
    ensures r.Ok? ==> i < |data| - |r.rest| <= limit
    ensures r.Ok? ==> ConsumedExactly(data, r.rest, |data| - |r.rest|)
    decreases limit - i
  {
    if i < limit then
      if !IsContinuation(data[i]) then Ok((), data[i + 1..])
      else SkipLoop(data, i + 1, limit)
    else
      Corrupt(UnterminatedLeb128)
  }

  /** `SkipLEB128(&data)`. */
  function SkipLeb128(data: seq<Byte>): (r: Result<()>)
    ensures r.Corrupt? ==> r.diag == UnterminatedLeb128
    ensures r.Ok? ==> 1 <= |data| - |r.rest| <= MaxBytes
    ensures r.Ok? ==> ConsumedExactly(data, r.rest, |data| - |r.rest|)
  {
    SkipLoop(data, 0, Min(|data|, MaxBytes))
  }


  // ---------------------------------------------------------------------
  // Where a number ends

  /** The first `k` bytes of `data` are one complete number within the cap:
      every byte before the k-th continues and the k-th ends it. */
  ghost predicate TerminatesAt(data: seq<Byte>, k: nat) {
    && 1 <= k <= MaxBytes
    && k <= |data|
    && !IsContinuation(data[k - 1])
    && forall i :: 0 <= i < k - 1 ==> IsContinuation(data[i])
  }

  /** No byte among the first min(|data|, 10) ends a number: the input is
      empty, cut short, or ten continuation bytes long. */
  ghost predicate Unterminated(data: seq<Byte>) {
    forall i :: 0 <= i < |data| && i < MaxBytes ==> IsContinuation(data[i])
  }

  /** A number ends at one place at most. */
  lemma TerminationIsUnique(data: seq<Byte>, k: nat, k': nat)
    requires TerminatesAt(data, k) && TerminatesAt(data, k')
    ensures k == k'
  {
  }

  /** When byte `i` ends a number, some earliest byte does. */
  lemma {:induction false} FirstTerminator(data: seq<Byte>, i: nat)
    requires i < |data| && i < MaxBytes && !IsContinuation(data[i])
    ensures exists k: nat :: TerminatesAt(data, k) && k <= i + 1
    decreases i
  {
    if forall j :: 0 <= j < i ==> IsContinuation(data[j]) {
      assert TerminatesAt(data, i + 1);
    } else {
      var j :| 0 <= j < i && !IsContinuation(data[j]);
      FirstTerminator(data, j);
    }
  }

  /** Every input either holds a complete number within the cap or is
      unterminated, and never both. */
  lemma TerminatedOrNot(data: seq<Byte>)
    ensures Unterminated(data) <==> forall k :: !TerminatesAt(data, k)
  {
    if !Unterminated(data) {
      var i :| 0 <= i < |data| && i < MaxBytes && !IsContinuation(data[i]);
      FirstTerminator(data, i);
    }
  }

  // ---------------------------------------------------------------------
  // What the decoder computes

  /** The closed form of the decoder's accumulator: the payload of each of the
      first `k` bytes shifted up by seven times its index and or-ed together,
      in a 64-bit word, so that bits shifted past bit 63 are lost. */
  function Combined(data: seq<Byte>, k: nat): bv64
    requires k <= |data| && k <= MaxBytes
  {
    if k == 0 then 0 else OrPayload(Combined(data, k - 1), data[k - 1], k - 1)
  }

  /** One step of the closed form, with the index of the new byte named: an
      unfolding of `Combined` that the loop proofs call to bring it into
      scope, not a property of its own. */
  lemma CombinedStep(data: seq<Byte>, p: nat, k: nat)
    requires k <= |data| && k <= MaxBytes && k == p + 1
    ensures Combined(data, k) == OrPayload(Combined(data, p), data[p], p)
  {
  }

  /** An unterminated input makes the loop give up, whatever it has read. */
  lemma {:induction false} ReadLoopRejects(isSigned: bool, data: seq<Byte>, pos: nat, acc: bv64)
    requires pos <= |data| && pos <= MaxBytes && Unterminated(data)
    ensures ReadLoop(isSigned, data, pos, acc) == Corrupt(UnterminatedLeb128)
    decreases |data| - pos
  {
    if pos < |data| && pos < MaxBytes {
      assert IsContinuation(data[pos]);
      ReadLoopRejects(isSigned, data, pos + 1, OrPayload(acc, data[pos], pos));
    }
  }

  /** Started anywhere inside a number whose end is byte `k - 1`, with the
      closed form of the bytes before it, the loop stops right after byte
      `k - 1` with the finished closed form of all `k` bytes. */
  lemma {:induction false} ReadLoopDecodes(isSigned: bool, data: seq<Byte>, k: nat, pos: nat)
    requires TerminatesAt(data, k) && pos < k
    ensures ReadLoop(isSigned, data, pos, Combined(data, pos))
            == Ok(Finish(isSigned, Combined(data, k), data[k - 1], k), data[k..])
    decreases k - pos
  {
    CombinedStep(data, pos, pos + 1);
    if pos + 1 < k {
      assert IsContinuation(data[pos]);
      ReadLoopDecodes(isSigned, data, k, pos + 1);
    }
  }

  /** The decoder fails exactly on unterminated input (empty, cut short, or
      ten continuation bytes), with the unterminated-LEB128 diagnostic. */
  lemma ReadLeb128Rejects(isSigned: bool, data: seq<Byte>)
    ensures ReadLeb128Internal(isSigned, data) == Corrupt(UnterminatedLeb128)
            <==> Unterminated(data)
  {
    if Unterminated(data) {
      ReadLoopRejects(isSigned, data, 0, 0);
    } else {
      TerminatedOrNot(data);
      var k :| TerminatesAt(data, k);
      ReadLoopDecodes(isSigned, data, k, 0);
    }
  }

  /** On a number that ends at byte `k - 1` the decoder consumes exactly `k`
      bytes and returns the closed form of their payloads, finished with the
      sign extension. */
  lemma ReadLeb128Decodes(isSigned: bool, data: seq<Byte>, k: nat)
    requires TerminatesAt(data, k)
    ensures ReadLeb128Internal(isSigned, data)
            == Ok(Finish(isSigned, Combined(data, k), data[k - 1], k), data[k..])
  {
    ReadLoopDecodes(isSigned, data, k, 0);
  }

  /** The negation of the bit at `shift` is every bit from `shift` up, for the shift after each
      of the first nine bytes. */
  lemma NegatedBitAt(k: nat)
    ensures 1 <= k < MaxBytes ==> -(1 << Shift(k)) == AllOnes << Shift(k)
  {
  }

  /** Sign extension sets every bit from 7k up, and happens only for a signed
      number of at most nine bytes whose last byte has bit 0x40 set; a tenth
      byte leaves nothing to extend. */
  lemma FinishSignExtends(isSigned: bool, acc: bv64, b: Byte, k: nat)
    requires 1 <= k <= MaxBytes
    ensures Finish(isSigned, acc, b, k)
            == if isSigned && k < MaxBytes && SignBit(b) then acc | (AllOnes << Shift(k)) else acc
  {
    if k < MaxBytes {
      assert Shift(k) < 64;
      if isSigned && SignBit(b) {
        NegatedBitAt(k);
      }
    } else {
      assert Shift(k) == MaxShift;
    }
  }

  /** Of a tenth byte only the lowest payload bit is kept, as bit 63; the
      other six are shifted out of the word. */
  lemma TenthByteTruncated(data: seq<Byte>)
    requires MaxBytes <= |data|
    ensures Combined(data, MaxBytes)
            == Combined(data, MaxBytes - 1) | ((Payload(data[MaxBytes - 1]) & 1) << 63)
  {
    CombinedStep(data, MaxBytes - 1, MaxBytes);
    TopBitOnly(Payload(data[MaxBytes - 1]));
  }

  // ---------------------------------------------------------------------
  // SkipLEB128 against the same description

  lemma {:induction false} SkipLoopRejects(data: seq<Byte>, i: nat)
    requires i <= Min(|data|, MaxBytes) && Unterminated(data)
    ensures SkipLoop(data, i, Min(|data|, MaxBytes)) == Corrupt(UnterminatedLeb128)
    decreases Min(|data|, MaxBytes) - i
  {
    if i < Min(|data|, MaxBytes) {
      assert IsContinuation(data[i]);
      SkipLoopRejects(data, i + 1);
    }
  }

  lemma {:induction false} SkipLoopSkips(data: seq<Byte>, k: nat, i: nat)
    requires TerminatesAt(data, k) && i < k
    ensures SkipLoop(data, i, Min(|data|, MaxBytes)) == Ok((), data[k..])
    decreases k - i
  {
    if i + 1 < k {
      assert IsContinuation(data[i]);
      SkipLoopSkips(data, k, i + 1);
    }
  }

  /** The skipper fails exactly on unterminated input. */
  lemma SkipLeb128Rejects(data: seq<Byte>)
    ensures SkipLeb128(data) == Corrupt(UnterminatedLeb128) <==> Unterminated(data)
  {
    if Unterminated(data) {
      SkipLoopRejects(data, 0);
    } else {
      TerminatedOrNot(data);
      var k :| TerminatesAt(data, k);
      SkipLoopSkips(data, k, 0);
    }
  }

  /** On a number that ends at byte `k - 1` the skipper removes exactly `k`
      bytes. */
  lemma SkipLeb128Skips(data: seq<Byte>, k: nat)
    requires TerminatesAt(data, k)
    ensures SkipLeb128(data) == Ok((), data[k..])
  {
    SkipLoopSkips(data, k, 0);
  }

  /** The two independent scans agree: on every input the skipper fails
      exactly when the decoder does, and otherwise leaves the same rest. */
  lemma SkipAgreesWithRead(isSigned: bool, data: seq<Byte>)
    ensures SkipLeb128(data).Corrupt? <==> ReadLeb128Internal(isSigned, data).Corrupt?
    ensures SkipLeb128(data).Ok? ==> SkipLeb128(data).rest == ReadLeb128Internal(isSigned, data).rest
  {
    TerminatedOrNot(data);
    if Unterminated(data) {
      SkipLeb128Rejects(data);
      ReadLeb128Rejects(isSigned, data);
    } else {
      var k :| TerminatesAt(data, k);
      SkipLeb128Skips(data, k);
      ReadLeb128Decodes(isSigned, data, k);
    }
  }
}
