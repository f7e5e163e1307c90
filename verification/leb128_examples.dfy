/**
  Worked LEB128 inputs: the decoder and the skipper on a few byte strings,
  including the empty input, an input of ten continuation bytes and the
  longest input the decoder accepts.
 */
module Leb128Examples {
  import opened Cursor
  import opened Bits
  import opened Leb128

  /** A single byte below 0x80 is its own value. */
  lemma DecodeOneByte()
    ensures ReadLeb128Internal(false, [0x05, 0xaa]) == Ok(5, [0xaa])
  {
    ReadLeb128Decodes(false, [0x05, 0xaa], 1);
  }

  /** 0x80 0x01 is 1 shifted up by seven bits. */
  lemma DecodeTwoBytes()
    ensures ReadLeb128Internal(false, [0x80, 0x01]) == Ok(128, [])
  {
    ReadLeb128Decodes(false, [0x80, 0x01], 2);
  }

  /** 0x7f read as a signed number is -1: bit 0x40 is set, so every bit from
      7 up is filled in. Read as unsigned it is 127. */
  lemma DecodeMinusOne()
    ensures ReadLeb128Internal(true, [0x7f]) == Ok(AllOnes, [])
    ensures ReadLeb128Internal(false, [0x7f]) == Ok(0x7f, [])
  {
    ReadLeb128Decodes(true, [0x7f], 1);
    ReadLeb128Decodes(false, [0x7f], 1);
    FinishSignExtends(true, 0x7f, 0x7f, 1);
  }

  /** Nine continuation bytes and a tenth byte 0x7f: only the lowest payload
      bit of the tenth byte survives, as bit 63, and a signed read is not
      sign-extended although bit 0x40 of the last byte is set. */
  lemma DecodeTenBytes()
    ensures var data := [0x80, 0x80, 0x80, 0x80, 0x80, 0x80, 0x80, 0x80, 0x80, 0x7f];
            && ReadLeb128Internal(true, data) == Ok(0x8000_0000_0000_0000, [])
            && ReadLeb128Internal(false, data) == Ok(0x8000_0000_0000_0000, [])
  {
    var data: seq<Byte> := [0x80, 0x80, 0x80, 0x80, 0x80, 0x80, 0x80, 0x80, 0x80, 0x7f];
    assert TerminatesAt(data, 10);
    ReadLeb128Decodes(true, data, 10);
    ReadLeb128Decodes(false, data, 10);
  }

  /** Nine bytes end with a shift of 63, still below 64: a signed read whose
      last byte has bit 0x40 set is extended into bit 63 alone. */
  lemma DecodeNineBytesSigned()
    ensures var data := [0x80, 0x80, 0x80, 0x80, 0x80, 0x80, 0x80, 0x80, 0x40];
            && ReadLeb128Internal(true, data) == Ok(0xc000_0000_0000_0000, [])
            && ReadLeb128Internal(false, data) == Ok(0x4000_0000_0000_0000, [])
  {
    var data: seq<Byte> := [0x80, 0x80, 0x80, 0x80, 0x80, 0x80, 0x80, 0x80, 0x40];
    assert TerminatesAt(data, 9);
    ReadLeb128Decodes(true, data, 9);
    ReadLeb128Decodes(false, data, 9);
    FinishSignExtends(true, Combined(data, 9), 0x40, 9);
  }

  /** The empty input and ten continuation bytes are both unterminated, for
      the decoder and for the skipper alike. */
  lemma RejectExamples()
    ensures ReadLeb128Internal(false, []) == Corrupt(UnterminatedLeb128)
    ensures SkipLeb128([]) == Corrupt(UnterminatedLeb128)
    ensures var data := [0x80, 0x80, 0x80, 0x80, 0x80, 0x80, 0x80, 0x80, 0x80, 0x80, 0x01];
            && ReadLeb128Internal(true, data) == Corrupt(UnterminatedLeb128)
            && SkipLeb128(data) == Corrupt(UnterminatedLeb128)
  {
    var data: seq<Byte> := [0x80, 0x80, 0x80, 0x80, 0x80, 0x80, 0x80, 0x80, 0x80, 0x80, 0x01];
    assert Unterminated(data);
    ReadLeb128Rejects(true, data);
    SkipLeb128Rejects(data);
  }

  /** The skipper removes the two bytes of 0x80 0x01 and nothing after them. */
  lemma SkipTwoBytes()
    ensures SkipLeb128([0x80, 0x01, 0x05]) == Ok((), [0x05])
  {
    SkipLeb128Skips([0x80, 0x01, 0x05], 2);
  }
}
