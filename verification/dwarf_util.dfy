/**
  The address check and the string-table lookup of
  src/qemu_plugin/dwarf/dwarf_util.cc.
 */
module DwarfUtil {
  import opened Cursor
  import opened Util

  /** The largest unsigned number of `width` bytes: `width` bytes of 0xff. */
  function AllOnesOfWidth(width: nat): bv64
    requires width <= 8
  {
    if width == 0 then 0 else (AllOnesOfWidth(width - 1) << 8) | 0xff
  }

  /** A tombstone: the address a linker writes in place of a discarded one,
      the all-ones value of the unit's address width, for addresses of four
      and of eight bytes. */
  predicate IsTombstone(addr: bv64, addressSize: bv8) {
    (addressSize == 4 || addressSize == 8) && addr == AllOnesOfWidth(addressSize as nat)
  }

  /** `IsValidDwarfAddress(addr, address_size)` (dwarf_util.cc:23-31): zero
      is rejected first, then the 32-bit all-ones value at size four and the
      64-bit one at size eight. An address is valid exactly when it is neither
      zero nor the tombstone of its own width. */
  function IsValidDwarfAddress(addr: bv64, addressSize: bv8): (valid: bool)
    ensures valid <==> addr != 0 && !IsTombstone(addr, addressSize)
  {
    assert AllOnesOfWidth(4) == 0xffff_ffff;
    assert AllOnesOfWidth(8) == 0xffff_ffff_ffff_ffff;
    if addr == 0 then false
    else if addressSize == 4 && addr == 0xffff_ffff then false
    else if addressSize == 8 && addr == 0xffff_ffff_ffff_ffff then false
    else true
  }

  /** Zero is never a valid address, whatever the address size. */
  lemma ZeroIsInvalid(addressSize: bv8)
    ensures !IsValidDwarfAddress(0, addressSize)
  {
  }

  /** Only the tombstone of the unit's own width is rejected: the all-ones
      word of the other width is an ordinary address, and so is any nonzero
      address for sizes other than four and eight. */
  lemma TombstoneNeedsMatchingWidth(addr: bv64, addressSize: bv8)
    ensures addr != 0 && addressSize != 4 && addressSize != 8 ==> IsValidDwarfAddress(addr, addressSize)
    ensures IsValidDwarfAddress(AllOnesOfWidth(8), 4)
    ensures IsValidDwarfAddress(AllOnesOfWidth(4), 8)
    ensures !IsValidDwarfAddress(AllOnesOfWidth(4), 4)
    ensures !IsValidDwarfAddress(AllOnesOfWidth(8), 8)
  {
    assert AllOnesOfWidth(4) == 0xffff_ffff;
    assert AllOnesOfWidth(8) == 0xffff_ffff_ffff_ffff;
  }

  /** `ReadDebugStrEntry(section, ofs)`: the NUL-terminated string that
      starts `ofs` bytes into the string section, without its NUL. The
      section is taken by value, so what is left of it afterwards is of no
      use to the caller. */
  function ReadDebugStrEntry(section: seq<Byte>, ofs: nat): (r: Result<seq<Byte>>)
    ensures r.Ok? <==> ofs <= |section| && 0 in section[ofs..]
    ensures r.Ok? ==> ofs <= |section| && r.value + [0] + r.rest == section[ofs..] && 0 !in r.value
    ensures r.Corrupt? ==>
              r.diag == if ofs <= |section| then NotNullTerminated else OffsetOutOfRange
  {
    var s := SkipBytes(ofs, section);
    if s.Corrupt? then Corrupt(s.diag) else ReadNullTerminated(s.rest)
  }

  /** Past a valid offset the lookup is a consuming read up to NUL. */
  lemma ReadDebugStrEntryReadsFrom(section: seq<Byte>, ofs: nat)
    requires ofs <= |section|
    ensures ReadDebugStrEntry(section, ofs) == ReadUntilConsuming(section[ofs..], 0)
  {
  }

  /** The entry is the part of the section from `ofs` up to the first NUL at
      or after `ofs`. */
  lemma ReadDebugStrEntryIsFirstString(section: seq<Byte>, ofs: nat, n: nat)
    requires ofs + n < |section| && section[ofs + n] == 0
    requires 0 !in section[ofs..ofs + n]
    ensures ReadDebugStrEntry(section, ofs).Ok?
    ensures ReadDebugStrEntry(section, ofs).value == section[ofs..ofs + n]
  {
    var s := section[ofs..];
    assert s[..n] == section[ofs..ofs + n];
    ReadUntilConsumingFirst(s, 0, n);
    ReadDebugStrEntryReadsFrom(section, ofs);
  }
}
