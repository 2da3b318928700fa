/** The SMB2 packet header fields that chaining depends on. */
module Packets {
  import opened Bytes

  predicate HasMagic(p: seq<byte>, first: byte) {
    |p| >= 4 && p[0] == first && p[1] == 0x53 && p[2] == 0x4D && p[3] == 0x42
  }

  predicate IsSmb1(p: seq<byte>) {
    HasMagic(p, 0xFF)
  }

  function Flags(p: seq<byte>): u32
    requires |p| >= 24
  {
    GetLE32(p[16..20])
  }

  function NextCommand(p: seq<byte>): u32
    requires |p| >= 24
  {
    GetLE32(p[20..24])
  }

  /** An SMB1 packet passes when it is a negotiate, whatever its length; an SMB2 packet needs a
      whole header and a next-command offset that is a multiple of eight inside the packet. */
  predicate IsInvalid(p: seq<byte>) {
    || |p| < 4
    || (if IsSmb1(p) then |p| < 5 || p[4] != 0x72
        else
          || |p| < 64
          || !HasMagic(p, 0xFE)
          || GetLE16(p[4..6]) != 64
          || NextCommand(p) % 8 != 0
          || NextCommand(p) >= |p|)
  }

  predicate IsRelated(p: seq<byte>)
    requires |p| >= 24
  {
    Flags(p) / 4 % 2 == 1
  }

  predicate IsCompoundFirst(p: seq<byte>)
    requires |p| >= 24
  {
    !IsRelated(p) && NextCommand(p) != 0
  }

  predicate IsCompoundLast(p: seq<byte>)
    requires |p| >= 24
  {
    IsRelated(p) && NextCommand(p) == 0
  }
}
