/** Fixed-width unsigned integers and their little- and big-endian byte layouts. */
module Bytes {

  type byte = x: int | 0 <= x < 0x100
  type u16 = x: int | 0 <= x < 0x1_0000
  type u32 = x: int | 0 <= x < 0x1_0000_0000
  type u64 = x: int | 0 <= x < 0x1_0000_0000_0000_0000

  const TWO_TO_THE_63 := 0x8000_0000_0000_0000
  const TWO_TO_THE_64 := 0x1_0000_0000_0000_0000

  function Max(a: int, b: int): int {
    if a < b then b else a
  }

  /** The least multiple of `a` that is at least `n`, for the two alignments the wire formats use.
      The source computes it with a bit mask. */
  function Align(n: nat, a: nat): (r: nat)
    requires a == 4 || a == 8
    ensures n <= r < n + a && r % a == 0
  {
    if n % a == 0 then n else n + a - n % a
  }

  function Zeros(n: nat): (z: seq<byte>)
    ensures |z| == n && forall i :: 0 <= i < n ==> z[i] == 0
  {
    seq(n, i => 0)
  }

  function PutLE16(v: u16): (b: seq<byte>)
    ensures |b| == 2
  {
    [v % 0x100, v / 0x100]
  }

  function GetLE16(b: seq<byte>): u16
    requires |b| >= 2
  {
    (b[0] as int) + (b[1] as int) * 0x100
  }

  function PutLE32(v: u32): (b: seq<byte>)
    ensures |b| == 4
  {
    PutLE16(v % 0x1_0000) + PutLE16(v / 0x1_0000)
  }

  function GetLE32(b: seq<byte>): u32
    requires |b| >= 4
  {
    GetLE16(b[..2]) as int + GetLE16(b[2..4]) as int * 0x1_0000
  }

  function PutBE16(v: u16): (b: seq<byte>)
    ensures |b| == 2
  {
    [v / 0x100, v % 0x100]
  }

  function GetBE16(b: seq<byte>): u16
    requires |b| >= 2
  {
    (b[0] as int) * 0x100 + b[1]
  }

  function PutBE32(v: u32): (b: seq<byte>)
    ensures |b| == 4
  {
    PutBE16(v / 0x1_0000) + PutBE16(v % 0x1_0000)
  }

  function GetBE32(b: seq<byte>): u32
    requires |b| >= 4
  {
    GetBE16(b[..2]) as int * 0x1_0000 + GetBE16(b[2..4])
  }

  function PutBE64(v: u64): (b: seq<byte>)
    ensures |b| == 8
  {
    PutBE32(v / 0x1_0000_0000) + PutBE32(v % 0x1_0000_0000)
  }

  function GetBE64(b: seq<byte>): u64
    requires |b| >= 8
  {
    GetBE32(b[..4]) as int * 0x1_0000_0000 + GetBE32(b[4..8])
  }

  /** Little endian: the byte at 0 counts ones. */
  lemma LittleEndian(v: u32)
    ensures var b := PutLE32(v);
            v == b[0] as int + 0x100 * b[1] as int + 0x1_0000 * b[2] as int + 0x100_0000 * b[3] as int
  {
    var lo, hi := PutLE16(v % 0x1_0000), PutLE16(v / 0x1_0000);
    assert PutLE32(v) == [lo[0], lo[1], hi[0], hi[1]];
  }

  /** Big endian: the last byte does. */
  lemma BigEndian(v: u32)
    ensures var b := PutBE32(v);
            v == b[3] as int + 0x100 * b[2] as int + 0x1_0000 * b[1] as int + 0x100_0000 * b[0] as int
  {
    var hi, lo := PutBE16(v / 0x1_0000), PutBE16(v % 0x1_0000);
    assert PutBE32(v) == [hi[0], hi[1], lo[0], lo[1]];
  }

  lemma LE16RoundTrip(v: u16)
    ensures GetLE16(PutLE16(v)) == v
  {}

  lemma LE32RoundTrip(v: u32)
    ensures GetLE32(PutLE32(v)) == v
  {
    var b := PutLE32(v);
    assert b[..2] == PutLE16(v % 0x1_0000) && b[2..4] == PutLE16(v / 0x1_0000);
  }

  lemma BE32RoundTrip(v: u32)
    ensures GetBE32(PutBE32(v)) == v
  {
    var b := PutBE32(v);
    assert b[..2] == PutBE16(v / 0x1_0000) && b[2..4] == PutBE16(v % 0x1_0000);
  }

  lemma BE64RoundTrip(v: u64)
    ensures GetBE64(PutBE64(v)) == v
  {
    var b := PutBE64(v);
    assert b[..4] == PutBE32(v / 0x1_0000_0000) && b[4..8] == PutBE32(v % 0x1_0000_0000);
    BE32RoundTrip(v / 0x1_0000_0000);
    BE32RoundTrip(v % 0x1_0000_0000);
  }
}
