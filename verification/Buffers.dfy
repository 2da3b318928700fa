/** Encoders write into a buffer at a moving offset; this is what such writes leave behind. */
module Buffers {
  import opened Bytes

  /** `buf` with `src` laid over it at `off`. */
  function Overlay(buf: seq<byte>, off: nat, src: seq<byte>): (r: seq<byte>)
    requires off + |src| <= |buf|
    ensures |r| == |buf|
  {
    buf[..off] + src + buf[off + |src|..]
  }

  /** Two adjacent writes are one longer write. */
  lemma OverlayJoin(buf: seq<byte>, off: nat, x: seq<byte>, y: seq<byte>)
    requires off + |x| + |y| <= |buf|
    ensures Overlay(Overlay(buf, off, x), off + |x|, y) == Overlay(buf, off, x + y)
  {}

  /** A write may leave out bytes that are already there. */
  lemma OverlayKeep(buf: seq<byte>, off: nat, x: seq<byte>, y: seq<byte>)
    requires off + |x| + |y| <= |buf| && buf[off + |x|..off + |x| + |y|] == y
    ensures Overlay(buf, off, x) == Overlay(buf, off, x + y)
  {
    var at := off + |x|;
    assert buf[at..] == buf[at..at + |y|] + buf[at + |y|..];
  }

  lemma OverlayNothing(buf: seq<byte>, off: nat)
    requires off <= |buf|
    ensures Overlay(buf, off, []) == buf
  {}

  lemma OverlayAll(buf: seq<byte>, src: seq<byte>)
    requires |src| == |buf|
    ensures Overlay(buf, 0, src) == src
  {}

  /** `copy` into a buffer; the fixed-width puts are copies of their layouts. */
  method Copy(dst: array<byte>, off: nat, src: seq<byte>)
    requires off + |src| <= dst.Length
    modifies dst
    ensures dst[..] == Overlay(old(dst[..]), off, src)
  {
    ghost var was := dst[..];
    for i := 0 to |src|
      invariant forall x :: 0 <= x < dst.Length ==>
                  dst[x] == if off <= x < off + i then src[x - off] else was[x]
    {
      dst[off + i] := src[i];
    }
  }
}
