/**
 UTF-16LE strings (sections 2.1 and 2.2 of RFC 2781): code units, their byte layout, and the
 decoder, which drops one trailing NUL unit and reads a lone surrogate as U+FFFD.
 */
module Utf16 {
  import opened Bytes
  import opened Buffers

  /** A Unicode scalar value; a Go string ranges over these. */
  type Scalar = x: int | 0 <= x < 0xD800 || 0xE000 <= x <= 0x10FFFF
  type Text = seq<Scalar>

  const REPLACEMENT: Scalar := 0xFFFD

  function UnitsOf(c: Scalar): (u: seq<u16>)
    ensures |u| == if c >= 0x1_0000 then 2 else 1
  {
    if c >= 0x1_0000 then [0xD800 + (c - 0x1_0000) / 0x400, 0xDC00 + (c - 0x1_0000) % 0x400] else [c]
  }

  /** The code units of a string. */
  function Encode(s: Text): seq<u16> {
    if s == [] then [] else UnitsOf(s[0]) + Encode(s[1..])
  }

  predicate IsHigh(w: u16) { 0xD800 <= w < 0xDC00 }
  predicate IsLow(w: u16) { 0xDC00 <= w < 0xE000 }

  /** A scalar beyond the first plane is a high surrogate and then a low one; any other is its own
      unit, and no surrogate. */
  lemma UnitsMean(c: Scalar)
    ensures c >= 0x1_0000 ==>
              && IsHigh(UnitsOf(c)[0]) && IsLow(UnitsOf(c)[1])
              && c == 0x1_0000 + (UnitsOf(c)[0] as int - 0xD800) * 0x400 + (UnitsOf(c)[1] as int - 0xDC00)
    ensures c < 0x1_0000 ==> UnitsOf(c) == [c] && !IsHigh(c) && !IsLow(c)
  {}

  /** Pairs become one scalar; a surrogate outside a pair becomes the replacement. */
  function Decode(ws: seq<u16>): Text {
    if ws == [] then []
    else if IsHigh(ws[0]) && |ws| > 1 && IsLow(ws[1]) then
      [0x1_0000 + (ws[0] as int - 0xD800) * 0x400 + (ws[1] as int - 0xDC00)] + Decode(ws[2..])
    else if IsHigh(ws[0]) || IsLow(ws[0]) then [REPLACEMENT] + Decode(ws[1..])
    else [ws[0]] + Decode(ws[1..])
  }

  function ToBytes(ws: seq<u16>): (b: seq<byte>)
    ensures |b| == 2 * |ws|
  {
    if ws == [] then [] else PutLE16(ws[0]) + ToBytes(ws[1..])
  }

  /** Whole units only: an odd last byte is ignored. */
  function FromBytes(b: seq<byte>): (ws: seq<u16>)
    ensures |ws| == |b| / 2
  {
    if |b| < 2 then [] else [GetLE16(b)] + FromBytes(b[2..])
  }

  function DropNul(ws: seq<u16>): seq<u16> {
    if ws != [] && ws[|ws| - 1] == 0 then ws[..|ws| - 1] else ws
  }

  function EncodeBytes(s: Text): seq<byte> {
    ToBytes(Encode(s))
  }

  function DecodeBytes(b: seq<byte>): Text {
    Decode(DropNul(FromBytes(b)))
  }

  /** The byte count computed ahead of encoding is the encoder's. */
  method EncodedStringLen(s: Text) returns (l: nat)
    ensures l == |EncodeBytes(s)|
  {
    l := 0;
    assert s[0..] == s;
    for i := 0 to |s|
      invariant l + 2 * |Encode(s[i..])| == 2 * |Encode(s)|
    {
      assert s[i..][1..] == s[i + 1..];
      if 0x1_0000 <= s[i] <= 0x10_FFFF {
        l := l + 4;
      } else {
        l := l + 2;
      }
    }
  }

  /** Writes the string at `off` and nothing else. */
  method EncodeString(dst: array<byte>, off: nat, src: Text) returns (n: nat)
    requires off + |EncodeBytes(src)| <= dst.Length
    modifies dst
    ensures n == |EncodeBytes(src)|
    ensures dst[..] == Overlay(old(dst[..]), off, EncodeBytes(src))
  {
    hide Overlay;
    var ws := Encode(src);
    OverlayNothing(dst[..], off);
    for i := 0 to |ws|
      invariant dst[..] == Overlay(old(dst[..]), off, ToBytes(ws)[..2 * i])
    {
      ToBytesAt(ws, i);
      assert ToBytes(ws)[..2 * i + 2] == ToBytes(ws)[..2 * i] + PutLE16(ws[i]);
      OverlayJoin(old(dst[..]), off, ToBytes(ws)[..2 * i], PutLE16(ws[i]));
      Copy(dst, off + 2 * i, PutLE16(ws[i]));
    }
    n := 2 * |ws|;
    assert ToBytes(ws)[..2 * |ws|] == ToBytes(ws);
  }

  lemma {:induction false} ToBytesAt(ws: seq<u16>, i: nat)
    requires i < |ws|
    ensures ToBytes(ws)[2 * i..2 * i + 2] == PutLE16(ws[i])
  {
    if i > 0 {
      ToBytesAt(ws[1..], i - 1);
      assert ToBytes(ws)[2 * i..2 * i + 2] == ToBytes(ws[1..])[2 * (i - 1)..2 * (i - 1) + 2];
    }
  }

  /** The decoder's loop over units, its trailing-NUL rule, and the unit decoder. */
  method DecodeToString(bs: seq<byte>) returns (s: Text)
    ensures s == DecodeBytes(bs)
  {
    hide FromBytes;
    hide GetLE16;
    hide Decode;
    if |bs| == 0 {
      NoUnits(bs);
      return [];
    }
    var ws: seq<u16> := [];
    for i := 0 to |bs| / 2
      invariant ws == FromBytes(bs)[..i]
    {
      UnitAt(bs, i);
      ws := ws + [GetLE16(bs[2 * i..2 * i + 2])];
    }
    assert FromBytes(bs) == ws;
    if |ws| > 0 && ws[|ws| - 1] == 0 {
      ws := ws[..|ws| - 1];
    }
    s := Decode(ws);
  }

  lemma NoUnits(bs: seq<byte>)
    requires |bs| == 0
    ensures DecodeBytes(bs) == []
  {}

  lemma {:induction false} UnitAt(bs: seq<byte>, i: nat)
    requires 2 * i + 2 <= |bs|
    ensures FromBytes(bs)[i] == GetLE16(bs[2 * i..2 * i + 2])
  {
    if i > 0 {
      UnitAt(bs[2..], i - 1);
      assert bs[2..][2 * (i - 1)..2 * (i - 1) + 2] == bs[2 * i..2 * i + 2];
    }
  }

  lemma {:induction false} BytesRoundTrip(ws: seq<u16>)
    ensures FromBytes(ToBytes(ws)) == ws
  {
    if ws != [] {
      BytesRoundTrip(ws[1..]);
      assert ToBytes(ws)[2..] == ToBytes(ws[1..]);
      assert GetLE16(ToBytes(ws)) == GetLE16(PutLE16(ws[0]));
    }
  }

  /** Decoding what follows an encoded scalar is not disturbed by it. */
  lemma DecodeScalar(c: Scalar, rest: seq<u16>)
    ensures Decode(UnitsOf(c) + rest) == [c] + Decode(rest)
  {
    var u := UnitsOf(c);
    if c >= 0x1_0000 {
      var ws := u + rest;
      assert ws[2..] == rest && ws[0] == u[0] && ws[1] == u[1];
      var v := c - 0x1_0000;
      assert v / 0x400 * 0x400 + v % 0x400 == v;
      assert IsHigh(ws[0]) && IsLow(ws[1]);
    } else {
      assert (u + rest)[1..] == rest;
    }
  }

  lemma {:induction false} UnitsRoundTrip(s: Text, rest: seq<u16>)
    ensures Decode(Encode(s) + rest) == s + Decode(rest)
  {
    hide UnitsOf;
    hide Decode;
    if s == [] {
      assert Encode(s) + rest == rest;
    } else {
      assert Encode(s) + rest == UnitsOf(s[0]) + (Encode(s[1..]) + rest);
      DecodeScalar(s[0], Encode(s[1..]) + rest);
      UnitsRoundTrip(s[1..], rest);
      assert s == [s[0]] + s[1..];
    }
  }

  lemma {:induction false} EncodeConcat(s: Text, t: Text)
    ensures Encode(s + t) == Encode(s) + Encode(t)
  {
    if s == [] {
      assert s + t == t;
    } else {
      assert (s + t)[1..] == s[1..] + t;
      EncodeConcat(s[1..], t);
    }
  }

  /** The last unit is NUL exactly when the last scalar is. */
  lemma EncodeLast(s: Text)
    requires s != []
    ensures Encode(s) != []
    ensures Encode(s)[|Encode(s)| - 1] == 0 <==> s[|s| - 1] == 0
    ensures s[|s| - 1] == 0 ==> Encode(s) == Encode(s[..|s| - 1]) + [0]
  {
    var init, last := s[..|s| - 1], s[|s| - 1];
    assert s == init + [last];
    EncodeConcat(init, [last]);
    assert Encode([last]) == UnitsOf(last) + Encode([]);
  }

  /** Decode inverts encode except that one trailing NUL is lost. */
  lemma RoundTrip(s: Text)
    ensures DecodeBytes(EncodeBytes(s)) == if s != [] && s[|s| - 1] == 0 then s[..|s| - 1] else s
  {
    BytesRoundTrip(Encode(s));
    var kept := if s != [] && s[|s| - 1] == 0 then s[..|s| - 1] else s;
    if s != [] {
      EncodeLast(s);
    }
    assert DropNul(Encode(s)) == Encode(kept);
    UnitsRoundTrip(kept, []);
    assert Encode(kept) + [] == Encode(kept);
    assert kept + [] == kept;
  }

  /** So it inverts encode exactly on strings that do not end in NUL. */
  lemma RoundTripIff(s: Text)
    ensures DecodeBytes(EncodeBytes(s)) == s <==> s == [] || s[|s| - 1] != 0
  {
    RoundTrip(s);
  }
}
