/**
 Self-relative security descriptors: the encoder for SIDs, ACEs, ACLs and descriptors, and the
 walk over a descriptor's DACL that looks for a POSIX mode SID.
 */
module Descriptors {
  import opened Bytes
  import opened Wrappers
  import opened Buffers

  /** At most 255 sub-authorities, since their count is one byte. */
  datatype RawSid = Sid(authority: seq<byte>, subs: seq<u32>)
  type Sid = s: RawSid | |s.authority| == 6 && |s.subs| < 0x100 witness Sid([0, 0, 0, 0, 0, 0], [])

  datatype Ace = Ace(kind: byte, mask: u32, sid: Sid)
  type Acl = seq<Ace>

  datatype Descriptor = Descriptor(owner: Option<Sid>, group: Option<Sid>, sacl: Option<Acl>, dacl: Option<Acl>)

  // ----- Layout -----

  function Words(ws: seq<u32>): (b: seq<byte>)
    ensures |b| == 4 * |ws|
  {
    if ws == [] then [] else Words(ws[..|ws| - 1]) + PutLE32(ws[|ws| - 1])
  }

  function SidBytes(s: Sid): (b: seq<byte>)
    ensures |b| == 8 + 4 * |s.subs|
  {
    [1, |s.subs|] + s.authority + Words(s.subs)
  }

  function AceSize(a: Ace): u16 {
    16 + 4 * |a.sid.subs|
  }

  function AceBytes(a: Ace): (b: seq<byte>)
    ensures |b| == AceSize(a)
  {
    [a.kind, 0] + PutLE16(AceSize(a)) + PutLE32(a.mask) + SidBytes(a.sid)
  }

  function AcesBytes(acl: Acl): seq<byte> {
    if acl == [] then [] else AcesBytes(acl[..|acl| - 1]) + AceBytes(acl[|acl| - 1])
  }

  function AclSize(acl: Acl): nat {
    8 + |AcesBytes(acl)|
  }

  /** The header's size and count are two bytes each. */
  function AclHeader(acl: Acl): (b: seq<byte>)
    ensures |b| == 8
  {
    [2, 0] + PutLE16(AclSize(acl) % 0x1_0000) + PutLE16(|acl| % 0x1_0000) + [0, 0]
  }

  function AclBytes(acl: Acl): (b: seq<byte>)
    ensures |b| == AclSize(acl)
  {
    AclHeader(acl) + AcesBytes(acl)
  }

  // ----- Encoders -----

  method EncodeSid(s: Sid, b: array<byte>, off: nat)
    requires off + |SidBytes(s)| <= b.Length
    modifies b
    ensures b[..] == Overlay(old(b[..]), off, SidBytes(s))
  {
    hide Overlay;
    ghost var was := b[..];
    Copy(b, off, [1, |s.subs|]);
    OverlayJoin(was, off, [1, |s.subs|], s.authority);
    Copy(b, off + 2, s.authority);
    ghost var head := [1, |s.subs|] + s.authority;
    assert head + Words(s.subs[..0]) == head;
    for i := 0 to |s.subs|
      invariant b[..] == Overlay(was, off, head + Words(s.subs[..i]))
    {
      assert s.subs[..i + 1][..i] == s.subs[..i];
      WordsPrefix(s.subs, i);
      OverlayJoin(was, off, head + Words(s.subs[..i]), PutLE32(s.subs[i]));
      assert head + Words(s.subs[..i]) + PutLE32(s.subs[i]) == head + Words(s.subs[..i + 1]);
      Copy(b, off + 8 + i * 4, PutLE32(s.subs[i]));
    }
    assert s.subs[..|s.subs|] == s.subs;
  }

  lemma {:induction false} WordsPrefix(ws: seq<u32>, i: nat)
    requires i < |ws|
    ensures |Words(ws[..i])| + 4 <= |Words(ws)|
  {}

  method EncodeAce(a: Ace, b: array<byte>, off: nat)
    requires off + |AceBytes(a)| <= b.Length
    modifies b
    ensures b[..] == Overlay(old(b[..]), off, AceBytes(a))
  {
    hide Overlay;
    hide SidBytes;
    ghost var was := b[..];
    ghost var h1, h2, h3 := [a.kind, 0], PutLE16(AceSize(a)), PutLE32(a.mask);
    Copy(b, off, [a.kind, 0]);
    OverlayJoin(was, off, h1, h2);
    Copy(b, off + 2, PutLE16(AceSize(a)));
    OverlayJoin(was, off, h1 + h2, h3);
    Copy(b, off + 4, PutLE32(a.mask));
    OverlayJoin(was, off, h1 + h2 + h3, SidBytes(a.sid));
    EncodeSid(a.sid, b, off + 8);
  }

  lemma UnwrittenZeros(b: seq<byte>, off: nat)
    requires off + 8 <= |b| && b[off..off + 8] == Zeros(8)
    ensures b[off + 1..off + 2] == [0] && b[off + 6..off + 8] == [0, 0]
  {
    var z := b[off..off + 8];
    assert b[off + 1] == z[1] && b[off + 6] == z[6] && b[off + 7] == z[7];
  }

  /** Three header bytes are not written; the space is zeroed. */
  method EncodeAclHeader(acl: Acl, b: array<byte>, off: nat)
    requires off + 8 <= b.Length && b[off..off + 8] == Zeros(8)
    modifies b
    ensures b[..] == Overlay(old(b[..]), off, AclHeader(acl))
  {
    hide Overlay;
    ghost var was := b[..];
    ghost var size, count := PutLE16(AclSize(acl) % 0x1_0000), PutLE16(|acl| % 0x1_0000);
    UnwrittenZeros(was, off);
    Copy(b, off, [2]);
    OverlayKeep(was, off, [2], [0]);
    assert [2] + [0] == [2, 0];
    OverlayJoin(was, off, [2, 0], size);
    Copy(b, off + 2, PutLE16(AclSize(acl) % 0x1_0000));
    OverlayJoin(was, off, [2, 0] + size, count);
    Copy(b, off + 4, PutLE16(|acl| % 0x1_0000));
    OverlayKeep(was, off, [2, 0] + size + count, [0, 0]);
  }

  method EncodeAcl(acl: Acl, b: array<byte>, off: nat)
    requires off + AclSize(acl) <= b.Length && b[off..off + 8] == Zeros(8)
    modifies b
    ensures b[..] == Overlay(old(b[..]), off, AclBytes(acl))
  {
    hide Overlay;
    hide AclHeader;
    hide AceBytes;
    ghost var was := b[..];
    EncodeAclHeader(acl, b, off);
    var at := off + 8;
    assert AclHeader(acl) + AcesBytes(acl[..0]) == AclHeader(acl);
    for i := 0 to |acl|
      invariant at == off + 8 + |AcesBytes(acl[..i])| <= b.Length
      invariant b[..] == Overlay(was, off, AclHeader(acl) + AcesBytes(acl[..i]))
    {
      AcesPrefix(acl, i);
      OverlayJoin(was, off, AclHeader(acl) + AcesBytes(acl[..i]), AceBytes(acl[i]));
      assert AclHeader(acl) + AcesBytes(acl[..i]) + AceBytes(acl[i]) == AclHeader(acl) + AcesBytes(acl[..i + 1]);
      EncodeAce(acl[i], b, at);
      at := at + AceSize(acl[i]);
    }
    assert acl[..|acl|] == acl;
  }

  lemma {:induction false} AcesPrefix(acl: Acl, i: nat)
    requires i < |acl|
    ensures AcesBytes(acl[..i + 1]) == AcesBytes(acl[..i]) + AceBytes(acl[i])
    ensures |AcesBytes(acl[..i + 1])| <= |AcesBytes(acl)|
  {
    assert acl[..i + 1][..i] == acl[..i];
    if i + 1 == |acl| {
      assert acl[..i + 1] == acl;
    } else {
      var init := acl[..|acl| - 1];
      AcesPrefix(init, i);
      assert init[..i + 1] == acl[..i + 1] && init[..i] == acl[..i] && init[i] == acl[i];
    }
  }

  // ----- Decoding -----

  function GetWords(b: seq<byte>, n: nat): (ws: seq<u32>)
    requires |b| >= 4 * n
    ensures |ws| == n
  {
    if n == 0 then [] else GetWords(b, n - 1) + [GetLE32(b[4 * n - 4..4 * n])]
  }

  function DecodeSid(b: seq<byte>): Option<Sid> {
    if |b| < 8 || |b| < 8 + 4 * b[1] as int then None
    else Some(Sid(b[2..8], GetWords(b[8..], b[1])))
  }

  /** One ACE and what follows it, by its own size field. */
  function DecodeAce(b: seq<byte>): Option<(Ace, seq<byte>)> {
    if |b| < 16 || DecodeSid(b[8..]).None? || GetLE16(b[2..4]) as int > |b| then None
    else Some((Ace(b[0], GetLE32(b[4..8]), DecodeSid(b[8..]).value), b[GetLE16(b[2..4])..]))
  }

  /** The ACEs a walk of `n` steps visits. */
  function Visit(b: seq<byte>, n: nat): Option<seq<Ace>> {
    if n == 0 then Some([])
    else
      match DecodeAce(b)
      case None => None
      case Some((a, rest)) =>
        match Visit(rest, n - 1)
        case None => None
        case Some(more) => Some([a] + more)
  }

  lemma {:induction false} WordsRoundTrip(ws: seq<u32>, tail: seq<byte>)
    ensures GetWords(Words(ws) + tail, |ws|) == ws
  {
    if ws != [] {
      var init, last := ws[..|ws| - 1], ws[|ws| - 1];
      var n := |ws|;
      assert Words(ws) + tail == Words(init) + (PutLE32(last) + tail);
      WordsRoundTrip(init, PutLE32(last) + tail);
      assert (Words(ws) + tail)[4 * n - 4..4 * n] == PutLE32(last);
      LE32RoundTrip(last);
    }
  }

  lemma SidRoundTrip(s: Sid, tail: seq<byte>)
    ensures DecodeSid(SidBytes(s) + tail) == Some(s)
    ensures (SidBytes(s) + tail)[0] == 1
  {
    var b := SidBytes(s) + tail;
    assert b[2..8] == s.authority;
    assert b[8..] == Words(s.subs) + tail;
    WordsRoundTrip(s.subs, tail);
  }

  lemma AceRoundTrip(a: Ace, tail: seq<byte>)
    ensures DecodeAce(AceBytes(a) + tail) == Some((a, tail))
    ensures (AceBytes(a) + tail)[1] == 0
  {
    hide SidBytes;
    hide DecodeSid;
    var b := AceBytes(a) + tail;
    SidRoundTrip(a.sid, tail);
    assert b[8..] == SidBytes(a.sid) + tail;
    assert b[2..4] == PutLE16(AceSize(a));
    assert b[4..8] == PutLE32(a.mask);
    LE16RoundTrip(AceSize(a));
    LE32RoundTrip(a.mask);
    assert b[AceSize(a)..] == tail;
  }

  lemma {:induction false} AcesFront(acl: Acl)
    requires acl != []
    ensures AcesBytes(acl) == AceBytes(acl[0]) + AcesBytes(acl[1..])
  {
    hide AceBytes;
    hide AcesBytes;
    var init, last := acl[..|acl| - 1], acl[|acl| - 1];
    assert init + [last] == acl;
    AcesSnoc(init, last);
    if init == [] {
      AcesNone(init);
      AcesNone(acl[1..]);
    } else {
      AcesFront(init);
      assert init[1..] + [last] == acl[1..];
      AcesSnoc(init[1..], last);
      assert AceBytes(acl[0]) + AcesBytes(init[1..]) + AceBytes(last) ==
             AceBytes(acl[0]) + (AcesBytes(init[1..]) + AceBytes(last));
    }
  }

  lemma AcesNone(acl: Acl)
    requires |acl| == 0
    ensures AcesBytes(acl) == []
  {}

  lemma AcesSnoc(acl: Acl, a: Ace)
    ensures AcesBytes(acl + [a]) == AcesBytes(acl) + AceBytes(a)
  {
    assert (acl + [a])[..|acl|] == acl;
  }

  /** A walk over an encoded list visits its ACEs, in order, as many as the walk has steps. */
  lemma {:induction false} VisitRoundTrip(acl: Acl, n: nat, tail: seq<byte>)
    requires n <= |acl|
    ensures Visit(AcesBytes(acl) + tail, n) == Some(acl[..n])
  {
    hide AceBytes;
    hide AcesBytes;
    hide DecodeAce;
    if n > 0 {
      AcesFront(acl);
      var rest := AcesBytes(acl[1..]) + tail;
      assert AcesBytes(acl) + tail == AceBytes(acl[0]) + rest;
      AceRoundTrip(acl[0], rest);
      VisitRoundTrip(acl[1..], n - 1, tail);
      assert [acl[0]] + acl[1..][..n - 1] == acl[..n];
    }
  }

  // ----- Descriptors -----

  function OptSid(s: Option<Sid>): seq<byte> {
    if s.None? then [] else SidBytes(s.value)
  }

  function OptAcl(a: Option<Acl>): seq<byte> {
    if a.None? then [] else AclBytes(a.value)
  }

  function Body(d: Descriptor): seq<byte> {
    OptSid(d.owner) + OptSid(d.group) + OptAcl(d.sacl) + OptAcl(d.dacl)
  }

  function Control(d: Descriptor): u16 {
    0x8000 + (if d.sacl.Some? then 0x10 else 0) + (if d.dacl.Some? then 4 else 0)
  }

  // Where the parts start, the owner at 20; an offset field is zero when its part is absent.

  function GroupOffset(d: Descriptor): nat {
    20 + |OptSid(d.owner)|
  }

  function SaclOffset(d: Descriptor): nat {
    GroupOffset(d) + |OptSid(d.group)|
  }

  function DaclOffset(d: Descriptor): nat {
    SaclOffset(d) + |OptAcl(d.sacl)|
  }

  function OffsetField(present: bool, off: nat): (b: seq<byte>)
    requires off < 0x1_0000_0000
    ensures |b| == 4
  {
    PutLE32(if present then off else 0)
  }

  function Header(d: Descriptor): (h: seq<byte>)
    requires 20 + |Body(d)| < 0x1_0000_0000
    ensures |h| == 20
  {
    [1, 0] + PutLE16(Control(d)) +
    OffsetField(d.owner.Some?, 20) +
    OffsetField(d.group.Some?, GroupOffset(d)) +
    OffsetField(d.sacl.Some?, SaclOffset(d)) +
    OffsetField(d.dacl.Some?, DaclOffset(d))
  }

  function DescriptorBytes(d: Descriptor): (b: seq<byte>)
    requires 20 + |Body(d)| < 0x1_0000_0000
    ensures |b| == Align(20 + |Body(d)|, 8)
  {
    Header(d) + Body(d) + Zeros(Align(20 + |Body(d)|, 8) - 20 - |Body(d)|)
  }

  /** A zeroed buffer with the first header bytes and the first parts of the body filled in. */
  ghost predicate Partial(buf: seq<byte>, head: seq<byte>, body: seq<byte>) {
    && |head| <= 20 && 20 + |body| <= |buf|
    && buf == head + Zeros(20 - |head|) + body + Zeros(|buf| - 20 - |body|)
  }

  lemma PartialHead(buf: seq<byte>, head: seq<byte>, body: seq<byte>, x: seq<byte>)
    requires Partial(buf, head, body) && |head| + |x| <= 20
    ensures Partial(Overlay(buf, |head|, x), head + x, body)
  {}

  lemma PartialBody(buf: seq<byte>, head: seq<byte>, body: seq<byte>, y: seq<byte>)
    requires Partial(buf, head, body) && 20 + |body| + |y| <= |buf|
    ensures Partial(Overlay(buf, 20 + |body|, y), head, body + y)
    ensures buf[20 + |body|..20 + |body| + |y|] == Zeros(|y|)
  {}

  lemma PartialSkip(buf: seq<byte>, head: seq<byte>, body: seq<byte>, n: nat)
    requires Partial(buf, head, body) && |head| + n <= 20
    ensures Partial(buf, head + Zeros(n), body)
  {
    assert head + Zeros(n) + Zeros(20 - |head| - n) == head + Zeros(20 - |head|);
  }

  method AddSid(s: Option<Sid>, b: array<byte>, ghost head: seq<byte>, ghost body: seq<byte>, at: nat, off: nat)
    requires Partial(b[..], head, body) && at == |head| && at + 4 <= 20
    requires off == 20 + |body| && off + |OptSid(s)| <= b.Length < 0x1_0000_0000
    modifies b
    ensures Partial(b[..], head + OffsetField(s.Some?, off), body + OptSid(s))
  {
    hide Overlay;
    hide Partial;
    hide SidBytes;
    if s.Some? {
      PartialHead(b[..], head, body, PutLE32(off));
      Copy(b, at, PutLE32(off));
      PartialBody(b[..], head + PutLE32(off), body, SidBytes(s.value));
      EncodeSid(s.value, b, off);
    } else {
      PartialSkip(b[..], head, body, 4);
      assert OffsetField(false, off) == Zeros(4) && body + [] == body;
    }
  }

  method AddAcl(a: Option<Acl>, b: array<byte>, ghost head: seq<byte>, ghost body: seq<byte>, at: nat, off: nat)
    requires Partial(b[..], head, body) && at == |head| && at + 4 <= 20
    requires off == 20 + |body| && off + |OptAcl(a)| <= b.Length < 0x1_0000_0000
    modifies b
    ensures Partial(b[..], head + OffsetField(a.Some?, off), body + OptAcl(a))
  {
    hide Overlay;
    hide Partial;
    hide AclBytes;
    hide AcesBytes;
    hide Zeros;
    if a.Some? {
      PartialHead(b[..], head, body, PutLE32(off));
      Copy(b, at, PutLE32(off));
      PartialBody(b[..], head + PutLE32(off), body, AclBytes(a.value));
      FirstZeros(b[..], off, |AclBytes(a.value)|);
      EncodeAcl(a.value, b, off);
    } else {
      PartialSkip(b[..], head, body, 4);
      assert OffsetField(false, off) == Zeros(4) && body + [] == body;
    }
  }

  lemma FirstZeros(b: seq<byte>, off: nat, n: nat)
    requires 8 <= n && off + n <= |b| && b[off..off + n] == Zeros(n)
    ensures b[off..off + 8] == Zeros(8)
  {
    assert b[off..off + 8] == b[off..off + n][..8];
  }

  /** The descriptor's `Encode`, into a zeroed buffer of its size. */
  method EncodeDescriptor(d: Descriptor, b: array<byte>)
    requires b.Length == Align(20 + |Body(d)|, 8) < 0x1_0000_0000 && b[..] == Zeros(b.Length)
    modifies b
    ensures b[..] == DescriptorBytes(d)
  {
    hide Overlay;
    hide OptSid;
    hide OptAcl;
    hide OffsetField;
    hide Partial;
    hide Control;
    EncodeControl(d, b);
    ghost var head, body := [1, 0] + PutLE16(Control(d)), [];
    var off := 20;
    AddSid(d.owner, b, head, body, 4, off);
    head, body := head + OffsetField(d.owner.Some?, off), body + OptSid(d.owner);
    off := off + |OptSid(d.owner)|;
    AddSid(d.group, b, head, body, 8, off);
    head, body := head + OffsetField(d.group.Some?, off), body + OptSid(d.group);
    off := off + |OptSid(d.group)|;
    AddAcl(d.sacl, b, head, body, 12, off);
    head, body := head + OffsetField(d.sacl.Some?, off), body + OptAcl(d.sacl);
    off := off + |OptAcl(d.sacl)|;
    AddAcl(d.dacl, b, head, body, 16, off);
    head, body := head + OffsetField(d.dacl.Some?, off), body + OptAcl(d.dacl);
    assert head == Header(d);
    assert body == Body(d);
    PartialDone(b[..], head, body);
  }

  method EncodeControl(d: Descriptor, b: array<byte>)
    requires b.Length >= 20 && b[..] == Zeros(b.Length)
    modifies b
    ensures Partial(b[..], [1, 0] + PutLE16(Control(d)), [])
  {
    hide Overlay;
    assert Partial(b[..], [], []);
    PartialHead(b[..], [], [], [1]);
    Copy(b, 0, [1]);
    assert [] + [1] == [1];
    PartialSkip(b[..], [1], [], 1);
    assert [1] + Zeros(1) == [1, 0];
    PartialHead(b[..], [1, 0], [], PutLE16(Control(d)));
    Copy(b, 2, PutLE16(Control(d)));
  }

  lemma PartialDone(buf: seq<byte>, head: seq<byte>, body: seq<byte>)
    requires Partial(buf, head, body) && |head| == 20
    ensures buf == head + body + Zeros(|buf| - 20 - |body|)
  {
    assert Zeros(0) == [];
  }

  // ----- The mode walk -----

  /** What a SET_INFO of a descriptor does: set a mode, or not for want of a mode SID or of a DACL, or
      read past the end. */
  datatype Mode = Found(mode: u32) | Missing | NoDacl | OutOfRange

  /** The owner can always read and write. */
  function OwnerBits(mode: u32): (r: u32)
    ensures r / 0x80 % 4 == 3 && r / 0x200 == mode / 0x200 && r % 0x80 == mode % 0x80
  {
    mode / 0x200 * 0x200 + 0x180 + mode % 0x80
  }

  /** The walk over the ACEs; it reads sub-authorities only when there are three. `spare` is what lies
      behind the buffer in the same packet: sub-authorities are sliced up to the capacity, everything
      else up to the length. */
  function WalkAces(b: seq<byte>, n: nat, spare: seq<byte>): Mode {
    if n == 0 then Missing
    else if |b| < 10 || (b[9] == 3 && |b| + |spare| < 28) then OutOfRange
    else if b[9] == 3 && IsModeTail((b + spare)[16..28]) then Found(OwnerBits(GetLE32((b + spare)[24..28])))
    else if GetLE16(b[2..4]) as int > |b| then OutOfRange
    else WalkAces(b[GetLE16(b[2..4])..], n - 1, spare)
  }

  /** Three sub-authorities, the first two of them those of a mode SID. */
  predicate IsModeTail(w: seq<byte>)
    requires |w| == 12
  {
    GetLE32(w[..4]) == 88 && GetLE32(w[4..8]) == 3
  }

  function FindMode(b: seq<byte>, spare: seq<byte>): Mode {
    if |b| < 20 then OutOfRange
    else
      var off: nat := GetLE32(b[16..20]);
      if off == 0 then NoDacl
      else if |b| < off + 8 then OutOfRange
      else WalkAces(b[off + 8..], GetLE16(b[off + 4..off + 6]), spare)
  }

  /** The loop as the handler runs it. */
  method SetSecInfo(b: seq<byte>, spare: seq<byte>) returns (r: Mode)
    ensures r == FindMode(b, spare)
  {
    if |b| < 20 {
      return OutOfRange;
    }
    var off: nat := GetLE32(b[16..20]);
    if off == 0 {
      return NoDacl;
    }
    if |b| < off + 8 {
      return OutOfRange;
    }
    var count := GetLE16(b[off + 4..off + 6]);
    var aces := b[off + 8..];
    hide GetLE16;
    hide GetLE32;
    for i := 0 to count
      invariant WalkAces(b[off + 8..], count, spare) == WalkAces(aces, count - i, spare)
    {
      if |aces| < 10 || (aces[9] == 3 && |aces| + |spare| < 28) {
        return OutOfRange;
      }
      if aces[9] == 3 && IsModeTail((aces + spare)[16..28]) {
        return Found(OwnerBits(GetLE32((aces + spare)[24..28])));
      }
      if GetLE16(aces[2..4]) as int > |aces| {
        return OutOfRange;
      }
      aces := aces[GetLE16(aces[2..4])..];
    }
    return Missing;
  }

  // ----- When the walk leaves the buffer -----

  /** The bytes the walk reads of the ACE at `at` are there. */
  predicate Whole(b: seq<byte>, at: nat, spare: seq<byte>) {
    at + 10 <= |b| && (b[at + 9] == 3 ==> at + 28 <= |b| + |spare|)
  }

  predicate HoldsMode(b: seq<byte>, at: nat, spare: seq<byte>)
    requires Whole(b, at, spare)
  {
    b[at + 9] == 3 && IsModeTail((b + spare)[at + 16..at + 28])
  }

  /** Where ACE `k` stands, counted from one at `at`, if those before it are whole, hold no mode and
      stay in the buffer. */
  function AceAt(b: seq<byte>, at: nat, k: nat, spare: seq<byte>): Option<nat>
    decreases k
  {
    if k == 0 then Some(at)
    else if !Whole(b, at, spare) || HoldsMode(b, at, spare) || at + GetLE16(b[at + 2..at + 4]) > |b| then None
    else AceAt(b, at + GetLE16(b[at + 2..at + 4]), k - 1, spare)
  }

  /** The walk is at an ACE that is cut off, or whose size leads past the end. */
  predicate Strays(b: seq<byte>, at: nat, spare: seq<byte>) {
    !Whole(b, at, spare) || (!HoldsMode(b, at, spare) && at + GetLE16(b[at + 2..at + 4]) > |b|)
  }

  ghost predicate SomeAceStrays(b: seq<byte>, at: nat, n: nat, spare: seq<byte>) {
    exists k :: 0 <= k < n && AceAt(b, at, k, spare).Some? && Strays(b, AceAt(b, at, k, spare).value, spare)
  }

  lemma {:induction false} WalkStraysIff(b: seq<byte>, at: nat, n: nat, spare: seq<byte>)
    requires at <= |b|
    ensures WalkAces(b[at..], n, spare).OutOfRange? <==> SomeAceStrays(b, at, n, spare)
    decreases n
  {
    hide GetLE32;
    hide GetLE16;
    hide IsModeTail;
    if n > 0 {
      assert AceAt(b, at, 0, spare) == Some(at);
      var rest := b[at..];
      if Whole(b, at, spare) {
        assert rest[2..4] == b[at + 2..at + 4] && rest[9] == b[at + 9];
        if b[at + 9] == 3 {
          TailAt(b, at, spare);
        }
      }
      if Whole(b, at, spare) && !HoldsMode(b, at, spare) && at + GetLE16(b[at + 2..at + 4]) <= |b| {
        var next: nat := at + GetLE16(b[at + 2..at + 4]);
        assert rest[GetLE16(rest[2..4])..] == b[next..];
        WalkStraysIff(b, next, n - 1, spare);
        NextAce(b, at, next, n, spare);
      } else {
        assert forall k: nat :: k > 0 ==> AceAt(b, at, k, spare) == None;
      }
    }
  }

  lemma TailAt(b: seq<byte>, at: nat, spare: seq<byte>)
    requires at <= |b| && at + 28 <= |b| + |spare|
    ensures (b[at..] + spare)[16..28] == (b + spare)[at + 16..at + 28]
  {
    assert b[at..] + spare == (b + spare)[at..];
  }

  lemma NextAce(b: seq<byte>, at: nat, next: nat, n: nat, spare: seq<byte>)
    requires n > 0 && Whole(b, at, spare) && !HoldsMode(b, at, spare)
    requires next == at + GetLE16(b[at + 2..at + 4]) <= |b|
    ensures SomeAceStrays(b, at, n, spare) <==> SomeAceStrays(b, next, n - 1, spare)
  {
    hide GetLE16;
    hide HoldsMode;
    hide Whole;
    if SomeAceStrays(b, at, n, spare) {
      var k :| 0 <= k < n && AceAt(b, at, k, spare).Some? && Strays(b, AceAt(b, at, k, spare).value, spare);
      assert k > 0 && AceAt(b, next, k - 1, spare) == AceAt(b, at, k, spare);
    }
    if SomeAceStrays(b, next, n - 1, spare) {
      var k :| 0 <= k < n - 1 && AceAt(b, next, k, spare).Some? && Strays(b, AceAt(b, next, k, spare).value, spare);
      assert AceAt(b, at, k + 1, spare) == AceAt(b, next, k, spare);
    }
  }

  /** Exactly when a request's descriptor drives the handler out of range: it is too short for its
      header or its DACL's, or some ACE the walk reaches strays. */
  lemma OutOfRangeIff(b: seq<byte>, spare: seq<byte>)
    ensures FindMode(b, spare).OutOfRange? <==>
            || |b| < 20
            || (var off := GetLE32(b[16..20]) as int;
                off != 0 && (|b| < off + 8 || SomeAceStrays(b, off + 8, GetLE16(b[off + 4..off + 6]), spare)))
  {
    hide GetLE32;
    hide GetLE16;
    hide WalkAces;
    hide SomeAceStrays;
    if |b| >= 20 {
      var off: nat := GetLE32(b[16..20]);
      if off != 0 && |b| >= off + 8 {
        WalkStraysIff(b, off + 8, GetLE16(b[off + 4..off + 6]), spare);
      }
    }
  }

  /** A bare header whose DACL begins at its end. */
  lemma BareHeaderStrays(spare: seq<byte>)
    ensures FindMode(Zeros(16) + PutLE32(20), spare).OutOfRange?
  {
    var b := Zeros(16) + PutLE32(20);
    assert b[16..20] == PutLE32(20);
    LE32RoundTrip(20);
    OutOfRangeIff(b, spare);
  }

  // ----- When the spare bytes matter -----

  lemma {:induction false} WalkIgnoresSpare(b: seq<byte>, n: nat, spare: seq<byte>)
    requires !WalkAces(b, n, []).OutOfRange?
    ensures WalkAces(b, n, spare) == WalkAces(b, n, [])
    decreases n
  {
    hide GetLE32;
    hide GetLE16;
    hide IsModeTail;
    if n > 0 {
      if b[9] == 3 {
        assert (b + spare)[16..28] == b[16..28] == (b + [])[16..28];
        assert (b + spare)[24..28] == b[24..28] == (b + [])[24..28];
      }
      if !(b[9] == 3 && IsModeTail((b + [])[16..28])) {
        WalkIgnoresSpare(b[GetLE16(b[2..4])..], n - 1, spare);
      }
    }
  }

  /** Bytes behind the buffer change the outcome only where the buffer alone would be left. */
  lemma SpareMattersOnlyBeyond(b: seq<byte>, spare: seq<byte>)
    requires !FindMode(b, []).OutOfRange?
    ensures FindMode(b, spare) == FindMode(b, [])
  {
    hide WalkAces;
    if GetLE32(b[16..20]) != 0 {
      var off: nat := GetLE32(b[16..20]);
      WalkIgnoresSpare(b[off + 8..], GetLE16(b[off + 4..off + 6]), spare);
    }
  }

  /** A descriptor with one ACE that is cut off behind its sub-authority count. */
  const CUT_OFF: seq<byte> := Zeros(16) + PutLE32(20) + [2, 0, 0, 0, 1, 0, 0, 0] + [0, 0, 10, 0, 0, 0, 0, 0, 1, 3]

  lemma ModeTail(front: seq<byte>, mode: u32)
    requires |front| == 16
    ensures var b := front + (PutLE32(88) + PutLE32(3) + PutLE32(mode));
            IsModeTail(b[16..28]) && GetLE32(b[24..28]) == mode
  {
    hide PutLE32;
    hide GetLE32;
    var tail := PutLE32(88) + PutLE32(3) + PutLE32(mode);
    var b := front + tail;
    assert b[16..28] == tail;
    assert tail[..4] == PutLE32(88) && tail[4..8] == PutLE32(3);
    assert b[24..28] == PutLE32(mode);
    LE32RoundTrip(88);
    LE32RoundTrip(3);
    LE32RoundTrip(mode);
  }

  /** There a mode is read from the bytes that follow, whatever they are for. */
  lemma SpareSetsMode(mode: u32)
    ensures FindMode(CUT_OFF, []).OutOfRange?
    ensures FindMode(CUT_OFF, Zeros(6) + PutLE32(88) + PutLE32(3) + PutLE32(mode)) == Found(OwnerBits(mode))
  {
    var b, spare := CUT_OFF, Zeros(6) + PutLE32(88) + PutLE32(3) + PutLE32(mode);
    assert b[16..20] == PutLE32(20);
    LE32RoundTrip(20);
    assert b[24..26] == [1, 0];
    var ace: seq<byte> := [0, 0, 10, 0, 0, 0, 0, 0, 1, 3];
    assert b[28..] == ace;
    assert ace + spare == ace + Zeros(6) + (PutLE32(88) + PutLE32(3) + PutLE32(mode));
    ModeTail(ace + Zeros(6), mode);
    hide IsModeTail;
    hide GetLE32;
    assert WalkAces(ace, 1, spare) == Found(OwnerBits(mode));
  }

  predicate IsModeSid(s: Sid) {
    |s.subs| == 3 && s.subs[0] == 88 && s.subs[1] == 3
  }

  /** The first ACE whose SID is a mode SID. */
  function FirstMode(acl: Acl): Mode {
    if acl == [] then Missing
    else if IsModeSid(acl[0].sid) then Found(OwnerBits(acl[0].sid.subs[2]))
    else FirstMode(acl[1..])
  }

  lemma AceFields(a: Ace, tail: seq<byte>)
    ensures var b := AceBytes(a) + tail;
            && |b| >= 16 && b[9] as int == |a.sid.subs|
            && GetLE16(b[2..4]) == AceSize(a) && b[AceSize(a)..] == tail
            && (|a.sid.subs| == 3 ==>
                  && |b| >= 28 && GetLE32(b[24..28]) == a.sid.subs[2]
                  && (IsModeTail(b[16..28]) <==> IsModeSid(a.sid)))
  {
    var b := AceBytes(a) + tail;
    assert b[2..4] == PutLE16(AceSize(a));
    LE16RoundTrip(AceSize(a));
    if |a.sid.subs| == 3 {
      ThreeWords(a.sid.subs);
      assert b[16..28] == Words(a.sid.subs);
      assert b[24..28] == b[16..28][8..12];
    }
  }

  lemma ThreeWords(ws: seq<u32>)
    requires |ws| == 3
    ensures var b := Words(ws);
            GetLE32(b[..4]) == ws[0] && GetLE32(b[4..8]) == ws[1] && GetLE32(b[8..12]) == ws[2]
  {
    var b := Words(ws);
    assert ws[..2][..1] == ws[..1] && ws[..1][..0] == [];
    assert Words(ws[..1]) == PutLE32(ws[0]);
    assert Words(ws[..2]) == PutLE32(ws[0]) + PutLE32(ws[1]);
    assert b == PutLE32(ws[0]) + PutLE32(ws[1]) + PutLE32(ws[2]);
    assert b[..4] == PutLE32(ws[0]) && b[4..8] == PutLE32(ws[1]) && b[8..12] == PutLE32(ws[2]);
    LE32RoundTrip(ws[0]);
    LE32RoundTrip(ws[1]);
    LE32RoundTrip(ws[2]);
  }

  lemma {:induction false} WalkFindsFirst(acl: Acl, n: nat, tail: seq<byte>)
    requires n <= |acl|
    ensures WalkAces(AcesBytes(acl) + tail, n, []) == FirstMode(acl[..n])
  {
    hide IsModeTail;
    hide GetLE32;
    hide AceBytes;
    hide AcesBytes;
    if n > 0 {
      AcesFront(acl);
      var rest := AcesBytes(acl[1..]) + tail;
      assert AcesBytes(acl) + tail == AceBytes(acl[0]) + rest;
      AceFields(acl[0], rest);
      var b := AceBytes(acl[0]) + rest;
      assert b + [] == b;
      WalkFindsFirst(acl[1..], n - 1, tail);
      assert acl[..n][1..] == acl[1..][..n - 1];
    }
  }

  // ----- Reading a descriptor back -----

  /** The part an offset field points at, if any. */
  function PartAt(b: seq<byte>, at: nat): Option<seq<byte>>
    requires at + 4 <= |b|
  {
    var off := GetLE32(b[at..at + 4]);
    if off == 0 || off > |b| then None else Some(b[off..])
  }

  function ReadSid(b: seq<byte>, at: nat): Option<Sid>
    requires at + 4 <= |b|
  {
    var p := PartAt(b, at);
    if p.None? then None else DecodeSid(p.value)
  }

  function ReadAcl(b: seq<byte>, at: nat): Option<Acl>
    requires at + 4 <= |b|
  {
    var p := PartAt(b, at);
    if p.None? || |p.value| < 8 then None else Visit(p.value[8..], GetLE16(p.value[4..6]))
  }

  /** The ACEs a reader can find: the count in the header is two bytes. */
  function Countable(acl: Acl): Acl {
    acl[..|acl| % 0x1_0000]
  }

  function AfterSacl(d: Descriptor): seq<byte> {
    OptAcl(d.dacl) + Zeros(Align(20 + |Body(d)|, 8) - 20 - |Body(d)|)
  }

  function AfterGroup(d: Descriptor): seq<byte> {
    OptAcl(d.sacl) + AfterSacl(d)
  }

  function AfterOwner(d: Descriptor): seq<byte> {
    OptSid(d.group) + AfterGroup(d)
  }

  lemma Slices(d: Descriptor)
    requires 20 + |Body(d)| < 0x1_0000_0000
    ensures DaclOffset(d) <= |DescriptorBytes(d)|
    ensures DescriptorBytes(d)[20..] == OptSid(d.owner) + AfterOwner(d)
    ensures DescriptorBytes(d)[GroupOffset(d)..] == AfterOwner(d)
    ensures DescriptorBytes(d)[SaclOffset(d)..] == AfterGroup(d)
    ensures DescriptorBytes(d)[DaclOffset(d)..] == AfterSacl(d)
  {
    hide Header;
    hide OptAcl;
    hide OptSid;
    var b := DescriptorBytes(d);
    assert b == Header(d) + (OptSid(d.owner) + AfterOwner(d));
    Behind(b, 20, OptSid(d.owner), AfterOwner(d));
    Behind(b, GroupOffset(d), OptSid(d.group), AfterGroup(d));
    Behind(b, SaclOffset(d), OptAcl(d.sacl), AfterSacl(d));
  }

  lemma Behind(b: seq<byte>, off: nat, x: seq<byte>, y: seq<byte>)
    requires off <= |b| && b[off..] == x + y
    ensures off + |x| <= |b| && b[off + |x|..] == y
  {
    assert b[off + |x|..] == b[off..][|x|..];
  }

  lemma Fields(d: Descriptor)
    requires 20 + |Body(d)| < 0x1_0000_0000
    ensures |DescriptorBytes(d)| >= 20
    ensures GetLE32(DescriptorBytes(d)[4..8]) == if d.owner.Some? then 20 else 0
    ensures GetLE32(DescriptorBytes(d)[8..12]) == if d.group.Some? then GroupOffset(d) else 0
    ensures GetLE32(DescriptorBytes(d)[12..16]) == if d.sacl.Some? then SaclOffset(d) else 0
    ensures GetLE32(DescriptorBytes(d)[16..20]) == if d.dacl.Some? then DaclOffset(d) else 0
  {
    hide OptSid;
    hide OptAcl;
    hide OffsetField;
    hide GetLE32;
    hide Zeros;
    var b := DescriptorBytes(d);
    HeaderSlices(d);
    hide DescriptorBytes;
    FieldValue(b[4..8], d.owner.Some?, 20);
    FieldValue(b[8..12], d.group.Some?, GroupOffset(d));
    FieldValue(b[12..16], d.sacl.Some?, SaclOffset(d));
    FieldValue(b[16..20], d.dacl.Some?, DaclOffset(d));
  }

  lemma HeaderSlices(d: Descriptor)
    requires 20 + |Body(d)| < 0x1_0000_0000
    ensures |DescriptorBytes(d)| >= 20
    ensures DescriptorBytes(d)[4..8] == OffsetField(d.owner.Some?, 20)
    ensures DescriptorBytes(d)[8..12] == OffsetField(d.group.Some?, GroupOffset(d))
    ensures DescriptorBytes(d)[12..16] == OffsetField(d.sacl.Some?, SaclOffset(d))
    ensures DescriptorBytes(d)[16..20] == OffsetField(d.dacl.Some?, DaclOffset(d))
  {
    hide OptSid;
    hide OptAcl;
    hide OffsetField;
    hide Zeros;
    var b := DescriptorBytes(d);
    var rest := b[20..];
    assert b[..20] == Header(d);
    assert b == Header(d) + rest;
    FourFields([1, 0] + PutLE16(Control(d)), OffsetField(d.owner.Some?, 20), OffsetField(d.group.Some?, GroupOffset(d)),
               OffsetField(d.sacl.Some?, SaclOffset(d)), OffsetField(d.dacl.Some?, DaclOffset(d)), rest);
  }

  lemma FourFields(h: seq<byte>, w: seq<byte>, x: seq<byte>, y: seq<byte>, z: seq<byte>, rest: seq<byte>)
    requires |h| == |w| == |x| == |y| == |z| == 4
    ensures var b := h + w + x + y + z + rest;
            b[4..8] == w && b[8..12] == x && b[12..16] == y && b[16..20] == z
  {}

  /** Revision one, self-relative, and the bits for a present SACL and DACL. */
  lemma ControlBits(d: Descriptor)
    requires 20 + |Body(d)| < 0x1_0000_0000
    ensures |DescriptorBytes(d)| >= 20 && DescriptorBytes(d)[0] == 1
    ensures GetLE16(DescriptorBytes(d)[2..4]) as int / 0x8000 == 1
    ensures GetLE16(DescriptorBytes(d)[2..4]) as int / 0x10 % 2 == 1 <==> d.sacl.Some?
    ensures GetLE16(DescriptorBytes(d)[2..4]) as int / 0x4 % 2 == 1 <==> d.dacl.Some?
  {
    hide DescriptorBytes;
    hide GetLE16;
    hide PutLE16;
    hide Control;
    ControlSlice(d);
    LE16RoundTrip(Control(d));
    ControlValue(d);
  }

  lemma ControlValue(d: Descriptor)
    ensures Control(d) as int / 0x8000 == 1
    ensures Control(d) as int / 0x10 % 2 == 1 <==> d.sacl.Some?
    ensures Control(d) as int / 0x4 % 2 == 1 <==> d.dacl.Some?
  {
    if d.sacl.Some? {
      assert Control(d) == if d.dacl.Some? then 0x8014 else 0x8010;
    } else {
      assert Control(d) == if d.dacl.Some? then 0x8004 else 0x8000;
    }
  }

  lemma ControlSlice(d: Descriptor)
    requires 20 + |Body(d)| < 0x1_0000_0000
    ensures |DescriptorBytes(d)| >= 20 && DescriptorBytes(d)[0] == 1
    ensures DescriptorBytes(d)[2..4] == PutLE16(Control(d))
  {
    hide OptSid;
    hide OptAcl;
    hide OffsetField;
    hide Zeros;
    hide PutLE16;
    hide Control;
    var head := [1, 0] + PutLE16(Control(d));
    var rest := DescriptorBytes(d)[4..];
    assert DescriptorBytes(d) == head + rest;
  }

  lemma FieldValue(b: seq<byte>, present: bool, off: nat)
    requires off < 0x1_0000_0000 && b == OffsetField(present, off)
    ensures GetLE32(b) == if present then off else 0
  {
    LE32RoundTrip(if present then off else 0);
  }

  /** What a reader of an encoded ACL finds in its header and behind it. */
  lemma AclFields(acl: Acl, pad: seq<byte>)
    ensures |AclBytes(acl) + pad| >= 8
    ensures (AclBytes(acl) + pad)[8..] == AcesBytes(acl) + pad
    ensures GetLE16((AclBytes(acl) + pad)[4..6]) == |acl| % 0x1_0000
    ensures GetLE16((AclBytes(acl) + pad)[2..4]) == |AclBytes(acl)| % 0x1_0000
    ensures (AclBytes(acl) + pad)[..2] == [2, 0] && (AclBytes(acl) + pad)[6..8] == [0, 0]
  {
    hide AcesBytes;
    hide PutLE16;
    hide GetLE16;
    var b, h := AclBytes(acl) + pad, AclHeader(acl);
    assert b == h + (AcesBytes(acl) + pad);
    assert h[4..6] == PutLE16(|acl| % 0x1_0000) && h[2..4] == PutLE16(AclSize(acl) % 0x1_0000);
    assert b[4..6] == h[4..6] && b[2..4] == h[2..4];
    assert b[..2] == h[..2] == [2, 0] && b[6..8] == h[6..8] == [0, 0];
    LE16RoundTrip(|acl| % 0x1_0000);
    LE16RoundTrip(AclSize(acl) % 0x1_0000);
  }

  /** An ACL whose size fits its field is found whole by that field, whatever follows it. */
  lemma AclDelimits(acl: Acl, pad: seq<byte>)
    requires |AclBytes(acl)| < 0x1_0000
    ensures var b := AclBytes(acl) + pad;
            |b| >= 8 && GetLE16(b[2..4]) <= |b| && b[..GetLE16(b[2..4])] == AclBytes(acl)
  {
    hide AclBytes;
    hide GetLE16;
    AclFields(acl, pad);
  }

  lemma AclReads(acl: Acl, pad: seq<byte>)
    ensures |AclBytes(acl) + pad| >= 8
    ensures var b := AclBytes(acl) + pad;
            && Visit(b[8..], GetLE16(b[4..6])) == Some(Countable(acl))
            && WalkAces(b[8..], GetLE16(b[4..6]), []) == FirstMode(Countable(acl))
  {
    hide AclBytes;
    hide GetLE16;
    AclFields(acl, pad);
    VisitRoundTrip(acl, |acl| % 0x1_0000, pad);
    WalkFindsFirst(acl, |acl| % 0x1_0000, pad);
  }

  lemma SidPart(b: seq<byte>, at: nat, off: nat, s: Option<Sid>, tail: seq<byte>)
    requires at + 4 <= |b| && 0 < off <= |b| && b[off..] == OptSid(s) + tail
    requires GetLE32(b[at..at + 4]) == if s.Some? then off else 0
    ensures ReadSid(b, at) == s
  {
    hide SidBytes;
    hide DecodeSid;
    if s.Some? {
      SidRoundTrip(s.value, tail);
    }
  }

  lemma AclPart(b: seq<byte>, at: nat, off: nat, a: Option<Acl>, tail: seq<byte>)
    requires at + 4 <= |b| && 0 < off <= |b| && b[off..] == OptAcl(a) + tail
    requires GetLE32(b[at..at + 4]) == if a.Some? then off else 0
    ensures ReadAcl(b, at) == if a.Some? then Some(Countable(a.value)) else None
  {
    hide AclBytes;
    hide Visit;
    hide GetLE16;
    hide Countable;
    if a.Some? {
      AclReads(a.value, tail);
    }
  }

  /** Every part of an encoded descriptor reads back, a list of 64 Ki ACEs or more cut to the count
      its header can hold. */
  lemma DescriptorRoundTrip(d: Descriptor)
    requires 20 + |Body(d)| < 0x1_0000_0000
    ensures ReadSid(DescriptorBytes(d), 4) == d.owner
    ensures ReadSid(DescriptorBytes(d), 8) == d.group
    ensures ReadAcl(DescriptorBytes(d), 12) == if d.sacl.Some? then Some(Countable(d.sacl.value)) else None
    ensures ReadAcl(DescriptorBytes(d), 16) == if d.dacl.Some? then Some(Countable(d.dacl.value)) else None
  {
    hide DescriptorBytes;
    hide OptSid;
    hide OptAcl;
    hide ReadSid;
    hide ReadAcl;
    hide GetLE32;
    hide Countable;
    hide Body;
    Fields(d);
    Slices(d);
    var b := DescriptorBytes(d);
    SidPart(b, 4, 20, d.owner, AfterOwner(d));
    SidPart(b, 8, GroupOffset(d), d.group, AfterGroup(d));
    AclPart(b, 12, SaclOffset(d), d.sacl, AfterSacl(d));
    AclPart(b, 16, DaclOffset(d), d.dacl, Zeros(Align(20 + |Body(d)|, 8) - 20 - |Body(d)|));
  }

  lemma WalkPart(b: seq<byte>, off: nat, acl: Acl, tail: seq<byte>)
    requires off <= |b| && b[off..] == AclBytes(acl) + tail
    ensures off + 8 <= |b|
    ensures WalkAces(b[off + 8..], GetLE16(b[off + 4..off + 6]), []) == FirstMode(Countable(acl))
  {
    hide AclBytes;
    hide GetLE16;
    hide WalkAces;
    hide FirstMode;
    AclReads(acl, tail);
    assert b[off + 8..] == b[off..][8..];
    assert b[off + 4..off + 6] == b[off..][4..6];
  }

  /** On any encoded descriptor the handler finds the first mode SID of the DACL, or that there is
      none, and reads nothing out of range, whatever follows it. */
  lemma ModeFound(d: Descriptor, spare: seq<byte>)
    requires 20 + |Body(d)| < 0x1_0000_0000
    ensures FindMode(DescriptorBytes(d), spare) ==
            if d.dacl.None? then NoDacl else FirstMode(Countable(d.dacl.value))
  {
    hide DescriptorBytes;
    hide AclBytes;
    hide GetLE16;
    hide GetLE32;
    hide WalkAces;
    hide FirstMode;
    hide Countable;
    hide Body;
    hide DaclOffset;
    Fields(d);
    if d.dacl.Some? {
      Slices(d);
      WalkPart(DescriptorBytes(d), DaclOffset(d), d.dacl.value, Zeros(Align(20 + |Body(d)|, 8) - 20 - |Body(d)|));
      DaclIsBehind(d);
      FirstModeInRange(Countable(d.dacl.value));
    }
    SpareMattersOnlyBeyond(DescriptorBytes(d), spare);
  }

  lemma {:induction false} FirstModeInRange(acl: Acl)
    ensures !FirstMode(acl).OutOfRange?
  {
    if acl != [] {
      FirstModeInRange(acl[1..]);
    }
  }

  lemma DaclIsBehind(d: Descriptor)
    ensures DaclOffset(d) >= 20
  {}
}
