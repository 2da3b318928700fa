/**
 The share listing reply: the server encodes a NetShareEnumAll response, and the decoder finds
 where each string ends, says whether the reply is complete and reads the share names.
 */
module ShareEnum {
  import opened Bytes
  import opened Wrappers
  import opened Buffers
  import Utf16

  type Text = Utf16.Text

  // ----- Strings -----

  function Utf8Len(c: Utf16.Scalar): nat {
    if c < 0x80 then 1 else if c < 0x800 then 2 else if c < 0x1_0000 then 3 else 4
  }

  /** The length of a Go string in bytes. */
  function Utf8Size(s: Text): nat {
    if s == [] then 0 else Utf8Len(s[0]) + Utf8Size(s[1..])
  }

  /** Share names whose doubled count fits its field. */
  type Name = s: Text | Utf8Size(s) < 0x4000_0000 witness []

  /** The count on the wire is of UTF-8 bytes, terminator included, though the string is UTF-16. */
  function Count(s: Name): (n: u32)
    ensures 2 * n as int < 0x1_0000_0000
  {
    Utf8Size(s) + 1
  }

  function StrSize(s: Name): nat {
    12 + Align(2 * Count(s), 4)
  }

  function Terminated(s: Name): seq<byte> {
    Utf16.EncodeBytes(s + [0])
  }

  function StrBytes(s: Name): (b: seq<byte>)
    ensures |b| == StrSize(s)
  {
    TerminatedFits(s);
    PutLE32(Count(s)) + PutLE32(0) + PutLE32(Count(s)) +
    Terminated(s) + Zeros(StrSize(s) - 12 - |Terminated(s)|)
  }

  predicate Ascii(s: Text) {
    forall i :: 0 <= i < |s| ==> s[i] < 0x80
  }

  /** UTF-16 never has more units than UTF-8 has bytes, and as many only for ASCII. */
  lemma {:induction false} UnitsVersusBytes(s: Text)
    ensures |Utf16.Encode(s)| <= Utf8Size(s)
    ensures |Utf16.Encode(s)| == Utf8Size(s) <==> Ascii(s)
  {
    if s != [] {
      UnitsVersusBytes(s[1..]);
      assert |Utf16.Encode(s)| == |Utf16.UnitsOf(s[0])| + |Utf16.Encode(s[1..])|;
      assert Ascii(s) <==> s[0] < 0x80 && Ascii(s[1..]) by {
        assert forall i :: 0 <= i < |s| - 1 ==> s[1..][i] == s[i + 1];
        assert forall i :: 0 < i < |s| ==> s[i] == s[1..][i - 1];
      }
    }
  }

  lemma TerminatedFits(s: Name)
    ensures |Terminated(s)| == 2 * |Utf16.Encode(s)| + 2 <= 2 * Count(s)
  {
    Utf16.EncodeConcat(s, [0]);
    UnitsVersusBytes(s);
    assert Utf16.Encode([0]) == [0];
  }

  // ----- Layout of the reply -----

  /** The k-th reference id drawn after `ref`; the counter is 32 bits wide. */
  function Ref(ref: u32, k: nat): u32 {
    (ref + k) % 0x1_0000_0000
  }

  function RpcHeader(size: nat, callId: u32): (b: seq<byte>)
    ensures |b| == 24
  {
    [5, 0, 2, 3] + [0x10, 0, 0, 0] + PutLE16(size % 0x1_0000) + PutLE16(0) + PutLE32(callId) + Zeros(8)
  }

  function EnumHeader(n: u32, ref: u32): (b: seq<byte>)
    ensures |b| == 24
  {
    PutLE32(1) + PutLE32(1) + PutLE32(Ref(ref, 0)) + PutLE32(n) + PutLE32(Ref(ref, 1)) + PutLE32(n)
  }

  function Entry(ref: u32, i: nat): (b: seq<byte>)
    ensures |b| == 12
  {
    PutLE32(Ref(ref, 2 + 2 * i)) + PutLE32(0) + PutLE32(Ref(ref, 3 + 2 * i))
  }

  function Table(n: nat, ref: u32): (b: seq<byte>)
    ensures |b| == 12 * n
  {
    if n == 0 then [] else Table(n - 1, ref) + Entry(ref, n - 1)
  }

  /** A name and an empty comment for each share. */
  function Strings(names: seq<Name>): seq<byte> {
    if names == [] then [] else StrBytes(names[0]) + StrBytes([]) + Strings(names[1..])
  }

  function Trailer(n: u32, ref: u32): (b: seq<byte>)
    ensures |b| == 16
  {
    PutLE32(n) + PutLE32(Ref(ref, 2 + 2 * n)) + Zeros(8)
  }

  function ReplySize(names: seq<Name>): nat {
    64 + 12 * |names| + |Strings(names)|
  }

  function Reply(names: seq<Name>, callId: u32, ref: u32): (b: seq<byte>)
    requires |names| < 0x1_0000_0000
    ensures |b| == ReplySize(names)
  {
    RpcHeader(ReplySize(names), callId) + EnumHeader(|names|, ref) + Table(|names|, ref) +
    Strings(names) + Trailer(|names|, ref)
  }

  // ----- The encoder -----

  /** A zeroed buffer written up to some point. */
  ghost predicate Filled(buf: seq<byte>, done: seq<byte>) {
    |done| <= |buf| && buf == done + Zeros(|buf| - |done|)
  }

  lemma Fill(buf: seq<byte>, done: seq<byte>, x: seq<byte>)
    requires Filled(buf, done) && |done| + |x| <= |buf|
    ensures Filled(Overlay(buf, |done|, x), done + x)
  {}

  lemma Leave(buf: seq<byte>, done: seq<byte>, n: nat)
    requires Filled(buf, done) && |done| + n <= |buf|
    ensures Filled(buf, done + Zeros(n))
  {
    assert done + Zeros(n) + Zeros(|buf| - |done| - n) == done + Zeros(|buf| - |done|);
  }

  method Put(pkt: array<byte>, off: nat, x: seq<byte>, ghost done: seq<byte>)
    requires Filled(pkt[..], done) && off == |done| && off + |x| <= pkt.Length
    modifies pkt
    ensures Filled(pkt[..], done + x)
  {
    Fill(pkt[..], done, x);
    Copy(pkt, off, x);
  }

  /** The process-wide reference id. */
  class RefCounter {
    var next: u32

    method Draw() returns (r: u32)
      modifies this
      ensures r == old(next) && next == Ref(old(next), 1)
    {
      r := next;
      next := (next + 1) % 0x1_0000_0000;
    }
  }

  lemma RefNext(ref: u32, k: nat)
    ensures Ref(Ref(ref, k), 1) == Ref(ref, k + 1)
  {}

  lemma RefZero(ref: u32)
    ensures Ref(ref, 0) == ref
  {}

  method EncodeStr(s: Name, pkt: array<byte>, off: nat, ghost done: seq<byte>)
    requires Filled(pkt[..], done) && off == |done| && off + StrSize(s) <= pkt.Length
    modifies pkt
    ensures Filled(pkt[..], done + StrBytes(s))
  {
    hide Filled;
    hide PutLE32;
    hide Terminated;
    hide Align;
    hide Count;
    TerminatedFits(s);
    ghost var c, z, t := PutLE32(Count(s)), PutLE32(0), Terminated(s);
    Put(pkt, off, PutLE32(Count(s)), done);
    Put(pkt, off + 4, PutLE32(0), done + c);
    Put(pkt, off + 8, PutLE32(Count(s)), done + c + z);
    Put(pkt, off + 12, Terminated(s), done + c + z + c);
    ghost var pad := StrSize(s) - 12 - |t|;
    Leave(pkt[..], done + c + z + c + t, pad);
    assert done + c + z + c + t + Zeros(pad) == done + (c + z + c + t + Zeros(pad));
  }

  method EncodeTable(n: nat, counter: RefCounter, pkt: array<byte>, start: nat, ghost done: seq<byte>, ghost ref: u32)
    requires Filled(pkt[..], done) && start == |done| && start + 12 * n <= pkt.Length
    requires counter.next == Ref(ref, 2)
    modifies pkt, counter
    ensures Filled(pkt[..], done + Table(n, ref)) && counter.next == Ref(ref, 2 + 2 * n)
  {
    hide Filled;
    hide Ref;
    hide PutLE32;
    var off := start;
    assert done + Table(0, ref) == done;
    for i := 0 to n
      invariant off == start + 12 * i && counter.next == Ref(ref, 2 + 2 * i)
      invariant Filled(pkt[..], done + Table(i, ref))
    {
      ghost var before := done + Table(i, ref);
      ghost var x, y := PutLE32(Ref(ref, 2 + 2 * i)), PutLE32(Ref(ref, 3 + 2 * i));
      RefNext(ref, 2 + 2 * i);
      RefNext(ref, 3 + 2 * i);
      var r := counter.Draw();
      Put(pkt, off, PutLE32(r), before);
      Put(pkt, off + 4, PutLE32(0), before + x);
      r := counter.Draw();
      Put(pkt, off + 8, PutLE32(r), before + x + PutLE32(0));
      assert before + x + PutLE32(0) + y == before + Entry(ref, i);
      assert before + Entry(ref, i) == done + Table(i + 1, ref);
      off := off + 12;
    }
  }

  lemma {:induction false} StringsSnoc(names: seq<Name>, i: nat)
    requires i < |names|
    ensures Strings(names[..i + 1]) == Strings(names[..i]) + (StrBytes(names[i]) + StrBytes([]))
    ensures |Strings(names[..i + 1])| <= |Strings(names)|
  {
    hide StrBytes;
    hide StrSize;
    if i == 0 {
      assert names[..1][1..] == [] && names[..0] == [];
    } else {
      StringsSnoc(names[1..], i - 1);
      assert names[..i + 1][1..] == names[1..][..i] && names[..i][1..] == names[1..][..i - 1];
    }
  }

  lemma NoStrings(names: seq<Name>)
    requires |names| == 0
    ensures Strings(names) == []
  {}

  method EncodeStrings(names: seq<Name>, pkt: array<byte>, start: nat, ghost done: seq<byte>)
    requires Filled(pkt[..], done) && start == |done| && start + |Strings(names)| <= pkt.Length
    modifies pkt
    ensures Filled(pkt[..], done + Strings(names))
  {
    hide Filled;
    hide StrBytes;
    hide StrSize;
    hide Strings;
    var off := start;
    NoStrings(names[..0]);
    assert done + [] == done;
    for i := 0 to |names|
      invariant off == start + |Strings(names[..i])| <= pkt.Length
      invariant Filled(pkt[..], done + Strings(names[..i]))
    {
      StringsSnoc(names, i);
      ghost var before := done + Strings(names[..i]);
      assert before + (StrBytes(names[i]) + StrBytes([])) == done + Strings(names[..i + 1]);
      EncodeStr(names[i], pkt, off, before);
      off := off + StrSize(names[i]);
      EncodeStr([], pkt, off, before + StrBytes(names[i]));
      off := off + StrSize([]);
      assert before + StrBytes(names[i]) + StrBytes([]) == before + (StrBytes(names[i]) + StrBytes([]));
    }
    assert names[..|names|] == names;
  }

  method EncodeRpcHeader(size: nat, callId: u32, pkt: array<byte>)
    requires pkt.Length >= 24 && pkt[..] == Zeros(pkt.Length)
    modifies pkt
    ensures Filled(pkt[..], RpcHeader(size, callId))
  {
    assert Filled(pkt[..], []);
    ghost var a, b, f, z := [5, 0, 2, 3], [0x10, 0, 0, 0], PutLE16(size % 0x1_0000), PutLE16(0);
    hide Filled;
    Put(pkt, 0, [5, 0, 2, 3], []);
    assert [] + a == a;
    Put(pkt, 4, [0x10, 0, 0, 0], a);
    Put(pkt, 8, PutLE16(size % 0x1_0000), a + b);
    Put(pkt, 10, PutLE16(0), a + b + f);
    Put(pkt, 12, PutLE32(callId), a + b + f + z);
    Leave(pkt[..], a + b + f + z + PutLE32(callId), 8);
  }

  method EncodeEnumHeader(n: u32, counter: RefCounter, pkt: array<byte>, ghost done: seq<byte>)
    requires Filled(pkt[..], done) && |done| == 24 && 48 <= pkt.Length
    modifies pkt, counter
    ensures Filled(pkt[..], done + EnumHeader(n, old(counter.next)))
    ensures counter.next == Ref(old(counter.next), 2)
  {
    hide Filled;
    hide Ref;
    hide PutLE32;
    ghost var ref := counter.next;
    RefZero(ref);
    RefNext(ref, 1);
    ghost var one, x, y, m := PutLE32(1), PutLE32(Ref(ref, 0)), PutLE32(Ref(ref, 1)), PutLE32(n);
    Put(pkt, 24, PutLE32(1), done);
    Put(pkt, 28, PutLE32(1), done + one);
    var r := counter.Draw();
    Put(pkt, 32, PutLE32(r), done + one + one);
    Put(pkt, 36, PutLE32(n), done + one + one + x);
    r := counter.Draw();
    Put(pkt, 40, PutLE32(r), done + one + one + x + m);
    Put(pkt, 44, PutLE32(n), done + one + one + x + m + y);
    assert done + one + one + x + m + y + m == done + EnumHeader(n, ref);
  }

  method EncodeTrailer(n: u32, counter: RefCounter, pkt: array<byte>, off: nat, ghost done: seq<byte>, ghost ref: u32)
    requires Filled(pkt[..], done) && |done| == off && off + 16 == pkt.Length
    requires counter.next == Ref(ref, 2 + 2 * n)
    modifies pkt, counter
    ensures pkt[..] == done + Trailer(n, ref) && counter.next == Ref(ref, 3 + 2 * n)
  {
    ghost var m, x := PutLE32(n), PutLE32(Ref(ref, 2 + 2 * n));
    RefNext(ref, 2 + 2 * n);
    Put(pkt, off, PutLE32(n), done);
    var r := counter.Draw();
    Put(pkt, off + 4, PutLE32(r), done + m);
    assert pkt[..] == done + Trailer(n, ref);
  }

  /** The whole reply, into a zeroed buffer of its size. */
  method EncodeReply(names: seq<Name>, callId: u32, counter: RefCounter, pkt: array<byte>)
    requires |names| < 0x1_0000_0000
    requires pkt.Length == ReplySize(names) && pkt[..] == Zeros(pkt.Length)
    modifies pkt, counter
    ensures pkt[..] == Reply(names, callId, old(counter.next))
    ensures counter.next == Ref(old(counter.next), 3 + 2 * |names|)
  {
    hide Filled;
    hide RpcHeader;
    hide EnumHeader;
    hide Trailer;
    hide Strings;
    hide Table;
    hide Ref;
    ghost var ref := counter.next;
    var n := |names|;
    EncodeRpcHeader(pkt.Length, callId, pkt);
    ghost var done := RpcHeader(pkt.Length, callId);
    EncodeEnumHeader(n, counter, pkt, done);
    done := done + EnumHeader(n, ref);
    EncodeTable(n, counter, pkt, 48, done, ref);
    done := done + Table(n, ref);
    EncodeStrings(names, pkt, 48 + 12 * n, done);
    done := done + Strings(names);
    EncodeTrailer(n, counter, pkt, pkt.Length - 16, done, ref);
  }

  // ----- The decoder -----

  function U32(c: seq<byte>, at: nat): u32
    requires at + 4 <= |c|
  {
    GetLE32(c[at..at + 4])
  }

  function TextStart(c: seq<byte>, off: nat): nat
    requires off + 12 <= |c|
  {
    off + 12 + U32(c, off + 4)
  }

  function TextEnd(c: seq<byte>, off: nat): nat
    requires off + 12 <= |c|
  {
    TextStart(c, off) + 2 * U32(c, off + 8)
  }

  /** Where the string at `off` ends, rounded up, if the reply reaches that far. */
  function Skip(c: seq<byte>, off: nat): (next: Option<nat>)
    ensures next.Some? ==> off + 12 <= |c| && TextEnd(c, off) <= next.value <= |c|
  {
    if |c| < off + 12 || |c| < Align(TextEnd(c, off), 4) then None else Some(Align(TextEnd(c, off), 4))
  }

  /** The strings of one share: a name, and a comment at level 1. */
  function SkipShare(c: seq<byte>, off: nat, comment: bool): Option<nat> {
    var next := Skip(c, off);
    if next.None? || !comment then next else Skip(c, next.value)
  }

  function SkipShares(c: seq<byte>, off: nat, comment: bool, count: nat): Option<nat>
    decreases count
  {
    if count == 0 then Some(off)
    else
      var next := SkipShare(c, off, comment);
      if next.None? then None else SkipShares(c, next.value, comment, count - 1)
  }

  /** Past the fixed-size table: four bytes a share, or twelve at level 1. */
  function FirstString(c: seq<byte>): nat
    requires |c| >= 48
  {
    48 + U32(c, 36) * if U32(c, 24) == 0 then 4 else 12
  }

  predicate Complete(c: seq<byte>) {
    && |c| >= 48 && U32(c, 24) <= 1
    && FirstString(c) <= |c|
    && SkipShares(c, FirstString(c), U32(c, 24) == 1, U32(c, 36)).Some?
  }

  method SkipString(c: seq<byte>, offset: nat) returns (r: Option<nat>)
    ensures r == Skip(c, offset)
  {
    if |c| < offset + 12 {
      return None;
    }
    var noff, nlen: nat := U32(c, offset + 4), 2 * U32(c, offset + 8) as int;
    var end := Align(offset + 12 + noff + nlen, 4);
    if |c| < end {
      return None;
    }
    return Some(end);
  }

  method IsIncomplete(c: seq<byte>) returns (r: bool)
    ensures r == !Complete(c)
  {
    hide Skip;
    hide U32;
    if |c| < 48 {
      return true;
    }
    var level, count: nat := U32(c, 24), U32(c, 36);
    if level > 1 {
      return true;
    }
    var offset := if level == 0 then 48 + count * 4 else 48 + count * 12;
    if |c| < offset {
      return true;
    }
    for i := 0 to count
      invariant offset >= 0
      invariant SkipShares(c, FirstString(c), level == 1, count) == SkipShares(c, offset, level == 1, count - i)
    {
      var next := SkipString(c, offset);
      if next.Some? && level == 1 {
        next := SkipString(c, next.value);
      }
      if next.None? {
        return true;
      }
      offset := next.value;
    }
    return false;
  }

  function NameAt(c: seq<byte>, off: nat): Text
    requires Skip(c, off).Some?
  {
    Utf16.DecodeBytes(c[TextStart(c, off)..TextEnd(c, off)])
  }

  function Names(c: seq<byte>, off: nat, comment: bool, count: nat): (ss: seq<Text>)
    requires SkipShares(c, off, comment, count).Some?
    ensures |ss| == count
    decreases count
  {
    if count == 0 then []
    else [NameAt(c, off)] + Names(c, SkipShare(c, off, comment).value, comment, count - 1)
  }

  function NameList(c: seq<byte>): seq<Text>
    requires Complete(c)
  {
    Names(c, FirstString(c), U32(c, 24) == 1, U32(c, 36))
  }

  /** A caller checks that the reply is complete first; then every read is in range. */
  method ShareNameList(c: seq<byte>) returns (ss: seq<Text>)
    requires Complete(c)
    ensures ss == NameList(c)
  {
    hide SkipShare;
    hide NameAt;
    hide U32;
    var level, count: nat := U32(c, 24), U32(c, 36);
    ss := [];
    var offset := if level == 0 then 48 + count * 4 else 48 + count * 12;
    for i := 0 to count
      invariant offset >= 0
      invariant SkipShares(c, offset, level == 1, count - i).Some?
      invariant NameList(c) == ss + Names(c, offset, level == 1, count - i)
    {
      ghost var was := ss;
      var name, next := ReadShare(c, offset, level == 1);
      ss := ss + [name];
      assert was + ([name] + Names(c, next, level == 1, count - i - 1)) ==
             ss + Names(c, next, level == 1, count - i - 1);
      offset := next;
    }
  }

  method ReadShare(c: seq<byte>, offset: nat, comment: bool) returns (name: Text, next: nat)
    requires SkipShare(c, offset, comment).Some?
    ensures Skip(c, offset).Some? && name == NameAt(c, offset)
    ensures next == SkipShare(c, offset, comment).value
  {
    name, next := ReadName(c, offset);
    if comment {
      var _, after := ReadName(c, next);
      next := after;
    }
  }

  method ReadName(c: seq<byte>, offset: nat) returns (name: Text, next: nat)
    requires Skip(c, offset).Some?
    ensures name == NameAt(c, offset) && next == Skip(c, offset).value
  {
    hide U32;
    hide Align;
    hide Utf16.DecodeBytes;
    var noff, nlen: nat := U32(c, offset + 4), 2 * U32(c, offset + 8) as int;
    name := Utf16.DecodeToString(c[offset + 12 + noff..offset + 12 + noff + nlen]);
    next := Align(offset + 12 + noff + nlen, 4);
  }

  // ----- What a client reads from a server's reply -----

  function Nuls(k: nat): (t: Text)
    ensures |t| == k
  {
    seq(k, i => 0)
  }

  /** The name a client sees: one NUL for every UTF-8 byte beyond the UTF-16 units. */
  function Received(s: Text): Text {
    UnitsVersusBytes(s);
    s + Nuls(Utf8Size(s) - |Utf16.Encode(s)|)
  }

  lemma {:induction false} ToBytesSnoc(ws: seq<u16>)
    ensures Utf16.ToBytes(ws + [0]) == Utf16.ToBytes(ws) + [0, 0]
  {
    if ws == [] {
      assert ws + [0] == [0];
      assert Utf16.ToBytes([0]) == PutLE16(0) + Utf16.ToBytes([]);
    } else {
      assert (ws + [0])[1..] == ws[1..] + [0];
      ToBytesSnoc(ws[1..]);
    }
  }

  lemma NulBytes(s: Text)
    ensures Utf16.EncodeBytes(s + [0]) == Utf16.EncodeBytes(s) + [0, 0]
  {
    Utf16.EncodeConcat(s, [0]);
    assert Utf16.Encode([0]) == [0];
    ToBytesSnoc(Utf16.Encode(s));
  }

  /** Zeros behind a string are NULs behind its text. */
  lemma {:induction false} ZerosAreNuls(s: Text, k: nat)
    ensures Utf16.EncodeBytes(s + Nuls(k)) == Utf16.EncodeBytes(s) + Zeros(2 * k)
  {
    hide Utf16.EncodeBytes;
    if k == 0 {
      assert s + Nuls(0) == s;
    } else {
      ZerosAreNuls(s, k - 1);
      assert s + Nuls(k) == s + Nuls(k - 1) + [0];
      NulBytes(s + Nuls(k - 1));
      assert Zeros(2 * k) == Zeros(2 * k - 2) + [0, 0];
    }
  }

  /** The bytes a string's count spans decode to the name received. */
  lemma SpanDecodes(s: Name)
    ensures |Terminated(s)| <= 2 * Count(s) as int
    ensures Utf16.DecodeBytes(Terminated(s) + Zeros(2 * Count(s) - |Terminated(s)|)) == Received(s)
  {
    hide Utf16.EncodeBytes;
    hide Utf16.DecodeBytes;
    TerminatedFits(s);
    var k := Utf8Size(s) - |Utf16.Encode(s)|;
    ZerosAreNuls(s + [0], k);
    assert s + [0] + Nuls(k) == Received(s) + [0];
    Utf16.RoundTrip(Received(s) + [0]);
  }

  lemma StrFields(c: seq<byte>, off: nat, s: Name, rest: seq<byte>)
    requires off <= |c| && c[off..] == StrBytes(s) + rest
    ensures off + StrSize(s) <= |c|
    ensures U32(c, off + 4) == 0 && U32(c, off + 8) == Count(s)
    ensures |Terminated(s)| <= 2 * Count(s) as int
    ensures c[off + 12..off + 12 + 2 * Count(s)] == Terminated(s) + Zeros(2 * Count(s) - |Terminated(s)|)
  {
    hide PutLE32;
    hide GetLE32;
    hide Terminated;
    hide Align;
    hide Count;
    TerminatedFits(s);
    var b, n := StrBytes(s), 2 * Count(s) as int;
    Within(c, off, b, rest, 4, 8);
    Within(c, off, b, rest, 8, 12);
    Within(c, off, b, rest, 12, 12 + n);
    assert b[4..8] == PutLE32(0) && b[8..12] == PutLE32(Count(s));
    LE32RoundTrip(0);
    LE32RoundTrip(Count(s));
    assert b[12..] == Terminated(s) + Zeros(StrSize(s) - 12 - |Terminated(s)|);
    assert b[12..12 + n] == b[12..][..n];
  }

  lemma Within(c: seq<byte>, off: nat, x: seq<byte>, rest: seq<byte>, lo: nat, hi: nat)
    requires off <= |c| && c[off..] == x + rest && lo <= hi <= |x|
    ensures off + hi <= |c| && c[off + lo..off + hi] == x[lo..hi]
  {
    assert |c[off..]| == |x| + |rest|;
    forall k | lo <= k < hi
      ensures c[off + k] == x[k]
    {
      assert c[off + k] == c[off..][k] == (x + rest)[k];
    }
  }

  lemma AlignShift(off: nat, n: nat)
    requires off % 4 == 0
    ensures Align(off + n, 4) == off + Align(n, 4)
  {
    assert off == 4 * (off / 4);
    assert (off + n) % 4 == n % 4;
  }

  lemma StrAt(c: seq<byte>, off: nat, s: Name, rest: seq<byte>)
    requires off % 4 == 0 && off <= |c| && c[off..] == StrBytes(s) + rest
    ensures Skip(c, off) == Some(off + StrSize(s))
    ensures NameAt(c, off) == Received(s)
    ensures (off + StrSize(s)) % 4 == 0 && c[off + StrSize(s)..] == rest
  {
    hide StrBytes;
    hide U32;
    hide Received;
    hide Terminated;
    hide Align;
    hide Count;
    hide Utf16.DecodeBytes;
    StrFields(c, off, s, rest);
    SpanDecodes(s);
    AlignShift(off + 12, 2 * Count(s));
    assert c[off + StrSize(s)..] == c[off..][StrSize(s)..];
  }

  function AllReceived(names: seq<Name>): (ss: seq<Text>)
    ensures |ss| == |names|
  {
    if names == [] then [] else [Received(names[0])] + AllReceived(names[1..])
  }

  /** One share's strings, then the others'. */
  lemma ShareAt(c: seq<byte>, off: nat, s: Name, more: seq<byte>)
    requires off % 4 == 0 && off <= |c| && c[off..] == StrBytes(s) + StrBytes([]) + more
    ensures Skip(c, off).Some? && NameAt(c, off) == Received(s)
    ensures SkipShare(c, off, true).Some?
    ensures var next := SkipShare(c, off, true).value;
            next % 4 == 0 && next <= |c| && c[next..] == more
  {
    hide StrBytes;
    hide StrSize;
    hide Skip;
    hide NameAt;
    hide Received;
    assert StrBytes(s) + StrBytes([]) + more == StrBytes(s) + (StrBytes([]) + more);
    StrAt(c, off, s, StrBytes([]) + more);
    StrAt(c, off + StrSize(s), [], more);
  }

  lemma {:induction false} StringsRead(c: seq<byte>, off: nat, names: seq<Name>, rest: seq<byte>)
    requires off % 4 == 0 && off <= |c| && c[off..] == Strings(names) + rest
    ensures SkipShares(c, off, true, |names|).Some?
    ensures Names(c, off, true, |names|) == AllReceived(names)
    decreases |names|
  {
    hide StrBytes;
    hide SkipShare;
    hide NameAt;
    hide Received;
    if names != [] {
      var more := Strings(names[1..]) + rest;
      assert Strings(names) + rest == StrBytes(names[0]) + StrBytes([]) + more;
      ShareAt(c, off, names[0], more);
      StringsRead(c, SkipShare(c, off, true).value, names[1..], rest);
    }
  }

  lemma EnumFields(front: seq<byte>, n: u32, ref: u32, tail: seq<byte>)
    requires |front| == 24
    ensures U32(front + EnumHeader(n, ref) + tail, 24) == 1
    ensures U32(front + EnumHeader(n, ref) + tail, 36) == n
  {
    hide PutLE32;
    hide GetLE32;
    var b, h := front + EnumHeader(n, ref) + tail, EnumHeader(n, ref);
    assert b[24..28] == h[0..4] == PutLE32(1);
    assert b[36..40] == h[12..16] == PutLE32(n);
    LE32RoundTrip(1);
    LE32RoundTrip(n);
  }

  lemma HeaderFields(names: seq<Name>, callId: u32, ref: u32)
    requires |names| < 0x1_0000_0000
    ensures 48 + 12 * |names| <= |Reply(names, callId, ref)|
    ensures U32(Reply(names, callId, ref), 24) == 1
    ensures U32(Reply(names, callId, ref), 36) == |names|
    ensures Reply(names, callId, ref)[48 + 12 * |names|..] == Strings(names) + Trailer(|names|, ref)
  {
    hide RpcHeader;
    hide EnumHeader;
    hide Table;
    hide Strings;
    hide Trailer;
    hide U32;
    var rpc, h, t := RpcHeader(ReplySize(names), callId), EnumHeader(|names|, ref), Table(|names|, ref);
    var rest := Strings(names) + Trailer(|names|, ref);
    assert Reply(names, callId, ref) == rpc + h + t + rest;
    assert rpc + h + t + rest == rpc + h + (t + rest);
    EnumFields(rpc, |names|, ref, t + rest);
  }

  lemma RpcFields(size: nat, callId: u32, tail: seq<byte>)
    ensures var b := RpcHeader(size, callId) + tail;
            && b[..4] == [5, 0, 2, 3] && b[4..8] == [0x10, 0, 0, 0]
            && GetLE16(b[8..10]) == size % 0x1_0000 && GetLE16(b[10..12]) == 0
            && U32(b, 12) == callId && b[16..24] == Zeros(8)
  {
    hide PutLE32;
    hide GetLE32;
    hide PutLE16;
    hide GetLE16;
    var b := RpcHeader(size, callId) + tail;
    assert b[..4] == [5, 0, 2, 3] && b[4..8] == [0x10, 0, 0, 0];
    assert b[8..10] == PutLE16(size % 0x1_0000) && b[10..12] == PutLE16(0) && b[12..16] == PutLE32(callId);
    assert b[16..24] == Zeros(8);
    LE16RoundTrip(size % 0x1_0000);
    LE16RoundTrip(0);
    LE32RoundTrip(callId);
  }

  lemma InFront(x: seq<byte>, y: seq<byte>, lo: nat, hi: nat)
    requires lo <= hi <= |x|
    ensures (x + y)[lo..hi] == x[lo..hi]
  {}

  lemma {:induction false} EntryAt(n: nat, ref: u32, i: nat)
    requires i < n
    ensures 12 * i + 12 <= 12 * n && Table(n, ref)[12 * i..12 * i + 12] == Entry(ref, i)
  {
    hide Entry;
    var front := Table(n - 1, ref);
    assert Table(n, ref) == front + Entry(ref, n - 1);
    if i < n - 1 {
      EntryAt(n - 1, ref, i);
      InFront(front, Entry(ref, n - 1), 12 * i, 12 * i + 12);
    } else {
      assert (front + Entry(ref, n - 1))[|front|..] == Entry(ref, n - 1);
    }
  }

  lemma Inner(b: seq<byte>, at: nat, n: nat, lo: nat, hi: nat)
    requires at + n <= |b| && lo <= hi <= n
    ensures b[at..at + n][lo..hi] == b[at + lo..at + hi]
  {
    var x, y := b[at..at + n][lo..hi], b[at + lo..at + hi];
    forall k | 0 <= k < hi - lo
      ensures x[k] == y[k]
    {
      assert x[k] == b[at..at + n][lo + k];
    }
  }

  lemma EntryFields(b: seq<byte>, at: nat, ref: u32, i: nat)
    requires at + 12 <= |b| && b[at..at + 12] == Entry(ref, i)
    ensures U32(b, at) == Ref(ref, 2 + 2 * i) && U32(b, at + 4) == 0 && U32(b, at + 8) == Ref(ref, 3 + 2 * i)
  {
    hide PutLE32;
    hide GetLE32;
    hide Ref;
    var e := Entry(ref, i);
    Inner(b, at, 12, 0, 4);
    Inner(b, at, 12, 4, 8);
    Inner(b, at, 12, 8, 12);
    assert e[0..4] == PutLE32(Ref(ref, 2 + 2 * i)) && e[4..8] == PutLE32(0);
    assert e[8..12] == PutLE32(Ref(ref, 3 + 2 * i));
    LE32RoundTrip(Ref(ref, 2 + 2 * i));
    LE32RoundTrip(0);
    LE32RoundTrip(Ref(ref, 3 + 2 * i));
  }

  lemma TrailerFields(b: seq<byte>, n: u32, ref: u32)
    requires |b| >= 16 && b[|b| - 16..] == Trailer(n, ref)
    ensures U32(b, |b| - 16) == n && U32(b, |b| - 12) == Ref(ref, 2 + 2 * n) && b[|b| - 8..] == Zeros(8)
  {
    hide PutLE32;
    hide GetLE32;
    hide Ref;
    var t := b[|b| - 16..];
    assert b[|b| - 16..|b| - 12] == t[..4] == PutLE32(n);
    assert b[|b| - 12..|b| - 8] == t[4..8] == PutLE32(Ref(ref, 2 + 2 * n));
    assert b[|b| - 8..] == t[8..] == Zeros(8);
    LE32RoundTrip(n);
    LE32RoundTrip(Ref(ref, 2 + 2 * n));
  }

  lemma EnumRefs(front: seq<byte>, n: u32, ref: u32, tail: seq<byte>)
    requires |front| == 24
    ensures var b := front + EnumHeader(n, ref) + tail;
            && U32(b, 28) == 1 && U32(b, 32) == Ref(ref, 0) && U32(b, 40) == Ref(ref, 1) && U32(b, 44) == n
  {
    hide PutLE32;
    hide GetLE32;
    hide Ref;
    var b, h := front + EnumHeader(n, ref) + tail, EnumHeader(n, ref);
    assert b[28..32] == h[4..8] == PutLE32(1);
    assert b[32..36] == h[8..12] == PutLE32(Ref(ref, 0));
    assert b[40..44] == h[16..20] == PutLE32(Ref(ref, 1));
    assert b[44..48] == h[20..24] == PutLE32(n);
    LE32RoundTrip(1);
    LE32RoundTrip(Ref(ref, 0));
    LE32RoundTrip(Ref(ref, 1));
    LE32RoundTrip(n);
  }

  /** Every other field of the reply, where a client finds it: the response header with the request's
      call id and the reply's length, the counts, and reference ids in the order they were drawn. */
  lemma ReplyFields(names: seq<Name>, callId: u32, ref: u32, i: nat)
    requires |names| < 0x1_0000_0000
    ensures var b, n := Reply(names, callId, ref), |names|;
            && |b| >= 64 + 12 * n
            && b[..4] == [5, 0, 2, 3] && b[4..8] == [0x10, 0, 0, 0] && b[16..24] == Zeros(8)
            && GetLE16(b[8..10]) == |b| % 0x1_0000 && GetLE16(b[10..12]) == 0 && U32(b, 12) == callId
            && U32(b, 28) == 1 && U32(b, 32) == ref && U32(b, 40) == Ref(ref, 1) && U32(b, 44) == n
            && (i < n ==> && U32(b, 48 + 12 * i) == Ref(ref, 2 + 2 * i) && U32(b, 52 + 12 * i) == 0
                          && U32(b, 56 + 12 * i) == Ref(ref, 3 + 2 * i))
            && U32(b, |b| - 16) == n && U32(b, |b| - 12) == Ref(ref, 2 + 2 * n) && b[|b| - 8..] == Zeros(8)
  {
    hide RpcHeader;
    hide EnumHeader;
    hide Table;
    hide Strings;
    hide Trailer;
    hide U32;
    hide Ref;
    hide Entry;
    hide GetLE16;
    var b, n := Reply(names, callId, ref), |names|;
    var rpc, h, t := RpcHeader(ReplySize(names), callId), EnumHeader(n, ref), Table(n, ref);
    var rest := Strings(names) + Trailer(n, ref);
    assert b == rpc + h + t + rest;
    assert b == rpc + (h + t + rest) == rpc + h + (t + rest);
    RpcFields(|b|, callId, h + t + rest);
    EnumRefs(rpc, n, ref, t + rest);
    RefZero(ref);
    assert b[|b| - 16..] == Trailer(n, ref);
    TrailerFields(b, n, ref);
    if i < n {
      EntryAt(n, ref, i);
      assert b[48 + 12 * i..60 + 12 * i] == t[12 * i..12 * i + 12];
      EntryFields(b, 48 + 12 * i, ref, i);
    }
  }

  lemma TableAligned(n: nat)
    ensures (48 + 12 * n) % 4 == 0
  {
    assert 48 + 12 * n == 4 * (12 + 3 * n);
  }

  /** A server's reply is complete, and lists the names it was given as a client receives them. */
  lemma ReplyReads(names: seq<Name>, callId: u32, ref: u32)
    requires |names| < 0x1_0000_0000
    ensures Complete(Reply(names, callId, ref))
    ensures NameList(Reply(names, callId, ref)) == AllReceived(names)
  {
    hide Reply;
    hide U32;
    hide Names;
    hide SkipShares;
    hide Strings;
    hide Trailer;
    hide AllReceived;
    TableAligned(|names|);
    HeaderFields(names, callId, ref);
    StringsRead(Reply(names, callId, ref), 48 + 12 * |names|, names, Trailer(|names|, ref));
  }

  /** Names without comments, as a level 0 reply has them. */
  function NameStrings(names: seq<Name>): seq<byte> {
    if names == [] then [] else StrBytes(names[0]) + NameStrings(names[1..])
  }

  lemma NameOnlyAt(c: seq<byte>, off: nat, s: Name, more: seq<byte>)
    requires off % 4 == 0 && off <= |c| && c[off..] == StrBytes(s) + more
    ensures Skip(c, off).Some? && NameAt(c, off) == Received(s)
    ensures SkipShare(c, off, false).Some?
    ensures var next := SkipShare(c, off, false).value;
            next % 4 == 0 && next <= |c| && c[next..] == more
  {
    hide StrBytes;
    hide StrSize;
    hide Skip;
    hide NameAt;
    hide Received;
    StrAt(c, off, s, more);
  }

  lemma {:induction false} NameStringsRead(c: seq<byte>, off: nat, names: seq<Name>, rest: seq<byte>)
    requires off % 4 == 0 && off <= |c| && c[off..] == NameStrings(names) + rest
    ensures SkipShares(c, off, false, |names|).Some?
    ensures Names(c, off, false, |names|) == AllReceived(names)
    decreases |names|
  {
    hide StrBytes;
    hide SkipShare;
    hide NameAt;
    hide Received;
    if names != [] {
      var more := NameStrings(names[1..]) + rest;
      assert NameStrings(names) + rest == StrBytes(names[0]) + more;
      NameOnlyAt(c, off, names[0], more);
      NameStringsRead(c, SkipShare(c, off, false).value, names[1..], rest);
    }
  }

  /** Any level 0 reply with a table of four bytes a share and then their names lists those names. */
  lemma Level0Reads(c: seq<byte>, names: seq<Name>, rest: seq<byte>)
    requires |names| < 0x1_0000_0000 && |c| >= 48 + 4 * |names|
    requires U32(c, 24) == 0 && U32(c, 36) == |names|
    requires c[48 + 4 * |names|..] == NameStrings(names) + rest
    ensures Complete(c) && NameList(c) == AllReceived(names)
  {
    hide U32;
    hide Names;
    hide SkipShares;
    hide NameStrings;
    hide AllReceived;
    assert 48 + 4 * |names| == 4 * (12 + |names|);
    NameStringsRead(c, 48 + 4 * |names|, names, rest);
  }

  lemma ReceivedIff(s: Text)
    ensures Received(s) == s <==> Ascii(s)
  {
    UnitsVersusBytes(s);
    assert |Received(s)| == |s| ==> Received(s) == s;
  }

  /** Every name comes back as it was exactly when all of them are ASCII. */
  lemma {:induction false} FaithfulIffAscii(names: seq<Name>)
    ensures AllReceived(names) == names <==> forall i :: 0 <= i < |names| ==> Ascii(names[i])
  {
    if names != [] {
      var tail := names[1..];
      FaithfulIffAscii(tail);
      ReceivedIff(names[0]);
      assert AllReceived(names)[0] == Received(names[0]) && AllReceived(names)[1..] == AllReceived(tail);
      assert names == [names[0]] + tail;
      assert forall i :: 0 <= i < |tail| ==> tail[i] == names[i + 1];
      assert forall i :: 0 < i < |names| ==> names[i] == tail[i - 1];
    }
  }

  /** So a client sees the server's list exactly when every share name is ASCII. */
  lemma ReplyFaithfulIff(names: seq<Name>, callId: u32, ref: u32)
    requires |names| < 0x1_0000_0000
    ensures Complete(Reply(names, callId, ref))
    ensures NameList(Reply(names, callId, ref)) == names <==> forall i :: 0 <= i < |names| ==> Ascii(names[i])
  {
    hide Reply;
    hide Complete;
    hide NameList;
    hide AllReceived;
    ReplyReads(names, callId, ref);
    FaithfulIffAscii(names);
  }

  /** A share called U+00E9 is listed with a NUL behind it. */
  lemma AccentedNameGrows(callId: u32, ref: u32)
    ensures Complete(Reply([[0xE9]], callId, ref))
    ensures NameList(Reply([[0xE9]], callId, ref)) == [[0xE9, 0]]
  {
    hide Reply;
    hide Complete;
    hide NameList;
    ReplyReads([[0xE9]], callId, ref);
    var s: Name := [0xE9];
    assert [s][1..] == [];
    assert AllReceived([s]) == [Received(s)];
    assert Utf16.Encode(s) == [0xE9] && Utf8Size(s) == 2;
    assert Received(s) == s + Nuls(1) == [0xE9, 0];
  }
}
