/**
 Compounded requests and replies (sections 3.3.5.2.7 and 3.3.4.1.3 of MS-SMB2): the receiver
 splits a transport packet at each next-command offset, and the replies to a related chain are
 collected, padded to eight bytes, linked, and sent as one.
 */
module Compound {
  import opened Bytes
  import opened Wrappers
  import opened Buffers
  import opened Packets

  // ----- Splitting -----

  /** How the loop over a packet ends: at its last command, at an invalid header, or by a fault
      in the receiver. */
  datatype SplitEnd = Complete | BadHeader | Fault

  datatype Split = Split(pieces: seq<seq<byte>>, end: SplitEnd, rest: seq<byte>)

  function Concat(ps: seq<seq<byte>>): seq<byte> {
    if ps == [] then [] else ps[0] + Concat(ps[1..])
  }

  /** A header that passes the checks and is then read out of range. It ends before its flags or its
      next-command offset; it opens a chain and ends before its tree or session id; its offset leads
      past the end; or what the offset cuts off is too short to be taken for SMB1, and the message id
      lies past the end. A slice may reach as far as the packet does. */
  predicate Overread(p: seq<byte>) {
    || |p| < 24
    || (IsCompoundFirst(p) && |p| < 48)
    || NextCommand(p) > |p|
    || (0 < NextCommand(p) < 4 && |p| < 32)
  }

  /** The receiver faults at this header: it reads out of range, or the last command of a chain finds
      no chain. */
  predicate Faults(p: seq<byte>, inChain: bool) {
    !IsInvalid(p) && (Overread(p) || (IsCompoundLast(p) && !inChain))
  }

  function SplitFrom(p: seq<byte>, inChain: bool): Split
    decreases |p|
  {
    if IsInvalid(p) then Split([], BadHeader, p)
    else if Faults(p, inChain) then Split([], Fault, p)
    else
      var off := NextCommand(p);
      if off == 0 then Split([p], Complete, [])
      else
        var tail := SplitFrom(p[off..], inChain || IsCompoundFirst(p));
        Split([p[..off]] + tail.pieces, tail.end, tail.rest)
  }

  function Behind(ps: seq<seq<byte>>, s: Split): Split {
    Split(ps + s.pieces, s.end, s.rest)
  }

  lemma SplitOneMore(ps: seq<seq<byte>>, p: seq<byte>, inChain: bool)
    requires !IsInvalid(p) && !Faults(p, inChain) && NextCommand(p) != 0
    ensures Behind(ps, SplitFrom(p, inChain)) ==
            Behind(ps + [p[..NextCommand(p)]], SplitFrom(p[NextCommand(p)..], inChain || IsCompoundFirst(p)))
  {}

  lemma SplitEnds(ps: seq<seq<byte>>, p: seq<byte>, inChain: bool)
    ensures IsInvalid(p) ==> Behind(ps, SplitFrom(p, inChain)) == Split(ps, BadHeader, p)
    ensures Faults(p, inChain) ==> Behind(ps, SplitFrom(p, inChain)) == Split(ps, Fault, p)
    ensures !IsInvalid(p) && !Faults(p, inChain) && NextCommand(p) == 0 ==>
              Behind(ps, SplitFrom(p, inChain)) == Split(ps + [p], Complete, [])
  {}

  /** The receiver's loop. */
  method SplitPacket(buf: seq<byte>) returns (r: Split)
    ensures r == SplitFrom(buf, false)
  {
    hide IsInvalid;
    hide IsCompoundFirst;
    hide IsCompoundLast;
    hide NextCommand;
    hide Behind;
    hide SplitFrom;
    var pkt, inChain := buf, false;
    var pieces: seq<seq<byte>> := [];
    BehindNone(SplitFrom(buf, false));
    while true
      invariant SplitFrom(buf, false) == Behind(pieces, SplitFrom(pkt, inChain))
      decreases |pkt|
    {
      SplitEnds(pieces, pkt, inChain);
      if IsInvalid(pkt) {
        return Split(pieces, BadHeader, pkt);
      }
      if |pkt| < 24 {
        return Split(pieces, Fault, pkt);
      }
      var first := IsCompoundFirst(pkt);
      if first && |pkt| < 48 {
        return Split(pieces, Fault, pkt);
      }
      if IsCompoundLast(pkt) && !inChain {
        return Split(pieces, Fault, pkt);
      }
      var off := NextCommand(pkt);
      if off > |pkt| {
        return Split(pieces, Fault, pkt);
      }
      if off == 0 {
        return Split(pieces + [pkt], Complete, []);
      }
      if off < 4 && |pkt| < 32 {
        return Split(pieces, Fault, pkt);
      }
      SplitOneMore(pieces, pkt, inChain);
      pieces := pieces + [pkt[..off]];
      pkt := pkt[off..];
      inChain := inChain || first;
    }
  }

  lemma BehindNone(s: Split)
    ensures s == Behind([], s)
  {}

  lemma JoinHead(p: seq<byte>, off: nat, pieces: seq<seq<byte>>, rest: seq<byte>)
    requires off <= |p| && Concat(pieces) + rest == p[off..]
    ensures Concat([p[..off]] + pieces) + rest == p
  {
    assert ([p[..off]] + pieces)[1..] == pieces;
    assert p == p[..off] + p[off..];
  }

  /** For any packet, the pieces and what is left after them are the packet, and nothing is left
      when the walk reached a last command. It faults only where a header is read out of range. */
  lemma {:induction false} SplitConserves(p: seq<byte>, inChain: bool)
    ensures var s := SplitFrom(p, inChain);
            && Concat(s.pieces) + s.rest == p
            && (s.end.Complete? ==> s.rest == [] && s.pieces != [])
            && (s.end.BadHeader? ==> IsInvalid(s.rest))
            && (s.end.Fault? ==> Faults(s.rest, false))
    decreases |p|
  {
    hide IsInvalid;
    hide IsCompoundFirst;
    hide NextCommand;
    hide Concat;
    if IsInvalid(p) || Faults(p, inChain) {
      ConcatNone(p);
    } else if NextCommand(p) == 0 {
      ConcatOne(p);
    } else {
      var off, c := NextCommand(p), inChain || IsCompoundFirst(p);
      SplitConserves(p[off..], c);
      var tail := SplitFrom(p[off..], c);
      JoinHead(p, off, tail.pieces, tail.rest);
    }
  }

  lemma ConcatNone(p: seq<byte>)
    ensures Concat([]) + p == p
  {}

  lemma ConcatOne(p: seq<byte>)
    ensures Concat([p]) + [] == p
  {
    assert Concat([p]) == p + Concat([]);
  }

  /** The walk reaches a last command and every command on it, the first included, is related. */
  predicate NothingOpens(p: seq<byte>)
    decreases |p|
  {
    && !IsInvalid(p) && |p| >= 24 && IsRelated(p)
    && (NextCommand(p) == 0 || (NextCommand(p) <= |p| && NothingOpens(p[NextCommand(p)..])))
  }

  /** The walk meets an SMB1 negotiate too short for what is read of it. */
  predicate MeetsShortSmb1(p: seq<byte>)
    decreases |p|
  {
    && !IsInvalid(p)
    && ((IsSmb1(p) && Overread(p)) ||
        (!Overread(p) && NextCommand(p) != 0 && MeetsShortSmb1(p[NextCommand(p)..])))
  }

  /** An SMB2 header that passes the checks is whole. */
  lemma Smb2IsWhole(p: seq<byte>)
    requires !IsInvalid(p) && !IsSmb1(p)
    ensures !Overread(p)
  {}

  /** Exactly when a packet faults: a short SMB1 negotiate stands on its walk, or nothing on the walk
      opens the chain that its last command closes. */
  lemma {:induction false} FaultIff(p: seq<byte>, inChain: bool)
    ensures SplitFrom(p, inChain).end.Fault? <==> MeetsShortSmb1(p) || (!inChain && NothingOpens(p))
    decreases |p|
  {
    if !IsInvalid(p) && !IsSmb1(p) {
      Smb2IsWhole(p);
    }
    hide IsInvalid;
    hide NextCommand;
    hide IsRelated;
    if !IsInvalid(p) && !Faults(p, inChain) && NextCommand(p) != 0 {
      FaultIff(p[NextCommand(p)..], inChain || IsCompoundFirst(p));
    }
  }

  /** Five bytes that pass as an SMB1 negotiate. */
  lemma ShortSmb1Faults()
    ensures SplitFrom([0xFF, 0x53, 0x4D, 0x42, 0x72], false).end.Fault?
  {
    FaultIff([0xFF, 0x53, 0x4D, 0x42, 0x72], false);
  }

  /** Twenty-four bytes of an SMB1 negotiate with the given flags and next-command bytes. */
  function Smb1Header(flags: u32, next: u32): (p: seq<byte>)
    ensures |p| == 24
  {
    [0xFF, 0x53, 0x4D, 0x42, 0x72] + Zeros(11) + PutLE32(flags) + PutLE32(next)
  }

  /** As the first command of a chain it has no session id; as a related one that cuts off three bytes
      it has no message id. */
  lemma Smb1HeaderFaults(flags: u32)
    ensures SplitFrom(Smb1Header(flags, 3), false).end.Fault?
  {
    var p := Smb1Header(flags, 3);
    assert p[20..24] == PutLE32(3);
    LE32RoundTrip(3);
    FaultIff(p, false);
  }

  /** Every packet that is a single command marked related is such a fault. */
  lemma LoneRelatedFaults(q: seq<byte>)
    requires ChainLink(q, false, true)
    ensures SplitFrom(q, false).end.Fault?
  {
    LinkInConcat(q, [], false, true);
    assert q + [] == q;
  }

  /** A command as it stands in a well-formed chain: a whole SMB2 header, linked by its own length
      unless it is the last, and related unless it is the first. */
  ghost predicate ChainLink(q: seq<byte>, first: bool, last: bool) {
    && |q| >= 64 && HasMagic(q, 0xFE) && GetLE16(q[4..6]) == 64
    && NextCommand(q) == (if last then 0 else |q|)
    && (!last ==> |q| % 8 == 0)
    && IsRelated(q) == !first
  }

  ghost predicate Chain(qs: seq<seq<byte>>) {
    |qs| >= 2 && forall k :: 0 <= k < |qs| ==> ChainLink(qs[k], k == 0, k == |qs| - 1)
  }

  lemma LinkInConcat(q: seq<byte>, rest: seq<byte>, first: bool, last: bool)
    requires ChainLink(q, first, last) && (last <==> rest == [])
    ensures var p := q + rest;
            && !IsInvalid(p) && |p| >= 24
            && NextCommand(p) == NextCommand(q) && IsRelated(p) == IsRelated(q)
  {
    var p := q + rest;
    assert p[4..6] == q[4..6] && p[16..20] == q[16..20] && p[20..24] == q[20..24];
  }

  lemma {:induction false} SplitChainFrom(qs: seq<seq<byte>>, k: nat)
    requires Chain(qs) && k < |qs|
    ensures SplitFrom(Concat(qs[k..]), k > 0) == Split(qs[k..], Complete, [])
    decreases |qs| - k
  {
    hide IsInvalid;
    var q, rest := qs[k], Concat(qs[k + 1..]);
    assert qs[k..][1..] == qs[k + 1..];
    assert Concat(qs[k..]) == q + rest;
    if k + 1 == |qs| {
      assert qs[k + 1..] == [];
      assert q + rest == q;
      LinkInConcat(q, [], k == 0, true);
      assert qs[k..] == [q];
    } else {
      assert |Concat(qs[k + 1..])| > 0 by {
        assert qs[k + 1..][0] == qs[k + 1];
      }
      LinkInConcat(q, rest, k == 0, false);
      assert (q + rest)[..|q|] == q && (q + rest)[|q|..] == rest;
      SplitChainFrom(qs, k + 1);
      assert [q] + qs[k + 1..] == qs[k..];
    }
  }

  /** Splitting a well-formed chain gives back its commands, in order and without a fault. */
  lemma SplitInvertsChain(qs: seq<seq<byte>>)
    requires Chain(qs)
    ensures SplitFrom(Concat(qs), false) == Split(qs, Complete, [])
  {
    SplitChainFrom(qs, 0);
    assert qs[0..] == qs;
  }

  // ----- Replies -----

  /** An encoded reply whose flags and link are still to be set. */
  type Reply = b: seq<byte> | |b| >= 64 witness Zeros(64)

  function Status(b: seq<byte>): u32
    requires |b| >= 64
  {
    GetLE32(b[8..12])
  }

  function MessageId(b: seq<byte>): seq<byte>
    requires |b| >= 64
  {
    b[24..32]
  }

  function Stamp(b: Reply, flags: u32, next: u32): (r: Reply)
    ensures |r| == |b|
  {
    b[..16] + PutLE32(flags) + PutLE32(next) + b[24..]
  }

  /** Sets the related-operations flag. */
  function OrRelated(flags: u32): (r: u32)
    ensures r / 4 % 2 == 1 && r / 8 == flags / 8 && r % 4 == flags % 4
  {
    if flags / 4 % 2 == 1 then flags else flags + 4
  }

  lemma StampFields(b: Reply, flags: u32, next: u32)
    ensures var r := Stamp(b, flags, next);
            && Flags(r) == flags && NextCommand(r) == next
            && Status(r) == Status(b) && MessageId(r) == MessageId(b)
            && r[..16] == b[..16] && r[24..] == b[24..]
  {
    var r := Stamp(b, flags, next);
    assert r[16..20] == PutLE32(flags) && r[20..24] == PutLE32(next);
    assert r[8..12] == b[8..12] && r[24..32] == b[24..32];
    LE32RoundTrip(flags);
    LE32RoundTrip(next);
  }

  function Padded(b: seq<byte>): (r: seq<byte>)
    ensures |r| == Align(|b|, 8)
  {
    b + Zeros(Align(|b|, 8) - |b|)
  }

  /** Every reply but the last padded to eight bytes. */
  function Layout(rs: seq<seq<byte>>): seq<byte> {
    if rs == [] then [] else if |rs| == 1 then rs[0] else Padded(rs[0]) + Layout(rs[1..])
  }

  /** A client's walk over a reply: a piece per link, ended by a zero link. */
  function Walk(buf: seq<byte>): seq<seq<byte>>
    decreases |buf|
  {
    if |buf| < 24 then []
    else
      var next := NextCommand(buf);
      if next == 0 then [buf]
      else if next > |buf| then []
      else [buf[..next]] + Walk(buf[next..])
  }

  ghost predicate Links(rs: seq<seq<byte>>) {
    forall k :: 0 <= k < |rs| ==>
      |rs[k]| >= 64 && NextCommand(rs[k]) == if k == |rs| - 1 then 0 else Align(|rs[k]|, 8)
  }

  function Pieces(rs: seq<seq<byte>>): seq<seq<byte>> {
    if |rs| <= 1 then rs else [Padded(rs[0])] + Pieces(rs[1..])
  }

  lemma {:induction false} WalkRecoversReplies(rs: seq<seq<byte>>)
    requires rs != [] && Links(rs)
    ensures Walk(Layout(rs)) == Pieces(rs)
  {
    var r := rs[0];
    if |rs| > 1 {
      var tail := rs[1..];
      assert forall k :: 0 <= k < |tail| ==> tail[k] == rs[k + 1];
      WalkRecoversReplies(tail);
      var buf := Layout(rs);
      assert buf == Padded(r) + Layout(tail);
      assert buf[20..24] == r[20..24];
      assert buf[..|Padded(r)|] == Padded(r) && buf[|Padded(r)|..] == Layout(tail);
    }
  }

  /** Piece `k` of the walk is reply `k`, followed by padding if others follow it. */
  lemma {:induction false} PieceAt(rs: seq<seq<byte>>, k: nat)
    requires k < |rs|
    ensures |Pieces(rs)| == |rs|
    ensures Pieces(rs)[k] == if k == |rs| - 1 then rs[k] else Padded(rs[k])
  {
    if |rs| > 1 {
      PieceAt(rs[1..], if k > 0 then k - 1 else 0);
    }
  }

  // ----- Serving a chain -----

  /** The first `n` replies, each padded. */
  function Front(rs: seq<seq<byte>>, n: nat): seq<byte>
    requires n <= |rs|
  {
    if n == 0 then [] else Front(rs, n - 1) + Padded(rs[n - 1])
  }

  lemma LayoutStep(rs: seq<seq<byte>>, k: nat)
    requires 0 < k < |rs|
    ensures Layout(rs[k - 1..]) == Padded(rs[k - 1]) + Layout(rs[k..])
  {
    hide Padded;
    assert rs[k - 1..][1..] == rs[k..];
  }

  lemma {:induction false} LayoutIsFront(rs: seq<seq<byte>>, k: nat)
    requires k < |rs|
    ensures Layout(rs) == Front(rs, k) + Layout(rs[k..])
  {
    hide Layout;
    hide Padded;
    if k == 0 {
      assert rs[0..] == rs;
    } else {
      LayoutIsFront(rs, k - 1);
      LayoutStep(rs, k);
    }
  }

  class CompoundContext {
    var lastStatus: u32
    var lastMsgId: seq<byte>
    var rsp: seq<seq<byte>>

    constructor (lastMsgId: seq<byte>)
      ensures lastStatus == 0 && this.lastMsgId == lastMsgId && rsp == []
    {
      lastStatus, this.lastMsgId, rsp := 0, lastMsgId, [];
    }

    method Size() returns (s: nat)
      ensures s == |Layout(rsp)|
    {
      s := 0;
      assert rsp[0..] == rsp;
      for i := 0 to |rsp|
        invariant s + |Layout(rsp[i..])| == |Layout(rsp)|
      {
        assert rsp[i..][1..] == rsp[i + 1..];
        if i != |rsp| - 1 {
          s := s + Align(|rsp[i]|, 8);
        } else {
          s := s + |rsp[i]|;
        }
      }
    }

    /** Copies every reply to the next multiple of eight in a buffer of zeros. */
    method Encode(buf: array<byte>)
      requires rsp != [] && buf.Length == |Layout(rsp)| && buf[..] == Zeros(buf.Length)
      modifies buf
      ensures buf[..] == Layout(rsp)
    {
      hide Written;
      hide Layout;
      hide Overlay;
      hide Front;
      var off := 0;
      WrittenNone(rsp, buf[..]);
      for i := 0 to |rsp|
        invariant off == |Front(rsp, i)|
        invariant Written(rsp, i, buf[..])
      {
        WrittenOneMore(rsp, i, buf[..]);
        Copy(buf, off, rsp[i]);
        off := off + Align(|rsp[i]|, 8);
      }
      WrittenAll(rsp, buf[..]);
    }

    /** Stamps a reply and keeps it; the reply to the last command sends them all. */
    method SendPacket(r: Reply) returns (sent: Option<seq<byte>>)
      requires Align(|r|, 8) < 0x1_0000_0000
      modifies this
      ensures lastMsgId == old(lastMsgId) && lastStatus == Status(r)
      ensures rsp == old(rsp) + [Stamped(r, old(rsp) == [], MessageId(r) == lastMsgId)]
      ensures sent == if MessageId(r) == lastMsgId then Some(Layout(rsp)) else None
    {
      var flags := Flags(r);
      if |rsp| != 0 {
        flags := OrRelated(flags);
      }
      var next := 0;
      if MessageId(r) != lastMsgId {
        next := Align(|r|, 8);
      }
      lastStatus := Status(r);
      rsp := rsp + [Stamp(r, flags, next)];
      if MessageId(r) != lastMsgId {
        return None;
      }
      var size := Size();
      var buf := new byte[size](_ => 0);
      assert buf[..] == Zeros(size);
      Encode(buf);
      return Some(buf[..]);
    }

    /** Serves the commands of one related chain: a handler runs while nothing has failed; after a
        failure every command is refused with its status. One reply per command goes out. */
    method ServeChain(n: nat, handle: nat -> Reply, refuse: (nat, u32) -> Reply)
      returns (sent: seq<byte>)
      requires n > 0 && rsp == [] && lastStatus == 0 && ReplyIds(n, handle, refuse, lastMsgId)
      modifies this
      ensures Links(Replies(n, handle, refuse))
      ensures sent == Layout(Replies(n, handle, refuse))
    {
      hide Layout;
      hide Stamped;
      hide Status;
      hide Replies;
      hide ReplyIds;
      hide StatusBefore;
      hide ChainReply;
      ghost var rs := Replies(n, handle, refuse);
      RepliesLink(n, handle, refuse, lastMsgId);
      FirstStatus(n, handle, refuse, lastMsgId);
      var out := None;
      for k := 0 to n
        invariant lastMsgId == old(lastMsgId)
        invariant lastStatus == StatusBefore(k, handle, refuse)
        invariant rsp == rs[..k]
        invariant out == if k == n then Some(Layout(rs)) else None
      {
        ReplyAt(n, handle, refuse, lastMsgId, k);
        if lastStatus != 0 {
          out := SendPacket(refuse(k, lastStatus));
        } else {
          out := SendPacket(handle(k));
        }
        assert rs[..k + 1] == rs[..k] + [rs[k]];
        assert k + 1 == n ==> rs[..k + 1] == rs;
      }
      sent := out.value;
    }
  }

  /** A zeroed buffer after `n` replies have been copied in. */
  ghost predicate Written(rs: seq<seq<byte>>, n: nat, buf: seq<byte>)
    requires n <= |rs|
  {
    if n < |rs| then |Front(rs, n)| <= |buf| && buf == Front(rs, n) + Zeros(|buf| - |Front(rs, n)|)
    else buf == Layout(rs)
  }

  lemma WrittenNone(rs: seq<seq<byte>>, buf: seq<byte>)
    requires rs != [] && buf == Zeros(|buf|)
    ensures Front(rs, 0) == [] && Written(rs, 0, buf)
  {}

  lemma WrittenAll(rs: seq<seq<byte>>, buf: seq<byte>)
    requires Written(rs, |rs|, buf)
    ensures buf == Layout(rs)
  {}

  lemma WrittenOneMore(rs: seq<seq<byte>>, i: nat, buf: seq<byte>)
    requires i < |rs| && |buf| == |Layout(rs)| && Written(rs, i, buf)
    ensures |Front(rs, i)| + |rs[i]| <= |buf|
    ensures Written(rs, i + 1, Overlay(buf, |Front(rs, i)|, rs[i]))
    ensures |Front(rs, i + 1)| == |Front(rs, i)| + Align(|rs[i]|, 8)
  {
    hide Layout;
    hide Overlay;
    hide Padded;
    hide Align;
    hide Zeros;
    FrontFits(rs, i);
    CopyIntoZeros(Front(rs, i), rs[i], |buf| - |Front(rs, i)|);
  }

  lemma CopyIntoZeros(front: seq<byte>, p: seq<byte>, room: nat)
    requires |p| <= room
    ensures Overlay(front + Zeros(room), |front|, p) == front + p + Zeros(room - |p|)
    ensures room == |p| ==> Overlay(front + Zeros(room), |front|, p) == front + p
    ensures Align(|p|, 8) <= room ==>
              Overlay(front + Zeros(room), |front|, p) == (front + Padded(p)) + Zeros(room - Align(|p|, 8))
  {}

  lemma FrontFits(rs: seq<seq<byte>>, i: nat)
    requires i < |rs|
    ensures |Front(rs, i)| + |rs[i]| <= |Layout(rs)|
    ensures i < |rs| - 1 ==> |Front(rs, i)| + Align(|rs[i]|, 8) <= |Layout(rs)|
    ensures i == |rs| - 1 ==> Layout(rs) == Front(rs, i) + rs[i]
  {
    LayoutIsFront(rs, i);
    if i == |rs| - 1 {
      assert rs[i..] == [rs[i]];
    } else {
      LayoutIsFront(rs, i + 1);
    }
  }

  function Stamped(r: Reply, first: bool, last: bool): Reply
    requires Align(|r|, 8) < 0x1_0000_0000
  {
    Stamp(r, if first then Flags(r) else OrRelated(Flags(r)), if last then 0 else Align(|r|, 8))
  }

  /** Every reply fits its link, only the replies to the last command have the last message id, and a
      refusal has the status it is given. */
  ghost predicate ReplyIds(n: nat, handle: nat -> Reply, refuse: (nat, u32) -> Reply, lastMsgId: seq<byte>) {
    && (forall k :: 0 <= k < n ==>
          Align(|handle(k)|, 8) < 0x1_0000_0000 && (MessageId(handle(k)) == lastMsgId <==> k == n - 1))
    && (forall k: nat, st: u32 :: k < n ==>
          && Align(|refuse(k, st)|, 8) < 0x1_0000_0000
          && (MessageId(refuse(k, st)) == lastMsgId <==> k == n - 1)
          && Status(refuse(k, st)) == st)
  }

  /** The status the chain carries when command `k` is reached, and the reply to it. */
  function StatusBefore(k: nat, handle: nat -> Reply, refuse: (nat, u32) -> Reply): u32
    decreases k, 0
  {
    if k == 0 then 0 else Status(ChainReply(k - 1, handle, refuse))
  }

  function ChainReply(k: nat, handle: nat -> Reply, refuse: (nat, u32) -> Reply): Reply
    decreases k, 1
  {
    var st := StatusBefore(k, handle, refuse);
    if st != 0 then refuse(k, st) else handle(k)
  }

  ghost function Replies(n: nat, handle: nat -> Reply, refuse: (nat, u32) -> Reply): seq<seq<byte>>
    requires exists lastMsgId :: ReplyIds(n, handle, refuse, lastMsgId)
  {
    seq(n, k requires 0 <= k < n => Stamped(ChainReply(k, handle, refuse), k == 0, k == n - 1))
  }

  lemma FirstStatus(n: nat, handle: nat -> Reply, refuse: (nat, u32) -> Reply, lastMsgId: seq<byte>)
    requires ReplyIds(n, handle, refuse, lastMsgId)
    ensures StatusBefore(0, handle, refuse) == 0 && |Replies(n, handle, refuse)| == n
  {}

  lemma ReplyAt(n: nat, handle: nat -> Reply, refuse: (nat, u32) -> Reply, lastMsgId: seq<byte>, k: nat)
    requires ReplyIds(n, handle, refuse, lastMsgId) && k < n
    ensures |Replies(n, handle, refuse)| == n
    ensures var st := StatusBefore(k, handle, refuse);
            var r := if st != 0 then refuse(k, st) else handle(k);
            && Align(|r|, 8) < 0x1_0000_0000 && StatusBefore(k + 1, handle, refuse) == Status(r)
            && (MessageId(r) == lastMsgId <==> k == n - 1)
            && Replies(n, handle, refuse)[k] == Stamped(r, k == 0, k == n - 1)
  {
    hide Stamped;
  }

  lemma RepliesLink(n: nat, handle: nat -> Reply, refuse: (nat, u32) -> Reply, lastMsgId: seq<byte>)
    requires ReplyIds(n, handle, refuse, lastMsgId)
    ensures Links(Replies(n, handle, refuse))
  {
    forall k | 0 <= k < n
      ensures NextCommand(Replies(n, handle, refuse)[k]) ==
              if k == n - 1 then 0 else Align(|Replies(n, handle, refuse)[k]|, 8)
    {
      var r := ChainReply(k, handle, refuse);
      StampFields(r, if k == 0 then Flags(r) else OrRelated(Flags(r)), if k == n - 1 then 0 else Align(|r|, 8));
    }
  }

  /** From the first failure on, every status is that failure's and no handler's reply is used. */
  lemma {:induction false} FailureIsSticky(f: nat, k: nat, handle: nat -> Reply, refuse: (nat, u32) -> Reply)
    requires f < k && StatusBefore(f, handle, refuse) == 0 && Status(handle(f)) != 0
    requires forall j: nat, st: u32 :: f < j <= k ==> Status(refuse(j, st)) == st
    ensures StatusBefore(k, handle, refuse) == Status(handle(f))
    ensures ChainReply(k, handle, refuse) == refuse(k, Status(handle(f)))
    ensures Status(ChainReply(k, handle, refuse)) == Status(handle(f))
    decreases k
  {
    if f < k - 1 {
      FailureIsSticky(f, k - 1, handle, refuse);
    }
  }

  /** While every handler so far has succeeded, the next one runs. */
  lemma {:induction false} SuccessContinues(k: nat, handle: nat -> Reply, refuse: (nat, u32) -> Reply)
    requires forall j: nat :: j < k ==> Status(handle(j)) == 0
    ensures StatusBefore(k, handle, refuse) == 0 && ChainReply(k, handle, refuse) == handle(k)
  {
    if k > 0 {
      SuccessContinues(k - 1, handle, refuse);
    }
  }

  lemma PieceFields(r: Reply, piece: seq<byte>)
    requires piece == r || piece == Padded(r)
    ensures |piece| >= 64 && piece[..|r|] == r && Status(piece) == Status(r) && MessageId(piece) == MessageId(r)
  {
    assert piece[8..12] == r[8..12] && piece[24..32] == r[24..32];
  }

  /** The first reply keeps its flags; each later one is marked related and keeps the others. */
  predicate FlagsOf(k: nat, was: u32, now: u32) {
    if k == 0 then now == was else now / 4 % 2 == 1 && now / 8 == was / 8 && now % 4 == was % 4
  }

  lemma PieceRest(r: Reply, rs: Reply, piece: seq<byte>)
    requires |rs| == |r| <= |piece| && piece[..|rs|] == rs && rs[..16] == r[..16] && rs[24..] == r[24..]
    ensures piece[..16] == r[..16] && piece[24..|r|] == r[24..] && Flags(piece) == Flags(rs)
  {
    assert piece[..16] == rs[..16] && piece[24..|r|] == rs[24..] && piece[16..20] == rs[16..20];
  }

  /** Walking the reply to a chain finds exactly one reply per command, in order, each with its
      own status and message id, and with nothing but its link and the related flag changed. */
  lemma ChainAnswered(n: nat, handle: nat -> Reply, refuse: (nat, u32) -> Reply, lastMsgId: seq<byte>, k: nat)
    requires ReplyIds(n, handle, refuse, lastMsgId) && k < n
    ensures var rs, r := Replies(n, handle, refuse), ChainReply(k, handle, refuse);
            var w := Walk(Layout(rs));
            && |w| == n && |rs[k]| <= |w[k]| && |w[k]| >= 64
            && w[k][..|rs[k]|] == rs[k]
            && Status(w[k]) == Status(r) && MessageId(w[k]) == MessageId(r)
            && |rs[k]| == |r| && w[k][..16] == r[..16] && w[k][24..|r|] == r[24..]
            && FlagsOf(k, Flags(r), Flags(w[k]))
  {
    hide Walk;
    hide Layout;
    hide Pieces;
    hide Status;
    hide MessageId;
    hide Stamp;
    var rs, r := Replies(n, handle, refuse), ChainReply(k, handle, refuse);
    RepliesLink(n, handle, refuse, lastMsgId);
    WalkRecoversReplies(rs);
    PieceAt(rs, k);
    StampFields(r, if k == 0 then Flags(r) else OrRelated(Flags(r)), if k == n - 1 then 0 else Align(|r|, 8));
    PieceFields(rs[k], Pieces(rs)[k]);
    PieceRest(r, rs[k], Pieces(rs)[k]);
  }

  /** Handlers and refusals answer with the message id of the command they are for. */
  ghost predicate AnswersOwn(qs: seq<seq<byte>>, handle: nat -> Reply, refuse: (nat, u32) -> Reply) {
    && (forall k :: 0 <= k < |qs| ==>
          |qs[k]| >= 64 && Align(|handle(k)|, 8) < 0x1_0000_0000 && MessageId(handle(k)) == MessageId(qs[k]))
    && (forall k: nat, st: u32 :: k < |qs| ==>
          && Align(|refuse(k, st)|, 8) < 0x1_0000_0000
          && MessageId(refuse(k, st)) == MessageId(qs[k])
          && Status(refuse(k, st)) == st)
  }

  lemma OwnIds(qs: seq<seq<byte>>, handle: nat -> Reply, refuse: (nat, u32) -> Reply)
    requires qs != [] && AnswersOwn(qs, handle, refuse)
    requires forall k :: 0 <= k < |qs| - 1 ==> qs[k][24..32] != qs[|qs| - 1][24..32]
    ensures ReplyIds(|qs|, handle, refuse, qs[|qs| - 1][24..32])
  {
    hide Status;
    hide Align;
  }

  /** From packet to packet: a chain whose last message id is its own is split into its commands, and
      piece `k` of the client's walk through the reply has the message id of command `k`. Its status
      is that of the first failure before it, else the handler's. */
  lemma RequestsAnswered(qs: seq<seq<byte>>, handle: nat -> Reply, refuse: (nat, u32) -> Reply, k: nat)
    requires Chain(qs) && AnswersOwn(qs, handle, refuse) && k < |qs|
    requires forall j :: 0 <= j < |qs| - 1 ==> qs[j][24..32] != qs[|qs| - 1][24..32]
    ensures ReplyIds(|qs|, handle, refuse, qs[|qs| - 1][24..32])
    ensures var s, w := SplitFrom(Concat(qs), false), Walk(Layout(Replies(|qs|, handle, refuse)));
            var failed := StatusBefore(k, handle, refuse);
            && s.end.Complete? && |w| == |s.pieces| == |qs| && s.pieces[k] == qs[k] && |w[k]| >= 64
            && MessageId(w[k]) == MessageId(s.pieces[k])
            && Status(w[k]) == if failed != 0 then failed else Status(handle(k))
  {
    hide Walk;
    hide Layout;
    hide SplitFrom;
    hide Replies;
    hide ReplyIds;
    hide Status;
    hide StatusBefore;
    hide Align;
    SplitInvertsChain(qs);
    OwnIds(qs, handle, refuse);
    ChainAnswered(|qs|, handle, refuse, qs[|qs| - 1][24..32], k);
  }

  // ----- Which commands of a packet are answered -----

  /** What the receiver looks at in a command. */
  datatype Command = Command(related: bool, more: bool, id: seq<byte>)

  predicate Opens(c: Command) { !c.related && c.more }
  predicate Closes(c: Command) { c.related && !c.more }

  /** The context command `k` is handled in: that of the last command up to it that opens one. */
  function ContextOf(cs: seq<Command>, k: nat): Option<nat>
    requires k < |cs|
  {
    if Opens(cs[k]) then Some(k) else if k == 0 then None else ContextOf(cs, k - 1)
  }

  /** The message id a context waits for; it stays zero unless the packet's last command closes it. */
  function Awaited(cs: seq<Command>, f: nat): seq<byte>
    requires cs != []
  {
    var n := |cs| - 1;
    if Closes(cs[n]) && ContextOf(cs, n) == Some(f) then cs[n].id else Zeros(8)
  }

  /** The replies kept in the current context, and the packets sent, each by the commands it answers. */
  datatype Served = Served(kept: seq<nat>, sent: seq<seq<nat>>)

  /** Each reply goes out by itself without a context, and is kept in one; the reply to the message
      waited for sends all that are kept. */
  function Serve(cs: seq<Command>, k: nat): Served
    requires k <= |cs|
  {
    if k == 0 then Served([], [])
    else
      var s, c, ctx := Serve(cs, k - 1), cs[k - 1], ContextOf(cs, k - 1);
      if ctx.None? then Served(s.kept, s.sent + [[k - 1]])
      else
        var kept := (if Opens(c) then [] else s.kept) + [k - 1];
        Served(kept, if c.id == Awaited(cs, ctx.value) then s.sent + [kept] else s.sent)
  }

  predicate In(k: nat, sent: seq<seq<nat>>) {
    exists i :: 0 <= i < |sent| && k in sent[i]
  }

  predicate Answered(cs: seq<Command>, k: nat)
    requires k < |cs|
  {
    In(k, Serve(cs, |cs|).sent)
  }

  /** The commands of one packet: only the last has none behind it, no message id is zero and the last
      one's is its own. */
  ghost predicate OnePacket(cs: seq<Command>) {
    && cs != [] && !cs[|cs| - 1].more
    && (forall i :: 0 <= i < |cs| ==> cs[i].id != Zeros(8))
    && (forall i :: 0 <= i < |cs| - 1 ==> cs[i].more && cs[i].id != cs[|cs| - 1].id)
  }

  /** Before the last command only replies without a context have gone out, and the current context
      keeps its own. */
  lemma {:induction false} ServeSoFar(cs: seq<Command>, k: nat, j: nat)
    requires OnePacket(cs) && k < |cs|
    ensures In(j, Serve(cs, k).sent) <==> j < k && ContextOf(cs, j).None?
    ensures j in Serve(cs, k).kept <==>
              j < k && ContextOf(cs, j).Some? && ContextOf(cs, j) == ContextOf(cs, k - 1)
    decreases k
  {
    hide OnePacket;
    if k > 0 {
      ServeSoFar(cs, k - 1, j);
      NotAwaited(cs, k - 1);
      KeptSoFar(cs, k, j);
    }
  }

  /** No message before the last is waited for. */
  lemma NotAwaited(cs: seq<Command>, k: nat)
    requires OnePacket(cs) && k < |cs| - 1
    ensures ContextOf(cs, k).Some? ==> cs[k].id != Awaited(cs, ContextOf(cs, k).value)
  {
    hide ContextOf;
  }

  lemma KeptSoFar(cs: seq<Command>, k: nat, j: nat)
    requires 0 < k <= |cs|
    requires ContextOf(cs, k - 1).Some? ==> cs[k - 1].id != Awaited(cs, ContextOf(cs, k - 1).value)
    requires In(j, Serve(cs, k - 1).sent) <==> j < k - 1 && ContextOf(cs, j).None?
    requires j in Serve(cs, k - 1).kept <==>
               j < k - 1 && ContextOf(cs, j).Some? && ContextOf(cs, j) == ContextOf(cs, k - 2)
    ensures In(j, Serve(cs, k).sent) <==> j < k && ContextOf(cs, j).None?
    ensures j in Serve(cs, k).kept <==>
              j < k && ContextOf(cs, j).Some? && ContextOf(cs, j) == ContextOf(cs, k - 1)
  {
    hide In;
    hide Awaited;
    var s, ctx := Serve(cs, k - 1), ContextOf(cs, k - 1);
    if ctx.None? {
      SentOneMore(s.sent, [k - 1], j);
      if j < k {
        NoneBefore(cs, j, k - 1);
      }
    } else if j < k - 1 {
      ContextBound(cs, j);
    }
  }

  lemma SentOneMore(sent: seq<seq<nat>>, more: seq<nat>, j: nat)
    ensures In(j, sent + [more]) <==> In(j, sent) || j in more
  {
    var all := sent + [more];
    if j in more {
      assert j in all[|sent|];
    }
    if In(j, sent) {
      var i :| 0 <= i < |sent| && j in sent[i];
      assert j in all[i];
    }
  }

  lemma {:induction false} NoneBefore(cs: seq<Command>, j: nat, k: nat)
    requires j <= k < |cs| && ContextOf(cs, k).None?
    ensures ContextOf(cs, j).None?
    decreases k
  {
    if j < k {
      NoneBefore(cs, j, k - 1);
    }
  }

  lemma {:induction false} ContextBound(cs: seq<Command>, k: nat)
    requires k < |cs|
    ensures ContextOf(cs, k).Some? ==> ContextOf(cs, k).value <= k
  {
    if k > 0 {
      ContextBound(cs, k - 1);
    }
  }

  /** A command of a packet is answered exactly when it has no context, or shares the one that the
      packet's last command closes. */
  lemma AnsweredIff(cs: seq<Command>, k: nat)
    requires OnePacket(cs) && k < |cs|
    ensures var n := |cs| - 1;
            Answered(cs, k) <==>
              ContextOf(cs, k).None? || (cs[n].related && ContextOf(cs, k) == ContextOf(cs, n))
  {
    hide In;
    var n := |cs| - 1;
    ServeSoFar(cs, n, k);
    ContextBound(cs, k);
    var s := Serve(cs, n);
    SentOneMore(s.sent, [n], k);
    SentOneMore(s.sent, s.kept + [n], k);
    if ContextOf(cs, n).None? {
      NoneBefore(cs, k, n);
    }
  }

  /** The message id of the command at the front; an SMB1 negotiate counts as the last id there is,
      unless too little of it is cut off to tell. */
  function IdAt(p: seq<byte>): seq<byte>
    requires !IsInvalid(p) && !Overread(p)
  {
    if IsSmb1(p) && !(0 < NextCommand(p) < 4) then seq(8, _ => 0xFF) else p[24..32]
  }

  function Commands(p: seq<byte>): seq<Command>
    decreases |p|
  {
    if IsInvalid(p) || Overread(p) then []
    else
      [Command(IsRelated(p), NextCommand(p) != 0, IdAt(p))] +
      if NextCommand(p) == 0 then [] else Commands(p[NextCommand(p)..])
  }

  /** A packet that splits completely has one command for each piece, and only the last has none
      behind it. */
  lemma {:induction false} CompletePacket(p: seq<byte>, inChain: bool)
    requires SplitFrom(p, inChain).end.Complete?
    ensures var cs := Commands(p);
            && |cs| == |SplitFrom(p, inChain).pieces| > 0 && !cs[|cs| - 1].more
            && forall i :: 0 <= i < |cs| - 1 ==> cs[i].more
    decreases |p|
  {
    hide IsInvalid;
    hide NextCommand;
    hide IsRelated;
    hide IdAt;
    if NextCommand(p) != 0 {
      var next := p[NextCommand(p)..];
      CompletePacket(next, inChain || IsCompoundFirst(p));
      assert Commands(p)[1..] == Commands(next);
    }
  }

  /** Two commands linked in one packet, neither related: the receiver takes both, and answers
      neither. */
  lemma UnrelatedPairUnanswered(q: seq<byte>, r: seq<byte>)
    requires ChainLink(q, true, false) && ChainLink(r, true, true)
    requires q[24..32] != Zeros(8) && r[24..32] != Zeros(8) && q[24..32] != r[24..32]
    ensures SplitFrom(q + r, false) == Split([q, r], Complete, [])
    ensures Commands(q + r) == [Command(false, true, q[24..32]), Command(false, false, r[24..32])]
    ensures !Answered(Commands(q + r), 0) && !Answered(Commands(q + r), 1)
  {
    var p := q + r;
    LinkInConcat(q, r, true, false);
    LinkInConcat(r, [], true, true);
    assert r + [] == r;
    assert p[|q|..] == r && p[..|q|] == q && p[24..32] == q[24..32];
    Smb2IsWhole(p);
    Smb2IsWhole(r);
    PairCommands(p, q, r);
    var cs := Commands(p);
    assert OnePacket(cs);
    assert ContextOf(cs, 0) == Some(0) && ContextOf(cs, 1) == Some(0);
    AnsweredIff(cs, 0);
    AnsweredIff(cs, 1);
  }

  lemma PairCommands(p: seq<byte>, q: seq<byte>, r: seq<byte>)
    requires p == q + r && ChainLink(q, true, false) && ChainLink(r, true, true)
    requires !IsInvalid(p) && !Overread(p) && NextCommand(p) == |q| && !IsRelated(p) && !IsSmb1(p)
    requires !IsInvalid(r) && !Overread(r) && p[|q|..] == r && p[24..32] == q[24..32]
    ensures Commands(p) == [Command(false, true, q[24..32]), Command(false, false, r[24..32])]
    ensures SplitFrom(p, false) == Split([q, r], Complete, [])
  {
    hide IsInvalid;
    hide NextCommand;
    hide IsRelated;
    assert !IsSmb1(r);
    assert Commands(r) == [Command(false, false, r[24..32])];
    assert SplitFrom(r, true) == Split([r], Complete, []);
    assert p[..|q|] == q;
  }
}
