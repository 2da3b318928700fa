/**
 NTLM target information: a list of attribute-value pairs, written one after another at a moving
 offset and read back into a table.
 */
module AvPairs {
  import opened Bytes
  import opened Wrappers
  import opened Buffers

  /** The length field is two bytes. */
  datatype RawPair = Pair(id: u16, value: seq<byte>)
  type Pair = p: RawPair | |p.value| < 0x1_0000 witness Pair(0, [])

  type Table = map<u16, seq<byte>>

  function PairBytes(p: Pair): (b: seq<byte>)
    ensures |b| == 4 + |p.value|
  {
    PutLE16(p.id) + PutLE16(|p.value|) + p.value
  }

  function InfoBytes(ps: seq<Pair>): seq<byte> {
    if ps == [] then [] else PairBytes(ps[0]) + InfoBytes(ps[1..])
  }

  /** A later pair overrides an earlier one of the same id. */
  function Collect(ps: seq<Pair>): Table {
    if ps == [] then map[] else Collect(ps[..|ps| - 1])[ps[|ps| - 1].id := ps[|ps| - 1].value]
  }

  lemma {:induction false} InfoSnoc(ps: seq<Pair>, i: nat)
    requires i < |ps|
    ensures InfoBytes(ps[..i + 1]) == InfoBytes(ps[..i]) + PairBytes(ps[i])
    ensures |InfoBytes(ps[..i + 1])| <= |InfoBytes(ps)|
  {
    hide PairBytes;
    if i == 0 {
      assert ps[..1][1..] == [] && ps[..0] == [];
    } else {
      InfoSnoc(ps[1..], i - 1);
      assert ps[..i + 1][1..] == ps[1..][..i] && ps[..i][1..] == ps[1..][..i - 1];
    }
  }

  /** The block's `Encode`, into a buffer of its `Size`. */
  method Encode(ps: seq<Pair>, dst: array<byte>)
    requires dst.Length == |InfoBytes(ps)|
    modifies dst
    ensures dst[..] == InfoBytes(ps)
  {
    hide Overlay;
    hide InfoBytes;
    ghost var was := dst[..];
    var off := 0;
    Empty(ps);
    OverlayNothing(was, 0);
    for i := 0 to |ps|
      invariant off == |InfoBytes(ps[..i])| <= dst.Length
      invariant dst[..] == Overlay(was, 0, InfoBytes(ps[..i]))
    {
      InfoSnoc(ps, i);
      EncodePair(ps[i], dst, off);
      OverlayJoin(was, 0, InfoBytes(ps[..i]), PairBytes(ps[i]));
      off := off + 4 + |ps[i].value|;
    }
    assert ps[..|ps|] == ps;
    OverlayAll(was, InfoBytes(ps));
  }

  lemma Empty(ps: seq<Pair>)
    ensures InfoBytes(ps[..0]) == []
  {}

  method EncodePair(p: Pair, dst: array<byte>, off: nat)
    requires off + 4 + |p.value| <= dst.Length
    modifies dst
    ensures dst[..] == Overlay(old(dst[..]), off, PairBytes(p))
  {
    hide Overlay;
    ghost var was := dst[..];
    Copy(dst, off, PutLE16(p.id));
    OverlayJoin(was, off, PutLE16(p.id), PutLE16(|p.value|));
    Copy(dst, off + 2, PutLE16(|p.value|));
    OverlayJoin(was, off, PutLE16(p.id) + PutLE16(|p.value|), p.value);
    Copy(dst, off + 4, p.value);
  }

  // ----- Parsing -----

  /** The pairs laid end to end in `b`, if it is nothing else. */
  function Split(b: seq<byte>): Option<seq<Pair>> {
    if b == [] then Some([])
    else if |b| < 4 || |b| < 4 + GetLE16(b[2..4]) as int then None
    else
      var n := 4 + GetLE16(b[2..4]) as int;
      match Split(b[n..])
      case None => None
      case Some(more) => Some([Pair(GetLE16(b[..2]), b[4..n])] + more)
  }

  predicate EndsInZeros(b: seq<byte>) {
    |b| >= 4 && b[|b| - 4..] == Zeros(4)
  }

  function Parse(b: seq<byte>): Option<Table> {
    if !EndsInZeros(b) || Split(b).None? then None else Some(Collect(Split(b).value))
  }

  method ParseAvPairs(b: seq<byte>) returns (r: Option<Table>)
    ensures r == Parse(b)
  {
    hide Split;
    hide Whole;
    hide Collect;
    var ends := CheckEol(b);
    if !ends {
      return None;
    }
    var rest, pairs: Table := b, map[];
    ghost var seen: seq<Pair> := [];
    StartSplit(b);
    while |rest| > 0
      invariant pairs == Collect(seen)
      invariant Split(b) == Whole(seen, rest)
    {
      if |rest| < 4 {
        SplitShort(seen, rest);
        return None;
      }
      var id, n := GetLE16(rest[..2]), GetLE16(rest[2..4]) as int;
      if |rest| < 4 + n {
        SplitShort(seen, rest);
        return None;
      }
      SplitOne(seen, rest);
      CollectSnoc(seen, Pair(id, rest[4..4 + n]));
      pairs := pairs[id := rest[4..4 + n]];
      seen := seen + [Pair(id, rest[4..4 + n])];
      rest := rest[4 + n..];
    }
    SplitEnd(seen, rest);
    return Some(pairs);
  }

  /** The pairs of a block whose first ones are known. */
  function Whole(seen: seq<Pair>, rest: seq<byte>): Option<seq<Pair>> {
    if Split(rest).None? then None else Some(seen + Split(rest).value)
  }

  lemma StartSplit(b: seq<byte>)
    ensures Split(b) == Whole([], b) && Collect([]) == map[]
  {
    hide Split;
    if Split(b).Some? {
      assert [] + Split(b).value == Split(b).value;
    }
  }

  lemma SplitShort(seen: seq<Pair>, rest: seq<byte>)
    requires 0 < |rest| && (|rest| < 4 || |rest| < 4 + GetLE16(rest[2..4]) as int)
    ensures Whole(seen, rest).None?
  {}

  lemma SplitOne(seen: seq<Pair>, rest: seq<byte>)
    requires |rest| >= 4 && |rest| >= 4 + GetLE16(rest[2..4]) as int
    ensures var n := 4 + GetLE16(rest[2..4]) as int;
            Whole(seen, rest) == Whole(seen + [Pair(GetLE16(rest[..2]), rest[4..n])], rest[n..])
  {
    hide GetLE16;
    hide Split;
    SplitUnfold(rest);
    var n := 4 + GetLE16(rest[2..4]) as int;
    var p: Pair := Pair(GetLE16(rest[..2]), rest[4..n]);
    var more := Split(rest[n..]);
    if more.Some? {
      assert seen + ([p] + more.value) == seen + [p] + more.value;
    }
  }

  lemma SplitUnfold(b: seq<byte>)
    requires |b| >= 4 && |b| >= 4 + GetLE16(b[2..4]) as int
    ensures var n := 4 + GetLE16(b[2..4]) as int;
            Split(b) == if Split(b[n..]).None? then None
                        else Some([Pair(GetLE16(b[..2]), b[4..n])] + Split(b[n..]).value)
  {
    hide GetLE16;
  }

  lemma SplitEnd(seen: seq<Pair>, rest: seq<byte>)
    requires |rest| == 0
    ensures Whole(seen, rest) == Some(seen)
  {
    assert seen + [] == seen;
  }

  lemma CollectSnoc(seen: seq<Pair>, p: Pair)
    ensures Collect(seen + [p]) == Collect(seen)[p.id := p.value]
  {
    assert (seen + [p])[..|seen|] == seen;
  }

  method CheckEol(b: seq<byte>) returns (ends: bool)
    ensures ends == EndsInZeros(b)
  {
    if |b| < 4 {
      return false;
    }
    for i := |b| - 4 to |b|
      invariant forall k :: |b| - 4 <= k < i ==> b[k] == 0
    {
      if b[i] != 0 {
        assert b[i] == b[|b| - 4..][i - (|b| - 4)];
        return false;
      }
    }
    return true;
  }

  // ----- The two are inverse -----

  lemma {:induction false} SplitInverts(ps: seq<Pair>)
    ensures Split(InfoBytes(ps)) == Some(ps)
  {
    if ps != [] {
      var b, p := InfoBytes(ps), ps[0];
      assert b[..2] == PutLE16(p.id) && b[2..4] == PutLE16(|p.value|);
      LE16RoundTrip(p.id);
      LE16RoundTrip(|p.value|);
      assert b[4..4 + |p.value|] == p.value && b[4 + |p.value|..] == InfoBytes(ps[1..]);
      SplitInverts(ps[1..]);
      assert [p] + ps[1..] == ps;
    }
  }

  lemma PutGetLE16(b: seq<byte>)
    requires |b| == 2
    ensures PutLE16(GetLE16(b)) == b
  {}

  lemma FirstPair(b: seq<byte>)
    requires |b| >= 4 && |b| >= 4 + GetLE16(b[2..4]) as int
    ensures var n := 4 + GetLE16(b[2..4]) as int;
            PairBytes(Pair(GetLE16(b[..2]), b[4..n])) == b[..n]
  {
    PutGetLE16(b[..2]);
    PutGetLE16(b[2..4]);
  }

  lemma {:induction false} SplitSound(b: seq<byte>)
    requires Split(b).Some?
    ensures InfoBytes(Split(b).value) == b
  {
    hide PairBytes;
    hide GetLE16;
    if b != [] {
      var n := 4 + GetLE16(b[2..4]) as int;
      SplitSound(b[n..]);
      FirstPair(b);
      var ps := Split(b).value;
      assert ps[1..] == Split(b[n..]).value;
      assert b == b[..n] + b[n..];
    }
  }

  /** What is accepted: exactly the blocks that are a list of pairs and end in four zero bytes, and
      the table is that list's. */
  lemma ParseAccepts(b: seq<byte>, t: Table)
    ensures Parse(b) == Some(t) <==>
            EndsInZeros(b) && exists ps: seq<Pair> :: InfoBytes(ps) == b && Collect(ps) == t
  {
    if Parse(b) == Some(t) {
      SplitSound(b);
      assert InfoBytes(Split(b).value) == b && Collect(Split(b).value) == t;
    }
    if ps: seq<Pair> :| InfoBytes(ps) == b && Collect(ps) == t {
      SplitInverts(ps);
    }
  }

  /** A terminated list round-trips, whatever values precede the terminator. */
  lemma TerminatedRoundTrip(ps: seq<Pair>)
    requires ps != [] && ps[|ps| - 1] == Pair(0, [])
    ensures Parse(InfoBytes(ps)) == Some(Collect(ps))
  {
    hide InfoBytes;
    hide Split;
    hide Collect;
    SplitInverts(ps);
    InfoSnoc(ps, |ps| - 1);
    assert ps[..|ps|] == ps;
    TerminatorIsZeros(InfoBytes(ps[..|ps| - 1]));
  }

  lemma TerminatorIsZeros(front: seq<byte>)
    ensures EndsInZeros(front + PairBytes(Pair(0, [])))
  {
    assert PairBytes(Pair(0, [])) == Zeros(4);
  }

  /** With no id used twice, the table holds every pair and nothing else. */
  /** Whatever ids repeat, the table holds for each the value of its last pair. */
  lemma {:induction false} LastPairWins(ps: seq<Pair>, i: nat)
    requires i < |ps| && forall j :: i < j < |ps| ==> ps[j].id != ps[i].id
    ensures ps[i].id in Collect(ps) && Collect(ps)[ps[i].id] == ps[i].value
  {
    if i < |ps| - 1 {
      LastPairWins(ps[..|ps| - 1], i);
    }
  }

  lemma {:induction false} CollectHolds(ps: seq<Pair>)
    requires forall i, j :: 0 <= i < j < |ps| ==> ps[i].id != ps[j].id
    ensures forall i :: 0 <= i < |ps| ==> ps[i].id in Collect(ps) && Collect(ps)[ps[i].id] == ps[i].value
    ensures forall k :: k in Collect(ps) ==> exists i :: 0 <= i < |ps| && ps[i].id == k
  {
    if ps != [] {
      var init := ps[..|ps| - 1];
      CollectHolds(init);
      forall k | k in Collect(ps)
        ensures exists i :: 0 <= i < |ps| && ps[i].id == k
      {
        if k == ps[|ps| - 1].id {
          assert ps[|ps| - 1].id == k;
        } else {
          assert k in Collect(init);
          var i :| 0 <= i < |init| && init[i].id == k;
          assert ps[i].id == k;
        }
      }
    }
  }
}
