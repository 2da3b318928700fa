/**
 Positional writes to one file's bytes: what a list of overlapping writes leaves behind, and
 why running the list again over any torn remainder of itself ends in the same bytes.
 */
module Writes {
  import opened Bytes

  datatype Write = Write(offset: nat, data: seq<byte>)

  /** One `WriteAt`: a gap before `offset` reads as zeros, and an empty write changes nothing,
      not even the length. */
  function WriteAt(b: seq<byte>, w: Write): (r: seq<byte>)
  {
    if w.data == [] then b
    else
      var padded := if |b| < w.offset then b + Zeros(w.offset - |b|) else b;
      padded[..w.offset] + w.data +
      (if w.offset + |w.data| < |b| then b[w.offset + |w.data|..] else [])
  }

  /** Writes applied in list order. */
  function WriteList(b: seq<byte>, ws: seq<Write>): seq<byte>
  {
    if ws == [] then b else WriteAt(WriteList(b, ws[..|ws| - 1]), ws[|ws| - 1])
  }

  predicate Covers(w: Write, x: nat) {
    w.offset <= x < w.offset + |w.data|
  }

  predicate Covered(ws: seq<Write>, x: nat) {
    exists k :: 0 <= k < |ws| && Covers(ws[k], x)
  }

  /** The byte the last covering write puts at `x`. */
  function Latest(ws: seq<Write>, x: nat): byte
    requires Covered(ws, x)
  {
    var last := ws[|ws| - 1];
    if Covers(last, x) then last.data[x - last.offset]
    else CoveredInit(ws, x); Latest(ws[..|ws| - 1], x)
  }

  lemma CoveredInit(ws: seq<Write>, x: nat)
    requires Covered(ws, x) && !Covers(ws[|ws| - 1], x)
    ensures Covered(ws[..|ws| - 1], x)
  {
    var k :| 0 <= k < |ws| && Covers(ws[k], x);
    assert ws[..|ws| - 1][k] == ws[k];
  }

  /** One past the last byte any write reaches; empty writes reach nothing. */
  function Extent(ws: seq<Write>): nat
  {
    if ws == [] then 0
    else
      var last := ws[|ws| - 1];
      Max(Extent(ws[..|ws| - 1]), if last.data == [] then 0 else last.offset + |last.data|)
  }

  function ByteOr0(b: seq<byte>, x: nat): byte {
    if x < |b| then b[x] else 0
  }

  lemma WriteAtBytes(b: seq<byte>, w: Write, x: nat)
    ensures |WriteAt(b, w)| == Max(|b|, if w.data == [] then 0 else w.offset + |w.data|)
    ensures x < |WriteAt(b, w)| ==>
              WriteAt(b, w)[x] == if Covers(w, x) then w.data[x - w.offset] else ByteOr0(b, x)
  {}

  /** The closed form: the length is the old length or the writes' extent, whichever is larger;
      a covered byte holds what the last covering write put there; an uncovered one is
      untouched, or zero past the old end. */
  lemma {:induction false} WriteListBytes(b: seq<byte>, ws: seq<Write>, x: nat)
    ensures |WriteList(b, ws)| == Max(|b|, Extent(ws))
    ensures x < |WriteList(b, ws)| ==>
              WriteList(b, ws)[x] == if Covered(ws, x) then Latest(ws, x) else ByteOr0(b, x)
  {
    if ws != [] {
      var init, last := ws[..|ws| - 1], ws[|ws| - 1];
      WriteListBytes(b, init, x);
      WriteAtBytes(WriteList(b, init), last, x);
      if Covers(last, x) {
        assert Covered(ws, x);
      } else if Covered(init, x) {
        var k :| 0 <= k < |init| && Covers(init[k], x);
        assert Covers(ws[k], x);
        CoveredExtent(init, x);
      } else if Covered(ws, x) {
        CoveredInit(ws, x);
      }
    }
  }

  lemma {:induction false} CoveredExtent(ws: seq<Write>, x: nat)
    requires Covered(ws, x)
    ensures x < Extent(ws)
  {
    if !Covers(ws[|ws| - 1], x) {
      CoveredInit(ws, x);
      CoveredExtent(ws[..|ws| - 1], x);
    }
  }

  /** `t` is a state a crash may leave while `ws` runs over `b`: the writes may have landed in
      any order, in any subset and in any part, so covered bytes are arbitrary; uncovered bytes
      are as they were, or zero where the file has grown, and it has not grown past its final
      length. */
  ghost predicate Torn(b: seq<byte>, ws: seq<Write>, t: seq<byte>) {
    && |b| <= |t| <= Max(|b|, Extent(ws))
    && forall x: nat :: x < |t| && !Covered(ws, x) ==> t[x] == ByteOr0(b, x)
  }

  /** Replaying the whole list over a torn state gives what the list gives from the start. */
  lemma AbsorbTorn(b: seq<byte>, ws: seq<Write>, t: seq<byte>)
    requires Torn(b, ws, t)
    ensures WriteList(t, ws) == WriteList(b, ws)
  {
    var r, s := WriteList(t, ws), WriteList(b, ws);
    WriteListBytes(t, ws, 0);
    WriteListBytes(b, ws, 0);
    forall x | 0 <= x < |r|
      ensures r[x] == s[x]
    {
      WriteListBytes(t, ws, x);
      WriteListBytes(b, ws, x);
    }
  }

  lemma {:induction false} ExtentBound(ws: seq<Write>, k: nat)
    requires k < |ws| && ws[k].data != []
    ensures ws[k].offset + |ws[k].data| <= Extent(ws)
  {
    if k < |ws| - 1 {
      ExtentBound(ws[..|ws| - 1], k);
    }
  }

  /** One more write of the list landing on a torn state leaves a torn state. */
  lemma TornStep(b: seq<byte>, ws: seq<Write>, t: seq<byte>, k: nat)
    requires Torn(b, ws, t) && k < |ws|
    ensures Torn(b, ws, WriteAt(t, ws[k]))
  {
    var w := ws[k];
    WriteAtBytes(t, w, 0);
    if w.data != [] {
      ExtentBound(ws, k);
    }
    forall x: nat | x < |WriteAt(t, w)| && !Covered(ws, x)
      ensures WriteAt(t, w)[x] == ByteOr0(b, x)
    {
      WriteAtBytes(t, w, x);
      assert !Covers(ws[k], x);
    }
  }

  /** Any selection of the list's writes, in any order and with any repetition, leaves a torn
      state: prefixes, subsets and reorderings are all covered. */
  lemma {:induction false} AnySelectionIsTorn(b: seq<byte>, ws: seq<Write>, landed: seq<Write>)
    requires forall w :: w in landed ==> w in ws
    ensures Torn(b, ws, WriteList(b, landed))
  {
    if landed != [] {
      var init := landed[..|landed| - 1];
      AnySelectionIsTorn(b, ws, init);
      assert landed[|landed| - 1] in ws;
      var k :| 0 <= k < |ws| && ws[k] == landed[|landed| - 1];
      TornStep(b, ws, WriteList(b, init), k);
    }
  }

  /** Crash, replay in part, crash again: torn states of torn states are torn. */
  lemma TornTransitive(b: seq<byte>, ws: seq<Write>, t: seq<byte>, u: seq<byte>)
    requires Torn(b, ws, t) && Torn(t, ws, u)
    ensures Torn(b, ws, u)
  {}
}
