/**
 Batches that overlap the receipt. The backend admits a batch that begins at or below the
 receipt's last number and applies it from its first operation, so operations already
 acknowledged take effect a second time. That does no harm when they keep names, and may when one
 of them moves, removes or replaces one.
 */
module Overlap {
  import opened Bytes
  import opened Wrappers
  import opened Share
  import opened Journal
  import opened Package
  import opened Recovery
  import opened Backend
  import opened Replay

  /** Nothing the backend checks keeps an overlapping batch from starting over. */
  lemma OverlapStartsOver(cfg: Config, s: Store, ready: string, b: Batch, hash: seq<byte>)
    requires cfg.receiptFile(b.relayId) in s.receipts && ready !in s.progress
    requires var prev := s.receipts[cfg.receiptFile(b.relayId)];
             && prev.protocol == PROTOCOL && prev.relayId == b.relayId
             && b.firstSeq <= prev.lastSeq < b.lastSeq
    ensures AdmitBatch(cfg, s, ready, b, hash) == Resume(b, hash, 0)
  {}

  const X: Path := ["x"]
  const Y: Path := ["y"]
  const BEFORE: Tree := map[[] := Dir(NewAttrs(0)), X := File([1], NewAttrs(0))]
  const AFTER: Tree := map[[] := Dir(NewAttrs(0)), X := File([], NewAttrs(0)), Y := File([1], NewAttrs(0))]

  const EMPTIED: Tree := map[[] := Dir(NewAttrs(0)), X := File([], NewAttrs(0)), Y := File([], NewAttrs(0))]

  const RENAME := Operation(1, OpRename, "x", "y", "", 0, 0, 0, 0, 0, [])
  const CREATE := Operation(2, OpCreate, "x", "", "", 0, 0, 0, 0, 0, [])
  const HEAD := [RENAME, CREATE]

  lemma Moved(t: Tree)
    requires t.Keys <= {[], X, Y} && IsDir(t, []) && IsFile(t, X) && (Y in t ==> t[Y].File?)
    ensures OsRename(t, X, Y) == Some(map[[] := t[[]], Y := t[X]])
  {
    hide Move;
    assert Parent(X) == [] && Parent(Y) == [];
    assert X[0] != Y[0];
    var m := Move(t, X, Y);
    MoveKeys(t, X, Y, X);
    MoveKeys(t, X, Y, []);
    forall q | q in m
      ensures q == [] || q == Y
    {
      OnlyMoved(t, q);
    }
    assert m.Keys == {[], Y};
    assert m == map[[] := t[[]], Y := t[X]];
  }

  lemma OnlyMoved(t: Tree, q: Path)
    requires t.Keys <= {[], X, Y} && X in t && q in Move(t, X, Y)
    ensures q == [] || q == Y
  {
    hide Move;
    assert X[0] != Y[0];
    MoveKeys(t, X, Y, q);
    if Under(Y, q) {
      var r := X + q[|Y|..];
      assert r[0] == X[0];
      assert |r| == |X|;
    }
  }

  /** The two operations move x to y and make a new x, whatever comes behind them. */
  lemma MoveAndMake(h: Host, ops: seq<Operation>, t: Tree)
    requires h.resolve("x") == Some(X) && h.resolve("y") == Some(Y)
    requires HEAD <= ops && t.Keys <= {[], X, Y} && IsDir(t, []) && IsFile(t, X) && (Y in t ==> t[Y].File?)
    ensures Sequential(h, ops, 0, t) ==
            Sequential(h, ops, 2, map[[] := t[[]], Y := t[X], X := File([], NewAttrs(0))])
  {
    hide OsRename;
    assert ops[0] == RENAME && ops[1] == CREATE;
    Moved(t);
    var moved := map[[] := t[[]], Y := t[X]];
    assert Step(h, ops, 0, t) == Some(moved);
    assert X != Y by { assert X[0] != Y[0]; }
    assert Parent(X) == [];
    assert Step(h, ops, 1, moved) == Some(moved[X := File([], NewAttrs(0))]);
    assert moved[X := File([], NewAttrs(0))] == map[[] := t[[]], Y := t[X], X := File([], NewAttrs(0))];
  }

  /** A file is moved away and a new one made in its place; when the two operations arrive again at
      the head of a longer batch, the new file replaces the moved one and its bytes are gone. */
  lemma RenameDiverges(h: Host, more: seq<Operation>)
    requires h.resolve("x") == Some(X) && h.resolve("y") == Some(Y)
    ensures Sequential(h, HEAD, 0, BEFORE) == Some(AFTER)
    ensures Sequential(h, HEAD + more, 0, BEFORE) == Sequential(h, HEAD + more, 2, AFTER)
    ensures Sequential(h, HEAD + more, 0, AFTER) == Sequential(h, HEAD + more, 2, EMPTIED)
    ensures AFTER[Y] != EMPTIED[Y]
  {
    hide Step;
    assert X != Y by { assert X[0] != Y[0]; }
    MoveAndMake(h, HEAD, BEFORE);
    MoveAndMake(h, HEAD + more, BEFORE);
    MoveAndMake(h, HEAD + more, AFTER);
    assert AFTER == map[[] := BEFORE[[]], Y := BEFORE[X], X := File([], NewAttrs(0))];
    assert EMPTIED == map[[] := AFTER[[]], Y := AFTER[X], X := File([], NewAttrs(0))];
  }

  const CUT := Operation(1, OpTruncate, "x", "", "", 0, 0, 0, 0, 0, [])
  const DROP := Operation(2, OpRemove, "x", "", "", 0, 0, 0, 0, 0, [])
  const LINK := Operation(2, OpSymlink, "x", "y", "", 0, 0, 0, 0, 0, [])

  /** Nor may a name be removed: what came before the removal cannot be done again. */
  lemma RemoveDiverges(h: Host, more: seq<Operation>)
    requires h.resolve("x") == Some(X)
    ensures Sequential(h, [CUT, DROP], 0, BEFORE) == Some(map[[] := Dir(NewAttrs(0))])
    ensures Sequential(h, [CUT, DROP] + more, 0, map[[] := Dir(NewAttrs(0))]) == None
  {
    var ops := [CUT, DROP];
    assert Parent(X) == [];
    var cut := BEFORE[X := File([], NewAttrs(0))];
    assert Step(h, ops, 0, BEFORE) == Some(cut);
    assert Step(h, ops, 1, cut) == Some(cut - {X});
    assert cut - {X} == map[[] := Dir(NewAttrs(0))];
    assert Sequential(h, ops, 1, cut) == Some(cut - {X});
    assert ([CUT, DROP] + more)[0] == CUT;
  }

  /** Nor replaced by a link. */
  lemma SymlinkDiverges(h: Host, more: seq<Operation>)
    requires h.resolve("x") == Some(X)
    ensures Sequential(h, [CUT, LINK], 0, BEFORE) == Some(map[[] := Dir(NewAttrs(0)), X := Link("y")])
    ensures Sequential(h, [CUT, LINK] + more, 0, map[[] := Dir(NewAttrs(0)), X := Link("y")]) == None
  {
    var ops := [CUT, LINK];
    assert Parent(X) == [];
    var cut := BEFORE[X := File([], NewAttrs(0))];
    assert Step(h, ops, 0, BEFORE) == Some(cut);
    assert Removable(cut, X);
    assert Cleared(cut, X) == map[[] := Dir(NewAttrs(0))];
    assert Step(h, ops, 1, cut) == Some(map[[] := Dir(NewAttrs(0)), X := Link("y")]);
    assert Sequential(h, ops, 1, cut) == Some(map[[] := Dir(NewAttrs(0)), X := Link("y")]);
    assert ([CUT, LINK] + more)[0] == CUT;
  }

  /** When the acknowledged operations at its head keep names, an overlapping batch ends where its
      new operations alone lead. */
  lemma OverlapConverges(cfg: Config, s: Store, ready: string, b: Batch, hash: seq<byte>, n: nat, t: Tree)
    requires n <= |b.operations| && AllKeepNames(b.operations[..n])
    requires Sequential(cfg.host, b.operations[..n], 0, t) == Some(s.share)
    requires AdmitBatch(cfg, s, ready, b, hash) == Resume(b, hash, 0)
    ensures Sequential(cfg.host, b.operations, 0, s.share) == Sequential(cfg.host, b.operations, n, s.share)
    ensures RunUnits(cfg.host, b.operations, 0, s.share) == Sequential(cfg.host, b.operations, n, s.share)
  {
    hide AdmitBatch;
    hide Sequential;
    hide RunUnits;
    assert b.operations[..n] + b.operations[n..] == b.operations;
    ReplayConverges(cfg.host, b.operations[..n], b.operations[n..], t, s.share);
    UnitsMeanSequential(cfg.host, b.operations, 0, s.share);
  }

  // ----- The counterexample, as the backend runs it -----

  const AGAIN := CREATE.(seqNo := 3)
  const FIRST := Batch("r", "1", 1, 2, HEAD)
  const SECOND := Batch("r", "2", 1, 3, [RENAME, CREATE, AGAIN])

  ghost predicate Encodable(cfg: Config, b: Batch) {
    && ValidCodec(cfg.codec) && cfg.maxBatchBytes <= 0
    && |Payload(b.operations)| < TWO_TO_THE_63 && |cfg.codec.marshal(ManifestOf(b))| < 0x1_0000_0000
    && cfg.codec.unmarshal(cfg.codec.marshal(ManifestOf(b))) == Some(ManifestOf(b))
  }

  lemma BothValid()
    ensures ValidBatch(FIRST) && ValidBatch(SECOND)
  {}

  lemma FreshBatchStarts(cfg: Config, s: Store, ready: string, b: Batch)
    requires Encodable(cfg, b) && ValidBatch(b) && ready !in s.progress
    requires ready in s.inbox && s.inbox[ready] == Layout(cfg.codec, b)
    requires cfg.receiptFile(b.relayId) in s.receipts ==>
               var prev := s.receipts[cfg.receiptFile(b.relayId)];
               && prev.protocol == PROTOCOL && prev.relayId == b.relayId
               && b.firstSeq <= prev.lastSeq < b.lastSeq
    ensures var a := Admit(cfg, s, ready); a.Resume? && a.batch == b && a.next == 0
  {
    hide Layout;
    hide Decode;
    hide ValidBatch;
    RoundTrip(cfg.codec, b, cfg.spare(Layout(cfg.codec, b)));
  }

  lemma CreateAgain(h: Host, t: Tree)
    requires h.resolve("x") == Some(X) && IsDir(t, []) && IsFile(t, X)
    ensures Sequential(h, SECOND.operations, 2, t) == Some(t)
  {
    assert Parent(X) == [];
    assert Step(h, SECOND.operations, 2, t) == Some(t);
  }

  lemma SecondMeans(h: Host)
    requires h.resolve("x") == Some(X) && h.resolve("y") == Some(Y)
    ensures Sequential(h, FIRST.operations, 0, BEFORE) == Some(AFTER)
    ensures Sequential(h, SECOND.operations, 0, BEFORE) == Some(AFTER)
    ensures Sequential(h, SECOND.operations, 0, AFTER) == Some(EMPTIED)
  {
    hide Sequential;
    assert HEAD + [AGAIN] == SECOND.operations;
    RenameDiverges(h, [AGAIN]);
    CreateAgain(h, AFTER);
    CreateAgain(h, EMPTIED);
  }

  /** Two valid batches of one relay, numbered 1 to 2 and 1 to 3, are both acknowledged, and y is
      empty; had the journal 1 to 3 been applied once, y would hold the byte that was in x. */
  method LoseBytes(cfg: Config) returns (m: Machine)
    requires cfg.host.resolve("x") == Some(X) && cfg.host.resolve("y") == Some(Y)
    requires Encodable(cfg, FIRST) && Encodable(cfg, SECOND)
    ensures fresh(m) && m.Valid() && m.cfg == cfg && m.found == BEFORE
    ensures m.sealed == [FIRST, SECOND] && m.share == EMPTIED
    ensures Sequential(cfg.host, SECOND.operations, 0, BEFORE) == Some(AFTER)
    ensures AFTER[Y].bytes == [1] && EMPTIED[Y].bytes == []
  {
    hide Behaviour;
    hide Initial;
    hide Admit;
    hide Sequential;
    hide ValidBatch;
    hide Layout;
    hide IsPackage;
    hide Acknowledges;
    BothValid();
    SecondMeans(cfg.host);
    assert X != Y by { assert X[0] != Y[0]; }
    m := new Machine(cfg, BEFORE, 0);
    var first, second := Layout(cfg.codec, FIRST), Layout(cfg.codec, SECOND);
    FreshBatchStarts(cfg, Store(m.share, m.inbox["1" := first], m.progress, m.receipts), "1", FIRST);
    var budgets: seq<nat> := [9];
    assert budgets[0] >= 3 * |FIRST.operations| + 3;
    var r := m.Deliver("1", first, budgets);
    assert "2" !in m.progress by { assert "2" !in m.progress - {"1"}; }
    FreshBatchStarts(cfg, Store(m.share, m.inbox["2" := second], m.progress, m.receipts), "2", SECOND);
    budgets := [12];
    assert budgets[0] >= 3 * |SECOND.operations| + 3;
    r := m.Deliver("2", second, budgets);
  }
}
