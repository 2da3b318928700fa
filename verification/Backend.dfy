/**
 The bulk backend as it runs: committing a ready package, applying its operations and grouping
 its writes, over a durable store that may lose power before any durable step. Every step it
 takes is a step of the machine in `Recovery`, recorded as it goes.
 */
module Backend {
  import opened Bytes
  import opened Wrappers
  import opened Writes
  import opened Share
  import opened Journal
  import opened Package
  import opened Recovery

  /** How a piece of work ended: to its end, with an error returned, or by loss of power. */
  datatype Ending = Done | Failed | Crashed

  datatype Commit = Receipted(receipt: Receipt) | Refused | Lost

  /** The backend's scan of a batch before it is admitted. */
  method ValidateBatch(b: Batch) returns (ok: bool)
    ensures ok <==> ValidBatch(b)
  {
    if b.relayId == "" || b.batchId == "" || |b.operations| == 0 {
      return false;
    }
    if b.firstSeq == 0 || b.lastSeq < b.firstSeq {
      return false;
    }
    var previous: u64 := 0;
    for i := 0 to |b.operations|
      invariant i > 0 ==> previous == b.operations[i - 1].seqNo
      invariant forall k :: 0 <= k < i ==> b.firstSeq <= b.operations[k].seqNo <= b.lastSeq
      invariant forall j, k :: 0 <= j <= k < i ==> b.operations[j].seqNo <= b.operations[k].seqNo
      invariant forall k :: 0 <= k < i && b.operations[k].kind.OpWrite? ==>
                  |b.operations[k].data| == b.operations[k].length
    {
      var op := b.operations[i];
      if op.seqNo < b.firstSeq || op.seqNo > b.lastSeq || (i != 0 && op.seqNo < previous) {
        return false;
      }
      previous := op.seqNo;
      if op.kind.OpWrite? && |op.data| != op.length {
        return false;
      }
    }
    return true;
  }

  // ----- Facts about write runs the loops need -----

  lemma {:induction false} WritesToHas(h: Host, run: seq<Operation>, k: nat)
    requires k < |run| && h.resolve(run[k].path).Some?
    ensures WriteOf(run[k]) in WritesTo(h, run, h.resolve(run[k].path).value)
  {
    if k < |run| - 1 {
      WritesToHas(h, run[..|run| - 1], k);
    }
  }

  lemma {:induction false} WritesToFrom(h: Host, run: seq<Operation>, q: Path, w: Write) returns (k: nat)
    requires w in WritesTo(h, run, q)
    ensures k < |run| && h.resolve(run[k].path) == Some(q) && WriteOf(run[k]) == w
  {
    var last := run[|run| - 1];
    if h.resolve(last.path) == Some(q) && WriteOf(last) == w {
      k := |run| - 1;
    } else {
      k := WritesToFrom(h, run[..|run| - 1], q, w);
    }
  }

  lemma {:induction false} AllWritableIff(h: Host, run: seq<Operation>, t: Tree)
    ensures AllWritable(h, run, t) <==> forall k :: 0 <= k < |run| ==> Writable(h, run[k], t)
  {
    if run != [] {
      var init := run[..|run| - 1];
      AllWritableIff(h, init, t);
      assert forall k :: 0 <= k < |init| ==> init[k] == run[k];
    }
  }

  lemma UnwritableFails(h: Host, run: seq<Operation>, t: Tree, k: nat)
    requires k < |run| && !Writable(h, run[k], t)
    ensures WriteAll(h, run, t) == None
  {
    AllWritableIff(h, run, t);
    WritesByFile(h, run, t);
  }

  lemma WritesToSnoc(h: Host, ops: seq<Operation>, op: Operation, q: Path)
    ensures WritesTo(h, ops + [op], q) ==
            WritesTo(h, ops, q) + if h.resolve(op.path) == Some(q) then [WriteOf(op)] else []
  {
    assert (ops + [op])[..|ops|] == ops;
  }

  lemma WriteListSnoc(b: seq<byte>, ws: seq<Write>, k: nat)
    requires k < |ws|
    ensures WriteList(b, ws[..k + 1]) == WriteAt(WriteList(b, ws[..k]), ws[k])
  {
    assert ws[..k + 1][..k] == ws[..k];
  }

  lemma WriteListNil(b: seq<byte>, ws: seq<Write>)
    ensures WriteList(b, ws[..0]) == b
  {}

  function WithBytes(t: Tree, p: Path, b: seq<byte>): Tree
    requires IsFile(t, p)
  {
    t[p := t[p].(bytes := b)]
  }

  lemma WithBytesTwice(t: Tree, p: Path, a: seq<byte>, b: seq<byte>)
    requires IsFile(t, p)
    ensures IsFile(WithBytes(t, p, a), p) && WithBytes(t, p, a)[p].bytes == a
    ensures WithBytes(WithBytes(t, p, a), p, b) == WithBytes(t, p, b)
    ensures WithBytes(t, p, t[p].bytes) == t
  {}

  lemma TornRefl(b: seq<byte>, ws: seq<Write>)
    ensures Torn(b, ws, b)
  {}

  /** One write of a run landing is a torn state of the run's unit. */
  lemma OneWriteIsTorn(h: Host, all: seq<Operation>, i: nat, run: seq<Operation>, t: Tree, p: Path, k: nat)
    requires i < |all| && all[i].kind.OpWrite? && run == all[i..UnitEnd(all, i)]
    requires IsFile(t, p) && k < |WritesTo(h, run, p)|
    ensures TornUnit(h, all, i, t, WithBytes(t, p, WriteAt(t[p].bytes, WritesTo(h, run, p)[k])))
  {
    hide WritesTo;
    hide WriteAt;
    hide Torn;
    TornStep(t[p].bytes, WritesTo(h, run, p), t[p].bytes, k) by {
      TornRefl(t[p].bytes, WritesTo(h, run, p));
    }
    forall q | q in t && t[q].File?
      ensures Torn(t[q].bytes, WritesTo(h, run, q), t[q].bytes)
    {
      TornRefl(t[q].bytes, WritesTo(h, run, q));
    }
  }

  /** No offset is negative as int64. */
  ghost predicate Offsets(ws: seq<Write>) {
    forall k :: 0 <= k < |ws| ==> ws[k].offset < TWO_TO_THE_63
  }

  lemma NotAFileFails(h: Host, run: seq<Operation>, t: Tree, p: Path)
    requires !IsFile(t, p) && WritesTo(h, run, p) != []
    ensures WriteAll(h, run, t) == None
  {
    var k := WritesToFrom(h, run, p, WritesTo(h, run, p)[0]);
    UnwritableFails(h, run, t, k);
  }

  lemma BadOffsetFails(h: Host, run: seq<Operation>, t: Tree, p: Path)
    requires !Offsets(WritesTo(h, run, p))
    ensures WriteAll(h, run, t) == None
  {
    var i :| 0 <= i < |WritesTo(h, run, p)| && WritesTo(h, run, p)[i].offset >= TWO_TO_THE_63;
    var k := WritesToFrom(h, run, p, WritesTo(h, run, p)[i]);
    UnwritableFails(h, run, t, k);
  }

  lemma UnresolvedFails(h: Host, run: seq<Operation>, t: Tree)
    requires exists k :: 0 <= k < |run| && h.resolve(run[k].path).None?
    ensures WriteAll(h, run, t) == None
  {
    var k :| 0 <= k < |run| && h.resolve(run[k].path).None?;
    UnwritableFails(h, run, t, k);
  }

  ghost predicate Distinct(order: seq<Path>) {
    forall j, k :: 0 <= j < k < |order| ==> order[j] != order[k]
  }

  /** The first operation on `p`, or the number of operations when there is none. */
  ghost function FirstOn(h: Host, ops: seq<Operation>, p: Path): (f: nat)
    ensures f <= |ops| && (f < |ops| ==> h.resolve(ops[f].path) == Some(p))
    ensures forall i :: 0 <= i < f ==> h.resolve(ops[i].path) != Some(p)
  {
    if ops == [] || h.resolve(ops[0].path) == Some(p) then 0
    else
      var f := FirstOn(h, ops[1..], p);
      assert forall i :: 0 < i < |ops| ==> ops[i] == ops[1..][i - 1];
      f + 1
  }

  /** Files stand in the order of their first operations. */
  ghost predicate FirstSeen(h: Host, ops: seq<Operation>, order: seq<Path>) {
    && (forall j :: 0 <= j < |order| ==> FirstOn(h, ops, order[j]) < |ops|)
    && (forall j, k :: 0 <= j < k < |order| ==> FirstOn(h, ops, order[j]) < FirstOn(h, ops, order[k]))
  }

  lemma FirstOnIs(h: Host, ops: seq<Operation>, p: Path, f: nat)
    requires f <= |ops| && (f < |ops| ==> h.resolve(ops[f].path) == Some(p))
    requires forall i :: 0 <= i < f ==> h.resolve(ops[i].path) != Some(p)
    ensures FirstOn(h, ops, p) == f
  {
    hide FirstOn;
    assert !(FirstOn(h, ops, p) < f);
  }

  lemma FirstOnSnoc(h: Host, ops: seq<Operation>, op: Operation, p: Path)
    ensures FirstOn(h, ops + [op], p) ==
            if FirstOn(h, ops, p) < |ops| || h.resolve(op.path) == Some(p) then FirstOn(h, ops, p) else |ops| + 1
  {
    hide FirstOn;
    var f := FirstOn(h, ops, p);
    FirstOnIs(h, ops + [op], p, if f < |ops| || h.resolve(op.path) == Some(p) then f else |ops| + 1);
  }

  lemma FirstSeenOneMore(h: Host, ops: seq<Operation>, op: Operation, order: seq<Path>, p: Path)
    requires FirstSeen(h, ops, order) && h.resolve(op.path) == Some(p)
    requires p in order <==> FirstOn(h, ops, p) < |ops|
    ensures FirstSeen(h, ops + [op], if p in order then order else order + [p])
  {
    hide FirstOn;
    forall j | 0 <= j < |order|
      ensures FirstOn(h, ops + [op], order[j]) == FirstOn(h, ops, order[j])
    {
      FirstOnSnoc(h, ops, op, order[j]);
    }
    FirstOnSnoc(h, ops, op, p);
  }

  /** `order` lists the files of `ops` once each in the order they are first seen, and `byPath` holds
      each file's own writes in journal order. */
  ghost predicate Grouped(h: Host, ops: seq<Operation>, order: seq<Path>, byPath: map<Path, seq<Write>>) {
    && (forall k :: 0 <= k < |ops| ==> h.resolve(ops[k].path).Some? && h.resolve(ops[k].path).value in order)
    && Distinct(order) && FirstSeen(h, ops, order)
    && (forall p :: p in byPath <==> p in order)
    && (forall p :: p in byPath ==> byPath[p] == WritesTo(h, ops, p) != [])
    && (forall p :: p !in byPath ==> WritesTo(h, ops, p) == [])
  }

  lemma GroupNone(h: Host)
    ensures Grouped(h, [], [], map[])
  {}

  lemma SeenIffListed(h: Host, ops: seq<Operation>, order: seq<Path>, p: Path)
    requires FirstSeen(h, ops, order)
    requires forall k :: 0 <= k < |ops| ==> h.resolve(ops[k].path).Some? && h.resolve(ops[k].path).value in order
    ensures p in order <==> FirstOn(h, ops, p) < |ops|
  {}

  lemma GroupOneMore(h: Host, ops: seq<Operation>, op: Operation, order: seq<Path>, byPath: map<Path, seq<Write>>)
    requires Grouped(h, ops, order, byPath) && h.resolve(op.path).Some?
    ensures var p := h.resolve(op.path).value;
            Grouped(h, ops + [op], if p in byPath then order else order + [p],
                    byPath[p := (if p in byPath then byPath[p] else []) + [WriteOf(op)]])
  {
    hide WritesTo;
    hide FirstSeen;
    var p := h.resolve(op.path).value;
    assert p in order <==> FirstOn(h, ops, p) < |ops| by {
      SeenIffListed(h, ops, order, p);
    }
    FirstSeenOneMore(h, ops, op, order, p);
    forall q
      ensures WritesTo(h, ops + [op], q) == WritesTo(h, ops, q) + if q == p then [WriteOf(op)] else []
    {
      WritesToSnoc(h, ops, op, q);
    }
  }

  /** The files of a run in first-seen order, each with its own writes in journal order; nothing
      when some name does not resolve. */
  method GroupWrites(h: Host, ops: seq<Operation>) returns (r: Option<(seq<Path>, map<Path, seq<Write>>)>)
    ensures r.None? <==> exists k :: 0 <= k < |ops| && h.resolve(ops[k].path).None?
    ensures r.Some? ==> Grouped(h, ops, r.value.0, r.value.1)
  {
    hide Grouped;
    var order: seq<Path> := [];
    var byPath: map<Path, seq<Write>> := map[];
    GroupNone(h);
    assert ops[..0] == [];
    for i := 0 to |ops|
      invariant Grouped(h, ops[..i], order, byPath)
      invariant forall k :: 0 <= k < i ==> h.resolve(ops[k].path).Some?
    {
      var p := h.resolve(ops[i].path);
      if p.None? {
        return None;
      }
      GroupOneMore(h, ops[..i], ops[i], order, byPath);
      assert ops[..i] + [ops[i]] == ops[..i + 1];
      var seen := p.value in byPath;
      if !seen {
        order := order + [p.value];
      }
      byPath := byPath[p.value := (if seen then byPath[p.value] else []) + [WriteOf(ops[i])]];
    }
    assert ops[..|ops|] == ops;
    return Some((order, byPath));
  }

  /** The files of `order[..j]` have had their writes, the others none. */
  ghost predicate FilesDone(h: Host, run: seq<Operation>, order: seq<Path>, j: nat, t: Tree, s: Tree)
    requires j <= |order|
  {
    && s.Keys == t.Keys
    && forall q :: q in t ==> s[q] == if q in order[..j] then EachFile(h, run, t)[q] else t[q]
  }

  lemma OneMoreFile(h: Host, run: seq<Operation>, order: seq<Path>, j: nat, t: Tree, s: Tree, s': Tree)
    requires j < |order| && order[j] !in order[..j] && FilesDone(h, run, order, j, t, s) && IsFile(s, order[j])
    requires s' == WithBytes(s, order[j], WriteList(s[order[j]].bytes, WritesTo(h, run, order[j])))
    ensures FilesDone(h, run, order, j + 1, t, s')
    ensures forall p :: p in order[..j + 1] <==> p in order[..j] || p == order[j]
  {
    assert order[..j + 1] == order[..j] + [order[j]];
  }

  lemma AllFilesDone(h: Host, run: seq<Operation>, order: seq<Path>, t: Tree, s: Tree)
    requires FilesDone(h, run, order, |order|, t, s)
    requires forall k :: 0 <= k < |run| ==> h.resolve(run[k].path).Some? && h.resolve(run[k].path).value in order
    requires forall p :: p in order ==> IsFile(t, p) && Offsets(WritesTo(h, run, p))
    ensures WriteAll(h, run, t) == Some(s)
  {
    forall k | 0 <= k < |run|
      ensures Writable(h, run[k], t)
    {
      WritesToHas(h, run, k);
    }
    AllWritableIff(h, run, t);
    WritesByFile(h, run, t);
    forall q | q in t
      ensures s[q] == EachFile(h, run, t)[q]
    {
      if q !in order {
        NoWrites(h, run, q);
      }
    }
    assert s == EachFile(h, run, t);
  }

  lemma {:induction false} NoWrites(h: Host, run: seq<Operation>, q: Path)
    requires forall k :: 0 <= k < |run| ==> h.resolve(run[k].path) != Some(q)
    ensures WritesTo(h, run, q) == []
  {
    if run != [] {
      var init := run[..|run| - 1];
      assert forall k :: 0 <= k < |init| ==> init[k] == run[k];
      NoWrites(h, init, q);
    }
  }

  // ----- How many durable steps an attempt needs -----

  /** The writes of the first `j` files. */
  function WriteCount(h: Host, run: seq<Operation>, order: seq<Path>, j: nat): nat
    requires j <= |order|
  {
    if j == 0 then 0 else WriteCount(h, run, order, j - 1) + |WritesTo(h, run, order[j - 1])|
  }

  /** Each write goes to one file. */
  lemma {:induction false} WritesBound(h: Host, run: seq<Operation>, order: seq<Path>, j: nat)
    requires j <= |order| && Distinct(order)
    ensures WriteCount(h, run, order, j) <= |run|
  {
    if run == [] {
      NothingToWrite(h, order, j);
    } else {
      WritesBound(h, run[..|run| - 1], order, j);
      OneMoreWrite(h, run, order, j);
    }
  }

  lemma {:induction false} NothingToWrite(h: Host, order: seq<Path>, j: nat)
    requires j <= |order|
    ensures WriteCount(h, [], order, j) == 0
  {
    if j > 0 {
      NothingToWrite(h, order, j - 1);
    }
  }

  lemma {:induction false} OneMoreWrite(h: Host, run: seq<Operation>, order: seq<Path>, j: nat)
    requires run != [] && j <= |order| && Distinct(order)
    ensures WriteCount(h, run, order, j) <= WriteCount(h, run[..|run| - 1], order, j) + 1
    ensures (forall x :: 0 <= x < j ==> h.resolve(run[|run| - 1].path) != Some(order[x])) ==>
              WriteCount(h, run, order, j) == WriteCount(h, run[..|run| - 1], order, j)
  {
    hide WritesTo;
    if j > 0 {
      OneMoreWrite(h, run, order, j - 1);
      var init, last := run[..|run| - 1], run[|run| - 1];
      assert init + [last] == run;
      WritesToSnoc(h, init, last, order[j - 1]);
    }
  }

  /** A step for every write of a run; other operations take at most two. */
  function UnitCost(ops: seq<Operation>, i: nat): nat
    requires i < |ops|
  {
    if ops[i].kind.OpWrite? then UnitEnd(ops, i) - i else 2
  }

  /** The units from `i` on, each with its checkpoint. */
  function Cost(ops: seq<Operation>, i: nat): nat
    requires i <= |ops|
    decreases |ops| - i
  {
    if i == |ops| then 0 else UnitCost(ops, i) + 1 + Cost(ops, UnitEnd(ops, i))
  }

  lemma CostStep(ops: seq<Operation>, i: nat)
    requires i < |ops|
    ensures Cost(ops, i) == UnitCost(ops, i) + 1 + Cost(ops, UnitEnd(ops, i))
  {}

  lemma {:induction false} CostBound(ops: seq<Operation>, i: nat)
    requires i <= |ops|
    ensures Cost(ops, i) <= 3 * (|ops| - i)
    decreases |ops| - i
  {
    if i < |ops| {
      CostBound(ops, UnitEnd(ops, i));
    }
  }

  class Machine {
    const cfg: Config

    /** The share as the run found it. */
    ghost const found: Tree

    // The durable store.
    var share: Tree
    var inbox: map<string, seq<byte>>
    var progress: map<string, Progress>
    var receipts: map<string, Receipt>

    /** Durable steps left before power is lost. */
    var power: nat

    // The commit in flight and the run so far.
    ghost var phase: Phase
    ghost var uploaded: map<string, seq<byte>>
    ghost var sealed: seq<Batch>
    ghost var states: seq<State>
    ghost var events: seq<Event>

    ghost function Now(): State
      reads this
    {
      State(Store(share, inbox, progress, receipts), phase, uploaded, sealed)
    }

    /** The recorded run is a behaviour of the machine from an empty store, and ends here. */
    ghost predicate Valid()
      reads this
    {
      && Behaviour(cfg, states, events) && Initial(states[0]) && states[0].store.share == found
      && states[|states| - 1] == Now()
    }

    constructor (cfg: Config, share: Tree, power: nat)
      ensures Valid()
      ensures this.cfg == cfg && this.share == share == found && this.power == power
      ensures inbox == map[] && progress == map[] && receipts == map[] && phase.Idle? && sealed == []
    {
      this.cfg, this.share, this.power := cfg, share, power;
      found := share;
      inbox, progress, receipts := map[], map[], map[];
      phase, uploaded, sealed := Idle, map[], [];
      states := [State(Store(share, map[], map[], map[]), Idle, map[], [])];
      events := [];
    }

    /** Records the step just taken. */
    ghost method Record(e: Event)
      requires Behaviour(cfg, states, events) && Initial(states[0]) && states[0].store.share == found
      requires Next(cfg, states[|states| - 1], e, Now())
      modifies this`states, this`events
      ensures Valid()
    {
      hide Next;
      states := states + [Now()];
      events := events + [e];
    }

    /** The commit in flight ends, by returning or by loss of power. */
    ghost method Halt()
      requires Valid()
      modifies this`phase, this`states, this`events
      ensures Valid() && phase.Idle?
    {
      phase := Idle;
      Record(Stop);
    }

    /** An admitted batch starts where its progress says. */
    ghost method Start(ready: string, b: Batch, hash: seq<byte>, next: nat)
      requires Valid() && phase.Idle? && Admit(cfg, Now().store, ready) == Resume(b, hash, next)
      modifies this`phase, this`states, this`events
      ensures Valid() && phase == Applying(ready, b, hash, next)
    {
      hide Admit;
      phase := Applying(ready, b, hash, next);
      Record(Begin(ready));
    }

    /** The relay's rename of a finished upload into the inbox. */
    method Receive(name: string, data: seq<byte>)
      requires Valid() && phase.Idle?
      modifies this`inbox, this`uploaded, this`states, this`events
      ensures Valid() && inbox == old(inbox)[name := data] && uploaded == old(uploaded)[name := data]
    {
      inbox := inbox[name := data];
      uploaded := uploaded[name := data];
      Record(Upload(name, data));
    }

    /** Some of the current unit reaches the disk, unless power is lost first. */
    method Land(t: Tree) returns (ok: bool)
      requires Valid() && phase.Applying? && phase.next < |phase.batch.operations|
      requires TornUnit(cfg.host, phase.batch.operations, phase.next, share, t)
      modifies this`share, this`power, this`states, this`events
      ensures Valid()
      ensures ok ==> share == t
      ensures !ok ==> share == old(share) && power == 0
      ensures old(power) == power + (if ok then 1 else 0)
      ensures ApplyUnit(cfg.host, phase.batch.operations, phase.next, share) ==
              ApplyUnit(cfg.host, phase.batch.operations, phase.next, old(share))
    {
      hide ApplyUnit;
      hide TornUnit;
      if power == 0 {
        return false;
      }
      UnitAbsorbs(cfg.host, phase.batch.operations, phase.next, share, t);
      power := power - 1;
      share := t;
      Record(Event.Land(t));
      return true;
    }

    /** Records progress past the unit the disk now reflects, unless power is lost first. */
    method Checkpoint(ready: string, b: Batch, hash: seq<byte>, nextOperation: nat) returns (ok: bool)
      requires Valid() && phase.Applying? && phase.ready == ready && phase.batch == b && phase.hash == hash
      requires phase.next < |b.operations| && nextOperation == UnitEnd(b.operations, phase.next)
      requires ApplyUnit(cfg.host, b.operations, phase.next, share) == Some(share)
      modifies this`progress, this`power, this`phase, this`states, this`events
      ensures Valid()
      ensures ok ==> phase == old(phase).(next := nextOperation)
      ensures ok ==> progress == old(progress)[ready := Progress(1, b.relayId, b.batchId, hash, nextOperation)]
      ensures !ok ==> progress == old(progress) && phase == old(phase) && power == 0
      ensures old(power) <= power + (if ok then 1 else 0)
    {
      hide Admit;
      hide TornUnit;
      hide ApplyUnit;
      hide Sealed;
      hide Behaviour;
      if power == 0 {
        return false;
      }
      power := power - 1;
      progress := progress[ready := Progress(1, b.relayId, b.batchId, hash, nextOperation)];
      phase := phase.(next := nextOperation);
      Record(Event.Checkpoint);
      return true;
    }

    /** Groups a run of writes by file, opens each file once in first-seen order and applies its
        writes in journal order. The share ends as if the writes had run one by one. */
    method ApplyWriteRun(ops: seq<Operation>) returns (r: Ending)
      requires Valid() && phase.Applying? && phase.next < |phase.batch.operations|
      requires phase.batch.operations[phase.next].kind.OpWrite?
      requires ops == phase.batch.operations[phase.next..UnitEnd(phase.batch.operations, phase.next)]
      modifies this`share, this`power, this`states, this`events
      ensures Valid()
      ensures r.Done? ==> WriteAll(cfg.host, ops, old(share)) == Some(share)
      ensures r.Failed? ==> WriteAll(cfg.host, ops, old(share)) == None
      ensures ApplyUnit(cfg.host, phase.batch.operations, phase.next, share) ==
              ApplyUnit(cfg.host, phase.batch.operations, phase.next, old(share))
      ensures r.Crashed? ==> power == 0
      ensures old(power) + (if r.Crashed? then 1 else 0) <= power + |ops|
    {
      hide FirstSeen;
      hide ApplyUnit;
      hide Behaviour;
      hide WriteAll;
      hide WritesTo;
      hide WithBytes;
      hide WriteList;
      ghost var base := share;
      var groups := GroupWrites(cfg.host, ops);
      if groups.None? {
        UnresolvedFails(cfg.host, ops, base);
        return Failed;
      }
      var (order, byPath) := groups.value;
      WritesBound(cfg.host, ops, order, 0);
      for j := 0 to |order|
        invariant Valid() && phase == old(phase)
        invariant ApplyUnit(cfg.host, phase.batch.operations, phase.next, share) ==
                  ApplyUnit(cfg.host, phase.batch.operations, phase.next, old(share))
        invariant old(power) <= power + WriteCount(cfg.host, ops, order, j)
        invariant FilesDone(cfg.host, ops, order, j, base, share)
        invariant forall p :: p in order[..j] ==> IsFile(base, p) && Offsets(WritesTo(cfg.host, ops, p))
      {
        var p := order[j];
        assert p !in order[..j];
        if !IsFile(share, p) {
          WritesBound(cfg.host, ops, order, j);
          NotAFileFails(cfg.host, ops, base, p);
          return Failed;
        }
        WritesBound(cfg.host, ops, order, j + 1);
        label Open:
        r := WriteOneFile(ops, byPath[p], p);
        if r.Crashed? {
          return;
        } else if r.Failed? {
          BadOffsetFails(cfg.host, ops, base, p);
          return;
        }
        OneMoreFile(cfg.host, ops, order, j, base, old@Open(share), share);
      }
      assert order[..|order|] == order;
      WritesBound(cfg.host, ops, order, |order|);
      AllFilesDone(cfg.host, ops, order, base, share);
      return Done;
    }

    /** The writes of one open file. */
    method WriteOneFile(ops: seq<Operation>, ws: seq<Write>, p: Path) returns (r: Ending)
      requires Valid() && phase.Applying? && phase.next < |phase.batch.operations|
      requires phase.batch.operations[phase.next].kind.OpWrite?
      requires ops == phase.batch.operations[phase.next..UnitEnd(phase.batch.operations, phase.next)]
      requires IsFile(share, p) && ws == WritesTo(cfg.host, ops, p)
      modifies this`share, this`power, this`states, this`events
      ensures Valid()
      ensures r.Done? ==> share == WithBytes(old(share), p, WriteList(old(share)[p].bytes, ws))
      ensures r.Done? ==> Offsets(ws)
      ensures r.Failed? ==> !Offsets(ws)
      ensures ApplyUnit(cfg.host, phase.batch.operations, phase.next, share) ==
              ApplyUnit(cfg.host, phase.batch.operations, phase.next, old(share))
      ensures r.Crashed? ==> power == 0
      ensures old(power) + (if r.Crashed? then 1 else 0) <= power + |ws|
    {
      hide ApplyUnit;
      hide Behaviour;
      hide WritesTo;
      hide TornUnit;
      hide WriteAt;
      hide WriteList;
      hide WithBytes;
      ghost var base, b := share, share[p].bytes;
      WithBytesTwice(base, p, b, b);
      assert WriteList(b, ws[..0]) == b by { WriteListNil(b, ws); }
      for k := 0 to |ws|
        invariant Valid() && phase == old(phase)
        invariant ApplyUnit(cfg.host, phase.batch.operations, phase.next, share) ==
                  ApplyUnit(cfg.host, phase.batch.operations, phase.next, old(share))
        invariant old(power) <= power + k
        invariant share == WithBytes(base, p, WriteList(b, ws[..k]))
        invariant forall i :: 0 <= i < k ==> ws[i].offset < TWO_TO_THE_63
      {
        if ws[k].offset >= TWO_TO_THE_63 {
          return Failed;
        }
        WithBytesTwice(base, p, WriteList(b, ws[..k]), WriteList(b, ws[..k + 1]));
        WriteListSnoc(b, ws, k);
        OneWriteIsTorn(cfg.host, phase.batch.operations, phase.next, ops, share, p, k);
        var ok := Land(WithBytes(share, p, WriteAt(share[p].bytes, ws[k])));
        if !ok {
          return Crashed;
        }
      }
      assert ws[..|ws|] == ws;
      return Done;
    }

    /** A change made in one durable step, when the system allows it. */
    method Mutate(t: Option<Tree>) returns (r: Ending)
      requires Valid() && phase.Applying? && phase.next < |phase.batch.operations|
      requires t.Some? ==> TornUnit(cfg.host, phase.batch.operations, phase.next, share, t.value)
      modifies this`share, this`power, this`states, this`events
      ensures Valid()
      ensures r.Done? ==> t == Some(share)
      ensures r.Failed? ==> t == None && share == old(share)
      ensures r.Crashed? ==> power == 0
      ensures old(power) + (if r.Crashed? then 1 else 0) <= power + 1
      ensures ApplyUnit(cfg.host, phase.batch.operations, phase.next, share) ==
              ApplyUnit(cfg.host, phase.batch.operations, phase.next, old(share))
    {
      if t.None? {
        return Failed;
      }
      var ok := Land(t.value);
      return if ok then Done else Crashed;
    }

    /** Two attribute updates; either may be the last to land. */
    method ApplySetAttr(op: Operation, p: Path) returns (r: Ending)
      requires Valid() && phase.Applying? && phase.next < |phase.batch.operations|
      requires op == phase.batch.operations[phase.next] && op.kind.OpSetAttr?
      requires cfg.host.resolve(op.path) == Some(p)
      modifies this`share, this`power, this`states, this`events
      ensures Valid()
      ensures r.Done? ==> SetAttr(old(share), p, op.mode, op.atime, op.mtime) == Some(share)
      ensures r.Failed? ==> SetAttr(old(share), p, op.mode, op.atime, op.mtime) == None
      ensures r.Crashed? ==> power == 0 && p in old(share) && !old(share)[p].Link?
      ensures r.Crashed? ==> share == if old(power) == 1 then Chmod(old(share), p, op.mode) else old(share)
      ensures old(power) + (if r.Crashed? then 1 else 0) <= power + 2
      ensures ApplyUnit(cfg.host, phase.batch.operations, phase.next, share) ==
              ApplyUnit(cfg.host, phase.batch.operations, phase.next, old(share))
    {
      hide Behaviour;
      hide ApplyUnit;
      hide Step;
      if p !in share {
        return Failed;
      }
      if !share[p].Link? {
        var ok := Land(Chmod(share, p, op.mode));
        if !ok {
          return Crashed;
        }
        ok := Land(Chtimes(share, p, op.atime, op.mtime));
        if !ok {
          return Crashed;
        }
      }
      return Done;
    }

    /** Removal of the name, then the link. */
    method ApplySymlink(op: Operation, p: Path) returns (r: Ending)
      requires Valid() && phase.Applying? && phase.next < |phase.batch.operations|
      requires op == phase.batch.operations[phase.next] && op.kind.OpSymlink?
      requires cfg.host.resolve(op.path) == Some(p)
      modifies this`share, this`power, this`states, this`events
      ensures Valid()
      ensures r.Done? ==> Symlink(old(share), p, op.target) == Some(share)
      ensures r.Failed? ==> Symlink(old(share), p, op.target) == None
      ensures r.Crashed? ==> power == 0
      ensures old(power) + (if r.Crashed? then 1 else 0) <= power + 2
      ensures ApplyUnit(cfg.host, phase.batch.operations, phase.next, share) ==
              ApplyUnit(cfg.host, phase.batch.operations, phase.next, old(share))
    {
      hide Behaviour;
      hide ApplyUnit;
      hide Cleared;
      SymlinkAbsorbs(share, p, op.target);
      var ok := Land(Cleared(share, p));
      if !ok {
        return Crashed;
      }
      r := Mutate(Symlink(share, p, op.target));
    }

    /** One operation other than a write. */
    method ApplyOperation(ops: seq<Operation>, i: nat) returns (r: Ending)
      requires Valid() && phase.Applying? && phase.batch.operations == ops && phase.next == i < |ops|
      requires !ops[i].kind.OpWrite?
      modifies this`share, this`power, this`states, this`events
      ensures Valid()
      ensures r.Done? ==> Step(cfg.host, ops, i, old(share)) == Some(share)
      ensures r.Failed? ==> Step(cfg.host, ops, i, old(share)) == None
      ensures r.Crashed? ==> power == 0
      ensures old(power) + (if r.Crashed? then 1 else 0) <= power + 2
      ensures ApplyUnit(cfg.host, phase.batch.operations, phase.next, share) ==
              ApplyUnit(cfg.host, phase.batch.operations, phase.next, old(share))
    {
      hide Behaviour;
      hide ApplyUnit;
      var op := ops[i];
      var p := cfg.host.resolve(op.path);
      if p.None? {
        return Failed;
      }
      if op.kind.OpSetAttr? {
        r := ApplySetAttr(op, p.value);
      } else if op.kind.OpSymlink? {
        r := ApplySymlink(op, p.value);
      } else {
        r := Mutate(StepAt(cfg.host, ops, i, p.value, share));
      }
    }

    /** Where the batch ends if nothing stops it again. */
    ghost function Goal(b: Batch, next: nat): Option<Tree>
      requires next <= |b.operations|
      reads this
    {
      RunUnits(cfg.host, b.operations, next, share)
    }

    /** The unit at `i`: a maximal run of writes, or one other operation. */
    method RunUnit(b: Batch, i: nat) returns (r: Ending, end: nat)
      requires Valid() && phase.Applying? && phase.batch == b && phase.next == i < |b.operations|
      modifies this`share, this`power, this`states, this`events
      ensures Valid()
      ensures end == UnitEnd(b.operations, i)
      ensures ApplyUnit(cfg.host, b.operations, i, share) == ApplyUnit(cfg.host, b.operations, i, old(share))
      ensures r.Done? ==> ApplyUnit(cfg.host, b.operations, i, old(share)) == Some(share)
      ensures r.Failed? ==> ApplyUnit(cfg.host, b.operations, i, old(share)) == None
      ensures r.Crashed? ==> power == 0
      ensures old(power) + (if r.Crashed? then 1 else 0) <= power + UnitCost(b.operations, i)
    {
      hide Behaviour;
      hide Step;
      hide WriteAll;
      end := i + 1;
      if b.operations[i].kind.OpWrite? {
        while end < |b.operations| && b.operations[end].kind.OpWrite?
          invariant i < end <= UnitEnd(b.operations, i)
        {
          end := end + 1;
        }
        r := ApplyWriteRun(b.operations[i..end]);
      } else {
        r := ApplyOperation(b.operations, i);
      }
    }

    /** Applies the batch unit by unit from `start`, recording progress after each. Whatever
        stops it, finishing from the recorded progress leads where it would have led. */
    method Apply(ready: string, b: Batch, hash: seq<byte>, start: nat) returns (r: Ending)
      requires Valid() && start <= |b.operations| && phase == Applying(ready, b, hash, start)
      modifies this`share, this`progress, this`power, this`phase, this`states, this`events
      ensures Valid()
      ensures phase.Applying? && phase == Applying(ready, b, hash, phase.next) && start <= phase.next <= |b.operations|
      ensures Goal(b, phase.next) == old(Goal(b, start))
      ensures progress == ProgressAt(old(progress), ready, b, hash, start, phase.next)
      ensures r.Done? ==> phase.next == |b.operations|
      ensures r.Failed? ==> old(Goal(b, start)) == None
      ensures r.Crashed? ==> power == 0
      ensures old(power) + (if r.Crashed? then 1 else 0) <= power + Cost(b.operations, start)
    {
      hide Behaviour;
      hide Initial;
      hide ApplyUnit;
      hide RunUnits;
      hide Cost;
      hide UnitCost;
      var i := start;
      while i < |b.operations|
        invariant Valid() && start <= i <= |b.operations| && phase == Applying(ready, b, hash, i)
        invariant Goal(b, i) == old(Goal(b, start))
        invariant old(power) + Cost(b.operations, i) <= power + Cost(b.operations, start)
        invariant progress == ProgressAt(old(progress), ready, b, hash, start, i)
      {
        ghost var was := share;
        CostStep(b.operations, i);
        var end;
        r, end := RunUnit(b, i);
        UnitOutcome(cfg.host, b.operations, i, was, share);
        if !r.Done? {
          return;
        }
        UnitTwice(cfg.host, b.operations, i, was);
        var ok := Checkpoint(ready, b, hash, end);
        if !ok {
          return Crashed;
        }
        i := end;
      }
      return Done;
    }

    method DropPackage(ready: string)
      requires Valid() && phase == Removing(ready) && power > 0
      modifies this`inbox, this`power, this`states, this`events
      ensures Valid() && inbox == old(inbox) - {ready} && power == old(power) - 1
    {
      hide Admit;
      hide TornUnit;
      hide ApplyUnit;
      hide Checkpointed;
      hide Sealed;
      hide Behaviour;
      power := power - 1;
      inbox := inbox - {ready};
      Record(DropReady);
    }

    method DropItsProgress(ready: string)
      requires Valid() && phase == Removing(ready) && power > 0
      modifies this`progress, this`power, this`states, this`events
      ensures Valid() && progress == old(progress) - {ready} && power == old(power) - 1
    {
      hide Admit;
      hide TornUnit;
      hide ApplyUnit;
      hide Checkpointed;
      hide Sealed;
      hide Behaviour;
      power := power - 1;
      progress := progress - {ready};
      Record(DropProgress);
    }

    /** Removes a covered package and its progress, unless power is lost first. */
    method RemoveArtifacts(ready: string) returns (ok: bool)
      requires Valid() && phase == Removing(ready)
      modifies this`inbox, this`progress, this`power, this`phase, this`states, this`events
      ensures Valid() && phase.Idle?
      ensures ok ==> inbox == old(inbox) - {ready} && progress == old(progress) - {ready}
      ensures !ok ==> power == 0 && old(power) < 2
      ensures !ok ==> progress == old(progress) && inbox == if old(power) == 1 then old(inbox) - {ready} else old(inbox)
      ensures ok ==> old(power) == power + 2
      ensures inbox - {ready} == old(inbox) - {ready} && progress - {ready} == old(progress) - {ready}
    {
      hide Valid;
      ok := false;
      if power > 0 {
        DropPackage(ready);
        if power > 0 {
          DropItsProgress(ready);
          ok := true;
        }
      }
      Halt();
    }

    /** Writes the receipt, unless power is lost first. */
    method WriteReceipt(b: Batch, receipt: Receipt) returns (ok: bool)
      requires Valid() && phase.Applying? && phase.batch == b && phase.next == |b.operations|
      requires receipt == ReceiptOf(b, phase.hash)
      modifies this`receipts, this`power, this`phase, this`sealed, this`states, this`events
      ensures Valid()
      ensures ok ==> receipts == old(receipts)[cfg.receiptFile(b.relayId) := receipt]
      ensures ok ==> phase == Removing(old(phase.ready)) && sealed == old(sealed) + [b]
      ensures !ok ==> receipts == old(receipts) && sealed == old(sealed) && phase.Idle? && power == 0
      ensures old(power) <= power + (if ok then 1 else 0)
    {
      hide Admit;
      hide TornUnit;
      hide ApplyUnit;
      hide Checkpointed;
      hide Behaviour;
      ok := power > 0;
      if ok {
        power := power - 1;
        receipts := receipts[cfg.receiptFile(b.relayId) := receipt];
        phase, sealed := Removing(phase.ready), sealed + [b];
        Record(Seal);
      } else {
        Halt();
      }
    }

    /** A package already covered by a receipt: its leftovers go and the receipt is returned. */
    method Recommit(ready: string, previous: Receipt) returns (r: Commit)
      requires Valid() && phase.Idle? && Admit(cfg, Now().store, ready) == Covered(previous)
      modifies this`inbox, this`progress, this`power, this`phase, this`states, this`events
      ensures Valid() && phase.Idle?
      ensures r == Receipted(previous) || (r.Lost? && power == 0 && old(power) < 2)
      ensures r.Receipted? ==> inbox == old(inbox) - {ready} && progress == old(progress) - {ready}
      ensures inbox - {ready} == old(inbox) - {ready} && progress - {ready} == old(progress) - {ready}
    {
      phase := Removing(ready);
      Record(Begin(ready));
      var ok := RemoveArtifacts(ready);
      return if ok then Receipted(previous) else Lost;
    }

    /** The receipt for `b` is written and the share is where the batch had to end. */
    ghost predicate Finished(b: Batch, hash: seq<byte>, goal: Option<Tree>)
      reads this
    {
      var file := cfg.receiptFile(b.relayId);
      file in receipts && receipts[file] == ReceiptOf(b, hash) && goal == Some(share)
    }

    /** The receipt on file is this one, and it acknowledges the batch and the package it came in. */
    ghost predicate OnFile(r: Receipt, b: Batch, package: seq<byte>)
      reads this
    {
      && Acknowledges(cfg, r, b, package)
      && cfg.receiptFile(b.relayId) in receipts && receipts[cfg.receiptFile(b.relayId)] == r
    }

    /** The batch is still to be finished: its package is admitted again where it stopped, and
        finishing it there leads to `goal`. */
    ghost predicate Pending(ready: string, b: Batch, hash: seq<byte>, goal: Option<Tree>)
      reads this
    {
      var a := Admit(cfg, Now().store, ready);
      a.Resume? && a.batch == b && a.hash == hash && a.next <= |b.operations| && Goal(b, a.next) == goal
    }

    /** Applies an admitted batch and acknowledges it. */
    method CommitBatch(ready: string, b: Batch, hash: seq<byte>, next: nat) returns (r: Commit)
      requires Valid() && phase.Idle? && Admit(cfg, Now().store, ready) == Resume(b, hash, next)
      requires next <= |b.operations|
      modifies this`share, this`inbox, this`progress, this`receipts, this`power, this`phase, this`sealed
      modifies this`states, this`events
      ensures Valid() && phase.Idle?
      ensures r.Receipted? ==> r.receipt == ReceiptOf(b, hash) && Finished(b, hash, old(Goal(b, next)))
      ensures r.Refused? ==> old(Goal(b, next)) == None
      ensures r.Lost? ==> power == 0 && old(power) < Cost(b.operations, next) + 3
      ensures r.Receipted? ==> inbox == old(inbox) - {ready} && ready !in progress
      ensures || (Finished(b, hash, old(Goal(b, next))) && sealed == old(sealed) + [b])
              || (Pending(ready, b, hash, old(Goal(b, next))) && inbox == old(inbox) && sealed == old(sealed))
      ensures inbox - {ready} == old(inbox) - {ready} && progress - {ready} == old(progress) - {ready}
    {
      hide Behaviour;
      hide Initial;
      hide RunUnits;
      hide Admit;
      hide Cost;
      Start(ready, b, hash, next);
      var e := Apply(ready, b, hash, next);
      if !e.Done? {
        AdmitAgain(cfg, old(Now().store), Now().store, ready, b, hash, next, phase.next);
        Halt();
        return if e.Failed? then Refused else Lost;
      }
      assert Goal(b, |b.operations|) == Some(share) by { RunUnitsEnd(cfg.host, b.operations, share); }
      AdmitAgain(cfg, old(Now().store), Now().store, ready, b, hash, next, phase.next);
      r := Acknowledge(ready, b, hash);
    }

    /** Writes the receipt of an applied batch and removes its leftovers. */
    method Acknowledge(ready: string, b: Batch, hash: seq<byte>) returns (r: Commit)
      requires Valid() && phase == Applying(ready, b, hash, |b.operations|)
      modifies this`inbox, this`progress, this`receipts, this`power, this`phase, this`sealed
      modifies this`states, this`events
      ensures Valid() && phase.Idle? && !r.Refused?
      ensures r.Receipted? ==> r.receipt == ReceiptOf(b, hash)
      ensures r.Receipted? ==> inbox == old(inbox) - {ready} && ready !in progress
      ensures r.Lost? ==> power == 0 && old(power) < 3
      ensures || (Finished(b, hash, Some(share)) && sealed == old(sealed) + [b])
              || (r.Lost? && inbox == old(inbox) && progress == old(progress) && receipts == old(receipts) &&
                  sealed == old(sealed))
      ensures inbox - {ready} == old(inbox) - {ready} && progress - {ready} == old(progress) - {ready}
    {
      var receipt := ReceiptOf(b, hash);
      var ok := WriteReceipt(b, receipt);
      if !ok {
        return Lost;
      }
      ok := RemoveArtifacts(ready);
      return if ok then Receipted(receipt) else Lost;
    }

    /** Every check made before the share is touched. */
    method AdmitPackage(ready: string) returns (a: Admission)
      ensures a == Admit(cfg, Now().store, ready)
    {
      if ready !in inbox {
        return Rejected;
      }
      var data := inbox[ready];
      if cfg.maxBatchBytes > 0 && |data| > cfg.maxBatchBytes {
        return Rejected;
      }
      var d := Opened(cfg, data);
      if !d.Batched? {
        return Rejected;
      }
      var valid := ValidateBatch(d.batch);
      if !valid {
        return Rejected;
      }
      var file := cfg.receiptFile(d.batch.relayId);
      if file in receipts {
        var previous := receipts[file];
        if previous.protocol != PROTOCOL || previous.relayId != d.batch.relayId {
          return Rejected;
        }
        if previous.lastSeq >= d.batch.lastSeq {
          return Covered(previous);
        }
        if d.batch.firstSeq > (previous.lastSeq + 1) % TWO_TO_THE_64 {
          return Rejected;
        }
      }
      if ready !in progress {
        return Resume(d.batch, d.hash, 0);
      }
      if !ProgressMatches(progress[ready], d.batch, d.hash) {
        return Rejected;
      }
      return Resume(d.batch, d.hash, progress[ready].nextOperation);
    }

    /** Commits the ready package: refused, found to be covered, or applied from its recorded
        progress and acknowledged. */
    method CommitReady(ready: string) returns (r: Commit)
      requires Valid() && phase.Idle?
      modifies this`share, this`inbox, this`progress, this`receipts, this`power, this`phase, this`sealed
      modifies this`states, this`events
      ensures Valid() && phase.Idle?
      ensures var a := old(Admit(cfg, Now().store, ready));
              && (a.Rejected? ==> r.Refused? && Now() == old(Now()))
              && (a.Covered? ==> (r == Receipted(a.receipt) || r.Lost?) &&
                                 share == old(share) && receipts == old(receipts) && sealed == old(sealed))
              && (a.Resume? ==> a.next <= |a.batch.operations|)
              && (a.Resume? && r.Receipted? ==>
                    && r.receipt == ReceiptOf(a.batch, a.hash)
                    && Finished(a.batch, a.hash, old(Goal(a.batch, a.next)))
                    && OnFile(r.receipt, a.batch, old(inbox)[ready]))
              && (a.Resume? && r.Refused? ==> old(Goal(a.batch, a.next)) == None)
              && (a.Resume? ==>
                    || (Finished(a.batch, a.hash, old(Goal(a.batch, a.next))) && sealed == old(sealed) + [a.batch])
                    || (Pending(ready, a.batch, a.hash, old(Goal(a.batch, a.next))) && inbox == old(inbox) &&
                        sealed == old(sealed)))
      ensures inbox - {ready} == old(inbox) - {ready} && progress - {ready} == old(progress) - {ready}
      ensures r.Receipted? ==> inbox == old(inbox) - {ready} && ready !in progress
      ensures r.Receipted? ==> ready in old(inbox) && IsPackage(cfg, old(inbox)[ready])
      ensures r.Lost? ==>
                var a := old(Admit(cfg, Now().store, ready));
                power == 0 && old(power) < if a.Resume? then Cost(a.batch.operations, a.next) + 3 else 2
    {
      var a := AdmitPackage(ready);
      NextInRange(cfg, Now().store, ready);
      ghost var store := Now().store;
      hide Genuine;
      hide Acknowledges;
      if !a.Rejected? {
        AdmittedIsGenuine(cfg, store, ready);
      }
      if a.Resume? {
        ResumeAcknowledges(cfg, store, ready);
      }
      hide Behaviour;
      hide Initial;
      hide Admit;
      hide Cost;
      hide RunUnits;
      match a {
        case Rejected =>
          r := Refused;
        case Covered(previous) =>
          r := Recommit(ready, previous);
        case Resume(b, hash, next) =>
          r := CommitBatch(ready, b, hash, next);
      }
    }

    /** Delivers a package as a relay does, again after every loss of power. `budgets` says how
        many durable steps each attempt gets. If an attempt is acknowledged, the share is where
        one uninterrupted sequential run leads from where the batch stood at first, and the batch
        was sealed once; if one is refused, that run fails too. One attempt with three steps for
        each operation and three more always ends in one or the other. */
    method Deliver(ready: string, package: seq<byte>, budgets: seq<nat>) returns (r: Commit)
      requires Valid() && phase.Idle?
      modifies this
      ensures Valid() && phase.Idle?
      ensures var a := old(Admit(cfg, Store(share, inbox[ready := package], progress, receipts), ready));
              a.Resume? ==>
                && a.next <= |a.batch.operations|
                && (r.Receipted? ==>
                      && sealed == old(sealed) + [a.batch] && OnFile(r.receipt, a.batch, package)
                      && r.receipt == ReceiptOf(a.batch, a.hash)
                      && Finished(a.batch, a.hash, Sequential(cfg.host, a.batch.operations, a.next, old(share))))
                && (r.Refused? ==> Sequential(cfg.host, a.batch.operations, a.next, old(share)) == None)
                && (forall k :: 0 <= k < |budgets| && budgets[k] >= 3 * |a.batch.operations| + 3 ==> !r.Lost?)
      ensures r.Receipted? ==> IsPackage(cfg, package)
      ensures inbox - {ready} == old(inbox) - {ready} && progress - {ready} == old(progress) - {ready}
    {
      hide Behaviour;
      hide Initial;
      hide Admit;
      hide Cost;
      hide RunUnits;
      hide Sequential;
      ghost var first := Store(share, inbox[ready := package], progress, receipts);
      ghost var a := Admit(cfg, first, ready);
      NextInRange(cfg, first, ready);
      ghost var goal := if a.Resume? then Goal(a.batch, a.next) else None;
      hide Acknowledges;
      if a.Resume? {
        ResumeAcknowledges(cfg, first, ready);
        UnitsMeanSequential(cfg.host, a.batch.operations, a.next, share);
      }
      r := Lost;
      for k := 0 to |budgets|
        invariant Valid() && phase.Idle? && r.Lost?
        invariant a.Resume? ==> Awaiting(first, ready, a, goal, old(sealed))
        invariant a.Resume? ==> forall i :: 0 <= i < k ==> budgets[i] < 3 * |a.batch.operations| + 3
        invariant inbox - {ready} == old(inbox) - {ready} && progress - {ready} == old(progress) - {ready}
      {
        r := Attempt(ready, package, budgets[k], first, a, goal, old(sealed));
        if !r.Lost? {
          return;
        }
      }
    }

    method PowerUp(budget: nat)
      requires Valid()
      modifies this`power
      ensures Valid() && power == budget
    {
      power := budget;
    }

    /** One upload and one commit with the given number of durable steps. */
    method Attempt(ready: string, package: seq<byte>, budget: nat, ghost first: Store, ghost a: Admission,
                   ghost goal: Option<Tree>, ghost before: seq<Batch>)
      returns (r: Commit)
      requires Valid() && phase.Idle? && ready in first.inbox && first.inbox[ready] == package
      requires a == Admit(cfg, first, ready) && (a.Resume? ==> Awaiting(first, ready, a, goal, before))
      modifies this
      ensures Valid() && phase.Idle?
      ensures a.Resume? && r.Lost? ==>
                Awaiting(first, ready, a, goal, before) && budget < 3 * |a.batch.operations| + 3
      ensures a.Resume? && r.Receipted? ==>
                && r.receipt == ReceiptOf(a.batch, a.hash) && sealed == before + [a.batch]
                && Finished(a.batch, a.hash, goal)
      ensures r.Receipted? ==> IsPackage(cfg, package)
      ensures a.Resume? && r.Refused? ==> goal == None
      ensures inbox - {ready} == old(inbox) - {ready} && progress - {ready} == old(progress) - {ready}
    {
      hide Behaviour;
      hide Initial;
      hide Admit;
      hide Cost;
      hide RunUnits;
      hide Valid;
      PowerUp(budget);
      UploadFrame(inbox, ready, package);
      Receive(ready, package);
      if a.Resume? && Finished(a.batch, a.hash, goal) {
        FinishedIsCovered(cfg, first, Now().store, ready);
      }
      ghost var now := Admit(cfg, Now().store, ready);
      if now.Resume? {
        NextInRange(cfg, Now().store, ready);
        CostBound(now.batch.operations, now.next);
      }
      r := CommitReady(ready);
      UploadFrame(inbox, ready, package);
    }

    /** Between deliveries: the batch is finished, or the package would be admitted where it
        stopped and lead to the same goal. */
    ghost predicate Awaiting(first: Store, ready: string, a: Admission, goal: Option<Tree>, before: seq<Batch>)
      requires a.Resume? && ready in first.inbox
      reads this
    {
      || (Finished(a.batch, a.hash, goal) && sealed == before + [a.batch])
      || (var b := Admit(cfg, Now().store.(inbox := inbox[ready := first.inbox[ready]]), ready);
          b.Resume? && b.batch == a.batch && b.hash == a.hash && b.next <= |a.batch.operations| &&
          Goal(a.batch, b.next) == goal && sealed == before)
    }
  }

  lemma UploadFrame(inbox: map<string, seq<byte>>, ready: string, package: seq<byte>)
    ensures inbox[ready := package] - {ready} == inbox - {ready}
    ensures ready in inbox && inbox[ready] == package ==> inbox[ready := package] == inbox
  {}

  /** The bytes are a genuine package of some batch. */
  ghost predicate IsPackage(cfg: Config, data: seq<byte>) {
    exists b, hash :: Genuine(cfg.codec, data, b, hash)
  }

  lemma ResumeAcknowledges(cfg: Config, s: Store, ready: string)
    requires Admit(cfg, s, ready).Resume?
    ensures ready in s.inbox
    ensures var a := Admit(cfg, s, ready); Acknowledges(cfg, ReceiptOf(a.batch, a.hash), a.batch, s.inbox[ready])
  {
    hide Opened;
    hide ValidBatch;
    var a := Admit(cfg, s, ready);
    ReceiptAcknowledges(cfg, a.batch, a.hash, s.inbox[ready]);
  }

  lemma NextInRange(cfg: Config, s: Store, ready: string)
    ensures var a := Admit(cfg, s, ready); a.Resume? ==> a.next <= |a.batch.operations| && ready in s.inbox
  {
    hide Opened;
  }

  /** Once its receipt is written, the package is covered when it comes again. */
  lemma FinishedIsCovered(cfg: Config, s: Store, s': Store, ready: string)
    requires Admit(cfg, s, ready).Resume? && ready in s.inbox && ready in s'.inbox
    requires s'.inbox[ready] == s.inbox[ready]
    requires var a := Admit(cfg, s, ready); var file := cfg.receiptFile(a.batch.relayId);
             file in s'.receipts && s'.receipts[file] == ReceiptOf(a.batch, a.hash)
    ensures var a := Admit(cfg, s, ready); Admit(cfg, s', ready) == Covered(ReceiptOf(a.batch, a.hash))
  {
    hide Opened;
  }

  function ProgressAt(was: map<string, Progress>, ready: string, b: Batch, hash: seq<byte>,
                      start: nat, next: nat): map<string, Progress>
  {
    if next == start then was else was[ready := Progress(1, b.relayId, b.batchId, hash, next)]
  }

  lemma RunUnitsEnd(h: Host, ops: seq<Operation>, t: Tree)
    ensures RunUnits(h, ops, |ops|, t) == Some(t)
  {}

  /** A unit that conserves its meaning conserves the run's. */
  lemma UnitOutcome(h: Host, ops: seq<Operation>, i: nat, was: Tree, now: Tree)
    requires i < |ops| && ApplyUnit(h, ops, i, now) == ApplyUnit(h, ops, i, was)
    ensures RunUnits(h, ops, i, now) == RunUnits(h, ops, i, was)
    ensures ApplyUnit(h, ops, i, was) == None ==> RunUnits(h, ops, i, was) == None
    ensures ApplyUnit(h, ops, i, was) == Some(now) ==>
              RunUnits(h, ops, i, was) == RunUnits(h, ops, UnitEnd(ops, i), now)
  {
    hide ApplyUnit;
  }

  /** After a stop, the package is admitted at the progress it reached. */
  lemma AdmitAgain(cfg: Config, s: Store, s': Store, ready: string, b: Batch, hash: seq<byte>,
                   next: nat, reached: nat)
    requires Admit(cfg, s, ready) == Resume(b, hash, next) && next <= reached <= |b.operations|
    requires s'.inbox == s.inbox && s'.receipts == s.receipts
    requires s'.progress == ProgressAt(s.progress, ready, b, hash, next, reached)
    ensures Admit(cfg, s', ready) == Resume(b, hash, reached)
  {
    hide Opened;
  }
}
