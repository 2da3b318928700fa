/**
 Packages that pass for each other. A progress record names its package by relay, batch and the hash
 of the body, but the hash leaves out the header, and the header says where the manifest ends. Two
 packages with one body can hold different operations, and then one is resumed where the other
 stopped.
 */
module Mismatch {
  import opened Bytes
  import opened Wrappers
  import opened Writes
  import opened Share
  import opened Journal
  import opened Package
  import opened Recovery

  // ----- When progress can be trusted -----

  lemma WholeUnitIsTorn(h: Host, ops: seq<Operation>, i: nat, t: Tree)
    requires i < |ops| && ApplyUnit(h, ops, i, t).Some?
    ensures TornUnit(h, ops, i, t, ApplyUnit(h, ops, i, t).value)
  {
    if ops[i].kind.OpWrite? {
      RunIsTorn(h, ops[i..UnitEnd(ops, i)], t);
    }
  }

  function Start(t: Tree): State {
    State(Store(t, map[], map[], map[]), Idle, map[], [])
  }

  function Received(s: State, name: string, data: seq<byte>): State {
    s.(store := s.store.(inbox := s.store.inbox[name := data]), uploaded := s.uploaded[name := data])
  }

  function Landed(s: State, t: Tree): State {
    s.(store := s.store.(share := t))
  }

  /** The first package up to its first checkpoint, a stop, and the second package in its place. */
  function Interrupted(name: string, first: seq<byte>, second: seq<byte>, u: Tree): seq<Event> {
    [Upload(name, first), Begin(name), Land(u), Checkpoint, Stop, Upload(name, second), Begin(name)]
  }

  lemma FreshResumes(cfg: Config, s: State, name: string)
    requires name in s.store.inbox && Readable(cfg, s.store.inbox[name])
    requires s.store.receipts == map[] && s.phase.Idle?
    requires var d := Opened(cfg, s.store.inbox[name]);
             name in s.store.progress ==> ProgressMatches(s.store.progress[name], d.batch, d.hash)
    ensures var d := Opened(cfg, s.store.inbox[name]);
            var next := if name in s.store.progress then s.store.progress[name].nextOperation else 0;
            Next(cfg, s, Begin(name), s.(phase := Applying(name, d.batch, d.hash, next)))
  {
    hide Opened;
    hide ValidBatch;
  }

  /** A first package is received, begun, and its first unit lands and is checkpointed. */
  lemma FirstPackage(cfg: Config, name: string, data: seq<byte>, t: Tree, u: Tree, s1: State, s2: State, s3: State)
    requires Readable(cfg, data)
    requires var d := Opened(cfg, data);
             && ApplyUnit(cfg.host, d.batch.operations, 0, t) == Some(u)
             && s1 == Received(Start(t), name, data)
             && s2 == s1.(phase := Applying(name, d.batch, d.hash, 0))
             && s3 == Landed(s2, u)
    ensures Next(cfg, Start(t), Upload(name, data), s1)
    ensures Next(cfg, s1, Begin(name), s2)
    ensures Next(cfg, s2, Land(u), s3)
    ensures Next(cfg, s3, Checkpoint, Checkpointed(s3))
  {
    hide Opened;
    hide ApplyUnit;
    hide TornUnit;
    hide Admit;
    var ops := Opened(cfg, data).batch.operations;
    WholeUnitIsTorn(cfg.host, ops, 0, t);
    UnitTwice(cfg.host, ops, 0, t);
    FreshResumes(cfg, s1, name);
  }

  /** Another package takes its place after a stop and is taken for it. */
  lemma SecondPackage(cfg: Config, name: string, data: seq<byte>, s: State, s': State)
    requires Readable(cfg, data) && s.store.receipts == map[] && name in s.store.progress
    requires var d, p := Opened(cfg, data), s.store.progress[name];
             && ProgressMatches(p, d.batch, d.hash)
             && s' == Received(s.(phase := Idle), name, data).(
                        phase := Applying(name, d.batch, d.hash, p.nextOperation))
    ensures Next(cfg, s, Stop, s.(phase := Idle))
    ensures Next(cfg, s.(phase := Idle), Upload(name, data), Received(s.(phase := Idle), name, data))
    ensures Next(cfg, Received(s.(phase := Idle), name, data), Begin(name), s')
  {
    hide Opened;
    hide Admit;
    FreshResumes(cfg, Received(s.(phase := Idle), name, data), name);
  }

  /** From a share that takes the first package's first unit, the second package is resumed behind a
      unit that was never applied for it. */
  lemma ConfusedRun(cfg: Config, name: string, first: seq<byte>, second: seq<byte>, t: Tree)
    returns (states: seq<State>, events: seq<Event>)
    requires Confusable(cfg, first, second)
    requires ApplyUnit(cfg.host, Opened(cfg, first).batch.operations, 0, t).Some?
    ensures Behaviour(cfg, states, events) && states[0] == Start(t)
    ensures var x, y := Opened(cfg, first), Opened(cfg, second);
            var u := ApplyUnit(cfg.host, x.batch.operations, 0, t).value;
            && events == Interrupted(name, first, second, u)
            && states[3].phase == Applying(name, x.batch, x.hash, 0)
            && states[7].store.share == u && states[7].sealed == []
            && states[7].phase == Applying(name, y.batch, y.hash, UnitEnd(x.batch.operations, 0))
  {
    hide Opened;
    hide Next;
    hide ApplyUnit;
    hide ValidBatch;
    var x, y := Opened(cfg, first), Opened(cfg, second);
    var u := ApplyUnit(cfg.host, x.batch.operations, 0, t).value;
    var s1 := Received(Start(t), name, first);
    var s2 := s1.(phase := Applying(name, x.batch, x.hash, 0));
    var s3 := Landed(s2, u);
    var s4 := Checkpointed(s3);
    var s5 := s4.(phase := Idle);
    var s6 := Received(s5, name, second);
    var s7 := s6.(phase := Applying(name, y.batch, y.hash, UnitEnd(x.batch.operations, 0)));
    FirstPackage(cfg, name, first, t, u, s1, s2, s3);
    SecondPackage(cfg, name, second, s4, s7);
    states, events := [Start(t), s1, s2, s3, s4, s5, s6, s7], Interrupted(name, first, second, u);
  }

  /** In that run the second batch's first unit is not on record. */
  lemma FirstUnitMissing(cfg: Config, name: string, first: seq<byte>, second: seq<byte>, u: Tree,
                         states: seq<State>, events: seq<Event>, n: nat, known: string, hash: seq<byte>)
    requires Confusable(cfg, first, second) && n <= |events| && |states| == |events| + 1
    requires Interrupted(name, first, second, u) <= events
    requires states[3].phase == Applying(name, Opened(cfg, first).batch, Opened(cfg, first).hash, 0)
    requires forall j :: 7 <= j < |events| && events[j].Checkpoint? ==>
               states[j].phase.Applying? ==> states[j].phase.next > 0
    ensures !Recorded(cfg, states, events, n, known, Opened(cfg, second).batch, hash, 0)
  {
    hide Opened;
    hide ApplyUnit;
    hide ValidBatch;
    var b := Opened(cfg, second).batch;
    forall j | 0 <= j < n
      ensures !Records(cfg, states[j], events[j], known, b, hash, 0)
    {
      if j < 7 {
        assert events[j] == Interrupted(name, first, second, u)[j];
      }
    }
  }

  /** Every run over these packages resumes only behind what was applied, exactly when no two of them
      can be confused. */
  lemma UnconfusedIff(cfg: Config, sends: iset<(string, seq<byte>)>)
    ensures Unconfused(cfg, sends) <==>
            forall states, events ::
              Behaviour(cfg, states, events) && Initial(states[0]) && Within(events, sends) ==>
                ResumesSoundly(cfg, states, events)
  {
    hide Next;
    hide Unconfused;
    hide Within;
    hide ResumesSoundly;
    if Unconfused(cfg, sends) {
      forall states, events | Behaviour(cfg, states, events) && Initial(states[0]) && Within(events, sends)
        ensures ResumesSoundly(cfg, states, events)
      {
        UnconfusedResumes(cfg, sends, states, events);
      }
    } else {
      var states, events := UnsoundRun(cfg, sends);
    }
  }

  lemma UnsoundRun(cfg: Config, sends: iset<(string, seq<byte>)>) returns (states: seq<State>, events: seq<Event>)
    requires !Unconfused(cfg, sends)
    ensures Behaviour(cfg, states, events) && Initial(states[0]) && Within(events, sends)
    ensures !ResumesSoundly(cfg, states, events)
  {
    hide Opened;
    hide ApplyUnit;
    hide Next;
    hide ValidBatch;
    var name, first, second :|
      (name, first) in sends && (name, second) in sends && Confusable(cfg, first, second);
    var x, y := Opened(cfg, first), Opened(cfg, second);
    var t :| ApplyUnit(cfg.host, x.batch.operations, 0, t).Some?;
    states, events := ConfusedRun(cfg, name, first, second, t);
    var u := ApplyUnit(cfg.host, x.batch.operations, 0, t).value;
    FirstUnitMissing(cfg, name, first, second, u, states, events, 6, name, y.hash);
    assert Boundary(y.batch.operations, 0);
    assert events[6].Begin?;
    assert !Done(cfg, states, events, 6, name, y.batch, y.hash, UnitEnd(x.batch.operations, 0));
  }

  // ----- Packages the encoder made -----

  ghost predicate Encoded(c: Codec, b: Batch) {
    && |Payload(b.operations)| < TWO_TO_THE_63 && |c.marshal(ManifestOf(b))| < 0x1_0000_0000
    && c.unmarshal(c.marshal(ManifestOf(b))) == Some(ManifestOf(b))
  }

  function Body(c: Codec, b: Batch): seq<byte>
    requires |Payload(b.operations)| < TWO_TO_THE_63
  {
    c.marshal(ManifestOf(b)) + Payload(b.operations)
  }

  /** Both can be encoded, the digest does not collide on them, and neither manifest is the beginning
      of the other: a JSON object ends with its closing brace. */
  ghost predicate Unambiguous(c: Codec, a: Batch, b: Batch) {
    && Encoded(c, a) && Encoded(c, b)
    && (c.digest(Body(c, a)) == c.digest(Body(c, b)) ==> Body(c, a) == Body(c, b))
    && var m, n := c.marshal(ManifestOf(a)), c.marshal(ManifestOf(b));
       m <= n || n <= m ==> m == n
  }

  lemma EncodedOnce(c: Codec, a: Batch, b: Batch)
    requires Unambiguous(c, a, b) && c.digest(Body(c, a)) == c.digest(Body(c, b))
    ensures Layout(c, a) == Layout(c, b)
  {
    var m, n := c.marshal(ManifestOf(a)), c.marshal(ManifestOf(b));
    var body := Body(c, a);
    assert body[..|m|] == m && body[..|n|] == n;
    assert m <= n || n <= m;
    assert body[|m|..] == Payload(a.operations) && body[|n|..] == Payload(b.operations);
  }

  ghost predicate Carried(c: Codec, batches: iset<Batch>, data: seq<byte>) {
    exists b :: b in batches && Encoded(c, b) && data == Layout(c, b)
  }

  /** Packages made by the encoder are never confused. */
  lemma EncodedUnconfused(cfg: Config, sends: iset<(string, seq<byte>)>, batches: iset<Batch>)
    requires ValidCodec(cfg.codec)
    requires forall a, b :: a in batches && b in batches ==> Unambiguous(cfg.codec, a, b)
    requires forall s :: s in sends ==> Carried(cfg.codec, batches, s.1)
    ensures Unconfused(cfg, sends)
  {
    hide Opened;
    hide Unambiguous;
    hide Layout;
    hide Confusable;
    forall name, first, second | (name, first) in sends && (name, second) in sends
      ensures !Confusable(cfg, first, second)
    {
      assert Carried(cfg.codec, batches, (name, first).1) && Carried(cfg.codec, batches, (name, second).1);
      var a :| a in batches && Encoded(cfg.codec, a) && first == Layout(cfg.codec, a);
      var b :| b in batches && Encoded(cfg.codec, b) && second == Layout(cfg.codec, b);
      EncodedNotConfusable(cfg, a, b);
    }
  }

  lemma EncodedNotConfusable(cfg: Config, a: Batch, b: Batch)
    requires ValidCodec(cfg.codec) && Unambiguous(cfg.codec, a, b)
    ensures !Confusable(cfg, Layout(cfg.codec, a), Layout(cfg.codec, b))
  {
    hide Layout;
    hide Decode;
    hide ValidBatch;
    hide Startable;
    var x, y := Layout(cfg.codec, a), Layout(cfg.codec, b);
    RoundTrip(cfg.codec, a, cfg.spare(x));
    RoundTrip(cfg.codec, b, cfg.spare(y));
    if Opened(cfg, x).hash == Opened(cfg, y).hash {
      EncodedOnce(cfg.codec, a, b);
    }
  }

  // ----- Receipts for operations that were not applied -----

  lemma AppendStep(cfg: Config, states: seq<State>, events: seq<Event>, e: Event, s: State)
    requires Behaviour(cfg, states, events) && Next(cfg, states[|events|], e, s)
    ensures Behaviour(cfg, states + [s], events + [e]) && (states + [s])[|events| + 1] == s
  {
    hide Next;
    var ss, es := states + [s], events + [e];
    forall k | 0 <= k < |es|
      ensures Next(cfg, ss[k], es[k], ss[k + 1])
    {
      if k < |events| {
        assert Next(cfg, states[k], events[k], states[k + 1]);
      }
    }
  }

  lemma OneUnit(cfg: Config, s: State) returns (landed: State)
    requires s.phase.Applying? && s.phase.next < |s.phase.batch.operations| && Outcome(cfg, s).Some?
    ensures landed == Landed(s, landed.store.share)
    ensures Next(cfg, s, Land(landed.store.share), landed) && Next(cfg, landed, Checkpoint, Checkpointed(landed))
    ensures Outcome(cfg, Checkpointed(landed)) == Outcome(cfg, s)
  {
    hide ApplyUnit;
    hide TornUnit;
    var ops, next := s.phase.batch.operations, s.phase.next;
    WholeUnitIsTorn(cfg.host, ops, next, s.store.share);
    UnitTwice(cfg.host, ops, next, s.store.share);
    landed := Landed(s, ApplyUnit(cfg.host, ops, next, s.store.share).value);
  }

  /** A commit that can finish is finished and sealed. */
  lemma {:induction false} Finish(cfg: Config, states: seq<State>, events: seq<Event>)
    returns (ss: seq<State>, es: seq<Event>)
    requires Behaviour(cfg, states, events)
    requires var s := states[|events|];
             && s.phase.Applying? && s.phase.next <= |s.phase.batch.operations|
             && Outcome(cfg, s).Some?
    ensures Behaviour(cfg, ss, es) && states <= ss && events <= es
    ensures var s, s' := states[|events|], ss[|es|];
            && s'.sealed == s.sealed + [s.phase.batch] && Some(s'.store.share) == Outcome(cfg, s)
            && forall j :: |events| <= j < |es| ==>
                 !es[j].Upload? && ss[j].phase.Applying? && ss[j].phase.next >= s.phase.next
    decreases var p := states[|events|].phase; |p.batch.operations| - p.next
  {
    hide Next;
    var s := states[|events|];
    if s.phase.next == |s.phase.batch.operations| {
      ss, es := states + [Sealed(cfg, s)], events + [Seal];
      SealStep(cfg, s);
      AppendStep(cfg, states, events, Seal, Sealed(cfg, s));
    } else {
      hide Behaviour;
      hide Outcome;
      var landed := OneUnit(cfg, s);
      var land, after := Land(landed.store.share), Checkpointed(landed);
      AppendStep(cfg, states, events, land, landed);
      AppendStep(cfg, states + [landed], events + [land], Checkpoint, after);
      ss, es := Finish(cfg, states + [landed] + [after], events + [land] + [Checkpoint]);
      assert ss[|events|] == s && ss[|events| + 1] == landed;
    }
  }

  lemma SealStep(cfg: Config, s: State)
    requires s.phase.Applying? && s.phase.next == |s.phase.batch.operations|
    ensures Next(cfg, s, Seal, Sealed(cfg, s))
  {}

  /** When the first package's first unit applies and the second's operations behind it do, the second
      is acknowledged though its first unit was never applied. */
  lemma SealedUnapplied(cfg: Config, name: string, first: seq<byte>, second: seq<byte>, t: Tree)
    returns (states: seq<State>, events: seq<Event>)
    requires Confusable(cfg, first, second)
    requires var ops := Opened(cfg, first).batch.operations;
             && ApplyUnit(cfg.host, ops, 0, t).Some?
             && RunUnits(cfg.host, Opened(cfg, second).batch.operations, UnitEnd(ops, 0),
                         ApplyUnit(cfg.host, ops, 0, t).value).Some?
    ensures Behaviour(cfg, states, events) && states[0] == Start(t)
    ensures var x, y, n := Opened(cfg, first).batch, Opened(cfg, second).batch, |events|;
            && states[n].sealed == [y] && !AppliedWhole(cfg, states, events, n, y)
            && Some(states[n].store.share) ==
               RunUnits(cfg.host, y.operations, UnitEnd(x.operations, 0),
                        ApplyUnit(cfg.host, x.operations, 0, t).value)
  {
    hide Opened;
    hide ApplyUnit;
    hide RunUnits;
    hide Next;
    hide ValidBatch;
    hide Records;
    var ss, es := ConfusedRun(cfg, name, first, second, t);
    states, events := Finish(cfg, ss, es);
    var y, u := Opened(cfg, second).batch, es[2].share;
    assert states[3] == ss[3];
    forall known, hash
      ensures !Done(cfg, states, events, |events|, known, y, hash, |y.operations|)
    {
      FirstUnitMissing(cfg, name, first, second, u, states, events, |events|, known, hash);
      assert Boundary(y.operations, 0);
    }
  }

  // ----- An input -----

  const X: Path := ["x"]
  const WRITE := Operation(1, OpWrite, "x", "", "", 0, 1, 0, 0, 0, [])
  const MANIFEST := Manifest("r", "1", 1, 1, [WireOperation(WRITE, 0, 1)])

  function OneByte(v: byte): Batch {
    Batch("r", "1", 1, 1, [WRITE.(data := [v])])
  }

  function OneFile(bytes: seq<byte>): Tree {
    map[[] := Dir(NewAttrs(0)), X := File(bytes, NewAttrs(0))]
  }

  /** A manifest followed by a space and a letter, of which the header counts the first `k` to the
      manifest. */
  function Framed(c: Codec, m: seq<byte>, k: nat): seq<byte>
    requires |m| + 2 < 0x1_0000_0000 && k <= 1
  {
    var body := m + [0x20, 0x58];
    MAGIC + PutBE32(|m| + k) + PutBE64(2 - k) + c.digest(body) + body
  }

  /** The manifest decodes with and without white space behind it. */
  ghost predicate IgnoresSpace(cfg: Config, m: seq<byte>) {
    && ValidCodec(cfg.codec) && cfg.maxBatchBytes <= 0 && |m| + 2 < 0x1_0000_0000
    && cfg.codec.unmarshal(m) == Some(MANIFEST) && cfg.codec.unmarshal(m + [0x20]) == Some(MANIFEST)
  }

  lemma SplitBody(m: seq<byte>, k: nat)
    requires k <= 1
    ensures var body := m + [0x20, 0x58];
            && body[..|m| + k] == (if k == 0 then m else m + [0x20])
            && Attached(MANIFEST.operations, body[|m| + k..]) ==
               Some(OneByte(if k == 0 then 0x20 else 0x58).operations)
  {
    var payload := (m + [0x20, 0x58])[|m| + k..];
    var v: byte := if k == 0 then 0x20 else 0x58;
    assert payload[0..1] == [v];
    assert Attached(MANIFEST.operations, payload).value == OneByte(v).operations;
  }

  lemma FramedHolds(cfg: Config, m: seq<byte>, k: nat)
    requires IgnoresSpace(cfg, m) && k <= 1
    ensures Opened(cfg, Framed(cfg.codec, m, k)) ==
            Batched(OneByte(if k == 0 then 0x20 else 0x58), cfg.codec.digest(m + [0x20, 0x58]))
    ensures Readable(cfg, Framed(cfg.codec, m, k))
  {
    hide Attached;
    hide Decode;
    hide GetBE32;
    hide GetBE64;
    hide PutBE32;
    hide PutBE64;
    var c, body, data := cfg.codec, m + [0x20, 0x58], Framed(cfg.codec, m, k);
    LayoutFields(|m| + k, 2 - k, c.digest(body), body);
    SplitBody(m, k);
    DecodeLayout(c, MANIFEST, |m| + k, 2 - k, body, data, cfg.spare(data));
  }

  lemma WriteByte(h: Host, bytes: seq<byte>, v: byte)
    requires h.resolve("x") == Some(X) && |bytes| <= 1
    ensures ApplyUnit(h, OneByte(v).operations, 0, OneFile(bytes)) == Some(OneFile([v]))
    ensures Sequential(h, OneByte(v).operations, 0, OneFile(bytes)) == Some(OneFile([v]))
  {
    var ops := OneByte(v).operations;
    assert ops[0..1] == ops;
    assert WriteAt(bytes, WriteOf(ops[0])) == [v];
    assert OneFile(bytes)[X := File([v], NewAttrs(0))] == OneFile([v]);
    assert WriteAll(h, ops[..0], OneFile(bytes)) == Some(OneFile(bytes));
    assert Step(h, ops, 0, OneFile(bytes)) == Some(OneFile([v]));
  }

  /** One body with its boundary one byte further on: the first package writes a space, power is lost
      after its checkpoint, and the second, which means the letter, is acknowledged with the space in
      the file. */
  lemma LoseLetter(cfg: Config, name: string, m: seq<byte>) returns (states: seq<State>, events: seq<Event>)
    requires cfg.host.resolve("x") == Some(X) && IgnoresSpace(cfg, m)
    ensures Behaviour(cfg, states, events) && Initial(states[0]) && states[0].store.share == OneFile([])
    ensures states[|events|].sealed == [OneByte(0x58)]
    ensures !AppliedWhole(cfg, states, events, |events|, OneByte(0x58))
    ensures states[|events|].store.share == OneFile([0x20])
    ensures Sequential(cfg.host, OneByte(0x58).operations, 0, OneFile([])) == Some(OneFile([0x58]))
  {
    hide Opened;
    hide ApplyUnit;
    hide Sequential;
    hide Next;
    hide AppliedWhole;
    hide Framed;
    var first, second := Framed(cfg.codec, m, 0), Framed(cfg.codec, m, 1);
    FramedHolds(cfg, m, 0);
    FramedHolds(cfg, m, 1);
    WriteByte(cfg.host, [], 0x20);
    WriteByte(cfg.host, [], 0x58);
    assert OneByte(0x20).operations[0] != OneByte(0x58).operations[0];
    assert Confusable(cfg, first, second);
    states, events := SealedUnapplied(cfg, name, first, second, OneFile([]));
  }
}
