/**
 One relay driving the backend with a journal of contiguous batches. The relay may repeat any
 package at any time, and the backend may stop at any point, but a new batch is uploaded only
 once the receipt reaches the batch before it. Then the share is always the sequential meaning
 of the acknowledged batches, plus at most one batch that is on its way.
 */
module Relay {
  import opened Bytes
  import opened Wrappers
  import opened Share
  import opened Journal
  import opened Package
  import opened Recovery

  /** The relay's journal: its batches, the ready name each is uploaded under, and the package
      uploaded for it with its hash. */
  datatype Log = Log(relayId: string, batches: seq<Batch>, names: seq<string>,
                     packages: seq<seq<byte>>, hashes: seq<seq<byte>>)

  ghost predicate ValidLog(cfg: Config, log: Log) {
    && |log.names| == |log.packages| == |log.hashes| == |log.batches|
    && (forall i, j :: 0 <= i < j < |log.names| ==> log.names[i] != log.names[j])
    && (forall i :: 0 <= i < |log.packages| ==>
          Opened(cfg, log.packages[i]) == Batched(log.batches[i], log.hashes[i]))
    && (forall i :: 0 <= i < |log.batches| ==>
          log.batches[i].relayId == log.relayId && log.batches[i].firstSeq <= log.batches[i].lastSeq)
    && (forall i :: 0 <= i < |log.batches| - 1 ==> log.batches[i].lastSeq + 1 == log.batches[i + 1].firstSeq)
  }

  /** Packages made by the encoder are as the journal needs them. */
  lemma EncodedPackage(cfg: Config, b: Batch)
    requires ValidCodec(cfg.codec)
    requires |Payload(b.operations)| < TWO_TO_THE_63
    requires |cfg.codec.marshal(ManifestOf(b))| < 0x1_0000_0000
    requires cfg.codec.unmarshal(cfg.codec.marshal(ManifestOf(b))) == Some(ManifestOf(b))
    ensures Opened(cfg, Layout(cfg.codec, b)).Batched?
    ensures Opened(cfg, Layout(cfg.codec, b)).batch == b
  {
    RoundTrip(cfg.codec, b, cfg.spare(Layout(cfg.codec, b)));
  }

  lemma {:induction false} LogAscends(cfg: Config, log: Log, i: nat, j: nat)
    requires ValidLog(cfg, log) && i < j < |log.batches|
    ensures log.batches[i].lastSeq < log.batches[j].firstSeq
  {
    if i < j - 1 {
      LogAscends(cfg, log, i, j - 1);
    }
    assert log.batches[j - 1].lastSeq + 1 == log.batches[j].firstSeq;
  }

  /** The batch may be sent: it is the first and nothing is acknowledged, or it starts at or
      before the number after the receipt's. */
  ghost predicate MaySend(cfg: Config, log: Log, receipts: map<string, Receipt>, j: nat)
    requires j < |log.batches|
  {
    var file := cfg.receiptFile(log.relayId);
    if file !in receipts then j == 0
    else log.batches[j].firstSeq <= receipts[file].lastSeq + 1
  }

  /** The event is one the relay may cause, or one of the backend's own. */
  ghost predicate Disciplined(cfg: Config, log: Log, s: State, e: Event)
    requires ValidLog(cfg, log)
  {
    e.Upload? ==>
      exists j :: 0 <= j < |log.batches| && e.name == log.names[j] && e.data == log.packages[j] &&
                  MaySend(cfg, log, s.store.receipts, j)
  }

  /** The sequential meaning of the first `k` batches. */
  function Fold(h: Host, batches: seq<Batch>, k: nat, t: Tree): Option<Tree>
    requires k <= |batches|
  {
    if k == 0 then Some(t)
    else
      var r := Fold(h, batches, k - 1, t);
      if r.None? then None else Sequential(h, batches[k - 1].operations, 0, r.value)
  }

  function NextOf(progress: map<string, Progress>, name: string): int {
    if name in progress then progress[name].nextOperation else 0
  }

  // ----- The invariant, with `k` batches acknowledged -----

  ghost predicate Acknowledged(cfg: Config, log: Log, receipts: map<string, Receipt>, k: nat)
    requires ValidLog(cfg, log) && k <= |log.batches|
  {
    var file := cfg.receiptFile(log.relayId);
    && (file in receipts <==> k > 0)
    && (k > 0 ==>
          && receipts[file].protocol == PROTOCOL
          && receipts[file].relayId == log.relayId
          && receipts[file].lastSeq == log.batches[k - 1].lastSeq)
  }

  /** Only packages up to the next batch are in the inbox. */
  ghost predicate InboxKnown(cfg: Config, log: Log, inbox: map<string, seq<byte>>, k: nat)
    requires ValidLog(cfg, log)
  {
    forall name :: name in inbox ==>
      exists j :: 0 <= j < |log.names| && j <= k && name == log.names[j] && inbox[name] == log.packages[j]
  }

  /** No batch beyond the next has progress, nor the next one before its package arrives. */
  ghost predicate ProgressKnown(cfg: Config, log: Log, inbox: map<string, seq<byte>>,
                                progress: map<string, Progress>, k: nat)
    requires ValidLog(cfg, log)
  {
    && (forall j :: k < j < |log.names| ==> log.names[j] !in progress)
    && (k < |log.names| && log.names[k] !in inbox ==> log.names[k] !in progress)
  }

  /** The batch on its way is at a unit boundary, and finishing it from here gives what running
      it in one go after the acknowledged batches gives. */
  ghost predicate OnItsWay(cfg: Config, log: Log, share: Tree, waiting: bool, progress: map<string, Progress>,
                           k: nat, t0: Tree)
    requires ValidLog(cfg, log) && k <= |log.batches|
  {
    var done := Fold(cfg.host, log.batches, k, t0);
    && done.Some?
    && (!waiting ==> share == done.value)
    && (k < |log.batches| ==>
          var b, next := log.batches[k], NextOf(progress, log.names[k]);
          && (log.names[k] in progress ==> ProgressMatches(progress[log.names[k]], b, log.hashes[k]))
          && Boundary(b.operations, next)
          && RunUnits(cfg.host, b.operations, next, share) == RunUnits(cfg.host, b.operations, 0, done.value))
  }

  /** The next batch's package is in the inbox. */
  ghost predicate Waiting(cfg: Config, log: Log, inbox: map<string, seq<byte>>, k: nat)
    requires ValidLog(cfg, log)
  {
    k < |log.names| && log.names[k] in inbox
  }

  ghost predicate InStep(cfg: Config, log: Log, phase: Phase, waiting: bool, progress: map<string, Progress>, k: nat)
    requires ValidLog(cfg, log) && k <= |log.batches|
  {
    match phase
    case Idle => true
    case Applying(ready, b, hash, next) =>
      && waiting && k < |log.batches| && ready == log.names[k]
      && b == log.batches[k] && hash == log.hashes[k] && next == NextOf(progress, ready)
    case Removing(ready) => exists j :: 0 <= j < k && ready == log.names[j]
  }

  ghost predicate RelayInv(cfg: Config, log: Log, s: State, k: nat, t0: Tree)
    requires ValidLog(cfg, log) && k <= |log.batches|
  {
    var waiting := Waiting(cfg, log, s.store.inbox, k);
    && Acknowledged(cfg, log, s.store.receipts, k)
    && InboxKnown(cfg, log, s.store.inbox, k)
    && ProgressKnown(cfg, log, s.store.inbox, s.store.progress, k)
    && OnItsWay(cfg, log, s.store.share, waiting, s.store.progress, k, t0)
    && InStep(cfg, log, s.phase, waiting, s.store.progress, k)
  }

  // ----- Preservation, event by event -----

  lemma TooNewIsNotSent(cfg: Config, log: Log, receipts: map<string, Receipt>, j: nat, k: nat)
    requires ValidLog(cfg, log) && k < j < |log.batches| && Acknowledged(cfg, log, receipts, k)
    ensures !MaySend(cfg, log, receipts, j)
  {
    hide Opened;
    if k > 0 {
      LogAscends(cfg, log, k - 1, k);
      LogAscends(cfg, log, k, j);
    }
  }

  lemma InboxAdd(cfg: Config, log: Log, inbox: map<string, seq<byte>>, j: nat, k: nat)
    requires ValidLog(cfg, log) && InboxKnown(cfg, log, inbox, k) && j < |log.batches| && j <= k
    ensures InboxKnown(cfg, log, inbox[log.names[j] := log.packages[j]], k)
  {}

  lemma UploadKeeps(cfg: Config, log: Log, s: State, e: Event, k: nat, t0: Tree)
    requires ValidLog(cfg, log) && k <= |log.batches| && RelayInv(cfg, log, s, k, t0) && s.phase.Idle?
    requires e.Upload? && Disciplined(cfg, log, s, e)
    ensures RelayInv(cfg, log, s.(store := s.store.(inbox := s.store.inbox[e.name := e.data]),
                                  uploaded := s.uploaded[e.name := e.data]), k, t0)
  {
    hide Opened;
    hide RunUnits;
    hide InboxKnown;
    var j :| 0 <= j < |log.batches| && e.name == log.names[j] && e.data == log.packages[j] &&
             MaySend(cfg, log, s.store.receipts, j);
    if j > k {
      TooNewIsNotSent(cfg, log, s.store.receipts, j, k);
      assert false;
    }
    InboxAdd(cfg, log, s.store.inbox, j, k);
  }

  /** A logged package is turned away, or admitted as the batch it was made from. */
  lemma AdmitLogged(cfg: Config, log: Log, s: Store, j: nat)
    requires ValidLog(cfg, log) && j < |log.batches| && log.names[j] in s.inbox
    requires s.inbox[log.names[j]] == log.packages[j]
    ensures Admit(cfg, s, log.names[j]) == Rejected ||
            Admit(cfg, s, log.names[j]) == AdmitBatch(cfg, s, log.names[j], log.batches[j], log.hashes[j])
  {
    hide Opened;
  }

  lemma AdmitOlder(cfg: Config, log: Log, s: Store, j: nat, k: nat)
    requires ValidLog(cfg, log) && j < k <= |log.batches| && Acknowledged(cfg, log, s.receipts, k)
    ensures AdmitBatch(cfg, s, log.names[j], log.batches[j], log.hashes[j]).Covered?
  {
    hide Opened;
    if j < k - 1 {
      LogAscends(cfg, log, j, k - 1);
    }
  }

  lemma AdmitNext(cfg: Config, log: Log, s: Store, k: nat)
    requires ValidLog(cfg, log) && k < |log.batches| && Acknowledged(cfg, log, s.receipts, k)
    requires log.names[k] in s.progress ==>
               ProgressMatches(s.progress[log.names[k]], log.batches[k], log.hashes[k])
    ensures AdmitBatch(cfg, s, log.names[k], log.batches[k], log.hashes[k]) ==
            Resume(log.batches[k], log.hashes[k], NextOf(s.progress, log.names[k]))
  {
    hide Opened;
    if k > 0 {
      LogAscends(cfg, log, k - 1, k);
      assert log.batches[k - 1].lastSeq + 1 == log.batches[k].firstSeq;
    }
  }

  lemma BeginKeeps(cfg: Config, log: Log, s: State, e: Event, s': State, k: nat, t0: Tree)
    requires ValidLog(cfg, log) && k <= |log.batches| && RelayInv(cfg, log, s, k, t0)
    requires e.Begin? && Next(cfg, s, e, s')
    ensures RelayInv(cfg, log, s', k, t0)
  {
    if !Admit(cfg, s.store, e.name).Rejected? {
      var j :| 0 <= j < |log.names| && j <= k && e.name == log.names[j] &&
               s.store.inbox[e.name] == log.packages[j];
      AdmitLogged(cfg, log, s.store, j);
      if j < k {
        AdmitOlder(cfg, log, s.store, j, k);
      } else {
        AdmitNext(cfg, log, s.store, k);
      }
    }
  }

  lemma LandKeeps(cfg: Config, log: Log, s: State, e: Event, s': State, k: nat, t0: Tree)
    requires ValidLog(cfg, log) && k <= |log.batches| && RelayInv(cfg, log, s, k, t0)
    requires e.Land? && Next(cfg, s, e, s')
    ensures RelayInv(cfg, log, s', k, t0)
  {
    OutcomeConserved(cfg, s, e, s');
  }

  lemma CheckpointKeeps(cfg: Config, log: Log, s: State, k: nat, t0: Tree)
    requires ValidLog(cfg, log) && k <= |log.batches| && RelayInv(cfg, log, s, k, t0)
    requires s.phase.Applying? && s.phase.next < |s.phase.batch.operations|
    requires ApplyUnit(cfg.host, s.phase.batch.operations, s.phase.next, s.store.share) == Some(s.store.share)
    ensures RelayInv(cfg, log, Checkpointed(s), k, t0)
  {
    hide Opened;
    hide InboxKnown;
    hide ApplyUnit;
    var ops, e := s.phase.batch.operations, UnitEnd(s.phase.batch.operations, s.phase.next);
    assert NextOf(Checkpointed(s).store.progress, log.names[k]) == e;
    assert RunUnits(cfg.host, ops, s.phase.next, s.store.share) == RunUnits(cfg.host, ops, e, s.store.share);
    assert forall j :: k < j < |log.names| ==> log.names[j] != log.names[k];
  }

  lemma NotYetUploaded(cfg: Config, log: Log, inbox: map<string, seq<byte>>, k: nat)
    requires ValidLog(cfg, log) && k + 1 < |log.batches| && InboxKnown(cfg, log, inbox, k)
    ensures log.names[k + 1] !in inbox
  {
    assert forall j :: 0 <= j <= k ==> log.names[j] != log.names[k + 1];
  }

  lemma InboxKnownLater(cfg: Config, log: Log, inbox: map<string, seq<byte>>, k: nat)
    requires ValidLog(cfg, log) && InboxKnown(cfg, log, inbox, k)
    ensures InboxKnown(cfg, log, inbox, k + 1)
  {}

  lemma SealMeaning(cfg: Config, log: Log, s: State, k: nat, t0: Tree)
    requires ValidLog(cfg, log) && k <= |log.batches| && RelayInv(cfg, log, s, k, t0)
    requires s.phase.Applying? && s.phase.next == |s.phase.batch.operations|
    ensures k < |log.batches| && Fold(cfg.host, log.batches, k + 1, t0) == Some(s.store.share)
  {
    hide Opened;
    hide InboxKnown;
    hide Step;
    hide ApplyUnit;
    var done := Fold(cfg.host, log.batches, k, t0);
    UnitsMeanSequential(cfg.host, log.batches[k].operations, 0, done.value);
  }

  /** Sealing acknowledges one more batch, and the share is then the meaning of them all. */
  lemma SealKeeps(cfg: Config, log: Log, s: State, k: nat, t0: Tree)
    requires ValidLog(cfg, log) && k <= |log.batches| && RelayInv(cfg, log, s, k, t0)
    requires s.phase.Applying? && s.phase.next == |s.phase.batch.operations|
    ensures k < |log.batches| && RelayInv(cfg, log, Sealed(cfg, s), k + 1, t0)
    ensures Fold(cfg.host, log.batches, k + 1, t0) == Some(s.store.share)
  {
    hide Opened;
    hide InboxKnown;
    hide RunUnits;
    hide Fold;
    hide Acknowledged;
    SealMeaning(cfg, log, s, k, t0);
    SealAcknowledges(cfg, log, s, k);
    InboxKnownLater(cfg, log, s.store.inbox, k);
    if k + 1 < |log.batches| {
      NotYetUploaded(cfg, log, s.store.inbox, k);
    }
    hide ValidLog;
    NextStartsFresh(cfg, log, s.store.share, Waiting(cfg, log, s.store.inbox, k + 1), s.store.progress, k + 1, t0);
  }

  lemma SealAcknowledges(cfg: Config, log: Log, s: State, k: nat)
    requires ValidLog(cfg, log) && k < |log.batches| && s.phase.Applying? && s.phase.batch == log.batches[k]
    ensures Acknowledged(cfg, log, Sealed(cfg, s).store.receipts, k + 1)
  {
    hide Opened;
  }

  lemma NextStartsFresh(cfg: Config, log: Log, share: Tree, waiting: bool, progress: map<string, Progress>,
                        k: nat, t0: Tree)
    requires ValidLog(cfg, log) && k <= |log.batches| && Fold(cfg.host, log.batches, k, t0) == Some(share)
    requires k < |log.batches| ==> log.names[k] !in progress
    ensures OnItsWay(cfg, log, share, waiting, progress, k, t0)
  {
    hide Opened;
    hide RunUnits;
    hide Fold;
  }

  lemma OlderName(cfg: Config, log: Log, s: State, k: nat, t0: Tree)
    requires ValidLog(cfg, log) && k <= |log.batches| && RelayInv(cfg, log, s, k, t0) && s.phase.Removing?
    ensures forall j :: k <= j < |log.batches| ==> s.phase.ready != log.names[j]
  {
    hide Opened;
    hide OnItsWay;
    hide InboxKnown;
  }

  lemma InboxDrop(cfg: Config, log: Log, inbox: map<string, seq<byte>>, k: nat, name: string)
    requires ValidLog(cfg, log) && InboxKnown(cfg, log, inbox, k)
    ensures InboxKnown(cfg, log, inbox - {name}, k)
  {}

  lemma DropReadyKeeps(cfg: Config, log: Log, s: State, k: nat, t0: Tree)
    requires ValidLog(cfg, log) && k <= |log.batches| && RelayInv(cfg, log, s, k, t0) && s.phase.Removing?
    ensures RelayInv(cfg, log, s.(store := s.store.(inbox := s.store.inbox - {s.phase.ready})), k, t0)
  {
    hide Opened;
    hide OnItsWay;
    hide InboxKnown;
    OlderName(cfg, log, s, k, t0);
    InboxDrop(cfg, log, s.store.inbox, k, s.phase.ready);
  }

  lemma DropProgressKeeps(cfg: Config, log: Log, s: State, k: nat, t0: Tree)
    requires ValidLog(cfg, log) && k <= |log.batches| && RelayInv(cfg, log, s, k, t0) && s.phase.Removing?
    ensures RelayInv(cfg, log, s.(store := s.store.(progress := s.store.progress - {s.phase.ready})), k, t0)
  {
    hide Opened;
    hide RunUnits;
    hide Fold;
    hide InboxKnown;
    OlderName(cfg, log, s, k, t0);
  }

  /** Every step of a disciplined run keeps the invariant, for the same or one more batch. */
  lemma NextKeeps(cfg: Config, log: Log, s: State, e: Event, s': State, k: nat, t0: Tree) returns (k': nat)
    requires ValidLog(cfg, log) && k <= |log.batches| && RelayInv(cfg, log, s, k, t0)
    requires Next(cfg, s, e, s') && Disciplined(cfg, log, s, e)
    ensures k' == (if e.Seal? then k + 1 else k) && k' <= |log.batches|
    ensures RelayInv(cfg, log, s', k', t0)
  {
    hide ValidLog;
    hide RelayInv;
    hide TornUnit;
    hide Admit;
    k' := if e.Seal? then k + 1 else k;
    match e {
      case Upload(_, _) => UploadKeeps(cfg, log, s, e, k, t0);
      case Begin(_) => BeginKeeps(cfg, log, s, e, s', k, t0);
      case Land(_) => LandKeeps(cfg, log, s, e, s', k, t0);
      case Checkpoint => CheckpointKeeps(cfg, log, s, k, t0);
      case Seal => SealKeeps(cfg, log, s, k, t0);
      case DropReady => DropReadyKeeps(cfg, log, s, k, t0);
      case DropProgress => DropProgressKeeps(cfg, log, s, k, t0);
      case Stop => StopKeeps(cfg, log, s, k, t0);
    }
  }

  lemma StopKeeps(cfg: Config, log: Log, s: State, k: nat, t0: Tree)
    requires ValidLog(cfg, log) && k <= |log.batches| && RelayInv(cfg, log, s, k, t0)
    ensures RelayInv(cfg, log, s.(phase := Idle), k, t0)
  {}

  // ----- Whole runs -----

  ghost predicate DisciplinedRun(cfg: Config, log: Log, states: seq<State>, events: seq<Event>)
    requires ValidLog(cfg, log)
  {
    && Behaviour(cfg, states, events)
    && Initial(states[0])
    && forall i :: 0 <= i < |events| ==> Disciplined(cfg, log, states[i], events[i])
  }

  lemma {:induction false} RunKeeps(cfg: Config, log: Log, states: seq<State>, events: seq<Event>, n: nat)
    returns (k: nat)
    requires ValidLog(cfg, log) && DisciplinedRun(cfg, log, states, events) && n < |states|
    ensures k <= |log.batches| && RelayInv(cfg, log, states[n], k, states[0].store.share)
  {
    if n == 0 {
      k := 0;
    } else {
      var j := RunKeeps(cfg, log, states, events, n - 1);
      k := NextKeeps(cfg, log, states[n - 1], events[n - 1], states[n], j, states[0].store.share);
    }
  }

  /** The number of batches a store's receipt acknowledges. */
  ghost predicate IsAcknowledgedCount(cfg: Config, log: Log, s: Store, k: nat) {
    var file := cfg.receiptFile(log.relayId);
    && k <= |log.batches|
    && (file in s.receipts <==> k > 0)
    && (k > 0 ==> s.receipts[file].lastSeq == log.batches[k - 1].lastSeq)
  }

  /** After any disciplined run with repeats and stops, the receipt stands at a batch end, and
      unless the next batch's package is waiting, the share is exactly the sequential meaning of
      the journal up to the receipt: every acknowledged batch took effect, once. */
  lemma ShareIsJournal(cfg: Config, log: Log, states: seq<State>, events: seq<Event>, n: nat) returns (k: nat)
    requires ValidLog(cfg, log) && DisciplinedRun(cfg, log, states, events) && n < |states|
    ensures IsAcknowledgedCount(cfg, log, states[n].store, k)
    ensures k == |log.batches| || log.names[k] !in states[n].store.inbox ==>
              Fold(cfg.host, log.batches, k, states[0].store.share) == Some(states[n].store.share)
  {
    k := RunKeeps(cfg, log, states, events, n);
  }

  /** However often the backend stops, and whatever has landed of the batch in flight, finishing
      it from the recorded progress gives the tree that one uninterrupted sequential run of the
      whole journal up to and including it gives, or fails exactly when that run fails. */
  lemma CrashConvergence(cfg: Config, log: Log, states: seq<State>, events: seq<Event>, n: nat) returns (k: nat)
    requires ValidLog(cfg, log) && DisciplinedRun(cfg, log, states, events) && n < |states|
    ensures IsAcknowledgedCount(cfg, log, states[n].store, k)
    ensures k < |log.batches| ==>
              var ops, next := log.batches[k].operations, NextOf(states[n].store.progress, log.names[k]);
              && 0 <= next <= |ops| && Boundary(ops, next)
              && Sequential(cfg.host, ops, next, states[n].store.share) ==
                 Fold(cfg.host, log.batches, k + 1, states[0].store.share)
  {
    k := RunKeeps(cfg, log, states, events, n);
    if k < |log.batches| {
      var ops, next := log.batches[k].operations, NextOf(states[n].store.progress, log.names[k]);
      UnitsMeanSequential(cfg.host, ops, next, states[n].store.share);
      UnitsMeanSequential(cfg.host, ops, 0, Fold(cfg.host, log.batches, k, states[0].store.share).value);
    }
  }
}
