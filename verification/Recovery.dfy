/**
 The backend as a machine that may stop at any point. Its durable store is the share, the
 inbox of ready packages, the progress records and the receipts; everything else is lost when
 it stops. Each event is one durable step of a commit, an upload, or a stop.
 */
module Recovery {
  import opened Bytes
  import opened Wrappers
  import opened Share
  import opened Journal
  import opened Package

  const PROTOCOL := "smbrelay-bulk-journal-v2"

  datatype Receipt = Receipt(protocol: string, relayId: string, batchId: string, lastSeq: u64,
                             hash: seq<byte>)

  datatype Progress = Progress(version: int, relayId: string, batchId: string, hash: seq<byte>,
                               nextOperation: int)

  /** `receiptFile` names a relay's receipt; it is a truncated hash, so relays may collide. `spare`
      is the unused capacity behind a file's bytes when they are read. */
  datatype Config = Config(host: Host, codec: Codec, receiptFile: string -> string, maxBatchBytes: int,
                           spare: seq<byte> -> seq<byte>)

  /** What a package holds, as the backend reads it. */
  function Opened(cfg: Config, data: seq<byte>): Decoded {
    Decode(cfg.codec, data, cfg.spare(data))
  }

  datatype Store = Store(share: Tree, inbox: map<string, seq<byte>>, progress: map<string, Progress>,
                         receipts: map<string, Receipt>)

  /** What the commit in flight is doing. */
  datatype Phase =
    | Idle
    | Applying(ready: string, batch: Batch, hash: seq<byte>, next: nat)
    | Removing(ready: string)

  /** `uploaded` and `sealed` record history: the last package put under each ready name, and
      the batches whose receipt was written, in order. */
  datatype State = State(store: Store, phase: Phase, uploaded: map<string, seq<byte>>, sealed: seq<Batch>)

  datatype Event =
    | Upload(name: string, data: seq<byte>)
    | Begin(name: string)
    | Land(share: Tree)
    | Checkpoint
    | Seal
    | DropReady
    | DropProgress
    | Stop

  // ----- Admission -----

  /** What `validateBatch` accepts. */
  ghost predicate ValidBatch(b: Batch) {
    && b.relayId != "" && b.batchId != "" && b.operations != []
    && 0 < b.firstSeq <= b.lastSeq
    && (forall i :: 0 <= i < |b.operations| ==> b.firstSeq <= b.operations[i].seqNo <= b.lastSeq)
    && (forall i, j :: 0 <= i <= j < |b.operations| ==> b.operations[i].seqNo <= b.operations[j].seqNo)
    && (forall i :: 0 <= i < |b.operations| && b.operations[i].kind.OpWrite? ==>
          |b.operations[i].data| == b.operations[i].length)
  }

  datatype Admission = Rejected | Covered(receipt: Receipt) | Resume(batch: Batch, hash: seq<byte>, next: nat)

  function ReceiptOf(b: Batch, hash: seq<byte>): Receipt {
    Receipt(PROTOCOL, b.relayId, b.batchId, b.lastSeq, hash)
  }

  predicate ProgressMatches(p: Progress, b: Batch, hash: seq<byte>) {
    && p.version == 1 && p.relayId == b.relayId && p.batchId == b.batchId && p.hash == hash
    && 0 <= p.nextOperation <= |b.operations|
  }

  /** Everything a commit decides before it touches the share. */
  ghost function Admit(cfg: Config, s: Store, ready: string): Admission
  {
    if ready !in s.inbox || (cfg.maxBatchBytes > 0 && |s.inbox[ready]| > cfg.maxBatchBytes) then Rejected
    else
      match Opened(cfg, s.inbox[ready])
      case Malformed => Rejected
      case Panic => Rejected
      case Batched(b, hash) => if !ValidBatch(b) then Rejected else AdmitBatch(cfg, s, ready, b, hash)
  }

  function AdmitBatch(cfg: Config, s: Store, ready: string, b: Batch, hash: seq<byte>): Admission
  {
    var file := cfg.receiptFile(b.relayId);
    if file !in s.receipts then ResumeFrom(s, ready, b, hash)
    else
      var prev := s.receipts[file];
      if prev.protocol != PROTOCOL || prev.relayId != b.relayId then Rejected
      else if prev.lastSeq >= b.lastSeq then Covered(prev)
      else if b.firstSeq > (prev.lastSeq + 1) % TWO_TO_THE_64 then Rejected
      else ResumeFrom(s, ready, b, hash)
  }

  function ResumeFrom(s: Store, ready: string, b: Batch, hash: seq<byte>): Admission
  {
    if ready !in s.progress then Resume(b, hash, 0)
    else if !ProgressMatches(s.progress[ready], b, hash) then Rejected
    else Resume(b, hash, s.progress[ready].nextOperation)
  }

  /** The package under this name is small enough, genuine and valid. */
  ghost predicate Proper(cfg: Config, s: Store, ready: string, b: Batch, hash: seq<byte>) {
    && ready in s.inbox && (cfg.maxBatchBytes > 0 ==> |s.inbox[ready]| <= cfg.maxBatchBytes)
    && Genuine(cfg.codec, s.inbox[ready], b, hash) && ValidBatch(b)
  }

  /** A commit goes on at `next` exactly when the package is proper; its relay's receipt, if there is
      one, ends below the batch and not below the number before it; and the progress on record is its
      own and says `next`, or there is none and `next` is zero. */
  lemma ResumesIff(cfg: Config, s: Store, ready: string, b: Batch, hash: seq<byte>, next: nat)
    ensures Admit(cfg, s, ready) == Resume(b, hash, next) <==>
            && Proper(cfg, s, ready, b, hash)
            && (var file := cfg.receiptFile(b.relayId);
                file in s.receipts ==>
                  && s.receipts[file].protocol == PROTOCOL && s.receipts[file].relayId == b.relayId
                  && b.firstSeq as int - 1 <= s.receipts[file].lastSeq < b.lastSeq)
            && (ready in s.progress ==>
                  && s.progress[ready] == Progress(1, b.relayId, b.batchId, hash, next)
                  && next <= |b.operations|)
            && (ready !in s.progress ==> next == 0)
  {
    hide Decode;
    hide Genuine;
    hide ValidBatch;
    if ready in s.inbox {
      DecodeIff(cfg.codec, s.inbox[ready], cfg.spare(s.inbox[ready]), b, hash);
    }
  }

  /** A commit gives the standing receipt back exactly when the package is proper and that receipt, of
      its relay, reaches the end of the batch. */
  lemma CoversIff(cfg: Config, s: Store, ready: string, b: Batch, hash: seq<byte>, r: Receipt)
    requires ready in s.inbox && Opened(cfg, s.inbox[ready]) == Batched(b, hash)
    ensures Admit(cfg, s, ready) == Covered(r) <==>
            && Proper(cfg, s, ready, b, hash)
            && cfg.receiptFile(b.relayId) in s.receipts && s.receipts[cfg.receiptFile(b.relayId)] == r
            && r.protocol == PROTOCOL && r.relayId == b.relayId && b.lastSeq <= r.lastSeq
  {
    hide Decode;
    hide Genuine;
    hide ValidBatch;
    DecodeIff(cfg.codec, s.inbox[ready], cfg.spare(s.inbox[ready]), b, hash);
  }

  /** Only a genuine package is let in. */
  lemma AdmittedIsGenuine(cfg: Config, s: Store, ready: string)
    requires !Admit(cfg, s, ready).Rejected?
    ensures ready in s.inbox && Opened(cfg, s.inbox[ready]).Batched?
    ensures var d := Opened(cfg, s.inbox[ready]); Genuine(cfg.codec, s.inbox[ready], d.batch, d.hash)
  {
    hide Decode;
    hide Genuine;
    hide ValidBatch;
    var d := Opened(cfg, s.inbox[ready]);
    DecodeIff(cfg.codec, s.inbox[ready], cfg.spare(s.inbox[ready]), d.batch, d.hash);
  }

  /** The receipt names the batch, its last number and the digest of the package it came in. */
  ghost predicate Acknowledges(cfg: Config, r: Receipt, b: Batch, data: seq<byte>) {
    && r.protocol == "smbrelay-bulk-journal-v2"
    && r.relayId == b.relayId && r.batchId == b.batchId && r.lastSeq == b.lastSeq
    && |data| >= 52 && r.hash == cfg.codec.digest(data[52..])
  }

  lemma ReceiptAcknowledges(cfg: Config, b: Batch, hash: seq<byte>, data: seq<byte>)
    requires Opened(cfg, data) == Batched(b, hash)
    ensures Genuine(cfg.codec, data, b, hash) && Acknowledges(cfg, ReceiptOf(b, hash), b, data)
  {
    hide Decode;
    DecodeIff(cfg.codec, data, cfg.spare(data), b, hash);
  }

  // ----- Steps -----

  /** One step of the machine. `Land` lets any torn part of the current unit reach the disk;
      `Checkpoint` needs the disk to reflect the whole unit. */
  ghost predicate Next(cfg: Config, s: State, e: Event, s': State)
  {
    match e
    case Upload(name, data) =>
      && s.phase.Idle?
      && s' == s.(store := s.store.(inbox := s.store.inbox[name := data]),
                  uploaded := s.uploaded[name := data])
    case Begin(name) =>
      && s.phase.Idle?
      && (match Admit(cfg, s.store, name)
          case Rejected => s' == s
          case Covered(_) => s' == s.(phase := Removing(name))
          case Resume(b, hash, next) => s' == s.(phase := Applying(name, b, hash, next)))
    case Land(share) =>
      && s.phase.Applying?
      && s.phase.next < |s.phase.batch.operations|
      && TornUnit(cfg.host, s.phase.batch.operations, s.phase.next, s.store.share, share)
      && s' == s.(store := s.store.(share := share))
    case Checkpoint =>
      && s.phase.Applying?
      && s.phase.next < |s.phase.batch.operations|
      && ApplyUnit(cfg.host, s.phase.batch.operations, s.phase.next, s.store.share) == Some(s.store.share)
      && s' == Checkpointed(s)
    case Seal =>
      && s.phase.Applying?
      && s.phase.next == |s.phase.batch.operations|
      && s' == Sealed(cfg, s)
    case DropReady =>
      && s.phase.Removing?
      && s' == s.(store := s.store.(inbox := s.store.inbox - {s.phase.ready}))
    case DropProgress =>
      && s.phase.Removing?
      && s' == s.(store := s.store.(progress := s.store.progress - {s.phase.ready}))
    case Stop =>
      s' == s.(phase := Idle)
  }

  function Checkpointed(s: State): State
    requires s.phase.Applying? && s.phase.next < |s.phase.batch.operations|
  {
    var b := s.phase.batch;
    var e := UnitEnd(b.operations, s.phase.next);
    s.(store := s.store.(progress := s.store.progress[
                           s.phase.ready := Progress(1, b.relayId, b.batchId, s.phase.hash, e)]),
       phase := s.phase.(next := e))
  }

  function Sealed(cfg: Config, s: State): State
    requires s.phase.Applying?
  {
    var b := s.phase.batch;
    State(s.store.(receipts := s.store.receipts[cfg.receiptFile(b.relayId) := ReceiptOf(b, s.phase.hash)]),
          Removing(s.phase.ready), s.uploaded, s.sealed + [b])
  }

  /** A run: `states[k]` moves to `states[k + 1]` by `events[k]`. */
  ghost predicate Behaviour(cfg: Config, states: seq<State>, events: seq<Event>) {
    && |states| == |events| + 1
    && forall k :: 0 <= k < |events| ==> Next(cfg, states[k], events[k], states[k + 1])
  }

  ghost predicate Initial(s: State) {
    s.phase.Idle? && s.store.inbox == map[] && s.store.progress == map[] && s.store.receipts == map[] &&
    s.uploaded == map[] && s.sealed == []
  }

  // ----- Crash convergence -----

  /** Where the commit in flight ends if nothing stops it again. */
  function Outcome(cfg: Config, s: State): Option<Tree>
    requires s.phase.Applying? && s.phase.next <= |s.phase.batch.operations|
  {
    RunUnits(cfg.host, s.phase.batch.operations, s.phase.next, s.store.share)
  }

  /** Partial effects and checkpoints never change where the commit ends. */
  lemma OutcomeConserved(cfg: Config, s: State, e: Event, s': State)
    requires s.phase.Applying? && s.phase.next <= |s.phase.batch.operations|
    requires Next(cfg, s, e, s') && (e.Land? || e.Checkpoint?)
    ensures s'.phase.Applying? && s'.phase.next <= |s'.phase.batch.operations|
    ensures Outcome(cfg, s') == Outcome(cfg, s)
  {
    if e.Land? {
      UnitAbsorbs(cfg.host, s.phase.batch.operations, s.phase.next, s.store.share, e.share);
    }
  }

  // ----- Receipt safety -----

  /** The sealed batches whose receipt is kept in `file`, in order. */
  function SealedIn(cfg: Config, bs: seq<Batch>, file: string): seq<Batch>
  {
    if bs == [] then []
    else
      var last := bs[|bs| - 1];
      SealedIn(cfg, bs[..|bs| - 1], file) + if cfg.receiptFile(last.relayId) == file then [last] else []
  }

  /** Each batch reaches past the one before it and leaves no gap after it. */
  ghost predicate Chained(bs: seq<Batch>) {
    && (forall k :: 0 <= k < |bs| ==> 0 < bs[k].firstSeq <= bs[k].lastSeq && bs[k].relayId == bs[0].relayId)
    && (forall k :: 0 <= k < |bs| - 1 ==>
          bs[k].lastSeq < bs[k + 1].lastSeq && bs[k + 1].firstSeq <= bs[k].lastSeq + 1)
  }

  /** A receipt may be replaced by this batch's: it lies beyond it without a gap. */
  predicate Extends(cfg: Config, receipts: map<string, Receipt>, b: Batch) {
    var file := cfg.receiptFile(b.relayId);
    file in receipts ==>
      && receipts[file].relayId == b.relayId
      && receipts[file].lastSeq < b.lastSeq
      && b.firstSeq <= receipts[file].lastSeq + 1
  }

  /** A receipt acknowledges the batch this package holds. */
  predicate CoversPackage(cfg: Config, receipts: map<string, Receipt>, data: seq<byte>) {
    match Opened(cfg, data)
    case Batched(b, _) =>
      var file := cfg.receiptFile(b.relayId);
      file in receipts && receipts[file].relayId == b.relayId && receipts[file].lastSeq >= b.lastSeq
    case _ => false
  }

  /** A receipt file holds the last of the batches sealed into it, and those form a chain. */
  ghost predicate Tracks(cfg: Config, receipts: map<string, Receipt>, sealed: seq<Batch>, file: string) {
    var bs := SealedIn(cfg, sealed, file);
    && (file in receipts <==> bs != [])
    && (file in receipts ==>
          && Chained(bs)
          && receipts[file].protocol == PROTOCOL
          && receipts[file].relayId == bs[|bs| - 1].relayId
          && receipts[file].batchId == bs[|bs| - 1].batchId
          && receipts[file].lastSeq == bs[|bs| - 1].lastSeq)
  }

  ghost predicate ReceiptsTrackSealed(cfg: Config, s: State) {
    forall file :: Tracks(cfg, s.store.receipts, s.sealed, file)
  }

  ghost predicate PackagesAccounted(cfg: Config, s: State) {
    && (forall name :: name in s.store.inbox ==> name in s.uploaded && s.store.inbox[name] == s.uploaded[name])
    && (forall name :: name in s.uploaded ==>
          name in s.store.inbox || CoversPackage(cfg, s.store.receipts, s.uploaded[name]))
  }

  ghost predicate PhaseSound(cfg: Config, s: State) {
    match s.phase
    case Idle => true
    case Applying(ready, b, hash, next) =>
      && ValidBatch(b) && next <= |b.operations|
      && Extends(cfg, s.store.receipts, b)
      && ready in s.store.inbox && ready in s.uploaded && s.store.inbox[ready] == s.uploaded[ready]
      && Opened(cfg, s.store.inbox[ready]) == Batched(b, hash)
    case Removing(ready) =>
      ready in s.uploaded && CoversPackage(cfg, s.store.receipts, s.uploaded[ready])
  }

  ghost predicate ReceiptInv(cfg: Config, s: State) {
    PackagesAccounted(cfg, s) && ReceiptsTrackSealed(cfg, s) && PhaseSound(cfg, s)
  }

  /** Where the source adds one to a receipt's sequence number, the sum does not wrap: a receipt
      at the top covers every batch and the addition is not reached. */
  lemma SuccessorDoesNotWrap(prev: Receipt, b: Batch)
    requires !(prev.lastSeq >= b.lastSeq)
    ensures (prev.lastSeq + 1) % TWO_TO_THE_64 == prev.lastSeq + 1
  {}

  lemma ChainExtends(bs: seq<Batch>, b: Batch)
    requires Chained(bs) && 0 < b.firstSeq <= b.lastSeq
    requires bs != [] ==>
               var last := bs[|bs| - 1];
               last.relayId == b.relayId && last.lastSeq < b.lastSeq && b.firstSeq <= last.lastSeq + 1
    ensures Chained(bs + [b])
  {
    var all := bs + [b];
    forall k | 0 <= k < |all| - 1
      ensures all[k].lastSeq < all[k + 1].lastSeq && all[k + 1].firstSeq <= all[k].lastSeq + 1
    {
      if k < |bs| - 1 {
        assert all[k] == bs[k] && all[k + 1] == bs[k + 1];
      }
    }
  }

  /** Receipts are only added or moved forward for the same relay. */
  ghost predicate Grows(s: Store, s': Store) {
    forall file :: file in s.receipts ==>
      && file in s'.receipts
      && s'.receipts[file].relayId == s.receipts[file].relayId
      && s.receipts[file].lastSeq <= s'.receipts[file].lastSeq
  }

  lemma SealGrows(cfg: Config, s: State)
    requires PhaseSound(cfg, s) && s.phase.Applying?
    ensures Grows(s.store, Sealed(cfg, s).store)
    ensures CoversPackage(cfg, Sealed(cfg, s).store.receipts, s.uploaded[s.phase.ready])
  {}

  lemma CoverGrows(cfg: Config, s: Store, s': Store, data: seq<byte>)
    requires Grows(s, s') && CoversPackage(cfg, s.receipts, data)
    ensures CoversPackage(cfg, s'.receipts, data)
  {}

  lemma SealKeepsAccounts(cfg: Config, s: State)
    requires PackagesAccounted(cfg, s) && PhaseSound(cfg, s) && s.phase.Applying?
    ensures PackagesAccounted(cfg, Sealed(cfg, s))
  {
    SealGrows(cfg, s);
    forall name | name in s.uploaded && CoversPackage(cfg, s.store.receipts, s.uploaded[name])
      ensures CoversPackage(cfg, Sealed(cfg, s).store.receipts, s.uploaded[name])
    {
      CoverGrows(cfg, s.store, Sealed(cfg, s).store, s.uploaded[name]);
    }
  }

  lemma SealedInSnoc(cfg: Config, bs: seq<Batch>, b: Batch, file: string)
    ensures SealedIn(cfg, bs + [b], file) ==
            SealedIn(cfg, bs, file) + if cfg.receiptFile(b.relayId) == file then [b] else []
  {
    assert (bs + [b])[..|bs|] == bs;
  }

  lemma SealKeepsTracking(cfg: Config, receipts: map<string, Receipt>, sealed: seq<Batch>, b: Batch,
                          hash: seq<byte>, file: string)
    requires Tracks(cfg, receipts, sealed, file) && Extends(cfg, receipts, b) && 0 < b.firstSeq <= b.lastSeq
    ensures Tracks(cfg, receipts[cfg.receiptFile(b.relayId) := ReceiptOf(b, hash)], sealed + [b], file)
  {
    SealedInSnoc(cfg, sealed, b, file);
    if file == cfg.receiptFile(b.relayId) {
      ChainExtends(SealedIn(cfg, sealed, file), b);
    }
  }

  lemma UploadKeepsAccounts(cfg: Config, s: State, name: string, data: seq<byte>)
    requires PackagesAccounted(cfg, s)
    ensures PackagesAccounted(cfg, s.(store := s.store.(inbox := s.store.inbox[name := data]),
                                      uploaded := s.uploaded[name := data]))
  {}

  lemma ResumeIsSound(cfg: Config, s: Store, name: string, b: Batch, hash: seq<byte>)
    requires AdmitBatch(cfg, s, name, b, hash).Resume?
    ensures Extends(cfg, s.receipts, b)
    ensures AdmitBatch(cfg, s, name, b, hash).batch == b && AdmitBatch(cfg, s, name, b, hash).hash == hash
    ensures AdmitBatch(cfg, s, name, b, hash).next <= |b.operations|
  {}

  lemma BeginKeepsPhase(cfg: Config, s: State, e: Event, s': State)
    requires PackagesAccounted(cfg, s) && e.Begin? && Next(cfg, s, e, s')
    ensures PhaseSound(cfg, s')
  {
    if !Admit(cfg, s.store, e.name).Rejected? {
      var d := Opened(cfg, s.store.inbox[e.name]);
      if Admit(cfg, s.store, e.name).Resume? {
        ResumeIsSound(cfg, s.store, e.name, d.batch, d.hash);
      }
    }
  }

  lemma DropReadyKeepsAccounts(cfg: Config, s: State)
    requires PackagesAccounted(cfg, s) && PhaseSound(cfg, s) && s.phase.Removing?
    ensures PackagesAccounted(cfg, s.(store := s.store.(inbox := s.store.inbox - {s.phase.ready})))
  {}

  lemma SameReceiptsSameTracking(cfg: Config, s: State, s': State)
    requires ReceiptsTrackSealed(cfg, s)
    requires s'.store.receipts == s.store.receipts && s'.sealed == s.sealed
    ensures ReceiptsTrackSealed(cfg, s') && Grows(s.store, s'.store)
  {}

  /** Every step keeps the receipt invariant and never lowers a receipt. */
  lemma NextKeepsReceiptInv(cfg: Config, s: State, e: Event, s': State)
    requires ReceiptInv(cfg, s) && Next(cfg, s, e, s')
    ensures ReceiptInv(cfg, s') && Grows(s.store, s'.store)
  {
    hide ApplyUnit;
    hide TornUnit;
    hide Admit;
    hide Opened;
    hide CoversPackage;
    if e.Seal? {
      SealGrows(cfg, s);
      SealKeepsAccounts(cfg, s);
      forall file ensures Tracks(cfg, s'.store.receipts, s'.sealed, file) {
        SealKeepsTracking(cfg, s.store.receipts, s.sealed, s.phase.batch, s.phase.hash, file);
      }
    } else {
      SameReceiptsSameTracking(cfg, s, s');
      match e {
        case Upload(name, data) => UploadKeepsAccounts(cfg, s, name, data);
        case Begin(_) => BeginKeepsPhase(cfg, s, e, s');
        case DropReady => DropReadyKeepsAccounts(cfg, s);
        case _ =>
      }
    }
  }

  lemma StepKeepsReceiptInv(cfg: Config, states: seq<State>, events: seq<Event>, k: nat)
    requires Behaviour(cfg, states, events) && k < |events| && ReceiptInv(cfg, states[k])
    ensures ReceiptInv(cfg, states[k + 1]) && Grows(states[k].store, states[k + 1].store)
  {
    hide Next;
    hide ReceiptInv;
    NextKeepsReceiptInv(cfg, states[k], events[k], states[k + 1]);
  }

  lemma InitialReceiptInv(cfg: Config, s: State)
    requires Initial(s)
    ensures ReceiptInv(cfg, s)
  {}

  lemma {:induction false} RunKeepsReceiptInv(cfg: Config, states: seq<State>, events: seq<Event>, k: nat)
    requires Behaviour(cfg, states, events) && Initial(states[0]) && k < |states|
    ensures ReceiptInv(cfg, states[k])
  {
    hide Next;
    hide ReceiptInv;
    if k == 0 {
      InitialReceiptInv(cfg, states[0]);
    } else {
      RunKeepsReceiptInv(cfg, states, events, k - 1);
      StepKeepsReceiptInv(cfg, states, events, k - 1);
    }
  }

  /** Over any run, a receipt's sequence number never goes down. */
  lemma {:induction false} ReceiptsNeverDecrease(cfg: Config, states: seq<State>, events: seq<Event>,
                                                 j: nat, k: nat)
    requires Behaviour(cfg, states, events) && Initial(states[0]) && j <= k < |states|
    ensures Grows(states[j].store, states[k].store)
    decreases k - j
  {
    hide Next;
    hide ReceiptInv;
    if j < k {
      ReceiptsNeverDecrease(cfg, states, events, j, k - 1);
      RunKeepsReceiptInv(cfg, states, events, k - 1);
      StepKeepsReceiptInv(cfg, states, events, k - 1);
      GrowsTransitive(states[j].store, states[k - 1].store, states[k].store);
    }
  }

  lemma GrowsTransitive(a: Store, b: Store, c: Store)
    requires Grows(a, b) && Grows(b, c)
    ensures Grows(a, c)
  {}

  lemma {:induction false} ChainCovers(bs: seq<Batch>, n: u64)
    requires bs != [] && Chained(bs) && bs[0].firstSeq <= n <= bs[|bs| - 1].lastSeq
    ensures exists k :: 0 <= k < |bs| && bs[k].firstSeq <= n <= bs[k].lastSeq
  {
    var last := bs[|bs| - 1];
    if n < last.firstSeq {
      var init := bs[..|bs| - 1];
      assert |bs| > 1;
      assert bs[|bs| - 1].firstSeq <= bs[|bs| - 2].lastSeq + 1;
      ChainCovers(init, n);
      var k :| 0 <= k < |init| && init[k].firstSeq <= n <= init[k].lastSeq;
      assert bs[k].firstSeq <= n <= bs[k].lastSeq;
    }
  }

  /** A package on record was uploaded. */
  lemma {:induction false} UploadedBy(cfg: Config, states: seq<State>, events: seq<Event>, k: nat, name: string)
    returns (i: nat)
    requires Behaviour(cfg, states, events) && Initial(states[0]) && k < |states| && name in states[k].uploaded
    ensures i < k && events[i] == Upload(name, states[k].uploaded[name])
  {
    hide Admit;
    hide TornUnit;
    hide ApplyUnit;
    assert k > 0;
    var e := events[k - 1];
    assert Next(cfg, states[k - 1], e, states[k]);
    if e.Upload? && e.name == name {
      i := k - 1;
    } else {
      i := UploadedBy(cfg, states, events, k - 1, name);
    }
  }

  lemma OtherReceiptStays(cfg: Config, s: State, e: Event, s': State, file: string)
    requires Next(cfg, s, e, s') && file in s'.store.receipts
    requires e.Seal? && s.phase.Applying? ==> cfg.receiptFile(s.phase.batch.relayId) != file
    ensures file in s.store.receipts && s'.store.receipts[file] == s.store.receipts[file]
    ensures SealedIn(cfg, s'.sealed, file) == SealedIn(cfg, s.sealed, file)
  {
    hide Admit;
    hide TornUnit;
    hide ApplyUnit;
    if e.Seal? {
      SealedInSnoc(cfg, s.sealed, s.phase.batch, file);
    }
  }

  lemma SealAcknowledges(cfg: Config, s: State, s': State)
    requires Next(cfg, s, Seal, s') && PhaseSound(cfg, s)
    ensures var b, file := s.phase.batch, cfg.receiptFile(s.phase.batch.relayId);
            var bs := SealedIn(cfg, s'.sealed, file);
            && s.phase.ready in s.uploaded && file in s'.store.receipts && bs != [] && bs[|bs| - 1] == b
            && Acknowledges(cfg, s'.store.receipts[file], b, s.uploaded[s.phase.ready])
            && Genuine(cfg.codec, s.uploaded[s.phase.ready], b, s'.store.receipts[file].hash)
  {
    hide Opened;
    hide Genuine;
    hide ValidBatch;
    SealedInSnoc(cfg, s.sealed, s.phase.batch, cfg.receiptFile(s.phase.batch.relayId));
    ReceiptAcknowledges(cfg, s.phase.batch, s.phase.hash, s.uploaded[s.phase.ready]);
  }

  /** At every point of every run, a receipt names the last batch sealed into its file and carries the
      digest of an uploaded package, which is a genuine package of that batch. */
  lemma {:induction false} ReceiptNamesPackage(cfg: Config, states: seq<State>, events: seq<Event>, k: nat,
                                               file: string)
    returns (i: nat)
    requires Behaviour(cfg, states, events) && Initial(states[0]) && k < |states|
    requires file in states[k].store.receipts
    ensures i < k && events[i].Upload? && SealedIn(cfg, states[k].sealed, file) != []
    ensures var r, bs := states[k].store.receipts[file], SealedIn(cfg, states[k].sealed, file);
            && Acknowledges(cfg, r, bs[|bs| - 1], events[i].data)
            && Genuine(cfg.codec, events[i].data, bs[|bs| - 1], r.hash)
  {
    hide Next;
    hide Genuine;
    hide Acknowledges;
    hide SealedIn;
    assert k > 0;
    var s, e := states[k - 1], events[k - 1];
    assert Next(cfg, s, e, states[k]);
    if e.Seal? {
      SealIsApplying(cfg, s, states[k]);
    }
    if e.Seal? && cfg.receiptFile(s.phase.batch.relayId) == file {
      RunKeepsReceiptInv(cfg, states, events, k - 1);
      SealAcknowledges(cfg, s, states[k]);
      i := UploadedBy(cfg, states, events, k - 1, s.phase.ready);
    } else {
      OtherReceiptStays(cfg, s, e, states[k], file);
      i := ReceiptNamesPackage(cfg, states, events, k - 1, file);
    }
  }

  lemma SealIsApplying(cfg: Config, s: State, s': State)
    requires Next(cfg, s, Seal, s')
    ensures s.phase.Applying?
  {}

  // ----- What a progress record stands for -----

  /** A commit of this package gets as far as its receipt. */
  ghost predicate Readable(cfg: Config, data: seq<byte>) {
    && !(cfg.maxBatchBytes > 0 && |data| > cfg.maxBatchBytes)
    && Opened(cfg, data).Batched? && ValidBatch(Opened(cfg, data).batch)
  }

  /** Some share takes the first unit. */
  ghost predicate Startable(h: Host, ops: seq<Operation>) {
    ops != [] && exists t :: ApplyUnit(h, ops, 0, t).Some?
  }

  /** The first package can leave a progress record that is taken for one of the second, though they
      hold different operations. */
  ghost predicate Confusable(cfg: Config, first: seq<byte>, second: seq<byte>) {
    && Readable(cfg, first) && Readable(cfg, second)
    && var x, y := Opened(cfg, first), Opened(cfg, second);
       && x.hash == y.hash && x.batch.relayId == y.batch.relayId && x.batch.batchId == y.batch.batchId
       && x.batch.operations != y.batch.operations
       && Startable(cfg.host, x.batch.operations)
       && UnitEnd(x.batch.operations, 0) <= |y.batch.operations|
  }

  /** No two of the packages sent under one name can be confused. */
  ghost predicate Unconfused(cfg: Config, sends: iset<(string, seq<byte>)>) {
    forall name, first, second ::
      (name, first) in sends && (name, second) in sends ==> !Confusable(cfg, first, second)
  }

  ghost predicate Within(events: seq<Event>, sends: iset<(string, seq<byte>)>) {
    forall i :: 0 <= i < |events| && events[i].Upload? ==> (events[i].name, events[i].data) in sends
  }

  /** This step checkpoints unit `u` of the batch's operations, and the share reflects that unit. */
  ghost predicate Records(cfg: Config, s: State, e: Event, name: string, b: Batch, hash: seq<byte>, u: nat) {
    && e.Checkpoint? && s.phase.Applying? && s.phase.ready == name && s.phase.hash == hash
    && s.phase.batch.relayId == b.relayId && s.phase.batch.batchId == b.batchId
    && s.phase.batch.operations == b.operations && s.phase.next == u < |b.operations|
    && ApplyUnit(cfg.host, b.operations, u, s.store.share) == Some(s.store.share)
  }

  ghost predicate Recorded(cfg: Config, states: seq<State>, events: seq<Event>, n: nat,
                           name: string, b: Batch, hash: seq<byte>, u: nat)
    requires |states| == |events| + 1 && n <= |events|
  {
    exists j :: 0 <= j < n && Records(cfg, states[j], events[j], name, b, hash, u)
  }

  /** Before step `n`, every unit of the batch that starts below `next` was applied and checkpointed. */
  ghost predicate Done(cfg: Config, states: seq<State>, events: seq<Event>, n: nat,
                       name: string, b: Batch, hash: seq<byte>, next: nat)
    requires |states| == |events| + 1 && n <= |events|
  {
    && Boundary(b.operations, next)
    && forall u :: 0 <= u < next && Boundary(b.operations, u) ==> Recorded(cfg, states, events, n, name, b, hash, u)
  }

  ghost predicate AppliedWhole(cfg: Config, states: seq<State>, events: seq<Event>, n: nat, b: Batch)
    requires |states| == |events| + 1 && n <= |events|
  {
    exists name, hash :: Done(cfg, states, events, n, name, b, hash, |b.operations|)
  }

  /** Whatever a commit skips was applied for the operations it holds. */
  ghost predicate ResumesSoundly(cfg: Config, states: seq<State>, events: seq<Event>)
    requires |states| == |events| + 1
  {
    forall k :: 0 <= k < |events| && events[k].Begin? && states[k + 1].phase.Applying? ==>
      var p := states[k + 1].phase;
      Done(cfg, states, events, k, p.ready, p.batch, p.hash, p.next)
  }

  /** A package that was sent wrote this record, and its units up to there are done. */
  ghost predicate RecordSound(cfg: Config, sends: iset<(string, seq<byte>)>, states: seq<State>,
                              events: seq<Event>, n: nat, name: string, p: Progress, data: seq<byte>)
    requires |states| == |events| + 1 && n <= |events|
  {
    && (name, data) in sends && Readable(cfg, data)
    && var d := Opened(cfg, data);
       && p.relayId == d.batch.relayId && p.batchId == d.batch.batchId && p.hash == d.hash
       && 0 < p.nextOperation
       && Done(cfg, states, events, n, name, d.batch, d.hash, p.nextOperation)
  }

  ghost predicate HasSound(cfg: Config, sends: iset<(string, seq<byte>)>, states: seq<State>,
                           events: seq<Event>, n: nat, name: string, p: Progress)
    requires |states| == |events| + 1 && n <= |events|
  {
    exists data :: RecordSound(cfg, sends, states, events, n, name, p, data)
  }

  ghost predicate CommitSound(cfg: Config, states: seq<State>, events: seq<Event>, n: nat)
    requires |states| == |events| + 1 && n <= |events|
  {
    var s := states[n];
    s.phase.Applying? ==>
      && s.phase.ready in s.store.inbox && Readable(cfg, s.store.inbox[s.phase.ready])
      && Opened(cfg, s.store.inbox[s.phase.ready]) == Batched(s.phase.batch, s.phase.hash)
      && Done(cfg, states, events, n, s.phase.ready, s.phase.batch, s.phase.hash, s.phase.next)
  }

  ghost predicate InboxSent(inbox: map<string, seq<byte>>, sends: iset<(string, seq<byte>)>) {
    forall name :: name in inbox ==> (name, inbox[name]) in sends
  }

  ghost predicate AllSound(cfg: Config, sends: iset<(string, seq<byte>)>, states: seq<State>, events: seq<Event>,
                           n: nat, progress: map<string, Progress>)
    requires |states| == |events| + 1 && n <= |events|
  {
    forall name :: name in progress ==> HasSound(cfg, sends, states, events, n, name, progress[name])
  }

  ghost predicate AllWhole(cfg: Config, states: seq<State>, events: seq<Event>, n: nat, sealed: seq<Batch>)
    requires |states| == |events| + 1 && n <= |events|
  {
    forall b :: b in sealed ==> AppliedWhole(cfg, states, events, n, b)
  }

  ghost predicate ProgressInv(cfg: Config, sends: iset<(string, seq<byte>)>, states: seq<State>,
                              events: seq<Event>, n: nat)
    requires |states| == |events| + 1 && n <= |events|
  {
    && InboxSent(states[n].store.inbox, sends)
    && AllSound(cfg, sends, states, events, n, states[n].store.progress)
    && AllWhole(cfg, states, events, n, states[n].sealed)
    && CommitSound(cfg, states, events, n)
  }

  lemma DoneLater(cfg: Config, states: seq<State>, events: seq<Event>, n: nat,
                  name: string, b: Batch, hash: seq<byte>, next: nat)
    requires |states| == |events| + 1 && n < |events| && Done(cfg, states, events, n, name, b, hash, next)
    ensures Done(cfg, states, events, n + 1, name, b, hash, next)
  {
    hide Records;
    hide Boundary;
  }

  lemma HasSoundLater(cfg: Config, sends: iset<(string, seq<byte>)>, states: seq<State>, events: seq<Event>,
                      n: nat, name: string, p: Progress)
    requires |states| == |events| + 1 && n < |events| && HasSound(cfg, sends, states, events, n, name, p)
    ensures HasSound(cfg, sends, states, events, n + 1, name, p)
  {
    hide ValidBatch;
    hide Opened;
    hide Done;
    var data :| RecordSound(cfg, sends, states, events, n, name, p, data);
    var d := Opened(cfg, data);
    DoneLater(cfg, states, events, n, name, d.batch, d.hash, p.nextOperation);
    assert RecordSound(cfg, sends, states, events, n + 1, name, p, data);
  }

  lemma WholeLater(cfg: Config, states: seq<State>, events: seq<Event>, n: nat, b: Batch)
    requires |states| == |events| + 1 && n < |events| && AppliedWhole(cfg, states, events, n, b)
    ensures AppliedWhole(cfg, states, events, n + 1, b)
  {
    hide Done;
    var name, hash :| Done(cfg, states, events, n, name, b, hash, |b.operations|);
    DoneLater(cfg, states, events, n, name, b, hash, |b.operations|);
  }

  /** A record that matches a package was written for its operations, or the two can be confused. */
  lemma MatchIsOwn(cfg: Config, sends: iset<(string, seq<byte>)>, states: seq<State>, events: seq<Event>,
                   n: nat, name: string, p: Progress, data: seq<byte>)
    requires |states| == |events| + 1 && n <= |events| && Unconfused(cfg, sends)
    requires HasSound(cfg, sends, states, events, n, name, p)
    requires (name, data) in sends && Readable(cfg, data)
    requires ProgressMatches(p, Opened(cfg, data).batch, Opened(cfg, data).hash)
    ensures Done(cfg, states, events, n, name, Opened(cfg, data).batch, Opened(cfg, data).hash, p.nextOperation)
  {
    hide Opened;
    hide ValidBatch;
    hide ApplyUnit;
    var other :| RecordSound(cfg, sends, states, events, n, name, p, other);
    var x, y := Opened(cfg, other), Opened(cfg, data);
    if x.batch.operations != y.batch.operations {
      FirstUnitStarted(cfg, states, events, n, name, x.batch, x.hash, p.nextOperation);
      assert false;
    }
    SameOperationsDone(cfg, states, events, n, name, x.batch, y.batch, x.hash, p.nextOperation);
  }

  lemma FirstUnitStarted(cfg: Config, states: seq<State>, events: seq<Event>, n: nat,
                         name: string, b: Batch, hash: seq<byte>, next: nat)
    requires |states| == |events| + 1 && n <= |events| && 0 < next
    requires Done(cfg, states, events, n, name, b, hash, next)
    ensures Startable(cfg.host, b.operations) && UnitEnd(b.operations, 0) <= next
  {
    hide ApplyUnit;
    assert Recorded(cfg, states, events, n, name, b, hash, 0);
    var e := NextBoundary(b.operations, 0, next);
  }

  lemma SameOperationsDone(cfg: Config, states: seq<State>, events: seq<Event>, n: nat,
                           name: string, a: Batch, b: Batch, hash: seq<byte>, next: nat)
    requires |states| == |events| + 1 && n <= |events|
    requires a.relayId == b.relayId && a.batchId == b.batchId && a.operations == b.operations
    requires Done(cfg, states, events, n, name, a, hash, next)
    ensures Done(cfg, states, events, n, name, b, hash, next)
  {
    hide ApplyUnit;
    hide Boundary;
    forall u | 0 <= u < next && Boundary(b.operations, u)
      ensures Recorded(cfg, states, events, n, name, b, hash, u)
    {
      assert Recorded(cfg, states, events, n, name, a, hash, u);
      var j :| 0 <= j < n && Records(cfg, states[j], events[j], name, a, hash, u);
      assert Records(cfg, states[j], events[j], name, b, hash, u);
    }
  }

  /** Beginning a commit resumes only what is done. */
  lemma BeginIsSound(cfg: Config, sends: iset<(string, seq<byte>)>, states: seq<State>, events: seq<Event>, n: nat)
    requires Behaviour(cfg, states, events) && n < |events| && events[n].Begin? && Unconfused(cfg, sends)
    requires ProgressInv(cfg, sends, states, events, n) && states[n + 1].phase.Applying?
    ensures var p, inbox := states[n + 1].phase, states[n + 1].store.inbox;
            && p.ready in inbox && Readable(cfg, inbox[p.ready])
            && Opened(cfg, inbox[p.ready]) == Batched(p.batch, p.hash)
            && Done(cfg, states, events, n, p.ready, p.batch, p.hash, p.next)
  {
    hide Opened;
    hide ValidBatch;
    hide Done;
    hide HasSound;
    hide AppliedWhole;
    var s, name := states[n], events[n].name;
    assert Next(cfg, s, events[n], states[n + 1]);
    var data := s.store.inbox[name];
    var d := Opened(cfg, data);
    if name in s.store.progress {
      MatchIsOwn(cfg, sends, states, events, n, name, s.store.progress[name], data);
    } else {
      NothingToDo(cfg, states, events, n, name, d.batch, d.hash);
    }
  }

  lemma NothingToDo(cfg: Config, states: seq<State>, events: seq<Event>, n: nat, name: string, b: Batch,
                    hash: seq<byte>)
    requires |states| == |events| + 1 && n <= |events|
    ensures Done(cfg, states, events, n, name, b, hash, 0)
  {}

  /** A checkpoint adds the unit it is made for. */
  lemma CheckpointIsSound(cfg: Config, states: seq<State>, events: seq<Event>, n: nat)
    requires Behaviour(cfg, states, events) && n < |events| && events[n].Checkpoint?
    requires CommitSound(cfg, states, events, n)
    ensures var p := states[n].phase;
            && p.Applying? && p.next < |p.batch.operations|
            && Done(cfg, states, events, n + 1, p.ready, p.batch, p.hash, UnitEnd(p.batch.operations, p.next))
  {
    hide Opened;
    hide Readable;
    hide ApplyUnit;
    var s, p := states[n], states[n].phase;
    assert Next(cfg, s, events[n], states[n + 1]);
    DoneLater(cfg, states, events, n, p.ready, p.batch, p.hash, p.next);
    assert Records(cfg, states[n], events[n], p.ready, p.batch, p.hash, p.next);
    assert Recorded(cfg, states, events, n + 1, p.ready, p.batch, p.hash, p.next);
  }

  lemma StepKeepsRecords(cfg: Config, sends: iset<(string, seq<byte>)>, states: seq<State>, events: seq<Event>, n: nat)
    requires Behaviour(cfg, states, events) && n < |events| && ProgressInv(cfg, sends, states, events, n)
    ensures AllSound(cfg, sends, states, events, n + 1, states[n + 1].store.progress)
  {
    hide Opened;
    hide Readable;
    hide ApplyUnit;
    hide TornUnit;
    hide Admit;
    hide Done;
    hide HasSound;
    hide AppliedWhole;
    var s, s' := states[n], states[n + 1];
    assert Next(cfg, s, events[n], s');
    forall name | name in s'.store.progress
      ensures HasSound(cfg, sends, states, events, n + 1, name, s'.store.progress[name])
    {
      if events[n].Checkpoint? && name == s.phase.ready {
        CheckpointIsSound(cfg, states, events, n);
        OwnRecord(cfg, sends, states, events, n + 1, name, s'.store.progress[name], s.store.inbox[name]);
      } else {
        HasSoundLater(cfg, sends, states, events, n, name, s.store.progress[name]);
      }
    }
  }

  lemma OwnRecord(cfg: Config, sends: iset<(string, seq<byte>)>, states: seq<State>, events: seq<Event>, n: nat,
                  name: string, p: Progress, data: seq<byte>)
    requires |states| == |events| + 1 && n <= |events|
    requires RecordSound(cfg, sends, states, events, n, name, p, data)
    ensures HasSound(cfg, sends, states, events, n, name, p)
  {}

  lemma StepKeepsWhole(cfg: Config, sends: iset<(string, seq<byte>)>, states: seq<State>, events: seq<Event>, n: nat)
    requires Behaviour(cfg, states, events) && n < |events| && ProgressInv(cfg, sends, states, events, n)
    ensures AllWhole(cfg, states, events, n + 1, states[n + 1].sealed)
  {
    hide Opened;
    hide Readable;
    hide ApplyUnit;
    hide TornUnit;
    hide Admit;
    hide Done;
    hide HasSound;
    hide AppliedWhole;
    var s, s' := states[n], states[n + 1];
    assert Next(cfg, s, events[n], s');
    forall b | b in s'.sealed
      ensures AppliedWhole(cfg, states, events, n + 1, b)
    {
      if b !in s.sealed {
        SealedWhole(cfg, states, events, n, s.phase.ready, s.phase.batch, s.phase.hash);
      }
      WholeLater(cfg, states, events, n, b);
    }
  }

  lemma SealedWhole(cfg: Config, states: seq<State>, events: seq<Event>, n: nat, name: string, b: Batch,
                    hash: seq<byte>)
    requires |states| == |events| + 1 && n <= |events|
    requires Done(cfg, states, events, n, name, b, hash, |b.operations|)
    ensures AppliedWhole(cfg, states, events, n, b)
  {}

  lemma StepKeepsCommit(cfg: Config, sends: iset<(string, seq<byte>)>, states: seq<State>, events: seq<Event>, n: nat)
    requires Behaviour(cfg, states, events) && n < |events| && ProgressInv(cfg, sends, states, events, n)
    requires Unconfused(cfg, sends)
    ensures CommitSound(cfg, states, events, n + 1)
  {
    hide Opened;
    hide Readable;
    hide ApplyUnit;
    hide TornUnit;
    hide Admit;
    hide Done;
    hide HasSound;
    hide AppliedWhole;
    hide Unconfused;
    var s, s' := states[n], states[n + 1];
    assert Next(cfg, s, events[n], s');
    if s'.phase.Applying? {
      var p := s'.phase;
      if events[n].Checkpoint? {
        CheckpointIsSound(cfg, states, events, n);
      } else {
        if events[n].Begin? {
          BeginIsSound(cfg, sends, states, events, n);
        }
        DoneLater(cfg, states, events, n, p.ready, p.batch, p.hash, p.next);
      }
    }
  }

  lemma StepKeepsInbox(cfg: Config, sends: iset<(string, seq<byte>)>, states: seq<State>, events: seq<Event>, n: nat)
    requires Behaviour(cfg, states, events) && n < |events| && Within(events, sends)
    requires InboxSent(states[n].store.inbox, sends)
    ensures InboxSent(states[n + 1].store.inbox, sends)
  {
    hide Admit;
    hide ApplyUnit;
    hide TornUnit;
    assert Next(cfg, states[n], events[n], states[n + 1]);
  }

  /** When no two packages sent can be confused, every record, commit and receipt of every run stands
      for operations that were applied. */
  lemma {:induction false} RunKeepsProgress(cfg: Config, sends: iset<(string, seq<byte>)>, states: seq<State>,
                                            events: seq<Event>, n: nat)
    requires Behaviour(cfg, states, events) && Initial(states[0]) && n <= |events|
    requires Within(events, sends) && Unconfused(cfg, sends)
    ensures ProgressInv(cfg, sends, states, events, n)
  {
    hide Next;
    hide Within;
    hide Unconfused;
    hide InboxSent;
    hide AllSound;
    hide AllWhole;
    hide CommitSound;
    hide Initial;
    if n == 0 {
      InitialProgressInv(cfg, sends, states, events);
    } else {
      RunKeepsProgress(cfg, sends, states, events, n - 1);
      StepKeepsInbox(cfg, sends, states, events, n - 1);
      StepKeepsRecords(cfg, sends, states, events, n - 1);
      StepKeepsWhole(cfg, sends, states, events, n - 1);
      StepKeepsCommit(cfg, sends, states, events, n - 1);
    }
  }

  lemma InitialProgressInv(cfg: Config, sends: iset<(string, seq<byte>)>, states: seq<State>, events: seq<Event>)
    requires |states| == |events| + 1 && Initial(states[0])
    ensures ProgressInv(cfg, sends, states, events, 0)
  {}

  lemma UnconfusedResumes(cfg: Config, sends: iset<(string, seq<byte>)>, states: seq<State>, events: seq<Event>)
    requires Behaviour(cfg, states, events) && Initial(states[0]) && Within(events, sends) && Unconfused(cfg, sends)
    ensures ResumesSoundly(cfg, states, events)
  {
    hide ProgressInv;
    hide Unconfused;
    hide Done;
    forall k | 0 <= k < |events| && events[k].Begin? && states[k + 1].phase.Applying?
      ensures var p := states[k + 1].phase; Done(cfg, states, events, k, p.ready, p.batch, p.hash, p.next)
    {
      RunKeepsProgress(cfg, sends, states, events, k);
      BeginIsSound(cfg, sends, states, events, k);
    }
  }

  ghost function Sent(events: seq<Event>): iset<(string, seq<byte>)> {
    iset e | e in events && e.Upload? :: (e.name, e.data)
  }

  /** Over any run, every sequence number from the first sealed batch's first to the receipt's last
      lies in the range of a sealed batch of that relay; and if no two packages of the run can be
      confused, every unit of that batch was applied and checkpointed before. */
  lemma ReceiptCoverage(cfg: Config, states: seq<State>, events: seq<Event>, k: nat, file: string, n: u64)
    requires Behaviour(cfg, states, events) && Initial(states[0]) && k < |states|
    requires file in states[k].store.receipts
    ensures SealedIn(cfg, states[k].sealed, file) != []
    ensures SealedIn(cfg, states[k].sealed, file)[0].firstSeq <= n <= states[k].store.receipts[file].lastSeq ==>
              exists b :: b in SealedIn(cfg, states[k].sealed, file) && b.firstSeq <= n <= b.lastSeq &&
                          (Unconfused(cfg, Sent(events)) ==> AppliedWhole(cfg, states, events, k, b))
  {
    hide Next;
    hide Initial;
    hide Unconfused;
    hide AppliedWhole;
    RunKeepsReceiptInv(cfg, states, events, k);
    var bs := SealedIn(cfg, states[k].sealed, file);
    assert Tracks(cfg, states[k].store.receipts, states[k].sealed, file);
    if bs[0].firstSeq <= n <= bs[|bs| - 1].lastSeq {
      ChainCovers(bs, n);
      var i :| 0 <= i < |bs| && bs[i].firstSeq <= n <= bs[i].lastSeq;
      SealedInSubset(cfg, states[k].sealed, file, i);
      if Unconfused(cfg, Sent(events)) {
        RunKeepsProgress(cfg, Sent(events), states, events, k);
      }
      assert bs[i] in bs;
    }
  }

  lemma {:induction false} SealedInSubset(cfg: Config, bs: seq<Batch>, file: string, i: nat)
    requires i < |SealedIn(cfg, bs, file)|
    ensures SealedIn(cfg, bs, file)[i] in bs
  {
    var init := bs[..|bs| - 1];
    if i < |SealedIn(cfg, init, file)| {
      SealedInSubset(cfg, init, file, i);
    }
  }

  /** The last package uploaded under a name is the one on record. */
  lemma {:induction false} UploadStays(cfg: Config, states: seq<State>, events: seq<Event>, i: nat, k: nat)
    requires Behaviour(cfg, states, events) && i < k < |states| && events[i].Upload?
    requires forall j :: i < j < k && events[j].Upload? ==> events[j].name != events[i].name
    ensures events[i].name in states[k].uploaded && states[k].uploaded[events[i].name] == events[i].data
    decreases k
  {
    hide Admit;
    hide TornUnit;
    hide ApplyUnit;
    assert Next(cfg, states[k - 1], events[k - 1], states[k]);
    if k > i + 1 {
      UploadStays(cfg, states, events, i, k - 1);
    }
  }

  /** At every point of every run, each package ever uploaded is still there, or a receipt covers its
      batch, or the relay has since put another one in its place. */
  lemma PackageOrReceipt(cfg: Config, states: seq<State>, events: seq<Event>, i: nat, k: nat)
    requires Behaviour(cfg, states, events) && Initial(states[0]) && i < k < |states| && events[i].Upload?
    ensures var name, data := events[i].name, events[i].data;
            || (name in states[k].store.inbox && states[k].store.inbox[name] == data)
            || CoversPackage(cfg, states[k].store.receipts, data)
            || exists j :: i < j < k && events[j].Upload? && events[j].name == name
  {
    hide CoversPackage;
    RunKeepsReceiptInv(cfg, states, events, k);
    if forall j :: i < j < k && events[j].Upload? ==> events[j].name != events[i].name {
      UploadStays(cfg, states, events, i, k);
    }
  }
}
