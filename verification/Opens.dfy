/**
 Open handles and delete-pending nodes on non-POSIX opens. Each handler is one atomic step; a
 log records when a node's pending episode begins, is cancelled, or ends in an unlink.
 */
module Opens {
  import opened Bytes
  import opened Wrappers

  datatype Open = Open(fileId: u64, node: u64, deleteOnClose: bool, canDelete: bool)

  datatype Mark = Began(node: u64) | Cancelled(node: u64) | Unlinked(node: u64)

  datatype State = State(opens: map<u64, Open>, pending: set<u64>, log: seq<Mark>)

  /** A request as the state sees it. `lookup` is the inode found under the name, `open.node`
      that of the handle if opening succeeded, `empty` whether a directory may be deleted. */
  datatype Event =
    | Create(open: Open, lookup: Option<u64>, succeeded: bool)
    | Disposition(fileId: u64, delete: bool, empty: bool)
    | Close(fileId: u64)

  datatype Status =
    | Accepted | DeletePending | OpenFailed | InvalidHandle | Denied | DirectoryNotEmpty

  predicate HasOpen(opens: map<u64, Open>, node: u64) {
    exists id :: id in opens && opens[id].node == node
  }

  function SetPending(s: State, node: u64, pending: bool): State {
    if pending then
      State(s.opens, s.pending + {node}, if node in s.pending then s.log else s.log + [Began(node)])
    else
      State(s.opens, s.pending - {node}, if node in s.pending then s.log + [Cancelled(node)] else s.log)
  }

  /** Removing an open: the node is unlinked when it is pending and this was its last open. */
  function Closed(s: State, open: Open): (State, bool) {
    var s1 := if open.deleteOnClose then SetPending(s, open.node, true) else s;
    var s2 := s1.(opens := s1.opens - {open.fileId});
    if open.node !in s2.pending || HasOpen(s2.opens, open.node) then (s2, false)
    else (State(s2.opens, s2.pending - {open.node}, s2.log + [Unlinked(open.node)]), true)
  }

  function Step(s: State, e: Event): State {
    match e
    case Create(open, lookup, succeeded) =>
      if lookup.Some? && lookup.value in s.pending then s
      else if !succeeded then s
      else s.(opens := s.opens[open.fileId := open])
    case Disposition(id, delete, empty) =>
      if id !in s.opens then s
      else if !delete then SetPending(s, s.opens[id].node, false)
      else if !s.opens[id].canDelete || !empty then s
      else SetPending(s, s.opens[id].node, true)
    case Close(id) =>
      if id !in s.opens then s else Closed(s, s.opens[id]).0
  }

  /** What the environment guarantees: handle ids are fresh, the inode opened is the one looked
      up, and a file that did not exist gets an inode no live handle holds. */
  ghost predicate Sane(s: State, e: Event) {
    e.Create? ==>
      && e.open.fileId !in s.opens
      && (e.lookup.Some? ==> e.lookup.value == e.open.node)
      && (e.lookup.None? ==> !HasOpen(s.opens, e.open.node))
  }

  /** Where the log leaves a node: inside an episode or not, or `None` if it is out of order. */
  function InEpisode(log: seq<Mark>, node: u64): Option<bool> {
    if log == [] then Some(false)
    else
      var before, mark := InEpisode(log[..|log| - 1], node), log[|log| - 1];
      if mark.node != node || before.None? then before
      else if mark.Began? then (if before.value then None else Some(true))
      else if before.value then Some(false) else None
  }

  /** Keys agree with handles; a pending node has a live open; and every episode that began is
      still open exactly while the node is pending. */
  ghost predicate Inv(s: State) {
    && (forall id :: id in s.opens ==> s.opens[id].fileId == id)
    && (forall n :: n in s.pending ==> HasOpen(s.opens, n))
    && (forall n :: InEpisode(s.log, n) == Some(n in s.pending))
  }

  lemma EpisodeSnoc(log: seq<Mark>, mark: Mark, node: u64)
    ensures InEpisode(log + [mark], node) ==
            if mark.node != node || InEpisode(log, node).None? then InEpisode(log, node)
            else if mark.Began? then (if InEpisode(log, node).value then None else Some(true))
            else if InEpisode(log, node).value then Some(false) else None
  {
    assert (log + [mark])[..|log|] == log;
  }

  lemma SetPendingKeeps(s: State, node: u64, pending: bool)
    requires Inv(s) && (pending ==> HasOpen(s.opens, node))
    ensures Inv(SetPending(s, node, pending))
  {
    hide InEpisode;
    var s' := SetPending(s, node, pending);
    forall n
      ensures InEpisode(s'.log, n) == Some(n in s'.pending)
    {
      EpisodeSnoc(s.log, if pending then Began(node) else Cancelled(node), n);
    }
  }

  lemma ClosedKeeps(s: State, open: Open)
    requires Inv(s) && open.fileId in s.opens && s.opens[open.fileId] == open
    ensures Inv(Closed(s, open).0)
    ensures Closed(s, open).1 ==> !HasOpen(Closed(s, open).0.opens, open.node)
  {
    hide InEpisode;
    var s1 := if open.deleteOnClose then SetPending(s, open.node, true) else s;
    SetPendingKeeps(s, open.node, true);
    var s2 := s1.(opens := s1.opens - {open.fileId});
    forall n | n in s2.pending && n != open.node
      ensures HasOpen(s2.opens, n)
    {
      var id :| id in s1.opens && s1.opens[id].node == n;
      assert id in s2.opens;
    }
    var (s3, unlink) := Closed(s, open);
    if unlink {
      forall n
        ensures InEpisode(s3.log, n) == Some(n in s3.pending)
      {
        EpisodeSnoc(s2.log, Unlinked(open.node), n);
      }
    }
  }

  /** Every handler keeps the invariant, and adds no open to a pending node. */
  lemma StepKeeps(s: State, e: Event)
    requires Inv(s) && Sane(s, e)
    ensures Inv(Step(s, e))
    ensures forall id :: id in Step(s, e).opens && id !in s.opens ==> Step(s, e).opens[id].node !in s.pending
  {
    hide InEpisode;
    match e {
      case Create(open, _, _) =>
        forall n | n in s.pending
          ensures HasOpen(Step(s, e).opens, n)
        {
          var id :| id in s.opens && s.opens[id].node == n;
          assert id in Step(s, e).opens && Step(s, e).opens[id] == s.opens[id];
        }
      case Disposition(id, delete, _) =>
        if id in s.opens {
          SetPendingKeeps(s, s.opens[id].node, delete);
        }
      case Close(id) =>
        if id in s.opens {
          ClosedKeeps(s, s.opens[id]);
        }
    }
  }

  /** The states of a run, one per event. */
  function Run(s: State, es: seq<Event>): State {
    if es == [] then s else Step(Run(s, es[..|es| - 1]), es[|es| - 1])
  }

  ghost predicate SaneRun(s: State, es: seq<Event>) {
    forall k :: 0 <= k < |es| ==> Sane(Run(s, es[..k]), es[k])
  }

  const NOTHING_OPEN := State(map[], {}, [])

  /** Over any run: a pending node always has a live open, and its episodes come one after
      another, each ended once, by a cancellation or by an unlink. */
  lemma {:induction false} RunKeeps(es: seq<Event>)
    requires SaneRun(NOTHING_OPEN, es)
    ensures Inv(Run(NOTHING_OPEN, es))
  {
    if es != [] {
      var init := es[..|es| - 1];
      assert forall k :: 0 <= k < |init| ==> init[..k] == es[..k] && init[k] == es[k];
      RunKeeps(init);
      StepKeeps(Run(NOTHING_OPEN, init), es[|es| - 1]);
    }
  }

  /** How often a mark stands in the log. */
  function Tally(log: seq<Mark>, mark: Mark): nat {
    if log == [] then 0
    else Tally(log[..|log| - 1], mark) + if log[|log| - 1] == mark then 1 else 0
  }

  lemma {:induction false} EpisodesAlternate(log: seq<Mark>, node: u64)
    requires InEpisode(log, node).Some?
    ensures Tally(log, Began(node)) ==
            Tally(log, Cancelled(node)) + Tally(log, Unlinked(node)) + if InEpisode(log, node).value then 1 else 0
  {
    if log != [] {
      EpisodesAlternate(log[..|log| - 1], node);
    }
  }

  /** Over any run every pending episode of a node is cancelled or ends in one unlink, except the one
      it may still be in; once no handle is open, none is left. */
  lemma EpisodesBalance(es: seq<Event>, node: u64)
    requires SaneRun(NOTHING_OPEN, es)
    ensures var s := Run(NOTHING_OPEN, es);
            && Tally(s.log, Began(node)) == Tally(s.log, Cancelled(node)) + Tally(s.log, Unlinked(node)) +
                                            (if node in s.pending then 1 else 0)
            && (s.opens == map[] ==> node !in s.pending)
  {
    RunKeeps(es);
    EpisodesAlternate(Run(NOTHING_OPEN, es).log, node);
  }

  /** The request clears the delete disposition of the node. */
  predicate Clears(s: State, e: Event, node: u64) {
    e.Disposition? && !e.delete && e.fileId in s.opens && s.opens[e.fileId].node == node
  }

  /** The request asks for the node to be deleted: by a disposition that is accepted, or by closing a
      handle that deletes on close. */
  predicate Asks(s: State, e: Event, node: u64) {
    || (e.Disposition? && e.delete && e.fileId in s.opens && s.opens[e.fileId].node == node &&
        s.opens[e.fileId].canDelete && e.empty)
    || (e.Close? && e.fileId in s.opens && s.opens[e.fileId].node == node && s.opens[e.fileId].deleteOnClose)
  }

  /** The request closes the only handle on the node. */
  ghost predicate LastClose(s: State, e: Event, node: u64) {
    && e.Close? && e.fileId in s.opens && s.opens[e.fileId].node == node
    && forall id :: id in s.opens && id != e.fileId ==> s.opens[id].node != node
  }

  ghost predicate KeysAgree(s: State) {
    forall id :: id in s.opens ==> s.opens[id].fileId == id
  }

  /** What one request adds to the log: a beginning when it asks for a node that is not pending, a
      cancellation when it clears one that is, and an unlink when it closes the last handle on a node
      that is pending or asked for. */
  ghost function Added(s: State, e: Event): seq<Mark> {
    if e.Create? || e.fileId !in s.opens then []
    else
      var n := s.opens[e.fileId].node;
      (if Asks(s, e, n) && n !in s.pending then [Began(n)] else []) +
      (if Clears(s, e, n) && n in s.pending then [Cancelled(n)] else []) +
      (if LastClose(s, e, n) && (n in s.pending || Asks(s, e, n)) then [Unlinked(n)] else [])
  }

  lemma StepMarks(s: State, e: Event)
    requires KeysAgree(s)
    ensures Step(s, e).log == s.log + Added(s, e) && KeysAgree(Step(s, e))
  {
    if e.Close? && e.fileId in s.opens {
      LastOpen(s, e);
      assert !Clears(s, e, s.opens[e.fileId].node);
    }
  }

  lemma LastOpen(s: State, e: Event)
    requires KeysAgree(s) && e.Close? && e.fileId in s.opens
    ensures var n := s.opens[e.fileId].node;
            LastClose(s, e, n) <==> !HasOpen(s.opens - {e.fileId}, n)
  {
    var n, rest := s.opens[e.fileId].node, s.opens - {e.fileId};
    if LastClose(s, e, n) {
      assert forall id :: id in rest ==> rest[id].node != n;
    } else {
      var id :| id in s.opens && id != e.fileId && s.opens[id].node == n;
      assert id in rest && rest[id].node == n;
    }
  }

  lemma {:induction false} RunKeys(es: seq<Event>)
    ensures KeysAgree(Run(NOTHING_OPEN, es))
  {
    if es != [] {
      RunKeys(es[..|es| - 1]);
      StepMarks(Run(NOTHING_OPEN, es[..|es| - 1]), es[|es| - 1]);
    }
  }

  lemma RunSnoc(es: seq<Event>, k: nat)
    requires k < |es|
    ensures Run(NOTHING_OPEN, es[..k + 1]) == Step(Run(NOTHING_OPEN, es[..k]), es[k])
  {
    assert es[..k + 1][..k] == es[..k];
  }

  /** Every unlink in the log of a run was made by its own close: one on the unlinked node, which was
      pending or asked for, after which that node has no open. */
  lemma {:induction false} UnlinkIsLastClose(es: seq<Event>, k: nat) returns (j: nat)
    requires k < |Run(NOTHING_OPEN, es).log| && Run(NOTHING_OPEN, es).log[k].Unlinked?
    ensures j < |es| && es[j].Close?
    ensures var before, after := Run(NOTHING_OPEN, es[..j]), Run(NOTHING_OPEN, es[..j + 1]);
            var node := Run(NOTHING_OPEN, es).log[k].node;
            && |before.log| <= k == |after.log| - 1
            && LastClose(before, es[j], node) && (node in before.pending || Asks(before, es[j], node))
            && !HasOpen(after.opens, node)
  {
    hide Step;
    var init, e := es[..|es| - 1], es[|es| - 1];
    var s := Run(NOTHING_OPEN, init);
    RunKeys(init);
    StepMarks(s, e);
    if k < |s.log| {
      j := UnlinkIsLastClose(init, k);
      assert init[..j] == es[..j] && init[..j + 1] == es[..j + 1] && init[j] == es[j];
    } else {
      j := |es| - 1;
      assert es[..j + 1] == es;
      ClosedHasNone(s, e, Run(NOTHING_OPEN, es).log[k].node);
    }
  }

  lemma ClosedHasNone(s: State, e: Event, node: u64)
    requires KeysAgree(s) && LastClose(s, e, node)
    ensures !HasOpen(Step(s, e).opens, node)
  {}

  // ----- Episodes -----

  lemma AddedInEpisode(s: State, e: Event, node: u64)
    requires node in s.pending && !Clears(s, e, node)
    ensures LastClose(s, e, node) ==> Added(s, e) == [Unlinked(node)]
    ensures !LastClose(s, e, node) ==> Unlinked(node) !in Added(s, e) && Cancelled(node) !in Added(s, e)
  {}

  lemma PendingInEpisode(s: State, e: Event, node: u64)
    requires KeysAgree(s) && node in s.pending && !Clears(s, e, node)
    ensures node in Step(s, e).pending <==> !LastClose(s, e, node)
  {
    if e.Close? && e.fileId in s.opens {
      LastOpen(s, e);
    }
  }

  /** While a pending node is not cleared, a request leaves it pending and adds none of its marks, or
      closes its last handle and unlinks it. */
  lemma EpisodeStep(s: State, e: Event, node: u64)
    requires KeysAgree(s) && node in s.pending && !Clears(s, e, node)
    ensures LastClose(s, e, node) ==> Step(s, e).log == s.log + [Unlinked(node)] && node !in Step(s, e).pending
    ensures !LastClose(s, e, node) ==>
              && node in Step(s, e).pending
              && Tally(Step(s, e).log, Unlinked(node)) == Tally(s.log, Unlinked(node))
              && Tally(Step(s, e).log, Cancelled(node)) == Tally(s.log, Cancelled(node))
  {
    hide Step;
    hide Added;
    hide LastClose;
    hide Clears;
    hide Tally;
    hide KeysAgree;
    StepMarks(s, e);
    PendingInEpisode(s, e, node);
    AddedInEpisode(s, e, node);
    if !LastClose(s, e, node) {
      TallyConcat(s.log, Added(s, e), Unlinked(node));
      TallyConcat(s.log, Added(s, e), Cancelled(node));
      TallyNone(Added(s, e), Unlinked(node));
      TallyNone(Added(s, e), Cancelled(node));
    }
  }

  lemma PendingIsOpen(s: State, node: u64)
    requires Inv(s) && node in s.pending
    ensures HasOpen(s.opens, node)
  {
    hide InEpisode;
    hide HasOpen;
  }

  lemma {:induction false} TallyConcat(log: seq<Mark>, more: seq<Mark>, mark: Mark)
    ensures Tally(log + more, mark) == Tally(log, mark) + Tally(more, mark)
  {
    if more == [] {
      assert log + more == log;
    } else {
      var init := more[..|more| - 1];
      TallyConcat(log, init, mark);
      assert (log + more)[..|log + more| - 1] == log + init;
    }
  }

  lemma {:induction false} TallyNone(log: seq<Mark>, mark: Mark)
    requires mark !in log
    ensures Tally(log, mark) == 0
  {
    if log != [] {
      TallyNone(log[..|log| - 1], mark);
    }
  }

  lemma RunPrefixKeeps(es: seq<Event>, k: nat)
    requires SaneRun(NOTHING_OPEN, es) && k <= |es|
    ensures Inv(Run(NOTHING_OPEN, es[..k]))
  {
    var init := es[..k];
    assert forall j :: 0 <= j < |init| ==> init[..j] == es[..j] && init[j] == es[j];
    RunKeeps(init);
  }

  /** A node stays pending from `i` to `j` while nothing clears it and its last handle stays open. */
  lemma {:induction false} EpisodeLasts(es: seq<Event>, i: nat, j: nat, node: u64)
    requires SaneRun(NOTHING_OPEN, es) && i <= j <= |es| && node in Run(NOTHING_OPEN, es[..i]).pending
    requires forall k :: i <= k < j ==> !Clears(Run(NOTHING_OPEN, es[..k]), es[k], node)
    requires forall k :: i <= k < j ==> !LastClose(Run(NOTHING_OPEN, es[..k]), es[k], node)
    ensures var s, s' := Run(NOTHING_OPEN, es[..i]), Run(NOTHING_OPEN, es[..j]);
            && node in s'.pending
            && Tally(s'.log, Unlinked(node)) == Tally(s.log, Unlinked(node))
            && Tally(s'.log, Cancelled(node)) == Tally(s.log, Cancelled(node))
    decreases j - i
  {
    hide Clears;
    hide LastClose;
    hide Step;
    hide Run;
    hide Tally;
    hide KeysAgree;
    if i < j {
      EpisodeLasts(es, i, j - 1, node);
      RunKeys(es[..j - 1]);
      RunSnoc(es, j - 1);
      EpisodeStep(Run(NOTHING_OPEN, es[..j - 1]), es[j - 1], node);
    }
  }

  /** Over every run: a pending node that no disposition clears, and that has no open in the end, was
      unlinked by the close of its last handle, and until then neither unlinked nor cancelled. */
  lemma EpisodeEnds(es: seq<Event>, i: nat, k: nat, node: u64) returns (j: nat)
    requires SaneRun(NOTHING_OPEN, es) && i <= k <= |es| && node in Run(NOTHING_OPEN, es[..i]).pending
    requires forall n :: i <= n < k ==> !Clears(Run(NOTHING_OPEN, es[..n]), es[n], node)
    requires !HasOpen(Run(NOTHING_OPEN, es[..k]).opens, node)
    ensures i <= j < k && LastClose(Run(NOTHING_OPEN, es[..j]), es[j], node)
    ensures var s, before, after :=
              Run(NOTHING_OPEN, es[..i]), Run(NOTHING_OPEN, es[..j]), Run(NOTHING_OPEN, es[..j + 1]);
            && node in before.pending && after.log == before.log + [Unlinked(node)] && node !in after.pending
            && Tally(before.log, Unlinked(node)) == Tally(s.log, Unlinked(node))
            && Tally(before.log, Cancelled(node)) == Tally(s.log, Cancelled(node))
  {
    hide Clears;
    hide LastClose;
    hide HasOpen;
    hide Step;
    hide Run;
    hide Tally;
    hide Inv;
    hide KeysAgree;
    j := i;
    while j < k && !LastClose(Run(NOTHING_OPEN, es[..j]), es[j], node)
      invariant i <= j <= k
      invariant forall n :: i <= n < j ==> !LastClose(Run(NOTHING_OPEN, es[..n]), es[n], node)
    {
      j := j + 1;
    }
    EpisodeLasts(es, i, j, node);
    RunPrefixKeeps(es, j);
    PendingIsOpen(Run(NOTHING_OPEN, es[..j]), node);
    RunSnoc(es, j);
    RunKeys(es[..j]);
    EpisodeStep(Run(NOTHING_OPEN, es[..j]), es[j], node);
  }

  class Server {
    var opens: map<u64, Open>
    var deletePending: set<u64>
    ghost var log: seq<Mark>

    ghost function Now(): State
      reads this
    {
      State(opens, deletePending, log)
    }

    constructor ()
      ensures Now() == NOTHING_OPEN
    {
      opens, deletePending, log := map[], {}, [];
    }

    method AddOpen(open: Open)
      modifies this`opens
      ensures opens == old(opens)[open.fileId := open]
    {
      opens := opens[open.fileId := open];
    }

    method SetDeletePending(node: u64, pending: bool)
      modifies this`deletePending, this`log
      ensures Now() == SetPending(old(Now()), node, pending)
    {
      if pending {
        log := if node in deletePending then log else log + [Began(node)];
        deletePending := deletePending + {node};
      } else {
        log := if node in deletePending then log + [Cancelled(node)] else log;
        deletePending := deletePending - {node};
      }
    }

    /** Removes the open, then scans the remaining ones; true means the caller must unlink. */
    method CloseOpen(open: Open) returns (unlink: bool)
      modifies this
      ensures (Now(), unlink) == Closed(old(Now()), open)
      ensures unlink <==>
                && (open.node in old(deletePending) || open.deleteOnClose)
                && forall id :: id in old(opens) && id != open.fileId ==> old(opens)[id].node != open.node
      ensures opens == old(opens) - {open.fileId}
      ensures deletePending == if unlink then old(deletePending) - {open.node}
                               else if open.deleteOnClose then old(deletePending) + {open.node}
                               else old(deletePending)
    {
      if open.deleteOnClose {
        log := if open.node in deletePending then log else log + [Began(open.node)];
        deletePending := deletePending + {open.node};
      }
      opens := opens - {open.fileId};
      if open.node !in deletePending {
        return false;
      }
      var others := opens.Keys;
      while others != {}
        invariant others <= opens.Keys
        invariant forall id :: id in opens && opens[id].node == open.node ==> id in others
        decreases others
      {
        var id :| id in others;
        if opens[id].node == open.node {
          return false;
        }
        others := others - {id};
      }
      assert forall id :: id in old(opens) && id != open.fileId ==> id in opens;
      deletePending := deletePending - {open.node};
      log := log + [Unlinked(open.node)];
      return true;
    }

    /** The part of CREATE that concerns pending nodes. */
    method HandleCreate(open: Open, lookup: Option<u64>, succeeded: bool) returns (status: Status)
      modifies this
      ensures Now() == Step(old(Now()), Create(open, lookup, succeeded))
      ensures status.DeletePending? <==> lookup.Some? && lookup.value in old(deletePending)
      ensures status.Accepted? <==> !status.DeletePending? && succeeded
      ensures status.Accepted? || status.DeletePending? || status.OpenFailed?
      ensures opens == if status.Accepted? then old(opens)[open.fileId := open] else old(opens)
      ensures deletePending == old(deletePending)
    {
      if lookup.Some? && lookup.value in deletePending {
        return DeletePending;
      }
      if !succeeded {
        return OpenFailed;
      }
      AddOpen(open);
      return Accepted;
    }

    /** SET_INFO of the disposition. */
    method SetDisposition(fileId: u64, delete: bool, empty: bool) returns (status: Status)
      modifies this
      ensures Now() == Step(old(Now()), Disposition(fileId, delete, empty))
      ensures status.InvalidHandle? <==> fileId !in old(opens)
      ensures status.Denied? <==> fileId in old(opens) && delete && !old(opens)[fileId].canDelete
      ensures status.DirectoryNotEmpty? <==> fileId in old(opens) && delete && old(opens)[fileId].canDelete && !empty
      ensures status.Accepted? <==> fileId in old(opens) && (delete ==> old(opens)[fileId].canDelete && empty)
      ensures opens == old(opens)
      ensures deletePending == if !status.Accepted? then old(deletePending)
                               else if delete then old(deletePending) + {old(opens)[fileId].node}
                               else old(deletePending) - {old(opens)[fileId].node}
    {
      if fileId !in opens {
        return InvalidHandle;
      }
      if !delete {
        SetDeletePending(opens[fileId].node, false);
        return Accepted;
      }
      if !opens[fileId].canDelete {
        return Denied;
      }
      if !empty {
        return DirectoryNotEmpty;
      }
      SetDeletePending(opens[fileId].node, true);
      return Accepted;
    }

    /** CLOSE; an unknown handle changes nothing here. */
    method HandleClose(fileId: u64) returns (unlink: bool)
      modifies this
      ensures Now() == Step(old(Now()), Close(fileId))
      ensures unlink <==>
                && fileId in old(opens)
                && var open := old(opens)[fileId];
                   && (open.node in old(deletePending) || open.deleteOnClose)
                   && forall id :: id in old(opens) && id != open.fileId ==> old(opens)[id].node != open.node
      ensures opens == if fileId in old(opens) then old(opens) - {old(opens)[fileId].fileId} else old(opens)
      ensures unlink ==> deletePending == old(deletePending) - {old(opens)[fileId].node}
    {
      if fileId !in opens {
        return false;
      }
      unlink := CloseOpen(opens[fileId]);
    }
  }
}
