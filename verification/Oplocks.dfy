/**
 Oplock break accounting for opens without a lease: what CREATE grants, what a break sends, and
 which acknowledgments are accepted (sections 3.3.4.6 and 3.3.5.22.1 of MS-SMB2).
 */
module Oplocks {
  import opened Bytes

  const LEVEL_NONE: byte := 0x0
  const LEVEL_II: byte := 0x1
  const LEVEL_EXCLUSIVE: byte := 0x8
  const LEVEL_LEASE: byte := 0xff

  datatype LockState = NotHeld | Held | Breaking

  /** An open's oplock and the two counts: breaks sent that need an acknowledgment, and
      acknowledgments accepted. */
  datatype Oplock = Oplock(level: byte, state: LockState, breaks: nat, acks: nat)

  datatype Event = Break | Ack(level: byte)

  /** What CREATE grants for a requested level; batch is not granted. */
  function Granted(requested: byte): Oplock {
    if requested == LEVEL_II || requested == LEVEL_EXCLUSIVE || requested == LEVEL_LEASE
    then Oplock(requested, Held, 0, 0)
    else Oplock(LEVEL_NONE, NotHeld, 0, 0)
  }

  /** The whole effect of one event. */
  function Step(o: Oplock, e: Event): Oplock {
    match e
    case Break =>
      if o.level == LEVEL_NONE || o.level == LEVEL_LEASE || o.state.Breaking? then o
      else if o.level == LEVEL_II then o.(level := LEVEL_NONE, state := NotHeld)
      else o.(state := Breaking, breaks := o.breaks + 1)
    case Ack(level) =>
      if !o.state.Breaking? then o
      else o.(level := level, state := if level == LEVEL_NONE then NotHeld else Held, acks := o.acks + 1)
  }

  function Run(o: Oplock, es: seq<Event>): Oplock {
    if es == [] then o else Step(Run(o, es[..|es| - 1]), es[|es| - 1])
  }

  /** Nothing is held exactly at level NONE; one acknowledgment is owed exactly while breaking;
      and only a level that needs one is ever breaking. */
  predicate Accounted(o: Oplock) {
    && (o.level == LEVEL_NONE <==> o.state.NotHeld?)
    && o.breaks == o.acks + (if o.state.Breaking? then 1 else 0)
    && (o.state.Breaking? ==> o.level != LEVEL_II && o.level != LEVEL_LEASE)
  }

  /** Over any run of breaks and acknowledgments, whatever level was asked for. */
  lemma {:induction false} RunAccounted(requested: byte, es: seq<Event>)
    ensures Accounted(Run(Granted(requested), es))
  {
    if es != [] {
      RunAccounted(requested, es[..|es| - 1]);
    }
  }

  /** What a break does to each level: nothing is held, or a lease is, and nothing happens; level II is
      given up at once and owes nothing; an exclusive lock keeps its level until it is acknowledged,
      and is asked only once. */
  lemma BreakEffect(requested: byte, es: seq<Event>)
    ensures var o, o' := Run(Granted(requested), es), Run(Granted(requested), es + [Break]);
            && (o.level == LEVEL_NONE || o.level == LEVEL_LEASE || o.state.Breaking? ==> o' == o)
            && (o.level == LEVEL_II ==> o' == Oplock(LEVEL_NONE, NotHeld, o.breaks, o.acks))
            && (o.state.Held? && o.level != LEVEL_II && o.level != LEVEL_LEASE ==>
                  o' == Oplock(o.level, Breaking, o.breaks + 1, o.acks))
  {
    assert (es + [Break])[..|es|] == es;
    RunAccounted(requested, es);
  }

  /** What an acknowledgment does: it settles an owed one at the level it names, and is nothing else. */
  lemma AckEffect(requested: byte, es: seq<Event>, level: byte)
    ensures var o, o' := Run(Granted(requested), es), Run(Granted(requested), es + [Ack(level)]);
            && (!o.state.Breaking? ==> o' == o)
            && (o.state.Breaking? ==> o'.level == level && o'.breaks == o.breaks && o'.acks == o.acks + 1 &&
                                      (o'.state.NotHeld? <==> level == 0) && (o'.state.Held? <==> level != 0))
  {
    assert (es + [Ack(level)])[..|es|] == es;
  }

  /** Until the first acknowledgment an exclusive lock stays exclusive, however often it is broken. */
  lemma {:induction false} ExclusiveWaits(es: seq<Event>)
    requires forall k :: 0 <= k < |es| ==> es[k].Break?
    ensures Run(Granted(8), es) == if es == [] then Oplock(8, Held, 0, 0) else Oplock(8, Breaking, 1, 0)
  {
    if es != [] {
      ExclusiveWaits(es[..|es| - 1]);
    }
  }

  class Open {
    const fileId: u64
    const node: u64
    var oplockLevel: byte
    var oplockState: LockState
    ghost var breaks: nat
    ghost var acks: nat

    ghost function Now(): Oplock
      reads this
    {
      Oplock(oplockLevel, oplockState, breaks, acks)
    }

    constructor (fileId: u64, node: u64, requested: byte)
      ensures this.fileId == fileId && this.node == node && Now() == Granted(requested)
      ensures oplockLevel == (if requested in {1, 8, 0xff} then requested else 0)
      ensures oplockState.Held? <==> requested in {1, 8, 0xff}
      ensures oplockState.NotHeld? <==> requested !in {1, 8, 0xff}
    {
      this.fileId, this.node := fileId, node;
      oplockLevel, oplockState := requested, NotHeld;
      breaks, acks := 0, 0;
      if requested == LEVEL_II || requested == LEVEL_EXCLUSIVE || requested == LEVEL_LEASE {
        oplockState := Held;
      } else {
        oplockLevel := LEVEL_NONE;
      }
    }

    /** A cache break; `sent` says whether a notification goes out. */
    method BreakOpen() returns (sent: bool)
      modifies this
      ensures Now() == Step(old(Now()), Break)
      ensures sent <==> Now() != old(Now())
    {
      if oplockLevel == LEVEL_NONE || oplockLevel == LEVEL_LEASE {
        return false;
      }
      sent := SendOplockBreak();
    }

    method SendOplockBreak() returns (sent: bool)
      requires oplockLevel != LEVEL_NONE && oplockLevel != LEVEL_LEASE
      modifies this
      ensures Now() == Step(old(Now()), Break)
      ensures sent <==> !old(oplockState).Breaking?
      ensures sent && old(oplockLevel) == 1 ==> oplockLevel == 0 && oplockState.NotHeld?
      ensures sent && old(oplockLevel) != 1 ==> oplockLevel == old(oplockLevel) && oplockState.Breaking?
      ensures sent <==> Now() != old(Now())
    {
      if oplockState.Breaking? {
        return false;
      }
      if oplockLevel == LEVEL_II {
        oplockLevel := LEVEL_NONE;
        oplockState := NotHeld;
      } else {
        oplockState := Breaking;
        breaks := breaks + 1;
      }
      return true;
    }

    /** An acknowledgment: accepted only while breaking, and it sets whatever level it names. */
    method OplockBreakAck(level: byte) returns (accepted: bool)
      modifies this
      ensures Now() == Step(old(Now()), Ack(level))
      ensures accepted <==> old(oplockState).Breaking?
      ensures accepted ==> oplockLevel == level && if level == 0 then oplockState.NotHeld? else oplockState.Held?
      ensures !accepted ==> oplockLevel == old(oplockLevel) && oplockState == old(oplockState)
    {
      if !oplockState.Breaking? {
        return false;
      }
      oplockLevel := level;
      if oplockLevel == LEVEL_NONE {
        oplockState := NotHeld;
      } else {
        oplockState := Held;
      }
      acks := acks + 1;
      return true;
    }
  }
}
