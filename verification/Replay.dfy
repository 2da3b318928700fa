/**
 Applying acknowledged operations again. Operations that take no name away settle: every byte,
 attribute and length a journal leaves is fixed by the last operation that determines it, so the
 whole journal, applied to its own result, changes nothing.
 */
module Replay {
  import opened Bytes
  import opened Wrappers
  import opened Writes
  import opened Share
  import opened Journal

  /** The operation neither moves, removes nor replaces a name. */
  predicate KeepsNames(op: Operation) {
    !op.kind.OpRename? && !op.kind.OpRemove? && !op.kind.OpSymlink?
  }

  ghost predicate AllKeepNames(ops: seq<Operation>) {
    forall i :: 0 <= i < |ops| ==> KeepsNames(ops[i])
  }

  // ----- One node -----

  /** What such an operation does to the node at `p`. */
  function Effect(h: Host, op: Operation, p: Path, n: Node): Node {
    if h.resolve(op.path) != Some(p) || n.Link? then n
    else
      match op.kind
      case OpWrite => if n.File? then n.(bytes := WriteAt(n.bytes, WriteOf(op))) else n
      case OpTruncate => if n.File? then n.(bytes := Resize(n.bytes, op.length)) else n
      case OpSetAttr => n.(attrs := n.attrs.(mode := op.mode, atime := op.atime, mtime := op.mtime))
      case OpSetXattr =>
        if h.xattrName(op.name).None? then n
        else n.(attrs := n.attrs.(xattrs := n.attrs.xattrs[h.xattrName(op.name).value := op.data]))
      case OpRemoveXattr =>
        if h.xattrName(op.name).None? then n
        else n.(attrs := n.attrs.(xattrs := n.attrs.xattrs - {h.xattrName(op.name).value}))
      case _ => n
  }

  predicate SameKind(n: Node, m: Node) {
    (n.File? <==> m.File?) && (n.Dir? <==> m.Dir?) && (n.Link? ==> n == m)
  }

  /** A separately determined piece of a node. */
  datatype Part = Mode | Times | Xattr(name: string) | Byte(x: nat)

  datatype Value = Number(n: int) | Pair(a: int, b: int) | Attribute(v: Option<seq<byte>>)

  function PartOf(n: Node, a: Part): Value {
    if n.Link? then Number(0)
    else
      match a
      case Mode => Number(n.attrs.mode)
      case Times => Pair(n.attrs.atime, n.attrs.mtime)
      case Xattr(name) => Attribute(if name in n.attrs.xattrs then Some(n.attrs.xattrs[name]) else None)
      case Byte(x) => Number(if n.File? then ByteOr0(n.bytes, x) else 0)
  }

  /** The operation alone decides this part of the node at `p`. */
  predicate Decides(h: Host, op: Operation, p: Path, a: Part) {
    h.resolve(op.path) == Some(p) &&
    match op.kind
    case OpWrite => a.Byte? && Covers(WriteOf(op), a.x)
    case OpTruncate => a.Byte? && op.length <= a.x
    case OpSetAttr => a.Mode? || a.Times?
    case OpSetXattr => a.Xattr? && h.xattrName(op.name) == Some(a.name)
    case OpRemoveXattr => a.Xattr? && h.xattrName(op.name) == Some(a.name)
    case _ => false
  }

  function Decision(op: Operation, a: Part): Value {
    match op.kind
    case OpWrite => if a.Byte? && Covers(WriteOf(op), a.x) then Number(op.data[a.x - op.offset]) else Number(0)
    case OpSetAttr => if a.Mode? then Number(op.mode) else Pair(op.atime, op.mtime)
    case OpSetXattr => Attribute(Some(op.data))
    case OpRemoveXattr => Attribute(None)
    case _ => Number(0)
  }

  predicate Cuts(h: Host, op: Operation, p: Path) {
    h.resolve(op.path) == Some(p) && op.kind.OpTruncate?
  }

  /** How far the operation makes the file at `p` reach. */
  function Reach(h: Host, op: Operation, p: Path): nat {
    if h.resolve(op.path) == Some(p) && op.kind.OpWrite? && op.data != [] then op.offset + |op.data| else 0
  }

  /** A part is decided, or stays as it is. */
  lemma EffectOnPart(h: Host, op: Operation, p: Path, n: Node, a: Part)
    requires op.kind.OpWrite? || op.kind.OpTruncate? ==> h.resolve(op.path) == Some(p) ==> n.File?
    ensures !n.Link? ==>
              PartOf(Effect(h, op, p, n), a) == if Decides(h, op, p, a) then Decision(op, a) else PartOf(n, a)
    ensures SameKind(n, Effect(h, op, p, n))
  {
    if a.Byte? && op.kind.OpWrite? && n.File? {
      WriteAtBytes(n.bytes, WriteOf(op), a.x);
    }
  }

  /** A length is cut, or extended. */
  lemma EffectOnLength(h: Host, op: Operation, p: Path, n: Node)
    requires n.File?
    ensures Effect(h, op, p, n).File?
    ensures |Effect(h, op, p, n).bytes| ==
            if Cuts(h, op, p) then op.length else Max(|n.bytes|, Reach(h, op, p))
  {
    if op.kind.OpWrite? {
      WriteAtBytes(n.bytes, WriteOf(op), 0);
    }
  }

  // ----- What is still to be decided -----

  predicate LaterDecides(h: Host, ops: seq<Operation>, i: nat, p: Path, a: Part)
    decreases |ops| - i
  {
    i < |ops| && (Decides(h, ops[i], p, a) || LaterDecides(h, ops, i + 1, p, a))
  }

  predicate LaterCuts(h: Host, ops: seq<Operation>, i: nat, p: Path)
    decreases |ops| - i
  {
    i < |ops| && (Cuts(h, ops[i], p) || LaterCuts(h, ops, i + 1, p))
  }

  function LaterReach(h: Host, ops: seq<Operation>, i: nat, p: Path): nat
    decreases |ops| - i
  {
    if i >= |ops| then 0 else Max(Reach(h, ops[i], p), LaterReach(h, ops, i + 1, p))
  }

  ghost predicate PartsSettle(h: Host, ops: seq<Operation>, i: nat, p: Path, n: Node, m: Node) {
    forall a: Part :: LaterDecides(h, ops, i, p, a) || PartOf(n, a) == PartOf(m, a)
  }

  predicate LengthSettles(h: Host, ops: seq<Operation>, i: nat, p: Path, n: Node, m: Node) {
    n.File? && m.File? ==> LaterCuts(h, ops, i, p) || Max(|n.bytes|, LaterReach(h, ops, i, p)) == |m.bytes|
  }

  /** The operations from `i` on will make `n` into `m`. */
  ghost predicate NodeSettles(h: Host, ops: seq<Operation>, i: nat, p: Path, n: Node, m: Node) {
    SameKind(n, m) && PartsSettle(h, ops, i, p, n, m) && LengthSettles(h, ops, i, p, n, m)
  }

  ghost predicate Settles(h: Host, ops: seq<Operation>, i: nat, s: Tree, u: Tree) {
    forall p :: p in s ==> p in u && NodeSettles(h, ops, i, p, s[p], u[p])
  }

  /** Writes and truncations meet a file. */
  predicate Fits(h: Host, op: Operation, p: Path, n: Node) {
    op.kind.OpWrite? || op.kind.OpTruncate? ==> h.resolve(op.path) == Some(p) ==> n.File?
  }

  /** Backwards: what will settle after the operation settles before it, and so does the end. */
  lemma SettlesBefore(h: Host, ops: seq<Operation>, i: nat, p: Path, n: Node, m: Node)
    requires i < |ops| && Fits(h, ops[i], p, n)
    requires NodeSettles(h, ops, i + 1, p, Effect(h, ops[i], p, n), m) && NodeSettles(h, ops, i + 1, p, m, m)
    ensures NodeSettles(h, ops, i, p, n, m) && NodeSettles(h, ops, i, p, m, m)
  {
    forall a: Part
      ensures LaterDecides(h, ops, i, p, a) || PartOf(n, a) == PartOf(m, a)
    {
      EffectOnPart(h, ops[i], p, n, a);
    }
    EffectOnPart(h, ops[i], p, n, Mode);
    if n.File? {
      EffectOnLength(h, ops[i], p, n);
    }
  }

  /** Forwards: another node that settles before the operation settles after it too. */
  lemma SettlesAfter(h: Host, ops: seq<Operation>, i: nat, p: Path, n: Node, r: Node, m: Node)
    requires i < |ops| && Fits(h, ops[i], p, n)
    requires NodeSettles(h, ops, i + 1, p, Effect(h, ops[i], p, n), m) && NodeSettles(h, ops, i, p, r, m)
    ensures NodeSettles(h, ops, i + 1, p, Effect(h, ops[i], p, r), m)
  {
    EffectOnPart(h, ops[i], p, n, Mode);
    EffectOnPart(h, ops[i], p, r, Mode);
    var n', r' := Effect(h, ops[i], p, n), Effect(h, ops[i], p, r);
    forall a: Part
      ensures LaterDecides(h, ops, i + 1, p, a) || PartOf(r', a) == PartOf(m, a)
    {
      EffectOnPart(h, ops[i], p, n, a);
      EffectOnPart(h, ops[i], p, r, a);
    }
    if n.File? {
      EffectOnLength(h, ops[i], p, n);
      EffectOnLength(h, ops[i], p, r);
    }
  }

  /** The operation does not touch the node, or only finds it there. */
  predicate Passes(h: Host, op: Operation, p: Path) {
    h.resolve(op.path) == Some(p) ==> op.kind.OpCreate? || op.kind.OpMkdir?
  }

  lemma PassedOver(h: Host, ops: seq<Operation>, i: nat, p: Path, r: Node, m: Node)
    requires i < |ops| && Passes(h, ops[i], p)
    ensures Effect(h, ops[i], p, r) == r
    ensures NodeSettles(h, ops, i, p, r, m) <==> NodeSettles(h, ops, i + 1, p, r, m)
  {
    forall a: Part
      ensures LaterDecides(h, ops, i, p, a) <==> LaterDecides(h, ops, i + 1, p, a)
    {}
    assert LaterCuts(h, ops, i, p) <==> LaterCuts(h, ops, i + 1, p);
    assert LaterReach(h, ops, i, p) == LaterReach(h, ops, i + 1, p);
  }

  lemma {:induction false} Settled(h: Host, ops: seq<Operation>, p: Path, n: Node, m: Node)
    requires NodeSettles(h, ops, |ops|, p, n, m)
    ensures n == m
  {
    assert forall a: Part :: PartOf(n, a) == PartOf(m, a);
    if !n.Link? {
      assert PartOf(n, Mode) == PartOf(m, Mode) && PartOf(n, Times) == PartOf(m, Times);
      forall name
        ensures name in n.attrs.xattrs <==> name in m.attrs.xattrs
        ensures name in n.attrs.xattrs ==> n.attrs.xattrs[name] == m.attrs.xattrs[name]
      {
        assert PartOf(n, Xattr(name)) == PartOf(m, Xattr(name));
      }
      assert n.attrs.xattrs == m.attrs.xattrs;
    }
    if n.File? {
      forall x | 0 <= x < |n.bytes|
        ensures n.bytes[x] == m.bytes[x]
      {
        assert PartOf(n, Byte(x)) == PartOf(m, Byte(x));
      }
    }
  }

  // ----- Trees and journals -----

  lemma {:induction false} NoLaterSymlink(ops: seq<Operation>, k: nat, name: string)
    requires AllKeepNames(ops)
    ensures !LaterSymlinkReplaces(ops, k, name)
    decreases |ops| - k
  {
    if k < |ops| {
      NoLaterSymlink(ops, k + 1, name);
    }
  }

  /** A step acts node by node; a node it adds is one it found missing. */
  lemma StepEffect(h: Host, ops: seq<Operation>, i: nat, t: Tree)
    requires i < |ops| && KeepsNames(ops[i]) && Step(h, ops, i, t).Some?
    ensures var t' := Step(h, ops, i, t).value;
            && (forall q :: q in t ==> q in t' && t'[q] == Effect(h, ops[i], q, t[q]) && Fits(h, ops[i], q, t[q]))
            && (forall q :: q !in t ==> Passes(h, ops[i], q))
            && (forall q :: q in t' ==> q in t || h.resolve(ops[i].path) == Some(q))
  {}

  /** A step that succeeded succeeds again where its names are still there, with the same kinds, and
      then adds none. */
  lemma StepAgain(h: Host, ops: seq<Operation>, more: seq<Operation>, i: nat, t: Tree, s: Tree)
    requires AllKeepNames(ops) && i < |ops| && Step(h, ops, i, t).Some?
    requires forall q :: q in Step(h, ops, i, t).value ==> q in s && SameKind(Step(h, ops, i, t).value[q], s[q])
    ensures Step(h, ops + more, i, s).Some? && Step(h, ops + more, i, s).value.Keys == s.Keys
  {
    NoLaterSymlink(ops, i + 1, ops[i].path);
    assert (ops + more)[i] == ops[i];
    var t' := Step(h, ops, i, t).value;
    StepEffect(h, ops, i, t);
    forall q | q in t
      ensures q in s && (t[q].File? <==> s[q].File?) && (t[q].Dir? <==> s[q].Dir?) && (t[q].Link? <==> s[q].Link?)
    {
      EffectOnPart(h, ops[i], q, t[q], Mode);
    }
  }

  /** Every node a journal passes through will settle to what it leaves, and what it leaves is
      already settled. */
  lemma {:induction false} JournalSettles(h: Host, ops: seq<Operation>, i: nat, t: Tree, u: Tree)
    requires AllKeepNames(ops) && i <= |ops| && Sequential(h, ops, i, t) == Some(u)
    ensures Settles(h, ops, i, t, u) && Settles(h, ops, i, u, u)
    decreases |ops| - i
  {
    hide Step;
    hide Effect;
    hide NodeSettles;
    if i == |ops| {
      forall p | p in u
        ensures NodeSettles(h, ops, i, p, u[p], u[p])
      {
        SettledAtEnd(h, ops, p, u[p]);
      }
    } else {
      var t' := Step(h, ops, i, t).value;
      JournalSettles(h, ops, i + 1, t', u);
      StepEffect(h, ops, i, t);
      forall p | p in u
        ensures p in t ==> NodeSettles(h, ops, i, p, t[p], u[p])
        ensures NodeSettles(h, ops, i, p, u[p], u[p])
      {
        if p in t {
          SettlesBefore(h, ops, i, p, t[p], u[p]);
        } else {
          PassedOver(h, ops, i, p, u[p], u[p]);
        }
      }
    }
  }

  lemma SettledAtEnd(h: Host, ops: seq<Operation>, p: Path, n: Node)
    ensures NodeSettles(h, ops, |ops|, p, n, n)
  {}

  lemma {:induction false} ReplaySettles(h: Host, ops: seq<Operation>, more: seq<Operation>, i: nat,
                                         t: Tree, s: Tree, u: Tree)
    requires AllKeepNames(ops) && i <= |ops| && Sequential(h, ops, i, t) == Some(u)
    requires s.Keys == u.Keys && Settles(h, ops, i, s, u)
    ensures Sequential(h, ops + more, i, s) == Sequential(h, ops + more, |ops|, u)
    decreases |ops| - i
  {
    hide Step;
    hide Effect;
    hide NodeSettles;
    if i == |ops| {
      forall p | p in u
        ensures s[p] == u[p]
      {
        Settled(h, ops, p, s[p], u[p]);
      }
      assert s == u;
    } else {
      var t' := Step(h, ops, i, t).value;
      JournalSettles(h, ops, i + 1, t', u);
      StepEffect(h, ops, i, t);
      KindsAgree(h, ops, i, t', s, u);
      StepAgain(h, ops, more, i, t, s);
      assert (ops + more)[i] == ops[i];
      var s' := Step(h, ops + more, i, s).value;
      StepEffect(h, ops + more, i, s);
      forall p | p in s'
        ensures p in u && NodeSettles(h, ops, i + 1, p, s'[p], u[p])
      {
        if p in t {
          SettlesAfter(h, ops, i, p, t[p], s[p], u[p]);
        } else {
          PassedOver(h, ops, i, p, s[p], u[p]);
        }
      }
      ReplaySettles(h, ops, more, i + 1, t', s', u);
    }
  }

  lemma KindsAgree(h: Host, ops: seq<Operation>, i: nat, t: Tree, s: Tree, u: Tree)
    requires Settles(h, ops, i + 1, t, u) && Settles(h, ops, i, s, u) && s.Keys == u.Keys
    ensures forall q :: q in t ==> q in s && SameKind(t[q], s[q])
  {}

  /** Acknowledged operations that keep names, sent again at the head of any longer batch, change
      nothing: the batch means what its new operations mean. */
  lemma ReplayConverges(h: Host, head: seq<Operation>, more: seq<Operation>, t: Tree, u: Tree)
    requires AllKeepNames(head) && Sequential(h, head, 0, t) == Some(u)
    ensures Sequential(h, head + more, 0, u) == Sequential(h, head + more, |head|, u)
  {
    JournalSettles(h, head, 0, t, u);
    ReplaySettles(h, head, more, 0, t, u, u);
  }
}
