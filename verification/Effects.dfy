/**
 What each journal operation does, path by path: when it succeeds, and the node it leaves at every
 name. The operations are defined in `Share` by maps; here each is described by what a reader of the
 tree would see before and after.
 */
module Effects {
  import opened Bytes
  import opened Wrappers
  import opened Writes
  import opened Share
  import opened Journal

  /** What stands at a name. */
  function At(t: Tree, q: Path): Option<Node> {
    if q in t then Some(t[q]) else None
  }

  /** The directory that holds the name is there; the root needs only to exist. */
  predicate InDirectory(t: Tree, p: Path) {
    if p == [] then At(t, []).Some?
    else At(t, p[..|p| - 1]).Some? && At(t, p[..|p| - 1]).value.Dir?
  }

  predicate FileAt(t: Tree, p: Path) { At(t, p).Some? && At(t, p).value.File? }
  predicate DirAt(t: Tree, p: Path) { At(t, p).Some? && At(t, p).value.Dir? }
  predicate LinkAt(t: Tree, p: Path) { At(t, p).Some? && At(t, p).value.Link? }

  /** `q` is `p` or lies below it. */
  predicate AtOrBelow(p: Path, q: Path) {
    |p| <= |q| && forall i :: 0 <= i < |p| ==> q[i] == p[i]
  }

  /** There is nothing at the name, or it can be removed: never the root, and a directory only when
      nothing lies below it. */
  ghost predicate CanGo(t: Tree, p: Path) {
    p != [] && (DirAt(t, p) ==> forall q :: AtOrBelow(p, q) && q != p ==> At(t, q).None?)
  }

  /** The next operation on the name, from `k` on, is a symlink. */
  ghost predicate LinkFollows(ops: seq<Operation>, k: nat, name: string) {
    exists j :: k <= j < |ops| && ops[j].path == name && ops[j].kind.OpSymlink? &&
                forall i :: k <= i < j ==> ops[i].path != name
  }

  lemma {:induction false} LaterSymlinkIff(ops: seq<Operation>, k: nat, name: string)
    ensures LaterSymlinkReplaces(ops, k, name) <==> LinkFollows(ops, k, name)
    decreases |ops| - k
  {
    if k < |ops| {
      LaterSymlinkIff(ops, k + 1, name);
      if ops[k].path != name {
        if LinkFollows(ops, k + 1, name) {
          var j :| k + 1 <= j < |ops| && ops[j].path == name && ops[j].kind.OpSymlink? &&
                   forall i :: k + 1 <= i < j ==> ops[i].path != name;
          assert forall i :: k <= i < j ==> ops[i].path != name;
        }
      } else if LinkFollows(ops, k, name) {
        var j :| k <= j < |ops| && ops[j].path == name && ops[j].kind.OpSymlink? &&
                 forall i :: k <= i < j ==> ops[i].path != name;
        assert j == k;
      }
    }
  }

  // ----- When an operation succeeds -----

  /** The old name can be moved to the new one. */
  ghost predicate CanMove(t: Tree, p: Path, to: Path) {
    && At(t, p).Some? && !AtOrBelow(p, to) && !AtOrBelow(to, p)
    && (At(t, to).None? || (!DirAt(t, p) && !DirAt(t, to)))
  }

  ghost predicate RenameSucceeds(t: Tree, p: Path, to: Path) {
    && InDirectory(t, p) && InDirectory(t, to)
    && (|| CanMove(t, p, to)
        || (p == to && At(t, p).Some? && !DirAt(t, p))
        || (At(t, p).None? && At(t, to).Some?))
  }

  ghost predicate SucceedsAt(h: Host, ops: seq<Operation>, i: nat, p: Path, t: Tree)
    requires i < |ops|
  {
    var op := ops[i];
    match op.kind
    case OpCreate =>
      InDirectory(t, p) &&
      (At(t, p).None? || FileAt(t, p) || (LinkAt(t, p) && LinkFollows(ops, i + 1, op.path)))
    case OpMkdir => InDirectory(t, p) && (At(t, p).None? || DirAt(t, p))
    case OpWrite => FileAt(t, p) && op.offset < TWO_TO_THE_63
    case OpTruncate => FileAt(t, p) && op.length < TWO_TO_THE_63
    case OpSetAttr => At(t, p).Some?
    case OpRename => h.resolve(op.target).Some? && RenameSucceeds(t, p, h.resolve(op.target).value)
    case OpRemove => InDirectory(t, p) && (At(t, p).None? || CanGo(t, p))
    case OpSymlink => op.target != "" && p != [] && InDirectory(t, p) && CanGo(t, p)
    case OpSetXattr => LinkAt(t, p) || (At(t, p).Some? && h.xattrName(op.name).Some?)
    case OpRemoveXattr => LinkAt(t, p) || (At(t, p).Some? && h.xattrName(op.name).Some?)
    case OpOther(_) => false
  }

  // ----- What it leaves -----

  /** A node with other contents or attributes. */
  function Touched(h: Host, op: Operation, n: Node): Node
    requires op.kind.OpWrite? || op.kind.OpTruncate? ==> n.File?
    requires op.kind.OpSetXattr? || op.kind.OpRemoveXattr? ==> n.Link? || h.xattrName(op.name).Some?
  {
    if n.Link? then n
    else
      match op.kind
      case OpWrite => n.(bytes := WriteAt(n.bytes, Write(op.offset, op.data)))
      case OpTruncate => n.(bytes := seq(op.length, x requires 0 <= x => ByteOr0(n.bytes, x)))
      case OpSetAttr => n.(attrs := Attrs(op.mode, op.atime, op.mtime, n.attrs.xattrs))
      case OpSetXattr => n.(attrs := n.attrs.(xattrs := n.attrs.xattrs[h.xattrName(op.name).value := op.data]))
      case OpRemoveXattr => n.(attrs := n.attrs.(xattrs := n.attrs.xattrs - {h.xattrName(op.name).value}))
      case _ => n
  }

  /** What stands at `q` after a rename of `p` to `to`: nothing at or below the old name; at or below
      the new one what stood in the same place under the old; elsewhere what was there. */
  ghost function AfterRename(t: Tree, p: Path, to: Path, q: Path): Option<Node> {
    if At(t, p).None? || p == to then At(t, q)
    else if AtOrBelow(p, q) then None
    else if AtOrBelow(to, q) then At(t, p + q[|to|..])
    else At(t, q)
  }

  ghost function After(h: Host, ops: seq<Operation>, i: nat, p: Path, t: Tree, q: Path): Option<Node>
    requires i < |ops| && SucceedsAt(h, ops, i, p, t)
  {
    var op := ops[i];
    match op.kind
    case OpRename => AfterRename(t, p, h.resolve(op.target).value, q)
    case OpCreate => if q == p && At(t, p).None? then Some(File([], Attrs(op.mode, 0, 0, map[]))) else At(t, q)
    case OpMkdir => if q == p && At(t, p).None? then Some(Dir(Attrs(op.mode, 0, 0, map[]))) else At(t, q)
    case OpRemove => if q == p then None else At(t, q)
    case OpSymlink => if q == p then Some(Link(op.target)) else At(t, q)
    case OpWrite | OpTruncate | OpSetAttr | OpSetXattr | OpRemoveXattr =>
      if q == p then Some(Touched(h, op, t[p])) else At(t, q)
    case OpOther(_) => None
  }

  /** `u` is the tree with that node at every name. */
  ghost predicate Shows(h: Host, ops: seq<Operation>, i: nat, p: Path, t: Tree, u: Tree)
    requires i < |ops| && SucceedsAt(h, ops, i, p, t)
  {
    forall q :: At(u, q) == After(h, ops, i, p, t, q)
  }

  // ----- The operations do that -----

  lemma UnderIff(p: Path, q: Path)
    ensures Under(p, q) <==> AtOrBelow(p, q)
  {}

  lemma SameTree(t: Tree, u: Tree)
    requires forall q :: At(t, q) == At(u, q)
    ensures t == u
  {
    forall q
      ensures (q in t <==> q in u) && (q in t ==> t[q] == u[q])
    {
      assert At(t, q) == At(u, q);
    }
  }

  lemma RemovableIff(t: Tree, p: Path)
    requires p in t && InDirectory(t, p)
    ensures Removable(t, p) <==> CanGo(t, p)
  {
    forall q
      ensures Under(p, q) <==> AtOrBelow(p, q)
    {
      UnderIff(p, q);
    }
    assert forall q :: q in t <==> At(t, q).Some?;
  }

  lemma RenameIff(t: Tree, p: Path, to: Path)
    ensures Rename(t, p, to).Some? <==> RenameSucceeds(t, p, to)
  {
    hide Move;
    UnderIff(p, to);
    UnderIff(to, p);
  }

  /** A directory is moved with everything below it, and nothing else changes. */
  lemma RenameShows(t: Tree, p: Path, to: Path, q: Path)
    requires RenameSucceeds(t, p, to)
    ensures Rename(t, p, to).Some? && At(Rename(t, p, to).value, q) == AfterRename(t, p, to, q)
  {
    hide Move;
    RenameIff(t, p, to);
    UnderIff(p, to);
    UnderIff(to, p);
    UnderIff(p, q);
    UnderIff(to, q);
    if CanMove(t, p, to) {
      MoveKeys(t, p, to, q);
      if Under(to, q) {
        var r := p + q[|to|..];
        MoveKeys(t, p, to, r);
        assert r[|p|..] == q[|to|..];
        assert q == to + r[|p|..];
      }
    }
  }

  lemma SuccessIff(h: Host, ops: seq<Operation>, i: nat, p: Path, t: Tree)
    requires i < |ops|
    ensures StepAt(h, ops, i, p, t).Some? <==> SucceedsAt(h, ops, i, p, t)
  {
    hide Move;
    hide LaterSymlinkReplaces;
    hide LinkFollows;
    hide RenameSucceeds;
    hide Rename;
    hide CanGo;
    hide Removable;
    var op := ops[i];
    if op.kind.OpCreate? {
      LaterSymlinkIff(ops, i + 1, op.path);
    }
    if op.kind.OpRename? && h.resolve(op.target).Some? {
      RenameIff(t, p, h.resolve(op.target).value);
    }
    if op.kind.OpRemove? && p in t && InDirectory(t, p) {
      RemovableIff(t, p);
    }
    if op.kind.OpSymlink? {
      SymlinkIff(t, p, op.target);
    }
  }

  lemma SymlinkIff(t: Tree, p: Path, target: string)
    ensures Symlink(t, p, target).Some? <==> target != "" && p != [] && InDirectory(t, p) && CanGo(t, p)
    ensures Symlink(t, p, target).Some? ==> Symlink(t, p, target).value == t[p := Link(target)]
  {
    if p in t && InDirectory(t, p) {
      RemovableIff(t, p);
    }
    if p != [] {
      assert Parent(p) != p;
    }
    if Symlink(t, p, target).Some? {
      assert Cleared(t, p)[p := Link(target)] == t[p := Link(target)];
    }
  }

  lemma StepShows(h: Host, ops: seq<Operation>, i: nat, p: Path, t: Tree, q: Path)
    requires i < |ops| && SucceedsAt(h, ops, i, p, t) && StepAt(h, ops, i, p, t).Some?
    ensures At(StepAt(h, ops, i, p, t).value, q) == After(h, ops, i, p, t, q)
  {
    hide Move;
    hide LinkFollows;
    hide Rename;
    hide CanGo;
    hide Symlink;
    hide RenameSucceeds;
    hide AfterRename;
    var op := ops[i];
    if op.kind.OpRename? {
      RenameShows(t, p, h.resolve(op.target).value, q);
    } else if op.kind.OpSymlink? {
      SymlinkIff(t, p, op.target);
    } else if op.kind.OpTruncate? {
      assert Resize(t[p].bytes, op.length) == seq(op.length, x requires 0 <= x => ByteOr0(t[p].bytes, x));
    }
  }

  /** Every operation, on every tree: it succeeds and leaves `u` exactly when its path resolves, its
      condition holds of the tree, and `u` has at each name the node it should. */
  lemma StepIff(h: Host, ops: seq<Operation>, i: nat, t: Tree, u: Tree)
    requires i < |ops|
    ensures Step(h, ops, i, t) == Some(u) <==>
            h.resolve(ops[i].path).Some? &&
            var p := h.resolve(ops[i].path).value;
            SucceedsAt(h, ops, i, p, t) && Shows(h, ops, i, p, t, u)
  {
    hide StepAt;
    hide SucceedsAt;
    hide After;
    hide At;
    if h.resolve(ops[i].path).Some? {
      var p := h.resolve(ops[i].path).value;
      SuccessIff(h, ops, i, p, t);
      if SucceedsAt(h, ops, i, p, t) {
        var v := StepAt(h, ops, i, p, t).value;
        forall q
          ensures At(v, q) == After(h, ops, i, p, t, q)
        {
          StepShows(h, ops, i, p, t, q);
        }
        if Shows(h, ops, i, p, t, u) {
          SameTree(u, v);
        }
      }
    }
  }
}
