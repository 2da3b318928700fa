/**
 The share as the bulk journal sees it: a tree of nodes keyed by resolved path, and one
 function per journal operation. `None` is the operation's error return.
 A name never reaches another name's file: no hard links, and a symbolic link met at the end
 of a path dangles, so opening it fails.
 */
module Share {
  import opened Bytes
  import opened Wrappers
  import opened Writes

  type Path = seq<string>

  datatype Attrs = Attrs(mode: u32, atime: int, mtime: int, xattrs: map<string, seq<byte>>)

  datatype Node =
    | File(bytes: seq<byte>, attrs: Attrs)
    | Dir(attrs: Attrs)
    | Link(target: string)

  type Tree = map<Path, Node>

  function NewAttrs(mode: u32): Attrs {
    Attrs(mode, 0, 0, map[])
  }

  function Parent(p: Path): Path
    requires p != []
  {
    p[..|p| - 1]
  }

  predicate IsDir(t: Tree, p: Path) {
    p in t && t[p].Dir?
  }

  predicate IsFile(t: Tree, p: Path) {
    p in t && t[p].File?
  }

  /** The directory holding `p` can be opened and synced; the root is held outside the share. */
  predicate HasParent(t: Tree, p: Path) {
    if p == [] then [] in t else IsDir(t, Parent(p))
  }

  /** Every node but the root sits in a directory, and the root is one. */
  ghost predicate WellFormed(t: Tree) {
    IsDir(t, []) && forall p :: p in t ==> HasParent(t, p)
  }

  /** Exclusive create; an existing regular file stands, and so does a link that a later
      operation of the batch will replace. */
  function Create(t: Tree, p: Path, mode: u32, linkComesLater: bool): Option<Tree>
  {
    if !HasParent(t, p) then None
    else if p !in t then Some(t[p := File([], NewAttrs(mode))])
    else if t[p].File? || (t[p].Link? && linkComesLater) then Some(t)
    else None
  }

  function Mkdir(t: Tree, p: Path, mode: u32): Option<Tree>
  {
    if !HasParent(t, p) then None
    else if p !in t then Some(t[p := Dir(NewAttrs(mode))])
    else if t[p].Dir? then Some(t)
    else None
  }

  function Resize(b: seq<byte>, n: nat): (r: seq<byte>)
    ensures |r| == n
    ensures forall x :: 0 <= x < n ==> r[x] == ByteOr0(b, x)
  {
    if n <= |b| then b[..n] else b + Zeros(n - |b|)
  }

  /** The length goes through int64, so 2^63 and above are negative and refused. */
  function Truncate(t: Tree, p: Path, length: u64): Option<Tree>
  {
    if length >= TWO_TO_THE_63 || !IsFile(t, p) then None
    else Some(t[p := t[p].(bytes := Resize(t[p].bytes, length))])
  }

  function Chmod(t: Tree, p: Path, mode: u32): Tree
    requires p in t && !t[p].Link?
  {
    t[p := t[p].(attrs := t[p].attrs.(mode := mode))]
  }

  function Chtimes(t: Tree, p: Path, atime: int, mtime: int): Tree
    requires p in t && !t[p].Link?
  {
    t[p := t[p].(attrs := t[p].attrs.(atime := atime, mtime := mtime))]
  }

  /** Attributes of a link are left alone. */
  function SetAttr(t: Tree, p: Path, mode: u32, atime: int, mtime: int): Option<Tree>
  {
    if p !in t then None
    else if t[p].Link? then Some(t)
    else Some(Chtimes(Chmod(t, p, mode), p, atime, mtime))
  }

  predicate Under(p: Path, q: Path) {
    p <= q
  }

  /** Moves `p` and everything below it to `to`, replacing what was at `to`. */
  function Move(t: Tree, p: Path, to: Path): Tree
  {
    (map q | q in t && !Under(p, q) && !Under(to, q) :: t[q]) +
    (map q | q in (set r | r in t && Under(p, r) :: to + r[|p|..]) :: OldNode(t, p, to, q))
  }

  function OldNode(t: Tree, p: Path, to: Path, q: Path): Node
    requires exists r :: r in t && Under(p, r) && q == to + r[|p|..]
  {
    OldName(t, p, to, q);
    t[p + q[|to|..]]
  }

  lemma OldName(t: Tree, p: Path, to: Path, q: Path)
    requires exists r :: r in t && Under(p, r) && q == to + r[|p|..]
    ensures |to| <= |q| && p + q[|to|..] in t
  {
    var r :| r in t && Under(p, r) && q == to + r[|p|..];
    assert q[|to|..] == r[|p|..];
    assert r == p + r[|p|..];
  }

  /** What `os.Rename` does when it succeeds: the old name exists, an existing directory is
      never replaced, a directory never replaces a file, and nothing moves into itself. */
  function OsRename(t: Tree, p: Path, to: Path): Option<Tree>
  {
    if p !in t || IsDir(t, to) || !HasParent(t, p) || !HasParent(t, to) then None
    else if p == to then Some(t)
    else if Under(p, to) || Under(to, p) then None
    else if t[p].Dir? && to in t then None
    else Some(Move(t, p, to))
  }

  /** A failed rename passes when the old name is gone and the new one exists, as after an
      earlier attempt. */
  function Rename(t: Tree, p: Path, to: Path): Option<Tree>
  {
    if OsRename(t, p, to).Some? then OsRename(t, p, to)
    else if p !in t && to in t && HasParent(t, p) && HasParent(t, to) then Some(t)
    else None
  }

  predicate IsEmptyDir(t: Tree, p: Path) {
    IsDir(t, p) && forall q :: q in t && Under(p, q) ==> q == p
  }

  /** Whether the `os.Remove` of an existing name succeeds. */
  predicate Removable(t: Tree, p: Path) {
    p in t && p != [] && HasParent(t, p) && (t[p].Dir? ==> IsEmptyDir(t, p))
  }

  function Remove(t: Tree, p: Path): Option<Tree>
  {
    if !HasParent(t, p) then None
    else if p !in t then Some(t)
    else if Removable(t, p) then Some(t - {p})
    else None
  }

  /** The first half of a symlink operation: removal of the name, failure ignored. */
  function Cleared(t: Tree, p: Path): Tree {
    if Removable(t, p) then t - {p} else t
  }

  /** Remove whatever is there, then link; an empty target is refused by the system. */
  function Symlink(t: Tree, p: Path, target: string): Option<Tree>
  {
    var c := Cleared(t, p);
    if p in c || !HasParent(c, p) || target == "" then None
    else Some(c[p := Link(target)])
  }

  function SetXattr(t: Tree, p: Path, name: Option<string>, value: seq<byte>): Option<Tree>
  {
    if p !in t then None
    else if t[p].Link? then Some(t)
    else if name.None? then None
    else Some(t[p := t[p].(attrs := t[p].attrs.(xattrs := t[p].attrs.xattrs[name.value := value]))])
  }

  /** Removing an attribute that is not there succeeds. */
  function RemoveXattr(t: Tree, p: Path, name: Option<string>): Option<Tree>
  {
    if p !in t then None
    else if t[p].Link? then Some(t)
    else if name.None? then None
    else Some(t[p := t[p].(attrs := t[p].attrs.(xattrs := t[p].attrs.xattrs - {name.value}))])
  }

  /** Open for writing and `WriteAt`; the offset goes through int64. */
  function WriteFile(t: Tree, p: Path, w: Write): Option<Tree>
  {
    if w.offset >= TWO_TO_THE_63 || !IsFile(t, p) then None
    else Some(t[p := t[p].(bytes := WriteAt(t[p].bytes, w))])
  }

  lemma MoveKeys(t: Tree, p: Path, to: Path, q: Path)
    requires p in t && !Under(p, to) && !Under(to, p)
    ensures Under(p, q) ==> q !in Move(t, p, to)
    ensures to in Move(t, p, to) && Move(t, p, to)[to] == t[p]
    ensures !Under(p, q) && !Under(to, q) ==>
              (q in Move(t, p, to) <==> q in t) && (q in t ==> Move(t, p, to)[q] == t[q])
    ensures q in Move(t, p, to) && Under(to, q) ==>
              p + q[|to|..] in t && Move(t, p, to)[q] == t[p + q[|to|..]]
    ensures q in t && Under(p, q) ==>
              to + q[|p|..] in Move(t, p, to) && Move(t, p, to)[to + q[|p|..]] == t[q]
  {
    var m := Move(t, p, to);
    assert to == to + p[|p|..];
    assert p + to[|to|..] == p;
    if q in m && Under(to, q) {
      var r :| r in t && Under(p, r) && q == to + r[|p|..];
      assert q[|to|..] == r[|p|..];
      assert r == p + r[|p|..];
    }
    if q in t && Under(p, q) {
      var n := to + q[|p|..];
      assert n[|to|..] == q[|p|..] && p + q[|p|..] == q;
    }
  }

  /** A rename, having run, is passed over when it runs again. */
  lemma RenameAbsorbs(t: Tree, p: Path, to: Path)
    requires Rename(t, p, to).Some?
    ensures Rename(Rename(t, p, to).value, p, to) == Rename(t, p, to)
  {
    if OsRename(t, p, to).Some? && p != to {
      var m := Move(t, p, to);
      assert p != [] && to != [];
      MoveKeys(t, p, to, p);
      MoveKeys(t, p, to, Parent(p));
      MoveKeys(t, p, to, Parent(to));
    }
  }

  /** A symlink operation gives the same tree from either half-way point. */
  lemma SymlinkAbsorbs(t: Tree, p: Path, target: string)
    ensures Symlink(Cleared(t, p), p, target) == Symlink(t, p, target)
    ensures Symlink(t, p, target).Some? ==>
              Symlink(Symlink(t, p, target).value, p, target) == Symlink(t, p, target)
  {
    var c := Cleared(t, p);
    if Removable(t, p) {
      assert Parent(p) != p;
    }
    assert Cleared(c, p) == c;
    if Symlink(t, p, target).Some? {
      var s := Symlink(t, p, target).value;
      if p != [] {
        assert Parent(p) != p;
        assert Removable(s, p);
        assert s - {p} == c;
      }
    }
  }

  // ----- Every operation keeps the tree well formed -----

  /** Replacing a node by one that is a directory if the old one was. */
  lemma UpdateKeeps(t: Tree, p: Path, n: Node)
    requires WellFormed(t) && (p in t ==> t[p].Dir? ==> n.Dir?)
    requires p in t || (p != [] && IsDir(t, Parent(p)))
    ensures WellFormed(t[p := n])
  {
    var u := t[p := n];
    forall q | q in u
      ensures HasParent(u, q)
    {
      assert q in t ==> HasParent(t, q);
    }
  }

  /** What is taken away must not hold anything. */
  lemma RemoveKeeps(t: Tree, p: Path)
    requires WellFormed(t) && Removable(t, p)
    ensures WellFormed(t - {p})
  {
    var u := t - {p};
    forall q | q in u
      ensures HasParent(u, q)
    {
      assert HasParent(t, q);
      if q != [] && Parent(q) == p {
        assert Under(p, q);
      }
    }
  }

  lemma MoveKeeps(t: Tree, p: Path, to: Path)
    requires WellFormed(t) && OsRename(t, p, to).Some? && p != to
    ensures WellFormed(Move(t, p, to))
  {
    var m := Move(t, p, to);
    assert p != [] && to != [];
    MoveKeys(t, p, to, []);
    forall q | q in m
      ensures HasParent(m, q)
    {
      if q != [] {
        MovedHasParent(t, p, to, q);
      }
    }
  }

  lemma MovedHasParent(t: Tree, p: Path, to: Path, q: Path)
    requires WellFormed(t) && OsRename(t, p, to).Some? && p != to
    requires q in Move(t, p, to) && q != []
    ensures IsDir(Move(t, p, to), Parent(q))
  {
    hide Move;
    MoveKeys(t, p, to, q);
    if q != to && Under(to, q) {
      var r := p + q[|to|..];
      assert HasParent(t, r);
      assert Parent(r) == p + Parent(q)[|to|..];
      MoveKeys(t, p, to, Parent(r));
      assert Parent(q) == to + Parent(r)[|p|..];
    } else {
      assert HasParent(t, q) || q == to;
      assert !Under(to, Parent(q)) && !Under(p, Parent(q));
      MoveKeys(t, p, to, Parent(q));
    }
  }

  lemma RenameKeeps(t: Tree, p: Path, to: Path)
    requires WellFormed(t) && Rename(t, p, to).Some?
    ensures WellFormed(Rename(t, p, to).value)
  {
    if OsRename(t, p, to).Some? && p != to {
      MoveKeeps(t, p, to);
    }
  }

  lemma SymlinkKeeps(t: Tree, p: Path, target: string)
    requires WellFormed(t) && Symlink(t, p, target).Some?
    ensures WellFormed(Symlink(t, p, target).value)
  {
    if Removable(t, p) {
      RemoveKeeps(t, p);
    }
    UpdateKeeps(Cleared(t, p), p, Link(target));
  }
}
