/**
 Journal operations and their meaning. The reference meaning runs one operation at a time;
 the backend runs unit by unit, a unit being a maximal run of writes or one other operation.
 A crash leaves a unit torn, and every unit absorbs its own torn states.
 */
module Journal {
  import opened Bytes
  import opened Wrappers
  import opened Writes
  import opened Share

  datatype OpType =
    | OpCreate | OpMkdir | OpWrite | OpTruncate | OpSetAttr | OpRename | OpRemove | OpSymlink
    | OpSetXattr | OpRemoveXattr | OpOther(name: string)

  datatype Operation = Operation(
    seqNo: u64, kind: OpType, path: string, target: string, name: string,
    offset: u64, length: u64, mode: u32, atime: int, mtime: int, data: seq<byte>)

  /** The library behaviour the backend leans on: lexical path resolution, which fails when a
      name escapes the share, and the native name of an extended attribute. */
  datatype Host = Host(resolve: string -> Option<Path>, xattrName: string -> Option<string>)

  function WriteOf(op: Operation): Write {
    Write(op.offset, op.data)
  }

  /** Whether the first operation on `name` from `k` on is a symlink. */
  predicate LaterSymlinkReplaces(ops: seq<Operation>, k: nat, name: string)
    decreases |ops| - k
  {
    k < |ops| &&
    if ops[k].path != name then LaterSymlinkReplaces(ops, k + 1, name) else ops[k].kind.OpSymlink?
  }

  /** One operation, by itself. */
  function Step(h: Host, ops: seq<Operation>, i: nat, t: Tree): Option<Tree>
    requires i < |ops|
  {
    match h.resolve(ops[i].path)
    case None => None
    case Some(p) => StepAt(h, ops, i, p, t)
  }

  function StepAt(h: Host, ops: seq<Operation>, i: nat, p: Path, t: Tree): Option<Tree>
    requires i < |ops|
  {
    var op := ops[i];
    match op.kind
    case OpCreate => Create(t, p, op.mode, LaterSymlinkReplaces(ops, i + 1, op.path))
    case OpMkdir => Mkdir(t, p, op.mode)
    case OpWrite => WriteFile(t, p, WriteOf(op))
    case OpTruncate => Truncate(t, p, op.length)
    case OpSetAttr => SetAttr(t, p, op.mode, op.atime, op.mtime)
    case OpRename =>
      (match h.resolve(op.target)
       case None => None
       case Some(to) => Rename(t, p, to))
    case OpRemove => Remove(t, p)
    case OpSymlink => Symlink(t, p, op.target)
    case OpSetXattr => SetXattr(t, p, h.xattrName(op.name), op.data)
    case OpRemoveXattr => RemoveXattr(t, p, h.xattrName(op.name))
    case OpOther(_) => None
  }

  /** The reference meaning of a journal from operation `i` on: one operation after another. */
  function Sequential(h: Host, ops: seq<Operation>, i: nat, t: Tree): Option<Tree>
    requires i <= |ops|
    decreases |ops| - i
  {
    if i == |ops| then Some(t)
    else
      var r := Step(h, ops, i, t);
      if r.None? then None else Sequential(h, ops, i + 1, r.value)
  }

  /** Every operation leaves a tree: a root directory, and each node in a directory. */
  lemma StepKeepsTree(h: Host, ops: seq<Operation>, i: nat, p: Path, t: Tree)
    requires i < |ops| && WellFormed(t) && StepAt(h, ops, i, p, t).Some?
    ensures WellFormed(StepAt(h, ops, i, p, t).value)
  {
    hide WellFormed;
    var op, u := ops[i], StepAt(h, ops, i, p, t).value;
    if op.kind.OpRename? {
      RenameKeeps(t, p, h.resolve(op.target).value);
    } else if op.kind.OpRemove? {
      if p in t {
        RemoveKeeps(t, p);
      }
    } else if op.kind.OpSymlink? {
      SymlinkKeeps(t, p, op.target);
    } else if u != t {
      UpdateKeeps(t, p, u[p]);
      assert u == t[p := u[p]];
    }
  }

  lemma {:induction false} SequentialKeepsTree(h: Host, ops: seq<Operation>, i: nat, t: Tree)
    requires i <= |ops| && WellFormed(t) && Sequential(h, ops, i, t).Some?
    ensures WellFormed(Sequential(h, ops, i, t).value)
    decreases |ops| - i
  {
    hide WellFormed;
    hide StepAt;
    if i < |ops| {
      StepKeepsTree(h, ops, i, h.resolve(ops[i].path).value, t);
      SequentialKeepsTree(h, ops, i + 1, Step(h, ops, i, t).value);
    }
  }

  // ----- Units -----

  /** An index that does not fall inside a run of writes. */
  predicate Boundary(ops: seq<Operation>, i: nat) {
    i <= |ops| && (0 < i < |ops| ==> !(ops[i - 1].kind.OpWrite? && ops[i].kind.OpWrite?))
  }

  /** One past the unit that starts at `i`. */
  function UnitEnd(ops: seq<Operation>, i: nat): (e: nat)
    requires i < |ops|
    ensures i < e <= |ops|
    ensures ops[i].kind.OpWrite? ==>
              (forall k :: i <= k < e ==> ops[k].kind.OpWrite?) && (e < |ops| ==> !ops[e].kind.OpWrite?)
    ensures !ops[i].kind.OpWrite? ==> e == i + 1
    ensures Boundary(ops, e) && forall b :: i < b < e ==> !Boundary(ops, b)
    decreases |ops| - i
  {
    if ops[i].kind.OpWrite? && i + 1 < |ops| && ops[i + 1].kind.OpWrite? then UnitEnd(ops, i + 1)
    else i + 1
  }

  /** The units from `i` on, as half-open index ranges. */
  function Units(ops: seq<Operation>, i: nat): (us: seq<(nat, nat)>)
    requires i <= |ops|
    decreases |ops| - i
  {
    if i == |ops| then [] else [(i, UnitEnd(ops, i))] + Units(ops, UnitEnd(ops, i))
  }

  /** Resuming at a boundary meets exactly the units a fresh start still has before it. */
  lemma UnitsResume(ops: seq<Operation>, i: nat, b: nat)
    requires i <= b && Boundary(ops, i) && Boundary(ops, b)
    ensures exists k :: 0 <= k <= |Units(ops, i)| && Units(ops, i)[k..] == Units(ops, b)
  {
    var k := UnitsBefore(ops, i, b);
  }

  lemma {:induction false} UnitsBefore(ops: seq<Operation>, i: nat, b: nat) returns (k: nat)
    requires i <= b && Boundary(ops, i) && Boundary(ops, b)
    ensures k <= |Units(ops, i)| && Units(ops, i)[k..] == Units(ops, b)
    decreases |ops| - i
  {
    hide Boundary;
    if i == b {
      k := 0;
    } else {
      var e := NextBoundary(ops, i, b);
      var n := UnitsBefore(ops, e, b);
      k := n + 1;
      assert Units(ops, i) == [(i, e)] + Units(ops, e);
    }
  }

  lemma NextBoundary(ops: seq<Operation>, i: nat, b: nat) returns (e: nat)
    requires i < b && Boundary(ops, i) && Boundary(ops, b)
    ensures i < |ops| && e == UnitEnd(ops, i) && i < e <= b && Boundary(ops, e)
  {
    e := UnitEnd(ops, i);
  }

  /** Boundaries are exactly the starts of a fresh start's units, and the end. */
  lemma {:induction false} UnitStartsAreBoundaries(ops: seq<Operation>, i: nat, b: nat)
    requires i <= b && Boundary(ops, i)
    ensures Boundary(ops, b) <==> b == |ops| || exists u :: u in Units(ops, i) && u.0 == b
    decreases |ops| - i
  {
    if i < |ops| {
      var e := UnitEnd(ops, i);
      assert Boundary(ops, e);
      var us := Units(ops, i);
      assert us[0] == (i, e) && us[1..] == Units(ops, e);
      if e <= b {
        UnitStartsAreBoundaries(ops, e, b);
        assert forall u :: u in Units(ops, e) ==> u in us;
        assert forall u :: u in us ==> u == (i, e) || u in us[1..];
      } else {
        UnitsStartLater(ops, e);
        assert forall u :: u in us ==> u == (i, e) || u in us[1..];
        assert us[0] in us;
      }
    }
  }

  lemma {:induction false} UnitsStartLater(ops: seq<Operation>, i: nat)
    requires i <= |ops|
    ensures forall u :: u in Units(ops, i) ==> i <= u.0 < u.1 <= |ops|
    decreases |ops| - i
  {
    if i < |ops| {
      UnitsStartLater(ops, UnitEnd(ops, i));
    }
  }

  /** A list of writes in journal order. */
  function WriteAll(h: Host, run: seq<Operation>, t: Tree): Option<Tree>
  {
    if run == [] then Some(t)
    else
      var r := WriteAll(h, run[..|run| - 1], t);
      if r.None? then None else WriteOne(h, run[|run| - 1], r.value)
  }

  function WriteOne(h: Host, op: Operation, t: Tree): Option<Tree>
  {
    match h.resolve(op.path)
    case None => None
    case Some(p) => WriteFile(t, p, WriteOf(op))
  }

  /** The unit that starts at `i`. */
  function ApplyUnit(h: Host, ops: seq<Operation>, i: nat, t: Tree): Option<Tree>
    requires i < |ops|
  {
    if ops[i].kind.OpWrite? then WriteAll(h, ops[i..UnitEnd(ops, i)], t) else Step(h, ops, i, t)
  }

  /** A crash-free run of the backend from unit start `i`. */
  function RunUnits(h: Host, ops: seq<Operation>, i: nat, t: Tree): Option<Tree>
    requires i <= |ops|
    decreases |ops| - i
  {
    if i == |ops| then Some(t)
    else
      var r := ApplyUnit(h, ops, i, t);
      if r.None? then None else RunUnits(h, ops, UnitEnd(ops, i), r.value)
  }

  function Then(h: Host, ops: seq<Operation>, e: nat, r: Option<Tree>): Option<Tree>
    requires e <= |ops|
  {
    if r.None? then None else Sequential(h, ops, e, r.value)
  }

  lemma StepOfWrite(h: Host, ops: seq<Operation>, i: nat, t: Tree)
    requires i < |ops| && ops[i].kind.OpWrite?
    ensures Step(h, ops, i, t) == WriteOne(h, ops[i], t)
  {}

  lemma SequentialOverWrite(h: Host, ops: seq<Operation>, i: nat, e: nat, t: Tree)
    requires i <= e < |ops| && ops[e].kind.OpWrite?
    ensures Then(h, ops, e, WriteAll(h, ops[i..e], t)) == Then(h, ops, e + 1, WriteAll(h, ops[i..e + 1], t))
  {
    var r := WriteAll(h, ops[i..e], t);
    var run := ops[i..e + 1];
    assert run[..|run| - 1] == ops[i..e] && run[|run| - 1] == ops[e];
    assert WriteAll(h, run, t) == if r.None? then None else WriteOne(h, ops[e], r.value);
    if r.Some? {
      StepOfWrite(h, ops, e, r.value);
    }
  }

  lemma SequentialOverNothing(h: Host, ops: seq<Operation>, i: nat, t: Tree)
    requires i <= |ops|
    ensures Sequential(h, ops, i, t) == Then(h, ops, i, WriteAll(h, ops[i..i], t))
  {
    hide Step;
    assert |ops[i..i]| == 0;
  }

  lemma {:induction false} SequentialOverRun(h: Host, ops: seq<Operation>, i: nat, e: nat, t: Tree)
    requires i <= e <= |ops|
    requires forall k :: i <= k < e ==> ops[k].kind.OpWrite?
    ensures Sequential(h, ops, i, t) == Then(h, ops, e, WriteAll(h, ops[i..e], t))
    decreases e - i
  {
    hide Step;
    hide Then;
    hide WriteAll;
    if i < e {
      SequentialOverRun(h, ops, i, e - 1, t);
      SequentialOverWrite(h, ops, i, e - 1, t);
    } else {
      SequentialOverNothing(h, ops, i, t);
    }
  }

  /** Running unit by unit means what running operation by operation means. */
  lemma {:induction false} UnitsMeanSequential(h: Host, ops: seq<Operation>, i: nat, t: Tree)
    requires i <= |ops|
    ensures RunUnits(h, ops, i, t) == Sequential(h, ops, i, t)
    decreases |ops| - i
  {
    if i < |ops| {
      var e := UnitEnd(ops, i);
      if ops[i].kind.OpWrite? {
        SequentialOverRun(h, ops, i, e, t);
      }
      var r := ApplyUnit(h, ops, i, t);
      if r.Some? {
        UnitsMeanSequential(h, ops, e, r.value);
      }
    }
  }

  // ----- Write runs, file by file -----

  /** The writes of a run that go to `q`, in journal order. */
  function WritesTo(h: Host, run: seq<Operation>, q: Path): seq<Write>
  {
    if run == [] then []
    else
      var last := run[|run| - 1];
      WritesTo(h, run[..|run| - 1], q) + if h.resolve(last.path) == Some(q) then [WriteOf(last)] else []
  }

  /** The write finds its file and its offset is not negative as int64. */
  predicate Writable(h: Host, op: Operation, t: Tree) {
    && op.offset < TWO_TO_THE_63
    && h.resolve(op.path).Some?
    && IsFile(t, h.resolve(op.path).value)
  }

  /** The tree after every file has had its own writes, whatever the order of the files. */
  function EachFile(h: Host, run: seq<Operation>, t: Tree): Tree
  {
    map q | q in t ::
      if t[q].File? then t[q].(bytes := WriteList(t[q].bytes, WritesTo(h, run, q))) else t[q]
  }

  /** Every write of the run can land. */
  predicate AllWritable(h: Host, run: seq<Operation>, t: Tree) {
    run != [] ==> AllWritable(h, run[..|run| - 1], t) && Writable(h, run[|run| - 1], t)
  }

  /** Writes in journal order give what each file's own writes give: a run fails exactly when
      one of its writes cannot land, and otherwise files do not see each other's writes. */
  lemma {:induction false} WritesByFile(h: Host, run: seq<Operation>, t: Tree)
    ensures WriteAll(h, run, t) == if AllWritable(h, run, t) then Some(EachFile(h, run, t)) else None
  {
    if run == [] {
      assert EachFile(h, run, t) == t;
    } else {
      var init, last := run[..|run| - 1], run[|run| - 1];
      WritesByFile(h, init, t);
      assert Writable(h, last, t) <==> Writable(h, last, EachFile(h, init, t));
      if Writable(h, last, t) {
        WriteOneByFile(h, run, t);
      }
    }
  }

  lemma WritesToLast(h: Host, run: seq<Operation>, q: Path)
    requires run != []
    ensures var last := run[|run| - 1];
            WritesTo(h, run, q) ==
            WritesTo(h, run[..|run| - 1], q) + if h.resolve(last.path) == Some(q) then [WriteOf(last)] else []
  {}

  lemma WriteListLast(b: seq<byte>, ws: seq<Write>, w: Write)
    ensures WriteList(b, ws + [w]) == WriteAt(WriteList(b, ws), w)
  {
    assert (ws + [w])[..|ws|] == ws;
  }

  /** What one more write does to the file at `q`. */
  lemma WriteOneAt(h: Host, run: seq<Operation>, t: Tree, q: Path)
    requires run != [] && q in t && t[q].File?
    ensures var last, b := run[|run| - 1], t[q].bytes;
            var before := WriteList(b, WritesTo(h, run[..|run| - 1], q));
            WriteList(b, WritesTo(h, run, q)) ==
            if h.resolve(last.path) == Some(q) then WriteAt(before, WriteOf(last)) else before
  {
    hide WriteAt;
    hide WriteList;
    hide WritesTo;
    var init, last := run[..|run| - 1], run[|run| - 1];
    WritesToLast(h, run, q);
    WriteListLast(t[q].bytes, WritesTo(h, init, q), WriteOf(last));
    assert WritesTo(h, init, q) + [] == WritesTo(h, init, q);
  }

  lemma WriteOneByFile(h: Host, run: seq<Operation>, t: Tree)
    requires run != [] && Writable(h, run[|run| - 1], t)
    ensures WriteOne(h, run[|run| - 1], EachFile(h, run[..|run| - 1], t)) == Some(EachFile(h, run, t))
  {
    hide WriteAt;
    hide WriteList;
    hide WritesTo;
    var init, last := run[..|run| - 1], run[|run| - 1];
    var p := h.resolve(last.path).value;
    var m, r := EachFile(h, init, t), EachFile(h, run, t);
    var one := WriteFile(m, p, WriteOf(last)).value;
    forall q | q in t
      ensures one[q] == r[q]
    {
      if t[q].File? {
        WriteOneAt(h, run, t, q);
      }
    }
    assert one == r;
  }

  // ----- Torn units -----

  /** Some part of a write run has landed, in any order. */
  ghost predicate TornRun(h: Host, run: seq<Operation>, t: Tree, s: Tree) {
    && s.Keys == t.Keys
    && forall q :: q in t ==>
         if t[q].File? then
           && s[q].File?
           && s[q].attrs == t[q].attrs
           && Torn(t[q].bytes, WritesTo(h, run, q), s[q].bytes)
         else s[q] == t[q]
  }

  /** `s` is a tree a crash may leave while the unit at `i` runs from `t`: nothing or all of it
      done, one of the two attribute updates done, or the name cleared but not yet linked. */
  ghost predicate TornUnit(h: Host, ops: seq<Operation>, i: nat, t: Tree, s: Tree)
    requires i < |ops|
  {
    var op := ops[i];
    if op.kind.OpWrite? then TornRun(h, ops[i..UnitEnd(ops, i)], t, s)
    else
      || s == t
      || Some(s) == Step(h, ops, i, t)
      || (h.resolve(op.path).Some? &&
          var p := h.resolve(op.path).value;
          || (op.kind.OpSymlink? && s == Cleared(t, p))
          || (op.kind.OpSetAttr? && p in t && !t[p].Link? &&
              (s == Chmod(t, p, op.mode) || s == Chtimes(t, p, op.atime, op.mtime))))
  }

  lemma {:induction false} SameFilesSameWritable(h: Host, run: seq<Operation>, t: Tree, s: Tree)
    requires forall q :: IsFile(s, q) <==> IsFile(t, q)
    ensures AllWritable(h, run, s) == AllWritable(h, run, t)
  {
    if run != [] {
      SameFilesSameWritable(h, run[..|run| - 1], t, s);
    }
  }

  lemma TornRunAbsorbs(h: Host, run: seq<Operation>, t: Tree, s: Tree)
    requires TornRun(h, run, t, s)
    ensures WriteAll(h, run, s) == WriteAll(h, run, t)
  {
    WritesByFile(h, run, t);
    WritesByFile(h, run, s);
    SameFilesSameWritable(h, run, t, s);
    forall q | q in t && t[q].File?
      ensures EachFile(h, run, s)[q] == EachFile(h, run, t)[q]
    {
      AbsorbTorn(t[q].bytes, WritesTo(h, run, q), s[q].bytes);
    }
    assert EachFile(h, run, s) == EachFile(h, run, t);
  }

  lemma SetAttrAbsorbs(t: Tree, p: Path, mode: u32, atime: int, mtime: int)
    requires p in t && !t[p].Link?
    ensures SetAttr(Chmod(t, p, mode), p, mode, atime, mtime) == SetAttr(t, p, mode, atime, mtime)
    ensures SetAttr(Chtimes(t, p, atime, mtime), p, mode, atime, mtime) == SetAttr(t, p, mode, atime, mtime)
    ensures SetAttr(SetAttr(t, p, mode, atime, mtime).value, p, mode, atime, mtime) ==
            SetAttr(t, p, mode, atime, mtime)
  {
    var a := Chmod(t, p, mode);
    var b := Chtimes(t, p, atime, mtime);
    var c := SetAttr(t, p, mode, atime, mtime).value;
    assert SetAttr(a, p, mode, atime, mtime).value == c;
    assert SetAttr(b, p, mode, atime, mtime).value == c;
    assert SetAttr(c, p, mode, atime, mtime).value == c;
  }

  /** A completed operation, run again, changes nothing and still succeeds. */
  lemma StepTwice(h: Host, ops: seq<Operation>, i: nat, t: Tree)
    requires i < |ops| && !ops[i].kind.OpWrite? && Step(h, ops, i, t).Some?
    ensures Step(h, ops, i, Step(h, ops, i, t).value) == Step(h, ops, i, t)
  {
    var op := ops[i];
    var p := h.resolve(op.path).value;
    var r := Step(h, ops, i, t).value;
    match op.kind {
      case OpCreate | OpMkdir =>
        assert p == [] || Parent(p) != p;
      case OpTruncate =>
        assert Resize(r[p].bytes, op.length) == r[p].bytes;
        assert r[p := r[p]] == r;
      case OpSetAttr =>
        if !t[p].Link? {
          SetAttrAbsorbs(t, p, op.mode, op.atime, op.mtime);
        }
      case OpRename =>
        RenameAbsorbs(t, p, h.resolve(op.target).value);
      case OpRemove =>
        assert p == [] || Parent(p) != p;
      case OpSymlink =>
        SymlinkAbsorbs(t, p, op.target);
      case OpSetXattr | OpRemoveXattr =>
        if !t[p].Link? {
          var x, n := r[p].attrs.xattrs, h.xattrName(op.name).value;
          assert op.kind.OpSetXattr? ==> x[n := op.data] == x;
          assert op.kind.OpRemoveXattr? ==> x - {n} == x;
          assert r[p := r[p]] == r;
        }
      case _ =>
    }
  }

  /** Every unit absorbs its own partial execution: from any torn state it succeeds exactly
      when it would have from the start, and ends in the same tree. */
  lemma UnitAbsorbs(h: Host, ops: seq<Operation>, i: nat, t: Tree, s: Tree)
    requires i < |ops| && TornUnit(h, ops, i, t, s)
    ensures ApplyUnit(h, ops, i, s) == ApplyUnit(h, ops, i, t)
  {
    var op := ops[i];
    if op.kind.OpWrite? {
      TornRunAbsorbs(h, ops[i..UnitEnd(ops, i)], t, s);
    } else if s == t {
    } else if Some(s) == Step(h, ops, i, t) {
      StepTwice(h, ops, i, t);
    } else {
      var p := h.resolve(op.path).value;
      if op.kind.OpSymlink? {
        SymlinkAbsorbs(t, p, op.target);
      } else {
        SetAttrAbsorbs(t, p, op.mode, op.atime, op.mtime);
      }
    }
  }

  /** A finished write run is one of its own torn states. */
  lemma RunIsTorn(h: Host, run: seq<Operation>, t: Tree)
    requires WriteAll(h, run, t).Some?
    ensures TornRun(h, run, t, WriteAll(h, run, t).value)
  {
    WritesByFile(h, run, t);
    forall q | q in t && t[q].File?
      ensures Torn(t[q].bytes, WritesTo(h, run, q), EachFile(h, run, t)[q].bytes)
    {
      AnySelectionIsTorn(t[q].bytes, WritesTo(h, run, q), WritesTo(h, run, q));
    }
  }

  /** A finished unit, run again, changes nothing. */
  lemma UnitTwice(h: Host, ops: seq<Operation>, i: nat, t: Tree)
    requires i < |ops| && ApplyUnit(h, ops, i, t).Some?
    ensures ApplyUnit(h, ops, i, ApplyUnit(h, ops, i, t).value) == ApplyUnit(h, ops, i, t)
  {
    if ops[i].kind.OpWrite? {
      RunIsTorn(h, ops[i..UnitEnd(ops, i)], t);
    }
    UnitAbsorbs(h, ops, i, t, ApplyUnit(h, ops, i, t).value);
  }
}
