/**
 Tree connects of one connection: a table by share name and a table by tree id, both pointing at
 the same tree objects, which count their connects.
 */
module Trees {
  import opened Bytes
  import opened Wrappers

  const PIPE_KEY := "\\IPC$"

  predicate IsPipe(path: string) {
    |path| >= |PIPE_KEY| && path[|path| - |PIPE_KEY|..] == PIPE_KEY
  }

  /** What follows the last backslash. */
  function LastComponent(path: string): (c: string)
    ensures '\\' !in c && |c| <= |path| && path[|path| - |c|..] == c
    ensures |c| < |path| ==> path[|path| - |c| - 1] == '\\'
  {
    if path == "" || path[|path| - 1] == '\\' then ""
    else LastComponent(path[..|path| - 1]) + [path[|path| - 1]]
  }

  /** The name a share is tabled under. */
  function Key(path: string): string {
    if IsPipe(path) then PIPE_KEY else LastComponent(path)
  }

  predicate Served(path: string, shares: set<string>, toUpper: string -> string) {
    IsPipe(path) || toUpper(Key(path)) in shares || toUpper(Key(path)) + "$" in shares
  }

  /** A disk share is never tabled under the pipe's name. */
  lemma PipeKeyIsReserved(path: string)
    ensures Key(path) == PIPE_KEY <==> IsPipe(path)
    ensures !IsPipe(path) ==> Key(path) == LastComponent(path)
  {
    hide LastComponent;
    if !IsPipe(path) {
      assert '\\' in PIPE_KEY by { assert PIPE_KEY[0] == '\\'; }
    }
  }

  function Count(outstanding: map<u32, nat>, id: u32): nat {
    if id in outstanding then outstanding[id] else 0
  }

  class Tree {
    const treeId: u32
    const path: string
    var refCount: nat

    constructor (treeId: u32, path: string)
      ensures this.treeId == treeId && this.path == path && refCount == 1
    {
      this.treeId, this.path, refCount := treeId, path, 1;
    }
  }

  /** The two tables hold the same trees, each under its own name and its own id. */
  ghost predicate Agree(byName: map<string, Tree>, byId: map<u32, Tree>) {
    && (forall id :: id in byId ==>
          && byId[id].treeId == id
          && byId[id].path in byName && byName[byId[id].path] == byId[id])
    && (forall name :: name in byName ==>
          && byName[name].path == name
          && byName[name].treeId in byId && byId[byName[name].treeId] == byName[name])
  }

  lemma AgreeAdd(byName: map<string, Tree>, byId: map<u32, Tree>, t: Tree)
    requires Agree(byName, byId) && t.path !in byName && t.treeId !in byId
    ensures Agree(byName[t.path := t], byId[t.treeId := t])
  {}

  lemma AgreeDrop(byName: map<string, Tree>, byId: map<u32, Tree>, t: Tree)
    requires Agree(byName, byId) && t.treeId in byId && byId[t.treeId] == t
    ensures Agree(byName - {t.path}, byId - {t.treeId})
  {}

  lemma AgreeLookup(byName: map<string, Tree>, byId: map<u32, Tree>, name: string)
    requires Agree(byName, byId) && name in byName
    ensures byName[name].path == name && byName[name].treeId in byId && byId[byName[name].treeId] == byName[name]
  {}

  class Connection {
    var byName: map<string, Tree>
    var byId: map<u32, Tree>

    /** Connects less disconnects, for each id that has been handed out. */
    ghost var outstanding: map<u32, nat>

    ghost predicate Valid()
      reads this, byId.Values
    {
      && Agree(byName, byId)
      && (forall id :: id in byId ==> byId[id].treeId == id)
      && (forall id :: id in byId <==> Count(outstanding, id) > 0)
      && (forall id :: id in byId ==> byId[id].refCount == Count(outstanding, id))
    }

    constructor ()
      ensures Valid() && byName == map[] && byId == map[] && outstanding == map[]
    {
      byName, byId, outstanding := map[], map[], map[];
    }

    /** Connects to the share the path names: the pipe share by suffix, a disk share by its last
        component if it is served, with or without a trailing "$". The share's tree is created
        under the fresh id when it has none. */
    method TreeConnect(path: string, shares: set<string>, toUpper: string -> string, freshId: u32)
      returns (treeId: Option<u32>)
      requires Valid() && freshId !in byId
      modifies this, byId.Values
      ensures Valid()
      ensures treeId.None? <==> !Served(path, shares, toUpper)
      ensures treeId.Some? <==>
                || (|path| >= 5 && path[|path| - 5..] == "\\IPC$")
                || toUpper(LastComponent(path)) in shares || toUpper(LastComponent(path)) + "$" in shares
      ensures treeId.None? ==> byId == old(byId) && byName == old(byName) && outstanding == old(outstanding)
      ensures treeId.Some? ==>
                && treeId.value == (if Key(path) in old(byName) then old(byName[Key(path)].treeId) else freshId)
                && treeId.value in byId && byId[treeId.value].path == Key(path)
                && byId == old(byId)[treeId.value := byId[treeId.value]]
                && byName == old(byName)[Key(path) := byId[treeId.value]]
                && outstanding == old(outstanding)[treeId.value := Count(old(outstanding), treeId.value) + 1]
    {
      if !IsPipe(path) && toUpper(Key(path)) !in shares && toUpper(Key(path)) + "$" !in shares {
        return None;
      }
      var id := Connect(Key(path), freshId);
      return Some(id);
    }

    /** The table half of a connect. */
    method Connect(name: string, freshId: u32) returns (treeId: u32)
      requires Valid() && freshId !in byId
      modifies this, byId.Values
      ensures Valid()
      ensures treeId == if name in old(byName) then old(byName[name].treeId) else freshId
      ensures treeId in byId && byId[treeId].path == name
      ensures byId == old(byId)[treeId := byId[treeId]] && byName == old(byName)[name := byId[treeId]]
      ensures outstanding == old(outstanding)[treeId := Count(old(outstanding), treeId) + 1]
    {
      hide Agree;
      if name in byName {
        AgreeLookup(byName, byId, name);
        var t := byName[name];
        t.refCount := t.refCount + 1;
        treeId := t.treeId;
      } else {
        var t := new Tree(freshId, name);
        treeId := t.treeId;
        AgreeAdd(byName, byId, t);
        byName := byName[name := t];
        byId := byId[treeId := t];
      }
      outstanding := outstanding[treeId := Count(outstanding, treeId) + 1];
    }

    /** Drops one connect; the tree leaves both tables when its count reaches zero. */
    method TreeDisconnect(treeId: u32) returns (found: bool)
      requires Valid()
      modifies this, byId.Values
      ensures Valid()
      ensures found <==> treeId in old(byId)
      ensures !found ==> byId == old(byId) && byName == old(byName) && outstanding == old(outstanding)
      ensures found ==> outstanding == old(outstanding)[treeId := old(outstanding)[treeId] - 1]
      ensures found ==> byId == if old(outstanding)[treeId] == 1 then old(byId) - {treeId} else old(byId)
      ensures found ==>
                byName == if old(outstanding)[treeId] == 1 then old(byName) - {old(byId)[treeId].path} else old(byName)
    {
      hide Agree;
      if treeId !in byId {
        return false;
      }
      var t := byId[treeId];
      AgreeDrop(byName, byId, t);
      t.refCount := t.refCount - 1;
      outstanding := outstanding[treeId := outstanding[treeId] - 1];
      if t.refCount == 0 {
        byName := byName - {t.path};
        byId := byId - {t.treeId};
      }
      return true;
    }
  }
}
