/** Directory operations as sequences of separately committed engine transactions: src/rvfs_adapter.rs. */
module VfsAdapter {
  import opened Common
  import opened ExtentEngine

  const TYPE_MASK: bv32 := 0xF000
  const DIR_TYPE: bv32 := 0x4000
  const FILE_TYPE: bv32 := 0x8000
  const ROOT_MODE: bv32 := 0x41ED

  /** The index of a freshly formatted device. */
  function Formatted(): Index {
    Index(map[ROOT := Meta(ROOT, 0, ROOT_MODE, 2, [])], map[ROOT := map["." := ROOT, ".." := ROOT]])
  }

  datatype VfsOp =
    | Create(parent: nat, name: string, perm: bv32)
    | Mkdir(parent: nat, name: string, perm: bv32)
    | Unlink(parent: nat, name: string)
    | Rmdir(parent: nat, name: string)
    | RenameTo(parent: nat, name: string, newParent: nat, newName: string)
    | SetAttr(ino: nat, mode: bv32, size: nat)

  /** The index after each of the transactions that an operation commits. */
  function Trace(x: Index, op: VfsOp): seq<Index> {
    match op
    case Create(parent, name, perm) => NewNode(x, parent, name, WithType(FILE_TYPE, perm))
    case Mkdir(parent, name, perm) => NewNode(x, parent, name, WithType(DIR_TYPE, perm))
    case Unlink(parent, name) =>
      if name !in Entries(x, parent) then []
      else
        var child, dropped := Entries(x, parent)[name], DropEntry(x, parent, name);
        if child !in x.inodes then [dropped]
        else
          var meta := x.inodes[child];
          if meta.nlink <= 1 then [dropped, DropInode(dropped, child)]
          else [dropped, SetInode(dropped, meta.ino, meta.(nlink := meta.nlink - 1))]
    case Rmdir(parent, name) =>
      if name !in Entries(x, parent) then []
      else
        var child := Entries(x, parent)[name];
        if child !in x.inodes || !IsDir(x.inodes[child]) || Entries(x, child) != map[] then []
        else [DropEntry(x, parent, name), DropInode(DropEntry(x, parent, name), child)]
    case RenameTo(parent, name, newParent, newName) =>
      if name !in Entries(x, parent) then []
      else
        var added := AddEntry(x, newParent, newName, Entries(x, parent)[name]);
        [added, DropEntry(added, parent, name)]
    case SetAttr(ino, mode, size) =>
      if ino !in x.inodes then [] else [SetInode(x, x.inodes[ino].ino, x.inodes[ino].(mode := mode, size := size))]
  }

  function NewNode(x: Index, parent: nat, name: string, mode: bv32): seq<Index> {
    [Allocated(x, mode), AddEntry(Allocated(x, mode), parent, name, NextNumber(x.inodes))]
  }

  function WithType(kind: bv32, perm: bv32): bv32 {
    kind | perm
  }

  predicate IsDir(m: Meta) {
    m.mode & TYPE_MASK == DIR_TYPE
  }

  /** The index when only the first `cut` transactions of an operation commit: the power fails, or a commit does. */
  function After(x: Index, op: VfsOp, cut: nat): Index {
    var states := Trace(x, op);
    if cut == 0 || states == [] then x
    else if cut <= |states| then states[cut - 1]
    else states[|states| - 1]
  }

  class DbfsInode {
    const ino: nat
    const engine: TransactionEngine

    constructor (ino: nat, engine: TransactionEngine)
      ensures this.ino == ino && this.engine == engine
    {
      this.ino, this.engine := ino, engine;
    }

    method Create(name: string, perm: bv32, cut: nat) returns (r: Result<nat>)
      modifies engine
      ensures engine.index == After(old(engine.index), VfsOp.Create(ino, name, perm), cut)
      ensures r == if 2 <= cut then Ok(NextNumber(old(engine.index.inodes))) else Err(Io)
    {
      var newIno := engine.AllocateInode(WithType(FILE_TYPE, perm), 0 < cut);
      if newIno.Err? {
        return Err(Io);
      }
      var added := engine.AddDentry(ino, name, newIno.value, 1 < cut);
      if added.Err? {
        return Err(Io);
      }
      r := newIno;
    }

    method Mkdir(name: string, perm: bv32, cut: nat) returns (r: Result<nat>)
      modifies engine
      ensures engine.index == After(old(engine.index), VfsOp.Mkdir(ino, name, perm), cut)
      ensures r == if 2 <= cut then Ok(NextNumber(old(engine.index.inodes))) else Err(Io)
    {
      var newIno := engine.AllocateInode(WithType(DIR_TYPE, perm), 0 < cut);
      if newIno.Err? {
        return Err(Io);
      }
      var added := engine.AddDentry(ino, name, newIno.value, 1 < cut);
      if added.Err? {
        return Err(Io);
      }
      r := newIno;
    }

    /** Drops the entry, and then a link of the child; a child without links goes too. */
    method Unlink(name: string, cut: nat) returns (r: Result<()>)
      modifies engine
      ensures engine.index == After(old(engine.index), VfsOp.Unlink(ino, name), cut)
      ensures var x := old(engine.index);
        r == if name !in Entries(x, ino) then Err(NotFound)
             else if Entries(x, ino)[name] in x.inodes && 2 <= cut then Ok(()) else Err(Io)
    {
      var child := engine.LookupDentry(ino, name);
      if child.Err? {
        return Err(NotFound);
      }
      var dropped := engine.DeleteDentry(ino, name, 0 < cut);
      if dropped.Err? {
        return Err(Io);
      }
      var found := engine.GetMetadata(child.value);
      if found.Err? {
        return Err(Io);
      }
      var meta := found.value;
      if 0 < meta.nlink {
        meta := meta.(nlink := meta.nlink - 1);
      }
      if meta.nlink == 0 {
        r := engine.DeleteInode(child.value, 1 < cut);
      } else {
        r := engine.UpdateMetadata(meta, 1 < cut);
      }
    }

    /** Drops an empty directory; `names` is the order in which the cursor lists its entries. */
    method Rmdir(name: string, names: seq<string>, cut: nat) returns (r: Result<()>)
      requires name in Entries(engine.index, ino) ==>
        ListsEntries(names, Entries(engine.index, Entries(engine.index, ino)[name]))
      modifies engine
      ensures engine.index == After(old(engine.index), VfsOp.Rmdir(ino, name), cut)
      ensures var x := old(engine.index);
        r == if name !in Entries(x, ino) then Err(NotFound)
             else if Entries(x, ino)[name] !in x.inodes then Err(Io)
             else if !IsDir(x.inodes[Entries(x, ino)[name]]) then Err(NotDir)
             else if Entries(x, Entries(x, ino)[name]) != map[] then Err(NotEmpty)
             else if 2 <= cut then Ok(()) else Err(Io)
    {
      var child := engine.LookupDentry(ino, name);
      if child.Err? {
        return Err(NotFound);
      }
      var found := engine.GetMetadata(child.value);
      if found.Err? {
        return Err(Io);
      }
      if found.value.mode & TYPE_MASK != DIR_TYPE {
        return Err(NotDir);
      }
      var first := engine.ListDentries(child.value, names, 0);
      if first.Some? {
        return Err(NotEmpty);
      }
      var dropped := engine.DeleteDentry(ino, name, 0 < cut);
      if dropped.Err? {
        return Err(Io);
      }
      r := engine.DeleteInode(child.value, 1 < cut);
    }

    /** Adds the new entry, replacing any of that name, and then drops the old one. */
    method RenameTo(oldName: string, newParent: nat, newName: string, cut: nat) returns (r: Result<()>)
      modifies engine
      ensures engine.index == After(old(engine.index), VfsOp.RenameTo(ino, oldName, newParent, newName), cut)
      ensures r == if oldName !in Entries(old(engine.index), ino) then Err(NotFound)
                   else if 2 <= cut then Ok(()) else Err(Io)
    {
      var child := engine.LookupDentry(ino, oldName);
      if child.Err? {
        return Err(NotFound);
      }
      var added := engine.AddDentry(newParent, newName, child.value, 0 < cut);
      if added.Err? {
        return Err(Io);
      }
      r := engine.DeleteDentry(ino, oldName, 1 < cut);
    }

    /** Sets the type, the permissions and the size as they are asked for, and leaves the extents alone. */
    method SetAttr(mode: bv32, size: nat, cut: nat) returns (r: Result<()>)
      modifies engine
      ensures engine.index == After(old(engine.index), VfsOp.SetAttr(ino, mode, size), cut)
      ensures r == if ino in old(engine.index.inodes) && 0 < cut then Ok(()) else Err(Io)
    {
      var found := engine.GetMetadata(ino);
      if found.Err? {
        return Err(Io);
      }
      var meta := found.value.(mode := mode);
      meta := meta.(size := size);
      r := engine.UpdateMetadata(meta, 0 < cut);
    }
  }
}
