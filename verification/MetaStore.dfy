/** The namespace calls as transactions on inode buckets: src/inode.rs, src/link.rs. Entries hold inode numbers
    in decimal. */
module MetaStore {
  import opened Common
  import opened Access
  import opened Decimal
  import opened Namespace

  /** An inode bucket as it is stored; `data` holds the values of its `data:` keys. */
  datatype Bucket = Bucket(
    mode: bv16,
    size: nat,
    hardLinks: nat,
    uid: nat,
    gid: nat,
    data: map<string, string>,
    target: Option<string>)

  type Buckets = map<nat, Bucket>

  function EncodeEntries(es: map<string, nat>): map<string, string> {
    map s | s in es :: Print(es[s])
  }

  function Encode(n: Inode): Bucket {
    Bucket(n.mode, n.size, n.hardLinks, n.uid, n.gid, EncodeEntries(n.entries), n.target)
  }

  /** The buckets that hold a tree. */
  function Stored(m: Inodes): Buckets {
    map i | i in m :: Encode(m[i])
  }

  lemma StoredPut(m: Inodes, i: nat, n: Inode)
    ensures Stored(m[i := n]) == Stored(m)[i := Encode(n)]
  {
  }

  lemma StoredDrop(m: Inodes, i: nat)
    ensures Stored(m - {i}) == Stored(m) - {i}
  {
  }

  lemma EntriesPut(es: map<string, nat>, name: string, k: nat)
    ensures EncodeEntries(es[name := k]) == EncodeEntries(es)[name := Print(k)]
  {
  }

  lemma EntriesDrop(es: map<string, nat>, name: string)
    ensures EncodeEntries(es - {name}) == EncodeEntries(es) - {name}
  {
  }

  /** Putting an entry and its directory's new size. */
  lemma StoredEntry(m: Inodes, d: nat, name: string, k: nat, size: nat)
    requires d in m
    ensures Stored(m[d := m[d].(entries := m[d].entries[name := k], size := size)])
         == Stored(m)[d := Stored(m)[d].(data := Stored(m)[d].data[name := Print(k)], size := size)]
  {
    EntriesPut(m[d].entries, name, k);
    StoredPut(m, d, m[d].(entries := m[d].entries[name := k], size := size));
  }

  lemma StoredNoEntry(m: Inodes, d: nat, name: string, size: nat)
    requires d in m
    ensures Stored(m[d := m[d].(entries := m[d].entries - {name}, size := size)])
         == Stored(m)[d := Stored(m)[d].(data := Stored(m)[d].data - {name}, size := size)]
  {
    EntriesDrop(m[d].entries, name);
    StoredPut(m, d, m[d].(entries := m[d].entries - {name}, size := size));
  }

  lemma StoredLinks(m: Inodes, i: nat, links: nat)
    requires i in m
    ensures Stored(m[i := m[i].(hardLinks := links)]) == Stored(m)[i := Stored(m)[i].(hardLinks := links)]
  {
    StoredPut(m, i, m[i].(hardLinks := links));
  }

  lemma StoredCreate(m: Inodes, a: CreateArgs, number: nat)
    requires a.dir in m
    ensures Stored(WithNew(m, a, number))
         == PutEntry(Stored(m), a.dir, a.name, number, m[a.dir].size + 1)
              [number := Encode(NewInode(a, m[a.dir], number))]
  {
    StoredEntry(m, a.dir, a.name, number, m[a.dir].size + 1);
    StoredPut(m[a.dir := Entered(m[a.dir], a.name, number)], number, NewInode(a, m[a.dir], number));
  }

  function Reply(e: Option<DbfsError>): Result<()> {
    match e
    case None => Ok(())
    case Some(error) => Err(error)
  }

  // ----- steps inside a transaction -----

  /** `put` of a `data:` key and of the size. */
  function PutEntry(tx: Buckets, d: nat, name: string, k: nat, size: nat): Buckets
    requires d in tx
  {
    tx[d := tx[d].(data := tx[d].data[name := Print(k)], size := size)]
  }

  /** `delete` of a `data:` key and `put` of the size. */
  function DeleteEntry(tx: Buckets, d: nat, name: string, size: nat): Buckets
    requires d in tx
  {
    tx[d := tx[d].(data := tx[d].data - {name}, size := size)]
  }

  /** Clearing the target loses a rename its source's entry, its source or a directory only when it is the target. */
  lemma WhatIsCleared(t: Tree, a: RenameArgs)
    requires SourceError(t, a).None? && TargetError(t, a).None? && SeesTarget(t, a)
    ensures var m, target := Cleared(t, a), t.inodes[a.newDir].entries[a.newName];
      var number := t.inodes[a.oldDir].entries[a.oldName];
      && (a.oldDir in m <==> target != a.oldDir)
      && (a.oldDir in m ==>
            && (a.oldName in m[a.oldDir].entries <==> !SameEntry(a))
            && m[a.oldDir].size == t.inodes[a.oldDir].size)
      && (a.newDir in m <==> target != a.newDir)
      && (number in m <==> target != number)
  {
  }

  /** How the writes behind the target's removal fail, if they do. */
  function PlaceError(m: Inodes, a: RenameArgs): DbfsError {
    if a.oldDir in m && a.oldName in m[a.oldDir].entries && m[a.oldDir].size == 0 then Panic else NoData
  }

  class MetaStore {
    var buckets: Buckets
    var nextIno: nat
    /** The tree that the buckets hold. */
    ghost var tree: Tree

    ghost predicate Valid()
      reads this
    {
      buckets == Stored(tree.inodes) && nextIno == tree.nextIno
    }

    constructor (mode: bv16, uid: nat, gid: nat)
      ensures Valid() && tree == Base(mode, uid, gid)
    {
      tree := Base(mode, uid, gid);
      nextIno := 2;
      buckets := map[ROOT := Bucket(mode, 1, 2, uid, gid, map["." := "1"], None)];
      new;
      assert Print(ROOT) == "1";
      assert EncodeEntries(map["." := ROOT]) == map["." := "1"];
      assert Stored(tree.inodes) == buckets;
    }

    /** The number that an entry holds; the values are digits, so neither `unwrap` fails. */
    method Lookup(dir: nat, name: string) returns (number: nat)
      requires Valid() && dir in buckets && name in buckets[dir].data
      ensures dir in tree.inodes && name in tree.inodes[dir].entries && number == tree.inodes[dir].entries[name]
    {
      var value := Parse(buckets[dir].data[name]);
      number := value.value;
    }

    method MayWriteTo(dir: nat, uid: nat, gid: nat) returns (ok: bool)
      requires Valid() && dir in buckets
      ensures dir in tree.inodes && ok == MayWrite(tree.inodes[dir], uid, gid)
    {
      ok := CheckoutAccess(buckets[dir].uid, buckets[dir].gid, buckets[dir].mode & RWX_ALL, uid, gid, ACCESS_W_OK);
    }

    method StickyForbids(dir: nat, uid: nat, ino: nat) returns (denied: bool)
      requires Valid() && dir in buckets && ino in buckets
      ensures dir in tree.inodes && ino in tree.inodes
      ensures denied == StickyDenies(tree.inodes[dir], uid, tree.inodes[ino].uid)
    {
      var p := buckets[dir];
      denied := Contains(p.mode, S_ISVTX) && uid != 0 && uid != p.uid && uid != buckets[ino].uid;
    }

    /** The reply is put together after the commit, and panics there for a permission that names no kind. */
    method Create(a: CreateArgs) returns (r: Result<nat>)
      requires Valid()
      modifies this
      ensures Valid() && tree == Created(old(tree), a)
      ensures r == match CreateError(old(tree), a)
                   case None => if HasKind(a.perm) then Ok(old(nextIno)) else Err(Panic)
                   case Some(e) => Err(e)
    {
      var newNumber := nextIno;
      nextIno := nextIno + 1;
      tree := tree.(nextIno := nextIno);
      if a.dir !in buckets {
        return Err(NoData);
      }
      var ok := MayWriteTo(a.dir, a.uid, a.gid);
      if !ok {
        return Err(AccessError);
      }
      var parent := buckets[a.dir];
      var tx := PutEntry(buckets, a.dir, a.name, newNumber, parent.size + 1);
      if newNumber in tx {
        return Err(FileExists);
      }
      if Contains(a.perm, S_IFLNK) && a.target.None? {
        return Err(Panic);
      }
      var inode := NewBucket(a, parent, newNumber, tree.inodes[a.dir]);
      buckets := tx[newNumber := inode];
      StoredCreate(tree.inodes, a, newNumber);
      tree := Tree(WithNew(tree.inodes, a, newNumber), nextIno);
      if !HasKind(a.perm) {
        return Err(Panic);
      }
      r := Ok(newNumber);
    }

    static method NewModeBits(perm: bv16, uid: nat, parentMode: bv16, ghost p: Inode) returns (mode: bv16)
      requires parentMode == p.mode
      ensures mode == NewMode(perm, uid, p)
    {
      mode := perm;
      if uid != 0 {
        mode := Without(mode, S_ISUID);
        mode := Without(mode, S_ISGID);
      }
      if Contains(perm, S_IFDIR) && Contains(parentMode, S_IFDIR) {
        mode := mode | S_ISGID;
      }
    }

    static method NewData(isDir: bool, dir: nat, newNumber: nat) returns (data: map<string, string>)
      ensures data == EncodeEntries(if isDir then map["." := newNumber, ".." := dir] else map[])
    {
      data := map[];
      if isDir {
        data := data["." := Print(newNumber)];
        data := data[".." := Print(dir)];
        EntriesPut(map[], ".", newNumber);
        EntriesPut(map["." := newNumber], "..", dir);
        assert map["." := newNumber][".." := dir] == map["." := newNumber, ".." := dir];
      }
    }

    /** The bucket of a new inode; the branch that would size a symbolic link is never reached. */
    static method NewBucket(a: CreateArgs, parent: Bucket, newNumber: nat, ghost p: Inode) returns (b: Bucket)
      requires parent == Encode(p)
      ensures b == Encode(NewInode(a, p, newNumber))
    {
      var mode := NewModeBits(a.perm, a.uid, parent.mode, p);
      var gid := if Contains(a.perm, S_ISGID) then parent.gid else a.gid;
      var hardLink, fileSize := 1, 0;
      if !IsSpecial(a.perm) && Contains(a.perm, S_IFDIR) {
        hardLink, fileSize := 2, 2;
      }
      var data := NewData(Contains(a.perm, S_IFDIR), a.dir, newNumber);
      var target := if Contains(a.perm, S_IFLNK) then a.target else None;
      b := Bucket(mode, fileSize, hardLink, a.uid, gid, data, target);
    }

    method Link(a: LinkArgs) returns (r: Result<()>)
      requires Valid()
      modifies this
      ensures Valid() && tree == Linked(old(tree), a) && r == Reply(LinkError(old(tree), a))
    {
      if a.dir !in buckets {
        return Err(NotFound);
      }
      var ok := MayWriteTo(a.dir, a.uid, a.gid);
      if !ok {
        return Err(AccessError);
      }
      if a.ino !in buckets {
        return Err(NoData);
      }
      if buckets[a.ino].hardLinks + 1 == U32_LIMIT {
        return Err(Panic);
      }
      buckets := LinkTransaction(buckets, a, tree);
      tree := Linked(tree, a);
      r := Ok(());
    }

    /** The writes of a link. */
    static method LinkTransaction(buckets: Buckets, a: LinkArgs, ghost t: Tree) returns (tx: Buckets)
      requires buckets == Stored(t.inodes) && LinkError(t, a).None?
      ensures tx == Stored(Linked(t, a).inodes)
    {
      ghost var m := t.inodes[a.dir := Entered(t.inodes[a.dir], a.name, a.ino)];
      tx := PutEntry(buckets, a.dir, a.name, a.ino, buckets[a.dir].size + 1);
      StoredEntry(t.inodes, a.dir, a.name, a.ino, t.inodes[a.dir].size + 1);
      tx := tx[a.ino := tx[a.ino].(hardLinks := tx[a.ino].hardLinks + 1)];
      StoredLinks(m, a.ino, m[a.ino].hardLinks + 1);
    }

    method Unlink(a: UnlinkArgs) returns (r: Result<()>)
      requires Valid()
      modifies this
      ensures Valid() && tree == Unlinked(old(tree), a) && r == Reply(UnlinkError(old(tree), a))
    {
      if a.dir !in buckets {
        return Err(NoData);
      }
      if a.name !in buckets[a.dir].data {
        return Err(Panic);
      }
      var ok := MayWriteTo(a.dir, a.uid, a.gid);
      if !ok {
        return Err(AccessError);
      }
      var ino := Lookup(a.dir, a.name);
      if a.ino.Some? {
        ino := a.ino.value;
      }
      if ino !in buckets {
        return Err(if a.ino.Some? then NoData else NotFound);
      }
      var p := buckets[a.dir];
      var denied := StickyForbids(a.dir, a.uid, ino);
      if denied {
        return Err(AccessError);
      }
      if p.size == 0 || buckets[ino].hardLinks == 0 {
        return Err(Panic);
      }
      buckets := UnlinkTransaction(buckets, a.dir, a.name, ino, tree.inodes);
      tree := Unlinked(tree, a);
      r := Ok(());
    }

    /** The writes of an unlink: the last link takes the inode with it. */
    static method UnlinkTransaction(buckets: Buckets, dir: nat, name: string, ino: nat, ghost m: Inodes)
      returns (tx: Buckets)
      requires buckets == Stored(m) && dir in m && ino in m && 0 < m[dir].size && 0 < m[ino].hardLinks
      ensures tx == Stored(WithoutLink(m, dir, name, ino))
    {
      ghost var m1 := m[dir := Departed(m[dir], name)];
      tx := DeleteEntry(buckets, dir, name, buckets[dir].size - 1);
      StoredNoEntry(m, dir, name, m[dir].size - 1);
      var links := tx[ino].hardLinks;
      if links == 1 {
        tx := tx - {ino};
        StoredDrop(m1, ino);
      } else {
        tx := tx[ino := tx[ino].(hardLinks := links - 1)];
        StoredLinks(m1, ino, m1[ino].hardLinks - 1);
      }
    }

    method Rmdir(a: RmdirArgs) returns (r: Result<()>)
      requires Valid()
      modifies this
      ensures Valid() && tree == Removed(old(tree), a) && r == Reply(RmdirError(old(tree), a))
    {
      if a.parent !in buckets {
        return Err(NoData);
      }
      if a.name !in buckets[a.parent].data {
        return Err(Panic);
      }
      var number := Lookup(a.parent, a.name);
      if number !in buckets {
        return Err(Panic);
      }
      if 2 < buckets[number].size {
        return Err(NotEmpty);
      }
      var ok := MayWriteTo(a.parent, a.uid, a.gid);
      if !ok {
        return Err(AccessError);
      }
      var p := buckets[a.parent];
      var denied := StickyForbids(a.parent, a.uid, number);
      if denied {
        return Err(AccessError);
      }
      if p.size == 0 {
        return Err(Panic);
      }
      buckets := RmdirTransaction(buckets, a.parent, a.name, number, tree.inodes);
      tree := Removed(tree, a);
      r := Ok(());
    }

    /** The writes of an rmdir. */
    static method RmdirTransaction(buckets: Buckets, dir: nat, name: string, number: nat, ghost m: Inodes)
      returns (tx: Buckets)
      requires buckets == Stored(m) && dir in m && 0 < m[dir].size
      ensures tx == Stored(WithoutNode(m, dir, name, number))
    {
      tx := DeleteEntry(buckets, dir, name, buckets[dir].size - 1);
      StoredNoEntry(m, dir, name, m[dir].size - 1);
      tx := tx - {number};
      StoredDrop(m[dir := Departed(m[dir], name)], number);
    }

    /** The first part of a rename reads the entry that moves, in a transaction of its own. */
    method CheckSource(a: RenameArgs) returns (r: Result<nat>)
      requires Valid()
      ensures r.Ok? <==> SourceError(tree, a).None?
      ensures r.Ok? ==> r.value == tree.inodes[a.oldDir].entries[a.oldName]
      ensures r.Err? ==> SourceError(tree, a) == Some(r.error)
    {
      if a.oldDir !in buckets {
        return Err(NoData);
      }
      if a.oldName !in buckets[a.oldDir].data {
        return Err(NotFound);
      }
      var ok := MayWriteTo(a.oldDir, a.uid, a.gid);
      if !ok {
        return Err(AccessError);
      }
      var number := Lookup(a.oldDir, a.oldName);
      if number !in buckets {
        return Err(Panic);
      }
      var denied := StickyForbids(a.oldDir, a.uid, number);
      if denied {
        return Err(AccessError);
      }
      r := Ok(number);
    }

    /** The second part reads the target, which it sees in a sticky directory only. */
    method CheckTarget(a: RenameArgs) returns (r: Result<Option<nat>>)
      requires Valid()
      ensures r.Ok? <==> TargetError(tree, a).None?
      ensures r.Ok? ==> r.value == if SeesTarget(tree, a) then Some(tree.inodes[a.newDir].entries[a.newName]) else None
      ensures r.Err? ==> TargetError(tree, a) == Some(r.error)
    {
      if a.newDir !in buckets {
        return Err(NoData);
      }
      var ok := MayWriteTo(a.newDir, a.uid, a.gid);
      if !ok {
        return Err(AccessError);
      }
      if a.newName !in buckets[a.newDir].data || !Contains(buckets[a.newDir].mode, S_ISVTX) {
        return Ok(None);
      }
      var number := Lookup(a.newDir, a.newName);
      if number !in buckets {
        return Err(Panic);
      }
      var denied := StickyForbids(a.newDir, a.uid, number);
      if denied {
        return Err(AccessError);
      }
      r := Ok(Some(number));
    }

    /** `put` of one entry of a directory bucket. */
    static method PutPointer(tx: Buckets, d: nat, name: string, number: nat, ghost m: Inodes) returns (tx': Buckets)
      requires d in m && tx == Stored(m)
      ensures tx' == Stored(Pointed(m, d, name, number))
    {
      tx' := PutEntry(tx, d, name, number, tx[d].size);
      StoredEntry(m, d, name, number, m[d].size);
    }

    method ExchangeEntries(a: RenameArgs, source: nat, target: nat)
      requires Valid() && RenameError(tree, a).None? && a.exchange
      requires source == tree.inodes[a.oldDir].entries[a.oldName] && target == tree.inodes[a.newDir].entries[a.newName]
      modifies this
      ensures Valid() && tree == old(tree).(inodes := Exchanged(old(tree), a))
    {
      ghost var m := tree.inodes;
      var sourceIsDir, targetIsDir := Contains(buckets[source].mode, S_IFDIR), Contains(buckets[target].mode, S_IFDIR);
      var tx := PutPointer(buckets, a.newDir, a.newName, source, m);
      ghost var m1 := Pointed(m, a.newDir, a.newName, source);
      tx := PutPointer(tx, a.oldDir, a.oldName, target, m1);
      ghost var m2 := Pointed(m1, a.oldDir, a.oldName, target);
      ghost var m3 := if sourceIsDir then Pointed(m2, source, ".", a.newDir) else m2;
      if sourceIsDir {
        tx := PutPointer(tx, source, ".", a.newDir, m2);
      }
      if targetIsDir {
        tx := PutPointer(tx, target, "..", a.oldDir, m3);
      }
      buckets := tx;
      tree := tree.(inodes := Exchanged(tree, a));
    }

    /** The writes of a move, once a seen target is out of the way. */
    static method Place(tx: Buckets, a: RenameArgs, number: nat, size: nat, isDir: bool, ghost m: Inodes)
      returns (tx': Buckets)
      requires tx == Stored(m) && a.oldDir in m && a.newDir in m && number in m && 0 < m[a.oldDir].size
      ensures tx' == Stored(Placed(m, a, number, size, isDir))
    {
      ghost var m1 := m[a.oldDir := Departed(m[a.oldDir], a.oldName)];
      tx' := DeleteEntry(tx, a.oldDir, a.oldName, tx[a.oldDir].size - 1);
      StoredNoEntry(m, a.oldDir, a.oldName, m[a.oldDir].size - 1);
      var newSize := if a.oldDir == a.newDir then size else size + 1;
      tx' := PutSized(tx', a.newDir, a.newName, number, newSize, m1);
      if isDir {
        ghost var entries := m1[a.newDir].entries[a.newName := number];
        ghost var m2 := m1[a.newDir := m1[a.newDir].(entries := entries, size := newSize)];
        tx' := PutPointer(tx', number, "..", a.newDir, m2);
      }
    }

    /** `put` of one entry of a directory bucket, and of the directory's size. */
    static method PutSized(tx: Buckets, d: nat, name: string, number: nat, size: nat, ghost m: Inodes)
      returns (tx': Buckets)
      requires d in m && tx == Stored(m)
      ensures tx' == Stored(m[d := m[d].(entries := m[d].entries[name := number], size := size)])
    {
      tx' := PutEntry(tx, d, name, number, size);
      StoredEntry(m, d, name, number, size);
    }

    /** Removes a seen target and its entry; the directory's size follows later. */
    static method Clear(tx: Buckets, a: RenameArgs, target: nat, ghost t: Tree) returns (tx': Buckets)
      requires tx == Stored(t.inodes) && a.newDir in t.inodes && SeesTarget(t, a)
      requires target == t.inodes[a.newDir].entries[a.newName]
      ensures tx' == Stored(Cleared(t, a))
    {
      tx' := DeleteEntry(tx, a.newDir, a.newName, tx[a.newDir].size);
      ghost var dir := t.inodes[a.newDir];
      StoredNoEntry(t.inodes, a.newDir, a.newName, dir.size);
      assert dir.(entries := dir.entries - {a.newName}, size := dir.size) == dir.(entries := dir.entries - {a.newName});
      tx' := tx' - {target};
      StoredDrop(t.inodes[a.newDir := dir.(entries := dir.entries - {a.newName})], target);
    }

    method CheckMove(a: RenameArgs, number: nat, target: Option<nat>) returns (denied: Option<DbfsError>)
      requires Valid() && SourceError(tree, a).None? && TargetError(tree, a).None?
      requires number == tree.inodes[a.oldDir].entries[a.oldName]
      requires target == if SeesTarget(tree, a) then Some(tree.inodes[a.newDir].entries[a.newName]) else None
      ensures denied == MoveDenied(tree, a)
    {
      if target.Some? && Contains(buckets[target.value].mode, S_IFDIR) && 2 < buckets[target.value].size {
        return Some(NotEmpty);
      }
      var ok := MayWriteTo(number, a.uid, a.gid);
      if Contains(buckets[number].mode, S_IFDIR) && a.oldDir != a.newDir && !ok {
        return Some(AccessError);
      }
      denied := None;
    }

    /** The writes of a move, in a transaction that is dropped if one fails. */
    static method MoveTransaction(buckets: Buckets, a: RenameArgs, number: nat, target: Option<nat>, ghost t: Tree)
      returns (r: Result<Buckets>)
      requires buckets == Stored(t.inodes)
      requires SourceError(t, a).None? && TargetError(t, a).None? && MoveDenied(t, a).None? && !a.exchange
      requires number == t.inodes[a.oldDir].entries[a.oldName]
      requires target == if SeesTarget(t, a) then Some(t.inodes[a.newDir].entries[a.newName]) else None
      ensures MoveFails(t, a) == if r.Ok? then None else Some(r.error)
      ensures r.Ok? ==> r.value == Stored(Moved(t, a))
    {
      var tx, size := buckets, buckets[a.newDir].size;
      if target.Some? {
        if size == 0 || !Contains(buckets[target.value].mode, S_IFDIR) {
          return Err(Panic);
        }
        size := size - 1;
        tx := Clear(tx, a, target.value, t);
        WhatIsCleared(t, a);
      }
      r := PlaceIfThere(tx, a, number, size, Contains(buckets[number].mode, S_IFDIR), Cleared(t, a));
    }

    /** The writes behind the target's removal, which fail on what was removed with it. */
    static method PlaceIfThere(buckets: Buckets, a: RenameArgs, number: nat, size: nat, isDir: bool, ghost m: Inodes)
      returns (r: Result<Buckets>)
      requires buckets == Stored(m)
      ensures r.Err? ==> r.error == PlaceError(m, a)
      ensures r.Ok? <==>
        a.oldDir in m && a.oldName in m[a.oldDir].entries && 0 < m[a.oldDir].size && a.newDir in m && number in m
      ensures r.Ok? ==> r.value == Stored(Placed(m, a, number, size, isDir))
    {
      if a.oldDir !in buckets || a.oldName !in buckets[a.oldDir].data {
        return Err(NoData);
      }
      if buckets[a.oldDir].size == 0 {
        return Err(Panic);
      }
      if a.newDir !in buckets || number !in buckets {
        return Err(NoData);
      }
      var tx := Place(buckets, a, number, size, isDir, m);
      r := Ok(tx);
    }

    method MoveEntry(a: RenameArgs, number: nat, target: Option<nat>) returns (r: Result<()>)
      requires Valid() && SourceError(tree, a).None? && TargetError(tree, a).None? && !a.exchange
      requires number == tree.inodes[a.oldDir].entries[a.oldName]
      requires target == if SeesTarget(tree, a) then Some(tree.inodes[a.newDir].entries[a.newName]) else None
      modifies this
      ensures Valid() && tree == Renamed(old(tree), a) && r == Reply(RenameError(old(tree), a))
    {
      var denied := CheckMove(a, number, target);
      if denied.Some? {
        return Err(denied.value);
      }
      var tx := MoveTransaction(buckets, a, number, target, tree);
      if tx.Err? {
        return Err(tx.error);
      }
      buckets := tx.value;
      tree := Renamed(tree, a);
      r := Ok(());
    }

    method Rename(a: RenameArgs) returns (r: Result<()>)
      requires Valid()
      modifies this
      ensures Valid() && tree == Renamed(old(tree), a) && r == Reply(RenameError(old(tree), a))
    {
      var source := CheckSource(a);
      if source.Err? {
        return Err(source.error);
      }
      var target := CheckTarget(a);
      if target.Err? {
        return Err(target.error);
      }
      if a.exchange {
        if target.value.None? {
          return Err(NotFound);
        }
        ExchangeEntries(a, source.value, target.value.value);
        return Ok(());
      }
      r := MoveEntry(a, source.value, target.value);
    }
  }
}
