/** The directory tree of the bucket store, and what each namespace call does to it: src/inode.rs, src/link.rs. */
module Namespace {
  import opened Common
  import opened Access

  /** One inode bucket; a directory's `data:` keys are its entries. */
  datatype Inode = Inode(
    mode: bv16,
    size: nat,
    hardLinks: nat,
    uid: nat,
    gid: nat,
    entries: map<string, nat>,
    target: Option<string>)

  type Inodes = map<nat, Inode>

  /** The inode buckets and the counter that new numbers are taken from. */
  datatype Tree = Tree(inodes: Inodes, nextIno: nat)

  predicate IsDir(n: Inode) {
    Contains(n.mode, S_IFDIR)
  }

  predicate Sticky(n: Inode) {
    Contains(n.mode, S_ISVTX)
  }

  predicate MayWrite(n: Inode, uid: nat, gid: nat) {
    MayAccess(n.uid, n.gid, n.mode & RWX_ALL, uid, gid, ACCESS_W_OK)
  }

  /** In a sticky directory only root and the owners of the directory and of the file may remove an entry. */
  predicate StickyDenies(dir: Inode, uid: nat, owner: nat) {
    Sticky(dir) && uid != 0 && uid != dir.uid && uid != owner
  }

  /** The root as dbfs_common_root_inode makes it. */
  function Base(mode: bv16, uid: nat, gid: nat): Tree {
    Tree(map[ROOT := Inode(mode, 1, 2, uid, gid, map["." := ROOT], None)], 2)
  }

  // ----- create -----

  datatype CreateArgs = CreateArgs(dir: nat, name: string, uid: nat, gid: nat, perm: bv16, target: Option<string>)

  /** The tests that precede the directory test in dbfs_common_create. */
  predicate IsSpecial(perm: bv16) {
    Contains(perm, S_IFSOCK) || Contains(perm, S_IFCHR) || Contains(perm, S_IFBLK) || Contains(perm, S_IFIFO)
  }

  /** Some kind of file is named: otherwise `DbfsFileType::from` panics. */
  predicate HasKind(perm: bv16) {
    IsSpecial(perm) || Contains(perm, S_IFLNK) || Contains(perm, S_IFREG) || Contains(perm, S_IFDIR)
  }

  /** Every symbolic link passes the character device test, so its size is 0 and not its target's length. */
  lemma SymlinkIsSpecial(perm: bv16)
    ensures Contains(perm, S_IFLNK) ==> IsSpecial(perm)
  {
  }

  /** set-uid and set-gid are root's to give; a directory made in a directory gets set-gid. */
  function NewMode(perm: bv16, uid: nat, parent: Inode): bv16 {
    var mode := if uid != 0 then Without(Without(perm, S_ISUID), S_ISGID) else perm;
    if Contains(perm, S_IFDIR) && IsDir(parent) then mode | S_ISGID else mode
  }

  lemma NewModeKeepsKind(perm: bv16, uid: nat, parent: Inode)
    ensures Contains(NewMode(perm, uid, parent), S_IFDIR) <==> Contains(perm, S_IFDIR)
  {
  }

  function NewInode(a: CreateArgs, parent: Inode, number: nat): Inode {
    Inode(
      NewMode(a.perm, a.uid, parent),
      if !IsSpecial(a.perm) && Contains(a.perm, S_IFDIR) then 2 else 0,
      if !IsSpecial(a.perm) && Contains(a.perm, S_IFDIR) then 2 else 1,
      a.uid,
      if Contains(a.perm, S_ISGID) then parent.gid else a.gid,
      if Contains(a.perm, S_IFDIR) then map["." := number, ".." := a.dir] else map[],
      if Contains(a.perm, S_IFLNK) then a.target else None)
  }

  function CreateError(t: Tree, a: CreateArgs): Option<DbfsError> {
    if a.dir !in t.inodes then Some(NoData)
    else if !MayWrite(t.inodes[a.dir], a.uid, a.gid) then Some(AccessError)
    else if t.nextIno in t.inodes then Some(FileExists)
    else if Contains(a.perm, S_IFLNK) && a.target.None? then Some(Panic)
    else None
  }

  /** A new entry is put and counted, whether or not its name was free. */
  function Entered(dir: Inode, name: string, number: nat): Inode {
    dir.(entries := dir.entries[name := number], size := dir.size + 1)
  }

  function Departed(dir: Inode, name: string): Inode
    requires 0 < dir.size
  {
    dir.(entries := dir.entries - {name}, size := dir.size - 1)
  }

  /** The counter advances even when the call fails. */
  function Created(t: Tree, a: CreateArgs): Tree {
    if CreateError(t, a).Some? then t.(nextIno := t.nextIno + 1)
    else Tree(WithNew(t.inodes, a, t.nextIno), t.nextIno + 1)
  }

  function WithNew(m: Inodes, a: CreateArgs, number: nat): Inodes
    requires a.dir in m
  {
    m[a.dir := Entered(m[a.dir], a.name, number)][number := NewInode(a, m[a.dir], number)]
  }

  // ----- link -----

  datatype LinkArgs = LinkArgs(uid: nat, gid: nat, ino: nat, dir: nat, name: string)

  function LinkError(t: Tree, a: LinkArgs): Option<DbfsError> {
    if a.dir !in t.inodes then Some(NotFound)
    else if !MayWrite(t.inodes[a.dir], a.uid, a.gid) then Some(AccessError)
    else if a.ino !in t.inodes then Some(NoData)
    else if t.inodes[a.ino].hardLinks + 1 == U32_LIMIT then Some(Panic)
    else None
  }

  function Linked(t: Tree, a: LinkArgs): Tree {
    if LinkError(t, a).Some? then t
    else
      var m := t.inodes[a.dir := Entered(t.inodes[a.dir], a.name, a.ino)];
      t.(inodes := m[a.ino := m[a.ino].(hardLinks := m[a.ino].hardLinks + 1)])
  }

  // ----- unlink -----

  datatype UnlinkArgs = UnlinkArgs(uid: nat, gid: nat, dir: nat, name: string, ino: Option<nat>)

  /** The inode that unlink works on: the caller's, or else the one that the entry names. */
  function Unlinkee(t: Tree, a: UnlinkArgs): nat
    requires a.dir in t.inodes && a.name in t.inodes[a.dir].entries
  {
    if a.ino.Some? then a.ino.value else t.inodes[a.dir].entries[a.name]
  }

  function UnlinkError(t: Tree, a: UnlinkArgs): Option<DbfsError> {
    if a.dir !in t.inodes then Some(NoData)
    else if a.name !in t.inodes[a.dir].entries then Some(Panic)
    else if !MayWrite(t.inodes[a.dir], a.uid, a.gid) then Some(AccessError)
    else if Unlinkee(t, a) !in t.inodes then Some(if a.ino.Some? then NoData else NotFound)
    else if StickyDenies(t.inodes[a.dir], a.uid, t.inodes[Unlinkee(t, a)].uid) then Some(AccessError)
    else if t.inodes[a.dir].size == 0 || t.inodes[Unlinkee(t, a)].hardLinks == 0 then Some(Panic)
    else None
  }

  function Unlinked(t: Tree, a: UnlinkArgs): Tree {
    if UnlinkError(t, a).Some? then t else t.(inodes := WithoutLink(t.inodes, a.dir, a.name, Unlinkee(t, a)))
  }

  /** The last link takes the inode with it. */
  function WithoutLink(m: Inodes, dir: nat, name: string, ino: nat): Inodes
    requires dir in m && ino in m && 0 < m[dir].size && 0 < m[ino].hardLinks
  {
    var m1 := m[dir := Departed(m[dir], name)];
    if m1[ino].hardLinks == 1 then m1 - {ino} else m1[ino := m1[ino].(hardLinks := m1[ino].hardLinks - 1)]
  }

  // ----- rmdir -----

  datatype RmdirArgs = RmdirArgs(uid: nat, gid: nat, parent: nat, name: string)

  function RmdirError(t: Tree, a: RmdirArgs): Option<DbfsError> {
    if a.parent !in t.inodes then Some(NoData)
    else if a.name !in t.inodes[a.parent].entries then Some(Panic)
    else
      var p, number := t.inodes[a.parent], t.inodes[a.parent].entries[a.name];
      if number !in t.inodes then Some(Panic)
      else if 2 < t.inodes[number].size then Some(NotEmpty)
      else if !MayWrite(p, a.uid, a.gid) || StickyDenies(p, a.uid, t.inodes[number].uid) then Some(AccessError)
      else if p.size == 0 then Some(Panic)
      else None
  }

  function Removed(t: Tree, a: RmdirArgs): Tree {
    if RmdirError(t, a).Some? then t
    else t.(inodes := WithoutNode(t.inodes, a.parent, a.name, t.inodes[a.parent].entries[a.name]))
  }

  function WithoutNode(m: Inodes, dir: nat, name: string, number: nat): Inodes
    requires dir in m && 0 < m[dir].size
  {
    m[dir := Departed(m[dir], name)] - {number}
  }

  // ----- rename -----

  datatype RenameArgs = RenameArgs(
    uid: nat,
    gid: nat,
    oldDir: nat,
    oldName: string,
    newDir: nat,
    newName: string,
    exchange: bool)

  predicate SameEntry(a: RenameArgs) {
    a.oldDir == a.newDir && a.oldName == a.newName
  }

  /** What both kinds of rename check of the entry that moves. */
  function SourceError(t: Tree, a: RenameArgs): Option<DbfsError> {
    if a.oldDir !in t.inodes then Some(NoData)
    else
      var dir := t.inodes[a.oldDir];
      if a.oldName !in dir.entries then Some(NotFound)
      else if !MayWrite(dir, a.uid, a.gid) then Some(AccessError)
      else if dir.entries[a.oldName] !in t.inodes then Some(Panic)
      else if StickyDenies(dir, a.uid, t.inodes[dir.entries[a.oldName]].uid) then Some(AccessError)
      else None
  }

  /** An existing target is seen only in a sticky directory. */
  predicate SeesTarget(t: Tree, a: RenameArgs)
    requires a.newDir in t.inodes
  {
    a.newName in t.inodes[a.newDir].entries && Sticky(t.inodes[a.newDir])
  }

  /** What both kinds of rename check of the directory that receives. */
  function TargetError(t: Tree, a: RenameArgs): Option<DbfsError> {
    if a.newDir !in t.inodes then Some(NoData)
    else
      var dir := t.inodes[a.newDir];
      if !MayWrite(dir, a.uid, a.gid) then Some(AccessError)
      else if SeesTarget(t, a) then
        if dir.entries[a.newName] !in t.inodes then Some(Panic)
        else if StickyDenies(dir, a.uid, t.inodes[dir.entries[a.newName]].uid) then Some(AccessError)
        else None
      else None
  }

  /** What a move checks before it starts to write: a seen directory must be empty, and a directory that changes
      its parent must be writable itself. */
  function MoveDenied(t: Tree, a: RenameArgs): Option<DbfsError>
    requires SourceError(t, a).None? && TargetError(t, a).None?
  {
    var newDir, number := t.inodes[a.newDir], t.inodes[a.oldDir].entries[a.oldName];
    if SeesTarget(t, a) && IsDir(t.inodes[newDir.entries[a.newName]])
      && 2 < t.inodes[newDir.entries[a.newName]].size then
      Some(NotEmpty)
    else if IsDir(t.inodes[number]) && a.oldDir != a.newDir && !MayWrite(t.inodes[number], a.uid, a.gid) then
      Some(AccessError)
    else None
  }

  /** How the writes of a move may fail. A link count is decoded at the wrong width, so replacing anything but
      a directory panics; the replaced directory's bucket is gone for later steps. */
  function MoveFails(t: Tree, a: RenameArgs): Option<DbfsError>
    requires SourceError(t, a).None? && TargetError(t, a).None?
  {
    var oldDir, newDir := t.inodes[a.oldDir], t.inodes[a.newDir];
    if SeesTarget(t, a) then
      var target := newDir.entries[a.newName];
      if newDir.size == 0 || !IsDir(t.inodes[target]) then Some(Panic)
      else if SameEntry(a) || target == a.oldDir then Some(NoData)
      else if oldDir.size == 0 then Some(Panic)
      else if target == a.newDir || target == oldDir.entries[a.oldName] then Some(NoData)
      else None
    else if oldDir.size == 0 then Some(Panic)
    else None
  }

  function RenameError(t: Tree, a: RenameArgs): Option<DbfsError> {
    if SourceError(t, a).Some? then SourceError(t, a)
    else if TargetError(t, a).Some? then TargetError(t, a)
    else if a.exchange then (if SeesTarget(t, a) then None else Some(NotFound))
    else if MoveDenied(t, a).Some? then MoveDenied(t, a)
    else MoveFails(t, a)
  }

  /** The tree once a seen target is out of the way. */
  function Cleared(t: Tree, a: RenameArgs): Inodes
    requires a.newDir in t.inodes
  {
    var dir := t.inodes[a.newDir];
    if SeesTarget(t, a) then t.inodes[a.newDir := dir.(entries := dir.entries - {a.newName})] - {dir.entries[a.newName]}
    else t.inodes
  }

  function Moved(t: Tree, a: RenameArgs): Inodes
    requires RenameError(t, a).None? && !a.exchange
  {
    var number := t.inodes[a.oldDir].entries[a.oldName];
    var size: nat := t.inodes[a.newDir].size - if SeesTarget(t, a) then 1 else 0;
    Placed(Cleared(t, a), a, number, size, IsDir(t.inodes[number]))
  }

  /** The entry leaves one directory and enters the other, whose size, not counting it, is `size`. */
  function Placed(m: Inodes, a: RenameArgs, number: nat, size: nat, isDir: bool): Inodes
    requires a.oldDir in m && a.newDir in m && number in m && 0 < m[a.oldDir].size
  {
    var m1 := m[a.oldDir := Departed(m[a.oldDir], a.oldName)];
    var m2 := m1[a.newDir := m1[a.newDir].(entries := m1[a.newDir].entries[a.newName := number],
                                           size := if a.oldDir == a.newDir then size else size + 1)];
    if isDir then Pointed(m2, number, "..", a.newDir) else m2
  }

  function Pointed(m: Inodes, d: nat, name: string, number: nat): Inodes
    requires d in m
  {
    m[d := m[d].(entries := m[d].entries[name := number])]
  }

  /** The moved directory's `.`, and not its `..`, is set to its new parent. */
  function Exchanged(t: Tree, a: RenameArgs): Inodes
    requires RenameError(t, a).None? && a.exchange
  {
    var source, target := t.inodes[a.oldDir].entries[a.oldName], t.inodes[a.newDir].entries[a.newName];
    var m1 := Pointed(t.inodes, a.newDir, a.newName, source);
    var m2 := Pointed(m1, a.oldDir, a.oldName, target);
    var m3 := if IsDir(t.inodes[source]) then Pointed(m2, source, ".", a.newDir) else m2;
    if IsDir(t.inodes[target]) then Pointed(m3, target, "..", a.oldDir) else m3
  }

  function Renamed(t: Tree, a: RenameArgs): Tree {
    if RenameError(t, a).Some? then t
    else t.(inodes := if a.exchange then Exchanged(t, a) else Moved(t, a))
  }
}
