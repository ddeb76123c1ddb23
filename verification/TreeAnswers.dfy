/** What the namespace calls answer in a good tree, on entries and on the bits of a mode: src/inode.rs, src/link.rs. */
module TreeAnswers {
  import opened Common
  import opened Access
  import opened TreeInvariant
  import opened Namespace
  import opened TreeRuns

  // ----- permissions -----

  /** Root, or the write bit (octal 0200, 0020 or 0002) of the requester's class. */
  predicate MayChange(n: Inode, uid: nat, gid: nat) {
    || uid == 0
    || (if uid == n.uid then n.mode & 0x0080 != 0
        else if gid == n.gid then n.mode & 0x0010 != 0
        else n.mode & 0x0002 != 0)
  }

  /** As well: in a directory with the sticky bit (octal 1000), root, its owner, or the owner of what goes. */
  predicate MayRemove(dir: Inode, uid: nat, gid: nat, owner: nat) {
    MayChange(dir, uid, gid) && (dir.mode & 0x0200 == 0 || uid in {0, dir.uid, owner})
  }

  lemma WriteBits(mode: bv16)
    ensures 2 & !((mode & 0x01FF) >> 6) == 0 <==> mode & 0x0080 != 0
    ensures 2 & !((mode & 0x01FF) >> 3) == 0 <==> mode & 0x0010 != 0
    ensures 2 & !(mode & 0x01FF) == 0 <==> mode & 0x0002 != 0
  {
  }

  lemma KindBits(mode: bv16)
    ensures Contains(mode, S_IFDIR) <==> mode & 0x4000 != 0
    ensures Contains(mode, S_ISVTX) <==> mode & 0x0200 != 0
    ensures Contains(mode, S_ISGID) <==> mode & 0x0400 != 0
    ensures Contains(mode, S_IFLNK) <==> mode & 0xA000 == 0xA000
  {
  }

  lemma MayWriteIff(n: Inode, uid: nat, gid: nat)
    ensures MayWrite(n, uid, gid) <==> MayChange(n, uid, gid)
  {
    if uid != 0 {
      WriteBits(n.mode);
    }
  }

  lemma MayRemoveIff(dir: Inode, uid: nat, gid: nat, owner: nat)
    ensures MayWrite(dir, uid, gid) && !StickyDenies(dir, uid, owner) <==> MayRemove(dir, uid, gid, owner)
    ensures Sticky(dir) <==> dir.mode & 0x0200 != 0
  {
    MayWriteIff(dir, uid, gid);
    KindBits(dir.mode);
  }

  // ----- entries -----

  predicate Exists(t: Tree, d: nat, name: string) {
    d in t.inodes && name in t.inodes[d].entries
  }

  function Named(t: Tree, d: nat, name: string): nat
    requires Exists(t, d, name)
  {
    t.inodes[d].entries[name]
  }

  /** The inode holds an entry besides `.` and `..`. */
  ghost predicate HoldsMore(n: Inode) {
    exists s :: s in n.entries && s != "." && s != ".."
  }

  lemma EntriesAreWhole(t: Tree, d: nat, name: string)
    requires TreeInv(t) && Exists(t, d, name)
    ensures Named(t, d, name) in t.inodes && IsDir(t.inodes[d])
    ensures 0 < t.inodes[d].size == |t.inodes[d].entries|
  {
    var m := SkeletonOf(t.inodes);
    EntriesNameInodes(m, d, name);
    assert NodeInv(m, d);
    assert name in t.inodes[d].entries.Keys;
    assert |t.inodes[d].entries| == |t.inodes[d].entries.Keys|;
  }

  lemma LinksArePositive(t: Tree, i: nat)
    requires TreeInv(t) && i in t.inodes
    ensures 0 < t.inodes[i].hardLinks
  {
    assert NodeInv(SkeletonOf(t.inodes), i);
  }

  /** A directory's size exceeds 2 exactly when it holds more than its dots; the root has no `..`. */
  lemma SizeOverTwo(t: Tree, d: nat, name: string)
    requires TreeInv(t) && Exists(t, d, name) && !IsDot(name) && Named(t, d, name) in t.inodes
    requires IsDir(t.inodes[Named(t, d, name)])
    ensures var k := Named(t, d, name);
      k != ROOT && (2 < t.inodes[k].size <==> HoldsMore(t.inodes[k]))
  {
    var m, k := SkeletonOf(t.inodes), Named(t, d, name);
    OnlyEntry(m, d, name);
    assert NodeInv(m, k);
    var es := t.inodes[k].entries;
    assert es == m[k].entries && |es| == |es.Keys|;
    if HoldsMore(t.inodes[k]) {
      var s :| s in es && s != "." && s != "..";
      SizeOfThree(es.Keys, ".", "..", s);
    } else {
      assert es.Keys <= {".", ".."};
      AtMostTwo(es.Keys, ".", "..");
    }
  }

  lemma AtMostTwo<T>(s: set<T>, a: T, b: T)
    requires s <= {a, b}
    ensures |s| <= 2
  {
    var rest := {a, b} - s;
    assert {a, b} == s + rest;
    assert |{a, b}| <= 2;
  }

  // ----- answers -----

  /** Removing a directory succeeds if and only if the requester may remove it and it holds no entry besides its
      dots; while it holds one, the answer is that it is not empty. */
  lemma RmdirSucceedsIff(t: Tree, a: RmdirArgs)
    requires TreeInv(t) && Exists(t, a.parent, a.name) && !IsDot(a.name)
    ensures var k := Named(t, a.parent, a.name);
      && k in t.inodes
      && (IsDir(t.inodes[k]) ==>
            ErrorOf(t, Rmdir(a)) ==
              if HoldsMore(t.inodes[k]) then Some(NotEmpty)
              else if MayRemove(t.inodes[a.parent], a.uid, a.gid, t.inodes[k].uid) then None
              else Some(AccessError))
  {
    EntriesAreWhole(t, a.parent, a.name);
    var k := Named(t, a.parent, a.name);
    MayRemoveIff(t.inodes[a.parent], a.uid, a.gid, t.inodes[k].uid);
    if IsDir(t.inodes[k]) {
      SizeOverTwo(t, a.parent, a.name);
    }
  }

  /** For root: if and only if the directory holds no entry besides its dots. */
  lemma RootRemovesEmptyDirectories(t: Tree, a: RmdirArgs)
    requires TreeInv(t) && Exists(t, a.parent, a.name) && !IsDot(a.name) && a.uid == 0
    requires Named(t, a.parent, a.name) in t.inodes && IsDir(t.inodes[Named(t, a.parent, a.name)])
    ensures ErrorOf(t, Rmdir(a)).None? <==>
      forall s :: s in t.inodes[Named(t, a.parent, a.name)].entries ==> s == "." || s == ".."
  {
    RmdirSucceedsIff(t, a);
  }

  /** A create succeeds if and only if its directory is there, the requester may change it, and a symbolic link
      comes with a target. */
  lemma CreateSucceedsIff(t: Tree, a: CreateArgs)
    requires TreeInv(t)
    ensures ErrorOf(t, Create(a)) ==
      if a.dir !in t.inodes then Some(NoData)
      else if !MayChange(t.inodes[a.dir], a.uid, a.gid) then Some(AccessError)
      else if a.perm & 0xA000 == 0xA000 && a.target.None? then Some(Panic)
      else None
  {
    KindBits(a.perm);
    if a.dir in t.inodes {
      MayWriteIff(t.inodes[a.dir], a.uid, a.gid);
    }
  }

  /** A link to a file succeeds if and only if the requester may change the directory and the entries that name
      the file can be counted in 32 bits with one more. */
  lemma LinkSucceedsIff(t: Tree, a: LinkArgs)
    requires TreeInv(t) && a.dir in t.inodes && a.ino in t.inodes && !IsDir(t.inodes[a.ino])
    ensures ErrorOf(t, Link(a)) ==
      if !MayChange(t.inodes[a.dir], a.uid, a.gid) then Some(AccessError)
      else if |EntriesNaming(t, a.ino)| == 0xFFFF_FFFF then Some(Panic)
      else None
  {
    MayWriteIff(t.inodes[a.dir], a.uid, a.gid);
    SameLinks(t, a.ino);
    assert NodeInv(SkeletonOf(t.inodes), a.ino);
  }

  /** An unlink succeeds if and only if the requester may remove the entry and the inode that it was given, if
      any, exists. That the entry names that inode is not asked. */
  lemma UnlinkSucceedsIff(t: Tree, a: UnlinkArgs)
    requires TreeInv(t) && Exists(t, a.dir, a.name)
    ensures ErrorOf(t, Unlink(a)) ==
      var dir, i := t.inodes[a.dir], if a.ino.Some? then a.ino.value else Named(t, a.dir, a.name);
      if !MayChange(dir, a.uid, a.gid) then Some(AccessError)
      else if i !in t.inodes then Some(NoData)
      else if MayRemove(dir, a.uid, a.gid, t.inodes[i].uid) then None
      else Some(AccessError)
  {
    var i := if a.ino.Some? then a.ino.value else Named(t, a.dir, a.name);
    EntriesAreWhole(t, a.dir, a.name);
    MayWriteIff(t.inodes[a.dir], a.uid, a.gid);
    if i in t.inodes {
      LinksArePositive(t, i);
      MayRemoveIff(t.inodes[a.dir], a.uid, a.gid, t.inodes[i].uid);
    }
  }

  /** What a call answers when its directory or its entry is missing. */
  lemma MissingEnds(t: Tree, l: LinkArgs, u: UnlinkArgs, d: RmdirArgs, r: RenameArgs)
    ensures l.dir !in t.inodes ==> ErrorOf(t, Link(l)) == Some(NotFound)
    ensures u.dir !in t.inodes ==> ErrorOf(t, Unlink(u)) == Some(NoData)
    ensures u.dir in t.inodes && u.name !in t.inodes[u.dir].entries ==> ErrorOf(t, Unlink(u)) == Some(Panic)
    ensures d.parent !in t.inodes ==> ErrorOf(t, Rmdir(d)) == Some(NoData)
    ensures d.parent in t.inodes && d.name !in t.inodes[d.parent].entries ==> ErrorOf(t, Rmdir(d)) == Some(Panic)
    ensures r.oldDir !in t.inodes ==> ErrorOf(t, Rename(r)) == Some(NoData)
    ensures r.oldDir in t.inodes && r.oldName !in t.inodes[r.oldDir].entries
      ==> ErrorOf(t, Rename(r)) == Some(NotFound)
  {
  }

  // ----- rename -----

  /** The requester may take the entry that moves. */
  predicate MayTake(t: Tree, a: RenameArgs)
    requires Exists(t, a.oldDir, a.oldName) && Named(t, a.oldDir, a.oldName) in t.inodes
  {
    MayRemove(t.inodes[a.oldDir], a.uid, a.gid, t.inodes[Named(t, a.oldDir, a.oldName)].uid)
  }

  /** The target exists and its directory is sticky: only then is it looked at. */
  predicate TargetIsSeen(t: Tree, a: RenameArgs) {
    Exists(t, a.newDir, a.newName) && t.inodes[a.newDir].mode & 0x0200 != 0
  }

  /** The requester may put an entry there, and remove a target that is seen. */
  predicate MayPut(t: Tree, a: RenameArgs)
    requires a.newDir in t.inodes && (Exists(t, a.newDir, a.newName) ==> Named(t, a.newDir, a.newName) in t.inodes)
  {
    && MayChange(t.inodes[a.newDir], a.uid, a.gid)
    && (TargetIsSeen(t, a) ==>
          MayRemove(t.inodes[a.newDir], a.uid, a.gid, t.inodes[Named(t, a.newDir, a.newName)].uid))
  }

  lemma ChecksOfRename(t: Tree, a: RenameArgs)
    requires TreeInv(t) && Exists(t, a.oldDir, a.oldName) && a.newDir in t.inodes
    ensures Named(t, a.oldDir, a.oldName) in t.inodes
    ensures Exists(t, a.newDir, a.newName) ==> Named(t, a.newDir, a.newName) in t.inodes
    ensures SourceError(t, a) == if MayTake(t, a) then None else Some(AccessError)
    ensures TargetError(t, a) == if MayPut(t, a) then None else Some(AccessError)
    ensures SeesTarget(t, a) <==> TargetIsSeen(t, a)
  {
    EntriesAreWhole(t, a.oldDir, a.oldName);
    MayRemoveIff(t.inodes[a.oldDir], a.uid, a.gid, t.inodes[Named(t, a.oldDir, a.oldName)].uid);
    MayWriteIff(t.inodes[a.newDir], a.uid, a.gid);
    KindBits(t.inodes[a.newDir].mode);
    if Exists(t, a.newDir, a.newName) {
      EntriesAreWhole(t, a.newDir, a.newName);
      MayRemoveIff(t.inodes[a.newDir], a.uid, a.gid, t.inodes[Named(t, a.newDir, a.newName)].uid);
    }
  }

  /** Without a directory to receive the entry. */
  lemma NowhereToRename(t: Tree, a: RenameArgs)
    requires TreeInv(t) && Exists(t, a.oldDir, a.oldName) && a.newDir !in t.inodes
    ensures Named(t, a.oldDir, a.oldName) in t.inodes
    ensures ErrorOf(t, Rename(a)) == Some(if MayTake(t, a) then NoData else AccessError)
  {
    EntriesAreWhole(t, a.oldDir, a.oldName);
    MayRemoveIff(t.inodes[a.oldDir], a.uid, a.gid, t.inodes[Named(t, a.oldDir, a.oldName)].uid);
  }

  /** An exchange succeeds if and only if the requester may take the one entry and put the other, and the other
      is seen: in a directory without the sticky bit no exchange succeeds. */
  lemma ExchangeSucceedsIff(t: Tree, a: RenameArgs)
    requires TreeInv(t) && Exists(t, a.oldDir, a.oldName) && a.newDir in t.inodes && a.exchange
    ensures Named(t, a.oldDir, a.oldName) in t.inodes
    ensures Exists(t, a.newDir, a.newName) ==> Named(t, a.newDir, a.newName) in t.inodes
    ensures ErrorOf(t, Rename(a)) ==
      if !MayTake(t, a) || !MayPut(t, a) then Some(AccessError)
      else if TargetIsSeen(t, a) then None
      else Some(NotFound)
  {
    ChecksOfRename(t, a);
  }

  /** What a move answers about a target that it sees: it may only replace a directory that holds nothing. */
  ghost function OverTarget(t: Tree, a: RenameArgs): Option<DbfsError>
    requires Exists(t, a.newDir, a.newName) && Named(t, a.newDir, a.newName) in t.inodes
  {
    if !IsDir(t.inodes[Named(t, a.newDir, a.newName)]) then Some(Panic)
    else if a.oldDir == a.newDir && a.oldName == a.newName then Some(NoData)
    else None
  }

  /** A move between proper names succeeds if and only if the requester may take the entry, put it, and change a
      directory that gets another parent, and a target that is seen is an empty directory and not the entry. */
  lemma MoveSucceedsIff(t: Tree, a: RenameArgs)
    requires TreeInv(t) && Exists(t, a.oldDir, a.oldName) && a.newDir in t.inodes && !a.exchange
    requires !IsDot(a.oldName) && !IsDot(a.newName)
    ensures Named(t, a.oldDir, a.oldName) in t.inodes
    ensures Exists(t, a.newDir, a.newName) ==> Named(t, a.newDir, a.newName) in t.inodes
    ensures ErrorOf(t, Rename(a)) ==
      var moved := t.inodes[Named(t, a.oldDir, a.oldName)];
      if !MayTake(t, a) || !MayPut(t, a) then Some(AccessError)
      else if TargetIsSeen(t, a) && IsDir(t.inodes[Named(t, a.newDir, a.newName)])
        && HoldsMore(t.inodes[Named(t, a.newDir, a.newName)]) then Some(NotEmpty)
      else if IsDir(moved) && a.oldDir != a.newDir && !MayChange(moved, a.uid, a.gid) then Some(AccessError)
      else if TargetIsSeen(t, a) then OverTarget(t, a)
      else None
  {
    ChecksOfRename(t, a);
    if MayTake(t, a) && MayPut(t, a) {
      MoveDenials(t, a);
      if MoveDenied(t, a).None? {
        MoveFailures(t, a);
      }
    }
  }

  lemma MoveDenials(t: Tree, a: RenameArgs)
    requires TreeInv(t) && Exists(t, a.oldDir, a.oldName) && a.newDir in t.inodes && !IsDot(a.newName)
    requires SourceError(t, a).None? && TargetError(t, a).None?
    ensures MoveDenied(t, a) ==
      var moved := t.inodes[Named(t, a.oldDir, a.oldName)];
      if SeesTarget(t, a) && IsDir(t.inodes[Named(t, a.newDir, a.newName)])
        && HoldsMore(t.inodes[Named(t, a.newDir, a.newName)]) then Some(NotEmpty)
      else if IsDir(moved) && a.oldDir != a.newDir && !MayChange(moved, a.uid, a.gid) then Some(AccessError)
      else None
  {
    MayWriteIff(t.inodes[Named(t, a.oldDir, a.oldName)], a.uid, a.gid);
    if SeesTarget(t, a) && IsDir(t.inodes[Named(t, a.newDir, a.newName)]) {
      SizeOverTwo(t, a.newDir, a.newName);
    }
  }

  lemma MoveFailures(t: Tree, a: RenameArgs)
    requires TreeInv(t) && Exists(t, a.oldDir, a.oldName) && a.newDir in t.inodes
    requires !IsDot(a.oldName) && !IsDot(a.newName)
    requires SourceError(t, a).None? && TargetError(t, a).None?
    requires SeesTarget(t, a) && IsDir(t.inodes[Named(t, a.newDir, a.newName)])
      ==> !HoldsMore(t.inodes[Named(t, a.newDir, a.newName)])
    ensures MoveFails(t, a) == if SeesTarget(t, a) then OverTarget(t, a) else None
  {
    EntriesAreWhole(t, a.oldDir, a.oldName);
    if SeesTarget(t, a) {
      EntriesAreWhole(t, a.newDir, a.newName);
      if IsDir(t.inodes[Named(t, a.newDir, a.newName)]) {
        EmptyTargetIsApart(t, a);
      }
    }
  }

  /** An empty directory is not the parent of anything that is named, and no other entry names it. */
  lemma EmptyTargetIsApart(t: Tree, a: RenameArgs)
    requires TreeInv(t) && Exists(t, a.oldDir, a.oldName) && Exists(t, a.newDir, a.newName)
    requires !IsDot(a.oldName) && !IsDot(a.newName) && Named(t, a.newDir, a.newName) in t.inodes
    requires IsDir(t.inodes[Named(t, a.newDir, a.newName)]) && !HoldsMore(t.inodes[Named(t, a.newDir, a.newName)])
    ensures var target := Named(t, a.newDir, a.newName);
      && target != a.oldDir && target != a.newDir
      && (target == Named(t, a.oldDir, a.oldName) ==> a.oldDir == a.newDir && a.oldName == a.newName)
  {
    var m := SkeletonOf(t.inodes);
    OnlyEntry(m, a.newDir, a.newName);
    LinkIsIn(m, a.oldDir, a.oldName);
  }
}
