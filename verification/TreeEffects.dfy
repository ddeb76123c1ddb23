/** What the namespace calls do to the entries and inodes of a good tree: src/inode.rs, src/link.rs. */
module TreeEffects {
  import opened Common
  import opened Access
  import opened TreeInvariant
  import opened Namespace
  import opened TreeRuns
  import opened TreeAnswers

  /** What a name leads to. */
  function Lookup(t: Tree, d: nat, name: string): Option<nat> {
    LookIn(t.inodes, d, name)
  }

  function LookIn(m: Inodes, d: nat, name: string): Option<nat> {
    if d in m && name in m[d].entries then Some(m[d].entries[name]) else None
  }

  /** An inode changes at most in its entries, its size and its links. */
  predicate SameRest(n: Inode, n': Inode) {
    n'.mode == n.mode && n'.uid == n.uid && n'.gid == n.gid && n'.target == n.target
  }

  ghost predicate SameInodes(t: Tree, t': Tree) {
    forall i :: i in t.inodes && i in t'.inodes ==> SameRest(t.inodes[i], t'.inodes[i])
  }

  /** A directory's size counts its entries, and a file's is what it was. */
  ghost predicate Counted(t: Tree, t': Tree) {
    forall i :: i in t'.inodes ==>
      && (IsDir(t'.inodes[i]) ==> t'.inodes[i].size == |t'.inodes[i].entries|)
      && (!IsDir(t'.inodes[i]) && i in t.inodes ==> t'.inodes[i].size == t.inodes[i].size)
  }

  /** A file's links count the entries that name it, and a directory has two. */
  ghost predicate LinksCounted(t: Tree) {
    forall i :: i in t.inodes ==> t.inodes[i].hardLinks == if IsDir(t.inodes[i]) then 2 else |EntriesNaming(t, i)|
  }

  lemma GoodTreesCount(t: Tree, i: nat)
    requires TreeInv(t) && i in t.inodes
    ensures IsDir(t.inodes[i]) ==> t.inodes[i].size == |t.inodes[i].entries|
    ensures t.inodes[i].hardLinks == if IsDir(t.inodes[i]) then 2 else |EntriesNaming(t, i)|
  {
    SameLinks(t, i);
    assert NodeInv(SkeletonOf(t.inodes), i);
  }

  /** A call that fails changes no inode. The counter moves by one with every create, and with nothing else. */
  lemma FailuresChangeNothing(t: Tree, call: Call)
    ensures ErrorOf(t, call).Some? ==> Next(t, call).inodes == t.inodes
    ensures Next(t, call).nextIno == t.nextIno + if call.Create? then 1 else 0
  {
  }

  /** What a proper call, successful or not, leaves of the counts. */
  lemma ProperCallsCount(t: Tree, call: Call)
    requires TreeInv(t) && Proper(t, call)
    ensures Counted(t, Next(t, call)) && LinksCounted(Next(t, call)) && SameInodes(t, Next(t, call))
  {
    var t' := Next(t, call);
    StepKeepsIff(t, call);
    forall i | i in t'.inodes
      ensures IsDir(t'.inodes[i]) ==> t'.inodes[i].size == |t'.inodes[i].entries|
      ensures !IsDir(t'.inodes[i]) && i in t.inodes ==> t'.inodes[i].size == t.inodes[i].size
      ensures t'.inodes[i].hardLinks == if IsDir(t'.inodes[i]) then 2 else |EntriesNaming(t', i)|
    {
      GoodTreesCount(t', i);
      if i in t.inodes {
        RestStays(t, call, i);
        if !IsDir(t.inodes[i]) {
          FilesKeepSize(t, call, i);
        }
      }
    }
    forall i | i in t.inodes && i in t'.inodes ensures SameRest(t.inodes[i], t'.inodes[i]) {
      RestStays(t, call, i);
    }
  }

  lemma RestStays(t: Tree, call: Call, i: nat)
    requires TreeInv(t) && i in t.inodes && i in Next(t, call).inodes
    ensures SameRest(t.inodes[i], Next(t, call).inodes[i])
  {
    match call
    case Create(a) => assert t.nextIno !in t.inodes;
    case Link(a) =>
    case Unlink(a) =>
    case Rmdir(a) =>
    case Rename(a) => RestStaysInRename(t, a, i);
  }

  lemma RestStaysInRename(t: Tree, a: RenameArgs, i: nat)
    requires i in t.inodes && i in Renamed(t, a).inodes
    ensures SameRest(t.inodes[i], Renamed(t, a).inodes[i])
  {
    if RenameError(t, a).None? {
      var k := t.inodes[a.oldDir].entries[a.oldName];
      if a.exchange {
        var target := t.inodes[a.newDir].entries[a.newName];
        var m1 := Pointed(t.inodes, a.newDir, a.newName, k);
        var m2 := Pointed(m1, a.oldDir, a.oldName, target);
        var m3 := if IsDir(t.inodes[k]) then Pointed(m2, k, ".", a.newDir) else m2;
        RestStaysPointed(t.inodes, a.newDir, a.newName, k, i);
        RestStaysPointed(m1, a.oldDir, a.oldName, target, i);
        RestStaysPointed(m2, k, ".", a.newDir, i);
        RestStaysPointed(m3, target, "..", a.oldDir, i);
      } else {
        var size: nat := t.inodes[a.newDir].size - if SeesTarget(t, a) then 1 else 0;
        PlacedLook(Cleared(t, a), a, k, size, IsDir(t.inodes[k]), i, "");
      }
    }
  }

  lemma RestStaysPointed(m: Inodes, d: nat, name: string, k: nat, i: nat)
    requires d in m && i in m
    ensures i in Pointed(m, d, name, k) && SameRest(m[i], Pointed(m, d, name, k)[i])
  {
  }

  lemma FilesKeepSize(t: Tree, call: Call, i: nat)
    requires TreeInv(t) && Proper(t, call) && i in t.inodes && i in Next(t, call).inodes && !IsDir(t.inodes[i])
    ensures Next(t, call).inodes[i].size == t.inodes[i].size
  {
    FilesHaveNoEntries(t, i);
  }

  lemma FilesHaveNoEntries(t: Tree, i: nat)
    requires TreeInv(t) && i in t.inodes && !IsDir(t.inodes[i])
    ensures t.inodes[i].entries == map[]
  {
    assert NodeInv(SkeletonOf(t.inodes), i);
  }

  // ----- removing -----

  /** A directory's removal takes exactly its entry and its inode. */
  lemma RmdirTakes(t: Tree, a: RmdirArgs, d: nat, name: string)
    requires TreeInv(t) && ErrorOf(t, Rmdir(a)).None? && !IsDot(a.name)
    requires IsDir(t.inodes[Named(t, a.parent, a.name)])
    ensures var t', k := Next(t, Rmdir(a)), Named(t, a.parent, a.name);
      && t'.inodes.Keys == t.inodes.Keys - {k}
      && (d != k ==> Lookup(t', d, name) == if d == a.parent && name == a.name then None else Lookup(t, d, name))
      && Lookup(t', k, name) == None
  {
    RmdirSucceedsIff(t, a);
  }

  /** An unlink takes exactly its entry, and the inode if it was the last entry to name it. */
  lemma UnlinkTakes(t: Tree, a: UnlinkArgs, d: nat, name: string)
    requires TreeInv(t) && ErrorOf(t, Unlink(a)).None? && Proper(t, Unlink(a))
    ensures var t', k := Next(t, Unlink(a)), Named(t, a.dir, a.name);
      && t'.inodes.Keys == t.inodes.Keys - (if EntriesNaming(t, k) == {(a.dir, a.name)} then {k} else {})
      && Lookup(t', d, name) == if d == a.dir && name == a.name then None else Lookup(t, d, name)
  {
    var k := Named(t, a.dir, a.name);
    SameLinks(t, k);
    assert NodeInv(SkeletonOf(t.inodes), k);
    LinkIsIn(SkeletonOf(t.inodes), a.dir, a.name);
    OneElement(EntriesNaming(t, k), (a.dir, a.name));
  }

  lemma OneElement<T>(s: set<T>, x: T)
    requires x in s
    ensures |s| == 1 <==> s == {x}
  {
    assert s == {x} + (s - {x});
    if |s| == 1 {
      assert |s - {x}| == 0;
    }
  }

  // ----- adding -----

  /** A link adds exactly its entry. */
  lemma LinkAdds(t: Tree, a: LinkArgs, d: nat, name: string)
    requires ErrorOf(t, Link(a)).None?
    ensures var t' := Next(t, Link(a));
      && t'.inodes.Keys == t.inodes.Keys
      && Lookup(t', d, name) == if d == a.dir && name == a.name then Some(a.ino) else Lookup(t, d, name)
  {
  }

  /** A create adds exactly its entry and an inode under a number that was free, with its own entries. */
  lemma CreateAdds(t: Tree, a: CreateArgs, d: nat, name: string)
    requires TreeInv(t) && ErrorOf(t, Create(a)).None?
    ensures var t', k := Next(t, Create(a)), t.nextIno;
      && k !in t.inodes && t'.inodes.Keys == t.inodes.Keys + {k}
      && (d != k ==> Lookup(t', d, name) == if d == a.dir && name == a.name then Some(k) else Lookup(t, d, name))
      && Lookup(t', k, name) ==
           if a.perm & 0x4000 == 0 then None
           else if name == "." then Some(k)
           else if name == ".." then Some(a.dir)
           else None
  {
    KindBits(a.perm);
    var dot, dots := ".", "..";
    assert |dot| != |dots|;
  }

  /** What a new inode is, by the kind in the upper four bits of its mode: a directory starts with two links and
      size 2, and every other kind with one link and size 0. */
  lemma CreatedInode(t: Tree, a: CreateArgs)
    requires TreeInv(t) && ErrorOf(t, Create(a)).None?
    ensures var n, parent := Next(t, Create(a)).inodes[t.nextIno], t.inodes[a.dir];
      && (a.perm & 0xF000 in {0x8000, 0xA000, 0x2000, 0x1000, 0xC000, 0x6000} ==> n.size == 0 && n.hardLinks == 1)
      && (a.perm & 0xF000 == 0x4000 ==> n.size == 2 && n.hardLinks == 2)
      && (a.perm & 0xF000 == 0xA000 ==> n.target == a.target)
      && (a.perm & 0xF000 in {0x8000, 0x4000, 0x2000, 0x1000, 0xC000, 0x6000} ==> n.target == None)
      && n.uid == a.uid
      && n.gid == if a.perm & 0x0400 != 0 then parent.gid else a.gid
  {
    KindBits(a.perm);
    KindsOfFiles(a.perm);
  }

  lemma KindsOfFiles(perm: bv16)
    ensures perm & 0xF000 in {0x8000, 0xA000, 0x2000, 0x1000, 0xC000, 0x6000}
      ==> IsSpecial(perm) || !Contains(perm, S_IFDIR)
    ensures perm & 0xF000 == 0x4000 ==> !IsSpecial(perm) && Contains(perm, S_IFDIR)
    ensures perm & 0xF000 in {0x8000, 0x4000, 0x2000, 0x1000, 0xC000, 0x6000} ==> !Contains(perm, S_IFLNK)
  {
  }

  /** Some kind is named exactly if one of the upper four bits is set. */
  lemma HasKindIff(perm: bv16)
    ensures HasKind(perm) <==> perm & 0xF000 != 0
  {
  }

  /** A new inode's mode is what was asked for, but that only root gives set-uid and set-gid (octal 4000 and 2000)
      and that a directory made in a directory has set-gid. */
  lemma CreatedMode(t: Tree, a: CreateArgs)
    requires TreeInv(t) && ErrorOf(t, Create(a)).None?
    ensures var mode, parent := Next(t, Create(a)).inodes[t.nextIno].mode, t.inodes[a.dir];
      && mode & 0xF3FF == a.perm & 0xF3FF
      && (mode & 0x0800 != 0 <==> a.uid == 0 && a.perm & 0x0800 != 0)
      && (mode & 0x0400 != 0 <==> || (a.uid == 0 && a.perm & 0x0400 != 0)
                                  || (a.perm & 0x4000 != 0 && parent.mode & 0x4000 != 0))
  {
    NewModeIs(a.perm, a.uid, t.inodes[a.dir]);
    KindBits(a.perm);
    KindBits(t.inodes[a.dir].mode);
  }

  /** What a mode keeps of the one asked for, by who asks and whether it is a directory made in a directory. */
  predicate Shaped(mode: bv16, perm: bv16, root: bool, inherits: bool) {
    && mode & 0xF3FF == perm & 0xF3FF
    && (mode & 0x0800 != 0 <==> root && perm & 0x0800 != 0)
    && (mode & 0x0400 != 0 <==> inherits || (root && perm & 0x0400 != 0))
  }

  lemma NewModeIs(perm: bv16, uid: nat, parent: Inode)
    ensures Shaped(NewMode(perm, uid, parent), perm, uid == 0, Contains(perm, S_IFDIR) && IsDir(parent))
  {
    var inherits := Contains(perm, S_IFDIR) && IsDir(parent);
    if uid == 0 && !inherits {
      RootsMode(perm, uid, parent);
    } else if uid == 0 {
      RootsInheritedMode(perm, uid, parent);
    } else if !inherits {
      PlainMode(perm, uid, parent);
    } else {
      InheritedMode(perm, uid, parent);
    }
  }

  lemma RootsMode(perm: bv16, uid: nat, parent: Inode)
    requires uid == 0 && !(Contains(perm, S_IFDIR) && IsDir(parent))
    ensures Shaped(NewMode(perm, uid, parent), perm, true, false)
  {
  }

  lemma RootsInheritedMode(perm: bv16, uid: nat, parent: Inode)
    requires uid == 0 && Contains(perm, S_IFDIR) && IsDir(parent)
    ensures Shaped(NewMode(perm, uid, parent), perm, true, true)
  {
  }

  lemma PlainMode(perm: bv16, uid: nat, parent: Inode)
    requires uid != 0 && !(Contains(perm, S_IFDIR) && IsDir(parent))
    ensures Shaped(NewMode(perm, uid, parent), perm, false, false)
  {
  }

  lemma InheritedMode(perm: bv16, uid: nat, parent: Inode)
    requires uid != 0 && Contains(perm, S_IFDIR) && IsDir(parent)
    ensures Shaped(NewMode(perm, uid, parent), perm, false, true)
  {
  }

  /** The base state: a root that holds its `.` only, with the mode and the owners that it was given. */
  lemma BaseIs(mode: bv16, uid: nat, gid: nat, d: nat, name: string)
    ensures var t := Base(mode, uid, gid);
      && t.inodes.Keys == {1} && t.nextIno == 2
      && t.inodes[1] == Inode(mode, 1, 2, uid, gid, t.inodes[1].entries, None)
      && Lookup(t, d, name) == if d == 1 && name == "." then Some(1) else None
  {
  }

  // ----- renaming -----

  lemma PointedLook(m: Inodes, d: nat, name: string, k: nat, d': nat, name': string)
    requires d in m
    ensures Pointed(m, d, name, k).Keys == m.Keys
    ensures LookIn(Pointed(m, d, name, k), d', name')
         == if d' == d && name' == name then Some(k) else LookIn(m, d', name')
  {
  }

  lemma ClearedLook(t: Tree, a: RenameArgs, d: nat, name: string)
    requires a.newDir in t.inodes
    ensures var m, seen := Cleared(t, a), SeesTarget(t, a);
      var gone := if seen then {Named(t, a.newDir, a.newName)} else {};
      && m.Keys == t.inodes.Keys - gone
      && LookIn(m, d, name) ==
           if (seen && d == a.newDir && name == a.newName) || d in gone then None else Lookup(t, d, name)
  {
  }

  lemma PlacedLook(m: Inodes, a: RenameArgs, k: nat, size: nat, isDir: bool, d: nat, name: string)
    requires a.oldDir in m && a.newDir in m && k in m && 0 < m[a.oldDir].size
    ensures var m' := Placed(m, a, k, size, isDir);
      && m'.Keys == m.Keys
      && (d in m ==> SameRest(m[d], m'[d]))
      && LookIn(m', d, name) ==
           if isDir && d == k && name == ".." then Some(a.newDir)
           else if d == a.newDir && name == a.newName then Some(k)
           else if d == a.oldDir && name == a.oldName then None
           else LookIn(m, d, name)
  {
    var m1 := m[a.oldDir := Departed(m[a.oldDir], a.oldName)];
    var m2 := m1[a.newDir := m1[a.newDir].(entries := m1[a.newDir].entries[a.newName := k],
                                           size := if a.oldDir == a.newDir then size else size + 1)];
    assert m2.Keys == m.Keys && (d in m ==> SameRest(m[d], m2[d]));
    assert LookIn(m1, d, name) == if d == a.oldDir && name == a.oldName then None else LookIn(m, d, name);
    assert LookIn(m2, d, name) == if d == a.newDir && name == a.newName then Some(k) else LookIn(m1, d, name);
    PointedLook(m2, k, "..", a.newDir, d, name);
  }

  /** A proper move takes its entry from the one directory to the other. A directory's `..` follows it, and the
      inode that the new name had, if it is seen, goes; nothing else changes. */
  lemma MoveMoves(t: Tree, a: RenameArgs, d: nat, name: string)
    requires TreeInv(t) && ErrorOf(t, Rename(a)).None? && !a.exchange && Proper(t, Rename(a))
    ensures var t', k := Next(t, Rename(a)), Named(t, a.oldDir, a.oldName);
      var gone := if TargetIsSeen(t, a) then {Named(t, a.newDir, a.newName)} else {};
      && t'.inodes.Keys == t.inodes.Keys - gone
      && Lookup(t', d, name) ==
           if d == a.newDir && name == a.newName then Some(k)
           else if d == a.oldDir && name == a.oldName then None
           else if d == k && name == ".." && IsDir(t.inodes[k]) then Some(a.newDir)
           else if d in gone then None
           else Lookup(t, d, name)
  {
    MoveSucceedsIff(t, a);
    ChecksOfRename(t, a);
    var k := Named(t, a.oldDir, a.oldName);
    EntriesAreWhole(t, a.oldDir, a.oldName);
    if TargetIsSeen(t, a) {
      EmptyTargetIsApart(t, a);
    }
    var size: nat := t.inodes[a.newDir].size - if SeesTarget(t, a) then 1 else 0;
    ClearedLook(t, a, d, name);
    PlacedLook(Cleared(t, a), a, k, size, IsDir(t.inodes[k]), d, name);
  }

  /** An exchange between proper names swaps what the names lead to. The one directory's `..` follows it, but in
      the other it is `.` that is set to the new parent. */
  lemma ExchangeSwaps(t: Tree, a: RenameArgs, d: nat, name: string)
    requires TreeInv(t) && ErrorOf(t, Rename(a)).None? && a.exchange && !IsDot(a.oldName) && !IsDot(a.newName)
    ensures var t', k, target := Next(t, Rename(a)), Named(t, a.oldDir, a.oldName), Named(t, a.newDir, a.newName);
      && t'.inodes.Keys == t.inodes.Keys
      && Lookup(t', d, name) ==
           if d == a.oldDir && name == a.oldName then Some(target)
           else if d == a.newDir && name == a.newName then Some(k)
           else if d == k && name == "." && IsDir(t.inodes[k]) then Some(a.newDir)
           else if d == target && name == ".." && IsDir(t.inodes[target]) then Some(a.oldDir)
           else Lookup(t, d, name)
  {
    ChecksOfRename(t, a);
    var k, target := Named(t, a.oldDir, a.oldName), Named(t, a.newDir, a.newName);
    var m1 := Pointed(t.inodes, a.newDir, a.newName, k);
    var m2 := Pointed(m1, a.oldDir, a.oldName, target);
    var m3 := if IsDir(t.inodes[k]) then Pointed(m2, k, ".", a.newDir) else m2;
    PointedLook(t.inodes, a.newDir, a.newName, k, d, name);
    PointedLook(m1, a.oldDir, a.oldName, target, d, name);
    PointedLook(m2, k, ".", a.newDir, d, name);
    PointedLook(m3, target, "..", a.oldDir, d, name);
  }
}
