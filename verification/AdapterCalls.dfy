/** What the adapter's operations do to entries and inodes: src/rvfs_adapter.rs. */
module AdapterCalls {
  import opened Common
  import opened ExtentEngine
  import opened VfsAdapter

  /** What a name leads to. */
  function Look(x: Index, d: nat, name: string): Option<nat> {
    if d in x.dirs && name in x.dirs[d] then Some(x.dirs[d][name]) else None
  }

  /** The mode has this type in its upper four bits, and otherwise the bits of `perm`. */
  predicate Typed(mode: bv32, kind: bv32, perm: bv32) {
    mode & 0xF000 == kind && mode & 0xFFFF_0FFF == perm & 0xFFFF_0FFF
  }

  lemma FileTyped(perm: bv32)
    requires perm & 0xF000 == 0
    ensures Typed(WithType(FILE_TYPE, perm), 0x8000, perm)
  {
  }

  lemma DirTyped(perm: bv32)
    requires perm & 0xF000 == 0
    ensures Typed(WithType(DIR_TYPE, perm), 0x4000, perm)
  {
  }

  /** A new node under a free number: empty, with one link, and of this type and these permissions. */
  predicate IsNew(x: Index, x': Index, n: nat, kind: bv32, perm: bv32) {
    && 2 <= n && n !in x.inodes && n in x'.inodes
    && Typed(x'.inodes[n].mode, kind, perm)
    && x'.inodes == x.inodes[n := Meta(n, 0, x'.inodes[n].mode, 1, [])]
  }

  /** A create makes an empty regular file (octal 0100000) and a mkdir an empty directory (octal 0040000) with the
      permissions that were asked for; the name leads there, and no other name changes. */
  lemma CreateMakes(x: Index, parent: nat, name: string, perm: bv32, dir: bool, d: nat, s: string)
    requires perm & 0xF000 == 0
    ensures var n := NextNumber(x.inodes);
      var op := if dir then VfsOp.Mkdir(parent, name, perm) else VfsOp.Create(parent, name, perm);
      && IsNew(x, After(x, op, 2), n, if dir then 0x4000 else 0x8000, perm)
      && Look(After(x, op, 2), d, s) == (if d == parent && s == name then Some(n) else Look(x, d, s))
      && IsNew(x, After(x, op, 1), n, if dir then 0x4000 else 0x8000, perm)
      && Look(After(x, op, 1), d, s) == Look(x, d, s)
  {
    if dir {
      DirTyped(perm);
    } else {
      FileTyped(perm);
    }
  }

  /** An unlink takes its entry; then the inode goes with its last link, and loses one otherwise. Cut in between,
      it takes the entry only. */
  lemma UnlinkTakes(x: Index, parent: nat, name: string, cut: nat, d: nat, s: string)
    requires Look(x, parent, name).Some? && 0 < cut
    ensures var k, x' := Look(x, parent, name).value, After(x, VfsOp.Unlink(parent, name), cut);
      var gone := 2 <= cut && k in x.inodes && x.inodes[k].nlink <= 1;
      && Look(x', d, s) == (if (d == parent && s == name) || (gone && d == k) then None else Look(x, d, s))
      && (gone ==> x'.inodes == x.inodes - {k})
      && (!gone && (cut == 1 || k !in x.inodes) ==> x'.inodes == x.inodes)
      && (!gone && 2 <= cut && k in x.inodes && x.inodes[k].ino == k ==>
            x'.inodes == x.inodes[k := x.inodes[k].(nlink := x.inodes[k].nlink - 1)])
  {
  }

  /** An rmdir takes the entry, and then the inode, of a directory (octal 0040000) that no name is in; of anything
      else it takes nothing. */
  lemma RmdirTakes(x: Index, parent: nat, name: string, cut: nat, d: nat, s: string)
    requires Look(x, parent, name).Some? && Look(x, parent, name).value in x.inodes && 0 < cut
    ensures var k, x' := Look(x, parent, name).value, After(x, VfsOp.Rmdir(parent, name), cut);
      if x.inodes[k].mode & 0xF000 == 0x4000 && forall n :: Look(x, k, n) == None then
        && Look(x', d, s) == (if d == parent && s == name then None else Look(x, d, s))
        && x'.inodes == if 2 <= cut then x.inodes - {k} else x.inodes
      else x' == x
  {
    var k := Look(x, parent, name).value;
    assert Entries(x, k) == map[] <==> forall n :: Look(x, k, n) == None by {
      forall n ensures Look(x, k, n) == None <==> n !in Entries(x, k) {
      }
      if Entries(x, k) != map[] {
        var n :| n in Entries(x, k);
      }
    }
  }

  /** A rename makes the new name lead to where the old one did, and then drops the old one, even when both are the
      same. Cut in between, both lead there. */
  lemma RenameMoves(x: Index, parent: nat, name: string, newParent: nat, newName: string, cut: nat, d: nat, s: string)
    requires Look(x, parent, name).Some? && 0 < cut
    ensures var x' := After(x, VfsOp.RenameTo(parent, name, newParent, newName), cut);
      && x'.inodes == x.inodes
      && Look(x', d, s) ==
           if 2 <= cut && d == parent && s == name then None
           else if d == newParent && s == newName then Look(x, parent, name)
           else Look(x, d, s)
  {
  }

  /** Setting attributes changes the mode and the size of that inode, and nothing else. */
  lemma SetAttrSets(x: Index, ino: nat, mode: bv32, size: nat, cut: nat, i: nat)
    requires ino in x.inodes && x.inodes[ino].ino == ino && 0 < cut
    ensures var x' := After(x, VfsOp.SetAttr(ino, mode, size), cut);
      && x'.dirs == x.dirs && x'.inodes.Keys == x.inodes.Keys
      && x'.inodes[ino] == Meta(ino, size, mode, x.inodes[ino].nlink, x.inodes[ino].extents)
      && (i in x.inodes && i != ino ==> x'.inodes[i] == x.inodes[i])
  {
  }

  /** A name that is not there, and a number without an inode, change nothing. */
  lemma MissingChangesNothing(x: Index, parent: nat, name: string, d: nat, s: string, i: nat, m: bv32, n: nat, cut: nat)
    ensures Look(x, parent, name) == None ==>
      && After(x, VfsOp.Unlink(parent, name), cut) == x
      && After(x, VfsOp.Rmdir(parent, name), cut) == x
      && After(x, VfsOp.RenameTo(parent, name, d, s), cut) == x
    ensures i !in x.inodes ==> After(x, VfsOp.SetAttr(i, m, n), cut) == x
  {
  }

  /** A formatted device holds a root directory (mode 0040755 octal) whose two dots lead to itself. */
  lemma FormattedIs(d: nat, s: string)
    ensures Formatted().inodes == map[1 := Meta(1, 0, 0x41ED, 2, [])]
    ensures Look(Formatted(), d, s) == if d == 1 && (s == "." || s == "..") then Some(1) else None
  {
  }
}
