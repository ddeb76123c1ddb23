/** Permission bits and the access check: src/common.rs, src/inode.rs. */
module Access {

  const S_IFDIR: bv16 := 0x4000
  const S_IFREG: bv16 := 0x8000
  const S_IFCHR: bv16 := 0x2000
  const S_IFIFO: bv16 := 0x1000
  const S_IFBLK: bv16 := 0x6000
  const S_IFLNK: bv16 := 0xA000
  const S_IFSOCK: bv16 := 0xC000
  const S_ISUID: bv16 := 0x0800
  const S_ISGID: bv16 := 0x0400
  const S_ISVTX: bv16 := 0x0200
  const S_IXGRP: bv16 := 0x0008
  const RWX_ALL: bv16 := 0x01FF

  const ACCESS_W_OK: bv16 := 2

  /** `DbfsPermission::contains`. */
  predicate Contains(mode: bv16, bits: bv16) {
    mode & bits == bits
  }

  /** The class of permission bits that a requester other than root is judged by. */
  function ClassBits(ownerUid: nat, ownerGid: nat, mode: bv16, uid: nat, gid: nat): bv16 {
    if ownerUid == uid then mode >> 6
    else if ownerGid == gid then mode >> 3
    else mode
  }

  predicate RootMay(mode: bv16, mask: bv16) {
    mask & 1 == 0 || (mode >> 6) & 1 == 1 || (mode >> 3) & 1 == 1 || mode & 1 == 1
  }

  /** Who may do what: an empty request is always granted; root may read and write anything and may
      execute what anyone may execute; anyone else needs every requested bit in their own class. */
  predicate MayAccess(ownerUid: nat, ownerGid: nat, mode: bv16, uid: nat, gid: nat, mask: bv16) {
    || mask == 0
    || (uid == 0 && RootMay(mode, mask))
    || (uid != 0 && mask & !ClassBits(ownerUid, ownerGid, mode, uid, gid) == 0)
  }

  /** `access_mask -= access_mask & granted`: what is left is what was not granted. */
  method Grant(mask: bv16, granted: bv16) returns (rest: bv16)
    ensures rest == mask & !granted
  {
    rest := mask - (mask & granted);
  }

  lemma RootUngranted(mask: bv16, mode: bv16)
    ensures mask & 1 & !(mode >> 6) & !(mode >> 3) & !mode == 0
       <==> RootMay(mode, mask)
  {
  }

  /** The part of a request from anyone but root that is not granted. */
  method ClassAccess(pUid: nat, pGid: nat, permission: bv16, uid: nat, gid: nat, accessMask: bv16) returns (rest: bv16)
    ensures rest == accessMask & !ClassBits(pUid, pGid, permission, uid, gid)
  {
    var granted := permission;
    if pUid == uid {
      granted := permission >> 6;
    } else if pGid == gid {
      granted := permission >> 3;
    }
    assert granted == ClassBits(pUid, pGid, permission, uid, gid);
    rest := Grant(accessMask, granted);
  }

  method CheckoutAccess(pUid: nat, pGid: nat, mode: bv16, uid: nat, gid: nat, accessMask: bv16) returns (ok: bool)
    ensures ok <==> MayAccess(pUid, pGid, mode, uid, gid, accessMask)
  {
    if accessMask == 0 {
      return true;
    }
    var permission := mode;
    var mask := accessMask;
    if uid == 0 {
      ok := RootAccess(permission, mask);
      return ok;
    }
    mask := ClassAccess(pUid, pGid, permission, uid, gid, mask);
    return mask == 0;
  }

  method RootAccess(permission: bv16, accessMask: bv16) returns (ok: bool)
    ensures ok <==> RootMay(permission, accessMask)
  {
    var mask := accessMask & 1;
    mask := Grant(mask, permission >> 6);
    mask := Grant(mask, permission >> 3);
    mask := Grant(mask, permission);
    RootUngranted(accessMask, permission);
    return mask == 0;
  }

  /** `DbfsPermission -= bits`. */
  function Without(mode: bv16, bits: bv16): bv16 {
    mode & !bits
  }

  function ClearSuidSgid(mode: bv16): bv16 {
    var m := Without(mode, S_ISUID);
    if Contains(m, S_IXGRP) then Without(m, S_ISGID) else m
  }

  // ----- what the bits mean -----

  lemma UnionMasked(a: bv16, b: bv16, m: bv16)
    ensures (a | b) & m == (a & m) | (b & m)
  {
  }

  lemma UnionEmpty(x: bv16, y: bv16)
    ensures x | y == 0 <==> x == 0 && y == 0
  {
  }

  /** A request for several things is granted if and only if each of them is. */
  lemma RequestsAreBitwise(ownerUid: nat, ownerGid: nat, mode: bv16, uid: nat, gid: nat, a: bv16, b: bv16)
    ensures MayAccess(ownerUid, ownerGid, mode, uid, gid, a | b)
       <==> MayAccess(ownerUid, ownerGid, mode, uid, gid, a) && MayAccess(ownerUid, ownerGid, mode, uid, gid, b)
  {
    var granted := ClassBits(ownerUid, ownerGid, mode, uid, gid);
    var may := mask => MayAccess(ownerUid, ownerGid, mode, uid, gid, mask);
    forall mask ensures may(mask) <==> if uid == 0 then RootMay(mode, mask) else mask & !granted == 0 {
      JudgedBy(ownerUid, ownerGid, mode, uid, gid, mask);
    }
    JudgedBitwise(may, uid == 0, mode, granted, a, b);
  }

  lemma JudgedBy(ownerUid: nat, ownerGid: nat, mode: bv16, uid: nat, gid: nat, mask: bv16)
    ensures MayAccess(ownerUid, ownerGid, mode, uid, gid, mask)
       <==> if uid == 0 then RootMay(mode, mask) else mask & !ClassBits(ownerUid, ownerGid, mode, uid, gid) == 0
  {
  }

  lemma JudgedBitwise(may: bv16 -> bool, root: bool, mode: bv16, granted: bv16, a: bv16, b: bv16)
    requires forall mask :: may(mask) <==> if root then RootMay(mode, mask) else mask & !granted == 0
    ensures may(a | b) <==> may(a) && may(b)
  {
    if root {
      UnionForRoot(mode, a, b);
    } else {
      UnionOfRequests(granted, a, b);
    }
  }

  lemma UnionOfRequests(granted: bv16, a: bv16, b: bv16)
    ensures (a | b) & !granted == 0 <==> a & !granted == 0 && b & !granted == 0
  {
    UnionMasked(a, b, !granted);
    UnionEmpty(a & !granted, b & !granted);
  }

  lemma UnionForRoot(mode: bv16, a: bv16, b: bv16)
    ensures RootMay(mode, a | b) <==> RootMay(mode, a) && RootMay(mode, b)
  {
  }

  /** Reading, writing and executing are granted to the owner by the bits 0400, 0200 and 0100 of the mode, to the
      owner's group by 0040, 0020 and 0010, and to others by 0004, 0002 and 0001 (octal). */
  lemma GrantedIff(ownerUid: nat, ownerGid: nat, mode: bv16, uid: nat, gid: nat)
    requires uid != 0
    ensures uid == ownerUid ==>
      && (MayAccess(ownerUid, ownerGid, mode, uid, gid, 4) <==> mode & 0x100 != 0)
      && (MayAccess(ownerUid, ownerGid, mode, uid, gid, 2) <==> mode & 0x080 != 0)
      && (MayAccess(ownerUid, ownerGid, mode, uid, gid, 1) <==> mode & 0x040 != 0)
    ensures uid != ownerUid && gid == ownerGid ==>
      && (MayAccess(ownerUid, ownerGid, mode, uid, gid, 4) <==> mode & 0x020 != 0)
      && (MayAccess(ownerUid, ownerGid, mode, uid, gid, 2) <==> mode & 0x010 != 0)
      && (MayAccess(ownerUid, ownerGid, mode, uid, gid, 1) <==> mode & 0x008 != 0)
    ensures uid != ownerUid && gid != ownerGid ==>
      && (MayAccess(ownerUid, ownerGid, mode, uid, gid, 4) <==> mode & 0x004 != 0)
      && (MayAccess(ownerUid, ownerGid, mode, uid, gid, 2) <==> mode & 0x002 != 0)
      && (MayAccess(ownerUid, ownerGid, mode, uid, gid, 1) <==> mode & 0x001 != 0)
  {
  }

  /** Root may do anything but execute what nobody may execute. */
  lemma RootGrantedIff(ownerUid: nat, ownerGid: nat, mode: bv16, gid: nat, mask: bv16)
    ensures MayAccess(ownerUid, ownerGid, mode, 0, gid, mask) <==> mask & 1 == 0 || mode & 0x049 != 0
  {
  }

  /** What losing the set-id bits leaves: set-uid goes, set-gid goes if the group may execute, the rest stays. */
  lemma ClearedBits(mode: bv16)
    ensures ClearSuidSgid(mode) & 0x0800 == 0
    ensures ClearSuidSgid(mode) & 0x0400 != 0 <==> mode & 0x0400 != 0 && mode & 0x0008 == 0
    ensures ClearSuidSgid(mode) & 0xF3FF == mode & 0xF3FF
  {
  }
}
