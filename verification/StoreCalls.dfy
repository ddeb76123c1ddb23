/** What reads and lookups return after the logged operations: src/rvfs2/common.rs. Stated on what a caller sees, with
    block numbers, counts and bits written out. */
module StoreCalls {
  import opened Common
  import opened Access
  import opened Operations

  /** What dbfs_read copies into a buffer of `len` bytes: the start of the block's value, wherever in the block the
      offset is. */
  function ReadBlock(s: Store, number: nat, offset: nat, len: nat): (r: Result<seq<u8>>) {
    if number !in s.nodes then Err(NoData)
    else
      var blocks := s.nodes[number].blocks;
      if offset / BLOCK_SIZE in blocks then Ok(Take(blocks[offset / BLOCK_SIZE], len)) else Ok([])
  }

  method Read(s: Store, number: nat, buf: array<u8>, offset: nat) returns (r: Result<nat>)
    modifies buf
    ensures match ReadBlock(s, number, offset, buf.Length)
            case Ok(data) => r == Ok(|data|) && buf[..] == data + old(buf[..])[|data|..]
            case Err(e) => r == Err(e) && buf[..] == old(buf[..])
  {
    if number !in s.nodes {
      return Err(NoData);
    }
    var blocks, key := s.nodes[number].blocks, offset / BLOCK_SIZE;
    if key !in blocks {
      return Ok(0);
    }
    var bytesToRead: nat := Min(buf.Length, |blocks[key]|);
    CopyInto(buf, 0, blocks[key][..bytesToRead]);
    r := Ok(bytesToRead);
  }

  /** Positions `p` and `q` of a file are in block `k`. */
  predicate InBlockOf(p: nat, q: nat, k: nat) {
    k * 4096 <= p < (k + 1) * 4096 && k * 4096 <= q < (k + 1) * 4096
  }

  predicate SameBlock(p: nat, q: nat) {
    exists k :: 0 <= k <= p && InBlockOf(p, q, k)
  }

  lemma SameBlockIff(p: nat, q: nat)
    ensures SameBlock(p, q) <==> p / BLOCK_SIZE == q / BLOCK_SIZE
  {
    if p / BLOCK_SIZE == q / BLOCK_SIZE {
      assert InBlockOf(p, q, p / BLOCK_SIZE);
    }
    if k :| 0 <= k <= p && InBlockOf(p, q, k) {
      assert p / BLOCK_SIZE == k && q / BLOCK_SIZE == k;
    }
  }

  /** After a write at `p` a read in its block returns the start of what was written, and any other read what it
      returned before; the file reaches at least to the end of the write, and nothing else changes. */
  lemma ReadAfterWrite(s: Store, ino: nat, p: nat, data: seq<u8>, j: nat, q: nat, len: nat)
    ensures Apply(s, Write(ino, p, data)).Ok? <==> ino in s.nodes
    ensures ino in s.nodes ==>
      var t := Apply(s, Write(ino, p, data)).value;
      && ReadBlock(t, j, q, len) ==
           (if j == ino && SameBlock(p, q) then Ok(Take(data, len)) else ReadBlock(s, j, q, len))
      && t.nodes.Keys == s.nodes.Keys && t.nextIno == s.nextIno
      && (j in s.nodes ==> OnlyDataDiffers(s.nodes[j], t.nodes[j]))
      && (j in s.nodes ==>
            t.nodes[j].size == if j == ino && s.nodes[j].size < p + |data| then p + |data| else s.nodes[j].size)
  {
    SameBlockIff(p, q);
  }

  /** Everything but size and blocks is the same. */
  predicate OnlyDataDiffers(n: Node, n': Node) {
    && n'.mode == n.mode && n'.uid == n.uid && n'.gid == n.gid
    && n'.hardLinks == n.hardLinks && n'.entries == n.entries
  }

  /** The block of `q` starts at or past the length. */
  predicate CutOff(q: nat, length: nat) {
    exists k :: 0 <= k <= q && InBlockOf(q, q, k) && length <= k * 4096
  }

  lemma CutOffIff(q: nat, length: nat)
    ensures CutOff(q, length) <==> (length + BLOCK_SIZE - 1) / BLOCK_SIZE <= q / BLOCK_SIZE
  {
    if (length + BLOCK_SIZE - 1) / BLOCK_SIZE <= q / BLOCK_SIZE {
      assert InBlockOf(q, q, q / BLOCK_SIZE);
    }
    if k :| 0 <= k <= q && InBlockOf(q, q, k) && length <= k * 4096 {
      assert q / BLOCK_SIZE == k;
    }
  }

  /** After a truncate a block that starts below the length reads as before, whole, and any later one as nothing. */
  lemma ReadAfterTruncate(s: Store, ino: nat, length: nat, j: nat, q: nat, len: nat)
    ensures Apply(s, Truncate(ino, length)).Ok? <==> ino in s.nodes
    ensures ino in s.nodes ==>
      var t := Apply(s, Truncate(ino, length)).value;
      && ReadBlock(t, j, q, len) == (if j == ino && CutOff(q, length) then Ok([]) else ReadBlock(s, j, q, len))
      && t.nodes.Keys == s.nodes.Keys && t.nextIno == s.nextIno
      && (j in s.nodes ==> OnlyDataDiffers(s.nodes[j], t.nodes[j]))
      && (j in s.nodes ==> t.nodes[j].size == if j == ino then length else s.nodes[j].size)
  {
    CutOffIff(q, length);
  }

  // ----- runs of writes and truncates -----

  /** What the last operation to touch the block of `q` left there; none if no operation did. */
  function LastLeft(log: seq<Operation>, j: nat, q: nat): Option<seq<u8>>
    decreases |log|
  {
    if log == [] then None
    else
      var n := |log| - 1;
      match log[n]
      case Write(ino, p, data) => if ino == j && SameBlock(p, q) then Some(data) else LastLeft(log[..n], j, q)
      case Truncate(ino, length) => if ino == j && CutOff(q, length) then Some([]) else LastLeft(log[..n], j, q)
      case _ => LastLeft(log[..n], j, q)
  }

  /** After writes and truncates that all apply, every read returns the start of what the last one in its block left
      there, or what it returned before them. */
  lemma {:induction false} ReadAfterRun(s: Store, log: seq<Operation>, j: nat, q: nat, len: nat)
    requires AllDataOnly(log) && Succeeds(s, log)
    ensures ReadBlock(ApplyAll(s, log), j, q, len)
         == match LastLeft(log, j, q)
            case Some(data) => if j in s.nodes then Ok(Take(data, len)) else Err(NoData)
            case None => ReadBlock(s, j, q, len)
    decreases |log|
  {
    DataSucceedsIff(s, log);
    if log != [] {
      var n := |log| - 1;
      var before, op := log[..n], log[n];
      assert log == before + [op] && [op][1..] == [];
      ApplyJoin(s, before, [op]);
      ReadAfterRun(s, before, j, q, len);
      DataSucceedsIff(s, before);
      var t := ApplyAll(s, before);
      assert ApplyAll(t, [op]) == ApplyAll(Apply(t, op).value, []) == Apply(t, op).value;
      match op
      case Write(ino, p, data) => ReadAfterWrite(t, ino, p, data, j, q, len);
      case Truncate(ino, length) => ReadAfterTruncate(t, ino, length, j, q, len);
    }
  }

  // ----- entries -----

  /** dbfs_lookup. */
  function Look(s: Store, d: nat, name: string): Option<nat> {
    if d in s.nodes && name in s.nodes[d].entries then Some(s.nodes[d].entries[name]) else None
  }

  /** A creation applies if and only if its directory exists, the name is free and so is the number. Then the name
      names the number, every other lookup and every read is as before, and the counter has moved on by one. */
  lemma LookAfterCreation(s: Store, op: Operation, d: nat, name: string, j: nat, q: nat, len: nat)
    requires IsCreation(op)
    ensures Apply(s, op).Ok? <==>
      op.parentIno in s.nodes && Look(s, op.parentIno, op.name) == None && s.nextIno !in s.nodes
    ensures Apply(s, op).Ok? ==>
      var t := Apply(s, op).value;
      && Look(t, d, name) == (if d == op.parentIno && name == op.name then Some(s.nextIno) else Look(s, d, name))
      && t.nodes.Keys == s.nodes.Keys + {s.nextIno} && t.nextIno == s.nextIno + 1
      && ReadBlock(t, j, q, len) == if j == s.nextIno then Ok([]) else ReadBlock(s, j, q, len)
  {
  }

  /** The mode that a creation gives: what was asked for, with the directory bit (040000 octal) for a directory. */
  predicate ModeFor(op: Operation, mode: bv16)
    requires IsCreation(op)
  {
    && mode & 0xBFFF == op.perm & 0xBFFF
    && (mode & 0x4000 != 0 <==> op.Mkdir? || op.perm & 0x4000 != 0)
  }

  lemma ModeOfMkdir(perm: bv16)
    ensures (perm | S_IFDIR) & 0xBFFF == perm & 0xBFFF && (perm | S_IFDIR) & 0x4000 != 0
  {
  }

  lemma DirectoryBit(mode: bv16)
    ensures Contains(mode, S_IFDIR) <==> mode & 0x4000 != 0
  {
  }

  lemma ModeIsFor(op: Operation)
    requires IsCreation(op)
    ensures ModeFor(op, if op.Mkdir? then op.perm | S_IFDIR else op.perm)
  {
    ModeOfMkdir(op.perm);
  }

  /** The new node has the creator's ids, one link and no data. */
  lemma NodeAfterCreation(s: Store, op: Operation)
    requires IsCreation(op) && Apply(s, op).Ok?
    ensures var n := Apply(s, op).value.nodes[s.nextIno];
      n.uid == op.uid && n.gid == op.gid && n.hardLinks == 1 && n.size == 0 && ModeFor(op, n.mode)
  {
    ModeIsFor(op);
    assert op.parentIno != s.nextIno;
  }

  /** The directory has one link more if the new node's mode has the directory bit; other nodes stay as they are. */
  lemma OthersAfterCreation(s: Store, op: Operation, j: nat)
    requires IsCreation(op) && Apply(s, op).Ok? && j in s.nodes
    ensures var t := Apply(s, op).value;
      var links := if j == op.parentIno && t.nodes[s.nextIno].mode & 0x4000 != 0 then 1 else 0;
      && t.nodes[j].hardLinks == s.nodes[j].hardLinks + links && t.nodes[j].size == s.nodes[j].size
      && t.nodes[j].mode == s.nodes[j].mode && t.nodes[j].uid == s.nodes[j].uid && t.nodes[j].gid == s.nodes[j].gid
  {
    DirectoryBit(if op.Mkdir? then op.perm | S_IFDIR else op.perm);
    assert op.parentIno != s.nextIno;
  }

  /** A creation that fails moves the counter if and only if only its number was in the way. */
  lemma CounterAfterFailure(s: Store, op: Operation)
    requires Apply(s, op).Err?
    ensures Failed(s, op).nodes == s.nodes
    ensures Failed(s, op).nextIno == s.nextIno
      + if IsCreation(op) && op.parentIno in s.nodes && Look(s, op.parentIno, op.name) == None then 1 else 0
  {
  }

  /** A delete applies if and only if the name names a node. The name is gone, and with it the node exactly if that
      has at most one link; if not, the node has one link less. Every other lookup and every read of a node that
      stays is as before. */
  lemma LookAfterDelete(s: Store, parent: nat, name: string, d: nat, other: string, j: nat, q: nat, len: nat)
    ensures Apply(s, Delete(parent, name)).Ok? <==>
      Look(s, parent, name).Some? && Look(s, parent, name).value in s.nodes
    ensures Apply(s, Delete(parent, name)).Ok? ==>
      var t, i := Apply(s, Delete(parent, name)).value, Look(s, parent, name).value;
      && (i in t.nodes <==> 1 < s.nodes[i].hardLinks)
      && t.nodes.Keys == (if 1 < s.nodes[i].hardLinks then s.nodes.Keys else s.nodes.Keys - {i})
      && t.nextIno == s.nextIno
      && (d in t.nodes ==> Look(t, d, other) == if d == parent && other == name then None else Look(s, d, other))
      && (j in t.nodes ==> ReadBlock(t, j, q, len) == ReadBlock(s, j, q, len))
      && (j in t.nodes ==> SameAttributes(s.nodes[j], t.nodes[j]))
      && (j in t.nodes ==> t.nodes[j].hardLinks == s.nodes[j].hardLinks - if j == i then 1 else 0)
  {
  }

  /** A rename applies if and only if the old name exists and the new directory does. It takes the old name away and
      gives the new one to the same number, whatever had it; every other lookup and every read is as before. */
  lemma LookAfterRename(s: Store, op: Operation, d: nat, name: string, j: nat, q: nat, len: nat)
    requires op.Rename?
    ensures Apply(s, op).Ok? <==> Look(s, op.oldParentIno, op.oldName).Some? && op.newParentIno in s.nodes
    ensures Apply(s, op).Ok? ==>
      var t := Apply(s, op).value;
      && Look(t, d, name) == (if d == op.newParentIno && name == op.newName then Look(s, op.oldParentIno, op.oldName)
                              else if d == op.oldParentIno && name == op.oldName then None
                              else Look(s, d, name))
      && t.nodes.Keys == s.nodes.Keys && t.nextIno == s.nextIno
      && ReadBlock(t, j, q, len) == ReadBlock(s, j, q, len)
      && (j in s.nodes ==> SameAttributes(s.nodes[j], t.nodes[j]) && t.nodes[j].hardLinks == s.nodes[j].hardLinks)
  {
  }

  predicate SameAttributes(n: Node, n': Node) {
    n'.mode == n.mode && n'.uid == n.uid && n'.gid == n.gid && n'.size == n.size
  }

  /** A missing node is no data, a taken name or number is an existing file, and a missing old name is not found. */
  lemma WhyNotApplied(s: Store, op: Operation)
    requires Apply(s, op).Err?
    ensures op.Write? || op.Truncate? ==> Apply(s, op).error == NoData
    ensures IsCreation(op) ==> Apply(s, op).error == if op.parentIno in s.nodes then FileExists else NoData
    ensures op.Delete? ==> (Apply(s, op).error == NotFound <==>
      op.parentIno in s.nodes && Look(s, op.parentIno, op.name) == None)
    ensures op.Rename? ==> (Apply(s, op).error == NotFound <==>
      op.oldParentIno in s.nodes && Look(s, op.oldParentIno, op.oldName) == None)
    ensures op.Delete? || op.Rename? ==> Apply(s, op).error in {NoData, NotFound}
  {
  }
}
