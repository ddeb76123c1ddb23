/** What sizes, metadata and the append position are after runs of the extent engine: src/tx_engine.rs. */
module ExtentSizes {
  import opened Extents
  import opened ExtentEngine
  import opened ImmutableData

  /** The state of a mount whose files are empty. */
  ghost predicate Empty(s: Disk) {
    forall i :: i in s.index.inodes ==> s.index.inodes[i].extents == [] && s.index.inodes[i].size == 0
  }

  /** The size is the furthest end of an extent, or 0 if there is none. */
  ghost predicate IsFurthest(size: nat, es: seq<Extent>) {
    && (forall k :: 0 <= k < |es| ==> es[k].logicalOff + es[k].len <= size)
    && (es == [] ==> size == 0)
    && (es != [] ==> exists k :: 0 <= k < |es| && es[k].logicalOff + es[k].len == size)
  }

  ghost predicate AllFurthest(s: Disk) {
    forall i :: i in s.index.inodes ==> IsFurthest(s.index.inodes[i].size, s.index.inodes[i].extents)
  }

  lemma FurthestWithOneMore(size: nat, es: seq<Extent>, e: Extent, size': nat)
    requires IsFurthest(size, es) && size' == if size < e.logicalOff + e.len then e.logicalOff + e.len else size
    ensures IsFurthest(size', es + [e])
  {
    var all := es + [e];
    assert all[|es|] == e;
    if size' == size && es != [] {
      var k :| 0 <= k < |es| && es[k].logicalOff + es[k].len == size;
      assert all[k] == es[k];
    }
  }

  lemma StepKeepsFurthest(s: Disk, c: Call)
    requires AllFurthest(s) && !c.Truncate? && !c.SetAttr?
    ensures AllFurthest(Step(s, c))
  {
    var t := Step(s, c);
    forall i | i in t.index.inodes ensures IsFurthest(t.index.inodes[i].size, t.index.inodes[i].extents) {
      if c.Write? && c.ino == i && i in s.index.inodes && !c.fault.Torn? && c.commits {
        var m, n := s.index.inodes[i], t.index.inodes[i];
        assert n.extents == m.extents + [n.extents[|m.extents|]];
        FurthestWithOneMore(m.size, m.extents, n.extents[|m.extents|], n.size);
      }
    }
  }

  /** As long as no size is set, a file's size is exactly the furthest end of its extents. */
  lemma {:induction false} SizeIsFurthestEnd(s: Disk, cs: seq<Call>)
    requires AllFurthest(s) && forall c :: c in cs ==> !c.Truncate? && !c.SetAttr?
    ensures AllFurthest(Run(s, cs))
    decreases |cs|
  {
    if cs != [] {
      StepKeepsFurthest(s, cs[0]);
      SizeIsFurthestEnd(Step(s, cs[0]), cs[1..]);
    }
  }

  lemma EmptyIsFurthest(s: Disk)
    requires Empty(s)
    ensures AllFurthest(s)
  {
  }

  // ----- sizes that are set -----

  /** Call number `k` of a run writes to the inode and commits, and ends at `end`. */
  ghost predicate WritesUpTo(s: Disk, cs: seq<Call>, k: nat, ino: nat, end: nat)
    requires k < |cs|
  {
    && cs[k].Write? && cs[k].ino == ino && !cs[k].fault.Torn? && cs[k].commits
    && ino in Run(s, cs[..k]).index.inodes && end == cs[k].offset + |cs[k].data|
  }

  /** The call sets no size of the inode, and neither makes nor deletes it. */
  predicate LeavesSize(s: Disk, c: Call, ino: nat) {
    match c
    case Truncate(i, _, commits) => !(i == ino && commits)
    case SetAttr(i, _, _, commits) => !(i == ino && commits)
    case DeleteInode(i, commits) => !(i == ino && commits)
    case Allocate(_, commits) => ino in s.index.inodes || !commits
    case _ => true
  }

  lemma RunPush(s: Disk, cs: seq<Call>, c: Call)
    ensures Run(s, cs + [c]) == Step(Run(s, cs), c)
    decreases |cs|
  {
    if cs == [] {
      assert [] + [c] == [c] && [c][1..] == [];
      assert Run(s, [c]) == Run(Step(s, c), []);
    } else {
      assert (cs + [c])[0] == cs[0] && (cs + [c])[1..] == cs[1..] + [c];
      RunPush(Step(s, cs[0]), cs[1..], c);
    }
  }

  ghost predicate LeavesSizes(s: Disk, cs: seq<Call>, ino: nat) {
    forall k :: 0 <= k < |cs| ==> LeavesSize(Run(s, cs[..k]), cs[k], ino)
  }

  /** The size is the largest of `base` and of where the committed writes of the run end. */
  ghost predicate IsLargest(s: Disk, cs: seq<Call>, ino: nat, base: nat, size: nat) {
    && base <= size
    && (forall k: nat, end: nat :: 0 <= k < |cs| && WritesUpTo(s, cs, k, ino, end) ==> end <= size)
    && (size == base || exists k :: 0 <= k < |cs| && WritesUpTo(s, cs, k, ino, size))
  }

  lemma StepOfSize(t: Disk, c: Call, ino: nat)
    requires ino in t.index.inodes && LeavesSize(t, c, ino)
    ensures ino in Step(t, c).index.inodes
    ensures var size := t.index.inodes[ino].size;
      Step(t, c).index.inodes[ino].size ==
        if c.Write? && c.ino == ino && !c.fault.Torn? && c.commits && size < c.offset + |c.data|
        then c.offset + |c.data| else size
  {
    if c.Allocate? && c.commits {
      assert NextNumber(t.index.inodes) != ino;
    }
  }

  lemma WritesUpToPrefix(s: Disk, cs: seq<Call>, n: nat, k: nat, ino: nat, end: nat)
    requires k < n <= |cs|
    ensures WritesUpTo(s, cs[..n], k, ino, end) <==> WritesUpTo(s, cs, k, ino, end)
  {
    assert cs[..n][..k] == cs[..k];
  }

  /** Until the size is set again, it is the largest of what it was and of where the writes since then end. */
  lemma {:induction false} SizeIsLargest(s: Disk, cs: seq<Call>, ino: nat)
    requires ino in s.index.inodes && LeavesSizes(s, cs, ino)
    ensures ino in Run(s, cs).index.inodes
    ensures IsLargest(s, cs, ino, s.index.inodes[ino].size, Run(s, cs).index.inodes[ino].size)
    decreases |cs|
  {
    if cs != [] {
      var n := |cs| - 1;
      var before, c := cs[..n], cs[n];
      assert cs == before + [c];
      RunPush(s, before, c);
      forall k | 0 <= k < n ensures LeavesSize(Run(s, before[..k]), before[k], ino) {
        assert before[..k] == cs[..k];
      }
      SizeIsLargest(s, before, ino);
      LargestWithOneMore(s, cs, ino);
    }
  }

  lemma LargestWithOneMore(s: Disk, cs: seq<Call>, ino: nat)
    requires cs != [] && ino in s.index.inodes && LeavesSizes(s, cs, ino)
    requires var before := cs[..|cs| - 1];
      && ino in Run(s, before).index.inodes && Run(s, cs) == Step(Run(s, before), cs[|cs| - 1])
      && IsLargest(s, before, ino, s.index.inodes[ino].size, Run(s, before).index.inodes[ino].size)
    ensures ino in Run(s, cs).index.inodes
    ensures IsLargest(s, cs, ino, s.index.inodes[ino].size, Run(s, cs).index.inodes[ino].size)
  {
    var n := |cs| - 1;
    var before, t := cs[..n], Run(s, cs[..n]);
    StepOfSize(t, cs[n], ino);
    var old', size := t.index.inodes[ino].size, Run(s, cs).index.inodes[ino].size;
    forall k: nat, end: nat | 0 <= k < |cs| && WritesUpTo(s, cs, k, ino, end) ensures end <= size {
      if k < n {
        WritesUpToPrefix(s, cs, n, k, ino, end);
      }
    }
    if size != s.index.inodes[ino].size && size == old' {
      var k :| 0 <= k < |before| && WritesUpTo(s, before, k, ino, size);
      WritesUpToPrefix(s, cs, n, k, ino, size);
    } else if size != old' {
      assert WritesUpTo(s, cs, n, ino, size);
    }
  }

  /** A truncate or set_attr that commits sets exactly the size that it names. */
  lemma SizeIsSet(s: Disk, c: Call)
    requires (c.Truncate? || c.SetAttr?) && c.commits && c.ino in s.index.inodes
    ensures c.ino in Step(s, c).index.inodes && Step(s, c).index.inodes[c.ino].size == c.size
  {
  }

  /** After a truncate: the largest of the size that it set and of where the committed writes since then end. */
  lemma SizeSinceTruncate(s: Disk, c: Call, cs: seq<Call>)
    requires (c.Truncate? || c.SetAttr?) && c.commits && c.ino in s.index.inodes
    requires LeavesSizes(Step(s, c), cs, c.ino)
    ensures c.ino in Run(Step(s, c), cs).index.inodes
    ensures IsLargest(Step(s, c), cs, c.ino, c.size, Run(Step(s, c), cs).index.inodes[c.ino].size)
  {
    SizeIsSet(s, c);
    SizeIsLargest(Step(s, c), cs, c.ino);
  }

  // ----- the rest of an inode -----

  /** A new inode is empty, has one link, its own number and the mode that was asked for; it takes a free number. */
  lemma NewInodeIs(s: Disk, mode: bv32)
    ensures exists n :: n !in s.index.inodes && 2 <= n && Step(s, Allocate(mode, true)).index.inodes
                         == s.index.inodes[n := Meta(n, 0, mode, 1, [])]
  {
    var n := NextNumber(s.index.inodes);
    assert Step(s, Allocate(mode, true)).index.inodes == s.index.inodes[n := Meta(n, 0, mode, 1, [])];
  }

  /** Only the inode that a call names changes, and of that one a write or a truncate only size and extents. */
  lemma OthersStay(s: Disk, c: Call, i: nat)
    requires i in s.index.inodes && i in Step(s, c).index.inodes
    ensures var m, n := s.index.inodes[i], Step(s, c).index.inodes[i];
      && n.ino == m.ino
      && (!c.commits ==> n == m)
      && (c.Write? || c.Truncate? ==> n.mode == m.mode && n.nlink == m.nlink && (c.ino != i ==> n == m))
      && (c.SetLinks? ==> n == if c.ino == i && c.commits then m.(nlink := c.nlink) else m)
      && (c.SetAttr? ==> n == if c.ino == i && c.commits then m.(mode := c.mode, size := c.size) else m)
      && (c.Allocate? || c.DeleteInode? || c.AddDentry? || c.DeleteDentry? ==> n == m)
  {
  }

  /** A truncate does not grow extents, and one that grows the file leaves them alone. */
  lemma GrowingKeepsExtents(s: Disk, c: Call)
    requires c.Truncate? && c.ino in s.index.inodes && s.index.inodes[c.ino].size <= c.size
    ensures Step(s, c).index.inodes[c.ino].extents == s.index.inodes[c.ino].extents
  {
  }

  /** The bytes that the writes of a run append, torn ones apart. */
  function AppendedBytes(cs: seq<Call>): nat {
    if cs == [] then 0 else (if cs[0].Write? && !cs[0].fault.Torn? then |cs[0].data| else 0) + AppendedBytes(cs[1..])
  }

  /** The append position moves by exactly what is appended, whether it is committed or not. */
  lemma {:induction false} AppendPosition(s: Disk, cs: seq<Call>)
    ensures Run(s, cs).nextAppendPos == s.nextAppendPos + AppendedBytes(cs)
    decreases |cs|
  {
    if cs != [] {
      AppendPosition(Step(s, cs[0]), cs[1..]);
    }
  }
}
