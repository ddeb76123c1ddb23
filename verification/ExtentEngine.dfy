/** Files as extents of an append-only log: src/tx_engine.rs. */
module ExtentEngine {
  import opened Common
  import opened Crc32
  import opened Extents
  import opened LogManager

  datatype Meta = Meta(ino: nat, size: nat, mode: bv32, nlink: nat, extents: seq<Extent>)

  /** The buckets of the index database: `inodes`, and one `dir_` bucket for each directory that has had an entry. */
  datatype Index = Index(inodes: map<nat, Meta>, dirs: map<nat, map<string, nat>>)

  /** Everything that the engine keeps on the device. */
  datatype Disk = Disk(device: Device, nextAppendPos: nat, index: Index)

  // ----- what each transaction does to the index -----

  /** A write that was appended at `at` becomes visible. */
  function Pushed(m: Meta, at: nat, offset: nat, data: seq<u8>): Meta {
    m.(extents := m.extents + [Extent(offset, at, |data|, Checksum(data))], size := Max(m.size, offset + |data|))
  }

  /** Only a shrinking truncate touches the extents. */
  function Resized(m: Meta, size: nat): Meta {
    m.(extents := if size < m.size then Trimmed(m.extents, size) else m.extents, size := size)
  }

  /** The state after a write: the append comes first, and a failed commit leaves the index as it was. */
  function WriteOutcome(s: Disk, ino: nat, offset: nat, data: seq<u8>, fault: DeviceFault, commits: bool): Disk {
    var device := Overwritten(s.device, s.nextAppendPos, Landed(data, fault));
    if fault.Torn? then s.(device := device)
    else if ino !in s.index.inodes || !commits then s.(device := device, nextAppendPos := s.nextAppendPos + |data|)
    else
      var meta := Pushed(s.index.inodes[ino], s.nextAppendPos, offset, data);
      Disk(device, s.nextAppendPos + |data|, SetInode(s.index, ino, meta))
  }

  function SetInode(x: Index, ino: nat, m: Meta): Index {
    x.(inodes := x.inodes[ino := m])
  }

  function Allocated(x: Index, mode: bv32): Index {
    SetInode(x, NextNumber(x.inodes), FreshMeta(NextNumber(x.inodes), mode))
  }

  function AddEntry(x: Index, parent: nat, name: string, child: nat): Index {
    x.(dirs := x.dirs[parent := Entries(x, parent)[name := child]])
  }

  function DropEntry(x: Index, parent: nat, name: string): Index {
    x.(dirs := x.dirs[parent := Entries(x, parent) - {name}])
  }

  function DropInode(x: Index, ino: nat): Index {
    x.(inodes := x.inodes - {ino}, dirs := x.dirs - {ino})
  }

  /** A directory without a bucket has no entries. */
  function Entries(x: Index, parent: nat): map<string, nat> {
    if parent in x.dirs then x.dirs[parent] else map[]
  }

  function FreshMeta(ino: nat, mode: bv32): Meta {
    Meta(ino, 0, mode, 1, [])
  }

  /** The number that allocate_inode gives out: one above every number in the table, and at least 2. */
  ghost predicate IsNextNumber(inodes: map<nat, Meta>, n: nat) {
    2 <= n && (forall i :: i in inodes ==> i < n) && (n == 2 || n - 1 in inodes)
  }

  /** The number after the highest of `keys` and 1. */
  function Above(keys: set<nat>): (n: nat)
    ensures 2 <= n && (forall i :: i in keys ==> i < n) && (n == 2 || n - 1 in keys)
  {
    if forall i :: i in keys ==> i < 2 then 2
    else
      Highest(keys);
      var h: nat :| h in keys && forall i :: i in keys ==> i <= h;
      h + 1
  }

  lemma {:induction false} Highest(keys: set<nat>)
    requires keys != {}
    ensures exists h :: h in keys && forall i :: i in keys ==> i <= h
  {
    var k :| k in keys;
    var rest := keys - {k};
    if rest == {} {
      assert forall i :: i in keys ==> i == k || i in rest;
    } else {
      Highest(rest);
      var h :| h in rest && forall i :: i in rest ==> i <= h;
      var m := if k < h then h else k;
      forall i | i in keys ensures i <= m {
        assert i == k || i in rest;
      }
    }
  }

  function NextNumber(inodes: map<nat, Meta>): (n: nat)
    ensures IsNextNumber(inodes, n)
  {
    Above(inodes.Keys)
  }

  lemma OneNextNumber(inodes: map<nat, Meta>, n: nat, n': nat)
    requires IsNextNumber(inodes, n) && IsNextNumber(inodes, n')
    ensures n == n'
  {
  }

  /** The entries as the cursor of a directory bucket lists them: every name once. */
  ghost predicate ListsEntries(names: seq<string>, entries: map<string, nat>) {
    && (forall s :: s in names <==> s in entries)
    && (forall i, j :: 0 <= i < j < |names| ==> names[i] != names[j])
  }

  lemma NothingListed(names: seq<string>, entries: map<string, nat>)
    requires ListsEntries(names, entries)
    ensures names == [] <==> entries == map[]
    ensures forall i :: 0 <= i < |names| ==> names[i] in entries
  {
    forall i | 0 <= i < |names| ensures names[i] in entries {
      assert names[i] in names;
    }
    if names == [] {
      assert entries.Keys == {};
      assert entries == map[];
    } else {
      assert names[0] in names;
    }
  }

  // ----- what read_file does -----

  /** How many bytes a read of `len` bytes is limited to. */
  function Limit(m: Meta, offset: nat, len: nat): nat {
    Min(len, SaturatingSub(m.size, offset))
  }

  /** What a read returns: how far the extents that it looks at reach. */
  function ReadCount(m: Meta, offset: nat, len: nat): nat {
    var want := Limit(m, offset, len);
    Reach(m.extents, Scanned(m.extents, 0, offset, want), offset, want)
  }

  /** What the read of an extent's share of a request from `offset` on gives for position `pos`: a read that stops
      short leaves zeros. */
  function Seen(device: Device, e: Extent, offset: nat, fault: ReadFault, pos: nat): u8
    requires e.Covers(pos) && offset <= pos
  {
    if fault.Ends? && fault.got <= pos - Max(e.logicalOff, offset) then 0 else device(e.Physical(pos))
  }

  /** What the last of the first `k` extents to cover a position gives for it. */
  function SeenByte(device: Device, es: seq<Extent>, k: nat, offset: nat, faults: nat -> ReadFault, pos: nat,
                    otherwise: u8): u8
    requires k <= |es| && offset <= pos
  {
    match LastCover(es, k, pos)
    case None => otherwise
    case Some(j) => Seen(device, es[j], offset, faults(j), pos)
  }

  /** The buffer `was` after the first `k` extents have been copied into it. */
  function Gathered(device: Device, es: seq<Extent>, k: nat, offset: nat, want: nat, was: seq<u8>,
                    faults: nat -> ReadFault): (b: seq<u8>)
    requires k <= |es|
    ensures |b| == |was|
  {
    seq(|was|, p requires 0 <= p < |was| =>
      if p < want then SeenByte(device, es, k, offset, faults, offset + p, was[p]) else was[p])
  }

  /** What a read leaves in the buffer `was`. */
  function ReadBytes(device: Device, m: Meta, offset: nat, was: seq<u8>, faults: nat -> ReadFault): (b: seq<u8>)
    ensures |b| == |was|
  {
    var want := Limit(m, offset, |was|);
    Gathered(device, m.extents, Scanned(m.extents, 0, offset, want), offset, want, was, faults)
  }

  /** Without short reads it is the bytes of the last extents that cover the positions. */
  lemma CompleteReadsGather(device: Device, es: seq<Extent>, k: nat, offset: nat, want: nat, was: seq<u8>,
                            faults: nat -> ReadFault, p: nat)
    requires k <= |es| && p < want && p < |was| && forall j: nat :: j < k ==> !faults(j).Ends?
    ensures Gathered(device, es, k, offset, want, was, faults)[p] == ByteFrom(device, es, k, offset + p, was[p])
  {
  }

  lemma GatherNothing(device: Device, es: seq<Extent>, offset: nat, want: nat, was: seq<u8>, faults: nat -> ReadFault)
    ensures Gathered(device, es, 0, offset, want, was, faults) == was
  {
  }

  /** A buffer after one extent's share of a request is copied into it. */
  function Copied(device: Device, e: Extent, offset: nat, want: nat, now: seq<u8>, fault: ReadFault): (b: seq<u8>)
    requires want <= |now|
    ensures |b| == |now|
  {
    if e.Meets(offset, offset + want) then
      var lo: nat, hi: nat := Max(e.logicalOff, offset), Min(e.End(), offset + want);
      var temp := ReadInto(device, e.physicalPtr + (lo - e.logicalOff), NoBytes(hi - lo), fault);
      now[..lo - offset] + temp + now[hi - offset..]
    else now
  }

  /** A buffer of `n` zeros. */
  function NoBytes(n: nat): (z: seq<u8>)
    ensures |z| == n && forall i :: 0 <= i < n ==> z[i] == 0
  {
    seq(n, _ => 0)
  }

  lemma CopiedAt(device: Device, e: Extent, offset: nat, want: nat, now: seq<u8>, fault: ReadFault, p: nat)
    requires want <= |now| && p < |now|
    ensures Copied(device, e, offset, want, now, fault)[p]
         == if p < want && e.Covers(offset + p) then Seen(device, e, offset, fault, offset + p) else now[p]
  {
    if e.Meets(offset, offset + want) {
      var lo: nat, hi: nat := Max(e.logicalOff, offset), Min(e.End(), offset + want);
      assert e.Covers(offset + p) && p < want <==> lo - offset <= p < hi - offset;
    }
  }

  lemma GatherStep(device: Device, es: seq<Extent>, k: nat, offset: nat, want: nat, was: seq<u8>,
                   faults: nat -> ReadFault)
    requires k < |es| && want <= |was|
    ensures Gathered(device, es, k + 1, offset, want, was, faults)
         == Copied(device, es[k], offset, want, Gathered(device, es, k, offset, want, was, faults), faults(k))
  {
    var now := Gathered(device, es, k, offset, want, was, faults);
    var next := Gathered(device, es, k + 1, offset, want, was, faults);
    forall p: nat | p < |was| ensures next[p] == Copied(device, es[k], offset, want, now, faults(k))[p] {
      CopiedAt(device, es[k], offset, want, now, faults(k), p);
    }
  }

  // ----- what read_from_log does -----

  /** The log positions that one read takes its bytes from; a short one takes none for the rest of its range. */
  function SpanSeen(from: nat, n: nat, fault: ReadFault): (qs: seq<Option<nat>>)
    ensures |qs| == n
    ensures forall i :: 0 <= i < n ==> qs[i] == if fault.Ends? && fault.got <= i then None else Some(from + i)
  {
    seq(n, i requires 0 <= i < n => if fault.Ends? && fault.got <= i then None else Some(from + i))
  }

  /** The same for all of read_from_log; the read from file position `p` ends as `faults(p)` says. */
  function FollowedSeen(es: seq<Extent>, size: nat, pos: nat, room: nat, faults: nat -> ReadFault): seq<Option<nat>>
    decreases room
  {
    if room == 0 || size <= pos then []
    else
      match FirstCover(es, 0, pos)
      case None => []
      case Some(i) =>
        var n: nat := Min(es[i].End() - pos, room);
        SpanSeen(es[i].Physical(pos), n, faults(pos)) + FollowedSeen(es, size, pos + n, room - n, faults)
  }

  /** They are the positions that are followed, as far as the reads got. */
  lemma {:induction false} SeenIsFollowed(es: seq<Extent>, size: nat, pos: nat, room: nat, faults: nat -> ReadFault)
    ensures var ps, qs := Followed(es, size, pos, room), FollowedSeen(es, size, pos, room, faults);
      && |qs| == |ps| <= room
      && (forall k :: 0 <= k < |qs| ==> qs[k] == None || qs[k] == Some(ps[k]))
      && ((forall p :: !faults(p).Ends?) ==> forall k :: 0 <= k < |qs| ==> qs[k] == Some(ps[k]))
    decreases room
  {
    if room != 0 && pos < size && FirstCover(es, 0, pos).Some? {
      var e := es[FirstCover(es, 0, pos).value];
      var n: nat := Min(e.End() - pos, room);
      SeenIsFollowed(es, size, pos + n, room - n, faults);
    }
  }

  function Taken(device: Device, q: Option<nat>, otherwise: u8): u8 {
    if q.Some? then device(q.value) else otherwise
  }

  /** The first `n` bytes of the buffer are those at the first `n` log positions, or as they were where a read did
      not get; the rest is as it was. */
  ghost predicate Filled(now: seq<u8>, was: seq<u8>, device: Device, qs: seq<Option<nat>>, n: nat) {
    && |now| == |was| && n <= |qs| && n <= |now|
    && (forall k :: 0 <= k < n ==> now[k] == Taken(device, qs[k], was[k]))
    && (forall k :: n <= k < |now| ==> now[k] == was[k])
  }

  lemma FillSpan(now: seq<u8>, next: seq<u8>, was: seq<u8>, device: Device, qs: seq<Option<nat>>, n: nat, from: nat,
                 m: nat, fault: ReadFault)
    requires Filled(now, was, device, qs, n) && n + m <= |qs| && n + m <= |now|
    requires qs[n..n + m] == SpanSeen(from, m, fault)
    requires next == now[..n] + ReadInto(device, from, now[n..n + m], fault) + now[n + m..]
    ensures Filled(next, was, device, qs, n + m)
  {
    forall k | n <= k < n + m ensures next[k] == Taken(device, qs[k], was[k]) {
      assert qs[k] == qs[n..n + m][k - n];
    }
  }

  /** After the first `n` log positions, the rest are those for the rest of the request. */
  ghost predicate Left(qs: seq<Option<nat>>, n: nat, m: Meta, offset: nat, len: nat, faults: nat -> ReadFault) {
    n <= |qs| && n <= len && qs[n..] == FollowedSeen(m.extents, m.size, offset + n, len - n, faults)
  }

  /** One turn of the loop consumes one span of log positions. */
  lemma FollowedStep(qs: seq<Option<nat>>, done: nat, m: Meta, offset: nat, len: nat, faults: nat -> ReadFault,
                     e: Extent, from: nat, n: nat)
    requires Left(qs, done, m, offset, len, faults) && done < len && offset + done < m.size
    requires FirstCover(m.extents, 0, offset + done).Some?
    requires e == m.extents[FirstCover(m.extents, 0, offset + done).value]
    requires n == Min(e.len - (offset + done - e.logicalOff), len - done)
    requires from == e.physicalPtr + (offset + done - e.logicalOff)
    ensures 0 < n && done + n <= |qs| && qs[done..done + n] == SpanSeen(from, n, faults(offset + done))
    ensures Left(qs, done + n, m, offset, len, faults)
  {
    var rest := FollowedSeen(m.extents, m.size, offset + done + n, len - done - n, faults);
    SplitAt(qs, done, SpanSeen(from, n, faults(offset + done)), rest);
  }

  lemma NothingLeft(qs: seq<Option<nat>>, done: nat, m: Meta, offset: nat, len: nat, faults: nat -> ReadFault)
    requires Left(qs, done, m, offset, len, faults) && (len <= done || m.size <= offset + done)
    ensures done == |qs|
  {
  }

  lemma SplitAt<T>(ps: seq<T>, done: nat, a: seq<T>, b: seq<T>)
    requires done <= |ps| && ps[done..] == a + b
    ensures done + |a| <= |ps| && ps[done..done + |a|] == a && ps[done + |a|..] == b
  {
    assert ps[done..done + |a|] == ps[done..][..|a|];
    assert ps[done + |a|..] == ps[done..][|a|..];
  }

  // ----- reads that fail -----

  /** A failed read_from_log leaves what it had read before the position that it failed at. */
  ghost predicate FilledUntil(now: seq<u8>, was: seq<u8>, device: Device, qs: seq<Option<nat>>, offset: nat,
                              faults: nat -> ReadFault)
  {
    exists n :: 0 <= n < |qs| && faults(offset + n).Refused? && Filled(now, was, device, qs, n)
  }

  /** The device refuses to read extent `k`, which read_file needs. */
  predicate FailsAt(es: seq<Extent>, k: nat, offset: nat, want: nat, faults: nat -> ReadFault)
    requires k < |es|
  {
    es[k].Meets(offset, offset + want) && faults(k).Refused?
  }

  /** The device refuses to read one of the extents that read_file looks at. */
  predicate ReadFails(m: Meta, offset: nat, len: nat, faults: nat -> ReadFault) {
    var want := Limit(m, offset, len);
    exists k :: 0 <= k < Scanned(m.extents, 0, offset, want) && FailsAt(m.extents, k, offset, want, faults)
  }

  /** A failed read leaves what the extents before the first failing one gave. */
  ghost predicate StopsAtFailure(device: Device, es: seq<Extent>, n: nat, offset: nat, want: nat, was: seq<u8>,
                                 now: seq<u8>, faults: nat -> ReadFault)
    requires n <= |es|
  {
    exists k :: 0 <= k < n
      && FailsAt(es, k, offset, want, faults)
      && (forall j :: 0 <= j < k ==> !FailsAt(es, j, offset, want, faults))
      && now == Gathered(device, es, k, offset, want, was, faults)
  }

  /** A read that starts at or past the end wants nothing. */
  lemma NothingWanted(device: Device, m: Meta, offset: nat, was: seq<u8>, faults: nat -> ReadFault)
    requires m.size <= offset
    ensures ReadCount(m, offset, |was|) == 0 && !ReadFails(m, offset, |was|, faults)
    ensures ReadBytes(device, m, offset, was, faults) == was
  {
    GatherNothing(device, m.extents, offset, 0, was, faults);
  }

  ghost predicate ReadUntil(device: Device, m: Meta, offset: nat, was: seq<u8>, now: seq<u8>,
                            faults: nat -> ReadFault)
  {
    var want := Limit(m, offset, |was|);
    StopsAtFailure(device, m.extents, Scanned(m.extents, 0, offset, want), offset, want, was, now, faults)
  }

  class TransactionEngine {
    const log: LogManager
    var index: Index

    constructor (log: LogManager, index: Index)
      ensures this.log == log && this.index == index
    {
      this.log, this.index := log, index;
    }

    ghost function State(): Disk
      reads this, log
    {
      Disk(log.device, log.nextAppendPos, index)
    }

    /** Appends the data, then pushes an extent in one transaction, which commits if `commits`. */
    method WriteFileTransactional(ino: nat, offset: nat, data: seq<u8>, fault: DeviceFault, commits: bool)
      returns (r: Result<()>)
      modifies this, log
      ensures State() == WriteOutcome(old(State()), ino, offset, data, fault, commits)
      ensures r.Ok? <==> !fault.Torn? && ino in old(index.inodes) && commits
      ensures r.Err? ==> r.error == if !fault.Torn? && ino !in old(index.inodes) then NotFound else Io
    {
      var appended := log.AppendData(data, fault);
      if appended.Err? {
        return Err(appended.error);
      }
      if ino !in index.inodes {
        return Err(NotFound);
      }
      var meta := index.inodes[ino];
      var crc := Compute(data);
      meta := meta.(extents := meta.extents + [Extent(offset, appended.value, |data|, crc)]);
      meta := meta.(size := Max(meta.size, offset + |data|));
      assert meta == Pushed(index.inodes[ino], appended.value, offset, data);
      if !commits {
        return Err(Io);
      }
      index := index.(inodes := index.inodes[ino := meta]);
      r := Ok(());
    }

    /** Fills the buffer from the extents in list order, and stops once the end of the request is reached. The
        device read of extent number `i` ends as `faults(i)` says. */
    method ReadFile(ino: nat, offset: nat, buf: array<u8>, faults: nat -> ReadFault) returns (r: Result<nat>)
      modifies buf
      ensures ino !in index.inodes ==> r == Err(NotFound) && buf[..] == old(buf[..])
      ensures ino in index.inodes && !ReadFails(index.inodes[ino], offset, buf.Length, faults) ==>
        && r == Ok(ReadCount(index.inodes[ino], offset, buf.Length))
        && buf[..] == ReadBytes(log.device, index.inodes[ino], offset, old(buf[..]), faults)
      ensures ino in index.inodes && ReadFails(index.inodes[ino], offset, buf.Length, faults) ==>
        r == Err(Io) && ReadUntil(log.device, index.inodes[ino], offset, old(buf[..]), buf[..], faults)
    {
      if ino !in index.inodes {
        return Err(NotFound);
      }
      var meta := index.inodes[ino];
      if meta.size <= offset {
        NothingWanted(log.device, meta, offset, buf[..], faults);
        return Ok(0);
      }
      var readLen := Min(buf.Length, meta.size - offset);
      assert Limit(meta, offset, buf.Length) == readLen;
      r := ReadExtents(meta.extents, offset, readLen, buf, faults);
    }

    /** The loop of read_file over the extents, for `readLen` bytes. */
    method ReadExtents(extents: seq<Extent>, offset: nat, readLen: nat, buf: array<u8>, faults: nat -> ReadFault)
      returns (r: Result<nat>)
      requires readLen <= buf.Length
      modifies buf
      ensures var n := Scanned(extents, 0, offset, readLen);
        if forall k :: 0 <= k < n ==> !FailsAt(extents, k, offset, readLen, faults) then
          && r == Ok(Reach(extents, n, offset, readLen))
          && buf[..] == Gathered(log.device, extents, n, offset, readLen, old(buf[..]), faults)
        else
          r == Err(Io) && StopsAtFailure(log.device, extents, n, offset, readLen, old(buf[..]), buf[..], faults)
    {
      var totalRead: nat := 0;
      var i := 0;
      ghost var was := buf[..];
      GatherNothing(log.device, extents, offset, readLen, was, faults);
      while i < |extents| && totalRead < readLen
        invariant 0 <= i <= |extents| && totalRead == Reach(extents, i, offset, readLen)
        invariant Scanned(extents, i, offset, readLen) == Scanned(extents, 0, offset, readLen)
        invariant buf[..] == Gathered(log.device, extents, i, offset, readLen, was, faults)
        invariant forall k :: 0 <= k < i ==> !FailsAt(extents, k, offset, readLen, faults)
      {
        GatherStep(log.device, extents, i, offset, readLen, was, faults);
        var total := CopyOverlap(extents[i], offset, readLen, totalRead, buf, faults(i));
        if total.Err? {
          assert FailsAt(extents, i, offset, readLen, faults);
          return Err(Io);
        }
        totalRead := total.value;
        i := i + 1;
      }
      r := Ok(totalRead);
    }

    /** The body of read_file's loop: one extent's share of the request. */
    method CopyOverlap(extent: Extent, offset: nat, readLen: nat, totalRead: nat, buf: array<u8>, fault: ReadFault)
      returns (total: Result<nat>)
      requires readLen <= buf.Length
      modifies buf
      ensures total.Err? <==> fault.Refused? && extent.Meets(offset, offset + readLen)
      ensures total.Err? ==> buf[..] == old(buf[..])
      ensures total.Ok? ==> buf[..] == Copied(log.device, extent, offset, readLen, old(buf[..]), fault)
      ensures total.Ok? ==> total.value == if extent.Meets(offset, offset + readLen)
                                           then Max(totalRead, Min(extent.End(), offset + readLen) - offset)
                                           else totalRead
    {
      total := Ok(totalRead);
      var extentEnd, requestEnd := extent.logicalOff + extent.len, offset + readLen;
      if extent.logicalOff < requestEnd && offset < extentEnd {
        var overlapStart: nat, overlapEnd: nat := Max(extent.logicalOff, offset), Min(extentEnd, requestEnd);
        var extentOffset: nat, bufOffset: nat := overlapStart - extent.logicalOff, overlapStart - offset;
        var copyLen: nat := overlapEnd - overlapStart;
        var temp := log.ReadData(extent.physicalPtr + extentOffset, NoBytes(copyLen), fault);
        if temp.Err? {
          return Err(temp.error);
        }
        CopyInto(buf, bufOffset, temp.value);
        total := Ok(Max(totalRead, bufOffset + copyLen));
      }
    }

    /** One turn of read_from_log's loop: looks an extent up for the current position, follows it, and returns where
        the buffer is filled up to. */
    method FollowExtent(meta: Meta, offset: nat, bufPos: nat, buf: array<u8>, faults: nat -> ReadFault,
                        ghost qs: seq<Option<nat>>, ghost was: seq<u8>)
      returns (r: Result<Option<nat>>)
      requires bufPos < buf.Length && offset + bufPos < meta.size && Left(qs, bufPos, meta, offset, buf.Length, faults)
      requires Filled(buf[..], was, log.device, qs, bufPos)
      modifies buf
      ensures r.Err? ==>
        r.error == Io && faults(offset + bufPos).Refused? && bufPos < |qs| && buf[..] == old(buf[..])
      ensures r == Ok(None) ==> bufPos == |qs| && buf[..] == old(buf[..])
      ensures r.Ok? && r.value.Some? ==>
        var next := r.value.value;
        && bufPos < next <= buf.Length && Left(qs, next, meta, offset, buf.Length, faults)
        && Filled(buf[..], was, log.device, qs, next)
    {
      var found := FirstCover(meta.extents, 0, offset + bufPos);
      if found.None? {
        return Ok(None);
      }
      var e := meta.extents[found.value];
      var offInExtent: nat := offset + bufPos - e.logicalOff;
      var lenInExtent: nat := Min(e.len - offInExtent, buf.Length - bufPos);
      var physicalPos: nat := e.physicalPtr + offInExtent;
      FollowedStep(qs, bufPos, meta, offset, buf.Length, faults, e, physicalPos, lenInExtent);
      var fault := faults(offset + bufPos);
      var read := ReadSpan(physicalPos, lenInExtent, bufPos, buf, fault, qs, was);
      r := if read.Err? then Err(read.error) else Ok(Some(bufPos + lenInExtent));
    }

    /** Reads `n` bytes of the log into the buffer. */
    method ReadSpan(pos: nat, n: nat, bufPos: nat, buf: array<u8>, fault: ReadFault, ghost qs: seq<Option<nat>>,
                    ghost was: seq<u8>)
      returns (r: Result<()>)
      requires bufPos + n <= buf.Length && bufPos + n <= |qs| && qs[bufPos..bufPos + n] == SpanSeen(pos, n, fault)
      requires Filled(buf[..], was, log.device, qs, bufPos)
      modifies buf
      ensures r == if fault.Refused? then Err(Io) else Ok(())
      ensures r.Err? ==> buf[..] == old(buf[..])
      ensures r.Ok? ==> Filled(buf[..], was, log.device, qs, bufPos + n)
    {
      var bytes := log.ReadData(pos, buf[bufPos..bufPos + n], fault);
      if bytes.Err? {
        return Err(bytes.error);
      }
      ghost var now := buf[..];
      CopyInto(buf, bufPos, bytes.value);
      FillSpan(now, buf[..], was, log.device, qs, bufPos, pos, n, fault);
      r := Ok(());
    }

    /** Goes on until the buffer is full, the file ends or a hole begins. The device read from position `pos` of the
        file ends as `faults(pos)` says. */
    method ReadFromLog(meta: Meta, offset: nat, buf: array<u8>, faults: nat -> ReadFault) returns (r: Result<nat>)
      modifies buf
      ensures var qs := FollowedSeen(meta.extents, meta.size, offset, buf.Length, faults);
        && |qs| == |Followed(meta.extents, meta.size, offset, buf.Length)| <= buf.Length
        && (r.Ok? ==> r.value == |qs| && Filled(buf[..], old(buf[..]), log.device, qs, r.value))
        && (r.Err? ==> r.error == Io && FilledUntil(buf[..], old(buf[..]), log.device, qs, offset, faults))
    {
      ghost var qs := FollowedSeen(meta.extents, meta.size, offset, buf.Length, faults);
      SeenIsFollowed(meta.extents, meta.size, offset, buf.Length, faults);
      if meta.size <= offset {
        return Ok(0);
      }
      var bytesRead: nat, currentOffset: nat, bufPos: nat := 0, offset, 0;
      while bufPos < buf.Length && currentOffset < meta.size
        invariant bytesRead == bufPos <= buf.Length && currentOffset == offset + bufPos
        invariant Left(qs, bufPos, meta, offset, buf.Length, faults)
        invariant Filled(buf[..], old(buf[..]), log.device, qs, bufPos)
        decreases buf.Length - bufPos
      {
        var followed := FollowExtent(meta, offset, bufPos, buf, faults, qs, old(buf[..]));
        if followed.Err? {
          return Err(followed.error);
        }
        if followed.value.None? {
          return Ok(bytesRead);
        }
        var lenInExtent: nat := followed.value.value - bufPos;
        bytesRead := bytesRead + lenInExtent;
        bufPos := followed.value.value;
        currentOffset := currentOffset + lenInExtent;
      }
      NothingLeft(qs, bufPos, meta, offset, buf.Length, faults);
      r := Ok(bytesRead);
    }

    /** The loop of truncate_file. */
    static method Trim(extents: seq<Extent>, newSize: nat) returns (newExtents: seq<Extent>)
      ensures newExtents == Trimmed(extents, newSize)
    {
      newExtents := [];
      var i := 0;
      while i < |extents|
        invariant 0 <= i <= |extents|
        invariant newExtents + Trimmed(extents[i..], newSize) == Trimmed(extents, newSize)
      {
        var extent := extents[i];
        assert extents[i..][0] == extent && extents[i..][1..] == extents[i + 1..];
        if extent.logicalOff < newSize {
          if newSize < extent.logicalOff + extent.len {
            extent := extent.(len := newSize - extent.logicalOff);
          }
          newExtents := newExtents + [extent];
        }
        i := i + 1;
      }
    }

    /** Shrinking drops the extents from `newSize` on and shortens those that cross it. */
    method TruncateFile(ino: nat, newSize: nat, commits: bool) returns (r: Result<()>)
      modifies this
      ensures r == if ino !in old(index.inodes) then Err(NotFound) else if commits then Ok(()) else Err(Io)
      ensures index == if r.Ok? then SetInode(old(index), ino, Resized(old(index.inodes)[ino], newSize)) else old(index)
    {
      if ino !in index.inodes {
        return Err(NotFound);
      }
      var meta := index.inodes[ino];
      if newSize < meta.size {
        var newExtents := Trim(meta.extents, newSize);
        meta := meta.(extents := newExtents);
      }
      meta := meta.(size := newSize);
      if !commits {
        return Err(Io);
      }
      index := index.(inodes := index.inodes[ino := meta]);
      r := Ok(());
    }

    /** Gives out the number after the highest one in the table. */
    method AllocateInode(mode: bv32, commits: bool) returns (r: Result<nat>)
      modifies this
      ensures r.Ok? <==> commits
      ensures r.Ok? ==> r.value == NextNumber(old(index.inodes))
      ensures r.Err? ==> r.error == Io
      ensures index == if r.Ok? then Allocated(old(index), mode) else old(index)
    {
      var maxIno: nat := 1;
      var keys := index.inodes.Keys;
      while keys != {}
        invariant keys <= index.inodes.Keys
        invariant forall i :: i in index.inodes && i !in keys ==> i <= maxIno
        invariant 1 <= maxIno && (maxIno == 1 || maxIno in index.inodes)
        decreases keys
      {
        var ino :| ino in keys;
        keys := keys - {ino};
        if maxIno < ino {
          maxIno := ino;
        }
      }
      var newIno := maxIno + 1;
      OneNextNumber(index.inodes, newIno, NextNumber(index.inodes));
      if !commits {
        return Err(Io);
      }
      index := index.(inodes := index.inodes[newIno := FreshMeta(newIno, mode)]);
      r := Ok(newIno);
    }

    /** Creates the directory's bucket if need be; an entry of that name is replaced. */
    method AddDentry(parentIno: nat, name: string, childIno: nat, commits: bool) returns (r: Result<()>)
      modifies this
      ensures r == if commits then Ok(()) else Err(Io)
      ensures index == if commits then AddEntry(old(index), parentIno, name, childIno) else old(index)
    {
      var bucket := if parentIno in index.dirs then index.dirs[parentIno] else map[];
      bucket := bucket[name := childIno];
      if !commits {
        return Err(Io);
      }
      index := index.(dirs := index.dirs[parentIno := bucket]);
      r := Ok(());
    }

    method LookupDentry(parentIno: nat, name: string) returns (r: Result<nat>)
      ensures r == if name in Entries(index, parentIno) then Ok(Entries(index, parentIno)[name]) else Err(NotFound)
    {
      if parentIno !in index.dirs {
        return Err(NotFound);
      }
      var bucket := index.dirs[parentIno];
      if name !in bucket {
        return Err(NotFound);
      }
      r := Ok(bucket[name]);
    }

    /** The entry at `startIndex` in the cursor's order, which is `names`. */
    method ListDentries(parentIno: nat, names: seq<string>, startIndex: nat) returns (r: Option<(string, nat)>)
      requires ListsEntries(names, Entries(index, parentIno))
      ensures r.Some? <==> startIndex < |names|
      ensures r.Some? ==> r.value.0 == names[startIndex] && r.value.0 in Entries(index, parentIno)
      ensures r.Some? ==> r.value.1 == Entries(index, parentIno)[r.value.0]
      ensures startIndex == 0 ==> (r.None? <==> Entries(index, parentIno) == map[])
    {
      NothingListed(names, Entries(index, parentIno));
      if parentIno !in index.dirs {
        return None;
      }
      if |names| <= startIndex {
        return None;
      }
      assert names[startIndex] in names;
      r := Some((names[startIndex], index.dirs[parentIno][names[startIndex]]));
    }

    method DeleteDentry(parentIno: nat, name: string, commits: bool) returns (r: Result<()>)
      modifies this
      ensures r == if parentIno !in old(index.dirs) then Err(NotFound)
                   else if name in old(index.dirs)[parentIno] && commits then Ok(()) else Err(Io)
      ensures index == if r.Ok? then DropEntry(old(index), parentIno, name) else old(index)
    {
      if parentIno !in index.dirs {
        return Err(NotFound);
      }
      if name !in index.dirs[parentIno] || !commits {
        return Err(Io);
      }
      index := index.(dirs := index.dirs[parentIno := index.dirs[parentIno] - {name}]);
      r := Ok(());
    }

    /** Drops the inode and, with it, the bucket of its entries. */
    method DeleteInode(ino: nat, commits: bool) returns (r: Result<()>)
      modifies this
      ensures r == if ino in old(index.inodes) && commits then Ok(()) else Err(Io)
      ensures index == if r.Ok? then DropInode(old(index), ino) else old(index)
    {
      if ino !in index.inodes {
        return Err(Io);
      }
      var inodes, dirs := index.inodes - {ino}, index.dirs - {ino};
      if !commits {
        return Err(Io);
      }
      index := Index(inodes, dirs);
      r := Ok(());
    }

    /** Stores metadata under the number that it carries. */
    method UpdateMetadata(meta: Meta, commits: bool) returns (r: Result<()>)
      modifies this
      ensures r == if commits then Ok(()) else Err(Io)
      ensures index == if commits then SetInode(old(index), meta.ino, meta) else old(index)
    {
      if !commits {
        return Err(Io);
      }
      index := index.(inodes := index.inodes[meta.ino := meta]);
      r := Ok(());
    }

    method GetMetadata(ino: nat) returns (r: Result<Meta>)
      ensures r == if ino in index.inodes then Ok(index.inodes[ino]) else Err(NotFound)
    {
      if ino !in index.inodes {
        return Err(NotFound);
      }
      r := Ok(index.inodes[ino]);
    }
  }
}
