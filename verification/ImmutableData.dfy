/** Runs of the extent engine in one mount: committed data never changes, and truncation never brings it back. */
module ImmutableData {
  import opened Common
  import opened Crc32
  import opened Extents
  import opened LogManager
  import opened ExtentEngine

  /** The engine's calls. A write names the device fault it meets; every transaction may fail to commit. */
  datatype Call =
    | Write(ino: nat, offset: nat, data: seq<u8>, fault: DeviceFault, commits: bool)
    | Truncate(ino: nat, size: nat, commits: bool)
    | Allocate(mode: bv32, commits: bool)
    | DeleteInode(ino: nat, commits: bool)
    | SetLinks(ino: nat, nlink: nat, commits: bool)
    | SetAttr(ino: nat, mode: bv32, size: nat, commits: bool)
    | AddDentry(parent: nat, name: string, child: nat, commits: bool)
    | DeleteDentry(parent: nat, name: string, commits: bool)

  /** What a call changes, as the engine's methods promise it. */
  function Step(s: Disk, c: Call): Disk {
    match c
    case Write(ino, offset, data, fault, commits) => WriteOutcome(s, ino, offset, data, fault, commits)
    case _ => if c.commits then s.(index := Reindexed(s.index, c)) else s
  }

  /** What a committed call other than a write does to the index. */
  function Reindexed(x: Index, c: Call): Index
    requires !c.Write?
  {
    match c
    case Truncate(ino, size, _) => if ino in x.inodes then SetInode(x, ino, Resized(x.inodes[ino], size)) else x
    case Allocate(mode, _) => Allocated(x, mode)
    case DeleteInode(ino, _) => if ino in x.inodes then DropInode(x, ino) else x
    case SetLinks(ino, nlink, _) => if ino in x.inodes then SetInode(x, ino, x.inodes[ino].(nlink := nlink)) else x
    case SetAttr(ino, mode, size, _) =>
      if ino in x.inodes then SetInode(x, ino, x.inodes[ino].(mode := mode, size := size)) else x
    case AddDentry(parent, name, child, _) => AddEntry(x, parent, name, child)
    case DeleteDentry(parent, name, _) => if name in Entries(x, parent) then DropEntry(x, parent, name) else x
  }

  function Run(s: Disk, cs: seq<Call>): Disk
    decreases |cs|
  {
    if cs == [] then s else Run(Step(s, cs[0]), cs[1..])
  }

  /** The state of a mount before the first call: an index without extents. */
  ghost predicate Fresh(s: Disk) {
    forall i :: i in s.index.inodes ==> s.index.inodes[i].extents == []
  }

  // ----- what has been appended -----

  /** What was appended, and how much of it landed. */
  datatype Record = Record(at: nat, data: seq<u8>, landed: nat)

  /** The records that a run appends, in order. */
  function Journal(s: Disk, cs: seq<Call>): seq<Record>
    decreases |cs|
  {
    if cs == [] then [] else Appended(s, cs[0]) + Journal(Step(s, cs[0]), cs[1..])
  }

  function Appended(s: Disk, c: Call): seq<Record> {
    if c.Write? then AppendedRecords(s, c.data, c.fault) else []
  }

  /** The device still holds what landed of the record. */
  ghost predicate Kept(device: Device, next: nat, r: Record) {
    r.at + |r.data| <= next && r.landed <= |r.data| && Bytes(device, r.at, r.landed) == r.data[..r.landed]
  }

  /** The extent maps the start of the record and carries the checksum of all of it. */
  ghost predicate Maps(e: Extent, r: Record) {
    e.physicalPtr == r.at && e.len <= |r.data| && e.crc == Checksum(r.data)
  }

  ghost predicate Backed(e: Extent, journal: seq<Record>) {
    exists r :: r in journal && Maps(e, r)
  }

  /** The log ranges of two extents share no byte. */
  predicate Apart(e: Extent, f: Extent) {
    e.physicalPtr + e.len <= f.physicalPtr || f.physicalPtr + f.len <= e.physicalPtr
  }

  ghost predicate AllApart(es: seq<Extent>) {
    es == [] || ((forall f :: f in es[1..] ==> Apart(es[0], f)) && AllApart(es[1..]))
  }

  /** The extents of one file: backed by records and apart from each other. */
  ghost predicate FileInv(m: Meta, journal: seq<Record>, next: nat) {
    && (forall e :: e in m.extents ==> Backed(e, journal) && e.physicalPtr + e.len <= next)
    && AllApart(m.extents)
  }

  ghost predicate ApartFiles(m: Meta, n: Meta) {
    forall e, f :: e in m.extents && f in n.extents ==> Apart(e, f)
  }

  ghost predicate Inv(s: Disk, journal: seq<Record>) {
    && (forall r :: r in journal ==> Kept(s.device, s.nextAppendPos, r))
    && (forall i :: i in s.index.inodes ==> FileInv(s.index.inodes[i], journal, s.nextAppendPos))
    && (forall i, j :: i in s.index.inodes && j in s.index.inodes && i != j ==>
          ApartFiles(s.index.inodes[i], s.index.inodes[j]))
  }

  // ----- each call keeps the invariant -----

  /** `m` uses no extent that `n` does not use, at most shorter. */
  ghost predicate Within(m: Meta, n: Meta) {
    forall e :: e in m.extents ==> exists f :: f in n.extents && e == f.(len := e.len) && e.len <= f.len
  }

  lemma {:induction false} TrimmedApart(es: seq<Extent>, size: nat)
    requires AllApart(es)
    ensures AllApart(Trimmed(es, size))
  {
    if es != [] {
      TrimmedApart(es[1..], size);
      var ts := Trimmed(es, size);
      if es[0].logicalOff < size {
        assert ts[1..] == Trimmed(es[1..], size);
        forall f | f in ts[1..] ensures Apart(ts[0], f) {
          TrimmedComesFrom(es[1..], size, f);
        }
      }
    }
  }

  lemma {:induction false} PushedApart(es: seq<Extent>, e: Extent)
    requires AllApart(es) && forall f :: f in es ==> Apart(f, e)
    ensures AllApart(es + [e])
  {
    if es == [] {
      assert ([] + [e])[1..] == [];
    } else {
      PushedApart(es[1..], e);
      assert (es + [e])[1..] == es[1..] + [e];
    }
  }

  lemma ResizedKeepsFileInv(m: Meta, size: nat, journal: seq<Record>, next: nat)
    requires FileInv(m, journal, next)
    ensures FileInv(Resized(m, size), journal, next) && Within(Resized(m, size), m)
  {
    if size < m.size {
      TrimmedApart(m.extents, size);
      forall e | e in Trimmed(m.extents, size)
        ensures Backed(e, journal) && e.physicalPtr + e.len <= next
        ensures exists f :: f in m.extents && e == f.(len := e.len) && e.len <= f.len
      {
        TrimmedComesFrom(m.extents, size, e);
        var f :| f in m.extents && e == f.(len := e.len) && e.len <= f.len;
        var r :| r in journal && Maps(f, r);
        assert Maps(e, r);
      }
    } else {
      forall e | e in m.extents ensures exists f :: f in m.extents && e == f.(len := e.len) && e.len <= f.len {
        assert e == e.(len := e.len);
      }
    }
  }

  /** Replacing a file by one that uses no more of the log keeps the invariant. */
  lemma ShrinkKeepsInv(s: Disk, journal: seq<Record>, ino: nat, m: Meta)
    requires Inv(s, journal) && FileInv(m, journal, s.nextAppendPos)
    requires m.extents == [] || (ino in s.index.inodes && Within(m, s.index.inodes[ino]))
    ensures Inv(s.(index := SetInode(s.index, ino, m)), journal)
  {
    forall j | j in s.index.inodes && j != ino
      ensures ApartFiles(m, s.index.inodes[j]) && ApartFiles(s.index.inodes[j], m)
    {
      forall e, f | e in m.extents && f in s.index.inodes[j].extents ensures Apart(e, f) && Apart(f, e) {
        var g :| g in s.index.inodes[ino].extents && e == g.(len := e.len) && e.len <= g.len;
        assert Apart(g, f);
      }
    }
    SetKeepsInv(s, journal, ino, m);
  }

  /** The state after an append alone: whatever landed is beyond the old end of the log. */
  function AppendOnly(s: Disk, data: seq<u8>, fault: DeviceFault): Disk {
    s.(device := Overwritten(s.device, s.nextAppendPos, Landed(data, fault)),
       nextAppendPos := s.nextAppendPos + if fault.Torn? then 0 else |data|)
  }

  function AppendedRecords(s: Disk, data: seq<u8>, fault: DeviceFault): seq<Record> {
    if fault.Torn? then [] else [Record(s.nextAppendPos, data, |Landed(data, fault)|)]
  }

  lemma AppendKeepsInv(s: Disk, journal: seq<Record>, data: seq<u8>, fault: DeviceFault)
    requires Inv(s, journal)
    ensures Inv(AppendOnly(s, data, fault), journal + AppendedRecords(s, data, fault))
  {
    var s', journal' := AppendOnly(s, data, fault), journal + AppendedRecords(s, data, fault);
    forall r | r in journal' ensures Kept(s'.device, s'.nextAppendPos, r) {
      if r in journal {
        assert Kept(s.device, s.nextAppendPos, r);
        assert forall k :: 0 <= k < r.landed ==> s'.device(r.at + k) == Bytes(s.device, r.at, r.landed)[k];
      }
    }
    forall i | i in s.index.inodes ensures FileInv(s.index.inodes[i], journal', s'.nextAppendPos) {
      BackedStill(s.index.inodes[i], journal, s.nextAppendPos, journal', s'.nextAppendPos);
    }
  }

  lemma BackedStill(m: Meta, journal: seq<Record>, next: nat, journal': seq<Record>, next': nat)
    requires FileInv(m, journal, next) && next <= next' && forall r :: r in journal ==> r in journal'
    ensures FileInv(m, journal', next')
  {
    forall e | e in m.extents ensures Backed(e, journal') {
      var r :| r in journal && Maps(e, r);
      assert r in journal';
    }
  }

  lemma PushedFileInv(m: Meta, journal: seq<Record>, next: nat, offset: nat, data: seq<u8>, landed: nat)
    requires FileInv(m, journal, next)
    ensures FileInv(Pushed(m, next, offset, data), journal + [Record(next, data, landed)], next + |data|)
  {
    var journal' := journal + [Record(next, data, landed)];
    var e := Extent(offset, next, |data|, Checksum(data));
    BackedStill(m, journal, next, journal', next + |data|);
    assert Maps(e, Record(next, data, landed)) && Record(next, data, landed) in journal';
    PushedApart(m.extents, e);
  }

  lemma PushedApartFiles(m: Meta, n: Meta, next: nat, offset: nat, data: seq<u8>)
    requires ApartFiles(m, n) && ApartFiles(n, m) && forall f :: f in n.extents ==> f.physicalPtr + f.len <= next
    ensures ApartFiles(Pushed(m, next, offset, data), n) && ApartFiles(n, Pushed(m, next, offset, data))
  {
  }

  /** Pushing the extent of the record appended last keeps the invariant. */
  lemma PushKeepsInv(s: Disk, journal: seq<Record>, ino: nat, offset: nat, data: seq<u8>, fault: DeviceFault)
    requires Inv(s, journal) && ino in s.index.inodes && !fault.Torn?
    ensures Inv(WriteOutcome(s, ino, offset, data, fault, true), journal + AppendedRecords(s, data, fault))
  {
    var t, m := AppendOnly(s, data, fault), s.index.inodes[ino];
    var m' := Pushed(m, s.nextAppendPos, offset, data);
    AppendKeepsInv(s, journal, data, fault);
    PushedFileInv(m, journal, s.nextAppendPos, offset, data, |Landed(data, fault)|);
    forall j | j in s.index.inodes && j != ino
      ensures ApartFiles(m', s.index.inodes[j]) && ApartFiles(s.index.inodes[j], m')
    {
      PushedApartFiles(m, s.index.inodes[j], s.nextAppendPos, offset, data);
    }
    SetKeepsInv(t, journal + AppendedRecords(s, data, fault), ino, m');
  }

  lemma SetKeepsInv(s: Disk, journal: seq<Record>, ino: nat, m: Meta)
    requires Inv(s, journal) && FileInv(m, journal, s.nextAppendPos)
    requires forall j :: j in s.index.inodes && j != ino ==>
      ApartFiles(m, s.index.inodes[j]) && ApartFiles(s.index.inodes[j], m)
    ensures Inv(s.(index := SetInode(s.index, ino, m)), journal)
  {
  }

  lemma StepKeepsInv(s: Disk, journal: seq<Record>, c: Call)
    requires Inv(s, journal)
    ensures Inv(Step(s, c), journal + Appended(s, c))
  {
    match c
    case Write(ino, offset, data, fault, commits) =>
      if !fault.Torn? && ino in s.index.inodes && commits {
        PushKeepsInv(s, journal, ino, offset, data, fault);
      } else {
        AppendKeepsInv(s, journal, data, fault);
      }
    case _ =>
      assert journal + Appended(s, c) == journal;
      if c.commits {
        ReindexKeepsInv(s, journal, c);
      }
  }

  lemma ReindexKeepsInv(s: Disk, journal: seq<Record>, c: Call)
    requires Inv(s, journal) && !c.Write?
    ensures Inv(s.(index := Reindexed(s.index, c)), journal)
  {
    var x := s.index;
    match c
    case Truncate(ino, size, _) =>
      if ino in x.inodes {
        ResizedKeepsFileInv(x.inodes[ino], size, journal, s.nextAppendPos);
        ShrinkKeepsInv(s, journal, ino, Resized(x.inodes[ino], size));
      }
    case Allocate(mode, _) =>
      var n := NextNumber(x.inodes);
      ShrinkKeepsInv(s, journal, n, FreshMeta(n, mode));
    case SetLinks(ino, nlink, _) =>
      if ino in x.inodes {
        var m := x.inodes[ino].(nlink := nlink);
        ResizedKeepsFileInv(x.inodes[ino], x.inodes[ino].size, journal, s.nextAppendPos);
        ShrinkKeepsInv(s, journal, ino, m);
      }
    case SetAttr(ino, mode, size, _) =>
      if ino in x.inodes {
        ResizedKeepsFileInv(x.inodes[ino], x.inodes[ino].size, journal, s.nextAppendPos);
        ShrinkKeepsInv(s, journal, ino, x.inodes[ino].(mode := mode, size := size));
      }
    case DeleteInode(ino, _) =>
    case AddDentry(_, _, _, _) =>
    case DeleteDentry(_, _, _) =>
  }

  lemma {:induction false} RunKeepsInv(s: Disk, journal: seq<Record>, cs: seq<Call>)
    requires Inv(s, journal)
    ensures Inv(Run(s, cs), journal + Journal(s, cs))
    decreases |cs|
  {
    if cs == [] {
      assert journal + Journal(s, cs) == journal;
    } else {
      StepKeepsInv(s, journal, cs[0]);
      RunKeepsInv(Step(s, cs[0]), journal + Appended(s, cs[0]), cs[1..]);
      assert journal + Journal(s, cs) == journal + Appended(s, cs[0]) + Journal(Step(s, cs[0]), cs[1..]);
    }
  }

  // ----- what follows from it -----

  lemma {:induction false} ApartAt(es: seq<Extent>, a: nat, b: nat)
    requires AllApart(es) && a < b < |es|
    ensures Apart(es[a], es[b])
  {
    if a == 0 {
      assert es[b] == es[1..][b - 1];
    } else {
      ApartAt(es[1..], a - 1, b - 1);
    }
  }

  /** After any run, the log ranges of two different extents, of one file or of two, share no byte and lie
      below the append position. */
  lemma CommittedRangesAreDisjoint(s: Disk, cs: seq<Call>, i: nat, a: nat, j: nat, b: nat)
    requires Fresh(s)
    requires var t := Run(s, cs);
      i in t.index.inodes && j in t.index.inodes
      && a < |t.index.inodes[i].extents| && b < |t.index.inodes[j].extents| && (i, a) != (j, b)
    ensures var t := Run(s, cs);
      var e, f := t.index.inodes[i].extents[a], t.index.inodes[j].extents[b];
      Apart(e, f) && e.physicalPtr + e.len <= t.nextAppendPos
  {
    RunKeepsInv(s, [], cs);
    var t := Run(s, cs);
    var e, f := t.index.inodes[i].extents[a], t.index.inodes[j].extents[b];
    if i == j {
      if a < b {
        ApartAt(t.index.inodes[i].extents, a, b);
      } else {
        ApartAt(t.index.inodes[i].extents, b, a);
      }
    }
  }

  /** No call changes a byte below the append position. */
  lemma {:induction false} BytesBelowStay(s: Disk, cs: seq<Call>, p: nat)
    requires p < s.nextAppendPos
    ensures Run(s, cs).device(p) == s.device(p) && s.nextAppendPos <= Run(s, cs).nextAppendPos
    decreases |cs|
  {
    if cs != [] {
      BytesBelowStay(Step(s, cs[0]), cs[1..], p);
    }
  }

  /** What any reader takes from the first `k` extents of a committed file, at any position. */
  lemma CommittedDataIsImmutable(s: Disk, cs: seq<Call>, ds: seq<Call>, i: nat, k: nat, pos: nat, otherwise: u8)
    requires Fresh(s)
    requires i in Run(s, cs).index.inodes && k <= |Run(s, cs).index.inodes[i].extents|
    ensures var t := Run(s, cs);
      ByteFrom(Run(t, ds).device, t.index.inodes[i].extents, k, pos, otherwise)
      == ByteFrom(t.device, t.index.inodes[i].extents, k, pos, otherwise)
  {
    RunKeepsInv(s, [], cs);
    var t := Run(s, cs);
    var es := t.index.inodes[i].extents;
    var last := LastCover(es, k, pos);
    if last.Some? {
      var e := es[last.value];
      assert e in es;
      BytesBelowStay(t, ds, e.Physical(pos));
    }
  }

  /** An extent of full length whose record landed whole still hashes to its checksum; any other holds as much of
      the start of its record as landed. */
  lemma ExtentsHash(s: Disk, cs: seq<Call>, i: nat, e: Extent)
    requires Fresh(s) && i in Run(s, cs).index.inodes && e in Run(s, cs).index.inodes[i].extents
    ensures exists r :: r in Journal(s, cs) && Maps(e, r) && Hashes(Run(s, cs).device, e, r)
  {
    RunKeepsInv(s, [], cs);
    var t := Run(s, cs);
    assert [] + Journal(s, cs) == Journal(s, cs);
    assert FileInv(t.index.inodes[i], Journal(s, cs), t.nextAppendPos);
    var r :| r in Journal(s, cs) && Maps(e, r);
    KeptHashes(t.device, t.nextAppendPos, e, r);
  }

  /** The extent holds as much of the start of the record as landed, and all of it hashes to the checksum. */
  predicate Hashes(device: Device, e: Extent, r: Record) {
    var n := Min(e.len, r.landed);
    && n <= |r.data| && Bytes(device, e.physicalPtr, n) == r.data[..n]
    && (e.len == |r.data| == r.landed ==> Checksum(Bytes(device, e.physicalPtr, e.len)) == e.crc)
  }

  lemma KeptHashes(device: Device, next: nat, e: Extent, r: Record)
    requires Kept(device, next, r) && Maps(e, r)
    ensures Hashes(device, e, r)
  {
    var b, n := Bytes(device, r.at, r.landed), Min(e.len, r.landed);
    assert Bytes(device, e.physicalPtr, n) == b[..n];
    assert r.data[..r.landed][..n] == r.data[..n];
    assert r.data[..|r.data|] == r.data;
  }

  /** What the whole extent list of a file gives for a position. */
  function Content(s: Disk, ino: nat, pos: nat): Option<u8> {
    if ino !in s.index.inodes then None else ContentOf(s.device, s.index.inodes[ino].extents, pos)
  }

  function ContentOf(device: Device, es: seq<Extent>, pos: nat): Option<u8> {
    match LastCover(es, |es|, pos)
    case None => None
    case Some(i) => Some(device(es[i].Physical(pos)))
  }

  /** What a committed write puts at its `k`-th position: its byte if that landed, or else what the device held. */
  function Put(t: Disk, c: Call, k: nat): u8
    requires c.Write? && k < |c.data|
  {
    var landed := Landed(c.data, c.fault);
    if k < |landed| then landed[k] else t.device(t.nextAppendPos + k)
  }

  /** A write that is torn, or cut or failing between append and commit, changes no file. One that succeeds puts
      what landed of its data in its own range of its own file, and changes nothing else. */
  lemma WriteChangesOnlyItsRange(s: Disk, cs: seq<Call>, c: Call, ino: nat, pos: nat)
    requires Fresh(s) && c.Write?
    ensures var t := Run(s, cs);
      var done := !c.fault.Torn? && c.ino in t.index.inodes && c.commits;
      Content(Step(t, c), ino, pos)
      == if done && ino == c.ino && c.offset <= pos < c.offset + |c.data| then Some(Put(t, c, pos - c.offset))
         else Content(t, ino, pos)
  {
    RunKeepsInv(s, [], cs);
    var t := Run(s, cs);
    if ino in t.index.inodes {
      if ino == c.ino && !c.fault.Torn? && c.commits {
        OldBytesStay(t, [] + Journal(s, cs), c, ino, pos);
        PushedContent(t, c, pos);
      } else {
        UnpushedContent(t, [] + Journal(s, cs), c, ino, pos);
      }
    }
  }

  /** So after a committed write that the device took whole, the file's content in its range is its data. */
  lemma WholeWriteIsItsData(s: Disk, cs: seq<Call>, c: Call, pos: nat)
    requires Fresh(s) && c.Write? && c.fault.NoFault? && c.commits && c.ino in Run(s, cs).index.inodes
    requires c.offset <= pos < c.offset + |c.data|
    ensures Content(Step(Run(s, cs), c), c.ino, pos) == Some(c.data[pos - c.offset])
  {
    WriteChangesOnlyItsRange(s, cs, c, c.ino, pos);
  }

  lemma PushedContent(t: Disk, c: Call, pos: nat)
    requires c.Write? && c.ino in t.index.inodes && !c.fault.Torn? && c.commits
    requires var es := t.index.inodes[c.ino].extents;
      LastCover(es, |es|, pos).Some? ==>
        var p := es[LastCover(es, |es|, pos).value].Physical(pos);
        Step(t, c).device(p) == t.device(p)
    ensures Content(Step(t, c), c.ino, pos)
         == if c.offset <= pos < c.offset + |c.data| then Some(Put(t, c, pos - c.offset)) else Content(t, c.ino, pos)
  {
    var e := Extent(c.offset, t.nextAppendPos, |c.data|, Checksum(c.data));
    PushedExtents(t, c, e);
    if e.Covers(pos) {
      PutLands(t, c, pos - c.offset);
    }
    ContentWithOneMore(t, Step(t, c), c.ino, e, pos, if e.Covers(pos) then Put(t, c, pos - c.offset) else 0);
  }

  /** The content of a file with one more extent, when the device still holds what the others mapped. */
  lemma ContentWithOneMore(t: Disk, u: Disk, ino: nat, e: Extent, pos: nat, b: u8)
    requires ino in t.index.inodes && ino in u.index.inodes
    requires u.index.inodes[ino].extents == t.index.inodes[ino].extents + [e]
    requires var es := t.index.inodes[ino].extents;
      LastCover(es, |es|, pos).Some? ==>
        var p := es[LastCover(es, |es|, pos).value].Physical(pos);
        u.device(p) == t.device(p)
    requires e.Covers(pos) ==> u.device(e.Physical(pos)) == b
    ensures Content(u, ino, pos) == if e.Covers(pos) then Some(b) else Content(t, ino, pos)
  {
    ContentOfPushed(t.device, u.device, t.index.inodes[ino].extents, e, pos);
  }

  lemma PushedExtents(t: Disk, c: Call, e: Extent)
    requires c.Write? && c.ino in t.index.inodes && !c.fault.Torn? && c.commits
    requires e == Extent(c.offset, t.nextAppendPos, |c.data|, Checksum(c.data))
    ensures c.ino in Step(t, c).index.inodes
    ensures Step(t, c).index.inodes[c.ino].extents == t.index.inodes[c.ino].extents + [e]
  {
  }

  lemma ContentOfPushed(device: Device, device': Device, es: seq<Extent>, e: Extent, pos: nat)
    requires LastCover(es, |es|, pos).Some? ==>
      var p := es[LastCover(es, |es|, pos).value].Physical(pos); device'(p) == device(p)
    ensures ContentOf(device', es + [e], pos)
         == if e.Covers(pos) then Some(device'(e.Physical(pos))) else ContentOf(device, es, pos)
  {
    LastOfPushed(es, e, pos);
  }

  lemma PutLands(t: Disk, c: Call, k: nat)
    requires c.Write? && k < |c.data|
    ensures Step(t, c).device(t.nextAppendPos + k) == Put(t, c, k)
  {
  }

  lemma LastOfPushed(es: seq<Extent>, e: Extent, pos: nat)
    ensures LastCover(es + [e], |es| + 1, pos) == if e.Covers(pos) then Some(|es|) else LastCover(es, |es|, pos)
  {
    SamePrefix(es, e, |es|, pos);
  }

  lemma UnpushedContent(t: Disk, journal: seq<Record>, c: Call, ino: nat, pos: nat)
    requires Inv(t, journal) && c.Write? && ino in t.index.inodes
    requires ino != c.ino || c.fault.Torn? || !c.commits
    ensures Content(Step(t, c), ino, pos) == Content(t, ino, pos)
  {
    OldBytesStay(t, journal, c, ino, pos);
    assert Step(t, c).index.inodes[ino] == t.index.inodes[ino];
  }

  /** A write does not touch the bytes that a file's extents map. */
  lemma OldBytesStay(t: Disk, journal: seq<Record>, c: Call, ino: nat, pos: nat)
    requires Inv(t, journal) && c.Write? && ino in t.index.inodes
    ensures var es := t.index.inodes[ino].extents;
      LastCover(es, |es|, pos).Some? ==>
        var p := es[LastCover(es, |es|, pos).value].Physical(pos);
        Step(t, c).device(p) == t.device(p)
  {
    var es := t.index.inodes[ino].extents;
    var last := LastCover(es, |es|, pos);
    if last.Some? {
      assert es[last.value] in es;
    }
  }

  lemma {:induction false} SamePrefix(es: seq<Extent>, e: Extent, k: nat, pos: nat)
    requires k <= |es|
    ensures LastCover(es + [e], k, pos) == LastCover(es, k, pos)
  {
    if 0 < k {
      SamePrefix(es, e, k - 1, pos);
    }
  }

  // ----- truncation over runs -----

  ghost predicate Unmapped(s: Disk, ino: nat, pos: nat) {
    ino !in s.index.inodes || Sources(s.index.inodes[ino].extents, pos) == []
  }

  predicate WritesAt(c: Call, ino: nat, pos: nat) {
    c.Write? && c.ino == ino && c.offset <= pos < c.offset + |c.data|
  }

  // ----- sizes -----

  /** Every extent ends at or below its file's size. */
  ghost predicate AllSized(s: Disk) {
    forall i :: i in s.index.inodes ==> EndWithin(s.index.inodes[i].extents, s.index.inodes[i].size)
  }

  /** What a call must meet: only set_attr can lower a size and leave the extents. */
  ghost predicate SizeProper(s: Disk, c: Call) {
    c.SetAttr? && c.commits && c.ino in s.index.inodes ==> EndWithin(s.index.inodes[c.ino].extents, c.size)
  }

  lemma TrimmedEndsWithin(es: seq<Extent>, size: nat)
    ensures EndWithin(Trimmed(es, size), size)
  {
    var ts := Trimmed(es, size);
    forall k | 0 <= k < |ts| ensures ts[k].End() <= size {
      TrimmedComesFrom(es, size, ts[k]);
    }
  }

  /** A call keeps every extent within its file's size exactly when it is proper. */
  lemma StepKeepsSizesIff(s: Disk, c: Call)
    requires AllSized(s)
    ensures AllSized(Step(s, c)) <==> SizeProper(s, c)
  {
    match c
    case Truncate(ino, size, _) =>
      if ino in s.index.inodes {
        TrimmedEndsWithin(s.index.inodes[ino].extents, size);
      }
    case Write(ino, offset, data, _, _) =>
      if ino in s.index.inodes {
        var m := s.index.inodes[ino];
        var m' := Pushed(m, s.nextAppendPos, offset, data);
        assert EndWithin(m'.extents, m'.size);
      }
    case SetAttr(ino, mode, size, commits) =>
      if commits && ino in s.index.inodes {
        assert Step(s, c).index.inodes[ino] == s.index.inodes[ino].(mode := mode, size := size);
      }
    case Allocate(_, _) =>
    case DeleteInode(_, _) =>
    case SetLinks(_, _, _) =>
    case AddDentry(_, _, _, _) =>
    case DeleteDentry(_, _, _) =>
  }

  ghost predicate SizeProperRun(s: Disk, cs: seq<Call>)
    decreases |cs|
  {
    cs == [] || (SizeProper(s, cs[0]) && SizeProperRun(Step(s, cs[0]), cs[1..]))
  }

  /** After any proper run, every extent ends at or below its file's size. */
  lemma {:induction false} ExtentsEndWithinSize(s: Disk, cs: seq<Call>)
    requires AllSized(s) && SizeProperRun(s, cs)
    ensures AllSized(Run(s, cs))
    decreases |cs|
  {
    if cs != [] {
      StepKeepsSizesIff(s, cs[0]);
      ExtentsEndWithinSize(Step(s, cs[0]), cs[1..]);
    }
  }

  /** The first call that is not proper leaves an extent past the end of its file. */
  lemma {:induction false} ImproperSizeShows(s: Disk, cs: seq<Call>) returns (k: nat)
    requires AllSized(s) && !SizeProperRun(s, cs)
    ensures k <= |cs| && !AllSized(Run(s, cs[..k]))
    decreases |cs|
  {
    StepKeepsSizesIff(s, cs[0]);
    if SizeProper(s, cs[0]) {
      k := ImproperSizeShows(Step(s, cs[0]), cs[1..]);
      assert cs[..k + 1][0] == cs[0] && cs[..k + 1][1..] == cs[1..][..k];
      k := k + 1;
    } else {
      assert cs[..1][0] == cs[0] && cs[..1][1..] == [];
      assert Run(Step(s, cs[0]), []) == Step(s, cs[0]);
      k := 1;
    }
  }

  lemma {:induction false} NothingAbove(es: seq<Extent>, size: nat, pos: nat)
    requires EndWithin(es, size) && size <= pos
    ensures Sources(es, pos) == []
  {
    if es != [] {
      assert EndWithin(es[1..], size) by {
        forall k | 0 <= k < |es[1..]| ensures es[1..][k].End() <= size {
          assert es[1..][k] == es[k + 1];
        }
      }
      NothingAbove(es[1..], size, pos);
    }
  }

  lemma StepStaysUnmapped(s: Disk, c: Call, ino: nat, pos: nat)
    requires Unmapped(s, ino, pos) && !WritesAt(c, ino, pos)
    ensures Unmapped(Step(s, c), ino, pos)
  {
    if ino in s.index.inodes {
      var es := s.index.inodes[ino].extents;
      match c
      case Write(_, offset, data, _, _) =>
        SourcesPush(es, Extent(offset, s.nextAppendPos, |data|, Checksum(data)), pos);
      case Truncate(_, size, _) => TrimKeepsBelow(es, size, pos);
      case _ =>
    }
  }

  lemma {:induction false} RunStaysUnmapped(s: Disk, cs: seq<Call>, ino: nat, pos: nat)
    requires Unmapped(s, ino, pos) && forall c :: c in cs ==> !WritesAt(c, ino, pos)
    ensures Unmapped(Run(s, cs), ino, pos)
    decreases |cs|
  {
    if cs != [] {
      StepStaysUnmapped(s, cs[0], ino, pos);
      RunStaysUnmapped(Step(s, cs[0]), cs[1..], ino, pos);
    }
  }

  /** A truncation keeps what every position below the new size mapped. A position at or above it maps nothing
      afterwards exactly when the truncation shrank the file or nothing was mapped there before; and then it
      stays so through any further calls, growing truncates among them, until a write covers it. */
  lemma CutStaysCut(t: Disk, ino: nat, size: nat, ds: seq<Call>, pos: nat)
    requires ino in t.index.inodes
    ensures var u := Step(t, Truncate(ino, size, true));
      && (pos < size ==> Sources(u.index.inodes[ino].extents, pos) == Sources(t.index.inodes[ino].extents, pos))
      && (size <= pos ==> (Unmapped(u, ino, pos) <==> size < t.index.inodes[ino].size || Unmapped(t, ino, pos)))
      && (Unmapped(u, ino, pos) && (forall d :: d in ds ==> !WritesAt(d, ino, pos)) ==> Unmapped(Run(u, ds), ino, pos))
  {
    var m := t.index.inodes[ino];
    var u := Step(t, Truncate(ino, size, true));
    assert u.index.inodes[ino] == Resized(m, size);
    TrimKeepsBelow(m.extents, size, pos);
    if Unmapped(u, ino, pos) && forall d :: d in ds ==> !WritesAt(d, ino, pos) {
      RunStaysUnmapped(u, ds, ino, pos);
    }
  }

  /** So after a proper run every truncation cuts off all positions from its size on. */
  lemma ProperRunCutsCleanly(s: Disk, cs: seq<Call>, ino: nat, size: nat, ds: seq<Call>, pos: nat)
    requires AllSized(s) && SizeProperRun(s, cs) && ino in Run(s, cs).index.inodes && size <= pos
    requires forall d :: d in ds ==> !WritesAt(d, ino, pos)
    ensures Unmapped(Run(Step(Run(s, cs), Truncate(ino, size, true)), ds), ino, pos)
  {
    var t := Run(s, cs);
    ExtentsEndWithinSize(s, cs);
    if t.index.inodes[ino].size <= size {
      NothingAbove(t.index.inodes[ino].extents, t.index.inodes[ino].size, pos);
    }
    CutStaysCut(t, ino, size, ds, pos);
  }
}
