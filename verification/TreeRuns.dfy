/** Runs of namespace calls: exactly when each keeps the tree good, and what follows for every reachable tree. */
module TreeRuns {
  import opened Common
  import opened Access
  import opened TreeInvariant
  import opened TreeGrowth
  import opened TreeMoves
  import opened Namespace

  function NodeOf(n: Inode): Node {
    Node(IsDir(n), n.size, n.hardLinks, n.entries)
  }

  function SkeletonOf(inodes: Inodes): Skeleton {
    map i | i in inodes :: NodeOf(inodes[i])
  }

  /** The tree is good, and the counter is above every number in it. */
  ghost predicate TreeInv(t: Tree) {
    Inv(SkeletonOf(t.inodes)) && forall i :: i in t.inodes ==> i < t.nextIno
  }

  lemma SkeletonPut(inodes: Inodes, i: nat, n: Inode)
    ensures SkeletonOf(inodes[i := n]) == SkeletonOf(inodes)[i := NodeOf(n)]
  {
  }

  lemma SkeletonDrop(inodes: Inodes, i: nat)
    ensures SkeletonOf(inodes - {i}) == SkeletonOf(inodes) - {i}
  {
  }

  lemma SameMode(n: Inode, n': Inode)
    requires n.mode == n'.mode
    ensures IsDir(n) == IsDir(n')
  {
  }

  /** The base state is good if the root's mode is a directory's. */
  lemma BaseInv(mode: bv16, uid: nat, gid: nat)
    requires Contains(mode, S_IFDIR)
    ensures TreeInv(Base(mode, uid, gid))
  {
    var m := SkeletonOf(Base(mode, uid, gid).inodes);
    var root := Node(true, 1, 2, map["." := ROOT]);
    assert m == map[ROOT := root];
    forall i ensures NodeInv(m, i) {
      assert Links(m, i) == {};
      assert |root.entries| == 1;
    }
    assert ReachesRoot(m, ROOT, 0);
  }

  // ----- create -----

  /** A free proper name in a directory, and no kind that passes for a directory without being one. */
  predicate CreateProper(t: Tree, a: CreateArgs)
    requires a.dir in t.inodes
  {
    && IsDir(t.inodes[a.dir])
    && a.name !in t.inodes[a.dir].entries && !IsDot(a.name)
    && !(Contains(a.perm, S_IFDIR) && IsSpecial(a.perm))
  }

  lemma CreatedNode(a: CreateArgs, parent: Inode, number: nat)
    ensures var node := NodeOf(NewInode(a, parent, number));
      && Fresh(node, a.dir, number)
      && node.isDir == Contains(a.perm, S_IFDIR)
      && (node.isDir ==> (node.size == 2 && node.hardLinks == 2 <==> !IsSpecial(a.perm)))
  {
    NewModeKeepsKind(a.perm, a.uid, parent);
  }

  lemma CreatedSkeleton(inodes: Inodes, dir: nat, name: string, number: nat, n: Inode)
    requires dir in inodes && number !in inodes
    ensures SkeletonOf(inodes[dir := Entered(inodes[dir], name, number)][number := n])
         == Added(SkeletonOf(inodes), dir, name, number, NodeOf(n))
  {
    var parent := Entered(inodes[dir], name, number);
    SameMode(inodes[dir], parent);
    SkeletonPut(inodes, dir, parent);
    SkeletonPut(inodes[dir := parent], number, n);
  }

  /** A create that succeeds keeps the tree good exactly when its name is proper and free, its parent is a
      directory, and it does not make a socket or a block device, which pass for directories. */
  lemma CreateKeepsIff(t: Tree, a: CreateArgs)
    requires TreeInv(t) && CreateError(t, a).None?
    ensures TreeInv(Created(t, a)) <==> CreateProper(t, a)
  {
    var m, node := SkeletonOf(t.inodes), NodeOf(NewInode(a, t.inodes[a.dir], t.nextIno));
    CreatedNode(a, t.inodes[a.dir], t.nextIno);
    CreatedSkeleton(t.inodes, a.dir, a.name, t.nextIno, NewInode(a, t.inodes[a.dir], t.nextIno));
    if AddProper(m, a.dir, a.name, node) {
      AddKeeps(m, a.dir, a.name, t.nextIno, node);
    } else {
      AddBreaks(m, a.dir, a.name, t.nextIno, node);
    }
  }

  // ----- link -----

  predicate LinkProper(t: Tree, a: LinkArgs)
    requires a.dir in t.inodes && a.ino in t.inodes
  {
    IsDir(t.inodes[a.dir]) && !IsDir(t.inodes[a.ino]) && a.name !in t.inodes[a.dir].entries && !IsDot(a.name)
  }

  lemma LinkedSkeleton(t: Tree, a: LinkArgs)
    requires LinkError(t, a).None?
    ensures SkeletonOf(Linked(t, a).inodes) == LinkAdded(SkeletonOf(t.inodes), a.ino, a.dir, a.name)
  {
    var m := t.inodes[a.dir := Entered(t.inodes[a.dir], a.name, a.ino)];
    SameMode(t.inodes[a.dir], m[a.dir]);
    SkeletonPut(t.inodes, a.dir, m[a.dir]);
    SameMode(m[a.ino], m[a.ino].(hardLinks := m[a.ino].hardLinks + 1));
    SkeletonPut(m, a.ino, m[a.ino].(hardLinks := m[a.ino].hardLinks + 1));
  }

  /** A link that succeeds keeps the tree good exactly when it gives a file a free proper name in a directory. */
  lemma LinkKeepsIff(t: Tree, a: LinkArgs)
    requires TreeInv(t) && LinkError(t, a).None?
    ensures TreeInv(Linked(t, a)) <==> LinkProper(t, a)
  {
    LinkedSkeleton(t, a);
    if LinkProper(t, a) {
      LinkKeeps(SkeletonOf(t.inodes), a.ino, a.dir, a.name);
    } else {
      LinkBreaks(SkeletonOf(t.inodes), a.ino, a.dir, a.name);
    }
  }

  // ----- unlink -----

  predicate UnlinkProper(t: Tree, a: UnlinkArgs)
    requires UnlinkError(t, a).None?
  {
    !IsDot(a.name) && Unlinkee(t, a) == t.inodes[a.dir].entries[a.name] && !IsDir(t.inodes[Unlinkee(t, a)])
  }

  lemma UnlinkedSkeleton(t: Tree, a: UnlinkArgs)
    requires UnlinkError(t, a).None?
    ensures SkeletonOf(Unlinked(t, a).inodes) == LinkDropped(SkeletonOf(t.inodes), Unlinkee(t, a), a.dir, a.name)
  {
    var m, ino := t.inodes[a.dir := Departed(t.inodes[a.dir], a.name)], Unlinkee(t, a);
    SameMode(t.inodes[a.dir], m[a.dir]);
    SkeletonPut(t.inodes, a.dir, m[a.dir]);
    if m[ino].hardLinks == 1 {
      SkeletonDrop(m, ino);
    } else {
      SameMode(m[ino], m[ino].(hardLinks := m[ino].hardLinks - 1));
      SkeletonPut(m, ino, m[ino].(hardLinks := m[ino].hardLinks - 1));
    }
  }

  /** An unlink that succeeds keeps the tree good exactly when its entry is a proper one that names a file,
      and the inode that the caller gave, if any, is that file. */
  lemma UnlinkKeepsIff(t: Tree, a: UnlinkArgs)
    requires TreeInv(t) && UnlinkError(t, a).None?
    ensures TreeInv(Unlinked(t, a)) <==> UnlinkProper(t, a)
  {
    UnlinkedSkeleton(t, a);
    if UnlinkProper(t, a) {
      UnlinkKeeps(SkeletonOf(t.inodes), Unlinkee(t, a), a.dir, a.name);
    } else {
      UnlinkBreaks(SkeletonOf(t.inodes), Unlinkee(t, a), a.dir, a.name);
    }
  }

  // ----- rmdir -----

  predicate RmdirProper(t: Tree, a: RmdirArgs)
    requires RmdirError(t, a).None?
  {
    var n := t.inodes[t.inodes[a.parent].entries[a.name]];
    !IsDot(a.name) && (IsDir(n) || n.hardLinks == 1)
  }

  lemma RemovedSkeleton(t: Tree, a: RmdirArgs)
    requires RmdirError(t, a).None?
    ensures SkeletonOf(Removed(t, a).inodes) == NodeDropped(SkeletonOf(t.inodes), a.parent, a.name)
  {
    var p := Departed(t.inodes[a.parent], a.name);
    SameMode(t.inodes[a.parent], p);
    SkeletonPut(t.inodes, a.parent, p);
    SkeletonDrop(t.inodes[a.parent := p], t.inodes[a.parent].entries[a.name]);
  }

  /** An rmdir that succeeds keeps the tree good exactly when its name is proper and names a directory, or
      a file that has no other link. */
  lemma RmdirKeepsIff(t: Tree, a: RmdirArgs)
    requires TreeInv(t) && RmdirError(t, a).None?
    ensures TreeInv(Removed(t, a)) <==> RmdirProper(t, a)
  {
    RemovedSkeleton(t, a);
    if RmdirProper(t, a) {
      RmdirKeeps(SkeletonOf(t.inodes), a.parent, a.name);
    } else {
      RmdirBreaks(SkeletonOf(t.inodes), a.parent, a.name);
    }
  }

  // ----- rename -----

  /** What a move must meet: proper names, a directory to receive it that is neither the moved directory nor
      below it, and a name there that is free, its own, or seen to be an empty directory's. */
  ghost predicate MoveIsProper(t: Tree, a: RenameArgs)
    requires RenameError(t, a).None? && !a.exchange
  {
    var k := t.inodes[a.oldDir].entries[a.oldName];
    && ProperNames(a.oldName, a.newName)
    && IsDir(t.inodes[a.newDir])
    && (IsDir(t.inodes[k]) ==> !Under(SkeletonOf(t.inodes), a.newDir, k))
    && (SameEntry(a) || a.newName !in t.inodes[a.newDir].entries || SeesTarget(t, a))
  }

  lemma MovedSkeleton(t: Tree, a: RenameArgs)
    requires RenameError(t, a).None? && !a.exchange && !SeesTarget(t, a)
    ensures Ends(SkeletonOf(t.inodes), a.oldDir, a.oldName, a.newDir, a.newName)
    ensures SkeletonOf(Moved(t, a)) == PlainMove(SkeletonOf(t.inodes), a.oldDir, a.oldName, a.newDir, a.newName)
  {
    var k := t.inodes[a.oldDir].entries[a.oldName];
    PlacedSkeleton(t.inodes, a, k, t.inodes[a.newDir].size, IsDir(t.inodes[k]));
  }

  lemma PlacedSkeleton(m: Inodes, a: RenameArgs, k: nat, size: nat, isDir: bool)
    requires a.oldDir in m && a.newDir in m && k in m && 0 < m[a.oldDir].size
    ensures SkeletonOf(Placed(m, a, k, size, isDir))
         == Place(SkeletonOf(m), a.oldDir, a.oldName, a.newDir, a.newName, k, size, isDir)
  {
    var n1 := Departed(m[a.oldDir], a.oldName);
    var m1 := m[a.oldDir := n1];
    SameMode(m[a.oldDir], n1);
    SkeletonPut(m, a.oldDir, n1);
    var n2 := m1[a.newDir].(entries := m1[a.newDir].entries[a.newName := k],
                            size := if a.oldDir == a.newDir then size else size + 1);
    SameMode(m1[a.newDir], n2);
    SkeletonPut(m1, a.newDir, n2);
    PointedSkeleton(m1[a.newDir := n2], k, "..", a.newDir);
  }

  lemma PointedSkeleton(m: Inodes, d: nat, name: string, number: nat)
    requires d in m
    ensures SkeletonOf(Pointed(m, d, name, number)) == SkeletonOf(m)[d := WithEntry(SkeletonOf(m)[d], name, number)]
  {
    var n := m[d].(entries := m[d].entries[name := number]);
    SameMode(m[d], n);
    SkeletonPut(m, d, n);
  }

  lemma ClearedSkeleton(t: Tree, a: RenameArgs)
    requires RenameError(t, a).None? && !a.exchange && SeesTarget(t, a)
    ensures var m, nd := SkeletonOf(t.inodes), a.newDir;
      SkeletonOf(Cleared(t, a)) == m[nd := m[nd].(entries := m[nd].entries - {a.newName})] - {m[nd].entries[a.newName]}
  {
    var dir := t.inodes[a.newDir];
    var n := dir.(entries := dir.entries - {a.newName});
    SameMode(dir, n);
    SkeletonPut(t.inodes, a.newDir, n);
    SkeletonDrop(t.inodes[a.newDir := n], dir.entries[a.newName]);
  }

  lemma MovedOverSkeleton(t: Tree, a: RenameArgs)
    requires RenameError(t, a).None? && !a.exchange && SeesTarget(t, a)
    ensures var m := SkeletonOf(t.inodes);
      && Ends(m, a.oldDir, a.oldName, a.newDir, a.newName) && Target(m, a.oldDir, a.oldName, a.newDir, a.newName)
      && SkeletonOf(Moved(t, a)) == MoveOver(m, a.oldDir, a.oldName, a.newDir, a.newName)
  {
    var k := t.inodes[a.oldDir].entries[a.oldName];
    ClearedSkeleton(t, a);
    SameMode(t.inodes[a.newDir], t.inodes[a.newDir].(entries := t.inodes[a.newDir].entries - {a.newName}));
    PlacedSkeleton(Cleared(t, a), a, k, t.inodes[a.newDir].size - 1, IsDir(t.inodes[k]));
  }

  /** A move that succeeds keeps the tree good exactly when it is proper. */
  lemma MoveKeepsIff(t: Tree, a: RenameArgs)
    requires TreeInv(t) && RenameError(t, a).None? && !a.exchange
    ensures TreeInv(Renamed(t, a)) <==> MoveIsProper(t, a)
  {
    var m := SkeletonOf(t.inodes);
    MoveKeepsNumbers(t, a);
    if SeesTarget(t, a) {
      MovedOverSkeleton(t, a);
      MoveOverKeepsIff(m, a.oldDir, a.oldName, a.newDir, a.newName);
      EntriesNameInodes(m, a.newDir, a.newName);
    } else {
      MovedSkeleton(t, a);
      if MoveProper(m, a.oldDir, a.oldName, a.newDir, a.newName) {
        MoveKeeps(m, a.oldDir, a.oldName, a.newDir, a.newName);
      } else {
        MoveBreaks(m, a.oldDir, a.oldName, a.newDir, a.newName);
      }
    }
  }

  lemma MoveKeepsNumbers(t: Tree, a: RenameArgs)
    requires RenameError(t, a).None?
    ensures forall i :: i in Renamed(t, a).inodes ==> i in t.inodes
  {
  }

  /** What an exchange must meet: the entry that moves names a file, and a directory that comes back for it is
      not the directory that it comes to, nor above it. Exchanging a directory with its own `.` does nothing. */
  ghost predicate ExchangeIsProper(t: Tree, a: RenameArgs)
    requires RenameError(t, a).None? && a.exchange
  {
    var k, target := t.inodes[a.oldDir].entries[a.oldName], t.inodes[a.newDir].entries[a.newName];
    || (&& ProperNames(a.oldName, a.newName) && !IsDir(t.inodes[k])
        && (IsDir(t.inodes[target]) ==> !Under(SkeletonOf(t.inodes), a.oldDir, target)))
    || (!IsDot(a.oldName) && a.newName == "." && k == a.newDir)
  }

  lemma ExchangedSkeleton(t: Tree, a: RenameArgs)
    requires RenameError(t, a).None? && a.exchange
    ensures BothEnds(SkeletonOf(t.inodes), a.oldDir, a.oldName, a.newDir, a.newName)
    ensures SkeletonOf(Exchanged(t, a)) == Exchange(SkeletonOf(t.inodes), a.oldDir, a.oldName, a.newDir, a.newName)
  {
    var k, target := t.inodes[a.oldDir].entries[a.oldName], t.inodes[a.newDir].entries[a.newName];
    var m1 := Pointed(t.inodes, a.newDir, a.newName, k);
    var m2 := Pointed(m1, a.oldDir, a.oldName, target);
    var m3 := if IsDir(t.inodes[k]) then Pointed(m2, k, ".", a.newDir) else m2;
    PointedSkeleton(t.inodes, a.newDir, a.newName, k);
    PointedSkeleton(m1, a.oldDir, a.oldName, target);
    PointedSkeleton(m2, k, ".", a.newDir);
    PointedSkeleton(m3, target, "..", a.oldDir);
  }

  /** An exchange that succeeds keeps the tree good exactly when it is proper. */
  lemma ExchangeKeepsIff(t: Tree, a: RenameArgs)
    requires TreeInv(t) && RenameError(t, a).None? && a.exchange
    ensures TreeInv(Renamed(t, a)) <==> ExchangeIsProper(t, a)
  {
    MoveKeepsNumbers(t, a);
    ExchangedSkeleton(t, a);
    TreeMoves.ExchangeKeepsIff(SkeletonOf(t.inodes), a.oldDir, a.oldName, a.newDir, a.newName);
  }

  // ----- runs -----

  datatype Call =
    | Create(c: CreateArgs)
    | Link(l: LinkArgs)
    | Unlink(u: UnlinkArgs)
    | Rmdir(d: RmdirArgs)
    | Rename(r: RenameArgs)

  function Next(t: Tree, call: Call): Tree {
    match call
    case Create(a) => Created(t, a)
    case Link(a) => Linked(t, a)
    case Unlink(a) => Unlinked(t, a)
    case Rmdir(a) => Removed(t, a)
    case Rename(a) => Renamed(t, a)
  }

  function ErrorOf(t: Tree, call: Call): Option<DbfsError> {
    match call
    case Create(a) => CreateError(t, a)
    case Link(a) => LinkError(t, a)
    case Unlink(a) => UnlinkError(t, a)
    case Rmdir(a) => RmdirError(t, a)
    case Rename(a) => RenameError(t, a)
  }

  /** A call that fails changes no inode; any other must meet its condition. */
  ghost predicate Proper(t: Tree, call: Call) {
    ErrorOf(t, call).None? ==>
      match call
      case Create(a) => CreateProper(t, a)
      case Link(a) => LinkProper(t, a)
      case Unlink(a) => UnlinkProper(t, a)
      case Rmdir(a) => RmdirProper(t, a)
      case Rename(a) => if a.exchange then ExchangeIsProper(t, a) else MoveIsProper(t, a)
  }

  /** Every call keeps the tree good exactly when it is proper. */
  lemma StepKeepsIff(t: Tree, call: Call)
    requires TreeInv(t)
    ensures TreeInv(Next(t, call)) <==> Proper(t, call)
  {
    if ErrorOf(t, call).None? {
      match call
      case Create(a) => CreateKeepsIff(t, a);
      case Link(a) => LinkKeepsIff(t, a);
      case Unlink(a) => UnlinkKeepsIff(t, a);
      case Rmdir(a) => RmdirKeepsIff(t, a);
      case Rename(a) =>
        if a.exchange {
          ExchangeKeepsIff(t, a);
        } else {
          MoveKeepsIff(t, a);
        }
    }
  }

  function Run(t: Tree, calls: seq<Call>): Tree
    decreases |calls|
  {
    if calls == [] then t else Run(Next(t, calls[0]), calls[1..])
  }

  /** Every call of the run is proper in the tree that it meets. */
  ghost predicate ProperRun(t: Tree, calls: seq<Call>)
    decreases |calls|
  {
    calls == [] || (Proper(t, calls[0]) && ProperRun(Next(t, calls[0]), calls[1..]))
  }

  lemma {:induction false} RunKeepsInv(t: Tree, calls: seq<Call>)
    requires TreeInv(t) && ProperRun(t, calls)
    ensures TreeInv(Run(t, calls))
    decreases |calls|
  {
    if calls != [] {
      StepKeepsIff(t, calls[0]);
      RunKeepsInv(Next(t, calls[0]), calls[1..]);
    }
  }

  /** The first call that is not proper leaves a tree that is not good. */
  lemma {:induction false} RunBreaksIff(t: Tree, calls: seq<Call>)
    requires TreeInv(t)
    ensures ProperRun(t, calls) <==> forall k :: 0 <= k <= |calls| ==> TreeInv(Run(t, calls[..k]))
    decreases |calls|
  {
    if ProperRun(t, calls) {
      forall k | 0 <= k <= |calls| ensures TreeInv(Run(t, calls[..k])) {
        ProperPrefix(t, calls, k);
        RunKeepsInv(t, calls[..k]);
      }
    } else {
      var next := Next(t, calls[0]);
      StepKeepsIff(t, calls[0]);
      if Proper(t, calls[0]) {
        RunBreaksIff(next, calls[1..]);
        var k :| 0 <= k <= |calls[1..]| && !TreeInv(Run(next, calls[1..][..k]));
        assert calls[..k + 1][1..] == calls[1..][..k] && calls[..k + 1][0] == calls[0];
        assert !TreeInv(Run(t, calls[..k + 1]));
      } else {
        assert calls[..1] == [calls[0]] && [calls[0]][1..] == [];
        assert Run(next, []) == next;
        assert !TreeInv(Run(t, calls[..1]));
      }
    }
  }

  lemma {:induction false} ProperPrefix(t: Tree, calls: seq<Call>, k: nat)
    requires ProperRun(t, calls) && k <= |calls|
    ensures ProperRun(t, calls[..k])
    decreases k
  {
    if k != 0 {
      assert calls[..k][0] == calls[0] && calls[..k][1..] == calls[1..][..k - 1];
      ProperPrefix(Next(t, calls[0]), calls[1..], k - 1);
    }
  }

  // ----- what every reachable tree promises -----

  /** The named entries that name an inode, read from the tree itself. */
  ghost function EntriesNaming(t: Tree, i: nat): set<(nat, string)> {
    set d: nat, n: string |
      d in t.inodes && n in t.inodes[d].entries && !IsDot(n) && t.inodes[d].entries[n] == i :: (d, n)
  }

  lemma SameLinks(t: Tree, i: nat)
    ensures EntriesNaming(t, i) == Links(SkeletonOf(t.inodes), i)
  {
    var m := SkeletonOf(t.inodes);
    forall e ensures e in EntriesNaming(t, i) <==> e in Links(m, i) {
      if e in EntriesNaming(t, i) {
        assert e.1 in m[e.0].entries;
      }
      if e in Links(m, i) {
        assert e.1 in t.inodes[e.0].entries;
      }
    }
  }

  /** A file has as many links as entries that name it; a directory's size is the number of its entries; no
      entry dangles. */
  lemma CountsAgree(mode: bv16, uid: nat, gid: nat, calls: seq<Call>, i: nat)
    requires Contains(mode, S_IFDIR) && ProperRun(Base(mode, uid, gid), calls)
    requires i in Run(Base(mode, uid, gid), calls).inodes
    ensures var t := Run(Base(mode, uid, gid), calls);
      var n := t.inodes[i];
      && (!IsDir(n) ==> 0 < n.hardLinks == |EntriesNaming(t, i)| && n.entries == map[])
      && (IsDir(n) ==> n.size == |n.entries|)
      && (forall s :: s in n.entries ==> n.entries[s] in t.inodes)
  {
    BaseInv(mode, uid, gid);
    RunKeepsInv(Base(mode, uid, gid), calls);
    var t := Run(Base(mode, uid, gid), calls);
    var m := SkeletonOf(t.inodes);
    SameLinks(t, i);
    assert NodeInv(m, i);
    forall s | s in t.inodes[i].entries ensures t.inodes[i].entries[s] in t.inodes {
      EntriesNameInodes(m, i, s);
    }
  }

  /** Each directory but the root has exactly one named entry, in the directory that its `..` names, and
      following `..` leads to the root. */
  lemma DirectoriesFormATree(mode: bv16, uid: nat, gid: nat, calls: seq<Call>, i: nat)
    requires Contains(mode, S_IFDIR) && ProperRun(Base(mode, uid, gid), calls)
    requires var t := Run(Base(mode, uid, gid), calls); i in t.inodes && IsDir(t.inodes[i])
    ensures var t := Run(Base(mode, uid, gid), calls);
      && "." in t.inodes[i].entries && t.inodes[i].entries["."] == i
      && (if i == ROOT then EntriesNaming(t, i) == {} && ".." !in t.inodes[i].entries
          else ".." in t.inodes[i].entries && exists n :: EntriesNaming(t, i) == {(t.inodes[i].entries[".."], n)})
      && exists k: nat :: ReachesRoot(SkeletonOf(t.inodes), i, k)
  {
    BaseInv(mode, uid, gid);
    RunKeepsInv(Base(mode, uid, gid), calls);
    var t := Run(Base(mode, uid, gid), calls);
    SameLinks(t, i);
    assert NodeInv(SkeletonOf(t.inodes), i);
    assert Connected(SkeletonOf(t.inodes), i);
  }

  /** A proper call deletes a file's inode exactly when it takes the last entry that names it. */
  lemma FileGoesWithItsLastEntry(t: Tree, call: Call, i: nat)
    requires TreeInv(t) && Proper(t, call) && i in t.inodes && !IsDir(t.inodes[i])
    ensures i !in Next(t, call).inodes <==> EntriesNaming(Next(t, call), i) == {}
  {
    StepKeepsIff(t, call);
    SameLinks(Next(t, call), i);
    assert NodeInv(SkeletonOf(Next(t, call).inodes), i);
    assert i != ROOT;
  }

  /** Creating a block device breaks the counts: its kind contains the directory bit. */
  lemma BlockDeviceBreaksTheTree(t: Tree, a: CreateArgs)
    requires TreeInv(t) && CreateError(t, a).None? && a.perm == S_IFBLK
    ensures !TreeInv(Created(t, a))
  {
    CreateKeepsIff(t, a);
  }
}
