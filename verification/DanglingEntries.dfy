/** Exactly when directory entries can dangle, wherever the power fails: src/rvfs_adapter.rs over
    src/tx_engine.rs. */
module DanglingEntries {
  import opened Common
  import opened ExtentEngine
  import opened VfsAdapter

  type Entry = (nat, string)

  /** The entries that name an inode, as pairs of directory and name. */
  ghost function Naming(x: Index, ino: nat): set<Entry> {
    set d: nat, n: string | d in x.dirs && n in x.dirs[d] && x.dirs[d][n] == ino :: (d, n)
  }

  /** Those of `ns` that do not go away with inode `ino` itself, whose bucket holds its own entries. */
  ghost function Outside(ns: set<Entry>, ino: nat): set<Entry> {
    set e | e in ns && e.0 != ino
  }

  /** Every entry names an inode in the table. */
  ghost predicate NoDangling(x: Index) {
    forall d, n :: d in x.dirs && n in x.dirs[d] ==> x.dirs[d][n] in x.inodes
  }

  // ----- the states from which nothing dangles -----

  /** Inode `ino`, with entries `ns` and `links` links, cannot be deleted while an entry outside it names it. */
  ghost predicate Sound(ns: set<Entry>, ino: nat, links: nat) {
    Outside(ns, ino) == {} || |ns| <= 1 || (|ns| <= links && |Outside(ns, ino)| <= 1)
  }

  ghost predicate SoundAt(x: Index, i: nat) {
    if i in x.inodes then x.inodes[i].ino == i && Sound(Naming(x, i), i, x.inodes[i].nlink) else Naming(x, i) == {}
  }

  ghost predicate Settled(x: Index) {
    forall i :: SoundAt(x, i)
  }

  /** Each inode is stored under its own number. */
  ghost predicate Keyed(x: Index) {
    forall i :: i in x.inodes ==> x.inodes[i].ino == i
  }

  // ----- sets -----

  lemma Fewer<T>(a: set<T>, b: set<T>)
    requires a <= b
    ensures |a| <= |b|
  {
    assert b == a + (b - a);
  }

  lemma OneFewer<T>(a: set<T>, t: T)
    requires t in a
    ensures |a - {t}| == |a| - 1
  {
  }

  lemma OneMore<T>(a: set<T>, t: T)
    requires t !in a
    ensures |a + {t}| == |a| + 1
  {
  }

  lemma Alone<T>(a: set<T>, t: T)
    requires t in a && |a| <= 1
    ensures a == {t}
  {
    OneFewer(a, t);
    assert a == (a - {t}) + {t};
  }

  /** A set of at least two has an element other than `t`. */
  lemma Another<T>(a: set<T>, t: T) returns (u: T)
    requires 2 <= |a|
    ensures u in a && u != t
  {
    if t in a {
      OneFewer(a, t);
    }
    assert a - {t} != {} by {
      if a - {t} == {} {
        Fewer(a, {t});
      }
    }
    u :| u in a - {t};
  }

  /** Losing entries and keeping links keeps an inode sound. */
  lemma FewerIsSound(ns: set<Entry>, ns': set<Entry>, i: nat, links: nat)
    requires ns' <= ns && Sound(ns, i, links)
    ensures Sound(ns', i, links)
  {
    assert Outside(ns', i) <= Outside(ns, i);
    Fewer(ns', ns);
    Fewer(Outside(ns', i), Outside(ns, i));
  }

  // ----- how the entries that name an inode change -----

  lemma NamingAfterAdd(x: Index, parent: nat, name: string, child: nat, i: nat)
    ensures Naming(AddEntry(x, parent, name, child), i)
         == (Naming(x, i) - {(parent, name)}) + if i == child then {(parent, name)} else {}
  {
  }

  lemma NamingAfterDrop(x: Index, parent: nat, name: string, i: nat)
    ensures Naming(DropEntry(x, parent, name), i) == Naming(x, i) - {(parent, name)}
  {
  }

  lemma NamingAfterDropInode(x: Index, ino: nat, i: nat)
    ensures Naming(DropInode(x, ino), i) == Outside(Naming(x, i), ino)
  {
  }

  lemma NamingAfterSet(x: Index, ino: nat, m: Meta, i: nat)
    ensures Naming(SetInode(x, ino, m), i) == Naming(x, i)
  {
  }

  lemma EntryIsNaming(x: Index, parent: nat, name: string)
    requires name in Entries(x, parent)
    ensures (parent, name) in Naming(x, Entries(x, parent)[name])
  {
  }

  // ----- each transaction -----

  lemma DropKeeps(x: Index, parent: nat, name: string)
    requires Settled(x)
    ensures Settled(DropEntry(x, parent, name))
  {
    var y := DropEntry(x, parent, name);
    forall i ensures SoundAt(y, i) {
      assert SoundAt(x, i);
      NamingAfterDrop(x, parent, name, i);
      if i in x.inodes {
        FewerIsSound(Naming(x, i), Naming(y, i), i, x.inodes[i].nlink);
      }
    }
  }

  lemma DropInodeKeeps(x: Index, ino: nat)
    requires Settled(x) && Outside(Naming(x, ino), ino) == {}
    ensures Settled(DropInode(x, ino))
  {
    var y := DropInode(x, ino);
    forall i ensures SoundAt(y, i) {
      assert SoundAt(x, i);
      NamingAfterDropInode(x, ino, i);
      if i in y.inodes {
        FewerIsSound(Naming(x, i), Naming(y, i), i, x.inodes[i].nlink);
      }
    }
  }

  lemma SetKeeps(x: Index, ino: nat, m: Meta)
    requires Settled(x) && ino in x.inodes && m.ino == ino && Sound(Naming(x, ino), ino, m.nlink)
    ensures Settled(SetInode(x, ino, m))
  {
    var y := SetInode(x, ino, m);
    forall i ensures SoundAt(y, i) {
      assert SoundAt(x, i);
      NamingAfterSet(x, ino, m, i);
    }
  }

  lemma AllocateKeeps(x: Index, mode: bv32)
    requires Settled(x)
    ensures Settled(Allocated(x, mode)) && Naming(Allocated(x, mode), NextNumber(x.inodes)) == {}
  {
    var y, n := Allocated(x, mode), NextNumber(x.inodes);
    forall i ensures SoundAt(y, i) && Naming(y, i) == Naming(x, i) {
      assert SoundAt(x, i);
      NamingAfterSet(x, n, FreshMeta(n, mode), i);
    }
    assert SoundAt(x, n);
  }

  /** An entry added to name `child` changes nothing else for the worse. */
  lemma AddKeepsIff(x: Index, parent: nat, name: string, child: nat)
    requires Settled(x) && child in x.inodes
    ensures Settled(AddEntry(x, parent, name, child))
       <==> Sound(Naming(x, child) + {(parent, name)}, child, x.inodes[child].nlink)
  {
    var y, e := AddEntry(x, parent, name, child), (parent, name);
    NamingAfterAdd(x, parent, name, child, child);
    assert (Naming(x, child) - {e}) + {e} == Naming(x, child) + {e};
    assert SoundAt(x, child);
    if SoundAt(y, child) {
      forall i ensures SoundAt(y, i) {
        assert SoundAt(x, i);
        NamingAfterAdd(x, parent, name, child, i);
        if i != child && i in x.inodes {
          FewerIsSound(Naming(x, i), Naming(y, i), i, x.inodes[i].nlink);
        }
      }
    }
  }

  // ----- create, mkdir, unlink, rmdir and set_attr -----

  lemma NewNodeKeeps(x: Index, parent: nat, name: string, mode: bv32, k: nat)
    requires Settled(x) && k < 2
    ensures Settled(NewNode(x, parent, name, mode)[k])
  {
    var y, n := Allocated(x, mode), NextNumber(x.inodes);
    AllocateKeeps(x, mode);
    AddKeepsIff(y, parent, name, n);
    assert {} + {(parent, name)} == {(parent, name)};
  }

  /** What is left of an inode's entries once one of them is dropped. */
  lemma DroppedNaming(x: Index, parent: nat, name: string)
    requires Settled(x) && name in Entries(x, parent)
    ensures var child, e, y := Entries(x, parent)[name], (parent, name), DropEntry(x, parent, name);
      && Settled(y) && child in x.inodes && x.inodes[child].ino == child
      && e in Naming(x, child) && Sound(Naming(x, child), child, x.inodes[child].nlink)
      && Naming(y, child) == Naming(x, child) - {e}
  {
    var child := Entries(x, parent)[name];
    EntryIsNaming(x, parent, name);
    assert SoundAt(x, child);
    DropKeeps(x, parent, name);
    NamingAfterDrop(x, parent, name, child);
  }

  /** Taking the last link of a sound inode leaves no entry outside it. */
  lemma LastLink(ns: set<Entry>, e: Entry, i: nat, links: nat)
    requires Sound(ns, i, links) && e in ns && links <= 1
    ensures Outside(ns - {e}, i) == {}
  {
    assert Outside(ns - {e}, i) <= Outside(ns, i);
    if Outside(ns, i) != {} {
      Alone(ns, e);
    }
  }

  lemma OneLinkLess(ns: set<Entry>, e: Entry, i: nat, links: nat)
    requires Sound(ns, i, links) && e in ns && 0 < links
    ensures Sound(ns - {e}, i, links - 1)
  {
    OneFewer(ns, e);
    assert Outside(ns - {e}, i) <= Outside(ns, i);
    Fewer(Outside(ns - {e}, i), Outside(ns, i));
  }

  lemma UnlinkKeeps(x: Index, op: VfsOp, k: nat)
    requires Settled(x) && op.Unlink? && k < |Trace(x, op)|
    ensures Settled(Trace(x, op)[k])
  {
    DroppedNaming(x, op.parent, op.name);
    var child, e, y := Entries(x, op.parent)[op.name], (op.parent, op.name), DropEntry(x, op.parent, op.name);
    var links := x.inodes[child].nlink;
    if links <= 1 {
      LastLink(Naming(x, child), e, child, links);
      DropInodeKeeps(y, child);
    } else {
      OneLinkLess(Naming(x, child), e, child, links);
      SetKeeps(y, child, x.inodes[child].(nlink := links - 1));
    }
  }

  /** All entries of an inode whose own bucket is empty lie outside it, and a sound inode has at most one. */
  lemma EmptyHasOneEntry(x: Index, e: Entry, i: nat)
    requires Entries(x, i) == map[] && e in Naming(x, i) && i in x.inodes && Sound(Naming(x, i), i, x.inodes[i].nlink)
    ensures Naming(x, i) == {e}
  {
    var ns := Naming(x, i);
    assert Outside(ns, i) == ns by {
      forall f | f in ns ensures f.0 != i {
        assert f.1 in Entries(x, f.0);
      }
    }
    Alone(ns, e);
  }

  lemma RmdirKeeps(x: Index, op: VfsOp, k: nat)
    requires Settled(x) && op.Rmdir? && k < |Trace(x, op)|
    ensures Settled(Trace(x, op)[k])
  {
    DroppedNaming(x, op.parent, op.name);
    var child, e, y := Entries(x, op.parent)[op.name], (op.parent, op.name), DropEntry(x, op.parent, op.name);
    EmptyHasOneEntry(x, e, child);
    assert Naming(y, child) == {};
    DropInodeKeeps(y, child);
  }

  lemma SetAttrKeeps(x: Index, op: VfsOp)
    requires Settled(x) && op.SetAttr? && op.ino in x.inodes
    ensures Settled(Trace(x, op)[0])
  {
    assert SoundAt(x, op.ino);
    SetKeeps(x, op.ino, x.inodes[op.ino].(mode := op.mode, size := op.size));
  }

  // ----- rename -----

  /** When a whole rename is harmless: it only drops its entry, or the entry is the only one that names its
      inode, or moves into the inode's own bucket, or the inode has links for all its entries and no third
      entry outside it. */
  ghost predicate MoveProper(x: Index, op: VfsOp)
    requires op.RenameTo? && op.name in Entries(x, op.parent)
  {
    var i := Entries(x, op.parent)[op.name];
    var ns, from, to := Naming(x, i), (op.parent, op.name), (op.newParent, op.newName);
    || from == to
    || ns == {from}
    || op.newParent == i
    || (i in x.inodes && |ns| <= x.inodes[i].nlink && Outside(ns, i) <= {from, to})
  }

  /** When a rename that is cut after its first transaction is harmless: the new entry already named the inode,
      or the inode can bear one more. */
  ghost predicate CutProper(x: Index, op: VfsOp)
    requires op.RenameTo? && op.name in Entries(x, op.parent)
  {
    var i := Entries(x, op.parent)[op.name];
    var ns, to := Naming(x, i), (op.newParent, op.newName);
    var spare := i in x.inodes && |ns| < x.inodes[i].nlink;
    || to in ns
    || if op.newParent == i then spare || Outside(ns, i) == {} else spare && Outside(ns, i) == {}
  }

  lemma SoundWithOneMore(ns: set<Entry>, from: Entry, to: Entry, i: nat, links: nat)
    requires Sound(ns, i, links) && from in ns
    ensures Sound(ns + {to}, i, links) <==>
      (to in ns || if to.0 == i then |ns| < links || Outside(ns, i) == {} else |ns| < links && Outside(ns, i) == {})
  {
    if to in ns {
      assert ns + {to} == ns;
    } else {
      OneMore(ns, to);
      Fewer({from}, ns);
      OutsideWithOneMore(ns, to, i);
      Fewer(Outside(ns, i), ns);
    }
  }

  lemma OutsideWithOneMore(ns: set<Entry>, to: Entry, i: nat)
    requires to !in ns
    ensures to.0 == i ==> Outside(ns + {to}, i) == Outside(ns, i)
    ensures to.0 != i ==> |Outside(ns + {to}, i)| == |Outside(ns, i)| + 1
  {
    if to.0 == i {
      assert Outside(ns + {to}, i) == Outside(ns, i);
    } else {
      assert Outside(ns + {to}, i) == Outside(ns, i) + {to};
      OneMore(Outside(ns, i), to);
    }
  }

  /** An inode's entries after one of them has moved from `from` to `to`. */
  ghost function Shifted(ns: set<Entry>, from: Entry, to: Entry): set<Entry> {
    (ns + {to}) - {from}
  }

  lemma SoundAfterShift(ns: set<Entry>, from: Entry, to: Entry, i: nat, links: nat)
    requires Sound(ns, i, links) && from in ns && from != to
    ensures Sound(Shifted(ns, from, to), i, links) <==>
      (ns == {from} || to.0 == i || (|ns| <= links && Outside(ns, i) <= {from, to}))
  {
    if to.0 == i {
      SoundShiftedIn(ns, from, to, i, links);
    } else if ns == {from} {
      assert Shifted(ns, from, to) == {to};
    } else {
      SoundShiftedOut(ns, from, to, i, links);
    }
  }

  lemma SoundShiftedIn(ns: set<Entry>, from: Entry, to: Entry, i: nat, links: nat)
    requires Sound(ns, i, links) && from in ns && from != to && to.0 == i
    ensures Sound(Shifted(ns, from, to), i, links)
  {
    ShiftedSize(ns, from, to);
    assert Outside(Shifted(ns, from, to), i) <= Outside(ns, i);
    Fewer(Outside(Shifted(ns, from, to), i), Outside(ns, i));
  }

  lemma SoundShiftedOut(ns: set<Entry>, from: Entry, to: Entry, i: nat, links: nat)
    requires Sound(ns, i, links) && from in ns && from != to && to.0 != i && ns != {from}
    ensures Sound(Shifted(ns, from, to), i, links) <==> |ns| <= links && Outside(ns, i) <= {from, to}
  {
    var ns', out, out' := Shifted(ns, from, to), Outside(ns, i), Outside(Shifted(ns, from, to), i);
    ShiftedSize(ns, from, to);
    assert to in out' && out' == (out - {from}) + {to};
    OnlyThese(out, out', from, to);
    if |ns'| <= 1 {
      OneIsShifted(ns, from, to);
      assert to in out && |ns| <= links;
    }
  }

  lemma OneIsShifted(ns: set<Entry>, from: Entry, to: Entry)
    requires from in ns && from != to && ns != {from} && |Shifted(ns, from, to)| <= 1
    ensures ns == {from, to}
  {
    Alone(Shifted(ns, from, to), to);
    forall e | e in ns ensures e in {from, to} {
      assert e != from ==> e in Shifted(ns, from, to);
    }
    assert to in ns;
  }

  lemma ShiftedSize(ns: set<Entry>, from: Entry, to: Entry)
    requires from in ns && from != to
    ensures |Shifted(ns, from, to)| == if to in ns then |ns| - 1 else |ns|
  {
    if to in ns {
      assert ns + {to} == ns;
    } else {
      OneMore(ns, to);
    }
    OneFewer(ns + {to}, from);
  }

  lemma OnlyThese(out: set<Entry>, out': set<Entry>, from: Entry, to: Entry)
    requires out' == (out - {from}) + {to}
    ensures |out'| <= 1 <==> out <= {from, to}
  {
    if |out'| <= 1 {
      Alone(out', to);
      assert out <= out' + {from};
    } else if out <= {from, to} {
      assert out' <= {to};
      Fewer(out', {to});
    }
  }

  /** After both transactions, each inode has the entries that it had, or fewer, and the moved one's shifted. */
  lemma MoveKeepsIff(x: Index, op: VfsOp)
    requires Settled(x) && op.RenameTo? && op.name in Entries(x, op.parent)
    ensures Settled(Trace(x, op)[1]) <==> MoveProper(x, op)
  {
    DroppedNaming(x, op.parent, op.name);
    var i, from, to := Entries(x, op.parent)[op.name], (op.parent, op.name), (op.newParent, op.newName);
    var added := AddEntry(x, op.newParent, op.newName, i);
    var y := DropEntry(added, op.parent, op.name);
    NamingAfterMove(x, op, i);
    if from == to {
      assert Shifted(Naming(x, i), from, to) == Naming(x, i) - {from};
      FewerIsSound(Naming(x, i), Naming(y, i), i, x.inodes[i].nlink);
    } else {
      SoundAfterShift(Naming(x, i), from, to, i, x.inodes[i].nlink);
    }
    if SoundAt(y, i) {
      forall j ensures SoundAt(y, j) {
        assert SoundAt(x, j);
        NamingAfterMove(x, op, j);
        if j != i && j in x.inodes {
          FewerIsSound(Naming(x, j), Naming(y, j), j, x.inodes[j].nlink);
        }
      }
    }
  }

  lemma NamingAfterMove(x: Index, op: VfsOp, j: nat)
    requires op.RenameTo? && op.name in Entries(x, op.parent)
    ensures var i, from, to := Entries(x, op.parent)[op.name], (op.parent, op.name), (op.newParent, op.newName);
      var ns := Naming(Trace(x, op)[1], j);
      && (j == i ==> ns == Shifted(Naming(x, i), from, to))
      && (j != i ==> ns <= Naming(x, j))
  {
    var i := Entries(x, op.parent)[op.name];
    NamingAfterAdd(x, op.newParent, op.newName, i, j);
    NamingAfterDrop(AddEntry(x, op.newParent, op.newName, i), op.parent, op.name, j);
  }

  lemma CutKeepsIff(x: Index, op: VfsOp)
    requires Settled(x) && op.RenameTo? && op.name in Entries(x, op.parent)
    ensures Settled(Trace(x, op)[0]) <==> CutProper(x, op)
  {
    DroppedNaming(x, op.parent, op.name);
    var i := Entries(x, op.parent)[op.name];
    AddKeepsIff(x, op.newParent, op.newName, i);
    SoundWithOneMore(Naming(x, i), (op.parent, op.name), (op.newParent, op.newName), i, x.inodes[i].nlink);
  }

  // ----- steps and runs -----

  /** What a step must meet: only renames can do harm. */
  ghost predicate Proper(x: Index, op: VfsOp, cut: nat) {
    op.RenameTo? && 0 < cut && op.name in Entries(x, op.parent) ==>
      if cut == 1 then CutProper(x, op) else MoveProper(x, op)
  }

  /** A step, cut after any of its transactions, keeps the index settled exactly when it is proper. */
  lemma StepKeepsIff(x: Index, op: VfsOp, cut: nat)
    requires Settled(x)
    ensures Settled(After(x, op, cut)) <==> Proper(x, op, cut)
  {
    var states := Trace(x, op);
    if cut != 0 && states != [] {
      var k: nat := if cut <= |states| then cut - 1 else |states| - 1;
      match op
      case Create(parent, name, perm) => NewNodeKeeps(x, parent, name, WithType(FILE_TYPE, perm), k);
      case Mkdir(parent, name, perm) => NewNodeKeeps(x, parent, name, WithType(DIR_TYPE, perm), k);
      case Unlink(_, _) => UnlinkKeeps(x, op, k);
      case Rmdir(_, _) => RmdirKeeps(x, op, k);
      case RenameTo(_, _, _, _) =>
        if k == 0 {
          CutKeepsIff(x, op);
        } else {
          MoveKeepsIff(x, op);
        }
      case SetAttr(_, _, _) => SetAttrKeeps(x, op);
    }
  }

  /** An operation, and how many of its transactions commit. */
  type Event = (VfsOp, nat)

  function Run(x: Index, ops: seq<Event>): Index
    decreases |ops|
  {
    if ops == [] then x else Run(After(x, ops[0].0, ops[0].1), ops[1..])
  }

  ghost predicate ProperRun(x: Index, ops: seq<Event>)
    decreases |ops|
  {
    ops == [] || (Proper(x, ops[0].0, ops[0].1) && ProperRun(After(x, ops[0].0, ops[0].1), ops[1..]))
  }

  lemma {:induction false} ProperRunSettles(x: Index, ops: seq<Event>)
    requires Settled(x) && ProperRun(x, ops)
    ensures Settled(Run(x, ops))
    decreases |ops|
  {
    if ops != [] {
      StepKeepsIff(x, ops[0].0, ops[0].1);
      ProperRunSettles(After(x, ops[0].0, ops[0].1), ops[1..]);
    }
  }

  lemma SettledHasNoDangling(x: Index)
    requires Settled(x)
    ensures NoDangling(x)
  {
    forall d, n | d in x.dirs && n in x.dirs[d] ensures x.dirs[d][n] in x.inodes {
      assert SoundAt(x, x.dirs[d][n]) && (d, n) in Naming(x, x.dirs[d][n]);
    }
  }

  lemma FormattedIsSettled()
    ensures Settled(Formatted())
  {
    var x := Formatted();
    forall i ensures SoundAt(x, i) {
      assert Naming(x, i) == if i == ROOT then {(ROOT, "."), (ROOT, "..")} else {};
      assert Outside(Naming(x, i), i) == {};
    }
  }

  // ----- from any other state a run without renames leads to a dangling entry -----

  ghost predicate RenameFree(ops: seq<Event>) {
    forall o :: o in ops ==> !o.0.RenameTo?
  }

  lemma {:induction false} RenameFreeIsProper(x: Index, ops: seq<Event>)
    requires RenameFree(ops)
    ensures ProperRun(x, ops)
    decreases |ops|
  {
    if ops != [] {
      assert ops[0] in ops;
      RenameFreeIsProper(After(x, ops[0].0, ops[0].1), ops[1..]);
    }
  }

  lemma RunOneMore(x: Index, o: Event, ops: seq<Event>)
    ensures Run(x, [o] + ops) == Run(After(x, o.0, o.1), ops)
    ensures !o.0.RenameTo? && RenameFree(ops) ==> RenameFree([o] + ops)
  {
    assert ([o] + ops)[0] == o && ([o] + ops)[1..] == ops;
  }

  /** Unlinking entry `e` of an inode, for good. */
  lemma AfterUnlink(x: Index, e: Entry, i: nat)
    requires Keyed(x) && i in x.inodes && e in Naming(x, i)
    ensures var y, links := After(x, Unlink(e.0, e.1), 2), x.inodes[i].nlink;
      && Keyed(y)
      && (links <= 1 ==> i !in y.inodes && Naming(y, i) == Outside(Naming(x, i) - {e}, i))
      && (1 < links ==> i in y.inodes && y.inodes[i].nlink == links - 1 && Naming(y, i) == Naming(x, i) - {e})
  {
    var dropped, links := DropEntry(x, e.0, e.1), x.inodes[i].nlink;
    NamingAfterDrop(x, e.0, e.1, i);
    NamingAfterDropInode(dropped, i, i);
    NamingAfterSet(dropped, i, x.inodes[i].(nlink := if links <= 1 then 0 else links - 1), i);
  }

  /** An inode with more entries than links, one of them outside it: unlinking the others deletes it. */
  lemma {:induction false} UnlinksDangle(x: Index, i: nat, o: Entry) returns (ops: seq<Event>)
    requires Keyed(x) && i in x.inodes && o in Naming(x, i) && o.0 != i
    requires 2 <= |Naming(x, i)| && x.inodes[i].nlink < |Naming(x, i)|
    ensures RenameFree(ops) && !NoDangling(Run(x, ops))
    decreases x.inodes[i].nlink
  {
    var e := Another(Naming(x, i), o);
    var call: Event := (Unlink(e.0, e.1), 2);
    var y := After(x, call.0, 2);
    AfterUnlink(x, e, i);
    OneFewer(Naming(x, i), e);
    if x.inodes[i].nlink <= 1 {
      assert o in Naming(y, i);
      assert Run(y, []) == y;
      ops := [];
    } else {
      ops := UnlinksDangle(y, i, o);
    }
    RunOneMore(x, call, ops);
    ops := [call] + ops;
  }

  lemma AfterRmdir(x: Index, e: Entry, i: nat)
    requires i in x.inodes && IsDir(x.inodes[i]) && Entries(x, i) == map[] && e in Naming(x, i)
    ensures var y := After(x, Rmdir(e.0, e.1), 2);
      i !in y.inodes && Naming(y, i) == Outside(Naming(x, i) - {e}, i)
  {
    NamingAfterDrop(x, e.0, e.1, i);
    NamingAfterDropInode(DropEntry(x, e.0, e.1), i, i);
  }

  /** A directory that two entries outside it name: emptying it entry by entry lets rmdir remove it. */
  lemma {:induction false} EmptyingDangles(x: Index, i: nat, e: Entry, o: Entry) returns (ops: seq<Event>)
    requires i in x.inodes && IsDir(x.inodes[i])
    requires e in Naming(x, i) && o in Naming(x, i) && e != o && e.0 != i && o.0 != i
    ensures RenameFree(ops) && !NoDangling(Run(x, ops))
    decreases |Entries(x, i)|
  {
    if Entries(x, i) == map[] {
      var call: Event := (Rmdir(e.0, e.1), 2);
      var y := After(x, call.0, 2);
      AfterRmdir(x, e, i);
      assert o in Naming(y, i);
      RunOneMore(x, call, []);
      assert Run(y, []) == y;
      ops := [call] + [];
    } else {
      var n :| n in Entries(x, i);
      var call: Event := (Unlink(i, n), 1);
      var y := After(x, call.0, 1);
      assert y == DropEntry(x, i, n);
      NamingAfterDrop(x, i, n, i);
      SmallerMap(Entries(x, i), n);
      ops := EmptyingDangles(y, i, e, o);
      RunOneMore(x, call, ops);
      ops := [call] + ops;
    }
  }

  lemma SmallerMap(m: map<string, nat>, n: string)
    requires n in m
    ensures |m - {n}| < |m|
  {
    assert m == (m - {n})[n := m[n]];
    assert (m - {n}).Keys == m.Keys - {n};
    assert |m - {n}| == |(m - {n}).Keys| && |m| == |m.Keys|;
  }

  lemma TwoOutsideDangle(x: Index, i: nat) returns (ops: seq<Event>)
    requires Keyed(x) && i in x.inodes && 2 <= |Outside(Naming(x, i), i)|
    ensures RenameFree(ops) && !NoDangling(Run(x, ops))
  {
    var out := Outside(Naming(x, i), i);
    var e :| e in out;
    var o := Another(out, e);
    var call: Event := (SetAttr(i, DIR_TYPE, 0), 1);
    var y := After(x, call.0, 1);
    assert y == SetInode(x, i, x.inodes[i].(mode := DIR_TYPE, size := 0));
    NamingAfterSet(x, i, x.inodes[i].(mode := DIR_TYPE, size := 0), i);
    ops := EmptyingDangles(y, i, e, o);
    RunOneMore(x, call, ops);
    ops := [call] + ops;
  }

  lemma UnsettledDangles(x: Index) returns (ops: seq<Event>)
    requires Keyed(x) && !Settled(x)
    ensures RenameFree(ops) && !NoDangling(Run(x, ops))
  {
    var i :| !SoundAt(x, i);
    var ns := Naming(x, i);
    if i !in x.inodes {
      var e :| e in ns;
      assert e.1 in x.dirs[e.0];
      ops := [];
    } else if x.inodes[i].nlink < |ns| {
      var o :| o in Outside(ns, i);
      ops := UnlinksDangle(x, i, o);
    } else {
      ops := TwoOutsideDangle(x, i);
    }
  }

  /** The settled indexes are exactly those from which no run of operations other than renames, each cut after
      any of its transactions, leads to a dangling entry. */
  lemma SettledIffNothingDangles(x: Index)
    requires Keyed(x)
    ensures Settled(x) <==> forall ops :: RenameFree(ops) ==> NoDangling(Run(x, ops))
  {
    if Settled(x) {
      forall ops | RenameFree(ops) ensures NoDangling(Run(x, ops)) {
        RenameFreeIsProper(x, ops);
        ProperRunSettles(x, ops);
        SettledHasNoDangling(Run(x, ops));
      }
    } else {
      var ops := UnsettledDangles(x);
      assert !NoDangling(Run(x, ops));
    }
  }

  // ----- main results -----

  /** Over all proper runs from a formatted device, with a power failure between any two transactions, no entry
      dangles. */
  lemma EntriesNeverDangle(ops: seq<Event>)
    requires ProperRun(Formatted(), ops)
    ensures NoDangling(Run(Formatted(), ops))
  {
    FormattedIsSettled();
    ProperRunSettles(Formatted(), ops);
    SettledHasNoDangling(Run(Formatted(), ops));
  }

  /** A rename that is not proper leaves an index from which operations without renames reach a dangling entry. */
  lemma {:induction false} ImproperRunCanDangle(x: Index, ops: seq<Event>) returns (k: nat, more: seq<Event>)
    requires Settled(x) && !ProperRun(x, ops)
    ensures k <= |ops| && RenameFree(more) && !NoDangling(Run(Run(x, ops[..k]), more))
    decreases |ops|
  {
    var y := After(x, ops[0].0, ops[0].1);
    StepKeepsIff(x, ops[0].0, ops[0].1);
    if Proper(x, ops[0].0, ops[0].1) {
      k, more := ImproperRunCanDangle(y, ops[1..]);
      assert ops[..k + 1][0] == ops[0] && ops[..k + 1][1..] == ops[1..][..k];
      k := k + 1;
    } else {
      StepKeepsKeyed(x, ops[0].0, ops[0].1);
      more := UnsettledDangles(y);
      k := 1;
      assert ops[..1][0] == ops[0] && ops[..1][1..] == [];
      assert Run(y, []) == y;
    }
  }

  lemma StepKeepsKeyed(x: Index, op: VfsOp, cut: nat)
    requires Settled(x)
    ensures Keyed(After(x, op, cut))
  {
    assert forall i :: i in x.inodes ==> SoundAt(x, i);
  }

  // ----- when renames are whole -----

  /** No inode has more entries than links, none but the root has more than one link, and the root's entries
      are its own. */
  ghost predicate Tidy(x: Index) {
    Settled(x) && (forall i :: TidyAt(x, i))
  }

  ghost predicate TidyAt(x: Index, i: nat) {
    && (i in x.inodes ==> |Naming(x, i)| <= x.inodes[i].nlink && (i != ROOT ==> x.inodes[i].nlink <= 1))
    && (i == ROOT ==> Outside(Naming(x, i), i) == {})
  }

  /** A rename is one step, and does not move an entry of the root out of it. */
  predicate Whole(x: Index, op: VfsOp, cut: nat) {
    op.RenameTo? ==>
      && cut != 1
      && (op.name in Entries(x, op.parent) && Entries(x, op.parent)[op.name] == ROOT ==> op.newParent == ROOT)
  }

  lemma WholeIsProper(x: Index, op: VfsOp, cut: nat)
    requires Tidy(x) && Whole(x, op, cut)
    ensures Proper(x, op, cut)
  {
    if op.RenameTo? && op.name in Entries(x, op.parent) {
      var i, from := Entries(x, op.parent)[op.name], (op.parent, op.name);
      DroppedNaming(x, op.parent, op.name);
      assert TidyAt(x, i);
      if i != ROOT {
        Alone(Naming(x, i), from);
      }
    }
  }

  /** `y` gives inode `i` no more entries than `x` does, and the links that it has in `x`. */
  lemma FewerIsTidy(x: Index, y: Index, i: nat)
    requires TidyAt(x, i) && Naming(y, i) <= Naming(x, i)
    requires i in y.inodes ==> i in x.inodes && y.inodes[i].nlink == x.inodes[i].nlink
    ensures TidyAt(y, i)
  {
    Fewer(Naming(y, i), Naming(x, i));
    assert Outside(Naming(y, i), i) <= Outside(Naming(x, i), i);
  }

  lemma NewNodeIsTidy(x: Index, parent: nat, name: string, mode: bv32, k: nat, i: nat)
    requires Tidy(x) && k < 2
    ensures TidyAt(NewNode(x, parent, name, mode)[k], i)
  {
    var y, z, n := Allocated(x, mode), NewNode(x, parent, name, mode)[1], NextNumber(x.inodes);
    NamingAfterSet(x, n, FreshMeta(n, mode), i);
    NamingAfterAdd(y, parent, name, n, i);
    assert TidyAt(x, i) && SoundAt(x, n);
    if i == n {
      assert Naming(y, i) == {} && Naming(z, i) == {(parent, name)};
      assert n != ROOT;
    } else {
      FewerIsTidy(x, y, i);
      FewerIsTidy(x, z, i);
    }
  }

  lemma UnlinkIsTidy(x: Index, op: VfsOp, k: nat, i: nat)
    requires Tidy(x) && op.Unlink? && k < |Trace(x, op)|
    ensures TidyAt(Trace(x, op)[k], i)
  {
    var child, y := Entries(x, op.parent)[op.name], DropEntry(x, op.parent, op.name);
    DroppedNaming(x, op.parent, op.name);
    NamingAfterDrop(x, op.parent, op.name, i);
    assert TidyAt(x, i);
    if k == 0 {
      FewerIsTidy(x, y, i);
    } else if x.inodes[child].nlink <= 1 {
      NamingAfterDropInode(y, child, i);
      FewerIsTidy(x, DropInode(y, child), i);
    } else {
      OneLinkLessIsTidy(x, y, child, (op.parent, op.name), i);
    }
  }

  lemma OneLinkLessIsTidy(x: Index, y: Index, child: nat, e: Entry, i: nat)
    requires child in x.inodes && y.inodes == x.inodes && 1 < x.inodes[child].nlink && TidyAt(x, i)
    requires e in Naming(x, child) && Naming(y, i) == Naming(x, i) - {e}
    ensures TidyAt(SetInode(y, child, x.inodes[child].(nlink := x.inodes[child].nlink - 1)), i)
  {
    var m := x.inodes[child].(nlink := x.inodes[child].nlink - 1);
    NamingAfterSet(y, child, m, i);
    if i == child {
      OneFewer(Naming(x, i), e);
      assert Outside(Naming(y, i), i) <= Outside(Naming(x, i), i);
    } else {
      FewerIsTidy(x, SetInode(y, child, m), i);
    }
  }

  lemma RmdirIsTidy(x: Index, op: VfsOp, k: nat, i: nat)
    requires Tidy(x) && op.Rmdir? && k < |Trace(x, op)|
    ensures TidyAt(Trace(x, op)[k], i)
  {
    var child, y := Entries(x, op.parent)[op.name], DropEntry(x, op.parent, op.name);
    NamingAfterDrop(x, op.parent, op.name, i);
    NamingAfterDropInode(y, child, i);
    assert TidyAt(x, i);
    FewerIsTidy(x, Trace(x, op)[k], i);
  }

  lemma MoveIsTidy(x: Index, op: VfsOp, i: nat)
    requires Tidy(x) && op.RenameTo? && op.name in Entries(x, op.parent) && Whole(x, op, 2)
    ensures TidyAt(Trace(x, op)[1], i)
  {
    var child, from, to := Entries(x, op.parent)[op.name], (op.parent, op.name), (op.newParent, op.newName);
    var z := Trace(x, op)[1];
    NamingAfterMove(x, op, i);
    EntryIsNaming(x, op.parent, op.name);
    assert TidyAt(x, i);
    if i == child && from != to {
      ShiftedSize(Naming(x, i), from, to);
      assert i == ROOT ==> Outside(Naming(z, i), i) <= Outside(Naming(x, i), i);
    } else {
      FewerIsTidy(x, z, i);
    }
  }

  lemma StepIsTidy(x: Index, op: VfsOp, cut: nat)
    requires Tidy(x) && Whole(x, op, cut)
    ensures Tidy(After(x, op, cut))
  {
    var states := Trace(x, op);
    WholeIsProper(x, op, cut);
    StepKeepsIff(x, op, cut);
    if cut != 0 && states != [] {
      var k: nat := if cut <= |states| then cut - 1 else |states| - 1;
      forall i ensures TidyAt(states[k], i) {
        match op
        case Create(parent, name, perm) => NewNodeIsTidy(x, parent, name, WithType(FILE_TYPE, perm), k, i);
        case Mkdir(parent, name, perm) => NewNodeIsTidy(x, parent, name, WithType(DIR_TYPE, perm), k, i);
        case Unlink(_, _) => UnlinkIsTidy(x, op, k, i);
        case Rmdir(_, _) => RmdirIsTidy(x, op, k, i);
        case RenameTo(_, _, _, _) => MoveIsTidy(x, op, i);
        case SetAttr(ino, mode, size) =>
          assert TidyAt(x, i) && SoundAt(x, ino);
          NamingAfterSet(x, ino, x.inodes[ino].(mode := mode, size := size), i);
          FewerIsTidy(x, states[k], i);
      }
    }
  }

  predicate WholeRun(x: Index, ops: seq<Event>)
    decreases |ops|
  {
    ops == [] || (Whole(x, ops[0].0, ops[0].1) && WholeRun(After(x, ops[0].0, ops[0].1), ops[1..]))
  }

  lemma {:induction false} WholeRunIsTidy(x: Index, ops: seq<Event>)
    requires Tidy(x) && WholeRun(x, ops)
    ensures Tidy(Run(x, ops)) && ProperRun(x, ops)
    decreases |ops|
  {
    if ops != [] {
      WholeIsProper(x, ops[0].0, ops[0].1);
      StepIsTidy(x, ops[0].0, ops[0].1);
      WholeRunIsTidy(After(x, ops[0].0, ops[0].1), ops[1..]);
    }
  }

  /** With every rename taken as one step, and the root's own entries kept in the root, runs are proper, and no
      inode ever has more entries than links. */
  lemma LinksCoverEntries(ops: seq<Event>, i: nat)
    requires WholeRun(Formatted(), ops)
    ensures ProperRun(Formatted(), ops)
    ensures var x := Run(Formatted(), ops); i in x.inodes ==> |Naming(x, i)| <= x.inodes[i].nlink
  {
    var x := Formatted();
    FormattedIsSettled();
    forall j ensures TidyAt(x, j) {
      assert Naming(x, j) == if j == ROOT then {(ROOT, "."), (ROOT, "..")} else {};
    }
    WholeRunIsTidy(x, ops);
    assert TidyAt(Run(x, ops), i);
  }

  // ----- why a run may contain no more -----

  /** A power failure inside a rename leaves two entries for an inode with one link; unlinking one of them
      makes the other dangle. */
  lemma CutRenameDangles(perm: bv32)
    ensures var a, b := "a", "b";
      !NoDangling(Run(Formatted(), [(Create(ROOT, a, perm), 2), (RenameTo(ROOT, a, ROOT, b), 1), (Unlink(ROOT, b), 2)]))
  {
    var a, b := "a", "b";
    var ops := [(Create(ROOT, a, perm), 2), (RenameTo(ROOT, a, ROOT, b), 1), (Unlink(ROOT, b), 2)];
    assert a[0] != b[0];
    var x0 := Formatted();
    assert NextNumber(x0.inodes) == 2;
    var x1 := After(x0, ops[0].0, 2);
    var x2 := After(x1, ops[1].0, 1);
    var x3 := After(x2, ops[2].0, 2);
    assert x3.dirs[ROOT][a] == 2 && 2 !in x3.inodes;
    RunThree(x0, ops);
  }

  lemma RunThree(x: Index, ops: seq<Event>)
    requires |ops| == 3
    ensures Run(x, ops)
         == After(After(After(x, ops[0].0, ops[0].1), ops[1].0, ops[1].1), ops[2].0, ops[2].1)
  {
    var x1 := After(x, ops[0].0, ops[0].1);
    var x2 := After(x1, ops[1].0, ops[1].1);
    assert ops[1..][0] == ops[1] && ops[1..][1..] == [ops[2]];
    assert Run(x2, [ops[2]]) == Run(After(x2, ops[2].0, ops[2].1), []);
  }

  /** If renames could move `.` and `..`, the root could be emptied into a subdirectory and removed there, with
      its other entry left behind. */
  lemma MovedDotsDangle(perm: bv32)
    ensures
      var x1 := After(Formatted(), Mkdir(ROOT, "a", perm), 2);
      var x2 := After(x1, RenameTo(ROOT, ".", 2, "x"), 2);
      var x3 := After(x2, RenameTo(ROOT, "..", 2, "y"), 2);
      var x4 := After(x3, RenameTo(ROOT, "a", 2, "z"), 2);
      !NoDangling(After(x4, Rmdir(2, "x"), 2))
  {
    var dot, dots, a, x, y, z := ".", "..", "a", "x", "y", "z";
    assert |dot| != |dots| && dot[0] != a[0] && dots[0] != a[0] && x[0] != y[0] && x[0] != z[0] && y[0] != z[0];
    var x0 := Formatted();
    assert NextNumber(x0.inodes) == 2;
    var x1 := After(x0, Mkdir(ROOT, a, perm), 2);
    var x2 := After(x1, RenameTo(ROOT, dot, 2, x), 2);
    var x3 := After(x2, RenameTo(ROOT, dots, 2, y), 2);
    var x4 := After(x3, RenameTo(ROOT, a, 2, z), 2);
    MoveOut(x1, dot, 2, x);
    MoveOut(x2, dots, 2, y);
    MoveOut(x3, a, 2, z);
    assert Entries(x4, ROOT) == map[];
    RootRemovedDangles(x4, 2, x, y);
  }

  /** A rename out of the root touches two entries. */
  lemma MoveOut(x: Index, name: string, q: nat, newName: string)
    requires name in Entries(x, ROOT) && q != ROOT
    ensures var y := After(x, RenameTo(ROOT, name, q, newName), 2);
      && y.inodes == x.inodes
      && Entries(y, ROOT) == Entries(x, ROOT) - {name}
      && Entries(y, q) == Entries(x, q)[newName := Entries(x, ROOT)[name]]
  {
  }

  lemma RootRemovedDangles(x: Index, d: nat, n: string, m: string)
    requires ROOT in x.inodes && IsDir(x.inodes[ROOT]) && Entries(x, ROOT) == map[] && d != ROOT && n != m
    requires n in Entries(x, d) && m in Entries(x, d) && Entries(x, d)[n] == ROOT && Entries(x, d)[m] == ROOT
    ensures !NoDangling(After(x, Rmdir(d, n), 2))
  {
    var y := After(x, Rmdir(d, n), 2);
    assert y == DropInode(DropEntry(x, d, n), ROOT);
    assert y.dirs[d][m] == ROOT && ROOT !in y.inodes;
  }

  /** Renaming an entry onto itself deletes it: it is added again first, and dropped afterwards. */
  lemma RenameOntoItselfDropsTheEntry(x: Index, parent: nat, name: string, cut: nat)
    requires name in Entries(x, parent) && 2 <= cut
    ensures name !in Entries(After(x, RenameTo(parent, name, parent, name), cut), parent)
  {
  }
}
