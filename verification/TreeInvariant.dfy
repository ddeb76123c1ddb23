/** What holds of every directory tree that proper calls build. */
module TreeInvariant {
  import opened Common

  /** What the shape of the tree depends on. */
  datatype Node = Node(isDir: bool, size: nat, hardLinks: nat, entries: map<string, nat>)

  type Skeleton = map<nat, Node>

  predicate IsDot(name: string) {
    name == "." || name == ".."
  }

  /** The named entries of an inode, leaving out every `.` and `..`. */
  ghost function Links(m: Skeleton, i: nat): set<(nat, string)> {
    set d: nat, n: string | d in m && n in m[d].entries && !IsDot(n) && m[d].entries[n] == i :: (d, n)
  }

  /** A file has no entries of its own, and as many links as entries that name it, at least one. */
  ghost predicate FileOk(m: Skeleton, i: nat)
    requires i in m
  {
    m[i].entries == map[] && 0 < m[i].hardLinks == |Links(m, i)|
  }

  /** A directory counts its entries, `.` is itself, and the one entry that names it is in the directory
      that `..` names. The root has neither an entry nor a `..`. */
  ghost predicate DirOk(m: Skeleton, i: nat)
    requires i in m
  {
    && m[i].hardLinks == 2
    && m[i].size == |m[i].entries|
    && "." in m[i].entries && m[i].entries["."] == i
    && if i == ROOT then Links(m, i) == {} && ".." !in m[i].entries
       else ".." in m[i].entries && exists n :: Links(m, i) == {(m[i].entries[".."], n)}
  }

  ghost predicate NodeOk(m: Skeleton, i: nat)
    requires i in m
  {
    if m[i].isDir then DirOk(m, i) else FileOk(m, i)
  }

  /** Every inode in the table is right, and no entry names one that is not there. */
  ghost predicate NodeInv(m: Skeleton, i: nat) {
    if i in m then NodeOk(m, i) else Links(m, i) == {}
  }

  /** Following `..` at most `k` times from `i` reaches the root. */
  predicate ReachesRoot(m: Skeleton, i: nat, k: nat)
    decreases k
  {
    i in m && (i == ROOT || (0 < k && ".." in m[i].entries && ReachesRoot(m, m[i].entries[".."], k - 1)))
  }

  ghost predicate Connected(m: Skeleton, i: nat) {
    exists k: nat :: ReachesRoot(m, i, k)
  }

  ghost predicate Inv(m: Skeleton) {
    && ROOT in m && m[ROOT].isDir
    && (forall i :: NodeInv(m, i))
    && (forall i :: i in m && m[i].isDir ==> Connected(m, i))
  }

  // ----- how links change -----

  /** Changes to anything but named entries change no links. */
  ghost predicate SameNamed(n: Node, n': Node) {
    forall s :: !IsDot(s) ==>
      (s in n.entries <==> s in n'.entries) && (s in n.entries && s in n'.entries ==> n.entries[s] == n'.entries[s])
  }

  lemma LinksSame(m: Skeleton, d: nat, n: Node, i: nat)
    requires d in m && SameNamed(m[d], n)
    ensures Links(m[d := n], i) == Links(m, i)
  {
    var m' := m[d := n];
    forall e | e in Links(m, i) ensures e in Links(m', i) {
      assert e.1 in m'[e.0].entries;
    }
    forall e | e in Links(m', i) ensures e in Links(m, i) {
      assert e.1 in m[e.0].entries;
    }
  }

  lemma LinksPut(m: Skeleton, d: nat, n: Node, name: string, k: nat, i: nat)
    requires d in m && n.entries == m[d].entries[name := k] && !IsDot(name)
    ensures Links(m[d := n], i) == (Links(m, i) - {(d, name)}) + if i == k then {(d, name)} else {}
  {
    var m' := m[d := n];
    forall e | e != (d, name) ensures e in Links(m', i) <==> e in Links(m, i) {
      if e in Links(m, i) {
        assert e.1 in m'[e.0].entries;
      }
      if e in Links(m', i) {
        assert e.1 in m[e.0].entries;
      }
    }
  }

  lemma LinksDrop(m: Skeleton, d: nat, n: Node, name: string, i: nat)
    requires d in m && n.entries == m[d].entries - {name} && !IsDot(name)
    ensures Links(m[d := n], i) == Links(m, i) - {(d, name)}
  {
    var m' := m[d := n];
    forall e | e != (d, name) ensures e in Links(m', i) <==> e in Links(m, i) {
      if e in Links(m, i) {
        assert e.1 in m'[e.0].entries;
      }
      if e in Links(m', i) {
        assert e.1 in m[e.0].entries;
      }
    }
  }

  /** An inode without named entries can come or go. */
  ghost predicate Nameless(n: Node) {
    forall s :: s in n.entries ==> IsDot(s)
  }

  lemma LinksAdd(m: Skeleton, j: nat, n: Node, i: nat)
    requires j !in m && Nameless(n)
    ensures Links(m[j := n], i) == Links(m, i)
  {
    var m' := m[j := n];
    forall e | e in Links(m, i) ensures e in Links(m', i) {
      assert e.1 in m'[e.0].entries;
    }
  }

  lemma LinksRemove(m: Skeleton, j: nat, i: nat)
    requires j in m && Nameless(m[j])
    ensures Links(m - {j}, i) == Links(m, i)
  {
    var m' := m - {j};
    forall e | e in Links(m, i) ensures e in Links(m', i) {
      assert e.0 != j;
      assert e.1 in m'[e.0].entries;
    }
  }

  lemma LinkIsIn(m: Skeleton, d: nat, name: string)
    requires d in m && name in m[d].entries && !IsDot(name)
    ensures (d, name) in Links(m, m[d].entries[name])
  {
  }

  /** In a good tree every entry names an inode, and only directories have entries. */
  lemma EntriesNameInodes(m: Skeleton, d: nat, name: string)
    requires Inv(m) && d in m && name in m[d].entries
    ensures m[d].isDir && m[d].entries[name] in m
  {
    assert NodeInv(m, d);
    if !IsDot(name) {
      LinkIsIn(m, d, name);
      assert NodeInv(m, m[d].entries[name]);
    } else if name == ".." {
      ParentHolds(m, d);
    }
  }

  /** The entry that names a directory lies in the directory's parent. */
  lemma ParentHolds(m: Skeleton, i: nat)
    requires Inv(m) && i in m && i != ROOT && m[i].isDir
    ensures ".." in m[i].entries
    ensures var p := m[i].entries[".."];
      p in m && m[p].isDir
      && exists n :: Links(m, i) == {(p, n)} && !IsDot(n) && n in m[p].entries && m[p].entries[n] == i
  {
    assert NodeInv(m, i);
    var p := m[i].entries[".."];
    var n :| Links(m, i) == {(p, n)};
    assert (p, n) in Links(m, i);
    assert NodeInv(m, p);
  }

  /** A directory's only entry is the one that was just looked up. */
  lemma OnlyEntry(m: Skeleton, d: nat, name: string)
    requires Inv(m) && d in m && name in m[d].entries && !IsDot(name)
    requires m[d].entries[name] in m && m[m[d].entries[name]].isDir
    ensures var i := m[d].entries[name];
      i != ROOT && Links(m, i) == {(d, name)} && ".." in m[i].entries && m[i].entries[".."] == d
  {
    var i := m[d].entries[name];
    LinkIsIn(m, d, name);
    assert NodeInv(m, i);
    ParentHolds(m, i);
  }

  // ----- sizes -----

  lemma SizeAfterPut(es: map<string, nat>, name: string, k: nat)
    ensures |es[name := k]| == |es| + if name in es then 0 else 1
  {
    assert es[name := k].Keys == es.Keys + {name};
    if name in es {
      assert es.Keys + {name} == es.Keys;
    }
    assert |es[name := k]| == |es[name := k].Keys| && |es| == |es.Keys|;
  }

  lemma SizeAfterDrop(es: map<string, nat>, name: string)
    requires name in es
    ensures |es - {name}| == |es| - 1
  {
    assert (es - {name}).Keys == es.Keys - {name};
    assert |es - {name}| == |(es - {name}).Keys| && |es| == |es.Keys|;
  }

  /** A directory of size at most 2, other than the root, holds `.` and `..` only. */
  lemma EmptyIsNameless(m: Skeleton, i: nat)
    requires Inv(m) && i in m && m[i].isDir && i != ROOT && m[i].size <= 2
    ensures Nameless(m[i])
  {
    assert NodeInv(m, i);
    var es := m[i].entries;
    assert |es| == |es.Keys|;
    forall s | s in es ensures IsDot(s) {
      if !IsDot(s) {
        SizeOfThree(es.Keys, ".", "..", s);
      }
    }
  }

  lemma SizeOfThree<T>(s: set<T>, a: T, b: T, c: T)
    requires a in s && b in s && c in s && a != b && b != c && a != c
    ensures 3 <= |s|
  {
    assert |{a, b, c}| == 3;
    assert s == {a, b, c} + (s - {a, b, c});
  }

  // ----- reaching the root -----

  lemma {:induction false} ReachFurther(m: Skeleton, i: nat, k: nat, l: nat)
    requires ReachesRoot(m, i, k) && k <= l
    ensures ReachesRoot(m, i, l)
    decreases k
  {
    if i != ROOT {
      ReachFurther(m, m[i].entries[".."], k - 1, l - 1);
    }
  }

  /** Directories that stay keep their parent, which stays too. */
  ghost predicate KeepsParents(m: Skeleton, m': Skeleton) {
    && ROOT in m'
    && forall j :: j in m && j in m' && ".." in m[j].entries ==>
         && m[j].entries[".."] in m'
         && ".." in m'[j].entries && m'[j].entries[".."] == m[j].entries[".."]
  }

  lemma {:induction false} ReachKept(m: Skeleton, m': Skeleton, i: nat, k: nat)
    requires ReachesRoot(m, i, k) && i in m' && KeepsParents(m, m')
    ensures ReachesRoot(m', i, k)
    decreases k
  {
    if i != ROOT {
      ReachKept(m, m', m[i].entries[".."], k - 1);
    }
  }

  lemma ConnectedKept(m: Skeleton, m': Skeleton, i: nat)
    requires Connected(m, i) && i in m' && KeepsParents(m, m')
    ensures Connected(m', i)
  {
    var k: nat :| ReachesRoot(m, i, k);
    ReachKept(m, m', i, k);
  }

  lemma ConnectedThrough(m: Skeleton, i: nat)
    requires i in m && ".." in m[i].entries && Connected(m, m[i].entries[".."])
    ensures Connected(m, i)
  {
    var k: nat :| ReachesRoot(m, m[i].entries[".."], k);
    assert ReachesRoot(m, i, k + 1);
  }

  // ----- below a directory -----

  /** Following `..` at most `k` times from `d` meets `m0`. */
  predicate Meets(m: Skeleton, d: nat, m0: nat, k: nat)
    decreases k
  {
    d == m0 || (0 < k && d in m && ".." in m[d].entries && Meets(m, m[d].entries[".."], m0, k - 1))
  }

  /** `d` is `m0` or lies below it. */
  ghost predicate Under(m: Skeleton, d: nat, m0: nat) {
    exists k: nat :: Meets(m, d, m0, k)
  }

  lemma {:induction false} MeetsFurther(m: Skeleton, d: nat, m0: nat, k: nat, l: nat)
    requires Meets(m, d, m0, k) && k <= l
    ensures Meets(m, d, m0, l)
    decreases k
  {
    if d != m0 {
      MeetsFurther(m, m[d].entries[".."], m0, k - 1, l - 1);
    }
  }

  lemma UnderParent(m: Skeleton, d: nat, m0: nat)
    requires d in m && ".." in m[d].entries && Under(m, m[d].entries[".."], m0)
    ensures Under(m, d, m0)
  {
    var k: nat :| Meets(m, m[d].entries[".."], m0, k);
    assert Meets(m, d, m0, k + 1);
  }

  /** Moving directory `j` to a parent that is not below it changes one `..`; everything still reaches the root. */
  ghost predicate Reparents(m: Skeleton, m': Skeleton, j: nat, p: nat) {
    && ROOT in m'
    && j in m' && ".." in m'[j].entries && m'[j].entries[".."] == p
    && forall i :: i in m && i in m' && i != j && ".." in m[i].entries ==>
         && m[i].entries[".."] in m'
         && ".." in m'[i].entries && m'[i].entries[".."] == m[i].entries[".."]
  }

  lemma {:induction false} ReachNotUnder(m: Skeleton, m': Skeleton, j: nat, p: nat, d: nat, k: nat)
    requires ReachesRoot(m, d, k) && d in m' && Reparents(m, m', j, p) && !Under(m, d, j)
    ensures ReachesRoot(m', d, k)
    decreases k
  {
    if d == j {
      assert Meets(m, d, j, 0);
    } else if d != ROOT {
      if Under(m, m[d].entries[".."], j) {
        UnderParent(m, d, j);
      }
      ReachNotUnder(m, m', j, p, m[d].entries[".."], k - 1);
    }
  }

  lemma {:induction false} ReachAfterMove(m: Skeleton, m': Skeleton, j: nat, p: nat, i: nat, k: nat)
    requires ReachesRoot(m, i, k) && i in m' && Reparents(m, m', j, p) && Connected(m', p)
    ensures Connected(m', i)
    decreases k
  {
    if i == j {
      ConnectedThrough(m', j);
    } else if i == ROOT {
      assert ReachesRoot(m', i, 0);
    } else {
      ReachAfterMove(m, m', j, p, m[i].entries[".."], k - 1);
      ConnectedThrough(m', i);
    }
  }

  lemma MoveKeepsConnected(m: Skeleton, m': Skeleton, j: nat, p: nat, i: nat)
    requires Connected(m, i) && i in m' && Reparents(m, m', j, p)
    requires Connected(m, p) && p in m' && !Under(m, p, j)
    ensures Connected(m', i)
  {
    var k: nat :| ReachesRoot(m, p, k);
    ReachNotUnder(m, m', j, p, p, k);
    var l: nat :| ReachesRoot(m, i, l);
    ReachAfterMove(m, m', j, p, i, l);
  }

  /** Moving a directory below itself cuts the whole loop off from the root. */
  lemma {:induction false} LoopIsCutOff(m: Skeleton, m': Skeleton, j: nat, p: nat, d: nat, l: nat, k: nat)
    requires j != ROOT && (ROOT in m ==> ".." !in m[ROOT].entries) && Reparents(m, m', j, p)
    requires Meets(m, p, j, l) && Meets(m, d, j, l)
    ensures !ReachesRoot(m', d, k)
    decreases k, l
  {
    if 0 < k && d in m' && ".." in m'[d].entries {
      if d == j {
        LoopIsCutOff(m, m', j, p, p, l, k - 1);
      } else {
        MeetsFurther(m, m[d].entries[".."], j, l - 1, l);
        LoopIsCutOff(m, m', j, p, m[d].entries[".."], l, k - 1);
      }
    }
  }

  lemma MoveBelowItselfDisconnects(m: Skeleton, m': Skeleton, j: nat, p: nat)
    requires j != ROOT && (ROOT in m ==> ".." !in m[ROOT].entries) && Reparents(m, m', j, p) && Under(m, p, j)
    ensures !Connected(m', j)
  {
    var l: nat :| Meets(m, p, j, l);
    forall k: nat ensures !ReachesRoot(m', j, k) {
      LoopIsCutOff(m, m', j, p, j, l, k);
    }
  }
}
