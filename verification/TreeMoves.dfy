/** When renaming keeps a directory tree good, on skeletons. */
module TreeMoves {
  import opened Common
  import opened TreeInvariant
  import opened TreeGrowth

  function WithEntry(n: Node, name: string, k: nat): Node {
    n.(entries := n.entries[name := k])
  }

  // ----- a move to a name where no target is seen -----

  /** What a rename works on: an entry of one directory, and a name in another. */
  predicate Ends(m: Skeleton, od: nat, on: string, nd: nat, nn: string) {
    od in m && nd in m && on in m[od].entries && m[od].entries[on] in m && 0 < m[od].size
  }

  predicate ProperNames(on: string, nn: string) {
    !IsDot(on) && !IsDot(nn)
  }

  function PlainMove(m: Skeleton, od: nat, on: string, nd: nat, nn: string): Skeleton
    requires Ends(m, od, on, nd, nn)
  {
    var k := m[od].entries[on];
    var m1 := m[od := Leave(m[od], on)];
    var m2 := m1[nd := Enter(m1[nd], nn, k)];
    if m[k].isDir then m2[k := WithEntry(m2[k], "..", nd)] else m2
  }

  ghost predicate MoveProper(m: Skeleton, od: nat, on: string, nd: nat, nn: string)
    requires Ends(m, od, on, nd, nn)
  {
    var k := m[od].entries[on];
    && ProperNames(on, nn)
    && m[nd].isDir
    && (m[k].isDir ==> !Under(m, nd, k))
    && ((od == nd && on == nn) || nn !in m[nd].entries)
  }

  lemma LinksAfterMove(m: Skeleton, od: nat, on: string, nd: nat, nn: string, i: nat)
    requires ProperNames(on, nn) && Ends(m, od, on, nd, nn)
    ensures Links(PlainMove(m, od, on, nd, nn), i)
         == (Links(m, i) - {(od, on)} - {(nd, nn)}) + if i == m[od].entries[on] then {(nd, nn)} else {}
  {
    var k := m[od].entries[on];
    var m1 := m[od := Leave(m[od], on)];
    var m2 := m1[nd := Enter(m1[nd], nn, k)];
    LinksDrop(m, od, Leave(m[od], on), on, i);
    LinksPut(m1, nd, Enter(m1[nd], nn, k), nn, k, i);
    if m[k].isDir {
      LinksSame(m2, k, WithEntry(m2[k], "..", nd), i);
    }
  }

  /** Only the entry's directory, the receiving directory and a moved directory change, and only the last one's `..`. */
  lemma MoveTouches(m: Skeleton, od: nat, on: string, nd: nat, nn: string)
    requires ProperNames(on, nn) && Ends(m, od, on, nd, nn)
    ensures var m', k := PlainMove(m, od, on, nd, nn), m[od].entries[on];
      && m'.Keys == m.Keys
      && (forall i :: i in m ==> m'[i].isDir == m[i].isDir && m'[i].hardLinks == m[i].hardLinks)
      && (forall i :: i in m && i != od && i != nd && (i != k || !m[k].isDir) ==> m'[i] == m[i])
      && (forall i :: i in m && (i != k || !m[k].isDir) && ".." in m[i].entries ==>
            ".." in m'[i].entries && m'[i].entries[".."] == m[i].entries[".."])
      && (m[k].isDir ==> ".." in m'[k].entries && m'[k].entries[".."] == nd)
  {
  }

  lemma FileMoves(m: Skeleton, m': Skeleton, k: nat, from: (nat, string), to: (nat, string))
    requires k in m && k in m' && m'[k] == m[k] && !m[k].isDir && NodeOk(m, k)
    requires from in Links(m, k) && to !in Links(m, k) && Links(m', k) == Links(m, k) - {from} + {to}
    ensures NodeOk(m', k)
  {
    assert |Links(m, k) - {from}| == |Links(m, k)| - 1;
    assert to !in Links(m, k) - {from};
  }

  lemma DirMoves(m: Skeleton, m': Skeleton, k: nat, nd: nat, nn: string)
    requires k in m && k in m' && m[k].isDir && k != ROOT && NodeOk(m, k) && m'[k] == WithEntry(m[k], "..", nd)
    requires Links(m', k) == {(nd, nn)}
    ensures NodeOk(m', k)
  {
    SizeAfterPut(m[k].entries, "..", nd);
  }

  /** Renaming within a directory drops one entry and adds another. */
  lemma LeaveEnterOk(m: Skeleton, m': Skeleton, d: nat, on: string, nn: string, k: nat)
    requires d in m && d in m' && 0 < m[d].size && m'[d] == Enter(Leave(m[d], on), nn, k) && Links(m', d) == Links(m, d)
    requires NodeOk(m, d) && on in m[d].entries && !IsDot(on) && nn !in m[d].entries && !IsDot(nn)
    ensures NodeOk(m', d)
  {
    SizeAfterDrop(m[d].entries, on);
    SizeAfterPut(m[d].entries - {on}, nn, k);
  }

  lemma MovedDirIsApart(m: Skeleton, od: nat, on: string, nd: nat, nn: string)
    requires Inv(m) && Ends(m, od, on, nd, nn) && MoveProper(m, od, on, nd, nn) && m[m[od].entries[on]].isDir
    ensures var k := m[od].entries[on]; k != od && k != nd && k != ROOT && Links(m, k) == {(od, on)}
  {
    var k := m[od].entries[on];
    OnlyEntry(m, od, on);
    ParentIsNotItself(m, k);
    assert Meets(m, k, k, 0);
  }

  lemma MovedNodeOk(m: Skeleton, od: nat, on: string, nd: nat, nn: string)
    requires Inv(m) && Ends(m, od, on, nd, nn) && MoveProper(m, od, on, nd, nn) && nn !in m[nd].entries
    ensures NodeOk(PlainMove(m, od, on, nd, nn), m[od].entries[on])
  {
    var m', k := PlainMove(m, od, on, nd, nn), m[od].entries[on];
    LinksAfterMove(m, od, on, nd, nn, k);
    FreeNameIsNoLink(m, nd, nn, k);
    EntriesNameInodes(m, od, on);
    LinkIsIn(m, od, on);
    assert NodeInv(m, k);
    if m[k].isDir {
      MovedDirIsApart(m, od, on, nd, nn);
      DirMoves(m, m', k, nd, nn);
    } else {
      FileMoves(m, m', k, (od, on), (nd, nn));
    }
  }

  lemma MoveKeepsNode(m: Skeleton, od: nat, on: string, nd: nat, nn: string, i: nat)
    requires Inv(m) && Ends(m, od, on, nd, nn) && MoveProper(m, od, on, nd, nn) && nn !in m[nd].entries
    ensures NodeInv(PlainMove(m, od, on, nd, nn), i)
  {
    if i == m[od].entries[on] {
      MovedNodeOk(m, od, on, nd, nn);
    } else {
      LinksAfterMove(m, od, on, nd, nn, i);
      FreeNameIsNoLink(m, nd, nn, i);
      OneLink(m, od, on, i);
      EntriesNameInodes(m, od, on);
      assert NodeInv(m, i);
      EndsKeepNode(m, od, on, nd, nn, i);
    }
  }

  lemma EndsKeepNode(m: Skeleton, od: nat, on: string, nd: nat, nn: string, i: nat)
    requires ProperNames(on, nn) && Ends(m, od, on, nd, nn) && m[od].isDir && m[nd].isDir && nn !in m[nd].entries
    requires i != m[od].entries[on]
    requires NodeInv(m, i) && Links(PlainMove(m, od, on, nd, nn), i) == Links(m, i)
    ensures NodeInv(PlainMove(m, od, on, nd, nn), i)
  {
    var m', k := PlainMove(m, od, on, nd, nn), m[od].entries[on];
    if i == od && od == nd {
      LeaveEnterOk(m, m', od, on, nn, k);
    } else if i == od {
      LeaveOk(m, m', od, on);
    } else if i == nd {
      EnterOk(m, m', nd, nn, k);
    } else if i in m {
      NodeSame(m, m', i);
    }
  }

  lemma MoveReparents(m: Skeleton, od: nat, on: string, nd: nat, nn: string)
    requires Inv(m) && ProperNames(on, nn) && Ends(m, od, on, nd, nn) && m[m[od].entries[on]].isDir
    ensures Reparents(m, PlainMove(m, od, on, nd, nn), m[od].entries[on], nd)
  {
    MoveTouches(m, od, on, nd, nn);
    forall i | i in m && ".." in m[i].entries ensures m[i].entries[".."] in m {
      EntriesNameInodes(m, i, "..");
    }
  }

  lemma MoveKeepsAllConnected(m: Skeleton, od: nat, on: string, nd: nat, nn: string)
    requires Inv(m) && Ends(m, od, on, nd, nn) && MoveProper(m, od, on, nd, nn)
    ensures forall i :: i in m && m[i].isDir ==> Connected(PlainMove(m, od, on, nd, nn), i)
  {
    var m', k := PlainMove(m, od, on, nd, nn), m[od].entries[on];
    MoveTouches(m, od, on, nd, nn);
    if m[k].isDir {
      MoveReparents(m, od, on, nd, nn);
      forall i | i in m && m[i].isDir ensures Connected(m', i) {
        MoveKeepsConnected(m, m', k, nd, i);
      }
    } else {
      ParentsStay(m, m');
      ConnectedStill(m, m');
    }
  }

  lemma MoveOntoItself(m: Skeleton, d: nat, name: string)
    requires Inv(m) && Ends(m, d, name, d, name) && !IsDot(name)
    ensures PlainMove(m, d, name, d, name) == m
  {
    var k := m[d].entries[name];
    assert (m[d].entries - {name})[name := k] == m[d].entries;
    var m1 := m[d := Leave(m[d], name)];
    assert m1[d := Enter(m1[d], name, k)] == m;
    if m[k].isDir {
      OnlyEntry(m, d, name);
      assert m[k].entries[".." := d] == m[k].entries;
    }
  }

  lemma MoveKeeps(m: Skeleton, od: nat, on: string, nd: nat, nn: string)
    requires Inv(m) && Ends(m, od, on, nd, nn) && MoveProper(m, od, on, nd, nn)
    ensures Inv(PlainMove(m, od, on, nd, nn))
  {
    if nn in m[nd].entries {
      MoveOntoItself(m, od, on);
    } else {
      MoveKeepsAllConnected(m, od, on, nd, nn);
      MoveTouches(m, od, on, nd, nn);
      forall i ensures NodeInv(PlainMove(m, od, on, nd, nn), i) {
        MoveKeepsNode(m, od, on, nd, nn, i);
      }
    }
  }

  lemma MoveBreaks(m: Skeleton, od: nat, on: string, nd: nat, nn: string)
    requires Inv(m) && Ends(m, od, on, nd, nn) && !MoveProper(m, od, on, nd, nn)
    ensures !Inv(PlainMove(m, od, on, nd, nn))
  {
    if IsDot(on) {
      MovedDotBreaks(m, od, on, nd, nn);
    } else if IsDot(nn) {
      MoveOntoDotBreaks(m, od, on, nd, nn);
    } else {
      MisplacedBreaks(m, od, on, nd, nn);
    }
  }

  lemma MisplacedBreaks(m: Skeleton, od: nat, on: string, nd: nat, nn: string)
    requires Inv(m) && ProperNames(on, nn) && Ends(m, od, on, nd, nn) && !MoveProper(m, od, on, nd, nn)
    ensures !Inv(PlainMove(m, od, on, nd, nn))
  {
    var m', k := PlainMove(m, od, on, nd, nn), m[od].entries[on];
    MoveTouches(m, od, on, nd, nn);
    assert NodeInv(m, nd) && NodeInv(m, ROOT);
    if !m[nd].isDir {
      assert nn in m'[nd].entries;
      assert !NodeInv(m', nd);
    } else if m[k].isDir && Under(m, nd, k) {
      OnlyEntry(m, od, on);
      MoveReparents(m, od, on, nd, nn);
      MoveBelowItselfDisconnects(m, m', k, nd);
    } else {
      assert Meets(m, nd, nd, 0);
      TakenNameBreaks(m, od, on, nd, nn);
    }
  }

  /** A directory whose `.` or `..` is moved away lacks it; moved onto itself, it makes a loop. */
  lemma MovedDotBreaks(m: Skeleton, od: nat, on: string, nd: nat, nn: string)
    requires Inv(m) && Ends(m, od, on, nd, nn) && IsDot(on)
    ensures !Inv(PlainMove(m, od, on, nd, nn))
  {
    var m', k := PlainMove(m, od, on, nd, nn), m[od].entries[on];
    assert NodeInv(m, od) && NodeInv(m, k) && NodeInv(m, ROOT);
    EntriesNameInodes(m, od, on);
    if on == ".." {
      NamedParent(m, od);
      ParentIsNotItself(m, od);
    }
    if od == nd && on == nn {
      assert (m[od].entries - {on})[on := k] == m[od].entries;
      assert m'[k] == WithEntry(m[k], "..", od);
      LoopBreaks(m, m', od, k);
    } else {
      assert on !in m'[od].entries;
      assert !NodeInv(m', od);
    }
  }

  /** A directory whose `..` is set to itself, or to a directory in it, is no longer right. */
  lemma LoopBreaks(m: Skeleton, m': Skeleton, od: nat, k: nat)
    requires Inv(m) && od in m && k in m && m[k].isDir
    requires k == od || (".." in m[od].entries && m[od].entries[".."] == k && k != od)
    requires m'.Keys == m.Keys && m'[k] == WithEntry(m[k], "..", od) && forall i :: i in m && i != k ==> m'[i] == m[i]
    ensures !Inv(m')
  {
    if k == ROOT {
      assert !NodeInv(m', ROOT);
    } else if Inv(m') {
      NamedParent(m, k) by {
        assert NodeInv(m, k);
      }
      assert NodeInv(m', od) && NodeInv(m, od);
      var l: nat :| ReachesRoot(m', k, l);
      TwoLoopNeverReaches(m', k, od, l);
    }
  }

  /** Two directories that name each other as parents, or one that names itself, do not reach the root. */
  lemma {:induction false} TwoLoopNeverReaches(m: Skeleton, i: nat, j: nat, l: nat)
    requires i in m && i != ROOT && ".." in m[i].entries && m[i].entries[".."] == j
    requires j in m && j != ROOT && ".." in m[j].entries && m[j].entries[".."] == i
    ensures !ReachesRoot(m, i, l) && !ReachesRoot(m, j, l)
    decreases l
  {
    if 0 < l {
      TwoLoopNeverReaches(m, i, j, l - 1);
    }
  }

  /** `.` must stay what it is, and a parent that `..` is set to has just lost its own entry. */
  lemma MoveOntoDotBreaks(m: Skeleton, od: nat, on: string, nd: nat, nn: string)
    requires Inv(m) && Ends(m, od, on, nd, nn) && !IsDot(on) && IsDot(nn)
    ensures !Inv(PlainMove(m, od, on, nd, nn))
  {
    var m', k := PlainMove(m, od, on, nd, nn), m[od].entries[on];
    EntriesNameInodes(m, od, on);
    assert NodeInv(m, nd) && NodeInv(m, k) && NodeInv(m, ROOT);
    DotMoveDropsLink(m, od, on, nd, nn, k);
    assert nn in m'[nd].entries && m'[nd].entries[nn] == k;
    if m[k].isDir {
      OnlyEntry(m, od, on);
      assert !NodeInv(m', k);
    } else if nn == "." || !m[nd].isDir || nd == ROOT {
      assert !NodeInv(m', nd);
    } else {
      ParentHolds(m, nd);
      DotMoveDropsLink(m, od, on, nd, nn, nd);
      OneLink(m, od, on, nd);
      assert !NodeInv(m', nd);
    }
  }

  lemma DotMoveDropsLink(m: Skeleton, od: nat, on: string, nd: nat, nn: string, i: nat)
    requires Ends(m, od, on, nd, nn) && !IsDot(on) && IsDot(nn)
    ensures Links(PlainMove(m, od, on, nd, nn), i) == Links(m, i) - {(od, on)}
  {
    var k := m[od].entries[on];
    var m1 := m[od := Leave(m[od], on)];
    var m2 := m1[nd := Enter(m1[nd], nn, k)];
    LinksDrop(m, od, Leave(m[od], on), on, i);
    LinksSame(m1, nd, Enter(m1[nd], nn, k), i);
    if m[k].isDir {
      LinksSame(m2, k, WithEntry(m2[k], "..", nd), i);
    }
  }

  /** An entry that is overwritten unseen leaves the directory's size too large by one. */
  lemma TakenNameBreaks(m: Skeleton, od: nat, on: string, nd: nat, nn: string)
    requires Inv(m) && Ends(m, od, on, nd, nn) && m[nd].isDir && nn in m[nd].entries && !(od == nd && on == nn)
    requires m[m[od].entries[on]].isDir ==> m[od].entries[on] != nd
    ensures !NodeInv(PlainMove(m, od, on, nd, nn), nd)
  {
    var k := m[od].entries[on];
    assert NodeInv(m, nd);
    if od == nd {
      SizeAfterDrop(m[nd].entries, on);
      SizeAfterPut(m[nd].entries - {on}, nn, k);
    } else {
      SizeAfterPut(m[nd].entries, nn, k);
    }
  }

  // ----- a move over a target that is seen -----

  /** The seen target: an empty directory other than the inodes that the move needs. */
  predicate Target(m: Skeleton, od: nat, on: string, nd: nat, nn: string)
    requires Ends(m, od, on, nd, nn)
  {
    && nn in m[nd].entries && 0 < m[nd].size && !(od == nd && on == nn)
    && var t := m[nd].entries[nn];
       t in m && m[t].isDir && m[t].size <= 2 && t != od && t != nd && t != m[od].entries[on]
  }

  /** The target's directory forgets it, but counts it until the move is over. */
  function MoveOver(m: Skeleton, od: nat, on: string, nd: nat, nn: string): Skeleton
    requires Ends(m, od, on, nd, nn) && Target(m, od, on, nd, nn)
  {
    var k := m[od].entries[on];
    var m0 := m[nd := m[nd].(entries := m[nd].entries - {nn})] - {m[nd].entries[nn]};
    Place(m0, od, on, nd, nn, k, m[nd].size - 1, m[k].isDir)
  }

  /** The entry leaves one directory and enters the other, whose size, not counting it, is `size`. */
  function Place(m: Skeleton, od: nat, on: string, nd: nat, nn: string, k: nat, size: nat, isDir: bool): Skeleton
    requires od in m && nd in m && k in m && 0 < m[od].size
  {
    var m1 := m[od := Leave(m[od], on)];
    var m2 := m1[nd := m1[nd].(entries := m1[nd].entries[nn := k], size := if od == nd then size else size + 1)];
    if isDir then m2[k := WithEntry(m2[k], "..", nd)] else m2
  }

  /** Moving over a target is removing it first and then moving to its free name. */
  lemma MoveOverIsDropThenMove(m: Skeleton, od: nat, on: string, nd: nat, nn: string)
    requires Inv(m) && Ends(m, od, on, nd, nn) && Target(m, od, on, nd, nn) && !IsDot(nn)
    ensures var d := NodeDropped(m, nd, nn);
      && Inv(d) && Ends(d, od, on, nd, nn) && nn !in d[nd].entries && d[nd].isDir
      && d[od].entries[on] == m[od].entries[on] && d[m[od].entries[on]].isDir == m[m[od].entries[on]].isDir
      && MoveOver(m, od, on, nd, nn) == PlainMove(d, od, on, nd, nn)
  {
    var d := NodeDropped(m, nd, nn);
    EntriesNameInodes(m, nd, nn);
    RmdirKeeps(m, nd, nn);
    assert NodeInv(m, nd) && NodeInv(d, od);
    EntriesNameInodes(d, od, on);
    HasSize(d[od].entries, on);
    var k := m[od].entries[on];
    var m0 := m[nd := m[nd].(entries := m[nd].entries - {nn})] - {m[nd].entries[nn]};
    assert d == m0[nd := m0[nd].(size := d[nd].size)];
    PlaceIgnoresSize(m0, d, od, on, nd, nn, k, m[nd].size - 1, m[k].isDir);
    PlainMoveIsPlace(d, od, on, nd, nn);
  }

  lemma PlainMoveIsPlace(m: Skeleton, od: nat, on: string, nd: nat, nn: string)
    requires Ends(m, od, on, nd, nn)
    ensures var k := m[od].entries[on];
      PlainMove(m, od, on, nd, nn) == Place(m, od, on, nd, nn, k, m[nd].size, m[k].isDir)
  {
  }

  /** The receiving directory's size is put last, so what it was before does not matter. */
  lemma PlaceIgnoresSize(m: Skeleton, m': Skeleton, od: nat, on: string, nd: nat, nn: string, k: nat, size: nat,
                         isDir: bool)
    requires od in m && nd in m && k in m && 0 < m[od].size
    requires nd in m' && m' == m[nd := m[nd].(size := m'[nd].size)] && 0 < m'[od].size
    ensures Place(m', od, on, nd, nn, k, size, isDir) == Place(m, od, on, nd, nn, k, size, isDir)
  {
    var m1, m1' := m[od := Leave(m[od], on)], m'[od := Leave(m'[od], on)];
    assert m1'[nd].entries == m1[nd].entries;
    var n := m1[nd].(entries := m1[nd].entries[nn := k], size := if od == nd then size else size + 1);
    assert m1[nd := n] == m1'[nd := n];
  }

  lemma HasSize(es: map<string, nat>, name: string)
    requires name in es
    ensures 0 < |es|
  {
    SizeAfterDrop(es, name);
  }

  lemma {:induction false} MeetsSame(m: Skeleton, d: Skeleton, i: nat, j: nat, k: nat)
    requires forall x :: x in m && x in d ==>
      (".." in m[x].entries <==> ".." in d[x].entries)
      && (".." in m[x].entries ==> m[x].entries[".."] in d && d[x].entries[".."] == m[x].entries[".."])
    requires i in m && i in d && forall x :: x in d ==> x in m
    ensures Meets(m, i, j, k) <==> Meets(d, i, j, k)
    decreases k
  {
    if i != j && 0 < k && ".." in m[i].entries {
      MeetsSame(m, d, m[i].entries[".."], j, k - 1);
    }
  }

  lemma UnderSame(m: Skeleton, nd: nat, nn: string, j: nat)
    requires Inv(m) && nd in m && nn in m[nd].entries && 0 < m[nd].size && !IsDot(nn)
    requires m[nd].entries[nn] in m && m[m[nd].entries[nn]].isDir && m[m[nd].entries[nn]].size <= 2
    ensures Under(m, nd, j) <==> Under(NodeDropped(m, nd, nn), nd, j)
  {
    var d, t := NodeDropped(m, nd, nn), m[nd].entries[nn];
    SmallTargetIsNameless(m, nd, nn);
    NamelessIsNoParent(m, t);
    forall x | x in d && ".." in m[x].entries ensures m[x].entries[".."] in d {
      NamedParent(m, x);
    }
    forall k: nat ensures Meets(m, nd, j, k) <==> Meets(d, nd, j, k) {
      MeetsSame(m, d, nd, j, k);
    }
  }

  /** Over a target, what matters is the names and the place of a moved directory. */
  lemma MoveOverKeepsIff(m: Skeleton, od: nat, on: string, nd: nat, nn: string)
    requires Inv(m) && Ends(m, od, on, nd, nn) && Target(m, od, on, nd, nn)
    ensures Inv(MoveOver(m, od, on, nd, nn))
       <==> ProperNames(on, nn) && (m[m[od].entries[on]].isDir ==> !Under(m, nd, m[od].entries[on]))
  {
    var d := NodeDropped(m, nd, nn);
    if IsDot(nn) {
      MoveOverDotBreaks(m, od, on, nd, nn);
    } else {
      MoveOverIsDropThenMove(m, od, on, nd, nn);
      UnderSame(m, nd, nn, m[od].entries[on]);
      if MoveProper(d, od, on, nd, nn) {
        MoveKeeps(d, od, on, nd, nn);
      } else {
        MoveBreaks(d, od, on, nd, nn);
      }
    }
  }

  /** Only the root can be an empty directory that `..` names; moving over it removes it. */
  lemma MoveOverDotBreaks(m: Skeleton, od: nat, on: string, nd: nat, nn: string)
    requires Inv(m) && Ends(m, od, on, nd, nn) && Target(m, od, on, nd, nn) && IsDot(nn)
    ensures !Inv(MoveOver(m, od, on, nd, nn))
  {
    var t := m[nd].entries[nn];
    EntriesNameInodes(m, nd, nn);
    assert NodeInv(m, nd);
    NamedParent(m, nd);
    ParentHolds(m, nd);
    if t != ROOT {
      EmptyIsNameless(m, t);
    }
  }

  // ----- an exchange -----

  predicate BothEnds(m: Skeleton, od: nat, on: string, nd: nat, nn: string) {
    && od in m && nd in m && on in m[od].entries && m[od].entries[on] in m
    && nn in m[nd].entries && m[nd].entries[nn] in m
  }

  function Swapped(m: Skeleton, od: nat, on: string, nd: nat, nn: string): Skeleton
    requires BothEnds(m, od, on, nd, nn)
  {
    var m1 := m[nd := WithEntry(m[nd], nn, m[od].entries[on])];
    m1[od := WithEntry(m1[od], on, m[nd].entries[nn])]
  }

  /** The swap of the two entries, with the moved directories' own entries set as the code sets them. */
  function Exchange(m: Skeleton, od: nat, on: string, nd: nat, nn: string): Skeleton
    requires BothEnds(m, od, on, nd, nn)
  {
    var k, t, m2 := m[od].entries[on], m[nd].entries[nn], Swapped(m, od, on, nd, nn);
    var m3 := if m[k].isDir then m2[k := WithEntry(m2[k], ".", nd)] else m2;
    if m[t].isDir then m3[t := WithEntry(m3[t], "..", od)] else m3
  }

  ghost predicate ExchangeProper(m: Skeleton, od: nat, on: string, nd: nat, nn: string)
    requires BothEnds(m, od, on, nd, nn)
  {
    && ProperNames(on, nn) && !m[m[od].entries[on]].isDir
    && (m[m[nd].entries[nn]].isDir ==> !Under(m, od, m[nd].entries[nn]))
  }

  lemma LinksAfterSwap(m: Skeleton, od: nat, on: string, nd: nat, nn: string, i: nat)
    requires ProperNames(on, nn) && BothEnds(m, od, on, nd, nn)
    ensures Links(Swapped(m, od, on, nd, nn), i)
         == (((Links(m, i) - {(nd, nn)}) + if i == m[od].entries[on] then {(nd, nn)} else {}) - {(od, on)})
            + if i == m[nd].entries[nn] then {(od, on)} else {}
  {
    var m1 := m[nd := WithEntry(m[nd], nn, m[od].entries[on])];
    LinksPut(m, nd, WithEntry(m[nd], nn, m[od].entries[on]), nn, m[od].entries[on], i);
    LinksPut(m1, od, WithEntry(m1[od], on, m[nd].entries[nn]), on, m[nd].entries[nn], i);
  }

  lemma LinksAfterExchange(m: Skeleton, od: nat, on: string, nd: nat, nn: string, i: nat)
    requires ProperNames(on, nn) && BothEnds(m, od, on, nd, nn)
    ensures Links(Exchange(m, od, on, nd, nn), i) == Links(Swapped(m, od, on, nd, nn), i)
  {
    var k, t, m2 := m[od].entries[on], m[nd].entries[nn], Swapped(m, od, on, nd, nn);
    var m3 := if m[k].isDir then m2[k := WithEntry(m2[k], ".", nd)] else m2;
    if m[k].isDir {
      LinksSame(m2, k, WithEntry(m2[k], ".", nd), i);
    }
    if m[t].isDir {
      LinksSame(m3, t, WithEntry(m3[t], "..", od), i);
    }
  }

  lemma LinksHas(m: Skeleton, d: nat, name: string, i: nat)
    requires d in m && name in m[d].entries && !IsDot(name)
    ensures (d, name) in Links(m, i) <==> m[d].entries[name] == i
  {
  }

  lemma SwapInSet<T>(s: set<T>, a: T, b: T, hasA: bool, hasB: bool)
    requires (a in s <==> hasA) && (b in s <==> hasB) && (a == b ==> hasA == hasB)
    ensures var ls := (((s - {b}) + if hasA then {b} else {}) - {a}) + if hasB then {a} else {};
      && (hasA && !hasB ==> ls == s - {a} + {b})
      && (hasB && !hasA ==> ls == s - {b} + {a})
      && (hasA == hasB ==> ls == s)
  {
  }

  /** Links move from one entry to the other; an inode at both ends, or at neither, keeps its own. */
  lemma SwapMovesLinks(m: Skeleton, od: nat, on: string, nd: nat, nn: string, i: nat)
    requires ProperNames(on, nn) && BothEnds(m, od, on, nd, nn)
    ensures var k, t, ls := m[od].entries[on], m[nd].entries[nn], Links(Swapped(m, od, on, nd, nn), i);
      && (i == k && i != t ==> ls == Links(m, i) - {(od, on)} + {(nd, nn)})
      && (i == t && i != k ==> ls == Links(m, i) - {(nd, nn)} + {(od, on)})
      && ((i == k <==> i == t) ==> ls == Links(m, i))
  {
    LinksAfterSwap(m, od, on, nd, nn, i);
    LinksHas(m, od, on, i);
    LinksHas(m, nd, nn, i);
    SwapInSet(Links(m, i), (od, on), (nd, nn), i == m[od].entries[on], i == m[nd].entries[nn]);
  }

  /** A directory in which one entry is redirected counts as many as before. */
  lemma RedirectOk(m: Skeleton, m': Skeleton, d: nat)
    requires d in m && d in m' && m[d].isDir && NodeOk(m, d) && Links(m', d) == Links(m, d)
    requires Redirected(m[d], m'[d])
    ensures NodeOk(m', d)
  {
    assert |m'[d].entries| == |m'[d].entries.Keys| && |m[d].entries| == |m[d].entries.Keys|;
  }

  /** Same kind and counts, same names, same `.` and `..`. */
  predicate Redirected(n: Node, n': Node) {
    && n' == n.(entries := n'.entries) && n'.entries.Keys == n.entries.Keys
    && forall s :: s in n.entries && IsDot(s) ==> n'.entries[s] == n.entries[s]
  }

  lemma SwapTouches(m: Skeleton, od: nat, on: string, nd: nat, nn: string)
    requires ProperNames(on, nn) && BothEnds(m, od, on, nd, nn)
    ensures var m2 := Swapped(m, od, on, nd, nn);
      && m2.Keys == m.Keys
      && (forall i :: i in m && i != od && i != nd ==> m2[i] == m[i])
      && (forall i :: i in m ==> Redirected(m[i], m2[i]))
  {
    var m1 := m[nd := WithEntry(m[nd], nn, m[od].entries[on])];
    var m2 := Swapped(m, od, on, nd, nn);
    assert Redirected(m[nd], m1[nd]);
    assert Redirected(m1[od], m2[od]);
  }

  lemma ExchangeTouches(m: Skeleton, od: nat, on: string, nd: nat, nn: string)
    requires Inv(m) && ProperNames(on, nn) && BothEnds(m, od, on, nd, nn) && !m[m[od].entries[on]].isDir
    ensures var m', t := Exchange(m, od, on, nd, nn), m[nd].entries[nn];
      && m'.Keys == m.Keys
      && (forall i :: i in m ==> m'[i].isDir == m[i].isDir)
      && (forall i :: i in m && i != od && i != nd && (i != t || !m[t].isDir) ==> m'[i] == m[i])
      && (forall i :: i in m && (i != t || !m[t].isDir) ==> Redirected(m[i], m'[i]))
      && (m[t].isDir ==>
            && ".." in m'[t].entries && m'[t].entries[".."] == od
            && (t != od && t != nd ==> m'[t] == WithEntry(m[t], "..", od)))
  {
    SwapTouches(m, od, on, nd, nn);
    var m2, t := Swapped(m, od, on, nd, nn), m[nd].entries[nn];
    assert Exchange(m, od, on, nd, nn) == if m[t].isDir then m2[t := WithEntry(m2[t], "..", od)] else m2;
    forall i | i in m ensures m2[i].isDir == m[i].isDir {
      assert Redirected(m[i], m2[i]);
    }
  }

  lemma SwappedTargetOk(m: Skeleton, od: nat, on: string, nd: nat, nn: string)
    requires Inv(m) && BothEnds(m, od, on, nd, nn) && ExchangeProper(m, od, on, nd, nn)
    requires m[nd].entries[nn] != m[od].entries[on]
    ensures NodeOk(Exchange(m, od, on, nd, nn), m[nd].entries[nn])
  {
    var m', t := Exchange(m, od, on, nd, nn), m[nd].entries[nn];
    ExchangeTouches(m, od, on, nd, nn);
    LinksAfterExchange(m, od, on, nd, nn, t);
    SwapMovesLinks(m, od, on, nd, nn, t);
    EntriesNameInodes(m, od, on);
    EntriesNameInodes(m, nd, nn);
    assert NodeInv(m, t);
    if m[t].isDir {
      OnlyEntry(m, nd, nn);
      ParentIsNotItself(m, t);
      assert Meets(m, t, t, 0);
      DirMoves(m, m', t, od, on);
    } else {
      LinksHas(m, od, on, t);
      LinksHas(m, nd, nn, t);
      FileMoves(m, m', t, (nd, nn), (od, on));
    }
  }

  lemma SwappedSourceOk(m: Skeleton, od: nat, on: string, nd: nat, nn: string)
    requires Inv(m) && BothEnds(m, od, on, nd, nn) && ExchangeProper(m, od, on, nd, nn)
    requires m[nd].entries[nn] != m[od].entries[on]
    ensures NodeOk(Exchange(m, od, on, nd, nn), m[od].entries[on])
  {
    var m', k := Exchange(m, od, on, nd, nn), m[od].entries[on];
    ExchangeTouches(m, od, on, nd, nn);
    LinksAfterExchange(m, od, on, nd, nn, k);
    SwapMovesLinks(m, od, on, nd, nn, k);
    EntriesNameInodes(m, od, on);
    EntriesNameInodes(m, nd, nn);
    assert NodeInv(m, k);
    LinksHas(m, od, on, k);
    LinksHas(m, nd, nn, k);
    FileMoves(m, m', k, (od, on), (nd, nn));
  }

  lemma ExchangeKeepsNode(m: Skeleton, od: nat, on: string, nd: nat, nn: string, i: nat)
    requires Inv(m) && BothEnds(m, od, on, nd, nn) && ExchangeProper(m, od, on, nd, nn)
    ensures NodeInv(Exchange(m, od, on, nd, nn), i)
  {
    var m', k, t := Exchange(m, od, on, nd, nn), m[od].entries[on], m[nd].entries[nn];
    if i == k && i != t {
      SwappedSourceOk(m, od, on, nd, nn);
    } else if i == t && i != k {
      SwappedTargetOk(m, od, on, nd, nn);
    } else {
      ExchangeTouches(m, od, on, nd, nn);
      LinksAfterExchange(m, od, on, nd, nn, i);
      SwapMovesLinks(m, od, on, nd, nn, i);
      EntriesNameInodes(m, od, on);
      EntriesNameInodes(m, nd, nn);
      assert NodeInv(m, i);
      if i == od || i == nd {
        RedirectOk(m, m', i);
      } else if i in m {
        NodeSame(m, m', i);
      }
    }
  }

  lemma ExchangeReparents(m: Skeleton, od: nat, on: string, nd: nat, nn: string)
    requires Inv(m) && ProperNames(on, nn) && BothEnds(m, od, on, nd, nn) && !m[m[od].entries[on]].isDir
    requires m[m[nd].entries[nn]].isDir
    ensures Reparents(m, Exchange(m, od, on, nd, nn), m[nd].entries[nn], od)
  {
    ExchangeTouches(m, od, on, nd, nn);
    forall i | i in m && ".." in m[i].entries ensures m[i].entries[".."] in m {
      EntriesNameInodes(m, i, "..");
    }
  }

  lemma ExchangeKeeps(m: Skeleton, od: nat, on: string, nd: nat, nn: string)
    requires Inv(m) && BothEnds(m, od, on, nd, nn) && ExchangeProper(m, od, on, nd, nn)
    ensures Inv(Exchange(m, od, on, nd, nn))
  {
    var m', t := Exchange(m, od, on, nd, nn), m[nd].entries[nn];
    ExchangeTouches(m, od, on, nd, nn);
    forall i ensures NodeInv(m', i) {
      ExchangeKeepsNode(m, od, on, nd, nn, i);
    }
    if m[t].isDir {
      ExchangeReparents(m, od, on, nd, nn);
      EntriesNameInodes(m, od, on);
      forall i | i in m && m[i].isDir ensures Connected(m', i) {
        MoveKeepsConnected(m, m', t, od, i);
      }
    } else {
      ParentsStay(m, m');
      ConnectedStill(m, m');
    }
  }

  lemma ExchangeBreaks(m: Skeleton, od: nat, on: string, nd: nat, nn: string)
    requires Inv(m) && BothEnds(m, od, on, nd, nn)
    requires !ExchangeProper(m, od, on, nd, nn) && !ExchangesNothing(m, od, on, nd, nn)
    ensures !Inv(Exchange(m, od, on, nd, nn))
  {
    var m', k, t := Exchange(m, od, on, nd, nn), m[od].entries[on], m[nd].entries[nn];
    if !ProperNames(on, nn) {
      DotExchangeBreaks(m, od, on, nd, nn);
    } else if m[k].isDir {
      ExchangedDirBreaks(m, od, on, nd, nn);
    } else {
      ExchangeTouches(m, od, on, nd, nn);
      ExchangeReparents(m, od, on, nd, nn);
      OnlyEntry(m, nd, nn);
      assert NodeInv(m, ROOT);
      MoveBelowItselfDisconnects(m, m', t, od);
    }
  }

  /** A directory exchanged with its own `.`: every entry that is put is already there. */
  predicate ExchangesNothing(m: Skeleton, od: nat, on: string, nd: nat, nn: string)
    requires BothEnds(m, od, on, nd, nn)
  {
    !IsDot(on) && nn == "." && m[od].entries[on] == nd
  }

  lemma ExchangedNothing(m: Skeleton, od: nat, on: string, nd: nat, nn: string)
    requires Inv(m) && BothEnds(m, od, on, nd, nn) && ExchangesNothing(m, od, on, nd, nn)
    ensures Exchange(m, od, on, nd, nn) == m
  {
    EntriesNameInodes(m, nd, nn);
    assert NodeInv(m, nd);
    OnlyEntry(m, od, on);
    assert m[nd].entries[nn := nd] == m[nd].entries;
    assert m[od].entries[on := nd] == m[od].entries;
    assert m[nd].entries[".." := od] == m[nd].entries;
    assert Swapped(m, od, on, nd, nn) == m;
  }

  /** What a dot names is a directory; everything else that dots are exchanged with ends up wrong too. */
  lemma DotExchangeBreaks(m: Skeleton, od: nat, on: string, nd: nat, nn: string)
    requires Inv(m) && BothEnds(m, od, on, nd, nn) && !ProperNames(on, nn) && !ExchangesNothing(m, od, on, nd, nn)
    ensures !Inv(Exchange(m, od, on, nd, nn))
  {
    var m', k := Exchange(m, od, on, nd, nn), m[od].entries[on];
    EntriesNameInodes(m, od, on);
    EntriesNameInodes(m, nd, nn);
    if IsDot(on) {
      DotsNameDirs(m, od, on);
    }
    if !m[k].isDir {
      FileForDotBreaks(m, od, on, nd, nn);
    } else if nd != k {
      assert m'[k].entries["."] == nd;
      assert !NodeInv(m', k);
    } else if !IsDot(nn) {
      DotForEntryBreaks(m, od, on, nd, nn);
    } else {
      DotForDotBreaks(m, od, on, nd, nn);
    }
  }

  lemma DotsNameDirs(m: Skeleton, d: nat, name: string)
    requires Inv(m) && d in m && name in m[d].entries && IsDot(name)
    ensures m[d].entries[name] in m && m[m[d].entries[name]].isDir
    ensures name == "." <==> m[d].entries[name] == d
    ensures name == ".." ==> d != ROOT
  {
    assert NodeInv(m, d);
    EntriesNameInodes(m, d, name);
    if name == ".." {
      NamedParent(m, d);
      ParentIsNotItself(m, d);
    }
  }

  lemma FileForDotBreaks(m: Skeleton, od: nat, on: string, nd: nat, nn: string)
    requires Inv(m) && BothEnds(m, od, on, nd, nn) && !IsDot(on) && IsDot(nn) && !m[m[od].entries[on]].isDir
    ensures !Inv(Exchange(m, od, on, nd, nn))
  {
    var m', k, t := Exchange(m, od, on, nd, nn), m[od].entries[on], m[nd].entries[nn];
    var m1 := m[nd := WithEntry(m[nd], nn, k)];
    var m2 := Swapped(m, od, on, nd, nn);
    EntriesNameInodes(m, nd, nn);
    DotsNameDirs(m, nd, nn);
    if nn == "." {
      assert m'[nd].entries["."] == k;
      assert !NodeInv(m', nd);
    } else {
      LinksSame(m, nd, WithEntry(m[nd], nn, k), t);
      LinksPut(m1, od, WithEntry(m1[od], on, t), on, t, t);
      LinksSame(m2, t, WithEntry(m2[t], "..", od), t);
      LinksHas(m, od, on, t);
      assert Links(m', t) == Links(m, t) + {(od, on)};
      OneMoreLinkBreaks(m, m', t, (od, on));
    }
  }

  lemma OneMoreLinkBreaks(m: Skeleton, m': Skeleton, t: nat, e: (nat, string))
    requires t in m && m[t].isDir && NodeInv(m, t) && t in m' && m'[t].isDir
    requires e !in Links(m, t) && Links(m', t) == Links(m, t) + {e}
    ensures !NodeInv(m', t)
  {
    if t != ROOT {
      var n :| Links(m, t) == {(m[t].entries[".."], n)};
      assert (m[t].entries[".."], n) in Links(m', t) && e in Links(m', t);
    }
  }

  /** A directory's entry that is made to name the directory itself. */
  lemma DotForEntryBreaks(m: Skeleton, od: nat, on: string, nd: nat, nn: string)
    requires Inv(m) && BothEnds(m, od, on, nd, nn) && IsDot(on) && !IsDot(nn) && m[od].entries[on] == nd
    ensures !Inv(Exchange(m, od, on, nd, nn))
  {
    var m', t := Exchange(m, od, on, nd, nn), m[nd].entries[nn];
    DotsNameDirs(m, od, on);
    LinkIsIn(m, nd, nn);
    LinkIsIn(m', nd, nn);
    assert NodeInv(m, nd);
    if nd != ROOT {
      ParentIsNotItself(m, nd);
      assert t != nd;
      assert m'[nd].entries[".."] == m[nd].entries[".."];
    }
    assert !NodeInv(m', nd);
  }

  lemma DotForDotBreaks(m: Skeleton, od: nat, on: string, nd: nat, nn: string)
    requires Inv(m) && BothEnds(m, od, on, nd, nn) && IsDot(nn) && m[od].entries[on] == nd && m[nd].isDir
    requires !ExchangesNothing(m, od, on, nd, nn)
    ensures !Inv(Exchange(m, od, on, nd, nn))
  {
    var m', t := Exchange(m, od, on, nd, nn), m[nd].entries[nn];
    DotsNameDirs(m, nd, nn);
    if IsDot(on) {
      DotsNameDirs(m, od, on);
    } else {
      OnlyEntry(m, od, on);
    }
    var x := if nn == ".." && !IsDot(on) then od else nd;
    if nn == "." && on == ".." {
      assert m'[nd].entries[".."] == od && m'[od].entries[".."] == nd;
      MutualParentsBreak(m', nd, od);
    } else {
      assert m'[x].entries[".."] == x;
      MutualParentsBreak(m', x, x);
    }
  }

  lemma MutualParentsBreak(m: Skeleton, i: nat, j: nat)
    requires i in m && ".." in m[i].entries && m[i].entries[".."] == j
    requires j in m && ".." in m[j].entries && m[j].entries[".."] == i
    ensures !Inv(m)
  {
    if Inv(m) {
      NamedParent(m, i);
      NamedParent(m, j);
      var l: nat :| ReachesRoot(m, i, l);
      TwoLoopNeverReaches(m, i, j, l);
    }
  }

  /** A directory that is exchanged gets `.` where `..` was meant. */
  lemma ExchangedDirBreaks(m: Skeleton, od: nat, on: string, nd: nat, nn: string)
    requires Inv(m) && ProperNames(on, nn) && BothEnds(m, od, on, nd, nn) && m[m[od].entries[on]].isDir
    ensures !NodeInv(Exchange(m, od, on, nd, nn), m[od].entries[on])
  {
    var m', k := Exchange(m, od, on, nd, nn), m[od].entries[on];
    if nd == k {
      ExchangedWithOwnEntry(m, od, on, nd, nn);
    } else {
      assert m'[k].entries["."] == nd;
    }
  }

  /** Exchanged with an entry of its own, the directory is named from inside, and `..` still names its parent. */
  lemma ExchangedWithOwnEntry(m: Skeleton, od: nat, on: string, nd: nat, nn: string)
    requires Inv(m) && ProperNames(on, nn) && BothEnds(m, od, on, nd, nn) && m[nd].isDir && m[od].entries[on] == nd
    ensures !NodeInv(Exchange(m, od, on, nd, nn), nd)
  {
    var m' := Exchange(m, od, on, nd, nn);
    OnlyEntry(m, od, on);
    ParentIsNotItself(m, nd);
    LinksAfterExchange(m, od, on, nd, nn, nd);
    SwapMovesLinks(m, od, on, nd, nn, nd);
    LinksHas(m, nd, nn, nd);
    LinksHas(m, od, on, nd);
    assert (nd, nn) in Links(m', nd);
    OwnParentStays(m, od, on, nd, nn);
  }

  lemma OwnParentStays(m: Skeleton, od: nat, on: string, nd: nat, nn: string)
    requires ProperNames(on, nn) && BothEnds(m, od, on, nd, nn) && m[nd].isDir && m[od].entries[on] == nd
    requires od != nd && m[nd].entries[nn] != nd && ".." in m[nd].entries && m[nd].entries[".."] == od
    ensures var m' := Exchange(m, od, on, nd, nn);
      nd in m' && m'[nd].isDir && ".." in m'[nd].entries && m'[nd].entries[".."] == od
  {
  }

  /** An exchange keeps the tree good exactly when the entry that moves names a file, and a directory that comes
      back for it is not placed below itself; or when there was nothing to exchange. */
  lemma ExchangeKeepsIff(m: Skeleton, od: nat, on: string, nd: nat, nn: string)
    requires Inv(m) && BothEnds(m, od, on, nd, nn)
    ensures Inv(Exchange(m, od, on, nd, nn))
       <==> ExchangeProper(m, od, on, nd, nn) || ExchangesNothing(m, od, on, nd, nn)
  {
    if ExchangesNothing(m, od, on, nd, nn) {
      ExchangedNothing(m, od, on, nd, nn);
    } else if ExchangeProper(m, od, on, nd, nn) {
      ExchangeKeeps(m, od, on, nd, nn);
    } else {
      ExchangeBreaks(m, od, on, nd, nn);
    }
  }
}
