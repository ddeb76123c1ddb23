/** When adding and removing entries keeps a directory tree good, on skeletons. */
module TreeGrowth {
  import opened Common
  import opened TreeInvariant

  function Enter(dir: Node, name: string, k: nat): Node {
    dir.(entries := dir.entries[name := k], size := dir.size + 1)
  }

  function Leave(dir: Node, name: string): Node
    requires 0 < dir.size
  {
    dir.(entries := dir.entries - {name}, size := dir.size - 1)
  }

  // ----- one node at a time -----

  lemma NodeSame(m: Skeleton, m': Skeleton, i: nat)
    requires i in m && i in m' && m'[i] == m[i] && Links(m', i) == Links(m, i)
    ensures NodeOk(m', i) <==> NodeOk(m, i)
  {
  }

  lemma EnterOk(m: Skeleton, m': Skeleton, d: nat, name: string, k: nat)
    requires d in m && d in m' && m'[d] == Enter(m[d], name, k) && Links(m', d) == Links(m, d)
    requires NodeOk(m, d) && m[d].isDir && name !in m[d].entries && !IsDot(name)
    ensures NodeOk(m', d)
  {
    SizeAfterPut(m[d].entries, name, k);
  }

  lemma LeaveOk(m: Skeleton, m': Skeleton, d: nat, name: string)
    requires d in m && d in m' && 0 < m[d].size && m'[d] == Leave(m[d], name) && Links(m', d) == Links(m, d)
    requires NodeOk(m, d) && name in m[d].entries && !IsDot(name)
    ensures NodeOk(m', d)
  {
    SizeAfterDrop(m[d].entries, name);
  }

  lemma MoreLinks(m: Skeleton, m': Skeleton, i: nat, e: (nat, string))
    requires i in m && i in m' && m'[i] == m[i].(hardLinks := m[i].hardLinks + 1)
    requires e !in Links(m, i) && Links(m', i) == Links(m, i) + {e} && NodeOk(m, i) && !m[i].isDir
    ensures NodeOk(m', i)
  {
    assert |Links(m, i) + {e}| == |Links(m, i)| + 1;
  }

  lemma FewerLinks(m: Skeleton, m': Skeleton, d: nat, name: string, i: nat)
    requires d in m && name in m[d].entries && !IsDot(name) && m[d].entries[name] == i
    requires i in m && Links(m', i) == Links(m, i) - {(d, name)} && NodeOk(m, i) && !m[i].isDir
    requires if m[i].hardLinks == 1 then i !in m' else i in m' && m'[i] == m[i].(hardLinks := m[i].hardLinks - 1)
    ensures NodeInv(m', i)
  {
    OneLink(m, d, name, i);
    LinkIsIn(m, d, name);
    if m[i].hardLinks == 1 {
      NoneLeft(Links(m, i), (d, name));
    }
  }

  /** Calls that change no `..`, and remove nothing that is one, keep every directory connected. */
  lemma ConnectedStill(m: Skeleton, m': Skeleton)
    requires Inv(m) && KeepsParents(m, m')
    ensures forall i :: i in m && i in m' && m[i].isDir ==> Connected(m', i)
  {
    forall i | i in m && i in m' && m[i].isDir ensures Connected(m', i) {
      ConnectedKept(m, m', i);
    }
  }

  lemma ParentsStay(m: Skeleton, m': Skeleton)
    requires Inv(m) && ROOT in m' && forall j :: j in m && m[j].isDir ==> j in m' && m'[j].isDir
    requires forall j :: j in m && ".." in m[j].entries ==>
      j in m' && ".." in m'[j].entries && m'[j].entries[".."] == m[j].entries[".."]
    ensures KeepsParents(m, m')
  {
    forall j | j in m && ".." in m[j].entries ensures m[j].entries[".."] in m' {
      EntriesNameInodes(m, j, "..");
      NamedParent(m, j);
    }
  }

  lemma NamedParent(m: Skeleton, j: nat)
    requires Inv(m) && j in m && ".." in m[j].entries
    ensures j != ROOT && m[j].isDir && m[j].entries[".."] in m && m[m[j].entries[".."]].isDir
  {
    assert NodeInv(m, j);
    ParentHolds(m, j);
  }

  // ----- a new node -----

  function Added(m: Skeleton, d: nat, name: string, k: nat, node: Node): Skeleton
    requires d in m
  {
    m[d := Enter(m[d], name, k)][k := node]
  }

  /** What create makes: a file, or a directory with its two entries. */
  predicate Fresh(node: Node, d: nat, k: nat) {
    if node.isDir then node.entries == map["." := k, ".." := d] else node.entries == map[] && node.hardLinks == 1
  }

  predicate AddProper(m: Skeleton, d: nat, name: string, node: Node)
    requires d in m
  {
    m[d].isDir && name !in m[d].entries && !IsDot(name) && (node.isDir ==> node.size == 2 && node.hardLinks == 2)
  }

  lemma LinksAfterAdd(m: Skeleton, d: nat, name: string, k: nat, node: Node, i: nat)
    requires d in m && k !in m && Fresh(node, d, k) && !IsDot(name) && name !in m[d].entries
    ensures Links(Added(m, d, name, k, node), i) == Links(m, i) + if i == k then {(d, name)} else {}
  {
    LinksPut(m, d, Enter(m[d], name, k), name, k, i);
    LinksAdd(m[d := Enter(m[d], name, k)], k, node, i);
    FreeNameIsNoLink(m, d, name, i);
  }

  lemma FreeNameIsNoLink(m: Skeleton, d: nat, name: string, i: nat)
    requires d in m && name !in m[d].entries
    ensures (d, name) !in Links(m, i)
  {
  }

  lemma FreshOk(m: Skeleton, d: nat, name: string, k: nat, node: Node)
    requires k in m && m[k] == node && Links(m, k) == {(d, name)} && Fresh(node, d, k) && k != ROOT
    ensures NodeOk(m, k) <==> (node.isDir ==> node.size == 2 && node.hardLinks == 2)
  {
    var dot, dots := ".", "..";
    assert |dot| != |dots|;
    var one := map[dot := k];
    assert |one| == 1;
    SizeAfterPut(one, dots, d);
    assert one[dots := d] == map[dot := k, dots := d];
  }

  lemma AddKeepsNode(m: Skeleton, d: nat, name: string, k: nat, node: Node, i: nat)
    requires Inv(m) && d in m && k !in m && Fresh(node, d, k) && AddProper(m, d, name, node)
    ensures NodeInv(Added(m, d, name, k, node), i)
  {
    var m' := Added(m, d, name, k, node);
    LinksAfterAdd(m, d, name, k, node, i);
    assert NodeInv(m, i);
    if i == k {
      FreshOk(m', d, name, k, node);
    } else if i == d {
      EnterOk(m, m', d, name, k);
    } else if i in m {
      NodeSame(m, m', i);
    }
  }

  lemma AddKeeps(m: Skeleton, d: nat, name: string, k: nat, node: Node)
    requires Inv(m) && d in m && k !in m && Fresh(node, d, k) && AddProper(m, d, name, node)
    ensures Inv(Added(m, d, name, k, node))
  {
    var m' := Added(m, d, name, k, node);
    AddKeepsConnected(m, d, name, k, node);
    forall i ensures NodeInv(m', i) {
      AddKeepsNode(m, d, name, k, node, i);
    }
  }

  lemma AddKeepsConnected(m: Skeleton, d: nat, name: string, k: nat, node: Node)
    requires Inv(m) && d in m && k !in m && Fresh(node, d, k) && AddProper(m, d, name, node)
    ensures forall i :: i in Added(m, d, name, k, node) && Added(m, d, name, k, node)[i].isDir ==>
      Connected(Added(m, d, name, k, node), i)
  {
    var m' := Added(m, d, name, k, node);
    ParentsStay(m, m');
    ConnectedStill(m, m');
    if node.isDir {
      ConnectedThrough(m', k);
    }
  }

  lemma AddBreaks(m: Skeleton, d: nat, name: string, k: nat, node: Node)
    requires Inv(m) && d in m && k !in m && Fresh(node, d, k) && !AddProper(m, d, name, node)
    ensures !Inv(Added(m, d, name, k, node))
  {
    var m' := Added(m, d, name, k, node);
    assert NodeInv(m, d);
    SizeAfterPut(m[d].entries, name, k);
    assert name in m'[d].entries;
    if m[d].isDir && name !in m[d].entries && !IsDot(name) {
      assert NodeInv(m, k);
      LinksAfterAdd(m, d, name, k, node, k);
      FreshOk(m', d, name, k, node);
      assert !NodeInv(m', k);
    } else {
      assert !NodeInv(m', d);
    }
  }

  // ----- one more link -----

  function LinkAdded(m: Skeleton, ino: nat, d: nat, name: string): Skeleton
    requires d in m && ino in m
  {
    var m1 := m[d := Enter(m[d], name, ino)];
    m1[ino := m1[ino].(hardLinks := m1[ino].hardLinks + 1)]
  }

  predicate LinkProper(m: Skeleton, ino: nat, d: nat, name: string)
    requires d in m && ino in m
  {
    m[d].isDir && !m[ino].isDir && name !in m[d].entries && !IsDot(name)
  }

  lemma LinksAfterLink(m: Skeleton, ino: nat, d: nat, name: string, i: nat)
    requires d in m && ino in m && !IsDot(name) && name !in m[d].entries
    ensures Links(LinkAdded(m, ino, d, name), i) == Links(m, i) + if i == ino then {(d, name)} else {}
    ensures (d, name) !in Links(m, i)
  {
    var m1 := m[d := Enter(m[d], name, ino)];
    LinksPut(m, d, Enter(m[d], name, ino), name, ino, i);
    LinksSame(m1, ino, m1[ino].(hardLinks := m1[ino].hardLinks + 1), i);
    FreeNameIsNoLink(m, d, name, i);
  }

  lemma LinkKeepsNode(m: Skeleton, ino: nat, d: nat, name: string, i: nat)
    requires Inv(m) && d in m && ino in m && LinkProper(m, ino, d, name)
    ensures NodeInv(LinkAdded(m, ino, d, name), i)
  {
    var m' := LinkAdded(m, ino, d, name);
    LinksAfterLink(m, ino, d, name, i);
    assert NodeInv(m, i);
    if i == ino {
      MoreLinks(m, m', i, (d, name));
    } else if i == d {
      EnterOk(m, m', d, name, ino);
    } else if i in m {
      NodeSame(m, m', i);
    }
  }

  lemma LinkKeeps(m: Skeleton, ino: nat, d: nat, name: string)
    requires Inv(m) && d in m && ino in m && LinkProper(m, ino, d, name)
    ensures Inv(LinkAdded(m, ino, d, name))
  {
    var m' := LinkAdded(m, ino, d, name);
    LinkKeepsConnected(m, ino, d, name);
    forall i ensures NodeInv(m', i) {
      LinkKeepsNode(m, ino, d, name, i);
    }
  }

  lemma LinkKeepsConnected(m: Skeleton, ino: nat, d: nat, name: string)
    requires Inv(m) && d in m && ino in m && LinkProper(m, ino, d, name)
    ensures forall i :: i in m && m[i].isDir ==> Connected(LinkAdded(m, ino, d, name), i)
  {
    ParentsStay(m, LinkAdded(m, ino, d, name));
    ConnectedStill(m, LinkAdded(m, ino, d, name));
  }

  lemma LinkBreaks(m: Skeleton, ino: nat, d: nat, name: string)
    requires Inv(m) && d in m && ino in m && !LinkProper(m, ino, d, name)
    ensures !Inv(LinkAdded(m, ino, d, name))
  {
    var m' := LinkAdded(m, ino, d, name);
    assert NodeInv(m, d) && NodeInv(m, ino);
    SizeAfterPut(m[d].entries, name, ino);
    assert name in m'[d].entries;
    if m[ino].isDir {
      assert !NodeInv(m', ino);
    } else {
      assert !NodeInv(m', d);
    }
  }

  // ----- one link less -----

  function LinkDropped(m: Skeleton, ino: nat, d: nat, name: string): Skeleton
    requires d in m && ino in m && 0 < m[d].size && 0 < m[ino].hardLinks
  {
    var m1 := m[d := Leave(m[d], name)];
    if m1[ino].hardLinks == 1 then m1 - {ino} else m1[ino := m1[ino].(hardLinks := m1[ino].hardLinks - 1)]
  }

  predicate UnlinkProper(m: Skeleton, ino: nat, d: nat, name: string)
    requires d in m && ino in m && name in m[d].entries
  {
    !IsDot(name) && ino == m[d].entries[name] && !m[ino].isDir
  }

  lemma LinksAfterUnlink(m: Skeleton, ino: nat, d: nat, name: string, i: nat)
    requires Inv(m) && d in m && ino in m && 0 < m[d].size && 0 < m[ino].hardLinks
    requires name in m[d].entries && !IsDot(name) && !m[ino].isDir
    ensures Links(LinkDropped(m, ino, d, name), i) == Links(m, i) - {(d, name)}
  {
    var m1 := m[d := Leave(m[d], name)];
    LinksDrop(m, d, Leave(m[d], name), name, i);
    assert NodeInv(m, ino) && NodeInv(m, d);
    if m1[ino].hardLinks == 1 {
      LinksRemove(m1, ino, i);
    } else {
      LinksSame(m1, ino, m1[ino].(hardLinks := m1[ino].hardLinks - 1), i);
    }
  }

  /** An entry is a link of the inode that it names, and of no other. */
  lemma OneLink(m: Skeleton, d: nat, name: string, i: nat)
    requires d in m && name in m[d].entries && !IsDot(name)
    ensures i != m[d].entries[name] ==> Links(m, i) - {(d, name)} == Links(m, i)
    ensures i == m[d].entries[name] ==> |Links(m, i) - {(d, name)}| == |Links(m, i)| - 1
  {
    LinkIsIn(m, d, name);
  }

  lemma NoneLeft<T>(s: set<T>, t: T)
    requires t in s && |s| == 1
    ensures s == {t}
  {
    assert |s - {t}| == 0;
    assert s == (s - {t}) + {t};
  }

  lemma UnlinkKeepsNode(m: Skeleton, ino: nat, d: nat, name: string, i: nat)
    requires Inv(m) && d in m && ino in m && 0 < m[d].size && 0 < m[ino].hardLinks
    requires name in m[d].entries && UnlinkProper(m, ino, d, name)
    ensures NodeInv(LinkDropped(m, ino, d, name), i)
  {
    EntriesNameInodes(m, d, name);
    LinksAfterUnlink(m, ino, d, name, i);
    assert NodeInv(m, i);
    if i == ino {
      DroppedLinkAt(m, ino, d, name);
      FewerLinks(m, LinkDropped(m, ino, d, name), d, name, i);
    } else {
      OneLink(m, d, name, i);
      UnlinkKeepsOther(m, ino, d, name, i);
    }
  }

  lemma UnlinkKeepsOther(m: Skeleton, ino: nat, d: nat, name: string, i: nat)
    requires d in m && ino in m && 0 < m[d].size && 0 < m[ino].hardLinks && name in m[d].entries && !IsDot(name)
    requires i != ino && NodeInv(m, i) && Links(LinkDropped(m, ino, d, name), i) == Links(m, i)
    ensures NodeInv(LinkDropped(m, ino, d, name), i)
  {
    if i == d {
      LeaveOk(m, LinkDropped(m, ino, d, name), d, name);
    } else if i in m {
      NodeSame(m, LinkDropped(m, ino, d, name), i);
    }
  }

  lemma DroppedLinkAt(m: Skeleton, ino: nat, d: nat, name: string)
    requires d in m && ino in m && 0 < m[d].size && 0 < m[ino].hardLinks && d != ino
    ensures var m' := LinkDropped(m, ino, d, name);
      if m[ino].hardLinks == 1 then ino !in m' else ino in m' && m'[ino] == m[ino].(hardLinks := m[ino].hardLinks - 1)
  {
  }

  lemma UnlinkKeeps(m: Skeleton, ino: nat, d: nat, name: string)
    requires Inv(m) && d in m && ino in m && 0 < m[d].size && 0 < m[ino].hardLinks
    requires name in m[d].entries && UnlinkProper(m, ino, d, name)
    ensures Inv(LinkDropped(m, ino, d, name))
  {
    var m' := LinkDropped(m, ino, d, name);
    assert NodeInv(m, d) && NodeInv(m, ino);
    ParentsStay(m, m');
    ConnectedStill(m, m');
    forall i ensures NodeInv(m', i) {
      UnlinkKeepsNode(m, ino, d, name, i);
    }
  }

  lemma UnlinkBreaks(m: Skeleton, ino: nat, d: nat, name: string)
    requires Inv(m) && d in m && ino in m && 0 < m[d].size && 0 < m[ino].hardLinks
    requires name in m[d].entries && !UnlinkProper(m, ino, d, name)
    ensures !Inv(LinkDropped(m, ino, d, name))
  {
    var m' := LinkDropped(m, ino, d, name);
    assert NodeInv(m, d) && NodeInv(m, ino) && NodeInv(m, ROOT);
    if m[ino].isDir {
      assert !NodeInv(m', ino);
    } else if IsDot(name) {
      assert !NodeInv(m', d);
    } else {
      UnlinkOtherBreaks(m, ino, d, name);
    }
  }

  lemma UnlinkOtherBreaks(m: Skeleton, ino: nat, d: nat, name: string)
    requires Inv(m) && d in m && ino in m && 0 < m[d].size && 0 < m[ino].hardLinks
    requires name in m[d].entries && !IsDot(name) && !m[ino].isDir && ino != m[d].entries[name]
    ensures !Inv(LinkDropped(m, ino, d, name))
  {
    var k := m[d].entries[name];
    EntriesNameInodes(m, d, name);
    LinksAfterUnlink(m, ino, d, name, k);
    LostLink(m, LinkDropped(m, ino, d, name), d, name);
  }

  /** An inode that keeps its link count but loses a link is no longer right. */
  lemma LostLink(m: Skeleton, m': Skeleton, d: nat, name: string)
    requires Inv(m) && d in m && name in m[d].entries && !IsDot(name) && m[d].entries[name] in m
    requires var k := m[d].entries[name];
      && k in m' && m'[k].isDir == m[k].isDir && m'[k].hardLinks == m[k].hardLinks
      && Links(m', k) == Links(m, k) - {(d, name)}
    ensures !NodeInv(m', m[d].entries[name])
  {
    var k := m[d].entries[name];
    assert NodeInv(m, k);
    OneLink(m, d, name, k);
    if m[k].isDir {
      OnlyEntry(m, d, name);
      assert Links(m', k) == {};
    }
  }

  // ----- one node less -----

  function NodeDropped(m: Skeleton, d: nat, name: string): Skeleton
    requires d in m && name in m[d].entries && 0 < m[d].size
  {
    m[d := Leave(m[d], name)] - {m[d].entries[name]}
  }

  predicate RmdirProper(m: Skeleton, d: nat, name: string)
    requires d in m && name in m[d].entries && m[d].entries[name] in m
  {
    var n := m[m[d].entries[name]];
    !IsDot(name) && (n.isDir || n.hardLinks == 1)
  }

  lemma SmallTargetIsNameless(m: Skeleton, d: nat, name: string)
    requires Inv(m) && d in m && name in m[d].entries && !IsDot(name)
    requires m[d].entries[name] in m && m[m[d].entries[name]].size <= 2
    ensures var k := m[d].entries[name]; Nameless(m[k]) && k != ROOT && k != d
  {
    var k := m[d].entries[name];
    LinkIsIn(m, d, name);
    assert NodeInv(m, k) && NodeInv(m, ROOT);
    if m[k].isDir {
      EmptyIsNameless(m, k);
    }
  }

  lemma LinksAfterRmdir(m: Skeleton, d: nat, name: string, i: nat)
    requires Inv(m) && d in m && name in m[d].entries && !IsDot(name) && 0 < m[d].size
    requires m[d].entries[name] in m && m[m[d].entries[name]].size <= 2
    ensures Links(NodeDropped(m, d, name), i) == Links(m, i) - {(d, name)}
  {
    SmallTargetIsNameless(m, d, name);
    LinksDrop(m, d, Leave(m[d], name), name, i);
    LinksRemove(m[d := Leave(m[d], name)], m[d].entries[name], i);
  }

  lemma RmdirKeepsNode(m: Skeleton, d: nat, name: string, i: nat)
    requires Inv(m) && d in m && name in m[d].entries && 0 < m[d].size
    requires m[d].entries[name] in m && m[m[d].entries[name]].size <= 2 && RmdirProper(m, d, name)
    ensures NodeInv(NodeDropped(m, d, name), i)
  {
    var m', k := NodeDropped(m, d, name), m[d].entries[name];
    SmallTargetIsNameless(m, d, name);
    LinksAfterRmdir(m, d, name, i);
    if i == k {
      OnlyLink(m, d, name);
    } else {
      assert NodeInv(m, i);
      OneLink(m, d, name, i);
      RmdirKeepsOther(m, d, name, i);
    }
  }

  lemma RmdirKeepsOther(m: Skeleton, d: nat, name: string, i: nat)
    requires d in m && name in m[d].entries && 0 < m[d].size && !IsDot(name) && i != m[d].entries[name]
    requires NodeInv(m, i) && Links(NodeDropped(m, d, name), i) == Links(m, i)
    ensures NodeInv(NodeDropped(m, d, name), i)
  {
    if i == d {
      LeaveOk(m, NodeDropped(m, d, name), d, name);
    } else if i in m {
      NodeSame(m, NodeDropped(m, d, name), i);
    }
  }

  /** A directory, or a file with one link, is named by the entry at hand alone. */
  lemma OnlyLink(m: Skeleton, d: nat, name: string)
    requires Inv(m) && d in m && name in m[d].entries && m[d].entries[name] in m && RmdirProper(m, d, name)
    ensures Links(m, m[d].entries[name]) == {(d, name)}
  {
    var k := m[d].entries[name];
    assert NodeInv(m, k);
    if m[k].isDir {
      OnlyEntry(m, d, name);
    } else {
      LinkIsIn(m, d, name);
      NoneLeft(Links(m, k), (d, name));
    }
  }

  lemma RmdirKeeps(m: Skeleton, d: nat, name: string)
    requires Inv(m) && d in m && name in m[d].entries && 0 < m[d].size
    requires m[d].entries[name] in m && m[m[d].entries[name]].size <= 2 && RmdirProper(m, d, name)
    ensures Inv(NodeDropped(m, d, name))
  {
    var m' := NodeDropped(m, d, name);
    RmdirKeepsConnected(m, d, name);
    forall i ensures NodeInv(m', i) {
      RmdirKeepsNode(m, d, name, i);
    }
  }

  lemma RmdirKeepsConnected(m: Skeleton, d: nat, name: string)
    requires Inv(m) && d in m && name in m[d].entries && 0 < m[d].size
    requires m[d].entries[name] in m && m[m[d].entries[name]].size <= 2 && RmdirProper(m, d, name)
    ensures ROOT in NodeDropped(m, d, name) && NodeDropped(m, d, name)[ROOT].isDir
    ensures forall i :: i in NodeDropped(m, d, name) && m[i].isDir ==> Connected(NodeDropped(m, d, name), i)
  {
    var m', k := NodeDropped(m, d, name), m[d].entries[name];
    SmallTargetIsNameless(m, d, name);
    NamelessIsNoParent(m, k);
    forall j | j in m' && ".." in m[j].entries ensures m[j].entries[".."] in m' {
      NamedParent(m, j);
    }
    ConnectedStill(m, m');
  }

  /** Nothing has an empty directory for its parent. */
  lemma NamelessIsNoParent(m: Skeleton, k: nat)
    requires Inv(m) && k in m && Nameless(m[k])
    ensures forall j :: j in m && ".." in m[j].entries ==> m[j].entries[".."] != k
  {
    forall j | j in m && ".." in m[j].entries ensures m[j].entries[".."] != k {
      NamedParent(m, j);
      ParentHolds(m, j);
    }
  }

  lemma RmdirBreaks(m: Skeleton, d: nat, name: string)
    requires Inv(m) && d in m && name in m[d].entries && 0 < m[d].size
    requires m[d].entries[name] in m && m[m[d].entries[name]].size <= 2 && !RmdirProper(m, d, name)
    ensures !Inv(NodeDropped(m, d, name))
  {
    var m', k := NodeDropped(m, d, name), m[d].entries[name];
    assert NodeInv(m, d) && NodeInv(m, k);
    if IsDot(name) {
      RmdirDotBreaks(m, d, name);
    } else {
      LinksAfterRmdir(m, d, name, k);
      OneLink(m, d, name, k);
      assert |Links(m', k)| != 0;
      assert !NodeInv(m', k);
    }
  }

  /** Removing `.` or `..` removes the directory itself or its parent, while something still names it. */
  lemma RmdirDotBreaks(m: Skeleton, d: nat, name: string)
    requires Inv(m) && d in m && name in m[d].entries && 0 < m[d].size
    requires m[d].entries[name] in m && m[m[d].entries[name]].size <= 2 && IsDot(name)
    ensures !Inv(NodeDropped(m, d, name))
  {
    var m', k := NodeDropped(m, d, name), m[d].entries[name];
    EntriesNameInodes(m, d, name);
    assert NodeInv(m, d) && NodeInv(m, k);
    if k != ROOT {
      if name == "." {
        ParentHolds(m, k);
        var p := m[k].entries[".."];
        var n :| Links(m, k) == {(p, n)} && !IsDot(n) && n in m[p].entries && m[p].entries[n] == k;
        ParentIsNotItself(m, k);
        LinkIsIn(m', p, n);
        assert !NodeInv(m', k);
      } else {
        ParentHolds(m, d);
        EmptyIsNameless(m, k);
      }
    }
  }

  lemma ParentIsNotItself(m: Skeleton, i: nat)
    requires Inv(m) && i in m && m[i].isDir && i != ROOT
    ensures ".." in m[i].entries && m[i].entries[".."] != i
  {
    assert NodeInv(m, i);
    if m[i].entries[".."] == i {
      var k: nat :| ReachesRoot(m, i, k);
      SelfLoopNeverReaches(m, i, k);
    }
  }

  lemma {:induction false} SelfLoopNeverReaches(m: Skeleton, i: nat, k: nat)
    requires i in m && i != ROOT && ".." in m[i].entries && m[i].entries[".."] == i
    ensures !ReachesRoot(m, i, k)
    decreases k
  {
    if 0 < k {
      SelfLoopNeverReaches(m, i, k - 1);
    }
  }
}
