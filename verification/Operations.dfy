/** The logged operations and what applying them does to the bottom file system:
    src/operation.rs, src/rvfs2/common.rs. */
module Operations {
  import opened Common
  import opened Access

  datatype Operation =
    | Write(ino: nat, offset: nat, data: seq<u8>)
    | Create(parentIno: nat, name: string, uid: nat, gid: nat, perm: bv16)
    | Delete(parentIno: nat, name: string)
    | Rename(oldParentIno: nat, oldName: string, newParentIno: nat, newName: string)
    | Mkdir(parentIno: nat, name: string, uid: nat, gid: nat, perm: bv16)
    | Truncate(ino: nat, length: nat)

  /** An inode bucket: data blocks under `data_<n>`, directory entries under their names. */
  datatype Node = Node(mode: bv16, uid: nat, gid: nat, size: nat, hardLinks: nat,
                       blocks: map<nat, seq<u8>>, entries: map<string, nat>)

  datatype Store = Store(nodes: map<nat, Node>, nextIno: nat)

  const BLOCK_SIZE: nat := 4096

  /** A write replaces the whole value of the block that its offset falls in. */
  function NodeWrite(n: Node, offset: nat, data: seq<u8>): Node {
    n.(blocks := n.blocks[offset / BLOCK_SIZE := data], size := Max(n.size, offset + |data|))
  }

  /** A truncate sets the size and drops every block that starts at or past it. */
  function NodeTruncate(n: Node, size: nat): Node {
    n.(blocks := map b | b in n.blocks && b < (size + BLOCK_SIZE - 1) / BLOCK_SIZE :: n.blocks[b], size := size)
  }

  function ApplyCreate(s: Store, parent: nat, name: string, uid: nat, gid: nat, mode: bv16): (r: Result<Store>) {
    if parent !in s.nodes then Err(NoData)
    else if name in s.nodes[parent].entries then Err(FileExists)
    else if s.nextIno in s.nodes then Err(FileExists)
    else
      var p := s.nodes[parent];
      var links := if Contains(mode, S_IFDIR) then p.hardLinks + 1 else p.hardLinks;
      var node := Node(mode, uid, gid, 0, 1, map[], map[]);
      Ok(Store(s.nodes[s.nextIno := node][parent := p.(entries := p.entries[name := s.nextIno], hardLinks := links)],
               s.nextIno + 1))
  }

  function ApplyDelete(s: Store, parent: nat, name: string): (r: Result<Store>) {
    if parent !in s.nodes then Err(NoData)
    else if name !in s.nodes[parent].entries then Err(NotFound)
    else
      var ino := s.nodes[parent].entries[name];
      var nodes := s.nodes[parent := s.nodes[parent].(entries := s.nodes[parent].entries - {name})];
      if ino !in nodes then Err(NoData)
      else if nodes[ino].hardLinks <= 1 then Ok(s.(nodes := nodes - {ino}))
      else Ok(s.(nodes := nodes[ino := nodes[ino].(hardLinks := nodes[ino].hardLinks - 1)]))
  }

  function ApplyRename(s: Store, oldParent: nat, oldName: string, newParent: nat, newName: string): (r: Result<Store>) {
    if oldParent !in s.nodes then Err(NoData)
    else if oldName !in s.nodes[oldParent].entries then Err(NotFound)
    else
      var ino := s.nodes[oldParent].entries[oldName];
      var nodes := s.nodes[oldParent := s.nodes[oldParent].(entries := s.nodes[oldParent].entries - {oldName})];
      if newParent !in nodes then Err(NoData)
      else Ok(s.(nodes := nodes[newParent := nodes[newParent].(entries := nodes[newParent].entries[newName := ino])]))
  }

  /** The effect of `apply`: each operation is one database transaction, so an error changes nothing. */
  function Apply(s: Store, op: Operation): (r: Result<Store>) {
    match op
    case Write(ino, offset, data) =>
      if ino !in s.nodes then Err(NoData) else Ok(s.(nodes := s.nodes[ino := NodeWrite(s.nodes[ino], offset, data)]))
    case Truncate(ino, length) =>
      if ino !in s.nodes then Err(NoData) else Ok(s.(nodes := s.nodes[ino := NodeTruncate(s.nodes[ino], length)]))
    case Create(parent, name, uid, gid, perm) => ApplyCreate(s, parent, name, uid, gid, perm)
    case Mkdir(parent, name, uid, gid, perm) => ApplyCreate(s, parent, name, uid, gid, perm | S_IFDIR)
    case Delete(parent, name) => ApplyDelete(s, parent, name)
    case Rename(oldParent, oldName, newParent, newName) => ApplyRename(s, oldParent, oldName, newParent, newName)
  }

  predicate IsCreation(op: Operation) {
    op.Create? || op.Mkdir?
  }

  /** The store after an operation that failed: a creation that finds its inode number in use has taken that
      number from the counter all the same. */
  function Failed(s: Store, op: Operation): Store {
    if IsCreation(op) && op.parentIno in s.nodes && op.name !in s.nodes[op.parentIno].entries
    then s.(nextIno := s.nextIno + 1)
    else s
  }

  predicate HasEntry(s: Store, dir: nat, name: string) {
    dir in s.nodes && name in s.nodes[dir].entries
  }

  /** Applies operations in order and stops at the first error: the loops of commit and replay. */
  function ApplyAll(s: Store, ops: seq<Operation>): (r: Store)
    decreases |ops|
  {
    if ops == [] then s
    else match Apply(s, ops[0])
      case Ok(t) => ApplyAll(t, ops[1..])
      case Err(_) => Failed(s, ops[0])
  }

  /** Every operation applies. */
  predicate Succeeds(s: Store, ops: seq<Operation>)
    decreases |ops|
  {
    ops == [] || (Apply(s, ops[0]).Ok? && Succeeds(Apply(s, ops[0]).value, ops[1..]))
  }

  /** A log applies its first part, and its second part only if the first applies in full. */
  lemma {:induction false} ApplyJoin(s: Store, a: seq<Operation>, b: seq<Operation>)
    ensures ApplyAll(s, a + b) == if Succeeds(s, a) then ApplyAll(ApplyAll(s, a), b) else ApplyAll(s, a)
    ensures Succeeds(s, a + b) <==> Succeeds(s, a) && Succeeds(ApplyAll(s, a), b)
    decreases |a|
  {
    if a == [] {
      assert a + b == b;
    } else {
      assert (a + b)[1..] == a[1..] + b && (a + b)[0] == a[0];
      if Apply(s, a[0]).Ok? {
        ApplyJoin(Apply(s, a[0]).value, a[1..], b);
      }
    }
  }

  /** Applying an operation a second time either fails or changes nothing. */
  lemma RedoOnce(s: Store, op: Operation)
    requires Apply(s, op).Ok?
    ensures Apply(Apply(s, op).value, op).Err? || Apply(Apply(s, op).value, op) == Apply(s, op)
  {
    var t := Apply(s, op).value;
    match op
    case Write(ino, offset, data) =>
      assert NodeWrite(t.nodes[ino], offset, data) == t.nodes[ino];
      assert t.nodes[ino := t.nodes[ino]] == t.nodes;
    case Truncate(ino, length) =>
      assert NodeTruncate(t.nodes[ino], length) == t.nodes[ino];
      assert t.nodes[ino := t.nodes[ino]] == t.nodes;
    case Create(parent, name, uid, gid, perm) =>
    case Mkdir(parent, name, uid, gid, perm) =>
    case Delete(parent, name) =>
    case Rename(oldParent, oldName, newParent, newName) =>
      if oldParent == newParent && oldName == newName {
        assert t == s by {
          assert t.nodes[oldParent].entries == s.nodes[oldParent].entries;
          assert t.nodes == s.nodes;
        }
      }
  }

  // ----- restarts -----

  /** The store as a restart finds it. The inode counter lives in memory: a mount loads the value that was stored
      when the file system was last synced. */
  function Boot(s: Store, synced: nat): Store {
    s.(nextIno := synced)
  }

  /** The store after restarts whose replays were cut off one after another, the n-th after ks[n] operations. */
  function AfterCutReplays(s: Store, synced: nat, log: seq<Operation>, ks: seq<nat>): Store {
    if ks == [] then s
    else
      var n := |ks| - 1;
      ApplyAll(Boot(AfterCutReplays(s, synced, log, ks[..n]), synced), Take(log, ks[n]))
  }

  // ----- redo of writes and truncates -----

  predicate DataOnly(op: Operation) {
    op.Write? || op.Truncate?
  }

  /** A data operation on its inode. */
  function NodeDo(n: Node, op: Operation): Node
    requires DataOnly(op)
  {
    match op
    case Write(_, offset, data) => NodeWrite(n, offset, data)
    case Truncate(_, length) => NodeTruncate(n, length)
  }

  function Do(s: Store, op: Operation): (t: Store)
    requires DataOnly(op) && op.ino in s.nodes
    ensures t.nodes.Keys == s.nodes.Keys && Apply(s, op) == Ok(t)
  {
    s.(nodes := s.nodes[op.ino := NodeDo(s.nodes[op.ino], op)])
  }

  /** Doing `o` before `h` is not seen once `o` is done again after `h`. */
  lemma NodeAbsorbs(n: Node, o: Operation, h: Operation)
    requires DataOnly(o) && DataOnly(h)
    ensures NodeDo(NodeDo(NodeDo(n, o), h), o) == NodeDo(NodeDo(n, h), o)
  {
    var x, y := NodeDo(NodeDo(NodeDo(n, o), h), o), NodeDo(NodeDo(n, h), o);
    assert x.size == y.size;
    assert x.blocks == y.blocks;
  }

  lemma DoAbsorbs(s: Store, o: Operation, h: Operation)
    requires DataOnly(o) && DataOnly(h) && o.ino in s.nodes && h.ino in s.nodes
    ensures Do(Do(Do(s, o), h), o) == Do(Do(s, h), o)
  {
    var x, y := Do(Do(Do(s, o), h), o).nodes, Do(Do(s, h), o).nodes;
    NodeAbsorbs(s.nodes[o.ino], o, h);
    NodeAbsorbs(s.nodes[o.ino], o, o);
    NodeTwice(s.nodes[o.ino], o);
    forall i | i in x ensures x[i] == y[i] {
    }
    assert x == y;
  }

  lemma NodeTwice(n: Node, o: Operation)
    requires DataOnly(o)
    ensures NodeDo(NodeDo(n, o), o) == NodeDo(n, o)
  {
    assert NodeDo(NodeDo(n, o), o).blocks == NodeDo(n, o).blocks;
  }

  /** One operation of a log that would be reached is absorbed by the whole log. */
  lemma {:induction false} LogAbsorbs(s: Store, log: seq<Operation>, i: nat)
    requires i < |log| && forall j :: 0 <= j <= i ==> DataOnly(log[j]) && log[j].ino in s.nodes
    ensures ApplyAll(Do(s, log[i]), log) == ApplyAll(s, log)
    decreases |log|
  {
    var o, h, rest := log[i], log[0], log[1..];
    if i == 0 {
      NodeTwice(s.nodes[o.ino], o);
      assert Do(Do(s, o), o).nodes == Do(s, o).nodes;
    } else {
      assert rest[i - 1] == o;
      LogAbsorbs(Do(Do(s, o), h), rest, i - 1);
      LogAbsorbs(Do(s, h), rest, i - 1);
      DoAbsorbs(s, o, h);
    }
  }

  ghost predicate AllDataOnly(log: seq<Operation>) {
    forall j :: 0 <= j < |log| ==> DataOnly(log[j])
  }

  /** The first `k` operations end with operation `k - 1`, unless an earlier one already stopped the loop. */
  lemma {:induction false} PrefixStep(s: Store, log: seq<Operation>, k: nat)
    requires 0 < k <= |log| && AllDataOnly(log)
    ensures ApplyAll(s, log[..k - 1]).nodes.Keys == s.nodes.Keys
    ensures (forall j :: 0 <= j < k ==> log[j].ino in s.nodes) ==>
      ApplyAll(s, log[..k]) == Do(ApplyAll(s, log[..k - 1]), log[k - 1])
    ensures !(forall j :: 0 <= j < k ==> log[j].ino in s.nodes) ==> ApplyAll(s, log[..k]) == ApplyAll(s, log[..k - 1])
    decreases k
  {
    var h, rest := log[0], log[1..];
    assert log[..k][1..] == rest[..k - 1] && log[..k][0] == h;
    if k == 1 {
      assert rest[..0] == [];
    } else {
      assert log[..k - 1][1..] == rest[..k - 2] && log[..k - 1][0] == h;
      if h.ino in s.nodes {
        PrefixStep(Do(s, h), rest, k - 1);
        assert (forall j :: 0 <= j < k ==> log[j].ino in s.nodes)
               <==> (forall j :: 0 <= j < k - 1 ==> rest[j].ino in s.nodes) by {
          assert forall j :: 0 <= j < k - 1 ==> rest[j] == log[j + 1];
          assert forall j :: 0 < j < k ==> log[j] == rest[j - 1];
        }
      }
    }
  }

  /** Redo: with any prefix of a log of writes and truncates already applied, applying the whole log
      from its start gives the store that applying it once gives. */
  lemma {:induction false} RedoFromAnyPrefix(s: Store, log: seq<Operation>, k: nat)
    requires AllDataOnly(log) && k <= |log|
    ensures ApplyAll(ApplyAll(s, log[..k]), log) == ApplyAll(s, log)
  {
    if k > 0 {
      RedoFromAnyPrefix(s, log, k - 1);
      PrefixStep(s, log, k);
      if forall j :: 0 <= j < k ==> log[j].ino in s.nodes {
        LogAbsorbs(ApplyAll(s, log[..k - 1]), log, k - 1);
      }
    }
  }

  /** Writes and truncates neither use the inode counter nor move it. */
  lemma {:induction false} BootCommutes(s: Store, synced: nat, log: seq<Operation>)
    requires AllDataOnly(log)
    ensures ApplyAll(Boot(s, synced), log) == Boot(ApplyAll(s, log), synced)
    ensures ApplyAll(s, log).nextIno == s.nextIno
    decreases |log|
  {
    if log != [] && log[0].ino in s.nodes {
      assert Do(Boot(s, synced), log[0]) == Boot(Do(s, log[0]), synced);
      BootCommutes(Do(s, log[0]), synced, log[1..]);
    }
  }

  /** However many times replay itself is cut off, the replay that completes gives the same store. */
  lemma {:induction false} RedoAfterCutReplays(s: Store, synced: nat, log: seq<Operation>, ks: seq<nat>)
    requires AllDataOnly(log)
    ensures ApplyAll(Boot(AfterCutReplays(s, synced, log, ks), synced), log) == ApplyAll(Boot(s, synced), log)
  {
    if ks != [] {
      var n := |ks| - 1;
      var x := Boot(AfterCutReplays(s, synced, log, ks[..n]), synced);
      RedoAfterCutReplays(s, synced, log, ks[..n]);
      RedoFromAnyPrefix(x, log, Min(ks[n], |log|));
      BootCommutes(x, synced, Take(log, ks[n]));
    }
  }

  // ----- redo of logs with namespace operations -----

  /** The operations of `log` act on nodes of `s`. */
  ghost predicate UsesNodes(log: seq<Operation>, s: Store) {
    forall j :: 0 <= j < |log| ==> DataOnly(log[j]) && log[j].ino in s.nodes
  }

  lemma {:induction false} DataSucceedsIff(s: Store, log: seq<Operation>)
    requires AllDataOnly(log)
    ensures Succeeds(s, log) <==> UsesNodes(log, s)
    ensures ApplyAll(s, log).nodes.Keys == s.nodes.Keys
    decreases |log|
  {
    if log != [] {
      assert forall j :: 0 <= j < |log| - 1 ==> log[1..][j] == log[j + 1];
      if log[0].ino in s.nodes {
        var t := Do(s, log[0]);
        DataSucceedsIff(t, log[1..]);
        assert UsesNodes(log[1..], t) ==> UsesNodes(log, s) by {
          forall j | 0 <= j < |log| && UsesNodes(log[1..], t) ensures log[j].ino in s.nodes {
            if 0 < j {
              assert log[1..][j - 1].ino in t.nodes;
            }
          }
        }
      }
    }
  }

  /** As long as only writes and truncates were applied, the whole log is absorbed, whatever follows them in it. */
  lemma RedoWithinData(s: Store, data: seq<Operation>, rest: seq<Operation>, k: nat)
    requires AllDataOnly(data) && k <= |data|
    ensures ApplyAll(ApplyAll(s, (data + rest)[..k]), data + rest) == ApplyAll(s, data + rest)
  {
    assert (data + rest)[..k] == data[..k];
    var t := ApplyAll(s, data[..k]);
    assert AllDataOnly(data[..k]);
    DataSucceedsIff(s, data[..k]);
    DataSucceedsIff(s, data);
    DataSucceedsIff(t, data);
    assert UsesNodes(data, s) <==> UsesNodes(data, t);
    RedoFromAnyPrefix(s, data, k);
    ApplyJoin(s, data, rest);
    ApplyJoin(t, data, rest);
  }

  /** `t` with the data of `x` in the nodes that `log` uses. */
  function Overlay(t: Store, x: Store, inos: set<nat>): Store
    requires inos <= t.nodes.Keys && inos <= x.nodes.Keys
  {
    t.(nodes := map i | i in t.nodes ::
      if i in inos then t.nodes[i].(size := x.nodes[i].size, blocks := x.nodes[i].blocks) else t.nodes[i])
  }

  lemma OverlayDo(t: Store, x: Store, inos: set<nat>, op: Operation)
    requires inos <= t.nodes.Keys && inos <= x.nodes.Keys && DataOnly(op) && op.ino in inos
    ensures Do(Overlay(t, x, inos), op) == Overlay(t, Do(x, op), inos)
  {
    var y, z := Do(Overlay(t, x, inos), op), Overlay(t, Do(x, op), inos);
    forall i | i in t.nodes ensures y.nodes[i] == z.nodes[i] {
    }
    assert y.nodes == z.nodes;
  }

  /** Writes and truncates do to the data what they do elsewhere to the same data. */
  lemma {:induction false} OverlayAll(t: Store, x: Store, inos: set<nat>, log: seq<Operation>)
    requires inos <= t.nodes.Keys && inos <= x.nodes.Keys
    requires forall j :: 0 <= j < |log| ==> DataOnly(log[j]) && log[j].ino in inos
    ensures Succeeds(Overlay(t, x, inos), log) && ApplyAll(x, log).nodes.Keys == x.nodes.Keys
    ensures ApplyAll(Overlay(t, x, inos), log) == Overlay(t, ApplyAll(x, log), inos)
    decreases |log|
  {
    if log != [] {
      OverlayDo(t, x, inos, log[0]);
      OverlayAll(t, Do(x, log[0]), inos, log[1..]);
    }
  }

  /** A namespace operation leaves the data of every node that stays as it was. */
  lemma DataStays(s: Store, op: Operation, i: nat)
    requires !DataOnly(op) && Apply(s, op).Ok? && i in s.nodes && i in Apply(s, op).value.nodes
    ensures var t := Apply(s, op).value; t.nodes[i].size == s.nodes[i].size && t.nodes[i].blocks == s.nodes[i].blocks
  {
  }

  ghost function InosOf(log: seq<Operation>): set<nat>
    requires AllDataOnly(log)
  {
    set j | 0 <= j < |log| :: log[j].ino
  }

  /** Writes and truncates that were followed by a namespace operation change nothing when they are redone, if
      their nodes are still there. */
  lemma RedoDataAfter(s: Store, data: seq<Operation>, op: Operation, t: Store)
    requires AllDataOnly(data) && Succeeds(s, data) && !DataOnly(op)
    requires Apply(ApplyAll(s, data), op) == Ok(t) && UsesNodes(data, t)
    ensures Succeeds(t, data) && ApplyAll(t, data) == t
  {
    var u, inos := ApplyAll(s, data), InosOf(data);
    DataSucceedsIff(s, data);
    assert data[..|data|] == data;
    RedoFromAnyPrefix(s, data, |data|);
    forall i | i in inos ensures t.nodes[i].size == u.nodes[i].size && t.nodes[i].blocks == u.nodes[i].blocks {
      DataStays(u, op, i);
    }
    assert Overlay(t, u, inos).nodes == t.nodes;
    OverlayAll(t, u, inos, data);
  }

  /** Only a rename of an entry onto itself applies a second time. */
  lemma RepeatsIff(s: Store, op: Operation)
    requires !DataOnly(op) && Apply(s, op).Ok?
    ensures Apply(Apply(s, op).value, op).Ok? <==>
      op.Rename? && op.oldParentIno == op.newParentIno && op.oldName == op.newName
  {
  }

  /** Redo over the first namespace operation of a log: unless that operation removed a node that is written
      before it, the operations before it change nothing, it fails itself, and the rest is never reached. */
  lemma RedoPastFirst(s: Store, data: seq<Operation>, op: Operation, rest: seq<Operation>, t: Store)
    requires AllDataOnly(data) && Succeeds(s, data) && !DataOnly(op)
    requires Apply(ApplyAll(s, data), op) == Ok(t) && UsesNodes(data, t)
    ensures ApplyAll(t, data + [op] + rest) == if Apply(t, op).Err? then t else ApplyAll(t, rest)
  {
    RedoDataAfter(s, data, op, t);
    RedoOnce(ApplyAll(s, data), op);
    assert data + [op] + rest == data + ([op] + rest);
    ApplyJoin(t, data, [op] + rest);
    assert ([op] + rest)[0] == op && ([op] + rest)[1..] == rest;
  }

  /** So redo after the first namespace operation is absorbed exactly when the rest of the log changes nothing,
      or when that operation was a rename of an entry onto itself. */
  lemma RedoPastFirstIsAbsorbedIff(s: Store, data: seq<Operation>, op: Operation, rest: seq<Operation>, t: Store)
    requires AllDataOnly(data) && Succeeds(s, data) && !DataOnly(op)
    requires Apply(ApplyAll(s, data), op) == Ok(t) && UsesNodes(data, t)
    ensures ApplyAll(t, data + [op] + rest) == ApplyAll(s, data + [op] + rest)
       <==> (ApplyAll(t, rest) == t || (op.Rename? && op.oldParentIno == op.newParentIno && op.oldName == op.newName))
  {
    RedoPastFirst(s, data, op, rest, t);
    RepeatsIff(ApplyAll(s, data), op);
    assert data + [op] + rest == data + ([op] + rest);
    ApplyJoin(s, data, [op] + rest);
    assert ([op] + rest)[0] == op && ([op] + rest)[1..] == rest;
  }

  /** When the first namespace operation removed a node that is written before it, redo stops at the first such
      write, number `m`, with the writes before it done again. */
  lemma RedoStopsAtRemovedNode(data: seq<Operation>, rest: seq<Operation>, t: Store, m: nat)
    requires AllDataOnly(data) && m < |data| && data[m].ino !in t.nodes && UsesNodes(data[..m], t)
    ensures ApplyAll(t, data + rest) == ApplyAll(t, data[..m])
  {
    var later := data[m + 1..] + rest;
    assert data + rest == data[..m] + ([data[m]] + later);
    assert AllDataOnly(data[..m]);
    DataSucceedsIff(t, data[..m]);
    ApplyJoin(t, data[..m], [data[m]] + later);
    assert ([data[m]] + later)[0] == data[m];
  }

  /** Then redo is absorbed exactly when doing those writes again has the same effect as the rest of the log. */
  lemma RedoPastRemovalIsAbsorbedIff(s: Store, data: seq<Operation>, op: Operation, rest: seq<Operation>, t: Store,
                                     m: nat)
    requires AllDataOnly(data) && Succeeds(s, data) && Apply(ApplyAll(s, data), op) == Ok(t)
    requires m < |data| && data[m].ino !in t.nodes && UsesNodes(data[..m], t)
    ensures ApplyAll(t, data + [op] + rest) == ApplyAll(s, data + [op] + rest)
       <==> ApplyAll(t, data[..m]) == ApplyAll(t, rest)
  {
    assert data + [op] + rest == data + ([op] + rest);
    RedoStopsAtRemovedNode(data, [op] + rest, t, m);
    ApplyJoin(s, data, [op] + rest);
    assert ([op] + rest)[0] == op && ([op] + rest)[1..] == rest;
  }

  // ----- a log with one namespace operation, at its end -----

  /** The operation does not delete a node that the data operations before it use. */
  ghost predicate Spares(s: Store, data: seq<Operation>, op: Operation)
    requires AllDataOnly(data)
  {
    op.Delete? && HasEntry(s, op.parentIno, op.name) ==> s.nodes[op.parentIno].entries[op.name] !in InosOf(data)
  }

  lemma {:induction false} EntriesStay(s: Store, data: seq<Operation>, d: nat)
    requires AllDataOnly(data)
    ensures ApplyAll(s, data).nodes.Keys == s.nodes.Keys
    ensures d in s.nodes ==> ApplyAll(s, data).nodes[d].entries == s.nodes[d].entries
    decreases |data|
  {
    if data != [] && data[0].ino in s.nodes {
      EntriesStay(Do(s, data[0]), data[1..], d);
    }
  }

  lemma SparesKeepsNodes(s: Store, data: seq<Operation>, op: Operation)
    requires AllDataOnly(data) && Succeeds(s, data) && !DataOnly(op) && Spares(s, data, op)
    requires Apply(ApplyAll(s, data), op).Ok?
    ensures UsesNodes(data, Apply(ApplyAll(s, data), op).value)
  {
    var u := ApplyAll(s, data);
    DataSucceedsIff(s, data);
    if op.Delete? {
      EntriesStay(s, data, op.parentIno);
    }
    forall j | 0 <= j < |data| ensures data[j].ino in Apply(u, op).value.nodes {
      assert data[j].ino in InosOf(data);
    }
  }

  /** A namespace operation that was applied fails quietly when it is applied again after a restart, or does the
      same again. */
  lemma RepeatsQuietly(u: Store, op: Operation, synced: nat)
    requires !DataOnly(op) && Apply(u, op).Ok?
    ensures ApplyAll(Boot(Apply(u, op).value, synced), [op]).nodes == Apply(u, op).value.nodes
  {
    var t := Apply(u, op).value;
    assert [op][1..] == [];
    RedoOnce(u, op);
  }

  /** A log of writes and truncates with one namespace operation at its end that spares the nodes that they use is
      absorbed after a crash in the loop that applies it. Only a creation tells where the crash was: the
      number is the running process's if the loop got that far, and that of the restart if not. */
  lemma RedoOfOneAtEnd(s: Store, synced: nat, data: seq<Operation>, op: Operation, k: nat)
    requires AllDataOnly(data) && Spares(s, data, op)
    ensures var log := data + [op];
      ApplyAll(Boot(ApplyAll(s, Take(log, k)), synced), log).nodes
      == ApplyAll(if |data| < k && Succeeds(s, log) then s else Boot(s, synced), log).nodes
  {
    var log := data + [op];
    if k <= |data| {
      assert Take(log, k) == data[..k];
      assert AllDataOnly(data[..k]);
      BootCommutes(s, synced, data[..k]);
      RedoWithinData(Boot(s, synced), data, [op], k);
    } else {
      assert Take(log, k) == log;
      ApplyJoin(s, data, [op]);
      assert [op][1..] == [];
      if !DataOnly(op) && Succeeds(s, log) {
        RedoAppliedAtEnd(s, synced, data, op);
      } else {
        RedoDataOrFailed(s, synced, data, op);
        if DataOnly(op) {
          BootCommutes(s, synced, log);
        }
      }
    }
  }

  lemma RedoAppliedAtEnd(s: Store, synced: nat, data: seq<Operation>, op: Operation)
    requires AllDataOnly(data) && Spares(s, data, op) && !DataOnly(op) && Succeeds(s, data + [op])
    ensures ApplyAll(Boot(ApplyAll(s, data + [op]), synced), data + [op]).nodes == ApplyAll(s, data + [op]).nodes
  {
    ApplyJoin(s, data, [op]);
    var u := ApplyAll(s, data);
    var t := Apply(u, op).value;
    assert [op][1..] == [] && ApplyAll(u, [op]) == ApplyAll(t, []) == t;
    SparesKeepsNodes(s, data, op);
    RedoDataAfter(s, data, op, t);
    BootCommutes(t, synced, data);
    DataSucceedsIff(Boot(t, synced), data);
    DataSucceedsIff(t, data);
    ApplyJoin(Boot(t, synced), data, [op]);
    RepeatsQuietly(u, op, synced);
  }

  lemma RedoDataOrFailed(s: Store, synced: nat, data: seq<Operation>, op: Operation)
    requires AllDataOnly(data) && (DataOnly(op) || !Succeeds(s, data + [op]))
    ensures ApplyAll(Boot(ApplyAll(s, data + [op]), synced), data + [op]) == ApplyAll(Boot(s, synced), data + [op])
  {
    var log := data + [op];
    BootCommutes(s, synced, data);
    if DataOnly(op) {
      BootCommutes(s, synced, log);
      assert log[..|log|] == log;
      RedoFromAnyPrefix(Boot(s, synced), log, |log|);
    } else {
      ApplyJoin(s, data, [op]);
      assert [op][1..] == [];
      assert Succeeds(s, data) ==> Apply(ApplyAll(s, data), op).Err?;
      assert Boot(ApplyAll(s, log), synced) == Boot(ApplyAll(s, data), synced);
      assert (data + [op])[..|data|] == data;
      RedoWithinData(Boot(s, synced), data, [op], |data|);
    }
  }

  lemma SparesStill(s: Store, data: seq<Operation>, op: Operation, k: nat)
    requires AllDataOnly(data) && Spares(s, data, op)
    ensures Spares(ApplyAll(s, Take(data + [op], k)), data, op)
  {
    if op.Delete? {
      if k <= |data| {
        assert Take(data + [op], k) == data[..k];
        assert AllDataOnly(data[..k]);
        EntriesStay(s, data[..k], op.parentIno);
      } else {
        assert Take(data + [op], k) == data + [op] && [op][1..] == [];
        EntriesStay(s, data, op.parentIno);
        ApplyJoin(s, data, [op]);
        var u := ApplyAll(s, data);
        if Succeeds(s, data) && Apply(u, op).Ok? {
          assert ApplyAll(u, [op]) == ApplyAll(Apply(u, op).value, []) == Apply(u, op).value;
        }
      }
    }
  }

  /** However many times replay of such a log is cut off, the one that completes gives the same files. */
  lemma {:induction false} RedoOfOneAfterCutReplays(s: Store, synced: nat, data: seq<Operation>, op: Operation,
                                                    ks: seq<nat>)
    requires AllDataOnly(data) && Spares(s, data, op)
    ensures Spares(AfterCutReplays(s, synced, data + [op], ks), data, op)
    ensures ApplyAll(Boot(AfterCutReplays(s, synced, data + [op], ks), synced), data + [op]).nodes
         == ApplyAll(Boot(s, synced), data + [op]).nodes
  {
    if ks != [] {
      var n := |ks| - 1;
      RedoOfOneAfterCutReplays(s, synced, data, op, ks[..n]);
      var x := Boot(AfterCutReplays(s, synced, data + [op], ks[..n]), synced);
      RedoOfOneAtEnd(x, synced, data, op, ks[n]);
      SparesStill(x, data, op, ks[n]);
    }
  }

  // ----- logs that create and never delete or rename -----

  predicate Grows(op: Operation) {
    DataOnly(op) || IsCreation(op)
  }

  lemma {:induction false} GrowthKeeps(s: Store, log: seq<Operation>, d: nat, name: string)
    requires forall j :: 0 <= j < |log| ==> Grows(log[j])
    ensures s.nodes.Keys <= ApplyAll(s, log).nodes.Keys
    ensures HasEntry(s, d, name) ==> HasEntry(ApplyAll(s, log), d, name)
    decreases |log|
  {
    if log != [] && Apply(s, log[0]).Ok? {
      var t := Apply(s, log[0]).value;
      assert s.nodes.Keys <= t.nodes.Keys && (HasEntry(s, d, name) ==> HasEntry(t, d, name));
      GrowthKeeps(t, log[1..], d, name);
    }
  }

  /** Once its first creation, number `i`, is applied, redo of a log from any later prefix does the data
      operations before that creation again and stops at it. */
  lemma RedoStopsAtFirstCreation(s: Store, log: seq<Operation>, i: nat, k: nat)
    requires Succeeds(s, log) && i < k <= |log| && IsCreation(log[i])
    requires AllDataOnly(log[..i]) && forall j :: 0 <= j < |log| ==> Grows(log[j])
    ensures var t := ApplyAll(s, log[..k]); ApplyAll(t, log) == ApplyAll(t, log[..i])
  {
    var data, c, some, rest := log[..i], log[i], log[i + 1..k], log[i + 1..];
    assert log == data + ([c] + rest) && log[..k] == data + ([c] + some);
    CreationStays(s, data, c, some, rest);
    CreationStopsRedo(ApplyAll(s, log[..k]), data, c, rest);
  }

  /** What a log has created is still there after some of the rest of it, and so is what it wrote before. */
  lemma CreationStays(s: Store, data: seq<Operation>, c: Operation, some: seq<Operation>, rest: seq<Operation>)
    requires AllDataOnly(data) && IsCreation(c) && Succeeds(s, data + ([c] + rest))
    requires forall j :: 0 <= j < |some| ==> Grows(some[j])
    ensures var t := ApplyAll(s, data + ([c] + some)); UsesNodes(data, t) && HasEntry(t, c.parentIno, c.name)
  {
    var u := ApplyAll(s, data);
    ApplyJoin(s, data, [c] + rest);
    ApplyJoin(s, data, [c] + some);
    DataSucceedsIff(s, data);
    assert ([c] + rest)[0] == c && ([c] + some)[0] == c && ([c] + some)[1..] == some;
    var v := Apply(u, c).value;
    CreationCreates(u, c);
    GrowthKeeps(v, some, c.parentIno, c.name);
  }

  lemma CreationCreates(u: Store, c: Operation)
    requires IsCreation(c) && Apply(u, c).Ok?
    ensures u.nodes.Keys <= Apply(u, c).value.nodes.Keys && HasEntry(Apply(u, c).value, c.parentIno, c.name)
  {
  }

  lemma CreationStopsRedo(t: Store, data: seq<Operation>, c: Operation, rest: seq<Operation>)
    requires AllDataOnly(data) && IsCreation(c) && UsesNodes(data, t) && HasEntry(t, c.parentIno, c.name)
    ensures ApplyAll(t, data + ([c] + rest)) == ApplyAll(t, data)
  {
    DataSucceedsIff(t, data);
    EntriesStay(t, data, c.parentIno);
    ApplyJoin(t, data, [c] + rest);
    assert ([c] + rest)[0] == c;
  }

  /** Redo is not absorbed once files are created: with the first of two creations applied, replay
      fails on it and never reaches the second. */
  lemma CreationsAreNotAbsorbed(dir: Node)
    requires dir.entries == map[]
    ensures var s := Store(map[1 := dir], 2);
      var log := [Create(1, "a", 0, 0, S_IFREG), Create(1, "b", 0, 0, S_IFREG)];
      HasEntry(ApplyAll(s, log), 1, "b") && !HasEntry(ApplyAll(ApplyAll(s, log[..1]), log), 1, "b")
  {
    var s := Store(map[1 := dir], 2);
    var a, b := Create(1, "a", 0, 0, S_IFREG), Create(1, "b", 0, 0, S_IFREG);
    var t := Apply(s, a).value;
    assert [a, b][..1] == [a] && [a][1..] == [] && [a, b][1..] == [b] && [b][1..] == [];
    assert t.nodes[1].entries == map["a" := 2];
    assert ApplyAll(s, [a]) == t;
    assert ApplyAll(s, [a, b]) == ApplyAll(t, [b]) == Apply(t, b).value;
    assert ApplyAll(t, [a, b]) == t;
  }

  /** Redo can undo: replaying a log that was applied in full puts the data of a write before its creation back
      over that of a write after it. */
  lemma ReplayPutsOldDataBack(dir: Node, file: Node, a: seq<u8>, b: seq<u8>)
    requires dir.entries == map[]
    ensures var s := Store(map[1 := dir, 2 := file], 3);
      var log := [Write(2, 0, a), Create(1, "x", 0, 0, S_IFREG), Write(2, 0, b)];
      var t := ApplyAll(s, log);
      && Succeeds(s, log)
      && 2 in t.nodes && 0 in t.nodes[2].blocks && t.nodes[2].blocks[0] == b
      && var r := ApplyAll(t, log); 2 in r.nodes && 0 in r.nodes[2].blocks && r.nodes[2].blocks[0] == a
  {
    var s := Store(map[1 := dir, 2 := file], 3);
    var wa, c, wb := Write(2, 0, a), Create(1, "x", 0, 0, S_IFREG), Write(2, 0, b);
    var log := [wa, c, wb];
    var s1 := Apply(s, wa).value;
    var s2 := Apply(s1, c).value;
    var t := Apply(s2, wb).value;
    assert log[1..] == [c, wb] && [c, wb][1..] == [wb] && [wb][1..] == [];
    assert Succeeds(t, []) && Succeeds(s2, [wb]) && Succeeds(s1, [c, wb]);
    assert ApplyAll(s, log) == ApplyAll(s1, [c, wb]) == ApplyAll(s2, [wb]) == t;
    assert log[..1] == [wa];
    assert forall j :: 0 <= j < |log| ==> Grows(log[j]);
    assert log[..3] == log;
    RedoStopsAtFirstCreation(s, log, 1, 3);
    assert ApplyAll(t, [wa]) == ApplyAll(Apply(t, wa).value, []) == Apply(t, wa).value;
  }
}
