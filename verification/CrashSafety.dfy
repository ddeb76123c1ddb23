/** What a restart makes of a power failure at any point of a commit: src/transaction.rs, src/wal.rs. */
module CrashSafety {
  import opened Common
  import opened Access
  import opened Operations
  import opened FrameLog
  import opened Wal
  import opened WalRecovery
  import opened Transactions

  /** The store after recovery and replay of what survived; `synced` is what the inode counter is reset to. */
  function Restarted(c: Codec, d: Durable, synced: nat): Store {
    ApplyAll(Boot(d.store, synced), OpsOf(Parse(ReaderOf(c), d.log).0))
  }

  /** Power fails after durable state number `i`, possibly in the middle of the next append. */
  ghost predicate FailsAfter(states: seq<Durable>, i: nat, d: Durable)
    requires i < |states|
  {
    || d == states[i]
    || (&& i + 1 < |states|
        && d.store == states[i].store == states[i + 1].store
        && states[i].log <= d.log <= states[i + 1].log)
  }

  /** A commit to an empty log: the state it starts in and those it passes through. Append number i is
      state number i, so `flush` has returned from state number |txn.ops| on. */
  function CommitStates(c: Codec, s: Store, txn: Txn): seq<Durable> {
    [Durable([], s)] + CommitTrace(c, [], 0, s, txn, Succeeds(s, txn.ops))
  }

  /** The states of a one-operation commit. */
  lemma OneOperationStates(c: Codec, s: Store, id: nat, op: Operation)
    ensures var e := WalEntry(id, op);
      var frame := FramerOf(c)(e);
      CommitStates(c, s, Txn(id, [op])) ==
        [Durable([], s), Durable(frame, s)] +
        match Apply(s, op)
        case Ok(t) => [Durable(frame, t), Durable([], t)]
        case Err(_) => []
  {
    var txn, e := Txn(id, [op]), WalEntry(id, op);
    assert EntriesOf(txn) == [e];
    assert [e][..1] == [e];
    LogOne(FramerOf(c), e);
    WriteAtEnd([], FramerOf(c)(e));
    assert LogWith(c, [], 0, txn, 1) == [] + FramerOf(c)(e) == FramerOf(c)(e);
    assert AppendTrace(c, [], 0, s, txn) == [Durable(FramerOf(c)(e), s)];
    assert txn.ops[1..] == [];
    var log := Appended([], 0, FramesOf(c, txn));
    match Apply(s, op)
    case Ok(t) =>
      assert ApplyTrace(log, s, [op]) == [Durable(log, t)] + ApplyTrace(log, t, []);
      assert ApplyTrace(log, s, [op]) == [Durable(log, t)];
      assert ApplyAll(s, [op]) == t;
      assert Succeeds(s, [op]);
    case Err(_) =>
      assert ApplyTrace(log, s, [op]) == [];
  }

  lemma RestartFromCutFrame(c: Codec, e: WalEntry, s: Store, synced: nat, log: seq<byte>)
    requires Faithful(c, e) && FrameFits(c, e) && log <= FramerOf(c)(e)
    ensures Restarted(c, Durable(log, s), synced)
         == if log == FramerOf(c)(e) then ApplyAll(Boot(s, synced), [e.operation]) else Boot(s, synced)
  {
    LogOne(FramerOf(c), e);
    RecoverFromCut(c, [e], |log|);
    assert log == FramerOf(c)(e)[..|log|];
    var found := Parse(ReaderOf(c), log).0;
    if |log| < |FramerOf(c)(e)| {
      assert found == [e][..0] == [];
      assert OpsOf(found) == [];
    } else {
      assert WholeFrames(FramerOf(c), [e], |log|) == 1 by { assert [e][1..] == []; }
      assert found == [e][..1] == [e];
      assert OpsOf(found) == [e.operation];
    }
  }

  /** Redoing an operation after a restart that follows it leaves the files as they are. */
  lemma RedoAfterRestart(s: Store, op: Operation, synced: nat)
    requires Apply(s, op).Ok?
    ensures ApplyAll(Boot(Apply(s, op).value, synced), [op]).nodes == Apply(s, op).value.nodes
  {
    if DataOnly(op) {
      assert [op][1..] == [];
      RedoOnce(s, op);
    } else {
      RepeatsQuietly(s, op, synced);
    }
  }

  lemma RestartFromEmptyLog(c: Codec, s: Store, synced: nat)
    ensures Restarted(c, Durable([], s), synced) == Boot(s, synced)
  {
    assert ReaderOf(c)([]) == NoFrame;
    assert OpsOf([]) == [];
  }

  /** All or nothing: cut a one-operation commit to an empty log anywhere, even inside the append, and the restart
      leaves the files as before or as after the operation. Once flush has returned it leaves them as after, from
      the store that the commit found if the operation was applied, or from that store with the counter of the
      restart if it was not. */
  lemma OneOperationIsAtomic(c: Codec, s: Store, synced: nat, id: nat, op: Operation, i: nat, d: Durable)
    requires Faithful(c, WalEntry(id, op)) && FrameFits(c, WalEntry(id, op))
    requires i < |CommitStates(c, s, Txn(id, [op]))| && FailsAfter(CommitStates(c, s, Txn(id, [op])), i, d)
    ensures var r := Restarted(c, d, synced);
      r.nodes == s.nodes || r.nodes == ApplyAll(s, [op]).nodes || r.nodes == ApplyAll(Boot(s, synced), [op]).nodes
    ensures 1 <= i ==>
      Restarted(c, d, synced).nodes == ApplyAll(if i == 1 then Boot(s, synced) else s, [op]).nodes
  {
    var e := WalEntry(id, op);
    OneOperationStates(c, s, id, op);
    assert [op][1..] == [];
    if Apply(s, op).Ok? {
      assert ApplyAll(s, [op]) == ApplyAll(Apply(s, op).value, []) == Apply(s, op).value;
      RedoAfterRestart(s, op, synced);
    }
    RestartFromEmptyLog(c, d.store, synced);
    if d.log <= FramerOf(c)(e) {
      RestartFromCutFrame(c, e, d.store, synced, d.log);
    }
  }

  /** A creation that applies with one number, tried with another. */
  lemma CreationWithNumber(s: Store, op: Operation, number: nat)
    requires IsCreation(op) && Apply(s, op).Ok?
    ensures var r := ApplyAll(Boot(s, number), [op]);
      && (HasEntry(r, op.parentIno, op.name) <==> number !in s.nodes)
      && (number !in s.nodes ==> r.nodes[op.parentIno].entries[op.name] == number && number in r.nodes)
      && (number in s.nodes ==> r.nodes == s.nodes)
  {
    var b := Boot(s, number);
    assert [op][1..] == [];
    if number !in s.nodes {
      assert ApplyAll(b, [op]) == ApplyAll(Apply(b, op).value, []) == Apply(b, op).value;
    } else {
      assert ApplyAll(b, [op]) == Failed(b, op);
    }
  }

  lemma OthersUseNoNumber(s: Store, op: Operation, number: nat)
    requires !IsCreation(op) && Apply(s, op).Ok?
    ensures ApplyAll(Boot(s, number), [op]).nodes == ApplyAll(s, [op]).nodes
  {
    var b := Boot(s, number);
    assert [op][1..] == [];
    assert ApplyAll(s, [op]) == ApplyAll(Apply(s, op).value, []) == Apply(s, op).value;
    assert ApplyAll(b, [op]) == ApplyAll(Apply(b, op).value, []) == Apply(b, op).value;
  }

  /** Which flushed operations survive a crash before they are applied. The counter is stored at a sync only: a
      creation survives if and only if the number that was stored last is not in use, and gets that number;
      everything else always survives. */
  lemma FlushedOperationSurvivesIff(c: Codec, s: Store, synced: nat, id: nat, op: Operation)
    requires Faithful(c, WalEntry(id, op)) && FrameFits(c, WalEntry(id, op)) && Apply(s, op).Ok?
    ensures var r := Restarted(c, Durable(FramerOf(c)(WalEntry(id, op)), s), synced);
      && (IsCreation(op) ==>
            && (HasEntry(r, op.parentIno, op.name) <==> synced !in s.nodes)
            && (synced !in s.nodes ==> r.nodes[op.parentIno].entries[op.name] == synced && synced in r.nodes)
            && (synced in s.nodes ==> r.nodes == s.nodes))
      && (!IsCreation(op) || synced == s.nextIno ==> r.nodes == ApplyAll(s, [op]).nodes)
  {
    RestartFromCutFrame(c, WalEntry(id, op), s, synced, FramerOf(c)(WalEntry(id, op)));
    if IsCreation(op) {
      CreationWithNumber(s, op, synced);
      assert Boot(s, s.nextIno) == s;
    } else {
      OthersUseNoNumber(s, op, synced);
    }
  }

  /** Two creations after a sync: the first is applied and takes the stored number, so a crash before the second is
      applied loses it, although it was flushed. */
  lemma SecondCreationIsLost(c: Codec, s: Store, id: nat, first: Operation, second: Operation)
    requires Faithful(c, WalEntry(id, second)) && FrameFits(c, WalEntry(id, second))
    requires IsCreation(first) && IsCreation(second) && Apply(s, first).Ok? && Apply(Apply(s, first).value, second).Ok?
    ensures var t := Apply(s, first).value;
      Restarted(c, Durable(FramerOf(c)(WalEntry(id, second)), t), s.nextIno).nodes == t.nodes
  {
    FlushedOperationSurvivesIff(c, Apply(s, first).value, s.nextIno, id, second);
  }

  /** Such creations: files `a` and `b` in an empty root directory. */
  lemma FlushedFileIsLost(c: Codec, dir: Node, id: nat)
    requires dir.entries == map[]
    requires Faithful(c, WalEntry(id, Create(1, "b", 0, 0, S_IFREG)))
    requires FrameFits(c, WalEntry(id, Create(1, "b", 0, 0, S_IFREG)))
    ensures var t := ApplyAll(Store(map[1 := dir], 2), [Create(1, "a", 0, 0, S_IFREG)]);
      var b := Create(1, "b", 0, 0, S_IFREG);
      && HasEntry(ApplyAll(t, [b]), 1, "b")
      && !HasEntry(Restarted(c, Durable(FramerOf(c)(WalEntry(id, b)), t), 2), 1, "b")
  {
    var s, a, b := Store(map[1 := dir], 2), Create(1, "a", 0, 0, S_IFREG), Create(1, "b", 0, 0, S_IFREG);
    var t := Apply(s, a).value;
    assert [a][1..] == [] && ApplyAll(s, [a]) == ApplyAll(t, []) == t;
    assert t.nodes[1].entries == map["a" := 2];
    assert [b][1..] == [] && ApplyAll(t, [b]) == ApplyAll(Apply(t, b).value, []) == Apply(t, b).value;
    SecondCreationIsLost(c, s, id, a, b);
  }

  /** A restart that is itself cut after applying the operation changes nothing: the next one agrees. */
  lemma RestartIsRepeatable(c: Codec, s: Store, synced: nat, id: nat, op: Operation)
    requires Faithful(c, WalEntry(id, op)) && FrameFits(c, WalEntry(id, op))
    ensures var log := FramerOf(c)(WalEntry(id, op));
      Restarted(c, Durable(log, Restarted(c, Durable(log, s), synced)), synced).nodes
      == Restarted(c, Durable(log, s), synced).nodes
  {
    var e, b := WalEntry(id, op), Boot(s, synced);
    RestartFromCutFrame(c, e, s, synced, FramerOf(c)(e));
    RestartFromCutFrame(c, e, ApplyAll(b, [op]), synced, FramerOf(c)(e));
    assert [op][1..] == [];
    if Apply(b, op).Ok? {
      assert ApplyAll(b, [op]) == ApplyAll(Apply(b, op).value, []) == Apply(b, op).value;
      RedoAfterRestart(b, op, synced);
    } else {
      assert Boot(Failed(b, op), synced) == b;
    }
  }

  /** The limit on frames is needed: a flushed operation is applied by the restart after a crash if and only if its
      frame is within the limit or it would have changed nothing. */
  lemma FlushedSurvivesIffFits(c: Codec, s: Store, synced: nat, id: nat, op: Operation)
    requires Faithful(c, WalEntry(id, op))
    ensures var b := Boot(s, synced);
      Restarted(c, Durable(FramerOf(c)(WalEntry(id, op)), s), synced) == ApplyAll(b, [op])
      <==> (FrameFits(c, WalEntry(id, op)) || ApplyAll(b, [op]) == b)
  {
    var e := WalEntry(id, op);
    if FrameFits(c, e) {
      RestartFromCutFrame(c, e, s, synced, FramerOf(c)(e));
    } else {
      FramesWork(c, e);
      var log := FramerOf(c)(e);
      assert log + [] == log;
      assert Parse(ReaderOf(c), log).0 == [];
      assert OpsOf([]) == [];
    }
  }

  /** A transaction of several operations has no commit marker: cut its append at any byte, and the restart
      applies exactly the operations whose frames were written whole. */
  lemma CutAppendAppliesPrefix(c: Codec, s: Store, synced: nat, txn: Txn, k: nat)
    requires AllFaithful(c, EntriesOf(txn)) && AllFit(c, EntriesOf(txn))
    requires k <= |Log(FramerOf(c), EntriesOf(txn))|
    ensures var w := WholeFrames(FramerOf(c), EntriesOf(txn), k);
      Restarted(c, Durable(Log(FramerOf(c), EntriesOf(txn))[..k], s), synced) == ApplyAll(Boot(s, synced), txn.ops[..w])
  {
    var es := EntriesOf(txn);
    RecoverFromCut(c, es, k);
    var w := WholeFrames(FramerOf(c), es, k);
    assert OpsOf(es[..w]) == txn.ops[..w];
  }

  /** What a crash after `applied` operations of a flushed transaction, and after restarts whose replays were cut,
      leaves for the next restart. */
  function CrashedWhileApplying(c: Codec, s: Store, synced: nat, txn: Txn, applied: nat, ks: seq<nat>): Durable {
    Durable(Log(FramerOf(c), EntriesOf(txn)), AfterCutReplays(ApplyAll(s, Take(txn.ops, applied)), synced, txn.ops, ks))
  }

  /** Once a transaction of writes and truncates is flushed, a crash anywhere in its apply loop, repeated as
      often as it may be during replay, ends with every operation applied. */
  lemma FlushedDataSurvives(c: Codec, s: Store, synced: nat, txn: Txn, applied: nat, ks: seq<nat>)
    requires AllFaithful(c, EntriesOf(txn)) && AllFit(c, EntriesOf(txn)) && AllDataOnly(txn.ops)
    ensures Restarted(c, CrashedWhileApplying(c, s, synced, txn, applied, ks), synced)
         == Boot(ApplyAll(s, txn.ops), synced)
  {
    var es, k := EntriesOf(txn), Min(applied, |txn.ops|);
    RecoverAllIffFit(c, es);
    assert OpsOf(es) == txn.ops;
    RedoAfterCutReplays(ApplyAll(s, txn.ops[..k]), synced, txn.ops, ks);
    BootCommutes(ApplyAll(s, txn.ops[..k]), synced, txn.ops);
    RedoFromAnyPrefix(s, txn.ops, k);
  }

  /** The same for a transaction that ends with one namespace operation, if that operation does not delete a node
      that the operations before it write: the files are those of applying it once, with the counter of the
      restart unless the loop had come to its end. */
  lemma FlushedWithOneAtEndSurvives(c: Codec, s: Store, synced: nat, txn: Txn, data: seq<Operation>, op: Operation,
                                    applied: nat, ks: seq<nat>)
    requires txn.ops == data + [op] && AllDataOnly(data) && Spares(s, data, op)
    requires AllFaithful(c, EntriesOf(txn)) && AllFit(c, EntriesOf(txn))
    ensures Restarted(c, CrashedWhileApplying(c, s, synced, txn, applied, ks), synced).nodes
         == ApplyAll(if |data| < applied && Succeeds(s, txn.ops) then s else Boot(s, synced), txn.ops).nodes
  {
    RecoverAllIffFit(c, EntriesOf(txn));
    assert OpsOf(EntriesOf(txn)) == txn.ops;
    SparesStill(s, data, op, applied);
    RedoOfOneAfterCutReplays(ApplyAll(s, Take(txn.ops, applied)), synced, data, op, ks);
    RedoOfOneAtEnd(s, synced, data, op, applied);
  }

  /** A creation at the end survives if and only if the loop had applied it or the stored number is not in use. */
  lemma CreationAtEndSurvivesIff(c: Codec, s: Store, synced: nat, txn: Txn, data: seq<Operation>, op: Operation,
                                 applied: nat, ks: seq<nat>)
    requires txn.ops == data + [op] && AllDataOnly(data) && IsCreation(op) && Succeeds(s, txn.ops)
    requires AllFaithful(c, EntriesOf(txn)) && AllFit(c, EntriesOf(txn))
    ensures HasEntry(Restarted(c, CrashedWhileApplying(c, s, synced, txn, applied, ks), synced), op.parentIno, op.name)
       <==> (|data| < applied || synced !in s.nodes)
  {
    FlushedWithOneAtEndSurvives(c, s, synced, txn, data, op, applied, ks);
    CreatedAtEndIff(s, data, op, s.nextIno);
    CreatedAtEndIff(s, data, op, synced);
    assert Boot(s, s.nextIno) == s;
    CreationFindsFreeNumber(s, data, op);
  }

  lemma CreationFindsFreeNumber(s: Store, data: seq<Operation>, op: Operation)
    requires AllDataOnly(data) && IsCreation(op) && Succeeds(s, data + [op])
    ensures s.nextIno !in s.nodes
  {
    ApplyJoin(s, data, [op]);
    DataSucceedsIff(s, data);
    BootCommutes(s, 0, data);
  }

  /** A creation that applies with one counter applies with another if and only if that number is free. */
  lemma CreatedAtEndIff(s: Store, data: seq<Operation>, op: Operation, number: nat)
    requires AllDataOnly(data) && IsCreation(op) && Succeeds(s, data + [op])
    ensures HasEntry(ApplyAll(Boot(s, number), data + [op]), op.parentIno, op.name) <==> number !in s.nodes
  {
    ApplyJoin(s, data, [op]);
    ApplyJoin(Boot(s, number), data, [op]);
    DataSucceedsIff(s, data);
    DataSucceedsIff(Boot(s, number), data);
    BootCommutes(s, number, data);
    var u := ApplyAll(s, data);
    assert [op][1..] == [];
    assert Apply(u, op).Ok?;
    if number !in s.nodes {
      var t := Apply(Boot(u, number), op).value;
      assert ApplyAll(Boot(u, number), [op]) == ApplyAll(t, []) == t;
    }
  }
}
