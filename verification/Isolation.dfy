/** Readers and committers as interleaved steps: the locks of src/transaction.rs and the read guards of
    src/rvfs2/inode.rs. */
module Isolation {
  import opened Operations
  import opened Transactions

  /** Where a thread is. */
  datatype Pc =
    | Idle
    | Reading                       // holds the read guard
    | Began(txn: Txn)               // has a transaction id
    | Logging(txn: Txn, i: nat)     // holds the log mutex; i operations are appended
    | Applying(txn: Txn, i: nat)    // holds the log mutex and the write guard; i operations are applied
    | Replaying(txn: Txn, i: nat)   // holds the log mutex and no guard; i operations are applied

  /** `begun` lists the ids handed out and `finished` the transactions whose commit has ended. A replay counts as
      the commit, under number 0, of the operations that it recovered. */
  datatype Sys = Sys(store: Store, nextTxnId: nat, pcs: map<nat, Pc>, begun: seq<nat>, finished: seq<Txn>)

  datatype Action =
    | Begin(ops: seq<Operation>)
    | LockLog
    | AppendOp
    | LockState
    | ApplyOp
    | StartReplay(ops: seq<Operation>)
    | Finish
    | EnterRead
    | LeaveRead

  predicate LogIsFree(s: Sys) {
    forall t :: t in s.pcs ==> !HoldsLog(s.pcs[t])
  }

  predicate HoldsLog(pc: Pc) {
    pc.Logging? || pc.Applying? || pc.Replaying?
  }

  predicate Changes(pc: Pc) {
    pc.Applying? || pc.Replaying?
  }

  /** The system after thread `t` applies operation number `i`. */
  function AfterApply(s: Sys, t: nat, txn: Txn, i: nat): Sys
    requires t in s.pcs && Changes(s.pcs[t]) && i < |txn.ops|
  {
    match Apply(s.store, txn.ops[i])
    case Ok(store) => s.(store := store, pcs := s.pcs[t := s.pcs[t].(i := i + 1)])
    case Err(_) => s.(store := Failed(s.store, txn.ops[i]), pcs := s.pcs[t := Idle], finished := s.finished + [txn])
  }

  /** One step of thread `t`. A failing apply ends the commit or the replay there and then and drops what it
      holds. A replay takes the log mutex, but not the write guard that keeps readers out. */
  ghost predicate Step(s: Sys, t: nat, a: Action, s': Sys) {
    t in s.pcs &&
    match a
    case Begin(ops) =>
      && s.pcs[t].Idle?
      && s' == s.(nextTxnId := s.nextTxnId + 1, begun := s.begun + [s.nextTxnId],
                  pcs := s.pcs[t := Began(Txn(s.nextTxnId, ops))])
    case LockLog =>
      && s.pcs[t].Began? && LogIsFree(s)
      && s' == s.(pcs := s.pcs[t := Logging(s.pcs[t].txn, 0)])
    case AppendOp =>
      && s.pcs[t].Logging? && s.pcs[t].i < |s.pcs[t].txn.ops|
      && s' == s.(pcs := s.pcs[t := Logging(s.pcs[t].txn, s.pcs[t].i + 1)])
    case LockState =>
      && s.pcs[t].Logging? && s.pcs[t].i == |s.pcs[t].txn.ops|
      && (forall u :: u in s.pcs ==> !s.pcs[u].Reading? && !s.pcs[u].Applying?)
      && s' == s.(pcs := s.pcs[t := Applying(s.pcs[t].txn, 0)])
    case ApplyOp =>
      && Changes(s.pcs[t]) && s.pcs[t].i < |s.pcs[t].txn.ops|
      && s' == AfterApply(s, t, s.pcs[t].txn, s.pcs[t].i)
    case StartReplay(ops) =>
      && s.pcs[t].Idle? && LogIsFree(s)
      && s' == s.(pcs := s.pcs[t := Replaying(Txn(0, ops), 0)])
    case Finish =>
      && Changes(s.pcs[t]) && s.pcs[t].i == |s.pcs[t].txn.ops|
      && s' == s.(pcs := s.pcs[t := Idle], finished := s.finished + [s.pcs[t].txn])
    case EnterRead =>
      && s.pcs[t].Idle? && (forall u :: u in s.pcs ==> !s.pcs[u].Applying?)
      && s' == s.(pcs := s.pcs[t := Reading])
    case LeaveRead =>
      && s.pcs[t].Reading?
      && s' == s.(pcs := s.pcs[t := Idle])
  }

  datatype Event = Event(thread: nat, action: Action)

  ghost predicate Run(states: seq<Sys>, events: seq<Event>) {
    && |states| == |events| + 1
    && states[0].nextTxnId == 1 && states[0].begun == [] && states[0].finished == []
    && (forall t :: t in states[0].pcs ==> states[0].pcs[t].Idle?)
    && forall i :: 0 <= i < |events| ==> Step(states[i], events[i].thread, events[i].action, states[i + 1])
  }

  /** The store after whole commits in turn. A commit whose operation number i fails counts as the ones before it. */
  function AfterCommits(s: Store, txns: seq<Txn>): Store {
    if txns == [] then s else ApplyAll(AfterCommits(s, txns[..|txns| - 1]), txns[|txns| - 1].ops)
  }

  lemma AfterOneMore(s: Store, txns: seq<Txn>, txn: Txn)
    ensures AfterCommits(s, txns + [txn]) == ApplyAll(AfterCommits(s, txns), txn.ops)
  {
    assert (txns + [txn])[..|txns|] == txns;
  }

  /** At most one thread holds the log mutex, and nobody reads while one applies a commit. */
  ghost predicate Locks(s: Sys) {
    && (forall t, u :: t in s.pcs && u in s.pcs && t != u && HoldsLog(s.pcs[t]) ==> !HoldsLog(s.pcs[u]))
    && (forall t, u :: t in s.pcs && u in s.pcs && s.pcs[t].Applying? ==> !s.pcs[u].Reading?)
  }

  predicate SomeoneChanges(s: Sys) {
    exists t :: t in s.pcs && Changes(s.pcs[t])
  }

  predicate SomeoneReplays(s: Sys) {
    exists t :: t in s.pcs && s.pcs[t].Replaying?
  }

  /** The store is that of the finished commits, plus what an applying or replaying thread has applied so far. */
  ghost predicate StoreInv(init: Store, s: Sys) {
    && (forall t :: t in s.pcs && Changes(s.pcs[t]) ==>
          Partly(AfterCommits(init, s.finished), s.store, s.pcs[t].txn.ops, s.pcs[t].i))
    && (!SomeoneChanges(s) ==> s.store == AfterCommits(init, s.finished))
  }

  ghost predicate Inv(init: Store, s: Sys) {
    Locks(s) && StoreInv(init, s)
  }

  /** `now` is `base` with the first `i` operations applied, none of which failed. */
  ghost predicate Partly(base: Store, now: Store, ops: seq<Operation>, i: nat) {
    i <= |ops| && Succeeds(base, ops[..i]) && now == ApplyAll(base, ops[..i])
  }

  lemma PartlyNext(base: Store, now: Store, ops: seq<Operation>, i: nat)
    requires Partly(base, now, ops, i)
    ensures i == |ops| ==> now == ApplyAll(base, ops)
    ensures i < |ops| && Apply(now, ops[i]).Ok? ==> Partly(base, Apply(now, ops[i]).value, ops, i + 1)
    ensures i < |ops| && Apply(now, ops[i]).Err? ==> Failed(now, ops[i]) == ApplyAll(base, ops)
  {
    if i == |ops| {
      assert ops[..i] == ops;
    } else {
      assert ops == ops[..i] + ops[i..] && ops[..i + 1] == ops[..i] + [ops[i]] && [ops[i]][1..] == [];
      ApplyJoin(base, ops[..i], ops[i..]);
      ApplyJoin(base, ops[..i], [ops[i]]);
      if Apply(now, ops[i]).Ok? {
        assert Succeeds(Apply(now, ops[i]).value, []);
        assert ApplyAll(now, [ops[i]]) == ApplyAll(Apply(now, ops[i]).value, []);
      }
    }
  }

  lemma StepKeepsLocks(s: Sys, t: nat, a: Action, s': Sys)
    requires Locks(s) && Step(s, t, a, s')
    ensures Locks(s')
  {
  }

  lemma StepKeepsInv(init: Store, s: Sys, t: nat, a: Action, s': Sys)
    requires Inv(init, s) && Step(s, t, a, s')
    ensures Inv(init, s')
  {
    StepKeepsLocks(s, t, a, s');
    if a.ApplyOp? || a.Finish? {
      CommitStepKeepsStore(init, s, t, a, s');
    } else {
      OtherStepKeepsStore(init, s, t, a, s');
    }
  }

  lemma OtherStepKeepsStore(init: Store, s: Sys, t: nat, a: Action, s': Sys)
    requires Inv(init, s) && Step(s, t, a, s') && !a.ApplyOp? && !a.Finish?
    ensures StoreInv(init, s')
  {
    if SomeoneChanges(s) {
      var u :| u in s.pcs && Changes(s.pcs[u]);
      assert u in s'.pcs && Changes(s'.pcs[u]);
    }
    forall u | u in s'.pcs && Changes(s'.pcs[u])
      ensures Partly(AfterCommits(init, s'.finished), s'.store, s'.pcs[u].txn.ops, s'.pcs[u].i)
    {
      if u == t {
        StartsWithNothing(init, s, t, a, s');
      }
    }
  }

  lemma StartsWithNothing(init: Store, s: Sys, t: nat, a: Action, s': Sys)
    requires Inv(init, s) && Step(s, t, a, s') && !a.ApplyOp? && !a.Finish? && Changes(s'.pcs[t])
    ensures Partly(AfterCommits(init, s'.finished), s'.store, s'.pcs[t].txn.ops, s'.pcs[t].i)
  {
    assert s'.pcs[t].txn.ops[..0] == [];
    assert a.LockState? || a.StartReplay?;
    forall u | u in s.pcs ensures !Changes(s.pcs[u]) {
      assert u != t && a.LockState? ==> HoldsLog(s.pcs[t]) && !HoldsLog(s.pcs[u]);
    }
  }

  lemma CommitStepKeepsStore(init: Store, s: Sys, t: nat, a: Action, s': Sys)
    requires Inv(init, s) && Step(s, t, a, s') && (a.ApplyOp? || a.Finish?)
    ensures StoreInv(init, s')
  {
    var txn, i := s.pcs[t].txn, s.pcs[t].i;
    PartlyNext(AfterCommits(init, s.finished), s.store, txn.ops, i);
    AfterOneMore(init, s.finished, txn);
    forall u | u in s'.pcs && u != t ensures !Changes(s'.pcs[u]) {
      assert HoldsLog(s.pcs[t]) && !HoldsLog(s.pcs[u]);
    }
    if Changes(s'.pcs[t]) {
      assert SomeoneChanges(s');
    }
  }

  lemma {:induction false} RunKeepsInv(states: seq<Sys>, events: seq<Event>, k: nat)
    requires Run(states, events) && k <= |events|
    ensures Inv(states[0].store, states[k])
  {
    if k > 0 {
      RunKeepsInv(states, events, k - 1);
      assert Step(states[k - 1], events[k - 1].thread, events[k - 1].action, states[k]);
      StepKeepsInv(states[0].store, states[k - 1], events[k - 1].thread, events[k - 1].action, states[k]);
    }
  }

  /** A thread that holds the read guard sees the store between two commits, never inside one, unless a thread
      replays the log; then it sees as much of the replay as has been applied. */
  lemma ReaderSeesWholeCommits(states: seq<Sys>, events: seq<Event>, k: nat, t: nat)
    requires Run(states, events) && k <= |events| && t in states[k].pcs && states[k].pcs[t].Reading?
    ensures !SomeoneReplays(states[k]) ==> states[k].store == AfterCommits(states[0].store, states[k].finished)
    ensures forall u :: u in states[k].pcs && states[k].pcs[u].Replaying? ==>
      Partly(AfterCommits(states[0].store, states[k].finished), states[k].store,
             states[k].pcs[u].txn.ops, states[k].pcs[u].i)
  {
    RunKeepsInv(states, events, k);
    if SomeoneChanges(states[k]) {
      var u :| u in states[k].pcs && Changes(states[k].pcs[u]);
      assert states[k].pcs[u].Replaying?;
    }
  }

  /** Step number `i` is a replaying thread's, and changes the store. */
  predicate ReplayChanges(states: seq<Sys>, events: seq<Event>, i: nat)
    requires i < |events| && i + 1 < |states|
  {
    var t := events[i].thread;
    t in states[i].pcs && states[i].pcs[t].Replaying? && states[i].store != states[i + 1].store
  }

  lemma StepUnderGuard(states: seq<Sys>, events: seq<Event>, t: nat, i: nat)
    requires Run(states, events) && i < |events| && t in states[i].pcs && states[i].pcs[t].Reading?
    ensures states[i].store != states[i + 1].store <==> ReplayChanges(states, events, i)
  {
    RunKeepsInv(states, events, i);
    assert Step(states[i], events[i].thread, events[i].action, states[i + 1]);
  }

  /** As long as a thread keeps the read guard, the store changes under it exactly with the steps of a replay that
      change it. */
  lemma {:induction false} ReaderSeesOneStore(states: seq<Sys>, events: seq<Event>, t: nat, j: nat, k: nat)
    requires Run(states, events) && j <= k <= |events|
    requires forall i :: j <= i <= k ==> t in states[i].pcs && states[i].pcs[t].Reading?
    ensures (forall i :: j <= i <= k ==> states[i].store == states[j].store)
       <==> (forall i :: j <= i < k ==> !ReplayChanges(states, events, i))
  {
    if j < k {
      ReaderSeesOneStore(states, events, t, j, k - 1);
      StepUnderGuard(states, events, t, k - 1);
      assert (forall i :: j <= i <= k ==> states[i].store == states[j].store)
        <==> ((forall i :: j <= i <= k - 1 ==> states[i].store == states[j].store)
              && states[k].store == states[k - 1].store);
    }
  }

  /** When every finished commit applied all its operations, what a reader sees is all of them, in commit order. */
  ghost function AllOps(txns: seq<Txn>): seq<Operation> {
    if txns == [] then [] else AllOps(txns[..|txns| - 1]) + txns[|txns| - 1].ops
  }

  /** Commit number i of `txns` applied in full, after those before it. */
  ghost predicate AllSucceed(s: Store, txns: seq<Txn>) {
    forall i :: 0 <= i < |txns| ==> Succeeds(AfterCommits(s, txns[..i]), txns[i].ops)
  }

  lemma AllButLastSucceed(s: Store, txns: seq<Txn>)
    requires txns != [] && AllSucceed(s, txns)
    ensures var n := |txns| - 1; AllSucceed(s, txns[..n]) && Succeeds(AfterCommits(s, txns[..n]), txns[n].ops)
  {
    var n := |txns| - 1;
    assert forall i :: 0 <= i < n ==> txns[..n][..i] == txns[..i];
  }

  lemma {:induction false} SuccessfulCommitsAreWhole(s: Store, txns: seq<Txn>)
    requires AllSucceed(s, txns)
    ensures Succeeds(s, AllOps(txns)) && AfterCommits(s, txns) == ApplyAll(s, AllOps(txns))
  {
    if txns != [] {
      var n := |txns| - 1;
      AllButLastSucceed(s, txns);
      SuccessfulCommitsAreWhole(s, txns[..n]);
      ApplyJoin(s, AllOps(txns[..n]), txns[n].ops);
    }
  }

  /** Transaction ids are handed out once: they ascend. */
  lemma {:induction false} IdsAreNotReused(states: seq<Sys>, events: seq<Event>, k: nat)
    requires Run(states, events) && k <= |events|
    ensures forall i :: 0 <= i < |states[k].begun| ==> states[k].begun[i] < states[k].nextTxnId
    ensures forall i, j :: 0 <= i < j < |states[k].begun| ==> states[k].begun[i] < states[k].begun[j]
  {
    if k > 0 {
      IdsAreNotReused(states, events, k - 1);
      assert Step(states[k - 1], events[k - 1].thread, events[k - 1].action, states[k]);
    }
  }

  /** Without success the guarantee is lost: when the second operation of a commit fails, a reader that comes
      after it sees the first one alone. */
  lemma FailedCommitIsSeenInPart(dir: Node)
    requires dir.entries == map[]
    ensures var s := Store(map[1 := dir], 2);
      var txn := Txn(1, [Create(1, "a", 0, 0, 0x8000), Delete(1, "b")]);
      && !Succeeds(s, txn.ops)
      && HasEntry(AfterCommits(s, [txn]), 1, "a")
      && AfterCommits(s, [txn]) != s
  {
    var s := Store(map[1 := dir], 2);
    var a, b := Create(1, "a", 0, 0, 0x8000), Delete(1, "b");
    var t := Apply(s, a).value;
    assert [a, b][1..] == [b] && [b][1..] == [];
    assert t.nodes[1].entries == map["a" := 2];
    assert ApplyAll(s, [a, b]) == ApplyAll(t, [b]) == t;
    assert [Txn(1, [a, b])][..0] == [];
    assert AfterCommits(s, [Txn(1, [a, b])]) == ApplyAll(AfterCommits(s, []), [a, b]);
  }

  /** Replay takes no write guard: a reader that came first sees its first operation alone. */
  lemma ReplayIsSeenInPart(dir: Node) returns (states: seq<Sys>, events: seq<Event>)
    requires dir.entries == map[]
    ensures Run(states, events) && |states| == 4 && states[0].store == Store(map[1 := dir], 2)
    ensures 0 in states[3].pcs && states[3].pcs[0].Reading? && 1 in states[3].pcs
    ensures states[3].pcs[1] == Replaying(Txn(0, [Create(1, "a", 0, 0, 0x8000), Create(1, "b", 0, 0, 0x8000)]), 1)
    ensures HasEntry(states[3].store, 1, "a") && !HasEntry(states[3].store, 1, "b")
  {
    var s := Store(map[1 := dir], 2);
    var a, b := Create(1, "a", 0, 0, 0x8000), Create(1, "b", 0, 0, 0x8000);
    var txn := Txn(0, [a, b]);
    var t := Apply(s, a).value;
    assert t.nodes[1].entries == map["a" := 2];
    var x0 := Sys(s, 1, map[0 := Idle, 1 := Idle], [], []);
    var x1 := x0.(pcs := x0.pcs[0 := Reading]);
    var x2 := x1.(pcs := x1.pcs[1 := Replaying(txn, 0)]);
    var x3 := x2.(store := t, pcs := x2.pcs[1 := Replaying(txn, 1)]);
    states := [x0, x1, x2, x3];
    events := [Event(0, EnterRead), Event(1, StartReplay([a, b])), Event(1, ApplyOp)];
    assert Step(x0, 0, EnterRead, x1);
    assert Step(x1, 1, StartReplay([a, b]), x2);
    assert Step(x2, 1, ApplyOp, x3);
    assert Run(states, events);
  }
}
