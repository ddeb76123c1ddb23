/** Durability over whole runs of commits, failed commits, power failures, restarts and syncs, on the bytes of the
    log: src/transaction.rs, src/wal.rs, and the inode counter of src/rvfs2/superblock.rs. */
module Durability {
  import opened Common
  import opened Operations
  import opened FrameLog
  import opened Wal
  import opened WalRecovery
  import opened Transactions

  /** The log's bytes and where the next append goes, the store, the entries that the running process lists, and
      the inode counter as it was stored last. */
  datatype Sys = Sys(log: seq<byte>, next: nat, store: Store, pending: seq<WalEntry>, synced: nat)

  /** What may happen: a commit ends, applied in full or not; or the power fails once a transaction is flushed, with
      some operations applied; or it fails while one is appended, after `cut` bytes; or the counter is stored. The
      restart's replay may itself be cut off, after `ks[0]`, `ks[1]`, ... operations, before one completes. */
  datatype Event =
    | Commit(txn: Txn)
    | CrashAfterFlush(txn: Txn, applied: nat, ks: seq<nat>)
    | CrashInAppend(txn: Txn, cut: nat, ks: seq<nat>)
    | Sync

  /** How many bytes of its transaction's frames an event writes. */
  function Length(c: Codec, e: Event): nat
    requires !e.Sync?
  {
    var n := |FramesOf(c, e.txn)|;
    if e.CrashInAppend? then Min(e.cut, n) else n
  }

  function LogAfter(c: Codec, x: Sys, e: Event): seq<byte>
    requires !e.Sync?
  {
    Appended(x.log, x.next, FramesOf(c, e.txn)[..Length(c, e)])
  }

  /** How many of its frames that makes whole. */
  function Whole(c: Codec, e: Event): (w: nat)
    requires !e.Sync?
    ensures w <= |e.txn.ops|
  {
    WholeFrames(FramerOf(c), EntriesOf(e.txn), Length(c, e))
  }

  /** The operations that reached the log whole. */
  function Part(c: Codec, e: Event): seq<Operation> {
    if e.Sync? then [] else if e.CrashInAppend? then e.txn.ops[..Whole(c, e)] else e.txn.ops
  }

  /** A restart loads the counter, replays the log, does not empty it, and lists nothing. */
  function Restart(c: Codec, log: seq<byte>, s: Store, synced: nat, ks: seq<nat>): Sys {
    var found := Parse(ReaderOf(c), log);
    var ops := OpsOf(found.0);
    Sys(log, found.1, ApplyAll(Boot(AfterCutReplays(s, synced, ops, ks), synced), ops), [], synced)
  }

  function Next(c: Codec, x: Sys, e: Event): Sys {
    match e
    case Commit(txn) => AfterCommit(c, x, txn)
    case CrashAfterFlush(txn, applied, ks) =>
      Restart(c, LogAfter(c, x, e), ApplyAll(x.store, Take(txn.ops, applied)), x.synced, ks)
    case CrashInAppend(_, _, ks) => Restart(c, LogAfter(c, x, e), x.store, x.synced, ks)
    case Sync => x.(synced := x.store.nextIno)
  }

  /** A commit that fails leaves its entries in the log and in the list; one that does not empties the log once
      nothing is listed. */
  function AfterCommit(c: Codec, x: Sys, txn: Txn): Sys {
    var s := ApplyAll(x.store, txn.ops);
    var log, next := Appended(x.log, x.next, FramesOf(c, txn)), x.next + |FramesOf(c, txn)|;
    if !Succeeds(x.store, txn.ops) then Sys(log, next, s, x.pending + EntriesOf(txn), x.synced)
    else
      var pending := WithoutTxn(x.pending, txn.id);
      if pending == [] then Sys([], 0, s, [], x.synced) else Sys(log, next, s, pending, x.synced)
  }

  // ----- the events are what the methods do -----

  ghost function StateOf(tm: TransactionManager, synced: nat): Sys
    requires tm.wal.storage.Some?
    reads tm, tm.wal
  {
    Sys(tm.wal.storage.value, tm.wal.nextOffset, tm.store, tm.wal.entries, synced)
  }

  /** `commit`, when storage does not fail. */
  method CommitStep(tm: TransactionManager, txn: Txn, ghost synced: nat)
    requires tm.wal.storage.Some?
    modifies tm, tm.wal
    ensures tm.wal.storage.Some?
    ensures StateOf(tm, synced) == Next(tm.wal.codec, old(StateOf(tm, synced)), Commit(txn))
  {
    assert EntriesOf(txn)[..|txn.ops|] == EntriesOf(txn);
    var r, _ := tm.Commit(txn, LogFaults(_ => Fine, false, false));
  }

  /** `replay`, in a process that starts with the counter of the last sync. */
  method RestartStep(tm: TransactionManager, synced: nat)
    requires tm.wal.storage.Some? && tm.wal.entries == []
    modifies tm, tm.wal
    ensures tm.wal.storage.Some?
    ensures StateOf(tm, synced) == Restart(tm.wal.codec, old(tm.wal.storage).value, old(tm.store), synced, [])
  {
    tm.store := Boot(tm.store, synced);
    var r := tm.Replay();
  }

  /** The states that a commit passes through while it appends are those that a crash in it leaves behind. */
  lemma AppendsAreCuts(c: Codec, x: Sys, txn: Txn, i: nat, ks: seq<nat>)
    requires i < |txn.ops|
    ensures var cut := |Log(FramerOf(c), EntriesOf(txn)[..i + 1])|;
      AppendTrace(c, x.log, x.next, x.store, txn)[i].log == LogAfter(c, x, CrashInAppend(txn, cut, ks))
  {
    var es := EntriesOf(txn);
    LogAppend(FramerOf(c), es[..i + 1], es[i + 1..]);
    assert es == es[..i + 1] + es[i + 1..];
  }

  // ----- what is promised, and when it is kept -----

  /** The store that the event should leave: what reached the log whole is applied once. */
  function Promised(c: Codec, x: Sys, e: Event): Store {
    var s := ApplyAll(x.store, Part(c, e));
    if e.Commit? || e.Sync? then s else Boot(s, x.synced)
  }

  /** The transaction's frames are within the limit. */
  ghost predicate Fits(c: Codec, txn: Txn) {
    AllFaithful(c, EntriesOf(txn)) && AllFit(c, EntriesOf(txn))
  }

  /** The event is about writes and truncates whose frames are within the limit. */
  ghost predicate Loggable(c: Codec, e: Event) {
    e.Sync? || (AllDataOnly(e.txn.ops) && Fits(c, e.txn))
  }

  /** The append is cut with four bytes or more of a frame written, and not all of it. */
  predicate TearsFrame(c: Codec, e: Event) {
    e.CrashInAppend? && SIZE_BYTES <= Length(c, e) - |Log(FramerOf(c), EntriesOf(e.txn)[..Whole(c, e)])|
  }

  function LoggedOps(c: Codec, x: Sys): seq<Operation> {
    OpsOf(Parse(ReaderOf(c), x.log).0)
  }

  /** The next append goes right behind the whole frames, and covers what is left there. */
  predicate Tidy(c: Codec, log: seq<byte>, next: nat) {
    next == Front(ReaderOf(c), log) && |log| < next + SIZE_BYTES
  }

  /** Redoing the log changes nothing: it holds writes and truncates only, and all of them apply. */
  ghost predicate Harmless(c: Codec, x: Sys) {
    && AllDataOnly(LoggedOps(c, x))
    && Succeeds(x.store, LoggedOps(c, x)) && ApplyAll(x.store, LoggedOps(c, x)) == x.store
  }

  /** There is no torn prefix in the log, redoing it changes nothing, and nothing is listed. */
  ghost predicate Settled(c: Codec, x: Sys) {
    Tidy(c, x.log, x.next) && Harmless(c, x) && x.pending == []
  }

  /** A mount starts settled: its log is empty. */
  lemma FreshIsSettled(c: Codec, s: Store, synced: nat)
    ensures Settled(c, Sys([], 0, s, [], synced))
  {
    assert ReaderOf(c)([]) == NoFrame;
    assert OpsOf([]) == [];
  }

  // ----- what an event's bytes are read as -----

  lemma TidyIsNotTorn(c: Codec, log: seq<byte>, next: nat)
    requires Tidy(c, log, next)
    ensures !EndsTorn(ReaderOf(c), log) && Parse(ReaderOf(c), log).1 == next
  {
    ReaderIsLocal(c);
    ParseIsFront(ReaderOf(c), log);
  }

  /** Onto a log without a torn prefix, an event adds exactly its whole frames, and leaves a torn prefix exactly
      when it tears a frame. */
  lemma AppendedIsRead(c: Codec, x: Sys, e: Event)
    requires Tidy(c, x.log, x.next) && !e.Sync? && Fits(c, e.txn)
    ensures var log := LogAfter(c, x, e);
      && OpsOf(Parse(ReaderOf(c), log).0) == LoggedOps(c, x) + Part(c, e)
      && Front(ReaderOf(c), log) == x.next + |Log(FramerOf(c), EntriesOf(e.txn)[..Whole(c, e)])|
      && (if TearsFrame(c, e) then EndsTorn(ReaderOf(c), log)
          else Tidy(c, log, x.next + |Log(FramerOf(c), EntriesOf(e.txn)[..Whole(c, e)])|))
      && (!e.CrashInAppend? ==> Tidy(c, log, x.next + |FramesOf(c, e.txn)|))
  {
    var es, k, w := EntriesOf(e.txn), Length(c, e), Whole(c, e);
    var front, tail := x.log[..x.next], x.log[x.next..];
    assert x.log == front + tail;
    AllFramesWork(c, es);
    var part := CutAppend(ReaderOf(c), FramerOf(c), front, tail, es, k);
    PartIsRead(c, x.log, x.next, es, w, part);
    WholeLogIsKept(ReaderOf(c), FramerOf(c), es, k);
    assert !e.CrashInAppend? ==> w == |es| && es[..w] == es;
    OpsOfMore(c, x, e);
    assert es == [] ==> LogAfter(c, x, e) == x.log;
  }

  lemma OpsOfMore(c: Codec, x: Sys, e: Event)
    requires !e.Sync? && (!e.CrashInAppend? ==> Whole(c, e) == |e.txn.ops|)
    ensures OpsOf(Parse(ReaderOf(c), x.log).0 + EntriesOf(e.txn)[..Whole(c, e)]) == LoggedOps(c, x) + Part(c, e)
  {
    assert e.txn.ops[..|e.txn.ops|] == e.txn.ops;
  }

  lemma PartIsRead(c: Codec, log: seq<byte>, next: nat, es: seq<WalEntry>, w: nat, part: seq<byte>)
    requires Tidy(c, log, next) && w <= |es| && AllFaithful(c, es) && AllFit(c, es)
    requires |part| < SIZE_BYTES || FrameAt(c, part) == TornFrame
    ensures var kept := log[..next] + Log(FramerOf(c), es[..w]);
      && Parse(ReaderOf(c), kept + part).0 == Parse(ReaderOf(c), log).0 + es[..w]
      && Front(ReaderOf(c), kept + part) == |kept|
      && (|part| < SIZE_BYTES ==> Tidy(c, kept + part, |kept|))
      && (SIZE_BYTES <= |part| ==> EndsTorn(ReaderOf(c), kept + part))
  {
    var front, more := log[..next], Log(FramerOf(c), es[..w]);
    ReaderIsLocal(c);
    AllFramesWork(c, es[..w]);
    LogIsFront(ReaderOf(c), FramerOf(c), es[..w]);
    ParseIsFront(ReaderOf(c), log);
    ParseTwoFronts(ReaderOf(c), front, more, part);
  }

  // ----- from a settled state nothing is lost -----

  /** A log that changes nothing can be put in front. */
  lemma HarmlessFront(s: Store, before: seq<Operation>, ops: seq<Operation>)
    requires Succeeds(s, before) && ApplyAll(s, before) == s
    ensures ApplyAll(s, before + ops) == ApplyAll(s, ops)
  {
    ApplyJoin(s, before, ops);
  }

  /** Redoing a settled log and then the transaction over a part of the transaction applies it once. */
  lemma RedoSettled(s: Store, synced: nat, before: seq<Operation>, ops: seq<Operation>, k: nat, ks: seq<nat>)
    requires AllDataOnly(before + ops) && Succeeds(s, before) && ApplyAll(s, before) == s && k <= |ops|
    ensures ApplyAll(Boot(AfterCutReplays(ApplyAll(s, ops[..k]), synced, before + ops, ks), synced), before + ops)
         == Boot(ApplyAll(s, ops), synced)
  {
    RedoAfterCutReplays(ApplyAll(s, ops[..k]), synced, before + ops, ks);
    BootCommutes(ApplyAll(s, ops[..k]), synced, before + ops);
    HarmlessFront(s, before, ops);
    HarmlessFront(s, before, ops[..k]);
    RedoFromPart(s, before, ops, k);
  }

  lemma RedoFromPart(s: Store, before: seq<Operation>, ops: seq<Operation>, k: nat)
    requires AllDataOnly(before + ops) && k <= |ops|
    ensures ApplyAll(ApplyAll(s, before + ops[..k]), before + ops) == ApplyAll(s, before + ops)
  {
    assert (before + ops)[..|before| + k] == before + ops[..k];
    RedoFromAnyPrefix(s, before + ops, |before| + k);
  }

  /** From a settled state every event leaves the promised store. */
  lemma SettledIsDurable(c: Codec, x: Sys, e: Event)
    requires Settled(c, x) && Loggable(c, e)
    ensures Next(c, x, e).store == Promised(c, x, e)
  {
    if e.CrashAfterFlush? || e.CrashInAppend? {
      AppendedIsRead(c, x, e);
      var before, ops := LoggedOps(c, x), Part(c, e);
      assert AllDataOnly(before + ops);
      var k := if e.CrashAfterFlush? then Min(e.applied, |ops|) else 0;
      assert e.CrashInAppend? ==> ops[..0] == [];
      RedoSettled(x.store, x.synced, before, ops, k, e.ks);
    }
  }

  /** A log of writes and truncates applies in full, or not, whatever they have been applied to before. */
  lemma SameNodesSucceed(s: Store, t: Store, ops: seq<Operation>)
    requires AllDataOnly(ops) && s.nodes.Keys == t.nodes.Keys
    ensures Succeeds(s, ops) <==> Succeeds(t, ops)
  {
    DataSucceedsIff(s, ops);
    DataSucceedsIff(t, ops);
    assert UsesNodes(ops, s) <==> UsesNodes(ops, t);
  }

  /** What reaches the log applies, and no frame is torn. */
  ghost predicate Proper(c: Codec, x: Sys, e: Event) {
    Succeeds(x.store, Part(c, e)) && !TearsFrame(c, e)
  }

  /** An event keeps a settled state settled exactly when all that it logs applies and it leaves no torn prefix. */
  lemma StepKeepsSettledIff(c: Codec, x: Sys, e: Event)
    requires Settled(c, x) && Loggable(c, e)
    ensures Settled(c, Next(c, x, e)) <==> Proper(c, x, e)
  {
    match e
    case Sync =>
      DataSucceedsIff(x.store, LoggedOps(c, x));
    case Commit(txn) =>
      if Succeeds(x.store, txn.ops) {
        FreshIsSettled(c, ApplyAll(x.store, txn.ops), x.synced);
      } else {
        assert txn.ops != [];
        assert |Next(c, x, e).pending| == |txn.ops|;
      }
    case _ =>
      SettledIsDurable(c, x, e);
      AppendedIsRead(c, x, e);
      RestartHarmlessIff(c, x, e);
      var y := Next(c, x, e);
      if TearsFrame(c, e) {
        ReaderIsLocal(c);
        ParseIsFront(ReaderOf(c), y.log);
      } else {
        TidyIsNotTorn(c, y.log, x.next + |Log(FramerOf(c), EntriesOf(e.txn)[..Whole(c, e)])|);
      }
  }

  lemma RestartHarmlessIff(c: Codec, x: Sys, e: Event)
    requires Settled(c, x) && Loggable(c, e) && (e.CrashAfterFlush? || e.CrashInAppend?)
    requires Next(c, x, e).store == Promised(c, x, e)
    requires LoggedOps(c, Next(c, x, e)) == LoggedOps(c, x) + Part(c, e)
    ensures Harmless(c, Next(c, x, e)) <==> Succeeds(x.store, Part(c, e))
    ensures AllDataOnly(LoggedOps(c, Next(c, x, e)))
    ensures Succeeds(Next(c, x, e).store, LoggedOps(c, Next(c, x, e))) ==> Harmless(c, Next(c, x, e))
  {
    var s, ops, log := x.store, Part(c, e), LoggedOps(c, x) + Part(c, e);
    assert AllDataOnly(log);
    ApplyJoin(s, LoggedOps(c, x), ops);
    DataSucceedsIff(s, ops);
    SameNodesSucceed(s, Boot(ApplyAll(s, ops), x.synced), log);
    assert log[..|log|] == log;
    RedoFromAnyPrefix(s, log, |log|);
    BootCommutes(ApplyAll(s, ops), x.synced, log);
  }

  // ----- when something is lost -----

  /** The first `m` bytes are whole frames, the next append goes behind them, and something in them does not
      apply. */
  ghost predicate BlockedAt(c: Codec, x: Sys, m: nat) {
    && m <= |x.log| && m <= x.next && Front(ReaderOf(c), x.log[..m]) == m
    && AllDataOnly(OpsOf(Parse(ReaderOf(c), x.log[..m]).0))
    && !Succeeds(x.store, OpsOf(Parse(ReaderOf(c), x.log[..m]).0))
  }

  ghost predicate Blocked(c: Codec, x: Sys) {
    exists m :: BlockedAt(c, x, m)
  }

  /** The next append goes behind a torn prefix. */
  ghost predicate Torn(c: Codec, x: Sys) {
    Harmless(c, x) && EndsTorn(ReaderOf(c), x.log) && x.next == Front(ReaderOf(c), x.log) + SIZE_BYTES
  }

  /** A log of writes and truncates that does not apply in full blocks what follows it. */
  lemma BlockedByLog(c: Codec, x: Sys)
    requires AllDataOnly(LoggedOps(c, x)) && !Succeeds(x.store, LoggedOps(c, x))
    requires Front(ReaderOf(c), x.log) <= x.next
    ensures Blocked(c, x)
  {
    ReaderIsLocal(c);
    ParseIsFront(ReaderOf(c), x.log);
    assert BlockedAt(c, x, Front(ReaderOf(c), x.log));
  }

  /** Any event takes a settled state to one that is settled, blocked or torn. */
  lemma StepSettlesBlocksOrTears(c: Codec, x: Sys, e: Event)
    requires Settled(c, x) && Loggable(c, e)
    ensures var y := Next(c, x, e); Settled(c, y) || Blocked(c, y) || Torn(c, y)
  {
    StepKeepsSettledIff(c, x, e);
    if !Proper(c, x, e) {
      var y := Next(c, x, e);
      SettledIsDurable(c, x, e);
      AppendedIsRead(c, x, e);
      if e.Commit? {
        FailedCommitBlocks(c, x, e);
      } else {
        RestartHarmlessIff(c, x, e);
        ReaderIsLocal(c);
        ParseIsFront(ReaderOf(c), y.log);
        if !Succeeds(y.store, LoggedOps(c, y)) {
          BlockedByLog(c, y);
        }
      }
    }
  }

  lemma FailedCommitBlocks(c: Codec, x: Sys, e: Event)
    requires Settled(c, x) && Loggable(c, e) && e.Commit? && !Succeeds(x.store, e.txn.ops)
    requires OpsOf(Parse(ReaderOf(c), LogAfter(c, x, e)).0) == LoggedOps(c, x) + e.txn.ops
    requires Tidy(c, LogAfter(c, x, e), x.next + |FramesOf(c, e.txn)|)
    ensures Blocked(c, Next(c, x, e))
  {
    var y, log := Next(c, x, e), LoggedOps(c, x) + e.txn.ops;
    assert FramesOf(c, e.txn)[..Length(c, e)] == FramesOf(c, e.txn);
    DataSucceedsIff(x.store, e.txn.ops);
    assert AllDataOnly(log);
    SameNodesSucceed(x.store, y.store, log);
    ApplyJoin(x.store, LoggedOps(c, x), e.txn.ops);
    BlockedByLog(c, y);
  }

  /** A flushed transaction of which no operation has been applied is reached by replay, if there is no torn prefix,
      if and only if the log in front of it applies in full; if not, the restart leaves the same store whatever was
      flushed. This is so for operations of every kind: a creation that is still in the log after a restart hides
      what is flushed next. */
  lemma FlushedIsReachedIff(c: Codec, x: Sys, txn: Txn)
    requires Tidy(c, x.log, x.next) && Fits(c, txn)
    ensures var b, before := Boot(x.store, x.synced), LoggedOps(c, x);
      Next(c, x, CrashAfterFlush(txn, 0, [])).store
      == if Succeeds(b, before) then ApplyAll(ApplyAll(b, before), txn.ops) else ApplyAll(b, before)
  {
    AppendedIsRead(c, x, CrashAfterFlush(txn, 0, []));
    assert Take(txn.ops, 0) == [];
    ApplyJoin(Boot(x.store, x.synced), LoggedOps(c, x), txn.ops);
  }

  /** Behind a torn prefix it is reached only as far as recovery finds it through that prefix. */
  lemma FlushedBehindTear(c: Codec, x: Sys, txn: Txn)
    requires EndsTorn(ReaderOf(c), x.log) && x.next == Front(ReaderOf(c), x.log) + SIZE_BYTES
    ensures var n := Announced(x.log[Front(ReaderOf(c), x.log)..]);
      var ops := LoggedOps(c, x) + OpsOf(FoundBehind(c, n, FramesOf(c, txn)));
      0 < n && Next(c, x, CrashAfterFlush(txn, 0, [])).store == ApplyAll(Boot(x.store, x.synced), ops)
  {
    var data := FramesOf(c, txn);
    FoundOverTear(c, x.log, data);
    assert data[..|data|] == data && Take(txn.ops, 0) == [];
    OpsOfBoth(Parse(ReaderOf(c), x.log).0, FoundBehind(c, Announced(x.log[Front(ReaderOf(c), x.log)..]), data));
  }

  lemma FoundOverTear(c: Codec, log: seq<byte>, data: seq<byte>)
    requires EndsTorn(ReaderOf(c), log)
    ensures var n := Front(ReaderOf(c), log);
      && 0 < Announced(log[n..])
      && Parse(ReaderOf(c), Appended(log, n + SIZE_BYTES, data)).0
         == Parse(ReaderOf(c), log).0 + FoundBehind(c, Announced(log[n..]), data)
  {
    ReaderIsLocal(c);
    ParseOverTear(ReaderOf(c), log, data);
    ReadThroughPrefix(c, log[Front(ReaderOf(c), log)..], data);
  }

  lemma OpsOfBoth(a: seq<WalEntry>, b: seq<WalEntry>)
    ensures OpsOf(a + b) == OpsOf(a) + OpsOf(b)
  {
  }

  /** Where a row of operations fails, nothing after it is reached. */
  lemma FailureHides(s: Store, ops: seq<Operation>, all: seq<Operation>)
    requires ops <= all && !Succeeds(s, ops)
    ensures ApplyAll(s, all) == ApplyAll(s, ops)
  {
    assert all == ops + all[|ops|..];
    ApplyJoin(s, ops, all[|ops|..]);
  }

  /** A log that does not apply in full hides whatever is appended behind its whole frames. */
  lemma BlockedHides(c: Codec, x: Sys, m: nat, txn: Txn)
    requires BlockedAt(c, x, m)
    ensures Next(c, x, CrashAfterFlush(txn, 0, [])).store
         == ApplyAll(Boot(x.store, x.synced), OpsOf(Parse(ReaderOf(c), x.log[..m]).0))
  {
    var data := FramesOf(c, txn);
    ReaderIsLocal(c);
    AppendKeepsFront(ReaderOf(c), x.log, x.next, data, m);
    assert data[..|data|] == data && Take(txn.ops, 0) == [];
    var ops := OpsOf(Parse(ReaderOf(c), x.log[..m]).0);
    SameNodesSucceed(x.store, Boot(x.store, x.synced), ops);
    FailureHides(Boot(x.store, x.synced), ops, OpsOf(Parse(ReaderOf(c), Appended(x.log, x.next, data)).0));
  }

  /** The power fails once a write of the first block is flushed. */
  function FlushedWrite(id: nat, i: nat, data: seq<u8>): Event {
    CrashAfterFlush(Txn(id, [Write(i, 0, data)]), 0, [])
  }

  /** An inode exists to which two different values can be logged. */
  ghost predicate CanWrite(c: Codec, s: Store, id: nat, i: nat, a: seq<u8>, b: seq<u8>) {
    i in s.nodes && a != b && Loggable(c, FlushedWrite(id, i, a)) && Loggable(c, FlushedWrite(id, i, b))
  }

  lemma OneFrameIsNotFound(c: Codec, n: nat, id: nat, op: Operation)
    requires Textual(c) && Fits(c, Txn(id, [op])) && 0 < n
    ensures FoundBehind(c, n, FramesOf(c, Txn(id, [op]))) == []
  {
    var es, e := EntriesOf(Txn(id, [op])), WalEntry(id, op);
    assert es == [e] && e in es;
    LogOne(FramerOf(c), e);
    TextIsNotFoundBehind(c, n, e);
  }

  /** From a torn state, when entries are text, every flushed write is lost. */
  lemma TearLosesWrite(c: Codec, x: Sys, id: nat, i: nat, data: seq<u8>)
    requires Torn(c, x) && Textual(c) && Loggable(c, FlushedWrite(id, i, data))
    ensures Next(c, x, FlushedWrite(id, i, data)).store == Boot(x.store, x.synced)
  {
    var op := Write(i, 0, data);
    FlushedBehindTear(c, x, Txn(id, [op]));
    OneFrameIsNotFound(c, Announced(x.log[Front(ReaderOf(c), x.log)..]), id, op);
    assert LoggedOps(c, x) + [] == LoggedOps(c, x);
    BootCommutes(x.store, x.synced, LoggedOps(c, x));
  }

  lemma PromisedWrite(c: Codec, x: Sys, id: nat, i: nat, data: seq<u8>)
    requires i in x.store.nodes
    ensures var s := Promised(c, x, FlushedWrite(id, i, data));
      i in s.nodes && 0 in s.nodes[i].blocks && s.nodes[i].blocks[0] == data
  {
    var op := Write(i, 0, data);
    assert [op][1..] == [];
    assert ApplyAll(x.store, [op]) == ApplyAll(Apply(x.store, op).value, []) == Apply(x.store, op).value;
  }

  /** So one of two flushed writes of different values is lost. */
  lemma UnsettledLoses(c: Codec, x: Sys, id: nat, i: nat, a: seq<u8>, b: seq<u8>) returns (e: Event)
    requires Blocked(c, x) || (Torn(c, x) && Textual(c))
    requires CanWrite(c, x.store, id, i, a, b)
    ensures Loggable(c, e) && Next(c, x, e).store != Promised(c, x, e)
  {
    if Blocked(c, x) {
      var m :| BlockedAt(c, x, m);
      BlockedHides(c, x, m, Txn(id, [Write(i, 0, a)]));
      BlockedHides(c, x, m, Txn(id, [Write(i, 0, b)]));
    } else {
      TearLosesWrite(c, x, id, i, a);
      TearLosesWrite(c, x, id, i, b);
    }
    PromisedWrite(c, x, id, i, a);
    PromisedWrite(c, x, id, i, b);
    e := if Next(c, x, FlushedWrite(id, i, a)).store == Promised(c, x, FlushedWrite(id, i, a))
         then FlushedWrite(id, i, b) else FlushedWrite(id, i, a);
  }

  /** No event can leave less than it promises. */
  ghost predicate LosesNothing(c: Codec, x: Sys) {
    forall e :: Loggable(c, e) ==> Next(c, x, e).store == Promised(c, x, e)
  }

  /** The exact condition, for every state that one event leads to from a settled one: no event of writes and
      truncates can lose anything if and only if there is no torn prefix in the log, the log applies in full and
      changes nothing, and nothing is listed. */
  lemma DurableIffSettled(c: Codec, x: Sys, id: nat, i: nat, a: seq<u8>, b: seq<u8>)
    requires Settled(c, x) || Blocked(c, x) || Torn(c, x)
    requires Textual(c) && CanWrite(c, x.store, id, i, a, b)
    ensures LosesNothing(c, x) <==> Settled(c, x)
  {
    if Settled(c, x) {
      forall e | Loggable(c, e) ensures Next(c, x, e).store == Promised(c, x, e) {
        SettledIsDurable(c, x, e);
      }
    } else {
      var e := UnsettledLoses(c, x, id, i, a, b);
    }
  }

  // ----- whole runs -----

  function Run(c: Codec, x: Sys, es: seq<Event>): Sys
    decreases |es|
  {
    if es == [] then x else Run(c, Next(c, x, es[0]), es[1..])
  }

  ghost predicate ProperRun(c: Codec, x: Sys, es: seq<Event>)
    decreases |es|
  {
    es == [] || (Proper(c, x, es[0]) && ProperRun(c, Next(c, x, es[0]), es[1..]))
  }

  /** Everything that reached the log whole, in order. */
  function Done(c: Codec, es: seq<Event>): seq<Operation> {
    if es == [] then [] else Part(c, es[0]) + Done(c, es[1..])
  }

  lemma NextKeepsNodes(c: Codec, x: Sys, e: Event)
    requires Settled(c, x) && Loggable(c, e)
    ensures Next(c, x, e).store.nodes == ApplyAll(x.store, Part(c, e)).nodes
    ensures Next(c, x, e).store.nodes.Keys == x.store.nodes.Keys
  {
    SettledIsDurable(c, x, e);
    DataSucceedsIff(x.store, Part(c, e));
  }

  lemma FirstOf(c: Codec, x: Sys, es: seq<Event>, k: nat)
    requires 0 < k <= |es|
    ensures Run(c, x, es[..k]) == Run(c, Next(c, x, es[0]), es[1..][..k - 1])
  {
    assert es[..k][1..] == es[1..][..k - 1] && es[..k][0] == es[0];
  }

  /** The exact condition over runs: in no state of a run of writes and truncates from a settled state can anything
      be lost if and only if every event's operations apply and no event tears a frame by four bytes or more. */
  lemma {:induction false} RunLosesNothingIff(c: Codec, x: Sys, es: seq<Event>, id: nat, i: nat, a: seq<u8>, b: seq<u8>)
    requires Settled(c, x) && forall e :: e in es ==> Loggable(c, e)
    requires Textual(c) && CanWrite(c, x.store, id, i, a, b)
    ensures (forall k :: 0 <= k <= |es| ==> LosesNothing(c, Run(c, x, es[..k]))) <==> ProperRun(c, x, es)
    decreases |es|
  {
    DurableIffSettled(c, x, id, i, a, b);
    if es == [] {
      assert es[..0] == [];
    } else {
      var y, rest := Next(c, x, es[0]), es[1..];
      assert es[0] in es;
      NextKeepsNodes(c, x, es[0]);
      StepKeepsSettledIff(c, x, es[0]);
      StepSettlesBlocksOrTears(c, x, es[0]);
      DurableIffSettled(c, y, id, i, a, b);
      forall k | 0 < k <= |es| ensures Run(c, x, es[..k]) == Run(c, y, rest[..k - 1]) {
        FirstOf(c, x, es, k);
      }
      assert es[..0] == [] && rest[..0] == [] && Run(c, y, []) == y;
      if Proper(c, x, es[0]) {
        RunLosesNothingIff(c, y, rest, id, i, a, b);
        RunsShift(c, x, es);
      } else {
        assert Run(c, x, es[..1]) == y;
      }
    }
  }

  lemma RunsShift(c: Codec, x: Sys, es: seq<Event>)
    requires es != [] && LosesNothing(c, x)
    ensures (forall k :: 0 <= k <= |es| ==> LosesNothing(c, Run(c, x, es[..k])))
       <==> (forall k :: 0 <= k <= |es| - 1 ==> LosesNothing(c, Run(c, Next(c, x, es[0]), es[1..][..k])))
  {
    var y, rest := Next(c, x, es[0]), es[1..];
    assert es[..0] == [];
    forall k | 0 <= k <= |es| - 1 ensures Run(c, y, rest[..k]) == Run(c, x, es[..k + 1]) {
      FirstOf(c, x, es, k + 1);
    }
    forall k | 0 < k <= |es| ensures Run(c, x, es[..k]) == Run(c, y, rest[..k - 1]) {
      FirstOf(c, x, es, k);
    }
  }

  /** Stores with the same files keep them the same. */
  lemma SameFiles(s: Store, t: Store, ops: seq<Operation>)
    requires AllDataOnly(ops) && s.nodes == t.nodes
    ensures ApplyAll(s, ops).nodes == ApplyAll(t, ops).nodes
  {
    BootCommutes(s, t.nextIno, ops);
    assert Boot(s, t.nextIno) == t;
  }

  lemma {:induction false} DoneIsData(c: Codec, es: seq<Event>)
    requires forall e :: e in es ==> Loggable(c, e)
    ensures AllDataOnly(Done(c, es))
  {
    if es != [] {
      assert es[0] in es;
      DoneIsData(c, es[1..]);
    }
  }

  /** Over a proper run, with power failures and cut replays anywhere, the files are what applying everything that
      reached the log whole once gives. */
  lemma {:induction false} RunIsDurable(c: Codec, x: Sys, es: seq<Event>)
    requires Settled(c, x) && ProperRun(c, x, es) && forall e :: e in es ==> Loggable(c, e)
    ensures Settled(c, Run(c, x, es)) && Run(c, x, es).store.nodes == ApplyAll(x.store, Done(c, es)).nodes
    decreases |es|
  {
    if es != [] {
      var e, rest := es[0], es[1..];
      assert e in es;
      NextKeepsNodes(c, x, e);
      StepKeepsSettledIff(c, x, e);
      ApplyJoin(x.store, Part(c, e), Done(c, rest));
      DoneIsData(c, rest);
      SameFiles(Next(c, x, e).store, ApplyAll(x.store, Part(c, e)), Done(c, rest));
      RunIsDurable(c, Next(c, x, e), rest);
    }
  }

  // ----- what ends a loss -----

  /** A commit that applies, with nothing else listed, empties the log: whatever was in it, the state is settled. */
  lemma CommitSettles(c: Codec, x: Sys, txn: Txn)
    requires Succeeds(x.store, txn.ops) && WithoutTxn(x.pending, txn.id) == []
    ensures Settled(c, Next(c, x, Commit(txn)))
  {
    FreshIsSettled(c, ApplyAll(x.store, txn.ops), x.synced);
  }

  lemma {:induction false} BlockedReplaysKeepNodes(s: Store, synced: nat, ops: seq<Operation>, all: seq<Operation>,
                                                   ks: seq<nat>)
    requires ops <= all && AllDataOnly(ops) && !Succeeds(s, ops)
    ensures AfterCutReplays(s, synced, all, ks).nodes.Keys == s.nodes.Keys
  {
    if ks != [] {
      var n := |ks| - 1;
      BlockedReplaysKeepNodes(s, synced, ops, all, ks[..n]);
      PartKeepsNodes(s, Boot(AfterCutReplays(s, synced, all, ks[..n]), synced), ops, all, ks[n]);
    }
  }

  lemma PartKeepsNodes(s: Store, t: Store, ops: seq<Operation>, all: seq<Operation>, k: nat)
    requires ops <= all && AllDataOnly(ops) && !Succeeds(s, ops) && s.nodes.Keys == t.nodes.Keys
    ensures ApplyAll(t, Take(all, k)).nodes.Keys == t.nodes.Keys
  {
    if k < |ops| {
      assert Take(all, k) == ops[..k] && AllDataOnly(ops[..k]);
      DataSucceedsIff(t, ops[..k]);
    } else {
      SameNodesSucceed(s, t, ops);
      FailureHides(t, ops, Take(all, k));
      DataSucceedsIff(t, ops);
    }
  }

  lemma RestartOverBlockedKeepsNodes(c: Codec, s: Store, synced: nat, ops: seq<Operation>, log: seq<byte>, ks: seq<nat>)
    requires AllDataOnly(ops) && !Succeeds(s, ops) && ops <= OpsOf(Parse(ReaderOf(c), log).0)
    ensures Restart(c, log, s, synced, ks).store.nodes.Keys == s.nodes.Keys
  {
    var all := OpsOf(Parse(ReaderOf(c), log).0);
    BlockedReplaysKeepNodes(s, synced, ops, all, ks);
    assert Take(all, |all|) == all;
    PartKeepsNodes(s, Boot(AfterCutReplays(s, synced, all, ks), synced), ops, all, |all|);
  }

  /** Until such a commit a blocked log stays blocked. */
  lemma BlockedStays(c: Codec, x: Sys, m: nat, e: Event)
    requires BlockedAt(c, x, m) && Loggable(c, e)
    ensures BlockedAt(c, Next(c, x, e), m) || Settled(c, Next(c, x, e))
  {
    var y, ops := Next(c, x, e), OpsOf(Parse(ReaderOf(c), x.log[..m]).0);
    if e.Sync? {
    } else if e.Commit? && Succeeds(x.store, e.txn.ops) && WithoutTxn(x.pending, e.txn.id) == [] {
      CommitSettles(c, x, e.txn);
    } else {
      ReaderIsLocal(c);
      AppendKeepsFront(ReaderOf(c), x.log, x.next, FramesOf(c, e.txn)[..Length(c, e)], m);
      assert FramesOf(c, e.txn)[..|FramesOf(c, e.txn)|] == FramesOf(c, e.txn);
      ParseIsFront(ReaderOf(c), y.log);
      BlockedStepKeepsNodes(c, x, ops, e);
      SameNodesSucceed(x.store, y.store, ops);
    }
  }

  lemma BlockedStepKeepsNodes(c: Codec, x: Sys, ops: seq<Operation>, e: Event)
    requires AllDataOnly(ops) && !Succeeds(x.store, ops) && !e.Sync? && Loggable(c, e)
    requires ops <= OpsOf(Parse(ReaderOf(c), LogAfter(c, x, e)).0)
    ensures Next(c, x, e).store.nodes.Keys == x.store.nodes.Keys
  {
    DataSucceedsIff(x.store, e.txn.ops);
    match e
    case Commit(_) =>
    case CrashAfterFlush(txn, applied, ks) =>
      var s := ApplyAll(x.store, Take(txn.ops, applied));
      DataSucceedsIff(x.store, Take(txn.ops, applied));
      SameNodesSucceed(x.store, s, ops);
      RestartOverBlockedKeepsNodes(c, s, x.synced, ops, LogAfter(c, x, e), ks);
    case CrashInAppend(_, _, ks) =>
      RestartOverBlockedKeepsNodes(c, x.store, x.synced, ops, LogAfter(c, x, e), ks);
  }

  lemma StillTorn(c: Codec, torn: seq<byte>, data: seq<byte>)
    requires FrameAt(c, torn) == TornFrame && |data| < Announced(torn)
    ensures FrameAt(c, AfterTear(torn, data)) == TornFrame
  {
    var prefix, tail := torn[..SIZE_BYTES], torn[SIZE_BYTES..];
    assert torn == prefix + tail;
    BehindPrefix(c, prefix, tail);
    BehindPrefix(c, prefix, data + if SIZE_BYTES + |data| < |torn| then torn[SIZE_BYTES + |data|..] else []);
  }

  lemma TornLogStays(c: Codec, log: seq<byte>, data: seq<byte>)
    requires EndsTorn(ReaderOf(c), log) && |data| < Announced(log[Front(ReaderOf(c), log)..])
    ensures var n := Front(ReaderOf(c), log);
      var t := Appended(log, n + SIZE_BYTES, data);
      && Front(ReaderOf(c), t) == n && EndsTorn(ReaderOf(c), t)
      && Parse(ReaderOf(c), t) == (Parse(ReaderOf(c), log).0, n + SIZE_BYTES)
  {
    var n := Front(ReaderOf(c), log);
    var torn, t := log[n..], Appended(log, n + SIZE_BYTES, data);
    ReaderIsLocal(c);
    ParseOverTear(ReaderOf(c), log, data);
    StillTorn(c, torn, data);
    assert t[n..] == AfterTear(torn, data);
    ParseIsFront(ReaderOf(c), t);
    ParseIsFront(ReaderOf(c), log);
    assert log[..n] == t[..n];
  }

  lemma RestartIsHarmless(s: Store, t: Store, synced: nat, ops: seq<Operation>, ks: seq<nat>)
    requires AllDataOnly(ops) && Succeeds(s, ops) && s.nodes.Keys == t.nodes.Keys
    ensures var r := ApplyAll(Boot(AfterCutReplays(t, synced, ops, ks), synced), ops);
      Succeeds(r, ops) && ApplyAll(r, ops) == r
  {
    RedoAfterCutReplays(t, synced, ops, ks);
    var b := Boot(t, synced);
    assert ops[..|ops|] == ops;
    RedoFromAnyPrefix(b, ops, |ops|);
    DataSucceedsIff(b, ops);
    SameNodesSucceed(s, ApplyAll(b, ops), ops);
  }

  /** A restart after fewer bytes than a torn prefix announces leaves it torn. */
  lemma RestartStaysTorn(c: Codec, x: Sys, data: seq<byte>, s: Store, ks: seq<nat>)
    requires Torn(c, x) && s.nodes.Keys == x.store.nodes.Keys
    requires |data| < Announced(x.log[Front(ReaderOf(c), x.log)..])
    ensures Torn(c, Restart(c, Appended(x.log, x.next, data), s, x.synced, ks))
  {
    TornLogStays(c, x.log, data);
    RestartIsHarmless(x.store, s, x.synced, LoggedOps(c, x), ks);
  }

  /** So does a power failure. */
  lemma CrashStaysTorn(c: Codec, x: Sys, e: Event)
    requires Torn(c, x) && Loggable(c, e) && (e.CrashAfterFlush? || e.CrashInAppend?)
    requires Length(c, e) < Announced(x.log[Front(ReaderOf(c), x.log)..])
    ensures Torn(c, Next(c, x, e))
  {
    var data := FramesOf(c, e.txn)[..Length(c, e)];
    if e.CrashAfterFlush? {
      var done := Take(e.txn.ops, e.applied);
      DataSucceedsIff(x.store, done);
      RestartStaysTorn(c, x, data, ApplyAll(x.store, done), e.ks);
    } else {
      RestartStaysTorn(c, x, data, x.store, e.ks);
    }
  }
}
