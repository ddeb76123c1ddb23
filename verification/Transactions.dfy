/** The transaction manager: src/transaction.rs. Storage is taken from the mock in src/dbfs_test.rs. */
module Transactions {
  import opened Common
  import opened Operations
  import opened FrameLog
  import opened Wal

  datatype Txn = Txn(id: nat, ops: seq<Operation>)

  /** What survives a power failure; the inode counter in the store is reset by the restart. */
  datatype Durable = Durable(log: seq<byte>, store: Store)

  /** The entries that a transaction appends. */
  function EntriesOf(txn: Txn): (es: seq<WalEntry>)
    ensures |es| == |txn.ops| && forall i :: 0 <= i < |es| ==> es[i] == WalEntry(txn.id, txn.ops[i])
  {
    seq(|txn.ops|, i requires 0 <= i < |txn.ops| => WalEntry(txn.id, txn.ops[i]))
  }

  /** The durable states that applying `ops` passes through, after the one it starts in. */
  function ApplyTrace(log: seq<byte>, s: Store, ops: seq<Operation>): seq<Durable>
    decreases |ops|
  {
    if ops == [] || Apply(s, ops[0]).Err? then []
    else [Durable(log, Apply(s, ops[0]).value)] + ApplyTrace(log, Apply(s, ops[0]).value, ops[1..])
  }

  /** The frames that a transaction appends. */
  function FramesOf(c: Codec, txn: Txn): seq<byte> {
    Log(FramerOf(c), EntriesOf(txn))
  }

  /** The log after the first `i` operations of a transaction are appended at `next`. */
  function LogWith(c: Codec, log: seq<byte>, next: nat, txn: Txn, i: nat): seq<byte>
    requires i <= |txn.ops|
  {
    Appended(log, next, Log(FramerOf(c), EntriesOf(txn)[..i]))
  }

  /** The durable states that appending a transaction passes through, after the one it starts in; a power failure
      inside an append writes a part of its frame. */
  function AppendTrace(c: Codec, log: seq<byte>, next: nat, s: Store, txn: Txn): seq<Durable> {
    seq(|txn.ops|, i requires 0 <= i < |txn.ops| => Durable(LogWith(c, log, next, txn, i + 1), s))
  }

  /** The durable states that a commit passes through, after the one it starts in. */
  function CommitTrace(c: Codec, log: seq<byte>, next: nat, s: Store, txn: Txn, checkpointed: bool): seq<Durable> {
    AppendTrace(c, log, next, s, txn)
    + ApplyTrace(Appended(log, next, FramesOf(c, txn)), s, txn.ops)
    + if checkpointed then [Durable([], ApplyAll(s, txn.ops))] else []
  }

  /** Which storage calls of a commit fail: those of each append, the flush, or the one that empties the log. */
  datatype LogFaults = LogFaults(append: nat -> StorageFault, flush: bool, truncate: bool)

  predicate AppendFails(txn: Txn, faults: nat -> StorageFault) {
    exists k: nat :: k < |txn.ops| && faults(k) != Fine
  }

  predicate LogFails(txn: Txn, faults: LogFaults) {
    AppendFails(txn, faults.append) || faults.flush
  }

  predicate FirstFault(faults: nat -> StorageFault, k: nat) {
    faults(k) != Fine && forall j: nat :: j < k ==> faults(j) == Fine
  }

  lemma OneMoreStep(trace: seq<Durable>, i: nat, d: Durable)
    requires i < |trace| && d == trace[i]
    ensures trace[..i + 1] == trace[..i] + [d]
  {
  }

  class TransactionManager {
    const wal: WriteAheadLog
    var nextTxnId: nat
    /** The bottom file system, and the inode counter in memory. */
    var store: Store

    constructor (wal: WriteAheadLog, store: Store)
      ensures this.wal == wal && nextTxnId == 1 && this.store == store
    {
      this.wal, nextTxnId, this.store := wal, 1, store;
    }

    ghost function Disk(): Durable
      reads this, wal
    {
      Durable(if wal.storage.Some? then wal.storage.value else [], store)
    }

    method BeginTransaction(ops: seq<Operation>) returns (txn: Txn)
      modifies this
      ensures txn == Txn(old(nextTxnId), ops) && nextTxnId == old(nextTxnId) + 1 && store == old(store)
    {
      var id := nextTxnId;
      nextTxnId := nextTxnId + 1;
      txn := Txn(id, ops);
    }

    /** The log is `log`, attached, with the first `i` operations of the transaction appended at `next`. */
    ghost predicate HasAppended(log: seq<byte>, next: nat, txn: Txn, i: nat)
      requires i <= |txn.ops|
      reads wal
    {
      && wal.storage == Some(LogWith(wal.codec, log, next, txn, i))
      && wal.nextOffset == next + |Log(FramerOf(wal.codec), EntriesOf(txn)[..i])|
    }

    /** One turn of the loop that appends a transaction. */
    method AppendNext(txn: Txn, i: nat, fault: StorageFault, ghost log: seq<byte>, ghost next: nat)
      returns (r: Result<()>)
      requires i < |txn.ops| && (wal.storage.Some? ==> HasAppended(log, next, txn, i))
      modifies wal
      ensures r == if old(wal.storage).Some? && fault != Fine then Err(Io) else Ok(())
      ensures wal.entries == if r.Ok? then old(wal.entries) + [EntriesOf(txn)[i]] else old(wal.entries)
      ensures wal.storage.None? <==> old(wal.storage).None?
      ensures r.Ok? && wal.storage.Some? ==>
        HasAppended(log, next, txn, i + 1) && Disk() == AppendTrace(wal.codec, log, next, store, txn)[i]
    {
      ghost var own := EntriesOf(txn);
      r := wal.Append(txn.id, txn.ops[i], fault);
      assert own[..i + 1] == own[..i] + [own[i]];
      AppendOneMore(FramerOf(wal.codec), log, next, own[..i], own[i]);
    }

    /** Appends every operation, or those before the first one that meets a storage error. */
    method AppendAll(txn: Txn, faults: nat -> StorageFault) returns (r: Result<()>, ghost steps: seq<Durable>)
      modifies wal
      ensures wal.storage.None? <==> old(wal.storage).None?
      ensures r == if old(wal.storage).Some? && AppendFails(txn, faults) then Err(Io) else Ok(())
      ensures r.Ok? ==> wal.entries == old(wal.entries) + EntriesOf(txn)
      ensures r.Ok? && wal.storage.Some? ==>
        && HasAppended(old(wal.storage).value, old(wal.nextOffset), txn, |txn.ops|)
        && steps == AppendTrace(wal.codec, old(wal.storage).value, old(wal.nextOffset), store, txn)
      ensures r.Err? ==> exists k ::
        0 <= k < |txn.ops| && FirstFault(faults, k) && wal.entries == old(wal.entries) + EntriesOf(txn)[..k]
    {
      ghost var own := EntriesOf(txn);
      ghost var log := if wal.storage.Some? then wal.storage.value else [];
      ghost var next, trace := wal.nextOffset, AppendTrace(wal.codec, log, wal.nextOffset, store, txn);
      steps := [];
      for i := 0 to |txn.ops|
        invariant wal.entries == old(wal.entries) + own[..i]
        invariant wal.storage.None? <==> old(wal.storage).None?
        invariant wal.storage.Some? ==> forall k :: 0 <= k < i ==> faults(k) == Fine
        invariant wal.storage.Some? ==> HasAppended(log, next, txn, i) && steps == trace[..i]
      {
        r := AppendNext(txn, i, faults(i), log, next);
        if r.Err? {
          assert FirstFault(faults, i);
          return;
        }
        assert own[..i + 1] == own[..i] + [own[i]];
        steps := steps + [Disk()];
        if wal.storage.Some? {
          OneMoreStep(trace, i, Disk());
        }
      }
      assert own[..|txn.ops|] == own;
      r := Ok(());
    }

    /** A crash between logging and applying: the log has the operations, the store does not. */
    method CommitIntoWalOnly(txn: Txn, faults: LogFaults) returns (r: Result<()>)
      modifies wal
      ensures store == old(store)
      ensures r == if old(wal.storage).Some? && LogFails(txn, faults) then Err(Io) else Ok(())
      ensures r.Ok? ==> wal.entries == old(wal.entries) + EntriesOf(txn)
      ensures r.Ok? && old(wal.storage).Some? ==>
        HasAppended(old(wal.storage).value, old(wal.nextOffset), txn, |txn.ops|)
    {
      ghost var steps;
      r, steps := AppendAll(txn, faults.append);
      if r.Ok? && wal.storage.Some? && faults.flush {
        r := Err(Io);
      }
    }

    /** Appends and flushes the operations, applies them, and clears them from the log. A storage error up to the
        flush leaves the store alone; one while the log is emptied is only noted. */
    method Commit(txn: Txn, faults: LogFaults) returns (r: Result<()>, ghost steps: seq<Durable>)
      modifies this, wal
      ensures nextTxnId == old(nextTxnId) && (wal.storage.None? <==> old(wal.storage).None?)
      ensures old(wal.storage).Some? && LogFails(txn, faults) ==> r == Err(Io) && store == old(store)
      ensures old(wal.storage).None? || !LogFails(txn, faults) ==>
        && store == ApplyAll(old(store), txn.ops)
        && (r.Ok? <==> Succeeds(old(store), txn.ops))
        && wal.entries ==
             if r.Ok? then WithoutTxn(old(wal.entries), txn.id) else old(wal.entries) + EntriesOf(txn)
      ensures old(wal.storage).Some? && !LogFails(txn, faults) ==>
        var log, next := old(wal.storage).value, old(wal.nextOffset);
        var emptied := r.Ok? && wal.entries == [] && !faults.truncate;
        && (if emptied then wal.storage == Some([]) && wal.nextOffset == 0
            else HasAppended(log, next, txn, |txn.ops|))
        && steps == CommitTrace(wal.codec, log, next, old(store), txn, emptied)
    {
      r, steps := AppendAll(txn, faults.append);
      if r.Err? {
        return;
      }
      if wal.storage.Some? && faults.flush {
        return Err(Io), steps;
      }
      assert EntriesOf(txn)[..|txn.ops|] == EntriesOf(txn);
      ghost var applying;
      r, applying := ApplyOps(txn);
      steps := steps + applying;
      if r.Err? {
        assert steps + [] == steps;
        return;
      }
      WithoutOwn(old(wal.entries), EntriesOf(txn), txn.id);
      wal.ClearTxn(txn.id, faults.truncate);
      steps := steps + if wal.entries == [] && !faults.truncate then [Disk()] else [];
    }

    /** The loop that applies a transaction, up to the first operation that fails. */
    method ApplyOps(txn: Txn) returns (r: Result<()>, ghost applying: seq<Durable>)
      modifies this
      ensures nextTxnId == old(nextTxnId)
      ensures store == ApplyAll(old(store), txn.ops)
      ensures r.Ok? <==> Succeeds(old(store), txn.ops)
      ensures applying == ApplyTrace(Disk().log, old(store), txn.ops)
    {
      applying := [];
      ghost var log := Disk().log;
      for i := 0 to |txn.ops|
        invariant nextTxnId == old(nextTxnId) && Disk().log == log
        invariant ApplyAll(old(store), txn.ops) == ApplyAll(store, txn.ops[i..])
        invariant Succeeds(old(store), txn.ops) <==> Succeeds(store, txn.ops[i..])
        invariant ApplyTrace(log, old(store), txn.ops) == applying + ApplyTrace(log, store, txn.ops[i..])
      {
        assert txn.ops[i..][1..] == txn.ops[i + 1..];
        var applied := Apply(store, txn.ops[i]);
        if applied.Err? {
          store := Failed(store, txn.ops[i]);
          return Err(applied.error), applying;
        }
        store := applied.value;
        Associate(applying, [Disk()], ApplyTrace(log, store, txn.ops[i + 1..]));
        applying := applying + [Disk()];
      }
      r := Ok(());
    }

    method Replay() returns (r: Result<()>)
      modifies this, wal
      ensures nextTxnId == old(nextTxnId) && wal.entries == old(wal.entries) && wal.storage == old(wal.storage)
      ensures wal.storage.Some? ==>
        var found := Parse(ReaderOf(wal.codec), wal.storage.value);
        && store == ApplyAll(old(store), OpsOf(found.0)) && wal.nextOffset == found.1
        && (r.Ok? <==> Succeeds(old(store), OpsOf(found.0)))
      ensures wal.storage.None? ==> store == old(store) && r.Ok?
    {
      var entries := wal.Recover();
      ghost var ops, next := OpsOf(entries), wal.nextOffset;
      for i := 0 to |entries|
        invariant wal.nextOffset == next
        invariant nextTxnId == old(nextTxnId) && wal.entries == old(wal.entries) && wal.storage == old(wal.storage)
        invariant ApplyAll(old(store), ops) == ApplyAll(store, ops[i..])
        invariant Succeeds(old(store), ops) <==> Succeeds(store, ops[i..])
      {
        assert ops[i..][1..] == ops[i + 1..] && ops[i..][0] == entries[i].operation;
        var applied := Apply(store, entries[i].operation);
        if applied.Err? {
          store := Failed(store, entries[i].operation);
          return Err(applied.error);
        }
        store := applied.value;
      }
      r := Ok(());
    }
  }

  function OpsOf(es: seq<WalEntry>): (ops: seq<Operation>)
    ensures |ops| == |es| && forall i :: 0 <= i < |es| ==> ops[i] == es[i].operation
  {
    seq(|es|, i requires 0 <= i < |es| => es[i].operation)
  }

  /** Clearing a transaction also clears what it has just appended. */
  lemma {:induction false} WithoutOwn(before: seq<WalEntry>, own: seq<WalEntry>, id: nat)
    requires forall e :: e in own ==> e.txnId == id
    ensures WithoutTxn(before + own, id) == WithoutTxn(before, id)
  {
    if before == [] {
      assert before + own == own;
      if own != [] {
        WithoutOwn(before, own[1..], id);
        assert [] + own[1..] == own[1..];
      }
    } else {
      assert (before + own)[1..] == before[1..] + own;
      WithoutOwn(before[1..], own, id);
    }
  }
}
