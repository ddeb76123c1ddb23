/** The write-ahead log: src/wal.rs. */
module Wal {
  import opened Common
  import opened Operations
  import opened FrameLog

  datatype WalEntry = WalEntry(txnId: nat, operation: Operation)

  /** The serialisation of entries, which lies outside this model. */
  datatype Codec = Codec(encode: WalEntry -> seq<byte>, decode: seq<byte> -> Option<WalEntry>)

  const MAX_FRAME: nat := 1024 * 1024

  /** Decoding undoes encoding, and nothing encodes to no bytes or to more than a `u32` can count. */
  ghost predicate Faithful(c: Codec, e: WalEntry) {
    c.decode(c.encode(e)) == Some(e) && 0 < |c.encode(e)| < U32_LIMIT
  }

  predicate FrameFits(c: Codec, e: WalEntry) {
    |c.encode(e)| <= MAX_FRAME
  }

  /** `to_le_bytes` of a `u32`. */
  function Le32(n: nat): (b: seq<byte>)
    requires n < U32_LIMIT
    ensures |b| == SIZE_BYTES
  {
    [ByteOf(n), ByteOf(n / 0x100), ByteOf(n / 0x1_0000), ByteOf(n / 0x100_0000)]
  }

  function FromLe32(b: seq<byte>): nat
    requires |b| == SIZE_BYTES
  {
    b[0] as nat + b[1] as nat * 0x100 + b[2] as nat * 0x1_0000 + b[3] as nat * 0x100_0000
  }

  lemma Le32RoundTrip(n: nat)
    requires n < U32_LIMIT
    ensures FromLe32(Le32(n)) == n
  {
    var q1, q2, q3 := n / 0x100, n / 0x1_0000, n / 0x100_0000;
    assert n == q1 * 0x100 + n % 0x100;
    assert q2 == q1 / 0x100 && q1 == q2 * 0x100 + q1 % 0x100;
    assert q3 == q2 / 0x100 && q2 == q3 * 0x100 + q2 % 0x100;
    assert q3 % 0x100 == q3;
  }

  /** Four bytes that count the payload, lowest first, and the payload behind them. */
  predicate IsFrameOf(f: seq<byte>, data: seq<byte>) {
    && |f| == 4 + |data| && f[4..] == data
    && f[0] as nat + 256 * (f[1] as nat + 256 * (f[2] as nat + 256 * f[3] as nat)) == |data|
  }

  lemma PrefixCounts(data: seq<byte>)
    requires |data| < U32_LIMIT
    ensures IsFrameOf(Le32(|data|) + data, data)
  {
    Le32RoundTrip(|data|);
    Counts(Le32(|data|), data);
  }

  lemma Counts(prefix: seq<byte>, data: seq<byte>)
    requires |prefix| == SIZE_BYTES && FromLe32(prefix) == |data|
    ensures IsFrameOf(prefix + data, data)
  {
  }

  /** What is written for an entry. */
  lemma FrameBytes(c: Codec, e: WalEntry)
    requires |c.encode(e)| < U32_LIMIT
    ensures IsFrameOf(Frame(c, e), c.encode(e))
  {
    var data := c.encode(e);
    assert |data| % U32_LIMIT == |data|;
    PrefixCounts(data);
  }

  /** The length prefix and the payload of one entry; the length is cast to `u32`. */
  function Frame(c: Codec, e: WalEntry): seq<byte> {
    Le32(|c.encode(e)| % U32_LIMIT) + c.encode(e)
  }

  /** What recovery does with the bytes from a frame boundary on. */
  function FrameAt(c: Codec, s: seq<byte>): (f: FrameRead<WalEntry>) {
    if |s| < SIZE_BYTES then NoFrame
    else
      var size := FromLe32(s[..SIZE_BYTES]);
      if size == 0 || size > MAX_FRAME then NoFrame
      else if |s| < SIZE_BYTES + size then TornFrame
      else WholeFrame(c.decode(s[SIZE_BYTES..SIZE_BYTES + size]), SIZE_BYTES + size)
  }

  function FramerOf(c: Codec): (f: Framer<WalEntry>)
    ensures forall e :: SIZE_BYTES <= |f(e)|
  {
    e => Frame(c, e)
  }

  function ReaderOf(c: Codec): Reader<WalEntry> {
    s => FrameAt(c, s)
  }

  class WriteAheadLog {
    const codec: Codec
    var entries: seq<WalEntry>
    var storage: Option<seq<byte>>
    var nextOffset: nat

    constructor (codec: Codec)
      ensures this.codec == codec && entries == [] && storage == None && nextOffset == 0
    {
      this.codec, entries, storage, nextOffset := codec, [], None, 0;
    }

    method SetStorage(bytes: seq<byte>)
      modifies this
      ensures storage == Some(bytes) && entries == old(entries) && nextOffset == old(nextOffset)
    {
      storage := Some(bytes);
    }

    /** The log is exactly the frames of `es`, and the next frame goes right after them. */
    ghost predicate Holds(es: seq<WalEntry>)
      reads this
    {
      storage == Some(Log(FramerOf(codec), es)) && nextOffset == |Log(FramerOf(codec), es)|
    }

    /** A storage error before the entry is complete leaves it out of the list; one after the length prefix leaves
        that prefix in the log, and the next offset behind it. */
    method Append(txnId: nat, op: Operation, fault: StorageFault) returns (r: Result<()>)
      modifies this
      ensures r == if old(storage).Some? && fault != Fine then Err(Io) else Ok(())
      ensures entries == if r.Ok? then old(entries) + [WalEntry(txnId, op)] else old(entries)
      ensures old(storage).None? ==> storage == None && nextOffset == old(nextOffset)
      ensures old(storage).Some? ==>
        var written := Written(FramerOf(codec)(WalEntry(txnId, op)), fault);
        && storage == (if fault == SizeFails then old(storage)
                       else Some(WriteAt(old(storage).value, old(nextOffset), written)))
        && nextOffset == old(nextOffset) + |written|
      ensures r.Ok? ==> forall es :: old(Holds(es)) ==> Holds(es + [WalEntry(txnId, op)])
    {
      var entry := WalEntry(txnId, op);
      var data := codec.encode(entry);
      if storage.Some? {
        var sizeBytes := Le32(|data| % U32_LIMIT);
        ghost var before := storage.value;
        if fault == SizeFails {
          return Err(Io);
        }
        storage := Some(WriteAt(storage.value, nextOffset, sizeBytes));
        nextOffset := nextOffset + SIZE_BYTES;
        if fault == DataFails {
          assert FramerOf(codec)(entry)[..SIZE_BYTES] == sizeBytes;
          return Err(Io);
        }
        storage := Some(WriteAt(storage.value, nextOffset, data));
        nextOffset := nextOffset + |data|;
        WriteTwice(before, old(nextOffset), sizeBytes, data);
        forall es | old(Holds(es)) ensures Holds(es + [entry]) {
          AppendFrame(FramerOf(codec), es, entry);
        }
      }
      entries := entries + [entry];
      r := Ok(());
    }

    method Recover() returns (recovered: seq<WalEntry>)
      modifies this
      ensures entries == old(entries) && storage == old(storage)
      ensures storage.None? ==> recovered == [] && nextOffset == 0
      ensures storage.Some? ==> (recovered, nextOffset) == Parse(ReaderOf(codec), storage.value)
    {
      recovered := [];
      var offset: nat := 0;
      if storage.Some? {
        recovered, offset := Scan(ReaderOf(codec), storage.value);
      }
      nextOffset := offset;
    }

    method Checkpoint(fails: bool) returns (r: Result<()>)
      modifies this
      ensures entries == old(entries)
      ensures r == if old(storage).Some? && fails then Err(Io) else Ok(())
      ensures storage == if old(storage).Some? && !fails then Some([]) else old(storage)
      ensures nextOffset == if old(storage).Some? && !fails then 0 else old(nextOffset)
    {
      if storage.Some? {
        if fails {
          return Err(Io);
        }
        storage := Some([]);
        nextOffset := 0;
      }
      r := Ok(());
    }

    /** Forgets a transaction's entries, and empties the log once none are left; that this fails is only noted. */
    method ClearTxn(txnId: nat, fails: bool)
      modifies this
      ensures entries == WithoutTxn(old(entries), txnId)
      ensures entries != [] || old(storage).None? || fails ==> storage == old(storage) && nextOffset == old(nextOffset)
      ensures entries == [] && old(storage).Some? && !fails ==> Holds([])
    {
      entries := WithoutTxn(entries, txnId);
      if entries == [] {
        var _ := Checkpoint(fails);
      }
    }
  }

  /** How the two storage writes of an append end. */
  datatype StorageFault = Fine | SizeFails | DataFails

  /** What an append writes of its frame. */
  function Written(frame: seq<byte>, fault: StorageFault): seq<byte>
    requires SIZE_BYTES <= |frame|
  {
    match fault
    case Fine => frame
    case SizeFails => []
    case DataFails => frame[..SIZE_BYTES]
  }

  /** `retain(|e| e.txn_id != txn_id)`. */
  function WithoutTxn(es: seq<WalEntry>, txnId: nat): (fs: seq<WalEntry>)
    ensures forall e :: e in fs <==> e in es && e.txnId != txnId
  {
    if es == [] then []
    else if es[0].txnId == txnId then WithoutTxn(es[1..], txnId)
    else [es[0]] + WithoutTxn(es[1..], txnId)
  }

  /** Entries keep their order, and each is judged alone. */
  lemma {:induction false} WithoutJoins(a: seq<WalEntry>, b: seq<WalEntry>, e: WalEntry, txnId: nat)
    ensures WithoutTxn(a + b, txnId) == WithoutTxn(a, txnId) + WithoutTxn(b, txnId)
    ensures WithoutTxn([e], txnId) == if e.txnId == txnId then [] else [e]
  {
    if a == [] {
      assert a + b == b;
    } else {
      assert (a + b)[1..] == a[1..] + b;
      WithoutJoins(a[1..], b, e, txnId);
    }
  }
}
