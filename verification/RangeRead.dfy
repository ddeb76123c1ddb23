/** The range-scan read: src/file.rs, dbfs_common_read. */
module RangeRead {
  import opened Common
  import opened Division
  import opened SliceStore
  import opened SliceKeys

  /** The stored slice numbers from `lo` up to but not including `hi`, in order. */
  function StoredBetween(slices: map<nat, Slice>, lo: nat, hi: nat): (ns: seq<nat>)
    ensures forall i :: 0 <= i < |ns| ==> lo <= ns[i] < hi
    decreases hi
  {
    if hi <= lo then []
    else if hi - 1 in slices then StoredBetween(slices, lo, hi - 1) + [hi - 1]
    else StoredBetween(slices, lo, hi - 1)
  }

  /** `ns` lists the stored slice numbers from `lo` up to `hi` in ascending order. */
  ghost predicate Lists(ns: seq<nat>, slices: map<nat, Slice>, lo: nat, hi: nat) {
    && (forall i :: 0 <= i < |ns| ==> lo <= ns[i] < hi && ns[i] in slices)
    && (forall i, j :: 0 <= i < j < |ns| ==> ns[i] < ns[j])
    && (forall n :: lo <= n < hi && n in slices ==> n in ns)
  }

  lemma {:induction false} StoredBetweenLists(slices: map<nat, Slice>, lo: nat, hi: nat)
    ensures Lists(StoredBetween(slices, lo, hi), slices, lo, hi)
    decreases hi
  {
    if lo < hi {
      StoredBetweenLists(slices, lo, hi - 1);
    }
  }

  /** The next stored number, with only holes before it. */
  lemma NextStored(slices: map<nat, Slice>, lo: nat, hi: nat, t: nat)
    requires t < |StoredBetween(slices, lo, hi)|
    ensures var ns := StoredBetween(slices, lo, hi);
      var from := if t == 0 then lo else ns[t - 1] + 1;
      from <= ns[t] && ns[t] in slices && forall n :: from <= n < ns[t] ==> n !in slices
  {
    StoredBetweenLists(slices, lo, hi);
    var ns := StoredBetween(slices, lo, hi);
    assert forall i :: 0 <= i < |ns| && (t == 0 || ns[t - 1] < ns[i]) ==> t <= i;
  }

  lemma NoneAfterLast(slices: map<nat, Slice>, lo: nat, hi: nat)
    ensures var ns := StoredBetween(slices, lo, hi);
      forall n :: (if ns == [] then lo else ns[|ns| - 1] + 1) <= n < hi ==> n !in slices
  {
    StoredBetweenLists(slices, lo, hi);
    var ns := StoredBetween(slices, lo, hi);
    assert forall i :: 0 <= i < |ns| ==> ns[i] <= ns[|ns| - 1];
  }

  /** What `bucket.range(start_key..end_key)` yields. */
  function ScanKeys(slices: map<nat, Slice>, lo: nat, hi: nat): (keys: seq<seq<byte>>)
    requires hi <= U32_LIMIT
    ensures |keys| == |StoredBetween(slices, lo, hi)|
  {
    var ns := StoredBetween(slices, lo, hi);
    seq(|ns|, i requires 0 <= i < |ns| => SliceKey(ns[i]))
  }

  /** The scan is the byte-ordered range: its keys ascend, and a stored slice's key is among them
      exactly when it is not before the start key and is before the end key. */
  lemma ScanFollowsByteOrder(slices: map<nat, Slice>, lo: nat, hi: nat)
    requires lo < U32_LIMIT && hi < U32_LIMIT
    ensures var keys := ScanKeys(slices, lo, hi);
      && (forall i, j :: 0 <= i < j < |keys| ==> Before(keys[i], keys[j]))
      && (forall n :: n in slices && n < U32_LIMIT ==>
            (SliceKey(n) in keys <==> !Before(SliceKey(n), SliceKey(lo)) && Before(SliceKey(n), SliceKey(hi))))
  {
    var keys, ns := ScanKeys(slices, lo, hi), StoredBetween(slices, lo, hi);
    StoredBetweenLists(slices, lo, hi);
    forall i, j | 0 <= i < j < |keys| ensures Before(keys[i], keys[j]) {
      KeyOrder(ns[i], ns[j]);
    }
    forall n | n in slices && n < U32_LIMIT
      ensures SliceKey(n) in keys <==> !Before(SliceKey(n), SliceKey(lo)) && Before(SliceKey(n), SliceKey(hi))
    {
      KeyOrder(n, lo);
      KeyOrder(n, hi);
      KeyRoundTrip(n);
      if lo <= n < hi {
        var i :| 0 <= i < |ns| && ns[i] == n;
        assert keys[i] == SliceKey(n);
      }
      forall i | 0 <= i < |keys| && keys[i] == SliceKey(n) ensures ns[i] == n {
        KeyRoundTrip(ns[i]);
      }
    }
  }

  /** One past the last stored slice below `n`, or `start` when there is none: what the scan has reached. */
  function Reached(slices: map<nat, Slice>, start: nat, n: nat): (k: nat)
    requires start <= n
    ensures start <= k <= n && (k == start || k - 1 in slices)
  {
    if n == start then start else if n - 1 in slices then n else Reached(slices, start, n - 1)
  }

  /** Whether the reader's own counter runs one ahead of what it has reached. It does so after any gap
      that it noticed, and falls back in step when a gap of exactly one slice escapes it. */
  function RunsAhead(slices: map<nat, Slice>, start: nat, n: nat): bool
    requires start <= n
    decreases n, 0
  {
    if n == start then false
    else if n - 1 in slices then n - 1 != Counter(slices, start, n - 1)
    else RunsAhead(slices, start, n - 1)
  }

  /** The value of `start_num` when the scan comes to a stored slice `n`. */
  function Counter(slices: map<nat, Slice>, start: nat, n: nat): nat
    requires start <= n
    decreases n, 1
  {
    Reached(slices, start, n) + if RunsAhead(slices, start, n) then 1 else 0
  }

  /** The scan copies something for slice `n`: the slice is stored, or it is a hole with a stored
      slice after it that the counter has not already stepped over. */
  ghost predicate Emitted(slices: map<nat, Slice>, start: nat, end: nat, n: nat)
    requires start <= n
  {
    n in slices || ((exists m :: n < m < end && m in slices) && Counter(slices, start, n) <= n)
  }

  /** The file positions the reader takes from slice `n`, `o` being the reduced offset. */
  function SlicePositions(size: nat, o: nat, n: nat): (ps: seq<nat>)
    requires n * SLICE_SIZE <= size
  {
    var skip := SaturatingSub(o, n * SLICE_SIZE);
    seq(SaturatingSub(Min(size - n * SLICE_SIZE, SLICE_SIZE), skip), i requires 0 <= i => n * SLICE_SIZE + skip + i)
  }

  /** All positions the scan has emitted for slices below `k`, in the order of the buffer. */
  ghost function Positions(slices: map<nat, Slice>, size: nat, o: nat, start: nat, end: nat, k: nat): (ps: seq<nat>)
    requires k <= size / SLICE_SIZE + 1
  {
    if k <= start then []
    else
      BlockStart(size, k - 1);
      Positions(slices, size, o, start, end, k - 1)
      + if Emitted(slices, start, end, k - 1) then SlicePositions(size, o, k - 1) else []
  }

  lemma BlockStart(size: nat, n: nat)
    requires n <= size / SLICE_SIZE
    ensures n * SLICE_SIZE <= size
  {
    QuotientRemainder(size, SLICE_SIZE);
    MulMonotone(n, size / SLICE_SIZE, SLICE_SIZE);
  }

  /** One past the last slice number that the scan visits. */
  function EndNumber(size: nat, offset: nat, len: nat): nat {
    Min((offset + len) / SLICE_SIZE + 1, size / SLICE_SIZE + 1)
  }

  /** The positions the reader fills the buffer from. */
  ghost function ReadPositions(f: File, offset: nat, len: nat): (ps: seq<nat>) {
    var end := EndNumber(f.size, offset, len);
    Positions(f.slices, f.size, offset % SLICE_SIZE, offset / SLICE_SIZE, end, end)
  }

  /** The bytes at a list of positions. */
  function Bytes(f: File, ps: seq<nat>): (b: seq<u8>)
    ensures |b| == |ps| && forall i :: 0 <= i < |ps| ==> b[i] == Byte(f, ps[i])
  {
    seq(|ps|, i requires 0 <= i < |ps| => Byte(f, ps[i]))
  }

  /** As much of the bytes at `ps` as the buffer holds is in place; the rest is as it was. */
  ghost predicate FilledBuf(now: seq<u8>, was: seq<u8>, bytes: seq<u8>, n: nat)
    requires |now| == |was|
  {
    n == Min(|was|, |bytes|) && now == bytes[..n] + was[n..]
  }

  lemma FillMore(now: seq<u8>, next: seq<u8>, was: seq<u8>, bytes: seq<u8>, more: seq<u8>, n: nat, len: nat)
    requires |now| == |was| == |next| && FilledBuf(now, was, bytes, n)
    requires len == Min(|was| - n, |more|)
    requires next == now[..n] + more[..len] + now[n + len..]
    ensures FilledBuf(next, was, bytes + more, n + len)
  {
    assert (bytes + more)[..n + len] == bytes[..n] + more[..len];
    assert next == (bytes + more)[..n + len] + was[n + len..];
  }

  lemma SliceBytes(f: File, o: nat, n: nat, value: Slice)
    requires n * SLICE_SIZE <= f.size && o < SLICE_SIZE
    requires value == if n in f.slices then f.slices[n] else Zeros(SLICE_SIZE)
    ensures var skip, avail := SaturatingSub(o, n * SLICE_SIZE), Min(f.size - n * SLICE_SIZE, SLICE_SIZE);
      Bytes(f, SlicePositions(f.size, o, n)) == value[skip..Max(skip, avail)]
  {
    var skip, avail := SaturatingSub(o, n * SLICE_SIZE), Min(f.size - n * SLICE_SIZE, SLICE_SIZE);
    var b := Bytes(f, SlicePositions(f.size, o, n));
    forall i | 0 <= i < |b| ensures b[i] == value[skip..Max(skip, avail)][i] {
      ByteOfSlice(f, n, skip + i);
    }
  }

  /** The part of a slice that is copied is the first `len` of its bytes. */
  lemma SlicePart(f: File, o: nat, n: nat, value: Slice, from: nat, avail: nat, len: nat)
    requires n * SLICE_SIZE <= f.size && o < SLICE_SIZE
    requires value == if n in f.slices then f.slices[n] else Zeros(SLICE_SIZE)
    requires from == SaturatingSub(o, n * SLICE_SIZE)
    requires avail == SaturatingSub(Min(f.size - n * SLICE_SIZE, SLICE_SIZE), from)
    requires len <= avail
    ensures |SlicePositions(f.size, o, n)| == avail && from + len <= SLICE_SIZE
    ensures value[from..from + len] == Bytes(f, SlicePositions(f.size, o, n))[..len]
  {
    SliceBytes(f, o, n, value);
    TakePart(value, Bytes(f, SlicePositions(f.size, o, n)), from, avail, len);
  }

  lemma TakePart(value: Slice, part: seq<u8>, from: nat, avail: nat, len: nat)
    requires from + avail <= |value| && part == value[from..from + avail] && len <= avail
    ensures value[from..from + len] == part[..len]
  {
  }

  /** Copies one slice, or the zero block, into the buffer. */
  method CopySlice(buf: array<u8>, bufOffset: nat, f: File, o: nat, n: nat, value: Slice, ghost was: seq<u8>,
                   ghost ps: seq<nat>)
    returns (next: nat)
    requires n * SLICE_SIZE <= f.size && o < SLICE_SIZE && |was| == buf.Length
    requires value == if n in f.slices then f.slices[n] else Zeros(SLICE_SIZE)
    requires FilledBuf(buf[..], was, Bytes(f, ps), bufOffset)
    modifies buf
    ensures FilledBuf(buf[..], was, Bytes(f, ps + SlicePositions(f.size, o, n)), next)
  {
    var piece := CopiedPart(f, o, n, value, buf.Length - bufOffset);
    ghost var now := buf[..];
    CopyInto(buf, bufOffset, piece);
    next := bufOffset + |piece|;
    FillBySlice(now, buf[..], was, f, ps, SlicePositions(f.size, o, n), bufOffset, piece);
  }

  /** What is copied of a slice into `room` bytes. */
  method CopiedPart(f: File, o: nat, n: nat, value: Slice, room: nat) returns (piece: seq<u8>)
    requires n * SLICE_SIZE <= f.size && o < SLICE_SIZE
    requires value == if n in f.slices then f.slices[n] else Zeros(SLICE_SIZE)
    ensures |piece| == Min(room, |SlicePositions(f.size, o, n)|)
    ensures piece == Bytes(f, SlicePositions(f.size, o, n))[..|piece|]
  {
    var currentSize: nat := n * SLICE_SIZE;
    var valueOffset: nat := SaturatingSub(o, currentSize);
    var realSize: nat := Min(f.size - currentSize, SLICE_SIZE);
    var avail: nat := SaturatingSub(realSize, valueOffset);
    var len: nat := Min(room, avail);
    SlicePart(f, o, n, value, valueOffset, avail, len);
    piece := value[valueOffset..valueOffset + len];
  }

  lemma FillBySlice(now: seq<u8>, next: seq<u8>, was: seq<u8>, f: File, ps: seq<nat>, qs: seq<nat>, n: nat,
                    piece: seq<u8>)
    requires |now| == |was| == |next| && FilledBuf(now, was, Bytes(f, ps), n)
    requires |piece| == Min(|was| - n, |qs|) && piece == Bytes(f, qs)[..|piece|]
    requires next == now[..n] + piece + now[n + |piece|..]
    ensures FilledBuf(next, was, Bytes(f, ps + qs), n + |piece|)
  {
    FillMore(now, next, was, Bytes(f, ps), Bytes(f, qs), n, |piece|);
    assert Bytes(f, ps + qs) == Bytes(f, ps) + Bytes(f, qs);
  }

  lemma {:induction false} PositionsGrow(slices: map<nat, Slice>, size: nat, o: nat, start: nat, end: nat, k: nat,
                                         l: nat)
    requires k <= l <= size / SLICE_SIZE + 1
    ensures Positions(slices, size, o, start, end, k) <= Positions(slices, size, o, start, end, l)
    ensures (start <= k && forall n :: k <= n < l ==> !Emitted(slices, start, end, n)) ==>
      Positions(slices, size, o, start, end, l) == Positions(slices, size, o, start, end, k)
    decreases l
  {
    if k < l {
      PositionsGrow(slices, size, o, start, end, k, l - 1);
      if l > start {
        assert Positions(slices, size, o, start, end, l - 1) <= Positions(slices, size, o, start, end, l);
      }
    }
  }

  lemma PositionsNext(f: File, o: nat, start: nat, end: nat, i: nat)
    requires start <= i < end <= f.size / SLICE_SIZE + 1 && Emitted(f.slices, start, end, i)
    ensures i * SLICE_SIZE <= f.size
    ensures Positions(f.slices, f.size, o, start, end, i + 1)
         == Positions(f.slices, f.size, o, start, end, i) + SlicePositions(f.size, o, i)
  {
    BlockStart(f.size, i);
  }

  /** Fills the holes from `from` up to the stored slice `index` with zeros. */
  method FillHoles(buf: array<u8>, bufOffset: nat, f: File, o: nat, start: nat, end: nat, from: nat, index: nat,
                   ghost was: seq<u8>)
    returns (next: nat)
    requires start <= from <= index < end <= f.size / SLICE_SIZE + 1 && o < SLICE_SIZE && |was| == buf.Length
    requires forall n :: from <= n < index ==> n !in f.slices && Emitted(f.slices, start, end, n)
    requires FilledBuf(buf[..], was, Bytes(f, Positions(f.slices, f.size, o, start, end, from)), bufOffset)
    modifies buf
    ensures FilledBuf(buf[..], was, Bytes(f, Positions(f.slices, f.size, o, start, end, index)), next)
  {
    next := bufOffset;
    ghost var ps := Positions(f.slices, f.size, o, start, end, from);
    for i := from to index
      invariant ps == Positions(f.slices, f.size, o, start, end, i)
      invariant FilledBuf(buf[..], was, Bytes(f, ps), next)
    {
      PositionsNext(f, o, start, end, i);
      next := CopySlice(buf, next, f, o, i, Zeros(SLICE_SIZE), was, ps);
      ps := ps + SlicePositions(f.size, o, i);
    }
  }

  /** Between what is reached and the next stored slice, everything from the counter on is emitted. */
  lemma {:induction false} HolesBefore(slices: map<nat, Slice>, start: nat, end: nat, k: nat, n: nat)
    requires start <= k <= n && Reached(slices, start, k) == k
    requires forall i :: k <= i < n ==> i !in slices
    ensures Reached(slices, start, n) == k && Counter(slices, start, n) == Counter(slices, start, k)
  {
    if k < n {
      HolesBefore(slices, start, end, k, n - 1);
    }
  }

  lemma GapBefore(slices: map<nat, Slice>, start: nat, end: nat, k: nat, index: nat)
    requires start <= k <= index < end && index in slices && Reached(slices, start, k) == k
    requires forall n :: k <= n < index ==> n !in slices
    ensures k <= Counter(slices, start, k) <= k + 1
    ensures forall n :: k <= n < index ==> (Emitted(slices, start, end, n) <==> Counter(slices, start, k) <= n)
    ensures Reached(slices, start, index + 1) == index + 1
    ensures Counter(slices, start, index + 1) == if index == Counter(slices, start, k) then index + 1 else index + 2
  {
    forall n | k <= n <= index ensures Counter(slices, start, n) == Counter(slices, start, k) {
      HolesBefore(slices, start, end, k, n);
    }
    assert Counter(slices, start, index) == Counter(slices, start, k);
  }

  method Read(db: Db, number: nat, buf: array<u8>, offset: nat) returns (r: Result<nat>)
    requires number in db.files ==> db.files[number].size / SLICE_SIZE + 1 < U32_LIMIT
    modifies buf
    ensures number !in db.files ==> r == Err(NoData) && buf[..] == old(buf[..])
    ensures number in db.files && db.files[number].size <= offset ==> r == Ok(0) && buf[..] == old(buf[..])
    ensures number in db.files && offset < db.files[number].size ==>
      var f := db.files[number];
      r.Ok? && FilledBuf(buf[..], old(buf[..]), Bytes(f, ReadPositions(f, offset, buf.Length)), r.value)
  {
    if number !in db.files {
      return Err(NoData);
    }
    var f := db.files[number];
    if offset >= f.size {
      return Ok(0);
    }
    var n := ScanInto(buf, f, offset);
    r := Ok(n);
  }

  /** The slice number taken out of the scan's key number `t`. */
  method IndexOf(slices: map<nat, Slice>, lo: nat, hi: nat, keys: seq<seq<byte>>, t: nat) returns (index: nat)
    requires hi < U32_LIMIT && keys == ScanKeys(slices, lo, hi) && t < |keys|
    ensures index == StoredBetween(slices, lo, hi)[t]
  {
    KeyRoundTrip(StoredBetween(slices, lo, hi)[t]);
    index := KeyIndex(keys[t]).value;
  }

  /** One round of the scan: the holes up to the next stored slice, then that slice. */
  method ScanStep(buf: array<u8>, bufOffset: nat, f: File, o: nat, start: nat, end: nat, startNum: nat, index: nat,
                  ghost k: nat, ghost was: seq<u8>, ghost ps: seq<nat>)
    returns (nextNum: nat, next: nat, ghost qs: seq<nat>)
    requires start <= k <= index < end <= f.size / SLICE_SIZE + 1 && o < SLICE_SIZE && |was| == buf.Length
    requires Reached(f.slices, start, k) == k && startNum == Counter(f.slices, start, k)
    requires index in f.slices && forall n :: k <= n < index ==> n !in f.slices
    requires ps == Positions(f.slices, f.size, o, start, end, k) && FilledBuf(buf[..], was, Bytes(f, ps), bufOffset)
    modifies buf
    ensures Reached(f.slices, start, index + 1) == index + 1 && nextNum == Counter(f.slices, start, index + 1)
    ensures qs == Positions(f.slices, f.size, o, start, end, index + 1) && FilledBuf(buf[..], was, Bytes(f, qs), next)
  {
    nextNum, next := startNum, bufOffset;
    GapBefore(f.slices, start, end, k, index);
    PositionsGrow(f.slices, f.size, o, start, end, k, Min(startNum, index));
    if index != startNum {
      next := FillHoles(buf, bufOffset, f, o, start, end, Min(startNum, index), index, was);
      nextNum := index + 1;
    }
    PositionsNext(f, o, start, end, index);
    next := CopySlice(buf, next, f, o, index, f.slices[index], was, Positions(f.slices, f.size, o, start, end, index));
    nextNum := nextNum + 1;
    qs := Positions(f.slices, f.size, o, start, end, index + 1);
  }

  /** Where the reader is after the first `t` keys of the scan. */
  ghost predicate At(f: File, offset: nat, len: nat, t: nat, startNum: nat, ps: seq<nat>)
    requires t <= |StoredBetween(f.slices, NumberOf(offset), EndNumber(f.size, offset, len))|
  {
    var start, end := NumberOf(offset), EndNumber(f.size, offset, len);
    var k := Front(f, offset, len, t);
    && start <= k <= end
    && Reached(f.slices, start, k) == k && startNum == Counter(f.slices, start, k)
    && ps == Positions(f.slices, f.size, offset % SLICE_SIZE, start, end, k)
  }

  ghost function Front(f: File, offset: nat, len: nat, t: nat): nat
    requires t <= |StoredBetween(f.slices, NumberOf(offset), EndNumber(f.size, offset, len))|
  {
    if t == 0 then offset / SLICE_SIZE
    else StoredBetween(f.slices, NumberOf(offset), EndNumber(f.size, offset, len))[t - 1] + 1
  }

  method ScanKey(buf: array<u8>, bufOffset: nat, f: File, offset: nat, keys: seq<seq<byte>>, t: nat, startNum: nat,
                 ghost was: seq<u8>, ghost ps: seq<nat>) returns (nextNum: nat, next: nat, ghost qs: seq<nat>)
    requires f.size / SLICE_SIZE + 1 < U32_LIMIT && |was| == buf.Length
    requires keys == ScanKeys(f.slices, NumberOf(offset), EndNumber(f.size, offset, buf.Length)) && t < |keys|
    requires At(f, offset, buf.Length, t, startNum, ps) && FilledBuf(buf[..], was, Bytes(f, ps), bufOffset)
    modifies buf
    ensures At(f, offset, buf.Length, t + 1, nextNum, qs) && FilledBuf(buf[..], was, Bytes(f, qs), next)
  {
    var start, o, end := NumberOf(offset), OffsetIn(offset), EndNumber(f.size, offset, buf.Length);
    var index := IndexOf(f.slices, start, end, keys, t);
    NextStored(f.slices, start, end, t);
    nextNum, next, qs := ScanStep(buf, bufOffset, f, o, start, end, startNum, index,
                                  Front(f, offset, buf.Length, t), was, ps);
  }

  method ScanInto(buf: array<u8>, f: File, offset: nat) returns (bufOffset: nat)
    requires f.size / SLICE_SIZE + 1 < U32_LIMIT && offset < f.size
    modifies buf
    ensures FilledBuf(buf[..], old(buf[..]), Bytes(f, ReadPositions(f, offset, buf.Length)), bufOffset)
  {
    ghost var was := buf[..];
    ghost var ps := [];
    var startNum: nat := NumberOf(offset);
    bufOffset := 0;
    var endNum := EndNumber(f.size, offset, buf.Length);
    StartsBeforeEnd(f.size, offset, buf.Length);
    var keys := ScanKeys(f.slices, startNum, endNum);
    var t := 0;
    while t < |keys|
      invariant t <= |keys|
      invariant At(f, offset, buf.Length, t, startNum, ps)
      invariant FilledBuf(buf[..], was, Bytes(f, ps), bufOffset)
    {
      startNum, bufOffset, ps := ScanKey(buf, bufOffset, f, offset, keys, t, startNum, was, ps);
      t := t + 1;
      if bufOffset == buf.Length {
        break;
      }
    }
    ScanIsOver(f, offset, buf.Length, t, startNum, ps, bufOffset);
    FilledPrefix(buf[..], was, f, ps, ReadPositions(f, offset, buf.Length), bufOffset);
  }

  lemma StartsBeforeEnd(size: nat, offset: nat, len: nat)
    requires offset < size
    ensures offset / SLICE_SIZE < EndNumber(size, offset, len)
  {
    DivMonotone(offset, size, SLICE_SIZE);
    DivMonotone(offset, offset + len, SLICE_SIZE);
  }

  /** When the scan has no more keys, or the buffer is full, the rest of the range adds nothing. */
  lemma ScanIsOver(f: File, offset: nat, len: nat, t: nat, startNum: nat, ps: seq<nat>, n: nat)
    requires t <= |StoredBetween(f.slices, NumberOf(offset), EndNumber(f.size, offset, len))|
    requires At(f, offset, len, t, startNum, ps)
    requires n == len || t == |StoredBetween(f.slices, NumberOf(offset), EndNumber(f.size, offset, len))|
    ensures ps == ReadPositions(f, offset, len) || (ps <= ReadPositions(f, offset, len) && n == len)
  {
    var start, end, o := NumberOf(offset), EndNumber(f.size, offset, len), OffsetIn(offset);
    var k := Front(f, offset, len, t);
    if n != len {
      NoneAfterLast(f.slices, start, end);
    }
    PositionsGrow(f.slices, f.size, o, start, end, k, end);
  }

  lemma FilledPrefix(now: seq<u8>, was: seq<u8>, f: File, ps: seq<nat>, qs: seq<nat>, n: nat)
    requires |now| == |was| && FilledBuf(now, was, Bytes(f, ps), n)
    requires ps == qs || (ps <= qs && n == |was|)
    ensures FilledBuf(now, was, Bytes(f, qs), n)
  {
    assert Bytes(f, ps)[..n] == Bytes(f, qs)[..n];
  }
}
