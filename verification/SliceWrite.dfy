/** Writing a file: src/file.rs, dbfs_common_write. */
module SliceWrite {
  import opened Common
  import opened Division
  import opened SliceStore

  /** The slice numbers that a write of `len` bytes at `offset` puts. An empty write still puts one. */
  predicate Touched(offset: nat, len: nat, n: nat) {
    n == offset / SLICE_SIZE || (offset / SLICE_SIZE < n && n * SLICE_SIZE < offset + len)
  }

  /** Slice `n` after the write. `alloc(n)` is the unzeroed memory the allocator hands out for it. */
  function Merged(f: File, buf: seq<u8>, offset: nat, alloc: nat -> Slice, n: nat): (s: Slice) {
    seq(SLICE_SIZE, o requires 0 <= o < SLICE_SIZE =>
      if offset <= n * SLICE_SIZE + o < offset + |buf| then buf[n * SLICE_SIZE + o - offset]
      else if n in f.slices then f.slices[n][o]
      else alloc(n)[o])
  }

  /** `g` is `f` with `buf` written at `offset`, slice by slice. */
  ghost predicate IsWrite(f: File, g: File, buf: seq<u8>, offset: nat, alloc: nat -> Slice) {
    && g == f.(size := Max(f.size, offset + |buf|), slices := g.slices)
    && (forall n :: n in g.slices <==> n in f.slices || Touched(offset, |buf|, n))
    && (forall n :: n in g.slices ==>
          g.slices[n] == if Touched(offset, |buf|, n) then Merged(f, buf, offset, alloc, n) else f.slices[n])
  }

  /** The bytes put for slice `num` when `count` bytes of the buffer are already written. */
  function Patched(base: Slice, off: nat, piece: seq<u8>): (s: Slice)
    requires off + |piece| <= SLICE_SIZE
  {
    base[..off] + piece + base[off + |piece|..]
  }

  lemma PatchIsMerge(f: File, buf: seq<u8>, offset: nat, alloc: nat -> Slice, num: nat, off: nat, count: nat, len: nat)
    requires count <= |buf| && off < SLICE_SIZE
    requires num * SLICE_SIZE + off == offset + count && (count == 0 || off == 0)
    requires len == Min(|buf| - count, SLICE_SIZE - off)
    ensures Patched(if num in f.slices then f.slices[num] else alloc(num), off, buf[count..count + len])
         == Merged(f, buf, offset, alloc, num)
  {
    var base := if num in f.slices then f.slices[num] else alloc(num);
    var s, m := Patched(base, off, buf[count..count + len]), Merged(f, buf, offset, alloc, num);
    forall o | 0 <= o < SLICE_SIZE ensures s[o] == m[o] {
      var p := num * SLICE_SIZE + o;
      assert p - offset == count + o - off;
    }
  }

  lemma TouchedRange(offset: nat, len: nat, num: nat, n: nat)
    requires offset / SLICE_SIZE < num
    requires num * SLICE_SIZE >= offset + len
    requires num == offset / SLICE_SIZE + 1 || num * SLICE_SIZE < offset + len + SLICE_SIZE
    ensures Touched(offset, len, n) <==> offset / SLICE_SIZE <= n < num
  {
    if n >= num {
      MulMonotone(num, n, SLICE_SIZE);
    } else {
      MulGap(n, num, SLICE_SIZE);
    }
  }

  /** The slices while the loop runs: those from `first` up to `num` are done, the others untouched. */
  ghost predicate Done(f: File, slices: map<nat, Slice>, buf: seq<u8>, offset: nat, alloc: nat -> Slice, num: nat) {
    && (forall n :: n in slices <==> n in f.slices || offset / SLICE_SIZE <= n < num)
    && (forall n :: n in slices ==>
          slices[n] == if offset / SLICE_SIZE <= n < num then Merged(f, buf, offset, alloc, n) else f.slices[n])
  }

  lemma DoneStep(f: File, slices: map<nat, Slice>, buf: seq<u8>, offset: nat, alloc: nat -> Slice, num: nat, s: Slice)
    requires offset / SLICE_SIZE <= num
    requires Done(f, slices, buf, offset, alloc, num)
    requires s == Merged(f, buf, offset, alloc, num)
    ensures Done(f, slices[num := s], buf, offset, alloc, num + 1)
  {
  }

  lemma DoneIsWrite(f: File, slices: map<nat, Slice>, buf: seq<u8>, offset: nat, alloc: nat -> Slice, num: nat)
    requires offset / SLICE_SIZE < num
    requires num * SLICE_SIZE >= offset + |buf|
    requires num == offset / SLICE_SIZE + 1 || num * SLICE_SIZE < offset + |buf| + SLICE_SIZE
    requires Done(f, slices, buf, offset, alloc, num)
    ensures IsWrite(f, f.(size := Max(f.size, offset + |buf|), slices := slices), buf, offset, alloc)
  {
    forall n: nat ensures Touched(offset, |buf|, n) <==> offset / SLICE_SIZE <= n < num {
      TouchedRange(offset, |buf|, num, n);
    }
  }

  /** Where the slice loop stands: `count` bytes are put, and slice `num` is next, from `off` on. */
  predicate At(offset: nat, total: nat, num: nat, off: nat, count: nat) {
    && offset / SLICE_SIZE <= num && count <= total && off < SLICE_SIZE
    && num * SLICE_SIZE + off == offset + count
    && if num == offset / SLICE_SIZE then count == 0 else off == 0 && count < total
  }

  /** After one more slice the loop goes on or has covered the range. */
  lemma AfterOne(offset: nat, total: nat, num: nat, off: nat, count: nat, len: nat)
    requires At(offset, total, num, off, count) && len == Min(total - count, SLICE_SIZE - off)
    ensures count + len < total ==> At(offset, total, num + 1, (off + len) % SLICE_SIZE, count + len) && 0 < len
    ensures count + len == total ==>
      offset + total <= (num + 1) * SLICE_SIZE
      && (num + 1 == offset / SLICE_SIZE + 1 || (num + 1) * SLICE_SIZE < offset + total + SLICE_SIZE)
  {
    NextBase(num);
    WrapOffset(off, len);
  }

  /** Puts one slice: the whole of it from the buffer, or part of it over what is stored or freshly allocated. */
  method PutOne(f: File, slices: map<nat, Slice>, buf: seq<u8>, offset: nat, alloc: nat -> Slice, num: nat, off: nat,
                count: nat)
    returns (next: map<nat, Slice>, len: nat)
    requires At(offset, |buf|, num, off, count) && num < U32_LIMIT && Done(f, slices, buf, offset, alloc, num)
    ensures len == Min(|buf| - count, SLICE_SIZE - off) && Done(f, next, buf, offset, alloc, num + 1)
  {
    var key := KeyNumber(num);
    len := Min(|buf| - count, SLICE_SIZE - off);
    var data: Slice;
    if len == SLICE_SIZE && off == 0 {
      data := buf[count..count + SLICE_SIZE];
      ghost var base := if num in f.slices then f.slices[num] else alloc(num);
      assert data == Patched(base, 0, buf[count..count + len]);
    } else if key !in slices {
      data := Patched(alloc(num), off, buf[count..count + len]);
    } else {
      data := Patched(slices[key], off, buf[count..count + len]);
    }
    PatchIsMerge(f, buf, offset, alloc, num, off, count, len);
    DoneStep(f, slices, buf, offset, alloc, num, data);
    next := slices[key := data];
  }

  /** The slice loop: puts the buffer into the bucket's slices, one slice per round. */
  method PutSlices(f: File, buf: seq<u8>, offset: nat, alloc: nat -> Slice)
    returns (slices: map<nat, Slice>, count: nat)
    requires offset / SLICE_SIZE < U32_LIMIT && offset + |buf| <= U32_LIMIT * SLICE_SIZE
    ensures count == |buf|
    ensures IsWrite(f, f.(size := Max(f.size, offset + |buf|), slices := slices), buf, offset, alloc)
  {
    slices := f.slices;
    var num: nat, off: nat := NumberOf(offset), OffsetIn(offset);
    count := 0;
    QuotientRemainder(offset, SLICE_SIZE);
    while true
      invariant At(offset, |buf|, num, off, count)
      invariant Done(f, slices, buf, offset, alloc, num)
      decreases |buf| - count
    {
      SliceNumberFits(offset, |buf|, num, off, count);
      var len;
      slices, len := PutOne(f, slices, buf, offset, alloc, num, off, count);
      AfterOne(offset, |buf|, num, off, count, len);
      count := count + len;
      off := (off + len) % SLICE_SIZE;
      num := num + 1;
      if count == |buf| {
        break;
      }
    }
    DoneIsWrite(f, slices, buf, offset, alloc, num);
  }

  method Write(db: Db, number: nat, buf: seq<u8>, offset: nat, alloc: nat -> Slice) returns (r: Result<nat>)
    requires offset / SLICE_SIZE < U32_LIMIT && offset + |buf| <= U32_LIMIT * SLICE_SIZE
    modifies db
    ensures db.diskSize == old(db.diskSize)
    ensures number !in old(db.files) ==> r == Err(NoData) && db.files == old(db.files)
    ensures number in old(db.files) ==>
      && r == Ok(|buf|)
      && number in db.files
      && db.files == old(db.files)[number := db.files[number]]
      && IsWrite(old(db.files)[number], db.files[number], buf, offset, alloc)
  {
    if number !in db.files {
      return Err(NoData);
    }
    var bucket := db.files[number];
    var size := bucket.size;
    var slices, count := PutSlices(bucket, buf, offset, alloc);
    bucket := bucket.(slices := slices);
    var newSize := Max(size, offset + count);
    if newSize > size {
      bucket := bucket.(size := newSize);
    }
    db.files := db.files[number := bucket];
    r := Ok(count);
  }

  /** The `as u32` cast of a slice number loses nothing within the documented 2^32 slices. */
  lemma SliceNumberFits(offset: nat, len: nat, num: nat, off: nat, count: nat)
    requires offset / SLICE_SIZE < U32_LIMIT && offset + len <= U32_LIMIT * SLICE_SIZE
    requires num * SLICE_SIZE + off == offset + count && off < SLICE_SIZE
    requires num == offset / SLICE_SIZE || count < len
    ensures num < U32_LIMIT
  {
    if num >= U32_LIMIT {
      MulMonotone(U32_LIMIT, num, SLICE_SIZE);
    }
  }
}
