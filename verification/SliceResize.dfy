/** Resizing a file: src/inode.rs, dbfs_common_truncate and dbfs_common_fallocate. */
module SliceResize {
  import opened Common
  import opened Division
  import opened Access
  import opened SliceStore

  /** A slice with every byte from `offset` on set to zero. */
  function ZeroedFrom(s: Slice, offset: nat): (t: Slice)
    requires offset <= SLICE_SIZE
    ensures forall o :: 0 <= o < SLICE_SIZE ==> t[o] == if o < offset then s[o] else 0
  {
    seq(SLICE_SIZE, o requires 0 <= o < SLICE_SIZE => if o < offset then s[o] else 0)
  }

  /** The slices that are left after the blocks above `start` up to `last` are freed and the tail
      of block `start` is zeroed from `offset` on. */
  ghost predicate Freed(slices: map<nat, Slice>, left: map<nat, Slice>, start: nat, last: nat, offset: nat)
    requires offset <= SLICE_SIZE
  {
    && (forall n :: n in left <==> n in slices && !(start < n <= last))
    && (forall n :: n in left ==> left[n] == if n == start then ZeroedFrom(slices[n], offset) else slices[n])
  }

  /** `g` is `f` resized to `size` bytes. A file that grows into a higher block keeps its slices. */
  ghost predicate IsResize(f: File, g: File, size: nat) {
    && g == f.(size := size, mode := ClearSuidSgid(f.mode), slices := g.slices)
    && if f.size / SLICE_SIZE < size / SLICE_SIZE then g.slices == f.slices
       else Freed(f.slices, g.slices, size / SLICE_SIZE, f.size / SLICE_SIZE, size % SLICE_SIZE)
  }

  /** The free-space counter after a file of `old` bytes is resized to `size` bytes. */
  function SpaceAfterResize(space: nat, oldSize: nat, size: nat): (r: Result<nat>) {
    if oldSize / SLICE_SIZE < size / SLICE_SIZE then
      if space < SaturatingSub(size, oldSize) then Err(NoSpace) else Ok(space - SaturatingSub(size, oldSize))
    else
      Ok(space + (oldSize / SLICE_SIZE - size / SLICE_SIZE) * SLICE_SIZE)
  }

  method FreeBlocks(slices: map<nat, Slice>, start: nat, currentBlock: nat, offset: nat) returns (left: map<nat, Slice>)
    requires currentBlock < U32_LIMIT && start <= currentBlock && offset < SLICE_SIZE
    ensures Freed(slices, left, start, currentBlock, offset)
  {
    left := slices;
    for i := start + 1 to currentBlock + 1
      invariant forall n :: n in left <==> n in slices && !(start < n < i)
      invariant forall n :: n in left ==> left[n] == slices[n]
    {
      var key := KeyNumber(i);
      if key in left {
        left := left - {key};
      }
    }
    var startKey := KeyNumber(start);
    if startKey in left {
      var value := left[startKey];
      for i := offset to SLICE_SIZE
        invariant |value| == SLICE_SIZE
        invariant forall o :: 0 <= o < SLICE_SIZE ==> value[o] == if offset <= o < i then 0 else slices[start][o]
      {
        value := value[i := 0];
      }
      assert value == ZeroedFrom(slices[start], offset);
      left := left[startKey := value];
    }
  }

  method Truncate(db: Db, rUid: nat, rGid: nat, ino: nat, fSize: nat) returns (r: Result<nat>)
    requires ino in db.files ==> db.files[ino].size / SLICE_SIZE < U32_LIMIT
    modifies db
    ensures r.Err? ==> db.files == old(db.files) && db.diskSize == old(db.diskSize)
    ensures ino !in old(db.files) ==> r == Err(NotFound)
    ensures ino in old(db.files) ==>
      var f := old(db.files)[ino];
      if !MayAccess(f.uid, f.gid, f.mode, rUid, rGid, ACCESS_W_OK) then r == Err(AccessError)
      else match SpaceAfterResize(old(db.diskSize), f.size, fSize)
        case Err(e) => r == Err(e)
        case Ok(space) =>
          && r == Ok(fSize)
          && ino in db.files
          && db.files == old(db.files)[ino := db.files[ino]]
          && db.diskSize == space
          && IsResize(f, db.files[ino], fSize)
  {
    if ino !in db.files {
      return Err(NotFound);
    }
    var attr := db.files[ino];
    var ok := CheckoutAccess(attr.uid, attr.gid, attr.mode, rUid, rGid, ACCESS_W_OK);
    if !ok {
      return Err(AccessError);
    }
    var slices, space := MoveEnd(attr, fSize, db.diskSize);
    if space.Err? {
      return Err(space.error);
    }
    db.diskSize := space.value;
    db.files := db.files[ino := attr.(size := fSize, mode := ClearSuidSgid(attr.mode), slices := slices)];
    r := Ok(fSize);
  }

  /** The slices and the free space once the file ends at `fSize`. */
  method MoveEnd(attr: File, fSize: nat, diskSize: nat) returns (slices: map<nat, Slice>, space: Result<nat>)
    requires attr.size / SLICE_SIZE < U32_LIMIT
    ensures space == SpaceAfterResize(diskSize, attr.size, fSize)
    ensures space.Ok? ==>
      IsResize(attr, attr.(size := fSize, mode := ClearSuidSgid(attr.mode), slices := slices), fSize)
  {
    slices := attr.slices;
    var start := NumberOf(fSize);
    var offset := OffsetIn(fSize);
    var currentBlock := NumberOf(attr.size);
    if currentBlock < start {
      var gap := SaturatingSub(fSize, attr.size);
      if diskSize < gap {
        return slices, Err(NoSpace);
      }
      space := Ok(diskSize - gap);
    } else {
      slices := FreeBlocks(slices, start, currentBlock, offset);
      var blocks: nat := currentBlock - start;
      space := Ok(diskSize + blocks * SLICE_SIZE);
    }
  }

  const FALLOC_FL_KEEP_SIZE: nat := 1

  /** Bit zero of the mode word. */
  predicate KeepsSize(mode: nat) {
    mode % 2 == 1
  }

  /** The size is kept for odd mode words and for no others. */
  lemma KeepsSizeIffOdd(k: nat)
    ensures KeepsSize(2 * k + 1) && !KeepsSize(2 * k)
  {
  }

  /** The free-space counter after a fallocate that ends at `end` in a file of `oldSize` bytes. */
  function SpaceAfterFallocate(space: nat, oldSize: nat, end: nat): (r: Result<nat>) {
    if oldSize / SLICE_SIZE < end / SLICE_SIZE then
      if space < SaturatingSub(end, oldSize) then Err(NoSpace) else Ok(space - SaturatingSub(end, oldSize))
    else Ok(space)
  }

  method Fallocate(db: Db, rUid: nat, rGid: nat, ino: nat, offset: nat, size: nat, mode: nat) returns (r: Result<()>)
    modifies db
    ensures r.Err? ==> db.files == old(db.files) && db.diskSize == old(db.diskSize)
    ensures ino !in old(db.files) ==> r == Err(Panic)
    ensures ino in old(db.files) ==>
      var f := old(db.files)[ino];
      if !MayAccess(f.uid, f.gid, f.mode, rUid, rGid, ACCESS_W_OK) then r == Err(AccessError)
      else match SpaceAfterFallocate(old(db.diskSize), f.size, offset + size)
        case Err(e) => r == Err(e)
        case Ok(space) =>
          && r == Ok(())
          && db.diskSize == space
          && db.files == old(db.files)[ino := if KeepsSize(mode) then f else f.(size := Max(f.size, offset + size))]
  {
    if ino !in db.files {
      return Err(Panic);
    }
    var bucket := db.files[ino];
    var ok := CheckoutAccess(bucket.uid, bucket.gid, bucket.mode, rUid, rGid, ACCESS_W_OK);
    if !ok {
      return Err(AccessError);
    }
    var diskSize := db.diskSize;
    var fSize := offset + size;
    var start := fSize / SLICE_SIZE;
    var currentBlock := bucket.size / SLICE_SIZE;
    if currentBlock < start {
      var gap := SaturatingSub(fSize, bucket.size);
      if diskSize < gap {
        return Err(NoSpace);
      }
      diskSize := diskSize - gap;
    }
    if mode % 2 != FALLOC_FL_KEEP_SIZE {
      if fSize > bucket.size {
        bucket := bucket.(size := fSize);
      }
    }
    db.files := db.files[ino := bucket];
    db.diskSize := diskSize;
    r := Ok(());
  }

  /** A slice begins behind one size and at or before the other. */
  ghost predicate SliceBetween(a: nat, b: nat) {
    exists n: nat :: a < n * SLICE_SIZE <= b
  }

  lemma BlockGrowsIff(a: nat, b: nat)
    ensures a / SLICE_SIZE < b / SLICE_SIZE <==> SliceBetween(a, b)
  {
    InBlock(a, SLICE_SIZE, a / SLICE_SIZE);
    InBlock(b, SLICE_SIZE, b / SLICE_SIZE);
    if a / SLICE_SIZE < b / SLICE_SIZE {
      MulGap(a / SLICE_SIZE, b / SLICE_SIZE, SLICE_SIZE);
      assert a < (b / SLICE_SIZE) * SLICE_SIZE <= b;
    } else if SliceBetween(a, b) {
      var n: nat :| a < n * SLICE_SIZE <= b;
      QuotientUnique(n * SLICE_SIZE, SLICE_SIZE, n, 0);
      DivMonotone(n * SLICE_SIZE, b, SLICE_SIZE);
      if n <= a / SLICE_SIZE {
        MulMonotone(n, a / SLICE_SIZE, SLICE_SIZE);
      }
    }
  }

  /** Space is asked for exactly when a file grows over the beginning of a slice: then the whole growth comes out of
      the counter, or the call is refused if the counter is smaller. A fallocate changes it in no other case. */
  lemma SpaceIsAskedForIff(space: nat, oldSize: nat, size: nat)
    ensures SliceBetween(oldSize, size) ==> oldSize < size
    ensures SliceBetween(oldSize, size) && space + oldSize < size ==>
      SpaceAfterResize(space, oldSize, size) == SpaceAfterFallocate(space, oldSize, size) == Err(NoSpace)
    ensures SliceBetween(oldSize, size) && size <= space + oldSize ==>
      SpaceAfterResize(space, oldSize, size) == SpaceAfterFallocate(space, oldSize, size) == Ok(space + oldSize - size)
    ensures !SliceBetween(oldSize, size) ==> SpaceAfterFallocate(space, oldSize, size) == Ok(space)
  {
    BlockGrowsIff(oldSize, size);
  }

  /** The slices that begin behind `a` and at or before `b` are the `n` ones from number `first` on. */
  ghost predicate SlicesBegin(first: nat, n: nat, a: nat, b: nat) {
    forall k: nat :: a < k * SLICE_SIZE <= b <==> first <= k < first + n
  }

  /** A truncate that does not grow over the beginning of a slice gives back one slice for each that begins behind
      the new size and at or before the old one. */
  lemma SpaceIsGivenBack(space: nat, oldSize: nat, size: nat)
    requires !SliceBetween(oldSize, size)
    ensures exists first: nat, n: nat ::
      SlicesBegin(first, n, size, oldSize) && SpaceAfterResize(space, oldSize, size) == Ok(space + n * SLICE_SIZE)
  {
    BlockGrowsIff(oldSize, size);
    var first, n: nat := size / SLICE_SIZE + 1, oldSize / SLICE_SIZE - size / SLICE_SIZE;
    forall k: nat ensures size < k * SLICE_SIZE <= oldSize <==> first <= k < first + n {
      BeginsBetween(size, oldSize, k);
    }
    assert SlicesBegin(first, n, size, oldSize);
    assert SpaceAfterResize(space, oldSize, size) == Ok(space + n * SLICE_SIZE);
  }

  lemma BeginsBetween(a: nat, b: nat, k: nat)
    ensures a < k * SLICE_SIZE <= b <==> a / SLICE_SIZE < k <= b / SLICE_SIZE
  {
    InBlock(a, SLICE_SIZE, a / SLICE_SIZE);
    InBlock(b, SLICE_SIZE, b / SLICE_SIZE);
    if a / SLICE_SIZE < k {
      MulGap(a / SLICE_SIZE, k, SLICE_SIZE);
    } else {
      MulMonotone(k, a / SLICE_SIZE, SLICE_SIZE);
    }
    if k <= b / SLICE_SIZE {
      MulMonotone(k, b / SLICE_SIZE, SLICE_SIZE);
    } else {
      MulGap(b / SLICE_SIZE, k, SLICE_SIZE);
    }
  }

  lemma GrowsWhenBlockGrows(a: nat, b: nat)
    requires a / SLICE_SIZE < b / SLICE_SIZE
    ensures a < b
  {
    if b <= a {
      DivMonotone(b, a, SLICE_SIZE);
    }
  }
}
