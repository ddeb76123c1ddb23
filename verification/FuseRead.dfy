/** The FUSE read that gathers pieces instead of copying: src/fuse/file.rs, dbfs_fuse_special_read. */
module FuseRead {
  import opened Common
  import opened Division
  import opened SliceStore

  function Concat(pieces: seq<seq<u8>>): seq<u8> {
    if pieces == [] then [] else Concat(pieces[..|pieces| - 1]) + pieces[|pieces| - 1]
  }

  lemma ConcatPush(pieces: seq<seq<u8>>, piece: seq<u8>)
    ensures Concat(pieces + [piece]) == Concat(pieces) + piece
  {
    assert (pieces + [piece])[..|pieces|] == pieces;
  }

  /** A run of bytes inside one slice, or of the zero block when the slice is missing, is flat content. */
  lemma PieceIsContent(f: File, num: nat, o: nat, len: nat)
    requires o + len <= SLICE_SIZE && num * SLICE_SIZE + o + len <= f.size
    ensures (if num in f.slices then f.slices[num] else Zeros(SLICE_SIZE))[o..o + len]
         == Content(f)[num * SLICE_SIZE + o..num * SLICE_SIZE + o + len]
  {
    var base := if num in f.slices then f.slices[num] else Zeros(SLICE_SIZE);
    var c := Content(f)[num * SLICE_SIZE + o..num * SLICE_SIZE + o + len];
    forall i | 0 <= i < len ensures base[o..o + len][i] == c[i] {
      ByteOfSlice(f, num, o + i);
    }
  }

  /** The loop steps past the end of the file, where its difference underflows. */
  predicate Underflows(size: nat, offset: nat, need: nat) {
    0 < offset < size && size < offset + need
  }

  /** What the gathered pieces say: the flat content from `offset`, then zeros up to `need` bytes. */
  function Gathered(f: File, offset: nat, need: nat): seq<u8>
    requires offset < f.size
  {
    var n := Min(need, f.size - offset);
    Content(f)[offset..offset + n] + Zeros(need - n)
  }

  method PadWithZeros(pieces: seq<seq<u8>>, missing: nat) returns (padded: seq<seq<u8>>)
    ensures Concat(padded) == Concat(pieces) + Zeros(missing)
  {
    padded := pieces;
    ghost var done := 0;
    QuotientRemainder(missing, SLICE_SIZE);
    for i := 0 to missing / SLICE_SIZE
      invariant done == i * SLICE_SIZE && Concat(padded) == Concat(pieces) + Zeros(done)
    {
      ConcatPush(padded, Zeros(SLICE_SIZE));
      assert Zeros(done) + Zeros(SLICE_SIZE) == Zeros(done + SLICE_SIZE);
      padded := padded + [Zeros(SLICE_SIZE)];
      done := done + SLICE_SIZE;
      assert (i + 1) * SLICE_SIZE == i * SLICE_SIZE + SLICE_SIZE;
    }
    var len := missing % SLICE_SIZE;
    ConcatPush(padded, Zeros(SLICE_SIZE)[..len]);
    assert Zeros(done) + Zeros(SLICE_SIZE)[..len] == Zeros(missing);
    padded := padded + [Zeros(SLICE_SIZE)[..len]];
  }

  /** With overflow checks, as in a debug build, the read panics exactly when it steps past the end of the file.
      Without them, as in a release build, the difference wraps and the read goes on over missing slices. */
  method SpecialRead(db: Db, ino: nat, oldOffset: nat, need: nat, checks: bool)
    returns (r: Result<nat>, pieces: seq<seq<u8>>)
    requires ino in db.files ==> InRange(db.files[ino], oldOffset, need, checks)
    ensures ino !in db.files ==> r == Err(NoData)
    ensures ino in db.files ==>
      var f := db.files[ino];
      if f.size <= oldOffset then r == Ok(0) && pieces == []
      else if Underflows(f.size, oldOffset, need) && checks then r == Err(Panic)
      else
        && r.Ok? && Concat(pieces) == Gathered(f, oldOffset, need)
        && Min(need, f.size - oldOffset) <= r.value <= need
        && (!Underflows(f.size, oldOffset, need) ==> r.value == Min(need, f.size - oldOffset))
  {
    pieces := [];
    if ino !in db.files {
      return Err(NoData), [];
    }
    var f := db.files[ino];
    if oldOffset >= f.size {
      return Ok(0), [];
    }
    var count;
    r, pieces, count := Gather(f, oldOffset, need, checks);
    if r.Err? {
      return;
    }
    if count != need {
      pieces := PadWithZeros(pieces, need - count);
      MoreZeros(f, oldOffset, count, need);
    }
  }

  /** The slice numbers that the loop may reach fit the keys; where it may go past the end, no slice lies there. */
  ghost predicate InRange(f: File, offset: nat, need: nat, checks: bool) {
    && f.size / SLICE_SIZE < U32_LIMIT
    && (!checks ==> SlicesWithinSize(f) && (offset + need) / SLICE_SIZE + 1 < U32_LIMIT)
  }

  lemma MoreZeros(f: File, offset: nat, count: nat, need: nat)
    requires offset < f.size && f.size - offset <= count <= need
    ensures Gathered(f, offset, need) == Gathered(f, offset, count) + Zeros(need - count)
  {
  }

  method Gather(f: File, oldOffset: nat, need: nat, checks: bool)
    returns (r: Result<nat>, pieces: seq<seq<u8>>, count: nat)
    requires oldOffset < f.size && InRange(f, oldOffset, need, checks)
    ensures if Underflows(f.size, oldOffset, need) && checks then r == Err(Panic)
      else
        && r == Ok(count) && Min(need, f.size - oldOffset) <= count <= need
        && Concat(pieces) == Gathered(f, oldOffset, count)
        && (!Underflows(f.size, oldOffset, need) ==> count == Min(need, f.size - oldOffset))
  {
    pieces, count := [], 0;
    var num: nat, o: nat := NumberOf(oldOffset), OffsetIn(oldOffset);
    ghost var base: nat := num * SLICE_SIZE;
    AtStart(f.size, oldOffset, need);
    while true
      invariant base == num * SLICE_SIZE && At(f.size, oldOffset, need, base, o, count)
      invariant Concat(pieces) == Gathered(f, oldOffset, count)
      invariant checks ==> oldOffset + count <= f.size
      decreases need - count, f.size + 1 - base
    {
      var panics;
      panics, pieces, count, o := Round(f, oldOffset, need, num, o, count, checks, base, pieces);
      if panics {
        return Err(Panic), pieces, count;
      }
      if count == f.size || count == need {
        break;
      }
      NextBase(num);
      num := num + 1;
      base := base + SLICE_SIZE;
    }
    r := Ok(count);
  }

  /** Where the loop stands, in the slice that starts at `base`: at position `oldOffset + count` of the file, or
      past its end. */
  ghost predicate At(size: nat, oldOffset: nat, need: nat, base: nat, o: nat, count: nat) {
    && oldOffset < size && count <= need && o < SLICE_SIZE && (count == 0 || count < need)
    && (oldOffset + count < size ==> base + o == oldOffset + count)
    && (size <= oldOffset + count ==> Underflows(size, oldOffset, need) && size <= base)
    && (size < oldOffset + count ==> size < base)
    && (base == size ==> o == 0)
    && base + o <= oldOffset + count + SLICE_SIZE
  }

  /** One turn of the loop: one piece more, the new count, and where in the next slice to go on. */
  method Round(f: File, oldOffset: nat, need: nat, num: nat, o: nat, count: nat, checks: bool, ghost base: nat,
               pieces: seq<seq<u8>>) returns (panics: bool, grown: seq<seq<u8>>, c: nat, next: nat)
    requires base == num * SLICE_SIZE && At(f.size, oldOffset, need, base, o, count)
    requires InRange(f, oldOffset, need, checks) && (checks ==> oldOffset + count <= f.size)
    requires Concat(pieces) == Gathered(f, oldOffset, count)
    ensures panics ==> checks && Underflows(f.size, oldOffset, need)
    ensures !panics ==>
      && Concat(grown) == Gathered(f, oldOffset, c) && count <= c <= need
      && (checks ==> oldOffset + c <= f.size)
      && (c != f.size && c != need ==> At(f.size, oldOffset, need, base + SLICE_SIZE, next, c))
      && (c == f.size || c == need ==> Min(need, f.size - oldOffset) <= c)
      && (!Underflows(f.size, oldOffset, need) && (c == f.size || c == need) ==> c == Min(need, f.size - oldOffset))
      && (c == count && c != need ==> base == f.size)
  {
    var piece;
    panics, piece := OnePiece(f, oldOffset, need, num, o, count, checks, base, pieces);
    if panics {
      return panics, pieces, count, o;
    }
    grown, c, next := pieces + [piece], count + |piece|, OffsetIn(o + |piece|);
    AfterPiece(f.size, oldOffset, need, base, o, count, |piece|);
  }

  /** How much one round takes. */
  predicate Takes(size: nat, need: nat, base: nat, o: nat, count: nat, len: nat) {
    && count <= need
    && len == Min(need - count, SaturatingSub(if base > size then SLICE_SIZE else Min(size - base, SLICE_SIZE), o))
  }

  /** One round: the difference underflows, or the piece that it takes continues what is gathered. */
  method OnePiece(f: File, oldOffset: nat, need: nat, num: nat, o: nat, count: nat, checks: bool, ghost base: nat,
                  ghost pieces: seq<seq<u8>>) returns (panics: bool, piece: seq<u8>)
    requires base == num * SLICE_SIZE && At(f.size, oldOffset, need, base, o, count)
    requires InRange(f, oldOffset, need, checks)
    requires Concat(pieces) == Gathered(f, oldOffset, count)
    ensures panics <==> checks && f.size < base
    ensures !panics ==>
      && Takes(f.size, need, base, o, count, |piece|)
      && Concat(pieces + [piece]) == Gathered(f, oldOffset, count + |piece|)
  {
    var start: nat := num * SLICE_SIZE;
    panics := f.size < start && checks;
    piece := [];
    if !panics {
      var realSize: nat := if f.size < start then SLICE_SIZE else Min(f.size - start, SLICE_SIZE);
      var len: nat := Min(need - count, SaturatingSub(realSize, o));
      NumberFits(f.size, oldOffset, need, num, count, base, checks);
      var key := KeyNumber(num);
      var value := if key in f.slices then f.slices[key] else Zeros(SLICE_SIZE);
      piece := value[o..o + len];
      PieceContinues(f, oldOffset, need, num, o, count, base, len, checks);
      ConcatPush(pieces, piece);
    }
  }

  lemma PieceContinues(f: File, oldOffset: nat, need: nat, num: nat, o: nat, count: nat, base: nat, len: nat,
                       checks: bool)
    requires base == num * SLICE_SIZE && At(f.size, oldOffset, need, base, o, count)
    requires InRange(f, oldOffset, need, checks)
    requires (checks ==> base <= f.size) && Takes(f.size, need, base, o, count, len)
    ensures o + len <= SLICE_SIZE
    ensures Gathered(f, oldOffset, count) + (if num in f.slices then f.slices[num] else Zeros(SLICE_SIZE))[o..o + len]
         == Gathered(f, oldOffset, count + len)
  {
    if oldOffset + count < f.size {
      PieceIsContent(f, num, o, len);
      MoreContent(f, oldOffset, count, len);
    } else if f.size < base {
      PastTheEnd(f, num);
      MoreZeros(f, oldOffset, count, count + len);
      PartOfZeros(o, len);
    }
  }

  lemma MoreContent(f: File, offset: nat, count: nat, len: nat)
    requires offset < f.size && offset + count + len <= f.size
    ensures Gathered(f, offset, count) + Content(f)[offset + count..offset + count + len]
         == Gathered(f, offset, count + len)
  {
  }

  lemma PartOfZeros(o: nat, len: nat)
    requires o + len <= SLICE_SIZE
    ensures Zeros(SLICE_SIZE)[o..o + len] == Zeros(len)
  {
  }

  lemma PastTheEnd(f: File, num: nat)
    requires SlicesWithinSize(f) && f.size < num * SLICE_SIZE
    ensures num !in f.slices
  {
    if num in f.slices {
      QuotientRemainder(f.size, SLICE_SIZE);
      MulMonotone(num, f.size / SLICE_SIZE, SLICE_SIZE);
    }
  }

  lemma NumberFits(size: nat, oldOffset: nat, need: nat, num: nat, count: nat, base: nat, checks: bool)
    requires base == num * SLICE_SIZE && base <= oldOffset + count + SLICE_SIZE && count <= need
    requires size / SLICE_SIZE < U32_LIMIT && (!checks ==> (oldOffset + need) / SLICE_SIZE + 1 < U32_LIMIT)
    requires checks ==> base <= size
    ensures num < U32_LIMIT
  {
    if checks {
      NumberAtMost(num, size);
    } else {
      NextNumber(oldOffset + need);
      NumberAtMost(num, oldOffset + need + SLICE_SIZE);
    }
  }

  lemma NumberAtMost(num: nat, x: nat)
    requires num * SLICE_SIZE <= x
    ensures num <= x / SLICE_SIZE
  {
    QuotientUnique(num * SLICE_SIZE, SLICE_SIZE, num, 0);
    DivMonotone(num * SLICE_SIZE, x, SLICE_SIZE);
  }

  lemma NextNumber(x: nat)
    ensures (x + SLICE_SIZE) / SLICE_SIZE == x / SLICE_SIZE + 1
  {
    var q, r := NumberOf(x), OffsetIn(x);
    QuotientRemainder(x, SLICE_SIZE);
    NextBase(q);
    QuotientUnique(x + SLICE_SIZE, SLICE_SIZE, q + 1, r);
  }

  /** One round on, the loop ends or stands where it should, and it gets there. */
  lemma AtStart(size: nat, oldOffset: nat, need: nat)
    requires oldOffset < size
    ensures At(size, oldOffset, need, NumberOf(oldOffset) * SLICE_SIZE, OffsetIn(oldOffset), 0)
  {
    QuotientRemainder(oldOffset, SLICE_SIZE);
  }

  lemma AfterPiece(size: nat, oldOffset: nat, need: nat, base: nat, o: nat, count: nat, len: nat)
    requires At(size, oldOffset, need, base, o, count) && Takes(size, need, base, o, count, len)
    ensures count + len != size && count + len != need ==>
      At(size, oldOffset, need, base + SLICE_SIZE, OffsetIn(o + len), count + len)
    ensures len == 0 && count != need ==> base == size
    ensures base <= size && oldOffset + count <= size ==> oldOffset + count + len <= size
    ensures !Underflows(size, oldOffset, need) && (count + len == size || count + len == need) ==>
      count + len == Min(need, size - oldOffset)
    ensures count + len == size || count + len == need ==> Min(need, size - oldOffset) <= count + len
  {
    WrapOffset(o, len);
  }
}
