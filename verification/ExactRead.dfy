/** Exactly when dbfs_common_read returns the flat content, and dbfs_common_copy_file_range on top of it. */
module ExactRead {
  import opened Common
  import opened Division
  import opened SliceStore
  import opened RangeRead
  import opened SliceWrite

  /** How many bytes a read of `len` bytes at `offset` should return. */
  function Wanted(f: File, offset: nat, len: nat): nat
    requires offset < f.size
  {
    Min(len, f.size - offset)
  }

  /** The reader takes its bytes from the positions offset, offset + 1, and so on, as many as wanted. */
  ghost predicate ReadsInPlace(f: File, offset: nat, len: nat)
    requires offset < f.size
  {
    var ps := ReadPositions(f, offset, len);
    Min(len, |ps|) == Wanted(f, offset, len) && forall i :: 0 <= i < Wanted(f, offset, len) ==> ps[i] == offset + i
  }

  /** Slice `n` holds a wanted byte. */
  predicate Needed(f: File, offset: nat, len: nat, n: nat)
    requires offset < f.size
  {
    offset / SLICE_SIZE <= n && n * SLICE_SIZE < offset + Wanted(f, offset, len)
  }

  /** Some slice from `lo` up to `hi` is missing. */
  predicate GapIn(slices: map<nat, Slice>, lo: nat, hi: nat) {
    exists n :: lo <= n < hi && n !in slices
  }

  /** Hole `n` opens a second gap: the slice before it is stored and another is missing before that. */
  predicate SecondGapAt(slices: map<nat, Slice>, start: nat, n: nat) {
    start < n && n !in slices && n - 1 in slices && GapIn(slices, start, n - 1)
  }

  /** What a caller can check on the slices: the offset is in the first slice or on a slice boundary, no
      second gap starts among the needed slices, and each needed hole has a stored slice after it in
      the scanned range. */
  ghost predicate Regular(f: File, offset: nat, len: nat)
    requires offset < f.size
  {
    || len == 0
    || (&& (offset < SLICE_SIZE || offset % SLICE_SIZE == 0)
        && forall n: nat :: Needed(f, offset, len, n) && n !in f.slices ==>
             && !SecondGapAt(f.slices, offset / SLICE_SIZE, n)
             && exists m :: n < m < EndNumber(f.size, offset, len) && m in f.slices)
  }

  /** A hole that opens no second gap, with the slice before it stored, has no gap before it. */
  lemma NoGapBefore(slices: map<nat, Slice>, start: nat, k: nat)
    requires start <= k && k !in slices && !SecondGapAt(slices, start, k) && (start < k ==> k - 1 in slices)
    ensures !GapIn(slices, start, k)
  {
  }

  /** As long as no second gap has started, the counter runs ahead exactly after the first gap. */
  lemma {:induction false} AheadAfterFirstGap(slices: map<nat, Slice>, start: nat, n: nat)
    requires start <= n && forall m :: start <= m < n ==> !SecondGapAt(slices, start, m)
    ensures RunsAhead(slices, start, n) <==> GapIn(slices, start, Reached(slices, start, n))
    ensures forall i :: Reached(slices, start, n) <= i < n ==> i !in slices
  {
    if start < n {
      AheadAfterFirstGap(slices, start, n - 1);
      if n - 1 in slices {
        var k := Reached(slices, start, n - 1);
        if k < n - 1 {
          assert k !in slices;
          NoGapBefore(slices, start, k);
        }
      }
    }
  }

  /** Up to the first second gap, a hole is emitted exactly when a stored slice follows and it does not
      open a second gap itself. */
  lemma EmittedHole(slices: map<nat, Slice>, start: nat, end: nat, n: nat)
    requires start <= n && n !in slices && forall m :: start <= m < n ==> !SecondGapAt(slices, start, m)
    ensures Emitted(slices, start, end, n) <==>
      !SecondGapAt(slices, start, n) && exists m :: n < m < end && m in slices
  {
    AheadAfterFirstGap(slices, start, n);
    var k := Reached(slices, start, n);
    if k == n && start < n && GapIn(slices, start, n) {
      var g :| start <= g < n && g !in slices;
      assert GapIn(slices, start, n - 1);
    }
    if SecondGapAt(slices, start, n) {
      var g :| start <= g < n - 1 && g !in slices;
      assert GapIn(slices, start, n);
    }
  }

  /** If every slice before `k` is emitted and the offset is not lost, the positions so far are in place. */
  lemma {:induction false} InPlaceSoFar(f: File, start: nat, o: nat, end: nat, k: nat)
    requires start * SLICE_SIZE + o < f.size && o < SLICE_SIZE && (start == 0 || o == 0)
    requires start < k <= f.size / SLICE_SIZE + 1
    requires forall n :: start <= n < k ==> Emitted(f.slices, start, end, n)
    ensures InPlace(Positions(f.slices, f.size, o, start, end, k), start * SLICE_SIZE + o, Min(f.size, k * SLICE_SIZE))
  {
    BlockStart(f.size, k - 1);
    if k - 1 > start {
      InPlaceSoFar(f, start, o, end, k - 1);
      InPlaceNext(f, start, o, end, k - 1);
    } else {
      InPlaceFirst(f, start, o, end);
    }
  }

  lemma InPlaceFirst(f: File, start: nat, o: nat, end: nat)
    requires start * SLICE_SIZE + o < f.size && o < SLICE_SIZE && (start == 0 || o == 0)
    requires start <= f.size / SLICE_SIZE && Emitted(f.slices, start, end, start)
    ensures InPlace(Positions(f.slices, f.size, o, start, end, start + 1), start * SLICE_SIZE + o,
                    Min(f.size, (start + 1) * SLICE_SIZE))
  {
    var ps := Positions(f.slices, f.size, o, start, end, start);
    assert ps == [];
    assert Positions(f.slices, f.size, o, start, end, start + 1) == ps + SlicePositions(f.size, o, start);
    FirstSlicePositions(f.size, start, o);
    NextBase(start);
  }

  lemma InPlaceNext(f: File, start: nat, o: nat, end: nat, n: nat)
    requires start * SLICE_SIZE + o < f.size && o < SLICE_SIZE
    requires start < n <= f.size / SLICE_SIZE && Emitted(f.slices, start, end, n)
    requires InPlace(Positions(f.slices, f.size, o, start, end, n), start * SLICE_SIZE + o, Min(f.size, n * SLICE_SIZE))
    ensures InPlace(Positions(f.slices, f.size, o, start, end, n + 1), start * SLICE_SIZE + o,
                    Min(f.size, (n + 1) * SLICE_SIZE))
  {
    var ps := Positions(f.slices, f.size, o, start, end, n);
    BlockStart(f.size, n);
    var qs := SlicePositions(f.size, o, n);
    assert Positions(f.slices, f.size, o, start, end, n + 1) == ps + qs;
    LaterSlicePositions(f.size, o, n);
    MulGap(start, n, SLICE_SIZE);
    NextBase(n);
    Adjoin(ps, qs, start * SLICE_SIZE + o, n * SLICE_SIZE, Min(f.size, (n + 1) * SLICE_SIZE));
  }

  /** `ps` is lo, lo + 1, and so on up to hi. */
  ghost predicate InPlace(ps: seq<nat>, lo: nat, hi: nat) {
    |ps| == hi - lo && forall i :: 0 <= i < |ps| ==> ps[i] == lo + i
  }

  lemma Adjoin(ps: seq<nat>, qs: seq<nat>, lo: nat, mid: nat, hi: nat)
    requires InPlace(ps, lo, mid) && InPlace(qs, mid, hi)
    ensures InPlace(ps + qs, lo, hi)
  {
  }

  lemma LaterSlicePositions(size: nat, o: nat, n: nat)
    requires 0 < n && o < SLICE_SIZE && n * SLICE_SIZE <= size
    ensures var ps := SlicePositions(size, o, n);
      |ps| == Min(size - n * SLICE_SIZE, SLICE_SIZE) && forall i :: 0 <= i < |ps| ==> ps[i] == n * SLICE_SIZE + i
  {
    MulMonotone(1, n, SLICE_SIZE);
  }

  lemma FirstSlicePositions(size: nat, start: nat, o: nat)
    requires start * SLICE_SIZE + o < size && o < SLICE_SIZE && (start == 0 || o == 0)
    ensures InPlace(SlicePositions(size, o, start), start * SLICE_SIZE + o, Min(size, start * SLICE_SIZE + SLICE_SIZE))
  {
  }

  /** Every position comes from an emitted slice at or after the first, and one past the first slice of a
      file starts at its beginning. */
  lemma {:induction false} PositionsComeFrom(f: File, o: nat, start: nat, end: nat, k: nat, i: nat)
    requires o < SLICE_SIZE && k <= f.size / SLICE_SIZE + 1
    requires i < |Positions(f.slices, f.size, o, start, end, k)|
    ensures var p := Positions(f.slices, f.size, o, start, end, k)[i];
      && start <= p / SLICE_SIZE && Emitted(f.slices, start, end, p / SLICE_SIZE)
      && (i == 0 && 0 < start ==> p % SLICE_SIZE == 0)
  {
    if k > start {
      BlockStart(f.size, k - 1);
      var before := Positions(f.slices, f.size, o, start, end, k - 1);
      if i < |before| {
        PositionsComeFrom(f, o, start, end, k - 1, i);
      } else {
        SlicePositionsWithin(f.size, o, k - 1, i - |before|);
        if 0 < start {
          LaterSlicePositions(f.size, o, k - 1);
        }
      }
    }
  }

  lemma SlicePositionsWithin(size: nat, o: nat, n: nat, j: nat)
    requires n * SLICE_SIZE <= size && j < |SlicePositions(size, o, n)|
    ensures var p := SlicePositions(size, o, n)[j];
      p / SLICE_SIZE == n && p % SLICE_SIZE == SaturatingSub(o, n * SLICE_SIZE) + j
  {
    QuotientUnique(SlicePositions(size, o, n)[j], SLICE_SIZE, n, SaturatingSub(o, n * SLICE_SIZE) + j);
  }

  /** dbfs_common_read returns the first Min(len, size - offset) bytes of the flat content from their
      own positions if and only if the slices in the range are regular. */
  lemma ReadIsExactIffRegular(f: File, offset: nat, len: nat)
    requires offset < f.size
    ensures ReadsInPlace(f, offset, len) <==> Regular(f, offset, len)
  {
    if Regular(f, offset, len) && 0 < len {
      RegularReadsInPlace(f, offset, len);
    } else if !Regular(f, offset, len) && ReadsInPlace(f, offset, len) {
      InPlaceReadIsRegular(f, offset, len);
    }
  }

  lemma RegularReadsInPlace(f: File, offset: nat, len: nat)
    requires offset < f.size && Regular(f, offset, len) && 0 < len
    ensures ReadsInPlace(f, offset, len)
  {
    var start, o, end := NumberOf(offset), OffsetIn(offset), EndNumber(f.size, offset, len);
    var last: nat := LastNeeded(f, offset, len);
    RegularEmitsNeeded(f, offset, len);
    QuotientRemainder(offset, SLICE_SIZE);
    if offset < SLICE_SIZE {
      QuotientUnique(offset, SLICE_SIZE, 0, offset);
    }
    assert ScanOf(f, offset, len, start, o, end);
    EmittedReadsInPlace(f, offset, len, start, o, end, last);
  }

  lemma EmittedReadsInPlace(f: File, offset: nat, len: nat, start: nat, o: nat, end: nat, last: nat)
    requires offset < f.size && ScanOf(f, offset, len, start, o, end) && (start == 0 || o == 0) && start <= last < end
    requires offset + Wanted(f, offset, len) <= (last + 1) * SLICE_SIZE
    requires forall n :: start <= n <= last ==> Emitted(f.slices, start, end, n)
    ensures ReadsInPlace(f, offset, len)
  {
    InPlaceSoFar(f, start, o, end, last + 1);
    PositionsGrow(f.slices, f.size, o, start, end, last + 1, end);
    if f.size <= (last + 1) * SLICE_SIZE {
      NothingPastEnd(f, start, o, end, last + 1, end);
    }
    PositionsSuffice(f, offset, len, Positions(f.slices, f.size, o, start, end, last + 1), (last + 1) * SLICE_SIZE);
  }

  lemma PositionsSuffice(f: File, offset: nat, len: nat, ps: seq<nat>, stop: nat)
    requires offset < f.size && InPlace(ps, offset, Min(f.size, stop)) && offset + Wanted(f, offset, len) <= stop
    requires ps <= ReadPositions(f, offset, len) && (f.size <= stop ==> ReadPositions(f, offset, len) == ps)
    ensures ReadsInPlace(f, offset, len)
  {
    PrefixIsEnough(ps, ReadPositions(f, offset, len), offset, Min(f.size, stop), len, f.size);
  }

  lemma PrefixIsEnough(ps: seq<nat>, all: seq<nat>, offset: nat, hi: nat, len: nat, size: nat)
    requires offset < size && InPlace(ps, offset, hi) && ps <= all && offset + Min(len, size - offset) <= hi
    requires hi <= size && (hi == size ==> all == ps)
    requires hi != size ==> offset + len <= hi
    ensures Min(len, |all|) == Min(len, size - offset)
    ensures forall i :: 0 <= i < Min(len, size - offset) ==> all[i] == offset + i
  {
  }

  /** A slice that starts at the end of the file adds no positions. */
  lemma {:induction false} NothingPastEnd(f: File, start: nat, o: nat, end: nat, k: nat, l: nat)
    requires k <= l <= f.size / SLICE_SIZE + 1 && f.size <= k * SLICE_SIZE
    ensures Positions(f.slices, f.size, o, start, end, l) == Positions(f.slices, f.size, o, start, end, k)
    decreases l
  {
    if k < l {
      NothingPastEnd(f, start, o, end, k, l - 1);
      BlockStart(f.size, l - 1);
      MulMonotone(k, l - 1, SLICE_SIZE);
      assert SlicePositions(f.size, o, l - 1) == [];
    }
  }

  lemma RegularEmitsNeeded(f: File, offset: nat, len: nat)
    requires offset < f.size && Regular(f, offset, len) && 0 < len
    ensures var start, end, last := NumberOf(offset), EndNumber(f.size, offset, len), LastNeeded(f, offset, len);
      && start <= last < end && offset + Wanted(f, offset, len) <= (last + 1) * SLICE_SIZE
      && forall n :: start <= n <= last ==> Emitted(f.slices, start, end, n)
  {
    var start, end, last := NumberOf(offset), EndNumber(f.size, offset, len), LastNeeded(f, offset, len);
    NeededRange(f, offset, len);
    forall n: nat | start <= n <= last && n !in f.slices
      ensures !SecondGapAt(f.slices, start, n) && exists m :: n < m < end && m in f.slices
    {
      assert Needed(f, offset, len, n);
    }
    forall n: nat | start <= n <= last ensures Emitted(f.slices, start, end, n) {
      if n !in f.slices {
        EmittedHole(f.slices, start, end, n);
      }
    }
  }

  /** The slice of the last wanted byte. */
  function LastNeeded(f: File, offset: nat, len: nat): nat
    requires offset < f.size && 0 < len
  {
    (offset + Wanted(f, offset, len) - 1) / SLICE_SIZE
  }

  lemma NeededRange(f: File, offset: nat, len: nat)
    requires offset < f.size && 0 < len
    ensures forall n: nat :: Needed(f, offset, len, n) <==> offset / SLICE_SIZE <= n <= LastNeeded(f, offset, len)
    ensures offset / SLICE_SIZE <= LastNeeded(f, offset, len) < EndNumber(f.size, offset, len)
    ensures offset + Wanted(f, offset, len) <= (LastNeeded(f, offset, len) + 1) * SLICE_SIZE
  {
    var p := offset + Wanted(f, offset, len) - 1;
    QuotientRemainder(p, SLICE_SIZE);
    DivMonotone(offset, p, SLICE_SIZE);
    DivMonotone(p, f.size, SLICE_SIZE);
    DivMonotone(p, offset + len, SLICE_SIZE);
    NextBase(p / SLICE_SIZE);
    forall n: nat ensures n * SLICE_SIZE <= p <==> n <= p / SLICE_SIZE {
      if n <= p / SLICE_SIZE {
        MulMonotone(n, p / SLICE_SIZE, SLICE_SIZE);
      } else {
        MulGap(p / SLICE_SIZE, n, SLICE_SIZE);
      }
    }
  }

  /** The slice that a read starts in, the offset in it, and where the scan ends. */
  ghost predicate ScanOf(f: File, offset: nat, len: nat, start: nat, o: nat, end: nat) {
    && start == offset / SLICE_SIZE && o == offset % SLICE_SIZE && offset == start * SLICE_SIZE + o
    && o < SLICE_SIZE && start <= end <= f.size / SLICE_SIZE + 1
    && ReadPositions(f, offset, len) == Positions(f.slices, f.size, o, start, end, end)
  }

  lemma InPlaceReadIsRegular(f: File, offset: nat, len: nat)
    requires offset < f.size && ReadsInPlace(f, offset, len)
    ensures Regular(f, offset, len)
  {
    if 0 < len {
      var start, o, end := NumberOf(offset), OffsetIn(offset), EndNumber(f.size, offset, len);
      var last: nat := LastNeeded(f, offset, len);
      QuotientRemainder(offset, SLICE_SIZE);
      assert ScanOf(f, offset, len, start, o, end);
      OffsetNotLost(f, offset, len, start, o, end);
      NeededRange(f, offset, len);
      forall n: nat | start <= n <= last ensures Emitted(f.slices, start, end, n) {
        NeededIsEmitted(f, offset, len, start, o, end, n);
      }
      EmittedHasNoSecondGap(f.slices, start, end, last);
    }
  }

  lemma EmittedHasNoSecondGap(slices: map<nat, Slice>, start: nat, end: nat, last: nat)
    requires start <= last < end && forall n :: start <= n <= last ==> Emitted(slices, start, end, n)
    ensures forall n: nat :: start <= n <= last && n !in slices ==>
      !SecondGapAt(slices, start, n) && exists m :: n < m < end && m in slices
  {
    NoSecondGap(slices, start, end, last);
    forall n: nat | start <= n <= last && n !in slices
      ensures !SecondGapAt(slices, start, n) && exists m :: n < m < end && m in slices
    {
      assert Emitted(slices, start, end, n);
    }
  }

  lemma OffsetNotLost(f: File, offset: nat, len: nat, start: nat, o: nat, end: nat)
    requires offset < f.size && 0 < len && ReadsInPlace(f, offset, len) && ScanOf(f, offset, len, start, o, end)
    ensures offset < SLICE_SIZE || offset % SLICE_SIZE == 0
  {
    assert ReadPositions(f, offset, len)[0] == offset;
    PositionsComeFrom(f, o, start, end, end, 0);
  }

  lemma NeededIsEmitted(f: File, offset: nat, len: nat, start: nat, o: nat, end: nat, n: nat)
    requires offset < f.size && 0 < len && ReadsInPlace(f, offset, len)
    requires ScanOf(f, offset, len, start, o, end) && start <= n && Needed(f, offset, len, n)
    ensures Emitted(f.slices, start, end, n)
  {
    var p := NeededPosition(f, offset, len, n);
    PositionsComeFrom(f, o, start, end, end, p - offset);
  }

  lemma NeededPosition(f: File, offset: nat, len: nat, n: nat) returns (p: nat)
    requires offset < f.size && 0 < len && Needed(f, offset, len, n)
    ensures offset <= p < offset + Wanted(f, offset, len) && p / SLICE_SIZE == n
  {
    p := Max(offset, n * SLICE_SIZE);
    if offset <= n * SLICE_SIZE {
      QuotientUnique(p, SLICE_SIZE, n, 0);
    } else {
      QuotientRemainder(offset, SLICE_SIZE);
      if offset / SLICE_SIZE < n {
        MulGap(offset / SLICE_SIZE, n, SLICE_SIZE);
      }
    }
  }

  /** The first second gap would not be emitted. */
  lemma {:induction false} NoSecondGap(slices: map<nat, Slice>, start: nat, end: nat, n: nat)
    requires start <= n && forall m :: start <= m <= n ==> Emitted(slices, start, end, m)
    ensures forall m :: start <= m <= n ==> !SecondGapAt(slices, start, m)
    decreases n
  {
    if start < n {
      NoSecondGap(slices, start, end, n - 1);
    }
    if n !in slices {
      EmittedHole(slices, start, end, n);
    }
  }

  /** The read returns the first Min(len, size - offset) bytes of the flat content from the offset on. */
  ghost predicate ReadsContent(f: File, offset: nat, len: nat)
    requires offset < f.size
  {
    var b, n := Bytes(f, ReadPositions(f, offset, len)), Wanted(f, offset, len);
    Min(len, |b|) == n && b[..n] == Content(f)[offset..offset + n]
  }

  /** The bytes of a regular read are the flat content. */
  lemma RegularReadIsContent(f: File, offset: nat, len: nat)
    requires offset < f.size && Regular(f, offset, len)
    ensures ReadsContent(f, offset, len)
  {
    ReadIsExactIffRegular(f, offset, len);
    var b, n := Bytes(f, ReadPositions(f, offset, len)), Wanted(f, offset, len);
    assert Min(len, |b|) == n;
    forall i | 0 <= i < n ensures b[..n][i] == Content(f)[offset..offset + n][i] {
      assert ReadPositions(f, offset, len)[i] == offset + i;
    }
  }

  /** A second gap makes the reader return too little: with slices 1 and 3 stored and slices 0 and 2 missing,
      reading the whole file returns three slices of its four, and the last one too early. */
  lemma SecondGapLosesASlice(f: File, s: Slice)
    requires f.size == 4 * SLICE_SIZE && f.slices == map[1 := s, 3 := s]
    ensures Bytes(f, ReadPositions(f, 0, f.size)) == Zeros(SLICE_SIZE) + s + s
    ensures Content(f) == Zeros(SLICE_SIZE) + s + Zeros(SLICE_SIZE) + s
  {
    var size := f.size;
    PositionsOfFour(size, f.slices, s);
    QuotientUnique(0, SLICE_SIZE, 0, 0);
    QuotientUnique(size, SLICE_SIZE, 4, 0);
    BytesOfSlice(f, 0, Zeros(SLICE_SIZE));
    BytesOfSlice(f, 1, s);
    BytesOfSlice(f, 3, s);
    BytesOfThree(f, SlicePositions(size, 0, 0), SlicePositions(size, 0, 1), SlicePositions(size, 0, 3));
    ContentOfFour(f, s);
  }

  lemma BytesOfThree(f: File, p: seq<nat>, q: seq<nat>, r: seq<nat>)
    ensures Bytes(f, p + q + r) == Bytes(f, p) + Bytes(f, q) + Bytes(f, r)
  {
  }

  lemma PositionsOfFour(size: nat, m: map<nat, Slice>, s: Slice)
    requires size == 4 * SLICE_SIZE && m == map[1 := s, 3 := s]
    ensures size / SLICE_SIZE == 4 && SLICE_SIZE <= 3 * SLICE_SIZE <= size
    ensures Positions(m, size, 0, 0, 5, 5)
         == SlicePositions(size, 0, 0) + SlicePositions(size, 0, 1) + SlicePositions(size, 0, 3)
  {
    QuotientUnique(size, SLICE_SIZE, 4, 0);
    EmittedInFour(m, s);
    var p0, p1, p3 := SlicePositions(size, 0, 0), SlicePositions(size, 0, 1), SlicePositions(size, 0, 3);
    PositionsStep(m, size, 0);
    PositionsStep(m, size, 1);
    PositionsStep(m, size, 2);
    PositionsStep(m, size, 3);
    PositionsStep(m, size, 4);
    assert [] + p0 == p0;
  }

  lemma PositionsStep(m: map<nat, Slice>, size: nat, k: nat)
    requires k <= size / SLICE_SIZE
    ensures k * SLICE_SIZE <= size
    ensures k == 0 ==> Positions(m, size, 0, 0, 5, k) == []
    ensures Positions(m, size, 0, 0, 5, k + 1)
         == Positions(m, size, 0, 0, 5, k) + if Emitted(m, 0, 5, k) then SlicePositions(size, 0, k) else []
  {
    BlockStart(size, k);
  }

  lemma EmittedInFour(m: map<nat, Slice>, s: Slice)
    requires m == map[1 := s, 3 := s]
    ensures Emitted(m, 0, 5, 0) && Emitted(m, 0, 5, 1) && !Emitted(m, 0, 5, 2)
    ensures Emitted(m, 0, 5, 3) && !Emitted(m, 0, 5, 4)
  {
    EmittedHole(m, 0, 5, 0);
    assert GapIn(m, 0, 1);
    assert SecondGapAt(m, 0, 2);
    EmittedHole(m, 0, 5, 2);
  }

  lemma BytesOfSlice(f: File, n: nat, s: Slice)
    requires (n + 1) * SLICE_SIZE <= f.size && s == if n in f.slices then f.slices[n] else Zeros(SLICE_SIZE)
    ensures n * SLICE_SIZE <= f.size && Bytes(f, SlicePositions(f.size, 0, n)) == s
  {
    NextBase(n);
    SliceBytes(f, 0, n, s);
  }

  lemma ContentOfFour(f: File, s: Slice)
    requires f.size == 4 * SLICE_SIZE && f.slices == map[1 := s, 3 := s]
    ensures Content(f) == Zeros(SLICE_SIZE) + s + Zeros(SLICE_SIZE) + s
  {
    var c := Zeros(SLICE_SIZE) + s + Zeros(SLICE_SIZE) + s;
    forall p | 0 <= p < f.size ensures c[p] == Content(f)[p] {
      var n: nat := if p < SLICE_SIZE then 0 else if p < 2 * SLICE_SIZE then 1 else if p < 3 * SLICE_SIZE then 2 else 3;
      ByteOfSlice(f, n, p - n * SLICE_SIZE);
    }
  }

  /** What dbfs_common_copy_file_range copies: what the reader returns for the clipped range. */
  ghost function CopiedBytes(f: File, offset: nat, len: nat): seq<u8> {
    if f.size <= offset then []
    else
      var want := Wanted(f, offset, len);
      var b := Bytes(f, ReadPositions(f, offset, want));
      b[..Min(want, |b|)]
  }

  method CopyFileRange(db: Db, src: nat, offsetSrc: nat, dest: nat, offsetDest: nat, len: nat, alloc: nat -> Slice)
    returns (r: Result<nat>)
    requires src in db.files ==> db.files[src].size / SLICE_SIZE + 1 < U32_LIMIT
    requires offsetDest / SLICE_SIZE < U32_LIMIT && offsetDest + len <= U32_LIMIT * SLICE_SIZE
    modifies db
    ensures db.diskSize == old(db.diskSize)
    ensures src !in old(db.files) || dest !in old(db.files) ==> r == Err(NoData) && db.files == old(db.files)
    ensures src in old(db.files) && dest in old(db.files) ==>
      var data := CopiedBytes(old(db.files)[src], offsetSrc, len);
      && r == Ok(|data|)
      && dest in db.files
      && db.files == old(db.files)[dest := db.files[dest]]
      && IsWrite(old(db.files)[dest], db.files[dest], data, offsetDest, alloc)
  {
    if src !in db.files {
      return Err(NoData);
    }
    var f := db.files[src];
    var readSize := Min(SaturatingSub(f.size, offsetSrc), len);
    var buf := new u8[readSize](_ => 0);
    var read := Read(db, src, buf, offsetSrc);
    assert buf[..read.value] == CopiedBytes(f, offsetSrc, len);
    r := Write(db, dest, buf[..read.value], offsetDest, alloc);
  }

  /** A regular copy puts the source's flat bytes at their place in the destination. */
  lemma RegularCopyIsContent(f: File, offset: nat, len: nat)
    requires offset < f.size && Regular(f, offset, Wanted(f, offset, len))
    ensures CopiedBytes(f, offset, len) == Content(f)[offset..offset + Wanted(f, offset, len)]
  {
    RegularReadIsContent(f, offset, Wanted(f, offset, len));
  }
}
