/** Exactly when dbfs_common_read returns the flat content whatever the stored slices hold. */
module ExactBytes {
  import opened Common
  import opened Division
  import opened SliceStore
  import opened RangeRead
  import opened ExactRead

  /** A file of the same size with the same slices stored. */
  ghost predicate SameShape(f: File, g: File) {
    g.size == f.size && g.slices.Keys == f.slices.Keys
  }

  /** The range ends in the file, on the boundary of a stored slice, and nothing is stored from the slice that it
      starts in up to there: it reads as zeros from wherever in these holes the bytes are taken. */
  ghost predicate HolesUpToStored(f: File, offset: nat, len: nat) {
    && offset + len <= f.size
    && (offset + len) % SLICE_SIZE == 0 && (offset + len) / SLICE_SIZE in f.slices
    && forall n :: offset / SLICE_SIZE <= n < (offset + len) / SLICE_SIZE ==> n !in f.slices
  }

  /** The same position, or two that read as zero. */
  predicate Alike(f: File, p: nat, q: nat) {
    p == q || (!StoredAt(f, p) && !StoredAt(f, q))
  }

  ghost predicate ReadsAlike(f: File, offset: nat, len: nat)
    requires offset < f.size
  {
    var ps, n := ReadPositions(f, offset, len), Wanted(f, offset, len);
    Min(len, |ps|) == n && forall i :: 0 <= i < n ==> Alike(f, ps[i], offset + i)
  }

  /** The bytes that dbfs_common_read returns are the flat content, whatever is stored in the slices, if and only if
      the slices in the range are regular, or the range is a row of holes that ends where a stored slice begins. */
  lemma BytesAreContentIff(f: File, offset: nat, len: nat)
    requires offset < f.size
    ensures (forall g :: SameShape(f, g) ==> ReadsContent(g, offset, len))
       <==> Regular(f, offset, len) || HolesUpToStored(f, offset, len)
  {
    ReadsAlikeIff(f, offset, len);
    if ReadsAlike(f, offset, len) {
      forall g | SameShape(f, g) ensures ReadsContent(g, offset, len) {
        ShapeDecides(f, g, offset, len);
        AlikeReadsContent(g, offset, len);
      }
    } else {
      var g := UnlikeShows(f, offset, len);
    }
  }

  lemma {:induction false} SameCounters(a: map<nat, Slice>, b: map<nat, Slice>, start: nat, n: nat)
    requires a.Keys == b.Keys && start <= n
    ensures Reached(a, start, n) == Reached(b, start, n) && RunsAhead(a, start, n) == RunsAhead(b, start, n)
  {
    assert forall k :: k in a <==> k in b;
    if start < n {
      SameCounters(a, b, start, n - 1);
    }
  }

  lemma {:induction false} SamePositions(a: map<nat, Slice>, b: map<nat, Slice>, size: nat, o: nat, start: nat,
                                         end: nat, k: nat)
    requires a.Keys == b.Keys && k <= size / SLICE_SIZE + 1
    ensures Positions(a, size, o, start, end, k) == Positions(b, size, o, start, end, k)
  {
    if start < k {
      SamePositions(a, b, size, o, start, end, k - 1);
      SameCounters(a, b, start, k - 1);
      assert forall n :: n in a <==> n in b;
      assert Emitted(a, start, end, k - 1) <==> Emitted(b, start, end, k - 1);
    }
  }

  /** Where bytes are taken from depends on the shape alone. */
  lemma ShapeDecides(f: File, g: File, offset: nat, len: nat)
    requires SameShape(f, g) && offset < f.size && ReadsAlike(f, offset, len)
    ensures ReadsAlike(g, offset, len)
  {
    var end, ps, n := EndNumber(f.size, offset, len), ReadPositions(f, offset, len), Wanted(f, offset, len);
    SamePositions(f.slices, g.slices, f.size, OffsetIn(offset), NumberOf(offset), end, end);
    assert forall k :: k in f.slices <==> k in g.slices;
    forall i | 0 <= i < n ensures Alike(g, ps[i], offset + i) {
      assert Alike(f, ps[i], offset + i);
    }
  }

  lemma AlikeReadsContent(f: File, offset: nat, len: nat)
    requires offset < f.size && ReadsAlike(f, offset, len)
    ensures ReadsContent(f, offset, len)
  {
    var ps, n := ReadPositions(f, offset, len), Wanted(f, offset, len);
    var b := Bytes(f, ps);
    forall i | 0 <= i < n ensures b[..n][i] == Content(f)[offset..offset + n][i] {
      assert Alike(f, ps[i], offset + i);
    }
  }

  // ----- another file of the same shape shows the difference -----

  /** The file with a one at position `r` and zeros everywhere else. */
  function Marked(f: File, r: nat): (g: File)
    ensures SameShape(f, g)
  {
    f.(slices := map n | n in f.slices :: MarkedSlice(n, r))
  }

  function MarkedSlice(n: nat, r: nat): Slice {
    seq(SLICE_SIZE, i requires 0 <= i < SLICE_SIZE => if n == NumberOf(r) && i == OffsetIn(r) then 1 else 0)
  }

  lemma MarkedByte(f: File, r: nat, p: nat)
    requires StoredAt(f, r)
    ensures Byte(Marked(f, r), p) == if p == r then 1 else 0
  {
    SamePlaceIff(p, r);
    if StoredAt(f, p) {
      assert Marked(f, r).slices[NumberOf(p)] == MarkedSlice(NumberOf(p), r);
      assert MarkedSlice(NumberOf(p), r)[OffsetIn(p)] == if p == r then 1 else 0;
    }
  }

  lemma SamePlaceIff(p: nat, r: nat)
    ensures NumberOf(p) == NumberOf(r) && OffsetIn(p) == OffsetIn(r) <==> p == r
  {
    QuotientRemainder(p, SLICE_SIZE);
    QuotientRemainder(r, SLICE_SIZE);
  }

  /** When two positions are not alike, or the count is wrong, some file of the shape is read wrongly. */
  lemma UnlikeShows(f: File, offset: nat, len: nat) returns (g: File)
    requires offset < f.size && !ReadsAlike(f, offset, len)
    ensures SameShape(f, g) && !ReadsContent(g, offset, len)
  {
    var ps, n := ReadPositions(f, offset, len), Wanted(f, offset, len);
    if Min(len, |ps|) != n {
      g := f;
    } else {
      var i :| 0 <= i < n && !Alike(f, ps[i], offset + i);
      var r := if StoredAt(f, ps[i]) then ps[i] else offset + i;
      g := Marked(f, r);
      var end := EndNumber(f.size, offset, len);
      SamePositions(f.slices, g.slices, f.size, OffsetIn(offset), NumberOf(offset), end, end);
      MarkedByte(f, r, ps[i]);
      MarkedByte(f, r, offset + i);
      assert Bytes(g, ps)[..n][i] != Content(g)[offset..offset + n][i];
    }
  }

  // ----- which files are read alike -----

  lemma ReadsAlikeIff(f: File, offset: nat, len: nat)
    requires offset < f.size
    ensures ReadsAlike(f, offset, len) <==> Regular(f, offset, len) || HolesUpToStored(f, offset, len)
  {
    if 0 < len {
      ReadIsExactIffRegular(f, offset, len);
      if HolesUpToStored(f, offset, len) {
        HolesReadAlike(f, offset, len);
      }
      if ReadsAlike(f, offset, len) {
        if offset < SLICE_SIZE || offset % SLICE_SIZE == 0 {
          AlignedIsRegular(f, offset, len);
        } else {
          UnalignedIsHoles(f, offset, len);
        }
      }
    }
  }

  /** In a scan that does not start in the first slice, emitted slices are taken whole. */
  lemma {:induction false} WholeSlicesInPlace(f: File, start: nat, o: nat, end: nat, k: nat)
    requires 0 < start <= k <= f.size / SLICE_SIZE && o < SLICE_SIZE
    requires forall n :: start <= n < k ==> Emitted(f.slices, start, end, n)
    ensures InPlace(Positions(f.slices, f.size, o, start, end, k), start * SLICE_SIZE, k * SLICE_SIZE)
  {
    if start < k {
      WholeSlicesInPlace(f, start, o, end, k - 1);
      OneMoreSlice(f, start, o, end, k - 1);
      var ps := Positions(f.slices, f.size, o, start, end, k - 1);
      Adjoin(ps, SlicePositions(f.size, o, k - 1), start * SLICE_SIZE, (k - 1) * SLICE_SIZE, k * SLICE_SIZE);
    }
  }

  /** An emitted slice after the first, wholly in the file, adds its positions. */
  lemma OneMoreSlice(f: File, start: nat, o: nat, end: nat, n: nat)
    requires start <= n < f.size / SLICE_SIZE && 0 < n && o < SLICE_SIZE && Emitted(f.slices, start, end, n)
    ensures (n + 1) * SLICE_SIZE <= f.size && n * SLICE_SIZE <= f.size
    ensures InPlace(SlicePositions(f.size, o, n), n * SLICE_SIZE, (n + 1) * SLICE_SIZE)
    ensures Positions(f.slices, f.size, o, start, end, n + 1)
         == Positions(f.slices, f.size, o, start, end, n) + SlicePositions(f.size, o, n)
  {
    BlockStart(f.size, n);
    BlockStart(f.size, n + 1);
    NextBase(n);
    LaterSlicePositions(f.size, o, n);
  }

  /** The holes before the first stored slice are all emitted. */
  lemma FirstHolesEmitted(slices: map<nat, Slice>, start: nat, end: nat, m: nat)
    requires start <= m < end && m in slices && forall n :: start <= n < m ==> n !in slices
    ensures forall n :: start <= n <= m ==> Emitted(slices, start, end, n)
  {
    forall n | start <= n < m ensures Emitted(slices, start, end, n) {
      EmittedHole(slices, start, end, n);
    }
  }

  /** Where the scan ends: a slice that it visits begins in the wanted range, or right at its end. */
  lemma ScannedStart(f: File, offset: nat, len: nat, m: nat)
    requires offset < f.size && 0 < len && m < EndNumber(f.size, offset, len)
    ensures m <= f.size / SLICE_SIZE && m * SLICE_SIZE <= offset + Wanted(f, offset, len)
  {
    BlockStart(offset + Wanted(f, offset, len), m);
  }

  lemma HolesReadAlike(f: File, offset: nat, len: nat)
    requires offset < f.size && 0 < len && HolesUpToStored(f, offset, len)
    ensures ReadsAlike(f, offset, len)
  {
    var start, o, end := NumberOf(offset), OffsetIn(offset), EndNumber(f.size, offset, len);
    var m := NumberOf(offset + len);
    QuotientRemainder(offset, SLICE_SIZE);
    QuotientRemainder(offset + len, SLICE_SIZE);
    DivMonotone(offset + len, f.size, SLICE_SIZE);
    DivMonotone(offset, offset + len, SLICE_SIZE);
    if start == 0 {
      HolesAreRegular(f, offset, len);
      ReadIsExactIffRegular(f, offset, len);
    } else {
      FirstHolesEmitted(f.slices, start, end, m);
      WholeSlicesInPlace(f, start, o, end, m);
      PositionsGrow(f.slices, f.size, o, start, end, m, end);
      var ps := Positions(f.slices, f.size, o, start, end, m);
      HolesAlike(f, start, m, ps, ReadPositions(f, offset, len), offset, len);
    }
  }

  lemma HolesAlike(f: File, start: nat, m: nat, ps: seq<nat>, all: seq<nat>, offset: nat, len: nat)
    requires InPlace(ps, start * SLICE_SIZE, m * SLICE_SIZE) && ps <= all
    requires start * SLICE_SIZE <= offset && offset + len == m * SLICE_SIZE
    requires forall n :: start <= n < m ==> n !in f.slices
    ensures len <= |all| && forall i :: 0 <= i < len ==> Alike(f, all[i], offset + i)
  {
    forall i | 0 <= i < len ensures Alike(f, all[i], offset + i) {
      HoleAt(f, start, m, start * SLICE_SIZE + i);
      HoleAt(f, start, m, offset + i);
    }
  }

  lemma HoleAt(f: File, start: nat, m: nat, p: nat)
    requires start * SLICE_SIZE <= p < m * SLICE_SIZE && forall n :: start <= n < m ==> n !in f.slices
    ensures !StoredAt(f, p)
  {
    var n := NumberOf(p);
    QuotientRemainder(p, SLICE_SIZE);
    if n < start {
      MulGap(n, start, SLICE_SIZE);
    } else if m <= n {
      MulMonotone(m, n, SLICE_SIZE);
    }
  }

  lemma HolesAreRegular(f: File, offset: nat, len: nat)
    requires offset < f.size && 0 < len && HolesUpToStored(f, offset, len) && NumberOf(offset) == 0
    ensures Regular(f, offset, len)
  {
    var m := NumberOf(offset + len);
    QuotientRemainder(offset, SLICE_SIZE);
    QuotientRemainder(offset + len, SLICE_SIZE);
    DivMonotone(offset + len, f.size, SLICE_SIZE);
    forall n: nat | Needed(f, offset, len, n) && n !in f.slices
      ensures !SecondGapAt(f.slices, 0, n) && exists k :: n < k < EndNumber(f.size, offset, len) && k in f.slices
    {
      if m <= n {
        MulMonotone(m, n, SLICE_SIZE);
      }
      assert m in f.slices;
    }
  }

  // ----- an unaligned offset past the first slice -----

  lemma UnalignedIsHoles(f: File, offset: nat, len: nat)
    requires offset < f.size && 0 < len && ReadsAlike(f, offset, len)
    requires SLICE_SIZE <= offset && offset % SLICE_SIZE != 0
    ensures HolesUpToStored(f, offset, len)
  {
    var start, o, end := NumberOf(offset), OffsetIn(offset), EndNumber(f.size, offset, len);
    var last: nat := LastNeeded(f, offset, len);
    QuotientRemainder(offset, SLICE_SIZE);
    NeededRange(f, offset, len);
    NeededAreHoles(f, offset, len, last + 1);
    var m := SomethingStored(f, offset, len);
    EndsAtStored(f, offset, len, m);
    ScannedStart(f, offset, len, m);
    FirstHolesEmitted(f.slices, start, end, m);
    WholeSlicesInPlace(f, start, o, end, m);
    PositionsGrow(f.slices, f.size, o, start, end, m, end);
    assert Wanted(f, offset, len) < |ReadPositions(f, offset, len)|;
    assert len == Wanted(f, offset, len);
  }

  /** A stored slice among those needed would show: it is read from too early a place. */
  lemma {:induction false} NeededAreHoles(f: File, offset: nat, len: nat, k: nat)
    requires offset < f.size && 0 < len && ReadsAlike(f, offset, len)
    requires SLICE_SIZE <= offset && offset % SLICE_SIZE != 0
    requires NumberOf(offset) <= k <= LastNeeded(f, offset, len) + 1
    ensures forall n :: NumberOf(offset) <= n < k ==> n !in f.slices
  {
    if NumberOf(offset) < k {
      NeededAreHoles(f, offset, len, k - 1);
      NeededRange(f, offset, len);
      if k - 1 in f.slices {
        StoredShows(f, offset, len, k - 1);
      }
    }
  }

  lemma StoredShows(f: File, offset: nat, len: nat, k: nat)
    requires offset < f.size && 0 < len && SLICE_SIZE <= offset && offset % SLICE_SIZE != 0
    requires Needed(f, offset, len, k) && k < EndNumber(f.size, offset, len) && k in f.slices
    requires forall n :: NumberOf(offset) <= n < k ==> n !in f.slices
    ensures !ReadsAlike(f, offset, len)
  {
    var start, o, end := NumberOf(offset), OffsetIn(offset), EndNumber(f.size, offset, len);
    QuotientRemainder(offset, SLICE_SIZE);
    ScannedStart(f, offset, len, k);
    FirstHolesEmitted(f.slices, start, end, k);
    var ps := ReadPositions(f, offset, len);
    if k == start {
      FirstTakenWhole(f, start, o, end);
      ByteOfSlice(f, k, 0);
      assert ps != [] ==> !Alike(f, ps[0], offset + 0);
    } else {
      WholeSlicesInPlace(f, start, o, end, k);
      PositionsGrow(f.slices, f.size, o, start, end, k, end);
      MulGap(start, k, SLICE_SIZE);
      ByteOfSlice(f, k, 0);
      var i := k * SLICE_SIZE - offset;
      assert ps[i] == start * SLICE_SIZE + i;
      assert !Alike(f, ps[i], offset + i);
    }
  }

  lemma FirstTakenWhole(f: File, start: nat, o: nat, end: nat)
    requires 0 < start < end <= f.size / SLICE_SIZE + 1 && start in f.slices && o < SLICE_SIZE
    requires start * SLICE_SIZE < f.size
    ensures var ps := Positions(f.slices, f.size, o, start, end, end); ps != [] && ps[0] == start * SLICE_SIZE
  {
    LaterSlicePositions(f.size, o, start);
    var qs := SlicePositions(f.size, o, start);
    assert Positions(f.slices, f.size, o, start, end, start) == [];
    assert Positions(f.slices, f.size, o, start, end, start + 1) == [] + qs == qs;
    PositionsGrow(f.slices, f.size, o, start, end, start + 1, end);
  }

  /** Something is stored among the scanned slices, or nothing would be read. */
  lemma SomethingStored(f: File, offset: nat, len: nat) returns (m: nat)
    requires offset < f.size && 0 < len && ReadsAlike(f, offset, len)
    ensures NumberOf(offset) <= m < EndNumber(f.size, offset, len) && m in f.slices
  {
    var start, end := NumberOf(offset), EndNumber(f.size, offset, len);
    if n :| start <= n < end && n in f.slices {
      m := n;
    } else {
      NeededRange(f, offset, len);
      PositionsGrow(f.slices, f.size, OffsetIn(offset), start, end, start, end);
      assert false;
    }
  }

  lemma EndsAtStored(f: File, offset: nat, len: nat, m: nat)
    requires offset < f.size && 0 < len && NumberOf(offset) <= m < EndNumber(f.size, offset, len) && m in f.slices
    requires forall n :: NumberOf(offset) <= n <= LastNeeded(f, offset, len) ==> n !in f.slices
    ensures var end := offset + Wanted(f, offset, len);
      && end == m * SLICE_SIZE && end / SLICE_SIZE == m && end % SLICE_SIZE == 0
      && m == LastNeeded(f, offset, len) + 1
  {
    var last := LastNeeded(f, offset, len);
    NeededRange(f, offset, len);
    ScannedStart(f, offset, len, m);
    MulMonotone(last + 1, m, SLICE_SIZE);
    QuotientUnique(m * SLICE_SIZE, SLICE_SIZE, m, 0);
    if last + 1 < m {
      MulGap(last + 1, m, SLICE_SIZE);
    }
  }

  // ----- an offset in the first slice or on a boundary -----

  lemma AlignedIsRegular(f: File, offset: nat, len: nat)
    requires offset < f.size && 0 < len && ReadsAlike(f, offset, len)
    requires offset < SLICE_SIZE || offset % SLICE_SIZE == 0
    ensures Regular(f, offset, len)
  {
    var start, end, last := NumberOf(offset), EndNumber(f.size, offset, len), LastNeeded(f, offset, len);
    NeededRange(f, offset, len);
    NeededAreEmitted(f, offset, len, last + 1);
    EmittedHasNoSecondGap(f.slices, start, end, last);
  }

  lemma {:induction false} NeededAreEmitted(f: File, offset: nat, len: nat, k: nat)
    requires offset < f.size && 0 < len && ReadsAlike(f, offset, len)
    requires offset < SLICE_SIZE || offset % SLICE_SIZE == 0
    requires NumberOf(offset) <= k <= LastNeeded(f, offset, len) + 1
    ensures var start, end := NumberOf(offset), EndNumber(f.size, offset, len);
      forall n :: start <= n < k ==> Emitted(f.slices, start, end, n)
  {
    var start, end := NumberOf(offset), EndNumber(f.size, offset, len);
    if start < k {
      NeededAreEmitted(f, offset, len, k - 1);
      NeededRange(f, offset, len);
      if !Emitted(f.slices, start, end, k - 1) {
        if m :| k - 1 < m < end && m in f.slices {
          var first := FirstStored(f.slices, k - 1, m);
          SkippedShows(f, offset, len, k - 1, first);
        } else {
          MissingShows(f, offset, len, k - 1);
        }
      }
    }
  }

  lemma {:induction false} FirstStored(slices: map<nat, Slice>, lo: nat, m: nat) returns (first: nat)
    requires lo < m && m in slices
    ensures lo < first <= m && first in slices && forall n :: lo < n < first ==> n !in slices
    decreases m
  {
    if n :| lo < n < m && n in slices {
      first := FirstStored(slices, lo, n);
    } else {
      first := m;
    }
  }

  /** What is read before slice `k` when all slices before it are emitted. */
  lemma ReadBefore(f: File, offset: nat, len: nat, k: nat)
    requires offset < f.size && 0 < len && (offset < SLICE_SIZE || offset % SLICE_SIZE == 0)
    requires Needed(f, offset, len, k) && k < EndNumber(f.size, offset, len)
    requires var start, end := NumberOf(offset), EndNumber(f.size, offset, len);
      forall n :: start <= n < k ==> Emitted(f.slices, start, end, n)
    ensures |Positions(f.slices, f.size, OffsetIn(offset), NumberOf(offset), EndNumber(f.size, offset, len), k)|
         == Max(0, k * SLICE_SIZE - offset) < Wanted(f, offset, len)
  {
    var start, o, end := NumberOf(offset), OffsetIn(offset), EndNumber(f.size, offset, len);
    QuotientRemainder(offset, SLICE_SIZE);
    if offset < SLICE_SIZE {
      QuotientUnique(offset, SLICE_SIZE, 0, offset);
    }
    if start < k {
      InPlaceSoFar(f, start, o, end, k);
      MulGap(start, k, SLICE_SIZE);
      BlockStart(f.size, k);
    } else {
      assert Positions(f.slices, f.size, o, start, end, k) == [];
    }
  }

  /** A needed hole with nothing stored after it ends the read too early. */
  lemma MissingShows(f: File, offset: nat, len: nat, k: nat)
    requires offset < f.size && 0 < len && (offset < SLICE_SIZE || offset % SLICE_SIZE == 0)
    requires Needed(f, offset, len, k) && k < EndNumber(f.size, offset, len)
    requires var start, end := NumberOf(offset), EndNumber(f.size, offset, len);
      && (forall n :: start <= n < k ==> Emitted(f.slices, start, end, n))
      && (forall n :: k <= n < end ==> n !in f.slices)
    ensures !ReadsAlike(f, offset, len)
  {
    var start, o, end := NumberOf(offset), OffsetIn(offset), EndNumber(f.size, offset, len);
    ReadBefore(f, offset, len, k);
    PositionsGrow(f.slices, f.size, o, start, end, k, end);
  }

  /** Holes change neither what the scan has reached nor whether its counter runs ahead. */
  lemma {:induction false} SameOverHoles(slices: map<nat, Slice>, start: nat, k: nat, j: nat)
    requires start <= k <= j && forall n :: k <= n < j ==> n !in slices
    ensures Reached(slices, start, j) == Reached(slices, start, k)
    ensures RunsAhead(slices, start, j) == RunsAhead(slices, start, k)
    decreases j
  {
    if k < j {
      SameOverHoles(slices, start, k, j - 1);
    }
  }

  /** When a hole is stepped over, the other holes up to the next stored slice are not. */
  lemma OnlyOneSkipped(slices: map<nat, Slice>, start: nat, end: nat, k: nat, m: nat)
    requires start <= k < m < end && m in slices && forall n :: k <= n < m ==> n !in slices
    requires !Emitted(slices, start, end, k)
    ensures forall j :: k < j < m ==> Emitted(slices, start, end, j)
    ensures start < k
  {
    assert Counter(slices, start, start) == start;
    forall j | k < j < m ensures Emitted(slices, start, end, j) {
      SameOverHoles(slices, start, k, j);
    }
  }

  /** Behind it everything is read one slice too early. */
  lemma {:induction false} LengthAfterSkip(f: File, start: nat, o: nat, end: nat, k: nat, j: nat)
    requires start < k < j <= f.size / SLICE_SIZE && o < SLICE_SIZE && !Emitted(f.slices, start, end, k)
    requires forall n :: k < n < j ==> Emitted(f.slices, start, end, n)
    ensures |Positions(f.slices, f.size, o, start, end, j)| + k * SLICE_SIZE
         == |Positions(f.slices, f.size, o, start, end, k)| + (j - 1) * SLICE_SIZE
    decreases j
  {
    if j == k + 1 {
      SkippedAddsNothing(f, start, o, end, k);
    } else {
      LengthAfterSkip(f, start, o, end, k, j - 1);
      OneMoreSlice(f, start, o, end, j - 1);
      NextBase(j - 2);
    }
  }

  lemma SkippedAddsNothing(f: File, start: nat, o: nat, end: nat, k: nat)
    requires start < k <= f.size / SLICE_SIZE && !Emitted(f.slices, start, end, k)
    ensures Positions(f.slices, f.size, o, start, end, k + 1) == Positions(f.slices, f.size, o, start, end, k)
  {
    BlockStart(f.size, k);
  }

  lemma SkippedShows(f: File, offset: nat, len: nat, k: nat, m: nat)
    requires offset < f.size && 0 < len && (offset < SLICE_SIZE || offset % SLICE_SIZE == 0)
    requires Needed(f, offset, len, k) && k < m < EndNumber(f.size, offset, len) && m in f.slices
    requires forall n :: k <= n < m ==> n !in f.slices
    requires var start, end := NumberOf(offset), EndNumber(f.size, offset, len);
      (forall n :: start <= n < k ==> Emitted(f.slices, start, end, n)) && !Emitted(f.slices, start, end, k)
    ensures !ReadsAlike(f, offset, len)
  {
    var start, o, end := NumberOf(offset), OffsetIn(offset), EndNumber(f.size, offset, len);
    OnlyOneSkipped(f.slices, start, end, k, m);
    ReadBefore(f, offset, len, k);
    ScannedStart(f, offset, len, m);
    LengthAfterSkip(f, start, o, end, k, m);
    MulGap(start, k, SLICE_SIZE);
    QuotientRemainder(offset, SLICE_SIZE);
    NextBase(m - 1);
    TakenTooEarly(f, offset, len, start, o, end, m);
  }

  lemma TakenTooEarly(f: File, offset: nat, len: nat, start: nat, o: nat, end: nat, m: nat)
    requires offset < f.size && ScanOf(f, offset, len, start, o, end) && start < m < end && m in f.slices
    requires offset <= (m - 1) * SLICE_SIZE < offset + Wanted(f, offset, len)
    requires |Positions(f.slices, f.size, o, start, end, m)| == (m - 1) * SLICE_SIZE - offset
    ensures !ReadsAlike(f, offset, len)
  {
    var i, ps := (m - 1) * SLICE_SIZE - offset, Positions(f.slices, f.size, o, start, end, m);
    var qs := AddedAtEnd(f, start, o, end, m);
    if qs != [] {
      NotAlike(f, m);
      assert ReadPositions(f, offset, len)[i] == (ps + qs)[i] == m * SLICE_SIZE;
    }
  }

  /** What a stored slice adds, and that nothing follows when it is empty. */
  lemma AddedAtEnd(f: File, start: nat, o: nat, end: nat, m: nat) returns (qs: seq<nat>)
    requires start < m < end <= f.size / SLICE_SIZE + 1 && m in f.slices && o < SLICE_SIZE
    ensures var ps := Positions(f.slices, f.size, o, start, end, m);
      var all := Positions(f.slices, f.size, o, start, end, end);
      ps + qs <= all && (if qs == [] then all == ps else qs[0] == m * SLICE_SIZE)
  {
    BlockStart(f.size, m);
    qs := SlicePositions(f.size, o, m);
    LaterSlicePositions(f.size, o, m);
    PositionsGrow(f.slices, f.size, o, start, end, m + 1, end);
    assert Positions(f.slices, f.size, o, start, end, m + 1) == Positions(f.slices, f.size, o, start, end, m) + qs;
    if qs == [] {
      QuotientUnique(f.size, SLICE_SIZE, m, 0);
    }
  }

  lemma NotAlike(f: File, m: nat)
    requires 0 < m && m in f.slices
    ensures !Alike(f, m * SLICE_SIZE, (m - 1) * SLICE_SIZE)
  {
    NextBase(m - 1);
    ByteOfSlice(f, m, 0);
  }
}
