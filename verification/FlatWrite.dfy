/** What dbfs_common_write means for the flat file, and exactly when it is a plain overwrite. */
module FlatWrite {
  import opened Common
  import opened Division
  import opened SliceStore
  import opened SliceWrite

  /** Every position in the written range holds the buffer's byte; every byte stored before and
      outside the range is kept; the only other positions that become stored are in slices the
      write created, and they hold whatever the allocator handed out. */
  lemma WriteAtPosition(f: File, g: File, buf: seq<u8>, offset: nat, alloc: nat -> Slice, p: nat)
    requires IsWrite(f, g, buf, offset, alloc)
    ensures offset <= p < offset + |buf| ==> StoredAt(g, p) && Byte(g, p) == buf[p - offset]
    ensures !(offset <= p < offset + |buf|) && StoredAt(f, p) ==> StoredAt(g, p) && Byte(g, p) == Byte(f, p)
    ensures !(offset <= p < offset + |buf|) && !StoredAt(f, p) ==>
      && (StoredAt(g, p) <==> Touched(offset, |buf|, p / SLICE_SIZE))
      && (StoredAt(g, p) ==> Byte(g, p) == alloc(p / SLICE_SIZE)[p % SLICE_SIZE])
  {
    var n, o := NumberOf(p), OffsetIn(p);
    QuotientRemainder(p, SLICE_SIZE);
    if offset <= p < offset + |buf| {
      RangeIsTouched(offset, |buf|, p);
    }
    MergedAt(f, buf, offset, alloc, n, o, p);
  }

  lemma MergedAt(f: File, buf: seq<u8>, offset: nat, alloc: nat -> Slice, n: nat, o: nat, p: nat)
    requires o < SLICE_SIZE && p == n * SLICE_SIZE + o
    ensures Merged(f, buf, offset, alloc, n)[o]
         == if offset <= p < offset + |buf| then buf[p - offset]
            else if n in f.slices then f.slices[n][o] else alloc(n)[o]
  {
  }

  lemma RangeIsTouched(offset: nat, len: nat, p: nat)
    requires offset <= p < offset + len
    ensures Touched(offset, len, p / SLICE_SIZE)
  {
    QuotientRemainder(p, SLICE_SIZE);
    DivMonotone(offset, p, SLICE_SIZE);
  }

  lemma WriteKeepsBounds(f: File, g: File, buf: seq<u8>, offset: nat, alloc: nat -> Slice)
    requires SlicesWithinSize(f) && IsWrite(f, g, buf, offset, alloc)
    ensures SlicesWithinSize(g)
  {
    forall n | n in g.slices ensures n <= g.size / SLICE_SIZE {
      if n in f.slices {
        DivMonotone(f.size, g.size, SLICE_SIZE);
      } else {
        TouchedWithin(offset, |buf|, g.size, n);
      }
    }
  }

  lemma TouchedWithin(offset: nat, len: nat, size: nat, n: nat)
    requires Touched(offset, len, n) && offset + len <= size
    ensures n <= size / SLICE_SIZE
  {
    if n == offset / SLICE_SIZE {
      DivMonotone(offset, size, SLICE_SIZE);
    } else {
      QuotientUnique(n * SLICE_SIZE, SLICE_SIZE, n, 0);
      DivMonotone(n * SLICE_SIZE, size, SLICE_SIZE);
    }
  }

  /** A flat file after `buf` is written at `offset`: a gap past the old end reads as zero. */
  function Overwrite(c: seq<u8>, offset: nat, buf: seq<u8>): (d: seq<u8>) {
    seq(Max(|c|, offset + |buf|), p requires 0 <= p =>
      if offset <= p < offset + |buf| then buf[p - offset] else if p < |c| then c[p] else 0)
  }

  /** The last slice number that a write puts. */
  function LastTouched(offset: nat, len: nat): nat {
    if len == 0 then offset / SLICE_SIZE else (offset + len - 1) / SLICE_SIZE
  }

  /** The first slice is already stored or is written from its first byte; the last one is already
      stored or is written up to its end or past the end of file; and the gap between the end of file
      and the write reads as zero. */
  ghost predicate EdgesSafe(f: File, offset: nat, len: nat) {
    && (offset / SLICE_SIZE in f.slices || offset % SLICE_SIZE == 0)
    && (LastTouched(offset, len) in f.slices || f.size <= offset + len
        || offset + len == LastTouched(offset, len) * SLICE_SIZE + SLICE_SIZE)
    && (forall p: nat :: f.size <= p < offset ==> Byte(f, p) == 0)
  }

  ghost predicate FlatFor(f: File, g: File, buf: seq<u8>, offset: nat, alloc: nat -> Slice) {
    IsWrite(f, g, buf, offset, alloc) ==> Content(g) == Overwrite(Content(f), offset, buf)
  }

  /** A write is a plain overwrite of the flat file, whatever the allocator returns, if and only if
      its two edge slices and the gap before it are safe. */
  lemma WriteRefinesOverwrite(f: File, buf: seq<u8>, offset: nat)
    ensures (forall alloc: nat -> Slice, g: File :: FlatFor(f, g, buf, offset, alloc)) <==> EdgesSafe(f, offset, |buf|)
  {
    if EdgesSafe(f, offset, |buf|) {
      forall alloc: nat -> Slice, g: File ensures FlatFor(f, g, buf, offset, alloc) {
        if IsWrite(f, g, buf, offset, alloc) {
          SafeWriteIsOverwrite(f, g, buf, offset, alloc);
        }
      }
    } else {
      UnsafeWriteIsNot(f, buf, offset);
    }
  }

  lemma SafeWriteIsOverwrite(f: File, g: File, buf: seq<u8>, offset: nat, alloc: nat -> Slice)
    requires EdgesSafe(f, offset, |buf|) && IsWrite(f, g, buf, offset, alloc)
    ensures Content(g) == Overwrite(Content(f), offset, buf)
  {
    var d := Overwrite(Content(f), offset, buf);
    forall p | 0 <= p < g.size ensures Content(g)[p] == d[p] {
      WriteAtPosition(f, g, buf, offset, alloc, p);
      if !(offset <= p < offset + |buf|) && !StoredAt(f, p) {
        FreshSliceIsCovered(f, offset, |buf|, p);
      }
    }
  }

  lemma FreshSliceIsCovered(f: File, offset: nat, len: nat, p: nat)
    requires EdgesSafe(f, offset, len)
    requires p < Max(f.size, offset + len) && !(offset <= p < offset + len) && !StoredAt(f, p)
    ensures !Touched(offset, len, p / SLICE_SIZE)
  {
    if Touched(offset, len, p / SLICE_SIZE) {
      if p < offset {
        FirstIsCovered(f, offset, len, p);
      } else {
        LastIsCovered(f, offset, len, p);
      }
      assert false;
    }
  }

  lemma FirstIsCovered(f: File, offset: nat, len: nat, p: nat)
    requires offset / SLICE_SIZE in f.slices || offset % SLICE_SIZE == 0
    requires p < offset && Touched(offset, len, p / SLICE_SIZE)
    ensures StoredAt(f, p)
  {
    TouchedBeforeStart(offset, len, p);
  }

  lemma LastIsCovered(f: File, offset: nat, len: nat, p: nat)
    requires EdgesSafe(f, offset, len)
    requires offset + len <= p < f.size && Touched(offset, len, p / SLICE_SIZE)
    ensures StoredAt(f, p)
  {
    LastSliceOf(offset, len, p);
    LastEnd(offset, len, p);
  }

  /** A touched position before the range lies in the first slice, which does not start with the range. */
  lemma TouchedBeforeStart(offset: nat, len: nat, p: nat)
    requires p < offset && Touched(offset, len, p / SLICE_SIZE)
    ensures p / SLICE_SIZE == offset / SLICE_SIZE && offset % SLICE_SIZE != 0
  {
    DivMonotone(p, offset, SLICE_SIZE);
    QuotientRemainder(p, SLICE_SIZE);
    QuotientRemainder(offset, SLICE_SIZE);
  }

  lemma LastEnd(offset: nat, len: nat, p: nat)
    requires p / SLICE_SIZE == LastTouched(offset, len)
    ensures p < (LastTouched(offset, len) + 1) * SLICE_SIZE
  {
    QuotientRemainder(p, SLICE_SIZE);
    NextBase(p / SLICE_SIZE);
  }

  lemma TouchedStartsBefore(offset: nat, len: nat, n: nat)
    requires Touched(offset, len, n) && 0 < len
    ensures n * SLICE_SIZE < offset + len
  {
    QuotientRemainder(offset, SLICE_SIZE);
  }

  lemma LastSliceOf(offset: nat, len: nat, p: nat)
    requires offset + len <= p && Touched(offset, len, p / SLICE_SIZE)
    ensures p / SLICE_SIZE == LastTouched(offset, len)
  {
    var n := p / SLICE_SIZE;
    if len == 0 {
      QuotientRemainder(offset, SLICE_SIZE);
      if offset / SLICE_SIZE < n {
        MulGap(offset / SLICE_SIZE, n, SLICE_SIZE);
      }
    } else {
      TouchedStartsBefore(offset, len, n);
      InBlock(p, SLICE_SIZE, n);
      InBlock(offset + len - 1, SLICE_SIZE, n);
    }
  }

  /** When an edge is unsafe, an allocator that hands out ones exposes a byte that should be zero. */
  lemma UnsafeWriteIsNot(f: File, buf: seq<u8>, offset: nat)
    requires !EdgesSafe(f, offset, |buf|)
    ensures exists alloc: nat -> Slice, g: File :: !FlatFor(f, g, buf, offset, alloc)
  {
    var ones: Slice := seq(SLICE_SIZE, _ => 1 as u8);
    var alloc: nat -> Slice := _ => ones;
    var g := WrittenBy(f, buf, offset, alloc);
    OnesAreExposed(f, g, buf, offset, alloc);
  }

  lemma OnesAreExposed(f: File, g: File, buf: seq<u8>, offset: nat, alloc: nat -> Slice)
    requires !EdgesSafe(f, offset, |buf|) && IsWrite(f, g, buf, offset, alloc)
    requires forall n: nat, i :: 0 <= i < SLICE_SIZE ==> alloc(n)[i] == 1
    ensures !FlatFor(f, g, buf, offset, alloc)
  {
    var p := ExposedPosition(f, buf, offset);
    WriteAtPosition(f, g, buf, offset, alloc, p);
    assert Byte(g, p) != 0;
    FlatZero(f, buf, offset, p);
    assert Content(g)[p] == Byte(g, p);
  }

  /** Outside the range, a position that is past the end or not stored reads as zero in the flat file. */
  lemma FlatZero(f: File, buf: seq<u8>, offset: nat, p: nat)
    requires p < Max(f.size, offset + |buf|) && !(offset <= p < offset + |buf|) && (f.size <= p || !StoredAt(f, p))
    ensures Overwrite(Content(f), offset, buf)[p] == 0
  {
  }

  function WrittenBy(f: File, buf: seq<u8>, offset: nat, alloc: nat -> Slice): (g: File)
    ensures IsWrite(f, g, buf, offset, alloc)
  {
    var touched := set n | offset / SLICE_SIZE <= n <= offset + |buf| && Touched(offset, |buf|, n);
    assert forall n: nat :: Touched(offset, |buf|, n) ==> n in touched by {
      forall n: nat | Touched(offset, |buf|, n) ensures n in touched {
        TouchedBelow(offset, |buf|, n);
      }
    }
    f.(size := Max(f.size, offset + |buf|),
       slices := map n | n in f.slices.Keys + touched ::
         if Touched(offset, |buf|, n) then Merged(f, buf, offset, alloc, n) else f.slices[n])
  }

  lemma TouchedBelow(offset: nat, len: nat, n: nat)
    requires Touched(offset, len, n)
    ensures n <= offset + len
  {
    QuotientRemainder(offset, SLICE_SIZE);
    MulMonotone(1, SLICE_SIZE, n);
    MulMonotone(1, SLICE_SIZE, offset / SLICE_SIZE);
  }

  /** A position below the new size, outside the range, that a write with ones around it spoils. */
  lemma ExposedPosition(f: File, buf: seq<u8>, offset: nat) returns (p: nat)
    requires !EdgesSafe(f, offset, |buf|)
    ensures p < Max(f.size, offset + |buf|) && !(offset <= p < offset + |buf|)
    ensures (f.size <= p && StoredAt(f, p) && Byte(f, p) != 0)
         || (!StoredAt(f, p) && Touched(offset, |buf|, p / SLICE_SIZE))
  {
    QuotientRemainder(offset, SLICE_SIZE);
    if !(offset / SLICE_SIZE in f.slices || offset % SLICE_SIZE == 0) {
      p := offset - 1;
      InBlock(p, SLICE_SIZE, offset / SLICE_SIZE);
    } else if !(forall p: nat :: f.size <= p < offset ==> Byte(f, p) == 0) {
      p :| f.size <= p < offset && Byte(f, p) != 0;
    } else {
      p := offset + |buf|;
      LastTouchedEnd(offset, |buf|);
    }
  }

  lemma LastTouchedEnd(offset: nat, len: nat)
    requires offset + len != LastTouched(offset, len) * SLICE_SIZE + SLICE_SIZE
    ensures (offset + len) / SLICE_SIZE == LastTouched(offset, len)
    ensures Touched(offset, len, LastTouched(offset, len))
  {
    if len > 0 {
      QuotientRemainder(offset + len - 1, SLICE_SIZE);
      DivMonotone(offset, offset + len - 1, SLICE_SIZE);
      InBlock(offset + len, SLICE_SIZE, LastTouched(offset, len));
    }
  }
}
