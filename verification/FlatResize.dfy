/** What dbfs_common_truncate means for the flat file, alone and in runs with writes. */
module FlatResize {
  import opened Common
  import opened Division
  import opened SliceStore
  import opened SliceWrite
  import opened SliceResize
  import opened FlatWrite

  /** Below the new size every position is kept, stored or not; at or above it nothing but zeros stays. */
  lemma ResizeAtPosition(f: File, g: File, size: nat, p: nat)
    requires SlicesWithinSize(f) && IsResize(f, g, size)
    ensures p < size ==> (StoredAt(g, p) <==> StoredAt(f, p)) && Byte(g, p) == Byte(f, p)
    ensures size <= p && StoredAt(g, p) ==> Byte(g, p) == 0
  {
    var n, start, last := p / SLICE_SIZE, size / SLICE_SIZE, f.size / SLICE_SIZE;
    if p < size {
      DivMonotone(p, size, SLICE_SIZE);
      SameBlockOffsets(p, size);
    } else {
      DivMonotone(size, p, SLICE_SIZE);
      SameBlockOffsets(size, p);
    }
  }

  lemma SameBlockOffsets(p: nat, q: nat)
    requires p <= q
    ensures p / SLICE_SIZE == q / SLICE_SIZE ==> p % SLICE_SIZE <= q % SLICE_SIZE
    ensures p / SLICE_SIZE == q / SLICE_SIZE && p < q ==> p % SLICE_SIZE < q % SLICE_SIZE
  {
    QuotientRemainder(p, SLICE_SIZE);
    QuotientRemainder(q, SLICE_SIZE);
  }

  lemma ResizeKeepsBounds(f: File, g: File, size: nat)
    requires SlicesWithinSize(f) && IsResize(f, g, size)
    ensures SlicesWithinSize(g) && TailZero(g)
  {
    forall p: nat | g.size <= p && StoredAt(g, p) ensures Byte(g, p) == 0 {
      ResizeAtPosition(f, g, size, p);
    }
  }

  /** A flat file cut or extended with zeros to `size` bytes. */
  function Resized(c: seq<u8>, size: nat): (d: seq<u8>) {
    if size <= |c| then c[..size] else c + Zeros(size - |c|)
  }

  /** A resize is the flat resize exactly when the bytes it brings into view are zero; so every
      shrink is, and a growth is not when a write has left allocator bytes past the end of file. */
  lemma ResizeRefinesFlat(f: File, g: File, size: nat)
    requires SlicesWithinSize(f) && IsResize(f, g, size)
    ensures Content(g) == Resized(Content(f), size) <==> forall p: nat :: f.size <= p < size ==> Byte(f, p) == 0
  {
    var c, d := Content(g), Resized(Content(f), size);
    forall p: nat | p < size ensures c[p] == Byte(f, p) && d[p] == if p < f.size then Byte(f, p) else 0 {
      ResizeAtPosition(f, g, size, p);
    }
    if c == d {
      forall p: nat | f.size <= p < size ensures Byte(f, p) == 0 {
        assert c[p] == d[p];
      }
    }
  }

  /** Cutting a file and growing it back brings nothing back: the regained range reads as zeros. */
  lemma ShrinkThenGrow(f: File, g: File, h: File, low: nat, high: nat)
    requires SlicesWithinSize(f) && IsResize(f, g, low) && IsResize(g, h, high)
    requires low <= f.size && low <= high
    ensures Content(h) == Content(f)[..low] + Zeros(high - low)
  {
    ResizeKeepsBounds(f, g, low);
    ResizeRefinesFlat(f, g, low);
    forall p: nat | low <= p < high ensures Byte(g, p) == 0 {
      if StoredAt(g, p) {
        ResizeAtPosition(f, g, low, p);
      }
    }
    ResizeRefinesFlat(g, h, high);
  }

  /** One byte written to an empty file leaves an unzeroed tail, and growing the file by truncate
      shows it. */
  lemma GrowthCanExposeAllocatorBytes(f: File, g: File, h: File, ones: Slice)
    requires f.size == 0 && f.slices == map[] && SLICE_SIZE > 1
    requires ones == seq(SLICE_SIZE, _ => 1 as u8)
    requires IsWrite(f, g, [7], 0, _ => ones) && IsResize(g, h, 2)
    ensures Content(g) == [7] && Content(h) == [7, 1] && Content(h) != Resized(Content(g), 2)
  {
    var alloc: nat -> Slice := _ => ones;
    WriteAtPosition(f, g, [7], 0, alloc, 0);
    WriteKeepsBounds(f, g, [7], 0, alloc);
    QuotientUnique(1, SLICE_SIZE, 0, 1);
    WriteAtPosition(f, g, [7], 0, alloc, 1);
    ResizeAtPosition(g, h, 2, 0);
    ResizeAtPosition(g, h, 2, 1);
  }

  /** What may happen to one file between its creation and now. */
  datatype FileOp =
    | WriteOp(buf: seq<u8>, offset: nat, alloc: nat -> Slice)
    | TruncateOp(size: nat)
    | ExtendOp(end: nat)

  ghost predicate FileStep(f: File, op: FileOp, g: File) {
    match op
    case WriteOp(buf, offset, alloc) => IsWrite(f, g, buf, offset, alloc)
    case TruncateOp(size) => IsResize(f, g, size)
    case ExtendOp(end) => g == f.(size := Max(f.size, end))
  }

  ghost predicate FileRun(states: seq<File>, ops: seq<FileOp>) {
    && |states| == |ops| + 1
    && states[0].size == 0 && states[0].slices == map[]
    && forall i :: 0 <= i < |ops| ==> FileStep(states[i], ops[i], states[i + 1])
  }

  /** Every slice map a run can produce stays within the file's size, so the resize results above
      hold in every reachable state, and right after a truncate the tail is zero. */
  lemma {:induction false} RunKeepsBounds(states: seq<File>, ops: seq<FileOp>, k: nat)
    requires FileRun(states, ops) && k <= |ops|
    ensures SlicesWithinSize(states[k])
    ensures k > 0 && ops[k - 1].TruncateOp? ==> TailZero(states[k])
  {
    if k > 0 {
      RunKeepsBounds(states, ops, k - 1);
      var f, g := states[k - 1], states[k];
      assert FileStep(f, ops[k - 1], g);
      match ops[k - 1]
      case WriteOp(buf, offset, alloc) => WriteKeepsBounds(f, g, buf, offset, alloc);
      case TruncateOp(size) => ResizeKeepsBounds(f, g, size);
      case ExtendOp(end) => DivMonotone(f.size, g.size, SLICE_SIZE);
    }
  }
}
