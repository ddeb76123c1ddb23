/** The stored form of a regular file: a sparse map from slice number to a slice of SLICE_SIZE
    bytes, plus a size, and the flat byte sequence this form stands for. */
module SliceStore {
  import opened Common
  import opened Division

  /** Chosen by a cargo feature; every result holds for any positive value. */
  const SLICE_SIZE: pos

  function Zeros(n: nat): (z: seq<u8>)
    ensures |z| == n && forall i :: 0 <= i < n ==> z[i] == 0
  {
    seq(n, _ => 0)
  }

  type Slice = s: seq<u8> | |s| == SLICE_SIZE witness Zeros(SLICE_SIZE)

  /** What one inode bucket holds for a regular file. */
  datatype File = File(mode: bv16, uid: nat, gid: nat, size: nat, slices: map<nat, Slice>)

  /** The database as the data path sees it: one bucket per inode and the free-space
      counter of the super block. Assigning `files` and `diskSize` is the commit. */
  class Db {
    var files: map<nat, File>
    var diskSize: nat

    constructor (files: map<nat, File>, diskSize: nat)
      ensures this.files == files && this.diskSize == diskSize
    {
      this.files, this.diskSize := files, diskSize;
    }
  }

  /** The slice number as the `u32` that goes into the key. */
  function KeyNumber(num: nat): (k: nat)
    ensures num < U32_LIMIT ==> k == num
  {
    num % U32_LIMIT
  }

  /** The slice that a position falls in, and where in it. */
  function NumberOf(p: nat): nat {
    p / SLICE_SIZE
  }

  function OffsetIn(p: nat): (o: nat)
    ensures o < SLICE_SIZE
  {
    p % SLICE_SIZE
  }

  predicate StoredAt(f: File, p: nat) {
    p / SLICE_SIZE in f.slices
  }

  /** The byte at flat position `p`; a hole reads as zero. */
  function Byte(f: File, p: nat): u8 {
    if StoredAt(f, p) then f.slices[p / SLICE_SIZE][p % SLICE_SIZE] else 0
  }

  /** The flat file that the stored form stands for. */
  function Content(f: File): (c: seq<u8>)
    ensures |c| == f.size
    ensures forall p :: 0 <= p < f.size ==> c[p] == Byte(f, p)
  {
    seq(f.size, p requires 0 <= p => Byte(f, p))
  }

  /** No slice lies beyond the one the end of file falls in. */
  ghost predicate SlicesWithinSize(f: File) {
    forall n :: n in f.slices ==> n <= f.size / SLICE_SIZE
  }

  /** Every stored byte at or past the end of file is zero. */
  ghost predicate TailZero(f: File) {
    forall p: nat :: f.size <= p && StoredAt(f, p) ==> Byte(f, p) == 0
  }

  lemma ByteOfSlice(f: File, n: nat, o: nat)
    requires o < SLICE_SIZE
    ensures StoredAt(f, n * SLICE_SIZE + o) <==> n in f.slices
    ensures n in f.slices ==> Byte(f, n * SLICE_SIZE + o) == f.slices[n][o]
  {
    QuotientUnique(n * SLICE_SIZE + o, SLICE_SIZE, n, o);
  }

  lemma NextBase(num: nat)
    ensures (num + 1) * SLICE_SIZE == num * SLICE_SIZE + SLICE_SIZE
  {
  }

  /** Stepping to the end of a slice wraps the offset in it. */
  lemma WrapOffset(o: nat, len: nat)
    requires o + len <= SLICE_SIZE
    ensures (o + len) % SLICE_SIZE == if o + len == SLICE_SIZE then 0 else o + len
  {
    var ends := o + len == SLICE_SIZE;
    QuotientUnique(o + len, SLICE_SIZE, if ends then 1 else 0, if ends then 0 else o + len);
  }
}
