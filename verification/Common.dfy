/** Vocabulary shared by every component: bytes, optional values and the error codes of src/common.rs. */
module Common {

  /** A byte as bits: file data and what is checksummed. */
  type u8 = bv8

  /** A byte as a number: keys and length prefixes, where the code does arithmetic on bytes. */
  newtype byte = n: int | 0 <= n < 0x100

  type pos = n: nat | 0 < n witness 1

  /** One past the largest value of a 32-bit unsigned integer. */
  const U32_LIMIT: nat := 0x1_0000_0000

  /** The number of the root inode, in both inode tables. */
  const ROOT: nat := 1

  datatype Option<+T> = None | Some(value: T)

  /** The error codes that the modelled operations return. Panic stands for a failed `unwrap`,
      an out-of-range slice or an arithmetic underflow: the call never returns, and an open
      database transaction is dropped. */
  datatype DbfsError =
    | NotFound
    | AccessError
    | FileExists
    | NoSpace
    | NotEmpty
    | NotDir
    | Io
    | NoData
    | Panic

  datatype Result<+T> = Ok(value: T) | Err(error: DbfsError)

  function Min(a: int, b: int): int {
    if a < b then a else b
  }

  function Max(a: int, b: int): int {
    if a < b then b else a
  }

  /** The first `k` elements, or all when there are fewer. */
  function Take<T>(s: seq<T>, k: nat): (t: seq<T>)
    ensures |t| == Min(k, |s|) && t <= s
  {
    s[..Min(k, |s|)]
  }

  /** The lowest byte of a number. */
  function ByteOf(n: nat): (b: byte)
    ensures b as nat == n % 0x100
  {
    (n % 0x100) as byte
  }

  /** `usize::saturating_sub`. */
  function SaturatingSub(a: nat, b: nat): nat {
    if a < b then 0 else a - b
  }

  /** `copy_from_slice` into part of the caller's buffer. */
  method CopyInto(buf: array<u8>, at: nat, src: seq<u8>)
    requires at + |src| <= buf.Length
    modifies buf
    ensures buf[..] == old(buf[..])[..at] + src + old(buf[..])[at + |src|..]
  {
    forall i | at <= i < at + |src| {
      buf[i] := src[i - at];
    }
  }

  lemma Associate<T>(a: seq<T>, b: seq<T>, d: seq<T>)
    ensures a + (b + d) == a + b + d
  {
  }
}
