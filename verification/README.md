# DBFS, modelled and verified in Dafny

DBFS stores a file system in a key-value database: files as slices or as extents of an append-only log,
directories as `data:` keys, and pending operations in a write-ahead log. This project models four of its
components and proves what they keep. A database transaction commits whole or not at all, and `SLICE_SIZE` is
an arbitrary positive constant, because a build feature chooses it.

**A. Sliced files** (`SliceStore`, `SliceWrite`, `FlatWrite`, `SliceResize`, `FlatResize`, `SpaceAccounting`,
`FuseRead`, `SliceKeys`, `RangeRead`, `ExactRead`, `ExactBytes`). The write, truncate, fallocate and read loops are
methods over the slice map. The lemmas say exactly when each is the plain operation on a flat byte sequence.

**B. Namespace** (`Access`, `Decimal`, `Namespace`, `MetaStore`, `TreeInvariant`, `TreeGrowth`, `TreeMoves`,
`TreeRuns`, `TreeAnswers`, `TreeEffects`). `MetaStore` runs create, link, unlink, rmdir and rename on buckets whose
entries hold decimal numbers; `Namespace` says what each does to the tree, with every error. `TreeInvariant` is what a
good tree is; `TreeGrowth` and `TreeMoves` prove, without permission bits in the way, exactly which changes keep it;
`TreeRuns` brings that back to the calls. `TreeAnswers` and `TreeEffects` say when each call succeeds in a good tree,
and what it does to every lookup and count, on entries and on the bits of a mode.

**C. Extent log engine** (`Crc32`, `Folds`, `PolynomialDivision`, `CrcDivision`, `Extents`, `LogManager`,
`ExtentEngine`, `ImmutableData`, `ExtentSizes`, `VfsAdapter`, `AdapterCalls`, `DanglingEntries`). Data is appended
before its extent is committed. A call takes, as parameters, the device faults that it meets and how many of its
transactions commit.

**D. Write-ahead log and transactions** (`FrameLog`, `Wal`, `WalRecovery`, `Operations`, `StoreCalls`, `Transactions`,
`CrashSafety`, `Durability`, `Isolation`). `StoreCalls` says what reads and lookups return after the logged
operations. Serialisation is a pair of functions that undo each other; where it is said, one whose encodings hold no
zero byte, as JSON text does (`WalRecovery.Textual`). `Durability` is a state machine over the bytes of the log,
`Isolation` one over the steps of threads.

## Where the code falls short of its intent

Each of these is a lemma; where the intent can be met at all, the exact condition is proved.

- A write exposes allocator bytes when it creates a slice that it does not fill (`FlatWrite.WriteRefinesOverwrite`,
  `FlatWrite.UnsafeWriteIsNot`); a later growing truncate shows them (`FlatResize.GrowthCanExposeAllocatorBytes`).
- The range-scan reader loses bytes when the offset is neither in the first slice nor on a slice boundary, at a second
  gap, and at a trailing hole (`ExactBytes.BytesAreContentIff`, `ExactRead.ReadIsExactIffRegular`,
  `ExactRead.SecondGapLosesASlice`). It gets away with an unaligned offset exactly when the range is all holes up to
  its end and a stored slice begins there: the wrong positions then read as zero too. Its counter falls back into step
  at a later gap of one slice, so not every second gap is lost by the same amount.
- The hole-aware reader of src/fuse/file.rs underflows when a request from a positive offset reaches past the end of
  the file. Built with overflow checks it panics there, and exactly there; the release build, which the Makefile runs,
  wraps and goes on over zeros (`FuseRead.SpecialRead`).
- Fallocate with the keep-size flag books space that nothing gives back (`SpaceAccounting.KeepSizeLosesSpace`).
- Every symbolic link passes the character-device test, so it is created with size 0 (`Namespace.SymlinkIsSpecial`).
  Sockets and block devices pass for directories (`TreeRuns.BlockDeviceBreaksTheTree`).
- Rename sees an existing target only in a sticky directory, panics when it is a file, and on exchange sets `.` where
  `..` is meant (`TreeRuns.MoveKeepsIff`, `TreeRuns.ExchangeKeepsIff`). A sticky directory's empty subdirectory
  renamed onto itself is an error.
- `read_file` returns old bytes after an overwrite (`Extents.ReadYourWrite`, `Extents.OverwriteIsNotRead`).
- A crash inside `rename_to` can lead to a dangling entry (`DanglingEntries.CutRenameDangles`), so can moving `.` and
  `..` (`DanglingEntries.MovedDotsDangle`), and renaming an entry onto itself deletes it
  (`DanglingEntries.RenameOntoItselfDropsTheEntry`). Exactly which renames are harmless is
  `DanglingEntries.StepKeepsIff`.
- set_attr can lower a size without trimming extents, so that a later truncate leaves positions past the size mapped
  (`ImmutableData.StepKeepsSizesIff`, `ImmutableData.CutStaysCut`).
- Reads and writes of src/rvfs2/common.rs ignore where in its block an offset is: a read returns the start of what was
  last written anywhere in that block (`StoreCalls.ReadAfterWrite`, `StoreCalls.ReadAfterRun`), and a truncate keeps
  the block that it ends in whole (`StoreCalls.ReadAfterTruncate`).
- An exchange succeeds in a sticky directory only (`TreeAnswers.ExchangeSucceedsIff`), and an unlink does not ask
  whether its entry names the inode that it was given (`TreeAnswers.UnlinkSucceedsIff`).
- The number of bytes that a device write or read reports is not looked at. A short write is committed as a whole one
  (`ImmutableData.WriteChangesOnlyItsRange`); after a short read `read_file` counts zeros as data, and `read_from_log`
  what was in the buffer (`ExtentEngine.Seen`, `ExtentEngine.SeenIsFollowed`).
- `recover` goes on four bytes past a torn frame's start, and the next append is read through the torn prefix
  (`WalRecovery.AppendSurvivesCutIff`, `WalRecovery.TextAppendSurvivesCutIff`). So a power failure during an append
  can lose a later write that was flushed (`Durability.TearLosesWrite`, `Durability.RunLosesNothingIff`), and the log
  stays like that over crashes while less is appended than the prefix announces (`Durability.CrashStaysTorn`).
  `recover` also stops at frames over 1 MiB (`CrashSafety.FlushedSurvivesIffFits`); and without a commit marker a cut
  leaves part of a transaction (`CrashSafety.CutAppendAppliesPrefix`).
- The inode counter lives in memory and is stored at a sync only, so a restart can hand out numbers that are in use: a
  flushed creation survives a power failure before it is applied if and only if the stored number is free
  (`CrashSafety.FlushedOperationSurvivesIff`, `CrashSafety.SecondCreationIsLost`).
- Replay does not empty the log and stops at the first operation that fails. Over a creation that was applied it finds
  the name taken and stops there (`Operations.CreationsAreNotAbsorbed`), having put older data back over newer
  (`Operations.ReplayPutsOldDataBack`); a failed operation stays in the log, and hides what is flushed behind it
  (`Durability.FlushedIsReachedIff`, `Durability.BlockedStays`, `Durability.UnsettledLoses`).
- A commit whose apply fails is seen in part (`Isolation.FailedCommitIsSeenInPart`), and so is a replay, which takes
  no write guard (`Isolation.ReplayIsSeenInPart`).
- Creating a file with a permission that names no kind panics after the commit (`MetaStore.MetaStore.Create`).
- A test in src/dbfs_test.rs expects a non-empty log after a commit; the code empties it, and so does the model.
- src/operation.rs calls `crate::common::dbfs_*`, and src/transaction.rs has a stray brace at line 51; the model takes
  the functions of src/rvfs2/common.rs and the evident nesting.

## Model

| member | source | states |
|---|---|---|
| Access.CheckoutAccess | src/inode.rs:506-539 | root may read and write anything and may execute what anyone may execute; others need every requested bit in the class (owner, group, other) that they fall in |
| Access.RootAccess | src/inode.rs:520-527 | the subtraction of granted bits leaves nothing exactly when no execution is asked for or some class may execute |
| Access.RequestsAreBitwise | src/inode.rs:506-539 | a request for several things is granted if and only if each of them is |
| Access.GrantedIff | src/inode.rs:528-538 | reading, writing and executing are granted to the owner exactly by the octal bits 0400, 0200, 0100 of the mode, to the group by 0040, 0020, 0010, and to others by 0004, 0002, 0001 |
| Access.RootGrantedIff | src/inode.rs:520-527 | root is refused exactly what asks for execution of what nobody may execute |
| Access.ClearedBits | src/attr.rs:269-275 | what losing the set-id bits leaves, bit by bit |
| SliceWrite.PutSlices | src/file.rs:216-273 | the write loop terminates and leaves each touched slice merged from the stored (or freshly allocated) slice and the buffer, and every other slice alone |
| SliceWrite.Write | src/file.rs:199-291 | the whole write: error for an unknown inode, otherwise the slice map and size are those of the write, other files unchanged |
| FlatWrite.WriteAtPosition | src/file.rs:199-291 | after a write every position in the range holds the buffer's byte, every stored byte outside is kept, and newly stored positions hold allocator bytes |
| FlatWrite.WriteKeepsBounds | src/file.rs:199-291 | every stored slice number stays at most size divided by the slice size |
| FlatWrite.WriteRefinesOverwrite | src/file.rs:199-291 | for all allocators the write is the flat overwrite if and only if its edge slices are stored or filled and the gap before it reads as zero |
| FlatWrite.SafeWriteIsOverwrite | src/file.rs:234-245 | with safe edges the flat content is the old one with the buffer laid over it |
| FlatWrite.UnsafeWriteIsNot | src/file.rs:234-245 | with an unsafe edge some allocator makes the content differ from the flat overwrite |
| SliceResize.FreeBlocks | src/inode.rs:740-768 | the loop removes every slice above the last kept one and zeroes the tail of the last |
| SliceResize.Truncate | src/inode.rs:702-784 | permission, space check, new size, cleared set-id bits, freed slices and the disk counter, with each error leaving everything as it was |
| SliceResize.Fallocate | src/inode.rs:845-902 | permission, space check, the new size unless it is to be kept, and the disk counter |
| SliceResize.KeepsSizeIffOdd | src/inode.rs:891-892 | the size is kept for odd mode words and for no others |
| SliceResize.SpaceIsAskedForIff | src/inode.rs:872-889 | space is asked for exactly when a file grows over the beginning of a slice; the call is refused exactly when the counter is below the growth, and takes all of it otherwise |
| SliceResize.SpaceIsGivenBack | src/inode.rs:739-768 | any other truncate gives back one slice for each that begins behind the new size and at or before the old one |
| FlatResize.ResizeAtPosition | src/inode.rs:719-768 | truncation keeps exactly the bytes below the new size and leaves every stored position at or above it zero |
| FlatResize.ResizeKeepsBounds | src/inode.rs:719-768 | truncation leaves no slice beyond the size and a zero tail |
| FlatResize.ResizeRefinesFlat | src/inode.rs:719-768 | truncation is the flat resize if and only if the bytes it brings into view are zero |
| FlatResize.ShrinkThenGrow | src/inode.rs:719-768 | cutting a file and growing it back exposes only zeros |
| FlatResize.GrowthCanExposeAllocatorBytes | src/file.rs:234-245 | one byte written to an empty file leaves allocator bytes that a growing truncate shows |
| FlatResize.RunKeepsBounds | src/inode.rs:719-768 | every slice map that writes, truncates and fallocates can produce stays within the file's size |
| SpaceAccounting.ResizeIsSpaceStep | src/inode.rs:719-768 | a truncate of the model is the space step that the bound is about |
| SpaceAccounting.FallocateIsSpaceStep | src/inode.rs:872-899 | a fallocate of the model is the space step that the bound is about |
| SpaceAccounting.SpaceDriftBound | src/inode.rs:719-768 | over any run of truncates and fallocates, free space plus file sizes plus what keep-size fallocates took moves by at most (slice size - 1) for each operation that neither grows into a higher slice nor keeps the size; the counter is never negative, because an operation that would take more is refused |
| SpaceAccounting.SpaceDriftAttained | src/inode.rs:719-738 | truncates attain the bound |
| SpaceAccounting.KeepSizeLosesSpace | src/inode.rs:872-899 | a keep-size fallocate that reaches a higher slice takes the whole distance from the old size to the end out of the sum |
| FuseRead.SpecialRead | src/fuse/file.rs:30-108 | for any pattern of missing slices the pieces concatenate to the flat content from the offset, then zeros up to the requested size; with overflow checks it panics exactly when a positive offset reaches past the end, without them it goes on over zeros; the loops terminate |
| FuseRead.PieceIsContent | src/fuse/file.rs:60-80 | a stored slice's part, or zeros for a hole, is the flat content there |
| SliceKeys.Be32RoundTrip | src/common.rs:315-319 | four big-endian bytes decode to the number that they encode |
| SliceKeys.KeyRoundTrip | src/file.rs:150-151 | splitting a slice key at its colon gives back the slice number |
| SliceKeys.KeyOrder | src/common.rs:315-319 | slice keys sort as bytes exactly as their numbers sort |
| SliceKeys.KeyBytes | src/common.rs:315-319 | a key is the characters `zdata:` and then the number, highest byte first |
| RangeRead.ScanFollowsByteOrder | src/file.rs:135-151 | the keys of a range, in byte order, are those of its stored slices in numeric order |
| RangeRead.Read | src/file.rs:74-186 | the reader copies the bytes at exactly the positions that its counters lead it to, and no more than the buffer holds |
| RangeRead.ScanInto | src/file.rs:120-186 | the scan loop fills the buffer from those positions in order |
| ExactRead.ReadIsExactIffRegular | src/file.rs:119-186 | the read takes the wanted positions in order if and only if the offset is in the first slice or on a boundary, no second gap starts among the needed slices, and each needed hole is followed by a stored slice |
| ExactRead.RegularReadIsContent | src/file.rs:74-186 | then it returns exactly the first min(buffer, size - offset) bytes of the flat content |
| ExactBytes.BytesAreContentIff | src/file.rs:74-186 | whatever the stored slices hold, the bytes returned are the flat content if and only if the slices are regular, or the range is a row of holes that ends in the file where a stored slice begins |
| ExactBytes.ReadsAlikeIff | src/file.rs:119-186 | the same condition decides whether each byte comes from its own position or, like it, from a hole |
| ExactRead.SecondGapLosesASlice | src/file.rs:166-178 | a file of four slices with two gaps: the bytes that are returned are three of them, the last in the wrong place |
| ExactRead.CopyFileRange | src/file.rs:450-484 | the copy writes what the reader returns, with the reader's errors |
| ExactRead.RegularCopyIsContent | src/file.rs:450-484 | for a regular source the bytes copied are its flat content |
| Crc32.Compute | src/log_manager.rs:49-62 | the bitwise loops compute the checksum |
| Crc32.ChecksumIsRfc1952 | src/log_manager.rs:49-62 | the checksum is the table-driven one of section 8 of RFC 1952 |
| CrcDivision.ChecksumIsDivision | src/log_manager.rs:49-62 | the checksum of any data is the remainder of dividing its bits, by long division, by the generator with the exponents 32, 26, 23, 22, 16, 12, 11, 10, 8, 7, 5, 4, 2, 1 and 0 |
| CrcDivision.CoefficientsDetermine | src/log_manager.rs:49-62 | that remainder determines the checksum |
| CrcDivision.TableEntryIsRemainder | src/log_manager.rs:49-62 | each entry of the table of RFC 1952 is the remainder of its number |
| CrcDivision.CheckValue | src/log_manager.rs:49-62 | the checksum of the digits 1 to 9 is 0xCBF43926 |
| Crc32.DetectsDamage | src/log_manager.rs:49-62 | two strings of one length that differ only within four consecutive bytes have different checksums |
| Extents.ReadsLatestIffNothingMissed | src/tx_engine.rs:71-96 | read_file takes every wanted byte from the last extent that covers it if and only if no extent that comes after one covering the last wanted position covers a wanted position |
| Extents.AscendingReadsAll | src/tx_engine.rs:71-96 | for ascending extents nothing is missed, so every byte is the latest |
| Extents.ReadYourWrite | src/tx_engine.rs:17-99 | a range written last is read back from its own extent if and only if its last byte was not mapped before |
| Extents.OverwriteIsNotRead | src/tx_engine.rs:74-76 | overwriting a range and reading it returns the old extent's bytes |
| Extents.FollowedIsMapped | src/tx_engine.rs:259-295 | read_from_log takes each byte from an extent that covers it and stops only at a full buffer, the file's end or a hole |
| Extents.FollowedIsFlat | src/tx_engine.rs:259-295 | for disjoint extents in any order it reads the flat content up to the first hole |
| Extents.TrimKeepsBelow | src/tx_engine.rs:229-248 | truncation keeps the mapping of every position below the new size and maps none above |
| Extents.TrimmedComesFrom | src/tx_engine.rs:233-246 | every kept extent is an old one with the same start, place and checksum, no longer, and ends within the size |
| LogManager.LogManager.AppendData | src/log_manager.rs:23-36 | a successful append writes at the end and advances it; a failed one leaves junk there and does not advance; one that lands short advances all the same |
| LogManager.LogManager.ReadData | src/log_manager.rs:43-45 | a read that is not refused leaves the device's bytes in the buffer, as many as it got to, and reports success |
| ExtentEngine.TransactionEngine.WriteFileTransactional | src/tx_engine.rs:17-53 | the append comes first; the extent becomes visible only if the inode exists and the transaction commits |
| ExtentEngine.TransactionEngine.ReadFile | src/tx_engine.rs:56-99 | each byte that it stores comes from the last covering extent among those scanned before the end of the request is reached, or is zero where that extent's device read stopped short; the count is how far they reach; a device error leaves what the extents before the failing one gave |
| ExtentEngine.GatherStep | src/tx_engine.rs:82-95 | copying one more extent's overlap is taking one more extent into account at every position |
| ExtentEngine.CompleteReadsGather | src/tx_engine.rs:82-95 | when no device read stops short, what is gathered is the byte of the last extent that covers the position |
| ExtentEngine.SeenIsFollowed | src/tx_engine.rs:270-286 | the positions that the buffer is filled from are the followed ones, as far as the device reads got, and all of them when none stops short |
| ExtentEngine.TransactionEngine.ReadFromLog | src/tx_engine.rs:259-295 | fills the buffer from the followed positions, leaves what a device read did not reach and the rest, and terminates because every turn follows at least one byte; a device error leaves what was read before it |
| ExtentEngine.TransactionEngine.TruncateFile | src/tx_engine.rs:221-256 | only shrinking trims the extents; the size is set either way; an uncommitted one changes nothing |
| ExtentEngine.TransactionEngine.Trim | src/tx_engine.rs:232-246 | the loop keeps, shortens or drops each extent in order |
| ExtentEngine.TransactionEngine.AllocateInode | src/tx_engine.rs:102-130 | gives out the number after the highest in the table, at least 2, and stores fresh metadata under it |
| ExtentEngine.NextNumber | src/tx_engine.rs:106-114 | that number is above every number in use |
| ExtentEngine.TransactionEngine.AddDentry | src/tx_engine.rs:133-142 | creates the bucket if need be and replaces an entry of that name |
| ExtentEngine.TransactionEngine.LookupDentry | src/tx_engine.rs:145-154 | the entry's number, or not found |
| ExtentEngine.TransactionEngine.ListDentries | src/tx_engine.rs:157-173 | the entry at an index of the cursor's order; none at index 0 exactly when the directory has no entries |
| ExtentEngine.TransactionEngine.DeleteDentry | src/tx_engine.rs:176-185 | drops one entry, with the errors for a missing bucket or name |
| ExtentEngine.TransactionEngine.DeleteInode | src/tx_engine.rs:188-199 | drops the inode and its directory bucket together |
| ExtentEngine.TransactionEngine.UpdateMetadata | src/tx_engine.rs:202-210 | stores metadata under its own number |
| ExtentEngine.TransactionEngine.GetMetadata | src/tx_engine.rs:213-218 | the stored metadata, or not found |
| ImmutableData.RunKeepsInv | src/tx_engine.rs:17-53 | every run keeps what landed of the appended records on the device, extents backed by records, and extents pairwise apart |
| ImmutableData.CommittedRangesAreDisjoint | src/tx_engine.rs:17-53 | after any run the log ranges of two extents of any files share no byte and lie below the append position |
| ImmutableData.BytesBelowStay | src/log_manager.rs:23-36 | no call changes a byte below the append position |
| ImmutableData.CommittedDataIsImmutable | src/tx_engine.rs:17-53 | what any reader takes from a committed file's extents is the same after any later run |
| ImmutableData.ExtentsHash | src/tx_engine.rs:33-38 | each full-length extent whose record landed whole hashes to its crc; any other holds as much of the start of its record as landed |
| ImmutableData.WriteChangesOnlyItsRange | src/tx_engine.rs:17-53 | a torn, cut or failing write changes no file's content; a successful one puts what landed in its own range and changes nothing else |
| ImmutableData.WholeWriteIsItsData | src/tx_engine.rs:17-53 | after any run, a committed write that the device took whole makes the file's content in its range its data |
| ImmutableData.ExtentsEndWithinSize | src/rvfs_adapter.rs:421-434 | after any run whose set_attr calls lower no size below an extent, each extent ends at or below its file's size |
| ImmutableData.StepKeepsSizesIff | src/rvfs_adapter.rs:421-434 | every call keeps extents within sizes exactly when it is not a set_attr to a size below the end of one |
| ImmutableData.ImproperSizeShows | src/rvfs_adapter.rs:421-434 | the first such set_attr of a run leaves an extent past its file's end |
| ImmutableData.CutStaysCut | src/tx_engine.rs:221-256 | a truncate keeps the mapping below its size; a position above it is unmapped afterwards if and only if the file shrank or it was unmapped before, and stays so through any later calls until a write covers it |
| ImmutableData.ProperRunCutsCleanly | src/tx_engine.rs:221-256 | after a proper run every truncate cuts off all positions from its size on |
| ExtentSizes.SizeIsFurthestEnd | src/tx_engine.rs:39-41 | over runs that set no size, a file's size is exactly the furthest end of its extents, and 0 if it has none |
| ExtentSizes.EmptyIsFurthest | src/tx_engine.rs:115-122 | empty files start like that |
| ExtentSizes.SizeIsLargest | src/tx_engine.rs:39-41 | until a size is set again, it is the largest of what it was and of the ends of the committed writes since |
| ExtentSizes.SizeSinceTruncate | src/tx_engine.rs:221-256 | after a truncate or set_attr it is the largest of the size that this set and of the ends of the committed writes since |
| ExtentSizes.NewInodeIs | src/tx_engine.rs:102-130 | a new inode is empty, has one link, the mode that was asked for, and a number that was free |
| ExtentSizes.OthersStay | src/tx_engine.rs:17-256 | only the inode that a call names changes, and of that one only what the call is about |
| ExtentSizes.AppendPosition | src/log_manager.rs:23-36 | the append position moves by exactly the bytes of the writes that are not torn, committed or not |
| VfsAdapter.DbfsInode.Create | src/rvfs_adapter.rs:450-467 | an inode, then an entry, each in its own transaction; any number of them may commit |
| VfsAdapter.DbfsInode.Mkdir | src/rvfs_adapter.rs:469-484 | the same for a directory |
| VfsAdapter.DbfsInode.Unlink | src/rvfs_adapter.rs:498-527 | the entry, then a link or the inode, in separate transactions |
| VfsAdapter.DbfsInode.Rmdir | src/rvfs_adapter.rs:529-555 | the checks, then the entry, then the inode, in separate transactions |
| VfsAdapter.DbfsInode.RenameTo | src/rvfs_adapter.rs:564-584 | the new entry, then the old one, in separate transactions |
| VfsAdapter.DbfsInode.SetAttr | src/rvfs_adapter.rs:421-434 | sets type, permissions and size as asked, and leaves the extents alone |
| AdapterCalls.FormattedIs | src/rvfs_adapter.rs:263-281 | a formatted device holds a root directory of mode 0040755 (octal) whose two dots lead to itself |
| AdapterCalls.CreateMakes | src/rvfs_adapter.rs:450-484 | a create makes an empty regular file and a mkdir an empty directory, by the type bits, with the permissions asked for and under a free number; its name leads there, and no other name changes; cut in between, only the inode is there |
| AdapterCalls.UnlinkTakes | src/rvfs_adapter.rs:498-527 | an unlink takes its entry, and then the inode with its last link or else one link; cut in between, the entry only |
| AdapterCalls.RmdirTakes | src/rvfs_adapter.rs:529-555 | an rmdir takes the entry and the inode of a directory that no name is in, and nothing of anything else |
| AdapterCalls.RenameMoves | src/rvfs_adapter.rs:564-584 | the new name leads to where the old one did and the old one is gone; cut in between, both lead there |
| AdapterCalls.SetAttrSets | src/rvfs_adapter.rs:421-434 | the mode and the size of that inode change, and nothing else |
| DanglingEntries.SettledIffNothingDangles | src/rvfs_adapter.rs:421-555 | the settled indexes are exactly those from which no run of operations other than renames, each cut after any of its transactions, leads to a dangling entry |
| DanglingEntries.StepKeepsIff | src/rvfs_adapter.rs:421-584 | every operation, cut anywhere, keeps the index settled; a rename exactly when its entry is the inode's only one, or moves into the inode's own directory, or the inode has the links and no third outside entry (and, when cut, a link to spare) |
| DanglingEntries.MoveKeepsIff | src/rvfs_adapter.rs:564-584 | the condition for a whole rename, on the entries before it |
| DanglingEntries.CutKeepsIff | src/rvfs_adapter.rs:573-578 | the condition for a rename that is cut after adding the new entry |
| DanglingEntries.EntriesNeverDangle | src/rvfs_adapter.rs:421-584 | over all runs in which every rename meets its condition, with power failures between any two transactions, no entry dangles |
| DanglingEntries.ImproperRunCanDangle | src/rvfs_adapter.rs:564-584 | the first rename of a run that does not meet its condition leaves an index from which operations without renames reach a dangling entry |
| DanglingEntries.LinksCoverEntries | src/rvfs_adapter.rs:450-584 | with every rename taken as one step and the root's own entries kept in the root, all renames meet their condition and no inode ever has more entries than links |
| DanglingEntries.CutRenameDangles | src/rvfs_adapter.rs:573-581 | cut inside, a rename can lead to a dangling entry |
| DanglingEntries.MovedDotsDangle | src/rvfs_adapter.rs:564-584 | if `.` and `..` may be renamed, the root can be removed while an entry names it |
| DanglingEntries.RenameOntoItselfDropsTheEntry | src/rvfs_adapter.rs:573-581 | renaming an entry onto itself deletes it |
| Decimal.Print | src/inode.rs:584 | a printed number parses back to itself |
| Decimal.PrintsDecimal | src/inode.rs:584 | the digits are the decimal ones, the highest first |
| Namespace.SymlinkIsSpecial | src/inode.rs:619-632 | every symbolic link passes the character-device test first |
| Namespace.NewModeKeepsKind | src/inode.rs:591-606 | changing the set-id bits never changes whether an inode is a directory |
| MetaStore.MetaStore.constructor | src/fs_type.rs:164-199 | the base state: a root of size 1 with only `.` |
| MetaStore.MetaStore.Create | src/inode.rs:548-686 | the buckets hold the tree after the create; every error leaves the inodes alone and still uses up a number; a permission that names no kind of file panics after the commit |
| MetaStore.MetaStore.Link | src/inode.rs:92-145 | the buckets hold the tree after the link, or the call reports its error and changes nothing |
| MetaStore.MetaStore.Unlink | src/link.rs:23-112 | the buckets hold the tree after the unlink, or the call reports its error and changes nothing |
| MetaStore.MetaStore.Rmdir | src/inode.rs:786-843 | the buckets hold the tree after the rmdir, or the call reports its error and changes nothing |
| MetaStore.MetaStore.Rename | src/inode.rs:904-1187 | the buckets hold the tree after the move or exchange, or the call reports its error and changes nothing |
| MetaStore.MetaStore.CheckSource | src/inode.rs:915-968 | the errors of the entry that moves, in the code's order |
| MetaStore.MetaStore.CheckTarget | src/inode.rs:969-1016 | a target is seen only in a sticky directory |
| MetaStore.MetaStore.MoveTransaction | src/inode.rs:1089-1186 | the writes of a move step by step, or the step that fails |
| MetaStore.MetaStore.ExchangeEntries | src/inode.rs:1019-1062 | the writes of an exchange, with `.` where the code puts it |
| TreeInvariant.MoveBelowItselfDisconnects | src/inode.rs:1179-1184 | a directory moved to itself or below itself no longer reaches the root |
| TreeInvariant.MoveKeepsConnected | src/inode.rs:1179-1184 | a directory moved anywhere else leaves every directory connected to the root |
| TreeMoves.MoveOverIsDropThenMove | src/inode.rs:1106-1167 | moving over a seen target is removing it and then moving to a free name |
| TreeMoves.ExchangeKeepsIff | src/inode.rs:1019-1062 | on the shape of the tree, which exchanges keep it good, for every name |
| TreeRuns.BaseInv | src/fs_type.rs:164-199 | the base state is a good tree |
| TreeRuns.CreateKeepsIff | src/inode.rs:548-686 | a create keeps the tree good if and only if the name is proper and free, the parent a directory, and the kind not one that passes for a directory |
| TreeRuns.LinkKeepsIff | src/inode.rs:92-145 | a link keeps it if and only if it gives a file a free proper name in a directory |
| TreeRuns.UnlinkKeepsIff | src/link.rs:23-112 | an unlink keeps it if and only if the entry is proper, names a file, and matches the caller's inode |
| TreeRuns.RmdirKeepsIff | src/inode.rs:786-843 | an rmdir keeps it if and only if the name is proper and names a directory or a file with one link |
| TreeRuns.MoveKeepsIff | src/inode.rs:1064-1186 | a move keeps it if and only if names are proper, the destination is a directory not at or below the moved one, and its name is free, the same entry, or a seen empty directory |
| TreeRuns.ExchangeKeepsIff | src/inode.rs:1019-1062 | an exchange keeps it if and only if the moved entry names a file and a returning directory is not placed at or below itself, or nothing is exchanged |
| TreeRuns.StepKeepsIff | src/inode.rs:548-686 | every call, failing or not, keeps the tree good exactly when it is proper |
| TreeRuns.RunBreaksIff | src/inode.rs:548-686 | a run keeps every tree that it passes through good exactly when all its calls are proper |
| TreeRuns.CountsAgree | src/inode.rs:92-145 | after any proper run a file's hard_links is the number of entries naming it, a directory's size the number of its entries, and no entry dangles |
| TreeRuns.DirectoriesFormATree | src/inode.rs:633-639 | each directory but the root has exactly one named entry, in the directory that its `..` names, and `..` leads to the root |
| TreeRuns.FileGoesWithItsLastEntry | src/link.rs:97-108 | a file's inode is deleted exactly when its last entry goes |
| TreeAnswers.MayWriteIff | src/inode.rs:506-539 | who may change a directory: root, or the octal bit 0200, 0020 or 0002 of the requester's class |
| TreeAnswers.MayRemoveIff | src/inode.rs:824-829 | who may remove an entry: as well, in a directory with the bit 01000, only root and the owners of the directory and of what goes |
| TreeAnswers.RmdirSucceedsIff | src/inode.rs:786-843 | in a good tree, rmdir of a directory succeeds if and only if it holds no entry but its dots and the requester may remove it; while it holds one, the answer is that it is not empty |
| TreeAnswers.RootRemovesEmptyDirectories | src/inode.rs:811-813 | for root: if and only if the directory holds no entry but `.` and `..` |
| TreeAnswers.CreateSucceedsIff | src/inode.rs:548-686 | in a good tree a create succeeds if and only if the directory exists, may be changed, and a symbolic link has a target; the answer otherwise |
| TreeAnswers.LinkSucceedsIff | src/inode.rs:92-145 | a link to a file succeeds if and only if the directory may be changed and the entries that name the file, with one more, can be counted in 32 bits |
| TreeAnswers.UnlinkSucceedsIff | src/link.rs:23-112 | an unlink succeeds if and only if the entry may be removed and the inode given exists; that the entry names it is not asked |
| TreeAnswers.MissingEnds | src/inode.rs:548-1187 | what each call answers when its directory or its entry is missing |
| TreeAnswers.MoveSucceedsIff | src/inode.rs:1064-1186 | a move between proper names succeeds if and only if the entry may be taken and put, a directory that gets another parent may be changed, and a target that is seen is an empty directory other than the entry; and which error each other case has |
| TreeAnswers.ExchangeSucceedsIff | src/inode.rs:1019-1062 | an exchange succeeds if and only if both ends may be changed and the target exists in a sticky directory |
| TreeEffects.FailuresChangeNothing | src/inode.rs:548-686 | a call that fails changes no inode; the counter moves by one with every create and with nothing else |
| TreeEffects.ProperCallsCount | src/inode.rs:92-145 | after any proper call sizes count entries, links count the entries that name a file, and modes, owners and targets are unchanged |
| TreeEffects.RmdirTakes | src/inode.rs:786-843 | an rmdir takes exactly its entry and its inode: every other lookup is as before |
| TreeEffects.UnlinkTakes | src/link.rs:23-112 | an unlink takes exactly its entry, and the inode exactly when no other entry named it |
| TreeEffects.LinkAdds | src/inode.rs:92-145 | a link adds exactly its entry |
| TreeEffects.CreateAdds | src/inode.rs:548-686 | a create adds exactly its entry and one inode, under a number that was free, with the dots of a directory |
| TreeEffects.CreatedInode | src/inode.rs:607-666 | size, links, target and owners of a new inode, by the kind in the upper four bits |
| TreeEffects.CreatedMode | src/inode.rs:591-606 | its mode: the bits asked for, but set-uid and set-gid only from root, and set-gid for a directory made in a directory |
| TreeEffects.HasKindIff | src/common.rs:164-184 | a permission names some kind exactly when one of its upper four bits is set |
| TreeEffects.BaseIs | src/fs_type.rs:164-199 | the base state holds a root with its `.` only, of the given mode and owners |
| TreeEffects.MoveMoves | src/inode.rs:1064-1186 | a proper move takes the entry from the one directory to the other; a directory's `..` follows, a seen target's inode goes, and every other lookup is as before |
| TreeEffects.ExchangeSwaps | src/inode.rs:1019-1062 | an exchange swaps what two names lead to; the one directory's `..` follows, in the other `.` is set |
| TreeRuns.BlockDeviceBreaksTheTree | src/inode.rs:619-642 | creating a block device breaks the counts |
| Operations.RedoOnce | src/rvfs2/common.rs:39-59 | applying an operation twice in a row fails or changes nothing |
| Operations.LogAbsorbs | src/operation.rs:50-96 | a write or truncate that a log reaches is absorbed when the whole log is applied after it |
| Operations.RedoFromAnyPrefix | src/transaction.rs:89-104 | with any prefix of a log of writes and truncates already applied, replaying the whole log gives the store of applying it once |
| Operations.RedoAfterCutReplays | src/transaction.rs:89-104 | however often a restart's replay of writes and truncates is cut and started over, the store is the same |
| Operations.CreationsAreNotAbsorbed | src/rvfs2/common.rs:170-172 | with the first of two creations applied, replay finds its name taken, stops there, and never reaches the second |
| Operations.RedoWithinData | src/transaction.rs:89-104 | while only the writes and truncates in front were applied, replay of a log gives the store of applying it once, whatever follows them in it |
| Operations.RedoPastFirst | src/transaction.rs:89-104 | replay after the first namespace operation changes nothing up to it, fails on it, and never reaches the rest |
| Operations.RedoPastFirstIsAbsorbedIff | src/transaction.rs:89-104 | so it is absorbed if and only if the rest of the log changes nothing, or that operation renames an entry onto itself |
| Operations.RedoPastRemovalIsAbsorbedIff | src/rvfs2/common.rs:274-307 | when that operation deleted a node that is written before it, replay stops at the first such write, and is absorbed if and only if the writes before it do what the rest does |
| Operations.RedoOfOneAtEnd | src/transaction.rs:63-104 | a log whose only namespace operation is its last, and spares the nodes written before it, is absorbed after a crash anywhere in the loop that applies it; a creation keeps the number of the running process if the loop had applied it, and gets that of the restart if not |
| Operations.RedoOfOneAfterCutReplays | src/transaction.rs:89-104 | the same however often the restart's replay is cut |
| Operations.RedoStopsAtFirstCreation | src/rvfs2/common.rs:170-172 | in a log that creates and never deletes or renames, replay from any prefix past the first creation does the writes before it again and stops at it |
| Operations.ReplayPutsOldDataBack | src/transaction.rs:89-104 | replay of a log that was applied in full puts the data of a write before a creation over that of one after it |
| StoreCalls.Read | src/rvfs2/common.rs:19-36 | the start of the value of the offset's block is copied, as much as fits; nothing for a block that is not there |
| StoreCalls.ReadAfterWrite | src/rvfs2/common.rs:39-59 | after a write a read in the same 4096-byte block returns the start of what was written, and any other read what it returned before; the size is the larger of the old one and the end |
| StoreCalls.ReadAfterTruncate | src/rvfs2/common.rs:122-155 | after a truncate a block that starts below the length reads as before, and any later one as nothing |
| StoreCalls.ReadAfterRun | src/operation.rs:50-96 | after a run of writes and truncates every read returns the start of what the last one in its block left there |
| StoreCalls.LookAfterCreation | src/rvfs2/common.rs:159-218 | a creation applies if and only if the directory exists and name and number are free; only its name changes what it leads to |
| StoreCalls.NodeAfterCreation | src/rvfs2/common.rs:184-205 | the new node has the creator's ids, one link, no data, and the mode asked for, with the directory bit for a mkdir |
| StoreCalls.OthersAfterCreation | src/rvfs2/common.rs:206-214 | the directory gets one link more exactly for a directory; other nodes stay as they are |
| StoreCalls.CounterAfterFailure | src/rvfs2/common.rs:170-182 | a creation that fails moves the counter exactly when only its number was in the way |
| StoreCalls.LookAfterDelete | src/rvfs2/common.rs:274-307 | a delete applies if and only if the name names a node; the name goes, and the node exactly with its last link |
| StoreCalls.LookAfterRename | src/rvfs2/common.rs:343-378 | a rename applies if and only if the old name and the new directory exist; the new name leads to where the old one did |
| StoreCalls.WhyNotApplied | src/rvfs2/common.rs:39-378 | the error of an operation that does not apply |
| FrameLog.Scan | src/wal.rs:66-97 | the recovery loop returns what parsing frame by frame returns, and terminates |
| FrameLog.WholeFramesIsMaximal | src/wal.rs:66-97 | the number of frames wholly before a cut is what it claims to be |
| FrameLog.ParseCutLog | src/wal.rs:66-97 | recovery of a cut log returns the entries of the whole frames, in order |
| Wal.Le32RoundTrip | src/wal.rs:45-46 | the length prefix decodes to the length |
| Wal.FrameBytes | src/wal.rs:44-51 | a frame is its payload behind four bytes that count it, lowest byte first |
| Wal.WithoutJoins | src/wal.rs:99-101 | clearing keeps the other entries in their order |
| Wal.WriteAheadLog.SetStorage | src/wal.rs:35-37 | attaches storage and leaves the list and the offset alone |
| Wal.WriteAheadLog.Append | src/wal.rs:39-57 | the entry is listed and its frame written at the next offset, which moves past it; a storage error leaves the entry out, and one after the length prefix leaves that prefix in the log |
| Wal.WriteAheadLog.Recover | src/wal.rs:66-97 | the entries and next offset are those of parsing the storage; the list in memory is left alone |
| Wal.WriteAheadLog.Checkpoint | src/wal.rs:110-116 | the storage is emptied and the offset reset, or neither |
| Wal.WriteAheadLog.ClearTxn | src/wal.rs:99-108 | a transaction's entries are forgotten, and the log emptied once none are left; that this fails is ignored |
| WalRecovery.FramesWork | src/wal.rs:39-97 | a frame of at most 1 MiB is read back whatever follows it, a cut one is torn, and a larger one stops recovery |
| WalRecovery.ReadsBackIffWithinLimit | src/wal.rs:76-77 | a frame is read back exactly if its payload is at most 1048576 bytes long |
| WalRecovery.RecoverFromCut | src/wal.rs:66-97 | for every cut position recovery returns exactly the entries whose frames lie wholly before it |
| WalRecovery.RecoverAllIffFit | src/wal.rs:76-77 | an uncut log is recovered whole if and only if every frame is within the limit |
| WalRecovery.AppendExtendsUncutLog | src/wal.rs:39-97 | after recovery of an uncut log, appends extend it: the next recovery returns old plus new |
| WalRecovery.ShortTearCostsNothing | src/wal.rs:66-97 | a tear of fewer than four bytes is overwritten by the next append |
| WalRecovery.AppendBehindLongTear | src/wal.rs:79-95 | for every tear of four bytes or more the next recovery reads the append through the torn length prefix: nothing if it is shorter than announced, or else the announced bytes as one entry and what follows them |
| WalRecovery.LongTearHidesAppend | src/wal.rs:79-95 | an append shorter than a torn prefix announces is lost, however long the tear |
| WalRecovery.AppendSurvivesCutIff | src/wal.rs:66-97 | after a cut at any byte, recovery and an append, the next recovery returns the whole frames and the append if and only if the tear is under four bytes or the append read through the torn prefix is the append itself |
| WalRecovery.ExactAppendSurvivesCutIff | src/wal.rs:66-97 | for a codec that decodes only what it encodes: if and only if the tear is under four bytes, or the append is as long as the torn entry and its frame begins with its own encoding |
| WalRecovery.TextAppendSurvivesCutIff | src/wal.rs:39-97 | for a text codec: if and only if the tear is under four bytes |
| WalRecovery.TextIsNotFoundBehind | src/wal.rs:76-91 | for a text codec nothing of a frame is found behind a torn prefix, whatever it announces |
| Transactions.TransactionManager.BeginTransaction | src/transaction.rs:41-46 | ids ascend |
| Transactions.TransactionManager.CommitIntoWalOnly | src/transaction.rs:54-61 | the frames are in the log at the next offset and the store is as before, or a storage error is reported |
| Transactions.TransactionManager.Commit | src/transaction.rs:63-87 | log, apply and clear on a log of any bytes, passing through exactly the durable states of the commit's trace; a storage error up to the flush leaves the store alone |
| Transactions.TransactionManager.Replay | src/transaction.rs:89-104 | what recovery returns is applied in order, up to the first failure; the next offset is where recovery stopped |
| CrashSafety.OneOperationIsAtomic | src/transaction.rs:63-87 | cut a one-operation commit to an empty log at any byte or step: after restart the files are as before or as after, and as after once flushed, from the commit's store or, if the crash came before the apply, from that store with the counter of the restart |
| CrashSafety.FlushedOperationSurvivesIff | src/rvfs2/superblock.rs:47-53 | a flushed creation survives a crash before it is applied if and only if the inode number stored last is free, and gets that number; any other operation always survives |
| CrashSafety.SecondCreationIsLost | src/rvfs2/superblock.rs:112-125 | of two creations after a sync, the second is lost by a crash between its flush and its apply |
| CrashSafety.FlushedFileIsLost | src/rvfs2/common.rs:179-182 | such a run: files `a` and `b` in an empty root directory |
| CrashSafety.RestartIsRepeatable | src/transaction.rs:89-104 | a restart that is itself cut after its replay leaves the next one the same files |
| CrashSafety.FlushedSurvivesIffFits | src/wal.rs:76-77 | a restart applies a flushed operation if and only if its frame fits or it changes nothing |
| CrashSafety.CutAppendAppliesPrefix | src/transaction.rs:63-75 | cutting the append of several operations applies, with the counter of the restart, exactly those whose frames are whole |
| CrashSafety.FlushedDataSurvives | src/transaction.rs:63-104 | once writes and truncates are flushed, any crashes while applying still end in the complete store |
| CrashSafety.FlushedWithOneAtEndSurvives | src/transaction.rs:63-104 | the same for the files of a transaction that ends with one namespace operation that spares the nodes written before it; unless the loop had come to its end, the operation is applied with the counter of the restart |
| CrashSafety.CreationAtEndSurvivesIff | src/rvfs2/superblock.rs:47-53 | a creation at the end survives if and only if the loop had applied it or the inode number stored last is free |
| Durability.DurableIffSettled | src/wal.rs:66-97 | for every state that one event leads to from a settled one: no event of writes and truncates can lose anything that reached the log if and only if the log has no torn prefix, applies in full and changes nothing, and nothing is listed |
| Durability.RunLosesNothingIff | src/transaction.rs:63-104 | in no state of a run from a settled one can anything be lost if and only if every event's operations apply and no event tears a frame by four bytes or more |
| Durability.StepSettlesBlocksOrTears | src/wal.rs:66-108 | every event leads from a settled state to one that is settled, blocked by something that does not apply, or torn |
| Durability.AppendedIsRead | src/wal.rs:39-97 | on the bytes: onto a log without a torn prefix an event adds exactly its whole frames, and leaves a torn prefix exactly when it tears a frame by four bytes or more |
| Durability.CommitStep | src/transaction.rs:63-87 | the commit event of these runs is what the commit method does to the log's bytes, the offset, the list and the store |
| Durability.RestartStep | src/transaction.rs:89-104 | their restart is what the replay method does after the counter is loaded |
| Durability.AppendsAreCuts | src/wal.rs:39-57 | the states that a commit passes through while it appends are cuts of these runs |
| Durability.FreshIsSettled | src/wal.rs:26-33 | an empty log is settled |
| Durability.StepKeepsSettledIff | src/transaction.rs:63-87 | a commit, a sync, or a crash anywhere in a commit with restarts cut anywhere, keeps this so exactly when all that it logs applies and no frame is torn by four bytes or more |
| Durability.UnsettledLoses | src/wal.rs:99-108 | from a blocked or torn log one of two flushed writes of different values is lost |
| Durability.FlushedIsReachedIff | src/transaction.rs:89-104 | with no torn prefix in the log, replay reaches a flushed transaction of any kind if and only if the log in front of it applies in full |
| Durability.FlushedBehindTear | src/wal.rs:79-95 | behind a torn prefix replay reaches what recovery finds of the transaction's frames through that prefix |
| Durability.TearLosesWrite | src/wal.rs:79-95 | behind a torn prefix every flushed write is lost, for a text codec |
| Durability.CommitSettles | src/wal.rs:99-116 | a commit that applies with nothing else listed empties the log and settles the state, whatever was in it |
| Durability.BlockedStays | src/wal.rs:99-108 | until such a commit a log with something that does not apply stays blocked |
| Durability.CrashStaysTorn | src/wal.rs:66-97 | a power failure after fewer bytes than a torn prefix announces leaves the log torn |
| Durability.RunIsDurable | src/transaction.rs:63-104 | over any proper run of writes and truncates, with crashes and cut replays anywhere, the files are what applying everything that reached the log whole once gives |
| Isolation.RunKeepsInv | src/transaction.rs:63-104 | every interleaving of commits, replays and readers keeps the locks exclusive and the store at whole commits plus the progress of the one that applies or replays |
| Isolation.ReaderSeesWholeCommits | src/rvfs2/inode.rs:191-194 | a reader under the guard sees the store between two commits unless a thread replays, and then exactly as much of the replay as was applied |
| Isolation.ReaderSeesOneStore | src/rvfs2/inode.rs:228-256 | while it holds the guard the store stays the same if and only if no step of a replay changes it |
| Isolation.SuccessfulCommitsAreWhole | src/transaction.rs:63-87 | if commits succeed, the store is all operations of the finished ones in commit order |
| Isolation.IdsAreNotReused | src/transaction.rs:41-46 | no id is handed out twice |
| Isolation.FailedCommitIsSeenInPart | src/transaction.rs:79-82 | when an apply fails, a reader sees the operations before it |
| Isolation.ReplayIsSeenInPart | src/transaction.rs:89-104 | a reader that came before a replay sees its first operation alone, because replay takes no write guard |

## Left out

- FUSE replies, mmap, mkfs, the command line, logging and timing: I/O around the logic.
- jammdb's tree and the buddy allocator: a transactional map and an allocator of arbitrary bytes.
- Serialisation of log entries and inode metadata: any pair of functions that undo each other.
- Readdir's resumption table, xattr, chmod, chown, readlink and the old rvfs rename: shallow branches.
- Timestamps, device numbers and block sizes of inodes: stored and never used by what is modelled.
- Remount of the extent engine: its append position starts over, so the extent results are about one mount. The directory results survive crashes and remounts.
- Junk that a failed device read leaves in the buffer, or a failed log storage write in the log: both are taken to leave nothing.
- The order in which the cursor of a directory bucket lists its entries: `ExtentEngine.TransactionEngine.ListDentries` takes it as a parameter.
- A rename that goes on to use the bucket of the target it has just deleted: taken as an error, since what jammdb does is not visible here.
- In src/rvfs2/common.rs, attribute keys and entry names share one bucket; the model keeps them apart, and takes the size that `dbfs_write` puts to be part of its transaction.
- Log storage that reorders writes, and emptying it in more than one step: a power failure leaves a part from the start of what was being appended.
- Link, symlink, rmdir and set_attr in src/rvfs2/inode.rs: they bypass the transaction manager.
- SliceWrite.PutSlices: requires slice numbers below 2^32, the limit that src/file.rs:197-198 documents; keys repeat from there on.
- SliceWrite.Write: the same limit.
- SliceResize.FreeBlocks: the same limit.
- SliceResize.Truncate: the same limit, on the size before.
- RangeRead.Read: the same limit, on the file that is read.
- RangeRead.ScanInto: the same limit.
- ExactRead.CopyFileRange: the same limit, on both files.
- FuseRead.SpecialRead: the same limit; where the release build goes on past the end, no slice may be stored there, as `FlatResize.RunKeepsBounds` proves of every run.
- Isolation.ReaderSeesWholeCommits: a commit whose apply fails counts as the operations before the failure; `Isolation.SuccessfulCommitsAreWhole` is about the others.
- Durability.DurableIffSettled: is about logs of writes and truncates, and not about a log in which an append has already been read through a torn prefix; for other operations `Durability.FlushedIsReachedIff`, and for any log with a torn prefix `Durability.FlushedBehindTear`, say what replay reaches.
- Durability.CommitStep: storage errors are not among the events of these runs; what they leave behind is part of `Transactions.TransactionManager.Commit`.
- Inode numbers and sizes are unbounded.
