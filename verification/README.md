# mkext4: a verified model

mkext4 writes ext4 images and reads them back with a checking reader. This project models its
core in Dafny and proves what the two sides promise each other: what the writer lays down is
what the reader finds, and what the reader accepts has the structure that it relies on.

`dafny verify dfyconfig.toml` checks everything. Each module follows one component.

| modules | component |
|---|---|
| `Bytes`, `Crc32c`, `Csum` | field access, the CRC register, the structure checksums and the attribute hashes |
| `Polynomial`, `ChecksumVectors`, `HashVectors` | the CRC as the remainder of a polynomial, the directory hash as RFC 1320 writes its steps, and known values of both |
| `Allocator`, `Geometry` | layout: the skipping allocator and the group arithmetic |
| `Extent`, `ExtentWalk`, `ExtentTree`, `FileRead`, `FileHoles` | extent nodes, the recursive walk over an arbitrary disk, what it means, reading files, and what the stored fields mean to a reader |
| `ExtentBuild`, `ExtentKeys` | planning a file's extent tree with blocks from the allocator, its keys, and searching by them |
| `Dirent`, `Htree`, `DirHash` | directory blocks, hash-index blocks, the half-MD4 hash |
| `DirVerify`, `DirSums`, `IndexChain`, `DirRead` | checking a directory, exactly when it raises no issue, what a clean index guarantees, listing and lookup |
| `DirBlocks`, `DirBuild`, `IndexBuild` | packing and rendering directories and their index |
| `Inode`, `Xattr`, `XattrBuild`, `XattrPlan` | inode slots and extended attributes, from declaration to disk and back |
| `Sink`, `Writer` | the exactly-once output contract, the sink that checks it and the writer |
| `FilePlacement`, `SegmentPlacement` | where sealing puts file data and metadata, when it fails, and when the writer meets the contract |
| `ReadBack`, `ImageFiles` | from the builder to the reader: placed and filled files on the finished image, from the inode on |

The main results:

- An extent walk succeeds exactly when a well-formed tree is stored, and then returns that tree's
  runs; on any disk, cyclic or not, its work is bounded. What the planner builds is walked back to
  the file's extents, with one read per planned block. Every key in it is the logical number of the
  first extent below, so a search by logical block ends on the run that holds the block. Whatever no
  written run maps reads as zeros on every disk.
- A directory raises no issue if and only if its blocks are there, tiled by records and sealed, and,
  with an index, its tables are sealed, its ranges nest and its names hash into their leaves. With
  checksums on, damage inside four covered bytes of a checked block is reported wherever the index
  above it is unharmed.
- A directory index without issues covers the hash space from 0 to 2^32 with ranges that overlap
  by at most the collision bit, so looking only where a name's hash points finds what a scan of
  the indexed leaves finds. Indexes built in bulk raise no issue and list every entry.
- Everything the allocator hands out, over any sequence of requests, is the increasing
  enumeration of the free blocks.
- A file that was placed, planned and filled can be opened on the finished image: its inode decodes
  with a valid checksum, the walk of its root passes and every read succeeds. It reads back byte for
  byte, holes as zeros, whatever its content is, if and only if every run was declared to start
  below logical block 2^32. The file loop fails exactly at the first slot whose blocks, extents or
  tree blocks do not fit, and returns that slot's error.
- A writer that finishes has emitted every byte up to the end of the image or of its last segment
  exactly once, whatever the order of fills, and each byte is the one the layout and the contents
  say. It meets the contract of the sink if and only if every segment lies on the device, and for
  an accepted geometry that is so if and only if the last group is no backup group or has room for
  its backup superblock and descriptor table. The checking sink accepts exactly the runs that meet
  the contract, and its buffer is then the laid-out image.
- The CRC of any bytes from any register is the remainder of their polynomial modulo that of
  RFC 3720, and the directory hash is three rounds of eight steps with the functions, the constants
  and the start values of RFC 1320, written out with the words and shifts of each step.
- Two inputs that differ inside four consecutive bytes have different CRC values, so every
  full-width structure checksum detects such damage.
- Inodes, timestamps, extents and attribute lists round-trip exactly under stated conditions, each
  an if-and-only-if.

Conventions. A byte is an integer below 256; `u16`, `u32` and `u64` are subsets of the integers, so
arithmetic that wraps in the source is written out where it can wrap. Hash and CRC registers are
32-bit vectors. Code that updates fields or buffers in place is a class or a method over an array,
proved against a specification function; the laws are lemmas about those functions. A disk is a
byte string, and a read succeeds exactly inside it.

Where comments and code disagree, the code is followed: an empty name is transformed once
(`src/dirhash.rs:45-53`), `CheckingSink::finish(0)` refuses the empty run (`src/sink.rs:162-170`),
and the writer does not always uphold the contract that `src/sink.rs:13-15` ascribes to it. Four
properties that fail at the edges are stated with their exact condition and an instance: the
contract itself (32769 blocks with default options), reading back what was declared (one block
declared at 2^44 bytes is found at the start of the file), the length of the buffer after stray
empty calls, and the 32-bit inode count of the largest geometry.

## Model

| member | source | states |
|---|---|---|
| ExtentTree.WalkSucceedsIffStored | src/reader/mod.rs:273-330 | the walk succeeds exactly when some tree of depth at most 5 is stored under the root, each node checked and each child stamped where checksums are on |
| ExtentTree.WalkReturnsTree | src/reader/mod.rs:273-330 | walking any stored tree appends exactly its leaf runs, left to right, and reads each of its blocks once, wherever the blocks sit |
| ExtentTree.WalkFindsTree | src/reader/mod.rs:273-330 | conversely, a walk that succeeds exhibits the tree that was stored, and its output is that tree's runs |
| ExtentTree.EncodedIsStored | src/spec/extent.rs:29-145 | nodes written with the header, extent and index encoders, with stamped blocks, form a stored tree |
| ExtentTree.EncodedTreeIsWalked | src/reader/mod.rs:273-330 | round trip: the walk of an encoded tree returns its runs in order |
| ExtentTree.RootBounded | src/reader/mod.rs:281-330 | on every disk, cyclic child pointers included, a root of depth d yields at most 4·340^d extents and fetches at most 4·(340^d − 1)/339 blocks |
| ExtentTree.NodeBounded | src/reader/mod.rs:281-330 | the same bound from any node, in terms of its depth |
| ExtentTree.RunsValid | src/reader/mod.rs:299-311 | every extent handed out is at most 32768 blocks long and not empty, and its start fits 48 bits |
| FileHoles.NodeAccepted | src/reader/mod.rs:281-298 | on the bytes of a node: its magic number, depth and two counts decide whether it is accepted, and the header fields are where the format puts them |
| FileHoles.LeafEntry | src/reader/mod.rs:301-311 | on the bytes of a leaf entry: refused exactly when its stored length is 0; otherwise logical block, 48-bit start, length and the unwritten mark (a stored length above 32768, that much shorter) are those of the extent handed out |
| FileHoles.IndexEntry | src/reader/mod.rs:312-327 | on the bytes of an index entry: the block of its 48-bit number is read, checked where checksums are on and walked one level lower; its logical number is not looked at |
| FileHoles.StampCovers | src/reader/mod.rs:314-325 | a child block is accepted exactly when checksums are off or its last word is the CRC of the owner's number, its generation and the 4092 bytes in front |
| FileHoles.DamagedNodeIsRefused | src/csum.rs:110-112 | an accepted node block is refused after damage inside four of those bytes |
| FileHoles.HolesReadZero | src/reader/mod.rs:349-366 | for any stored tree: a block has none behind it exactly when no stored run of length up to 32768 contains it, and then every byte of it reads as zero on every disk |
| FileHoles.WrittenReads | src/reader/mod.rs:349-366 | otherwise the last written run that contains it shows its own blocks there |
| FileHoles.UnwrittenReadsZero | src/spec/extent.rs:88-100 | an instance: a root with one unwritten block reads as zeros whatever the device block holds |
| ExtentWalk.CheckNode | src/reader/mod.rs:281-298 | an accepted node has a depth of at most 5, the wanted one where it is given, and no more entries than fit |
| ExtentWalk.Walker.WalkExtentNode | src/reader/mod.rs:273-330 | the recursive method terminates on every disk with the node depth as measure; its status, appended extents and fetches are those of the specification walk |
| ExtentWalk.Walker.WalkOneEntry | src/reader/mod.rs:299-328 | one entry: a run appended, or a child read, checked against its stamp and walked one level lower |
| Extent.HeaderRoundTrip | src/spec/extent.rs:29-55 | a written header is decoded to itself, whatever follows it |
| Extent.ExtentRoundTrip | src/spec/extent.rs:71-86 | an extent survives encoding exactly when its start fits 48 bits |
| Extent.IdxRoundTrip | src/spec/extent.rs:119-133 | an index entry survives encoding exactly when its block number fits 48 bits |
| Extent.FullNodeEndsAtTail | src/spec/extent.rs:136-145 | 340 entries end at byte 4092, so no entry of a full node touches the checksum tail |
| Extent.CapacityIsLargest | src/spec/extent.rs:136-145 | for every block size, as many entries as fit in front of the checksum and no more |
| Extent.IdxEnds | src/spec/extent.rs:127-133 | the last two bytes of an index entry are zero |
| Extent.EncodeHeader | src/spec/extent.rs:48-55 | writes exactly the twelve header bytes and nothing else |
| Extent.EncodeExtent | src/spec/extent.rs:80-86 | writes exactly the twelve bytes of the entry and nothing else |
| Extent.EncodeIdx | src/spec/extent.rs:127-133 | writes exactly the twelve bytes of the index entry and nothing else |
| ExtentBuild.PlanExtents | src/build/seal.rs:150-281 | succeeds exactly when two levels suffice and enough free blocks are left, and says which of the two is missing; takes the next free blocks in order, leaves first, and leaves the allocator just behind them |
| ExtentBuild.PlannedRuns | src/build/seal.rs:205-281 | whichever number of levels it takes, the planned tree holds exactly the given runs in order |
| ExtentBuild.PlannedBlocks | src/build/seal.rs:205-281 | the planned tree has one block per block number it was given |
| ExtentBuild.PlannedTreeIsWalked | src/reader/mod.rs:273-330 | over any disk that holds the planned blocks, the reader's walk returns the runs in order and reads each planned block once |
| ExtentBuild.PlanIsWalked | src/build/seal.rs:150-281 | the same for the plan that the method returns |
| ExtentBuild.RenderNode | src/build/seal.rs:172-183 | header and entries written in place over zeros |
| ExtentBuild.RenderBlock | src/build/seal.rs:212-222 | a block node: header, entries, zeros, and a checksum over all but the last four bytes |
| ExtentBuild.BlockNodeStamped | src/csum.rs:110-112 | the stored checksum of a rendered block node is the one the reader computes |
| ExtentBuild.TakeBlocks | src/layout/alloc.rs:76-102 | asking for single blocks gives exactly the next free blocks |
| ExtentBuild.PlanShape | src/build/seal.rs:188-254 | up to 4 extents stay in the root, up to 1360 take one level and up to 462400 two; 340 to a leaf and 340 leaves to an index node; more are refused |
| ExtentKeys.PlanIsKeyed | src/build/seal.rs:205-281 | every index entry decoded from the root and the index blocks of a plan carries the logical number of the first extent in the subtree it points to; for rising runs the keys of every node rise |
| ExtentKeys.PlanFoundByKey | src/build/seal.rs:205-281 | for runs in file order, going into the last entry that does not start above a block ends on the run that holds the block, if any, and always on the last run that does not start above it |
| ExtentKeys.DescendFinds | src/spec/extent.rs:119-133 | the same search in any stored tree with the right keys over sorted runs |
| ExtentKeys.KeyedAsStored | src/spec/extent.rs:119-133 | a stored tree has the right keys exactly when its bytes have |
| ExtentKeys.PlanHeader | src/build/seal.rs:172-281 | what the header of a planned root stores, and how many 512-byte units the tree blocks add |
| FileRead.ReadFileAt | src/reader/mod.rs:335-366 | fails exactly when some part of the request that a written extent maps lies off the device; otherwise delivers min(size − offset, buffer length) bytes, each the file's byte at its position, and leaves the rest of the buffer alone |
| FileRead.CopyExtent | src/reader/mod.rs:349-364 | one extent's share: later extents win over earlier ones, holes and unwritten runs stay zero |
| FileRead.ReadExactAt | src/reader/mod.rs:36-47 | fills the range or fails without touching it |
| FileRead.ReadableByBytes | src/reader/mod.rs:335-366 | byte by byte: a request can be read exactly when each of its bytes that a written extent maps lies on the device |
| FileRead.FirstIsLast | src/reader/mod.rs:459-467 | for extents that pass the ordering check, the byte read is the device byte at `file_block` of its logical block, or zero where that is none |
| FileRead.AllPairsOrdered | src/reader/verify.rs:163-168 | passing the adjacent-pair check makes all pairs of extents disjoint and ordered |
| FileRead.ReportsDisorder | src/reader/verify.rs:163-168 | the check reports exactly when some adjacent pair overlaps or is unsorted |
| FileRead.ReadIsLast | src/reader/mod.rs:349-363 | for any extents, the byte read is the device byte at the block of the last written extent that contains it |
| FileRead.LookupsAgreeExactly | src/reader/mod.rs:459-467 | whatever the extents are, reading agrees with `file_block` on every disk if and only if the first and the last written match of the block have the same device block |
| FileRead.AdjacentReads | src/reader/mod.rs:335-366 | reading a range succeeds exactly when reading its two halves does, and gives what they give one after the other, at the end of the file too |
| IndexChain.CleanIndex | src/reader/verify.rs:217-368 | a directory index that raises no issue has leaf ranges that chain from 0 to 2^32, each upper bound equal to the next lower bound or one more, across both levels; its leaf blocks are distinct, mapped and tiled, and every name hashes into its leaf's range |
| IndexChain.EveryHashHasALeaf | src/reader/verify.rs:217-368 | so every 32-bit hash lies in some leaf range, although the order of entries is never checked |
| IndexChain.Covered | src/reader/verify.rs:257-276 | a chain covers every hash between its ends, in whatever order its ranges come |
| IndexChain.RangesChain | src/reader/verify.rs:257-276 | the ranges of one parsed table chain from 0 to 2^32 whatever hashes the table holds |
| IndexChain.ClampedChain | src/reader/verify.rs:309-319 | a node's ranges, patched at both ends, chain over exactly what its parent's entry covers |
| IndexChain.NodesChain | src/reader/verify.rs:281-331 | when no node raises an issue, the leaves below a chain of nodes form a chain with the same ends |
| IndexChain.SharedIffCollision | src/reader/verify.rs:260-275 | with ascending lower bounds, two ranges share a hash exactly when they are neighbours, it is their boundary and the collision bit is set |
| IndexChain.AtMostTwoLeaves | src/reader/verify.rs:260-275 | so at most two leaves, side by side, can hold a hash |
| IndexChain.IndexedLookupAgrees | src/reader/mod.rs:469-478 | visiting only the leaves whose range holds the name's hash finds the very entry that scanning all of them finds, for any leaves in any order |
| IndexChain.CleanLookup | src/reader/mod.rs:469-478 | the same for every scan over leaves of a directory that raises no issue |
| IndexChain.NamesInRange | src/reader/verify.rs:350-366 | no issue is added for a leaf's names exactly when all of them, dots aside, hash into its range |
| DirRead.LookupFollowsIndex | src/reader/mod.rs:472-478 | in such a directory whose name-holding blocks are all leaves, the linear lookup answers what the index-guided one answers |
| DirRead.ListingScansLeaves | src/reader/mod.rs:411-456 | the listing of an indexed directory finds a name as a scan of its leaves in block order does |
| DirRead.ReadDir | src/reader/mod.rs:411-456 | lists the dot entries of the root, skips interior nodes, and ends with the first error or the names of every block in order |
| DirRead.ReadBlockNames | src/reader/mod.rs:424-453 | what one block contributes to the listing |
| DirRead.ListsExactly | src/reader/mod.rs:411-456 | a listing succeeds exactly when every block is there and is a parsed root, a skipped node or tiled by records, and a name is in it exactly when one of the blocks contributes it |
| DirRead.CleanLinearLists | src/reader/verify.rs:205-215 | a linear directory that raises no issue can be listed |
| DirVerify.Verifier.VerifyDir | src/reader/verify.rs:193-369 | pushes exactly the specified issues in order, or fails with the error of the first block that cannot be read |
| DirVerify.Verifier.VerifyLevels | src/reader/verify.rs:278-367 | flattens one or two levels, then checks the leaves |
| DirVerify.Verifier.CollectNodes | src/reader/verify.rs:281-331 | the leaves of every usable node in order; unmapped and malformed nodes become issues |
| DirVerify.Verifier.VisitNode | src/reader/verify.rs:286-330 | one interior node: checksum, ranges, clamping, nesting |
| DirVerify.Verifier.ClampNode | src/reader/verify.rs:309-329 | first lower and last upper bound come from the parent; one issue when any range leaves the parent's |
| DirVerify.Verifier.CollectRanges | src/reader/verify.rs:257-276 | one range per entry, the collision bit folded into the upper bound |
| DirVerify.Verifier.CheckTable | src/reader/verify.rs:227-238 | an issue exactly when checksums are on and the table's differs |
| DirVerify.Verifier.CheckLeaves | src/reader/verify.rs:334-368 | each leaf once: repeated and unmapped leaves are issues, the others are checked |
| DirVerify.Verifier.CheckLeaf | src/reader/verify.rs:348-366 | block structure and checksum first, then every name against the range |
| DirVerify.Verifier.CheckNames | src/reader/verify.rs:350-366 | one issue per name outside the range, one for a bad record chain |
| DirVerify.Verifier.VerifyLinear | src/reader/verify.rs:205-215 | a hole is an issue, every other block is checked |
| DirVerify.Verifier.VerifyDirentBlock | src/reader/verify.rs:371-398 | a bad chain, a wrong checksum and a missing tail are the three issues of a block |
| DirSums.CleanIsSealed | src/reader/verify.rs:371-398 | with checksums on and no issue, every checked block ends in a tail whose stored word is the CRC of the inode's number, its generation and all bytes in front of the tail; the tables of the root and of every interior node are sealed likewise |
| DirSums.LinearIsCleanIff | src/reader/verify.rs:205-215 | a linear directory raises no issue if and only if each of its blocks is mapped, readable, tiled and sealed |
| DirSums.IndexIsCleanIff | src/reader/verify.rs:217-368 | an indexed one if and only if its root names hash version 1, its root and interior nodes can be parsed and are sealed, their hashes lie in their parents' ranges, and its leaves are distinct, sealed and hold only names of their range |
| DirSums.BlockCleanIff | src/reader/verify.rs:371-398 | one block: no issue if and only if records tile it and, with checksums on, it has a tail that stores its sum |
| DirSums.BlockIssueIs | src/reader/verify.rs:371-398 | which of the three issues a block has, from its records and its last twelve bytes |
| DirSums.NotBothClean | src/reader/verify.rs:387-393 | of two directories that differ inside four covered bytes of a block that both checks look at, at most one raises no issue |
| DirSums.DamageIsReported | src/reader/verify.rs:387-393 | a directory without issues raises one after such damage to the disk under one of its checked blocks |
| Htree.ParseTable | src/spec/htree.rs:83-110 | accepts exactly tables with 1 ≤ count ≤ limit whose tail lies inside the block; slot 0's hash is 0 |
| Htree.ParseRoot | src/spec/htree.rs:114-155 | the root parser: dot names, info and levels checked in the source's order |
| Htree.ParseNode | src/spec/htree.rs:160-174 | the node parser: a block-spanning unused record, then the table |
| Htree.TableAccepted | src/spec/htree.rs:83-110 | which tables are accepted, and at which bytes their slots and their checksum are read |
| Htree.RootAccepted | src/spec/htree.rs:114-155 | a root is accepted exactly with both dot names, a zero reserved word, an info length of 8, at most one level of nodes and an accepted table; only too many levels are unsupported rather than corrupt |
| Htree.NodeAccepted | src/spec/htree.rs:160-174 | a node is accepted exactly when an unused record spans the block and its table is accepted |
| Htree.LimitIsLargest | src/spec/htree.rs:73-81 | for blocks up to 64 KiB the limit is the largest that leaves the checksum tail inside the block |
| DirBuild.LimitsOfABlock | src/spec/htree.rs:189-193 | at 4096 bytes a root has 507 slots and a node 510 |
| IndexBuild.BuiltIndexReads | src/build/htree.rs:32-185 | an indexed directory as built raises no issue when checked, and listing it gives the dot entries and every entry in hash order |
| IndexBuild.Build | src/build/htree.rs:53-185 | from entries in hash order, refused exactly when more than 507 nodes of 510 leaves would be needed; otherwise the blocks are root, leaves and nodes in order |
| IndexBuild.WrittenIndexIsHeld | src/build/htree.rs:184-185 | a directory whose logical blocks are the built ones meets the premise of the theorem above |
| IndexBuild.PackedInRange | src/build/htree.rs:67-80 | every entry hashes into the range of the leaf it was packed into, collision runs over several leaves included |
| IndexBuild.DxRises | src/build/htree.rs:67-80 | the slots never fall, collision bits included |
| IndexBuild.LevelsFlatten | src/build/htree.rs:82-149 | two levels flatten to the ranges that one table of all the slots would have |
| IndexBuild.GroupRanges | src/reader/verify.rs:309-319 | a group of slots, clamped to its parent's slot, has the ranges it has in the whole table |
| IndexBuild.GroupNested | src/reader/verify.rs:320-329 | the ranges of a group of rising slots nest in its parent's range |
| IndexBuild.BuiltFlattens | src/build/htree.rs:82-152 | flattening the built index gives one range per leaf |
| IndexBuild.BuildLeafDx | src/build/htree.rs:67-80 | the walk beside the sorted entries gives each leaf its first hash, odd exactly when the leaf before ends on it |
| DirBuild.BuiltLinearReads | src/build/seal.rs:636-649 | a linear directory as built raises no issue and lists its entries in declaration order |
| DirBuild.BuildLinear | src/build/seal.rs:642-648 | one sealed block per packed group of entries |
| DirBuild.WriteTable | src/build/htree.rs:191-199 | limit, count and slots written in place, slot 0 without its hash |
| DirBuild.TableReads | src/spec/htree.rs:83-110 | a written table is parsed back, slot 0's hash aside |
| DirBuild.WithTableReads | src/build/htree.rs:173-181 | a sealed table is parsed back and its stored checksum is the computed one |
| DirBuild.RenderNode | src/build/htree.rs:132-145 | an interior node block |
| DirBuild.RenderRoot | src/build/htree.rs:155-182 | the root block |
| DirBuild.NodeReads | src/spec/htree.rs:160-174 | a rendered node is parsed back, and directory scans skip it |
| DirBuild.RootReads | src/spec/htree.rs:114-155 | a rendered root is parsed back with its dot entries |
| DirBuild.RootScans | src/build/htree.rs:152-166 | iterating a rendered root as a directory block gives exactly the two dot entries and ends without error |
| DirBuild.NodeScans | src/build/htree.rs:132-134 | iterating a rendered interior node gives nothing and ends without error |
| DirBlocks.PackedKeeps | src/build/seal.rs:289-300 | packing keeps every entry in order, overfills no block and leaves none empty |
| DirBlocks.PackedIsGreedy | src/build/htree.rs:53-65 | a block is closed only when the entry that opens the next one does not fit its 4084 bytes |
| DirBlocks.Pack | src/build/seal.rs:289-300 | the greedy loop with its running fill level |
| DirBlocks.PutRecord | src/build/seal.rs:309-313 | one record, stretched to its length, over zeros |
| DirBlocks.RenderBlock | src/build/seal.rs:302-324 | records, then the tail's shape, then the checksum over everything before the tail; an empty block holds one unused record |
| DirBlocks.RenderedBlockReads | src/spec/dirent.rs:47-96 | iterating a rendered block yields exactly its entries in order and ends without error, and its tail holds the checksum |
| DirBlocks.RenderedBlockIsClean | src/reader/verify.rs:371-398 | a rendered, sealed block raises no issue |
| Dirent.ScanEndsIffTiled | src/spec/dirent.rs:47-86 | iteration ends without an error exactly on the blocks that records tile |
| Dirent.RenderedScans | src/spec/dirent.rs:47-86 | a block made of records that tile it, tail included, yields exactly the used records in order |
| Dirent.ScanFindsRecords | src/spec/dirent.rs:47-86 | conversely, iteration without an error exhibits the records that tile the block |
| Dirent.EntriesInside | src/spec/dirent.rs:66-83 | even on a bad block every entry handed out is used and has its name inside its own record |
| Dirent.DirentIter.Next | src/spec/dirent.rs:47-86 | the next used record, the end, or one error after which nothing comes |
| Dirent.Collect | src/spec/dirent.rs:44-87 | running the iterator to its end terminates on every block and gives the specified list |
| Dirent.TailReads | src/spec/dirent.rs:92-96 | a tail record gives its checksum back |
| Dirent.RecLenFor | src/spec/dirent.rs:99-101 | the least multiple of four that holds header and name |
| DirHash.HalfMd4 | src/dirhash.rs:39-55 | the chunk loop computes the recursive hash; the major hash has its low bit cleared |
| DirHash.NameHash | src/dirhash.rs:39-55 | the hash that index entries are compared with is even |
| DirHash.HalfMd4Transform | src/dirhash.rs:94-162 | the in-place transform equals the register form of RFC 1320 with half the steps |
| DirHash.Round | src/dirhash.rs:143-154 | eight indexed updates equal eight register steps |
| DirHash.IndexIsRegister | src/dirhash.rs:144-153 | the a, d, c, b index cycle is the rotation of the registers |
| DirHash.FChooses | src/dirhash.rs:96-98 | `f` is F of section 3.4 of RFC 1320 |
| DirHash.GIsMajority | src/dirhash.rs:100-102 | `g`, an addition, is G of section 3.4 of RFC 1320: the sum never carries |
| DirHash.Str2HashBuf | src/dirhash.rs:60-90 | the packing loop gives eight words, each four bytes shifted into the pad |
| DirHash.PackByCountdown | tools/check_vectors.py:70-92 | the countdown form of the packing gives the same words |
| DirHash.ChunkPadIsKernelPad | src/dirhash.rs:45-53 | for non-empty names, padding each chunk by its own length equals padding by the remaining name length |
| DirHash.FullChunkForgetsPad | src/dirhash.rs:68-79 | full four-byte words shift the pad out |
| DirHash.PaddingsAgreeExactly | src/dirhash.rs:45-53 | chunk padding and kernel padding hash a name alike if and only if it is not empty or one transform of zero words leaves the state as it was: the comment in the source holds for non-empty names |
| DirHash.AsciiFlavoursAgree | src/dirhash.rs:69-72 | signed and unsigned flavours agree on all-ASCII names |
| HashVectors.TransformWrittenOut | src/dirhash.rs:94-162 | for every state and all eight words, the transform is the 24 steps of the three rounds written out with literal word numbers, shifts and constants, and F, G and H as choice, majority and parity, then the feed-forward |
| HashVectors.InitialState | src/dirhash.rs:40-44 | the start values are the four seed words, or those of section 3.3 of RFC 1320 where the seed is zero |
| HashVectors.HashOfHello | src/dirhash.rs:169-187 | the major and minor hash of `hello.txt` under the seed of the tests |
| HashVectors.HashOfLetter | src/dirhash.rs:169-187 | the same for `a` |
| Allocator.Allocator.Take | src/layout/alloc.rs:76-102 | nothing exactly when more blocks are asked for than remain; otherwise capped ascending runs covering exactly the next free blocks, split only after a cap or at a reserved run |
| Allocator.ServeAll | src/layout/alloc.rs:76-102 | over any sequence of requests the blocks handed out are the next free blocks in increasing order, independent of caps and of how the total is split |
| Allocator.Allocator.Remaining | src/layout/alloc.rs:60-71 | for disjoint reserved runs, the number of free blocks from the cursor on |
| Allocator.Allocator.TakeOne | src/layout/alloc.rs:105-107 | the next free block |
| Allocator.Allocator.TakeRun | src/layout/alloc.rs:79-99 | one turn of the loop: the longest run that the cap and the reserved runs allow |
| Allocator.Allocator.SkipReserved | src/layout/alloc.rs:45-56 | jumps reserved runs without losing a free block |
| Allocator.Allocator.constructor | src/layout/alloc.rs:31-43 | everything free in [start, end) is still to come |
| Allocator.FreeFromIsFreeSet | src/layout/alloc.rs:10-26 | the enumeration holds exactly the unreserved blocks of the range, strictly increasing |
| Sink.CheckedRun | src/sink.rs:113-187 | for a positive image length, a run of calls passes exactly when every byte of the image is emitted once and no other byte is; the buffer then holds what was emitted at each byte |
| Sink.CheckingSink.Record | src/sink.rs:122-158 | accepts a region exactly when it is disjoint from everything recorded, keeps the list sorted, disjoint and non-touching, adds exactly the region, and changes nothing on refusal |
| Sink.CheckingSink.Coalesce | src/sink.rs:145-156 | the four merge cases give the one canonical list |
| Sink.CheckingSink.PartitionPoint | src/sink.rs:128-128 | binary search finds the first span that does not start before the offset |
| Sink.NeighboursSuffice | src/sink.rs:127-144 | comparing with two neighbours decides disjointness from the whole list |
| Sink.InsertedCanonical | src/sink.rs:145-156 | inserting a disjoint region keeps the list canonical |
| Sink.InsertedCovers | src/sink.rs:145-156 | inserting adds exactly the region's bytes |
| Sink.CheckingSink.Finish | src/sink.rs:162-170 | passes exactly when the recorded bytes are [0, image length) and the image is not empty |
| Sink.CanonicalPrefix | src/sink.rs:163-163 | a canonical list that covers exactly [0, n) is the one span, and conversely |
| Sink.CheckingSink.Data | src/sink.rs:179-182 | recorded first; passed on exactly when accepted |
| Sink.CheckingSink.ZeroFill | src/sink.rs:183-186 | recorded first; passed on exactly when accepted |
| Sink.VecSink.Data | src/sink.rs:40-47 | the buffer grows with zeros when needed and takes the bytes at their place |
| Sink.VecSink.ZeroFill | src/sink.rs:48-57 | the buffer grows when needed and is zero over the region |
| Sink.ReorderingIsInvisible | src/sink.rs:10-15 | the same calls in another order emit the same at every byte |
| Sink.ReorderingKeepsVerdict | src/sink.rs:10-15 | and get the same verdict |
| Sink.SumIsTheByte | src/sink.rs:39-58 | a byte emitted once is the byte its one region holds there |
| Sink.BufferLengthExact | src/sink.rs:39-58 | after a passing run the buffer has exactly the image length if and only if no empty call lies past the image |
| Sink.StrayEmptyCallCounterexample | src/sink.rs:122-125 | an empty call past the end passes and still grows the buffer |
| Writer.ImageWriter.Finish | src/build/writer.rs:139-151 | succeeds exactly when no file is pending and no fill has failed; every byte up to the reach of the layout has then been emitted exactly once, in whatever order the files were filled, and is the byte of the laid-out image; the image length is that reach, and the contract of the sink is met, if and only if every segment lies on the device |
| Writer.CheckedImage | src/sink.rs:82-187 | the writer and the checking sink together: the calls of a finished writer pass if and only if the image is not empty and every segment lies on the device, and the buffer is then the laid-out image, byte for byte |
| Writer.ImageOfSegment | src/build/writer.rs:199-213 | the laid-out image holds every segment's bytes where the segment lies |
| Writer.ImageOfFile | src/build/writer.rs:109-135 | it holds every file's content over the file's runs, in run order, and zeros to the end of the last block |
| Writer.ImageElsewhere | src/build/writer.rs:157-218 | it is zero everywhere else |
| Writer.PassesOnDevice | src/build/writer.rs:199-216 | a run that emits every byte up to the reach once meets the contract for the image length if and only if every segment lies on the device |
| Writer.ImageWriter.Fill | src/build/writer.rs:84-107 | fills exactly a pending file whose stream is long enough, placing its content over its runs; a short stream poisons the writer; any other refusal changes nothing |
| Writer.ImageWriter.constructor | src/build/writer.rs:43-70 | the metadata pass has run and every fillable file is pending |
| Writer.FillInner | src/build/writer.rs:109-135 | fails exactly on a short stream; otherwise exactly the blocks of the runs are emitted, once, with the content in run order and zeros to the end of the last block, and nothing reaches past the device |
| Writer.FillRun | src/build/writer.rs:114-131 | one run: its share of the stream, then zeros to the block boundary |
| Writer.StreamRun | src/build/writer.rs:118-127 | buffer-sized pieces add up to the run's share |
| Writer.EmitMetadata | src/build/writer.rs:157-218 | one ascending sweep emits exactly the segments, with their bytes, and whatever else lies outside the data runs, as zeros, each byte once |
| Writer.EmitSegment | src/build/writer.rs:203-211 | exactly the segment's bytes are emitted, at its offset |
| Writer.Emitter.EmitGap | src/build/writer.rs:163-197 | exactly the bytes of a gap outside the data runs are emitted, once each and all zero |
| Writer.Emitter.EmitStretch | src/build/writer.rs:172-194 | one turn of the gap loop: passed runs are dropped, the blocks before the next one are zeroed, and the run is jumped |
| Writer.EmitItable | src/build/writer.rs:240-252 | an inode table is emitted block by block: its used blocks in order, then zeros to its end |
| FilePlacement.PlaceFiles | src/build/seal.rs:695-730 | fails exactly when some slot is refused, with the error of the first such slot; otherwise every declared file is placed and planned, every data block has exactly one owner, data blocks and tree blocks are apart, tree blocks ascend, and all of them are the next free blocks in order, as many as the slots need |
| FilePlacement.PlaceFile | src/build/seal.rs:708-729 | one file takes the next free blocks for its data and the next after those for its extent tree; it is refused exactly when the data blocks do not fit, the tree over the extents they fall into is too deep, or its blocks do not fit behind the data, each with its error |
| FilePlacement.FirstRefusal | src/build/seal.rs:695-730 | the loop's error is `e` if and only if some slot is refused with `e` after all slots before it were placed |
| FilePlacement.PiecesOf | src/layout/alloc.rs:76-102 | runs that are split only after a cap or at a gap are as many as their blocks fall into: how many extents a file takes depends on the free blocks alone |
| FilePlacement.FileNeedsExactly | src/build/seal.rs:688-743 | in numbers: a file is placed exactly with at most 462400 extents and enough blocks left for its data, leaves and index nodes, and how each refusal is reported |
| FilePlacement.RowOfExtents | src/build/seal.rs:700-725 | a stretch over blocks in a row takes one extent per 32768 blocks |
| FilePlacement.PlaceSegs | src/build/seal.rs:711-726 | takes the blocks of every declared stretch and numbers its runs from where the stretch starts; fails exactly when the blocks do not all fit, and yields as many extents as the free blocks make necessary |
| FilePlacement.NumberRuns | src/build/seal.rs:717-722 | consecutive runs get consecutive logical numbers, wrapping at 32 bits |
| FilePlacement.RunsAscend | src/layout/alloc.rs:76-102 | runs over the next free blocks are in order, disjoint, and hold exactly those blocks |
| FilePlacement.SizeFits | src/build/mod.rs:399-419 | for stretches that a declaration accepts, only the last block of the file can be partly filled |
| FilePlacement.SettledNext | src/build/seal.rs:695-730 | placing one more file keeps all of it: one owner per data block, trees apart from data, everything from the free blocks |
| FilePlacement.PlacedIsSealed | src/build/seal.rs:695-730 | what the file loop leaves is what the writer needs of a layout, once the other segments stay off the blocks that were free |
| SegmentPlacement.OnDeviceExactly | src/build/seal.rs:1118-1190 | for every accepted geometry, all segments that sealing pushes lie on the device if and only if the last group is no backup group or has room for its copies |
| SegmentPlacement.PushSegments | src/build/seal.rs:1118-1190 | the pushes: superblock and table at the front, one copy of both per backup group, and no other group has one |
| SegmentPlacement.PushedIsPlaced | src/build/seal.rs:1118-1190 | whatever order they are sorted into, every backup group has its copies at its start and every other segment, being made of blocks that an allocator handed out, lies on the device |
| SegmentPlacement.FrontOnImage | src/build/seal.rs:1020-1034 | every image starts with the superblock's block and the descriptor table |
| SegmentPlacement.BackupOnImage | src/build/seal.rs:1136-1153 | every backup group, at a multiple of 2^27 bytes, starts with its own superblock block and the same table |
| SegmentPlacement.ContractMetExactly | src/build/writer.rs:199-216 | and so a finished writer has emitted every byte of the image once and no other if and only if that holds |
| SegmentPlacement.ContractBroken | src/sink.rs:13-15 | the input: for an image of 32769 blocks with default options every finished writer on what sealing pushes has emitted bytes past the image |
| ReadBack.FileComesBack | src/reader/mod.rs:335-366 | a file that was placed, planned and filled, on the finished image: the reader's walk of its root passes and every read through the extents it returns succeeds; where the data is addressable, every byte is what was declared, holes as zeros |
| ReadBack.ComesBackExactly | src/build/seal.rs:711-726 | for every layout and slot: reading shows what was declared on every image, whatever the contents are, if and only if no run of the file was declared to start at or past logical block 2^32 |
| ReadBack.Misread | src/build/seal.rs:717-722 | the content and the position that show it: a run declared past 2^32 has its first byte where no extent shows it |
| ReadBack.AddressableWithin | src/build/mod.rs:399-419 | what the declaration alone tells: data that ends within 2^32 blocks is addressable, and no addressable stretch starts past them |
| ReadBack.NumberedLogical | src/build/seal.rs:717-722 | the logical number of every run is its declared block modulo 2^32, across all stretches |
| ReadBack.RegularFileComesBack | src/reader/mod.rs:335-366 | for a file without holes, reading any range gives that range of the content it was filled with |
| ReadBack.FilledFileIsSeen | src/build/writer.rs:109-135 | on the image, any extents that map a filled file's runs show its content |
| ReadBack.FilledFileIsReadable | src/reader/mod.rs:349-363 | and no such extent leads off the image |
| ReadBack.PlannedSeen | src/build/seal.rs:711-726 | the extents numbered by the file loop show each stretch of addressable content at its declared offset; a stretch may end past 2^32 blocks inside its last run |
| ReadBack.PlanOnImage | src/build/seal.rs:150-281 | the blocks of a plan that the layout carries are read back from the image |
| ReadBack.FarStretchWraps | src/build/seal.rs:717 | on every image of the layout, a file that declares one block at 2^44 bytes reads that block at the start of the file and zero where it was declared |
| ImageFiles.FileOpens | src/reader/mod.rs:224-271 | from the bytes of the image to the bytes of a file: the inode of any placed slot opens with its checksum accepted, its extents are walked from its own root, every read succeeds, and where the data is addressable a read delivers what was declared |
| ImageFiles.SlotComesBack | src/build/seal.rs:695-730 | for a layout that sealing made of its file loop, every slot that holds a file, empty or not, can be walked and read |
| ImageFiles.InodeOpens | src/reader/mod.rs:224-260 | an inode written with the checksum of its slot is found in its table on the image, accepted and decoded to itself |
| ImageFiles.InodeOnImage | src/reader/mod.rs:224-238 | inode k of a table segment is at byte 256·k behind the table's first block |
| ImageFiles.InodeInTable | src/build/writer.rs:236-251 | sixteen inodes per block, the last block filled up with zeros: inode k is at byte 256·k of the table |
| ImageFiles.RenderTableBlock | src/build/writer.rs:240-247 | one table block: the inodes it holds copied in, the rest zeroed, whatever the buffer held before |
| ImageFiles.TableEnds | src/build/writer.rs:240-252 | a table takes no more blocks than its inodes need and is zero behind the last of them |
| ImageFiles.OpenedExactly | src/reader/mod.rs:225-260 | an inode opens exactly when its 256 bytes lie on the device and, with checksums on, store the sum of number, generation and slot, or the low half of it where only that has room |
| ImageFiles.NoExtents | src/reader/mod.rs:264-271 | without flag 0x80000 or the magic number there are no extents |
| Crc32c.BurstDetected | src/csum.rs:20-22 | two inputs of equal length that differ only inside four consecutive bytes have different CRC values for every seed |
| Crc32c.CrcConcat | src/csum.rs:20-22 | folding in two pieces is folding their concatenation |
| Crc32c.CrcSeedInjective | src/csum.rs:20-22 | different registers stay different over the same bytes: the step is a bijection |
| Crc32c.CrcOfWord | src/csum.rs:20-22 | up to four bytes are absorbed as one word |
| Crc32c.WindowInjective | src/csum.rs:20-22 | different four-byte windows give different registers |
| Crc32c.BuildTable | tools/check_vectors.py:28-33 | the table holds eight register steps of every byte |
| Crc32c.CrcByTable | tools/check_vectors.py:36-40 | the table-driven loop computes the bitwise CRC |
| Polynomial.CrcIsRemainder | src/csum.rs:20-22 | for every register and every byte string, the CRC is the remainder of the bits, least significant first, with the register added to the first 32, divided by x^32 and the generator 0x1EDC6F41 of RFC 3720 |
| Polynomial.RemainderUnique | src/csum.rs:20-22 | there is only one such remainder, so that determines the CRC |
| Polynomial.PolyIsGenerator | tools/check_vectors.py:24-33 | the register's constant is that generator, bits reversed |
| ChecksumVectors.CrcOfDigits | src/csum.rs:20-22 | the check value of CRC-32C: `123456789` from an all-ones register |
| ChecksumVectors.CrcOfHighBit | tools/check_vectors.py:28-33 | one high bit folded into zero gives the register's constant |
| ChecksumVectors.SeedOfUuid | src/csum.rs:195-199 | the filesystem seed of the UUID of the tests |
| Csum.InodeIsFoldOfZeroed | src/csum.rs:79-99 | for every slot of at least 128 bytes and every declared size, the piecewise checksum is one fold over a copy with the low half zeroed, and the high half exactly when it exists |
| Csum.GroupDescIsFoldOfZeroed | src/csum.rs:52-57 | the descriptor checksum is the low half of one fold over a zeroed copy |
| Csum.DxBlockIsFoldOfZeroed | src/csum.rs:120-125 | the index checksum is one fold over the covered entries and the tail with its checksum zeroed |
| Csum.XattrBlockIsFoldOfZeroed | src/csum.rs:130-135 | the attribute block checksum is one fold over the block number and the block with its checksum zeroed |
| Csum.SuperblockDetects | src/csum.rs:43-45 | a change inside four covered bytes changes the superblock checksum |
| Csum.InodeDetects | src/csum.rs:79-99 | likewise for inode slots |
| Csum.DirentBlockDetects | src/csum.rs:103-105 | likewise for directory blocks |
| Csum.ExtentBlockDetects | src/csum.rs:110-112 | likewise for extent blocks |
| Csum.DxBlockDetects | src/csum.rs:120-125 | likewise for index blocks |
| Csum.XattrBlockDetects | src/csum.rs:130-135 | likewise for attribute blocks, block number included |
| Csum.XattrEntryHash | src/csum.rs:140-156 | the entry hash is the fold of the name and of the zero-padded value |
| Csum.FoldValue | src/csum.rs:145-154 | whole words and a padded remainder fold as the padded value does |
| Csum.XattrBlockHash | src/csum.rs:160-169 | zero as soon as one entry hash is zero, otherwise the fold of all |
| Csum.StepsRotate | src/csum.rs:140-156 | a name step rotates the register by 5 bits and a word step by 16 before folding in |
| Csum.BlocksAreOneFold | src/csum.rs:103-112 | the checksums of extent and directory blocks are one fold over number, generation and the first 4092 or 4084 bytes |
| Csum.FullInodeIsOneFold | src/csum.rs:79-99 | the checksum of a full slot is one fold over number, generation and the slot with both halves zeroed |
| ChecksumVectors.HashOfBig | src/csum.rs:295-315 | the hash 0x18547 stored with attribute `user.big` of the test image |
| ChecksumVectors.BlockHashes | src/csum.rs:317-324 | the hash of a block of no, one or two entries |
| Inode.EncodedDecodes | src/spec/inode.rs:80-200 | decoding an encoded inode gives it back if and only if every field fits the width its declared size stores, the attribute area is absent or fills the slot with something in it, and that area does not overwrite the declared size |
| Inode.DecodedReencodes | src/spec/inode.rs:303-327 | encoding a decoded 256-byte slot reproduces it if and only if its bytes without a field are zero |
| Inode.Encode | src/spec/inode.rs:147-200 | the field-by-field encoder writes the specified 256 bytes and nothing after them |
| Inode.EncodeFront | src/spec/inode.rs:171-195 | the declared size and the extra fields it covers |
| Inode.FrontFields | src/spec/inode.rs:114-136 | every extra field that the declared size covers reads back |
| Inode.FrontSurvives | src/spec/inode.rs:196-199 | an attribute area leaves the fields in front of it alone, and the declared size readable, exactly when it does not overlap that size with other bytes |
| Inode.AreaDecodes | src/spec/inode.rs:137-141 | the attribute area comes back exactly when it is absent or fills the slot with something nonzero |
| Inode.StampedIsAccepted | src/reader/mod.rs:242-260 | encoding, storing the checksum of the slot and encoding again gives a slot that the reader accepts if and only if the attribute area leaves the declared size readable, or overlays it with less than 4, or happens to hold the checksum's upper half where the reader then looks |
| Inode.ChecksumOutsideItself | src/csum.rs:73-99 | changing the stored checksum changes only bytes that it does not cover |
| Inode.SlotDamageRejected | src/reader/mod.rs:242-260 | a slot that differs from an accepted one inside four consecutive bytes, with the same generation and full-width checksums, is rejected when the damage spares the stored checksum or hits nothing else |
| Inode.TimestampRoundTrips | src/spec/inode.rs:262-273 | an encoded timestamp decodes to itself if and only if the seconds lie in [−2^31, 3·2^32 + 2^31) and the nanoseconds are below 2^30 |
| Inode.EveryStoredTimestampReencodes | src/spec/inode.rs:262-273 | every pair of stored words is the encoding of what it decodes to |
| Xattr.ParsesIffListed | src/spec/xattr.rs:51-87 | on every region and value base, the parser returns a list if and only if that list is laid out there: headers, names, values in bounds, no entry that looks like the end, then four zero bytes |
| Xattr.ListedParses | src/spec/xattr.rs:51-87 | a laid-out list is returned exactly |
| Xattr.ParsedIsListed | src/spec/xattr.rs:51-87 | a returned list is laid out at the offsets its headers give |
| Xattr.ParseEntries | src/spec/xattr.rs:51-87 | the loop terminates on every region, reads only in bounds and collects what the recursive reading finds |
| Xattr.ParseEntryIffStored | src/spec/xattr.rs:61-84 | one entry is returned exactly where it is stored |
| Xattr.UnnamedAtZeroEndsList | src/spec/xattr.rs:58-60 | an unnamed index-0 entry whose value lies at offset 0 is read as the end of the list: an instance |
| Xattr.IbodyExactly | src/spec/xattr.rs:92-101 | the in-inode area is empty without room for the magic number or without it, and otherwise read as a list exactly when one is laid out behind it |
| Xattr.BlockExactly | src/spec/xattr.rs:118-140 | a block is read as a list exactly with the magic number, a block count of 1 and that list laid out behind 32 bytes |
| XattrBuild.RenderedParses | src/build/xattr_build.rs:106-130 | whatever attributes were rendered, the parser returns them in order, for either value base |
| XattrBuild.RenderEntries | src/build/xattr_build.rs:106-130 | entries grow up and values grow down over zeros without meeting; the rest of the buffer is untouched |
| XattrBuild.RenderOne | src/build/xattr_build.rs:112-127 | one turn: value, hash, header, name |
| XattrBuild.OneStored | src/build/xattr_build.rs:111-128 | each rendered attribute is stored where its header says, never at offset 0 |
| XattrBuild.HashesStored | src/build/xattr_build.rs:106-130 | entries in an inode store hash zero, entries in a block the hash of name and value |
| XattrPlan.AttributesSurvive | src/reader/mod.rs:496-505 | attributes planned, put into an encoded inode and a rendered block, and read back are the same collection, in canonical order |
| XattrPlan.AttributesComeBack | src/reader/mod.rs:496-505 | the inode's share comes first, the block's after it, with the stored hashes |
| XattrPlan.MakePlan | src/build/xattr_build.rs:35-84 | sorts, refuses values and totals that do not fit, and fills the in-inode area greedily |
| XattrPlan.Split | src/build/xattr_build.rs:51-61 | running totals decide where the first attribute does not fit |
| XattrPlan.SplitIsLongest | src/build/xattr_build.rs:48-62 | the inode takes the longest prefix that has room |
| XattrPlan.PlanExactly | src/build/xattr_build.rs:39-82 | in bytes: the inode takes the longest prefix of at most 88; a plan is refused exactly when the rest takes more than 4060, or one value cannot share a block with its own entry |
| XattrPlan.SortSorts | src/build/xattr_build.rs:36-38 | the order is total, and sorting keeps the collection |
| XattrPlan.KeyOrder | src/build/xattr_build.rs:36-38 | the order looks at the index, then at the length of the name, then at the first byte in which two names differ |
| XattrPlan.RenderBlock | src/build/xattr_build.rs:87-98 | header, entries, block hash, then the checksum over all of it |
| XattrPlan.BlockHead | src/build/xattr_build.rs:87-98 | the fixed bytes in front of the entries of a rendered block |
| XattrPlan.AreaHead | src/build/xattr_build.rs:74-82 | an in-inode area starts with the magic number |
| XattrPlan.RenderedBlockParses | src/spec/xattr.rs:118-140 | a rendered block is parsed back with its hash and checksum |
| XattrPlan.RenderedBlockCleanIffSorted | src/reader/verify.rs:400-447 | a rendered block raises no issue exactly when its attributes are in canonical order |
| XattrPlan.CleanBlockIsSealed | src/reader/verify.rs:417-422 | with checksums on, a block without issues stores the CRC of its own number and of its bytes with the stored word zeroed |
| XattrPlan.DamagedBlockIsReported | src/reader/verify.rs:417-422 | two blocks with one stored word that differ inside four other bytes are not both without issues |
| XattrPlan.EncodedSlotHolds | src/spec/inode.rs:196-199 | the encoder puts the planned area where the reader looks for it |
| Geometry.GroupsPartition | src/layout/geometry.rs:98-106 | every block lies in exactly one group; groups hold 1 to 32768 blocks |
| Geometry.GroupSizesSum | src/layout/geometry.rs:104-106 | the group sizes add up to the device |
| Geometry.AcceptedShape | src/layout/geometry.rs:33-54 | accepted devices have 2048 to 2^32 − 2 blocks in as many groups as they need, 131072 at most |
| Geometry.InodesCoverWanted | src/layout/geometry.rs:56-65 | inodes per group are a multiple of 16 in [16, 32768], cover the wanted count unless capped, and are the least such |
| Geometry.InodesCountFits | src/layout/geometry.rs:88-91 | the 32-bit inode count fits in every accepted geometry but one |
| Geometry.InodesCountOverflows | src/layout/geometry.rs:88-91 | that one, 131072 groups of 32768 inodes, is accepted and overflows |
| Geometry.DefaultJournalAccepts | src/layout/geometry.rs:38-76 | with a default journal exactly the aligned sizes of 4096 to 2^32 − 2 blocks are accepted |
| Geometry.ExplicitJournalAccepts | src/layout/geometry.rs:38-76 | with a given journal exactly those of at least 2048 blocks and four times the journal |
| Geometry.JournalTiers | src/layout/geometry.rs:139-150 | each default journal size, and exactly the device sizes that get it |
| Geometry.JournalGrows | src/layout/geometry.rs:139-150 | a larger device never gets a smaller journal, and from 4096 blocks on it is at most a quarter of the device |
| Geometry.AcceptedFields | src/layout/geometry.rs:33-96 | the descriptor table has just enough blocks of 128 descriptors, sixteen groups share a flex group, and one inode per 16384 bytes is asked for by default |
| Geometry.IsPowerOf | src/layout/geometry.rs:111-116 | the division loop terminates and decides powers |
| Geometry.HasBackup | src/layout/geometry.rs:110-118 | beyond group 0, backups are in group 1 and in the powers of 3, 5 and 7 |
| Geometry.BackupGroups | src/layout/geometry.rs:121-123 | all backup groups, ascending |
| Geometry.BackupsFitExactly | src/layout/geometry.rs:99-123 | every backup superblock and descriptor table of an accepted geometry lies on the device if and only if the last group is no backup group or holds at least that many blocks |
| Geometry.BackupPastTheDevice | src/layout/geometry.rs:202-206 | the input: 32769 blocks are accepted, group 1 is a backup group of one block, and its descriptor table ends one block past the device |
| Bytes.Le32Decodes | src/le.rs:12-14 | a 32-bit field is read back from wherever its bytes were written |
| Bytes.Le16Decodes | src/le.rs:8-10 | a 16-bit field is read back from wherever its bytes were written |
| Bytes.Le32Encodes | src/le.rs:24-26 | writing back a field that was read changes nothing |
| Bytes.PutU16 | src/le.rs:20-22 | writes two bytes and no others |
| Bytes.PutU32 | src/le.rs:24-26 | writes four bytes and no others |

## Left out

- File and image I/O (`FileSink`, `ReadAt` for files, `examples/mkfs.rs`) and error message text: only success and the kind of failure are kept.
- The external `crc32c` crate: the append call is taken to compute the raw register form, whose meaning is proved.
- The filesystem seed's derivation from the UUID, one CRC: the seed is a parameter of every checksum.
- Superblock, group descriptor and journal field lists, `src/spec/consts.rs`, feature words, bitmaps and their checksums: flat copies.
- 16-bit truncated checksums in the burst theorem: they keep only the low half.
- `Fs::open`, path resolution, symbolic links, device numbers and the group and journal passes of the verifier.
- The standard library's sorts: attributes are sorted by a stable insertion sort, and the index builder starts from entries already in hash order.
- The rest of sealing (inode numbering, bitmaps, statistics, placing inode tables, the journal and directories): a layout is given by its segments, runs and sizes. What `Writer.Sealed` asks of the files is proved of the file loop, and which segments lie on the device is proved of the pushes; that the other segments are apart from each other and off the file blocks is assumed. The final sort of the segments is taken to order them.
- That sealing returns at all when a backup copy passes the end of the device: its block bitmap is not modelled.
- A sink that fails a call: the writer's calls are recorded, and every one of them succeeds.
- Where an inode's table is: `ImageFiles.OpenInode` is given the block and the index in the table that the group descriptor and the inode number yield, and inodes are given by their fields rather than by a declaration.
- Builds with overflow checks: `logical += r.len as u32` (`src/build/seal.rs:721`) is modelled as wrapping, as in release builds; with the checks on it panics when a run's 32-bit number and its length add up to 2^32 or more.
- Directory blocks that no index entry references: the verifier does not visit them, so nothing is claimed about reaching their names by hash.
- The text of issues and the issue list of `verify_xattr_block`: `XattrPlan.BlockClean` says when it adds none.
- Overflow of block numbers and offsets beyond 64 bits in the allocator and the sinks: excluded by the preconditions, as the device sizes that geometry accepts exclude it.
- Termination with a cap of zero: `Allocator.Allocator.Take` requires a positive cap, without which the source makes no progress.
- Allocator.Allocator.Remaining: requires disjoint reserved runs, as the constructor documents; the other methods need only sorted starts.
- ExtentWalk.Walker.WalkExtentNode: the list of extents is a field of the walker rather than a parameter, so aliasing of the caller's list is not captured.
- DirVerify.Verifier.VerifyDir: is given the extents that the walk of the inode returned, so a walk that fails is outside it.
- DirRead.ReadDir: is given the extents and a directory inode; decoding the inode and its type are outside it.
- DirHash.PackByCountdown: models the signed flavour only, as the script does.
- Inode.Decode on slots of 129 bytes: the source panics there, and the model requires another length.
- Inode.SlotDamageRejected: damage that touches both the stored checksum and covered bytes, or the generation, is outside; the window theorem says nothing about a stored value that changes along.
- IndexBuild.Build: the caller hashes and sorts the entries; the source does both itself, with the standard library's sort.
- FilePlacement.PlaceFiles: when reserved runs are empty, which sealing never makes them, the number of extents and so the exact refusal are left open.
