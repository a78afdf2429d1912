# A verified model of the xv6 fork's data structures and protocols

This project models, in Dafny, the parts of the repository whose correctness is hardest to see from the code, and proves
what they are for. Every module stands for one file or one component; `Basics` and `Outcomes` hold what several share.

| files | component |
|---|---|
| `RbShape`, `RbBalance`, `RbLinks`, `RbTree` | the intrusive red-black tree (`kernel/rbtree.c` over `kernel/bintree.c`) |
| `Extents`, `BlockCache` | the free-extent index and the block allocator of the FUSE file system (`utils/xv6fuse.c`) |
| `InodeMap`, `FileBytes`, `Shrinking`, `Inodes` | its inodes: block map, read, write, truncate, reset |
| `PathWalk` | its path resolution with symbolic links |
| `VirtioRing`, `VirtioDisk` | the virtio disk driver and its protocol with the device (`kernel/virtio_disk.c`) |
| `PipeRing`, `PipeClose`, `Pipe` | the pipe ring with its two locks, and its two closes (`kernel/pipe.c`) |
| `BufTable`, `BufCache`, `BufBlocks`, `BufferCache` | the buffer cache over its hash list (`kernel/bio.c`, `kernel/hlist.c`) |
| `FreeRing`, `Malloc` | the user-level allocator (`user/umalloc.c`) |
| `Checksum`, `Net` | UDP over IP over Ethernet (`kernel/net.c`) |
| `Grep` | the pattern matcher and the line filter (`user/grep.c`) |
| `Kobject`, `DevTable`, `DevRuns` | reference counts and the RCU device table with its devices (`kernel/kobject.c`, `kernel/dev/dev.c`) |

Code that works in place is modelled in place. Tree nodes are objects whose `left`, `right`, `parent` and colour fields the
methods write; rings, descriptor tables, packet buffers and buffer arrays are arrays; the file system, the allocator and the
caches are classes over such state. Each method is proved against a function of its old state or against an abstract state
that an invariant ties to the fields. Concurrent code (virtio, pipe, buffer cache, reference counts, RCU) is modelled as a
state machine whose steps are the sections that run under a lock or atomically, and the main results are about every run,
that is, every interleaving of such steps; where there is a class as well (virtio, pipe, buffer cache), its methods are proved
to take exactly those steps.

How the main proofs go:

- *Red-black tree.* A ghost zipper (a subtree and the path around it) says where in the tree the code is. `Focus` states that
  the heap links are those of the zipper. Each pointer write is a function on a snapshot of the heap, each rebalancing turn a
  function on zippers, and the balance argument is done on zippers alone.
- *Inodes.* All places that can hold a block address are *slots*. The invariant is that no two slots of any inodes hold the
  same address and that every address is a used data block. One lemma then says what writing a slot does to all the maps at
  once, and file contents, other inodes and the bitmap follow from it.
- *Protocols.* Every state machine carries a record of what has happened (counts that do not wrap, requests in flight, all
  bytes put in), so that wrap-around and exactly-once are statements about that record.

## Where the code does not do what one would expect

These are proved for the code as it is:

- A write at or beyond offset 2^42 goes to the offset modulo 2^42, since the block index is cut to 32 bits, and is then
  reported as too big a file (`Inodes.FileSystem.FarWrite`). `Inodes.FileSystem.Write` states where every byte goes for every
  offset; it goes where it was meant to exactly if the offset is below 2^42.
- Resetting an inode gives back all its blocks exactly if the file was `Tidy`: no data block past its size, no block of
  addresses that leads only to places past its size, and no empty block of blocks (`Inodes.FileSystem.Reset`). A truncation
  keeps a tidy file tidy (`Inodes.FileSystem.Truncate`). A write keeps it tidy exactly if the blocks it wrote are within the
  new size, which is so for every offset below 2^42, and it did not stop for want of blocks on the way to a data block and
  leave there a block of addresses that leads only to places past that size, or a block of blocks that leads nowhere
  (`Inodes.FileSystem.Write`). Each of the two failures loses a block for good in a run (`Inodes.FileSystem.LoseFarBlock`,
  `Inodes.FileSystem.LoseLastBlock`).
- Freeing a block number whose bit is found set puts the free index out of step in two cases, and in no other
  (`BlockCache.Volume.FreeBlock`). The number is past the data blocks: it goes into the index, and past the bits of the bitmap
  blocks the bit looked at is one of a data block, which is changed (`BlockCache.Volume.StrayFree`). Or the block is a bitmap
  block with the bit of a used data block in it: it is wiped, and the data block looks free (`BlockCache.Volume.WipeBits`).
- The bitmap blocks are counted from the number of data blocks, but bits are numbered from block 0. All data blocks have their
  bits in bitmap blocks exactly if they end within the bits there are; for images made by `mkfs`, if the last bitmap block has
  bits for more blocks than come before the data, as in the default image (`BlockCache.BitsFit`, `BlockCache.MkfsFits`).
- `bwrite_async` does not keep a buffer: once released it can be recycled for another block before `bsync` has written it, and
  the change is lost (`BufBlocks.LostWrite`). A block reads as it was last written unless a buffer is recycled whose data is not
  what the disk has (`BufBlocks.ReadsStep`, `BufBlocks.RunReads`), which cannot happen if holders `bwrite` what they change before
  they release it (`BufBlocks.RunSaves`).
- The checksum of the IP header does not see one word change between all zeros and all ones. A frame with one header word
  changed is delivered exactly if it is such a change of the identification, the checksum or half of the source address
  (`Net.OneWordDamaged`).
- Dirty buffers are appended at the tail of their list and taken from the tail, so the last one marked is written first; a
  comment calls the order first-in first-out (`BufferCache.Cache.Collect`).
- `rb_delete_node_color` deletes the root if its node is null, and also if its node is in no tree but has a null parent, as
  the last node of a tree has after its deletion: deleting it again deletes the root there is by then
  (`RbTree.RbRoot.DeleteNodeColor`, `RbTree.RbRoot.DeleteTwice`).
- A reader of a pipe can report the end of the file with bytes left: it looks at the flag after the counter, and a writer can
  publish and close in between. No byte is left exactly if none was published between the two loads
  (`PipeRing.EndOfFileMeans`, `PipeRing.EndTooEarly`).
- A close of a pipe touches it after clearing its flag, under its own lock, while the other close may free it. The pipe is
  touched after it was freed exactly if it was freed while the other close had not let go of its lock, and that close has gone
  on since (`PipeClose.LateExactly`, `PipeClose.TouchedAfter`); never, if the first close let go of its lock before the second
  cleared its flag (`PipeClose.InTurn`).
- A release goes through the device table a second time, as a writer that makes a missing entry. Unregistering a device nobody
  has a reference to leaves an entry with no devices exactly if it was the only one under its major number
  (`DevRuns.FullUnregister`); any single pass leaves one exactly if there were no devices under that number before
  (`DevTable.LeavesEmpty`).
- The grace period covers the table entry but not the device: a release waits for no section, so a section can be left with a
  pointer to a released device (`DevRuns.HeldAfterRelease`). It is, exactly if it had it when the device left the table and has
  not gone on since (`DevTable.HeldSince`), so a grace period before the release would do (`DevTable.GraceWouldDo`).
- A device registered with minor number 0 is not found when it is to be taken out; its slot leads to it for ever, also after
  its release, and a released device is in the table exactly if it was once registered so (`DevTable.ReleasedFound`,
  `DevRuns.FoundAfterRelease`).
- `device_get` can return a device under other numbers than asked for, if the same memory was registered again between the read
  of the slot and the swap, and only then (`DevTable.GetReturns`, `DevRuns.OtherDevice`).
- `grep` prints nothing from the first line on that is too long for its buffer or has a NUL before its end (`Grep.Filter`).

## Model

| member | source | states |
|---|---|---|
| `RbShape.RotationKeepsOrder` | kernel/bintree.c:305-357 | both rotations keep the in-order sequence of any subtree |
| `RbShape.PlugInOrder` | kernel/bintree.c:72-114 | the order of a tree is what lies before a place, what is in it, and what lies after it, for every place |
| `RbShape.PlugOk` | kernel/rbtree.c:45-118 | a subtree of the right black height, and not red below red, put in any place of a red-black tree leaves one |
| `RbShape.UnplugOk` | kernel/rbtree.c:127-203 | conversely, every place in a red-black tree is one its subtree fits in height and colour |
| `RbShape.LogarithmicDepth` | kernel/rbtree.c:45-118 | no path of a red-black tree of n nodes is longer than 2*log2(n+1) |
| `RbBalance.InsertTurnKeeps` | kernel/rbtree.c:57-113 | every turn of the insertion loop, in all recolouring and rotation cases on both sides, keeps the order of the whole tree and all black heights, leaves a red-red clash only at the new place, and goes up two levels |
| `RbBalance.InsertDone` | kernel/rbtree.c:57-117 | leaving the insertion loop and blackening the root gives a red-black tree |
| `RbBalance.BrotherExists` | kernel/rbtree.c:127-203 | a place that is a black node short has a brother, before and after a red brother is rotated away, so the code's dereferences are safe |
| `RbBalance.LendNothing` | kernel/rbtree.c:142-147 | a brother with no red child turns red and the shortage moves up by one |
| `RbBalance.BorrowFits` | kernel/rbtree.c:127-203 | a brother that lends a red child removes the shortage and the whole tree is red-black again |
| `RbBalance.DeleteDone` | kernel/rbtree.c:127-203 | stopping at the root or at a red node, which turns black, leaves a red-black tree |
| `RbBalance.FewKids` | kernel/rbtree.c:205-260 | a node with one child at most is a red leaf, a black leaf, or a black node with one red leaf below it |
| `RbLinks.RotateLeftRep` | kernel/bintree.c:305-330 | the pointer writes of a left rotation, in their order, turn the linked structure into its rotation, parents included, and touch nothing else |
| `RbLinks.RotateRightRep` | kernel/bintree.c:332-357 | the same for a right rotation |
| `RbLinks.TransplantRep` | kernel/bintree.c:129-142 | hanging a node's only child in its place keeps the rest of the tree linked and takes just that node out of the order |
| `RbLinks.ReplaceRep` | kernel/bintree.c:116-127 | putting one node in another's place keeps the tree linked with only that node exchanged |
| `RbLinks.SuccessorOrder` | kernel/rbtree.c:216-259 | taking out a node's successor and giving it the node's place removes exactly the node from the order |
| `RbTree.RbRoot.constructor` | kernel/inc/bintree.h:239-250 | an empty tree satisfies the whole invariant |
| `RbTree.RbRoot.RotateLeft` | kernel/bintree.c:305-330 | the heap below a place becomes the left rotation of its shape; the result is the new root there, null for an empty place |
| `RbTree.RbRoot.RotateRight` | kernel/bintree.c:332-357 | the mirror image |
| `RbTree.RbRoot.Transplant` | kernel/bintree.c:129-142 | exactly the link of the old node and the parent of the new one are written |
| `RbTree.RbRoot.ReplaceNode` | kernel/bintree.c:116-127 | the new node stands where the old one stood, with its children and colour, and the old one is its own parent |
| `RbTree.RbRoot.FindKeyLink` | kernel/bintree.c:144-165 | the link found holds the node with the key, or is the one empty place with all smaller keys before it and all larger after it |
| `RbTree.RbRoot.InsertNode` | kernel/bintree.c:225-238 | a new node is hung as a leaf at its sorted place, or the node with an equal key is returned and nothing changes |
| `RbTree.RbRoot.InsertFixup` | kernel/rbtree.c:57-117 | the rebalancing loop ends with the same nodes in the same order in a red-black tree |
| `RbTree.RbRoot.InsertColor` | kernel/rbtree.c:45-118 | a valid tree stays sorted, linked and red-black; the node is added at one place and nothing is lost, or an equal key is reported and every field, of the given node too, is unchanged |
| `RbTree.RbRoot.DeleteFixup` | kernel/rbtree.c:127-203 | the deletion loop removes the black shortage at any place, keeping order and links, and ends |
| `RbTree.RbRoot.TakeOut` | kernel/rbtree.c:205-260 | exactly the given node leaves the order, also when its successor takes its place; the rest is red-black |
| `RbTree.RbRoot.DeleteNodeColor` | kernel/rbtree.c:262-273 | the tree stays valid and loses exactly the node returned; nothing but the given node is removed if and only if it is in the tree, or is its own parent, or the tree is empty; otherwise the root is |
| `RbTree.RbRoot.DeleteTwice` | kernel/rbtree.c:240-242 | the last node of a tree, deleted, and deleted again after another was added, takes the other out |
| `RbTree.RbRoot.DeleteKeyColor` | kernel/rbtree.c:275-287 | the node with the key is removed and returned, or no node has the key and nothing changes |
| `RbTree.RbRoot.First` | kernel/bintree.c:50-59 | the node with the least key, null exactly for an empty tree |
| `RbTree.RbRoot.Last` | kernel/bintree.c:61-70 | the node with the greatest key |
| `RbTree.RbRoot.Next` | kernel/bintree.c:72-92 | the node with the next greater key, null for the last node and for a node in no tree, be it its own parent or once the last of its tree |
| `RbTree.RbRoot.FindKey` | kernel/bintree.c:213-223 | a node with the key if and only if there is one |
| `RbTree.RbRoot.FindKeyUp` | kernel/bintree.c:167-188 | the node with the least key at or above the given one, null if and only if there is none |
| `RbTree.RbRoot.FindKeyDown` | kernel/bintree.c:190-211 | the node with the greatest key at or below the given one, null if and only if there is none |
| `Extents.Canonical` | utils/xv6fuse.c:161-212 | extents that never touch are determined by the blocks they cover: each is a longest run |
| `Extents.JoinedHas` | utils/xv6fuse.c:161-212 | joining a run to its neighbours adds exactly the blocks of the run |
| `Extents.JoinedWf` | utils/xv6fuse.c:161-212 | and leaves extents that are in order and do not touch |
| `Extents.FloorHolds` | utils/xv6fuse.c:151-158 | only the extent that starts last at or before a block can contain it |
| `BlockCache.Volume.FindExtentLe` | utils/xv6fuse.c:139-142 | the extent that starts last at or before a block |
| `BlockCache.Volume.FindExtentGe` | utils/xv6fuse.c:145-148 | the extent that starts first at or after a block |
| `BlockCache.Volume.FindExtentContaining` | utils/xv6fuse.c:151-158 | null if and only if the block is in no extent, else the one it is in |
| `BlockCache.Volume.InsertExtent` | utils/xv6fuse.c:161-212 | the index covers the old blocks and the run, merged on both sides, with both counters exact |
| `BlockCache.Volume.AllocFromExtent` | utils/xv6fuse.c:215-230 | the last block of an extent, and only it, leaves the index |
| `BlockCache.Volume.MarkFree` | utils/xv6fuse.c:233-238 | the block joins the index if there is one and it is not below the data blocks |
| `BlockCache.Volume.FindFreeBlock` | utils/xv6fuse.c:241-262 | it fails if and only if the index is empty; else one indexed block leaves it, before the cursor only if no extent starts at or after it and then from the first extent, and the cursor stays in range |
| `BlockCache.Volume.FindFreeBlockNear` | utils/xv6fuse.c:265-296 | the end of the first run of free blocks from the hint on; below the hint only if no indexed data block is at or above it, and then the last one of all |
| `BlockCache.Volume.ScanBitmap` | utils/xv6fuse.c:310-352 | the scan indexes exactly the data blocks whose bit is clear |
| `BlockCache.Volume.Init` | utils/xv6fuse.c:299-353 | afterwards index and bitmap agree exactly; a second call changes nothing |
| `BlockCache.BitsFit` | utils/xv6fuse.c:452-458 | every data block has its bit in a bitmap block if and only if the data blocks end within the bits of the bitmap blocks |
| `BlockCache.MkfsFits` | mkfs/mkfs.c:29-101 | for an image of mkfs both programs put the start of the data in the same place if and only if the last bitmap block has more bits in use than there are blocks before the data, and then every data block has its bit |
| `BlockCache.Volume.FreeBlock` | utils/xv6fuse.c:691-721 | for every block number: which bits are cleared, in the bitmap blocks, all those of a bitmap block that is freed itself, or in a data block; what is wiped; what the index gets; EIO if and only if the block of the bit is past the image; the index stays exact if and only if the bit was not set, or the block is not past the data blocks and holds no bit of a used data block |
| `BlockCache.Volume.StrayFree` | utils/xv6fuse.c:470-502 | freeing a block number past the bitmap changes a data block and spoils the index |
| `BlockCache.Volume.WipeBits` | utils/xv6fuse.c:711-713 | freeing a bitmap block makes a used data block look free, and the index does not have it |
| `BlockCache.Volume.AllocByScan` | utils/xv6fuse.c:550-585 | without an index: the first free data block, or ENOSPC if and only if none is free |
| `BlockCache.Volume.AllocBlock` | utils/xv6fuse.c:503-585 | with a stale index too, it fails if and only if no data block is free; the block was free, is now marked and cleared, and an exact index stays exact |
| `BlockCache.Volume.AllocBlockNear` | utils/xv6fuse.c:592-640 | with an index the block is below the hint only if nothing free is at or above it, and then the last free one; with an exact index it is otherwise the end of the first free run from the hint on; it fails if and only if nothing is free |
| `BlockCache.Volume.FreeBlocks` | utils/xv6fuse.c:2379-2396 | the counter and the count over the bitmap are both the number of free data blocks |
| `InodeMap.WordSet` | utils/xv6fuse.c:379-401 | a little-endian word stored in a block is read back, and other words are untouched |
| `InodeMap.ZeroBuffer` | utils/xv6fuse.c:460-468 | a block of addresses is all zero bytes exactly if every address in it is 0 |
| `InodeMap.LeafIndex` | utils/xv6fuse.c:751-811 | every block index below MAXFILE has a slot of its own |
| `InodeMap.IndexLeaf` | utils/xv6fuse.c:751-811 | and every data slot is that of one block index |
| `InodeMap.PutSets` | utils/xv6fuse.c:837-974 | writing an address into one slot changes no other slot of any inode |
| `InodeMap.FillStep` | utils/xv6fuse.c:837-974 | a free block, cleared and put in an empty slot, keeps all addresses distinct and marked, changes no file, and leaks nothing |
| `InodeMap.DropStep` | utils/xv6fuse.c:976-1090 | emptying a slot and freeing its block does too, and only that file block becomes zero |
| `InodeMap.PokeStep` | utils/xv6fuse.c:1172-1178 | writing a data block changes no map and just that block of that file |
| `FileBytes.SpliceBytes` | utils/xv6fuse.c:1154-1179 | copying a piece into one block makes exactly those bytes of exactly that file the source's |
| `FileBytes.WroteTidy` | utils/xv6fuse.c:1144-1205 | for every way a write can end: a tidy file stays tidy if and only if the blocks written are within the new size and, if it stopped for want of a block, no block of addresses is stranded on the way to it |
| `Inodes.FileSystem.EnsureBlock` | utils/xv6fuse.c:837-974 | the block has an address, only empty slots on the way to it were filled, from free blocks, no file changed; a new block is below the block before it in the file (for the first in a block of addresses, below that block; for the first of all, below the next direct block) only if nothing above the new one is free; EFBIG exactly past MAXFILE, ENOSPC only when nothing is free |
| `Inodes.FileSystem.Read` | utils/xv6fuse.c:1092-1133 | EINVAL below 0; nothing at or past the end; otherwise exactly the bytes of the file up to the length asked for or the end of the file, whichever comes first, or ENOENT if and only if one of them is in a hole |
| `Inodes.FileSystem.CopyAll` | utils/xv6fuse.c:1154-1179 | the loop puts a prefix of the source in place, all of it unless the file is at its largest or no block is free |
| `Inodes.FileSystem.Write` | utils/xv6fuse.c:1144-1205 | for every offset: which bytes end up where, that no other byte of any file, no address in use and no other inode changes, what is allocated, which slots are filled, the new size, the exact result, and exactly when a tidy file stays tidy |
| `Inodes.FileSystem.WriteThenRead` | utils/xv6fuse.c:1092-1205 | a read of any length at the place of a write gives the bytes the write reports as done and goes on with what the file had there, to its own length or to the new end of the file |
| `Inodes.FileSystem.FarWrite` | utils/xv6fuse.c:1155-1156 | a byte written at 2^42 replaces byte 0 while EFBIG is returned |
| `Shrinking.BareBuffer` | utils/xv6fuse.c:1017-1024 | the zero test of a block of addresses says exactly whether any slot in it is filled |
| `Shrinking.ClearedDouble` | utils/xv6fuse.c:1030-1087 | clearing through the block of blocks frees each level exactly when it has become empty |
| `Shrinking.EmptiedMore` | utils/xv6fuse.c:1229-1235 | clearing one more block from the end extends what the loop has established |
| `Shrinking.AllGone` | utils/xv6fuse.c:1229-1235 | after all blocks up to the size are cleared nothing is left if and only if the file was tidy |
| `Shrinking.AllBack` | utils/xv6fuse.c:1258-1265 | all its blocks are marked free if and only if the file was tidy |
| `Shrinking.WipeTight` | utils/xv6fuse.c:1258-1265 | wiping an inode loses track of a used block if and only if the inode still had one |
| `Shrinking.CutTidy` | utils/xv6fuse.c:1229-1235 | a tidy file that is cut down is tidy for its new size |
| `Inodes.FileSystem.ClearBlock` | utils/xv6fuse.c:976-1090 | one file block is unmapped, other data blocks are not, blocks of addresses go exactly when emptied, and exactly the blocks dropped are marked free |
| `Inodes.FileSystem.Truncate` | utils/xv6fuse.c:1207-1256 | every error case; bytes past the length are zero, the rest and all other files keep theirs; bits are cleared for exactly the blocks the inode gave up; a tidy file stays tidy; no leak if there was none |
| `Inodes.FileSystem.Reset` | utils/xv6fuse.c:1258-1265 | kind, links, size and all addresses are 0, others keep theirs; all its blocks are free again, and nothing is leaked, if and only if it was tidy |
| `Inodes.FileSystem.LoseLastBlock` | utils/xv6fuse.c:837-974 | from a tight file system with one free block, a failed write and a reset leave a block that is marked used and belongs to no one |
| `Inodes.FileSystem.LoseFarBlock` | utils/xv6fuse.c:1180-1186 | from a tight file system with any block free, a byte written at 2^42 to an empty file and a reset leave such a block |
| `Inodes.FileSystem.Smallest` | utils/xv6fuse.c:299-353 | a file system of three blocks that satisfies the whole invariant |
| `PathWalk.NamesJoin` | utils/xv6fuse.c:1371-1395 | joining paths at a slash joins their lists of names |
| `PathWalk.NamesSpelled` | utils/xv6fuse.c:1474-1504 | the spelled-out name of a directory splits into the names it was built from |
| `PathWalk.Rewalk` | utils/xv6fuse.c:1446-1466 | walking to a directory by its name follows no link: resolution goes on from it with as many links to spare |
| `PathWalk.GoUp` | utils/xv6fuse.c:1476-1488 | in a tree, `..` leads to what dropping the last name spells |
| `PathWalk.SplicedResolves` | utils/xv6fuse.c:1446-1466 | resolving the spliced path from the root equals resolving the target where the link is, then the rest |
| `PathWalk.MoreLinks` | utils/xv6fuse.c:1433-1436 | a larger link limit changes a result only if it was ELOOP |
| `PathWalk.PlainPath` | utils/xv6fuse.c:1371-1505 | names that lead through directories are walked one after the other and use up no link |
| `PathWalk.NameMeans` | utils/xv6fuse.c:1389-1470 | a name of more than 14 characters is ENAMETOOLONG, one the directory does not have ENOENT, a file with more names after it ENOTDIR; the last name gives its inode, the link itself if links are not followed |
| `PathWalk.LinkMeans` | utils/xv6fuse.c:1430-1466 | a link is followed from the root or from its own directory, with one link less to spare; ELOOP with none, its error if it cannot be read |
| `PathWalk.LinkChain` | utils/xv6fuse.c:1430-1436 | a chain of links is followed to its end if and only if there are no more of them than may be followed, else ELOOP |
| `PathWalk.ResolvePath` | utils/xv6fuse.c:1350-1511 | on any tree the splice-and-restart loop ends and gives the reference result, unless a path it builds exceeds the buffer, which cannot happen while the path and ten targets fit one |
| `VirtioRing.PostGood` | kernel/virtio_disk.c:321-394 | posting a request keeps the invariant; in particular no waiting avail slot is overwritten |
| `VirtioRing.ArmGood` | kernel/virtio_disk.c:396-400 | so does noting the completion and letting go of the lock, wherever the device is by then |
| `VirtioRing.FetchGood` | kernel/virtio_disk.c:383-389 | the device finds the oldest untaken head in the slot its own count leads to |
| `VirtioRing.ReturnGood` | kernel/virtio_disk.c:432-455 | the device may return requests in any order; no unread used slot is overwritten |
| `VirtioRing.SeesReturned` | kernel/virtio_disk.c:432 | the two 16-bit counts differ if and only if a returned request has not been handled, across wrap-around |
| `VirtioRing.SignalGood` | kernel/virtio_disk.c:432-455 | when the handler looks at a request its status is 0, its completion is there and it has not been signalled before |
| `VirtioRing.ReapGood` | kernel/virtio_disk.c:402-410 | when a woken submitter has the lock its request is done and was signalled; its three descriptors become free |
| `VirtioRing.ChainMeans` | kernel/virtio_disk.c:347-377 | while a request is in flight its descriptors say exactly the command, buffer, direction and status byte recorded for it |
| `VirtioRing.MeansAsked` | kernel/virtio_disk.c:347-410 | in every run, from a submission until its submitter takes the descriptors back, the chain says what that submission asked for |
| `VirtioRing.StatusTells` | kernel/virtio_disk.c:377-440 | the status byte is 0 if and only if the device has returned the request, else 255 |
| `VirtioRing.NoCheckFails` | kernel/virtio_disk.c:404-448 | none of the assertions of the handler or the submitter can fail |
| `VirtioRing.RunGood` | kernel/virtio_disk.c:321-458 | in every interleaving of submitters, handler and device, free descriptors and the chains in flight partition all descriptors and both rings hold exactly what is waiting |
| `VirtioRing.SignalledOnce` | kernel/virtio_disk.c:436-454 | in every run each submission has been signalled once if it is no longer waiting, and not at all if it is |
| `VirtioDisk.Freelist.constructor` | kernel/inc/freelist.h:22-35 | all items are free |
| `VirtioDisk.Freelist.Alloc` | kernel/inc/freelist.h:39-48 | -1 if and only if none is free, else a free item that is so no more |
| `VirtioDisk.Freelist.Release` | kernel/inc/freelist.h:52-66 | refuses items out of range or free; else exactly the item becomes free, and the corruption check never fires |
| `VirtioDisk.Driver.FreeChain` | kernel/virtio_disk.c:294-304 | exactly the three descriptors of a chain become free and zero |
| `VirtioDisk.Driver.Alloc3Desc` | kernel/virtio_disk.c:308-319 | three different free descriptors if and only if there are three; otherwise the free set is unchanged |
| `VirtioDisk.Driver.Submit` | kernel/virtio_disk.c:321-394 | the chain at the head returned means the request given, its status is 255, it is in the next avail slot, and no other descriptor or request is touched; it is the posting step of the protocol; nothing for anyone when descriptors are short |
| `VirtioDisk.Driver.Release` | kernel/virtio_disk.c:396-400 | the completion is noted at the head, the lock is free, no other request is touched; it is a step of the protocol |
| `VirtioDisk.Driver.SignalOne` | kernel/virtio_disk.c:432-455 | the request in the next used slot, and no other, is marked done and its ticket signalled; the checks the source makes hold |
| `VirtioDisk.Driver.HandleInterrupt` | kernel/virtio_disk.c:413-458 | every request returned so far is signalled, no other, and nothing is left unhandled |
| `VirtioDisk.Driver.Finish` | kernel/virtio_disk.c:402-410 | exactly the three descriptors of the request become free and its completion is forgotten; no other request is touched |
| `PipeRing.NeverSameSlot` | kernel/pipe.c:91-129 | however stale the snapshots, a slot being written is never one that is being or still to be read |
| `PipeRing.NextGood` | kernel/pipe.c:219-327 | every load, byte copied, counter published and end closed, by either side, keeps the invariant modulo 2^32, however old the counter loaded |
| `PipeRing.RunGood` | kernel/pipe.c:219-327 | in every interleaving the bytes taken are a prefix of the bytes put, and at most PIPESIZE lie between |
| `PipeRing.WritePuts` | kernel/pipe.c:284-319 | in every run a turn of a writer appends the first bytes it was given, all of them or as many as there was room for when it looked |
| `PipeRing.ReadTakes` | kernel/pipe.c:224-268 | and a turn of a reader takes the oldest bytes left, as many as it wanted or all there were when it looked |
| `PipeRing.EndOfFileMeans` | kernel/pipe.c:226-236 | at the end of the file all bytes there were at the load of nwrite have been taken; none is left if and only if none was published before the flag was tested, which is sure if the write end was closed before the load |
| `PipeRing.EndTooEarly` | kernel/pipe.c:22-39 | a run in which the end of the file is reported with a byte in the pipe |
| `PipeClose.RunGood` | kernel/pipe.c:23-39 | in every interleaving of ring and closes exactly one close is to free the pipe once both flags are clear, and none before |
| `PipeClose.FreedOnce` | kernel/pipe.c:36-38 | the pipe is freed at most once, only with both ends closed, and has been when both closes are over |
| `PipeClose.LateExactly` | kernel/pipe.c:25-38 | the pipe has been touched after it was freed if and only if it was freed while the other close had not let go of its lock, which has gone on since |
| `PipeClose.InTurn` | kernel/pipe.c:25-38 | it is never, if the first close had let go of its lock before the second cleared its flag |
| `PipeClose.TouchedAfter` | kernel/pipe.c:25-38 | a run in which it is |
| `Pipe.WrittenAt` | kernel/pipe.c:302-315 | what each ring position holds after a modular copy |
| `Pipe.Ring.CopyIn` | kernel/pipe.c:302-315 | the copy in two stretches equals the modular copy one byte at a time |
| `Pipe.Ring.CopyOut` | kernel/pipe.c:251-264 | the bytes read in two stretches are those at consecutive positions modulo PIPESIZE |
| `Pipe.Ring.WriteSome` | kernel/pipe.c:284-319 | -1 if and only if no one can read, 0 if and only if the pipe is full, else as many bytes as fit are appended |
| `Pipe.Ring.ReadSome` | kernel/pipe.c:224-268 | the oldest bytes, as many as wanted and there are, are removed; taken in one piece, the turn is at the end of the file if and only if the pipe is empty and not writable |
| `BufTable.GetIs` | kernel/hlist.c:150-175 | a look-up gives a buffer if and only if it is in the table under that key |
| `BufTable.WithoutAt` | kernel/bio.c:178-181 | detaching an element from a list leaves the others in their order |
| `BufTable.PoppedOk` | kernel/bio.c:198-213 | popping by key, and putting back a clashing buffer, takes exactly the recycled one out of the table |
| `BufTable.RekeyedOk` | kernel/bio.c:198-225 | recycling a buffer leaves the table with it under the new key and all others where they were |
| `BufCache.OneBuffer` | kernel/bio.c:170-229 | two buffers in use with the same device and block are the same buffer |
| `BufCache.RecycledGood` | kernel/bio.c:189-226 | recycling the oldest free buffer keeps all tables consistent and coherent and changes no buffer anyone refers to |
| `BufCache.ClashOnlyUnused` | kernel/bio.c:199-213 | a clash at recycling is only ever with a buffer that was never used, so the panic is unreachable |
| `BufCache.LockedGood` | kernel/bio.c:185-228 | whoever gets a buffer's lock finds no other holder's unwritten change in it |
| `BufCache.LoadedGood` | kernel/bio.c:256-279 | what bread hands out is what is on the disk |
| `BufCache.WrittenGood` | kernel/bio.c:282-305 | bwrite stores what the buffer had at its block and nowhere else; key, data and validity of every buffer are as before, this one is clean and off the dirty list; all tables stay consistent and coherent |
| `BufCache.DroppedGood` | kernel/bio.c:392-407 | releasing puts a buffer on the free list exactly when the last reference goes |
| `BufCache.NextGood` | kernel/bio.c:170-427 | every section of every operation keeps the tables consistent and the identity of every buffer referred to; it keeps coherence unless an unwritten change is let go |
| `BufCache.RunGood` | kernel/bio.c:141-427 | in every interleaving lists, counts and table agree; if holders write what they change before releasing, every valid buffer not being changed equals the disk |
| `BufBlocks.ReadsStep` | kernel/bio.c:170-427 | every section leaves each block reading as it was last written, if and only if it does not recycle a buffer whose data is not what the disk has |
| `BufBlocks.DiskStep` | kernel/bio.c:282-364 | the disk changes only at the block bwrite or bsync writes, to what its buffer has |
| `BufBlocks.RunReads` | kernel/bio.c:170-427 | so in every interleaving a block reads as it was last written, while nothing is lost |
| `BufBlocks.RunSaves` | kernel/bio.c:170-427 | and always, if holders write what they change before they let go |
| `BufBlocks.BreadReads` | kernel/bio.c:256-305 | what bread gives for a block is what was last written to it, and bwrite leaves that on the disk |
| `BufBlocks.LostWrite` | kernel/bio.c:189-226 | a run in which a buffer marked by bwrite_async is recycled and its change is lost |
| `BufferCache.Cache.constructor` | kernel/bio.c:141-165 | the initial state |
| `BufferCache.Cache.HlistGet` | kernel/hlist.c:118-175 | the scan finds the buffer with the key if and only if it is in the table |
| `BufferCache.Cache.HlistPop` | kernel/bio.c:198-213 | the table without the recycled buffer; the source's clash check and its push of the other buffer cannot fail |
| `BufferCache.Cache.Bget` | kernel/bio.c:170-229 | the one buffer for the block with a reference more, or the buffer released longest ago, emptied, under the new block; no other buffer changes; a panic if and only if the block has hash 0, or is not cached and nothing is free |
| `BufferCache.Cache.Bread` | kernel/bio.c:256-279 | the buffer's lock, and the data on the disk |
| `BufferCache.Cache.Bwrite` | kernel/bio.c:282-305 | the disk gets what the buffer had at its block; no buffer changes but for its dirty mark, which goes with its entry in the dirty list |
| `BufferCache.Cache.BwriteAsync` | kernel/bio.c:309-321 | the buffer is marked and at the end of the dirty list, or where it was there; nothing else changes |
| `BufferCache.Cache.Collect` | kernel/bio.c:332-348 | the last buffer of the dirty list is taken off it, unmarked, and off the free list, with a reference |
| `BufferCache.Cache.Flush` | kernel/bio.c:350-364 | a valid buffer's data is on the disk |
| `BufferCache.Cache.Brelse` | kernel/bio.c:392-407 | a reference less; the last one puts the buffer at the head of the free list; coherence holds if the data was written |
| `BufferCache.Cache.Bpin` | kernel/bio.c:409-417 | a reference more, and the buffer, alone, is off the free list |
| `BufferCache.Cache.Bunpin` | kernel/bio.c:419-427 | a reference less; the last one puts the buffer at the head of the free list |
| `BufferCache.Cache.BdirtyCount` | kernel/bio.c:383-388 | the number of dirty buffers |
| `FreeRing.PutRing` | user/umalloc.c:31-40 | in all four merge cases the list is a circle in address order with one step back |
| `FreeRing.PutSizes` | user/umalloc.c:31-40 | and its headers hold exactly the free blocks, joined with those they touch |
| `FreeRing.TilesFree` | user/umalloc.c:24-42 | free and live blocks still tile the memory after a free |
| `FreeRing.TilesTake` | user/umalloc.c:67-79 | and after an allocation, which overlaps no live block |
| `Malloc.Heap.FindPlace` | user/umalloc.c:28-30 | from any position of the rover the walk ends within a lap at the header after which the block belongs |
| `Malloc.Heap.Free` | user/umalloc.c:24-42 | the block's units become free and no others; no two free blocks touch; memory is tiled |
| `Malloc.Heap.Morecore` | user/umalloc.c:44-57 | the new memory becomes free |
| `Malloc.Heap.Search` | user/umalloc.c:67-83 | a lap finds a large enough block if and only if there is one, the first one after the rover |
| `Malloc.Heap.Take` | user/umalloc.c:68-79 | the end of the block found is handed out; exactly the units handed out stop being free, and the rover is left before the block |
| `Malloc.Heap.Malloc` | user/umalloc.c:59-84 | a block disjoint from all live ones, of the least number of units with room for the bytes; null if and only if nothing fits and sbrk fails; sbrk is called at most once and only when nothing fits; the loop ends |
| `Checksum.TwoFolds` | kernel/net.c:126-129 | two folds of any 32-bit sum give its one's-complement sum |
| `Checksum.InCksum` | kernel/net.c:104-133 | the complement of the one's-complement sum, for up to 65537 words without overflow |
| `Checksum.Completes` | kernel/net.c:164 | a header completed with its checksum has checksum 0 |
| `Checksum.OneWordChanged` | kernel/net.c:289-291 | changing one word goes unnoticed if and only if it swaps 0 and 0xffff |
| `Net.HeaderChecks` | kernel/net.c:152-164 | the IP header sent passes the receiver's check |
| `Net.RoundTrip` | kernel/net.c:136-183 | for every payload, address, port and trailing padding, what is sent is what is delivered |
| `Net.Delivered` | kernel/net.c:246-329 | exactly which frames are delivered, by their bytes, and with what payload, address and ports |
| `Net.FrameLayout` | kernel/net.c:136-183 | the bytes of a frame that is sent, one by one |
| `Net.OthersDropped` | kernel/net.c:246-308 | a frame for another host, and every frame cut short, is dropped |
| `Net.ChecksumSees` | kernel/net.c:289-291 | changing one word of a header that checks is seen unless all zeros become all ones or the reverse |
| `Net.OneWordDamaged` | kernel/net.c:278-308 | a sent frame with one header word changed is delivered if and only if that is such a change of the identification, the checksum or half of the source address; all else in it is as sent |
| `Net.Mbuf.Pull` | kernel/net.c:21-28 | bytes are stripped off the front, or nothing if there are too few |
| `Net.Mbuf.Push` | kernel/net.c:31-37 | a header in front of the same contents |
| `Net.Mbuf.Trim` | kernel/net.c:50-55 | bytes are stripped off the end, or nothing if there are too few |
| `Net.Mbuf.TxUdp` | kernel/net.c:171-183 | the buffer holds the frame, byte by byte |
| `Net.Mbuf.TxIp` | kernel/net.c:136-168 | the two outer headers, with the checksum the loop computes |
| `Net.Mbuf.NetRxUdp` | kernel/net.c:246-275 | delivered if and only if the two lengths agree and the payload is in the packet, with 16-bit wrap-around; then exactly those bytes and the ports in the header |
| `Net.Mbuf.NetRxIp` | kernel/net.c:278-308 | what goes on has version byte 0x45, a header that checks, fragment offset 0, protocol 17 and this host as its destination; the result is the reference receiver's |
| `Net.Mbuf.NetRx` | kernel/net.c:312-329 | delivered if and only if all of these hold of the bytes of the frame; the buffer is left with the payload, which is in the frame from byte 42 on |
| `Net.Exchange` | kernel/net.c:136-329 | a datagram sent through one buffer is delivered by another |
| `Grep.ManyFirst` | user/grep.c:92-98 | a repetition is found exactly where some number of fitting characters leads to the rest |
| `Grep.MatchHere` | user/grep.c:79-89 | true if and only if a prefix of the text is described by the pattern, all of it after a final `$` |
| `Grep.MatchStar` | user/grep.c:92-98 | true if and only if some run of fitting characters is followed by a match |
| `Grep.Match` | user/grep.c:68-76 | true if and only if the pattern's meaning holds at some position, or at the start after `^` |
| `Grep.PlainMeans` | user/grep.c:68-89 | plain characters are found exactly where the text has them; after `^` at its start, before a final `$` at its end, between the two if they are all of it |
| `Grep.StarMeans` | user/grep.c:79-98 | between plain characters `c*` stands for any run of `c`, none included, and `.*` for anything |
| `Grep.DotMeans` | user/grep.c:79-89 | between plain characters `.` stands for exactly one character, whatever it is |
| `Grep.TakeLines` | user/grep.c:20-27 | the ended lines in the buffer are consumed and the matching ones printed |
| `Grep.Filter` | user/grep.c:11-33 | however reads chop the input, exactly the matching lines before the first one too long for the buffer, cut by a NUL, or not ended, are printed in order |
| `Grep.FilterMeans` | user/grep.c:11-33 | nothing is lost if and only if no matching line comes after that one, and so if all lines fit and there is no NUL |
| `Kobject.PlusSound` | kernel/kobject.c:44-48 | a reference may be added if and only if the count is not 0: kobject_get of a dead object leads to a second release |
| `Kobject.RunGood` | kernel/kobject.c:36-74 | in every interleaving of init, get, try_get and put a count is the number of references out and the live count is the length of the list |
| `Kobject.ReleasedOnce` | kernel/kobject.c:62-74 | an object is released at most once and only with no reference out, and without references its release has begun |
| `Kobject.StaysDead` | kernel/kobject.c:44-60 | once a count is 0 no reference is ever given out again, by kobject_try_get, or by kobject_get for those who have one |
| `Kobject.TryNotRefused` | kernel/kobject.c:50-60 | while the count stays above 0 kobject_try_get is not refused: it goes on, or ends with one new reference |
| `DevTable.NextGood` | kernel/dev/dev.c:103-347 | every section under the lock and every atomic step of register, unregister, get, dup, put, release and grace periods keeps the invariant on table, entries, devices and calls |
| `DevTable.RunGood` | kernel/dev/dev.c:103-347 | so it holds in every interleaving |
| `DevTable.FoundAlive` | kernel/dev/dev.c:178-244 | a device registered by number and found in a slot is the one with these numbers, not released, and has references out unless its registrant gave up the first by other means than device_unregister |
| `DevTable.ReleasedFound` | kernel/dev/dev.c:134-147 | a released device is still found in some slot if and only if it was once registered with minor number 0 |
| `DevTable.AutoStays` | kernel/dev/dev.c:178-192 | a slot got by asking for any free one is never emptied |
| `DevTable.ReleasedOnce` | kernel/dev/dev.c:213-217 | a device is released once for each registration and only after its last reference; whoever has a reference has an unreleased device |
| `DevTable.CountsRight` | kernel/dev/dev.c:193-202 | num_minors of every entry is the number of its filled slots, and the count of live objects that of the devices not yet detached |
| `DevTable.NeverFreed` | kernel/dev/dev.c:205-209 | no section, up to its end, has a table entry that was freed |
| `DevTable.GetReturns` | kernel/dev/dev.c:222-278 | a successful device_get or device_dup adds one reference, and nothing else, to a device that is neither released nor being released; it has the numbers asked for unless it was registered again since |
| `DevTable.FlagStops` | kernel/dev/dev.c:246-272 | once device_unregister has set the flag, no call of device_get or device_dup that has not tested it yet gets past the test or to a reference, unless the device is registered again |
| `DevTable.GetNotRefused` | kernel/dev/dev.c:222-261 | conversely device_get does not fail while the device it is for has its flag clear and its count above 0 |
| `DevTable.RegisterTakes` | kernel/dev/dev.c:103-175 | a registration takes an empty slot, the one asked for or the lowest, and changes no other slot and no other device |
| `DevTable.DupNotRefused` | kernel/dev/dev.c:265-278 | the holder of a reference is refused by device_dup only because of the flag |
| `DevTable.DupOnlyFlag` | kernel/dev/dev.c:265-278 | it fails at the test of the flag and nowhere else |
| `DevTable.StaysDead` | kernel/dev/dev.c:252-257 | once a device's count is 0 no reference to it is given out before it is registered again |
| `DevTable.LeavesEmpty` | kernel/dev/dev.c:178-210 | going through the table to take a device out leaves an entry with no devices under its number if and only if there were none there before, and changes this for no other number |
| `DevTable.HeldSince` | kernel/dev/dev.c:222-261 | a section has a device that is out of the table if and only if it has had it ever since the device left |
| `DevTable.GraceWouldDo` | kernel/dev/dev.c:213-217 | if the sections open then come to their end before the release, none has the device at the release |
| `DevRuns.FullUnregister` | kernel/dev/dev.c:333-347 | from every state, unregistering a device nobody has releases it and leaves an entry with no devices if and only if it was the only one of its major number |
| `DevRuns.HeldAfterRelease` | kernel/dev/dev.c:213-217 | a run that ends with a section at a released device and an entry with no devices |
| `DevRuns.FoundAfterRelease` | kernel/dev/dev.c:134-147 | a run in which a new section finds a released device, registered with minor number 0 |
| `DevRuns.OtherDevice` | kernel/dev/dev.c:240-257 | a run in which device_get of one number returns a device registered under another |

## Left out

- The colour is a field of its own; the source packs it into the parent word.
- Comparison by address and other key functions of trees: keys are integers and the comparison is a parameter.
- I/O errors of `msync` and of the disk, allocation failures inside the kernel, and killed threads.
- Byte order conversion of inode fields and the superblock: inodes are records.
- The bitmap as bytes in blocks: it is a sequence of bits, as many as the bitmap blocks have, and the entries of these blocks in the image are not used; bits of data blocks are modelled as bits of bytes.
- The inode table as blocks: freeing a block of it, which wipes inodes, is not seen by the inode layer.
- `alloc_consecutive_blocks`, which nothing calls, and the FUSE operations above the inode layer.
- Directory contents as bytes: `PathWalk` takes a directory as a map from names to inode numbers and a link's target as a string.
- What sbrk answers, what the device does between taking and returning a request, and how much a read delivers are parameters or steps of the environment.
- Wake-ups and liveness: that a waiting thread is woken, that a request is ever returned.
- The user-mode copies of `pipewrite` and `piperead`, whose ring steps are those modelled.
- The hash functions themselves: the buffer cache is proved for every hash function.
- The element count of the hash list and its RCU variants.
- 32-bit sizes in the user allocator: sizes are unbounded.
- ARP, DNS and sockets.
- Reference counts and the device table are given as state machines only, with no class of their own.
- Registering a device again before its release is over, and the result of the device's own open callback.
- What a section reads from a released device whose memory has another use by then: the fields keep their values until the device is registered again.
- Pipe.Ring.WriteSome: takes its turn in one piece and is not killed; `PipeRing` has the loads, the copy and the flags as separate steps.
- Pipe.Ring.ReadSome: the same; what the end of the file means when the writer moves between the loads is `PipeRing.EndOfFileMeans`.
- VirtioDisk.Driver.HandleInterrupt: the device returns nothing while the loop runs; `VirtioRing` has the device's steps between the handler's.
- BufferCache.Cache.Bread: does not wait for a buffer that is locked; in `BufCache` the wait is a step of its own.
- Inodes.FileSystem.Read: does not model the wrap of offset + length at 2^64, which would take a buffer of nearly 2^64 bytes.
- Malloc.Heap.FindPlace: the found place is stated through the ghost index of the header returned.
