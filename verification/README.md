# Verified model of a teaching kernel

This project models the parts of a small AArch64 teaching kernel that carry the hardest
promises, and proves those promises with Dafny 4.11. `dafny verify dfyconfig.toml` checks
everything.

| part | modules |
|---|---|
| write-ahead log and block cache | `Blocks`, `Wal`, `WalSafety`, `WalSteps`, `WalTheorem`, `Lru`, `CacheHistory`, `BlockCache` |
| red-black tree | `RbModel`, `RbRotate`, `RbInsert`, `RbErase`, `RbUnlink`, `RbTree` |
| files and directories | `FsLayout`, `Files`, `FileClear`, `Volume`, `Journal`, `WriteCost`, `Inodes`, `Directory` |
| files on the log | `CrashWorld`, `FileServer`, `FileWrite` |
| shell parser | `ShellGrammar`, `ShellLanguage`, `ShellLex`, `ShellParser`, `ShellBuffer` |
| semaphores, exit and wait | `Semaphores`, `ExitWait` |
| scheduler | `Scheduler`, `RunQueue`, `Sums` |
| page table | `PageTable`, `PageDir`, `CopyOut` |
| slab allocator | `Slab` |
| shared | `Bits`, `Products`, `Pages`, `Options` |

**Log and cache.** `Wal` is a step machine: each action is one critical section or one
device access, threads interleave freely and a crash may strike anywhere, also during
recovery. Clients are promised one volatile view and one durable state (`Wal.Abstract`).
`WalSafety` gives the invariant, `WalSteps` shows that every action keeps it, and
`WalTheorem` draws the conclusions for whole runs. `BlockCache.Cache` is the code itself,
with its list, header and loops; a ghost history shows that whatever its methods do is a
run of the machine, and that the list is in order of acquisition.

**Red-black tree.** `RbTree.Root` rewrites `left`, `right`, `parent` and colour of heap
nodes in place. A ghost record of these fields turns all structural reasoning into lemmas
about maps; a zipper (context and subtree) says where the one defect is that a fix-up loop
moves up or removes.

**Files.** Files are bytes scattered over direct and indirect blocks. `Files.World` ties
the inodes, the stored inode table, the address tables and the bitmap together through a
map from each block to the one place it belongs to. `Inodes.Fs` is the code on top of the
view that the block cache promises its clients, with the log budget of the running
operation. A write of no byte at offset 0 panics, because the last byte position
underflows; `Inodes.BadWrite` is the exact condition. A directory entry keeps 16 bits of
an inode number, so a multiple of 65536 leaves the entry free (`Directory.Bound`).
`WriteCost` names the blocks that a write syncs, so that its panics have an exact condition.

**Files on the log.** `Volume.Consistent` says what a disk must spell out: its inodes in use,
one owner for each of their blocks, no holes, and a bitmap that marks exactly these blocks
and the metadata. `FileServer.Server` runs file operations one after the other between
`begin_op` and `end_op` and has the block cache make every sync. The theorem: a crash after
any step of any sequence of operations leaves a disk that mounts as the file system of some
moment between operations. `filewrite` cuts a write into pieces of at most 1536 bytes, which
always fit their reservation; but its loop compares the length of the last piece, not the sum,
with what is to be written, so a longer write goes on until it panics (`FileWrite.ReturnsIff`).

**Shell.** `ShellLanguage` is the grammar: which commands a sequence of tokens may be read
as. `ShellGrammar` is the recursive descent on tokens, with a printer, and finds exactly the
readings of the grammar, of which there is never more than one. `ShellLex` says the same for
characters and tokens. `ShellParser` is the parser over a cursor and a bounded pool,
`ShellBuffer` the pass that ends words in place. ">>" is the same redirection as ">", as in
the code.

**Page table.** The walk is modelled with division and remainder, and `Bits` ties it to the
masks and shifts of the code. `exec` maps one zero page at many addresses, so `copyout` does
not always read back what it wrote: `CopyOut.WillCohere` is the exact condition, and
`CopyOut.LosesAByte` an input for which it fails.

**Exit and wait.** The tree lock is held over a whole exit and the scheduler lock from its
end until the process is a zombie; semaphore operations happen in between at any time.

A panic, an exhausted pool or an exhausted device is always a result (`false`, `Panic`,
`Failed`, `None`), never a precondition. Block contents, clocks, the pages handed out by
the page allocator and the order in which threads run are parameters or arbitrary.

## Model

| member | source | states |
|---|---|---|
| Blocks.HeaderRoundTrip | src/fs/cache.c:40-47 | the header block written to disk decodes to the header that was encoded, for every 64-bit header |
| Blocks.HeaderLayout | src/fs/cache.c:40-47 | in the header block bytes 0 to 7 are the count and bytes 8 + 8i to 15 + 8i entry i, the low byte first |
| WalTheorem.StepSafe | src/fs/cache.c:73-240 | every critical section or device access keeps the log invariant and shows clients only what the promise allows |
| WalTheorem.RunSafe | src/fs/cache.c:73-240 | every interleaving with any number of crashes, also during recovery, keeps the promise |
| WalTheorem.CrashAtomic | src/fs/cache.c:130-234 | whenever recovery or a commit has completed, every home block on disk is exactly the durable state promised by the events of the run |
| WalTheorem.AlwaysRecoverable | src/fs/cache.c:130-166 | at every moment of every run the header on disk is valid and replaying it would give the durable state |
| WalTheorem.DurableIsWholeGroups | src/fs/cache.c:209-234 | the durable state is the view at some commit point at which no operation was running: groups are never mixed |
| WalTheorem.SettledOnDisk | src/fs/cache.c:130-142 | once no commit is under way the home blocks on disk are the durable ones |
| WalTheorem.BootsSafe | src/fs/cache.c:145-166 | booting from any disk with a valid header starts from the replayed disk |
| WalSafety.RecoveredIs | src/fs/cache.c:130-166 | told from the bytes of the header block: recovery gives a listed block the content of its log slot and leaves every other block as it is |
| Wal.LogSize | src/fs/cache.c:157 | the log is used in full: 63 entries, or every block after the header |
| WalTheorem.LogAccounted | src/fs/cache.c:169-234 | in every state of every run once the header has been read: `log_used` is the header count plus all live reservations outside the second half of a commit, never exceeds `log_size`; header entries are distinct and their slots lie inside the log area |
| WalTheorem.NoUnderflow | src/fs/cache.c:185-215 | in every state of every run: `end_op` never makes a counter negative, and an operation with reservations left can always sync |
| WalTheorem.OneWrite | src/fs/cache.c:130-229 | every step writes at most one block of the disk, and only commit and recovery write any, so a crash may come between any two device writes |
| WalSteps.MissKeeps | src/fs/cache.c:96-118 | inserting and evicting unpinned, unheld blocks is invisible |
| WalSteps.FirstSyncKeeps | src/fs/cache.c:185-202 | a first sync takes one reservation, pins the block and extends the header |
| WalSteps.CopyKeeps | src/fs/cache.c:217-224 | copying an entry to its slot disturbs neither the view nor what recovery would restore |
| WalSteps.WriteHeaderKeeps | src/fs/cache.c:225-226 | writing the header makes the whole view durable at once |
| WalSteps.InstallKeeps | src/fs/cache.c:130-139 | installing an entry, in a commit or in a replay, can be cut off anywhere |
| WalSteps.ClearKeeps | src/fs/cache.c:140-141 | clearing the header loses nothing |
| WalSteps.CrashKeeps | src/fs/cache.c:145-166 | after a crash the promise continues from the durable state |
| Lru.TrimmedKeeps | src/fs/cache.c:94-108 | a miss drops only unpinned, unheld blocks, until fewer than 20 remain or every survivor is pinned or held |
| Lru.TrimmedIsLru | src/fs/cache.c:97-107 | if an evictable block survives a miss, so does every block in front of it in the list |
| Lru.TrimmedIsLeast | src/fs/cache.c:94-108 | a miss evicts no more than it must: the survivors are a subsequence of the list that has all pinned and held blocks and no evictable one behind one that goes; below 20 blocks all stay, otherwise 19 do, or all pinned and held ones if those are more |
| CacheHistory.EvictsOldest | src/fs/cache.c:97-107 | with the list in order of acquisition, which the cache keeps, every block evicted was acquired longer ago than every evictable block that stays |
| CacheHistory.RecentTrimmed | src/fs/cache.c:97-107 | eviction keeps the list in order of acquisition |
| CacheHistory.AgesAre | src/fs/cache.c:73-119 | the age of a block is the last call that acquired it, and a block has one exactly if it was ever acquired |
| BlockCache.Cache.constructor | src/fs/cache.c:145-166 | `init_bcache` replays the log: home blocks are what recovery of the disk gives |
| BlockCache.Cache.Evict | src/fs/cache.c:94-108 | what is left is a subsequence of the list with every pinned and held block, none behind an evictable one that goes, and as many blocks as must be left: all below 20, otherwise 19 or the number of pinned and held ones |
| BlockCache.Cache.Acquire | src/fs/cache.c:73-119 | has to wait exactly if the block is held; a hit moves that buffer to the front with its content; a miss evicts as `Evict` does, and no more, and puts the block as it is on disk at the front; every block evicted was acquired longer ago than every evictable survivor, and a client sees the last synced content |
| BlockCache.Cache.Release | src/fs/cache.c:122-128 | only the `acquired` flag of one block changes |
| BlockCache.Cache.BeginOp | src/fs/cache.c:169-182 | an operation starts exactly if ten more blocks fit the log |
| BlockCache.Cache.Entry | src/fs/cache.c:189-192 | the header search finds the first entry, exactly if there is one |
| BlockCache.Cache.Sync | src/fs/cache.c:185-202 | panics exactly if a new entry is needed and no reservation is left; otherwise the content becomes the synced one and the header gains exactly this entry |
| BlockCache.Cache.Put | src/fs/inode.c:93-102 | acquire, change, sync, release: has to wait exactly if the block is held, panics exactly if it needs a new header entry and the reservation is spent; otherwise it changes the view, the header entries and the reservation as the inode layer assumes |
| BlockCache.Cache.Write | src/fs/cache.c:185-202 | a client may change a block it holds; nothing is promised before the sync |
| BlockCache.Cache.LogWb | src/fs/cache.c:130-142 | installs every entry and clears the header without changing the promise |
| BlockCache.Cache.Commit | src/fs/cache.c:215-229 | copies, commits, installs: the view becomes durable |
| BlockCache.Cache.EndOp | src/fs/cache.c:209-234 | the last operation of a group commits it, all home blocks are on disk and no reservation is left; whatever clients see to at the end of each group holds at every quiet moment of the history |
| CacheHistory.FollowedInv | src/fs/cache.c:73-240 | whatever sequence of cache calls was made, it is a run of the step machine, so its theorems apply |
| Volume.SpelledOnce | src/fs/defines.h:33-59 | a consistent disk can be read in one way only: which inodes are in use, their entries, and the owner of each block follow from it |
| Volume.FormattedIsConsistent | src/fs/defines.h:33-59 | a disk with only the metadata marked is a consistent file system without files |
| CrashWorld.CrashConsistent | src/fs/cache.c:145-234 | a disk is consistent if its inodes are exactly the stored entries with a kind, each block belongs to one place of one of them, no file has holes, and the bitmap marks these blocks and the metadata; if every stretch of operations between two quiet moments keeps the view consistent, then for every run, however often it crashes: recovering the disk at any moment gives a consistent one, and whenever recovery has completed the disk is one |
| CrashWorld.HistoryAtomic | src/fs/cache.c:209-234 | after any history of cache calls a crash takes the file system back to a moment when no operation was running: operations happen as a whole or not at all |
| CrashWorld.AlwaysWhole | src/fs/cache.c:209-234 | under the same condition the durable state is consistent at every moment, and the view whenever no operation is running |
| CrashWorld.HistorySurvives | src/fs/cache.c:145-234 | if clients leave the view consistent at quiet moments, a crash after any step of a history of cache calls leaves a disk from which recovery makes a consistent one |
| FileServer.Server.constructor | src/fs/cache.c:145-166 | mounting a disk whose recovery gives a consistent file system |
| FileServer.Server.Write | src/fs/inode.c:268-301 | a write between `begin_op` and `end_op`, with every sync made by the cache: waits exactly if ten blocks do not fit the log, panics exactly on a gap, too long a file, no byte at offset 0, a full disk or more than ten blocks new to the log; if it finishes the file is overwritten, the others stay and the file system is consistent; if it panics, it can be recovered |
| FileServer.Server.Create | src/fs/inode.c:57-74 | the same for a new inode: the first one not in use; panics exactly if there is none |
| FileServer.Server.Delete | src/fs/inode.c:175-192 | the same for an inode that is given up, with its blocks; it never panics |
| FileServer.Server.Link | src/fs/inode.c:322-348 | the same for a new directory entry: -1 exactly if an entry in use has the name, byte by byte; otherwise the first free entry or the end becomes the two bytes of the number and the name; panics exactly if that entry cannot be written |
| FileServer.Server.Unlink | src/fs/inode.c:351-358 | the same for removing one: the sixteen bytes become zeros |
| FileServer.Server.Survives | src/fs/cache.c:145-234 | for every sequence of these operations: a crash after any step, also inside an operation or a commit, leaves a disk that can be mounted again, with the file system of some moment between operations |
| FileServer.Server.Durable | src/fs/cache.c:209-234 | between operations, mounting the disk again gives the same file system |
| FileWrite.ReturnsIff | src/fs/file.c:105-117 | the loop of `filewrite` comes to its end exactly for writes of at most 1536 bytes |
| FileWrite.PieceHaltsIff | src/fs/file.c:105-115 | a piece never exhausts its reservation: it panics exactly on a gap, too long a file or a full disk |
| FileWrite.File.Round | src/fs/file.c:107-116 | a round writes the first bytes of the buffer, as many as the piece is long, at the offset of the file and moves the offset; it waits exactly if ten blocks do not fit the log and panics exactly as a piece does |
| RbTree.Root.Insert | src/common/rbtree.c:247-270 | -1 exactly on an equal node, with the tree unchanged; otherwise the node is added in order and all red-black invariants and links hold |
| RbTree.Root.InsertFix | src/common/rbtree.c:40-109 | the loop moves a red-red clash up or removes it, keeping the in-order walk |
| RbTree.Root.Erase | src/common/rbtree.c:271-276 | exactly one node leaves the in-order walk; links, colours and black heights stay valid |
| RbTree.Root.Unlink | src/common/rbtree.c:110-160 | taking a node out, or replacing it by its successor, leaves at most one black too few |
| RbTree.Root.EraseFix | src/common/rbtree.c:161-246 | the loop moves the missing black up or removes it, keeping the in-order walk |
| RbTree.Root.Lookup | src/common/rbtree.c:277-288 | finds an equal node exactly if there is one |
| RbTree.Root.First | src/common/rbtree.c:289-297 | the first node of the in-order walk, or null |
| RbTree.Root.ChangeChild | src/common/rbtree.c:25-33 | one child link or the root is replaced |
| RbTree.Root.RotateSetParents | src/common/rbtree.c:34-39 | the new top takes the place and colour of the old one |
| RbModel.HeightBound | src/common/rbtree.c:40-109 | a valid tree of n nodes has height at most 2 log2(n+1) |
| RbModel.DepthBound | src/common/rbtree.c:40-109 | a node d steps below the root needs a tree of at least 2^((d + 2) / 2) - 1 nodes |
| RbModel.RedBlackIff | src/common/rbtree.c:40-246 | the invariant in terms of paths: the root is black, no red node has a red child, and all paths to a leaf pass as many black nodes |
| RbModel.PlugRedBlack | src/common/rbtree.c:40-246 | a balanced subtree in a valid context makes a valid tree |
| RbModel.RemoveKeepsSorted | src/common/rbtree.c:271-276 | erasing keeps the search order |
| RbModel.WalkTurn | src/common/rbtree.c:40-246 | rotations keep the in-order walk |
| RbInsert.RecolourUp | src/common/rbtree.c:53-60 | recolouring moves the clash two levels up |
| RbInsert.RotateLEnds | src/common/rbtree.c:61-78 | the left rotations end the clash |
| RbInsert.RotateREnds | src/common/rbtree.c:89-106 | the right rotations end the clash |
| RbInsert.SortedInsert | src/common/rbtree.c:247-270 | the search descends to the only place that keeps the order |
| RbErase.Case1LShort | src/common/rbtree.c:166-172 | a red sibling is turned into a black one, with the defect still below |
| RbErase.Case2Ends | src/common/rbtree.c:173-186 | reddening the sibling moves the missing black up or ends it |
| RbErase.Case3LEnds | src/common/rbtree.c:187-203 | a red near nephew ends the repair |
| RbErase.Case4LEnds | src/common/rbtree.c:197-203 | a red far nephew ends the repair |
| RbErase.Case3REnds | src/common/rbtree.c:227-243 | the mirror image of case 3 |
| RbErase.Case4REnds | src/common/rbtree.c:237-243 | the mirror image of case 4 |
| RbUnlink.TwoChildrenEnds | src/common/rbtree.c:128-158 | replacing a node by its successor keeps everything but at most one black |
| RbUnlink.OneChildEnds | src/common/rbtree.c:114-127 | a node with at most one child can be cut out |
| FsLayout.BitAtLaw | src/common/bitmap.h:26-44 | setting or clearing a bit changes that bit and no other |
| FsLayout.BitLayout | src/common/bitmap.h:26-30 | bit j of the bitmap is bit j % 8 of byte j / 8 of its block |
| FsLayout.EntryRoundTrip | src/fs/defines.h:51-59 | an inode survives being stored and loaded |
| FsLayout.EntryLayout | src/fs/defines.h:51-59 | which bytes of a block hold the kind, major, minor, links, size, addresses and indirect address of an inode |
| Files.InodeLayout | src/fs/inode.c:19-26 | inode k is entry k % 8 of block k / 8 of the inode area, field by field |
| Files.ContentLayout | src/fs/inode.c:203-265 | byte p of a file is byte p % 512 of direct block p / 512, or of the block that the four bytes at 4 (p / 512 - 12) of the address table name |
| FsLayout.EntryLaw | src/fs/inode.c:24-26 | storing an inode changes no other inode of its block |
| FsLayout.WordLaw | src/fs/inode.c:29-31 | storing an address changes no other address of the table |
| Inodes.Fs.Put | src/fs/cache.c:185-202 | a change is synced, or panics exactly when the log budget of the operation is spent; every change is on record |
| Inodes.Fs.Alloc | src/fs/cache.c:244-264 | hands out the first free block, zeroed and marked, and leaves every file as it was |
| Inodes.Fs.Map | src/fs/inode.c:203-235 | returns the block of a place, allocating the next one if needed; no byte of any file changes, and blocks already there cost nothing |
| Inodes.Fs.WriteBlocks | src/fs/inode.c:284-296 | the write loop overwrites exactly its bytes across block and table boundaries |
| Inodes.Fs.Write | src/fs/inode.c:268-301 | the file becomes the overwritten byte string, all other files stay, ownership and bitmap agree, and the log gains exactly the blocks of `WriteCost.WriteSet`; panics exactly on bad arguments (a gap, too long a file, or no byte at offset 0), if too few blocks are free, or if more blocks than the reservation allows are new to the log, told from the state before |
| Inodes.Fs.Read | src/fs/inode.c:238-265 | returns the slice of the file, changes and allocates nothing; panics exactly when the offset is past the end or offset plus count overflows |
| Inodes.Fs.SyncInode | src/fs/inode.c:91-103 | the stored inode is the one in memory again and no other changes; panics exactly if a header entry is needed and none is left |
| Inodes.Fs.LoadInode | src/fs/inode.c:98-101 | loading an inode that is in use gives the entry last stored |
| Inodes.Fs.Clear | src/fs/inode.c:140-163 | the file is empty, exactly its blocks are free again, all other files stay; panics exactly if the reservation does not cover what is new to the log of its inode block and, if the file has a byte, the bitmap |
| Inodes.Fs.constructor | src/fs/inode.c:33-44 | from a consistent disk: all inodes in use, with owners that agree |
| Inodes.Fs.AllocInode | src/fs/inode.c:57-74 | the first inode not in use is stored with its kind and zeros; panics exactly if there is none, or if its block needs a header entry and none is left |
| Inodes.Fs.FreeInode | src/fs/inode.c:175-192 | the blocks of the inode are free again, it is no longer in use, and all other files stay; panics exactly when clearing it would |
| Inodes.WriteSetSize | src/fs/inode.c:284-300 | apart from the blocks written to, a write needs at most three header entries; 1536 bytes lie in at most four blocks |
| WriteCost.Verdict | src/fs/inode.c:268-301 | a write succeeds exactly if the reservation covers the blocks that are new to the log |
| WriteCost.WriteSetIs | src/fs/inode.c:203-235 | which blocks a write syncs: those written over; if it adds blocks the bitmap, the first free blocks, one more for a new address table, and the table that is there; and the inode if the size changes |
| Journal.LowestBelow | src/fs/cache.c:244-264 | the blocks handed out are below all that stay free |
| WriteCost.ClearVerdict | src/fs/inode.c:140-163 | the same for clearing, which syncs the bitmap, if there is a block, and the inode |
| Inodes.WroteContent | src/fs/inode.c:268-301 | a finished write in terms of whole files |
| Files.OverwriteBlock | src/fs/inode.c:288-292 | overwriting part of a block overwrites that part of its file and nothing else |
| Files.GiveListed | src/fs/inode.c:214-228 | a fresh block entered into the address table changes no byte and keeps blocks pairwise apart |
| Files.GiveDirect | src/fs/inode.c:208-212 | a fresh block at a direct place changes no byte and keeps blocks pairwise apart |
| Files.GiveTable | src/fs/inode.c:214-218 | a fresh address table changes no byte and keeps blocks pairwise apart |
| Files.AllocKeeps | src/fs/cache.c:244-264 | allocation never returns metadata, reserved or owned blocks |
| FileClear.FreeKeeps | src/fs/cache.c:268-275 | freeing a block that is not owned leaves every file as it was |
| FileClear.EmptyAgain | src/fs/inode.c:140-163 | whatever happened to a file in between: once it is empty again the bitmap is what it was |
| FileClear.Orphan | src/fs/inode.c:140-163 | the blocks of an inode are nobody else's |
| Directory.SameName | src/common/string.c:68-77 | true exactly if the names agree byte by byte up to a zero or over all 14 bytes |
| Directory.Lookup | src/fs/inode.c:304-319 | found exactly if some entry in use has the name byte by byte; returns its two-byte number and the place of the entry |
| Directory.Insert | src/fs/inode.c:322-348 | -1 exactly if an entry in use has the name byte by byte; otherwise the first free entry or the end becomes the low two bytes of the number and the 14 bytes of the name, nothing else changes, and the map gains one binding; panics exactly if the inode is no directory or writing that entry would |
| Directory.Remove | src/fs/inode.c:351-358 | in any file the entry is overwritten with zeros and nothing else changes; a directory loses the binding of that entry; panics exactly on an unaligned index or if the write would |
| Directory.RoomEnough | src/fs/inode.c:322-348 | two free blocks and four header entries are enough for an entry, unless the directory has its full length |
| Directory.InsertMaps | src/fs/inode.c:322-348 | a new name in a free entry adds one binding and keeps names unique |
| Directory.RemoveMaps | src/fs/inode.c:351-358 | zeroing an entry removes its binding |
| Directory.DirHas | src/fs/inode.c:304-319 | every entry in use is a binding of the map |
| Directory.MapIs | src/fs/inode.c:304-319 | the map in bytes: a name is bound exactly if an entry with a number other than 0 has it, to that number |
| Directory.DirNonZero | src/fs/inode.c:304-319 | bound inode numbers are never 0 |
| ShellLanguage.ParseIff | src/user/sh/main.c:321-424 | for all tokens: the parser accepts them and returns a command exactly if they are a line of the grammar that reads as that command |
| ShellLanguage.Unambiguous | src/user/sh/main.c:321-424 | no line of the grammar reads as two commands |
| ShellGrammar.Alphabet | src/user/sh/main.c:263-264 | the codes of the white space characters and of the symbols |
| ShellLex.LexIff | src/user/sh/main.c:266-304 | for every text, spaced or not: the tokens found are the one way to split it into white space and tokens, where a word is as long as it can be and ">>" is one token |
| ShellLex.NothingLost | src/user/sh/main.c:266-304 | for every text and position: the spellings of the tokens joined are the rest of the text without its white space |
| ShellLex.ParsesIff | src/user/sh/main.c:321-334 | a text is accepted exactly if its tokens are a line of the grammar, and the command returned is what that line reads as |
| ShellLex.RoundTrip | src/user/sh/main.c:266-424 | parsing the printed form of a command gives the command back, for every tree with at most 9 words per command |
| ShellLex.Canonical | src/user/sh/main.c:321-424 | whatever the parser accepts is such a tree, and printing and parsing it again changes nothing |
| ShellLanguage.TokenRoundTrip | src/user/sh/main.c:336-424 | the round trip on tokens |
| ShellGrammar.LineFine | src/user/sh/main.c:336-424 | accepted commands have fewer than MAXARGS words |
| ShellParser.Parser.GetToken | src/user/sh/main.c:266-304 | skips white space, then returns 0 exactly at the end of the text, or the range of a token that cannot be made longer: a maximal word, ">>", or a single symbol, and skips the white space after it |
| ShellParser.Parser.Peek | src/user/sh/main.c:306-314 | skips white space and tests the next character without losing a token |
| ShellParser.Parser.ParseRedirs | src/user/sh/main.c:362-379 | reads the redirections, the first one innermost |
| ShellParser.Parser.ParseArgs | src/user/sh/main.c:407-420 | collects words and redirections in any order |
| ShellParser.Parser.ParseExec | src/user/sh/main.c:395-424 | a simple command or a block, as the grammar says |
| ShellParser.Parser.ParseBlock | src/user/sh/main.c:381-393 | a parenthesized line with its redirections |
| ShellParser.Parser.ParsePipe | src/user/sh/main.c:351-360 | a pipeline, right-nested |
| ShellParser.Parser.ParseLine | src/user/sh/main.c:336-349 | a line, with the method terminating on every input |
| ShellParser.Parser.ParseCmd | src/user/sh/main.c:321-331 | succeeds exactly if the text reads as a command whose nodes fit the 10000-byte pool, and the tree returned means that command |
| ShellParser.Parser.Alloc | src/user/sh/main.c:59-68 | gives up exactly when the pool is exceeded |
| ShellBuffer.Nulterminate | src/user/sh/main.c:427-469 | every word of the tree is ended in place and no terminator is taken back |
| ShellBuffer.WordReads | src/user/sh/main.c:427-469 | no terminator falls inside a word |
| ShellBuffer.ParseBuffer | src/user/sh/main.c:321-334 | succeeds under the same condition, and then following the pointers of the tree, each up to the next zero, gives the command that the text reads as |
| Semaphores.Semaphore.Get | src/common/sem.c:13-22 | takes a token exactly if there is one |
| Semaphores.Semaphore.GetAll | src/common/sem.c:29-40 | drains all tokens and returns their number |
| Semaphores.Semaphore.WaitBegin | src/common/sem.c:63-77 | returns at once exactly if there is a token, else queues up first in the list |
| Semaphores.Semaphore.WaitEnd | src/common/sem.c:78-89 | true exactly if a post came for this wait; otherwise as if the wait had never been |
| Semaphores.Semaphore.Post | src/common/sem.c:91-101 | adds a token or wakes the oldest sleeper |
| Semaphores.Semaphore.PostAll | src/common/sem.c:42-51 | wakes all sleepers, returns their number and leaves max(val, 0) |
| ExitWait.WaitNeverMisses | src/kernel/proc.c:153-182 | in every interleaving a granted wait finds a zombie at the tail of the child list |
| ExitWait.ZombiesAreTokens | src/kernel/proc.c:118-149 | in every interleaving the zombies are a suffix of the child list, one for each token and granted wait |
| ExitWait.ZombiesHaveParents | src/kernel/proc.c:118-149 | in every interleaving each process but the first hangs on a live parent |
| ExitWait.OrphansGoToRoot | src/kernel/proc.c:118-137 | in every interleaving: once a process has exited, each child it had is a child of the root process of its container, or has been reaped |
| ExitWait.ReapTakesTail | src/kernel/proc.c:163-178 | a wait past its semaphore takes exactly the tail of its children away, which is a zombie |
| ExitWait.GrantedFindsZombie | src/kernel/proc.c:164-167 | the same for every state that keeps the invariant |
| ExitWait.StepKeeps | src/kernel/proc.c:89-182 | every step of fork, exit and wait keeps the invariant |
| ExitWait.MoveKeeps | src/kernel/proc.c:118-137 | handing a child to the container's root process keeps it, with a post for each zombie |
| ExitWait.SelfKeeps | src/kernel/proc.c:138-149 | moving to the tail of the parent's list and posting keeps it |
| ExitWait.ReapKeeps | src/kernel/proc.c:160-178 | reaping keeps it |
| ExitWait.ForkKeeps | src/kernel/proc.c:211-215 | a new child at the head keeps it, in whichever container it starts, and for `root_proc` also while it waits |
| ExitWait.ExitGoesOn | src/kernel/proc.c:118-149 | an exit that holds the tree lock can always go on |
| ExitWait.Progress | src/kernel/proc.c:89-182 | in every interleaving: a process can fork, wait, exit, reap or go on as soon as the locks it needs are free and it has a child or a post to wait for |
| Scheduler.AlwaysConsistent | src/kernel/sched.c:111-249 | in every multi-processor run the queue holds exactly the runnable processes in order, a running process is current on exactly one processor, and `weight_sum` is the total weight of runnable and running processes |
| Scheduler.NoAssertionFails | src/kernel/sched.c:228-249 | in every run the caller is running, re-insertion finds no equal node, the process picked is runnable and the time slice is not divided by zero |
| Scheduler.PickFacts | src/kernel/sched.c:181-202 | the least by (virtual run time, address) is picked |
| Scheduler.ActivateKeeps | src/kernel/sched.c:111-137 | activation queues a dormant process once |
| Scheduler.ActivateIs | src/kernel/sched.c:111-137 | waking up does nothing to an active process, a zombie, or a deep sleeper on an alert; any other becomes runnable with the least virtual run time of the queue, or the caller's if the queue is empty, and nobody else changes |
| Scheduler.RunningCosts | src/kernel/sched.c:149-158 | what running costs: without overflow the virtual run time rises by d with weight * d <= 820 * elapsed < weight * (d + 1); with overflow the same modulo 2^64; an idle process and a killed one that is not exiting pay nothing |
| Scheduler.SchedIs | src/kernel/sched.c:228-249 | a call of the scheduler leaves everything alone for a killed caller that is not exiting; otherwise the caller takes the new state, the process ahead of all ready ones runs next, or the idle process of this processor if none is ready, and nobody else changes |
| Scheduler.GoesOnIff | src/kernel/sched.c:149-202 | a caller that yields goes on exactly if its new virtual run time and address put it ahead of every queued process |
| Scheduler.MayCall | src/kernel/sched.c:228-249 | in every run each processor can call the scheduler with every state, its idle process only to yield, and can wake every process |
| Scheduler.KilledNeverSleeps | src/kernel/sched.c:228-236 | from the moment it is killed until it is reaped, a process that calls the scheduler goes on at once, unless it exits |
| Scheduler.YieldKeeps | src/kernel/sched.c:149-180 | giving up the processor keeps queue and weights; the caller was running and not queued |
| Scheduler.PlacedSorted | src/kernel/sched.c:50-55 | insertion by `cmp` keeps the order |
| Scheduler.KeysKept | src/kernel/sched.c:111-249 | no step changes the virtual run time of a process that is in the queue |
| RunQueue.Queue.Insert | src/kernel/sched.c:50-55 | the red-black tree with `cmp`: insertion of a process that is not queued never fails and puts it where the scheduler model does |
| RunQueue.Queue.Activate | src/kernel/sched.c:111-126 | activation with the tree: returns false exactly for an active process, a zombie or a deep sleeper on an alert; the new state is that of the model, and the tree is its queue |
| RunQueue.Queue.Yield | src/kernel/sched.c:149-180 | giving up the processor with the tree: the new state is that of the model, the tree is its queue, and without overflow the caller has paid 820 over its weight for each millisecond, rounded down |
| RunQueue.Queue.Pick | src/kernel/sched.c:181-202 | takes the node of the process that runs next out of the tree, exactly if there is one |
| RunQueue.Queue.Sched | src/kernel/sched.c:228-249 | a whole call of the scheduler with the tree is a step of the model |
| RunQueue.PlacedAt | src/kernel/sched.c:50-55 | a sorted queue has one place for a process, and insertion finds it |
| Scheduler.StepKeeps | src/kernel/sched.c:111-249 | every action keeps the invariant |
| PageTable.IndexIsMasked | src/aarch64/mmu.h:67-70 | the four indices of the walk are the masked and shifted parts of the address |
| PageTable.AddressIsMasked | src/aarch64/mmu.h:62 | the address of an entry is the entry under its mask |
| PageTable.MapEntryIs | src/kernel/pt.c:67-72 | for all 64-bit flags: the entry is the frame or the low 48 bits of the flags; the 16 highest are lost |
| PageTable.AddressSurvives | src/kernel/pt.c:67-72 | the entry keeps the address of the frame exactly if flag bits 12 to 47 are already set in it |
| PageTable.SlotsApart | src/kernel/pt.c:9-56 | two addresses share an entry exactly if they lie in the same page |
| PageTable.ValueIff | src/kernel/pt.c:9-31 | the entry of an address is what four look-ups by nine bits each find, through entries with both low bits set |
| PageTable.MissingFrom | src/kernel/pt.c:19-31 | no table is missing exactly if the walk arrives |
| PageTable.HangSame | src/kernel/pt.c:33-52 | a fresh table changes no entry of any page |
| PageTable.StoreValue | src/kernel/pt.c:67-72 | storing an entry changes exactly the addresses that walk there |
| PageDir.Pgdir.GetPte | src/kernel/pt.c:9-56 | finds the entry exactly if it exists; otherwise, if asked to, takes exactly as many pages as tables are missing, or fails exactly if there are not so many; changes no entry |
| PageDir.Pgdir.Vmmap | src/kernel/pt.c:67-72 | for all 64-bit flags the flat map changes at one page number and nowhere else; takes exactly as many pages as tables are missing, and fails exactly if there are not so many |
| PageDir.Pgdir.FreePgdir | src/kernel/pt.c:74-100 | exactly the table pages go back, each once |
| PageDir.Pgdir.NewRoot | src/kernel/pt.c:34-37 | the first table, when there is none |
| PageDir.Pgdir.constructor | src/kernel/pt.c:58-65 | one empty table and nothing mapped |
| CopyOut.Space.CopyOut | src/kernel/pt.c:125-141 | the bytes copied are read back exactly if any two that fall on the same byte of a frame are equal, which can be told from the page table before the call; every page mapped before reads the last byte copied to its frame and offset, and otherwise what it did; pages outside the range stay; fails only for lack of pages |
| CopyOut.WriteShows | src/kernel/pt.c:137 | a write shows up at exactly the mapped addresses with the same frame and an offset in range |
| CopyOut.ReadBack | src/kernel/pt.c:125-141 | the range reads back as written exactly if bytes that meet are equal |
| CopyOut.LengthIsLoop | src/kernel/pt.c:128-131 | how many bytes the loop copies in 64-bit arithmetic: all, unless the range wraps around; then the rest of the first page if the end lies in it, and else none |
| CopyOut.DifferentFramesCohere | src/kernel/pt.c:125-141 | bytes never meet if the pages of the range have different frames |
| CopyOut.LosesAByte | src/kernel/exec.c:104-106 | with the zero page mapped at two pages, as `exec` does, copying over both loses a byte |
| Slab.Allocator.Kalloc | src/kernel/mem.c:70-78 | an 8-byte aligned block inside one page, clear of its header and of all live blocks, of the least multiple of 16 that is enough; the last one freed of that size, or one of a single fresh page if there is none; fails exactly if there is no page either |
| Slab.Allocator.Kfree | src/kernel/mem.c:80-87 | the block goes back to its own size class |
| Slab.Allocator.AddPage | src/kernel/mem.c:60-68 | every chunk of a fresh page is pushed onto the stack of its size |
| Slab.Allocator.constructor | src/kernel/mem.c:60-68 | all pages free and nothing carved |
| Slab.Allocator.Carve | src/kernel/mem.c:66-67 | the carving loop lists exactly the chunks |
| Slab.LiveApart | src/kernel/mem.c:60-87 | live blocks are pairwise disjoint and aligned |
| Slab.Rounded | src/kernel/mem.c:72 | the least multiple of 16 that is not below the size asked for |
| Slab.ChunkIs | src/kernel/mem.c:66-67 | the chunks of a page lie from its ninth byte on, whole sizes apart, and none reaches its last byte |
| Slab.CarvesSomething | src/kernel/mem.c:70-76 | a fresh page gives a chunk, and the class index stays inside `slab`, exactly for sizes up to 4080 |

## Left out

- BlockCache.Cache.Acquire: only says that a caller has to wait, not when it gets the block.
- BlockCache.Cache.EndOp: needs that no client holds a header entry when the group commits, where the code waits for it; does not say when an operation that does not commit returns; the flag is cleared before the lock is taken again, so such a waiter can be woken early.
- BlockCache.Cache.Commit: needs that no client holds a header entry, where the code waits for it.
- BlockCache.Cache.LogWb: needs that no client holds a header entry, where the code waits for it.
- BlockCache.Cache.Put: only says that a caller has to wait, not when it gets the block; a panic of the sync leaves it acquired.
- BlockCache.Cache.Sync: the variant without a context, which writes to the device directly, is not modelled.
- RbTree.Root.Insert: parent pointer and colour are two fields; their packing into one word is not modelled.
- FileServer.Server.Write: operations run one after the other; the inode locks that let them overlap are not modelled, and reads see the synced contents without going through the cache.
- FileWrite.File.Round: file descriptors, access modes and pipes are not modelled.
- Inodes.Fs.Map: asks only for a place up to the first missing one, which is all that reads and writes without gaps ask for.
- Inodes.Fs.Write: device inodes are handed to the console, which is not modelled; counters and sizes are unbounded apart from the 64-bit offsets.
- Inodes.Fs.FreeInode: is the last `inode_put` of an inode without links; reference counts and the list of loaded inodes are not modelled.
- Directory.Insert: a name is the 14 bytes the caller's pointer leads to.
- ShellParser.Parser.ParseExec: the node that is filled after redirections already point to it is built as a value once its words are known.
- Semaphores.Semaphore.Post: the 32-bit counter is unbounded.
- ExitWait.StepKeeps: process ids, exit codes, files and page tables of processes are not modelled; processes are numbered in order of creation.
- Scheduler.StepKeeps: one container only; timers and context switches are not modelled.
- PageDir.Pgdir.FreePgdir: sections and page reference counts are not modelled.
- CopyOut.Space.CopyOut: frames are byte sequences by address; the copy back of swapped-out pages and the permission bits of entries play no part.
- Slab.Allocator.Kalloc: size 0 never returns in the code, and above 4080 the class index leaves the array `slab`, so both are excluded; pushing and popping are atomic.
- Nested containers, paging and swap, memory mapping, ELF loading, pipes, message queues, path names, drivers, traps and system calls.
- Running a parsed command, and the user programs other than the shell parser.
- Lock-free lists and spin locks: critical sections are atomic, circular lists are sequences.
