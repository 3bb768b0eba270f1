# A verified model of a file system in one image file

The repository is a small Unix-like file system written in C. One image file holds 4096 blocks of
2048 bytes; a free bitmap lies behind a ten-byte header; inode records of 128 bytes are packed
sixteen to a block; files hang off twelve direct pointers; a table of 4096 in-memory inodes, keyed
by full path, plays the directory tree; a command layer resolves relative paths. This project models
those layers as they are written, departures from their intent included, and proves what they keep.

## How it is built

There are two levels.

* The classes `BlockStore`, `InodeStore`, `Directory` and the methods in `Paths.dfy` have the form of
  the C code: a byte array for the image, byte arrays for the bitmaps in memory, an array of inodes,
  loops that update them in place. Their object invariants say that memory and image agree byte for
  byte (header, block bitmap, inode bitmap) and, for `Directory`, that the global invariant holds. Mounting
  starts from arbitrary memory and takes everything from the image.
* Their contracts equate each method with a function on values (`Volumes.dfy`, `Directories.dfy`):
  a set of used blocks, the data blocks, a set of used inodes, the records on disk, the table. All
  results about runs, contents and names are lemmas about those functions, so they hold for the
  classes.

| file | contents |
|---|---|
| `Bytes.dfy`, `Inodes.dfy`, `Layout.dfy` | bitmaps in bytes, 32-bit and string encodings, the 128-byte record, where things lie in the image |
| `Volumes.dfy`, `Directories.dfy` | the operations as functions on values |
| `BlockStores.dfy`, `InodeStores.dfy`, `DirectoryTables.dfy` | the operations on arrays, proved equal to them |
| `Chains.dfy`, `Ownership.dfy`, `Writing.dfy` | runs of block operations, the ownership invariant, the three cases of write_file |
| `Invariant.dfy`, `Runs.dfy` | the global invariant and its consequences over every run |
| `Content.dfy`, `Effects.dfy`, `Durability.dfy` | round trips, isolation, what a step does to the bitmap, survival over runs |
| `Leaks.dfy` | what leaks and when, and when a file's life gives the bitmap back |
| `Trees.dfy`, `Listings.dfy` | which components a listing shows and when it is empty, the tree of full paths; the text of a listing line by line and the words in it |
| `Outcomes.dfy`, `Names.dfy` | what each operation answers and changes, told from slots, bits and records; removed names stay gone; which names get a second node |
| `Witnesses.dfy` | runs, mostly from a formatted image, that end in each departure from intent |
| `Repaired.dfy` | a second file layer with six repairs, correct up to 268 blocks |
| `Paths.dfy` | tokeniser, resolver of `.` and `..`, split at the last slash |

## What the code does where it departs from its intent

Each of these is kept in the model and met by the exact condition under which it shows; those the
model's operations can reach are shown by a run that ends in them.

* modify_block and delete_block refuse ids from 2048 on. Below 2048 a data bit is set exactly when an
  inode owns the block (`Runs.OwnershipOverRuns`). From there on a step leaks exactly the blocks its
  target gives up (`Leaks.LeakLaw`, with the two cases `Leaks.RemovalLeaksIff` and
  `Leaks.WriteLeaksIff`), no leak is ever undone (`Leaks.LeaksStayOverRuns`), and a file's life
  restores the whole bitmap if and only if first fit never had to go beyond 2047
  (`Leaks.FileLifeConservesIff`). `Witnesses.RemovalCanLeak` fills a fresh image until a removal
  leaks six blocks; `Witnesses.RewriteCanBeRefused` finds data the same file does not take.
* The shrink loop of write_file starts at b - n instead of n. `Content.RoundTripIff` gives the exact
  condition under which a write can be read back, `Content.EveryContentIff` the one under which a file
  takes every content of a given size, and `Witnesses.ShrinkLosesTheFileFromFormat` a run of create and
  two writes after which the file cannot be read. In the shrink branch the code also reads past the
  caller's buffer; those bytes are a parameter (`beyond`).
* The writer keeps the indirect pointer in num[12], the readers take it from num[11], and the scan for
  the blocks in use needs a clear num[12] and a zero among the first twelve. `Writing.RegimeEndsIff`:
  growing by any amount leaves these, and num[11] clear, if and only if fewer than twelve blocks come
  out. The file layer is therefore modelled for sizes below 22528 bytes.
* A deleted file's slot is a tombstone until the next mount, and create_file ignores a failed
  insertion. `Runs.LostOnlyByFailedInsert` and `Runs.RemountEquivalence` say exactly what that costs;
  `Witnesses.InsertionCanFail` drives any state with nothing missing and a free inode id into it, by
  making and removing one path. create_file looks for the name in the table only, so a lost file can be
  made again: `Runs.CreationStaysUniqueIff`, `Witnesses.NamesCanCollide`.
* create_file looks for files only, and create_dir looks for the name as given among names as cut.
  `Names.StepUniqueIff` is the exact condition under which a step gives a taken name a second node,
  `Names.MkdirNeverDoubles` says that mkdir of a name that fits its field never does;
  `Witnesses.TouchDoublesDirectory` and `Witnesses.CutNameTwice` are runs of two steps that do.
* search_dir takes any component that contains the name for the name (`Listings.SearchDirIff`), so mkdir
  of a name that is part of an entry's is refused (`Outcomes.CreateDirOutcome`).
* list_dir matches by raw string prefix: `Trees.DeleteDirIff` states when delete_dir goes through,
  `Witnesses.NeighbourKeepsDirectory` gives a run after which an empty directory cannot be removed.

## Model

| member | source | states |
|---|---|---|
| Runs.Next | directories_and_files.c:12-294 | each of the seven steps, in any argument the command layer can pass, keeps the global invariant that ties bitmaps, pointers, records on disk and the table together |
| Runs.Run | directories_and_files.c:12-294 | the invariant holds after every sequence of steps |
| Runs.OwnershipOverRuns | filesystem_and_blocks.c:54-71 | over every run no block has two owners, owned blocks are data blocks with their bit set, bits 0..513 stay set, and a bit in 514..2047 is set if and only if some live inode points at the block |
| Runs.PointerShapeOverRuns | inode.c:130-209 | over every run the nonzero pointers of a live inode form a prefix of at most eleven, also after a full disk and after the shrink loop as written |
| Runs.RemountEquivalence | directories_and_files.c:12-37 | reloading gives exactly the live records held in memory if and only if no used inode is missing from the table |
| Runs.LostOnlyByFailedInsert | directories_and_files.c:286-288 | from a state with nothing missing, a step makes an inode go missing if and only if it is a create_file that finds no empty slot |
| Runs.NoneLostOverRuns | directories_and_files.c:286-288 | over every run without failed insertion no used inode goes missing from the table |
| Runs.RemountEquivalenceOverRuns | directories_and_files.c:12-37 | from a fresh image on, after every run without failed insertion, reloading gives exactly the live records in memory |
| Runs.RemountRecords | inode.c:30-43 | remounting restores the records of exactly the set inode bits |
| Runs.SlotAccounting | directories_and_files.c:39-64 | live, tombstone and empty slots make up 4096; missing inodes never outnumber tombstones; a failed insertion after create_inode succeeded implies a tombstone |
| Runs.LiveSlotsMatchInodes | directories_and_files.c:39-49 | nothing is missing if and only if there are as many live slots as set inode bits, and then each set bit has exactly one slot |
| Runs.UniqueNamesOverRuns | directories_and_files.c:269-294 | over every run without failed insertion, remounts and cut names included, live files have distinct names |
| Runs.UniqueNamesFromFormat | directories_and_files.c:269-294 | the same from a fresh image on |
| Runs.CreationStaysUniqueIff | directories_and_files.c:279-288 | a create_file that gets an inode keeps the names distinct if and only if no live record on disk, lost ones included, has the path as cut |
| Runs.FirstMatchIsOnlyMatch | directories_and_files.c:51-77 | with distinct names the first match of a lookup is the only one, and delete_inode_from_table hits the same slot |
| Invariant.EmptySlotMeansFreeInode | inode.c:66-72 | by pigeonhole create_inode cannot fail while the table has an empty slot, in every reachable state |
| Invariant.FirstMountEstablishesInv | directories_and_files.c:28-34 | mounting a fresh image establishes the global invariant |
| Invariant.RemountKeepsInv | directories_and_files.c:12-37 | remounting keeps the invariant, leaves the disk alone and fills slot i from inode i |
| Invariant.CreateFileKeepsInv | directories_and_files.c:269-294 | create_file keeps the invariant also when it fails or loses the inode |
| Invariant.PlaceDirFinds | directories_and_files.c:145-163 | create_dir fills the first nameless slot with a fresh clean directory record, or changes nothing when every slot is taken |
| Invariant.DeleteDirKeepsInv | directories_and_files.c:174-194 | delete_dir of anything but the root keeps the invariant |
| Invariant.DeleteFileKeepsInv | directories_and_files.c:231-251 | delete_file_by_path keeps the invariant |
| Invariant.WriteKeepsInv | directories_and_files.c:211-226 | write_file_by_path keeps the invariant for every size below 22528 |
| Ownership.PutKeepsSound | inode.c:45-55 | storing a record whose blocks are its own or fresh, with a bitmap that follows, keeps ownership disjoint and the bitmap exact |
| Ownership.CreateKeepsSound | inode.c:57-76 | create_inode keeps the volume sound and changes no owned block |
| Ownership.DeleteKeepsSound | inode.c:80-97 | the stop-at-first-zero loop frees exactly the file's blocks below 2048 and the volume stays sound |
| Writing.WriteKeepsSound | inode.c:130-209 | all three cases of write_file keep the volume sound, change no other record and no other block's bytes, and leave a pointer prefix of min(n, b + free) for b <= n and b - n otherwise |
| Writing.RegimeEndsIff | inode.c:107-172 | after growing a live file to any number n of blocks, the next write finds its block count (num[12] clear, a zero among the first twelve) if and only if min(n, b + free) < 12; num[11], which the readers load as the indirect block, is set exactly when it does not; num[12] is set if and only if n > 12 and a block is left for it; below the boundary this is the array write_file leaves |
| Content.RoundTripIff | inode.c:99-209 | a read after a write of 0 < size < 22528 returns the bytes and one NUL if and only if the prefix the write leaves covers the size and every old block from id 2048 on already holds its bytes |
| Content.PathRoundTripIff | directories_and_files.c:195-226 | the same by path, through the strncpy copy of the data |
| Content.PathRoundTrip | directories_and_files.c:195-226 | NUL-free data, enough free blocks, rewritten ids below 2048 and b <= n or b = 2n suffice |
| Content.EveryContentIff | inode.c:130-209 | a file takes every NUL-free content of a given size if and only if the pointer prefix the write will leave covers the size and no block it has to rewrite has an id from 2048 on |
| Content.ShrinkElevenToTwoIsUnreadable | inode.c:174-189 | shrinking from eleven blocks to 3000 bytes leaves nine pointers and an undefined read |
| Content.BytesAfterWrite | inode.c:130-209 | every byte of every block of the file's chain after a write, in all three cases: written, kept from before because it lies behind the data or in a block the bound refuses or the shrink does not rewrite, or zero in a new block |
| Content.ReadIs | inode.c:99-128 | a read gives exactly the bytes its blocks hold and one NUL, one NUL alone for size 0, and is undefined in every other case than a size that reaches into the last block |
| Content.ReadNowIs | directories_and_files.c:195-209 | by path: no such file if and only if no live slot is a file of that name, otherwise what the first such slot's record and blocks say |
| Effects.StepIsolates | inode.c:80-209 | every step leaves the record, the bitmap bits and the bytes of every live inode it is not about as they were |
| Effects.StepBits | filesystem_and_blocks.c:47-71 | the block bitmap after a step is the one before, plus the target's new blocks, minus those it gave up below 2048; the owned blocks follow its pointers and new ones were free |
| Effects.StepFlipsOwnBits | filesystem_and_blocks.c:47-71 | the only bitmap bits a step flips belong to blocks its target owns before or after it |
| Effects.UntouchedReadsAlike | inode.c:99-128 | an untouched file reads the same before and after |
| Effects.BlockAccounting | filesystem_and_blocks.c:47-71 | free, owned and leaked blocks add up to 3582; leaked ones have ids from 2048 on; free plus owned make 3582 if and only if nothing is leaked |
| Effects.SameRecordsSameBits | filesystem_and_blocks.c:54-71 | the bitmap below 2048 is determined by the live records |
| Effects.CreateAddsOne | directories_and_files.c:269-294 | while there is an empty slot a created file is found under its cut path, its inode is new and every other record stays |
| Effects.FoundUnderOwnPathIff | directories_and_files.c:276-284 | under the path the caller meant, the created file is found if and only if that path has fewer than 32 characters |
| Outcomes.InitDirOutcome | directories_and_files.c:12-37 | on any image, reachable or not: slot i is what inode i answers; where no inode is the root, slot 0 and the least free id become it |
| Outcomes.CreateFileOutcome | directories_and_files.c:269-294 | create_file case by case: -1 for more than 32 characters, -2 for a live file of the cut path, otherwise 0, with the least free id, an empty record of every field and the first nameless slot, or no slot, or nothing when no id is left |
| Outcomes.CreateDirOutcome | directories_and_files.c:129-163 | create_dir case by case: -1 and no change if and only if the directory is in the table and shows a component that contains the name, or no slot is nameless; otherwise the least free id and the first nameless slot get the directory |
| Outcomes.DeleteDirOutcome | directories_and_files.c:174-194 | delete_dir case by case: -1 and no change unless the directory is there and shows nothing; otherwise exactly the inode bit of the first such slot is cleared, that slot becomes empty, and no block, record or other slot changes |
| Outcomes.DeleteFileOutcome | directories_and_files.c:231-251 | delete_file_by_path case by case: -1 for a trailing slash, -2 if no live file has the name, otherwise exactly the inode bit and the blocks below 2048 of the first such file are cleared and its slot is a tombstone |
| Outcomes.WriteOutcome | directories_and_files.c:211-226 | a write of no bytes or to no file changes nothing; every other one changes size and pointers of the first such file, in its slot and on disk, and no other slot, record or inode bit |
| Outcomes.RemovedDirIsGoneIff | directories_and_files.c:187-192 | after a successful delete_dir no live inode on disk is a directory of that path if and only if there was only one |
| Outcomes.RemovedFileIsGoneIff | directories_and_files.c:231-251 | the same for a removed file |
| Outcomes.GoneStaysGoneOverRuns | directories_and_files.c:12-294 | a file or directory that is not on disk stays away, from disk and table, over every run that does not create it, remounts and failed insertions included |
| Outcomes.RemovedDirStaysGone | directories_and_files.c:174-194 | a removed directory, of which there was only one, is not found after any run that does not make it again, across any number of mounts |
| Names.MkdirRefusesNames | directories_and_files.c:141-142 | create_dir of a name that a live slot of either kind has in that directory is refused and changes nothing |
| Names.CutNameIsNotFound | directories_and_files.c:109-127 | a name that its field cannot hold is never found by search_dir, whatever is there |
| Names.CreateFileUniqueIff | directories_and_files.c:279-288 | a create_file that gets an inode keeps all live names, of files and directories, distinct if and only if no live inode on disk has the cut path |
| Names.CreateDirUniqueIff | directories_and_files.c:145-163 | the same for a create_dir that its guard lets pass |
| Names.StepUniqueIff | directories_and_files.c:109-294 | with nothing missing, all live names stay distinct over a step unless it is a create_file that takes the name of a directory, or a create_dir of a taken name that is cut or lies in no live directory; and in those cases they do not |
| Names.UniqueNodesOverRuns | directories_and_files.c:109-294 | over every run without such a step and without failed insertion, files and directories together keep distinct names |
| Names.UniqueNodesFromFormat | directories_and_files.c:109-294 | the same from a fresh image on |
| Names.MkdirNeverDoubles | directories_and_files.c:129-163 | from a fresh image on, after every run without failed insertion, mkdir in a live directory of a name that fits its field and is live is refused and changes nothing |
| Effects.RemovedIsGone | directories_and_files.c:231-251 | with distinct names a removed path is not found any more |
| Effects.FileLifeRestoresBitmaps | inode.c:57-97 | create, any number of writes below 22528 bytes, delete: the inode bitmap, the block bitmap below 2048 and all other records are restored |
| Leaks.HighBitsStay | filesystem_and_blocks.c:58-58 | no step clears a bit at or above 2048 |
| Leaks.HighBitsStayOverRuns | filesystem_and_blocks.c:54-64 | no run does |
| Leaks.LeakLaw | filesystem_and_blocks.c:54-64 | a step leaks exactly the blocks from 2048 on that its target owned before and not after, none of them leaked already |
| Leaks.LeaksStayOverRuns | filesystem_and_blocks.c:54-64 | over every run whatever is leaked stays leaked |
| Leaks.RemovalLeaksIff | inode.c:80-97 | removing a file leaks exactly its blocks from 2048 on, so nothing if and only if all its pointers are below |
| Leaks.WriteLeaksIff | inode.c:173-179 | a write leaks exactly the blocks from 2048 on among pointers b - n to b, so nothing if and only if it does not shrink or these are all below |
| Leaks.FirstFitLow | filesystem_and_blocks.c:65-71 | of a run of allocations exactly the first ones, as many as there are free ids below 2048, get such an id |
| Leaks.FileLifeConservesIff | inode.c:57-209 | create, any number of writes below 22528 bytes, delete: the whole block bitmap is restored, and nothing leaked, if and only if every growing write finds enough free ids below 2048 or there are none above, as counted before the creation |
| Durability.RunIsolates | inode.c:80-209 | over whole runs an inode no step is about keeps record, bits and bytes |
| Durability.ReadSurvivesRun | directories_and_files.c:195-209 | reading a file gives the same before and after every run that spares it, remounts included |
| Durability.WriteIsDurable | directories_and_files.c:195-226 | a write that lands is what the same path reads after every later run that spares the file and loses no inode |
| Durability.EmptyReadsIff | inode.c:106-109 | the file a lookup finds reads as one NUL if and only if its size is 0 |
| Durability.NewFileReadsEmpty | directories_and_files.c:269-294 | after a create_file that finds a slot the file reads as one NUL under its cut path |
| Durability.EmptyStaysEmpty | inode.c:106-109 | every live file of size 0 reads as one NUL after every run without failed insertion that spares it, remounts included |
| Durability.NewFileStaysEmpty | inode.c:106-109 | the same for a file just created, until the first step that is about it |
| Trees.ListingFacts | directories_and_files.c:79-108 | list_dir yields each shown component once, all of them and no other, and an empty text only when there are none |
| Listings.ShownIff | directories_and_files.c:87-93 | list_dir shows a component of a name if and only if it lies, up to the next slash or the end, behind the raw directory path and one more character, whatever that is, or behind the root's slash |
| Listings.ListingPrints | directories_and_files.c:85-106 | the text consists of one line for each component shown, in the order of the slots that show it first, and of nothing else |
| Listings.ListingLines | directories_and_files.c:79-108 | splitting the text at newlines gives these lines back: the bare component where the first slot that shows it is a file, the component and a slash where it is a directory |
| Listings.SearchDirIff | directories_and_files.c:109-127 | for a name without slash: search_dir succeeds if and only if the directory is in the table and some component shown in it contains the name |
| Listings.OccursIff | directories_and_files.c:117-117 | strstr finds a word if and only if the text is something, the word and something |
| Trees.DeleteDirIff | directories_and_files.c:174-194 | delete_dir succeeds if and only if the directory is in the table and no slot shows a component behind its raw prefix |
| Trees.DeleteDirSparesParents | directories_and_files.c:183-185 | no directory with something below it is removed |
| Trees.AddKeepsTreeIff | directories_and_files.c:129-163 | a new entry, its name cut or not, keeps every node under a live directory if and only if that name is one of an entry of a live directory, or the root |
| Trees.ParentIsPwd | directories_and_files.c:274-278 | for a plain name that is not cut this means that the directory it is created in is live |
| Trees.DeleteDirKeepsTree | directories_and_files.c:174-194 | removing a directory never orphans a live node |
| Trees.TreeOverRuns | directories_and_files.c:129-294 | over every run without failed insertion in which each created entry, under its name as cut, belongs into a directory that is live at that point, each live node's parent stays a live directory, across removals and remounts |
| Trees.TreeFromFormat | directories_and_files.c:129-294 | the same from a fresh image on |
| Witnesses.InsertionCanFail | directories_and_files.c:39-64 | from every state with nothing missing and a free inode id a run that loses nothing leads to a create_file that reports 0, makes a file no lookup finds, and after which a remount gives other records than memory holds |
| Witnesses.InsertionCanFailFromFormat | directories_and_files.c:286-288 | in particular a failed insertion is reached from a fresh image |
| Witnesses.NamesCanCollide | directories_and_files.c:279-288 | from every state with nothing missing and two spare inode ids a run leads to two live files of one name, both in the table after the next mount |
| Witnesses.ShrinkLosesTheFile | inode.c:173-189 | wherever a file can be made and eleven blocks are free, writing 22000 and then 3000 bytes of anything leaves it unreadable |
| Witnesses.ShrinkLosesTheFileFromFormat | inode.c:173-189 | in particular on a fresh image |
| Witnesses.RemovalCanLeak | filesystem_and_blocks.c:58-58 | on a fresh image, 140 files of 22000 bytes leak nothing, and removing the last then leaks six blocks for good |
| Witnesses.RewriteCanBeRefused | filesystem_and_blocks.c:145-151 | in the same state there are 22000 bytes which, written over the last file, are not what it reads |
| Witnesses.NeighbourKeepsDirectory | directories_and_files.c:174-194 | on a fresh image, with directories /ab and /abcd and file /abcd/e made, nothing lies below /ab and delete_dir refuses it |
| Witnesses.TouchDoublesDirectory | directories_and_files.c:269-294 | on a fresh image mkdir /a and touch /a end with a live directory and a live file of that name |
| Witnesses.CutNameTwice | directories_and_files.c:129-163 | on a fresh image mkdir of one name of 31 characters, twice, ends with two directories of one name |
| Chains.AllocateFacts | filesystem_and_blocks.c:65-71 | a run of allocations hands out fresh distinct blocks until the disk is full, then ids of 0, and sets exactly those bits |
| Chains.AllocateData | filesystem_and_blocks.c:161-176 | each block handed out holds its chunk padded with zeros and no other block changes |
| Chains.RewriteFacts | filesystem_and_blocks.c:145-159 | rewriting a chain changes the data of its blocks below the limit and nothing else |
| Chains.ReleaseFacts | filesystem_and_blocks.c:54-64 | releasing a run of pointers clears exactly the bits below the limit |
| Volumes.FirstFreeIsLeast | filesystem_and_blocks.c:65-71 | first fit: the least free id from 514 on, 0 if and only if none is free |
| Volumes.FirstFreeInodeIsLeast | inode.c:66-72 | create_inode takes the least free id, and fails if and only if all 4096 are used |
| Volumes.QueryInodeIff | inode.c:30-43 | an inode answers if and only if its bit is set and its record carries its id; then with that record, otherwise blank |
| Inodes.RecordRoundTrip | inode.h:13-23 | encoding a record in the 128-byte struct and decoding it gives the record |
| Inodes.DecodeIsAtOffset | inode.h:13-23 | every field of a decoded record is what the struct has at its offset: id at 0, size at 4, type at 8, name length at 12, file id at 16, name at 20, group id at 52, pointers from 56 on |
| Inodes.EncodeIsAtOffset | inode.h:13-23 | the encoding of a record has every field at its offset |
| Layout.InodePlacesDistinct | inode.c:32-33 | no two inode ids share a block and a seat |
| Layout.PatchRecord | inode.c:51-53 | replacing one record leaves the other fifteen of its block unchanged byte for byte |
| Layout.RecordUpdate | inode.c:45-55 | patching a record's bytes in its block changes that record of the volume and nothing else |
| Layout.ImageByOffsets | inode.c:11-33 | the volume an image stands for, read off at byte offsets: block bit x in byte 10 + x / 8, inode bit id in byte 2056 + id / 8, record id from byte 4096 + 128 id on, data block x from byte 2048 x on |
| Layout.HeaderSpells | filesystem_and_blocks.c:23-23 | the ten header bytes are the word filesystem |
| Layout.SpliceBlock | filesystem_and_blocks.c:151-156 | a write inside one block changes that block and neither header nor bitmap nor another block |
| Layout.SpliceMap | filesystem_and_blocks.c:41-45 | writing the bitmap area changes no block and not the header |
| Bytes.IntsRoundTrip | inode.h:21-21 | the pointer array survives its little-endian encoding |
| Bytes.StringRoundTrip | inode.h:19-19 | a name of at most 31 characters survives its field |
| Bytes.StrNCpyWithoutNul | directories_and_files.c:220-220 | strncpy of NUL-free data copies it |
| Bytes.StrNCpyAt | directories_and_files.c:220-220 | byte k of a strncpy is the source's byte if no NUL comes before it, and 0 from the first NUL or the end on |
| Bytes.SetBitInserts | filesystem_and_blocks.c:30-30 | setting a bit in its byte inserts one id into the set |
| Bytes.ClearBitRemoves | filesystem_and_blocks.c:32-32 | clearing a bit in its byte removes one id from the set |
| Bytes.ShiftTestsBits | inode.c:23-28 | the shift-and-parity test of the inode bitmap is membership in the set the bitmap stands for |
| BlockStores.BlockStore.Create | filesystem_and_blocks.c:78-97 | a zeroed image with header, the first 514 bits set on disk and in memory |
| BlockStores.BlockStore.Load | filesystem_and_blocks.c:99-114 | succeeds if and only if the header is there, and then memory mirrors the image |
| BlockStores.BlockStore.MapSet | filesystem_and_blocks.c:30-30 | inserts one id into the set in memory |
| BlockStores.BlockStore.MapClear | filesystem_and_blocks.c:32-32 | removes one id from the set in memory |
| BlockStores.BlockStore.MapCheck | filesystem_and_blocks.c:34-39 | the test on the image is membership in the set in memory |
| BlockStores.BlockStore.UpdateSuperBlock | filesystem_and_blocks.c:41-45 | makes bytes 10..521 of the image equal the bitmap in memory and changes no block |
| BlockStores.BlockStore.AssignBlock | filesystem_and_blocks.c:65-71 | returns the least free id and sets that bit only, or 0 and nothing |
| BlockStores.BlockStore.DeleteBlock | filesystem_and_blocks.c:54-64 | clears the bit of an allocated id below 2048, refuses every other, and touches no block |
| BlockStores.BlockStore.ModifyBlock | filesystem_and_blocks.c:145-159 | overwrites the front of an allocated block below 2048, refuses every other id, and keeps header and bitmap |
| BlockStores.BlockStore.WriteBlock | filesystem_and_blocks.c:161-176 | a new block holding the data and zeros, or -2 on a full disk |
| BlockStores.BlockStore.ReadBlock | filesystem_and_blocks.c:178-190 | the block of an allocated id up to 4095, -2 otherwise |
| BlockStores.WriteThenRead | filesystem_and_blocks.c:161-190 | what is written is read back padded with zeros; it fails if and only if no data block is free |
| InodeStores.InodeStore.InitSuperblock | inode.c:3-7 | whatever the superblock in memory held, the inode bits are those of block 1 afterwards and memory and image agree |
| InodeStores.InodeStore.Load | filesystem_and_blocks.c:99-114 | whatever memory held, the block bitmap is that of the image afterwards, if and only if the header is there; otherwise nothing changes |
| InodeStores.InodeStore.ViewIsOnDisk | filesystem_and_blocks.c:41-45 | in a valid store the volume memory describes is the one the image describes by itself |
| InodeStores.InodeStore.SetInodeBitmap | inode.c:11-15 | inserts one inode id, in memory and in block 1 |
| InodeStores.InodeStore.ClearInodeBitmap | inode.c:17-21 | removes one inode id, in memory and in block 1 |
| InodeStores.InodeStore.QueryInodeBitmap | inode.c:23-28 | membership in the set of used inodes |
| InodeStores.InodeStore.FindFreeInode | inode.c:66-72 | the scan finds the least free id, -1 when all are used |
| InodeStores.InodeStore.QueryInode | inode.c:30-43 | the record on disk if its bit is set and it carries the id |
| InodeStores.InodeStore.UpdateInode | inode.c:45-55 | the read, patch and write of a group of sixteen changes one record |
| InodeStores.InodeStore.CreateInode | inode.c:57-76 | bit, clean record and id as in the value model, with memory and block 1 in agreement |
| InodeStores.InodeStore.ReadFile | inode.c:99-128 | the loop over the pointers computes the outcome of a read, which `Content.ReadIs` gives byte by byte |
| InodeStores.InodeStore.DeleteFile | inode.c:80-97 | the loop releases the pointer prefix and clears the inode bit |
| InodeStores.InodeStore.BlocksInUse | inode.c:139-143 | for any pointer array: the scan sets the count if and only if one of the twelve direct pointers is zero, and then it is the length of the nonzero prefix |
| InodeStores.InodeStore.RewriteWhole | inode.c:180-189 | the loop offers the first k pointers whole blocks, never cutting the last one |
| InodeStores.InodeStore.RewriteCut | inode.c:198-206 | the loop of the equal branch cuts the last block to the file size |
| InodeStores.InodeStore.AppendBlocks | inode.c:158-167 | the loop of the grow branch stores the id of a new block, or 0 on a full disk, in each further pointer |
| InodeStores.InodeStore.ReleaseBlocks | inode.c:174-179 | the loop deletes a run of blocks and zeroes their pointers |
| InodeStores.InodeStore.GrowFile | inode.c:151-172 | the grow branch on the image is the grow case of the value model |
| InodeStores.InodeStore.ShrinkFile | inode.c:173-196 | the shrink branch on the image, from b - n as written, is the shrink case of the value model |
| InodeStores.InodeStore.WriteFile | inode.c:130-209 | write_file on the image is write_file on the volume |
| InodeStores.UpdateThenQuery | inode.c:30-55 | query_inode after update_inode returns the record written and every other record is unchanged |
| DirectoryTables.Directory.Format | filesystem_and_blocks.c:78-97 | formatting and the first mount give the start state of every result about runs from a fresh image |
| DirectoryTables.Directory.InitDir | directories_and_files.c:12-37 | whatever superblock and table in memory held, both bitmaps, all records and the root come from the image, as in the value model |
| DirectoryTables.Directory.Remount | directories_and_files.c:12-37 | in a new process with arbitrary memory, mounting the image of a state gives the state it remounts to, valid, with the same live records if and only if none was missing |
| DirectoryTables.Restart | commands.c:2-11 | a process with zeroed memory started on the image of a valid one comes up with its volume, and with its live records if and only if none was missing from its table |
| DirectoryTables.Directory.GetInodeFromPath | directories_and_files.c:68-77 | the first live file of that name |
| DirectoryTables.Directory.InsertInode | directories_and_files.c:39-49 | the first slot without id and name takes the node; tombstones do not |
| DirectoryTables.Directory.DeleteInodeFromTable | directories_and_files.c:51-64 | the first slot with the id becomes a tombstone |
| DirectoryTables.Directory.ListDir | directories_and_files.c:79-108 | the listing with duplicates dropped, in table order; `Listings.ListingLines` gives its text line by line |
| DirectoryTables.Directory.SearchDir | directories_and_files.c:109-127 | the guard of create_dir: substring of the listing, and a directory of that path |
| DirectoryTables.Directory.CreateFile | directories_and_files.c:269-294 | create_file on image and table is create_file of the value model and keeps the invariant |
| DirectoryTables.Directory.CreateDir | directories_and_files.c:129-163 | create_dir likewise; `Outcomes.CreateDirOutcome` says when it refuses and what it makes |
| DirectoryTables.Directory.DeleteDir | directories_and_files.c:174-194 | delete_dir likewise; `Outcomes.DeleteDirOutcome` says when it refuses and what it removes |
| DirectoryTables.Directory.ReadFileByPath | directories_and_files.c:195-209 | reading by path gives the outcome of the value model, which `Content.ReadNowIs` tells from the slots, and changes nothing |
| DirectoryTables.Directory.WriteFileByPath | directories_and_files.c:211-226 | write_file_by_path on image and table is the write step and keeps the invariant |
| DirectoryTables.Directory.DeleteFileByPath | directories_and_files.c:231-251 | delete_file_by_path on image and table is the removal step and keeps the invariant |
| Repaired.RoundTrip | inode.c:99-209 | in the repaired version write then read returns the data for every size up to 268 blocks, from every state of the file, across grow, equal, shrink and both crossings of twelve blocks; every block the file then holds was its own or free, the bitmap gives up exactly the blocks given up and gains exactly those taken, and everybody else's keep bits and bytes |
| Repaired.SaveKeepsFiles | inode.c:99-209 | in the repaired version files that share no block, indirect blocks included, stay apart, and a write of one leaves the reading of every other as it was |
| Repaired.SaveKeepsForeign | inode.c:130-209 | in the repaired version a write leaks no block and takes none that is in use elsewhere: the set bits belonging to none of the files stay the same |
| Repaired.LastWriteIsRead | inode.c:99-209 | in the repaired version, after any interleaving of writes to several files that find room, every file reads as last written, or as at the start if it was not, and no block has leaked |
| Repaired.NewFilesOk | inode.c:65-65 | any number of files without pointers is a start for such an interleaving |
| Repaired.GroupStored | inode.c:168-196 | logical block i is num[i] below twelve and entry i - 12 of the indirect block above, after every write |
| Bytes.ShortsRoundTrip | inode.h:34-36 | the entries of an indirect block survive their 16-bit encoding |
| Paths.StrProcess | commands.c:13-29 | the in-place terminators leave argv pointing, in order, at exactly the nonempty pieces between slashes |
| Paths.CollectArgs | commands.c:21-29 | the second loop collects the start of every maximal slash-free run |
| Paths.RunsAreTokens | commands.c:13-29 | the maximal slash-free runs are the split on slashes with empty pieces dropped |
| Paths.RelToAbs | commands.c:30-54 | for a canonical current path and a relative argument, the rendering of the folded component stack, canonical again; a dot alone gives the current path, two dots its parent, a name its entry; an absolute argument is copied |
| Paths.CutLastComponent | commands.c:42-48 | the inner loop cuts at the last slash and keeps the root |
| Paths.UpOnePops | commands.c:41-48 | cutting a canonical path at its last slash pops its component stack |
| Paths.AppendPushes | commands.c:49-52 | appending a name pushes it |
| Paths.WalkStaysCanonical | commands.c:38-52 | the folded stack holds proper components only |
| Paths.ResolveOne | commands.c:38-52 | on paths: a dot changes nothing, two dots lead to the parent with the root its own, a name to the entry of that name |
| Paths.ResolveAppend | commands.c:38-53 | resolving one list of components after another is resolving their concatenation |
| Paths.DotsAreIdle | commands.c:39-40 | dropping every dot leaves the result unchanged |
| Paths.UpUndoesDown | commands.c:38-52 | a name followed by two dots leads back |
| Paths.CutAtLastSlash | commands.c:157-170 | the loop in mkdir1, repeated in rmdir1 and touch, finds the parent path and the last component |
| Paths.JoinUndoesSplit | directories_and_files.c:276-279 | joining the parts gives the path back if and only if it is not of the form //name |
| Paths.CanonicalSplits | commands.c:433-445 | for canonical paths of at most 31 characters the split in the command loops and the join in the directory layer undo each other |

## Left out

- Runs.Next: no writes from 22528 bytes on, where the code uses variables it never set and read_file copies 2048 bytes into a 512-byte struct (`Repaired.dfy` covers those sizes for the repaired version), and no removal of the root, after which the next mount would rebuild the root over another inode's slot.
- InodeStores.InodeStore.WriteFile: requires the direct regime for the same reason; the branches for the indirect block are idle in it and are not written out.
- InodeStores.InodeStore.DeleteFile: likewise for files of at most eleven blocks; its loop over the indirect block needs num[11], which is 0 there.
- InodeStores.InodeStore.GrowFile: likewise; the branches for entries behind the twelfth block are idle below 22528 bytes.
- InodeStores.InodeStore.ShrinkFile: likewise.
- InodeStores.InodeStore.ReadFile: likewise; the bytes of an undefined read are not modelled, only that it is undefined.
- DirectoryTables.Directory.WriteFileByPath: requires sizes below 22528 bytes.
- DirectoryTables.Directory.DeleteDir: requires a path other than the root.
- Invariant.DeleteDirKeepsInv: the same.
- Outcomes.DeleteDirOutcome: the same.
- Outcomes.RemovedDirIsGoneIff: the same.
- Listings.ListingLines: assumes names without newline, as main.c:28 delivers them; `Listings.ListingPrints` gives the text for every name.
- Listings.SearchDirIff: assumes a name without newline and, as mkdir splits it off, without slash.
- Outcomes.CreateDirOutcome: the same.
- Names.StepUniqueIff: the same for the names given to create_dir.
- Repaired.RoundTrip: the repaired version is given as functions on volumes, not as a class, because the repository has no such code to follow; deleting a repaired file is not modelled.
- Sockets, daemon set-up and message sending (client.c, server.c, error_handlers.c): unfinished plumbing around the modelled calls.
- The prompt loop, printing and redirection branches of the commands: they only call the operations modelled here.
- Opening, closing and seeking of descriptors: the image is a byte array whose in-range reads and writes succeed.
- Pointers and the heap: a table slot holds an inode value instead of a pointer to one, so aliasing between a slot and a caller's pointer is not captured; write_file and delete_file take the inode by value and give it back.
- Bytes of a name field behind its terminator and the padding of the struct: taken as zero. delete_dir leaves such bytes in the slot and list_dir reads them on an exact match, so a directory that reuses the slot of one with a longer name can show an entry it does not have.
- Capacities of the C buffers for paths and listings (100, 500 and 1000 bytes): strings are unbounded.
- The value of the host `stat` call in create_dir: an arbitrary 32-bit size.
- rename_file, rename_dir, search_empty, modify_super_block and read_super_block: declared or defined but not called.
