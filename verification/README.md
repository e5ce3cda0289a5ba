# libfs: a verified model of the simulated file system

The program is a file service. Clients link `lib/libfs.c`, which cuts every request into
messages; a receiver thread puts the messages together in a ring buffer; a worker thread takes
the requests out and runs them on three linked lists (inodes, filenames, descriptors), a table of
1000 block records and a disk of 4096-byte blocks. When the service ends, the tables are saved as
text, and they are loaded when it starts.

This project models that system in Dafny and proves what it is for.

| modules | content |
|---|---|
| `Blocks`, `Files` | the block allocator and the block loops; they refine updates and slices of one flat byte sequence per file |
| `Permissions`, `Times` | what the permission tests mean, in bits of octal digits; which operation sets which time of which file |
| `Reference` | the file system as clients see it: directory, files, handles, number of free blocks; next state and whole reply of each of the twelve calls |
| `StoredBytes`, `Views`, `Refinement`, `Observed` | the tables refine the reference: every byte, every reply, every run; up to the answers that clients are sent |
| `Namespace`, `Invariant`, `Runs` | the twelve service operations on the tables; the global invariant, over any run |
| `Directory`, `Attributes` | the filename list as a finite map; owner, group, kind and mode |
| `Leaks` | which blocks are allocated and no longer referred to |
| `LinkedList`, `Volume` | the doubly linked lists, and the same operations in place on three of them, a table and a disk, with the walks and loops of the source, proved equal to the functions |
| `DataFile`, `Backing` | the data file that the code keeps behind the blocks, and when it is what the blocks say |
| `Fragments`, `RingBuffer`, `Delivery` | fragmentation, reassembly in any order, the ring and its two threads, for any merge of the clients' messages |
| `Wire`, `Calls` | argument bytes, and the arguments of the twelve calls |
| `Service`, `EndToEnd` | the whole service: requests that went through the ring, performed on the file system; from `libfs_write` through the store and back through `libfs_read` |
| `FileRuns`, `TransportRuns` | concrete runs: a leaking write, a read of the wrong bytes, lost requests in a ring of 256 slots |
| `Text`, `Persist`, `Restart` | saving and loading of the tables, and runs that go on over restarts |

The operations are functions from state to state and reply. The methods of `Volume`, `ReqBuffer`,
`Fragments` and `Persist` are the loops and updates of the source and are proved equal to those
functions, so what is proved about a function holds of the method. `Volume` walks and relinks nodes
as the source does: `Volume.Volume.Perform` is the worker's switch, for any operation, and
`Volume.Volume.PerformAll` its loop, for any run. The code goes through exactly the states of the
functions, with their replies, and its lists stay well formed exactly until an operation loses a
list head (`Runs.KeepsHeads`, explained below). Up to there, what is proved of runs holds of the
code, as far as it puts each block at its place in the data file (`Backing`, also below). Times are
parameters (`now`), and so is the content of freshly allocated memory (`junk`).

What the operations should do is said once, in `Reference`, on maps and byte sequences: it shares
types with the tables, but no function that computes a state. `Refinement.StepRefines` says that in
every good state every call has exactly the effect and exactly the reply of the reference, status code,
descriptor number, bytes and times included; `Refinement.RunRefines` says it of runs, and
`Observed.ServiceAnswers` of the answers that come out of the ring and the two threads. The other
theorems about the tables say in the terms of one subject (contents, names, attributes, leaks) what
follows, or what the reference leaves out (slots, blocks, counts, list order).

## Where the code departs from its evident intent

Kept as coded, with what follows from it:

- `get_inode_index_for_filename` reports a miss with 1, and four callers compare with -1
  (`service/inode.c:133`, `154`, `452`, `520`). A missing name therefore stands for inode 0 in
  permission checks, stat, open and hard links. `Runs.OpenTarget` and `Runs.StatTarget` say exactly
  when such a call succeeds and on what, `Directory.StepDirectory` what a hard link then names;
  `Runs.MissingNameOpens` and `Runs.MissingNameStats` are concrete.
- Descriptors are not counted as references. Unlinking the last name of an open file leaves a
  descriptor on an index without inode, which the next created file may get.
  `Invariant.UnlinkInv` says the invariant is kept exactly when that does not happen;
  `Runs.UnsafeUnlink` is a concrete run.
- `write_inode` adds offset and size in 32 bits. A write whose end wraps around reports success,
  stores nothing that can be read back and cuts the file: `Files.WriteRefines`, `Blocks.WriteWrapped`.
- `write_inode` replaces mapped slots behind the first one without freeing their blocks. The leak
  of every operation and of every run is exact in `Leaks.StepLeaks` and `Leaks.RunLeaks`;
  `Leaks.LosesNothingIff` says when there is none, and `FileRuns.RewriteLeaks` is a concrete write
  that leaks.
- The permission tests compare the whole mode with octal ranges for the owner, so a mode above 0777
  allows its owner everything; for modes up to 0777 the caller's octal digit decides
  (`Permissions.RangesAreBits`, `Permissions.PlainModes`).
- A write that needs further blocks replaces those behind its first block, and a read goes on to the
  last stored byte, which may lie behind the size: `Refinement.StoreRefines`,
  `Refinement.ReadRefines`.
- A soft link that runs out of blocks keeps its name and its inode: `Files.SoftLinkIsSnapshot`.
- A part of a request posts no semaphore until the last one has arrived, but the worker takes the
  slot at the read index. When parts of different requests interleave it can find a request in
  progress there and skip it. `Delivery.TakeSkipsIff` says exactly when a take does that,
  `Delivery.MergedDelivery` that the request is then lost and what is delivered,
  `Delivery.FifoIff` that delivery is in order and complete exactly when no take does;
  `TransportRuns.InterleavingLosesRequest` is concrete.
- The scan for the request of a further part does not wrap around the ring. The service then ends
  (`Delivery.StepKeeps`, `Delivery.StepsOfRun`); `TransportRuns.WrappedScanEndsService` is concrete.
- `get_service_req` counts a slot as empty before the worker has finished with it. `Clean` asks
  that no add takes that slot; `Delivery.AddOverwritesIff` says when one would and
  `Delivery.WorkerKeepsRequest` what the condition is for. From every state in which one does,
  `Delivery.UncleanAddEndsService` follows what happens: the request it brings is never handed out,
  and the take whose turn it would be ends the service. `TransportRuns.UncleanAddOverwrites` is a
  concrete run that comes to such a state.
- `unlink_inode` and `remove_filename_from_table` do not write back a new list head
  (`service/inode.c:267-271`, `1039-1045`), so after removing a first element the code goes on from
  a freed node. `Volume.Volume.UnlinkName` is that code. The lists stay well formed exactly when
  `Runs.KeepsHeads` holds before the call: the name is not the first of its list and, if it is the
  last name of its inode, the inode is not the first of its list. `Runs.HeadLost` lifts this to
  runs. It is independent of the other conditions: `Runs.FirstUnlinkLosesHeads` is a safe unlink of
  a file without blocks that fails it, and `Volume.LoseHeads` runs the code into it.
- `open_data_block_table` reports failure after reading the last record, so loading a saved table
  always fails, having restored everything: `Persist.BlocksRoundTrip`.
- An empty filename is saved as a line that the loader cannot read: `Persist.NamesRoundTripIff`.
- Fields of type `long` are printed in full and read through `atoi`: `Persist.InodesRoundTripIff`.
- `chmod_inode` takes the mode as `unsigned`: `Attributes.ChmodSets`.
- A taken new name makes `rename_file` return its own code, and rename reply a plain failure
  (`service/operations.c:113-119`).

Modelled in the intended form, with the exact condition under which the code has it:

- `occupy_block_table_slot` opens the data file with `"a+"`, so its seek does not place the block
  (`service/inode.c:794-805`). `Blocks` stores the block at its slot. Over every run of disk
  operations from the empty file a new block is placed exactly when no used block was released
  before (`DataFile.RunPlacedIff`). Over every run of the service, restarts included, that unlinks
  no last name of an open file and loses no list head (`Backing.IsCodeRun`), a new block is placed
  exactly when no unlink before has dropped a file that had blocks
  (`Backing.PlacedIffNothingDropped`). Until then every read of the code returns what the model says
  (`Backing.CodeReadsRight`, `Backing.CodeHoldsContent`, `EndToEnd.CodeReturnsBytes`). So
  `Files.WriteRefines`, `Runs.StepKeepsFile`, `Restart.LongRunKeepsFile`,
  `EndToEnd.WriteThenReadEndToEnd` and the other theorems about contents hold of the code on such
  runs, up to the first unlink that drops a file with blocks. `DataFile.ReuseIsMisplaced` says what
  happens afterwards, and `FileRuns.ReuseReadsOldBytes` is a run of nine calls, which loses no list
  head, that reads the wrong byte.

Reading a slot behind the last one has no defined meaning in C; the model makes such a read fail.

## Model

| member | source | states |
|---|---|---|
| Observed.ServiceAnswers | service/service.c:32-152 | in every run of the service on contiguous requests without an unsafe unlink, the answers sent are, call by call and each under its number, the replies of a run of the reference on the calls in their order |
| Observed.CodeAnswers | service/service.c:74-152 | and so are the replies that the code on linked lists gives over a run |
| Observed.RestartShows | service/service.c:154-235 | after a stop and a start clients find everything as it was, without open handles |
| Refinement.RunRefines | service/service.c:74-152 | over every safe run of the tables, what clients can see of the states is a run of the reference on the same calls, with the same replies |
| Refinement.LooksDecide | service/service.c:74-152 | two services that look alike to clients answer every history of calls alike, whatever blocks, slots and list orders they have |
| Refinement.StepRefines | service/service.c:98-141 | each of the twelve calls, in every good state, has exactly the effect and exactly the reply of the reference |
| Refinement.CreateRefines | service/operations.c:30-43 | create: refused for a taken name; otherwise a new empty file with the caller's attributes, all times set, under the number behind the last one |
| Refinement.ChmodRefines | service/operations.c:162-188 | chmod: the permission is tested first, then the name; mode, access and change time are set |
| Refinement.StatRefines | service/operations.c:233-265 | stat: the record returned has the size and the times from before the call, and the access time is set |
| Refinement.RenameRefines | service/operations.c:108-119 | rename: one entry moves, or a plain failure |
| Refinement.LinkRefines | service/operations.c:325-352 | hard link: the three refusals in order, one more entry, access and change time of the file |
| Refinement.SymlinkRefines | service/operations.c:407-436 | soft link: the refusals in order; a copy of the content if it fits, otherwise an empty file with the part that fitted stored behind its size, and no block left |
| Refinement.OpenRefines | service/operations.c:487-543 | open: the refusals in order; a handle at offset 0 under the number behind the last one, and the access time |
| Refinement.CloseRefines | service/inode.c:509-515 | close: exactly the handle goes, or a failure if there is none |
| Refinement.SeekRefines | service/inode.c:477-507 | seek: exactly the offset moves if the handle is open and the offset is within the size, and otherwise nothing does |
| Refinement.ReadRefines | service/inode.c:415-448 | read: refused without a handle; the bytes asked for if they are stored, otherwise a failure that moves the offset to the last of them; the access time is set |
| Refinement.StoreRefines | service/inode.c:342-381 | write: refused without a handle open for writing; otherwise access and modification time, size, offset, free blocks and every stored byte are exactly those of the reference, on success, on a full disk, beyond the largest file and when the end wraps around |
| Refinement.UnlinkRefines | service/inode.c:241-287 | unlink: the name goes; the file goes with its blocks if it has no other name, and otherwise has its access and change time set |
| StoredBytes.WriteStored | service/inode.c:289-340 | the block loop as a function of the stored bytes and the number of free blocks: in place up to the end of the first block, new zero-padded blocks behind it, the rest unchanged, and all that fits when it does not fit |
| StoredBytes.WrappedStored | service/inode.c:289-340 | the same for an end that wraps around: at most the rest of one block is overwritten |
| StoredBytes.FreedCount | service/inode.c:256-265 | the freeing loop makes as many blocks free as were mapped |
| Permissions.RangesAreBits | service/operations.c:171-182 | for every mode, the range tests are bit 4 (read) and bit 2 (write) of the caller's octal digit; a negative mode allows nothing, one above 0777 everything to the owner |
| Permissions.PlainModes | service/operations.c:246-258 | for modes 0 to 0777 nothing but that bit decides |
| Times.StepTimes | service/inode.c:152-173 | for every file and operation, exactly which times change: all of a new file; the access time with every use, the modification time with writes, the change time with chmod, hard link and an unlink that is not the last; a file that is not used keeps its whole record |
| Times.UnusedKeeps | service/inode.c:152-173 | over runs, a file that no operation uses keeps its whole record |
| Times.StatTwice | service/inode.c:162-167 | of two stats of a file with no use in between, the second shows the same size, modification and change time, and the time of the first as access time |
| Blocks.FirstFree | service/inode.c:777-779 | the scan returns the least free block, or the table is full |
| Blocks.FreshCount | service/inode.c:302-335 | the allocating loop succeeds exactly when there are as many free blocks as slots to fill, uses exactly that many, and otherwise uses up every free block |
| Blocks.FreshBytes | service/inode.c:302-335 | the loop appends the stored part of the buffer, block by block and zero-padded, to the bytes of the slots before it, also when the disk fills up half way |
| Blocks.FreshFrame | service/inode.c:777-812 | no block that was allocated before the loop changes record or contents |
| Blocks.FreshAllocated | service/inode.c:302-335 | the newly allocated blocks are exactly those now in the slots that the loop filled, and none was allocated before |
| Blocks.WriteLinked | service/inode.c:289-340 | mapped slots stay a prefix of distinct allocated blocks tagged with the inode, and every slot up to the end of the write is mapped |
| Blocks.WriteFrame | service/inode.c:289-340 | a write leaves the contents of every allocated block of another inode and every record of an allocated block |
| Blocks.WriteBytes | service/inode.c:289-340 | through both branches of the loop, the mapped bytes begin with the old bytes before the offset followed by the stored part of the buffer, all of it on success |
| Blocks.WriteSucceedsIff | service/inode.c:290-335 | a write succeeds exactly when the blocks it needs are free, and lowers the free count by exactly `total_blocks - current_block`, less one if the first slot was mapped |
| Blocks.WriteAllocates | service/inode.c:290-335 | the blocks of the inode afterwards are the old ones, less those replaced strictly after the first, plus the newly allocated ones, on success and on failure |
| Blocks.WriteWrapped | service/inode.c:289-340 | a write whose end wraps around 32 bits succeeds, allocates nothing and keeps every byte before the offset and every other file |
| Blocks.ReadExact | service/inode.c:383-413 | a read within the mapped bytes succeeds, returns exactly that slice and moves the offset by its length |
| Blocks.ReadPastEnd | service/inode.c:383-413 | any other read fails, with the offset moved over exactly the blocks that were there |
| Blocks.FreeAllSlots | service/inode.c:256-265 | because mapped slots form a prefix, the freeing loop resets exactly the records of the inode's blocks |
| Blocks.WriteStores | service/inode.c:302-335 | a write that runs out of blocks has stored exactly the rest of a mapped first block and all free blocks |
| Files.WriteRefines | service/inode.c:342-381 | a write fails and changes nothing unless the descriptor is open for writing; then it succeeds exactly when it fits, and the content is the old bytes before the offset followed by the buffer, and size and offset are its end; a failed write changes neither, nor any byte before the offset, and has stored exactly as much of the buffer behind it as the free blocks hold |
| Files.WriteInodeFrame | service/inode.c:289-340 | a write, successful or not, leaves every other inode and its content, all names and all descriptors |
| Files.ReadIsExact | service/inode.c:415-448 | a read fails and changes nothing unless the descriptor is open; then it succeeds exactly when it stays within the mapped bytes, returns exactly them, moves the offset by their number, and changes nothing else but the access time |
| Files.ReadInsideFile | service/inode.c:383-413 | a read inside the file size never fails and returns that slice of the file's content |
| Files.SeekMoves | service/inode.c:477-507 | a seek succeeds exactly when the descriptor is open and the offset is at most the length of the file's content; then exactly its offset changes, and otherwise nothing |
| Files.CloseRemoves | service/inode.c:669-696 | a close succeeds exactly when the descriptor is open; afterwards no descriptor has the number and all others are as before; otherwise nothing changes |
| Files.SoftLinkIsSnapshot | service/inode.c:548-617 | on success the new file has the parent's content; on running out of blocks it is empty; success is decided by the number of free blocks; names, counts and everyone's contents are as they should be |
| Files.DropFileFrees | service/inode.c:256-281 | dropping the last name frees exactly the blocks of that inode and changes no other file |
| Invariant.CreateInv | service/operations.c:30-43 | create keeps the invariant: unique live names, exact positive counts, increasing indices, block ownership, prefix-mapped slots, size and offset bounds, single writer |
| Invariant.ChmodInv | service/operations.c:162-188 | chmod keeps the invariant |
| Invariant.StatInv | service/operations.c:233-265 | stat keeps the invariant |
| Invariant.RenameInv | service/inode.c:1018-1033 | rename keeps the invariant, names unique included |
| Invariant.LinkInv | service/inode.c:517-546 | a hard link keeps the invariant, the count being raised with the name |
| Invariant.OpenInv | service/operations.c:487-543 | open keeps the invariant: descriptor numbers increase and the writer stays the youngest descriptor of its file |
| Invariant.CloseInv | service/inode.c:509-515 | close keeps the invariant |
| Invariant.SeekInv | service/inode.c:477-507 | seek keeps every offset within the mapped bytes |
| Invariant.WriteInv | service/inode.c:342-381 | a write keeps the invariant, also when it fails half way |
| Invariant.ReadInv | service/inode.c:415-448 | a read keeps the invariant, also when it fails half way |
| Invariant.SoftLinkInv | service/inode.c:548-617 | a soft link keeps the invariant, also when it fails after the name was added, and through the state with count zero |
| Invariant.UnlinkInv | service/inode.c:241-287 | the tables that an unlink leaves have the invariant exactly when it does not drop the last name of a file that is open |
| Invariant.OwnedFrame | service/inode.c:777-812 | an inode's content depends on the blocks tagged with it and on nothing else |
| Runs.StepInv | service/service.c:98-141 | any of the twelve operations keeps the invariant exactly when it is not such an unlink |
| Runs.RunInv | service/service.c:74-152 | the invariant holds in every state of the tables in every run without such an unlink; the code goes through these states up to the first lost list head (`Volume.Volume.PerformAll`) |
| Runs.BlocksAreOwnedOnce | service/inode.c:777-812 | no block is mapped twice, within an inode or across inodes, and each mapped block is allocated and tagged with its inode |
| Runs.OneWriter | service/inode.c:643-655 | a write descriptor is the only one of its inode, the youngest on it, and no further open of the file succeeds |
| Runs.StepKeepsFile | service/inode.c:241-287 | no operation changes the content of a file except a write through a descriptor on it and an unlink of its last name |
| Runs.RunKeepsFile | service/inode.c:548-617 | over every safe run a file that no such operation touches keeps its content, so a soft link and its parent are independent |
| Runs.OpenTarget | service/operations.c:487-543 | for every open exactly which code is replied: unknown flags, then the permission bit of the file that the name stands for (inode 0 for a missing name), then a writer; otherwise the descriptor is on that file at offset 0, and a missing file is never reported |
| Runs.StatTarget | service/operations.c:233-265 | a stat succeeds exactly when the read bit of the file that the name stands for allows the caller, is refused for permissions otherwise, and returns its record, whose size is the length of its content |
| Runs.MissingNameOpens | service/inode.c:450-475 | a concrete state in which opening a missing name succeeds on another file |
| Runs.MissingNameStats | service/inode.c:152-173 | the same for stat |
| Runs.StepTyped | service/inode.h:25-37 | every operation, in any state, keeps the sizes of the arrays and valid block numbers |
| Runs.UnsafeUnlink | service/inode.c:241-287 | a concrete unlink of an open file, not at the head of a list, that breaks the invariant, after which a new file gets the index of the old descriptor |
| Runs.FirstUnlinkLosesHeads | service/inode.c:1035-1052 | a concrete safe unlink, of a file without blocks, that removes the first name and the first inode, so that the code loses both heads |
| Directory.StepDirectory | service/service.c:98-141 | every operation acts on the map from names to indices as create, link, symlink, rename or unlink should; the new map and the code replied are decided exactly by the map, the permission bit and the free blocks |
| Directory.RenameDirectory | service/inode.c:1018-1033 | rename moves exactly one entry, exactly when the old name exists and the new one is free |
| Directory.UnlinkFrees | service/inode.c:241-287 | in the tables, which the code follows also in the unlink that loses a head (`Volume.Volume.UnlinkName`): an unlink of a missing name changes nothing; any other removes exactly the name, and, exactly if the file has no other name, the file and exactly its blocks; the content at every index is as before otherwise |
| Directory.UnlinkKeepsOtherNames | service/inode.c:256-281 | in the tables, after any unlink each other name still stands for the same index with the same content, also another name of the same file |
| Directory.LiveIsNamed | service/inode.c:973-1003 | the live inodes are exactly those that have a name |
| Directory.CountIsNames | service/inode.c:517-546 | the reference count equals the number of names that the directory maps to the index |
| Attributes.CreateSets | service/operations.c:34-43 | a new file is empty, regular, and has the caller's owner, group and mode |
| Attributes.ChmodSets | service/operations.c:162-188 | chmod is refused by the write bit, then for a missing name; otherwise it sets the mode of that file and leaves every other file's attributes |
| Attributes.SymlinkAttrs | service/inode.c:548-617 | a soft link, also a failed one, keeps all attributes, and its inode is a symlink with the caller's owner, group and mode |
| Attributes.StepKeepsAttributes | service/inode.c:96-129 | an inode disappears exactly when its last name is unlinked, and until then only a successful chmod of it changes its attributes |
| Leaks.StepLeaks | service/inode.c:316-329 | every operation adds to the leaked set exactly the blocks it replaces, and removes none |
| Leaks.LosesNothingIff | service/inode.c:316-329 | a write that fits leaks nothing exactly when it ends in the block it starts in or starts in the last mapped block or behind it |
| FileRuns.RewriteLeaks | service/inode.c:316-329 | a concrete leak: a buffer of one block and a byte is written twice from the start of a file, the file holds exactly the buffer, and an allocated block is referred to by nothing |
| Leaks.AppendLosesNothing | service/inode.c:302-335 | appending writes leak nothing |
| Leaks.RunLeaks | service/inode.c:302-335 | over every safe run the leaked set grows by exactly the union of what the operations replaced |
| Leaks.RunLeaksNothing | service/inode.c:256-265 | over safe runs whose writes start in the last mapped block or behind it, the allocated blocks are exactly the referred-to ones |
| Volume.Volume.OccupySlot | service/inode.c:777-812 | the scan over the table, updating it and the disk in place, is the allocator |
| Volume.Volume.UpdateSlot | service/inode.c:814-842 | one block of the disk is patched in place and no other |
| Volume.Volume.ReadSlot | service/inode.c:844-872 | the range asked for of one block |
| Volume.Volume.StoreNext | service/inode.c:302-335 | one iteration takes the loop one slot further towards its specified result |
| Volume.Volume.WriteLoop | service/inode.c:302-335 | the loop of write_inode computes the specified store and slots |
| Volume.Volume.WriteInodeAt | service/inode.c:289-340 | write_inode in place is `WriteInode` |
| Volume.Volume.ReadNode | service/inode.c:383-413 | read_inode, keeping its block counter equal to offset / 4096, is `ReadLoop` |
| Volume.Volume.WriteFd | service/inode.c:342-381 | write_inode_fd in place is `Write` |
| Volume.Volume.ReadFd | service/inode.c:415-448 | read_inode_fd in place is `Read` |
| Volume.Volume.SeekFd | service/inode.c:477-507 | seek_inode_fd in place is `Seek` |
| Volume.Volume.CloseFd | service/inode.c:509-515 | close_inode on the linked list is `Close` |
| Volume.Volume.RemoveDesc | service/inode.c:669-696 | remove_descriptor relinks the list of descriptors, head included, and takes out exactly the first with that number |
| Volume.Volume.OpenName | service/inode.c:450-475 | open_inode, appending a node to the list of descriptors, is `OpenInode` |
| Volume.Volume.LookForOpenedWrite | service/inode.c:643-655 | the walk finds exactly whether a write descriptor on the index exists |
| Volume.Volume.LookupName | service/inode.c:1005-1016 | the walk finds whether the name exists and its index, leaving the caller's zero otherwise |
| Volume.Volume.AddInode | service/inode.c:96-129 | the walk to the last inode and the new node give the list one more inode, with the next index and empty slots |
| Volume.Volume.AddName | service/inode.c:973-1003 | the list of names ends in the new name and is otherwise as before |
| Volume.Volume.AddDesc | service/inode.c:619-641 | the list of descriptors ends in the new one, whose number is one above the last |
| Volume.Volume.CreateName | service/operations.c:34-43 | creation, appending to the lists of inodes and names, is `Create` |
| Volume.Volume.ChmodName | service/inode.c:217-239 | chmod_inode in place is `ChmodInode` |
| Volume.Volume.StatName | service/inode.c:152-173 | the record of the file is copied before its access time is set, as in `StatInode` |
| Volume.Volume.RenameName | service/inode.c:1018-1033 | rename_file in place is `RenameFile`, with its own code for a taken name |
| Volume.Volume.LinkName | service/inode.c:517-546 | create_hard_link in place is `HardLink` |
| Volume.Volume.SoftLinkName | service/inode.c:548-617 | create_soft_link in place, through the state with count zero, is `CreateSoftLink` |
| Volume.Volume.UnlinkName | service/inode.c:241-287 | unlink_inode as written, with heads not written back: nodes and table are those of `Unlink`, and the lists stay well formed if and only if `KeepsHeads` holds before; otherwise a head points at a node that is no longer in its list |
| Volume.Volume.FreeBlocks | service/inode.c:258-265 | the freeing loop in place is `FreeSlots` |
| Volume.Volume.DropNode | service/inode.c:256-275 | the blocks are freed and the inode is bypassed; the list is well formed exactly if it was not the first, and its head is otherwise left on the removed node |
| Volume.Volume.DropName | service/inode.c:1035-1052 | the same of the list of names |
| Volume.Volume.Access | service/operations.c:162-182 | looking up owner, group and mode over the caller's zeros and testing the octal range is the permission test of the model |
| Volume.Volume.ServeChmod | service/operations.c:162-188 | the permission test and chmod_inode in place are `Chmod` |
| Volume.Volume.ServeStat | service/operations.c:233-265 | the permission test and the stat in place are `Stat` |
| Volume.Volume.ServeRename | service/operations.c:108-119 | rename and its reply code in place are `Rename` |
| Volume.Volume.ServeLink | service/operations.c:325-352 | the permission test and the hard link in place are `Link` |
| Volume.Volume.ServeSymlink | service/operations.c:407-436 | the permission test and the soft link in place are `SoftLink` |
| Volume.Volume.ServeOpen | service/operations.c:487-543 | flags, permission test and open in place are `Open` |
| Volume.Volume.Perform | service/service.c:98-141 | each of the twelve operations, on linked lists, has the tables and the reply of `Apply`, and leaves the lists well formed if and only if it keeps the heads |
| Volume.Volume.PerformAll | service/service.c:74-152 | over any run the code goes through exactly the states of the tables, with their replies; after the run the lists are well formed if and only if no operation has lost a list head, and only the last one may have |
| Volume.LoseHeads | service/inode.c:267-271 | creating a file and unlinking it leaves both heads on nodes that are in no list |
| LinkedList.List.Append | service/inode.c:627-638 | the list stays acyclic with prev undoing next, and reads as the old elements followed by the new one |
| LinkedList.List.Remove | service/inode.c:669-696 | exactly the first element that matches is removed, the list stays well formed, and failure means there was none |
| LinkedList.List.RemoveKeepingHead | service/inode.c:1035-1052 | the remaining nodes are linked as they should be, and the list is well formed exactly when the removed one was not the first |
| DataFile.AppendPlacesIff | service/inode.c:794-805 | appending a block places it exactly when the file ends where the block belongs |
| DataFile.TakePlacedIff | service/inode.c:777-812 | when c blocks have been appended and some released, a new block goes where it belongs exactly when none of the released ones was in use |
| DataFile.RunPlacedIff | service/inode.c:777-842 | over every run from the empty file a new block is placed exactly when no used block was released before |
| DataFile.StepMirrors | service/inode.c:777-842 | without a release, file and disk stay the same, block by block, under appends and in-place writes |
| DataFile.ReuseIsMisplaced | service/inode.c:794-805 | every block taken after a release of a used one lands elsewhere; its place still has the old bytes, so reading it back is right exactly if they are the same |
| Backing.CodeTable | service/inode.c:241-340 | which blocks each operation of the code takes and frees is what the model says, whatever bytes are in the file; used blocks are released exactly by unlinks that drop a file with blocks |
| Backing.PlacedIffNothingDropped | service/inode.c:777-812 | over every safe run of the service that loses no list head, with restarts, each new block is placed exactly when no unlink before has dropped a file that had blocks |
| Backing.CodeReadsRight | service/inode.c:383-413 | over such runs, until then every read of every file by the code, at any offset and length, returns what the model returns |
| Backing.CodeHoldsContent | service/inode.c:844-872 | over such runs, until then the data file holds the content of every file |
| FileRuns.ReuseReadsOldBytes | service/inode.c:794-805 | a concrete run that loses no list head (create a file that stays; create, open, write, close, unlink a second; create, open, write a third) after which the code reads the second file's byte from the third |
| Fragments.Fragment | lib/libfs.c:898-923 | the fragmentation loop produces the parts of the payload |
| Fragments.PartsTile | lib/libfs.c:898-923 | joined in order the parts are the payload; each fits a message, starts where the previous one ends, and exactly the first has offset 0 |
| RingBuffer.NextPart | service/req_buffer.c:83-106 | a further part, in whatever order, makes the request ready exactly when it is the last missing one, and then the data is the payload |
| RingBuffer.ReassemblyInverts | service/req_buffer.c:63-106 | for every payload, memory content and order of the parts after the first, reassembly inverts fragmentation and is ready exactly when all parts have arrived |
| RingBuffer.ReqBuffer.Create | service/req_buffer.c:3-21 | size zero is refused; otherwise the buffer is empty with all slots free |
| RingBuffer.ReqBuffer.Handle | service/req_buffer.c:38-116 | handle_msg in place is `HandleMsg`, for every branch and return code |
| RingBuffer.ReqBuffer.Get | service/req_buffer.c:118-137 | get_service_req in place is `GetReq` |
| RingBuffer.ReqBuffer.Finish | service/service.c:143-147 | the worker's reset of its slot is `FinishReq` |
| Delivery.StepKeeps | service/service.c:32-152 | for any merge of the requests' messages every receive, take and finish step keeps the transport invariant, or ends the service exactly when a further part finds the ring wrapped around or its request skipped |
| Delivery.TakeSkipsIff | service/service.c:88-91 | a take skips exactly when not all messages of the request whose turn it is are among those received so far, which the merge and the schedule decide |
| Delivery.FifoIff | service/service.c:74-98 | for any merge, the requests handed out are the first ones sent, one for each take, exactly if no take so far found a request in progress |
| Delivery.MergedDelivery | service/service.c:74-98 | for any merge of requests with distinct numbers, take j finds request j, whole or in progress; what is handed out is a prefix of what was sent exactly if nothing was handed out after a skip |
| Delivery.FifoExactlyOnce | service/service.c:32-152 | when the parts of each request arrive together, under any interleaving of the two threads, the requests handed out are the first ones sent, byte for byte, one for each take |
| Delivery.WorkerKeepsRequest | service/service.c:74-98 | from the take until the reset the worker's slot holds, byte for byte, the request it was handed |
| Delivery.StepsOfRun | service/service.c:74-98 | in a contiguous run no request is handed out in progress, and the service ends exactly at a wrapped scan |
| Delivery.Accounting | service/req_buffer.c:44-134 | in every state, for any merge: `empty + live == size`, `full` plus the skips counts the ready live slots, `wr == (rd + live) mod size`, and each live slot holds the next request with exactly the messages of it that have arrived |
| Delivery.ScanFindsIff | service/req_buffer.c:84-106 | the scan finds the slot of a live request exactly when the ring has not wrapped around |
| Delivery.AddOverwritesIff | service/req_buffer.c:44-82 | an add overwrites the slot that the worker holds exactly when all other slots are live |
| Delivery.UncleanAddEndsService | service/service.c:74-98 | from every state of a run in which the worker is busy and no other slot is left: the add overwrites its slot, the request added is never handed out in any continuation, and the take at its turn ends the service |
| TransportRuns.InterleavingLosesRequest | service/service.c:88-91 | a concrete run in a ring of 256 slots: a close request arrives between the two messages of a write, and the write is lost |
| TransportRuns.WrappedScanEndsService | service/req_buffer.c:84-109 | a concrete run with contiguous parts: after 255 short requests the second message of a write misses its request, and the service ends |
| TransportRuns.UncleanAddOverwrites | service/req_buffer.c:129-134 | a concrete run, clean up to its last event, in which 257 requests come faster than the worker finishes the first and the last overwrites its slot |
| Wire.UnpackAllInverts | service/operations.c:21-28 | reading arguments at a moving offset inverts laying them out, for every list of words, ints, longs, strings and sized blocks |
| Calls.CallRoundTrip | lib/libfs.c:884-896 | for each of the twelve calls, with any arguments that their types hold, the service performs exactly the operation called |
| Calls.ReadWriteArgs | service/operations.c:635-646 | of any request that a client marshalled for a write, the service reads back exactly the caller's identity, descriptor and bytes |
| Service.ServiceRefines | service/service.c:74-152 | for any merge and any interleaving, in every state of the service the operations performed are those of the requests handed out, in that order, and the file system is the one they lead to one after the other, with their replies |
| Service.CallsInOrder | service/service.c:74-152 | when the parts of each request arrive together, the operations performed are exactly the first ones called, in order, each answered under its own number |
| Service.ServiceInv | service/service.c:74-152 | the file system keeps its invariant through every such run without an unsafe unlink |
| EndToEnd.CollectResponse | lib/libfs.c:1024-1051 | the receiving loop of libfs_read ends after all parts and holds exactly the payload, for any order of the parts after the first |
| EndToEnd.RequestArrives | service/service.c:74-147 | when the worker dispatches, the slot of the ring it holds has exactly the bytes that one client marshalled, and they unmarshal to that client's call |
| EndToEnd.QuietRun | service/inode.c:450-475 | whatever other operations are performed in between, a write descriptor that none of them uses keeps its offset and its file's content |
| EndToEnd.StoredAndRead | service/inode.c:289-413 | in every safe run a write that fits, a later seek back and a later read all succeed and the bytes come back, with any other operations in between that do not use the descriptor |
| EndToEnd.WriteThenReadEndToEnd | service/service.c:32-152 | in every run of the whole service on contiguous requests, with other clients' calls in between: once a write that fits, a seek back and a read have been served, the read was answered under its own number with messages that join to the bytes written |
| EndToEnd.CodeReturnsBytes | service/inode.c:844-872 | and the code reads those bytes from the data file, in runs from the empty service that lose no list head, unless an unlink before has dropped a file that had blocks |
| EndToEnd.ClientReads | lib/libfs.c:1016-1051 | the client's loop turns those parts into the original bytes |
| Text.AtoiPrint | service/inode.c:27-66 | reading a printed integer back gives its value wrapped to 32 bits |
| Persist.InodesReload | service/inode.c:27-90 | loading a saved inode list gives the same inodes in the same order, with `long` fields cut to `int` |
| Persist.InodesRoundTripIff | service/inode.c:195-211 | and exactly the same ones when every mode and time fits an `int` |
| Persist.NamesRoundTripIff | service/inode.c:903-931 | loading saved filenames, commas allowed, restores them when none is empty and fails otherwise |
| Persist.BlocksRoundTrip | service/inode.c:721-742 | loading a saved block table restores it completely and reports a failure |
| Persist.RestartRestores | service/service.c:154-235 | stopping and starting restores all tables, and the invariant holds again with no descriptor open |
| Restart.StepModest | service/service.c:98-141 | what can be saved without loss stays so under every operation whose arguments can |
| Restart.RestartIs | service/service.c:154-235 | the state found after a restart is exactly the one before without its descriptors, and every file has its content |
| Restart.LongRunInv | service/service.c:154-235 | over every run with any number of restarts the invariant holds, every state can be saved, and a restart loses nothing but the descriptors |
| Restart.LongRunKeepsFile | service/service.c:154-235 | a file that no operation touches keeps its content over such runs |
| Persist.WriteInodes | service/inode.c:195-211 | the saving loop prints `SaveInodes` |
| Persist.ReadInodes | service/inode.c:27-90 | the loading loop reads `LoadInodes` |
| Persist.WriteNames | service/inode.c:957-967 | the saving loop prints `SaveNames` |
| Persist.ReadNames | service/inode.c:903-931 | the loading loop reads `LoadNames` |
| Persist.WriteBlockTable | service/inode.c:768-770 | the saving loop prints `SaveBlocks` |
| Persist.ReadBlockTable | service/inode.c:721-746 | the loading loop reads `LoadBlocks`, with its early failure |

## Left out

- Refinement.RunRefines: is about runs in which no unlink drops the last name of an open file, as `Invariant.UnlinkInv` makes precise; `Refinement.StepRefines` covers that unlink too, and `Runs.UnsafeUnlink` shows what follows.
- Delivery.FifoExactlyOnce: assumes that sequence numbers are distinct within one ring length and that no add takes the slot the worker still holds; `Delivery.AddOverwritesIff` and `Delivery.UncleanAddEndsService` show what happens otherwise.
- Service.ServiceRefines: takes the dispatch of a request to happen at the worker's reset of its slot; that the slot does not change in between is `Delivery.WorkerKeepsRequest`.
- Persist.RestartRestores: assumes non-empty names without newline of at most 255 characters and modes and times that fit an `int`; `Restart.StepModest` shows that operations with such arguments keep this.
- Leaks.LosesNothingIff: is about writes that fit and do not wrap around; `Leaks.StepLeaks` covers every operation.
- Files.WriteRefines: speaks of blocks stored at their slots; on runs that lose no list head the code has that exactly until an unlink drops a file with blocks, as `Backing.PlacedIffNothingDropped` states.
- Volume.Volume.OccupySlot: stores the block at its slot, where the code appends it to the data file; `DataFile` and `Backing` are about the difference.
- Invariant.UnlinkInv: speaks of the tables; the list heads that the code then forgets are `Volume.Volume.UnlinkName` and `Runs.KeepsHeads`.
- Runs.RunInv: like the other theorems over runs of the tables (`Runs.RunKeepsFile`, `Service.ServiceInv`, `EndToEnd.WriteThenReadEndToEnd`), holds of the code up to the first operation that loses a list head, as `Volume.Volume.PerformAll` states.
- Directory.UnlinkFrees: speaks of the tables, also when the unlink loses a list head.
- Directory.UnlinkKeepsOtherNames: speaks of the tables; a lookup by the code after a lost head reads freed memory and has no defined meaning.
- Calls.CallRoundTrip: a request too short for its arguments, which no client sends, makes the service of the model do nothing, where C would read on.
- System V queues, fork, signals, thread creation and shutdown, and syslog are not modelled; queues are sequences and semaphores are counters, and each critical section is one step.
- The mutex of the ring, which handle_msg leaves locked on its -3 path, is not modelled; that path ends the service.
- Path building, `getpwuid` and file handles are replaced by one data file and by text.
- C allocation failure, struct padding, stack overflow of variable-length arrays and counters beyond 2^32 are not modelled.
- Nanoseconds, which the loader derives from seconds, are not part of saved inodes.
- `atoi` is modelled as glibc implements it, without leading blanks or a plus sign, which the tables never contain; a missing token, which C would dereference, makes loading fail.
- Names of 256 characters or more are not modelled as overflowing their arrays.
- Replies are values; only the data of a read is laid out as response messages.
- The truncation of a descriptor to one byte in `libfs_open` (`lib/libfs.c:756`) is left out: descriptors are whole values.
- The agreement of the octal range tests with permission bits, and `get_seq`, would only add easy members.
- `free_block_table_slot` is unused and returns nothing; `remove_inode` is unused and has the shape of `Volume.Volume.RemoveDesc`.
- The block index 1000 that `update_block_table_slot` lets through never arises from a slot.
- The tests, demonstration programs and build files.
