# BlueberryOS: a model of its hard parts in Dafny

This project models the parts of BlueberryOS that compute something hard, and proves what they are for.
It is written in the source's own form: structures that the kernel and the C library change in place are classes here,
their loops are loops with invariants, and each method is proved against a specification that does not know how it works.

* **DEFLATE** (`BitStream`, `CanonicalCode`, `HuffmanTree`, `Rfc1951`, `InflateSpec`, `InflateTheorems`, `InflateErrors`, `Tinflate`).
  `Rfc1951` says what a compressed stream means, as an encoder and a meaning of blocks, tokens and run lengths. `Tinflate` holds
  the decoder with its bit reader and its tables. `Uncompress` succeeds on exactly the streams of RFC 1951 (with the two limits
  named below) whose content fits, writes exactly that content, and stops on every input; its two errors are told apart by the format, too.
* **CRC-32** (`Crc32`): the nibble table computes the bit-by-bit checksum, which tells apart any two messages that differ in at most four
  adjacent bytes.
* **Frames and address spaces** (`Frames`, `PageTables`, `SpaceChanges`, `AddressSpaces`, `MemoryMaps`, `Unmapping`).
  Physical memory is a sequence of frames of words, and page directories and tables lie in it. A flat page map is read out of it, and every
  frame has at most one use. Fork, writes, mmap, munmap and termination are proved to change that map as promised, and the allocator
  gets back what it has handed out.
* **The argument block** (`ProcessArgs`) that a new process finds on its stack.
* **Processes** (`ProcessTable`, `Orphans`, `Keyboard`, `Processes`, `Scheduling`): fork, waitpid, exit and key presses in every order, and the round-robin choice.
* **The heap** (`SplitChains`, `HeapAllocator` in `Heap.dfy`): regions stay tiled by linked blocks through every malloc and free.
* **Text and archive** (`Lines`, `Scrollback`, `Tty`, `Getline`, `Paths`, `FileTree`, `Tar`, `TarFormat`, `Initrd`): the scrolling screen, the line reader, and
  the tar file system with its path lookup.

`Valid()` is the invariant of each class; methods require and ensure it. A result `ok == false` stands for the places where the kernel stops for
good. Pointers to frames are physical page numbers, and pointers to table slots are indices.

Where the code does something else than one might expect, the model follows the code:

* Length symbol 284 with all extra bits set gives 258, as symbol 285 does, and a header with more than 286 literal or 30 distance
  lengths is refused (kernel/src/tinf/tinflate.c:299). The overflow test at the end of `tinf_uncompress` never fires, since each block has
  been tested by then.
* `mmapProcess` maps one page more than a length that is a multiple of the page size needs, and `munmapProcess` does not count that page;
  `munmapProcess` unmaps the first anonymous pages from the address on, even beyond the range that was asked for; `forkProcess` drops the mark of
  anonymous pages. See `Unmapping.MapAndUnmap` and `PagesAgree`, `StaysInRange` and `LeavesRange`, `ForkLosesMark`.
* `getVirtualChunks` never finds a run that reaches into a present table from the table before (`MemoryMaps.Fits`, `FitsWhen`, `PassedOver`).
* `kfree_frame`, `kfree_frames` and `memory_mark_allocated` count a frame also if its bit does not change, and do not look into the cache: the
  contracts of the three say exactly when this breaks the invariant (`Frames`).
* `memory_mark_allocated` tests for 1 KB alignment, although its message speaks of pages, and `kfree_frames` refuses runs that end at the last frame.
* `terminateProcess` stops children but not grandchildren. `Orphans` says who becomes an orphan, when an orphan becomes a zombie that nobody
  ever reaps, and when its exit wakes a process that is not its parent; with a run to each.
* Of a directory whose name in the header runs through the magic, `createSymbolicDirectory` cannot make the links, and `parseDirectory`
  goes on without them (`Initrd.NewDirectoryLinks`, `LinksInArchive`, `LongName`).
* `freeProcessPagedirectory` with `freeReadOnly` frees what other processes share, and what is mapped twice it frees twice.
  `AddressSpaces.Spaces.FreeSpace` says exactly when it does neither; `FreeShared` and `FreeTwice` are inputs.
* A read that finds some characters put by, but too few, waits for the rest, and then stores and counts these from the beginning of the buffer
  again (kernel/src/idt.c:266-293); `Keyboard.ReadGets` is about what is waited for.
* A parent that finds a zombie child at once is not told the child's id, unlike one that is woken up (`ProcessTable.ExitThenWait`, `WaitThenExit`).
* `forkProcess` looks for a free child entry and then uses another one; it is free all the same, and the error for a full child table never
  occurs (`ProcessTable.RoomForChild`).
* `getline` hands out a last line without a newline only if some of it is read in that very call. For which files this is so however the reads
  are cut, and with which reads it is not for all others, is said by `Getline.Kept`, `LosingPoint` and `ReadFile`.

`dafny verify dfyconfig.toml` checks the whole project.

## Model

| member | source | states |
|---|---|---|
| BitStream.ReadLsbSplit | kernel/src/tinf/tinflate.c:199-220 | reading a + b bits is reading a bits and then b bits above them |
| BitStream.OrDisjoint | kernel/src/tinf/tinflate.c:187-189 | or-ing a byte above the bits that are there adds it, so refilling never disturbs unread bits |
| BitStream.AndMask | kernel/src/tinf/tinflate.c:206-206 | the mask (1 << n) - 1 selects exactly the n lowest bits |
| CanonicalCode.PrefixFree | kernel/src/tinf/tinflate.c:229-263 | at no place of any input do the code words of two symbols both stand (section 3.2.2 of RFC 1951) |
| CanonicalCode.SomeCode | kernel/src/tinf/tinflate.c:247-258 | a complete code has a code word of at most 15 bits at every place of every input |
| CanonicalCode.SymbolAt | kernel/src/tinf/tinflate.c:229-263 | the symbol at a place of the input is one whose code word stands there |
| CanonicalCode.KraftIsFilled | kernel/src/tinf/tinflate.c:137-149 | the running count of free codes and the Kraft sum are the same measure |
| CanonicalCode.OverSubscribed | kernel/src/tinf/tinflate.c:141-144 | a level with more codes than are free makes the Kraft sum exceed one |
| CanonicalCode.CompletedIsComplete | kernel/src/tinf/tinflate.c:167-174 | every accepted non-empty set of lengths, with the dummy symbol if there is only one code, has Kraft sum one |
| CanonicalCode.CompletedCodes | kernel/src/tinf/tinflate.c:167-174 | the dummy symbol leaves the code words of all other symbols as they were |
| CanonicalCode.AcceptableIff | kernel/src/tinf/tinflate.c:137-174 | the lengths that can be used are those with a Kraft sum of one, those without any code, and those with a single code, of one bit |
| HuffmanTree.TinfTree.Build | kernel/src/tinf/tinflate.c:113-177 | accepts exactly complete codes, single codes of length one and empty codes; the tables then hold that code |
| HuffmanTree.TinfTree.CountLengths | kernel/src/tinf/tinflate.c:121-135 | the counts are the numbers of codes of each length, max_sym is the last symbol that has a code |
| HuffmanTree.TinfTree.Offsets | kernel/src/tinf/tinflate.c:137-158 | fails exactly on sets of lengths that are neither complete nor empty nor a single code |
| HuffmanTree.TinfTree.Distribute | kernel/src/tinf/tinflate.c:160-165 | the symbols are sorted by length and then by symbol |
| HuffmanTree.TinfTree.CompleteTable | kernel/src/tinf/tinflate.c:167-174 | the tables hold the completed code |
| HuffmanTree.TinfTree.BuildFixedLit | kernel/src/tinf/tinflate.c:74-96 | the tables hold the literal code of section 3.2.6 of RFC 1951 |
| HuffmanTree.TinfTree.BuildFixedDist | kernel/src/tinf/tinflate.c:98-109 | the tables hold the distance code of section 3.2.6 of RFC 1951 |
| HuffmanTree.FixedCodeWords | kernel/src/tinf/tinflate.c:74-96 | the code words, and their lengths, are the four ranges that section 3.2.6 of RFC 1951 lists |
| HuffmanTree.FixedDistWords | kernel/src/tinf/tinflate.c:98-109 | the distance code words are the numbers themselves in five bits |
| HuffmanTree.FixedLitComplete | kernel/src/tinf/tinflate.c:74-96 | the fixed literal code is complete |
| HuffmanTree.FixedDistComplete | kernel/src/tinf/tinflate.c:98-109 | the fixed distance code is complete |
| Rfc1951.CopyMatchPeriodic | kernel/src/tinf/tinflate.c:475-478 | every byte of a match equals the byte dist places before it, also where the match overlaps itself |
| Rfc1951.AtCode | kernel/src/tinf/tinflate.c:229-263 | the bits of a symbol's code word stand in the input exactly where the decoder finds that code word |
| InflateTheorems.DecodesSymbol | kernel/src/tinf/tinflate.c:229-263 | a symbol is decoded at a place if and only if its code word is there |
| InflateTheorems.StepSound | kernel/src/tinf/tinflate.c:422-482 | what one step accepts is the encoding of a token with the meaning that the output shows |
| InflateTheorems.StepComplete | kernel/src/tinf/tinflate.c:422-482 | every valid encoded token is accepted with its meaning |
| InflateTheorems.BlockDataSound | kernel/src/tinf/tinflate.c:393-483 | accepted block data are the encoding of tokens that expand to the output |
| InflateTheorems.BlockDataComplete | kernel/src/tinf/tinflate.c:393-483 | all encoded tokens are accepted, or reported as too long for the buffer |
| InflateTheorems.LengthsSound | kernel/src/tinf/tinflate.c:327-367 | decoded lengths are the expansion of run lengths that stand in the input, also across the literal and distance parts |
| InflateTheorems.LengthsComplete | kernel/src/tinf/tinflate.c:327-367 | every encoded sequence of run lengths that expands to hlit + hdist lengths is decoded to them |
| InflateSpec.ClcTable | kernel/src/tinf/tinflate.c:272-275 | the decoder's table is the order of section 3.2.7 of RFC 1951: 16, 17, 18, 0, and then 8 to 15 in turn with 7 to 1 |
| InflateTheorems.ClcIff | kernel/src/tinf/tinflate.c:307-313 | the lengths of the code length code are read in the order of section 3.2.7 of RFC 1951 |
| InflateTheorems.DynamicSound | kernel/src/tinf/tinflate.c:266-388 | an accepted header is the encoding of valid code lengths |
| InflateTheorems.DynamicComplete | kernel/src/tinf/tinflate.c:266-388 | every valid encoded header is accepted with its code lengths |
| InflateTheorems.StoredSound | kernel/src/tinf/tinflate.c:486-525 | an accepted stored block is padding to the byte boundary, length, complement and the data |
| InflateTheorems.StoredComplete | kernel/src/tinf/tinflate.c:486-525 | every encoded stored block is accepted with its data |
| InflateTheorems.BodySound | kernel/src/tinf/tinflate.c:587-604 | what is accepted after a block's header is a block of the kind that the header names |
| InflateTheorems.BodyComplete | kernel/src/tinf/tinflate.c:587-604 | every encoded block is accepted with its meaning |
| InflateTheorems.StreamSound | kernel/src/tinf/tinflate.c:577-609 | accepted input is a sequence of blocks that stand for the output |
| InflateTheorems.StreamComplete | kernel/src/tinf/tinflate.c:577-609 | every sequence of blocks is accepted with its content, or reported as too long |
| InflateTheorems.InflateInvertsDeflate | kernel/src/tinf/tinflate.c:560-619 | decoding succeeds if and only if the input is a DEFLATE stream whose content fits, and gives that content |
| InflateTheorems.ContentUnique | kernel/src/tinf/tinflate.c:560-619 | a stream has one content at most |
| InflateErrors.BlockDataTooLong | kernel/src/tinf/tinflate.c:433-472 | a full buffer is reported only for tokens that stand for more than fits; the last one may run over the end of the source, where zeros are read |
| InflateErrors.BlockDataExceeds | kernel/src/tinf/tinflate.c:433-472 | and for all such tokens |
| InflateErrors.BodyTooLong | kernel/src/tinf/tinflate.c:587-604 | the same for the beginning of a block of any kind |
| InflateErrors.BodyExceeds | kernel/src/tinf/tinflate.c:587-604 | and its converse |
| InflateErrors.InflateAnswers | kernel/src/tinf/tinflate.c:577-619 | a full buffer is reported if and only if the source begins with blocks, the last one perhaps cut off, that stand for more than fits; bad data if and only if it does not, and is no stream either |
| Tinflate.LengthTables | kernel/src/tinf/tinflate.c:397-407 | extra bits and bases of the length symbols are those of section 3.2.5 of RFC 1951 |
| Tinflate.DistTables | kernel/src/tinf/tinflate.c:410-420 | extra bits and bases of the distance symbols are those of section 3.2.5 of RFC 1951 |
| Tinflate.Complement16 | kernel/src/tinf/tinflate.c:501-501 | the masked complement is the 16-bit one's complement |
| Tinflate.TinfData.Refill | kernel/src/tinf/tinflate.c:181-197 | the reader's position does not move, and enough bits are available |
| Tinflate.TinfData.GetBitsNoRefill | kernel/src/tinf/tinflate.c:199-213 | the next bits of the stream are returned and left behind |
| Tinflate.TinfData.GetBits | kernel/src/tinf/tinflate.c:216-220 | the next bits of the zero-extended source are returned, and overflow is set exactly when the position is behind its end |
| Tinflate.TinfData.GetBitsBase | kernel/src/tinf/tinflate.c:223-226 | base plus the next bits |
| Tinflate.TinfData.DecodeSymbol | kernel/src/tinf/tinflate.c:229-263 | the symbol whose code word stands at the position, within 15 bits and inside the symbol table |
| Tinflate.TinfData.ReadClcLengths | kernel/src/tinf/tinflate.c:303-313 | the code length code's lengths, zero where none is stored |
| Tinflate.TinfData.NextRun | kernel/src/tinf/tinflate.c:328-362 | one run length code with its repeat count, refused where it would exceed the array |
| Tinflate.TinfData.DecodeLengthsLoop | kernel/src/tinf/tinflate.c:327-367 | exactly hlit + hdist lengths of at most 15, as specified, and no store outside them |
| Tinflate.TinfData.DecodeTrees | kernel/src/tinf/tinflate.c:266-388 | fails exactly on invalid headers, and otherwise both tables hold the codes that the header describes |
| Tinflate.TinfData.InflateMatch | kernel/src/tinf/tinflate.c:445-480 | a match is copied from the output as specified, or refused without a write |
| Tinflate.TinfData.CopyBytes | kernel/src/tinf/tinflate.c:475-480 | the output grows by the self-overlapping copy |
| Tinflate.TinfData.InflateBlockData | kernel/src/tinf/tinflate.c:393-483 | result, output and position are those of the symbol-level decoder; ends because unread bits decrease |
| Tinflate.TinfData.InflateUncompressedBlock | kernel/src/tinf/tinflate.c:486-525 | copies the data at the next byte boundary if length and complement agree and there is room |
| Tinflate.TinfData.InflateFixedBlock | kernel/src/tinf/tinflate.c:528-535 | decodes with the fixed codes |
| Tinflate.TinfData.InflateDynamicBlock | kernel/src/tinf/tinflate.c:538-549 | decodes with the codes that the block describes |
| Tinflate.TinfData.InflateStream | kernel/src/tinf/tinflate.c:577-614 | the loop over blocks refines the stream decoder, and ends on every input |
| Tinflate.Uncompress | kernel/src/tinf/tinflate.c:560-619 | succeeds if and only if the source is a DEFLATE stream whose content fits, and then stores exactly the content and its length; TINF_BUF_ERROR if and only if the source begins with more content than fits, whether or not it is a stream; TINF_DATA_ERROR otherwise |
| Crc32.TinfCrc32 | kernel/src/tinf/crc32.c:40-57 | equals the bit-by-bit reflected CRC-32 of section 8 of RFC 1952 for every input, also the empty one |
| Crc32.NibbleIsFourSteps | kernel/src/tinf/crc32.c:50-54 | one table step is four steps of the bitwise register |
| Crc32.TableIsFourSteps | kernel/src/tinf/crc32.c:33-38 | each table entry is what four bit steps make of its index |
| Crc32.DetectsBursts | kernel/src/tinf/crc32.c:40-57 | messages that differ only within four adjacent bytes have different checksums |
| Crc32.BitStepsInjective | kernel/src/tinf/crc32.c:50-54 | the register never loses information |
| Frames.FrameAllocator.MemoryInitialize | kernel/src/memory.c:57-82 | nothing is handed out, and the cache is full, or holds all frames there are |
| Frames.FrameAllocator.KallocCache | kernel/src/memory.c:249-290 | the cache gets the lowest free frames, each marked once, until it is full or no frame is left; fails exactly if there is none |
| Frames.FrameAllocator.KallocFrame | kernel/src/memory.c:106-130 | a frame that is not handed out; stops only if all frames are |
| Frames.FrameAllocator.KallocFrames | kernel/src/memory.c:132-193 | the lowest run of free frames that ends before the last one, exactly if there is one; the run is handed out; stops on a count of 0 |
| Frames.FrameAllocator.FindRun | kernel/src/memory.c:145-169 | the search finds the lowest such run, exactly if there is one |
| Frames.FrameAllocator.KfreeFrame | kernel/src/memory.c:195-217 | exactly this frame is free again, or nothing changes if it is outside the map; the invariant is kept if and only if the frame was handed out, and not just waiting in the cache |
| Frames.FrameAllocator.KfreeFrames | kernel/src/memory.c:219-247 | exactly this run is free again, or nothing changes if it reaches the last frame; the invariant is kept if and only if all of it was handed out |
| Frames.FrameAllocator.MemoryMarkAllocated | kernel/src/memory.c:84-104 | exactly the frames of the range are marked; stops on bad ends; the invariant is kept if and only if none of them was handed out or in the cache |
| Frames.FrameAllocator.SetBits | kernel/src/memory.c:106-130 | the set bits are the outstanding and the cached frames, and their number is framesUsed plus what is left in the cache |
| Frames.MapUpdates | kernel/src/memory.c:172-172 | setting or clearing a bit changes the bit of that frame and no other |
| PageTables.EntryParts | kernel/src/paging.c:165-172 | frame and flags can be read back from an entry |
| PageTables.Flags | kernel/src/paging.c:165-166 | present, writable and the user's are the bits 1, 2 and 4 of an entry |
| PageTables.MapUnaffected | kernel/src/paging.c:139-176 | a page map depends on its own directory and tables only |
| PageTables.FreshFrame | kernel/src/memory.c:106-130 | a frame just handed out has no use and is mapped nowhere |
| PageTables.LinkTable | kernel/src/paging.c:156-175 | a cleared frame linked as a table changes no page map |
| PageTables.SetPage | kernel/src/paging.c:171-172 | storing an entry changes exactly that page of that process, and keeps every frame to one use |
| PageTables.NewSpace | kernel/src/paging.c:53-74 | a copy of the kernel's directory maps no user page |
| PageTables.RemoveSpace | kernel/src/usermode.c:71-112 | giving back what one process alone uses leaves all other processes intact |
| SpaceChanges.AddressEntry | kernel/src/paging.c:141-172 | the entry that is put together from the table index and page index of an address is its frame with the flags |
| SpaceChanges.MapInNewTable | kernel/src/paging.c:252-287 | mapping in a table made for it changes that page only |
| SpaceChanges.MapInOldTable | kernel/src/paging.c:252-287 | mapping in a present table changes that page only, whether or not the table's flags are rewritten |
| SpaceChanges.WriteIsolated | kernel/src/usermode.c:625-665 | a store to a writable page is seen at that place of that process and nowhere else |
| SpaceChanges.TerminateRestores | kernel/src/usermode.c:507-548 | freeing what the child owns gives back exactly what fork and the child have taken |
| SpaceChanges.ChildReaches | kernel/src/usermode.c:625-665 | the processor, which looks at directory and table, lets the child read every page that the parent has, and write those that are writable, and no others |
| SpaceChanges.FreeingSharedPages | kernel/src/usermode.c:96-102 | what is given back leaves all other processes intact if and only if read-only pages stay, or no other process maps such a frame of the allocator |
| SpaceChanges.PageFreed | kernel/src/usermode.c:85-103 | a frame is given back for the second time if and only if it is mapped read-only at an earlier page too |
| AddressSpaces.Spaces.AllocFrame | kernel/src/memory.c:106-130 | the new frame has no use in any process |
| AddressSpaces.Spaces.FreeFrame | kernel/src/memory.c:195-217 | the frame is the allocator's again, and miscounted exactly if it was so already; frames outside the map change nothing |
| AddressSpaces.Spaces.FreeTaken | kernel/src/memory.c:195-217 | a frame that is handed out is the allocator's again |
| AddressSpaces.Spaces.MapPageWtable | kernel/src/paging.c:139-176 | exactly the page of the virtual address gets the entry, in a table that is there or new, and the directory's entry for that table gets the table flags in both cases |
| AddressSpaces.Spaces.MapPage | kernel/src/paging.c:213-250 | the same with one set of flags, but the directory's entry for a table that is there is kept |
| AddressSpaces.Spaces.MapPageWflags | kernel/src/paging.c:252-287 | the same with the flag word given, for the page and for a new table; the directory's entry for a table that is there is kept |
| AddressSpaces.Spaces.CopySystemDirectory | kernel/src/paging.c:53-74 | a new address space without user pages, and no other changed |
| AddressSpaces.Spaces.ForkPage | kernel/src/usermode.c:636-663 | a present page is copied to a new frame if writable and shared if not; its table is the user's, and writable |
| AddressSpaces.Spaces.ForkSpace | kernel/src/usermode.c:625-665 | every page of the child has the parent's content, writable ones in frames of their own, and the child can read them all and write the writable ones; its directory has the kernel's part; nothing changes for any other process; the child owns exactly what was allocated |
| AddressSpaces.Spaces.WriteUser | kernel/src/usermode.c:625-665 | a write by one process changes what that process reads there, and nothing that any process reads elsewhere |
| AddressSpaces.Spaces.FreeSpace | kernel/src/usermode.c:71-112 | writable pages, tables and directory go back, read-only frames on demand; everything is in order afterwards if and only if read-only pages stay, or each of their frames in the allocator belongs to one page of one process; the allocator's part and the processes' part of this separately |
| AddressSpaces.Spaces.FreeShared | kernel/src/usermode.c:542-547 | an input: after a fork, freeing the parent's read-only pages leaves the child with a page in a frame that can be handed out again |
| AddressSpaces.Spaces.FreeTwice | kernel/src/usermode.c:96-102 | an input: a frame mapped read-only at two pages is freed twice, and the allocator then counts too few |
| AddressSpaces.Spaces.ForkAndTerminate | kernel/src/usermode.c:507-548 | fork, a write by the child and its termination leave allocator, owners and everyone's memory as they were |
| MemoryMaps.ScanTable | kernel/src/usermode.c:1184-1196 | the inner loop keeps the last run of absent pages exact |
| MemoryMaps.GetVirtualChunks | kernel/src/usermode.c:1157-1198 | the lowest fitting run of absent pages, if there is one; with a hint, the hint's table exactly if all tables needed are absent |
| MemoryMaps.FitsWhen | kernel/src/usermode.c:1160-1172 | a run of absent pages can be found if and only if no table that begins inside it is present |
| MemoryMaps.PassedOver | kernel/src/usermode.c:1160-1172 | an input: in a consistent state, a run of absent pages that is passed over, because it reaches into a present table |
| MemoryMaps.MapChunks | kernel/src/usermode.c:1235-1239 | exactly the pages of the range get new frames, writable, the user's and marked |
| MemoryMaps.ChooseAddress | kernel/src/usermode.c:1213-1225 | the hint's tables if they are free, otherwise the lowest fitting run from MMAP_START_ADDRESS |
| MemoryMaps.FlagTests | kernel/src/usermode.c:1202-1206 | the tests of single bits, as the source writes them |
| MemoryMaps.MmapProcess | kernel/src/usermode.c:1200-1242 | refuses unsupported arguments, and otherwise maps exactly the chosen pages, which were absent; tables that were there are linked as before; the process can read and write every new page in a new table, and in one that was there as far as its directory entry allows; every other page and its content stays |
| MemoryMaps.GrownStep | kernel/src/usermode.c:1235-1239 | one more page in a frame of its own changes nothing for any process but that page |
| MemoryMaps.NewPageReached | kernel/src/usermode.c:1235-1239 | what the processor lets the process do with a new page |
| Unmapping.ReleasePage | kernel/src/usermode.c:1274-1280 | clearing the entry and freeing the frame keeps every frame to one use |
| Unmapping.UnmapEntry | kernel/src/usermode.c:1269-1284 | present anonymous pages are unmapped and counted, others passed over |
| Unmapping.MunmapProcess | kernel/src/usermode.c:1244-1287 | refuses a bad range; otherwise exactly the first anonymous pages from the address on are unmapped and their frames freed, as many as the length has pages |
| Unmapping.StaysInRange | kernel/src/usermode.c:1252-1284 | munmap stays inside the range that was asked for if and only if all its pages are anonymous or no page behind it is |
| Unmapping.LeavesRange | kernel/src/usermode.c:1252-1284 | an input: two pages are mapped, the first is unmapped, and unmapping the first once more unmaps the second |
| Unmapping.ForkLosesMark | kernel/src/usermode.c:636-663 | no page of a forked child is anonymous, so munmap finds none of them |
| Unmapping.MapAndUnmap | kernel/src/usermode.c:1200-1287 | mmap and munmap of the same length restore page maps, contents and frames, apart from new page tables, except for one page if the length is a page multiple |
| Unmapping.RoundTrip | kernel/src/usermode.c:1200-1287 | the same on states: a page is as before if and only if munmap does not leave it, and a frame is taken that was not if and only if it holds a new page table or a page that munmap leaves |
| Unmapping.PagesAgree | kernel/src/usermode.c:1209-1252 | both system calls count the same pages if and only if the length is not a page multiple |
| Unmapping.WholeLife | kernel/src/usermode.c:507-548 | however many maps, unmaps and writes a child has made, its termination gives back exactly what was taken since before the fork |
| Unmapping.MapsAreOwnAffair | kernel/src/usermode.c:1200-1287 | mmap, munmap and writes change at most the frames of the process itself |
| ProcessArgs.ProcessStack.ProcessPush | kernel/src/usermode.c:1933-1941 | the word lies right below the old stack pointer, and nothing above changes |
| ProcessArgs.ProcessStack.ProcessPushStr | kernel/src/usermode.c:1943-1963 | a terminated copy ends at the old stack pointer, the new one is aligned; stops exactly on strings that are too long |
| ProcessArgs.ProcessStack.PushStrings | kernel/src/usermode.c:345-351 | every pointer leads to a copy, and later copies leave earlier ones alone |
| ProcessArgs.ProcessStack.PushPointers | kernel/src/usermode.c:356-363 | the vector holds the pointers in order, ends in a null pointer, and leaves the copies alone |
| ProcessArgs.ProcessStack.SetProcessArgs | kernel/src/usermode.c:329-372 | at the stack pointer the process reads argc, the vector's address, argc pointers to copies of its arguments and a null pointer; stops exactly on lists that are not accepted |
| ProcessArgs.BlockDone | kernel/src/usermode.c:365-371 | the last two pushes complete the argument block |
| ProcessTable.TerminationKeeps | kernel/src/usermode.c:507-548 | terminating a live process stops it and its children and keeps the invariant; exactly their address spaces go |
| ProcessTable.ExitKeeps | kernel/src/usermode.c:1827-1858 | exit keeps the invariant: no zombie is left under a waiting parent |
| ProcessTable.WaitKeeps | kernel/src/usermode.c:1808-1825 | waitpid keeps the invariant: who blocks has no zombie child |
| ProcessTable.ForkKeeps | kernel/src/usermode.c:590-692 | fork keeps the invariant: child entry and parent pointer lead to each other |
| ProcessTable.ForkAnswers | kernel/src/usermode.c:590-696 | the child is in the lowest free slot, runs, and knows its parent, which lists it; the parent is told its id, the child 0; nobody else changes |
| ProcessTable.RoomForChild | kernel/src/usermode.c:572-588 | a live process always has a free child entry |
| ProcessTable.TypingKeeps | kernel/src/usermode.c:1860-1909 | key presses keep the invariant |
| ProcessTable.RunKeeps | kernel/src/usermode.c:1808-1909 | the invariant holds after every sequence of forks, exits, waits, reads and key presses |
| ProcessTable.EveryRun | kernel/src/usermode.c:1808-1858 | in every run from the first process on: no waiting process has a zombie child, child entries are right and acyclic, and there is exactly one address space per live process |
| ProcessTable.WaitThenExit | kernel/src/usermode.c:1837-1849 | a child's exit wakes its waiting parent with the child's id, and the child is gone and forgotten |
| ProcessTable.ExitThenWait | kernel/src/usermode.c:1808-1820 | a parent that waits after the exit finds the zombie, goes on running, and the child is gone and forgotten; but the parent is not told its id |
| Orphans.TerminationOrphans | kernel/src/usermode.c:507-548 | a termination makes an orphan of a process if and only if it is a grandchild: a child of a listed child |
| Orphans.OrphanExits | kernel/src/usermode.c:1836-1857 | an orphan that exits becomes a zombie that nobody lists, if and only if the slot of its former parent does not read as waiting |
| Orphans.LostStays | kernel/src/usermode.c:1808-1858 | no system call and no key press reaps a zombie that nobody lists |
| Orphans.LostForever | kernel/src/usermode.c:1808-1909 | in every run such a zombie keeps its slot and its address space |
| Orphans.LostRun | kernel/src/usermode.c:507-548 | two forks, one below the other, and two exits lead from the first process to such a zombie |
| Orphans.WokenByStranger | kernel/src/usermode.c:1836-1849 | an exit wakes a waiting process whose child it is not, if and only if the one that exits is an orphan whose stale parent pointer leads to that process, which gets its id |
| Orphans.StrangerRun | kernel/src/usermode.c:1836-1849 | a run of eight events after which the exit of process 3 wakes process 2, whose child it is not |
| Keyboard.KeyGoesTo | kernel/src/usermode.c:1872-1892 | a key press goes to everyone who waits for keys, who runs again if it was the last one asked for; nobody else changes |
| Keyboard.OthersLeave | kernel/src/usermode.c:1808-1858 | what other processes do leaves a process waiting for keys as it was, unless it stops it |
| Keyboard.KeysArrive | kernel/src/usermode.c:1872-1892 | in every run, whatever else happens: with fewer keys than are asked for the process waits for the rest, with the last one it runs; its buffer holds exactly the keys, and it is told their number |
| Keyboard.ReadGets | kernel/src/idt.c:287-300 | from a read of n characters on: the first n keys are what is read |
| Processes.ProcessControl.constructor | kernel/src/usermode.c:222-320 | one live process in slot 0, with an address space |
| Processes.ProcessControl.TerminateProcess | kernel/src/usermode.c:507-548 | the table changes as specified, and each address space is freed once |
| Processes.ProcessControl.HandleWaitpid | kernel/src/usermode.c:1808-1825 | the first zombie child is reaped, or the process blocks |
| Processes.ProcessControl.HandleWaitpidBlock | kernel/src/usermode.c:1827-1858 | the process is terminated if nobody or a waiting parent is there, and otherwise a zombie |
| Processes.ProcessControl.ForkProcess | kernel/src/usermode.c:568-697 | the first free slot becomes the child; stops exactly if there is none |
| Processes.ProcessControl.HandleKeyboardBlock | kernel/src/usermode.c:1860-1909 | every process that waits for keys gets the character behind those it has, and runs again when it has got all |
| Processes.ProcessControl.FindNextProcess | kernel/src/usermode.c:174-216 | the nearest runnable process after the current one, the current one if there is no other; stops exactly if there is none at all |
| Processes.ProcessControl.SwitchProcess | kernel/src/usermode.c:699-709 | the current process becomes that one |
| Scheduling.NextUnique | kernel/src/usermode.c:174-216 | there is one such choice |
| Scheduling.Closer | kernel/src/usermode.c:182-197 | a runnable process that is not chosen has come closer |
| Scheduling.NoStarvation | kernel/src/usermode.c:699-709 | a process that stays runnable is chosen within PROCESSES_MAX switches, whatever the others do, if nothing behind the table is taken for a process |
| SplitChains.LargerIndex | libc/stdlib/malloc.c:85-106 | no block that is large enough lies in a lower class than the size |
| SplitChains.ClassBounds | libc/stdlib/malloc.c:32-44 | class 0 is for up to 511 bytes, class i for 2^(i + 8) bytes up to twice as many |
| SplitChains.FreeInClass | libc/stdlib/malloc.c:192-195 | a free block is in the class of the bytes that it has for a caller |
| SplitChains.BlocksApart | libc/stdlib/malloc.c:187-224 | two blocks never overlap, and what a caller has got lies inside its block |
| SplitChains.SizesAddUp | libc/stdlib/malloc.c:190-203 | the blocks of a region add up to the region |
| SplitChains.SplitTiles | libc/stdlib/malloc.c:197-213 | splitting keeps the region tiled and the links inverse |
| SplitChains.SplitOrderly | libc/stdlib/malloc.c:193-224 | splitting keeps free blocks in their class and apart |
| SplitChains.MergeTiles | libc/stdlib/free.c:97-171 | merging keeps the region tiled and the links inverse |
| SplitChains.MergeOrderly | libc/stdlib/free.c:97-171 | merging keeps all other blocks in order |
| HeapAllocator.GetIndex | libc/stdlib/malloc.c:32-44 | the loop computes the class: 0 up to 256, and otherwise i if the number has its highest bit at i + 8 |
| HeapAllocator.HeapState.Malloc | libc/stdlib/malloc.c:66-248 | the block that is returned is of the size asked for and was not in use; what is more than the minimum beyond it is a free block right behind it, in its class, so that no block is more than 320 bytes larger than asked for; every other caller's block is untouched; the heap stays tiled |
| HeapAllocator.HeapState.NewRegion | libc/stdlib/malloc.c:123-141 | a region that is large enough, rounded up to whole pages, and at least four |
| HeapAllocator.HeapState.SplitBlock | libc/stdlib/malloc.c:189-224 | the rest is cut off exactly if it is more than the minimum: then the block has its size and the rest is free right behind it, in its class; and the heap stays tiled |
| HeapAllocator.HeapState.Free | libc/stdlib/free.c:61-252 | the block is free, everyone else's is untouched, no two free blocks are neighbours; the region is given back if and only if this is asked for and nothing else in it is in use, and then with exactly its pages |
| HeapAllocator.HeapState.MergeLeft | libc/stdlib/free.c:97-134 | no free block is left before the block |
| HeapAllocator.HeapState.MergeRight | libc/stdlib/free.c:136-171 | no free block is left behind the block |
| HeapAllocator.MergeOne | libc/stdlib/free.c:97-171 | one round of either loop keeps everyone else's block |
| HeapAllocator.SoleIff | libc/stdlib/free.c:176-206 | after merging the block is the whole region if and only if nothing else in the region was in use |
| Scrollback.RowsPut | kernel/src/tty.c:524-534 | on rows without an end, a printed character fills the next cell, and a full row is followed by an empty one |
| Scrollback.RowsNewline | kernel/src/tty.c:414-420 | a newline adds an empty row |
| Scrollback.CellBits | kernel/src/tty.c:42-48 | the low byte of a cell is the character, the next four bits the foreground, the top four the background |
| Tty.Terminal.constructor | kernel/src/tty.c:125-140 | a cleared screen shows the empty text |
| Tty.Terminal.Clear | kernel/src/tty.c:50-59 | every cell is a blank in the default colours, 0x0720 |
| Tty.Terminal.ScrollDown | kernel/src/tty.c:153-168 | every row moves up by one, and the last one becomes blank |
| Tty.Terminal.NextRow | kernel/src/tty.c:526-534 | the cursor is at the start of the next row, and the screen has scrolled exactly if there was none |
| Tty.Terminal.Newline | kernel/src/tty.c:414-425 | the screen goes on showing the text, with a newline |
| Tty.Terminal.Print | kernel/src/tty.c:523-539 | the screen goes on showing the text, with the character |
| Tty.Terminal.WriteChar | kernel/src/tty.c:407-540 | the screen goes on showing the last rows of the text laid out without an end, with the cursor where the text ends |
| Tty.Terminal.Write | kernel/src/tty.c:542-548 | the same for a whole text |
| Tty.Terminal.CursorLeft | kernel/src/tty.c:222-241 | the cursor moves back by that many cells, at most to the first |
| Tty.Terminal.CursorRight | kernel/src/tty.c:242-261 | the cursor moves on by that many cells, at most to the last |
| Tty.PutCells | kernel/src/tty.c:524-534 | a printed character changes one cell of all rows |
| Lines.JoinedLines | libc/stdio/getline.c:76-91 | the lines of a text, each with a newline, are the text if and only if it ends in a newline |
| Lines.LinesOfJoined | libc/stdio/getline.c:76-91 | joining lines loses nothing |
| Getline.LineReader.Read | libc/stdio/getline.c:56-56 | some next bytes of the file are stored behind what is there |
| Getline.LineReader.Fill | libc/stdio/getline.c:22-45 | there is something in the buffer, or the file has ended; at most one read |
| Getline.LineReader.Grow | libc/stdio/getline.c:51-54 | there is room for 512 bytes, and nothing is lost |
| Getline.LineReader.ReadMore | libc/stdio/getline.c:51-63 | more of the file is buffered, terminated inside the buffer |
| Getline.LineReader.FindNewline | libc/stdio/getline.c:48-48 | the first newline that is buffered, if there is one |
| Getline.LineReader.FindLine | libc/stdio/getline.c:47-70 | the loop ends with a newline in the buffer or at the end of the file |
| Getline.LineReader.Shift | libc/stdio/getline.c:90-91 | exactly the line and its newline are taken from the buffer |
| Getline.LineReader.GetLine | libc/stdio/getline.c:12-94 | the first pending line is returned and removed; exactly when -1 is returned, also for a last line without a newline |
| Getline.LineReader.HandOut | libc/stdio/getline.c:47-94 | the line is returned and taken from the buffer, or -1 exactly if the file has ended and nothing was read |
| Getline.LineReader.ReadAll | libc/stdio/getline.c:12-94 | repeated calls return exactly the lines of every file that Kept describes, those that end in a newline included, however the reads are cut; of every other file the last line is left behind under the pattern of LosingPoint |
| Getline.ReadFile | libc/stdio/getline.c:12-94 | a file that is read line by line gives all its lines, or all but the last; all of them for every pattern of reads if Kept describes it, and all but the last for the pattern of LosingPoint if it does not |
| Getline.ShortFile | libc/stdio/getline.c:56-74 | every file of less than 512 bytes with a newline, but not at its end, is one of these, such as a, newline, b |
| Paths.SplitJoin | kernel/src/file.c:532-606 | components joined with slashes are found again |
| Paths.JoinSplit | kernel/src/file.c:532-606 | a path is its components joined with slashes |
| FileTree.ChildDirIs | kernel/src/file.c:497-530 | looking up a name in a directory finds the directory stored under it, past the two links, if and only if there is one |
| FileTree.ChildFileIs | kernel/src/file.c:470-495 | looking up a name finds a file with the bytes stored under it, if and only if there is one |
| FileTree.WalkIs | kernel/src/file.c:532-606 | walking down a stored path arrives at its directory, and fails if it is not stored |
| FileTree.WalkFromRoot | kernel/src/file.c:563-566 | the same from initrd on when loading, and from the first slash on when looking up |
| FileTree.AddFileKeeps | kernel/src/file.c:885-900 | a file that is added is found under its path, and everything else as before |
| FileTree.AddDirectoryKeeps | kernel/src/file.c:629-663 | a directory that is added is found under its path, is empty, and everything else as before |
| Tar.OctOfDigits | kernel/src/file.c:1168-1178 | octal digits are read back as the number |
| Tar.OctStep | kernel/src/file.c:1168-1178 | a digit is three bits |
| Tar.PaddingFills | kernel/src/file.c:1012-1012 | content and padding fill whole records |
| Tar.CStringIs | kernel/src/file.c:614-614 | a terminated name in a header is read as that name |
| Tar.HeaderNames | kernel/src/file.c:609-624 | names in headers, such as initrd/a/b |
| TarFormat.HeaderParts | kernel/include/kernel/file.h:128-147 | where name, mode, size, type and magic begin in a header that is its fields one after the other |
| TarFormat.WrittenIsRead | kernel/src/file.c:977-1012 | a record as tar writes it, whatever the fields that are not used hold, is taken for that entry, and the next one begins behind it |
| TarFormat.ArchiveIsRead | kernel/src/file.c:971-1017 | an archive as tar writes it is taken for its entries |
| Initrd.FileSystem.GetDirectoryFromParent | kernel/src/file.c:497-530 | the first entry of that name, followed if it is a link, and a slash at the end of the name ignored |
| Initrd.FileSystem.GetFileFromParent | kernel/src/file.c:470-495 | the first file of that name |
| Initrd.FileSystem.FindParent | kernel/src/file.c:532-606 | the outcome is that of walking the path's components, and the slash is where the last name begins, for every path |
| Initrd.FileSystem.GetFile | kernel/src/file.c:1038-1048 | the file that the walk and the last name lead to |
| Initrd.FileSystem.CreateSymbolicDirectory | kernel/src/file.c:731-789 | fails exactly if the directory is full or the link's name or path is too long; a link that is made is found under its name, if the name is new there |
| Initrd.LinkFound | kernel/src/file.c:731-789 | looking up the name of a new link leads to where it points |
| Initrd.NewDirectoryLinks | kernel/src/file.c:608-666 | in a new directory . leads to the directory if and only if its header name has at most 261 characters, and .. to its parent if and only if it has at most 260 |
| Initrd.LinksInArchive | kernel/src/file.c:608-666 | a directory of an archive has both links if its header name has at most 256 characters; the only longer names, of 262, run through the magic, and give neither |
| Initrd.LongName | kernel/src/file.c:608-666 | an input: a record with such a name, which is accepted |
| Initrd.FileSystem.ParseFile | kernel/src/file.c:857-925 | stops exactly on records that are not accepted; otherwise the file is the parent's next entry with the record's name, size and bytes |
| Initrd.FileSystem.ParseDirectory | kernel/src/file.c:608-666 | stops exactly on records that are not accepted; otherwise the directory is the parent's next entry with its two links |
| Initrd.FileSystem.Oct2bin | kernel/src/file.c:1168-1178 | the value of the digits modulo 2^32 |
| Initrd.FileSystem.LoadInitrd | kernel/src/file.c:954-1017 | every well-formed archive is loaded, and exactly its directories and files are there |
| Initrd.FileSystem.LoadAndGet | kernel/src/file.c:954-1048 | after loading an archive as tar writes it, a clean path finds the archive's file with exactly its bytes, if and only if the archive has one |
| Initrd.StoredFile | kernel/src/file.c:1038-1048 | in every represented file system a clean path leads to the file stored under it, if and only if there is one |
| Initrd.StoredPath | kernel/src/file.c:885-886 | the name in the header, behind initrd, is the path from the root on, with a slash behind it for a directory |
| Initrd.RecordIsRead | kernel/src/file.c:885-910 | path, name, content and mode that are kept are those that tar has written |
| Initrd.RecordStep | kernel/src/file.c:998-1012 | the record of the next entry of a well-formed archive is accepted and adds exactly that entry |

## Left out

- HuffmanTree.TinfTree.Build: counts and symbols are unbounded numbers here; that they fit an unsigned short follows from their bounds, 288 codes and symbols below 288.
- Tinflate.Uncompress: the source is a value, so source and destination do not overlap.
- Frames.FrameAllocator.KallocCache: does not model the mapping of frames into the kernel on demand, which calls the allocator again; frames are taken to be mapped.
- Frames.FrameAllocator.KallocFrames: the mapping of frames on demand is not modelled here either.
- Frames.FrameAllocator.KfreeFrame: the number of used frames does not wrap around when it falls below zero, which only a wrong free can bring about.
- Frames.FrameAllocator.KfreeFrames: the same; and counts with which the sum of index and count wraps around to a frame of the map are excluded, because the source then stores outside the map.
- Frames.FrameAllocator.MemoryInitialize: the map has a multiple of 8 frames, because the source clears whole bytes only.
- AddressSpaces.Spaces.MapPageWtable: mapping kernel addresses, and frames that have another use, is excluded.
- AddressSpaces.Spaces.MapPage: the same.
- AddressSpaces.Spaces.MapPageWflags: the same.
- AddressSpaces.Spaces.FreeSpace: when read-only pages are freed too, memory has at most 4 GB, as 32-bit entries have it. exec itself is not modelled.
- MemoryMaps.MmapProcess: requires that there is room, because getVirtualChunks returns an address even if its run is too short.
- MemoryMaps.ChooseAddress: the same.
- Unmapping.MapAndUnmap: the same.
- Unmapping.MunmapProcess: requires that the kernel's own tables hold no anonymous page.
- ProcessArgs.ProcessStack.SetProcessArgs: argument lists larger than the stack page, which the source does not test for, are excluded.
- ProcessArgs.ProcessStack.PushStrings: the same.
- ProcessArgs.ProcessStack.ProcessPush: pushes below the stack page, which the source does not test for, are excluded.
- ProcessArgs.ProcessStack.ProcessPushStr: the same.
- Processes.ProcessControl.FindNextProcess: from the last slot the source looks behind the table; that slot is taken to be unused. That a blocked current process is run again if there is no other is modelled as is.
- Processes.ProcessControl.SwitchProcess: the same.
- Processes.ProcessControl.constructor: loading the first program, its stack and its arguments are not modelled here.
- Processes.ProcessControl.ForkProcess: copies of registers, files and environment, and the child's input buffer, are not modelled.
- Processes.ProcessControl.HandleWaitpidBlock: the status word that waitpid stores for the parent is not modelled.
- Processes.ProcessControl.HandleKeyboardBlock: characters that running processes put by in the buffer of standard input are not modelled.
- HeapAllocator.HeapState.Malloc: the search in the free lists is represented by its result, any free block that is large enough or none; the lists are not modelled, since free clears a link right after it has set it (libc/stdlib/free.c:224-234). Sizes from 2 GB on are excluded.
- HeapAllocator.HeapState.Free: whether a free region is given back is a parameter, because malloc and free count complete regions by different classes. Freeing what is not in use is excluded.
- Tty.Terminal.WriteChar: backspace, tab and escape sequences are outside the scrollback theorem.
- Tty.Terminal.Write: the same.
- Getline.LineReader.Read: read errors are not modelled.
- Getline.LineReader.GetLine: the caller's buffer, which is resized to the line, and read errors are not modelled.
- Initrd.FileSystem.LoadInitrd: what malformed archives load is stated record by record only (ParseFile, ParseDirectory). An empty file stops the loader, so well-formed archives have none.
- Initrd.FileSystem.GetFile: links to files, which no code of the loader creates, and getDirectory, which adds a comparison with the root's name, are left out.
- Initrd.FileSystem.GetFileFromParent: links to files are not modelled.
- Initrd.FileSystem.GetDirectoryFromParent: always follows links; the mode that does not is not modelled.
- Initrd.FileSystem.FindParent: a given directory to start from is not modelled.
- Initrd.FileSystem.ParseFile: running out of frames, where the source stops too, is not modelled.
- Owners, groups and access modes of files, the ELF loader, environment variables, users.
- kernel/src/tinf/tinfgzip.c: the gzip wrapper around tinf_uncompress.
- Port I/O, interrupt setup, loading of page directories, keyboard scan codes, the system call stubs and the user programs.
