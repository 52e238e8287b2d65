# A verified model of the BonfireOS kernel's data structures and protocols

This project models the parts of the BonfireOS kernel whose correctness is hard to see by reading
one function, and proves what the rest of the kernel relies on. Code that the kernel writes as
loops over buffers, globals and pointers is written here as classes and methods over arrays and
fields. Each such method is proved against a specification function, and the results are lemmas
about those functions and about whole runs. The `.dfy` files only import each other;
`dafny verify dfyconfig.toml` checks all of them.

**FAT12 and FAT16** (`Chains`, `FatImage`, `FatSearch`, `FatDisk`, `FatFiles`, `FatPlaces`,
`FatVolume`, `FatRuns`). A disk is a sequence of 512-byte sectors. `FatImage` reads a packed table
as consecutive nibbles, which gives FAT12 and FAT16 one definition of an entry. `FatDisk` reduces a
disk with identical FAT copies to a table and the sectors outside the FAT, and shows that this view
determines every byte. `Chains` holds the allocation theory on tables, `FatFiles` the file data
theory, `FatPlaces` says where entries and file bytes stand on the disk in absolute sectors,
`FatSearch` the search for a free cluster through a one-sector reader, `FatVolume` the methods of
`fat.c`, which work on the sectors and the three sector buffers, and `FatRuns` whole runs of storing
and deleting files. FAT12 volumes of every size are covered. A walk along a chain asks that the
links it follows do not cross a sector boundary, an allocation that its searches cannot mistake an
entry they read.

**exFAT** (`ExfatImage`, `ExfatChains`, `ExfatBitmap`, `ExfatVolume`, `ExfatDirectory`,
`ExfatPrint`, `ExfatFrame`, `ExfatRoot`, `ExfatRuns`). The same disk with 32-bit links, an
allocation bitmap, and directory entry sets. `ExfatVolume` allocates and frees with bitmap and FAT
together; `ExfatRoot` searches the root directory, adds files to it and overwrites them, and proves
that what is written is found and reads back while everything else stays as it was. `ExfatRuns`
proves this over whole runs.

**The DOOM heap** (`HeapTiles`, `HeapMemory`, `DoomHeap`). One flat byte array holds headers and
payloads. `HeapTiles` is the abstract picture, a sequence of free and live tiles; `HeapMemory`
relates it to header words and the address-ordered free list; `DoomHeap` is the code.

**Minesweeper and the line tool of the GUI** (`Grids`, `MineField`, `Minesweeper`, `PaintLine`),
with the board sizes and the number of mines as parameters.

**The loopback IPv4/TCP stack** (`NetWire`, `TcpModel`, `TcpRuns`, `NetBytes`, `LoopbackRing`,
`NetStack`). `NetWire` is the byte layout and checksum arithmetic, `TcpModel` the step function of
one received datagram and its termination measure, `TcpRuns` the protocol over whole runs,
`LoopbackRing` the ring of packet slots and `NetStack` the code; `NetBytes` spells out formats and
arrows in bytes and numbers. The response text of the built-in server is a parameter.

**The scheduler and the console** (`RoundRobin`, `Scheduler`, `Transcript`, `Console`): a ring of
linked process records against a round-robin machine, and an 80 by 25 window onto an unbounded
transcript.

## What turned out false, and when it holds

* A FAT12 entry written by `fat12_set_entry` is read back for certain exactly when its two bytes lie
  in one sector, because `get_fat_entry_fat1216` loads one sector only (`FatImage.ReadBackIff`,
  `FatImage.StraddleExample`).
* The search for a free cluster only asks whether an entry is 0. A crossing entry answers that for
  certain exactly when its part in the loaded sector is not 0 (`FatSearch.ZeroReadIff`). The search
  finds the lowest free cluster for all bytes behind the buffer if and only if every cluster it must
  look at, those with no free cluster below them, is certain in this sense (`FatSearch.SearchIff`). On
  all tables it does so if and only if the volume is no FAT12 or has at most 339 clusters
  (`FatSearch.AnySearchIff`). The first failure is cluster 341: linked to cluster 352 it can be taken
  for a free one (`FatSearch.UsedReadsFree`).
* The 32-bit byte counter of the file loops handles a sector correctly exactly while it is below
  2^32 - 512 (`FatFiles.ChunkIff`). A read or write therefore handles every sector correctly if and
  only if its walk places at most that many bytes (`FatFiles.WalkChunksIff`). A chain of a FAT12/16
  volume never places more (`FatFiles.ChainNeverWraps`); a cluster linked to itself does
  (`FatFiles.LoopPlacesAll`).
* `ALIGN_UP` wraps for sizes above 2^64 - 8: `malloc` then hands out a block smaller than asked for,
  and only then (`HeapTiles.MallocCoversIff`). The copy of `realloc` stays inside the new block if and
  only if `HeapTiles.CopyGuard` holds, a test on the size, the old block and the first free block
  (`HeapTiles.CopyFitsIff`). Exactly the sizes up to 2^64 - 8 are safe on every heap
  (`HeapTiles.SizeSafeIff`), and every larger one fails on a given heap (`HeapTiles.CopyOverruns`).
* A failed exFAT allocation restores the bitmap bit for bit but zeroes the FAT entries of the clusters
  it tried; the FAT survives exactly when those entries were zero before
  (`ExfatChains.RollbackRestoresFatIff`, `ExfatChains.RollbackLosesStaleLink`).
* A call of `exfat_write_root` that fails on an existing file has already freed the file's clusters:
  the file survives exactly when it was empty, otherwise its name goes on resolving to a cluster that
  is no longer in use (`ExfatRuns.FailedOverwriteIff`).
* A file whose name holds a character above 127 is stored on exFAT but never found
  (`ExfatRoot.AddedFileFound`, `ExfatDirectory.HighNameLost`).
* The cluster count of a file within one cluster of 4 GiB wraps to 0 and the write is refused; on
  exFAT that can happen with room to spare (`ExfatRoot.ExfatRoot.StoreData`, predicate `Storable`).

## Model

| member | source | states |
|---|---|---|
| FatImage.DecodeIsEntry | src/kernel/fs/fat.c:271-288 | the 16-bit load, shift and mask of the reader give the entry's nibbles |
| FatImage.PutGet | src/kernel/fs/fat.c:202-224 | an entry set to v then holds v |
| FatImage.PutTable | src/kernel/fs/fat.c:192-237 | setting one packed entry changes no other entry, not even the neighbour sharing a byte, and no left-over nibble |
| FatImage.TableDetermines | src/kernel/fs/fat.c:202-237 | entries and left-over nibbles determine the table's bytes |
| FatImage.ReadBackIff | src/kernel/fs/fat.c:271-288 | set then get returns the value whatever lies behind the buffer if and only if the entry does not cross a sector boundary |
| FatImage.StraddleFree | src/kernel/fs/fat.c:572-581 | no cluster the allocator scans crosses a boundary if and only if the volume is FAT16 or has at most 339 clusters |
| FatImage.StraddleExample | src/kernel/fs/fat.c:271-280 | cluster 341 of a FAT12, set to 0, can read back as 16 |
| FatDisk.ViewDetermines | src/kernel/fs/fat.c:182-190 | with identical FAT copies, table, left-over nibbles and the other sectors determine the whole disk |
| FatDisk.PutCopiesView | src/kernel/fs/fat.c:182-237 | storing patched sectors in every FAT copy keeps the copies identical and touches nothing outside the FAT |
| FatDisk.EntryWriteView | src/kernel/fs/fat.c:192-269 | on the disk, an entry write is one table update in every copy, for all three packings |
| FatDisk.DataWriteView | src/kernel/fs/fat.c:617-636 | a data sector write changes that sector only and leaves the FAT and its mirroring alone |
| FatPlaces.FatByteAt | src/kernel/fs/fat.c:182-190 | byte q of the FAT stands in byte q % 512 of sector q / 512 of every copy, copy k starting fatSectors * k sectors behind the first |
| FatPlaces.Fat16EntryAt | src/kernel/fs/fat.c:271-288 | a FAT16 entry is the little-endian word at byte 2c |
| FatPlaces.Fat12EntryAt | src/kernel/fs/fat.c:271-288 | a FAT12 entry is the low or high 12 bits at byte 3c / 2 |
| FatPlaces.CrossesIff | src/kernel/fs/fat.c:271-288 | a FAT12 entry crosses a sector boundary exactly if byte 3c / 2 is the last of a sector; a FAT16 entry never does |
| FatPlaces.ExfatEntryAt | src/kernel/fs/fat.c:290-303 | an exFAT entry is the little-endian double word at byte 4c |
| FatPlaces.RestAt | src/kernel/fs/fat.c:617-636 | every sector outside the FAT copies is seen as it stands on the disk |
| FatPlaces.ClusterAt | src/kernel/fs/fat.c:131-134 | cluster c starts at sector dataStart + (c - 2) * spc |
| FatVolume.Volume.ClusterToLba | src/kernel/fs/fat.c:131-134 | the method computes that sector, which is on the disk with the rest of the cluster |
| FatPlaces.ChainMeans | src/kernel/fs/fat.c:526-565 | a chain runs over distinct clusters from 2 to the cluster count plus 1, each linked to the next, the last at or above the end mark 0x0FF8, 0xFFF8 or 0xFFFFFFF8 |
| FatPlaces.LinkedMeans | src/kernel/fs/fat.c:601-612 | an allocation stores in each entry the next cluster, in the last one 0x0FF8 or 0xFFF8, and in no other entry |
| FatPlaces.LowestFreeIff | src/kernel/fs/fat.c:572-581 | the clusters it takes: cluster i of the chain is free with exactly i free clusters below it |
| FatPlaces.SectorIs | src/kernel/fs/fat.c:545-562 | byte y of cluster k of a file lies in sector dataStart + (chain[k] - 2) * spc + y / 512 |
| FatPlaces.HoldingMeans | src/kernel/fs/fat.c:545-562 | what a file holds, byte by byte in absolute sectors |
| FatPlaces.LaidMeans | src/kernel/fs/fat.c:617-636 | what a write leaves on the disk, byte by byte in absolute sectors: the data, zeros behind it in its last sector, everything else in the chain as it was |
| FatVolume.Volume.SyncFatSectorIndex | src/kernel/fs/fat.c:182-190 | copies the buffered sector to all FAT copies, or changes nothing when the index is outside the FAT |
| FatVolume.Volume.Fat16SetEntry | src/kernel/fs/fat.c:192-200 | one table entry updated in every copy, all else unchanged |
| FatVolume.Volume.Fat12SetEntry | src/kernel/fs/fat.c:202-237 | the entry takes the value masked to 12 bits in every copy, across a sector boundary too; all else unchanged |
| FatVolume.Volume.SetEntry | src/kernel/fs/fat.c:239-243 | the same for either packing |
| FatVolume.Volume.GetEntryFat1216 | src/kernel/fs/fat.c:271-288 | returns the table entry when its bytes lie in one sector, and otherwise what the one loaded sector and an arbitrary next byte give |
| FatVolume.Volume.FindFreeCluster | src/kernel/fs/fat.c:572-581 | returns the first cluster that reads as 0 for some bytes behind the buffer, or 0; that is the lowest free cluster when the search is sure of the entries it reads |
| FatVolume.Volume.FreeChain | src/kernel/fs/fat.c:583-592 | terminates on every table whose walk stays in range and on readable entries, cyclic or cross-linked, with the table of the free walk |
| FatVolume.RoundSure | src/kernel/fs/fat.c:601-612 | if an allocation is sure of the entries with fewer than n free clusters below them, then each of its n rounds is sure of what it reads, and the cluster it takes reads back |
| FatSearch.ZeroReadIff | src/kernel/fs/fat.c:271-288 | a crossing entry is told apart from a free one for every byte behind the buffer if and only if its part in the loaded sector is not 0 |
| FatSearch.SearchIff | src/kernel/fs/fat.c:572-581 | the search returns the lowest free cluster for all bytes behind the buffer if and only if it is sure of every entry with no free cluster below it |
| FatSearch.AnySearchIff | src/kernel/fs/fat.c:572-581 | it does so on every table if and only if the volume is no FAT12 or has at most 339 clusters |
| FatSearch.UsedReadsFree | src/kernel/fs/fat.c:271-280 | cluster 341 linked to cluster 352 can read as free |
| FatVolume.Volume.AllocChain | src/kernel/fs/fat.c:594-615 | when it is sure of the entries its searches read: succeeds exactly when n clusters are free, then links the n lowest free clusters; on failure the disk is what it was, byte for byte |
| FatVolume.Volume.WriteBytes | src/kernel/fs/fat.c:617-636 | lays the data along the walk, leaves the FAT alone, and succeeds exactly when every byte found a cluster; links behind the last cluster needed do not matter. For a chain with room for the data, every byte stands in its sector of the disk, zeros fill its last sector, and every other sector is unchanged |
| FatVolume.Volume.ReadFile | src/kernel/fs/fat.c:526-565 | fills the buffer with the bytes along the walk and leaves the rest of it alone, whatever follows the last cluster needed; for a chain with room for the size, byte i is the one that stands in its sector of the disk |
| FatVolume.Volume.StoreFile | src/kernel/fs/fat.c:697-708 | under the same condition on its searches: allocates and writes exactly when the free clusters hold the data, 32-bit wrap included; otherwise the disk is unchanged |
| FatVolume.StoreArithmetic | src/kernel/fs/fat.c:700-702 | the wrapping 32-bit cluster count is the least that holds the data, and is 0 only for data no FAT12/16 volume can hold |
| Chains.FreeZeroesExactlyReachable | src/kernel/fs/fat.c:583-592 | the free loop zeroes exactly the entries reachable from its start |
| Chains.FreeChainZeroesChain | src/kernel/fs/fat.c:583-592 | on a chain it zeroes exactly the chain |
| Chains.AllocRound | src/kernel/fs/fat.c:601-612 | each round of the allocation loop takes the next lowest free cluster of the original table, or all free clusters are taken |
| Chains.LinkedIsChain | src/kernel/fs/fat.c:601-612 | the links written form an acyclic chain of distinct clusters ending in the end mark |
| Chains.LinkedEntries | src/kernel/fs/fat.c:601-612 | allocation changes no entry outside the new chain |
| Chains.FreeUndoesAlloc | src/kernel/fs/fat.c:583-615 | freeing a chain just built restores the table |
| Chains.AllocKeepsForest | src/kernel/fs/fat.c:594-615 | allocation keeps the table a set of disjoint acyclic ended chains and bad marks |
| Chains.FreeKeepsForest | src/kernel/fs/fat.c:583-592 | so does freeing a file, and exactly its clusters become free |
| Chains.Conservation | src/kernel/fs/fat.c:572-615 | free clusters, chain lengths and bad clusters add up to the volume |
| Chains.RunKeepsForest | src/kernel/fs/fat.c:583-615 | over any run of allocations and frees the table stays such a set and free clusters plus chain lengths stay constant |
| FatFiles.SectorsRoundTrip | src/kernel/fs/fat.c:545-562 | what one cluster's write loop stored is what its read loop returns |
| FatFiles.WriteWalkFrame | src/kernel/fs/fat.c:617-636 | a file write touches no sector outside its chain |
| FatFiles.PlacedIff | src/kernel/fs/fat.c:617-636 | the bytes left unwritten are exactly those that exceed the chain's room |
| FatFiles.FileRoundTrip | src/kernel/fs/fat.c:526-565 | reading a chain returns exactly the bytes written to it, for every size the chain can hold |
| FatFiles.ChunkIff | src/kernel/fs/fat.c:626-627 | the wrapping sum gives the right chunk if and only if the counter is below 2^32 - 512 |
| FatFiles.WalkChunksIff | src/kernel/fs/fat.c:617-636 | every sector of a walk gets the right chunk if and only if the walk places at most 2^32 - 512 bytes |
| FatFiles.ChainCovered | src/kernel/fs/fat.c:526-565 | on a chain the readable clusters in front of the last one needed are enough for a read or write |
| FatFiles.ChainNeverWraps | src/kernel/fs/fat.c:526-565 | on a chain of a FAT12/16 volume the counter stays there for every size |
| FatFiles.LoopPlacesAll | src/kernel/fs/fat.c:526-565 | on a cluster linked to itself it does not |
| FatFiles.OtherFileUntouched | src/kernel/fs/fat.c:617-636 | a file with a disjoint chain reads as before |
| FatFiles.StoredFileReadsBack | src/kernel/fs/fat.c:594-636 | after allocation and write the file reads back exactly, and every earlier file keeps its chain and its bytes |
| FatRuns.StoreKeeps | src/kernel/fs/fat.c:697-708 | storing a file keeps every earlier file's bytes, and the new one reads back |
| FatRuns.DeleteKeeps | src/kernel/fs/fat.c:583-592 | deleting a file keeps the bytes of every other |
| FatRuns.RunReadsBack | src/kernel/fs/fat.c:583-636 | after any run of stores and deletions every live file still reads back its own data, and the chains are disjoint and account for the table |
| FatVolume.Volume.ExfatSetFatEntry | src/kernel/fs/fat.c:245-269 | one 32-bit link updated in every FAT copy, all else unchanged |
| FatVolume.Volume.GetEntryExfat | src/kernel/fs/fat.c:290-303 | returns the link |
| FatVolume.Volume.GetEntry | src/kernel/fs/fat.c:305-309 | the table entry, whichever kind of volume is mounted, unless it crosses a sector boundary |
| ExfatImage.PutTable | src/kernel/fs/fat.c:245-269 | storing one 32-bit link changes no other link |
| ExfatBitmap.BitAfterSet | src/kernel/fs/fat.c:778-793 | replacing a bit changes that bit and no other |
| ExfatBitmap.BitByShift | src/kernel/fs/fat.c:764-776 | the shift-and-mask test reads the bit |
| ExfatBitmap.SetByMask | src/kernel/fs/fat.c:788-791 | the or and and-not of the mask replace the bit |
| ExfatBitmap.PutBitBits | src/kernel/fs/fat.c:778-793 | the sector rewrite changes one bitmap bit and no other byte of the disk |
| ExfatBitmap.BitsAndRestDetermine | src/kernel/fs/fat.c:778-793 | bitmap bits and everything else determine the disk |
| ExfatVolume.ExfatVolume.BitmapIsFree | src/kernel/fs/fat.c:764-776 | answers for exactly the clusters that have a bit, with that bit |
| ExfatVolume.ExfatVolume.BitmapModifyBit | src/kernel/fs/fat.c:778-793 | sets or clears that cluster's bit; nothing else changes |
| ExfatVolume.ExfatVolume.GrabCluster | src/kernel/fs/fat.c:750-762 | takes the lowest cluster whose bit is clear and sets its bit, or changes nothing |
| ExfatVolume.ExfatVolume.ReleaseCluster | src/kernel/fs/fat.c:795-800 | zeroes the link and clears the bit |
| ExfatVolume.ExfatVolume.FreeChain | src/kernel/fs/fat.c:802-810 | terminates on every table whose walk stays in range; FAT and bitmap are those of the free loop |
| ExfatVolume.ExfatVolume.AllocChain | src/kernel/fs/fat.c:812-832 | succeeds exactly when n bits are clear, then links the n lowest and sets exactly their bits; on failure every byte outside the FAT is restored |
| ExfatVolume.ExfatVolume.UsedOnDisk | src/kernel/fs/fat.c:764-776 | a cluster is used exactly if bit (c - 2) % 8 of byte (c - 2) / 8 of the bitmap on the disk is set |
| ExfatVolume.ExfatVolume.LowestClearIff | src/kernel/fs/fat.c:750-762 | the clusters an allocation takes: cluster i of the chain is clear, in the volume and in the bitmap, with exactly i clear clusters below it |
| ExfatVolume.AllocatedMeans | src/kernel/fs/fat.c:812-832 | each link names the next cluster, the last one is 0xFFFFFFFF, no other link changes, and exactly these bits are set besides those set before |
| ExfatChains.GrabRound | src/kernel/fs/fat.c:750-762 | each round takes the next lowest clear cluster, or all clear ones are taken |
| ExfatChains.FreedExactlyReachable | src/kernel/fs/fat.c:802-810 | freeing zeroes and clears exactly the clusters reachable from the start |
| ExfatChains.FreedChain | src/kernel/fs/fat.c:802-810 | on a FAT-linked chain it clears exactly that chain's bits and links |
| ExfatChains.RollbackRestoresBits | src/kernel/fs/fat.c:819-824 | rolling an allocation back restores the bitmap and leaves zeros in the links |
| ExfatChains.RollbackRestoresFatIff | src/kernel/fs/fat.c:819-824 | a failed allocation leaves the FAT unchanged if and only if every clear cluster had a zero link |
| ExfatChains.RollbackLosesStaleLink | src/kernel/fs/fat.c:819-824 | a concrete stale link that is lost |
| ExfatChains.AllocKeepsAgreement | src/kernel/fs/fat.c:812-832 | allocation keeps bitmap and live chains in agreement and uses only clusters nobody owned |
| ExfatChains.FreeKeepsAgreement | src/kernel/fs/fat.c:802-810 | freeing a live file clears exactly its bits and leaves the others linked and set |
| ExfatChains.OneOwner | src/kernel/fs/fat.c:812-832 | a cluster of a live file has its bit set and belongs to no other live file |
| ExfatChains.RunKeepsAgreement | src/kernel/fs/fat.c:795-832 | bitmap and chains agree after any run of allocations, failed allocations and frees, and no cluster leaks: the used clusters that no file owns stay the same set |
| ExfatDirectory.ExpectedJoins | src/kernel/fs/fat.c:95-114 | a padded 8.3 name stands for base, dot and extension in upper case |
| ExfatDirectory.ExpectedLetters | src/kernel/fs/fat.c:95-114 | its letters one by one |
| ExfatDirectory.MatchesIff | src/kernel/fs/fat.c:116-129 | a stored name matches exactly when it is ASCII and its upper case is the name looked for |
| ExfatDirectory.HighNameLost | src/kernel/fs/fat.c:116-129 | a one-letter name above 127 does not match itself |
| ExfatDirectory.RunningIsSetChecksum | src/kernel/fs/fat.c:731-739 | rotate-and-add slot by slot, skipping bytes 2 and 3 of the first, is the SetChecksum of section 6.3.3 of the Microsoft exFAT specification |
| ExfatDirectory.RunningIsNameHash | src/kernel/fs/fat.c:731-739 | the same loop over a name is the NameHash of section 7.6.4 |
| ExfatDirectory.ChecksumSteps | src/kernel/fs/fat.c:731-739 | the checksum starts at 0 and for each byte rotates 16 bits right, adds and drops the carry; bytes 2 and 3 of a set are passed over |
| ExfatDirectory.HashSteps | src/kernel/fs/fat.c:731-739 | the hash does the same without passing over anything |
| ExfatDirectory.EntrySetChecks | src/kernel/fs/fat.c:905-938 | the stored checksum is valid for the stored set and the stored hash is that of the up-cased name |
| ExfatDirectory.PrintedFields | src/kernel/fs/fat.c:915-934 | every field of a printed set reads back as what was printed |
| ExfatPrint.SetBytes | src/kernel/fs/fat.c:905-938 | all 96 bytes of a printed set |
| ExfatDirectory.ScanSkips | src/kernel/fs/fat.c:419-443 | the search stops at a slot starting with 0, passes over every slot that does not start with 0x85, and over the whole set of a directory, bit 4 of byte 4 |
| ExfatDirectory.ScanFile | src/kernel/fs/fat.c:445-492 | at a file it answers with the hit, or goes on behind the set |
| ExfatDirectory.HitAtBytes | src/kernel/fs/fat.c:454-480 | a set answers exactly if it is a file with a name, its name slots all start with 0xC1, and they spell the name |
| ExfatDirectory.NameChar | src/kernel/fs/fat.c:458-473 | fifteen two-byte characters to a name slot, from byte 2 on |
| ExfatDirectory.HitBytes | src/kernel/fs/fat.c:480-489 | cluster, size and the NoFatChain flag come from bytes 20, 24 and bit 1 of byte 1 of the stream slot |
| ExfatDirectory.InsertThenFind | src/kernel/fs/fat.c:402-498 | in a well-formed cluster, a set inserted at the end marker is found with its cluster and size exactly when its name is ASCII, and every other name answers as before |
| ExfatDirectory.ReplacedFrom | src/kernel/fs/fat.c:941-961 | overwriting a found set in the cluster of the end marker: the name answers with the new cluster and size, every other name as before |
| ExfatDirectory.ReplacedInFull | src/kernel/fs/fat.c:941-961 | the same in a full cluster |
| ExfatPrint.BuildExpected | src/kernel/fs/fat.c:95-114 | leaves the 8.3 name's long form in the buffer, zero-terminated |
| ExfatPrint.NameOf | src/kernel/fs/fat.c:741-748 | the characters of the long name |
| ExfatPrint.Chksum16Buf | src/kernel/fs/fat.c:731-739 | the running checksum of the buffer |
| ExfatPrint.BuildSet | src/kernel/fs/fat.c:905-938 | the buffer holds the three slots of the file's entry set, checksum included |
| ExfatRoot.NameMatches | src/kernel/fs/fat.c:116-129 | the loop decides whether the stored characters match the C string |
| ExfatRoot.ExfatRoot.CopyDentryAt | src/kernel/fs/fat.c:141-157 | copies the 32-byte slot, zeros when the read fails |
| ExfatRoot.ExfatRoot.ReadName | src/kernel/fs/fat.c:454-476 | collects the name's characters, or reports a slot that is no name entry |
| ExfatRoot.ExfatRoot.FindInCluster | src/kernel/fs/fat.c:413-493 | the search through one directory cluster |
| ExfatRoot.ExfatRoot.FindRoot | src/kernel/fs/fat.c:402-498 | the search along the root clusters, which may be linked in a cycle if the search is decided before it repeats; what it answers is a file on the disk: its slot starts with 0x85 and has the directory bit clear, and the slot behind it starts with 0xC0 |
| ExfatRoot.FoundInBytes | src/kernel/fs/fat.c:402-498 | what is found is a file and no directory, with its set count, cluster and size, in the bytes of its cluster |
| ExfatRoot.FoundOnDisk | src/kernel/fs/fat.c:402-498 | the same bytes on the disk; no name resolves to a directory |
| ExfatRoot.SlotBytes | src/kernel/fs/fat.c:141-157 | slot k of a cluster is bytes 32 * (k % 16) on of its sector k / 16 |
| ExfatRoot.ExfatRoot.FindInsert | src/kernel/fs/fat.c:854-875 | the first end marker that has room behind it in its cluster, with the same freedom |
| ExfatRoot.PlaceMeans | src/kernel/fs/fat.c:854-875 | a new set goes to the first end marker of the first cluster in which it and a new marker fit behind that marker, otherwise nowhere |
| ExfatRoot.ExfatRoot.WriteDentryAt | src/kernel/fs/fat.c:159-180 | replaces one 32-byte slot and nothing else |
| ExfatRoot.ExfatRoot.InsertSet | src/kernel/fs/fat.c:955-969 | the set stands at the chosen place, for a new file with a fresh end marker behind it; every other slot of the cluster, bitmap, FAT and all other clusters are unchanged |
| ExfatRoot.WrittenMeans | src/kernel/fs/fat.c:955-969 | slot by slot what such a cluster holds |
| ExfatRoot.OverwriteMeans | src/kernel/fs/fat.c:891-893 | overwriting first zeroes the links and clears the bits of the old chain and no others; only a set of three slots is overwritten |
| ExfatRoot.ExfatRoot.GiveUp | src/kernel/fs/fat.c:891-893 | frees an existing file's chain: its clusters and no other, the root directory and all sectors outside bitmap and FAT kept |
| ExfatRoot.ExfatRoot.StoreData | src/kernel/fs/fat.c:895-903 | succeeds exactly when the count does not wrap and enough bits are clear; the data then reads back, and only the new chain's sectors and the bitmap changed |
| ExfatRoot.StorableIff | src/kernel/fs/fat.c:895-903 | in numbers: the rounded-up size does not wrap and is at most the clear clusters times 512 * spc |
| ExfatRoot.ExfatRoot.WriteRoot | src/kernel/fs/fat.c:877-973 | for every name, new or existing: succeeds exactly when name, space and a place for the set exist; then data, FAT, bitmap and directory are as promised, the name is found if and only if it is ASCII, and no other lookup changes; on failure every bit set on the way is given back |
| ExfatRoot.ExfatRoot.StoreAs | src/kernel/fs/fat.c:895-971 | the part after the old file is given up |
| ExfatRoot.AddedFileFound | src/kernel/fs/fat.c:402-498 | over a whole root chain, the added file is found with the written cluster and size exactly when its name is ASCII, and no other lookup changes |
| ExfatRoot.SearchableNext | src/kernel/fs/fat.c:854-969 | the directory is well-formed again, up to the new end marker |
| ExfatRoot.LookReplaced | src/kernel/fs/fat.c:402-498 | over a whole root chain, an overwritten file is found with the new cluster and size, no other lookup changes, and the directory stays well-formed |
| ExfatRoot.OtherFileKept | src/kernel/fs/fat.c:877-973 | any other used file keeps its chain and reads the same bytes |
| ExfatRuns.WriteSettles | src/kernel/fs/fat.c:877-973 | a successful call leaves a well-formed directory in which the name resolves to the new file and every other name as before |
| ExfatRuns.WriteKeeps | src/kernel/fs/fat.c:877-973 | every other live file is served as before, although the old file's clusters went back to the allocator |
| ExfatRuns.FailedOverwriteIff | src/kernel/fs/fat.c:891-903 | a call that fails on a live file keeps it if and only if it was empty; otherwise its name resolves to a cluster that is not in use |
| ExfatRuns.StillEndsIn | src/kernel/fs/fat.c:854-875 | an end marker in the last root cluster stays the only place for new names, three slots on after an insertion |
| ExfatRuns.PlaceIsEnd | src/kernel/fs/fat.c:854-875 | a new name then goes to the end marker while three slots and another marker fit, and nowhere else |
| ExfatRuns.RunServes | src/kernel/fs/fat.c:877-973 | after any sequence of calls for new and live names, failures among them, every live name resolves to its file's first cluster and size and reads back the data written last |
| ExfatRuns.Save | src/kernel/fs/fat.c:975-980 | a call on the disk is one step of such a run |
| HeapTiles.TilesFillRegion | src/kernel/doom_host/doom_malloc.c:22-29 | headers and payloads add up to the region |
| HeapTiles.TakeKeepsWellFormed | src/kernel/doom_host/doom_malloc.c:36-52 | taking a block, split or whole, keeps the region exactly tiled and aligned |
| HeapTiles.ReleaseKeepsWellFormed | src/kernel/doom_host/doom_malloc.c:56-70 | so does freeing one, merged or not |
| HeapTiles.MallocFailsIff | src/kernel/doom_host/doom_malloc.c:37-53 | malloc returns NULL if and only if no free block is large enough |
| HeapTiles.TakeLive | src/kernel/doom_host/doom_malloc.c:38-50 | exactly one block becomes live |
| HeapTiles.ReleaseLive | src/kernel/doom_host/doom_malloc.c:56-70 | exactly one block stops being live |
| HeapTiles.LiveBlocksApart | src/kernel/doom_host/doom_malloc.c:31-54 | live blocks are 8-aligned, inside the region and disjoint |
| HeapTiles.AlignUpCovers | src/kernel/doom_host/doom_malloc.c:10 | rounding covers the size if and only if it does not wrap |
| HeapTiles.MallocCoversIff | src/kernel/doom_host/doom_malloc.c:31-54 | the block handed out holds the size asked for if and only if the size is at most 2^64 - 8 |
| HeapTiles.MallocExactly | src/kernel/doom_host/doom_malloc.c:31-54 | the first free block with enough room is cut exactly if it has 24 bytes more than needed, a free block of the remainder behind it; otherwise it is handed out whole. The block has at least the bytes needed and less than 24 more |
| HeapTiles.MallocNone | src/kernel/doom_host/doom_malloc.c:31-54 | without such a block, or for size 0, nothing changes |
| HeapTiles.FreeUndoesSplit | src/kernel/doom_host/doom_malloc.c:36-70 | freeing a block that was just split off restores the heap tile for tile |
| HeapTiles.FreeAfterWhole | src/kernel/doom_host/doom_malloc.c:36-70 | freeing a block taken whole restores it too, up to the merge with a free successor |
| HeapTiles.FreeExactly | src/kernel/doom_host/doom_malloc.c:56-70 | the freed block becomes free, taking in a free block right behind it with its 16 header bytes |
| HeapTiles.CopyFitsIff | src/kernel/doom_host/doom_malloc.c:72-83 | realloc's copy stays inside the new block if and only if the size does not wrap, or no block is free, or the old block is empty, or the first free block is unsplittable and holds the old contents |
| HeapTiles.SizeSafeIff | src/kernel/doom_host/doom_malloc.c:72-83 | a size is safe on every heap if and only if it is at most 2^64 - 8 |
| HeapTiles.CopyOverruns | src/kernel/doom_host/doom_malloc.c:72-83 | for every larger size, a heap on which the copy overruns |
| HeapTiles.RunKeepsWellFormed | src/kernel/doom_host/doom_malloc.c:31-83 | after any sequence of malloc, free, realloc and client writes the tiles fill the region exactly |
| HeapTiles.LiveUntilFreed | src/kernel/doom_host/doom_malloc.c:31-83 | a live block stays live, at its place and size, until it is freed or reallocated |
| DoomHeap.BytesUntilTouched | src/kernel/doom_host/doom_malloc.c:31-83 | over any such run, a live block that no operation names keeps every byte |
| HeapMemory.TakeWholeRep | src/kernel/doom_host/doom_malloc.c:46-48 | unlinking a block updates the free list in memory and no byte a client owns |
| HeapMemory.TakeSplitRep | src/kernel/doom_host/doom_malloc.c:40-45 | so do the header stores of a split |
| HeapMemory.ReleaseAloneRep | src/kernel/doom_host/doom_malloc.c:61-65 | so do the stores that link a freed block in by address |
| HeapMemory.ReleaseMergeRep | src/kernel/doom_host/doom_malloc.c:61-69 | so do those of the merge with the next block |
| HeapMemory.FreeListOrdered | src/kernel/doom_host/doom_malloc.c:60-65 | the linked list in memory is finite, strictly address-ordered, and holds exactly the free blocks |
| HeapMemory.HeaderBytes | src/kernel/doom_host/doom_malloc.c:15-18 | the size stands in the first 8 bytes of a block, the next pointer of a free one in the 8 behind, low byte first |
| HeapMemory.NextFreeMeans | src/kernel/doom_host/doom_malloc.c:60-65 | the next pointer names the next free block by address, 0 behind the last |
| DoomHeap.Heap.Init | src/kernel/doom_host/doom_malloc.c:22-29 | the first use makes one free block of the whole region; later calls change nothing |
| DoomHeap.Heap.Malloc | src/kernel/doom_host/doom_malloc.c:31-54 | the first fit in address order, split when the rest can hold a block; for sizes up to 2^64 - 8 the block has at least the rounded size and less than 24 bytes more; bytes of live blocks are kept |
| DoomHeap.Heap.Free | src/kernel/doom_host/doom_malloc.c:56-70 | releases the block into the address-ordered list, absorbing a free successor; bytes of live blocks are kept |
| DoomHeap.Heap.Realloc | src/kernel/doom_host/doom_malloc.c:72-83 | under that condition: keeps a large enough block, otherwise moves all its bytes to a new one and frees it, or leaves it alone when there is none; other blocks' bytes are kept |
| DoomHeap.Heap.ClientWrite | src/kernel/doom_host/doom_malloc.c:50 | a write inside a live block keeps the heap valid and every other block's bytes |
| MineField.CountIsCard | src/kernel/gui/gui.c:453-474 | the neighbour count is the number of mines a king move away |
| MineField.ExpandedIsExact | src/kernel/gui/gui.c:491-506 | the expansion opens exactly the cells reachable from the click by king moves through hidden, unflagged, mine-free cells, all but the last with adjacency 0 |
| MineField.ExpandStep | src/kernel/gui/gui.c:499-505 | one recursive call of the depth-first expansion keeps the partial statement, although cells were opened in between |
| MineField.OpenedAreSafe | src/kernel/gui/gui.c:491-506 | no mine and no flagged cell is ever opened |
| Minesweeper.Game.Expand | src/kernel/gui/gui.c:491-506 | terminates, hidden cells decreasing, with exactly those cells opened |
| Minesweeper.Game.BuildAdj | src/kernel/gui/gui.c:453-474 | adjacency is 9 on a mine and the neighbour count elsewhere |
| Minesweeper.Game.PlaceMines | src/kernel/gui/gui.c:476-489 | at every moment of the drawing no mine is near the first click and there are fewer than wanted; when it ends, exactly as many as wanted, with correct adjacency |
| Minesweeper.Game.RevealAllMines | src/kernel/gui/gui.c:508-512 | every mine is shown and every other cell keeps its mark |
| Minesweeper.Game.CheckWin | src/kernel/gui/gui.c:514-520 | sets the win flag exactly when every safe cell is shown |
| Minesweeper.Game.LeftCell | src/kernel/gui/gui.c:522-539 | keeps the game invariant; hits a mine and dies, the mines shown and every other mark kept, or opens exactly the reachable cells and wins when none is left; the first click is blank |
| Minesweeper.Game.RightCell | src/kernel/gui/gui.c:541-552 | keeps the game invariant; flips the flag of one hidden cell of a running game |
| Minesweeper.Game.NewGame | src/kernel/gui/gui.c:554-557 | a fresh game: no mines, nothing shown, neither dead nor won |
| Minesweeper.FirstClickBlank | src/kernel/gui/gui.c:476-489 | a cell with no mine around it has adjacency 0 |
| Minesweeper.CellIndex | src/kernel/gui/gui.c:453-474 | cell (x, y) is entry y * cols + x |
| Minesweeper.AdjMeans | src/kernel/gui/gui.c:453-474 | the adjacency counts the mines among the up to eight cells around, 9 on a mine |
| Minesweeper.ReachedBy | src/kernel/gui/gui.c:491-506 | an opened cell is a king's walk away over hidden, unflagged, mine-free cells, all but the last with adjacency 0 |
| Minesweeper.WalkReaches | src/kernel/gui/gui.c:491-506 | the end of every such walk is opened |
| Minesweeper.ClickMeans | src/kernel/gui/gui.c:522-539 | the outcomes of a click cell by cell |
| Minesweeper.GameMeans | src/kernel/gui/gui.c:522-552 | the invariant in plain terms: the number of mines, none shown while alive, all once dead, won exactly when every other cell is shown |
| Minesweeper.ClearMeans | src/kernel/gui/gui.c:445-451 | no mine in the nine cells around the first click |
| PaintLine.HalfPixel | src/kernel/gui/gui.c:346-366 | after every step of the loop the pixel is within half a pixel of the ideal line |
| PaintLine.TieBroken | src/kernel/gui/gui.c:356-365 | exactly between two pixels the walk has not yet stepped in y on flat lines, and has stepped in x on steep ones |
| PaintLine.OnlyWalk | src/kernel/gui/gui.c:356-365 | no other pixels meet that bound |
| PaintLine.EndsExactly | src/kernel/gui/gui.c:346-366 | the loop meets the end point after exactly max(dx, dy) steps and not before |
| PaintLine.KingStep | src/kernel/gui/gui.c:356-365 | every step is one king move towards the end point |
| PaintLine.ErrSmall | src/kernel/gui/gui.c:351-365 | the error term stays within one and a half times the longer side |
| PaintLine.DrawnAt | src/kernel/gui/gui.c:335-366 | the canvas changes exactly at the line's pixels |
| PaintLine.LineEnds | src/kernel/gui/gui.c:346-366 | the line starts and ends on its end points and stays in their box |
| PaintLine.Canvas.PaintLine | src/kernel/gui/gui.c:346-366 | terminates after max(dx, dy) + 1 plots with exactly that line drawn |
| NetWire.FoldIsResidue | src/kernel/net/net_tcp.c:67-68 | the carry-folding loop computes the residue modulo 2^16 - 1, never 0 for a non-zero sum |
| NetWire.FoldComplement | src/kernel/net/net_tcp.c:67-68 | adding the complement makes the sum fold to all ones |
| NetWire.SumFits | src/kernel/net/net_tcp.c:52-69 | the 32-bit sum never overflows |
| NetWire.ChecksumVerifies | src/kernel/net/net_tcp.c:71-97 | recomputing the checksum over a finished segment gives 0 (section 3.1 of RFC 9293, section 1 of RFC 1071) |
| NetWire.SegmentRoundTrip | src/kernel/net/net_tcp.c:113-127 | addresses, ports, numbers, flags and payload of a sent segment are parsed back identically |
| NetBytes.PseudoMeans | src/kernel/net/net_tcp.c:54-57 | the pseudo-header counts as its 12 bytes: source, destination, zero, protocol 6 and length (section 3.1 of RFC 9293) |
| NetBytes.TcpChecksumMeans | src/kernel/net/net_tcp.c:52-69 | the checksum is the complement of the folded sum over pseudo-header and segment |
| NetBytes.WordSumAt | src/kernel/net/net_tcp.c:58-65 | the sum counts bytes at even places 256-fold, an odd last one included |
| NetBytes.ByteOrder | src/kernel/net/net_checksum.c:9-14 | native words sum to the byte-swapped residue modulo 65535 (section 2 of RFC 1071) |
| NetBytes.NativeMeans | src/kernel/net/net_checksum.c:15-20 | an odd last byte is taken for a high one, and the folded sum is complemented |
| NetBytes.SegmentLayout | src/kernel/net/net_tcp.c:77-97 | every byte of a sent segment |
| NetBytes.PlainSegment | src/kernel/net/net_tcp.c:90-95 | its checksum is taken with the field at 0 |
| NetBytes.DatagramLayout | src/kernel/net/net_ipv4.c:98-120 | every byte of a sent datagram, total length and time to live among them, the header checksum taken with its field at 0 |
| NetBytes.AcceptedMeans | src/kernel/net/net_ipv4.c:45-50 | a datagram is looked at when its header is whole |
| NetBytes.ParseMeans | src/kernel/net/net_tcp.c:113-127 | a segment is taken when its header is whole, its fields high byte first |
| NetBytes.EchoMeans | src/kernel/net/net_ipv4.c:69-95 | an echo reply has the addresses swapped, type 0 and the request's data |
| NetBytes.IcmpMeans | src/kernel/net/net_ipv4.c:60-96 | replies are counted one by one, requests of at most 576 bytes are answered, nothing else happens |
| NetBytes.EmitMeans | src/kernel/net/net_ipv4.c:98-120 | a datagram of more than 2048 bytes, or one that finds 15 in the ring, is dropped; any other is queued last |
| NetStack.TcpCksum | src/kernel/net/net_tcp.c:52-69 | the loop computes the checksum of pseudo-header and segment, as NetBytes.TcpChecksumMeans spells it out |
| NetStack.NetChecksum16 | src/kernel/net/net_checksum.c:7-21 | the loop computes the folded sum over native 16-bit words |
| NetStack.Stack.TcpSendFlags | src/kernel/net/net_tcp.c:71-97 | queues that segment, or drops it when the ring is full |
| NetStack.Stack.Ipv4Output | src/kernel/net/net_ipv4.c:98-120 | queues that datagram, or drops it when it is too large or the ring is full |
| NetStack.Stack.TcpIpv4Input | src/kernel/net/net_tcp.c:113-186 | both control blocks and the queue change as the step function says, for every datagram |
| NetBytes.TcpArrows | src/kernel/net/net_tcp.c:129-185 | when the two blocks change state, and to which |
| NetBytes.TcpReceives | src/kernel/net/net_tcp.c:171-177 | which data the client keeps |
| NetBytes.TcpAnswers | src/kernel/net/net_tcp.c:129-185 | what is answered, with which ports, numbers and flags |
| NetBytes.TcpNumbers | src/kernel/net/net_tcp.c:129-185 | how the numbers of both blocks change |
| NetStack.Stack.IcmpInput | src/kernel/net/net_ipv4.c:60-96 | counts replies and answers requests that fit the buffer |
| NetStack.Stack.Ipv4Input | src/kernel/net/net_ipv4.c:45-58 | accepts, dispatches or ignores the datagram |
| NetStack.Stack.NetPoll | src/kernel/net/net.c:21-27 | terminates and leaves the drained state, from every queue content and every state of the blocks |
| NetStack.Stack.TcpReset | src/kernel/net/net_tcp.c:104-111 | server listening, client closed, both receive buffers empty, nothing else changed |
| NetStack.Stack.TcpConnectSendGet | src/kernel/net/net_tcp.c:193-208 | resets both blocks and queues the SYN |
| NetBytes.ConnectMeans | src/kernel/net/net_tcp.c:193-208 | both blocks and the SYN with number 10000 from port 49152 to port 80 |
| NetStack.Stack.TcpSendData | src/kernel/net/net_tcp.c:210-217 | accepted exactly in ESTABLISHED; then queues the data and advances the send number |
| NetBytes.RequestMeans | src/kernel/net/net_tcp.c:210-217 | the request carries ACK and PSH and the block's numbers, and advances the send number |
| NetStack.Stack.HttpGet | src/kernel/net/net.c:45-78 | from any state: the state after the two drains, and -1 or the body of what was received, cut to the buffer and terminated; from an empty queue the exchange succeeds and both ends agree |
| NetStack.BlankLineEnds | src/kernel/net/net.c:66-72 | the body starts behind a CR LF CR LF |
| NetStack.BlankLineFirst | src/kernel/net/net.c:66-72 | behind the first one; at 0 only when there is none |
| NetStack.GotBodyMeans | src/kernel/net/net.c:73-77 | the caller gets the bytes from there on, as many as leave room for the NUL |
| TcpModel.DeliverDecreases | src/kernel/net/net.c:21-27 | delivering any packet in any state lowers a weight summed over the queue and the server state |
| TcpRuns.DeliveryStep | src/kernel/net/net_tcp.c:129-181 | each delivery moves the exchange exactly one phase on |
| TcpRuns.RequestStep | src/kernel/net/net_tcp.c:210-217 | a request attempted at any moment is accepted exactly when the client is established, and then travels behind what is queued |
| TcpRuns.StepKeepsInv | src/kernel/net/net_tcp.c:113-217 | every delivery or request attempt keeps the protocol invariant |
| TcpRuns.WholeRun | src/kernel/net/net_tcp.c:113-217 | in every run from a connect: an established client implies the server left LISTEN, the server never sees the request before ESTABLISHED, and once the queue is empty after an accepted request the client holds the response exactly once with matching sequence numbers |
| TcpRuns.DrainSettles | src/kernel/net/net.c:21-27 | draining takes every phase to the quiet or the finished one |
| LoopbackRing.Loopback.Xmit | src/kernel/net/net_loopback.c:14-24 | appends the packet to the queue the ring holds, or drops it when empty, oversized or full |
| LoopbackRing.Loopback.Fetch | src/kernel/net/net_loopback.c:26-35 | takes the oldest packet, cut to the caller's buffer |
| LoopbackRing.Loopback.Clear | src/kernel/net/net_loopback.c:37-40 | empties the queue |
| RoundRobin.TicksAdvance | src/kernel/process/process.c:88-100 | k ticks move the turn k places round the ring |
| RoundRobin.TickMeans | src/kernel/process/process.c:88-100 | a tick stores the interrupted pointer with the process it preempts and resumes the next one round the ring with its own |
| RoundRobin.FirstRunMeans | src/kernel/process/process.c:124-130 | the start makes the process created last current and changes no saved pointer |
| RoundRobin.Fairness | src/kernel/process/process.c:88-100 | in any n consecutive ticks without a create, each of the n processes becomes current exactly once |
| RoundRobin.SavedKept | src/kernel/process/process.c:88-100 | a saved stack pointer changes only when its process is preempted |
| RoundRobin.ResumesWherePreempted | src/kernel/process/process.c:88-100 | a process resumes with the stack pointer of its last preemption, whatever ran in between, alone in the ring too |
| RoundRobin.ResumesInitially | src/kernel/process/process.c:68-130 | a process that never ran starts with its initial stack pointer, by a tick or as the first of all |
| Scheduler.ProcessTable.Create | src/kernel/process/process.c:68-86 | appends the next slot to the cycle with the next process number and its initial stack pointer, or changes nothing but the slot count when there is no slot or stack |
| Scheduler.ProcessTable.FirstRun | src/kernel/process/process.c:124-130 | the last process created becomes current, and the pointer returned is the one it was saved with |
| Scheduler.ProcessTable.Tick | src/kernel/process/process.c:88-100 | keeps one cycle with exactly one running process, the current one, and returns the next one's stack pointer |
| Transcript.RecordIsWrappedText | src/kernel/drivers/vga.c:51-77 | without carriage returns the transcript is the text broken at newlines and after 80 columns |
| Transcript.PutCharMeans | src/kernel/drivers/vga.c:51-71 | one character cell by cell: where it stands, with which colour, where the cursor goes, and when a row is added |
| Transcript.Overwritten | src/kernel/drivers/vga.c:59-71 | after a carriage return, up to 79 characters overwrite the front of the row; the cells behind them and all other rows stay |
| Console.ScrolledScreen | src/kernel/drivers/vga.c:40-49 | moving every row up and blanking the last shows the transcript one row further down |
| Console.WrittenScreen | src/kernel/drivers/vga.c:51-71 | storing one cell of the buffer is storing it in the transcript |
| Console.Vga.Clear | src/kernel/drivers/vga.c:25-32 | a blank screen, cursor home |
| Console.Vga.Scroll | src/kernel/drivers/vga.c:40-49 | the buffer loses its top row and gains a blank one; cursor at the start of the last row |
| Console.Vga.Putchar | src/kernel/drivers/vga.c:51-71 | the buffer stays the last 25 rows of the transcript after wraps, newlines and carriage returns, cursor inside the screen; a plain character changes the one buffer cell at the cursor, a carriage return none |
| Console.Vga.Write | src/kernel/drivers/vga.c:73-77 | the same for a whole string |

## Left out

- Mounting: the geometry is a parameter. Its validity predicates say what a formatted disk gives: regions in order, a FAT large enough, every cluster number below the bad and end marks, at least one sector in a cluster.
- ATA transfers never fail, except reads past the end of the disk during a directory search; sector and cluster numbers are unbounded integers, which agree with the code's arithmetic on a disk of at most 2^28 sectors, all that the 28 address bits of the driver reach.
- FatVolume.Volume.FreeChain: requires the walk from the start to stay inside the volume, over links that cross no sector boundary; a link past it would read and write outside the table.
- FatVolume.Volume.AllocChain: requires that its searches are sure of the entries they read, those with fewer than n free clusters below them; otherwise what it allocates depends on memory behind the buffer.
- FatVolume.Volume.StoreFile: requires the same of the allocation it makes.
- FatVolume.Volume.ReadFile: requires a walk whose links, up to the last cluster needed, stay inside the volume and cross no sector boundary, and which places at most 2^32 - 512 bytes; NoFatChain files are not followed.
- FatVolume.Volume.WriteBytes: requires the same of the walk it writes along; StoreFile and StoreData need no bound on the size.
- The FAT12/16 root directory: its slot type is larger than a slot, and the clearing after a write can hit a live neighbour.
- ExfatRoot.ExfatRoot.WriteRoot: requires that the chain of an existing file, which it frees by its FAT links, stays inside the volume and away from the root directory and the bitmap. The branches for records and entries that cross a sector are dead, 512 being a multiple of 4 and of 32, and so are those for names of more than 15 characters. The bitmap is taken as located.
- ExfatRoot.ExfatRoot.FindRoot: requires a search that ends; on a cycle of root clusters that never decides it the code does not terminate.
- ExfatRuns.RunServes: a name whose overwriting failed is not called again, for its entry then points at clusters of others or of no one. Names are ASCII.
- ExfatRuns.Save: requires that a new name goes to the end marker or nowhere, which holds over whole runs when the end marker is in the last root cluster; in another root a set can land behind the marker, where no search comes.
- ExfatRoot.AddedFileFound: the clusters in front of the insertion must be full and hold complete sets; the search stops at an end marker that the insertion may skip for lack of room.
- DoomHeap.Heap.Realloc: requires CopyGuard, the exact condition for the copy to stay inside the new block; past it the next header is overwritten.
- DoomHeap.Heap.Free: only for NULL or a pointer to a live block, as C requires. The Red Alert heap is the same algorithm and is covered by the region parameters.
- Minesweeper.Game.PlaceMines: takes a fuel bound, since the random loop need not end; what holds when it ends is proved. The generator's seeding from the timer is a parameter.
- PaintLine.Canvas.PaintLine: coordinates are unbounded integers; ErrSmall bounds the error term, so 32-bit arithmetic agrees for end points up to 2^28 apart.
- NetStack.NetChecksum16: no validity of IP and ICMP checksums is claimed; the function sums native words while its callers store high byte first.
- TcpRuns.WholeRun: no agreement on the server's receive number between the handshake and the first data, where the code acknowledges one too many.
- The ping command, interface setup and the unused reset sender of the network code.
- Scheduler.ProcessTable.Create: the initial stack frame is an opaque number; stack allocation failure is a parameter. Adding a process by hand to the run list is not modelled.
- Console.Vga.Write: decimal and hexadecimal printing are not modelled.
- Paths of the file system layer, the shell, the rest of the GUI, drivers, boot code and interrupt handling: hardware, wrappers or easy members.
