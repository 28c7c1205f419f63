# A verified model of the a3 file system

The repository's `a3/fs` directory holds a small file system in the manner of Pintos: a buffer cache over a disk
of 512-byte sectors, a bitmap of free sectors that is stored in a file of the very file system it serves, inodes
with direct, indirect and doubly indirect blocks, directories laid over inode bytes, a volume that is addressed by
file name, a defragmenter, and a doubly linked list with an in-place merge sort. This project models all of these
layers in Dafny, in the imperative form the C code has, and proves them correct against specifications on plain
sequences and maps.

## How the model is built

Each layer is proved against a value the layer above may rely on.

| file | models | what the layer above sees |
|---|---|---|
| Sectors.dfy | words, index blocks and on-disk inodes as bytes | encodings with inverses |
| BufferCache.dfy | cache.c | one logical disk, `seq<Sector>` |
| Bitmaps.dfy, FreeSpace.dfy | bitmap.c | a `seq<bool>` and its increasing list of clear bits, the free list |
| InodeTree.dfy, InodeMap.dfy, InodeGrowth.dfy, OutOfSpace.dfy | the index tree of inode.c | an inode's sectors as one sequence, in allocation order; what is left of it when space runs out |
| FileBytes.dfy | the byte loops of inode.c | a file as `seq<byte>` |
| FileSystem.dfy, Inodes.dfy, OpenInodes.dfy, FreeMapFile.dfy | inode.c, free-map.c | files that are written, extended, created and released |
| DirEntries.dfy, Directory.dfy | directory.c | a finite map from names to sectors |
| FileTable.dfy, VolumeState.dfy, Volumes.dfy, VolumeRuns.dfy | filesys.c | a map from names to byte strings with exact counts of free and leaked sectors, over whole runs |
| Defragmentation.dfy, VolumeCare.dfy | fsutil2.c | the same map, with the sectors of each file in a row; formatting, running and defragmenting end to end |
| ListOrder.dfy, Lists.dfy | list.c | a sequence of elements |

The central idea is that an inode's sectors (index blocks included) form one sequence in the order `inode_reserve`
allocates them, and that a successful reservation appends exactly the next stretch of the free list to it. One
predicate, `Sub`, says that a subtree of the index tree has a given stretch of that sequence. Point lookup,
reservation, release and enumeration are all proved against it, and sector accounting, the round trip of creation
and removal and the bound on gaps after defragmentation follow from it.

The allocator writes the bitmap to its own file through `inode_write_at`, which may call the allocator. The methods
are mutually recursive here too; that the recursion ends is the proof that writing the free map file never extends
it.

Functions that both the methods and their contracts use are pinned down by statements of their own that do not mention
them: where each byte of an inode, an index block and a directory entry lies, which bit of which byte of which sector
stands for a sector being in use (`FileSys.BitOnDisk`), how many sectors a number of bytes needs (`LeastSectors`) and
what they cost with their index blocks (`TreeSize`), what a read delivers byte by byte (`Delivers`), which sectors a
run of reads leaves in the cache (`AllStay`), and what counts as a gap between two sectors on the disk (`HasGap`).

Where the C code passes a pointer to an inode structure that is changed on the way, methods below the level of open
inodes take the structure as a value and return the new one; class `OpenInodes.Inode` holds it as a field. Buffers
are returned as sequences. Ghost parameters such as `nodes` and `data` say which sectors and bytes a caller means.

Three properties one might expect are false of the code, and the contracts say exactly when:

* `inode_reserve_indirect` does not check the allocation of an index block (inode.c:382). A reservation that runs out
  of space therefore overwrites sector 0, the free map's inode, with zeros exactly if the sector it could not have was
  to be an index block. Which sector that is follows from two numbers a caller knows: allocation follows the order of
  an inode's sectors, so it is number (sectors the inode has) + (free sectors), and `InodeMap.IsData` tells data from
  index positions. `FileSys.Reserve` states this if-and-only-if, `Volume.WriteAt` and `Volume.Create` carry it up, and
  `VolumeCare.OneByteTooMany` is an input: one byte past the end of a file of 123 full sectors on a full volume. In
  every such case the bytes of all files can still be read.
* A creation that fails because its name is invalid or taken gives back only the inode's sector. `Volume.Create` counts
  the sectors that leak, and `VolumeRuns.Run` states that a run leaks nothing exactly if each creation in it succeeds
  or is of an empty file.
* `defragment` does not keep every byte: `file_write` turns the last byte of what it writes into NUL (file.c:134).
  `Defragment` states that each file comes back with just that change, `SameIffTerminated` that nothing changes
  exactly if every last byte was NUL before, and `OneByteLost` gives a file that does change. Only `file_write_at` can
  make such a file, and `ShellKeepsNul` proves that a run without it, whose files are created nonempty, never does.

## Model

| member | source | states |
|---|---|---|
| Sectors.WordLayout | a3/fs/inode.c:383-399 | entry k of an index block lies at byte 4k, least significant byte first |
| Sectors.InodeLayout | a3/fs/inode.h:19-28 | where the pointers, the index blocks, the flag, the length and the magic number lie in an inode's sector, byte by byte |
| Sectors.InodeRoundTrip | a3/fs/inode.h:19-28 | the structure inode_create writes to its sector is the one inode_open reads back |
| Sectors.ZeroPtr | a3/fs/inode.c:365-384 | a sector of zeros is an index block without entries |
| BufferCache.Cache.constructor | a3/fs/cache.c:21-28 | an empty cache over a device, the hand at slot 0: the logical disk is the device |
| BufferCache.StopsAtUnique | a3/fs/cache.c:71-99 | where the clock hand stops, and how many slots it passes, is determined by the slots |
| BufferCache.FullRound | a3/fs/cache.c:71-86 | a slot that deserves a second chance is given up exactly if all 64 do, and then it is the one filled last, where the hand started |
| BufferCache.UsedIsCached | a3/fs/cache.c:101-138 | after a sector has been read or written it is cached with its reference bit set, and no other sector has entered the cache |
| BufferCache.AllStay | a3/fs/cache.c:71-138 | any reads and writes of at most 64 different sectors, starting on an empty cache, leave all of them cached |
| BufferCache.Cache.Flush | a3/fs/cache.c:31-38 | a dirty slot reaches the device and becomes clean; nothing else changes |
| BufferCache.Cache.Lookup | a3/fs/cache.c:53-63 | finds the slot holding a sector exactly if the sector is cached |
| BufferCache.Cache.Fetch | a3/fs/cache.c:102-113 | a hit changes nothing; a miss brings the sector, clean, into the slot where the hand stops |
| BufferCache.Cache.AdvanceHand | a3/fs/cache.c:71-86 | the hand moves on one slot at a time, modulo 64, and stops after at most one round at the first slot that is empty or unreferenced, else where it started; the reference bits of exactly the slots passed are cleared |
| BufferCache.Cache.Evict | a3/fs/cache.c:71-99 | the victim's contents reach the device before its slot is freed; no other sector of the device changes |
| BufferCache.Cache.Read | a3/fs/cache.c:101-117 | delivers the sector of the logical disk and changes nothing logically, whatever is evicted. On a hit only the reference bit of its slot is set and the device is not touched; on a miss the sector goes to the slot where the hand stops, and of the others exactly those passed lose their reference bits |
| BufferCache.Cache.Write | a3/fs/cache.c:120-138 | changes exactly one sector of the logical disk, whatever is evicted, and uses the cache as a read does |
| BufferCache.Cache.Close | a3/fs/cache.c:40-48 | afterwards the device is the logical disk |
| Bitmaps.MarkWordBit | a3/fs/bitmap.c:143-148 | setting a bit through its mask leaves the other bits of the word alone |
| Bitmaps.ResetWordBit | a3/fs/bitmap.c:151-156 | clearing a bit through its mask leaves the other bits of the word alone |
| Bitmaps.FlipWordBit | a3/fs/bitmap.c:161-166 | toggling a bit through its mask leaves the other bits of the word alone |
| Bitmaps.WordUpdate | a3/fs/bitmap.c:33-56 | updating one word this way updates one element of the sequence of booleans and no padding bit |
| Bitmaps.LastWordMasked | a3/fs/bitmap.c:53-56 | masking the last word clears the padding and none of the bits in use |
| Bitmaps.LeastWords | a3/fs/bitmap.c:43-49 | as many words as the bits need, and no fewer would do |
| Bitmaps.ImageRoundTrip | a3/fs/bitmap.c:288-304 | bitmap_read after bitmap_write restores the words |
| Bitmaps.ByteBit | a3/fs/bitmap.c:33-39 | bit 8k + j of a word is bit j of its k-th byte in memory |
| Bitmaps.WordsPacked | a3/fs/bitmap.c:288-296 | what bitmap_read makes of a file: bit s of the bitmap is set exactly if bit s % 8 of byte s / 8 is |
| Bitmaps.ImagePacked | a3/fs/bitmap.c:300-304 | what bitmap_write writes: bit s % 8 of byte s / 8 is set exactly if bit s of the bitmap is, and clear beyond the last bit |
| Bitmaps.Bitmap.constructor | a3/fs/bitmap.c:64-77 | a new bitmap has every bit clear |
| Bitmaps.Bitmap.Mark | a3/fs/bitmap.c:143-148 | sets one bit of the sequence |
| Bitmaps.Bitmap.Reset | a3/fs/bitmap.c:151-156 | clears one bit of the sequence |
| Bitmaps.Bitmap.Flip | a3/fs/bitmap.c:161-166 | toggles one bit of the sequence |
| Bitmaps.Bitmap.Test | a3/fs/bitmap.c:169-173 | reads one bit of the sequence |
| Bitmaps.Bitmap.SetMultiple | a3/fs/bitmap.c:185-195 | sets exactly the bits of a range |
| Bitmaps.Bitmap.Count | a3/fs/bitmap.c:199-212 | counts the bits of a range with a given value |
| Bitmaps.TallyIsSize | a3/fs/bitmap.c:199-212 | the count is the number of positions in the range whose bit has the value |
| Bitmaps.Bitmap.Contains | a3/fs/bitmap.c:216-228 | true exactly if the range is not all of the other value |
| Bitmaps.Bitmap.Scan | a3/fs/bitmap.c:253-266 | the least start of a run of equal bits; the error value exactly if there is no such run |
| Bitmaps.Bitmap.ScanAndFlip | a3/fs/bitmap.c:273-279 | the run found is flipped and nothing else; on error nothing changes |
| Bitmaps.Bitmap.Load | a3/fs/bitmap.c:288-296 | the bitmap is what the file's bytes say, bit s % 8 of byte s / 8 for bit s; padding bits clear |
| FreeSpace.FirstFree | a3/fs/bitmap.c:253-279 | first fit takes the head of the increasing list of free sectors and leaves its tail |
| FreeSpace.ClearUndoesTake | a3/fs/free-map.c:31-48 | releasing what was taken from the free list restores the bitmap, bit for bit |
| FreeSpace.FreeAfterClear | a3/fs/free-map.c:44-48 | releasing distinct sectors in use frees one sector each |
| FreeSpace.FreeSuffix | a3/fs/bitmap.c:253-266 | if the free sectors are the last ones of the device, first fit hands them out in a row |
| InodeMap.LookupIsNode | a3/fs/inode.c:28-75 | index_to_sector finds each data sector at its place in the allocation order, nonzero and on the device |
| InodeMap.InodeCostClosedForm | a3/fs/inode.c:360-447 | an inode with n data sectors owns n + [n > 123] + [n > 251] * (1 + ceil((n - 251) / 128)) sectors besides its own |
| InodeMap.SectorsOfBytes | a3/fs/inode.c:20-24 | bytes_to_sectors is the one number of sectors that hold the bytes while one fewer does not |
| InodeMap.CostOfBytes | a3/fs/inode.c:406-447 | what a file costs, in closed form of the least number of sectors that hold its bytes |
| InodeMap.DataPosGap | a3/fs/inode.c:379-447 | consecutive data sectors are 1, 2 or 3 places apart in the allocation order, 3 only on entering the doubly indirect tree |
| InodeTree.SubFrame | a3/fs/inode.c:360-401 | the shape of a subtree depends on its index blocks only |
| InodeTree.ProgressStep | a3/fs/inode.c:389-394 | growing one entry of an index block by the next free sectors leaves the other entries' subtrees and data as they are |
| InodeTree.ProgressDone | a3/fs/inode.c:389-400 | after the last entry, writing the block back completes the grown subtree |
| InodeGrowth.PhaseStep | a3/fs/inode.c:414-446 | the direct, indirect and doubly indirect phases of a reservation compose |
| OutOfSpace.StageRanOut | a3/fs/inode.c:389-394 | where in the allocation order a subtree got stuck when one of its entries could not be completed, and what has been written by then |
| OutOfSpace.LookupKept | a3/fs/inode.c:360-401 | whatever a failed reservation did, every data sector is still found where it was, with its contents |
| OutOfSpace.KeptReads | a3/fs/inode.c:360-447 | a file reads as before through its inode on the disk and through the one in memory, however far a failed reservation got |
| OutOfSpace.SectorZero | a3/fs/inode.c:379-385 | after a failed reservation sector 0 is all zeros if the sector that could not be had was to be an index block, and untouched otherwise |
| FileBytes.ReservedLookups | a3/fs/inode.c:360-447 | after a reservation every index finds a sector of its own; the earlier ones find what they found with its contents, the new ones zeros |
| FileBytes.SpliceBytes | a3/fs/inode.c:253-327 | a write byte by byte: the buffer where it goes, else the old byte, else zero; the file never gets shorter |
| FileBytes.ByteOnDisk | a3/fs/inode.c:81-89 | byte i of a file is byte i % 512 of the sector that point lookup finds for i / 512 |
| FileBytes.WriteStep | a3/fs/inode.c:278-322 | one turn of the write loop writes its chunk and no other byte and no index block |
| FileBytes.WrittenStores | a3/fs/inode.c:253-327 | the write loop as a whole splices the buffer into the file's bytes |
| FileBytes.RegrownWritten | a3/fs/inode.c:263-327 | extending and then writing gives the old bytes, zeros up to the offset, then the buffer |
| FileBytes.FileFrame | a3/fs/inode.c:253-327 | a file none of whose sectors is written keeps its inode and bytes |
| FileSystem.NewFreeMap | a3/fs/free-map.c:13-20 | one bit per sector; exactly the sectors of the free map's and the root's inodes are in use |
| FileSystem.GrowthOfBytes | a3/fs/inode.c:406-447 | what growing from one length to another costs, in closed form of the least numbers of sectors that hold the bytes |
| FileSystem.ReadOn | a3/fs/inode.c:201-247 | reading n bytes and then m from where that stopped delivers what reading n + m does |
| FileSystem.FileSys.constructor | a3/fs/filesys.c:19-30 | the free map covers all sectors but the last, and the logical disk is the device |
| FileSystem.FileSys.IndexToSector | a3/fs/inode.c:28-75 | reads the index blocks through the cache and finds what the disk says |
| FileSystem.FileSys.ByteToSector | a3/fs/inode.c:81-89 | the data sector of a byte of the file, and the error value outside it |
| FileSystem.FileSys.ReadAt | a3/fs/inode.c:201-247 | delivers the file's bytes from the offset on: as many as asked for or as there are up to the end of the file, whichever is less, each the byte at its place |
| FileSystem.FileSys.WriteLoop | a3/fs/inode.c:278-327 | writes the whole buffer and changes no other byte |
| FileSystem.FileSys.BitmapWrite | a3/fs/bitmap.c:300-304 | after it the free map file holds the bitmap, bit s in bit s % 8 of byte s / 8 and zeros beyond the last bit; if writes are denied it fails and changes nothing |
| FileSystem.FileSys.Allocate | a3/fs/free-map.c:31-42 | takes the lowest run of free sectors, and leaves the free map file equal to the bitmap, bit by bit; fails exactly if there is no run or the file cannot be written, and then the bitmap is as before |
| FileSystem.FileSys.BitOnDisk | a3/fs/free-map.c:31-48 | while the free map file is open, sector s is in use exactly if bit s % 8 is set in byte s / 8 % 512 of the sector that point lookup finds for s / 4096 in the file |
| FileSystem.FileSys.Release | a3/fs/free-map.c:44-48 | the assertion that the sectors are in use holds, exactly they become free, and the free map file is brought up to date, bit by bit |
| FileSystem.FileSys.WriteAt | a3/fs/inode.c:253-327 | within the file: no allocation, bytes spliced. Beyond it: succeeds exactly if the difference of the two sector costs is free, takes the lowest free sectors, pads with zeros; otherwise returns 0, nothing is free, and the file reads as before. An empty write at offset 0 sets the length to 0 and frees nothing |
| FileSystem.FileSys.Extend | a3/fs/inode.c:263-274 | reserves, records the new length and writes the inode back; the new bytes are zero. If it fails, the inode on the disk is as it was and the file reads as before |
| FileSystem.FileSys.ReserveIndirect | a3/fs/inode.c:360-401 | a subtree grows to a number of data sectors by the next free sectors in order, keeping its data and adding zeros; succeeds exactly if there are enough. If not, every free sector has been taken, no set pointer and no data sector has changed, and sector 0 is zeroed exactly if an index block was next |
| FileSystem.FileSys.IndexBlock | a3/fs/inode.c:379-385 | a missing index block is the lowest free sector, zeroed; with no sector free, zeros overwrite sector 0 |
| FileSystem.FileSys.Reserve | a3/fs/inode.c:406-447 | the whole inode grows by the next free sectors in order, to the least number of data sectors that hold the length and the index blocks for them; succeeds exactly if the difference of the two costs is free. If it fails, sector 0 is all zeros exactly if the inode's sectors and the free ones together reach an index-block position, and is untouched otherwise |
| Inodes.DeallocateIndirect | a3/fs/inode.c:449-473 | every sector of a subtree becomes free, each released once, and no others |
| Inodes.Deallocate | a3/fs/inode.c:475-508 | exactly the data and index sectors of the inode become free |
| Inodes.CreateInode | a3/fs/inode.c:103-125 | a file of zero bytes in the lowest free sectors: the free list falls by the closed form of the least n with length <= 512 n, and creation succeeds exactly if there are that many. If not, nothing is free and only free sectors, and sector 0 exactly if an index block was next, have been written |
| Inodes.GetDataSectors | a3/fs/inode.c:510-579 | lists the data sectors in order: at every index the sector that point lookup finds |
| Inodes.ListedLookups | a3/fs/inode.c:510-579 | enumeration and point lookup describe the same tree |
| OpenInodes.CreateThenRemove | a3/fs/inode.c:103-191 | creating an inode, opening it and closing it as removed gives back all its sectors: the bitmap is what it was but for the inode's own sector, which is free too |
| OpenInodes.AllocateThenRemove | a3/fs/inode.c:103-191 | with the inode's sector allocated first, the bitmap is restored bit for bit |
| OpenInodes.Inode.constructor | a3/fs/inode.c:130-158 | the inode in memory is the one on the disk |
| OpenInodes.Inode.ReadAt | a3/fs/inode.c:201-247 | the bytes of the file asked for, as many as there are up to its end |
| OpenInodes.Inode.WriteAt | a3/fs/inode.c:253-327 | the buffer spliced into the bytes, in memory and on disk alike, within the space the costs say; without the space nothing is written and the bytes read as before; nothing at all if writes are denied |
| OpenInodes.Inode.Close | a3/fs/inode.c:171-189 | a removed inode gives back its own sector and its tree's, each once; otherwise nothing changes |
| FreeMapFile.FreeMapCreate | a3/fs/free-map.c:64-77 | the free map's file in the lowest free sectors, holding the bitmap bit by bit, its own sectors in use in it |
| FreeMapFile.FreeMapOpen | a3/fs/free-map.c:51-57 | the bitmap becomes the one the file holds, bit s from bit s % 8 of byte s / 8 |
| FreeMapFile.NumFreeSectors | a3/fs/free-map.c:22-24 | the length of the free list |
| DirEntries.EntryLayout | a3/fs/directory.h:22-26 | the entry's sector in bytes 0 to 3, its name in bytes 4 to 34, its flag in byte 35 |
| DirEntries.NewEntryLayout | a3/fs/directory.c:291-295 | the bytes dir_add writes: the sector, the name, NULs to the end of the name field, and the flag |
| DirEntries.CStringEnds | a3/fs/directory.c:179-198 | strcmp sees the bytes before the first NUL |
| DirEntries.EntryRoundTrip | a3/fs/directory.h:22-26 | an entry written as 36 bytes is read back |
| DirEntries.NameRoundTrip | a3/fs/directory.c:291-294 | a name of 1 to 30 characters survives strncpy and strcmp |
| DirEntries.SlotsAfterPut | a3/fs/directory.c:291-295 | writing a slot changes that slot only, whichever sectors it straddles |
| DirEntries.EntriesAre | a3/fs/directory.c:179-198 | the map holds exactly the names of the in-use slots from 1 on, with their sectors |
| DirEntries.EntryAdded | a3/fs/directory.c:247-299 | filling a free slot, or one at the end, inserts into the map and keeps names distinct |
| DirEntries.EntryRemoved | a3/fs/directory.c:305-346 | clearing a slot's flag deletes from the map |
| DirEntries.ListingComplete | a3/fs/directory.c:351-362 | from a fresh position the listing has every in-use name exactly once |
| Directory.SlotZeroUsed | a3/fs/directory.c:283-289 | the parent's slot 0 is never taken for a new entry |
| Directory.FullDirectory | a3/fs/directory.c:283-295 | there is no free slot exactly if there is a name for every slot but the parent's |
| Directory.EntryGrowth | a3/fs/directory.c:283-295 | one more entry costs nothing while there is a free slot, and one slot's growth if there is none |
| Directory.DirGrowthBound | a3/fs/directory.c:283-295 | one more entry costs a directory at most three sectors |
| Directory.Dir.Lookup | a3/fs/directory.c:179-198 | finds a name exactly if it is in the map, with its slot and sector |
| Directory.Dir.IsEmpty | a3/fs/directory.c:201-212 | true exactly if the map is empty |
| Directory.Dir.Add | a3/fs/directory.c:247-299 | for a file: succeeds exactly for a valid new name for which there is space, which goes to the first free slot, growing the directory if there is none. For a name that is invalid or taken nothing changes; without space the directory reads as before |
| Directory.Dir.Remove | a3/fs/directory.c:305-346 | succeeds exactly for a name in the map; the name goes, and all the file's sectors become free |
| Directory.Dir.ReadDir | a3/fs/directory.c:351-362 | delivers the next in-use name in slot order and moves just past it; every slot passed over is free |
| Directory.NewDirectoryEmpty | a3/fs/directory.c:52-75 | a new directory is in order, refers to its own sector in the parent's slot and lists nothing |
| Directory.DirCreate | a3/fs/directory.c:52-75 | creates it, exactly if there is space |
| FileTable.TableGrown | a3/fs/inode.c:253-327 | when a file grows or appears, all files still own disjoint sectors in use and no other file changes |
| FileTable.TableDropped | a3/fs/directory.c:305-346 | when a file is removed, the others keep their sectors and bytes |
| FileTable.LeakedGrown | a3/fs/inode.c:406-447 | growing a file leaks no sector and recovers none |
| FileTable.LeakedDropped | a3/fs/inode.c:475-508 | removing a file leaks no sector and recovers none |
| FileTable.LeakedAbandoned | a3/fs/filesys.c:83-84 | a file whose directory entry could not be made leaks exactly its tree's sectors |
| FileTable.ExhaustedReadable | a3/fs/inode.c:406-447 | a reservation that runs out of space, for a new file or an old one, leaves every file of the volume readable |
| VolumeState.FileCreated | a3/fs/filesys.c:54-92 | a new directory entry for a new inode is a new name in the map of files |
| VolumeState.FileRemoved | a3/fs/filesys.c:128-138 | deleting the entry and dropping the inode removes the name and no other |
| Volumes.Volume.Format | a3/fs/filesys.c:155-162 | an empty volume whose free map and root directory come first on the device; succeeds exactly if there is space |
| Volumes.Volume.Mount | a3/fs/filesys.c:20-38 | the files are the ones stored on the device |
| Volumes.Volume.Done | a3/fs/filesys.c:41-45 | the device holds the volume |
| Volumes.Volume.Create | a3/fs/filesys.c:54-92 | adds a zero-filled file exactly for a valid new name for which there is space, using the lowest free sectors in order: one for the inode, the closed form of the least n with size <= 512 n, and what the root directory grows by. A name that is invalid or taken: the files stay, and the failed file's tree leaks. Too little space: no file appears, all files read as before, and sector 0 is zeroed exactly if an index block was next |
| Volumes.Volume.Open | a3/fs/filesys.c:95-123 | opens the file of that name, exactly if there is one |
| Volumes.Volume.ReadAt | a3/fs/file.c:120-123 | the bytes of the named file from the offset on, as many as asked for or as there are up to its end |
| Volumes.Volume.WriteAt | a3/fs/file.c:147-150 | with space for it: splices into the named file, no other file changes, and the free list shrinks by the difference of the closed-form costs of its lengths before and after. Without: returns 0, every file reads as before, and sector 0 is zeroed exactly if an index block was next |
| Volumes.Volume.Write | a3/fs/file.c:133-138 | the same from a given position, with the last byte of the buffer made NUL |
| Volumes.Volume.Remove | a3/fs/filesys.c:128-138 | deletes exactly that name, and frees exactly its file's sectors |
| VolumeRuns.NewVolume | a3/fs/filesys.c:20-38 | formatting any device large enough gives an empty volume of 1000 directory slots with all other sectors free and none unaccounted for, and fails on any other |
| VolumeRuns.Step | a3/fs/filesys.c:54-138 | one creation, read, write or removal that has room: the files, the number of free sectors, of directory slots and of leaked sectors are what the operation makes of them, and it reports what it should |
| VolumeRuns.Run | a3/fs/filesys.c:54-138 | the same for any sequence of operations that each have room when their turn comes, space given back by removals included; nothing leaks exactly if each creation succeeds or is of an empty file |
| VolumeRuns.ReadReports | a3/fs/fsutil.c:96-105 | what a read in a run reports: the bytes of the named file from the offset to the end of the request or of the file |
| VolumeRuns.ReadTwice | a3/fs/inode.c:201-247 | two reads in a row, the second from where the first stopped, deliver what one read of both sizes does |
| VolumeRuns.ReadAfterWrite | a3/fs/inode.c:201-327 | a read after a write finds the buffer where it was written, the old bytes around it, zeros in a gap before it, and every other file as it was |
| VolumeRuns.NothingLeaks | a3/fs/filesys.c:83-84 | in any run, what has leaked stays leaked, and exactly the abandoned nonempty creations leak more |
| VolumeRuns.Conserved | a3/fs/free-map.c:22-48 | in any run, free sectors, leaked sectors, the files' and the directory's add up to the same number |
| VolumeRuns.CreateRemove | a3/fs/filesys.c:54-138 | removing a file just created undoes the creation but for the growth of a full directory |
| VolumeRuns.ShellKeepsNul | a3/fs/file.c:133-138 | whatever a shell does that creates nonempty files and writes through file_write, every file ends in NUL |
| VolumeRuns.Remount | a3/fs/filesys.c:20-45 | shutting down and starting again on the same device keeps every file, the bitmap and what has leaked |
| Defragmentation.SavingStep | a3/fs/fsutil2.c:196-236 | removing the file just listed does not disturb the rest of the listing |
| Defragmentation.RestoredStep | a3/fs/fsutil2.c:240-250 | the files put back so far lie in consecutive stretches of the free list |
| Defragmentation.Defragment | a3/fs/fsutil2.c:188-254 | succeeds without running out of space; same names, lengths and bytes but for each last byte, as many free sectors as before, the same sectors leaked and the same root directory's; the files lie on the device in the order in which the directory listed them, each file's sectors in a row if nothing has leaked and the free map and the root come first |
| Defragmentation.SameIffTerminated | a3/fs/file.c:133-138 | a defragmentation keeps every byte exactly if every file ended in NUL before it |
| Defragmentation.OneByteLost | a3/fs/file.c:133-138 | the smallest file that comes back changed |
| Defragmentation.FragmentedIsGap | a3/fs/fsutil2.c:139-158 | a file counts as fragmented exactly if point lookup finds two neighbouring full sectors more than three apart, the later one higher |
| Defragmentation.ThreeSectors | a3/fs/fsutil2.c:139-158 | a file of 1536 bytes is fragmented exactly if its second or third sector is more than three above the one before; sectors 10, 20, 30 are an example |
| Defragmentation.GapIsCounted | a3/fs/fsutil2.c:139-158 | the number of fragmented files is not zero exactly if some file has such a gap |
| Defragmentation.InARowNotFragmented | a3/fs/fsutil2.c:139-158 | a file whose sectors are in a row has no gap above three |
| Defragmentation.FragmentationDegree | a3/fs/fsutil2.c:124-177 | the number of files of at least 1024 bytes, and the number of files with a gap of more than three between neighbouring full sectors, as sets over the disk; the latter is 0 once every file's sectors are in a row |
| VolumeCare.DefragmentedSame | a3/fs/file.c:133-138 | where every file ends in NUL, defragmentation keeps every byte |
| VolumeCare.DefragmentAndCount | a3/fs/fsutil2.c:124-254 | defragmenting a volume whose system sectors come first and from which nothing has leaked leaves no file that counts as fragmented, neither in the report nor on the disk, and the system sectors still come first |
| VolumeCare.FormatRunDefragment | a3/fs/fsutil2.c:124-254 | formatting, any run with room in which the root directory need not grow and no creation is abandoned, then defragmenting: the run's files but for their last bytes (exactly the run's files, if it was a shell's), as many free sectors, no file fragmented |
| VolumeCare.OneByteTooMany | a3/fs/inode.c:379-385 | on a full volume, one byte written past the end of a file of 123 full sectors zeroes the free map's inode, and the volume is no longer in order |
| ListOrder.RunsOfJoined | a3/fs/list.c:345-376 | putting a sorted run in front of a list adds at most one run |
| ListOrder.MergeOrdered | a3/fs/list.c:323-340 | merging two ordered ranges gives an ordered one |
| ListOrder.MergeStable | a3/fs/list.c:323-340 | equivalent elements keep their order in a merge |
| ListOrder.OutputIsHalf | a3/fs/list.c:353-373 | a pass puts out one run for every two it finds, rounded up |
| ListOrder.PassHalves | a3/fs/list.c:353-373 | a pass leaves no more runs than it puts out |
| ListOrder.PassBound | a3/fs/list.c:345-376 | more than one run to put out after p passes means more than 2^p runs at first |
| ListOrder.KeptAreFirsts | a3/fs/list.c:399-416 | an element stays exactly if it is the first or not equivalent to the one right before it; those that stay and those that go keep their order |
| ListOrder.KeptIncreases | a3/fs/list.c:399-416 | on a sorted list what list_unique leaves increases strictly |
| ListOrder.KeptRepresents | a3/fs/list.c:399-416 | every element has an equivalent one among those left |
| ListOrder.KeptAndDropped | a3/fs/list.c:399-416 | the elements left and those removed are together the original ones |
| Lists.Insert | a3/fs/list.c:144-152 | the element is linked in just before the given one, in both directions |
| Lists.Remove | a3/fs/list.c:216-221 | exactly that element leaves, and the one after it is returned |
| Lists.Splice | a3/fs/list.c:157-176 | exactly the range moves, in order, to just before an element outside it |
| Lists.RelocatedParts | a3/fs/list.c:157-176 | after splicing, the stretch lies in its order just before the given element and the rest in its order around it |
| Lists.SpliceInto | a3/fs/list.c:157-176 | the same from one list into another |
| Lists.FindEndOfRun | a3/fs/list.c:304-316 | the end of the longest ordered run from the given element |
| Lists.InplaceMerge | a3/fs/list.c:323-340 | the two ranges become their merge by relinking alone; the rest of the list stays |
| Lists.SortPass | a3/fs/list.c:353-373 | neighbouring runs are merged in pairs, and the runs put out are counted |
| Lists.List.Sort | a3/fs/list.c:345-376 | for any strict weak order: terminates, sorted, same elements, equivalent ones in their old order, and at most k passes for up to 2^k runs (but always one) |
| Lists.List.InsertOrdered | a3/fs/list.c:381-394 | goes before the first greater element; a sorted list stays sorted |
| Lists.List.Reverse | a3/fs/list.c:277-286 | exactly the reversed sequence, well linked in both directions |
| Lists.List.Unique | a3/fs/list.c:399-416 | of neighbouring equivalent elements the first stays; the others are appended to the other list in order: exactly the elements equivalent to the one right before them |

## Left out

- Handle lifetimes: `inode_reopen` does not count openers (inode.c:161) and closing any directory clears `cwd` (directory.c:164), so inodes are opened afresh by sector. The one handle that stays open across removals is the listing in `Defragmentation.SaveWithHandle`; there the model says what is intended, while in the code the directory closed by each removal frees the inode that the listing shares (directory.c:162, inode.c:177).
- Volumes.Volume.Create: a directory at the largest file size cannot be asked to grow; the source would run into the assertion at inode.c:445.
- VolumeRuns.Run: asks for room for each operation when its turn comes. What a single operation does without room is stated by `Volumes.Volume.Create` and `Volumes.Volume.WriteAt`; a volume after that (sector 0 lost, or an index block with pointers beyond the file's end) is not followed further.
- Defragmentation.Defragment: asks for plain names under 30 characters and files that are not empty. A name of 30 characters is copied without its terminator, and `file_write` of no bytes stores a NUL before its buffer, so what the code does then is undefined.
- Volumes.Volume.Open: names "." and ".." are looked up as directories and are not files here.
- Names with "/" in them: `split_path_filename` (directory.c:17-48) would cut off all but the last part, so `Create`, `Open`, `Remove` and the reads and writes ask for names without it.
- The position a file is read and written at: `file_write` moves it by two less than it wrote (file.c:136), so offsets are explicit.
- Directory.Dir.Add: the `is_dir` branch, which no caller takes: files are only ever created with `is_dir` false (fsutil.c:81).
- Directory.Dir.Remove: names of subdirectories, of which there are none for the same reason; `dir_remove` would go on using the inode after closing it (directory.c:325-340).
- Path walking and directories below the root.
- The first turn of `fragmentation_degree`, which uses a name that was never set, and its printed percentage.
- Negative lengths and offsets, sector numbers beyond 2^31, failing `malloc` and the host's files.
- `recover`, `recover_past_end`, `copy_in`, `copy_out`, `find_file` and other host or terminal output.
- `list_max`, `list_min`, `list_size` and the accessors of list.c: easy members.
- The memset branch of `inode_write_at` (inode.c:313): no chunk reaches it, since a chunk that starts a sector and fills it is written directly.
- The rest of the repository: shells, schedulers, paging, the network client and the block device driver.
