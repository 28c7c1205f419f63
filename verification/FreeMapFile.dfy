/** The free map's own file: created, read back and closed (a3/fs/free-map.c). */
module FreeMapFile {
  import opened Sectors
  import opened InodeTree
  import opened InodeMap
  import opened FileBytes
  import opened FreeSpace
  import opened BufferCache
  import opened Bitmaps
  import opened FileSystem
  import opened Inodes

  const FREE_MAP_SECTOR: nat := 0

  /** bitmap_file_size: the bitmap's bytes, in whole words. */
  function MapFileSize(bitCnt: nat): nat {
    8 * ElemCnt(bitCnt)
  }

  /** The new free map file's sectors come from the free list, so its writes are not theirs. */
  lemma TakenSectors(disk: seq<Sector>, bits0: seq<bool>, bits: seq<bool>, nodes: seq<nat>, k: nat, log: seq<nat>)
    requires Fits(disk, Free(bits0), log) && k <= |Free(bits0)| && |bits| == |bits0|
    requires nodes == Free(bits0)[..k] && Free(bits) == Free(bits0)[k..]
    ensures Distinct(nodes) && Marked(bits, nodes) && 0 !in nodes && forall s | s in nodes :: s !in log
    ensures forall x | 0 <= x < |bits| :: bits[x] <==> bits0[x] || x in nodes
  {
    ClearUndoesTake(bits0, bits, k);
    hide Free;
    assert forall i | 0 <= i < k :: nodes[i] == Free(bits0)[i];
  }

  /** free_map_create. */
  method FreeMapCreate(fs: FileSys) returns (ok: bool)
    requires fs.Wf() && !fs.mapOpen && fs.MapReady()
    requires MapFileSize(fs.freeMap.bitCnt) <= SECTOR_SIZE * MAX_SECTORS
    modifies fs, fs.cache, fs.cache.device, fs.cache.slots, fs.freeMap.words
    ensures fs.Wf()
    ensures ok <==> InodeCost(BytesToSectors(MapFileSize(fs.freeMap.bitCnt))) <= |old(fs.FreeList())|
    ensures ok ==>
              && fs.mapOpen && fs.MapReady() && fs.mapBytes == Image(fs.freeMap.words[..])
              && FileAt(fs.Disk(), FREE_MAP_SECTOR, fs.mapInode, fs.mapNodes, fs.mapBytes)
              && fs.mapNodes + fs.FreeList() == old(fs.FreeList())
              && |fs.mapNodes| == InodeCost(BytesToSectors(MapFileSize(fs.freeMap.bitCnt)))
              && Packed(fs.Bits(), fs.mapBytes)
  {
    hide Cache.Valid, Bitmap.Valid, Bitmap.Bits, Free, Marked, Distinct, FileAt, Regrown, InodeCost, Image, Words, BitsOf, SameExcept, Fits,
         BytesToSectors, EmptyInode, Packed;
    FreshVolume(fs);
    ghost var d, nodes;
    ok, d, nodes := CreateInode(fs, FREE_MAP_SECTOR, MapFileSize(fs.freeMap.bitCnt), false);
    if !ok {
      return;
    }
    assert [] + nodes == nodes;
    RegrownFile(old(fs.Disk()), fs.Disk(), old(fs.FreeList()), fs.FreeList(), FREE_MAP_SECTOR, EmptyInode(MapFileSize(fs.freeMap.bitCnt), false), d,
                [], nodes, InodeCost(BytesToSectors(MapFileSize(fs.freeMap.bitCnt))), Zeros(MapFileSize(fs.freeMap.bitCnt)), fs.mapNodes);
    TakenSectors(old(fs.Disk()), old(fs.Bits()), fs.Bits(), nodes, |nodes|, []);
    SaveNewMap(fs, d, nodes);
    TakeDrop(old(fs.FreeList()), |nodes|);
  }

  /** A new free map file is opened; it does not hold the bitmap yet. */
  method AttachNew(fs: FileSys, inode: InodeDisk, ghost nodes: seq<nat>, ghost bytes: seq<byte>)
    requires fs.Wf() && FileAt(fs.Disk(), FREE_MAP_SECTOR, inode, nodes, bytes)
    requires |bytes| == MapFileSize(fs.freeMap.bitCnt) <= SECTOR_SIZE * MAX_SECTORS && fs.Owned(nodes) && 0 !in nodes
    modifies fs
    ensures fs.Wf() && fs.mapOpen && fs.MapFileOk() && fs.mapDenyCnt == 0
    ensures fs.mapInode == inode && fs.mapNodes == nodes && fs.mapBytes == bytes
    ensures fs.Bits() == old(fs.Bits()) && fs.Disk() == old(fs.Disk())
  {
    hide Cache.Valid, Bitmap.Valid, Bitmap.Bits, Free, Holds, Marked, Distinct;
    fs.mapOpen, fs.mapInode, fs.mapDenyCnt := true, inode, 0;
    fs.mapNodes, fs.mapBytes := nodes, bytes;
  }

  /** The last steps of free_map_create: the new file is opened and the bitmap written to it. */
  method SaveNewMap(fs: FileSys, ghost d: InodeDisk, ghost nodes: seq<nat>)
    requires fs.Wf() && FileAt(fs.Disk(), FREE_MAP_SECTOR, d, nodes, Zeros(MapFileSize(fs.freeMap.bitCnt)))
    requires MapFileSize(fs.freeMap.bitCnt) <= SECTOR_SIZE * MAX_SECTORS
    requires fs.Owned(nodes) && 0 !in nodes
    modifies fs, fs.cache, fs.cache.device, fs.cache.slots
    ensures fs.Wf() && fs.mapOpen && fs.MapReady() && fs.mapNodes == nodes && fs.mapBytes == Image(fs.freeMap.words[..])
    ensures Packed(fs.Bits(), fs.mapBytes)
    ensures FileAt(fs.Disk(), FREE_MAP_SECTOR, fs.mapInode, fs.mapNodes, fs.mapBytes)
  {
    hide Cache.Valid, Bitmap.Valid, Bitmap.Bits, Free, Marked, Distinct, Holds, Image, Words, BitsOf, SameExcept, FileSys.MapSaved,
         FileSys.MapSized, Packed, BitOfByte;
    ghost var disk1 := fs.Disk();
    var block := fs.ReadBlock(FREE_MAP_SECTOR);
    AttachNew(fs, DecodeInode(block), nodes, Zeros(MapFileSize(fs.freeMap.bitCnt)));
    var saved := fs.BitmapWrite();
    SameAt(disk1, fs.Disk(), [], nodes, FREE_MAP_SECTOR);
  }

  lemma SameAt(disk: seq<Sector>, disk': seq<Sector>, own: seq<nat>, log: seq<nat>, s: nat)
    requires SameExcept(disk, disk', own, log) && s < |disk| && s !in own && s !in log
    ensures s < |disk'| && disk'[s] == disk[s]
  {
  }

  /** With no free map file open, the first inode may be created in the free map's sector. */
  lemma FreshVolume(fs: FileSys)
    requires fs.Wf() && !fs.mapOpen && fs.MapReady()
    ensures fs.Growable([]) && fs.OwnSector(FREE_MAP_SECTOR, [])
    ensures Fits(fs.Disk(), fs.FreeList(), [])
  {
    hide Cache.Valid, Bitmap.Valid, Bitmap.Bits, Free;
    FitsFromMarked(fs.Disk(), fs.Bits(), [], []);
    FreeMembers(fs.Bits());
    assert [] + fs.FreeList() == fs.FreeList();
  }

  /** The bits a stored bitmap of `bitCnt` bits stands for. */
  ghost function StoredBits(bytes: seq<byte>, bitCnt: nat): (bits: seq<bool>)
    requires |bytes| == MapFileSize(bitCnt)
    ensures |bits| == bitCnt
  {
    BitsOf(Words(bytes), bitCnt)
  }

  lemma StoredPacked(bytes: seq<byte>, bitCnt: nat)
    requires |bytes| == MapFileSize(bitCnt)
    ensures Packed(StoredBits(bytes, bitCnt), bytes)
  {
    hide Words, BitsOf, Packed;
    WordsPacked(bytes, bitCnt);
  }

  /** A free map file on the disk: its own sectors are in use according to itself. */
  ghost predicate StoredMap(disk: seq<Sector>, bitCnt: nat, d: InodeDisk, nodes: seq<nat>, bytes: seq<byte>) {
    && FileAt(disk, FREE_MAP_SECTOR, d, nodes, bytes)
    && |bytes| == MapFileSize(bitCnt) <= SECTOR_SIZE * MAX_SECTORS
    && Distinct(nodes) && 0 !in nodes && Marked(StoredBits(bytes, bitCnt), [0] + nodes)
  }

  /** bitmap_read into the free map. */
  method BitmapRead(fs: FileSys, bytes: seq<byte>)
    requires fs.Wf() && |bytes| == MapFileSize(fs.freeMap.bitCnt) && StoredBits(bytes, fs.freeMap.bitCnt)[0]
    modifies fs.freeMap.words
    ensures fs.Wf() && |bytes| == MapFileSize(fs.freeMap.bitCnt) && fs.Bits() == StoredBits(bytes, fs.freeMap.bitCnt)
  {
    hide Cache.Valid, Free, Words, BitsOf, Padded, Packed;
    fs.freeMap.Load(bytes);
  }

  /** free_map_open: the bitmap is what the file says. */
  method FreeMapOpen(fs: FileSys, ghost d: InodeDisk, ghost nodes: seq<nat>, ghost bytes: seq<byte>)
    requires fs.Wf() && !fs.mapOpen && StoredMap(fs.Disk(), fs.freeMap.bitCnt, d, nodes, bytes)
    modifies fs, fs.cache`clock, fs.cache.device, fs.cache.slots, fs.freeMap.words
    ensures fs.Wf() && fs.mapOpen && fs.MapReady()
    ensures fs.mapInode == d && fs.mapNodes == nodes && fs.mapBytes == bytes
    ensures |bytes| == MapFileSize(fs.freeMap.bitCnt) && fs.Bits() == StoredBits(bytes, fs.freeMap.bitCnt)
    ensures Packed(fs.Bits(), bytes)
    ensures fs.Disk() == old(fs.Disk())
  {
    hide Cache.Valid, Bitmap.Valid, Bitmap.Bits, Free, Marked, Distinct, Holds, Words, BitsOf, Reads, StoredBits, FileSys.MapReady, Packed;
    StoredPacked(bytes, fs.freeMap.bitCnt);
    MarkedParts(StoredBits(bytes, fs.freeMap.bitCnt), [0], nodes);
    var block := fs.ReadBlock(FREE_MAP_SECTOR);
    var inode := DecodeInode(block);
    HoldsReads(fs.Disk(), d, nodes, bytes);
    HoldsLength(fs.Disk(), d, nodes, bytes);
    var image := fs.ReadAt(inode, MapFileSize(fs.freeMap.bitCnt), 0, bytes);
    assert image == bytes;
    BitmapRead(fs, image);
    Attach(fs, inode, nodes, bytes);
  }

  /** The open free map file becomes part of the file system's state. */
  method Attach(fs: FileSys, inode: InodeDisk, ghost nodes: seq<nat>, ghost bytes: seq<byte>)
    requires fs.Wf() && StoredMap(fs.Disk(), fs.freeMap.bitCnt, inode, nodes, bytes)
    requires fs.Bits() == StoredBits(bytes, fs.freeMap.bitCnt)
    modifies fs
    ensures fs.Wf() && fs.mapOpen && fs.MapReady()
    ensures fs.mapInode == inode && fs.mapNodes == nodes && fs.mapBytes == bytes
    ensures fs.Bits() == old(fs.Bits()) && fs.Disk() == old(fs.Disk())
  {
    hide Cache.Valid, Bitmap.Valid, Bitmap.Bits, Free, Holds, Words, BitsOf, StoredBits, StoredMap, FileSys.MapReady;
    fs.mapOpen, fs.mapInode, fs.mapDenyCnt := true, inode, 0;
    fs.mapNodes, fs.mapBytes := nodes, bytes;
    StoredIsReady(fs);
  }

  /** A free map file opened as it is stored can be written to by the allocator. */
  lemma StoredIsReady(fs: FileSys)
    requires fs.Wf() && fs.mapOpen && fs.mapDenyCnt == 0
    requires StoredMap(fs.Disk(), fs.freeMap.bitCnt, fs.mapInode, fs.mapNodes, fs.mapBytes)
    requires fs.Bits() == StoredBits(fs.mapBytes, fs.freeMap.bitCnt)
    ensures fs.MapReady()
  {
    hide Cache.Valid, Bitmap.Valid, Bitmap.Bits, Holds, Words, BitsOf;
    MarkedParts(fs.Bits(), [0], fs.mapNodes);
  }

  lemma MarkedParts(bits: seq<bool>, a: seq<nat>, b: seq<nat>)
    ensures Marked(bits, a + b) <==> Marked(bits, a) && Marked(bits, b)
    ensures Marked(bits, [0]) ==> |bits| > 0 && bits[0]
  {
    if Marked(bits, a + b) {
      forall i | 0 <= i < |a|
        ensures a[i] < |bits| && bits[a[i]]
      {
        assert (a + b)[i] == a[i];
      }
      forall i | 0 <= i < |b|
        ensures b[i] < |bits| && bits[b[i]]
      {
        assert (a + b)[|a| + i] == b[i];
      }
    }
    if Marked(bits, [0]) {
      assert [0][0] == 0;
    }
  }

  /** free_map_close: the file is no longer open; the bitmap was written by the last change to it. */
  method FreeMapClose(fs: FileSys)
    requires fs.Wf()
    modifies fs
    ensures fs.Wf() && !fs.mapOpen && fs.MapReady()
    ensures fs.Bits() == old(fs.Bits()) && fs.Disk() == old(fs.Disk())
  {
    hide Cache.Valid, Bitmap.Valid, Bitmap.Bits, Free;
    fs.mapOpen, fs.mapNodes, fs.mapBytes := false, [], [];
  }

  lemma ClearBitsAreFree(bits: seq<bool>)
    ensures Tally(bits, 0, |bits|, false) == |Free(bits)|
  {
    TallyIsFree(bits, |bits|);
  }

  /** num_free_sectors counts the free list. */
  method NumFreeSectors(fs: FileSys) returns (n: nat)
    requires fs.Wf()
    ensures n == |fs.FreeList()|
  {
    hide Cache.Valid, Bitmap.Valid, Bitmap.Bits, Free, Tally;
    ClearBitsAreFree(fs.Bits());
    n := fs.freeMap.Count(0, fs.freeMap.bitCnt, false);
  }
}
