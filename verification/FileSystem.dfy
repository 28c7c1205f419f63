/** Inodes over the buffer cache, and the free map that is kept in one of them
    (a3/fs/inode.c, a3/fs/free-map.c). */
module FileSystem {
  import opened Sectors
  import opened InodeTree
  import opened InodeMap
  import opened InodeGrowth
  import opened OutOfSpace
  import opened FileBytes
  import opened FreeSpace
  import opened BufferCache
  import opened Bitmaps

  /** Does writing `size` bytes at `offset` reach past the last byte? (inode.c:264) */
  predicate Extends(length: nat, size: nat, offset: nat) {
    !(0 <= offset + size - 1 < length)
  }

  /** The bytes a read of `size` bytes at `offset` delivers: up to the end of the file. */
  function Slice(data: seq<byte>, offset: nat, size: nat): seq<byte> {
    if offset >= |data| then [] else data[offset..if offset + size <= |data| then offset + size else |data|]
  }

  /** Bit `s` of a bitmap stored as a file with inode `d`: point lookup finds its sector, 4096 bits to each. */
  ghost predicate StoredBit(disk: seq<Sector>, d: InodeDisk, s: nat) {
    && Findable(disk, d, s / 4096) && Lookup(disk, d, s / 4096) < |disk|
    && BitOfByte(disk[Lookup(disk, d, s / 4096)][s / 8 % 512], s % 8)
  }

  /** How much a read delivers and what: as many bytes as asked for or as there are from `offset` on, whichever is less. */
  ghost predicate Delivers(buf: seq<byte>, data: seq<byte>, offset: nat, size: nat) {
    && |buf| == (if offset >= |data| then 0 else if size <= |data| - offset then size else |data| - offset)
    && forall i | 0 <= i < |buf| :: buf[i] == data[offset + i]
  }

  lemma SliceDelivers(data: seq<byte>, offset: nat, size: nat)
    ensures Delivers(Slice(data, offset, size), data, offset, size)
  {
  }

  /** Reading on from where a first read stopped gives what one read of both would: a short read has come to the end. */
  lemma ReadOn(data: seq<byte>, offset: nat, n: nat, m: nat, first: seq<byte>, second: seq<byte>)
    requires Delivers(first, data, offset, n) && Delivers(second, data, offset + |first|, m)
    ensures Delivers(first + second, data, offset, n + m)
  {
  }

  /** Sectors an inode gains when its length goes from `a` to `b` bytes. */
  function Growth(a: nat, b: nat): nat {
    var c, c' := InodeCost(BytesToSectors(a)), InodeCost(BytesToSectors(b));
    if c <= c' then c' - c else 0
  }

  /** Growing costs the difference of the two costs; not growing costs nothing. */
  lemma GrowthBetween(a: nat, b: nat)
    ensures a <= b ==> InodeCost(BytesToSectors(a)) + Growth(a, b) == InodeCost(BytesToSectors(b))
    ensures b <= a ==> Growth(a, b) == 0
  {
    SectorsMonotone(a, b);
    SectorsMonotone(b, a);
    hide InodeCost, BytesToSectors;
    if a <= b {
      InodeCostMonotone(BytesToSectors(a), BytesToSectors(b));
    } else {
      InodeCostMonotone(BytesToSectors(b), BytesToSectors(a));
    }
  }

  /** The growth in terms of the least numbers of sectors before and after. */
  lemma GrowthOfBytes(a: nat, b: nat, m: nat, n: nat)
    requires LeastSectors(a, m) && LeastSectors(b, n)
    ensures a <= b ==> TreeSize(m) <= TreeSize(n) && Growth(a, b) == TreeSize(n) - TreeSize(m)
    ensures b <= a ==> Growth(a, b) == 0
  {
    hide InodeCost, BytesToSectors, Growth, TreeSize, LeastSectors;
    CostOfBytes(a, m);
    CostOfBytes(b, n);
    GrowthBetween(a, b);
  }

  /** An inode with as many data sectors as the bytes need and no more, and the index blocks for them. */
  ghost predicate LeastReserved(disk: seq<Sector>, d: InodeDisk, nodes: seq<nat>, length: nat) {
    forall n: nat | LeastSectors(length, n) :: Maps(disk, d, nodes, n) && |nodes| == TreeSize(n)
  }

  /** The sectors of an inode after a reservation for `length` bytes. */
  lemma ReservedForBytes(disk: seq<Sector>, disk': seq<Sector>, d: InodeDisk, nodes: seq<nat>, added: seq<nat>, length: nat, log: seq<nat>)
    requires Extended(disk, disk', d, nodes, added, BytesToSectors(length), log)
    ensures LeastReserved(disk', d, nodes + added, length)
  {
    forall n: nat | LeastSectors(length, n)
      ensures Maps(disk', d, nodes + added, n) && |nodes + added| == TreeSize(n)
    {
      SectorsOfBytes(length, n);
      CostOfBytes(length, n);
      assert |nodes + added| == InodeCost(BytesToSectors(length));
    }
  }

  lemma SectorsMonotone(a: nat, b: nat)
    ensures a <= b ==> BytesToSectors(a) <= BytesToSectors(b)
  {
  }

  /** free_map_init: only the sectors of the free map's and the root directory's inodes are in use. */
  method NewFreeMap(bitCnt: nat) returns (freeMap: Bitmap)
    requires 2 <= bitCnt < BITMAP_ERROR
    ensures fresh(freeMap) && fresh(freeMap.words) && freeMap.words as object != freeMap
    ensures freeMap.Valid() && freeMap.bitCnt == bitCnt == |freeMap.Bits()| && freeMap.words.Length == ElemCnt(bitCnt)
    ensures forall i | 0 <= i < bitCnt :: freeMap.Bits()[i] <==> i < 2
  {
    freeMap := new Bitmap(bitCnt);
    freeMap.Mark(0);
    freeMap.Mark(1);
  }

  class FileSys {
    const cache: Cache
    const freeMap: Bitmap
    /** The open free map file: its inode's data and how many openers deny writes to it. */
    var mapOpen: bool
    var mapInode: InodeDisk
    var mapDenyCnt: nat
    /** The sectors of the free map file's tree and the bytes it holds. */
    ghost var mapNodes: seq<nat>
    ghost var mapBytes: seq<byte>

    ghost function Repr(): set<object>
      reads this
    {
      {this, freeMap, freeMap.words} + cache.Repr()
    }

    ghost function Disk(): seq<Sector>
      reads cache`disk
    {
      cache.disk
    }

    ghost function Bits(): seq<bool>
      reads freeMap, freeMap.words
    {
      if freeMap.Valid() then freeMap.Bits() else []
    }

    /** The cache's objects are none of the others. */
    ghost predicate Apart()
      reads this
    {
      && this !in cache.Repr() && freeMap !in cache.Repr() && freeMap.words !in cache.Repr()
      && freeMap.words as object != freeMap && freeMap.words as object != this
    }

    /** The cache and the bitmap are in order; sector 0 is never free, so 0 can mean "no sector". */
    ghost predicate Wf()
      reads this, Repr()
    {
      && Apart()
      && cache.Valid() && freeMap.Valid()
      && freeMap.words.Length == ElemCnt(freeMap.bitCnt) && freeMap.bitCnt < BITMAP_ERROR
      && 2 <= freeMap.bitCnt == |Bits()| && |Disk()| == cache.device.Length == freeMap.bitCnt + 1
      && Bits()[0]
    }

    /** Sectors that carry an inode's tree. */
    ghost predicate Owned(nodes: seq<nat>)
      reads freeMap, freeMap.words
    {
      Distinct(nodes) && Marked(Bits(), nodes)
    }

    /** The free map file, if open, has full length and its own sectors are in use. */
    ghost predicate MapSized()
      reads this, freeMap, freeMap.words
    {
      if !mapOpen then mapNodes == []
      else
        && |mapBytes| == 8 * ElemCnt(freeMap.bitCnt) && |mapBytes| <= SECTOR_SIZE * MAX_SECTORS
        && Owned(mapNodes) && 0 !in mapNodes
    }

    /** The free map file, if open, is stored in those sectors. */
    ghost predicate MapStored()
      reads this, cache`disk
    {
      mapOpen ==> Holds(Disk(), mapInode, mapNodes, mapBytes)
    }

    ghost predicate MapFileOk()
      reads this, cache`disk, freeMap, freeMap.words
    {
      MapSized() && MapStored()
    }

    /** The free map file holds the bitmap. */
    ghost predicate MapSaved()
      reads this, freeMap, freeMap.words
    {
      mapOpen ==> |mapBytes| == 8 * ElemCnt(freeMap.bitCnt) && BitsOf(Words(mapBytes), freeMap.bitCnt) == Bits()
    }

    /** The allocator can be called: the free map file is in order, holds the bitmap and can be written. */
    ghost predicate MapReady()
      reads this, cache`disk, freeMap, freeMap.words
    {
      MapFileOk() && MapSaved() && (mapOpen ==> mapDenyCnt == 0)
    }

    ghost function FreeList(): seq<nat>
      reads freeMap, freeMap.words
    {
      Free(Bits())
    }

    /** free_map_init and buffer_cache_init (filesys.c:19-30): one bit per sector but the last,
        the sectors of the free map's and the root directory's inodes in use. */
    constructor (device: array<Sector>)
      requires 3 <= device.Length <= BITMAP_ERROR
      ensures Wf() && MapFileOk() && MapSaved() && !mapOpen
      ensures fresh(Repr() - {device}) && cache.device == device
      ensures Disk() == device[..]
      ensures forall i | 0 <= i < |Bits()| :: Bits()[i] <==> i < 2
    {
      var bits := NewFreeMap(device.Length - 1);
      cache := new Cache(device);
      freeMap := bits;
      mapOpen, mapInode, mapDenyCnt := false, InodeDisk([], 0, 0, false, 0), 0;
      mapNodes, mapBytes := [], [];
    }

    // ---------- point lookup ----------

    /** index_to_sector: reads index blocks through the cache. */
    method IndexToSector(d: InodeDisk, index: nat) returns (s: nat)
      requires Wf() && Findable(Disk(), d, index)
      modifies cache`clock, cache.device, cache.slots
      ensures Wf()
      ensures s == Lookup(Disk(), d, index)
    {
      hide JustUsed, Cached, Cache.Valid, Bitmap.Valid, Bitmap.Bits;
      var base, limit := 0, DIRECT_BLOCKS;
      if index < limit {
        return d.direct[index];
      }
      base := limit;
      limit := limit + PTRS_PER_SECTOR;
      if index < limit {
        var block := cache.Read(d.indirect);
        return DecodePtrs(block)[index - base];
      }
      base := limit;
      limit := limit + PTRS_PER_SECTOR * PTRS_PER_SECTOR;
      if index < limit {
        var first, second := (index - base) / PTRS_PER_SECTOR, (index - base) % PTRS_PER_SECTOR;
        var block := cache.Read(d.doubly);
        block := cache.Read(DecodePtrs(block)[first]);
        return DecodePtrs(block)[second];
      }
      return NO_SECTOR;
    }

    /** byte_to_sector. */
    method ByteToSector(d: InodeDisk, pos: int) returns (s: nat)
      requires Wf() && (0 <= pos < d.length ==> Findable(Disk(), d, pos / SECTOR_SIZE))
      modifies cache`clock, cache.device, cache.slots
      ensures Wf()
      ensures s == if 0 <= pos < d.length then Lookup(Disk(), d, pos / SECTOR_SIZE) else NO_SECTOR
    {
      hide Cache.Valid, Bitmap.Valid, Bitmap.Bits, Lookup, Findable;
      if 0 <= pos < d.length {
        s := IndexToSector(d, pos / SECTOR_SIZE);
      } else {
        s := NO_SECTOR;
      }
    }

    /** buffer_cache_read of a sector in range. */
    method ReadBlock(s: nat) returns (data: Sector)
      requires Wf() && s < |Disk()|
      modifies cache`clock, cache.device, cache.slots
      ensures Wf() && data == Disk()[s]
    {
      hide JustUsed, Cached, Cache.Valid, Bitmap.Valid, Bitmap.Bits;
      data := cache.Read(s);
    }

    // ---------- bytes ----------

    /** One iteration of inode_read_at: the bytes from `offset` to the end of the sector, of the file
        or of the request. */
    method ReadChunk(d: InodeDisk, size: nat, offset: nat, ghost data: seq<byte>) returns (part: seq<byte>)
      requires Wf() && Reads(Disk(), d, data)
      modifies cache`clock, cache.device, cache.slots
      ensures Wf()
      ensures |part| <= size && (|part| == 0 <==> size == 0 || |data| <= offset)
      ensures offset <= |data| ==> offset + |part| <= |data| && part == data[offset..offset + |part|]
    {
      hide JustUsed, Cached, Cache.Valid, Bitmap.Valid, Bitmap.Bits, Free, Findable, Lookup;
      if offset < |data| {
        ReadStretch(Disk(), d, data, offset / SECTOR_SIZE, 0, 0);
      }
      var sector := ByteToSector(d, offset);
      var ofs := offset % SECTOR_SIZE;
      var inodeLeft: int := d.length - offset;
      var sectorLeft := SECTOR_SIZE - ofs;
      var minLeft := if inodeLeft < sectorLeft then inodeLeft else sectorLeft;
      var chunk := if size < minLeft then size else minLeft;
      if chunk <= 0 {
        return [];
      }
      ReadStretch(Disk(), d, data, offset / SECTOR_SIZE, ofs, chunk);
      if ofs == 0 && chunk == SECTOR_SIZE {
        part := cache.Read(sector);
        assert part == part[ofs..ofs + chunk];
      } else {
        var bounce := cache.Read(sector);
        part := bounce[ofs..ofs + chunk];
      }
    }

    /** inode_read_at. */
    method ReadAt(d: InodeDisk, size: nat, offset: nat, ghost data: seq<byte>) returns (buf: seq<byte>)
      requires Wf() && Reads(Disk(), d, data)
      modifies cache`clock, cache.device, cache.slots
      ensures Wf()
      ensures buf == Slice(data, offset, size)
      ensures |buf| == if offset >= |data| then 0 else if size <= |data| - offset then size else |data| - offset
      ensures forall i | 0 <= i < |buf| :: buf[i] == data[offset + i]
    {
      hide Cache.Valid, Bitmap.Valid, Bitmap.Bits, Free, Reads;
      buf := [];
      var left: nat := size;
      while left > 0
        invariant Wf() && Reads(Disk(), d, data)
        invariant left + |buf| == size
        invariant if offset <= |data| then offset + |buf| <= |data| && buf == data[offset..offset + |buf|] else buf == []
        decreases left
      {
        var part := ReadChunk(d, left, offset + |buf|, data);
        if |part| == 0 {
          break;
        }
        left := left - |part|;
        buf := buf + part;
      }
    }

    /** One iteration of inode_write_at. */
    method WriteChunk(d: InodeDisk, buf: seq<byte>, offset: nat, written: nat, ghost nodes: seq<nat>, ghost data: seq<byte>,
                      ghost disk0: seq<Sector>)
      returns (chunk: nat)
      requires Wf() && Maps(Disk(), d, nodes, BytesToSectors(|data|)) && Distinct(nodes)
      requires d.length == |data| && written < |buf| && offset + |buf| <= |data|
      requires Written(disk0, Disk(), nodes, BytesToSectors(|data|), buf, offset, offset + written)
      modifies cache, cache.device, cache.slots
      ensures Wf()
      ensures 0 < chunk <= |buf| - written
      ensures Written(disk0, Disk(), nodes, BytesToSectors(|data|), buf, offset, offset + written + chunk)
    {
      hide JustUsed, Cached, Cache.Valid, Bitmap.Valid, Bitmap.Bits, Free, Maps, Stores, Written, Findable, Lookup;
      var at := offset + written;
      FoundAt(Disk(), d, nodes, BytesToSectors(|data|), at / SECTOR_SIZE);
      var sector := ByteToSector(d, at);
      var ofs := at % SECTOR_SIZE;
      var inodeLeft := d.length - at;
      var sectorLeft := SECTOR_SIZE - ofs;
      var minLeft := if inodeLeft < sectorLeft then inodeLeft else sectorLeft;
      chunk := if |buf| - written < minLeft then |buf| - written else minLeft;
      var part := buf[written..written + chunk];
      WriteStep(disk0, Disk(), nodes, BytesToSectors(|data|), buf, offset, at, chunk);
      if ofs == 0 && chunk == SECTOR_SIZE {
        assert part == Overlay(Disk()[sector], 0, part);
        cache.Write(sector, part);
      } else {
        // The chunk leaves part of its sector alone, so the old bytes are needed: no chunk that
        // starts and fills a sector comes here.
        var bounce := cache.Read(sector);
        cache.Write(sector, Overlay(bounce, ofs, part));
      }
    }

    /** The loop of inode_write_at: `buf` lies within the file. */
    method WriteLoop(d: InodeDisk, buf: seq<byte>, offset: nat, ghost nodes: seq<nat>, ghost data: seq<byte>)
      returns (written: nat)
      requires Wf() && Holds(Disk(), d, nodes, data) && Distinct(nodes)
      requires |buf| > 0 ==> offset + |buf| <= |data|
      modifies cache, cache.device, cache.slots
      ensures Wf() && written == |buf|
      ensures Written(old(Disk()), Disk(), nodes, BytesToSectors(|data|), buf, offset, offset + |buf|)
    {
      hide Cache.Valid, Bitmap.Valid, Bitmap.Bits, Free, Holds, Maps, Written, BytesToSectors, MapSized, MapSaved, MapStored;
      ghost var n := BytesToSectors(|data|);
      ghost var disk0 := Disk();
      NothingWrittenYet(disk0, d, nodes, data, buf, offset);
      written := 0;
      while written < |buf|
        invariant written <= |buf| && Wf()
        invariant Maps(Disk(), d, nodes, n)
        invariant Written(disk0, Disk(), nodes, n, buf, offset, offset + written)
      {
        var chunk := WriteChunk(d, buf, offset, written, nodes, data, disk0);
        written := written + chunk;
        WrittenMaps(disk0, Disk(), d, nodes, n, buf, offset, offset + written);
      }
    }

    // ---------- the free map ----------

    /** bitmap_write to the free map file. */
    method BitmapWrite() returns (ok: bool)
      requires Wf() && MapFileOk() && mapOpen
      modifies cache, cache.device, cache.slots, this`mapBytes
      decreases 1, 0
      ensures Wf() && MapFileOk()
      ensures ok <==> mapDenyCnt == 0
      ensures if ok then mapBytes == Image(freeMap.words[..]) && MapSaved() else mapBytes == old(mapBytes)
      ensures ok ==>
                && Packed(Bits(), mapBytes)
                && forall s | freeMap.bitCnt <= s < 8 * |mapBytes| :: !BitOfByte(mapBytes[s / 8], s % 8)
      ensures SameExcept(old(Disk()), Disk(), [], mapNodes)
    {
      hide Cache.Valid, Free, Maps, Stores, Written, Image, Words, BitsOf, Padded, Packed, BitOfByte;
      if mapDenyCnt > 0 {
        return false;
      }
      var image := Image(freeMap.words[..]);
      var written, d';
      ghost var added;
      written, d', added := WriteAt(0, mapInode, image, 0, mapNodes, mapBytes);
      ok := written == |image|;
      ImageRoundTrip(freeMap.words[..]);
      ImagePacked(freeMap.words[..], freeMap.bitCnt);
      SpliceAll(mapBytes, image);
      HoldsWritten(old(Disk()), Disk(), mapInode, mapNodes, mapBytes, image, 0);
      mapBytes := image;
    }

    /** free_map_allocate: the lowest run of `cnt` free sectors, and the free map file brought up to date. */
    method Allocate(cnt: nat) returns (ok: bool, sector: nat)
      requires Wf() && MapFileOk() && MapSaved()
      modifies cache, cache.device, cache.slots, freeMap.words, this`mapBytes
      decreases 2, 0
      ensures Wf() && MapFileOk() && MapSaved()
      ensures ok <==> (mapOpen ==> mapDenyCnt == 0) && exists s :: 0 <= s <= |old(Bits())| && Run(old(Bits()), s, cnt, false)
      ensures ok ==> FirstRun(old(Bits()), 0, cnt, false, sector) && Bits() == Filled(old(Bits()), sector, cnt, true)
      ensures ok && mapOpen ==> mapBytes == Image(freeMap.words[..])
      ensures mapOpen ==> Packed(Bits(), mapBytes)
      ensures !ok ==> Bits() == old(Bits())
      ensures SameExcept(old(Disk()), Disk(), [], mapNodes)
    {
      hide Cache.Valid, Free, Maps, Stores, Written, Image, Words, BitsOf, Padded, Packed, BitOfByte;
      sector := freeMap.ScanAndFlip(0, cnt, false);
      ok := sector != BITMAP_ERROR;
      if ok && mapOpen {
        var saved := BitmapWrite();
        if !saved {
          freeMap.SetMultiple(sector, cnt, false);
          assert Bits() == old(Bits());
          ok := false;
        }
      }
      SavedPacked();
    }

    /** A free map file that holds the bitmap holds it bit by bit. */
    lemma SavedPacked()
      requires Wf() && MapSaved()
      ensures mapOpen ==> Packed(Bits(), mapBytes)
    {
      hide Cache.Valid, Bitmap.Bits, Words, BitsOf, Packed;
      if mapOpen {
        WordsPacked(mapBytes, freeMap.bitCnt);
      }
    }

    /** While the free map file is open, the disk itself says which sectors are in use: one bit for each, 4096 to a
        data sector of the file. */
    lemma BitOnDisk(s: nat)
      requires Wf() && MapReady() && mapOpen && s < freeMap.bitCnt
      ensures Bits()[s] <==> StoredBit(Disk(), mapInode, s)
    {
      hide Cache.Valid, Bitmap.Valid, Bitmap.Bits, Free, Holds, Reads, Words, BitsOf, Findable, Lookup, Marked, Distinct, BitOfByte;
      SavedPacked();
      HoldsReads(Disk(), mapInode, mapNodes, mapBytes);
      assert s / 8 < |mapBytes|;
      ByteOnDisk(Disk(), mapInode, mapBytes, s / 8);
      assert s / 8 / 512 == s / 4096;
    }

    /** free_map_release: the sectors become free, and the free map file is brought up to date. */
    method Release(sector: nat, cnt: nat)
      requires Wf() && MapFileOk() && mapOpen
      requires 0 < sector && Run(Bits(), sector, cnt, true) && forall s | sector <= s < sector + cnt :: s !in mapNodes
      modifies cache, cache.device, cache.slots, freeMap.words, this`mapBytes
      ensures Wf() && MapFileOk()
      ensures Bits() == Filled(old(Bits()), sector, cnt, false)
      ensures mapDenyCnt == 0 ==> mapBytes == Image(freeMap.words[..]) && MapSaved() && Packed(Bits(), mapBytes)
      ensures SameExcept(old(Disk()), Disk(), [], mapNodes)
    {
      hide Cache.Valid, Bitmap.Valid, Bitmap.Bits, Free, Holds, Image, Words, BitsOf, Marked, Distinct, SameExcept, Packed;
      if mapOpen {
        MarkedOutside(Bits(), mapNodes, sector, cnt);
      }
      var clear := freeMap.Contains(sector, cnt, false);
      assert !clear;
      freeMap.SetMultiple(sector, cnt, false);
      var saved := BitmapWrite();
    }

    /** Releasing one sector of an inode. */
    method ReleaseSector(s: nat)
      requires Wf() && MapReady() && mapOpen && Releasable([s])
      modifies cache, cache.device, cache.slots, freeMap.words, this`mapBytes
      ensures Wf() && MapReady()
      ensures Bits() == Clear(old(Bits()), [s])
      ensures SameExcept(old(Disk()), Disk(), [], mapNodes)
    {
      hide Packed, Cache.Valid, Bitmap.Valid, Bitmap.Bits, Free, Holds, Image, Words, BitsOf, Filled, SameExcept;
      assert [s][0] == s;
      assert s < |Bits()| && Bits()[s];
      hide Marked, Distinct;
      FilledIsClear(Bits(), s);
      Release(s, 1);
    }

    /** Sectors an inode may give back: distinct, in use, and not the free map's. */
    ghost predicate Releasable(nodes: seq<nat>)
      reads this, freeMap, freeMap.words
    {
      Owned(nodes) && 0 !in nodes && forall s | s in nodes :: s !in mapNodes
    }

    // ---------- writing ----------

    /** What extending an inode needs: its sectors, the free ones and the free map file's are apart. */
    ghost predicate Growable(nodes: seq<nat>)
      reads this, cache`disk, freeMap, freeMap.words
    {
      MapReady() && Fits(Disk(), nodes + FreeList(), mapNodes)
    }

    /** Where an inode's own sector may lie. */
    ghost predicate OwnSector(sector: nat, nodes: seq<nat>)
      reads this, cache`disk, freeMap, freeMap.words
    {
      sector < |Disk()| && sector !in nodes + FreeList() && sector !in mapNodes
    }

    /** inode_write_at for inode data `d` of the inode in `sector`. A write within the file changes its
        data sectors only, so the free map file can be written from within the allocator; any other
        write may allocate. */
    method WriteAt(sector: nat, d: InodeDisk, buf: seq<byte>, offset: nat, ghost nodes: seq<nat>, ghost data: seq<byte>)
      returns (written: nat, d': InodeDisk, ghost added: seq<nat>)
      requires Wf() && Holds(Disk(), d, nodes, data) && Distinct(nodes)
      requires offset + |buf| <= SECTOR_SIZE * MAX_SECTORS
      requires Extends(|data|, |buf|, offset) ==> Growable(nodes) && OwnSector(sector, nodes)
      modifies cache, cache.device, cache.slots
      modifies if Extends(d.length, |buf|, offset) then {freeMap.words} else {}
      modifies (if Extends(d.length, |buf|, offset) then {this} else {})`mapBytes
      decreases if Extends(d.length, |buf|, offset) then 6 else 0, 0
      ensures Wf() && d'.Valid()
      ensures !Extends(|data|, |buf|, offset) ==>
                && written == |buf| && d' == d
                && Written(old(Disk()), Disk(), nodes, BytesToSectors(|data|), buf, offset, offset + |buf|)
      ensures Extends(|data|, |buf|, offset) && offset + |buf| > 0 ==>
                && MapReady()
                && if Growth(|data|, offset + |buf|) <= |old(FreeList())|
                   then && written == |buf|
                        && Regrown(old(Disk()), Disk(), old(FreeList()), FreeList(), sector, d, d',
                                   nodes, added, Growth(|data|, offset + |buf|), Splice(data, offset, buf), mapNodes)
                   else written == 0 && NoRoom(old(Disk()), Disk(), d, d', nodes, old(FreeList()), FreeList(), data, mapNodes)
      ensures offset + |buf| == 0 ==>
                && written == 0 && Bits() == old(Bits()) && d' == d.(length := 0)
                && Disk() == old(Disk())[sector := EncodeInode(d')]
    {
      hide Cache.Valid, Bitmap.Valid, Bitmap.Bits, Free, Maps, Stores, Regrown, Written, SameExcept, Words, Image, Findable, Lookup, NoRoom;
      if !Extends(|data|, |buf|, offset) {
        FoundAt(Disk(), d, nodes, BytesToSectors(|data|), (offset + |buf| - 1) / SECTOR_SIZE);
      }
      var last := ByteToSector(d, offset + |buf| - 1);
      if last == NO_SECTOR {
        written, d', added := ExtendAndWrite(sector, d, buf, offset, nodes, data);
      } else {
        written := WriteLoop(d, buf, offset, nodes, data);
        d', added := d, [];
      }
    }

    /** A write past the end: the file is extended first, then written as usual. */
    method ExtendAndWrite(sector: nat, d: InodeDisk, buf: seq<byte>, offset: nat, ghost nodes: seq<nat>, ghost data: seq<byte>)
      returns (written: nat, d': InodeDisk, ghost added: seq<nat>)
      requires Wf() && Holds(Disk(), d, nodes, data)
      requires offset + |buf| <= SECTOR_SIZE * MAX_SECTORS && Extends(|data|, |buf|, offset)
      requires Growable(nodes) && OwnSector(sector, nodes)
      modifies cache, cache.device, cache.slots, freeMap.words, this`mapBytes
      decreases 5, 1
      ensures Wf() && d'.Valid()
      ensures offset + |buf| > 0 ==>
                && MapReady()
                && if Growth(|data|, offset + |buf|) <= |old(FreeList())|
                   then && written == |buf|
                        && Regrown(old(Disk()), Disk(), old(FreeList()), FreeList(), sector, d, d',
                                   nodes, added, Growth(|data|, offset + |buf|), Splice(data, offset, buf), mapNodes)
                   else written == 0 && NoRoom(old(Disk()), Disk(), d, d', nodes, old(FreeList()), FreeList(), data, mapNodes)
      ensures offset + |buf| == 0 ==>
                && written == 0 && Bits() == old(Bits()) && d' == d.(length := 0)
                && Disk() == old(Disk())[sector := EncodeInode(d')]
    {
      hide Cache.Valid, Bitmap.Valid, Bitmap.Bits, Free, Holds, Written, SameExcept, Words, Image, Fits, Marked, Distinct,
           BytesToSectors, InodeCost, Growth, Splice, ZeroPadded, NoRoom, Regrown, FileAt;
      var ok;
      ok, d', added := Extend(sector, d, offset + |buf|, nodes, data);
      if !ok || offset + |buf| == 0 {
        return 0, d', added;
      }
      ghost var disk1 := Disk();
      ghost var padded := ZeroPadded(data, offset + |buf|);
      RegrownFile(old(Disk()), disk1, old(FreeList()), FreeList(), sector, d, d', nodes, added, Growth(|data|, offset + |buf|), padded, mapNodes);
      FileHolds(disk1, sector, d', nodes + added, padded);
      FitsApart(disk1, nodes + added, mapNodes);
      written := WriteLoop(d', buf, offset, nodes + added, padded);
      HoldsWritten(disk1, Disk(), d', nodes + added, padded, buf, offset);
      MapUndisturbed(disk1, nodes + added);
      RegrownWritten(old(Disk()), disk1, Disk(), old(FreeList()), FreeList(), sector, d, d',
                     nodes, added, Growth(|data|, offset + |buf|), data, buf, offset, mapNodes);
    }

    /** Writes to other sectors leave the free map file stored. */
    lemma MapUndisturbed(disk0: seq<Sector>, own: seq<nat>)
      requires mapOpen ==> Holds(disk0, mapInode, mapNodes, mapBytes)
      requires SameExcept(disk0, Disk(), own, []) && forall s | s in mapNodes :: s !in own
      ensures MapStored()
    {
      if mapOpen {
        HoldsFrame(disk0, Disk(), mapInode, mapNodes, mapBytes, own, []);
      }
    }

    /** The part of inode_write_at that extends the file (inode.c:264-274). */
    method Extend(sector: nat, d: InodeDisk, length: nat, ghost nodes: seq<nat>, ghost data: seq<byte>)
      returns (ok: bool, d': InodeDisk, ghost added: seq<nat>)
      requires Wf() && Holds(Disk(), d, nodes, data)
      requires Growable(nodes) && OwnSector(sector, nodes)
      requires |data| <= length <= SECTOR_SIZE * MAX_SECTORS || length == 0
      modifies cache, cache.device, cache.slots, freeMap.words, this`mapBytes
      decreases 5, 0
      ensures Wf() && MapReady() && d'.Valid()
      ensures length > 0 ==> (ok <==> Growth(|data|, length) <= |old(FreeList())|)
      ensures !ok ==> NoRoom(old(Disk()), Disk(), d, d', nodes, old(FreeList()), FreeList(), data, mapNodes)
      ensures ok && length > 0 ==>
                && Fits(Disk(), nodes + added, mapNodes)
                && Regrown(old(Disk()), Disk(), old(FreeList()), FreeList(), sector, d, d',
                           nodes, added, Growth(|data|, length), ZeroPadded(data, length), mapNodes)
      ensures length == 0 ==>
                && ok && added == [] && Bits() == old(Bits()) && d' == d.(length := 0)
                && Disk() == old(Disk())[sector := EncodeInode(d')]
    {
      hide Cache.Valid, Bitmap.Valid, Bitmap.Bits, Free, Maps, Stores, SameExcept, Words, BitsOf, Image, Fits, Marked, Distinct,
           InodeCost, ZeroPadded, MapReady, EncodeInode, DecodeInode, Exhausted, InodeKept, NoRoom, IsData, Extended, Growth;
      ghost var n, n' := BytesToSectors(|data|), BytesToSectors(length);
      GrowthBetween(|data|, length);
      ok, d', added := Reserve(d, length, nodes, n);
      if !ok {
        assert 0 !in mapNodes by { NotInMap(); }
        StillReads(old(Disk()), Disk(), d, d', nodes, old(FreeList()), data, mapNodes);
        return;
      }
      if length > 0 {
        ExtendedWritten(old(Disk()), Disk(), d', nodes, added, n, n', data, length, sector, mapNodes);
      }
      d' := d'.(length := length);
      WriteBlock(sector, EncodeInode(d'));
      if length > 0 {
        FitsTaken(old(Disk()), Disk(), nodes, old(FreeList()), |added|, mapNodes);
      }
    }

    // ---------- reserving sectors ----------

    /** free_map_allocate(1, ...): the lowest free sector. */
    method AllocateSector() returns (ok: bool, s: nat)
      requires Wf() && MapReady()
      modifies cache, cache.device, cache.slots, freeMap.words, this`mapBytes
      decreases 2, 1
      ensures Wf() && MapReady()
      ensures ok <==> old(FreeList()) != []
      ensures ok ==> old(FreeList()) == [s] + FreeList() && 0 < s < |Disk()|
      ensures !ok ==> Bits() == old(Bits())
      ensures SameExcept(old(Disk()), Disk(), [], mapNodes)
    {
      hide Packed, Cache.Valid, Bitmap.Valid, Bitmap.Bits, Free, Holds, Image, Words, BitsOf, Run, Filled, Marked, Distinct;
      RunIffFree(Bits());
      ok, s := Allocate(1);
      if ok {
        FirstRunIsFirstFree(old(Bits()), s);
      }
    }

    /** inode_reserve_indirect: the subtree at `entry` gets `num` data sectors; the sectors it gains
        are the lowest free ones, in order. */
    method ReserveIndirect(entry: nat, num: nat, level: nat, ghost nodes: seq<nat>, ghost had: nat)
      returns (ok: bool, entry': nat, ghost added: seq<nat>)
      requires level <= 2 && 0 < num <= Capacity(level) && had <= num
      requires Wf() && Growable(nodes) && Sub(Disk(), level, entry, nodes, had)
      modifies cache, cache.device, cache.slots, freeMap.words, this`mapBytes
      decreases 3, 4 * level + 3
      ensures Wf() && MapReady() && entry' < |Disk()|
      ensures ok <==> Cost(level, num) - Cost(level, had) <= |old(FreeList())|
      ensures ok ==>
                && |added| == Cost(level, num) - Cost(level, had) && added + FreeList() == old(FreeList())
                && Grown(old(Disk()), Disk(), level, entry', nodes, added, num, mapNodes)
      ensures entry != 0 ==> entry' == entry
      ensures SubLeft(ok, old(Disk()), Disk(), level, nodes, old(FreeList()), FreeList(), mapNodes)
    {
      hide Cache.Valid, Bitmap.Valid, Bitmap.Bits, Free, Sub, Fits, Grown, MapReady, Wf, SubLeft;
      if level == 0 {
        ok, entry', added := ReserveLeaf(entry, nodes, had);
      } else {
        ok, entry', added := ReserveBlock(entry, num, level, nodes, had);
      }
    }

    /** Level 0 of inode_reserve_indirect (inode.c:367-377). */
    method ReserveLeaf(entry: nat, ghost nodes: seq<nat>, ghost had: nat) returns (ok: bool, entry': nat, ghost added: seq<nat>)
      requires had <= 1
      requires Wf() && Growable(nodes) && Sub(Disk(), 0, entry, nodes, had)
      modifies cache, cache.device, cache.slots, freeMap.words, this`mapBytes
      decreases 3, 0
      ensures Wf() && MapReady() && entry' < |Disk()|
      ensures ok <==> 1 - had <= |old(FreeList())|
      ensures ok ==>
                && |added| == 1 - had && added + FreeList() == old(FreeList())
                && Grown(old(Disk()), Disk(), 0, entry', nodes, added, 1, mapNodes)
      ensures entry != 0 ==> entry' == entry
      ensures SubLeft(ok, old(Disk()), Disk(), 0, nodes, old(FreeList()), FreeList(), mapNodes)
    {
      hide Cache.Valid, Bitmap.Valid, Bitmap.Bits, Free, Grown, MapFileOk, MapSaved, SubLeft;
      if entry == 0 {
        ok, entry' := AllocateSector();
        if !ok {
          LeafLeft(ok, old(Disk()), Disk(), entry, nodes, had, old(FreeList()), FreeList(), mapNodes);
          return false, 0, [];
        }
        FreshLeaf(old(Disk()), Disk(), entry', mapNodes);
        added := [entry'];
        assert (nodes + old(FreeList()))[|nodes|] == entry';
        WriteBlock(entry', ZeroSector());
      } else {
        SameLeaf(Disk(), entry, nodes, mapNodes);
        ok, entry', added := true, entry, [];
      }
      LeafLeft(ok, old(Disk()), Disk(), entry, nodes, had, old(FreeList()), FreeList(), mapNodes);
    }

    /** Levels 1 and 2 of inode_reserve_indirect (inode.c:379-399). */
    method ReserveBlock(entry: nat, num: nat, level: nat, ghost nodes: seq<nat>, ghost had: nat)
      returns (ok: bool, entry': nat, ghost added: seq<nat>)
      requires 1 <= level <= 2 && 0 < num <= Capacity(level) && had <= num
      requires Wf() && Growable(nodes) && Sub(Disk(), level, entry, nodes, had)
      modifies cache, cache.device, cache.slots, freeMap.words, this`mapBytes
      decreases 3, 4 * level + 2
      ensures Wf() && MapReady() && entry' < |Disk()|
      ensures ok <==> Cost(level, num) - Cost(level, had) <= |old(FreeList())|
      ensures ok ==>
                && |added| == Cost(level, num) - Cost(level, had) && added + FreeList() == old(FreeList())
                && Grown(old(Disk()), Disk(), level, entry', nodes, added, num, mapNodes)
      ensures entry != 0 ==> entry' == entry
      ensures SubLeft(ok, old(Disk()), Disk(), level, nodes, old(FreeList()), FreeList(), mapNodes)
    {
      hide Cache.Valid, Bitmap.Valid, Bitmap.Bits, Free, Grown, MapReady, Fits, Sub, Cost, Stage, Progress, SameExcept, TreeKept, RanOut,
           PtrsKept, BlockReady, SubLeft, IsLeaf;
      ghost var free, k := FreeList(), Cost(level, num) - Cost(level, had);
      entry' := IndexBlock(entry, level, nodes, had);
      ghost var disk1 := Disk();
      StageInit(old(Disk()), disk1, level, had, num, entry, entry', nodes, free, FreeList(), mapNodes);
      var block := ReadBlock(entry');
      var blocks;
      ghost var last;
      ok, blocks, last := ReserveEntries(DecodePtrs(block), num, level, nodes, had, free);
      ghost var disk2 := Disk();
      if !ok {
        BlockLeft(old(Disk()), disk1, disk2, level, entry', nodes, free, mapNodes);
        return false, entry', [];
      }
      StageDone(disk1, Disk(), level, had, num, nodes, free, FreeList(), blocks, last, mapNodes);
      added := free[..k];
      FinishBlock(old(Disk()), disk1, Disk(), level, had, num, entry', nodes, free, blocks, last, mapNodes);
      BlockKept(old(Disk()), disk1, disk2, level, entry', nodes, free, FreeList(), blocks, mapNodes);
      WriteBlock(entry', EncodeWords(blocks));
    }

    /** The free map's inode is not one of its own data or index sectors. */
    lemma NotInMap()
      requires MapReady()
      ensures 0 !in mapNodes
    {
    }

    /** buffer_cache_write to a sector outside the free map file. */
    method WriteBlock(s: nat, data: Sector)
      requires Wf() && MapReady() && s < |Disk()| && s !in mapNodes
      modifies cache, cache.device, cache.slots
      decreases 0, 0
      ensures Wf() && MapReady()
      ensures Disk() == old(Disk())[s := data]
    {
      hide JustUsed, Cached, Cache.Valid, Bitmap.Valid, Bitmap.Bits, Holds, SameExcept, Words, Marked, Distinct;
      cache.Write(s, data);
      WroteOne(old(Disk()), Disk(), s);
      MapUndisturbed(old(Disk()), [s]);
    }

    /** The index block of inode_reserve_indirect. Its allocation is not checked in the source: when
        no sector is free, the zeros go to sector 0. */
    method IndexBlock(entry: nat, level: nat, ghost nodes: seq<nat>, ghost had: nat) returns (entry': nat)
      requires 1 <= level <= 2 && Wf() && Growable(nodes) && Sub(Disk(), level, entry, nodes, had)
      modifies cache, cache.device, cache.slots, freeMap.words, this`mapBytes
      decreases 3, 0
      ensures Wf() && MapReady() && entry' < |Disk()|
      ensures had > 0 ==> entry' == entry && Disk() == old(Disk()) && FreeList() == old(FreeList())
      ensures entry != 0 ==> entry' == entry
      ensures had == 0 && old(FreeList()) == [] ==>
                entry' == 0 && FreeList() == [] && Disk()[0] == ZeroSector()
      ensures had == 0 && old(FreeList()) != [] ==>
                && old(FreeList()) == [entry'] + FreeList() && Disk()[entry'] == ZeroSector()
                && SameExcept(old(Disk()), Disk(), [entry'], mapNodes)
      ensures BlockReady(old(Disk()), Disk(), entry', nodes, old(FreeList()), mapNodes)
    {
      hide Cache.Valid, Bitmap.Valid, Bitmap.Bits, Free, Holds, MapSaved, SameExcept, Marked, Distinct;
      entry' := entry;
      if entry' == 0 {
        var ok, s := AllocateSector();
        assert ok ==> (nodes + old(FreeList()))[|nodes|] == s;
        if ok {
          entry' := s;
        }
        FreshSector(old(Disk()), Disk(), entry', mapNodes);
        WriteBlock(entry', ZeroSector());
      }
    }

    /** One iteration of the loop of inode_reserve_indirect (inode.c:390-395). */
    method ReserveEntry(blocks: seq<nat>, i: nat, subsize: nat, num: nat, level: nat, ghost nodes: seq<nat>, ghost had: nat,
                        ghost free: seq<nat>, ghost disk0: seq<Sector>)
      returns (ok: bool, blocks': seq<nat>)
      requires Wf() && MapReady()
      requires Stage(disk0, Disk(), level, had, num, nodes, free, FreeList(), blocks, i, mapNodes)
      requires Before(level, i) < num && subsize == KidNum(level, num, i)
      modifies cache, cache.device, cache.slots, freeMap.words, this`mapBytes
      decreases 3, 4 * level
      ensures Wf() && MapReady()
      ensures if ok then Stage(disk0, Disk(), level, had, num, nodes, free, FreeList(), blocks', i + 1, mapNodes)
              else Cost(level, num) - Cost(level, had) > |free|
      ensures TreeKept(old(Disk()), Disk(), level, nodes) && PtrsKept(blocks, blocks')
      ensures !ok ==> FreeList() == [] && RanOut(disk0, Disk(), IsLeaf(level, |nodes| + |free|), nodes + free, mapNodes)
    {
      hide Cache.Valid, Bitmap.Valid, Bitmap.Bits, Free, Sub, Fits, Grown, MapFileOk, MapSaved, Wf, Stage, Cost, KidPos, SubLeft, TreeKept, RanOut,
           IsLeaf;
      assert 0 !in mapNodes by { NotInMap(); }
      ghost var disk1, free1 := Disk(), FreeList();
      KidReady(disk0, disk1, level, had, num, nodes, free, free1, blocks, i, mapNodes);
      var e;
      ghost var added;
      ok, e, added := ReserveIndirect(blocks[i], subsize, level - 1, Kid(nodes, level, had, i), KidNum(level, had, i));
      EntryLeft(ok, disk0, disk1, Disk(), level, had, num, nodes, free, free1, FreeList(), added, blocks, i, e, mapNodes);
      if !ok {
        StageStuck(disk0, disk1, level, had, num, nodes, free, free1, blocks, i, mapNodes);
        return false, blocks;
      }
      StageStep(disk0, disk1, Disk(), level, had, num, nodes, free, free1, FreeList(), added, blocks, i, e, mapNodes);
      blocks' := blocks[i := e];
    }

    /** The loop of inode_reserve_indirect over the entries of an index block, held in `blocks`;
        `free` is the free list from before the block itself was allocated. */
    method ReserveEntries(blocks: seq<nat>, num: nat, level: nat, ghost nodes: seq<nat>, ghost had: nat, ghost free: seq<nat>)
      returns (ok: bool, blocks': seq<nat>, ghost last: nat)
      requires Wf() && MapReady() && 1 <= level <= 2 && 0 < num <= Capacity(level)
      requires Stage(Disk(), Disk(), level, had, num, nodes, free, FreeList(), blocks, 0, mapNodes)
      modifies cache, cache.device, cache.slots, freeMap.words, this`mapBytes
      decreases 3, 4 * level + 1
      ensures Wf() && MapReady()
      ensures ok <==> Cost(level, num) - Cost(level, had) <= |free|
      ensures ok ==>
                && num <= Before(level, last)
                && Stage(old(Disk()), Disk(), level, had, num, nodes, free, FreeList(), blocks', last, mapNodes)
      ensures TreeKept(old(Disk()), Disk(), level, nodes) && PtrsKept(blocks, blocks')
      ensures !ok ==> FreeList() == [] && RanOut(old(Disk()), Disk(), IsLeaf(level, |nodes| + |free|), nodes + free, mapNodes)
    {
      hide Cache.Valid, Bitmap.Valid, Bitmap.Bits, Free, MapReady, Wf, Stage, Cost, TreeKept, RanOut, IsLeaf, PtrsKept;
      ghost var disk0 := Disk();
      NothingYet(disk0, level, nodes, blocks);
      var left, i: nat := num, 0;
      blocks' := blocks;
      var l := (num + Unit(level) - 1) / Unit(level);
      while i < l
        invariant i <= l && Wf() && MapReady()
        invariant left == if Before(level, i) <= num then num - Before(level, i) else 0
        invariant Stage(disk0, Disk(), level, had, num, nodes, free, FreeList(), blocks', i, mapNodes)
        invariant TreeKept(disk0, Disk(), level, nodes) && PtrsKept(blocks, blocks')
      {
        var subsize := if left < Unit(level) then left else Unit(level);
        ghost var disk1, blocks1 := Disk(), blocks';
        ok, blocks' := ReserveEntry(blocks', i, subsize, num, level, nodes, had, free, disk0);
        TreeKeptTrans(disk0, disk1, Disk(), level, nodes);
        PtrsKeptTrans(blocks, blocks1, blocks');
        if !ok {
          return false, blocks', i;
        }
        left := left - subsize;
        i := i + 1;
      }
      StageDone(disk0, Disk(), level, had, num, nodes, free, FreeList(), blocks', l, mapNodes);
      return true, blocks', l;
    }

    /** A direct block of inode_reserve (inode.c:417-423). */
    method ReserveDirectBlock(d: InodeDisk, i: nat, ghost d0: InodeDisk, ghost nodes: seq<nat>, ghost had: nat, ghost added: seq<nat>,
                              ghost disk0: seq<Sector>, ghost free: seq<nat>)
      returns (ok: bool, d': InodeDisk, ghost added': seq<nat>)
      requires Wf() && MapReady() && i < 123
      requires Phase(disk0, Disk(), d0, d, nodes, had, added, if had <= i then i else had, free, FreeList(), mapNodes)
      requires FileKept(disk0, Disk(), nodes)
      modifies cache, cache.device, cache.slots, freeMap.words, this`mapBytes
      decreases 3, 4
      ensures Wf() && MapReady() && d'.Valid()
      ensures if ok then Phase(disk0, Disk(), d0, d', nodes, had, added', if had <= i + 1 then i + 1 else had, free, FreeList(), mapNodes)
              else had <= i && i - had == |free|
      ensures FileKept(disk0, Disk(), nodes) && InodeKept(d, d')
      ensures !ok ==> FreeList() == [] && Exhausted(disk0, Disk(), nodes, free, mapNodes)
    {
      hide Cache.Valid, Bitmap.Valid, Bitmap.Bits, Free, Fits, Sub, SameExcept, MapFileOk, MapSaved, Phase, Extended, FileKept, Exhausted;
      ghost var m := if had <= i then i else had;
      ghost var all, disk1, free1 := nodes + added, Disk(), FreeList();
      PhaseFits(disk0, disk1, d0, d, nodes, had, added, m, free, free1, mapNodes);
      ok, d', added' := true, d, added;
      if d.direct[i] == 0 {
        var s;
        ok, s := AllocateSector();
        if ok {
          ghost var disk2, left := Disk(), FreeList();
          FitsTaken(disk1, disk1, all, free1, 1, mapNodes);
          assert free1[..1] == [s];
          FitsApart(disk1, all + [s], mapNodes);
          WriteBlock(s, ZeroSector());
          FreshSector(disk1, disk2, s, mapNodes);
          DirectKept(disk0, disk1, Disk(), nodes, added, free1, 1, mapNodes);
          DirectStep(disk1, Disk(), d, all, i, s, mapNodes);
          d' := d.(direct := d.direct[i := s]);
          added' := added + [s];
          PhaseStep(disk0, disk1, Disk(), d0, d, d', nodes, had, added, m, [s], i + 1, free, free1, left, mapNodes);
        } else {
          assert free1[..0] == [];
          DirectKept(disk0, disk1, Disk(), nodes, added, free1, 0, mapNodes);
          DirectExhausted(disk0, disk1, Disk(), d0, d, nodes, had, added, m, free, free1, mapNodes);
        }
      }
    }

    /** The direct blocks of inode_reserve (inode.c:415-426). */
    method ReserveDirect(d: InodeDisk, l: nat, ghost nodes: seq<nat>, ghost had: nat)
      returns (ok: bool, d': InodeDisk, ghost added: seq<nat>)
      requires Wf() && Growable(nodes) && Maps(Disk(), d, nodes, had) && l <= DIRECT_BLOCKS
      modifies cache, cache.device, cache.slots, freeMap.words, this`mapBytes
      decreases 3, 5
      ensures Wf() && MapReady() && d'.Valid()
      ensures if ok then Phase(old(Disk()), Disk(), d, d', nodes, had, added, if had <= l then l else had, old(FreeList()), FreeList(), mapNodes)
              else had <= l && l - had > |old(FreeList())|
      ensures FileKept(old(Disk()), Disk(), nodes) && InodeKept(d, d')
      ensures !ok ==> FreeList() == [] && Exhausted(old(Disk()), Disk(), nodes, old(FreeList()), mapNodes)
    {
      hide Cache.Valid, Bitmap.Valid, Bitmap.Bits, Free, Fits, MapFileOk, MapSaved, Phase, FileKept, Exhausted, InodeKept;
      InodeKeptRefl(d);
      PhaseInit(Disk(), d, nodes, had, FreeList(), mapNodes);
      NothingWritten(Disk(), nodes);
      assert d.Valid();
      hide Maps;
      ok, d', added := true, d, [];
      ghost var disk0, free := Disk(), FreeList();
      var i := 0;
      while i < l
        invariant i <= l && Wf() && MapReady() && d'.Valid()
        invariant Phase(disk0, Disk(), d, d', nodes, had, added, if had <= i then i else had, free, FreeList(), mapNodes)
        invariant FileKept(disk0, Disk(), nodes) && InodeKept(d, d')
      {
        ghost var d1 := d';
        ok, d', added := ReserveDirectBlock(d', i, d, nodes, had, added, disk0, free);
        InodeKeptTrans(d, d1, d');
        if !ok {
          return;
        }
        i := i + 1;
      }
      ok := true;
    }

    /** inode_reserve. */
    method Reserve(d: InodeDisk, length: nat, ghost nodes: seq<nat>, ghost had: nat)
      returns (ok: bool, d': InodeDisk, ghost added: seq<nat>)
      requires Wf() && Growable(nodes) && Maps(Disk(), d, nodes, had)
      requires had <= BytesToSectors(length) <= MAX_SECTORS || length == 0
      modifies cache, cache.device, cache.slots, freeMap.words, this`mapBytes
      decreases 4, 0
      ensures Wf() && MapReady() && d'.Valid()
      ensures length == 0 ==> ok && d' == d && added == [] && Disk() == old(Disk()) && Bits() == old(Bits())
      ensures length > 0 ==> (ok <==> InodeCost(BytesToSectors(length)) - InodeCost(had) <= |old(FreeList())|)
      ensures ok && length > 0 ==>
                && |added| == InodeCost(BytesToSectors(length)) - InodeCost(had)
                && added + FreeList() == old(FreeList())
                && Extended(old(Disk()), Disk(), d', nodes, added, BytesToSectors(length), mapNodes)
                && d'.length == d.length && d'.isDir == d.isDir
                && LeastReserved(Disk(), d', nodes + added, length)
      ensures !ok ==> FreeList() == [] && Exhausted(old(Disk()), Disk(), nodes, old(FreeList()), mapNodes) && InodeKept(d, d')
      ensures !ok ==> Disk()[0] == if IsData(|nodes| + |old(FreeList())|) then old(Disk())[0] else ZeroSector()
    {
      hide Cache.Valid, Bitmap.Valid, Bitmap.Bits, Free, Fits, Sub, SameExcept, MapFileOk, MapSaved, Phase, InodeCost, Extended, Exhausted,
           FileKept, IsData, InodeKept, LeastReserved;
      assert d.Valid();
      hide Maps;
      var num := BytesToSectors(length);
      var l := if num < DIRECT_BLOCKS then num else DIRECT_BLOCKS;
      ghost var disk0, free := Disk(), FreeList();
      assert 0 !in mapNodes by { NotInMap(); }
      if num == 0 {
        return true, d, [];
      }
      ok, d', added := ReserveDirect(d, l, nodes, had);
      ghost var m := if had <= l then l else had;
      if !ok {
        DirectCosts(had, l, num);
        SectorZero(disk0, Disk(), nodes, free, mapNodes);
        return;
      }
      if num <= DIRECT_BLOCKS {
        PhaseDone(disk0, Disk(), d, d', nodes, had, added, m, free, FreeList(), mapNodes);
        ReservedForBytes(disk0, Disk(), d', nodes, added, length, mapNodes);
        return;
      }
      ghost var m', d1 := 0, d';
      ok, d', added, m' := ReserveIndirectRange(d', num - DIRECT_BLOCKS, num, d, nodes, had, added, m, disk0, free);
      InodeKeptTrans(d, d1, d');
      if ok && num > DIRECT_BLOCKS + PTRS_PER_SECTOR {
        d1 := d';
        ok, d', added := ReserveDoublyRange(d', num - (DIRECT_BLOCKS + PTRS_PER_SECTOR), num, d, nodes, had, added, m', disk0, free);
        InodeKeptTrans(d, d1, d');
      }
      if ok {
        PhaseDone(disk0, Disk(), d, d', nodes, had, added, num, free, FreeList(), mapNodes);
        ReservedForBytes(disk0, Disk(), d', nodes, added, length, mapNodes);
      } else {
        SectorZero(disk0, Disk(), nodes, free, mapNodes);
      }
    }

    /** The indirect block of inode_reserve (inode.c:428-434). */
    method ReserveIndirectRange(d: InodeDisk, left: nat, ghost num: nat, ghost d0: InodeDisk, ghost nodes: seq<nat>, ghost had: nat,
                                ghost added: seq<nat>, ghost m: nat, ghost disk0: seq<Sector>, ghost free: seq<nat>)
      returns (ok: bool, d': InodeDisk, ghost added': seq<nat>, ghost m': nat)
      requires Wf() && MapReady() && 123 <= m <= num <= MAX_SECTORS && 0 < left == num - 123 && FileKept(disk0, Disk(), nodes)
      requires Phase(disk0, Disk(), d0, d, nodes, had, added, m, free, FreeList(), mapNodes)
      modifies cache, cache.device, cache.slots, freeMap.words, this`mapBytes
      decreases 3, 20
      ensures Wf() && MapReady() && d'.Valid()
      ensures if ok then m' == AfterIndirect(m, num) && Phase(disk0, Disk(), d0, d', nodes, had, added', m', free, FreeList(), mapNodes)
              else InodeCost(num) - InodeCost(had) > |free|
      ensures FileKept(disk0, Disk(), nodes) && InodeKept(d, d')
      ensures !ok ==> FreeList() == [] && Exhausted(disk0, Disk(), nodes, free, mapNodes)
    {
      hide Cache.Valid, Bitmap.Valid, Bitmap.Bits, Free, Fits, SameExcept, MapFileOk, MapSaved, Phase, Extended, Grown, Sub, Cost, InodeCost,
           FileKept, Exhausted, SubLeft, IsLeaf, IsData;
      ghost var all, disk1, free1 := nodes + added, Disk(), FreeList();
      PhaseFits(disk0, disk1, d0, d, nodes, had, added, m, free, free1, mapNodes);
      PhaseCosts(had, m, num);
      PartsFit(disk1, d, all, m, free1, mapNodes);
      var l := if left < PTRS_PER_SECTOR then left else PTRS_PER_SECTOR;
      var e;
      ghost var b;
      ok, e, b := ReserveIndirect(d.indirect, l, 1, IndirectPart(all, m), Indirect(m));
      IndirectLeft(ok, disk0, disk1, Disk(), d0, d, nodes, had, added, m, num, free, free1, FreeList(), e, b, mapNodes);
      m' := AfterIndirect(m, num);
      d', added' := d.(indirect := e), added;
      if ok {
        FitsTaken(disk1, disk1, all, free1, |b|, mapNodes);
        assert free1[..|b|] == b;
        IndirectPhase(disk1, Disk(), d, all, m, e, b, num, mapNodes);
        added' := added + b;
        PhaseStep(disk0, disk1, Disk(), d0, d, d', nodes, had, added, m, b, m', free, free1, FreeList(), mapNodes);
      }
    }

    /** The doubly indirect block of inode_reserve (inode.c:436-443). */
    method ReserveDoublyRange(d: InodeDisk, left: nat, ghost num: nat, ghost d0: InodeDisk, ghost nodes: seq<nat>, ghost had: nat,
                              ghost added: seq<nat>, ghost m: nat, ghost disk0: seq<Sector>, ghost free: seq<nat>)
      returns (ok: bool, d': InodeDisk, ghost added': seq<nat>)
      requires Wf() && MapReady() && 251 <= m <= num <= MAX_SECTORS && 0 < left == num - 251 && FileKept(disk0, Disk(), nodes)
      requires Phase(disk0, Disk(), d0, d, nodes, had, added, m, free, FreeList(), mapNodes)
      modifies cache, cache.device, cache.slots, freeMap.words, this`mapBytes
      decreases 3, 20
      ensures Wf() && MapReady() && d'.Valid()
      ensures if ok then Phase(disk0, Disk(), d0, d', nodes, had, added', num, free, FreeList(), mapNodes)
              else InodeCost(num) - InodeCost(had) > |free|
      ensures FileKept(disk0, Disk(), nodes) && InodeKept(d, d')
      ensures !ok ==> FreeList() == [] && Exhausted(disk0, Disk(), nodes, free, mapNodes)
    {
      hide Cache.Valid, Bitmap.Valid, Bitmap.Bits, Free, Fits, SameExcept, MapFileOk, MapSaved, Phase, Extended, Grown, Sub, Cost, InodeCost,
           FileKept, Exhausted, SubLeft, IsLeaf, IsData;
      ghost var all, disk1, free1 := nodes + added, Disk(), FreeList();
      PhaseFits(disk0, disk1, d0, d, nodes, had, added, m, free, free1, mapNodes);
      PhaseCosts(had, m, num);
      PartsFit(disk1, d, all, m, free1, mapNodes);
      var l := if left < PTRS_PER_SECTOR * PTRS_PER_SECTOR then left else PTRS_PER_SECTOR * PTRS_PER_SECTOR;
      var e;
      ghost var b;
      ok, e, b := ReserveIndirect(d.doubly, l, 2, DoublyPart(all, m), Doubly(m));
      DoublyLeft(ok, disk0, disk1, Disk(), d0, d, nodes, had, added, m, num, free, free1, FreeList(), e, b, mapNodes);
      d', added' := d.(doubly := e), added;
      if ok {
        FitsTaken(disk1, disk1, all, free1, |b|, mapNodes);
        assert free1[..|b|] == b;
        DoublyStep(disk1, Disk(), d, all, m, e, b, num, mapNodes);
        added' := added + b;
        PhaseStep(disk0, disk1, Disk(), d0, d, d', nodes, had, added, m, b, num, free, free1, FreeList(), mapNodes);
      }
    }
  }
}
