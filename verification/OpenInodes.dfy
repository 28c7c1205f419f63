/** Inodes in memory: opened, read, written, removed and closed (a3/fs/inode.c). */
module OpenInodes {
  import opened Sectors
  import opened InodeTree
  import opened InodeMap
  import opened InodeGrowth
  import opened OutOfSpace
  import opened FileBytes
  import opened FreeSpace
  import opened BufferCache
  import opened Bitmaps
  import opened FileSystem
  import opened Inodes

  /** A write of a nonempty buffer, or one that only pads, as a step from one file to another. */
  lemma WithinIsRegrown(disk0: seq<Sector>, disk: seq<Sector>, free: seq<nat>, sector: nat, d: InodeDisk,
                        nodes: seq<nat>, data: seq<byte>, buf: seq<byte>, offset: nat, log: seq<nat>)
    requires FileAt(disk0, sector, d, nodes, data) && sector !in nodes
    requires !Extends(|data|, |buf|, offset)
    requires Written(disk0, disk, nodes, BytesToSectors(|data|), buf, offset, offset + |buf|)
    ensures Growth(|data|, offset + |buf|) == 0 && SameExcept(disk0, disk, nodes, [])
    ensures Regrown(disk0, disk, free, free, sector, d, d, nodes, [], 0, Splice(data, offset, buf), log)
  {
    hide Holds, DecodeInode, InodeCost, BytesToSectors, Splice, Written, Growth;
    HoldsWritten(disk0, disk, d, nodes, data, buf, offset);
    if |buf| == 0 {
      SpliceNothing(data, offset, buf);
    }
    GrowthBetween(|data|, offset + |buf|);
    assert nodes + [] == nodes;
    assert free[..0] == [] && free[0..] == free;
    SameExceptFrom(disk0, disk, nodes, sector, log);
  }

  lemma SpliceNothing(data: seq<byte>, offset: nat, buf: seq<byte>)
    requires |buf| == 0 && offset <= |data|
    ensures Splice(data, offset, buf) == data
  {
  }

  lemma SameExceptFrom(disk0: seq<Sector>, disk: seq<Sector>, nodes: seq<nat>, sector: nat, log: seq<nat>)
    requires SameExcept(disk0, disk, nodes, [])
    ensures SameExcept(disk0, disk, nodes + [sector], log)
    ensures sector < |disk0| && sector !in nodes ==> disk[sector] == disk0[sector]
  {
  }

  /** An inode created and then closed as removed: what inode_create took, inode_close gives back, so the
      bitmap is what it was but for the inode's own sector. */
  lemma CreateCloseRoundTrip(disk0: seq<Sector>, disk1: seq<Sector>, bits0: seq<bool>, bits1: seq<bool>, bits2: seq<bool>, sector: nat,
                             d0: InodeDisk, d: InodeDisk, nodes: seq<nat>, k: nat, data: seq<byte>, log: seq<nat>)
    requires Regrown(disk0, disk1, Free(bits0), Free(bits1), sector, d0, d, [], nodes, k, data, log) && |bits1| == |bits0|
    requires bits2 == Clear(bits1, [sector] + nodes)
    ensures bits2 == Clear(bits0, [sector])
  {
    ClearUndoesTake(bits0, bits1, k);
    hide Free;
    ClearAppend(bits1, nodes, [sector]);
    assert forall x | 0 <= x < |bits1| :: x in [sector] + nodes <==> x in nodes + [sector];
  }

  /** inode_write_at on a file's inode, within the file or past its end. */
  method SpliceFile(fs: FileSys, sector: nat, d: InodeDisk, buf: seq<byte>, offset: nat, ghost nodes: seq<nat>, ghost bytes: seq<byte>)
    returns (written: nat, d': InodeDisk, ghost added: seq<nat>)
    requires fs.Wf() && FileAt(fs.Disk(), sector, d, nodes, bytes) && fs.Growable(nodes) && fs.OwnSector(sector, nodes)
    requires 0 < offset + |buf| <= SECTOR_SIZE * MAX_SECTORS
    modifies fs.cache, fs.cache.device, fs.cache.slots, fs.freeMap.words, fs`mapBytes
    ensures fs.Wf() && fs.MapReady()
    ensures if Growth(|bytes|, offset + |buf|) <= |old(fs.FreeList())|
            then && written == |buf|
                 && Regrown(old(fs.Disk()), fs.Disk(), old(fs.FreeList()), fs.FreeList(), sector, d, d', nodes, added,
                            Growth(|bytes|, offset + |buf|), Splice(bytes, offset, buf), fs.mapNodes)
            else written == 0 && NoRoom(old(fs.Disk()), fs.Disk(), d, d', nodes, old(fs.FreeList()), fs.FreeList(), bytes, fs.mapNodes)
  {
    hide Cache.Valid, Bitmap.Valid, Bitmap.Bits, Free, Written, Splice, Regrown, Growth, Fits, Marked, Distinct, SameExcept, Holds,
         DecodeInode, Words, BitsOf, BytesToSectors, NoRoom;
    ghost var disk0, free0 := fs.Disk(), fs.FreeList();
    FitsApart(disk0, nodes + free0, fs.mapNodes);
    DistinctPrefix(nodes, free0);
    assert sector !in nodes;
    HoldsLength(disk0, d, nodes, bytes);
    written, d', added := fs.WriteAt(sector, d, buf, offset, nodes, bytes);
    if !Extends(|bytes|, |buf|, offset) {
      added := [];
      WithinIsRegrown(disk0, fs.Disk(), free0, sector, d, nodes, bytes, buf, offset, fs.mapNodes);
      fs.MapUndisturbed(disk0, nodes);
    }
  }

  class Inode {
    const fs: FileSys
    const sector: nat
    var data: InodeDisk
    var removed: bool
    var denyWriteCnt: nat
    /** The sectors of the inode's tree and the bytes they hold. */
    ghost var nodes: seq<nat>
    ghost var bytes: seq<byte>

    /** The inode in memory is the one on the disk. */
    ghost predicate Loaded()
      reads this, fs.cache`disk
    {
      FileAt(fs.Disk(), sector, data, nodes, bytes)
    }

    /** inode_open. */
    constructor (fs: FileSys, sector: nat, ghost d: InodeDisk, ghost nodes: seq<nat>, ghost bytes: seq<byte>)
      requires fs.Wf() && FileAt(fs.Disk(), sector, d, nodes, bytes)
      modifies fs.cache`clock, fs.cache.device, fs.cache.slots
      ensures fs.Wf() && this.fs == fs && this.sector == sector && this.nodes == nodes && this.bytes == bytes
      ensures Loaded() && data == d && !removed && denyWriteCnt == 0
    {
      hide Cache.Valid, Bitmap.Valid, Bitmap.Bits, Free, Holds;
      this.fs, this.sector, this.nodes, this.bytes := fs, sector, nodes, bytes;
      removed, denyWriteCnt := false, 0;
      new;
      var block := fs.ReadBlock(sector);
      data := DecodeInode(block);
    }

    /** inode_read_at. */
    method ReadAt(size: nat, offset: nat) returns (buf: seq<byte>)
      requires fs.Wf() && Loaded()
      modifies fs.cache`clock, fs.cache.device, fs.cache.slots
      ensures fs.Wf() && Loaded()
      ensures buf == Slice(bytes, offset, size)
      ensures |buf| == if offset >= |bytes| then 0 else if size <= |bytes| - offset then size else |bytes| - offset
      ensures forall i | 0 <= i < |buf| :: buf[i] == bytes[offset + i]
    {
      HoldsReads(fs.Disk(), data, nodes, bytes);
      hide Cache.Valid, Bitmap.Valid, Bitmap.Bits, Free, Holds, Reads;
      buf := fs.ReadAt(data, size, offset, bytes);
    }

    /** inode_write_at: the buffer is spliced into the bytes and the file extended as needed, with the
        lowest free sectors; nothing else changes but the free map file. */
    method WriteAt(buf: seq<byte>, offset: nat) returns (written: nat, ghost added: seq<nat>)
      requires fs.Wf() && Loaded() && fs.Growable(nodes) && fs.OwnSector(sector, nodes)
      requires 0 < offset + |buf| <= SECTOR_SIZE * MAX_SECTORS
      modifies this`data, this`nodes, this`bytes, fs.cache, fs.cache.device, fs.cache.slots, fs.freeMap.words, fs`mapBytes
      ensures fs.Wf() && fs.MapReady()
      ensures denyWriteCnt > 0 ==>
                written == 0 && fs.Disk() == old(fs.Disk()) && fs.Bits() == old(fs.Bits())
                && data == old(data) && bytes == old(bytes) && nodes == old(nodes)
      ensures denyWriteCnt == 0 ==>
                if Growth(|old(bytes)|, offset + |buf|) <= |old(fs.FreeList())|
                then && written == |buf| && Loaded()
                     && nodes == old(nodes) + added && bytes == Splice(old(bytes), offset, buf)
                     && Regrown(old(fs.Disk()), fs.Disk(), old(fs.FreeList()), fs.FreeList(), sector, old(data), data,
                                old(nodes), added, Growth(|old(bytes)|, offset + |buf|), bytes, fs.mapNodes)
                else && written == 0 && nodes == old(nodes) && bytes == old(bytes)
                     && NoRoom(old(fs.Disk()), fs.Disk(), old(data), data, nodes, old(fs.FreeList()), fs.FreeList(), bytes, fs.mapNodes)
    {
      hide Cache.Valid, Bitmap.Valid, Bitmap.Bits, Free, Holds, Written, Splice, Regrown, Growth, Fits, Marked, Distinct, SameExcept, NoRoom;
      if denyWriteCnt > 0 {
        return 0, [];
      }
      written, added := SpliceAt(buf, offset);
    }

    /** Writing to an inode that may be written to. */
    method SpliceAt(buf: seq<byte>, offset: nat) returns (written: nat, ghost added: seq<nat>)
      requires fs.Wf() && Loaded() && fs.Growable(nodes) && fs.OwnSector(sector, nodes)
      requires 0 < offset + |buf| <= SECTOR_SIZE * MAX_SECTORS
      modifies this`data, this`nodes, this`bytes, fs.cache, fs.cache.device, fs.cache.slots, fs.freeMap.words, fs`mapBytes
      ensures fs.Wf() && fs.MapReady()
      ensures if Growth(|old(bytes)|, offset + |buf|) <= |old(fs.FreeList())|
              then && written == |buf| && Loaded()
                   && nodes == old(nodes) + added && bytes == Splice(old(bytes), offset, buf)
                   && Regrown(old(fs.Disk()), fs.Disk(), old(fs.FreeList()), fs.FreeList(), sector, old(data), data,
                              old(nodes), added, Growth(|old(bytes)|, offset + |buf|), bytes, fs.mapNodes)
              else && written == 0 && nodes == old(nodes) && bytes == old(bytes)
                   && NoRoom(old(fs.Disk()), fs.Disk(), old(data), data, nodes, old(fs.FreeList()), fs.FreeList(), bytes, fs.mapNodes)
    {
      hide Cache.Valid, Bitmap.Valid, Bitmap.Bits, Free, Splice, Regrown, Growth, Fits, Marked, Distinct, SameExcept, Holds, DecodeInode, NoRoom,
           FileSys.MapReady;
      ghost var disk0, free0, bytes' := fs.Disk(), fs.FreeList(), Splice(bytes, offset, buf);
      var d';
      written, d', added := SpliceFile(fs, sector, data, buf, offset, nodes, bytes);
      if Growth(|bytes|, offset + |buf|) <= |free0| {
        RegrownFile(disk0, fs.Disk(), free0, fs.FreeList(), sector, data, d', nodes, added,
                    Growth(|bytes|, offset + |buf|), bytes', fs.mapNodes);
        nodes, bytes := nodes + added, bytes';
      }
      data := d';
    }

    /** inode_deny_write and inode_allow_write. */
    method DenyWrite()
      modifies this`denyWriteCnt
      ensures denyWriteCnt == old(denyWriteCnt) + 1
    {
      denyWriteCnt := denyWriteCnt + 1;
    }

    method AllowWrite()
      requires denyWriteCnt > 0
      modifies this`denyWriteCnt
      ensures denyWriteCnt == old(denyWriteCnt) - 1
    {
      denyWriteCnt := denyWriteCnt - 1;
    }

    /** inode_remove. */
    method Remove()
      modifies this`removed
      ensures removed
    {
      removed := true;
    }

    /** inode_close by the last opener: a removed inode's sectors, its own included, are released,
        each exactly once; nothing else is. */
    method Close()
      requires fs.Wf() && Loaded()
      requires removed ==> fs.MapReady() && fs.mapOpen && fs.Releasable([sector] + nodes)
      modifies fs.cache, fs.cache.device, fs.cache.slots, fs.freeMap.words, fs`mapBytes
      ensures fs.Wf()
      ensures !removed ==> fs.Bits() == old(fs.Bits()) && fs.Disk() == old(fs.Disk()) && fs.mapBytes == old(fs.mapBytes)
      ensures removed ==>
                && fs.MapReady() && fs.Bits() == Clear(old(fs.Bits()), [sector] + nodes)
                && SameExcept(old(fs.Disk()), fs.Disk(), [], fs.mapNodes)
    {
      hide Cache.Valid, Bitmap.Valid, Bitmap.Bits, Free, Stores, Freeing, Clear, Marked, Distinct, SameExcept, DecodeInode,
           Words, BitsOf, FileSys.MapReady, FileSys.Wf;
      if removed {
        ghost var all := [sector] + nodes;
        ghost var disk0, bits0, log := fs.Disk(), fs.Bits(), fs.mapNodes;
        FreeingInit(disk0, bits0, all, 0, log);
        FreeingRest(disk0, disk0, bits0, bits0, all, 0, 0, 1, log);
        assert all[0..1] == [sector];
        fs.ReleaseSector(sector);
        ghost var disk1, bits1 := fs.Disk(), fs.Bits();
        FreeingStep(disk0, disk0, disk1, bits0, bits0, all, 0, 0, 1, log);
        FreeingRest(disk0, disk1, bits0, bits1, all, 0, 1, |all|, log);
        assert all[1..|all|] == nodes;
        MapsUntouched(disk0, disk1, data, nodes, BytesToSectors(data.length), log);
        hide Maps;
        Deallocate(fs, data, nodes);
        FreeingStep(disk0, disk1, fs.Disk(), bits0, bits1, all, 0, 1, |all|, log);
        FreeingAll(disk0, fs.Disk(), bits0, fs.Bits(), all, log);
      }
    }
  }

  lemma DistinctPrefix(a: seq<nat>, b: seq<nat>)
    requires Distinct(a + b)
    ensures Distinct(a)
  {
    forall i, j | 0 <= i < j < |a|
      ensures a[i] != a[j]
    {
      assert (a + b)[i] == a[i] && (a + b)[j] == a[j];
    }
  }

  /** A new inode's sectors, its own included, may be released. */
  lemma CreatedReleasable(disk: seq<Sector>, bits0: seq<bool>, bits: seq<bool>, sector: nat, nodes: seq<nat>, k: nat, log: seq<nat>)
    requires |bits| == |bits0| < |disk| && k <= |Free(bits0)| && nodes == Free(bits0)[..k] && Free(bits) == Free(bits0)[k..]
    requires Fits(disk, Free(bits0), log) && 0 < sector < |bits0| && bits0[sector] && sector !in log
    ensures Marked(bits, [sector] + nodes) && Distinct([sector] + nodes) && 0 !in [sector] + nodes
    ensures forall x | x in [sector] + nodes :: x !in log
  {
    ClearUndoesTake(bits0, bits, k);
    FreeMembers(bits0);
    var free, own := Free(bits0), [sector] + nodes;
    hide Free;
    forall i | 0 <= i < |own|
      ensures 0 < own[i] < |bits| && bits[own[i]] && own[i] !in log && (bits0[own[i]] <==> i == 0)
    {
      if i > 0 {
        assert own[i] == free[i - 1] && own[i] in free && own[i] in nodes;
      }
    }
    forall i, j | 0 <= i < j < |own|
      ensures own[i] != own[j]
    {
      assert own[j] == free[j - 1];
    }
  }

  /** inode_open, inode_remove and inode_close. */
  method Discard(fs: FileSys, sector: nat, ghost d: InodeDisk, ghost nodes: seq<nat>, ghost data: seq<byte>)
    requires fs.Wf() && fs.MapReady() && fs.mapOpen && FileAt(fs.Disk(), sector, d, nodes, data) && fs.Releasable([sector] + nodes)
    modifies fs.cache, fs.cache.device, fs.cache.slots, fs.freeMap.words, fs`mapBytes
    ensures fs.Wf() && fs.MapReady()
    ensures fs.Bits() == Clear(old(fs.Bits()), [sector] + nodes)
    ensures SameExcept(old(fs.Disk()), fs.Disk(), [], fs.mapNodes)
  {
    hide Cache.Valid, Bitmap.Valid, Bitmap.Bits, Free, FileSys.MapReady, FileAt, Clear, SameExcept, Words, BitsOf, Marked, Distinct;
    var inode := new Inode(fs, sector, d, nodes, data);
    inode.Remove();
    inode.Close();
  }

  /** inode_create in a sector in use, then inode_open, inode_remove and inode_close: all that creating took is
      given back, and the inode's own sector with it. */
  method CreateThenRemove(fs: FileSys, sector: nat, length: nat, isDir: bool) returns (ok: bool)
    requires fs.Wf() && fs.Growable([]) && fs.mapOpen && fs.OwnSector(sector, []) && fs.Releasable([sector])
    requires length <= SECTOR_SIZE * MAX_SECTORS
    modifies fs.cache, fs.cache.device, fs.cache.slots, fs.freeMap.words, fs`mapBytes
    ensures fs.Wf() && fs.MapReady()
    ensures ok <==> InodeCost(BytesToSectors(length)) <= |old(fs.FreeList())|
    ensures ok ==> fs.Bits() == Clear(old(fs.Bits()), [sector])
    ensures ok ==> SameExcept(old(fs.Disk()), fs.Disk(), old(fs.FreeList()) + [sector], fs.mapNodes)
  {
    hide Cache.Valid, Bitmap.Valid, Bitmap.Bits, Free, FileSys.MapReady, FileAt, Regrown, InodeCost, BytesToSectors, EmptyInode, Zeros,
         Fits, Clear, SameExcept, Words, BitsOf, Exhausted, IsData, Marked, Distinct;
    ghost var disk0, bits0, log := fs.Disk(), fs.Bits(), fs.mapNodes;
    InUse(bits0, sector);
    ghost var d, nodes;
    ok, d, nodes := CreateInode(fs, sector, length, isDir);
    if !ok {
      return;
    }
    ghost var disk1, bits1, k := fs.Disk(), fs.Bits(), InodeCost(BytesToSectors(length));
    RegrownFile(disk0, disk1, Free(bits0), Free(bits1), sector, EmptyInode(length, isDir), d, [], nodes, k, Zeros(length), log);
    assert [] + nodes == nodes && [] + Free(bits0) == Free(bits0);
    CreatedReleasable(disk0, bits0, bits1, sector, nodes, k, log);
    Discard(fs, sector, d, nodes, Zeros(length));
    CreateCloseRoundTrip(disk0, disk1, bits0, bits1, fs.Bits(), sector, EmptyInode(length, isDir), d, nodes, k, Zeros(length), log);
    RoundTripDisk(disk0, disk1, fs.Disk(), nodes, sector, Free(bits0), log);
  }

  lemma InUse(bits: seq<bool>, s: nat)
    requires Marked(bits, [s]) && 0 !in [s]
    ensures 0 < s < |bits| && bits[s]
  {
    assert [s][0] == s;
  }

  lemma RoundTripDisk(disk0: seq<Sector>, disk1: seq<Sector>, disk2: seq<Sector>, nodes: seq<nat>, sector: nat, free: seq<nat>, log: seq<nat>)
    requires SameExcept(disk0, disk1, nodes + [sector], log) && SameExcept(disk1, disk2, [], log) && nodes <= free
    ensures SameExcept(disk0, disk2, free + [sector], log)
  {
    SameExceptWiden(disk0, disk1, nodes + [sector], free + [sector], log);
    SameExceptChain(disk0, disk1, disk2, free + [sector], [], log);
  }

  /** The same with the inode's sector allocated first, as filesys_create does: the bitmap is restored, bit for bit. */
  method AllocateThenRemove(fs: FileSys, length: nat, isDir: bool) returns (ok: bool)
    requires fs.Wf() && fs.MapReady() && fs.mapOpen && length <= SECTOR_SIZE * MAX_SECTORS
    modifies fs.cache, fs.cache.device, fs.cache.slots, fs.freeMap.words, fs`mapBytes
    ensures fs.Wf() && fs.MapReady()
    ensures ok <==> 1 + InodeCost(BytesToSectors(length)) <= |old(fs.FreeList())|
    ensures ok ==> fs.Bits() == old(fs.Bits())
  {
    hide Cache.Valid, Bitmap.Valid, Bitmap.Bits, Free, FileSys.MapSaved, FileSys.MapStored, InodeCost, BytesToSectors, Fits, Clear, SameExcept, Words,
         BitsOf, Marked, Distinct;
    ghost var bits0 := fs.Bits();
    var s;
    ok, s := fs.AllocateSector();
    if ok {
      TakenSector(fs.Disk(), bits0, fs.Bits(), s, fs.mapNodes);
      ok := CreateThenRemove(fs, s, length, isDir);
    }
  }

  /** A sector just taken may become an inode's, and given back leaves the bitmap as it was. */
  lemma TakenSector(disk: seq<Sector>, bits0: seq<bool>, bits: seq<bool>, s: nat, log: seq<nat>)
    requires |bits| == |bits0| && 0 < |bits| < |disk| && bits[0] && Free(bits0) == [s] + Free(bits) && s > 0
    requires Marked(bits0, log)
    ensures Fits(disk, [] + Free(bits), log) && s < |disk| && s !in [] + Free(bits) && s !in log
    ensures Marked(bits, [s]) && Distinct([s]) && 0 !in [s]
    ensures Clear(bits, [s]) == bits0
  {
    FreeMembers(bits0);
    FreeMembers(bits);
    assert Free(bits0)[..1] == [s] && Free(bits0)[0] in Free(bits0);
    ClearUndoesTake(bits0, bits, 1);
    hide Free;
    forall i | 0 <= i < |log|
      ensures bits[log[i]]
    {
    }
    FitsFromMarked(disk, bits, [], log);
  }
}
