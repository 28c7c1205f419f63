/** The volume: files created, opened, written, read and removed by name (a3/fs/filesys.c). */
module Volumes {
  import opened Sectors
  import opened InodeTree
  import opened InodeMap
  import opened OutOfSpace
  import opened FileBytes
  import opened FreeSpace
  import opened BufferCache
  import opened Bitmaps
  import opened FileSystem
  import opened Inodes
  import opened OpenInodes
  import opened FreeMapFile
  import opened DirEntries
  import opened Directory
  import opened FileTable
  import opened VolumeState

  /** Sectors of a new file of `size` bytes, besides its inode's. */
  function FileCost(size: nat): nat {
    InodeCost(BytesToSectors(size))
  }

  /** Sectors filesys_create may use: the inode's, the file's and those of a growing root directory. */
  ghost function CreateNeed(table: map<nat, File>, size: nat): nat
    requires ROOT_DIR_SECTOR in table
  {
    1 + FileCost(size) + DirGrowth(table[ROOT_DIR_SECTOR].data)
  }

  /** Is there space for all filesys_create does for this name? */
  ghost predicate RoomToCreate(table: map<nat, File>, name: seq<byte>, size: nat, free: nat)
    requires RootOk(table)
  {
    && 1 + FileCost(size) <= free
    && (ValidName(name) && name !in Files(table) ==> CreateNeed(table, size) <= free)
  }

  /** Without space for a new file, or for a root directory of `root` sectors to grow: does filesys_create
      overwrite sector 0? It does if the sector it could not have was to be an index block. */
  predicate CreateLoses(root: nat, size: nat, free: nat) {
    && free > 0
    && !IsData(if free < 1 + FileCost(size) then free - 1 else root + (free - 1 - FileCost(size)))
  }

  lemma WhatIsLost(root: nat, size: nat, free: nat)
    ensures free == 0 ==> !CreateLoses(root, size, free)
    ensures 0 < free < 1 + FileCost(size) ==> (CreateLoses(root, size, free) <==> !IsData(free - 1))
    ensures 1 + FileCost(size) <= free ==> (CreateLoses(root, size, free) <==> !IsData(root + (free - 1 - FileCost(size))))
  {
  }

  const MAX_FILES_IN_DIRECTORY: nat := 1000

  /** The sizes the on-disk format fixes. */
  lemma Limits()
    ensures SECTOR_SIZE == 512 && DIRECT_BLOCKS == 123 && PTRS_PER_SECTOR == 128 && MAX_SECTORS == 16635
    ensures ENTRY_SIZE == 36 && NAME_MAX == 30 && MAX_FILES_IN_DIRECTORY == 1000 && CACHE_SIZE == 64
    ensures FREE_MAP_SECTOR == 0 && ROOT_DIR_SECTOR == 1 && NO_SECTOR == BITMAP_ERROR == 0xFFFF_FFFF
  {
  }

  /** Sectors the free map file and the root directory of a new volume take. */
  function FormatCost(bitCnt: nat): nat {
    FileCost(MapFileSize(bitCnt)) + FileCost(ENTRY_SIZE * MAX_FILES_IN_DIRECTORY)
  }

  /** A volume at rest: the free map file `m` and the files of the table, on the device. */
  ghost predicate Stored(disk: seq<Sector>, bitCnt: nat, m: File, table: map<nat, File>) {
    && StoredMap(disk, bitCnt, m.d, m.nodes, m.data)
    && VolumeOk(disk, StoredBits(m.data, bitCnt), m.nodes, m.d, table)
    && RootOk(table)
  }

  /** After free_map_create there are no files, and the root directory's sector is waiting for its inode. */
  lemma NewMapOk(disk: seq<Sector>, bits0: seq<bool>, bits: seq<bool>, log: seq<nat>, map0: InodeDisk, r: File)
    requires 2 <= |bits0| == |bits| < |disk| && forall i | 0 <= i < |bits0| :: bits0[i] <==> i < 2
    requires log + Free(bits) == Free(bits0) && DecodeInode(disk[0]) == map0 && r.nodes == []
    ensures VolumeOk(disk, bits, log, map0, map[]) && Candidate(bits, log, map[], ROOT_DIR_SECTOR, r)
    ensures forall x: nat | x < |bits| && bits[x] :: x < 2 || x in log
    ensures Fits(disk, [] + Free(bits), log) && ROOT_DIR_SECTOR !in [] + Free(bits) && ROOT_DIR_SECTOR !in log
  {
    FreeMembers(bits0);
    FreeMembers(bits);
    assert Free(bits0)[..|log|] == log && Free(bits0)[|log|..] == Free(bits);
    ClearUndoesTake(bits0, bits, |log|);
    hide Free, DecodeInode;
    forall x | x in log
      ensures x >= 2
    {
      assert x in Free(bits0);
    }
    FitsFromMarked(disk, bits, [], log);
  }

  /** On a new volume the free map's sectors and the root directory's come first. */
  lemma SystemFirst(bits: seq<bool>, log: seq<nat>, free: seq<nat>, nodes: seq<nat>)
    requires 2 <= |bits| && forall i | 0 <= i < |bits| :: bits[i] <==> i < 2
    requires log + free == Free(bits) && nodes <= free
    ensures SystemPrefix(log, nodes, 2 + |log| + |nodes|)
  {
    FreeSuffix(bits, 2);
    hide Free;
    assert forall i | 0 <= i < |log| :: log[i] == Free(bits)[i] == 2 + i;
    assert forall i | 0 <= i < |nodes| :: nodes[i] == Free(bits)[|log| + i] == 2 + |log| + i;
    forall x: nat
      ensures x < 2 || x in log || x in nodes <==> x < 2 + |log| + |nodes|
    {
      if 2 <= x < 2 + |log| {
        assert log[x - 2] == x;
      } else if 2 + |log| <= x < 2 + |log| + |nodes| {
        assert nodes[x - 2 - |log|] == x;
      }
    }
  }

  /** A new root directory lists nothing. */
  lemma EmptyVolume(bits: seq<bool>, bits': seq<bool>, log: seq<nat>, d: InodeDisk, nodes: seq<nat>, data: seq<byte>)
    requires DirOk(data) && Entries(data) == map[] && d.isDir
    requires |bits'| == |bits| && forall x: nat | x < |bits| && bits[x] :: x < 2 || x in log
    requires forall x | 0 <= x < |bits| :: bits'[x] <==> bits[x] || x in nodes
    ensures RootOk(map[ROOT_DIR_SECTOR := File(d, nodes, data)]) && Files(map[ROOT_DIR_SECTOR := File(d, nodes, data)]) == map[]
    ensures Leaked(bits', log, map[ROOT_DIR_SECTOR := File(d, nodes, data)]) == {}
  {
    hide DirOk, Entries;
    var table := map[ROOT_DIR_SECTOR := File(d, nodes, data)];
    assert RootEntries(table) == map[];
    forall x: nat
      ensures x !in Leaked(bits', log, table)
    {
      if x == 1 || x in nodes {
        assert x in Own(ROOT_DIR_SECTOR, table[ROOT_DIR_SECTOR]);
      }
    }
  }

  class Volume {
    const fs: FileSys
    /** Every file by its inode's sector, the root directory included. */
    ghost var table: map<nat, File>

    /** The file system is running and every file of the table is in order. */
    ghost predicate Running()
      reads this, fs, fs.Repr()
    {
      && this !in fs.Repr() && fs.Wf() && fs.mapOpen && fs.MapReady()
      && VolumeOk(fs.Disk(), fs.Bits(), fs.mapNodes, fs.mapInode, table)
    }

    ghost predicate Valid()
      reads this, fs, fs.Repr()
    {
      Running() && RootOk(table)
    }

    /** The root directory. */
    ghost function Root(): File
      reads this, fs, fs.Repr()
      requires Valid()
    {
      table[ROOT_DIR_SECTOR]
    }

    /** Sectors in use that are unaccounted for. */
    ghost function Leaks(): set<nat>
      reads this, fs`mapNodes, fs.freeMap, fs.freeMap.words
    {
      Leaked(fs.Bits(), fs.mapNodes, table)
    }

    /** filesys_init up to the point where the device is formatted or the free map opened. */
    constructor (device: array<Sector>)
      requires 3 <= device.Length <= BITMAP_ERROR
      ensures fs.Wf() && !fs.mapOpen && fs.MapReady() && this !in fs.Repr() && fresh(fs.Repr() - {device})
      ensures fs.Disk() == device[..] && fs.cache.device == device
      ensures forall i | 0 <= i < |fs.Bits()| :: fs.Bits()[i] <==> i < 2
      ensures table == map[]
    {
      hide Cache.Valid, Bitmap.Valid, Bitmap.Bits;
      fs := new FileSys(device);
      table := map[];
    }

    // ---------- formatting, mounting and unmounting ----------

    /** do_format: an empty root directory beside the free map file. */
    method Format() returns (ok: bool, ghost m: File)
      requires this !in fs.Repr() && fs.Wf() && !fs.mapOpen && fs.MapReady()
      requires forall i | 0 <= i < |fs.Bits()| :: fs.Bits()[i] <==> i < 2
      requires MapFileSize(fs.freeMap.bitCnt) <= SECTOR_SIZE * MAX_SECTORS
      modifies this`table, fs, fs.cache, fs.cache.device, fs.cache.slots, fs.freeMap.words
      ensures fs.Wf()
      ensures ok <==> FormatCost(fs.freeMap.bitCnt) <= |old(fs.FreeList())|
      ensures ok ==>
                && !fs.mapOpen && fs.MapReady() && Stored(fs.Disk(), fs.freeMap.bitCnt, m, table)
                && Files(table) == map[] && |m.data| == MapFileSize(fs.freeMap.bitCnt)
                && Leaked(StoredBits(m.data, fs.freeMap.bitCnt), m.nodes, table) == {}
                && SystemPrefix(m.nodes, table[ROOT_DIR_SECTOR].nodes, 2 + |m.nodes| + |table[ROOT_DIR_SECTOR].nodes|)
                && NumSlots(table[ROOT_DIR_SECTOR].data) == MAX_FILES_IN_DIRECTORY
                && |Free(StoredBits(m.data, fs.freeMap.bitCnt))| == |old(fs.FreeList())| - FormatCost(fs.freeMap.bitCnt)
    {
      hide Cache.Valid, Bitmap.Valid, Bitmap.Bits, Free, VolumeOk, Holds, Words, BitsOf, Marked, Distinct, Image, Stored, StoredBits, SystemPrefix,
           RootOk, Files, Leaked, FileSys.MapFileOk, InodeCost, BytesToSectors;
      ok := FreeMapCreate(fs);
      if ok {
        ok := MakeRoot(old(fs.Bits()));
      }
      m := File(fs.mapInode, fs.mapNodes, fs.mapBytes);
      if ok {
        AtRest();
        FreeMapClose(fs);
      }
    }

    /** do_format once the free map file exists. */
    method MakeRoot(ghost bits0: seq<bool>) returns (ok: bool)
      requires this !in fs.Repr() && fs.Wf() && fs.mapOpen && fs.MapReady() && DecodeInode(fs.Disk()[0]) == fs.mapInode
      requires |bits0| == fs.freeMap.bitCnt && forall i | 0 <= i < |bits0| :: bits0[i] <==> i < 2
      requires fs.mapNodes + fs.FreeList() == Free(bits0)
      modifies this`table, fs.cache, fs.cache.device, fs.cache.slots, fs.freeMap.words, fs`mapBytes
      ensures fs.Wf()
      ensures ok <==> FileCost(ENTRY_SIZE * MAX_FILES_IN_DIRECTORY) <= |old(fs.FreeList())|
      ensures ok ==> Valid() && Files(table) == map[] && Leaks() == {}
      ensures ok ==> SystemPrefix(fs.mapNodes, table[ROOT_DIR_SECTOR].nodes, 2 + |fs.mapNodes| + |table[ROOT_DIR_SECTOR].nodes|)
      ensures ok ==>
                && |table[ROOT_DIR_SECTOR].data| == ENTRY_SIZE * MAX_FILES_IN_DIRECTORY
                && |fs.FreeList()| == |old(fs.FreeList())| - FileCost(ENTRY_SIZE * MAX_FILES_IN_DIRECTORY)
    {
      hide Cache.Valid, Bitmap.Valid, Bitmap.Bits, Free, VolumeOk, Holds, Words, BitsOf, Marked, Distinct, FileAt, Regrown, Entries,
           FileSys.MapFileOk, FileSys.MapSaved, InodeCost, BytesToSectors, NewDirectory, DirOk, EmptyInode, Candidate, Leaked, Fits, SystemPrefix;
      ghost var disk1, bits1 := fs.Disk(), fs.Bits();
      ghost var data := NewDirectory(ROOT_DIR_SECTOR, MAX_FILES_IN_DIRECTORY);
      ghost var r := File(EmptyInode(ENTRY_SIZE * MAX_FILES_IN_DIRECTORY, true), [], []);
      NewMapOk(disk1, bits0, bits1, fs.mapNodes, fs.mapInode, r);
      NewDirectoryEmpty(ROOT_DIR_SECTOR, MAX_FILES_IN_DIRECTORY);
      ghost var d, nodes;
      ok, d, nodes := DirCreate(fs, ROOT_DIR_SECTOR, MAX_FILES_IN_DIRECTORY);
      if ok {
        VolumeGrown(disk1, fs.Disk(), bits1, fs.Bits(), fs.mapNodes, fs.mapInode, map[], ROOT_DIR_SECTOR, r, d, nodes,
                    FileCost(ENTRY_SIZE * MAX_FILES_IN_DIRECTORY), data);
        assert r.nodes + nodes == nodes;
        table := map[ROOT_DIR_SECTOR := File(d, nodes, data)];
        EmptyVolume(bits1, fs.Bits(), fs.mapNodes, d, nodes, data);
        SystemFirst(bits0, fs.mapNodes, Free(bits1), nodes);
      }
    }

    /** What is on the disk of a running volume is a volume at rest. */
    lemma AtRest()
      requires Valid()
      ensures Stored(fs.Disk(), fs.freeMap.bitCnt, File(fs.mapInode, fs.mapNodes, fs.mapBytes), table)
      ensures |fs.mapBytes| == MapFileSize(fs.freeMap.bitCnt) && StoredBits(fs.mapBytes, fs.freeMap.bitCnt) == fs.Bits()
    {
      hide Cache.Valid, Bitmap.Valid, Bitmap.Bits, Holds, DecodeInode, RootOk, TableOk, Words, BitsOf;
      MarkedParts(fs.Bits(), [0], fs.mapNodes);
    }

    /** free_map_open on a volume at rest: its files are the ones stored. */
    method Mount(ghost m: File, ghost files: map<nat, File>)
      requires this !in fs.Repr() && fs.Wf() && !fs.mapOpen && Stored(fs.Disk(), fs.freeMap.bitCnt, m, files)
      modifies this`table, fs, fs.cache`clock, fs.cache.device, fs.cache.slots, fs.freeMap.words
      ensures Valid() && table == files && fs.Disk() == old(fs.Disk())
      ensures |m.data| == MapFileSize(fs.freeMap.bitCnt) && fs.Bits() == StoredBits(m.data, fs.freeMap.bitCnt) && fs.mapNodes == m.nodes
    {
      hide Cache.Valid, Bitmap.Valid, Bitmap.Bits, Holds, DecodeInode, RootOk, TableOk, Words, BitsOf, VolumeOk, StoredMap, StoredBits;
      FreeMapOpen(fs, m.d, m.nodes, m.data);
      table := files;
    }

    /** filesys_done: the free map file is closed and the cache written back, so the device holds it all. */
    method Done() returns (ghost m: File)
      requires Valid()
      modifies fs, fs.cache.device, fs.cache.slots
      ensures fs.cache.device[..] == old(fs.Disk()) && table == old(table)
      ensures Stored(fs.cache.device[..], fs.freeMap.bitCnt, m, table)
      ensures |m.data| == MapFileSize(fs.freeMap.bitCnt) && StoredBits(m.data, fs.freeMap.bitCnt) == old(fs.Bits()) && m.nodes == old(fs.mapNodes)
    {
      hide Cache.Valid, Bitmap.Valid, Bitmap.Bits, Holds, DecodeInode, RootOk, TableOk, Words, BitsOf, Stored, StoredBits;
      AtRest();
      m := File(fs.mapInode, fs.mapNodes, fs.mapBytes);
      FreeMapClose(fs);
      fs.cache.Close();
    }

    // ---------- creating a file ----------

    /** Space has run out while a file was being created: its inode's sector is taken, and either its own sectors
        could not all be had (`nodes` is empty then) or those the root directory had to grow by. `table1` holds the
        files from before that, at a time when the disk was `disk1`. */
    ghost predicate Halted(disk1: seq<Sector>, bits1: seq<bool>, table1: map<nat, File>, nodes: seq<nat>, s: nat)
      reads this`table, fs, fs.Repr()
    {
      && fs.Wf() && fs.mapOpen && fs.MapReady() && fs.FreeList() == [] && 0 < s < fs.freeMap.bitCnt && s !in fs.mapNodes
      && VolumeOk(disk1, bits1, fs.mapNodes, fs.mapInode, table1) && (forall t | t in table :: t in table1 && table1[t] == table[t])
      && (nodes == [] || (ROOT_DIR_SECTOR in table1 && nodes == table1[ROOT_DIR_SECTOR].nodes))
      && Exhausted(disk1, fs.Disk(), nodes, Free(bits1), fs.mapNodes)
    }

    /** The first two steps of filesys_create: an inode sector, and an inode of zero bytes in it. */
    method NewInode(size: nat) returns (ok: bool, s: nat, ghost f: File, ghost disk1: seq<Sector>, ghost bits1: seq<bool>)
      requires Running() && size <= SECTOR_SIZE * MAX_SECTORS
      modifies fs.cache, fs.cache.device, fs.cache.slots, fs.freeMap.words, fs`mapBytes
      ensures fs.Wf() && fs.mapOpen && fs.MapReady()
      ensures ok <==> 1 + FileCost(size) <= |old(fs.FreeList())|
      ensures s == 0 <==> old(fs.FreeList()) == []
      ensures s != 0 ==> s !in table
      ensures ok ==>
                && 0 < s < fs.freeMap.bitCnt
                && VolumeOk(fs.Disk(), fs.Bits(), fs.mapNodes, fs.mapInode, table[s := f])
                && old(fs.FreeList()) == [s] + f.nodes + fs.FreeList() && |f.nodes| == FileCost(size)
                && f.data == Zeros(size) && !f.d.isDir && fs.Disk()[0] == old(fs.Disk())[0]
                && Leaked(fs.Bits(), fs.mapNodes, table[s := f]) == old(Leaks())
      ensures s == 0 ==> AllReadable(fs.Disk(), table) && fs.FreeList() == [] && fs.Disk()[0] == old(fs.Disk())[0]
      ensures !ok && s != 0 ==>
                && Halted(disk1, bits1, table, [], s) && |Free(bits1)| == |old(fs.FreeList())| - 1 && |disk1| > 0
                && disk1[0] == old(fs.Disk())[0]
    {
      hide Cache.Valid, Bitmap.Valid, Bitmap.Bits, Free, VolumeOk, Regrown, SameExcept, Marked, Distinct, InodeCost, BytesToSectors,
           Words, BitsOf, Holds, EmptyInode, Fits, Candidate, FileSys.MapReady, Leaked, Exhausted, AllReadable;
      ghost var disk0, bits0 := fs.Disk(), fs.Bits();
      f, disk1, bits1 := File(EmptyInode(size, false), [], []), disk0, bits0;
      ok, s := fs.AllocateSector();
      if !ok {
        NothingTaken(disk0, fs.Disk(), bits0, fs.Bits(), fs.mapNodes, fs.mapInode, table);
        VolumeReadable(fs.Disk(), fs.Bits(), fs.mapNodes, fs.mapInode, table);
        return false, 0, f, disk1, bits1;
      }
      disk1, bits1 := fs.Disk(), fs.Bits();
      SectorTaken(disk0, disk1, bits0, bits1, fs.mapNodes, fs.mapInode, table, s, f);
      ghost var d, nodes;
      ok, d, nodes := CreateInode(fs, s, size, false);
      if ok {
        f := File(d, nodes, Zeros(size));
        InodeMade(disk1, fs.Disk(), bits0, bits1, fs.Bits(), fs.mapNodes, fs.mapInode, table, s, size, f);
      }
    }

    // ---------- the root directory ----------

    /** `root` is the root directory, opened. */
    ghost predicate IsRoot(root: Dir)
      reads this`table, root.inode
    {
      && root.inode.fs == fs && root.inode.sector == ROOT_DIR_SECTOR && ROOT_DIR_SECTOR in table
      && table[ROOT_DIR_SECTOR] == File(root.inode.data, root.inode.nodes, root.inode.bytes)
      && root.inode.denyWriteCnt == 0
    }

    /** dir_open_root, with no directory open yet. */
    method OpenRoot() returns (root: Dir)
      requires Running() && RootOk(table)
      modifies fs.cache`clock, fs.cache.device, fs.cache.slots
      ensures Running() && fresh(root) && fresh(root.inode) && IsRoot(root) && root.Ok() && root.pos == ENTRY_SIZE
    {
      hide Cache.Valid, Bitmap.Valid, Bitmap.Bits, Free, DirOk, FileAt, Holds, Words, BitsOf, Marked, Distinct, NamesOk, FileSys.MapFileOk;
      ghost var f := table[ROOT_DIR_SECTOR];
      FileThere(fs.Disk(), fs.Bits(), fs.mapNodes, fs.mapInode, table, ROOT_DIR_SECTOR);
      root := new Dir(fs, ROOT_DIR_SECTOR, f.d, f.nodes, f.data);
    }

    /** filesys_create up to the directory entry. */
    method Begin(size: nat) returns (root: Dir, ok: bool, s: nat, ghost f: File, ghost disk1: seq<Sector>, ghost bits1: seq<bool>)
      requires Valid() && size <= SECTOR_SIZE * MAX_SECTORS
      modifies fs.cache, fs.cache.device, fs.cache.slots, fs.freeMap.words, fs`mapBytes
      ensures this !in fs.Repr() && fresh(root) && fresh(root.inode) && IsRoot(root)
      ensures fs.Wf() && fs.mapOpen && fs.MapReady()
      ensures ok <==> 1 + FileCost(size) <= |old(fs.FreeList())|
      ensures s == 0 <==> old(fs.FreeList()) == []
      ensures s != 0 ==> s !in table
      ensures ok ==>
                && 0 < s < fs.freeMap.bitCnt
                && VolumeOk(fs.Disk(), fs.Bits(), fs.mapNodes, fs.mapInode, table[s := f])
                && old(fs.FreeList()) == [s] + f.nodes + fs.FreeList() && |f.nodes| == FileCost(size)
                && f.data == Zeros(size) && !f.d.isDir && fs.Disk()[0] == old(fs.Disk())[0]
                && Leaked(fs.Bits(), fs.mapNodes, table[s := f]) == old(Leaks())
      ensures s == 0 ==> AllReadable(fs.Disk(), table) && fs.FreeList() == [] && fs.Disk()[0] == old(fs.Disk())[0]
      ensures !ok && s != 0 ==>
                && Halted(disk1, bits1, table, [], s) && |Free(bits1)| == |old(fs.FreeList())| - 1 && |disk1| > 0
                && disk1[0] == old(fs.Disk())[0]
    {
      hide Cache.Valid, Bitmap.Valid, Bitmap.Bits, Free, VolumeOk, InodeCost, BytesToSectors, Words, BitsOf, Holds, FileSys.MapReady, Leaked,
           Exhausted, AllReadable, RootOk, Dir.Ok;
      root := OpenRoot();
      ok, s, f, disk1, bits1 := NewInode(size);
    }

    /** The last step of filesys_create: the file is entered into the root directory. */
    method Link(root: Dir, name: seq<byte>, s: nat, ghost f: File) returns (ok: bool)
      requires this !in fs.Repr() && fs.Wf() && fs.mapOpen && fs.MapReady() && RootOk(table) && IsRoot(root)
      requires VolumeOk(fs.Disk(), fs.Bits(), fs.mapNodes, fs.mapInode, table[s := f])
      requires s !in table && 0 < s < fs.freeMap.bitCnt && !f.d.isDir && 0 !in name
      requires ValidName(name) && name !in Files(table) ==> RoomForEntry(table[ROOT_DIR_SECTOR].data)
      modifies this`table, root.inode`data, root.inode`nodes, root.inode`bytes
      modifies fs.cache, fs.cache.device, fs.cache.slots, fs.freeMap.words, fs`mapBytes
      ensures fs.Wf() && fs.MapReady()
      ensures ok <==> old(ValidName(name) && name !in Files(table) && DirGrowth(table[ROOT_DIR_SECTOR].data) <= |fs.FreeList()|)
      ensures !ok ==> table == old(table)
      ensures !old(ValidName(name) && name !in Files(table)) ==> fs.Disk() == old(fs.Disk()) && fs.Bits() == old(fs.Bits())
      ensures !ok && old(ValidName(name) && name !in Files(table)) ==>
                Halted(old(fs.Disk()), old(fs.Bits()), old(table)[s := f], old(table)[ROOT_DIR_SECTOR].nodes, s)
      ensures ok ==>
                && VolumeOk(fs.Disk(), fs.Bits(), fs.mapNodes, fs.mapInode, table) && RootOk(table)
                && Linked(old(table), table, name, s, f, old(fs.FreeList()), fs.FreeList())
                && Files(table) == old(Files(table))[name := f.data]
                && Leaks() == old(Leaked(fs.Bits(), fs.mapNodes, table[s := f]))
    {
      hide Cache.Valid, Bitmap.Valid, Bitmap.Bits, Free, VolumeOk, InodeCost, BytesToSectors, Words, BitsOf, Entries, FileAt, Holds,
           DirOk, NamesOk, Regrown, Fits, Marked, Distinct, FileSys.MapFileOk, FileSys.MapSaved, PutSlot, Candidate, RoomForEntry,
           FirstUnused, Slot, Leaked, NoRoom, Exhausted, Linked, DirGrowth;
      ghost var r, table1, disk0, bits0 := table[ROOT_DIR_SECTOR], table[s := f], fs.Disk(), fs.Bits();
      FileThere(disk0, bits0, fs.mapNodes, fs.mapInode, table1, ROOT_DIR_SECTOR);
      ghost var added;
      ok, added := root.Add(name, s);
      if ok {
        ghost var r' := File(root.inode.data, root.inode.nodes, root.inode.bytes);
        EntryMade(disk0, fs.Disk(), bits0, fs.Bits(), fs.mapNodes, fs.mapInode, table, name, s, f, r', added);
        table := table1[ROOT_DIR_SECTOR := r'];
      } else {
        FileThere(disk0, bits0, fs.mapNodes, fs.mapInode, table1, s);
        if ValidName(name) && name !in Files(table) {
          NoRoomExhausted(disk0, fs.Disk(), r, root.inode.data, Free(bits0), fs.FreeList(), fs.mapNodes);
        }
      }
    }

    /** filesys_create gives back the inode's sector after a failure; the file's other sectors stay in use. */
    method Unmake(s: nat, ghost f: File, ghost halted: bool, ghost disk1: seq<Sector>, ghost bits1: seq<bool>, ghost table1: map<nat, File>,
                  ghost nodes: seq<nat>)
      requires fs.Wf() && fs.mapOpen && fs.MapReady() && s !in table
      requires if halted then Halted(disk1, bits1, table1, nodes, s)
               else VolumeOk(fs.Disk(), fs.Bits(), fs.mapNodes, fs.mapInode, table[s := f])
      modifies fs.cache, fs.cache.device, fs.cache.slots, fs.freeMap.words, fs`mapBytes
      ensures fs.Wf() && fs.MapReady()
      ensures fs.Bits() == Clear(old(fs.Bits()), [s]) && |fs.FreeList()| == |old(fs.FreeList())| + 1
      ensures halted ==>
                && AllReadable(fs.Disk(), table) && |fs.FreeList()| == 1 && 0 < |disk1|
                && fs.Disk()[0] == if IsData(|nodes| + |Free(bits1)|) then disk1[0] else ZeroSector()
      ensures !halted ==>
                && VolumeOk(fs.Disk(), fs.Bits(), fs.mapNodes, fs.mapInode, table)
                && |Leaks()| == |old(Leaked(fs.Bits(), fs.mapNodes, table[s := f]))| + |f.nodes|
                && Leaks() == old(Leaked(fs.Bits(), fs.mapNodes, table[s := f])) + Members(f.nodes)
    {
      hide Cache.Valid, Bitmap.Valid, Bitmap.Bits, Free, VolumeOk, Words, BitsOf, Holds, Marked, Distinct, SameExcept,
           FileSys.MapFileOk, FileSys.MapSaved, Leaked, Exhausted, AllReadable, Clear, Members;
      ghost var disk0, bits0, log := fs.Disk(), fs.Bits(), fs.mapNodes;
      if halted {
        AllInUse(bits0, s);
      } else {
        VolumeTable(disk0, bits0, log, fs.mapInode, table[s := f]);
        LeakedAbandoned(disk0, bits0, log, table, s, f);
        InodeSectorReleasable(disk0, bits0, log, fs.mapInode, table, s, f);
      }
      FreeAfterClear(bits0, [s]);
      fs.ReleaseSector(s);
      if halted {
        HaltedReadable(disk1, disk0, fs.Disk(), bits1, log, fs.mapInode, table1, nodes, table);
      } else {
        OneCleared(bits0, s);
        VolumeFrame(disk0, fs.Disk(), bits0, fs.Bits(), log, fs.mapInode, table);
      }
    }

    /** The new file is entered into the root directory; if that fails, its inode's sector is given back. */
    method LinkOrUnmake(root: Dir, name: seq<byte>, s: nat, ghost f: File) returns (ok: bool)
      requires this !in fs.Repr() && fs.Wf() && fs.mapOpen && fs.MapReady() && RootOk(table) && IsRoot(root)
      requires VolumeOk(fs.Disk(), fs.Bits(), fs.mapNodes, fs.mapInode, table[s := f])
      requires s !in table && 0 < s < fs.freeMap.bitCnt && !f.d.isDir && 0 !in name
      requires ValidName(name) && name !in Files(table) ==> RoomForEntry(table[ROOT_DIR_SECTOR].data)
      modifies this`table, root.inode`data, root.inode`nodes, root.inode`bytes
      modifies fs.cache, fs.cache.device, fs.cache.slots, fs.freeMap.words, fs`mapBytes
      ensures fs.Wf() && fs.MapReady()
      ensures ok <==> old(ValidName(name) && name !in Files(table) && DirGrowth(table[ROOT_DIR_SECTOR].data) <= |fs.FreeList()|)
      ensures ok ==>
                && VolumeOk(fs.Disk(), fs.Bits(), fs.mapNodes, fs.mapInode, table) && RootOk(table)
                && Linked(old(table), table, name, s, f, old(fs.FreeList()), fs.FreeList())
                && Files(table) == old(Files(table))[name := f.data]
                && Leaks() == old(Leaked(fs.Bits(), fs.mapNodes, table[s := f]))
      ensures !ok ==> table == old(table)
      ensures !old(ValidName(name) && name !in Files(table)) ==>
                && VolumeOk(fs.Disk(), fs.Bits(), fs.mapNodes, fs.mapInode, table)
                && |fs.FreeList()| == |old(fs.FreeList())| + 1
                && |Leaks()| == |old(Leaked(fs.Bits(), fs.mapNodes, table[s := f]))| + |f.nodes|
                && Leaks() == old(Leaked(fs.Bits(), fs.mapNodes, table[s := f])) + Members(f.nodes)
      ensures !ok && old(ValidName(name) && name !in Files(table)) ==>
                && AllReadable(fs.Disk(), table) && |fs.FreeList()| == 1 && 0 < |old(fs.Disk())|
                && fs.Disk()[0] == if IsData(|table[ROOT_DIR_SECTOR].nodes| + |old(fs.FreeList())|) then old(fs.Disk())[0] else ZeroSector()
    {
      hide Cache.Valid, Bitmap.Valid, Bitmap.Bits, Free, VolumeOk, InodeCost, BytesToSectors, Words, BitsOf, Entries, Leaked, Clear,
           FileSys.MapFileOk, FileSys.MapSaved, Files, Holds, Linked, DirGrowth, RoomForEntry, Members, AllReadable, Halted, IsData, RootOk;
      ghost var halted, disk1, bits1, table1 := ValidName(name) && name !in Files(table), fs.Disk(), fs.Bits(), table;
      ok := Link(root, name, s, f);
      if !ok && s != 0 {
        Unmake(s, f, halted, disk1, bits1, table1[s := f], table1[ROOT_DIR_SECTOR].nodes);
      }
    }

    /** There was too little space to create a file: at most one sector is free, every file reads as before, and
        sector 0 is all zeros exactly if the allocation that failed was that of an index block. */
    ghost predicate NotCreated(disk0: seq<Sector>, size: nat, free0: nat)
      reads this, fs, fs.Repr()
    {
      && fs.Wf() && fs.MapReady() && ROOT_DIR_SECTOR in table && |disk0| > 0
      && AllReadable(fs.Disk(), table)
      && |fs.FreeList()| == (if free0 == 0 then 0 else 1)
      && fs.Disk()[0] == if CreateLoses(|table[ROOT_DIR_SECTOR].nodes|, size, free0) then ZeroSector() else disk0[0]
    }

    /** filesys_create, for a plain name. With space for the file and its directory entry: a file of zero bytes
        appears, or the name is invalid or taken and the volume's files stay as they are; in that case only the
        inode's sector is given back, and the file's other sectors have leaked. */
    method Create(name: seq<byte>, size: nat) returns (success: bool)
      requires Valid() && NoPath(name) && size <= SECTOR_SIZE * MAX_SECTORS
      requires ValidName(name) && name !in Files(table) ==> RoomForEntry(table[ROOT_DIR_SECTOR].data)
      modifies this`table, fs.cache, fs.cache.device, fs.cache.slots, fs.freeMap.words, fs`mapBytes
      ensures success <==> old(ValidName(name) && name !in Files(table) && CreateNeed(table, size) <= |fs.FreeList()|)
      ensures old(RoomToCreate(table, name, size, |fs.FreeList()|)) ==>
                && Valid()
                && Files(table) == (if success then old(Files(table))[name := Zeros(size)] else old(Files(table)))
                && (if success then Leaks() == old(Leaks())
                    else old(Leaks()) <= Leaks() && |Leaks()| == |old(Leaks())| + FileCost(size))
      ensures success ==> Placed(old(table), table, name, size, old(fs.FreeList()), fs.FreeList())
      ensures success ==> LeastTaken(old(table), size, old(fs.FreeList()), fs.FreeList())
      ensures !success ==> table == old(table)
      ensures !success && old(RoomToCreate(table, name, size, |fs.FreeList()|)) ==> |fs.FreeList()| == |old(fs.FreeList())| - FileCost(size)
      ensures !old(RoomToCreate(table, name, size, |fs.FreeList()|)) ==> NotCreated(old(fs.Disk()), size, |old(fs.FreeList())|)
    {
      hide Cache.Valid, Bitmap.Valid, Bitmap.Bits, Free, VolumeOk, FileCost, Words, BitsOf, Entries, Leaked,
           FileSys.MapFileOk, FileSys.MapSaved, Files, Holds, Placed, Linked, DirGrowth, RoomForEntry, Members, AllReadable, Halted, IsData,
           RootOk, Clear, FileAt, CreateLoses, LeastTaken;
      ghost var table0, free0 := table, fs.FreeList();
      FilesAt(table0, name);
      WhatIsLost(|table0[ROOT_DIR_SECTOR].nodes|, size, |free0|);
      var root, ok, s;
      ghost var f, disk1, bits1;
      root, ok, s, f, disk1, bits1 := Begin(size);
      success := false;
      if ok {
        ghost var free1 := fs.FreeList();
        success := LinkOrUnmake(root, name, s, f);
        if success {
          LinkedIsPlaced(table0, table, name, s, f, size, free0, free1, fs.FreeList());
        }
      } else if s != 0 {
        Unmake(s, f, true, disk1, bits1, table, []);
      }
    }

    // ---------- opening a file ----------

    /** `file` is the file in sector `s`, opened. */
    ghost predicate IsFile(file: Inode, s: nat)
      reads this`table, file
    {
      && file.fs == fs && file.sector == s && s in table && table[s] == File(file.data, file.nodes, file.bytes)
      && file.denyWriteCnt == 0 && !file.removed
    }

    /** filesys_open, for a plain name. */
    method Open(name: seq<byte>) returns (file: Inode?)
      requires Valid() && PlainName(name)
      modifies fs.cache`clock, fs.cache.device, fs.cache.slots
      ensures Valid()
      ensures file != null <==> name in Files(table)
      ensures file != null ==> fresh(file) && IsFile(file, RootEntries(table)[name]) && file.Loaded()
    {
      hide Cache.Valid, Bitmap.Valid, Bitmap.Bits, Free, VolumeOk, FileAt, Holds, Words, BitsOf, Marked, Distinct, NamesOk, DirOk,
           Entries, FileSys.MapReady, Files, RootOk, Names, Slot, CString, Fits, InodeCost, BytesToSectors, Disjoint;
      FilesAt(table, name);
      if |name| == 0 {
        NoEmptyName(table);
        return null;
      }
      var root := OpenRoot();
      var found, e, ofs;
      ghost var i;
      found, e, ofs, i := root.Lookup(name);
      if !found {
        return null;
      }
      ghost var s := RootEntries(table)[name];
      NamedFile(table, name);
      FileThere(fs.Disk(), fs.Bits(), fs.mapNodes, fs.mapInode, table, s);
      file := new Inode(fs, e.inodeSector, table[s].d, table[s].nodes, table[s].data);
    }

    /** A file opened, read and closed: the bytes asked for, as far as the file goes. */
    method ReadAt(name: seq<byte>, size: nat, offset: nat) returns (found: bool, buf: seq<byte>)
      requires Valid() && PlainName(name)
      modifies fs.cache`clock, fs.cache.device, fs.cache.slots
      ensures Valid()
      ensures found <==> name in Files(table)
      ensures found ==> buf == Slice(Files(table)[name], offset, size)
      ensures found ==>
                var data := Files(table)[name];
                && |buf| == (if offset >= |data| then 0 else if size <= |data| - offset then size else |data| - offset)
                && forall i | 0 <= i < |buf| :: buf[i] == data[offset + i]
    {
      hide Cache.Valid, Bitmap.Valid, Bitmap.Bits, Free, VolumeOk, FileAt, Holds, Words, BitsOf, Marked, Distinct, NamesOk, DirOk,
           Entries, FileSys.MapFileOk, Slice;
      var file := Open(name);
      found := file != null;
      if !found {
        return false, [];
      }
      buf := file.ReadAt(size, offset);
    }

    /** A write to the file in sector `s` has failed for want of space: no sector is free, every file reads as
        before, and the free map's inode in sector 0 is all zeros exactly if the allocation that failed was that
        of an index block. */
    ghost predicate Starved(disk0: seq<Sector>, free0: seq<nat>, s: nat)
      reads this, fs, fs.Repr()
    {
      && fs.Wf() && fs.MapReady() && fs.FreeList() == [] && s in table && |disk0| > 0
      && AllReadable(fs.Disk(), table)
      && fs.Disk()[0] == if IsData(|table[s].nodes| + |free0|) then disk0[0] else ZeroSector()
    }

    /** Writing to a file that is open. */
    method WriteFile(ghost name: seq<byte>, file: Inode, buf: seq<byte>, offset: nat) returns (written: nat)
      requires Valid() && name in RootEntries(table) && IsFile(file, RootEntries(table)[name]) && file.Loaded()
      requires name in Files(table) && 0 < offset + |buf| <= SECTOR_SIZE * MAX_SECTORS
      modifies this`table, file`data, file`nodes, file`bytes
      modifies fs.cache, fs.cache.device, fs.cache.slots, fs.freeMap.words, fs`mapBytes
      ensures if Growth(|old(Files(table))[name]|, offset + |buf|) <= |old(fs.FreeList())|
              then && Valid() && written == |buf| && Leaks() == old(Leaks())
                   && Files(table) == old(Files(table))[name := Splice(old(Files(table))[name], offset, buf)]
                   && GrewBy(old(table), table, name, offset + |buf|, old(fs.FreeList()), fs.FreeList())
              else written == 0 && table == old(table) && Starved(old(fs.Disk()), old(fs.FreeList()), RootEntries(table)[name])
    {
      hide Cache.Valid, Bitmap.Valid, Bitmap.Bits, Free, VolumeOk, FileAt, Words, BitsOf, Marked, Distinct, DirOk, Fits, Regrown,
           Entries, FileSys.MapFileOk, FileSys.MapSaved, Splice, Growth, NamesOk, RootOk, Files, Leaked, NoRoom, AllReadable;
      FilesAt(table, name);
      ghost var table0, s, log, map0 := table, RootEntries(table)[name], fs.mapNodes, fs.mapInode;
      ghost var f, disk0, bits0 := table0[s], fs.Disk(), fs.Bits();
      NamedFile(table0, name);
      FileThere(disk0, bits0, log, map0, table0, s);
      ghost var added;
      written, added := file.WriteAt(buf, offset);
      ghost var f' := File(file.data, file.nodes, file.bytes);
      if Growth(|f.data|, offset + |buf|) <= |Free(bits0)| {
        VolumeGrown(disk0, fs.Disk(), bits0, fs.Bits(), log, map0, table0, s, f, f'.d, added, Growth(|f.data|, offset + |buf|), f'.data);
        FileWritten(table0, name, f');
        LeakedWithMore(bits0, fs.Bits(), log, table0, s, f', added);
        table := table0[s := f'];
      } else {
        NoRoomReadable(disk0, fs.Disk(), bits0, log, map0, table0, s, f'.d, fs.FreeList());
      }
    }

    /** A file opened and written at an offset: with space for it, the buffer is spliced into its bytes, and no
        other file's bytes change; without, nothing is written. */
    method WriteAt(name: seq<byte>, buf: seq<byte>, offset: nat) returns (written: int)
      requires Valid() && PlainName(name) && 0 < offset + |buf| <= SECTOR_SIZE * MAX_SECTORS
      modifies this`table, fs.cache, fs.cache.device, fs.cache.slots, fs.freeMap.words, fs`mapBytes
      ensures old(name !in Files(table)) ==>
                written == -1 && Valid() && table == old(table) && fs.FreeList() == old(fs.FreeList()) && Leaks() == old(Leaks())
      ensures old(name in Files(table)) ==>
                if Growth(|old(Files(table))[name]|, offset + |buf|) <= |old(fs.FreeList())|
                then && Valid() && written == |buf| && Leaks() == old(Leaks())
                     && Files(table) == old(Files(table))[name := Splice(old(Files(table))[name], offset, buf)]
                     && RootEntries(table) == old(RootEntries(table)) && table.Keys == old(table).Keys
                     && table[ROOT_DIR_SECTOR] == old(table)[ROOT_DIR_SECTOR]
                     && GrewBy(old(table), table, name, offset + |buf|, old(fs.FreeList()), fs.FreeList())
                else written == 0 && table == old(table)
                     && name in RootEntries(table) && Starved(old(fs.Disk()), old(fs.FreeList()), RootEntries(table)[name])
      ensures old(name in Files(table)) ==>
                forall m: nat, n: nat
                  | LeastSectors(|old(Files(table))[name]|, m) && LeastSectors(|Splice(old(Files(table))[name], offset, buf)|, n) ::
                  |fs.FreeList()| == if TreeSize(n) - TreeSize(m) <= |old(fs.FreeList())|
                                     then |old(fs.FreeList())| - (TreeSize(n) - TreeSize(m)) else 0
    {
      hide Cache.Valid, Bitmap.Valid, Bitmap.Bits, Free, VolumeOk, FileAt, Holds, Words, BitsOf, Marked, Distinct, NamesOk, DirOk,
           Entries, FileSys.MapFileOk, FileSys.MapSaved, Splice, Growth, Leaked, AllReadable, LeastSectors, TreeSize;
      var file := Open(name);
      if file == null {
        return -1;
      }
      NamedFile(table, name);
      FilesAt(table, name);
      written := WriteFile(name, file, buf, offset);
      WrittenForBytes(old(Files(table))[name], offset, buf, old(fs.FreeList()), fs.FreeList());
    }

    /** file_write with the file's position at `offset`: the buffer's last byte is made NUL first (file.c:134). */
    method Write(name: seq<byte>, buf: seq<byte>, offset: nat) returns (written: int)
      requires Valid() && PlainName(name) && 0 < |buf| && offset + |buf| <= SECTOR_SIZE * MAX_SECTORS
      modifies this`table, fs.cache, fs.cache.device, fs.cache.slots, fs.freeMap.words, fs`mapBytes
      ensures old(name !in Files(table)) ==>
                written == -1 && Valid() && table == old(table) && fs.FreeList() == old(fs.FreeList()) && Leaks() == old(Leaks())
      ensures old(name in Files(table)) ==>
                if Growth(|old(Files(table))[name]|, offset + |buf|) <= |old(fs.FreeList())|
                then && Valid() && written == |buf| && Leaks() == old(Leaks())
                     && Files(table) == old(Files(table))[name := Splice(old(Files(table))[name], offset, Terminated(buf))]
                     && RootEntries(table) == old(RootEntries(table)) && table.Keys == old(table).Keys
                     && table[ROOT_DIR_SECTOR] == old(table)[ROOT_DIR_SECTOR]
                     && GrewBy(old(table), table, name, offset + |buf|, old(fs.FreeList()), fs.FreeList())
                else written == 0 && table == old(table)
                     && name in RootEntries(table) && Starved(old(fs.Disk()), old(fs.FreeList()), RootEntries(table)[name])
    {
      hide *;
      written := WriteAt(name, Terminated(buf), offset);
    }

    // ---------- removing a file ----------

    /** filesys_remove, for a plain name: the name and its file go, and every sector of the file is free again. */
    method Remove(name: seq<byte>) returns (success: bool, ghost i: nat)
      requires Valid() && NoPath(name)
      modifies this`table, fs.cache, fs.cache.device, fs.cache.slots, fs.freeMap.words, fs`mapBytes
      ensures Valid()
      ensures success <==> name in old(Files(table))
      ensures Files(table) == old(Files(table)) - {name}
      ensures Leaks() == old(Leaks())
      ensures !success ==> table == old(table) && fs.Bits() == old(fs.Bits())
      ensures success ==>
                && Unlinked(old(table), table, name, i)
                && var s := old(RootEntries(table))[name];
                && fs.Bits() == Clear(old(fs.Bits()), Own(s, old(table)[s]))
                && |fs.FreeList()| == |old(fs.FreeList())| + 1 + |old(table)[s].nodes|
    {
      hide Cache.Valid, Bitmap.Valid, Bitmap.Bits, Free, VolumeOk, Words, BitsOf, RootOk, Files, Leaked, Clear, Dir.Ok, FileSys.MapReady, Unlinked,
           RootEntries;
      var root := OpenRoot();
      success, i := RemoveFrom(root, name);
    }

    /** filesys_remove once the root directory is open. */
    method RemoveFrom(root: Dir, name: seq<byte>) returns (success: bool, ghost i: nat)
      requires Valid() && NoPath(name) && IsRoot(root) && root.Ok()
      modifies root.inode`data, root.inode`nodes, root.inode`bytes
      modifies this`table, fs.cache, fs.cache.device, fs.cache.slots, fs.freeMap.words, fs`mapBytes
      ensures Valid()
      ensures success <==> name in old(Files(table))
      ensures Files(table) == old(Files(table)) - {name}
      ensures Leaks() == old(Leaks())
      ensures !success ==> table == old(table) && fs.Bits() == old(fs.Bits())
      ensures success ==>
                && Unlinked(old(table), table, name, i)
                && var s := old(RootEntries(table))[name];
                && fs.Bits() == Clear(old(fs.Bits()), Own(s, old(table)[s]))
                && |fs.FreeList()| == |old(fs.FreeList())| + 1 + |old(table)[s].nodes|
    {
      hide Cache.Valid, Bitmap.Valid, Bitmap.Bits, Free, VolumeOk, FileAt, Holds, Words, BitsOf, Marked, Distinct, NamesOk, DirOk,
           Entries, FileSys.MapReady, Fits, RootOk, Files, Clear, SameExcept, PutSlot, Slot, Leaked, Names, InodeCost, BytesToSectors;
      FilesAt(table, name);
      ghost var table0, disk0, bits0, log, map0 := table, fs.Disk(), fs.Bits(), fs.mapNodes, fs.mapInode;
      FileThere(disk0, bits0, log, map0, table0, ROOT_DIR_SECTOR);
      ghost var r := table0[ROOT_DIR_SECTOR];
      ghost var s := if name in RootEntries(table0) then RootEntries(table0)[name] else ROOT_DIR_SECTOR;
      ghost var f := table0[s];
      if name in RootEntries(table0) {
        NamedFile(table0, name);
        FileRemovable(disk0, bits0, log, map0, table0, s);
      }
      success, i := root.Remove(name, f.d, f.nodes, f.data);
      if success {
        ghost var r' := File(root.inode.data, root.inode.nodes, root.inode.bytes);
        table := (table0 - {s})[ROOT_DIR_SECTOR := r'];
        EntryDropped(disk0, fs.Disk(), bits0, log, map0, table0, name, s, r, r', table);
      } else {
        assert Files(table) - {name} == Files(table);
      }
    }
  }

  /** A buffer as file_write writes it. */
  function Terminated(buf: seq<byte>): (r: seq<byte>)
    requires |buf| > 0
    ensures |r| == |buf| && r[|r| - 1] == 0 && r[..|r| - 1] == buf[..|buf| - 1]
  {
    buf[|buf| - 1 := 0]
  }

  /** A name's slot has been freed and its file dropped; the other files are as they were. */
  ghost predicate Unlinked(table: map<nat, File>, table': map<nat, File>, name: seq<byte>, i: nat)
    requires ROOT_DIR_SECTOR in table
  {
    && name in RootEntries(table) && RootEntries(table)[name] in table && RootEntries(table)[name] != ROOT_DIR_SECTOR
    && ROOT_DIR_SECTOR in table'
    && table' == (table - {RootEntries(table)[name]})[ROOT_DIR_SECTOR := table'[ROOT_DIR_SECTOR]]
    && RootEntries(table') == RootEntries(table) - {name}
    && var data := table[ROOT_DIR_SECTOR].data;
    && Names(data, i, name)
    && table'[ROOT_DIR_SECTOR].data == PutSlot(data, i, Slot(data, i).(inUse := false))
    && table'[ROOT_DIR_SECTOR].nodes == table[ROOT_DIR_SECTOR].nodes
    && table'[ROOT_DIR_SECTOR].d.isDir == table[ROOT_DIR_SECTOR].d.isDir
  }

  lemma VolumeReadable(disk: seq<Sector>, bits: seq<bool>, log: seq<nat>, map0: InodeDisk, table: map<nat, File>)
    requires VolumeOk(disk, bits, log, map0, table)
    ensures AllReadable(disk, table)
  {
    hide FileAt, DecodeInode, Reads;
    forall s | s in table
      ensures s < |disk| && DecodeInode(disk[s]) == table[s].d && Reads(disk, table[s].d, table[s].data)
    {
      assert FileOk(disk, bits, log, s, table[s]);
      FileThereBefore(disk, s, table[s]);
    }
  }

  lemma NothingTaken(disk: seq<Sector>, disk': seq<Sector>, bits: seq<bool>, bits': seq<bool>, log: seq<nat>, map0: InodeDisk,
                     table: map<nat, File>)
    requires VolumeOk(disk, bits, log, map0, table) && SameExcept(disk, disk', [], log) && bits' == bits
    ensures VolumeOk(disk', bits', log, map0, table) && |disk'| > 0 && disk'[0] == disk[0]
  {
    VolumeFrame(disk, disk', bits, bits', log, map0, table);
    hide TableOk, DecodeInode;
  }

  lemma NoRoomExhausted(disk: seq<Sector>, disk': seq<Sector>, f: File, d': InodeDisk, free: seq<nat>, free': seq<nat>, log: seq<nat>)
    requires NoRoom(disk, disk', f.d, d', f.nodes, free, free', f.data, log)
    ensures free' == [] && Exhausted(disk, disk', f.nodes, free, log)
  {
  }

  /** With no free sector, all are in use. */
  lemma AllInUse(bits: seq<bool>, s: nat)
    requires Free(bits) == [] && 0 < s < |bits|
    ensures Marked(bits, [s]) && Distinct([s]) && 0 !in [s]
  {
    NoneFree(bits);
  }

  lemma OneCleared(bits: seq<bool>, s: nat)
    ensures forall x: nat | x < |bits| && bits[x] && !Clear(bits, [s])[x] :: x == s
  {
  }

  /** After the inode's sector has been given back every file reads as before. */
  lemma HaltedReadable(disk1: seq<Sector>, disk: seq<Sector>, disk': seq<Sector>, bits1: seq<bool>, log: seq<nat>, map0: InodeDisk,
                       table1: map<nat, File>, nodes: seq<nat>, table: map<nat, File>)
    requires VolumeOk(disk1, bits1, log, map0, table1) && Exhausted(disk1, disk, nodes, Free(bits1), log)
    requires nodes == [] || (ROOT_DIR_SECTOR in table1 && nodes == table1[ROOT_DIR_SECTOR].nodes)
    requires SameExcept(disk, disk', [], log) && forall t | t in table :: t in table1 && table1[t] == table[t]
    ensures AllReadable(disk', table) && 0 < |disk1| == |disk'|
    ensures disk'[0] == if IsData(|nodes| + |Free(bits1)|) then disk1[0] else ZeroSector()
  {
    VolumeFits(disk1, bits1, log, map0, table1, nodes);
    hide VolumeOk, Exhausted, Reads, DecodeInode, Free, Fits, SameExcept, IsData;
    ExhaustedAfter(disk1, disk, disk', nodes, Free(bits1), log);
    SectorZero(disk1, disk', nodes, Free(bits1), log);
    ExhaustedReadable(disk1, disk', bits1, log, map0, table1, nodes, ROOT_DIR_SECTOR);
  }

  lemma VolumeFits(disk: seq<Sector>, bits: seq<bool>, log: seq<nat>, map0: InodeDisk, table: map<nat, File>, nodes: seq<nat>)
    requires VolumeOk(disk, bits, log, map0, table)
    requires nodes == [] || (ROOT_DIR_SECTOR in table && nodes == table[ROOT_DIR_SECTOR].nodes)
    ensures 0 < |disk| && 0 !in log && Fits(disk, nodes + Free(bits), log)
  {
    if nodes == [] {
      hide TableOk, DecodeInode, Free;
      FitsFromMarked(disk, bits, nodes, log);
    } else {
      FileThere(disk, bits, log, map0, table, ROOT_DIR_SECTOR);
    }
  }

  lemma VolumeTable(disk: seq<Sector>, bits: seq<bool>, log: seq<nat>, map0: InodeDisk, table: map<nat, File>)
    requires VolumeOk(disk, bits, log, map0, table)
    ensures TableOk(disk, bits, log, table)
  {
  }

  /** The root directory has been written with an entry erased, and the file it stood for released. */
  lemma EntryDropped(disk0: seq<Sector>, disk: seq<Sector>, bits: seq<bool>, log: seq<nat>, map0: InodeDisk, table: map<nat, File>,
                     name: seq<byte>, s: nat, r: File, r': File, table': map<nat, File>)
    requires VolumeOk(disk0, bits, log, map0, table) && ROOT_DIR_SECTOR in table && RootOk(table)
    requires s in table && s != ROOT_DIR_SECTOR && name in RootEntries(table) && RootEntries(table)[name] == s
    requires r == table[ROOT_DIR_SECTOR] && table' == (table - {s})[ROOT_DIR_SECTOR := r']
    requires r'.nodes == r.nodes && r'.d.isDir && DirOk(r'.data) && Entries(r'.data) == Entries(r.data) - {name}
    requires FileAt(disk, ROOT_DIR_SECTOR, r'.d, r'.nodes, r'.data) && SameExcept(disk0, disk, r'.nodes + [ROOT_DIR_SECTOR], log)
    ensures VolumeOk(disk, Clear(bits, Own(s, table[s])), log, map0, table')
    ensures RootOk(table') && Files(table') == Files(table) - {name}
    ensures Leaked(Clear(bits, Own(s, table[s])), log, table') == Leaked(bits, log, table)
    ensures |Free(Clear(bits, Own(s, table[s])))| == |Free(bits)| + 1 + |table[s].nodes|
  {
    hide VolumeOk, FileAt, NamesOk, DirOk, Entries, Clear, SameExcept, Leaked, Marked, Distinct, Free;
    FileRemovable(disk0, bits, log, map0, table, s);
    VolumeDropped(disk0, disk, bits, log, map0, table, s, ROOT_DIR_SECTOR, r');
    FileRemoved(table, name, r');
    FreeAfterClear(bits, Own(s, table[s]));
    LeakedDropped(bits, log, table, s, ROOT_DIR_SECTOR, r');
  }

  /** A file other than the root directory can be given up. */
  lemma FileRemovable(disk: seq<Sector>, bits: seq<bool>, log: seq<nat>, map0: InodeDisk, table: map<nat, File>, s: nat)
    requires VolumeOk(disk, bits, log, map0, table) && s in table && ROOT_DIR_SECTOR in table && s != ROOT_DIR_SECTOR
    ensures FileAt(disk, s, table[s].d, table[s].nodes, table[s].data)
    ensures Marked(bits, Own(s, table[s])) && Distinct(Own(s, table[s])) && 0 !in Own(s, table[s])
    ensures forall x | x in Own(s, table[s]) :: x !in log && x !in table[ROOT_DIR_SECTOR].nodes + [ROOT_DIR_SECTOR]
  {
    hide FileAt, DecodeInode;
    assert FileOk(disk, bits, log, s, table[s]);
    assert Disjoint(Own(s, table[s]), Own(ROOT_DIR_SECTOR, table[ROOT_DIR_SECTOR]));
    assert forall x | x in table[ROOT_DIR_SECTOR].nodes + [ROOT_DIR_SECTOR] :: x in Own(ROOT_DIR_SECTOR, table[ROOT_DIR_SECTOR]);
  }

  /** A file has grown to hold `length` bytes, by the lowest free sectors; the other files are as they were. */
  ghost predicate GrewBy(table: map<nat, File>, table': map<nat, File>, name: seq<byte>, length: nat, free: seq<nat>, free': seq<nat>)
    requires ROOT_DIR_SECTOR in table
  {
    && name in RootEntries(table)
    && var s := RootEntries(table)[name];
    && s in table && s != ROOT_DIR_SECTOR && s in table' && table' == table[s := table'[s]]
    && var k := Growth(|table[s].data|, length);
    && k <= |free| && free' == free[k..] && table'[s].nodes == table[s].nodes + free[..k]
  }

  lemma FilesAt(table: map<nat, File>, name: seq<byte>)
    requires RootOk(table)
    ensures ROOT_DIR_SECTOR in table && table[ROOT_DIR_SECTOR].d.isDir && (name in RootEntries(table) <==> name in Files(table))
    ensures name in RootEntries(table) ==>
              RootEntries(table)[name] in table && Files(table)[name] == table[RootEntries(table)[name]].data
  {
    hide Entries, DirOk;
  }

  lemma NoEmptyName(table: map<nat, File>)
    requires RootOk(table)
    ensures [] !in Files(table)
  {
    EntriesAre(table[ROOT_DIR_SECTOR].data, []);
  }

  lemma NamedFile(table: map<nat, File>, name: seq<byte>)
    requires RootOk(table) && name in RootEntries(table)
    ensures RootEntries(table)[name] in table && RootEntries(table)[name] != ROOT_DIR_SECTOR
    ensures !table[RootEntries(table)[name]].d.isDir
  {
  }

  /** A new file has been given the lowest free sectors in order: its inode's, its own, and those the root
      directory needed; every other file is as it was. */
  ghost predicate Placed(table: map<nat, File>, table': map<nat, File>, name: seq<byte>, size: nat, free: seq<nat>, free': seq<nat>)
    requires ROOT_DIR_SECTOR in table
  {
    && ROOT_DIR_SECTOR in table' && name in RootEntries(table')
    && var s := RootEntries(table')[name];
    && s !in table && s in table' && CreateNeed(table, size) <= |free|
    && |table'[s].nodes| == FileCost(size) && [s] + table'[s].nodes == free[..1 + FileCost(size)]
    && free' == free[CreateNeed(table, size)..]
    && RootEntries(table') == RootEntries(table)[name := s]
    && table' == table[s := table'[s]][ROOT_DIR_SECTOR := table'[ROOT_DIR_SECTOR]]
    && table'[ROOT_DIR_SECTOR].nodes == table[ROOT_DIR_SECTOR].nodes + free[1 + FileCost(size)..CreateNeed(table, size)]
    && NumSlots(table'[ROOT_DIR_SECTOR].data) == SlotsAfter(table[ROOT_DIR_SECTOR].data)
  }

  /** A new file has taken its inode's sector, as many data sectors as its bytes need and no more, the index blocks
      for them, and what the root directory grows by. */
  ghost predicate LeastTaken(table: map<nat, File>, size: nat, free: seq<nat>, free': seq<nat>)
    requires ROOT_DIR_SECTOR in table
  {
    forall n: nat | LeastSectors(size, n) :: |free'| == |free| - 1 - TreeSize(n) - DirGrowth(table[ROOT_DIR_SECTOR].data)
  }

  /** What a write takes, in terms of the least numbers of sectors that hold the bytes before and after. */
  lemma WrittenForBytes(data: seq<byte>, offset: nat, buf: seq<byte>, free: seq<nat>, free': seq<nat>)
    requires var k := Growth(|data|, offset + |buf|); if k <= |free| then free' == free[k..] else free' == []
    ensures forall m: nat, n: nat | LeastSectors(|data|, m) && LeastSectors(|Splice(data, offset, buf)|, n) ::
              |free'| == if TreeSize(n) - TreeSize(m) <= |free| then |free| - (TreeSize(n) - TreeSize(m)) else 0
  {
    forall m: nat, n: nat | LeastSectors(|data|, m) && LeastSectors(|Splice(data, offset, buf)|, n)
      ensures Growth(|data|, offset + |buf|) == TreeSize(n) - TreeSize(m)
    {
      SectorsOfBytes(|data|, m);
      SectorsOfBytes(|data|, n);
      GrowthOfBytes(|data|, |Splice(data, offset, buf)|, m, n);
      GrowthBetween(|data|, offset + |buf|);
      hide Growth, BytesToSectors, LeastSectors, TreeSize;
    }
  }

  /** Slots of the directory once one more name has been entered. */
  function SlotsAfter(data: seq<byte>): nat {
    NumSlots(data) + if FirstUnused(data, 0) == NumSlots(data) then 1 else 0
  }

  lemma LinkedIsPlaced(table: map<nat, File>, table': map<nat, File>, name: seq<byte>, s: nat, f: File, size: nat,
                       free0: seq<nat>, free1: seq<nat>, free2: seq<nat>)
    requires ROOT_DIR_SECTOR in table && s !in table && Linked(table, table', name, s, f, free1, free2)
    requires free0 == [s] + f.nodes + free1 && |f.nodes| == FileCost(size)
    ensures Placed(table, table', name, size, free0, free2) && LeastTaken(table, size, free0, free2)
  {
    hide Entries, DirGrowth, InodeCost, BytesToSectors, SlotsAfter, LeastSectors, TreeSize;
    assert s != ROOT_DIR_SECTOR;
    assert free0[..1 + FileCost(size)] == [s] + f.nodes;
    assert free0[CreateNeed(table, size)..] == free1[DirGrowth(table[ROOT_DIR_SECTOR].data)..];
    assert free0[1 + FileCost(size)..CreateNeed(table, size)] == free1[..DirGrowth(table[ROOT_DIR_SECTOR].data)];
    forall n: nat | LeastSectors(size, n)
      ensures FileCost(size) == TreeSize(n)
    {
      CostOfBytes(size, n);
    }
  }

  /** A file has been entered into the root directory, which may have grown by the lowest free sectors. */
  ghost predicate Linked(table: map<nat, File>, table': map<nat, File>, name: seq<byte>, s: nat, f: File, free: seq<nat>, free': seq<nat>)
    requires ROOT_DIR_SECTOR in table
  {
    && ROOT_DIR_SECTOR in table' && table' == table[s := f][ROOT_DIR_SECTOR := table'[ROOT_DIR_SECTOR]]
    && RootEntries(table') == RootEntries(table)[name := s]
    && NumSlots(table'[ROOT_DIR_SECTOR].data) == SlotsAfter(table[ROOT_DIR_SECTOR].data)
    && DirGrowth(table[ROOT_DIR_SECTOR].data) <= |free| && free' == free[DirGrowth(table[ROOT_DIR_SECTOR].data)..]
    && table'[ROOT_DIR_SECTOR].nodes == table[ROOT_DIR_SECTOR].nodes + free[..DirGrowth(table[ROOT_DIR_SECTOR].data)]
  }

  /** The root directory has been written with a new entry in it. */
  lemma EntryMade(disk0: seq<Sector>, disk: seq<Sector>, bits0: seq<bool>, bits: seq<bool>, log: seq<nat>, map0: InodeDisk,
                  table: map<nat, File>, name: seq<byte>, s: nat, f: File, r': File, added: seq<nat>)
    requires ROOT_DIR_SECTOR in table && RootOk(table) && VolumeOk(disk0, bits0, log, map0, table[s := f]) && |bits| == |bits0|
    requires s !in table && s < WORD_LIMIT && !f.d.isDir && ValidName(name) && 0 !in name && name !in Files(table)
    requires var r := table[ROOT_DIR_SECTOR];
             && r'.nodes == r.nodes + added && DirOk(r'.data) && Entries(r'.data) == Entries(r.data)[name := s]
             && r'.data == PutSlot(r.data, FirstUnused(r.data, 0), DirEntry(s, NameField(name), true))
             && Regrown(disk0, disk, Free(bits0), Free(bits), ROOT_DIR_SECTOR, r.d, r'.d, r.nodes, added, DirGrowth(r.data), r'.data, log)
    ensures var table' := table[s := f][ROOT_DIR_SECTOR := r'];
            && VolumeOk(disk, bits, log, map0, table') && RootOk(table') && Linked(table, table', name, s, f, Free(bits0), Free(bits))
            && Files(table') == Files(table)[name := f.data] && Leaked(bits, log, table') == Leaked(bits0, log, table[s := f])
  {
    hide Free, VolumeOk, Entries, DirOk, NamesOk, Regrown, PutSlot, Candidate, FirstUnused, Leaked, DirGrowth, NumSlots, FileAt, SameExcept;
    var r, table1 := table[ROOT_DIR_SECTOR], table[s := f];
    assert r' == File(r'.d, r.nodes + added, r'.data);
    FilesAt(table, name);
    RegrownFile(disk0, disk, Free(bits0), Free(bits), ROOT_DIR_SECTOR, r.d, r'.d, r.nodes, added, DirGrowth(r.data), r'.data, log);
    RootIsCandidate(bits0, log, table1);
    VolumeGrown(disk0, disk, bits0, bits, log, map0, table1, ROOT_DIR_SECTOR, r, r'.d, added, DirGrowth(r.data), r'.data);
    FileCreated(table, name, s, f, r');
    SlotsAfterAdd(r.data, DirEntry(s, NameField(name), true));
    LeakedWithMore(bits0, bits, log, table1, ROOT_DIR_SECTOR, r', added);
  }

  /** Each file of a volume is on the disk and can grow. */
  lemma FileThere(disk: seq<Sector>, bits: seq<bool>, log: seq<nat>, map0: InodeDisk, table: map<nat, File>, s: nat)
    requires VolumeOk(disk, bits, log, map0, table) && s in table
    ensures FileAt(disk, s, table[s].d, table[s].nodes, table[s].data)
    ensures Fits(disk, table[s].nodes + Free(bits), log)
    ensures s < |disk| && s !in table[s].nodes + Free(bits) && s !in log
    ensures |table[s].data| <= SECTOR_SIZE * MAX_SECTORS && |table[s].nodes| == FileCost(|table[s].data|)
  {
    FileBound(disk, table[s]);
    hide FileAt, Free;
    assert FileOk(disk, bits, log, s, table[s]);
    FileGrowable(disk, bits, log, s, table[s]);
  }

  lemma FileBound(disk: seq<Sector>, f: File)
    ensures Holds(disk, f.d, f.nodes, f.data) ==> |f.data| <= SECTOR_SIZE * MAX_SECTORS && |f.nodes| == FileCost(|f.data|)
  {
  }

  lemma RootIsCandidate(bits: seq<bool>, log: seq<nat>, table: map<nat, File>)
    requires ROOT_DIR_SECTOR in table
    ensures Candidate(bits, log, table, ROOT_DIR_SECTOR, table[ROOT_DIR_SECTOR])
  {
  }

  lemma InodeSectorReleasable(disk: seq<Sector>, bits: seq<bool>, log: seq<nat>, map0: InodeDisk, table: map<nat, File>, s: nat, f: File)
    requires s !in table && VolumeOk(disk, bits, log, map0, table[s := f])
    ensures VolumeOk(disk, bits, log, map0, table) && !Owned(table, s)
    ensures Marked(bits, [s]) && Distinct([s]) && 0 !in [s] && s !in log && s != 0
  {
    hide DecodeInode, FileAt, TableOk;
    VolumeWithout(disk, bits, log, map0, table, s, f);
    FileInTable(disk, bits, log, table[s := f], s);
    OwnParts(s, f, bits);
    assert s in Own(s, f);
  }

  lemma FileInTable(disk: seq<Sector>, bits: seq<bool>, log: seq<nat>, table: map<nat, File>, s: nat)
    requires TableOk(disk, bits, log, table) && s in table
    ensures FileOk(disk, bits, log, s, table[s])
  {
  }

  /** A new inode's sectors are the lowest free ones, and nothing has leaked. */
  lemma InodeMade(disk1: seq<Sector>, disk2: seq<Sector>, bits0: seq<bool>, bits1: seq<bool>, bits2: seq<bool>, log: seq<nat>,
                  map0: InodeDisk, table: map<nat, File>, s: nat, size: nat, f: File)
    requires size <= SECTOR_SIZE * MAX_SECTORS && |bits0| == |bits1| == |bits2| && s !in table
    requires VolumeOk(disk1, bits1, log, map0, table) && Candidate(bits1, log, table, s, File(EmptyInode(size, false), [], []))
    requires forall x | 0 <= x < |bits0| :: bits1[x] <==> bits0[x] || x == s
    requires s < |bits0| && !bits0[s]
    requires Regrown(disk1, disk2, Free(bits1), Free(bits2), s, EmptyInode(size, false), f.d, [], f.nodes, FileCost(size), Zeros(size), log)
    requires f.data == Zeros(size)
    ensures VolumeOk(disk2, bits2, log, map0, table[s := f]) && !f.d.isDir
    ensures |f.nodes| == FileCost(size) && Free(bits1) == f.nodes + Free(bits2)
    ensures 0 < |disk1| == |disk2| && disk2[0] == disk1[0]
    ensures Leaked(bits2, log, table[s := f]) == Leaked(bits0, log, table)
  {
    hide Free, VolumeOk, Candidate, Regrown, FileCost, EmptyInode, Leaked;
    var f0 := File(EmptyInode(size, false), [], []);
    RegrownFile(disk1, disk2, Free(bits1), Free(bits2), s, f0.d, f.d, [], f.nodes, FileCost(size), Zeros(size), log);
    VolumeGrown(disk1, disk2, bits1, bits2, log, map0, table, s, f0, f.d, f.nodes, FileCost(size), Zeros(size));
    assert f0.nodes + f.nodes == f.nodes && File(f.d, f.nodes, f.data) == f;
    TakeDrop(Free(bits1), FileCost(size));
    LeakedGrown(bits0, bits2, log, table, s, f, [s] + f.nodes);
  }

  /** A sector just taken from the free list may become a file's inode. */
  lemma SectorTaken(disk0: seq<Sector>, disk1: seq<Sector>, bits0: seq<bool>, bits1: seq<bool>, log: seq<nat>, map0: InodeDisk,
                    table: map<nat, File>, s: nat, f: File)
    requires VolumeOk(disk0, bits0, log, map0, table) && SameExcept(disk0, disk1, [], log) && |bits1| == |bits0|
    requires Free(bits0) == [s] + Free(bits1) && f.nodes == []
    ensures VolumeOk(disk1, bits1, log, map0, table) && Candidate(bits1, log, table, s, f)
    ensures forall x | 0 <= x < |bits0| :: bits1[x] <==> bits0[x] || x == s
    ensures 0 < s < |bits0| && !bits0[s] && s !in table && 0 < |disk0| == |disk1| && disk1[0] == disk0[0]
    ensures Fits(disk1, [] + Free(bits1), log) && s !in [] + Free(bits1) && s !in log
  {
    FreeMembers(bits0);
    FreeMembers(bits1);
    ClearUndoesTake(bits0, bits1, 1);
    assert Free(bits0)[0] in Free(bits0);
    assert Free(bits0)[..1] == [s];
    hide Free;
    VolumeFrame(disk0, disk1, bits0, bits1, log, map0, table);
    UnusedSector(disk0, bits0, log, map0, table, s);
    FitsFromMarked(disk1, bits1, [], log);
  }

  /** A free sector belongs to nobody. */
  lemma UnusedSector(disk: seq<Sector>, bits: seq<bool>, log: seq<nat>, map0: InodeDisk, table: map<nat, File>, s: nat)
    requires VolumeOk(disk, bits, log, map0, table) && s < |bits| && !bits[s]
    ensures s !in log && s !in table && !Owned(table, s)
  {
    hide FileAt, DecodeInode;
    NotMarked(bits, log, s);
    forall t | t in table
      ensures s !in Own(t, table[t])
    {
      assert FileOk(disk, bits, log, t, table[t]);
      NotMarked(bits, Own(t, table[t]), s);
    }
    assert s in table ==> s in Own(s, table[s]);
  }

  lemma NotMarked(bits: seq<bool>, own: seq<nat>, s: nat)
    requires Marked(bits, own) && s < |bits| && !bits[s]
    ensures s !in own
  {
  }
}
