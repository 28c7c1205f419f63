/** Directories: the slots of an inode's contents searched, filled and emptied (a3/fs/directory.c). */
module Directory {
  import opened Sectors
  import opened InodeTree
  import opened InodeMap
  import opened InodeGrowth
  import opened OutOfSpace
  import opened FileBytes
  import opened FreeSpace
  import opened BufferCache
  import opened Bitmaps
  import opened FileSystem
  import opened Inodes
  import opened OpenInodes
  import opened DirEntries

  lemma SliceIsSlot(data: seq<byte>, i: nat)
    requires |data| % 36 == 0
    ensures |Slice(data, 36 * i, 36)| == 36 <==> i < NumSlots(data)
    ensures i < NumSlots(data) ==> Slice(data, 36 * i, 36) == data[36 * i..36 * i + 36]
  {
  }

  lemma WholeSlots(data: seq<byte>)
    requires DirOk(data)
    ensures |data| % 36 == 0 && |data| == 36 * NumSlots(data) && NumSlots(data) >= 1
  {
  }

  class Dir {
    const inode: Inode
    var pos: nat

    /** The directory's inode is loaded and its contents are in order. */
    ghost predicate Ok()
      reads inode, inode.fs.cache`disk
    {
      inode.Loaded() && DirOk(inode.bytes)
    }

    /** dir_open of an inode just opened. */
    constructor (fs: FileSys, sector: nat, ghost d: InodeDisk, ghost nodes: seq<nat>, ghost bytes: seq<byte>)
      requires fs.Wf() && FileAt(fs.Disk(), sector, d, nodes, bytes) && DirOk(bytes)
      modifies fs.cache`clock, fs.cache.device, fs.cache.slots
      ensures fs.Wf() && fresh(inode) && inode.fs == fs && inode.sector == sector && inode.nodes == nodes && inode.bytes == bytes
      ensures Ok() && inode.data == d && inode.denyWriteCnt == 0 && !inode.removed
      ensures pos == ENTRY_SIZE
    {
      hide Cache.Valid, Bitmap.Valid, Bitmap.Bits, Free, Holds, DirOk;
      inode := new Inode(fs, sector, d, nodes, bytes);
      pos := ENTRY_SIZE;
    }

    /** One inode_read_at of a directory entry. */
    method ReadEntry(ofs: nat, ghost i: nat) returns (ok: bool, e: DirEntry)
      requires inode.fs.Wf() && inode.Loaded() && ofs == 36 * i && |inode.bytes| % 36 == 0
      modifies inode.fs.cache`clock, inode.fs.cache.device, inode.fs.cache.slots
      ensures inode.fs.Wf() && inode.Loaded()
      ensures ok <==> i < NumSlots(inode.bytes)
      ensures ok ==> e == Slot(inode.bytes, i)
    {
      hide Cache.Valid, Bitmap.Valid, Bitmap.Bits, Free, FileAt, DecodeEntry;
      SliceIsSlot(inode.bytes, i);
      var buf := inode.ReadAt(ENTRY_SIZE, ofs);
      ok := |buf| == ENTRY_SIZE;
      e := if ok then DecodeEntry(buf) else DirEntry(0, NameField([]), false);
    }

    /** lookup: from slot 1 on, the slot in use with the given name. */
    method Lookup(name: seq<byte>) returns (found: bool, e: DirEntry, ofs: nat, ghost i: nat)
      requires inode.fs.Wf() && Ok()
      modifies inode.fs.cache`clock, inode.fs.cache.device, inode.fs.cache.slots
      ensures inode.fs.Wf() && Ok()
      ensures found <==> name in Entries(inode.bytes)
      ensures found ==>
                && ofs == 36 * i && Names(inode.bytes, i, name) && e == Slot(inode.bytes, i)
                && e.inodeSector == Entries(inode.bytes)[name]
    {
      hide Cache.Valid, Bitmap.Valid, Bitmap.Bits, Free, FileSys.Wf, FileAt, Slot, CString, DirOk, Entries;
      ghost var data := inode.bytes;
      EntriesAre(data, name);
      WholeSlots(data);
      ofs, i := ENTRY_SIZE, 1;
      var ok;
      ok, e := ReadEntry(ofs, i);
      while ok
        invariant inode.fs.Wf() && Ok() && ofs == 36 * i && i >= 1
        invariant ok <==> i < NumSlots(data)
        invariant ok ==> e == Slot(data, i)
        invariant forall j: nat | j < i :: !Names(data, j, name)
        decreases NumSlots(data) - i
      {
        if e.inUse && CString(e.name) == name {
          assert Names(data, i, name);
          return true, e, ofs, i;
        }
        ofs, i := ofs + ENTRY_SIZE, i + 1;
        ok, e := ReadEntry(ofs, i);
      }
      found := false;
    }

    /** dir_is_empty. */
    method IsEmpty() returns (empty: bool)
      requires inode.fs.Wf() && Ok()
      modifies inode.fs.cache`clock, inode.fs.cache.device, inode.fs.cache.slots
      ensures inode.fs.Wf() && Ok()
      ensures empty <==> Entries(inode.bytes) == map[]
    {
      hide Cache.Valid, Bitmap.Valid, Bitmap.Bits, Free, FileSys.Wf, FileAt, Slot, CString, DirOk, Entries;
      ghost var data := inode.bytes;
      EmptyEntries(data);
      WholeSlots(data);
      var ofs := ENTRY_SIZE;
      ghost var i: nat := 1;
      var ok, e := ReadEntry(ofs, i);
      while ok
        invariant inode.fs.Wf() && Ok() && ofs == 36 * i && i >= 1
        invariant ok <==> i < NumSlots(data)
        invariant ok ==> e == Slot(data, i)
        invariant forall j | 1 <= j < i && j < NumSlots(data) :: !Slot(data, j).inUse
        decreases NumSlots(data) - i
      {
        if e.inUse {
          return false;
        }
        ofs, i := ofs + ENTRY_SIZE, i + 1;
        ok, e := ReadEntry(ofs, i);
      }
      return true;
    }

    /** dir_readdir: the next name in slot order, or the end of the directory. */
    method ReadDir() returns (ok: bool, name: seq<byte>)
      requires inode.fs.Wf() && Ok() && pos % 36 == 0 && 36 <= pos <= |inode.bytes|
      modifies this`pos, inode.fs.cache`clock, inode.fs.cache.device, inode.fs.cache.slots
      ensures inode.fs.Wf() && Ok() && pos % 36 == 0 && old(pos) <= pos <= |inode.bytes|
      ensures ok ==>
                && NamesFrom(inode.bytes, old(pos) / 36) == [name] + NamesFrom(inode.bytes, pos / 36)
                && Names(inode.bytes, pos / 36 - 1, name)
      ensures !ok ==> NamesFrom(inode.bytes, old(pos) / 36) == [] && NamesFrom(inode.bytes, pos / 36) == []
      ensures forall j | old(pos) / 36 <= j < (if ok then pos / 36 - 1 else NumSlots(inode.bytes)) :: !Slot(inode.bytes, j).inUse
    {
      hide Cache.Valid, Bitmap.Valid, Bitmap.Bits, Free, FileSys.Wf, FileAt, Slot, CString, DirOk;
      ghost var data := inode.bytes;
      WholeSlots(data);
      ghost var i0: nat := pos / 36;
      ghost var i := i0;
      var more, e := ReadEntry(pos, i);
      while more
        invariant inode.fs.Wf() && Ok() && pos == 36 * i && i0 <= i <= NumSlots(data)
        invariant more <==> i < NumSlots(data)
        invariant more ==> e == Slot(data, i)
        invariant NamesFrom(data, i0) == NamesFrom(data, i)
        invariant forall j | i0 <= j < i :: !Slot(data, j).inUse
        decreases NumSlots(data) - i
      {
        assert this !in inode.fs.Repr();
        pos, i := pos + ENTRY_SIZE, i + 1;
        if e.inUse {
          return true, CString(e.name);
        }
        more, e := ReadEntry(pos, i);
      }
      return false, [];
    }

    /** The loop of dir_add that looks for a free slot, from offset 0. */
    method FindUnused() returns (ofs: nat)
      requires inode.fs.Wf() && Ok()
      modifies inode.fs.cache`clock, inode.fs.cache.device, inode.fs.cache.slots
      ensures inode.fs.Wf() && Ok()
      ensures ofs == 36 * FirstUnused(inode.bytes, 0)
    {
      hide Cache.Valid, Bitmap.Valid, Bitmap.Bits, Free, FileSys.Wf, FileAt, Slot, CString, DirOk;
      ghost var data := inode.bytes;
      WholeSlots(data);
      ofs := 0;
      ghost var i: nat := 0;
      var ok, e := ReadEntry(ofs, i);
      while ok && e.inUse
        invariant inode.fs.Wf() && Ok() && ofs == 36 * i && i <= NumSlots(data)
        invariant ok <==> i < NumSlots(data)
        invariant ok ==> e == Slot(data, i)
        invariant FirstUnused(data, 0) == FirstUnused(data, i)
        decreases NumSlots(data) - i
      {
        ofs, i := ofs + ENTRY_SIZE, i + 1;
        ok, e := ReadEntry(ofs, i);
      }
    }

    /** dir_add: a valid name that is not there yet goes into the first free slot, at the end of the
        directory if there is none, provided there are free sectors for the directory to grow into. */
    method Add(name: seq<byte>, sector: nat) returns (ok: bool, ghost added: seq<nat>)
      requires inode.fs.Wf() && Ok() && inode.fs.Growable(inode.nodes) && inode.fs.OwnSector(inode.sector, inode.nodes)
      requires inode.denyWriteCnt == 0 && sector < WORD_LIMIT && 0 !in name
      requires ValidName(name) && name !in Entries(inode.bytes) ==> RoomForEntry(inode.bytes)
      modifies inode`data, inode`nodes, inode`bytes
      modifies inode.fs.cache, inode.fs.cache.device, inode.fs.cache.slots, inode.fs.freeMap.words, inode.fs`mapBytes
      ensures inode.fs.Wf() && inode.fs.MapReady()
      ensures ok <==> ValidName(name) && name !in Entries(old(inode.bytes)) && DirGrowth(old(inode.bytes)) <= |old(inode.fs.FreeList())|
      ensures !ok ==> inode.bytes == old(inode.bytes) && inode.nodes == old(inode.nodes)
      ensures !(ValidName(name) && name !in Entries(old(inode.bytes))) ==>
                && Ok() && inode.data == old(inode.data)
                && inode.fs.Disk() == old(inode.fs.Disk()) && inode.fs.Bits() == old(inode.fs.Bits())
      ensures !ok && ValidName(name) && name !in Entries(old(inode.bytes)) ==>
                NoRoom(old(inode.fs.Disk()), inode.fs.Disk(), old(inode.data), inode.data, inode.nodes, old(inode.fs.FreeList()),
                       inode.fs.FreeList(), inode.bytes, inode.fs.mapNodes)
      ensures ok ==>
                && Ok() && Entries(inode.bytes) == Entries(old(inode.bytes))[name := sector]
                && inode.bytes == PutSlot(old(inode.bytes), FirstUnused(old(inode.bytes), 0), DirEntry(sector, NameField(name), true))
                && inode.nodes == old(inode.nodes) + added
                && Regrown(old(inode.fs.Disk()), inode.fs.Disk(), old(inode.fs.FreeList()), inode.fs.FreeList(), inode.sector,
                           old(inode.data), inode.data, old(inode.nodes), added, DirGrowth(old(inode.bytes)), inode.bytes, inode.fs.mapNodes)
    {
      hide Cache.Valid, Bitmap.Valid, Bitmap.Bits, Free, FileAt, Slot, CString, DirOk, Regrown, Splice, Growth, EncodeEntry, Entries,
           Fits, Marked, Distinct, Words, BitsOf, NoRoom;
      added := [];
      if |name| == 0 || |name| > NAME_MAX {
        return false, [];
      }
      ghost var i;
      var found, e, ofs;
      found, e, ofs, i := Lookup(name);
      if found {
        return false, [];
      }
      ofs := FindUnused();
      e := DirEntry(sector, NameField(name), true);
      SlotZeroUsed(inode.bytes);
      WholeSlots(inode.bytes);
      EntryAdded(inode.bytes, FirstUnused(inode.bytes, 0), name, sector);
      var written;
      written, added := inode.WriteAt(EncodeEntry(e), ofs);
      ok := written == ENTRY_SIZE;
    }

    /** dir_remove of a file's name: its slot is freed and all the file's sectors are released. */
    method Remove(name: seq<byte>, ghost d: InodeDisk, ghost nodes: seq<nat>, ghost bytes: seq<byte>) returns (ok: bool, ghost i: nat)
      requires inode.fs.Wf() && Ok() && inode.fs.Growable(inode.nodes) && inode.fs.OwnSector(inode.sector, inode.nodes)
      requires inode.denyWriteCnt == 0 && inode.fs.mapOpen && |inode.bytes| <= SECTOR_SIZE * MAX_SECTORS
      requires name in Entries(inode.bytes) ==> RemovableFile(Entries(inode.bytes)[name], d, nodes, bytes)
      modifies inode`data, inode`nodes, inode`bytes
      modifies inode.fs.cache, inode.fs.cache.device, inode.fs.cache.slots, inode.fs.freeMap.words, inode.fs`mapBytes
      ensures inode.fs.Wf() && Ok() && inode.fs.MapReady() && inode.nodes == old(inode.nodes) && inode.data.isDir == old(inode.data.isDir)
      ensures ok <==> name in Entries(old(inode.bytes))
      ensures !ok ==>
                inode.bytes == old(inode.bytes) && inode.data == old(inode.data)
                && inode.fs.Disk() == old(inode.fs.Disk()) && inode.fs.Bits() == old(inode.fs.Bits())
      ensures ok ==>
                && Names(old(inode.bytes), i, name)
                && inode.bytes == PutSlot(old(inode.bytes), i, Slot(old(inode.bytes), i).(inUse := false))
                && Entries(inode.bytes) == Entries(old(inode.bytes)) - {name}
                && inode.fs.Bits() == Clear(old(inode.fs.Bits()), [Entries(old(inode.bytes))[name]] + nodes)
                && SameExcept(old(inode.fs.Disk()), inode.fs.Disk(), inode.nodes + [inode.sector], inode.fs.mapNodes)
    {
      hide Cache.Valid, Bitmap.Valid, Bitmap.Bits, Free, FileAt, Slot, CString, DirOk, Entries, PutSlot, Clear, Names,
           Marked, Distinct, SameExcept, Fits, Words, BitsOf, Holds;
      var found, e, ofs;
      found, e, ofs, i := Lookup(name);
      if !found {
        return false, 0;
      }
      RemoveFound(name, e, ofs, i, d, nodes, bytes);
      ok := true;
    }

    /** dir_remove once the entry is found. The file is not a directory, so it may go whatever it holds. */
    method RemoveFound(ghost name: seq<byte>, e: DirEntry, ofs: nat, ghost i: nat,
                       ghost d: InodeDisk, ghost nodes: seq<nat>, ghost bytes: seq<byte>)
      requires inode.fs.Wf() && Ok() && inode.fs.Growable(inode.nodes) && inode.fs.OwnSector(inode.sector, inode.nodes)
      requires inode.denyWriteCnt == 0 && inode.fs.mapOpen && |inode.bytes| <= SECTOR_SIZE * MAX_SECTORS
      requires Names(inode.bytes, i, name) && e == Slot(inode.bytes, i) && ofs == 36 * i
      requires RemovableFile(e.inodeSector, d, nodes, bytes)
      modifies inode`data, inode`nodes, inode`bytes
      modifies inode.fs.cache, inode.fs.cache.device, inode.fs.cache.slots, inode.fs.freeMap.words, inode.fs`mapBytes
      ensures inode.fs.Wf() && Ok() && inode.fs.MapReady()
      ensures inode.nodes == old(inode.nodes) && inode.data.isDir == old(inode.data.isDir)
      ensures inode.bytes == PutSlot(old(inode.bytes), i, Slot(old(inode.bytes), i).(inUse := false))
      ensures Entries(inode.bytes) == Entries(old(inode.bytes)) - {name}
      ensures inode.fs.Bits() == Clear(old(inode.fs.Bits()), [e.inodeSector] + nodes)
      ensures SameExcept(old(inode.fs.Disk()), inode.fs.Disk(), inode.nodes + [inode.sector], inode.fs.mapNodes)
    {
      hide Cache.Valid, Bitmap.Valid, Bitmap.Bits, Free, FileAt, Slot, CString, DirOk, Entries, PutSlot, Clear,
           Marked, Distinct, SameExcept, Fits, Words, BitsOf, Holds;
      DirApart(inode.fs.Disk(), inode.nodes, inode.sector, inode.fs.FreeList(), inode.fs.mapNodes);
      var file := new Inode(inode.fs, e.inodeSector, d, nodes, bytes);
      Drop(file, e, ofs, i, name);
    }

    /** The last steps of dir_remove: the slot is erased, then the removed file closed. */
    method Drop(file: Inode, e: DirEntry, ofs: nat, ghost i: nat, ghost name: seq<byte>)
      requires inode.fs.Wf() && Ok() && inode.fs.Growable(inode.nodes) && inode.fs.OwnSector(inode.sector, inode.nodes)
      requires inode.denyWriteCnt == 0 && inode.fs.mapOpen && |inode.bytes| <= SECTOR_SIZE * MAX_SECTORS
      requires Names(inode.bytes, i, name) && e == Slot(inode.bytes, i) && ofs == 36 * i
      requires file != inode && file.fs == inode.fs && file.Loaded() && inode.fs.Releasable([file.sector] + file.nodes)
      requires forall x | x in [file.sector] + file.nodes :: x !in inode.nodes + [inode.sector]
      requires forall x | x in [inode.sector] + inode.nodes :: x !in inode.fs.mapNodes
      modifies inode`data, inode`nodes, inode`bytes, file`removed
      modifies inode.fs.cache, inode.fs.cache.device, inode.fs.cache.slots, inode.fs.freeMap.words, inode.fs`mapBytes
      ensures inode.fs.Wf() && Ok() && inode.fs.MapReady()
      ensures inode.nodes == old(inode.nodes) && inode.data.isDir == old(inode.data.isDir)
      ensures inode.bytes == PutSlot(old(inode.bytes), i, Slot(old(inode.bytes), i).(inUse := false))
      ensures Entries(inode.bytes) == Entries(old(inode.bytes)) - {name}
      ensures inode.fs.Bits() == Clear(old(inode.fs.Bits()), [file.sector] + file.nodes)
      ensures SameExcept(old(inode.fs.Disk()), inode.fs.Disk(), inode.nodes + [inode.sector], inode.fs.mapNodes)
    {
      hide Cache.Valid, Bitmap.Valid, Bitmap.Bits, Free, FileAt, Slot, CString, DirOk, Entries, PutSlot, Clear,
           FileSys.Wf, FileSys.MapReady, FileSys.Bits, FileSys.OwnSector, FileSys.Growable, Marked, Distinct, SameExcept, Fits;
      ghost var disk0, own, log := inode.fs.Disk(), inode.nodes + [inode.sector], inode.fs.mapNodes;
      Erase(e, ofs, i, name);
      ghost var disk1 := inode.fs.Disk();
      FileFrame(disk0, disk1, file.sector, file.data, file.nodes, file.bytes, own, log);
      assert file !in inode.fs.Repr();
      file.Remove();
      file.Close();
      ghost var disk2 := inode.fs.Disk();
      FileFrame(disk1, disk2, inode.sector, inode.data, inode.nodes, inode.bytes, [], log);
      SameExceptWiden(disk1, disk2, [], own, log);
      SameExceptChain(disk0, disk1, disk2, own, own, log);
    }

    /** The entry read from slot `i` is written back as not in use. */
    method Erase(e: DirEntry, ofs: nat, ghost i: nat, ghost name: seq<byte>)
      requires inode.fs.Wf() && Ok() && inode.fs.Growable(inode.nodes) && inode.fs.OwnSector(inode.sector, inode.nodes)
      requires inode.denyWriteCnt == 0 && |inode.bytes| <= SECTOR_SIZE * MAX_SECTORS
      requires Names(inode.bytes, i, name) && e == Slot(inode.bytes, i) && ofs == 36 * i
      modifies inode`data, inode`nodes, inode`bytes
      modifies inode.fs.cache, inode.fs.cache.device, inode.fs.cache.slots, inode.fs.freeMap.words, inode.fs`mapBytes
      ensures inode.fs.Wf() && Ok() && inode.fs.MapReady()
      ensures inode.nodes == old(inode.nodes) && inode.data.isDir == old(inode.data.isDir)
      ensures inode.bytes == PutSlot(old(inode.bytes), i, Slot(old(inode.bytes), i).(inUse := false))
      ensures Entries(inode.bytes) == Entries(old(inode.bytes)) - {name}
      ensures inode.fs.Bits() == old(inode.fs.Bits())
      ensures SameExcept(old(inode.fs.Disk()), inode.fs.Disk(), inode.nodes + [inode.sector], inode.fs.mapNodes)
    {
      hide Cache.Valid, Bitmap.Valid, Bitmap.Bits, Free, FileAt, Slot, CString, DirOk, Regrown, Splice, Growth, EncodeEntry, Entries,
           Fits, Marked, Distinct, Words, BitsOf, SameExcept;
      ghost var disk0, bits0, nodes0, data0, bytes0 := inode.fs.Disk(), inode.fs.Bits(), inode.nodes, inode.data, inode.bytes;
      WholeSlots(bytes0);
      EntryRemoved(bytes0, i, name);
      GrowthBetween(|bytes0|, ofs + ENTRY_SIZE);
      var written;
      ghost var added;
      written, added := inode.WriteAt(EncodeEntry(e.(inUse := false)), ofs);
      RegrownFile(disk0, inode.fs.Disk(), Free(bits0), inode.fs.FreeList(), inode.sector, data0, inode.data, nodes0, added, 0,
                  inode.bytes, inode.fs.mapNodes);
      SameFree(bits0, inode.fs.Bits());
    }

    /** A file that may be removed from this directory: not a directory itself, and apart from this one. */
    ghost predicate RemovableFile(s: nat, d: InodeDisk, nodes: seq<nat>, bytes: seq<byte>)
      reads inode, inode.fs, inode.fs.cache`disk, inode.fs.freeMap, inode.fs.freeMap.words
    {
      && FileAt(inode.fs.Disk(), s, d, nodes, bytes) && !d.isDir && inode.fs.Releasable([s] + nodes)
      && forall x | x in [s] + nodes :: x !in inode.nodes + [inode.sector]
    }
  }

  /** The contents of a new directory: a slot in use for the parent, here itself, and free slots. */
  function NewDirectory(sector: nat, entryCnt: nat): seq<byte>
    requires sector < WORD_LIMIT
  {
    PutSlot(Zeros(ENTRY_SIZE * entryCnt), 0, DirEntry(sector, NameField([]), true))
  }

  lemma NewDirectoryEmpty(sector: nat, entryCnt: nat)
    requires sector < WORD_LIMIT
    ensures |NewDirectory(sector, entryCnt)| == if entryCnt == 0 then 36 else 36 * entryCnt
    ensures DirOk(NewDirectory(sector, entryCnt)) && Entries(NewDirectory(sector, entryCnt)) == map[]
    ensures Slot(NewDirectory(sector, entryCnt), 0).inUse && Slot(NewDirectory(sector, entryCnt), 0).inodeSector == sector
    ensures NewDirectory(sector, entryCnt)
         == Splice(Zeros(36 * entryCnt), 0, EncodeEntry(DirEntry(sector, NameField([]), true)))
  {
    var data := NewDirectory(sector, entryCnt);
    SlotsAfterPut(Zeros(36 * entryCnt), 0, DirEntry(sector, NameField([]), true));
    forall j | 1 <= j < NumSlots(data)
      ensures !Slot(data, j).inUse
    {
      assert Zeros(36 * entryCnt)[36 * j..36 * j + 36][35] == 0;
    }
    EmptyEntries(data);
  }

  /** dir_create. */
  method DirCreate(fs: FileSys, sector: nat, entryCnt: nat)
    returns (ok: bool, ghost d: InodeDisk, ghost nodes: seq<nat>)
    requires fs.Wf() && fs.Growable([]) && fs.OwnSector(sector, []) && sector < WORD_LIMIT
    requires ENTRY_SIZE * entryCnt <= SECTOR_SIZE * MAX_SECTORS
    modifies fs.cache, fs.cache.device, fs.cache.slots, fs.freeMap.words, fs`mapBytes
    ensures fs.Wf() && (ok ==> fs.MapReady())
    ensures ok <==> InodeCost(BytesToSectors(|NewDirectory(sector, entryCnt)|)) <= |old(fs.FreeList())|
    ensures ok ==>
              Regrown(old(fs.Disk()), fs.Disk(), old(fs.FreeList()), fs.FreeList(), sector, EmptyInode(ENTRY_SIZE * entryCnt, true), d,
                      [], nodes, InodeCost(BytesToSectors(|NewDirectory(sector, entryCnt)|)), NewDirectory(sector, entryCnt), fs.mapNodes)
  {
    hide Cache.Valid, Bitmap.Valid, Bitmap.Bits, Free, FileAt, Marked, Distinct, Fits, Regrown, InodeCost, EmptyInode, Splice, SameExcept,
         Holds, EncodeEntry, Words, BitsOf, NoRoom, Exhausted, IsData, PutSlot, BytesToSectors, Growth, FileSys.MapReady;
    ghost var size := ENTRY_SIZE * entryCnt;
    NewDirectoryEmpty(sector, entryCnt);
    DirectoryCost(entryCnt);
    ok, d, nodes := CreateInode(fs, sector, ENTRY_SIZE * entryCnt, true);
    if !ok {
      return;
    }
    ghost var disk1, free1, d1, nodes1 := fs.Disk(), fs.FreeList(), d, nodes;
    CreatedGrowable(old(fs.Disk()), disk1, old(fs.FreeList()), free1, sector, EmptyInode(size, true), d, nodes,
                    InodeCost(BytesToSectors(size)), Zeros(size), fs.mapNodes);
    ghost var added;
    ok, d, added := EnterParent(fs, sector, d1, nodes1, Zeros(size));
    if ok {
      assert [] + nodes1 == nodes1;
      nodes := nodes1 + added;
      RegrownTrans(old(fs.Disk()), disk1, fs.Disk(), old(fs.FreeList()), free1, fs.FreeList(), sector, EmptyInode(size, true), d1, d,
                   [], nodes1, added, InodeCost(BytesToSectors(size)), Growth(size, 36), Zeros(size), NewDirectory(sector, entryCnt), fs.mapNodes);
    }
  }

  /** The last steps of dir_create: slot 0 of the new directory, for its parent, refers to itself. */
  method EnterParent(fs: FileSys, sector: nat, ghost d0: InodeDisk, ghost nodes: seq<nat>, ghost data: seq<byte>)
    returns (ok: bool, ghost d: InodeDisk, ghost added: seq<nat>)
    requires fs.Wf() && fs.Growable(nodes) && fs.OwnSector(sector, nodes) && FileAt(fs.Disk(), sector, d0, nodes, data)
    requires sector < WORD_LIMIT
    modifies fs.cache, fs.cache.device, fs.cache.slots, fs.freeMap.words, fs`mapBytes
    ensures fs.Wf() && fs.MapReady()
    ensures ok <==> Growth(|data|, ENTRY_SIZE) <= |old(fs.FreeList())|
    ensures ok ==>
              Regrown(old(fs.Disk()), fs.Disk(), old(fs.FreeList()), fs.FreeList(), sector, d0, d, nodes, added, Growth(|data|, ENTRY_SIZE),
                      PutSlot(data, 0, DirEntry(sector, NameField([]), true)), fs.mapNodes)
  {
    hide Cache.Valid, Bitmap.Valid, Bitmap.Bits, Free, FileAt, Marked, Distinct, Fits, Regrown, InodeCost, Splice, SameExcept, EncodeEntry,
         NoRoom, Growth;
    var inode := new Inode(fs, sector, d0, nodes, data);
    var written;
    written, added := inode.WriteAt(EncodeEntry(DirEntry(sector, NameField([]), true)), 0);
    ok, d := written == ENTRY_SIZE, inode.data;
  }

  lemma DirectoryCost(entryCnt: nat)
    ensures InodeCost(BytesToSectors(36 * entryCnt)) + Growth(36 * entryCnt, 36)
         == InodeCost(BytesToSectors(if entryCnt == 0 then 36 else 36 * entryCnt))
  {
    hide InodeCost, BytesToSectors, Growth;
    GrowthBetween(36 * entryCnt, 36);
  }

  /** A new inode can grow further. */
  lemma CreatedGrowable(disk0: seq<Sector>, disk: seq<Sector>, free0: seq<nat>, free: seq<nat>, sector: nat, d0: InodeDisk, d: InodeDisk,
                        nodes: seq<nat>, k: nat, data: seq<byte>, log: seq<nat>)
    requires Regrown(disk0, disk, free0, free, sector, d0, d, [], nodes, k, data, log)
    requires Fits(disk0, [] + free0, log) && sector !in [] + free0
    ensures FileAt(disk, sector, d, nodes, data) && Fits(disk, nodes + free, log) && sector !in nodes + free
    ensures |free| == |free0| - k
  {
    RegrownFile(disk0, disk, free0, free, sector, d0, d, [], nodes, k, data, log);
    assert [] + nodes == nodes && [] + free0 == free0;
    TakeDrop(free0, k);
    FitsTaken(disk0, disk, [], free0, k, log);
  }

  lemma DirApart(disk: seq<Sector>, nodes: seq<nat>, sector: nat, free: seq<nat>, log: seq<nat>)
    requires Fits(disk, nodes + free, log) && sector !in log
    ensures forall x | x in [sector] + nodes :: x !in log
  {
    FitsApart(disk, nodes + free, log);
    assert forall x | x in nodes :: x in nodes + free;
  }

  lemma SameFree(bits: seq<bool>, bits': seq<bool>)
    requires |bits'| == |bits| && Free(bits') == Free(bits)[0..]
    ensures bits' == bits
  {
    ClearUndoesTake(bits, bits', 0);
  }

  /** One more entry keeps the directory within the largest file size. */
  predicate RoomForEntry(data: seq<byte>) {
    36 * FirstUnused(data, 0) + 36 <= SECTOR_SIZE * MAX_SECTORS
  }

  /** Sectors the directory needs for one more entry. */
  function DirGrowth(data: seq<byte>): nat {
    Growth(|data|, 36 * FirstUnused(data, 0) + 36)
  }

  lemma SlotZeroUsed(data: seq<byte>)
    requires DirOk(data)
    ensures FirstUnused(data, 0) >= 1
  {
  }

  lemma EmptyEntries(data: seq<byte>)
    requires DirOk(data)
    ensures Entries(data) == map[] <==> forall j | 1 <= j < NumSlots(data) :: !Slot(data, j).inUse
  {
    if forall j | 1 <= j < NumSlots(data) :: !Slot(data, j).inUse {
      forall n
        ensures n !in Entries(data)
      {
        EntriesAre(data, n);
      }
      assert Entries(data) == map[];
    }
    if j :| 1 <= j < NumSlots(data) && Slot(data, j).inUse {
      var n := CString(Slot(data, j).name);
      EntriesAre(data, n);
      assert Names(data, j, n);
    }
  }

  // ---------- when a directory grows ----------

  /** A full directory has one name a slot. */
  lemma {:induction false} EntriesInSlots(data: seq<byte>, k: nat)
    requires DirOk(data) && 1 <= k <= NumSlots(data)
    ensures |EntriesBelow(data, k)| <= k - 1
    ensures (forall j | 1 <= j < k :: Slot(data, j).inUse) <==> |EntriesBelow(data, k)| == k - 1
  {
    hide CString, Slot;
    if k > 1 {
      EntriesInSlots(data, k - 1);
      var n := CString(Slot(data, k - 1).name);
      if Slot(data, k - 1).inUse {
        if n in EntriesBelow(data, k - 1) {
          EntriesBelowFound(data, k - 1, n);
          assert false;
        }
      }
    }
  }

  /** The directory has no free slot left exactly if it lists a name for every slot but the parent's. */
  lemma FullDirectory(data: seq<byte>)
    requires DirOk(data)
    ensures |Entries(data)| <= NumSlots(data) - 1
    ensures FirstUnused(data, 0) == NumSlots(data) <==> |Entries(data)| == NumSlots(data) - 1
  {
    hide Slot, CString, EntriesBelow;
    EntriesInSlots(data, NumSlots(data));
  }

  /** What one more entry costs: nothing while there is a free slot. */
  lemma EntryGrowth(data: seq<byte>)
    requires DirOk(data)
    ensures |data| == 36 * NumSlots(data) && 1 <= NumSlots(data)
    ensures if |Entries(data)| == NumSlots(data) - 1
            then DirGrowth(data) == Growth(36 * NumSlots(data), 36 * NumSlots(data) + 36) && FirstUnused(data, 0) == NumSlots(data)
            else DirGrowth(data) == 0 && 36 * FirstUnused(data, 0) + 36 <= |data|
  {
    hide BytesToSectors, InodeCost, Growth, NumSlots, Slot, Entries, DirOk, FirstUnused;
    WholeSlots(data);
    FullDirectory(data);
    SlotGrowth(|data|, NumSlots(data), FirstUnused(data, 0));
  }

  lemma SlotGrowth(length: nat, slots: nat, i: nat)
    requires length == 36 * slots && i <= slots
    ensures i < slots ==> Growth(length, 36 * i + 36) == 0 && 36 * i + 36 <= length
  {
    hide Growth, BytesToSectors, InodeCost;
    if i < slots {
      GrowthBetween(length, 36 * i + 36);
    }
  }

  /** One more entry costs a directory at most three sectors. */
  lemma DirGrowthBound(data: seq<byte>)
    requires DirOk(data)
    ensures DirGrowth(data) <= 3
  {
    hide DirOk, Entries, FirstUnused, BytesToSectors, InodeCost, DirGrowth, Growth;
    EntryGrowth(data);
    OneMoreSlot(NumSlots(data));
  }

  lemma OneMoreSlot(slots: nat)
    ensures Growth(36 * slots, 36 * slots + 36) <= 3
  {
    var a := 36 * slots;
    assert BytesToSectors(a) <= BytesToSectors(a + 36) <= BytesToSectors(a) + 1;
    hide BytesToSectors;
    InodeCostStep(BytesToSectors(a));
    hide InodeCost;
    GrowthBetween(a, a + 36);
  }

  lemma InodeCostStep(n: nat)
    ensures InodeCost(n + 1) <= InodeCost(n) + 3
  {
  }

  /** Slots after dir_add. */
  lemma SlotsAfterAdd(data: seq<byte>, e: DirEntry)
    requires DirOk(data) && e.Valid()
    ensures NumSlots(PutSlot(data, FirstUnused(data, 0), e))
         == NumSlots(data) + if FirstUnused(data, 0) == NumSlots(data) then 1 else 0
  {
    SlotsAfterPut(data, FirstUnused(data, 0), e);
    hide PutSlot, Slot;
  }
}
