/** Defragmentation: every file read and removed, then all of them created anew (a3/fs/fsutil2.c). */
module Defragmentation {
  import opened Sectors
  import opened InodeTree
  import opened InodeMap
  import opened FileBytes
  import opened FreeSpace
  import opened BufferCache
  import opened Bitmaps
  import opened FileSystem
  import opened Inodes
  import opened OpenInodes
  import opened DirEntries
  import opened Directory
  import opened FileTable
  import opened VolumeState
  import opened Volumes

  /** A file saved in memory. */
  datatype FileData = FileData(name: seq<byte>, data: seq<byte>)

  /** Sectors that the first `k` saved files take, inodes included. */
  function Total(files: seq<FileData>, k: nat): nat
    requires k <= |files|
  {
    if k == 0 then 0 else Total(files, k - 1) + 1 + FileCost(|files[k - 1].data|)
  }

  /** What defragment asks of the files: names the directory functions look up and that fit the
      30-byte copy with their terminator, and at least one byte each. */
  ghost predicate Movable(files: map<seq<byte>, seq<byte>>) {
    forall n | n in files :: PlainName(n) && |n| < NAME_MAX && |files[n]| > 0
  }

  ghost predicate AllDifferent(names: seq<seq<byte>>) {
    forall a, b | 0 <= a < b < |names| :: names[a] != names[b]
  }

  /** The first of the names, in order, have been saved; the others are still on the volume. */
  ghost predicate BackedUp(files: seq<FileData>, names: seq<seq<byte>>, files0: map<seq<byte>, seq<byte>>, rest: map<seq<byte>, seq<byte>>) {
    && |files| <= |names| && AllDifferent(names)
    && (forall j | 0 <= j < |files| :: names[j] in files0 && files[j] == FileData(names[j], files0[names[j]]))
    && (forall n :: n in rest <==> n in names[|files|..])
    && (forall n | n in rest :: n in files0 && rest[n] == files0[n])
  }

  lemma BackedUpMore(files: seq<FileData>, names: seq<seq<byte>>, files0: map<seq<byte>, seq<byte>>, rest: map<seq<byte>, seq<byte>>, name: seq<byte>)
    requires BackedUp(files, names, files0, rest) && |files| < |names| && names[|files|] == name
    ensures name in rest
    ensures BackedUp(files + [FileData(name, rest[name])], names, files0, rest - {name})
  {
    var k := |files|;
    assert names[k..][0] == name;
    assert name in names[k..];
    assert names[k..] == [name] + names[k + 1..];
    assert name !in names[k + 1..];
  }

  // ---------- directory slots ----------

  /** Slots before `p` do not matter to a listing from `p` on. */
  lemma {:induction false} NamesFromKept(data: seq<byte>, data': seq<byte>, p: nat)
    requires NumSlots(data') == NumSlots(data) && p <= NumSlots(data)
    requires forall j | p <= j < NumSlots(data) :: Slot(data', j) == Slot(data, j)
    ensures NamesFrom(data', p) == NamesFrom(data, p)
    decreases NumSlots(data) - p
  {
    hide Slot, CString;
    if p < NumSlots(data) {
      NamesFromKept(data, data', p + 1);
    }
  }

  // ---------- saving and removing ----------

  /** An inode is determined by what it maps. */
  lemma SameInode(disk: seq<Sector>, disk': seq<Sector>, d: InodeDisk, d': InodeDisk, nodes: seq<nat>, data: seq<byte>, data': seq<byte>)
    requires Holds(disk, d, nodes, data) && Holds(disk', d', nodes, data') && |data'| == |data| && d'.isDir == d.isDir
    ensures d' == d
  {
    var n := BytesToSectors(|data|);
    hide Stores;
    assert d.direct == d'.direct by {
      forall i | 0 <= i < 123
        ensures d.direct[i] == d'.direct[i]
      {
      }
    }
    SubRoot(disk, 1, d.indirect, IndirectPart(nodes, n), Indirect(n));
    SubRoot(disk', 1, d'.indirect, IndirectPart(nodes, n), Indirect(n));
    SubRoot(disk, 2, d.doubly, DoublyPart(nodes, n), Doubly(n));
    SubRoot(disk', 2, d'.doubly, DoublyPart(nodes, n), Doubly(n));
  }

  lemma SubRoot(disk: seq<Sector>, level: nat, e: nat, nodes: seq<nat>, n: nat)
    requires 1 <= level <= 2 && Sub(disk, level, e, nodes, n)
    ensures e == if |nodes| == 0 then 0 else nodes[0]
  {
  }

  /** State of the first loop of defragment, its directory handle before slot `p`. */
  ghost predicate Saving(table0: map<nat, File>, table: map<nat, File>, files: seq<FileData>, p: nat, names: seq<seq<byte>>, free0: nat, free: nat) {
    && RootOk(table0) && RootOk(table) && BackedUp(files, names, Files(table0), Files(table))
    && var data0, data := table0[ROOT_DIR_SECTOR].data, table[ROOT_DIR_SECTOR].data;
    && NumSlots(data) == NumSlots(data0) && 1 <= p <= NumSlots(data)
    && |files| <= |names| && NamesFrom(data, p) == names[|files|..]
    && free == free0 + Total(files, |files|)
    && table[ROOT_DIR_SECTOR].nodes == table0[ROOT_DIR_SECTOR].nodes
  }

  lemma SavingInit(table: map<nat, File>, free: nat)
    requires RootOk(table)
    ensures Saving(table, table, [], 1, NamesFrom(table[ROOT_DIR_SECTOR].data, 1), free, free)
  {
    var data := table[ROOT_DIR_SECTOR].data;
    ListingComplete(data);
    hide NamesFrom, DirOk, Entries;
    assert NamesFrom(data, 1)[0..] == NamesFrom(data, 1);
  }

  /** The slot just freed is the one the handle has passed. */
  lemma ListingGoesOn(data: seq<byte>, i: nat, p: nat, name: seq<byte>)
    requires DirOk(data) && 1 <= p <= NumSlots(data) && Names(data, i, name) && Names(data, p - 1, name)
    ensures NumSlots(PutSlot(data, i, Slot(data, i).(inUse := false))) == NumSlots(data)
    ensures NamesFrom(PutSlot(data, i, Slot(data, i).(inUse := false)), p) == NamesFrom(data, p)
  {
    assert i == p - 1;
    SlotsAfterPut(data, i, Slot(data, i).(inUse := false));
    hide Slot, PutSlot, CString;
    NamesFromKept(data, PutSlot(data, i, Slot(data, i).(inUse := false)), p);
  }

  lemma RootInOrder(table: map<nat, File>)
    requires RootOk(table)
    ensures ROOT_DIR_SECTOR in table && DirOk(table[ROOT_DIR_SECTOR].data)
  {
  }

  /** One pass of the first loop. */
  lemma SavingStep(table0: map<nat, File>, table: map<nat, File>, table': map<nat, File>, files: seq<FileData>, name: seq<byte>,
                   p: nat, p': nat, i: nat, names: seq<seq<byte>>, free0: nat, free: nat)
    requires Saving(table0, table, files, p, names, free0, free)
    requires p <= p' <= NumSlots(table[ROOT_DIR_SECTOR].data)
    requires NamesFrom(table[ROOT_DIR_SECTOR].data, p) == [name] + NamesFrom(table[ROOT_DIR_SECTOR].data, p')
    requires Names(table[ROOT_DIR_SECTOR].data, p' - 1, name)
    requires RootOk(table') && Unlinked(table, table', name, i) && name in Files(table) && Files(table') == Files(table) - {name}
    ensures Saving(table0, table', files + [FileData(name, Files(table)[name])], p', names, free0,
                   free + 1 + FileCost(|Files(table)[name]|))
  {
    hide NamesFrom, DirOk, Entries, FileCost, NamesOk, PutSlot, Slot, Names, CString, Files, RootOk, BackedUp, Total;
    var k := |files|;
    RootInOrder(table);
    ListingGoesOn(table[ROOT_DIR_SECTOR].data, i, p', name);
    assert names[k..][0] == name && names[k..][1..] == names[k + 1..];
    TotalMore(files, FileData(name, Files(table)[name]));
    BackedUpMore(files, names, Files(table0), Files(table), name);
  }

  lemma {:induction false} TotalPrefix(files: seq<FileData>, f: FileData, k: nat)
    requires k <= |files|
    ensures Total(files + [f], k) == Total(files, k)
  {
    if k > 0 {
      TotalPrefix(files, f, k - 1);
    }
  }

  lemma TotalMore(files: seq<FileData>, f: FileData)
    ensures Total(files + [f], |files| + 1) == Total(files, |files|) + 1 + FileCost(|f.data|)
  {
    TotalPrefix(files, f, |files|);
  }

  /** One file of the first loop: found, read, closed and removed. */
  method SaveFile(v: Volume, name: seq<byte>) returns (data: seq<byte>, ghost i: nat)
    requires v.Valid() && PlainName(name) && name in Files(v.table)
    modifies v`table, v.fs.cache, v.fs.cache.device, v.fs.cache.slots, v.fs.freeMap.words, v.fs`mapBytes
    ensures v.Valid() && data == old(Files(v.table))[name]
    ensures Files(v.table) == old(Files(v.table)) - {name} && Unlinked(old(v.table), v.table, name, i)
    ensures |v.fs.FreeList()| == |old(v.fs.FreeList())| + 1 + FileCost(|data|)
    ensures v.Leaks() == old(v.Leaks())
  {
    hide Cache.Valid, Bitmap.Valid, Bitmap.Bits, Free, VolumeOk, Words, BitsOf, NamesOk, DirOk, Entries, Leaked, Clear, FileAt,
         FileSys.MapReady, InodeCost, BytesToSectors, PutSlot, Slot, Names, Files, RootOk;
    FilesAt(v.table, name);
    ghost var s := RootEntries(v.table)[name];
    FileThere(v.fs.Disk(), v.fs.Bits(), v.fs.mapNodes, v.fs.mapInode, v.table, s);
    var file := v.Open(name);
    FileMaps(v.fs.Disk(), file.sector, file.data, file.nodes, file.bytes);
    data := file.ReadAt(file.data.length, 0);
    var removed;
    removed, i := v.Remove(name);
  }

  lemma FileMaps(disk: seq<Sector>, s: nat, d: InodeDisk, nodes: seq<nat>, data: seq<byte>)
    requires FileAt(disk, s, d, nodes, data)
    ensures d.length == |data| && Maps(disk, d, nodes, BytesToSectors(d.length))
  {
  }

  /** The name a listing delivers next is that of a file still on the volume. */
  lemma NextName(table0: map<nat, File>, table: map<nat, File>, files: seq<FileData>, p: nat, names: seq<seq<byte>>, free0: nat, free: nat)
    requires Saving(table0, table, files, p, names, free0, free)
    ensures |NamesFrom(table[ROOT_DIR_SECTOR].data, p)| == |names| - |files|
    ensures |files| < |names| ==>
              && NamesFrom(table[ROOT_DIR_SECTOR].data, p)[0] in Files(table)
              && NamesFrom(table[ROOT_DIR_SECTOR].data, p)[0] in Files(table0)
  {
    hide NamesFrom, DirOk, Entries, FileCost, NamesOk, Files, RootOk, Total;
    if |files| < |names| {
      assert names[|files|..][0] in names[|files|..];
    }
  }

  /** One pass of the first loop of defragment. */
  method SaveNext(v: Volume, dir: Dir, files: seq<FileData>, ghost table0: map<nat, File>, ghost names: seq<seq<byte>>, ghost free0: nat)
    returns (more: bool, files': seq<FileData>, ghost p': nat)
    requires v.Valid() && v.IsRoot(dir) && dir.Ok() && dir.pos % 36 == 0
    requires Saving(table0, v.table, files, dir.pos / 36, names, free0, |v.fs.FreeList()|) && Movable(Files(table0))
    modifies dir`pos, dir.inode`bytes
    modifies v`table, v.fs.cache, v.fs.cache.device, v.fs.cache.slots, v.fs.freeMap.words, v.fs`mapBytes
    ensures v.Valid() && v.IsRoot(dir) && dir.Ok() && dir.pos % 36 == 0
    ensures Saving(table0, v.table, files', p', names, free0, |v.fs.FreeList()|)
    ensures |files'| <= |names|
    ensures if more then |files'| == |files| + 1 && p' == dir.pos / 36 else |files'| == |names|
    ensures v.Leaks() == old(v.Leaks())
  {
    hide Cache.Valid, Bitmap.Valid, Bitmap.Bits, Free, VolumeOk, Words, BitsOf, NamesOk, DirOk, Entries, Leaked, FileAt,
         FileSys.MapReady, FileSys.Wf, InodeCost, BytesToSectors, PutSlot, Slot, Names, Files, RootOk, NamesFrom, Total, BackedUp;
    ghost var table1, p := v.table, dir.pos / 36;
    SavingAt(table0, table1, files, p, names, free0, |v.fs.FreeList()|);
    NextName(table0, table1, files, p, names, free0, |v.fs.FreeList()|);
    ghost var free1 := |v.fs.FreeList()|;
    var name;
    more, name := NextOf(v, dir);
    if !more {
      return false, files, p;
    }
    var data;
    ghost var i;
    data, i := SaveWithHandle(v, dir, name);
    SavingStep(table0, table1, v.table, files, name, p, dir.pos / 36, i, names, free0, free1);
    p' := dir.pos / 36;
    files' := files + [FileData(name, data)];
  }

  lemma SavingAt(table0: map<nat, File>, table: map<nat, File>, files: seq<FileData>, p: nat, names: seq<seq<byte>>, free0: nat, free: nat)
    requires Saving(table0, table, files, p, names, free0, free)
    ensures ROOT_DIR_SECTOR in table && 1 <= p <= NumSlots(table[ROOT_DIR_SECTOR].data)
  {
  }

  /** dir_readdir on the root directory. */
  method NextOf(v: Volume, dir: Dir) returns (more: bool, name: seq<byte>)
    requires v.Valid() && v.IsRoot(dir) && dir.Ok() && dir.pos % 36 == 0 && 1 <= dir.pos / 36 <= NumSlots(v.table[ROOT_DIR_SECTOR].data)
    modifies dir`pos, v.fs.cache`clock, v.fs.cache.device, v.fs.cache.slots
    ensures v.Valid() && v.IsRoot(dir) && dir.Ok() && dir.pos % 36 == 0 && v.fs.FreeList() == old(v.fs.FreeList()) && v.Leaks() == old(v.Leaks())
    ensures old(dir.pos) / 36 <= dir.pos / 36 <= NumSlots(v.table[ROOT_DIR_SECTOR].data)
    ensures var data := v.table[ROOT_DIR_SECTOR].data;
            if more then NamesFrom(data, old(dir.pos) / 36) == [name] + NamesFrom(data, dir.pos / 36) && Names(data, dir.pos / 36 - 1, name)
            else NamesFrom(data, old(dir.pos) / 36) == []
  {
    hide Cache.Valid, Bitmap.Valid, Bitmap.Bits, Free, VolumeOk, Words, BitsOf, NamesOk, DirOk, Entries, FileAt, FileSys.MapReady,
         Files, RootOk, NamesFrom, Names, Leaked;
    RootInOrder(v.table);
    WholeSlots(dir.inode.bytes);
    assert dir !in v.fs.Repr();
    more, name := dir.ReadDir();
  }

  /** A file saved and removed while the directory is open. The model says what is intended: the removal overwrites
      one slot of the directory and leaves its inode as it was, so the handle reads on. In the code the removal opens
      and closes the root directory too; inode_reopen does not count that opener, so the inode that the listing
      still holds is freed (inode.c:161, directory.c:162). */
  method SaveWithHandle(v: Volume, dir: Dir, name: seq<byte>) returns (data: seq<byte>, ghost i: nat)
    requires v.Valid() && v.IsRoot(dir) && dir.Ok() && PlainName(name) && name in Files(v.table)
    modifies dir.inode`bytes
    modifies v`table, v.fs.cache, v.fs.cache.device, v.fs.cache.slots, v.fs.freeMap.words, v.fs`mapBytes
    ensures v.Valid() && v.IsRoot(dir) && dir.Ok() && data == old(Files(v.table))[name]
    ensures Files(v.table) == old(Files(v.table)) - {name} && Unlinked(old(v.table), v.table, name, i)
    ensures |v.fs.FreeList()| == |old(v.fs.FreeList())| + 1 + FileCost(|data|)
    ensures v.Leaks() == old(v.Leaks())
  {
    hide Cache.Valid, Bitmap.Valid, Bitmap.Bits, Free, VolumeOk, Words, BitsOf, NamesOk, DirOk, Entries, Leaked, FileAt,
         FileSys.MapReady, InodeCost, BytesToSectors, PutSlot, Slot, Names, Files, RootOk;
    ghost var table1, disk1 := v.table, v.fs.Disk();
    data, i := SaveFile(v, name);
    SharedHandle(disk1, v.fs.Disk(), v.fs.Bits(), v.fs.mapNodes, v.fs.mapInode, table1, v.table, name, i);
    FileThere(v.fs.Disk(), v.fs.Bits(), v.fs.mapNodes, v.fs.mapInode, v.table, ROOT_DIR_SECTOR);
    RootInOrder(v.table);
    assert dir.inode !in v.fs.Repr();
    dir.inode.bytes := v.table[ROOT_DIR_SECTOR].data;
  }

  /** Freeing a slot leaves the directory's inode as it was. */
  lemma SharedHandle(disk: seq<Sector>, disk': seq<Sector>, bits': seq<bool>, log: seq<nat>, map0: InodeDisk,
                     table: map<nat, File>, table': map<nat, File>, name: seq<byte>, i: nat)
    requires RootOk(table) && FileAt(disk, ROOT_DIR_SECTOR, table[ROOT_DIR_SECTOR].d, table[ROOT_DIR_SECTOR].nodes, table[ROOT_DIR_SECTOR].data)
    requires VolumeOk(disk', bits', log, map0, table') && Unlinked(table, table', name, i)
    ensures table'[ROOT_DIR_SECTOR].d == table[ROOT_DIR_SECTOR].d
  {
    var r, r' := table[ROOT_DIR_SECTOR], table'[ROOT_DIR_SECTOR];
    FileThere(disk', bits', log, map0, table', ROOT_DIR_SECTOR);
    RootInOrder(table);
    WholeSlots(r.data);
    hide DirOk, RootOk, Entries, VolumeOk, Free, DecodeInode;
    SlotsAfterPut(r.data, i, Slot(r.data, i).(inUse := false));
    hide PutSlot, Slot;
    assert |r'.data| == |r.data|;
    hide Maps, Stores;
    SameInode(disk, disk', r.d, r'.d, r.nodes, r.data, r'.data);
  }

  /** The first loop of defragment: everything is saved and removed. */
  method SaveAll(v: Volume) returns (files: seq<FileData>, ghost names: seq<seq<byte>>)
    requires v.Valid() && Movable(Files(v.table))
    modifies v`table, v.fs.cache, v.fs.cache.device, v.fs.cache.slots, v.fs.freeMap.words, v.fs`mapBytes
    ensures v.Valid() && Files(v.table) == map[] && v.table.Keys == {ROOT_DIR_SECTOR}
    ensures |files| == |names| && BackedUp(files, names, old(Files(v.table)), map[]) && names == NamesFrom(old(v.table)[ROOT_DIR_SECTOR].data, 1)
    ensures forall n :: n in old(Files(v.table)) <==> n in names
    ensures |v.fs.FreeList()| == |old(v.fs.FreeList())| + Total(files, |files|)
    ensures v.table[ROOT_DIR_SECTOR].nodes == old(v.table)[ROOT_DIR_SECTOR].nodes
    ensures |files| <= NumSlots(v.table[ROOT_DIR_SECTOR].data) - 1
    ensures v.Leaks() == old(v.Leaks())
  {
    hide Cache.Valid, Bitmap.Valid, Bitmap.Bits, Free, VolumeOk, Words, BitsOf, NamesOk, DirOk, Entries, Leaked, FileAt, Movable,
         FileSys.MapReady, Files, RootOk, NamesFrom, Total, BackedUp, Saving;
    ghost var table0, free0 := v.table, |v.fs.FreeList()|;
    RootInOrder(table0);
    WholeSlots(table0[ROOT_DIR_SECTOR].data);
    names := NamesFrom(table0[ROOT_DIR_SECTOR].data, 1);
    SavingInit(table0, free0);
    AllNames(table0);
    var dir := v.OpenRoot();
    files := [];
    var more := true;
    ghost var p := 1;
    while more
      invariant v.Valid() && v.IsRoot(dir) && dir.Ok() && dir.pos % 36 == 0
      invariant fresh(dir) && fresh(dir.inode)
      invariant Saving(table0, v.table, files, p, names, free0, |v.fs.FreeList()|)
      invariant if more then p == dir.pos / 36 else |files| == |names|
      invariant |files| <= |names|
      invariant v.Leaks() == old(v.Leaks())
      decreases |names| - |files|, more
    {
      NextName(table0, v.table, files, p, names, free0, |v.fs.FreeList()|);
      more, files, p := SaveNext(v, dir, files, table0, names, free0);
    }
    SavingDone(table0, v.table, files, p, names, free0, |v.fs.FreeList()|);
  }

  /** The listing of a fresh handle names exactly the volume's files, no more of them than free slots. */
  lemma AllNames(table: map<nat, File>)
    requires RootOk(table)
    ensures forall n :: n in Files(table) <==> n in NamesFrom(table[ROOT_DIR_SECTOR].data, 1)
    ensures |NamesFrom(table[ROOT_DIR_SECTOR].data, 1)| <= NumSlots(table[ROOT_DIR_SECTOR].data) - 1
  {
    var data := table[ROOT_DIR_SECTOR].data;
    ListingComplete(data);
    ListingSize(data, 1);
    hide NamesFrom, DirOk, Entries;
  }

  lemma {:induction false} ListingSize(data: seq<byte>, i: nat)
    requires i <= NumSlots(data)
    ensures |NamesFrom(data, i)| <= NumSlots(data) - i
    decreases NumSlots(data) - i
  {
    hide Slot, CString;
    if i < NumSlots(data) {
      ListingSize(data, i + 1);
    }
  }

  /** When the listing is at its end, no file is left. */
  lemma SavingDone(table0: map<nat, File>, table: map<nat, File>, files: seq<FileData>, p: nat, names: seq<seq<byte>>, free0: nat, free: nat)
    requires Saving(table0, table, files, p, names, free0, free) && |files| == |names|
    requires |names| <= NumSlots(table0[ROOT_DIR_SECTOR].data) - 1
    ensures RootOk(table) && Files(table) == map[] && table.Keys == {ROOT_DIR_SECTOR}
    ensures BackedUp(files, names, Files(table0), map[])
    ensures free == free0 + Total(files, |files|) && table[ROOT_DIR_SECTOR].nodes == table0[ROOT_DIR_SECTOR].nodes
    ensures |files| <= NumSlots(table[ROOT_DIR_SECTOR].data) - 1
  {
    hide NamesFrom, DirOk, Entries, Total, NumSlots;
    assert names[|files|..] == [];
    assert Files(table) == map[];
    NoFiles(table);
  }

  lemma NoFiles(table: map<nat, File>)
    requires RootOk(table) && Files(table) == map[]
    ensures table.Keys == {ROOT_DIR_SECTOR}
  {
    hide DirOk, Entries;
    assert forall n | n in RootEntries(table) :: n in Files(table);
    assert RootEntries(table) == map[];
  }

  // ---------- creating the files anew ----------

  /** The sectors of the file with a given name. */
  ghost function OwnOf(table: map<nat, File>, name: seq<byte>): seq<nat>
    requires ROOT_DIR_SECTOR in table && name in RootEntries(table) && RootEntries(table)[name] in table
  {
    Own(RootEntries(table)[name], table[RootEntries(table)[name]])
  }

  /** A saved file is back, in the lowest free sectors; the other files are as they were. */
  ghost predicate PutBack(table: map<nat, File>, table': map<nat, File>, f: FileData, free: seq<nat>, free': seq<nat>)
    requires ROOT_DIR_SECTOR in table
  {
    && ROOT_DIR_SECTOR in table' && f.name in RootEntries(table')
    && var s := RootEntries(table')[f.name];
    && s !in table && s in table' && 1 + FileCost(|f.data|) <= |free|
    && Own(s, table'[s]) == free[..1 + FileCost(|f.data|)] && free' == free[1 + FileCost(|f.data|)..]
    && RootEntries(table') == RootEntries(table)[f.name := s]
    && (forall t | t in table && t != ROOT_DIR_SECTOR :: t in table' && table'[t] == table[t])
    && NumSlots(table'[ROOT_DIR_SECTOR].data) == NumSlots(table[ROOT_DIR_SECTOR].data)
    && table'[ROOT_DIR_SECTOR].nodes == table[ROOT_DIR_SECTOR].nodes
  }

  lemma PlacedIsPutBack(table0: map<nat, File>, table1: map<nat, File>, table2: map<nat, File>, f: FileData,
                        free0: seq<nat>, free1: seq<nat>, free2: seq<nat>)
    requires ROOT_DIR_SECTOR in table0 && DirGrowth(table0[ROOT_DIR_SECTOR].data) == 0
    requires FirstUnused(table0[ROOT_DIR_SECTOR].data, 0) < NumSlots(table0[ROOT_DIR_SECTOR].data)
    requires Placed(table0, table1, f.name, |f.data|, free0, free1)
    requires GrewBy(table1, table2, f.name, |f.data|, free1, free2) && |table1[RootEntries(table1)[f.name]].data| == |f.data|
    ensures PutBack(table0, table2, f, free0, free2)
  {
    hide Entries, DirGrowth, FileCost, Growth, FirstUnused, NumSlots;
    GrowthBetween(|f.data|, |f.data|);
    var s := RootEntries(table1)[f.name];
    assert table2[s].nodes == table1[s].nodes + free1[..0] == table1[s].nodes;
    assert free1[0..] == free1;
  }

  /** One file of the second loop: fsutil_create, then fsutil_write from its start. */
  method PutFileBack(v: Volume, f: FileData) returns (code: int)
    requires v.Valid() && PlainName(f.name) && 0 < |f.name| < NAME_MAX && f.name !in Files(v.table)
    requires 0 < |f.data| <= SECTOR_SIZE * MAX_SECTORS && 1 + FileCost(|f.data|) <= |v.fs.FreeList()|
    requires |RootEntries(v.table)| < NumSlots(v.table[ROOT_DIR_SECTOR].data) - 1
    modifies v`table, v.fs.cache, v.fs.cache.device, v.fs.cache.slots, v.fs.freeMap.words, v.fs`mapBytes
    ensures v.Valid() && code == 0
    ensures Files(v.table) == old(Files(v.table))[f.name := Terminated(f.data)]
    ensures PutBack(old(v.table), v.table, f, old(v.fs.FreeList()), v.fs.FreeList())
    ensures v.Leaks() == old(v.Leaks())
  {
    hide Cache.Valid, Bitmap.Valid, Bitmap.Bits, Free, VolumeOk, Words, BitsOf, NamesOk, DirOk, Entries, Leaked, FileAt, GrewBy, Placed,
         PutBack, FileSys.MapReady, FileSys.Wf, Files, RootOk, InodeCost, BytesToSectors, DirGrowth, RoomForEntry, Growth, Splice;
    ghost var table0, free0, files0 := v.table, v.fs.FreeList(), Files(v.table);
    RootInOrder(table0);
    ghost var root := table0[ROOT_DIR_SECTOR];
    EntryGrowth(root.data);
    FullDirectory(root.data);
    FileThere(v.fs.Disk(), v.fs.Bits(), v.fs.mapNodes, v.fs.mapInode, table0, ROOT_DIR_SECTOR);
    RoomForOneMore(root.data);
    var created := v.Create(f.name, |f.data|);
    if !created {
      return 9;
    }
    ghost var table1, free1 := v.table, v.fs.FreeList();
    FilesAt(table1, f.name);
    GrowthBetween(|f.data|, |f.data|);
    var written := v.Write(f.name, f.data, 0);
    if written == -1 {
      return 11;
    }
    SpliceAll(Zeros(|f.data|), Terminated(f.data));
    PlacedIsPutBack(table0, table1, v.table, f, free0, free1, v.fs.FreeList());
    code := 0;
  }

  lemma RoomForOneMore(data: seq<byte>)
    requires DirOk(data) && |Entries(data)| < NumSlots(data) - 1 && |data| <= SECTOR_SIZE * MAX_SECTORS
    ensures RoomForEntry(data)
  {
    hide DirOk, Entries, FirstUnused, DirGrowth;
    EntryGrowth(data);
  }

  /** After `k` passes of the second loop: those files are back, in order, in stretches of the free list
      from before it. */
  ghost predicate Restored(table: map<nat, File>, files: seq<FileData>, k: nat, free1: seq<nat>, free: seq<nat>) {
    && RootOk(table) && k <= |files| && Total(files, k) <= |free1| && free == free1[Total(files, k)..]
    && |RootEntries(table)| == k
    && (forall n :: n in Files(table) ==> exists j :: 0 <= j < k && files[j].name == n)
    && (forall j | 0 <= j < k :: Back(table, files, j, free1))
  }

  ghost predicate Back(table: map<nat, File>, files: seq<FileData>, j: nat, free1: seq<nat>)
    requires RootOk(table) && j < |files|
  {
    && files[j].name in Files(table) && |files[j].data| > 0
    && Files(table)[files[j].name] == Terminated(files[j].data)
    && Total(files, j + 1) <= |free1|
    && files[j].name in RootEntries(table) && RootEntries(table)[files[j].name] in table
    && OwnOf(table, files[j].name) == free1[Total(files, j)..Total(files, j + 1)]
  }

  lemma RestoredInit(table: map<nat, File>, files: seq<FileData>, free: seq<nat>)
    requires RootOk(table) && Files(table) == map[] && Total(files, |files|) <= |free|
    ensures Restored(table, files, 0, free, free)
  {
    hide DirOk, Entries, NamesOk;
    assert free[0..] == free;
    assert forall n | n in RootEntries(table) :: n in Files(table);
    assert RootEntries(table) == map[];
  }

  /** The files put back earlier stay where they are. */
  lemma BackStays(table: map<nat, File>, table': map<nat, File>, files: seq<FileData>, j: nat, f: FileData, free1: seq<nat>,
                  free: seq<nat>, free': seq<nat>)
    requires RootOk(table) && RootOk(table') && j < |files| && Back(table, files, j, free1) && files[j].name != f.name
    requires PutBack(table, table', f, free, free') && f.name !in Files(table)
    requires |f.data| > 0 && Files(table') == Files(table)[f.name := Terminated(f.data)]
    ensures Back(table', files, j, free1)
  {
    var s := RootEntries(table)[files[j].name];
    NamedFile(table, files[j].name);
    hide Entries, DirOk, NamesOk, RootOk, Total, FileCost, Files;
    assert RootEntries(table')[files[j].name] == s;
    assert table'[s] == table[s];
  }

  lemma RestoredStep(table: map<nat, File>, table': map<nat, File>, files: seq<FileData>, k: nat, free1: seq<nat>,
                     free: seq<nat>, free': seq<nat>)
    requires Restored(table, files, k, free1, free) && k < |files| && RootOk(table')
    requires forall j | 0 <= j < k :: files[j].name != files[k].name
    requires PutBack(table, table', files[k], free, free') && files[k].name !in Files(table)
    requires |files[k].data| > 0 && Files(table') == Files(table)[files[k].name := Terminated(files[k].data)]
    ensures Restored(table', files, k + 1, free1, free')
  {
    hide Back, Entries, DirOk, NamesOk, RootOk, FileCost, Files, PutBack, Total;
    forall j | 0 <= j < k
      ensures Back(table', files, j, free1)
    {
      BackStays(table, table', files, j, files[k], free1, free, free');
    }
    FileBack(table, table', files, k, free1, free, free');
    forall n | n in Files(table')
      ensures exists j :: 0 <= j < k + 1 && files[j].name == n
    {
      if n == files[k].name {
        assert files[k].name == n;
      } else {
        assert n in Files(table);
      }
    }
  }

  /** The file just put back is in the stretch that follows the earlier ones. */
  lemma FileBack(table: map<nat, File>, table': map<nat, File>, files: seq<FileData>, k: nat, free1: seq<nat>,
                 free: seq<nat>, free': seq<nat>)
    requires RootOk(table) && RootOk(table') && k < |files| && Total(files, k) <= |free1| && free == free1[Total(files, k)..]
    requires PutBack(table, table', files[k], free, free') && files[k].name !in Files(table)
    requires |files[k].data| > 0 && Files(table') == Files(table)[files[k].name := Terminated(files[k].data)]
    ensures Back(table', files, k, free1)
    ensures Total(files, k + 1) <= |free1| && free' == free1[Total(files, k + 1)..]
    ensures |RootEntries(table')| == |RootEntries(table)| + 1
  {
    hide Entries, DirOk, NamesOk, RootOk, FileCost, Files;
    FilesAt(table, files[k].name);
    FilesAt(table', files[k].name);
    var t, c := Total(files, k), 1 + FileCost(|files[k].data|);
    assert Total(files, k + 1) == t + c;
    hide Total;
    StretchOfRest(free1, t, c);
  }

  lemma StretchOfRest(free: seq<nat>, t: nat, c: nat)
    requires t <= |free|
    ensures c <= |free[t..]| ==> t + c <= |free| && free[t..][..c] == free[t..t + c] && free[t..][c..] == free[t + c..]
  {
  }

  /** The second loop of defragment. */
  method PutAllBack(v: Volume, files: seq<FileData>, ghost names: seq<seq<byte>>, ghost files0: map<seq<byte>, seq<byte>>) returns (code: int)
    requires v.Valid() && Files(v.table) == map[] && Movable(files0)
    requires |files| == |names| && BackedUp(files, names, files0, map[])
    requires forall n | n in files0 :: ValidName(n) && |files0[n]| <= SECTOR_SIZE * MAX_SECTORS
    requires Total(files, |files|) <= |v.fs.FreeList()| && |files| <= NumSlots(v.table[ROOT_DIR_SECTOR].data) - 1
    modifies v`table, v.fs.cache, v.fs.cache.device, v.fs.cache.slots, v.fs.freeMap.words, v.fs`mapBytes
    ensures v.Valid() && code == 0
    ensures Restored(v.table, files, |files|, old(v.fs.FreeList()), v.fs.FreeList())
    ensures v.table[ROOT_DIR_SECTOR].nodes == old(v.table)[ROOT_DIR_SECTOR].nodes
    ensures v.Leaks() == old(v.Leaks())
  {
    hide Cache.Valid, Bitmap.Valid, Bitmap.Bits, Free, VolumeOk, Words, BitsOf, NamesOk, DirOk, Entries, Leaked, FileAt, PutBack,
         FileSys.MapReady, Files, RootOk, InodeCost, BytesToSectors, Total, BackedUp, Movable, Restored;
    RootInOrder(v.table);
    ghost var free1, slots := v.fs.FreeList(), NumSlots(v.table[ROOT_DIR_SECTOR].data);
    RestoredInit(v.table, files, free1);
    var x := 0;
    while x < |files|
      invariant x <= |files| && v.Valid()
      invariant Restored(v.table, files, x, free1, v.fs.FreeList())
      invariant ROOT_DIR_SECTOR in v.table && |files| <= slots - 1 && slots == NumSlots(v.table[ROOT_DIR_SECTOR].data)
      invariant v.table[ROOT_DIR_SECTOR].nodes == old(v.table)[ROOT_DIR_SECTOR].nodes
      invariant v.Leaks() == old(v.Leaks())
    {
      ghost var table, free := v.table, v.fs.FreeList();
      NextFile(table, files, x, names, files0, free1, free);
      code := PutFileBack(v, files[x]);
      if code != 0 {
        return;
      }
      PutBackSlots(table, v.table, files[x], free, v.fs.FreeList());
      RestoredStep(table, v.table, files, x, free1, free, v.fs.FreeList());
      x := x + 1;
    }
    code := 0;
  }

  lemma PutBackSlots(table: map<nat, File>, table': map<nat, File>, f: FileData, free: seq<nat>, free': seq<nat>)
    requires RootOk(table) && PutBack(table, table', f, free, free')
    ensures ROOT_DIR_SECTOR in table && ROOT_DIR_SECTOR in table'
    ensures NumSlots(table[ROOT_DIR_SECTOR].data) == NumSlots(table'[ROOT_DIR_SECTOR].data)
    ensures table'[ROOT_DIR_SECTOR].nodes == table[ROOT_DIR_SECTOR].nodes
  {
    RootInOrder(table);
    hide Entries, FileCost, RootOk, DirOk;
  }

  /** The next file can be put back: its name is free, and so are sectors and a slot for it. */
  lemma NextFile(table: map<nat, File>, files: seq<FileData>, x: nat, names: seq<seq<byte>>, files0: map<seq<byte>, seq<byte>>,
                 free1: seq<nat>, free: seq<nat>)
    requires Restored(table, files, x, free1, free) && x < |files| == |names| && BackedUp(files, names, files0, map[]) && Movable(files0)
    requires forall n | n in files0 :: ValidName(n) && |files0[n]| <= SECTOR_SIZE * MAX_SECTORS
    requires Total(files, |files|) <= |free1|
    ensures PlainName(files[x].name) && 0 < |files[x].name| < NAME_MAX && files[x].name !in Files(table)
    ensures 0 < |files[x].data| <= SECTOR_SIZE * MAX_SECTORS && 1 + FileCost(|files[x].data|) <= |free|
    ensures |RootEntries(table)| == x
    ensures forall j | 0 <= j < x :: files[j].name != files[x].name
  {
    hide Entries, DirOk, NamesOk, FileCost, Back, Files;
    TotalMonotone(files, x + 1, |files|);
    assert files[x] == FileData(names[x], files0[names[x]]);
    forall j | 0 <= j < x
      ensures files[j].name != files[x].name
    {
      assert files[j].name == names[j];
    }
  }

  lemma {:induction false} TotalMonotone(files: seq<FileData>, a: nat, b: nat)
    requires a <= b <= |files|
    ensures Total(files, a) <= Total(files, b)
  {
    if a < b {
      TotalMonotone(files, a, b - 1);
    }
  }

  // ---------- the whole of defragment ----------

  /** Each file's bytes with the last one NUL. */
  ghost predicate AllTerminated(files0: map<seq<byte>, seq<byte>>, files: map<seq<byte>, seq<byte>>) {
    && files.Keys == files0.Keys
    && forall n | n in files0 :: |files0[n]| > 0 && files[n] == Terminated(files0[n])
  }

  /** A defragmented volume holds the same bytes exactly if every file's last byte was NUL before. */
  lemma SameIffTerminated(files0: map<seq<byte>, seq<byte>>, files: map<seq<byte>, seq<byte>>)
    requires AllTerminated(files0, files)
    ensures files == files0 <==> forall n | n in files0 :: files0[n][|files0[n]| - 1] == 0
  {
    if forall n | n in files0 :: files0[n][|files0[n]| - 1] == 0 {
      forall n | n in files0
        ensures files[n] == files0[n]
      {
        assert files0[n][|files0[n]| - 1] == 0;
      }
      assert files == files0;
    }
    if files == files0 {
      forall n | n in files0
        ensures files0[n][|files0[n]| - 1] == 0
      {
        assert Terminated(files0[n])[|files0[n]| - 1] == 0;
      }
    }
  }

  /** A file of one byte that is not NUL comes back changed. */
  lemma OneByteLost(name: seq<byte>, files: map<seq<byte>, seq<byte>>)
    requires AllTerminated(map[name := [65]], files)
    ensures files == map[name := [0]]
  {
    assert Terminated([65]) == [0];
    assert name in map[name := [65]];
  }

  /** Sectors in a row. */
  ghost predicate Consecutive(own: seq<nat>) {
    forall i {:trigger own[i]} | 0 <= i < |own| :: own[i] == own[0] + i
  }

  /** Every file's sectors, its inode's first, are in a row. */
  ghost predicate AllConsecutive(table: map<nat, File>) {
    && RootOk(table)
    && forall n | n in RootEntries(table) :: RootEntries(table)[n] in table && Consecutive(OwnOf(table, n))
  }

  ghost predicate AllBelow(a: seq<nat>, b: seq<nat>) {
    forall x, y | x in a && y in b :: x < y
  }

  /** The files lie on the device in the order of the names. */
  ghost predicate InOrder(table: map<nat, File>, names: seq<seq<byte>>) {
    && ROOT_DIR_SECTOR in table
    && (forall j | 0 <= j < |names| :: names[j] in RootEntries(table) && RootEntries(table)[names[j]] in table)
    && forall i, j | 0 <= i < j < |names| :: AllBelow(OwnOf(table, names[i]), OwnOf(table, names[j]))
  }

  lemma StretchesBelow(free: seq<nat>, a: nat, b: nat, c: nat, d: nat)
    requires Increasing(free) && a <= b <= c <= d <= |free|
    ensures AllBelow(free[a..b], free[c..d])
  {
  }

  lemma BackAt(table: map<nat, File>, files: seq<FileData>, j: nat, free1: seq<nat>, free: seq<nat>)
    requires Restored(table, files, |files|, free1, free) && j < |files|
    ensures RootOk(table) && files[j].name in RootEntries(table) && RootEntries(table)[files[j].name] in table
    ensures Total(files, j) <= Total(files, j + 1) <= |free1|
    ensures OwnOf(table, files[j].name) == free1[Total(files, j)..Total(files, j + 1)]
  {
    assert Back(table, files, j, free1);
    TotalMonotone(files, j, j + 1);
  }

  lemma PairInOrder(table: map<nat, File>, files: seq<FileData>, i: nat, j: nat, free1: seq<nat>, free: seq<nat>)
    requires Restored(table, files, |files|, free1, free) && Increasing(free1) && i < j < |files|
    ensures ROOT_DIR_SECTOR in table
    ensures files[i].name in RootEntries(table) && RootEntries(table)[files[i].name] in table
    ensures files[j].name in RootEntries(table) && RootEntries(table)[files[j].name] in table
    ensures AllBelow(OwnOf(table, files[i].name), OwnOf(table, files[j].name))
  {
    hide Restored, Increasing, AllBelow, Total, OwnOf, RootEntries;
    BackAt(table, files, i, free1, free);
    BackAt(table, files, j, free1, free);
    TotalMonotone(files, i + 1, j);
    StretchesBelow(free1, Total(files, i), Total(files, i + 1), Total(files, j), Total(files, j + 1));
  }

  lemma RestoredInOrder(table: map<nat, File>, files: seq<FileData>, names: seq<seq<byte>>, files0: map<seq<byte>, seq<byte>>,
                        free1: seq<nat>, free: seq<nat>)
    requires Restored(table, files, |files|, free1, free) && Increasing(free1)
    requires |files| == |names| && BackedUp(files, names, files0, map[])
    ensures InOrder(table, names)
  {
    assert forall j | 0 <= j < |names| :: names[j] == files[j].name;
    RestoredRoot(table, files, free1, free);
    hide BackedUp, Restored, Increasing, AllBelow, OwnOf, RootEntries;
    forall j | 0 <= j < |names|
      ensures names[j] in RootEntries(table) && RootEntries(table)[names[j]] in table
    {
      BackAt(table, files, j, free1, free);
    }
    forall i, j | 0 <= i < j < |names|
      ensures AllBelow(OwnOf(table, names[i]), OwnOf(table, names[j]))
    {
      PairInOrder(table, files, i, j, free1, free);
    }
  }

  lemma RestoredRoot(table: map<nat, File>, files: seq<FileData>, free1: seq<nat>, free: seq<nat>)
    requires Restored(table, files, |files|, free1, free)
    ensures ROOT_DIR_SECTOR in table
  {
  }

  /** defragment: succeeds and keeps every file's name, length and bytes, but for each last byte, which
      becomes NUL. The number of free sectors is what it was. If nothing leaks and the free map and the root
      directory come first on the device, every file's sectors end up in a row. */
  method Defragment(v: Volume) returns (code: int)
    requires v.Valid() && Movable(Files(v.table))
    modifies v`table, v.fs.cache, v.fs.cache.device, v.fs.cache.slots, v.fs.freeMap.words, v.fs`mapBytes
    ensures v.Valid() && code == 0
    ensures AllTerminated(old(Files(v.table)), Files(v.table))
    ensures |v.fs.FreeList()| == |old(v.fs.FreeList())|
    ensures v.Leaks() == old(v.Leaks())
    ensures v.table[ROOT_DIR_SECTOR].nodes == old(v.table)[ROOT_DIR_SECTOR].nodes
    ensures forall m :: old(v.Leaks()) == {} && SystemPrefix(v.fs.mapNodes, old(v.table[ROOT_DIR_SECTOR].nodes), m) ==> AllConsecutive(v.table)
    ensures InOrder(v.table, NamesFrom(old(v.table)[ROOT_DIR_SECTOR].data, 1))
  {
    hide Cache.Valid, Bitmap.Valid, Bitmap.Bits, Free, VolumeOk, Words, BitsOf, NamesOk, DirOk, Entries, Leaked, FileAt, SystemPrefix,
         FileSys.MapReady, Files, RootOk, InodeCost, BytesToSectors, Total, BackedUp, Movable, Restored, AllTerminated, AllConsecutive,
         InOrder, Increasing, NamesFrom;
    ghost var files0, table0 := Files(v.table), v.table;
    FileSizes(v.fs.Disk(), v.fs.Bits(), v.fs.mapNodes, v.fs.mapInode, table0);
    RootInOrder(table0);
    var files;
    ghost var names;
    files, names := SaveAll(v);
    ghost var table1, bits1, free1 := v.table, v.fs.Bits(), v.fs.FreeList();
    ghost var disk1 := v.fs.Disk();
    code := PutAllBack(v, files, names, files0);
    AllBack(v.table, files, names, files0, free1, v.fs.FreeList());
    FreeMembers(bits1);
    RestoredInOrder(v.table, files, names, files0, free1, v.fs.FreeList());
    forall m | old(v.Leaks()) == {} && SystemPrefix(v.fs.mapNodes, table0[ROOT_DIR_SECTOR].nodes, m)
      ensures AllConsecutive(v.table)
    {
      OneFreeRun(disk1, bits1, v.fs.mapNodes, v.fs.mapInode, table1, m);
      AllInARow(v.table, files, free1, v.fs.FreeList(), m);
    }
  }

  lemma FileSizes(disk: seq<Sector>, bits: seq<bool>, log: seq<nat>, map0: InodeDisk, table: map<nat, File>)
    requires VolumeOk(disk, bits, log, map0, table) && RootOk(table)
    ensures forall n | n in Files(table) :: ValidName(n) && |Files(table)[n]| <= SECTOR_SIZE * MAX_SECTORS
  {
    hide VolumeOk, FileAt, Free;
    forall n | n in Files(table)
      ensures ValidName(n) && |Files(table)[n]| <= SECTOR_SIZE * MAX_SECTORS
    {
      FilesAt(table, n);
      EntriesAre(table[ROOT_DIR_SECTOR].data, n);
      FileThere(disk, bits, log, map0, table, RootEntries(table)[n]);
    }
  }

  /** With every file back, the volume's files are the saved ones. */
  lemma AllBack(table: map<nat, File>, files: seq<FileData>, names: seq<seq<byte>>, files0: map<seq<byte>, seq<byte>>,
                free1: seq<nat>, free: seq<nat>)
    requires Restored(table, files, |files|, free1, free)
    requires |files| == |names| && BackedUp(files, names, files0, map[]) && forall n :: n in files0 <==> n in names
    ensures AllTerminated(files0, Files(table))
    ensures |free| == |free1| - Total(files, |files|)
  {
    hide Entries, DirOk, NamesOk, RootOk, FileCost, Files, Total;
    forall n | n in files0
      ensures n in Files(table) && |files0[n]| > 0 && Files(table)[n] == Terminated(files0[n])
    {
      var j :| 0 <= j < |names| && names[j] == n;
      assert Back(table, files, j, free1);
    }
    forall n | n in Files(table)
      ensures n in files0
    {
      var j :| 0 <= j < |files| && files[j].name == n;
      assert names[j] == n;
    }
  }

  /** When only the system's sectors are in use and they come first, the free sectors are in a row. */
  lemma OneFreeRun(disk: seq<Sector>, bits: seq<bool>, log: seq<nat>, map0: InodeDisk, table: map<nat, File>, m: nat)
    requires VolumeOk(disk, bits, log, map0, table) && table.Keys == {ROOT_DIR_SECTOR} && Leaked(bits, log, table) == {}
    requires SystemPrefix(log, table[ROOT_DIR_SECTOR].nodes, m)
    ensures forall i | 0 <= i < |Free(bits)| :: Free(bits)[i] == m + i
  {
    hide DecodeInode, FileAt, Free;
    var r := table[ROOT_DIR_SECTOR];
    assert FileOk(disk, bits, log, ROOT_DIR_SECTOR, r);
    OwnParts(ROOT_DIR_SECTOR, r, bits);
    forall x: nat | x < |bits|
      ensures bits[x] <==> x < m
    {
      if bits[x] {
        assert x !in Leaked(bits, log, table);
      } else {
        NotMarked(bits, log, x);
        NotMarked(bits, r.nodes, x);
      }
    }
    SystemWithin(bits, log, r.nodes, m);
    FreeSuffix(bits, m);
  }

  lemma SystemWithin(bits: seq<bool>, log: seq<nat>, root: seq<nat>, m: nat)
    requires Marked(bits, log) && Marked(bits, root) && |bits| >= 2 && SystemPrefix(log, root, m)
    ensures m <= |bits|
  {
    assert |bits| !in log && |bits| !in root;
    assert !(|bits| < m);
  }

  /** Stretches of a run of free sectors are runs. */
  lemma AllInARow(table: map<nat, File>, files: seq<FileData>, free1: seq<nat>, free: seq<nat>, m: nat)
    requires Restored(table, files, |files|, free1, free)
    requires forall i | 0 <= i < |free1| :: free1[i] == m + i
    ensures AllConsecutive(table)
  {
    hide Entries, DirOk, FileCost, Total, NamesOk, Files;
    forall n | n in RootEntries(table)
      ensures RootEntries(table)[n] in table && Consecutive(OwnOf(table, n))
    {
      FilesAt(table, n);
      var j :| 0 <= j < |files| && files[j].name == n;
      assert Back(table, files, j, free1);
      TotalMonotone(files, j, j + 1);
      RunOfRun(free1, m, Total(files, j), Total(files, j + 1));
    }
  }

  lemma RunOfRun(free: seq<nat>, m: nat, a: nat, b: nat)
    requires a <= b <= |free| && forall i | 0 <= i < |free| :: free[i] == m + i
    ensures Consecutive(free[a..b])
  {
  }

  // ---------- how fragmented a file is ----------

  /** fragmentation_degree calls a file fragmentable if it fills more than one sector, and fragmented if two
      neighbouring full sectors are more than three apart, the later one higher. */
  predicate Fragmentable(f: File) {
    |f.data| / SECTOR_SIZE > 1
  }

  /** Data sector `q` starts more than three sectors after the one before it. */
  predicate Jump(f: File, q: nat)
    requires |f.nodes| == FileCost(|f.data|) && 1 <= q < BytesToSectors(|f.data|)
  {
    DataSector(f.nodes, BytesToSectors(|f.data|), q) - DataSector(f.nodes, BytesToSectors(|f.data|), q - 1) > 3
  }

  ghost predicate Fragmented(f: File) {
    |f.nodes| == FileCost(|f.data|) && exists q {:trigger Jump(f, q)} :: 1 <= q < |f.data| / SECTOR_SIZE && q < BytesToSectors(|f.data|) && Jump(f, q)
  }

  /** Point lookup finds data sector `q` more than three sectors after the one before it. */
  ghost predicate Gap(disk: seq<Sector>, d: InodeDisk, q: nat) {
    && 1 <= q && Findable(disk, d, q - 1) && Findable(disk, d, q)
    && Lookup(disk, d, q) > Lookup(disk, d, q - 1) + 3
  }

  /** There is such a gap between two neighbouring full sectors of a file of `length` bytes. */
  ghost predicate HasGap(disk: seq<Sector>, d: InodeDisk, length: nat) {
    exists q: nat :: 1 <= q && 512 * (q + 1) <= length && Gap(disk, d, q)
  }

  /** Being fragmented is visible on the disk. */
  lemma FragmentedIsGap(disk: seq<Sector>, f: File)
    requires Holds(disk, f.d, f.nodes, f.data)
    ensures Fragmented(f) <==> HasGap(disk, f.d, |f.data|)
  {
    hide Maps, Stores, InodeCost, DataSector, Lookup, Findable;
    var n := BytesToSectors(|f.data|);
    forall q: nat | 1 <= q && 512 * (q + 1) <= |f.data|
      ensures q < n && |f.nodes| == InodeCost(n) && (Jump(f, q) <==> Gap(disk, f.d, q))
    {
      FoundAt(disk, f.d, f.nodes, n, q - 1);
      FoundAt(disk, f.d, f.nodes, n, q);
    }
    hide Jump, Gap;
    if Fragmented(f) {
      var q :| 1 <= q < |f.data| / SECTOR_SIZE && q < n && Jump(f, q);
      assert Gap(disk, f.d, q);
    }
    if HasGap(disk, f.d, |f.data|) {
      var q: nat :| 1 <= q && 512 * (q + 1) <= |f.data| && Gap(disk, f.d, q);
      assert Jump(f, q);
    }
  }

  /** A file of three full sectors is fragmented exactly if the second or the third is too far up. */
  lemma ThreeSectors(disk: seq<Sector>, d: InodeDisk)
    requires |d.direct| == 123
    ensures HasGap(disk, d, 1536) <==> d.direct[1] > d.direct[0] + 3 || d.direct[2] > d.direct[1] + 3
    ensures d.direct[..3] == [10, 20, 30] ==> HasGap(disk, d, 1536)
    ensures d.direct[..3] == [10, 13, 5] ==> !HasGap(disk, d, 1536)
  {
    assert Gap(disk, d, 1) <==> d.direct[1] > d.direct[0] + 3;
    assert Gap(disk, d, 2) <==> d.direct[2] > d.direct[1] + 3;
    assert forall i | 0 <= i < 3 :: d.direct[..3][i] == d.direct[i];
  }

  /** A file whose sectors are in a row is not fragmented: index blocks make gaps of at most three. */
  lemma InARowNotFragmented(s: nat, f: File)
    requires Consecutive(Own(s, f))
    ensures !Fragmented(f)
  {
    if |f.nodes| == FileCost(|f.data|) {
      hide InodeCost, BytesToSectors, Consecutive, Own;
      forall q {:trigger Jump(f, q)} | 1 <= q < BytesToSectors(|f.data|)
        ensures !Jump(f, q)
      {
        NoJump(s, f, BytesToSectors(|f.data|), q);
      }
    }
  }

  lemma NoJump(s: nat, f: File, n: nat, q: nat)
    requires Consecutive(Own(s, f)) && |f.nodes| == InodeCost(n) && 1 <= q < n
    ensures 1 <= DataSector(f.nodes, n, q) - DataSector(f.nodes, n, q - 1) <= 3
  {
    DataPosGap(q - 1);
    DataPosition(q - 1, n);
    DataPosition(q, n);
    hide DataPos, InodeCost;
    var own := Own(s, f);
    assert own[1 + DataPos(q)] == f.nodes[DataPos(q)] && own[1 + DataPos(q - 1)] == f.nodes[DataPos(q - 1)];
  }

  /** The test of fragmentation_degree on one file's sectors. */
  method IsFragmented(totalBlocks: nat, sectors: array<nat>, ghost f: File) returns (fragmented: bool)
    requires |f.nodes| == FileCost(|f.data|) && totalBlocks == |f.data| / SECTOR_SIZE && totalBlocks > 1
    requires sectors.Length == BytesToSectors(|f.data|) && Listed(sectors[..], f.nodes, sectors.Length, sectors.Length)
    ensures fragmented <==> Fragmented(f)
  {
    hide InodeCost, DataSector;
    BlocksFit(|f.data|);
    assert forall q {:trigger sectors[q]} | 0 <= q < sectors.Length :: sectors[..][q] == sectors[q];
    var previousSector: int := sectors[0];
    var i := 1;
    while i < totalBlocks
      invariant 1 <= i <= totalBlocks && previousSector == sectors[i - 1]
      invariant forall q {:trigger Jump(f, q)} | 1 <= q < i :: !Jump(f, q)
    {
      var currentSector: int := sectors[i];
      if currentSector - previousSector > 3 {
        assert Jump(f, i);
        return true;
      }
      previousSector := currentSector;
      i := i + 1;
    }
    return false;
  }

  lemma BlocksFit(length: nat)
    ensures length / SECTOR_SIZE <= BytesToSectors(length)
  {
  }

  ghost function FileNamed(table: map<nat, File>, name: seq<byte>): File
    requires RootOk(table) && name in Files(table)
  {
    FilesAt(table, name);
    table[RootEntries(table)[name]]
  }

  /** A listing of all the files, each once. */
  ghost predicate ListsAll(table: map<nat, File>, names: seq<seq<byte>>) {
    && RootOk(table) && AllDifferent(names)
    && (forall i | 0 <= i < |names| :: names[i] in Files(table))
    && (forall n | n in Files(table) :: n in names)
  }

  /** How many of the first `k` named files satisfy each test. */
  ghost function CountFragmentable(table: map<nat, File>, names: seq<seq<byte>>, k: nat): nat
    requires k <= |names| && ListsAll(table, names)
  {
    if k == 0 then 0
    else CountFragmentable(table, names, k - 1) + if Fragmentable(FileNamed(table, names[k - 1])) then 1 else 0
  }

  ghost function CountFragmented(table: map<nat, File>, names: seq<seq<byte>>, k: nat): nat
    requires k <= |names| && ListsAll(table, names)
  {
    if k == 0 then 0
    else CountFragmented(table, names, k - 1)
         + if Fragmentable(FileNamed(table, names[k - 1])) && Fragmented(FileNamed(table, names[k - 1])) then 1 else 0
  }

  ghost function Among(a: set<seq<byte>>, names: seq<seq<byte>>, k: nat): set<seq<byte>>
    requires k <= |names|
  {
    set n | n in a && n in names[..k]
  }

  lemma OneMoreAmong(a: set<seq<byte>>, names: seq<seq<byte>>, k: nat)
    requires k < |names| && AllDifferent(names)
    ensures |Among(a, names, k + 1)| == |Among(a, names, k)| + if names[k] in a then 1 else 0
  {
    assert names[..k + 1] == names[..k] + [names[k]];
    assert names[k] !in names[..k];
    assert Among(a, names, k + 1) == Among(a, names, k) + if names[k] in a then {names[k]} else {};
  }

  /** Counting over a listing of distinct names counts a set. */
  lemma {:induction false} CountsAreSizes(table: map<nat, File>, names: seq<seq<byte>>, k: nat, a: set<seq<byte>>, b: set<seq<byte>>)
    requires k <= |names| && ListsAll(table, names)
    requires forall n | n in Files(table) :: n in a <==> Fragmentable(FileNamed(table, n))
    requires forall n | n in Files(table) :: n in b <==> Fragmentable(FileNamed(table, n)) && Fragmented(FileNamed(table, n))
    ensures CountFragmentable(table, names, k) == |Among(a, names, k)|
    ensures CountFragmented(table, names, k) == |Among(b, names, k)|
  {
    hide RootOk, Files, FileNamed, Fragmentable, Fragmented, AllDifferent;
    if k == 0 {
      assert Among(a, names, 0) == Among(b, names, 0) == {};
    } else {
      CountsAreSizes(table, names, k - 1, a, b);
      hide Among;
      OneMoreAmong(a, names, k - 1);
      OneMoreAmong(b, names, k - 1);
    }
  }

  /** The numbers of files of at least two full sectors, and of those with a gap, as the disk shows them. */
  ghost predicate Tallied(disk: seq<Sector>, table: map<nat, File>, fragmentable: nat, fragmented: nat)
    requires RootOk(table)
  {
    && fragmentable == |set n | n in Files(table) && |Files(table)[n]| >= 1024|
    && fragmented == |set n | n in Files(table) && HasGap(disk, FileNamed(table, n).d, |Files(table)[n]|)|
  }

  /** One file with a gap is enough for the count not to be zero. */
  lemma GapIsCounted(disk: seq<Sector>, table: map<nat, File>, fragmentable: nat, fragmented: nat)
    requires RootOk(table) && Tallied(disk, table, fragmentable, fragmented)
    ensures fragmented <= fragmentable
    ensures fragmented >= 1 <==> exists n :: n in Files(table) && HasGap(disk, FileNamed(table, n).d, |Files(table)[n]|)
  {
    hide RootOk, Files, FileNamed, HasGap;
    var a := set n | n in Files(table) && |Files(table)[n]| >= 1024;
    var b := set n | n in Files(table) && HasGap(disk, FileNamed(table, n).d, |Files(table)[n]|);
    forall n | n in b
      ensures n in a
    {
      GapNeedsTwo(disk, FileNamed(table, n).d, |Files(table)[n]|);
    }
    SubsetSize(b, a);
    if n :| n in Files(table) && HasGap(disk, FileNamed(table, n).d, |Files(table)[n]|) {
      assert n in b;
    }
    if b != {} {
      var n :| n in b;
      assert HasGap(disk, FileNamed(table, n).d, |Files(table)[n]|);
    }
  }

  lemma {:induction false} SubsetSize(a: set<seq<byte>>, b: set<seq<byte>>)
    requires a <= b
    ensures |a| <= |b|
  {
    if a != {} {
      var x :| x in a;
      SubsetSize(a - {x}, b - {x});
    }
  }

  /** The two counts of fragmentation_degree, seen on the disk. */
  lemma CountsOnDisk(disk: seq<Sector>, bits: seq<bool>, log: seq<nat>, map0: InodeDisk, table: map<nat, File>, names: seq<seq<byte>>)
    requires VolumeOk(disk, bits, log, map0, table) && ListsAll(table, names)
    ensures Tallied(disk, table, CountFragmentable(table, names, |names|), CountFragmented(table, names, |names|))
  {
    hide VolumeOk, RootOk, Files, Fragmented, HasGap;
    var a := set n | n in Files(table) && |Files(table)[n]| >= 1024;
    var b := set n | n in Files(table) && HasGap(disk, FileNamed(table, n).d, |Files(table)[n]|);
    forall n | n in Files(table)
      ensures n in a <==> Fragmentable(FileNamed(table, n))
      ensures n in b <==> Fragmentable(FileNamed(table, n)) && Fragmented(FileNamed(table, n))
    {
      FilesAt(table, n);
      FileThere(disk, bits, log, map0, table, RootEntries(table)[n]);
      FragmentedIsGap(disk, FileNamed(table, n));
      GapNeedsTwo(disk, FileNamed(table, n).d, |Files(table)[n]|);
    }
    CountsAreSizes(table, names, |names|, a, b);
    assert names[..|names|] == names;
    assert Among(a, names, |names|) == a && Among(b, names, |names|) == b;
  }

  lemma GapNeedsTwo(disk: seq<Sector>, d: InodeDisk, length: nat)
    ensures HasGap(disk, d, length) ==> length >= 1024
  {
  }

  /** After a defragmentation that put every file's sectors in a row, none counts as fragmented. */
  lemma {:induction false} NoneFragmented(table: map<nat, File>, names: seq<seq<byte>>, k: nat)
    requires AllConsecutive(table) && k <= |names| && ListsAll(table, names)
    ensures CountFragmented(table, names, k) == 0
  {
    hide Entries, DirOk, Files, Consecutive, Fragmented, NamesOk;
    if k > 0 {
      NoneFragmented(table, names, k - 1);
      FilesAt(table, names[k - 1]);
      InARowNotFragmented(RootEntries(table)[names[k - 1]], FileNamed(table, names[k - 1]));
    }
  }

  lemma FullListing(table: map<nat, File>)
    requires RootOk(table)
    ensures ListsAll(table, NamesFrom(table[ROOT_DIR_SECTOR].data, 1))
  {
    AllNames(table);
    ListingComplete(table[ROOT_DIR_SECTOR].data);
    hide Entries, DirOk, NamesFrom, Files, NamesOk;
  }

  lemma ListedName(table: map<nat, File>, names: seq<seq<byte>>, k: nat)
    requires ListsAll(table, names) && k < |names|
    ensures RootOk(table) && names[k] in Files(table)
  {
  }

  /** One file of fragmentation_degree. */
  method Inspect(v: Volume, name: seq<byte>) returns (fragmentable: bool, fragmented: bool)
    requires v.Valid() && PlainName(name) && name in Files(v.table)
    modifies v.fs.cache`clock, v.fs.cache.device, v.fs.cache.slots
    ensures v.Valid()
    ensures fragmentable <==> Fragmentable(FileNamed(v.table, name))
    ensures fragmented <==> fragmentable && Fragmented(FileNamed(v.table, name))
  {
    hide Cache.Valid, Bitmap.Valid, Bitmap.Bits, Free, VolumeOk, Words, BitsOf, NamesOk, DirOk, Entries, FileAt, Fragmented,
         FileSys.MapReady, Files, RootOk, InodeCost, BytesToSectors, Listed, Maps;
    FilesAt(v.table, name);
    FileThere(v.fs.Disk(), v.fs.Bits(), v.fs.mapNodes, v.fs.mapInode, v.table, RootEntries(v.table)[name]);
    var file := v.Open(name);
    FileMaps(v.fs.Disk(), file.sector, file.data, file.nodes, file.bytes);
    var totalBlocks := file.data.length / SECTOR_SIZE;
    fragmentable, fragmented := totalBlocks > 1, false;
    if fragmentable {
      var sectors := GetDataSectors(v.fs, file.data, file.nodes);
      fragmented := IsFragmented(totalBlocks, sectors, FileNamed(v.table, name));
    }
  }

  /** The handle is where the first `k` names have been delivered. */
  ghost predicate AtName(dir: Dir, names: seq<seq<byte>>, k: nat)
    reads dir, dir.inode
  {
    && dir.pos % 36 == 0 && 36 <= dir.pos <= |dir.inode.bytes| && k <= |names|
    && NamesFrom(dir.inode.bytes, dir.pos / 36) == names[k..]
  }

  lemma AtFirst(dir: Dir, names: seq<seq<byte>>)
    requires DirOk(dir.inode.bytes) && dir.pos == ENTRY_SIZE && names == NamesFrom(dir.inode.bytes, 1)
    ensures AtName(dir, names, 0)
  {
    WholeSlots(dir.inode.bytes);
    assert names[0..] == names;
  }

  /** One step through a directory that does not change. */
  method NextListed(v: Volume, dir: Dir, ghost names: seq<seq<byte>>, ghost k: nat) returns (more: bool, name: seq<byte>)
    requires v.Valid() && v.IsRoot(dir) && dir.Ok() && AtName(dir, names, k)
    modifies dir`pos, v.fs.cache`clock, v.fs.cache.device, v.fs.cache.slots
    ensures v.Valid() && v.IsRoot(dir) && dir.Ok()
    ensures if more then k < |names| && name == names[k] && AtName(dir, names, k + 1) else k == |names| && AtName(dir, names, k)
  {
    hide Cache.Valid, Bitmap.Valid, Bitmap.Bits, Free, VolumeOk, Words, BitsOf, NamesOk, DirOk, Entries, FileAt, FileSys.MapReady,
         Files, RootOk, NamesFrom;
    assert dir !in v.fs.Repr();
    more, name := dir.ReadDir();
    if more {
      assert names[k..][0] == name && names[k..][1..] == names[k + 1..];
    }
  }

  /** One turn of the loop of fragmentation_degree. */
  method InspectAndGoOn(v: Volume, dir: Dir, name: seq<byte>, ghost names: seq<seq<byte>>, ghost k: nat, ghost f: File)
    returns (fragmentable: bool, fragmented: bool, more: bool, next: seq<byte>)
    requires v.Valid() && PlainName(name) && name in Files(v.table) && f == FileNamed(v.table, name)
    requires v.IsRoot(dir) && dir.Ok() && AtName(dir, names, k + 1)
    modifies dir`pos, v.fs.cache`clock, v.fs.cache.device, v.fs.cache.slots
    ensures v.Valid() && v.IsRoot(dir) && dir.Ok()
    ensures fragmentable <==> Fragmentable(f)
    ensures fragmented <==> fragmentable && Fragmented(f)
    ensures if more then k + 1 < |names| && next == names[k + 1] && AtName(dir, names, k + 2) else k + 1 == |names| && AtName(dir, names, k + 1)
  {
    hide Cache.Valid, Bitmap.Valid, Bitmap.Bits, Free, VolumeOk, Words, BitsOf, NamesOk, DirOk, Entries, FileAt, Fragmented,
         FileSys.MapReady, Files, RootOk, FileNamed, Fragmentable;
    fragmentable, fragmented := Inspect(v, name);
    more, next := NextListed(v, dir, names, k + 1);
  }

  /** The loop of fragmentation_degree. */
  method CountFiles(v: Volume) returns (countFragmentable: nat, countFragmented: nat, ghost names: seq<seq<byte>>)
    requires v.Valid() && forall n | n in Files(v.table) :: PlainName(n)
    modifies v.fs.cache`clock, v.fs.cache.device, v.fs.cache.slots
    ensures v.Valid() && ListsAll(v.table, names)
    ensures countFragmentable == CountFragmentable(v.table, names, |names|)
    ensures countFragmented == CountFragmented(v.table, names, |names|)
    ensures AllConsecutive(v.table) ==> countFragmented == 0
  {
    hide Cache.Valid, Bitmap.Valid, Bitmap.Bits, Free, VolumeOk, Words, BitsOf, NamesOk, DirOk, Entries, FileAt, Fragmented,
         FileSys.MapReady, Files, RootOk, NamesFrom, FileNamed, Fragmentable, AllConsecutive, AtName, ListsAll;
    ghost var table := v.table;
    RootInOrder(table);
    ghost var data := table[ROOT_DIR_SECTOR].data;
    WholeSlots(data);
    names := NamesFrom(data, 1);
    FullListing(table);
    countFragmentable, countFragmented := 0, 0;
    var dir := v.OpenRoot();
    ghost var k := 0;
    assert names[0..] == names;
    assert AtName(dir, names, 0) by { AtFirst(dir, names); }
    var more, name := NextListed(v, dir, names, k);
    while more
      invariant v.Valid() && v.table == table && v.IsRoot(dir) && dir.Ok() && fresh(dir) && fresh(dir.inode)
      invariant k <= |names| && AtName(dir, names, if more then k + 1 else k)
      invariant if more then k < |names| && name == names[k] else k == |names|
      invariant countFragmentable == CountFragmentable(table, names, k)
      invariant countFragmented == CountFragmented(table, names, k)
      decreases |names| - k, more
    {
      ListedName(table, names, k);
      var fragmentable, fragmented;
      fragmentable, fragmented, more, name := InspectAndGoOn(v, dir, name, names, k, FileNamed(table, name));
      if fragmentable {
        countFragmentable := countFragmentable + 1;
        if fragmented {
          countFragmented := countFragmented + 1;
        }
      }
      k := k + 1;
    }
    if AllConsecutive(table) {
      NoneFragmented(table, names, |names|);
    }
  }
  /** fragmentation_degree: the files that could be fragmented and those that are. */
  method FragmentationDegree(v: Volume) returns (countFragmentable: nat, countFragmented: nat)
    requires v.Valid() && forall n | n in Files(v.table) :: PlainName(n)
    modifies v.fs.cache`clock, v.fs.cache.device, v.fs.cache.slots
    ensures v.Valid() && Tallied(v.fs.Disk(), v.table, countFragmentable, countFragmented)
    ensures AllConsecutive(v.table) ==> countFragmented == 0
  {
    hide *;
    ghost var names;
    countFragmentable, countFragmented, names := CountFiles(v);
    VolumeCounts(v, names);
  }

  lemma VolumeCounts(v: Volume, names: seq<seq<byte>>)
    requires v.Valid() && ListsAll(v.table, names)
    ensures RootOk(v.table)
    ensures Tallied(v.fs.Disk(), v.table, CountFragmentable(v.table, names, |names|), CountFragmented(v.table, names, |names|))
  {
    hide Cache.Valid, Bitmap.Valid, Bitmap.Bits, VolumeOk, RootOk, ListsAll, Tallied, CountFragmentable, CountFragmented, FileSys.MapReady;
    CountsOnDisk(v.fs.Disk(), v.fs.Bits(), v.fs.mapNodes, v.fs.mapInode, v.table, names);
  }
}
