/** A volume from its formatting through a run of operations to its defragmentation (a3/fs/filesys.c, a3/fs/fsutil2.c). */
module VolumeCare {
  import opened Sectors
  import opened InodeMap
  import opened FileBytes
  import opened FreeSpace
  import opened OutOfSpace
  import opened BufferCache
  import opened Bitmaps
  import opened FileSystem
  import opened FreeMapFile
  import opened DirEntries
  import opened FileTable
  import opened VolumeState
  import opened Volumes
  import opened VolumeRuns
  import opened Defragmentation

  /** Where every file ends in NUL, defragmentation keeps every byte. */
  lemma DefragmentedSame(files0: map<seq<byte>, seq<byte>>, files: map<seq<byte>, seq<byte>>)
    requires AllTerminated(files0, files) && AllNul(files0)
    ensures files == files0
  {
    SameIffTerminated(files0, files);
  }

  /** A run on a new volume after which defragmentation is at its best: every operation has room, the root directory
      never has to grow, no creation is abandoned, and the files there in the end can be moved. */
  ghost predicate Orderly(length: nat, ops: seq<Op>)
    requires Formattable(length)
  {
    && Roomy(NewState(length), ops)
    && After(NewState(length), ops).slots == MAX_FILES_IN_DIRECTORY
    && NoneAbandoned(ops, Outcomes(NewState(length), ops))
    && Movable(After(NewState(length), ops).files)
  }

  /** Defragmentation of a volume whose system sectors come first and from which nothing has leaked, and the report
      on it: no file is fragmented. */
  method DefragmentAndCount(v: Volume, ghost m: nat) returns (code: int, fragmentable: nat, fragmented: nat)
    requires v.Valid() && Movable(Files(v.table)) && v.Leaks() == {} && SystemPrefix(v.fs.mapNodes, v.Root().nodes, m)
    modifies v`table, v.fs.cache, v.fs.cache.device, v.fs.cache.slots, v.fs.freeMap.words, v.fs`mapBytes
    ensures v.Valid() && code == 0 && fragmented == 0 && Tallied(v.fs.Disk(), v.table, fragmentable, fragmented)
    ensures AllTerminated(old(Files(v.table)), Files(v.table)) && |v.fs.FreeList()| == |old(v.fs.FreeList())| && v.Leaks() == {}
    ensures SystemPrefix(v.fs.mapNodes, v.Root().nodes, m)
  {
    hide Cache.Valid, Bitmap.Valid, Bitmap.Bits, Free, VolumeOk, Words, BitsOf, NamesOk, DirOk, Entries, Leaked, SystemPrefix,
         FileSys.MapReady, Files, RootOk, Movable, AllTerminated, AllConsecutive, Tallied;
    ghost var files0 := Files(v.table);
    code := Defragment(v);
    StillPlain(files0, Files(v.table));
    fragmentable, fragmented := FragmentationDegree(v);
  }

  lemma StillPlain(files0: map<seq<byte>, seq<byte>>, files: map<seq<byte>, seq<byte>>)
    requires Movable(files0) && AllTerminated(files0, files)
    ensures forall n | n in files :: PlainName(n)
  {
  }

  /** Formatting a device, any orderly run on it, and defragmentation: the files are those of the run but for their
      last bytes, which are NUL now; if the run was a shell's they are exactly those of the run. As many sectors are
      free as after the run, and no file is fragmented. */
  method FormatRunDefragment(device: array<Sector>, ops: seq<Op>)
    returns (ok: bool, v: Volume, outcomes: seq<Outcome>, code: int, fragmentable: nat, fragmented: nat)
    requires 3 <= device.Length <= BITMAP_ERROR && MapFileSize(device.Length - 1) <= SECTOR_SIZE * MAX_SECTORS
    requires Formattable(device.Length) ==> Orderly(device.Length, ops)
    modifies device
    ensures ok <==> Formattable(device.Length)
    ensures ok ==>
              && fresh(v) && v.Valid() && outcomes == Outcomes(NewState(device.Length), ops) && code == 0 && fragmented == 0
              && AllTerminated(After(NewState(device.Length), ops).files, Files(v.table))
              && ((forall i | 0 <= i < |ops| :: ShellOp(ops[i])) ==> Files(v.table) == After(NewState(device.Length), ops).files)
              && |v.fs.FreeList()| == After(NewState(device.Length), ops).free && v.Leaks() == {}
  {
    hide Cache.Valid, Bitmap.Valid, Bitmap.Bits, Free, VolumeOk, Words, BitsOf, NamesOk, DirOk, Entries, Leaked, SystemPrefix,
         FileSys.MapReady, Files, RootOk, Movable, AllTerminated, Formattable, NoneAbandoned, NumSlots, AllNul;
    outcomes, code, fragmentable, fragmented := [], 0, 0, 0;
    ok, v := NewVolume(device);
    if ok {
      ghost var s, m := NewState(device.Length), 2 + |v.fs.mapNodes| + |v.Root().nodes|;
      outcomes := VolumeRuns.Run(v, ops);
      code, fragmentable, fragmented := DefragmentAndCount(v, m);
      if forall i | 0 <= i < |ops| :: ShellOp(ops[i]) {
        NothingThere(s);
        ShellKeepsNul(s, ops);
        DefragmentedSame(After(s, ops).files, Files(v.table));
      }
    }
  }

  lemma NothingThere(s: State)
    requires s.files == map[]
    ensures AllNul(s.files)
  {
  }

  // ---------- a full volume ----------

  /** On a full volume, one byte written past the end of a file of 123 full sectors: nothing is written to the file,
      but the free map's inode is overwritten with zeros, and the volume is no longer in order. */
  method OneByteTooMany(v: Volume, name: seq<byte>, x: byte) returns (written: int)
    requires v.Valid() && PlainName(name) && name in Files(v.table)
    requires |Files(v.table)[name]| == 123 * SECTOR_SIZE && v.fs.FreeList() == []
    modifies v`table, v.fs.cache, v.fs.cache.device, v.fs.cache.slots, v.fs.freeMap.words, v.fs`mapBytes
    ensures written == 0 && v.table == old(v.table) && AllReadable(v.fs.Disk(), v.table)
    ensures |v.fs.Disk()| > 0 && v.fs.Disk()[0] == ZeroSector() && !v.Valid()
  {
    hide *;
    FullFile(v, name);
    ghost var s := RootEntries(v.table)[name];
    written := v.WriteAt(name, [x], 123 * SECTOR_SIZE);
    ZeroedMap(v, old(v.fs.Disk()), old(v.fs.FreeList()), s);
  }

  /** The next sector of a file of 123 full ones would be its indirect block. */
  lemma FullFile(v: Volume, name: seq<byte>)
    requires v.Valid() && name in Files(v.table) && |Files(v.table)[name]| == 123 * SECTOR_SIZE && v.fs.FreeList() == []
    ensures Growth(|Files(v.table)[name]|, 123 * SECTOR_SIZE + 1) > |v.fs.FreeList()|
    ensures 0 < 123 * SECTOR_SIZE + 1 <= SECTOR_SIZE * MAX_SECTORS
    ensures ROOT_DIR_SECTOR in v.table && name in RootEntries(v.table) && RootEntries(v.table)[name] in v.table
    ensures !IsData(|v.table[RootEntries(v.table)[name]].nodes| + |v.fs.FreeList()|)
    ensures v.fs.mapInode.length > 0
  {
    hide Cache.Valid, Bitmap.Valid, Bitmap.Bits, Free, VolumeOk, Words, BitsOf, NamesOk, DirOk, Entries, Files, RootOk, Holds;
    FilesAt(v.table, name);
    FileThere(v.fs.Disk(), v.fs.Bits(), v.fs.mapNodes, v.fs.mapInode, v.table, RootEntries(v.table)[name]);
    MapLength(v.fs);
    IndirectBlockMissing();
  }

  /** An inode of zeros is not the free map's. */
  lemma ZeroedMap(v: Volume, disk0: seq<Sector>, free0: seq<nat>, s: nat)
    requires v.Starved(disk0, free0, s) && !IsData(|v.table[s].nodes| + |free0|) && v.fs.mapInode.length > 0
    ensures AllReadable(v.fs.Disk(), v.table) && |v.fs.Disk()| > 0 && v.fs.Disk()[0] == ZeroSector() && !v.Valid()
  {
    ZeroPtr(126);
    hide Cache.Valid, Bitmap.Valid, Bitmap.Bits, Free, TableOk, RootOk, AllReadable, FileSys.MapReady, Leaked, Ptr;
  }

  lemma MapLength(fs: FileSys)
    requires fs.Wf() && fs.mapOpen && fs.MapReady()
    ensures fs.mapInode.length > 0
  {
    hide Cache.Valid, Bitmap.Valid, Bitmap.Bits, Maps, Stores, Words, BitsOf;
  }
}
