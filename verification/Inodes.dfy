/** Inodes as objects: creation, removal and the list of a file's sectors (a3/fs/inode.c). */
module Inodes {
  import opened Sectors
  import opened InodeTree
  import opened InodeMap
  import opened InodeGrowth
  import opened OutOfSpace
  import opened FileBytes
  import opened FreeSpace
  import opened BufferCache
  import opened Bitmaps
  import opened FileSystem

  // ---------- releasing sectors ----------

  /** While sectors are being released one by one: nodes[c..a] are free by now, the rest is untouched. */
  ghost predicate Freeing(disk0: seq<Sector>, disk: seq<Sector>, bits0: seq<bool>, bits: seq<bool>,
                          nodes: seq<nat>, c: nat, a: nat, log: seq<nat>) {
    && c <= a <= |nodes| && Marked(bits0, nodes) && Distinct(nodes) && 0 !in nodes
    && (forall s | s in nodes :: s !in log)
    && bits == Clear(bits0, nodes[c..a]) && SameExcept(disk0, disk, [], log)
  }

  lemma FreeingInit(disk: seq<Sector>, bits: seq<bool>, nodes: seq<nat>, c: nat, log: seq<nat>)
    requires c <= |nodes| && Marked(bits, nodes) && Distinct(nodes) && 0 !in nodes && forall s | s in nodes :: s !in log
    ensures Freeing(disk, disk, bits, bits, nodes, c, c, log)
  {
    assert Clear(bits, nodes[c..c]) == bits;
  }

  /** What is left may still be released, and has its old place on the disk. */
  lemma FreeingRest(disk0: seq<Sector>, disk: seq<Sector>, bits0: seq<bool>, bits: seq<bool>,
                    nodes: seq<nat>, c: nat, a: nat, b: nat, log: seq<nat>)
    requires Freeing(disk0, disk, bits0, bits, nodes, c, a, log) && a <= b <= |nodes|
    ensures Marked(bits, nodes[a..b]) && Distinct(nodes[a..b]) && 0 !in nodes[a..b]
    ensures c > 0 ==> Marked(bits, [nodes[0]]) && Distinct([nodes[0]]) && 0 !in [nodes[0]] && nodes[0] !in log
    ensures forall s | s in nodes[a..b] :: s !in log
    ensures SameExcept(disk0, disk, [], log) && forall s | s in nodes :: s !in log
  {
    StillMarked(bits0, nodes, c, a, b);
    assert forall s | s in nodes[a..b] :: s in nodes;
    if c > 0 {
      assert nodes[0] in nodes;
    }
  }

  lemma FreeingStep(disk0: seq<Sector>, disk1: seq<Sector>, disk2: seq<Sector>, bits0: seq<bool>, bits1: seq<bool>,
                    nodes: seq<nat>, c: nat, a: nat, b: nat, log: seq<nat>)
    requires Freeing(disk0, disk1, bits0, bits1, nodes, c, a, log) && a <= b <= |nodes|
    requires SameExcept(disk1, disk2, [], log)
    ensures Freeing(disk0, disk2, bits0, Clear(bits1, nodes[a..b]), nodes, c, b, log)
  {
    StillMarked(bits0, nodes, c, a, b);
    SameExceptChain(disk0, disk1, disk2, [], [], log);
  }

  lemma FreeingDone(disk0: seq<Sector>, disk1: seq<Sector>, disk2: seq<Sector>, bits0: seq<bool>, bits1: seq<bool>, nodes: seq<nat>, log: seq<nat>)
    requires |nodes| > 0 && Freeing(disk0, disk1, bits0, bits1, nodes, 1, |nodes|, log)
    requires SameExcept(disk1, disk2, [], log)
    ensures Clear(bits1, [nodes[0]]) == Clear(bits0, nodes)
    ensures SameExcept(disk0, disk2, [], log)
  {
    assert nodes[1..|nodes|] == nodes[1..];
    ClearRoot(bits0, nodes);
    SameExceptChain(disk0, disk1, disk2, [], [], log);
  }

  /** Nothing of the inode's tree changes on the disk while its sectors are released. */
  lemma FreeingMaps(disk0: seq<Sector>, disk: seq<Sector>, bits0: seq<bool>, bits: seq<bool>,
                    d: InodeDisk, nodes: seq<nat>, n: nat, a: nat, log: seq<nat>)
    requires Freeing(disk0, disk, bits0, bits, nodes, 0, a, log) && Maps(disk0, d, nodes, n)
    ensures Maps(disk, d, nodes, n)
    ensures Sub(disk, 1, d.indirect, IndirectPart(nodes, n), Indirect(n))
    ensures Sub(disk, 2, d.doubly, DoublyPart(nodes, n), Doubly(n))
    ensures |nodes| == InodeCost(n) && n <= MAX_SECTORS
  {
    hide Clear, Sub;
    MapsUntouched(disk0, disk, d, nodes, n, log);
  }

  /** A tree outside what was written is still there. */
  lemma MapsUntouched(disk: seq<Sector>, disk': seq<Sector>, d: InodeDisk, nodes: seq<nat>, n: nat, log: seq<nat>)
    requires Maps(disk, d, nodes, n) && SameExcept(disk, disk', [], log) && forall s | s in nodes :: s !in log
    ensures Maps(disk', d, nodes, n)
  {
    forall p {:trigger nodes[p]} | 0 <= p < |nodes|
      ensures disk'[nodes[p]] == disk[nodes[p]]
    {
      assert nodes[p] in nodes;
    }
    MapsFrame(disk, disk', d, nodes, n);
  }

  /** inode_deallocate_indirect: every sector of the subtree is released exactly once. */
  method DeallocateIndirect(fs: FileSys, entry: nat, num: nat, level: nat, ghost nodes: seq<nat>)
    requires level <= 2 && 0 < num <= Capacity(level)
    requires fs.Wf() && fs.MapReady() && fs.mapOpen && fs.Releasable(nodes) && Sub(fs.Disk(), level, entry, nodes, num)
    modifies fs.cache, fs.cache.device, fs.cache.slots, fs.freeMap.words, fs`mapBytes
    decreases level, 1
    ensures fs.Wf() && fs.MapReady()
    ensures fs.Bits() == Clear(old(fs.Bits()), nodes)
    ensures SameExcept(old(fs.Disk()), fs.Disk(), [], fs.mapNodes)
  {
    hide Cache.Valid, Bitmap.Valid, Bitmap.Bits, Free, FileSys.MapReady, FileSys.Bits, Marked, Distinct, SameExcept, Clear, Freeing;
    ghost var disk0, bits0 := fs.Disk(), fs.Bits();
    if level == 0 {
      assert nodes == [entry];
      fs.ReleaseSector(entry);
      return;
    }
    RootSub(disk0, level, entry, nodes, num);
    hide Sub;
    var block := fs.ReadBlock(entry);
    var blocks := DecodePtrs(block);
    var left, i: nat := num, 0;
    var l := (num + Unit(level) - 1) / Unit(level);
    FreeingInit(disk0, bits0, nodes, 1, fs.mapNodes);
    hide FileSys.Wf;
    while i < l
      invariant i <= l && fs.Wf() && fs.MapReady()
      invariant left == if Before(level, i) <= num then num - Before(level, i) else 0
      invariant Freeing(disk0, fs.Disk(), bits0, fs.Bits(), nodes, 1, KidPos(level, num, i), fs.mapNodes)
    {
      var subsize := if left < Unit(level) then left else Unit(level);
      DeallocateEntry(fs, blocks[i], i, subsize, entry, num, level, nodes, disk0, bits0);
      left := left - subsize;
      i := i + 1;
    }
    ghost var disk1, bits1 := fs.Disk(), fs.Bits();
    FreeingRest(disk0, disk1, bits0, bits1, nodes, 1, |nodes|, |nodes|, fs.mapNodes);
    fs.ReleaseSector(entry);
    FreeingDone(disk0, disk1, fs.Disk(), bits0, bits1, nodes, fs.mapNodes);
  }

  /** One iteration of the loop of inode_deallocate_indirect (inode.c:465-469). */
  method DeallocateEntry(fs: FileSys, ptr: nat, i: nat, subsize: nat, ghost entry: nat, ghost num: nat, level: nat,
                         ghost nodes: seq<nat>, ghost disk0: seq<Sector>, ghost bits0: seq<bool>)
    requires 1 <= level <= 2 && Before(level, i) < num <= Capacity(level) && subsize == KidNum(level, num, i)
    requires fs.Wf() && fs.MapReady() && fs.mapOpen
    requires Sub(disk0, level, entry, nodes, num) && entry < |disk0| && i < 128 && ptr == Ptr(disk0[entry], i)
    requires Freeing(disk0, fs.Disk(), bits0, fs.Bits(), nodes, 1, KidPos(level, num, i), fs.mapNodes)
    modifies fs.cache, fs.cache.device, fs.cache.slots, fs.freeMap.words, fs`mapBytes
    decreases level, 0
    ensures fs.Wf() && fs.MapReady()
    ensures Freeing(disk0, fs.Disk(), bits0, fs.Bits(), nodes, 1, KidPos(level, num, i + 1), fs.mapNodes)
  {
    hide Cache.Valid, Bitmap.Valid, Bitmap.Bits, Free, FileSys.MapReady, FileSys.Bits, FileSys.Wf, Marked, Distinct, SameExcept, Clear,
         Freeing, Sub, Ptr, Cost, KidPos;
    ghost var a, b := KidPos(level, num, i), KidPos(level, num, i + 1);
    ghost var disk1, bits1 := fs.Disk(), fs.Bits();
    SubWithin(disk0, level, entry, nodes, num);
    KidPosStep(level, num, i);
    FreeingRest(disk0, disk1, bits0, bits1, nodes, 1, a, b, fs.mapNodes);
    EntrySub(disk0, disk1, level, entry, nodes, num, i, fs.mapNodes);
    DeallocateIndirect(fs, ptr, subsize, level - 1, nodes[a..b]);
    FreeingStep(disk0, disk1, fs.Disk(), bits0, bits1, nodes, 1, a, b, fs.mapNodes);
  }

  lemma DirectSectors(disk: seq<Sector>, d: InodeDisk, nodes: seq<nat>, n: nat)
    requires Maps(disk, d, nodes, n)
    ensures Direct(n) <= |d.direct| && Direct(n) <= |nodes|
    ensures forall i {:trigger d.direct[i]} | 0 <= i < Direct(n) :: d.direct[i] == nodes[i]
  {
  }

  /** The direct blocks of inode_deallocate (inode.c:487-492). */
  method DeallocateDirect(fs: FileSys, d: InodeDisk, l: nat, ghost nodes: seq<nat>, ghost n: nat)
    requires fs.Wf() && fs.MapReady() && fs.mapOpen && fs.Releasable(nodes)
    requires Maps(fs.Disk(), d, nodes, n) && l == Direct(n)
    modifies fs.cache, fs.cache.device, fs.cache.slots, fs.freeMap.words, fs`mapBytes
    ensures fs.Wf() && fs.MapReady()
    ensures Freeing(old(fs.Disk()), fs.Disk(), old(fs.Bits()), fs.Bits(), nodes, 0, l, fs.mapNodes)
  {
    hide Cache.Valid, Bitmap.Valid, Bitmap.Bits, Free, FileSys.MapReady, FileSys.Bits, FileSys.Wf, Marked, Distinct, SameExcept, Clear,
         Freeing, Maps, InodeCost;
    ghost var disk0, bits0 := fs.Disk(), fs.Bits();
    DirectSectors(disk0, d, nodes, n);
    FreeingInit(disk0, bits0, nodes, 0, fs.mapNodes);
    var i := 0;
    while i < l
      invariant i <= l && fs.Wf() && fs.MapReady()
      invariant Freeing(disk0, fs.Disk(), bits0, fs.Bits(), nodes, 0, i, fs.mapNodes)
    {
      DeallocateDirectBlock(fs, d.direct[i], i, nodes, disk0, bits0);
      i := i + 1;
    }
  }

  /** One direct block (inode.c:490). */
  method DeallocateDirectBlock(fs: FileSys, s: nat, ghost i: nat, ghost nodes: seq<nat>, ghost disk0: seq<Sector>, ghost bits0: seq<bool>)
    requires fs.Wf() && fs.MapReady() && fs.mapOpen && i < |nodes| && s == nodes[i]
    requires Freeing(disk0, fs.Disk(), bits0, fs.Bits(), nodes, 0, i, fs.mapNodes)
    modifies fs.cache, fs.cache.device, fs.cache.slots, fs.freeMap.words, fs`mapBytes
    ensures fs.Wf() && fs.MapReady()
    ensures Freeing(disk0, fs.Disk(), bits0, fs.Bits(), nodes, 0, i + 1, fs.mapNodes)
  {
    hide Cache.Valid, Bitmap.Valid, Bitmap.Bits, Free, FileSys.MapReady, FileSys.Bits, FileSys.Wf, Marked, Distinct, SameExcept, Clear, Freeing;
    ghost var disk1, bits1 := fs.Disk(), fs.Bits();
    FreeingRest(disk0, disk1, bits0, bits1, nodes, 0, i, i + 1, fs.mapNodes);
    assert nodes[i..i + 1] == [s];
    fs.ReleaseSector(s);
    FreeingStep(disk0, disk1, fs.Disk(), bits0, bits1, nodes, 0, i, i + 1, fs.mapNodes);
  }

  /** inode_deallocate: all the inode's data and index sectors are released, each exactly once. */
  method Deallocate(fs: FileSys, d: InodeDisk, ghost nodes: seq<nat>)
    requires fs.Wf() && fs.MapReady() && fs.mapOpen && fs.Releasable(nodes)
    requires Maps(fs.Disk(), d, nodes, BytesToSectors(d.length))
    modifies fs.cache, fs.cache.device, fs.cache.slots, fs.freeMap.words, fs`mapBytes
    ensures fs.Wf() && fs.MapReady()
    ensures fs.Bits() == Clear(old(fs.Bits()), nodes)
    ensures SameExcept(old(fs.Disk()), fs.Disk(), [], fs.mapNodes)
  {
    hide Cache.Valid, Bitmap.Valid, Bitmap.Bits, Free, FileSys.MapReady, FileSys.Bits, FileSys.Wf, Marked, Distinct, SameExcept, Clear,
         Freeing, Maps, Sub;
    ghost var disk0, bits0, n := fs.Disk(), fs.Bits(), BytesToSectors(d.length);
    ghost var log := fs.mapNodes;
    FreeingInit(disk0, bits0, nodes, 0, log);
    FreeingMaps(disk0, disk0, bits0, bits0, d, nodes, n, 0, log);
    var num: nat := BytesToSectors(d.length);
    var l := if num < DIRECT_BLOCKS then num else DIRECT_BLOCKS;
    DeallocateDirect(fs, d, l, nodes, n);
    num := num - l;
    ghost var a := Direct(n);
    ghost var disk1, bits1 := fs.Disk(), fs.Bits();
    FreeingMaps(disk0, disk1, bits0, bits1, d, nodes, n, a, log);
    l := if num < PTRS_PER_SECTOR then num else PTRS_PER_SECTOR;
    ghost var b := a + Cost(1, Indirect(n));
    FreeingRest(disk0, disk1, bits0, bits1, nodes, 0, a, b, log);
    if l > 0 {
      DeallocateIndirect(fs, d.indirect, l, 1, IndirectPart(nodes, n));
      num := num - l;
    } else {
      FreeNothing(disk1, bits1, nodes, a, log);
    }
    FreeingStep(disk0, disk1, fs.Disk(), bits0, bits1, nodes, 0, a, b, log);
    ghost var disk2, bits2 := fs.Disk(), fs.Bits();
    FreeingMaps(disk0, disk2, bits0, bits2, d, nodes, n, b, log);
    l := if num < PTRS_PER_SECTOR * PTRS_PER_SECTOR then num else PTRS_PER_SECTOR * PTRS_PER_SECTOR;
    FreeingRest(disk0, disk2, bits0, bits2, nodes, 0, b, |nodes|, log);
    assert nodes[b..|nodes|] == DoublyPart(nodes, n);
    if l > 0 {
      DeallocateIndirect(fs, d.doubly, l, 2, DoublyPart(nodes, n));
    } else {
      FreeNothing(disk2, bits2, nodes, b, log);
    }
    FreeingStep(disk0, disk2, fs.Disk(), bits0, bits2, nodes, 0, b, |nodes|, log);
    FreeingAll(disk0, fs.Disk(), bits0, fs.Bits(), nodes, log);
  }

  lemma FreeNothing(disk: seq<Sector>, bits: seq<bool>, nodes: seq<nat>, a: nat, log: seq<nat>)
    requires a <= |nodes|
    ensures Clear(bits, nodes[a..a]) == bits && SameExcept(disk, disk, [], log)
  {
  }

  lemma FreeingAll(disk0: seq<Sector>, disk: seq<Sector>, bits0: seq<bool>, bits: seq<bool>, nodes: seq<nat>, log: seq<nat>)
    requires Freeing(disk0, disk, bits0, bits, nodes, 0, |nodes|, log)
    ensures bits == Clear(bits0, nodes) && SameExcept(disk0, disk, [], log)
  {
    assert nodes[0..|nodes|] == nodes;
  }

  // ---------- creating an inode ----------

  /** The zeroed structure inode_create starts from. */
  function EmptyInode(length: nat, isDir: bool): (d: InodeDisk)
    requires length < WORD_LIMIT
    ensures d.Valid() && d.length == length && d.isDir == isDir
  {
    InodeDisk(seq(123, _ => 0), 0, 0, isDir, length)
  }

  function Zeros(length: nat): (data: seq<byte>)
    ensures |data| == length && forall i | 0 <= i < length :: data[i] == 0
  {
    seq(length, _ => 0)
  }

  lemma EmptyInodeMaps(disk: seq<Sector>, length: nat, isDir: bool)
    requires length < WORD_LIMIT
    ensures Maps(disk, EmptyInode(length, isDir), [], 0)
    ensures Stores(disk, [], 0, [])
  {
  }

  lemma ZerosPadded(length: nat)
    ensures ZeroPadded([], length) == Zeros(length)
  {
  }

  /** A new inode: what inode_reserve gave it, with its own sector written. */
  lemma CreatedRegrown(disk0: seq<Sector>, disk1: seq<Sector>, free0: seq<nat>, free: seq<nat>, sector: nat,
                       d: InodeDisk, added: seq<nat>, length: nat, isDir: bool, log: seq<nat>)
    requires length <= SECTOR_SIZE * MAX_SECTORS && sector < |disk0| && sector !in added
    requires added + free == free0 && |added| == InodeCost(BytesToSectors(length))
    requires Extended(disk0, disk1, d, [], added, BytesToSectors(length), log)
    requires d.length == length && d.isDir == isDir
    ensures d.Valid()
    ensures Regrown(disk0, disk1[sector := EncodeInode(d)], free0, free, sector, EmptyInode(length, isDir), d,
                    [], added, InodeCost(BytesToSectors(length)), Zeros(length), log)
  {
    var n := BytesToSectors(length);
    EmptyInodeMaps(disk0, length, isDir);
    assert [] + added == added && free0[..|added|] == added && free0[|added|..] == free;
    hide Maps, Stores, InodeCost, SameExcept;
    ExtendedWritten(disk0, disk1, d, [], added, 0, n, [], length, sector, log);
    ZerosPadded(length);
    assert d.(length := length) == d;
  }

  /** What creating takes, in terms of the least number of sectors that hold the bytes. */
  lemma TakenForBytes(length: nat, ok: bool, free0: seq<nat>, free: seq<nat>)
    requires ok <==> InodeCost(BytesToSectors(length)) <= |free0|
    requires if ok then free == free0[InodeCost(BytesToSectors(length))..] else free == []
    ensures forall n: nat | LeastSectors(length, n) ::
              (ok <==> TreeSize(n) <= |free0|) && |free| == if ok then |free0| - TreeSize(n) else 0
  {
    hide InodeCost, BytesToSectors, TreeSize, LeastSectors;
    forall n: nat | LeastSectors(length, n)
      ensures (ok <==> TreeSize(n) <= |free0|) && |free| == if ok then |free0| - TreeSize(n) else 0
    {
      CostOfBytes(length, n);
    }
  }

  /** inode_create: an inode of `length` zero bytes in sector `sector`. */
  method CreateInode(fs: FileSys, sector: nat, length: nat, isDir: bool) returns (ok: bool, ghost d: InodeDisk, ghost nodes: seq<nat>)
    requires fs.Wf() && fs.Growable([]) && fs.OwnSector(sector, []) && length <= SECTOR_SIZE * MAX_SECTORS
    modifies fs.cache, fs.cache.device, fs.cache.slots, fs.freeMap.words, fs`mapBytes
    ensures fs.Wf() && fs.MapReady()
    ensures ok <==> InodeCost(BytesToSectors(length)) <= |old(fs.FreeList())|
    ensures ok ==> Regrown(old(fs.Disk()), fs.Disk(), old(fs.FreeList()), fs.FreeList(), sector, EmptyInode(length, isDir), d,
                           [], nodes, InodeCost(BytesToSectors(length)), Zeros(length), fs.mapNodes)
    ensures !ok ==> fs.FreeList() == [] && Exhausted(old(fs.Disk()), fs.Disk(), [], old(fs.FreeList()), fs.mapNodes)
    ensures !ok ==> fs.Disk()[0] == if IsData(|old(fs.FreeList())|) then old(fs.Disk())[0] else ZeroSector()
    ensures forall n: nat | LeastSectors(length, n) ::
              && (ok <==> TreeSize(n) <= |old(fs.FreeList())|)
              && |fs.FreeList()| == if ok then |old(fs.FreeList())| - TreeSize(n) else 0
  {
    hide Cache.Valid, Bitmap.Valid, Bitmap.Bits, Free, FileSys.MapFileOk, FileSys.MapSaved, Marked, Distinct, Maps, Stores, Extended,
         Regrown, InodeCost, EmptyInode, Fits, Exhausted, InodeKept, IsData, LeastSectors, TreeSize;
    EmptyInodeMaps(fs.Disk(), length, isDir);
    ExtendedRefl(fs.Disk(), EmptyInode(length, isDir), [], 0, fs.mapNodes);
    var inode := EmptyInode(length, isDir);
    ok, inode, nodes := fs.Reserve(inode, length, [], 0);
    d := inode;
    if ok {
      ghost var disk1 := fs.Disk();
      CreatedRegrown(old(fs.Disk()), disk1, old(fs.FreeList()), fs.FreeList(), sector, d, nodes, length, isDir, fs.mapNodes);
      fs.WriteBlock(sector, EncodeInode(inode));
    }
    TakenForBytes(length, ok, old(fs.FreeList()), fs.FreeList());
  }

  // ---------- the sectors of a file, in order ----------

  /** sectors[..i] are the file's first data sectors. */
  ghost predicate Listed(sectors: seq<nat>, nodes: seq<nat>, n: nat, i: nat)
  {
    && i <= n <= |sectors| && |nodes| == InodeCost(n)
    && forall q {:trigger sectors[q]} | 0 <= q < i :: sectors[q] == DataSector(nodes, n, q)
  }

  /** The pointers of an index block are the next data sectors. */
  ghost predicate NextSectors(ptrs: seq<nat>, cnt: nat, nodes: seq<nat>, n: nat, at: nat) {
    && cnt <= |ptrs| && at + cnt <= n && |nodes| == InodeCost(n)
    && forall q {:trigger ptrs[q]} | 0 <= q < cnt :: ptrs[q] == DataSector(nodes, n, at + q)
  }

  lemma DirectListed(disk: seq<Sector>, d: InodeDisk, nodes: seq<nat>, n: nat)
    requires Maps(disk, d, nodes, n)
    ensures NextSectors(d.direct, Direct(n), nodes, n, 0)
  {
    forall q {:trigger d.direct[q]} | 0 <= q < Direct(n)
      ensures d.direct[q] == DataSector(nodes, n, 0 + q)
    {
      LookupIsNode(disk, d, nodes, n, q);
    }
  }

  lemma IndirectListed(disk: seq<Sector>, d: InodeDisk, nodes: seq<nat>, n: nat)
    requires Maps(disk, d, nodes, n) && n > 123
    ensures d.indirect < |disk|
    ensures NextSectors(DecodePtrs(disk[d.indirect]), Indirect(n), nodes, n, 123)
  {
    LookupIsNode(disk, d, nodes, n, 123);
    forall q {:trigger DecodePtrs(disk[d.indirect])[q]} | 0 <= q < Indirect(n)
      ensures DecodePtrs(disk[d.indirect])[q] == DataSector(nodes, n, 123 + q)
    {
      LookupIsNode(disk, d, nodes, n, 123 + q);
    }
  }

  lemma DoublyAt(disk: seq<Sector>, d: InodeDisk, nodes: seq<nat>, n: nat, j: nat)
    requires Maps(disk, d, nodes, n) && 251 <= j < n
    ensures (j - 251) / 128 < 128 && d.doubly < |disk| && Ptr(disk[d.doubly], (j - 251) / 128) < |disk| && |nodes| == InodeCost(n)
    ensures Ptr(disk[Ptr(disk[d.doubly], (j - 251) / 128)], (j - 251) % 128) == DataSector(nodes, n, j)
  {
    LookupIsNode(disk, d, nodes, n, j);
    assert n <= MAX_SECTORS && |nodes| == InodeCost(n);
    hide Ptr, Maps, InodeCost, DataPos;
  }

  lemma DoublyListed(disk: seq<Sector>, d: InodeDisk, nodes: seq<nat>, n: nat, i: nat)
    requires Maps(disk, d, nodes, n) && 251 + 128 * i < n
    ensures i < 128 && d.doubly < |disk| && Ptr(disk[d.doubly], i) < |disk|
    ensures NextSectors(DecodePtrs(disk[Ptr(disk[d.doubly], i)]), KidNum(2, Doubly(n), i), nodes, n, 251 + 128 * i)
  {
    hide Ptr, Maps, InodeCost, DataSector;
    DoublyIndex(i, 0);
    DoublyAt(disk, d, nodes, n, 251 + 128 * i);
    var block := disk[Ptr(disk[d.doubly], i)];
    forall q {:trigger DecodePtrs(block)[q]} | 0 <= q < KidNum(2, Doubly(n), i)
      ensures DecodePtrs(block)[q] == DataSector(nodes, n, 251 + 128 * i + q)
    {
      DoublyIndex(i, q);
      DoublyAt(disk, d, nodes, n, 251 + 128 * i + q);
    }
  }

  lemma DoublyIndex(i: nat, q: nat)
    requires q < 128
    ensures (251 + 128 * i + q - 251) / 128 == i && (251 + 128 * i + q - 251) % 128 == q
  {
  }

  /** The loops of get_inode_data_sectors over one block's pointers. */
  method CopyPointers(ptrs: seq<nat>, cnt: nat, sectors: array<nat>, at: nat, ghost nodes: seq<nat>, ghost n: nat)
    returns (at': nat)
    requires sectors.Length == n && Listed(sectors[..], nodes, n, at) && NextSectors(ptrs, cnt, nodes, n, at)
    modifies sectors
    ensures at' == at + cnt && Listed(sectors[..], nodes, n, at')
  {
    hide InodeCost, DataSector;
    at' := at;
    var i := 0;
    while i < cnt
      invariant i <= cnt && at' == at + i
      invariant Listed(sectors[..], nodes, n, at')
    {
      ghost var before := sectors[..];
      sectors[at'] := ptrs[i];
      assert sectors[..] == before[at' := ptrs[i]];
      at' := at' + 1;
      i := i + 1;
    }
  }

  /** The doubly indirect range of get_inode_data_sectors (inode.c:552-574). */
  method CopyDoubly(fs: FileSys, d: InodeDisk, l: nat, sectors: array<nat>, ghost nodes: seq<nat>)
    requires fs.Wf() && Maps(fs.Disk(), d, nodes, BytesToSectors(d.length)) && l == Doubly(BytesToSectors(d.length)) && l > 0
    requires sectors.Length == BytesToSectors(d.length) && Listed(sectors[..], nodes, sectors.Length, 251)
    requires sectors as object !in fs.Repr()
    modifies fs.cache`clock, fs.cache.device, fs.cache.slots, sectors
    ensures fs.Wf() && Listed(sectors[..], nodes, sectors.Length, sectors.Length)
  {
    hide Cache.Valid, Bitmap.Valid, Bitmap.Bits, Free, Maps, Listed, NextSectors, Ptr;
    ghost var n := sectors.Length;
    DoublyListed(fs.Disk(), d, nodes, n, 0);
    var first := fs.ReadBlock(d.doubly);
    var blocks := DecodePtrs(first);
    var left, at, i: nat := l, 251, 0;
    while i < (l + PTRS_PER_SECTOR - 1) / PTRS_PER_SECTOR
      invariant i <= (l + 127) / 128 && fs.Wf() && Maps(fs.Disk(), d, nodes, n)
      invariant left == if 128 * i <= l then l - 128 * i else 0
      invariant at == if 128 * i <= l then 251 + 128 * i else n
      invariant Listed(sectors[..], nodes, n, at)
    {
      var subsize := if left < PTRS_PER_SECTOR then left else PTRS_PER_SECTOR;
      DoublyListed(fs.Disk(), d, nodes, n, i);
      var second := fs.ReadBlock(blocks[i]);
      at := CopyPointers(DecodePtrs(second), subsize, sectors, at, nodes, n);
      left := left - subsize;
      i := i + 1;
    }
  }

  lemma NoneListed(disk: seq<Sector>, d: InodeDisk, sectors: seq<nat>, nodes: seq<nat>)
    requires Maps(disk, d, nodes, |sectors|)
    ensures Listed(sectors, nodes, |sectors|, 0) && |d.direct| == 123 && |sectors| <= MAX_SECTORS
  {
  }

  /** The first two ranges of get_inode_data_sectors (inode.c:522-546). */
  method CopyDirectAndIndirect(fs: FileSys, d: InodeDisk, sectors: array<nat>, ghost nodes: seq<nat>) returns (at: nat)
    requires fs.Wf() && Maps(fs.Disk(), d, nodes, BytesToSectors(d.length))
    requires sectors.Length == BytesToSectors(d.length) && sectors as object !in fs.Repr()
    modifies fs.cache`clock, fs.cache.device, fs.cache.slots, sectors
    ensures fs.Wf() && at == Direct(sectors.Length) + Indirect(sectors.Length) && Listed(sectors[..], nodes, sectors.Length, at)
  {
    hide Cache.Valid, Bitmap.Valid, Bitmap.Bits, Free, Maps, NextSectors, Ptr, Lookup, InodeCost, Listed;
    ghost var n := sectors.Length;
    NoneListed(fs.Disk(), d, sectors[..], nodes);
    var num: nat := BytesToSectors(d.length);
    var l := if num < DIRECT_BLOCKS then num else DIRECT_BLOCKS;
    DirectListed(fs.Disk(), d, nodes, n);
    at := CopyPointers(d.direct, l, sectors, 0, nodes, n);
    num := num - l;
    l := if num < PTRS_PER_SECTOR then num else PTRS_PER_SECTOR;
    if l > 0 {
      IndirectListed(fs.Disk(), d, nodes, n);
      var block := fs.ReadBlock(d.indirect);
      at := CopyPointers(DecodePtrs(block), l, sectors, at, nodes, n);
    }
  }

  /** Every listed sector is the one point lookup finds. */
  ghost predicate FoundByLookup(disk: seq<Sector>, d: InodeDisk, sectors: seq<nat>) {
    forall i {:trigger sectors[i]} | 0 <= i < |sectors| ::
      && Findable(disk, d, i) && sectors[i] == Lookup(disk, d, i)
  }

  /** Two traversals of one tree: the list of all data sectors, and the search for one. */
  lemma ListedLookups(disk: seq<Sector>, d: InodeDisk, nodes: seq<nat>, sectors: seq<nat>)
    requires Maps(disk, d, nodes, |sectors|) && Listed(sectors, nodes, |sectors|, |sectors|)
    ensures FoundByLookup(disk, d, sectors)
  {
    hide Lookup, Findable, InodeCost, Sub;
    forall i | 0 <= i < |sectors|
      ensures Findable(disk, d, i) && sectors[i] == Lookup(disk, d, i)
    {
      FoundAt(disk, d, nodes, |sectors|, i);
    }
  }

  /** get_inode_data_sectors: the flat list agrees with point lookup at every index. */
  method GetDataSectors(fs: FileSys, d: InodeDisk, ghost nodes: seq<nat>) returns (sectors: array<nat>)
    requires fs.Wf() && Maps(fs.Disk(), d, nodes, BytesToSectors(d.length))
    modifies fs.cache`clock, fs.cache.device, fs.cache.slots
    ensures fs.Wf() && fresh(sectors) && sectors.Length == BytesToSectors(d.length)
    ensures Listed(sectors[..], nodes, sectors.Length, sectors.Length)
    ensures FoundByLookup(fs.Disk(), d, sectors[..])
  {
    hide Cache.Valid, Bitmap.Valid, Bitmap.Bits, Free, Maps, Listed, FoundByLookup;
    var num: nat := BytesToSectors(d.length);
    sectors := new nat[num];
    var at := CopyDirectAndIndirect(fs, d, sectors, nodes);
    if at < num {
      CopyDoubly(fs, d, num - at, sectors, nodes);
    }
    ListedLookups(fs.Disk(), d, nodes, sectors[..]);
  }
}
