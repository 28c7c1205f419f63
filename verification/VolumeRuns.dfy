/** Whole runs of a volume: it behaves as a map from names to byte strings, and its free and leaked sectors can be
    counted from the outside. */
module VolumeRuns {
  import opened Sectors
  import opened InodeMap
  import opened FileBytes
  import opened FreeSpace
  import opened BufferCache
  import opened Bitmaps
  import opened FileSystem
  import opened Inodes
  import opened FreeMapFile
  import opened DirEntries
  import opened Directory
  import opened FileTable
  import opened VolumeState
  import opened Volumes

  // ---------- what a caller sees ----------

  /** The bytes under each name; how many sectors are free, how many slots the root directory has, and how many
      sectors in use belong to nobody. */
  datatype State = State(files: map<seq<byte>, seq<byte>>, free: nat, slots: nat, leaked: nat) {
    predicate New(name: seq<byte>) {
      ValidName(name) && name !in files
    }

    /** The root directory has a name in every slot but the parent's. */
    predicate Full() {
      |files| == slots - 1
    }

    /** Sectors the root directory grows by when one more name is entered. */
    function EntryCost(): nat {
      if Full() then Growth(ENTRY_SIZE * slots, ENTRY_SIZE * (slots + 1)) else 0
    }
  }

  datatype Outcome = Outcome(success: bool, data: seq<byte>)

  datatype Op =
    | Create(name: seq<byte>, size: nat)
    | Read(name: seq<byte>, size: nat, offset: nat)
    | Write(name: seq<byte>, buf: seq<byte>, offset: nat)
    | Put(name: seq<byte>, buf: seq<byte>, offset: nat)
    | Remove(name: seq<byte>)
  {
    /** What the callers of the operations owe. Write is file_write_at and Put is file_write. */
    predicate Proper() {
      match this
      case Create(name, size) => NoPath(name) && size <= SECTOR_SIZE * MAX_SECTORS
      case Read(name, size, offset) => PlainName(name)
      case Write(name, buf, offset) => PlainName(name) && 0 < offset + |buf| <= SECTOR_SIZE * MAX_SECTORS
      case Put(name, buf, offset) => PlainName(name) && 0 < |buf| && offset + |buf| <= SECTOR_SIZE * MAX_SECTORS
      case Remove(name) => NoPath(name)
    }

    /** There are enough free sectors for all the operation does in this state; a full root directory can grow. */
    predicate Room(s: State) {
      match this
      case Create(name, size) =>
        && 1 + FileCost(size) <= s.free
        && (s.New(name) ==>
              && 1 + FileCost(size) + s.EntryCost() <= s.free
              && (s.Full() ==> ENTRY_SIZE * (s.slots + 1) <= SECTOR_SIZE * MAX_SECTORS))
      case Write(name, buf, offset) => name in s.files ==> Growth(|s.files[name]|, offset + |buf|) <= s.free
      case Put(name, buf, offset) => name in s.files ==> Growth(|s.files[name]|, offset + |buf|) <= s.free
      case _ => true
    }

    /** The state after the operation. */
    function Next(s: State): State
      requires Proper() && Room(s)
    {
      match this
      case Create(name, size) =>
        if s.New(name) then
          State(s.files[name := Zeros(size)], s.free - (1 + FileCost(size) + s.EntryCost()),
                s.slots + (if s.Full() then 1 else 0), s.leaked)
        else s.(free := s.free - FileCost(size), leaked := s.leaked + FileCost(size))
      case Read(name, size, offset) => s
      case Write(name, buf, offset) => Spliced(s, name, buf, offset)
      case Put(name, buf, offset) => Spliced(s, name, Terminated(buf), offset)
      case Remove(name) =>
        if name in s.files then s.(files := s.files - {name}, free := s.free + 1 + FileCost(|s.files[name]|)) else s
    }

    /** What the operation reports. */
    function Result(s: State): Outcome {
      match this
      case Create(name, size) => Outcome(s.New(name), [])
      case Read(name, size, offset) =>
        if name in s.files then Outcome(true, Slice(s.files[name], offset, size)) else Outcome(false, [])
      case Write(name, buf, offset) => Outcome(name in s.files, [])
      case Put(name, buf, offset) => Outcome(name in s.files, [])
      case Remove(name) => Outcome(name in s.files, [])
    }
  }

  function Spliced(s: State, name: seq<byte>, buf: seq<byte>, offset: nat): State
    requires name in s.files ==> Growth(|s.files[name]|, offset + |buf|) <= s.free
  {
    if name in s.files then
      s.(files := s.files[name := Splice(s.files[name], offset, buf)], free := s.free - Growth(|s.files[name]|, offset + |buf|))
    else s
  }

  /** Each operation of the run has room when its turn comes. */
  predicate Roomy(s: State, ops: seq<Op>)
    decreases |ops|
  {
    |ops| == 0 || (ops[0].Proper() && ops[0].Room(s) && Roomy(ops[0].Next(s), ops[1..]))
  }

  function After(s: State, ops: seq<Op>): State
    requires Roomy(s, ops)
    decreases |ops|
  {
    if |ops| == 0 then s else After(ops[0].Next(s), ops[1..])
  }

  function Outcomes(s: State, ops: seq<Op>): (r: seq<Outcome>)
    requires Roomy(s, ops)
    ensures |r| == |ops|
    decreases |ops|
  {
    if |ops| == 0 then [] else [ops[0].Result(s)] + Outcomes(ops[0].Next(s), ops[1..])
  }

  // ---------- laws of the states ----------

  /** What a read reports, byte by byte. */
  lemma ReadReports(s: State, name: seq<byte>, size: nat, offset: nat)
    ensures Read(name, size, offset).Result(s).success <==> name in s.files
    ensures name in s.files ==> Delivers(Read(name, size, offset).Result(s).data, s.files[name], offset, size)
  {
    if name in s.files {
      SliceDelivers(s.files[name], offset, size);
    }
  }

  /** A read from where the one before it stopped continues it: the two deliver what one read of both sizes would. */
  lemma ReadTwice(s: State, name: seq<byte>, n: nat, m: nat, offset: nat)
    requires name in s.files
    ensures var first := Read(name, n, offset).Result(s).data;
            var second := Read(name, m, offset + |first|).Result(s).data;
            first + second == Read(name, n + m, offset).Result(s).data
  {
  }

  /** After a write every read finds the buffer where it was written, the old bytes around it, and zeros in between if
      the write began past the end; the other files read as before. */
  lemma ReadAfterWrite(s: State, name: seq<byte>, buf: seq<byte>, offset: nat, other: seq<byte>, size: nat, at: nat)
    requires Write(name, buf, offset).Proper() && Write(name, buf, offset).Room(s) && name in s.files
    ensures var s', old0 := Write(name, buf, offset).Next(s), s.files[name];
            var got := Read(name, size, at).Result(s').data;
            && |got| <= size && (at + |got| < |old0| || at + |got| < offset + |buf| ==> |got| == size)
            && forall i | 0 <= i < |got| ::
                  got[i] == if offset <= at + i < offset + |buf| then buf[at + i - offset] else if at + i < |old0| then old0[at + i] else 0
    ensures other != name ==> Read(other, size, at).Result(Write(name, buf, offset).Next(s)) == Read(other, size, at).Result(s)
  {
    var s' := Write(name, buf, offset).Next(s);
    hide Growth;
    ReadReports(s', name, size, at);
    hide Op.Result, Op.Next, Slice;
    assert s'.files[name] == Splice(s.files[name], offset, buf) by {
      SplicedFile(s, name, buf, offset);
    }
  }

  lemma SplicedFile(s: State, name: seq<byte>, buf: seq<byte>, offset: nat)
    requires Write(name, buf, offset).Proper() && Write(name, buf, offset).Room(s) && name in s.files
    ensures Write(name, buf, offset).Next(s).files == s.files[name := Splice(s.files[name], offset, buf)]
  {
    hide Growth, Splice;
  }

  /** Each creation of a run has succeeded or was of an empty file. */
  ghost predicate NoneAbandoned(ops: seq<Op>, outcomes: seq<Outcome>)
    requires |outcomes| == |ops|
  {
    forall i {:trigger ops[i]} | 0 <= i < |ops| && ops[i].Create? :: outcomes[i].success || ops[i].size == 0
  }

  lemma NoneAbandonedSplit(ops: seq<Op>, outcomes: seq<Outcome>)
    requires |outcomes| == |ops| > 0
    ensures NoneAbandoned(ops, outcomes)
        <==> (ops[0].Create? ==> outcomes[0].success || ops[0].size == 0) && NoneAbandoned(ops[1..], outcomes[1..])
  {
    var rest := ops[1..];
    if NoneAbandoned(rest, outcomes[1..]) && (ops[0].Create? ==> outcomes[0].success || ops[0].size == 0) {
      forall i | 0 <= i < |ops| && ops[i].Create?
        ensures outcomes[i].success || ops[i].size == 0
      {
        if i > 0 {
          assert rest[i - 1] == ops[i];
        }
      }
    }
    if NoneAbandoned(ops, outcomes) {
      forall i | 0 <= i < |rest| && rest[i].Create?
        ensures outcomes[1..][i].success || rest[i].size == 0
      {
        assert ops[i + 1] == rest[i];
      }
    }
  }

  /** A run leaks nothing exactly if each creation in it succeeds or is of an empty file; what has leaked before
      stays leaked. */
  lemma {:induction false} NothingLeaks(s: State, ops: seq<Op>)
    requires Roomy(s, ops)
    ensures s.leaked <= After(s, ops).leaked
    ensures After(s, ops).leaked == s.leaked <==> NoneAbandoned(ops, Outcomes(s, ops))
    decreases |ops|
  {
    hide Op.Next, Op.Result, Op.Room, Op.Proper, NoneAbandoned;
    if |ops| == 0 {
      NoOps(Outcomes(s, ops));
      assert ops == [];
    } else {
      NothingLeaks(ops[0].Next(s), ops[1..]);
      LeakOfOne(s, ops[0]);
      NoneAbandonedSplit(ops, Outcomes(s, ops));
    }
  }

  lemma NoOps(outcomes: seq<Outcome>)
    requires |outcomes| == 0
    ensures NoneAbandoned([], outcomes)
  {
  }

  lemma LeakOfOne(s: State, op: Op)
    requires op.Proper() && op.Room(s)
    ensures s.leaked <= op.Next(s).leaked
    ensures op.Next(s).leaked == s.leaked <==> (op.Create? ==> op.Result(s).success || op.size == 0)
  {
    hide FileCost, Growth, Splice, Terminated;
    if op.Create? {
      EmptyFileCost(op.size);
    }
  }

  lemma EmptyFileCost(size: nat)
    ensures FileCost(size) == 0 <==> size == 0
  {
  }

  /** Sectors of all files, inodes included. */
  ghost function Used(files: map<seq<byte>, seq<byte>>): nat {
    if files == map[] then 0
    else
      var name :| name in files;
      1 + FileCost(|files[name]|) + Used(files - {name})
  }

  lemma {:induction false} UsedWithout(files: map<seq<byte>, seq<byte>>, name: seq<byte>)
    requires name in files
    ensures Used(files) == 1 + FileCost(|files[name]|) + Used(files - {name})
    decreases |files|
  {
    hide FileCost;
    var first :| first in files && Used(files) == 1 + FileCost(|files[first]|) + Used(files - {first});
    if first != name {
      UsedWithout(files - {first}, name);
      UsedWithout(files - {name}, first);
      assert files - {first} - {name} == files - {name} - {first};
    }
  }

  lemma UsedWith(files: map<seq<byte>, seq<byte>>, name: seq<byte>, data: seq<byte>)
    ensures Used(files[name := data]) == 1 + FileCost(|data|) + Used(files - {name})
    ensures name !in files ==> files - {name} == files
  {
    hide FileCost;
    UsedWithout(files[name := data], name);
    assert files[name := data] - {name} == files - {name};
  }

  /** All sectors but the free map's: free, leaked, the files' and the root directory's. */
  ghost function Total(s: State): nat {
    s.free + s.leaked + Used(s.files) + FileCost(ENTRY_SIZE * s.slots)
  }

  lemma SplicedConserves(s: State, name: seq<byte>, buf: seq<byte>, offset: nat)
    requires name in s.files ==> Growth(|s.files[name]|, offset + |buf|) <= s.free
    ensures Total(Spliced(s, name, buf, offset)) == Total(s)
  {
    if name in s.files {
      UsedWithout(s.files, name);
      UsedWith(s.files, name, Splice(s.files[name], offset, buf));
      GrowthBetween(|s.files[name]|, offset + |buf|);
      hide InodeCost, BytesToSectors, Growth, Used, Splice;
    }
  }

  lemma EntryConserves(s: State)
    ensures FileCost(ENTRY_SIZE * (s.slots + if s.Full() then 1 else 0)) == FileCost(ENTRY_SIZE * s.slots) + s.EntryCost()
  {
    GrowthBetween(ENTRY_SIZE * s.slots, ENTRY_SIZE * (s.slots + 1));
    hide InodeCost, BytesToSectors, Growth;
  }

  lemma OneConserves(s: State, op: Op)
    requires op.Proper() && op.Room(s)
    ensures Total(op.Next(s)) == Total(s)
  {
    hide FileCost, Growth, Splice, Used, Spliced;
    match op {
      case Create(name, size) =>
        UsedWith(s.files, name, Zeros(size));
        EntryConserves(s);
      case Read(name, size, offset) =>
      case Write(name, buf, offset) => SplicedConserves(s, name, buf, offset);
      case Put(name, buf, offset) => SplicedConserves(s, name, Terminated(buf), offset);
      case Remove(name) =>
        if name in s.files {
          UsedWithout(s.files, name);
        }
    }
  }

  /** No run creates or destroys sectors: what leaves the free list is a file's, the root directory's, or leaked. */
  lemma {:induction false} Conserved(s: State, ops: seq<Op>)
    requires Roomy(s, ops)
    ensures Total(After(s, ops)) == Total(s)
    decreases |ops|
  {
    hide Op.Next, Op.Room, Op.Proper, Total;
    if |ops| > 0 {
      OneConserves(s, ops[0]);
      Conserved(ops[0].Next(s), ops[1..]);
    }
  }

  /** Creating a file and removing it again undoes everything but the growth of a full root directory. */
  lemma CreateRemove(s: State, name: seq<byte>, size: nat)
    requires Create(name, size).Proper() && Create(name, size).Room(s) && s.New(name)
    ensures Roomy(s, [Create(name, size), Remove(name)])
    ensures After(s, [Create(name, size), Remove(name)])
         == s.(free := s.free - s.EntryCost(), slots := s.slots + if s.Full() then 1 else 0)
  {
    var t := Create(name, size).Next(s);
    assert t.files - {name} == s.files;
    var u := Remove(name).Next(t);
    assert |t.files[name]| == size;
    hide FileCost, Growth, Spliced, State.EntryCost;
    assert u == s.(free := s.free - s.EntryCost(), slots := s.slots + if s.Full() then 1 else 0);
    TwoOps(s, Create(name, size), Remove(name));
  }

  lemma TwoOps(s: State, a: Op, b: Op)
    requires a.Proper() && a.Room(s) && b.Proper() && b.Room(a.Next(s))
    ensures Roomy(s, [a, b]) && After(s, [a, b]) == b.Next(a.Next(s))
  {
    hide Op.Next, Op.Room, Op.Proper;
    assert [a, b][1..] == [b] && [b][1..] == [];
    assert Roomy(b.Next(a.Next(s)), []);
    assert Roomy(a.Next(s), [b]) && After(a.Next(s), [b]) == b.Next(a.Next(s));
  }

  /** Every file is nonempty and ends in NUL. */
  ghost predicate AllNul(files: map<seq<byte>, seq<byte>>) {
    forall n | n in files :: |files[n]| > 0 && files[n][|files[n]| - 1] == 0
  }

  /** Operations of a shell: files are created nonempty and written through file_write only. */
  predicate ShellOp(op: Op) {
    (op.Create? ==> op.size > 0) && !op.Write?
  }

  lemma PutKeepsNul(data: seq<byte>, buf: seq<byte>, offset: nat)
    requires |data| > 0 && data[|data| - 1] == 0 && |buf| > 0
    ensures var r := Splice(data, offset, Terminated(buf)); |r| > 0 && r[|r| - 1] == 0
  {
  }

  /** Whatever a shell does, every file ends in NUL. */
  lemma {:induction false} ShellKeepsNul(s: State, ops: seq<Op>)
    requires Roomy(s, ops) && AllNul(s.files) && forall i | 0 <= i < |ops| :: ShellOp(ops[i])
    ensures AllNul(After(s, ops).files)
    decreases |ops|
  {
    hide FileCost, Growth, Splice;
    if |ops| > 0 {
      var op := ops[0];
      if op.Put? && op.name in s.files {
        PutKeepsNul(s.files[op.name], op.buf, op.offset);
      }
      assert AllNul(op.Next(s).files);
      hide AllNul, Op.Next, Op.Room, Op.Proper;
      ShellKeepsNul(op.Next(s), ops[1..]);
    }
  }

  // ---------- the volume ----------

  /** The state of a volume. */
  ghost function StateOf(v: Volume): State
    requires v.Valid()
    reads v, v.fs, v.fs.Repr()
  {
    State(Files(v.table), |v.fs.FreeList()|, NumSlots(v.Root().data), |v.Leaks()|)
  }

  /** What one more entry costs the root directory follows from how many files there are. */
  lemma RootSlots(table: map<nat, File>)
    requires RootOk(table) && |table[ROOT_DIR_SECTOR].data| <= SECTOR_SIZE * MAX_SECTORS
    ensures ROOT_DIR_SECTOR in table && EntryFits(table[ROOT_DIR_SECTOR].data, |Files(table)|, NumSlots(table[ROOT_DIR_SECTOR].data))
  {
    assert Files(table).Keys == RootEntries(table).Keys;
    hide Entries, DirOk, NamesOk, NumSlots;
    SlotsOf(table[ROOT_DIR_SECTOR].data);
  }

  /** The cost of an entry, and whether there can be another, when a directory lists `count` names in `slots` slots. */
  ghost predicate EntryFits(data: seq<byte>, count: nat, slots: nat) {
    && 1 <= slots
    && (if count == slots - 1 then DirGrowth(data) == Growth(ENTRY_SIZE * slots, ENTRY_SIZE * (slots + 1)) && SlotsAfter(data) == slots + 1
        else DirGrowth(data) == 0 && SlotsAfter(data) == slots)
    && (RoomForEntry(data) <==> (count == slots - 1 ==> ENTRY_SIZE * (slots + 1) <= SECTOR_SIZE * MAX_SECTORS))
  }

  lemma SlotsOf(data: seq<byte>)
    requires DirOk(data) && |data| <= SECTOR_SIZE * MAX_SECTORS
    ensures EntryFits(data, |Entries(data)|, NumSlots(data))
  {
    hide Entries, DirOk, Growth, DirGrowth, NumSlots, FirstUnused;
    EntryGrowth(data);
    FullDirectory(data);
    assert ENTRY_SIZE * NumSlots(data) + ENTRY_SIZE == ENTRY_SIZE * (NumSlots(data) + 1);
  }

  /** filesys_create, as a step of a run. */
  method CreateStep(v: Volume, name: seq<byte>, size: nat) returns (success: bool)
    requires v.Valid() && Create(name, size).Proper() && Create(name, size).Room(StateOf(v))
    modifies v`table, v.fs.cache, v.fs.cache.device, v.fs.cache.slots, v.fs.freeMap.words, v.fs`mapBytes
    ensures v.Valid() && StateOf(v) == Create(name, size).Next(old(StateOf(v))) && success == old(StateOf(v)).New(name)
    ensures StateOf(v).slots == old(StateOf(v)).slots ==>
              v.Root().nodes == old(v.Root().nodes)
  {
    hide Cache.Valid, Bitmap.Valid, Bitmap.Bits, Free, VolumeOk, Words, BitsOf, NamesOk, DirOk, Entries, Files, Leaked, RootOk,
         FileSys.MapReady, FileSys.Wf, FileCost, DirGrowth, RoomForEntry, Growth, NumSlots, SlotsAfter, Volume.NotCreated;
    ghost var table0 := v.table;
    FilesAt(table0, name);
    FileThere(v.fs.Disk(), v.fs.Bits(), v.fs.mapNodes, v.fs.mapInode, table0, ROOT_DIR_SECTOR);
    RootSlots(table0);
    success := v.Create(name, size);
  }

  /** filesys_remove, as a step of a run. */
  method RemoveStep(v: Volume, name: seq<byte>) returns (success: bool)
    requires v.Valid() && Remove(name).Proper() && Remove(name).Room(StateOf(v))
    modifies v`table, v.fs.cache, v.fs.cache.device, v.fs.cache.slots, v.fs.freeMap.words, v.fs`mapBytes
    ensures v.Valid() && StateOf(v) == Remove(name).Next(old(StateOf(v))) && success == (name in old(StateOf(v)).files)
    ensures v.Root().nodes == old(v.Root().nodes)
  {
    hide Cache.Valid, Bitmap.Valid, Bitmap.Bits, Free, VolumeOk, Words, BitsOf, NamesOk, DirOk, Entries, Files, Leaked, RootOk,
         FileSys.MapReady, FileSys.Wf, FileCost, NumSlots, PutSlot, Slot, Names, Clear;
    ghost var table0 := v.table;
    FilesAt(table0, name);
    if name in Files(table0) {
      FileThere(v.fs.Disk(), v.fs.Bits(), v.fs.mapNodes, v.fs.mapInode, table0, RootEntries(table0)[name]);
    }
    ghost var i;
    success, i := v.Remove(name);
    if success {
      ErasedSlots(table0[ROOT_DIR_SECTOR].data, i, name);
    } else {
      assert Files(v.table) - {name} == Files(v.table);
    }
  }

  lemma ErasedSlots(data: seq<byte>, i: nat, name: seq<byte>)
    requires Names(data, i, name)
    ensures NumSlots(PutSlot(data, i, Slot(data, i).(inUse := false))) == NumSlots(data)
  {
  }

  /** What a write leaves of the state. */
  lemma WriteCounts(table: map<nat, File>, table': map<nat, File>, name: seq<byte>, length: nat, free: seq<nat>, free': seq<nat>)
    requires RootOk(table) && GrewBy(table, table', name, length, free, free') && name in Files(table)
    ensures Growth(|Files(table)[name]|, length) <= |free| && |free'| == |free| - Growth(|Files(table)[name]|, length)
    ensures ROOT_DIR_SECTOR in table' && table'[ROOT_DIR_SECTOR] == table[ROOT_DIR_SECTOR]
  {
    FilesAt(table, name);
    hide Entries, DirOk, NamesOk, Growth, Files;
  }

  /** file_write_at, as a step of a run. */
  method WriteStep(v: Volume, name: seq<byte>, buf: seq<byte>, offset: nat) returns (success: bool)
    requires v.Valid() && Write(name, buf, offset).Proper() && Write(name, buf, offset).Room(StateOf(v))
    modifies v`table, v.fs.cache, v.fs.cache.device, v.fs.cache.slots, v.fs.freeMap.words, v.fs`mapBytes
    ensures v.Valid() && StateOf(v) == Write(name, buf, offset).Next(old(StateOf(v))) && success == (name in old(StateOf(v)).files)
    ensures v.Root().nodes == old(v.Root().nodes)
  {
    hide Cache.Valid, Bitmap.Valid, Bitmap.Bits, Free, VolumeOk, Words, BitsOf, NamesOk, DirOk, Entries, Files, Leaked, RootOk, GrewBy,
         FileSys.MapReady, FileSys.Wf, Growth, NumSlots, Splice, Volume.Starved;
    ghost var table0, free0 := v.table, v.fs.FreeList();
    FilesAt(table0, name);
    var written := v.WriteAt(name, buf, offset);
    success := written != -1;
    if success {
      WriteCounts(table0, v.table, name, offset + |buf|, free0, v.fs.FreeList());
    }
  }

  /** file_write, as a step of a run. */
  method PutStep(v: Volume, name: seq<byte>, buf: seq<byte>, offset: nat) returns (success: bool)
    requires v.Valid() && Put(name, buf, offset).Proper() && Put(name, buf, offset).Room(StateOf(v))
    modifies v`table, v.fs.cache, v.fs.cache.device, v.fs.cache.slots, v.fs.freeMap.words, v.fs`mapBytes
    ensures v.Valid() && StateOf(v) == Put(name, buf, offset).Next(old(StateOf(v))) && success == (name in old(StateOf(v)).files)
    ensures v.Root().nodes == old(v.Root().nodes)
  {
    hide Cache.Valid, Bitmap.Valid, Bitmap.Bits, Free, VolumeOk, Words, BitsOf, NamesOk, DirOk, Entries, Files, Leaked, RootOk, GrewBy,
         FileSys.MapReady, FileSys.Wf, Growth, NumSlots, Splice, Volume.Starved, Terminated;
    ghost var table0, free0 := v.table, v.fs.FreeList();
    FilesAt(table0, name);
    var written := v.Write(name, buf, offset);
    success := written != -1;
    if success {
      WriteCounts(table0, v.table, name, offset + |buf|, free0, v.fs.FreeList());
    }
  }

  /** Opening, reading and closing a file, as a step of a run. */
  method ReadStep(v: Volume, name: seq<byte>, size: nat, offset: nat) returns (success: bool, data: seq<byte>)
    requires v.Valid() && PlainName(name)
    modifies v.fs.cache`clock, v.fs.cache.device, v.fs.cache.slots
    ensures v.Valid() && StateOf(v) == old(StateOf(v)) && v.Root() == old(v.Root())
    ensures success == (name in StateOf(v).files) && data == if success then Slice(StateOf(v).files[name], offset, size) else []
  {
    hide Cache.Valid, Bitmap.Valid, Bitmap.Bits, Free, VolumeOk, Words, BitsOf, NamesOk, DirOk, Entries, Files, Leaked, RootOk,
         FileSys.MapReady, NumSlots, Slice;
    success, data := v.ReadAt(name, size, offset);
    if !success {
      data := [];
    }
  }

  /** One operation of a run. */
  method Step(v: Volume, op: Op) returns (outcome: Outcome)
    requires v.Valid() && op.Proper() && op.Room(StateOf(v))
    modifies v`table, v.fs.cache, v.fs.cache.device, v.fs.cache.slots, v.fs.freeMap.words, v.fs`mapBytes
    ensures v.Valid() && StateOf(v) == op.Next(old(StateOf(v))) && outcome == op.Result(old(StateOf(v)))
    ensures StateOf(v).slots == old(StateOf(v)).slots ==> v.Root().nodes == old(v.Root().nodes)
  {
    hide Cache.Valid, Bitmap.Valid, Bitmap.Bits, Free, VolumeOk, Words, BitsOf, NamesOk, DirOk, Entries, Files, Leaked, RootOk,
         FileSys.MapReady, FileSys.Wf, FileCost, Growth, NumSlots, Spliced, Terminated, Slice, Zeros;
    var success, data := true, [];
    match op {
      case Create(name, size) => success := CreateStep(v, name, size);
      case Read(name, size, offset) => success, data := ReadStep(v, name, size, offset);
      case Write(name, buf, offset) => success := WriteStep(v, name, buf, offset);
      case Put(name, buf, offset) => success := PutStep(v, name, buf, offset);
      case Remove(name) => success := RemoveStep(v, name);
    }
    outcome := Outcome(success, data);
  }

  /** A run in which every operation has room: files, free sectors, slots and leaked sectors are what the run makes
      of the initial state, and every operation reports what it reports there. */
  method Run(v: Volume, ops: seq<Op>) returns (outcomes: seq<Outcome>)
    requires v.Valid() && Roomy(StateOf(v), ops)
    modifies v`table, v.fs.cache, v.fs.cache.device, v.fs.cache.slots, v.fs.freeMap.words, v.fs`mapBytes
    ensures v.Valid() && StateOf(v) == After(old(StateOf(v)), ops) && outcomes == Outcomes(old(StateOf(v)), ops)
    ensures v.Leaks() == {} <==> old(v.Leaks()) == {} && NoneAbandoned(ops, outcomes)
    ensures StateOf(v).slots == old(StateOf(v)).slots ==> v.Root().nodes == old(v.Root().nodes)
  {
    hide Cache.Valid, Bitmap.Valid, Bitmap.Bits, Free, VolumeOk, Words, BitsOf, NamesOk, DirOk, Entries, Files, Leaked, RootOk,
         FileSys.MapReady, FileSys.Wf, NumSlots, Op.Proper, Op.Room, Op.Next, Op.Result;
    ghost var s0 := StateOf(v);
    outcomes := [];
    var i := 0;
    assert ops[0..] == ops;
    while i < |ops|
      invariant i <= |ops| && v.Valid() && |outcomes| == i
      invariant Roomy(StateOf(v), ops[i..]) && After(StateOf(v), ops[i..]) == After(s0, ops)
      invariant outcomes + Outcomes(StateOf(v), ops[i..]) == Outcomes(s0, ops)
      invariant s0.slots <= StateOf(v).slots
      invariant StateOf(v).slots == s0.slots ==> v.Root().nodes == old(v.Root().nodes)
    {
      ghost var s, before := StateOf(v), outcomes;
      assert ops[i..][0] == ops[i] && ops[i..][1..] == ops[i + 1..];
      SlotsGrow(s, ops[i]);
      var outcome := Step(v, ops[i]);
      outcomes := outcomes + [outcome];
      assert before + ([outcome] + Outcomes(StateOf(v), ops[i + 1..])) == outcomes + Outcomes(StateOf(v), ops[i + 1..]);
      i := i + 1;
    }
    assert ops[i..] == [];
    NothingLeaks(s0, ops);
    assert v.Leaks() == {} <==> |v.Leaks()| == 0;
  }

  lemma SlotsGrow(s: State, op: Op)
    requires op.Proper() && op.Room(s)
    ensures s.slots <= op.Next(s).slots
  {
    hide FileCost, Growth, Splice;
  }

  // ---------- formatting and restarting ----------

  /** A device of `length` sectors can be formatted. */
  predicate Formattable(length: nat) {
    3 <= length && 3 + FormatCost(length - 1) <= length
  }

  /** The state of a newly formatted volume of `length` sectors. */
  function NewState(length: nat): State
    requires Formattable(length)
  {
    State(map[], length - 3 - FormatCost(length - 1), MAX_FILES_IN_DIRECTORY, 0)
  }

  /** filesys_init with formatting: on any device large enough, an empty volume from which nothing leaks. */
  method NewVolume(device: array<Sector>) returns (ok: bool, v: Volume)
    requires 3 <= device.Length <= BITMAP_ERROR && MapFileSize(device.Length - 1) <= SECTOR_SIZE * MAX_SECTORS
    modifies device
    ensures fresh(v) && fresh(v.fs.Repr() - {device}) && v.fs.cache.device == device
    ensures ok <==> Formattable(device.Length)
    ensures ok ==>
              && v.Valid() && StateOf(v) == NewState(device.Length) && v.Leaks() == {}
              && SystemPrefix(v.fs.mapNodes, v.Root().nodes, 2 + |v.fs.mapNodes| + |v.Root().nodes|)
  {
    hide Cache.Valid, Bitmap.Valid, Bitmap.Bits, Free, Stored, StoredBits, Files, RootOk, VolumeOk, FileSys.MapReady, Leaked, SystemPrefix,
         FormatCost, NumSlots;
    v := new Volume(device);
    FreeSuffix(v.fs.Bits(), 2);
    ghost var m;
    ok, m := v.Format();
    if ok {
      v.Mount(m, v.table);
    }
  }

  /** filesys_done and then filesys_init on the same device: the volume is the one it was. */
  method Remount(v: Volume) returns (v': Volume)
    requires v.Valid()
    modifies v.fs, v.fs.cache.device, v.fs.cache.slots
    ensures fresh(v') && v'.Valid() && v'.table == old(v.table)
    ensures StateOf(v') == old(StateOf(v)) && v'.Leaks() == old(v.Leaks())
    ensures v'.fs.Bits() == old(v.fs.Bits()) && v'.fs.mapNodes == old(v.fs.mapNodes)
  {
    hide Cache.Valid, Bitmap.Valid, Bitmap.Bits, Stored, StoredBits, Files, RootOk, VolumeOk, FileSys.MapReady, Leaked, Free, NumSlots;
    ghost var files := v.table;
    assert v.fs.cache.device.Length == v.fs.freeMap.bitCnt + 1 && 3 <= v.fs.cache.device.Length <= BITMAP_ERROR;
    ghost var m := v.Done();
    v' := new Volume(v.fs.cache.device);
    v'.Mount(m, files);
  }
}
