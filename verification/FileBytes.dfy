/** The bytes of a file, laid over its data sectors and padded with zeros to whole sectors. */
module FileBytes {
  import opened Sectors
  import opened InodeTree
  import opened InodeMap
  import opened InodeGrowth

  /** The sector holding bytes [512 q, 512 q + 512). */
  function DataSector(nodes: seq<nat>, n: nat, q: nat): (s: nat)
    requires |nodes| == InodeCost(n) && q < n
    ensures s in nodes
  {
    DataPosition(q, n);
    nodes[DataPos(q)]
  }

  function ByteAt(data: seq<byte>, i: nat): byte {
    if i < |data| then data[i] else 0
  }

  /** The data sectors hold `data` followed by zeros. */
  ghost predicate Stores(disk: seq<Sector>, nodes: seq<nat>, n: nat, data: seq<byte>) {
    && |data| <= SECTOR_SIZE * n && |nodes| == InodeCost(n) && InRange(nodes, |disk|)
    && forall q, r {:trigger disk[DataSector(nodes, n, q)][r]} | 0 <= q < n && 0 <= r < 512 ::
        disk[DataSector(nodes, n, q)][r] == ByteAt(data, 512 * q + r)
  }

  /** Writing `buf` at `offset`: the old bytes, zeros up to `offset` if need be, then `buf`. */
  function Splice(data: seq<byte>, offset: nat, buf: seq<byte>): (r: seq<byte>)
    ensures |r| == if |data| <= offset + |buf| then offset + |buf| else |data|
  {
    var len := if |data| <= offset + |buf| then offset + |buf| else |data|;
    seq(len, i requires 0 <= i < len => if offset <= i < offset + |buf| then buf[i - offset] else ByteAt(data, i))
  }

  /** Byte by byte: the buffer where it was written, else the old byte, else a zero. The file does not get shorter. */
  lemma SpliceBytes(data: seq<byte>, offset: nat, buf: seq<byte>, i: nat)
    ensures |Splice(data, offset, buf)| >= |data| && |Splice(data, offset, buf)| >= offset + |buf|
    ensures i < |Splice(data, offset, buf)| ==> i < |data| || i < offset + |buf|
    ensures offset <= i < offset + |buf| ==> Splice(data, offset, buf)[i] == buf[i - offset]
    ensures i < |data| && !(offset <= i < offset + |buf|) ==> Splice(data, offset, buf)[i] == data[i]
    ensures |data| <= i < offset && i < |Splice(data, offset, buf)| ==> Splice(data, offset, buf)[i] == 0
  {
  }

  /** Overwriting all of a file leaves the buffer. */
  lemma SpliceAll(data: seq<byte>, buf: seq<byte>)
    requires |buf| == |data|
    ensures Splice(data, 0, buf) == buf
  {
  }

  /** The stretch written holds the buffer; a stretch of the old bytes before or after it is unchanged. */
  lemma SpliceSlice(data: seq<byte>, offset: nat, buf: seq<byte>, a: nat, b: nat)
    requires a <= b
    ensures a == offset && b == offset + |buf| ==> b <= |Splice(data, offset, buf)| && Splice(data, offset, buf)[a..b] == buf
    ensures b <= |data| && (b <= offset || offset + |buf| <= a) ==>
              b <= |Splice(data, offset, buf)| && Splice(data, offset, buf)[a..b] == data[a..b]
  {
    var r := Splice(data, offset, buf);
    forall i {:trigger r[i]} | a <= i < b <= |r|
      ensures offset <= i < offset + |buf| ==> r[i] == buf[i - offset]
      ensures !(offset <= i < offset + |buf|) && i < |data| ==> r[i] == data[i]
    {
    }
    hide Splice;
    if a == offset && b == offset + |buf| {
      assert r[a..b] == buf;
    } else if b <= |data| && (b <= offset || offset + |buf| <= a) {
      assert r[a..b] == data[a..b];
    }
  }

  /** A file padded with zeros to a given length. */
  function ZeroPadded(data: seq<byte>, length: nat): (r: seq<byte>)
    ensures |data| <= length ==> |r| == length
  {
    Splice(data, length, [])
  }

  /** Padding first makes no difference to what is written. */
  lemma PadThenSplice(data: seq<byte>, offset: nat, buf: seq<byte>)
    requires |data| <= offset + |buf|
    ensures Splice(ZeroPadded(data, offset + |buf|), offset, buf) == Splice(data, offset, buf)
  {
  }

  lemma StoresPadded(disk: seq<Sector>, nodes: seq<nat>, n: nat, data: seq<byte>, len: nat)
    requires Stores(disk, nodes, n, data) && |data| <= len <= 512 * n
    ensures Stores(disk, nodes, n, ZeroPadded(data, len))
  {
    forall q, r {:trigger disk[DataSector(nodes, n, q)][r]} | 0 <= q < n && 0 <= r < 512
      ensures disk[DataSector(nodes, n, q)][r] == ByteAt(ZeroPadded(data, len), 512 * q + r)
    {
      assert ByteAt(ZeroPadded(data, len), 512 * q + r) == ByteAt(data, 512 * q + r);
    }
  }

  lemma DataSectorsDistinct(nodes: seq<nat>, n: nat, q: nat, r: nat)
    requires |nodes| == InodeCost(n) && q < n && r < n && q != r && Distinct(nodes)
    ensures DataSector(nodes, n, q) != DataSector(nodes, n, r)
  {
    DataPosition(q, n);
    DataPosition(r, n);
    DataPosIncreasing(if q < r then q else r, if q < r then r else q);
  }

  /** Extending an inode keeps the bytes and adds zeros. */
  lemma StoresExtended(disk: seq<Sector>, disk': seq<Sector>, d: InodeDisk, nodes: seq<nat>, added: seq<nat>,
                       m: nat, n: nat, data: seq<byte>, log: seq<nat>)
    requires Stores(disk, nodes, m, data) && m <= n
    requires Extended(disk, disk', d, nodes, added, n, log)
    ensures Stores(disk', nodes + added, n, data)
  {
    var all := nodes + added;
    forall q, r {:trigger disk'[DataSector(all, n, q)][r]} | 0 <= q < n && 0 <= r < 512
      ensures disk'[DataSector(all, n, q)][r] == ByteAt(data, 512 * q + r)
    {
      var p := DataPos(q);
      DataPosition(q, n);
      hide Maps;
      assert DataSector(all, n, q) == all[p];
      if q < m {
        DataPosition(q, m);
        assert all[p] == nodes[p] == DataSector(nodes, m, q);
        assert disk[DataSector(nodes, m, q)][r] == ByteAt(data, 512 * q + r);
      } else {
        DataPosBeyond(q, m);
        assert p >= |nodes|;
      }
    }
  }

  lemma DataPosBeyond(q: nat, m: nat)
    requires m <= q
    ensures InodeCost(m) <= DataPos(q)
  {
  }

  /** What a successful inode_reserve means for point lookup: every index below the new sector count finds a
      sector in use of its own; the earlier ones find what they found, with its contents, the new ones zeros. */
  lemma ReservedLookups(disk: seq<Sector>, disk': seq<Sector>, d: InodeDisk, d': InodeDisk, nodes: seq<nat>, added: seq<nat>,
                        m: nat, n: nat, log: seq<nat>, q: nat)
    requires Maps(disk, d, nodes, m) && Extended(disk, disk', d', nodes, added, n, log) && m <= n && Fits(disk, nodes + added, log)
    requires q < n
    ensures Findable(disk', d', q)
    ensures Lookup(disk', d', q) == DataSector(nodes + added, n, q) && 0 < Lookup(disk', d', q) < |disk|
    ensures forall r: nat | r < n && r != q :: DataSector(nodes + added, n, r) != Lookup(disk', d', q)
    ensures q < m ==>
              && Findable(disk, d, q)
              && Lookup(disk', d', q) == Lookup(disk, d, q) && disk'[Lookup(disk', d', q)] == disk[Lookup(disk, d, q)]
    ensures q >= m ==> Lookup(disk', d', q) in added && disk'[Lookup(disk', d', q)] == ZeroSector()
  {
    hide Ptr, Lookup, Sub, Findable;
    var all := nodes + added;
    LookupIsNode(disk', d', all, n, q);
    DataPosition(q, n);
    forall r: nat | r < n && r != q
      ensures DataSector(all, n, r) != DataSector(all, n, q)
    {
      DataSectorsDistinct(all, n, r, q);
    }
    if q < m {
      DataPosition(q, m);
      LookupIsNode(disk, d, nodes, m, q);
      assert all[DataPos(q)] == nodes[DataPos(q)];
    } else {
      DataPosBeyond(q, m);
      assert all[DataPos(q)] == added[DataPos(q) - |nodes|];
    }
  }

  lemma ExtendedWritten(disk0: seq<Sector>, disk1: seq<Sector>, d: InodeDisk, nodes: seq<nat>, added: seq<nat>,
                        m: nat, n: nat, data: seq<byte>, length: nat, sector: nat, log: seq<nat>)
    requires Stores(disk0, nodes, m, data) && m <= n && |data| <= length <= 512 * n && length < WORD_LIMIT
    requires Extended(disk0, disk1, d, nodes, added, n, log)
    requires sector < |disk0| && sector !in nodes + added
    ensures d.Valid() && d.(length := length).Valid()
    ensures Maps(disk1[sector := EncodeInode(d.(length := length))], d.(length := length), nodes + added, n)
    ensures Stores(disk1[sector := EncodeInode(d.(length := length))], nodes + added, n, ZeroPadded(data, length))
    ensures DecodeInode(disk1[sector := EncodeInode(d.(length := length))][sector]) == d.(length := length)
    ensures SameExcept(disk0, disk1[sector := EncodeInode(d.(length := length))], nodes + added + [sector], log)
  {
    var d', all := d.(length := length), nodes + added;
    var disk2 := disk1[sector := EncodeInode(d')];
    StoresExtended(disk0, disk1, d, nodes, added, m, n, data, log);
    StoresPadded(disk1, all, n, data, length);
    MapsFrame(disk1, disk2, d, all, n);
    StoresFrame(disk1, disk2, all, n, ZeroPadded(data, length));
    InodeRoundTrip(d');
    hide Maps, Stores, EncodeInode, DecodeInode;
    forall s | 0 <= s < |disk0| && s !in all + [sector] && s !in log
      ensures disk2[s] == disk0[s]
    {
      assert s !in all;
      assert disk1[s] == disk0[s];
    }
  }

  /** Stores reads only the inode's sectors. */
  lemma StoresFrame(disk: seq<Sector>, disk': seq<Sector>, nodes: seq<nat>, n: nat, data: seq<byte>)
    requires Stores(disk, nodes, n, data) && |disk'| == |disk|
    requires forall s | s in nodes && s < |disk| :: disk'[s] == disk[s]
    ensures Stores(disk', nodes, n, data)
  {
    forall q, r {:trigger disk'[DataSector(nodes, n, q)][r]} | 0 <= q < n && 0 <= r < 512
      ensures disk'[DataSector(nodes, n, q)][r] == ByteAt(data, 512 * q + r)
    {
      assert disk[DataSector(nodes, n, q)][r] == ByteAt(data, 512 * q + r);
    }
  }

  /** Inode `d` maps the sectors `nodes`, which hold the bytes `data`. */
  ghost predicate Holds(disk: seq<Sector>, d: InodeDisk, nodes: seq<nat>, data: seq<byte>) {
    && d.Valid() && d.length == |data|
    && Maps(disk, d, nodes, BytesToSectors(|data|))
    && Stores(disk, nodes, BytesToSectors(|data|), data)
  }

  /** Sector `s` holds bytes [512 q, 512 q + 512) of `data`, zeros beyond its end. */
  ghost predicate SectorHolds(s: Sector, data: seq<byte>, q: nat) {
    forall r {:trigger s[r]} | 0 <= r < 512 :: s[r] == ByteAt(data, 512 * q + r)
  }

  /** What reading needs of an inode: looking up each data sector finds a stretch of `data`. */
  ghost predicate Reads(disk: seq<Sector>, d: InodeDisk, data: seq<byte>) {
    && d.length == |data| && BytesToSectors(|data|) <= MAX_SECTORS
    && forall q {:trigger Findable(disk, d, q)} | 0 <= q < BytesToSectors(|data|) ::
        Findable(disk, d, q) && Lookup(disk, d, q) < |disk| && SectorHolds(disk[Lookup(disk, d, q)], data, q)
  }

  lemma FoundAt(disk: seq<Sector>, d: InodeDisk, nodes: seq<nat>, n: nat, q: nat)
    requires Maps(disk, d, nodes, n) && q < n
    ensures Findable(disk, d, q) && |nodes| == InodeCost(n) && Lookup(disk, d, q) == DataSector(nodes, n, q) && 0 < Lookup(disk, d, q) < |disk|
  {
    LookupIsNode(disk, d, nodes, n, q);
    hide Sub, Lookup, Findable;
  }

  /** A file in order can be read. */
  lemma HoldsReads(disk: seq<Sector>, d: InodeDisk, nodes: seq<nat>, data: seq<byte>)
    requires Holds(disk, d, nodes, data)
    ensures Reads(disk, d, data)
  {
    var n := BytesToSectors(|data|);
    forall q | 0 <= q < n
      ensures Findable(disk, d, q) && Lookup(disk, d, q) < |disk| && SectorHolds(disk[Lookup(disk, d, q)], data, q)
    {
      FoundAt(disk, d, nodes, n, q);
      hide Maps, Findable, Lookup, InodeCost, DataSector;
      forall r | 0 <= r < 512
        ensures disk[Lookup(disk, d, q)][r] == ByteAt(data, 512 * q + r)
      {
        assert disk[DataSector(nodes, n, q)][r] == ByteAt(data, 512 * q + r);
      }
    }
  }

  /** Byte `i` of a file lies in the sector point lookup finds for it, at the place `i` has in that sector. */
  lemma ByteOnDisk(disk: seq<Sector>, d: InodeDisk, data: seq<byte>, i: nat)
    requires Reads(disk, d, data) && i < |data|
    ensures Findable(disk, d, i / 512) && Lookup(disk, d, i / 512) < |disk|
    ensures disk[Lookup(disk, d, i / 512)][i % 512] == data[i]
  {
    hide Lookup;
    assert Findable(disk, d, i / 512);
    hide Findable;
    assert SectorHolds(disk[Lookup(disk, d, i / 512)], data, i / 512);
    assert 512 * (i / 512) + i % 512 == i;
  }

  /** The bytes looked up are a stretch of the file. */
  lemma ReadStretch(disk: seq<Sector>, d: InodeDisk, data: seq<byte>, q: nat, ofs: nat, chunk: nat)
    requires Reads(disk, d, data) && q < BytesToSectors(|data|) && ofs + chunk <= 512 && 512 * q + ofs + chunk <= |data|
    ensures Findable(disk, d, q) && Lookup(disk, d, q) < |disk|
    ensures disk[Lookup(disk, d, q)][ofs..ofs + chunk] == data[512 * q + ofs..512 * q + ofs + chunk]
  {
    hide Lookup;
    assert Findable(disk, d, q);
    var s := disk[Lookup(disk, d, q)];
    assert SectorHolds(s, data, q);
    hide Findable, Reads;
    forall i {:trigger s[ofs..ofs + chunk][i]} | 0 <= i < chunk
      ensures s[ofs..ofs + chunk][i] == data[512 * q + ofs..512 * q + ofs + chunk][i]
    {
      assert s[ofs + i] == ByteAt(data, 512 * q + (ofs + i));
    }
  }

  lemma HoldsLength(disk: seq<Sector>, d: InodeDisk, nodes: seq<nat>, data: seq<byte>)
    requires Holds(disk, d, nodes, data)
    ensures d.length == |data|
  {
  }

  /** A file whose sectors are left alone keeps its bytes. */
  lemma HoldsFrame(disk: seq<Sector>, disk': seq<Sector>, d: InodeDisk, nodes: seq<nat>, data: seq<byte>, own: seq<nat>, log: seq<nat>)
    requires Holds(disk, d, nodes, data) && SameExcept(disk, disk', own, log)
    requires forall s | s in nodes :: s !in own && s !in log
    ensures Holds(disk', d, nodes, data)
  {
    var n := BytesToSectors(|data|);
    forall p {:trigger nodes[p]} | 0 <= p < |nodes|
      ensures disk'[nodes[p]] == disk[nodes[p]]
    {
      assert nodes[p] in nodes;
    }
    MapsFrame(disk, disk', d, nodes, n);
    StoresFrame(disk, disk', nodes, n, data);
  }

  /** A file's inode in sector `sector` and everything it reaches. */
  ghost predicate FileAt(disk: seq<Sector>, sector: nat, d: InodeDisk, nodes: seq<nat>, data: seq<byte>) {
    sector < |disk| && DecodeInode(disk[sector]) == d && Holds(disk, d, nodes, data)
  }

  /** A file outside what was written is still there. */
  lemma FileFrame(disk: seq<Sector>, disk': seq<Sector>, sector: nat, d: InodeDisk, nodes: seq<nat>, data: seq<byte>,
                  own: seq<nat>, log: seq<nat>)
    requires FileAt(disk, sector, d, nodes, data) && SameExcept(disk, disk', own, log)
    requires forall s | s in [sector] + nodes :: s !in own && s !in log
    ensures FileAt(disk', sector, d, nodes, data)
  {
    hide Holds, DecodeInode;
    assert sector in [sector] + nodes;
    assert forall s | s in nodes :: s in [sector] + nodes;
    HoldsFrame(disk, disk', d, nodes, data, own, log);
  }

  /** A file has gone from inode `d0` to `d` with bytes `data`, taking the first `k` free sectors. */
  ghost predicate Regrown(disk0: seq<Sector>, disk: seq<Sector>, free0: seq<nat>, free: seq<nat>, sector: nat,
                          d0: InodeDisk, d: InodeDisk, nodes: seq<nat>, added: seq<nat>, k: nat, data: seq<byte>, log: seq<nat>) {
    && k <= |free0| && added == free0[..k] && free == free0[k..]
    && Holds(disk, d, nodes + added, data) && d.isDir == d0.isDir
    && sector < |disk| && DecodeInode(disk[sector]) == d
    && SameExcept(disk0, disk, nodes + added + [sector], log)
  }

  /** What a step from one file to another leaves. */
  lemma RegrownFile(disk0: seq<Sector>, disk: seq<Sector>, free0: seq<nat>, free: seq<nat>, sector: nat,
                    d0: InodeDisk, d: InodeDisk, nodes: seq<nat>, added: seq<nat>, k: nat, data: seq<byte>, log: seq<nat>)
    requires Regrown(disk0, disk, free0, free, sector, d0, d, nodes, added, k, data, log)
    ensures FileAt(disk, sector, d, nodes + added, data) && d.isDir == d0.isDir
    ensures SameExcept(disk0, disk, nodes + added + [sector], log)
    ensures k <= |free0| && added == free0[..k] && free == free0[k..]
  {
    hide Holds, SameExcept, DecodeInode;
  }

  /** Two such steps one after the other. */
  lemma RegrownTrans(disk0: seq<Sector>, disk1: seq<Sector>, disk2: seq<Sector>, free0: seq<nat>, free1: seq<nat>, free2: seq<nat>,
                     sector: nat, d0: InodeDisk, d1: InodeDisk, d2: InodeDisk, nodes: seq<nat>, a: seq<nat>, b: seq<nat>, k: nat, l: nat,
                     data1: seq<byte>, data2: seq<byte>, log: seq<nat>)
    requires Regrown(disk0, disk1, free0, free1, sector, d0, d1, nodes, a, k, data1, log)
    requires Regrown(disk1, disk2, free1, free2, sector, d1, d2, nodes + a, b, l, data2, log)
    ensures Regrown(disk0, disk2, free0, free2, sector, d0, d2, nodes, a + b, k + l, data2, log)
  {
    hide Holds, DecodeInode, SameExcept;
    assert nodes + (a + b) == nodes + a + b;
    assert free0[..k + l] == a + b;
    assert free0[k..][l..] == free0[k + l..];
    SameExceptWiden(disk0, disk1, nodes + a + [sector], nodes + a + b + [sector], log);
    SameExceptChain(disk0, disk1, disk2, nodes + a + b + [sector], nodes + a + b + [sector], log);
  }

  /** Writing within a file. */
  lemma HoldsWritten(disk0: seq<Sector>, disk: seq<Sector>, d: InodeDisk, nodes: seq<nat>, data: seq<byte>, buf: seq<byte>, offset: nat)
    requires Holds(disk0, d, nodes, data) && (|buf| > 0 ==> offset + |buf| <= |data|)
    requires Written(disk0, disk, nodes, BytesToSectors(|data|), buf, offset, offset + |buf|)
    ensures Holds(disk, d, nodes, if |buf| == 0 then data else Splice(data, offset, buf))
    ensures SameExcept(disk0, disk, nodes, [])
  {
    var n := BytesToSectors(|data|);
    WrittenMaps(disk0, disk, d, nodes, n, buf, offset, offset + |buf|);
    if |buf| > 0 {
      WrittenStores(disk0, disk, nodes, n, data, buf, offset);
    } else {
      forall q, r {:trigger disk[DataSector(nodes, n, q)][r]} | 0 <= q < n && 0 <= r < 512
        ensures disk[DataSector(nodes, n, q)][r] == ByteAt(data, 512 * q + r)
      {
        assert disk0[DataSector(nodes, n, q)][r] == ByteAt(data, 512 * q + r);
      }
    }
  }

  /** The same step with other bytes written in the end. */
  lemma RegrownAgain(disk0: seq<Sector>, disk1: seq<Sector>, disk2: seq<Sector>, free0: seq<nat>, free: seq<nat>, sector: nat,
                     d0: InodeDisk, d: InodeDisk, nodes: seq<nat>, added: seq<nat>, k: nat,
                     data1: seq<byte>, data2: seq<byte>, log: seq<nat>)
    requires Regrown(disk0, disk1, free0, free, sector, d0, d, nodes, added, k, data1, log) && sector !in nodes + added
    requires Holds(disk2, d, nodes + added, data2) && SameExcept(disk1, disk2, nodes + added, [])
    ensures Regrown(disk0, disk2, free0, free, sector, d0, d, nodes, added, k, data2, log)
  {
    assert disk2[sector] == disk1[sector];
    hide Holds, SameExcept, DecodeInode;
    SameExceptTrans(disk0, disk1, disk2, nodes + added + [sector], nodes + added, log);
  }

  /** Extending a file and then writing into it. */
  lemma RegrownWritten(disk0: seq<Sector>, disk1: seq<Sector>, disk2: seq<Sector>, free0: seq<nat>, free: seq<nat>, sector: nat,
                       d0: InodeDisk, d: InodeDisk, nodes: seq<nat>, added: seq<nat>, k: nat,
                       data: seq<byte>, buf: seq<byte>, offset: nat, log: seq<nat>)
    requires |data| <= offset + |buf| && sector !in nodes + added
    requires Regrown(disk0, disk1, free0, free, sector, d0, d, nodes, added, k, ZeroPadded(data, offset + |buf|), log)
    requires Written(disk1, disk2, nodes + added, BytesToSectors(offset + |buf|), buf, offset, offset + |buf|)
    ensures Regrown(disk0, disk2, free0, free, sector, d0, d, nodes, added, k, Splice(data, offset, buf), log)
  {
    hide Holds, Written, SameExcept, Regrown, FileAt, BytesToSectors, Splice, ZeroPadded;
    var padded := ZeroPadded(data, offset + |buf|);
    RegrownFile(disk0, disk1, free0, free, sector, d0, d, nodes, added, k, padded, log);
    FileHolds(disk1, sector, d, nodes + added, padded);
    PaddedLength(data, offset + |buf|);
    assert |buf| == 0 ==> buf == [];
    HoldsWritten(disk1, disk2, d, nodes + added, padded, buf, offset);
    PadThenSplice(data, offset, buf);
    RegrownAgain(disk0, disk1, disk2, free0, free, sector, d0, d, nodes, added, k, padded, Splice(data, offset, buf), log);
  }

  lemma FileHolds(disk: seq<Sector>, sector: nat, d: InodeDisk, nodes: seq<nat>, data: seq<byte>)
    requires FileAt(disk, sector, d, nodes, data)
    ensures Holds(disk, d, nodes, data)
  {
  }

  lemma PaddedLength(data: seq<byte>, length: nat)
    requires |data| <= length
    ensures |ZeroPadded(data, length)| == length && Splice(data, length, []) == ZeroPadded(data, length)
  {
  }

  lemma SameExceptTrans(disk0: seq<Sector>, disk1: seq<Sector>, disk2: seq<Sector>, a: seq<nat>, b: seq<nat>, log: seq<nat>)
    requires SameExcept(disk0, disk1, a, log) && SameExcept(disk1, disk2, b, []) && forall s | s in b :: s in a
    ensures SameExcept(disk0, disk2, a, log)
  {
    forall s | 0 <= s < |disk0| && s !in a && s !in log
      ensures disk2[s] == disk0[s]
    {
      assert disk1[s] == disk0[s];
    }
  }

  // ---------- the write loop ----------

  /** Bytes [lo, hi) have been written; no other byte and no index block has changed. */
  ghost predicate Written(disk0: seq<Sector>, disk: seq<Sector>, nodes: seq<nat>, n: nat, buf: seq<byte>, lo: nat, hi: nat)
  {
    && |disk| == |disk0| && |nodes| == InodeCost(n) && InRange(nodes, |disk|) && lo <= hi <= lo + |buf|
    && SameExcept(disk0, disk, nodes, [])
    && (forall p {:trigger nodes[p]} | 0 <= p < |nodes| && !IsData(p) :: disk[nodes[p]] == disk0[nodes[p]])
    && forall q, r {:trigger disk[DataSector(nodes, n, q)][r]} | 0 <= q < n && 0 <= r < 512 ::
        disk[DataSector(nodes, n, q)][r] == if lo <= 512 * q + r < hi then buf[512 * q + r - lo] else disk0[DataSector(nodes, n, q)][r]
  }

  /** `s` with `part` copied over it from `at` on: the bounce buffer. */
  function Overlay(s: Sector, at: nat, part: seq<byte>): (r: Sector)
    requires at + |part| <= 512
    ensures forall i | 0 <= i < 512 :: r[i] == if at <= i < at + |part| then part[i - at] else s[i]
  {
    s[..at] + part + s[at + |part|..]
  }

  /** One iteration of the loop of inode_write_at. */
  lemma WriteStep(disk0: seq<Sector>, disk: seq<Sector>, nodes: seq<nat>, n: nat, buf: seq<byte>, lo: nat, hi: nat, chunk: nat)
    requires Written(disk0, disk, nodes, n, buf, lo, hi) && Distinct(nodes)
    requires hi / 512 < n && hi % 512 + chunk <= 512 && hi + chunk <= lo + |buf|
    ensures Written(disk0,
                    disk[DataSector(nodes, n, hi / 512) :=
                         Overlay(disk[DataSector(nodes, n, hi / 512)], hi % 512, buf[hi - lo..hi - lo + chunk])],
                    nodes, n, buf, lo, hi + chunk)
  {
    var k, ofs := hi / 512, hi % 512;
    var sector := DataSector(nodes, n, k);
    var disk' := disk[sector := Overlay(disk[sector], ofs, buf[hi - lo..hi - lo + chunk])];
    DataPosition(k, n);
    forall p {:trigger nodes[p]} | 0 <= p < |nodes| && !IsData(p)
      ensures disk'[nodes[p]] == disk0[nodes[p]]
    {
      assert p != DataPos(k);
    }
    forall q, r {:trigger disk'[DataSector(nodes, n, q)][r]} | 0 <= q < n && 0 <= r < 512
      ensures disk'[DataSector(nodes, n, q)][r] ==
              if lo <= 512 * q + r < hi + chunk then buf[512 * q + r - lo] else disk0[DataSector(nodes, n, q)][r]
    {
      hide DataPos, InodeCost, IsData;
      assert disk[DataSector(nodes, n, q)][r] ==
             if lo <= 512 * q + r < hi then buf[512 * q + r - lo] else disk0[DataSector(nodes, n, q)][r];
      if q != k {
        DataSectorsDistinct(nodes, n, q, k);
      }
    }
  }

  /** The loop does not touch the index tree. */
  lemma WrittenMaps(disk0: seq<Sector>, disk: seq<Sector>, d: InodeDisk, nodes: seq<nat>, n: nat, buf: seq<byte>, lo: nat, hi: nat)
    requires Maps(disk0, d, nodes, n) && Written(disk0, disk, nodes, n, buf, lo, hi)
    ensures Maps(disk, d, nodes, n)
  {
    MapsFrame(disk0, disk, d, nodes, n);
  }

  lemma WrittenRefl(disk: seq<Sector>, nodes: seq<nat>, n: nat, buf: seq<byte>, lo: nat)
    requires |nodes| == InodeCost(n) && InRange(nodes, |disk|)
    ensures Written(disk, disk, nodes, n, buf, lo, lo)
  {
  }

  lemma NothingWrittenYet(disk: seq<Sector>, d: InodeDisk, nodes: seq<nat>, data: seq<byte>, buf: seq<byte>, lo: nat)
    requires Holds(disk, d, nodes, data)
    ensures d.length == |data| && Maps(disk, d, nodes, BytesToSectors(|data|))
    ensures Written(disk, disk, nodes, BytesToSectors(|data|), buf, lo, lo)
  {
    hide Maps;
    WrittenRefl(disk, nodes, BytesToSectors(|data|), buf, lo);
  }

  /** The loop as a whole splices the buffer into the file. */
  lemma WrittenStores(disk0: seq<Sector>, disk: seq<Sector>, nodes: seq<nat>, n: nat, data: seq<byte>, buf: seq<byte>, lo: nat)
    requires Stores(disk0, nodes, n, data) && lo + |buf| <= 512 * n
    requires Written(disk0, disk, nodes, n, buf, lo, lo + |buf|)
    ensures Stores(disk, nodes, n, Splice(data, lo, buf))
  {
    hide InodeCost, IsData, DataSector;
    forall q, r {:trigger disk[DataSector(nodes, n, q)][r]} | 0 <= q < n && 0 <= r < 512
      ensures disk[DataSector(nodes, n, q)][r] == ByteAt(Splice(data, lo, buf), 512 * q + r)
    {
      assert disk0[DataSector(nodes, n, q)][r] == ByteAt(data, 512 * q + r);
    }
  }
}
