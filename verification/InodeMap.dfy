/** A whole inode: direct pointers, one indirect and one doubly indirect subtree, and the bytes they hold. */
module InodeMap {
  import opened Sectors
  import opened InodeTree

  // ---------- the three ranges ----------

  function Direct(n: nat): nat {
    if n <= DIRECT_BLOCKS then n else DIRECT_BLOCKS
  }

  function Indirect(n: nat): nat {
    if n <= 123 then 0 else if n <= 251 then n - 123 else 128
  }

  function Doubly(n: nat): nat {
    if n <= 251 then 0 else n - 251
  }

  /** Sectors owned by an inode with `n` data sectors, besides its own. */
  function InodeCost(n: nat): nat {
    Direct(n) + Cost(1, Indirect(n)) + Cost(2, Doubly(n))
  }

  function IndirectPart(nodes: seq<nat>, n: nat): seq<nat>
    requires |nodes| == InodeCost(n)
  {
    nodes[Direct(n)..Direct(n) + Cost(1, Indirect(n))]
  }

  function DoublyPart(nodes: seq<nat>, n: nat): seq<nat>
    requires |nodes| == InodeCost(n)
  {
    nodes[Direct(n) + Cost(1, Indirect(n))..]
  }

  /** Position of data sector `q` in the inode's sequence of sectors. */
  function DataPos(q: nat): nat {
    if q < 123 then q else if q < 251 then q + 1 else q + 3 + (q - 251) / 128
  }

  predicate IsData(p: nat) {
    p < 123 || 123 < p < 252 || (p > 252 && (p - 253) % 129 != 0)
  }

  lemma DataPosition(q: nat, n: nat)
    requires q < n
    ensures DataPos(q) < InodeCost(n) && IsData(DataPos(q))
    ensures n <= 123 ==> InodeCost(n) == n
  {
  }

  lemma DataPosIncreasing(q: nat, r: nat)
    requires q < r
    ensures DataPos(q) < DataPos(r)
  {
  }

  /** Closed form of the number of sectors of an inode. */
  lemma InodeCostClosedForm(n: nat)
    ensures InodeCost(n) == n + (if n > 123 then 1 else 0) + (if n > 251 then 1 + (n - 251 + 127) / 128 else 0)
  {
  }

  /** `n` sectors hold `size` bytes, and one fewer does not. */
  predicate LeastSectors(size: nat, n: nat) {
    size <= 512 * n && (n > 0 ==> 512 * (n - 1) < size)
  }

  /** Data sectors and index blocks of an inode with `n` data sectors: the indirect block, the doubly indirect one
      and the blocks under that. */
  function TreeSize(n: nat): nat {
    n + (if n > 123 then 1 else 0) + (if n > 251 then 1 + (n - 251 + 127) / 128 else 0)
  }

  /** Every size has such a number of sectors, and only one. */
  lemma SectorsOfBytes(size: nat, n: nat)
    ensures LeastSectors(size, n) <==> n == BytesToSectors(size)
  {
  }

  /** What a file costs depends on the least number of sectors that hold its bytes. */
  lemma CostOfBytes(size: nat, n: nat)
    requires LeastSectors(size, n)
    ensures InodeCost(BytesToSectors(size)) == TreeSize(n)
  {
    SectorsOfBytes(size, n);
    hide BytesToSectors, LeastSectors;
    InodeCostClosedForm(n);
  }

  lemma InodeCostMonotone(m: nat, n: nat)
    requires m <= n
    ensures InodeCost(m) <= InodeCost(n)
  {
  }

  /** Two neighbouring data sectors of a file are 1, 2 or 3 apart in the inode's sequence;
      3 only on entering the doubly indirect range. */
  lemma DataPosGap(q: nat)
    ensures 1 <= DataPos(q + 1) - DataPos(q) <= 3
    ensures DataPos(q + 1) - DataPos(q) == 3 <==> q + 1 == 251
  {
  }

  ghost predicate InRange(nodes: seq<nat>, limit: nat) {
    forall p | 0 <= p < |nodes| :: 0 < nodes[p] < limit
  }

  /** `nodes` are, in order, the sectors reached from inode `d`, which has `n` data sectors. */
  ghost predicate Maps(disk: seq<Sector>, d: InodeDisk, nodes: seq<nat>, n: nat) {
    && d.Valid() && n <= MAX_SECTORS && |nodes| == InodeCost(n)
    && InRange(nodes, |disk|)
    && (forall i {:trigger d.direct[i]} | 0 <= i < 123 :: d.direct[i] == if i < n then nodes[i] else 0)
    && Sub(disk, 1, d.indirect, IndirectPart(nodes, n), Indirect(n))
    && Sub(disk, 2, d.doubly, DoublyPart(nodes, n), Doubly(n))
  }

  /** Maps reads the disk only at index blocks. */
  lemma MapsFrame(disk: seq<Sector>, disk': seq<Sector>, d: InodeDisk, nodes: seq<nat>, n: nat)
    requires Maps(disk, d, nodes, n) && |disk'| == |disk|
    requires forall p {:trigger nodes[p]} | 0 <= p < |nodes| && !IsData(p) :: disk'[nodes[p]] == disk[nodes[p]]
    ensures Maps(disk', d, nodes, n)
  {
    var ind, dbl := IndirectPart(nodes, n), DoublyPart(nodes, n);
    forall p | 0 <= p < |ind| && !IsLeaf(1, p)
      ensures disk'[ind[p]] == disk[ind[p]]
    {
      assert ind[p] == nodes[Direct(n) + p];
    }
    SubFrame(disk, disk', 1, d.indirect, ind, Indirect(n));
    forall p | 0 <= p < |dbl| && !IsLeaf(2, p)
      ensures disk'[dbl[p]] == disk[dbl[p]]
    {
      assert dbl[p] == nodes[252 + p];
    }
    SubFrame(disk, disk', 2, d.doubly, dbl, Doubly(n));
  }

  // ---------- point lookup ----------

  /** The index blocks on the way to data sector `i` are on the disk. */
  predicate Findable(disk: seq<Sector>, d: InodeDisk, i: nat) {
    && |d.direct| == 123
    && (123 <= i < 251 ==> d.indirect < |disk|)
    && (251 <= i < MAX_SECTORS ==> d.doubly < |disk| && Ptr(disk[d.doubly], (i - 251) / 128) < |disk|)
  }

  /** The sector stored for data sector `i`, as index_to_sector finds it. */
  function Lookup(disk: seq<Sector>, d: InodeDisk, i: nat): nat
    requires Findable(disk, d, i)
  {
    if i < 123 then d.direct[i]
    else if i < 251 then Ptr(disk[d.indirect], i - 123)
    else if i < MAX_SECTORS then Ptr(disk[Ptr(disk[d.doubly], (i - 251) / 128)], (i - 251) % 128)
    else NO_SECTOR
  }

  /** Entries of the blocks of a subtree, by position in its sequence. */
  lemma SubEntry(disk: seq<Sector>, level: nat, e: nat, nodes: seq<nat>, n: nat, i: nat)
    requires 1 <= level <= 2 && Sub(disk, level, e, nodes, n) && Before(level, i) < n
    ensures i < 128 && KidPos(level, n, i) < |nodes| && e < |disk|
    ensures Ptr(disk[e], i) == nodes[KidPos(level, n, i)] && 0 < Ptr(disk[e], i) < |disk|
    ensures SubKid(disk, level, Ptr(disk[e], i), nodes, n, i)
  {
    hide Ptr;
    assert SubKid(disk, level, Ptr(disk[e], i), nodes, n, i);
  }

  /** Point lookup finds data sector `i` at its position in the allocation order. */
  lemma LookupIsNode(disk: seq<Sector>, d: InodeDisk, nodes: seq<nat>, n: nat, i: nat)
    requires Maps(disk, d, nodes, n) && i < n
    ensures Findable(disk, d, i)
    ensures DataPos(i) < |nodes| && Lookup(disk, d, i) == nodes[DataPos(i)] && 0 < nodes[DataPos(i)] < |disk|
  {
    hide Ptr;
    DataPosition(i, n);
    if i < 123 {
      assert d.direct[i] == nodes[i];
    } else if i < 251 {
      SubEntry(disk, 1, d.indirect, IndirectPart(nodes, n), Indirect(n), i - 123);
    } else {
      var dbl, k, j := DoublyPart(nodes, n), (i - 251) / 128, (i - 251) % 128;
      SubEntry(disk, 2, d.doubly, dbl, Doubly(n), k);
      SubEntry(disk, 1, Ptr(disk[d.doubly], k), Kid(dbl, 2, Doubly(n), k), KidNum(2, Doubly(n), k), j);
    }
  }
}
