/** What inode_reserve leaves behind when it runs out of free sectors half-way (a3/fs/inode.c:360-447). */
module OutOfSpace {
  import opened Sectors
  import opened InodeTree
  import opened InodeMap
  import opened InodeGrowth
  import opened FileBytes

  // ---------- what is never lost ----------

  /** Pointers of an index block that were set keep their values. */
  ghost predicate PtrsKept(ptrs: seq<nat>, ptrs': seq<nat>) {
    |ptrs'| == |ptrs| && forall i {:trigger ptrs'[i]} | 0 <= i < |ptrs| && ptrs[i] != 0 :: ptrs'[i] == ptrs[i]
  }

  /** A data sector keeps its contents, an index block the pointers it had. */
  ghost predicate SectorKept(disk: seq<Sector>, disk': seq<Sector>, s: nat, leaf: bool) {
    s < |disk| && s < |disk'| ==>
      if leaf then disk'[s] == disk[s] else PtrsKept(DecodePtrs(disk[s]), DecodePtrs(disk'[s]))
  }

  ghost predicate TreeKept(disk: seq<Sector>, disk': seq<Sector>, level: nat, nodes: seq<nat>) {
    |disk'| == |disk| && forall p {:trigger nodes[p]} | 0 <= p < |nodes| :: SectorKept(disk, disk', nodes[p], IsLeaf(level, p))
  }

  ghost predicate FileKept(disk: seq<Sector>, disk': seq<Sector>, nodes: seq<nat>) {
    |disk'| == |disk| && forall p {:trigger nodes[p]} | 0 <= p < |nodes| :: SectorKept(disk, disk', nodes[p], IsData(p))
  }

  lemma PtrsKeptTrans(a: seq<nat>, b: seq<nat>, c: seq<nat>)
    requires PtrsKept(a, b) && PtrsKept(b, c)
    ensures PtrsKept(a, c)
  {
    forall i | 0 <= i < |a| && a[i] != 0
      ensures c[i] == a[i]
    {
      assert b[i] == a[i];
    }
  }

  lemma SectorKeptTrans(disk0: seq<Sector>, disk1: seq<Sector>, disk2: seq<Sector>, s: nat, leaf: bool)
    requires |disk0| == |disk1| == |disk2| && SectorKept(disk0, disk1, s, leaf) && SectorKept(disk1, disk2, s, leaf)
    ensures SectorKept(disk0, disk2, s, leaf)
  {
    hide DecodePtrs, PtrsKept;
    if s < |disk0| && !leaf {
      PtrsKeptTrans(DecodePtrs(disk0[s]), DecodePtrs(disk1[s]), DecodePtrs(disk2[s]));
    }
  }

  lemma TreeKeptTrans(disk0: seq<Sector>, disk1: seq<Sector>, disk2: seq<Sector>, level: nat, nodes: seq<nat>)
    requires TreeKept(disk0, disk1, level, nodes) && TreeKept(disk1, disk2, level, nodes)
    ensures TreeKept(disk0, disk2, level, nodes)
  {
    hide SectorKept;
    forall p {:trigger nodes[p]} | 0 <= p < |nodes|
      ensures SectorKept(disk0, disk2, nodes[p], IsLeaf(level, p))
    {
      SectorKeptTrans(disk0, disk1, disk2, nodes[p], IsLeaf(level, p));
    }
  }

  lemma FileKeptTrans(disk0: seq<Sector>, disk1: seq<Sector>, disk2: seq<Sector>, nodes: seq<nat>)
    requires FileKept(disk0, disk1, nodes) && FileKept(disk1, disk2, nodes)
    ensures FileKept(disk0, disk2, nodes)
  {
    hide SectorKept, IsData;
    forall p {:trigger nodes[p]} | 0 <= p < |nodes|
      ensures SectorKept(disk0, disk2, nodes[p], IsData(p))
    {
      SectorKeptTrans(disk0, disk1, disk2, nodes[p], IsData(p));
    }
  }

  /** Sectors that are not written are kept. */
  lemma Untouched(disk: seq<Sector>, disk': seq<Sector>, level: nat, nodes: seq<nat>, own: seq<nat>, log: seq<nat>)
    requires SameExcept(disk, disk', own, log) && forall s | s in nodes :: s !in own && s !in log
    ensures TreeKept(disk, disk', level, nodes) && FileKept(disk, disk', nodes)
  {
    hide IsData, IsLeaf, DecodePtrs;
    forall p {:trigger nodes[p]} | 0 <= p < |nodes|
      ensures nodes[p] < |disk| ==> disk'[nodes[p]] == disk[nodes[p]]
    {
      assert nodes[p] in nodes;
    }
  }

  /** A stretch of `all` is kept by itself, the rest is not written: all of it is kept. */
  lemma StretchKept(disk: seq<Sector>, disk': seq<Sector>, level: nat, had: nat, i: nat, nodes: seq<nat>, free: seq<nat>, t: nat, u: nat,
                    lost: seq<nat>, log: seq<nat>)
    requires 1 <= level <= 2 && had <= Capacity(level) && |nodes| == Cost(level, had) && i < 128
    requires KidPos(level, had, i) <= KidPos(level, had, i + 1) <= |nodes|
    requires Fits(disk, nodes + free, log) && t <= u <= |free| && (lost == [] || lost == [0])
    requires TreeKept(disk, disk', level - 1, Kid(nodes, level, had, i))
    requires SameExcept(disk, disk', Kid(nodes, level, had, i) + free[t..u] + lost, log)
    ensures TreeKept(disk, disk', level, nodes)
  {
    var a, b := KidPos(level, had, i), KidPos(level, had, i + 1);
    var kid := Kid(nodes, level, had, i);
    hide DecodePtrs;
    forall p {:trigger nodes[p]} | 0 <= p < |nodes|
      ensures SectorKept(disk, disk', nodes[p], IsLeaf(level, p))
    {
      if a <= p < b {
        assert kid[p - a] == nodes[p];
        EntryLeaf(level, had, i, p);
      } else {
        NotInStretch(nodes, free, a, b, t, u, p);
        assert nodes[p] == (nodes + free)[p];
      }
    }
  }

  lemma EntryLeaf(level: nat, had: nat, i: nat, p: nat)
    requires 1 <= level <= 2 && had <= Capacity(level) && KidPos(level, had, i) <= p < KidPos(level, had, i + 1)
    ensures IsLeaf(level, p) <==> IsLeaf(level - 1, p - KidPos(level, had, i))
  {
    KidPositions(level, had, had, i, p);
  }

  lemma NotInStretch(nodes: seq<nat>, free: seq<nat>, a: nat, b: nat, t: nat, u: nat, p: nat)
    requires Distinct(nodes + free) && a <= b <= |nodes| && t <= u <= |free| && p < |nodes| && !(a <= p < b)
    ensures nodes[p] !in nodes[a..b] + free[t..u]
  {
    var all := nodes + free;
    Apart(all, a, b, p);
    Apart(all, |nodes| + t, |nodes| + u, p);
    assert all[a..b] == nodes[a..b] && all[|nodes| + t..|nodes| + u] == free[t..u];
  }

  // ---------- what is lost ----------

  /** The sector overwritten when the sector that could not be had was to be an index block: the free
      map's own inode is in sector 0. */
  function Lost(leaf: bool): seq<nat> {
    if leaf then [] else [0]
  }

  /** Space ran out where a data sector (`leaf`) or an index block was needed; only sectors of `own` and, in
      the second case, sector 0 have been written. */
  ghost predicate RanOut(disk: seq<Sector>, disk': seq<Sector>, leaf: bool, own: seq<nat>, log: seq<nat>) {
    && SameExcept(disk, disk', own + Lost(leaf), log)
    && (!leaf ==> |disk'| > 0 && disk'[0] == ZeroSector())
  }

  /** What a reservation in a subtree leaves, successful or not. */
  ghost predicate SubLeft(ok: bool, disk: seq<Sector>, disk': seq<Sector>, level: nat, nodes: seq<nat>, free: seq<nat>, free': seq<nat>,
                          log: seq<nat>)
  {
    && TreeKept(disk, disk', level, nodes)
    && (!ok ==> free' == [] && RanOut(disk, disk', IsLeaf(level, |nodes| + |free|), nodes + free, log))
  }

  lemma RanOutAfter(disk0: seq<Sector>, disk1: seq<Sector>, disk2: seq<Sector>, leaf: bool, a: seq<nat>, b: seq<nat>, own: seq<nat>, log: seq<nat>)
    requires SameExcept(disk0, disk1, a, log) && RanOut(disk1, disk2, leaf, b, log)
    requires (forall s | s in a :: s in own + Lost(leaf)) && forall s | s in b :: s in own
    ensures RanOut(disk0, disk2, leaf, own, log)
  {
    var all := own + Lost(leaf);
    SameExceptWiden(disk0, disk1, a, all, log);
    SameExceptChain(disk0, disk1, disk2, all, b + Lost(leaf), log);
  }

  /** Where in the order of allocation entry `i` got stuck. */
  lemma StuckPosition(level: nat, had: nat, num: nat, i: nat, free: nat, left: nat)
    requires 1 <= level <= 2 && had <= num <= Capacity(level) && Before(level, i) < num
    requires Taken(level, had, num, i) <= free && left == free - Taken(level, had, num, i)
    requires Cost(level - 1, KidNum(level, num, i)) - Cost(level - 1, KidNum(level, had, i)) > left
    ensures KidPos(level, had, i) <= KidPos(level, had, i + 1)
    ensures IsLeaf(level, Cost(level, had) + free)
        <==> IsLeaf(level - 1, KidPos(level, had, i + 1) - KidPos(level, had, i) + left)
  {
    GrowArithmetic(level, had, num, i);
    KidPosStep(level, had, i);
    KidPosStep(level, num, i);
    PartialKidIsLast(level, had, num, i);
    KidPositions(level, had, num, i, Cost(level, had) + free);
    hide IsLeaf, Cost, Before, Capacity, KidNum, KidPos;
  }

  lemma PartialKidIsLast(level: nat, had: nat, num: nat, i: nat)
    requires 1 <= level <= 2 && had <= num <= Capacity(level) && Before(level, i) < num
    ensures 0 < KidNum(level, had, i) < KidNum(level, num, i) ==> KidPos(level, had, i + 1) == Cost(level, had)
    ensures 0 < KidNum(level, had, i) ==> KidPos(level, had, i) == KidPos(level, num, i) <= Cost(level, had)
  {
  }

  /** Entry `i` could not be completed, so neither can the subtree: what that leaves. */
  lemma StageRanOut(disk0: seq<Sector>, disk1: seq<Sector>, disk2: seq<Sector>, level: nat, had: nat, num: nat, nodes: seq<nat>,
                    free: seq<nat>, left: seq<nat>, blocks: seq<nat>, i: nat, log: seq<nat>)
    requires Stage(disk0, disk1, level, had, num, nodes, free, left, blocks, i, log) && Before(level, i) < num && 0 !in log
    requires i < 128 && KidPos(level, had, i) <= KidPos(level, had, i + 1) <= |nodes|
    requires Cost(level - 1, KidNum(level, num, i)) - Cost(level - 1, KidNum(level, had, i)) > |left|
    requires RanOut(disk1, disk2, IsLeaf(level - 1, |Kid(nodes, level, had, i)| + |left|), Kid(nodes, level, had, i) + left, log)
    ensures RanOut(disk0, disk2, IsLeaf(level, |nodes| + |free|), nodes + free, log)
  {
    hide Progress, DecodePtrs, Sub;
    if Taken(level, had, num, i) <= |free| {
      StuckPosition(level, had, num, i, |free|, |left|);
      ProgressSame(disk0, disk1, level, had, num, nodes, nodes + free, blocks, i, log);
      hide Taken, KidPos, Cost, IsLeaf, Used, RanOut, SameExcept;
      var all := nodes + free;
      RanOutAfter(disk0, disk1, disk2, IsLeaf(level, |nodes| + |free|), all[..Used(level, had, num, i)],
                  Kid(nodes, level, had, i) + left, all, log);
    } else {
      assert Kid(nodes, level, had, i) + left == [] && nodes + free == [];
    }
  }

  lemma ProgressSame(disk0: seq<Sector>, disk: seq<Sector>, level: nat, had: nat, num: nat,
                     nodes: seq<nat>, all: seq<nat>, blocks: seq<nat>, i: nat, log: seq<nat>)
    requires 1 <= level <= 2 && Progress(disk0, disk, level, had, num, nodes, all, blocks, i, log)
    ensures Used(level, had, num, i) <= |all| && SameExcept(disk0, disk, all[..Used(level, had, num, i)], log)
  {
  }

  /** An index block that is there, or a fresh one in the lowest free sector, or sector 0 for want of one. */
  ghost predicate BlockReady(disk0: seq<Sector>, disk1: seq<Sector>, e: nat, nodes: seq<nat>, free: seq<nat>, log: seq<nat>) {
    && |disk1| == |disk0| && e < |disk1|
    && if nodes != [] then disk1 == disk0 && nodes[0] == e
       else SameExcept(disk0, disk1, [e], log) && e == if free == [] then 0 else free[0]
  }

  /** What running out of space in the entries of a block leaves. */
  lemma BlockLeft(disk0: seq<Sector>, disk1: seq<Sector>, disk2: seq<Sector>, level: nat, e: nat, nodes: seq<nat>, free: seq<nat>, log: seq<nat>)
    requires RanOut(disk1, disk2, IsLeaf(level, |nodes| + |free|), nodes + free, log) && TreeKept(disk1, disk2, level, nodes)
    requires 1 <= level <= 2 && BlockReady(disk0, disk1, e, nodes, free, log)
    ensures SubLeft(false, disk0, disk2, level, nodes, free, [], log)
  {
    hide DecodePtrs;
    if nodes == [] {
      RanOutAfter(disk0, disk1, disk2, IsLeaf(level, |nodes| + |free|), [e], nodes + free, nodes + free, log);
    }
  }

  /** The index block is written back with the pointers it had and more. */
  lemma BlockKept(disk0: seq<Sector>, disk1: seq<Sector>, disk2: seq<Sector>, level: nat, e: nat, nodes: seq<nat>, free: seq<nat>, free': seq<nat>,
                  blocks: seq<nat>, log: seq<nat>)
    requires 1 <= level <= 2 && BlockReady(disk0, disk1, e, nodes, free, log) && Fits(disk1, nodes + free, log)
    requires TreeKept(disk1, disk2, level, nodes)
    requires |blocks| == 128 && AreWords(blocks) && PtrsKept(DecodePtrs(disk1[e]), blocks)
    ensures |disk2| == |disk1| && SubLeft(true, disk0, disk2[e := EncodeWords(blocks)], level, nodes, free, free', log)
  {
    EncodedPtrs(blocks);
    hide DecodePtrs, EncodeWords, IsLeaf, PtrsKept;
    assert !IsLeaf(level, 0) by { RootIsBlock(level); }
    forall p {:trigger nodes[p]} | 0 <= p < |nodes|
      ensures SectorKept(disk0, disk2[e := EncodeWords(blocks)], nodes[p], IsLeaf(level, p))
    {
      assert SectorKept(disk1, disk2, nodes[p], IsLeaf(level, p));
      assert p > 0 ==> (nodes + free)[p] != (nodes + free)[0];
    }
  }

  lemma NothingYet(disk: seq<Sector>, level: nat, nodes: seq<nat>, blocks: seq<nat>)
    ensures TreeKept(disk, disk, level, nodes) && PtrsKept(blocks, blocks)
  {
    hide DecodePtrs;
  }

  lemma RootIsBlock(level: nat)
    requires 1 <= level <= 2
    ensures !IsLeaf(level, 0)
  {
  }

  // ---------- a whole inode ----------

  /** inode_reserve has run out: no sector is free, the inode's sectors keep what they held, and sector 0 is
      all zeros exactly if an index block was next. */
  ghost predicate Exhausted(disk: seq<Sector>, disk': seq<Sector>, nodes: seq<nat>, free: seq<nat>, log: seq<nat>) {
    && FileKept(disk, disk', nodes)
    && RanOut(disk, disk', IsData(|nodes| + |free|), nodes + free, log)
  }

  /** A part of an inode's sectors is kept by itself, the rest is not written. */
  lemma PartKept(disk: seq<Sector>, disk': seq<Sector>, level: nat, nodes: seq<nat>, added: seq<nat>, at: nat, to: nat, free: seq<nat>, u: nat,
                 lost: seq<nat>, log: seq<nat>)
    requires (level == 1 && at == 123 && to <= 252) || (level == 2 && at == 252)
    requires at <= to <= |nodes + added| && Fits(disk, nodes + added + free, log) && u <= |free| && (lost == [] || lost == [0])
    requires TreeKept(disk, disk', level, (nodes + added)[at..to])
    requires SameExcept(disk, disk', (nodes + added)[at..to] + free[..u] + lost, log)
    ensures FileKept(disk, disk', nodes)
  {
    var all := nodes + added;
    var part := all[at..to];
    hide DecodePtrs;
    forall p {:trigger nodes[p]} | 0 <= p < |nodes|
      ensures SectorKept(disk, disk', nodes[p], IsData(p))
    {
      assert nodes[p] == all[p] == (all + free)[p];
      if at <= p < to {
        assert part[p - at] == all[p];
        assert IsData(p) <==> IsLeaf(level, p - at);
      } else {
        NotInStretch(all, free, at, to, 0, u, p);
      }
    }
  }

  // ---------- the methods of inode_reserve, step by step ----------

  lemma LeafLeft(ok: bool, disk: seq<Sector>, disk': seq<Sector>, entry: nat, nodes: seq<nat>, had: nat, free: seq<nat>, free': seq<nat>, log: seq<nat>)
    requires Sub(disk, 0, entry, nodes, had) && (had == 0 ==> |disk'| == |disk|) && (had > 0 ==> ok && disk' == disk)
    requires !ok ==> free == free' == [] && SameExcept(disk, disk', [], log)
    ensures SubLeft(ok, disk, disk', 0, nodes, free, free', log)
  {
    hide DecodePtrs;
  }

  /** Entry `i` of an index block has been visited. */
  lemma EntryLeft(ok: bool, disk0: seq<Sector>, disk1: seq<Sector>, disk2: seq<Sector>, level: nat, had: nat, num: nat, nodes: seq<nat>,
                  free: seq<nat>, left: seq<nat>, left': seq<nat>, added: seq<nat>, blocks: seq<nat>, i: nat, e: nat, log: seq<nat>)
    requires Stage(disk0, disk1, level, had, num, nodes, free, left, blocks, i, log) && Before(level, i) < num && 0 !in log
    requires i < 128 && KidPos(level, had, i) <= KidPos(level, had, i + 1) <= |nodes| && KidNum(level, num, i) <= Capacity(level - 1)
    requires SubLeft(ok, disk1, disk2, level - 1, Kid(nodes, level, had, i), left, left', log)
    requires if ok then added + left' == left && Grown(disk1, disk2, level - 1, e, Kid(nodes, level, had, i), added, KidNum(level, num, i), log)
             else Cost(level - 1, KidNum(level, num, i)) - Cost(level - 1, KidNum(level, had, i)) > |left|
    ensures TreeKept(disk1, disk2, level, nodes)
    ensures !ok ==> left' == [] && RanOut(disk0, disk2, IsLeaf(level, |nodes| + |free|), nodes + free, log)
  {
    var kid := Kid(nodes, level, had, i);
    StageSizes(disk0, disk1, level, had, num, nodes, free, left, blocks, i, log);
    var leaf := IsLeaf(level - 1, |kid| + |left|);
    var t := |free| - |left|;
    var u, lost := if ok then t + |added| else |free|, if ok then [] else Lost(leaf);
    assert left == free[t..];
    assert free[t..u] == if ok then added else left;
    assert kid + added + [] == kid + added;
    if !ok {
      StageRanOut(disk0, disk1, disk2, level, had, num, nodes, free, left, blocks, i, log);
    }
    hide Stage, Sub, DecodePtrs, Cost, KidPos, IsLeaf, Capacity, TreeKept;
    assert SameExcept(disk1, disk2, kid + free[t..u] + lost, log);
    StretchKept(disk1, disk2, level, had, i, nodes, free, t, u, lost, log);
  }

  lemma StageSizes(disk0: seq<Sector>, disk1: seq<Sector>, level: nat, had: nat, num: nat, nodes: seq<nat>,
                   free: seq<nat>, left: seq<nat>, blocks: seq<nat>, i: nat, log: seq<nat>)
    requires Stage(disk0, disk1, level, had, num, nodes, free, left, blocks, i, log)
    ensures |left| <= |free| && left == free[|free| - |left|..]
    ensures Fits(disk0, nodes + free, log) && Fits(disk1, nodes + free, log)
    ensures 1 <= level <= 2 && had <= num <= Capacity(level) && |nodes| == Cost(level, had)
  {
  }

  /** A direct block has been visited: at most one sector, a free one, was written. */
  lemma DirectKept(disk0: seq<Sector>, disk1: seq<Sector>, disk2: seq<Sector>, nodes: seq<nat>, added: seq<nat>, free: seq<nat>, k: nat, log: seq<nat>)
    requires FileKept(disk0, disk1, nodes)
    requires Fits(disk1, nodes + added + free, log) && k <= |free| && SameExcept(disk1, disk2, free[..k], log)
    ensures FileKept(disk0, disk2, nodes)
  {
    var all := nodes + added + free;
    hide FileKept, SameExcept, IsData;
    forall s | s in nodes
      ensures s !in free[..k] && s !in log
    {
      var p :| 0 <= p < |nodes| && nodes[p] == s;
      assert all[p] == s;
      assert forall q | 0 <= q < k :: free[q] == all[|nodes + added| + q];
    }
    Untouched(disk1, disk2, 0, nodes, free[..k], log);
    FileKeptTrans(disk0, disk1, disk2, nodes);
  }

  /** No sector was free for a direct block. */
  lemma DirectExhausted(disk0: seq<Sector>, disk1: seq<Sector>, disk2: seq<Sector>, d0: InodeDisk, d: InodeDisk, nodes: seq<nat>, had: nat,
                        added: seq<nat>, m: nat, free: seq<nat>, left: seq<nat>, log: seq<nat>)
    requires Phase(disk0, disk1, d0, d, nodes, had, added, m, free, left, log) && m < 123 && left == []
    requires SameExcept(disk1, disk2, [], log) && FileKept(disk0, disk2, nodes)
    ensures Exhausted(disk0, disk2, nodes, free, log)
  {
    hide Maps, FileKept, FileDataKept;
    assert added == free;
    assert |nodes| + |free| == m;
    SameExceptChain(disk0, disk1, disk2, nodes + added, [], log);
    assert nodes + free + Lost(true) == nodes + added;
  }

  /** Where in the order of allocation the indirect or the doubly indirect subtree got stuck. */
  lemma PartPosition(m: nat, num: nat, free: nat)
    requires 123 <= m <= num <= MAX_SECTORS
    ensures Cost(1, Indirect(num)) - Cost(1, Indirect(m)) > free ==>
              && InodeCost(m) == 123 + Cost(1, Indirect(m))
              && (IsLeaf(1, Cost(1, Indirect(m)) + free) <==> IsData(InodeCost(m) + free))
    ensures 251 <= m ==>
              && InodeCost(m) == 252 + Cost(2, Doubly(m))
              && (IsLeaf(2, Cost(2, Doubly(m)) + free) <==> IsData(InodeCost(m) + free))
  {
  }

  /** A subtree of the inode has been visited. */
  lemma PartLeft(ok: bool, disk0: seq<Sector>, disk1: seq<Sector>, disk2: seq<Sector>, level: nat, at: nat, to: nat, d0: InodeDisk, d: InodeDisk,
                 nodes: seq<nat>, had: nat, added: seq<nat>, m: nat, free: seq<nat>, left: seq<nat>, left': seq<nat>, k: nat, log: seq<nat>)
    requires Phase(disk0, disk1, d0, d, nodes, had, added, m, free, left, log) && FileKept(disk0, disk1, nodes)
    requires (level == 1 && at == 123 && to <= 252) || (level == 2 && at == 252)
    requires at <= to <= |nodes + added| && k <= |left|
    requires SubLeft(ok, disk1, disk2, level, (nodes + added)[at..to], left, left', log)
    requires if ok then SameExcept(disk1, disk2, (nodes + added)[at..to] + left[..k], log)
             else IsLeaf(level, to - at + |left|) <==> IsData(InodeCost(m) + |left|)
    ensures FileKept(disk0, disk2, nodes)
    ensures !ok ==> left' == [] && Exhausted(disk0, disk2, nodes, free, log)
  {
    hide Phase, Maps, IsData, IsLeaf, InodeCost, FileKept, TreeKept, SameExcept, Fits;
    PhaseFits(disk0, disk1, d0, d, nodes, had, added, m, free, left, log);
    PhaseSame(disk0, disk1, d0, d, nodes, had, added, m, free, left, log);
    var all, part := nodes + added, (nodes + added)[at..to];
    var u, lost := if ok then k else |left|, if ok then [] else Lost(IsLeaf(level, to - at + |left|));
    assert part + left[..k] + [] == part + left[..k];
    assert left[..|left|] == left;
    PartKept(disk1, disk2, level, nodes, added, at, to, left, u, lost, log);
    FileKeptTrans(disk0, disk1, disk2, nodes);
    if !ok {
      assert nodes + free == all + left;
      hide RanOut;
      RanOutWhole(disk0, disk1, disk2, IsLeaf(level, to - at + |left|), all, at, to, left, log);
    }
  }

  lemma RanOutWhole(disk0: seq<Sector>, disk1: seq<Sector>, disk2: seq<Sector>, leaf: bool, all: seq<nat>, at: nat, to: nat, left: seq<nat>, log: seq<nat>)
    requires at <= to <= |all| && SameExcept(disk0, disk1, all, log) && RanOut(disk1, disk2, leaf, all[at..to] + left, log)
    ensures RanOut(disk0, disk2, leaf, all + left, log)
  {
    hide RanOut, SameExcept;
    RanOutAfter(disk0, disk1, disk2, leaf, all, all[at..to] + left, all + left, log);
  }

  lemma PhaseSame(disk0: seq<Sector>, disk: seq<Sector>, d0: InodeDisk, d: InodeDisk, nodes: seq<nat>, had: nat,
                  added: seq<nat>, m: nat, free: seq<nat>, left: seq<nat>, log: seq<nat>)
    requires Phase(disk0, disk, d0, d, nodes, had, added, m, free, left, log)
    ensures |disk| == |disk0| && SameExcept(disk0, disk, nodes + added, log) && added + left == free && |nodes + added| == InodeCost(m)
  {
  }

  lemma NothingWritten(disk: seq<Sector>, nodes: seq<nat>)
    ensures FileKept(disk, disk, nodes)
  {
    hide DecodePtrs;
  }

  lemma GrownSame(disk: seq<Sector>, disk': seq<Sector>, level: nat, e: nat, nodes: seq<nat>, added: seq<nat>, num: nat, log: seq<nat>)
    requires level <= 2 && Grown(disk, disk', level, e, nodes, added, num, log)
    ensures SameExcept(disk, disk', nodes + added, log)
  {
  }

  lemma IndirectLeft(ok: bool, disk0: seq<Sector>, disk1: seq<Sector>, disk2: seq<Sector>, d0: InodeDisk, d: InodeDisk, nodes: seq<nat>, had: nat,
                     added: seq<nat>, m: nat, num: nat, free: seq<nat>, left: seq<nat>, left': seq<nat>, e: nat, b: seq<nat>, log: seq<nat>)
    requires Phase(disk0, disk1, d0, d, nodes, had, added, m, free, left, log) && FileKept(disk0, disk1, nodes)
    requires 123 <= m <= num <= MAX_SECTORS && |nodes + added| == InodeCost(m)
    requires SubLeft(ok, disk1, disk2, 1, IndirectPart(nodes + added, m), left, left', log)
    requires if ok then b + left' == left && Grown(disk1, disk2, 1, e, IndirectPart(nodes + added, m), b, Indirect(num), log)
             else Cost(1, Indirect(num)) - Cost(1, Indirect(m)) > |left|
    ensures FileKept(disk0, disk2, nodes)
    ensures !ok ==> left' == [] && Exhausted(disk0, disk2, nodes, free, log)
  {
    PartPosition(m, num, |left|);
    var to := 123 + Cost(1, Indirect(m));
    assert to <= 252 && Direct(m) == 123 && (nodes + added)[123..to] == IndirectPart(nodes + added, m);
    if ok {
      GrownSame(disk1, disk2, 1, e, IndirectPart(nodes + added, m), b, Indirect(num), log);
      assert left[..|b|] == b;
    }
    hide Phase, SubLeft, FileKept, IsLeaf, IsData, InodeCost, Cost, Grown, SameExcept, Exhausted;
    PartLeft(ok, disk0, disk1, disk2, 1, 123, to, d0, d, nodes, had, added, m, free, left, left', if ok then |b| else 0, log);
  }

  lemma DoublyLeft(ok: bool, disk0: seq<Sector>, disk1: seq<Sector>, disk2: seq<Sector>, d0: InodeDisk, d: InodeDisk, nodes: seq<nat>, had: nat,
                   added: seq<nat>, m: nat, num: nat, free: seq<nat>, left: seq<nat>, left': seq<nat>, e: nat, b: seq<nat>, log: seq<nat>)
    requires Phase(disk0, disk1, d0, d, nodes, had, added, m, free, left, log) && FileKept(disk0, disk1, nodes)
    requires 251 <= m <= num <= MAX_SECTORS && |nodes + added| == InodeCost(m)
    requires SubLeft(ok, disk1, disk2, 2, DoublyPart(nodes + added, m), left, left', log)
    requires if ok then b + left' == left && Grown(disk1, disk2, 2, e, DoublyPart(nodes + added, m), b, Doubly(num), log)
             else Cost(2, Doubly(num)) - Cost(2, Doubly(m)) > |left|
    ensures FileKept(disk0, disk2, nodes)
    ensures !ok ==> left' == [] && Exhausted(disk0, disk2, nodes, free, log)
  {
    PartPosition(m, num, |left|);
    var to := |nodes + added|;
    assert to == 252 + Cost(2, Doubly(m)) && (nodes + added)[252..to] == DoublyPart(nodes + added, m);
    if ok {
      GrownSame(disk1, disk2, 2, e, DoublyPart(nodes + added, m), b, Doubly(num), log);
      assert left[..|b|] == b;
    }
    hide Phase, SubLeft, FileKept, IsLeaf, IsData, InodeCost, Cost, Grown, SameExcept, Exhausted;
    PartLeft(ok, disk0, disk1, disk2, 2, 252, to, d0, d, nodes, had, added, m, free, left, left', if ok then |b| else 0, log);
  }

  /** Sector 0 is lost exactly if the sector that could not be had was to be an index block. */
  lemma SectorZero(disk: seq<Sector>, disk': seq<Sector>, nodes: seq<nat>, free: seq<nat>, log: seq<nat>)
    requires Exhausted(disk, disk', nodes, free, log) && Fits(disk, nodes + free, log) && 0 !in log && |disk| > 0
    ensures |disk'| == |disk| && disk'[0] == if IsData(|nodes| + |free|) then disk[0] else ZeroSector()
  {
    hide FileKept, IsData;
    FitsApart(disk, nodes + free, log);
    assert nodes + free + [] == nodes + free;
  }

  // ---------- the file is still readable ----------

  /** An inode in memory keeps the pointers it had, its length and its kind. */
  ghost predicate InodeKept(d: InodeDisk, d': InodeDisk) {
    && d'.length == d.length && d'.isDir == d.isDir
    && PtrsKept(d.direct, d'.direct) && (d.indirect != 0 ==> d'.indirect == d.indirect) && (d.doubly != 0 ==> d'.doubly == d.doubly)
  }

  lemma InodeKeptRefl(d: InodeDisk)
    ensures InodeKept(d, d)
  {
  }

  lemma InodeKeptTrans(a: InodeDisk, b: InodeDisk, c: InodeDisk)
    requires InodeKept(a, b) && InodeKept(b, c)
    ensures InodeKept(a, c)
  {
    PtrsKeptTrans(a.direct, b.direct, c.direct);
  }

  /** The index blocks on the way to data sector `q`, by their positions. */
  lemma PathPositions(disk: seq<Sector>, d: InodeDisk, nodes: seq<nat>, n: nat, q: nat)
    requires Maps(disk, d, nodes, n) && q < n
    ensures Findable(disk, d, q) && DataPos(q) < |nodes| && Lookup(disk, d, q) == nodes[DataPos(q)] && 0 < nodes[DataPos(q)] < |disk|
    ensures IsData(DataPos(q)) && BlocksAt(disk, d, nodes, q)
  {
    LookupIsNode(disk, d, nodes, n, q);
    DataPosition(q, n);
    hide Ptr, Lookup;
    if 123 <= q < 251 {
      SubEntry(disk, 1, d.indirect, IndirectPart(nodes, n), Indirect(n), q - 123);
    } else if 251 <= q {
      SubEntry(disk, 2, d.doubly, DoublyPart(nodes, n), Doubly(n), (q - 251) / 128);
    }
  }

  ghost predicate BlocksAt(disk: seq<Sector>, d: InodeDisk, nodes: seq<nat>, q: nat) {
    && (123 <= q < 251 ==> 123 < |nodes| && d.indirect == nodes[123] && 0 < d.indirect < |disk| && !IsData(123))
    && (251 <= q < MAX_SECTORS ==>
          && 253 + 129 * ((q - 251) / 128) < |nodes| && d.doubly == nodes[252] && 0 < d.doubly < |disk|
          && Ptr(disk[d.doubly], (q - 251) / 128) == nodes[253 + 129 * ((q - 251) / 128)]
          && 0 < nodes[253 + 129 * ((q - 251) / 128)] < |disk|
          && !IsData(252) && !IsData(253 + 129 * ((q - 251) / 128)))
  }

  lemma PtrStays(disk: seq<Sector>, disk': seq<Sector>, nodes: seq<nat>, p: nat, i: nat)
    requires FileKept(disk, disk', nodes) && p < |nodes| && nodes[p] < |disk| && !IsData(p) && i < 128
    ensures nodes[p] < |disk'| && (Ptr(disk[nodes[p]], i) != 0 ==> Ptr(disk'[nodes[p]], i) == Ptr(disk[nodes[p]], i))
  {
    hide Ptr, IsData;
    assert SectorKept(disk, disk', nodes[p], IsData(p));
    assert DecodePtrs(disk[nodes[p]])[i] == Ptr(disk[nodes[p]], i) && DecodePtrs(disk'[nodes[p]])[i] == Ptr(disk'[nodes[p]], i);
  }

  /** Point lookup finds what it found. */
  lemma LookupKept(disk: seq<Sector>, disk': seq<Sector>, d: InodeDisk, d': InodeDisk, nodes: seq<nat>, n: nat, q: nat)
    requires Maps(disk, d, nodes, n) && q < n && FileKept(disk, disk', nodes) && InodeKept(d, d')
    ensures Findable(disk, d, q) && Findable(disk', d', q) && Lookup(disk', d', q) == Lookup(disk, d, q) < |disk'|
    ensures disk'[Lookup(disk, d, q)] == disk[Lookup(disk, d, q)]
  {
    PathPositions(disk, d, nodes, n, q);
    assert |d.direct| == 123 && n <= MAX_SECTORS;
    hide Maps, Ptr, DataPos, IsData;
    if q < 123 {
      assert d'.direct[q] == d.direct[q];
    } else if q < 251 {
      PtrStays(disk, disk', nodes, 123, q - 123);
    } else {
      var k := (q - 251) / 128;
      PtrStays(disk, disk', nodes, 252, k);
      PtrStays(disk, disk', nodes, 253 + 129 * k, (q - 251) % 128);
    }
    assert SectorKept(disk, disk', nodes[DataPos(q)], IsData(DataPos(q)));
  }

  /** Whatever a failed reservation did, the file's bytes can be read as before, through its inode on the
      disk and through the one in memory. */
  lemma KeptReads(disk: seq<Sector>, disk': seq<Sector>, d: InodeDisk, d': InodeDisk, nodes: seq<nat>, data: seq<byte>)
    requires Holds(disk, d, nodes, data) && FileKept(disk, disk', nodes) && InodeKept(d, d')
    ensures Reads(disk', d', data)
  {
    HoldsReads(disk, d, nodes, data);
    var n := BytesToSectors(|data|);
    hide FileKept, Lookup, Findable, Maps, Stores, DecodePtrs;
    forall q | 0 <= q < n
      ensures Findable(disk', d', q) && Lookup(disk', d', q) < |disk'| && SectorHolds(disk'[Lookup(disk', d', q)], data, q)
    {
      LookupKept(disk, disk', d, d', nodes, n, q);
    }
  }

  /** A failed reservation leaves the inode of every other sector but 0 alone. */
  lemma ExhaustedInode(disk: seq<Sector>, disk': seq<Sector>, sector: nat, nodes: seq<nat>, free: seq<nat>, log: seq<nat>)
    requires Exhausted(disk, disk', nodes, free, log) && 0 < sector < |disk| && sector !in nodes + free && sector !in log
    ensures |disk'| == |disk| && disk'[sector] == disk[sector]
  {
    hide FileKept, IsData;
  }

  /** A write that found too little space: no sector is free, the file reads as before, through its inode `d` on
      the disk and `d'` in memory alike, and sector 0 is all zeros exactly if the allocation that failed was that
      of an index block. */
  ghost predicate NoRoom(disk: seq<Sector>, disk': seq<Sector>, d: InodeDisk, d': InodeDisk, nodes: seq<nat>, free: seq<nat>, free': seq<nat>,
                         data: seq<byte>, log: seq<nat>)
  {
    && free' == [] && Exhausted(disk, disk', nodes, free, log)
    && Reads(disk', d, data) && Reads(disk', d', data)
    && 0 < |disk'| == |disk| && disk'[0] == if IsData(|nodes| + |free|) then disk[0] else ZeroSector()
  }

  lemma StillReads(disk: seq<Sector>, disk': seq<Sector>, d: InodeDisk, d': InodeDisk, nodes: seq<nat>, free: seq<nat>, data: seq<byte>, log: seq<nat>)
    requires Holds(disk, d, nodes, data) && Exhausted(disk, disk', nodes, free, log) && InodeKept(d, d')
    requires Fits(disk, nodes + free, log) && 0 !in log && |disk| > 0
    ensures NoRoom(disk, disk', d, d', nodes, free, [], data, log)
  {
    hide FileKept, Holds, Reads, InodeKept, RanOut, IsData, Fits;
    InodeKeptRefl(d);
    KeptReads(disk, disk', d, d, nodes, data);
    KeptReads(disk, disk', d, d', nodes, data);
    SectorZero(disk, disk', nodes, free, log);
  }

  /** A byte written past the end of a file of 123 full sectors on a full volume: the sector that cannot be had
      is to be the indirect block. */
  lemma IndirectBlockMissing()
    ensures InodeCost(BytesToSectors(123 * SECTOR_SIZE)) == 123 && !IsData(123)
    ensures InodeCost(BytesToSectors(123 * SECTOR_SIZE + 1)) == 125
  {
  }

  /** Writing the free map file afterwards changes nothing about it. */
  lemma ExhaustedAfter(disk0: seq<Sector>, disk1: seq<Sector>, disk2: seq<Sector>, nodes: seq<nat>, free: seq<nat>, log: seq<nat>)
    requires Exhausted(disk0, disk1, nodes, free, log) && SameExcept(disk1, disk2, [], log)
    requires Fits(disk0, nodes + free, log) && 0 !in log
    ensures Exhausted(disk0, disk2, nodes, free, log)
  {
    hide FileKept, IsData;
    FitsApart(disk0, nodes + free, log);
    assert forall s | s in nodes :: s in nodes + free;
    Untouched(disk1, disk2, 0, nodes, [], log);
    FileKeptTrans(disk0, disk1, disk2, nodes);
    SameExceptChain(disk0, disk1, disk2, nodes + free + Lost(IsData(|nodes| + |free|)), [], log);
  }
}
