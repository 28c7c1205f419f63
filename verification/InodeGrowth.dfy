/** What inode_reserve does to an inode, phase by phase, and the bytes of a file. */
module InodeGrowth {
  import opened Sectors
  import opened InodeTree
  import opened InodeMap

  /** Old data sectors keep their contents, added ones are zero. */
  ghost predicate FileDataKept(disk: seq<Sector>, disk': seq<Sector>, all: seq<nat>, kept: nat) {
    && |disk'| == |disk|
    && forall p {:trigger all[p]} | 0 <= p < |all| && IsData(p) && all[p] < |disk| ::
        && (p < kept ==> disk'[all[p]] == disk[all[p]])
        && (p >= kept ==> disk'[all[p]] == ZeroSector())
  }

  /** The inode now maps `n` data sectors over `nodes + added`. */
  ghost predicate Extended(disk: seq<Sector>, disk': seq<Sector>, d: InodeDisk,
                           nodes: seq<nat>, added: seq<nat>, n: nat, log: seq<nat>) {
    && Maps(disk', d, nodes + added, n)
    && SameExcept(disk, disk', nodes + added, log)
    && FileDataKept(disk, disk', nodes + added, |nodes|)
  }

  lemma FitsApart(disk: seq<Sector>, all: seq<nat>, log: seq<nat>)
    requires Fits(disk, all, log)
    ensures Distinct(all) && 0 !in all
    ensures forall s | s in log :: s !in all
  {
  }

  /** A stretch of the inode's sectors together with the free sectors that are left. */
  lemma FitsPart(disk: seq<Sector>, nodes: seq<nat>, a: nat, b: nat, free: seq<nat>, t: nat, log: seq<nat>)
    requires Fits(disk, nodes + free, log) && a <= b <= |nodes| && t <= |free|
    ensures Fits(disk, nodes[a..b] + free[t..], log)
  {
    var all, part := nodes + free, nodes[a..b] + free[t..];
    forall p {:trigger part[p]} | 0 <= p < |part|
      ensures part[p] == all[if p < b - a then a + p else |nodes| + t + (p - (b - a))]
    {
    }
  }

  /** Sectors taken from the free list join the inode's. */
  lemma FitsTaken(disk: seq<Sector>, disk': seq<Sector>, nodes: seq<nat>, free: seq<nat>, t: nat, log: seq<nat>)
    requires Fits(disk, nodes + free, log) && t <= |free| && |disk'| == |disk|
    ensures Fits(disk', nodes + free[..t] + free[t..], log) && Fits(disk', nodes + free[..t], log)
  {
    assert nodes + free[..t] + free[t..] == nodes + free;
    forall p {:trigger (nodes + free[..t])[p]} | 0 <= p < |nodes| + t
      ensures (nodes + free[..t])[p] == (nodes + free)[p]
    {
    }
  }

  lemma ExtendedRefl(disk: seq<Sector>, d: InodeDisk, nodes: seq<nat>, n: nat, log: seq<nat>)
    requires Maps(disk, d, nodes, n)
    ensures Extended(disk, disk, d, nodes, [], n, log)
  {
    assert nodes + [] == nodes;
  }

  lemma ExtendedTrans(disk0: seq<Sector>, disk1: seq<Sector>, disk2: seq<Sector>, d1: InodeDisk, d2: InodeDisk,
                      nodes: seq<nat>, a: seq<nat>, b: seq<nat>, n1: nat, n2: nat, log: seq<nat>)
    requires Extended(disk0, disk1, d1, nodes, a, n1, log)
    requires Extended(disk1, disk2, d2, nodes + a, b, n2, log)
    requires Fits(disk0, nodes + a + b, log)
    ensures Extended(disk0, disk2, d2, nodes, a + b, n2, log)
  {
    hide Maps, IsData;
    var all := nodes + a + b;
    assert nodes + (a + b) == all;
    forall s | 0 <= s < |disk0| && s !in all && s !in log
      ensures disk2[s] == disk0[s]
    {
      assert s !in nodes + a;
      assert disk1[s] == disk0[s];
    }
    forall p {:trigger all[p]} | 0 <= p < |all| && IsData(p)
      ensures p < |nodes| ==> disk2[all[p]] == disk0[all[p]]
      ensures p >= |nodes| ==> disk2[all[p]] == ZeroSector()
    {
      if p < |nodes + a| {
        assert (nodes + a)[p] == all[p];
      }
    }
  }

  /** A direct block is added: inode.c:417-423. */
  lemma DirectStep(disk: seq<Sector>, disk': seq<Sector>, d: InodeDisk, nodes: seq<nat>, m: nat, s: nat, log: seq<nat>)
    requires Maps(disk, d, nodes, m) && m < 123 && |disk| <= WORD_LIMIT
    requires Fits(disk, nodes + [s], log)
    requires SameExcept(disk, disk', [s], log) && s < |disk| && disk'[s] == ZeroSector()
    ensures Extended(disk, disk', d.(direct := d.direct[m := s]), nodes, [s], m + 1, log)
  {
    var all := nodes + [s];
    assert s == all[m];
    forall p {:trigger nodes[p]} | 0 <= p < |nodes|
      ensures disk'[nodes[p]] == disk[nodes[p]]
    {
      assert nodes[p] == all[p];
    }
    assert IndirectPart(nodes, m) == [] == IndirectPart(all, m + 1);
    assert DoublyPart(nodes, m) == [] == DoublyPart(all, m + 1);
    forall p {:trigger all[p]} | 0 <= p < |all|
      ensures p < |nodes| ==> disk'[all[p]] == disk[all[p]]
    {
      if p < |nodes| { assert all[p] == nodes[p]; }
    }
  }

  lemma SameExceptWiden(disk: seq<Sector>, disk': seq<Sector>, a: seq<nat>, b: seq<nat>, log: seq<nat>)
    requires SameExcept(disk, disk', a, log) && forall x | x in a :: x in b
    ensures SameExcept(disk, disk', b, log)
  {
  }

  /** Growing one of the two subtrees leaves the sectors before and after it alone. */
  lemma PartGrown(disk: seq<Sector>, disk': seq<Sector>, level: nat, all: seq<nat>, at: nat, part: seq<nat>, k: nat, log: seq<nat>)
    requires (level == 1 && at == 123 && |part| <= 129) || (level == 2 && at == 252)
    requires at + |part| <= |all| && part == all[at..at + |part|]
    requires k == |part| || (k < |part| && at + |part| == |all|)
    requires Fits(disk, all, log)
    requires SameExcept(disk, disk', part, log) && DataKept(disk, disk', level, part, k)
    ensures forall p {:trigger all[p]} | 0 <= p < |all| && (p < at || at + |part| <= p) :: disk'[all[p]] == disk[all[p]]
    ensures SameExcept(disk, disk', all, log) && FileDataKept(disk, disk', all, |all| - (|part| - k))
  {
    forall p {:trigger all[p]} | 0 <= p < |all| && (p < at || at + |part| <= p)
      ensures disk'[all[p]] == disk[all[p]]
    {
      Apart(all, at, at + |part|, p);
    }
    forall p {:trigger all[p]} | 0 <= p < |all| && IsData(p)
      ensures p < |all| - (|part| - k) ==> disk'[all[p]] == disk[all[p]]
      ensures p >= |all| - (|part| - k) ==> disk'[all[p]] == ZeroSector()
    {
      if at <= p < at + |part| {
        assert part[p - at] == all[p];
        assert IsLeaf(level, p - at);
      }
    }
    SameExceptWiden(disk, disk', part, all, log);
  }

  lemma GrownParts(disk: seq<Sector>, disk': seq<Sector>, level: nat, e: nat, nodes: seq<nat>, added: seq<nat>, n: nat, log: seq<nat>)
    requires 1 <= level <= 2 && |disk| <= WORD_LIMIT && Grown(disk, disk', level, e, nodes, added, n, log)
    ensures SameExcept(disk, disk', nodes + added, log) && |disk'| == |disk|
    ensures DataKept(disk, disk', level, nodes + added, |nodes|)
    ensures |nodes + added| == Cost(level, n) && e < WORD_LIMIT
  {
  }

  lemma EmptySub(disk: seq<Sector>, disk': seq<Sector>, e: nat, nodes: seq<nat>)
    requires Sub(disk, 2, e, nodes, 0)
    ensures Sub(disk', 2, e, nodes, 0) && e == 0 && nodes == []
  {
  }

  /** The single indirect subtree grows: inode.c:429-434. */
  lemma IndirectStep(disk: seq<Sector>, disk': seq<Sector>, d: InodeDisk, nodes: seq<nat>, m: nat,
                     e: nat, added: seq<nat>, n: nat, log: seq<nat>)
    requires Maps(disk, d, nodes, m) && 123 <= m <= n <= 251 && |disk| <= WORD_LIMIT
    requires Fits(disk, nodes + added, log)
    requires Grown(disk, disk', 1, e, IndirectPart(nodes, m), added, Indirect(n), log)
    ensures Extended(disk, disk', d.(indirect := e), nodes, added, n, log)
  {
    hide IsData, FileDataKept, DataKept, SameExcept, Sub, KidPos, AreWords;
    var all := nodes + added;
    var ind := IndirectPart(nodes, m) + added;
    GrownParts(disk, disk', 1, e, IndirectPart(nodes, m), added, Indirect(n), log);
    EmptySub(disk, disk', d.doubly, DoublyPart(nodes, m));
    assert ind == all[123..];
    PartGrown(disk, disk', 1, all, 123, ind, |IndirectPart(nodes, m)|, log);
    assert IndirectPart(all, n) == ind;
    assert DoublyPart(all, n) == [] == DoublyPart(nodes, m);
  }

  /** A full indirect subtree is visited again without growing. */
  lemma IndirectSame(disk: seq<Sector>, disk': seq<Sector>, d: InodeDisk, nodes: seq<nat>, m: nat, e: nat, log: seq<nat>)
    requires Maps(disk, d, nodes, m) && 251 < m && |disk| <= WORD_LIMIT
    requires Fits(disk, nodes, log)
    requires Grown(disk, disk', 1, e, IndirectPart(nodes, m), [], 128, log)
    ensures Extended(disk, disk', d.(indirect := e), nodes, [], m, log)
  {
    assert nodes + [] == nodes;
    var ind, dbl := IndirectPart(nodes, m), DoublyPart(nodes, m);
    assert ind + [] == ind == nodes[123..252];
    PartGrown(disk, disk', 1, nodes, 123, ind, |ind|, log);
    forall p {:trigger dbl[p]} | 0 <= p < |dbl|
      ensures disk'[dbl[p]] == disk[dbl[p]]
    {
      assert dbl[p] == nodes[252 + p];
    }
    SubFrame(disk, disk', 2, d.doubly, dbl, Doubly(m));
  }

  /** The doubly indirect subtree grows: inode.c:437-443. */
  lemma DoublyStep(disk: seq<Sector>, disk': seq<Sector>, d: InodeDisk, nodes: seq<nat>, m: nat,
                   e: nat, added: seq<nat>, n: nat, log: seq<nat>)
    requires Maps(disk, d, nodes, m) && 251 <= m <= n <= MAX_SECTORS && |disk| <= WORD_LIMIT
    requires Fits(disk, nodes + added, log)
    requires Grown(disk, disk', 2, e, DoublyPart(nodes, m), added, Doubly(n), log)
    ensures Extended(disk, disk', d.(doubly := e), nodes, added, n, log)
  {
    hide IsData, FileDataKept, DataKept, SameExcept, Sub, KidPos, AreWords;
    var all := nodes + added;
    var ind, dbl := IndirectPart(nodes, m), DoublyPart(nodes, m) + added;
    GrownParts(disk, disk', 2, e, DoublyPart(nodes, m), added, Doubly(n), log);
    assert dbl == all[252..];
    PartGrown(disk, disk', 2, all, 252, dbl, |DoublyPart(nodes, m)|, log);
    assert DoublyPart(all, n) == dbl;
    assert IndirectPart(all, n) == ind;
    IndirectUntouched(disk, disk', d, nodes, m, all);
  }

  lemma IndirectUntouched(disk: seq<Sector>, disk': seq<Sector>, d: InodeDisk, nodes: seq<nat>, m: nat, all: seq<nat>)
    requires Maps(disk, d, nodes, m) && 251 <= m && nodes <= all && |disk'| == |disk|
    requires forall p {:trigger all[p]} | 0 <= p < 252 && p < |all| && all[p] < |disk| :: disk'[all[p]] == disk[all[p]]
    ensures Sub(disk', 1, d.indirect, IndirectPart(nodes, m), Indirect(m))
  {
    var ind := IndirectPart(nodes, m);
    forall p {:trigger ind[p]} | 0 <= p < |ind|
      ensures disk'[ind[p]] == disk[ind[p]]
    {
      assert ind[p] == all[123 + p];
    }
    SubFrame(disk, disk', 1, d.indirect, ind, Indirect(m));
  }

  /** State of inode_reserve_indirect before entry `i`, `left` being the free list by then. Either the
      block could be allocated and `i` entries are done, or there was no free sector to begin with. */
  ghost predicate Stage(disk0: seq<Sector>, disk: seq<Sector>, level: nat, had: nat, num: nat, nodes: seq<nat>, free: seq<nat>,
                        left: seq<nat>, blocks: seq<nat>, i: nat, log: seq<nat>) {
    && 1 <= level <= 2 && had <= num && 0 < num <= Capacity(level)
    && |nodes| == Cost(level, had) && |blocks| == 128 && |disk0| == |disk| && Fits(disk0, nodes + free, log)
    && if Taken(level, had, num, i) <= |free|
       then && left == free[Taken(level, had, num, i)..]
            && Progress(disk0, disk, level, had, num, nodes, nodes + free, blocks, i, log)
       else had == 0 && i == 0 && left == free == [] && blocks[0] == 0
            && disk == disk0 && |disk| > 0 && disk[0] == ZeroSector()
  }

  lemma StageInit(disk0: seq<Sector>, disk1: seq<Sector>, level: nat, had: nat, num: nat, entry: nat, e: nat,
                  nodes: seq<nat>, free: seq<nat>, left: seq<nat>, log: seq<nat>)
    requires 1 <= level <= 2 && had <= num && 0 < num <= Capacity(level) && |disk1| == |disk0| && e < |disk1|
    requires Sub(disk0, level, entry, nodes, had) && Fits(disk0, nodes + free, log)
    requires had > 0 ==> e == entry && disk1 == disk0 && left == free
    requires had == 0 ==> disk1[e] == ZeroSector() && if free == [] then left == [] && e == 0 else free == [e] + left
    ensures Stage(disk1, disk1, level, had, num, nodes, free, left, DecodePtrs(disk1[e]), 0, log)
    ensures had > 0 || free != [] ==> |nodes + free| > 0 && e == (nodes + free)[0] && e !in log
  {
    TakenBound(level, had, num, 0);
    if had > 0 || free != [] {
      assert e == (nodes + free)[0];
      ProgressInit(disk1, level, had, num, e, nodes, free, log);
    } else {
      ZeroPtr(0);
    }
  }

  /** Before entry `i` is visited, its subtree is as it was and may grow into the free sectors left. */
  lemma KidReady(disk0: seq<Sector>, disk: seq<Sector>, level: nat, had: nat, num: nat, nodes: seq<nat>, free: seq<nat>,
                 left: seq<nat>, blocks: seq<nat>, i: nat, log: seq<nat>)
    requires Stage(disk0, disk, level, had, num, nodes, free, left, blocks, i, log) && Before(level, i) < num
    ensures i < 128 == |blocks| && 1 <= level <= 2 && had <= num <= Capacity(level)
    ensures KidPos(level, had, i) <= KidPos(level, had, i + 1) <= |nodes|
    ensures 0 < KidNum(level, num, i) <= Capacity(level - 1) && KidNum(level, had, i) <= KidNum(level, num, i)
    ensures Sub(disk, level - 1, blocks[i], Kid(nodes, level, had, i), KidNum(level, had, i))
    ensures Fits(disk, Kid(nodes, level, had, i) + left, log)
  {
    GrowArithmetic(level, had, num, i);
    KidPosStep(level, had, i);
    KidPosStep(level, num, i);
    if Taken(level, had, num, i) <= |free| {
      assert SubKid(disk, level, blocks[i], nodes, had, i);
      FitsPart(disk0, nodes, KidPos(level, had, i), KidPos(level, had, i + 1), free, Taken(level, had, num, i), log);
    }
  }

  /** Entry `i` could not be completed, so the whole subtree cannot. */
  lemma StageStuck(disk0: seq<Sector>, disk: seq<Sector>, level: nat, had: nat, num: nat, nodes: seq<nat>, free: seq<nat>,
                   left: seq<nat>, blocks: seq<nat>, i: nat, log: seq<nat>)
    requires Stage(disk0, disk, level, had, num, nodes, free, left, blocks, i, log) && Before(level, i) < num
    requires Cost(level - 1, KidNum(level, num, i)) - Cost(level - 1, KidNum(level, had, i)) > |left|
    ensures Cost(level, num) - Cost(level, had) > |free|
  {
    GrowArithmetic(level, had, num, i);
    TakenBound(level, had, num, i);
    TakenBound(level, had, num, i + 1);
  }

  /** Entry `i` has been completed. */
  lemma StageStep(disk0: seq<Sector>, disk: seq<Sector>, disk': seq<Sector>, level: nat, had: nat, num: nat,
                  nodes: seq<nat>, free: seq<nat>, left: seq<nat>, left': seq<nat>, added: seq<nat>, blocks: seq<nat>, i: nat, e: nat,
                  log: seq<nat>)
    requires Stage(disk0, disk, level, had, num, nodes, free, left, blocks, i, log) && Before(level, i) < num
    requires i < 128 && KidPos(level, had, i) <= KidPos(level, had, i + 1) <= |nodes|
    requires KidNum(level, num, i) <= Capacity(level - 1)
    requires |added| == Cost(level - 1, KidNum(level, num, i)) - Cost(level - 1, KidNum(level, had, i))
    requires added + left' == left
    requires Grown(disk, disk', level - 1, e, Kid(nodes, level, had, i), added, KidNum(level, num, i), log)
    ensures Stage(disk0, disk', level, had, num, nodes, free, left', blocks[i := e], i + 1, log)
  {
    hide SubKid, Sub, Fits, Progress, Taken, Cost, KidPos, Kid, KidNum, Before, Capacity;
    assert |disk'| == |disk|;
    hide Grown;
    GrowArithmetic(level, had, num, i);
    FirstKidCosts(level, num);
    TakenBound(level, had, num, 0);
    var t, t' := Taken(level, had, num, i), Taken(level, had, num, i + 1);
    assert |added| == t' - t && t <= |free|;
    TakeNext(free, left, left', added, t);
    ProgressStep(disk0, disk, disk', level, had, num, nodes, free, blocks, i, e, log);
  }

  /** The first entry of an index block that is to have data takes a sector at least. */
  lemma FirstKidCosts(level: nat, num: nat)
    requires 1 <= level <= 2 && 0 < num
    ensures Cost(level - 1, KidNum(level, num, 0)) > Cost(level - 1, KidNum(level, 0, 0))
  {
  }

  lemma TakeNext(free: seq<nat>, left: seq<nat>, left': seq<nat>, added: seq<nat>, t: nat)
    requires t <= |free| && left == free[t..] && added + left' == left
    ensures t + |added| <= |free| && added == free[t..t + |added|] && left' == free[t + |added|..]
  {
    assert added == left[..|added|] && left' == left[|added|..];
  }

  /** After the last entry the free list is what the subtree's cost leaves. */
  lemma StageDone(disk0: seq<Sector>, disk: seq<Sector>, level: nat, had: nat, num: nat, nodes: seq<nat>, free: seq<nat>,
                  left: seq<nat>, blocks: seq<nat>, i: nat, log: seq<nat>)
    requires Stage(disk0, disk, level, had, num, nodes, free, left, blocks, i, log) && num <= Before(level, i)
    ensures 0 <= Cost(level, num) - Cost(level, had) <= |free| && left == free[Cost(level, num) - Cost(level, had)..]
    ensures Progress(disk0, disk, level, had, num, nodes, nodes + free, blocks, i, log)
    ensures |nodes| == Cost(level, had) && Cost(level, num) <= |nodes + free| && Fits(disk0, nodes + free, log)
    ensures had == 0 ==> free != []
  {
    assert Cost(level, num) > 0 && Cost(level, 0) == 0;
    hide Progress, Fits, KidPos, Taken, Cost, Capacity;
    TakenBound(level, had, num, i);
  }

  /** The last step of inode_reserve_indirect: the block is written back (inode.c:398). */
  lemma FinishBlock(disk0: seq<Sector>, disk1: seq<Sector>, disk: seq<Sector>, level: nat, had: nat, num: nat, e: nat,
                    nodes: seq<nat>, free: seq<nat>, blocks: seq<nat>, last: nat, log: seq<nat>)
    requires 1 <= level <= 2 && had <= num && 0 < num <= Capacity(level) && |disk1| <= WORD_LIMIT
    requires |nodes| == Cost(level, had) && Cost(level, had) <= Cost(level, num) <= |nodes + free|
    requires e == (nodes + free)[0] && Fits(disk1, nodes + free, log)
    requires if had == 0 then SameExcept(disk0, disk1, [e], log) else disk1 == disk0
    requires num <= Before(level, last)
    requires Progress(disk1, disk, level, had, num, nodes, nodes + free, blocks, last, log)
    ensures AreWords(blocks) && |blocks| == 128 && e < |disk| == |disk1|
    ensures Grown(disk0, disk[e := EncodeWords(blocks)], level, e, nodes, free[..Cost(level, num) - Cost(level, had)], num, log)
  {
    assert Cost(level, num) > 0;
    hide Progress, SubKid, Sub, SameExcept, DataKept, Cost, Capacity, Before, KidPos, Taken;
    var added := free[..Cost(level, num) - Cost(level, had)];
    var all := nodes + added;
    FitsTaken(disk1, disk1, nodes, free, |added|, log);
    assert Progress(disk1, disk, level, had, num, nodes, all, blocks, last, log) by {
      ProgressPrefix(disk1, disk, level, had, num, nodes, free, |added|, blocks, last, log);
    }
    FitsApart(disk1, all, log);
    assert e == all[0] && |all| == Cost(level, num);
    assert |disk| == |disk1| by { ProgressSize(disk1, disk, level, had, num, nodes, all, blocks, last, log); }
    ProgressDone(disk1, disk, level, had, num, nodes, all, blocks, last, log);
    RootThenEntries(disk0, disk1, disk[e := EncodeWords(blocks)], level, had, num, e, nodes, added, log);
  }

  // ---------- the phases of inode_reserve ----------

  /** After some phases the inode maps `m` data sectors, having taken a prefix of the free list. */
  ghost predicate Phase(disk0: seq<Sector>, disk: seq<Sector>, d0: InodeDisk, d: InodeDisk, nodes: seq<nat>, had: nat,
                        added: seq<nat>, m: nat, free: seq<nat>, left: seq<nat>, log: seq<nat>) {
    && had <= m && |disk| == |disk0| <= WORD_LIMIT && Fits(disk0, nodes + free, log)
    && |nodes| == InodeCost(had) && |nodes + added| == InodeCost(m)
    && added + left == free
    && Extended(disk0, disk, d, nodes, added, m, log)
    && d.length == d0.length && d.isDir == d0.isDir
  }

  lemma PhaseInit(disk: seq<Sector>, d: InodeDisk, nodes: seq<nat>, had: nat, free: seq<nat>, log: seq<nat>)
    requires Maps(disk, d, nodes, had) && |disk| <= WORD_LIMIT && Fits(disk, nodes + free, log)
    ensures Phase(disk, disk, d, d, nodes, had, [], had, free, free, log)
  {
    ExtendedRefl(disk, d, nodes, had, log);
    assert nodes + [] == nodes;
  }

  /** What the next phase may use. */
  lemma PhaseFits(disk0: seq<Sector>, disk: seq<Sector>, d0: InodeDisk, d: InodeDisk, nodes: seq<nat>, had: nat,
                  added: seq<nat>, m: nat, free: seq<nat>, left: seq<nat>, log: seq<nat>)
    requires Phase(disk0, disk, d0, d, nodes, had, added, m, free, left, log)
    ensures had <= m && Maps(disk, d, nodes + added, m) && Fits(disk, nodes + added + left, log)
    ensures |left| == |free| - (InodeCost(m) - InodeCost(had)) && InodeCost(had) <= InodeCost(m)
  {
    assert free[..|added|] == added && free[|added|..] == left;
    FitsTaken(disk0, disk, nodes, free, |added|, log);
  }

  /** Phases compose. */
  lemma PhaseStep(disk0: seq<Sector>, disk1: seq<Sector>, disk2: seq<Sector>, d0: InodeDisk, d1: InodeDisk, d2: InodeDisk,
                  nodes: seq<nat>, had: nat, a: seq<nat>, m: nat, b: seq<nat>, n: nat,
                  free: seq<nat>, left1: seq<nat>, left2: seq<nat>, log: seq<nat>)
    requires Phase(disk0, disk1, d0, d1, nodes, had, a, m, free, left1, log)
    requires Extended(disk1, disk2, d2, nodes + a, b, n, log) && m <= n && b + left2 == left1
    requires d2.length == d1.length && d2.isDir == d1.isDir
    ensures Phase(disk0, disk2, d0, d2, nodes, had, a + b, n, free, left2, log)
  {
    assert (a + b) + left2 == free by { assert a + (b + left2) == free; }
    assert nodes + (a + b) == nodes + a + b;
    assert free[..|a + b|] == a + b;
    FitsTaken(disk0, disk0, nodes, free, |a + b|, log);
    ExtendedTrans(disk0, disk1, disk2, d1, d2, nodes, a, b, m, n, log);
  }

  /** All phases done. */
  lemma PhaseDone(disk0: seq<Sector>, disk: seq<Sector>, d0: InodeDisk, d: InodeDisk, nodes: seq<nat>, had: nat,
                  added: seq<nat>, n: nat, free: seq<nat>, left: seq<nat>, log: seq<nat>)
    requires Phase(disk0, disk, d0, d, nodes, had, added, n, free, left, log)
    ensures |added| == InodeCost(n) - InodeCost(had) && added + left == free && InodeCost(n) - InodeCost(had) <= |free|
    ensures Extended(disk0, disk, d, nodes, added, n, log)
    ensures d.length == d0.length && d.isDir == d0.isDir
  {
  }

  lemma DirectCosts(had: nat, l: nat, num: nat)
    requires had <= l <= num && l <= 123
    ensures InodeCost(num) - InodeCost(had) >= l - had
  {
  }

  /** Data sectors mapped once the indirect range has been served. */
  function AfterIndirect(m: nat, num: nat): nat {
    if num <= 251 then num else if m <= 251 then 251 else m
  }

  lemma IndirectPhase(disk: seq<Sector>, disk': seq<Sector>, d: InodeDisk, nodes: seq<nat>, m: nat,
                      e: nat, added: seq<nat>, num: nat, log: seq<nat>)
    requires Maps(disk, d, nodes, m) && 123 <= m <= num <= MAX_SECTORS && |disk| <= WORD_LIMIT
    requires Fits(disk, nodes + added, log)
    requires Grown(disk, disk', 1, e, IndirectPart(nodes, m), added, Indirect(num), log)
    requires |added| == Cost(1, Indirect(num)) - Cost(1, Indirect(m))
    ensures Extended(disk, disk', d.(indirect := e), nodes, added, AfterIndirect(m, num), log)
  {
    hide Maps, Fits, Grown, Extended;
    if m <= 251 {
      IndirectStep(disk, disk', d, nodes, m, e, added, AfterIndirect(m, num), log);
    } else {
      assert added == [] && nodes + added == nodes;
      IndirectSame(disk, disk', d, nodes, m, e, log);
    }
  }

  /** What the costs of the phases add up to. */
  lemma PhaseCosts(had: nat, m: nat, num: nat)
    requires had <= m <= num
    ensures InodeCost(had) <= InodeCost(m) <= InodeCost(num)
    ensures Direct(m) <= Direct(num) && Indirect(m) <= Indirect(num) && Doubly(m) <= Doubly(num)
    ensures Cost(1, Indirect(m)) <= Cost(1, Indirect(num)) && Cost(2, Doubly(m)) <= Cost(2, Doubly(num))
    ensures 123 <= m ==>
              InodeCost(num) - InodeCost(m) == Cost(1, Indirect(num)) - Cost(1, Indirect(m)) + Cost(2, Doubly(num)) - Cost(2, Doubly(m))
    ensures num <= 123 ==> InodeCost(num) - InodeCost(m) == num - m
    ensures 123 < num ==> Indirect(num) == if num - 123 <= 128 then num - 123 else 128
  {
  }

  /** The two subtrees of an inode, each with the free sectors to grow into. */
  lemma PartsFit(disk: seq<Sector>, d: InodeDisk, nodes: seq<nat>, m: nat, free: seq<nat>, log: seq<nat>)
    requires Maps(disk, d, nodes, m) && Fits(disk, nodes + free, log)
    ensures |nodes| == InodeCost(m)
    ensures Sub(disk, 1, d.indirect, IndirectPart(nodes, m), Indirect(m))
    ensures Sub(disk, 2, d.doubly, DoublyPart(nodes, m), Doubly(m))
    ensures Fits(disk, IndirectPart(nodes, m) + free, log) && Fits(disk, DoublyPart(nodes, m) + free, log)
  {
    var a, b := Direct(m), Direct(m) + Cost(1, Indirect(m));
    FitsPart(disk, nodes, a, b, free, 0, log);
    FitsPart(disk, nodes, b, |nodes|, free, 0, log);
    assert free[0..] == free && nodes[b..|nodes|] == nodes[b..];
  }
}
