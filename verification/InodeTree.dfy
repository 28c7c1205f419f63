/** The index tree of an inode as one sequence of sectors, in the order inode_reserve allocates them. */
module InodeTree {
  import opened Sectors

  // ---------- shape of a subtree ----------

  /** Data sectors under one entry of a block at `level` (`unit` in a3/fs/inode.c:387). */
  function Unit(level: nat): nat {
    if level <= 1 then 1 else PTRS_PER_SECTOR
  }

  /** Data sectors before entry `i` of a full block at `level`. */
  function Before(level: nat, i: nat): nat {
    if level <= 1 then i else PTRS_PER_SECTOR * i
  }

  function Capacity(level: nat): nat {
    if level == 0 then 1 else if level == 1 then PTRS_PER_SECTOR else PTRS_PER_SECTOR * PTRS_PER_SECTOR
  }

  /** Sectors in a subtree holding `n` data sectors, index blocks included. */
  function Cost(level: nat, n: nat): nat {
    if n == 0 then 0
    else if level == 0 then 1
    else if level == 1 then 1 + n
    else 1 + n + (n + PTRS_PER_SECTOR - 1) / PTRS_PER_SECTOR
  }

  /** Data sectors under entry `i` when the block holds `n`. */
  function KidNum(level: nat, n: nat, i: nat): nat {
    if n <= Before(level, i) then 0
    else if n - Before(level, i) <= Unit(level) then n - Before(level, i)
    else Unit(level)
  }

  /** Where the sectors of entry `i` begin in the sequence of a subtree with `n` data sectors. */
  function KidPos(level: nat, n: nat, i: nat): nat {
    if n <= Before(level, i) then Cost(level, n)
    else if level == 1 then 1 + i
    else 1 + 129 * i
  }

  /** Position `p` of a subtree's sequence is a data sector rather than an index block. */
  predicate IsLeaf(level: nat, p: nat) {
    if level == 0 then true
    else if level == 1 then p != 0
    else p != 0 && (p - 1) % 129 != 0
  }

  predicate Distinct(s: seq<nat>) {
    forall i, j | 0 <= i < j < |s| :: s[i] != s[j]
  }

  /** The part of a subtree's sequence that belongs to entry `i`. */
  function Kid(nodes: seq<nat>, level: nat, n: nat, i: nat): seq<nat>
    requires KidPos(level, n, i) <= KidPos(level, n, i + 1) <= |nodes|
  {
    nodes[KidPos(level, n, i)..KidPos(level, n, i + 1)]
  }

  lemma KidPosStep(level: nat, n: nat, i: nat)
    requires 1 <= level <= 2 && n <= Capacity(level) && i < 128
    ensures KidPos(level, n, i) <= KidPos(level, n, i + 1) <= Cost(level, n)
    ensures n > 0 ==> 1 <= KidPos(level, n, i)
    ensures KidPos(level, n, i + 1) == KidPos(level, n, i) + Cost(level - 1, KidNum(level, n, i))
    ensures KidNum(level, n, i) <= Capacity(level - 1)
  {
  }

  /** `nodes` are, in order, the sectors of the subtree with root pointer `e` and `n` data sectors;
      pointers beyond them are 0. */
  ghost predicate Sub(disk: seq<Sector>, level: nat, e: nat, nodes: seq<nat>, n: nat)
    requires level <= 2
    decreases level, 0
  {
    && n <= Capacity(level)
    && |nodes| == Cost(level, n)
    && (if n == 0 then e == 0 else e == nodes[0] && 0 < e < |disk|)
    && (n > 0 && level > 0 ==>
          forall i {:trigger Ptr(disk[e], i)} | 0 <= i < 128 :: SubKid(disk, level, Ptr(disk[e], i), nodes, n, i))
  }

  /** The pointer `ptr` in entry `i` carries that entry's part of `nodes`. */
  ghost predicate SubKid(disk: seq<Sector>, level: nat, ptr: nat, nodes: seq<nat>, n: nat, i: nat)
    requires 1 <= level <= 2 && i < 128
    decreases level - 1, 1
  {
    && KidPos(level, n, i) <= KidPos(level, n, i + 1) <= |nodes|
    && Sub(disk, level - 1, ptr, Kid(nodes, level, n, i), KidNum(level, n, i))
  }

  /** Sub reads the disk only at index blocks. */
  lemma {:induction false} SubFrame(disk: seq<Sector>, disk': seq<Sector>, level: nat, e: nat, nodes: seq<nat>, n: nat)
    requires level <= 2 && |disk| == |disk'|
    requires Sub(disk, level, e, nodes, n)
    requires forall p {:trigger nodes[p]} | 0 <= p < |nodes| && !IsLeaf(level, p) && nodes[p] < |disk| :: disk'[nodes[p]] == disk[nodes[p]]
    ensures Sub(disk', level, e, nodes, n)
    decreases level
  {
    if n > 0 && level > 0 {
      assert !IsLeaf(level, 0);
      forall i {:trigger Ptr(disk'[e], i)} | 0 <= i < 128
        ensures SubKid(disk', level, Ptr(disk'[e], i), nodes, n, i)
      {
        KidPosStep(level, n, i);
        var kid := Kid(nodes, level, n, i);
        assert SubKid(disk, level, Ptr(disk[e], i), nodes, n, i);
        forall p | 0 <= p < |kid| && !IsLeaf(level - 1, p) && kid[p] < |disk|
          ensures disk'[kid[p]] == disk[kid[p]]
        {
          assert kid[p] == nodes[KidPos(level, n, i) + p];
        }
        SubFrame(disk, disk', level - 1, Ptr(disk[e], i), kid, KidNum(level, n, i));
      }
    }
  }

  // ---------- growing a subtree ----------

  /** `disk'` agrees with `disk` away from two sets of sectors. */
  ghost predicate SameExcept(disk: seq<Sector>, disk': seq<Sector>, own: seq<nat>, log: seq<nat>) {
    && |disk'| == |disk|
    && forall s {:trigger disk'[s]} | 0 <= s < |disk| && s !in own && s !in log :: disk'[s] == disk[s]
  }

  lemma SameExceptChain(disk0: seq<Sector>, disk1: seq<Sector>, disk2: seq<Sector>, a: seq<nat>, b: seq<nat>, log: seq<nat>)
    requires SameExcept(disk0, disk1, a, log) && SameExcept(disk1, disk2, b, log) && forall s | s in b :: s in a
    ensures SameExcept(disk0, disk2, a, log)
  {
    forall s | 0 <= s < |disk0| && s !in a && s !in log
      ensures disk2[s] == disk0[s]
    {
      assert disk1[s] == disk0[s];
    }
  }

  lemma TakeDrop(s: seq<nat>, k: nat)
    requires k <= |s|
    ensures s[..k] + s[k..] == s
  {
  }

  /** Sectors that are the inode's own or free, with none of them in the free map file. */
  ghost predicate Fits(disk: seq<Sector>, all: seq<nat>, log: seq<nat>) {
    && Distinct(all)
    && forall p {:trigger all[p]} | 0 <= p < |all| :: 0 < all[p] < |disk| && all[p] !in log
  }

  lemma WroteOne(disk: seq<Sector>, disk': seq<Sector>, s: nat)
    requires s < |disk| == |disk'| && disk' == disk[s := disk'[s]]
    ensures SameExcept(disk, disk', [s], [])
  {
  }

  /** The data sectors among the first `kept` of `all` hold what they held, the later ones are zero. */
  ghost predicate DataKept(disk: seq<Sector>, disk': seq<Sector>, level: nat, all: seq<nat>, kept: nat) {
    && |disk'| == |disk|
    && forall p {:trigger all[p]} | 0 <= p < |all| && IsLeaf(level, p) && all[p] < |disk| ::
        && (p < kept ==> disk'[all[p]] == disk[all[p]])
        && (p >= kept ==> disk'[all[p]] == ZeroSector())
  }

  /** A subtree has grown from `nodes` to `nodes + added`, and now holds `num` data sectors. */
  ghost predicate Grown(disk: seq<Sector>, disk': seq<Sector>, level: nat, e: nat,
                        nodes: seq<nat>, added: seq<nat>, num: nat, log: seq<nat>)
    requires level <= 2
  {
    && Sub(disk', level, e, nodes + added, num)
    && SameExcept(disk, disk', nodes + added, log)
    && DataKept(disk, disk', level, nodes + added, |nodes|)
  }

  /** Free sectors used up once entries below `i` hold their share of `num` instead of `had`. */
  function Taken(level: nat, had: nat, num: nat, i: nat): nat {
    if KidPos(level, num, i) <= Cost(level, had) then 0 else KidPos(level, num, i) - Cost(level, had)
  }

  lemma GrowArithmetic(level: nat, had: nat, num: nat, i: nat)
    requires 1 <= level <= 2 && had <= num <= Capacity(level) && Before(level, i) < num
    ensures i < 128 && KidNum(level, had, i) <= KidNum(level, num, i)
    ensures Taken(level, had, num, i + 1)
         == Taken(level, had, num, i) + Cost(level - 1, KidNum(level, num, i)) - Cost(level - 1, KidNum(level, had, i))
    ensures KidNum(level, had, i) > 0 ==> KidPos(level, had, i) == KidPos(level, num, i)
    ensures KidNum(level, had, i) == 0 ==> Cost(level, had) <= KidPos(level, num, i)
    ensures KidPos(level, had, i + 1) == KidPos(level, num, i + 1) || KidPos(level, had, i + 1) == Cost(level, had)
    ensures KidPos(level, had, i + 1) <= KidPos(level, num, i + 1)
  {
    if level == 1 {
    } else {
    }
  }

  lemma LaterKid(level: nat, had: nat, num: nat, i: nat, j: nat)
    requires 1 <= level <= 2 && had <= num <= Capacity(level) && i < j
    ensures KidPos(level, had, j) == Cost(level, had) || KidPos(level, had, j) >= KidPos(level, num, i + 1)
    ensures KidPos(level, num, i + 1) <= KidPos(level, num, j)
  {
  }

  lemma Stretch(nodes: seq<nat>, free: seq<nat>, a: nat, b: nat)
    requires a <= b <= |nodes| + |free|
    ensures b <= |nodes| ==> (nodes + free)[a..b] == nodes[a..b]
    ensures |nodes| <= a ==> (nodes + free)[a..b] == free[a - |nodes|..b - |nodes|]
    ensures a <= |nodes| <= b ==> (nodes + free)[a..b] == nodes[a..] + free[..b - |nodes|]
  {
  }

  /** Entry `i` grown by the next free sectors is entry `i` of the grown sequence. */
  lemma KidAppend(level: nat, had: nat, num: nat, i: nat, nodes: seq<nat>, free: seq<nat>)
    requires 1 <= level <= 2 && had <= num <= Capacity(level) && Before(level, i) < num
    requires |nodes| == Cost(level, had) && Taken(level, had, num, i + 1) <= |free|
    ensures i < 128 && Taken(level, had, num, i) <= Taken(level, had, num, i + 1)
    ensures KidPos(level, had, i) <= KidPos(level, had, i + 1) <= |nodes|
    ensures KidPos(level, num, i) <= KidPos(level, num, i + 1) <= |nodes + free|
    ensures Kid(nodes, level, had, i) + free[Taken(level, had, num, i)..Taken(level, had, num, i + 1)]
         == Kid(nodes + free, level, num, i)
  {
    GrowArithmetic(level, had, num, i);
    KidPosStep(level, had, i);
    KidPosStep(level, num, i);
    hide Cost, Before, Capacity, KidNum, KidPos;
    var a, b, m := KidPos(level, num, i), KidPos(level, num, i + 1), KidPos(level, had, i + 1);
    Stretch(nodes, free, a, b);
    if KidNum(level, had, i) > 0 && m == b {
      assert free[0..0] == [];
    }
  }

  /** Length of the part of `all` that belongs to the subtree before entry `i` is grown. */
  function Used(level: nat, had: nat, num: nat, i: nat): nat {
    if KidPos(level, num, i) <= Cost(level, had) then Cost(level, had) else KidPos(level, num, i)
  }

  /** Loop state of inode_reserve_indirect before entry `i`: `blocks` is the block's content in memory,
      `all` the subtree's old sectors followed by the free ones. */
  ghost predicate Progress(disk0: seq<Sector>, disk: seq<Sector>, level: nat, had: nat, num: nat,
                           nodes: seq<nat>, all: seq<nat>, blocks: seq<nat>, i: nat, log: seq<nat>)
    requires 1 <= level <= 2
  {
    && |blocks| == 128 && i <= 128 && nodes <= all && |nodes| == Cost(level, had) && KidPos(level, num, i) <= |all|
    && (forall j {:trigger blocks[j]} | 0 <= j < i :: SubKid(disk, level, blocks[j], all, num, j))
    && (forall j {:trigger blocks[j]} | i <= j < 128 :: SubKid(disk, level, blocks[j], nodes, had, j))
    && SameExcept(disk0, disk, all[..Used(level, had, num, i)], log)
    && DataKept(disk0, disk, level, all[..Used(level, had, num, i)], |nodes|)
  }

  /** A stretch of `all` is disjoint from another stretch. */
  lemma Apart(all: seq<nat>, a: nat, b: nat, p: nat)
    requires Distinct(all) && a <= b <= |all| && p < |all| && !(a <= p < b)
    ensures all[p] !in all[a..b]
  {
  }

  /** A kid occupying another stretch of `all` is not disturbed by growing entry `i`. */
  lemma KidUndisturbed(disk: seq<Sector>, disk': seq<Sector>, level: nat, ptr: nat, seq0: seq<nat>, n: nat, j: nat,
                       all: seq<nat>, a: nat, b: nat, log: seq<nat>)
    requires 1 <= level <= 2 && j < 128 && SubKid(disk, level, ptr, seq0, n, j)
    requires seq0 <= all && Distinct(all) && a <= b <= |all|
    requires forall p | 0 <= p < |all| :: all[p] < |disk| && all[p] !in log
    requires KidPos(level, n, j + 1) <= a || b <= KidPos(level, n, j) || KidPos(level, n, j) == KidPos(level, n, j + 1)
    requires SameExcept(disk, disk', all[a..b], log)
    ensures SubKid(disk', level, ptr, seq0, n, j)
  {
    var kid := Kid(seq0, level, n, j);
    forall p | 0 <= p < |kid|
      ensures disk'[kid[p]] == disk[kid[p]]
    {
      assert kid[p] == all[KidPos(level, n, j) + p];
      Apart(all, a, b, KidPos(level, n, j) + p);
    }
    SubFrame(disk, disk', level - 1, ptr, kid, KidNum(level, n, j));
  }

  /** Positions of a grown sequence and of entry `i` in it: the leaves and the old part correspond. */
  lemma KidPositions(level: nat, had: nat, num: nat, i: nat, p: nat)
    requires 1 <= level <= 2 && had <= num <= Capacity(level) && Before(level, i) < num
    requires KidPos(level, num, i) <= p < KidPos(level, num, i + 1)
    ensures i < 128 && KidPos(level, had, i) <= KidPos(level, had, i + 1)
    ensures IsLeaf(level, p) <==> IsLeaf(level - 1, p - KidPos(level, num, i))
    ensures p < Cost(level, had) <==> p - KidPos(level, num, i) < KidPos(level, had, i + 1) - KidPos(level, had, i)
  {
    GrowArithmetic(level, had, num, i);
    KidPosStep(level, had, i);
  }

  lemma ProgressStepKids(disk0: seq<Sector>, disk: seq<Sector>, disk': seq<Sector>, level: nat, had: nat, num: nat,
                         nodes: seq<nat>, all: seq<nat>, blocks: seq<nat>, i: nat, e: nat, log: seq<nat>)
    requires 1 <= level <= 2 && had <= num <= Capacity(level) && Before(level, i) < num && i < 128
    requires Progress(disk0, disk, level, had, num, nodes, all, blocks, i, log)
    requires Distinct(all) && forall p | 0 <= p < |all| :: all[p] < |disk| && all[p] !in log
    requires KidPos(level, num, i) <= KidPos(level, num, i + 1) <= |all|
    requires SameExcept(disk, disk', all[KidPos(level, num, i)..KidPos(level, num, i + 1)], log)
    requires Sub(disk', level - 1, e, Kid(all, level, num, i), KidNum(level, num, i))
    ensures forall j {:trigger blocks[i := e][j]} | 0 <= j < i + 1 :: SubKid(disk', level, blocks[i := e][j], all, num, j)
    ensures forall j {:trigger blocks[i := e][j]} | i + 1 <= j < 128 :: SubKid(disk', level, blocks[i := e][j], nodes, had, j)
  {
    var a, b := KidPos(level, num, i), KidPos(level, num, i + 1);
    forall j {:trigger blocks[i := e][j]} | 0 <= j < i
      ensures SubKid(disk', level, blocks[i := e][j], all, num, j)
    {
      LaterKid(level, num, num, j, i);
      KidUndisturbed(disk, disk', level, blocks[j], all, num, j, all, a, b, log);
    }
    forall j {:trigger blocks[i := e][j]} | i + 1 <= j < 128
      ensures SubKid(disk', level, blocks[i := e][j], nodes, had, j)
    {
      LaterKid(level, had, num, i, j);
      KidPosStep(level, had, j);
      KidUndisturbed(disk, disk', level, blocks[j], nodes, had, j, all, a, b, log);
    }
  }

  lemma SameExceptStep(disk0: seq<Sector>, disk: seq<Sector>, disk': seq<Sector>, all: seq<nat>, u: nat, a: nat, b: nat, v: nat, log: seq<nat>)
    requires u <= v <= |all| && a <= b <= v
    requires SameExcept(disk0, disk, all[..u], log) && SameExcept(disk, disk', all[a..b], log)
    ensures SameExcept(disk0, disk', all[..v], log)
  {
    forall s | 0 <= s < |disk0| && s !in all[..v] && s !in log
      ensures disk'[s] == disk0[s]
    {
      assert s !in all[..u] by { assert all[..u] <= all[..v]; }
      assert s !in all[a..b] by { assert all[a..b] == all[..v][a..b]; }
      assert disk[s] == disk0[s];
    }
  }

  lemma DataKeptStep(disk0: seq<Sector>, disk: seq<Sector>, disk': seq<Sector>, level: nat, had: nat, num: nat,
                     nodes: seq<nat>, all: seq<nat>, i: nat, log: seq<nat>, p: nat)
    requires 1 <= level <= 2 && had <= num <= Capacity(level) && Before(level, i) < num && i < 128
    requires Distinct(all) && forall q | 0 <= q < |all| :: all[q] < |disk| && all[q] !in log
    requires nodes <= all && |nodes| == Cost(level, had)
    requires KidPos(level, num, i) <= KidPos(level, num, i + 1) <= |all|
    requires KidPos(level, had, i) <= KidPos(level, had, i + 1)
    requires DataKept(disk0, disk, level, all[..Used(level, had, num, i)], |nodes|)
    requires SameExcept(disk, disk', Kid(all, level, num, i), log)
    requires DataKept(disk, disk', level - 1, Kid(all, level, num, i), KidPos(level, had, i + 1) - KidPos(level, had, i))
    requires p < Used(level, had, num, i + 1) && IsLeaf(level, p)
    ensures p < |nodes| ==> disk'[all[p]] == disk0[all[p]]
    ensures p >= |nodes| ==> disk'[all[p]] == ZeroSector()
  {
    var a, b := KidPos(level, num, i), KidPos(level, num, i + 1);
    var u := Used(level, had, num, i);
    if a <= p < b {
      KidPositions(level, had, num, i, p);
      hide IsLeaf, KidPos, Cost, Capacity, Before;
      assert Kid(all, level, num, i)[p - a] == all[p];
      if p < |nodes| {
        assert all[..u][p] == all[p];
      }
    } else {
      Apart(all, a, b, p);
      assert all[..u][p] == all[p];
      assert disk'[all[p]] == disk[all[p]];
    }
  }

  lemma ProgressStepData(disk0: seq<Sector>, disk: seq<Sector>, disk': seq<Sector>, level: nat, had: nat, num: nat,
                         nodes: seq<nat>, all: seq<nat>, i: nat, log: seq<nat>)
    requires 1 <= level <= 2 && had <= num <= Capacity(level) && Before(level, i) < num && i < 128
    requires Distinct(all) && forall p | 0 <= p < |all| :: all[p] < |disk| && all[p] !in log
    requires nodes <= all && |nodes| == Cost(level, had)
    requires KidPos(level, num, i) <= KidPos(level, num, i + 1) <= |all|
    requires KidPos(level, had, i) <= KidPos(level, had, i + 1)
    requires SameExcept(disk0, disk, all[..Used(level, had, num, i)], log)
    requires DataKept(disk0, disk, level, all[..Used(level, had, num, i)], |nodes|)
    requires SameExcept(disk, disk', Kid(all, level, num, i), log)
    requires DataKept(disk, disk', level - 1, Kid(all, level, num, i), KidPos(level, had, i + 1) - KidPos(level, had, i))
    ensures SameExcept(disk0, disk', all[..Used(level, had, num, i + 1)], log)
    ensures DataKept(disk0, disk', level, all[..Used(level, had, num, i + 1)], |nodes|)
  {
    var v := Used(level, had, num, i + 1);
    SameExceptStep(disk0, disk, disk', all, Used(level, had, num, i), KidPos(level, num, i), KidPos(level, num, i + 1), v, log);
    hide KidPos, Cost, Capacity, Before, Used;
    forall p {:trigger all[..v][p]} | 0 <= p < v && IsLeaf(level, p)
      ensures p < |nodes| ==> disk'[all[p]] == disk0[all[p]]
      ensures p >= |nodes| ==> disk'[all[p]] == ZeroSector()
    {
      DataKeptStep(disk0, disk, disk', level, had, num, nodes, all, i, log, p);
    }
  }

  /** One iteration of the loop of inode_reserve_indirect. */
  lemma ProgressStep(disk0: seq<Sector>, disk: seq<Sector>, disk': seq<Sector>, level: nat, had: nat, num: nat,
                     nodes: seq<nat>, free: seq<nat>, blocks: seq<nat>, i: nat, e: nat, log: seq<nat>)
    requires 1 <= level <= 2 && had <= num <= Capacity(level) && Before(level, i) < num && i < 128
    requires Progress(disk0, disk, level, had, num, nodes, nodes + free, blocks, i, log)
    requires |disk| == |disk0| && Fits(disk0, nodes + free, log)
    requires Taken(level, had, num, i) <= Taken(level, had, num, i + 1) <= |free|
    requires KidPos(level, had, i) <= KidPos(level, had, i + 1) <= |nodes|
    requires Grown(disk, disk', level - 1, e, Kid(nodes, level, had, i),
                   free[Taken(level, had, num, i)..Taken(level, had, num, i + 1)], KidNum(level, num, i), log)
    ensures Progress(disk0, disk', level, had, num, nodes, nodes + free, blocks[i := e], i + 1, log)
  {
    KidAppend(level, had, num, i, nodes, free);
    ProgressStepKids(disk0, disk, disk', level, had, num, nodes, nodes + free, blocks, i, e, log);
    ProgressStepData(disk0, disk, disk', level, had, num, nodes, nodes + free, i, log);
  }

  lemma ProgressInit(disk: seq<Sector>, level: nat, had: nat, num: nat, e: nat, nodes: seq<nat>, free: seq<nat>, log: seq<nat>)
    requires 1 <= level <= 2 && had <= num && 0 < num <= Capacity(level)
    requires had > 0 ==> Sub(disk, level, e, nodes, had)
    requires had == 0 ==> nodes == [] && e < |disk| && disk[e] == ZeroSector() && |free| > 0
    ensures e < |disk| && Progress(disk, disk, level, had, num, nodes, nodes + free, DecodePtrs(disk[e]), 0, log)
  {
    forall j {:trigger DecodePtrs(disk[e])[j]} | 0 <= j < 128
      ensures SubKid(disk, level, DecodePtrs(disk[e])[j], nodes, had, j)
    {
      if had == 0 {
        ZeroPtr(j);
      } else {
        assert SubKid(disk, level, Ptr(disk[e], j), nodes, had, j);
      }
    }
  }

  /** Pointers of a block whose entries are subtrees are words. */
  lemma SubPtrsAreWords(disk: seq<Sector>, level: nat, nodes: seq<nat>, num: nat, blocks: seq<nat>)
    requires 1 <= level <= 2 && |blocks| == 128 && |disk| <= WORD_LIMIT
    requires forall j {:trigger blocks[j]} | 0 <= j < 128 :: SubKid(disk, level, blocks[j], nodes, num, j)
    ensures AreWords(blocks)
  {
  }

  lemma KidAfterWrite(disk: seq<Sector>, level: nat, nodes: seq<nat>, num: nat, blocks: seq<nat>, s: Sector, j: nat)
    requires 1 <= level <= 2 && 0 < num <= Capacity(level) && |nodes| == Cost(level, num)
    requires |blocks| == 128 && DecodePtrs(s) == blocks && j < 128
    requires Distinct(nodes) && forall p | 0 <= p < |nodes| :: 0 < nodes[p] < |disk|
    requires SubKid(disk, level, blocks[j], nodes, num, j)
    ensures SubKid(disk[nodes[0] := s], level, Ptr(s, j), nodes, num, j)
  {
    hide Ptr;
    KidPosStep(level, num, j);
    assert nodes[0..1] == [nodes[0]];
    KidUndisturbed(disk, disk[nodes[0] := s], level, blocks[j], nodes, num, j, nodes, 0, 1, []);
  }

  /** An index block whose entries are in order, written to its sector, roots a subtree. */
  lemma SubFromKids(disk: seq<Sector>, level: nat, nodes: seq<nat>, num: nat, blocks: seq<nat>)
    requires 1 <= level <= 2 && 0 < num <= Capacity(level) && |nodes| == Cost(level, num)
    requires |blocks| == 128 && |disk| <= WORD_LIMIT
    requires Distinct(nodes) && forall p | 0 <= p < |nodes| :: 0 < nodes[p] < |disk|
    requires forall j {:trigger blocks[j]} | 0 <= j < 128 :: SubKid(disk, level, blocks[j], nodes, num, j)
    ensures AreWords(blocks) && Sub(disk[nodes[0] := EncodeWords(blocks)], level, nodes[0], nodes, num)
  {
    hide Ptr, EncodeWords, SubKid;
    SubPtrsAreWords(disk, level, nodes, num, blocks);
    EncodedPtrs(blocks);
    var s := EncodeWords(blocks);
    forall j {:trigger Ptr(s, j)} | 0 <= j < 128
      ensures SubKid(disk[nodes[0] := s], level, Ptr(s, j), nodes, num, j)
    {
      assert SubKid(disk, level, blocks[j], nodes, num, j);
      KidAfterWrite(disk, level, nodes, num, blocks, s, j);
    }
  }

  /** After the last entry the block is written back, and the subtree is complete. */
  lemma ProgressDone(disk0: seq<Sector>, disk: seq<Sector>, level: nat, had: nat, num: nat,
                     nodes: seq<nat>, all: seq<nat>, blocks: seq<nat>, i: nat, log: seq<nat>)
    requires 1 <= level <= 2 && had <= num && 0 < num <= Capacity(level)
    requires Progress(disk0, disk, level, had, num, nodes, all, blocks, i, log)
    requires num <= Before(level, i) && |all| == Cost(level, num)
    requires Distinct(all) && forall p | 0 <= p < |all| :: 0 < all[p] < |disk|
    requires |disk| <= WORD_LIMIT
    ensures AreWords(blocks)
    ensures Sub(disk[all[0] := EncodeWords(blocks)], level, all[0], all, num)
    ensures SameExcept(disk0, disk[all[0] := EncodeWords(blocks)], all, log)
    ensures DataKept(disk0, disk[all[0] := EncodeWords(blocks)], level, all, |nodes|)
  {
    forall j {:trigger blocks[j]} | 0 <= j < 128
      ensures SubKid(disk, level, blocks[j], all, num, j)
    {
      if j >= i {
        KidPosStep(level, num, j);
        assert SubKid(disk, level, blocks[j], nodes, had, j);
      }
    }
    assert all[..Used(level, had, num, i)] == all;
    SubFromKids(disk, level, all, num, blocks);
  }

  /** The free sectors taken so far never exceed what the whole subtree needs. */
  lemma TakenBound(level: nat, had: nat, num: nat, i: nat)
    requires 1 <= level <= 2 && had <= num && 0 < num <= Capacity(level)
    ensures Cost(level, had) <= Cost(level, num)
    ensures i <= 128 ==> Taken(level, had, num, i) <= Cost(level, num) - Cost(level, had)
    ensures num <= Before(level, i) ==> Taken(level, had, num, i) == Cost(level, num) - Cost(level, had)
    ensures Taken(level, had, num, 0) == if had == 0 then 1 else 0
  {
  }

  /** A fresh or old root followed by the loop over its entries. */
  lemma RootThenEntries(disk0: seq<Sector>, disk1: seq<Sector>, disk2: seq<Sector>, level: nat, had: nat, num: nat,
                        e: nat, nodes: seq<nat>, added: seq<nat>, log: seq<nat>)
    requires 1 <= level <= 2 && |nodes| == Cost(level, had) && |nodes + added| > 0
    requires if had == 0 then SameExcept(disk0, disk1, [(nodes + added)[0]], log) else disk1 == disk0
    requires Sub(disk2, level, e, nodes + added, num)
    requires SameExcept(disk1, disk2, nodes + added, log)
    requires DataKept(disk1, disk2, level, nodes + added, |nodes|)
    ensures Grown(disk0, disk2, level, e, nodes, added, num, log)
  {
    var all := nodes + added;
    forall s | 0 <= s < |disk0| && s !in all && s !in log
      ensures disk2[s] == disk0[s]
    {
      assert s != all[0];
      assert disk1[s] == disk0[s];
    }
  }

  /** A newly allocated sector filled with zeros. */
  lemma FreshSector(disk0: seq<Sector>, disk1: seq<Sector>, s: nat, log: seq<nat>)
    requires SameExcept(disk0, disk1, [], log) && s < |disk0|
    ensures SameExcept(disk0, disk1[s := ZeroSector()], [s], log)
  {
  }

  /** Level 0: an absent data sector has been allocated and zeroed. */
  lemma FreshLeaf(disk0: seq<Sector>, disk1: seq<Sector>, s: nat, log: seq<nat>)
    requires SameExcept(disk0, disk1, [], log) && 0 < s < |disk0|
    ensures Grown(disk0, disk1[s := ZeroSector()], 0, s, [], [s], 1, log)
  {
    assert [] + [s] == [s];
    FreshSector(disk0, disk1, s, log);
  }

  /** Level 0: a data sector that is there already stays. */
  lemma SameLeaf(disk: seq<Sector>, s: nat, nodes: seq<nat>, log: seq<nat>)
    requires Sub(disk, 0, s, nodes, 1)
    ensures Grown(disk, disk, 0, s, nodes, [], 1, log)
  {
    assert nodes + [] == nodes;
  }

  /** Free sectors that were not needed play no part. */
  lemma ProgressPrefix(disk0: seq<Sector>, disk: seq<Sector>, level: nat, had: nat, num: nat,
                       nodes: seq<nat>, free: seq<nat>, k: nat, blocks: seq<nat>, i: nat, log: seq<nat>)
    requires 1 <= level <= 2 && had <= num && 0 < num <= Capacity(level) && num <= Before(level, i)
    requires k <= |free| && |nodes| + k == Cost(level, num)
    requires Progress(disk0, disk, level, had, num, nodes, nodes + free, blocks, i, log)
    ensures Progress(disk0, disk, level, had, num, nodes, nodes + free[..k], blocks, i, log)
  {
    var all, all' := nodes + free, nodes + free[..k];
    assert all' == all[..Cost(level, num)];
    forall j {:trigger blocks[j]} | 0 <= j < i
      ensures SubKid(disk, level, blocks[j], all', num, j)
    {
      KidPosStep(level, num, j);
      assert Kid(all', level, num, j) == Kid(all, level, num, j);
    }
    assert all'[..Used(level, had, num, i)] == all[..Used(level, had, num, i)];
  }

  lemma ProgressSize(disk0: seq<Sector>, disk: seq<Sector>, level: nat, had: nat, num: nat,
                     nodes: seq<nat>, all: seq<nat>, blocks: seq<nat>, i: nat, log: seq<nat>)
    requires 1 <= level <= 2 && Progress(disk0, disk, level, had, num, nodes, all, blocks, i, log)
    ensures |disk| == |disk0| && |blocks| == 128
  {
  }

  /** The entries of a block, as read before anything is released. */
  lemma EntrySub(disk0: seq<Sector>, disk: seq<Sector>, level: nat, entry: nat, nodes: seq<nat>, num: nat, i: nat, log: seq<nat>)
    requires 1 <= level <= 2 && Sub(disk0, level, entry, nodes, num) && Before(level, i) < num
    requires SameExcept(disk0, disk, [], log) && forall s | s in nodes :: s !in log
    ensures i < 128 && entry < |disk0| && KidPos(level, num, i) <= KidPos(level, num, i + 1) <= |nodes|
    ensures Sub(disk, level - 1, Ptr(disk0[entry], i), Kid(nodes, level, num, i), KidNum(level, num, i))
    ensures 0 < KidNum(level, num, i) <= Capacity(level - 1) && 1 <= KidPos(level, num, i)
  {
    hide Ptr;
    KidPosStep(level, num, i);
    var kid := Kid(nodes, level, num, i);
    assert SubKid(disk0, level, Ptr(disk0[entry], i), nodes, num, i);
    forall p {:trigger kid[p]} | 0 <= p < |kid| && kid[p] < |disk0|
      ensures disk[kid[p]] == disk0[kid[p]]
    {
      assert kid[p] == nodes[KidPos(level, num, i) + p];
    }
    SubFrame(disk0, disk, level - 1, Ptr(disk0[entry], i), kid, KidNum(level, num, i));
  }

  lemma RootSub(disk: seq<Sector>, level: nat, e: nat, nodes: seq<nat>, n: nat)
    requires 1 <= level <= 2 && n > 0 && Sub(disk, level, e, nodes, n)
    ensures |nodes| == Cost(level, n) && |nodes| > 0 && e == nodes[0] && e < |disk|
    ensures KidPos(level, n, 0) == 1
  {
  }

  lemma SubWithin(disk: seq<Sector>, level: nat, e: nat, nodes: seq<nat>, n: nat)
    requires level <= 2 && Sub(disk, level, e, nodes, n)
    ensures |nodes| == Cost(level, n) && n <= Capacity(level)
  {
  }
}
