/** The allocator's view of the bitmap: the list of clear bits, lowest first. */
module FreeSpace {
  import opened Sectors
  import opened InodeTree

  /** Clear bits below `n`, in increasing order. */
  ghost function FreeBelow(bits: seq<bool>, n: nat): seq<nat>
    requires n <= |bits|
  {
    if n == 0 then []
    else if bits[n - 1] then FreeBelow(bits, n - 1)
    else FreeBelow(bits, n - 1) + [n - 1]
  }

  ghost function Free(bits: seq<bool>): seq<nat> {
    FreeBelow(bits, |bits|)
  }

  ghost predicate Increasing(s: seq<nat>) {
    forall i, j | 0 <= i < j < |s| :: s[i] < s[j]
  }

  lemma {:induction false} FreeBelowMembers(bits: seq<bool>, n: nat)
    requires n <= |bits|
    ensures forall x :: x in FreeBelow(bits, n) <==> 0 <= x < n && !bits[x]
    ensures Increasing(FreeBelow(bits, n))
  {
    if n > 0 {
      FreeBelowMembers(bits, n - 1);
      var f := FreeBelow(bits, n - 1);
      forall i | 0 <= i < |f|
        ensures f[i] < n - 1
      {
        assert f[i] in f;
      }
    }
  }

  /** The free list holds exactly the clear bits, in increasing order. */
  lemma FreeMembers(bits: seq<bool>)
    ensures forall x :: x in Free(bits) <==> 0 <= x < |bits| && !bits[x]
    ensures Increasing(Free(bits)) && Distinct(Free(bits))
  {
    FreeBelowMembers(bits, |bits|);
  }

  lemma {:induction false} FreeBelowUnchanged(bits: seq<bool>, bits': seq<bool>, n: nat)
    requires n <= |bits| && n <= |bits'| && bits[..n] == bits'[..n]
    ensures FreeBelow(bits, n) == FreeBelow(bits', n)
  {
    if n > 0 {
      assert bits[..n][n - 1] == bits'[..n][n - 1];
      assert bits[..n - 1] == bits[..n][..n - 1];
      assert bits'[..n - 1] == bits'[..n][..n - 1];
      FreeBelowUnchanged(bits, bits', n - 1);
    }
  }

  lemma {:induction false} FreeBelowMark(bits: seq<bool>, f: nat, n: nat)
    requires f < n <= |bits| && !bits[f] && forall j | 0 <= j < f :: bits[j]
    ensures FreeBelow(bits, n) == [f] + FreeBelow(bits[f := true], n)
  {
    if n - 1 == f {
      FreeBelowMembers(bits, n - 1);
      FreeBelowUnchanged(bits, bits[f := true], n - 1);
      assert FreeBelow(bits, n - 1) == [] by {
        if FreeBelow(bits, n - 1) != [] {
          assert FreeBelow(bits, n - 1)[0] in FreeBelow(bits, n - 1);
        }
      }
    } else {
      FreeBelowMark(bits, f, n - 1);
    }
  }

  /** First fit: the lowest clear bit is the head of the free list, and setting it leaves the tail. */
  lemma FirstFree(bits: seq<bool>, f: nat)
    requires f < |bits| && !bits[f] && forall j | 0 <= j < f :: bits[j]
    ensures Free(bits) == [f] + Free(bits[f := true])
  {
    FreeBelowMark(bits, f, |bits|);
  }

  lemma NoneFree(bits: seq<bool>)
    ensures Free(bits) == [] <==> forall j | 0 <= j < |bits| :: bits[j]
  {
    FreeMembers(bits);
    if Free(bits) != [] {
      assert Free(bits)[0] in Free(bits);
    }
  }

  lemma {:induction false} FreeBelowCount(bits: seq<bool>, x: nat, n: nat)
    requires x < |bits| && bits[x] && n <= |bits|
    ensures |FreeBelow(bits[x := false], n)| == |FreeBelow(bits, n)| + if x < n then 1 else 0
  {
    if n > 0 {
      FreeBelowCount(bits, x, n - 1);
    }
  }

  /** All sectors of `s` released. */
  ghost function Clear(bits: seq<bool>, s: seq<nat>): (r: seq<bool>)
    ensures |r| == |bits|
    ensures forall i | 0 <= i < |bits| :: r[i] == (bits[i] && i !in s)
  {
    seq(|bits|, i requires 0 <= i < |bits| => bits[i] && i !in s)
  }

  ghost predicate Marked(bits: seq<bool>, s: seq<nat>) {
    forall i | 0 <= i < |s| :: s[i] < |bits| && bits[s[i]]
  }

  /** Releasing distinct sectors in use frees one sector each. */
  lemma {:induction false} FreeAfterClear(bits: seq<bool>, s: seq<nat>)
    requires Marked(bits, s) && Distinct(s)
    ensures |Free(Clear(bits, s))| == |Free(bits)| + |s|
  {
    if |s| == 0 {
      assert Clear(bits, s) == bits;
    } else {
      var r, x := s[..|s| - 1], s[|s| - 1];
      FreeAfterClear(bits, r);
      assert x !in r;
      assert Clear(bits, s) == Clear(bits, r)[x := false] by {
        assert s == r + [x];
      }
      FreeBelowCount(Clear(bits, r), x, |bits|);
    }
  }

  /** Sectors taken from the free list go back where they came from. */
  lemma ClearUndoesTake(bits: seq<bool>, bits': seq<bool>, k: nat)
    requires k <= |Free(bits)| && |bits'| == |bits| && Free(bits') == Free(bits)[k..]
    ensures Clear(bits', Free(bits)[..k]) == bits
    ensures Marked(bits', Free(bits)[..k])
    ensures forall x | 0 <= x < |bits| :: bits'[x] <==> bits[x] || x in Free(bits)[..k]
  {
    FreeMembers(bits);
    FreeMembers(bits');
    var f := Free(bits);
    assert f == f[..k] + f[k..];
    forall x | 0 <= x < |bits|
      ensures bits'[x] <==> bits[x] || x in f[..k]
    {
    }
    forall i | 0 <= i < k
      ensures f[i] < |bits| && !bits[f[i]]
    {
      assert f[i] in f;
    }
    forall i | 0 <= i < k
      ensures f[..k][i] < |bits'| && bits'[f[..k][i]]
    {
      assert f[..k][i] in f[..k];
    }
  }

  /** If only the sectors from `m` on are free, the free list is a run of consecutive numbers. */
  lemma {:induction false} FreeSuffix(bits: seq<bool>, m: nat)
    requires m <= |bits| && forall i | 0 <= i < |bits| :: bits[i] <==> i < m
    ensures |Free(bits)| == |bits| - m
    ensures forall i | 0 <= i < |Free(bits)| :: Free(bits)[i] == m + i
  {
    FreeBelowSuffix(bits, m, |bits|);
  }

  lemma {:induction false} FreeBelowSuffix(bits: seq<bool>, m: nat, n: nat)
    requires m <= |bits| && n <= |bits| && forall i | 0 <= i < |bits| :: bits[i] <==> i < m
    ensures |FreeBelow(bits, n)| == if n <= m then 0 else n - m
    ensures forall i | 0 <= i < |FreeBelow(bits, n)| :: FreeBelow(bits, n)[i] == m + i
  {
    if n > 0 {
      FreeBelowSuffix(bits, m, n - 1);
    }
  }

  lemma ClearAppend(bits: seq<bool>, a: seq<nat>, b: seq<nat>)
    ensures Clear(Clear(bits, a), b) == Clear(bits, a + b)
  {
  }

  /** A stretch that has not been released yet is still in use. */
  lemma StillMarked(bits: seq<bool>, nodes: seq<nat>, c: nat, a: nat, b: nat)
    requires Marked(bits, nodes) && Distinct(nodes) && c <= a <= b <= |nodes|
    ensures Marked(Clear(bits, nodes[c..a]), nodes[a..b]) && Distinct(nodes[a..b])
    ensures Clear(Clear(bits, nodes[c..a]), nodes[a..b]) == Clear(bits, nodes[c..b])
    ensures c > 0 ==> Marked(Clear(bits, nodes[c..a]), [nodes[0]])
  {
    ClearAppend(bits, nodes[c..a], nodes[a..b]);
    assert nodes[c..a] + nodes[a..b] == nodes[c..b];
  }

  /** The root of a subtree is released after its entries. */
  lemma ClearRoot(bits: seq<bool>, nodes: seq<nat>)
    requires |nodes| > 0
    ensures Clear(Clear(bits, nodes[1..]), [nodes[0]]) == Clear(bits, nodes)
  {
    assert nodes == [nodes[0]] + nodes[1..];
  }

  /** Sectors in use, and the free ones, are as reserving needs them: apart from each other and from `log`. */
  lemma FitsFromMarked(disk: seq<Sector>, bits: seq<bool>, nodes: seq<nat>, log: seq<nat>)
    requires |bits| < |disk| && |bits| > 0 && bits[0] && Marked(bits, nodes) && Distinct(nodes) && 0 !in nodes
    requires Marked(bits, log) && forall s | s in nodes :: s !in log
    ensures Fits(disk, nodes + Free(bits), log)
  {
    FreeMembers(bits);
    var free := Free(bits);
    hide Free;
    var all := nodes + free;
    forall p {:trigger all[p]} | 0 <= p < |all|
      ensures 0 < all[p] < |bits| && all[p] !in log && (p >= |nodes| <==> !bits[all[p]])
    {
      if p < |nodes| {
        assert all[p] in nodes;
      } else {
        assert all[p] in free;
        assert !bits[all[p]];
      }
    }
  }
}
