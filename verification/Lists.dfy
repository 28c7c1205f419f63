/** Doubly linked lists with a head and a tail element (a3/fs/list.c), on the heap. */
module Lists {
  import opened ListOrder

  /** An element of a list, or one of the two that enclose it. */
  class Elem {
    var prev: Elem?
    var next: Elem?

    constructor ()
      ensures prev == null && next == null
    {
      prev, next := null, null;
    }
  }

  /** The elements of `c`, from a list's head to its tail, are linked to their neighbours in both directions. */
  ghost predicate Chain(c: seq<Elem>)
    reads c
  {
    && |c| >= 2 && c[0].prev == null && c[|c| - 1].next == null
    && (forall i | 0 <= i < |c| - 1 :: c[i].next == c[i + 1])
    && (forall i {:trigger c[i].prev} | 1 <= i < |c| :: c[i].prev == c[i - 1])
    && (forall i, j | 0 <= i < j < |c| :: c[i] != c[j])
  }

  /** A stretch of elements linked among themselves. */
  ghost predicate Links(m: seq<Elem>)
    reads m
  {
    && (forall i | 0 <= i < |m| - 1 :: m[i].next == m[i + 1])
    && (forall i {:trigger m[i].prev} | 1 <= i < |m| :: m[i].prev == m[i - 1])
    && (forall i, j | 0 <= i < j < |m| :: m[i] != m[j])
  }

  ghost predicate Apart(c: seq<Elem>, d: seq<Elem>) {
    forall x | x in c :: x !in d
  }

  /** `c` without the stretch [f, l). */
  function Without<T>(c: seq<T>, f: nat, l: nat): seq<T>
    requires f <= l <= |c|
  {
    c[..f] + c[l..]
  }

  /** `c` with the stretch [f, l) taken out and put before position `b` of the rest. */
  function Relocated<T>(c: seq<T>, f: nat, l: nat, b: nat): seq<T>
    requires f <= l <= |c| && b <= |Without(c, f, l)|
  {
    Without(c, f, l)[..b] + c[f..l] + Without(c, f, l)[b..]
  }

  /** Where the parts are afterwards: the stretch in its order just before what was at `b` of the rest, and the rest in
      its order around it. */
  lemma RelocatedParts<T>(c: seq<T>, f: nat, l: nat, b: nat)
    requires f <= l <= |c| && b < |Without(c, f, l)|
    ensures var r := Relocated(c, f, l, b);
            && |r| == |c| && r[b..b + (l - f)] == c[f..l] && r[b + (l - f)] == (c[..f] + c[l..])[b]
            && r[..b] + r[b + (l - f)..] == c[..f] + c[l..]
  {
    var r, w := Relocated(c, f, l, b), c[..f] + c[l..];
    assert r == w[..b] + c[f..l] + w[b..];
    assert w == w[..b] + w[b..];
  }

  /** The first half of list_splice: the elements from `first` to `back` leave their list. */
  method Unlink(first: Elem, back: Elem, ghost c: seq<Elem>, ghost f: nat, ghost l: nat)
    requires Chain(c) && 1 <= f < l < |c| && c[f] == first && c[l - 1] == back
    modifies c[f - 1], c[l]
    ensures Chain(Without(c, f, l)) && Links(c[f..l])
  {
    first.prev.next := back.next;
    back.next.prev := first.prev;
  }

  /** The second half: they enter a list just before `before`. */
  method LinkBefore(before: Elem, first: Elem, back: Elem, ghost d: seq<Elem>, ghost b: nat, ghost m: seq<Elem>)
    requires Chain(d) && Links(m) && Apart(m, d) && |m| > 0 && m[0] == first && m[|m| - 1] == back
    requires 1 <= b < |d| && d[b] == before
    modifies first, back, before, d[b - 1]
    ensures Chain(d[..b] + m + d[b..])
  {
    hide Chain, Apart;
    ghost var a, r := d[..b], d[b..];
    ChainParts(d, b, m);
    PartsDiffer(a, r);
    PartsDiffer(a, m);
    PartsDiffer(m, r);
    first.prev := before.prev;
    back.next := before;
    before.prev.next := first;
    before.prev := back;
    ChainJoined(a, m, r);
  }

  lemma ChainParts(d: seq<Elem>, b: nat, m: seq<Elem>)
    requires Chain(d) && 1 <= b < |d| && Apart(m, d)
    ensures Links(d[..b]) && Links(d[b..]) && Apart(d[..b], d[b..]) && Apart(d[..b], m) && Apart(m, d[b..])
    ensures d[0].prev == null && d[|d| - 1].next == null && d[b].prev == d[b - 1]
  {
    forall x | x in d[..b]
      ensures x !in d[b..] && x in d
    {
    }
  }

  lemma PartsDiffer(a: seq<Elem>, b: seq<Elem>)
    requires Apart(a, b)
    ensures forall i, j | 0 <= i < |a| && 0 <= j < |b| :: a[i] != b[j]
  {
    forall i, j | 0 <= i < |a| && 0 <= j < |b|
      ensures a[i] != b[j]
    {
      assert a[i] in a;
    }
  }

  lemma ChainJoined(a: seq<Elem>, m: seq<Elem>, r: seq<Elem>)
    requires |a| >= 1 && |m| >= 1 && |r| >= 1 && Links(a) && Links(m) && Links(r)
    requires Apart(a, r) && Apart(a, m) && Apart(m, r)
    requires a[0].prev == null && r[|r| - 1].next == null
    requires a[|a| - 1].next == m[0] && m[0].prev == a[|a| - 1] && m[|m| - 1].next == r[0] && r[0].prev == m[|m| - 1]
    ensures Chain(a + m + r)
  {
    var c := a + m + r;
    forall i | 0 <= i < |c| - 1
      ensures c[i].next == c[i + 1]
    {
    }
    forall i {:trigger c[i].prev} | 1 <= i < |c|
      ensures c[i].prev == c[i - 1]
    {
    }
    DistinctJoined(a, m, r);
  }

  lemma DistinctJoined(a: seq<Elem>, m: seq<Elem>, r: seq<Elem>)
    requires Links(a) && Links(m) && Links(r) && Apart(a, r) && Apart(a, m) && Apart(m, r)
    ensures forall i, j | 0 <= i < j < |a + m + r| :: (a + m + r)[i] != (a + m + r)[j]
  {
    var c := a + m + r;
    forall i, j | 0 <= i < j < |c|
      ensures c[i] != c[j]
    {
      assert i < |a| ==> c[i] in a;
      assert |a| <= i < |a + m| ==> c[i] in m;
      assert |a| <= j < |a + m| ==> c[j] in m;
      assert |a + m| <= j ==> c[j] in r;
    }
  }

  /** list_insert. */
  method Insert(before: Elem, elem: Elem, ghost c: seq<Elem>, ghost i: nat)
    requires Chain(c) && 1 <= i < |c| && c[i] == before && elem !in c
    modifies elem, before, c[i - 1]
    ensures Chain(c[..i] + [elem] + c[i..])
  {
    LinkBefore(before, elem, elem, c, i, [elem]);
  }

  /** list_remove. */
  method Remove(elem: Elem, ghost c: seq<Elem>, ghost i: nat) returns (next: Elem)
    requires Chain(c) && 1 <= i < |c| - 1 && c[i] == elem
    modifies c[i - 1], c[i + 1]
    ensures next == c[i + 1] && Chain(c[..i] + c[i + 1..])
  {
    elem.prev.next := elem.next;
    elem.next.prev := elem.prev;
    next := elem.next;
  }

  /** list_splice within one list: exactly the elements [first, last) are taken out and put, in order, before
      an element outside them. */
  method Splice(before: Elem, first: Elem, last: Elem, ghost c: seq<Elem>, ghost f: nat, ghost l: nat, ghost b: nat)
    requires Chain(c) && 1 <= f <= l < |c| && c[f] == first && c[l] == last
    requires 1 <= b < |Without(c, f, l)| && Without(c, f, l)[b] == before
    modifies c[f - 1], c[l], first, c[l - 1], before, Without(c, f, l)[b - 1]
    ensures Chain(Relocated(c, f, l, b))
  {
    SamePlace(c, f, l);
    RestApart(c, f, l, b);
    if first == last {
      assert Relocated(c, f, l, b) == c;
      return;
    }
    var back := last.prev;
    hide Chain, Links, Without;
    Unlink(first, back, c, f, l);
    LinkBefore(before, first, back, Without(c, f, l), b, c[f..l]);
  }

  /** list_splice into another list. */
  method SpliceInto(before: Elem, first: Elem, last: Elem, ghost c: seq<Elem>, ghost f: nat, ghost l: nat, ghost d: seq<Elem>, ghost b: nat)
    requires Chain(c) && 1 <= f <= l < |c| && c[f] == first && c[l] == last
    requires Chain(d) && 1 <= b < |d| && d[b] == before && Apart(c, d)
    modifies c, d
    ensures Chain(Without(c, f, l)) && Chain(d[..b] + c[f..l] + d[b..])
  {
    SamePlace(c, f, l);
    if first == last {
      assert Without(c, f, l) == c && d[..b] + c[f..l] + d[b..] == d;
      return;
    }
    var back := last.prev;
    StretchApart(c, f, l, d, b);
    hide Chain, Links, Without;
    Unlink(first, back, c, f, l);
    LinkBefore(before, first, back, d, b, c[f..l]);
  }

  lemma SamePlace(c: seq<Elem>, f: nat, l: nat)
    requires Chain(c) && f <= l < |c|
    ensures c[f] == c[l] ==> f == l
    ensures c[f] != c[l] ==> c[l].prev == c[l - 1]
  {
  }

  /** What stays is none of the stretch that moves. */
  lemma RestApart(c: seq<Elem>, f: nat, l: nat, b: nat)
    requires f <= l <= |c| && forall i, j | 0 <= i < j < |c| :: c[i] != c[j]
    requires 1 <= b < |Without(c, f, l)|
    ensures Apart(c[f..l], Without(c, f, l))
    ensures Without(c, f, l)[b] in c && Without(c, f, l)[b - 1] in c
  {
  }

  /** Who is where while the stretch [f, l) leaves for another list. */
  lemma StretchApart(c: seq<Elem>, f: nat, l: nat, d: seq<Elem>, b: nat)
    requires Chain(c) && 1 <= f < l < |c| && Apart(c, d) && 1 <= b < |d|
    ensures Apart(c[f..l], d) && c[f - 1] !in d && c[l] !in d
    ensures c[f] !in Without(c, f, l) && c[l - 1] !in Without(c, f, l) && d[b] !in Without(c, f, l) && d[b - 1] !in Without(c, f, l)
  {
    assert c[f - 1] in c && c[l] in c;
    forall x | x in Without(c, f, l)
      ensures x in c && x != c[f] && x != c[l - 1]
    {
    }
    assert d[b] !in c && d[b - 1] !in c;
    assert forall x | x in c[f..l] :: x in c;
  }

  // ---------- sorting ----------

  lemma Neighbours(c: seq<Elem>, k: nat)
    requires Chain(c) && k < |c| - 1
    ensures c[k].next == c[k + 1] && c[k + 1].prev == c[k]
  {
  }

  /** find_end_of_run. */
  method FindEndOfRun(a: Elem, b: Elem, less: (Elem, Elem) -> bool, ghost c: seq<Elem>, ghost i: nat, ghost e: nat) returns (r: Elem)
    requires Chain(c) && 1 <= i < e < |c| && c[i] == a && c[e] == b
    ensures r == c[i + RunEnd(less, c[i..e])]
  {
    hide Chain, RunEnd, RunTo;
    ghost var run := c[i..e];
    ghost var k: nat := 1;
    RunToFirst(less, run);
    Neighbours(c, i);
    r := a.next;
    while r != b && !less(r, r.prev)
      invariant Chain(c) && 1 <= k <= e - i && r == c[i + k] && r.prev == c[i + k - 1]
      invariant RunTo(less, run, k)
      decreases e - i - k
    {
      SameElement(c, i + k, e);
      assert run[k] == r && run[k - 1] == r.prev;
      RunToNext(less, run, k);
      Neighbours(c, i + k);
      r := r.next;
      k := k + 1;
    }
    SameElement(c, i + k, e);
    assert k < |run| ==> run[k] == c[i + k] && run[k - 1] == c[i + k - 1];
    RunIsUnique(less, run, k);
  }

  /** The list while [i, m) and [m, e) are being merged: `done` merged, `a` and `b` left. */
  ghost predicate Merging(c: seq<Elem>, cur: seq<Elem>, less: (Elem, Elem) -> bool, i: nat, m: nat, e: nat,
                          done: seq<Elem>, a: seq<Elem>, b: seq<Elem>) {
    && i <= m <= e <= |c| && cur == c[..i] + done + a + b + c[e..]
    && done + Merge(less, a, b) == Merge(less, c[i..m], c[m..e])
    && (forall x | x in cur :: x in c)
  }

  lemma MergingParts(c: seq<Elem>, cur: seq<Elem>, less: (Elem, Elem) -> bool, i: nat, m: nat, e: nat,
                     done: seq<Elem>, a: seq<Elem>, b: seq<Elem>)
    requires Merging(c, cur, less, i, m, e, done, a, b)
    ensures e <= |c| && |cur| == |c| == i + |done| + |a| + |b| + (|c| - e)
    ensures |a| > 0 ==> cur[i + |done|] == a[0]
    ensures |a| > 1 ==> cur[i + |done| + 1] == a[1]
    ensures |b| > 0 ==> cur[i + |done| + |a|] == b[0]
    ensures |b| > 1 ==> cur[i + |done| + |a| + 1] == b[1]
    ensures e < |c| ==> cur[i + |done| + |a| + |b|] == c[e]
    ensures |a| == 0 || |b| == 0 ==> cur == c[..i] + Merge(less, c[i..m], c[m..e]) + c[e..]
  {
    assert |a| == 0 ==> Merge(less, a, b) == b;
    assert |b| == 0 ==> Merge(less, a, b) == a;
    assert |done| + |a| + |b| == |done + Merge(less, a, b)| == |Merge(less, c[i..m], c[m..e])| == e - i;
    hide Merge;
    var x := c[..i] + done;
    assert cur == x + a + b + c[e..];
    hide Merging;
  }

  /** The elements a step touches belong to the list. */
  lemma MergingWithin(c: seq<Elem>, cur: seq<Elem>, less: (Elem, Elem) -> bool, i: nat, m: nat, e: nat,
                      done: seq<Elem>, a: seq<Elem>, b: seq<Elem>, p: nat, f: nat)
    requires Merging(c, cur, less, i, m, e, done, a, b) && 1 <= i && e < |c| && |a| > 0 && |b| > 0 && p == i + |done| && f == p + |a|
    ensures f + 1 < |cur| && p < |Without(cur, f, f + 1)|
    ensures cur[f - 1] in c && cur[f] in c && cur[f + 1] in c && cur[p] in c && Without(cur, f, f + 1)[p - 1] in c
    ensures cur[p] == a[0] && cur[f] == b[0] && cur[f + 1] == if |b| > 1 then b[1] else c[e]
  {
    MergingParts(c, cur, less, i, m, e, done, a, b);
    assert Without(cur, f, f + 1)[p - 1] == cur[p - 1];
  }

  lemma MergingStart(c: seq<Elem>, less: (Elem, Elem) -> bool, i: nat, m: nat, e: nat)
    requires i <= m <= e <= |c|
    ensures Merging(c, c, less, i, m, e, [], c[i..m], c[m..e])
  {
  }

  lemma MergingLeft(c: seq<Elem>, cur: seq<Elem>, less: (Elem, Elem) -> bool, i: nat, m: nat, e: nat,
                    done: seq<Elem>, a: seq<Elem>, b: seq<Elem>)
    requires Merging(c, cur, less, i, m, e, done, a, b) && |a| > 0 && |b| > 0 && !less(b[0], a[0])
    ensures Merging(c, cur, less, i, m, e, done + [a[0]], a[1..], b)
  {
    assert a == [a[0]] + a[1..];
    assert done + [a[0]] + Merge(less, a[1..], b) == done + Merge(less, a, b);
  }

  /** One element moved in front of the stretch before it. */
  lemma RelocatedOne<T>(x: seq<T>, a: seq<T>, y: T, z: seq<T>)
    ensures var s := x + a + [y] + z;
            var f := |x| + |a|;
            && f + 1 <= |s| && |Without(s, f, f + 1)| == |s| - 1 && Relocated(s, f, f + 1, |x|) == x + [y] + a + z
            && (|a| > 0 ==> Without(s, f, f + 1)[|x|] == a[0])
  {
    var s, f := x + a + [y] + z, |x| + |a|;
    assert s[..f] == x + a && s[f..f + 1] == [y] && s[f + 1..] == z;
    assert Without(s, f, f + 1) == x + (a + z);
    hide Without;
    assert (x + (a + z))[..|x|] == x && (x + (a + z))[|x|..] == a + z;
    assert x + [y] + (a + z) == x + [y] + a + z;
  }

  lemma MergingRight(c: seq<Elem>, cur: seq<Elem>, less: (Elem, Elem) -> bool, i: nat, m: nat, e: nat,
                     done: seq<Elem>, a: seq<Elem>, b: seq<Elem>, p: nat, f: nat)
    requires Merging(c, cur, less, i, m, e, done, a, b) && |a| > 0 && |b| > 0 && less(b[0], a[0])
    requires p == i + |done| && f == p + |a|
    ensures f + 1 <= |cur| && p <= |Without(cur, f, f + 1)|
    ensures p < |Without(cur, f, f + 1)| && Without(cur, f, f + 1)[p] == a[0]
    ensures Merging(c, Relocated(cur, f, f + 1, p), less, i, m, e, done + [b[0]], a, b[1..])
  {
    hide Merge, Without, Relocated;
    MergeFirst(less, a, b);
    var x, z := c[..i] + done, b[1..] + c[e..];
    SplitFirst(x, a, b, c[e..]);
    RelocatedOne(x, a, b[0], z);
    Regrouped(c[..i], done, b[0], a, b[1..], c[e..]);
    Regrouped(done, [], b[0], Merge(less, a, b[1..]), [], []);
    SameMembers(x, a, b[0], z);
  }

  lemma SplitFirst<T>(x: seq<T>, a: seq<T>, b: seq<T>, w: seq<T>)
    requires |b| > 0
    ensures x + a + b + w == x + a + [b[0]] + (b[1..] + w)
  {
    assert b == [b[0]] + b[1..];
  }

  lemma Regrouped<T>(p: seq<T>, q: seq<T>, y: T, a: seq<T>, b: seq<T>, w: seq<T>)
    ensures p + q + [y] + a + (b + w) == p + (q + [y]) + a + b + w
    ensures q == [] && b == [] && w == [] ==> p + [y] + a == p + ([y] + a)
  {
  }

  lemma SameMembers<T>(x: seq<T>, a: seq<T>, y: T, z: seq<T>)
    ensures forall v | v in x + [y] + a + z :: v in x + a + [y] + z
  {
  }

  /** inplace_merge: [i, m) and [m, e) become their merge, the rest of the list stays. */
  method InplaceMerge(a0: Elem, a1b0: Elem, b1: Elem, less: (Elem, Elem) -> bool, ghost c: seq<Elem>, ghost i: nat, ghost m: nat, ghost e: nat)
    requires Chain(c) && 1 <= i < m < e < |c| && c[i] == a0 && c[m] == a1b0 && c[e] == b1
    modifies c
    ensures Chain(c[..i] + Merge(less, c[i..m], c[m..e]) + c[e..])
  {
    hide Chain, Merging, Merge;
    var first, second := a0, a1b0;
    ghost var cur, done, a, b := c, [], c[i..m], c[m..e];
    MergingStart(c, less, i, m, e);
    MergingEnds(c, cur, less, i, m, e, done, a, b);
    while first != second && second != b1
      invariant Chain(cur) && Merging(c, cur, less, i, m, e, done, a, b)
      invariant |cur| == |c| == i + |done| + |a| + |b| + (|c| - e)
      invariant first == cur[i + |done|] && second == cur[i + |done| + |a|]
      invariant (first == second <==> |a| == 0) && (second == b1 <==> |b| == 0)
      decreases |a| + |b|
    {
      first, second, cur, done, a, b := MergeStep(first, second, less, c, cur, i, m, e, done, a, b);
      MergingEnds(c, cur, less, i, m, e, done, a, b);
    }
    MergingParts(c, cur, less, i, m, e, done, a, b);
  }

  /** The ranges are empty just when their ends meet. */
  lemma MergingEnds(c: seq<Elem>, cur: seq<Elem>, less: (Elem, Elem) -> bool, i: nat, m: nat, e: nat,
                    done: seq<Elem>, a: seq<Elem>, b: seq<Elem>)
    requires Merging(c, cur, less, i, m, e, done, a, b) && Chain(cur) && e < |c|
    ensures |cur| == i + |done| + |a| + |b| + (|c| - e)
    ensures cur[i + |done|] == cur[i + |done| + |a|] <==> |a| == 0
    ensures cur[i + |done| + |a|] == c[e] <==> |b| == 0
  {
    hide Chain, Merging;
    MergingParts(c, cur, less, i, m, e, done, a, b);
    SameElement(cur, i + |done|, i + |done| + |a|);
    SameElement(cur, i + |done| + |a|, i + |done| + |a| + |b|);
  }

  /** After the first of `b` has been taken: who is where. */
  lemma RightTaken(c: seq<Elem>, cur: seq<Elem>, less: (Elem, Elem) -> bool, i: nat, m: nat, e: nat,
                   done: seq<Elem>, a: seq<Elem>, b: seq<Elem>, cur': seq<Elem>)
    requires Merging(c, cur, less, i, m, e, done, a, b) && |a| > 0 && |b| > 0 && 1 <= i && e < |c|
    requires Merging(c, cur', less, i, m, e, done + [b[0]], a, b[1..])
    ensures |cur'| == |c| == i + |done + [b[0]]| + |a| + |b[1..]| + (|c| - e)
    ensures cur'[i + |done| + 1] == a[0] && cur'[i + |done| + 1 + |a|] == if |b| > 1 then b[1] else c[e]
  {
    hide Merging;
    var done', b' := done + [b[0]], b[1..];
    MergingParts(c, cur, less, i, m, e, done, a, b);
    MergingParts(c, cur', less, i, m, e, done', a, b');
  }

  /** One step of inplace_merge. */
  method MergeStep(first: Elem, second: Elem, less: (Elem, Elem) -> bool, ghost c: seq<Elem>, ghost cur: seq<Elem>,
                   ghost i: nat, ghost m: nat, ghost e: nat, ghost done: seq<Elem>, ghost a: seq<Elem>, ghost b: seq<Elem>)
    returns (first': Elem, second': Elem, ghost cur': seq<Elem>, ghost done': seq<Elem>, ghost a': seq<Elem>, ghost b': seq<Elem>)
    requires 1 <= i && e < |c| && Chain(cur) && Merging(c, cur, less, i, m, e, done, a, b)
    requires |cur| == |c| == i + |done| + |a| + |b| + (|c| - e) && |a| > 0 && |b| > 0
    requires first == cur[i + |done|] && second == cur[i + |done| + |a|]
    modifies c
    ensures Chain(cur') && Merging(c, cur', less, i, m, e, done', a', b')
    ensures |cur'| == |c| == i + |done'| + |a'| + |b'| + (|c| - e)
    ensures first' == cur'[i + |done'|] && second' == cur'[i + |done'| + |a'|]
    ensures |a'| + |b'| < |a| + |b|
  {
    hide Chain, Merging, Merge, Without;
    MergingParts(c, cur, less, i, m, e, done, a, b);
    if !less(second, first) {
      MergingLeft(c, cur, less, i, m, e, done, a, b);
      cur', done', a', b' := cur, done + [a[0]], a[1..], b;
      Neighbours(cur, i + |done|);
      first', second' := first.next, second;
    } else {
      second', cur' := TakeSecond(first, second, less, c, cur, i, m, e, done, a, b);
      first', done', a', b' := first, done + [b[0]], a, b[1..];
    }
  }

  /** The first element of the second range moves in front of the first range. */
  method TakeSecond(first: Elem, second: Elem, less: (Elem, Elem) -> bool, ghost c: seq<Elem>, ghost cur: seq<Elem>,
                    ghost i: nat, ghost m: nat, ghost e: nat, ghost done: seq<Elem>, ghost a: seq<Elem>, ghost b: seq<Elem>)
    returns (second': Elem, ghost cur': seq<Elem>)
    requires 1 <= i && e < |c| && Chain(cur) && Merging(c, cur, less, i, m, e, done, a, b)
    requires |a| > 0 && |b| > 0 && less(second, first) && first == a[0] && second == b[0]
    modifies c
    ensures Chain(cur') && Merging(c, cur', less, i, m, e, done + [b[0]], a, b[1..])
    ensures |cur'| == |c| == i + |done + [b[0]]| + |a| + |b[1..]| + (|c| - e)
    ensures cur'[i + |done| + 1] == first && cur'[i + |done| + 1 + |a|] == second'
  {
    hide Chain, Merging, Merge, Without, Relocated;
    ghost var p := i + |done|;
    ghost var f := p + |a|;
    MergingWithin(c, cur, less, i, m, e, done, a, b, p, f);
    MergingRight(c, cur, less, i, m, e, done, a, b, p, f);
    Neighbours(cur, f);
    second' := second.next;
    Splice(first, second'.prev, second', cur, f, f + 1, p);
    cur' := Relocated(cur, f, f + 1, p);
    RightTaken(c, cur, less, i, m, e, done, a, b, cur');
  }

  /** Where the run that starts at position `i` of the elements before `t` stops. */
  ghost function RunStop(less: (Elem, Elem) -> bool, c: seq<Elem>, i: nat, t: nat): (m: nat)
    requires i < t <= |c|
    ensures i < m <= t
  {
    i + RunEnd(less, c[i..t])
  }

  /** One turn of the loop of list_sort: the next two runs before `end` are merged, if there are two. */
  method MergePair(a0: Elem, end: Elem, less: (Elem, Elem) -> bool, ghost c: seq<Elem>, ghost i: nat, ghost t: nat)
    returns (b1: Elem, last: bool, ghost c': seq<Elem>)
    requires Chain(c) && 1 <= i < t < |c| && c[i] == a0 && c[t] == end
    modifies c
    ensures Chain(c')
    ensures last <==> RunStop(less, c, i, t) == t
    ensures last ==> c' == c
    ensures !last ==>
              var m := RunStop(less, c, i, t);
              var e := RunStop(less, c, m, t);
              c' == c[..i] + Merge(less, c[i..m], c[m..e]) + c[e..] && b1 == c[e]
  {
    hide Chain, Merge, RunEnd;
    ghost var m := RunStop(less, c, i, t);
    SameElement(c, m, t);
    var a1b0 := FindEndOfRun(a0, end, less, c, i, t);
    if a1b0 == end {
      return end, true, c;
    }
    ghost var e := RunStop(less, c, m, t);
    b1 := FindEndOfRun(a1b0, end, less, c, m, t);
    InplaceMerge(a0, a1b0, b1, less, c, i, m, e);
    last, c' := false, c[..i] + Merge(less, c[i..m], c[m..e]) + c[e..];
  }

  lemma SameElement(c: seq<Elem>, i: nat, j: nat)
    requires Chain(c) && i <= j < |c|
    ensures c[i] == c[j] <==> i == j
  {
  }

  /** The elements between the head and the tail. */
  ghost function Interior(c: seq<Elem>): seq<Elem>
    requires |c| >= 2
  {
    c[1..|c| - 1]
  }

  /** The list during a pass: the part before `i` has been put out, the rest is untouched. */
  ghost predicate Passing(c: seq<Elem>, cur: seq<Elem>, less: (Elem, Elem) -> bool, i: nat, cnt: nat) {
    && |cur| == |c| >= 2 && 1 <= i < |c| && cur[0] == c[0] && cur[|c| - 1] == c[|c| - 1]
    && cur[1..i] + Pass(less, cur[i..|c| - 1]) == Pass(less, Interior(c))
    && cnt + Output(less, cur[i..|c| - 1]) == Output(less, Interior(c))
    && (forall x | x in cur :: x in c)
  }

  lemma PassingStart(c: seq<Elem>, less: (Elem, Elem) -> bool)
    requires |c| >= 2
    ensures Passing(c, c, less, 1, 0)
  {
    assert c[1..1] == [];
  }

  /** What is left of the sequence after a pair of runs. */
  lemma Stretches<T>(cur: seq<T>, i: nat, m: nat, e: nat, t: nat)
    requires i <= m <= e <= t <= |cur|
    ensures cur[i..t][..m - i] == cur[i..m] && cur[i..t][m - i..] == cur[m..t]
    ensures cur[i..t][m - i..e - i] == cur[m..e] && cur[i..t][e - i..] == cur[e..t]
  {
    SliceOfSlice(cur, i, t, 0, m - i);
    SliceOfSlice(cur, i, t, m - i, t - i);
    SliceOfSlice(cur, i, t, m - i, e - i);
    SliceOfSlice(cur, i, t, e - i, t - i);
  }

  lemma SliceOfSlice<T>(s: seq<T>, i: nat, t: nat, a: nat, b: nat)
    requires i <= t <= |s| && a <= b <= t - i
    ensures s[i..t][a..b] == s[i + a..i + b]
  {
    var l, r := s[i..t][a..b], s[i + a..i + b];
    forall k {:trigger l[k]} | 0 <= k < b - a
      ensures l[k] == r[k]
    {
      assert l[k] == s[i..t][a + k];
    }
  }

  lemma PassUnfolds(less: (Elem, Elem) -> bool, cur: seq<Elem>, i: nat, m: nat, e: nat, t: nat)
    requires i < t <= |cur| && m == RunStop(less, cur, i, t) && m < t && e == RunStop(less, cur, m, t)
    ensures Pass(less, cur[i..t]) == Merge(less, cur[i..m], cur[m..e]) + Pass(less, cur[e..t])
    ensures Output(less, cur[i..t]) == 1 + Output(less, cur[e..t])
  {
    hide Merge, RunEnd;
    Stretches(cur, i, m, e, t);
  }

  lemma MergedWithin(less: (Elem, Elem) -> bool, cur: seq<Elem>, i: nat, m: nat, e: nat)
    requires i <= m <= e <= |cur|
    ensures forall x | x in cur[..i] + Merge(less, cur[i..m], cur[m..e]) + cur[e..] :: x in cur
  {
    forall x | x in Merge(less, cur[i..m], cur[m..e])
      ensures x in cur
    {
      InMerge(less, cur[i..m], cur[m..e], x);
    }
  }

  lemma InMerge(less: (Elem, Elem) -> bool, a: seq<Elem>, b: seq<Elem>, x: Elem)
    requires x in Merge(less, a, b)
    ensures x in a || x in b
  {
    MergeElements(less, a, b);
    hide Merge;
    assert x in multiset(Merge(less, a, b));
  }

  lemma PassingOn(c: seq<Elem>, cur: seq<Elem>, cur': seq<Elem>, less: (Elem, Elem) -> bool, i: nat, m: nat, e: nat, cnt: nat)
    requires Passing(c, cur, less, i, cnt) && i < |c| - 1
    requires m == RunStop(less, cur, i, |c| - 1) && m < |c| - 1 && e == RunStop(less, cur, m, |c| - 1)
    requires cur' == cur[..i] + Merge(less, cur[i..m], cur[m..e]) + cur[e..]
    ensures Passing(c, cur', less, e, cnt + 1)
  {
    hide Pass, Output, Merge, RunEnd, Interior;
    var t, merged := |c| - 1, Merge(less, cur[i..m], cur[m..e]);
    PassUnfolds(less, cur, i, m, e, t);
    MergedWithin(less, cur, i, m, e);
    assert cur'[1..e] == cur[1..i] + merged;
    assert cur'[e..t] == cur[e..t];
  }

  lemma PassingEnd(c: seq<Elem>, cur: seq<Elem>, less: (Elem, Elem) -> bool, i: nat, cnt: nat)
    requires Passing(c, cur, less, i, cnt)
    ensures i == |c| - 1 ==> Interior(cur) == Pass(less, Interior(c)) && cnt == Output(less, Interior(c))
    ensures i < |c| - 1 && RunStop(less, cur, i, |c| - 1) == |c| - 1 ==>
              Interior(cur) == Pass(less, Interior(c)) && cnt + 1 == Output(less, Interior(c))
  {
    hide Pass, Output, RunEnd;
    var t := |c| - 1;
    if i == t {
      assert cur[i..t] == [];
      PassOfNone(less, cur[i..t]);
    } else {
      assert cur[1..i] + cur[i..t] == cur[1..t];
      PassOfOne(less, cur[i..t]);
    }
  }

  lemma PassOfNone<T>(less: (T, T) -> bool, s: seq<T>)
    requires |s| == 0
    ensures Pass(less, s) == [] && Output(less, s) == 0
  {
  }

  lemma PassOfOne<T>(less: (T, T) -> bool, s: seq<T>)
    requires |s| > 0
    ensures RunEnd(less, s) == |s| ==> Pass(less, s) == s && Output(less, s) == 1
  {
  }

  lemma PassingWithin(c: seq<Elem>, cur: seq<Elem>, less: (Elem, Elem) -> bool, i: nat, cnt: nat)
    requires Passing(c, cur, less, i, cnt)
    ensures |cur| == |c| >= 2 && 1 <= i < |c| && cur[0] == c[0] && cur[|c| - 1] == c[|c| - 1]
    ensures forall k | 0 <= k < |cur| :: cur[k] in c
    ensures forall x | x in cur :: x in c
  {
  }

  /** One turn of the inner loop of list_sort. */
  method PassTurn(a0: Elem, tail: Elem, less: (Elem, Elem) -> bool, ghost c: seq<Elem>, ghost cur: seq<Elem>, ghost i: nat, ghost cnt: nat)
    returns (b1: Elem, last: bool, ghost cur': seq<Elem>, ghost i': nat)
    requires Chain(cur) && Passing(c, cur, less, i, cnt) && |cur| == |c| && i < |c| - 1 && a0 == cur[i] && tail == cur[|c| - 1]
    modifies c
    ensures Chain(cur') && |cur'| == |c|
    ensures last ==> cur' == cur && i' == i && RunStop(less, cur, i, |c| - 1) == |c| - 1
    ensures !last ==> Passing(c, cur', less, i', cnt + 1) && i < i' < |c| && b1 == cur'[i'] && tail == cur'[|c| - 1]
  {
    hide Chain, Passing, Merge, RunEnd, RunStop;
    PassingWithin(c, cur, less, i, cnt);
    b1, last, cur' := MergePair(a0, tail, less, cur, i, |c| - 1);
    i' := i;
    if !last {
      ghost var m := RunStop(less, cur, i, |c| - 1);
      i' := RunStop(less, cur, m, |c| - 1);
      PassingOn(c, cur, cur', less, i, m, i', cnt);
    }
  }

  /** A pass of list_sort over the elements between `head` and `tail`. */
  method SortPass(head: Elem, tail: Elem, less: (Elem, Elem) -> bool, ghost c: seq<Elem>) returns (outputRunCnt: nat, ghost c': seq<Elem>)
    requires Chain(c) && c[0] == head && c[|c| - 1] == tail
    modifies c
    ensures Chain(c') && |c'| == |c| && c'[0] == head && c'[|c| - 1] == tail && forall x | x in c' :: x in c
    ensures Interior(c') == Pass(less, Interior(c)) && outputRunCnt == Output(less, Interior(c))
  {
    PassingStart(c, less);
    Neighbours(c, 0);
    assert forall x, y | 0 <= x < y < |c| :: c[x] != c[y];
    hide Passing, Merge, RunEnd, RunStop, Interior, Pass, Output;
    outputRunCnt, c' := 0, c;
    ghost var i: nat := 1;
    var a0, last := head.next, false;
    while a0 != tail && !last
      invariant last ==> outputRunCnt > 0
      invariant Chain(c') && Passing(c, c', less, i, if last then outputRunCnt - 1 else outputRunCnt)
      invariant |c'| == |c| && 1 <= i < |c| && tail == c'[|c| - 1]
      invariant if last then i < |c| - 1 && RunStop(less, c', i, |c| - 1) == |c| - 1 else a0 == c'[i]
      decreases !last, |c| - i
    {
      outputRunCnt := outputRunCnt + 1;
      SameElement(c', i, |c| - 1);
      a0, last, c', i := PassTurn(a0, tail, less, c, c', i, outputRunCnt - 1);
    }
    if !last {
      SameElement(c', i, |c| - 1);
    }
    PassingWithin(c, c', less, i, if last then outputRunCnt - 1 else outputRunCnt);
    PassingEnd(c, c', less, i, if last then outputRunCnt - 1 else outputRunCnt);
  }

  // ---------- reversing ----------

  /** While a list is being reversed: the elements from 1 to k have their links swapped. */
  ghost predicate Swapped(c: seq<Elem>, k: nat)
    reads c
  {
    && 2 <= |c| && 1 <= k <= |c| - 1
    && c[0].prev == null && c[0].next == c[1] && c[|c| - 1].next == null && c[|c| - 1].prev == c[|c| - 2]
    && (forall i, j | 0 <= i < j < |c| :: c[i] != c[j])
    && (forall i {:trigger c[i].next} {:trigger c[i].prev} | 1 <= i < |c| - 1 ::
          if i < k then c[i].next == c[i - 1] && c[i].prev == c[i + 1] else c[i].next == c[i + 1] && c[i].prev == c[i - 1])
  }

  /** The loop of list_reverse. */
  method SwapLinks(head: Elem, tail: Elem, ghost c: seq<Elem>)
    requires Chain(c) && c[0] == head && c[|c| - 1] == tail
    modifies c[1..|c| - 1]
    ensures Swapped(c, |c| - 1)
  {
    hide Chain, Swapped;
    SwappedStart(c);
    var e := head.next;
    ghost var k: nat := 1;
    SwappedAt(c, k);
    while e != tail
      invariant Swapped(c, k) && k < |c| && e == c[k] && (e == tail <==> k == |c| - 1)
      decreases |c| - k
    {
      SwapOne(e, c, k);
      e := e.prev;
      k := k + 1;
      SwappedAt(c, k);
    }
  }

  lemma SwappedStart(c: seq<Elem>)
    requires Chain(c)
    ensures Swapped(c, 1) && c[0].next == c[1]
  {
  }

  lemma SwappedAt(c: seq<Elem>, k: nat)
    requires Swapped(c, k)
    ensures k < |c| && (c[k] == c[|c| - 1] <==> k == |c| - 1) && (k < |c| - 1 ==> c[k] in c[1..|c| - 1])
  {
    assert k < |c| - 1 ==> c[1..|c| - 1][k - 1] == c[k];
  }

  method SwapOne(e: Elem, ghost c: seq<Elem>, ghost k: nat)
    requires Swapped(c, k) && k < |c| - 1 && e == c[k]
    modifies e
    ensures Swapped(c, k + 1) && e.prev == c[k + 1]
  {
    e.prev, e.next := e.next, e.prev;
  }

  /** The end of list_reverse: the links of the head and the tail, and those of their neighbours, are swapped. */
  method SwapEnds(head: Elem, tail: Elem, ghost c: seq<Elem>)
    requires |c| > 2 && Swapped(c, |c| - 1) && c[0] == head && c[|c| - 1] == tail
    modifies head, tail, c[1], c[|c| - 2]
    ensures Chain([head] + Reversed(c[1..|c| - 1]) + [tail])
  {
    head.next, tail.prev := tail.prev, head.next;
    head.next.prev, tail.prev.next := tail.prev.next, head.next.prev;
    ReversedChain(head, tail, c);
  }

  lemma ReversedChain(head: Elem, tail: Elem, c: seq<Elem>)
    requires |c| > 2 && c[0] == head && c[|c| - 1] == tail && forall i, j | 0 <= i < j < |c| :: c[i] != c[j]
    requires head.prev == null && head.next == c[|c| - 2] && tail.next == null && tail.prev == c[1]
    requires c[|c| - 2].prev == head && c[1].next == tail
    requires forall i {:trigger c[i].next} | 2 <= i < |c| - 1 :: c[i].next == c[i - 1]
    requires forall i {:trigger c[i].prev} | 1 <= i < |c| - 2 :: c[i].prev == c[i + 1]
    ensures Chain([head] + Reversed(c[1..|c| - 1]) + [tail])
  {
    var n := |c| - 2;
    var r := [head] + Reversed(c[1..n + 1]) + [tail];
    forall i | 1 <= i <= n
      ensures r[i] == c[n + 1 - i]
    {
      ReversedAt(c[1..n + 1], i - 1);
    }
    hide Reversed;
    forall i | 0 <= i < |r| - 1
      ensures r[i].next == r[i + 1]
    {
    }
    forall i {:trigger r[i].prev} | 1 <= i < |r|
      ensures r[i].prev == r[i - 1]
    {
    }
    forall i, j | 0 <= i < j < |r|
      ensures r[i] != r[j]
    {
      assert r[i] == c[if i == 0 || i == n + 1 then i else n + 1 - i];
      assert r[j] == c[if j == 0 || j == n + 1 then j else n + 1 - j];
    }
  }

  /** A list: its head and tail, and the elements between them, in order. */
  class List {
    const head: Elem
    const tail: Elem
    ghost var items: seq<Elem>

    ghost function Full(): seq<Elem>
      reads this
    {
      [head] + items + [tail]
    }

    ghost predicate Valid()
      reads this, Full()
    {
      Chain(Full())
    }

    /** llist_init. */
    constructor ()
      ensures Valid() && items == []
    {
      head := new Elem();
      tail := new Elem();
      items := [];
      new;
      head.next := tail;
      tail.prev := head;
    }

    /** list_insert before the element at position `i` of the items, or at the end. */
    method InsertAt(before: Elem, elem: Elem, ghost i: nat)
      requires Valid() && i <= |items| && before == (items + [tail])[i] && elem !in Full()
      modifies this`items, elem, Full()
      ensures Valid() && items == old(items[..i] + [elem] + items[i..])
    {
      hide Chain;
      ghost var c := Full();
      assert c[i + 1] == before && c[i] in c && c[i + 1] in c;
      Insert(before, elem, c, i + 1);
      items := items[..i] + [elem] + items[i..];
      assert Full() == c[..i + 1] + [elem] + c[i + 1..];
    }

    /** list_push_back. */
    method PushBack(elem: Elem)
      requires Valid() && elem !in Full()
      modifies this`items, elem, Full()
      ensures Valid() && items == old(items) + [elem]
    {
      InsertAt(tail, elem, |items|);
    }

    /** list_reverse. */
    method Reverse()
      requires Valid()
      modifies this`items, Full()
      ensures Valid() && items == Reversed(old(items))
    {
      ghost var c := Full();
      Neighbours(c, 0);
      SameElement(c, 1, |c| - 1);
      if head.next != tail {
        hide Chain, Swapped, Reversed;
        SwapLinks(head, tail, c);
        SwapEnds(head, tail, c);
        assert c[1..|c| - 1] == items;
        items := Reversed(items);
      }
    }

    /** list_sort: natural merge sort. The list ends up in order, with the same elements, equivalent ones as
        they were; the number of passes is logarithmic in the number of runs. */
    method Sort(less: (Elem, Elem) -> bool) returns (ghost passes: nat)
      requires Valid() && StrictWeak(less, items)
      modifies this`items, Full()
      ensures Valid() && StablySorted(less, old(items), items)
      ensures passes >= 1
      ensures forall k: nat :: Runs(less, old(items)) <= Pow2(k) && passes > 1 ==> passes <= k
    {
      hide Chain, Runs, Output, Pass, Sorting;
      ghost var items0, c0 := items, Full();
      SortingStart(less, items0);
      passes := 0;
      var outputRunCnt := 2;
      while outputRunCnt > 1
        invariant Valid() && (forall k | 0 <= k < |Full()| :: Full()[k] in c0)
        invariant Sorting(less, items0, items, passes, outputRunCnt)
        decreases if outputRunCnt > 1 then Runs(less, items) + 1 else 0
      {
        SortingOn(less, items0, items, passes, outputRunCnt);
        outputRunCnt := OnePass(less);
        passes := passes + 1;
      }
      SortingDone(less, items0, items, passes, outputRunCnt);
    }

    /** One pass of list_sort. */
    method OnePass(less: (Elem, Elem) -> bool) returns (outputRunCnt: nat)
      requires Valid()
      modifies this`items, Full()
      ensures Valid() && items == Pass(less, old(items)) && outputRunCnt == Output(less, old(items))
      ensures forall k | 0 <= k < |Full()| :: Full()[k] in old(Full())
    {
      hide Chain, Pass, Output, Interior;
      ghost var c := Full();
      InteriorOfFull(head, items, tail);
      ghost var c';
      outputRunCnt, c' := SortPass(head, tail, less, c);
      FullOfInterior(c');
      items := Interior(c');
    }

    /** list_insert_ordered: before the first element that the new one is less than. */
    method InsertOrdered(elem: Elem, less: (Elem, Elem) -> bool) returns (ghost k: nat)
      requires Valid() && elem !in Full()
      modifies this`items, elem, Full()
      ensures Valid() && k <= |old(items)| && items == old(items[..k] + [elem] + items[k..])
      ensures forall j | 0 <= j < k :: !less(elem, old(items)[j])
      ensures k < |old(items)| ==> less(elem, old(items)[k])
      ensures StrictWeak(less, old(items) + [elem]) && Ordered(less, old(items)) ==> Ordered(less, items)
    {
      var e;
      e, k := FirstGreater(elem, less);
      if StrictWeak(less, items + [elem]) && Ordered(less, items) {
        InsertedOrdered(less, items, elem, k);
      }
      hide Chain, StrictWeak, Ordered;
      InsertAt(e, elem, k);
    }

    /** The loop of list_insert_ordered. */
    method FirstGreater(elem: Elem, less: (Elem, Elem) -> bool) returns (e: Elem, ghost k: nat)
      requires Valid()
      ensures k <= |items| && e == (items + [tail])[k]
      ensures forall j | 0 <= j < k :: !less(elem, items[j])
      ensures k < |items| ==> less(elem, items[k])
      ensures if e == tail then forall x | x in items :: !less(elem, x) else e in items && less(elem, e)
    {
      ghost var c := Full();
      Neighbours(c, 0);
      e := head.next;
      k := 0;
      SameElement(c, 1, |c| - 1);
      while e != tail && !less(elem, e)
        invariant k <= |items| && e == c[k + 1] && (e == tail <==> k == |items|)
        invariant forall j | 0 <= j < k :: !less(elem, items[j])
        decreases |items| - k
      {
        Neighbours(c, k + 1);
        SameElement(c, k + 2, |c| - 1);
        assert c[k + 1] == items[k];
        e := e.next;
        k := k + 1;
      }
      assert k < |items| ==> c[k + 1] == items[k];
    }

    /** The element after the item at position `i` leaves the list. */
    method RemoveAfter(elem: Elem, next: Elem, ghost i: nat)
      requires Valid() && i + 1 < |items| && elem == items[i] && next == items[i + 1]
      modifies this`items, Full()
      ensures Valid() && items == old(items[..i + 1] + items[i + 2..]) && elem.next == (items + [tail])[i + 1]
      ensures forall x | x in Full() :: x in old(Full())
      ensures next !in Full()
    {
      hide Chain;
      ghost var c, rest := Full(), items[..i + 1] + items[i + 2..];
      SameElements(c, items, i);
      WithoutItem(head, items, tail, i);
      var after := Remove(next, c, i + 2);
      items := rest;
      Neighbours(Full(), i + 1);
    }

    /** What list_unique may change. */
    ghost predicate Separate(duplicates: List?)
      reads this, duplicates
    {
      duplicates != null ==> duplicates != this && Apart(Full(), duplicates.Full())
    }

    /** list_unique: of neighbouring equivalent elements the first stays; the others are removed, and appended
        to `duplicates` in order if that list is given. */
    method Unique(duplicates: List?, less: (Elem, Elem) -> bool)
      requires Valid() && Separate(duplicates) && (duplicates != null ==> duplicates.Valid())
      modifies Area(duplicates)
      ensures Valid() && Separate(duplicates) && items == Kept(less, old(items))
      ensures duplicates != null ==> duplicates.Valid() && duplicates.items == old(duplicates.items) + Dropped(less, old(items))
      ensures StrictWeak(less, old(items)) && |old(items)| > 0 ==>
                && items == [old(items)[0]] + Followers(less, old(items)[0], old(items)[1..], false)
                && (duplicates != null ==>
                      duplicates.items == old(duplicates.items) + Followers(less, old(items)[0], old(items)[1..], true))
    {
      hide Chain, Kept, Dropped, Thinning, StrictWeak, Followers;
      if StrictWeak(less, items) && |items| > 0 {
        KeptAreFirsts(less, items);
      }
      ThinningStart(less, items);
      Neighbours(Full(), 0);
      SameElement(Full(), 1, |Full()| - 1);
      if head.next != tail {
        Thin(head.next, duplicates, less);
      }
    }

    /** The loop of list_unique. */
    method Thin(begin: Elem, duplicates: List?, less: (Elem, Elem) -> bool)
      requires Valid() && Separate(duplicates) && (duplicates != null ==> duplicates.Valid())
      requires |items| > 0 && begin == items[0]
      modifies Area(duplicates)
      ensures Valid() && Separate(duplicates) && items == Kept(less, old(items))
      ensures duplicates != null ==> duplicates.Valid() && duplicates.items == old(duplicates.items) + Dropped(less, old(items))
    {
      hide Chain, Kept, Dropped, Thinning, Separate, Apart, Holds;
      ThinningStart(less, items);
      ghost var area: set<object> := Area(duplicates);
      assert Holds(duplicates, area) by { AreaHolds(duplicates); }
      ghost var items0, dropped0 := items, if duplicates == null then [] else duplicates.items;
      var elem := begin;
      ghost var k: nat, d := 0, [];
      var more := true;
      while more
        invariant Valid() && Separate(duplicates) && Holds(duplicates, area)
        invariant duplicates != null ==> duplicates.Valid() && duplicates.items == dropped0 + d
        invariant k < |items| && elem == items[k] && Thinning(less, items0, items, k, d)
        invariant !more ==> k == |items| - 1
        decreases more, |items| - k
      {
        ghost var d1 := d;
        more, elem, k, d := UniqueStep(elem, duplicates, less, items0, k, d, area);
        assert dropped0 + d1 + d[|d1|..] == dropped0 + d;
      }
      ThinningDone(less, items0, items, d);
    }

    /** The two lists and their elements. */
    ghost function Area(duplicates: List?): set<object>
      reads this, duplicates
    {
      {this} + Elems(Full()) + if duplicates == null then {} else {duplicates} + Elems(duplicates.Full())
    }

    /** The two lists and their elements lie in `area`. */
    ghost predicate Holds(duplicates: List?, area: set<object>)
      reads this, duplicates
    {
      && this in area && Within(Full(), area)
      && (duplicates != null ==> duplicates in area && Within(duplicates.Full(), area))
    }

    lemma AreaHolds(duplicates: List?)
      ensures Holds(duplicates, Area(duplicates))
    {
    }

    /** One turn of the loop of list_unique; both lists' elements lie in `area`. */
    method UniqueStep(elem: Elem, duplicates: List?, less: (Elem, Elem) -> bool, ghost items0: seq<Elem>, ghost k: nat, ghost d: seq<Elem>,
                      ghost area: set<object>)
      returns (more: bool, elem': Elem, ghost k': nat, ghost d': seq<Elem>)
      requires Valid() && Separate(duplicates) && (duplicates != null ==> duplicates.Valid())
      requires Holds(duplicates, area)
      requires k < |items| && elem == items[k] && Thinning(less, items0, items, k, d)
      modifies area
      ensures Valid() && Separate(duplicates)
      ensures Holds(duplicates, area)
      ensures d <= d' && (duplicates != null ==> duplicates.Valid() && duplicates.items == old(duplicates.items) + d'[|d|..])
      ensures k' < |items| && elem' == items[k'] && Thinning(less, items0, items, k', d')
      ensures if more then |items| - k' < old(|items|) - k else k' == |items| - 1
    {
      hide Chain, Kept, Dropped, Thinning;
      ghost var c := Full();
      Neighbours(c, k + 1);
      SameElement(c, k + 2, |c| - 1);
      var next: Elem := elem.next;
      if next == tail {
        return false, elem, k, d;
      }
      ThinningStep(less, items0, items, k, d);
      if !less(elem, next) && !less(next, elem) {
        MoveNext(elem, next, duplicates, k, area);
        return true, elem, k, d + [next];
      }
      return true, next, k + 1, d;
    }

    /** An element equivalent to the one before it leaves the list, for the end of the other list. */
    method MoveOver(elem: Elem, next: Elem, duplicates: List, ghost k: nat)
      requires Valid() && duplicates.Valid() && duplicates != this && Apart(Full(), duplicates.Full())
      requires k + 1 < |items| && elem == items[k] && next == items[k + 1]
      modifies this`items, Full(), duplicates`items, duplicates.Full()
      ensures Valid() && items == old(items[..k + 1] + items[k + 2..])
      ensures duplicates.Valid() && duplicates.items == old(duplicates.items) + [next]
      ensures forall x | x in Full() :: x in old(Full()) && x != next
    {
      hide Chain, Apart;
      ghost var c, e := Full(), duplicates.Full();
      ItemInFull(k + 1);
      ApartMember(c, e, next);
      assert forall i | 0 <= i < |e| :: e[i] !in c by { ApartIndex(c, e); }
      RemoveAfter(elem, next, k);
      assert duplicates.Full() == e && Chain(e);
      duplicates.PushBack(next);
    }

    /** What becomes of an element equivalent to the one before it. */
    method MoveNext(elem: Elem, next: Elem, duplicates: List?, ghost k: nat, ghost area: set<object>)
      requires Valid() && Separate(duplicates) && (duplicates != null ==> duplicates.Valid())
      requires Holds(duplicates, area)
      requires k + 1 < |items| && elem == items[k] && next == items[k + 1]
      modifies area
      ensures Valid() && Separate(duplicates) && items == old(items[..k + 1] + items[k + 2..])
      ensures Holds(duplicates, area)
      ensures duplicates != null ==> duplicates.Valid() && duplicates.items == old(duplicates.items) + [next]
    {
      hide Chain;
      ItemInFull(k + 1);
      if duplicates == null {
        RemoveAfter(elem, next, k);
      } else {
        MoveOver(elem, next, duplicates, k);
      }
    }

    lemma ItemInFull(i: nat)
      requires i < |items|
      ensures items[i] in Full()
    {
      assert Full()[i + 1] == items[i];
    }
  }

  ghost function Elems(c: seq<Elem>): set<object> {
    set x | x in c
  }

  /** All elements of `c` lie in `area`. */
  ghost predicate Within(c: seq<Elem>, area: set<object>) {
    forall x | x in c :: x in area
  }

  lemma ApartMember(c: seq<Elem>, d: seq<Elem>, x: Elem)
    requires Apart(c, d) && x in c
    ensures x !in d
  {
  }

  lemma ApartIndex(c: seq<Elem>, d: seq<Elem>)
    requires Apart(c, d)
    ensures forall i | 0 <= i < |d| :: d[i] !in c
  {
  }

  lemma InteriorOfFull(head: Elem, items: seq<Elem>, tail: Elem)
    ensures Interior([head] + items + [tail]) == items
  {
  }

  lemma FullOfInterior(c: seq<Elem>)
    requires |c| >= 2
    ensures [c[0]] + Interior(c) + [c[|c| - 1]] == c
  {
  }

  lemma WithoutItem(head: Elem, items: seq<Elem>, tail: Elem, i: nat)
    requires i + 1 < |items|
    ensures var c := [head] + items + [tail];
            var c' := [head] + (items[..i + 1] + items[i + 2..]) + [tail];
            && c' == c[..i + 2] + c[i + 3..] && (forall x | x in c' :: x in c)
            && c[i + 1] in c && c[i + 3] in c && c'[i + 1] == items[i] && c'[i + 2] == (items[..i + 1] + items[i + 2..] + [tail])[i + 1]
  {
  }

  lemma SameElements(c: seq<Elem>, items: seq<Elem>, i: nat)
    requires Chain(c) && |c| == |items| + 2 && i + 1 < |items| && c[1..|c| - 1] == items
    ensures c[i + 1] == items[i] && c[i + 2] == items[i + 1]
    ensures c[i + 2] !in c[..i + 2] + c[i + 3..]
  {
    assert c[1..|c| - 1][i] == items[i] && c[1..|c| - 1][i + 1] == items[i + 1];
  }
}
