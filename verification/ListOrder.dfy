/** What the ordered-list operations compute, on sequences: runs, merging, passes and duplicates (a3/fs/list.c). */
module ListOrder {

  /** A strict weak order on the elements of `s`. */
  ghost predicate StrictWeak<T>(less: (T, T) -> bool, s: seq<T>) {
    && (forall x, y | x in s && y in s && less(x, y) :: !less(y, x))
    && (forall x, y, z | x in s && y in s && z in s && !less(x, y) && !less(y, z) :: !less(x, z))
  }

  /** No element is less than the one before it. */
  ghost predicate Ordered<T>(less: (T, T) -> bool, s: seq<T>) {
    forall i {:trigger s[i]} | 1 <= i < |s| :: !less(s[i], s[i - 1])
  }

  predicate Equivalent<T>(less: (T, T) -> bool, x: T, y: T) {
    !less(x, y) && !less(y, x)
  }

  /** In an ordered sequence no later element is less than an earlier one. */
  lemma {:induction false} OrderedPairs<T>(less: (T, T) -> bool, s: seq<T>, i: nat, j: nat)
    requires StrictWeak(less, s) && Ordered(less, s) && i <= j < |s|
    ensures !less(s[j], s[i])
  {
    if i < j {
      OrderedPairs(less, s, i, j - 1);
      assert !less(s[j], s[j - 1]);
      NotLessTrans(less, s, s[j], s[j - 1], s[i]);
    } else {
      NotLessSelf(less, s, s[i]);
    }
  }

  lemma NotLessSelf<T>(less: (T, T) -> bool, s: seq<T>, x: T)
    requires StrictWeak(less, s) && x in s
    ensures !less(x, x)
  {
  }

  lemma NotLessTrans<T>(less: (T, T) -> bool, s: seq<T>, x: T, y: T, z: T)
    requires StrictWeak(less, s) && x in s && y in s && z in s && !less(x, y) && !less(y, z)
    ensures !less(x, z)
  {
  }

  // ---------- runs ----------

  /** Length of the run that `s` starts with. */
  ghost function RunEnd<T>(less: (T, T) -> bool, s: seq<T>): (r: nat)
    requires |s| > 0
    ensures 1 <= r <= |s|
  {
    if |s| == 1 || less(s[1], s[0]) then 1 else 1 + RunEnd(less, s[1..])
  }

  /** The first `k` elements are in order. */
  ghost predicate RunTo<T>(less: (T, T) -> bool, s: seq<T>, k: nat) {
    k <= |s| && forall i {:trigger s[i]} | 1 <= i < k :: !less(s[i], s[i - 1])
  }

  lemma RunToFirst<T>(less: (T, T) -> bool, s: seq<T>)
    requires |s| > 0
    ensures RunTo(less, s, 1)
  {
  }

  lemma RunToNext<T>(less: (T, T) -> bool, s: seq<T>, k: nat)
    requires 1 <= k < |s| && RunTo(less, s, k) && !less(s[k], s[k - 1])
    ensures RunTo(less, s, k + 1)
  {
  }

  /** The run is ordered and cannot be longer. */
  lemma {:induction false} RunIsMaximal<T>(less: (T, T) -> bool, s: seq<T>)
    requires |s| > 0
    ensures Ordered(less, s[..RunEnd(less, s)])
    ensures RunTo(less, s, RunEnd(less, s))
    ensures RunEnd(less, s) < |s| ==> less(s[RunEnd(less, s)], s[RunEnd(less, s) - 1])
  {
    if !(|s| == 1 || less(s[1], s[0])) {
      var t, r := s[1..], RunEnd(less, s[1..]);
      RunIsMaximal(less, t);
      forall i {:trigger s[i]} | 1 <= i < 1 + r
        ensures !less(s[i], s[i - 1])
      {
        if i > 1 {
          assert !less(t[i - 1], t[i - 2]);
        }
      }
    }
  }

  /** The run is the only ordered prefix that stops where the order breaks. */
  lemma RunIsUnique<T>(less: (T, T) -> bool, s: seq<T>, r: nat)
    requires 1 <= r <= |s| && RunTo(less, s, r)
    requires r < |s| ==> less(s[r], s[r - 1])
    ensures RunEnd(less, s) == r
  {
    RunIsMaximal(less, s);
  }

  /** How many runs `s` consists of. */
  ghost function Runs<T>(less: (T, T) -> bool, s: seq<T>): nat {
    if |s| == 0 then 0 else 1 + Runs(less, s[RunEnd(less, s)..])
  }

  lemma OneRun<T>(less: (T, T) -> bool, s: seq<T>)
    ensures Runs(less, s) <= 1 ==> Ordered(less, s)
    ensures Ordered(less, s) ==> Runs(less, s) <= 1
  {
    if |s| > 0 {
      var r := RunEnd(less, s);
      RunIsMaximal(less, s);
      assert r == |s| ==> s[..r] == s;
    }
  }

  /** Where the first run ends when an ordered sequence is put in front of another. */
  lemma RunBroken<T>(less: (T, T) -> bool, a: seq<T>, b: seq<T>)
    requires Ordered(less, a) && |a| > 0 && |b| > 0 && less(b[0], a[|a| - 1])
    ensures RunEnd(less, a + b) == |a|
  {
    forall i {:trigger (a + b)[i]} | 1 <= i < |a|
      ensures !less((a + b)[i], (a + b)[i - 1])
    {
      assert !less(a[i], a[i - 1]);
    }
    RunIsUnique(less, a + b, |a|);
  }

  lemma RunGoesOn<T>(less: (T, T) -> bool, a: seq<T>, b: seq<T>)
    requires Ordered(less, a) && |a| > 0 && |b| > 0 && !less(b[0], a[|a| - 1])
    ensures RunEnd(less, a + b) == |a| + RunEnd(less, b)
  {
    hide RunEnd;
    var r := RunEnd(less, b);
    RunIsMaximal(less, b);
    forall i {:trigger (a + b)[i]} | 1 <= i < |a| + r
      ensures !less((a + b)[i], (a + b)[i - 1])
    {
      if i < |a| {
        assert !less(a[i], a[i - 1]);
      } else if i > |a| {
        assert !less(b[i - |a|], b[i - |a| - 1]);
      }
    }
    RunIsUnique(less, a + b, |a| + r);
  }

  /** Putting an ordered sequence in front adds at most one run. */
  lemma RunsOfJoined<T>(less: (T, T) -> bool, a: seq<T>, b: seq<T>)
    requires Ordered(less, a)
    ensures Runs(less, a + b) <= 1 + Runs(less, b)
  {
    hide RunEnd, Ordered;
    if |a| == 0 {
      assert a + b == b;
    } else if |b| == 0 {
      assert a + b == a;
      OneRun(less, a);
    } else if less(b[0], a[|a| - 1]) {
      RunBroken(less, a, b);
      assert (a + b)[|a|..] == b;
    } else {
      RunGoesOn(less, a, b);
      assert (a + b)[|a| + RunEnd(less, b)..] == b[RunEnd(less, b)..];
    }
  }

  // ---------- merging ----------

  /** Two ordered sequences merged; of equivalent elements, those of `a` come first. */
  ghost function Merge<T>(less: (T, T) -> bool, a: seq<T>, b: seq<T>): (r: seq<T>)
    ensures |r| == |a| + |b|
    decreases |a| + |b|
  {
    if |a| == 0 then b
    else if |b| == 0 then a
    else if !less(b[0], a[0]) then [a[0]] + Merge(less, a[1..], b)
    else [b[0]] + Merge(less, a, b[1..])
  }

  lemma {:induction false} MergeElements<T>(less: (T, T) -> bool, a: seq<T>, b: seq<T>)
    ensures multiset(Merge(less, a, b)) == multiset(a) + multiset(b)
    decreases |a| + |b|
  {
    if |a| > 0 && |b| > 0 {
      assert a == [a[0]] + a[1..] && b == [b[0]] + b[1..];
      if !less(b[0], a[0]) {
        MergeElements(less, a[1..], b);
      } else {
        MergeElements(less, a, b[1..]);
      }
    }
  }

  lemma OrderedTail<T>(less: (T, T) -> bool, s: seq<T>)
    requires |s| > 0 && Ordered(less, s)
    ensures Ordered(less, s[1..])
  {
    forall i {:trigger s[1..][i]} | 1 <= i < |s| - 1
      ensures !less(s[1..][i], s[1..][i - 1])
    {
      assert !less(s[i + 1], s[i]);
    }
  }

  lemma OrderedCons<T>(less: (T, T) -> bool, x: T, s: seq<T>)
    requires Ordered(less, s) && (|s| > 0 ==> !less(s[0], x))
    ensures Ordered(less, [x] + s)
  {
    forall i {:trigger ([x] + s)[i]} | 1 <= i < 1 + |s|
      ensures !less(([x] + s)[i], ([x] + s)[i - 1])
    {
      if i > 1 {
        assert !less(s[i - 1], s[i - 2]);
      }
    }
  }

  /** Merging two ordered sequences gives an ordered one. */
  lemma {:induction false} MergeOrdered<T>(less: (T, T) -> bool, a: seq<T>, b: seq<T>)
    requires Ordered(less, a) && Ordered(less, b)
    requires forall x, y | x in a && y in b && less(y, x) :: !less(x, y)
    ensures Ordered(less, Merge(less, a, b))
    decreases |a| + |b|
  {
    if |a| > 0 && |b| > 0 {
      if !less(b[0], a[0]) {
        OrderedTail(less, a);
        MergeOrdered(less, a[1..], b);
        assert |a| > 1 ==> !less(a[1], a[0]);
        OrderedCons(less, a[0], Merge(less, a[1..], b));
      } else {
        OrderedTail(less, b);
        MergeOrdered(less, a, b[1..]);
        assert a[0] in a && b[0] in b;
        assert |b| > 1 ==> !less(b[1], b[0]);
        OrderedCons(less, b[0], Merge(less, a, b[1..]));
      }
    }
  }

  // ---------- stability ----------

  /** The elements of `s` equivalent to `e`, in their order. */
  ghost function Class<T>(less: (T, T) -> bool, s: seq<T>, e: T): seq<T> {
    if |s| == 0 then []
    else (if Equivalent(less, s[0], e) then [s[0]] else []) + Class(less, s[1..], e)
  }

  lemma ClassOfCons<T>(less: (T, T) -> bool, x: T, s: seq<T>, e: T)
    ensures Class(less, [x] + s, e) == (if Equivalent(less, x, e) then [x] else []) + Class(less, s, e)
  {
    assert ([x] + s)[1..] == s;
  }

  lemma {:induction false} ClassOfJoined<T>(less: (T, T) -> bool, a: seq<T>, b: seq<T>, e: T)
    ensures Class(less, a + b, e) == Class(less, a, e) + Class(less, b, e)
  {
    if |a| == 0 {
      assert a + b == b;
    } else {
      hide Class;
      ClassOfJoined(less, a[1..], b, e);
      ClassOfCons(less, a[0], a[1..], e);
      ClassOfCons(less, a[0], a[1..] + b, e);
      assert [a[0]] + a[1..] == a && [a[0]] + (a[1..] + b) == a + b;
    }
  }

  lemma {:induction false} EmptyClass<T>(less: (T, T) -> bool, s: seq<T>, e: T)
    requires forall i | 0 <= i < |s| :: !Equivalent(less, s[i], e)
    ensures Class(less, s, e) == []
  {
    if |s| > 0 {
      EmptyClass(less, s[1..], e);
    }
  }

  lemma MergeFirst<T>(less: (T, T) -> bool, a: seq<T>, b: seq<T>)
    ensures |a| == 0 ==> Merge(less, a, b) == b
    ensures |b| == 0 ==> Merge(less, a, b) == a
    ensures |a| > 0 && |b| > 0 ==>
              Merge(less, a, b) == if !less(b[0], a[0]) then [a[0]] + Merge(less, a[1..], b) else [b[0]] + Merge(less, a, b[1..])
  {
  }

  /** Merging ordered sequences is stable: equivalent elements keep their order, `a` before `b`. */
  lemma {:induction false} MergeStable<T>(less: (T, T) -> bool, a: seq<T>, b: seq<T>, e: T)
    requires StrictWeak(less, a + b + [e]) && Ordered(less, a) && Ordered(less, b)
    ensures Class(less, Merge(less, a, b), e) == Class(less, a, e) + Class(less, b, e)
    decreases |a| + |b|
  {
    hide Class, StrictWeak, Ordered, Merge;
    MergeFirst(less, a, b);
    NoClass(less, e);
    if |a| > 0 && |b| > 0 {
      assert a == [a[0]] + a[1..] && b == [b[0]] + b[1..];
      ClassOfCons(less, a[0], a[1..], e);
      ClassOfCons(less, b[0], b[1..], e);
      if !less(b[0], a[0]) {
        OrderedTail(less, a);
        WeakOnPart(less, a + b + [e], a[1..] + b + [e]);
        MergeStable(less, a[1..], b, e);
        ClassOfCons(less, a[0], Merge(less, a[1..], b), e);
      } else {
        OrderedTail(less, b);
        WeakOnPart(less, a + b + [e], a + b[1..] + [e]);
        MergeStable(less, a, b[1..], e);
        ClassOfCons(less, b[0], Merge(less, a, b[1..]), e);
        if Equivalent(less, b[0], e) {
          NoneEquivalent(less, a, b, e);
          EmptyClass(less, a, e);
        }
      }
    } else {
      assert a == [] || b == [];
    }
  }

  lemma NoClass<T>(less: (T, T) -> bool, e: T)
    ensures Class(less, [], e) == []
  {
  }

  /** The order holds on any of the elements. */
  lemma WeakOnPart<T>(less: (T, T) -> bool, s: seq<T>, t: seq<T>)
    requires StrictWeak(less, s) && forall x | x in t :: x in s
    ensures StrictWeak(less, t)
  {
  }

  /** An element that overtakes all of `a` is equivalent to none of them. */
  lemma NoneEquivalent<T>(less: (T, T) -> bool, a: seq<T>, b: seq<T>, e: T)
    requires StrictWeak(less, a + b + [e]) && Ordered(less, a)
    requires |a| > 0 && |b| > 0 && less(b[0], a[0]) && Equivalent(less, b[0], e)
    ensures forall i | 0 <= i < |a| :: !Equivalent(less, a[i], e)
  {
    var all := a + b + [e];
    assert b[0] in all && e in all;
    WeakOnPart(less, all, a);
    forall i | 0 <= i < |a|
      ensures !Equivalent(less, a[i], e)
    {
      OrderedPairs(less, a, 0, i);
      assert a[i] in all && a[0] in all;
    }
  }

  // ---------- one pass of list_sort ----------

  /** Neighbouring runs merged in pairs. */
  ghost function Pass<T>(less: (T, T) -> bool, s: seq<T>): (r: seq<T>)
    ensures |r| == |s|
    decreases |s|
  {
    if |s| == 0 then []
    else
      var m := RunEnd(less, s);
      if m == |s| then s
      else
        var e := m + RunEnd(less, s[m..]);
        Merge(less, s[..m], s[m..e]) + Pass(less, s[e..])
  }

  /** How many runs a pass puts out. */
  ghost function Output<T>(less: (T, T) -> bool, s: seq<T>): nat
    decreases |s|
  {
    if |s| == 0 then 0
    else
      var m := RunEnd(less, s);
      if m == |s| then 1 else 1 + Output(less, s[m + RunEnd(less, s[m..])..])
  }

  lemma NextPair<T>(less: (T, T) -> bool, s: seq<T>, m: nat, e: nat)
    requires |s| > 0 && m == RunEnd(less, s) && m < |s| && e == m + RunEnd(less, s[m..])
    ensures Runs(less, s) == 2 + Runs(less, s[e..])
    ensures Output(less, s) == 1 + Output(less, s[e..])
  {
    ThreeParts(s, m, e);
    hide RunEnd;
    assert Runs(less, s) == 1 + Runs(less, s[m..]);
  }

  /** A pass puts out one run for every two it finds, rounded up. */
  lemma {:induction false} OutputIsHalf<T>(less: (T, T) -> bool, s: seq<T>)
    ensures Output(less, s) == (Runs(less, s) + 1) / 2
    decreases |s|
  {
    if |s| > 0 {
      var m := RunEnd(less, s);
      if m < |s| {
        var e := m + RunEnd(less, s[m..]);
        hide Runs, RunEnd, Output;
        NextPair(less, s, m, e);
        OutputIsHalf(less, s[e..]);
      } else {
        hide RunEnd;
        assert s[m..] == [];
      }
    }
  }

  lemma ThreeParts<T>(s: seq<T>, m: nat, e: nat)
    requires m <= e <= |s|
    ensures s == s[..m] + s[m..e] + s[e..] && s[m..][..e - m] == s[m..e] && s[m..][e - m..] == s[e..]
  {
  }

  /** The halves of a pair of runs are ordered, and merging them gives one run. */
  lemma PairOfRuns<T>(less: (T, T) -> bool, s: seq<T>)
    requires |s| > 0 && RunEnd(less, s) < |s| && StrictWeak(less, s)
    ensures var m := RunEnd(less, s);
            var e := m + RunEnd(less, s[m..]);
            && Ordered(less, s[..m]) && Ordered(less, s[m..e]) && Ordered(less, Merge(less, s[..m], s[m..e]))
            && s == s[..m] + s[m..e] + s[e..]
  {
    var m := RunEnd(less, s);
    var e := m + RunEnd(less, s[m..]);
    RunIsMaximal(less, s);
    RunIsMaximal(less, s[m..]);
    hide RunEnd, Merge, Ordered;
    ThreeParts(s, m, e);
    forall x, y | x in s[..m] && y in s[m..e] && less(y, x)
      ensures !less(x, y)
    {
      assert x in s && y in s;
    }
    MergeOrdered(less, s[..m], s[m..e]);
  }

  lemma PassOfPair<T>(less: (T, T) -> bool, s: seq<T>, m: nat, e: nat)
    requires |s| > 0 && m == RunEnd(less, s) && m < |s| && e == m + RunEnd(less, s[m..])
    ensures Pass(less, s) == Merge(less, s[..m], s[m..e]) + Pass(less, s[e..])
    ensures Output(less, s) == 1 + Output(less, s[e..])
  {
    hide RunEnd, Merge;
  }

  /** A pass leaves at most half of the runs, rounded up. */
  lemma {:induction false} PassHalves<T>(less: (T, T) -> bool, s: seq<T>)
    requires StrictWeak(less, s)
    ensures Runs(less, Pass(less, s)) <= Output(less, s)
    decreases |s|
  {
    if |s| > 0 {
      var m := RunEnd(less, s);
      if m < |s| {
        hide RunEnd, Merge, Pass, Output, Runs, Ordered;
        var e := m + RunEnd(less, s[m..]);
        PassOfPair(less, s, m, e);
        PairOfRuns(less, s);
        WeakOnPart(less, s, s[e..]);
        PassHalves(less, s[e..]);
        RunsOfJoined(less, Merge(less, s[..m], s[m..e]), Pass(less, s[e..]));
      } else {
        RunIsMaximal(less, s);
        hide RunEnd;
        assert s[..m] == s;
        OneRun(less, s);
      }
    }
  }

  /** A pass rearranges the elements. */
  lemma {:induction false} PassElements<T>(less: (T, T) -> bool, s: seq<T>)
    ensures multiset(Pass(less, s)) == multiset(s)
    decreases |s|
  {
    if |s| > 0 {
      var m := RunEnd(less, s);
      if m < |s| {
        var e := m + RunEnd(less, s[m..]);
        MergeElements(less, s[..m], s[m..e]);
        PassElements(less, s[e..]);
        hide RunEnd, Merge;
        ThreeParts(s, m, e);
      }
    }
  }

  /** Equivalent elements keep their order in a pass. */
  lemma {:induction false} PassStable<T>(less: (T, T) -> bool, s: seq<T>, e: T)
    requires StrictWeak(less, s + [e])
    ensures Class(less, Pass(less, s), e) == Class(less, s, e)
    decreases |s|
  {
    if |s| > 0 {
      WeakOnPart(less, s + [e], s);
      var m := RunEnd(less, s);
      if m < |s| {
        var l := m + RunEnd(less, s[m..]);
        PairOfRuns(less, s);
        var a, b, c := s[..m], s[m..l], s[l..];
        WeakOnPart(less, s + [e], c + [e]);
        WeakOnPart(less, s + [e], a + b + [e]);
        PassStable(less, c, e);
        MergeStable(less, a, b, e);
        ClassOfJoined(less, Merge(less, a, b), Pass(less, c), e);
        ClassOfJoined(less, a, b, e);
        ClassOfJoined(less, a + b, c, e);
      }
    }
  }

  // ---------- the number of passes ----------

  /** Runs left after `p` passes at the latest. */
  function Halved(r: nat, p: nat): nat {
    if p == 0 then r else (Halved(r, p - 1) + 1) / 2
  }

  function Pow2(k: nat): nat {
    if k == 0 then 1 else 2 * Pow2(k - 1)
  }

  lemma {:induction false} HalvedPow2(r: nat, k: nat, j: nat)
    requires r <= Pow2(k) && j <= k
    ensures Halved(r, j) <= Pow2(k - j)
  {
    if j > 0 {
      HalvedPow2(r, k, j - 1);
    }
  }

  lemma {:induction false} HalvedStays(r: nat, a: nat, b: nat)
    requires Halved(r, a) <= 1 && a <= b
    ensures Halved(r, b) <= 1
  {
    if a < b {
      HalvedStays(r, a, b - 1);
    }
  }

  /** If more than `p` passes find more than one run to put out, there were more than 2^p runs. */
  lemma PassBound(r: nat, p: nat, k: nat)
    requires Halved(r, p) > 1 && r <= Pow2(k)
    ensures p < k
  {
    if k <= p {
      HalvedPow2(r, k, k);
      HalvedStays(r, k, p);
    }
  }

  // ---------- whole sorts ----------

  /** `t` is `s` in order, with equivalent elements as they were. */
  ghost predicate StablySorted<T>(less: (T, T) -> bool, s: seq<T>, t: seq<T>) {
    Ordered(less, t) && Rearranged(less, s, t)
  }

  ghost predicate Rearranged<T>(less: (T, T) -> bool, s: seq<T>, t: seq<T>) {
    multiset(t) == multiset(s) && forall e {:trigger Class(less, t, e)} | e in s :: Class(less, t, e) == Class(less, s, e)
  }

  /** One pass more. */
  lemma PassRearranges<T>(less: (T, T) -> bool, s: seq<T>, t: seq<T>)
    requires StrictWeak(less, s) && Rearranged(less, s, t)
    ensures Rearranged(less, s, Pass(less, t)) && StrictWeak(less, t)
  {
    Members(s, t);
    WeakOnPart(less, s, t);
    PassElements(less, t);
    hide Pass;
    forall e {:trigger Class(less, Pass(less, t), e)} | e in s
      ensures Class(less, Pass(less, t), e) == Class(less, s, e)
    {
      assert Class(less, t, e) == Class(less, s, e);
      WeakOnPart(less, s, t + [e]);
      PassStable(less, t, e);
    }
  }

  lemma Members<T>(s: seq<T>, t: seq<T>)
    requires multiset(t) == multiset(s)
    ensures forall x | x in t :: x in s
    ensures |t| == |s|
  {
    forall x | x in t
      ensures x in s
    {
      assert x in multiset(t);
    }
    assert |multiset(t)| == |multiset(s)|;
  }

  /** State of list_sort after some passes, the last of which put out `cnt` runs (2 before the first). */
  ghost predicate Sorting<T>(less: (T, T) -> bool, s: seq<T>, t: seq<T>, passes: nat, cnt: nat) {
    && StrictWeak(less, s) && Rearranged(less, s, t) && Runs(less, t) <= Halved(Runs(less, s), passes)
    && (if passes == 0 then cnt == 2 else Runs(less, t) <= cnt)
    && (passes > 0 && cnt > 1 ==> Halved(Runs(less, s), passes) > 1)
    && (passes > 1 ==> Halved(Runs(less, s), passes - 1) > 1)
  }

  lemma SortingStart<T>(less: (T, T) -> bool, s: seq<T>)
    requires StrictWeak(less, s)
    ensures Sorting(less, s, s, 0, 2)
  {
  }

  lemma SortingOn<T>(less: (T, T) -> bool, s: seq<T>, t: seq<T>, passes: nat, cnt: nat)
    requires Sorting(less, s, t, passes, cnt) && cnt > 1
    ensures Sorting(less, s, Pass(less, t), passes + 1, Output(less, t))
    ensures Output(less, t) > 1 ==> Runs(less, Pass(less, t)) < Runs(less, t)
  {
    hide Runs, Pass, Output, Rearranged, StrictWeak;
    PassRearranges(less, s, t);
    PassHalves(less, t);
    OutputIsHalf(less, t);
  }

  lemma SortingDone<T>(less: (T, T) -> bool, s: seq<T>, t: seq<T>, passes: nat, cnt: nat)
    requires Sorting(less, s, t, passes, cnt) && cnt <= 1
    ensures passes >= 1 && StablySorted(less, s, t)
    ensures forall k: nat :: Runs(less, s) <= Pow2(k) && passes > 1 ==> passes <= k
  {
    hide Runs, Rearranged, StrictWeak, Halved, Pow2, Ordered;
    OneRun(less, t);
    forall k: nat | Runs(less, s) <= Pow2(k) && passes > 1
      ensures passes <= k
    {
      PassBound(Runs(less, s), passes - 1, k);
    }
  }

  // ---------- reversal, duplicates, insertion ----------

  ghost function Reversed<T>(s: seq<T>): (r: seq<T>)
    ensures |r| == |s|
  {
    if |s| == 0 then [] else Reversed(s[1..]) + [s[0]]
  }

  lemma {:induction false} ReversedAt<T>(s: seq<T>, k: nat)
    requires k < |s|
    ensures Reversed(s)[k] == s[|s| - 1 - k]
  {
    if k < |s| - 1 {
      ReversedAt(s[1..], k);
    }
  }

  /** The elements list_unique leaves: of neighbouring equivalent ones, the first. */
  ghost function Kept<T>(less: (T, T) -> bool, s: seq<T>): seq<T>
    decreases |s|
  {
    if |s| <= 1 then s
    else if Equivalent(less, s[0], s[1]) then Kept(less, [s[0]] + s[2..])
    else [s[0]] + Kept(less, s[1..])
  }

  /** The elements it removes, in order. */
  ghost function Dropped<T>(less: (T, T) -> bool, s: seq<T>): seq<T>
    decreases |s|
  {
    if |s| <= 1 then []
    else if Equivalent(less, s[0], s[1]) then [s[1]] + Dropped(less, [s[0]] + s[2..])
    else Dropped(less, s[1..])
  }

  lemma ElementsOfTwo<T>(x: T, y: T, s: seq<T>)
    ensures multiset([x] + s) == multiset{x} + multiset(s)
    ensures multiset([x, y] + s) == multiset([x] + s) + multiset{y}
  {
    assert [x, y] + s == [x] + ([y] + s);
  }

  lemma KeepOrDrop<T>(less: (T, T) -> bool, s: seq<T>)
    requires |s| > 1
    ensures Equivalent(less, s[0], s[1]) ==>
              Kept(less, s) == Kept(less, [s[0]] + s[2..]) && Dropped(less, s) == [s[1]] + Dropped(less, [s[0]] + s[2..])
    ensures !Equivalent(less, s[0], s[1]) ==> Kept(less, s) == [s[0]] + Kept(less, s[1..]) && Dropped(less, s) == Dropped(less, s[1..])
  {
  }

  /** Nothing is lost between the two. */
  lemma {:induction false} KeptAndDropped<T>(less: (T, T) -> bool, s: seq<T>)
    ensures multiset(Kept(less, s)) + multiset(Dropped(less, s)) == multiset(s)
    decreases |s|
  {
    if |s| > 1 {
      hide Kept, Dropped, Equivalent;
      KeepOrDrop(less, s);
      if Equivalent(less, s[0], s[1]) {
        var t := [s[0]] + s[2..];
        KeptAndDropped(less, t);
        OneMoreDropped(Kept(less, t), Dropped(less, t), s);
      } else {
        KeptAndDropped(less, s[1..]);
        OneMoreKept(Kept(less, s[1..]), Dropped(less, s[1..]), s);
      }
    }
  }

  lemma OneMoreDropped<T>(kept: seq<T>, dropped: seq<T>, s: seq<T>)
    requires |s| > 1 && multiset(kept) + multiset(dropped) == multiset([s[0]] + s[2..])
    ensures multiset(kept) + multiset([s[1]] + dropped) == multiset(s)
  {
    assert s == [s[0], s[1]] + s[2..];
    ElementsOfTwo(s[0], s[1], s[2..]);
    ElementsOfTwo(s[1], s[1], dropped);
  }

  lemma OneMoreKept<T>(kept: seq<T>, dropped: seq<T>, s: seq<T>)
    requires |s| > 0 && multiset(kept) + multiset(dropped) == multiset(s[1..])
    ensures multiset([s[0]] + kept) + multiset(dropped) == multiset(s)
  {
    assert s == [s[0]] + s[1..];
    ElementsOfTwo(s[0], s[0], kept);
    ElementsOfTwo(s[0], s[0], s[1..]);
  }

  /** State of list_unique: up to position `k` only kept elements are left, `d` have been removed. */
  ghost predicate Thinning<T>(less: (T, T) -> bool, s: seq<T>, t: seq<T>, k: nat, d: seq<T>) {
    k < |t| && t[..k] + Kept(less, t[k..]) == Kept(less, s) && d + Dropped(less, t[k..]) == Dropped(less, s)
  }

  lemma ThinningStep<T>(less: (T, T) -> bool, s: seq<T>, t: seq<T>, k: nat, d: seq<T>)
    requires Thinning(less, s, t, k, d) && k + 1 < |t|
    ensures if Equivalent(less, t[k], t[k + 1])
            then Thinning(less, s, t[..k + 1] + t[k + 2..], k, d + [t[k + 1]])
            else Thinning(less, s, t, k + 1, d)
  {
    hide Kept, Dropped, Equivalent;
    KeepOrDrop(less, t[k..]);
    if Equivalent(less, t[k], t[k + 1]) {
      var t' := t[..k + 1] + t[k + 2..];
      assert t'[k..] == [t[k]] + t[k..][2..] && t'[..k] == t[..k];
    } else {
      assert t[k..][1..] == t[k + 1..];
      assert t[..k + 1] == t[..k] + [t[k]];
    }
  }

  lemma ThinningStart<T>(less: (T, T) -> bool, s: seq<T>)
    ensures |s| > 0 ==> Thinning(less, s, s, 0, [])
    ensures |s| == 0 ==> Kept(less, s) == s && Dropped(less, s) == []
  {
    if |s| > 0 {
      hide Kept, Dropped;
      assert s[0..] == s && s[..0] == [];
    }
  }

  lemma ThinningDone<T>(less: (T, T) -> bool, s: seq<T>, t: seq<T>, d: seq<T>)
    requires |t| > 0 && Thinning(less, s, t, |t| - 1, d)
    ensures t == Kept(less, s) && d == Dropped(less, s)
  {
    var last := t[|t| - 1..];
    assert Kept(less, last) == last && Dropped(less, last) == [];
    hide Kept, Dropped;
    assert t[..|t| - 1] + last == t;
  }

  /** The elements of `s` that are equivalent to the element right before them (`same`), or those that are not; `prev`
      is right before the first. */
  ghost function Followers<T>(less: (T, T) -> bool, prev: T, s: seq<T>, same: bool): seq<T> {
    if |s| == 0 then []
    else (if (!less(prev, s[0]) && !less(s[0], prev)) == same then [s[0]] else []) + Followers(less, s[0], s[1..], same)
  }

  lemma SamePrev<T>(less: (T, T) -> bool, x: T, y: T, s: seq<T>, same: bool)
    requires StrictWeak(less, [x, y] + s) && Equivalent(less, x, y)
    ensures Followers(less, x, s, same) == Followers(less, y, s, same)
  {
    if |s| > 0 {
      var all := [x, y] + s;
      assert all[0] == x && all[1] == y && all[2] == s[0];
      assert x in all && y in all && s[0] in all;
      assert Equivalent(less, x, s[0]) <==> Equivalent(less, y, s[0]);
    }
  }

  lemma FollowersOfCons<T>(less: (T, T) -> bool, prev: T, x: T, s: seq<T>, same: bool)
    ensures Followers(less, prev, [x] + s, same) == (if Equivalent(less, prev, x) == same then [x] else []) + Followers(less, x, s, same)
  {
    assert ([x] + s)[1..] == s;
  }

  /** The first two elements are equivalent: the second goes. */
  lemma SecondGoes<T>(less: (T, T) -> bool, x: T, y: T, s: seq<T>)
    requires StrictWeak(less, [x, y] + s) && Equivalent(less, x, y)
    ensures Followers(less, x, [y] + s, false) == Followers(less, x, s, false)
    ensures Followers(less, x, [y] + s, true) == [y] + Followers(less, x, s, true)
  {
    FollowersOfCons(less, x, y, s, false);
    FollowersOfCons(less, x, y, s, true);
    SamePrev(less, x, y, s, false);
    SamePrev(less, x, y, s, true);
  }

  lemma SecondStays<T>(less: (T, T) -> bool, x: T, y: T, s: seq<T>)
    requires !Equivalent(less, x, y)
    ensures Followers(less, x, [y] + s, false) == [y] + Followers(less, y, s, false)
    ensures Followers(less, x, [y] + s, true) == Followers(less, y, s, true)
  {
    FollowersOfCons(less, x, y, s, false);
    FollowersOfCons(less, x, y, s, true);
  }

  lemma FirstTwo<T>(s: seq<T>)
    requires |s| > 1
    ensures s == [s[0], s[1]] + s[2..] && s[1..] == [s[1]] + s[2..] && ([s[0]] + s[2..])[1..] == s[2..] && s[1..][1..] == s[2..]
  {
  }

  /** What list_unique does, element by element: an element stays exactly if it is the first or not equivalent to the
      one before it, and those that go and those that stay keep their order. */
  lemma {:induction false} KeptAreFirsts<T>(less: (T, T) -> bool, s: seq<T>)
    requires StrictWeak(less, s) && |s| > 0
    ensures Kept(less, s) == [s[0]] + Followers(less, s[0], s[1..], false)
    ensures Dropped(less, s) == Followers(less, s[0], s[1..], true)
    decreases |s|
  {
    if |s| == 1 {
      assert s[1..] == [];
    } else {
      hide StrictWeak, Kept, Dropped, Followers, Equivalent;
      KeepOrDrop(less, s);
      FirstTwo(s);
      if Equivalent(less, s[0], s[1]) {
        WeakOnPart(less, s, [s[0]] + s[2..]);
        KeptAreFirsts(less, [s[0]] + s[2..]);
        SecondGoes(less, s[0], s[1], s[2..]);
      } else {
        WeakOnPart(less, s, s[1..]);
        KeptAreFirsts(less, s[1..]);
        SecondStays(less, s[0], s[1], s[2..]);
      }
    }
  }

  /** On an ordered list, what is left increases strictly and starts as the list did. */
  lemma {:induction false} KeptIncreases<T>(less: (T, T) -> bool, s: seq<T>)
    requires StrictWeak(less, s) && Ordered(less, s)
    ensures |Kept(less, s)| > 0 <==> |s| > 0
    ensures |s| > 0 ==> Kept(less, s)[0] == s[0]
    ensures Increasing(less, Kept(less, s))
    decreases |s|
  {
    if |s| > 1 {
      hide Kept, StrictWeak, Ordered;
      KeepOrDrop(less, s);
      if Equivalent(less, s[0], s[1]) {
        var t := [s[0]] + s[2..];
        WeakOnPart(less, s, t);
        SkipOne(less, s);
        KeptIncreases(less, t);
      } else {
        WeakOnPart(less, s, s[1..]);
        OrderedTail(less, s);
        NextIsGreater(less, s);
        KeptIncreases(less, s[1..]);
        IncreasingCons(less, s[0], Kept(less, s[1..]));
      }
    }
  }

  ghost predicate Increasing<T>(less: (T, T) -> bool, s: seq<T>) {
    forall i {:trigger s[i]} | 1 <= i < |s| :: less(s[i - 1], s[i])
  }

  lemma IncreasingCons<T>(less: (T, T) -> bool, x: T, s: seq<T>)
    requires Increasing(less, s) && (|s| > 0 ==> less(x, s[0]))
    ensures Increasing(less, [x] + s)
  {
    forall i {:trigger ([x] + s)[i]} | 1 <= i < 1 + |s|
      ensures less(([x] + s)[i - 1], ([x] + s)[i])
    {
      assert i > 1 ==> less(s[i - 2], s[i - 1]);
    }
  }

  lemma SkipOne<T>(less: (T, T) -> bool, s: seq<T>)
    requires |s| > 1 && StrictWeak(less, s) && Ordered(less, s)
    ensures Ordered(less, [s[0]] + s[2..])
  {
    hide StrictWeak;
    var t := [s[0]] + s[2..];
    forall i {:trigger t[i]} | 1 <= i < |t|
      ensures !less(t[i], t[i - 1])
    {
      OrderedPairs(less, s, if i == 1 then 0 else i, i + 1);
    }
  }

  lemma NextIsGreater<T>(less: (T, T) -> bool, s: seq<T>)
    requires |s| > 1 && Ordered(less, s) && !Equivalent(less, s[0], s[1])
    ensures less(s[0], s[1])
  {
    assert !less(s[1], s[0]);
  }

  /** Every element has an equivalent one among those left. */
  lemma {:induction false} KeptRepresents<T>(less: (T, T) -> bool, s: seq<T>, x: T)
    requires StrictWeak(less, s) && x in s
    ensures exists y :: y in Kept(less, s) && Equivalent(less, x, y)
    decreases |s|
  {
    if |s| == 1 {
      assert Equivalent(less, x, s[0]);
    } else if Equivalent(less, s[0], s[1]) {
      var t := [s[0]] + s[2..];
      WeakOnPart(less, s, t);
      if x in t {
        KeptRepresents(less, t, x);
      } else {
        assert x == s[1];
        KeptRepresents(less, t, s[0]);
        var y :| y in Kept(less, t) && Equivalent(less, s[0], y);
        KeptAndDropped(less, t);
        assert y in multiset(Kept(less, t));
        assert y in multiset(t);
        assert y in s && s[0] in s && s[1] in s;
        assert Equivalent(less, x, y);
      }
    } else {
      WeakOnPart(less, s, s[1..]);
      if x in s[1..] {
        KeptRepresents(less, s[1..], x);
        var y :| y in Kept(less, s[1..]) && Equivalent(less, x, y);
        assert y in Kept(less, s);
      } else {
        assert x == s[0];
        assert x in s;
        assert s[0] in Kept(less, s) && Equivalent(less, x, s[0]);
      }
    }
  }

  /** An element put before the first one it is less than keeps the order. */
  lemma InsertedOrdered<T>(less: (T, T) -> bool, s: seq<T>, x: T, k: nat)
    requires StrictWeak(less, s + [x]) && Ordered(less, s) && k <= |s|
    requires (k > 0 ==> !less(x, s[k - 1])) && (k < |s| ==> less(x, s[k]))
    ensures Ordered(less, s[..k] + [x] + s[k..])
  {
    var r := s[..k] + [x] + s[k..];
    var all := s + [x];
    assert x in all && (k < |s| ==> s[k] in all);
    forall i {:trigger r[i]} | 1 <= i < |r|
      ensures !less(r[i], r[i - 1])
    {
      if i < k {
        assert !less(s[i], s[i - 1]);
      } else if i > k + 1 {
        assert !less(s[i - 1], s[i - 2]);
      }
    }
  }
}
