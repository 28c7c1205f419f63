/** The write-back buffer cache with second-chance eviction (a3/fs/cache.c). */
module BufferCache {
  import opened Sectors

  const CACHE_SIZE: nat := 64

  /** One slot of the cache; `access` is the reference bit of the clock algorithm. */
  datatype Entry = Entry(occupied: bool, sector: nat, buffer: Sector, dirty: bool, access: bool)

  // ---------- the clock ----------

  /** How many places slot `i` is after the hand. */
  function Turn(hand: nat, i: nat): nat
    requires hand < CACHE_SIZE && i < CACHE_SIZE
  {
    if hand <= i then i - hand else i + CACHE_SIZE - hand
  }

  predicate SecondChance(e: Entry) {
    e.occupied && e.access
  }

  /** The hand passes `t` slots that deserve a second chance and stops at slot `i`: the first that
      does not, or after a full round the slot it started from. */
  ghost predicate StopsAt(slots: seq<Entry>, hand: nat, t: nat, i: nat)
    requires |slots| == CACHE_SIZE && hand < CACHE_SIZE
  {
    && i < CACHE_SIZE
    && (forall j | 0 <= j < CACHE_SIZE && Turn(hand, j) < t :: SecondChance(slots[j]))
    && (if t == CACHE_SIZE then i == hand else t == Turn(hand, i) && !SecondChance(slots[i]))
  }

  /** The slots after the hand has passed `t` of them. */
  ghost function Passed(slots: seq<Entry>, hand: nat, t: nat): (r: seq<Entry>)
    requires |slots| == CACHE_SIZE && hand < CACHE_SIZE
    ensures |r| == CACHE_SIZE
    ensures forall i | 0 <= i < CACHE_SIZE ::
              r[i] == (if Turn(hand, i) < t then slots[i].(access := false) else slots[i])
  {
    seq(CACHE_SIZE, i requires 0 <= i < CACHE_SIZE =>
          if Turn(hand, i) < t then slots[i].(access := false) else slots[i])
  }

  /** The hand, having passed `t` slots that deserved a second chance, is at slot `clock`. */
  ghost predicate Passing(slots0: seq<Entry>, hand: nat, t: nat, clock: nat, slots: seq<Entry>) {
    && |slots0| == CACHE_SIZE && hand < CACHE_SIZE && clock < CACHE_SIZE && t <= CACHE_SIZE
    && (if t == CACHE_SIZE then clock == hand else Turn(hand, clock) == t)
    && slots == Passed(slots0, hand, t)
    && forall j | 0 <= j < CACHE_SIZE && Turn(hand, j) < t :: SecondChance(slots0[j])
  }

  lemma PassingInit(slots: seq<Entry>, hand: nat)
    requires |slots| == CACHE_SIZE && hand < CACHE_SIZE
    ensures Passing(slots, hand, 0, hand, slots)
  {
    assert slots == Passed(slots, hand, 0);
  }

  lemma PassingStep(slots0: seq<Entry>, hand: nat, t: nat, clock: nat, slots: seq<Entry>)
    requires Passing(slots0, hand, t, clock, slots) && SecondChance(slots[clock])
    ensures t < CACHE_SIZE
    ensures Passing(slots0, hand, t + 1, (clock + 1) % CACHE_SIZE, slots[clock := slots[clock].(access := false)])
  {
    assert Passed(slots0, hand, t + 1) == slots[clock := slots[clock].(access := false)];
  }

  lemma PassingStop(slots0: seq<Entry>, hand: nat, t: nat, clock: nat, slots: seq<Entry>)
    requires Passing(slots0, hand, t, clock, slots) && !SecondChance(slots[clock])
    ensures |slots0| == CACHE_SIZE && hand < CACHE_SIZE && t <= CACHE_SIZE
    ensures StopsAt(slots0, hand, t, clock) && slots == Passed(slots0, hand, t) && clock == (hand + t) % 64
  {
  }

  /** A slot once it has been given up; its buffer has reached the device. */
  function Dropped(e: Entry): Entry {
    if e.occupied then e.(occupied := false, dirty := false) else e
  }

  /** The stopping place is determined by the slots: eviction is a function of the cache's state. */
  lemma StopsAtUnique(slots: seq<Entry>, hand: nat, t: nat, i: nat, t': nat, i': nat)
    requires |slots| == CACHE_SIZE && hand < CACHE_SIZE
    requires t <= CACHE_SIZE && StopsAt(slots, hand, t, i)
    requires t' <= CACHE_SIZE && StopsAt(slots, hand, t', i')
    ensures t == t' && i == i'
  {
  }

  // ---------- the logical disk ----------

  ghost predicate Cached(slots: seq<Entry>, s: nat) {
    exists i :: 0 <= i < |slots| && slots[i].occupied && slots[i].sector == s
  }

  /** The cache agrees with `disk`: no sector is cached twice, an occupied slot holds the logical
      contents of its sector, a clean one also the device's, and elsewhere the device is up to date. */
  ghost predicate Coherent(slots: seq<Entry>, device: seq<Sector>, disk: seq<Sector>) {
    && |slots| == CACHE_SIZE && |disk| == |device|
    && (forall i, j | 0 <= i < j < CACHE_SIZE && slots[i].occupied && slots[j].occupied :: slots[i].sector != slots[j].sector)
    && (forall i | 0 <= i < CACHE_SIZE && slots[i].occupied ::
          && slots[i].sector < |disk|
          && disk[slots[i].sector] == slots[i].buffer
          && (!slots[i].dirty ==> device[slots[i].sector] == slots[i].buffer))
    && (forall s | 0 <= s < |disk| && !Cached(slots, s) :: disk[s] == device[s])
  }

  /** Two arrays of slots that cache the same sectors. */
  lemma SameCached(slots: seq<Entry>, slots': seq<Entry>)
    requires |slots| == |slots'|
    requires forall i | 0 <= i < |slots| :: slots'[i].occupied == slots[i].occupied && slots'[i].sector == slots[i].sector
    ensures forall s :: Cached(slots', s) <==> Cached(slots, s)
  {
    forall s | Cached(slots, s)
      ensures Cached(slots', s)
    {
      var i :| 0 <= i < |slots| && slots[i].occupied && slots[i].sector == s;
      assert slots'[i].occupied;
    }
    forall s | Cached(slots', s)
      ensures Cached(slots, s)
    {
      var i :| 0 <= i < |slots| && slots'[i].occupied && slots'[i].sector == s;
      assert slots[i].occupied;
    }
  }

  lemma PassedCoherent(slots: seq<Entry>, device: seq<Sector>, disk: seq<Sector>, hand: nat, t: nat)
    requires Coherent(slots, device, disk) && hand < CACHE_SIZE
    ensures Coherent(Passed(slots, hand, t), device, disk)
  {
    SameCached(slots, Passed(slots, hand, t));
  }

  lemma FlushedCoherent(slots: seq<Entry>, device: seq<Sector>, disk: seq<Sector>, i: nat)
    requires Coherent(slots, device, disk) && i < CACHE_SIZE && slots[i].occupied
    ensures Coherent(slots[i := slots[i].(dirty := false)], device[slots[i].sector := slots[i].buffer], disk)
  {
    SameCached(slots, slots[i := slots[i].(dirty := false)]);
    assert Cached(slots, slots[i].sector);
  }

  lemma DroppedCoherent(slots: seq<Entry>, device: seq<Sector>, disk: seq<Sector>, i: nat)
    requires Coherent(slots, device, disk) && i < CACHE_SIZE && slots[i].occupied && !slots[i].dirty
    ensures Coherent(slots[i := slots[i].(occupied := false)], device, disk)
  {
    var slots' := slots[i := slots[i].(occupied := false)];
    forall s | 0 <= s < |disk| && !Cached(slots', s)
      ensures disk[s] == device[s]
    {
      if Cached(slots, s) {
        var j :| 0 <= j < |slots| && slots[j].occupied && slots[j].sector == s;
        assert slots'[j] == slots[j] || j == i;
      }
    }
  }

  /** A sector not in the cache enters through an empty slot. */
  lemma LoadedCoherent(slots: seq<Entry>, device: seq<Sector>, disk: seq<Sector>, i: nat, sector: nat, access: bool)
    requires Coherent(slots, device, disk) && i < CACHE_SIZE && !slots[i].occupied
    requires sector < |disk| && !Cached(slots, sector)
    ensures Coherent(slots[i := Entry(true, sector, device[sector], false, access)], device, disk)
  {
    var slots' := slots[i := Entry(true, sector, device[sector], false, access)];
    forall j | 0 <= j < CACHE_SIZE && slots[j].occupied
      ensures slots[j].sector != sector
    {
    }
    forall s | 0 <= s < |disk| && Cached(slots, s)
      ensures Cached(slots', s)
    {
      var j :| 0 <= j < |slots| && slots[j].occupied && slots[j].sector == s;
      assert slots'[j] == slots[j];
    }
    assert slots'[i].sector == sector;
    assert Cached(slots', sector);
  }

  /** Overwriting a cached buffer changes one logical sector. */
  lemma StoredCoherent(slots: seq<Entry>, device: seq<Sector>, disk: seq<Sector>, i: nat, data: Sector)
    requires Coherent(slots, device, disk) && i < CACHE_SIZE && slots[i].occupied
    ensures Coherent(slots[i := slots[i].(buffer := data, dirty := true, access := true)], device, disk[slots[i].sector := data])
  {
    SameCached(slots, slots[i := slots[i].(buffer := data, dirty := true, access := true)]);
    assert Cached(slots, slots[i].sector);
  }

  lemma TouchedCoherent(slots: seq<Entry>, device: seq<Sector>, disk: seq<Sector>, i: nat)
    requires Coherent(slots, device, disk) && i < CACHE_SIZE
    ensures Coherent(slots[i := slots[i].(access := true)], device, disk)
  {
    SameCached(slots, slots[i := slots[i].(access := true)]);
  }

  /** Once every slot is clean the device is the logical disk. */
  lemma AllCleanSynced(slots: seq<Entry>, device: seq<Sector>, disk: seq<Sector>)
    requires Coherent(slots, device, disk)
    requires forall i | 0 <= i < CACHE_SIZE && slots[i].occupied :: !slots[i].dirty
    ensures device == disk
  {
    forall s | 0 <= s < |disk|
      ensures device[s] == disk[s]
    {
      if Cached(slots, s) {
        var i :| 0 <= i < |slots| && slots[i].occupied && slots[i].sector == s;
        assert device[slots[i].sector] == slots[i].buffer;
      }
    }
  }

  /** Passing and dropping slots brings no sector into the cache. */
  lemma NotCachedAfter(slots: seq<Entry>, slots': seq<Entry>, s: nat)
    requires |slots| == |slots'| && !Cached(slots, s)
    requires forall i | 0 <= i < |slots| && slots'[i].occupied :: slots[i].occupied && slots'[i].sector == slots[i].sector
    ensures !Cached(slots', s)
  {
  }

  // ---------- using a sector ----------

  /** `sector` has been used through slot `i` and its reference bit is set. If it was cached, it was cached there, and
      no other slot has changed, nor has the hand moved. If not, the hand has passed `t` slots, which lose their
      reference bits, and has been left at slot `i`. */
  ghost predicate UsedIn(slots0: seq<Entry>, hand0: nat, slots: seq<Entry>, hand: nat, sector: nat, i: nat, t: nat) {
    && |slots0| == |slots| == CACHE_SIZE && hand0 < CACHE_SIZE && i < CACHE_SIZE && t <= CACHE_SIZE
    && slots[i].occupied && slots[i].sector == sector && slots[i].access
    && if Cached(slots0, sector) then
         && slots0[i].occupied && slots0[i].sector == sector && hand == hand0
         && forall j | 0 <= j < CACHE_SIZE && j != i :: slots[j] == slots0[j]
       else
         && StopsAt(slots0, hand0, t, i) && hand == i
         && forall j | 0 <= j < CACHE_SIZE && j != i :: slots[j] == Passed(slots0, hand0, t)[j]
  }

  ghost predicate JustUsed(slots0: seq<Entry>, hand0: nat, slots: seq<Entry>, hand: nat, sector: nat) {
    exists i: nat, t: nat :: UsedIn(slots0, hand0, slots, hand, sector, i, t)
  }

  /** A used sector is cached, with its reference bit set, and it is the only one that entered the cache. */
  lemma UsedIsCached(slots0: seq<Entry>, hand0: nat, slots: seq<Entry>, hand: nat, sector: nat)
    requires JustUsed(slots0, hand0, slots, hand, sector)
    ensures exists i: nat :: i < |slots| == 64 && slots[i].occupied && slots[i].sector == sector && slots[i].access
    ensures forall s | Cached(slots, s) :: s == sector || Cached(slots0, s)
  {
    var i: nat, t: nat :| UsedIn(slots0, hand0, slots, hand, sector, i, t);
    assert slots[i].access;
    forall s | Cached(slots, s) && s != sector
      ensures Cached(slots0, s)
    {
      var j :| 0 <= j < |slots| && slots[j].occupied && slots[j].sector == s;
      assert slots0[j].occupied && slots0[j].sector == s;
    }
  }

  /** A slot that deserves a second chance is given up only if all do: the hand has then gone all the way round, and
      the slot is the one it started from, which was filled last. */
  lemma FullRound(slots: seq<Entry>, hand: nat, t: nat, i: nat)
    requires |slots| == CACHE_SIZE && hand < CACHE_SIZE && t <= CACHE_SIZE && StopsAt(slots, hand, t, i)
    ensures SecondChance(slots[i]) <==> forall j | 0 <= j < CACHE_SIZE :: SecondChance(slots[j])
    ensures SecondChance(slots[i]) ==> t == 64 && i == hand
  {
    if t == CACHE_SIZE {
      forall j | 0 <= j < CACHE_SIZE
        ensures SecondChance(slots[j])
      {
        assert Turn(hand, j) < t;
      }
    }
  }

  /** A cache that is filling up: the sectors used so far are in the first slots, in the order they came, the hand is
      on the last of them, and it keeps its reference bit. */
  ghost predicate Filling(slots: seq<Entry>, hand: nat, used: seq<nat>) {
    && |slots| == CACHE_SIZE && |used| <= CACHE_SIZE
    && (forall j | 0 <= j < |used| :: slots[j].occupied && slots[j].sector == used[j])
    && (forall j | |used| <= j < CACHE_SIZE :: !slots[j].occupied)
    && (forall j, k | 0 <= j < k < |used| :: used[j] != used[k])
    && (if |used| == 0 then hand == 0 else hand == |used| - 1 && slots[hand].access)
  }

  lemma FillingCached(slots: seq<Entry>, hand: nat, used: seq<nat>, s: nat)
    requires Filling(slots, hand, used)
    ensures Cached(slots, s) <==> s in used
  {
    if s in used {
      var j :| 0 <= j < |used| && used[j] == s;
      assert slots[j].occupied && slots[j].sector == s;
    }
  }

  /** While a slot is empty, a sector that is not cached goes to the next one. */
  lemma FillingStep(slots0: seq<Entry>, hand0: nat, slots: seq<Entry>, hand: nat, sector: nat, used: seq<nat>)
    requires Filling(slots0, hand0, used) && JustUsed(slots0, hand0, slots, hand, sector)
    requires sector in used || |used| < CACHE_SIZE
    ensures Filling(slots, hand, if sector in used then used else used + [sector])
  {
    var i: nat, t: nat :| UsedIn(slots0, hand0, slots, hand, sector, i, t);
    FillingCached(slots0, hand0, used, sector);
    if sector !in used && |used| > 0 {
      assert SecondChance(slots0[hand0]) && !SecondChance(slots0[|used|]);
      assert Turn(hand0, |used|) == 1 && Turn(hand0, hand0) == 0;
      assert t == 1 && i == |used|;
    }
  }

  /** The slots and the hand of a cache. */
  datatype Dial = Dial(slots: seq<Entry>, hand: nat)

  /** One sector after the other has been used. */
  ghost predicate UseRun(dials: seq<Dial>, sectors: seq<nat>) {
    && |dials| == |sectors| + 1
    && forall k {:trigger sectors[k]} | 0 <= k < |sectors| ::
        JustUsed(dials[k].slots, dials[k].hand, dials[k + 1].slots, dials[k + 1].hand, sectors[k])
  }

  lemma {:induction false} DistinctWithin(used: seq<nat>, pool: set<nat>)
    requires (forall j, k | 0 <= j < k < |used| :: used[j] != used[k]) && forall j | 0 <= j < |used| :: used[j] in pool
    ensures |used| <= |pool|
  {
    if |used| > 0 {
      DistinctWithin(used[..|used| - 1], pool - {used[|used| - 1]});
    }
  }

  /** What a run uses fills the cache from slot 0 on, each sector once. */
  lemma {:induction false} RunFilling(dials: seq<Dial>, sectors: seq<nat>, k: nat, pool: set<nat>) returns (used: seq<nat>)
    requires UseRun(dials, sectors) && k <= |sectors| && Filling(dials[0].slots, dials[0].hand, [])
    requires |pool| <= 64 && forall j | 0 <= j < |sectors| :: sectors[j] in pool
    ensures Filling(dials[k].slots, dials[k].hand, used)
    ensures (forall j | 0 <= j < k :: sectors[j] in used) && forall j | 0 <= j < |used| :: used[j] in pool
  {
    hide JustUsed, Filling;
    if k == 0 {
      used := [];
    } else {
      var before := RunFilling(dials, sectors, k - 1, pool);
      var last := sectors[k - 1];
      if last in before {
        used := before;
      } else {
        used := before + [last];
        UsedDistinct(dials[k - 1].slots, dials[k - 1].hand, before);
        DistinctWithin(used, pool);
      }
      FillingStep(dials[k - 1].slots, dials[k - 1].hand, dials[k].slots, dials[k].hand, last, before);
    }
  }

  lemma UsedDistinct(slots: seq<Entry>, hand: nat, used: seq<nat>)
    requires Filling(slots, hand, used)
    ensures forall j, k | 0 <= j < k < |used| :: used[j] != used[k]
  {
  }

  /** Using at most 64 different sectors, in any order and any number of times, on an empty cache: all stay cached. */
  lemma AllStay(dials: seq<Dial>, sectors: seq<nat>, pool: set<nat>)
    requires UseRun(dials, sectors) && |pool| <= 64 && forall k | 0 <= k < |sectors| :: sectors[k] in pool
    requires dials[0].hand == 0 && |dials[0].slots| == 64 && forall j | 0 <= j < 64 :: !dials[0].slots[j].occupied
    ensures forall k | 0 <= k < |sectors| :: Cached(dials[|sectors|].slots, sectors[k])
  {
    var used := RunFilling(dials, sectors, |sectors|, pool);
    forall k | 0 <= k < |sectors|
      ensures Cached(dials[|sectors|].slots, sectors[k])
    {
      FillingCached(dials[|sectors|].slots, dials[|sectors|].hand, used, sectors[k]);
    }
  }

  class Cache {
    const device: array<Sector>
    const slots: array<Entry>
    var clock: nat
    /** The disk as the layers above see it: a cached buffer where there is one, else the device. */
    ghost var disk: seq<Sector>

    ghost function Repr(): set<object> {
      {this, device, slots}
    }

    ghost predicate Valid()
      reads Repr()
    {
      slots.Length == CACHE_SIZE && clock < CACHE_SIZE && Coherent(slots[..], device[..], disk)
    }

    /** buffer_cache_init over a given device. */
    constructor (device: array<Sector>)
      ensures Valid() && this.device == device && fresh(slots)
      ensures disk == device[..]
      ensures clock == 0 && slots.Length == 64 && forall i | 0 <= i < 64 :: !slots[i].occupied && !slots[i].dirty
    {
      this.device := device;
      slots := new Entry[CACHE_SIZE](_ => Entry(false, 0, ZeroSector(), false, false));
      clock := 0;
      disk := device[..];
    }

    /** buffer_cache_flush. */
    method Flush(i: nat)
      requires Valid() && i < slots.Length && slots[i].occupied
      modifies device, slots
      ensures Valid()
      ensures slots[..] == old(slots[..])[i := old(slots[i]).(dirty := false)]
      ensures device[..] == old(device[..])[old(slots[i]).sector := old(slots[i]).buffer]
    {
      FlushedCoherent(slots[..], device[..], disk, i);
      if slots[i].dirty {
        device[slots[i].sector] := slots[i].buffer;
        slots[i] := slots[i].(dirty := false);
      }
      assert slots[..] == old(slots[..])[i := old(slots[i]).(dirty := false)];
      assert device[..] == old(device[..])[old(slots[i]).sector := old(slots[i]).buffer];
    }

    /** buffer_cache_lookup: the slot holding `sector`, if any. */
    method Lookup(sector: nat) returns (i: int)
      requires Valid()
      ensures i == -1 <==> !Cached(slots[..], sector)
      ensures i != -1 ==> 0 <= i < CACHE_SIZE && slots[i].occupied && slots[i].sector == sector
    {
      i := 0;
      while i < CACHE_SIZE
        invariant 0 <= i <= CACHE_SIZE
        invariant forall j | 0 <= j < i :: !(slots[j].occupied && slots[j].sector == sector)
      {
        if slots[i].occupied && slots[i].sector == sector {
          assert slots[..][i].occupied;
          return;
        }
        i := i + 1;
      }
      i := -1;
    }

    /** The loop of buffer_cache_evict: the hand passes `t` slots, clearing their reference bits. */
    method AdvanceHand() returns (ghost t: nat)
      requires Valid()
      modifies this`clock, slots
      ensures Valid()
      ensures t <= CACHE_SIZE && StopsAt(old(slots[..]), old(clock), t, clock) && clock == (old(clock) + t) % 64
      ensures slots[..] == Passed(old(slots[..]), old(clock), t)
      ensures !(slots[clock].occupied && slots[clock].access)
    {
      hide Passing, StopsAt, Passed, Coherent;
      ghost var slots0, hand := slots[..], clock;
      t := 0;
      PassingInit(slots0, hand);
      while slots[clock].occupied && slots[clock].access
        invariant clock < CACHE_SIZE && Passing(slots0, hand, t, clock, slots[..])
        decreases CACHE_SIZE - t
      {
        PassingStep(slots0, hand, t, clock, slots[..]);
        ghost var before := slots[..];
        slots[clock] := slots[clock].(access := false);
        assert slots[..] == before[clock := before[clock].(access := false)];
        clock := (clock + 1) % CACHE_SIZE;
        t := t + 1;
      }
      PassingStop(slots0, hand, t, clock, slots[..]);
      PassedCoherent(slots0, device[..], disk, hand, t);
    }

    /** buffer_cache_evict: a dirty victim reaches the device before its slot is freed. */
    method Evict() returns (i: nat, ghost t: nat)
      requires Valid()
      modifies this`clock, device, slots
      ensures Valid()
      ensures t <= CACHE_SIZE && StopsAt(old(slots[..]), old(clock), t, i) && clock == i == (old(clock) + t) % 64
      ensures !slots[i].occupied
      ensures slots[..] == Passed(old(slots[..]), old(clock), t)[i := Dropped(Passed(old(slots[..]), old(clock), t)[i])]
      ensures forall s | 0 <= s < device.Length && !(old(slots[i].occupied) && old(slots[i].sector) == s) :: device[s] == old(device[s])
      ensures old(slots[i].occupied) ==> device[old(slots[i].sector)] == old(slots[i].buffer)
    {
      t := AdvanceHand();
      i := clock;
      ghost var passed := slots[..];
      assert passed[i] == slots[i] && old(slots[..])[i] == old(slots[i]);
      if slots[i].occupied {
        if slots[i].dirty {
          Flush(i);
        }
        DroppedCoherent(slots[..], device[..], disk, i);
        slots[i] := slots[i].(occupied := false);
      }
      assert slots[..] == passed[i := Dropped(passed[i])];
    }

    /** The common part of buffer_cache_read and buffer_cache_write: a slot holding `sector`. */
    method Fetch(sector: nat) returns (i: nat, ghost t: nat)
      requires Valid() && sector < device.Length
      modifies this`clock, device, slots
      ensures Valid()
      ensures i < CACHE_SIZE && t <= CACHE_SIZE && slots[i].occupied && slots[i].sector == sector
      ensures old(Cached(slots[..], sector)) ==>
                clock == old(clock) && slots[..] == old(slots[..]) && device[..] == old(device[..])
      ensures !old(Cached(slots[..], sector)) ==>
                && StopsAt(old(slots[..]), old(clock), t, i) && clock == i == (old(clock) + t) % 64 && !slots[i].dirty
                && forall j | 0 <= j < CACHE_SIZE && j != i :: slots[j] == Passed(old(slots[..]), old(clock), t)[j]
    {
      hide StopsAt;
      var hit := Lookup(sector);
      if hit != -1 {
        i, t := hit, 0;
      } else {
        i, t := Evict();
        ghost var passed := Passed(old(slots[..]), old(clock), t);
        assert slots[..] == passed[i := Dropped(passed[i])];
        assert !Cached(slots[..], sector) by {
          NotCachedAfter(old(slots[..]), slots[..], sector);
        }
        LoadedCoherent(slots[..], device[..], disk, i, sector, slots[i].access);
        slots[i] := Entry(true, sector, device[sector], false, slots[i].access);
      }
    }

    /** buffer_cache_read: delivers the logical sector and changes nothing logically. */
    method Read(sector: nat) returns (data: Sector)
      requires Valid() && sector < device.Length
      modifies this`clock, device, slots
      ensures Valid()
      ensures data == disk[sector]
      ensures old(Cached(slots[..], sector)) ==> device[..] == old(device[..])
      ensures JustUsed(old(slots[..]), old(clock), slots[..], clock, sector)
    {
      hide StopsAt, Passed;
      var i;
      ghost var t;
      i, t := Fetch(sector);
      assert slots[..][i] == slots[i];
      TouchedCoherent(slots[..], device[..], disk, i);
      slots[i] := slots[i].(access := true);
      data := slots[i].buffer;
      assert UsedIn(old(slots[..]), old(clock), slots[..], clock, sector, i, t);
    }

    /** buffer_cache_write: changes exactly one logical sector, whatever is evicted. */
    method Write(sector: nat, data: Sector)
      requires Valid() && sector < device.Length
      modifies Repr()
      ensures Valid()
      ensures disk == old(disk)[sector := data]
      ensures JustUsed(old(slots[..]), old(clock), slots[..], clock, sector)
    {
      hide StopsAt, Passed;
      var i;
      ghost var t;
      i, t := Fetch(sector);
      assert slots[..][i] == slots[i];
      StoredCoherent(slots[..], device[..], disk, i, data);
      slots[i] := slots[i].(buffer := data, dirty := true, access := true);
      disk := disk[sector := data];
      assert UsedIn(old(slots[..]), old(clock), slots[..], clock, sector, i, t);
    }

    /** buffer_cache_close: afterwards the device is the logical disk. */
    method Close()
      requires Valid()
      modifies device, slots
      ensures Valid()
      ensures device[..] == disk
    {
      var i := 0;
      while i < CACHE_SIZE
        invariant i <= CACHE_SIZE && Valid()
        invariant forall j | 0 <= j < i && slots[j].occupied :: !slots[j].dirty
      {
        if slots[i].occupied {
          ghost var before := slots[..];
          Flush(i);
          forall j | 0 <= j < i && slots[j].occupied
            ensures !slots[j].dirty
          {
            assert slots[..][j] == before[j];
          }
          assert !slots[..][i].dirty;
        }
        i := i + 1;
      }
      AllCleanSynced(slots[..], device[..], disk);
    }
  }
}
