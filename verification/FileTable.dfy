/** All files of a volume at once: who owns which sectors, and what each operation does to that. */
module FileTable {
  import opened Sectors
  import opened InodeTree
  import opened InodeMap
  import opened FileBytes
  import opened FreeSpace
  import opened OutOfSpace

  /** A file: its inode's data, the sectors of its tree and its bytes. */
  datatype File = File(d: InodeDisk, nodes: seq<nat>, data: seq<byte>)

  /** The sectors a file owns: its inode's and its tree's. */
  function Own(s: nat, f: File): seq<nat> {
    [s] + f.nodes
  }

  ghost predicate Disjoint(a: seq<nat>, b: seq<nat>) {
    forall x | x in a :: x !in b
  }

  /** The file in sector `s` is on the disk, and its sectors are in use and not the free map's. */
  ghost predicate FileOk(disk: seq<Sector>, bits: seq<bool>, log: seq<nat>, s: nat, f: File) {
    && FileAt(disk, s, f.d, f.nodes, f.data)
    && Marked(bits, Own(s, f)) && Distinct(Own(s, f)) && 0 !in Own(s, f) && Disjoint(Own(s, f), log)
  }

  /** Every file is in order and no two of them share a sector. */
  ghost predicate TableOk(disk: seq<Sector>, bits: seq<bool>, log: seq<nat>, table: map<nat, File>) {
    && (forall s | s in table :: FileOk(disk, bits, log, s, table[s]))
    && (forall s, t | s in table && t in table && s != t :: Disjoint(Own(s, table[s]), Own(t, table[t])))
  }

  ghost predicate Owned(table: map<nat, File>, x: nat) {
    exists s :: s in table && x in Own(s, table[s])
  }

  /** Sectors in use that belong neither to the free map nor to a file: nothing will release them again. */
  ghost function Leaked(bits: seq<bool>, log: seq<nat>, table: map<nat, File>): set<nat> {
    set x: nat | 0 < x < |bits| && bits[x] && x !in log && !Owned(table, x)
  }

  // ---------- what the files need to grow ----------

  lemma OwnParts(s: nat, f: File, bits: seq<bool>)
    requires Marked(bits, Own(s, f)) && Distinct(Own(s, f))
    ensures Marked(bits, f.nodes) && Distinct(f.nodes) && s !in f.nodes
    ensures s < |bits| && bits[s]
  {
    var own := Own(s, f);
    assert own[0] == s;
    forall i | 0 <= i < |f.nodes|
      ensures f.nodes[i] == own[i + 1]
    {
    }
  }

  /** A file's sectors, the free ones and the free map's are apart. */
  lemma FileGrowable(disk: seq<Sector>, bits: seq<bool>, log: seq<nat>, s: nat, f: File)
    requires |bits| < |disk| && |bits| > 0 && bits[0] && Marked(bits, log) && FileOk(disk, bits, log, s, f)
    ensures Fits(disk, f.nodes + Free(bits), log)
    ensures s < |disk| && s !in f.nodes + Free(bits) && s !in log
    ensures Distinct(f.nodes)
  {
    hide FileAt;
    OwnParts(s, f, bits);
    FreeMembers(bits);
    hide Free;
    assert s in Own(s, f);
    assert forall x | x in f.nodes :: x in Own(s, f);
    FitsFromMarked(disk, bits, f.nodes, log);
  }

  // ---------- the free map changes, the files do not ----------

  lemma MarkedMore(bits: seq<bool>, bits': seq<bool>, own: seq<nat>)
    requires |bits'| == |bits| && Marked(bits, own)
    requires forall i | 0 <= i < |own| && own[i] < |bits| && bits[own[i]] :: bits'[own[i]]
    ensures Marked(bits', own)
  {
  }

  lemma TableFrame(disk: seq<Sector>, disk': seq<Sector>, bits: seq<bool>, bits': seq<bool>, log: seq<nat>, table: map<nat, File>)
    requires TableOk(disk, bits, log, table) && SameExcept(disk, disk', [], log) && |bits'| == |bits|
    requires forall x: nat | x < |bits| && bits[x] && !bits'[x] :: !Owned(table, x)
    ensures TableOk(disk', bits', log, table)
  {
    hide FileAt, SameExcept;
    forall s | s in table
      ensures FileOk(disk', bits', log, s, table[s])
    {
      var f := table[s];
      assert FileOk(disk, bits, log, s, f);
      assert forall i | 0 <= i < |Own(s, f)| :: Own(s, f)[i] in Own(s, table[s]);
      FileFrame(disk, disk', s, f.d, f.nodes, f.data, [], log);
      MarkedMore(bits, bits', Own(s, f));
    }
  }

  // ---------- a file grows or appears ----------

  /** `t` is a file of the table, or a sector in use that nobody owns and that may become one. */
  ghost predicate Candidate(bits: seq<bool>, log: seq<nat>, table: map<nat, File>, t: nat, f: File) {
    if t in table then f == table[t]
    else f.nodes == [] && 0 < t < |bits| && bits[t] && t !in log && !Owned(table, t)
  }

  lemma CandidateOwn(disk: seq<Sector>, bits: seq<bool>, log: seq<nat>, table: map<nat, File>, t: nat, f: File)
    requires TableOk(disk, bits, log, table) && Candidate(bits, log, table, t, f)
    ensures Marked(bits, Own(t, f)) && Distinct(Own(t, f)) && 0 !in Own(t, f) && Disjoint(Own(t, f), log)
    ensures forall s | s in table && s != t :: Disjoint(Own(s, table[s]), Own(t, f))
  {
    hide FileAt;
    if t in table {
      assert FileOk(disk, bits, log, t, f);
    } else {
      assert Own(t, f) == [t];
      forall s | s in table && s != t
        ensures Disjoint(Own(s, table[s]), Own(t, f))
      {
        assert t !in Own(s, table[s]);
      }
    }
  }

  /** Sectors taken from the free list join the ones a file owns. */
  lemma OwnGrown(bits: seq<bool>, bits': seq<bool>, log: seq<nat>, t: nat, f: File, added: seq<nat>, f': File, k: nat)
    requires Marked(bits, Own(t, f)) && Distinct(Own(t, f)) && 0 !in Own(t, f) && Disjoint(Own(t, f), log)
    requires |bits'| == |bits| && |bits| > 0 && bits[0] && Marked(bits, log)
    requires k <= |Free(bits)| && added == Free(bits)[..k] && Free(bits') == Free(bits)[k..]
    requires f'.nodes == f.nodes + added
    ensures Marked(bits', Own(t, f')) && Distinct(Own(t, f')) && 0 !in Own(t, f') && Disjoint(Own(t, f'), log)
    ensures forall x | x in added :: x < |bits| && !bits[x]
    ensures forall x | 0 <= x < |bits| :: bits'[x] <==> bits[x] || x in added
  {
    FreeMembers(bits);
    ClearUndoesTake(bits, bits', k);
    var free, own := Free(bits), Own(t, f);
    hide Free;
    assert Own(t, f') == own + added;
    forall x | x in added
      ensures x < |bits| && !bits[x]
    {
      assert x in free;
    }
    AppendOwn(bits, bits', own, added, free, k);
    forall x | x in log
      ensures x !in added
    {
      var i :| 0 <= i < |log| && log[i] == x;
    }
  }

  lemma AppendOwn(bits: seq<bool>, bits': seq<bool>, own: seq<nat>, added: seq<nat>, free: seq<nat>, k: nat)
    requires |bits'| == |bits| && Marked(bits, own) && Distinct(own) && Distinct(free) && k <= |free| && added == free[..k]
    requires forall x | x in added :: x < |bits| && !bits[x]
    requires forall x | 0 <= x < |bits| :: bits'[x] <==> bits[x] || x in added
    ensures Marked(bits', own + added) && Distinct(own + added)
  {
    var all := own + added;
    forall i | 0 <= i < |all|
      ensures all[i] < |bits| && bits'[all[i]] && (bits[all[i]] <==> i < |own|)
    {
      if i >= |own| {
        assert all[i] in added;
      }
    }
    forall i, j | 0 <= i < j < |all|
      ensures all[i] != all[j]
    {
      if i >= |own| {
        assert all[i] == free[i - |own|] && all[j] == free[j - |own|];
      }
    }
  }

  /** A file of the table grows, or a new file appears: the others stay as they are. */
  lemma TableGrown(disk: seq<Sector>, disk': seq<Sector>, bits: seq<bool>, bits': seq<bool>, log: seq<nat>, table: map<nat, File>,
                   t: nat, f: File, d': InodeDisk, added: seq<nat>, k: nat, data': seq<byte>)
    requires TableOk(disk, bits, log, table) && Candidate(bits, log, table, t, f)
    requires |bits'| == |bits| && |bits| > 0 && bits[0] && Marked(bits, log)
    requires Regrown(disk, disk', Free(bits), Free(bits'), t, f.d, d', f.nodes, added, k, data', log)
    ensures TableOk(disk', bits', log, table[t := File(d', f.nodes + added, data')])
  {
    var f' := File(d', f.nodes + added, data');
    hide Free, FileAt;
    RegrownFile(disk, disk', Free(bits), Free(bits'), t, f.d, d', f.nodes, added, k, data', log);
    hide Regrown, SameExcept, Marked, Distinct;
    CandidateOwn(disk, bits, log, table, t, f);
    OwnGrown(bits, bits', log, t, f, added, f', k);
    assert Own(t, f') == Own(t, f) + added;
    forall s | s in table && s != t
      ensures FileOk(disk', bits', log, s, table[s]) && Disjoint(Own(s, table[s]), Own(t, f')) && Disjoint(Own(t, f'), Own(s, table[s]))
    {
      OtherUntouched(disk, disk', bits, bits', log, s, table[s], t, f, added);
    }
  }

  lemma OtherUntouched(disk: seq<Sector>, disk': seq<Sector>, bits: seq<bool>, bits': seq<bool>, log: seq<nat>,
                       s: nat, g: File, t: nat, f: File, added: seq<nat>)
    requires FileOk(disk, bits, log, s, g) && Disjoint(Own(s, g), Own(t, f)) && |bits'| == |bits|
    requires forall x | x in added :: x < |bits| && !bits[x]
    requires forall x | 0 <= x < |bits| :: bits'[x] <==> bits[x] || x in added
    requires SameExcept(disk, disk', f.nodes + added + [t], log)
    ensures FileOk(disk', bits', log, s, g)
    ensures Disjoint(Own(s, g), Own(t, f) + added) && Disjoint(Own(t, f) + added, Own(s, g))
  {
    hide FileAt, SameExcept;
    forall x | x in Own(s, g)
      ensures x !in Own(t, f) + added
    {
      var i :| 0 <= i < |Own(s, g)| && Own(s, g)[i] == x;
    }
    forall x | x in f.nodes + added + [t]
      ensures x in Own(t, f) + added
    {
    }
    FileFrame(disk, disk', s, g.d, g.nodes, g.data, f.nodes + added + [t], log);
    MarkedMore(bits, bits', Own(s, g));
  }

  /** Growing leaks nothing and recovers nothing: what leaves the free list is the file's. */
  lemma LeakedGrown(bits: seq<bool>, bits': seq<bool>, log: seq<nat>, table: map<nat, File>, t: nat, f: File, added: seq<nat>)
    requires |bits'| == |bits| && forall x | 0 <= x < |bits| :: bits'[x] <==> bits[x] || x in added
    requires forall x | x in added :: x < |bits| && !bits[x]
    requires forall x :: x in Own(t, f) <==> x in added || (t in table && x in Own(t, table[t]))
    ensures Leaked(bits', log, table[t := f]) == Leaked(bits, log, table)
  {
    var table' := table[t := f];
    hide Own;
    forall x: nat
      ensures x in Leaked(bits', log, table') <==> x in Leaked(bits, log, table)
    {
      OwnedGrown(table, t, f, added, x);
    }
  }

  lemma LeakedWithMore(bits: seq<bool>, bits': seq<bool>, log: seq<nat>, table: map<nat, File>, t: nat, f: File, added: seq<nat>)
    requires |bits'| == |bits| && forall x | 0 <= x < |bits| :: bits'[x] <==> bits[x] || x in added
    requires forall x | x in added :: x < |bits| && !bits[x]
    requires t in table && f.nodes == table[t].nodes + added
    ensures Leaked(bits', log, table[t := f]) == Leaked(bits, log, table)
  {
    assert Own(t, f) == Own(t, table[t]) + added;
    hide Leaked, Own;
    LeakedGrown(bits, bits', log, table, t, f, added);
  }

  lemma OwnedGrown(table: map<nat, File>, t: nat, f: File, added: seq<nat>, x: nat)
    requires forall y :: y in Own(t, f) <==> y in added || (t in table && y in Own(t, table[t]))
    ensures Owned(table[t := f], x) <==> Owned(table, x) || x in added
  {
    var table' := table[t := f];
    hide Own;
    if x in added {
      assert x in Own(t, table'[t]);
    }
    if s :| s in table && x in Own(s, table[s]) {
      assert x in Own(s, table'[s]);
    }
    if s :| s in table' && x in Own(s, table'[s]) {
      assert s != t ==> x in Own(s, table[s]);
    }
  }

  // ---------- a file is removed ----------

  /** The file `t` gives up its sectors while the file `r` is overwritten in place. */
  lemma TableDropped(disk: seq<Sector>, disk': seq<Sector>, bits: seq<bool>, log: seq<nat>, table: map<nat, File>, t: nat, r: nat, f': File)
    requires TableOk(disk, bits, log, table) && t in table && r in table && t != r
    requires SameExcept(disk, disk', f'.nodes + [r], log) && f'.nodes == table[r].nodes
    requires FileAt(disk', r, f'.d, f'.nodes, f'.data)
    ensures TableOk(disk', Clear(bits, Own(t, table[t])), log, (table - {t})[r := f'])
  {
    hide FileAt, SameExcept;
    var own, table' := Own(t, table[t]), (table - {t})[r := f'];
    forall s | s in table'
      ensures FileOk(disk', Clear(bits, own), log, s, table'[s])
    {
      var g := table[s];
      assert FileOk(disk, bits, log, s, g) && Disjoint(Own(s, g), own);
      MarkedMore(bits, Clear(bits, own), Own(s, g));
      if s == r {
        assert Own(r, f') == Own(r, g);
      } else {
        assert Disjoint(Own(s, g), Own(r, table[r]));
        FileFrame(disk, disk', s, g.d, g.nodes, g.data, f'.nodes + [r], log);
      }
    }
    assert Own(r, f') == Own(r, table[r]);
  }

  /** Dropping a file releases what it owned, and that is all that changes hands. */
  lemma LeakedDropped(bits: seq<bool>, log: seq<nat>, table: map<nat, File>, t: nat, r: nat, f': File)
    requires t in table && r in table && t != r && f'.nodes == table[r].nodes
    ensures Leaked(Clear(bits, Own(t, table[t])), log, (table - {t})[r := f']) == Leaked(bits, log, table)
  {
    var own, table' := Own(t, table[t]), (table - {t})[r := f'];
    assert Own(r, f') == Own(r, table[r]);
    hide Own;
    forall x: nat | x !in own
      ensures Owned(table', x) <==> Owned(table, x)
    {
      if s :| s in table && x in Own(s, table[s]) {
        assert x in Own(s, table'[s]);
      }
      if s :| s in table' && x in Own(s, table'[s]) {
        assert x in Own(s, table[s]);
      }
    }
    forall x: nat
      ensures x in Leaked(Clear(bits, own), log, table') <==> x in Leaked(bits, log, table)
    {
      assert x in own ==> Owned(table, x);
    }
  }

  /** A file that never gets its directory entry gives back its inode's sector only: its other sectors leak. */
  lemma LeakedAbandoned(disk: seq<Sector>, bits: seq<bool>, log: seq<nat>, table: map<nat, File>, t: nat, f: File)
    requires t !in table && TableOk(disk, bits, log, table[t := f])
    ensures Leaked(Clear(bits, [t]), log, table) == Leaked(bits, log, table[t := f]) + Members(f.nodes)
    ensures |Leaked(Clear(bits, [t]), log, table)| == |Leaked(bits, log, table[t := f])| + |f.nodes|
  {
    var leaked, leaked', lost := Leaked(bits, log, table[t := f]), Leaked(Clear(bits, [t]), log, table), Members(f.nodes);
    AbandonedNodes(disk, bits, log, table, t, f);
    forall x: nat
      ensures x in leaked' <==> x in leaked || x in f.nodes
      ensures x in f.nodes ==> x !in leaked
    {
      hide Owned, Own, TableOk;
      OwnedWith(table, t, f, x);
      OwnMember(t, f, x);
    }
    SetSplit(leaked', leaked, lost);
    DistinctCount(f.nodes);
  }

  lemma SetSplit(a: set<nat>, b: set<nat>, c: set<nat>)
    requires forall x: nat :: (x in a <==> x in b || x in c) && (x in c ==> x !in b)
    ensures a == b + c && |a| == |b| + |c|
  {
    assert b !! c;
  }

  lemma OwnMember(t: nat, f: File, x: nat)
    ensures x in Own(t, f) <==> x == t || x in f.nodes
  {
  }

  lemma AbandonedNodes(disk: seq<Sector>, bits: seq<bool>, log: seq<nat>, table: map<nat, File>, t: nat, f: File)
    requires t !in table && TableOk(disk, bits, log, table[t := f])
    ensures Distinct(f.nodes)
    ensures forall x | x in f.nodes :: x != t && 0 < x < |bits| && bits[x] && x !in log && !Owned(table, x)
    ensures !Owned(table, t)
  {
    var table' := table[t := f];
    hide FileAt;
    assert FileOk(disk, bits, log, t, table'[t]);
    OwnParts(t, f, bits);
    assert forall x | x in f.nodes :: x in Own(t, f);
    assert t in Own(t, f);
    hide FileOk;
    forall x | x in Own(t, f)
      ensures !Owned(table, x)
    {
      forall s | s in table
        ensures x !in Own(s, table[s])
      {
        assert Disjoint(Own(s, table'[s]), Own(t, table'[t]));
      }
    }
    forall x | x in f.nodes
      ensures x < |bits| && bits[x]
    {
      var i :| 0 <= i < |f.nodes| && f.nodes[i] == x;
    }
  }

  lemma OwnedWith(table: map<nat, File>, t: nat, f: File, x: nat)
    requires t !in table
    ensures Owned(table[t := f], x) <==> Owned(table, x) || x in Own(t, f)
  {
    OwnedGrown(table, t, f, Own(t, f), x);
  }

  function Members(s: seq<nat>): (r: set<nat>)
    ensures forall x :: x in r <==> x in s
  {
    set x | x in s
  }

  lemma {:induction false} DistinctCount(s: seq<nat>)
    requires Distinct(s)
    ensures |Members(s)| == |s|
  {
    hide Members;
    if |s| == 0 {
      assert Members(s) == {};
    } else {
      var r, y := s[..|s| - 1], s[|s| - 1];
      DistinctCount(r);
      assert y !in r;
      MembersMore(r, y);
      assert s == r + [y];
    }
  }

  lemma MembersMore(r: seq<nat>, y: nat)
    ensures Members(r + [y]) == Members(r) + {y}
  {
    hide Members;
    forall x
      ensures x in Members(r + [y]) <==> x in Members(r) + {y}
    {
    }
  }

  // ---------- a volume's sectors ----------

  /** The free map's own sectors are in use, its inode `map0` is in sector 0, and the files are in order. */
  ghost predicate VolumeOk(disk: seq<Sector>, bits: seq<bool>, log: seq<nat>, map0: InodeDisk, table: map<nat, File>) {
    && 0 < |bits| < |disk| && bits[0] && Marked(bits, log) && 0 !in log
    && DecodeInode(disk[0]) == map0
    && TableOk(disk, bits, log, table)
  }

  /** Only the free map has changed: sectors of no file may have come or gone. */
  lemma VolumeFrame(disk: seq<Sector>, disk': seq<Sector>, bits: seq<bool>, bits': seq<bool>, log: seq<nat>, map0: InodeDisk,
                    table: map<nat, File>)
    requires VolumeOk(disk, bits, log, map0, table) && SameExcept(disk, disk', [], log) && |bits'| == |bits|
    requires forall x: nat | x < |bits| && bits[x] && !bits'[x] :: x != 0 && x !in log && !Owned(table, x)
    ensures VolumeOk(disk', bits', log, map0, table)
  {
    assert disk'[0] == disk[0];
    hide TableOk, DecodeInode, Owned;
    assert forall i | 0 <= i < |log| :: log[i] in log;
    MarkedMore(bits, bits', log);
    hide Marked, SameExcept;
    TableFrame(disk, disk', bits, bits', log, table);
  }

  lemma VolumeGrown(disk: seq<Sector>, disk': seq<Sector>, bits: seq<bool>, bits': seq<bool>, log: seq<nat>, map0: InodeDisk,
                    table: map<nat, File>, t: nat, f: File, d': InodeDisk, added: seq<nat>, k: nat, data': seq<byte>)
    requires VolumeOk(disk, bits, log, map0, table) && Candidate(bits, log, table, t, f) && |bits'| == |bits|
    requires Regrown(disk, disk', Free(bits), Free(bits'), t, f.d, d', f.nodes, added, k, data', log)
    ensures VolumeOk(disk', bits', log, map0, table[t := File(d', f.nodes + added, data')])
    ensures forall x | 0 <= x < |bits| :: bits'[x] <==> bits[x] || x in added
    ensures forall x | x in added :: x < |bits| && !bits[x]
    ensures 0 < |disk| == |disk'| && disk'[0] == disk[0]
    ensures added == Free(bits)[..k] && Free(bits') == Free(bits)[k..] && d'.isDir == f.d.isDir
  {
    hide TableOk, DecodeInode, Free, FileAt, Candidate;
    TableGrown(disk, disk', bits, bits', log, table, t, f, d', added, k, data');
    RegrownFile(disk, disk', Free(bits), Free(bits'), t, f.d, d', f.nodes, added, k, data', log);
    CandidateOwn(disk, bits, log, table, t, f);
    OwnGrown(bits, bits', log, t, f, added, File(d', f.nodes + added, data'), k);
    hide Regrown;
    assert t in Own(t, f);
    assert forall x | x in f.nodes :: x in Own(t, f);
    assert 0 !in f.nodes + added + [t];
    assert disk'[0] == disk[0];
    hide Own, SameExcept;
    forall i | 0 <= i < |log|
      ensures bits'[log[i]]
    {
    }
  }

  lemma VolumeDropped(disk: seq<Sector>, disk': seq<Sector>, bits: seq<bool>, log: seq<nat>, map0: InodeDisk, table: map<nat, File>,
                      t: nat, r: nat, f': File)
    requires VolumeOk(disk, bits, log, map0, table) && t in table && r in table && t != r
    requires SameExcept(disk, disk', f'.nodes + [r], log) && f'.nodes == table[r].nodes
    requires FileAt(disk', r, f'.d, f'.nodes, f'.data)
    ensures VolumeOk(disk', Clear(bits, Own(t, table[t])), log, map0, (table - {t})[r := f'])
  {
    assert FileOk(disk, bits, log, t, table[t]) && FileOk(disk, bits, log, r, table[r]);
    hide FileAt, DecodeInode;
    var own := Own(t, table[t]);
    assert r in Own(r, table[r]) && forall x | x in f'.nodes :: x in Own(r, table[r]);
    assert disk'[0] == disk[0];
    assert forall x | x in log :: x !in own;
    MarkedMore(bits, Clear(bits, own), log);
    hide SameExcept, Own, Marked;
    TableDropped(disk, disk', bits, log, table, t, r, f');
  }

  /** Some of the files. */
  lemma VolumeWithout(disk: seq<Sector>, bits: seq<bool>, log: seq<nat>, map0: InodeDisk, table: map<nat, File>, t: nat, f: File)
    requires t !in table && VolumeOk(disk, bits, log, map0, table[t := f])
    ensures VolumeOk(disk, bits, log, map0, table)
    ensures !Owned(table, t)
  {
    hide DecodeInode, FileAt;
    var table' := table[t := f];
    forall s | s in table
      ensures FileOk(disk, bits, log, s, table[s]) && t !in Own(s, table[s])
    {
      assert FileOk(disk, bits, log, s, table'[s]) && Disjoint(Own(s, table'[s]), Own(t, table'[t]));
      assert t in Own(t, f);
    }
    forall s, r | s in table && r in table && s != r
      ensures Disjoint(Own(s, table[s]), Own(r, table[r]))
    {
      assert Disjoint(Own(s, table'[s]), Own(r, table'[r]));
    }
  }

  // ---------- when space runs out ----------

  /** Every file of the table can be read. */
  ghost predicate AllReadable(disk: seq<Sector>, table: map<nat, File>) {
    forall s | s in table :: s < |disk| && DecodeInode(disk[s]) == table[s].d && Reads(disk, table[s].d, table[s].data)
  }

  /** A reservation that found too little space, for a new file or for the file in sector `t`, leaves every file
      readable. */
  lemma ExhaustedReadable(disk: seq<Sector>, disk': seq<Sector>, bits: seq<bool>, log: seq<nat>, map0: InodeDisk, table: map<nat, File>,
                          nodes: seq<nat>, t: nat)
    requires VolumeOk(disk, bits, log, map0, table) && Exhausted(disk, disk', nodes, Free(bits), log)
    requires nodes == [] || (t in table && nodes == table[t].nodes)
    ensures AllReadable(disk', table)
  {
    hide FileAt, DecodeInode, Reads, FileKept, IsData, Free;
    var lost := Lost(IsData(|nodes| + |Free(bits)|));
    forall s | s in table
      ensures s < |disk'| && DecodeInode(disk'[s]) == table[s].d && Reads(disk', table[s].d, table[s].data)
    {
      var g := table[s];
      assert FileOk(disk, bits, log, s, g);
      OwnNotFree(bits, s, g);
      if s == t && nodes == g.nodes {
        OwnParts(s, g, bits);
        assert s in Own(s, g);
        FileStillReads(disk, disk', s, g, Free(bits), log);
      } else {
        assert nodes != [] ==> Disjoint(Own(s, g), Own(t, table[t])) && forall x | x in nodes :: x in Own(t, table[t]);
        FileFrame(disk, disk', s, g.d, g.nodes, g.data, nodes + Free(bits) + lost, log);
        FileThereBefore(disk', s, g);
      }
    }
  }

  /** A write that found too little space. */
  lemma NoRoomReadable(disk: seq<Sector>, disk': seq<Sector>, bits: seq<bool>, log: seq<nat>, map0: InodeDisk, table: map<nat, File>,
                       t: nat, d': InodeDisk, free': seq<nat>)
    requires VolumeOk(disk, bits, log, map0, table) && t in table
    requires NoRoom(disk, disk', table[t].d, d', table[t].nodes, Free(bits), free', table[t].data, log)
    ensures AllReadable(disk', table) && free' == []
    ensures 0 < |disk| == |disk'| && disk'[0] == if IsData(|table[t].nodes| + |Free(bits)|) then disk[0] else ZeroSector()
  {
    hide VolumeOk, Exhausted, Reads, Free, IsData;
    ExhaustedReadable(disk, disk', bits, log, map0, table, table[t].nodes, t);
  }

  lemma FileStillReads(disk: seq<Sector>, disk': seq<Sector>, s: nat, f: File, free: seq<nat>, log: seq<nat>)
    requires FileAt(disk, s, f.d, f.nodes, f.data) && Exhausted(disk, disk', f.nodes, free, log)
    requires 0 < s && s !in f.nodes + free && s !in log
    ensures s < |disk'| && DecodeInode(disk'[s]) == f.d && Reads(disk', f.d, f.data)
  {
    hide Holds, DecodeInode, FileKept, Reads, IsData;
    ExhaustedInode(disk, disk', s, f.nodes, free, log);
    InodeKeptRefl(f.d);
    KeptReads(disk, disk', f.d, f.d, f.nodes, f.data);
  }

  lemma FileThereBefore(disk: seq<Sector>, s: nat, f: File)
    requires FileAt(disk, s, f.d, f.nodes, f.data)
    ensures s < |disk| && DecodeInode(disk[s]) == f.d && Reads(disk, f.d, f.data)
  {
    HoldsReads(disk, f.d, f.nodes, f.data);
  }

  /** What a file owns is not free. */
  lemma OwnNotFree(bits: seq<bool>, s: nat, f: File)
    requires Marked(bits, Own(s, f))
    ensures forall x | x in Own(s, f) :: x !in Free(bits)
  {
    FreeMembers(bits);
  }
}
