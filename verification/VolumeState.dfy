/** A volume as a map from names to bytes, read off the root directory and the files it lists. */
module VolumeState {
  import opened Sectors
  import opened DirEntries
  import opened FileTable

  const ROOT_DIR_SECTOR: nat := 1

  /** Names without a directory part: split_path_filename gives them back whole. */
  predicate NoPath(name: seq<byte>) {
    0 !in name && 47 !in name
  }

  /** Of these, the names dir_lookup looks for in the directory's slots. */
  predicate PlainName(name: seq<byte>) {
    NoPath(name) && name != [46] && name != [46, 46]
  }

  /** The free map and the root directory, inodes included, take exactly the sectors below `m`. */
  ghost predicate SystemPrefix(log: seq<nat>, root: seq<nat>, m: nat) {
    forall x: nat :: x < 2 || x in log || x in root <==> x < m
  }

  /** The root directory's map lists exactly the table's other files, each under one name. */
  ghost predicate NamesOk(m: map<seq<byte>, nat>, table: map<nat, File>) {
    && (forall n | n in m :: m[n] in table && m[n] != ROOT_DIR_SECTOR && !table[m[n]].d.isDir)
    && (forall n, n' | n in m && n' in m && m[n] == m[n'] :: n == n')
    && (forall s | s in table && s != ROOT_DIR_SECTOR :: exists n :: n in m && m[n] == s)
  }

  /** The root directory is a directory in order. */
  ghost predicate RootOk(table: map<nat, File>) {
    && ROOT_DIR_SECTOR in table && table[ROOT_DIR_SECTOR].d.isDir
    && DirOk(table[ROOT_DIR_SECTOR].data)
    && NamesOk(Entries(table[ROOT_DIR_SECTOR].data), table)
  }

  ghost function RootEntries(table: map<nat, File>): map<seq<byte>, nat>
    requires ROOT_DIR_SECTOR in table
  {
    Entries(table[ROOT_DIR_SECTOR].data)
  }

  /** The volume: each name's bytes. */
  ghost function Files(table: map<nat, File>): map<seq<byte>, seq<byte>>
    requires RootOk(table)
  {
    map n | n in RootEntries(table) :: table[RootEntries(table)[n]].data
  }

  lemma NamesCreated(m: map<seq<byte>, nat>, table: map<nat, File>, name: seq<byte>, s: nat, f: File, root: File)
    requires NamesOk(m, table) && s !in table && !f.d.isDir && name !in m && ROOT_DIR_SECTOR in table
    ensures NamesOk(m[name := s], table[s := f][ROOT_DIR_SECTOR := root])
  {
    var table', m' := table[s := f][ROOT_DIR_SECTOR := root], m[name := s];
    forall t | t in table' && t != ROOT_DIR_SECTOR
      ensures exists n :: n in m' && m'[n] == t
    {
      if t == s {
        assert m'[name] == s;
      } else {
        var n :| n in m && m[n] == t;
        assert m'[n] == t;
      }
    }
  }

  /** A new file under a new name. */
  lemma FileCreated(table: map<nat, File>, name: seq<byte>, s: nat, f: File, root: File)
    requires RootOk(table) && s !in table && !f.d.isDir && name !in RootEntries(table)
    requires root.d.isDir && DirOk(root.data) && Entries(root.data) == RootEntries(table)[name := s]
    ensures RootOk(table[s := f][ROOT_DIR_SECTOR := root])
    ensures Files(table[s := f][ROOT_DIR_SECTOR := root]) == Files(table)[name := f.data]
  {
    hide Entries, DirOk;
    NamesCreated(RootEntries(table), table, name, s, f, root);
    assert forall n | n in RootEntries(table) :: RootEntries(table)[n] in table && RootEntries(table)[n] != ROOT_DIR_SECTOR;
    hide NamesOk;
    assert RootEntries(table[s := f][ROOT_DIR_SECTOR := root]) == RootEntries(table)[name := s];
  }

  /** A file's bytes replaced. */
  lemma FileWritten(table: map<nat, File>, name: seq<byte>, f: File)
    requires RootOk(table) && name in RootEntries(table) && !f.d.isDir
    ensures RootOk(table[RootEntries(table)[name] := f])
    ensures Files(table[RootEntries(table)[name] := f]) == Files(table)[name := f.data]
  {
    hide Entries, DirOk;
    var m, table' := RootEntries(table), table[RootEntries(table)[name] := f];
    assert RootEntries(table') == m;
    assert NamesOk(m, table');
  }

  lemma NamesRemoved(m: map<seq<byte>, nat>, table: map<nat, File>, name: seq<byte>, root: File)
    requires NamesOk(m, table) && name in m && ROOT_DIR_SECTOR in table
    ensures NamesOk(m - {name}, (table - {m[name]})[ROOT_DIR_SECTOR := root])
    ensures forall n | n in m && n != name :: m[n] in table && m[n] != m[name] && m[n] != ROOT_DIR_SECTOR
    ensures m[name] != ROOT_DIR_SECTOR
  {
    var m', table' := m - {name}, (table - {m[name]})[ROOT_DIR_SECTOR := root];
    forall t | t in table' && t != ROOT_DIR_SECTOR
      ensures exists n :: n in m' && m'[n] == t
    {
      var n :| n in m && m[n] == t;
      assert m'[n] == t;
    }
  }

  /** A name deleted, and the file it stood for. */
  lemma FileRemoved(table: map<nat, File>, name: seq<byte>, root: File)
    requires RootOk(table) && name in RootEntries(table)
    requires root.d.isDir && DirOk(root.data) && Entries(root.data) == RootEntries(table) - {name}
    ensures RootOk((table - {RootEntries(table)[name]})[ROOT_DIR_SECTOR := root])
    ensures Files((table - {RootEntries(table)[name]})[ROOT_DIR_SECTOR := root]) == Files(table) - {name}
  {
    hide Entries, DirOk, NamesOk;
    NamesRemoved(RootEntries(table), table, name, root);
    assert RootEntries((table - {RootEntries(table)[name]})[ROOT_DIR_SECTOR := root]) == RootEntries(table) - {name};
  }
}
