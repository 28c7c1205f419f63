/** Directory entries as bytes: 36-byte slots laid end to end over a directory's contents (a3/fs/directory.h). */
module DirEntries {
  import opened Sectors
  import opened FileBytes

  const ENTRY_SIZE: nat := 36
  const NAME_MAX: nat := 30

  /** struct dir_entry; `name` is the whole field, its unused end included. */
  datatype DirEntry = DirEntry(inodeSector: nat, name: seq<byte>, inUse: bool) {
    predicate Valid() {
      inodeSector < WORD_LIMIT && |name| == 31
    }
  }

  function EncodeEntry(e: DirEntry): (b: seq<byte>)
    requires e.Valid()
    ensures |b| == 36
  {
    EncodeWords([e.inodeSector]) + e.name + [if e.inUse then 1 else 0]
  }

  function DecodeEntry(b: seq<byte>): (e: DirEntry)
    requires |b| == 36
    ensures e.Valid()
  {
    DirEntry(Word(b, 0), b[4..35], b[35] != 0)
  }

  lemma EntryRoundTrip(e: DirEntry)
    requires e.Valid()
    ensures DecodeEntry(EncodeEntry(e)) == e
  {
    var b := EncodeEntry(e);
    var w := EncodeWords([e.inodeSector]);
    EncodedWord([e.inodeSector], 0);
    assert forall k | 0 <= k < 4 :: b[k] == w[k];
    hide EncodeWords;
    assert b[4..35] == e.name;
  }

  /** struct dir_entry: the sector, 31 bytes of name, the flag. */
  lemma EntryLayout(e: DirEntry)
    requires e.Valid()
    ensures LittleEndian(EncodeEntry(e), 0, e.inodeSector)
    ensures forall i | 0 <= i < 31 :: EncodeEntry(e)[4 + i] == e.name[i]
    ensures EncodeEntry(e)[35] == if e.inUse then 1 else 0
  {
    var b, w := EncodeEntry(e), EncodeWords([e.inodeSector]);
    WordLayout([e.inodeSector], 0);
    hide EncodeWords;
    assert forall k | 0 <= k < 4 :: b[k] == w[k];
  }

  // ---------- names ----------

  /** The C string stored in a field: the bytes before the first NUL. */
  function CString(b: seq<byte>): (s: seq<byte>)
    ensures |s| <= |b| && 0 !in s
  {
    if |b| == 0 || b[0] == 0 then [] else [b[0]] + CString(b[1..])
  }

  /** strncpy to the name field: the rest is filled with NULs. */
  function NameField(name: seq<byte>): (b: seq<byte>)
    requires |name| <= 31
    ensures |b| == 31
  {
    name + seq(31 - |name|, _ => 0)
  }

  /** A name dir_add accepts. */
  predicate ValidName(name: seq<byte>) {
    0 < |name| <= NAME_MAX
  }

  lemma {:induction false} CStringOfPadded(s: seq<byte>, pad: seq<byte>)
    requires 0 !in s && |pad| > 0 && pad[0] == 0
    ensures CString(s + pad) == s
  {
    if |s| == 0 {
      assert s + pad == pad;
    } else {
      assert (s + pad)[1..] == s[1..] + pad;
      CStringOfPadded(s[1..], pad);
    }
  }

  /** A C string ends before the first NUL, or fills its field. */
  lemma {:induction false} CStringEnds(b: seq<byte>)
    ensures CString(b) == b[..|CString(b)|]
    ensures |CString(b)| < |b| ==> b[|CString(b)|] == 0
  {
    if |b| > 0 && b[0] != 0 {
      CStringEnds(b[1..]);
    }
  }

  /** The bytes dir_add writes for a new name: the sector, the name, NULs up to 31 bytes, and the flag. */
  lemma NewEntryLayout(sector: nat, name: seq<byte>)
    requires sector < WORD_LIMIT && |name| <= 30
    ensures var b := EncodeEntry(DirEntry(sector, NameField(name), true));
            && LittleEndian(b, 0, sector) && b[35] == 1
            && forall i | 0 <= i < 31 :: b[4 + i] == if i < |name| then name[i] else 0
  {
    EntryLayout(DirEntry(sector, NameField(name), true));
    hide EncodeEntry, LittleEndian;
  }

  /** A name that is stored is read back. */
  lemma NameRoundTrip(name: seq<byte>)
    requires ValidName(name) && 0 !in name
    ensures CString(NameField(name)) == name
  {
    CStringOfPadded(name, seq(31 - |name|, _ => 0));
  }

  // ---------- slots ----------

  function NumSlots(data: seq<byte>): nat {
    |data| / 36
  }

  function Slot(data: seq<byte>, i: nat): (e: DirEntry)
    requires i < NumSlots(data)
  {
    DecodeEntry(data[36 * i..36 * i + 36])
  }

  /** Slot `i` is in use and carries the name `name`; slot 0 is the parent directory's. */
  ghost predicate Names(data: seq<byte>, i: nat, name: seq<byte>) {
    1 <= i < NumSlots(data) && Slot(data, i).inUse && CString(Slot(data, i).name) == name
  }

  /** What every directory keeps: whole slots, slot 0 in use, and valid names that are all distinct. */
  ghost predicate DirOk(data: seq<byte>) {
    && |data| % 36 == 0 && NumSlots(data) >= 1 && Slot(data, 0).inUse
    && (forall i | 1 <= i < NumSlots(data) && Slot(data, i).inUse :: ValidName(CString(Slot(data, i).name)))
    && (forall i, j | 1 <= i < j < NumSlots(data) && Slot(data, i).inUse && Slot(data, j).inUse ::
          CString(Slot(data, i).name) != CString(Slot(data, j).name))
  }

  /** The directory as a finite map from names to inode sectors, from its first `k` slots. */
  ghost function EntriesBelow(data: seq<byte>, k: nat): map<seq<byte>, nat>
    requires k <= NumSlots(data)
  {
    if k <= 1 then map[]
    else if Slot(data, k - 1).inUse then
      EntriesBelow(data, k - 1)[CString(Slot(data, k - 1).name) := Slot(data, k - 1).inodeSector]
    else EntriesBelow(data, k - 1)
  }

  ghost function Entries(data: seq<byte>): map<seq<byte>, nat> {
    EntriesBelow(data, NumSlots(data))
  }

  lemma {:induction false} EntriesBelowFound(data: seq<byte>, k: nat, name: seq<byte>)
    requires k <= NumSlots(data) && name in EntriesBelow(data, k)
    ensures exists i: nat :: i < k && Names(data, i, name)
  {
    if k > 1 {
      if Slot(data, k - 1).inUse && CString(Slot(data, k - 1).name) == name {
        assert Names(data, k - 1, name);
      } else {
        EntriesBelowFound(data, k - 1, name);
      }
    }
  }

  lemma {:induction false} EntriesBelowHave(data: seq<byte>, k: nat, i: nat, name: seq<byte>)
    requires k <= NumSlots(data) && DirOk(data) && i < k && Names(data, i, name)
    ensures name in EntriesBelow(data, k) && EntriesBelow(data, k)[name] == Slot(data, i).inodeSector
  {
    if i < k - 1 {
      EntriesBelowHave(data, k - 1, i, name);
    }
  }

  /** The map holds exactly the in-use slots from 1 on. */
  lemma EntriesAre(data: seq<byte>, name: seq<byte>)
    requires DirOk(data)
    ensures name in Entries(data) <==> exists i: nat :: Names(data, i, name)
    ensures forall i: nat :: Names(data, i, name) ==> name in Entries(data) && Entries(data)[name] == Slot(data, i).inodeSector
  {
    hide CString, DecodeEntry;
    if name in Entries(data) {
      EntriesBelowFound(data, NumSlots(data), name);
    }
    forall i: nat | Names(data, i, name)
      ensures name in Entries(data) && Entries(data)[name] == Slot(data, i).inodeSector
    {
      EntriesBelowHave(data, NumSlots(data), i, name);
    }
  }

  // ---------- writing a slot ----------

  /** Slot `i` overwritten, or added at the end. */
  function PutSlot(data: seq<byte>, i: nat, e: DirEntry): seq<byte>
    requires e.Valid()
  {
    Splice(data, 36 * i, EncodeEntry(e))
  }

  /** Writing a slot changes that slot only, whichever sectors its bytes straddle. */
  lemma SlotsAfterPut(data: seq<byte>, i: nat, e: DirEntry)
    requires e.Valid() && |data| % 36 == 0 && i <= NumSlots(data)
    ensures |PutSlot(data, i, e)| % 36 == 0
    ensures NumSlots(PutSlot(data, i, e)) == if i < NumSlots(data) then NumSlots(data) else NumSlots(data) + 1
    ensures Slot(PutSlot(data, i, e), i) == e
    ensures forall j | 0 <= j < NumSlots(data) && j != i :: Slot(PutSlot(data, i, e), j) == Slot(data, j)
  {
    var data' := PutSlot(data, i, e);
    EntryRoundTrip(e);
    hide EncodeEntry, DecodeEntry;
    SpliceSlice(data, 36 * i, EncodeEntry(e), 36 * i, 36 * i + 36);
    forall j | 0 <= j < NumSlots(data) && j != i
      ensures Slot(data', j) == Slot(data, j)
    {
      SpliceSlice(data, 36 * i, EncodeEntry(e), 36 * j, 36 * j + 36);
    }
  }

  /** The names after slot `i` has been overwritten. */
  lemma NamesAfterPut(data: seq<byte>, i: nat, e: DirEntry, j: nat, n: seq<byte>)
    requires DirOk(data) && e.Valid() && 1 <= i <= NumSlots(data)
    ensures Names(PutSlot(data, i, e), j, n) <==> if j == i then e.inUse && CString(e.name) == n else Names(data, j, n)
  {
    SlotsAfterPut(data, i, e);
    hide Slot, CString, PutSlot;
  }

  /** A directory stays in order if the new name is valid and no other slot has it. */
  lemma DirOkAfterPut(data: seq<byte>, i: nat, e: DirEntry)
    requires DirOk(data) && e.Valid() && 1 <= i <= NumSlots(data)
    requires e.inUse ==> ValidName(CString(e.name)) && forall j: nat | j != i :: !Names(data, j, CString(e.name))
    ensures DirOk(PutSlot(data, i, e))
  {
    SlotsAfterPut(data, i, e);
    hide Slot, CString, PutSlot, ValidName;
    forall j | 1 <= j < NumSlots(data) && Slot(data, j).inUse && j != i && e.inUse
      ensures CString(Slot(data, j).name) != CString(e.name)
    {
      assert !Names(data, j, CString(e.name));
    }
  }

  /** The map after slot `i` has been overwritten, at one name. */
  lemma EntriesAfterPut(data: seq<byte>, i: nat, e: DirEntry, n: seq<byte>)
    requires DirOk(data) && e.Valid() && 1 <= i <= NumSlots(data)
    requires i < NumSlots(data) && Slot(data, i).inUse ==> !e.inUse
    requires e.inUse ==> forall j: nat | j != i :: !Names(data, j, CString(e.name))
    requires DirOk(PutSlot(data, i, e))
    ensures e.inUse && n == CString(e.name) ==>
              n in Entries(PutSlot(data, i, e)) && Entries(PutSlot(data, i, e))[n] == e.inodeSector
    ensures (e.inUse ==> n != CString(e.name)) && !Names(data, i, n) ==>
              && (n in Entries(PutSlot(data, i, e)) <==> n in Entries(data))
              && (n in Entries(data) ==> Entries(PutSlot(data, i, e))[n] == Entries(data)[n])
    ensures !e.inUse && Names(data, i, n) ==> n !in Entries(PutSlot(data, i, e))
  {
    var data' := PutSlot(data, i, e);
    SlotsAfterPut(data, i, e);
    EntriesAre(data, n);
    EntriesAre(data', n);
    forall j: nat
      ensures Names(data', j, n) <==> if j == i then e.inUse && CString(e.name) == n else Names(data, j, n)
    {
      NamesAfterPut(data, i, e, j, n);
    }
    hide Slot, CString, PutSlot, Entries, DirOk;
    if e.inUse && n == CString(e.name) {
      assert Names(data', i, n);
    } else if j: nat :| Names(data, j, n) && j != i {
      assert Names(data', j, n);
    }
    hide Names;
  }

  /** Inserting a new name into the map. */
  lemma EntryAdded(data: seq<byte>, i: nat, name: seq<byte>, sector: nat)
    requires DirOk(data) && ValidName(name) && 0 !in name && sector < WORD_LIMIT && name !in Entries(data)
    requires 1 <= i <= NumSlots(data) && (i < NumSlots(data) ==> !Slot(data, i).inUse)
    ensures DirOk(PutSlot(data, i, DirEntry(sector, NameField(name), true)))
    ensures Entries(PutSlot(data, i, DirEntry(sector, NameField(name), true))) == Entries(data)[name := sector]
  {
    var e := DirEntry(sector, NameField(name), true);
    NameRoundTrip(name);
    EntriesAre(data, name);
    hide Slot, CString, NameField, Entries, PutSlot, ValidName, DirOk;
    assert forall j: nat :: !Names(data, j, name);
    DirOkAfterPut(data, i, e);
    forall n
      ensures !Names(data, i, n)
    {
    }
    hide Names;
    forall n
      ensures n in Entries(PutSlot(data, i, e)) <==> n == name || n in Entries(data)
      ensures n in Entries(PutSlot(data, i, e)) ==> Entries(PutSlot(data, i, e))[n] == if n == name then sector else Entries(data)[n]
    {
      EntriesAfterPut(data, i, e, n);
    }
  }

  /** Deleting a name from the map. */
  lemma EntryRemoved(data: seq<byte>, i: nat, name: seq<byte>)
    requires DirOk(data) && Names(data, i, name)
    ensures Slot(data, i).(inUse := false).Valid()
    ensures DirOk(PutSlot(data, i, Slot(data, i).(inUse := false)))
    ensures Entries(PutSlot(data, i, Slot(data, i).(inUse := false))) == Entries(data) - {name}
  {
    var e := Slot(data, i).(inUse := false);
    hide CString, Entries, PutSlot, ValidName, DecodeEntry;
    DirOkAfterPut(data, i, e);
    forall n
      ensures n in Entries(PutSlot(data, i, e)) <==> n != name && n in Entries(data)
      ensures n in Entries(PutSlot(data, i, e)) ==> Entries(PutSlot(data, i, e))[n] == Entries(data)[n]
    {
      EntriesAfterPut(data, i, e, n);
    }
  }

  // ---------- searching ----------

  /** The first slot at or after `i` that is not in use; the end if there is none. */
  function FirstUnused(data: seq<byte>, i: nat): (k: nat)
    requires i <= NumSlots(data)
    ensures i <= k <= NumSlots(data)
    ensures forall j | i <= j < k :: Slot(data, j).inUse
    ensures k < NumSlots(data) ==> !Slot(data, k).inUse
    decreases NumSlots(data) - i
  {
    if i == NumSlots(data) || !Slot(data, i).inUse then i else FirstUnused(data, i + 1)
  }

  /** The names of the in-use slots from `i` on, in slot order. */
  function NamesFrom(data: seq<byte>, i: nat): (names: seq<seq<byte>>)
    requires i <= NumSlots(data)
    decreases NumSlots(data) - i
  {
    if i == NumSlots(data) then []
    else if Slot(data, i).inUse then [CString(Slot(data, i).name)] + NamesFrom(data, i + 1)
    else NamesFrom(data, i + 1)
  }

  lemma {:induction false} NamesFromMembers(data: seq<byte>, i: nat)
    requires DirOk(data) && 1 <= i <= NumSlots(data)
    ensures forall n :: n in NamesFrom(data, i) <==> exists j: nat :: i <= j && Names(data, j, n)
    ensures forall a, b | 0 <= a < b < |NamesFrom(data, i)| :: NamesFrom(data, i)[a] != NamesFrom(data, i)[b]
    decreases NumSlots(data) - i
  {
    hide CString, DecodeEntry;
    if i < NumSlots(data) {
      NamesFromMembers(data, i + 1);
      var rest, all := NamesFrom(data, i + 1), NamesFrom(data, i);
      var n0 := CString(Slot(data, i).name);
      forall n
        ensures n in all <==> exists j: nat :: i <= j && Names(data, j, n)
      {
        if n in all && !(n in rest) {
          assert Names(data, i, n);
        }
        if j: nat :| i <= j && Names(data, j, n) {
          if j > i {
            assert n in rest;
          }
        }
      }
      if Slot(data, i).inUse {
        assert forall j: nat | i + 1 <= j :: !Names(data, j, n0);
        assert n0 !in rest;
        forall a, b | 0 <= a < b < |all|
          ensures all[a] != all[b]
        {
          assert all[b] == rest[b - 1];
          assert all[b] in rest;
        }
      }
    }
  }

  /** From a fresh position, every in-use name is listed exactly once. */
  lemma ListingComplete(data: seq<byte>)
    requires DirOk(data)
    ensures forall n :: n in NamesFrom(data, 1) <==> n in Entries(data)
    ensures forall a, b | 0 <= a < b < |NamesFrom(data, 1)| :: NamesFrom(data, 1)[a] != NamesFrom(data, 1)[b]
  {
    NamesFromMembers(data, 1);
    forall n
      ensures n in NamesFrom(data, 1) <==> n in Entries(data)
    {
      EntriesAre(data, n);
    }
  }
}
