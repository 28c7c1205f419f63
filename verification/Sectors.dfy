/** Sectors, 32-bit words and on-disk inodes as bytes (a3/fs/block.h, a3/fs/inode.h). */
module Sectors {

  newtype byte = x: int | 0 <= x < 256

  const SECTOR_SIZE: nat := 512
  const DIRECT_BLOCKS: nat := 123
  const PTRS_PER_SECTOR: nat := 128
  const MAX_SECTORS: nat := 123 + 128 + 128 * 128
  const WORD_LIMIT: nat := 0x1_0000_0000
  const NO_SECTOR: nat := 0xFFFF_FFFF
  const INODE_MAGIC: nat := 0x494e_4f44

  type Sector = s: seq<byte> | |s| == 512 witness seq(512, _ => 0)

  function ZeroSector(): (s: Sector)
    ensures forall i | 0 <= i < 512 :: s[i] == 0
  {
    seq(512, _ => 0)
  }

  /** Sectors needed for `size` bytes. */
  function BytesToSectors(size: nat): nat {
    (size + 511) / 512
  }

  // ---------- little-endian words ----------

  function Word(b: seq<byte>, at: nat): nat
    requires at + 4 <= |b|
  {
    b[at] as nat + 256 * b[at + 1] as nat + 65536 * b[at + 2] as nat + 16777216 * b[at + 3] as nat
  }

  function WordByte(x: nat, i: nat): byte
    requires x < WORD_LIMIT && i < 4
  {
    if i == 0 then (x % 256) as byte
    else if i == 1 then (x / 256 % 256) as byte
    else if i == 2 then (x / 65536 % 256) as byte
    else (x / 16777216) as byte
  }

  predicate AreWords(ws: seq<nat>) {
    forall i | 0 <= i < |ws| :: ws[i] < WORD_LIMIT
  }

  function EncodeWords(ws: seq<nat>): (b: seq<byte>)
    requires AreWords(ws)
    ensures |b| == 4 * |ws|
  {
    seq(4 * |ws|, i requires 0 <= i < 4 * |ws| => WordByte(ws[i / 4], i % 4))
  }

  lemma WordBytesRoundTrip(x: nat)
    requires x < WORD_LIMIT
    ensures WordByte(x, 0) as nat + 256 * WordByte(x, 1) as nat + 65536 * WordByte(x, 2) as nat
            + 16777216 * WordByte(x, 3) as nat == x
  {
    DivideTwice(x);
    DivideTwice(x / 256);
    LastDigit(x);
    LastDigit(x / 256);
    LastDigit(x / 65536);
  }

  lemma DivideTwice(x: nat)
    ensures x / 256 / 256 == x / 65536
    ensures x / 65536 / 256 == x / 16777216
  {
  }

  lemma LastDigit(x: nat)
    ensures x == x % 256 + 256 * (x / 256)
  {
  }

  lemma EncodedWord(ws: seq<nat>, k: nat)
    requires AreWords(ws) && k < |ws|
    ensures Word(EncodeWords(ws), 4 * k) == ws[k]
  {
    WordBytesRoundTrip(ws[k]);
    var b := EncodeWords(ws);
    hide WordByte;
    forall j | 0 <= j < 4
      ensures b[4 * k + j] == WordByte(ws[k], j)
    {
      assert (4 * k + j) / 4 == k && (4 * k + j) % 4 == j;
    }
  }

  // ---------- index blocks ----------

  /** Entry `i` of the index block stored in `s`. */
  function Ptr(s: Sector, i: nat): nat
    requires i < 128
  {
    Word(s, 4 * i)
  }

  function DecodePtrs(s: Sector): (ps: seq<nat>)
    ensures |ps| == 128
    ensures forall i | 0 <= i < 128 :: ps[i] == Ptr(s, i)
    ensures AreWords(ps)
  {
    seq(128, i requires 0 <= i < 128 => Ptr(s, i))
  }

  lemma EncodedPtr(ps: seq<nat>, i: nat)
    requires |ps| == 128 && AreWords(ps) && i < 128
    ensures Ptr(EncodeWords(ps), i) == ps[i]
  {
    EncodedWord(ps, i);
  }

  lemma ZeroPtr(i: nat)
    requires i < 128
    ensures Ptr(ZeroSector(), i) == 0
  {
  }

  // ---------- on-disk inodes ----------

  datatype InodeDisk = InodeDisk(direct: seq<nat>, indirect: nat, doubly: nat, isDir: bool, length: nat) {
    predicate Valid() {
      && |direct| == 123 && AreWords(direct)
      && indirect < WORD_LIMIT && doubly < WORD_LIMIT && length < WORD_LIMIT
    }
  }

  function InodeWords(d: InodeDisk): (ws: seq<nat>)
    requires d.Valid()
    ensures |ws| == 128 && AreWords(ws)
  {
    d.direct + [d.indirect, d.doubly, if d.isDir then 1 else 0, d.length, INODE_MAGIC]
  }

  function EncodeInode(d: InodeDisk): (s: Sector)
    requires d.Valid()
  {
    EncodeWords(InodeWords(d))
  }

  function DecodeInode(s: Sector): (d: InodeDisk)
    ensures d.Valid()
  {
    var ps := DecodePtrs(s);
    InodeDisk(ps[..123], ps[123], ps[124], s[500] != 0, ps[126])
  }

  lemma EncodedPtrs(ws: seq<nat>)
    requires |ws| == 128 && AreWords(ws)
    ensures DecodePtrs(EncodeWords(ws)) == ws
  {
    hide Ptr, EncodeWords;
    forall i | 0 <= i < 128
      ensures Ptr(EncodeWords(ws), i) == ws[i]
    {
      EncodedPtr(ws, i);
    }
  }

  /** Byte 500 of an inode sector is its `is_dir` flag. */
  lemma EncodedFlag(d: InodeDisk)
    requires d.Valid()
    ensures EncodeInode(d)[500] == if d.isDir then 1 else 0
  {
    var ws := InodeWords(d);
    assert EncodeWords(ws)[4 * 125] == WordByte(ws[125], 0);
  }

  // ---------- where the bytes are ----------

  /** The four bytes from `at` on are `x`, least significant byte first. */
  predicate LittleEndian(b: seq<byte>, at: nat, x: nat) {
    && at + 4 <= |b| && x < 0x1_0000_0000
    && b[at] as nat == x % 256 && b[at + 1] as nat == x / 256 % 256
    && b[at + 2] as nat == x / 65536 % 256 && b[at + 3] as nat == x / 16777216
  }

  /** Word `k` is at byte 4k: so the entries of an index block lie on the disk. */
  lemma WordLayout(ws: seq<nat>, k: nat)
    requires AreWords(ws) && k < |ws|
    ensures LittleEndian(EncodeWords(ws), 4 * k, ws[k])
  {
    var b := EncodeWords(ws);
    forall j | 0 <= j < 4
      ensures b[4 * k + j] == WordByte(ws[k], j)
    {
      hide WordByte;
      assert (4 * k + j) / 4 == k && (4 * k + j) % 4 == j;
    }
    hide EncodeWords;
    assert b[4 * k + 0] == WordByte(ws[k], 0);
  }

  /** struct inode_disk: the pointers first, then the two index blocks, the flag, the length and the magic number. */
  lemma InodeLayout(d: InodeDisk)
    requires d.Valid()
    ensures forall i {:trigger d.direct[i]} | 0 <= i < 123 :: LittleEndian(EncodeInode(d), 4 * i, d.direct[i])
    ensures LittleEndian(EncodeInode(d), 492, d.indirect) && LittleEndian(EncodeInode(d), 496, d.doubly)
    ensures LittleEndian(EncodeInode(d), 500, if d.isDir then 1 else 0)
    ensures LittleEndian(EncodeInode(d), 504, d.length) && LittleEndian(EncodeInode(d), 508, 0x494e_4f44)
  {
    hide EncodeWords, LittleEndian;
    var ws := InodeWords(d);
    forall i {:trigger d.direct[i]} | 0 <= i < 123
      ensures LittleEndian(EncodeInode(d), 4 * i, d.direct[i])
    {
      WordLayout(ws, i);
    }
    WordLayout(ws, 123);
    WordLayout(ws, 124);
    WordLayout(ws, 125);
    WordLayout(ws, 126);
    WordLayout(ws, 127);
  }

  /** What inode_create writes, inode_open reads back. */
  lemma InodeRoundTrip(d: InodeDisk)
    requires d.Valid()
    ensures DecodeInode(EncodeInode(d)) == d
  {
    hide Ptr, EncodeWords, DecodePtrs, AreWords, InodeDisk.Valid;
    EncodedPtrs(InodeWords(d));
    EncodedFlag(d);
    assert InodeWords(d)[..123] == d.direct;
  }
}
