/** The packed bitmap (a3/fs/bitmap.c): bits in 64-bit words, manipulated through masks. */
module Bitmaps {
  import opened Sectors
  import opened FreeSpace

  const ELEM_BITS: nat := 64
  const BITMAP_ERROR: nat := 0xFFFF_FFFF

  // ---------- one word ----------

  function BitMask(j: bv6): bv64 {
    (1 as bv64) << j
  }

  predicate TestWord(w: bv64, j: bv6) {
    w & BitMask(j) != 0
  }

  /** The three ways a mask is applied to a word: bitmap.c:143-168. */
  function MarkWord(w: bv64, j: bv6): bv64 {
    w | BitMask(j)
  }

  function ResetWord(w: bv64, j: bv6): bv64 {
    w & !BitMask(j)
  }

  function FlipWord(w: bv64, j: bv6): bv64 {
    w ^ BitMask(j)
  }

  /** The bits of a last word that are in use (last_mask in bitmap.c:53-56). */
  function KeepLow(w: bv64, j: bv6): bv64 {
    w & (BitMask(j) - 1)
  }

  function KeepAll(w: bv64): bv64 {
    w & !0
  }

  lemma MaskNonzero(j: bv6)
    ensures BitMask(j) != 0
  {
  }

  lemma OrMasked(w: bv64, j: bv6, k: bv6)
    ensures (w | BitMask(j)) & BitMask(k) == if j == k then BitMask(k) else w & BitMask(k)
  {
  }

  lemma NotMasked(w: bv64, j: bv6, k: bv6)
    ensures (w & !BitMask(j)) & BitMask(k) == if j == k then 0 else w & BitMask(k)
  {
  }

  lemma XorMasked(w: bv64, j: bv6, k: bv6)
    ensures (w ^ BitMask(j)) & BitMask(k) == if j != k then w & BitMask(k) else if w & BitMask(k) == 0 then BitMask(k) else 0
  {
  }

  lemma LowMasked(w: bv64, j: bv6, k: bv6)
    ensures (w & (BitMask(j) - 1)) & BitMask(k) == if k < j then w & BitMask(k) else 0
  {
  }

  lemma ZeroMasked(w: bv64)
    ensures 0 & w == 0 && w & !0 == w
  {
  }

  lemma OrBit(w: bv64, j: bv6, k: bv6)
    ensures TestWord(w | BitMask(j), k) <==> j == k || TestWord(w, k)
  {
    hide BitMask;
    MaskNonzero(k);
    OrMasked(w, j, k);
  }

  lemma NotBit(w: bv64, j: bv6, k: bv6)
    ensures TestWord(w & !BitMask(j), k) <==> j != k && TestWord(w, k)
  {
    hide BitMask;
    NotMasked(w, j, k);
  }

  lemma XorBit(w: bv64, j: bv6, k: bv6)
    ensures TestWord(w ^ BitMask(j), k) <==> if j == k then !TestWord(w, k) else TestWord(w, k)
  {
    hide BitMask;
    MaskNonzero(k);
    XorMasked(w, j, k);
  }

  lemma LowBit(w: bv64, j: bv6, k: bv6)
    ensures TestWord(w & (BitMask(j) - 1), k) <==> k < j && TestWord(w, k)
  {
    hide BitMask;
    LowMasked(w, j, k);
  }

  lemma AllBits(w: bv64, k: bv6)
    ensures TestWord(w & !0, k) <==> TestWord(w, k)
  {
    ZeroMasked(w);
  }

  lemma KeepLowBit(w: bv64, j: bv6, k: bv6)
    ensures TestWord(KeepLow(w, j), k) <==> k < j && TestWord(w, k)
  {
    hide TestWord, BitMask;
    LowBit(w, j, k);
  }

  lemma KeepAllBit(w: bv64, k: bv6)
    ensures TestWord(KeepAll(w), k) <==> TestWord(w, k)
  {
    hide TestWord, BitMask;
    AllBits(w, k);
  }

  /** Setting a bit leaves the other bits of the word alone. */
  lemma MarkWordBit(w: bv64, j: bv6, k: bv6)
    ensures TestWord(MarkWord(w, j), k) <==> j == k || TestWord(w, k)
  {
    hide TestWord, BitMask;
    OrBit(w, j, k);
  }

  /** Clearing a bit leaves the other bits of the word alone. */
  lemma ResetWordBit(w: bv64, j: bv6, k: bv6)
    ensures TestWord(ResetWord(w, j), k) <==> j != k && TestWord(w, k)
  {
    hide TestWord, BitMask;
    NotBit(w, j, k);
  }

  /** Toggling a bit leaves the other bits of the word alone. */
  lemma FlipWordBit(w: bv64, j: bv6, k: bv6)
    ensures TestWord(FlipWord(w, j), k) <==> if j == k then !TestWord(w, k) else TestWord(w, k)
  {
    hide TestWord, BitMask;
    XorBit(w, j, k);
  }

  // ---------- an array of words ----------

  /** Number of words for `bitCnt` bits. */
  function ElemCnt(bitCnt: nat): nat {
    (bitCnt + ELEM_BITS - 1) / ELEM_BITS
  }

  /** As many words as the bits need, and no more. */
  lemma LeastWords(bitCnt: nat)
    ensures bitCnt <= 64 * ElemCnt(bitCnt) && (bitCnt > 0 ==> 64 * (ElemCnt(bitCnt) - 1) < bitCnt)
    ensures ElemCnt(0) == 0
  {
  }

  function Offset(i: nat): bv6 {
    (i % 64) as bv6
  }

  lemma Bv6RoundTrip(i: nat)
    requires i < 64
    ensures (i as bv6) as nat == i
  {
  }

  lemma OffsetInjective(i: nat, j: nat)
    ensures Offset(i) == Offset(j) <==> i % 64 == j % 64
    ensures Offset(i) < Offset(j) <==> i % 64 < j % 64
  {
    Bv6RoundTrip(i % 64);
    Bv6RoundTrip(j % 64);
  }

  predicate BitAt(words: seq<bv64>, i: nat)
    requires i < 64 * |words|
  {
    TestWord(words[i / 64], Offset(i))
  }

  /** The boolean sequence the words stand for. */
  function BitsOf(words: seq<bv64>, bitCnt: nat): (bits: seq<bool>)
    requires bitCnt <= 64 * |words|
    ensures |bits| == bitCnt
    ensures forall i | 0 <= i < bitCnt :: bits[i] == BitAt(words, i)
  {
    seq(bitCnt, i requires 0 <= i < bitCnt => BitAt(words, i))
  }

  /** The bits beyond `bitCnt` in the last word are clear. */
  ghost predicate Padded(words: seq<bv64>, bitCnt: nat) {
    && |words| == ElemCnt(bitCnt)
    && forall i {:trigger BitAt(words, i)} | bitCnt <= i < 64 * |words| :: !BitAt(words, i)
  }

  /** A word with only the bits in use of a last word kept (last_mask in bitmap.c:53-56). */
  function MaskLast(w: bv64, bitCnt: nat): bv64 {
    if bitCnt % 64 == 0 then KeepAll(w) else KeepLow(w, Offset(bitCnt))
  }

  /** Masking the last word keeps the bits in use and clears the others. */
  lemma MaskLastBit(w: bv64, bitCnt: nat, i: nat)
    requires ElemCnt(bitCnt) > 0 && i / 64 == ElemCnt(bitCnt) - 1
    ensures TestWord(MaskLast(w, bitCnt), Offset(i)) <==> i < bitCnt && TestWord(w, Offset(i))
  {
    hide TestWord, BitMask, Offset, KeepAll, KeepLow;
    if bitCnt % 64 == 0 {
      KeepAllBit(w, Offset(i));
    } else {
      OffsetInjective(i, bitCnt);
      KeepLowBit(w, Offset(bitCnt), Offset(i));
    }
  }

  lemma WordUpdate(words: seq<bv64>, i: nat, w: bv64, value: bool, bitCnt: nat)
    requires i < bitCnt && Padded(words, bitCnt)
    requires forall k: bv6 {:trigger TestWord(w, k)} :: TestWord(w, k) <==> if k == Offset(i) then value else TestWord(words[i / 64], k)
    ensures Padded(words[i / 64 := w], bitCnt)
    ensures BitsOf(words[i / 64 := w], bitCnt) == BitsOf(words, bitCnt)[i := value]
  {
    hide TestWord, Offset;
    var words' := words[i / 64 := w];
    forall j {:trigger BitAt(words', j)} | 0 <= j < 64 * |words|
      ensures BitAt(words', j) <==> if j == i then value else BitAt(words, j)
    {
      OffsetInjective(i, j);
      if j / 64 == i / 64 {
        assert TestWord(w, Offset(j)) <==> if Offset(j) == Offset(i) then value else TestWord(words[i / 64], Offset(j));
      }
    }
    assert BitsOf(words', bitCnt) == BitsOf(words, bitCnt)[i := value];
  }

  lemma LastWordMasked(words: seq<bv64>, bitCnt: nat)
    requires bitCnt > 0 && |words| == ElemCnt(bitCnt)
    ensures Padded(words[|words| - 1 := MaskLast(words[|words| - 1], bitCnt)], bitCnt)
    ensures BitsOf(words[|words| - 1 := MaskLast(words[|words| - 1], bitCnt)], bitCnt) == BitsOf(words, bitCnt)
  {
    hide TestWord, Offset, MaskLast;
    var last := |words| - 1;
    var words' := words[last := MaskLast(words[last], bitCnt)];
    forall j {:trigger BitAt(words', j)} | 0 <= j < 64 * |words|
      ensures BitAt(words', j) <==> j < bitCnt && BitAt(words, j)
    {
      if j / 64 == last {
        MaskLastBit(words[last], bitCnt, j);
      }
    }
    assert BitsOf(words', bitCnt) == BitsOf(words, bitCnt);
  }

  // ---------- bytes of the words, as written to the free map file ----------

  function ByteOf(w: bv64, k: bv6): bv8 {
    ((w >> (8 * k)) & 0xff) as bv8
  }

  function Join(b: seq<bv8>): bv64
    requires |b| == 8
  {
    (b[0] as bv64) | (b[1] as bv64 << 8) | (b[2] as bv64 << 16) | (b[3] as bv64 << 24)
    | (b[4] as bv64 << 32) | (b[5] as bv64 << 40) | (b[6] as bv64 << 48) | (b[7] as bv64 << 56)
  }

  function SplitWord(w: bv64): (b: seq<bv8>)
    ensures |b| == 8
  {
    [ByteOf(w, 0), ByteOf(w, 1), ByteOf(w, 2), ByteOf(w, 3), ByteOf(w, 4), ByteOf(w, 5), ByteOf(w, 6), ByteOf(w, 7)]
  }

  lemma JoinSplit(w: bv64)
    ensures Join(SplitWord(w)) == w
  {
  }

  function ToByte(b: bv8): byte {
    b as int as byte
  }

  function FromByte(b: byte): bv8 {
    b as int as bv8
  }

  lemma ByteRoundTrip(b: bv8)
    ensures FromByte(ToByte(b)) == b
  {
  }

  /** The memory image of the words: what bitmap_write writes. */
  function Image(words: seq<bv64>): (bytes: seq<byte>)
    ensures |bytes| == 8 * |words|
  {
    seq(8 * |words|, m requires 0 <= m < 8 * |words| => ToByte(SplitWord(words[m / 8])[m % 8]))
  }

  /** What bitmap_read makes of bytes, before it masks the last word. */
  function Words(bytes: seq<byte>): (words: seq<bv64>)
    requires |bytes| % 8 == 0
    ensures |words| == |bytes| / 8
  {
    seq(|bytes| / 8, i requires 0 <= i < |bytes| / 8 =>
      Join(seq(8, k requires 0 <= k < 8 => FromByte(bytes[8 * i + k]))))
  }

  lemma ImageRoundTrip(words: seq<bv64>)
    ensures Words(Image(words)) == words
  {
    hide Join, SplitWord, ToByte, FromByte;
    var bytes := Image(words);
    forall i | 0 <= i < |words|
      ensures Words(bytes)[i] == words[i]
    {
      var b := seq(8, k requires 0 <= k < 8 => FromByte(bytes[8 * i + k]));
      forall k | 0 <= k < 8
        ensures b[k] == SplitWord(words[i])[k]
      {
        assert (8 * i + k) / 8 == i && (8 * i + k) % 8 == k;
        ByteRoundTrip(SplitWord(words[i])[k]);
      }
      assert b == SplitWord(words[i]);
      JoinSplit(words[i]);
    }
  }

  /** Byte `k` of eight. */
  function ByteNo(b: seq<bv8>, k: bv6): bv8
    requires |b| == 8
  {
    if k == 0 then b[0] else if k == 1 then b[1] else if k == 2 then b[2] else if k == 3 then b[3]
    else if k == 4 then b[4] else if k == 5 then b[5] else if k == 6 then b[6] else b[7]
  }

  lemma ByteNoIndex(b: seq<bv8>, k: nat)
    requires |b| == 8 && k < 8
    ensures ByteNo(b, k as bv6) == b[k]
  {
    Bv6Eighth(k);
  }

  lemma JoinedBit(b: seq<bv8>, k: bv6, j: bv6)
    requires |b| == 8 && k < 8 && j < 8
    ensures TestWord(Join(b), 8 * k + j) <==> ByteNo(b, k) & ((1 as bv8) << j) != 0
  {
  }

  lemma Bv6Sum(k: bv6, j: bv6)
    requires k < 8 && j < 8
    ensures (8 * k + j) as nat == 8 * (k as nat) + j as nat
  {
  }

  lemma Bv6Eighth(k: nat)
    requires k < 8
    ensures (k as bv6) < 8 && (k as bv6) as nat == k
  {
  }

  lemma Bv6Place(k: nat, j: nat)
    requires k < 8 && j < 8
    ensures 8 * k + j < 64 && (8 * k + j) as bv6 == 8 * (k as bv6) + (j as bv6)
  {
    Bv6Eighth(k);
    Bv6Eighth(j);
    Bv6Sum(k as bv6, j as bv6);
  }

  /** Bit `j` of byte `k` of the word joined from eight bytes is bit 8k + j of the word. */
  lemma ByteBit(b: seq<bv8>, k: nat, j: nat)
    requires |b| == 8 && k < 8 && j < 8
    ensures 8 * k + j < 64 && (TestWord(Join(b), (8 * k + j) as bv6) <==> b[k] & ((1 as bv8) << (j as bv6)) != 0)
  {
    hide TestWord, Join, ByteNo;
    Bv6Place(k, j);
    Bv6Eighth(k);
    Bv6Eighth(j);
    JoinedBit(b, k as bv6, j as bv6);
    ByteNoIndex(b, k);
  }

  /** Bit `j` of a byte, counted from the least significant one. */
  predicate BitOfByte(b: byte, j: nat)
    requires j < 8
  {
    b as int / [1, 2, 4, 8, 16, 32, 64, 128][j] % 2 == 1
  }

  lemma ByteMask(b: byte, j: bv6)
    requires j < 8
    ensures j as nat < 8 && (FromByte(b) & ((1 as bv8) << j) != 0 <==> BitOfByte(b, j as nat))
  {
  }

  lemma BitOfByteMask(b: byte, j: nat)
    requires j < 8
    ensures FromByte(b) & ((1 as bv8) << (j as bv6)) != 0 <==> BitOfByte(b, j)
  {
    hide FromByte, BitOfByte;
    Bv6Eighth(j);
    ByteMask(b, j as bv6);
  }

  lemma PlaceOfBit(s: nat)
    ensures s % 64 == 8 * (s / 8 % 8) + s % 8 && s / 8 == 8 * (s / 64) + s / 8 % 8
  {
  }

  lemma WordJoined(bytes: seq<byte>, i: nat) returns (b: seq<bv8>)
    requires |bytes| % 8 == 0 && 8 * i < |bytes|
    ensures |b| == 8 && forall m | 0 <= m < 8 :: b[m] == FromByte(bytes[8 * i + m])
    ensures Words(bytes)[i] == Join(b)
  {
    hide Join, FromByte;
    b := seq(8, m requires 0 <= m < 8 => FromByte(bytes[8 * i + m]));
    assert Words(bytes)[i] == Join(b);
  }

  /** What bitmap_read makes of a file: bit s of the bitmap is bit s % 8 of byte s / 8. */
  lemma WordsBit(bytes: seq<byte>, s: nat)
    requires |bytes| % 8 == 0 && s < 8 * |bytes|
    ensures BitAt(Words(bytes), s) <==> BitOfByte(bytes[s / 8], s % 8)
  {
    hide TestWord, Join, FromByte, BitOfByte, Words;
    PlaceOfBit(s);
    var b := WordJoined(bytes, s / 64);
    var k := s / 8 % 8;
    assert b[k] == FromByte(bytes[s / 8]);
    ByteBit(b, k, s % 8);
    BitOfByteMask(bytes[s / 8], s % 8);
  }

  /** `bytes` hold the bits, eight to a byte, the lowest in the least significant place. */
  ghost predicate Packed(bits: seq<bool>, bytes: seq<byte>) {
    |bits| <= 8 * |bytes| && forall s | 0 <= s < |bits| :: bits[s] <==> BitOfByte(bytes[s / 8], s % 8)
  }

  lemma WordsPacked(bytes: seq<byte>, bitCnt: nat)
    requires |bytes| % 8 == 0 && bitCnt <= 8 * |bytes|
    ensures Packed(BitsOf(Words(bytes), bitCnt), bytes)
  {
    hide BitAt, BitOfByte, Words;
    forall s | 0 <= s < bitCnt
      ensures BitsOf(Words(bytes), bitCnt)[s] <==> BitOfByte(bytes[s / 8], s % 8)
    {
      WordsBit(bytes, s);
    }
  }

  /** What bitmap_write stores: the bits in use packed into bytes, and zeros beyond them. */
  lemma ImagePacked(words: seq<bv64>, bitCnt: nat)
    requires Padded(words, bitCnt)
    ensures bitCnt <= 64 * |words| && Packed(BitsOf(words, bitCnt), Image(words))
    ensures forall s | bitCnt <= s < 64 * |words| :: !BitOfByte(Image(words)[s / 8], s % 8)
  {
    hide BitAt, BitOfByte, Words, Image;
    ImageRoundTrip(words);
    WordsPacked(Image(words), bitCnt);
    forall s | bitCnt <= s < 64 * |words|
      ensures !BitOfByte(Image(words)[s / 8], s % 8)
    {
      WordsBit(Image(words), s);
      assert !BitAt(words, s);
    }
  }

  // ---------- runs of bits ----------

  /** `cnt` bits from `i` on are all `value`. */
  ghost predicate Run(bits: seq<bool>, i: nat, cnt: nat, value: bool) {
    i + cnt <= |bits| && forall k | i <= k < i + cnt :: bits[k] == value
  }

  /** `i` is the lowest start at or after `start` of a run of `cnt` bits equal to `value`. */
  ghost predicate FirstRun(bits: seq<bool>, start: nat, cnt: nat, value: bool, i: nat) {
    && start <= i && Run(bits, i, cnt, value)
    && forall j | start <= j < i :: !Run(bits, j, cnt, value)
  }

  /** `bits` with `cnt` bits from `start` on set to `value`. */
  ghost function Filled(bits: seq<bool>, start: nat, cnt: nat, value: bool): (r: seq<bool>)
    requires start + cnt <= |bits|
    ensures |r| == |bits|
    ensures forall i | 0 <= i < |bits| :: r[i] == if start <= i < start + cnt then value else bits[i]
  {
    seq(|bits|, i requires 0 <= i < |bits| => if start <= i < start + cnt then value else bits[i])
  }

  /** A first run of one clear bit is the head of the free list. */
  lemma FirstRunIsFirstFree(bits: seq<bool>, s: nat)
    requires FirstRun(bits, 0, 1, false, s)
    ensures s < |bits| && !bits[s]
    ensures Filled(bits, s, 1, true) == bits[s := true]
    ensures Free(bits) == [s] + Free(bits[s := true])
  {
    forall j | 0 <= j < s
      ensures bits[j]
    {
      assert !Run(bits, j, 1, false);
    }
    FirstFree(bits, s);
  }

  /** Releasing a range leaves sectors outside it in use. */
  lemma MarkedOutside(bits: seq<bool>, nodes: seq<nat>, start: nat, cnt: nat)
    requires Marked(bits, nodes) && start + cnt <= |bits| && forall s | start <= s < start + cnt :: s !in nodes
    ensures Marked(Filled(bits, start, cnt, false), nodes)
  {
    forall i | 0 <= i < |nodes|
      ensures !(start <= nodes[i] < start + cnt)
    {
      assert nodes[i] in nodes;
    }
  }

  /** Releasing one sector. */
  lemma FilledIsClear(bits: seq<bool>, s: nat)
    requires s < |bits|
    ensures Filled(bits, s, 1, false) == Clear(bits, [s])
  {
  }

  lemma RunIffFree(bits: seq<bool>)
    ensures (exists s :: 0 <= s <= |bits| && Run(bits, s, 1, false)) <==> Free(bits) != []
  {
    NoneFree(bits);
    if s :| 0 <= s <= |bits| && Run(bits, s, 1, false) {
      assert !bits[s];
    }
    if j :| 0 <= j < |bits| && !bits[j] {
      assert Run(bits, j, 1, false);
    }
  }

  /** How many of the bits in [lo, hi) equal `value`. */
  ghost function Tally(bits: seq<bool>, lo: nat, hi: nat, value: bool): nat
    requires lo <= hi <= |bits|
  {
    if lo == hi then 0 else Tally(bits, lo, hi - 1, value) + if bits[hi - 1] == value then 1 else 0
  }

  /** The positions in [lo, hi) of bits equal to `value`. */
  ghost function Places(bits: seq<bool>, lo: nat, hi: nat, value: bool): set<nat>
    requires lo <= hi <= |bits|
  {
    set i: nat | lo <= i < hi && bits[i] == value
  }

  lemma OneMorePlace(bits: seq<bool>, lo: nat, hi: nat, value: bool)
    requires lo <= hi < |bits|
    ensures |Places(bits, lo, hi + 1, value)| == |Places(bits, lo, hi, value)| + if bits[hi] == value then 1 else 0
  {
    var s := Places(bits, lo, hi, value);
    if bits[hi] == value {
      assert Places(bits, lo, hi + 1, value) == s + {hi};
    } else {
      assert Places(bits, lo, hi + 1, value) == s;
    }
  }

  /** Counting bits gives the size of a set of positions. */
  lemma {:induction false} TallyIsSize(bits: seq<bool>, lo: nat, hi: nat, value: bool)
    requires lo <= hi <= |bits|
    ensures Tally(bits, lo, hi, value) == |set i: nat | lo <= i < hi && bits[i] == value|
  {
    if lo == hi {
      assert Places(bits, lo, hi, value) == {};
    } else {
      TallyIsSize(bits, lo, hi - 1, value);
      OneMorePlace(bits, lo, hi - 1, value);
    }
    assert Places(bits, lo, hi, value) == set i: nat | lo <= i < hi && bits[i] == value;
  }

  /** Counting the clear bits counts the free list. */
  lemma {:induction false} TallyIsFree(bits: seq<bool>, n: nat)
    requires n <= |bits|
    ensures Tally(bits, 0, n, false) == |FreeBelow(bits, n)|
  {
    if n > 0 {
      TallyIsFree(bits, n - 1);
    }
  }

  class Bitmap {
    const bitCnt: nat
    const words: array<bv64>

    ghost predicate Valid()
      reads this, words
    {
      bitCnt < BITMAP_ERROR && Padded(words[..], bitCnt)
    }

    /** The bits this bitmap stands for. */
    ghost function Bits(): (bits: seq<bool>)
      requires Valid()
      reads this, words
    {
      BitsOf(words[..], bitCnt)
    }

    /** bitmap_create. */
    constructor (bitCnt: nat)
      requires bitCnt < BITMAP_ERROR
      ensures Valid() && fresh(words) && this.bitCnt == bitCnt
      ensures forall i | 0 <= i < bitCnt :: !Bits()[i]
    {
      this.bitCnt := bitCnt;
      words := new bv64[ElemCnt(bitCnt)](_ => 0);
      new;
      forall i | 0 <= i < 64 * words.Length
        ensures !BitAt(words[..], i)
      {
        ZeroMasked(BitMask(Offset(i)));
      }
    }

    method Mark(i: nat)
      requires Valid() && i < bitCnt
      modifies words
      ensures Valid() && Bits() == old(Bits())[i := true]
    {
      hide BitMask, TestWord, Offset, MarkWord, ResetWord, FlipWord;
      var w := MarkWord(words[i / ELEM_BITS], Offset(i));
      forall k: bv6
        ensures TestWord(w, k) <==> if k == Offset(i) then true else TestWord(words[i / 64], k)
      {
        MarkWordBit(words[i / 64], Offset(i), k);
      }
      WordUpdate(words[..], i, w, true, bitCnt);
      words[i / ELEM_BITS] := w;
      assert words[..] == old(words[..])[i / 64 := w];
    }

    method Reset(i: nat)
      requires Valid() && i < bitCnt
      modifies words
      ensures Valid() && Bits() == old(Bits())[i := false]
    {
      hide BitMask, TestWord, Offset, MarkWord, ResetWord, FlipWord;
      var w := ResetWord(words[i / ELEM_BITS], Offset(i));
      forall k: bv6
        ensures TestWord(w, k) <==> if k == Offset(i) then false else TestWord(words[i / 64], k)
      {
        ResetWordBit(words[i / 64], Offset(i), k);
      }
      WordUpdate(words[..], i, w, false, bitCnt);
      words[i / ELEM_BITS] := w;
      assert words[..] == old(words[..])[i / 64 := w];
    }

    method Flip(i: nat)
      requires Valid() && i < bitCnt
      modifies words
      ensures Valid() && Bits() == old(Bits())[i := !old(Bits()[i])]
    {
      hide BitMask, TestWord, Offset, MarkWord, ResetWord, FlipWord;
      var w := FlipWord(words[i / ELEM_BITS], Offset(i));
      forall k: bv6
        ensures TestWord(w, k) <==> if k == Offset(i) then !TestWord(words[i / 64], Offset(i)) else TestWord(words[i / 64], k)
      {
        FlipWordBit(words[i / 64], Offset(i), k);
      }
      WordUpdate(words[..], i, w, !TestWord(words[i / 64], Offset(i)), bitCnt);
      words[i / ELEM_BITS] := w;
      assert words[..] == old(words[..])[i / 64 := w];
    }

    method Set(i: nat, value: bool)
      requires Valid() && i < bitCnt
      modifies words
      ensures Valid() && Bits() == old(Bits())[i := value]
    {
      if value {
        Mark(i);
      } else {
        Reset(i);
      }
    }

    method Test(i: nat) returns (value: bool)
      requires Valid() && i < bitCnt
      ensures value == Bits()[i]
    {
      value := TestWord(words[i / ELEM_BITS], Offset(i));
    }

    method SetMultiple(start: nat, cnt: nat, value: bool)
      requires Valid() && start + cnt <= bitCnt
      modifies words
      ensures Valid() && Bits() == Filled(old(Bits()), start, cnt, value)
    {
      hide BitAt, BitsOf, Padded;
      var i := 0;
      while i < cnt
        invariant i <= cnt && Valid()
        invariant Bits() == Filled(old(Bits()), start, i, value)
      {
        Set(start + i, value);
        i := i + 1;
        assert Bits() == Filled(old(Bits()), start, i, value);
      }
    }

    method Count(start: nat, cnt: nat, value: bool) returns (n: nat)
      requires Valid() && start + cnt <= bitCnt
      ensures n == Tally(Bits(), start, start + cnt, value)
    {
      hide BitAt, BitsOf, Padded;
      n := 0;
      var i := 0;
      while i < cnt
        invariant i <= cnt && n == Tally(Bits(), start, start + i, value)
      {
        var bit := Test(start + i);
        if bit == value {
          n := n + 1;
        }
        i := i + 1;
      }
    }

    method Contains(start: nat, cnt: nat, value: bool) returns (found: bool)
      requires Valid() && start + cnt <= bitCnt
      ensures found <==> !Run(Bits(), start, cnt, !value)
    {
      hide BitAt, BitsOf, Padded;
      var i := 0;
      while i < cnt
        invariant i <= cnt && Run(Bits(), start, i, !value)
      {
        var bit := Test(start + i);
        if bit == value {
          return true;
        }
        i := i + 1;
      }
      return false;
    }

    /** bitmap_scan: first fit. */
    method Scan(start: nat, cnt: nat, value: bool) returns (i: nat)
      requires Valid() && start <= bitCnt
      ensures i == BITMAP_ERROR ==> forall j | start <= j <= bitCnt :: !Run(Bits(), j, cnt, value)
      ensures i != BITMAP_ERROR ==> FirstRun(Bits(), start, cnt, value, i)
    {
      hide BitAt, BitsOf, Padded;
      if cnt <= bitCnt {
        var last := bitCnt - cnt;
        i := start;
        while i <= last
          invariant start <= i && (i <= last + 1 || i == start)
          invariant forall j | start <= j < i :: !Run(Bits(), j, cnt, value)
        {
          var other := Contains(i, cnt, !value);
          if !other {
            return;
          }
          i := i + 1;
        }
      }
      i := BITMAP_ERROR;
    }

    /** bitmap_scan_and_flip: changes exactly the range found. */
    method ScanAndFlip(start: nat, cnt: nat, value: bool) returns (i: nat)
      requires Valid() && start <= bitCnt
      modifies words
      ensures Valid()
      ensures i == BITMAP_ERROR ==>
                Bits() == old(Bits()) && words[..] == old(words[..]) && forall j | start <= j <= bitCnt :: !Run(old(Bits()), j, cnt, value)
      ensures i != BITMAP_ERROR ==>
                FirstRun(old(Bits()), start, cnt, value, i) && Bits() == Filled(old(Bits()), i, cnt, !value)
    {
      hide BitAt, BitsOf, Padded;
      i := Scan(start, cnt, value);
      if i != BITMAP_ERROR {
        SetMultiple(i, cnt, !value);
      }
    }

    /** The words overwritten from a file's bytes, padding bits masked off: bitmap_read. */
    method Load(bytes: seq<byte>)
      requires Valid() && |bytes| == 8 * words.Length
      modifies words
      ensures Valid() && Bits() == BitsOf(Words(bytes), bitCnt)
      ensures Packed(Bits(), bytes)
    {
      hide Words, MaskLast, BitAt, Packed;
      WordsPacked(bytes, bitCnt);
      var loaded := Words(bytes);
      forall i | 0 <= i < words.Length {
        words[i] := loaded[i];
      }
      assert words[..] == loaded;
      if bitCnt > 0 {
        var last := ElemCnt(bitCnt) - 1;
        LastWordMasked(loaded, bitCnt);
        words[last] := MaskLast(words[last], bitCnt);
        assert words[..] == loaded[last := MaskLast(loaded[last], bitCnt)];
      }
    }
  }
}
