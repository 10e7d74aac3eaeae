/** The bitmap of lib/kernel/bitmap.c: an array of 32-bit words that simulates an array of bits. */
module Bitmap {
  import opened Common

  const ELEM_BITS: nat := 32

  // ----- single bits of a word -----

  /** `bit_mask`. */
  function BitMask(bitIdx: nat): (m: bv32) {
    (1 as bv32) << (bitIdx % ELEM_BITS)
  }

  // The word operations, named so that proofs can treat them as uninterpreted.
  function Shared(w: bv32, m: bv32): bv32 { w & m }
  predicate Overlap(w: bv32, m: bv32) { Shared(w, m) != 0 }
  function TurnOn(w: bv32, m: bv32): bv32 { w | m }
  function TurnOff(w: bv32, m: bv32): bv32 { w & !m }
  function Toggle(w: bv32, m: bv32): bv32 { w ^ m }

  predicate OneBit(m: bv32) { m != 0 && m & (m - 1) == 0 }

  predicate TestWord(w: bv32, bitIdx: nat) {
    Overlap(w, BitMask(bitIdx))
  }

  lemma {:induction false} MaskIsOneBit(i: nat)
    ensures OneBit(BitMask(i))
  {
  }

  lemma {:induction false} MasksDisjoint(i: nat, j: nat)
    requires i % ELEM_BITS != j % ELEM_BITS
    ensures !Overlap(BitMask(i), BitMask(j))
  {
  }

  lemma {:induction false} OrOwnBit(w: bv32, i: bv32)
    requires OneBit(i)
    ensures Overlap(TurnOn(w, i), i)
  {
    assert (w | i) & i == i;
  }

  lemma {:induction false} OrOtherBits(w: bv32, i: bv32, j: bv32)
    requires !Overlap(i, j)
    ensures Overlap(TurnOn(w, i), j) == Overlap(w, j)
  {
    hide Shared, TurnOn;
    OrKeeps(w, i, j);
  }

  lemma {:induction false} OrKeeps(w: bv32, i: bv32, j: bv32)
    requires Shared(i, j) == 0
    ensures Shared(TurnOn(w, i), j) == Shared(w, j)
  {
  }

  lemma {:induction false} AndBits(w: bv32, i: bv32, j: bv32)
    ensures !Overlap(TurnOff(w, i), i)
    ensures !Overlap(i, j) ==> Overlap(TurnOff(w, i), j) == Overlap(w, j)
  {
  }

  lemma {:induction false} XorBits(w: bv32, i: bv32, j: bv32)
    requires OneBit(i)
    ensures Overlap(Toggle(w, i), i) != Overlap(w, i)
    ensures !Overlap(i, j) ==> Overlap(Toggle(w, i), j) == Overlap(w, j)
  {
  }

  // ----- the bits that an array of words represents -----

  /** `elem_cnt`: the words needed for so many bits. */
  function ElemCnt(bitCnt: nat): (n: nat)
    ensures n * ELEM_BITS >= bitCnt && (n > 0 ==> (n - 1) * ELEM_BITS < bitCnt)
  {
    (bitCnt + ELEM_BITS - 1) / ELEM_BITS
  }

  ghost predicate Holds(words: seq<bv32>, bitCnt: nat) {
    |words| == ElemCnt(bitCnt)
  }

  lemma {:induction false} WordInRange(words: seq<bv32>, bitCnt: nat, idx: nat)
    requires Holds(words, bitCnt) && idx < bitCnt
    ensures idx / ELEM_BITS < |words|
  {
  }

  ghost function Bits(words: seq<bv32>, bitCnt: nat): (s: seq<bool>)
    requires Holds(words, bitCnt)
  {
    seq(bitCnt, i requires 0 <= i < bitCnt => WordInRange(words, bitCnt, i); TestWord(words[i / ELEM_BITS], i))
  }

  ghost predicate SameElsewhere(w: bv32, w': bv32, idx: nat) {
    forall j: nat {:trigger TestWord(w', j)} :: j % ELEM_BITS != idx % ELEM_BITS ==> TestWord(w', j) == TestWord(w, j)
  }

  /** Changing the one bit of a word that stands for `idx` changes that bit and no other. */
  lemma {:induction false} BitChanges(words: seq<bv32>, bitCnt: nat, idx: nat, w: bv32, value: bool)
    requires Holds(words, bitCnt) && idx < bitCnt
    requires idx / ELEM_BITS < |words|
    requires TestWord(w, idx) == value && SameElsewhere(words[idx / ELEM_BITS], w, idx)
    ensures Bits(words[idx / ELEM_BITS := w], bitCnt) == Bits(words, bitCnt)[idx := value]
  {
    hide TestWord, ElemCnt;
    forall j: nat {:trigger Bits(words, bitCnt)[j]} | j < bitCnt
      ensures Bits(words[idx / ELEM_BITS := w], bitCnt)[j] == Bits(words, bitCnt)[idx := value][j]
    {
      WordInRange(words, bitCnt, j);
      if j / ELEM_BITS == idx / ELEM_BITS && j != idx {
        assert j % ELEM_BITS != idx % ELEM_BITS;
      }
    }
  }

  lemma {:induction false} MarkBit(w: bv32, idx: nat)
    ensures TestWord(TurnOn(w, BitMask(idx)), idx) && SameElsewhere(w, TurnOn(w, BitMask(idx)), idx)
  {
    hide BitMask, Overlap, TurnOn, TurnOff, Toggle, OneBit, TestWord;
    MarkTarget(w, idx);
    forall j: nat | j % ELEM_BITS != idx % ELEM_BITS ensures TestWord(TurnOn(w, BitMask(idx)), j) == TestWord(w, j) {
      MarkOther(w, idx, j);
    }
  }

  lemma {:induction false} MarkTarget(w: bv32, idx: nat)
    ensures TestWord(TurnOn(w, BitMask(idx)), idx)
  {
    hide BitMask, Overlap, TurnOn, TurnOff, Toggle, OneBit;
    MaskIsOneBit(idx);
    OrOwnBit(w, BitMask(idx));
  }

  lemma {:induction false} MarkOther(w: bv32, idx: nat, j: nat)
    requires j % ELEM_BITS != idx % ELEM_BITS
    ensures TestWord(TurnOn(w, BitMask(idx)), j) == TestWord(w, j)
  {
    hide BitMask, Overlap, TurnOn, TurnOff, Toggle, OneBit;
    MasksDisjoint(idx, j);
    OrOtherBits(w, BitMask(idx), BitMask(j));
  }

  lemma {:induction false} ResetBit(w: bv32, idx: nat)
    ensures !TestWord(TurnOff(w, BitMask(idx)), idx) && SameElsewhere(w, TurnOff(w, BitMask(idx)), idx)
  {
    hide BitMask, Overlap, TurnOn, TurnOff, Toggle, OneBit, TestWord;
    ResetTarget(w, idx);
    forall j: nat | j % ELEM_BITS != idx % ELEM_BITS ensures TestWord(TurnOff(w, BitMask(idx)), j) == TestWord(w, j) {
      ResetOther(w, idx, j);
    }
  }

  lemma {:induction false} ResetTarget(w: bv32, idx: nat)
    ensures !TestWord(TurnOff(w, BitMask(idx)), idx)
  {
    hide BitMask, Overlap, TurnOn, TurnOff, Toggle, OneBit;
    AndBits(w, BitMask(idx), 0);
  }

  lemma {:induction false} ResetOther(w: bv32, idx: nat, j: nat)
    requires j % ELEM_BITS != idx % ELEM_BITS
    ensures TestWord(TurnOff(w, BitMask(idx)), j) == TestWord(w, j)
  {
    hide BitMask, Overlap, TurnOn, TurnOff, Toggle, OneBit;
    MasksDisjoint(idx, j);
    AndBits(w, BitMask(idx), BitMask(j));
  }

  lemma {:induction false} FlipBit(w: bv32, idx: nat)
    ensures TestWord(Toggle(w, BitMask(idx)), idx) != TestWord(w, idx) && SameElsewhere(w, Toggle(w, BitMask(idx)), idx)
  {
    hide BitMask, Overlap, TurnOn, TurnOff, Toggle, OneBit, TestWord;
    FlipTarget(w, idx);
    forall j: nat | j % ELEM_BITS != idx % ELEM_BITS ensures TestWord(Toggle(w, BitMask(idx)), j) == TestWord(w, j) {
      FlipOther(w, idx, j);
    }
  }

  lemma {:induction false} FlipTarget(w: bv32, idx: nat)
    ensures TestWord(Toggle(w, BitMask(idx)), idx) != TestWord(w, idx)
  {
    hide BitMask, Overlap, TurnOn, TurnOff, Toggle, OneBit;
    MaskIsOneBit(idx);
    XorBits(w, BitMask(idx), 0);
  }

  lemma {:induction false} FlipOther(w: bv32, idx: nat, j: nat)
    requires j % ELEM_BITS != idx % ELEM_BITS
    ensures TestWord(Toggle(w, BitMask(idx)), j) == TestWord(w, j)
  {
    hide BitMask, Overlap, TurnOn, TurnOff, Toggle, OneBit;
    MaskIsOneBit(idx);
    MasksDisjoint(idx, j);
    XorBits(w, BitMask(idx), BitMask(j));
  }

  // ----- the words as bytes of a file -----

  function Low(w: bv32): bv8 { (w & 0xFF) as bv8 }
  function ByteOf(b: bv8): byte { b as int }
  function OfByte(b: byte): bv8 { b as bv8 }

  function Join(a: bv8, b: bv8, c: bv8, d: bv8): bv32 {
    (a as bv32) | ((b as bv32) << 8) | ((c as bv32) << 16) | ((d as bv32) << 24)
  }

  /** Byte `k` of a word in memory, the least significant first. */
  function WordByte(w: bv32, k: nat): (b: byte) {
    ByteOf(if k == 0 then Low(w) else if k == 1 then Low(w >> 8) else if k == 2 then Low(w >> 16) else Low(w >> 24))
  }

  /** The mask of bit `r` of a byte. */
  function ByteMask(r: nat): bv8
    requires r < 8
  {
    match r
    case 0 => 1
    case 1 => 2
    case 2 => 4
    case 3 => 8
    case 4 => 16
    case 5 => 32
    case 6 => 64
    case _ => 128
  }

  /** The mask in byte `q` of a word. */
  function MaskAt(q: nat, m: bv8): bv32 {
    if q == 0 then m as bv32 else if q == 1 then (m as bv32) << 8
    else if q == 2 then (m as bv32) << 16 else (m as bv32) << 24
  }

  predicate Common8(b: bv8, m: bv8) { b & m != 0 }

  lemma {:induction false} MaskParts(i: nat)
    ensures BitMask(i) == MaskAt(i % 32 / 8, ByteMask(i % 8))
  {
    hide ByteMask, BitMask, MaskAt;
    var k, r := i % 32, i % 8;
    assert k == 8 * (k / 8) + r;
    assert k / 8 == 0 || k / 8 == 1 || k / 8 == 2 || k / 8 == 3;
    SameMask(i);
    MaskInByte(r);
  }

  lemma {:induction false} SameMask(i: nat)
    ensures BitMask(i) == BitMask(i % 32)
  {
  }

  lemma {:induction false} MaskInByte(r: nat)
    requires r < 8
    ensures BitMask(r) == MaskAt(0, ByteMask(r)) && BitMask(8 + r) == MaskAt(1, ByteMask(r))
    ensures BitMask(16 + r) == MaskAt(2, ByteMask(r)) && BitMask(24 + r) == MaskAt(3, ByteMask(r))
  {
    hide ByteMask;
    ShiftedMask(r);
    assert r % 32 == r && (8 + r) % 32 == 8 + r && (16 + r) % 32 == 16 + r && (24 + r) % 32 == 24 + r;
  }

  lemma {:induction false} ShiftedMask(r: nat)
    requires r < 8
    ensures (1 as bv32) << r == ByteMask(r) as bv32
    ensures (1 as bv32) << (8 + r) == (ByteMask(r) as bv32) << 8
    ensures (1 as bv32) << (16 + r) == (ByteMask(r) as bv32) << 16
    ensures (1 as bv32) << (24 + r) == (ByteMask(r) as bv32) << 24
  {
    match r
    case 0 =>
    case 1 =>
    case 2 =>
    case 3 =>
    case 4 =>
    case 5 =>
    case 6 =>
    case _ => assert r == 7;
  }

  lemma {:induction false} JoinedLow(a: bv8, b: bv8, c: bv8, d: bv8, m: bv8)
    ensures Overlap(Join(a, b, c, d), MaskAt(0, m)) == Common8(a, m)
    ensures Overlap(Join(a, b, c, d), MaskAt(1, m)) == Common8(b, m)
  {
  }

  lemma {:induction false} JoinedHigh(a: bv8, b: bv8, c: bv8, d: bv8, m: bv8)
    ensures Overlap(Join(a, b, c, d), MaskAt(2, m)) == Common8(c, m)
    ensures Overlap(Join(a, b, c, d), MaskAt(3, m)) == Common8(d, m)
  {
  }

  /** The words as they lie in memory. */
  function MapBytes(words: seq<bv32>): (b: seq<byte>)
    ensures |b| == 4 * |words|
  {
    seq(4 * |words|, k requires 0 <= k < 4 * |words| => WordByte(words[k / 4], k % 4))
  }

  function WordFrom(b: seq<byte>, i: nat): (w: bv32)
    requires 4 * i + 4 <= |b|
  {
    Join(OfByte(b[4 * i]), OfByte(b[4 * i + 1]), OfByte(b[4 * i + 2]), OfByte(b[4 * i + 3]))
  }

  function WordsOf(b: seq<byte>): (words: seq<bv32>)
    ensures |words| == |b| / 4
  {
    seq(|b| / 4, i requires 0 <= i < |b| / 4 => WordFrom(b, i))
  }

  lemma {:induction false} WordBit(b: seq<byte>, k: nat, i: nat)
    requires 4 * k + 4 <= |b|
    ensures TestWord(WordFrom(b, k), i) <==> Common8(OfByte(b[4 * k + i % 32 / 8]), ByteMask(i % 8))
  {
    hide ByteMask, Join, BitMask, OfByte, MaskAt, Overlap, Common8;
    MaskParts(i);
    JoinedLow(OfByte(b[4 * k]), OfByte(b[4 * k + 1]), OfByte(b[4 * k + 2]), OfByte(b[4 * k + 3]), ByteMask(i % 8));
    JoinedHigh(OfByte(b[4 * k]), OfByte(b[4 * k + 1]), OfByte(b[4 * k + 2]), OfByte(b[4 * k + 3]), ByteMask(i % 8));
    var q := i % 32 / 8;
    assert q == 0 || q == 1 || q == 2 || q == 3;
  }

  /** Bit `i` of a map in a file is bit `i % 8` of byte `i / 8`. */
  lemma {:induction false} FileBit(b: seq<byte>, bitCnt: nat, i: nat)
    requires |b| == 4 * ElemCnt(bitCnt) && i < bitCnt
    ensures i / 8 < |b| && (Bits(WordsOf(b), bitCnt)[i] <==> Common8(OfByte(b[i / 8]), ByteMask(i % 8)))
  {
    hide ByteMask, OfByte, TestWord, WordFrom, ElemCnt, Common8;
    WordInRange(WordsOf(b), bitCnt, i);
    WordBit(b, i / 32, i);
    assert 4 * (i / 32) + i % 32 / 8 == i / 8;
  }

  lemma {:induction false} BytesJoin(w: bv32)
    ensures Join(Low(w), Low(w >> 8), Low(w >> 16), Low(w >> 24)) == w
  {
  }

  lemma {:induction false} ByteReadsBack(b: bv8)
    ensures OfByte(ByteOf(b)) == b
  {
  }

  lemma {:induction false} WordReadsBack(b: seq<byte>, w: bv32, i: nat)
    requires 4 * i + 4 <= |b| && forall k | 0 <= k < 4 :: b[4 * i + k] == WordByte(w, k)
    ensures WordFrom(b, i) == w
  {
    hide Low, ByteOf, OfByte, Join;
    ByteReadsBack(Low(w));
    ByteReadsBack(Low(w >> 8));
    ByteReadsBack(Low(w >> 16));
    ByteReadsBack(Low(w >> 24));
    assert b[4 * i + 0] == WordByte(w, 0) && b[4 * i + 1] == WordByte(w, 1);
    assert b[4 * i + 2] == WordByte(w, 2) && b[4 * i + 3] == WordByte(w, 3);
    BytesJoin(w);
  }

  /** When the bytes of a file are written over up to a word boundary, the words up to there are the new
      ones and the others stay. */
  lemma {:induction false} WordsWritten(words: seq<bv32>, b: seq<byte>, n: nat)
    requires |b| == 4 * |words| && n <= |words|
    ensures WordsOf(MapBytes(words)[..4 * n] + b[4 * n..]) == words[..n] + WordsOf(b)[n..]
  {
    hide WordByte, WordFrom;
    var c := MapBytes(words)[..4 * n] + b[4 * n..];
    forall i | 0 <= i < |words| ensures WordsOf(c)[i] == (words[..n] + WordsOf(b)[n..])[i] {
      if i < n {
        forall k | 0 <= k < 4 ensures c[4 * i + k] == WordByte(words[i], k) {
          assert (4 * i + k) / 4 == i && (4 * i + k) % 4 == k;
        }
        WordReadsBack(c, words[i], i);
      } else {
        WordSame(b, c, i);
      }
    }
  }

  lemma {:induction false} WordSame(b: seq<byte>, c: seq<byte>, i: nat)
    requires 4 * i + 4 <= |b| == |c| && c[4 * i..] == b[4 * i..]
    ensures WordFrom(c, i) == WordFrom(b, i)
  {
    hide OfByte, Join;
    var s, t := b[4 * i..], c[4 * i..];
    assert s[0] == t[0] && s[1] == t[1] && s[2] == t[2] && s[3] == t[3];
  }

  /** The bits of a map whose first `n` words come from another. */
  lemma {:induction false} BitsWritten(words: seq<bv32>, old_: seq<bv32>, bitCnt: nat, n: nat)
    requires Holds(words, bitCnt) && Holds(old_, bitCnt) && n <= |words|
    ensures Bits(words[..n] + old_[n..], bitCnt) == Mixed(Bits(words, bitCnt), Bits(old_, bitCnt), n * ELEM_BITS)
  {
    hide TestWord, ElemCnt;
    var l, r := Bits(words[..n] + old_[n..], bitCnt), Mixed(Bits(words, bitCnt), Bits(old_, bitCnt), n * ELEM_BITS);
    forall i: nat {:trigger l[i]} | i < bitCnt ensures l[i] == r[i] {
      WordInRange(words, bitCnt, i);
    }
  }

  /** `s` up to bit `n`, and `t` from there on. */
  ghost function Mixed(s: seq<bool>, t: seq<bool>, n: nat): (r: seq<bool>)
    requires |s| == |t|
    ensures |r| == |s|
  {
    seq(|s|, i requires 0 <= i < |s| => if i < n then s[i] else t[i])
  }

  /** `last_mask`. */
  function LastMask(bitCnt: nat): bv32 {
    if bitCnt % ELEM_BITS == 0 then 0xFFFF_FFFF else BitMask(bitCnt) - 1
  }

  lemma {:induction false} LastMaskKeeps(w: bv32, bitCnt: nat, i: nat)
    requires bitCnt % ELEM_BITS == 0 || i % ELEM_BITS < bitCnt % ELEM_BITS
    ensures TestWord(Shared(w, LastMask(bitCnt)), i) == TestWord(w, i)
  {
    hide BitMask, LastMask, Shared;
    LowBits(bitCnt, i);
    Within(w, LastMask(bitCnt), BitMask(i));
  }

  /** Clearing the unused bits of the last word leaves the map as it is. */
  lemma {:induction false} LastMasked(words: seq<bv32>, bitCnt: nat)
    requires Holds(words, bitCnt) && bitCnt > 0 && |words| > 0
    ensures var last := |words| - 1;
            Bits(words[last := Shared(words[last], LastMask(bitCnt))], bitCnt) == Bits(words, bitCnt)
  {
    hide TestWord, LastMask, Shared;
    var last := |words| - 1;
    var words' := words[last := Shared(words[last], LastMask(bitCnt))];
    forall i: nat {:trigger Bits(words, bitCnt)[i]} | i < bitCnt
      ensures Bits(words', bitCnt)[i] == Bits(words, bitCnt)[i]
    {
      WordInRange(words, bitCnt, i);
      if i / ELEM_BITS == last { LastMaskKeeps(words[last], bitCnt, i); }
    }
  }

  lemma {:induction false} Within(w: bv32, m: bv32, b: bv32)
    requires Shared(m, b) == b
    ensures Shared(Shared(w, m), b) == Shared(w, b)
  {
  }

  lemma {:induction false} LowBits(bitCnt: nat, i: nat)
    requires bitCnt % ELEM_BITS == 0 || i % ELEM_BITS < bitCnt % ELEM_BITS
    ensures Shared(LastMask(bitCnt), BitMask(i)) == BitMask(i)
  {
    hide BitMask, MaskOf;
    if bitCnt % ELEM_BITS == 0 {
      AllOnes(BitMask(i));
    } else {
      MaskByIndex(i);
      MaskByIndex(bitCnt);
      IndexOrder(i % 32, bitCnt % 32);
      LowerBits((bitCnt % 32) as bv5, (i % 32) as bv5);
    }
  }

  lemma {:induction false} AllOnes(w: bv32)
    ensures 0xFFFF_FFFF & w == w
  {
  }

  /** A mask in terms of the index as a machine number. */
  function MaskOf(k: bv5): bv32 { (1 as bv32) << (k as bv32) }

  lemma {:induction false} MaskByIndex(i: nat)
    ensures BitMask(i) == MaskOf((i % 32) as bv5)
  {
    var k := i % 32;
    assert ((k as bv5) as bv32) == k as bv32;
  }

  lemma {:induction false} IndexOrder(i: nat, n: nat)
    requires i < n < 32
    ensures (i as bv5) < (n as bv5)
  {
  }

  lemma {:induction false} LowerBits(n: bv5, k: bv5)
    requires k < n
    ensures (MaskOf(n) - 1) & MaskOf(k) == MaskOf(k)
  {
  }

  // ----- groups of bits -----

  /** The `cnt` bits from `start` on are all `value`. */
  predicate All(s: seq<bool>, start: nat, cnt: nat, value: bool) {
    start + cnt <= |s| && forall i | start <= i < start + cnt :: s[i] == value
  }

  /** `s` with the `cnt` bits from `start` on set to `value`. */
  function Fill(s: seq<bool>, start: nat, cnt: nat, value: bool): (r: seq<bool>)
    requires start + cnt <= |s|
    ensures |r| == |s| && All(r, start, cnt, value)
    ensures forall i | 0 <= i < |s| && !(start <= i < start + cnt) :: r[i] == s[i]
  {
    s[..start] + seq(cnt, _ => value) + s[start + cnt..]
  }

  /** The first group of `cnt` bits at or after `start` that are all `value`, if there is one. */
  ghost predicate IsFirstGroup(s: seq<bool>, start: nat, cnt: nat, value: bool, idx: Option<nat>) {
    match idx
    case Some(i) => start <= i && All(s, i, cnt, value) && forall j | start <= j < i :: !All(s, j, cnt, value)
    case None => forall j: nat | start <= j :: !All(s, j, cnt, value)
  }

  class Map {
    const bitCnt: nat
    const bits: array<bv32>

    ghost predicate Valid()
      reads this
    {
      bits.Length == ElemCnt(bitCnt)
    }

    /** The bits from the outside. */
    ghost function Value(): (s: seq<bool>)
      requires Valid()
      reads this, bits
      ensures |s| == bitCnt
    {
      Bits(bits[..], bitCnt)
    }

    /** `bitmap_create`, when its allocations succeed. */
    constructor (bitCnt: nat)
      ensures Valid() && this.bitCnt == bitCnt && fresh(bits)
      ensures Value() == seq(bitCnt, _ => false)
    {
      this.bitCnt := bitCnt;
      bits := new bv32[ElemCnt(bitCnt)];
      new;
      SetAll(false);
    }

    method Set(idx: nat, value: bool)
      requires Valid() && idx < bitCnt
      modifies bits
      ensures Value() == old(Value())[idx := value]
    {
      hide ElemCnt, Bits;
      if value { Mark(idx); } else { Reset(idx); }
    }

    method Mark(bitIdx: nat)
      requires Valid() && bitIdx < bitCnt
      modifies bits
      ensures Value() == old(Value())[bitIdx := true]
    {
      hide BitMask, Overlap, TurnOn, TurnOff, Toggle, OneBit, TestWord, SameElsewhere, Bits;
      WordInRange(bits[..], bitCnt, bitIdx);
      ghost var words := bits[..];
      var idx := bitIdx / ELEM_BITS;
      MarkBit(bits[idx], bitIdx);
      BitChanges(words, bitCnt, bitIdx, TurnOn(bits[idx], BitMask(bitIdx)), true);
      bits[idx] := TurnOn(bits[idx], BitMask(bitIdx));
      assert bits[..] == words[idx := bits[idx]];
    }

    method Reset(bitIdx: nat)
      requires Valid() && bitIdx < bitCnt
      modifies bits
      ensures Value() == old(Value())[bitIdx := false]
    {
      hide BitMask, Overlap, TurnOn, TurnOff, Toggle, OneBit, TestWord, SameElsewhere, Bits;
      WordInRange(bits[..], bitCnt, bitIdx);
      ghost var words := bits[..];
      var idx := bitIdx / ELEM_BITS;
      ResetBit(bits[idx], bitIdx);
      BitChanges(words, bitCnt, bitIdx, TurnOff(bits[idx], BitMask(bitIdx)), false);
      bits[idx] := TurnOff(bits[idx], BitMask(bitIdx));
      assert bits[..] == words[idx := bits[idx]];
    }

    method Flip(bitIdx: nat)
      requires Valid() && bitIdx < bitCnt
      modifies bits
      ensures Value() == old(Value())[bitIdx := !old(Value())[bitIdx]]
    {
      hide BitMask, Overlap, TurnOn, TurnOff, Toggle, OneBit, TestWord, SameElsewhere, ElemCnt;
      WordInRange(bits[..], bitCnt, bitIdx);
      ghost var words := bits[..];
      var idx := bitIdx / ELEM_BITS;
      FlipBit(bits[idx], bitIdx);
      BitChanges(words, bitCnt, bitIdx, Toggle(bits[idx], BitMask(bitIdx)), !Value()[bitIdx]);
      bits[idx] := Toggle(bits[idx], BitMask(bitIdx));
      assert bits[..] == words[idx := bits[idx]];
    }

    method Test(idx: nat) returns (value: bool)
      requires Valid() && idx < bitCnt
      ensures value == Value()[idx]
    {
      hide BitMask, Overlap, ElemCnt;
      WordInRange(bits[..], bitCnt, idx);
      value := Overlap(bits[idx / ELEM_BITS], BitMask(idx));
    }

    method SetAll(value: bool)
      requires Valid()
      modifies bits
      ensures Value() == seq(bitCnt, _ => value)
    {
      hide ElemCnt, Bits;
      SetMultiple(0, bitCnt, value);
    }

    method SetMultiple(start: nat, cnt: nat, value: bool)
      requires Valid() && start + cnt <= bitCnt
      modifies bits
      ensures Value() == Fill(old(Value()), start, cnt, value)
    {
      hide ElemCnt, Bits;
      for i := 0 to cnt
        invariant All(Value(), start, i, value)
        invariant forall j | 0 <= j < bitCnt && !(start <= j < start + i) :: Value()[j] == old(Value())[j]
      {
        Set(start + i, value);
      }
    }

    /** `bitmap_contains`; `bitmap_any`, `bitmap_none` and `bitmap_all` are calls of it. */
    method Contains(start: nat, cnt: nat, value: bool) returns (found: bool)
      requires Valid() && start + cnt <= bitCnt
      ensures found <==> !All(Value(), start, cnt, !value)
    {
      hide ElemCnt, Bits;
      for i := 0 to cnt
        invariant All(Value(), start, i, !value)
      {
        var bit := Test(start + i);
        if bit == value { return true; }
      }
      return false;
    }

    /** `bitmap_scan`; `None` is BITMAP_ERROR. */
    method Scan(start: nat, cnt: nat, value: bool) returns (idx: Option<nat>)
      requires Valid() && start <= bitCnt
      ensures IsFirstGroup(Value(), start, cnt, value, idx)
    {
      hide ElemCnt, Bits;
      if cnt <= bitCnt {
        var last := bitCnt - cnt;
        var i := start;
        while i <= last
          invariant start <= i
          invariant forall j | start <= j < i :: !All(Value(), j, cnt, value)
        {
          var other := Contains(i, cnt, !value);
          if !other { return Some(i); }
          i := i + 1;
        }
      }
      return None;
    }

    /** `bitmap_scan_and_flip`: the first group is found and flipped, or nothing changes. */
    method ScanAndFlip(start: nat, cnt: nat, value: bool) returns (idx: Option<nat>)
      requires Valid() && start <= bitCnt
      modifies bits
      ensures IsFirstGroup(old(Value()), start, cnt, value, idx)
      ensures Value() == if idx.Some? then Fill(old(Value()), idx.value, cnt, !value) else old(Value())
    {
      hide ElemCnt, Bits;
      idx := Scan(start, cnt, value);
      if idx.Some? { SetMultiple(idx.value, cnt, !value); }
    }

    /** The memory that `bitmap_write` writes to the file. */
    method Bytes() returns (b: seq<byte>)
      ensures b == MapBytes(bits[..])
    {
      return MapBytes(bits[..]);
    }

    /** `bitmap_read` of the bytes that the file holds. */
    method Load(b: seq<byte>)
      requires Valid() && |b| == 4 * ElemCnt(bitCnt)
      modifies bits
      ensures Value() == Bits(WordsOf(b), bitCnt)
    {
      hide TestWord, WordFrom, LastMask, Shared;
      for i := 0 to bits.Length
        invariant forall j | 0 <= j < i :: bits[j] == WordsOf(b)[j]
      {
        bits[i] := WordFrom(b, i);
      }
      if bitCnt > 0 {
        var last := bits.Length - 1;
        assert bits[..] == WordsOf(b);
        LastMasked(bits[..], bitCnt);
        bits[last] := Shared(bits[last], LastMask(bitCnt));
        assert bits[..] == WordsOf(b)[last := bits[last]];
      } else {
        assert bits[..] == WordsOf(b);
      }
    }
  }
}
