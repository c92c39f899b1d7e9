/** Frame-of-reference numeric codec: residuals of one width in full 128-value
    SIMD blocks and a compact tail of the same lane layout, read in bulk or by
    index. */
module SimdFor {
  import opened Bits
  import opened Bytes
  import opened Lanes
  import opened PForWidth
  import opened BitPacker

  // ----- the stored form

  /** Words of a partial block of `len` values: whole rows of four lanes. */
  function TailWords(len: nat, bits: nat): (n: nat) {
    4 * (((len + 3) / 4 * bits + 31) / 32)
  }

  function ByteSize(count: nat, bits: nat): (n: nat) {
    if bits == 0 then 0
    else count / 128 * (16 * bits) + (if count % 128 != 0 then 4 * TailWords(count % 128, bits) else 0)
  }

  function Stored(residuals: seq<nat>, bits: nat): (words: seq<nat>)
    requires bits > 0
    ensures forall k | 0 <= k < |words| :: words[k] < Pow2(32)
  {
    if |residuals| >= 128
    then Packed(Simd(bits), residuals[..128], 4 * bits) + Stored(residuals[128..], bits)
    else Packed(Simd(bits), residuals, TailWords(|residuals|, bits))
  }

  lemma {:induction false} StoredSize(residuals: seq<nat>, bits: nat)
    requires bits > 0
    ensures 4 * |Stored(residuals, bits)| == ByteSize(|residuals|, bits)
  {
    hide Packed, Pow2;
    if |residuals| >= 128 {
      StoredSize(residuals[128..], bits);
      var n := |residuals| - 128;
      assert (n + 128) / 128 == n / 128 + 1 && (n + 128) % 128 == n % 128;
      assert (n / 128 + 1) * (16 * bits) == n / 128 * (16 * bits) + 16 * bits;
    } else {
      assert |residuals| / 128 * (16 * bits) == 0;
    }
  }

  function Subtracted(values: seq<nat>, minval: nat): (r: seq<nat>)
    ensures |r| == |values|
  {
    seq(|values|, i requires 0 <= i < |values| => Sub32(values[i], minval))
  }

  // ----- the compact tail, written with shifts and ors

  /** Where value i of a 4-lane stream goes: bit `off` of word 4 * first + lane. */
  datatype Slot = Slot(lane: nat, first: nat, off: nat)

  function SlotOf(i: nat, bits: nat): (s: Slot) {
    Slot(i % 4, i / 4 * bits / 32, i / 4 * bits % 32)
  }

  /** Where value i starts in its lane. */
  ghost function StartOf(i: nat, bits: nat): (p: nat) { i / 4 * bits }

  /** The value that bit p of a lane belongs to. */
  ghost function OwnerOf(p: nat, bits: nat, lane: nat): (i: nat)
    requires bits > 0
  {
    p / bits * 4 + lane
  }

  lemma SlotStart(i: nat, bits: nat)
    ensures
      var s := SlotOf(i, bits);
      s.lane == i % 4 && s.off < 32 && 32 * s.first + s.off == StartOf(i, bits)
  {
  }

  /** Adding value i sets exactly its own bits of its lane. */
  lemma LaneBitStep(values: seq<nat>, bits: nat, i: nat, lane: nat, p: nat)
    requires 0 < bits && i < |values| && lane < 4 && values[i] < Pow2(bits)
    ensures
      var start := StartOf(i, bits);
      LaneBit(Simd(bits), values[..i + 1], lane, p)
      == (LaneBit(Simd(bits), values[..i], lane, p) || (lane == i % 4 && p >= start && Bit(values[i], p - start)))
  {
    hide Bit, Pow2, LaneBit, StartOf, OwnerOf;
    var start := StartOf(i, bits);
    OwnerOfPosition(bits, i, lane, p);
    PrefixLaneBit(values, i + 1, bits, lane, p);
    PrefixLaneBit(values, i, bits, lane, p);
    if lane == i % 4 && start + bits <= p { NoHighBit(values[i], bits, p - start); }
  }

  lemma PrefixLaneBit(values: seq<nat>, n: nat, bits: nat, lane: nat, p: nat)
    requires 0 < bits && n <= |values| && lane < 4
    ensures
      var owner := OwnerOf(p, bits, lane);
      LaneBit(Simd(bits), values[..n], lane, p) == (owner < n && Bit(values[owner], p % bits))
  {
    hide Bit;
  }

  /** Position p of a lane belongs to value i exactly within its `bits` bits. */
  lemma OwnerOfPosition(bits: nat, i: nat, lane: nat, p: nat)
    requires 0 < bits && lane < 4
    ensures OwnerOf(p, bits, lane) == i <==> lane == i % 4 && StartOf(i, bits) <= p < StartOf(i, bits) + bits
    ensures OwnerOf(p, bits, lane) == i ==> p % bits == p - StartOf(i, bits)
  {
    var start, q := i / 4 * bits, p / bits;
    assert p == q * bits + p % bits;
    if lane == i % 4 && start <= p < start + bits { DivMod(i / 4, bits, p - start); }
  }

  lemma BitOfSimdChunk(values: seq<nat>, bits: nat, k: nat, t: nat)
    requires bits > 0 && t < 32
    ensures Bit(ChunkAt(Simd(bits), values, k), t) == LaneBit(Simd(bits), values, k % 4, 32 * (k / 4) + t)
  {
    hide Bit, FromBits, LaneBit;
    BitOfFromBits(LaneBits(Simd(bits), values, k % 4), k / 4 * 32, 32, t);
  }

  /** What or-ing value i in does to word k. */
  function TailWord(word: nat, v: nat, slot: Slot, bits: nat, k: nat): (w: nat)
    requires slot.off < 32
  {
    if k == 4 * slot.first + slot.lane then Or(word, Shl(v, slot.off, 32))
    else if slot.off + bits > 32 && k == 4 * (slot.first + 1) + slot.lane then Or(word, Shr(v, 32 - slot.off))
    else word
  }

  lemma BitOfTailWord(word: nat, v: nat, slot: Slot, bits: nat, k: nat, t: nat)
    requires 0 < bits <= 32 && slot.off < 32 && slot.lane < 4 && v < Pow2(bits) && t < 32
    ensures
      var start, p := 32 * slot.first + slot.off, 32 * (k / 4) + t;
      Bit(TailWord(word, v, slot, bits, k), t)
      == (Bit(word, t) || (k % 4 == slot.lane && p >= start && Bit(v, p - start)))
  {
    hide Bit, Shl, Shr, Or, Pow2;
    var start, p := 32 * slot.first + slot.off, 32 * (k / 4) + t;
    if k == 4 * slot.first + slot.lane {
      BitOfOr(word, Shl(v, slot.off, 32), t);
      BitOfShl(v, slot.off, 32, t);
    } else if slot.off + bits > 32 && k == 4 * (slot.first + 1) + slot.lane {
      BitOfOr(word, Shr(v, 32 - slot.off), t);
      BitOfShr(v, 32 - slot.off, t);
    } else if k % 4 == slot.lane && p >= start {
      assert p - start >= bits;
      NoHighBit(v, bits, p - start);
    }
  }

  lemma TailWordBelow(word: nat, v: nat, slot: Slot, bits: nat, k: nat)
    requires 0 < bits <= 32 && slot.off < 32 && v < Pow2(bits) && word < Pow2(32)
    ensures TailWord(word, v, slot, bits, k) < Pow2(32)
  {
    hide Or, Shr;
    var n := 32 - slot.off;
    OrBelow(word, Shl(v, slot.off, 32), 32);
    Pow2Monotone(bits, n + 32);
    ShrBelow(v, n, 32);
    OrBelow(word, Shr(v, n), 32);
  }

  lemma TailStep(values: seq<nat>, bits: nat, i: nat, k: nat)
    requires 0 < bits <= 32 && i < |values| && values[i] < Pow2(bits)
    ensures ChunkAt(Simd(bits), values[..i + 1], k)
         == TailWord(ChunkAt(Simd(bits), values[..i], k), values[i], SlotOf(i, bits), bits, k)
  {
    hide Bit, ChunkAt, LaneBit, TailWord, SlotOf, StartOf;
    var old_, new_ := ChunkAt(Simd(bits), values[..i], k), ChunkAt(Simd(bits), values[..i + 1], k);
    var slot := SlotOf(i, bits);
    SlotStart(i, bits);
    var word := TailWord(old_, values[i], slot, bits, k);
    TailWordBelow(old_, values[i], slot, bits, k);
    forall t: nat | t < 32 ensures Bit(new_, t) == Bit(word, t) {
      BitOfSimdChunk(values[..i], bits, k, t);
      BitOfSimdChunk(values[..i + 1], bits, k, t);
      LaneBitStep(values, bits, i, k % 4, 32 * (k / 4) + t);
      BitOfTailWord(old_, values[i], slot, bits, k, t);
    }
    SameBits(new_, word, 32);
  }

  method PackTail(residuals: seq<nat>, bits: nat) returns (out: array<nat>)
    requires 0 < bits <= 32 && Fits(residuals, bits)
    ensures fresh(out) && out[..] == Packed(Simd(bits), residuals, TailWords(|residuals|, bits))
  {
    hide ChunkAt, TailWords, Or, Shl, Shr, Pow2, Packed;
    var words := TailWords(|residuals|, bits);
    out := new nat[words](i => 0);
    ghost var none := residuals[..0];
    forall k | 0 <= k < words ensures out[k] == ChunkAt(Simd(bits), none, k) { EmptyChunk(bits, k); }
    for i := 0 to |residuals|
      invariant forall k | 0 <= k < words :: out[k] == ChunkAt(Simd(bits), residuals[..i], k)
    {
      var slot := SlotOf(i, bits);
      var v := residuals[i];
      SlotInTail(|residuals|, bits, i);
      forall k | 0 <= k < words
        ensures ChunkAt(Simd(bits), residuals[..i + 1], k) == TailWord(out[k], v, slot, bits, k)
      {
        TailStep(residuals, bits, i, k);
      }
      var k := 4 * slot.first + slot.lane;
      out[k] := Or(out[k], Shl(v, slot.off, 32));
      if slot.off + bits > 32 {
        out[k + 4] := Or(out[k + 4], Shr(v, 32 - slot.off));
      }
    }
    assert residuals[..|residuals|] == residuals;
    forall k | 0 <= k < words ensures out[k] == Packed(Simd(bits), residuals, words)[k] {
      PackedAt(Simd(bits), residuals, words, k);
    }
  }

  lemma NoLaneBit(bits: nat, lane: nat, p: nat)
    ensures !LaneBit(Simd(bits), [], lane, p)
  {
  }

  lemma EmptyChunk(bits: nat, k: nat)
    requires bits > 0
    ensures ChunkAt(Simd(bits), [], k) == 0
  {
    hide Bit, ChunkAt, LaneBit;
    forall t: nat | t < 32 ensures Bit(ChunkAt(Simd(bits), [], k), t) == Bit(0, t) {
      BitOfSimdChunk([], bits, k, t);
      NoLaneBit(bits, k % 4, 32 * (k / 4) + t);
      BitOfZero(t);
    }
    SameBits(ChunkAt(Simd(bits), [], k), 0, 32);
  }

  lemma TailWordsIsChunks(len: nat, bits: nat)
    requires bits > 0
    ensures TailWords(len, bits) == Chunks(Simd(bits), len)
  {
  }

  /** Both words a value may touch lie inside the tail. */
  lemma SlotInTail(len: nat, bits: nat, i: nat)
    requires 0 < bits <= 32 && i < len
    ensures
      var slot := SlotOf(i, bits);
      && slot.off < 32
      && 4 * slot.first + slot.lane < TailWords(len, bits)
      && (slot.off + bits > 32 ==> 4 * (slot.first + 1) + slot.lane < TailWords(len, bits))
  {
    TailWordsIsChunks(len, bits);
    ChunkInStream(Simd(bits), len, i, 0);
    ChunkInStream(Simd(bits), len, i, bits - 1);
    var start := i / 4 * bits;
    assert SlotOf(i, bits).off + bits > 32 ==> (start + bits - 1) / 32 == start / 32 + 1;
  }

  // ----- reading one value

  /** The words value `slot` of a block touches are present. */
  predicate Readable(words: seq<nat>, i: nat, bits: nat) {
    var s := SlotOf(i, bits);
    && s.off < 32
    && 4 * s.first + s.lane < |words|
    && (s.off + bits > 32 ==> 4 * (s.first + 1) + s.lane < |words|)
  }

  /** One value by shifts and a mask, joining two words when it straddles them. */
  function ReadSlot(words: seq<nat>, i: nat, bits: nat): (v: nat)
    requires bits <= 32 && Readable(words, i, bits)
  {
    var s := SlotOf(i, bits);
    var firstpart := Shr(words[4 * s.first + s.lane], s.off);
    if s.off + bits > 32
    then Low(Or(firstpart, Shl(words[4 * (s.first + 1) + s.lane], 32 - s.off, 32)), bits)
    else Low(firstpart, bits)
  }

  lemma BitOfReadSlot(words: seq<nat>, i: nat, bits: nat, t: nat)
    requires 0 < bits <= 32 && Readable(words, i, bits) && t < bits
    requires forall k | 0 <= k < |words| :: words[k] < Pow2(32)
    ensures Bit(ReadSlot(words, i, bits), t) == StoredBit(Simd(bits), words, i, t)
  {
    hide Bit, Shl, Shr, Or, Low, Pow2;
    var s := SlotOf(i, bits);
    var w0 := words[4 * s.first + s.lane];
    var start := i / 4 * bits;
    assert start == 32 * s.first + s.off;
    assert if s.off + t < 32 then (start + t) / 32 == s.first && (start + t) % 32 == s.off + t
           else (start + t) / 32 == s.first + 1 && (start + t) % 32 == s.off + t - 32;
    BitOfShr(w0, s.off, t);
    if s.off + t >= 32 { NoHighBit(w0, 32, s.off + t); }
    if s.off + bits > 32 {
      var w1 := words[4 * (s.first + 1) + s.lane];
      BitOfShl(w1, 32 - s.off, 32, t);
      BitOfOr(Shr(w0, s.off), Shl(w1, 32 - s.off, 32), t);
      BitOfLow(Or(Shr(w0, s.off), Shl(w1, 32 - s.off, 32)), bits, t);
    } else {
      BitOfLow(Shr(w0, s.off), bits, t);
    }
  }

  /** The shift-and-mask read is the layout's value. */
  lemma ReadSlotIsValueAt(words: seq<nat>, i: nat, bits: nat)
    requires 0 < bits <= 32 && Readable(words, i, bits)
    requires forall k | 0 <= k < |words| :: words[k] < Pow2(32)
    ensures ReadSlot(words, i, bits) == ValueAt(Simd(bits), words, i)
  {
    hide Bit, StoredBit, FromBits;
    var v, w := ReadSlot(words, i, bits), ValueAt(Simd(bits), words, i);
    forall t: nat | t < bits ensures Bit(v, t) == Bit(w, t) {
      BitOfReadSlot(words, i, bits, t);
      BitOfFromBits(StoredBits(Simd(bits), words, i), 0, bits, t);
    }
    SameBits(v, w, bits);
  }

  method UnpackTail(words: seq<nat>, len: nat, bits: nat) returns (out: seq<nat>)
    requires 0 < bits <= 32 && TailWords(len, bits) <= |words|
    requires forall k | 0 <= k < |words| :: words[k] < Pow2(32)
    ensures out == Unpacked(Simd(bits), words, len)
  {
    hide ValueAt, ReadSlot, Pow2, TailWords;
    out := [];
    for i := 0 to len
      invariant out == Unpacked(Simd(bits), words, i)
    {
      SlotInTail(len, bits, i);
      ReadSlotIsValueAt(words, i, bits);
      out := out + [ReadSlot(words, i, bits)];
    }
  }

  // ----- whole sequences

  /** Values (less minval) packed at `bits` bits; full blocks by the SIMD kernel. */
  method EncodeWithMeta(values: seq<nat>, minval: nat, bits: nat) returns (out: seq<nat>)
    requires bits <= 32 && Fits(Subtracted(values, minval), bits)
    ensures out == if bits == 0 then [] else Stored(Subtracted(values, minval), bits)
    ensures 4 * |out| == ByteSize(|values|, bits)
  {
    hide Packed, TailWords, Sub32, Pow2, Stored, ByteSize, Subtracted, Fits;
    out := [];
    ghost var all := Subtracted(values, minval);
    if bits == 0 {
      NoBits(|values|);
      return;
    }
    StoredSize(all, bits);
    var k := 0;
    assert all[0..] == all;
    while k + 128 <= |values|
      invariant k <= |values|
      invariant Stored(all, bits) == out + Stored(all[k..], bits)
    {
      var block := Subtracted(values[k..k + 128], minval);
      SubtractedSlice(values, minval, k, k + 128, bits);
      StoredStep(all, k, bits);
      out := out + SimdPackNoMask(block, bits);
      k := k + 128;
    }
    var tail := Subtracted(values[k..], minval);
    SubtractedSlice(values, minval, k, |values|, bits);
    assert values[k..] == values[k..|values|] && all[k..] == all[k..|values|];
    if k < |values| {
      StoredTail(tail, bits);
      var words := PackTail(tail, bits);
      out := out + words[..];
    } else {
      NoTail(bits);
    }
  }

  lemma NoBits(count: nat)
    ensures ByteSize(count, 0) == 0
  {
  }

  lemma NoTail(bits: nat)
    requires bits > 0
    ensures Stored([], bits) == []
  {
    hide Stored;
    StoredSize([], bits);
    assert 0 / 128 * (16 * bits) == 0;
  }

  lemma SubtractedSlice(values: seq<nat>, minval: nat, a: nat, b: nat, bits: nat)
    requires a <= b <= |values| && Fits(Subtracted(values, minval), bits)
    ensures Subtracted(values[a..b], minval) == Subtracted(values, minval)[a..b]
    ensures Fits(Subtracted(values[a..b], minval), bits)
  {
    hide Sub32, Pow2;
  }

  lemma StoredStep(all: seq<nat>, k: nat, bits: nat)
    requires bits > 0 && k + 128 <= |all|
    ensures Stored(all[k..], bits) == Packed(Simd(bits), all[k..k + 128], 4 * bits) + Stored(all[k + 128..], bits)
  {
    hide Packed;
    assert all[k..][..128] == all[k..k + 128] && all[k..][128..] == all[k + 128..];
  }

  lemma StoredTail(tail: seq<nat>, bits: nat)
    requires bits > 0 && |tail| < 128
    ensures Stored(tail, bits) == Packed(Simd(bits), tail, TailWords(|tail|, bits))
  {
    hide Packed, TailWords;
  }

  /** All residuals of a stream, whatever words follow it. */
  ghost function AllDecoded(words: seq<nat>, count: nat, bits: nat): (r: seq<nat>)
    ensures |r| == count
    decreases count
  {
    if count >= 128
    then Unpacked(Simd(bits), words, 128)
         + AllDecoded(if 4 * bits <= |words| then words[4 * bits..] else [], count - 128, bits)
    else Unpacked(Simd(bits), words, count)
  }

  lemma ByteSizeStep(count: nat, bits: nat)
    requires count >= 128
    ensures ByteSize(count, bits) == 16 * bits + ByteSize(count - 128, bits)
  {
    hide TailWords;
    var n := count - 128;
    assert (n + 128) / 128 == n / 128 + 1 && (n + 128) % 128 == n % 128;
    assert (n / 128 + 1) * (16 * bits) == n / 128 * (16 * bits) + 16 * bits;
  }

  lemma ByteSizeTail(count: nat, bits: nat)
    requires count < 128
    ensures ByteSize(count, bits) == if bits == 0 || count == 0 then 0 else 4 * TailWords(count, bits)
  {
    hide TailWords;
    assert count / 128 * (16 * bits) == 0;
  }

  lemma FullBlockRead(words: seq<nat>, at: nat, bits: nat)
    requires at + 4 * bits <= |words|
    ensures SimdUnpack(words[at..at + 4 * bits], bits) == Unpacked(Simd(bits), words[at..], 128)
  {
    assert words[at..at + 4 * bits] == words[at..][..4 * bits];
    if bits > 0 { SimdUnpackPrefix(words[at..], bits); }
  }

  lemma NothingStored(words: seq<nat>, count: nat)
    ensures Unpacked(Simd(0), words, count) == seq(count, i => 0)
  {
  }

  lemma DecodeStep(words: seq<nat>, at: nat, count: nat, bits: nat)
    requires at + 4 * bits <= |words| && count >= 128
    ensures AllDecoded(words[at..], count, bits)
      == Unpacked(Simd(bits), words[at..], 128) + AllDecoded(words[at + 4 * bits..], count - 128, bits)
  {
    assert words[at..][4 * bits..] == words[at + 4 * bits..];
  }

  lemma DecodeTail(words: seq<nat>, count: nat, bits: nat)
    requires count < 128
    ensures AllDecoded(words, count, bits) == Unpacked(Simd(bits), words, count)
    ensures count == 0 ==> AllDecoded(words, count, bits) == []
  {
  }

  /** Bulk decode; returns the words it read. */
  method DecodeWithMeta(words: seq<nat>, count: nat, bits: nat) returns (out: seq<nat>, read: nat)
    requires bits <= 32 && ByteSize(count, bits) <= 4 * |words|
    requires forall k | 0 <= k < |words| :: words[k] < Pow2(32)
    ensures out == AllDecoded(words, count, bits)
    ensures 4 * read == ByteSize(count, bits)
  {
    hide ValueAt, TailWords, Pow2, SimdUnpack, ByteSize, AllDecoded, Unpacked;
    out, read := [], 0;
    var k := 0;
    assert words[0..] == words;
    while k + 128 <= count
      invariant k <= count && read <= |words|
      invariant 4 * read + ByteSize(count - k, bits) == ByteSize(count, bits)
      invariant AllDecoded(words, count, bits) == out + AllDecoded(words[read..], count - k, bits)
    {
      ByteSizeStep(count - k, bits);
      FullBlockRead(words, read, bits);
      DecodeStep(words, read, count - k, bits);
      out := out + SimdUnpack(words[read..read + 4 * bits], bits);
      read := read + 4 * bits;
      k := k + 128;
    }
    var rem := count - k;
    ByteSizeTail(rem, bits);
    DecodeTail(words[read..], rem, bits);
    if k < count {
      if bits == 0 {
        NothingStored(words[read..], rem);
        out := out + seq(rem, i => 0);
      } else {
        var tail := UnpackTail(words[read..], rem, bits);
        out := out + tail;
        read := read + TailWords(rem, bits);
      }
    }
  }

  // ----- bulk decode and random access agree with what was encoded

  lemma BlockRoundTrip(residuals: seq<nat>, bits: nat, n: nat, rest: seq<nat>)
    requires 0 < bits && |residuals| <= 128 && Fits(residuals, bits) && Chunks(Simd(bits), |residuals|) <= n
    ensures Unpacked(Simd(bits), Packed(Simd(bits), residuals, n) + rest, |residuals|) == residuals
  {
    hide Packed, Low, Pow2, Chunks;
    UnpackInvertsPack(Simd(bits), residuals, n, rest);
    forall i | 0 <= i < |residuals| ensures Low(residuals[i], bits) == residuals[i] {
      LowIsIdentity(residuals[i], bits);
    }
  }

  lemma {:induction false} DecodeInvertsStore(residuals: seq<nat>, bits: nat, rest: seq<nat>)
    requires 0 < bits && Fits(residuals, bits)
    ensures AllDecoded(Stored(residuals, bits) + rest, |residuals|, bits) == residuals
    decreases |residuals|
  {
    hide Packed, Pow2, Unpacked, Chunks, TailWords;
    if |residuals| >= 128 {
      var first, others := Packed(Simd(bits), residuals[..128], 4 * bits), Stored(residuals[128..], bits) + rest;
      assert Stored(residuals, bits) + rest == first + others;
      LaneLengthIsChunks(128, bits);
      FullBlock(bits);
      BlockRoundTrip(residuals[..128], bits, 4 * bits, others);
      DecodeInvertsStore(residuals[128..], bits, rest);
      assert (first + others)[4 * bits..] == others;
    } else {
      TailWordsIsChunks(|residuals|, bits);
      BlockRoundTrip(residuals, bits, TailWords(|residuals|, bits), rest);
    }
  }

  /** Words from the block of `index` on. */
  function FromBlock(words: seq<nat>, index: nat, bits: nat): (w: seq<nat>) {
    if index / 128 * 4 * bits <= |words| then words[index / 128 * 4 * bits..] else []
  }

  predicate Selectable(words: seq<nat>, index: nat, bits: nat) {
    bits == 0 || Readable(FromBlock(words, index, bits), index % 128, bits)
  }

  /** Random access: the value at `index`, from one or two words. */
  function SelectWithMeta(words: seq<nat>, index: nat, minval: nat, bits: nat): (v: nat)
    requires bits <= 32 && Selectable(words, index, bits)
  {
    if bits == 0 then minval
    else
      var block, slot := FromBlock(words, index, bits), index % 128;
      var lane, bitsInLane := slot % 4, slot / 4 * bits;
      var firstWord, secondWord := bitsInLane / 32, (bitsInLane + bits - 1) / 32;
      var firstPart := Shr(block[4 * firstWord + lane], bitsInLane % 32);
      if firstWord == secondWord then Add32(minval, Low(firstPart, bits))
      else
        var secondPart := block[4 * firstWord + 4 + lane];
        Add32(minval, Low(Or(firstPart, Shl(secondPart, 32 - bitsInLane % 32, 32)), bits))
  }

  lemma SelectIsReadSlot(words: seq<nat>, index: nat, minval: nat, bits: nat)
    requires 0 < bits <= 32 && Selectable(words, index, bits)
    ensures SelectWithMeta(words, index, minval, bits)
         == Add32(minval, ReadSlot(FromBlock(words, index, bits), index % 128, bits))
  {
    hide Add32, Low, Or, Shl, Shr, FromBlock;
    var start := index % 128 / 4 * bits;
    assert start % 32 + bits > 32 <==> start / 32 != (start + bits - 1) / 32;
  }

  /** The block of `index` is present and holds the residual there. */
  lemma {:induction false} StoredAtIndex(residuals: seq<nat>, bits: nat, rest: seq<nat>, index: nat)
    requires 0 < bits <= 32 && Fits(residuals, bits) && index < |residuals|
    requires forall k | 0 <= k < |rest| :: rest[k] < Pow2(32)
    ensures
      var words := Stored(residuals, bits) + rest;
      Selectable(words, index, bits) && ReadSlot(FromBlock(words, index, bits), index % 128, bits) == residuals[index]
    decreases index
  {
    hide Packed, Pow2, ReadSlot, Readable, TailWords, FromBlock, Stored;
    var words := Stored(residuals, bits) + rest;
    if index >= 128 {
      StoredAtIndex(residuals[128..], bits, rest, index - 128);
      NextStored(residuals, bits, rest);
      FromNextBlock(words, index, bits);
    } else {
      FromFirstBlock(words, index, bits);
      FirstBlockRead(residuals, bits, rest, index);
    }
  }

  lemma NextStored(residuals: seq<nat>, bits: nat, rest: seq<nat>)
    requires bits > 0 && |residuals| >= 128
    ensures
      var words := Stored(residuals, bits) + rest;
      4 * bits <= |words| && words[4 * bits..] == Stored(residuals[128..], bits) + rest
  {
    hide Packed, Pow2;
  }

  lemma FromFirstBlock(words: seq<nat>, index: nat, bits: nat)
    requires index < 128
    ensures FromBlock(words, index, bits) == words && index % 128 == index
  {
    assert index / 128 * 4 * bits == 0;
  }

  lemma FromNextBlock(words: seq<nat>, index: nat, bits: nat)
    requires index >= 128 && 4 * bits <= |words|
    ensures FromBlock(words, index, bits) == FromBlock(words[4 * bits..], index - 128, bits)
    ensures index % 128 == (index - 128) % 128
  {
    var q := index / 128;
    assert (index - 128) / 128 == q - 1;
    assert q * 4 * bits == (q - 1) * 4 * bits + 4 * bits;
  }

  lemma FirstBlockRead(residuals: seq<nat>, bits: nat, rest: seq<nat>, index: nat)
    requires 0 < bits <= 32 && Fits(residuals, bits) && index < |residuals| && index < 128
    requires forall k | 0 <= k < |rest| :: rest[k] < Pow2(32)
    ensures
      var words := Stored(residuals, bits) + rest;
      Readable(words, index, bits) && ReadSlot(words, index, bits) == residuals[index]
  {
    hide Packed, Pow2, ReadSlot, Unpacked, Chunks, TailWords, SlotOf;
    var words := Stored(residuals, bits) + rest;
    var block := if |residuals| >= 128 then residuals[..128] else residuals;
    var n := TailWords(|block|, bits);
    if |residuals| >= 128 {
      TailWordsIsChunks(128, bits);
      LaneLengthIsChunks(128, bits);
      FullBlock(bits);
      assert words == Packed(Simd(bits), block, n) + (Stored(residuals[128..], bits) + rest);
      BlockRoundTrip(block, bits, n, Stored(residuals[128..], bits) + rest);
    } else {
      TailWordsIsChunks(|residuals|, bits);
      BlockRoundTrip(block, bits, n, rest);
    }
    SlotInTail(|block|, bits, index);
    ReadSlotIsValueAt(words, index, bits);
    UnpackedAt(Simd(bits), words, |block|, index);
  }

  lemma UnpackedAt(l: Layout, words: seq<nat>, count: nat, i: nat)
    requires i < count
    ensures Unpacked(l, words, count)[i] == ValueAt(l, words, i)
  {
  }

  /** Every value comes back by index, across full blocks and the tail. */
  lemma SelectReturnsValue(values: seq<nat>, minval: nat, bits: nat, rest: seq<nat>, index: nat)
    requires bits <= 32 && minval < 0x1_0000_0000 && index < |values|
    requires forall i | 0 <= i < |values| :: values[i] < 0x1_0000_0000
    requires Fits(Subtracted(values, minval), bits)
    requires forall k | 0 <= k < |rest| :: rest[k] < Pow2(32)
    ensures
      var words := (if bits == 0 then [] else Stored(Subtracted(values, minval), bits)) + rest;
      Selectable(words, index, bits) && SelectWithMeta(words, index, minval, bits) == values[index]
  {
    var r := Subtracted(values, minval);
    AddBack(minval, values[index]);
    if bits == 0 {
      assert r[index] < Pow2(0);
    } else {
      hide Stored, SelectWithMeta, Add32, Sub32, Pow2, Selectable, ReadSlot;
      StoredAtIndex(r, bits, rest, index);
      SelectIsReadSlot(Stored(r, bits) + rest, index, minval, bits);
    }
  }

  lemma AddBack(minval: nat, v: nat)
    requires minval < 0x1_0000_0000 && v < 0x1_0000_0000
    ensures Add32(minval, Sub32(v, minval)) == v && Add32(Sub32(v, minval), minval) == v
  {
  }

  // ----- the self-describing form: minimum and maximum up front

  ghost predicate IsRange(values: seq<nat>, m: nat, top: nat) {
    && m <= top < 0x1_0000_0000
    && (forall i | 0 <= i < |values| :: m <= values[i] <= top)
  }

  /** The width of the range holds every residual. */
  lemma RangeWidthFits(values: seq<nat>, m: nat, top: nat)
    requires IsRange(values, m, top)
    ensures BitWidth(top - m) <= 32 && Fits(Subtracted(values, m), BitWidth(top - m))
  {
    hide Pow2, BitWidth;
    WordBound();
    WidthIsLeast(top - m, 32);
    WidthIsLeast(top - m, BitWidth(top - m));
    forall i | 0 <= i < |values| ensures Sub32(values[i], m) == values[i] - m {
    }
  }

  ghost function StoredBlock(values: seq<nat>, m: nat, top: nat): (words: seq<nat>)
    requires IsRange(values, m, top)
  {
    var bits := BitWidth(top - m);
    [m, top] + (if bits == 0 then [] else Stored(Subtracted(values, m), bits))
  }

  lemma ByteSizeGrows(count: nat, a: nat, b: nat)
    requires a <= b
    ensures ByteSize(count, a) <= ByteSize(count, b)
  {
    hide TailWords;
    ProductGrows(count / 128, 16 * a, 16 * b);
    TailWordsGrow(count % 128, a, b);
  }

  lemma TailWordsGrow(len: nat, a: nat, b: nat)
    requires a <= b
    ensures TailWords(len, a) <= TailWords(len, b)
  {
    ProductGrows((len + 3) / 4, a, b);
    CeilGrows((len + 3) / 4 * a, (len + 3) / 4 * b);
  }

  lemma CeilGrows(x: nat, y: nat)
    requires x <= y
    ensures (x + 31) / 32 <= (y + 31) / 32
  {
  }

  lemma ProductGrows(n: nat, a: nat, b: nat)
    requires a <= b
    ensures n * a <= n * b
  {
    assert n * (b - a) >= 0;
  }

  /** No width that holds every residual gives a smaller block. */
  lemma BlockIsSmallest(values: seq<nat>, m: nat, top: nat, width: nat)
    requires IsRange(values, m, top) && top in values && Fits(Subtracted(values, m), width)
    ensures 4 * |StoredBlock(values, m, top)| <= 8 + ByteSize(|values|, width)
  {
    var i :| 0 <= i < |values| && values[i] == top;
    assert Subtracted(values, m)[i] == top - m;
    WidthIsLeast(top - m, width);
    var bits := BitWidth(top - m);
    hide Stored, BitWidth, Pow2, ByteSize;
    if bits > 0 { StoredSize(Subtracted(values, m), bits); }
    ByteSizeGrows(|values|, bits, width);
  }

  method EncodeBlock(values: seq<nat>) returns (out: seq<nat>, ghost m: nat, ghost top: nat)
    requires forall i | 0 <= i < |values| :: values[i] < 0x1_0000_0000
    ensures values == [] ==> out == []
    ensures values != [] ==> m in values && top in values
    ensures values != [] ==> IsRange(values, m, top) && out == StoredBlock(values, m, top)
  {
    m, top := 0, 0;
    if |values| == 0 { return [], 0, 0; }
    hide Subtracted, Stored, BitWidth, Pow2;
    var lo, hi := values[0], values[0];
    for i := 1 to |values|
      invariant lo <= hi < 0x1_0000_0000 && lo in values && hi in values
      invariant forall j | 0 <= j < i :: lo <= values[j] <= hi
    {
      lo := if values[i] < lo then values[i] else lo;
      hi := if values[i] > hi then values[i] else hi;
    }
    m, top := lo, hi;
    RangeWidthFits(values, lo, hi);
    var inner := EncodeWithMeta(values, lo, BitWidth(hi - lo));
    out := [lo, hi] + inner;
  }

  /** Values of a self-describing block. */
  ghost function DecodedBlock(words: seq<nat>, count: nat): (values: seq<nat>)
    requires |words| >= 2 && words[0] <= words[1]
    ensures |values| == count
  {
    var r := AllDecoded(words[2..], count, BitWidth(words[1] - words[0]));
    seq(count, i requires 0 <= i < count => Add32(r[i], words[0]))
  }

  method DecodeBlock(words: seq<nat>, count: nat) returns (out: seq<nat>, read: nat)
    requires count > 0 ==>
      && |words| >= 2 && words[0] <= words[1] && BitWidth(words[1] - words[0]) <= 32
      && ByteSize(count, BitWidth(words[1] - words[0])) <= 4 * |words[2..]|
    requires forall k | 0 <= k < |words| :: words[k] < Pow2(32)
    ensures count == 0 ==> out == [] && read == 0
    ensures count > 0 ==> out == DecodedBlock(words, count)
    ensures count > 0 ==> read == ByteSize(count, BitWidth(words[1] - words[0])) + 8
  {
    if count == 0 { return [], 0; }
    hide BitWidth, ByteSize, Pow2, AllDecoded;
    var m, b := words[0], BitWidth(words[1] - words[0]);
    var residuals, inner := DecodeWithMeta(words[2..], count, b);
    out := [];
    for i := 0 to count
      invariant |out| == i && forall j | 0 <= j < i :: out[j] == Add32(residuals[j], m)
    {
      out := out + [Add32(residuals[i], m)];
    }
    read := 4 * inner + 8;
  }

  lemma {:induction false} ZeroWidthDecode(words: seq<nat>, count: nat)
    ensures forall i | 0 <= i < count :: AllDecoded(words, count, 0)[i] == 0
    decreases count
  {
    NothingStored(words, count);
    if count >= 128 {
      NothingStored(words, 128);
      ZeroWidthDecode(words[0..], count - 128);
      assert words[0..] == words;
    }
  }

  lemma ResidualsBack(values: seq<nat>, m: nat, top: nat, rest: seq<nat>)
    requires IsRange(values, m, top)
    ensures
      var bits := BitWidth(top - m);
      AllDecoded((StoredBlock(values, m, top) + rest)[2..], |values|, bits) == Subtracted(values, m)
  {
    RangeWidthFits(values, m, top);
    hide Stored, BitWidth, Pow2, Sub32, AllDecoded, IsRange;
    var words, bits, r := StoredBlock(values, m, top) + rest, BitWidth(top - m), Subtracted(values, m);
    assert words[2..] == (if bits == 0 then [] else Stored(r, bits)) + rest;
    if bits == 0 {
      ZeroWidthDecode(words[2..], |values|);
      PowZero();
    } else {
      DecodeInvertsStore(r, bits, rest);
    }
  }

  /** Every non-empty list of values comes back from its self-describing block. */
  lemma BlockDecodeInvertsEncode(values: seq<nat>, m: nat, top: nat, rest: seq<nat>)
    requires IsRange(values, m, top)
    ensures DecodedBlock(StoredBlock(values, m, top) + rest, |values|) == values
  {
    hide StoredBlock, AllDecoded, BitWidth, Subtracted, Add32;
    ResidualsBack(values, m, top, rest);
    BackToValues(values, m);
    BlockHead(values, m, top, rest);
    AddedBack(StoredBlock(values, m, top) + rest, Subtracted(values, m), values);
  }

  lemma BlockHead(values: seq<nat>, m: nat, top: nat, rest: seq<nat>)
    requires IsRange(values, m, top)
    ensures
      var words := StoredBlock(values, m, top) + rest;
      |words| >= 2 && words[0] == m && words[1] == top
  {
    hide Stored, BitWidth;
  }

  lemma AddedBack(words: seq<nat>, r: seq<nat>, values: seq<nat>)
    requires |words| >= 2 && words[0] <= words[1] && |r| == |values|
    requires AllDecoded(words[2..], |values|, BitWidth(words[1] - words[0])) == r
    requires forall i | 0 <= i < |values| :: Add32(r[i], words[0]) == values[i]
    ensures DecodedBlock(words, |values|) == values
  {
    hide BitWidth, Add32, AllDecoded;
  }

  lemma BackToValues(values: seq<nat>, m: nat)
    requires m < 0x1_0000_0000 && forall i | 0 <= i < |values| :: m <= values[i] < 0x1_0000_0000
    ensures forall i | 0 <= i < |values| :: Add32(Subtracted(values, m)[i], m) == values[i]
  {
    hide Add32, Sub32;
    forall i | 0 <= i < |values| ensures Add32(Subtracted(values, m)[i], m) == values[i] {
      AddBack(m, values[i]);
    }
  }

  lemma PowZero()
    ensures Pow2(0) == 1
  {
  }
}
