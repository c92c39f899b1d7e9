/** Byte-oriented packed columns: a bit-accumulating writer, point reads through
    one unaligned 64-bit load, and a four-value SIMD group kernel, all over one
    little-endian bit stream. */
module LinearPack {
  import opened Bits
  import opened Bytes
  import opened Lanes

  const TAIL_PAD: nat := 10

  function Linear(bits: nat): (l: Layout) { Layout(1, bits, 8) }

  function PackedByteSize(count: nat, bits: nat): (n: nat) { (count * bits + 7) / 8 }

  function ByteSize(count: nat, bits: nat): (n: nat) { PackedByteSize(count, bits) + TAIL_PAD }

  // ----- the writer

  /** The bytes written so far and the pending bits after them are the stream of
      `values`. */
  ghost predicate Streamed(bits: nat, values: seq<nat>, out: seq<Byte>, pending: nat) {
    && bits > 0
    && out == Packed(Linear(bits), values, |out|)
    && (forall t: nat :: Bit(pending, t) == LaneBit(Linear(bits), values, 0, 8 * |out| + t))
  }

  lemma LaneBitOfAppend(bits: nat, values: seq<nat>, v: nat, p: nat)
    requires bits > 0 && v < Pow2(bits)
    ensures
      var start := |values| * bits;
      && (p >= start ==> !LaneBit(Linear(bits), values, 0, p))
      && LaneBit(Linear(bits), values + [v], 0, p)
         == (LaneBit(Linear(bits), values, 0, p) || (p >= start && Bit(v, p - start)))
  {
    hide Bit, Pow2;
    var start, q := |values| * bits, p / bits;
    assert p == q * bits + p % bits;
    if start <= p < start + bits {
      DivMod(|values|, bits, p - start);
    } else if p < start {
      if q >= |values| { MulMonotone(|values|, q, bits); }
    } else {
      if q <= |values| { MulMonotone(q, |values|, bits); }
      NoHighBit(v, bits, p - start);
    }
  }

  lemma NothingStreamed(bits: nat)
    requires bits > 0
    ensures Streamed(bits, [], [], 0)
  {
    hide Bit;
    forall t: nat ensures Bit(0, t) == LaneBit(Linear(bits), [], 0, 0 + t) { BitOfZero(t); }
  }

  /** Or-ing a value in above the pending bits extends the stream by it. */
  lemma AppendValue(bits: nat, values: seq<nat>, v: nat, out: seq<Byte>, pending: nat, pendingBits: nat)
    requires Streamed(bits, values, out, pending) && v < Pow2(bits) && bits <= 57 && pendingBits < 8
    requires 8 * |out| + pendingBits == |values| * bits
    ensures Streamed(bits, values + [v], out, Or(pending, Shl(v, pendingBits, 64)))
  {
    hide Bit, Or, Shl, LaneBit, Pow2, Packed;
    var next := Or(pending, Shl(v, pendingBits, 64));
    forall t: nat ensures Bit(next, t) == LaneBit(Linear(bits), values + [v], 0, 8 * |out| + t) {
      BitOfOr(pending, Shl(v, pendingBits, 64), t);
      BitOfShl(v, pendingBits, 64, t);
      LaneBitOfAppend(bits, values, v, 8 * |out| + t);
      if t >= 64 { NoHighBit(v, bits, t - pendingBits); }
    }
    PackedPrefixOfConcat(Linear(bits), values, [v], |out|);
  }

  /** Moving the low eight pending bits out keeps the stream. */
  lemma EmitByte(bits: nat, values: seq<nat>, out: seq<Byte>, pending: nat)
    requires Streamed(bits, values, out, pending)
    ensures Low(pending, 8) < 256
    ensures Streamed(bits, values, out + [Low(pending, 8)], Shr(pending, 8))
  {
    WordBound();
    var l, n, byte := Linear(bits), |out|, Low(pending, 8);
    assert byte == ChunkAt(l, values, n) by {
      hide Bit, Low, LaneBit, ChunkAt;
      forall t: nat | t < 8 ensures Bit(byte, t) == Bit(ChunkAt(l, values, n), t) {
        BitOfLow(pending, 8, t);
        BitOfChunk(l, values, n, t);
      }
      SameBits(byte, ChunkAt(l, values, n), 8);
    }
    forall t: nat ensures Bit(Shr(pending, 8), t) == LaneBit(l, values, 0, 8 * (n + 1) + t) {
      BitOfShr(pending, 8, t);
    }
  }

  class Writer {
    const bits: nat
    var pending: nat
    var pendingBits: nat
    var count: nat
    var out: seq<Byte>
    var finished: bool
    ghost var values: seq<nat>   // everything appended

    /** Accumulator and bytes hold exactly the appended values' bits. */
    ghost predicate Valid()
      reads this
    {
      && bits <= 57 && pendingBits < 8 && count == |values|
      && (bits > 0 && !finished ==>
            Streamed(bits, values, out, pending) && 8 * |out| + pendingBits == |values| * bits)
      && (bits == 0 ==> pendingBits == 0)
      && (bits == 0 && !finished ==> out == [])
    }

    constructor (bits: nat)
      requires bits <= 57
      ensures Valid() && this.bits == bits && values == [] && !finished
    {
      hide Streamed;
      this.bits, pending, pendingBits, count, out, finished, values := bits, 0, 0, 0, [], false, [];
      new;
      if bits > 0 { NothingStreamed(bits); }
    }

    method Append(value: nat)
      requires Valid() && !finished && value < Pow2(bits)
      modifies this
      ensures Valid() && !finished && values == old(values) + [value]
    {
      hide Streamed, Or, Shl, Shr, Low, Pow2;
      ghost var before := values;
      values := values + [value];
      if bits != 0 {
        AppendValue(bits, before, value, out, pending, pendingBits);
        assert |values| * bits == |before| * bits + bits;
        pending := Or(pending, Shl(value, pendingBits, 64));
        var totalBits := pendingBits + bits;
        while totalBits >= 8
          invariant Streamed(bits, values, out, pending)
          invariant 0 <= totalBits && 8 * |out| + totalBits == |values| * bits
          invariant count == |before| && !finished && values == before + [value]
        {
          EmitByte(bits, values, out, pending);
          out := out + [Low(pending, 8)];
          pending := Shr(pending, 8);
          totalBits := totalBits - 8;
        }
        pendingBits := totalBits;
      }
      count := count + 1;
    }

    /** Flushes the partial byte; a standalone buffer also gets the read pad. */
    method Finish(writeTailPad: bool) returns (written: nat)
      requires Valid() && !finished
      modifies this
      ensures values == old(values) && finished && written == |out|
      ensures out == Encoded(values, bits, writeTailPad)
    {
      hide Streamed, Shr, Low, Packed;
      if pendingBits != 0 {
        EmitByte(bits, values, out, pending);
        out := out + [Low(pending, 8)];
      }
      if bits > 0 { StreamedBytes(bits, values, out, if pendingBits != 0 then Shr(pending, 8) else pending); }
      assert |values| * 0 == 0;
      ghost var packed := out;
      assert packed == Encoded(values, bits, false);
      if writeTailPad {
        for i := 0 to TAIL_PAD
          invariant out == packed + seq(i, k => 0)
          invariant values == old(values)
        {
          out := out + [0];
        }
      }
      finished := true;
      written := |out|;
    }
  }

  lemma StreamedBytes(bits: nat, values: seq<nat>, out: seq<Byte>, pending: nat)
    requires Streamed(bits, values, out, pending)
    ensures out == Packed(Linear(bits), values, |out|)
  {
  }

  /** What a writer leaves behind. */
  function Encoded(values: seq<nat>, bits: nat, pad: bool): (s: seq<Byte>) {
    WordBound();
    (if bits == 0 then [] else Packed(Linear(bits), values, PackedByteSize(|values|, bits)))
    + (if pad then seq(TAIL_PAD, k => 0) else [])
  }

  lemma EncodedSize(values: seq<nat>, bits: nat, pad: bool)
    ensures |Encoded(values, bits, pad)|
         == if pad then ByteSize(|values|, bits) else PackedByteSize(|values|, bits)
  {
    assert |values| * 0 == 0;
  }

  // ----- point reads

  /** n bytes at `at`, little-endian. */
  function Load(s: seq<Byte>, at: nat, n: nat): (w: nat)
    requires at + n <= |s|
    decreases n
  {
    if n == 0 then 0 else s[at] as nat + ShlWide(Load(s, at + 1, n - 1), 8)
  }

  lemma {:induction false} BitOfLoad(s: seq<Byte>, at: nat, n: nat, t: nat)
    requires at + n <= |s|
    ensures Bit(Load(s, at, n), t) == (t < 8 * n && Bit(s[at + t / 8], t % 8))
    decreases n
  {
    hide Bit, ShlWide, Pow2;
    if n == 0 {
      BitOfZero(t);
    } else {
      WordBound();
      BitOfJoin(s[at], Load(s, at + 1, n - 1), 8, t);
      if t >= 8 {
        ByteBefore(t);
        BitOfLoad(s, at + 1, n - 1, t - 8);
      }
    }
  }

  lemma ByteBefore(t: nat)
    requires t >= 8
    ensures (t - 8) / 8 == t / 8 - 1 && (t - 8) % 8 == t % 8
  {
  }

  /** A load wide enough to hold a value at any of eight bit offsets. */
  lemma LoadedValue(s: seq<Byte>, bits: nat, i: nat, n: nat)
    requires 0 < bits && i * bits / 8 + n <= |s| && i * bits % 8 + bits <= 8 * n
    ensures Low(Shr(Load(s, i * bits / 8, n), i * bits % 8), bits) == ValueAt(Linear(bits), s, i)
  {
    hide Bit, Low, Shr, Load, FromBits;
    var word, pos, l := Load(s, i * bits / 8, n), i * bits, Linear(bits);
    var v, w := Low(Shr(word, pos % 8), bits), ValueAt(l, s, i);
    forall t: nat | t < bits ensures Bit(v, t) == Bit(w, t) {
      BitOfLow(Shr(word, pos % 8), bits, t);
      BitOfShr(word, pos % 8, t);
      BitOfLoad(s, pos / 8, n, pos % 8 + t);
      BitOfFromBits(StoredBits(l, s, i), 0, bits, t);
      assert (pos + t) / 8 == pos / 8 + (pos % 8 + t) / 8 && (pos + t) % 8 == (pos % 8 + t) % 8;
    }
    SameBits(v, w, bits);
  }

  function Select64(base: seq<Byte>, idx: nat, bits: nat): (v: nat)
    requires bits <= 57 && (bits > 0 ==> idx * bits / 8 + 8 <= |base|)
  {
    if bits == 0 then 0 else Low(Shr(Load(base, idx * bits / 8, 8), idx * bits % 8), bits)
  }

  /** The 32-bit form narrows the shifted word before masking. */
  function Select32(base: seq<Byte>, idx: nat, bits: nat): (v: nat)
    requires bits <= 32 && (bits > 0 ==> idx * bits / 8 + 8 <= |base|)
  {
    if bits == 0 then 0 else Low(Low(Shr(Load(base, idx * bits / 8, 8), idx * bits % 8), 32), bits)
  }

  lemma SelectIsValueAt(base: seq<Byte>, idx: nat, bits: nat)
    requires 0 < bits && idx * bits / 8 + 8 <= |base|
    ensures bits <= 57 ==> Select64(base, idx, bits) == ValueAt(Linear(bits), base, idx)
    ensures bits <= 32 ==> Select32(base, idx, bits) == ValueAt(Linear(bits), base, idx)
  {
    hide Load, Shr, ValueAt, Low;
    if bits <= 57 { LoadedValue(base, bits, idx, 8); }
    if bits <= 32 { LowOfLow(Shr(Load(base, idx * bits / 8, 8), idx * bits % 8), bits, 32); }
  }

  lemma {:induction false} LowOfLow(x: nat, m: nat, n: nat)
    requires m <= n
    ensures Low(Low(x, n), m) == Low(x, m)
  {
    if m > 0 {
      assert Low(x, n) % 2 == x % 2 && Low(x, n) / 2 == Low(x / 2, n - 1);
      LowOfLow(x / 2, m - 1, n - 1);
    }
  }

  /** A value's 64-bit load ends within seven bytes of the packed data. */
  lemma LoadWithinPad(count: nat, bits: nat, i: nat)
    requires i < count && 0 < bits
    ensures i * bits / 8 + 8 <= PackedByteSize(count, bits) + 7
  {
    MulStep(i, count, bits);
  }

  /** Every appended value is read back, given the pad or seven bytes after it. */
  lemma SelectInvertsWriter(values: seq<nat>, bits: nat, pad: bool, rest: seq<Byte>, i: nat)
    requires bits <= 57 && i < |values| && (pad || |rest| >= 7)
    requires forall k | 0 <= k < |values| :: values[k] < Pow2(bits)
    ensures
      var base := Encoded(values, bits, pad) + rest;
      (bits > 0 ==> i * bits / 8 + 8 <= |base|) && Select64(base, i, bits) == values[i]
  {
    hide Select64, ValueAt, Low, Packed, Pow2, Chunks;
    EncodedSize(values, bits, pad);
    var base := Encoded(values, bits, pad) + rest;
    if bits == 0 {
      ZeroBits(base, i, values[i]);
    } else {
      LoadWithinPad(|values|, bits, i);
      SelectIsValueAt(base, i, bits);
      OneLaneChunks(Linear(bits), |values|);
      var n := PackedByteSize(|values|, bits);
      var after := (if pad then seq(TAIL_PAD, k => 0) else []) + rest;
      assert base == Packed(Linear(bits), values, n) + after;
      ValueAtPacked(Linear(bits), values, n, after, i);
      LowIsIdentity(values[i], bits);
    }
  }

  lemma ZeroBits(base: seq<Byte>, i: nat, v: nat)
    requires v < Pow2(0)
    ensures Select64(base, i, 0) == v
  {
  }

  // ----- the group kernel

  /** A SIMD register: eight bytes zero-extended for narrow widths, else sixteen. */
  function Register(base: seq<Byte>, start: nat, bits: nat): (r: seq<Byte>)
    requires start + (if bits <= 10 then 8 else 16) <= |base|
    ensures |r| == 16
  {
    if bits <= 10 then base[start..start + 8] + seq(8, k => 0) else base[start..start + 16]
  }

  /** Lane v of a group: four shuffled bytes shifted down, for wide values joined
      with the next four, then masked. A shift by 32 yields zero. */
  function GroupLane(base: seq<Byte>, start: nat, phase: nat, bits: nat, v: nat): (r: nat)
    requires 0 < bits < 32 && (phase == 0 || phase == 4) && v < 4
    requires start + GroupBytes(bits) <= |base|
  {
    var offset, shift := (phase + v * bits) / 8, (phase + v * bits) % 8;
    LaneInRegister(phase, bits, v);
    var low := Shr(Load(Register(base, start, bits), offset, 4), shift);
    if bits > 25
    then Low(Or(low, Shl(Load(Register(base, start + 4, bits), offset, 4), 32 - shift, 32)), bits)
    else Low(low, bits)
  }

  /** Bytes a group kernel may touch from its start. */
  function GroupBytes(bits: nat): (n: nat) {
    if bits <= 10 then 8 else if bits <= 25 then 16 else 20
  }

  lemma LaneInRegister(phase: nat, bits: nat, v: nat)
    requires bits < 32 && phase <= 4 && v < 4
    ensures (phase + v * bits) / 8 + 4 <= 16
    ensures bits <= 10 ==> (phase + v * bits) / 8 + 4 <= 8
  {
    assert v * bits <= 3 * bits by { MulMonotone(v, 3, bits); }
  }

  lemma {:induction false} LoadOfRegister(base: seq<Byte>, start: nat, bits: nat, at: nat, n: nat)
    requires start + (if bits <= 10 then 8 else 16) <= |base|
    requires at + n <= (if bits <= 10 then 8 else 16)
    ensures Load(Register(base, start, bits), at, n) == Load(base, start + at, n)
    decreases n
  {
    if n > 0 { LoadOfRegister(base, start, bits, at + 1, n - 1); }
  }

  /** Two adjacent 32-bit loads, joined around a shift, are one 64-bit load. */
  lemma JoinedLoads(base: seq<Byte>, at: nat, shift: nat, bits: nat)
    requires at + 8 <= |base| && shift < 8 && bits <= 32
    ensures Low(Or(Shr(Load(base, at, 4), shift), Shl(Load(base, at + 4, 4), 32 - shift, 32)), bits)
         == Low(Shr(Load(base, at, 8), shift), bits)
  {
    hide Bit, Low, Or, Shr, Shl, Load, Pow2;
    var lo, hi, all := Load(base, at, 4), Load(base, at + 4, 4), Load(base, at, 8);
    var v, w := Low(Or(Shr(lo, shift), Shl(hi, 32 - shift, 32)), bits), Low(Shr(all, shift), bits);
    forall t: nat | t < bits ensures Bit(v, t) == Bit(w, t) {
      BitOfLow(Or(Shr(lo, shift), Shl(hi, 32 - shift, 32)), bits, t);
      BitOfLow(Shr(all, shift), bits, t);
      BitOfOr(Shr(lo, shift), Shl(hi, 32 - shift, 32), t);
      BitOfShr(lo, shift, t);
      BitOfShr(all, shift, t);
      BitOfShl(hi, 32 - shift, 32, t);
      BitOfLoad(base, at, 4, shift + t);
      BitOfLoad(base, at, 8, shift + t);
      if t >= 32 - shift { BitOfLoad(base, at + 4, 4, t - (32 - shift)); }
    }
    SameBits(v, w, bits);
  }

  lemma LoadedAt(s: seq<Byte>, bits: nat, i: nat, n: nat, at: nat, shift: nat)
    requires 0 < bits && at == i * bits / 8 && shift == i * bits % 8 && at + n <= |s| && shift + bits <= 8 * n
    ensures Low(Shr(Load(s, at, n), shift), bits) == ValueAt(Linear(bits), s, i)
  {
    LoadedValue(s, bits, i, n);
  }

  lemma LanePlace(i: nat, start: nat, phase: nat, bits: nat, v: nat)
    requires i * bits == 8 * start + phase
    ensures (i + v) * bits / 8 == start + (phase + v * bits) / 8
    ensures (i + v) * bits % 8 == (phase + v * bits) % 8
  {
    assert (i + v) * bits == i * bits + v * bits;
    WholeBytes(start, phase + v * bits);
  }

  lemma WholeBytes(start: nat, x: nat)
    ensures (8 * start + x) / 8 == start + x / 8 && (8 * start + x) % 8 == x % 8
  {
  }

  /** Each kernel lane is the value the layout puts there. */
  lemma GroupLaneIsValueAt(base: seq<Byte>, i: nat, start: nat, phase: nat, bits: nat, v: nat)
    requires 0 < bits < 32 && (phase == 0 || phase == 4) && v < 4
    requires i * bits == 8 * start + phase && start + GroupBytes(bits) <= |base|
    ensures GroupLane(base, start, phase, bits, v) == ValueAt(Linear(bits), base, i + v)
  {
    hide Load, Shr, Shl, Or, Low, ValueAt, Register, Linear;
    LaneInRegister(phase, bits, v);
    LanePlace(i, start, phase, bits, v);
    LaneAt(base, start, bits, i + v, phase + v * bits);
  }

  /** The value whose bits start x bits past byte `start`. */
  lemma LaneAt(base: seq<Byte>, start: nat, bits: nat, i: nat, x: nat)
    requires 0 < bits < 32 && start + GroupBytes(bits) <= |base|
    requires x / 8 + 4 <= 16 && (bits <= 10 ==> x / 8 + 4 <= 8)
    requires i * bits / 8 == start + x / 8 && i * bits % 8 == x % 8
    ensures
      var low := Shr(Load(Register(base, start, bits), x / 8, 4), x % 8);
      ValueAt(Linear(bits), base, i) ==
      if bits > 25
      then Low(Or(low, Shl(Load(Register(base, start + 4, bits), x / 8, 4), 32 - x % 8, 32)), bits)
      else Low(low, bits)
  {
    hide Load, Shr, Shl, Or, Low, ValueAt, Register, Linear;
    LoadOfRegister(base, start, bits, x / 8, 4);
    if bits > 25 {
      LoadOfRegister(base, start + 4, bits, x / 8, 4);
      JoinedLoads(base, start + x / 8, x % 8, bits);
      LoadedAt(base, bits, i, 8, start + x / 8, x % 8);
    } else {
      LoadedAt(base, bits, i, 4, start + x / 8, x % 8);
    }
  }

  /** A group of four stored values ends within TAIL_PAD bytes of the data. */
  lemma GroupWithinPad(count: nat, bits: nat, i: nat)
    requires 0 < bits < 32 && i + 4 <= count
    ensures i * bits / 8 + GroupBytes(bits) <= ByteSize(count, bits)
  {
    MulMonotone(i + 4, count, bits);
    assert (i + 4) * bits == i * bits + 4 * bits;
  }

  predicate GroupInside(count: nat, bits: nat, i: nat, pad: nat) {
    0 < bits < 32 && i + 4 <= count ==> i * bits / 8 + GroupBytes(bits) <= PackedByteSize(count, bits) + pad
  }

  /** TAIL_PAD is the least pad that keeps every group load inside the buffer. */
  lemma TailPadIsLeast(pad: nat)
    ensures (forall count: nat, bits: nat, i: nat :: GroupInside(count, bits, i, pad)) <==> pad >= TAIL_PAD
  {
    if pad >= TAIL_PAD {
      forall count: nat, bits: nat, i: nat ensures GroupInside(count, bits, i, pad) {
        if 0 < bits < 32 && i + 4 <= count { GroupWithinPad(count, bits, i); }
      }
    } else {
      assert PackedByteSize(4, 11) == 6;
      assert !GroupInside(4, 11, 0, pad);
    }
  }

  /** Values idx .. idx + count of a column. */
  function ReadRange(base: seq<Byte>, idx: nat, count: nat, bits: nat): (values: seq<nat>)
    ensures |values| == count
  {
    seq<nat>(count, (i: int) requires i >= 0 => ValueAt(Linear(bits), base, idx + i))
  }

  lemma ReadRangeStep(base: seq<Byte>, idx: nat, i: nat, bits: nat, more: seq<nat>)
    requires forall v | 0 <= v < |more| :: more[v] == ValueAt(Linear(bits), base, idx + i + v)
    ensures ReadRange(base, idx, i, bits) + more == ReadRange(base, idx, i + |more|, bits)
  {
    hide FromBits;
    var r := ReadRange(base, idx, i + |more|, bits);
    forall k | i <= k < i + |more| ensures r[k] == more[k - i] {
      assert idx + k == idx + i + (k - i);
    }
  }

  /** Four values from one group kernel call. */
  method UnpackGroup(base: seq<Byte>, start: nat, phase: nat, bits: nat, ghost i: nat) returns (values: seq<nat>)
    requires 0 < bits < 32 && (phase == 0 || phase == 4)
    requires i * bits == 8 * start + phase && start + GroupBytes(bits) <= |base|
    ensures |values| == 4 && forall v | 0 <= v < 4 :: values[v] == ValueAt(Linear(bits), base, i + v)
  {
    hide GroupLane, ValueAt;
    values := seq(4, v requires 0 <= v < 4 => GroupLane(base, start, phase, bits, v));
    forall v | 0 <= v < 4 ensures values[v] == ValueAt(Linear(bits), base, i + v) {
      GroupLaneIsValueAt(base, i, start, phase, bits, v);
    }
  }

  /** Groups of four from a byte-aligned index start alternate phases 0 and 4 for
      odd widths and stay at phase 0 for even ones. */
  lemma GroupPhase(idx: nat, i: nat, bits: nat)
    requires idx % 8 == 0 && i % 4 == 0
    ensures
      var phase := if bits % 2 == 0 then 0 else i / 4 % 2 * 4;
      && (idx + i) * bits == 8 * (idx * bits / 8 + i * bits / 8) + phase
      && (idx + i) * bits / 8 == idx * bits / 8 + i * bits / 8
  {
    var a, g := idx / 8, i / 4;
    assert idx * bits == 8 * (a * bits) by { assert idx == 8 * a; }
    assert i * bits == 4 * (g * bits) by { assert i == 4 * g; }
    assert (idx + i) * bits == idx * bits + i * bits;
    ProductParity(g, bits);
    PhaseOf(idx * bits, a * bits, i * bits, g * bits);
  }

  lemma PhaseOf(x: nat, a: nat, y: nat, g: nat)
    requires x == 8 * a && y == 4 * g
    ensures x + y == 8 * (x / 8 + y / 8) + g % 2 * 4
  {
    var h := g / 2;
    assert g == 2 * h + g % 2 && y == 8 * h + g % 2 * 4;
    assert x / 8 == a && y / 8 == h;
  }

  lemma ProductParity(a: nat, b: nat)
    ensures a * b % 2 == if b % 2 == 0 then 0 else a % 2
  {
    var c := a * (b / 2);
    if b % 2 == 0 {
      assert a * b == 2 * c by { assert b == 2 * (b / 2); }
    } else {
      assert a * b == 2 * c + a by { assert b == 2 * (b / 2) + 1; }
      ParityOf(c, a);
    }
  }

  lemma ParityOf(c: nat, a: nat)
    ensures (2 * c + a) % 2 == a % 2
  {
  }

  /** Group i of a range that starts at byte `start`. */
  method UnpackGroupAt(base: seq<Byte>, idx: nat, i: nat, start: nat, bits: nat, ghost total: nat)
    returns (values: seq<nat>)
    requires 0 < bits < 32 && idx % 8 == 0 && i % 4 == 0 && start == idx * bits / 8
    requires idx + i + 4 <= total && ByteSize(total, bits) <= |base|
    ensures |values| == 4 && forall v | 0 <= v < 4 :: values[v] == ValueAt(Linear(bits), base, idx + i + v)
  {
    hide ValueAt, GroupBytes, ByteSize;
    var phase := if bits % 2 == 0 then 0 else i / 4 % 2 * 4;
    GroupPhase(idx, i, bits);
    GroupWithinPad(total, bits, idx + i);
    values := UnpackGroup(base, start + i * bits / 8, phase, bits, idx + i);
  }

  /** Bulk read of up to 128 values from an index that is a multiple of eight. */
  method UnpackBlockBits(base: seq<Byte>, idx: nat, count: nat, bits: nat, ghost total: nat) returns (values: seq<nat>)
    requires 0 < bits < 32 && idx % 8 == 0 && idx + count <= total && ByteSize(total, bits) <= |base|
    ensures values == ReadRange(base, idx, count, bits)
  {
    hide ValueAt, ReadRange, GroupBytes, ByteSize, Select32;
    var start := idx * bits / 8;
    var i := 0;
    values := [];
    assert values == ReadRange(base, idx, 0, bits) by { EmptyRange(base, idx, bits); }
    while i + 4 <= count
      invariant i % 4 == 0 && i <= count
      invariant values == ReadRange(base, idx, i, bits)
    {
      var group := UnpackGroupAt(base, idx, i, start, bits, total);
      ReadRangeStep(base, idx, i, bits, group);
      values := values + group;
      i := i + 4;
    }
    values := FinishRange(base, idx, count, bits, total, i, values);
  }

  lemma EmptyRange(base: seq<Byte>, idx: nat, bits: nat)
    ensures ReadRange(base, idx, 0, bits) == []
  {
  }

  /** The values left over after whole groups, one point read each. */
  method FinishRange(base: seq<Byte>, idx: nat, count: nat, bits: nat, ghost total: nat, from: nat, done: seq<nat>)
    returns (values: seq<nat>)
    requires 0 < bits <= 32 && idx + count <= total && ByteSize(total, bits) <= |base|
    requires from <= count && done == ReadRange(base, idx, from, bits)
    ensures values == ReadRange(base, idx, count, bits)
  {
    hide ValueAt, ReadRange, Select32;
    values := done;
    for i := from to count
      invariant values == ReadRange(base, idx, i, bits)
    {
      LoadWithinPad(total, bits, idx + i);
      SelectIsValueAt(base, idx + i, bits);
      ReadRangeStep(base, idx, i, bits, [Select32(base, idx + i, bits)]);
      values := values + [Select32(base, idx + i, bits)];
    }
  }

  /** Full-width columns are copied eight values at a time. */
  method UnpackBlock32(base: seq<Byte>, idx: nat, count: nat, ghost total: nat) returns (values: seq<nat>)
    requires idx % 8 == 0 && idx + count <= total && ByteSize(total, 32) <= |base|
    ensures values == ReadRange(base, idx, count, 32)
  {
    hide ValueAt, ReadRange, Load;
    var start := idx * 32 / 8;
    var i := 0;
    values := [];
    assert values == ReadRange(base, idx, 0, 32) by { EmptyRange(base, idx, 32); }
    while i + 8 <= count
      invariant i <= count
      invariant values == ReadRange(base, idx, i, 32)
    {
      var group := seq(8, v requires 0 <= v < 8 => Load(base, start + 4 * (i + v), 4));
      forall v | 0 <= v < 8 ensures group[v] == ValueAt(Linear(32), base, idx + i + v) {
        WordLoad(base, idx + i + v);
      }
      ReadRangeStep(base, idx, i, 32, group);
      values := values + group;
      i := i + 8;
    }
    values := FinishRange(base, idx, count, 32, total, i, values);
  }

  lemma WordLoad(base: seq<Byte>, i: nat)
    requires 4 * i + 4 <= |base|
    ensures Load(base, 4 * i, 4) == ValueAt(Linear(32), base, i)
  {
    assert i * 32 / 8 == 4 * i && i * 32 % 8 == 0;
    LoadedValue(base, 32, i, 4);
    LoadBelow(base, 4 * i, 4);
    LowIsIdentity(Load(base, 4 * i, 4), 32);
  }

  lemma {:induction false} LoadBelow(s: seq<Byte>, at: nat, n: nat)
    requires at + n <= |s|
    ensures Load(s, at, n) < Pow2(8 * n)
    decreases n
  {
    if n > 0 {
      LoadBelow(s, at + 1, n - 1);
      WordBound();
      JoinBelow(s[at], Load(s, at + 1, n - 1), 8, 8 * (n - 1));
    }
  }

  lemma {:induction false} JoinBelow(x: nat, y: nat, k: nat, m: nat)
    requires x < Pow2(k) && y < Pow2(m)
    ensures x + ShlWide(y, k) < Pow2(k + m)
    decreases k
  {
    if k > 0 { JoinBelow(x / 2, y, k - 1, m); }
  }

  /** The group kernel agrees with point reads at every index. */
  lemma KernelAgreesWithSelect(base: seq<Byte>, idx: nat, count: nat, bits: nat, i: nat)
    requires 0 < bits <= 32 && i < count && (idx + i) * bits / 8 + 8 <= |base|
    ensures ReadRange(base, idx, count, bits)[i] == Select32(base, idx + i, bits)
  {
    SelectIsValueAt(base, idx + i, bits);
  }
}
