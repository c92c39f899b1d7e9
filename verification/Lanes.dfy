/** The bit layout shared by every packed stream of the codecs: values of one
    width dealt round-robin over `lanes` lanes, each lane a little-endian bit
    stream cut into chunks of `chunk` bits, the chunks of the lanes interleaved.
    FastPFOR's SIMD kernels are 4 lanes of 32-bit chunks, its scalar kernels one
    lane of 32-bit chunks, LinearPack one lane of bytes. */
module Lanes {
  import opened Bits

  datatype Layout = Layout(lanes: nat, width: nat, chunk: nat) {
    predicate Valid() { lanes > 0 && width > 0 && chunk > 0 }
  }

  function CeilDiv(a: nat, d: nat): (q: nat)
    requires d > 0
  {
    (a + d - 1) / d
  }

  /** Values held by the longest lane. */
  function Rows(l: Layout, count: nat): (r: nat)
    requires l.Valid()
  {
    CeilDiv(count, l.lanes)
  }

  /** Chunks written for `count` values. */
  function Chunks(l: Layout, count: nat): (n: nat)
    requires l.Valid()
  {
    l.lanes * CeilDiv(Rows(l, count) * l.width, l.chunk)
  }

  /** Bit p of lane `lane`. Slots past the last value are zero. */
  predicate LaneBit(l: Layout, values: seq<nat>, lane: nat, p: nat) {
    l.Valid() &&
    var i := (p / l.width) * l.lanes + lane;
    i < |values| && Bit(values[i], p % l.width)
  }

  function LaneBits(l: Layout, values: seq<nat>, lane: nat): (f: nat -> bool) {
    (p: nat) => LaneBit(l, values, lane, p)
  }

  /** Chunk k of the interleaved stream. */
  function ChunkAt(l: Layout, values: seq<nat>, k: nat): (c: nat)
    requires l.Valid()
    ensures c < Pow2(l.chunk)
  {
    FromBits(LaneBits(l, values, k % l.lanes), k / l.lanes * l.chunk, l.chunk)
  }

  /** The first n chunks of the packed stream of `values`. */
  function Packed(l: Layout, values: seq<nat>, n: nat): (s: seq<nat>)
    requires l.Valid()
    ensures |s| == n
    ensures forall k | 0 <= k < n :: s[k] < Pow2(l.chunk)
  {
    if n == 0 then [] else Packed(l, values, n - 1) + [ChunkAt(l, values, n - 1)]
  }

  lemma {:induction false} PackedAt(l: Layout, values: seq<nat>, n: nat, k: nat)
    requires l.Valid() && k < n
    ensures Packed(l, values, n)[k] == ChunkAt(l, values, k)
  {
    if k < n - 1 { PackedAt(l, values, n - 1, k); }
  }

  lemma {:induction false} PackedPrefix(l: Layout, values: seq<nat>, m: nat, n: nat)
    requires l.Valid() && m <= n
    ensures Packed(l, values, n)[..m] == Packed(l, values, m)
  {
    if m < n {
      PackedPrefix(l, values, m, n - 1);
      assert Packed(l, values, n)[..m] == Packed(l, values, n - 1)[..m];
    }
  }

  /** Position in its lane of bit s of value i. */
  function BitPos(l: Layout, i: nat, s: nat): (p: nat)
    requires l.Valid()
  {
    i / l.lanes * l.width + s
  }

  /** Chunk that holds position p of value i's lane. */
  function ChunkOf(l: Layout, i: nat, p: nat): (k: nat)
    requires l.Valid()
  {
    p / l.chunk * l.lanes + i % l.lanes
  }

  /** Bit s of value i as stored in the stream; zero outside it. */
  predicate StoredBit(l: Layout, stream: seq<nat>, i: nat, s: nat) {
    l.Valid() &&
    var p := BitPos(l, i, s);
    ChunkOf(l, i, p) < |stream| && Bit(stream[ChunkOf(l, i, p)], p % l.chunk)
  }

  function StoredBits(l: Layout, stream: seq<nat>, i: nat): (f: nat -> bool) {
    (s: nat) => StoredBit(l, stream, i, s)
  }

  /** Value i read back from a stream. */
  function ValueAt(l: Layout, stream: seq<nat>, i: nat): (v: nat)
    ensures v < Pow2(l.width)
  {
    FromBits(StoredBits(l, stream, i), 0, l.width)
  }

  function Unpacked(l: Layout, stream: seq<nat>, count: nat): (values: seq<nat>)
    ensures |values| == count
    ensures forall i | 0 <= i < count :: values[i] == ValueAt(l, stream, i)
  {
    seq(count, i requires i >= 0 => ValueAt(l, stream, i))
  }

  // ----- arithmetic of the layout

  lemma DivMod(q: nat, d: nat, r: nat)
    requires r < d
    ensures (q * d + r) / d == q && (q * d + r) % d == r
  {
    var n := q * d + r;
    assert n == n / d * d + n % d;
    if n / d < q { MulStep(n / d, q, d); }
    if n / d > q { MulStep(q, n / d, d); }
  }

  lemma MulStep(a: nat, b: nat, d: nat)
    requires a < b
    ensures a * d + d <= b * d
  {
    assert b * d == (a + 1) * d + (b - a - 1) * d;
  }

  lemma MulMonotone(a: nat, b: nat, d: nat)
    requires a <= b
    ensures a * d <= b * d
  {
    if a < b { MulStep(a, b, d); }
  }

  lemma CeilDivCovers(a: nat, d: nat, p: nat)
    requires d > 0
    ensures p < a ==> p / d < CeilDiv(a, d)
    ensures p / d < CeilDiv(a, d) ==> p / d * d < a
  {
    var q := CeilDiv(a, d);
    assert a + d - 1 == q * d + (a + d - 1) % d;
    assert p == p / d * d + p % d;
    if p / d >= q {
      MulMonotone(q, p / d, d);
    } else {
      MulStep(p / d, q, d);
    }
  }

  /** The chunk holding a value's bit lies inside the stream. */
  lemma ChunkInStream(l: Layout, count: nat, i: nat, s: nat)
    requires l.Valid() && i < count && s < l.width
    ensures ChunkOf(l, i, BitPos(l, i, s)) < Chunks(l, count)
  {
    CeilDivCovers(count, l.lanes, i);
    var rows, p := Rows(l, count), BitPos(l, i, s);
    MulStep(i / l.lanes, rows, l.width);
    CeilDivCovers(rows * l.width, l.chunk, p);
    var cols := CeilDiv(rows * l.width, l.chunk);
    MulStep(p / l.chunk, cols, l.lanes);
  }

  /** What a stream holds at a value's position is that value's bit. */
  lemma LaneBitOfValue(l: Layout, values: seq<nat>, i: nat, s: nat)
    requires l.Valid() && i < |values| && s < l.width
    ensures LaneBit(l, values, i % l.lanes, BitPos(l, i, s)) == Bit(values[i], s)
  {
    DivMod(i / l.lanes, l.width, s);
    assert i == i / l.lanes * l.lanes + i % l.lanes;
  }

  lemma ChunkHoldsLaneBit(l: Layout, values: seq<nat>, lane: nat, p: nat)
    requires l.Valid() && lane < l.lanes
    ensures Bit(ChunkAt(l, values, p / l.chunk * l.lanes + lane), p % l.chunk) == LaneBit(l, values, lane, p)
  {
    hide LaneBit, FromBits, Bit, Pow2;
    DivMod(p / l.chunk, l.lanes, lane);
    BitOfFromBits(LaneBits(l, values, lane), p / l.chunk * l.chunk, l.chunk, p % l.chunk);
    assert p == p / l.chunk * l.chunk + p % l.chunk;
  }

  lemma StoredBitOfPacked(l: Layout, values: seq<nat>, n: nat, rest: seq<nat>, i: nat, s: nat)
    requires l.Valid() && i < |values| && s < l.width && Chunks(l, |values|) <= n
    ensures StoredBit(l, Packed(l, values, n) + rest, i, s) == Bit(values[i], s)
  {
    var p := BitPos(l, i, s);
    ChunkInStream(l, |values|, i, s);
    PackedAt(l, values, n, ChunkOf(l, i, p));
    ChunkHoldsLaneBit(l, values, i % l.lanes, p);
    LaneBitOfValue(l, values, i, s);
  }

  /** Reading a value back keeps exactly its low `width` bits, whatever follows
      the stream. */
  lemma ValueAtPacked(l: Layout, values: seq<nat>, n: nat, rest: seq<nat>, i: nat)
    requires l.Valid() && i < |values| && Chunks(l, |values|) <= n
    ensures ValueAt(l, Packed(l, values, n) + rest, i) == Low(values[i], l.width)
  {
    var stream := Packed(l, values, n) + rest;
    var v := ValueAt(l, stream, i);
    forall s: nat | s < l.width ensures Bit(v, s) == Bit(Low(values[i], l.width), s) {
      BitOfFromBits(StoredBits(l, stream, i), 0, l.width, s);
      StoredBitOfPacked(l, values, n, rest, i, s);
      BitOfLow(values[i], l.width, s);
    }
    SameBits(v, Low(values[i], l.width), l.width);
  }

  /** Packing then unpacking masks every value to the width. */
  lemma UnpackInvertsPack(l: Layout, values: seq<nat>, n: nat, rest: seq<nat>)
    requires l.Valid() && Chunks(l, |values|) <= n
    ensures forall i | 0 <= i < |values| ::
      Unpacked(l, Packed(l, values, n) + rest, |values|)[i] == Low(values[i], l.width)
  {
    forall i: nat | i < |values|
      ensures ValueAt(l, Packed(l, values, n) + rest, i) == Low(values[i], l.width)
    {
      ValueAtPacked(l, values, n, rest, i);
    }
  }

  // ----- one-lane streams: groups, padding, and reads at a group start

  predicate OneLane(l: Layout) { l.Valid() && l.lanes == 1 }

  lemma OneLaneChunks(l: Layout, count: nat)
    requires OneLane(l)
    ensures Chunks(l, count) == CeilDiv(count * l.width, l.chunk)
  {
  }

  /** Bit t of chunk k of a one-lane stream. */
  predicate ChunkBit(l: Layout, values: seq<nat>, k: nat, t: nat) {
    LaneBit(l, values, 0, k * l.chunk + t)
  }

  lemma BitOfChunk(l: Layout, values: seq<nat>, k: nat, t: nat)
    requires OneLane(l) && t < l.chunk
    ensures Bit(ChunkAt(l, values, k), t) == ChunkBit(l, values, k, t)
  {
    assert k % l.lanes == 0 && k / l.lanes == k;
    BitOfFromBits(LaneBits(l, values, 0), k * l.chunk, l.chunk, t);
  }

  lemma SameChunks(l: Layout, a: seq<nat>, b: seq<nat>, ka: nat, kb: nat)
    requires OneLane(l)
    requires forall t: nat | t < l.chunk :: ChunkBit(l, a, ka, t) == ChunkBit(l, b, kb, t)
    ensures ChunkAt(l, a, ka) == ChunkAt(l, b, kb)
  {
    forall t: nat | t < l.chunk ensures Bit(ChunkAt(l, a, ka), t) == Bit(ChunkAt(l, b, kb), t) {
      BitOfChunk(l, a, ka, t);
      BitOfChunk(l, b, kb, t);
    }
    SameBits(ChunkAt(l, a, ka), ChunkAt(l, b, kb), l.chunk);
  }

  lemma ExactDiv(n: nat, d: nat)
    requires d > 0
    ensures CeilDiv(n * d, d) == n
  {
    DivMod(n, d, d - 1);
  }

  lemma LaneBitOfConcat(l: Layout, a: seq<nat>, b: seq<nat>, p: nat)
    requires OneLane(l)
    ensures p < |a| * l.width ==> LaneBit(l, a + b, 0, p) == LaneBit(l, a, 0, p)
    ensures LaneBit(l, a + b, 0, |a| * l.width + p) == LaneBit(l, b, 0, p)
  {
    assert p == p / l.width * l.width + p % l.width;
    if p < |a| * l.width && p / l.width >= |a| { MulMonotone(|a|, p / l.width, l.width); }
    var q := |a| + p / l.width;
    assert |a| * l.width + p == q * l.width + p % l.width;
    DivMod(q, l.width, p % l.width);
  }

  /** A prefix that fills whole chunks packs independently of what follows. */
  lemma {:induction false} PackedConcat(l: Layout, a: seq<nat>, b: seq<nat>, m: nat, n: nat)
    requires OneLane(l) && |a| * l.width == m * l.chunk
    ensures Packed(l, a + b, m + n) == Packed(l, a, m) + Packed(l, b, n)
    decreases n
  {
    hide ChunkBit, LaneBit, ChunkAt;
    if n == 0 {
      PackedPrefixOfConcat(l, a, b, m);
    } else {
      PackedConcat(l, a, b, m, n - 1);
      var k := n - 1;
      forall t: nat | t < l.chunk ensures ChunkBit(l, a + b, m + k, t) == ChunkBit(l, b, k, t) {
        ChunkBitOfConcat(l, a, b, m, k, t);
      }
      SameChunks(l, a + b, b, m + k, k);
    }
  }

  lemma ChunkBitOfConcat(l: Layout, a: seq<nat>, b: seq<nat>, m: nat, k: nat, t: nat)
    requires OneLane(l) && |a| * l.width == m * l.chunk
    ensures ChunkBit(l, a + b, m + k, t) == ChunkBit(l, b, k, t)
  {
    hide LaneBit;
    assert (m + k) * l.chunk == |a| * l.width + k * l.chunk;
    LaneBitOfConcat(l, a, b, k * l.chunk + t);
  }

  /** Chunks filled by the first values do not change as more are appended. */
  lemma {:induction false} PackedPrefixOfConcat(l: Layout, a: seq<nat>, b: seq<nat>, n: nat)
    requires OneLane(l) && n * l.chunk <= |a| * l.width
    ensures Packed(l, a + b, n) == Packed(l, a, n)
    decreases n
  {
    hide LaneBit, ChunkAt;
    if n > 0 {
      var k := n - 1;
      assert k * l.chunk + l.chunk == n * l.chunk;
      PackedPrefixOfConcat(l, a, b, k);
      forall t: nat | t < l.chunk ensures ChunkBit(l, a + b, k, t) == ChunkBit(l, a, k, t) {
        LaneBitOfConcat(l, a, b, k * l.chunk + t);
      }
      SameChunks(l, a + b, a, k, k);
    }
  }

  /** Trailing zero values are indistinguishable from the end of the values. */
  lemma {:induction false} PackedPadding(l: Layout, a: seq<nat>, zeros: seq<nat>, n: nat)
    requires OneLane(l)
    requires forall i | 0 <= i < |zeros| :: zeros[i] == 0
    ensures Packed(l, a + zeros, n) == Packed(l, a, n)
    decreases n
  {
    if n > 0 {
      PackedPadding(l, a, zeros, n - 1);
      var k := n - 1;
      forall t: nat | t < l.chunk ensures ChunkBit(l, a + zeros, k, t) == ChunkBit(l, a, k, t) {
        LaneBitOfPadding(l, a, zeros, k * l.chunk + t);
      }
      SameChunks(l, a + zeros, a, k, k);
    }
  }

  lemma LaneBitOfPadding(l: Layout, a: seq<nat>, zeros: seq<nat>, p: nat)
    requires OneLane(l)
    requires forall i | 0 <= i < |zeros| :: zeros[i] == 0
    ensures LaneBit(l, a + zeros, 0, p) == LaneBit(l, a, 0, p)
  {
    if p / l.width >= |a| { BitOfZero(p % l.width); }
  }

  /** Reading from a chunk boundary reads the values stored from there on. */
  lemma ValueAtGroup(l: Layout, stream: seq<nat>, first: nat, m: nat, i: nat)
    requires OneLane(l) && first * l.width == m * l.chunk && m <= |stream|
    ensures ValueAt(l, stream, first + i) == ValueAt(l, stream[m..], i)
  {
    var v, w := ValueAt(l, stream, first + i), ValueAt(l, stream[m..], i);
    forall s: nat | s < l.width ensures Bit(v, s) == Bit(w, s) {
      BitOfFromBits(StoredBits(l, stream, first + i), 0, l.width, s);
      BitOfFromBits(StoredBits(l, stream[m..], i), 0, l.width, s);
      StoredBitOfGroup(l, stream, first, m, i, s);
    }
    SameBits(v, w, l.width);
  }

  lemma StoredBitOfGroup(l: Layout, stream: seq<nat>, first: nat, m: nat, i: nat, s: nat)
    requires OneLane(l) && first * l.width == m * l.chunk && m <= |stream|
    ensures StoredBit(l, stream, first + i, s) == StoredBit(l, stream[m..], i, s)
  {
    var p := BitPos(l, i, s);
    assert BitPos(l, first + i, s) == m * l.chunk + p;
    assert m * l.chunk + p == (m + p / l.chunk) * l.chunk + p % l.chunk;
    DivMod(m + p / l.chunk, l.chunk, p % l.chunk);
  }

  /** A value's bits all lie in the chunks written for the values up to it, so
      reading it depends on nothing further. */
  lemma ValueAtPrefix(l: Layout, stream: seq<nat>, other: seq<nat>, count: nat, i: nat)
    requires l.Valid() && i < count
    requires Chunks(l, count) <= |stream| && Chunks(l, count) <= |other|
    requires stream[..Chunks(l, count)] == other[..Chunks(l, count)]
    ensures ValueAt(l, stream, i) == ValueAt(l, other, i)
  {
    var v, w := ValueAt(l, stream, i), ValueAt(l, other, i);
    forall s: nat | s < l.width ensures Bit(v, s) == Bit(w, s) {
      BitOfFromBits(StoredBits(l, stream, i), 0, l.width, s);
      BitOfFromBits(StoredBits(l, other, i), 0, l.width, s);
      ChunkInStream(l, count, i, s);
      var k := ChunkOf(l, i, BitPos(l, i, s));
      assert stream[k] == stream[..Chunks(l, count)][k] && other[k] == other[..Chunks(l, count)][k];
    }
    SameBits(v, w, l.width);
  }
}
