/** The exception bit packer of a PFor block: one lane of residuals, written in
    groups of 128 and 32 with the unused words of the last group backed out, and
    read back without reading past it. */
module BitPacker {
  import opened Lanes
  import opened PForWidth

  // FastPFOR kernels, by the layout they write. The unmasked packers are only
  // defined for values that fit the width.

  function Simd(width: nat): (l: Layout) { Layout(4, width, 32) }
  function Scalar(width: nat): (l: Layout) { Layout(1, width, 32) }

  /** usimdpackwithoutmask: 128 values into 4 * width words. */
  function SimdPackNoMask(values: seq<nat>, width: nat): (words: seq<nat>)
    requires |values| == 128 && width > 0 && Fits(values, width)
  {
    Packed(Simd(width), values, 4 * width)
  }

  /** fastpackwithoutmask: 32 values into `width` words. */
  function ScalarPackNoMask(values: seq<nat>, width: nat): (words: seq<nat>)
    requires |values| == 32 && width > 0 && Fits(values, width)
  {
    Packed(Scalar(width), values, width)
  }

  /** fastunpack: `width` words into 32 values. */
  function ScalarUnpack(words: seq<nat>, width: nat): (values: seq<nat>)
    requires |words| == width && width > 0
  {
    Unpacked(Scalar(width), words, 32)
  }

  /** usimdunpack: 4 * width words into 128 values. */
  function SimdUnpack(words: seq<nat>, width: nat): (values: seq<nat>)
    requires |words| == 4 * width
  {
    Unpacked(Simd(width), words, 128)
  }

  /** Layout of a lane of `count` residuals: only a full block uses the SIMD one. */
  function LaneLayout(count: nat, width: nat): (l: Layout) {
    if count == 128 then Simd(width) else Scalar(width)
  }

  /** Words a lane occupies: exactly enough for its bits. */
  function LaneLength(count: nat, width: nat): (n: nat) {
    (count * width + 31) / 32
  }

  /** The packed lane. */
  function PackedLane(values: seq<nat>, width: nat): (words: seq<nat>)
    requires width > 0
  {
    Packed(LaneLayout(|values|, width), values, LaneLength(|values|, width))
  }

  lemma LaneLengthIsChunks(count: nat, width: nat)
    requires count <= 128 && width > 0
    ensures Chunks(LaneLayout(count, width), count) == LaneLength(count, width)
  {
    if count == 128 {
      assert Rows(Simd(width), 128) == 32;
      ExactDiv(width, 32);
      FullBlock(width);
    }
  }

  lemma FullBlock(width: nat)
    ensures LaneLength(128, width) == 4 * width
  {
    DivMod(4 * width, 32, 31);
  }

  /** Whole padded groups less the over-counted words is the exact length. */
  lemma BackOut(count: nat, groups: nat, width: nat)
    requires count <= 32 * groups
    ensures (32 * groups - count) * width / 32 <= groups * width
    ensures groups * width - (32 * groups - count) * width / 32 == LaneLength(count, width)
    ensures LaneLength(count, width) <= groups * width
  {
    var x, g := (32 * groups - count) * width, groups * width;
    assert count * width == 32 * g - x;
    assert 0 <= count * width && 0 <= x;
  }

  lemma GroupFills(groups: nat, width: nat)
    requires width > 0
    ensures 32 * groups * width == groups * width * 32
  {
  }

  /** A value of group g read from a copy of the group's first words. */
  lemma GroupValue(stream: seq<nat>, words: seq<nat>, width: nat, g: nat, n: nat, i: nat)
    requires width > 0 && i < n <= 32
    requires g * width + LaneLength(n, width) <= |stream| && LaneLength(n, width) <= |words|
    requires stream[g * width..][..LaneLength(n, width)] == words[..LaneLength(n, width)]
    ensures ValueAt(Scalar(width), words, i) == ValueAt(Scalar(width), stream, 32 * g + i)
  {
    var l, rest := Scalar(width), stream[g * width..];
    assert Chunks(l, n) == LaneLength(n, width) by { OneLaneChunks(l, n); }
    GroupFills(g, width);
    hide LaneLength, Chunks, ValueAt;
    ValueAtGroup(l, stream, 32 * g, g * width, i);
    ValueAtPrefix(l, rest, words, n, i);
  }

  lemma GroupValues(stream: seq<nat>, words: seq<nat>, width: nat, g: nat, n: nat)
    requires width > 0 && n <= 32
    requires g * width + LaneLength(n, width) <= |stream| && LaneLength(n, width) <= |words|
    requires stream[g * width..][..LaneLength(n, width)] == words[..LaneLength(n, width)]
    ensures forall i | 0 <= i < n :: ValueAt(Scalar(width), words, i) == ValueAt(Scalar(width), stream, 32 * g + i)
  {
    hide LaneLength, ValueAt;
    forall i | 0 <= i < n ensures ValueAt(Scalar(width), words, i) == ValueAt(Scalar(width), stream, 32 * g + i) {
      GroupValue(stream, words, width, g, n, i);
    }
  }

  lemma FullGroup(width: nat)
    ensures LaneLength(32, width) == width
  {
    DivMod(width, 32, 31);
  }

  lemma SimdUnpackPrefix(stream: seq<nat>, width: nat)
    requires width > 0 && 4 * width <= |stream|
    ensures SimdUnpack(stream[..4 * width], width) == Unpacked(Simd(width), stream, 128)
  {
    LaneLengthIsChunks(128, width);
    FullBlock(width);
    forall i: nat | i < 128
      ensures ValueAt(Simd(width), stream[..4 * width], i) == ValueAt(Simd(width), stream, i)
    {
      ValueAtPrefix(Simd(width), stream[..4 * width], stream, 128, i);
    }
  }

  lemma LaneLengthMonotone(m: nat, n: nat, width: nat)
    requires m <= n
    ensures LaneLength(m, width) <= LaneLength(n, width)
  {
    MulMonotone(m, n, width);
  }

  /** A lane is its first whole groups followed by the rest. */
  lemma LaneLengthSplit(g: nat, n: nat, width: nat)
    ensures LaneLength(32 * g + n, width) == g * width + LaneLength(n, width)
  {
    var x := n * width;
    assert (32 * g + n) * width == 32 * (g * width) + x;
  }

  lemma AppendGroup(done: seq<nat>, group: seq<nat>, m: nat, w: nat)
    requires w > 0 && |done| * w == m * 32 && |group| == 32 && Fits(group, w)
    ensures |done + group| * w == (m + w) * 32
    ensures Packed(Scalar(w), done + group, m + w) == Packed(Scalar(w), done, m) + ScalarPackNoMask(group, w)
  {
    hide Packed;
    PackedConcat(Scalar(w), done, group, m, w);
    assert |done + group| * w == |done| * w + 32 * w;
  }

  /** Packs whole groups of 32 values. */
  method PackGroups(lane: seq<nat>, w: nat) returns (out: seq<nat>)
    requires w > 0 && |lane| % 32 == 0 && Fits(lane, w)
    ensures out == Packed(Scalar(w), lane, |lane| * w / 32)
  {
    hide Packed;
    var j := 0;
    ghost var m := 0;
    out := [];
    while j < |lane|
      invariant j % 32 == 0 && j <= |lane| && |lane[..j]| * w == m * 32
      invariant out == Packed(Scalar(w), lane[..j], m)
    {
      assert lane[..j + 32] == lane[..j] + lane[j..j + 32];
      AppendGroup(lane[..j], lane[j..j + 32], m, w);
      out := out + ScalarPackNoMask(lane[j..j + 32], w);
      j, m := j + 32, m + w;
    }
    assert lane[..j] == lane;
  }

  /** The padded stream less the over-counted words is the lane's stream. */
  lemma BackedOutLane(lane: seq<nat>, n: nat, w: nat)
    requires w > 0 && n <= |lane| && |lane| % 32 == 0 && n != 128
    requires forall i | n <= i < |lane| :: lane[i] == 0
    ensures
      var all := Packed(Scalar(w), lane, |lane| * w / 32);
      var kept := |lane| * w / 32 - (|lane| - n) * w / 32;
      0 <= kept <= |all| && all[..kept] == PackedLane(lane[..n], w)
  {
    hide Packed;
    var g := |lane| / 32;
    BackOut(n, g, w);
    assert |lane| * w == 32 * (g * w);
    assert lane == lane[..n] + lane[n..];
    PackedPadding(Scalar(w), lane[..n], lane[n..], g * w);
    PackedPrefix(Scalar(w), lane[..n], LaneLength(n, w), g * w);
  }

  /** Packs n values padded with zeros to whole groups, and backs out the words
      that hold only padding. */
  method PackLane(lane: seq<nat>, n: nat, w: nat) returns (out: seq<nat>)
    requires w > 0 && n <= 128 && |lane| == (n + 31) / 32 * 32 && Fits(lane, w)
    requires forall i | n <= i < |lane| :: lane[i] == 0
    ensures out == PackedLane(lane[..n], w)
  {
    if 128 <= n {
      assert lane[..n] == lane;
      FullBlock(w);
      out := SimdPackNoMask(lane, w);
    } else {
      out := PackGroups(lane, w);
      BackedOutLane(lane, n, w);
      out := out[..|out| - (|lane| - n) * w / 32];
    }
  }

  /** Stepping over the padded last group and backing out its padding lands on
      the end of the lane. */
  lemma PartialAdvance(from: nat, count: nat, w: nat)
    requires from % 32 == 0 && from <= count < from + 32
    ensures LaneLength(count, w) == from / 32 * w + LaneLength(count - from, w)
    ensures LaneLength(count - from, w) <= w
    ensures
      var j := if from < count then from + 32 else from;
      ((count + 31) / 32 * 32 - from) / 32 * w - (j - count) * w / 32 == LaneLength(count - from, w)
  {
    var remaining := count - from;
    LaneLengthSplit(from / 32, remaining, w);
    LaneLengthMonotone(remaining, 32, w);
    FullGroup(w);
    if remaining == 0 {
      assert (count + 31) / 32 * 32 == from;
      assert 0 * w == 0;
    } else {
      assert ((count + 31) / 32 * 32 - from) / 32 == 1;
      assert from + 32 - count == 32 - remaining;
      BackOut(remaining, 1, w);
      assert 1 * w == w;
    }
  }

  class LuxirBitPacker {
    const sizes: array<nat>
    const data: array<nat>    // 32 lanes of 128 values, lane after lane
    const buffer: array<nat>

    ghost predicate Valid() {
      sizes.Length == 32 && data.Length == 32 * 128 && buffer.Length == 32 &&
      sizes != data && sizes != buffer && data != buffer
    }

    /** Scratch memory starts with arbitrary contents. */
    constructor ()
      ensures Valid() && fresh(sizes) && fresh(data) && fresh(buffer)
    {
      sizes, data, buffer := new nat[32], new nat[32 * 128], new nat[32];
    }

    /** The values appended to a lane. */
    ghost function Lane(k: nat): (values: seq<nat>)
      requires Valid() && k < 32 && sizes[k] <= 128
      reads sizes, data
    {
      data[128 * k..128 * k + sizes[k]]
    }

    method Clear()
      requires Valid()
      modifies sizes
      ensures forall k | 0 <= k < 32 :: sizes[k] == 0
    {
      for i := 0 to 32
        invariant forall k | 0 <= k < i :: sizes[k] == 0
      {
        sizes[i] := 0;
      }
    }

    method DirectAppend(k: nat, val: nat)
      requires Valid() && k < 32 && sizes[k] < 128
      modifies sizes, data
      ensures sizes[k] == old(sizes[k]) + 1 && Lane(k) == old(Lane(k)) + [val]
    {
      data[128 * k + sizes[k]] := val;
      sizes[k] := sizes[k] + 1;
    }

    /** Zeroes the slots of the last group past the lane's values. */
    method FillPadding(base: nat, n: nat, padded: nat)
      requires Valid() && n <= padded && base + padded <= data.Length
      modifies data
      ensures data[base..base + n] == old(data[base..base + n])
      ensures forall x | base + n <= x < base + padded :: data[x] == 0
    {
      for i := n to padded
        invariant data[base..base + n] == old(data[base..base + n])
        invariant forall x | base + n <= x < base + i :: data[x] == 0
      {
        data[base + i] := 0;
      }
    }

    method WriteLane(k: nat) returns (out: seq<nat>)
      requires Valid() && k < 32 && sizes[k] <= 128 && Fits(Lane(k), k + 1)
      modifies data
      ensures out == PackedLane(old(Lane(k)), k + 1)
    {
      ghost var values := Lane(k);
      var n, base := sizes[k], 128 * k;
      var padded := (n + 31) / 32 * 32;
      FillPadding(base, n, padded);
      var lane := data[base..base + padded];
      assert data[base..base + n] == values;
      forall i | 0 <= i < n ensures lane[..n][i] == values[i] {
        assert lane[i] == data[base + i] == data[base..base + n][i];
      }
      assert lane[..n] == values;
      out := PackLane(lane, n, k + 1);
    }

    /** Slots base + from .. base + to hold the values of a one-lane stream. */
    ghost predicate Holds(base: nat, l: Layout, stream: seq<nat>, to: nat)
      requires Valid() && base + to <= data.Length
      reads data
    {
      forall i | 0 <= i < to :: data[base + i] == ValueAt(l, stream, i)
    }

    method StoreGroup(at: nat, values: seq<nat>)
      requires Valid() && at + |values| <= data.Length
      modifies data
      ensures forall i | 0 <= i < |values| :: data[at + i] == values[i]
      ensures forall x | 0 <= x < at :: data[x] == old(data[x])
    {
      forall i | 0 <= i < |values| { data[at + i] := values[i]; }
    }

    /** Unpacks group g of a lane from (a copy of) its words. */
    method UnpackGroup(base: nat, ghost stream: seq<nat>, words: seq<nat>, w: nat, g: nat, ghost n: nat)
      requires Valid() && w > 0 && n <= 32 && |words| == w && base + 32 * g + 32 <= data.Length
      requires g * w + LaneLength(n, w) <= |stream| && LaneLength(n, w) <= w
      requires stream[g * w..][..LaneLength(n, w)] == words[..LaneLength(n, w)]
      requires Holds(base, Scalar(w), stream, 32 * g)
      modifies data
      ensures Holds(base, Scalar(w), stream, 32 * g + n)
    {
      GroupValues(stream, words, w, g, n);
      var values := ScalarUnpack(words, w);
      StoreGroup(base + 32 * g, values);
      forall i | 0 <= i < 32 * g + n ensures data[base + i] == ValueAt(Scalar(w), stream, i) {
        if i >= 32 * g {
          assert data[base + 32 * g + (i - 32 * g)] == values[i - 32 * g];
        }
      }
    }

    /** The scalar part of ReadLane, for lanes of fewer than 128 residuals. */
    method ReadScalar(input: seq<nat>, pos: nat, base: nat, w: nat, count: nat) returns (next: nat)
      requires Valid() && 0 < w <= 32 && count < 128 && base + 128 <= data.Length
      requires pos + LaneLength(count, w) <= |input|
      modifies data, buffer
      ensures next == pos + LaneLength(count, w)
      ensures Holds(base, Scalar(w), input[pos..], count)
    {
      ghost var stream := input[pos..];
      var j := 0;
      next := pos;
      FullGroup(w);
      while j + 31 < count
        invariant j % 32 == 0 && j <= count
        invariant next == pos + j / 32 * w
        invariant Holds(base, Scalar(w), stream, j)
      {
        LaneLengthSplit(j / 32, count - j, w);
        LaneLengthMonotone(32, count - j, w);
        assert input[next..next + w] == stream[j / 32 * w..][..w];
        UnpackGroup(base, stream, input[next..next + w], w, j / 32, 32);
        next := next + w;
        j := j + 32;
      }
      next := ReadPartial(input, pos, next, base, w, count, j);
    }

    method CopyWords(input: seq<nat>, at: nat, words: nat)
      requires Valid() && words <= 32 && at + words <= |input|
      modifies buffer
      ensures buffer[..words] == input[at..at + words]
    {
      forall i | 0 <= i < words { buffer[i] := input[at + i]; }
    }

    /** The last, partial group: only its words are copied before unpacking. */
    method ReadPartial(input: seq<nat>, ghost pos: nat, at: nat, base: nat, w: nat, count: nat, from: nat)
      returns (next: nat)
      requires Valid() && 0 < w <= 32 && count < 128 && base + 128 <= data.Length
      requires from % 32 == 0 && from <= count < from + 32 && at == pos + from / 32 * w
      requires pos + LaneLength(count, w) <= |input|
      requires Holds(base, Scalar(w), input[pos..], from)
      modifies data, buffer
      ensures next == pos + LaneLength(count, w)
      ensures Holds(base, Scalar(w), input[pos..], count)
    {
      ghost var stream := input[pos..];
      var j := from;
      PartialAdvance(from, count, w);
      next := at + ((count + 31) / 32 * 32 - j) / 32 * w;
      CopyWords(input, at, ((count - j) * w + 31) / 32);
      if j < count {
        ghost var n := LaneLength(count - j, w);
        assert stream[j / 32 * w..][..n] == input[at..at + n] == buffer[..w][..n];
        UnpackGroup(base, stream, buffer[..w], w, j / 32, count - j);
        j := j + 32;
      }
      next := next - (j - count) * w / 32;
    }

    /** Inverse of WriteLane: `count` residuals starting at word `pos`. */
    method ReadLane(input: seq<nat>, pos: nat, k: nat, count: nat) returns (next: nat)
      requires Valid() && k < 32 && count <= 128
      requires pos + LaneLength(count, k + 1) <= |input|
      modifies sizes, data, buffer
      ensures next == pos + LaneLength(count, k + 1)
      ensures sizes[k] == count
      ensures Lane(k) == Unpacked(LaneLayout(count, k + 1), input[pos..], count)
    {
      var w, base := k + 1, 128 * k;
      sizes[k] := count;
      if 128 <= count {
        FullBlock(w);
        SimdUnpackPrefix(input[pos..], w);
        assert input[pos..pos + 4 * w] == input[pos..][..4 * w];
        StoreGroup(base, SimdUnpack(input[pos..pos + 4 * w], w));
        next := pos + 4 * w;
      } else {
        next := ReadScalar(input, pos, base, w, count);
      }
    }
  }
}
