/** One PFor block: a packed base of the low bits of 128 values, patched by an
    exception stream, behind a header that determines every section's size. */
module PFor {
  import opened Bits
  import opened Bytes
  import opened Lanes
  import opened PForWidth
  import opened BitPacker

  // ----- what the exceptions of a block are

  function Positions(values: seq<nat>, b: nat): (p: seq<nat>)
    ensures |p| == CountWider(values, b)
    ensures forall k | 0 <= k < |p| :: p[k] < |values|
  {
    if values == [] then []
    else
      var last := |values| - 1;
      Positions(values[..last], b) + (if BitWidth(values[last]) > b then [last] else [])
  }

  /** High bits of the exceptions, in position order. */
  function Residuals(values: seq<nat>, b: nat): (r: seq<nat>)
    ensures |r| == CountWider(values, b)
  {
    if values == [] then []
    else
      var last := |values| - 1;
      Residuals(values[..last], b) + (if BitWidth(values[last]) > b then [Shr(values[last], b)] else [])
  }

  // ----- the encoded form

  function HeaderBytes(exceptions: nat): (n: nat) {
    if exceptions > 0 then 3 + exceptions else 2
  }

  /** Bytes of an encoded block, from its header alone. */
  function BlockBytes(ch: Choice): (n: nat)
    requires ch.base <= ch.widest
  {
    4 * CeilDiv(HeaderBytes(ch.exceptions), 4) + 16 * ch.base +
    (if ch.exceptions > 0 && ch.widest - ch.base > 1 then 4 * LaneLength(ch.exceptions, ch.widest - ch.base) else 0)
  }

  function Zeros(n: nat): (z: seq<Byte>)
    ensures |z| == n
  {
    seq(n, i => 0)
  }

  /** A base width the format can express for these values; the search for the
      cheapest one always yields such a choice. */
  ghost predicate Encodable(values: seq<nat>, ch: Choice) {
    && |values| == BLOCK_SIZE && Fits(values, 32)
    && ch.base <= ch.widest <= 32
    && ch.exceptions == CountWider(values, ch.base)
    && (ch.exceptions == 0 <==> ch.base == ch.widest)
    && (forall i | 0 <= i < |values| :: BitWidth(values[i]) <= ch.widest)
  }

  lemma BestIsEncodable(values: seq<nat>, ch: Choice)
    requires |values| == BLOCK_SIZE && Fits(values, 32) && IsBest(values, ch)
    ensures Encodable(values, ch) && ch.exceptions <= 102
  {
    AtMost102Exceptions(values, ch);
    ExceptionsIffNarrower(values, ch);
  }

  ghost function Header(values: seq<nat>, ch: Choice): (h: seq<Byte>)
    requires Encodable(values, ch)
    ensures |h| == HeaderBytes(ch.exceptions)
  {
    [ch.base, ch.exceptions]
    + (if ch.exceptions == 0 then [] else [ch.widest] + PositionBytes(Positions(values, ch.base)))
  }

  function PositionBytes(p: seq<nat>): (b: seq<Byte>)
    requires forall k | 0 <= k < |p| :: p[k] < BLOCK_SIZE
    ensures |b| == |p| && forall k | 0 <= k < |p| :: b[k] == p[k]
  {
    seq(|p|, k requires 0 <= k < |p| => p[k])
  }

  ghost function PaddedHeader(values: seq<nat>, ch: Choice): (h: seq<Byte>)
    requires Encodable(values, ch)
    ensures |h| == 4 * CeilDiv(HeaderBytes(ch.exceptions), 4)
  {
    var h := Header(values, ch);
    h + Zeros(4 * CeilDiv(|h|, 4) - |h|)
  }

  /** simdpack: the low `width` bits of 128 values in 4 * width words. */
  function SimdPackMasked(values: seq<nat>, width: nat): (words: seq<nat>)
    requires |values| == 128
    ensures |words| == 4 * width && Fits(words, 32)
  {
    if width == 0 then [] else Packed(Simd(width), values, 4 * width)
  }

  function ResidualWords(values: seq<nat>, ch: Choice): (words: seq<nat>)
    requires ch.base <= ch.widest
    ensures Fits(words, 32)
  {
    if CountWider(values, ch.base) > 0 && ch.widest - ch.base > 1
    then PackedLane(Residuals(values, ch.base), ch.widest - ch.base)
    else []
  }

  /** Everything after the header: packed base, then the exception lane. */
  function BlockWords(values: seq<nat>, ch: Choice): (words: seq<nat>)
    requires |values| == BLOCK_SIZE && ch.base <= ch.widest
    ensures Fits(words, 32)
  {
    SimdPackMasked(values, ch.base) + ResidualWords(values, ch)
  }

  /** The encoded block. */
  ghost function Encoded(values: seq<nat>, ch: Choice): (s: seq<Byte>)
    requires Encodable(values, ch)
  {
    PaddedHeader(values, ch) + ToBytes(BlockWords(values, ch))
  }

  lemma EncodedLength(values: seq<nat>, ch: Choice)
    requires Encodable(values, ch)
    ensures |Encoded(values, ch)| == BlockBytes(ch)
  {
    hide Header, SimdPackMasked, Packed, ToBytes, Residuals, CeilDiv, HeaderBytes, LaneLength, CountWider, BitWidth, Pow2;
  }

  /** The positions are those of the wider values, in order. */
  lemma {:induction false} PositionsAre(values: seq<nat>, b: nat)
    ensures
      var p := Positions(values, b);
      && (forall j, k | 0 <= j < k < |p| :: p[j] < p[k])
      && (forall i | 0 <= i < |values| :: i in p <==> BitWidth(values[i]) > b)
  {
    hide BitWidth;
    if values != [] {
      var last := |values| - 1;
      var init := values[..last];
      PositionsAre(init, b);
      assert forall i | 0 <= i < last :: init[i] == values[i];
      assert last !in Positions(init, b);
    }
  }

  // ----- the cost model is the size

  lemma LaneBits(count: nat, width: nat)
    ensures count * width <= 32 * LaneLength(count, width) <= count * width + 31
  {
  }

  /** The cost the width search minimises is the size of the block in bits, less 16
      to 71 bits of header, padding and rounding. */
  lemma CostIsSize(values: seq<nat>, widest: nat, b: nat)
    requires IsWidest(values, widest) && b <= widest
    ensures
      var bits := 8 * BlockBytes(Choice(b, CountWider(values, b), widest));
      Cost(values, widest, b) + 16 <= bits <= Cost(values, widest, b) + 71
  {
    NoneWider(values, b);
    hide BitWidth, CountWider, LaneLength;
    var c := CountWider(values, b);
    LaneBits(c, widest - b);
  }

  lemma WholeWords(ch: Choice)
    requires ch.base <= ch.widest
    ensures BlockBytes(ch) % 4 == 0
  {
    hide CeilDiv, LaneLength;
  }

  lemma WithinOneWord(a: nat, b: nat)
    requires a % 4 == 0 && b % 4 == 0 && 8 * a <= 8 * b + 55
    ensures a <= b + 4
  {
  }

  /** So no base width gives a block more than one word smaller than the chosen one. */
  lemma BestIsNearlySmallest(values: seq<nat>, ch: Choice, b: nat)
    requires IsBest(values, ch) && b <= ch.widest
    ensures BlockBytes(ch) <= BlockBytes(Choice(b, CountWider(values, b), ch.widest)) + 4
  {
    var other := Choice(b, CountWider(values, b), ch.widest);
    WholeWords(ch);
    WholeWords(other);
    hide BlockBytes, Cost, CountWider, BitWidth;
    CostIsSize(values, ch.widest, ch.base);
    CostIsSize(values, ch.widest, b);
    assert ch == Choice(ch.base, CountWider(values, ch.base), ch.widest);
    WithinOneWord(BlockBytes(ch), BlockBytes(other));
  }

  // ----- the decoded form

  function ChoiceOf(buf: seq<Byte>): (ch: Choice)
    requires |buf| >= 2 && (buf[1] > 0 ==> |buf| >= 3)
  {
    Choice(buf[0], buf[1], if buf[1] > 0 then buf[2] else buf[0])
  }

  /** A buffer that starts with a block the decoder can walk. */
  ghost predicate WellFormed(buf: seq<Byte>) {
    && |buf| >= 2 && (buf[1] > 0 ==> |buf| >= 3)
    && var ch := ChoiceOf(buf);
    && ch.base <= ch.widest <= 32 && ch.exceptions <= BLOCK_SIZE
    && (ch.exceptions > 0 ==> ch.base < ch.widest)
    && BlockBytes(ch) <= |buf|
    && (forall i | 3 <= i < 3 + ch.exceptions :: buf[i] < BLOCK_SIZE)
  }

  /** Ors each residual, shifted past the base, into its position. */
  function Patch(out: seq<nat>, positions: seq<nat>, residuals: seq<nat>, b: nat): (r: seq<nat>)
    requires |positions| == |residuals|
    requires forall k | 0 <= k < |positions| :: positions[k] < |out|
    ensures |r| == |out|
  {
    if positions == [] then out
    else
      var n := |positions| - 1;
      var r := Patch(out, positions[..n], residuals[..n], b);
      r[positions[n] := Or(r[positions[n]], Shl(residuals[n], b, 32))]
  }

  function DecodedPositions(buf: seq<Byte>): (p: seq<nat>)
    requires |buf| >= 2 && (buf[1] > 0 ==> |buf| >= 3 + buf[1] as int)
    ensures |p| == buf[1]
    ensures forall k | 0 <= k < |p| :: p[k] == buf[k + 3]
  {
    seq(buf[1], k requires 0 <= k < buf[1] => buf[3 + k])
  }

  ghost function Body(buf: seq<Byte>): (words: seq<nat>)
    requires WellFormed(buf)
    ensures 4 * |words| >= BlockBytes(ChoiceOf(buf)) - 4 * CeilDiv(HeaderBytes(buf[1]), 4)
  {
    WordsOf(buf)[CeilDiv(HeaderBytes(buf[1]), 4)..]
  }

  ghost function DecodedResiduals(buf: seq<Byte>): (r: seq<nat>)
    requires WellFormed(buf)
    ensures |r| == buf[1]
  {
    var ch := ChoiceOf(buf);
    if ch.widest - ch.base <= 1 then seq(ch.exceptions, i => 1)
    else Unpacked(LaneLayout(ch.exceptions, ch.widest - ch.base), Body(buf)[4 * ch.base..], ch.exceptions)
  }

  ghost function Decoded(buf: seq<Byte>): (values: seq<nat>)
    requires WellFormed(buf)
    ensures |values| == BLOCK_SIZE
  {
    Patch(Unpacked(Simd(buf[0]), Body(buf), BLOCK_SIZE), DecodedPositions(buf), DecodedResiduals(buf), buf[0])
  }

  // ----- decoding inverts encoding

  lemma {:induction false} ResidualsFit(values: seq<nat>, b: nat, widest: nat)
    requires b <= widest
    requires forall i | 0 <= i < |values| :: BitWidth(values[i]) <= widest
    ensures Fits(Residuals(values, b), widest - b)
    ensures widest - b == 1 ==> Residuals(values, b) == seq(CountWider(values, b), i => 1)
  {
    if values != [] {
      var last := |values| - 1;
      var v := values[last];
      ResidualsFit(values[..last], b, widest);
      WidthIsLeast(v, widest);
      ShrBelow(v, b, widest - b);
      if BitWidth(v) > b && widest - b == 1 {
        WidthIsLeast(v, b);
        ShrPositive(v, b);
        assert Pow2(1) == 2;
        var n := CountWider(values[..last], b);
        assert seq(n + 1, i => 1) == seq(n, i => 1) + [1];
      }
    }
  }

  lemma {:induction false} ShrPositive(x: nat, n: nat)
    requires x >= Pow2(n)
    ensures Shr(x, n) > 0
  {
    if n > 0 { ShrPositive(x / 2, n - 1); }
  }

  lemma NothingPatched(base: seq<nat>, b: nat)
    ensures Patch(base, [], [], b) == base
  {
  }

  lemma PatchOne(base: seq<nat>, p: seq<nat>, q: seq<nat>, b: nat, at: nat, v: nat)
    requires |p| == |q| && at < |base|
    requires forall k | 0 <= k < |p| :: p[k] < |base|
    ensures
      var r := Patch(base, p, q, b);
      Patch(base, p + [at], q + [v], b) == r[at := Or(r[at], Shl(v, b, 32))]
  {
    assert (p + [at])[..|p|] == p && (q + [v])[..|q|] == q;
  }

  lemma ExceptionsStep(values: seq<nat>, b: nat, n: nat)
    requires 0 < n <= |values|
    ensures
      var p, q, v := Positions(values[..n - 1], b), Residuals(values[..n - 1], b), values[n - 1];
      if BitWidth(v) > b
      then Positions(values[..n], b) == p + [n - 1] && Residuals(values[..n], b) == q + [Shr(v, b)]
      else Positions(values[..n], b) == p && Residuals(values[..n], b) == q
  {
    assert values[..n][..n - 1] == values[..n - 1];
  }

  /** Patching the exceptions of the first n values restores exactly those. */
  lemma {:induction false} PatchRestores(values: seq<nat>, base: seq<nat>, b: nat, n: nat)
    requires n <= |values| == |base| && b <= 32 && Fits(values, 32)
    requires forall i | 0 <= i < |values| :: base[i] == Low(values[i], b)
    ensures Patch(base, Positions(values[..n], b), Residuals(values[..n], b), b) == values[..n] + base[n..]
  {
    hide Patch, Positions, Residuals, Or, Shl, Shr, Low, BitWidth, Pow2;
    if n == 0 {
      PatchNone(values, base, b);
    } else {
      PatchRestores(values, base, b, n - 1);
      PatchStep(values, base, b, n);
      assert (values[..n - 1] + base[n - 1..])[n - 1 := values[n - 1]] == values[..n] + base[n..];
    }
  }

  lemma PatchNone(values: seq<nat>, base: seq<nat>, b: nat)
    ensures Patch(base, Positions(values[..0], b), Residuals(values[..0], b), b) == values[..0] + base[0..]
  {
  }

  lemma PatchStep(values: seq<nat>, base: seq<nat>, b: nat, n: nat)
    requires 0 < n <= |values| == |base| && b <= 32 && values[n - 1] < Pow2(32)
    requires base[n - 1] == Low(values[n - 1], b)
    requires Patch(base, Positions(values[..n - 1], b), Residuals(values[..n - 1], b), b)[n - 1] == base[n - 1]
    ensures Patch(base, Positions(values[..n], b), Residuals(values[..n], b), b)
         == Patch(base, Positions(values[..n - 1], b), Residuals(values[..n - 1], b), b)[n - 1 := values[n - 1]]
  {
    hide Patch, Positions, Residuals, Or, Shl, Shr, Low, BitWidth, Pow2;
    var v := values[n - 1];
    ExceptionsStep(values, b, n);
    if BitWidth(v) > b {
      SplitAndJoin(v, b, 32);
      PatchOne(base, Positions(values[..n - 1], b), Residuals(values[..n - 1], b), b, n - 1, Shr(v, b));
    } else {
      WidthIsLeast(v, b);
      LowIsIdentity(v, b);
    }
  }

  /** The header written is the header read. */
  lemma HeaderFields(values: seq<nat>, ch: Choice, rest: seq<Byte>)
    requires Encodable(values, ch)
    ensures
      var buf := Encoded(values, ch) + rest;
      && |buf| >= BlockBytes(ch) && BlockBytes(ch) >= HeaderBytes(ch.exceptions)
      && buf[0] == ch.base && buf[1] == ch.exceptions
      && (ch.exceptions > 0 ==> buf[2] == ch.widest)
      && (forall k | 0 <= k < ch.exceptions :: buf[k + 3] == Positions(values, ch.base)[k])
  {
    hide Packed, PackedLane, BlockWords, Positions, CountWider, BitWidth, Pow2;
    EncodedLength(values, ch);
    var h, buf := Header(values, ch), Encoded(values, ch) + rest;
    assert buf[..|h|] == h;
    forall i | 0 <= i < |h| ensures buf[i] == h[i] {
      assert buf[i] == buf[..|h|][i];
    }
  }

  lemma HeaderRoundTrip(values: seq<nat>, ch: Choice, rest: seq<Byte>)
    requires Encodable(values, ch)
    ensures
      var buf := Encoded(values, ch) + rest;
      WellFormed(buf) && ChoiceOf(buf) == ch && DecodedPositions(buf) == Positions(values, ch.base)
  {
    HeaderFields(values, ch, rest);
    hide Encoded, BlockBytes, HeaderBytes, Positions, CountWider, BitWidth, Pow2;
    PositionsRead(Encoded(values, ch) + rest, Positions(values, ch.base));
  }

  lemma PositionsRead(buf: seq<Byte>, p: seq<nat>)
    requires |buf| >= 2 && buf[1] == |p| && |buf| >= (if |p| > 0 then 3 + |p| else 2)
    requires forall k | 0 <= k < |p| :: p[k] < BLOCK_SIZE && buf[k + 3] == p[k]
    ensures DecodedPositions(buf) == p && forall i | 3 <= i < 3 + |p| :: buf[i] < BLOCK_SIZE
  {
    forall i | 3 <= i < 3 + |p| ensures buf[i] < BLOCK_SIZE {
      assert buf[(i - 3) + 3] == p[i - 3];
    }
  }

  lemma WordsAfterHeader(h: seq<Byte>, words: seq<nat>, rest: seq<Byte>) returns (tail: seq<nat>)
    requires |h| % 4 == 0 && Fits(words, 32)
    ensures |h| / 4 <= |WordsOf(h + ToBytes(words) + rest)|
    ensures WordsOf(h + ToBytes(words) + rest)[|h| / 4..] == words + tail
  {
    WordBound();
    WordsOfToBytes(h, words, rest);
    hide WordsOf, ToBytes;
    var all, at := WordsOf(h + ToBytes(words) + rest), |h| / 4;
    tail := all[at + |words|..];
    FromMiddle(all, at, words);
  }

  lemma FromMiddle(all: seq<nat>, at: nat, words: seq<nat>)
    requires at + |words| <= |all| && all[at..at + |words|] == words
    ensures all[at..] == words + all[at + |words|..]
  {
    assert all[at..] == all[at..at + |words|] + all[at + |words|..];
  }

  /** The words after the header are the ones written. */
  lemma BodyRoundTrip(values: seq<nat>, ch: Choice, rest: seq<Byte>) returns (tail: seq<nat>)
    requires Encodable(values, ch) && WellFormed(Encoded(values, ch) + rest)
    requires ChoiceOf(Encoded(values, ch) + rest) == ch
    ensures Body(Encoded(values, ch) + rest) == BlockWords(values, ch) + tail
  {
    hide Packed, PackedLane, SimdPackMasked, ResidualWords, Header, Pow2, BlockWords;
    hide PaddedHeader, WordsOf, ToBytes, BlockBytes, LaneLength, HeaderBytes;
    tail := WordsAfterHeader(PaddedHeader(values, ch), BlockWords(values, ch), rest);
  }

  lemma BaseRoundTrip(values: seq<nat>, b: nat, tail: seq<nat>)
    requires |values| == BLOCK_SIZE
    ensures
      var base := Unpacked(Simd(b), SimdPackMasked(values, b) + tail, BLOCK_SIZE);
      forall i | 0 <= i < BLOCK_SIZE :: base[i] == Low(values[i], b)
  {
    if b > 0 {
      LaneLengthIsChunks(128, b);
      FullBlock(b);
      UnpackInvertsPack(Simd(b), values, 4 * b, tail);
    }
  }

  lemma LaneRoundTrip(values: seq<nat>, ch: Choice, tail: seq<nat>)
    requires Encodable(values, ch) && ch.exceptions > 0 && ch.widest - ch.base > 1
    ensures
      var l := LaneLayout(ch.exceptions, ch.widest - ch.base);
      Unpacked(l, ResidualWords(values, ch) + tail, ch.exceptions) == Residuals(values, ch.base)
  {
    ResidualsFit(values, ch.base, ch.widest);
    ResidualsRoundTrip(Residuals(values, ch.base), ch.widest - ch.base, tail);
  }

  /** Decoding an encoded block returns its values, whatever bytes follow it. */
  lemma DecodeInvertsEncode(values: seq<nat>, ch: Choice, rest: seq<Byte>)
    requires Encodable(values, ch)
    ensures
      var buf := Encoded(values, ch) + rest;
      WellFormed(buf) && ChoiceOf(buf) == ch && Decoded(buf) == values
  {
    hide Encoded, Patch, Packed, PackedLane, SimdPackMasked, ResidualWords, Positions, Residuals, Low, Pow2, CountWider;
    HeaderRoundTrip(values, ch, rest);
    var buf, b := Encoded(values, ch) + rest, ch.base;
    var tail := BodyRoundTrip(values, ch, rest);
    var lane := ResidualWords(values, ch);
    assert Body(buf) == SimdPackMasked(values, b) + (lane + tail);
    BaseRoundTrip(values, b, lane + tail);
    assert Body(buf)[4 * b..] == lane + tail;
    assert DecodedResiduals(buf) == Residuals(values, b) by {
      ResidualsFit(values, b, ch.widest);
      if ch.exceptions > 0 && ch.widest - b > 1 {
        LaneRoundTrip(values, ch, tail);
      }
    }
    PatchRestores(values, Unpacked(Simd(b), Body(buf), BLOCK_SIZE), b, BLOCK_SIZE);
    assert values[..BLOCK_SIZE] == values && values + [] == values;
  }

  lemma ResidualsRoundTrip(r: seq<nat>, width: nat, tail: seq<nat>)
    requires 0 < |r| <= 128 && width > 0 && Fits(r, width)
    ensures Unpacked(LaneLayout(|r|, width), PackedLane(r, width) + tail, |r|) == r
  {
    LaneLengthIsChunks(|r|, width);
    UnpackInvertsPack(LaneLayout(|r|, width), r, LaneLength(|r|, width), tail);
    forall i | 0 <= i < |r| ensures Low(r[i], width) == r[i] {
      LowIsIdentity(r[i], width);
    }
  }

  /** The cost model bounds the encoded size: at most eight bytes over an
      exception-free block. */
  lemma EncodedSizeBound(values: seq<nat>, ch: Choice)
    requires IsBest(values, ch)
    ensures BlockBytes(ch) <= 16 * ch.widest + 8
  {
    ExceptionsIffNarrower(values, ch);
    if ch.exceptions > 0 {
      var c, d := ch.exceptions, ch.widest - ch.base;
      assert Cost(values, ch.widest, ch.base) < Cost(values, ch.widest, ch.widest);
      assert LaneLength(c, d) == (c * d + 31) / 32;
    }
  }

  // ----- the codec

  /** Splits the exceptions off: residuals into the packer's lane, positions into
      the header. */
  method CollectExceptions(values: seq<nat>, ch: Choice, packer: LuxirBitPacker) returns (positions: seq<Byte>)
    requires Encodable(values, ch) && ch.exceptions > 0 && packer.Valid()
    modifies packer.sizes, packer.data
    ensures positions == PositionBytes(Positions(values, ch.base))
    ensures packer.sizes[ch.widest - ch.base - 1] == ch.exceptions
    ensures packer.Lane(ch.widest - ch.base - 1) == Residuals(values, ch.base)
  {
    hide Positions, Residuals, CountWider, Shr, BitWidth, Pow2;
    packer.Clear();
    var b, lane := ch.base, ch.widest - ch.base - 1;
    var maxval := Pow2(b);
    positions := [];
    NoExceptions(values, b);
    assert packer.data[128 * lane..128 * lane] == [];
    for k := 0 to BLOCK_SIZE
      invariant packer.sizes[lane] == |Residuals(values[..k], b)| <= k
      invariant packer.Lane(lane) == Residuals(values[..k], b)
      invariant positions == PositionBytes(Positions(values[..k], b))
    {
      ExceptionsStep(values, b, k + 1);
      WidthIsLeast(values[k], b);
      if values[k] >= maxval {
        packer.DirectAppend(lane, Shr(values[k], b));
        positions := positions + [k];
      }
    }
    assert values[..BLOCK_SIZE] == values;
  }

  lemma NoExceptions(values: seq<nat>, b: nat)
    ensures Positions(values[..0], b) == [] && Residuals(values[..0], b) == []
  {
  }

  method EncodeBlockPFor(values: seq<nat>) returns (out: seq<Byte>, ghost ch: Choice)
    requires |values| == BLOCK_SIZE && Fits(values, 32)
    ensures IsBest(values, ch) && Encodable(values, ch)
    ensures out == Encoded(values, ch) && |out| == BlockBytes(ch)
    ensures WellFormed(out) && Decoded(out) == values && |out| == BlockBytes(ChoiceOf(out))
  {
    hide Encodable, IsBest, Encoded, WellFormed, Decoded, BlockBytes, Fits;
    var best := GetBestB(values);
    ch := best;
    BestIsEncodable(values, best);
    out := WriteBlock(values, best);
    EncodedLength(values, best);
    EncodedAlone(values, best);
  }

  method WriteBlock(values: seq<nat>, best: Choice) returns (out: seq<Byte>)
    requires Encodable(values, best)
    ensures out == Encoded(values, best)
  {
    hide Packed, Positions, Residuals, CountWider, BitWidth, Pow2, PositionBytes;
    var b, c, d := best.base, best.exceptions, best.widest - best.base;
    var bc: seq<Byte> := [b, c];
    var packer := new LuxirBitPacker();
    if c > 0 {
      var positions := CollectExceptions(values, best, packer);
      bc := bc + [best.widest] + positions;
    }
    assert bc == Header(values, best);
    bc := PadToWord(bc);
    var words := SimdPackMasked(values, b);
    if c > 0 && d > 1 {
      ResidualsFit(values, b, best.widest);
      var lane := packer.WriteLane(d - 1);
      words := words + lane;
    }
    assert words == BlockWords(values, best);
    out := bc + ToBytes(words);
  }

  lemma EncodedAlone(values: seq<nat>, ch: Choice)
    requires Encodable(values, ch)
    ensures
      var buf := Encoded(values, ch);
      WellFormed(buf) && ChoiceOf(buf) == ch && Decoded(buf) == values
  {
    hide WellFormed, Decoded, Encoded, ChoiceOf;
    DecodeInvertsEncode(values, ch, []);
    assert Encoded(values, ch) + [] == Encoded(values, ch);
  }

  method PadToWord(bytes: seq<Byte>) returns (padded: seq<Byte>)
    ensures padded == bytes + Zeros(4 * CeilDiv(|bytes|, 4) - |bytes|)
  {
    padded := bytes;
    while |padded| % 4 != 0
      invariant |bytes| <= |padded| <= 4 * CeilDiv(|bytes|, 4)
      invariant padded == bytes + Zeros(|padded| - |bytes|)
      decreases 4 * CeilDiv(|bytes|, 4) - |padded|
    {
      assert Zeros(|padded| + 1 - |bytes|) == Zeros(|padded| - |bytes|) + [0];
      padded := padded + [0];
    }
  }

  /** Reads the exceptions' high bits; one-bit ones are implicit. */
  method ReadResiduals(words: seq<nat>, at: nat, width: nat, count: nat) returns (vals: seq<nat>, next: nat)
    requires 0 < width <= 32 && 0 < count <= 128
    requires width > 1 ==> at + LaneLength(count, width) <= |words|
    requires at <= |words|
    ensures vals == if width == 1 then seq(count, i => 1) else Unpacked(LaneLayout(count, width), words[at..], count)
    ensures next == at + if width > 1 then LaneLength(count, width) else 0
  {
    hide ValueAt;
    if width == 1 {
      vals, next := seq(count, i => 1), at;
    } else {
      var packer := new LuxirBitPacker();
      next := packer.ReadLane(words, at, width - 1, count);
      vals := packer.data[128 * (width - 1)..128 * (width - 1) + count];
    }
  }

  lemma BaseFromPrefix(words: seq<nat>, b: nat)
    requires 4 * b <= |words|
    ensures SimdUnpack(words[..4 * b], b) == Unpacked(Simd(b), words, BLOCK_SIZE)
  {
    if b > 0 { SimdUnpackPrefix(words, b); }
  }

  /** Decodes the block at the start of a buffer; returns the bytes it took. */
  method DecodeBlockPFor(buf: seq<Byte>, out: array<nat>) returns (size: nat)
    requires WellFormed(buf) && out.Length == BLOCK_SIZE
    modifies out
    ensures out[..] == Decoded(buf)
    ensures size == BlockBytes(ChoiceOf(buf))
  {
    hide ValueAt, LaneLength, SimdUnpack, Patch, WordAt;
    var bestb, cexcept := buf[0], buf[1];
    var headerBytes: nat := 2;
    var maxb: nat := bestb;
    if cexcept > 0 {
      maxb := buf[2];
      headerBytes := 3 + cexcept;
    }
    var headerWords := (headerBytes + 3) / 4;
    var words := WordsOf(buf)[headerWords..];
    assert words == Body(buf);
    var base := SimdUnpack(words[..4 * bestb], bestb);
    BaseFromPrefix(words, bestb);
    forall i | 0 <= i < BLOCK_SIZE { out[i] := base[i]; }
    assert out[..] == base;
    var next: nat := 4 * bestb;
    if cexcept > 0 {
      var vals;
      vals, next := ReadResiduals(words, next, maxb - bestb, cexcept);
      PatchInPlace(out, DecodedPositions(buf), vals, bestb);
    } else {
      PatchNothing(base, DecodedPositions(buf), DecodedResiduals(buf), bestb);
    }
    size := 4 * headerWords + 4 * next;
  }

  lemma PatchNothing(out: seq<nat>, positions: seq<nat>, residuals: seq<nat>, b: nat)
    requires |positions| == |residuals| == 0
    ensures Patch(out, positions, residuals, b) == out
  {
  }

  method PatchInPlace(out: array<nat>, positions: seq<nat>, vals: seq<nat>, b: nat)
    requires |positions| == |vals|
    requires forall k | 0 <= k < |positions| :: positions[k] < out.Length
    modifies out
    ensures out[..] == Patch(old(out[..]), positions, vals, b)
  {
    NothingPatched(out[..], b);
    hide Patch, Or, Shl;
    for k := 0 to |positions|
      invariant out[..] == Patch(old(out[..]), positions[..k], vals[..k], b)
    {
      assert positions[..k + 1] == positions[..k] + [positions[k]] && vals[..k + 1] == vals[..k] + [vals[k]];
      PatchOne(old(out[..]), positions[..k], vals[..k], b, positions[k], vals[k]);
      out[positions[k]] := Or(out[positions[k]], Shl(vals[k], b, 32));
    }
    assert positions[..|positions|] == positions && vals[..|vals|] == vals;
  }

  /** Length of the block at the start of a buffer, from its header alone. */
  method SkipBlockPFor(buf: seq<Byte>) returns (size: nat)
    requires WellFormed(buf)
    ensures size == BlockBytes(ChoiceOf(buf))
  {
    var bestb, cexcept := buf[0], buf[1];
    var headerBytes: nat := 2;
    var maxb: nat := 0;
    if cexcept > 0 {
      maxb := buf[2];
      headerBytes := 3 + cexcept;
    }
    var at := (headerBytes + 3) / 4 + 4 * bestb;
    if cexcept > 0 && maxb - bestb > 1 {
      at := SkipLane(at, cexcept, maxb - bestb);
    }
    size := 4 * at;
  }

  lemma MoreGroups(g: nat, n: nat, w: nat)
    ensures (g + n) * w == g * w + n * w
  {
  }

  lemma PaddedEnd(j: nat, g: nat, count: nat)
    requires j == 32 * g && j <= count < j + 32
    ensures j / 32 == g && (count + 31) / 32 * 32 == if j < count then j + 32 else j
  {
  }

  /** Mirrors the address arithmetic of reading a lane. */
  method SkipLane(at: nat, count: nat, w: nat) returns (next: nat)
    requires count <= 128
    ensures next == at + LaneLength(count, w)
  {
    hide LaneLength;
    var j, words := 0, 0;
    ghost var g := 0;
    while j + 128 <= count
      invariant j == 32 * g && j <= count && words == g * w
    {
      MoreGroups(g, 4, w);
      words := words + 4 * w;
      j, g := j + 128, g + 4;
    }
    while j + 31 < count
      invariant j == 32 * g && j <= count && words == g * w
    {
      MoreGroups(g, 1, w);
      words := words + w;
      j, g := j + 32, g + 1;
    }
    PartialAdvance(j, count, w);
    var jPadded := (count + 31) / 32 * 32;
    PaddedEnd(j, g, count);
    next := at + words + (jPadded - j) / 32 * w - (jPadded - count) * w / 32;
  }
}
