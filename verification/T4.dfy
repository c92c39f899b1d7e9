/** Doc-id blocks: gaps stored transposed over four lanes of 32, so decoding is
    four independent running sums, and the chained PFor codec built on them. */
module T4 {
  import opened Bytes
  import opened PForWidth
  import opened PFor

  // A block is 4 lanes of 32 rows of uint32 ids.

  ghost predicate IsBlock(doc: seq<nat>) {
    |doc| == 128 && forall i | 0 <= i < 128 :: doc[i] < 0x1_0000_0000
  }

  /** The id before doc[i]; `base` is the last id of the previous block. */
  function Before(doc: seq<nat>, base: nat, i: nat): (d: nat)
    requires i <= |doc|
  {
    if i == 0 then base else doc[i - 1]
  }

  /** Adjacent gaps of a block. */
  function Gaps(doc: seq<nat>, base: nat): (g: seq<nat>)
    ensures |g| == |doc|
  {
    seq(|doc|, i requires 0 <= i < |doc| => Sub32(doc[i], Before(doc, base, i)))
  }

  /** The gap that slot k holds. */
  function SlotOf(k: nat): (i: nat) { 32 * (k % 4) + k / 4 }

  /** Row m of lane j goes to slot 4 * m + j. */
  function Transposed(g: seq<nat>): (p: seq<nat>)
    requires |g| == 128
    ensures |p| == 128
  {
    seq(128, k requires 0 <= k < 128 => g[SlotOf(k)])
  }

  function Untransposed(p: seq<nat>): (g: seq<nat>)
    requires |p| == 128
    ensures |g| == 128
  {
    seq(128, i requires 0 <= i < 128 => p[4 * (i % 32) + i / 32])
  }

  function Sum(g: seq<nat>, lo: nat, hi: nat): (s: nat)
    requires lo <= hi <= |g|
    decreases hi
  {
    if lo == hi then 0 else Sum(g, lo, hi - 1) + g[hi - 1]
  }

  /** Ids rebuilt from gaps by one running sum. */
  function Docs(g: seq<nat>, base: nat): (doc: seq<nat>)
    ensures |doc| == |g|
  {
    seq(|g|, i requires 0 <= i < |g| => Wrap(base + Sum(g, 0, i + 1)))
  }

  // ----- the two transforms

  lemma SlotOfRow(m: nat, j: nat)
    requires j < 4
    ensures SlotOf(4 * m + j) == 32 * j + m
    ensures forall k | 4 * m <= k < 4 * m + 4 && k % 4 == j :: k == 4 * m + j
  {
  }

  lemma GapAt(doc: seq<nat>, base: nat, i: nat)
    requires i < |doc|
    ensures Gaps(doc, base)[i] == Sub32(doc[i], Before(doc, base, i))
  {
  }

  /** Gaps of lane j, from the id before its first. */
  method DeltaLane(doc: seq<nat>, base: nat, j: nat, phys: array<nat>)
    requires IsBlock(doc) && base < 0x1_0000_0000 && j < 4 && phys.Length == 128
    modifies phys
    ensures forall k | 0 <= k < 128 ::
      phys[k] == if k % 4 == j then Gaps(doc, base)[SlotOf(k)] else old(phys[k])
  {
    hide Sub32, Gaps;
    var prev := if j == 0 then base else doc[32 * j - 1];
    for m := 0 to 32
      invariant prev == Before(doc, base, 32 * j + m)
      invariant forall k | 0 <= k < 128 ::
        phys[k] == if k % 4 == j && k < 4 * m then Gaps(doc, base)[SlotOf(k)] else old(phys[k])
    {
      var d := doc[32 * j + m];
      SlotOfRow(m, j);
      GapAt(doc, base, 32 * j + m);
      phys[4 * m + j] := Sub32(d, prev);
      prev := d;
    }
  }

  method T4Delta(doc: seq<nat>, base: nat) returns (phys: array<nat>)
    requires IsBlock(doc) && base < 0x1_0000_0000
    ensures fresh(phys) && phys[..] == Transposed(Gaps(doc, base))
  {
    hide Gaps;
    phys := new nat[128];
    for j := 0 to 4
      invariant forall k | 0 <= k < 128 && k % 4 < j :: phys[k] == Gaps(doc, base)[SlotOf(k)]
    {
      DeltaLane(doc, base, j, phys);
    }
  }

  // ----- transposing permutes

  lemma UntransposeInverts(g: seq<nat>)
    requires |g| == 128
    ensures Untransposed(Transposed(g)) == g
  {
    forall i | 0 <= i < 128 ensures Untransposed(Transposed(g))[i] == g[i] {
      var k := 4 * (i % 32) + i / 32;
      assert k % 4 == i / 32 && k / 4 == i % 32;
    }
  }

  lemma TransposedRow(g: seq<nat>, m: nat)
    requires |g| == 128 && m < 32
    ensures Transposed(g)[4 * m] == g[m] && Transposed(g)[4 * m + 1] == g[32 + m]
    ensures Transposed(g)[4 * m + 2] == g[64 + m] && Transposed(g)[4 * m + 3] == g[96 + m]
  {
    var p := Transposed(g);
    assert p[4 * m] == g[m] && p[4 * m + 1] == g[32 + m] && p[4 * m + 2] == g[64 + m] && p[4 * m + 3] == g[96 + m];
  }

  lemma TakeOneMore(g: seq<nat>, at: nat, n: nat)
    requires at + n < |g|
    ensures multiset(g[at..at + n + 1]) == multiset(g[at..at + n]) + multiset{g[at + n]}
  {
    assert g[at..at + n + 1] == g[at..at + n] + [g[at + n]];
  }

  lemma AddInTurn(s: multiset<nat>, w: multiset<nat>, x: multiset<nat>, y: multiset<nat>, z: multiset<nat>)
    ensures s + w + x + y + z == s + (w + x + y + z)
  {
  }

  lemma Regroup(a: multiset<nat>, b: multiset<nat>, c: multiset<nat>, d: multiset<nat>,
                w: multiset<nat>, x: multiset<nat>, y: multiset<nat>, z: multiset<nat>)
    ensures (a + b + c + d) + (w + x + y + z) == (a + w) + (b + x) + (c + y) + (d + z)
  {
  }

  lemma RowAdds(g: seq<nat>, m: nat)
    requires |g| == 128 && m < 32
    ensures multiset(Transposed(g)[..4 * (m + 1)]) == multiset(Transposed(g)[..4 * m])
      + (multiset{g[m]} + multiset{g[32 + m]} + multiset{g[64 + m]} + multiset{g[96 + m]})
  {
    TransposedRow(g, m);
    hide Transposed;
    var p := Transposed(g);
    TakeOneMore(p, 0, 4 * m);
    TakeOneMore(p, 0, 4 * m + 1);
    TakeOneMore(p, 0, 4 * m + 2);
    TakeOneMore(p, 0, 4 * m + 3);
    AddInTurn(multiset(p[..4 * m]), multiset{g[m]}, multiset{g[32 + m]}, multiset{g[64 + m]}, multiset{g[96 + m]});
  }

  /** After m rows, the slots hold the first m gaps of each lane. */
  lemma {:induction false} TransposedRows(g: seq<nat>, m: nat)
    requires |g| == 128 && m <= 32
    ensures multiset(Transposed(g)[..4 * m])
         == multiset(g[0..m]) + multiset(g[32..32 + m]) + multiset(g[64..64 + m]) + multiset(g[96..96 + m])
  {
    if m == 0 {
      assert Transposed(g)[..0] == g[0..0] == g[32..32] == g[64..64] == g[96..96] == [];
    } else {
      hide Transposed;
      var n := m - 1;
      TransposedRows(g, n);
      RowAdds(g, n);
      TakeOneMore(g, 0, n);
      TakeOneMore(g, 32, n);
      TakeOneMore(g, 64, n);
      TakeOneMore(g, 96, n);
      Regroup(multiset(g[0..n]), multiset(g[32..32 + n]), multiset(g[64..64 + n]), multiset(g[96..96 + n]),
              multiset{g[n]}, multiset{g[32 + n]}, multiset{g[64 + n]}, multiset{g[96 + n]});
    }
  }

  lemma TransposedIsPermutation(g: seq<nat>)
    requires |g| == 128
    ensures multiset(Transposed(g)) == multiset(g)
  {
    TransposedRows(g, 32);
    assert Transposed(g)[..128] == Transposed(g);
    assert g == g[0..32] + g[32..64] + g[64..96] + g[96..128];
  }

  // ----- running sums undo gaps

  lemma {:induction false} SumSplit(g: seq<nat>, a: nat, b: nat, c: nat)
    requires a <= b <= c <= |g|
    ensures Sum(g, a, c) == Sum(g, a, b) + Sum(g, b, c)
    decreases c
  {
    if b < c { SumSplit(g, a, b, c - 1); }
  }

  lemma {:induction false} SumOfGaps(doc: seq<nat>, base: nat, i: nat)
    requires base < 0x1_0000_0000 && i <= |doc|
    requires forall k | 0 <= k < |doc| :: doc[k] < 0x1_0000_0000
    ensures Wrap(base + Sum(Gaps(doc, base), 0, i)) == Before(doc, base, i)
  {
    hide Wrap, Sub32, Gaps;
    if i == 0 {
      WrapSmall(base);
    } else {
      SumOfGaps(doc, base, i - 1);
      var g := Gaps(doc, base);
      GapAt(doc, base, i - 1);
      AddSub(base + Sum(g, 0, i - 1), doc[i - 1], Before(doc, base, i - 1));
    }
  }

  lemma WrapSmall(a: nat)
    requires a < 0x1_0000_0000
    ensures Wrap(a) == a
  {
  }

  lemma AddSub(s: nat, d: nat, prev: nat)
    requires d < 0x1_0000_0000 && Wrap(s) == prev
    ensures Wrap(s + Sub32(d, prev)) == d
  {
  }

  lemma DocsOfGaps(doc: seq<nat>, base: nat)
    requires base < 0x1_0000_0000
    requires forall k | 0 <= k < |doc| :: doc[k] < 0x1_0000_0000
    ensures Docs(Gaps(doc, base), base) == doc
  {
    hide Sum, Wrap, Gaps;
    forall i | 0 <= i < |doc| ensures Docs(Gaps(doc, base), base)[i] == doc[i] {
      SumOfGaps(doc, base, i + 1);
    }
  }

  // ----- decoding: four running sums

  /** Sum of rows 0 .. m of lane j. */
  ghost function LaneSum(g: seq<nat>, j: nat, m: nat): (s: nat)
    requires |g| == 128 && j < 4 && m < 32
  {
    Sum(g, 32 * j, 32 * j + m + 1)
  }

  lemma LaneSumStep(p: seq<nat>, k: nat)
    requires |p| == 128 && k < 128
    ensures
      var g := Untransposed(p);
      LaneSum(g, k % 4, k / 4) == (if k < 4 then 0 else LaneSum(g, (k - 4) % 4, (k - 4) / 4)) + p[k]
  {
    var g, i := Untransposed(p), 32 * (k % 4) + k / 4;
    assert i % 32 == k / 4 && i / 32 == k % 4 && g[i] == p[k];
    assert Sum(g, 32 * (k % 4), i + 1) == Sum(g, 32 * (k % 4), i) + g[i];
  }

  /** Entry k is the running sum at row k / 4 of lane k % 4. */
  ghost predicate AreRows(rows: seq<nat>, g: seq<nat>)
    requires |g| == 128
  {
    |rows| <= 128 && forall k | 0 <= k < |rows| :: rows[k] == Wrap(LaneSum(g, k % 4, k / 4))
  }

  /** Entry j is the id before lane j. */
  ghost predicate AreBases(off: seq<nat>, g: seq<nat>, base: nat)
    requires |g| == 128
  {
    |off| <= 4 && forall j | 0 <= j < |off| :: off[j] == Wrap(base + Sum(g, 0, 32 * j))
  }

  /** Vertical running sums: each row adds to the row of four lanes above it. */
  method RunningRows(p: seq<nat>) returns (rows: seq<nat>)
    requires |p| == 128
    ensures |rows| == 128 && AreRows(rows, Untransposed(p))
  {
    hide Sum, LaneSum, Untransposed, Wrap, Add32;
    rows := [];
    for k := 0 to 128
      invariant |rows| == k && AreRows(rows, Untransposed(p))
    {
      LaneSumStep(p, k);
      ghost var above := if k < 4 then 0 else LaneSum(Untransposed(p), (k - 4) % 4, (k - 4) / 4);
      AddWrapped(above, p[k]);
      WrapZero();
      var acc := if k < 4 then 0 else rows[k - 4];
      rows := rows + [Add32(acc, p[k])];
    }
  }

  lemma WrapZero()
    ensures Wrap(0) == 0
  {
  }

  /** The block base plus the totals (last rows) of the lanes below. */
  method LaneBases(rows: seq<nat>, base: nat, ghost g: seq<nat>) returns (off: seq<nat>)
    requires |rows| == 128 && |g| == 128 && base < 0x1_0000_0000 && AreRows(rows, g)
    ensures |off| == 4 && AreBases(off, g, base)
  {
    hide Sum, Wrap, Add32, AreRows;
    FirstBase(g, base);
    off := [base];
    for j := 1 to 4
      invariant |off| == j && AreBases(off, g, base)
    {
      LaneBaseStep(rows, base, g, j - 1);
      off := off + [Add32(off[j - 1], rows[124 + (j - 1)])];
    }
  }

  lemma FirstBase(g: seq<nat>, base: nat)
    requires |g| == 128 && base < 0x1_0000_0000
    ensures AreBases([base], g, base)
  {
  }

  /** The last row holds the lane totals. */
  lemma LastRow(rows: seq<nat>, g: seq<nat>, j: nat)
    requires |rows| == 128 && |g| == 128 && AreRows(rows, g) && j < 4
    ensures rows[124 + j] == Wrap(Sum(g, 32 * j, 32 * (j + 1)))
  {
    hide Sum, Wrap;
    assert (124 + j) % 4 == j && (124 + j) / 4 == 31;
  }

  lemma LaneBaseStep(rows: seq<nat>, base: nat, g: seq<nat>, j: nat)
    requires |rows| == 128 && |g| == 128 && AreRows(rows, g) && j < 3
    ensures Add32(Wrap(base + Sum(g, 0, 32 * j)), rows[124 + j]) == Wrap(base + Sum(g, 0, 32 * (j + 1)))
  {
    hide Sum, Wrap, Add32, AreRows;
    var n, before, here := 32 * (j + 1), Sum(g, 0, 32 * j), Sum(g, 32 * j, 32 * (j + 1));
    SumSplit(g, 0, 32 * j, n);
    LastRow(rows, g, j);
    AddWrapped(base + before, here);
    assert base + before + here == base + Sum(g, 0, n);
  }

  lemma DocFromLane(rows: seq<nat>, off: seq<nat>, base: nat, g: seq<nat>, i: nat)
    requires |rows| == 128 && |g| == 128 && AreRows(rows, g) && |off| == 4 && AreBases(off, g, base) && i < 128
    ensures Add32(rows[4 * (i % 32) + i / 32], off[i / 32]) == Wrap(base + Sum(g, 0, i + 1))
  {
    hide Sum, Wrap, Add32;
    var j, k := i / 32, 4 * (i % 32) + i / 32;
    assert k % 4 == j && k / 4 == i % 32;
    SumSplit(g, 0, 32 * j, i + 1);
    AddWrapped(Sum(g, 32 * j, i + 1), base + Sum(g, 0, 32 * j));
  }

  /** In place: transposed gaps become the block's ids in natural order. */
  method T4InverseDelta(p: array<nat>, base: nat)
    requires p.Length == 128 && base < 0x1_0000_0000
    modifies p
    ensures p[..] == Docs(Untransposed(old(p[..])), base)
  {
    hide Sum, Wrap, Add32, Untransposed, AreRows, AreBases;
    ghost var g := Untransposed(p[..]);
    var rows := RunningRows(p[..]);
    var off := LaneBases(rows, base, g);
    for i := 0 to 128
      invariant forall i' | 0 <= i' < i :: p[i'] == Wrap(base + Sum(g, 0, i' + 1))
    {
      DocFromLane(rows, off, base, g, i);
      p[i] := Add32(rows[4 * (i % 32) + i / 32], off[i / 32]);
    }
  }

  /** T4 delta then its inverse is the identity on every block, ascending or not. */
  lemma InverseUndoesDelta(doc: seq<nat>, base: nat)
    requires IsBlock(doc) && base < 0x1_0000_0000
    ensures Docs(Untransposed(Transposed(Gaps(doc, base))), base) == doc
  {
    UntransposeInverts(Gaps(doc, base));
    DocsOfGaps(doc, base);
  }

  lemma GapsFit(doc: seq<nat>, base: nat)
    requires IsBlock(doc)
    ensures Fits(Gaps(doc, base), 32) && Fits(Transposed(Gaps(doc, base)), 32)
  {
    WordBound();
  }

  /** Transposing the gaps costs nothing: same widths, exception count and size
      as the plain adjacent delta. */
  lemma SameCostAsAdjacentDelta(doc: seq<nat>, base: nat, t4: Choice, d1: Choice)
    requires IsBlock(doc)
    requires IsBest(Transposed(Gaps(doc, base)), t4) && IsBest(Gaps(doc, base), d1)
    ensures t4 == d1 && BlockBytes(t4) == BlockBytes(d1)
  {
    TransposedIsPermutation(Gaps(doc, base));
    SameChoiceForPermutation(Transposed(Gaps(doc, base)), Gaps(doc, base), t4, d1);
  }

  // ----- the document codec, one block and chained blocks

  ghost predicate DocsEncodable(doc: seq<nat>, base: nat, ch: Choice) {
    IsBlock(doc) && base < 0x1_0000_0000 && Encodable(Transposed(Gaps(doc, base)), ch)
  }

  ghost function EncodedDocs(doc: seq<nat>, base: nat, ch: Choice): (s: seq<Byte>)
    requires DocsEncodable(doc, base, ch)
  {
    Encoded(Transposed(Gaps(doc, base)), ch)
  }

  ghost function DecodedDocs(buf: seq<Byte>, base: nat): (doc: seq<nat>)
    requires WellFormed(buf)
    ensures |doc| == 128
  {
    Docs(Untransposed(Decoded(buf)), base)
  }

  method EncodeBlockD(doc: seq<nat>, base: nat) returns (out: seq<Byte>, ghost ch: Choice)
    requires IsBlock(doc) && base < 0x1_0000_0000
    ensures DocsEncodable(doc, base, ch) && IsBest(Transposed(Gaps(doc, base)), ch)
    ensures out == EncodedDocs(doc, base, ch)
    ensures WellFormed(out) && DecodedDocs(out, base) == doc
  {
    var phys := T4Delta(doc, base);
    GapsFit(doc, base);
    out, ch := EncodeBlockPFor(phys[..]);
    hide WellFormed, Transposed, Gaps, IsBest, IsBlock;
    DocsRoundTrip(doc, base, ch, []);
    assert out + [] == out;
  }

  method DecodeBlockD(buf: seq<Byte>, base: nat, out: array<nat>) returns (size: nat)
    requires WellFormed(buf) && out.Length == 128 && base < 0x1_0000_0000
    modifies out
    ensures out[..] == DecodedDocs(buf, base)
    ensures size == BlockBytes(ChoiceOf(buf))
  {
    size := DecodeBlockPFor(buf, out);
    T4InverseDelta(out, base);
  }

  lemma DocsRoundTrip(doc: seq<nat>, base: nat, ch: Choice, rest: seq<Byte>)
    requires DocsEncodable(doc, base, ch)
    ensures
      var buf := EncodedDocs(doc, base, ch) + rest;
      && WellFormed(buf) && DecodedDocs(buf, base) == doc
      && BlockBytes(ChoiceOf(buf)) == |EncodedDocs(doc, base, ch)|
  {
    DecodeInvertsEncode(Transposed(Gaps(doc, base)), ch, rest);
    EncodedLength(Transposed(Gaps(doc, base)), ch);
    InverseUndoesDelta(doc, base);
  }

  /** Each block is coded from the last id of the one before it. */
  ghost predicate ChainEncodable(blocks: seq<seq<nat>>, chs: seq<Choice>, base: nat) {
    |blocks| == |chs| &&
    (blocks != [] ==>
       DocsEncodable(blocks[0], base, chs[0]) && ChainEncodable(blocks[1..], chs[1..], blocks[0][127]))
  }

  ghost function EncodedChain(blocks: seq<seq<nat>>, chs: seq<Choice>, base: nat): (s: seq<Byte>)
    requires ChainEncodable(blocks, chs, base)
  {
    if blocks == [] then []
    else EncodedDocs(blocks[0], base, chs[0]) + EncodedChain(blocks[1..], chs[1..], blocks[0][127])
  }

  /** Reads n blocks, each starting where the previous one's reported size ends,
      stopping at one that cannot be walked. */
  ghost function DecodedChain(buf: seq<Byte>, n: nat, base: nat): (blocks: seq<seq<nat>>)
    decreases n
  {
    if n == 0 || !WellFormed(buf) then []
    else
      var doc := DecodedDocs(buf, base);
      [doc] + DecodedChain(buf[BlockBytes(ChoiceOf(buf))..], n - 1, doc[127])
  }

  /** Decoding a chain of encoded blocks returns every block. */
  lemma {:induction false} ChainRoundTrip(blocks: seq<seq<nat>>, chs: seq<Choice>, base: nat, rest: seq<Byte>)
    requires ChainEncodable(blocks, chs, base)
    ensures DecodedChain(EncodedChain(blocks, chs, base) + rest, |blocks|, base) == blocks
  {
    hide EncodedDocs, DecodedDocs, WellFormed, BlockBytes, ChoiceOf, Encodable;
    if blocks != [] {
      var first := EncodedDocs(blocks[0], base, chs[0]);
      var others := EncodedChain(blocks[1..], chs[1..], blocks[0][127]) + rest;
      assert EncodedChain(blocks, chs, base) + rest == first + others;
      DocsRoundTrip(blocks[0], base, chs[0], others);
      ChainRoundTrip(blocks[1..], chs[1..], blocks[0][127], rest);
      assert (first + others)[|first|..] == others;
    }
  }
}
