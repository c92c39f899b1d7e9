/** UTF-8 validation: the grammar of section 4 of RFC 3629, the scalar validator,
    and the lookup-table block checker with its ASCII shortcut. */
module Utf8 {

  type Byte = bv8

  // ----- section 4 of RFC 3629

  predicate Tail(b: Byte) { 0x80 <= b <= 0xBF }

  predicate Two(a: Byte, b: Byte) { 0xC2 <= a <= 0xDF && Tail(b) }

  predicate Three(a: Byte, b: Byte, c: Byte) {
    && Tail(c)
    && (|| (a == 0xE0 && 0xA0 <= b <= 0xBF)
        || (0xE1 <= a <= 0xEC && Tail(b))
        || (a == 0xED && 0x80 <= b <= 0x9F)
        || (0xEE <= a <= 0xEF && Tail(b)))
  }

  predicate Four(a: Byte, b: Byte, c: Byte, d: Byte) {
    && Tail(c) && Tail(d)
    && (|| (a == 0xF0 && 0x90 <= b <= 0xBF)
        || (0xF1 <= a <= 0xF3 && Tail(b))
        || (a == 0xF4 && 0x80 <= b <= 0x8F))
  }

  /** Length of the UTF8-char at the start of s; 0 if there is none. */
  function CharLength(s: seq<Byte>): (n: nat)
    ensures n <= |s|
  {
    if |s| >= 1 && s[0] <= 0x7F then 1
    else if |s| >= 2 && Two(s[0], s[1]) then 2
    else if |s| >= 3 && Three(s[0], s[1], s[2]) then 3
    else if |s| >= 4 && Four(s[0], s[1], s[2], s[3]) then 4
    else 0
  }

  /** A sequence of UTF8-chars. */
  predicate WellFormed(s: seq<Byte>)
    decreases |s|
  {
    s == [] || (CharLength(s) > 0 && WellFormed(s[CharLength(s)..]))
  }

  predicate Ascii(s: seq<Byte>) { forall i | 0 <= i < |s| :: s[i] < 0x80 }

  lemma {:induction false} SkipAscii(s: seq<Byte>, n: nat)
    requires n <= |s| && Ascii(s[..n])
    ensures WellFormed(s) == WellFormed(s[n..])
  {
    if n > 0 {
      assert s[0] == s[..n][0];
      assert s[1..][..n - 1] == s[..n][1..];
      SkipAscii(s[1..], n - 1);
      assert s[1..][n - 1..] == s[n..];
    } else {
      assert s[0..] == s;
    }
  }

  /** Trailing ASCII completes nothing and breaks nothing. */
  lemma {:induction false} AppendAscii(s: seq<Byte>, pad: seq<Byte>)
    requires Ascii(pad)
    ensures WellFormed(s + pad) == WellFormed(s)
    decreases |s|
  {
    if s == [] {
      assert s + pad == pad && pad[|pad|..] == [];
      assert Ascii(pad[..|pad|]);
      SkipAscii(pad, |pad|);
    } else {
      var n := CharLength(s);
      CharLengthOfAppend(s, pad);
      if n > 0 {
        AppendAscii(s[n..], pad);
        assert (s + pad)[n..] == s[n..] + pad;
      }
    }
  }

  lemma CharLengthOfAppend(s: seq<Byte>, pad: seq<Byte>)
    requires s != [] && Ascii(pad)
    ensures CharLength(s + pad) == CharLength(s)
  {
    var t := s + pad;
    assert forall i | 0 <= i < |s| :: t[i] == s[i];
    assert forall i | |s| <= i < |t| :: t[i] == pad[i - |s|];
  }

  // ----- one lane of the block checker

  const TOO_SHORT: Byte := 1
  const TOO_LONG: Byte := 2
  const OVERLONG_3: Byte := 4
  const TOO_LARGE: Byte := 8
  const SURROGATE: Byte := 16
  const OVERLONG_2: Byte := 32
  const TOO_LARGE_1000: Byte := 64
  const OVERLONG_4: Byte := 64
  const TWO_CONTS: Byte := 128
  const CARRY: Byte := TOO_SHORT | TOO_LONG | TWO_CONTS

  /** Table indexed by the high nibble of the previous byte. */
  function Byte1High(n: Byte): (bits: Byte) {
    if n < 8 then TOO_LONG
    else if n < 12 then TWO_CONTS
    else if n == 12 then TOO_SHORT | OVERLONG_2
    else if n == 13 then TOO_SHORT
    else if n == 14 then TOO_SHORT | OVERLONG_3 | SURROGATE
    else TOO_SHORT | TOO_LARGE | TOO_LARGE_1000 | OVERLONG_4
  }

  /** Table indexed by the low nibble of the previous byte. */
  function Byte1Low(n: Byte): (bits: Byte) {
    if n == 0 then CARRY | OVERLONG_3 | OVERLONG_2 | OVERLONG_4
    else if n == 1 then CARRY | OVERLONG_2
    else if n < 4 then CARRY
    else if n == 4 then CARRY | TOO_LARGE
    else if n == 13 then CARRY | TOO_LARGE | TOO_LARGE_1000 | SURROGATE
    else CARRY | TOO_LARGE | TOO_LARGE_1000
  }

  /** Table indexed by the high nibble of the byte itself. */
  function Byte2High(n: Byte): (bits: Byte) {
    if n < 8 || n >= 12 then TOO_SHORT
    else if n == 8 then TOO_LONG | OVERLONG_2 | TWO_CONTS | OVERLONG_3 | TOO_LARGE_1000 | OVERLONG_4
    else if n == 9 then TOO_LONG | OVERLONG_2 | TWO_CONTS | OVERLONG_3 | TOO_LARGE
    else TOO_LONG | OVERLONG_2 | TWO_CONTS | SURROGATE | TOO_LARGE
  }

  function SpecialCases(input: Byte, prev1: Byte): (bits: Byte) {
    Byte1High(prev1 >> 4) & Byte1Low(prev1 & 0x0F) & Byte2High(input >> 4)
  }

  function SaturatingSub(a: Byte, b: Byte): (r: Byte) { if a >= b then a - b else 0 }

  /** All-ones byte when the lane must hold a second or third continuation; the
      comparison with zero is signed. */
  function MustBe23Continuation(prev2: Byte, prev3: Byte): (mask: Byte) {
    var r := SaturatingSub(prev2, 0xDF) | SaturatingSub(prev3, 0xEF);
    if 0 < r < 0x80 then 0xFF else 0
  }

  /** Error bits of a lane given its three predecessors. */
  function LaneError(prev3: Byte, prev2: Byte, prev1: Byte, input: Byte): (bits: Byte) {
    (MustBe23Continuation(prev2, prev3) & 0x80) ^ SpecialCases(input, prev1)
  }

  /** The three bytes start nothing that is still owed continuation bytes. */
  predicate Complete(p3: Byte, p2: Byte, p1: Byte) { p1 < 0xC0 && p2 < 0xE0 && p3 < 0xF0 }

  lemma LaneAfterComplete(p3: Byte, p2: Byte, p1: Byte, b: Byte)
    requires Complete(p3, p2, p1)
    ensures LaneError(p3, p2, p1, b) == 0 <==> !Tail(b)
  {
  }

  lemma SecondLane(p2: Byte, p1: Byte, a: Byte, b: Byte)
    requires p1 < 0xC0 && p2 < 0xE0 && a >= 0xC0
    ensures LaneError(p2, p1, a, b) == 0
       <==> || (0xC2 <= a <= 0xDF && Tail(b))
            || (a == 0xE0 && 0xA0 <= b <= 0xBF) || (0xE1 <= a <= 0xEC && Tail(b))
            || (a == 0xED && 0x80 <= b <= 0x9F) || (0xEE <= a <= 0xEF && Tail(b))
            || (a == 0xF0 && 0x90 <= b <= 0xBF) || (0xF1 <= a <= 0xF3 && Tail(b))
            || (a == 0xF4 && 0x80 <= b <= 0x8F)
  {
  }

  lemma ThirdLane(p1: Byte, a: Byte, b: Byte, c: Byte)
    requires p1 < 0xC0 && a >= 0xE0 && Tail(b)
    ensures LaneError(p1, a, b, c) == 0 <==> Tail(c)
  {
  }

  lemma FourthLane(a: Byte, b: Byte, c: Byte, d: Byte)
    requires a >= 0xF0 && Tail(b) && Tail(c)
    ensures LaneError(a, b, c, d) == 0 <==> Tail(d)
  {
  }

  // ----- all lanes of a run, with three bytes of context in front

  predicate LaneOk(t: seq<Byte>, i: nat)
    requires 3 <= i < |t|
  {
    LaneError(t[i - 3], t[i - 2], t[i - 1], t[i]) == 0
  }

  predicate NoErrors(t: seq<Byte>) {
    forall i | 3 <= i < |t| :: LaneOk(t, i)
  }

  predicate EndsComplete(t: seq<Byte>)
    requires |t| >= 3
  {
    Complete(t[|t| - 3], t[|t| - 2], t[|t| - 1])
  }

  /** The first n lanes, then the rest with their own context. */
  lemma SplitLanes(t: seq<Byte>, n: nat)
    requires 3 + n <= |t|
    ensures NoErrors(t) <==> NoErrors(t[n..]) && forall i | 3 <= i < 3 + n :: LaneOk(t, i)
  {
    hide LaneError;
    forall i | 3 <= i < |t| - n ensures LaneOk(t[n..], i) == LaneOk(t, i + n) {
    }
    if NoErrors(t[n..]) && forall i | 3 <= i < 3 + n :: LaneOk(t, i) {
      forall i | 3 <= i < |t| ensures LaneOk(t, i) {
        if i >= 3 + n { assert LaneOk(t[n..], i - n); }
      }
    }
  }

  /** With a complete context, the lanes accept a UTF8-char and end complete. */
  lemma CharAccepted(t: seq<Byte>)
    requires |t| > 3 && Complete(t[0], t[1], t[2]) && CharLength(t[3..]) > 0
    ensures
      var n := CharLength(t[3..]);
      (forall i | 3 <= i < 3 + n :: LaneOk(t, i)) && Complete(t[n], t[n + 1], t[n + 2])
  {
    hide LaneError;
    var s := t[3..];
    LaneAfterComplete(t[0], t[1], t[2], t[3]);
    if t[3] >= 0xC0 {
      assert s[1] == t[4];
      SecondLane(t[1], t[2], t[3], t[4]);
      if t[3] >= 0xE0 {
        assert s[2] == t[5];
        ThirdLane(t[2], t[3], t[4], t[5]);
        if t[3] >= 0xF0 {
          assert s[3] == t[6];
          FourthLane(t[3], t[4], t[5], t[6]);
        }
      }
    }
  }

  /** Anything else either fails a lane or leaves the run incomplete. */
  lemma NonCharRejected(t: seq<Byte>)
    requires |t| > 3 && Complete(t[0], t[1], t[2]) && CharLength(t[3..]) == 0 && NoErrors(t)
    ensures !EndsComplete(t)
  {
    hide LaneError;
    var s := t[3..];
    LaneAfterComplete(t[0], t[1], t[2], t[3]);
    assert LaneOk(t, 3);
    if |t| > 4 {
      assert s[1] == t[4] && LaneOk(t, 4);
      SecondLane(t[1], t[2], t[3], t[4]);
      if |t| > 5 {
        assert s[2] == t[5] && LaneOk(t, 5);
        ThirdLane(t[2], t[3], t[4], t[5]);
        if |t| > 6 {
          assert s[3] == t[6] && LaneOk(t, 6);
          FourthLane(t[3], t[4], t[5], t[6]);
        }
      }
    }
  }

  /** After a complete context, error-free lanes with a complete end are exactly
      well-formed UTF-8. */
  lemma {:induction false} LanesAreGrammar(t: seq<Byte>)
    requires |t| >= 3 && Complete(t[0], t[1], t[2])
    ensures NoErrors(t) && EndsComplete(t) <==> WellFormed(t[3..])
    decreases |t|
  {
    hide LaneOk;
    if |t| > 3 {
      var n := CharLength(t[3..]);
      if n == 0 {
        if NoErrors(t) { NonCharRejected(t); }
      } else {
        CharAccepted(t);
        SplitLanes(t, n);
        LanesAreGrammar(t[n..]);
        assert t[n..][3..] == t[3..][n..];
      }
    }
  }

  /** The last three bytes of a run: the context of what follows. */
  function Context(t: seq<Byte>): (c: seq<Byte>)
    requires |t| >= 3
  {
    t[|t| - 3..]
  }

  lemma JoinRuns(a: seq<Byte>, b: seq<Byte>)
    requires |a| >= 3
    ensures NoErrors(a + b) <==> NoErrors(a) && NoErrors(Context(a) + b)
  {
    hide LaneError;
    SplitLanes(a + b, |a| - 3);
    assert (a + b)[|a| - 3..] == Context(a) + b;
    forall i | 3 <= i < |a| ensures LaneOk(a + b, i) == LaneOk(a, i) {
    }
  }

  lemma LaneWithAscii(p3: Byte, p2: Byte, p1: Byte, b: Byte)
    requires b < 0x80
    ensures LaneError(p3, p2, p1, b) == 0 <==> Complete(p3, p2, p1)
  {
  }

  /** ASCII after a context is error-free exactly when the context owes nothing. */
  lemma AsciiRun(c: seq<Byte>, block: seq<Byte>)
    requires |c| == 3 && |block| >= 1 && Ascii(block)
    ensures NoErrors(c + block) <==> Complete(c[0], c[1], c[2])
  {
    hide LaneError;
    var t := c + block;
    forall i | 3 <= i < |t| ensures LaneOk(t, i) <==> Complete(t[i - 3], t[i - 2], t[i - 1]) {
      assert t[i] == block[i - 3];
      LaneWithAscii(t[i - 3], t[i - 2], t[i - 1], t[i]);
    }
    if Complete(c[0], c[1], c[2]) {
      forall i | 3 <= i < |t| ensures LaneOk(t, i) {
        assert i >= 4 ==> t[i - 1] == block[i - 4];
        assert i >= 5 ==> t[i - 2] == block[i - 5];
        assert i >= 6 ==> t[i - 3] == block[i - 6];
      }
    }
    assert LaneOk(t, 3) <==> Complete(c[0], c[1], c[2]);
  }

  lemma LaneIgnoresCompleted(p2: Byte, p1: Byte, q2: Byte, q1: Byte, x: Byte, y: Byte, z: Byte)
    requires p1 < 0xC0 && p2 < 0xE0 && q1 < 0xC0 && q2 < 0xE0
    ensures LaneError(p2, p1, x, y) == LaneError(q2, q1, x, y)
    ensures LaneError(p1, x, y, z) == LaneError(q1, x, y, z)
  {
  }

  /** Which complete context precedes a run does not matter. */
  lemma ContextIrrelevant(c: seq<Byte>, d: seq<Byte>, block: seq<Byte>)
    requires |c| == |d| == 3 && |block| >= 3
    requires Complete(c[0], c[1], c[2]) && Complete(d[0], d[1], d[2])
    ensures NoErrors(c + block) <==> NoErrors(d + block)
  {
    hide LaneError;
    var t, u := c + block, d + block;
    LaneAfterComplete(c[0], c[1], c[2], block[0]);
    LaneAfterComplete(d[0], d[1], d[2], block[0]);
    LaneIgnoresCompleted(c[1], c[2], d[1], d[2], block[0], block[1], block[2]);
    forall i | 3 <= i < |t| ensures LaneOk(t, i) == LaneOk(u, i) {
      assert t[3..] == u[3..] == block;
    }
  }

  // ----- the checker's state

  predicate AnyBits(v: seq<Byte>) { exists i | 0 <= i < |v| :: v[i] != 0 }

  function OrAll(a: seq<Byte>, b: seq<Byte>): (c: seq<Byte>)
    requires |a| == |b|
    ensures |c| == |a| && forall i | 0 <= i < |a| :: c[i] == a[i] | b[i]
  {
    seq(|a|, i requires 0 <= i < |a| => a[i] | b[i])
  }

  lemma AnyOfOr(a: seq<Byte>, b: seq<Byte>)
    requires |a| == |b|
    ensures AnyBits(OrAll(a, b)) <==> AnyBits(a) || AnyBits(b)
  {
    var c := OrAll(a, b);
    if AnyBits(a) || AnyBits(b) {
      var i :| 0 <= i < |a| && (a[i] != 0 || b[i] != 0);
      assert c[i] != 0;
    }
    if AnyBits(c) {
      var i :| 0 <= i < |c| && c[i] != 0;
      assert a[i] != 0 || b[i] != 0;
    }
  }

  /** Error bits of a 32-byte chunk, lanes reaching back into the previous one. */
  function ChunkErrors(input: seq<Byte>, prev: seq<Byte>): (e: seq<Byte>)
    requires |input| == |prev| == 32
    ensures |e| == 32
  {
    var w := prev + input;
    seq(32, i requires 0 <= i < 32 => LaneError(w[29 + i], w[30 + i], w[31 + i], w[32 + i]))
  }

  lemma ChunkErrorsAreLanes(input: seq<Byte>, prev: seq<Byte>)
    requires |input| == |prev| == 32
    ensures !AnyBits(ChunkErrors(input, prev)) <==> NoErrors(Context(prev) + input)
  {
    hide LaneError;
    var e, t, w := ChunkErrors(input, prev), Context(prev) + input, prev + input;
    assert t == w[29..];
    forall i | 3 <= i < 35 ensures LaneOk(t, i) <==> e[i - 3] == 0 {
    }
    if NoErrors(t) {
      forall k | 0 <= k < 32 ensures e[k] == 0 { assert LaneOk(t, k + 3); }
    }
  }

  /** Last three lanes compared with the largest byte that owes nothing there. */
  function IsIncomplete(input: seq<Byte>): (e: seq<Byte>)
    requires |input| == 32
    ensures |e| == 32
  {
    seq(32, i requires 0 <= i < 32 =>
      SaturatingSub(input[i], if i == 29 then 0xEF else if i == 30 then 0xDF else if i == 31 then 0xBF else 0xFF))
  }

  lemma IncompleteIffEndOwes(input: seq<Byte>)
    requires |input| == 32
    ensures AnyBits(IsIncomplete(input)) <==> !EndsComplete(input)
  {
    var e := IsIncomplete(input);
    assert e[29] != 0 <==> input[29] >= 0xF0;
    assert e[30] != 0 <==> input[30] >= 0xE0;
    assert e[31] != 0 <==> input[31] >= 0xC0;
    forall i | 0 <= i < 29 ensures e[i] == 0 {
    }
  }

  /** Everything checked so far, after the zero bytes the checker starts from. */
  function Run(seen: seq<Byte>): (t: seq<Byte>) { [0, 0, 0] + seen }

  predicate SameContext(a: seq<Byte>, b: seq<Byte>)
    requires |a| >= 3 && |b| >= 3
  {
    Context(a) == Context(b) || (EndsComplete(a) && EndsComplete(b))
  }

  /** What the three state words know of the bytes seen. After ASCII blocks the
      last two are stale: they describe an earlier block. */
  ghost predicate Tracks(error: seq<Byte>, prevInput: seq<Byte>, prevIncomplete: seq<Byte>, seen: seq<Byte>) {
    && |error| == |prevInput| == |prevIncomplete| == 32
    && (AnyBits(error) <==> !NoErrors(Run(seen)))
    && (AnyBits(prevIncomplete) <==> !EndsComplete(prevInput))
    && (!AnyBits(error) ==> SameContext(prevInput, Run(seen)))
  }

  lemma ContextOfSame(a: seq<Byte>, b: seq<Byte>)
    requires |a| >= 3 && |b| >= 3 && SameContext(a, b)
    ensures EndsComplete(a) <==> EndsComplete(b)
  {
    assert Context(a)[0] == a[|a| - 3] && Context(a)[1] == a[|a| - 2] && Context(a)[2] == a[|a| - 1];
    assert Context(b)[0] == b[|b| - 3] && Context(b)[1] == b[|b| - 2] && Context(b)[2] == b[|b| - 1];
  }

  /** The ASCII shortcut: only a pending incomplete character can go wrong. */
  lemma AsciiBlockStep(error: seq<Byte>, prevInput: seq<Byte>, prevIncomplete: seq<Byte>, seen: seq<Byte>, block: seq<Byte>)
    requires Tracks(error, prevInput, prevIncomplete, seen) && |block| == 64 && Ascii(block)
    ensures Tracks(OrAll(error, prevIncomplete), prevInput, prevIncomplete, seen + block)
  {
    hide NoErrors, AnyBits, Complete;
    var t := Run(seen);
    assert Run(seen + block) == t + block;
    AnyOfOr(error, prevIncomplete);
    JoinRuns(t, block);
    AsciiRun(Context(t), block);
    assert EndsComplete(t + block) by { AsciiEnds(t, block); }
    if !AnyBits(error) { ContextOfSame(prevInput, t); }
  }

  lemma AsciiEnds(t: seq<Byte>, block: seq<Byte>)
    requires |block| >= 3 && Ascii(block)
    ensures EndsComplete(t + block)
  {
    var u := t + block;
    assert u[|u| - 1] == block[|block| - 1] && u[|u| - 2] == block[|block| - 2] && u[|u| - 3] == block[|block| - 3];
  }

  lemma BlockErrors(prevInput: seq<Byte>, block: seq<Byte>)
    requires |prevInput| == 32 && |block| == 64
    ensures !AnyBits(ChunkErrors(block[..32], prevInput)) && !AnyBits(ChunkErrors(block[32..], block[..32]))
       <==> NoErrors(Context(prevInput) + block)
  {
    hide NoErrors, AnyBits, ChunkErrors;
    var first := Context(prevInput) + block[..32];
    ChunkErrorsAreLanes(block[..32], prevInput);
    ChunkErrorsAreLanes(block[32..], block[..32]);
    JoinRuns(first, block[32..]);
    assert first + block[32..] == Context(prevInput) + block;
    assert Context(first) == Context(block[..32]);
  }

  /** A block with non-ASCII bytes: two chunks of lanes, then the state refreshes. */
  lemma FullBlockStep(error: seq<Byte>, prevInput: seq<Byte>, prevIncomplete: seq<Byte>, seen: seq<Byte>, block: seq<Byte>)
    requires Tracks(error, prevInput, prevIncomplete, seen) && |block| == 64
    ensures Tracks(OrAll(OrAll(error, ChunkErrors(block[..32], prevInput)), ChunkErrors(block[32..], block[..32])),
                   block[32..], IsIncomplete(block[32..]), seen + block)
  {
    hide NoErrors, AnyBits, ChunkErrors, Complete, IsIncomplete;
    var t, e0, e1 := Run(seen), ChunkErrors(block[..32], prevInput), ChunkErrors(block[32..], block[..32]);
    assert Run(seen + block) == t + block;
    AnyOfOr(error, e0);
    AnyOfOr(OrAll(error, e0), e1);
    JoinRuns(t, block);
    BlockErrors(prevInput, block);
    IncompleteIffEndOwes(block[32..]);
    if !AnyBits(error) && Context(prevInput) != Context(t) {
      ContextIrrelevant(Context(prevInput), Context(t), block);
    }
    assert Context(t + block) == Context(block[32..]);
  }

  class Utf8Checker {
    var error: seq<Byte>
    var prevInputBlock: seq<Byte>
    var prevIncomplete: seq<Byte>
    ghost var seen: seq<Byte>

    ghost predicate Valid()
      reads this
    {
      Tracks(error, prevInputBlock, prevIncomplete, seen)
    }

    constructor ()
      ensures Valid() && seen == []
    {
      error, prevInputBlock, prevIncomplete, seen :=
        seq(32, i => 0), seq(32, i => 0), seq(32, i => 0), [];
    }

    method CheckNextInput(block: seq<Byte>)
      requires Valid() && |block| == 64
      modifies this
      ensures Valid() && seen == old(seen) + block
    {
      hide Tracks, ChunkErrors, OrAll, IsIncomplete;
      TracksLengths(error, prevInputBlock, prevIncomplete, seen);
      if Ascii(block) {
        AsciiBlockStep(error, prevInputBlock, prevIncomplete, seen, block);
        error := OrAll(error, prevIncomplete);
      } else {
        FullBlockStep(error, prevInputBlock, prevIncomplete, seen, block);
        var first, second := block[..32], block[32..];
        error := OrAll(error, ChunkErrors(first, prevInputBlock));
        error := OrAll(error, ChunkErrors(second, first));
        prevIncomplete := IsIncomplete(second);
        prevInputBlock := second;
      }
      seen := seen + block;
    }

    /** End of input: an unfinished character is an error. */
    method CheckEof() returns (ok: bool)
      requires Valid()
      modifies this`error
      ensures ok <==> WellFormed(seen)
    {
      hide NoErrors, AnyBits, WellFormed, Complete;
      AnyOfOr(error, prevIncomplete);
      if !AnyBits(error) { ContextOfSame(prevInputBlock, Run(seen)); }
      assert Complete(0, 0, 0) by { ZeroComplete(); }
      LanesAreGrammar(Run(seen));
      assert Run(seen)[3..] == seen;
      error := OrAll(error, prevIncomplete);
      ok := !AnyBits(error);
    }
  }

  lemma ZeroComplete()
    ensures Complete(0, 0, 0)
  {
  }

  lemma TracksLengths(error: seq<Byte>, prevInput: seq<Byte>, prevIncomplete: seq<Byte>, seen: seq<Byte>)
    requires Tracks(error, prevInput, prevIncomplete, seen)
    ensures |error| == |prevInput| == |prevIncomplete| == 32
  {
  }

  /** Block-wise validation: full blocks, then a last block padded with spaces
      (all zero bytes for an empty input). */
  method ValidateBlocks(input: seq<Byte>) returns (ok: bool)
    ensures ok <==> WellFormed(input)
  {
    hide WellFormed, Tracks, AnyBits;
    var c := new Utf8Checker();
    var length := |input|;
    var lenMinusStep := if length < 64 then 0 else length - 64;
    var idx := 0;
    while idx < lenMinusStep
      invariant 0 <= idx <= length && (length > 0 ==> idx < length)
      invariant c.Valid() && c.seen == input[..idx]
      decreases length - idx
    {
      c.CheckNextInput(input[idx..idx + 64]);
      assert input[..idx + 64] == input[..idx] + input[idx..idx + 64];
      idx := idx + 64;
    }
    var block: seq<Byte> := if length == idx then seq(64, i => 0) else input[idx..] + seq(64 - (length - idx), i => 0x20);
    c.CheckNextInput(block);
    ok := c.CheckEof();
    ghost var pad := c.seen[length..];
    assert c.seen == input + pad;
    AppendAscii(input, pad);
  }

  // ----- the scalar validator

  function Bits6(b: Byte): (v: bv32) { (b & 0x3F) as bv32 }

  lemma TwoByCodePoint(a: Byte, b: Byte)
    requires a & 0xE0 == 0xC0
    ensures
      var cp := ((a & 0x1F) as bv32 << 6) | Bits6(b);
      b & 0xC0 == 0x80 && 0x80 <= cp <= 0x7FF <==> Two(a, b)
  {
  }

  lemma ThreeByCodePoint(a: Byte, b: Byte, c: Byte)
    requires a & 0xF0 == 0xE0
    ensures
      var cp := ((a & 0x0F) as bv32 << 12) | (Bits6(b) << 6) | Bits6(c);
      b & 0xC0 == 0x80 && c & 0xC0 == 0x80 && 0x800 <= cp <= 0xFFFF && !(0xD7FF < cp < 0xE000) <==> Three(a, b, c)
  {
  }

  lemma FourByCodePoint(a: Byte, b: Byte, c: Byte, d: Byte)
    requires a & 0xF8 == 0xF0
    ensures
      var cp := ((a & 0x07) as bv32 << 18) | (Bits6(b) << 12) | (Bits6(c) << 6) | Bits6(d);
      b & 0xC0 == 0x80 && c & 0xC0 == 0x80 && d & 0xC0 == 0x80 && 0xFFFF < cp <= 0x10FFFF <==> Four(a, b, c, d)
  {
  }

  /** The multi-byte character at pos, by shape and code point; 0 if invalid. */
  method ScalarChar(data: seq<Byte>, pos: nat) returns (n: nat)
    requires pos < |data| && data[pos] >= 0x80
    ensures n == CharLength(data[pos..])
  {
    hide Bits6, Tail;
    var left := |data| - pos;
    var a := data[pos];
    ghost var s := data[pos..];
    assert forall i | 0 <= i < left :: s[i] == data[pos + i];
    LeadShapes(s);
    if a & 0xE0 == 0xC0 {
      if left < 2 { return 0; }
      TwoByCodePoint(a, data[pos + 1]);
      if data[pos + 1] & 0xC0 != 0x80 { return 0; }
      var cp := ((a & 0x1F) as bv32 << 6) | Bits6(data[pos + 1]);
      if cp < 0x80 || 0x7FF < cp { return 0; }
      return 2;
    } else if a & 0xF0 == 0xE0 {
      if left < 3 { return 0; }
      ThreeByCodePoint(a, data[pos + 1], data[pos + 2]);
      if data[pos + 1] & 0xC0 != 0x80 { return 0; }
      if data[pos + 2] & 0xC0 != 0x80 { return 0; }
      var cp := ((a & 0x0F) as bv32 << 12) | (Bits6(data[pos + 1]) << 6) | Bits6(data[pos + 2]);
      if cp < 0x800 || 0xFFFF < cp || (0xD7FF < cp && cp < 0xE000) { return 0; }
      return 3;
    } else if a & 0xF8 == 0xF0 {
      if left < 4 { return 0; }
      FourByCodePoint(a, data[pos + 1], data[pos + 2], data[pos + 3]);
      if data[pos + 1] & 0xC0 != 0x80 { return 0; }
      if data[pos + 2] & 0xC0 != 0x80 { return 0; }
      if data[pos + 3] & 0xC0 != 0x80 { return 0; }
      var cp := ((a & 0x07) as bv32 << 18) | (Bits6(data[pos + 1]) << 12)
                | (Bits6(data[pos + 2]) << 6) | Bits6(data[pos + 3]);
      if cp <= 0xFFFF || 0x10FFFF < cp { return 0; }
      return 4;
    } else {
      return 0;
    }
  }

  /** A character of n bytes starts with the lead shape for n. */
  lemma LeadShapes(s: seq<Byte>)
    requires s != [] && s[0] >= 0x80
    ensures
      var n, a := CharLength(s), s[0];
      && n != 1
      && (n == 2 ==> a & 0xE0 == 0xC0 && Two(a, s[1]))
      && (n == 3 ==> a & 0xF0 == 0xE0 && Three(a, s[1], s[2]))
      && (n == 4 ==> a & 0xF8 == 0xF0 && Four(a, s[1], s[2], s[3]))
      && (n == 0 && |s| >= 2 ==> !Two(a, s[1]))
      && (n == 0 && |s| >= 3 ==> !Three(a, s[1], s[2]))
      && (n == 0 && |s| >= 4 ==> !Four(a, s[1], s[2], s[3]))
      && (a & 0xE0 == 0xC0 ==> n == 0 || n == 2)
      && (a & 0xF0 == 0xE0 ==> n == 0 || n == 3)
      && (a & 0xF8 == 0xF0 ==> n == 0 || n == 4)
  {
  }

  method ValidateScalar(data: seq<Byte>) returns (ok: bool)
    ensures ok <==> WellFormed(data)
  {
    hide CharLength;
    var pos, len := 0, |data|;
    assert data[0..] == data;
    while pos < len
      invariant pos <= len
      invariant WellFormed(data) == WellFormed(data[pos..])
    {
      if pos + 16 <= len && Ascii(data[pos..pos + 16]) {
        assert data[pos..][..16] == data[pos..pos + 16] && data[pos..][16..] == data[pos + 16..];
        SkipAscii(data[pos..], 16);
        pos := pos + 16;
      } else {
        while data[pos] < 0x80
          invariant pos < len
          invariant WellFormed(data) == WellFormed(data[pos..])
          decreases len - pos
        {
          assert data[pos..][1..] == data[pos + 1..];
          SkipAscii(data[pos..], 1);
          pos := pos + 1;
          if pos == len { return true; }
        }
        var n := ScalarChar(data, pos);
        if n == 0 { return false; }
        assert data[pos..][n..] == data[pos + n..];
        pos := pos + n;
      }
    }
    ok := true;
  }
}
