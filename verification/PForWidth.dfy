/** Choice of the base width of a PFor block: the cheapest width under the
    encoded-size cost model, found by one downward sweep over a width histogram. */
module PForWidth {
  import opened Bits

  const BLOCK_SIZE := 128
  /** One position byte per exception, in bits. */
  const EXCEPTION_OVERHEAD := 8

  /** Base width, exception count, and width of the widest value. */
  datatype Choice = Choice(base: nat, exceptions: nat, widest: nat)

  ghost predicate Fits(values: seq<nat>, width: nat) {
    forall i | 0 <= i < |values| :: values[i] < Pow2(width)
  }

  /** Values that do not fit in b bits. */
  function CountWider(values: seq<nat>, b: nat): (n: nat)
    ensures n <= |values|
  {
    if values == [] then 0
    else CountWider(values[..|values| - 1], b) + (if BitWidth(values[|values| - 1]) > b then 1 else 0)
  }

  function CountWidth(values: seq<nat>, w: nat): (n: nat) {
    if values == [] then 0
    else CountWidth(values[..|values| - 1], w) + (if BitWidth(values[|values| - 1]) == w then 1 else 0)
  }

  /** Cost in bits of base width b: no exceptions at the widest value's width,
      otherwise position bytes, residuals (none when they are one bit wide), the
      base, and the byte recording the widest width. */
  function Cost(values: seq<nat>, widest: nat, b: nat): (bits: nat)
    requires b <= widest
  {
    if b == widest then widest * BLOCK_SIZE
    else
      var c := CountWider(values, b);
      c * EXCEPTION_OVERHEAD + (if widest - b == 1 then 0 else c * (widest - b)) + b * BLOCK_SIZE + 8
  }

  ghost predicate IsWidest(values: seq<nat>, w: nat) {
    && (forall i | 0 <= i < |values| :: BitWidth(values[i]) <= w)
    && (exists i | 0 <= i < |values| :: BitWidth(values[i]) == w)
  }

  /** The choice is a cheapest one, and the widest base among the cheapest. */
  ghost predicate IsBest(values: seq<nat>, ch: Choice) {
    && IsWidest(values, ch.widest)
    && ch.base <= ch.widest
    && ch.exceptions == CountWider(values, ch.base)
    && (forall b: nat | b <= ch.widest :: Cost(values, ch.widest, ch.base) <= Cost(values, ch.widest, b))
    && (forall b: nat | ch.base < b <= ch.widest :: Cost(values, ch.widest, ch.base) < Cost(values, ch.widest, b))
  }

  lemma {:induction false} WiderStep(values: seq<nat>, b: nat)
    ensures CountWider(values, b) == CountWider(values, b + 1) + CountWidth(values, b + 1)
  {
    if values != [] { WiderStep(values[..|values| - 1], b); }
  }

  lemma {:induction false} NoneWider(values: seq<nat>, b: nat)
    ensures CountWider(values, b) == 0 <==> forall i | 0 <= i < |values| :: BitWidth(values[i]) <= b
  {
    if values != [] {
      var init := values[..|values| - 1];
      NoneWider(init, b);
      assert forall i | 0 <= i < |init| :: init[i] == values[i];
    }
  }

  lemma {:induction false} WidthOccurs(values: seq<nat>, w: nat)
    ensures CountWidth(values, w) > 0 <==> exists i | 0 <= i < |values| :: BitWidth(values[i]) == w
  {
    if values != [] {
      var init := values[..|values| - 1];
      WidthOccurs(init, w);
      assert forall i | 0 <= i < |init| :: init[i] == values[i];
    }
  }

  /** Histogram of the widths in a block. */
  method CountWidths(values: seq<nat>) returns (freqs: array<nat>)
    requires Fits(values, 32)
    ensures freqs.Length == 33 && fresh(freqs)
    ensures forall w | 0 <= w <= 32 :: freqs[w] == CountWidth(values, w)
  {
    hide BitWidth, Pow2;
    freqs := new nat[33](w => 0);
    for k := 0 to |values|
      invariant forall w | 0 <= w <= 32 :: freqs[w] == CountWidth(values[..k], w)
    {
      WidthIsLeast(values[k], 32);
      var w := BitWidth(values[k]);
      assert values[..k + 1][..k] == values[..k];
      freqs[w] := freqs[w] + 1;
    }
    assert values[..|values|] == values;
  }

  /** The top width that occurs. */
  method TopWidth(values: seq<nat>, freqs: array<nat>) returns (maxb: nat)
    requires |values| == BLOCK_SIZE && Fits(values, 32) && freqs.Length == 33
    requires forall w | 0 <= w <= 32 :: freqs[w] == CountWidth(values, w)
    ensures maxb <= 32 && IsWidest(values, maxb)
  {
    hide BitWidth, CountWidth, Pow2;
    maxb := 32;
    WidthIsLeast(values[0], 32);
    WidthOccurs(values, BitWidth(values[0]));
    while freqs[maxb] == 0
      invariant BitWidth(values[0]) <= maxb <= 32
      invariant forall w | 0 <= w <= 32 :: freqs[w] == CountWidth(values, w)
      invariant forall w | maxb < w <= 32 :: freqs[w] == 0
      decreases maxb
    {
      maxb := maxb - 1;
    }
    assert IsWidest(values, maxb) by {
      WidthOccurs(values, maxb);
      forall i | 0 <= i < |values| ensures BitWidth(values[i]) <= maxb {
        WidthIsLeast(values[i], 32);
        WidthOccurs(values, BitWidth(values[i]));
      }
    }
  }

  method GetBestB(values: seq<nat>) returns (ch: Choice)
    requires |values| == BLOCK_SIZE && Fits(values, 32)
    ensures IsBest(values, ch)
  {
    hide BitWidth, CountWider, CountWidth, Pow2;
    var freqs := CountWidths(values);
    var maxb := TopWidth(values, freqs);
    NoneWider(values, maxb);
    var bestb, bestcost, bestcexcept, cexcept := maxb, maxb * BLOCK_SIZE, 0, 0;
    var b := maxb;
    while b > 0
      invariant 0 <= b <= bestb <= maxb
      invariant forall w | 0 <= w <= 32 :: freqs[w] == CountWidth(values, w)
      invariant cexcept == CountWider(values, b)
      invariant bestcexcept == CountWider(values, bestb)
      invariant bestcost == Cost(values, maxb, bestb)
      invariant forall b': nat | b <= b' <= maxb :: bestcost <= Cost(values, maxb, b')
      invariant forall b': nat | bestb < b' <= maxb :: bestcost < Cost(values, maxb, b')
    {
      b := b - 1;
      WiderStep(values, b);
      cexcept := cexcept + freqs[b + 1];
      var thiscost := cexcept * EXCEPTION_OVERHEAD + cexcept * (maxb - b) + b * BLOCK_SIZE + 8;
      if maxb - b == 1 {
        thiscost := thiscost - cexcept;
      }
      if thiscost < bestcost {
        bestcost, bestb, bestcexcept := thiscost, b, cexcept;
      }
    }
    ch := Choice(bestb, bestcexcept, maxb);
  }

  /** Exceptions exist exactly when the base is narrower than the widest value. */
  lemma ExceptionsIffNarrower(values: seq<nat>, ch: Choice)
    requires IsBest(values, ch)
    ensures ch.exceptions == 0 <==> ch.base == ch.widest
  {
    NoneWider(values, ch.base);
  }

  /** A cheapest choice never has more than 102 exceptions. */
  lemma AtMost102Exceptions(values: seq<nat>, ch: Choice)
    requires IsBest(values, ch) && Fits(values, 32)
    ensures ch.widest <= 32 && ch.exceptions <= 102
  {
    var i :| 0 <= i < |values| && BitWidth(values[i]) == ch.widest;
    WidthIsLeast(values[i], 32);
    var c, d := ch.exceptions, ch.widest - ch.base;
    if d == 0 {
      NoneWider(values, ch.base);
    } else {
      assert Cost(values, ch.widest, ch.base) < Cost(values, ch.widest, ch.widest);
      assert c * EXCEPTION_OVERHEAD + (if d == 1 then 0 else c * d) + 8 < d * BLOCK_SIZE;
      CostBoundsExceptions(c, d);
    }
  }

  lemma CostBoundsExceptions(c: nat, d: nat)
    requires 0 < d <= 32
    requires c * EXCEPTION_OVERHEAD + (if d == 1 then 0 else c * d) + 8 < d * BLOCK_SIZE
    ensures c <= 102
  {
    if d > 1 && c >= 103 {
      assert c * d == 103 * d + (c - 103) * d;
    }
  }

  // ----- the choice depends only on which values occur, not on their order

  function Remove(values: seq<nat>, j: nat): (r: seq<nat>)
    requires j < |values|
    ensures multiset(r) == multiset(values) - multiset{values[j]}
  {
    assert values == values[..j] + [values[j]] + values[j + 1..];
    values[..j] + values[j + 1..]
  }

  lemma {:induction false} CountWiderConcat(a: seq<nat>, c: seq<nat>, b: nat)
    ensures CountWider(a + c, b) == CountWider(a, b) + CountWider(c, b)
  {
    if c == [] {
      assert a + c == a;
    } else {
      var init := c[..|c| - 1];
      assert (a + c)[..|a + c| - 1] == a + init;
      CountWiderConcat(a, init, b);
    }
  }

  lemma CountWiderRemove(values: seq<nat>, j: nat, b: nat)
    requires j < |values|
    ensures CountWider(values, b)
         == CountWider(Remove(values, j), b) + (if BitWidth(values[j]) > b then 1 else 0)
  {
    var front, back := values[..j], values[j + 1..];
    assert values == front + ([values[j]] + back);
    CountWiderConcat(front, [values[j]] + back, b);
    CountWiderConcat([values[j]], back, b);
    CountWiderConcat(front, back, b);
    assert [values[j]][..0] == [];
  }

  lemma {:induction false} CountWiderOfPermutation(x: seq<nat>, y: seq<nat>, b: nat)
    requires multiset(x) == multiset(y)
    ensures CountWider(x, b) == CountWider(y, b)
    decreases |x|
  {
    assert |x| == |multiset(x)| && |y| == |multiset(y)|;
    if x != [] {
      assert x[0] in multiset(y);
      var j :| 0 <= j < |y| && y[j] == x[0];
      CountWiderRemove(x, 0, b);
      CountWiderRemove(y, j, b);
      CountWiderOfPermutation(Remove(x, 0), Remove(y, j), b);
    }
  }

  /** Reordering a block changes neither widths nor exception count. */
  lemma SameChoiceForPermutation(x: seq<nat>, y: seq<nat>, cx: Choice, cy: Choice)
    requires multiset(x) == multiset(y)
    requires IsBest(x, cx) && IsBest(y, cy)
    ensures cx == cy
  {
    forall b: nat ensures CountWider(x, b) == CountWider(y, b) {
      CountWiderOfPermutation(x, y, b);
    }
    WidestOfPermutation(x, y, cx.widest, cy.widest);
    WidestOfPermutation(y, x, cy.widest, cx.widest);
    assert Cost(x, cx.widest, cy.base) == Cost(y, cx.widest, cy.base);
    assert Cost(x, cx.widest, cx.base) == Cost(y, cx.widest, cx.base);
  }

  lemma WidestOfPermutation(x: seq<nat>, y: seq<nat>, wx: nat, wy: nat)
    requires multiset(x) == multiset(y)
    requires IsWidest(x, wx) && IsWidest(y, wy)
    ensures wx <= wy
  {
    var i :| 0 <= i < |x| && BitWidth(x[i]) == wx;
    assert x[i] in multiset(y);
    var j :| 0 <= j < |y| && y[j] == x[i];
  }
}
