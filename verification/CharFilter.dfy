/** Char filters: a lazy splice buffer, a sparse edit log, and the cursor-resumed
    searches that map output offsets back to the source. Text is a byte string. */
module CharFilter {

  import opened Options

  const INT_MAX := 0x7FFF_FFFF

  /** One accepted replacement of input[start..end]. */
  datatype Sub = Sub(start: nat, end: nat, text: string)

  datatype Edit = Edit(outStart: nat, outEnd: nat, inStart: nat, inEnd: nat)

  /** Source bytes that produced an output byte. */
  datatype Span = Span(start: nat, end: nat)

  // ----- what a run of replacements means

  function EndOf(subs: seq<Sub>): (n: nat) {
    if subs == [] then 0 else subs[|subs| - 1].end
  }

  /** Replacements in input order that do not overlap. */
  ghost predicate Ordered(input: string, subs: seq<Sub>) {
    subs != [] ==>
      var n := |subs| - 1;
      Ordered(input, subs[..n]) && EndOf(subs[..n]) <= subs[n].start <= subs[n].end <= |input|
  }

  lemma {:induction false} EndInside(input: string, subs: seq<Sub>)
    requires Ordered(input, subs)
    ensures EndOf(subs) <= |input|
  {
  }

  /** Output up to the end of the last replacement. */
  ghost function Built(input: string, subs: seq<Sub>): (s: string)
    requires Ordered(input, subs)
  {
    if subs == [] then ""
    else
      var n := |subs| - 1;
      Built(input, subs[..n]) + input[EndOf(subs[..n])..subs[n].start] + subs[n].text
  }

  /** The input with every replacement spliced in. */
  ghost function Spliced(input: string, subs: seq<Sub>): (s: string)
    requires Ordered(input, subs)
  {
    EndInside(input, subs);
    Built(input, subs) + input[EndOf(subs)..]
  }

  /** Bytes copied from input[lo..hi] each come from themselves. */
  function Copied(lo: nat, hi: nat): (s: seq<Span>)
    requires lo <= hi
    ensures |s| == hi - lo && forall i | 0 <= i < |s| :: s[i] == Span(lo + i, lo + i + 1)
  {
    seq(hi - lo, i requires 0 <= i < hi - lo => Span(lo + i, lo + i + 1))
  }

  /** Bytes of a replacement each come from its whole span. */
  function Replaced(n: nat, span: Span): (s: seq<Span>)
    ensures |s| == n && forall i | 0 <= i < n :: s[i] == span
  {
    seq(n, i => span)
  }

  ghost function BuiltOrigins(input: string, subs: seq<Sub>): (s: seq<Span>)
    requires Ordered(input, subs)
    ensures |s| == |Built(input, subs)|
  {
    if subs == [] then []
    else
      var n := |subs| - 1;
      BuiltOrigins(input, subs[..n]) + Copied(EndOf(subs[..n]), subs[n].start)
      + Replaced(|subs[n].text|, Span(subs[n].start, subs[n].end))
  }

  /** Origin of every byte of the spliced output. */
  ghost function Origins(input: string, subs: seq<Sub>): (s: seq<Span>)
    requires Ordered(input, subs)
    ensures |s| == |Spliced(input, subs)|
  {
    EndInside(input, subs);
    BuiltOrigins(input, subs) + Copied(EndOf(subs), |input|)
  }

  // ----- the maps the edit log stands for

  /** First index whose key is at least `key`, by linear scan. */
  function FirstAtLeast(keys: seq<nat>, key: nat): (i: nat)
    ensures i <= |keys|
  {
    if keys == [] || keys[0] >= key then 0 else 1 + FirstAtLeast(keys[1..], key)
  }

  function OutStarts(edits: seq<Edit>): (k: seq<nat>)
    ensures |k| == |edits| && forall i | 0 <= i < |k| :: k[i] == edits[i].outStart
  {
    seq(|edits|, i requires 0 <= i < |edits| => edits[i].outStart)
  }

  function OutEnds(edits: seq<Edit>): (k: seq<nat>)
    ensures |k| == |edits| && forall i | 0 <= i < |k| :: k[i] == edits[i].outEnd
  {
    seq(|edits|, i requires 0 <= i < |edits| => edits[i].outEnd)
  }

  /** Source start for an output start offset, given the first edit that begins
      after it. */
  function StartVia(edits: seq<Edit>, pos: nat, index: nat): (n: int)
    requires index <= |edits|
  {
    if index == 0 then pos
    else
      var edit := edits[index - 1];
      if pos < edit.outEnd then edit.inStart else edit.inEnd + (pos - edit.outEnd)
  }

  /** Source end for an output end offset, given the first edit that ends at or
      after it. */
  function EndVia(edits: seq<Edit>, pos: nat, index: nat): (n: int)
    requires index <= |edits|
  {
    if index < |edits| then
      var edit := edits[index];
      if pos > edit.outStart then edit.inEnd else edit.inStart - (edit.outStart - pos)
    else if edits == [] then pos
    else
      var last := edits[|edits| - 1];
      last.inEnd + (pos - last.outEnd)
  }

  function StartMap(edits: seq<Edit>, pos: nat): (n: int) {
    StartVia(edits, pos, FirstAtLeast(OutStarts(edits), pos + 1))
  }

  function EndMap(edits: seq<Edit>, pos: nat): (n: int) {
    EndVia(edits, pos, FirstAtLeast(OutEnds(edits), pos))
  }

  // ----- linear search, and the galloping search that resumes it

  ghost predicate Sorted(keys: seq<nat>) {
    forall i, j | 0 <= i < j < |keys| :: keys[i] <= keys[j]
  }

  lemma {:induction false} FirstAtLeastSpec(keys: seq<nat>, key: nat)
    ensures
      var r := FirstAtLeast(keys, key);
      (forall i | 0 <= i < r :: keys[i] < key) && (r < |keys| ==> keys[r] >= key)
  {
    if keys != [] && keys[0] < key { FirstAtLeastSpec(keys[1..], key); }
  }

  /** In a sorted sequence only one index separates smaller keys from the rest. */
  lemma FirstAtLeastUnique(keys: seq<nat>, key: nat, r: nat)
    requires r <= |keys|
    requires forall i | 0 <= i < r :: keys[i] < key
    requires r < |keys| ==> keys[r] >= key
    ensures FirstAtLeast(keys, key) == r
  {
    FirstAtLeastSpec(keys, key);
  }

  /** Exponential then binary search for the first key at or after index lo. */
  method GallopLowerBound(keys: seq<nat>, lo: nat, key: nat) returns (r: nat)
    requires Sorted(keys) && lo <= |keys|
    requires forall i | 0 <= i < lo :: keys[i] < key
    ensures r == FirstAtLeast(keys, key)
  {
    var hi := |keys|;
    if lo >= hi || keys[lo] >= key {
      FirstAtLeastUnique(keys, key, lo);
      return lo;
    }
    var lastLess, distance, step := lo, hi - lo, 1;
    while step < distance
      invariant lo <= lastLess < hi && keys[lastLess] < key && 1 <= step <= distance
      decreases distance - step
    {
      var probe := lo + step;
      if keys[probe] >= key { break; }
      lastLess := probe;
      if step > distance / 2 {
        step := distance;
      } else {
        step := 2 * step;
      }
    }
    var first := lastLess + 1;
    var end := if step < distance then lo + step + 1 else hi;
    while first < end
      invariant lastLess < first <= end <= hi
      invariant forall i | 0 <= i < first :: keys[i] < key
      invariant forall i | end <= i < hi :: keys[i] >= key
      decreases end - first
    {
      var mid := first + (end - first) / 2;
      if keys[mid] < key {
        first := mid + 1;
      } else {
        end := mid;
      }
    }
    FirstAtLeastUnique(keys, key, first);
    r := first;
  }

  // ----- the edit log describes the origins

  ghost predicate EditsFit(edits: seq<Edit>, size: nat) {
    && (forall i | 0 <= i < |edits| :: edits[i].outStart <= edits[i].outEnd <= size)
    && (forall i, j | 0 <= i < j < |edits| :: edits[i].outEnd <= edits[j].outStart)
  }

  /** Source offset minus output offset after the first n edits. */
  ghost function ShiftAt(edits: seq<Edit>, n: nat): (d: int)
    requires n <= |edits|
  {
    if n == 0 then 0 else edits[n - 1].inEnd - edits[n - 1].outEnd
  }

  ghost function Shift(edits: seq<Edit>): (d: int) {
    ShiftAt(edits, |edits|)
  }

  ghost predicate Describes(edits: seq<Edit>, origins: seq<Span>) {
    forall o | 0 <= o < |origins| ::
      StartMap(edits, o) == origins[o].start && EndMap(edits, o + 1) == origins[o].end
  }

  /** Edits move forward through the source too, and between two edits both
      offsets advance together. */
  ghost predicate SourceOrdered(edits: seq<Edit>, copied: nat) {
    && (forall i | 0 <= i < |edits| :: edits[i].inStart <= edits[i].inEnd <= copied)
    && (forall i, j | 0 <= i < j < |edits| :: edits[i].inEnd <= edits[j].inStart)
    && (forall i {:trigger ShiftAt(edits, i)} | 0 <= i < |edits| ::
          edits[i].inStart == edits[i].outStart + ShiftAt(edits, i))
  }

  /** The log is complete for the bytes built so far. */
  ghost predicate LogOk(edits: seq<Edit>, origins: seq<Span>, copied: nat) {
    && EditsFit(edits, |origins|)
    && SourceOrdered(edits, copied)
    && copied == |origins| + Shift(edits)
    && Describes(edits, origins)
  }

  /** Past the last edit the maps add the shift. */
  lemma MapsPastEdits(edits: seq<Edit>, size: nat, o: nat)
    requires EditsFit(edits, size) && o >= size
    ensures StartMap(edits, o) == o + Shift(edits) && EndMap(edits, o + 1) == o + 1 + Shift(edits)
  {
    FirstAtLeastUnique(OutStarts(edits), o + 1, |edits|);
    FirstAtLeastUnique(OutEnds(edits), o + 1, |edits|);
  }

  lemma CopyStep(edits: seq<Edit>, origins: seq<Span>, copied: nat, hi: nat)
    requires LogOk(edits, origins, copied) && copied <= hi
    ensures LogOk(edits, origins + Copied(copied, hi), hi)
  {
    hide StartMap, EndMap;
    var all := origins + Copied(copied, hi);
    forall o | 0 <= o < |all| ensures StartMap(edits, o) == all[o].start && EndMap(edits, o + 1) == all[o].end {
      if o >= |origins| { MapsPastEdits(edits, |origins|, o); }
    }
  }

  /** A new edit at the end leaves the maps of earlier bytes alone. */
  lemma MapsBeforeNewEdit(edits: seq<Edit>, size: nat, e: Edit, o: nat)
    requires EditsFit(edits, size) && o < size == e.outStart <= e.outEnd && e.inStart == size + Shift(edits)
    ensures StartMap(edits + [e], o) == StartMap(edits, o) && EndMap(edits + [e], o + 1) == EndMap(edits, o + 1)
  {
    hide FirstAtLeast;
    var more := edits + [e];
    FirstAtLeastSpec(OutStarts(edits), o + 1);
    FirstAtLeastSpec(OutEnds(edits), o + 1);
    FirstAtLeastUnique(OutStarts(more), o + 1, FirstAtLeast(OutStarts(edits), o + 1));
    FirstAtLeastUnique(OutEnds(more), o + 1, FirstAtLeast(OutEnds(edits), o + 1));
  }

  lemma MapsInsideNewEdit(edits: seq<Edit>, size: nat, e: Edit, o: nat)
    requires EditsFit(edits, size) && size == e.outStart <= o < e.outEnd
    ensures StartMap(edits + [e], o) == e.inStart && EndMap(edits + [e], o + 1) == e.inEnd
  {
    var more := edits + [e];
    FirstAtLeastUnique(OutStarts(more), o + 1, |more|);
    FirstAtLeastUnique(OutEnds(more), o + 1, |edits|);
  }

  lemma OrderedWithNewEdit(edits: seq<Edit>, size: nat, copied: nat, e: Edit)
    requires EditsFit(edits, size) && SourceOrdered(edits, copied)
    requires e.outStart == size <= e.outEnd && e.inStart == copied <= e.inEnd && copied == size + Shift(edits)
    ensures EditsFit(edits + [e], e.outEnd) && SourceOrdered(edits + [e], e.inEnd)
  {
    assert forall i | 0 <= i <= |edits| :: ShiftAt(edits + [e], i) == ShiftAt(edits, i);
  }

  lemma EditStep(edits: seq<Edit>, origins: seq<Span>, start: nat, end: nat, n: nat)
    requires LogOk(edits, origins, start) && start <= end
    ensures LogOk(edits + [Edit(|origins|, |origins| + n, start, end)], origins + Replaced(n, Span(start, end)), end)
  {
    hide StartMap, EndMap, SourceOrdered;
    var size, all := |origins|, origins + Replaced(n, Span(start, end));
    var e := Edit(size, size + n, start, end);
    OrderedWithNewEdit(edits, size, start, e);
    forall o | 0 <= o < |all|
      ensures StartMap(edits + [e], o) == all[o].start && EndMap(edits + [e], o + 1) == all[o].end
    {
      if o < size { MapsBeforeNewEdit(edits, size, e, o); } else { MapsInsideNewEdit(edits, size, e, o); }
    }
  }

  /** The last edit, a deletion at the end of the output, now ends at `end`. */
  ghost predicate CanWiden(edits: seq<Edit>, size: nat, copied: nat, end: nat) {
    && edits != [] && copied <= end
    && var last := edits[|edits| - 1]; last.inEnd == copied && last.outStart == last.outEnd == size
  }

  lemma OrderedWithWiderEdit(edits: seq<Edit>, size: nat, copied: nat, end: nat)
    requires EditsFit(edits, size) && SourceOrdered(edits, copied) && CanWiden(edits, size, copied, end)
    ensures
      var more := edits[|edits| - 1 := edits[|edits| - 1].(inEnd := end)];
      EditsFit(more, size) && SourceOrdered(more, end)
  {
    var n := |edits| - 1;
    var more := edits[n := edits[n].(inEnd := end)];
    forall i | 0 <= i <= n ensures more[i].inStart == more[i].outStart + ShiftAt(more, i) {
      assert ShiftAt(more, i) == ShiftAt(edits, i);
    }
  }

  /** Widening a deletion at the end moves no earlier byte. */
  lemma MapsBeforeWiderEdit(edits: seq<Edit>, size: nat, copied: nat, end: nat, o: nat)
    requires EditsFit(edits, size) && CanWiden(edits, size, copied, end) && o < size
    ensures
      var more := edits[|edits| - 1 := edits[|edits| - 1].(inEnd := end)];
      StartMap(more, o) == StartMap(edits, o) && EndMap(more, o + 1) == EndMap(edits, o + 1)
  {
    hide FirstAtLeast;
    var n := |edits| - 1;
    var more := edits[n := edits[n].(inEnd := end)];
    assert OutStarts(more) == OutStarts(edits) && OutEnds(more) == OutEnds(edits);
    FirstAtLeastSpec(OutStarts(edits), o + 1);
    FirstAtLeastSpec(OutEnds(edits), o + 1);
  }

  /** Adjacent deletions share one edit. */
  lemma MergeStep(edits: seq<Edit>, origins: seq<Span>, start: nat, end: nat)
    requires LogOk(edits, origins, start) && CanWiden(edits, |origins|, start, end)
    ensures LogOk(edits[|edits| - 1 := edits[|edits| - 1].(inEnd := end)], origins, end)
  {
    hide StartMap, EndMap, SourceOrdered;
    var n := |edits| - 1;
    var more := edits[n := edits[n].(inEnd := end)];
    OrderedWithWiderEdit(edits, |origins|, start, end);
    forall o | 0 <= o < |origins|
      ensures StartMap(more, o) == origins[o].start && EndMap(more, o + 1) == origins[o].end
    {
      MapsBeforeWiderEdit(edits, |origins|, start, end, o);
    }
  }

  /** The log after replacing input[start..end] by n bytes at output offset at:
      adjacent deletions merge, one byte for one byte is not logged. */
  function NextLog(edits: seq<Edit>, at: nat, start: nat, end: nat, n: nat): (r: seq<Edit>) {
    var k := |edits| - 1;
    if n == 0 && edits != [] && edits[k].inEnd == start && edits[k].outStart == at && edits[k].outEnd == at
    then edits[k := edits[k].(inEnd := end)]
    else if !(end - start == 1 && n == 1) then edits + [Edit(at, at + n, start, end)]
    else edits
  }

  lemma LogStep(edits: seq<Edit>, origins: seq<Span>, copied: nat, start: nat, end: nat, n: nat)
    requires LogOk(edits, origins, copied) && copied <= start <= end
    ensures LogOk(NextLog(edits, |origins| + (start - copied), start, end, n),
                  origins + Copied(copied, start) + Replaced(n, Span(start, end)), end)
  {
    hide LogOk;
    CopyStep(edits, origins, copied, start);
    var before, k := origins + Copied(copied, start), |edits| - 1;
    if n == 0 && edits != [] && edits[k].inEnd == start && edits[k].outStart == |before| && edits[k].outEnd == |before| {
      MergeStep(edits, before, start, end);
      assert before + Replaced(0, Span(start, end)) == before;
    } else if !(end - start == 1 && n == 1) {
      EditStep(edits, before, start, end, n);
    } else {
      CopyStep(edits, before, start, end);
      assert Replaced(1, Span(start, end)) == Copied(start, end);
    }
  }

  // ----- the filter object

  /** A resumable search position: all keys before `index` are below the key of
      the last `offset` asked. */
  datatype Cursor = Cursor(index: nat, offset: nat)

  ghost predicate CursorOk(keys: seq<nat>, c: Cursor, bias: nat) {
    c.index <= |keys| && forall i | 0 <= i < c.index :: keys[i] < c.offset + bias
  }

  /** Output for the input before p, p at or after the last replacement. */
  ghost function Prefix(input: string, subs: seq<Sub>, p: nat): (s: string)
    requires Ordered(input, subs) && EndOf(subs) <= p <= |input|
  {
    Built(input, subs) + input[EndOf(subs)..p]
  }

  lemma PrefixGrows(input: string, subs: seq<Sub>, pos: nat, next: nat)
    requires Ordered(input, subs) && EndOf(subs) <= pos <= next <= |input|
    ensures Prefix(input, subs, next) == Prefix(input, subs, pos) + input[pos..next]
  {
    assert input[EndOf(subs)..next] == input[EndOf(subs)..pos] + input[pos..next];
  }

  lemma EditsSorted(edits: seq<Edit>, size: nat)
    requires EditsFit(edits, size)
    ensures Sorted(OutStarts(edits)) && Sorted(OutEnds(edits))
  {
  }

  /** Replacements by the same text are not accepted. */
  ghost predicate LastChanges(input: string, subs: seq<Sub>)
    requires Ordered(input, subs)
  {
    subs != [] ==> var last := subs[|subs| - 1]; input[last.start..last.end] != last.text
  }

  class Filter {
    var input: string
    var buffer: string
    var edits: seq<Edit>
    var startCursor: Cursor
    var endCursor: Cursor
    var copied: nat
    ghost var subs: seq<Sub>   // accepted replacements

    ghost predicate Building()
      reads this
    {
      && Ordered(input, subs)
      && buffer == Built(input, subs)
      && copied == EndOf(subs)
      && LogOk(edits, BuiltOrigins(input, subs), copied)
      && LastChanges(input, subs)
      && startCursor == endCursor == Cursor(0, 0)
    }

    /** Filtering is over and offsets can be asked for. */
    ghost predicate Ready()
      reads this
    {
      && Ordered(input, subs)
      && LogOk(edits, Origins(input, subs), |input|)
      && CursorOk(OutStarts(edits), startCursor, 1)
      && CursorOk(OutEnds(edits), endCursor, 0)
    }

    method Begin(value: string)
      modifies this
      ensures Building() && input == value && subs == []
    {
      input, copied, buffer, edits, subs := value, 0, "", [], [];
      startCursor, endCursor := Cursor(0, 0), Cursor(0, 0);
    }

    method Replace(start: nat, end: nat, replacement: string)
      requires Building() && EndOf(subs) <= start <= end <= |input|
      modifies this
      ensures Building() && input == old(input)
      ensures subs == if input[start..end] == replacement then old(subs) else old(subs) + [Sub(start, end, replacement)]
      ensures EndOf(subs) <= end && Prefix(input, subs, end) == Prefix(input, old(subs), start) + replacement
    {
      hide LogOk, Ordered, Built, BuiltOrigins, Prefix, Copied, Replaced;
      EndsUpTo(input, subs, start, end, replacement);
      if input[start..end] == replacement { return; }
      AddSub(input, subs, Sub(start, end, replacement));
      LogStep(edits, BuiltOrigins(input, subs), copied, start, end, |replacement|);
      buffer := buffer + input[copied..start];
      var outStart := |buffer|;
      buffer := buffer + replacement;
      if replacement == "" && edits != [] && edits[|edits| - 1].inEnd == start
         && edits[|edits| - 1].outStart == outStart && edits[|edits| - 1].outEnd == outStart {
        edits := edits[|edits| - 1 := edits[|edits| - 1].(inEnd := end)];
      } else if !(end - start == 1 && |replacement| == 1) {
        edits := edits + [Edit(outStart, |buffer|, start, end)];
      }
      copied := end;
      subs := subs + [Sub(start, end, replacement)];
    }

    /** The filtered text; None if it is too long for byte offsets. */
    method Finish() returns (out: Option<string>)
      requires Building()
      modifies this
      ensures input == old(input) && subs == old(subs) && edits == old(edits)
      ensures EndOf(subs) == 0 ==> out == Some(input)
      ensures EndOf(subs) > 0 ==>
        out == if |Spliced(input, subs)| > INT_MAX then None else Some(Spliced(input, subs))
      ensures out.Some? ==> (out.value == Spliced(input, subs) <==> subs == [] || EndOf(subs) > 0)
      ensures subs == [] || EndOf(subs) > 0 ==> Ready()
    {
      hide LogOk, Ordered, Built, BuiltOrigins;
      EndInside(input, subs);
      NoSubs(input, subs);
      if copied == 0 {
        if subs != [] { InsertionsOnly(input, subs); }
        if subs == [] { CopyStep(edits, BuiltOrigins(input, subs), 0, |input|); }
        return Some(input);
      }
      CopyStep(edits, BuiltOrigins(input, subs), copied, |input|);
      buffer := buffer + input[copied..];
      if |buffer| > INT_MAX { return None; }
      return Some(buffer);
    }

    /** Source offset of an output offset; starts and ends search separately. */
    method CorrectOffset(offset: nat, end: bool) returns (r: nat)
      requires Ready()
      modifies this`startCursor, this`endCursor
      ensures Ready()
      ensures r == if end then EndMap(edits, offset) else StartMap(edits, offset)
    {
      hide Ordered, Origins, Spliced, Describes, FirstAtLeast, SourceOrdered;
      if edits == [] {
        EmptyMaps(offset);
        return offset;
      }
      EditsSorted(edits, |Origins(input, subs)|);
      EndMapNonNegative(edits, |Origins(input, subs)|, |input|, offset);
      if end {
        var index := if offset < endCursor.offset then 0 else endCursor.index;
        index := GallopLowerBound(OutEnds(edits), index, offset);
        FirstAtLeastSpec(OutEnds(edits), offset);
        endCursor := Cursor(index, offset);
        r := EndVia(edits, offset, index);
      } else {
        var index := if offset < startCursor.offset then 0 else startCursor.index;
        index := GallopLowerBound(OutStarts(edits), index, offset + 1);
        FirstAtLeastSpec(OutStarts(edits), offset + 1);
        startCursor := Cursor(index, offset);
        r := StartVia(edits, offset, index);
      }
    }
  }

  lemma EndMapNonNegative(edits: seq<Edit>, size: nat, copied: nat, pos: nat)
    requires EditsFit(edits, size) && SourceOrdered(edits, copied)
    ensures EndMap(edits, pos) >= 0 && StartMap(edits, pos) >= 0
  {
    hide FirstAtLeast;
    var r := FirstAtLeast(OutEnds(edits), pos);
    FirstAtLeastSpec(OutEnds(edits), pos);
    assert r < |edits| ==> edits[r].inStart == edits[r].outStart + ShiftAt(edits, r);
  }

  /** A later output start never maps to an earlier source start. */
  lemma StartMapMonotone(edits: seq<Edit>, size: nat, copied: nat, p: nat, q: nat)
    requires EditsFit(edits, size) && SourceOrdered(edits, copied) && p <= q
    ensures StartMap(edits, p) <= StartMap(edits, q)
  {
    hide FirstAtLeast;
    var a, b := FirstAtLeast(OutStarts(edits), p + 1), FirstAtLeast(OutStarts(edits), q + 1);
    FirstAtLeastSpec(OutStarts(edits), p + 1);
    FirstAtLeastSpec(OutStarts(edits), q + 1);
    assert a < b ==> edits[a].inStart == edits[a].outStart + ShiftAt(edits, a);
  }

  lemma EndMapMonotone(edits: seq<Edit>, size: nat, copied: nat, p: nat, q: nat)
    requires EditsFit(edits, size) && SourceOrdered(edits, copied) && p <= q
    ensures EndMap(edits, p) <= EndMap(edits, q)
  {
    hide FirstAtLeast;
    var a, b := FirstAtLeast(OutEnds(edits), p), FirstAtLeast(OutEnds(edits), q);
    FirstAtLeastSpec(OutEnds(edits), p);
    FirstAtLeastSpec(OutEnds(edits), q);
    assert b < |edits| ==> edits[b].inStart == edits[b].outStart + ShiftAt(edits, b);
    assert a < |edits| ==> edits[a].inStart == edits[a].outStart + ShiftAt(edits, a);
  }

  lemma EmptyMaps(pos: nat)
    ensures StartMap([], pos) == pos && EndMap([], pos) == pos
  {
  }

  lemma NoSubs(input: string, subs: seq<Sub>)
    requires Ordered(input, subs)
    ensures subs == [] ==> Built(input, subs) == "" && BuiltOrigins(input, subs) == []
  {
  }

  lemma AddSub(input: string, subs: seq<Sub>, s: Sub)
    requires Ordered(input, subs) && EndOf(subs) <= s.start <= s.end <= |input|
    ensures Ordered(input, subs + [s])
    ensures Built(input, subs + [s]) == Built(input, subs) + input[EndOf(subs)..s.start] + s.text
    ensures BuiltOrigins(input, subs + [s])
         == BuiltOrigins(input, subs) + Copied(EndOf(subs), s.start) + Replaced(|s.text|, Span(s.start, s.end))
  {
    assert (subs + [s])[..|subs|] == subs;
  }

  lemma EndsUpTo(input: string, subs: seq<Sub>, start: nat, end: nat, text: string)
    requires Ordered(input, subs) && EndOf(subs) <= start <= end <= |input|
    ensures Ordered(input, subs + [Sub(start, end, text)])
    ensures Prefix(input, subs + [Sub(start, end, text)], end) == Prefix(input, subs, start) + text
    ensures Prefix(input, subs, end) == Prefix(input, subs, start) + input[start..end]
  {
    AddSub(input, subs, Sub(start, end, text));
    PrefixGrows(input, subs, start, end);
    hide Built, Ordered, BuiltOrigins;
    assert input[end..end] == "";
  }

  /** Insertions before the first byte alone never make it to the output. */
  lemma InsertionsOnly(input: string, subs: seq<Sub>)
    requires Ordered(input, subs) && LastChanges(input, subs) && subs != [] && EndOf(subs) == 0
    ensures Spliced(input, subs) != input
  {
    assert subs[|subs| - 1].text != "";
    assert |Spliced(input, subs)| > |input|;
  }

  /** An "x" put before "a" should give "xa"; the last replacement ends at 0, so
      Finish returns "a". */
  lemma LostInsertion()
    ensures
      var subs := [Sub(0, 0, "x")];
      Ordered("a", subs) && LastChanges("a", subs) && EndOf(subs) == 0 && Spliced("a", subs) == "xa"
  {
    var subs := [Sub(0, 0, "x")];
    assert subs[..0] == [];
    assert Ordered("a", subs[..0]) && Built("a", subs[..0]) == "";
    assert Built("a", subs) == "" + "a"[0..0] + "x" == "x";
  }
}
