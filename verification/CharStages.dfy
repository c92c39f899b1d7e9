/** A stack of char filters: offsets travel back through every stage, and the
    range they delimit is exactly the source that produced a token. */
module CharStages {
  import opened CharFilter

  // ----- the origins of one filter

  /** Later bytes never come from earlier source. */
  ghost predicate Monotone(spans: seq<Span>) {
    forall i, j | 0 <= i <= j < |spans| :: spans[i].start <= spans[j].start && spans[i].end <= spans[j].end
  }

  ghost predicate Within(spans: seq<Span>, size: nat) {
    forall i | 0 <= i < |spans| :: spans[i].start <= spans[i].end <= size
  }

  /** Every byte comes from some source byte. */
  ghost predicate Sourced(spans: seq<Span>) {
    forall i | 0 <= i < |spans| :: spans[i].start < spans[i].end
  }

  /** No replacement is a pure insertion. */
  ghost predicate Consuming(subs: seq<Sub>) {
    forall i | 0 <= i < |subs| :: subs[i].start < subs[i].end
  }

  lemma MonotoneConcat(a: seq<Span>, b: seq<Span>, mid: nat)
    requires Monotone(a) && Monotone(b) && Within(a, mid)
    requires forall i | 0 <= i < |b| :: mid <= b[i].start <= b[i].end
    ensures Monotone(a + b)
  {
  }

  lemma {:induction false} BuiltOriginsMonotone(input: string, subs: seq<Sub>)
    requires Ordered(input, subs)
    ensures Monotone(BuiltOrigins(input, subs)) && Within(BuiltOrigins(input, subs), EndOf(subs))
    ensures Consuming(subs) ==> Sourced(BuiltOrigins(input, subs))
  {
    if subs != [] {
      var n := |subs| - 1;
      var before, sub := BuiltOrigins(input, subs[..n]), subs[n];
      BuiltOriginsMonotone(input, subs[..n]);
      MonotoneConcat(before, Copied(EndOf(subs[..n]), sub.start), EndOf(subs[..n]));
      MonotoneConcat(before + Copied(EndOf(subs[..n]), sub.start), Replaced(|sub.text|, Span(sub.start, sub.end)),
                     sub.start);
    }
  }

  /** The origins of a filtered text run forward through the source. */
  lemma OriginsMonotone(input: string, subs: seq<Sub>)
    requires Ordered(input, subs)
    ensures Monotone(Origins(input, subs)) && Within(Origins(input, subs), |input|)
    ensures Consuming(subs) ==> Sourced(Origins(input, subs))
  {
    EndInside(input, subs);
    BuiltOriginsMonotone(input, subs);
    MonotoneConcat(BuiltOrigins(input, subs), Copied(EndOf(subs), |input|), EndOf(subs));
  }

  // ----- a stack of filters

  /** One stage: its log, the origins of its output, the length of its input. */
  datatype Stage = Stage(edits: seq<Edit>, origins: seq<Span>, source: nat)

  ghost predicate Logged(stages: seq<Stage>) {
    forall k | 0 <= k < |stages| :: LogOk(stages[k].edits, stages[k].origins, stages[k].source)
  }

  /** Each stage reads what the stage before it wrote. */
  ghost predicate Chain(stages: seq<Stage>) {
    && Logged(stages)
    && (forall k | 0 <= k < |stages| ::
          Monotone(stages[k].origins) && Sourced(stages[k].origins) && Within(stages[k].origins, stages[k].source))
    && (forall k | 1 <= k < |stages| :: stages[k].source == |stages[k - 1].origins|)
  }

  /** Source byte x contributed to byte o of the last stage's output. */
  ghost predicate Through(stages: seq<Stage>, x: nat, o: nat) {
    if stages == [] then x == o
    else
      var n := |stages| - 1;
      o < |stages[n].origins|
      && exists m: nat | stages[n].origins[o].start <= m < stages[n].origins[o].end :: Through(stages[..n], x, m)
  }

  lemma LastStep(stages: seq<Stage>, x: nat, o: nat) returns (m: nat)
    requires stages != [] && Through(stages, x, o)
    ensures
      var span := stages[|stages| - 1].origins[o];
      span.start <= m < span.end && Through(stages[..|stages| - 1], x, m)
  {
    var n := |stages| - 1;
    m :| stages[n].origins[o].start <= m < stages[n].origins[o].end && Through(stages[..n], x, m);
  }

  /** An offset of the last stage's output, taken back through every stage. */
  ghost function Corrected(stages: seq<Stage>, offset: nat, end: bool): (r: nat)
    requires Logged(stages)
  {
    if stages == [] then offset
    else
      var n := |stages| - 1;
      var last := stages[n];
      EndMapNonNegative(last.edits, |last.origins|, last.source, offset);
      Corrected(stages[..n], if end then EndMap(last.edits, offset) else StartMap(last.edits, offset), end)
  }

  lemma CorrectedStep(stages: seq<Stage>, k: nat, offset: nat, end: bool)
    requires Logged(stages) && k < |stages|
    ensures
      var m := if end then EndMap(stages[k].edits, offset) else StartMap(stages[k].edits, offset);
      m >= 0 && Corrected(stages[..k + 1], offset, end) == Corrected(stages[..k], m, end)
  {
    EndMapNonNegative(stages[k].edits, |stages[k].origins|, stages[k].source, offset);
    assert stages[..k + 1][..k] == stages[..k];
  }

  lemma CorrectedBase(offset: nat, end: bool)
    ensures Corrected([], offset, end) == offset
  {
  }

  /** Corrected start and end delimit the hull of the bytes that produced output
      [s, e): both ends contributed, and nothing outside did. */
  lemma {:induction false} SourceHull(stages: seq<Stage>, s: nat, e: nat)
    requires Chain(stages) && s < e
    requires stages != [] ==> e <= |stages[|stages| - 1].origins|
    ensures Logged(stages)
    ensures
      var a, b := Corrected(stages, s, false), Corrected(stages, e, true);
      && a < b && Through(stages, a, s) && Through(stages, b - 1, e - 1)
      && forall x: nat, o: nat | s <= o < e && Through(stages, x, o) :: a <= x < b
  {
    hide LogOk, StartMap, EndMap, Monotone;
    if stages != [] {
      var n := |stages| - 1;
      var last := stages[n];
      var from, to := last.origins[s].start, last.origins[e - 1].end;
      StageEnds(last, s, e);
      SourceHull(stages[..n], from, to);
      var a, b := Corrected(stages, s, false), Corrected(stages, e, true);
      forall x: nat, o: nat | s <= o < e && Through(stages, x, o) ensures a <= x < b {
        var m := LastStep(stages, x, o);
        StageInside(last, s, e, o);
      }
    }
  }

  lemma StageEnds(last: Stage, s: nat, e: nat)
    requires LogOk(last.edits, last.origins, last.source) && Monotone(last.origins) && Sourced(last.origins)
    requires s < e <= |last.origins|
    ensures StartMap(last.edits, s) == last.origins[s].start && EndMap(last.edits, e) == last.origins[e - 1].end
    ensures last.origins[s].start < last.origins[e - 1].end
  {
    hide StartMap, EndMap;
    assert EndMap(last.edits, e - 1 + 1) == last.origins[e - 1].end;
    assert last.origins[s].end <= last.origins[e - 1].end;
  }

  lemma StageInside(last: Stage, s: nat, e: nat, o: nat)
    requires Monotone(last.origins) && s <= o < e <= |last.origins|
    ensures last.origins[s].start <= last.origins[o].start && last.origins[o].end <= last.origins[e - 1].end
  {
  }

  /** Correcting offsets keeps their order, through any stack. */
  lemma {:induction false} CorrectedMonotone(stages: seq<Stage>, p: nat, q: nat, end: bool)
    requires Logged(stages) && p <= q
    ensures Corrected(stages, p, end) <= Corrected(stages, q, end)
    decreases |stages|
  {
    hide LogOk, StartMap, EndMap;
    if stages != [] {
      var n := |stages| - 1;
      var last := stages[n];
      StageMonotone(last, p, q);
      if end {
        CorrectedMonotone(stages[..n], EndMap(last.edits, p), EndMap(last.edits, q), end);
      } else {
        CorrectedMonotone(stages[..n], StartMap(last.edits, p), StartMap(last.edits, q), end);
      }
    }
  }

  lemma StageMonotone(last: Stage, p: nat, q: nat)
    requires LogOk(last.edits, last.origins, last.source) && p <= q
    ensures 0 <= StartMap(last.edits, p) <= StartMap(last.edits, q)
    ensures 0 <= EndMap(last.edits, p) <= EndMap(last.edits, q)
  {
    hide StartMap, EndMap;
    EndMapNonNegative(last.edits, |last.origins|, last.source, p);
    StartMapMonotone(last.edits, |last.origins|, last.source, p, q);
    EndMapMonotone(last.edits, |last.origins|, last.source, p, q);
  }

  // ----- filter objects

  ghost predicate AllReady(filters: seq<Filter>)
    reads filters
  {
    forall k | 0 <= k < |filters| :: filters[k].Ready()
  }

  ghost function StagesOf(filters: seq<Filter>): (s: seq<Stage>)
    requires AllReady(filters)
    reads filters
    ensures |s| == |filters| && Logged(s)
    ensures forall k | 0 <= k < |s| ::
      s[k] == Stage(filters[k].edits, Origins(filters[k].input, filters[k].subs), |filters[k].input|)
  {
    hide LogOk, CursorOk, Ordered, Origins;
    seq(|filters|, k requires 0 <= k < |filters| && AllReady(filters) reads filters =>
      Stage(filters[k].edits, Origins(filters[k].input, filters[k].subs), |filters[k].input|))
  }

  /** Filters whose every replacement consumed source, each run on the text of
      the one before, form a chain. */
  lemma PipedFiltersChain(filters: seq<Filter>)
    requires AllReady(filters)
    requires forall k | 0 <= k < |filters| :: Consuming(filters[k].subs)
    requires forall k | 1 <= k < |filters| ::
      filters[k].input == Spliced(filters[k - 1].input, filters[k - 1].subs)
    ensures Chain(StagesOf(filters))
  {
    hide LogOk, CursorOk, Ordered, Origins, Spliced, Monotone, Within, Sourced, Consuming;
    forall k | 0 <= k < |filters|
      ensures
        var o := Origins(filters[k].input, filters[k].subs);
        Monotone(o) && Within(o, |filters[k].input|) && Sourced(o)
    {
      OriginsMonotone(filters[k].input, filters[k].subs);
    }
  }

  /** Walks the stages from last to first. */
  method SourceOffset(filters: seq<Filter>, offset: nat, isEnd: bool) returns (r: nat)
    requires AllReady(filters)
    modifies filters`startCursor, filters`endCursor
    ensures AllReady(filters) && StagesOf(filters) == old(StagesOf(filters))
    ensures r == Corrected(StagesOf(filters), offset, isEnd)
  {
    hide LogOk, CursorOk, Ordered, Origins, StartMap, EndMap, Filter.Ready, Corrected;
    ghost var stages := StagesOf(filters);
    r := offset;
    assert stages[..|filters|] == stages;
    var k := |filters|;
    while k > 0
      invariant 0 <= k <= |filters| && AllReady(filters) && StagesOf(filters) == stages
      invariant Corrected(stages, offset, isEnd) == Corrected(stages[..k], r, isEnd)
    {
      k := k - 1;
      CorrectedStep(stages, k, r, isEnd);
      r := filters[k].CorrectOffset(r, isEnd);
    }
    assert stages[..0] == [];
    CorrectedBase(r, isEnd);
  }
}
