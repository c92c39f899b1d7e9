/** Token filters that share one token: stop stages turn removed tokens into
    position holes, fold stages drop empty tokens without a position. */
module TokenChain {

  /** A token's text and its distance from the token before. */
  datatype Tok = Tok(text: string, increment: nat)

  /** A stop-word stage, or a stage that rewrites text and drops what becomes
      empty. */
  datatype Stage = Stop(words: set<string>) | Fold(fold: string -> string)

  /** Emitted tokens, and the positions left over at the end. */
  datatype Stream = Stream(tokens: seq<Tok>, rest: nat)

  // ----- what a stage does to a stream

  predicate Drops(stage: Stage, text: string) {
    match stage
    case Stop(words) => text in words
    case Fold(fold) => fold(text) == ""
  }

  function Rewrite(stage: Stage, text: string): (r: string) {
    match stage
    case Stop(_) => text
    case Fold(fold) => fold(text)
  }

  /** The hole a dropped token leaves. */
  function Hole(stage: Stage, increment: nat): (n: nat) {
    if stage.Stop? || increment == 0 then increment else increment - 1
  }

  function Filtered(stage: Stage, toks: seq<Tok>, pending: nat): (r: Stream)
    decreases toks
  {
    if toks == [] then Stream([], pending)
    else if Drops(stage, toks[0].text) then Filtered(stage, toks[1..], pending + Hole(stage, toks[0].increment))
    else
      var r := Filtered(stage, toks[1..], 0);
      Stream([Tok(Rewrite(stage, toks[0].text), toks[0].increment + pending)] + r.tokens, r.rest)
  }

  function Singles(texts: seq<string>): (r: seq<Tok>)
    ensures |r| == |texts| && forall i | 0 <= i < |r| :: r[i] == Tok(texts[i], 1)
  {
    seq(|texts|, i requires 0 <= i < |texts| => Tok(texts[i], 1))
  }

  /** The whole chain over the tokenizer's texts. */
  function Chained(stages: seq<Stage>, texts: seq<string>): (r: Stream) {
    if stages == [] then Stream(Singles(texts), 0)
    else
      var n := |stages| - 1;
      var up := Chained(stages[..n], texts);
      var r := Filtered(stages[n], up.tokens, 0);
      Stream(r.tokens, up.rest + r.rest)
  }

  // ----- positions

  function Total(toks: seq<Tok>): (n: nat) {
    if toks == [] then 0 else toks[0].increment + Total(toks[1..])
  }

  /** A text at its absolute position. */
  datatype Placed = Placed(text: string, position: int)

  function Positions(toks: seq<Tok>, base: int): (r: seq<Placed>) {
    if toks == [] then []
    else
      var at := base + toks[0].increment;
      [Placed(toks[0].text, at)] + Positions(toks[1..], at)
  }

  /** The tokens a stage keeps, each where it was, less the positions of dropped
      tokens before it if the stage gives those up. */
  function KeptPlaces(stage: Stage, places: seq<Placed>, lost: nat): (r: seq<Placed>) {
    if places == [] then []
    else if Drops(stage, places[0].text) then KeptPlaces(stage, places[1..], if stage.Stop? then lost else lost + 1)
    else
      [Placed(Rewrite(stage, places[0].text), places[0].position - lost)] + KeptPlaces(stage, places[1..], lost)
  }

  function Dropped(stage: Stage, toks: seq<Tok>): (n: nat) {
    if toks == [] then 0 else (if Drops(stage, toks[0].text) then 1 else 0) + Dropped(stage, toks[1..])
  }

  /** Every token takes at least one position. */
  ghost predicate Spaced(toks: seq<Tok>) {
    forall i | 0 <= i < |toks| :: toks[i].increment >= 1
  }

  /** A stop stage keeps every position: emitted, or left over. */
  lemma {:induction false} StopConserves(words: set<string>, toks: seq<Tok>, pending: nat)
    ensures
      var r := Filtered(Stop(words), toks, pending);
      Total(r.tokens) + r.rest == Total(toks) + pending
  {
    if toks != [] {
      if toks[0].text in words {
        StopConserves(words, toks[1..], pending + toks[0].increment);
      } else {
        StopConserves(words, toks[1..], 0);
      }
    }
  }

  /** A fold stage gives up one position for each token it drops, no more. */
  lemma {:induction false} FoldConserves(fold: string -> string, toks: seq<Tok>, pending: nat)
    requires Spaced(toks)
    ensures
      var r := Filtered(Fold(fold), toks, pending);
      Total(r.tokens) + r.rest + Dropped(Fold(fold), toks) == Total(toks) + pending
  {
    if toks != [] {
      if fold(toks[0].text) == "" {
        FoldConserves(fold, toks[1..], pending + (toks[0].increment - 1));
      } else {
        FoldConserves(fold, toks[1..], 0);
      }
    }
  }

  /** Surviving tokens sit where they sat, less what the stage gave up before
      them. `pending` holes are those since the last survivor. */
  lemma {:induction false} KeepsPlaces(stage: Stage, toks: seq<Tok>, pending: nat, base: int, lost: nat)
    requires Spaced(toks)
    ensures Positions(Filtered(stage, toks, pending).tokens, base - lost)
      == KeptPlaces(stage, Positions(toks, base + pending), lost)
    decreases toks
  {
    hide Drops, Rewrite;
    if toks != [] {
      var t, at := toks[0], base + pending + toks[0].increment;
      if Drops(stage, t.text) {
        var more := if stage.Stop? then lost else lost + 1;
        KeepsPlaces(stage, toks[1..], pending + Hole(stage, t.increment), base + (more - lost), more);
      } else {
        KeepsPlaces(stage, toks[1..], 0, at, lost);
      }
    }
  }

  lemma {:induction false} FilteredSpaced(stage: Stage, toks: seq<Tok>, pending: nat)
    requires Spaced(toks)
    ensures Spaced(Filtered(stage, toks, pending).tokens)
    decreases toks
  {
    if toks != [] {
      if Drops(stage, toks[0].text) {
        FilteredSpaced(stage, toks[1..], pending + Hole(stage, toks[0].increment));
      } else {
        FilteredSpaced(stage, toks[1..], 0);
      }
    }
  }

  // ----- any stack of stages

  lemma {:induction false} ChainedSpaced(stages: seq<Stage>, texts: seq<string>)
    ensures Spaced(Chained(stages, texts).tokens)
  {
    if stages != [] {
      var n := |stages| - 1;
      ChainedSpaced(stages[..n], texts);
      FilteredSpaced(stages[n], Chained(stages[..n], texts).tokens, 0);
    }
  }

  lemma {:induction false} SinglesTotal(texts: seq<string>)
    ensures Total(Singles(texts)) == |texts|
  {
    if texts != [] {
      SinglesTotal(texts[1..]);
      assert Singles(texts)[1..] == Singles(texts[1..]);
    }
  }

  /** Tokens dropped by the fold stages of a stack. */
  function Lost(stages: seq<Stage>, texts: seq<string>): (n: nat) {
    if stages == [] then 0
    else
      var n := |stages| - 1;
      Lost(stages[..n], texts)
      + if stages[n].Fold? then Dropped(stages[n], Chained(stages[..n], texts).tokens) else 0
  }

  /** Emitted increments and the final increment account for every source token
      but those a fold dropped. */
  lemma {:induction false} StackConserves(stages: seq<Stage>, texts: seq<string>)
    ensures
      var r := Chained(stages, texts);
      Total(r.tokens) + r.rest + Lost(stages, texts) == |texts|
  {
    if stages == [] {
      SinglesTotal(texts);
    } else {
      var n := |stages| - 1;
      var up := Chained(stages[..n], texts);
      StackConserves(stages[..n], texts);
      ChainedSpaced(stages[..n], texts);
      match stages[n]
      case Stop(words) => StopConserves(words, up.tokens, 0);
      case Fold(fold) => FoldConserves(fold, up.tokens, 0);
    }
  }

  ghost predicate AllStop(stages: seq<Stage>) {
    forall i | 0 <= i < |stages| :: stages[i].Stop?
  }

  /** Some stage lists the text as a stop word. */
  ghost predicate Stopped(stages: seq<Stage>, text: string) {
    exists i | 0 <= i < |stages| :: stages[i].Stop? && text in stages[i].words
  }

  /** Source tokens i and later that no stage stops, at their source positions. */
  ghost function Survivors(stages: seq<Stage>, texts: seq<string>, i: nat): (r: seq<Placed>)
    requires i <= |texts|
    decreases |texts| - i
  {
    if i == |texts| then []
    else (if Stopped(stages, texts[i]) then [] else [Placed(texts[i], i)]) + Survivors(stages, texts, i + 1)
  }

  lemma {:induction false} KeptConcat(stage: Stage, a: seq<Placed>, b: seq<Placed>)
    requires stage.Stop?
    ensures KeptPlaces(stage, a + b, 0) == KeptPlaces(stage, a, 0) + KeptPlaces(stage, b, 0)
  {
    if a == [] {
      assert a + b == b;
    } else {
      KeptConcat(stage, a[1..], b);
      assert (a + b)[1..] == a[1..] + b;
    }
  }

  lemma StoppedBy(stages: seq<Stage>, text: string)
    requires stages != [] && stages[|stages| - 1].Stop?
    ensures Stopped(stages, text)
      <==> Stopped(stages[..|stages| - 1], text) || text in stages[|stages| - 1].words
  {
    var n := |stages| - 1;
    if i :| 0 <= i < n && stages[..n][i].Stop? && text in stages[..n][i].words { assert stages[i].Stop?; }
    if i :| 0 <= i < |stages| && stages[i].Stop? && text in stages[i].words {
      assert i < n ==> stages[..n][i].Stop?;
    }
  }

  lemma {:induction false} OneMoreStop(stages: seq<Stage>, texts: seq<string>, i: nat)
    requires AllStop(stages) && stages != [] && i <= |texts|
    ensures KeptPlaces(stages[|stages| - 1], Survivors(stages[..|stages| - 1], texts, i), 0)
      == Survivors(stages, texts, i)
    decreases |texts| - i
  {
    hide Stopped;
    var n := |stages| - 1;
    if i < |texts| {
      OneMoreStop(stages, texts, i + 1);
      StoppedBy(stages, texts[i]);
      var here := if Stopped(stages[..n], texts[i]) then [] else [Placed(texts[i], i)];
      KeptConcat(stages[n], here, Survivors(stages[..n], texts, i + 1));
    }
  }

  lemma {:induction false} SourcePlaces(texts: seq<string>, i: nat)
    requires i <= |texts|
    ensures Positions(Singles(texts[i..]), i - 1) == Survivors([], texts, i)
    decreases |texts| - i
  {
    if i < |texts| {
      SourcePlaces(texts, i + 1);
      assert Singles(texts[i..])[1..] == Singles(texts[i + 1..]);
    }
  }

  /** Through any stack of stop stages every survivor keeps its source position. */
  lemma {:induction false} StopsKeepPositions(stages: seq<Stage>, texts: seq<string>)
    requires AllStop(stages)
    ensures Positions(Chained(stages, texts).tokens, -1) == Survivors(stages, texts, 0)
  {
    if stages == [] {
      assert texts[0..] == texts;
      SourcePlaces(texts, 0);
    } else {
      var n := |stages| - 1;
      var up := Chained(stages[..n], texts);
      StopsKeepPositions(stages[..n], texts);
      ChainedSpaced(stages[..n], texts);
      KeepsPlaces(stages[n], up.tokens, 0, -1, 0);
      OneMoreStop(stages, texts, 0);
    }
  }

  /** What a stack does to one text: keeps it rewritten, or drops it. */
  datatype Fate = Kept(text: string) | Halted | Folded

  function FateOf(stages: seq<Stage>, text: string): (f: Fate) {
    if stages == [] then Kept(text)
    else
      var n := |stages| - 1;
      var f := FateOf(stages[..n], text);
      if !f.Kept? then f
      else
        match stages[n]
        case Stop(words) => if f.text in words then Halted else f
        case Fold(fold) => if fold(f.text) == "" then Folded else Kept(fold(f.text))
  }

  /** Source tokens i and later that survive, each at its source index less the
      tokens folds dropped before it, `lost` of them before i. */
  function MixedSurvivors(stages: seq<Stage>, texts: seq<string>, i: nat, lost: nat): (r: seq<Placed>)
    requires i <= |texts|
    decreases |texts| - i
  {
    if i == |texts| then []
    else
      match FateOf(stages, texts[i])
      case Kept(t) => [Placed(t, i - lost)] + MixedSurvivors(stages, texts, i + 1, lost)
      case Halted => MixedSurvivors(stages, texts, i + 1, lost)
      case Folded => MixedSurvivors(stages, texts, i + 1, lost + 1)
  }

  lemma {:induction false} OneMoreStage(stages: seq<Stage>, texts: seq<string>, i: nat, before: nat, here: nat)
    requires stages != [] && i <= |texts|
    ensures KeptPlaces(stages[|stages| - 1], MixedSurvivors(stages[..|stages| - 1], texts, i, before), here)
      == MixedSurvivors(stages, texts, i, before + here)
    decreases |texts| - i
  {
    var n := |stages| - 1;
    if i < |texts| {
      var f := FateOf(stages[..n], texts[i]);
      var more := if f.Kept? && stages[n].Fold? && Drops(stages[n], f.text) then here + 1 else here;
      OneMoreStage(stages, texts, i + 1, if f.Folded? then before + 1 else before, more);
      if f.Kept? {
        var places := MixedSurvivors(stages[..n], texts, i, before);
        assert places[0] == Placed(f.text, i - before);
        assert places[1..] == MixedSurvivors(stages[..n], texts, i + 1, before);
      }
    }
  }

  lemma {:induction false} SourceAll(texts: seq<string>, i: nat)
    requires i <= |texts|
    ensures Positions(Singles(texts[i..]), i - 1) == MixedSurvivors([], texts, i, 0)
    decreases |texts| - i
  {
    if i < |texts| {
      SourceAll(texts, i + 1);
      assert Singles(texts[i..])[1..] == Singles(texts[i + 1..]);
    }
  }

  /** Through any stack of stop and fold stages every survivor sits at its source
      index, less the tokens folds dropped before it. */
  lemma {:induction false} StackPositions(stages: seq<Stage>, texts: seq<string>)
    ensures Positions(Chained(stages, texts).tokens, -1) == MixedSurvivors(stages, texts, 0, 0)
  {
    if stages == [] {
      assert texts[0..] == texts;
      SourceAll(texts, 0);
    } else {
      var n := |stages| - 1;
      var up := Chained(stages[..n], texts);
      StackPositions(stages[..n], texts);
      ChainedSpaced(stages[..n], texts);
      KeepsPlaces(stages[n], up.tokens, 0, -1, 0);
      OneMoreStage(stages, texts, 0, 0, 0);
    }
  }

  /** Source tokens i and later that a fold drops. */
  function FoldedFrom(stages: seq<Stage>, texts: seq<string>, i: nat): (n: nat)
    requires i <= |texts|
    decreases |texts| - i
  {
    if i == |texts| then 0
    else (if FateOf(stages, texts[i]).Folded? then 1 else 0) + FoldedFrom(stages, texts, i + 1)
  }

  function DroppedPlaces(stage: Stage, places: seq<Placed>): (n: nat) {
    if places == [] then 0 else (if Drops(stage, places[0].text) then 1 else 0) + DroppedPlaces(stage, places[1..])
  }

  lemma {:induction false} DroppedAtPlaces(stage: Stage, toks: seq<Tok>, base: int)
    ensures Dropped(stage, toks) == DroppedPlaces(stage, Positions(toks, base))
    decreases toks
  {
    if toks != [] { DroppedAtPlaces(stage, toks[1..], base + toks[0].increment); }
  }

  /** What one more stage folds away. */
  lemma {:induction false} OneMoreFold(stages: seq<Stage>, texts: seq<string>, i: nat, lost: nat)
    requires stages != [] && i <= |texts|
    ensures
      var n := |stages| - 1;
      FoldedFrom(stages, texts, i) == FoldedFrom(stages[..n], texts, i)
        + if stages[n].Fold? then DroppedPlaces(stages[n], MixedSurvivors(stages[..n], texts, i, lost)) else 0
    decreases |texts| - i
  {
    var n := |stages| - 1;
    if i < |texts| {
      var f, places := FateOf(stages[..n], texts[i]), MixedSurvivors(stages[..n], texts, i, lost);
      OneMoreFold(stages, texts, i + 1, if f.Folded? then lost + 1 else lost);
      if f.Kept? {
        assert places[0] == Placed(f.text, i - lost);
        assert places[1..] == MixedSurvivors(stages[..n], texts, i + 1, lost);
      }
    }
  }

  /** The positions a stack gives up are those of the source tokens a fold drops. */
  lemma {:induction false} LostIsFolded(stages: seq<Stage>, texts: seq<string>)
    ensures Lost(stages, texts) == FoldedFrom(stages, texts, 0)
  {
    if stages == [] {
      NothingFolded(texts, 0);
    } else {
      var n := |stages| - 1;
      LostIsFolded(stages[..n], texts);
      hide FoldedFrom, FateOf;
      StackPositions(stages[..n], texts);
      DroppedAtPlaces(stages[n], Chained(stages[..n], texts).tokens, -1);
      OneMoreFold(stages, texts, 0, 0);
    }
  }

  lemma {:induction false} NothingFolded(texts: seq<string>, i: nat)
    requires i <= |texts|
    ensures FoldedFrom([], texts, i) == 0
    decreases |texts| - i
  {
    if i < |texts| { NothingFolded(texts, i + 1); }
  }

  /** Without stop stages there are no holes. */
  lemma {:induction false} FoldsLeaveNoHoles(stages: seq<Stage>, texts: seq<string>)
    requires forall i | 0 <= i < |stages| :: stages[i].Fold?
    ensures
      var r := Chained(stages, texts);
      r.rest == 0 && forall i | 0 <= i < |r.tokens| :: r.tokens[i].increment == 1
  {
    if stages != [] {
      var n := |stages| - 1;
      FoldsLeaveNoHoles(stages[..n], texts);
      FoldOfSingles(stages[n], Chained(stages[..n], texts).tokens);
    }
  }

  lemma {:induction false} FoldOfSingles(stage: Stage, toks: seq<Tok>)
    requires stage.Fold? && forall i | 0 <= i < |toks| :: toks[i].increment == 1
    ensures
      var r := Filtered(stage, toks, 0);
      r.rest == 0 && forall i | 0 <= i < |r.tokens| :: r.tokens[i].increment == 1
  {
    if toks != [] { FoldOfSingles(stage, toks[1..]); }
  }

  lemma ChainedLast(stages: seq<Stage>, level: nat, texts: seq<string>)
    requires 0 < level <= |stages|
    ensures
      var up := Chained(stages[..level - 1], texts);
      var r := Filtered(stages[level - 1], up.tokens, 0);
      Chained(stages[..level], texts) == Stream(r.tokens, up.rest + r.rest)
  {
    assert stages[..level][..level - 1] == stages[..level - 1];
  }

  lemma FilteredStep(stage: Stage, toks: seq<Tok>, pending: nat)
    ensures toks == [] ==> Filtered(stage, toks, pending) == Stream([], pending)
    ensures toks != [] && Drops(stage, toks[0].text) ==>
      Filtered(stage, toks, pending) == Filtered(stage, toks[1..], pending + Hole(stage, toks[0].increment))
    ensures toks != [] && !Drops(stage, toks[0].text) ==>
      var r := Filtered(stage, toks[1..], 0);
      Filtered(stage, toks, pending)
        == Stream([Tok(Rewrite(stage, toks[0].text), toks[0].increment + pending)] + r.tokens, r.rest)
  {
  }

  // ----- the chain object

  class Chain {
    const stages: seq<Stage>
    var texts: seq<string>   // what the tokenizer carves from the value
    var next: nat            // tokenizer cursor
    var text: string         // the one token all stages share
    var increment: nat
    var finalIncrement: nat

    ghost predicate Valid()
      reads this
    {
      next <= |texts| && ((forall i | 0 <= i < |stages| :: stages[i].Fold?) ==> finalIncrement == 0)
    }

    constructor (stages: seq<Stage>)
      ensures Valid() && this.stages == stages
    {
      this.stages := stages;
      texts, next, text, increment, finalIncrement := [], 0, "", 0, 0;
    }

    /** A fresh value. Only stop stages clear the final increment. */
    method Reset(value: seq<string>)
      requires Valid()
      modifies this
      ensures Valid() && texts == value && next == 0 && finalIncrement == 0
    {
      texts, next := value, 0;
      var i := |stages|;
      while i > 0
        invariant 0 <= i <= |stages| && texts == value && next == 0 && Valid()
        invariant finalIncrement != 0 ==> forall k | i <= k < |stages| :: stages[k].Fold?
      {
        i := i - 1;
        if stages[i].Stop? { finalIncrement := 0; }
      }
    }

    /** The tokenizer's next token. */
    method Carve() returns (more: bool)
      requires next <= |texts|
      modifies this`next, this`text, this`increment
      ensures more == (old(next) < |texts|) && next == (if more then old(next) + 1 else old(next))
      ensures
        var before, after := Chained([], texts[old(next)..]), Chained([], texts[next..]);
        if more then before == Stream([Tok(text, increment)] + after.tokens, after.rest) else before == Stream([], 0)
    {
      if next == |texts| { return false; }
      text, increment := texts[next], 1;
      next := next + 1;
      assert texts[next - 1..][1..] == texts[next..];
      assert Singles(texts[next - 1..]) == [Tok(text, increment)] + Singles(texts[next..]);
      return true;
    }

    /** The next token after the first `level` stages, in the shared fields. */
    method Pull(level: nat) returns (more: bool)
      requires level <= |stages| && next <= |texts|
      modifies this`next, this`text, this`increment, this`finalIncrement
      ensures old(next) <= next <= |texts| && (more ==> old(next) < next)
      ensures
        var before, after := Chained(stages[..level], texts[old(next)..]), Chained(stages[..level], texts[next..]);
        if more then
          && before == Stream([Tok(text, increment)] + after.tokens, after.rest)
          && finalIncrement == old(finalIncrement)
        else
          && before.tokens == [] && next == |texts|
          && finalIncrement == old(finalIncrement) + before.rest
      decreases level
    {
      hide Chained, Filtered, Singles, Drops, Rewrite, Hole;
      if level == 0 {
        assert stages[..0] == [];
        more := Carve();
        return;
      }
      var stage, pending: nat := stages[level - 1], 0;
      ChainedLast(stages, level, texts[next..]);
      ghost var start := Chained(stages[..level], texts[next..]);
      while true
        invariant old(next) <= next <= |texts| && finalIncrement == old(finalIncrement)
        invariant
          var up := Chained(stages[..level - 1], texts[next..]);
          var r := Filtered(stage, up.tokens, pending);
          start == Stream(r.tokens, up.rest + r.rest)
        decreases |texts| - next
      {
        ghost var up := Chained(stages[..level - 1], texts[next..]);
        var more' := Pull(level - 1);
        FilteredStep(stage, up.tokens, pending);
        if !more' { break; }
        assert up.tokens[1..] == Chained(stages[..level - 1], texts[next..]).tokens;
        if !Drops(stage, text) {
          ChainedLast(stages, level, texts[next..]);
          text, increment := Rewrite(stage, text), increment + pending;
          return true;
        }
        pending := pending + Hole(stage, increment);
      }
      finalIncrement := finalIncrement + pending;
      return false;
    }

    /** Analyzes one value: every token of the chain, then the final increment. */
    method Analyze(value: seq<string>) returns (tokens: seq<Tok>, end: nat)
      requires Valid()
      modifies this
      ensures Valid() && Stream(tokens, end) == Chained(stages, value)
      ensures Positions(tokens, -1) == MixedSurvivors(stages, value, 0, 0)
      ensures Total(tokens) + end + FoldedFrom(stages, value, 0) == |value|
    {
      hide Chained, Positions, MixedSurvivors, Total, Lost, FoldedFrom;
      StackPositions(stages, value);
      StackConserves(stages, value);
      LostIsFolded(stages, value);
      Reset(value);
      tokens := [];
      assert stages[..|stages|] == stages && texts[0..] == texts;
      while true
        invariant next <= |texts| && texts == value && finalIncrement == 0
        invariant
          var left := Chained(stages, texts[next..]);
          Chained(stages, value) == Stream(tokens + left.tokens, left.rest)
        decreases |texts| - next
      {
        var more := Pull(|stages|);
        if !more { break; }
        tokens := tokens + [Tok(text, increment)];
      }
      if forall i | 0 <= i < |stages| :: stages[i].Fold? { FoldsLeaveNoHoles(stages, value); }
      end := finalIncrement;
    }
  }
}
