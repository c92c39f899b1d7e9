/** How the word tokenizer carves a value into stretches: ASCII ones for the
    automaton, the rest for a conformant library, cut where neither can tell. */
module WordRegions {
  import opened Options
  import opened Words

  /** Outside ASCII. */
  predicate High(c: char) { c >= '\U{80}' }

  ghost predicate Ascii(s: string) { forall i | 0 <= i < |s| :: !High(s[i]) }

  /** A blank byte followed by an ASCII byte or the end. */
  predicate SafeSplit(s: string, p: nat) {
    p < |s| && Blank(s[p]) && (p + 1 == |s| || !High(s[p + 1]))
  }

  /** First byte at or after pos outside ASCII, else the length. */
  function FirstHigh(s: string, pos: nat): (r: nat)
    requires pos <= |s|
    ensures pos <= r <= |s| && (r < |s| ==> High(s[r])) && forall i | pos <= i < r :: !High(s[i])
    decreases |s| - pos
  {
    if pos == |s| || High(s[pos]) then pos else FirstHigh(s, pos + 1)
  }

  /** A stretch of the value for the automaton or for the library. */
  datatype Region = Dfa(start: nat, end: nat) | View(start: nat, end: nat)

  /** A region starts at the first byte that is not blank, is ASCII if it is for
      the automaton, and ends with the text or at a safe split. */
  ghost predicate Carved(s: string, from: nat, r: Region) {
    && from <= r.start < r.end <= |s| && !Blank(s[r.start])
    && (forall i | from <= i < r.start :: Blank(s[i]))
    && (r.Dfa? <==> Ascii(s[r.start..r.end]))
    && (r.end < |s| ==> SafeSplit(s, r.end))
  }

  class Carver {
    const text: string
    var cur: nat
    var nextHigh: nat

    ghost predicate Valid()
      reads this
    {
      cur <= |text| && nextHigh <= |text|
      && (nextHigh >= cur ==> nextHigh == FirstHigh(text, cur))
    }

    constructor (text: string)
      ensures Valid() && this.text == text && cur == 0
    {
      this.text, cur := text, 0;
      nextHigh := FirstHigh(text, 0);
    }

    method SkipBlank()
      requires Valid()
      modifies this`cur
      ensures Valid() && old(cur) <= cur && (cur < |text| ==> !Blank(text[cur]))
      ensures forall i | old(cur) <= i < cur :: Blank(text[i])
    {
      while cur < |text| && Blank(text[cur])
        invariant Valid() && old(cur) <= cur && forall i | old(cur) <= i < cur :: Blank(text[i])
      {
        cur := cur + 1;
      }
    }

    /** The last blank between the cursor and the byte before nextHigh, or less
        than the cursor. */
    method LastSplit() returns (split: int)
      requires nextHigh <= |text|
      ensures cur <= split ==> split + 2 <= nextHigh && Blank(text[split])
    {
      split := nextHigh - 2;
      while split >= cur && !Blank(text[split])
        invariant split <= nextHigh - 2
      {
        split := split - 1;
      }
    }

    /** The next region, or none when only blanks are left. */
    method NextRegion() returns (r: Option<Region>)
      requires Valid()
      modifies this`cur, this`nextHigh
      ensures Valid() && old(cur) <= cur
      ensures r.None? ==> cur == |text| && forall i | old(cur) <= i < |text| :: Blank(text[i])
      ensures r.Some? ==> Carved(text, old(cur), r.value) && cur == r.value.end
    {
      hide Blank, High, FirstHigh;
      SkipBlank();
      if cur >= |text| { return None; }
      if nextHigh < cur { nextHigh := FirstHigh(text, cur); }
      var start := cur;
      if nextHigh == |text| {
        cur := |text|;
        FirstHighMoves(text, start, cur);
        return Some(Dfa(start, cur));
      }
      var split := LastSplit();
      if split >= start {
        cur := split;
        FirstHighMoves(text, start, cur);
        return Some(Dfa(start, cur));
      }
      cur := ViewEnd();
      assert text[start..cur][nextHigh - start] == text[nextHigh];
      return Some(View(start, cur));
    }

    /** The first safe split after the byte outside ASCII. */
    method ViewEnd() returns (p: nat)
      requires nextHigh < |text| && High(text[nextHigh])
      ensures nextHigh < p <= |text| && (p < |text| ==> SafeSplit(text, p))
    {
      p := nextHigh;
      while p < |text| && !SafeSplit(text, p)
        invariant nextHigh <= p <= |text|
      {
        p := p + 1;
      }
    }
  }

  lemma {:induction false} FirstHighMoves(s: string, a: nat, b: nat)
    requires a <= |s| && a <= b <= FirstHigh(s, a)
    ensures FirstHigh(s, b) == FirstHigh(s, a)
    decreases b - a
  {
    if a < b { FirstHighMoves(s, a + 1, b); }
  }

  // ----- cutting does not change the words

  /** A segmentation of whole values that is the automaton's on ASCII, that blanks
      at the front do not disturb, and that may be cut at safe splits. */
  ghost predicate Conformant(words: string -> seq<Token>) {
    && (forall s: string | Ascii(s) :: words(s) == WordsFrom(s, 0))
    && (forall s: string | s != "" && Blank(s[0]) :: words(s) == Shift(words(s[1..]), 1))
    && (forall s: string, p: nat | SafeSplit(s, p) ::
          words(s) == words(s[..p]) + Shift(words(s[p..]), p))
  }

  lemma ShiftTwice(tokens: seq<Token>, a: nat, b: nat)
    ensures Shift(Shift(tokens, a), b) == Shift(tokens, a + b)
  {
  }

  lemma {:induction false} SkipBlanks(words: string -> seq<Token>, s: string, a: nat, b: nat)
    requires Conformant(words) && a <= b <= |s| && forall i | a <= i < b :: Blank(s[i])
    ensures words(s[a..]) == Shift(words(s[b..]), b - a)
    decreases b - a
  {
    hide Blank, WordsFrom, Ascii;
    if a < b {
      SkipBlanks(words, s, a + 1, b);
      assert s[a..][0] == s[a] && s[a..][1..] == s[a + 1..];
      ShiftTwice(words(s[b..]), b - a - 1, 1);
    } else {
      assert Shift(words(s[b..]), 0) == words(s[b..]);
    }
  }

  lemma CutRegion(words: string -> seq<Token>, s: string, r: Region)
    requires Conformant(words) && r.start < r.end <= |s| && (r.end < |s| ==> SafeSplit(s, r.end))
    ensures words(s[r.start..]) == words(s[r.start..r.end]) + Shift(words(s[r.end..]), r.end - r.start)
  {
    hide WordsFrom, Blank, Conformant;
    var t, p := s[r.start..], r.end - r.start;
    assert t[..p] == s[r.start..r.end] && t[p..] == s[r.end..];
    if r.end < |s| {
      assert SafeSplit(t, p);
      SplitLaw(words, t, p);
    } else {
      assert s[r.end..] == "" && s[r.start..r.end] == t;
      NothingLaw(words);
    }
  }

  lemma SplitLaw(words: string -> seq<Token>, s: string, p: nat)
    requires Conformant(words) && SafeSplit(s, p)
    ensures words(s) == words(s[..p]) + Shift(words(s[p..]), p)
  {
  }

  lemma NothingLaw(words: string -> seq<Token>)
    requires Conformant(words)
    ensures words("") == []
  {
    assert Ascii("");
    NoWords();
  }

  lemma NoWords()
    ensures WordsFrom("", 0) == []
  {
  }

  /** One region: its words come first, then those of the rest of the value. */
  lemma RegionStep(words: string -> seq<Token>, s: string, from: nat, r: Region)
    requires Conformant(words) && Carved(s, from, r)
    ensures Shift(words(s[from..]), from)
      == Shift(words(s[r.start..r.end]), r.start) + Shift(words(s[r.end..]), r.end)
  {
    hide WordsFrom, Blank, Conformant;
    var here, rest := words(s[r.start..r.end]), words(s[r.end..]);
    SkipBlanks(words, s, from, r.start);
    CutRegion(words, s, r);
    ShiftTwice(words(s[r.start..]), r.start - from, from);
    ShiftConcat(here, Shift(rest, r.end - r.start), r.start);
    ShiftTwice(rest, r.end - r.start, r.start);
  }

  /** Carving a value and segmenting each stretch gives the words of the whole
      value, for any library that is conformant. */
  method TokenizeValue(words: string -> seq<Token>, text: string) returns (tokens: seq<Token>)
    requires Conformant(words)
    ensures tokens == words(text)
  {
    hide Conformant, Carved, WordsFrom, Shift;
    var carver := new Carver(text);
    tokens := [];
    ShiftNone(words(text));
    assert text[0..] == text;
    while true
      invariant fresh(carver) && carver.text == text && carver.Valid()
      invariant words(text) == tokens + Shift(words(text[carver.cur..]), carver.cur)
      decreases |text| - carver.cur
    {
      ghost var from := carver.cur;
      var region := carver.NextRegion();
      if region.None? {
        AllBlank(words, text, from);
        return;
      }
      RegionStep(words, text, from, region.value);
      RegionBounds(text, from, region.value);
      var stretch := text[region.value.start..region.value.end];
      var more;
      if region.value.Dfa? {
        AsciiWords(words, text, from, region.value);
        more := Tokenize(stretch, region.value.start);
      } else {
        more := Shift(words(stretch), region.value.start);
      }
      tokens := tokens + more;
    }
  }

  lemma ShiftNone(tokens: seq<Token>)
    ensures Shift(tokens, 0) == tokens
  {
  }

  lemma RegionBounds(s: string, from: nat, r: Region)
    requires Carved(s, from, r)
    ensures from <= r.start < r.end <= |s|
  {
  }

  lemma AsciiWords(words: string -> seq<Token>, s: string, from: nat, r: Region)
    requires Conformant(words) && Carved(s, from, r) && r.Dfa?
    ensures words(s[r.start..r.end]) == WordsFrom(s[r.start..r.end], 0)
  {
  }

  lemma AllBlank(words: string -> seq<Token>, s: string, from: nat)
    requires Conformant(words) && from <= |s| && forall i | from <= i < |s| :: Blank(s[i])
    ensures Shift(words(s[from..]), from) == []
  {
    SkipBlanks(words, s, from, |s|);
    assert s[|s|..] == "";
    NothingLaw(words);
  }

  /** The rules as stated for ASCII, applied to any text, are conformant. */
  lemma RulesAreConformant()
    ensures Conformant((s: string) => WordsFrom(s, 0))
  {
    hide WordsFrom, Blank;
    forall s: string | s != "" && Blank(s[0]) ensures WordsFrom(s, 0) == Shift(WordsFrom(s[1..], 0), 1) {
      LeadingBlank(s);
    }
    forall s: string, p: nat | SafeSplit(s, p)
      ensures WordsFrom(s, 0) == WordsFrom(s[..p], 0) + Shift(WordsFrom(s[p..], 0), p)
    {
      SplitAtBlank(s, p);
      LeadingBlank(s[p..]);
      assert s[p..][1..] == s[p + 1..];
      ShiftTwice(WordsFrom(s[p + 1..], 0), 1, p);
    }
  }

  lemma LeadingBlank(s: string)
    requires s != "" && Blank(s[0])
    ensures WordsFrom(s, 0) == Shift(WordsFrom(s[1..], 0), 1)
  {
    hide WordsFrom;
    SplitAtBlank(s, 0);
    assert s[..0] == "";
    NoWords();
  }
}
