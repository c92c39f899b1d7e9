/** Word segmentation of ASCII text: the byte-class automaton against the Word
    Boundary Rules of section 4.1.1 of UAX #29. */
module Words {
  import opened Ascii

  // ----- the rules

  /** Word_Break property values that occur in ASCII. */
  datatype Property =
    | CR | LF | Newline | WSegSpace | ALetter | Numeric | ExtendNumLet
    | MidLetter | MidNum | MidNumLet | SingleQuote | DoubleQuote | Other

  function PropertyOf(c: char): (p: Property) {
    if 'a' <= c <= 'z' || 'A' <= c <= 'Z' then ALetter
    else if '0' <= c <= '9' then Numeric
    else if c == '_' then ExtendNumLet
    else if c == ':' then MidLetter
    else if c == ',' || c == ';' then MidNum
    else if c == '.' then MidNumLet
    else if c == '\'' then SingleQuote
    else if c == '\"' then DoubleQuote
    else if c == '\r' then CR
    else if c == '\n' then LF
    else if c == '\U{B}' || c == '\U{C}' then Newline
    else if c == ' ' then WSegSpace
    else Other
  }

  predicate Breaks(p: Property) { p.CR? || p.LF? || p.Newline? }
  predicate MidNumLetQ(p: Property) { p.MidNumLet? || p.SingleQuote? }
  predicate LetterMid(p: Property) { p.MidLetter? || MidNumLetQ(p) }
  predicate NumberMid(p: Property) { p.MidNum? || MidNumLetQ(p) }

  /** The property at i, if there is one. */
  predicate Has(s: string, i: int, p: Property) {
    0 <= i < |s| && PropertyOf(s[i]) == p
  }

  /** No break between i - 1 and i. The first rule that applies decides; the ones
      about scripts and marks outside ASCII cannot. */
  predicate Joined(s: string, i: nat)
    requires 0 < i < |s|
  {
    var before, after := PropertyOf(s[i - 1]), PropertyOf(s[i]);
    if before.CR? && after.LF? then true                                              // WB3
    else if Breaks(before) || Breaks(after) then false                                // WB3a, WB3b
    else if before.WSegSpace? && after.WSegSpace? then true                           // WB3d
    else if before.ALetter? && after.ALetter? then true                               // WB5
    else if before.ALetter? && LetterMid(after) && Has(s, i + 1, ALetter) then true   // WB6
    else if Has(s, i - 2, ALetter) && LetterMid(before) && after.ALetter? then true   // WB7
    else if before.Numeric? && after.Numeric? then true                               // WB8
    else if before.ALetter? && after.Numeric? then true                               // WB9
    else if before.Numeric? && after.ALetter? then true                               // WB10
    else if Has(s, i - 2, Numeric) && NumberMid(before) && after.Numeric? then true   // WB11
    else if before.Numeric? && NumberMid(after) && Has(s, i + 1, Numeric) then true   // WB12
    else if (before.ALetter? || before.Numeric? || before.ExtendNumLet?) && after.ExtendNumLet? then true  // WB13a
    else if before.ExtendNumLet? && (after.ALetter? || after.Numeric?) then true      // WB13b
    else false                                                                        // WB999
  }

  /** WB1, WB2 and the rules between. */
  predicate Boundary(s: string, i: nat)
    requires i <= |s|
  {
    i == 0 || i == |s| || !Joined(s, i)
  }

  /** The next boundary after i. */
  function SegmentEnd(s: string, i: nat): (e: nat)
    requires i < |s|
    ensures i < e <= |s| && Boundary(s, e)
    decreases |s| - i
  {
    if Boundary(s, i + 1) then i + 1 else SegmentEnd(s, i + 1)
  }

  predicate LetterOrDigit(s: string, from: nat, end: nat)
    requires from <= end <= |s|
  {
    exists i | from <= i < end :: Has(s, i, ALetter) || Has(s, i, Numeric)
  }

  datatype Token = Token(start: nat, end: nat)

  /** The word that starts at i, if one does. */
  function WordAt(s: string, i: nat): (r: seq<Token>)
    requires i < |s|
  {
    if Boundary(s, i) && LetterOrDigit(s, i, SegmentEnd(s, i)) then [Token(i, SegmentEnd(s, i))] else []
  }

  /** The words that start at i or later. */
  function WordsFrom(s: string, i: nat): (r: seq<Token>)
    requires i <= |s|
    decreases |s| - i
  {
    if i == |s| then [] else WordAt(s, i) + WordsFrom(s, i + 1)
  }

  // ----- the automaton

  /** Byte classes. */
  datatype Class = WbBrk | WbLet | WbNum | WbEnl | WbMidLet | WbMidNum | WbMidBoth

  function ClassOf(c: char): (k: Class) {
    if 'a' <= c <= 'z' || 'A' <= c <= 'Z' then WbLet
    else if '0' <= c <= '9' then WbNum
    else if c == '_' then WbEnl
    else if c == ':' then WbMidLet
    else if c == ',' || c == ';' then WbMidNum
    else if c == '.' || c == '\'' then WbMidBoth
    else WbBrk
  }

  predicate WordClass(k: Class) { k.WbLet? || k.WbNum? || k.WbEnl? }

  predicate Joins(mid: Class, before: Class, after: Class) {
    match mid
    case WbMidBoth => before == after && (before.WbLet? || before.WbNum?)
    case WbMidLet => before.WbLet? && after.WbLet?
    case WbMidNum => before.WbNum? && after.WbNum?
    case _ => false
  }

  // ----- the automaton follows the rules

  lemma WordBytesJoin(s: string, i: nat)
    requires 0 < i < |s| && WordClass(ClassOf(s[i - 1])) && WordClass(ClassOf(s[i]))
    ensures Joined(s, i)
  {
  }

  /** After a word byte, another byte goes on exactly when it is a middle byte the
      two sides allow. */
  lemma MidDecides(s: string, i: nat)
    requires 0 < i < |s| && WordClass(ClassOf(s[i - 1])) && !WordClass(ClassOf(s[i]))
    ensures Joined(s, i) <==> i + 1 < |s| && Joins(ClassOf(s[i]), ClassOf(s[i - 1]), ClassOf(s[i + 1]))
    ensures Joined(s, i) ==> Joined(s, i + 1) && WordClass(ClassOf(s[i + 1]))
  {
  }

  /** A word byte after bytes outside words, counted from a boundary, starts a
      segment. */
  lemma WordStarts(s: string, from: nat, i: nat)
    requires from <= i < |s| && Boundary(s, from) && WordClass(ClassOf(s[i]))
    requires forall q | from <= q < i :: !WordClass(ClassOf(s[q]))
    ensures Boundary(s, i)
  {
    if i > from + 1 { assert !WordClass(ClassOf(s[i - 2])) && !WordClass(ClassOf(s[i - 1])); }
  }

  lemma {:induction false} SegmentInterior(s: string, i: nat)
    requires i < |s|
    ensures forall q | i < q < SegmentEnd(s, i) :: !Boundary(s, q)
    decreases |s| - i
  {
    if !Boundary(s, i + 1) { SegmentInterior(s, i + 1); }
  }

  lemma {:induction false} SegmentEndIs(s: string, i: nat, e: nat)
    requires i < e <= |s| && Boundary(s, e) && forall q | i < q < e :: !Boundary(s, q)
    ensures SegmentEnd(s, i) == e
    decreases e - i
  {
    if i + 1 < e { SegmentEndIs(s, i + 1, e); }
  }

  /** A segment that starts outside a word holds no letter or digit. */
  lemma OutsideSegment(s: string, i: nat)
    requires i < |s| && !WordClass(ClassOf(s[i]))
    ensures WordAt(s, i) == []
  {
    if Boundary(s, i) {
      var e := SegmentEnd(s, i);
      SegmentInterior(s, i);
      var q := i;
      while q < e
        invariant i <= q <= e && forall n | i <= n < q :: !WordClass(ClassOf(s[n]))
      {
        if WordClass(ClassOf(s[q])) { WordStarts(s, i, q); }
        q := q + 1;
      }
    }
  }

  lemma {:induction false} SkipTo(s: string, i: nat, e: nat)
    requires i <= e <= |s| && forall q | i <= q < e :: WordAt(s, q) == []
    ensures WordsFrom(s, i) == WordsFrom(s, e)
    decreases e - i
  {
    hide WordAt;
    if i < e { SkipTo(s, i + 1, e); }
  }

  /** A pure ASCII stretch of the value, and how far it has been read. */
  class Scanner {
    const text: string
    const base: nat   // offset of the stretch in the value
    var cur: nat

    constructor (text: string, base: nat)
      ensures this.text == text && this.base == base && cur == 0
    {
      this.text, this.base, cur := text, base, 0;
    }

    /** Reads one run of word bytes joined by middle bytes. */
    method ReadWord(w: nat) returns (end: nat, sawLetNum: bool)
      requires w < |text| && WordClass(ClassOf(text[w]))
      ensures w < end <= |text| && end == SegmentEnd(text, w) && WordClass(ClassOf(text[end - 1]))
      ensures sawLetNum == LetterOrDigit(text, w, end)
    {
      hide Joined, ClassOf, PropertyOf;
      var s := w;
      sawLetNum := false;
      while true
        invariant w <= s <= |text| && (s > w ==> WordClass(ClassOf(text[s - 1])))
        invariant forall q | w < q < s :: !Boundary(text, q)
        invariant sawLetNum ==> LetterOrDigit(text, w, s)
        invariant !sawLetNum ==> forall q | w <= q < s :: ClassOf(text[q]).WbEnl?
        decreases |text| - s
      {
        while s < |text| && WordClass(ClassOf(text[s]))
          invariant w <= s <= |text| && (s > w ==> WordClass(ClassOf(text[s - 1])))
          invariant forall q | w < q < s :: !Boundary(text, q)
          invariant sawLetNum ==> LetterOrDigit(text, w, s)
          invariant !sawLetNum ==> forall q | w <= q < s :: ClassOf(text[q]).WbEnl?
        {
          LetterClass(text, s);
          if s > w { WordBytesJoin(text, s); }
          if !ClassOf(text[s]).WbEnl? { sawLetNum := true; }
          s := s + 1;
        }
        if s < |text| { MidDecides(text, s); }
        if s + 1 < |text| && Joins(ClassOf(text[s]), ClassOf(text[s - 1]), ClassOf(text[s + 1])) {
          s := s + 2;
          continue;
        }
        SegmentEndIs(text, w, s);
        forall q | w <= q < s ensures ClassOf(text[q]).WbEnl? ==> !(Has(text, q, ALetter) || Has(text, q, Numeric)) {
          LetterClass(text, q);
        }
        return s, sawLetNum;
      }
    }

    /** The next word of the stretch, and the bytes read up to its end. */
    method Next() returns (found: bool, token: Token)
      requires cur <= |text| && Boundary(text, cur)
      modifies this`cur
      ensures cur <= |text| && Boundary(text, cur)
      ensures !found ==> WordsFrom(text, old(cur)) == [] && cur == |text|
      ensures found ==> old(cur) < cur && base <= token.start <= token.end
      ensures found ==>
        WordsFrom(text, old(cur)) == [Token(token.start - base, token.end - base)] + WordsFrom(text, cur)
    {
      hide Joined, Boundary, ClassOf, PropertyOf, WordsFrom, WordAt, SegmentEnd, LetterOrDigit;
      var s := cur;
      while true
        invariant old(cur) <= s <= |text| && Boundary(text, s) && cur == old(cur)
        invariant WordsFrom(text, old(cur)) == WordsFrom(text, s)
        decreases |text| - s
      {
        ghost var from := s;
        while s < |text| && !WordClass(ClassOf(text[s]))
          invariant from <= s <= |text| && cur == old(cur)
          invariant forall q | from <= q < s :: !WordClass(ClassOf(text[q])) && WordAt(text, q) == []
        {
          OutsideSegment(text, s);
          s := s + 1;
        }
        SkipTo(text, from, s);
        if s >= |text| {
          LastBoundary(text);
          cur := |text|;
          return false, Token(0, 0);
        }
        WordStarts(text, from, s);
        var w := s;
        var sawLetNum;
        s, sawLetNum := ReadWord(w);
        WordThenRest(text, w);
        if sawLetNum {
          cur := s;
          return true, Token(base + w, base + s);
        }
      }
    }
  }

  lemma LastBoundary(s: string)
    ensures Boundary(s, |s|) && WordsFrom(s, |s|) == []
  {
  }

  lemma WordThenRest(s: string, w: nat)
    requires w < |s| && Boundary(s, w)
    ensures
      var e := SegmentEnd(s, w);
      WordsFrom(s, w) == if LetterOrDigit(s, w, e) then [Token(w, e)] + WordsFrom(s, e) else WordsFrom(s, e)
  {
    hide Joined, LetterOrDigit;
    SegmentInterior(s, w);
    SkipTo(s, w + 1, SegmentEnd(s, w));
  }

  lemma LetterClass(s: string, i: nat)
    requires i < |s|
    ensures WordClass(ClassOf(s[i])) && !ClassOf(s[i]).WbEnl? <==> Has(s, i, ALetter) || Has(s, i, Numeric)
  {
  }

  function Shift(tokens: seq<Token>, n: nat): (r: seq<Token>)
    ensures |r| == |tokens|
    ensures forall i | 0 <= i < |r| :: r[i] == Token(tokens[i].start + n, tokens[i].end + n)
  {
    seq(|tokens|, i requires 0 <= i < |tokens| => Token(tokens[i].start + n, tokens[i].end + n))
  }

  /** The words of an ASCII stretch, in order, with their offsets in the value. */
  method Tokenize(text: string, base: nat) returns (tokens: seq<Token>)
    ensures tokens == Shift(WordsFrom(text, 0), base)
  {
    hide WordsFrom, Boundary;
    var scanner := new Scanner(text, base);
    tokens := [];
    StartBoundary(text);
    ghost var left := WordsFrom(text, 0);
    while true
      invariant fresh(scanner) && scanner.text == text && scanner.base == base
      invariant scanner.cur <= |text| && Boundary(text, scanner.cur) && left == WordsFrom(text, scanner.cur)
      invariant Shift(WordsFrom(text, 0), base) == tokens + Shift(left, base)
      decreases |text| - scanner.cur
    {
      var found, token := scanner.Next();
      if !found { return; }
      assert left[1..] == WordsFrom(text, scanner.cur);
      tokens := tokens + [token];
      left := left[1..];
    }
  }

  lemma StartBoundary(s: string)
    ensures Boundary(s, 0)
  {
  }

  // ----- splitting at white space

  predicate Blank(c: char) { c == ' ' || '\t' <= c <= '\r' }

  /** White space and other bytes never share a segment. */
  lemma BlankBreaks(s: string, i: nat)
    requires 0 < i < |s| && Blank(s[i - 1]) != Blank(s[i])
    ensures Boundary(s, i)
  {
  }

  /** Inside one segment all bytes are blank or none is. */
  lemma BlankSegment(s: string, i: nat)
    requires i < |s|
    ensures forall q | i <= q < SegmentEnd(s, i) :: Blank(s[q]) == Blank(s[i])
  {
    hide Joined, Blank;
    SegmentInterior(s, i);
    var q := i;
    while q < SegmentEnd(s, i)
      invariant i <= q <= SegmentEnd(s, i) && forall n | i <= n < q :: Blank(s[n]) == Blank(s[i])
    {
      if q > i && Blank(s[q - 1]) != Blank(s[q]) { BlankBreaks(s, q); }
      q := q + 1;
    }
  }

  lemma NoBlankWord(s: string, i: nat)
    requires i < |s| && Blank(s[i])
    ensures WordAt(s, i) == []
  {
    OutsideSegment(s, i);
  }

  /** Left of a blank the rules read the same with or without what follows. */
  lemma SameBefore(s: string, p: nat, i: nat)
    requires 0 < i < p < |s| && Blank(s[p])
    ensures Joined(s, i) == Joined(s[..p], i)
  {
  }

  lemma SameAfter(s: string, p: nat, i: nat)
    requires p + 1 < i < |s| && Blank(s[p])
    ensures Joined(s, i) == Joined(s[p + 1..], i - p - 1)
  {
  }

  lemma LeftWord(s: string, p: nat, i: nat)
    requires i < p < |s| && Blank(s[p])
    ensures WordAt(s, i) == WordAt(s[..p], i)
  {
    hide Joined, Blank;
    var a := s[..p];
    if Blank(s[i]) {
      NoBlankWord(s, i);
      NoBlankWord(a, i);
    } else {
      var e := SegmentEnd(a, i);
      SegmentInterior(a, i);
      BlankSegment(a, i);
      assert a[e - 1] == s[e - 1];
      if e == p { BlankBreaks(s, p); } else { SameBefore(s, p, e); }
      if i > 0 { SameBefore(s, p, i); }
      forall q | i < q < e ensures !Boundary(s, q) {
        assert !Boundary(a, q);
        SameBefore(s, p, q);
      }
      SegmentEndIs(s, i, e);
      assert LetterOrDigit(s, i, e) == LetterOrDigit(a, i, e) by { SameLetters(s, a, i, e, 0); }
    }
  }

  lemma SameLetters(s: string, t: string, from: nat, end: nat, d: nat)
    requires from <= end <= |t| && end + d <= |s| && forall q | from <= q < end :: t[q] == s[q + d]
    ensures LetterOrDigit(s, from + d, end + d) == LetterOrDigit(t, from, end)
  {
    hide PropertyOf;
    if q :| from <= q < end && (Has(t, q, ALetter) || Has(t, q, Numeric)) {
      assert Has(s, q + d, ALetter) || Has(s, q + d, Numeric);
    }
    if q :| from + d <= q < end + d && (Has(s, q, ALetter) || Has(s, q, Numeric)) {
      assert t[q - d] == s[q - d + d];
      assert Has(t, q - d, ALetter) || Has(t, q - d, Numeric);
    }
  }

  lemma RightWord(s: string, p: nat, i: nat)
    requires p < i < |s| && Blank(s[p])
    ensures WordAt(s, i) == Shift(WordAt(s[p + 1..], i - p - 1), p + 1)
  {
    hide Joined, Blank;
    var t, d := s[p + 1..], p + 1;
    if Blank(s[i]) {
      NoBlankWord(s, i);
      NoBlankWord(t, i - d);
    } else {
      var e := SegmentEnd(t, i - d);
      SegmentInterior(t, i - d);
      if i == d { BlankBreaks(s, i); } else { SameAfter(s, p, i); }
      if e + d < |s| { SameAfter(s, p, e + d); }
      forall q | i < q < e + d ensures !Boundary(s, q) {
        assert !Boundary(t, q - d);
        SameAfter(s, p, q);
      }
      SegmentEndIs(s, i, e + d);
      assert LetterOrDigit(s, i, e + d) == LetterOrDigit(t, i - d, e) by { SameLetters(s, t, i - d, e, d); }
    }
  }

  lemma {:induction false} LeftWords(s: string, p: nat, i: nat)
    requires i <= p < |s| && Blank(s[p])
    ensures WordsFrom(s, i) == WordsFrom(s[..p], i) + WordsFrom(s, p + 1)
    decreases p - i
  {
    hide WordAt;
    if i < p {
      LeftWord(s, p, i);
      LeftWords(s, p, i + 1);
      assert WordsFrom(s[..p], i) == WordAt(s[..p], i) + WordsFrom(s[..p], i + 1);
    } else {
      NoBlankWord(s, p);
      assert WordsFrom(s[..p], p) == [];
    }
  }

  lemma ShiftConcat(a: seq<Token>, b: seq<Token>, n: nat)
    ensures Shift(a + b, n) == Shift(a, n) + Shift(b, n)
  {
  }

  lemma {:induction false} RightWords(s: string, p: nat, i: nat)
    requires p < i <= |s| && Blank(s[p])
    ensures WordsFrom(s, i) == Shift(WordsFrom(s[p + 1..], i - p - 1), p + 1)
    decreases |s| - i
  {
    hide WordAt;
    if i < |s| {
      RightWord(s, p, i);
      RightWords(s, p, i + 1);
      ShiftConcat(WordAt(s[p + 1..], i - p - 1), WordsFrom(s[p + 1..], i - p), p + 1);
    }
  }

  /** Cutting a text at a blank byte leaves its words alone. */
  lemma SplitAtBlank(s: string, p: nat)
    requires p < |s| && Blank(s[p])
    ensures WordsFrom(s, 0) == WordsFrom(s[..p], 0) + Shift(WordsFrom(s[p + 1..], 0), p + 1)
  {
    LeftWords(s, p, 0);
    RightWords(s, p, p + 1);
  }

  /** Blank positions in increasing order. */
  ghost predicate Cuts(s: string, cuts: seq<nat>) {
    && (forall i | 0 <= i < |cuts| :: cuts[i] < |s| && Blank(s[cuts[i]]))
    && (forall i, j | 0 <= i < j < |cuts| :: cuts[i] < cuts[j])
  }

  lemma CutsBefore(s: string, cuts: seq<nat>)
    requires Cuts(s, cuts) && cuts != []
    ensures
      var n := |cuts| - 1;
      cuts[n] < |s| && Blank(s[cuts[n]]) && Cuts(s[..cuts[n]], cuts[..n])
  {
    hide Blank;
  }

  /** The words of every piece between the cuts. */
  ghost function PieceWords(s: string, cuts: seq<nat>): (r: seq<Token>)
    requires Cuts(s, cuts)
    decreases |cuts|
  {
    if cuts == [] then WordsFrom(s, 0)
    else
      var n := |cuts| - 1;
      PieceWords(s[..cuts[n]], cuts[..n]) + Shift(WordsFrom(s[cuts[n] + 1..], 0), cuts[n] + 1)
  }

  /** However a text is cut at blanks, its words and their offsets are the same. */
  lemma {:induction false} SplitAnywhere(s: string, cuts: seq<nat>)
    requires Cuts(s, cuts)
    ensures PieceWords(s, cuts) == WordsFrom(s, 0)
    decreases |cuts|
  {
    hide WordsFrom, Blank, Shift, Cuts;
    if cuts != [] {
      var n := |cuts| - 1;
      CutsBefore(s, cuts);
      SplitAnywhere(s[..cuts[n]], cuts[..n]);
      SplitAtBlank(s, cuts[n]);
    }
  }

  // ----- lower-casing first

  // ----- which middle bytes join words

  predicate AllLetters(a: string) { forall i | 0 <= i < |a| :: 'a' <= a[i] <= 'z' || 'A' <= a[i] <= 'Z' }
  predicate AllDigits(a: string) { forall i | 0 <= i < |a| :: '0' <= a[i] <= '9' }

  /** Between letters a full stop, an apostrophe or a colon joins; between digits a full
      stop, an apostrophe, a comma or a semicolon. */
  predicate JoinsRuns(letters: bool, c: char) {
    c == '.' || c == '\'' || if letters then c == ':' else c == ',' || c == ';'
  }

  /** Boundaries around a middle byte between two runs of letters or of digits. */
  lemma MiddleBoundary(a: string, c: char, b: string, i: nat)
    requires a != "" && b != "" && !WordClass(ClassOf(c)) && 0 < i <= |a| + |b|
    requires (AllLetters(a) && AllLetters(b)) || (AllDigits(a) && AllDigits(b))
    ensures Boundary(a + [c] + b, i) <==> (i == |a| || i == |a| + 1) && !JoinsRuns(AllLetters(a), c)
  {
    var s := a + [c] + b;
    assert AllLetters(a) ==> !AllDigits(a) by { assert a[0] == s[0]; }
    if i < |a| {
      assert s[i - 1] == a[i - 1] && s[i] == a[i];
      WordBytesJoin(s, i);
    } else if i > |a| + 1 {
      assert s[i - 1] == b[i - |a| - 2] && s[i] == b[i - |a| - 1];
      WordBytesJoin(s, i);
    } else {
      assert s[|a| - 1] == a[|a| - 1] && s[|a|] == c && s[|a| + 1] == b[0];
    }
  }

  /** The word at a boundary with a letter or digit. */
  lemma WordHere(s: string, i: nat, e: nat)
    requires i < e <= |s| && Boundary(s, i) && Boundary(s, e) && forall q | i < q < e :: !Boundary(s, q)
    requires Has(s, i, ALetter) || Has(s, i, Numeric)
    ensures WordAt(s, i) == [Token(i, e)]
  {
    hide Joined, PropertyOf;
    SegmentEndIs(s, i, e);
  }

  lemma NoWordsInside(s: string, i: nat, e: nat)
    requires i < e <= |s| && forall q | i < q < e :: !Boundary(s, q)
    ensures WordsFrom(s, i) == WordAt(s, i) + WordsFrom(s, e)
  {
    hide Boundary;
    forall q | i < q < e ensures WordAt(s, q) == [] { assert !Boundary(s, q); }
    hide WordAt;
    SkipTo(s, i + 1, e);
  }

  /** A word starts at 0 and after the middle byte m. */
  ghost predicate Runs(s: string, m: nat) {
    && 0 < m && m + 1 < |s| && !WordClass(ClassOf(s[m]))
    && (Has(s, 0, ALetter) || Has(s, 0, Numeric)) && (Has(s, m + 1, ALetter) || Has(s, m + 1, Numeric))
  }

  /** The boundaries inside are those around m, or none. */
  ghost predicate CutAround(s: string, m: nat, joined: bool) {
    forall i | 0 < i < |s| :: Boundary(s, i) <==> (i == m || i == m + 1) && !joined
  }

  lemma OneWord(s: string, m: nat)
    requires Runs(s, m) && CutAround(s, m, true)
    ensures WordsFrom(s, 0) == [Token(0, |s|)]
  {
    assert Boundary(s, 0) && Boundary(s, |s|) && WordsFrom(s, |s|) == [];
    hide Boundary, WordAt, WordsFrom, Has, ClassOf;
    WordHere(s, 0, |s|);
    NoWordsInside(s, 0, |s|);
  }

  lemma FirstPiece(s: string, m: nat)
    requires Runs(s, m) && CutAround(s, m, false)
    ensures WordsFrom(s, 0) == [Token(0, m)] + WordsFrom(s, m)
  {
    assert Boundary(s, 0);
    hide Boundary, WordAt, WordsFrom, Has, ClassOf;
    WordHere(s, 0, m);
    NoWordsInside(s, 0, m);
  }

  lemma MiddlePiece(s: string, m: nat)
    requires Runs(s, m)
    ensures WordsFrom(s, m) == WordsFrom(s, m + 1)
  {
    OutsideSegment(s, m);
    hide WordAt;
  }

  lemma LastPiece(s: string, m: nat)
    requires Runs(s, m) && CutAround(s, m, false)
    ensures WordsFrom(s, m + 1) == [Token(m + 1, |s|)]
  {
    assert Boundary(s, |s|) && WordsFrom(s, |s|) == [];
    hide Boundary, WordAt, WordsFrom, Has, ClassOf;
    WordHere(s, m + 1, |s|);
    NoWordsInside(s, m + 1, |s|);
  }

  lemma RunsHold(a: string, c: char, b: string)
    requires a != "" && b != "" && !WordClass(ClassOf(c))
    requires (AllLetters(a) && AllLetters(b)) || (AllDigits(a) && AllDigits(b))
    ensures Runs(a + [c] + b, |a|) && CutAround(a + [c] + b, |a|, JoinsRuns(AllLetters(a), c))
  {
    var s := a + [c] + b;
    assert s[0] == a[0] && s[|a|] == c && s[|a| + 1] == b[0];
    assert Runs(s, |a|);
    hide Boundary, AllLetters, AllDigits, ClassOf, JoinsRuns, Runs;
    forall i | 0 < i < |s| ensures Boundary(s, i) <==> (i == |a| || i == |a| + 1) && !JoinsRuns(AllLetters(a), c) {
      MiddleBoundary(a, c, b, i);
    }
  }

  /** Two runs of letters or of digits around a byte are one word if the byte joins them,
      and two words otherwise. */
  lemma MiddleByte(a: string, c: char, b: string)
    requires a != "" && b != "" && !WordClass(ClassOf(c))
    requires (AllLetters(a) && AllLetters(b)) || (AllDigits(a) && AllDigits(b))
    ensures
      var n := |a| + 1 + |b|;
      WordsFrom(a + [c] + b, 0) ==
        if JoinsRuns(AllLetters(a), c) then [Token(0, n)] else [Token(0, |a|), Token(|a| + 1, n)]
  {
    hide *;
    var s, m := a + [c] + b, |a|;
    RunsHold(a, c, b);
    if JoinsRuns(AllLetters(a), c) {
      OneWord(s, m);
    } else {
      FirstPiece(s, m);
      MiddlePiece(s, m);
      LastPiece(s, m);
    }
  }

  lemma SameJoins(s: string, t: string, i: nat)
    requires |s| == |t| && 0 < i < |s| && forall q | 0 <= q < |s| :: PropertyOf(s[q]) == PropertyOf(t[q])
    ensures Joined(s, i) == Joined(t, i)
  {
    hide PropertyOf;
  }

  lemma SameWordAt(s: string, t: string, i: nat)
    requires |s| == |t| && i < |s| && forall q | 0 <= q < |s| :: PropertyOf(s[q]) == PropertyOf(t[q])
    ensures WordAt(s, i) == WordAt(t, i)
  {
    hide PropertyOf, Joined;
    forall q | 0 < q < |s| ensures Joined(s, q) == Joined(t, q) { SameJoins(s, t, q); }
    var e := SegmentEnd(s, i);
    SegmentInterior(s, i);
    forall q | i < q < e ensures !Boundary(t, q) {
      assert !Boundary(s, q) && Joined(s, q) == Joined(t, q);
    }
    assert e < |s| ==> Joined(s, e) == Joined(t, e);
    SegmentEndIs(t, i, e);
    hide SegmentEnd, Boundary;
    assert forall q | 0 <= q < |s| :: Has(s, q, ALetter) == Has(t, q, ALetter) && Has(s, q, Numeric) == Has(t, q, Numeric);
  }

  lemma {:induction false} SameWords(s: string, t: string, i: nat)
    requires |s| == |t| && i <= |s| && forall q | 0 <= q < |s| :: PropertyOf(s[q]) == PropertyOf(t[q])
    ensures WordsFrom(s, i) == WordsFrom(t, i)
    decreases |s| - i
  {
    hide PropertyOf, WordAt;
    if i < |s| {
      SameWords(s, t, i + 1);
      SameWordAt(s, t, i);
    }
  }

  /** Lower-casing ASCII first changes no word and no offset. */
  lemma LoweredWords(s: string)
    ensures WordsFrom(Lowered(s), 0) == WordsFrom(s, 0)
  {
    hide WordsFrom;
    assert forall q | 0 <= q < |s| :: PropertyOf(Lowered(s)[q]) == PropertyOf(s[q]);
    SameWords(Lowered(s), s, 0);
  }
}
