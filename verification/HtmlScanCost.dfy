/** What the tag scans of the HTML filter cost: the memory of failed scans saves
    nothing, the cost can be quadratic, and only candidates inside the quoted
    values of a failed scan can raise it above the length of the text. */
module HtmlScanCost {
  import opened Ascii
  import opened HtmlStrip
  import opened Options

  // ----- the scans without the memory

  /** An opener followed by a name. */
  predicate Candidate(s: string, x: nat) {
    x < |s| && s[x] == '<' && NameStart(s, x) < |s| && Alpha(s[NameStart(s, x)])
  }

  /** Where the attributes of a candidate are scanned from. */
  function ScanStart(s: string, x: nat): (b: nat)
    requires Candidate(s, x)
    ensures x + 2 <= b <= |s|
  {
    NameEnd(s, NameStart(s, x) + 1)
  }

  /** Bytes read for the closing tags tried for a script or style. */
  function RawBare(s: string, p: nat, name: string): (n: nat)
    requires p <= |s|
    decreases |s| - p
  {
    if p >= |s| then 0
    else if !RawClose(s, p, name) then RawBare(s, p + 1, name)
    else
      var end := p + 2 + |name|;
      TagSteps(s, end, Attributes) + if TagEnd(s, end, Attributes).Some? then 0 else RawBare(s, p + 1, name)
  }

  function CandidateBare(s: string, x: nat): (n: nat)
    requires Candidate(s, x)
  {
    var nameStart, b := NameStart(s, x), ScanStart(s, x);
    var name, end := s[nameStart..b], TagEnd(s, b, Attributes);
    TagSteps(s, b, Attributes) +
    if end.None? || nameStart == x + 2 then 0
    else if EqualName(name, "script") then RawBare(s, end.value, "script")
    else if EqualName(name, "style") then RawBare(s, end.value, "style")
    else 0
  }

  /** Bytes read when every candidate reached is scanned. */
  function TextBare(s: string, pos: nat, e: Entities): (n: nat)
    requires pos <= |s|
    decreases |s| - pos
  {
    if pos == |s| then 0
    else (if Candidate(s, pos) then CandidateBare(s, pos) else 0) + TextBare(s, ItemEnd(ItemAt(s, pos, e), pos), e)
  }

  // ----- the memory saves nothing

  lemma {:induction false} NameRunBytes(s: string, pos: nat)
    requires pos <= |s|
    ensures forall i | pos <= i < NameEnd(s, pos) :: NameByte(s[i])
    decreases |s| - pos
  {
    if pos < |s| && NameByte(s[pos]) { NameRunBytes(s, pos + 1); }
  }

  /** Between an opener and its attributes there is no opener and no quote. */
  lemma NameBytes(s: string, x: nat)
    requires Candidate(s, x)
    ensures forall i | x < i < ScanStart(s, x) :: s[i] != '<' && !Quote(s[i])
  {
    hide NameEnd;
    NameRunBytes(s, NameStart(s, x) + 1);
  }

  ghost predicate QuoteBetween(s: string, x: nat, limit: nat) {
    exists k :: x < k < limit && k < |s| && Quote(s[k])
  }

  /** Every opener from p on has a quote between it and the limit. */
  ghost predicate QuotesAhead(s: string, p: nat, limit: nat) {
    forall x | p <= x < |s| && s[x] == '<' :: QuoteBetween(s, x, limit)
  }

  /** A scan that runs off the text skips every opener in quotes, and remembers
      only what lies behind the last of them. */
  lemma {:induction false} OpenersBeforeTail(s: string, pos: nat, state: State, tail: nat)
    requires tail <= pos && TagTail(s, pos, state, tail).Some?
    ensures
      var r := TagTail(s, pos, state, tail).value;
      tail <= r && QuotesAhead(s, pos, r)
    decreases |s| - pos
  {
    hide Find;
    if pos < |s| {
      var r := TagTail(s, pos, state, tail).value;
      if state.BeforeValue? && Quote(s[pos]) {
        var q := Find(s, s[pos], pos + 1).value;
        OpenersBeforeTail(s, q + 1, Attributes, q + 1);
        forall x | pos <= x < |s| && s[x] == '<' ensures QuoteBetween(s, x, r) {
          if x < q { assert x < q < r; }
        }
      } else {
        OpenersBeforeTail(s, pos + 1, NextState(state, s[pos]), tail);
      }
    }
  }

  /** No opener from p on can start a scan behind the remembered position. */
  ghost predicate Useless(s: string, p: nat, m: Meter) {
    m.noTag == |s| || QuotesAhead(s, p, m.noTag)
  }

  /** A candidate is passed over only if its name ends the text. */
  lemma NotPassedOver(s: string, x: nat, m: Meter)
    requires Candidate(s, x) && Useless(s, x, m)
    ensures ScanStart(s, x) < m.noTag || ScanStart(s, x) == |s|
  {
    hide ScanStart;
    if m.noTag != |s| {
      NameBytes(s, x);
      assert QuoteBetween(s, x, m.noTag);
    }
  }

  /** One scan reads what it would read without the memory. */
  lemma OneScan(s: string, x: nat, m: Meter)
    requires Candidate(s, x) && Useless(s, x, m)
    ensures
      var b, m' := ScanStart(s, x), TagMeter(s, ScanStart(s, x), m);
      m'.steps == m.steps + TagSteps(s, b, Attributes) && Useless(s, x + 1, m')
  {
    hide ScanStart, Candidate, QuoteBetween, TagTail;
    NotPassedOver(s, x, m);
    NameBytes(s, x);
    var b := ScanStart(s, x);
    if TagTail(s, b, Attributes, b).Some? { OpenersBeforeTail(s, b, Attributes, b); }
  }

  lemma {:induction false} LettersAreName(s: string, pos: nat, end: nat)
    requires pos <= end < |s| && (forall i | pos <= i < end :: Alpha(s[i])) && !NameByte(s[end])
    ensures NameEnd(s, pos) == end
    decreases end - pos
  {
    if pos < end { LettersAreName(s, pos + 1, end); }
  }

  predicate RawName(name: string) { name == "script" || name == "style" }

  /** The closing tag of a script or style is a candidate. */
  lemma RawCloseIsCandidate(s: string, p: nat, name: string)
    requires RawName(name) && RawClose(s, p, name)
    ensures Candidate(s, p) && ScanStart(s, p) == p + 2 + |name|
  {
    hide NameEnd;
    var end := p + 2 + |name|;
    forall i | p + 2 <= i < end ensures Alpha(s[i]) {
      assert s[p + 2..end][i - p - 2] == s[i];
      assert Lower(s[i]) == name[i - p - 2] && 'a' <= name[i - p - 2] <= 'z';
    }
    LettersAreName(s, p + 3, end);
  }

  lemma {:induction false} RawSavesNothing(s: string, p: nat, name: string, m: Meter)
    requires p <= |s| && RawName(name) && Useless(s, p, m)
    ensures
      var m' := RawMeter(s, p, name, m);
      m'.steps == m.steps + RawBare(s, p, name) && Useless(s, RawEnd(s, p, name), m')
    decreases |s| - p
  {
    hide RawClose, TagEnd, TagMeter, TagSteps, RawName, QuoteBetween, ScanStart, Candidate;
    if p < |s| {
      if !RawClose(s, p, name) {
        RawSavesNothing(s, p + 1, name, m);
      } else {
        RawCloseIsCandidate(s, p, name);
        OneScan(s, p, m);
        var b := ScanStart(s, p);
        if TagEnd(s, b, Attributes).None? { RawSavesNothing(s, p + 1, name, TagMeter(s, b, m)); }
      }
    }
  }

  lemma CandidateSavesNothing(s: string, x: nat, e: Entities, m: Meter)
    requires Candidate(s, x) && Useless(s, x, m)
    ensures
      var m' := ItemMeter(s, x, m);
      m'.steps == m.steps + CandidateBare(s, x) && Useless(s, ItemEnd(ItemAt(s, x, e), x), m')
  {
    OneScan(s, x, m);
    CandidateIsTag(s, x);
    var b := ScanStart(s, x);
    var end, m' := TagEnd(s, b, Attributes), TagMeter(s, b, m);
    hide TagEnd, TagMeter, TagSteps, RawMeter, RawEnd, RawBare, EqualName, Inline, StartsAt, QuoteBetween, NameEnd;
    hide OtherMarkup;
    if end.Some? {
      RawSavesNothing(s, end.value, "script", m');
      RawSavesNothing(s, end.value, "style", m');
    }
  }

  lemma CandidateIsTag(s: string, x: nat)
    requires Candidate(s, x)
    ensures !OtherMarkup(s, x)
  {
    assert CDATA_OPEN[1] == '!' && "<!--"[1] == '!';
  }

  lemma NoCandidate(s: string, x: nat, m: Meter)
    requires x < |s| && !Candidate(s, x)
    ensures ItemMeter(s, x, m) == m
  {
    hide TagEnd, TagMeter, RawMeter, EqualName, NameEnd, OtherMarkup;
  }

  lemma {:induction false} TextSavesNothing(s: string, pos: nat, e: Entities, m: Meter)
    requires pos <= |s| && Useless(s, pos, m)
    ensures TextMeter(s, pos, e, m).steps == m.steps + TextBare(s, pos, e)
    decreases |s| - pos
  {
    hide ItemAt, ItemMeter, CandidateBare, Candidate, QuoteBetween;
    if pos < |s| {
      if Candidate(s, pos) { CandidateSavesNothing(s, pos, e, m); } else { NoCandidate(s, pos, m); }
      TextSavesNothing(s, ItemEnd(ItemAt(s, pos, e), pos), e, ItemMeter(s, pos, m));
    }
  }

  /** On every text the scans read as many bytes with the memory of failed scans as
      without it. */
  lemma MemorySavesNothing(s: string, e: Entities)
    ensures TextMeter(s, 0, e, Meter(|s|, 0)).steps == TextBare(s, 0, e)
  {
    TextSavesNothing(s, 0, e, Meter(|s|, 0));
  }

  // ----- a family on which the cost is quadratic

  const COPY := " =\"<a \""

  function Copies(n: nat): (s: string)
    ensures |s| == 7 * n
  {
    if n == 0 then "" else Copies(n - 1) + COPY
  }

  /** An opener, then n quoted values that each hold another. */
  function Nested(n: nat): (s: string)
    ensures |s| == 2 + 7 * n
  {
    "<a" + Copies(n)
  }

  lemma {:induction false} CopyAt(n: nat, k: nat, i: nat)
    requires k < n && i < 7
    ensures Copies(n)[7 * k + i] == COPY[i]
  {
    if k < n - 1 { CopyAt(n - 1, k, i); }
  }

  /** The seven bytes of copy k. */
  lemma CopyBytes(n: nat, k: nat)
    requires k < n
    ensures
      var s, b := Nested(n), 2 + 7 * k;
      && s[b] == ' ' && s[b + 1] == '=' && s[b + 2] == '\"' && s[b + 3] == '<' && s[b + 4] == 'a'
      && s[b + 5] == ' ' && s[b + 6] == '\"'
  {
    hide Copies;
    CopyAt(n, k, 0);
    CopyAt(n, k, 1);
    CopyAt(n, k, 2);
    CopyAt(n, k, 3);
    CopyAt(n, k, 4);
    CopyAt(n, k, 5);
    CopyAt(n, k, 6);
  }

  /** From the start of copy k a scan reads three bytes of each copy and runs off
      the end. */
  lemma {:induction false} ScanCopies(n: nat, k: nat)
    requires k <= n
    ensures
      var s, b := Nested(n), 2 + 7 * k;
      TagEnd(s, b, Attributes) == None && TagSteps(s, b, Attributes) == 3 * (n - k)
    decreases n - k
  {
    hide Nested;
    if k < n {
      var s, b := Nested(n), 2 + 7 * k;
      CopyBytes(n, k);
      ScanCopies(n, k + 1);
      QuoteAfter(s, b + 3);
      ThreeBytes(s, b);
    }
  }

  lemma QuoteAfter(s: string, i: nat)
    requires i + 3 < |s| && s[i] != '\"' && s[i + 1] != '\"' && s[i + 2] != '\"' && s[i + 3] == '\"'
    ensures Find(s, '\"', i) == Some(i + 3)
  {
    assert Find(s, '\"', i + 3) == Some(i + 3);
    assert Find(s, '\"', i + 2) == Some(i + 3);
    assert Find(s, '\"', i + 1) == Some(i + 3);
  }

  lemma ThreeBytes(s: string, b: nat)
    requires b + 6 < |s| && s[b] == ' ' && s[b + 1] == '=' && s[b + 2] == '\"' && Find(s, '\"', b + 3) == Some(b + 6)
    ensures TagEnd(s, b, Attributes) == TagEnd(s, b + 7, Attributes)
    ensures TagSteps(s, b, Attributes) == 3 + TagSteps(s, b + 7, Attributes)
  {
    assert TagEnd(s, b + 2, BeforeValue) == TagEnd(s, b + 7, Attributes);
    assert TagEnd(s, b + 1, Attributes) == TagEnd(s, b + 2, BeforeValue);
    assert TagSteps(s, b + 2, BeforeValue) == 1 + TagSteps(s, b + 7, Attributes);
    assert TagSteps(s, b + 1, Attributes) == 1 + TagSteps(s, b + 2, BeforeValue);
  }

  /** The opener inside copy k: past the stray quote its scan falls into step. */
  lemma InnerScan(n: nat, k: nat)
    requires k < n
    ensures
      var s, b := Nested(n), 2 + 7 * k;
      TagEnd(s, b + 5, Attributes) == None && TagSteps(s, b + 5, Attributes) == 2 + 3 * (n - k - 1)
  {
    hide Nested;
    var s, b := Nested(n), 2 + 7 * k;
    CopyBytes(n, k);
    ScanCopies(n, k + 1);
    assert TagEnd(s, b + 6, Attributes) == TagEnd(s, b + 7, Attributes);
    assert TagSteps(s, b + 6, Attributes) == 1 + TagSteps(s, b + 7, Attributes);
  }

  predicate LoneOpener(s: string, p: nat) {
    p + 1 < |s| && s[p] == '<' && s[p + 1] == 'a' && (p + 2 < |s| ==> s[p + 2] == ' ')
  }

  lemma LoneOpenerScan(s: string, p: nat)
    requires LoneOpener(s, p)
    ensures Candidate(s, p) && ScanStart(s, p) == p + 2
  {
    assert NameEnd(s, p + 2) == p + 2;
  }

  /** A lone opener "<a" at p followed by a blank: kept, at the cost of one scan. */
  lemma Opener(s: string, p: nat, e: Entities)
    requires LoneOpener(s, p) && TagEnd(s, p + 2, Attributes) == None
    ensures TextBare(s, p, e) == TagSteps(s, p + 2, Attributes) + TextBare(s, p + 1, e)
  {
    hide TagEnd, TagSteps, RawBare, RawEnd, EqualName, Inline;
    LoneOpenerScan(s, p);
    CandidateIsTag(s, p);
  }

  /** A byte that opens nothing costs nothing. */
  lemma PlainByte(s: string, p: nat, e: Entities)
    requires p < |s| && s[p] != '<' && s[p] != '&'
    ensures TextBare(s, p, e) == TextBare(s, p + 1, e)
  {
  }

  /** Copy k costs one scan of all copies after it. */
  lemma CopyCost(n: nat, k: nat, e: Entities)
    requires k < n
    ensures
      var s, b := Nested(n), 2 + 7 * k;
      TextBare(s, b, e) == 2 + 3 * (n - k - 1) + TextBare(s, b + 7, e)
  {
    var s, b := Nested(n), 2 + 7 * k;
    CopyBytes(n, k);
    InnerScan(n, k);
    hide Nested, TagEnd, TagSteps, TextBare;
    PlainByte(s, b, e);
    PlainByte(s, b + 1, e);
    PlainByte(s, b + 2, e);
    Opener(s, b + 3, e);
    PlainByte(s, b + 4, e);
    PlainByte(s, b + 5, e);
    PlainByte(s, b + 6, e);
  }

  lemma {:induction false} CopiesCost(n: nat, k: nat, e: Entities)
    requires k <= n
    ensures 2 * TextBare(Nested(n), 2 + 7 * k, e) == (n - k) * (3 * (n - k) + 1)
    decreases n - k
  {
    hide Nested, TextBare;
    if k < n {
      CopyCost(n, k, e);
      CopiesCost(n, k + 1, e);
      var d := n - k - 1;
      assert (d + 1) * (3 * (d + 1) + 1) == d * (3 * d + 1) + 2 * (2 + 3 * d);
    } else {
      NothingLeft(Nested(n), e);
    }
  }

  lemma NothingLeft(s: string, e: Entities)
    ensures TextBare(s, |s|, e) == 0
  {
  }

  /** The outer opener is scanned once through all copies. */
  lemma OuterCost(n: nat, e: Entities)
    ensures TextBare(Nested(n), 0, e) == 3 * n + TextBare(Nested(n), 2, e)
  {
    var s := Nested(n);
    assert s[0] == '<' && s[1] == 'a';
    ScanCopies(n, 0);
    if n > 0 { CopyBytes(n, 0); }
    hide Nested, TagEnd, TagSteps, TextBare;
    Opener(s, 0, e);
    PlainByte(s, 1, e);
  }

  lemma SumOfScans(n: nat)
    ensures n * (3 * n + 1) + 6 * n == n * (3 * n + 7)
  {
  }

  /** On a text of 7 * n + 2 bytes the tag scans read n * (3 * n + 7) / 2 bytes:
      the memory of failed scans does not bound them by the length. */
  lemma ScansAreQuadratic(n: nat, e: Entities)
    ensures |Nested(n)| == 7 * n + 2
    ensures 2 * TextMeter(Nested(n), 0, e, Meter(|Nested(n)|, 0)).steps == n * (3 * n + 7)
  {
    hide Nested, TextMeter, TextBare;
    MemorySavesNothing(Nested(n), e);
    OuterCost(n, e);
    CopiesCost(n, 0, e);
    SumOfScans(n);
  }

  // ----- a bound on every text

  /** y lies in a quoted value that the scan from pos skips. */
  predicate Skips(s: string, pos: nat, state: State, y: nat)
    decreases |s| - pos
  {
    if pos >= |s| || s[pos] == '>' || s[pos] == '<' then false
    else if state.BeforeValue? && Quote(s[pos]) then
      var q := Find(s, s[pos], pos + 1);
      q.Some? && (pos < y < q.value || Skips(s, q.value + 1, Attributes, y))
    else Skips(s, pos + 1, NextState(state, s[pos]), y)
  }

  /** The tag at x is malformed and y lies in one of its quoted values. */
  predicate HiddenBy(s: string, x: nat, y: nat) {
    && Candidate(s, x) && TagEnd(s, ScanStart(s, x), Attributes).None?
    && Skips(s, ScanStart(s, x), Attributes, y)
  }

  /** A candidate in a quoted value of a malformed one. */
  ghost predicate Hidden(s: string, y: nat) {
    Candidate(s, y) && exists x :: HiddenBy(s, x, y)
  }

  /** Hidden candidates from p on. */
  ghost function HiddenCount(s: string, p: nat): (n: nat)
    requires p <= |s|
    decreases |s| - p
  {
    if p == |s| then 0 else (if Hidden(s, p) then 1 else 0) + HiddenCount(s, p + 1)
  }

  /** The byte at which a scan stops: a bracket, a quote never closed, or the end. */
  function Stop(s: string, pos: nat, state: State): (r: nat)
    requires pos <= |s|
    ensures pos <= r <= |s|
    decreases |s| - pos
  {
    if pos == |s| || s[pos] == '>' || s[pos] == '<' then pos
    else if state.BeforeValue? && Quote(s[pos]) then
      var q := Find(s, s[pos], pos + 1);
      if q.None? then pos else Stop(s, q.value + 1, Attributes)
    else Stop(s, pos + 1, NextState(state, s[pos]))
  }

  /** A scan reads no byte past its stop. */
  lemma {:induction false} StepsToStop(s: string, pos: nat, state: State)
    requires pos <= |s|
    ensures
      var r, end := Stop(s, pos, state), TagEnd(s, pos, state);
      TagSteps(s, pos, state) <= r - pos + 1 && (end.Some? ==> end.value == r + 1)
    decreases |s| - pos
  {
    hide Find;
    if pos < |s| && s[pos] != '>' && s[pos] != '<' {
      if state.BeforeValue? && Quote(s[pos]) {
        var q := Find(s, s[pos], pos + 1);
        if q.Some? { StepsToStop(s, q.value + 1, Attributes); }
      } else {
        StepsToStop(s, pos + 1, NextState(state, s[pos]));
      }
    }
  }

  /** An opener before the stop is skipped in quotes. */
  lemma {:induction false} SkippedToStop(s: string, pos: nat, state: State, y: nat)
    requires pos <= |s| && pos <= y < Stop(s, pos, state) && s[y] == '<'
    ensures Skips(s, pos, state, y)
    decreases |s| - pos
  {
    hide Find;
    if state.BeforeValue? && Quote(s[pos]) {
      var q := Find(s, s[pos], pos + 1);
      if q.Some? && y > q.value { SkippedToStop(s, q.value + 1, Attributes, y); }
    } else {
      SkippedToStop(s, pos + 1, NextState(state, s[pos]), y);
    }
  }

  /** What the rest of the text may cost when the bytes before r are paid for: the
      bytes left, and the whole length for each hidden candidate. */
  ghost function Budget(s: string, p: nat, r: nat): (n: int)
    requires p <= |s|
  {
    |s| - (if p < r then r else p) + HiddenWeight(s, p)
  }

  ghost function HiddenWeight(s: string, p: nat): (n: nat)
    requires p <= |s|
    decreases |s| - p
  {
    if p == |s| then 0 else (if Hidden(s, p) then |s| else 0) + HiddenWeight(s, p + 1)
  }

  lemma {:induction false} WeightOfCount(s: string, p: nat)
    requires p <= |s|
    ensures HiddenWeight(s, p) == |s| * HiddenCount(s, p)
    decreases |s| - p
  {
    hide Hidden;
    if p < |s| { WeightOfCount(s, p + 1); }
  }

  lemma {:induction false} WeightFalls(s: string, p: nat, next: nat)
    requires p <= next <= |s|
    ensures HiddenWeight(s, next) <= HiddenWeight(s, p)
    decreases next - p
  {
    hide Hidden;
    if p < next { WeightFalls(s, p + 1, next); }
  }

  /** All candidates before r are hidden. */
  ghost predicate Covered(s: string, p: nat, r: nat) {
    r <= |s| && forall y | p <= y < r :: Candidate(s, y) ==> Hidden(s, y)
  }

  /** The budget at p pays the cost and leaves the budget at next. */
  ghost predicate Paid(s: string, p: nat, r: nat, cost: nat, next: nat)
    requires p <= |s| && next <= |s|
  {
    exists r' :: Covered(s, next, r') && cost + Budget(s, next, r') <= Budget(s, p, r)
  }

  lemma FreeStep(s: string, p: nat, r: nat, next: nat)
    requires p <= next <= |s| && Covered(s, p, r)
    ensures Covered(s, next, r) && Budget(s, next, r) <= Budget(s, p, r) && Paid(s, p, r, 0, next)
  {
    hide Hidden, Candidate, HiddenWeight;
    WeightFalls(s, p, next);
    assert Covered(s, next, r);
  }

  /** A failed scan is paid by the bytes up to its stop. */
  lemma FailedScan(s: string, x: nat, r: nat)
    requires Candidate(s, x) && TagEnd(s, ScanStart(s, x), Attributes).None? && r <= x
    ensures Paid(s, x, r, TagSteps(s, ScanStart(s, x), Attributes), x + 1)
  {
    var b := ScanStart(s, x);
    var r' := Stop(s, b, Attributes);
    StepsToStop(s, b, Attributes);
    NameBytes(s, x);
    hide Stop, TagSteps, TagEnd, ScanStart, Skips, HiddenWeight;
    forall y | x + 1 <= y < r' && Candidate(s, y) ensures Hidden(s, y) {
      SkippedToStop(s, b, Attributes, y);
      assert HiddenBy(s, x, y);
    }
    WeightFalls(s, x, x + 1);
    assert Covered(s, x + 1, r');
  }

  /** A scan that finds its end is paid by the bytes up to it. */
  lemma ClosedScan(s: string, x: nat, r: nat)
    requires Candidate(s, x) && TagEnd(s, ScanStart(s, x), Attributes).Some? && r <= x
    ensures
      var b := ScanStart(s, x);
      Paid(s, x, r, TagSteps(s, b, Attributes), TagEnd(s, b, Attributes).value)
  {
    var b := ScanStart(s, x);
    StepsToStop(s, b, Attributes);
    hide Stop, TagSteps, TagEnd, ScanStart, Skips, Hidden, Candidate, HiddenWeight;
    var end := TagEnd(s, b, Attributes).value;
    WeightFalls(s, x, end);
    assert Covered(s, end, r);
  }

  /** The scan of a hidden candidate is paid by the candidate. */
  lemma HiddenScan(s: string, x: nat, r: nat, next: nat)
    requires Candidate(s, x) && Covered(s, x, r) && x < r && x < next <= |s|
    ensures Paid(s, x, r, TagSteps(s, ScanStart(s, x), Attributes), next)
  {
    hide TagSteps, ScanStart, Hidden, Candidate;
    WeightFalls(s, x + 1, next);
    assert Covered(s, next, r);
  }

  /** Every scan is paid for. */
  lemma ScanIsPaid(s: string, x: nat, r: nat)
    requires Candidate(s, x) && Covered(s, x, r)
    ensures
      var b := ScanStart(s, x);
      var n, end := TagSteps(s, b, Attributes), TagEnd(s, b, Attributes);
      Paid(s, x, r, n, if end.Some? then end.value else x + 1)
  {
    hide TagSteps, TagEnd, ScanStart, Candidate, Covered, Paid;
    var end := TagEnd(s, ScanStart(s, x), Attributes);
    if x < r {
      HiddenScan(s, x, r, if end.Some? then end.value else x + 1);
    } else if end.Some? {
      ClosedScan(s, x, r);
    } else {
      FailedScan(s, x, r);
    }
  }

  lemma PaidTwice(s: string, p: nat, r: nat, c: nat, q: nat, r': nat, d: nat, next: nat)
    requires p <= |s| && q <= |s| && next <= |s| && c + Budget(s, q, r') <= Budget(s, p, r) && Paid(s, q, r', d, next)
    ensures Paid(s, p, r, c + d, next)
  {
    hide Covered, Budget;
  }

  lemma {:induction false} RawIsPaid(s: string, p: nat, name: string, r: nat)
    requires p <= |s| && RawName(name) && Covered(s, p, r)
    ensures Paid(s, p, r, RawBare(s, p, name), RawEnd(s, p, name))
    decreases |s| - p
  {
    hide RawClose, TagEnd, TagSteps, RawName, Covered, Budget, ScanStart, Candidate, Paid;
    if p == |s| {
      FreeStep(s, p, r, p);
    } else if !RawClose(s, p, name) {
      FreeStep(s, p, r, p + 1);
      RawIsPaid(s, p + 1, name, r);
      PaidTwice(s, p, r, 0, p + 1, r, RawBare(s, p, name), RawEnd(s, p, name));
    } else {
      RawCloseIsCandidate(s, p, name);
      ScanIsPaid(s, p, r);
      var b := ScanStart(s, p);
      if TagEnd(s, b, Attributes).None? {
        var n := TagSteps(s, b, Attributes);
        var r' := PaidAt(s, p, r, n, p + 1);
        RawIsPaid(s, p + 1, name, r');
        PaidTwice(s, p, r, n, p + 1, r', RawBare(s, p + 1, name), RawEnd(s, p, name));
      }
    }
  }

  ghost function PaidAt(s: string, p: nat, r: nat, cost: nat, next: nat): (r': nat)
    requires p <= |s| && next <= |s| && Paid(s, p, r, cost, next)
    ensures Covered(s, next, r') && cost + Budget(s, next, r') <= Budget(s, p, r)
  {
    var r' :| Covered(s, next, r') && cost + Budget(s, next, r') <= Budget(s, p, r);
    r'
  }

  /** What is read and where the text goes on after a candidate. */
  lemma CandidateParts(s: string, x: nat, e: Entities)
    requires Candidate(s, x)
    ensures
      var b := ScanStart(s, x);
      var n, end := TagSteps(s, b, Attributes), TagEnd(s, b, Attributes);
      var cost, next := CandidateBare(s, x), ItemEnd(ItemAt(s, x, e), x);
      if end.None? then cost == n && next == x + 1
      else
        || (cost == n && next == end.value)
        || (exists name | RawName(name) :: cost == n + RawBare(s, end.value, name) && next == RawEnd(s, end.value, name))
  {
    CandidateIsTag(s, x);
    hide TagEnd, TagSteps, RawEnd, RawBare, EqualName, Inline, StartsAt, NameEnd;
    assert RawName("script") && RawName("style");
  }

  lemma CandidateIsPaid(s: string, x: nat, r: nat, e: Entities)
    requires Candidate(s, x) && Covered(s, x, r)
    ensures Paid(s, x, r, CandidateBare(s, x), ItemEnd(ItemAt(s, x, e), x))
  {
    hide *;
    ScanIsPaid(s, x, r);
    CandidateParts(s, x, e);
    var b := ScanStart(s, x);
    var n, end := TagSteps(s, b, Attributes), TagEnd(s, b, Attributes);
    var cost, next := CandidateBare(s, x), ItemEnd(ItemAt(s, x, e), x);
    if end.Some? && !(cost == n && next == end.value) {
      var name :| RawName(name) && cost == n + RawBare(s, end.value, name) && next == RawEnd(s, end.value, name);
      var r' := PaidAt(s, x, r, n, end.value);
      RawIsPaid(s, end.value, name, r');
      PaidTwice(s, x, r, n, end.value, r', RawBare(s, end.value, name), next);
    }
  }

  lemma {:induction false} TextIsPaid(s: string, pos: nat, r: nat, e: Entities)
    requires pos <= |s| && Covered(s, pos, r)
    ensures TextBare(s, pos, e) <= Budget(s, pos, r)
    decreases |s| - pos
  {
    if pos < |s| {
      hide ItemAt, CandidateBare, Candidate, Covered, Budget, Paid;
      var next := ItemEnd(ItemAt(s, pos, e), pos);
      if Candidate(s, pos) {
        CandidateIsPaid(s, pos, r, e);
        TextIsPaid(s, next, PaidAt(s, pos, r, CandidateBare(s, pos), next), e);
      } else {
        FreeStep(s, pos, r, next);
        TextIsPaid(s, next, r, e);
      }
    }
  }

  /** On every text the scans read at most its length once, and once more for each
      candidate in a quoted value of a malformed one. */
  lemma ScansAreBounded(s: string, e: Entities)
    ensures TextMeter(s, 0, e, Meter(|s|, 0)).steps <= |s| * (1 + HiddenCount(s, 0))
  {
    hide TextMeter, TextBare, HiddenWeight, HiddenCount;
    MemorySavesNothing(s, e);
    TextIsPaid(s, 0, 0, e);
    WeightOfCount(s, 0);
    assert |s| * (1 + HiddenCount(s, 0)) == |s| + |s| * HiddenCount(s, 0);
  }

  // ----- when the bound is the length

  lemma {:induction false} NoneHidden(s: string, p: nat)
    requires p <= |s| && forall y :: !Hidden(s, y)
    ensures HiddenCount(s, p) == 0
    decreases |s| - p
  {
    hide Hidden;
    if p < |s| { NoneHidden(s, p + 1); }
  }

  /** Unless a malformed tag has another candidate in a quoted value, all scans
      together read no more bytes than the text has. */
  lemma ScansAreLinear(s: string, e: Entities)
    requires forall y :: !Hidden(s, y)
    ensures TextMeter(s, 0, e, Meter(|s|, 0)).steps <= |s|
  {
    hide TextMeter, Hidden;
    ScansAreBounded(s, e);
    NoneHidden(s, 0);
  }

  ghost predicate NoQuotes(s: string, pos: nat) {
    Without(s, '\"', pos, |s|) && Without(s, '\'', pos, |s|)
  }

  lemma {:induction false} NothingSkipped(s: string, pos: nat, state: State, y: nat)
    requires NoQuotes(s, pos)
    ensures !Skips(s, pos, state, y)
    decreases |s| - pos
  {
    if pos < |s| && s[pos] != '>' && s[pos] != '<' { NothingSkipped(s, pos + 1, NextState(state, s[pos]), y); }
  }

  /** In particular on text without quotes. */
  lemma ScansAreLinearWithoutQuotes(s: string, e: Entities)
    requires NoQuotes(s, 0)
    ensures TextMeter(s, 0, e, Meter(|s|, 0)).steps <= |s|
  {
    hide TextMeter, Skips, ScanStart, TagEnd;
    forall y ensures !Hidden(s, y) {
      if Hidden(s, y) {
        var x :| HiddenBy(s, x, y);
        NothingSkipped(s, ScanStart(s, x), Attributes, y);
      }
    }
    ScansAreLinear(s, e);
  }

  // ----- the bound is sharp up to a constant

  /** The scan from copy j skips the opener inside copy k. */
  lemma {:induction false} CopyIsSkipped(n: nat, j: nat, k: nat)
    requires j <= k < n
    ensures Skips(Nested(n), 2 + 7 * j, Attributes, 2 + 7 * k + 3)
    decreases k - j
  {
    hide Nested;
    var s, b := Nested(n), 2 + 7 * j;
    CopyBytes(n, j);
    QuoteAfter(s, b + 3);
    if j < k { CopyIsSkipped(n, j + 1, k); }
    assert Skips(s, b + 2, BeforeValue, 2 + 7 * k + 3);
    assert Skips(s, b + 1, Attributes, 2 + 7 * k + 3);
  }

  /** The outer opener hides the opener inside copy k. */
  lemma CopyIsHidden(n: nat, k: nat)
    requires k < n
    ensures Hidden(Nested(n), 2 + 7 * k + 3)
  {
    hide TagEnd, Skips, ScanStart, Candidate, TagSteps, Copies;
    var s := Nested(n);
    CopyBytes(n, 0);
    CopyBytes(n, k);
    ScanCopies(n, 0);
    CopyIsSkipped(n, 0, k);
    LoneOpenerScan(s, 0);
    LoneOpenerScan(s, 2 + 7 * k + 3);
    assert HiddenBy(s, 0, 2 + 7 * k + 3);
  }

  lemma NotHidden(s: string, p: nat)
    requires p < |s| && s[p] != '<'
    ensures HiddenCount(s, p) == HiddenCount(s, p + 1)
  {
  }

  lemma {:induction false} HiddenInCopies(n: nat, k: nat)
    requires k <= n
    ensures HiddenCount(Nested(n), 2 + 7 * k) == n - k
    decreases n - k
  {
    if k < n {
      var s, b := Nested(n), 2 + 7 * k;
      HiddenInCopies(n, k + 1);
      CopyBytes(n, k);
      CopyIsHidden(n, k);
      assert HiddenCount(s, b + 3) == 1 + HiddenCount(s, b + 4);
      hide Nested, Hidden, HiddenCount;
      NotHidden(s, b);
      NotHidden(s, b + 1);
      NotHidden(s, b + 2);
      NotHidden(s, b + 4);
      NotHidden(s, b + 5);
      NotHidden(s, b + 6);
    }
  }

  lemma {:induction false} SkipsAhead(s: string, pos: nat, state: State, y: nat)
    requires Skips(s, pos, state, y)
    ensures pos < y
    decreases |s| - pos
  {
    hide Find;
    if state.BeforeValue? && Quote(s[pos]) {
      var q := Find(s, s[pos], pos + 1);
      if y <= pos { SkipsAhead(s, q.value + 1, Attributes, y); }
    } else {
      SkipsAhead(s, pos + 1, NextState(state, s[pos]), y);
    }
  }

  lemma FirstIsNotHidden(s: string)
    ensures !Hidden(s, 0)
  {
    hide Skips, TagEnd, ScanStart, Candidate;
    if Hidden(s, 0) {
      var x :| HiddenBy(s, x, 0);
      SkipsAhead(s, ScanStart(s, x), Attributes, 0);
    }
  }

  /** The nested text has n hidden candidates, and 3/14 of its length is read for
      each of them. */
  lemma BoundIsSharp(n: nat, e: Entities)
    ensures
      var s := Nested(n);
      HiddenCount(s, 0) == n && 14 * TextMeter(s, 0, e, Meter(|s|, 0)).steps >= 3 * (|s| * HiddenCount(s, 0))
  {
    var s := Nested(n);
    assert s[0] == '<' && s[1] == 'a';
    FirstIsNotHidden(s);
    HiddenInCopies(n, 0);
    NotHidden(s, 1);
    ScansAreQuadratic(n, e);
    hide Nested, TextMeter;
    SharpArithmetic(n);
  }

  lemma SharpArithmetic(n: nat)
    ensures 7 * (n * (3 * n + 7)) >= 3 * ((7 * n + 2) * n)
  {
    assert 7 * (n * (3 * n + 7)) == 21 * (n * n) + 49 * n;
    assert 3 * ((7 * n + 2) * n) == 21 * (n * n) + 6 * n;
  }
}
