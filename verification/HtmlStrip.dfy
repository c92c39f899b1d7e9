/** The HTML-stripping char filter: a forward scanner that remembers where a
    search for a quote or a tag end has already failed. */
module HtmlStrip {
  import opened Ascii
  import opened CharFilter
  import opened CharStages
  import opened Options

  predicate Alpha(c: char) { 'A' <= c <= 'Z' || 'a' <= c <= 'z' }
  predicate Digit(c: char) { '0' <= c <= '9' }
  predicate Space(c: char) { c == ' ' || c == '\t' || c == '\n' || c == '\r' || c == '\U{C}' }
  predicate Quote(c: char) { c == '\'' || c == '\"' }
  predicate NameByte(c: char) { Alpha(c) || Digit(c) || c == '-' || c == '_' || c == ':' }

  predicate EqualName(a: string, b: string) {
    |a| == |b| && forall i | 0 <= i < |a| :: Lower(a[i]) == b[i]
  }

  const INLINE: seq<string> := [
    "a", "abbr", "acronym", "b", "basefont", "bdo", "big", "cite", "code", "dfn", "em", "font",
    "i", "img", "input", "kbd", "label", "q", "s", "samp", "select", "small", "span", "strike",
    "strong", "sub", "sup", "textarea", "tt", "u", "var"]

  predicate Inline(name: string) {
    exists i | 0 <= i < |INLINE| :: EqualName(name, INLINE[i])
  }

  // ----- scans without memory

  predicate StartsAt(s: string, pos: nat, word: string) {
    pos + |word| <= |s| && forall k | 0 <= k < |word| :: s[pos + k] == word[k]
  }

  /** First occurrence of c at or after pos. */
  function Find(s: string, c: char, pos: nat): (r: Option<nat>)
    ensures r.Some? ==> pos <= r.value < |s| && s[r.value] == c
    decreases |s| - pos
  {
    if pos >= |s| then None else if s[pos] == c then Some(pos) else Find(s, c, pos + 1)
  }

  /** First occurrence of a word at or after pos. */
  function FindWord(s: string, word: string, pos: nat): (r: Option<nat>)
    ensures r.Some? ==> pos <= r.value && StartsAt(s, r.value, word)
    decreases |s| - pos
  {
    if StartsAt(s, pos, word) then Some(pos)
    else if pos >= |s| then None
    else FindWord(s, word, pos + 1)
  }

  datatype State = Attributes | BeforeValue | Unquoted

  /** Outside quotes, the state after one byte. */
  function NextState(state: State, c: char): (r: State) {
    match state
    case BeforeValue => if Space(c) then state else Unquoted
    case Unquoted => if Space(c) then Attributes else state
    case Attributes => if c == '=' then BeforeValue else state
  }

  /** End of the tag whose attributes start at pos; None when a raw '<', an open
      quoted value or the end of the text comes first. */
  function TagEnd(s: string, pos: nat, state: State): (r: Option<nat>)
    ensures r.Some? ==> pos < r.value <= |s|
    decreases |s| - pos
  {
    if pos >= |s| then None
    else
      var c := s[pos];
      if c == '>' then Some(pos + 1)
      else if c == '<' then None
      else if state.BeforeValue? && Quote(c) then
        var q := Find(s, c, pos + 1);
        if q.None? then None else TagEnd(s, q.value + 1, Attributes)
      else TagEnd(s, pos + 1, NextState(state, c))
  }

  /** End of a declaration: the first '>' outside quotes, else the whole text. */
  function DeclarationEnd(s: string, pos: nat): (r: nat)
    requires pos <= |s|
    ensures pos <= r <= |s|
    decreases |s| - pos
  {
    if pos >= |s| then |s|
    else if s[pos] == '>' then pos + 1
    else if Quote(s[pos]) then
      var q := Find(s, s[pos], pos + 1);
      if q.None? then |s| else DeclarationEnd(s, q.value + 1)
    else DeclarationEnd(s, pos + 1)
  }

  /** End of the first "-->" or "--!>" at or after pos, else the whole text. */
  function CommentEnd(s: string, pos: nat): (r: nat)
    requires pos <= |s|
    ensures pos <= r <= |s|
    decreases |s| - pos
  {
    if StartsAt(s, pos, "-->") then pos + 3
    else if StartsAt(s, pos, "--!>") then pos + 4
    else if pos >= |s| then |s|
    else CommentEnd(s, pos + 1)
  }

  /** "</name" followed by a space, '/' or '>'. */
  predicate RawClose(s: string, pos: nat, name: string) {
    var end := pos + 2 + |name|;
    && end < |s| && s[pos] == '<' && s[pos + 1] == '/'
    && EqualName(s[pos + 2..end], name)
    && (Space(s[end]) || s[end] == '/' || s[end] == '>')
  }

  /** End of the first complete closing tag for a script or style, else the whole
      text. */
  function RawEnd(s: string, pos: nat, name: string): (r: nat)
    requires pos <= |s|
    ensures pos <= r <= |s|
    decreases |s| - pos
  {
    if pos >= |s| then |s|
    else
      var end := if RawClose(s, pos, name) then TagEnd(s, pos + 2 + |name|, Attributes) else None;
      if end.Some? then end.value else RawEnd(s, pos + 1, name)
  }

  ghost predicate Without(s: string, c: char, from: nat, to: nat) {
    forall i | from <= i < to && i < |s| :: s[i] != c
  }

  /** A failed search means the rest of the text has no such byte. */
  lemma {:induction false} FindNone(s: string, c: char, pos: nat)
    ensures Find(s, c, pos).None? <==> Without(s, c, pos, |s|)
    decreases |s| - pos
  {
    if pos < |s| && s[pos] != c { FindNone(s, c, pos + 1); }
  }

  /** Without a '>' ahead no tag ends, whatever the scanner's state. */
  lemma {:induction false} NoTagEnd(s: string, pos: nat, state: State)
    requires Without(s, '>', pos, |s|)
    ensures TagEnd(s, pos, state).None?
    decreases |s| - pos
  {
    if pos < |s| && s[pos] != '<' {
      var c := s[pos];
      if state.BeforeValue? && Quote(c) {
        var q := Find(s, c, pos + 1);
        if q.Some? { NoTagEnd(s, q.value + 1, Attributes); }
      } else {
        NoTagEnd(s, pos + 1, NextState(state, c));
      }
    }
  }

  lemma DashesFirst(s: string, pos: nat, word: string)
    requires |word| >= 2 && word[0] == '-' && word[1] == '-' && StartsAt(s, pos, word)
    ensures StartsAt(s, pos, "--")
  {
  }

  lemma {:induction false} SkipToComment(s: string, pos: nat, next: nat)
    requires pos <= next <= |s| && forall i | pos <= i < next :: !StartsAt(s, i, "--")
    ensures CommentEnd(s, pos) == CommentEnd(s, next)
    decreases next - pos
  {
    if pos < next {
      if StartsAt(s, pos, "-->") { DashesFirst(s, pos, "-->"); }
      if StartsAt(s, pos, "--!>") { DashesFirst(s, pos, "--!>"); }
      SkipToComment(s, pos + 1, next);
    }
  }

  lemma {:induction false} FindWordSkips(s: string, word: string, pos: nat)
    ensures
      var r := FindWord(s, word, pos);
      forall i | pos <= i < (if r.Some? then r.value else |s|) :: !StartsAt(s, i, word)
    decreases |s| - pos
  {
    if !StartsAt(s, pos, word) && pos < |s| { FindWordSkips(s, word, pos + 1); }
  }

  lemma {:induction false} SkipToOpener(s: string, pos: nat, next: nat, name: string)
    requires pos <= next <= |s| && Without(s, '<', pos, next)
    ensures RawEnd(s, pos, name) == RawEnd(s, next, name)
    decreases next - pos
  {
    if pos < next { SkipToOpener(s, pos + 1, next, name); }
  }

  lemma {:induction false} FindSkips(s: string, c: char, pos: nat)
    ensures
      var r := Find(s, c, pos);
      Without(s, c, pos, if r.Some? then r.value else |s|)
    decreases |s| - pos
  {
    if pos < |s| && s[pos] != c { FindSkips(s, c, pos + 1); }
  }

  // ----- character references

  datatype Entity = Entity(name: string, value: string)

  /** The named references in name order, and the longest name length tried. */
  datatype Entities = Entities(table: seq<Entity>, maxName: nat)

  datatype Reference = Reference(end: nat, text: string)

  /** Byte order of strings. */
  predicate Less(a: string, b: string) {
    b != "" && (a == "" || a[0] < b[0] || (a[0] == b[0] && Less(a[1..], b[1..])))
  }

  ghost predicate SortedNames(table: seq<Entity>) {
    forall i, j | 0 <= i < j < |table| :: Less(table[i].name, table[j].name)
  }

  /** The value of a name, by linear scan. */
  function Named(table: seq<Entity>, name: string): (r: Option<string>) {
    if table == [] then None
    else if table[0].name == name then Some(table[0].value)
    else Named(table[1..], name)
  }

  lemma {:induction false} LessIrreflexive(a: string)
    ensures !Less(a, a)
  {
    if a != "" { LessIrreflexive(a[1..]); }
  }

  lemma {:induction false} LessTransitive(a: string, b: string, c: string)
    requires Less(a, b) && Less(b, c)
    ensures Less(a, c)
  {
    if a != "" && a[0] == b[0] == c[0] { LessTransitive(a[1..], b[1..], c[1..]); }
  }

  lemma {:induction false} NamedAt(table: seq<Entity>, name: string, i: nat)
    requires i <= |table| && forall k | 0 <= k < i :: table[k].name != name
    ensures Named(table, name) == Named(table[i..], name)
    ensures i < |table| && table[i].name == name ==> Named(table, name) == Some(table[i].value)
    ensures i == |table| ==> Named(table, name) == None
  {
    if i > 0 {
      NamedAt(table[1..], name, i - 1);
      assert table[1..][i - 1..] == table[i..];
    } else {
      assert table[0..] == table;
    }
  }

  /** Binary search of the sorted table. */
  method FindEntity(table: seq<Entity>, name: string) returns (r: Option<string>)
    requires SortedNames(table)
    ensures r == Named(table, name)
  {
    hide Less;
    var lo, hi := 0, |table|;
    while lo < hi
      invariant 0 <= lo <= hi <= |table|
      invariant forall i | 0 <= i < lo :: Less(table[i].name, name)
      invariant forall i | hi <= i < |table| :: !Less(table[i].name, name)
    {
      var mid := lo + (hi - lo) / 2;
      if Less(table[mid].name, name) {
        forall i | 0 <= i < mid ensures Less(table[i].name, name) {
          LessTransitive(table[i].name, table[mid].name, name);
        }
        lo := mid + 1;
      } else {
        forall i | mid < i < |table| ensures !Less(table[i].name, name) {
          if Less(table[i].name, name) { LessTransitive(table[mid].name, table[i].name, name); }
        }
        hi := mid;
      }
    }
    LessIrreflexive(name);
    NamedAt(table, name, lo);
    if lo < |table| && table[lo].name == name { return Some(table[lo].value); }
    NamedAt(table, name, |table|);
    return None;
  }

  function DigitValue(c: char): (n: nat) {
    var d := Lower(c);
    if Digit(d) then d as int - '0' as int else if 'a' <= d <= 'f' then d as int - 'a' as int + 10 else 16
  }

  /** End of the run of digits of a base. */
  function NumberEnd(s: string, pos: nat, base: nat): (r: nat)
    requires pos <= |s|
    ensures pos <= r <= |s|
    decreases |s| - pos
  {
    if pos >= |s| || DigitValue(s[pos]) >= base then pos else NumberEnd(s, pos + 1, base)
  }

  /** The number written by digits s[first..end]. */
  function Value(s: string, first: nat, end: nat, base: nat): (v: nat)
    requires first <= end <= |s|
    decreases end
  {
    if first == end then 0 else Value(s, first, end - 1, base) * base + DigitValue(s[end - 1])
  }

  /** What HTML reads the C1 control numbers as. */
  const C1: seq<nat> := [
    0x20AC, 0x81, 0x201A, 0x192, 0x201E, 0x2026, 0x2020, 0x2021,
    0x2C6, 0x2030, 0x160, 0x2039, 0x152, 0x8D, 0x17D, 0x8F,
    0x90, 0x2018, 0x2019, 0x201C, 0x201D, 0x2022, 0x2013, 0x2014,
    0x2DC, 0x2122, 0x161, 0x203A, 0x153, 0x9D, 0x17E, 0x178]

  /** The scalar value a number stands for. */
  function Scalar(v: nat): (r: nat) {
    var cp := if v == 0 || v > 0x10FFFF || 0xD800 <= v <= 0xDFFF then 0xFFFD else v;
    if 0x80 <= cp <= 0x9F then C1[cp - 0x80] else cp
  }

  /** UTF-8 bytes of a scalar value, section 3 of RFC 3629. */
  function Encode(cp: nat): (s: string) {
    if cp < 0x80 then [cp as char]
    else if cp < 0x800 then [(0xC0 + cp / 64) as char, (0x80 + cp % 64) as char]
    else if cp < 0x1_0000 then
      [(0xE0 + cp / 4096) as char, (0x80 + cp / 64 % 64) as char, (0x80 + cp % 64) as char]
    else if cp < 0x11_0000 then
      [(0xF0 + cp / 0x4_0000) as char, (0x80 + cp / 4096 % 64) as char, (0x80 + cp / 64 % 64) as char,
       (0x80 + cp % 64) as char]
    else ""
  }

  function Closed(s: string, pos: nat): (r: nat)
    requires pos <= |s|
    ensures pos <= r <= |s|
  {
    if pos < |s| && s[pos] == ';' then pos + 1 else pos
  }

  /** "&#" digits, or "&#x" hexadecimal digits, with or without ';'. */
  function NumericReference(s: string, start: nat): (r: Option<Reference>)
    requires start + 1 < |s|
    ensures r.Some? ==> start < r.value.end <= |s|
  {
    var p := start + 2;
    var hex := p < |s| && (s[p] == 'x' || s[p] == 'X');
    var base, first := if hex then 16 else 10, if hex then p + 1 else p;
    var end := NumberEnd(s, first, base);
    if end == first then None
    else Some(Reference(Closed(s, end), Encode(Scalar(Value(s, first, end, base)))))
  }

  /** End of the run of at most `left` letters and digits. */
  function NameRun(s: string, pos: nat, left: nat): (r: nat)
    requires pos <= |s|
    ensures pos <= r <= |s|
    decreases left
  {
    if pos < |s| && left > 0 && (Alpha(s[pos]) || Digit(s[pos])) then NameRun(s, pos + 1, left - 1) else pos
  }

  /** End of the longest name in the table that starts at `first` and ends by pos. */
  function LongestName(s: string, first: nat, pos: nat, table: seq<Entity>): (r: Option<Reference>)
    requires first <= pos <= |s|
    ensures r.Some? ==> first < r.value.end <= pos && Named(table, s[first..r.value.end]) == Some(r.value.text)
    decreases pos
  {
    if pos == first then None
    else if Named(table, s[first..pos]).Some? then Some(Reference(pos, Named(table, s[first..pos]).value))
    else LongestName(s, first, pos - 1, table)
  }

  /** No longer name of the table fits. */
  lemma {:induction false} LongestNameSpec(s: string, first: nat, pos: nat, table: seq<Entity>)
    requires first <= pos <= |s|
    ensures
      var r := LongestName(s, first, pos, table);
      forall k | (if r.Some? then r.value.end else first) < k <= pos :: Named(table, s[first..k]) == None
  {
    hide Named;
    if pos > first && Named(table, s[first..pos]) == None { LongestNameSpec(s, first, pos - 1, table); }
  }

  function ReferenceAt(s: string, start: nat, e: Entities): (r: Option<Reference>)
    requires start < |s|
    ensures r.Some? ==> start < r.value.end <= |s|
  {
    if start + 1 == |s| then None
    else if s[start + 1] == '#' then NumericReference(s, start)
    else LongestName(s, start + 1, Closed(s, NameRun(s, start + 1, e.maxName)), e.table)
  }

  /** The 32-bit accumulator equals the number until that leaves Unicode, and then
      stays above it. */
  predicate Saturated(cp: nat, v: nat) {
    cp <= 0x11_0010 && if v <= 0x10FFFF then cp == v else cp > 0x10FFFF
  }

  lemma SaturatedStep(cp: nat, v: nat, base: nat, n: nat)
    requires Saturated(cp, v) && (base == 10 || base == 16) && n < base
    ensures Saturated(if cp > 0x10FFFF / base then 0x11_0000 else cp * base + n, v * base + n)
  {
    if base == 10 {
      assert v * base == 10 * v && cp * base == 10 * cp;
    } else {
      assert v * base == 16 * v && cp * base == 16 * cp;
    }
  }

  lemma SaturatedZero()
    ensures Saturated(0, 0)
  {
  }

  /** Saturating early decides the same scalar value. */
  lemma SaturatedScalar(cp: nat, v: nat)
    requires Saturated(cp, v)
    ensures Scalar(cp) == Scalar(v)
  {
  }

  // ----- what the filter leaves of a text

  /** What stands at a position: a byte to keep, a stretch to replace, or a CDATA
      section whose content is kept. */
  datatype Item = Keep | Cut(end: nat, text: string) | CData(close: nat, end: nat)

  const CDATA_OPEN := "<![CDATA["
  const CDATA_CLOSE := "]]>"

  function NameEnd(s: string, pos: nat): (r: nat)
    requires pos <= |s|
    ensures pos <= r <= |s|
    decreases |s| - pos
  {
    if pos < |s| && NameByte(s[pos]) then NameEnd(s, pos + 1) else pos
  }

  /** Past the bracket and a slash. */
  function NameStart(s: string, pos: nat): (r: nat) {
    if pos + 1 < |s| && s[pos + 1] == '/' then pos + 2 else pos + 1
  }

  /** A tag, with the script or style text it opens. */
  function TagAt(s: string, pos: nat): (r: Item)
    requires pos < |s|
    ensures r.Keep? || (r.Cut? && pos < r.end <= |s|)
  {
    var nameStart := NameStart(s, pos);
    var closing := nameStart == pos + 2;
    if !(nameStart < |s| && Alpha(s[nameStart])) then Keep
    else
      var nameEnd := NameEnd(s, nameStart + 1);
      var name := s[nameStart..nameEnd];
      var end := TagEnd(s, nameEnd, Attributes);
      if end.None? then Keep
      else
        var rawEnd :=
          if !closing && EqualName(name, "script") then RawEnd(s, end.value, "script")
          else if !closing && EqualName(name, "style") then RawEnd(s, end.value, "style")
          else end.value;
        Cut(rawEnd, if Inline(name) then "" else "\n")
  }

  function ItemAt(s: string, pos: nat, e: Entities): (r: Item)
    requires pos < |s|
    ensures r.Cut? ==> pos < r.end <= |s|
    ensures r.CData? ==> pos + 9 <= r.close <= r.end <= |s| && (r.end == r.close + 3 || r.end == r.close)
  {
    if s[pos] == '&' then
      var r := ReferenceAt(s, pos, e);
      if r.None? then Keep else Cut(r.value.end, r.value.text)
    else if s[pos] != '<' then Keep
    else if StartsAt(s, pos, CDATA_OPEN) then
      var close := FindWord(s, CDATA_CLOSE, pos + 9);
      if close.None? then CData(|s|, |s|) else CData(close.value, close.value + 3)
    else if StartsAt(s, pos, "<!--") then Cut(CommentEnd(s, pos + 4), "")
    else if pos + 1 < |s| && (s[pos + 1] == '!' || s[pos + 1] == '?') then Cut(DeclarationEnd(s, pos + 2), "")
    else TagAt(s, pos)
  }

  /** The text left of s[pos..]. */
  function Stripped(s: string, pos: nat, e: Entities): (r: string)
    requires pos <= |s|
    decreases |s| - pos
  {
    if pos == |s| then ""
    else
      match ItemAt(s, pos, e)
      case Keep => [s[pos]] + Stripped(s, pos + 1, e)
      case Cut(end, text) => text + Stripped(s, end, e)
      case CData(close, end) => s[pos + 9..close] + Stripped(s, end, e)
  }

  /** Text without markup or references passes through. */
  lemma {:induction false} PlainTextKept(s: string, pos: nat, e: Entities)
    requires pos <= |s| && Without(s, '<', pos, |s|) && Without(s, '&', pos, |s|)
    ensures Stripped(s, pos, e) == s[pos..]
    decreases |s| - pos
  {
    if pos < |s| { PlainTextKept(s, pos + 1, e); }
  }

  // ----- what the tag scans cost

  /** The remembered position past which no tag ends, and the bytes all tag scans
      have read outside quoted values. */
  datatype Meter = Meter(noTag: nat, steps: nat)

  /** Bytes one tag scan reads. */
  function TagSteps(s: string, pos: nat, state: State): (n: nat)
    ensures pos + n <= |s| || n == 0
    decreases |s| - pos
  {
    if pos >= |s| then 0
    else
      var c := s[pos];
      if c == '>' || c == '<' then 1
      else if state.BeforeValue? && Quote(c) then
        var q := Find(s, c, pos + 1);
        1 + if q.None? then 0 else TagSteps(s, q.value + 1, Attributes)
      else 1 + TagSteps(s, pos + 1, NextState(state, c))
  }

  /** For a scan that runs off the end of the text, the end of its last quoted
      value, or `tail` if it has none. */
  function TagTail(s: string, pos: nat, state: State, tail: nat): (r: Option<nat>)
    decreases |s| - pos
  {
    if pos >= |s| then Some(tail)
    else
      var c := s[pos];
      if c == '>' || c == '<' then None
      else if state.BeforeValue? && Quote(c) then
        var q := Find(s, c, pos + 1);
        if q.None? then None else TagTail(s, q.value + 1, Attributes, q.value + 1)
      else TagTail(s, pos + 1, NextState(state, c), tail)
  }

  /** One tag scan from `start`. */
  function TagMeter(s: string, start: nat, m: Meter): (r: Meter)
    ensures r.noTag <= m.noTag && r.steps >= m.steps
  {
    if start >= m.noTag then m
    else
      var tail := TagTail(s, start, Attributes, start);
      Meter(if tail.Some? && tail.value < m.noTag then tail.value else m.noTag,
            m.steps + TagSteps(s, start, Attributes))
  }

  /** The scans of the closing tags tried for a script or style. */
  function RawMeter(s: string, pos: nat, name: string, m: Meter): (r: Meter)
    requires pos <= |s|
    decreases |s| - pos
  {
    if pos >= |s| then m
    else if !RawClose(s, pos, name) then RawMeter(s, pos + 1, name, m)
    else
      var end := pos + 2 + |name|;
      if TagEnd(s, end, Attributes).Some? then TagMeter(s, end, m)
      else RawMeter(s, pos + 1, name, TagMeter(s, end, m))
  }

  /** The scans of a tag candidate at pos. */
  function CandidateMeter(s: string, pos: nat, m: Meter): (r: Meter)
    requires pos < |s|
  {
    var nameStart := NameStart(s, pos);
    if !(nameStart < |s| && Alpha(s[nameStart])) then m
    else
      var nameEnd := NameEnd(s, nameStart + 1);
      var name, end := s[nameStart..nameEnd], TagEnd(s, nameEnd, Attributes);
      var m' := TagMeter(s, nameEnd, m);
      if end.None? || nameStart == pos + 2 then m'
      else if EqualName(name, "script") then RawMeter(s, end.value, "script", m')
      else if EqualName(name, "style") then RawMeter(s, end.value, "style", m')
      else m'
  }

  /** Markup at pos that is neither a tag nor text. */
  predicate OtherMarkup(s: string, pos: nat)
    requires pos < |s|
  {
    || StartsAt(s, pos, CDATA_OPEN) || StartsAt(s, pos, "<!--")
    || (pos + 1 < |s| && (s[pos + 1] == '!' || s[pos + 1] == '?'))
  }

  function ItemMeter(s: string, pos: nat, m: Meter): (r: Meter)
    requires pos < |s|
  {
    if s[pos] == '<' && !OtherMarkup(s, pos) then CandidateMeter(s, pos, m) else m
  }

  function ItemEnd(item: Item, pos: nat): (r: nat) {
    if item.Keep? then pos + 1 else item.end
  }

  /** All tag scans on s[pos..]. */
  function TextMeter(s: string, pos: nat, e: Entities, m: Meter): (r: Meter)
    requires pos <= |s|
    decreases |s| - pos
  {
    if pos == |s| then m else TextMeter(s, ItemEnd(ItemAt(s, pos, e), pos), e, ItemMeter(s, pos, m))
  }

  lemma {:induction false} SkipMeter(s: string, pos: nat, next: nat, name: string, m: Meter)
    requires pos <= next <= |s| && Without(s, '<', pos, next)
    ensures RawMeter(s, pos, name, m) == RawMeter(s, next, name, m)
    decreases next - pos
  {
    hide TagEnd, TagMeter;
    if pos < next { SkipMeter(s, pos + 1, next, name, m); }
  }

  // ----- the filter

  lemma KeepByte(s: string, subs: seq<Sub>, pos: nat, e: Entities)
    requires Ordered(s, subs) && EndOf(subs) <= pos < |s| && ItemAt(s, pos, e).Keep?
    ensures Prefix(s, subs, pos) + Stripped(s, pos, e) == Prefix(s, subs, pos + 1) + Stripped(s, pos + 1, e)
  {
    hide ItemAt, Prefix, Ordered;
    PrefixGrows(s, subs, pos, pos + 1);
    assert s[pos..pos + 1] == [s[pos]];
    assert Stripped(s, pos, e) == s[pos..pos + 1] + Stripped(s, pos + 1, e);
  }

  lemma CutItem(s: string, subs: seq<Sub>, more: seq<Sub>, pos: nat, e: Entities)
    requires Ordered(s, subs) && EndOf(subs) <= pos < |s| && ItemAt(s, pos, e).Cut?
    requires
      var end := ItemAt(s, pos, e).end;
      Ordered(s, more) && EndOf(more) <= end && Prefix(s, more, end) == Prefix(s, subs, pos) + ItemAt(s, pos, e).text
    ensures
      var end := ItemAt(s, pos, e).end;
      Prefix(s, subs, pos) + Stripped(s, pos, e) == Prefix(s, more, end) + Stripped(s, end, e)
  {
    hide ItemAt, Prefix, Ordered;
  }

  lemma CDataItem(s: string, subs: seq<Sub>, more: seq<Sub>, pos: nat, e: Entities)
    requires Ordered(s, subs) && EndOf(subs) <= pos < |s| && ItemAt(s, pos, e).CData?
    requires
      var end, close := ItemAt(s, pos, e).end, ItemAt(s, pos, e).close;
      Ordered(s, more) && EndOf(more) <= end && Prefix(s, more, end) == Prefix(s, subs, pos) + s[pos + 9..close]
    ensures
      var end := ItemAt(s, pos, e).end;
      Prefix(s, subs, pos) + Stripped(s, pos, e) == Prefix(s, more, end) + Stripped(s, end, e)
  {
    hide ItemAt, Prefix, Ordered;
  }

  lemma AllRead(s: string, subs: seq<Sub>, e: Entities)
    requires Ordered(s, subs)
    ensures EndOf(subs) <= |s| && Prefix(s, subs, |s|) + Stripped(s, |s|, e) == Spliced(s, subs)
  {
    EndInside(s, subs);
    assert s[EndOf(subs)..|s|] == s[EndOf(subs)..];
  }

  lemma NothingRead(s: string)
    ensures Ordered(s, []) && Prefix(s, [], 0) == "" && forall c :: Without(s, c, |s|, |s|)
  {
  }

  class HtmlStripFilter {
    const base: Filter
    const entities: Entities
    var noTagAfter: nat
    var noQuoteAfter: seq<nat>   // single, then double quotes
    ghost var steps: nat         // bytes tag scans have read

    ghost function Metered(): (m: Meter)
      reads this`noTagAfter, this`steps
    {
      Meter(noTagAfter, steps)
    }

    constructor (base: Filter, entities: Entities)
      ensures this.base == base && this.entities == entities
    {
      this.base, this.entities := base, entities;
      noTagAfter, noQuoteAfter, steps := 0, [0, 0], 0;
    }

    /** What the failed searches found out: no tag end and no quote past the
        remembered positions. */
    ghost predicate CachesOk()
      reads this, base
    {
      && Without(base.input, '>', noTagAfter, |base.input|)
      && |noQuoteAfter| == 2
      && Without(base.input, '\'', noQuoteAfter[0], |base.input|)
      && Without(base.input, '\"', noQuoteAfter[1], |base.input|)
    }

    /** Just past the closing quote, as a fresh search would find it. */
    method FindQuoteEnd(pos: nat, quote: char) returns (r: Option<nat>)
      requires CachesOk() && Quote(quote)
      modifies this`noQuoteAfter
      ensures CachesOk()
      ensures
        var q := Find(base.input, quote, pos);
        r == if q.None? then None else Some(q.value + 1)
    {
      var k := if quote == '\"' then 1 else 0;
      FindNone(base.input, quote, pos);
      if pos >= noQuoteAfter[k] { return None; }
      var q := Find(base.input, quote, pos);
      if q.None? {
        noQuoteAfter := noQuoteAfter[k := pos];
        return None;
      }
      return Some(q.value + 1);
    }

    /** The end of a tag, as a scan without memory would find it. */
    method FindTagEnd(start: nat) returns (r: Option<nat>)
      requires CachesOk()
      modifies this`noQuoteAfter, this`noTagAfter, this`steps
      ensures CachesOk() && r == TagEnd(base.input, start, Attributes)
      ensures Metered() == TagMeter(base.input, start, old(Metered()))
    {
      hide Find;
      if start >= noTagAfter {
        NoTagEnd(base.input, start, Attributes);
        return None;
      }
      var input := base.input;
      var state, pos: nat, tail: nat := Attributes, start, start;
      while pos < |input|
        invariant CachesOk() && base.input == input
        invariant TagEnd(input, start, Attributes) == TagEnd(input, pos, state)
        invariant tail <= pos && Without(input, '>', tail, pos) && noTagAfter == old(noTagAfter)
        invariant old(steps) + TagSteps(input, start, Attributes) == steps + TagSteps(input, pos, state)
        invariant TagTail(input, start, Attributes, start) == TagTail(input, pos, state, tail)
        decreases |input| - pos
      {
        var c := input[pos];
        pos := pos + 1;
        steps := steps + 1;
        if c == '>' { return Some(pos); }
        if c == '<' { return None; }
        if state == BeforeValue {
          if Space(c) { continue; }
          if Quote(c) {
            var q := FindQuoteEnd(pos, c);
            if q == None { return None; }
            pos := q.value;
            tail := pos;
            state := Attributes;
          } else {
            state := Unquoted;
          }
        } else if state == Unquoted {
          if Space(c) { state := Attributes; }
        } else if c == '=' {
          state := BeforeValue;
        }
      }
      if tail < noTagAfter { noTagAfter := tail; }
      return None;
    }

    method FindDeclarationEnd(start: nat) returns (r: nat)
      requires CachesOk() && start <= |base.input|
      modifies this`noQuoteAfter
      ensures CachesOk() && r == DeclarationEnd(base.input, start)
    {
      hide Find;
      var input, pos: nat := base.input, start;
      while pos < |input|
        invariant CachesOk() && pos <= |input| && DeclarationEnd(input, start) == DeclarationEnd(input, pos)
        decreases |input| - pos
      {
        var c := input[pos];
        pos := pos + 1;
        if c == '>' { return pos; }
        if Quote(c) {
          var q := FindQuoteEnd(pos, c);
          if q == None { return |input|; }
          pos := q.value;
        }
      }
      return pos;
    }

    method FindCommentEnd(start: nat) returns (r: nat)
      requires start <= |base.input|
      ensures r == CommentEnd(base.input, start)
    {
      var input, pos := base.input, start;
      while true
        invariant pos <= |input| && CommentEnd(input, start) == CommentEnd(input, pos)
        decreases |input| - pos
      {
        var dashes := FindWord(input, "--", pos);
        FindWordSkips(input, "--", pos);
        SkipToComment(input, pos, if dashes.Some? then dashes.value else |input|);
        if dashes == None { return |input|; }
        pos := dashes.value;
        if StartsAt(input, pos, "-->") { return pos + 3; }
        if StartsAt(input, pos, "--!>") { return pos + 4; }
        pos := pos + 1;
      }
    }

    method FindRawEnd(start: nat, name: string) returns (r: nat)
      requires CachesOk() && start <= |base.input|
      modifies this`noQuoteAfter, this`noTagAfter, this`steps
      ensures CachesOk() && r == RawEnd(base.input, start, name)
      ensures Metered() == RawMeter(base.input, start, name, old(Metered()))
    {
      hide TagEnd, Find, TagMeter;
      var input, pos := base.input, start;
      while true
        invariant CachesOk() && pos <= |input| && RawEnd(input, start, name) == RawEnd(input, pos, name)
        invariant RawMeter(input, start, name, old(Metered())) == RawMeter(input, pos, name, Metered())
        decreases |input| - pos
      {
        var opener := Find(input, '<', pos);
        FindSkips(input, '<', pos);
        SkipToOpener(input, pos, if opener.Some? then opener.value else |input|, name);
        SkipMeter(input, pos, if opener.Some? then opener.value else |input|, name, Metered());
        if opener == None { return |input|; }
        pos := opener.value;
        if RawClose(input, pos, name) {
          var end := FindTagEnd(pos + 2 + |name|);
          if end.Some? { return end.value; }
        }
        pos := pos + 1;
      }
    }

    /** A reference and the text it stands for. */
    method ReadReference(start: nat) returns (r: Option<Reference>)
      requires start < |base.input| && SortedNames(entities.table)
      ensures r == ReferenceAt(base.input, start, entities)
    {
      hide Encode, Scalar, DigitValue, Named, SortedNames;
      var input := base.input;
      if start + 1 == |input| { return None; }
      if input[start + 1] == '#' {
        r := ReadNumber(start);
        return;
      }
      var first, pos: nat := start + 1, start + 1;
      while pos < |input| && pos - first < entities.maxName && (Alpha(input[pos]) || Digit(input[pos]))
        invariant first <= pos <= |input| && pos - first <= entities.maxName
        invariant NameRun(input, first, entities.maxName) == NameRun(input, pos, entities.maxName - (pos - first))
      {
        pos := pos + 1;
      }
      if pos < |input| && input[pos] == ';' { pos := pos + 1; }
      while pos > first
        invariant first <= pos <= |input|
        invariant ReferenceAt(input, start, entities) == LongestName(input, first, pos, entities.table)
      {
        var value := FindEntity(entities.table, input[first..pos]);
        if value.Some? { return Some(Reference(pos, value.value)); }
        pos := pos - 1;
      }
      return None;
    }

    method ReadNumber(start: nat) returns (r: Option<Reference>)
      requires start + 1 < |base.input|
      ensures r == NumericReference(base.input, start)
    {
      hide Encode, DigitValue, Scalar, Saturated;
      var input, pos: nat, radix: nat := base.input, start + 2, 10;
      if pos < |input| && (input[pos] == 'x' || input[pos] == 'X') { radix, pos := 16, pos + 1; }
      var firstDigit, cp: nat := pos, 0;
      assert Saturated(0, 0) by { SaturatedZero(); }
      while pos < |input|
        invariant firstDigit <= pos <= |input|
        invariant NumberEnd(input, firstDigit, radix) == NumberEnd(input, pos, radix)
        invariant Saturated(cp, Value(input, firstDigit, pos, radix))
      {
        var n := DigitValue(input[pos]);
        if n >= radix { break; }
        SaturatedStep(cp, Value(input, firstDigit, pos, radix), radix, n);
        cp := if cp > 0x10FFFF / radix then 0x11_0000 else cp * radix + n;
        pos := pos + 1;
      }
      if pos == firstDigit { return None; }
      SaturatedScalar(cp, Value(input, firstDigit, pos, radix));
      if pos < |input| && input[pos] == ';' { pos := pos + 1; }
      return Some(Reference(pos, Encode(Scalar(cp))));
    }

    method ReadTag(pos: nat) returns (r: Item)
      requires CachesOk() && pos < |base.input|
      modifies this`noQuoteAfter, this`noTagAfter, this`steps
      ensures CachesOk() && r == TagAt(base.input, pos)
      ensures Metered() == CandidateMeter(base.input, pos, old(Metered()))
    {
      hide TagEnd, RawEnd, Inline, EqualName, TagMeter, RawMeter;
      var input := base.input;
      var nameStart := pos + 1;
      var closing := nameStart < |input| && input[nameStart] == '/';
      if closing { nameStart := nameStart + 1; }
      if !(nameStart < |input| && Alpha(input[nameStart])) { return Keep; }
      var nameEnd := nameStart + 1;
      while nameEnd < |input| && NameByte(input[nameEnd])
        invariant nameStart < nameEnd <= |input|
        invariant NameEnd(input, nameStart + 1) == NameEnd(input, nameEnd)
      {
        nameEnd := nameEnd + 1;
      }
      var name := input[nameStart..nameEnd];
      var end := FindTagEnd(nameEnd);
      if end == None { return Keep; }
      var rawEnd := end.value;
      if !closing && (EqualName(name, "script") || EqualName(name, "style")) {
        rawEnd := FindRawEnd(rawEnd, if EqualName(name, "script") then "script" else "style");
      }
      return Cut(rawEnd, if Inline(name) then "" else "\n");
    }

    method ReadItem(pos: nat) returns (r: Item)
      requires CachesOk() && SortedNames(entities.table) && pos < |base.input|
      modifies this`noQuoteAfter, this`noTagAfter, this`steps
      ensures CachesOk() && r == ItemAt(base.input, pos, entities)
      ensures Metered() == ItemMeter(base.input, pos, old(Metered()))
    {
      hide TagAt, CandidateMeter, CommentEnd, DeclarationEnd, FindWord, ReferenceAt, Without;
      var input := base.input;
      if input[pos] == '&' {
        var reference := ReadReference(pos);
        if reference.Some? { return Cut(reference.value.end, reference.value.text); }
        return Keep;
      }
      if input[pos] != '<' { return Keep; }
      if StartsAt(input, pos, CDATA_OPEN) {
        var close := FindWord(input, CDATA_CLOSE, pos + 9);
        if close == None { return CData(|input|, |input|); }
        return CData(close.value, close.value + 3);
      }
      if StartsAt(input, pos, "<!--") {
        var end := FindCommentEnd(pos + 4);
        return Cut(end, "");
      }
      if pos + 1 < |input| && (input[pos + 1] == '!' || input[pos + 1] == '?') {
        var end := FindDeclarationEnd(pos + 2);
        return Cut(end, "");
      }
      r := ReadTag(pos);
    }

    /** Drops the two ends of a CDATA section. */
    method Unwrap(pos: nat, close: nat, end: nat)
      requires base.Building() && Consuming(base.subs) && EndOf(base.subs) <= pos
      requires pos + 9 <= close <= end <= |base.input|
      modifies base
      ensures base.Building() && base.input == old(base.input) && Consuming(base.subs)
      ensures EndOf(base.subs) <= end
      ensures Prefix(base.input, base.subs, end)
        == Prefix(base.input, old(base.subs), pos) + base.input[pos + 9..close]
    {
      hide Prefix, LogOk, Ordered, Built, BuiltOrigins;
      ghost var before := Prefix(base.input, base.subs, pos);
      base.Replace(pos, pos + 9, "");
      assert before + "" == before;
      PrefixGrows(base.input, base.subs, pos + 9, close);
      ghost var content := Prefix(base.input, base.subs, close);
      assert content + "" == content;
      if end > close { base.Replace(close, end, ""); }
    }

    /** Reads and handles one item. */
    method Step(pos: nat) returns (next: nat)
      requires base.Building() && CachesOk() && Consuming(base.subs) && SortedNames(entities.table)
      requires EndOf(base.subs) <= pos < |base.input|
      modifies this, base
      ensures base.Building() && base.input == old(base.input) && CachesOk() && Consuming(base.subs)
      ensures pos < next <= |base.input| && EndOf(base.subs) <= next
      ensures Prefix(base.input, old(base.subs), pos) + Stripped(base.input, pos, entities)
        == Prefix(base.input, base.subs, next) + Stripped(base.input, next, entities)
      ensures next == ItemEnd(ItemAt(base.input, pos, entities), pos)
      ensures Metered() == ItemMeter(base.input, pos, old(Metered()))
    {
      hide ItemMeter, ItemAt, Prefix, LogOk, Ordered, Built, BuiltOrigins, Stripped, Without;
      var item := ReadItem(pos);
      ghost var subs := base.subs;
      match item {
        case Keep =>
          KeepByte(base.input, base.subs, pos, entities);
          next := pos + 1;
        case Cut(end, text) =>
          base.Replace(pos, end, text);
          CutItem(base.input, subs, base.subs, pos, entities);
          next := end;
        case CData(close, end) =>
          Unwrap(pos, close, end);
          CDataItem(base.input, subs, base.subs, pos, entities);
          next := end;
      }
    }

    /** Strips a whole text. Every replacement consumes source, in order. */
    method Apply(value: string) returns (out: Option<string>)
      requires SortedNames(entities.table)
      modifies this, base
      ensures out == if base.subs != [] && |Stripped(value, 0, entities)| > INT_MAX then None
                     else Some(Stripped(value, 0, entities))
      ensures base.Ready() && base.input == value && Consuming(base.subs)
      ensures Spliced(value, base.subs) == Stripped(value, 0, entities)
      ensures Metered() == TextMeter(value, 0, entities, Meter(|value|, 0))
    {
      hide ItemMeter, ItemAt, Prefix, LogOk, Ordered, Built, BuiltOrigins, Stripped, Without;
      base.Begin(value);
      noTagAfter, noQuoteAfter, steps := |value|, [|value|, |value|], 0;
      NothingRead(value);
      var pos: nat := 0;
      while pos < |value|
        invariant pos <= |value| && base.Building() && base.input == value && CachesOk()
        invariant EndOf(base.subs) <= pos && Consuming(base.subs)
        invariant Stripped(value, 0, entities) == Prefix(value, base.subs, pos) + Stripped(value, pos, entities)
        invariant TextMeter(value, 0, entities, Meter(|value|, 0)) == TextMeter(value, pos, entities, Metered())
      {
        pos := Step(pos);
      }
      AllRead(value, base.subs, entities);
      out := base.Finish();
    }
  }
}
