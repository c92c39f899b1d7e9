/** What the HTML filter makes of a document, stated on documents: every piece of
    markup is printed as it is written in a text, and stripping the printed text
    gives the text the document stands for. */
module HtmlDocument {
  import opened Ascii
  import opened HtmlStrip
  import opened Options
  import Utf8

  // ----- documents

  /** key="value", between quotes of either kind. */
  datatype Attribute = Attribute(key: string, value: string, quote: char)

  datatype Node =
    | Text(text: string)
    | Open(name: string, attributes: seq<Attribute>)
    | Close(name: string)
    | Raw(name: string, attributes: seq<Attribute>, body: string)
    | Comment(body: string)
    | Declaration(body: string)
    | Section(body: string)
    | Number(value: nat, hex: bool, upper: bool)
    | Symbol(name: string)

  const DIGITS := "0123456789abcdef"
  const UPPER_DIGITS := "0123456789ABCDEF"

  function Base(hex: bool): (b: nat) { if hex then 16 else 10 }

  function LastOf(v: nat, hex: bool): (d: nat)
    ensures d < Base(hex)
  {
    if hex then v % 16 else v % 10
  }

  function Shorter(v: nat, hex: bool): (r: nat)
    ensures v == r * Base(hex) + LastOf(v, hex) && (v >= Base(hex) ==> r < v) && (v < Base(hex) ==> r == 0)
  {
    if hex then v / 16 else v / 10
  }

  function DigitChar(d: nat, upper: bool): (c: char)
    requires d < 16
  {
    (if upper then UPPER_DIGITS else DIGITS)[d]
  }

  /** A number in decimal or hexadecimal. */
  function Digits(v: nat, hex: bool, upper: bool): (t: string)
    ensures t != ""
    decreases v, hex, upper
  {
    (if v < Base(hex) then "" else Digits(Shorter(v, hex), hex, upper)) + [DigitChar(LastOf(v, hex), upper)]
  }

  function AttributeText(a: Attribute): (t: string) {
    " " + a.key + "=" + [a.quote] + a.value + [a.quote]
  }

  function AttributesText(list: seq<Attribute>): (t: string) {
    if list == [] then "" else AttributeText(list[0]) + AttributesText(list[1..])
  }

  function NodeText(n: Node): (t: string) {
    match n
    case Text(text) => text
    case Open(name, attributes) => "<" + name + AttributesText(attributes) + ">"
    case Close(name) => "</" + name + ">"
    case Raw(name, attributes, body) => "<" + name + AttributesText(attributes) + ">" + body + "</" + name + ">"
    case Comment(body) => "<!--" + body + "-->"
    case Declaration(body) => "<!" + body + ">"
    case Section(body) => "<![CDATA[" + body + "]]>"
    case Number(value, hex, upper) =>
      "&#" + (if !hex then "" else if upper then "X" else "x") + Digits(value, hex, upper) + ";"
    case Symbol(name) => "&" + name + ";"
  }

  function DocumentText(doc: seq<Node>): (t: string) {
    if doc == [] then "" else NodeText(doc[0]) + DocumentText(doc[1..])
  }

  // ----- what they stand for

  /** Inline elements leave nothing, all others a line break. */
  function Separator(name: string): (t: string) {
    if Lowered(name) in INLINE then "" else "\n"
  }

  /** The character a numeric reference names: the Windows-1252 one for a C1 control,
      and U+FFFD for what is no character. */
  function Character(v: nat): (cp: nat) {
    if 0x80 <= v <= 0x9F then C1[v - 0x80]
    else if 0 < v < 0xD800 || 0xDFFF < v < 0x11_0000 then v
    else 0xFFFD
  }

  function NodeMeaning(n: Node, e: Entities): (t: string) {
    match n
    case Text(text) => text
    case Open(name, _) => Separator(name)
    case Close(name) => Separator(name)
    case Raw(_, _, _) => "\n"
    case Comment(_) => ""
    case Declaration(_) => ""
    case Section(body) => body
    case Number(value, _, _) => Encode(Character(value))
    case Symbol(name) => if Named(e.table, name + ";").Some? then Named(e.table, name + ";").value else ""
  }

  function DocumentMeaning(doc: seq<Node>, e: Entities): (t: string) {
    if doc == [] then "" else NodeMeaning(doc[0], e) + DocumentMeaning(doc[1..], e)
  }

  // ----- what can be printed

  predicate IsName(name: string) {
    name != "" && Alpha(name[0]) && forall i | 0 <= i < |name| :: NameByte(name[i])
  }

  predicate IsAttribute(a: Attribute) {
    && Quote(a.quote) && (forall i | 0 <= i < |a.key| :: NameByte(a.key[i]))
    && forall i | 0 <= i < |a.value| :: a.value[i] != a.quote
  }

  predicate AreAttributes(list: seq<Attribute>) {
    forall i | 0 <= i < |list| :: IsAttribute(list[i])
  }

  /** A byte of text: a bracket or ampersand stands for itself before anything that
      does not make it markup or a reference. */
  predicate IsLoose(text: string, i: nat)
    requires i < |text|
  {
    && (text[i] == '<' ==>
          i + 1 < |text| && !Alpha(text[i + 1]) && text[i + 1] != '/' && text[i + 1] != '!' && text[i + 1] != '?')
    && (text[i] == '&' ==>
          i + 1 < |text| && !Alpha(text[i + 1]) && !Digit(text[i + 1]) && text[i + 1] != '#' && text[i + 1] != ';')
  }

  predicate IsRawName(name: string) { Lowered(name) == "script" || Lowered(name) == "style" }

  /** The piece reads as what it is: a body does not close early, and what is not
      raw text is not named so. */
  ghost predicate IsNode(n: Node, e: Entities) {
    match n
    case Text(text) => forall i | 0 <= i < |text| :: IsLoose(text, i)
    case Open(name, attributes) => IsName(name) && !IsRawName(name) && AreAttributes(attributes)
    case Close(name) => IsName(name)
    case Raw(name, attributes, body) =>
      && IsRawName(name) && AreAttributes(attributes)
      && forall i | 0 <= i < |body| :: !RawClose(body + "</" + name + ">", i, Lowered(name))
    case Comment(body) =>
      forall i | 0 <= i < |body| :: !StartsAt(body + "-->", i, "-->") && !StartsAt(body + "-->", i, "--!>")
    case Declaration(body) =>
      && (forall i | 0 <= i < |body| :: body[i] != '>' && !Quote(body[i]))
      && !(body != "" && (body[0] == '-' || body[0] == '['))
    case Section(body) => forall i | 0 <= i < |body| :: !StartsAt(body + "]]>", i, "]]>")
    case Number(_, _, _) => true
    case Symbol(name) =>
      && (forall i | 0 <= i < |name| :: Alpha(name[i]) || Digit(name[i]))
      && 0 < |name| <= e.maxName && Named(e.table, name + ";").Some?
  }

  // ----- pieces of a text

  lemma ByteAt(s: string, pos: nat, word: string, k: nat)
    requires StartsAt(s, pos, word) && k < |word|
    ensures pos + k < |s| && s[pos + k] == word[k]
  {
  }

  lemma StartsSplit(s: string, pos: nat, a: string, b: string)
    ensures StartsAt(s, pos, a + b) <==> StartsAt(s, pos, a) && StartsAt(s, pos + |a|, b)
  {
    if StartsAt(s, pos, a + b) {
      forall k | 0 <= k < |a| ensures s[pos + k] == a[k] { assert (a + b)[k] == a[k]; }
      forall k | 0 <= k < |b| ensures s[pos + |a| + k] == b[k] { assert (a + b)[|a| + k] == b[k]; }
    }
    if StartsAt(s, pos, a) && StartsAt(s, pos + |a|, b) {
      forall k | 0 <= k < |a + b| ensures s[pos + k] == (a + b)[k] {
        if k >= |a| { assert s[pos + |a| + (k - |a|)] == b[k - |a|]; }
      }
    }
  }

  lemma {:induction false} NameEndIs(s: string, pos: nat, end: nat)
    requires pos <= end < |s| && (forall i | pos <= i < end :: NameByte(s[i])) && !NameByte(s[end])
    ensures NameEnd(s, pos) == end
    decreases end - pos
  {
    if pos < end { NameEndIs(s, pos + 1, end); }
  }

  lemma {:induction false} FindIs(s: string, c: char, pos: nat, at: nat)
    requires pos <= at < |s| && s[at] == c && Without(s, c, pos, at)
    ensures Find(s, c, pos) == Some(at)
    decreases at - pos
  {
    if pos < at { FindIs(s, c, pos + 1, at); }
  }

  lemma SameLowered(a: string, b: string)
    ensures EqualName(a, b) <==> Lowered(a) == b
  {
  }

  lemma InlineIff(name: string)
    ensures Inline(name) <==> Lowered(name) in INLINE
  {
    if i :| 0 <= i < |INLINE| && EqualName(name, INLINE[i]) { SameLowered(name, INLINE[i]); }
    if Lowered(name) in INLINE {
      var i :| 0 <= i < |INLINE| && INLINE[i] == Lowered(name);
      SameLowered(name, INLINE[i]);
    }
  }

  /** From pos on, the filter leaves the meaning of the printed piece, then what it
      leaves from the end of the piece on. */
  ghost predicate Reads(s: string, pos: nat, n: Node, e: Entities) {
    var end := pos + |NodeText(n)|;
    end <= |s| && Stripped(s, pos, e) == NodeMeaning(n, e) + Stripped(s, end, e)
  }

  lemma CutStripped(s: string, pos: nat, end: nat, text: string, e: Entities)
    requires pos < end <= |s| && ItemAt(s, pos, e) == Cut(end, text)
    ensures Stripped(s, pos, e) == text + Stripped(s, end, e)
  {
    hide ItemAt;
  }

  /** A piece the filter cuts out for its meaning. */
  lemma Replaced(s: string, pos: nat, n: Node, text: string, meaning: string, e: Entities)
    requires NodeText(n) == text != "" && NodeMeaning(n, e) == meaning && pos + |text| <= |s|
    requires ItemAt(s, pos, e) == Cut(pos + |text|, meaning)
    ensures Reads(s, pos, n, e)
  {
    hide NodeText, NodeMeaning, ItemAt, Stripped;
    CutStripped(s, pos, pos + |text|, meaning, e);
  }

  lemma KeptStripped(s: string, pos: nat, e: Entities)
    requires pos < |s| && ItemAt(s, pos, e) == Keep
    ensures Stripped(s, pos, e) == [s[pos]] + Stripped(s, pos + 1, e)
  {
    hide ItemAt;
  }

  lemma SectionStripped(s: string, pos: nat, close: nat, e: Entities)
    requires pos + 9 <= close && close + 3 <= |s| && ItemAt(s, pos, e) == CData(close, close + 3)
    ensures Stripped(s, pos, e) == s[pos + 9..close] + Stripped(s, close + 3, e)
  {
    hide ItemAt;
  }

  // ----- tags

  /** A quoted value is passed over, whatever it holds. */
  lemma AttributePassed(s: string, p: nat, a: Attribute)
    requires IsAttribute(a) && StartsAt(s, p, AttributeText(a))
    ensures TagEnd(s, p, Attributes) == TagEnd(s, p + |AttributeText(a)|, Attributes)
  {
    hide TagEnd, StartsAt;
    var q := p + 1 + |a.key|;
    AttributeAt(s, p, a);
    KeyPassed(s, p, q);
    ValuePassed(s, q, q + 2 + |a.value|);
  }

  lemma AttributeAt(s: string, p: nat, a: Attribute)
    requires IsAttribute(a) && StartsAt(s, p, AttributeText(a))
    ensures
      var q := p + 1 + |a.key|;
      && |AttributeText(a)| == |a.key| + |a.value| + 4
      && q + 2 + |a.value| < |s| && s[p] == ' ' && s[q] == '=' && s[q + 1] == a.quote && s[q + 2 + |a.value|] == a.quote
      && (forall i | p < i < q :: NameByte(s[i]))
      && Without(s, a.quote, q + 2, q + 2 + |a.value|)
  {
    hide StartsAt;
    var key, value := " " + a.key, a.value;
    assert AttributeText(a) == key + ("=" + [a.quote] + (value + [a.quote]));
    StartsSplit(s, p, key, "=" + [a.quote] + (value + [a.quote]));
    StartsSplit(s, p + |key|, "=" + [a.quote], value + [a.quote]);
    StartsSplit(s, p + |key| + 2, value, [a.quote]);
    var q := p + |key|;
    ByteAt(s, p, key, 0);
    ByteAt(s, q, "=" + [a.quote], 0);
    ByteAt(s, q, "=" + [a.quote], 1);
    ByteAt(s, q + 2 + |value|, [a.quote], 0);
    forall i | p < i < q ensures NameByte(s[i]) { ByteAt(s, p, key, i - p); }
    forall i | q + 2 <= i < q + 2 + |value| ensures s[i] != a.quote { ByteAt(s, q + 2, value, i - q - 2); }
  }

  lemma {:induction false} KeyPassed(s: string, p: nat, q: nat)
    requires p <= q < |s| && s[q] == '=' && forall i | p <= i < q :: s[i] == ' ' || NameByte(s[i])
    ensures TagEnd(s, p, Attributes) == TagEnd(s, q + 1, BeforeValue)
    decreases q - p
  {
    if p < q { KeyPassed(s, p + 1, q); }
  }

  lemma ValuePassed(s: string, q: nat, last: nat)
    requires q + 1 < last < |s| && Quote(s[q + 1]) && s[last] == s[q + 1] && Without(s, s[q + 1], q + 2, last)
    ensures TagEnd(s, q + 1, BeforeValue) == TagEnd(s, last + 1, Attributes)
  {
    FindIs(s, s[q + 1], q + 2, last);
  }

  lemma {:induction false} AttributesPassed(s: string, p: nat, list: seq<Attribute>)
    requires AreAttributes(list) && StartsAt(s, p, AttributesText(list) + ">")
    ensures TagEnd(s, p, Attributes) == Some(p + |AttributesText(list)| + 1)
    decreases list
  {
    hide TagEnd, StartsAt, IsAttribute;
    if list == [] {
      assert "" + ">" == ">";
      ClosedHere(s, p);
    } else {
      var first, rest := AttributeText(list[0]), AttributesText(list[1..]);
      assert AttributesText(list) + ">" == first + (rest + ">");
      StartsSplit(s, p, first, rest + ">");
      AttributePassed(s, p, list[0]);
      AttributesPassed(s, p + |first|, list[1..]);
    }
  }

  lemma ClosedHere(s: string, p: nat)
    requires StartsAt(s, p, ">")
    ensures TagEnd(s, p, Attributes) == Some(p + 1)
  {
    ByteAt(s, p, ">", 0);
  }

  /** The name of a tag and where its attributes start. */
  lemma NameAt(s: string, p: nat, name: string, after: string)
    requires IsName(name) && after != "" && !NameByte(after[0]) && StartsAt(s, p, name + after)
    ensures p + |name| < |s| && NameEnd(s, p + 1) == p + |name| && s[p..p + |name|] == name && Alpha(s[p])
    ensures StartsAt(s, p + |name|, after)
  {
    StartsSplit(s, p, name, after);
    assert s[p + |name| + 0] == after[0];
    assert s[p + 0] == name[0];
    forall i | p <= i < p + |name| ensures s[i] == name[i - p] { assert s[p + (i - p)] == name[i - p]; }
    NameEndIs(s, p + 1, p + |name|);
  }

  lemma AfterName(list: seq<Attribute>)
    ensures AttributesText(list) + ">" != "" && !NameByte((AttributesText(list) + ">")[0])
  {
  }

  /** An opening tag up to its end, before raw text is considered. */
  lemma OpenAt(s: string, pos: nat, name: string, list: seq<Attribute>)
    requires IsName(name) && AreAttributes(list) && StartsAt(s, pos, "<" + name + AttributesText(list) + ">")
    ensures
      var q := pos + 1 + |name|;
      && q < |s| && s[pos] == '<' && NameStart(s, pos) == pos + 1 && Alpha(s[pos + 1]) && NameEnd(s, pos + 2) == q
      && s[pos + 1..q] == name && TagEnd(s, q, Attributes) == Some(q + |AttributesText(list)| + 1)
  {
    hide StartsAt, TagEnd, NameEnd, AreAttributes, IsName, NameByte;
    var after := AttributesText(list) + ">";
    assert "<" + name + AttributesText(list) + ">" == "<" + (name + after);
    StartsSplit(s, pos, "<", name + after);
    ByteAt(s, pos, "<", 0);
    AfterName(list);
    NameAt(s, pos + 1, name, after);
    AttributesPassed(s, pos + 1 + |name|, list);
  }

  /** What the filter does at a tag that has an end. */
  lemma TagItem(s: string, pos: nat, name: string, p: nat, end: nat, e: Entities)
    requires pos + 1 < p < |s| && s[pos] == '<' && s[pos + 1] != '!' && s[pos + 1] != '?'
    requires NameStart(s, pos) + |name| == p && s[p - |name|..p] == name && name != "" && Alpha(s[p - |name|])
    requires NameEnd(s, NameStart(s, pos) + 1) == p && TagEnd(s, p, Attributes) == Some(end)
    ensures
      var raw := NameStart(s, pos) == pos + 1;
      ItemAt(s, pos, e) == Cut(
        if raw && Lowered(name) == "script" then RawEnd(s, end, "script")
        else if raw && Lowered(name) == "style" then RawEnd(s, end, "style")
        else end, Separator(name))
  {
    hide TagEnd, RawEnd, EqualName, Inline, NameEnd, Lowered, ItemAt, TagAt;
    InlineIff(name);
    SameLowered(name, "script");
    SameLowered(name, "style");
    TagDispatch(s, pos, e);
    TagCut(s, pos, name, p, end);
  }

  lemma TagCut(s: string, pos: nat, name: string, p: nat, end: nat)
    requires pos + 1 < p < |s| && NameStart(s, pos) + |name| == p && s[p - |name|..p] == name && name != ""
    requires Alpha(s[p - |name|]) && NameEnd(s, NameStart(s, pos) + 1) == p && TagEnd(s, p, Attributes) == Some(end)
    ensures
      var raw := NameStart(s, pos) == pos + 1;
      TagAt(s, pos) == Cut(
        if raw && EqualName(name, "script") then RawEnd(s, end, "script")
        else if raw && EqualName(name, "style") then RawEnd(s, end, "style")
        else end, if Inline(name) then "" else "\n")
  {
    hide TagEnd, RawEnd, EqualName, Inline, NameEnd;
  }

  lemma TagDispatch(s: string, pos: nat, e: Entities)
    requires pos + 1 < |s| && s[pos] == '<' && s[pos + 1] != '!' && s[pos + 1] != '?'
    ensures ItemAt(s, pos, e) == TagAt(s, pos)
  {
    NotOther(s, pos);
    hide TagAt, ReferenceAt, StartsAt;
  }

  lemma OpenItem(s: string, pos: nat, name: string, list: seq<Attribute>, e: Entities)
    requires IsNode(Open(name, list), e) && StartsAt(s, pos, NodeText(Open(name, list)))
    ensures Reads(s, pos, Open(name, list), e)
  {
    hide TagEnd, NameEnd, StartsAt, AreAttributes, Lowered, ItemAt, Separator, AttributesText, Reads;
    var text := "<" + name + AttributesText(list) + ">";
    OpenAt(s, pos, name, list);
    TagItem(s, pos, name, pos + 1 + |name|, pos + |text|, e);
    Replaced(s, pos, Open(name, list), text, Separator(name), e);
  }

  lemma NotOther(s: string, pos: nat)
    requires pos + 1 < |s| && s[pos + 1] != '!' && s[pos + 1] != '?'
    ensures !OtherMarkup(s, pos)
  {
    assert CDATA_OPEN[1] == '!' && "<!--"[1] == '!';
  }

  lemma CloseAt(s: string, pos: nat, name: string)
    requires IsName(name) && StartsAt(s, pos, "</" + name + ">")
    ensures
      var q := pos + 2 + |name|;
      && q < |s| && s[pos] == '<' && NameStart(s, pos) == pos + 2 && Alpha(s[pos + 2]) && NameEnd(s, pos + 3) == q
      && s[pos + 1] == '/' && s[pos + 2..q] == name && s[q] == '>' && TagEnd(s, q, Attributes) == Some(q + 1)
  {
    hide StartsAt, TagEnd, NameEnd, IsName;
    assert "</" + name + ">" == "</" + (name + ">");
    StartsSplit(s, pos, "</", name + ">");
    ByteAt(s, pos, "</", 0);
    ByteAt(s, pos, "</", 1);
    NameAt(s, pos + 2, name, ">");
    ByteAt(s, pos + 2 + |name|, ">", 0);
    ClosedHere(s, pos + 2 + |name|);
  }

  lemma CloseItem(s: string, pos: nat, name: string, e: Entities)
    requires IsNode(Close(name), e) && StartsAt(s, pos, NodeText(Close(name)))
    ensures Reads(s, pos, Close(name), e)
  {
    hide TagEnd, NameEnd, StartsAt, Lowered, ItemAt, Separator, Reads;
    var text := "</" + name + ">";
    CloseAt(s, pos, name);
    TagItem(s, pos, name, pos + 2 + |name|, pos + |text|, e);
    Replaced(s, pos, Close(name), text, Separator(name), e);
  }

  // ----- raw text

  lemma {:induction false} RawEndIs(s: string, pos: nat, at: nat, name: string)
    requires pos <= at < |s| && (forall i | pos <= i < at :: !RawClose(s, i, name))
    requires RawClose(s, at, name) && TagEnd(s, at + 2 + |name|, Attributes).Some?
    ensures RawEnd(s, pos, name) == TagEnd(s, at + 2 + |name|, Attributes).value
    decreases at - pos
  {
    hide RawClose, TagEnd;
    if pos < at { RawEndIs(s, pos + 1, at, name); }
  }

  /** Whether a closing tag starts at i of a piece does not depend on what is around
      the piece. */
  lemma RawCloseLocal(s: string, p: nat, piece: string, i: nat, name: string)
    requires StartsAt(s, p, piece) && i + 2 + |name| < |piece| && RawClose(s, p + i, name)
    ensures RawClose(piece, i, name)
  {
    forall k | i <= k <= i + 2 + |name| ensures s[p + k] == piece[k] { ByteAt(s, p, piece, k); }
    assert s[p + i + 2..p + i + 2 + |name|] == piece[i + 2..i + 2 + |name|];
  }

  lemma RawNameFacts(name: string)
    requires IsRawName(name)
    ensures IsName(name) && |Lowered(name)| == |name| && EqualName(name, Lowered(name)) && Lowered(name) !in INLINE
    ensures EqualName(name, "script") <==> Lowered(name) == "script"
    ensures EqualName(name, "style") <==> Lowered(name) == "style"
  {
    SameLowered(name, "script");
    SameLowered(name, "style");
    SameLowered(name, Lowered(name));
    var low := Lowered(name);
    forall i | 0 <= i < |name| ensures Alpha(name[i]) { assert low[i] == Lower(name[i]) && 'a' <= low[i] <= 'z'; }
  }

  /** Raw text ends at its own closing tag. */
  lemma RawBody(s: string, p: nat, name: string, body: string)
    requires IsRawName(name) && StartsAt(s, p, body + "</" + name + ">")
    requires forall i | 0 <= i < |body| :: !RawClose(body + "</" + name + ">", i, Lowered(name))
    ensures p <= |s| && RawEnd(s, p, Lowered(name)) == p + |body| + |name| + 3
  {
    hide StartsAt, TagEnd, RawEnd;
    RawNameFacts(name);
    var piece, at, low := body + "</" + name + ">", p + |body|, Lowered(name);
    assert piece == body + ("</" + name + ">");
    StartsSplit(s, p, body, "</" + name + ">");
    CloseAt(s, at, name);
    assert RawClose(s, at, low);
    forall i | p <= i < at ensures !RawClose(s, i, low) {
      if RawClose(s, p + (i - p), low) { RawCloseLocal(s, p, piece, i - p, low); }
    }
    RawEndIs(s, p, at, low);
  }

  lemma RawText(name: string, list: seq<Attribute>, body: string)
    ensures NodeText(Raw(name, list, body))
      == ("<" + name + AttributesText(list) + ">") + (body + "</" + name + ">")
  {
    hide AttributesText;
  }

  lemma RawItem(s: string, pos: nat, name: string, list: seq<Attribute>, body: string, e: Entities)
    requires IsNode(Raw(name, list, body), e) && StartsAt(s, pos, NodeText(Raw(name, list, body)))
    ensures Reads(s, pos, Raw(name, list, body), e)
  {
    hide StartsAt, TagEnd, RawEnd, RawClose, AreAttributes, NameEnd, Lowered, ItemAt, AttributesText, Reads, NodeText;
    var open, rest := "<" + name + AttributesText(list) + ">", body + "</" + name + ">";
    RawText(name, list, body);
    StartsSplit(s, pos, open, rest);
    RawNameFacts(name);
    OpenAt(s, pos, name, list);
    RawBody(s, pos + |open|, name, body);
    TagItem(s, pos, name, pos + 1 + |name|, pos + |open|, e);
    Replaced(s, pos, Raw(name, list, body), open + rest, "\n", e);
  }

  // ----- comments, declarations and sections

  lemma CommentDispatch(s: string, pos: nat, e: Entities)
    requires pos + 4 <= |s| && s[pos] == '<' && !StartsAt(s, pos, CDATA_OPEN) && StartsAt(s, pos, "<!--")
    ensures ItemAt(s, pos, e) == Cut(CommentEnd(s, pos + 4), "")
  {
    hide StartsAt, TagAt, ReferenceAt, CommentEnd, DeclarationEnd, FindWord;
  }

  lemma DeclarationDispatch(s: string, pos: nat, e: Entities)
    requires pos + 2 < |s| && s[pos] == '<' && s[pos + 1] == '!' && s[pos + 2] != '[' && s[pos + 2] != '-'
    ensures ItemAt(s, pos, e) == Cut(DeclarationEnd(s, pos + 2), "")
  {
    NotSection(s, pos, s[pos + 2]);
    if StartsAt(s, pos, "<!--") { ByteAt(s, pos, "<!--", 2); }
    hide StartsAt, TagAt, ReferenceAt, CommentEnd, DeclarationEnd, FindWord;
  }

  lemma SectionDispatch(s: string, pos: nat, close: nat, e: Entities)
    requires pos < |s| && s[pos] == '<' && StartsAt(s, pos, CDATA_OPEN)
    requires FindWord(s, CDATA_CLOSE, pos + 9) == Some(close)
    ensures ItemAt(s, pos, e) == CData(close, close + 3)
  {
    hide StartsAt, TagAt, ReferenceAt, CommentEnd, DeclarationEnd, FindWord;
  }

  lemma {:induction false} CommentEndIs(s: string, pos: nat, at: nat)
    requires pos <= at <= |s| && StartsAt(s, at, "-->")
    requires forall i | pos <= i < at :: !StartsAt(s, i, "-->") && !StartsAt(s, i, "--!>")
    ensures CommentEnd(s, pos) == at + 3
    decreases at - pos
  {
    hide StartsAt;
    if pos < at { CommentEndIs(s, pos + 1, at); }
  }

  /** A word inside a piece is there in the text around it, and the other way. */
  lemma StartsLocal(s: string, p: nat, piece: string, i: nat, word: string)
    requires StartsAt(s, p, piece) && i + |word| <= |piece|
    ensures StartsAt(s, p + i, word) <==> StartsAt(piece, i, word)
  {
    assert s[p..p + |piece|] == piece;
    assert forall k | 0 <= k < |word| :: s[p + i..p + |piece|][k] == piece[i..][k];
  }

  lemma CommentAt(s: string, pos: nat, body: string)
    requires StartsAt(s, pos, "<!--" + (body + "-->"))
    requires forall i | 0 <= i < |body| :: !StartsAt(body + "-->", i, "-->") && !StartsAt(body + "-->", i, "--!>")
    ensures StartsAt(s, pos, "<!--") && pos + 4 <= |s| && CommentEnd(s, pos + 4) == pos + |body| + 7
  {
    hide StartsAt, CommentEnd;
    var piece, p := body + "-->", pos + 4;
    StartsSplit(s, pos, "<!--", piece);
    StartsSplit(s, p, body, "-->");
    InText(s, p + |body|, "-->");
    forall i | p <= i < p + |body| ensures !StartsAt(s, i, "-->") && !StartsAt(s, i, "--!>") {
      StartsLocal(s, p, piece, i - p, "-->");
      StartsLocal(s, p, piece, i - p, "--!>");
    }
    CommentEndIs(s, p, p + |body|);
  }

  /** An opener that is not that of a section. */
  lemma NotSection(s: string, pos: nat, c: char)
    requires pos + 2 < |s| && s[pos + 2] == c != '['
    ensures !StartsAt(s, pos, CDATA_OPEN)
  {
    if StartsAt(s, pos, CDATA_OPEN) { ByteAt(s, pos, CDATA_OPEN, 2); }
  }

  lemma CommentItem(s: string, pos: nat, body: string, e: Entities)
    requires IsNode(Comment(body), e) && StartsAt(s, pos, NodeText(Comment(body)))
    ensures Reads(s, pos, Comment(body), e)
  {
    hide StartsAt, CommentEnd, ItemAt, NodeText, Reads;
    CommentText(body);
    CommentAt(s, pos, body);
    ByteAt(s, pos, "<!--", 0);
    ByteAt(s, pos, "<!--", 2);
    NotSection(s, pos, '-');
    CommentDispatch(s, pos, e);
    Replaced(s, pos, Comment(body), "<!--" + (body + "-->"), "", e);
  }

  lemma CommentText(body: string)
    ensures NodeText(Comment(body)) == "<!--" + (body + "-->")
  {
  }

  lemma {:induction false} FindWordIs(s: string, word: string, pos: nat, at: nat)
    requires pos <= at && StartsAt(s, at, word) && forall i | pos <= i < at :: !StartsAt(s, i, word)
    ensures FindWord(s, word, pos) == Some(at)
    decreases at - pos
  {
    if pos < at {
      InText(s, at, word);
      FindWordIs(s, word, pos + 1, at);
    }
  }

  lemma InText(s: string, at: nat, word: string)
    requires StartsAt(s, at, word)
    ensures at <= |s|
  {
  }

  lemma SectionAt(s: string, pos: nat, body: string)
    requires StartsAt(s, pos, CDATA_OPEN + (body + "]]>"))
    requires forall i | 0 <= i < |body| :: !StartsAt(body + "]]>", i, "]]>")
    ensures
      var close := pos + 9 + |body|;
      && StartsAt(s, pos, CDATA_OPEN) && FindWord(s, CDATA_CLOSE, pos + 9) == Some(close)
      && close + 3 <= |s| && s[pos + 9..close] == body && s[pos] == '<'
  {
    hide StartsAt, FindWord;
    var piece, p := body + "]]>", pos + 9;
    StartsSplit(s, pos, CDATA_OPEN, piece);
    StartsSplit(s, p, body, "]]>");
    ByteAt(s, pos, CDATA_OPEN, 0);
    ByteAt(s, p + |body|, "]]>", 2);
    forall i | p <= i < p + |body| ensures !StartsAt(s, i, "]]>") { StartsLocal(s, p, piece, i - p, "]]>"); }
    FindWordIs(s, CDATA_CLOSE, p, p + |body|);
    forall k | 0 <= k < |body| ensures s[p + k] == body[k] { ByteAt(s, p, body, k); }
  }

  lemma SectionText(body: string)
    ensures NodeText(Section(body)) == CDATA_OPEN + (body + "]]>")
  {
  }

  lemma SectionItem(s: string, pos: nat, body: string, e: Entities)
    requires IsNode(Section(body), e) && StartsAt(s, pos, NodeText(Section(body)))
    ensures Reads(s, pos, Section(body), e)
  {
    hide StartsAt, FindWord, Stripped, ItemAt;
    var close := pos + 9 + |body|;
    SectionText(body);
    hide NodeText;
    SectionAt(s, pos, body);
    SectionDispatch(s, pos, close, e);
    SectionStripped(s, pos, close, e);
  }

  lemma {:induction false} DeclarationEndIs(s: string, pos: nat, at: nat)
    requires pos <= at < |s| && s[at] == '>' && forall i | pos <= i < at :: s[i] != '>' && !Quote(s[i])
    ensures DeclarationEnd(s, pos) == at + 1
    decreases at - pos
  {
    if pos < at { DeclarationEndIs(s, pos + 1, at); }
  }

  lemma DeclarationAt(s: string, pos: nat, body: string)
    requires StartsAt(s, pos, "<!" + (body + ">"))
    requires forall i | 0 <= i < |body| :: body[i] != '>' && !Quote(body[i])
    requires body != "" ==> body[0] != '-' && body[0] != '['
    ensures
      && pos + 2 < |s| && s[pos] == '<' && s[pos + 1] == '!' && s[pos + 2] != '[' && s[pos + 2] != '-'
      && DeclarationEnd(s, pos + 2) == pos + |body| + 3
  {
    hide StartsAt, DeclarationEnd;
    var p := pos + 2;
    StartsSplit(s, pos, "<!", body + ">");
    StartsSplit(s, p, body, ">");
    ByteAt(s, pos, "<!", 0);
    ByteAt(s, pos, "<!", 1);
    ByteAt(s, p, body + ">", 0);
    ByteAt(s, p + |body|, ">", 0);
    forall i | p <= i < p + |body| ensures s[i] != '>' && !Quote(s[i]) { ByteAt(s, p, body, i - p); }
    DeclarationEndIs(s, p, p + |body|);
  }

  lemma DeclarationItem(s: string, pos: nat, body: string, e: Entities)
    requires IsNode(Declaration(body), e) && StartsAt(s, pos, NodeText(Declaration(body)))
    ensures Reads(s, pos, Declaration(body), e)
  {
    hide StartsAt, DeclarationEnd, ItemAt, NodeText, Reads;
    DeclarationText(body);
    DeclarationAt(s, pos, body);
    DeclarationDispatch(s, pos, e);
    Replaced(s, pos, Declaration(body), "<!" + (body + ">"), "", e);
  }

  lemma DeclarationText(body: string)
    ensures NodeText(Declaration(body)) == "<!" + (body + ">")
  {
  }

  // ----- references

  lemma DigitOf(d: nat, upper: bool)
    requires d < 16
    ensures DigitValue(DigitChar(d, upper)) == d
  {
  }

  lemma {:induction false} DigitsBelow(v: nat, hex: bool, upper: bool)
    ensures forall i | 0 <= i < |Digits(v, hex, upper)| :: DigitValue(Digits(v, hex, upper)[i]) < Base(hex)
    decreases v
  {
    hide DigitChar, DigitValue, Shorter, LastOf;
    DigitOf(LastOf(v, hex), upper);
    if v >= Base(hex) { DigitsBelow(Shorter(v, hex), hex, upper); }
  }

  lemma ValueStep(s: string, first: nat, end: nat, base: nat)
    requires first < end <= |s|
    ensures Value(s, first, end, base) == Value(s, first, end - 1, base) * base + DigitValue(s[end - 1])
    ensures Value(s, first, first, base) == 0
  {
  }

  /** Reading a printed number gives the number back. */
  lemma {:induction false} ValueOfDigits(s: string, first: nat, v: nat, hex: bool, upper: bool)
    requires StartsAt(s, first, Digits(v, hex, upper))
    ensures first + |Digits(v, hex, upper)| <= |s|
    ensures Value(s, first, first + |Digits(v, hex, upper)|, Base(hex)) == v
    decreases v
  {
    hide StartsAt, DigitValue, DigitChar, Value, Shorter, LastOf;
    var init := if v < Base(hex) then "" else Digits(Shorter(v, hex), hex, upper);
    var c := DigitChar(LastOf(v, hex), upper);
    DigitOf(LastOf(v, hex), upper);
    var end := first + |init| + 1;
    StartsSplit(s, first, init, [c]);
    ByteAt(s, first + |init|, [c], 0);
    ValueStep(s, first, end, Base(hex));
    if v >= Base(hex) { ValueOfDigits(s, first, Shorter(v, hex), hex, upper); }
    assert Value(s, first, end - 1, Base(hex)) == Shorter(v, hex);
  }

  lemma {:induction false} NumberEndIs(s: string, pos: nat, end: nat, base: nat)
    requires pos <= end <= |s| && (forall i | pos <= i < end :: DigitValue(s[i]) < base)
    requires end < |s| ==> DigitValue(s[end]) >= base
    ensures NumberEnd(s, pos, base) == end
    decreases end - pos
  {
    if pos < end { NumberEndIs(s, pos + 1, end, base); }
  }

  lemma NumberRead(s: string, first: nat, v: nat, hex: bool, upper: bool)
    requires StartsAt(s, first, Digits(v, hex, upper) + ";")
    ensures
      var end, base := first + |Digits(v, hex, upper)|, Base(hex);
      && first < end < |s| && s[end] == ';' && NumberEnd(s, first, base) == end && Value(s, first, end, base) == v
  {
    hide StartsAt, Digits, NumberEnd, Value;
    var t := Digits(v, hex, upper);
    StartsSplit(s, first, t, ";");
    DigitsBelow(v, hex, upper);
    ByteAt(s, first + |t|, ";", 0);
    forall i | first <= i < first + |t| ensures DigitValue(s[i]) < Base(hex) { ByteAt(s, first, t, i - first); }
    ValueOfDigits(s, first, v, hex, upper);
    NumberEndIs(s, first, first + |t|, Base(hex));
  }

  /** The five C1 numbers Windows-1252 leaves undefined stand for themselves, all others
      for characters past Latin-1. */
  lemma C1Characters(v: nat)
    requires 0x80 <= v <= 0x9F
    ensures
      if v == 0x81 || v == 0x8D || v == 0x8F || v == 0x90 || v == 0x9D then Character(v) == v
      else 0xFF < Character(v) < 0x2123
  {
  }

  lemma CharacterIsScalar(v: nat)
    ensures Character(v) == Scalar(v)
  {
  }

  /** The lead of a numeric reference says its base. */
  lemma LeadAt(s: string, pos: nat, lead: string, t: string)
    requires StartsAt(s, pos, lead + t) && (lead == "&#" || lead == "&#x" || lead == "&#X")
    requires t != "" && t[0] != 'x' && t[0] != 'X'
    ensures
      var p := pos + 2;
      && p < |s| && s[pos] == '&' && s[pos + 1] == '#' && ((s[p] == 'x' || s[p] == 'X') <==> |lead| == 3)
      && StartsAt(s, pos + |lead|, t)
  {
    hide StartsAt;
    StartsSplit(s, pos, lead, t);
    ByteAt(s, pos, lead, 0);
    ByteAt(s, pos, lead, 1);
    if |lead| == 3 { ByteAt(s, pos, lead, 2); } else { ByteAt(s, pos + 2, t, 0); }
  }

  lemma FirstDigit(v: nat, hex: bool, upper: bool)
    ensures
      var t := Digits(v, hex, upper) + ";";
      t != "" && t[0] != 'x' && t[0] != 'X'
  {
    DigitsBelow(v, hex, upper);
    hide Digits;
  }

  lemma ReferenceDispatch(s: string, pos: nat, r: Reference, e: Entities)
    requires pos < |s| && s[pos] == '&' && ReferenceAt(s, pos, e) == Some(r)
    ensures ItemAt(s, pos, e) == Cut(r.end, r.text)
  {
    hide ReferenceAt, TagAt, StartsAt;
  }

  lemma NumberAt(s: string, pos: nat, lead: string, v: nat, hex: bool, upper: bool, e: Entities)
    requires lead == if !hex then "&#" else if upper then "&#X" else "&#x"
    requires StartsAt(s, pos, lead + (Digits(v, hex, upper) + ";"))
    ensures pos + |lead| + |Digits(v, hex, upper)| + 1 <= |s| && s[pos] == '&'
    ensures ReferenceAt(s, pos, e)
      == Some(Reference(pos + |lead| + |Digits(v, hex, upper)| + 1, Encode(Character(v))))
  {
    hide StartsAt, Digits, Encode, Scalar, Character, Value, NumberEnd;
    FirstDigit(v, hex, upper);
    LeadAt(s, pos, lead, Digits(v, hex, upper) + ";");
    NumberRead(s, pos + |lead|, v, hex, upper);
    CharacterIsScalar(v);
  }

  lemma NumberText(v: nat, hex: bool, upper: bool)
    ensures NodeText(Number(v, hex, upper))
      == (if !hex then "&#" else if upper then "&#X" else "&#x") + (Digits(v, hex, upper) + ";")
  {
    hide Digits;
  }

  lemma NumberItem(s: string, pos: nat, v: nat, hex: bool, upper: bool, e: Entities)
    requires StartsAt(s, pos, NodeText(Number(v, hex, upper)))
    ensures Reads(s, pos, Number(v, hex, upper), e)
  {
    hide StartsAt, Digits, Encode, Character, ItemAt, ReferenceAt, NodeText, Reads;
    NumberText(v, hex, upper);
    var lead := if !hex then "&#" else if upper then "&#X" else "&#x";
    var text, meaning := lead + (Digits(v, hex, upper) + ";"), Encode(Character(v));
    NumberAt(s, pos, lead, v, hex, upper, e);
    ReferenceDispatch(s, pos, Reference(pos + |text|, meaning), e);
    Replaced(s, pos, Number(v, hex, upper), text, meaning, e);
  }

  lemma {:induction false} NameRunIs(s: string, pos: nat, end: nat, left: nat)
    requires pos <= end < |s| && end - pos <= left && (forall i | pos <= i < end :: Alpha(s[i]) || Digit(s[i]))
    requires s[end] == ';'
    ensures NameRun(s, pos, left) == end
    decreases end - pos
  {
    if pos < end { NameRunIs(s, pos + 1, end, left - 1); }
  }

  lemma SymbolAt(s: string, pos: nat, name: string, e: Entities)
    requires StartsAt(s, pos, "&" + (name + ";")) && 0 < |name| <= e.maxName && Named(e.table, name + ";").Some?
    requires forall i | 0 <= i < |name| :: Alpha(name[i]) || Digit(name[i])
    ensures pos + |name| + 2 <= |s| && s[pos] == '&'
    ensures ReferenceAt(s, pos, e) == Some(Reference(pos + |name| + 2, Named(e.table, name + ";").value))
  {
    hide StartsAt, Named;
    var p := pos + 1;
    StartsSplit(s, pos, "&", name + ";");
    StartsSplit(s, p, name, ";");
    ByteAt(s, pos, "&", 0);
    ByteAt(s, p + |name|, ";", 0);
    forall i | p <= i < p + |name| ensures s[i] == name[i - p] { ByteAt(s, p, name, i - p); }
    NameRunIs(s, p, p + |name|, e.maxName);
    assert s[p..p + |name| + 1] == name + ";";
  }

  lemma SymbolItem(s: string, pos: nat, name: string, e: Entities)
    requires IsNode(Symbol(name), e) && StartsAt(s, pos, NodeText(Symbol(name)))
    ensures Reads(s, pos, Symbol(name), e)
  {
    hide StartsAt, Named, ItemAt, ReferenceAt, NodeText, Reads;
    SymbolText(name);
    SymbolAt(s, pos, name, e);
    var text, meaning := "&" + (name + ";"), Named(e.table, name + ";").value;
    ReferenceDispatch(s, pos, Reference(pos + |text|, meaning), e);
    Replaced(s, pos, Symbol(name), text, meaning, e);
  }

  lemma SymbolText(name: string)
    ensures NodeText(Symbol(name)) == "&" + (name + ";")
  {
  }

  // ----- documents

  lemma LooseDispatch(s: string, pos: nat, e: Entities)
    requires pos < |s| && IsLoose(s, pos)
    ensures ItemAt(s, pos, e) == Keep
  {
    hide TagEnd, NameEnd, RawEnd, Named;
    if s[pos] == '<' { TagDispatch(s, pos, e); }
  }

  lemma {:induction false} TextPassed(s: string, pos: nat, next: nat, e: Entities)
    requires pos <= next <= |s| && forall i | pos <= i < next :: IsLoose(s, i)
    ensures Stripped(s, pos, e) == s[pos..next] + Stripped(s, next, e)
    decreases next - pos
  {
    hide ItemAt, Stripped, IsLoose;
    if pos == next {
      assert s[pos..next] == "";
    } else {
      LooseDispatch(s, pos, e);
      KeptStripped(s, pos, e);
      TextPassed(s, pos + 1, next, e);
      assert s[pos..next] == [s[pos]] + s[pos + 1..next];
    }
  }

  lemma TextItem(s: string, pos: nat, text: string, e: Entities)
    requires IsNode(Text(text), e) && StartsAt(s, pos, NodeText(Text(text)))
    ensures Reads(s, pos, Text(text), e)
  {
    hide Stripped;
    forall i | pos <= i < pos + |text| ensures s[i] == text[i - pos] { ByteAt(s, pos, text, i - pos); }
    forall i | pos <= i < pos + |text| ensures IsLoose(s, i) { assert IsLoose(text, i - pos); }
    TextPassed(s, pos, pos + |text|, e);
    assert s[pos..pos + |text|] == text;
  }

  /** Anywhere in a text a printed piece is replaced by what it stands for. */
  lemma NodeRead(s: string, pos: nat, n: Node, e: Entities)
    requires IsNode(n, e) && StartsAt(s, pos, NodeText(n))
    ensures Reads(s, pos, n, e)
  {
    hide *;
    match n
    case Text(text) => TextItem(s, pos, text, e);
    case Open(name, list) => OpenItem(s, pos, name, list, e);
    case Close(name) => CloseItem(s, pos, name, e);
    case Raw(name, list, body) => RawItem(s, pos, name, list, body, e);
    case Comment(body) => CommentItem(s, pos, body, e);
    case Declaration(body) => DeclarationItem(s, pos, body, e);
    case Section(body) => SectionItem(s, pos, body, e);
    case Number(v, hex, upper) => NumberItem(s, pos, v, hex, upper, e);
    case Symbol(name) => SymbolItem(s, pos, name, e);
  }

  lemma AllStripped(s: string, e: Entities)
    ensures Stripped(s, |s|, e) == ""
  {
  }

  lemma {:induction false} DocumentFrom(s: string, pos: nat, doc: seq<Node>, e: Entities)
    requires (forall i | 0 <= i < |doc| :: IsNode(doc[i], e)) && StartsAt(s, pos, DocumentText(doc))
    requires pos + |DocumentText(doc)| == |s|
    ensures Stripped(s, pos, e) == DocumentMeaning(doc, e)
    decreases doc
  {
    hide IsNode, StartsAt, NodeText, NodeMeaning, Stripped;
    if doc == [] {
      AllStripped(s, e);
    } else {
      StartsSplit(s, pos, NodeText(doc[0]), DocumentText(doc[1..]));
      NodeRead(s, pos, doc[0], e);
      DocumentFrom(s, pos + |NodeText(doc[0])|, doc[1..], e);
    }
  }

  /** Stripping a printed document leaves the text the document stands for. */
  lemma DocumentStripped(doc: seq<Node>, e: Entities)
    requires forall i | 0 <= i < |doc| :: IsNode(doc[i], e)
    ensures Stripped(DocumentText(doc), 0, e) == DocumentMeaning(doc, e)
  {
    DocumentFrom(DocumentText(doc), 0, doc, e);
  }

  // ----- the bytes of a character

  predicate Latin(r: string) { forall i | 0 <= i < |r| :: r[i] as int < 256 }

  function ByteOf(c: char): (b: Utf8.Byte)
    requires c as int < 256
  {
    (c as int) as bv8
  }

  function BytesOf(r: string): (b: seq<Utf8.Byte>)
    requires Latin(r)
    ensures |b| == |r| && forall i | 0 <= i < |r| :: b[i] == ByteOf(r[i])
  {
    seq(|r|, i requires 0 <= i < |r| => ByteOf(r[i]))
  }

  /** The payload bits of one UTF-8 character, section 3 of RFC 3629. */
  function Payload(r: string): (v: nat) {
    if |r| == 1 then r[0] as int
    else if |r| == 2 then r[0] as int % 32 * 64 + r[1] as int % 64
    else if |r| == 3 then r[0] as int % 16 * 4096 + r[1] as int % 64 * 64 + r[2] as int % 64
    else if |r| == 4 then r[0] as int % 8 * 0x4_0000 + r[1] as int % 64 * 4096 + r[2] as int % 64 * 64 + r[3] as int % 64
    else 0
  }

  /** r is the one character with code point v: well-formed, nothing after it, and
      carrying v. */
  ghost predicate IsUtf8Of(r: string, v: nat) {
    r != "" && Latin(r) && Utf8.CharLength(BytesOf(r)) == |r| && Payload(r) == v
  }

  predicate IsScalar(v: nat) { v < 0xD800 || 0xDFFF < v < 0x11_0000 }

  lemma LeadBytes(x: nat)
    requires x < 256
    ensures (x as bv8 <= 0x7F <==> x <= 0x7F) && (x as bv8 >= 0xC2 <==> x >= 0xC2) && (x as bv8 <= 0xDF <==> x <= 0xDF)
    ensures (x as bv8 == 0xE0 <==> x == 0xE0) && (x as bv8 >= 0xE1 <==> x >= 0xE1) && (x as bv8 <= 0xEC <==> x <= 0xEC)
    ensures (x as bv8 == 0xED <==> x == 0xED) && (x as bv8 >= 0xEE <==> x >= 0xEE) && (x as bv8 <= 0xEF <==> x <= 0xEF)
    ensures (x as bv8 == 0xF0 <==> x == 0xF0) && (x as bv8 >= 0xF1 <==> x >= 0xF1) && (x as bv8 <= 0xF3 <==> x <= 0xF3)
    ensures x as bv8 == 0xF4 <==> x == 0xF4
  {
  }

  lemma TailBytes(x: nat)
    requires x < 256
    ensures (x as bv8 >= 0x80 <==> x >= 0x80) && (x as bv8 <= 0xBF <==> x <= 0xBF) && (x as bv8 >= 0xA0 <==> x >= 0xA0)
    ensures (x as bv8 <= 0x9F <==> x <= 0x9F) && (x as bv8 >= 0x90 <==> x >= 0x90) && (x as bv8 <= 0x8F <==> x <= 0x8F)
  {
  }

  function Chr(x: nat): (c: char)
    requires x < 256
    ensures c as int == x
  {
    x as char
  }

  /** The grammar on the numbers of the bytes. */
  lemma ShapeOne(a: nat)
    requires a < 0x80
    ensures Utf8.CharLength([ByteOf(Chr(a))]) == 1
  {
    LeadBytes(a);
  }

  lemma ShapeTwo(a: nat, b: nat)
    requires 0xC2 <= a <= 0xDF && 0x80 <= b <= 0xBF
    ensures Utf8.CharLength([ByteOf(Chr(a)), ByteOf(Chr(b))]) == 2
  {
    LeadBytes(a);
    TailBytes(b);
  }

  lemma ShapeThree(a: nat, b: nat, c: nat)
    requires 0xE0 <= a <= 0xEF && 0x80 <= b <= 0xBF && 0x80 <= c <= 0xBF
    requires (a == 0xE0 ==> b >= 0xA0) && (a == 0xED ==> b <= 0x9F)
    ensures Utf8.CharLength([ByteOf(Chr(a)), ByteOf(Chr(b)), ByteOf(Chr(c))]) == 3
  {
    LeadBytes(a);
    TailBytes(b);
    TailBytes(c);
  }

  lemma ShapeFour(a: nat, b: nat, c: nat, d: nat)
    requires 0xF0 <= a <= 0xF4 && 0x80 <= b <= 0xBF && 0x80 <= c <= 0xBF && 0x80 <= d <= 0xBF
    requires (a == 0xF0 ==> b >= 0x90) && (a == 0xF4 ==> b <= 0x8F)
    ensures Utf8.CharLength([ByteOf(Chr(a)), ByteOf(Chr(b)), ByteOf(Chr(c)), ByteOf(Chr(d))]) == 4
  {
    LeadBytes(a);
    TailBytes(b);
    TailBytes(c);
    TailBytes(d);
  }

  /** The payload of a lead byte and of the bytes after it. */
  lemma PayloadTwo(a: nat, b: nat)
    requires 0xC2 <= a <= 0xDF && 0x80 <= b <= 0xBF
    ensures Payload([Chr(a), Chr(b)]) == (a - 0xC0) * 64 + (b - 0x80)
  {
    hide Chr;
  }

  lemma PayloadThree(a: nat, b: nat, c: nat)
    requires 0xE0 <= a <= 0xEF && 0x80 <= b <= 0xBF && 0x80 <= c <= 0xBF
    ensures Payload([Chr(a), Chr(b), Chr(c)]) == (a - 0xE0) * 4096 + (b - 0x80) * 64 + (c - 0x80)
  {
    hide Chr;
  }

  lemma PayloadFour(a: nat, b: nat, c: nat, d: nat)
    requires 0xF0 <= a <= 0xF4 && 0x80 <= b <= 0xBF && 0x80 <= c <= 0xBF && 0x80 <= d <= 0xBF
    ensures
      Payload([Chr(a), Chr(b), Chr(c), Chr(d)]) == (a - 0xF0) * 0x4_0000 + (b - 0x80) * 4096 + (c - 0x80) * 64 + (d - 0x80)
  {
    hide Chr;
  }

  lemma EncodeTwo(v: nat)
    requires 0x80 <= v < 0x800
    ensures IsUtf8Of(Encode(v), v)
  {
    var a, b := 0xC0 + v / 64, 0x80 + v % 64;
    assert Encode(v) == [Chr(a), Chr(b)];
    hide Utf8.CharLength, ByteOf, Payload, Encode, Chr;
    ShapeTwo(a, b);
    PayloadTwo(a, b);
    assert BytesOf(Encode(v)) == [ByteOf(Chr(a)), ByteOf(Chr(b))];
  }

  lemma EncodeThree(v: nat)
    requires 0x800 <= v < 0x1_0000 && IsScalar(v)
    ensures IsUtf8Of(Encode(v), v)
  {
    var a, b, c := 0xE0 + v / 4096, 0x80 + v / 64 % 64, 0x80 + v % 64;
    assert Encode(v) == [Chr(a), Chr(b), Chr(c)];
    hide Utf8.CharLength, ByteOf, Payload, Encode, Chr;
    ThreeRanges(v);
    ShapeThree(a, b, c);
    PayloadThree(a, b, c);
    assert BytesOf(Encode(v)) == [ByteOf(Chr(a)), ByteOf(Chr(b)), ByteOf(Chr(c))];
  }

  lemma ThreeRanges(v: nat)
    requires 0x800 <= v < 0x1_0000 && IsScalar(v)
    ensures v / 4096 <= 15 && (v / 4096 == 0 ==> v / 64 % 64 >= 0x20) && (v / 4096 == 13 ==> v / 64 % 64 <= 0x1F)
    ensures v == v / 4096 * 4096 + v / 64 % 64 * 64 + v % 64
  {
    assert v / 64 / 64 == v / 4096;
  }

  lemma EncodeFour(v: nat)
    requires 0x1_0000 <= v < 0x11_0000
    ensures IsUtf8Of(Encode(v), v)
  {
    var a, b, c, d := 0xF0 + v / 0x4_0000, 0x80 + v / 4096 % 64, 0x80 + v / 64 % 64, 0x80 + v % 64;
    assert Encode(v) == [Chr(a), Chr(b), Chr(c), Chr(d)];
    hide Utf8.CharLength, ByteOf, Payload, Encode, Chr;
    FourRanges(v);
    ShapeFour(a, b, c, d);
    PayloadFour(a, b, c, d);
    assert BytesOf(Encode(v)) == [ByteOf(Chr(a)), ByteOf(Chr(b)), ByteOf(Chr(c)), ByteOf(Chr(d))];
  }

  lemma FourRanges(v: nat)
    requires 0x1_0000 <= v < 0x11_0000
    ensures
      && v / 0x4_0000 <= 4 && (v / 0x4_0000 == 0 ==> v / 4096 % 64 >= 0x10)
      && (v / 0x4_0000 == 4 ==> v / 4096 % 64 <= 0xF)
    ensures v == v / 0x4_0000 * 0x4_0000 + v / 4096 % 64 * 4096 + v / 64 % 64 * 64 + v % 64
  {
    assert v / 64 / 64 == v / 4096 && v / 4096 / 64 == v / 0x4_0000;
  }

  /** Every scalar value is encoded as the one character that carries it. */
  lemma EncodeIsUtf8(v: nat)
    requires IsScalar(v)
    ensures IsUtf8Of(Encode(v), v)
  {
    if v < 0x80 {
      assert Encode(v) == [Chr(v)];
      hide Utf8.CharLength, ByteOf, Encode;
      ShapeOne(v);
      assert BytesOf(Encode(v)) == [ByteOf(Chr(v))];
    } else {
      hide IsUtf8Of, Encode;
      if v < 0x800 { EncodeTwo(v); } else if v < 0x1_0000 { EncodeThree(v); } else { EncodeFour(v); }
    }
  }

  lemma OneNode(n: Node, e: Entities)
    ensures DocumentText([n]) == NodeText(n) && DocumentMeaning([n], e) == NodeMeaning(n, e)
  {
    hide NodeText, NodeMeaning;
    assert [n][1..] == [];
    assert DocumentText([]) == "" && DocumentMeaning([], e) == "";
  }

  lemma CharacterIsOne(v: nat)
    ensures IsScalar(Character(v))
  {
  }

  /** A numeric reference yields the bytes of the character it names. */
  lemma NumberIsCharacter(v: nat, hex: bool, upper: bool, e: Entities)
    ensures Stripped(NodeText(Number(v, hex, upper)), 0, e) == Encode(Character(v))
    ensures IsUtf8Of(Encode(Character(v)), Character(v))
  {
    hide Stripped, Encode, NodeText, DocumentText, DocumentMeaning, IsUtf8Of, IsScalar, Character;
    OneNode(Number(v, hex, upper), e);
    DocumentStripped([Number(v, hex, upper)], e);
    CharacterIsOne(v);
    EncodeIsUtf8(Character(v));
  }

  lemma ThreeNodes(before: string, n: Node, after: string, e: Entities)
    ensures DocumentText([Text(before), n, Text(after)]) == before + NodeText(n) + after
    ensures DocumentMeaning([Text(before), n, Text(after)], e) == before + NodeMeaning(n, e) + after
  {
    var doc := [Text(before), n, Text(after)];
    assert NodeText(doc[0]) == before && NodeMeaning(doc[0], e) == before;
    assert NodeText(Text(after)) == after && NodeMeaning(Text(after), e) == after;
    hide NodeText, NodeMeaning;
    assert doc[1..] == [n, Text(after)] && doc[1..][1..] == [Text(after)];
    OneNode(Text(after), e);
    assert DocumentText(doc[1..]) == NodeText(n) + after;
    assert DocumentMeaning(doc[1..], e) == NodeMeaning(n, e) + after;
  }

  /** Text around a piece of markup stays. */
  lemma TextAroundKept(before: string, n: Node, after: string, e: Entities)
    requires IsNode(n, e) && IsNode(Text(before), e) && IsNode(Text(after), e)
    ensures Stripped(before + NodeText(n) + after, 0, e) == before + NodeMeaning(n, e) + after
  {
    hide *;
    var doc := [Text(before), n, Text(after)];
    ThreeNodes(before, n, after, e);
    assert forall i | 0 <= i < |doc| :: IsNode(doc[i], e);
    DocumentStripped(doc, e);
  }

  lemma TagNode(name: string, closing: bool, e: Entities)
    requires IsName(name) && (!closing ==> !IsRawName(name))
    ensures
      var tag := if closing then Close(name) else Open(name, []);
      && IsNode(tag, e) && NodeText(tag) == (if closing then "</" else "<") + name + ">"
      && NodeMeaning(tag, e) == Separator(name)
  {
    hide Lowered;
    assert AttributesText([]) == "";
    if !closing { assert "<" + name + "" + ">" == "<" + name + ">"; }
  }

  /** A tag leaves nothing if its name is that of an inline element, in any case, and
      a line break otherwise; the text around it stays. */
  lemma TagSeparates(before: string, name: string, after: string, closing: bool, e: Entities)
    requires IsName(name) && (!closing ==> !IsRawName(name))
    requires IsNode(Text(before), e) && IsNode(Text(after), e)
    ensures Stripped(before + ((if closing then "</" else "<") + name + ">") + after, 0, e)
      == before + (if Lowered(name) in INLINE then "" else "\n") + after
  {
    TagNode(name, closing, e);
    hide Stripped, NodeText, NodeMeaning, IsNode, Lowered, IsName;
    TextAroundKept(before, if closing then Close(name) else Open(name, []), after, e);
  }
}
