/** What each rule of the Krovetz stemmer means: an ordered list of rewritings
    to look up, and the form left when the dictionary knows none of them. */
module KStemRules {

  // ----- the dictionary

  /** Known words: stems of themselves, exceptions to some rewritings, or words
      with a given root. */
  datatype Entry = Plain | Exception | Mapped(root: string)

  type Dict = map<string, Entry>

  /** What a lookup found. */
  datatype Hit = Missing | Hit(key: string, entry: Entry)

  function Find(d: Dict, w: string): (h: Hit) {
    if w in d then Hit(w, d[w]) else Missing
  }

  /** The stem a found word stands for; empty when it is the word itself. */
  function Root(h: Hit): (r: string)
    requires h.Hit?
  {
    match h.entry
    case Plain => ""
    case Exception => h.key
    case Mapped(root) => root
  }

  predicate Letter(c: char) { 'a' <= c <= 'z' }

  predicate Letters(w: string) { forall i | 0 <= i < |w| :: Letter(w[i]) }

  // ----- words

  /** A proper suffix. */
  predicate Ends(w: string, suffix: string) {
    |suffix| < |w| && w[|w| - |suffix|..] == suffix
  }

  /** The letter n places before the end is c. */
  predicate At(w: string, n: nat, c: char) {
    0 < n <= |w| && w[|w| - n] == c
  }

  lemma EndsLast(w: string, suffix: string)
    requires suffix != ""
    ensures Ends(w, suffix) ==> At(w, 1, suffix[|suffix| - 1])
  {
  }

  lemma EndsDrop(w: string, suffix: string, n: nat)
    requires Ends(w, suffix) && n <= |suffix|
    ensures w[|w| - |suffix| + n..] == suffix[n..]
  {
  }

  lemma EndsTail(w: string, suffix: string, shorter: string)
    requires Ends("-" + suffix, shorter)
    ensures Ends(w, suffix) ==> Ends(w, shorter)
  {
    if Ends(w, suffix) {
      assert w[|w| - |suffix|..][|suffix| - |shorter|..] == w[|w| - |shorter|..];
      assert ("-" + suffix)[1 + |suffix| - |shorter|..] == suffix[|suffix| - |shorter|..];
    }
  }

  predicate Consonant(w: string, i: nat)
    requires i < |w|
  {
    var c := w[i];
    if c == 'a' || c == 'e' || c == 'i' || c == 'o' || c == 'u' then false
    else if c != 'y' || i == 0 then true
    else !Consonant(w, i - 1)
  }

  /** Letters n and n+1 from the end are the same consonant. */
  predicate Doubled(w: string, n: nat) {
    0 < n < |w| && w[|w| - n] == w[|w| - n - 1] && Consonant(w, |w| - n)
  }

  /** A vowel before the last n letters. */
  predicate Vowel(w: string, n: nat) {
    exists i | 0 <= i < |w| - n :: !Consonant(w, i)
  }

  lemma {:induction false} ConsonantPrefix(a: string, b: string, i: nat)
    requires i < |a| && i < |b| && forall k | 0 <= k <= i :: a[k] == b[k]
    ensures Consonant(a, i) == Consonant(b, i)
    decreases i
  {
    if i > 0 { ConsonantPrefix(a, b, i - 1); }
  }

  // ----- rewritings

  /** Drops the last letters and adds others. */
  datatype Change = Change(drop: nat, add: string)

  function Applied(w: string, c: Change): (r: string)
    requires c.drop <= |w|
    ensures |r| == |w| - c.drop + |c.add|
    ensures c.add == "" ==> r == w[..|w| - c.drop]
    ensures c == Change(0, "") ==> r == w
  {
    w[..|w| - c.drop] + c.add
  }

  /** The word a rule leaves, and the dictionary entry that ended it. */
  datatype Outcome = Outcome(word: string, hit: Hit)

  /** Looks a rewriting up; the rest of the rule counts only if it is unknown. */
  function Attempt(d: Dict, w: string, c: Change, rest: Outcome): (o: Outcome)
    requires c.drop <= |w|
  {
    var t := Applied(w, c);
    if Find(d, t).Hit? then Outcome(t, Find(d, t)) else rest
  }

  /** As Attempt, but exceptions do not count. */
  function AttemptRegular(d: Dict, w: string, c: Change, rest: Outcome): (o: Outcome)
    requires c.drop <= |w|
  {
    var t := Applied(w, c);
    if Find(d, t).Hit? && !Find(d, t).entry.Exception? then Outcome(t, Find(d, t)) else rest
  }

  function Leave(w: string, c: Change): (o: Outcome)
    requires c.drop <= |w|
  {
    Outcome(Applied(w, c), Missing)
  }

  /** Looks up the form it leaves. */
  function Settle(d: Dict, w: string, c: Change): (o: Outcome)
    requires c.drop <= |w|
  {
    Outcome(Applied(w, c), Find(d, Applied(w, c)))
  }

  /** A hit is the entry of the word, and a miss never grows or empties it. */
  ghost predicate Sound(d: Dict, w: string, o: Outcome) {
    && (o.hit.Hit? ==> o.hit == Find(d, o.word))
    && (o.hit.Missing? ==> 1 <= |o.word| <= |w|)
  }

  /** A miss gives the word back. */
  ghost predicate Restores(w: string, o: Outcome) {
    o.hit.Missing? ==> o.word == w
  }

  // ----- the rules, in the order they run

  function Same(w: string): (o: Outcome) { Outcome(w, Missing) }

  function Plural(d: Dict, w: string): (o: Outcome)
    requires w != ""
    ensures Sound(d, w, o)
  {
    if Ends(w, "ies") then Attempt(d, w, Change(1, ""), Settle(d, w, Change(3, "y")))
    else if Ends(w, "es") then
      if |w| > 3 && !(At(w, 3, 's') && At(w, 4, 's'))
      then Attempt(d, w, Change(1, ""), Attempt(d, w, Change(2, ""), Leave(w, Change(2, "e"))))
      else Attempt(d, w, Change(2, ""), Settle(d, w, Change(2, "e")))
    else if At(w, 1, 's') && |w| > 3 && !At(w, 2, 's') && !Ends(w, "ous") then Settle(d, w, Change(1, ""))
    else Same(w)
  }

  /** What is left of a word in -ed when neither -e nor nothing in its place is
      known. */
  function PastTail(d: Dict, w: string): (o: Outcome)
    requires |w| > 4
    ensures Sound(d, w, o)
  {
    if Doubled(w, 3) then Attempt(d, w, Change(3, ""), Leave(w, Change(2, "")))
    else if w[0] == 'u' && w[1] == 'n' then Same(w)
    else Leave(w, Change(2, "e"))
  }

  function PastTense(d: Dict, w: string): (o: Outcome)
    requires w != ""
    ensures Sound(d, w, o)
  {
    if |w| <= 4 then Same(w)
    else if Ends(w, "ied") then Attempt(d, w, Change(1, ""), Settle(d, w, Change(3, "y")))
    else if Ends(w, "ed") && Vowel(w, 2) then
      AttemptRegular(d, w, Change(1, ""), Attempt(d, w, Change(2, ""), PastTail(d, w)))
    else Same(w)
  }

  /** What is left of a word in -ing when neither -e nor nothing in its place is
      known. */
  function AspectTail(d: Dict, w: string): (o: Outcome)
    requires |w| > 5
    ensures Sound(d, w, o)
  {
    if Doubled(w, 4) then Attempt(d, w, Change(4, ""), Leave(w, Change(3, "")))
    else if Consonant(w, |w| - 4) && Consonant(w, |w| - 5) then Leave(w, Change(3, ""))
    else Leave(w, Change(3, "e"))
  }

  function Aspect(d: Dict, w: string): (o: Outcome)
    requires w != ""
    ensures Sound(d, w, o)
  {
    if |w| > 5 && Ends(w, "ing") && Vowel(w, 3) then
      AttemptRegular(d, w, Change(3, "e"), Attempt(d, w, Change(3, ""), AspectTail(d, w)))
    else Same(w)
  }

  /** -ility to -ible, -ivity to -ive, -ality to -al, or the word itself. */
  function ItyTail(d: Dict, w: string): (o: Outcome)
    requires |w| > 3
    ensures Sound(d, w, o)
  {
    if At(w, 5, 'i') && At(w, 4, 'l') then Settle(d, w, Change(5, "le"))
    else if At(w, 5, 'i') && At(w, 4, 'v') then Leave(w, Change(3, "e"))
    else if At(w, 5, 'a') && At(w, 4, 'l') then Leave(w, Change(3, ""))
    else Attempt(d, w, Change(0, ""), Leave(w, Change(3, "")))
  }

  function Ity(d: Dict, w: string): (o: Outcome)
    requires w != ""
    ensures Sound(d, w, o)
  {
    if Ends(w, "ity") then Attempt(d, w, Change(3, ""), Attempt(d, w, Change(3, "e"), ItyTail(d, w)))
    else Same(w)
  }

  function Ness(d: Dict, w: string): (o: Outcome)
    requires w != ""
    ensures Sound(d, w, o)
  {
    if Ends(w, "ness") then Settle(d, w, if At(w, 5, 'i') then Change(5, "y") else Change(4, ""))
    else Same(w)
  }

  /** -ion itself, after -ication. */
  function IonTail(d: Dict, w: string): (o: Outcome)
    requires Ends(w, "ion")
    ensures Sound(d, w, o) && Restores(w, o)
  {
    var bare := Attempt(d, w, Change(3, "e"), Attempt(d, w, Change(3, ""), Same(w)));
    if Ends(w, "ication") then Attempt(d, w, Change(7, "y"), bare) else bare
  }

  /** -ition and -ation first. */
  function IonMiddle(d: Dict, w: string): (o: Outcome)
    requires Ends(w, "ion")
    ensures Sound(d, w, o) && Restores(w, o)
  {
    if Ends(w, "ition") then Attempt(d, w, Change(5, "e"), IonTail(d, w))
    else if Ends(w, "ation") then
      Attempt(d, w, Change(3, "e"), Attempt(d, w, Change(5, "e"), Attempt(d, w, Change(5, ""), IonTail(d, w))))
    else IonTail(d, w)
  }

  function Ion(d: Dict, w: string): (o: Outcome)
    requires w != ""
    ensures Sound(d, w, o) && (!Ends(w, "ization") ==> Restores(w, o))
  {
    if !Ends(w, "ion") then Same(w)
    else if Ends(w, "ization") then Settle(d, w, Change(5, "e"))
    else IonMiddle(d, w)
  }

  /** The last tries for -er and -or. Trying -y for -ier or -ior leaves an e
      before the r. */
  function ErTail(d: Dict, w: string): (o: Outcome)
    requires |w| > 2
    ensures Sound(d, w, o) && Restores(w, o)
  {
    Attempt(d, w, Change(2, [if At(w, 3, 'i') then 'e' else w[|w| - 2]]),
      Attempt(d, w, Change(2, ""), Attempt(d, w, Change(2, "e"), Same(w))))
  }

  /** -ier and -eer first. */
  function ErMiddle(d: Dict, w: string): (o: Outcome)
    requires |w| > 2
    ensures Sound(d, w, o) && Restores(w, o)
  {
    if At(w, 3, 'i') then Attempt(d, w, Change(3, "y"), ErTail(d, w))
    else if At(w, 3, 'e') then Attempt(d, w, Change(3, ""), ErTail(d, w))
    else ErTail(d, w)
  }

  function ErAndOr(d: Dict, w: string): (o: Outcome)
    requires w != ""
    ensures Sound(d, w, o) && (!Ends(w, "izer") ==> Restores(w, o))
  {
    if Ends(w, "izer") then Settle(d, w, Change(1, ""))
    else if Ends(w, "er") || Ends(w, "or") then
      if Doubled(w, 3) then Attempt(d, w, Change(3, ""), ErMiddle(d, w)) else ErMiddle(d, w)
    else Same(w)
  }

  /** -ably, and -ily to -y. */
  function LyTail(d: Dict, w: string): (o: Outcome)
    requires |w| > 2
    ensures Sound(d, w, o)
  {
    if At(w, 4, 'a') && At(w, 3, 'b') then Leave(w, Change(1, "e"))
    else if At(w, 3, 'i') then Attempt(d, w, Change(3, "y"), Leave(w, Change(2, "")))
    else Leave(w, Change(2, ""))
  }

  function Ly(d: Dict, w: string): (o: Outcome)
    requires w != ""
    ensures Sound(d, w, o)
  {
    if Ends(w, "ly") then
      Attempt(d, w, Change(1, "e"), Attempt(d, w, Change(2, ""),
        if At(w, 4, 'a') && At(w, 3, 'l') then Leave(w, Change(2, ""))
        else LyTail(d, w)))
    else Same(w)
  }

  /** -ical and -ial. */
  function AlTail(d: Dict, w: string): (o: Outcome)
    requires |w| >= 4
    ensures Sound(d, w, o)
  {
    if At(w, 4, 'i') && At(w, 3, 'c')
    then Attempt(d, w, Change(4, ""), Attempt(d, w, Change(4, "y"), Settle(d, w, Change(4, "ic"))))
    else if At(w, 3, 'i') then Attempt(d, w, Change(3, ""), Settle(d, w, Change(0, "")))
    else Same(w)
  }

  /** -al to -e and -um, then -ical and -ial. */
  function AlMiddle(d: Dict, w: string): (o: Outcome)
    requires |w| >= 4
    ensures Sound(d, w, o)
  {
    Attempt(d, w, Change(2, "e"), Attempt(d, w, Change(2, "um"), AlTail(d, w)))
  }

  function Al(d: Dict, w: string): (o: Outcome)
    requires w != ""
    ensures Sound(d, w, o)
  {
    if |w| >= 4 && Ends(w, "al") then
      Attempt(d, w, Change(2, ""),
        if Doubled(w, 3) then Attempt(d, w, Change(3, ""), AlMiddle(d, w)) else AlMiddle(d, w))
    else Same(w)
  }

  /** -ative, and -ive to -ion. */
  function IveTail(d: Dict, w: string): (o: Outcome)
    requires Ends(w, "ive")
    ensures Sound(d, w, o) && Restores(w, o)
  {
    var ion := Attempt(d, w, Change(2, "on"), Same(w));
    if At(w, 5, 'a') && At(w, 4, 't') then Attempt(d, w, Change(5, "e"), Attempt(d, w, Change(5, ""), ion))
    else ion
  }

  /** With the regular lookup between -al and -ive. A hit there would be dropped
      for a word in -ive, but no run reaches one: see LookupAfterAlIsIdle. */
  function Ive(d: Dict, w: string): (o: Outcome)
    requires w != ""
    ensures Sound(d, w, o) && Restores(w, o)
  {
    if Ends(w, "ive") then Attempt(d, w, Change(3, ""), Attempt(d, w, Change(3, "e"), IveTail(d, w)))
    else AttemptRegular(d, w, Change(0, ""), Same(w))
  }

  function Ize(d: Dict, w: string): (o: Outcome)
    requires w != ""
    ensures Sound(d, w, o) && Restores(w, o)
  {
    if Ends(w, "ize") then
      var e := Attempt(d, w, Change(3, "e"), Same(w));
      Attempt(d, w, Change(3, ""), if Doubled(w, 4) then Attempt(d, w, Change(4, ""), e) else e)
    else Same(w)
  }

  function Ment(d: Dict, w: string): (o: Outcome)
    requires w != ""
    ensures Sound(d, w, o) && Restores(w, o)
  {
    if Ends(w, "ment") then Attempt(d, w, Change(4, ""), Same(w)) else Same(w)
  }

  function BleTail(d: Dict, w: string): (o: Outcome)
    requires |w| >= 4
    ensures Sound(d, w, o) && Restores(w, o)
  {
    Attempt(d, w, Change(4, "e"), Attempt(d, w, Change(4, "ate"), Same(w)))
  }

  function Ble(d: Dict, w: string): (o: Outcome)
    requires w != ""
    ensures Sound(d, w, o) && Restores(w, o)
  {
    if Ends(w, "ble") && (At(w, 4, 'a') || At(w, 4, 'i')) then
      Attempt(d, w, Change(4, ""),
        if Doubled(w, 5) then Attempt(d, w, Change(5, ""), BleTail(d, w)) else BleTail(d, w))
    else Same(w)
  }

  function Ism(d: Dict, w: string): (o: Outcome)
    requires w != ""
    ensures Sound(d, w, o)
  {
    if Ends(w, "ism") then Settle(d, w, Change(3, "")) else Same(w)
  }

  /** The one rule that also tries a longer word. */
  function Ic(d: Dict, w: string): (o: Outcome)
    requires w != ""
    ensures Sound(d, w, o) && Restores(w, o)
  {
    if Ends(w, "ic") then
      Attempt(d, w, Change(0, "al"), Attempt(d, w, Change(2, "y"),
        Attempt(d, w, Change(2, "e"), Attempt(d, w, Change(2, ""), Same(w)))))
    else Same(w)
  }

  function Ncy(d: Dict, w: string): (o: Outcome)
    requires w != ""
    ensures Sound(d, w, o)
  {
    if Ends(w, "ncy") && (At(w, 4, 'e') || At(w, 4, 'a'))
    then Attempt(d, w, Change(2, "t"), Settle(d, w, Change(2, "ce")))
    else Same(w)
  }

  function Nce(d: Dict, w: string): (o: Outcome)
    requires w != ""
    ensures Sound(d, w, o) && Restores(w, o)
  {
    if Ends(w, "nce") && (At(w, 4, 'e') || At(w, 4, 'a'))
    then Attempt(d, w, Change(4, "e"), Attempt(d, w, Change(4, ""), Same(w)))
    else Same(w)
  }

  // ----- the whole chain

  const RULES := 17

  /** Rule i. */
  function Step(d: Dict, w: string, i: nat): (o: Outcome)
    requires w != "" && i < RULES
    ensures Sound(d, w, o)
  {
    if i == 0 then Plural(d, w)
    else if i == 1 then PastTense(d, w)
    else if i == 2 then Aspect(d, w)
    else if i == 3 then Ity(d, w)
    else if i == 4 then Ness(d, w)
    else if i == 5 then Ion(d, w)
    else if i == 6 then ErAndOr(d, w)
    else if i == 7 then Ly(d, w)
    else if i == 8 then Al(d, w)
    else if i == 9 then Ive(d, w)
    else if i == 10 then Ize(d, w)
    else if i == 11 then Ment(d, w)
    else if i == 12 then Ble(d, w)
    else if i == 13 then Ism(d, w)
    else if i == 14 then Ic(d, w)
    else if i == 15 then Ncy(d, w)
    else Nce(d, w)
  }

  /** Rules i and later: the first hit ends the run. */
  function From(d: Dict, w: string, i: nat): (o: Outcome)
    requires w != "" && i <= RULES
    ensures Sound(d, w, o)
    decreases RULES - i, w
  {
    if i == RULES then Same(w)
    else
      var o := Step(d, w, i);
      if o.hit.Hit? then o else From(d, o.word, i + 1)
  }

  // ----- the lookup between -al and -ive

  /** The dictionary has the word, if at all, as an exception. */
  predicate NotRegular(d: Dict, w: string) { w in d ==> d[w].Exception? }

  /** A rule that ends without a match leaves a word of that kind. */
  ghost predicate LeavesNotRegular(d: Dict, o: Outcome) {
    o.hit.Missing? ==> NotRegular(d, o.word)
  }

  /** Dropping the last letter of a word in -es or -ed leaves the e. */
  lemma DropAfterE(w: string, suffix: string)
    requires Ends(w, suffix) && |suffix| == 2 && suffix[0] == 'e'
    ensures Applied(w, Change(2, "e")) == Applied(w, Change(1, ""))
  {
    assert w[|w| - 2..][0] == 'e';
  }

  lemma InflectionsLeaveNotRegular(d: Dict, w: string)
    requires w != "" && NotRegular(d, w)
    ensures LeavesNotRegular(d, Plural(d, w))
    ensures LeavesNotRegular(d, PastTense(d, w))
    ensures LeavesNotRegular(d, Aspect(d, w))
  {
    hide Ends, Applied, At, Doubled, Vowel, Consonant;
    if Ends(w, "es") { DropAfterE(w, "es"); }
    if Ends(w, "ed") { DropAfterE(w, "ed"); }
  }

  lemma NounsLeaveNotRegular(d: Dict, w: string)
    requires w != "" && NotRegular(d, w)
    ensures LeavesNotRegular(d, Ity(d, w)) && LeavesNotRegular(d, Ness(d, w))
    ensures LeavesNotRegular(d, Ion(d, w)) && LeavesNotRegular(d, ErAndOr(d, w))
  {
    hide Ends, Applied, At, Doubled, IonMiddle, ErMiddle;
  }

  lemma AdverbsLeaveNotRegular(d: Dict, w: string)
    requires w != "" && NotRegular(d, w)
    ensures LeavesNotRegular(d, Ly(d, w)) && LeavesNotRegular(d, Al(d, w))
  {
    hide Ends, Applied, At, Doubled;
  }

  /** What rules 0 to i - 1 make of a word. */
  function Upto(d: Dict, w: string, i: nat): (o: Outcome)
    requires w != "" && i <= RULES
    ensures Sound(d, w, o)
    decreases i, w
  {
    if i == 0 then Same(w)
    else
      var o := Upto(d, w, i - 1);
      if o.hit.Hit? then o else Step(d, o.word, i - 1)
  }

  /** The chain is its first rules, then the rest from where they stopped. */
  lemma {:induction false} ChainSplits(d: Dict, w: string, i: nat)
    requires w != "" && i <= RULES
    ensures
      var o := Upto(d, w, i);
      From(d, w, 0) == if o.hit.Hit? then o else From(d, o.word, i)
  {
    hide Step;
    if i > 0 { ChainSplits(d, w, i - 1); }
  }

  lemma StepLeavesNotRegular(d: Dict, w: string, i: nat)
    requires w != "" && NotRegular(d, w) && i < 9
    ensures LeavesNotRegular(d, Step(d, w, i))
  {
    hide LeavesNotRegular, Plural, PastTense, Aspect, Ity, Ness, Ion, ErAndOr, Ly, Al;
    InflectionsLeaveNotRegular(d, w);
    NounsLeaveNotRegular(d, w);
    AdverbsLeaveNotRegular(d, w);
  }

  lemma {:induction false} ReachedNotRegular(d: Dict, term: string, i: nat)
    requires term != "" && term !in d && i <= 9
    ensures LeavesNotRegular(d, Upto(d, term, i))
  {
    hide Step;
    if i > 0 {
      ReachedNotRegular(d, term, i - 1);
      var o := Upto(d, term, i - 1);
      if o.hit.Missing? { StepLeavesNotRegular(d, o.word, i - 1); }
    }
  }

  /** -ive without the lookup before it. */
  function IveAlone(d: Dict, w: string): (o: Outcome)
    requires w != ""
    ensures Sound(d, w, o) && Restores(w, o)
  {
    if Ends(w, "ive") then Ive(d, w) else Same(w)
  }

  /** On every run from an unknown term the lookup between -al and -ive finds
      nothing, so the rule is -ive alone. */
  lemma LookupAfterAlIsIdle(d: Dict, term: string)
    requires term != "" && term !in d && Upto(d, term, 9).hit.Missing?
    ensures
      var w := Upto(d, term, 9).word;
      AttemptRegular(d, w, Change(0, ""), Same(w)) == Same(w) && Step(d, w, 9) == IveAlone(d, w)
  {
    hide Upto, Ive, AttemptRegular, IveAlone;
    ReachedNotRegular(d, term, 9);
    IdleLookup(d, Upto(d, term, 9).word);
  }

  lemma IdleLookup(d: Dict, w: string)
    requires w != "" && NotRegular(d, w)
    ensures AttemptRegular(d, w, Change(0, ""), Same(w)) == Same(w) && Ive(d, w) == IveAlone(d, w)
  {
    hide Ends, IveTail;
  }

  /** Leaving that lookup out would change no stem. */
  lemma ChainWithoutLookup(d: Dict, term: string)
    requires term != "" && term !in d
    ensures
      var o := Upto(d, term, 9);
      From(d, term, 0) ==
      if o.hit.Hit? then o
      else
        var p := IveAlone(d, o.word);
        if p.hit.Hit? then p else From(d, p.word, 10)
  {
    hide Upto, Step, IveAlone, AttemptRegular;
    ChainSplits(d, term, 9);
    if Upto(d, term, 9).hit.Missing? { LookupAfterAlIsIdle(d, term); }
  }

  // ----- the letter that -ior loses

  /** A dictionary with one word. */
  function Only(known: string, e: Entry): (d: Dict) { map[known := e] }

  lemma OnlyFinds(known: string, e: Entry, t: string)
    ensures Find(Only(known, e), t).Hit? <==> t == known
  {
  }

  /** The forms that keep the stem and change the two letters -er or -or. */
  lemma TailFindsIff(w: string, e: Entry)
    requires Ends(w, "er") || Ends(w, "or")
    ensures ErTail(Only(w[..|w| - 1], e), w).hit.Hit? <==> !(w[|w| - 2] == 'o' && At(w, 3, 'i'))
  {
    var known, n := w[..|w| - 1], |w|;
    assert w[n - 2..][0] == w[n - 2] && w[n - 2..][1] == w[n - 1];
    var c := if At(w, 3, 'i') then 'e' else w[n - 2];
    assert Applied(w, Change(2, [w[n - 2]])) == known;
    assert Applied(w, Change(2, [c]))[n - 2] == c && Applied(w, Change(2, "e"))[n - 2] == 'e';
    assert known[n - 2] == w[n - 2];
    hide Only, Find, At, Ends, Applied;
    OnlyFinds(known, e, Applied(w, Change(2, [c])));
    OnlyFinds(known, e, Applied(w, Change(2, "")));
    OnlyFinds(known, e, Applied(w, Change(2, "e")));
  }

  /** Shorter forms are not found. */
  lemma MiddleFindsIff(w: string, e: Entry)
    requires Ends(w, "er") || Ends(w, "or")
    ensures ErMiddle(Only(w[..|w| - 1], e), w).hit.Hit? <==> !(w[|w| - 2] == 'o' && At(w, 3, 'i'))
  {
    TailFindsIff(w, e);
    assert |w| > 2;
    hide Only, Find, Ends, Applied, ErTail;
    OnlyFinds(w[..|w| - 1], e, Applied(w, Change(3, "y")));
    OnlyFinds(w[..|w| - 1], e, Applied(w, Change(3, "")));
  }

  /** With only w less its r known, -er and -or find it, except after -ior, where
      the o has become an e by then. */
  lemma DroppedRFoundIff(w: string, e: Entry)
    requires Ends(w, "er") || Ends(w, "or")
    ensures ErAndOr(map[w[..|w| - 1] := e], w).hit.Hit? <==> !(Ends(w, "or") && At(w, 3, 'i'))
  {
    var known := w[..|w| - 1];
    MiddleFindsIff(w, e);
    SecondLast(w);
    assert map[known := e] == Only(known, e);
    hide Only, Find, Applied, ErMiddle, Doubled, At, Ends;
    OnlyFinds(known, e, Applied(w, Change(1, "")));
    OnlyFinds(known, e, Applied(w, Change(3, "")));
  }

  lemma SecondLast(w: string)
    requires Ends(w, "er") || Ends(w, "or")
    ensures |w| > 2 && (Ends(w, "or") <==> w[|w| - 2] == 'o') && (Ends(w, "izer") ==> w[|w| - 2] == 'e')
  {
    var n := |w|;
    assert w[n - 2..][0] == w[n - 2];
    if Ends(w, "izer") { assert w[n - 4..][2] == w[n - 2]; }
  }

  /** "warrior" with only "warrio" known is left as it is. */
  lemma WarriorIsLeft(e: Entry)
    ensures ErAndOr(map["warrio" := e], "warrior") == Same("warrior")
  {
    var w := "warrior";
    assert w[..6] == "warrio" && w[5..] == "or";
    DroppedRFoundIff(w, e);
  }

  /** The stem of a word the dictionary does not hold. */
  function UnknownStem(d: Dict, term: string): (r: string)
    requires term != ""
  {
    if !Letters(term) then term
    else
      var o := From(d, term, 0);
      if o.hit.Hit? && Root(o.hit) != "" then Root(o.hit) else o.word
  }

  function KnownStem(h: Hit): (r: string)
    requires h.Hit?
  {
    if Root(h) == "" then h.key else Root(h)
  }

  /** The stem of a term: the dictionary first, then the rules. */
  function Stem(d: Dict, term: string): (r: string) {
    if |term| < 3 || |term| >= 50 then term
    else if Find(d, term).Hit? then KnownStem(Find(d, term))
    else UnknownStem(d, term)
  }

  // ----- the suffix screen

  const ENDINGS: seq<string> := [
    "s", "ed", "ing", "ity", "ion", "er", "or", "ly", "al",
    "ive", "ize", "ment", "ble", "ism", "ic", "ncy", "nce"]

  /** Letter n from the end agrees. */
  predicate SameLast(term: string, ending: string, n: nat) {
    0 < n <= |term| && n <= |ending| && term[|term| - n] == ending[|ending| - n]
  }

  /** The last letters of an ending, three at most, end the term. */
  predicate Matches(term: string, ending: string) {
    && SameLast(term, ending, 1)
    && (|ending| >= 2 ==> SameLast(term, ending, 2))
    && (|ending| >= 3 ==> SameLast(term, ending, 3))
  }

  /** The term may have a rule or a mapping for it. */
  predicate Passes(term: string, mapped: seq<string>) {
    || (exists i | 0 <= i < |ENDINGS| :: Matches(term, ENDINGS[i]))
    || (exists i | 0 <= i < |mapped| :: Matches(term, mapped[i]))
  }

  lemma EndsMatches(w: string, suffix: string)
    requires suffix != ""
    ensures Ends(w, suffix) ==> Matches(w, suffix)
  {
    if Ends(w, suffix) {
      var start := |w| - |suffix|;
      assert forall i | 0 <= i < |suffix| :: w[start..][i] == w[start + i];
      assert w[start..][|suffix| - 1] == suffix[|suffix| - 1];
      if |suffix| >= 2 { assert w[start..][|suffix| - 2] == suffix[|suffix| - 2]; }
      if |suffix| >= 3 { assert w[start..][|suffix| - 3] == suffix[|suffix| - 3]; }
    }
  }

  /** Held back by the screen: no rule's ending. */
  ghost predicate NoRule(w: string) {
    && !At(w, 1, 's') && !Ends(w, "ed") && !Ends(w, "ing") && !Ends(w, "ity") && !Ends(w, "ion")
    && !Ends(w, "er") && !Ends(w, "or") && !Ends(w, "ly") && !Ends(w, "al") && !Ends(w, "ive") && !Ends(w, "ize")
    && !Ends(w, "ment") && !Ends(w, "ble") && !Ends(w, "ism") && !Ends(w, "ic") && !Ends(w, "ncy") && !Ends(w, "nce")
  }

  lemma NoEnding(w: string, mapped: seq<string>, i: nat)
    requires !Passes(w, mapped) && i < |ENDINGS|
    ensures ENDINGS[i] != "" && !Matches(w, ENDINGS[i]) && !Ends(w, ENDINGS[i])
  {
    EndsMatches(w, ENDINGS[i]);
  }

  lemma ScreenMeansNoRule(w: string, mapped: seq<string>)
    requires !Passes(w, mapped)
    ensures NoRule(w)
  {
    hide Ends, Passes;
    forall i: nat | i < |ENDINGS| ensures !Matches(w, ENDINGS[i]) && !Ends(w, ENDINGS[i]) {
      NoEnding(w, mapped, i);
    }
    assert !Matches(w, ENDINGS[0]);
    assert !Ends(w, ENDINGS[1]) && !Ends(w, ENDINGS[2]) && !Ends(w, ENDINGS[3]) && !Ends(w, ENDINGS[4]);
    assert !Ends(w, ENDINGS[5]) && !Ends(w, ENDINGS[6]) && !Ends(w, ENDINGS[7]) && !Ends(w, ENDINGS[8]);
    assert !Ends(w, ENDINGS[9]) && !Ends(w, ENDINGS[10]) && !Ends(w, ENDINGS[11]) && !Ends(w, ENDINGS[12]);
    assert !Ends(w, ENDINGS[13]) && !Ends(w, ENDINGS[14]) && !Ends(w, ENDINGS[15]) && !Ends(w, ENDINGS[16]);
  }

  lemma IdleStep(d: Dict, w: string, i: nat)
    requires w != "" && i < RULES && NoRule(w) && w !in d
    ensures Step(d, w, i) == Same(w)
  {
    hide Ends;
    EndsLast(w, "ies");
    EndsLast(w, "es");
    EndsLast(w, "ness");
    EndsTail(w, "ied", "ed");
    EndsTail(w, "izer", "er");
  }

  lemma {:induction false} IdleChain(d: Dict, w: string, i: nat)
    requires w != "" && i <= RULES && NoRule(w) && w !in d
    ensures From(d, w, i) == Same(w)
    decreases RULES - i
  {
    if i < RULES {
      IdleStep(d, w, i);
      IdleChain(d, w, i + 1);
    }
  }

  /** Keys are words, mapped words have roots, and the endings of mapped words
      are listed. */
  ghost predicate DictOk(d: Dict, mapped: seq<string>) {
    forall w | w in d ::
      && w != "" && Letters(w)
      && (d[w].Mapped? ==> d[w].root != "" && (|w| >= 3 ==> exists i | 0 <= i < |mapped| :: Matches(w, mapped[i])))
  }

  /** A term the screen rejects is its own stem. */
  lemma ScreenProvesIdentity(d: Dict, mapped: seq<string>, term: string)
    requires DictOk(d, mapped) && !Passes(term, mapped)
    ensures Stem(d, term) == term
  {
    hide Matches, NoRule;
    if 3 <= |term| && term !in d {
      ScreenMeansNoRule(term, mapped);
      IdleChain(d, term, 0);
    }
  }
}
