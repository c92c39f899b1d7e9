/** The rules of the stemmer on a stem and its ending: for every stem and every
    dictionary, the forms a rule looks up in order and the form it leaves when none is
    known. */
module KStemForms {
  import opened KStemRules

  /** t if the dictionary has it, else the rest. */
  function Or(d: Dict, t: string, rest: Outcome): (o: Outcome) {
    if t in d then Outcome(t, Hit(t, d[t])) else rest
  }

  /** As Or, but an exception does not count. */
  function OrRegular(d: Dict, t: string, rest: Outcome): (o: Outcome) {
    if t in d && !d[t].Exception? then Outcome(t, Hit(t, d[t])) else rest
  }

  /** t, known or not. */
  function Last(d: Dict, t: string): (o: Outcome) { Or(d, t, Same(t)) }

  /** A word without its last letter or its last two. */
  function Short(s: string): (r: string) { if s == "" then "" else s[..|s| - 1] }
  function Shorter(s: string): (r: string) { Short(Short(s)) }

  // ----- a stem and its ending

  lemma CutTo(s: string, suffix: string, drop: nat, add: string, r: string)
    requires drop <= |suffix| && suffix[..|suffix| - drop] + add == r
    ensures Applied(s + suffix, Change(drop, add)) == s + r
  {
    assert (s + suffix)[..|s + suffix| - drop] == s + suffix[..|suffix| - drop];
  }

  lemma CutOff(s: string, suffix: string)
    ensures Applied(s + suffix, Change(|suffix|, "")) == s
  {
    assert (s + suffix)[..|s|] == s;
  }

  lemma CutStem(s: string, suffix: string, n: nat, add: string)
    requires |suffix| < n <= |suffix| + 2 && n <= |s| + |suffix|
    ensures Applied(s + suffix, Change(n, add)) == (if n == |suffix| + 1 then Short(s) else Shorter(s)) + add
    ensures add == "" ==> Applied(s + suffix, Change(n, add)) == if n == |suffix| + 1 then Short(s) else Shorter(s)
  {
    var k := |s| + |suffix| - n;
    assert (s + suffix)[..k] == s[..k];
    if n == |suffix| + 2 { assert s[..|s| - 1][..k] == s[..k]; }
  }

  lemma CutNothing(w: string)
    ensures Applied(w, Change(0, "")) == w
  {
  }

  /** A word has a longer ending if its stem ends in what is longer. */
  lemma EndsStem(s: string, suffix: string, longer: string, a: string)
    requires longer == a + suffix
    ensures Ends(s + suffix, longer) <==> Ends(s, a)
  {
    if |a| < |s| {
      assert (s + suffix)[|s| - |a|..] == s[|s| - |a|..] + suffix;
      if s[|s| - |a|..] + suffix == a + suffix {
        assert (s[|s| - |a|..] + suffix)[..|a|] == s[|s| - |a|..] && (a + suffix)[..|a|] == a;
      }
    }
  }

  lemma EndsOwn(s: string, suffix: string)
    ensures Ends(s + suffix, suffix) <==> s != ""
  {
    assert (s + suffix)[|s|..] == suffix;
  }

  lemma AtStem(s: string, suffix: string, n: nat, c: char)
    requires n > |suffix|
    ensures At(s + suffix, n, c) <==> At(s, n - |suffix|, c)
  {
  }

  lemma AtInside(s: string, n: nat, c: char)
    ensures At(s, n, c) ==> n <= |s|
  {
  }

  lemma DoubledInside(s: string)
    ensures Doubled(s, 1) ==> |s| > 1
  {
  }

  lemma EndsInside(s: string, suffix: string)
    ensures Ends(s, suffix) ==> |suffix| < |s|
  {
  }

  lemma AtEnd(s: string, suffix: string, n: nat, c: char)
    requires 0 < n <= |suffix|
    ensures At(s + suffix, n, c) <==> suffix[|suffix| - n] == c
  {
  }

  lemma ConsonantStem(s: string, suffix: string, i: nat)
    requires i < |s|
    ensures Consonant(s + suffix, i) == Consonant(s, i)
  {
    ConsonantPrefix(s + suffix, s, i);
  }

  lemma DoubledStem(s: string, suffix: string, n: nat)
    requires n == |suffix| + 1
    ensures Doubled(s + suffix, n) <==> Doubled(s, 1)
  {
    hide Consonant;
    if |s| > 0 { ConsonantStem(s, suffix, |s| - 1); }
  }

  lemma VowelStem(s: string, suffix: string, n: nat)
    requires n == |suffix|
    ensures Vowel(s + suffix, n) <==> Vowel(s, 0)
  {
    hide Consonant;
    forall i | 0 <= i < |s| ensures Consonant(s + suffix, i) == Consonant(s, i) { ConsonantStem(s, suffix, i); }
  }

  // ----- vowels

  predicate VowelLetter(c: char) { c == 'a' || c == 'e' || c == 'i' || c == 'o' || c == 'u' }

  /** In a run of y's that starts at a, the first is a consonant at the start of a word
      or after a vowel letter, and from there they alternate. */
  lemma {:induction false} RunOfYs(w: string, a: nat, i: nat)
    requires a <= i < |w| && (forall k | a <= k <= i :: w[k] == 'y') && (a > 0 ==> w[a - 1] != 'y')
    ensures Consonant(w, i) <==> ((i - a) % 2 == 0 <==> a == 0 || VowelLetter(w[a - 1]))
    decreases i
  {
    if a < i {
      RunOfYs(w, a, i - 1);
    } else if a > 0 {
      OtherLetters(w, a - 1);
    }
  }

  lemma OtherLetters(w: string, i: nat)
    requires i < |w| && w[i] != 'y'
    ensures Consonant(w, i) <==> !VowelLetter(w[i])
  {
  }

  // ----- plurals

  lemma PluralIes(d: Dict, s: string)
    requires s != ""
    ensures Plural(d, s + "ies") == Or(d, s + "ie", Last(d, s + "y"))
  {
    hide Ends, Applied, At;
    EndsOwn(s, "ies");
    CutTo(s, "ies", 1, "", "ie");
    CutTo(s, "ies", 3, "y", "y");
  }

  /** After -ss the bare stem comes first. */
  lemma PluralEs(d: Dict, s: string)
    requires s != "" && !Ends(s, "i")
    ensures Plural(d, s + "es") ==
      if |s| > 1 && !(At(s, 1, 's') && At(s, 2, 's')) then Or(d, s + "e", Or(d, s, Same(s + "e")))
      else Or(d, s, Last(d, s + "e"))
  {
    hide Ends, Applied, At;
    EndsStem(s, "es", "ies", "i");
    EndsOwn(s, "es");
    AtStem(s, "es", 3, 's');
    AtStem(s, "es", 4, 's');
    CutTo(s, "es", 1, "", "e");
    CutTo(s, "es", 2, "e", "e");
    CutOff(s, "es");
  }

  lemma PluralS(d: Dict, s: string)
    requires |s| > 2 && !At(s, 1, 'e') && !At(s, 1, 's') && !Ends(s, "ou")
    ensures Plural(d, s + "s") == Last(d, s)
  {
    hide Ends, Applied, At;
    EndsStem(s, "s", "ies", "ie");
    EndsStem(s, "s", "es", "e");
    EndsStem(s, "s", "ous", "ou");
    EndsLast(s, "e");
    EndsLast(s, "ie");
    AtStem(s, "s", 2, 's');
    AtEnd(s, "s", 1, 's');
    CutOff(s, "s");
  }

  /** Words in no -s, in -ss, -us after o, or too short stay. */
  lemma NoPlural(d: Dict, w: string)
    requires w != "" && (!At(w, 1, 's') || At(w, 2, 's') || Ends(w, "ous") || (|w| <= 3 && !At(w, 2, 'e')))
    ensures Plural(d, w) == Same(w)
  {
    hide Ends, Applied;
    LastTwo(w, "es");
    LastTwo(w, "ies");
    LastTwo(w, "ous");
  }

  lemma LastTwo(w: string, suffix: string)
    requires |suffix| >= 2
    ensures Ends(w, suffix) ==> At(w, 1, suffix[|suffix| - 1]) && At(w, 2, suffix[|suffix| - 2])
  {
    if Ends(w, suffix) { assert w[|w| - |suffix|..][|suffix| - 2] == w[|w| - 2]; }
  }

  // ----- verbs

  lemma PastIed(d: Dict, s: string)
    requires |s| > 1
    ensures PastTense(d, s + "ied") == Or(d, s + "ie", Last(d, s + "y"))
  {
    hide Ends, Applied, Vowel;
    EndsOwn(s, "ied");
    CutTo(s, "ied", 1, "", "ie");
    CutTo(s, "ied", 3, "y", "y");
  }

  /** A regular -e, the stem, a doubled consonant undone; then the stem is left, or the
      word after un-, or the stem with -e. */
  lemma PastEd(d: Dict, s: string)
    requires |s| > 2 && !Ends(s, "i") && Vowel(s, 0)
    ensures PastTense(d, s + "ed") == OrRegular(d, s + "e", Or(d, s,
      if Doubled(s, 1) then Or(d, Short(s), Same(s))
      else if s[0] == 'u' && s[1] == 'n' then Same(s + "ed")
      else Same(s + "e")))
  {
    hide Ends, Applied, Vowel, Doubled, Short;
    EndsStem(s, "ed", "ied", "i");
    EndsOwn(s, "ed");
    VowelStem(s, "ed", 2);
    DoubledStem(s, "ed", 3);
    CutTo(s, "ed", 1, "", "e");
    CutTo(s, "ed", 2, "e", "e");
    CutOff(s, "ed");
    CutStem(s, "ed", 3, "");
  }

  lemma NoPast(d: Dict, w: string)
    requires w != "" && (|w| <= 4 || !Ends(w, "ed") || !(Vowel(w, 2) || Ends(w, "ied")))
    ensures PastTense(d, w) == Same(w)
  {
    hide Ends, Vowel, PastTail;
    EndsTail(w, "ied", "ed");
  }

  /** As -ed, but two consonants at the end keep the stem as it is. */
  lemma AspectIng(d: Dict, s: string)
    requires |s| > 2 && Vowel(s, 0)
    ensures Aspect(d, s + "ing") == OrRegular(d, s + "e", Or(d, s,
      if Doubled(s, 1) then Or(d, Short(s), Same(s))
      else if Consonant(s, |s| - 1) && Consonant(s, |s| - 2) then Same(s)
      else Same(s + "e")))
  {
    hide Ends, Applied, Vowel, Doubled, Consonant, Short;
    EndsOwn(s, "ing");
    VowelStem(s, "ing", 3);
    DoubledStem(s, "ing", 4);
    ConsonantStem(s, "ing", |s| - 1);
    ConsonantStem(s, "ing", |s| - 2);
    CutTo(s, "ing", 3, "e", "e");
    CutOff(s, "ing");
    CutStem(s, "ing", 4, "");
  }

  lemma NoAspect(d: Dict, w: string)
    requires w != "" && (|w| <= 5 || !Ends(w, "ing") || !Vowel(w, 3))
    ensures Aspect(d, w) == Same(w)
  {
    hide Ends, Vowel, AspectTail;
  }

  // ----- nouns

  /** The stem, -e; then -ility to -le, -ivity to -ive, -ality to -al, and for others
      the word itself. */
  lemma ItyForms(d: Dict, s: string)
    requires s != ""
    ensures Ity(d, s + "ity") == Or(d, s, Or(d, s + "e",
      if At(s, 2, 'i') && At(s, 1, 'l') then Last(d, Shorter(s) + "le")
      else if At(s, 2, 'i') && At(s, 1, 'v') then Same(s + "e")
      else if At(s, 2, 'a') && At(s, 1, 'l') then Same(s)
      else Or(d, s + "ity", Same(s))))
  {
    hide Ends, Applied, At, Shorter;
    EndsOwn(s, "ity");
    AtStem(s, "ity", 5, 'i');
    AtStem(s, "ity", 5, 'a');
    AtStem(s, "ity", 4, 'l');
    AtStem(s, "ity", 4, 'v');
    CutOff(s, "ity");
    CutTo(s, "ity", 3, "e", "e");
    CutNothing(s + "ity");
    if |s| > 1 { CutStem(s, "ity", 5, "le"); }
    AtInside(s, 2, 'i');
  }

  lemma NessForms(d: Dict, s: string)
    requires s != ""
    ensures Ness(d, s + "ness") == Last(d, if At(s, 1, 'i') then Short(s) + "y" else s)
  {
    hide Ends, Applied, At, Short;
    EndsOwn(s, "ness");
    AtStem(s, "ness", 5, 'i');
    CutOff(s, "ness");
    CutStem(s, "ness", 5, "y");
  }

  lemma IonIzation(d: Dict, s: string)
    requires s != ""
    ensures Ion(d, s + "ization") == Last(d, s + "ize")
  {
    hide Ends, Applied, IonMiddle;
    EndsOwn(s, "ization");
    EndsTail(s + "ization", "ization", "ion");
    CutTo(s, "ization", 5, "e", "ize");
  }

  lemma IonItion(d: Dict, s: string)
    requires s != ""
    ensures Ion(d, s + "ition") == Or(d, s + "e", Or(d, s + "ite", Or(d, s + "it", Same(s + "ition"))))
  {
    hide Ends, Applied, At;
    var w := s + "ition";
    EndsOwn(s, "ition");
    EndsTail(w, "ition", "ion");
    FifthLast(w, "ition");
    FifthLast(w, "ization");
    FifthLast(w, "ication");
    DifferentLetter(w);
    CutTo(s, "ition", 5, "e", "e");
    CutTo(s, "ition", 3, "e", "ite");
    CutTo(s, "ition", 3, "", "it");
  }

  lemma FifthLast(w: string, suffix: string)
    requires |suffix| >= 5
    ensures Ends(w, suffix) ==> At(w, 5, suffix[|suffix| - 5])
  {
    if Ends(w, suffix) { assert w[|w| - |suffix|..][|suffix| - 5] == w[|w| - 5]; }
  }

  lemma AtionTail(d: Dict, s: string)
    requires s != ""
    ensures
      var ion := Or(d, s + "ate", Or(d, s + "at", Same(s + "ation")));
      && Ends(s + "ation", "ion")
      && IonTail(d, s + "ation") == if Ends(s, "ic") then Or(d, Shorter(s) + "y", ion) else ion
  {
    hide Ends, Applied, Shorter;
    EndsOwn(s, "ation");
    EndsStem(s, "ation", "ication", "ic");
    EndsTail(s + "ation", "ation", "ion");
    EndsInside(s, "ic");
    CutTo(s, "ation", 3, "e", "ate");
    CutTo(s, "ation", 3, "", "at");
    if |s| > 1 { CutStem(s, "ation", 7, "y"); }
  }

  /** -ate, -e, nothing; -y for -ication; then what -ion tries. */
  lemma IonAtion(d: Dict, s: string)
    requires s != "" && !Ends(s, "iz")
    ensures
      var ion := Or(d, s + "ate", Or(d, s + "at", Same(s + "ation")));
      Ion(d, s + "ation") == Or(d, s + "ate", Or(d, s + "e", Or(d, s,
        if Ends(s, "ic") then Or(d, Shorter(s) + "y", ion) else ion)))
  {
    hide Ends, Applied, At, Shorter, IonTail;
    EndsOwn(s, "ation");
    EndsStem(s, "ation", "ization", "iz");
    FifthLast(s + "ation", "ation");
    FifthLast(s + "ation", "ition");
    DifferentLetter(s + "ation");
    CutTo(s, "ation", 3, "e", "ate");
    CutTo(s, "ation", 5, "e", "e");
    CutOff(s, "ation");
    AtionTail(d, s);
  }

  lemma DifferentLetter(w: string)
    ensures !(At(w, 5, 'a') && At(w, 5, 'i'))
  {
  }

  lemma IonOther(d: Dict, s: string)
    requires s != "" && !Ends(s, "at") && !Ends(s, "it")
    ensures Ion(d, s + "ion") == Or(d, s + "e", Or(d, s, Same(s + "ion")))
  {
    hide Ends, Applied;
    var w := s + "ion";
    EndsOwn(s, "ion");
    EndsStem(s, "ion", "ation", "at");
    EndsStem(s, "ion", "ition", "it");
    EndsTail(w, "ization", "ation");
    EndsTail(w, "ication", "ation");
    CutTo(s, "ion", 3, "e", "e");
    CutOff(s, "ion");
  }

  lemma AgentIzer(d: Dict, s: string)
    requires s != ""
    ensures ErAndOr(d, s + "izer") == Last(d, s + "ize")
  {
    hide Ends, Applied, ErMiddle, Doubled;
    EndsOwn(s, "izer");
    CutTo(s, "izer", 1, "", "ize");
  }

  /** The word less its r, the stem, the stem with -e. After an i the letter before the
      r has become an e. */
  function AgentLast(d: Dict, s: string, c: char): (o: Outcome) {
    Or(d, s + [if At(s, 1, 'i') then 'e' else c], Or(d, s, Or(d, s + "e", Same(s + [c, 'r']))))
  }

  lemma AgentTail(d: Dict, s: string, c: char)
    requires s != ""
    ensures ErTail(d, s + [c, 'r']) == AgentLast(d, s, c)
  {
    hide Applied, At;
    var ending, w := [c, 'r'], s + [c, 'r'];
    AtStem(s, ending, 3, 'i');
    assert w[|w| - 2] == c;
    CutTo(s, ending, 2, "e", "e");
    CutTo(s, ending, 2, [c], [c]);
    CutOff(s, ending);
  }

  lemma AgentMiddle(d: Dict, s: string, c: char)
    requires s != ""
    ensures ErMiddle(d, s + [c, 'r']) ==
      if At(s, 1, 'i') then Or(d, Short(s) + "y", AgentLast(d, s, c))
      else if At(s, 1, 'e') then Or(d, Short(s), AgentLast(d, s, c))
      else AgentLast(d, s, c)
  {
    hide Applied, At, Short, ErTail, AgentLast;
    var ending := [c, 'r'];
    AtStem(s, ending, 3, 'i');
    AtStem(s, ending, 3, 'e');
    CutStem(s, ending, 3, "y");
    CutStem(s, ending, 3, "");
    AgentTail(d, s, c);
  }

  /** A doubled consonant undone; -y for i, nothing for e; then the last tries. */
  lemma AgentForms(d: Dict, s: string, c: char)
    requires s != "" && (c == 'e' || c == 'o') && !(c == 'e' && Ends(s, "iz"))
    ensures
      var middle :=
        if At(s, 1, 'i') then Or(d, Short(s) + "y", AgentLast(d, s, c))
        else if At(s, 1, 'e') then Or(d, Short(s), AgentLast(d, s, c))
        else AgentLast(d, s, c);
      ErAndOr(d, s + [c, 'r']) == if Doubled(s, 1) then Or(d, Short(s), middle) else middle
  {
    hide Ends, Applied, At, Doubled, Short, ErMiddle, AgentLast;
    var ending := [c, 'r'];
    EndsOwn(s, ending);
    assert ending == "er" || ending == "or";
    NotIzer(s, c);
    DoubledStem(s, ending, 3);
    CutStem(s, ending, 3, "");
    AgentMiddle(d, s, c);
  }

  lemma NotIzer(s: string, c: char)
    ensures Ends(s + [c, 'r'], "izer") <==> c == 'e' && Ends(s, "iz")
  {
    var w := s + [c, 'r'];
    LastTwo(w, "izer");
    assert w[|w| - 2] == c;
    if c == 'e' {
      assert [c, 'r'] == "er";
      EndsStem(s, "er", "izer", "iz");
    }
  }

  // ----- adverbs and adjectives

  /** -le and the stem; then -ally keeps -al, -ably becomes -able, -ily tries -y. */
  lemma LyForms(d: Dict, s: string)
    requires s != ""
    ensures Ly(d, s + "ly") == Or(d, s + "le", Or(d, s,
      if At(s, 2, 'a') && At(s, 1, 'l') then Same(s)
      else if At(s, 2, 'a') && At(s, 1, 'b') then Same(s + "le")
      else if At(s, 1, 'i') then Or(d, Short(s) + "y", Same(s))
      else Same(s)))
  {
    hide Ends, Applied, At, Short;
    EndsOwn(s, "ly");
    AtStem(s, "ly", 4, 'a');
    AtStem(s, "ly", 3, 'l');
    AtStem(s, "ly", 3, 'b');
    AtStem(s, "ly", 3, 'i');
    CutTo(s, "ly", 1, "e", "le");
    CutOff(s, "ly");
    CutStem(s, "ly", 3, "y");
  }

  /** The stem, a doubled consonant undone, -e, -um; then nothing, -y and -ic for -ical,
      and nothing for -ial, or the word itself. */
  lemma AlForms(d: Dict, s: string)
    requires |s| > 1
    ensures
      var tail :=
        if At(s, 2, 'i') && At(s, 1, 'c')
        then Or(d, Shorter(s), Or(d, Shorter(s) + "y", Last(d, Shorter(s) + "ic")))
        else if At(s, 1, 'i') then Or(d, Short(s), Last(d, s + "al"))
        else Same(s + "al");
      var middle := Or(d, s + "e", Or(d, s + "um", tail));
      Al(d, s + "al") == Or(d, s, if Doubled(s, 1) then Or(d, Short(s), middle) else middle)
  {
    hide Ends, Applied, At, Doubled, Short, Shorter;
    EndsOwn(s, "al");
    AtStem(s, "al", 4, 'i');
    AtStem(s, "al", 3, 'c');
    AtStem(s, "al", 3, 'i');
    DoubledStem(s, "al", 3);
    CutOff(s, "al");
    CutTo(s, "al", 2, "e", "e");
    CutTo(s, "al", 2, "um", "um");
    CutStem(s, "al", 3, "");
    CutStem(s, "al", 4, "");
    CutStem(s, "al", 4, "y");
    CutStem(s, "al", 4, "ic");
    CutNothing(s + "al");
  }

  /** The stem, -e; for -ative -e and nothing in place of all of it; -ion. */
  lemma IveForms(d: Dict, s: string)
    requires s != ""
    ensures
      var ion := Or(d, s + "ion", Same(s + "ive"));
      Ive(d, s + "ive") == Or(d, s, Or(d, s + "e",
        if At(s, 2, 'a') && At(s, 1, 't') then Or(d, Shorter(s) + "e", Or(d, Shorter(s), ion)) else ion))
  {
    hide Ends, Applied, At, Shorter;
    EndsOwn(s, "ive");
    AtStem(s, "ive", 5, 'a');
    AtStem(s, "ive", 4, 't');
    CutOff(s, "ive");
    CutTo(s, "ive", 3, "e", "e");
    CutTo(s, "ive", 2, "on", "ion");
    if |s| > 1 {
      CutStem(s, "ive", 5, "e");
      CutStem(s, "ive", 5, "");
    }
    AtInside(s, 2, 'a');
  }

  lemma NoIve(d: Dict, w: string)
    requires w != "" && !Ends(w, "ive")
    ensures Ive(d, w) == OrRegular(d, w, Same(w))
  {
    hide Ends, Applied, IveTail;
    CutNothing(w);
  }

  lemma IzeForms(d: Dict, s: string)
    requires s != ""
    ensures
      var e := Or(d, s + "e", Same(s + "ize"));
      Ize(d, s + "ize") == Or(d, s, if Doubled(s, 1) then Or(d, Short(s), e) else e)
  {
    hide Ends, Applied, Doubled, Short;
    EndsOwn(s, "ize");
    DoubledStem(s, "ize", 4);
    CutOff(s, "ize");
    CutTo(s, "ize", 3, "e", "e");
    CutStem(s, "ize", 4, "");
  }

  lemma MentForms(d: Dict, s: string)
    requires s != ""
    ensures Ment(d, s + "ment") == Or(d, s, Same(s + "ment"))
  {
    hide Ends, Applied;
    EndsOwn(s, "ment");
    CutOff(s, "ment");
  }

  lemma BleLast(d: Dict, s: string, ending: string)
    requires |ending| == 4
    ensures BleTail(d, s + ending) == Or(d, s + "e", Or(d, s + "ate", Same(s + ending)))
  {
    hide Applied;
    CutTo(s, ending, 4, "e", "e");
    CutTo(s, ending, 4, "ate", "ate");
  }

  /** The stem, a doubled consonant undone, -e, -ate. */
  lemma BleForms(d: Dict, s: string, ending: string)
    requires ending == "able" || ending == "ible"
    ensures
      var tail := Or(d, s + "e", Or(d, s + "ate", Same(s + ending)));
      Ble(d, s + ending) == Or(d, s, if Doubled(s, 1) then Or(d, Short(s), tail) else tail)
  {
    hide Ends, Applied, At, Doubled, Short, BleTail, Same;
    BleEnds(s, ending);
    DoubledStem(s, ending, 5);
    CutOff(s, ending);
    BleLast(d, s, ending);
    if s != "" { CutStem(s, ending, 5, ""); }
    DoubledInside(s);
  }

  lemma BleEnds(s: string, ending: string)
    requires ending == "able" || ending == "ible"
    ensures |ending| == 4 && Ends(s + ending, "ble") && (At(s + ending, 4, 'a') || At(s + ending, 4, 'i'))
  {
    assert (s + ending)[|s| + 1..] == "ble";
  }

  lemma IsmForms(d: Dict, s: string)
    requires s != ""
    ensures Ism(d, s + "ism") == Last(d, s)
  {
    hide Ends, Applied;
    EndsOwn(s, "ism");
    CutOff(s, "ism");
  }

  lemma IcForms(d: Dict, s: string)
    requires s != ""
    ensures Ic(d, s + "ic") == Or(d, s + "ical", Or(d, s + "y", Or(d, s + "e", Or(d, s, Same(s + "ic")))))
  {
    hide Ends, Applied;
    EndsOwn(s, "ic");
    CutTo(s, "ic", 0, "al", "ical");
    CutTo(s, "ic", 2, "y", "y");
    CutTo(s, "ic", 2, "e", "e");
    CutOff(s, "ic");
  }

  lemma NcyForms(d: Dict, s: string, c: char)
    requires c == 'a' || c == 'e'
    ensures Ncy(d, s + [c] + "ncy") == Or(d, s + [c] + "nt", Last(d, s + [c] + "nce"))
  {
    hide Ends, Applied, At;
    var t := s + [c];
    assert t + "ncy" == s + ([c] + "ncy");
    EndsOwn(t, "ncy");
    AtEnd(s, [c] + "ncy", 4, 'a');
    AtEnd(s, [c] + "ncy", 4, 'e');
    CutTo(t, "ncy", 2, "t", "nt");
    CutTo(t, "ncy", 2, "ce", "nce");
  }

  lemma NceForms(d: Dict, s: string, c: char)
    requires c == 'a' || c == 'e'
    ensures Nce(d, s + [c] + "nce") == Or(d, s + "e", Or(d, s, Same(s + [c] + "nce")))
  {
    hide Ends, Applied, At;
    var ending := [c] + "nce";
    assert s + [c] + "nce" == s + ending;
    EndsOwn(s + [c], "nce");
    AtEnd(s, ending, 4, 'a');
    AtEnd(s, ending, 4, 'e');
    CutTo(s, ending, 4, "e", "e");
    CutOff(s, ending);
  }

  /** A rule leaves every word without its ending. */
  lemma NounsStay(d: Dict, w: string)
    requires w != ""
    ensures !Ends(w, "ity") ==> Ity(d, w) == Same(w)
    ensures !Ends(w, "ness") ==> Ness(d, w) == Same(w)
    ensures !Ends(w, "ion") ==> Ion(d, w) == Same(w)
    ensures !Ends(w, "er") && !Ends(w, "or") ==> ErAndOr(d, w) == Same(w)
  {
    hide Ends, Applied, At, Doubled, IonMiddle, ErMiddle, ItyTail, Attempt, Settle;
    EndsTail(w, "izer", "er");
  }

  lemma AdjectivesStay(d: Dict, w: string)
    requires w != ""
    ensures !Ends(w, "ly") ==> Ly(d, w) == Same(w)
    ensures !Ends(w, "al") || |w| < 4 ==> Al(d, w) == Same(w)
    ensures !Ends(w, "ize") ==> Ize(d, w) == Same(w)
    ensures !Ends(w, "ment") ==> Ment(d, w) == Same(w)
    ensures !Ends(w, "ble") || !(At(w, 4, 'a') || At(w, 4, 'i')) ==> Ble(d, w) == Same(w)
  {
    hide Ends, Applied, At, Doubled, LyTail, AlMiddle, BleTail, Attempt, Settle;
  }

  lemma OthersStay(d: Dict, w: string)
    requires w != ""
    ensures !Ends(w, "ism") ==> Ism(d, w) == Same(w)
    ensures !Ends(w, "ic") ==> Ic(d, w) == Same(w)
    ensures !Ends(w, "ncy") || !(At(w, 4, 'e') || At(w, 4, 'a')) ==> Ncy(d, w) == Same(w)
    ensures !Ends(w, "nce") || !(At(w, 4, 'e') || At(w, 4, 'a')) ==> Nce(d, w) == Same(w)
  {
    hide Ends, Applied, At, Attempt, Settle;
  }

  // ----- why the order of the rules matters

  /** A rule that leaves a word without a hit hands it to the next rule. */
  lemma HandOn(d: Dict, w: string, i: nat, t: string)
    requires w != "" && t != "" && i < RULES && Step(d, w, i) == Same(t)
    ensures From(d, w, i) == From(d, t, i + 1)
  {
    hide Step;
  }

  /** -ency and -ancy without their -nt and -nce forms go on as -ence and -ance. */
  lemma NcyThenNce(d: Dict, s: string, c: char)
    requires (c == 'a' || c == 'e') && s + [c] + "nt" !in d && s + [c] + "nce" !in d
    ensures From(d, s + [c] + "ncy", 15) == From(d, s + [c] + "nce", 16)
  {
    hide Ncy, From;
    NcyForms(d, s, c);
    HandOn(d, s + [c] + "ncy", 15, s + [c] + "nce");
  }

  /** An unknown -ally goes on as -al. */
  lemma AllyThenAl(d: Dict, s: string)
    requires s + "alle" !in d && s + "al" !in d
    ensures From(d, s + "ally", 7) == From(d, s + "al", 8)
  {
    hide Ly, From, At;
    var t := s + "al";
    assert t + "ly" == s + "ally" && t + "le" == s + "alle";
    AtEnd(s, "al", 2, 'a');
    AtEnd(s, "al", 1, 'l');
    LyForms(d, t);
    HandOn(d, s + "ally", 7, t);
  }

  lemma NotEnding(s: string, suffix: string, other: string)
    requires suffix != "" && other != "" && suffix[|suffix| - 1] != other[|other| - 1]
    ensures !Ends(s + suffix, other)
  {
    EndsLast(s + suffix, other);
  }

  /** An unknown -ivity goes on as -ive, past the rules between. */
  lemma IvityThenIve(d: Dict, s: string)
    requires s + "iv" !in d && s + "ive" !in d
    ensures From(d, s + "ivity", 3) == From(d, s + "ive", 9)
  {
    hide Ity, Ness, Ion, ErAndOr, Ly, Al, From, At, Ends;
    var t, w := s + "iv", s + "ive";
    assert t + "ity" == s + "ivity" && t + "e" == w;
    AtEnd(s, "iv", 2, 'i');
    AtEnd(s, "iv", 2, 'a');
    AtEnd(s, "iv", 1, 'v');
    AtEnd(s, "iv", 1, 'l');
    ItyForms(d, t);
    HandOn(d, s + "ivity", 3, w);
    EndsInE(d, s, "ive");
    HandOn(d, w, 4, w);
    HandOn(d, w, 5, w);
    HandOn(d, w, 6, w);
    HandOn(d, w, 7, w);
    HandOn(d, w, 8, w);
  }

  /** Rules 4 to 8 leave a word in -e. */
  lemma EndsInE(d: Dict, s: string, suffix: string)
    requires suffix != "" && suffix[|suffix| - 1] == 'e'
    ensures
      var w := s + suffix;
      && Ness(d, w) == Same(w) && Ion(d, w) == Same(w) && ErAndOr(d, w) == Same(w) && Ly(d, w) == Same(w)
      && Al(d, w) == Same(w)
  {
    hide Ness, Ion, ErAndOr, Ly, Al, Ends;
    NotEnding(s, suffix, "ness");
    NotEnding(s, suffix, "ion");
    NotEnding(s, suffix, "er");
    NotEnding(s, suffix, "or");
    NotEnding(s, suffix, "ly");
    NotEnding(s, suffix, "al");
    NounsStay(d, s + suffix);
    AdjectivesStay(d, s + suffix);
  }

  lemma IzePassesIve(d: Dict, s: string)
    requires s + "ize" !in d
    ensures Ive(d, s + "ize") == Same(s + "ize")
  {
    hide Ive, Ends, At;
    LastTwo(s + "ize", "ive");
    AtEnd(s, "ize", 2, 'v');
    NoIve(d, s + "ize");
  }

  /** An unknown -ization goes on as -ize, past the rules between. */
  lemma IzationThenIze(d: Dict, s: string)
    requires s != "" && s + "ize" !in d
    ensures From(d, s + "ization", 5) == From(d, s + "ize", 10)
  {
    hide Ion, ErAndOr, Ly, Al, Ive, From, Ends, At;
    var w := s + "ize";
    IonIzation(d, s);
    IzePassesIve(d, s);
    HandOn(d, s + "ization", 5, w);
    EndsInE(d, s, "ize");
    HandOn(d, w, 6, w);
    HandOn(d, w, 7, w);
    HandOn(d, w, 8, w);
    HandOn(d, w, 9, w);
  }

  // ----- stems

  /** A term the dictionary holds has the stem its entry gives. */
  lemma KnownTerm(d: Dict, term: string)
    requires 3 <= |term| < 50 && term in d
    ensures !d[term].Mapped? ==> Stem(d, term) == term
    ensures d[term].Mapped? && d[term].root != "" ==> Stem(d, term) == d[term].root
  {
  }

  /** What a found form stands for: its root, or itself. */
  function Meaning(t: string, e: Entry): (r: string) {
    if e.Mapped? && e.root != "" then e.root else t
  }

  /** The first rule that finds a form gives the stem. */
  lemma StemByRule(d: Dict, term: string, i: nat)
    requires 3 <= |term| < 50 && term !in d && Letters(term) && i < RULES && Upto(d, term, i).hit.Missing?
    requires Step(d, Upto(d, term, i).word, i).hit.Hit?
    ensures
      var h := Step(d, Upto(d, term, i).word, i).hit;
      Stem(d, term) == Meaning(h.key, h.entry)
  {
    hide Step, Upto;
    ChainSplits(d, term, i);
    var w := Upto(d, term, i).word;
    assert From(d, w, i) == Step(d, w, i);
  }

  /** "ponies" is "pony" when the dictionary has "pony" and not "ponie", whatever else
      it has. */
  lemma IesToY(d: Dict, s: string)
    requires 0 < |s| <= 46 && Letters(s + "ies") && s + "ies" !in d && s + "ie" !in d && s + "y" in d
    ensures Stem(d, s + "ies") == Meaning(s + "y", d[s + "y"])
  {
    hide Plural, Stem;
    PluralIes(d, s);
    assert Upto(d, s + "ies", 0) == Same(s + "ies");
    StemByRule(d, s + "ies", 0);
  }
}
