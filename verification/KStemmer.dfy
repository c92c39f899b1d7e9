/** The Krovetz stemmer: rules that rewrite one scratch buffer in place, behind
    a suffix screen and a memo. */
module KStemmer {
  import Bits
  import opened KStemRules
  import opened Options
  import opened SuffixScreen

  /** A memo slot. No stem means the key is its own stem. */
  datatype MemoEntry = Empty | Memo(key: string, stem: Option<string>)

  const WORD_SIZE := 60
  const MEMO_SLOTS := 4096
  const MEMO_KEY_MAX := 15
  const MEMO_AFTER := 256

  class Stemmer {
    const dict: Dict
    const mapped: seq<string>
    const screen: array<set<nat>>
    const word: array<char>
    var memo: array?<MemoEntry>
    var unknownRuns: nat
    var length: nat
    var j: int   // last letter before the suffix
    var k: int   // last letter of the word
    var matched: Hit
    ghost var kept: nat   // how much of the rule's word the buffer still begins with

    ghost predicate Kept(w: string)
      reads this`kept, word
    {
      kept <= |w| && |w| + 2 <= word.Length && forall i | 0 <= i < kept :: word[i] == w[i]
    }

    /** The buffer holds the whole word, with two bytes to spare. */
    ghost predicate Whole(w: string)
      reads this`kept, this`length, this`k, word
    {
      Kept(w) && 1 <= length == kept == |w| && k == length - 1
    }

    ghost predicate Ready(w: string)
      reads this`kept, this`length, this`k, this`matched, word
    {
      Whole(w) && matched.Missing?
    }

    /** A rule has ended with this outcome. */
    ghost predicate Left(o: Outcome)
      reads this`length, this`k, this`matched, word
    {
      && length <= word.Length && word[..length] == o.word && matched == o.hit
      && (matched.Missing? ==> k == length - 1)
    }

    function LetterAt(i: nat, ghost w: string): (c: char)
      requires Kept(w) && i < kept
      reads this, word
      ensures i < |w| && c == w[i]
    {
      word[i]
    }

    method Append(c: char)
      requires length < word.Length
      modifies word, this`length
      ensures length == old(length) + 1
      ensures word[old(length)] == c
      ensures forall i | 0 <= i < word.Length && i != old(length) :: word[i] == old(word[i])
    {
      word[length] := c;
      length := length + 1;
    }

    method AppendAll(s: string)
      requires length + |s| <= word.Length
      modifies word, this`length
      ensures length == old(length) + |s|
      ensures forall i | old(length) <= i < length :: word[i] == s[i - old(length)]
      ensures forall i | 0 <= i < word.Length && !(old(length) <= i < length) :: word[i] == old(word[i])
    {
      var start, n := length, 0;
      while n < |s|
        invariant 0 <= n <= |s| && length == start + n
        invariant forall i | start <= i < length :: word[i] == s[i - start]
        invariant forall i | 0 <= i < word.Length && !(start <= i < length) :: word[i] == old(word[i])
      {
        Append(s[n]);
        n := n + 1;
      }
    }

    predicate IsConsonant(i: nat, ghost w: string)
      requires Kept(w) && i < kept
      reads this`kept, word
      ensures IsConsonant(i, w) == Consonant(w, i)
    {
      var c := word[i];
      if c == 'a' || c == 'e' || c == 'i' || c == 'o' || c == 'u' then false
      else if c != 'y' || i == 0 then true
      else !IsConsonant(i - 1, w)
    }

    /** Letters i - 1 and i are the same consonant. */
    predicate IsDoubled(i: int, ghost w: string)
      requires Kept(w) && -1 <= i < kept
      reads this`kept, word
      ensures IsDoubled(i, w) == Doubled(w, |w| - i)
    {
      i >= 1 && word[i] == word[i - 1] && IsConsonant(i, w)
    }

    method VowelInStem(ghost w: string) returns (r: bool)
      requires Kept(w) && 0 <= j < kept
      ensures r == Vowel(w, |w| - (j + 1))
    {
      hide Consonant;
      var i := 0;
      while i < j + 1
        invariant 0 <= i <= j + 1 && forall n | 0 <= n < i :: Consonant(w, n)
      {
        if !IsConsonant(i, w) { return true; }
        i := i + 1;
      }
      return false;
    }

    /** Cuts the word to n letters and appends others. A cut alone erases no byte. */
    method Put(n: nat, add: string, ghost w: string)
      requires Kept(w) && n <= kept && n + |add| <= |w| + 2
      modifies word, this`length, this`k, this`kept
      ensures Kept(w) && kept == (if add == "" then old(kept) else n)
      ensures length == n + |add| <= word.Length && k == length - 1
      ensures word[..length] == Applied(w, Change(|w| - n, add))
    {
      length := n;
      AppendAll(add);
      k := length - 1;
      if add != "" { kept := n; }
    }

    /** Leaves a form without looking it up. */
    method Set(n: nat, add: string, ghost w: string)
      requires Kept(w) && n <= kept && n + |add| <= |w| + 2 && matched.Missing?
      modifies word, this`length, this`k, this`kept
      ensures Left(Leave(w, Change(|w| - n, add)))
    {
      Put(n, add, w);
    }

    /** The step all rules are made of: cut, append, look up. */
    method Try(n: nat, add: string, ghost w: string) returns (found: bool)
      requires Kept(w) && n <= kept && n + |add| <= |w| + 2
      modifies word, this`length, this`k, this`kept, this`matched
      ensures Kept(w) && kept == (if add == "" then old(kept) else n)
      ensures Left(Settle(dict, w, Change(|w| - n, add)))
      ensures found == matched.Hit? && matched == Find(dict, Applied(w, Change(|w| - n, add)))
    {
      Put(n, add, w);
      matched := Find(dict, word[..length]);
      found := matched.Hit?;
    }

    /** Cuts behind byte n, whatever the buffer holds there, and looks up. */
    method TryHeld(n: nat, ghost w: string) returns (found: bool)
      requires Kept(w) && n <= kept && n < |w|
      modifies this`length, this`k, this`matched
      ensures Left(Settle(dict, w, Change(|w| - n, [word[n]])))
      ensures found == matched.Hit? && matched == Find(dict, Applied(w, Change(|w| - n, [word[n]])))
    {
      length := n + 1;
      k := n;
      assert word[..length] == Applied(w, Change(|w| - n, [word[n]]));
      matched := Find(dict, word[..length]);
      found := matched.Hit?;
    }

    /** The lookup that passes over exceptions and keeps an earlier match. */
    method WordInDict()
      requires length <= word.Length
      modifies this`matched
      ensures
        var h := Find(dict, word[..length]);
        matched == if old(matched).Missing? && h.Hit? && !h.entry.Exception? then h else old(matched)
    {
      if matched.Hit? { return; }
      var h := Find(dict, word[..length]);
      if h.Hit? && !h.entry.Exception? { matched := h; }
    }

    method TryRegular(n: nat, add: string, ghost w: string) returns (found: bool)
      requires Kept(w) && n <= kept && n + |add| <= |w| + 2 && matched.Missing?
      modifies word, this`length, this`k, this`kept, this`matched
      ensures Kept(w) && kept == (if add == "" then old(kept) else n)
      ensures
        var h := Find(dict, Applied(w, Change(|w| - n, add)));
        && found == (h.Hit? && !h.entry.Exception?)
        && if found then Left(Settle(dict, w, Change(|w| - n, add))) else matched.Missing?
    {
      Put(n, add, w);
      WordInDict();
      found := matched.Hit?;
    }

    /** Writes the last letter again after a doubled consonant was cut. */
    method Redouble(n: nat, ghost w: string)
      requires Kept(w) && 1 <= n < kept && Doubled(w, |w| - n)
      modifies word, this`length
      ensures Kept(w)
    {
      length := n;
      Append(word[n - 1]);
    }

    /** Puts the rest of the word back from letter n on. */
    method PutBack(n: nat, rest: string, ghost w: string)
      requires Kept(w) && w != "" && n <= kept && n + |rest| == |w| && w[n..] == rest
      modifies word, this`length, this`k, this`kept
      ensures Whole(w) && (matched.Missing? ==> Left(Same(w)))
    {
      assert w == w[..n] + rest;
      Put(n, rest, w);
      kept := |w|;
    }

    /** Puts one letter of the word back. */
    method Regain(n: nat, c: char, ghost w: string)
      requires Kept(w) && n <= kept && n < |w| && w[n] == c
      modifies word, this`length, this`k, this`kept
      ensures Kept(w) && kept == n + 1 == length
    {
      Put(n, [c], w);
      assert Applied(w, Change(|w| - n, [c]))[n] == c;
      kept := n + 1;
    }

    method Restore(suffix: string, ghost w: string)
      requires Kept(w) && Ends(w, suffix) && j + 1 == |w| - |suffix| <= kept
      modifies word, this`length, this`k, this`kept
      ensures Whole(w) && (matched.Missing? ==> Left(Same(w)))
    {
      PutBack(j + 1, suffix, w);
    }

    /** The overloads on letters: j moves only on a match. */
    method EndsIn(suffix: string, ghost w: string) returns (r: bool)
      requires Whole(w) && suffix != ""
      modifies this`j
      ensures r == Ends(w, suffix)
      ensures if r then j == k - |suffix| >= 0 else j == old(j)
    {
      if |suffix| > k { return false; }
      var start, i := length - |suffix|, 0;
      while i < |suffix|
        invariant 0 <= i <= |suffix| && forall n | 0 <= n < i :: w[start + n] == suffix[n]
      {
        if word[start + i] != suffix[i] {
          assert w[start..][i] != suffix[i];
          return false;
        }
        i := i + 1;
      }
      assert w[start..] == suffix;
      j := k - |suffix|;
      return true;
    }

    /** The overload on strings: a mismatch leaves j at the last letter. */
    method EndsInText(suffix: string, ghost w: string) returns (r: bool)
      requires Whole(w) && suffix != ""
      modifies this`j
      ensures r == Ends(w, suffix)
      ensures j == if r then k - |suffix| else if |suffix| > k then old(j) else k
      ensures r ==> j >= 0
    {
      r := EndsIn(suffix, w);
      if !r && |suffix| <= k { j := k; }
    }

    /** The word did not need a change. */
    lemma Untouched(w: string)
      requires Ready(w)
      ensures Left(Same(w)) && length <= word.Length && word[..length] == w
    {
    }

    lemma Found(o: Outcome)
      requires length <= word.Length && word[..length] == o.word && matched == o.hit && k == length - 1
      ensures Left(o)
    {
    }

    method RunPlural(ghost w: string)
      requires Ready(w)
      modifies word, this`length, this`j, this`k, this`kept, this`matched
      ensures Left(Plural(dict, w))
    {
      hide Find, Ends, Left, Kept, Applied, Sound, Restores, Doubled, Vowel, Consonant;
      Untouched(w);
      EndsLast(w, "ies");
      EndsLast(w, "es");
      if LetterAt(k, w) != 's' { return; }
      var found;
      var ies := EndsIn("ies", w);
      if ies {
        found := Try(j + 3, "", w);
        if found { return; }
        found := Try(j + 1, "y", w);
        return;
      }
      var es := EndsIn("es", w);
      if es {
        var tryE := j > 0 && !(LetterAt(j, w) == 's' && LetterAt(j - 1, w) == 's');
        if tryE {
          found := Try(j + 2, "", w);
          if found { return; }
        }
        found := Try(j + 1, "", w);
        if found { return; }
        if tryE {
          Set(j + 1, "e", w);
        } else {
          found := Try(j + 1, "e", w);
        }
        return;
      }
      if length > 3 && LetterAt(k - 1, w) != 's' {
        var ous := EndsIn("ous", w);
        if !ous { found := Try(k, "", w); }
      }
    }

    method FinishPast(ghost w: string)
      requires Kept(w) && matched.Missing? && Ends(w, "ed") && |w| > 4 && 0 <= j && j + 1 == |w| - 2 <= kept
      requires Find(dict, Applied(w, Change(2, ""))).Missing?
      modifies word, this`length, this`j, this`k, this`kept, this`matched
      ensures Left(PastTail(dict, w))
    {
      hide Find, Ends, Left, Kept, Applied, Sound, Restores, Doubled, Vowel, Consonant;
      var found;
      if IsDoubled(j, w) {
        found := Try(j, "", w);
        if found { return; }
        Redouble(j, w);
        found := Try(j + 1, "", w);
        return;
      }
      if LetterAt(0, w) == 'u' && LetterAt(1, w) == 'n' {
        Restore("ed", w);
        return;
      }
      Set(j + 1, "e", w);
    }

    method RunPastTense(ghost w: string)
      requires Ready(w)
      modifies word, this`length, this`j, this`k, this`kept, this`matched
      ensures Left(PastTense(dict, w))
    {
      hide Find, Ends, Left, Kept, Applied, Sound, Restores, Doubled, Vowel, Consonant, PastTail;
      Untouched(w);
      if length <= 4 { return; }
      var found;
      var ied := EndsIn("ied", w);
      if ied {
        found := Try(j + 3, "", w);
        if found { return; }
        found := Try(j + 1, "y", w);
        return;
      }
      var ed := EndsIn("ed", w);
      if !ed { return; }
      var vowel := VowelInStem(w);
      if !vowel { return; }
      found := TryRegular(j + 2, "", w);
      if found { return; }
      found := Try(j + 1, "", w);
      if found { return; }
      FinishPast(w);
    }

    method FinishAspect(ghost w: string)
      requires Kept(w) && matched.Missing? && Ends(w, "ing") && |w| > 5 && 0 <= j && j + 1 == |w| - 3 <= kept
      requires Find(dict, Applied(w, Change(3, ""))).Missing?
      modifies word, this`length, this`j, this`k, this`kept, this`matched
      ensures Left(AspectTail(dict, w))
    {
      hide Find, Ends, Left, Kept, Applied, Sound, Restores, Doubled, Vowel, Consonant;
      var found;
      if IsDoubled(j, w) {
        found := Try(j, "", w);
        if found { return; }
        Redouble(j, w);
        found := Try(j + 1, "", w);
        return;
      }
      if j > 0 && IsConsonant(j, w) && IsConsonant(j - 1, w) {
        Set(j + 1, "", w);
        return;
      }
      Set(j + 1, "e", w);
    }

    method RunAspect(ghost w: string)
      requires Ready(w)
      modifies word, this`length, this`j, this`k, this`kept, this`matched
      ensures Left(Aspect(dict, w))
    {
      hide Find, Ends, Left, Kept, Applied, Sound, Restores, Doubled, Vowel, Consonant, AspectTail;
      Untouched(w);
      if length <= 5 { return; }
      var ing := EndsIn("ing", w);
      if !ing { return; }
      var vowel := VowelInStem(w);
      if !vowel { return; }
      var found := TryRegular(j + 1, "e", w);
      if found { return; }
      found := Try(j + 1, "", w);
      if found { return; }
      FinishAspect(w);
    }

    method FinishIty(ghost w: string)
      requires Ready(w) && 0 <= j == |w| - 4
      requires Find(dict, Applied(w, Change(3, ""))).Missing? && Find(dict, Applied(w, Change(3, "e"))).Missing?
      modifies word, this`length, this`j, this`k, this`kept, this`matched
      ensures Left(ItyTail(dict, w))
    {
      hide Find, Ends, Left, Kept, Applied, Sound, Restores, Doubled, Vowel, Consonant;
      var found;
      if j > 0 && LetterAt(j - 1, w) == 'i' && LetterAt(j, w) == 'l' {
        found := Try(j - 1, "le", w);
        return;
      }
      if j > 0 && LetterAt(j - 1, w) == 'i' && LetterAt(j, w) == 'v' {
        found := Try(j + 1, "e", w);
        return;
      }
      if j > 0 && LetterAt(j - 1, w) == 'a' && LetterAt(j, w) == 'l' {
        found := Try(j + 1, "", w);
        return;
      }
      found := Try(length, "", w);
      if found { return; }
      Set(j + 1, "", w);
    }

    method RunIty(ghost w: string)
      requires Ready(w)
      modifies word, this`length, this`j, this`k, this`kept, this`matched
      ensures Left(Ity(dict, w))
    {
      hide Find, Ends, Left, Kept, Applied, Sound, Restores, Doubled, Vowel, Consonant, ItyTail;
      Untouched(w);
      var ity := EndsIn("ity", w);
      if !ity { return; }
      var found := Try(j + 1, "", w);
      if found { return; }
      found := Try(j + 1, "e", w);
      if found { return; }
      Restore("ity", w);
      FinishIty(w);
    }

    method RunNess(ghost w: string)
      requires Ready(w)
      modifies word, this`length, this`j, this`k, this`kept, this`matched
      ensures Left(Ness(dict, w))
    {
      hide Find, Ends, Left, Kept, Applied, Sound, Restores, Doubled, Vowel, Consonant;
      Untouched(w);
      var ness := EndsIn("ness", w);
      if !ness { return; }
      var found;
      if LetterAt(j, w) == 'i' {
        found := Try(j, "y", w);
      } else {
        found := Try(j + 1, "", w);
      }
    }

    method FinishIon(ghost w: string)
      requires Ready(w) && Ends(w, "ion") && |w| > 3
      modifies word, this`length, this`j, this`k, this`kept, this`matched
      ensures Left(IonTail(dict, w))
    {
      hide Find, Ends, Left, Kept, Applied, Sound, Restores, Doubled, Vowel, Consonant;
      var found;
      var ication := EndsInText("ication", w);
      if ication {
        found := Try(j + 1, "y", w);
        if found { return; }
        Restore("ication", w);
      }
      j := k - 3;
      found := Try(j + 1, "e", w);
      if found { return; }
      found := Try(j + 1, "", w);
      if found { return; }
      Restore("ion", w);
    }

    method RunIon(ghost w: string)
      requires Ready(w)
      modifies word, this`length, this`j, this`k, this`kept, this`matched
      ensures Left(Ion(dict, w))
    {
      hide Find, Ends, Left, Kept, Applied, Sound, Restores, Doubled, Vowel, Consonant, IonMiddle;
      Untouched(w);
      var ion := EndsIn("ion", w);
      if !ion { return; }
      var found;
      var ization := EndsInText("ization", w);
      if ization {
        found := Try(j + 3, "e", w);
        return;
      }
      ContinueIon(w);
    }

    method ContinueIon(ghost w: string)
      requires Ready(w) && Ends(w, "ion") && |w| > 3
      modifies word, this`length, this`j, this`k, this`kept, this`matched
      ensures Left(IonMiddle(dict, w))
    {
      hide Find, Ends, Left, Kept, Applied, Sound, Restores, Doubled, Vowel, Consonant, IonTail;
      var found;
      var ition := EndsInText("ition", w);
      if ition {
        found := Try(j + 1, "e", w);
        if found { return; }
        Restore("ition", w);
      } else {
        var ation := EndsInText("ation", w);
        if ation {
          found := Try(j + 3, "e", w);
          if found { return; }
          found := Try(j + 1, "e", w);
          if found { return; }
          found := Try(j + 1, "", w);
          if found { return; }
          Restore("ation", w);
        }
      }
      FinishIon(w);
    }

    method FinishEr(suffix: string, ghost w: string)
      requires Kept(w) && Ends(w, suffix) && |suffix| == 2 && 0 <= j && j + 1 == |w| - 2 <= kept
      requires word[j + 1] == if At(w, 3, 'i') then 'e' else w[|w| - 2]
      modifies word, this`length, this`j, this`k, this`kept, this`matched
      ensures Left(ErTail(dict, w))
    {
      hide Find, Ends, Left, Kept, Applied, Sound, Restores, Doubled, Vowel, Consonant;
      var found := TryHeld(j + 1, w);
      if found { return; }
      found := Try(j + 1, "", w);
      if found { return; }
      found := Try(j + 1, "e", w);
      if found { return; }
      Restore(suffix, w);
    }

    method ContinueEr(suffix: string, ghost w: string)
      requires Kept(w) && Ends(w, suffix) && |suffix| == 2 && 0 <= j && j + 1 == |w| - 2 && kept == |w|
      modifies word, this`length, this`j, this`k, this`kept, this`matched
      ensures Left(ErMiddle(dict, w))
    {
      hide Find, Ends, Left, Applied, Sound, Restores, ErTail;
      var found;
      if LetterAt(j, w) == 'i' {
        found := Try(j, "y", w);
        if found { return; }
        Regain(j, 'i', w);
        Append('e');
      }
      if LetterAt(j, w) == 'e' {
        found := Try(j, "", w);
        if found { return; }
      }
      FinishEr(suffix, w);
    }

    method RunErAndOr(ghost w: string)
      requires Ready(w)
      modifies word, this`length, this`j, this`k, this`kept, this`matched
      ensures Left(ErAndOr(dict, w))
    {
      hide Find, Ends, Left, Kept, Applied, Sound, Restores, Doubled, Vowel, Consonant, ErMiddle;
      Untouched(w);
      EndsLast(w, "izer");
      EndsLast(w, "er");
      EndsLast(w, "or");
      if LetterAt(k, w) != 'r' { return; }
      var found;
      var izer := EndsIn("izer", w);
      if izer {
        found := Try(j + 4, "", w);
        return;
      }
      var er := EndsIn("er", w);
      if !er {
        var or := EndsIn("or", w);
        if !or { return; }
      }
      if IsDoubled(j, w) {
        found := Try(j, "", w);
        if found { return; }
        Redouble(j, w);
      }
      ContinueEr(if er then "er" else "or", w);
    }

    method FinishLy(ghost w: string)
      requires Ready(w) && 0 <= j == |w| - 3
      modifies word, this`length, this`j, this`k, this`kept, this`matched
      ensures Left(LyTail(dict, w))
    {
      hide Find, Ends, Left, Kept, Applied, Sound, Restores, Doubled, Vowel, Consonant;
      var found;
      if j > 0 && LetterAt(j - 1, w) == 'a' && LetterAt(j, w) == 'b' {
        Set(j + 2, "e", w);
        return;
      }
      if LetterAt(j, w) == 'i' {
        found := Try(j, "y", w);
        if found { return; }
        Regain(j, 'i', w);
      }
      Set(j + 1, "", w);
    }

    method RunLy(ghost w: string)
      requires Ready(w)
      modifies word, this`length, this`j, this`k, this`kept, this`matched
      ensures Left(Ly(dict, w))
    {
      hide Find, Ends, Left, Kept, Applied, Sound, Restores, Doubled, Vowel, Consonant, LyTail;
      Untouched(w);
      var ly := EndsIn("ly", w);
      if !ly { return; }
      var found := Try(j + 2, "e", w);
      if found { return; }
      found := Try(j + 1, "", w);
      if found { return; }
      if j > 0 && LetterAt(j - 1, w) == 'a' && LetterAt(j, w) == 'l' { return; }
      Restore("ly", w);
      FinishLy(w);
    }

    method FinishAl(ghost w: string)
      requires Ready(w) && |w| >= 4 && j == |w| - 3
      modifies word, this`length, this`j, this`k, this`kept, this`matched
      ensures Left(AlTail(dict, w))
    {
      hide Find, Ends, Left, Kept, Applied, Sound, Restores, Doubled, Vowel, Consonant;
      Untouched(w);
      var found;
      if j > 0 && LetterAt(j - 1, w) == 'i' && LetterAt(j, w) == 'c' {
        found := Try(j - 1, "", w);
        if found { return; }
        found := Try(j - 1, "y", w);
        if found { return; }
        found := Try(j - 1, "ic", w);
        return;
      }
      if LetterAt(j, w) == 'i' {
        found := Try(j, "", w);
        if found { return; }
        found := Try(j + 3, "", w);
      }
    }

    method ContinueAl(ghost w: string)
      requires Kept(w) && Ends(w, "al") && |w| >= 4 && 0 <= j && j + 1 == |w| - 2 <= kept
      modifies word, this`length, this`j, this`k, this`kept, this`matched
      ensures Left(AlMiddle(dict, w))
    {
      hide Find, Ends, Left, Kept, Applied, Sound, Restores, Doubled, Vowel, Consonant, AlTail;
      var found := Try(j + 1, "e", w);
      if found { return; }
      found := Try(j + 1, "um", w);
      if found { return; }
      Restore("al", w);
      FinishAl(w);
    }

    method RunAl(ghost w: string)
      requires Ready(w)
      modifies word, this`length, this`j, this`k, this`kept, this`matched
      ensures Left(Al(dict, w))
    {
      hide Find, Ends, Left, Kept, Applied, Sound, Restores, Doubled, Vowel, Consonant, AlMiddle;
      Untouched(w);
      if length < 4 { return; }
      var al := EndsIn("al", w);
      if !al { return; }
      var found := Try(j + 1, "", w);
      if found { return; }
      if IsDoubled(j, w) {
        found := Try(j, "", w);
        if found { return; }
        Redouble(j, w);
      }
      ContinueAl(w);
    }

    method RunIze(ghost w: string)
      requires Ready(w)
      modifies word, this`length, this`j, this`k, this`kept, this`matched
      ensures Left(Ize(dict, w))
    {
      hide Find, Ends, Left, Kept, Applied, Sound, Restores, Doubled, Vowel, Consonant;
      Untouched(w);
      var ize := EndsIn("ize", w);
      if !ize { return; }
      var found := Try(j + 1, "", w);
      if found { return; }
      if IsDoubled(j, w) {
        found := Try(j, "", w);
        if found { return; }
        Redouble(j, w);
      }
      found := Try(j + 1, "e", w);
      if found { return; }
      Restore("ize", w);
    }

    method RunMent(ghost w: string)
      requires Ready(w)
      modifies word, this`length, this`j, this`k, this`kept, this`matched
      ensures Left(Ment(dict, w))
    {
      hide Find, Ends, Left, Kept, Applied, Sound, Restores, Doubled, Vowel, Consonant;
      Untouched(w);
      var ment := EndsIn("ment", w);
      if !ment { return; }
      var found := Try(j + 1, "", w);
      if found { return; }
      Restore("ment", w);
    }

    method FinishBle(c: char, ghost w: string)
      requires Kept(w) && Ends(w, "ble") && 0 <= j == |w| - 4 <= kept && c == w[j]
      modifies word, this`length, this`j, this`k, this`kept, this`matched
      ensures Left(BleTail(dict, w))
    {
      hide Find, Ends, Left, Kept, Applied, Sound, Restores, Doubled, Vowel, Consonant;
      var found := Try(j, "e", w);
      if found { return; }
      found := Try(j, "ate", w);
      if found { return; }
      Regain(j, c, w);
      Restore("ble", w);
    }

    method RunBle(ghost w: string)
      requires Ready(w)
      modifies word, this`length, this`j, this`k, this`kept, this`matched
      ensures Left(Ble(dict, w))
    {
      hide Find, Ends, Left, Kept, Applied, Sound, Restores, Doubled, Vowel, Consonant, BleTail;
      Untouched(w);
      var ble := EndsIn("ble", w);
      if !ble { return; }
      var c := LetterAt(j, w);
      if c != 'a' && c != 'i' { return; }
      var found := Try(j, "", w);
      if found { return; }
      if IsDoubled(j - 1, w) {
        found := Try(j - 1, "", w);
        if found { return; }
        Redouble(j - 1, w);
      }
      FinishBle(c, w);
    }

    method RunIsm(ghost w: string)
      requires Ready(w)
      modifies word, this`length, this`j, this`k, this`kept, this`matched
      ensures Left(Ism(dict, w))
    {
      hide Find, Ends, Left, Kept, Applied, Sound, Restores, Doubled, Vowel, Consonant;
      Untouched(w);
      var ism := EndsIn("ism", w);
      if !ism { return; }
      var found := Try(j + 1, "", w);
    }

    method RunIc(ghost w: string)
      requires Ready(w)
      modifies word, this`length, this`j, this`k, this`kept, this`matched
      ensures Left(Ic(dict, w))
    {
      hide Find, Ends, Left, Kept, Applied, Sound, Restores, Doubled, Vowel, Consonant;
      Untouched(w);
      var ic := EndsIn("ic", w);
      if !ic { return; }
      var found := Try(length, "al", w);
      if found { return; }
      found := Try(j + 1, "y", w);
      if found { return; }
      found := Try(j + 1, "e", w);
      if found { return; }
      found := Try(j + 1, "", w);
      if found { return; }
      Restore("ic", w);
    }

    method RunNcy(ghost w: string)
      requires Ready(w)
      modifies word, this`length, this`j, this`k, this`kept, this`matched
      ensures Left(Ncy(dict, w))
    {
      hide Find, Ends, Left, Kept, Applied, Sound, Restores, Doubled, Vowel, Consonant;
      Untouched(w);
      var ncy := EndsIn("ncy", w);
      if !ncy { return; }
      if LetterAt(j, w) != 'e' && LetterAt(j, w) != 'a' { return; }
      var found := Try(j + 2, "t", w);
      if found { return; }
      found := Try(j + 2, "ce", w);
    }

    method RunNce(ghost w: string)
      requires Ready(w)
      modifies word, this`length, this`j, this`k, this`kept, this`matched
      ensures Left(Nce(dict, w))
    {
      hide Find, Ends, Left, Kept, Applied, Sound, Restores, Doubled, Vowel, Consonant;
      Untouched(w);
      var nce := EndsIn("nce", w);
      if !nce { return; }
      var c := LetterAt(j, w);
      if c != 'e' && c != 'a' { return; }
      var found := Try(j, "e", w);
      if found { return; }
      found := Try(j, "", w);
      if found { return; }
      Regain(j, c, w);
      Restore("nce", w);
    }

    /** The lookup after -al, then -ive. */
    method FinishIve(ghost w: string)
      requires Ready(w) && Ends(w, "ive") && 0 <= j == |w| - 4
      modifies word, this`length, this`j, this`k, this`kept, this`matched
      ensures Left(IveTail(dict, w))
    {
      hide Find, Ends, Left, Kept, Applied, Sound, Restores, Doubled, Vowel, Consonant;
      var found;
      if j > 0 && LetterAt(j - 1, w) == 'a' && LetterAt(j, w) == 't' {
        found := Try(j - 1, "e", w);
        if found { return; }
        found := Try(j - 1, "", w);
        if found { return; }
        Regain(j - 1, 'a', w);
        Regain(j, 't', w);
        Restore("ive", w);
      }
      found := Try(j + 2, "on", w);
      if found { return; }
      EndsDrop(w, "ive", 1);
      PutBack(j + 2, "ve", w);
    }

    method RunIve(ghost w: string)
      requires Ready(w)
      modifies word, this`length, this`j, this`k, this`kept, this`matched
      ensures Left(Ive(dict, w))
    {
      hide Find, Ends, Left, Kept, Applied, Sound, Restores, Doubled, Vowel, Consonant, IveTail;
      Untouched(w);
      WordInDict();
      var ive := EndsIn("ive", w);
      if !ive {
        Found(Ive(dict, w));
        return;
      }
      var found := Try(j + 1, "", w);
      if found { return; }
      found := Try(j + 1, "e", w);
      if found { return; }
      Restore("ive", w);
      FinishIve(w);
    }

    // ----- the chain

    lemma ReadyBounds(w: string)
      requires Ready(w)
      ensures w != "" && |w| + 2 <= word.Length
    {
    }

    /** A hit ends the chain. */
    lemma Ended(w: string, i: nat)
      requires i < RULES && w != "" && Left(Step(dict, w, i))
      ensures matched.Hit? ==> Left(From(dict, w, i))
    {
      hide Step;
    }

    /** The next rule starts from what this one left. */
    ghost method Advance(w: string, i: nat) returns (next: string)
      requires i < RULES && w != "" && |w| + 2 <= word.Length && Left(Step(dict, w, i)) && matched.Missing?
      modifies this`kept
      ensures next == Step(dict, w, i).word && Ready(next)
      ensures From(dict, w, i) == From(dict, next, i + 1) && 1 <= |next| <= |w|
    {
      hide Step;
      next := Step(dict, w, i).word;
      kept := |next|;
    }

    method RunLast(ghost start: string)
      requires Ready(start)
      modifies word, this`length, this`j, this`k, this`kept, this`matched
      ensures Left(From(dict, start, 12))
    {
      hide Find, Left, Kept, Whole, Sound, Restores, From, Ble, Ism, Ic, Ncy, Nce;
      ghost var w := start;
      ReadyBounds(w);
      RunBle(w);
      Ended(w, 12);
      if matched.Hit? { return; }
      w := Advance(w, 12);
      RunIsm(w);
      Ended(w, 13);
      if matched.Hit? { return; }
      w := Advance(w, 13);
      RunIc(w);
      Ended(w, 14);
      if matched.Hit? { return; }
      w := Advance(w, 14);
      RunNcy(w);
      Ended(w, 15);
      if matched.Hit? { return; }
      w := Advance(w, 15);
      RunNce(w);
      Ended(w, 16);
      if matched.Hit? { return; }
      w := Advance(w, 16);
      FromEnd(dict, w);
      Untouched(w);
    }

    method RunMiddle(ghost start: string)
      requires Ready(start)
      modifies word, this`length, this`j, this`k, this`kept, this`matched
      ensures Left(From(dict, start, 6))
    {
      hide Find, Left, Kept, Whole, Sound, Restores, From, ErAndOr, Ly, Al;
      ghost var w := start;
      ReadyBounds(w);
      RunErAndOr(w);
      Ended(w, 6);
      if matched.Hit? { return; }
      w := Advance(w, 6);
      RunLy(w);
      Ended(w, 7);
      if matched.Hit? { return; }
      w := Advance(w, 7);
      RunAl(w);
      Ended(w, 8);
      if matched.Hit? { return; }
      w := Advance(w, 8);
      RunInner(w);
    }

    method RunInner(ghost start: string)
      requires Ready(start)
      modifies word, this`length, this`j, this`k, this`kept, this`matched
      ensures Left(From(dict, start, 9))
    {
      hide Find, Left, Kept, Whole, Sound, Restores, From, Ive, Ize, Ment;
      ghost var w := start;
      ReadyBounds(w);
      RunIve(w);
      Ended(w, 9);
      if matched.Hit? { return; }
      w := Advance(w, 9);
      RunIze(w);
      Ended(w, 10);
      if matched.Hit? { return; }
      w := Advance(w, 10);
      RunMent(w);
      Ended(w, 11);
      if matched.Hit? { return; }
      w := Advance(w, 11);
      RunLast(w);
    }

    /** Runs the rules in order until one finds a dictionary entry. */
    method RunRules(ghost start: string)
      requires Ready(start)
      modifies word, this`length, this`j, this`k, this`kept, this`matched
      ensures Left(From(dict, start, 0))
    {
      hide Find, Left, Kept, Whole, Sound, Restores, From, Plural, PastTense, Aspect, Ity, Ness, Ion;
      ghost var w := start;
      ReadyBounds(w);
      RunPlural(w);
      Ended(w, 0);
      if matched.Hit? { return; }
      w := Advance(w, 0);
      RunPastTense(w);
      Ended(w, 1);
      if matched.Hit? { return; }
      w := Advance(w, 1);
      RunAspect(w);
      Ended(w, 2);
      if matched.Hit? { return; }
      w := Advance(w, 2);
      RunIty(w);
      Ended(w, 3);
      if matched.Hit? { return; }
      w := Advance(w, 3);
      RunNess(w);
      Ended(w, 4);
      if matched.Hit? { return; }
      w := Advance(w, 4);
      RunIon(w);
      Ended(w, 5);
      if matched.Hit? { return; }
      w := Advance(w, 5);
      RunMiddle(w);
    }

    /** The rules on a term the dictionary does not hold. The result depends on
        the term alone, whatever the buffer held. `borrowed` says that the term
        itself came back. */
    method StemUnknown(term: string) returns (r: string, borrowed: bool)
      requires 1 <= |term| && |term| + 2 <= word.Length
      modifies word, this`length, this`j, this`k, this`kept, this`matched
      ensures r == UnknownStem(dict, term) && (borrowed ==> r == term)
    {
      hide From;
      var i := 0;
      while i < |term|
        invariant 0 <= i <= |term| && Letters(term[..i])
      {
        if !Letter(term[i]) { return term, true; }
        i := i + 1;
      }
      assert term[..i] == term;
      length := 0;
      AppendAll(term);
      k := length - 1;
      kept := length;
      matched := Missing;
      RunRules(term);
      if matched.Hit? && Root(matched) != "" { return Root(matched), false; }
      var result := word[..length];
      return result, result == term;
    }

    method StemCandidate(term: string) returns (r: string, borrowed: bool)
      requires 3 <= |term| < 50 && word.Length == WORD_SIZE
      modifies word, this`length, this`j, this`k, this`kept, this`matched, this`unknownRuns
      ensures r == Stem(dict, term) && (borrowed ==> r == term)
    {
      hide UnknownStem;
      var h := Find(dict, term);
      if h.Hit? {
        if Root(h) == "" { return term, true; }
        return Root(h), false;
      }
      unknownRuns := (unknownRuns + 1) % 0x1_0000_0000;
      r, borrowed := StemUnknown(term);
    }

    /** Every filled slot holds the true stem of its key. */
    ghost predicate MemoOk()
      reads this`memo, memo
    {
      memo != null ==>
        && memo.Length == MEMO_SLOTS
        && forall i | 0 <= i < memo.Length && memo[i].Memo? ::
             Stem(dict, memo[i].key) == if memo[i].stem.None? then memo[i].key else memo[i].stem.value
    }

    ghost predicate Valid()
      reads this`memo, memo, screen
    {
      && word.Length == WORD_SIZE && DictOk(dict, mapped) && EndingsOk(ENDINGS + mapped)
      && TableOk(screen, ENDINGS + mapped) && MemoOk()
    }

    constructor (dict: Dict, mapped: seq<string>)
      requires DictOk(dict, mapped) && EndingsOk(ENDINGS + mapped)
      ensures Valid() && this.dict == dict && fresh(word) && fresh(screen) && memo == null
    {
      var table := MakeTable(ENDINGS + mapped);
      this.dict, this.mapped, this.screen := dict, mapped, table;
      word := new char[WORD_SIZE];
      memo, unknownRuns := null, 0;
      length, j, k, matched, kept := 0, 0, 0, Missing, 0;
    }

    /** The stem of a term: what the dictionary and the rules say, with or without
        the screen, and after any number of earlier calls. */
    method StemTerm(input: string, possessive: bool) returns (r: string)
      requires Valid()
      modifies this, word, memo
      ensures Valid() && r == Stem(dict, if possessive then WithoutPossessive(input) else input)
      ensures memo == old(memo) || fresh(memo)
    {
      hide Stem, DictOk, EndingsOk, CellOk, MemoSlot;
      var term := if possessive then WithoutPossessive(input) else input;
      if |term| < 3 || |term| >= 50 {
        ShortOrLong(dict, term);
        return term;
      }
      if !InTable(screen, term) {
        Rejected(screen, dict, mapped, term);
        return term;
      }
      if |term| > MEMO_KEY_MAX {
        var borrowed;
        r, borrowed := StemCandidate(term);
        return;
      }
      if memo == null {
        if unknownRuns < MEMO_AFTER {
          var borrowed;
          r, borrowed := StemCandidate(term);
          return;
        }
        memo := new MemoEntry[MEMO_SLOTS](_ => Empty);
      }
      var slot := MemoSlot(term);
      var e := memo[slot];
      if e.Memo? && e.key == term { return if e.stem.None? then term else e.stem.value; }
      var borrowed;
      r, borrowed := StemCandidate(term);
      if borrowed {
        memo[slot] := Memo(term, None);
      } else if |r| <= MEMO_KEY_MAX {
        memo[slot] := Memo(term, Some(r));
      }
    }
  }

  // ----- the possessive ending

  /** U+0027, U+2019 and U+FF07 in UTF-8. */
  const APOSTROPHES: seq<string> := ["'", "\U{E2}\U{80}\U{99}", "\U{EF}\U{BC}\U{87}"]

  function WithoutPossessive(term: string): (r: string)
    ensures r <= term
  {
    var n := |term|;
    if n < 2 || (term[n - 1] != 's' && term[n - 1] != 'S') then term
    else if term[n - 2] == '\'' then term[..n - 2]
    else if n >= 4 && (term[n - 4..n - 1] == APOSTROPHES[1] || term[n - 4..n - 1] == APOSTROPHES[2]) then term[..n - 4]
    else term
  }

  /** Removes exactly one apostrophe of the three kinds with its s, if there is one. */
  lemma PossessiveIff(term: string)
    ensures WithoutPossessive(term) != term <==>
      exists i, base: string | 0 <= i < 3 :: term == base + APOSTROPHES[i] + "s" || term == base + APOSTROPHES[i] + "S"
    ensures WithoutPossessive(term) != term ==>
      exists i | 0 <= i < 3 ::
        var base := WithoutPossessive(term);
        term == base + APOSTROPHES[i] + "s" || term == base + APOSTROPHES[i] + "S"
  {
    var n, base := |term|, WithoutPossessive(term);
    if base != term {
      var i := if term[n - 2] == '\'' then 0 else if term[n - 4..n - 1] == APOSTROPHES[1] then 1 else 2;
      assert term == base + APOSTROPHES[i] + [term[n - 1]];
    }
    if i, b: string :| 0 <= i < 3 && (term == b + APOSTROPHES[i] + "s" || term == b + APOSTROPHES[i] + "S") {
      var m := |APOSTROPHES[i]|;
      assert term[n - 1 - m..n - 1] == APOSTROPHES[i];
      assert i == 0 ==> term[n - 2] == term[n - 2..n - 1][0];
    }
  }

  // ----- the memo slot

  /** w bytes at `at`, little-endian. */
  function LoadWord(term: string, at: nat, w: nat): (r: nat)
    requires at + w <= |term|
    decreases w, term
  {
    if w == 0 then 0 else term[at] as nat % 256 + 256 * LoadWord(term, at + 1, w - 1)
  }

  /** A 64-bit hash of the two ends and the length, less all but 12 bits. */
  function MemoSlot(term: string): (slot: nat)
    requires |term| >= 3
    ensures slot < MEMO_SLOTS
  {
    var n := |term|;
    var w := if n >= 8 then 8 else if n >= 4 then 4 else 2;
    var a, b := LoadWord(term, 0, w), LoadWord(term, n - w, w);
    var mixed := Bits.Xor(Bits.Xor(a, b * 0x9E37_79B9_7F4A_7C15 % 0x1_0000_0000_0000_0000), n);
    mixed * 0xD6E8_FEB8_6659_FD93 % 0x1_0000_0000_0000_0000 / 0x10_0000_0000_0000
  }

  lemma FromEnd(d: Dict, w: string)
    requires w != ""
    ensures From(d, w, RULES) == Same(w)
  {
  }

  lemma ShortOrLong(d: Dict, term: string)
    requires |term| < 3 || |term| >= 50
    ensures Stem(d, term) == term
  {
  }

  /** A term outside the table is its own stem. */
  lemma Rejected(table: array<set<nat>>, d: Dict, mapped: seq<string>, term: string)
    requires DictOk(d, mapped) && EndingsOk(ENDINGS + mapped) && TableOk(table, ENDINGS + mapped)
    requires |term| >= 3 && !InTable(table, term)
    ensures Stem(d, term) == term
  {
    hide From, Passes, EndingsOk, CellOk;
    var n := |term|;
    if Letter(term[n - 1]) && Letter(term[n - 2]) && Letter(term[n - 3]) {
      TableDecides(table, mapped, term);
      ScreenProvesIdentity(d, mapped, term);
    } else {
      assert !Letters(term);
    }
  }
}
