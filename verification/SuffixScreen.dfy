/** The table that rules out stemming from the last three letters of a term. */
module SuffixScreen {
  import opened KStemRules

  function Code(c: char): (n: int) { c as int - 'a' as int }

  /** Endings are nonempty words. */
  ghost predicate EndingsOk(endings: seq<string>) {
    forall i | 0 <= i < |endings| :: endings[i] != "" && Letters(endings[i])
  }

  /** The ending allows a term whose last letters have these codes. */
  predicate Allows(e: string, last: int, previous: int, third: int) {
    && e != "" && last == Code(e[|e| - 1])
    && (|e| >= 2 ==> previous == Code(e[|e| - 2]))
    && (|e| >= 3 ==> third == Code(e[|e| - 3]))
  }

  /** Cell for two letters holds the third letters some ending allows. */
  ghost predicate Tabulates(cell: set<nat>, endings: seq<string>, last: nat, previous: nat) {
    forall third: nat | third < 26 ::
      third in cell <==> SomeAllows(endings, last, previous, third)
  }

  ghost predicate SomeAllows(endings: seq<string>, last: nat, previous: nat, third: nat) {
    exists i | 0 <= i < |endings| :: Allows(endings[i], last, previous, third)
  }

  ghost predicate CellOk(table: array<set<nat>>, endings: seq<string>, last: nat, previous: nat)
    requires last < 26 && previous < 26 && table.Length == 26 * 26
    reads table
  {
    Tabulates(table[last * 26 + previous], endings, last, previous)
  }

  ghost predicate TableOk(table: array<set<nat>>, endings: seq<string>)
    reads table
  {
    && table.Length == 26 * 26
    && forall last: nat, previous: nat | last < 26 && previous < 26 :: CellOk(table, endings, last, previous)
  }

  const EVERY: set<nat> := {0, 1, 2, 3, 4, 5, 6, 7, 8, 9, 10, 11, 12, 13, 14, 15, 16, 17, 18, 19, 20, 21, 22, 23, 24, 25}

  lemma SomeAllowsAppend(before: seq<string>, e: string, last: nat, previous: nat, third: nat)
    ensures SomeAllows(before + [e], last, previous, third)
      <==> SomeAllows(before, last, previous, third) || Allows(e, last, previous, third)
  {
    hide Allows;
    var all := before + [e];
    if i :| 0 <= i < |before| && Allows(before[i], last, previous, third) {
      assert Allows(all[i], last, previous, third);
    }
    if Allows(e, last, previous, third) { assert Allows(all[|before|], last, previous, third); }
  }

  lemma AllowsAppend(before: seq<string>, e: string, cell: set<nat>, last: nat, previous: nat)
    requires Tabulates(cell, before, last, previous) && e != ""
    ensures (last != Code(e[|e| - 1]) || (|e| >= 2 && previous != Code(e[|e| - 2]))) ==>
              Tabulates(cell, before + [e], last, previous)
    ensures last == Code(e[|e| - 1]) && |e| < 3 && (|e| == 2 ==> previous == Code(e[|e| - 2])) ==>
              Tabulates(cell + EVERY, before + [e], last, previous)
    ensures last == Code(e[|e| - 1]) && |e| >= 3 && previous == Code(e[|e| - 2]) && 0 <= Code(e[|e| - 3]) ==>
              Tabulates(cell + {Code(e[|e| - 3])}, before + [e], last, previous)
  {
    hide SomeAllows, Code;
    forall third: nat | third < 26
      ensures SomeAllows(before + [e], last, previous, third)
        <==> SomeAllows(before, last, previous, third) || Allows(e, last, previous, third)
    {
      SomeAllowsAppend(before, e, last, previous, third);
    }
  }

  /** Sets the bits one ending allows. */
  method AddEnding(table: array<set<nat>>, ghost before: seq<string>, e: string)
    requires TableOk(table, before) && e != "" && Letters(e)
    modifies table
    ensures TableOk(table, before + [e])
  {
    hide Tabulates;
    var last: nat, previous: nat := Code(e[|e| - 1]), 0;
    while previous < 26
      invariant 0 <= previous <= 26
      invariant forall p: nat | p < previous :: CellOk(table, before + [e], last, p)
      invariant forall l: nat, p: nat | l < 26 && p < 26 && !(l == last && p < previous) ::
        CellOk(table, before, l, p)
    {
      assert CellOk(table, before, last, previous);
      AllowsAppend(before, e, table[last * 26 + previous], last, previous);
      if |e| >= 2 && previous != Code(e[|e| - 2]) {
        assert CellOk(table, before + [e], last, previous);
        previous := previous + 1;
        continue;
      }
      label unset:
      table[last * 26 + previous] := table[last * 26 + previous]
        + (if |e| < 3 then EVERY else {Code(e[|e| - 3])});
      assert CellOk(table, before + [e], last, previous);
      forall l: nat, p: nat | l < 26 && p < 26 && !(l == last && p <= previous) ensures CellOk(table, before, l, p) {
        assert l * 26 + p != last * 26 + previous && old@unset(CellOk(table, before, l, p));
      }
      forall p: nat | p < previous ensures CellOk(table, before + [e], last, p) {
        assert last * 26 + p != last * 26 + previous && old@unset(CellOk(table, before + [e], last, p));
      }
      previous := previous + 1;
    }
    forall l: nat, p: nat | l < 26 && p < 26 ensures CellOk(table, before + [e], l, p) {
      if l != last {
        assert CellOk(table, before, l, p);
        AllowsAppend(before, e, table[l * 26 + p], l, p);
      }
    }
  }

  method MakeTable(endings: seq<string>) returns (table: array<set<nat>>)
    requires EndingsOk(endings)
    ensures fresh(table) && TableOk(table, endings)
  {
    table := new set<nat>[26 * 26](_ => {});
    var i := 0;
    while i < |endings|
      invariant 0 <= i <= |endings| && fresh(table) && TableOk(table, endings[..i])
    {
      AddEnding(table, endings[..i], endings[i]);
      assert endings[..i] + [endings[i]] == endings[..i + 1];
      i := i + 1;
    }
    assert endings[..i] == endings;
  }

  lemma AllowsIsMatches(e: string, term: string)
    requires e != "" && |term| >= 3
    ensures Matches(term, e)
      <==> Allows(e, Code(term[|term| - 1]), Code(term[|term| - 2]), Code(term[|term| - 3]))
  {
  }

  /** The last three bytes are letters, and the table has their bit. */
  predicate InTable(table: array<set<nat>>, term: string)
    requires |term| >= 3 && table.Length == 26 * 26
    reads table
  {
    var last, previous, third := Code(term[|term| - 1]), Code(term[|term| - 2]), Code(term[|term| - 3]);
    0 <= last < 26 && 0 <= previous < 26 && 0 <= third < 26 && third in table[last * 26 + previous]
  }

  /** The table decides exactly whether the last letters match an ending. */
  lemma TableDecides(table: array<set<nat>>, mapped: seq<string>, term: string)
    requires TableOk(table, ENDINGS + mapped) && EndingsOk(ENDINGS + mapped) && |term| >= 3
    requires Letter(term[|term| - 1]) && Letter(term[|term| - 2]) && Letter(term[|term| - 3])
    ensures InTable(table, term) <==> Passes(term, mapped)
  {
    hide Matches, Allows;
    var all := ENDINGS + mapped;
    forall i | 0 <= i < |all|
      ensures Matches(term, all[i])
        <==> Allows(all[i], Code(term[|term| - 1]), Code(term[|term| - 2]), Code(term[|term| - 3]))
    {
      AllowsIsMatches(all[i], term);
    }
    assert CellOk(table, all, Code(term[|term| - 1]), Code(term[|term| - 2]));
    assert Passes(term, mapped) <==> exists i | 0 <= i < |all| :: Matches(term, all[i]) by {
      if i :| 0 <= i < |ENDINGS| && Matches(term, ENDINGS[i]) { assert Matches(term, all[i]); }
      if i :| 0 <= i < |mapped| && Matches(term, mapped[i]) { assert Matches(term, all[|ENDINGS| + i]); }
    }
  }
}
