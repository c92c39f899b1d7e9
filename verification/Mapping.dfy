/** The mapping char filter: a byte trie of rewrite rules, and the scan that
    replaces the longest rule source at each position. */
module Mapping {
  import opened CharFilter
  import opened CharStages
  import opened Options

  // ----- what the rules mean

  /** Decoded rules, from source to replacement. */
  type Rules = map<string, string>

  datatype Rule = Rule(source: string, replacement: string)

  /** Length of the longest rule source among the prefixes of s of at most n
      bytes, 0 when there is none. */
  function Longest(rules: Rules, s: string, n: nat): (k: nat)
    requires n <= |s|
    ensures k <= n && (k > 0 ==> s[..k] in rules)
  {
    if n == 0 then 0 else if s[..n] in rules then n else Longest(rules, s, n - 1)
  }

  /** Left to right, the longest rule at each position wins and its replacement
      is not read again. */
  function Rewritten(rules: Rules, s: string): (r: string)
    decreases |s|
  {
    if s == "" then ""
    else
      var k := Longest(rules, s, |s|);
      if k == 0 then [s[0]] + Rewritten(rules, s[1..]) else rules[s[..k]] + Rewritten(rules, s[k..])
  }

  /** Longest is the leftmost-longest choice: a rule matches there, and no longer
      prefix is a rule. */
  lemma {:induction false} LongestSpec(rules: Rules, s: string, n: nat)
    requires n <= |s|
    ensures
      var k := Longest(rules, s, n);
      && (k > 0 ==> s[..k] in rules)
      && forall m | k < m <= n :: s[..m] !in rules
  {
    if n > 0 && s[..n] !in rules { LongestSpec(rules, s, n - 1); }
  }

  lemma {:induction false} LongestStops(rules: Rules, s: string, k: nat, n: nat)
    requires k <= n <= |s| && forall m | k < m <= n :: s[..m] !in rules
    ensures Longest(rules, s, n) == Longest(rules, s, k)
  {
    if n > k { LongestStops(rules, s, k, n - 1); }
  }

  /** The rules a list stands for. */
  function RulesOf(list: seq<Rule>): (r: Rules) {
    if list == [] then map[]
    else RulesOf(list[..|list| - 1])[list[|list| - 1].source := list[|list| - 1].replacement]
  }

  /** Nonempty sources, no two alike. */
  ghost predicate Accepted(list: seq<Rule>) {
    && (forall i | 0 <= i < |list| :: list[i].source != "")
    && (forall i, j | 0 <= i < j < |list| :: list[i].source != list[j].source)
  }

  lemma {:induction false} RulesOfMembers(list: seq<Rule>)
    requires Accepted(list)
    ensures forall s, r :: (s in RulesOf(list) && RulesOf(list)[s] == r) <==> Rule(s, r) in list
    ensures forall s :: s in RulesOf(list) <==> exists i | 0 <= i < |list| :: list[i].source == s
  {
    if list != [] {
      var n := |list| - 1;
      RulesOfMembers(list[..n]);
      assert list == list[..n] + [list[n]];
    }
  }

  /** The order the rules were written in makes no difference to any text. */
  lemma OrderIrrelevant(a: seq<Rule>, b: seq<Rule>, s: string)
    requires Accepted(a) && Accepted(b) && forall rule :: rule in a <==> rule in b
    ensures RulesOf(a) == RulesOf(b) && Rewritten(RulesOf(a), s) == Rewritten(RulesOf(b), s)
  {
    RulesOfMembers(a);
    RulesOfMembers(b);
    forall k | k in RulesOf(a) ensures k in RulesOf(b) && RulesOf(b)[k] == RulesOf(a)[k] {
      assert Rule(k, RulesOf(a)[k]) in a;
    }
    forall k | k in RulesOf(b) ensures k in RulesOf(a) {
      assert Rule(k, RulesOf(b)[k]) in b;
    }
  }

  // ----- the trie

  datatype Edge = Edge(key: char, target: nat)

  datatype Node = Node(edges: seq<Edge>, replacement: Option<nat>)

  ghost predicate DistinctKeys(edges: seq<Edge>) {
    forall i, j | 0 <= i < j < |edges| :: edges[i].key != edges[j].key
  }

  predicate SortedEdges(edges: seq<Edge>) {
    forall i, j | 0 <= i < j < |edges| :: edges[i].key < edges[j].key
  }

  /** Where a byte string leads: the node of every string the trie holds. */
  type Paths = map<string, nat>

  ghost predicate PathsOk(nodes: seq<Node>, at: Paths) {
    && "" in at && at[""] == 0
    && (forall p | p in at :: at[p] < |nodes|)
    && (forall p, q | p in at && q in at && at[p] == at[q] :: p == q)
    && (forall p, c | Child(p, c) in at :: p in at)
  }

  function Child(p: string, c: char): (q: string)
    ensures |q| == |p| + 1 && q[|p|] == c && q[..|p|] == p
  {
    p + [c]
  }

  lemma ChildInjective(p: string, c: char, q: string, d: char)
    ensures Child(p, c) == Child(q, d) ==> p == q && c == d
  {
    assert Child(p, c)[..|p|] == p && Child(q, d)[..|q|] == q;
  }

  /** Target of the edge for c, by linear scan. */
  function Target(edges: seq<Edge>, c: char): (t: Option<nat>) {
    if edges == [] then None
    else if edges[0].key == c then Some(edges[0].target)
    else Target(edges[1..], c)
  }

  lemma NoTarget(c: char)
    ensures Target([], c) == None
  {
  }

  /** The edges of each node lead to the one-byte extensions of its string. */
  ghost predicate EdgesOk(nodes: seq<Node>, at: Paths)
    requires PathsOk(nodes, at)
  {
    && (forall i | 0 <= i < |nodes| :: DistinctKeys(nodes[i].edges))
    && (forall p, c | p in at :: Leads(nodes, at, p, c))
  }

  ghost predicate Leads(nodes: seq<Node>, at: Paths, p: string, c: char)
    requires p in at && at[p] < |nodes|
  {
    Target(nodes[at[p]].edges, c) == if Child(p, c) in at then Some(at[Child(p, c)]) else None
  }

  /** A node carries a replacement just when its string is a rule source. */
  ghost predicate MarksOk(nodes: seq<Node>, at: Paths, replacements: seq<string>, rules: Rules)
    requires PathsOk(nodes, at)
  {
    && (forall s | s in rules :: s in at)
    && (forall p | p in at :: p in rules <==> nodes[at[p]].replacement.Some?)
    && (forall p | p in rules ::
          var r := nodes[at[p]].replacement.value; r < |replacements| && replacements[r] == rules[p])
  }

  /** Every prefix of a held string is held. */
  lemma {:induction false} PathPrefix(nodes: seq<Node>, at: Paths, p: string, n: nat)
    requires PathsOk(nodes, at) && p in at && n <= |p|
    ensures p[..n] in at
    decreases |p|
  {
    if n < |p| {
      var k := |p| - 1;
      assert p == Child(p[..k], p[k]);
      assert p[..k][..n] == p[..n];
      PathPrefix(nodes, at, p[..k], n);
    } else {
      assert p[..n] == p;
    }
  }

  lemma {:induction false} TargetMember(edges: seq<Edge>, c: char)
    requires DistinctKeys(edges)
    ensures forall t: nat :: Target(edges, c) == Some(t) <==> Edge(c, t) in edges
  {
    if edges != [] {
      TargetMember(edges[1..], c);
      assert edges == [edges[0]] + edges[1..];
    }
  }

  lemma {:induction false} TargetAppend(edges: seq<Edge>, e: Edge, c: char)
    ensures Target(edges + [e], c)
      == if Target(edges, c).Some? then Target(edges, c) else if e.key == c then Some(e.target) else None
  {
    if edges != [] {
      TargetAppend(edges[1..], e, c);
      assert (edges + [e])[1..] == edges[1..] + [e];
    }
  }

  /** Adding a child node to the end of a path keeps everything else. */
  lemma GrowPath(nodes: seq<Node>, at: Paths, replacements: seq<string>, rules: Rules, p: string, c: char)
    requires PathsOk(nodes, at) && EdgesOk(nodes, at) && MarksOk(nodes, at, replacements, rules)
    requires p in at && Child(p, c) !in at
    ensures
      var more := Grown(nodes, at[p], c);
      var at' := at[Child(p, c) := |nodes|];
      PathsOk(more, at') && EdgesOk(more, at') && MarksOk(more, at', replacements, rules)
  {
    hide DistinctKeys, Target, Leads, Child;
    var more := Grown(nodes, at[p], c);
    var at' := at[Child(p, c) := |nodes|];
    GrownEdges(nodes, at, p, c);
    GrownPaths(nodes, at, replacements, rules, p, c);
    assert Leads(nodes, at, p, c);
    forall q, d | q in at' ensures Leads(more, at', q, d) {
      assert q in at ==> Leads(nodes, at, q, d);
      GrownLeads(nodes, at, p, c, q, d);
    }
  }

  lemma GrownPaths(nodes: seq<Node>, at: Paths, replacements: seq<string>, rules: Rules, p: string, c: char)
    requires PathsOk(nodes, at) && MarksOk(nodes, at, replacements, rules)
    requires p in at && Child(p, c) !in at
    ensures
      var more := Grown(nodes, at[p], c);
      var at' := at[Child(p, c) := |nodes|];
      PathsOk(more, at') && MarksOk(more, at', replacements, rules)
  {
    assert Child(p, c) !in rules;
    assert forall i | 0 <= i < |nodes| :: Grown(nodes, at[p], c)[i].replacement == nodes[i].replacement;
  }

  function Grown(nodes: seq<Node>, node: nat, c: char): (r: seq<Node>)
    requires node < |nodes|
    ensures |r| == |nodes| + 1
  {
    nodes[node := nodes[node].(edges := nodes[node].edges + [Edge(c, |nodes|)])] + [Node([], None)]
  }

  lemma GrownEdges(nodes: seq<Node>, at: Paths, p: string, c: char)
    requires PathsOk(nodes, at) && EdgesOk(nodes, at) && p in at && Child(p, c) !in at
    ensures forall i | 0 <= i <= |nodes| :: DistinctKeys(Grown(nodes, at[p], c)[i].edges)
  {
    assert Leads(nodes, at, p, c);
    TargetMember(nodes[at[p]].edges, c);
    forall e | e in nodes[at[p]].edges ensures e.key != c {
      assert e != Edge(c, e.target);
    }
  }

  lemma GrownLeads(nodes: seq<Node>, at: Paths, p: string, c: char, q: string, d: char)
    requires PathsOk(nodes, at) && p in at && Child(p, c) !in at
    requires q in at || q == Child(p, c)
    requires q in at ==> Leads(nodes, at, q, d)
    requires Leads(nodes, at, p, c)
    ensures
      var at' := at[Child(p, c) := |nodes|];
      at'[q] < |nodes| + 1 && Leads(Grown(nodes, at[p], c), at', q, d)
  {
    hide DistinctKeys, Child, Target;
    if q == Child(p, c) {
      NoTarget(d);
      assert Child(q, d) !in at && |Child(q, d)| > |q|;
    } else if q == p {
      TargetAppend(nodes[at[p]].edges, Edge(c, |nodes|), d);
      ChildInjective(p, d, p, c);
    } else {
      assert at[q] != at[p];
      ChildInjective(q, d, p, c);
      assert Grown(nodes, at[p], c)[at[q]] == nodes[at[q]];
    }
  }

  /** A finished path becomes a rule. */
  lemma MarkPath(nodes: seq<Node>, at: Paths, replacements: seq<string>, rules: Rules, p: string, text: string)
    requires PathsOk(nodes, at) && EdgesOk(nodes, at) && MarksOk(nodes, at, replacements, rules)
    requires p in at && p !in rules
    ensures
      var more := nodes[at[p] := nodes[at[p]].(replacement := Some(|replacements|))];
      && PathsOk(more, at) && EdgesOk(more, at)
      && MarksOk(more, at, replacements + [text], rules[p := text])
  {
    hide DistinctKeys, Target, Child;
    var more := nodes[at[p] := nodes[at[p]].(replacement := Some(|replacements|))];
    assert forall i | 0 <= i < |nodes| :: more[i].edges == nodes[i].edges;
    forall q, d | q in at ensures Leads(more, at, q, d) {
      assert Leads(nodes, at, q, d);
    }
  }

  // ----- sorting the edges

  function Insert(e: Edge, edges: seq<Edge>): (r: seq<Edge>)
    requires SortedEdges(edges) && forall x | x in edges :: x.key != e.key
    ensures SortedEdges(r) && forall x :: x in r <==> x == e || x in edges
  {
    if edges == [] then [e]
    else if e.key < edges[0].key then [e] + edges
    else
      InsertTail(edges);
      [edges[0]] + Insert(e, edges[1..])
  }

  lemma InsertTail(edges: seq<Edge>)
    requires edges != [] && SortedEdges(edges)
    ensures SortedEdges(edges[1..]) && forall x :: x in edges <==> x == edges[0] || x in edges[1..]
    ensures forall x | x in edges[1..] :: edges[0].key < x.key
  {
    assert edges == [edges[0]] + edges[1..];
  }

  /** std::sort on one node's edges. */
  function Sort(edges: seq<Edge>): (r: seq<Edge>)
    requires DistinctKeys(edges)
    ensures SortedEdges(r) && forall x :: x in r <==> x in edges
  {
    if edges == [] then []
    else
      assert edges == [edges[0]] + edges[1..];
      Insert(edges[0], Sort(edges[1..]))
  }

  /** Sorting changes the order of the edges and nothing they lead to. */
  lemma SortKeepsTargets(edges: seq<Edge>, c: char)
    requires DistinctKeys(edges)
    ensures DistinctKeys(Sort(edges)) && Target(Sort(edges), c) == Target(edges, c)
  {
    hide Target, Sort;
    TargetMember(edges, c);
    TargetMember(Sort(edges), c);
    forall t: nat ensures Target(edges, c) == Some(t) <==> Target(Sort(edges), c) == Some(t) {
      assert Edge(c, t) in edges <==> Edge(c, t) in Sort(edges);
    }
  }

  ghost predicate FirstOk(first: set<char>, rules: Rules) {
    && "" !in rules
    && (forall s | s in rules :: s[0] in first)
    && (forall c | c in first :: exists s | s in rules :: s[0] == c)
  }

  datatype AddResult = Added | EmptySource | DuplicateSource

  class Trie {
    var first: set<char>
    var nodes: seq<Node>
    var replacements: seq<string>
    ghost var at: Paths
    ghost var rules: Rules

    ghost predicate Valid()
      reads this
    {
      && PathsOk(nodes, at) && EdgesOk(nodes, at) && MarksOk(nodes, at, replacements, rules)
      && FirstOk(first, rules)
    }

    /** Ready for lookups. */
    ghost predicate Sealed()
      reads this
    {
      Valid() && forall i | 0 <= i < |nodes| :: SortedEdges(nodes[i].edges)
    }

    constructor ()
      ensures Valid() && rules == map[]
    {
      first, nodes, replacements := {}, [Node([], None)], [];
      at, rules := map["" := 0], map[];
    }

    /** Adds one decoded rule, or reports why it cannot be added. */
    method Add(source: string, replacement: string) returns (r: AddResult)
      requires Valid()
      modifies this
      ensures Valid()
      ensures r == if source == "" then EmptySource else if source in old(rules) then DuplicateSource else Added
      ensures rules == if r.Added? then old(rules)[source := replacement] else old(rules)
    {
      hide PathsOk, EdgesOk, MarksOk;
      if source == "" { return EmptySource; }
      first := first + {source[0]};
      var node, i := 0, 0;
      RootPath(nodes, at);
      while i < |source|
        invariant i <= |source| && rules == old(rules) && first == old(first) + {source[0]}
        invariant PathsOk(nodes, at) && EdgesOk(nodes, at) && MarksOk(nodes, at, replacements, rules)
        invariant source[..i] in at && at[source[..i]] == node < |nodes|
      {
        var c := source[i];
        assert source[..i + 1] == Child(source[..i], c);
        var t := FindEdge(nodes[node].edges, c);
        FollowPath(nodes, at, source[..i], c);
        if t == None {
          var next := |nodes|;
          GrowPath(nodes, at, replacements, rules, source[..i], c);
          nodes := Grown(nodes, node, c);
          at := at[source[..i + 1] := next];
          node := next;
        } else {
          node := t.value;
        }
        i := i + 1;
      }
      assert source[..i] == source;
      MarkedIff(nodes, at, replacements, rules, source);
      if nodes[node].replacement.Some? { return DuplicateSource; }
      MarkPath(nodes, at, replacements, rules, source, replacement);
      nodes := nodes[node := nodes[node].(replacement := Some(|replacements|))];
      replacements := replacements + [replacement];
      rules := rules[source := replacement];
      return Added;
    }

    /** Sorts the edges of every node. */
    method Seal()
      requires Valid()
      modifies this`nodes
      ensures Sealed()
    {
      hide PathsOk, EdgesOk, MarksOk, Target, SortedEdges, DistinctKeys;
      ghost var was := nodes;
      DistinctOf(nodes, at);
      var i := 0;
      while i < |nodes|
        invariant 0 <= i <= |nodes| == |was|
        invariant forall k | 0 <= k < i :: nodes[k] == was[k].(edges := Sort(was[k].edges))
        invariant forall k | 0 <= k < i :: SortedEdges(nodes[k].edges)
        invariant forall k | i <= k < |nodes| :: nodes[k] == was[k]
      {
        nodes := nodes[i := nodes[i].(edges := Sort(nodes[i].edges))];
        i := i + 1;
      }
      SortedNodes(was, nodes, at, replacements, rules);
    }

    /** The child of a node for byte c, by binary search. */
    method Next(node: nat, c: char) returns (t: Option<nat>)
      requires node < |nodes| && SortedEdges(nodes[node].edges)
      ensures t == Target(nodes[node].edges, c)
    {
      var edges := nodes[node].edges;
      var lo, hi := 0, |edges|;
      while lo < hi
        invariant 0 <= lo <= hi <= |edges|
        invariant forall k | 0 <= k < lo :: edges[k].key < c
        invariant forall k | hi <= k < |edges| :: edges[k].key >= c
      {
        var mid := lo + (hi - lo) / 2;
        if edges[mid].key < c {
          lo := mid + 1;
        } else {
          hi := mid;
        }
      }
      TargetMember(edges, c);
      if lo < |edges| && edges[lo].key == c {
        assert edges[lo] == Edge(c, edges[lo].target);
        return Some(edges[lo].target);
      }
      forall k: nat ensures Edge(c, k) !in edges {
        assert forall j | 0 <= j < |edges| :: edges[j].key != c;
      }
      return None;
    }

    /** Longest rule source starting at pos: its end and its replacement. */
    method LongestAt(input: string, pos: nat) returns (end: nat, replacement: Option<nat>)
      requires Sealed() && pos < |input|
      ensures end == pos + Longest(rules, input[pos..], |input| - pos)
      ensures replacement.None? <==> end == pos
      ensures end > pos ==> input[pos..end] in rules && replacement.value < |replacements|
      ensures end > pos ==> replacements[replacement.value] == rules[input[pos..end]]
    {
      hide PathsOk, EdgesOk, MarksOk, Target, SortedEdges, Longest, Chosen;
      ghost var s := input[pos..];
      var node, scan := 0, pos;
      end, replacement := pos, None;
      RootPath(nodes, at);
      NothingChosen(rules, replacements, s);
      while scan < |input|
        invariant pos <= scan <= |input| && pos <= end
        invariant s[..scan - pos] in at && at[s[..scan - pos]] == node < |nodes|
        invariant Chosen(rules, replacements, s, scan - pos, end - pos, replacement)
      {
        var c := input[scan];
        assert s[..scan - pos + 1] == Child(s[..scan - pos], c);
        var t := Next(node, c);
        FollowPath(nodes, at, s[..scan - pos], c);
        if t == None {
          NoLongerRule(nodes, at, replacements, rules, s, scan - pos);
          ChosenStops(rules, replacements, s, scan - pos, end - pos, replacement);
          break;
        }
        node := t.value;
        ChosenStep(nodes, at, replacements, rules, s, scan - pos, end - pos, replacement);
        scan := scan + 1;
        if nodes[node].replacement.Some? {
          replacement, end := nodes[node].replacement, scan;
        }
      }
      WhatIsChosen(rules, replacements, s, end - pos, replacement);
      assert s[..end - pos] == input[pos..end];
    }
  }

  /** k is the longest rule among the prefixes up to n, and the replacement is its. */
  ghost predicate Chosen(rules: Rules, replacements: seq<string>, s: string, n: nat, k: nat, replacement: Option<nat>) {
    && k <= n <= |s| && k == Longest(rules, s, n) && (replacement.None? <==> k == 0)
    && (k > 0 ==> replacement.value < |replacements| && replacements[replacement.value] == rules[s[..k]])
  }

  lemma NothingChosen(rules: Rules, replacements: seq<string>, s: string)
    ensures Chosen(rules, replacements, s, 0, 0, None)
  {
  }

  /** One more byte: a marked node is a longer rule. */
  lemma ChosenStep(nodes: seq<Node>, at: Paths, replacements: seq<string>, rules: Rules,
                   s: string, n: nat, k: nat, replacement: Option<nat>)
    requires PathsOk(nodes, at) && MarksOk(nodes, at, replacements, rules)
    requires Chosen(rules, replacements, s, n, k, replacement) && n < |s| && s[..n + 1] in at
    ensures at[s[..n + 1]] < |nodes|
    ensures
      var r := nodes[at[s[..n + 1]]].replacement;
      if r.Some? then Chosen(rules, replacements, s, n + 1, n + 1, r)
      else Chosen(rules, replacements, s, n + 1, k, replacement)
  {
    hide PathsOk, MarksOk;
    MarkedIff(nodes, at, replacements, rules, s[..n + 1]);
  }

  lemma ChosenStops(rules: Rules, replacements: seq<string>, s: string, n: nat, k: nat, replacement: Option<nat>)
    requires Chosen(rules, replacements, s, n, k, replacement) && forall m | n < m <= |s| :: s[..m] !in rules
    ensures Chosen(rules, replacements, s, |s|, k, replacement)
  {
    hide Longest;
    LongestStops(rules, s, n, |s|);
  }

  lemma WhatIsChosen(rules: Rules, replacements: seq<string>, s: string, k: nat, replacement: Option<nat>)
    requires Chosen(rules, replacements, s, |s|, k, replacement)
    ensures k == Longest(rules, s, |s|) && (replacement.None? <==> k == 0)
    ensures k > 0 ==>
      && s[..k] in rules && replacement.value < |replacements|
      && replacements[replacement.value] == rules[s[..k]]
  {
    hide Longest;
  }

  lemma RootPath(nodes: seq<Node>, at: Paths)
    requires PathsOk(nodes, at)
    ensures "" in at && at[""] == 0 < |nodes|
  {
  }

  /** An edge leads on just when the longer string is held. */
  lemma FollowPath(nodes: seq<Node>, at: Paths, p: string, c: char)
    requires PathsOk(nodes, at) && EdgesOk(nodes, at) && p in at
    ensures at[p] < |nodes|
    ensures
      var t := Target(nodes[at[p]].edges, c);
      (t.Some? <==> Child(p, c) in at) && (t.Some? ==> at[Child(p, c)] == t.value < |nodes|)
  {
    assert Leads(nodes, at, p, c);
  }

  lemma MarkedIff(nodes: seq<Node>, at: Paths, replacements: seq<string>, rules: Rules, p: string)
    requires PathsOk(nodes, at) && MarksOk(nodes, at, replacements, rules) && p in at
    ensures at[p] < |nodes| && (p in rules <==> nodes[at[p]].replacement.Some?)
    ensures p in rules ==>
      var r := nodes[at[p]].replacement.value; r < |replacements| && replacements[r] == rules[p]
  {
  }

  lemma DistinctOf(nodes: seq<Node>, at: Paths)
    requires PathsOk(nodes, at) && EdgesOk(nodes, at)
    ensures forall i | 0 <= i < |nodes| :: DistinctKeys(nodes[i].edges)
  {
  }

  /** Past the last held prefix there is no rule. */
  lemma NoLongerRule(nodes: seq<Node>, at: Paths, replacements: seq<string>, rules: Rules, s: string, n: nat)
    requires PathsOk(nodes, at) && MarksOk(nodes, at, replacements, rules) && n < |s| && s[..n + 1] !in at
    ensures forall m | n < m <= |s| :: s[..m] !in rules
  {
    hide EdgesOk;
    forall m | n < m <= |s| ensures s[..m] !in at {
      assert s[..m][..n + 1] == s[..n + 1];
      if s[..m] in at { PathPrefix(nodes, at, s[..m], n + 1); }
    }
  }

  lemma SortedNodes(was: seq<Node>, nodes: seq<Node>, at: Paths, replacements: seq<string>, rules: Rules)
    requires PathsOk(was, at) && EdgesOk(was, at) && MarksOk(was, at, replacements, rules)
    requires |nodes| == |was|
    requires forall k | 0 <= k < |was| :: nodes[k] == was[k].(edges := Sort(was[k].edges))
    ensures PathsOk(nodes, at) && EdgesOk(nodes, at) && MarksOk(nodes, at, replacements, rules)
  {
    hide Target, Sort, SortedEdges;
    forall i | 0 <= i < |nodes| ensures DistinctKeys(nodes[i].edges) {
      SortKeepsTargets(was[i].edges, 'a');
    }
    forall p, c | p in at ensures Leads(nodes, at, p, c) {
      assert Leads(was, at, p, c);
      SortKeepsTargets(was[at[p]].edges, c);
    }
  }

  method FindEdge(edges: seq<Edge>, c: char) returns (t: Option<nat>)
    ensures t == Target(edges, c)
  {
    var i := 0;
    while i < |edges|
      invariant 0 <= i <= |edges| && Target(edges, c) == Target(edges[i..], c)
    {
      if edges[i].key == c { return Some(edges[i].target); }
      i := i + 1;
    }
    return None;
  }

  // ----- building and applying

  lemma AcceptedStep(list: seq<Rule>, i: nat)
    requires i < |list| && Accepted(list[..i])
    ensures Accepted(list[..i + 1]) <==> list[i].source != "" && list[i].source !in RulesOf(list[..i])
    ensures RulesOf(list[..i + 1]) == RulesOf(list[..i])[list[i].source := list[i].replacement]
    ensures Accepted(list) ==> Accepted(list[..i + 1])
  {
    assert list[..i + 1][..i] == list[..i];
    assert list[..i + 1] == list[..i] + [list[i]];
    AcceptedAppend(list[..i], list[i]);
  }

  lemma AcceptedAppend(init: seq<Rule>, rule: Rule)
    requires Accepted(init)
    ensures Accepted(init + [rule]) <==> rule.source != "" && rule.source !in RulesOf(init)
  {
    hide RulesOf;
    RulesOfMembers(init);
    var list := init + [rule];
    if rule.source in RulesOf(init) {
      var i :| 0 <= i < |init| && init[i].source == rule.source;
      assert list[i].source == list[|init|].source;
    }
    assert list[|init|] == rule;
  }

  /** Adds the rules in order; null if one is refused. */
  method BuildTrie(list: seq<Rule>) returns (trie: Trie?)
    ensures trie != null <==> Accepted(list)
    ensures trie != null ==> fresh(trie) && trie.Sealed() && trie.rules == RulesOf(list)
  {
    hide Accepted, RulesOf, Trie.Valid;
    var t := new Trie();
    var i := 0;
    EmptyList();
    assert list[..0] == [];
    while i < |list|
      invariant 0 <= i <= |list| && fresh(t) && t.Valid()
      invariant Accepted(list[..i]) && t.rules == RulesOf(list[..i])
    {
      AcceptedStep(list, i);
      var r := t.Add(list[i].source, list[i].replacement);
      if !r.Added? { return null; }
      i := i + 1;
    }
    assert list[..i] == list;
    t.Seal();
    return t;
  }

  lemma EmptyList()
    ensures Accepted([]) && RulesOf([]) == map[]
  {
  }

  /** No rule starts with a byte outside `first`. */
  lemma NoRuleAt(first: set<char>, rules: Rules, s: string)
    requires FirstOk(first, rules) && s != "" && s[0] !in first
    ensures Longest(rules, s, |s|) == 0
  {
    LongestSpec(rules, s, |s|);
  }

  lemma RewriteStep(rules: Rules, s: string)
    requires s != ""
    ensures
      var k := Longest(rules, s, |s|);
      Rewritten(rules, s) == if k == 0 then [s[0]] + Rewritten(rules, s[1..]) else rules[s[..k]] + Rewritten(rules, s[k..])
  {
    hide Longest;
  }

  /** A rule's source that no longer source extends is replaced, and what follows it is
      rewritten on its own. */
  lemma SourceReplaced(rules: Rules, a: string, b: string)
    requires a != "" && a in rules && forall k | |a| < k <= |a| + |b| :: (a + b)[..k] !in rules
    ensures Rewritten(rules, a + b) == rules[a] + Rewritten(rules, b)
  {
    hide Longest, Rewritten;
    var s := a + b;
    assert s[..|a|] == a && s[|a|..] == b;
    LongestSpec(rules, s, |s|);
    RewriteStep(rules, s);
  }

  /** A byte no source starts at stays. */
  lemma ByteKept(rules: Rules, c: char, b: string)
    requires forall k | 0 < k <= 1 + |b| :: ([c] + b)[..k] !in rules
    ensures Rewritten(rules, [c] + b) == [c] + Rewritten(rules, b)
  {
    hide Longest, Rewritten;
    var s := [c] + b;
    assert s[1..] == b;
    LongestSpec(rules, s, |s|);
    RewriteStep(rules, s);
  }

  lemma KeepOne(rules: Rules, value: string, pos: nat)
    requires pos < |value| && Longest(rules, value[pos..], |value| - pos) == 0
    ensures Rewritten(rules, value[pos..]) == value[pos..pos + 1] + Rewritten(rules, value[pos + 1..])
  {
    hide Longest, Rewritten;
    RewriteStep(rules, value[pos..]);
    assert value[pos..][1..] == value[pos + 1..] && value[pos..pos + 1] == [value[pos]];
  }

  lemma SkipByte(rules: Rules, value: string, subs: seq<Sub>, pos: nat)
    requires Ordered(value, subs) && EndOf(subs) <= pos < |value|
    requires Longest(rules, value[pos..], |value| - pos) == 0
    ensures Prefix(value, subs, pos) + Rewritten(rules, value[pos..])
      == Prefix(value, subs, pos + 1) + Rewritten(rules, value[pos + 1..])
  {
    hide Prefix, Ordered, Rewritten, Longest;
    PrefixGrows(value, subs, pos, pos + 1);
    KeepOne(rules, value, pos);
  }

  lemma TakeRule(rules: Rules, value: string, pos: nat, end: nat)
    requires pos < end <= |value| && end - pos == Longest(rules, value[pos..], |value| - pos)
    ensures value[pos..end] in rules
    ensures Rewritten(rules, value[pos..]) == rules[value[pos..end]] + Rewritten(rules, value[end..])
  {
    hide Longest, Rewritten;
    RewriteStep(rules, value[pos..]);
    assert value[pos..][..end - pos] == value[pos..end];
    assert value[pos..][end - pos..] == value[end..];
  }

  /** The whole text rewritten, when nothing is left to read. */
  lemma RewrittenAll(rules: Rules, value: string, subs: seq<Sub>)
    requires Ordered(value, subs)
    ensures EndOf(subs) <= |value|
    ensures Prefix(value, subs, |value|) + Rewritten(rules, value[|value|..]) == Spliced(value, subs)
  {
    EndInside(value, subs);
    assert value[EndOf(subs)..|value|] == value[EndOf(subs)..];
    assert value[|value|..] == "";
  }

  /** Replaces the longest rule source at pos, or keeps one byte. */
  method Step(trie: Trie, f: Filter, pos: nat) returns (next: nat)
    requires trie.Sealed() && f.Building() && Consuming(f.subs) && EndOf(f.subs) <= pos < |f.input|
    modifies f
    ensures f.Building() && f.input == old(f.input) && Consuming(f.subs)
    ensures pos < next <= |f.input| && EndOf(f.subs) <= next
    ensures Prefix(f.input, old(f.subs), pos) + Rewritten(trie.rules, f.input[pos..])
      == Prefix(f.input, f.subs, next) + Rewritten(trie.rules, f.input[next..])
  {
    hide PathsOk, EdgesOk, MarksOk, FirstOk, Rewritten, Longest, Prefix, LogOk, Ordered, Built, BuiltOrigins;
    if f.input[pos] !in trie.first {
      NoRuleAt(trie.first, trie.rules, f.input[pos..]);
      SkipByte(trie.rules, f.input, f.subs, pos);
      return pos + 1;
    }
    var end, replacement := trie.LongestAt(f.input, pos);
    if replacement == None {
      SkipByte(trie.rules, f.input, f.subs, pos);
      return pos + 1;
    }
    TakeRule(trie.rules, f.input, pos, end);
    f.Replace(pos, end, trie.replacements[replacement.value]);
    return end;
  }

  /** Filters a text through a sealed trie. */
  method Apply(trie: Trie, f: Filter, value: string) returns (out: Option<string>)
    requires trie.Sealed()
    modifies f
    ensures out == if f.subs != [] && |Rewritten(trie.rules, value)| > INT_MAX then None
                   else Some(Rewritten(trie.rules, value))
    ensures f.Ready() && f.input == value && Consuming(f.subs)
    ensures Spliced(value, f.subs) == Rewritten(trie.rules, value)
  {
    hide PathsOk, EdgesOk, MarksOk, FirstOk, Rewritten, Longest, Prefix, LogOk, Ordered, Built, BuiltOrigins;
    f.Begin(value);
    var pos := 0;
    assert value[0..] == value && value[0..0] == "";
    StartOfText(value);
    while pos < |value|
      invariant 0 <= pos <= |value| && f.Building() && f.input == value
      invariant EndOf(f.subs) <= pos && Consuming(f.subs)
      invariant Rewritten(trie.rules, value) == Prefix(value, f.subs, pos) + Rewritten(trie.rules, value[pos..])
    {
      pos := Step(trie, f, pos);
    }
    RewrittenAll(trie.rules, value, f.subs);
    out := f.Finish();
  }

  lemma StartOfText(value: string)
    ensures Ordered(value, []) && Prefix(value, [], 0) == ""
  {
  }
}
