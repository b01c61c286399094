/** The whole program, from the list of words to the sorted result lines, in
    its Python form (`main`) and its Rust form (`fn main`). */
module Solver {
  import opened Keys
  import opened Sequences
  import opened Canon
  import opened Graph
  import opened Cliques
  import opened Format

  /** `k` is the key of some kept input word. */
  ghost predicate IsKey(ws: seq<Word>, k: Key)
    requires KeptAreLower(ws)
  {
    KeptWithKey(ws, k) != []
  }

  /** A solution: five distinct keys of input words, no two sharing a letter. */
  ghost predicate Solution(ws: seq<Word>, t: seq<Key>)
    requires KeptAreLower(ws)
  {
    && |t| == 5 && Distinct(t)
    && (forall a :: 0 <= a < |t| ==> IsKey(ws, t[a]))
    && PairwiseDisjoint(t)
  }

  /** The result lines for `ws`: the line of every solution, each exactly
      once, in increasing string order. */
  ghost predicate IsOutput(ws: seq<Word>, lines: seq<string>)
    requires KeptAreLower(ws)
  {
    && SortedBy(lines, LexLe)
    && Distinct(lines)
    && forall l :: l in lines <==>
         exists t :: Solution(ws, t) && l == CliqueToStr(t, Canonicalize(ws).words)
  }

  /** The result lines are determined by the input. */
  lemma OutputUnique(ws: seq<Word>, a: seq<string>, b: seq<string>)
    requires KeptAreLower(ws) && IsOutput(ws, a) && IsOutput(ws, b)
    ensures a == b
  {
    assert Elems(a) == Elems(b) by {
      assert forall l :: l in Elems(a) <==> l in a;
      assert forall l :: l in Elems(b) <==> l in b;
    }
    DistinctSameMultiset(a, b);
    LexOrder();
    SortedUnique(a, b, LexLe);
  }

  /** The line of each clique, in the order the cliques were found. */
  function CliqueLines(cliques: seq<seq<Key>>, words: map<Key, seq<Word>>): seq<string> {
    MapSeq(t => CliqueToStr(t, words), cliques)
  }

  /** What the grouping gives the later stages: its keys are the input keys,
      its groups are non-empty, keyed, and made of plain words. */
  lemma GroupingFacts(ws: seq<Word>)
    requires KeptAreLower(ws)
    ensures forall k :: k in Canonicalize(ws).words <==> IsKey(ws, k)
    ensures Keyed(Canonicalize(ws).words)
    ensures forall t :: (forall a :: 0 <= a < |t| ==> t[a] in Canonicalize(ws).words) ==>
              Readable(t, Canonicalize(ws).words)
  {
    GroupingKeys(ws);
    GroupingKeyed(ws);
    GroupingPlain(ws);
  }

  lemma GroupingKeys(ws: seq<Word>)
    requires KeptAreLower(ws)
    ensures forall k :: k in Canonicalize(ws).words <==> IsKey(ws, k)
  {
    CanonicalizeGroups(ws);
  }

  lemma GroupingKeyed(ws: seq<Word>)
    requires KeptAreLower(ws)
    ensures Keyed(Canonicalize(ws).words)
    ensures forall k :: k in Canonicalize(ws).words ==> Canonicalize(ws).words[k] != []
  {
    var words := Canonicalize(ws).words;
    forall k, j | k in words && 0 <= j < |words[k]|
      ensures AllLower(words[k][j]) && WordToNum(words[k][j]) == k
    {
      GroupMember(ws, k, words[k][j]);
    }
    CanonicalizeKeys(ws);
  }

  lemma GroupMember(ws: seq<Word>, k: Key, w: Word)
    requires KeptAreLower(ws) && k in Canonicalize(ws).words && w in Canonicalize(ws).words[k]
    ensures AllLower(w) && WordToNum(w) == k
  {
    CanonicalizeKeys(ws);
  }

  lemma GroupingPlain(ws: seq<Word>)
    requires KeptAreLower(ws)
    ensures forall k, j :: k in Canonicalize(ws).words && 0 <= j < |Canonicalize(ws).words[k]| ==>
              Plain(Canonicalize(ws).words[k][j])
  {
    var words := Canonicalize(ws).words;
    forall k, j | k in words && 0 <= j < |words[k]| ensures Plain(words[k][j]) {
      var w := words[k][j];
      GroupMember(ws, k, w);
      forall i | 0 <= i < |w| ensures w[i] != '|' && w[i] != ',' {
        assert IsLower(w[i]);
      }
    }
  }

  /** The lines of distinct cliques over the input keys are distinct. */
  lemma CliqueLinesDistinct(ws: seq<Word>, nums: seq<Key>, cliques: seq<seq<Key>>)
    requires KeptAreLower(ws) && Distinct(nums) && Distinct(cliques)
    requires forall t :: t in cliques ==>
               |t| == 5 && Ascending(nums, t) && t == Members(nums, Elems(t)) &&
               forall a :: 0 <= a < |t| ==> t[a] in Canonicalize(ws).words
    ensures Distinct(CliqueLines(cliques, Canonicalize(ws).words))
  {
    var words := Canonicalize(ws).words;
    GroupingFacts(ws);
    var lines := CliqueLines(cliques, words);
    forall i, j | 0 <= i < j < |lines| ensures lines[i] != lines[j] {
      assert Elems(cliques[i]) != Elems(cliques[j]);
      if lines[i] == lines[j] {
        LineDeterminesKeys(cliques[i], cliques[j], words);
      }
    }
  }

  /** Every found clique is a solution. */
  lemma CliqueIsSolution(ws: seq<Word>, nums: seq<Key>, g: Graph, order: seq<Key>, visit: Visit, t: seq<Key>)
    requires KeptAreLower(ws)
    requires Distinct(nums) && Elems(nums) == Canonicalize(ws).words.Keys && ForwardGraph(g, nums)
    requires Distinct(order) && Elems(order) == g.Keys && Enumerates(g.Keys, visit)
    requires t in FindCliques(g, order, visit)
    ensures Solution(ws, t)
  {
    GroupingFacts(ws);
    CliquesOfForwardGraph(g, nums, order, visit);
    assert forall x :: x in nums <==> x in Elems(nums);
    AscendingDistinct(nums, t);
  }

  /** Every solution has a found clique over the same keys, hence with the same line. */
  lemma SolutionHasClique(ws: seq<Word>, nums: seq<Key>, g: Graph, order: seq<Key>, visit: Visit, t: seq<Key>)
    requires KeptAreLower(ws)
    requires Distinct(nums) && Elems(nums) == Canonicalize(ws).words.Keys && ForwardGraph(g, nums)
    requires Distinct(order) && Elems(order) == g.Keys && Enumerates(g.Keys, visit)
    requires Solution(ws, t)
    ensures Members(nums, Elems(t)) in FindCliques(g, order, visit)
    ensures CliqueToStr(Members(nums, Elems(t)), Canonicalize(ws).words) ==
            CliqueToStr(t, Canonicalize(ws).words)
  {
    SolutionSetOf(ws, t);
    SolutionSetHasClique(ws, nums, g, order, visit, Elems(t));
    var c := Members(nums, Elems(t));
    assert Distinct(c) && Distinct(t);
    DistinctSameMultiset(c, t);
    CliqueToStrOrderFree(c, t, Canonicalize(ws).words);
  }

  /** The keys of a solution form a letter-disjoint set of five input keys. */
  lemma SolutionSetOf(ws: seq<Word>, t: seq<Key>)
    requires KeptAreLower(ws) && Solution(ws, t)
    ensures Elems(t) in SolutionSets(ws)
  {
    GroupingKeys(ws);
    SetOfClique(t);
  }

  /** Sorting the lines of the cliques of a forward graph over the input keys
      gives the result lines, whatever order the keys were enumerated in and
      whatever orders the graph and each neighbour set were visited in. */
  lemma SortedCliqueLines(ws: seq<Word>, nums: seq<Key>, g: Graph, order: seq<Key>, visit: Visit)
    requires KeptAreLower(ws)
    requires Distinct(nums) && Elems(nums) == Canonicalize(ws).words.Keys && ForwardGraph(g, nums)
    requires Distinct(order) && Elems(order) == g.Keys && Enumerates(g.Keys, visit)
    ensures IsOutput(ws, SortStrings(CliqueLines(FindCliques(g, order, visit), Canonicalize(ws).words)))
  {
    var words := Canonicalize(ws).words;
    var cliques := FindCliques(g, order, visit);
    var lines := CliqueLines(cliques, words);
    CliquesOfForwardGraph(g, nums, order, visit);
    assert forall x :: x in nums <==> x in Elems(nums);
    CliqueLinesDistinct(ws, nums, cliques);
    LexOrder();
    SortedDistinct(lines, LexLe);
    var sorted := SortStrings(lines);
    forall l ensures l in sorted <==> exists t :: Solution(ws, t) && l == CliqueToStr(t, words) {
      assert l in sorted <==> l in Elems(sorted);
      assert l in lines <==> l in Elems(lines);
      if l in lines {
        var i :| 0 <= i < |lines| && lines[i] == l;
        CliqueIsSolution(ws, nums, g, order, visit, cliques[i]);
      }
      if exists t :: Solution(ws, t) && l == CliqueToStr(t, words) {
        var t :| Solution(ws, t) && l == CliqueToStr(t, words);
        SolutionHasClique(ws, nums, g, order, visit, t);
        var i :| 0 <= i < |cliques| && cliques[i] == Members(nums, Elems(t));
        assert lines[i] == l;
      }
    }
  }

  /** Python's `main` after reading the words: group them (`words_by_num`),
      build the graph over the sorted keys, find the cliques visiting the
      graph in insertion order and each neighbour set in the order `visit`
      gives it, and sort the cliques' lines. The cliques come out with
      numerically increasing keys. */
  method SolvePython(ws: seq<Word>, visit: Visit) returns (cliques: seq<seq<Key>>, lines: seq<string>)
    requires KeptAreLower(ws)
    requires Enumerates(Canonicalize(ws).words.Keys, visit)
    ensures IsOutput(ws, lines)
    ensures |lines| == |cliques| == |SolutionSets(ws)| && Distinct(cliques)
    ensures forall t :: t in cliques ==> Solution(ws, t)
    ensures forall t: seq<Key> :: t in cliques ==>
              forall a, b :: 0 <= a < b < |t| ==> Value(t[a].bits) < Value(t[b].bits)
  {
    var wordsByNum := Canonicalize(ws);
    CanonicalizeGroups(ws);
    KeyLeOrder();
    var wordNums := SortBy(wordsByNum.order, KeyLe);
    SortedDistinct(wordsByNum.order, KeyLe);
    var graph := MakeGraph(wordNums);
    cliques := FindCliques(graph, wordNums, visit);
    lines := SortStrings(CliqueLines(cliques, wordsByNum.words));
    SortedCliqueLines(ws, wordNums, graph, wordNums, visit);
    assert |lines| == |multiset(lines)| == |cliques|;
    CliqueCount(ws, wordNums, graph, wordNums, visit);
    CliquesOfForwardGraph(graph, wordNums, wordNums, visit);
    forall t: seq<Key> | t in cliques
      ensures Solution(ws, t)
      ensures forall a, b :: 0 <= a < b < |t| ==> Value(t[a].bits) < Value(t[b].bits)
    {
      CliqueIsSolution(ws, wordNums, graph, wordNums, visit, t);
      SortedAscending(wordNums, t);
    }
  }

  /** The Rust `results.iter().map(..).collect()`: the line of each result,
      or `None` if one of them stops the program. */
  function RustLines(results: seq<seq<Key>>, words: map<Key, seq<Word>>): Option<seq<string>> {
    if results == [] then Some([])
    else
      match RustLine(results[0], words)
      case None => None
      case Some(l) =>
        match RustLines(results[1..], words)
        case None => None
        case Some(ls) => Some([l] + ls)
  }

  /** When every key of every result has a group, no `expect` fires and the
      Rust lines are the lines of the results. */
  lemma {:induction false} RustLinesAgree(results: seq<seq<Key>>, words: map<Key, seq<Word>>)
    requires forall t :: t in results ==> forall a :: 0 <= a < |t| ==> t[a] in words
    ensures RustLines(results, words) == Some(CliqueLines(results, words))
  {
    if results != [] {
      var rest := results[1..];
      assert forall t :: t in rest ==> t in results;
      RustLinesAgree(rest, words);
      assert forall a :: 0 <= a < |results[0]| ==> results[0][a] in words by {
        assert results[0] in results;
      }
      RustLineAgrees(results[0], words);
      assert RustLines(results, words) == Some([CliqueToStr(results[0], words)] + CliqueLines(rest, words));
      CliqueLinesCons(results, words);
    } else {
      assert |CliqueLines(results, words)| == 0;
    }
  }

  lemma CliqueLinesCons(results: seq<seq<Key>>, words: map<Key, seq<Word>>)
    requires results != []
    ensures CliqueLines(results, words) == [CliqueToStr(results[0], words)] + CliqueLines(results[1..], words)
  {
  }

  /** Rust's `main` after reading the words: group them, take the keys in the
      map's order `nums`, build the graph over `nums`, find the cliques
      visiting the graph in its map's order `order` and each collected set in
      the order of its own hasher (`visit`), and sort the lines. The program
      never stops at an `expect`, prints the number of lines it writes, and
      writes the same lines as the Python program, whatever the hash orders. */
  method SolveRust(ws: seq<Word>, nums: seq<Key>, order: seq<Key>, visit: Visit)
    returns (count: nat, lines: Option<seq<string>>)
    requires KeptAreLower(ws)
    requires Distinct(nums) && Elems(nums) == Canonicalize(ws).words.Keys
    requires Distinct(order) && Elems(order) == Elems(nums)
    requires Enumerates(Elems(nums), visit)
    ensures lines.Some? && IsOutput(ws, lines.value)
    ensures count == |lines.value| == |SolutionSets(ws)|
  {
    var wordsByNum := Canonicalize(ws);
    var graph := MakeGraph(nums);
    var results := FindCliques(graph, order, visit);
    count := |results|;
    var resultLines := RustLines(results, wordsByNum.words);
    CliquesOfForwardGraph(graph, nums, order, visit);
    assert forall x :: x in nums <==> x in Elems(nums);
    RustLinesAgree(results, wordsByNum.words);
    lines := if resultLines.None? then None else Some(SortStrings(resultLines.value));
    SortedCliqueLines(ws, nums, graph, order, visit);
    assert |lines.value| == |multiset(lines.value)| == |results|;
    CliqueCount(ws, nums, graph, order, visit);
  }

  /** With fewer than five distinct keys in the input there is no result line. */
  lemma FewKeysNoLines(ws: seq<Word>, lines: seq<string>)
    requires KeptAreLower(ws) && IsOutput(ws, lines)
    requires |Canonicalize(ws).order| < 5
    ensures lines == []
  {
    if lines != [] {
      assert lines[0] in lines;
      var t :| Solution(ws, t) && lines[0] == CliqueToStr(t, Canonicalize(ws).words);
      SolutionNeedsFiveKeys(ws, t);
    }
  }

  /** A solution uses five distinct keys of the grouping. */
  lemma SolutionNeedsFiveKeys(ws: seq<Word>, t: seq<Key>)
    requires KeptAreLower(ws) && Solution(ws, t)
    ensures |Canonicalize(ws).order| >= 5
  {
    GroupingFacts(ws);
    CanonicalizeGroups(ws);
    var order := Canonicalize(ws).order;
    DistinctCard(order);
    DistinctCard(t);
    SubsetCard(Elems(t), Elems(order));
  }

  /** The letter set of each key of `t`. */
  function KeyLetters(t: seq<Key>): seq<set<char>> {
    seq(|t|, a requires 0 <= a < |t| => Letters(t[a].bits))
  }

  /** The keys of a solution use 25 distinct letters, five apiece. */
  lemma SolutionLetters(ws: seq<Word>, t: seq<Key>)
    requires KeptAreLower(ws) && Solution(ws, t)
    ensures |Union(KeyLetters(t))| == 25
  {
    GroupingFacts(ws);
    CanonicalizeKeys(ws);
    var ls := KeyLetters(t);
    forall a | 0 <= a < |t| ensures |ls[a]| == 5 {
      assert t[a] in Canonicalize(ws).words;
    }
    forall a, b | 0 <= a < b < |t| ensures ls[a] !! ls[b] {
      assert Disjoint(t[a], t[b]);
      assert t[a] in Canonicalize(ws).words && t[b] in Canonicalize(ws).words;
      DisjointIff(t[a].bits, t[b].bits);
    }
    DisjointUnionCard(ls, 5);
  }

  /** Every word in the group of a key is spelled with exactly the key's
      letters. */
  lemma GroupWordLetters(ws: seq<Word>, k: Key, v: Word)
    requires KeptAreLower(ws) && k in Canonicalize(ws).words && v in Canonicalize(ws).words[k]
    ensures AllLower(v) && Elems(v) == Letters(k.bits)
  {
    GroupedKey(ws, k);
    LettersOfWordToNum(v);
  }

  /** Two words taken from the groups of two different keys of a solution
      share no letter, so the words of one line share no letter. */
  lemma LineWordsDisjoint(ws: seq<Word>, t: seq<Key>, a: nat, b: nat, v: Word, u: Word)
    requires KeptAreLower(ws) && Solution(ws, t)
    requires a < |t| && b < |t| && a != b
    requires v in Lookup(Canonicalize(ws).words, t[a]) && u in Lookup(Canonicalize(ws).words, t[b])
    ensures Elems(v) !! Elems(u)
  {
    GroupingFacts(ws);
    CanonicalizeKeys(ws);
    assert t[a] in Canonicalize(ws).words && t[b] in Canonicalize(ws).words;
    GroupWordLetters(ws, t[a], v);
    GroupWordLetters(ws, t[b], u);
    if a < b {
      assert Disjoint(t[a], t[b]);
    } else {
      assert Disjoint(t[b], t[a]);
      DisjointSym(t[b], t[a]);
    }
    DisjointIff(t[a].bits, t[b].bits);
  }

  /** The sets of five input keys no two of which share a letter. */
  ghost function SolutionSets(ws: seq<Word>): set<set<Key>>
    requires KeptAreLower(ws)
  {
    set s: set<Key> | s <= Canonicalize(ws).words.Keys && |s| == 5 && DisjointSet(s)
  }

  /** The search yields one clique per letter-disjoint set of five keys, so
      the count printed by the Rust program is the number of such sets. */
  lemma CliqueCount(ws: seq<Word>, nums: seq<Key>, g: Graph, order: seq<Key>, visit: Visit)
    requires KeptAreLower(ws)
    requires Distinct(nums) && Elems(nums) == Canonicalize(ws).words.Keys && ForwardGraph(g, nums)
    requires Distinct(order) && Elems(order) == g.Keys && Enumerates(g.Keys, visit)
    ensures |FindCliques(g, order, visit)| == |SolutionSets(ws)|
  {
    var r := FindCliques(g, order, visit);
    var S := SolutionSets(ws);
    assert Distinct(r) && forall t :: t in r ==> t == Members(nums, Elems(t)) by {
      CliquesOfForwardGraph(g, nums, order, visit);
    }
    forall t | t in r ensures Elems(t) in S {
      CliqueSetIsSolution(ws, nums, g, order, visit, t);
    }
    forall s | s in S ensures Members(nums, s) in r && Elems(Members(nums, s)) == s {
      SolutionSetHasClique(ws, nums, g, order, visit, s);
    }
    CountBySets(r, nums, S);
  }

  /** Cliques named by their key sets, one per set of `S`, are as many as `S`. */
  lemma CountBySets(r: seq<seq<Key>>, nums: seq<Key>, S: set<set<Key>>)
    requires Distinct(r)
    requires forall t :: t in r ==> t == Members(nums, Elems(t)) && Elems(t) in S
    requires forall s :: s in S ==> Members(nums, s) in r && Elems(Members(nums, s)) == s
    ensures |r| == |S|
  {
    var sets := seq(|r|, i requires 0 <= i < |r| => Elems(r[i]));
    forall i, j | 0 <= i < j < |sets| ensures sets[i] != sets[j] {
      assert r[i] == Members(nums, Elems(r[i])) && r[j] == Members(nums, Elems(r[j]));
    }
    forall s ensures s in Elems(sets) <==> s in S {
      if s in Elems(sets) {
        var i :| 0 <= i < |sets| && sets[i] == s;
        assert r[i] in r;
      }
      if s in S {
        var i :| 0 <= i < |r| && r[i] == Members(nums, s);
        assert sets[i] == s;
      }
    }
    assert Elems(sets) == S;
    DistinctCard(sets);
  }

  lemma CliqueSetIsSolution(ws: seq<Word>, nums: seq<Key>, g: Graph, order: seq<Key>, visit: Visit, t: seq<Key>)
    requires KeptAreLower(ws)
    requires Distinct(nums) && Elems(nums) == Canonicalize(ws).words.Keys && ForwardGraph(g, nums)
    requires Distinct(order) && Elems(order) == g.Keys && Enumerates(g.Keys, visit)
    requires t in FindCliques(g, order, visit)
    ensures Elems(t) in SolutionSets(ws)
  {
    CliqueIsSolution(ws, nums, g, order, visit, t);
    GroupingFacts(ws);
    SetOfClique(t);
  }

  lemma SolutionSetHasClique(ws: seq<Word>, nums: seq<Key>, g: Graph, order: seq<Key>, visit: Visit, s: set<Key>)
    requires KeptAreLower(ws)
    requires Distinct(nums) && Elems(nums) == Canonicalize(ws).words.Keys && ForwardGraph(g, nums)
    requires Distinct(order) && Elems(order) == g.Keys && Enumerates(g.Keys, visit)
    requires s in SolutionSets(ws)
    ensures Members(nums, s) in FindCliques(g, order, visit) && Elems(Members(nums, s)) == s
  {
    CliquesOfForwardGraph(g, nums, order, visit);
    var t := Members(nums, s);
    assert forall x :: x in nums <==> x in Elems(nums);
    assert forall x :: x in Elems(t) <==> x in t;
  }

  /** The keys of a clique of five pairwise letter-disjoint keys, listed
      without repetition, form a letter-disjoint set of five. */
  lemma SetOfClique(t: seq<Key>)
    requires |t| == 5 && Distinct(t) && PairwiseDisjoint(t)
    ensures |Elems(t)| == 5 && DisjointSet(Elems(t))
  {
    DistinctCard(t);
    forall x, y | x in Elems(t) && y in Elems(t) && x != y ensures Disjoint(x, y) {
      var a :| 0 <= a < |t| && t[a] == x;
      var b :| 0 <= b < |t| && t[b] == y;
      if b < a {
        DisjointSym(y, x);
      }
    }
  }
}
