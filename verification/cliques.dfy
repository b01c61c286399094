/** The clique search (`find_cliques`): five nested loops, each over the
    neighbours shared by all the keys chosen so far. */
module Cliques {
  import opened Keys
  import opened Sequences
  import opened Graph

  /** The elements of `s` in the order they take in `order`. Iterating over a
      set (a Python `set`, a Rust `HashSet`) visits its elements in an order
      that is fixed but unspecified; the model takes it from a sequence. */
  function Members(order: seq<Key>, s: set<Key>): (r: seq<Key>)
    ensures forall x :: x in r <==> x in order && x in s
    ensures Distinct(order) ==> Distinct(r)
  {
    if order == [] then []
    else
      var rest := Members(order[1..], s);
      assert forall x :: x in order <==> x == order[0] || x in order[1..];
      if order[0] in s then
        assert Distinct(order) ==> order[0] !in order[1..];
        [order[0]] + rest
      else rest
  }

  /** The orders in which the inner loops visit their sets. The set a loop
      runs over is computed from the keys chosen before it (its path), so its
      order is a function of that path: the loop over the candidates after
      the path `p` visits them in the order they take in `visit(p)`. A Python
      set orders its members by hash slot and every collected Rust `HashSet`
      has its own random hasher, so each set may have an order of its own. */
  type Visit = seq<Key> -> seq<Key>

  /** Every visiting sequence lists each of `keys` and none twice, so the
      loop over any set of keys visits each member exactly once. */
  ghost predicate Enumerates(keys: set<Key>, visit: Visit) {
    forall p :: Distinct(visit(p)) && keys <= Elems(visit(p))
  }

  /** Every member of `t` is a node, and every member is a neighbour of every
      member before it. */
  predicate Clique(g: Graph, t: seq<Key>) {
    && (forall a :: 0 <= a < |t| ==> t[a] in g)
    && (forall a, b :: 0 <= a < b < |t| ==> t[b] in g[t[a]])
  }

  /** From position `d` on, the members of `t` are nodes drawn from `cands`,
      each a neighbour of every member from `d` before it. */
  ghost predicate Grows(g: Graph, cands: set<Key>, d: nat, t: seq<Key>) {
    forall b :: d <= b < |t| ==>
      && t[b] in cands && t[b] in g
      && forall a :: d <= a < b ==> t[a] in g && t[b] in g[t[a]]
  }

  /** The loops of `find_cliques` from depth `|chosen|` on, over the keys
      `xs` (the members of `cands`, the neighbours shared by `chosen`). */
  function Expand(g: Graph, visit: Visit, chosen: seq<Key>, cands: set<Key>, xs: seq<Key>)
    : (r: seq<seq<Key>>)
    requires Closed(g) && |chosen| < 5
    requires forall x :: x in xs ==> x in g
    ensures forall t :: t in r ==> |t| == 5 && t[..|chosen|] == chosen
    decreases 5 - |chosen|, |xs|
  {
    if xs == [] then []
    else Branch(g, visit, chosen, cands, xs[0]) + Expand(g, visit, chosen, cands, xs[1..])
  }

  /** One iteration at depth `|chosen|`, for the key `x`: at the fifth level
      yield `chosen + [x]`; otherwise narrow `cands` to `cands & graph[x]` and
      run the next level's loop over it. */
  function Branch(g: Graph, visit: Visit, chosen: seq<Key>, cands: set<Key>, x: Key)
    : (r: seq<seq<Key>>)
    requires Closed(g) && |chosen| < 5 && x in g
    ensures forall t :: t in r ==> |t| == 5 && t[..|chosen| + 1] == chosen + [x]
    decreases 5 - |chosen|, 0
  {
    if |chosen| == 4 then [chosen + [x]]
    else
      var next := cands * g[x];
      Expand(g, visit, chosen + [x], next, Members(visit(chosen + [x]), next))
  }

  /** `find_cliques`: the outer loop runs over every node in the iteration
      order `order` of the graph (with `i_neighbors` = `graph[i]`, the
      intersection of all nodes with `graph[i]`); the inner loops visit their
      sets in the orders `visit` gives them. */
  function FindCliques(g: Graph, order: seq<Key>, visit: Visit): (r: seq<seq<Key>>)
    requires Closed(g) && Elems(order) == g.Keys
    ensures forall t :: t in r ==> |t| == 5
  {
    assert forall x :: x in order ==> x in Elems(order);
    Expand(g, visit, [], g.Keys, order)
  }

  /** Narrowing the candidates by a chosen member's neighbours is the same as
      requiring later members to be its neighbours. */
  lemma GrowsStep(g: Graph, cands: set<Key>, d: nat, t: seq<Key>)
    requires d < |t| && t[d] in g
    ensures Grows(g, cands, d, t) <==> t[d] in cands && Grows(g, cands * g[t[d]], d + 1, t)
  {
  }

  /** What the loops from depth `|chosen|` yield: exactly the five-element
      extensions of `chosen` that start with a member of `xs` and grow inside
      `cands`. */
  lemma {:induction false} ExpandSpec(g: Graph, visit: Visit, chosen: seq<Key>, cands: set<Key>, xs: seq<Key>)
    requires Closed(g) && |chosen| < 5 && Enumerates(g.Keys, visit)
    requires forall x :: x in xs ==> x in g && x in cands
    ensures forall t :: t in Expand(g, visit, chosen, cands, xs) <==>
              |t| == 5 && t[..|chosen|] == chosen && t[|chosen|] in xs && Grows(g, cands, |chosen|, t)
    decreases 5 - |chosen|, |xs|
  {
    if xs != [] {
      ExpandSpec(g, visit, chosen, cands, xs[1..]);
      BranchSpec(g, visit, chosen, cands, xs[0]);
      assert forall y :: y in xs <==> y == xs[0] || y in xs[1..];
    }
  }

  /** What one iteration yields: the five-element extensions of `chosen` whose
      next member is `x` and that grow inside `cands`. */
  lemma {:induction false} BranchSpec(g: Graph, visit: Visit, chosen: seq<Key>, cands: set<Key>, x: Key)
    requires Closed(g) && |chosen| < 5 && Enumerates(g.Keys, visit)
    requires x in g && x in cands
    ensures forall t :: t in Branch(g, visit, chosen, cands, x) <==>
              |t| == 5 && t[..|chosen|] == chosen && t[|chosen|] == x && Grows(g, cands, |chosen|, t)
    decreases 5 - |chosen|, 0
  {
    var d := |chosen|;
    if d == 4 {
      forall t | |t| == 5 && t[..d] == chosen && t[d] == x
        ensures t == chosen + [x]
      {
        assert t == t[..d] + [t[d]];
      }
    } else {
      var path := chosen + [x];
      var next := cands * g[x];
      assert g.Keys <= Elems(visit(path));
      ExpandSpec(g, visit, path, next, Members(visit(path), next));
      forall t | |t| == 5
        ensures (t[..d + 1] == path && t[d + 1] in Members(visit(path), next) && Grows(g, next, d + 1, t))
                <==> (t[..d] == chosen && t[d] == x && Grows(g, cands, d, t))
      {
        BranchCase(g, visit, chosen, cands, x, t);
      }
    }
  }

  /** For one tuple: growing inside the narrowed candidates from the next
      depth, through a visited candidate, is growing inside `cands` through `x`. */
  lemma BranchCase(g: Graph, visit: Visit, chosen: seq<Key>, cands: set<Key>, x: Key, t: seq<Key>)
    requires Closed(g) && |chosen| < 4 && Enumerates(g.Keys, visit)
    requires x in g && x in cands && |t| == 5
    ensures (t[..|chosen| + 1] == chosen + [x] && t[|chosen| + 1] in Members(visit(chosen + [x]), cands * g[x])
              && Grows(g, cands * g[x], |chosen| + 1, t))
            <==> (t[..|chosen|] == chosen && t[|chosen|] == x && Grows(g, cands, |chosen|, t))
  {
    var d := |chosen|;
    var path := chosen + [x];
    var next := cands * g[x];
    if t[..d + 1] == path && t[d + 1] in Members(visit(path), next) && Grows(g, next, d + 1, t) {
      assert t[..d] == t[..d + 1][..d] && t[d] == t[..d + 1][d];
      GrowsStep(g, cands, d, t);
    }
    if t[..d] == chosen && t[d] == x && Grows(g, cands, d, t) {
      assert t[..d + 1] == t[..d] + [t[d]];
      GrowsStep(g, cands, d, t);
      assert t[d + 1] in next && t[d + 1] in g;
      Visited(g.Keys, visit, path, t[d + 1]);
    }
  }

  /** Every key is visited, whatever the path. */
  lemma Visited(keys: set<Key>, visit: Visit, p: seq<Key>, y: Key)
    requires Enumerates(keys, visit) && y in keys
    ensures y in visit(p)
  {
    assert keys <= Elems(visit(p));
    assert y in Elems(visit(p));
  }

  /** The members of a clique are nodes, so they are drawn from all nodes. */
  lemma GrowsFromAll(g: Graph, t: seq<Key>)
    ensures Grows(g, g.Keys, 0, t) <==> Clique(g, t)
  {
  }

  /** `find_cliques` yields exactly the five-member cliques of the graph,
      whatever order it visits the nodes in and whatever order each of its
      neighbour sets is visited in. */
  lemma FindCliquesSpec(g: Graph, order: seq<Key>, visit: Visit)
    requires Closed(g) && Elems(order) == g.Keys && Enumerates(g.Keys, visit)
    ensures forall t :: t in FindCliques(g, order, visit) <==> |t| == 5 && Clique(g, t)
  {
    assert forall x :: x in order <==> x in Elems(order);
    ExpandSpec(g, visit, [], g.Keys, order);
    forall t ensures Grows(g, g.Keys, 0, t) <==> Clique(g, t) {
      GrowsFromAll(g, t);
    }
  }

  /** No clique is yielded twice when no key is visited twice at any level. */
  lemma {:induction false} ExpandDistinct(g: Graph, visit: Visit, chosen: seq<Key>, cands: set<Key>, xs: seq<Key>)
    requires Closed(g) && |chosen| < 5 && Enumerates(g.Keys, visit)
    requires forall x :: x in xs ==> x in g && x in cands
    requires Distinct(xs)
    ensures Distinct(Expand(g, visit, chosen, cands, xs))
    decreases 5 - |chosen|, |xs|
  {
    if xs != [] {
      var first := Branch(g, visit, chosen, cands, xs[0]);
      var rest := Expand(g, visit, chosen, cands, xs[1..]);
      BranchDistinct(g, visit, chosen, cands, xs[0]);
      ExpandDistinct(g, visit, chosen, cands, xs[1..]);
      ExpandSpec(g, visit, chosen, cands, xs[1..]);
      forall t | t in first ensures t !in rest {
        assert t[..|chosen| + 1][|chosen|] == xs[0];
      }
      DistinctConcat(first, rest);
    }
  }

  lemma {:induction false} BranchDistinct(g: Graph, visit: Visit, chosen: seq<Key>, cands: set<Key>, x: Key)
    requires Closed(g) && |chosen| < 5 && Enumerates(g.Keys, visit)
    requires x in g && x in cands
    ensures Distinct(Branch(g, visit, chosen, cands, x))
    decreases 5 - |chosen|, 0
  {
    if |chosen| < 4 {
      var path := chosen + [x];
      var next := cands * g[x];
      assert Distinct(visit(path));
      ExpandDistinct(g, visit, path, next, Members(visit(path), next));
    }
  }

  /** No two members of `t` share a letter. */
  predicate PairwiseDisjoint(t: seq<Key>) {
    forall a, b :: 0 <= a < b < |t| ==> Disjoint(t[a], t[b])
  }

  /** No two distinct keys of `s` share a letter. */
  ghost predicate DisjointSet(s: set<Key>) {
    forall x, y :: x in s && y in s && x != y ==> Disjoint(x, y)
  }

  /** `t` lists members of `order`, each strictly after the one before it. */
  predicate Ascending(order: seq<Key>, t: seq<Key>) {
    && (forall a :: 0 <= a < |t| ==> t[a] in order)
    && (forall a, b :: 0 <= a < b < |t| ==> IndexOf(order, t[a]) < IndexOf(order, t[b]))
  }

  lemma ForwardEdge(g: Graph, nums: seq<Key>, x: Key, y: Key)
    requires Distinct(nums) && ForwardGraph(g, nums)
    requires x in nums && y in nums
    ensures x in g && (y in g[x] <==> IndexOf(nums, x) < IndexOf(nums, y) && Disjoint(x, y))
  {
    assert nums[IndexOf(nums, x)] == x && nums[IndexOf(nums, y)] == y;
    assert x in Elems(nums);
  }

  /** In the forward graph of `nums`, a clique is a run of keys taken in the
      order of `nums` that pairwise share no letter. */
  lemma ForwardClique(g: Graph, nums: seq<Key>, t: seq<Key>)
    requires Distinct(nums) && ForwardGraph(g, nums)
    ensures Clique(g, t) <==> Ascending(nums, t) && PairwiseDisjoint(t)
  {
    assert forall x :: x in g <==> x in Elems(nums);
    assert forall x :: x in Elems(nums) <==> x in nums;
    if forall a :: 0 <= a < |t| ==> t[a] in nums {
      forall a, b | 0 <= a < b < |t|
        ensures t[b] in g[t[a]] <==> IndexOf(nums, t[a]) < IndexOf(nums, t[b]) && Disjoint(t[a], t[b])
      {
        ForwardEdge(g, nums, t[a], t[b]);
      }
    }
  }

  /** Selecting the members of a set in the order of `order` lists them in ascending order. */
  lemma {:induction false} MembersAscending(order: seq<Key>, s: set<Key>)
    requires Distinct(order)
    ensures Ascending(order, Members(order, s))
  {
    if order != [] {
      MembersAscending(order[1..], s);
      if order[0] in s {
        AscendingCons(order, Members(order[1..], s));
      } else {
        AscendingWiden(order, Members(order[1..], s));
      }
    }
  }

  /** An ascending run over the tail of `order` is an ascending run over
      `order` that avoids its head. */
  lemma AscendingWiden(order: seq<Key>, t: seq<Key>)
    requires Distinct(order) && order != [] && Ascending(order[1..], t)
    ensures Ascending(order, t)
    ensures forall b :: 0 <= b < |t| ==> IndexOf(order, t[b]) == 1 + IndexOf(order[1..], t[b])
  {
    forall b | 0 <= b < |t| ensures t[b] in order && IndexOf(order, t[b]) == 1 + IndexOf(order[1..], t[b]) {
      var j :| 0 <= j < |order| - 1 && order[1..][j] == t[b];
      assert order[j + 1] == t[b];
      IndexOfTail(order, t[b]);
    }
  }

  /** Putting the head of `order` before an ascending run over its tail gives
      an ascending run over `order`. */
  lemma AscendingCons(order: seq<Key>, t: seq<Key>)
    requires Distinct(order) && order != [] && Ascending(order[1..], t)
    ensures Ascending(order, [order[0]] + t)
  {
    AscendingWiden(order, t);
    var m := [order[0]] + t;
    assert IndexOf(order, m[0]) == 0;
    forall a | 0 < a < |m| ensures m[a] in order && IndexOf(order, m[a]) == 1 + IndexOf(order[1..], t[a - 1]) {
      assert m[a] == t[a - 1];
    }
    forall a, b | 0 <= a < b < |m| ensures IndexOf(order, m[a]) < IndexOf(order, m[b]) {
      if a > 0 {
        assert IndexOf(order[1..], t[a - 1]) < IndexOf(order[1..], t[b - 1]);
      }
    }
  }

  /** `Members` depends only on which members of `order` the set holds. */
  lemma {:induction false} MembersSameOn(order: seq<Key>, s: set<Key>, s': set<Key>)
    requires forall x :: x in order ==> (x in s <==> x in s')
    ensures Members(order, s) == Members(order, s')
  {
    if order != [] {
      MembersSameOn(order[1..], s, s');
    }
  }

  /** An ascending run over `order` that avoids its head is an ascending run
      over the rest of `order`. */
  lemma AscendingShift(order: seq<Key>, t: seq<Key>)
    requires Distinct(order) && order != [] && Ascending(order, t)
    requires forall b :: 0 <= b < |t| ==> t[b] != order[0]
    ensures Ascending(order[1..], t)
  {
    forall b | 0 <= b < |t| ensures t[b] in order[1..] && IndexOf(order, t[b]) == 1 + IndexOf(order[1..], t[b]) {
      assert t[b] in order;
      IndexOfTail(order, t[b]);
    }
  }

  /** If the head of `order` is in an ascending run, it comes first. */
  lemma AscendingHead(order: seq<Key>, t: seq<Key>)
    requires Distinct(order) && order != [] && Ascending(order, t)
    requires order[0] in t
    ensures t[0] == order[0]
    ensures forall b :: 1 <= b < |t| ==> t[b] != order[0]
  {
    var a :| 0 <= a < |t| && t[a] == order[0];
    assert IndexOf(order, t[a]) == 0;
    forall b | 1 <= b < |t| ensures IndexOf(order, t[b]) > 0 {
      assert IndexOf(order, t[0]) < IndexOf(order, t[b]);
    }
  }

  lemma AscendingTail(order: seq<Key>, t: seq<Key>)
    requires Ascending(order, t) && t != []
    ensures Ascending(order, t[1..])
  {
    assert forall b :: 0 <= b < |t| - 1 ==> t[1..][b] == t[b + 1];
  }

  /** A run in ascending order is the selection of its own elements: the
      order of `order` is the only ascending arrangement of a set. */
  lemma {:induction false} AscendingIsMembers(order: seq<Key>, t: seq<Key>)
    requires Distinct(order) && Ascending(order, t)
    ensures t == Members(order, Elems(t))
    decreases |order|
  {
    if order == [] {
      AscendingDistinct(order, t);
      DistinctCard(t);
      assert |t| == 0 by {
        assert Elems(t) <= Elems(order);
        assert Elems(t) == {};
      }
    } else {
      var o := order[0];
      var rest := order[1..];
      if o in t {
        AscendingHead(order, t);
        var t' := t[1..];
        assert t == [o] + t';
        AscendingTail(order, t);
        AscendingShift(order, t');
        AscendingIsMembers(rest, t');
        assert Elems(t) == {o} + Elems(t');
        MembersSameOn(rest, Elems(t), Elems(t'));
      } else {
        AscendingShift(order, t);
        AscendingIsMembers(rest, t);
        assert o !in Elems(t);
      }
    }
  }

  /** On the forward graph of the key enumeration `nums`, searched in any
      node order `order` and any neighbour-set orders `visit`: every pairwise
      letter-disjoint set of five keys is yielded exactly once, as its members
      listed in the order of `nums`, and nothing else is yielded. */
  lemma CliquesOfForwardGraph(g: Graph, nums: seq<Key>, order: seq<Key>, visit: Visit)
    requires Distinct(nums) && ForwardGraph(g, nums)
    requires Distinct(order) && Elems(order) == g.Keys && Enumerates(g.Keys, visit)
    ensures Distinct(FindCliques(g, order, visit))
    ensures forall t :: t in FindCliques(g, order, visit) <==>
              |t| == 5 && Ascending(nums, t) && PairwiseDisjoint(t)
    ensures forall t :: t in FindCliques(g, order, visit) ==> t == Members(nums, Elems(t))
    ensures forall s: set<Key> :: s <= g.Keys && |s| == 5 && DisjointSet(s) ==>
              Members(nums, s) in FindCliques(g, order, visit)
  {
    ForwardCliques(g, nums, order, visit);
    forall t | t in FindCliques(g, order, visit) ensures t == Members(nums, Elems(t)) {
      AscendingIsMembers(nums, t);
    }
    forall s: set<Key> | s <= g.Keys && |s| == 5 && DisjointSet(s)
      ensures Members(nums, s) in FindCliques(g, order, visit)
    {
      DisjointSetFound(g, nums, order, visit, s);
    }
  }

  /** On a forward graph the search yields, once each, exactly the pairwise
      letter-disjoint five-key runs in the order of `nums`. */
  lemma ForwardCliques(g: Graph, nums: seq<Key>, order: seq<Key>, visit: Visit)
    requires Distinct(nums) && ForwardGraph(g, nums)
    requires Distinct(order) && Elems(order) == g.Keys && Enumerates(g.Keys, visit)
    ensures Distinct(FindCliques(g, order, visit))
    ensures forall t :: t in FindCliques(g, order, visit) <==>
              |t| == 5 && Ascending(nums, t) && PairwiseDisjoint(t)
  {
    assert forall x :: x in order ==> x in Elems(order);
    ExpandDistinct(g, visit, [], g.Keys, order);
    FindCliquesSpec(g, order, visit);
    forall t ensures Clique(g, t) <==> Ascending(nums, t) && PairwiseDisjoint(t) {
      ForwardClique(g, nums, t);
    }
  }

  /** A letter-disjoint set of five keys is found, as its members in the
      order of `nums`. */
  lemma DisjointSetFound(g: Graph, nums: seq<Key>, order: seq<Key>, visit: Visit, s: set<Key>)
    requires Distinct(nums) && ForwardGraph(g, nums)
    requires Distinct(order) && Elems(order) == g.Keys && Enumerates(g.Keys, visit)
    requires s <= g.Keys && |s| == 5 && DisjointSet(s)
    ensures Members(nums, s) in FindCliques(g, order, visit)
  {
    ForwardCliques(g, nums, order, visit);
    var t := Members(nums, s);
    MembersAscending(nums, s);
    assert Elems(t) == s by {
      assert forall x :: x in Elems(t) <==> x in t;
      assert forall x :: x in s ==> x in Elems(nums);
      assert forall x :: x in Elems(nums) <==> x in nums;
    }
    DistinctCard(t);
  }

  /** Over the keys in increasing numeric order (Python's enumeration), an
      ascending run is one of strictly increasing keys. */
  lemma SortedAscending(nums: seq<Key>, t: seq<Key>)
    requires Distinct(nums) && SortedBy(nums, KeyLe)
    requires forall a :: 0 <= a < |t| ==> t[a] in nums
    ensures Ascending(nums, t) <==>
              forall a, b :: 0 <= a < b < |t| ==> Value(t[a].bits) < Value(t[b].bits)
  {
    forall a, b | 0 <= a < b < |t|
      ensures IndexOf(nums, t[a]) < IndexOf(nums, t[b]) <==> Value(t[a].bits) < Value(t[b].bits)
    {
      SortedIndexOrder(nums, t[a], t[b]);
    }
  }

  lemma SortedIndexOrder(nums: seq<Key>, x: Key, y: Key)
    requires Distinct(nums) && SortedBy(nums, KeyLe) && x in nums && y in nums
    ensures IndexOf(nums, x) < IndexOf(nums, y) <==> Value(x.bits) < Value(y.bits)
  {
    var p, q := IndexOf(nums, x), IndexOf(nums, y);
    ValueInjective(x.bits, y.bits);
    if p < q {
      assert KeyLe(nums[p], nums[q]);
    } else if q < p {
      assert KeyLe(nums[q], nums[p]);
    }
  }

  /** An ascending run has no repetitions. */
  lemma AscendingDistinct(order: seq<Key>, t: seq<Key>)
    requires Ascending(order, t)
    ensures Distinct(t)
  {
  }
}
