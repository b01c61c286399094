/** The graph of keys (`make_graph`): a node per key, and from each key an
    edge to every LATER key (in the order the keys are enumerated) that shares
    no letter with it. */
module Graph {
  import opened Keys
  import opened Sequences

  /** Each node with its set of forward neighbours. */
  type Graph = map<Key, set<Key>>

  /** The edge test `k1 & k2 == 0`: the two keys share no letter bit. */
  predicate Disjoint(a: Key, b: Key) {
    a.bits & b.bits == 0
  }

  lemma AndCommRaw(x: Mask, y: Mask)
    ensures x & y == y & x
  {
  }

  /** Sharing no letter is symmetric. */
  lemma DisjointSym(a: Key, b: Key)
    ensures Disjoint(a, b) <==> Disjoint(b, a)
  {
    AndCommRaw(a.bits, b.bits);
  }

  /** Every neighbour is itself a node, so `graph[j]` never misses. */
  predicate Closed(g: Graph) {
    forall k :: k in g ==> g[k] <= g.Keys
  }

  /** Numeric order of keys, the order of `sorted(words_by_num.keys())`. */
  predicate KeyLe(a: Key, b: Key) {
    Value(a.bits) <= Value(b.bits)
  }

  /** `g` is the forward graph of the key enumeration `nums`: its nodes are
      the keys, and `nums[q]` is a neighbour of `nums[p]` exactly when it comes
      later and shares no letter with it. */
  ghost predicate ForwardGraph(g: Graph, nums: seq<Key>) {
    && g.Keys == Elems(nums)
    && Closed(g)
    && forall p, q :: 0 <= p < |nums| && 0 <= q < |nums| ==>
         (nums[q] in g[nums[p]] <==> p < q && Disjoint(nums[p], nums[q]))
  }

  /** Both loops of `make_graph`: node `nums[i]` gets as neighbours the keys
      `nums[j]`, `j > i`, that share no letter with it. The keys are those of a
      dictionary, hence distinct. */
  method MakeGraph(nums: seq<Key>) returns (g: Graph)
    requires Distinct(nums)
    ensures ForwardGraph(g, nums)
  {
    g := map[];
    var i := 0;
    while i < |nums|
      invariant 0 <= i <= |nums|
      invariant g.Keys == Elems(nums[..i])
      invariant forall k :: k in g ==> g[k] <= Elems(nums)
      invariant forall p, q :: 0 <= p < i && 0 <= q < |nums| ==>
                  (nums[q] in g[nums[p]] <==> p < q && Disjoint(nums[p], nums[q]))
    {
      var neighbors: set<Key> := {};
      var j := i + 1;
      while j < |nums|
        invariant i + 1 <= j <= |nums|
        invariant neighbors <= Elems(nums)
        invariant forall q :: 0 <= q < |nums| ==>
                    (nums[q] in neighbors <==> i < q < j && Disjoint(nums[i], nums[q]))
      {
        if Disjoint(nums[i], nums[j]) {
          neighbors := neighbors + {nums[j]};
        }
        j := j + 1;
      }
      ElemsAppend(nums[..i], nums[i]);
      assert nums[..i + 1] == nums[..i] + [nums[i]];
      g := g[nums[i] := neighbors];
      i := i + 1;
    }
    assert nums[..i] == nums;
  }

  /** Each pair of distinct keys that share no letter is stored as exactly one
      edge, from the earlier key to the later; no other pair is an edge. */
  lemma EdgeStoredOnce(g: Graph, nums: seq<Key>, a: Key, b: Key)
    requires Distinct(nums) && ForwardGraph(g, nums)
    requires a in g && b in g
    ensures b in g[a] || a in g[b] <==> a != b && Disjoint(a, b)
    ensures !(b in g[a] && a in g[b])
  {
    assert a in Elems(nums) && b in Elems(nums);
    var p :| 0 <= p < |nums| && nums[p] == a;
    var q :| 0 <= q < |nums| && nums[q] == b;
    assert Disjoint(a, b) <==> Disjoint(b, a);
  }

  /** Numeric order is a total order on keys: distinct keys hold distinct numbers. */
  lemma KeyLeOrder()
    ensures TotalPreorder(KeyLe) && Antisymmetric(KeyLe)
  {
    forall x: Key, y: Key | KeyLe(x, y) && KeyLe(y, x) ensures x == y {
      ValueInjective(x.bits, y.bits);
    }
  }

  /** Over the keys in increasing numeric order, as Python enumerates them,
      the neighbours of a key are the numerically larger keys sharing no
      letter with it. */
  lemma SortedForwardEdges(g: Graph, nums: seq<Key>)
    requires Distinct(nums) && SortedBy(nums, KeyLe) && ForwardGraph(g, nums)
    ensures forall a, b :: a in g && b in g ==>
              (b in g[a] <==> Value(a.bits) < Value(b.bits) && Disjoint(a, b))
  {
    forall a, b | a in g && b in g
      ensures b in g[a] <==> Value(a.bits) < Value(b.bits) && Disjoint(a, b)
    {
      assert a in Elems(nums) && b in Elems(nums);
      var p :| 0 <= p < |nums| && nums[p] == a;
      var q :| 0 <= q < |nums| && nums[q] == b;
      SortedEdge(g, nums, p, q);
    }
  }

  lemma SortedEdge(g: Graph, nums: seq<Key>, p: nat, q: nat)
    requires Distinct(nums) && SortedBy(nums, KeyLe) && ForwardGraph(g, nums)
    requires p < |nums| && q < |nums|
    ensures nums[q] in g[nums[p]] <==>
              Value(nums[p].bits) < Value(nums[q].bits) && Disjoint(nums[p], nums[q])
  {
    ValueInjective(nums[p].bits, nums[q].bits);
    if p < q {
      assert KeyLe(nums[p], nums[q]);
    } else if q < p {
      assert KeyLe(nums[q], nums[p]);
    }
  }
}
