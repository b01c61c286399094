/** Sequence facts shared by the model: distinctness, element sets, and the
    sorting that both implementations apply (Python `sorted`, Rust `sort`). */
module Sequences {

  /** No element occurs twice. */
  predicate Distinct<T(==)>(s: seq<T>) {
    forall i, j :: 0 <= i < j < |s| ==> s[i] != s[j]
  }

  function Elems<T>(s: seq<T>): set<T> {
    set i | 0 <= i < |s| :: s[i]
  }

  lemma ElemsAppend<T>(s: seq<T>, x: T)
    ensures Elems(s + [x]) == Elems(s) + {x}
  {
    assert forall i :: 0 <= i < |s| ==> (s + [x])[i] == s[i];
    assert (s + [x])[|s|] == x;
  }

  /** The position of the first occurrence of `x` in `s`. */
  function IndexOf<T(==)>(s: seq<T>, x: T): (i: nat)
    requires x in s
    ensures i < |s| && s[i] == x
    ensures forall j :: 0 <= j < i ==> s[j] != x
  {
    if s[0] == x then 0 else 1 + IndexOf(s[1..], x)
  }

  lemma IndexOfTail<T>(s: seq<T>, x: T)
    requires x in s && x != s[0]
    ensures IndexOf(s, x) == 1 + IndexOf(s[1..], x)
  {
  }

  /** A sequence without repetitions has as many elements as its element set. */
  lemma {:induction false} DistinctCard<T>(s: seq<T>)
    requires Distinct(s)
    ensures |Elems(s)| == |s|
  {
    if s != [] {
      DistinctCard(s[1..]);
      assert Elems(s) == {s[0]} + Elems(s[1..]);
      assert s[0] !in Elems(s[1..]);
    }
  }

  /** Concatenating two sequences without repetitions and without common
      elements gives a sequence without repetitions. */
  lemma DistinctConcat<T>(a: seq<T>, b: seq<T>)
    requires Distinct(a) && Distinct(b)
    requires forall x :: x in a ==> x !in b
    ensures Distinct(a + b)
  {
    forall i, j | 0 <= i < j < |a + b| ensures (a + b)[i] != (a + b)[j] {
      if j < |a| {
      } else if i >= |a| {
        assert (a + b)[i] == b[i - |a|] && (a + b)[j] == b[j - |a|];
      } else {
        assert (a + b)[i] in a && (a + b)[j] in b;
      }
    }
  }

  /** `le` is total and transitive: what a sort needs of its comparison. */
  ghost predicate TotalPreorder<T(!new)>(le: (T, T) -> bool) {
    && (forall x, y :: le(x, y) || le(y, x))
    && (forall x, y, z :: le(x, y) && le(y, z) ==> le(x, z))
  }

  ghost predicate Antisymmetric<T(!new)>(le: (T, T) -> bool) {
    forall x, y :: le(x, y) && le(y, x) ==> x == y
  }

  predicate SortedBy<T>(s: seq<T>, le: (T, T) -> bool) {
    forall i, j :: 0 <= i < j < |s| ==> le(s[i], s[j])
  }

  /** Under a transitive order, a sequence whose neighbours are in order is sorted. */
  lemma {:induction false} SortedByAdjacent<T(!new)>(s: seq<T>, le: (T, T) -> bool)
    requires TotalPreorder(le)
    requires forall i :: 0 <= i < |s| - 1 ==> le(s[i], s[i + 1])
    ensures SortedBy(s, le)
  {
    if |s| > 1 {
      SortedByAdjacent(s[1..], le);
      forall j | 1 <= j < |s| ensures le(s[0], s[j]) {
        assert j == 1 || le(s[1..][0], s[1..][j - 1]);
      }
    }
  }

  /** Insert `x` before the first element it does not exceed. */
  function Insert<T(!new,==)>(x: T, s: seq<T>, le: (T, T) -> bool): (r: seq<T>)
    requires TotalPreorder(le) && SortedBy(s, le)
    ensures SortedBy(r, le)
    ensures multiset(r) == multiset(s) + multiset{x}
  {
    if s == [] then [x]
    else if le(x, s[0]) then
      assert forall j :: 0 <= j < |s| ==> le(s[0], s[j]);
      [x] + s
    else
      var tail := Insert(x, s[1..], le);
      assert s == [s[0]] + s[1..];
      forall j | 0 <= j < |tail| ensures le(s[0], tail[j]) {
        assert tail[j] in multiset(tail);
        if tail[j] != x {
          assert tail[j] in multiset(s[1..]);
          var k :| 0 <= k < |s[1..]| && s[1..][k] == tail[j];
          assert le(s[0], s[k + 1]);
        }
      }
      [s[0]] + tail
  }

  /** The sorted arrangement of `s` under `le` (an insertion sort). */
  function SortBy<T(!new,==)>(s: seq<T>, le: (T, T) -> bool): (r: seq<T>)
    requires TotalPreorder(le)
    ensures SortedBy(r, le)
    ensures multiset(r) == multiset(s)
  {
    if s == [] then []
    else
      assert s == [s[0]] + s[1..];
      Insert(s[0], SortBy(s[1..], le), le)
  }

  lemma SortedHeadIsLeast<T(!new)>(a: seq<T>, b: seq<T>, le: (T, T) -> bool)
    requires TotalPreorder(le) && SortedBy(a, le) && a != [] && b != []
    requires multiset(a) == multiset(b)
    ensures le(a[0], b[0])
  {
    assert b[0] in multiset(a);
    var i :| 0 <= i < |a| && a[i] == b[0];
    assert i == 0 || le(a[0], a[i]);
  }

  lemma TailMultiset<T>(a: seq<T>, b: seq<T>)
    requires a != [] && b != [] && a[0] == b[0]
    requires multiset(a) == multiset(b)
    ensures multiset(a[1..]) == multiset(b[1..])
  {
    assert a == [a[0]] + a[1..] && b == [b[0]] + b[1..];
    assert multiset(a[1..]) == multiset(a) - multiset{a[0]};
    assert multiset(b[1..]) == multiset(b) - multiset{b[0]};
  }

  /** Under an antisymmetric total order a multiset has exactly one sorted
      arrangement, so any correct sort (Python's Timsort, Rust's merge sort)
      produces what `SortBy` produces. */
  lemma {:induction false} SortedUnique<T(!new)>(a: seq<T>, b: seq<T>, le: (T, T) -> bool)
    requires TotalPreorder(le) && Antisymmetric(le)
    requires SortedBy(a, le) && SortedBy(b, le)
    requires multiset(a) == multiset(b)
    ensures a == b
  {
    if a == [] || b == [] {
      assert |a| == |multiset(a)| && |b| == |multiset(b)|;
    } else {
      SortedHeadIsLeast(a, b, le);
      SortedHeadIsLeast(b, a, le);
      TailMultiset(a, b);
      SortedUnique(a[1..], b[1..], le);
      assert a == [a[0]] + a[1..] && b == [b[0]] + b[1..];
    }
  }

  /** Sorting a sequence without repetitions by an antisymmetric order gives a
      strictly ordered sequence over the same elements. */
  lemma SortedDistinct<T(!new)>(s: seq<T>, le: (T, T) -> bool)
    requires TotalPreorder(le) && Distinct(s)
    ensures Distinct(SortBy(s, le))
    ensures Elems(SortBy(s, le)) == Elems(s)
  {
    var r := SortBy(s, le);
    forall x ensures x in Elems(r) <==> x in Elems(s) {
      assert x in Elems(r) <==> x in multiset(r);
      assert x in Elems(s) <==> x in multiset(s);
    }
    DistinctMultiset(s);
    DistinctMultiset(r);
  }

  /** A sequence has no repetitions exactly when every element occurs at most once. */
  lemma {:induction false} DistinctMultiset<T>(s: seq<T>)
    ensures Distinct(s) <==> forall x :: multiset(s)[x] <= 1
  {
    if s != [] {
      DistinctMultiset(s[1..]);
      assert s == [s[0]] + s[1..];
      assert multiset(s) == multiset{s[0]} + multiset(s[1..]);
      if Distinct(s) {
        assert s[0] !in s[1..];
      }
      if forall x :: multiset(s)[x] <= 1 {
        assert forall x :: multiset(s[1..])[x] <= multiset(s)[x];
        assert s[0] !in multiset(s[1..]);
        forall i, j | 0 <= i < j < |s| ensures s[i] != s[j] {
          if i == 0 {
            assert s[j] in s[1..];
          } else {
            assert s[i] == s[1..][i - 1] && s[j] == s[1..][j - 1];
          }
        }
      }
    }
  }

  /** `f` applied to each element, in order. */
  function MapSeq<A, B>(f: A -> B, s: seq<A>): seq<B> {
    seq(|s|, i requires 0 <= i < |s| => f(s[i]))
  }

  /** Taking the head of `a` out of `b` leaves the same elements on both sides. */
  lemma PermRemove<A>(a: seq<A>, b: seq<A>, i: nat)
    requires multiset(a) == multiset(b) && a != [] && i < |b| && b[i] == a[0]
    ensures multiset(a[1..]) == multiset(b[..i] + b[i + 1..])
  {
    assert a == [a[0]] + a[1..];
    var rest := b[..i] + b[i + 1..];
    calc {
      multiset(a[1..]);
      multiset(a) - multiset{a[0]};
      multiset(b) - multiset{b[i]};
      { assert b == rest[..i] + [b[i]] + rest[i..]; }
      multiset(rest);
    }
  }

  lemma MapSplice<A, B>(f: A -> B, b: seq<A>, i: nat)
    requires i < |b|
    ensures MapSeq(f, b) == MapSeq(f, b[..i]) + [f(b[i])] + MapSeq(f, b[i + 1..])
    ensures MapSeq(f, b[..i] + b[i + 1..]) == MapSeq(f, b[..i]) + MapSeq(f, b[i + 1..])
  {
  }

  /** Mapping two arrangements of the same elements gives two arrangements of
      the same images. */
  lemma {:induction false} MapPerm<A, B>(f: A -> B, a: seq<A>, b: seq<A>)
    requires multiset(a) == multiset(b)
    ensures multiset(MapSeq(f, a)) == multiset(MapSeq(f, b))
    decreases |a|
  {
    if a == [] {
      assert |b| == |multiset(b)|;
    } else {
      assert a[0] in multiset(b);
      var i :| 0 <= i < |b| && b[i] == a[0];
      PermRemove(a, b, i);
      MapPerm(f, a[1..], b[..i] + b[i + 1..]);
      MapSplice(f, b, i);
      assert MapSeq(f, a) == [f(a[0])] + MapSeq(f, a[1..]);
    }
  }

  /** Two sequences without repetitions over the same elements are
      arrangements of each other. */
  lemma DistinctSameMultiset<T>(a: seq<T>, b: seq<T>)
    requires Distinct(a) && Distinct(b) && Elems(a) == Elems(b)
    ensures multiset(a) == multiset(b)
  {
    DistinctMultiset(a);
    DistinctMultiset(b);
    forall x ensures multiset(a)[x] == multiset(b)[x] {
      assert x in a <==> x in Elems(a);
      assert x in b <==> x in Elems(b);
    }
  }

  /** The union of the sets in `ss`. */
  function Union<T>(ss: seq<set<T>>): set<T> {
    if ss == [] then {} else ss[0] + Union(ss[1..])
  }

  /** An element is in the union exactly when it is in one of the sets. */
  lemma {:induction false} UnionMember<T>(ss: seq<set<T>>, x: T)
    ensures x in Union(ss) <==> exists a :: 0 <= a < |ss| && x in ss[a]
  {
    if ss != [] {
      UnionMember(ss[1..], x);
      assert forall a :: 0 < a < |ss| ==> ss[a] == ss[1..][a - 1];
    }
  }

  /** Pairwise disjoint sets of `n` elements each have `n` times as many
      elements together. */
  lemma {:induction false} DisjointUnionCard<T>(ss: seq<set<T>>, n: nat)
    requires forall a :: 0 <= a < |ss| ==> |ss[a]| == n
    requires forall a, b :: 0 <= a < b < |ss| ==> ss[a] !! ss[b]
    ensures |Union(ss)| == n * |ss|
  {
    if ss != [] {
      var rest := ss[1..];
      assert forall a :: 0 <= a < |rest| ==> rest[a] == ss[a + 1];
      DisjointUnionCard(rest, n);
      forall x | x in Union(rest) ensures x !in ss[0] {
        UnionMember(rest, x);
        var a :| 0 <= a < |rest| && x in rest[a];
        assert ss[0] !! ss[a + 1];
      }
      assert |Union(ss)| == |ss[0]| + |Union(rest)|;
      assert n * |ss| == n + n * |rest|;
    }
  }

  /** Two sequences of five elements that agree at every position are equal. */
  lemma SameFive<T>(a: seq<T>, b: seq<T>)
    requires |a| == 5 && |b| == 5
    requires a[0] == b[0] && a[1] == b[1] && a[2] == b[2] && a[3] == b[3] && a[4] == b[4]
    ensures a == b
  {
  }

  /** A subset is no larger than its superset. */
  lemma SubsetCard<T>(a: set<T>, b: set<T>)
    requires a <= b
    ensures |a| <= |b|
  {
    assert b == a + (b - a);
  }

  datatype Option<T> = None | Some(value: T)

  /** The position of the first `x` in `s`, or `|s|` when there is none. */
  function FirstPos<T(==)>(s: seq<T>, x: T): (i: nat)
    ensures i <= |s|
  {
    if s == [] then 0
    else if s[0] == x then 0
    else 1 + FirstPos(s[1..], x)
  }

  /** `FirstPos` finds an `x` and none before it. */
  lemma {:induction false} FirstPosSpec<T>(s: seq<T>, x: T)
    ensures FirstPos(s, x) < |s| ==> s[FirstPos(s, x)] == x
    ensures forall j :: 0 <= j < FirstPos(s, x) ==> s[j] != x
  {
    if s != [] && s[0] != x {
      FirstPosSpec(s[1..], x);
      assert forall j :: 1 <= j < |s| ==> s[j] == s[1..][j - 1];
    }
  }

  /** Appending `y` leaves an earlier first position as it is; otherwise the
      first `x` is `y` itself, if `y` is `x`. */
  lemma {:induction false} FirstPosSnoc<T>(s: seq<T>, y: T, x: T)
    ensures FirstPos(s + [y], x) ==
      if FirstPos(s, x) < |s| then FirstPos(s, x) else if y == x then |s| else |s| + 1
  {
    if s == [] {
      assert ([] + [y])[1..] == [];
    } else {
      assert (s + [y])[1..] == s[1..] + [y];
      FirstPosSnoc(s[1..], y, x);
    }
  }
}
