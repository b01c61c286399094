/** The canonicaliser: keep the words of length 5 with 5 distinct letters and
    group them by key, each group in input order (`words_by_num`). */
module Canon {
  import opened Keys
  import opened Sequences

  /** The filter of both implementations: length 5 and 5 distinct characters
      (`Elems(w)` is Python's `set(word)`). */
  predicate Keep(w: Word) {
    |w| == 5 && |Elems(w)| == 5
  }

  /** The input assumption: every word that passes the filter is spelled with a..z. */
  predicate KeptAreLower(ws: seq<Word>) {
    forall i :: 0 <= i < |ws| ==> Keep(ws[i]) ==> AllLower(ws[i])
  }

  /** `words_by_num`: the keys in order of first appearance (the insertion order
      of the dictionary) and, per key, its words. */
  datatype Groups = Groups(order: seq<Key>, words: map<Key, seq<Word>>)

  /** Each key is listed once, and the listed keys are exactly the map's keys. */
  predicate WellFormed(g: Groups) {
    Distinct(g.order) && Elems(g.order) == g.words.Keys
  }

  /** One iteration of the grouping loop: a word that fails the filter is
      skipped; otherwise it is appended to its key's group, which is created
      with this word as its only member if the key is new. */
  function AddWord(g: Groups, w: Word): Groups
    requires Keep(w) ==> AllLower(w)
  {
    if !Keep(w) then g
    else
      var k := WordToNum(w);
      if k in g.words then g.(words := g.words[k := g.words[k] + [w]])
      else Groups(g.order + [k], g.words[k := [w]])
  }

  /** The grouping loop over the whole input, first word first. */
  function Canonicalize(ws: seq<Word>): Groups
    requires KeptAreLower(ws)
  {
    if ws == [] then Groups([], map[])
    else AddWord(Canonicalize(ws[..|ws| - 1]), ws[|ws| - 1])
  }

  /** Reference definition of a group: the kept words of `ws` whose key is `k`,
      in input order. */
  function KeptWithKey(ws: seq<Word>, k: Key): seq<Word>
    requires KeptAreLower(ws)
  {
    if ws == [] then []
    else
      var init := ws[..|ws| - 1];
      var last := ws[|ws| - 1];
      assert forall i :: 0 <= i < |init| ==> init[i] == ws[i];
      KeptWithKey(init, k) + (if Keep(last) && WordToNum(last) == k then [last] else [])
  }

  /** A group holds exactly the kept input words with its key. */
  lemma {:induction false} KeptWithKeyMembers(ws: seq<Word>, k: Key)
    requires KeptAreLower(ws)
    ensures forall x :: x in KeptWithKey(ws, k) <==> x in ws && Keep(x) && AllLower(x) && WordToNum(x) == k
  {
    if ws != [] {
      var init := ws[..|ws| - 1];
      var last := ws[|ws| - 1];
      assert ws == init + [last];
      assert forall i :: 0 <= i < |init| ==> init[i] == ws[i];
      KeptWithKeyMembers(init, k);
    }
  }

  /** A kept word's key has exactly five letter bits set and no other bit. */
  lemma KeptKeyHasFiveLetters(w: Word)
    requires Keep(w) && AllLower(w)
    ensures LetterBitsOnly(WordToNum(w).bits)
    ensures |Letters(WordToNum(w).bits)| == 5
  {
    LettersOfWordToNum(w);
  }

  /** `g` is the grouping of `ws`: every key belongs to some kept word, and each
      group is exactly the kept words with that key, in input order. */
  ghost predicate GroupsOf(g: Groups, ws: seq<Word>)
    requires KeptAreLower(ws)
  {
    && WellFormed(g)
    && (forall k :: k in g.words <==> KeptWithKey(ws, k) != [])
    && (forall k :: k in g.words ==> g.words[k] == KeptWithKey(ws, k))
  }

  lemma KeptWithKeySnoc(init: seq<Word>, last: Word, k: Key)
    requires KeptAreLower(init + [last])
    ensures KeptAreLower(init) && (Keep(last) ==> AllLower(last))
    ensures KeptWithKey(init + [last], k) ==
      KeptWithKey(init, k) + (if Keep(last) && WordToNum(last) == k then [last] else [])
  {
    var ws := init + [last];
    assert ws[..|ws| - 1] == init && ws[|ws| - 1] == last;
    assert forall i :: 0 <= i < |init| ==> ws[i] == init[i];
  }

  /** Appending a word that fails the filter changes neither grouping nor groups. */
  lemma SkipStep(g0: Groups, init: seq<Word>, last: Word)
    requires KeptAreLower(init + [last]) && !Keep(last)
    requires KeptAreLower(init) && GroupsOf(g0, init)
    ensures GroupsOf(g0, init + [last])
  {
    forall k ensures KeptWithKey(init + [last], k) == KeptWithKey(init, k) {
      KeptWithKeySnoc(init, last, k);
    }
  }

  /** Appending a kept word extends exactly the group of its key. */
  lemma KeepStep(g0: Groups, init: seq<Word>, last: Word)
    requires KeptAreLower(init + [last]) && Keep(last) && AllLower(last)
    requires KeptAreLower(init) && GroupsOf(g0, init)
    ensures GroupsOf(AddWord(g0, last), init + [last])
  {
    var key := WordToNum(last);
    forall k ensures KeptWithKey(init + [last], k) ==
      KeptWithKey(init, k) + (if key == k then [last] else [])
    {
      KeptWithKeySnoc(init, last, k);
    }
    if key in g0.words {
      KeepOldKey(g0, init, last, key);
    } else {
      KeepNewKey(g0, init, last, key);
    }
  }

  /** A kept word whose key is already grouped joins the end of its group. */
  lemma KeepOldKey(g0: Groups, init: seq<Word>, last: Word, key: Key)
    requires KeptAreLower(init + [last]) && KeptAreLower(init) && GroupsOf(g0, init)
    requires Keep(last) && AllLower(last) && key == WordToNum(last) && key in g0.words
    requires forall k :: KeptWithKey(init + [last], k) ==
               KeptWithKey(init, k) + (if key == k then [last] else [])
    ensures GroupsOf(AddWord(g0, last), init + [last])
  {
    var g := g0.(words := g0.words[key := g0.words[key] + [last]]);
    assert AddWord(g0, last) == g;
    assert g.words.Keys == g0.words.Keys;
  }

  /** A kept word with a new key opens a new group, listed last. */
  lemma KeepNewKey(g0: Groups, init: seq<Word>, last: Word, key: Key)
    requires KeptAreLower(init + [last]) && KeptAreLower(init) && GroupsOf(g0, init)
    requires Keep(last) && AllLower(last) && key == WordToNum(last) && key !in g0.words
    requires forall k :: KeptWithKey(init + [last], k) ==
               KeptWithKey(init, k) + (if key == k then [last] else [])
    ensures GroupsOf(AddWord(g0, last), init + [last])
  {
    var g := Groups(g0.order + [key], g0.words[key := [last]]);
    assert AddWord(g0, last) == g;
    ElemsAppend(g0.order, key);
    forall i, j | 0 <= i < j < |g.order| ensures g.order[i] != g.order[j] {
      if j == |g0.order| {
        assert g.order[i] in Elems(g0.order);
      }
    }
  }

  /** The grouping loop computes the grouping of its input. */
  lemma {:induction false} CanonicalizeGroups(ws: seq<Word>)
    requires KeptAreLower(ws)
    ensures GroupsOf(Canonicalize(ws), ws)
  {
    if ws != [] {
      var init := ws[..|ws| - 1];
      assert ws == init + [ws[|ws| - 1]];
      var last := ws[|ws| - 1];
      KeptWithKeySnoc(init, last, Key(0));
      CanonicalizeGroups(init);
      if Keep(last) {
        KeepStep(Canonicalize(init), init, last);
      } else {
        SkipStep(Canonicalize(init), init, last);
      }
    }
  }

  /** The key a word adds to the grouping: its key when it passes the filter,
      nothing when it is skipped. */
  function KeptKey(w: Word): Option<Key>
    requires Keep(w) ==> AllLower(w)
  {
    if Keep(w) then Some(WordToNum(w)) else None
  }

  /** What each input word adds to the grouping, in input order. */
  function KeptKeys(ws: seq<Word>): (r: seq<Option<Key>>)
    requires KeptAreLower(ws)
    ensures |r| == |ws|
  {
    seq(|ws|, i requires 0 <= i < |ws| => KeptKey(ws[i]))
  }

  /** The position of the first kept word with key `k`, or `|ws|` when there
      is none. */
  function FirstIndex(ws: seq<Word>, k: Key): nat
    requires KeptAreLower(ws)
  {
    FirstPos(KeptKeys(ws), Some(k))
  }

  /** `FirstIndex` finds a kept word with key `k` and none before it. */
  lemma FirstIndexSpec(ws: seq<Word>, k: Key)
    requires KeptAreLower(ws)
    ensures FirstIndex(ws, k) <= |ws|
    ensures FirstIndex(ws, k) < |ws| ==>
              Keep(ws[FirstIndex(ws, k)]) && WordToNum(ws[FirstIndex(ws, k)]) == k
    ensures forall j :: 0 <= j < FirstIndex(ws, k) ==> !(Keep(ws[j]) && WordToNum(ws[j]) == k)
  {
    FirstPosSpec(KeptKeys(ws), Some(k));
    var ks := KeptKeys(ws);
    assert forall j :: 0 <= j < |ws| ==> ks[j] == KeptKey(ws[j]);
  }

  /** The grouping lists the keys in order of first appearance, the insertion
      order of the dictionary: a key is listed exactly when some kept word has
      it, and one key precedes another exactly when its first kept word comes
      first. */
  lemma {:induction false} OrderOfFirstAppearance(ws: seq<Word>)
    requires KeptAreLower(ws)
    ensures forall k :: k in Canonicalize(ws).order <==> FirstIndex(ws, k) < |ws|
    ensures forall a, b :: 0 <= a < b < |Canonicalize(ws).order| ==>
              FirstIndex(ws, Canonicalize(ws).order[a]) < FirstIndex(ws, Canonicalize(ws).order[b])
  {
    if ws != [] {
      var init := ws[..|ws| - 1];
      var last := ws[|ws| - 1];
      assert ws == init + [last];
      KeptWithKeySnoc(init, last, Key(0));
      OrderOfFirstAppearance(init);
      CanonicalizeWellFormed(init);
      var g0 := Canonicalize(init);
      assert forall k :: k in g0.order <==> k in Elems(g0.order);
      var ks0 := KeptKeys(init);
      assert KeptKeys(ws) == ks0 + [KeptKey(last)] by {
        assert forall i :: 0 <= i < |init| ==> ws[i] == init[i];
      }
      assert Canonicalize(ws) == AddWord(g0, last);
      if Keep(last) && WordToNum(last) !in g0.words {
        var key := WordToNum(last);
        assert Canonicalize(ws).order == g0.order + [key];
        FirstOrderAppend(g0.order, ks0, key);
      } else {
        assert Canonicalize(ws).order == g0.order;
        FirstOrderSame(g0.order, ks0, KeptKey(last));
      }
    }
  }

  /** A skipped word, or a kept word whose key is listed already, leaves the
      keys in order of first appearance. */
  lemma FirstOrderSame(order: seq<Key>, ks0: seq<Option<Key>>, y: Option<Key>)
    requires y.Some? ==> y.value in order
    requires forall k :: k in order <==> FirstPos(ks0, Some(k)) < |ks0|
    requires forall a, b :: 0 <= a < b < |order| ==> FirstPos(ks0, Some(order[a])) < FirstPos(ks0, Some(order[b]))
    ensures forall k :: k in order <==> FirstPos(ks0 + [y], Some(k)) < |ks0| + 1
    ensures forall a, b :: 0 <= a < b < |order| ==>
              FirstPos(ks0 + [y], Some(order[a])) < FirstPos(ks0 + [y], Some(order[b]))
  {
    forall k ensures FirstPos(ks0 + [y], Some(k)) ==
      if FirstPos(ks0, Some(k)) < |ks0| then FirstPos(ks0, Some(k)) else if y == Some(k) then |ks0| else |ks0| + 1
    {
      FirstPosSnoc(ks0, y, Some(k));
    }
  }

  /** A kept word with a new key lists that key last, after every key whose
      first kept word came earlier. */
  lemma FirstOrderAppend(order: seq<Key>, ks0: seq<Option<Key>>, key: Key)
    requires key !in order
    requires forall k :: k in order <==> FirstPos(ks0, Some(k)) < |ks0|
    requires forall a, b :: 0 <= a < b < |order| ==> FirstPos(ks0, Some(order[a])) < FirstPos(ks0, Some(order[b]))
    ensures forall k :: k in order + [key] <==> FirstPos(ks0 + [Some(key)], Some(k)) < |ks0| + 1
    ensures forall a, b :: 0 <= a < b < |order + [key]| ==>
              FirstPos(ks0 + [Some(key)], Some((order + [key])[a])) < FirstPos(ks0 + [Some(key)], Some((order + [key])[b]))
  {
    var o := order + [key];
    var ks := ks0 + [Some(key)];
    forall k ensures FirstPos(ks, Some(k)) ==
      if FirstPos(ks0, Some(k)) < |ks0| then FirstPos(ks0, Some(k)) else if key == k then |ks0| else |ks0| + 1
    {
      FirstPosSnoc(ks0, Some(key), Some(k));
    }
    forall k ensures k in o <==> FirstPos(ks, Some(k)) < |ks0| + 1 {
      assert k in o <==> k in order || k == key;
    }
    forall a, b | 0 <= a < b < |o| ensures FirstPos(ks, Some(o[a])) < FirstPos(ks, Some(o[b])) {
      assert o[a] == order[a] && order[a] in order;
      if b < |order| {
        assert o[b] == order[b] && order[b] in order;
      } else {
        assert o[b] == key;
      }
    }
  }

  /** The grouping lists each of its keys once. */
  lemma CanonicalizeWellFormed(ws: seq<Word>)
    requires KeptAreLower(ws)
    ensures WellFormed(Canonicalize(ws))
  {
    CanonicalizeGroups(ws);
  }

  /** Every key in the grouping has exactly five letter bits and no other bit set,
      and every grouped word is a kept input word with that key. */
  lemma CanonicalizeKeys(ws: seq<Word>)
    requires KeptAreLower(ws)
    ensures forall k :: k in Canonicalize(ws).words ==> LetterBitsOnly(k.bits) && |Letters(k.bits)| == 5
    ensures forall k, w :: k in Canonicalize(ws).words && w in Canonicalize(ws).words[k] ==>
              w in ws && Keep(w) && AllLower(w) && WordToNum(w) == k
    ensures forall k :: k in Canonicalize(ws).words ==> Canonicalize(ws).words[k] != []
  {
    forall k | k in Canonicalize(ws).words
      ensures LetterBitsOnly(k.bits) && |Letters(k.bits)| == 5
      ensures forall w :: w in Canonicalize(ws).words[k] ==>
                w in ws && Keep(w) && AllLower(w) && WordToNum(w) == k
      ensures Canonicalize(ws).words[k] != []
    {
      GroupedKey(ws, k);
    }
  }

  lemma GroupedKey(ws: seq<Word>, k: Key)
    requires KeptAreLower(ws) && k in Canonicalize(ws).words
    ensures LetterBitsOnly(k.bits) && |Letters(k.bits)| == 5
    ensures forall w :: w in Canonicalize(ws).words[k] ==>
              w in ws && Keep(w) && AllLower(w) && WordToNum(w) == k
    ensures Canonicalize(ws).words[k] != []
  {
    CanonicalizeGroups(ws);
    KeptWithKeyMembers(ws, k);
    var group := KeptWithKey(ws, k);
    assert Canonicalize(ws).words[k] == group;
    assert group[0] in group;
    KeptKeyHasFiveLetters(group[0]);
  }

  /** Two kept input words land in the same group exactly when they are spelled
      with the same letters: anagrams are grouped and nothing else is. */
  lemma SameGroupIffAnagrams(ws: seq<Word>, v: Word, w: Word)
    requires KeptAreLower(ws)
    requires v in ws && w in ws && Keep(v) && Keep(w)
    ensures AllLower(v) && WordToNum(v) in Canonicalize(ws).words
    ensures w in Canonicalize(ws).words[WordToNum(v)] <==> Elems(v) == Elems(w)
  {
    CanonicalizeGroups(ws);
    assert AllLower(v) && AllLower(w);
    KeptWithKeyMembers(ws, WordToNum(v));
    SameKeyIffSameLetters(v, w);
  }
}
