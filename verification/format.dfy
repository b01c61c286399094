/** Turning a clique into its output line (`clique_to_str`): each key's words
    sorted and joined with `|`, those strings sorted and joined with `,`. */
module Format {
  import opened Keys
  import opened Sequences

  /** String order of both implementations on the ASCII text they handle:
      Python compares code points, Rust compares bytes, both lexicographically,
      a proper prefix coming first. */
  predicate LexLe(a: string, b: string)
    decreases |a|
  {
    a == [] || (b != [] && (a[0] < b[0] || (a[0] == b[0] && LexLe(a[1..], b[1..]))))
  }

  lemma {:induction false} LexLeTotal(a: string, b: string)
    ensures LexLe(a, b) || LexLe(b, a)
    decreases |a|
  {
    if a != [] && b != [] && a[0] == b[0] {
      LexLeTotal(a[1..], b[1..]);
    }
  }

  lemma {:induction false} LexLeTrans(a: string, b: string, c: string)
    requires LexLe(a, b) && LexLe(b, c)
    ensures LexLe(a, c)
    decreases |a|
  {
    if a != [] && a[0] == b[0] && b[0] == c[0] {
      LexLeTrans(a[1..], b[1..], c[1..]);
    }
  }

  lemma {:induction false} LexLeAntisym(a: string, b: string)
    requires LexLe(a, b) && LexLe(b, a)
    ensures a == b
    decreases |a|
  {
    if a != [] {
      LexLeAntisym(a[1..], b[1..]);
      assert a == [a[0]] + a[1..] && b == [b[0]] + b[1..];
    }
  }

  /** String order is a total order, so sorting strings has one outcome. */
  lemma LexOrder()
    ensures TotalPreorder(LexLe) && Antisymmetric(LexLe)
  {
    forall a, b ensures LexLe(a, b) || LexLe(b, a) {
      LexLeTotal(a, b);
    }
    forall a, b, c | LexLe(a, b) && LexLe(b, c) ensures LexLe(a, c) {
      LexLeTrans(a, b, c);
    }
    forall a, b | LexLe(a, b) && LexLe(b, a) ensures a == b {
      LexLeAntisym(a, b);
    }
  }

  /** `sep.join(parts)`. */
  function Join(sep: char, parts: seq<string>): string {
    if parts == [] then []
    else if |parts| == 1 then parts[0]
    else parts[0] + [sep] + Join(sep, parts[1..])
  }

  /** `s.split(sep)`: the pieces between the occurrences of `sep`; the empty
      string splits into one empty piece. */
  function Split(sep: char, s: string): (r: seq<string>)
    ensures r != []
    ensures forall i :: 0 <= i < |r| ==> sep !in r[i]
    decreases |s|
  {
    if sep !in s then [s]
    else
      var i := IndexOf(s, sep);
      [s[..i]] + Split(sep, s[i + 1..])
  }

  /** Splitting undoes joining, when no part holds the separator. */
  lemma {:induction false} SplitJoin(sep: char, parts: seq<string>)
    requires parts != []
    requires forall i :: 0 <= i < |parts| ==> sep !in parts[i]
    ensures Split(sep, Join(sep, parts)) == parts
  {
    if |parts| > 1 {
      var s := Join(sep, parts);
      var p := parts[0];
      assert s == p + [sep] + Join(sep, parts[1..]);
      assert s[|p|] == sep;
      assert IndexOf(s, sep) == |p| by {
        assert forall j :: 0 <= j < |p| ==> s[j] == p[j];
      }
      assert s[..|p|] == p;
      assert s[|p| + 1..] == Join(sep, parts[1..]);
      SplitJoin(sep, parts[1..]);
      assert parts == [p] + parts[1..];
    }
  }

  /** Joining undoes splitting. */
  lemma {:induction false} JoinSplit(sep: char, s: string)
    ensures Join(sep, Split(sep, s)) == s
    decreases |s|
  {
    if sep in s {
      var i := IndexOf(s, sep);
      var rest := Split(sep, s[i + 1..]);
      JoinSplit(sep, s[i + 1..]);
      assert Split(sep, s) == [s[..i]] + rest;
      assert s == s[..i] + [sep] + s[i + 1..];
    }
  }

  /** The separator does not occur in a join of parts that lack it. */
  lemma {:induction false} JoinAvoids(sep: char, c: char, parts: seq<string>)
    requires c != sep
    requires forall i :: 0 <= i < |parts| ==> c !in parts[i]
    ensures c !in Join(sep, parts)
  {
    if |parts| > 1 {
      JoinAvoids(sep, c, parts[1..]);
    }
  }

  /** Python's `sorted` and Rust's `sort` on strings. */
  function SortStrings(s: seq<string>): (r: seq<string>)
    ensures SortedBy(r, LexLe) && multiset(r) == multiset(s)
  {
    LexOrder();
    SortBy(s, LexLe)
  }

  /** `"|".join(sorted(words))`: the output text of one group of anagrams. */
  function GroupStr(words: seq<Word>): string {
    Join('|', SortStrings(words))
  }

  /** `num2word[num]` on Python's `defaultdict(list)`: a key never added reads
      as an empty group instead of failing. */
  function Lookup(words: map<Key, seq<Word>>, k: Key): seq<Word> {
    if k in words then words[k] else []
  }

  /** The group string of each key of a clique, in clique order. */
  function GroupStrs(nums: seq<Key>, words: map<Key, seq<Word>>): seq<string> {
    seq(|nums|, i requires 0 <= i < |nums| => GroupStr(Lookup(words, nums[i])))
  }

  /** Python's `clique_to_str`: the group strings of the keys, sorted and
      joined with `,`. */
  function CliqueToStr(nums: seq<Key>, words: map<Key, seq<Word>>): string {
    Join(',', SortStrings(GroupStrs(nums, words)))
  }

  /** The group strings of the Rust closure, key by key; `None` where
      `words_by_num.get(&x).expect(..)` stops the program. */
  function RustGroupStrs(nums: seq<Key>, words: map<Key, seq<Word>>): (r: Option<seq<string>>)
    ensures r.Some? ==> |r.value| == |nums|
  {
    if nums == [] then Some([])
    else if nums[0] !in words then None
    else
      match RustGroupStrs(nums[1..], words)
      case None => None
      case Some(rest) => Some([GroupStr(words[nums[0]])] + rest)
  }

  /** The Rust result line of one clique: `result_words.sort()` and
      `join(",")`, or `None` when the program stops. */
  function RustLine(nums: seq<Key>, words: map<Key, seq<Word>>): Option<string> {
    match RustGroupStrs(nums, words)
    case None => None
    case Some(strs) => Some(Join(',', SortStrings(strs)))
  }

  /** The Rust line fails exactly when a key is missing from the dictionary,
      and otherwise equals the Python line. */
  lemma {:induction false} RustLineAgrees(nums: seq<Key>, words: map<Key, seq<Word>>)
    ensures RustLine(nums, words).Some? <==> forall i :: 0 <= i < |nums| ==> nums[i] in words
    ensures RustLine(nums, words).Some? ==> RustLine(nums, words).value == CliqueToStr(nums, words)
  {
    RustGroupStrsAgree(nums, words);
  }

  lemma RustGroupStrsAgree(nums: seq<Key>, words: map<Key, seq<Word>>)
    ensures RustGroupStrs(nums, words).Some? <==> forall i :: 0 <= i < |nums| ==> nums[i] in words
    ensures RustGroupStrs(nums, words).Some? ==>
              RustGroupStrs(nums, words).value == GroupStrs(nums, words)
  {
    RustGroupStrsSome(nums, words);
    if RustGroupStrs(nums, words).Some? {
      RustGroupStrsValue(nums, words);
    }
  }

  lemma {:induction false} RustGroupStrsSome(nums: seq<Key>, words: map<Key, seq<Word>>)
    ensures RustGroupStrs(nums, words).Some? <==> forall i :: 0 <= i < |nums| ==> nums[i] in words
  {
    if nums != [] {
      RustGroupStrsSome(nums[1..], words);
      assert forall i :: 1 <= i < |nums| ==> nums[i] == nums[1..][i - 1];
    }
  }

  lemma {:induction false} RustGroupStrsValue(nums: seq<Key>, words: map<Key, seq<Word>>)
    requires RustGroupStrs(nums, words).Some?
    ensures forall i :: 0 <= i < |nums| ==>
              nums[i] in words && RustGroupStrs(nums, words).value[i] == GroupStr(words[nums[i]])
  {
    if nums != [] {
      RustGroupStrsValue(nums[1..], words);
      assert forall i :: 1 <= i < |nums| ==> nums[i] == nums[1..][i - 1];
    }
  }

  /** Reading a line back: the groups of words it lists. */
  function Decode(line: string): seq<seq<Word>> {
    MapSeq(part => Split('|', part), Split(',', line))
  }

  /** A word of the output contains neither separator. */
  predicate Plain(w: Word) {
    '|' !in w && ',' !in w
  }

  /** A group's string reads back as its words in sorted order. */
  lemma GroupStrDecodes(words: seq<Word>)
    requires words != [] && forall i :: 0 <= i < |words| ==> Plain(words[i])
    ensures Split('|', GroupStr(words)) == SortStrings(words)
    ensures ',' !in GroupStr(words)
  {
    var sorted := SortStrings(words);
    assert |sorted| == |multiset(sorted)| == |words|;
    forall i | 0 <= i < |sorted| ensures Plain(sorted[i]) {
      assert sorted[i] in multiset(words);
    }
    SplitJoin('|', sorted);
    JoinAvoids('|', ',', sorted);
  }

  /** Each key's words in sorted order, in clique order. */
  function SortedGroups(nums: seq<Key>, words: map<Key, seq<Word>>): seq<seq<Word>> {
    seq(|nums|, i requires 0 <= i < |nums| => SortStrings(Lookup(words, nums[i])))
  }

  /** The precondition of reading a line back: every key of the clique has a
      non-empty group, and no word holds a separator. */
  ghost predicate Readable(nums: seq<Key>, words: map<Key, seq<Word>>) {
    && (forall i :: 0 <= i < |nums| ==> nums[i] in words && words[nums[i]] != [])
    && (forall k, j :: k in words && 0 <= j < |words[k]| ==> Plain(words[k][j]))
  }

  /** The `,`-separated parts of a line are the sorted group strings. */
  lemma LineParts(nums: seq<Key>, words: map<Key, seq<Word>>)
    requires nums != [] && Readable(nums, words)
    ensures Split(',', CliqueToStr(nums, words)) == SortStrings(GroupStrs(nums, words))
  {
    var strs := GroupStrs(nums, words);
    var sorted := SortStrings(strs);
    forall i | 0 <= i < |strs| ensures ',' !in strs[i] {
      GroupStrDecodes(words[nums[i]]);
    }
    assert |sorted| == |multiset(sorted)| == |strs|;
    forall i | 0 <= i < |sorted| ensures ',' !in sorted[i] {
      assert sorted[i] in multiset(strs);
    }
    SplitJoin(',', sorted);
  }

  /** Splitting each group string at `|` gives each key's sorted words. */
  lemma GroupStrsDecode(nums: seq<Key>, words: map<Key, seq<Word>>)
    requires Readable(nums, words)
    ensures MapSeq(part => Split('|', part), GroupStrs(nums, words)) == SortedGroups(nums, words)
  {
    forall i | 0 <= i < |nums|
      ensures Split('|', GroupStrs(nums, words)[i]) == SortedGroups(nums, words)[i]
    {
      GroupStrDecodes(words[nums[i]]);
    }
  }

  /** A clique's line lists its groups in increasing string order, one part
      per key; reading it back gives each key's words, sorted, once per key. */
  lemma CliqueToStrDecodes(nums: seq<Key>, words: map<Key, seq<Word>>)
    requires nums != [] && Readable(nums, words)
    ensures SortedBy(Split(',', CliqueToStr(nums, words)), LexLe)
    ensures multiset(Decode(CliqueToStr(nums, words))) == multiset(SortedGroups(nums, words))
  {
    LineParts(nums, words);
    GroupStrsDecode(nums, words);
    MapPerm(part => Split('|', part), SortStrings(GroupStrs(nums, words)), GroupStrs(nums, words));
  }

  /** The line of a clique does not depend on the order of its keys. */
  lemma CliqueToStrOrderFree(t1: seq<Key>, t2: seq<Key>, words: map<Key, seq<Word>>)
    requires multiset(t1) == multiset(t2)
    ensures CliqueToStr(t1, words) == CliqueToStr(t2, words)
  {
    var f := k => GroupStr(Lookup(words, k));
    assert GroupStrs(t1, words) == MapSeq(f, t1);
    assert GroupStrs(t2, words) == MapSeq(f, t2);
    MapPerm(f, t1, t2);
    SortStringsCanonical(GroupStrs(t1, words), GroupStrs(t2, words));
  }

  /** Every group holds only words whose key is the group's key. */
  ghost predicate Keyed(words: map<Key, seq<Word>>) {
    forall k, j :: k in words && 0 <= j < |words[k]| ==>
      AllLower(words[k][j]) && WordToNum(words[k][j]) == k
  }

  /** The key of a group can be read off any of its words. */
  lemma SortedGroupKey(words: map<Key, seq<Word>>, k: Key)
    requires Keyed(words) && k in words && words[k] != []
    ensures SortStrings(words[k]) != []
    ensures AllLower(SortStrings(words[k])[0]) && WordToNum(SortStrings(words[k])[0]) == k
  {
    var sorted := SortStrings(words[k]);
    assert |sorted| == |multiset(sorted)| == |words[k]|;
    assert sorted[0] in multiset(words[k]);
    var j :| 0 <= j < |words[k]| && words[k][j] == sorted[0];
  }

  /** Equal lines come from cliques over the same keys: a line names its keys. */
  lemma LineDeterminesKeys(t1: seq<Key>, t2: seq<Key>, words: map<Key, seq<Word>>)
    requires t1 != [] && t2 != [] && Keyed(words)
    requires Readable(t1, words) && Readable(t2, words)
    requires CliqueToStr(t1, words) == CliqueToStr(t2, words)
    ensures Elems(t1) == Elems(t2)
  {
    CliqueToStrDecodes(t1, words);
    CliqueToStrDecodes(t2, words);
    KeysIncluded(t1, t2, words);
    KeysIncluded(t2, t1, words);
  }

  lemma KeysIncluded(t1: seq<Key>, t2: seq<Key>, words: map<Key, seq<Word>>)
    requires Keyed(words) && Readable(t1, words) && Readable(t2, words)
    requires multiset(SortedGroups(t1, words)) == multiset(SortedGroups(t2, words))
    ensures Elems(t1) <= Elems(t2)
  {
    forall a | 0 <= a < |t1| ensures t1[a] in Elems(t2) {
      KeyIncluded(t1, t2, words, a);
    }
  }

  lemma KeyIncluded(t1: seq<Key>, t2: seq<Key>, words: map<Key, seq<Word>>, a: nat)
    requires Keyed(words) && Readable(t1, words) && Readable(t2, words)
    requires multiset(SortedGroups(t1, words)) == multiset(SortedGroups(t2, words))
    requires a < |t1|
    ensures t1[a] in Elems(t2)
  {
    var x := t1[a];
    var grp := SortedGroups(t1, words)[a];
    assert grp in multiset(SortedGroups(t2, words));
    var b :| 0 <= b < |t2| && SortedGroups(t2, words)[b] == grp;
    SortedGroupKey(words, x);
    SortedGroupKey(words, t2[b]);
  }

  /** The Python output file: every line followed by a newline. */
  function PythonText(lines: seq<string>): string {
    if lines == [] then [] else lines[0] + "\n" + PythonText(lines[1..])
  }

  /** The Rust output file: the lines joined by newlines, without a final one. */
  function RustText(lines: seq<string>): string {
    Join('\n', lines)
  }

  /** For the same lines, the two output files differ only in the final newline. */
  lemma {:induction false} OutputTexts(lines: seq<string>)
    ensures PythonText(lines) == if lines == [] then [] else RustText(lines) + "\n"
  {
    if |lines| > 1 {
      OutputTexts(lines[1..]);
    }
  }

  /** The lines can be read back from the Rust file. */
  lemma RustTextDecodes(lines: seq<string>)
    requires lines != [] && forall i :: 0 <= i < |lines| ==> '\n' !in lines[i]
    ensures Split('\n', RustText(lines)) == lines
  {
    SplitJoin('\n', lines);
  }

  /** Sorting strings depends only on which strings there are (with
      repetitions), not on their order: any correct sort agrees with this one. */
  lemma SortStringsCanonical(a: seq<string>, b: seq<string>)
    requires multiset(a) == multiset(b)
    ensures SortStrings(a) == SortStrings(b)
  {
    LexOrder();
    SortedUnique(SortStrings(a), SortStrings(b), LexLe);
  }

  /** Sorting leaves a sorted sequence unchanged; in particular sorting is idempotent. */
  lemma SortStringsSorted(s: seq<string>)
    requires SortedBy(s, LexLe)
    ensures SortStrings(s) == s
  {
    LexOrder();
    SortedUnique(SortStrings(s), s, LexLe);
  }

  /** The keys of the `clique_to_str` documentation example. */
  function ExampleNums(): seq<Key> {
    [Key(31), Key(992), Key(31744), Key(1015808), Key(61865984)]
  }

  /** The groups of the `clique_to_str` documentation example. */
  function ExampleWords(): map<Key, seq<Word>> {
    map[Key(31) := ["abcde", "deabc"], Key(992) := ["fghij"], Key(31744) := ["klmno"],
        Key(1015808) := ["pqrst"], Key(61865984) := ["uvxyz"]]
  }

  /** The example of the `clique_to_str` documentation. */
  lemma CliqueToStrExample()
    ensures CliqueToStr(ExampleNums(), ExampleWords()) == "abcde|deabc,fghij,klmno,pqrst,uvxyz"
  {
    ExampleGroups();
    ExampleSorted();
    ExampleJoin();
  }

  lemma ExampleLookups()
    ensures Lookup(ExampleWords(), ExampleNums()[0]) == ["abcde", "deabc"]
    ensures Lookup(ExampleWords(), ExampleNums()[1]) == ["fghij"]
    ensures Lookup(ExampleWords(), ExampleNums()[2]) == ["klmno"]
    ensures Lookup(ExampleWords(), ExampleNums()[3]) == ["pqrst"]
    ensures Lookup(ExampleWords(), ExampleNums()[4]) == ["uvxyz"]
  {
  }

  lemma ExampleGroups()
    ensures GroupStrs(ExampleNums(), ExampleWords())
            == ["abcde|deabc", "fghij", "klmno", "pqrst", "uvxyz"]
  {
    ExampleLookups();
    ExampleAnagrams();
    GroupStrSingle("fghij");
    GroupStrSingle("klmno");
    GroupStrSingle("pqrst");
    GroupStrSingle("uvxyz");
    SameFive(GroupStrs(ExampleNums(), ExampleWords()), ["abcde|deabc", "fghij", "klmno", "pqrst", "uvxyz"]);
  }

  lemma ExampleAnagrams()
    ensures GroupStr(["abcde", "deabc"]) == "abcde|deabc"
  {
    LexLeHead("abcde", "deabc");
    GroupStrPair("abcde", "deabc");
  }

  /** A group of two words in order prints as the two joined by `|`. */
  lemma GroupStrPair(v: Word, w: Word)
    requires LexLe(v, w)
    ensures GroupStr([v, w]) == v + "|" + w
  {
    var pair := [v, w];
    assert SortedBy(pair, LexLe) by {
      forall i, j | 0 <= i < j < 2 ensures LexLe(pair[i], pair[j]) {
        assert i == 0 && j == 1;
      }
    }
    SortStringsSorted(pair);
    assert pair[1..] == [w];
    assert Join('|', pair) == v + ['|'] + Join('|', [w]);
  }

  /** A string whose first character is smaller comes first. */
  lemma LexLeHead(a: string, b: string)
    requires a != [] && b != [] && a[0] < b[0]
    ensures LexLe(a, b)
  {
  }

  /** A group of one word prints as that word. */
  lemma GroupStrSingle(w: Word)
    ensures GroupStr([w]) == w
  {
    var r := SortStrings([w]);
    assert |r| == |multiset(r)| == 1;
    assert r[0] in multiset([w]);
  }

  lemma ExampleSorted()
    ensures SortStrings(["abcde|deabc", "fghij", "klmno", "pqrst", "uvxyz"])
            == ["abcde|deabc", "fghij", "klmno", "pqrst", "uvxyz"]
  {
    var strs := ["abcde|deabc", "fghij", "klmno", "pqrst", "uvxyz"];
    forall i | 0 <= i < 4 ensures LexLe(strs[i], strs[i + 1]) {
      assert strs[i][0] < strs[i + 1][0];
    }
    LexOrder();
    SortedByAdjacent(strs, LexLe);
    SortStringsSorted(strs);
  }

  lemma ExampleJoin()
    ensures Join(',', ["abcde|deabc", "fghij", "klmno", "pqrst", "uvxyz"])
            == "abcde|deabc,fghij,klmno,pqrst,uvxyz"
  {
    JoinFive(',', "abcde|deabc", "fghij", "klmno", "pqrst", "uvxyz");
  }

  lemma JoinFive(sep: char, a: string, b: string, c: string, d: string, e: string)
    ensures Join(sep, [a, b, c, d, e]) == a + [sep] + b + [sep] + c + [sep] + d + [sep] + e
  {
    assert Join(sep, [d, e]) == d + [sep] + e by {
      assert [d, e][1..] == [e];
    }
    assert Join(sep, [c, d, e]) == c + [sep] + d + [sep] + e by {
      assert [c, d, e][1..] == [d, e];
    }
    assert Join(sep, [b, c, d, e]) == b + [sep] + c + [sep] + d + [sep] + e by {
      assert [b, c, d, e][1..] == [c, d, e];
    }
    assert [a, b, c, d, e][1..] == [b, c, d, e];
  }
}
