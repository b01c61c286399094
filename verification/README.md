# Wordle5 in Dafny

Wordle5 finds every set of five five-letter words whose 25 letters are all
different. The program exists twice, in Python (`main.py`) and in Rust
(`rust/wordle5solver.rs`). Both follow the same four stages, and this project
models each of them as pure Dafny functions and methods with proved contracts:

1. **Canonicalise** (`Keys`, `Canon`). A word is kept when it has length 5 and
   5 distinct characters. A kept word is mapped to its letter key: the OR of
   `1 << (c - 'a')` over its letters. The kept words are grouped by key, in
   input order, so anagrams end up in one group (`words_by_num`).
2. **Build the graph** (`Graph`). The keys are enumerated in a fixed order
   `nums`. Each key's neighbours are the keys that come later in `nums` and
   share no bit with it. The graph is therefore a *forward* graph, not a
   symmetric one. Python enumerates the keys in increasing numeric order. Rust
   uses its hash map's order.
3. **Find the cliques** (`Cliques`). Five nested loops each narrow the
   candidates to the neighbours shared by every key chosen so far.
4. **Format** (`Format`, `Solver`). Each group is sorted and joined with `|`.
   The five group strings are sorted and joined with `,`. All lines are sorted.

`Sequences` holds the shared sequence facts: distinctness, sorting and
mapping.

The central results are the following:

- **Soundness and completeness.** The search yields exactly the
  letter-disjoint sets of five keys. Each set comes out once, as its keys in
  enumeration order. This holds whatever the order of `nums`, whatever the
  order in which the graph is visited, and whatever order each neighbour set
  is visited in, every set having an order of its own. No deduplication is
  needed because every edge points forward.
- **A unique output.** The result lines are characterised independently of
  any iteration order (`Solver.IsOutput`), and that characterisation has only
  one solution.
- **The two programs agree on the same words.** Given the same sequence of
  words, both the Python and the Rust pipeline produce that unique output,
  and their output files differ only in the final newline. The two programs
  can read different words from the same file (see "## Left out").

Set and hash-map iteration orders are unspecified in both languages. The model
takes each one as a parameter:

- `nums` is the order of the keys of `words_by_num` (sorted in Python, the
  hash map's order in Rust);
- `order` is the order in which the outer loop visits the graph (insertion
  order in Python, the hash map's order in Rust);
- `visit` gives the order of every neighbour set the inner loops run over.
  The set a loop runs over is computed from the keys chosen before it, so
  `visit` maps that path of chosen keys to a visiting sequence. A Python set
  orders its members by hash slot, and every collected Rust `HashSet` has its
  own random hasher, so each set may be visited in an order of its own.

Every property is proved for all such orders.

The graph is one-directional on purpose: the docstring at `main.py:31-32`
says that only the neighbours that come after a node are stored. The code has
no deduplication step, and `CliquesOfForwardGraph` proves that none is
needed: each clique is yielded exactly once.

## Model

| member | source | states |
|---|---|---|
| Canon.Keep | main.py:109-110 | The filter: the word has five characters and five distinct ones (`line.len() == 5` and the character set of size five at rust/wordle5solver.rs:42). |
| Keys.WordToNum | main.py:9-25 | The key has the bit of letter `c` set exactly when `c` occurs in the word, and no bit outside the 26 letter bits. |
| Keys.WordToNumExamples | main.py:18-20 | The documented examples hold: "abc" gives 7, "abcd" gives 15, "ca" gives 5. |
| Keys.LettersOfWordToNum | rust/wordle5solver.rs:44-47 | Decoding the accumulated key gives back exactly the set of the word's letters. |
| Keys.AddLetterSpec | main.py:24-25 | OR-ing one letter's bit into a key adds exactly that letter and keeps the key within the 26 letter bits. |
| Keys.AnagramsShareKey | main.py:111-113 | A rearrangement of a word's letters has the same key. |
| Keys.SameKeyIffSameLetters | main.py:111-113 | Two words share a key if and only if they use the same set of letters. |
| Keys.DisjointIff | main.py:38-41 | `k1 & k2 == 0` holds exactly when the two keys share no letter. |
| Keys.ValueInjective | main.py:35 | Distinct keys are distinct numbers, so numeric order is a strict order on keys. |
| Canon.AddWord | main.py:108-113 | One step of the grouping loop: a word that fails `Keep` leaves the grouping unchanged; a kept word is appended to its key's group, and a key seen for the first time is added after all earlier keys with a new one-word group (the `get_mut`/`insert` pair at rust/wordle5solver.rs:48-52). |
| Canon.Canonicalize | main.py:107-113 | The grouping `words_by_num`: `AddWord` applied to the words in input order, starting from no keys. |
| Canon.KeptWithKeyMembers | main.py:107-113 | The reference definition of a group holds exactly the kept lowercase input words with the given key. |
| Canon.CanonicalizeGroups | main.py:107-113 | The grouping loop lists every key once, and each group is exactly the kept words with that key, in input order. |
| Canon.FirstIndexSpec | main.py:107-113 | The first index of a key is the position of a kept word with that key, and no earlier kept word has it. |
| Canon.OrderOfFirstAppearance | main.py:107-113 | The keys are listed in order of first appearance, the dictionary's insertion order: a key is listed exactly when some kept word has it, and one key precedes another exactly when its first kept word comes first. |
| Canon.CanonicalizeKeys | rust/wordle5solver.rs:42-52 | Every group is non-empty. Every grouped word is a kept input word with the group's key. Every key has exactly five letter bits and no other bit. |
| Canon.KeptKeyHasFiveLetters | main.py:109-110 | A word of length 5 with 5 distinct letters has a key with exactly five letters. |
| Canon.GroupedKey | main.py:107-113 | A grouped key has exactly five letters, its group is non-empty, and each of its words is a kept input word with that key. |
| Canon.SameGroupIffAnagrams | rust/wordle5solver.rs:48-52 | Two kept words share a group exactly when they are anagrams. |
| Graph.MakeGraph | main.py:34-43 | The nodes are the keys. `nums[q]` is a neighbour of `nums[p]` exactly when `p < q` and the two share no letter. |
| Graph.EdgeStoredOnce | main.py:28-33 | A pair of distinct letter-disjoint keys is stored as exactly one edge, in one direction. No other pair is an edge, and there are no self-loops. |
| Graph.KeyLeOrder | main.py:35 | Numeric order of keys is total and antisymmetric, so sorting the keys has one outcome. |
| Graph.SortedForwardEdges | main.py:35-42 | Over the numerically sorted keys, `k2` is a neighbour of `k1` exactly when `k1 < k2` and `k1 & k2 == 0`. |
| Cliques.Expand | main.py:50-58 | The loops from one depth on: for each candidate `x` in the visiting order, the results of `Branch` through `x`, concatenated in that order. Every result has five keys and starts with the keys chosen so far. |
| Cliques.Branch | main.py:51-58 | One loop iteration with `x`: with five keys chosen it yields the tuple; otherwise it intersects the candidates with `graph[x]` (`ij_neighbors = i_neighbors & graph[j]` and so on) and visits that set in the order `visit` gives for the chosen path. Every result has five keys and starts with the chosen keys and `x`. |
| Cliques.FindCliques | main.py:46-58 | `find_cliques` (and the loops at rust/wordle5solver.rs:79-98): the outer loop visits the nodes in `order` with every node as a candidate, so narrowing by `graph[i]` gives `i_neighbors`. Every yielded tuple has five keys. |
| Cliques.Members | rust/wordle5solver.rs:84 | Iterating a set in a given visiting order visits exactly its members, each once. |
| Cliques.BranchSpec | main.py:52-58 | One loop iteration with key `x` yields exactly the five-key extensions of the chosen keys that continue with `x` and grow inside the candidate set. |
| Cliques.ExpandSpec | main.py:50-58 | The loops from a given depth yield exactly the five-key extensions of the chosen keys whose next key is a visited candidate and whose later keys are neighbours of all earlier ones. |
| Cliques.FindCliquesSpec | main.py:46-58 | `find_cliques` yields exactly the five-key cliques of the graph, whatever order it visits the graph in and whatever order each neighbour set is visited in. |
| Cliques.ExpandDistinct | rust/wordle5solver.rs:79-98 | When no key is visited twice at any level, no tuple is yielded twice. |
| Cliques.CliquesOfForwardGraph | rust/wordle5solver.rs:79-98 | On a forward graph, for any visiting orders of the graph and of each neighbour set, a tuple is yielded exactly when it is pairwise letter-disjoint and follows the enumeration order. Each yielded tuple lists its key set in that order, and every letter-disjoint set of five keys is yielded. |
| Cliques.SortedAscending | main.py:35-58 | Over the numerically sorted keys, following the enumeration order means strictly increasing keys. |
| Format.GroupStr | main.py:79 | The string of one group: its words sorted and joined with `|`. |
| Format.CliqueToStr | main.py:79-80 | `clique_to_str`: each key's group string, read through the `defaultdict` so a missing key gives an empty group; those strings sorted and joined with `,`. |
| Format.RustGroupStrs | rust/wordle5solver.rs:102-112 | The group strings of a result, key by key, each sorted and joined with `|`; `None` where `expect` stops the program on a key with no group. When present, there is one string per key. |
| Format.RustLine | rust/wordle5solver.rs:101-115 | The line of one Rust result: the group strings sorted and joined with `,`, or `None` when `expect` stops the program. |
| Format.PythonText | main.py:124-126 | The Python output file: every line followed by a newline. |
| Format.RustText | rust/wordle5solver.rs:126 | The Rust output file: the lines joined by newlines, with no final newline. |
| Format.LexOrder | main.py:122 | String order is total, transitive and antisymmetric. |
| Format.SplitJoin | main.py:79-80 | For a non-empty list of parts, none of which contains the separator, splitting their join at the separator gives back the parts. An empty list is excluded: its join is the empty string, which splits into one empty part. |
| Format.JoinSplit | main.py:79-80 | Joining the pieces of a split gives back the string. |
| Format.SortStringsCanonical | rust/wordle5solver.rs:109-118 | The sorted result depends only on the multiset of strings, so any correct sort gives the same sequence. |
| Format.SortStringsSorted | main.py:122 | Sorting an already sorted list leaves it unchanged. |
| Format.CliqueToStrExample | main.py:68-77 | The documented example gives its documented line: the two anagrams in one slot, then the four single words, in sorted order. |
| Format.CliqueToStrDecodes | main.py:79-80 | A line's `,`-parts are in sorted order. Splitting the line at commas and each part at pipe characters gives each key's sorted group, once per key. |
| Format.CliqueToStrOrderFree | main.py:79-80 | A clique's line does not depend on the order of its keys. |
| Format.LineDeterminesKeys | main.py:61-80 | Cliques with equal lines have the same key set. |
| Format.RustLineAgrees | rust/wordle5solver.rs:101-114 | The Rust line stops at `expect` exactly when some key has no group. Otherwise it equals the Python line. |
| Format.OutputTexts | main.py:124-126 | The Python file is the Rust file's newline-joined text plus one final newline, or empty when there are no lines. |
| Format.RustTextDecodes | rust/wordle5solver.rs:126 | When there is at least one line and no line contains a newline, splitting the Rust output file at newlines gives back the lines. An empty file (no cliques) splits into one empty line instead. |
| Solver.OutputUnique | main.py:122 | Two sequences that both meet the output characterisation are equal. |
| Solver.CliqueIsSolution | main.py:46-58 | Every found clique consists of five distinct input keys that are pairwise letter-disjoint. |
| Solver.SolutionHasClique | main.py:46-58 | Every set of five distinct pairwise-disjoint input keys is found, listed in enumeration order, and has the same line. |
| Solver.CliqueLinesDistinct | main.py:122 | Distinct cliques over the input keys give distinct lines. |
| Solver.SortedCliqueLines | main.py:118-122 | For any key enumeration, any visiting order of the graph and any visiting order of each neighbour set, the sorted lines of the found cliques are the output. |
| Solver.SolvePython | main.py:107-122 | Whatever order each Python set is visited in, the Python pipeline produces the output. Each of its cliques is a solution with strictly increasing keys. No clique is repeated, and there are as many as letter-disjoint sets of five keys, so each set is found once. |
| Solver.RustLines | rust/wordle5solver.rs:99-116 | The `map(..).collect()` over all results: the line of each result in result order, or `None` as soon as one result stops the program. |
| Solver.RustLinesAgree | rust/wordle5solver.rs:99-116 | When every key of every result has a group, no `expect` fires and the Rust lines are the cliques' lines. |
| Solver.SolveRust | rust/wordle5solver.rs:39-122 | For every order of the key map, of the graph map and of each collected `HashSet`, the Rust pipeline never stops at `expect` and produces the same output as Python on the same word sequence. Its printed count is the number of lines, which is the number of letter-disjoint sets of five keys. |
| Solver.CliqueCount | rust/wordle5solver.rs:120-123 | `results.len()` equals the number of letter-disjoint sets of five input keys. |
| Solver.FewKeysNoLines | main.py:118-122 | With fewer than five distinct keys there is no result line. |
| Solver.SolutionLetters | main.py:46-58 | The five keys of a solution together use exactly 25 distinct letters. |
| Solver.GroupWordLetters | main.py:107-113 | Every word in a key's group is spelled with exactly the key's letters. |
| Solver.LineWordsDisjoint | main.py:68-80 | Two words from the groups of two different keys of a solution share no letter, so the words of one line share no letter. |

## Left out

- Argument parsing (`parse_args`, `print_help`, `argparse`): command-line plumbing with no bearing on the results.
- Reading the word file, writing the result file, and the progress messages: these are I/O. The file contents are modelled as strings (`PythonText`, `RustText`), and the words arrive as a sequence.
- Reading words from the file (iterating the file and applying `rstrip()` in Python, `lines()` in Rust): the model receives the word sequence already read. The two programs can read different words from the same file, so their agreement is proved only for the same word sequence:
  - `rstrip()` (main.py:105) also removes trailing spaces and tabs, but `lines()` removes only `\n` and `\r\n`. A line `"abcde "` gives the word "abcde" in Python; Rust skips it, because its length is 6.
  - Python's universal newlines also end a line at a lone `\r`; Rust's `lines()` does not.
  - Rust's `if let Ok(line)` silently skips a line that is not valid UTF-8, where Python raises an error.
- Timing (`time.time`, `Instant`, the elapsed seconds): this is a clock reading and floating point.
- Hash-map and hash-set iteration orders: these are unspecified in both languages. They are parameters (`nums`, `order`, and `visit` for each neighbour set), and every property holds for all of them.
- Characters outside a..z in a kept word: the model requires kept words to be lowercase a..z (`KeptAreLower`). This input assumption is stated in the `word_to_num` docstring. It rules out the Rust `u8` underflow and shift overflow in `1 << (b - 97)`, and the Python negative shift.
- Byte length (`line.len()`, Rust) versus character length (`len(word)`, Python): the two coincide on lowercase ASCII words. They differ on a word with a non-ASCII letter: Python keeps "éclat", which has five characters, and `word_to_num` then sets bit 136; Rust skips it, because it has six bytes. The model's filter `Keep` counts characters as Python does, and `KeptAreLower` excludes such input.
- Python's `defaultdict` adds an empty entry when `clique_to_str` looks up a missing key: only the value is modelled (`Lookup`). Every looked-up key is present (`GroupingFacts`), so the entry is never added.
- A symmetric graph and a deduplication step: the code has neither, and the model follows the code.
