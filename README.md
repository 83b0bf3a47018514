# Type-ahead search over a trie, in Dafny

This project models the trie behind the type-ahead search of
`DynamicSearchQueries.java`: `Trie.insert`, `searchByPrefix`,
`searchBySubstring` with its depth-first helper `searchSubstringDFS`,
`getWordFrequency`, and the step of the interactive loop that merges prefix
and substring results, ranks them by frequency and keeps the top five.

## How the model is built

- **Nodes** (`TrieArena`). A `TrieNode` is a value holding four things: its
  child edges (`map<char, nat>`), the list `words` of every word inserted
  through it, the `wordFrequency` table, and the `isEndOfWord` flag.
- **The trie** (`TrieIndex.Trie`). It is a class whose field `nodes` is an
  arena of node records; the root is index 0 and a child is an index.
  - Java's in-place updates of node objects become reassignments of `nodes`:
    `ComputeIfAbsent`, `AppendWord` and `MarkEnd` each rewrite one node.
  - Three ghost fields give the abstract view:
    - `inserted` is every word inserted so far, in order;
    - `paths[j]` is the string the edges spell from the root to node `j`;
    - `height` bounds the length of those strings.
- **The invariant** `Valid()` (predicate `Consistent`) says the arena is a tree
  in which:
  - node `j` is reached by walking `paths[j]`;
  - a non-root node holds exactly the inserted words starting with
    `paths[j]`, in insertion order and with repetitions (`WithPrefix`);
  - the root holds no words;
  - every node's flag and frequency table record the insertions of
    `paths[j]` itself.
- **Frequency.** The frequency of a word is its number of insertions,
  `multiset(inserted)[w]`.
- **Unspecified order.** Where Java iterates a `HashMap` or `HashSet`, the
  model picks elements with `:|`. This covers the children in
  `searchSubstringDFS` and the merged set in the suggestion step. Every
  contract holds whatever order is picked.
- **Sorting.** Both sorts (`results.sort` and `sortedResults.sort`) are a
  stable insertion sort, `SortByFrequency`. Its comparisons call
  `GetWordFrequency` as the Java comparator does.
- **`insert`.**
  - `Insert` keeps the walk from `insert` over the characters of the word
    (`InsertPath`), then updates the ghost history.
  - The arena it produces is specified by the function `InsertFrom`.
  - The lemma `InsertKeepsValid` proves that this arena is a valid trie
    again and that it changed exactly as `InsertEffect` describes.
- **Two edge cases, modelled as the code behaves:**
  - `searchByPrefix("")` returns an empty list. The comment at
    `DynamicSearchQueries.java:40` promises all words starting with the
    prefix, which for `""` is every word, but the root's word list is never
    filled.
  - `getWordFrequency` follows `children.get(c)` without checking the
    result, so on a missing edge it dereferences `null` and throws a
    `NullPointerException`. The model therefore requires that the word's
    path exists. In the program every call passes a word that was found in
    the trie, and the path of such a word always exists.
- **A consequence the proofs bring out.** With a non-empty input, every
  prefix suggestion is also a substring suggestion
  (`Suggestions.PrefixWithinSubstring`). The merged set is therefore exactly
  the substring result: the distinct non-empty inserted words containing the
  input.

## Model

| member | source | states |
|---|---|---|
| `TrieArena.ComputeIfAbsent` | DynamicSearchQueries.java:31 | the returned node is the child of `cur` under `c`: an existing child is reused with the arena unchanged; a missing one is created as a fresh empty node at the end of the arena (`AddChild`); either way every edge stays inside the arena and the returned child exists |
| `TrieArena.AddChild` | DynamicSearchQueries.java:31 | creating a child adds one fresh node and one edge from `cur`, and leaves every other node and the rest of `cur` unchanged |
| `TrieArena.AppendWord` | DynamicSearchQueries.java:32 | `words.add(w)` appends `w` to one node's list and changes no edge, flag, count or other node |
| `TrieArena.MarkEnd` | DynamicSearchQueries.java:34-37 | the last node becomes a word end and its count of `w` goes up by one from `getOrDefault(w, 0)`; nothing else changes |
| `TrieArena.InsertFrom` | DynamicSearchQueries.java:30-37 | the rest of `insert` from any point of the walk keeps every edge inside the arena and never removes a node |
| `TrieArena.WalkFollowsPaths` | DynamicSearchQueries.java:45-50 | a successful walk ends inside the arena, at the node whose string is the walked string |
| `TrieArena.WalkPrefixClosed` | DynamicSearchQueries.java:45-49 | if a string can be walked, so can each of its prefixes |
| `TrieIndex.Trie.constructor` | DynamicSearchQueries.java:23-25 | a new trie is valid, holds only an empty root node and has no insertions |
| `TrieIndex.Trie.Insert` | DynamicSearchQueries.java:28-38 | keeps the trie invariant, appends `w` to the history, and has exactly the effect `InsertEffect`: `w` is appended once to every non-root node on its path and to no other; only its path gains nodes; its last node is marked and counts `w` once more; all other flags and counts are unchanged |
| `TrieIndex.Trie.InsertPath` | DynamicSearchQueries.java:29-37 | the loop over the characters, then the update of the last node, yields exactly the arena `InsertFrom` describes |
| `TrieIndex.InsertKeepsValid` | DynamicSearchQueries.java:28-38 | on a valid trie, the arena produced by `insert(w)` is valid for the history extended by `w`, and differs from the old arena as `InsertEffect` says |
| `TrieIndex.DescendRest` | DynamicSearchQueries.java:30-37 | from any state of the walk down `w`, finishing `insert` gives a valid trie and the effect `InsertEffect` |
| `TrieIndex.DescendStep` | DynamicSearchQueries.java:31-32 | one iteration of the loop, `computeIfAbsent` and then `words.add`, keeps the walk's invariant one character further down |
| `TrieIndex.FinishEffect` | DynamicSearchQueries.java:34-37 | marking the last node completes the effect `InsertEffect` of the whole call |
| `TrieIndex.FinishConsistent` | DynamicSearchQueries.java:34-37 | after the last node is marked, the arena is valid for the extended history |
| `TrieIndex.Trie.SearchByPrefix` | DynamicSearchQueries.java:41-54 | returns the inserted words starting with `p`, in insertion order and with repetitions, or `[]` for the empty prefix; for a non-empty prefix the result is empty exactly when the walk meets a missing edge |
| `TrieIndex.UnreachedPrefixHasNoWords` | DynamicSearchQueries.java:46-47 | when the walk fails, no inserted word starts with the prefix, so returning an empty list loses nothing |
| `TrieIndex.WalkLands` | DynamicSearchQueries.java:45-53 | on a valid trie, a walk from the root lands on the node whose string is the walked string |
| `TrieIndex.Trie.GetWordFrequency` | DynamicSearchQueries.java:89-95 | returns the number of times `w` was inserted; 0 for a word whose path exists but which was never inserted itself |
| `TrieIndex.AddContaining` | DynamicSearchQueries.java:76-80 | the loop over `node.words` keeps the list duplicate-free, only appends to it, and adds exactly the node's words that contain `s` |
| `TrieIndex.Trie.SearchSubstringDFS` | DynamicSearchQueries.java:72-86 | only appends to the list and keeps it duplicate-free; its elements become the old ones plus every non-empty inserted word that starts with the node's string and contains `s` |
| `TrieIndex.NodeMatches` | DynamicSearchQueries.java:75-85 | a node's own matching words, together with the matches under all of its child edges, are exactly the matching words of its subtree |
| `TrieIndex.BelowAdd` | DynamicSearchQueries.java:83-85 | visiting one more child edge adds exactly the matches of that child's subtree |
| `TrieIndex.Trie.FindSlot` | DynamicSearchQueries.java:62-66 | in a list ranked by frequency, finds the position after every word at least as frequent as `fx` and before every less frequent word |
| `TrieIndex.Trie.SortByFrequency` | DynamicSearchQueries.java:62-66 | the result is a permutation of the input and is ordered by non-increasing frequency |
| `TrieIndex.Trie.SearchBySubstring` | DynamicSearchQueries.java:57-69 | returns each distinct non-empty inserted word containing `s` exactly once, and no other word, ordered by non-increasing frequency |
| `Words.WithPrefixCounts` | DynamicSearchQueries.java:32 | the words stored for a prefix hold each inserted word starting with it as often as it was inserted, and no other word |
| `Words.WithPrefixMembers` | DynamicSearchQueries.java:53 | a word is in a node's list exactly when it was inserted and starts with the node's string |
| `Words.ContainsIffOccurs` | DynamicSearchQueries.java:77 | `contains` holds exactly when the substring occurs at some position of the word |
| `Words.PermutationKeepsNoDups` | DynamicSearchQueries.java:62-66 | reordering a duplicate-free list keeps it duplicate-free |
| `Words.RankedInsert` | DynamicSearchQueries.java:62-66 | inserting a word after all words at least as frequent and before all less frequent ones keeps a list ranked |
| `Words.Take` | DynamicSearchQueries.java:147 | the cut list is a prefix of the list, with five entries or all of them when there are fewer |
| `Words.TakeRanked` | DynamicSearchQueries.java:147 | cutting a ranked duplicate-free list keeps it ranked and duplicate-free, and no word cut off counts more than a word kept |
| `Suggestions.ListOf` | DynamicSearchQueries.java:139 | copying the merged set into a list gives a duplicate-free list with exactly the set's words |
| `Suggestions.PrefixWithinSubstring` | DynamicSearchQueries.java:131-136 | every prefix suggestion is also a substring suggestion, so the merged set equals the substring result |
| `Suggestions.TopSuggestions` | DynamicSearchQueries.java:131-147 | the suggestions shown are duplicate-free and drawn from the merged prefix and substring results; they are ranked by non-increasing frequency; there are min(5, number of candidates) of them; no candidate left out is more frequent than a suggestion shown |

## Left out

- Reading `queries.csv`, the `Scanner` loop, `exit` handling, `trim()` of
  each line and all printing: these are I/O. The model receives each word
  and each input as a string.
- Iteration order of `HashMap` children and of the `HashSet`: this is left
  open with `:|`. The contracts hold for every order.
- The order among words of equal frequency: Java's `List.sort` is a stable
  merge sort and the model's sort is a stable insertion sort. The contracts
  fix only what the comparator decides: a permutation ordered by
  non-increasing frequency.
- Aliasing: the list returned by `searchByPrefix` is the node's own list
  and changes with later inserts; `subList` is a view; the DFS shares one
  list. The model passes and returns values instead.
- The `node == null` test at line 73: every node the DFS visits exists, and
  the model states this as `n < |nodes|`.
- Node objects on the heap: they are modelled as an arena of records
  indexed by number. Object identity is not part of the model.
- `TrieIndex.Trie.GetWordFrequency`: it requires that the word's path
  exists. For a missing path the Java code throws a
  `NullPointerException` instead of returning a count.
- `TrieArena.MarkEnd`: counts are unbounded naturals. The Java `int` count
  would wrap after 2^31 - 1 insertions of the same word.
- Java `char` is a UTF-16 code unit, and the model uses Dafny's `char`.
  Nothing in the core depends on the encoding.
