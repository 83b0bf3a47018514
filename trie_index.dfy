/**
 * The trie index of the type-ahead search: `Trie.insert`, `searchByPrefix`,
 * `searchBySubstring` with its depth-first helper, and `getWordFrequency`.
 *
 * The Java nodes are heap objects linked by a `HashMap<Character, TrieNode>`;
 * here they live in an arena (`nodes`) and a child is an index. Three ghost
 * fields give the abstract view that the invariant ties the arena to:
 * `inserted` is every word inserted so far, in order; `paths[j]` is the
 * string spelled by the edges from the root to node `j`; `height` bounds the
 * length of every such string.
 */
module TrieIndex {
  import opened Words
  import opened TrieArena

  /** The `wordFrequency` table of the node reached by `p`: the word `p`
      itself, counted once per insertion, if it was ever inserted. */
  ghost function Tally(inserted: seq<string>, p: string): map<string, nat>
  {
    if p in inserted then map[p := multiset(inserted)[p]] else map[]
  }

  /** Every node is reached by walking its own string from the root. */
  ghost predicate Reachable(nodes: seq<TrieNode>, paths: seq<string>)
  {
    forall j :: 0 <= j < |paths| ==> Walk(nodes, 0, paths[j]) == Some(j)
  }

  /** Every word of `ws` can be walked from the root. */
  ghost predicate Covers(nodes: seq<TrieNode>, ws: seq<string>)
  {
    forall v :: v in ws ==> Walk(nodes, 0, v).Some?
  }

  /** The trie invariant: the arena is a tree whose node `j` spells
      `paths[j]`, holds (unless it is the root) exactly the inserted words
      starting with `paths[j]`, and counts the insertions of `paths[j]`. */
  ghost predicate Consistent(nodes: seq<TrieNode>, paths: seq<string>, inserted: seq<string>, height: nat)
  {
    && EdgesAgree(nodes, paths)
    && |nodes| > 0 && paths[0] == []
    && (forall j :: 0 < j < |paths| ==> paths[j] != [] && |paths[j]| <= height)
    && Reachable(nodes, paths)
    && Covers(nodes, inserted)
    && nodes[0].words == []
    && (forall j :: 0 < j < |nodes| ==> nodes[j].words == WithPrefix(inserted, paths[j]) && nodes[j].words != [])
    && (forall j :: 0 <= j < |nodes| ==>
          nodes[j].isEndOfWord == (paths[j] in inserted) && nodes[j].wordFrequency == Tally(inserted, paths[j]))
  }

  /** Inserting the next word of `ws` into a list holding the words before
      it (as a multiset) gives a list holding one more word of `ws`; every
      entry stays walkable. */
  lemma SortStep(nodes: seq<TrieNode>, ws: seq<string>, i: nat, r: seq<string>, k: nat)
    requires i < |ws| && k <= |r| && Covers(nodes, ws) && Covers(nodes, r) && multiset(r) == multiset(ws[..i])
    ensures multiset(r[..k] + [ws[i]] + r[k..]) == multiset(ws[..i + 1])
    ensures Covers(nodes, r[..k] + [ws[i]] + r[k..])
  {
    assert r == r[..k] + r[k..];
    assert ws[..i + 1] == ws[..i] + [ws[i]];
    forall v | v in r[..k] + [ws[i]] + r[k..] ensures Walk(nodes, 0, v).Some? {
      assert v in multiset(r[..k] + [ws[i]] + r[k..]);
    }
  }

  /** A list of inserted words can be walked word by word. */
  lemma MatchesCovered(nodes: seq<TrieNode>, inserted: seq<string>, p: string, s: string, r: seq<string>)
    requires Covers(nodes, inserted) && Elems(r) <= Matches(inserted, p, s)
    ensures Covers(nodes, r)
  {
    forall v | v in r ensures Walk(nodes, 0, v).Some? {
      assert v in Elems(r);
    }
  }

  /** Inserted words below node `n` (whose string is `p`) that leave it by
      one of the edges in `labels` and contain `s`. */
  ghost function Below(inserted: seq<string>, p: string, s: string, labels: set<char>): set<string>
  {
    set w | w in inserted && w != [] && p <= w && |p| < |w| && w[|p|] in labels && Contains(w, s)
  }

  /** A walk from the root lands on the node that spells the walked string. */
  lemma WalkLands(nodes: seq<TrieNode>, paths: seq<string>, inserted: seq<string>, height: nat, p: string)
    requires Consistent(nodes, paths, inserted, height) && Walk(nodes, 0, p).Some?
    ensures Walk(nodes, 0, p).value < |nodes| && paths[Walk(nodes, 0, p).value] == p
  {
    WalkFollowsPaths(nodes, paths, 0, p);
    assert paths[0] + p == p;
  }

  /** A string the trie cannot walk starts no inserted word. */
  lemma UnreachedPrefixHasNoWords(nodes: seq<TrieNode>, inserted: seq<string>, p: string)
    requires Covers(nodes, inserted) && Walk(nodes, 0, p).None?
    ensures forall v :: v in inserted ==> !(p <= v)
    ensures WithPrefix(inserted, p) == []
  {
    forall v | v in inserted ensures !(p <= v) {
      WalkPrefixClosed(nodes, 0, v, p);
    }
    assert multiset(WithPrefix(inserted, p)) == multiset{} by {
      forall x ensures multiset(WithPrefix(inserted, p))[x] == 0 {
        WithPrefixCounts(inserted, p, x);
        assert x in inserted <==> x in multiset(inserted);
      }
    }
  }

  /** Adding edges and nodes keeps every node reachable and every word walkable. */
  lemma GrowsKeepsWalks(before: seq<TrieNode>, after: seq<TrieNode>, paths: seq<string>, ws: seq<string>)
    requires Grows(before, after) && Reachable(before, paths) && Covers(before, ws)
    ensures Reachable(after, paths) && Covers(after, ws)
  {
    forall j | 0 <= j < |paths| ensures Walk(after, 0, paths[j]) == Some(j) {
      WalkGrows(before, after, 0, paths[j]);
    }
    forall v | v in ws ensures Walk(after, 0, v).Some? {
      WalkGrows(before, after, 0, v);
    }
  }

  /** A child lies one character deeper than its parent, within the height. */
  lemma ChildBelow(nodes: seq<TrieNode>, paths: seq<string>, inserted: seq<string>, height: nat, n: nat, c: char)
    requires Consistent(nodes, paths, inserted, height) && n < |nodes| && c in nodes[n].children
    ensures var child := nodes[n].children[c];
            0 < child < |nodes| && paths[child] == paths[n] + [c] && |paths[child]| <= height
  {
  }

  /** Leaving node `n` by edge `c` selects the words below `n` whose next
      character is `c`. */
  lemma BelowAdd(inserted: seq<string>, p: string, s: string, labels: set<char>, c: char)
    ensures Below(inserted, p, s, labels + {c}) == Below(inserted, p, s, labels) + Matches(inserted, p + [c], s)
  {
    forall w ensures w in Below(inserted, p, s, labels + {c}) <==>
                     w in Below(inserted, p, s, labels) || w in Matches(inserted, p + [c], s) {
      PrefixExtend(p, c, w);
    }
  }

  /** After the search below the child by edge `c`, the results cover the
      subtrees of the edges visited so far and of `c`. */
  lemma BelowStep(inserted: seq<string>, p: string, s: string, done: set<char>, c: char,
                  base: set<string>, prev: seq<string>, r: seq<string>)
    requires Elems(prev) == base + Below(inserted, p, s, done)
    requires Elems(r) == Elems(prev) + Matches(inserted, p + [c], s)
    ensures Elems(r) == base + Below(inserted, p, s, done + {c})
  {
    BelowAdd(inserted, p, s, done, c);
  }

  /** The words a node holds that contain `s`, together with those found
      below it through all of its edges, are all inserted non-empty words
      starting with the node's string and containing `s`. */
  lemma NodeMatches(nodes: seq<TrieNode>, paths: seq<string>, inserted: seq<string>, height: nat, n: nat, s: string)
    requires Consistent(nodes, paths, inserted, height) && n < |nodes|
    ensures (set x | x in nodes[n].words && Contains(x, s)) + Below(inserted, paths[n], s, nodes[n].children.Keys)
            == Matches(inserted, paths[n], s)
  {
    var p := paths[n];
    var own := set x | x in nodes[n].words && Contains(x, s);
    forall x | x in own ensures x in Matches(inserted, p, s) {
      WithPrefixMembers(inserted, p, x);
    }
    forall w | w in Matches(inserted, p, s)
      ensures w in own || w in Below(inserted, p, s, nodes[n].children.Keys)
    {
      if |w| == |p| {
        assert w == p;
        WithPrefixMembers(inserted, p, w);
      } else {
        WalkConcat(nodes, 0, p, w[|p|..]);
        assert p + w[|p|..] == w;
        assert w[|p|..][0] == w[|p|];
      }
    }
  }

  /** The loop over `node.words` in `searchSubstringDFS`: append to `acc`
      every word of `ws` that contains `s` and is not in the list yet. */
  method AddContaining(ws: seq<string>, s: string, acc: seq<string>) returns (r: seq<string>)
    requires NoDups(acc)
    ensures acc <= r && NoDups(r)
    ensures Elems(r) == Elems(acc) + (set x | x in ws && Contains(x, s))
  {
    r := acc;
    var k := 0;
    while k < |ws|
      invariant 0 <= k <= |ws|
      invariant acc <= r && NoDups(r)
      invariant Elems(r) == Elems(acc) + (set x | x in ws[..k] && Contains(x, s))
    {
      var word := ws[k];
      assert ws[..k + 1] == ws[..k] + [word];
      assert (set x | x in ws[..k + 1] && Contains(x, s))
          == (set x | x in ws[..k] && Contains(x, s)) + (if Contains(word, s) then {word} else {});
      if Contains(word, s) && word !in r {
        AppendNew(r, word);
        r := r + [word];
      }
      k := k + 1;
    }
    assert ws[..|ws|] == ws;
  }

  /** Once every edge of node `n` is done, the results hold the words
      of its whole subtree. */
  lemma SubtreeDone(nodes: seq<TrieNode>, paths: seq<string>, inserted: seq<string>, height: nat, n: nat, s: string,
                    base: set<string>, r: seq<string>, done: set<char>)
    requires Consistent(nodes, paths, inserted, height) && n < |nodes|
    requires done == nodes[n].children.Keys
    requires Elems(r) == base + (set x | x in nodes[n].words && Contains(x, s)) + Below(inserted, paths[n], s, done)
    ensures Elems(r) == base + Matches(inserted, paths[n], s)
  {
    NodeMatches(nodes, paths, inserted, height, n, s);
  }

  /** What stays true of the arena throughout `insert(w)`, which started
      from the valid arena `N0` (strings `P0`, words `I`): it is still a tree
      whose nodes are reached by their strings, it keeps every node and edge
      of `N0`, and no flag or count has changed yet. */
  ghost predicate Arena(N0: seq<TrieNode>, P0: seq<string>, I: seq<string>, height: nat,
                        nodes: seq<TrieNode>, paths: seq<string>)
  {
    && Consistent(N0, P0, I, height)
    && EdgesAgree(nodes, paths) && P0 <= paths && Grows(N0, nodes)
    && (forall j :: 0 < j < |paths| ==> paths[j] != [] && |paths[j]| <= height)
    && Reachable(nodes, paths) && Covers(nodes, I)
    && (forall j :: 0 <= j < |nodes| ==>
          && nodes[j].isEndOfWord == NodeOrEmpty(N0, j).isEndOfWord
          && nodes[j].wordFrequency == NodeOrEmpty(N0, j).wordFrequency)
  }

  /** Every node created so far spells a prefix of `prefix`, which no
      earlier word starts with. */
  ghost predicate NewOnPath(N0: seq<TrieNode>, I: seq<string>, paths: seq<string>, prefix: string)
  {
    forall j :: |N0| <= j < |paths| ==> paths[j] <= prefix && WithPrefix(I, paths[j]) == []
  }

  /** `w` has been appended once to exactly the non-root nodes spelling a
      prefix of `prefix`. */
  ghost predicate WordsAlong(N0: seq<TrieNode>, nodes: seq<TrieNode>, paths: seq<string>, w: string, prefix: string)
  {
    && |nodes| == |paths|
    && forall j :: 0 <= j < |nodes| ==>
         nodes[j].words == NodeOrEmpty(N0, j).words + (if 0 < j && paths[j] <= prefix then [w] else [])
  }

  /** The state of `insert(w)` after walking `w[..i]` down to node `cur`. */
  ghost predicate Descending(N0: seq<TrieNode>, P0: seq<string>, I: seq<string>, height: nat,
                             nodes: seq<TrieNode>, paths: seq<string>, w: string, i: nat, cur: nat)
  {
    && i <= |w| <= height
    && Arena(N0, P0, I, height, nodes, paths)
    && cur < |nodes| && paths[cur] == w[..i]
    && NewOnPath(N0, I, paths, w[..i])
    && WordsAlong(N0, nodes, paths, w, w[..i])
  }

  /** Before the walk nothing has changed; the height bound is raised to
      cover `w`. */
  lemma DescendStart(N0: seq<TrieNode>, P0: seq<string>, I: seq<string>, h0: nat, w: string)
    requires Consistent(N0, P0, I, h0)
    ensures var height := if |w| > h0 then |w| else h0;
            Consistent(N0, P0, I, height) && Descending(N0, P0, I, height, N0, P0, w, 0, 0)
  {
    assert Grows(N0, N0);
  }

  /** Two distinct nodes spell distinct strings. */
  lemma PathsDistinct(nodes: seq<TrieNode>, paths: seq<string>, j: nat, k: nat)
    requires Reachable(nodes, paths) && j < |paths| && k < |paths| && paths[j] == paths[k]
    ensures j == k
  {
  }

  /** `current.words.add(w)` on the node `nxt` spelling `w[..i + 1]` moves
      the words invariant from `w[..i]` to `w[..i + 1]`. */
  lemma AppendOnPath(N0: seq<TrieNode>, nodes: seq<TrieNode>, paths: seq<string>, w: string, i: nat, nxt: nat)
    requires i < |w| && Reachable(nodes, paths) && |nodes| == |paths| > 0 && paths[0] == []
    requires nxt < |nodes| && paths[nxt] == w[..i + 1]
    requires WordsAlong(N0, nodes, paths, w, w[..i])
    ensures 0 < nxt
    ensures WordsAlong(N0, AppendWord(nodes, nxt, w), paths, w, w[..i + 1])
  {
    var after := AppendWord(nodes, nxt, w);
    forall j | 0 <= j < |after|
      ensures after[j].words == NodeOrEmpty(N0, j).words + (if 0 < j && paths[j] <= w[..i + 1] then [w] else [])
    {
      PrefixOfNext(paths[j], w, i);
      if paths[j] == w[..i + 1] {
        PathsDistinct(nodes, paths, j, nxt);
      }
    }
  }

  /** Appending a word changes no edge, flag or count. */
  lemma AppendKeepsArena(N0: seq<TrieNode>, P0: seq<string>, I: seq<string>, height: nat,
                         nodes: seq<TrieNode>, paths: seq<string>, nxt: nat, w: string)
    requires Arena(N0, P0, I, height, nodes, paths) && nxt < |nodes|
    ensures Arena(N0, P0, I, height, AppendWord(nodes, nxt, w), paths)
  {
    var after := AppendWord(nodes, nxt, w);
    assert Grows(nodes, after);
    GrowsTransitive(N0, nodes, after);
    GrowsKeepsWalks(nodes, after, paths, I);
  }

  /** The nodes created on the way to `w[..i]` lie on the way to `w[..i + 1]`. */
  lemma NewOnPathNext(N0: seq<TrieNode>, I: seq<string>, paths: seq<string>, w: string, i: nat)
    requires i < |w| && NewOnPath(N0, I, paths, w[..i])
    ensures NewOnPath(N0, I, paths, w[..i + 1])
  {
    forall j | |N0| <= j < |paths| ensures paths[j] <= w[..i + 1] {
      PrefixOfNext(paths[j], w, i);
    }
  }

  /** One step of `insert` along an edge that already exists. */
  lemma DescendExisting(N0: seq<TrieNode>, P0: seq<string>, I: seq<string>, height: nat,
                        nodes: seq<TrieNode>, paths: seq<string>, w: string, i: nat, cur: nat)
    requires Descending(N0, P0, I, height, nodes, paths, w, i, cur) && i < |w|
    requires w[i] in nodes[cur].children
    ensures var nxt := nodes[cur].children[w[i]];
            Descending(N0, P0, I, height, AppendWord(nodes, nxt, w), paths, w, i + 1, nxt)
  {
    var nxt := nodes[cur].children[w[i]];
    assert w[..i + 1] == w[..i] + [w[i]];
    AppendOnPath(N0, nodes, paths, w, i, nxt);
    AppendKeepsArena(N0, P0, I, height, nodes, paths, nxt, w);
    NewOnPathNext(N0, I, paths, w, i);
  }

  /** `computeIfAbsent` creating the child of `cur` labelled `w[i]` keeps the
      arena a tree reached by its strings. */
  lemma ChildAdded(N0: seq<TrieNode>, P0: seq<string>, I: seq<string>, height: nat,
                   nodes: seq<TrieNode>, paths: seq<string>, w: string, i: nat, cur: nat)
    requires Descending(N0, P0, I, height, nodes, paths, w, i, cur) && i < |w|
    requires w[i] !in nodes[cur].children
    ensures Arena(N0, P0, I, height, AddChild(nodes, cur, w[i]), paths + [w[..i + 1]])
  {
    var c := w[i];
    var grown := AddChild(nodes, cur, c);
    var paths' := paths + [w[..i + 1]];
    assert w[..i + 1] == w[..i] + [c];
    AddChildGrows(nodes, cur, c);
    AddChildEdges(nodes, paths, cur, c);
    GrowsKeepsWalks(nodes, grown, paths, I);
    ChildReachable(nodes, paths, cur, c);
    GrowsTransitive(N0, nodes, grown);
    assert P0 <= paths';
  }

  /** The child created below `cur` is reached by its own string, and every
      older node still is. */
  lemma ChildReachable(nodes: seq<TrieNode>, paths: seq<string>, cur: nat, c: char)
    requires Reachable(nodes, paths) && cur < |paths| == |nodes| && c !in nodes[cur].children
    ensures Reachable(AddChild(nodes, cur, c), paths + [paths[cur] + [c]])
  {
    var grown := AddChild(nodes, cur, c);
    var paths' := paths + [paths[cur] + [c]];
    AddChildGrows(nodes, cur, c);
    WalkGrows(nodes, grown, 0, paths[cur]);
    WalkStep(grown, paths[cur], c);
    forall j | 0 <= j < |paths'| ensures Walk(grown, 0, paths'[j]) == Some(j) {
      if j < |paths| {
        assert paths'[j] == paths[j];
        WalkGrows(nodes, grown, 0, paths[j]);
      }
    }
  }

  /** The new child spells `w[..i + 1]`, which no earlier word starts with,
      and has no words yet. */
  lemma ChildOnPath(N0: seq<TrieNode>, P0: seq<string>, I: seq<string>, height: nat,
                    nodes: seq<TrieNode>, paths: seq<string>, w: string, i: nat, cur: nat)
    requires Descending(N0, P0, I, height, nodes, paths, w, i, cur) && i < |w|
    requires w[i] !in nodes[cur].children
    ensures NewOnPath(N0, I, paths + [w[..i + 1]], w[..i + 1])
    ensures WordsAlong(N0, AddChild(nodes, cur, w[i]), paths + [w[..i + 1]], w, w[..i])
  {
    var c := w[i];
    var grown := AddChild(nodes, cur, c);
    var paths' := paths + [w[..i + 1]];
    assert w[..i + 1] == w[..i] + [c];
    WalkStep(nodes, w[..i], c);
    UnreachedPrefixHasNoWords(nodes, I, w[..i + 1]);
    NewOnPathNext(N0, I, paths, w, i);
    forall j | |N0| <= j < |paths'| ensures paths'[j] <= w[..i + 1] && WithPrefix(I, paths'[j]) == [] {
      if j < |paths| {
        assert paths'[j] == paths[j];
      }
    }
    forall j | 0 <= j < |grown|
      ensures grown[j].words == NodeOrEmpty(N0, j).words + (if 0 < j && paths'[j] <= w[..i] then [w] else [])
    {
      if j < |nodes| {
        assert paths'[j] == paths[j];
      }
    }
  }

  /** One step of `insert` that creates the missing child. */
  lemma DescendNew(N0: seq<TrieNode>, P0: seq<string>, I: seq<string>, height: nat,
                   nodes: seq<TrieNode>, paths: seq<string>, w: string, i: nat, cur: nat)
    requires Descending(N0, P0, I, height, nodes, paths, w, i, cur) && i < |w|
    requires w[i] !in nodes[cur].children
    ensures Descending(N0, P0, I, height, AppendWord(AddChild(nodes, cur, w[i]), |nodes|, w),
                       paths + [w[..i + 1]], w, i + 1, |nodes|)
  {
    var grown := AddChild(nodes, cur, w[i]);
    var paths' := paths + [w[..i + 1]];
    ChildAdded(N0, P0, I, height, nodes, paths, w, i, cur);
    ChildOnPath(N0, P0, I, height, nodes, paths, w, i, cur);
    AppendOnPath(N0, grown, paths', w, i, |nodes|);
    AppendKeepsArena(N0, P0, I, height, grown, paths', |nodes|, w);
  }

  /** The node strings after the step of `insert(w)` from node `cur` along
      `w[i]`: one more string when that edge is created. */
  ghost function PathsAfterStep(nodes: seq<TrieNode>, paths: seq<string>, cur: nat, w: string, i: nat): seq<string>
    requires cur < |nodes| && i < |w|
  {
    if w[i] in nodes[cur].children then paths else paths + [w[..i + 1]]
  }

  /** One step of `insert`: `computeIfAbsent` on `w[i]`, then `words.add(w)`
      on the node reached. */
  lemma DescendStep(N0: seq<TrieNode>, P0: seq<string>, I: seq<string>, height: nat,
                    nodes: seq<TrieNode>, paths: seq<string>, w: string, i: nat, cur: nat)
    requires Descending(N0, P0, I, height, nodes, paths, w, i, cur) && i < |w|
    ensures var (grown, next) := ComputeIfAbsent(nodes, cur, w[i]);
            next < |grown|
            && Descending(N0, P0, I, height, AppendWord(grown, next, w),
                          PathsAfterStep(nodes, paths, cur, w, i), w, i + 1, next)
  {
    if w[i] in nodes[cur].children {
      DescendExisting(N0, P0, I, height, nodes, paths, w, i, cur);
    } else {
      DescendNew(N0, P0, I, height, nodes, paths, w, i, cur);
    }
  }

  /** The node strings `insert(w)` leaves behind when it has walked `w[..i]`
      down to node `cur`. */
  ghost function PathsFrom(nodes: seq<TrieNode>, paths: seq<string>, cur: nat, w: string, i: nat): seq<string>
    requires EdgesInRange(nodes) && cur < |nodes| && i <= |w|
    decreases |w| - i
  {
    if i == |w| then paths
    else
      var (grown, next) := ComputeIfAbsent(nodes, cur, w[i]);
      PathsFrom(AppendWord(grown, next, w), PathsAfterStep(nodes, paths, cur, w, i), next, w, i + 1)
  }

  /** What one `insert(w)` does to the arena `before` (strings
      `beforePaths`): it keeps every node and edge, adds nodes only on `w`'s
      path, appends `w` once to every non-root node on that path and to no
      other, and marks the node spelling `w` as a word end with one more count
      of `w`; every other node keeps its flag and its counts. */
  ghost predicate InsertEffect(before: seq<TrieNode>, beforePaths: seq<string>,
                               after: seq<TrieNode>, paths: seq<string>, w: string)
  {
    && Grows(before, after) && beforePaths <= paths && |after| == |paths|
    && (forall j :: |before| <= j < |after| ==> paths[j] <= w)
    && (forall j :: 0 <= j < |after| ==>
          after[j].words == NodeOrEmpty(before, j).words + (if 0 < j && paths[j] <= w then [w] else []))
    && (forall j :: 0 <= j < |after| && paths[j] != w ==>
          && after[j].isEndOfWord == NodeOrEmpty(before, j).isEndOfWord
          && after[j].wordFrequency == NodeOrEmpty(before, j).wordFrequency)
    && (forall j :: 0 <= j < |after| && paths[j] == w ==>
          && after[j].isEndOfWord
          && var counts := NodeOrEmpty(before, j).wordFrequency;
             after[j].wordFrequency == counts[w := CountOf(counts, w) + 1])
  }

  /** The end of `insert`, node by node: marking the last node accounts for
      every change. */
  lemma FinishEffect(N0: seq<TrieNode>, P0: seq<string>, I: seq<string>, height: nat,
                     nodes: seq<TrieNode>, paths: seq<string>, w: string, cur: nat)
    requires Descending(N0, P0, I, height, nodes, paths, w, |w|, cur)
    ensures InsertEffect(N0, P0, MarkEnd(nodes, cur, w), paths, w)
  {
    var after := MarkEnd(nodes, cur, w);
    assert w[..|w|] == w;
    assert Grows(nodes, after);
    GrowsTransitive(N0, nodes, after);
    forall j | 0 <= j < |nodes| && paths[j] == w ensures j == cur {
      PathsDistinct(nodes, paths, j, cur);
    }
  }

  /** The end of `insert`, for the words lists: each non-root node holds
      the words of the extended history that start with its string. */
  lemma FinishWords(N0: seq<TrieNode>, P0: seq<string>, I: seq<string>, height: nat,
                    nodes: seq<TrieNode>, paths: seq<string>, w: string, cur: nat)
    requires Descending(N0, P0, I, height, nodes, paths, w, |w|, cur)
    ensures var after := MarkEnd(nodes, cur, w);
            forall j :: 0 < j < |after| ==> after[j].words == WithPrefix(I + [w], paths[j]) && after[j].words != []
  {
    var after := MarkEnd(nodes, cur, w);
    assert w[..|w|] == w;
    forall j | 0 < j < |after|
      ensures after[j].words == WithPrefix(I + [w], paths[j]) && after[j].words != []
    {
      WithPrefixAppend(I, w, paths[j]);
      if j < |N0| {
        assert paths[j] == P0[j];
      }
    }
  }

  /** The end of `insert`, for the flags and counts: each node is a word end
      exactly when its string was inserted, and counts its insertions. */
  lemma FinishFlags(N0: seq<TrieNode>, P0: seq<string>, I: seq<string>, height: nat,
                    nodes: seq<TrieNode>, paths: seq<string>, w: string, cur: nat)
    requires Descending(N0, P0, I, height, nodes, paths, w, |w|, cur)
    ensures var after := MarkEnd(nodes, cur, w);
            forall j :: 0 <= j < |after| ==>
              after[j].isEndOfWord == (paths[j] in I + [w]) && after[j].wordFrequency == Tally(I + [w], paths[j])
  {
    var after := MarkEnd(nodes, cur, w);
    var ins := I + [w];
    assert w[..|w|] == w;
    forall j | 0 <= j < |after|
      ensures after[j].isEndOfWord == (paths[j] in ins) && after[j].wordFrequency == Tally(ins, paths[j])
    {
      if paths[j] == w {
        PathsDistinct(nodes, paths, j, cur);
      }
      if j < |N0| {
        assert paths[j] == P0[j];
      } else {
        WithPrefixMembers(I, paths[j], paths[j]);
      }
    }
  }

  /** The end of `insert`, for the invariant: with `w` recorded as inserted,
      the marked arena is a valid trie again. */
  lemma FinishConsistent(N0: seq<TrieNode>, P0: seq<string>, I: seq<string>, height: nat,
                         nodes: seq<TrieNode>, paths: seq<string>, w: string, cur: nat)
    requires Descending(N0, P0, I, height, nodes, paths, w, |w|, cur)
    ensures Consistent(MarkEnd(nodes, cur, w), paths, I + [w], height)
  {
    var after := MarkEnd(nodes, cur, w);
    assert w[..|w|] == w;
    assert Grows(nodes, after);
    GrowsKeepsWalks(nodes, after, paths, I);
    assert Covers(after, I + [w]);
    FinishWords(N0, P0, I, height, nodes, paths, w, cur);
    FinishFlags(N0, P0, I, height, nodes, paths, w, cur);
  }

  /** The edges of a valid trie stay inside the arena. */
  lemma ConsistentEdgesInRange(nodes: seq<TrieNode>, paths: seq<string>, inserted: seq<string>, height: nat)
    requires Consistent(nodes, paths, inserted, height)
    ensures EdgesInRange(nodes)
  {
  }

  /** From any state of the walk, the rest of `insert(w)` yields a valid
      trie with `w` recorded once more, and the effect InsertEffect. */
  lemma {:induction false} DescendRest(N0: seq<TrieNode>, P0: seq<string>, I: seq<string>, height: nat,
                                       nodes: seq<TrieNode>, paths: seq<string>, w: string, i: nat, cur: nat)
    requires Descending(N0, P0, I, height, nodes, paths, w, i, cur)
    ensures EdgesInRange(nodes)
    ensures Consistent(InsertFrom(nodes, cur, w, i), PathsFrom(nodes, paths, cur, w, i), I + [w], height)
    ensures InsertEffect(N0, P0, InsertFrom(nodes, cur, w, i), PathsFrom(nodes, paths, cur, w, i), w)
    decreases |w| - i
  {
    if i == |w| {
      FinishEffect(N0, P0, I, height, nodes, paths, w, cur);
      FinishConsistent(N0, P0, I, height, nodes, paths, w, cur);
    } else {
      DescendStep(N0, P0, I, height, nodes, paths, w, i, cur);
      var (grown, next) := ComputeIfAbsent(nodes, cur, w[i]);
      DescendRest(N0, P0, I, height, AppendWord(grown, next, w), PathsAfterStep(nodes, paths, cur, w, i), w, i + 1, next);
    }
  }

  /** `insert(w)` on a valid trie yields a valid trie holding one more
      insertion of `w`, changed only as InsertEffect says. */
  lemma InsertKeepsValid(nodes: seq<TrieNode>, paths: seq<string>, inserted: seq<string>, height: nat, w: string,
                         nodes': seq<TrieNode>, paths': seq<string>)
    requires Consistent(nodes, paths, inserted, height)
    requires EdgesInRange(nodes) && nodes' == InsertFrom(nodes, 0, w, 0) && paths' == PathsFrom(nodes, paths, 0, w, 0)
    ensures Consistent(nodes', paths', inserted + [w], if |w| > height then |w| else height)
    ensures InsertEffect(nodes, paths, nodes', paths', w)
  {
    DescendStart(nodes, paths, inserted, height, w);
    DescendRest(nodes, paths, inserted, if |w| > height then |w| else height, nodes, paths, w, 0, 0);
  }

  class Trie {
    var nodes: seq<TrieNode>
    ghost var paths: seq<string>
    ghost var inserted: seq<string>
    ghost var height: nat

    ghost predicate Valid()
      reads this
    {
      Consistent(nodes, paths, inserted, height)
    }

    /** A trie holding only its root. */
    constructor ()
      ensures Valid() && inserted == [] && nodes == [EmptyNode]
    {
      nodes := [EmptyNode];
      paths := [[]];
      inserted := [];
      height := 0;
    }

    /** `Trie.insert`: walk `w`, creating missing children, appending `w` to
        every node on the way (not the root), then mark the last node as a
        word end and count one more insertion of `w` there. */
    method Insert(w: string)
      requires Valid()
      modifies this
      ensures Valid()
      ensures inserted == old(inserted) + [w]
      ensures InsertEffect(old(nodes), old(paths), nodes, paths, w)
    {
      ConsistentEdgesInRange(nodes, paths, inserted, height);
      ghost var N0, P0, I, h := nodes, paths, inserted, height;
      InsertPath(w);
      inserted := inserted + [w];
      height := if |w| > height then |w| else height;
      InsertKeepsValid(N0, P0, I, h, w, nodes, paths);
    }

    /** The arena work of `Trie.insert`: the loop over the characters of
        `w` with `computeIfAbsent` and `words.add`, then the update of the
        last node. */
    method InsertPath(w: string)
      requires EdgesInRange(nodes) && |nodes| > 0
      modifies this
      ensures nodes == InsertFrom(old(nodes), 0, w, 0)
      ensures paths == PathsFrom(old(nodes), old(paths), 0, w, 0)
      ensures inserted == old(inserted) && height == old(height)
    {
      var arena := nodes;
      ghost var strings := paths;
      var cur: nat := 0;
      var i := 0;
      while i < |w|
        invariant i <= |w| && cur < |arena| && EdgesInRange(arena)
        invariant InsertFrom(arena, cur, w, i) == InsertFrom(nodes, 0, w, 0)
        invariant PathsFrom(arena, strings, cur, w, i) == PathsFrom(nodes, paths, 0, w, 0)
      {
        strings := PathsAfterStep(arena, strings, cur, w, i);
        var (grown, next) := ComputeIfAbsent(arena, cur, w[i]);
        arena := AppendWord(grown, next, w);
        cur := next;
        i := i + 1;
      }
      nodes, paths := MarkEnd(arena, cur, w), strings;
    }

    /** `searchByPrefix`: the words stored at the node `p` leads to, or an
        empty list on the first missing edge. */
    method SearchByPrefix(p: string) returns (r: seq<string>)
      requires Valid()
      ensures r == if p == [] then [] else WithPrefix(inserted, p)
      ensures p != [] ==> (r == [] <==> Walk(nodes, 0, p).None?)
    {
      var cur: nat := 0;
      var i := 0;
      while i < |p|
        invariant 0 <= i <= |p| && cur < |nodes|
        invariant Walk(nodes, 0, p[..i]) == Some(cur)
      {
        assert p[..i + 1] == p[..i] + [p[i]];
        WalkStep(nodes, p[..i], p[i]);
        if p[i] !in nodes[cur].children {
          WalkPrefixClosed(nodes, 0, p, p[..i + 1]);
          UnreachedPrefixHasNoWords(nodes, inserted, p);
          return [];
        }
        cur := nodes[cur].children[p[i]];
        i := i + 1;
      }
      assert p[..|p|] == p;
      WalkLands(nodes, paths, inserted, height, p);
      r := nodes[cur].words;
    }

    /** `getWordFrequency`: re-walk `w` and read the count at its last node.
        The Java code dereferences null on a missing edge, so the walk must
        succeed. */
    method GetWordFrequency(w: string) returns (f: nat)
      requires Valid() && Walk(nodes, 0, w).Some?
      ensures f == multiset(inserted)[w]
    {
      var cur: nat := 0;
      var i := 0;
      while i < |w|
        invariant 0 <= i <= |w| && cur < |nodes|
        invariant Walk(nodes, 0, w[..i]) == Some(cur)
      {
        assert w[..i + 1] == w[..i] + [w[i]];
        WalkStep(nodes, w[..i], w[i]);
        WalkPrefixClosed(nodes, 0, w, w[..i + 1]);
        cur := nodes[cur].children[w[i]];
        i := i + 1;
      }
      assert w[..|w|] == w;
      WalkLands(nodes, paths, inserted, height, w);
      f := CountOf(nodes[cur].wordFrequency, w);
    }

    /** The first position of `r` holding a word strictly less frequent than
        `fx`: where a stable descending sort puts a word of frequency `fx`
        that comes after all of `r`. */
    method FindSlot(r: seq<string>, fx: nat) returns (k: nat)
      requires Valid() && Covers(nodes, r) && Ranked(r, multiset(inserted))
      ensures k <= |r|
      ensures forall m :: 0 <= m < k ==> multiset(inserted)[r[m]] >= fx
      ensures forall m :: k <= m < |r| ==> multiset(inserted)[r[m]] < fx
    {
      k := 0;
      while k < |r|
        invariant 0 <= k <= |r|
        invariant forall m :: 0 <= m < k ==> multiset(inserted)[r[m]] >= fx
      {
        var fk := GetWordFrequency(r[k]);
        if fk < fx {
          return;
        }
        k := k + 1;
      }
    }

    /** `results.sort(...)` with the descending-frequency comparator: a
        stable insertion sort whose comparisons call `GetWordFrequency`. */
    method SortByFrequency(ws: seq<string>) returns (r: seq<string>)
      requires Valid() && Covers(nodes, ws)
      ensures multiset(r) == multiset(ws)
      ensures Ranked(r, multiset(inserted))
    {
      r := [];
      var i := 0;
      while i < |ws|
        invariant 0 <= i <= |ws|
        invariant multiset(r) == multiset(ws[..i])
        invariant Ranked(r, multiset(inserted))
        invariant Covers(nodes, r)
      {
        var x := ws[i];
        var fx := GetWordFrequency(x);
        var k := FindSlot(r, fx);
        RankedInsert(r, k, x, multiset(inserted));
        SortStep(nodes, ws, i, r, k);
        r := r[..k] + [x] + r[k..];
        i := i + 1;
      }
      assert ws[..|ws|] == ws;
    }

    /** `searchSubstringDFS`: append to `acc` every word stored at node `n`
        or below it that contains `s` and is not yet in `acc`; the children
        are visited in an unspecified order. */
    method SearchSubstringDFS(n: nat, s: string, acc: seq<string>) returns (r: seq<string>)
      requires Valid() && n < |nodes| && NoDups(acc)
      ensures acc <= r && NoDups(r)
      ensures Elems(r) == Elems(acc) + Matches(inserted, paths[n], s)
      decreases height - |paths[n]|
    {
      r := AddContaining(nodes[n].words, s, acc);
      ghost var own := set x | x in nodes[n].words && Contains(x, s);
      var labels := nodes[n].children.Keys;
      ghost var done: set<char> := {};
      while labels != {}
        invariant labels <= nodes[n].children.Keys && done == nodes[n].children.Keys - labels
        invariant acc <= r && NoDups(r)
        invariant Elems(r) == Elems(acc) + own + Below(inserted, paths[n], s, done)
        decreases labels
      {
        var c :| c in labels;
        var child := nodes[n].children[c];
        ChildBelow(nodes, paths, inserted, height, n, c);
        ghost var prev := r;
        r := SearchSubstringDFS(child, s, r);
        BelowStep(inserted, paths[n], s, done, c, Elems(acc) + own, prev, r);
        MoveOne(nodes[n].children.Keys, labels, done, c);
        labels := labels - {c};
        done := done + {c};
      }
      SubtreeDone(nodes, paths, inserted, height, n, s, Elems(acc), r, done);
    }

    /** `searchBySubstring`: every distinct non-empty inserted word containing
        `s`, most frequent first. */
    method SearchBySubstring(s: string) returns (r: seq<string>)
      requires Valid()
      ensures NoDups(r)
      ensures Elems(r) == Matches(inserted, [], s)
      ensures Ranked(r, multiset(inserted))
    {
      var found := SearchSubstringDFS(0, s, []);
      MatchesCovered(nodes, inserted, [], s, found);
      r := SortByFrequency(found);
      PermutationKeepsNoDups(found, r);
      forall x ensures x in r <==> x in found {
        assert x in r <==> x in multiset(r);
        assert x in found <==> x in multiset(found);
      }
    }
  }
}
