/**
 * The nodes of the trie, kept in an arena: a sequence of node records in
 * which a child is referred to by its index. Index 0 is the root.
 *
 * This module holds the node record and the walk along a string's edges,
 * which is what `searchByPrefix` and `getWordFrequency` do with their
 * cursor, together with the facts about walks that do not depend on the
 * words stored in the nodes.
 */
module TrieArena {

  datatype Option<T> = None | Some(value: T)

  /** One trie node: the child edges, every word inserted through this node
      (in insertion order), the insertion count of the word ending here, and
      whether some word ends here. */
  datatype TrieNode = TrieNode(
    children: map<char, nat>,
    words: seq<string>,
    wordFrequency: map<string, nat>,
    isEndOfWord: bool)

  /** A freshly constructed node. */
  const EmptyNode: TrieNode := TrieNode(map[], [], map[], false)

  /** Node `j` of the arena, or a fresh node if the arena has no index `j`. */
  function NodeOrEmpty(nodes: seq<TrieNode>, j: nat): TrieNode
  {
    if j < |nodes| then nodes[j] else EmptyNode
  }

  /** Java's `map.getOrDefault(key, 0)`. */
  function CountOf(m: map<string, nat>, key: string): nat
  {
    if key in m then m[key] else 0
  }

  /** Follow the edges labelled by `p` from node `n`; None on the first
      missing edge. */
  function Walk(nodes: seq<TrieNode>, n: nat, p: string): Option<nat>
    decreases |p|
  {
    if p == [] then Some(n)
    else if n < |nodes| && p[0] in nodes[n].children then Walk(nodes, nodes[n].children[p[0]], p[1..])
    else None
  }

  /** Every edge stays inside the arena, never leads back to the root, and
      extends the string of its source node by its label. */
  ghost predicate EdgesAgree(nodes: seq<TrieNode>, paths: seq<string>)
  {
    && |nodes| == |paths|
    && forall i, c :: 0 <= i < |nodes| && c in nodes[i].children ==>
         0 < nodes[i].children[c] < |nodes| && paths[nodes[i].children[c]] == paths[i] + [c]
  }

  /** `after` keeps every node and every edge of `before`. */
  ghost predicate Grows(before: seq<TrieNode>, after: seq<TrieNode>)
  {
    && |before| <= |after|
    && forall i, c :: 0 <= i < |before| && c in before[i].children ==>
         c in after[i].children && after[i].children[c] == before[i].children[c]
  }

  /** The arena after `computeIfAbsent` created a child of `cur` labelled `c`:
      the new node goes to the end of the arena. */
  function AddChild(nodes: seq<TrieNode>, cur: nat, c: char): (r: seq<TrieNode>)
    requires cur < |nodes|
    ensures |r| == |nodes| + 1 && r[|nodes|] == EmptyNode
    ensures r[cur].children == nodes[cur].children[c := |nodes|]
    ensures forall j :: 0 <= j < |nodes| && j != cur ==> r[j] == nodes[j]
    ensures r[cur].words == nodes[cur].words && r[cur].wordFrequency == nodes[cur].wordFrequency
    ensures r[cur].isEndOfWord == nodes[cur].isEndOfWord
  {
    nodes[cur := nodes[cur].(children := nodes[cur].children[c := |nodes|])] + [EmptyNode]
  }

  /** Every edge leads to a node of the arena. */
  predicate EdgesInRange(nodes: seq<TrieNode>)
  {
    forall i, c :: 0 <= i < |nodes| && c in nodes[i].children ==> nodes[i].children[c] < |nodes|
  }

  /** `children.computeIfAbsent(c, k -> new TrieNode())` on node `cur`: the
      arena and the child labelled `c`, created at the end of the arena when
      `cur` has no such edge. */
  function ComputeIfAbsent(nodes: seq<TrieNode>, cur: nat, c: char): (r: (seq<TrieNode>, nat))
    requires EdgesInRange(nodes) && cur < |nodes|
    ensures EdgesInRange(r.0) && r.1 < |r.0|
    ensures cur < |r.0| && c in r.0[cur].children && r.0[cur].children[c] == r.1
    ensures c in nodes[cur].children ==> r.0 == nodes
    ensures c !in nodes[cur].children ==> r.0 == AddChild(nodes, cur, c) && r.1 == |nodes|
  {
    if c in nodes[cur].children then (nodes, nodes[cur].children[c]) else (AddChild(nodes, cur, c), |nodes|)
  }

  /** Adding a missing edge keeps every existing edge. */
  lemma AddChildGrows(nodes: seq<TrieNode>, cur: nat, c: char)
    requires cur < |nodes| && c !in nodes[cur].children
    ensures Grows(nodes, AddChild(nodes, cur, c))
  {
  }

  /** The new child of `cur` spells the string of `cur` followed by `c`. */
  lemma AddChildEdges(nodes: seq<TrieNode>, paths: seq<string>, cur: nat, c: char)
    requires EdgesAgree(nodes, paths) && cur < |nodes| && c !in nodes[cur].children
    ensures EdgesAgree(AddChild(nodes, cur, c), paths + [paths[cur] + [c]])
  {
    var grown := AddChild(nodes, cur, c);
    var paths' := paths + [paths[cur] + [c]];
    forall k, d | 0 <= k < |grown| && d in grown[k].children
      ensures 0 < grown[k].children[d] < |grown| && paths'[grown[k].children[d]] == paths'[k] + [d]
    {
      if k != cur || d != c {
        assert k < |nodes| && d in nodes[k].children;
      }
    }
  }

  /** The arena after `current.words.add(w)` on node `j`. */
  function AppendWord(nodes: seq<TrieNode>, j: nat, w: string): (r: seq<TrieNode>)
    requires j < |nodes|
    ensures |r| == |nodes| && r[j].words == nodes[j].words + [w]
    ensures forall k :: 0 <= k < |nodes| && k != j ==> r[k] == nodes[k]
    ensures forall k :: 0 <= k < |nodes| ==>
              r[k].children == nodes[k].children && r[k].isEndOfWord == nodes[k].isEndOfWord
              && r[k].wordFrequency == nodes[k].wordFrequency
  {
    nodes[j := nodes[j].(words := nodes[j].words + [w])]
  }

  /** The arena after the end of `insert` on the last node `j` of `w`: the
      node is marked as a word end and `w` is counted once more there. */
  function MarkEnd(nodes: seq<TrieNode>, j: nat, w: string): (r: seq<TrieNode>)
    requires j < |nodes|
    ensures |r| == |nodes| && r[j].isEndOfWord
    ensures r[j].wordFrequency == nodes[j].wordFrequency[w := CountOf(nodes[j].wordFrequency, w) + 1]
    ensures forall k :: 0 <= k < |nodes| && k != j ==> r[k] == nodes[k]
    ensures forall k :: 0 <= k < |nodes| ==> r[k].children == nodes[k].children && r[k].words == nodes[k].words
  {
    nodes[j := nodes[j].(isEndOfWord := true,
                         wordFrequency := nodes[j].wordFrequency[w := CountOf(nodes[j].wordFrequency, w) + 1])]
  }

  /** The arena `insert(w)` leaves behind when it has walked `w[..i]` down to
      node `cur` of `nodes`: the rest of the loop, then the marking of the
      last node. */
  function InsertFrom(nodes: seq<TrieNode>, cur: nat, w: string, i: nat): (r: seq<TrieNode>)
    requires EdgesInRange(nodes) && cur < |nodes| && i <= |w|
    ensures EdgesInRange(r) && |nodes| <= |r|
    decreases |w| - i
  {
    if i == |w| then MarkEnd(nodes, cur, w)
    else
      var (grown, next) := ComputeIfAbsent(nodes, cur, w[i]);
      InsertFrom(AppendWord(grown, next, w), next, w, i + 1)
  }

  /** Keeping every edge is transitive. */
  lemma GrowsTransitive(a: seq<TrieNode>, b: seq<TrieNode>, c: seq<TrieNode>)
    requires Grows(a, b) && Grows(b, c)
    ensures Grows(a, c)
  {
  }

  /** Walking `p + q` is walking `p`, then `q` from where `p` ended. */
  lemma {:induction false} WalkConcat(nodes: seq<TrieNode>, n: nat, p: string, q: string)
    ensures Walk(nodes, n, p + q) ==
      (if Walk(nodes, n, p).None? then None else Walk(nodes, Walk(nodes, n, p).value, q))
    decreases |p|
  {
    if p == [] {
      assert p + q == q;
    } else {
      assert (p + q)[0] == p[0] && (p + q)[1..] == p[1..] + q;
      if n < |nodes| && p[0] in nodes[n].children {
        WalkConcat(nodes, nodes[n].children[p[0]], p[1..], q);
      }
    }
  }

  /** One more character: the walk goes on exactly when the reached node has
      that edge. */
  lemma WalkStep(nodes: seq<TrieNode>, p: string, c: char)
    ensures Walk(nodes, 0, p + [c]) ==
      (if Walk(nodes, 0, p).None? then None
       else if Walk(nodes, 0, p).value < |nodes| && c in nodes[Walk(nodes, 0, p).value].children
       then Some(nodes[Walk(nodes, 0, p).value].children[c])
       else None)
  {
    WalkConcat(nodes, 0, p, [c]);
  }

  /** A successful walk ends at the node whose string is the start's string
      followed by the walked characters. */
  lemma {:induction false} WalkFollowsPaths(nodes: seq<TrieNode>, paths: seq<string>, n: nat, p: string)
    requires EdgesAgree(nodes, paths) && n < |nodes| && Walk(nodes, n, p).Some?
    ensures Walk(nodes, n, p).value < |nodes|
    ensures paths[Walk(nodes, n, p).value] == paths[n] + p
    decreases |p|
  {
    if p != [] {
      var m := nodes[n].children[p[0]];
      WalkFollowsPaths(nodes, paths, m, p[1..]);
      assert p == [p[0]] + p[1..];
      assert paths[m] + p[1..] == paths[n] + p;
    } else {
      assert paths[n] + p == paths[n];
    }
  }

  /** Adding nodes and edges never breaks a walk that succeeded. */
  lemma {:induction false} WalkGrows(before: seq<TrieNode>, after: seq<TrieNode>, n: nat, p: string)
    requires Grows(before, after) && Walk(before, n, p).Some?
    ensures Walk(after, n, p) == Walk(before, n, p)
    decreases |p|
  {
    if p != [] {
      WalkGrows(before, after, before[n].children[p[0]], p[1..]);
    }
  }

  /** Every prefix of a walkable string is walkable. */
  lemma WalkPrefixClosed(nodes: seq<TrieNode>, n: nat, p: string, q: string)
    ensures q <= p && Walk(nodes, n, p).Some? ==> Walk(nodes, n, q).Some?
  {
    if q <= p {
      WalkConcat(nodes, n, q, p[|q|..]);
      assert q + p[|q|..] == p;
    }
  }
}
