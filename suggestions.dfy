/**
 * One round of the interactive loop of `DynamicSearchQueries.main`: after
 * the typed input has grown, its prefix suggestions and its substring
 * suggestions are merged into a set, ranked by insertion count and cut to
 * the first five.
 */
module Suggestions {
  import opened Words
  import opened TrieArena
  import opened TrieIndex

  /** How many suggestions are shown. */
  const Shown: nat := 5

  /** `new ArrayList<>(combinedResults)`: the words of a hash set as a list,
      in an order the model leaves open. */
  method ListOf(s: set<string>) returns (r: seq<string>)
    ensures NoDups(r) && Elems(r) == s && |r| == |s|
  {
    r := [];
    var rest := s;
    while rest != {}
      invariant rest <= s && NoDups(r) && Elems(r) == s - rest
      decreases rest
    {
      var x :| x in rest;
      AppendNew(r, x);
      MoveOne(s, rest, Elems(r), x);
      r := r + [x];
      rest := rest - {x};
    }
    NoDupsCardinality(r);
  }

  /** Every prefix suggestion is also a substring suggestion: a non-empty
      word starting with the input contains it. */
  lemma PrefixWithinSubstring(inserted: seq<string>, input: string)
    ensures Elems(if input == [] then [] else WithPrefix(inserted, input)) <= Matches(inserted, [], input)
  {
    forall x | x in Elems(if input == [] then [] else WithPrefix(inserted, input))
      ensures x in Matches(inserted, [], input)
    {
      WithPrefixMembers(inserted, input, x);
    }
  }

  /** The suggestions shown for `input`: the union of the prefix and the
      substring results, without duplicates, most frequent first, at most
      five, and no word left out counts more than a word shown. */
  method TopSuggestions(trie: Trie, input: string) returns (top: seq<string>)
    requires trie.Valid()
    ensures NoDups(top)
    ensures Elems(top) <= Matches(trie.inserted, [], input)
    ensures |top| == if |Matches(trie.inserted, [], input)| > Shown then Shown else |Matches(trie.inserted, [], input)|
    ensures Ranked(top, multiset(trie.inserted))
    ensures forall i, x :: 0 <= i < |top| && x in Matches(trie.inserted, [], input) && x !in top ==>
              multiset(trie.inserted)[x] <= multiset(trie.inserted)[top[i]]
  {
    var prefixSuggestions := trie.SearchByPrefix(input);
    var substringSuggestions := trie.SearchBySubstring(input);
    var combinedResults := Elems(prefixSuggestions) + Elems(substringSuggestions);
    PrefixWithinSubstring(trie.inserted, input);
    assert combinedResults == Matches(trie.inserted, [], input);
    var listed := ListOf(combinedResults);
    MatchesCovered(trie.nodes, trie.inserted, [], input, listed);
    var sortedResults := trie.SortByFrequency(listed);
    PermutationKeepsNoDups(listed, sortedResults);
    assert Elems(sortedResults) == combinedResults by {
      forall x ensures x in sortedResults <==> x in listed {
        assert x in sortedResults <==> x in multiset(sortedResults);
        assert x in listed <==> x in multiset(listed);
      }
    }
    assert |sortedResults| == |listed| by {
      assert |multiset(sortedResults)| == |multiset(listed)|;
    }
    top := Take(sortedResults, Shown);
    TakeRanked(sortedResults, Shown, multiset(trie.inserted));
  }
}
