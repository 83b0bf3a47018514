/**
 * Word-level notions shared by the trie and by the suggestion step:
 * prefix filtering in insertion order, Java's `String.contains`,
 * duplicate-freedom, and ranking by insertion count.
 *
 * Strings are `seq<char>`; `p <= w` is Dafny's prefix order on sequences,
 * which is what Java's "w starts with p" means.
 */
module Words {

  /** The set of words occurring in `s`. */
  function Elems(s: seq<string>): set<string>
  {
    set x | x in s
  }

  /** No word occurs twice in `s`. */
  predicate NoDups(s: seq<string>)
  {
    forall i, j :: 0 <= i < j < |s| ==> s[i] != s[j]
  }

  /** The words of `ws` that start with `p`, in the order of `ws` and with
      one entry per occurrence. */
  function WithPrefix(ws: seq<string>, p: string): seq<string>
  {
    if ws == [] then []
    else WithPrefix(ws[..|ws| - 1], p) + (if p <= ws[|ws| - 1] then [ws[|ws| - 1]] else [])
  }

  /** Filtering keeps every occurrence of a word with prefix `p` and no other word. */
  lemma {:induction false} WithPrefixCounts(ws: seq<string>, p: string, x: string)
    ensures multiset(WithPrefix(ws, p))[x] == if p <= x then multiset(ws)[x] else 0
  {
    if ws != [] {
      var init := ws[..|ws| - 1];
      WithPrefixCounts(init, p, x);
      assert ws == init + [ws[|ws| - 1]];
    }
  }

  /** Membership form of WithPrefixCounts. */
  lemma WithPrefixMembers(ws: seq<string>, p: string, x: string)
    ensures x in WithPrefix(ws, p) <==> x in ws && p <= x
  {
    WithPrefixCounts(ws, p, x);
    assert x in WithPrefix(ws, p) <==> x in multiset(WithPrefix(ws, p));
    assert x in ws <==> x in multiset(ws);
  }

  /** Appending a word to the history appends it to every filter it passes. */
  lemma WithPrefixAppend(ws: seq<string>, w: string, p: string)
    ensures WithPrefix(ws + [w], p) == WithPrefix(ws, p) + (if p <= w then [w] else [])
  {
    assert (ws + [w])[..|ws|] == ws;
  }

  /** A prefix one character longer than `p`. */
  lemma PrefixExtend(p: string, c: char, w: string)
    ensures p + [c] <= w <==> (p <= w && |p| < |w| && w[|p|] == c)
  {
    if p + [c] <= w {
      assert w[..|p|] == (p + [c])[..|p|] == p;
    }
    if p <= w && |p| < |w| && w[|p|] == c {
      assert w[..|p| + 1] == w[..|p|] + [w[|p|]];
    }
  }

  /** The prefixes of `w[..i + 1]` are those of `w[..i]` and `w[..i + 1]` itself. */
  lemma PrefixOfNext(q: string, w: string, i: nat)
    requires i < |w|
    ensures q <= w[..i + 1] <==> (q <= w[..i] || q == w[..i + 1])
  {
    if q <= w[..i + 1] && q != w[..i + 1] {
      assert |q| <= i;
      assert w[..i][..|q|] == w[..i + 1][..|q|];
    }
    if q <= w[..i] {
      assert w[..i][..|q|] == w[..i + 1][..|q|];
    }
  }

  /** Java's `w.contains(s)`: `s` occurs in `w` as a contiguous block. */
  function Contains(w: string, s: string): bool
  {
    s <= w || (w != [] && Contains(w[1..], s))
  }

  /** `s` occurs in `w` starting at position `k`. */
  predicate OccursAt(w: string, s: string, k: int)
  {
    0 <= k <= |w| - |s| && w[k..k + |s|] == s
  }

  /** Contains agrees with the positional definition of an occurrence. */
  lemma {:induction false} ContainsIffOccurs(w: string, s: string)
    ensures Contains(w, s) <==> exists k :: OccursAt(w, s, k)
  {
    if s <= w {
      assert OccursAt(w, s, 0);
    } else if w == [] {
      assert |s| > 0;
    } else {
      ContainsIffOccurs(w[1..], s);
      if Contains(w, s) {
        var k :| OccursAt(w[1..], s, k);
        assert w[1..][k..k + |s|] == w[k + 1..k + 1 + |s|];
        assert OccursAt(w, s, k + 1);
      }
      if exists k :: OccursAt(w, s, k) {
        var k :| OccursAt(w, s, k);
        if k != 0 {
          assert w[1..][k - 1..k - 1 + |s|] == w[k..k + |s|];
          assert OccursAt(w[1..], s, k - 1);
        }
      }
    }
  }

  /** The non-empty words of `ws` that start with `p` and contain `s`. */
  ghost function Matches(ws: seq<string>, p: string, s: string): set<string>
  {
    set w | w in ws && w != [] && p <= w && Contains(w, s)
  }

  /** Ordered by non-increasing count in `freq`. */
  ghost predicate Ranked(r: seq<string>, freq: multiset<string>)
  {
    forall i, j :: 0 <= i < j < |r| ==> freq[r[i]] >= freq[r[j]]
  }

  /** Inserting `x` where everything before counts at least as much and
      everything after at most as much keeps the ranking. */
  lemma RankedInsert(r: seq<string>, k: nat, x: string, freq: multiset<string>)
    requires k <= |r| && Ranked(r, freq)
    requires forall m :: 0 <= m < k ==> freq[r[m]] >= freq[x]
    requires forall m :: k <= m < |r| ==> freq[r[m]] <= freq[x]
    ensures Ranked(r[..k] + [x] + r[k..], freq)
  {
    var t := r[..k] + [x] + r[k..];
    forall i, j | 0 <= i < j < |t| ensures freq[t[i]] >= freq[t[j]] {
      if j < k {
        assert t[i] == r[i] && t[j] == r[j];
      } else if j == k {
        assert t[i] == r[i] && t[j] == x;
      } else if i < k {
        assert t[i] == r[i] && t[j] == r[j - 1];
      } else if i == k {
        assert t[i] == x && t[j] == r[j - 1];
      } else {
        assert t[i] == r[i - 1] && t[j] == r[j - 1];
      }
    }
  }

  /** Appending a word not yet present keeps a sequence duplicate-free and
      adds exactly that word to its elements. */
  lemma AppendNew(r: seq<string>, x: string)
    requires NoDups(r) && x !in r
    ensures NoDups(r + [x]) && Elems(r + [x]) == Elems(r) + {x}
  {
  }

  /** A duplicate-free sequence holds each word at most once. */
  lemma {:induction false} NoDupsCounts(s: seq<string>, x: string)
    requires NoDups(s)
    ensures multiset(s)[x] <= 1
  {
    if s != [] {
      var t := s[1..];
      assert NoDups(t) by {
        forall i, j | 0 <= i < j < |t| ensures t[i] != t[j] {
          assert t[i] == s[i + 1] && t[j] == s[j + 1];
        }
      }
      NoDupsCounts(t, x);
      assert s == [s[0]] + t;
      assert s[0] !in t by {
        forall i | 0 <= i < |t| ensures t[i] != s[0] {
          assert t[i] == s[i + 1];
        }
      }
    }
  }

  /** Two equal entries make a word count at least twice. */
  lemma RepeatCounts(s: seq<string>, i: nat, j: nat)
    requires i < j < |s|
    ensures s[i] == s[j] ==> multiset(s)[s[i]] >= 2
  {
    assert s == s[..j] + s[j..];
    assert s[i] in s[..j] && s[j] in s[j..];
    assert multiset(s)[s[i]] == multiset(s[..j])[s[i]] + multiset(s[j..])[s[i]];
  }

  /** A permutation of a duplicate-free sequence is duplicate-free. */
  lemma PermutationKeepsNoDups(a: seq<string>, b: seq<string>)
    requires multiset(a) == multiset(b) && NoDups(a)
    ensures NoDups(b)
  {
    forall i, j | 0 <= i < j < |b| ensures b[i] != b[j] {
      NoDupsCounts(a, b[i]);
      RepeatCounts(b, i, j);
    }
  }

  /** Moving one element from the part of `all` still to visit to the part
      visited. */
  lemma MoveOne<T>(all: set<T>, rest: set<T>, done: set<T>, x: T)
    requires rest <= all && done == all - rest && x in rest
    ensures rest - {x} <= all && all - (rest - {x}) == done + {x}
  {
  }

  /** Java's `list.size() > n ? list.subList(0, n) : list`: the first `n`
      entries, or all of them when there are fewer. */
  function Take(r: seq<string>, n: nat): (top: seq<string>)
    ensures |top| == if |r| > n then n else |r|
    ensures top <= r
  {
    if |r| > n then r[..n] else r
  }

  /** Cutting a ranked duplicate-free list keeps it ranked and duplicate-free,
      and no word left out counts more than a word kept. */
  lemma TakeRanked(r: seq<string>, n: nat, freq: multiset<string>)
    requires Ranked(r, freq) && NoDups(r)
    ensures Ranked(Take(r, n), freq) && NoDups(Take(r, n)) && Elems(Take(r, n)) <= Elems(r)
    ensures forall i, x :: 0 <= i < |Take(r, n)| && x in Elems(r) && x !in Take(r, n) ==> freq[x] <= freq[Take(r, n)[i]]
  {
    var top := Take(r, n);
    forall i, x | 0 <= i < |top| && x in Elems(r) && x !in top ensures freq[x] <= freq[top[i]] {
      var j :| 0 <= j < |r| && r[j] == x;
      assert j >= |top|;
      assert top[i] == r[i];
    }
  }

  /** A duplicate-free sequence has as many entries as distinct words. */
  lemma {:induction false} NoDupsCardinality(s: seq<string>)
    requires NoDups(s)
    ensures |Elems(s)| == |s|
  {
    if s != [] {
      var init := s[..|s| - 1];
      var last := s[|s| - 1];
      assert NoDups(init);
      NoDupsCardinality(init);
      assert last !in Elems(init);
      assert Elems(s) == Elems(init) + {last};
    }
  }
}
