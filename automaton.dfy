/**
 * What the arena of nodes means, stated on values.
 *
 * Every node stands for the string of (folded) code points on its path from
 * the root, its `word`. A string is "in the trie" when following `children`
 * from the root along it succeeds. After Build, a node's failure link is the
 * node of the longest proper suffix of its word that is in the trie, and its
 * `exist` holds exactly the lengths of the inserted keywords that are
 * suffixes of its word. The lemmas here are the steps of the failure-chain
 * search that Build and walk both perform.
 */
module AhoCorasick {
  import opened Trie

  /** unicode.ToLower, on the ASCII letters only. */
  function ToLower(c: int): int {
    if 'A' as int <= c <= 'Z' as int then c + 32 else c
  }

  /** The code point the trie stores for `c`: folded unless the processor is case-sensitive. */
  function Fold(caseSensitive: bool, c: int): int {
    if caseSensitive then c else ToLower(c)
  }

  function FoldSeq(caseSensitive: bool, s: seq<int>): (r: seq<int>)
    ensures |r| == |s|
    ensures forall i | 0 <= i < |s| :: r[i] == Fold(caseSensitive, s[i])
  {
    seq(|s|, i requires 0 <= i < |s| => Fold(caseSensitive, s[i]))
  }

  /** Folding is applied code point by code point, so it commutes with slicing. */
  lemma FoldSlice(caseSensitive: bool, s: seq<int>, i: nat, j: nat)
    requires i <= j <= |s|
    ensures FoldSeq(caseSensitive, s)[i..j] == FoldSeq(caseSensitive, s[i..j])
  {
  }

  lemma TakeSnoc(s: seq<int>, i: nat)
    requires i < |s|
    ensures s[..i + 1] == s[..i] + [s[i]]
  {
  }

  lemma TakeAll(s: seq<int>)
    ensures s[..|s|] == s
  {
  }

  function SetOf(s: seq<int>): set<int> {
    set x | x in s
  }

  predicate NoDup(s: seq<int>) {
    forall i, j | 0 <= i < j < |s| :: s[i] != s[j]
  }

  /** A sequence has no duplicates exactly when its set of elements is as large as it is. */
  lemma {:induction false} NoDupCard(s: seq<int>)
    ensures |SetOf(s)| <= |s|
    ensures NoDup(s) <==> |SetOf(s)| == |s|
  {
    if s != [] {
      NoDupCard(s[1..]);
      assert SetOf(s) == {s[0]} + SetOf(s[1..]);
      if s[0] in SetOf(s[1..]) {
        assert SetOf(s) == SetOf(s[1..]);
        var k :| 0 <= k < |s[1..]| && s[1..][k] == s[0];
        assert s[0] == s[k + 1];
      } else {
        assert NoDup(s) <==> NoDup(s[1..]) by {
          if NoDup(s[1..]) {
            forall i, j | 0 <= i < j < |s| ensures s[i] != s[j] {
              if i > 0 {
                assert s[i] == s[1..][i - 1] && s[j] == s[1..][j - 1];
              } else {
                assert s[j] == s[1..][j - 1];
              }
            }
          }
        }
      }
    }
  }

  predicate IsSuffix(t: seq<int>, s: seq<int>) {
    |t| <= |s| && s[|s| - |t|..] == t
  }

  function Suffix(s: seq<int>, j: nat): seq<int>
    requires j <= |s|
  {
    s[|s| - j..]
  }

  lemma SuffixSameLength(t: seq<int>, s: seq<int>)
    ensures IsSuffix(t, s) && |t| == |s| ==> t == s
  {
    if |t| == |s| {
      assert s[|s| - |t|..] == s;
    }
  }

  lemma SuffixIsSuffix(s: seq<int>, m: nat)
    requires m <= |s|
    ensures IsSuffix(Suffix(s, m), s)
  {
  }

  /** A suffix of a suffix of `u` is a suffix of `u`. */
  lemma SuffixOfSuffix(u: seq<int>, w: seq<int>, j: nat)
    requires IsSuffix(w, u) && j <= |w|
    ensures Suffix(u, j) == Suffix(w, j)
  {
    assert u[|u| - j..] == u[|u| - |w|..][|w| - j..];
  }

  lemma SetOfEmpty(s: seq<int>)
    ensures SetOf(s) == {} ==> s == []
  {
    if s != [] {
      assert s[0] in SetOf(s);
    }
  }

  /** The node reached from the root along `s`, if every transition exists. */
  ghost function Find(nodes: seq<Node>, s: seq<int>): Option<nat>
    decreases |s|
  {
    if |s| == 0 then Some(0)
    else
      match Find(nodes, s[..|s| - 1])
      case None => None
      case Some(p) =>
        if p < |nodes| && s[|s| - 1] in nodes[p].children
        then Some(nodes[p].children[s[|s| - 1]])
        else None
  }

  ghost predicate InTrie(nodes: seq<Node>, s: seq<int>) {
    Find(nodes, s).Some?
  }

  lemma FindSnoc(nodes: seq<Node>, s: seq<int>, a: int)
    ensures Find(nodes, s + [a]) ==
      if Find(nodes, s).Some? && Find(nodes, s).value < |nodes| && a in nodes[Find(nodes, s).value].children
      then Some(nodes[Find(nodes, s).value].children[a])
      else None
  {
    assert (s + [a])[..|s|] == s;
  }

  /**
   * The length of the longest suffix of `s`, at most `k` long, that is in the
   * trie. The empty suffix always is (it is the root).
   */
  ghost function LongestSuffixLen(nodes: seq<Node>, s: seq<int>, k: nat): (m: nat)
    requires k <= |s|
    ensures m <= k
    ensures InTrie(nodes, Suffix(s, m))
    ensures forall j | m < j <= k :: !InTrie(nodes, Suffix(s, j))
    decreases k
  {
    if k == 0 || InTrie(nodes, Suffix(s, k)) then k else LongestSuffixLen(nodes, s, k - 1)
  }

  lemma LongestSuffixLenIs(nodes: seq<Node>, s: seq<int>, k: nat, m: nat)
    requires m <= k <= |s|
    requires InTrie(nodes, Suffix(s, m))
    requires forall j | m < j <= k :: !InTrie(nodes, Suffix(s, j))
    ensures LongestSuffixLen(nodes, s, k) == m
  {
  }

  /** The length of the word of the failure target of a node whose word is `w`. */
  ghost function ProperFailLen(nodes: seq<Node>, w: seq<int>): nat {
    if |w| == 0 then 0 else LongestSuffixLen(nodes, w, |w| - 1)
  }

  /** The lengths of the inserted keywords equal to `w`. */
  ghost function Own(keywords: set<seq<int>>, w: seq<int>): set<int> {
    if w in keywords then {|w|} else {}
  }

  /** The lengths of the inserted keywords that end `w`. */
  ghost function SuffixLens(keywords: set<seq<int>>, w: seq<int>): set<int> {
    set k | k in keywords && IsSuffix(k, w) :: |k|
  }

  /** Every edge goes to a non-root node whose word extends its parent's by the edge's code point. */
  ghost predicate ChildrenOk(nodes: seq<Node>, words: seq<seq<int>>) {
    |words| == |nodes| &&
    forall n, a | 0 <= n < |nodes| && a in nodes[n].children ::
      0 < nodes[n].children[a] < |nodes| && words[nodes[n].children[a]] == words[n] + [a]
  }

  /**
   * The invariant of the arena at all times (before and after Build): the
   * words are consistent with the edges, every node is reachable along its
   * word, failure links point into the arena and the root has none, every
   * keyword is a (non-empty) path of the trie, and `exist` holds at least the
   * lengths of the keywords ending exactly here and at most those ending in a
   * suffix of the word.
   */
  ghost predicate TrieValid(nodes: seq<Node>, words: seq<seq<int>>, keywords: set<seq<int>>) {
    && |nodes| > 0 && |words| == |nodes| && words[0] == []
    && nodes[0].failure == None
    && ChildrenOk(nodes, words)
    && (forall n | 0 <= n < |nodes| :: Find(nodes, words[n]) == Some(n))
    && (forall n | 0 <= n < |nodes| && nodes[n].failure.Some? :: nodes[n].failure.value < |nodes|)
    && (forall k | k in keywords :: k != [] && InTrie(nodes, k))
    && (forall n | 0 <= n < |nodes| ::
          Own(keywords, words[n]) <= SetOf(nodes[n].exist) <= SuffixLens(keywords, words[n]))
  }

  /**
   * What Build establishes for a non-root node `n` (whose record is `node`),
   * with `shape` giving the transitions: the failure link is the node of the
   * longest proper suffix of its word in the trie, and `exist` is, without
   * duplicates, the set of lengths of keywords ending its word.
   */
  ghost predicate LinkedAt(shape: seq<Node>, words: seq<seq<int>>, keywords: set<seq<int>>, n: nat, node: Node)
    requires n < |words|
  {
    && node.failure == Find(shape, Suffix(words[n], ProperFailLen(shape, words[n])))
    && SetOf(node.exist) == SuffixLens(keywords, words[n])
    && NoDup(node.exist)
  }

  /** The automaton after Build. */
  ghost predicate Linked(nodes: seq<Node>, words: seq<seq<int>>, keywords: set<seq<int>>) {
    && TrieValid(nodes, words, keywords)
    && forall n | 0 < n < |nodes| :: LinkedAt(nodes, words, keywords, n, nodes[n])
  }

  /** Following edges along `s` can only lead to the node whose word is `s`. */
  lemma {:induction false} FindWord(nodes: seq<Node>, words: seq<seq<int>>, s: seq<int>)
    requires |nodes| > 0 && ChildrenOk(nodes, words) && words[0] == []
    requires InTrie(nodes, s)
    ensures Find(nodes, s).value < |nodes| && words[Find(nodes, s).value] == s
    decreases |s|
  {
    if |s| > 0 {
      var t := s[..|s| - 1];
      assert s == t + [s[|s| - 1]];
      FindSnoc(nodes, t, s[|s| - 1]);
      FindWord(nodes, words, t);
    }
  }

  /** The root's word is empty and it is the only such node, so only the root has an empty word. */
  lemma NonRootWord(nodes: seq<Node>, words: seq<seq<int>>, keywords: set<seq<int>>, n: nat)
    requires TrieValid(nodes, words, keywords) && 0 < n < |nodes|
    ensures words[n] != []
  {
    assert Find(nodes, words[n]) == Some(n);
  }

  /** Two arenas with the same transitions have the same paths. */
  ghost predicate SameShape(a: seq<Node>, b: seq<Node>) {
    |a| == |b| && forall n | 0 <= n < |a| :: a[n].children == b[n].children
  }

  lemma {:induction false} SameShapeFind(a: seq<Node>, b: seq<Node>, s: seq<int>)
    requires SameShape(a, b)
    ensures Find(a, s) == Find(b, s)
    decreases |s|
  {
    if |s| > 0 {
      SameShapeFind(a, b, s[..|s| - 1]);
    }
  }

  lemma {:induction false} SameShapeLongest(a: seq<Node>, b: seq<Node>, s: seq<int>, k: nat)
    requires SameShape(a, b) && k <= |s|
    ensures LongestSuffixLen(a, s, k) == LongestSuffixLen(b, s, k)
    decreases k
  {
    SameShapeFind(a, b, Suffix(s, k));
    if k > 0 {
      SameShapeLongest(a, b, s, k - 1);
    }
  }

  /**
   * The keywords ending a word `w` whose node is not the root are the one
   * equal to `w`, if any, and those ending the word of its failure target:
   * a keyword that is a proper suffix of `w` is in the trie, so it is no
   * longer than the longest proper suffix in the trie, and ends it.
   */
  lemma SuffixLensSplit(nodes: seq<Node>, words: seq<seq<int>>, keywords: set<seq<int>>, w: seq<int>)
    requires TrieValid(nodes, words, keywords) && |w| > 0
    ensures SuffixLens(keywords, w) == Own(keywords, w) + SuffixLens(keywords, Suffix(w, ProperFailLen(nodes, w)))
  {
    var m := ProperFailLen(nodes, w);
    var v := Suffix(w, m);
    forall k | k in keywords && IsSuffix(k, w) && k != w
      ensures IsSuffix(k, v)
    {
      SuffixSameLength(k, w);
      assert Suffix(w, |k|) == k;
      assert InTrie(nodes, k);
      assert |k| <= m;
      assert v[|v| - |k|..] == w[|w| - |k|..];
    }
    forall k | k in keywords && IsSuffix(k, v)
      ensures IsSuffix(k, w)
    {
      assert v[|v| - |k|..] == w[|w| - |k|..];
    }
    forall l | l in SuffixLens(keywords, w)
      ensures l in Own(keywords, w) + SuffixLens(keywords, v)
    {
      var k :| k in keywords && IsSuffix(k, w) && |k| == l;
      if k != w {
        assert l in SuffixLens(keywords, v);
      }
    }
    forall l | l in Own(keywords, w) + SuffixLens(keywords, v)
      ensures l in SuffixLens(keywords, w)
    {
      if l in Own(keywords, w) {
        assert w in keywords && IsSuffix(w, w);
      } else {
        var k :| k in keywords && IsSuffix(k, v) && |k| == l;
        assert IsSuffix(k, w);
      }
    }
  }

  /** No keyword ends the empty word, so the root never reports anything. */
  lemma RootExist(nodes: seq<Node>, words: seq<seq<int>>, keywords: set<seq<int>>)
    requires TrieValid(nodes, words, keywords)
    ensures SuffixLens(keywords, []) == {}
    ensures nodes[0].exist == []
  {
    forall k | k in keywords
      ensures !IsSuffix(k, [])
    {
      assert k != [];
    }
    SetOfEmpty(nodes[0].exist);
  }

  /**
   * The state of a failure-chain search for the longest suffix, at most
   * `bound` long, of `u + [a]` that is in the trie: the current node `f`
   * stands for a suffix of `u`, and no longer suffix of `u` shorter than
   * `bound` that is in the trie has a transition on `a`.
   */
  ghost predicate ChainInv(shape: seq<Node>, words: seq<seq<int>>, u: seq<int>, a: int, bound: nat, f: nat) {
    && f < |shape| && f < |words| && IsSuffix(words[f], u) && |words[f]| < bound <= |u| + 1
    && forall j | |words[f]| < j < bound && InTrie(shape, Suffix(u, j)) :: !InTrie(shape, Suffix(u, j) + [a])
  }

  /** The search ends at a node with a transition on `a`: that transition leads to the answer. */
  lemma ChainFound(shape: seq<Node>, words: seq<seq<int>>, u: seq<int>, a: int, bound: nat, f: nat)
    requires |shape| > 0 && ChildrenOk(shape, words) && words[0] == []
    requires forall n | 0 <= n < |shape| :: Find(shape, words[n]) == Some(n)
    requires ChainInv(shape, words, u, a, bound, f) && a in shape[f].children
    ensures LongestSuffixLen(shape, u + [a], bound) == |words[f]| + 1
    ensures Find(shape, Suffix(u + [a], |words[f]| + 1)) == Some(shape[f].children[a])
  {
    var m := |words[f]| + 1;
    SuffixSnoc(u, a, m);
    assert Suffix(u, m - 1) == words[f];
    assert Find(shape, words[f]) == Some(f);
    FindSnoc(shape, words[f], a);
    ChainNoLonger(shape, words, u, a, bound, f);
    LongestSuffixLenIs(shape, u + [a], bound, m);
  }

  lemma SuffixSnoc(u: seq<int>, a: int, j: nat)
    requires 1 <= j <= |u| + 1
    ensures Suffix(u + [a], j) == Suffix(u, j - 1) + [a]
  {
  }

  /** In the search state, no suffix of `u + [a]` longer than one past the current node's word is in the trie. */
  lemma ChainNoLonger(shape: seq<Node>, words: seq<seq<int>>, u: seq<int>, a: int, bound: nat, f: nat)
    requires ChainInv(shape, words, u, a, bound, f)
    ensures forall j | |words[f]| + 1 < j <= bound :: !InTrie(shape, Suffix(u + [a], j))
  {
    forall j | |words[f]| + 1 < j <= bound
      ensures !InTrie(shape, Suffix(u + [a], j))
    {
      SuffixSnoc(u, a, j);
      FindSnoc(shape, Suffix(u, j - 1), a);
    }
  }

  /** The search ends at the root without a transition on `a`: only the empty suffix is in the trie. */
  lemma ChainRoot(shape: seq<Node>, words: seq<seq<int>>, u: seq<int>, a: int, bound: nat)
    requires |shape| > 0 && ChildrenOk(shape, words) && words[0] == []
    requires ChainInv(shape, words, u, a, bound, 0) && a !in shape[0].children
    ensures LongestSuffixLen(shape, u + [a], bound) == 0
  {
    ChainNoLonger(shape, words, u, a, bound, 0);
    if bound >= 1 {
      SuffixSnoc(u, a, 1);
      FindSnoc(shape, [], a);
    }
    LongestSuffixLenIs(shape, u + [a], bound, 0);
  }

  /**
   * One fallback: a non-root node without a transition on `a` is replaced by
   * its failure target `g`, which is strictly shallower, and the search state
   * is kept, since no suffix of `u` strictly between the two is in the trie.
   */
  lemma ChainStep(shape: seq<Node>, words: seq<seq<int>>, u: seq<int>, a: int, bound: nat, f: nat, g: nat)
    requires |shape| > 0 && ChildrenOk(shape, words) && words[0] == []
    requires forall n | 0 <= n < |shape| :: Find(shape, words[n]) == Some(n)
    requires ChainInv(shape, words, u, a, bound, f) && a !in shape[f].children
    requires Find(shape, Suffix(words[f], ProperFailLen(shape, words[f]))) == Some(g)
    ensures ChainInv(shape, words, u, a, bound, g)
    ensures |words[g]| < |words[f]| || f == 0
  {
    var w := words[f];
    var m := ProperFailLen(shape, w);
    FindWord(shape, words, Suffix(w, m));
    assert words[g] == Suffix(w, m);
    assert w == Suffix(u, |w|);
    assert IsSuffix(words[g], u) by {
      assert u[|u| - m..] == w[|w| - m..];
    }
    assert Find(shape, w) == Some(f);
    FindSnoc(shape, w, a);
    forall j | |words[g]| < j < bound && InTrie(shape, Suffix(u, j))
      ensures !InTrie(shape, Suffix(u, j) + [a])
    {
      if j < |w| {
        SuffixOfSuffix(u, w, j);
      }
      if j == |w| {
        assert Suffix(u, j) == w;
      }
    }
  }

  /** Build starts the search from the parent's failure target, which satisfies the search state. */
  lemma ChainStartBuild(shape: seq<Node>, words: seq<seq<int>>, p: nat, a: int, g: nat)
    requires |shape| > 0 && ChildrenOk(shape, words) && words[0] == []
    requires p < |shape| && |words[p]| > 0
    requires Find(shape, Suffix(words[p], ProperFailLen(shape, words[p]))) == Some(g)
    ensures ChainInv(shape, words, words[p], a, |words[p]|, g)
  {
    var w := words[p];
    FindWord(shape, words, Suffix(w, ProperFailLen(shape, w)));
  }

  /** walk starts the search from the current node, whose word is the longest suffix of the text read so far in the trie. */
  lemma ChainStartWalk(shape: seq<Node>, words: seq<seq<int>>, t: seq<int>, a: int, cur: nat)
    requires cur < |shape| && |words| == |shape|
    requires words[cur] == Suffix(t, LongestSuffixLen(shape, t, |t|))
    ensures ChainInv(shape, words, t, a, |t| + 1, cur)
  {
    LongestSuffixIsSuffix(shape, words, t, cur);
    LongestSuffixBelow(shape, words, t, a, cur);
  }

  lemma LongestSuffixIsSuffix(shape: seq<Node>, words: seq<seq<int>>, t: seq<int>, cur: nat)
    requires cur < |words|
    requires words[cur] == Suffix(t, LongestSuffixLen(shape, t, |t|))
    ensures IsSuffix(words[cur], t)
  {
  }

  lemma LongestSuffixBelow(shape: seq<Node>, words: seq<seq<int>>, t: seq<int>, a: int, cur: nat)
    requires cur < |words|
    requires words[cur] == Suffix(t, LongestSuffixLen(shape, t, |t|))
    ensures forall j | |words[cur]| < j < |t| + 1 && InTrie(shape, Suffix(t, j)) ::
      !InTrie(shape, Suffix(t, j) + [a])
  {
  }

  /**
   * When the current node's word is the longest suffix of the text read so
   * far that is in the trie, the keyword lengths ending that word are exactly
   * the lengths of the keywords ending the text.
   */
  lemma ReportedLens(nodes: seq<Node>, words: seq<seq<int>>, keywords: set<seq<int>>, t: seq<int>, cur: nat)
    requires TrieValid(nodes, words, keywords) && cur < |nodes|
    requires words[cur] == Suffix(t, LongestSuffixLen(nodes, t, |t|))
    ensures forall l :: l in SuffixLens(keywords, words[cur]) <==> 1 <= l <= |t| && Suffix(t, l) in keywords
  {
    LongestSuffixIsSuffix(nodes, words, t, cur);
    forall l
      ensures l in SuffixLens(keywords, words[cur]) <==> 1 <= l <= |t| && Suffix(t, l) in keywords
    {
      if l in SuffixLens(keywords, words[cur]) {
        ReportedSound(keywords, t, words[cur], l);
      }
      if 1 <= l <= |t| && Suffix(t, l) in keywords {
        ReportedComplete(nodes, keywords, t, l);
      }
    }
  }

  lemma ReportedSound(keywords: set<seq<int>>, t: seq<int>, w: seq<int>, l: int)
    requires forall k | k in keywords :: k != []
    requires IsSuffix(w, t) && l in SuffixLens(keywords, w)
    ensures 1 <= l <= |t| && Suffix(t, l) in keywords
  {
    var k :| k in keywords && IsSuffix(k, w) && |k| == l;
    assert k != [];
    assert t[|t| - l..] == w[|w| - l..];
  }

  lemma ReportedComplete(nodes: seq<Node>, keywords: set<seq<int>>, t: seq<int>, l: nat)
    requires forall k | k in keywords :: InTrie(nodes, k)
    requires 1 <= l <= |t| && Suffix(t, l) in keywords
    ensures l in SuffixLens(keywords, Suffix(t, LongestSuffixLen(nodes, t, |t|)))
  {
    var k := Suffix(t, l);
    var m := LongestSuffixLen(nodes, t, |t|);
    var w := Suffix(t, m);
    assert l <= m by {
      assert InTrie(nodes, k);
    }
    SuffixIsSuffix(t, m);
    SuffixOfSuffix(t, w, l);
    assert k in keywords && IsSuffix(k, w) && |k| == l;
  }
}
