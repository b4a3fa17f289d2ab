/**
 * The steps of walk, stated on values: after reading the first `i` code
 * points of the text, the current node is the node of the longest suffix of
 * the (folded) text read so far that is in the trie, and its `exist` lists
 * the lengths of the keywords ending at position `i`.
 */
module Scanning {
  import opened Trie
  import opened AhoCorasick
  import opened BreadthFirst
  import opened Linking

  /** Folding the first `i + 1` code points is folding the first `i` and one more. */
  lemma FoldSnoc(caseSensitive: bool, s: seq<int>, i: nat)
    requires i < |s|
    ensures FoldSeq(caseSensitive, s[..i + 1]) == FoldSeq(caseSensitive, s[..i]) + [Fold(caseSensitive, s[i])]
  {
  }

  /** After Build, every node's `exist` is, without duplicates, the set of lengths of keywords ending its word. */
  lemma ExistOf(nodes: seq<Node>, words: seq<seq<int>>, keywords: set<seq<int>>, n: nat)
    requires Linked(nodes, words, keywords) && n < |nodes|
    ensures SetOf(nodes[n].exist) == SuffixLens(keywords, words[n])
    ensures NoDup(nodes[n].exist)
  {
    if n == 0 {
      RootExist(nodes, words, keywords);
    } else {
      assert LinkedAt(nodes, words, keywords, n, nodes[n]);
    }
  }

  /**
   * After Build, a node other than the root has a failure link, to a node
   * whose word is the longest proper suffix of its own in the trie.
   */
  lemma FailureOf(nodes: seq<Node>, words: seq<seq<int>>, keywords: set<seq<int>>, n: nat)
    requires Linked(nodes, words, keywords) && 0 < n < |nodes|
    ensures nodes[n].failure.Some?
    ensures Find(nodes, Suffix(words[n], ProperFailLen(nodes, words[n]))) == Some(nodes[n].failure.value)
  {
    assert LinkedAt(nodes, words, keywords, n, nodes[n]);
  }

  /** After Build, every child of the root has the root as its failure target. */
  lemma RootChildFailure(nodes: seq<Node>, words: seq<seq<int>>, keywords: set<seq<int>>, a: int)
    requires Linked(nodes, words, keywords) && a in nodes[0].children
    ensures nodes[nodes[0].children[a]].failure == Some(0)
  {
    ShapeOkOfValid(nodes, words, keywords);
    var child := nodes[0].children[a];
    assert LinkedAt(nodes, words, keywords, child, nodes[child]);
    FailureFromRoot(nodes, words, a);
  }

  /**
   * After Build, the failure target of a node other than the root stands for
   * a proper suffix of its word, so it is strictly shallower: following
   * failure links always reaches the root.
   */
  lemma FailureShallower(nodes: seq<Node>, words: seq<seq<int>>, keywords: set<seq<int>>, n: nat)
    requires Linked(nodes, words, keywords) && 0 < n < |nodes|
    ensures nodes[n].failure.Some? && nodes[n].failure.value < |nodes|
    ensures IsSuffix(words[nodes[n].failure.value], words[n])
    ensures |words[nodes[n].failure.value]| < |words[n]|
  {
    FailureOf(nodes, words, keywords, n);
    NonRootWord(nodes, words, keywords, n);
    var w := words[n];
    FindWord(nodes, words, Suffix(w, ProperFailLen(nodes, w)));
  }

  /**
   * After Build, a node's `exist` holds, as a set, the length of the keyword
   * ending exactly at it, if any, and everything its failure target's
   * `exist` holds.
   */
  lemma ExistSplit(nodes: seq<Node>, words: seq<seq<int>>, keywords: set<seq<int>>, n: nat)
    requires Linked(nodes, words, keywords) && 0 < n < |nodes|
    ensures nodes[n].failure.Some? && nodes[n].failure.value < |nodes|
    ensures SetOf(nodes[n].exist) == Own(keywords, words[n]) + SetOf(nodes[nodes[n].failure.value].exist)
  {
    FailureShallower(nodes, words, keywords, n);
    FailureOf(nodes, words, keywords, n);
    var w := words[n];
    var f := nodes[n].failure.value;
    FindWord(nodes, words, Suffix(w, ProperFailLen(nodes, w)));
    ExistOf(nodes, words, keywords, n);
    ExistOf(nodes, words, keywords, f);
    SuffixLensSplit(nodes, words, keywords, w);
  }

  /**
   * The move on code point `a` from the node of the longest suffix of `t` in
   * the trie: the failure-chain search stopped at `f` (which has a transition
   * on `a`, or is the root), and taking that transition, if any, gives the
   * node of the longest suffix of `t + [a]` in the trie.
   */
  lemma Advance(nodes: seq<Node>, words: seq<seq<int>>, keywords: set<seq<int>>, t: seq<int>, a: int, f: nat)
    requires TrieValid(nodes, words, keywords)
    requires ChainInv(nodes, words, t, a, |t| + 1, f)
    requires a in nodes[f].children || f == 0
    ensures var g := if a in nodes[f].children then nodes[f].children[a] else 0;
      g < |nodes| && words[g] == Suffix(t + [a], LongestSuffixLen(nodes, t + [a], |t + [a]|))
  {
    ShapeOkOfValid(nodes, words, keywords);
    if a in nodes[f].children {
      AdvanceFound(nodes, words, t, a, f);
    } else {
      AdvanceRoot(nodes, words, t, a);
    }
  }

  lemma AdvanceFound(nodes: seq<Node>, words: seq<seq<int>>, t: seq<int>, a: int, f: nat)
    requires ShapeOk(nodes, words)
    requires ChainInv(nodes, words, t, a, |t| + 1, f) && a in nodes[f].children
    ensures nodes[f].children[a] < |nodes|
    ensures words[nodes[f].children[a]] == Suffix(t + [a], LongestSuffixLen(nodes, t + [a], |t| + 1))
  {
    ChainFound(nodes, words, t, a, |t| + 1, f);
    FindWord(nodes, words, Suffix(t + [a], |words[f]| + 1));
  }

  lemma AdvanceRoot(nodes: seq<Node>, words: seq<seq<int>>, t: seq<int>, a: int)
    requires ShapeOk(nodes, words)
    requires ChainInv(nodes, words, t, a, |t| + 1, 0) && a !in nodes[0].children
    ensures words[0] == Suffix(t + [a], LongestSuffixLen(nodes, t + [a], |t| + 1))
  {
    ChainRoot(nodes, words, t, a, |t| + 1);
  }

  /**
   * At the node of the longest suffix of the folded text read so far in the
   * trie, `exist` holds exactly the lengths of the keywords ending at `i`.
   */
  lemma ReportedAt(nodes: seq<Node>, words: seq<seq<int>>, keywords: set<seq<int>>, caseSensitive: bool, s: seq<int>, i: nat, t: seq<int>, n: nat)
    requires Linked(nodes, words, keywords) && i <= |s|
    requires t == FoldSeq(caseSensitive, s[..i]) && Current(nodes, words, t, n)
    ensures EndingAt(caseSensitive, keywords, s, i, nodes[n].exist)
  {
    ExistOf(nodes, words, keywords, n);
    ReportedLens(nodes, words, keywords, t, n);
    forall l
      ensures l in nodes[n].exist <==> 1 <= l <= i && FoldSeq(caseSensitive, s[i - l..i]) in keywords
    {
      assert l in nodes[n].exist <==> l in SetOf(nodes[n].exist);
      if 1 <= l <= i {
        SuffixFold(caseSensitive, s, i, l);
      }
    }
  }

  /** The last `l` folded code points of the first `i` are the folded slice ending at `i`. */
  lemma SuffixFold(caseSensitive: bool, s: seq<int>, i: nat, l: nat)
    requires 1 <= l <= i <= |s|
    ensures Suffix(FoldSeq(caseSensitive, s[..i]), l) == FoldSeq(caseSensitive, s[i - l..i])
  {
    FoldSlice(caseSensitive, s[..i], i - l, i);
    assert s[..i][i - l..i] == s[i - l..i];
  }

  /** The (folded) keyword occurs in the text from code point `s` up to, not including, `e`. */
  ghost predicate Occurs(caseSensitive: bool, keywords: set<seq<int>>, sentence: seq<int>, s: int, e: int) {
    0 <= s < e <= |sentence| && FoldSeq(caseSensitive, sentence[s..e]) in keywords
  }

  /** The spans of the text that hold a keyword, each once. */
  ghost function Occurrences(caseSensitive: bool, keywords: set<seq<int>>, sentence: seq<int>): set<(int, int)> {
    set s: int, e: int | 0 <= s < e <= |sentence| && FoldSeq(caseSensitive, sentence[s..e]) in keywords :: (s, e)
  }

  /** Reported pairs come in order of their end, and none twice. */
  predicate Ordered(r: seq<(int, int)>) {
    forall k1, k2 | 0 <= k1 < k2 < |r| :: r[k1].1 <= r[k2].1 && r[k1] != r[k2]
  }

  /** `reported` holds, in order and once each, exactly the occurrences that end within the first `i` code points. */
  ghost predicate Found(caseSensitive: bool, keywords: set<seq<int>>, sentence: seq<int>, i: nat, reported: seq<(int, int)>) {
    && (forall p | p in reported :: Occurs(caseSensitive, keywords, sentence, p.0, p.1) && p.1 <= i)
    && (forall s, e | Occurs(caseSensitive, keywords, sentence, s, e) && e <= i :: (s, e) in reported)
    && Ordered(reported)
  }

  /** The pairs walk reports at end `e` for the lengths `ls`, in their order. */
  function Pairs(ls: seq<int>, e: int): (r: seq<(int, int)>)
    ensures |r| == |ls|
    ensures forall k | 0 <= k < |ls| :: r[k] == (e - ls[k], e)
  {
    seq(|ls|, k requires 0 <= k < |ls| => (e - ls[k], e))
  }

  /** Appending the pair for one more length to the reported pairs. */
  lemma PairsSnoc(before: seq<(int, int)>, ls: seq<int>, j: nat, e: int)
    requires j < |ls|
    ensures before + Pairs(ls[..j + 1], e) == (before + Pairs(ls[..j], e)) + [(e - ls[j], e)]
  {
    assert Pairs(ls[..j + 1], e) == Pairs(ls[..j], e) + [(e - ls[j], e)];
  }

  /** `node` is the node of the longest suffix of the folded text `t` read so far that is in the trie. */
  ghost predicate Current(nodes: seq<Node>, words: seq<seq<int>>, t: seq<int>, node: nat) {
    node < |nodes| && node < |words| && words[node] == Suffix(t, LongestSuffixLen(nodes, t, |t|))
  }

  /** Before any text is read, the current node is the root. */
  lemma CurrentInit(nodes: seq<Node>, words: seq<seq<int>>, keywords: set<seq<int>>)
    requires Linked(nodes, words, keywords)
    ensures Current(nodes, words, [], 0)
  {
    assert Suffix([], 0) == [];
  }

  lemma FoundInit(caseSensitive: bool, keywords: set<seq<int>>, sentence: seq<int>)
    ensures Found(caseSensitive, keywords, sentence, 0, [])
  {
  }

  /** One fallback of walk's search: a non-root node without the transition is left for its failure target, which is shallower. */
  lemma WalkFall(nodes: seq<Node>, words: seq<seq<int>>, keywords: set<seq<int>>, t: seq<int>, a: int, node: nat)
    requires Linked(nodes, words, keywords) && 0 < node < |nodes|
    requires ChainInv(nodes, words, t, a, |t| + 1, node) && a !in nodes[node].children
    ensures nodes[node].failure.Some? && nodes[node].failure.value < |nodes|
    ensures ChainInv(nodes, words, t, a, |t| + 1, nodes[node].failure.value)
    ensures |words[nodes[node].failure.value]| < |words[node]|
  {
    FailureOf(nodes, words, keywords, node);
    ShapeOkOfValid(nodes, words, keywords);
    ChainStep(nodes, words, t, a, |t| + 1, node, nodes[node].failure.value);
  }

  /** `ls` lists, each once, exactly the lengths of the keywords that end within the text at code point `i`. */
  ghost predicate EndingAt(caseSensitive: bool, keywords: set<seq<int>>, sentence: seq<int>, i: nat, ls: seq<int>) {
    && i <= |sentence| && NoDup(ls)
    && forall l :: l in ls <==> 1 <= l <= i && FoldSeq(caseSensitive, sentence[i - l..i]) in keywords
  }

  /** Reporting every length listed for the next position completes the occurrences ending there. */
  lemma ReportAll(caseSensitive: bool, keywords: set<seq<int>>, sentence: seq<int>, i: nat, exist: seq<int>, before: seq<(int, int)>)
    requires i < |sentence| && EndingAt(caseSensitive, keywords, sentence, i + 1, exist)
    requires Found(caseSensitive, keywords, sentence, i, before)
    ensures Found(caseSensitive, keywords, sentence, i + 1, before + Pairs(exist, i + 1))
  {
    var r := before + Pairs(exist, i + 1);
    ReportPrefix(caseSensitive, keywords, sentence, i, exist, before, |exist|);
    assert exist[..|exist|] == exist;
    forall s, e | Occurs(caseSensitive, keywords, sentence, s, e) && e <= i + 1
      ensures (s, e) in r
    {
      if e == i + 1 {
        var l := e - s;
        assert l in exist;
        var k :| 0 <= k < |exist| && exist[k] == l;
        assert r[|before| + k] == (s, e);
      }
    }
  }

  /**
   * Reporting the first `j` lengths listed for the next position keeps the
   * reported pairs sound and ordered, each once.
   */
  lemma ReportPrefix(caseSensitive: bool, keywords: set<seq<int>>, sentence: seq<int>, i: nat, exist: seq<int>, before: seq<(int, int)>, j: nat)
    requires i < |sentence| && EndingAt(caseSensitive, keywords, sentence, i + 1, exist)
    requires Found(caseSensitive, keywords, sentence, i, before) && j <= |exist|
    ensures var r := before + Pairs(exist[..j], i + 1);
      && (forall p | p in r :: Occurs(caseSensitive, keywords, sentence, p.0, p.1) && p.1 <= i + 1)
      && Ordered(r)
  {
    var ps := Pairs(exist[..j], i + 1);
    var r := before + ps;
    forall p | p in r
      ensures Occurs(caseSensitive, keywords, sentence, p.0, p.1) && p.1 <= i + 1
    {
      if p !in before {
        var k :| 0 <= k < |ps| && ps[k] == p;
        assert exist[k] in exist;
      }
    }
    forall k1, k2 | 0 <= k1 < k2 < |r|
      ensures r[k1].1 <= r[k2].1 && r[k1] != r[k2]
    {
      if k2 >= |before| {
        assert r[k2] == ps[k2 - |before|];
        if k1 >= |before| {
          assert r[k1] == ps[k1 - |before|];
          assert exist[k1 - |before|] != exist[k2 - |before|];
        } else {
          assert r[k1] in before;
        }
      }
    }
  }

  /**
   * What walk promises: every reported pair is an occurrence, in order and
   * once each; every report but the last was accepted; and every occurrence
   * is reported, or, when the last report was refused, every occurrence
   * ending before it.
   */
  ghost predicate Walked(caseSensitive: bool, keywords: set<seq<int>>, sentence: seq<int>, wf: (int, int) -> bool, reported: seq<(int, int)>) {
    && (forall p | p in reported :: Occurs(caseSensitive, keywords, sentence, p.0, p.1))
    && Ordered(reported)
    && (forall k | 0 <= k < |reported| - 1 :: wf(reported[k].0, reported[k].1))
    && (|reported| == 0 || wf(reported[|reported| - 1].0, reported[|reported| - 1].1) ==>
         forall s, e | Occurs(caseSensitive, keywords, sentence, s, e) :: (s, e) in reported)
    && (|reported| > 0 && !wf(reported[|reported| - 1].0, reported[|reported| - 1].1) ==>
         forall s, e | Occurs(caseSensitive, keywords, sentence, s, e) && e < reported[|reported| - 1].1 :: (s, e) in reported)
  }

  /** A scan that reads the whole text reports every occurrence. */
  lemma WalkEnd(caseSensitive: bool, keywords: set<seq<int>>, sentence: seq<int>, wf: (int, int) -> bool, reported: seq<(int, int)>)
    requires Found(caseSensitive, keywords, sentence, |sentence|, reported)
    requires forall k | 0 <= k < |reported| :: wf(reported[k].0, reported[k].1)
    ensures Walked(caseSensitive, keywords, sentence, wf, reported)
  {
  }

  /** A list of pairs without repeats has as many pairs as its set. */
  lemma {:induction false} DistinctCard(r: seq<(int, int)>)
    requires forall k1, k2 | 0 <= k1 < k2 < |r| :: r[k1] != r[k2]
    ensures |set p | p in r| == |r|
  {
    if r != [] {
      var init := r[..|r| - 1];
      DistinctCard(init);
      assert (set p | p in r) == (set p | p in init) + {r[|r| - 1]};
    }
  }

  /**
   * Pairs that are occurrences, each once, and include every occurrence are
   * as many as the occurrences.
   */
  lemma SpansCount(caseSensitive: bool, keywords: set<seq<int>>, sentence: seq<int>, reported: seq<(int, int)>)
    requires forall p | p in reported :: Occurs(caseSensitive, keywords, sentence, p.0, p.1)
    requires Ordered(reported)
    requires forall s, e | Occurs(caseSensitive, keywords, sentence, s, e) :: (s, e) in reported
    ensures |reported| == |Occurrences(caseSensitive, keywords, sentence)|
  {
    DistinctCard(reported);
    assert (set p | p in reported) == Occurrences(caseSensitive, keywords, sentence);
  }
}
