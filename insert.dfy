/**
 * What one keyword insertion does to the arena, stated on values: a missing
 * transition is added as a fresh node at the end of the arena, and the
 * keyword's length is appended to the `exist` of the node its path ends at.
 * Both steps keep TrieValid and only ever add to the trie.
 */
module Insertion {
  import opened Trie
  import opened AhoCorasick

  /**
   * `b` extends `a`: no node is lost, no transition is removed or redirected,
   * and no failure link changes.
   */
  ghost predicate Extends(a: seq<Node>, b: seq<Node>) {
    && |a| <= |b|
    && (forall n, c | 0 <= n < |a| && c in a[n].children ::
          c in b[n].children && b[n].children[c] == a[n].children[c])
    && (forall n | 0 <= n < |a| :: b[n].failure == a[n].failure)
  }

  lemma ExtendsRefl(a: seq<Node>)
    ensures Extends(a, a)
  {
  }

  lemma ExtendsTrans(a: seq<Node>, b: seq<Node>, c: seq<Node>)
    requires Extends(a, b) && Extends(b, c)
    ensures Extends(a, c)
  {
  }

  /** The arena after the transition on `c` out of node `p` is added, leading to a fresh node at the end. */
  function WithChild(nodes: seq<Node>, p: nat, c: int): (r: seq<Node>)
    requires p < |nodes|
    ensures |r| == |nodes| + 1 && r[|nodes|] == NewNode()
    ensures r[p].children == nodes[p].children[c := |nodes|]
    ensures r[p].exist == nodes[p].exist && r[p].failure == nodes[p].failure
    ensures forall n | 0 <= n < |nodes| && n != p :: r[n] == nodes[n]
  {
    nodes[p := nodes[p].(children := nodes[p].children[c := |nodes|])] + [NewNode()]
  }

  /** The arena after `l` is appended to the `exist` of node `e`. */
  function WithLength(nodes: seq<Node>, e: nat, l: int): (r: seq<Node>)
    requires e < |nodes|
    ensures |r| == |nodes|
    ensures r[e].exist == nodes[e].exist + [l]
    ensures r[e].children == nodes[e].children && r[e].failure == nodes[e].failure
    ensures forall n | 0 <= n < |nodes| && n != e :: r[n] == nodes[n]
  {
    nodes[e := nodes[e].(exist := nodes[e].exist + [l])]
  }

  /** A transition leads to a node whose word is one code point longer. */
  lemma ChildWord(nodes: seq<Node>, words: seq<seq<int>>, keywords: set<seq<int>>, p: nat, c: int)
    requires TrieValid(nodes, words, keywords) && p < |nodes| && c in nodes[p].children
    ensures nodes[p].children[c] < |nodes| && words[nodes[p].children[c]] == words[p] + [c]
  {
  }

  /** A path of `a` is a path of every extension of `a`, to the same node. */
  lemma {:induction false} FindExtends(a: seq<Node>, b: seq<Node>, s: seq<int>)
    requires Extends(a, b)
    requires Find(a, s).Some? && Find(a, s).value < |a|
    ensures Find(b, s) == Find(a, s)
    decreases |s|
  {
    if |s| > 0 {
      var t := s[..|s| - 1];
      var c := s[|s| - 1];
      assert s == t + [c];
      FindSnoc(a, t, c);
      FindSnoc(b, t, c);
      FindExtends(a, b, t);
    }
  }

  /**
   * Adding a transition that was missing keeps TrieValid, with the new node
   * labelled by its parent's word and the code point, and only extends the arena.
   */
  lemma WithChildValid(nodes: seq<Node>, words: seq<seq<int>>, keywords: set<seq<int>>, p: nat, c: int)
    requires TrieValid(nodes, words, keywords) && p < |nodes| && c !in nodes[p].children
    ensures TrieValid(WithChild(nodes, p, c), words + [words[p] + [c]], keywords)
    ensures Extends(nodes, WithChild(nodes, p, c))
  {
    var r := WithChild(nodes, p, c);
    var ws := words + [words[p] + [c]];
    WithChildShape(nodes, words, keywords, p, c);
    WithChildFind(nodes, words, keywords, p, c);
    WithChildExist(nodes, words, keywords, p, c);
  }

  lemma WithChildShape(nodes: seq<Node>, words: seq<seq<int>>, keywords: set<seq<int>>, p: nat, c: int)
    requires TrieValid(nodes, words, keywords) && p < |nodes| && c !in nodes[p].children
    ensures Extends(nodes, WithChild(nodes, p, c))
    ensures ChildrenOk(WithChild(nodes, p, c), words + [words[p] + [c]])
    ensures forall n | 0 <= n < |nodes| + 1 && WithChild(nodes, p, c)[n].failure.Some? ::
      WithChild(nodes, p, c)[n].failure.value < |nodes| + 1
  {
    var r := WithChild(nodes, p, c);
    var ws := words + [words[p] + [c]];
    forall n, a | 0 <= n < |r| && a in r[n].children
      ensures 0 < r[n].children[a] < |r| && ws[r[n].children[a]] == ws[n] + [a]
    {
      assert n < |nodes|;
      if n != p || a != c {
        assert a in nodes[n].children && r[n].children[a] == nodes[n].children[a];
        assert ws[nodes[n].children[a]] == words[nodes[n].children[a]];
      }
    }
  }

  lemma WithChildFind(nodes: seq<Node>, words: seq<seq<int>>, keywords: set<seq<int>>, p: nat, c: int)
    requires TrieValid(nodes, words, keywords) && p < |nodes| && c !in nodes[p].children
    ensures forall n | 0 <= n < |nodes| + 1 :: Find(WithChild(nodes, p, c), (words + [words[p] + [c]])[n]) == Some(n)
    ensures forall k | k in keywords :: InTrie(WithChild(nodes, p, c), k)
  {
    var r := WithChild(nodes, p, c);
    WithChildShape(nodes, words, keywords, p, c);
    forall n | 0 <= n < |r|
      ensures Find(r, (words + [words[p] + [c]])[n]) == Some(n)
    {
      WithChildFindOne(nodes, words, keywords, p, c, r, n);
    }
    forall k | k in keywords
      ensures InTrie(r, k)
    {
      FindWord(nodes, words, k);
      FindExtends(nodes, r, k);
    }
  }

  lemma WithChildFindOne(nodes: seq<Node>, words: seq<seq<int>>, keywords: set<seq<int>>, p: nat, c: int, r: seq<Node>, n: nat)
    requires TrieValid(nodes, words, keywords) && p < |nodes| && c !in nodes[p].children
    requires r == WithChild(nodes, p, c) && Extends(nodes, r) && n <= |nodes|
    ensures Find(r, (words + [words[p] + [c]])[n]) == Some(n)
  {
    if n < |nodes| {
      assert (words + [words[p] + [c]])[n] == words[n];
      assert Find(nodes, words[n]) == Some(n);
      FindExtends(nodes, r, words[n]);
    } else {
      assert Find(nodes, words[p]) == Some(p);
      FindExtends(nodes, r, words[p]);
      FindSnoc(r, words[p], c);
    }
  }

  lemma WithChildExist(nodes: seq<Node>, words: seq<seq<int>>, keywords: set<seq<int>>, p: nat, c: int)
    requires TrieValid(nodes, words, keywords) && p < |nodes| && c !in nodes[p].children
    ensures forall n | 0 <= n < |nodes| + 1 ::
      Own(keywords, (words + [words[p] + [c]])[n]) <= SetOf(WithChild(nodes, p, c)[n].exist)
        <= SuffixLens(keywords, (words + [words[p] + [c]])[n])
  {
    var r := WithChild(nodes, p, c);
    var ws := words + [words[p] + [c]];
    var w := words[p] + [c];
    assert w !in keywords by {
      if w in keywords {
        assert Find(nodes, words[p]) == Some(p);
        FindSnoc(nodes, words[p], c);
      }
    }
    forall n | 0 <= n < |r|
      ensures Own(keywords, ws[n]) <= SetOf(r[n].exist) <= SuffixLens(keywords, ws[n])
    {
      if n == |nodes| {
        assert Own(keywords, ws[n]) == {};
        SetOfEmpty(r[n].exist);
      } else {
        assert ws[n] == words[n];
      }
    }
  }

  /**
   * Recording the new keyword `k` at the node `e` its path ends at keeps
   * TrieValid for the enlarged set of keywords.
   */
  lemma WithLengthValid(nodes: seq<Node>, words: seq<seq<int>>, keywords: set<seq<int>>, e: nat, k: seq<int>)
    requires TrieValid(nodes, words, keywords) && e < |nodes| && words[e] == k && k != []
    ensures TrieValid(WithLength(nodes, e, |k|), words, keywords + {k})
    ensures Extends(nodes, WithLength(nodes, e, |k|))
  {
    var r := WithLength(nodes, e, |k|);
    assert ChildrenOk(r, words);
    WithLengthExist(nodes, words, keywords, e, k);
    WithLengthFind(nodes, words, keywords, e, k);
  }

  lemma WithLengthFind(nodes: seq<Node>, words: seq<seq<int>>, keywords: set<seq<int>>, e: nat, k: seq<int>)
    requires TrieValid(nodes, words, keywords) && e < |nodes| && words[e] == k && k != []
    ensures Extends(nodes, WithLength(nodes, e, |k|))
    ensures forall n | 0 <= n < |nodes| :: Find(WithLength(nodes, e, |k|), words[n]) == Some(n)
    ensures forall q | q in keywords + {k} :: InTrie(WithLength(nodes, e, |k|), q)
  {
    var r := WithLength(nodes, e, |k|);
    assert Extends(nodes, r);
    forall n | 0 <= n < |r|
      ensures Find(r, words[n]) == Some(n)
    {
      assert Find(nodes, words[n]) == Some(n);
      FindExtends(nodes, r, words[n]);
    }
    forall q | q in keywords + {k}
      ensures InTrie(r, q)
    {
      if q == k {
        assert Find(nodes, words[e]) == Some(e);
      }
      FindWord(nodes, words, q);
      FindExtends(nodes, r, q);
    }
  }

  lemma WithLengthExist(nodes: seq<Node>, words: seq<seq<int>>, keywords: set<seq<int>>, e: nat, k: seq<int>)
    requires TrieValid(nodes, words, keywords) && e < |nodes| && words[e] == k && k != []
    ensures forall n | 0 <= n < |nodes| ::
      Own(keywords + {k}, words[n]) <= SetOf(WithLength(nodes, e, |k|)[n].exist) <= SuffixLens(keywords + {k}, words[n])
  {
    var r := WithLength(nodes, e, |k|);
    var ks := keywords + {k};
    forall n | 0 <= n < |r|
      ensures Own(ks, words[n]) <= SetOf(r[n].exist) <= SuffixLens(ks, words[n])
    {
      assert SuffixLens(keywords, words[n]) <= SuffixLens(ks, words[n]);
      if n == e {
        assert IsSuffix(k, k);
        assert |k| in SuffixLens(ks, k);
        assert SetOf(r[n].exist) == SetOf(nodes[n].exist) + {|k|};
      } else {
        assert words[n] != k by {
          assert Find(nodes, words[n]) == Some(n);
          assert Find(nodes, words[e]) == Some(e);
        }
      }
    }
  }

  /**
   * The state of the path walk of one insertion: `node` is reached by the
   * first `i` code points of the folded keyword `k` in the arena `trie`, which
   * is still a valid trie and extends the arena `base` the insertion started from.
   */
  ghost predicate OnPath(base: seq<Node>, baseWords: seq<seq<int>>, trie: seq<Node>, labels: seq<seq<int>>,
                         keywords: set<seq<int>>, k: seq<int>, i: nat, node: nat) {
    && TrieValid(trie, labels, keywords) && node < |trie| && i <= |k| && labels[node] == k[..i]
    && Extends(base, trie) && baseWords <= labels
  }

  lemma OnPathInit(base: seq<Node>, baseWords: seq<seq<int>>, keywords: set<seq<int>>, k: seq<int>)
    requires TrieValid(base, baseWords, keywords)
    ensures OnPath(base, baseWords, base, baseWords, keywords, k, 0, 0)
  {
    ExtendsRefl(base);
  }

  /** Adding the missing transition on the next code point keeps the walk on its path. */
  lemma OnPathGrow(base: seq<Node>, baseWords: seq<seq<int>>, trie: seq<Node>, labels: seq<seq<int>>,
                   keywords: set<seq<int>>, k: seq<int>, i: nat, node: nat)
    requires OnPath(base, baseWords, trie, labels, keywords, k, i, node) && i < |k|
    requires k[i] !in trie[node].children
    ensures OnPath(base, baseWords, WithChild(trie, node, k[i]), labels + [labels[node] + [k[i]]], keywords, k, i, node)
    ensures k[i] in WithChild(trie, node, k[i])[node].children
  {
    WithChildValid(trie, labels, keywords, node, k[i]);
    ExtendsTrans(base, trie, WithChild(trie, node, k[i]));
  }

  /** Taking the transition on the next code point advances the walk by one. */
  lemma OnPathDescend(base: seq<Node>, baseWords: seq<seq<int>>, trie: seq<Node>, labels: seq<seq<int>>,
                      keywords: set<seq<int>>, k: seq<int>, i: nat, node: nat)
    requires OnPath(base, baseWords, trie, labels, keywords, k, i, node) && i < |k|
    requires k[i] in trie[node].children
    ensures OnPath(base, baseWords, trie, labels, keywords, k, i + 1, trie[node].children[k[i]])
  {
    ChildWord(trie, labels, keywords, node, k[i]);
    TakeSnoc(k, i);
  }

  /** At the end of the path, recording the keyword's length gives the trie of one more keyword. */
  lemma OnPathEnd(base: seq<Node>, baseWords: seq<seq<int>>, trie: seq<Node>, labels: seq<seq<int>>,
                  keywords: set<seq<int>>, k: seq<int>, node: nat)
    requires OnPath(base, baseWords, trie, labels, keywords, k, |k|, node) && k != []
    ensures TrieValid(WithLength(trie, node, |k|), labels, keywords + {k})
    ensures Extends(base, WithLength(trie, node, |k|)) && baseWords <= labels
  {
    TakeAll(k);
    WithLengthValid(trie, labels, keywords, node, k);
    ExtendsTrans(base, trie, WithLength(trie, node, |k|));
  }

  /**
   * In a valid trie every inserted keyword is a path from the root, and the
   * node it leads to records the keyword's length.
   */
  lemma KeywordEnd(nodes: seq<Node>, words: seq<seq<int>>, keywords: set<seq<int>>, k: seq<int>)
    requires TrieValid(nodes, words, keywords) && k in keywords
    ensures Find(nodes, k).Some? && Find(nodes, k).value < |nodes|
    ensures |k| in nodes[Find(nodes, k).value].exist
  {
    FindWord(nodes, words, k);
    var v := Find(nodes, k).value;
    assert |k| in Own(keywords, words[v]);
    assert |k| in SetOf(nodes[v].exist);
  }

  /**
   * The frame of the path walk: the nodes it found keep their `exist`, and the
   * nodes it added have none and lie on the path of `k`.
   */
  ghost predicate PathFrame(base: seq<Node>, trie: seq<Node>, labels: seq<seq<int>>, k: seq<int>) {
    && |base| <= |trie| == |labels|
    && (forall n | 0 <= n < |base| :: trie[n].exist == base[n].exist)
    && (forall n | |base| <= n < |trie| :: trie[n].exist == [] && labels[n] <= k)
  }

  /** Adding the transition on `k[i]` at the node of `k[..i]` keeps the frame. */
  lemma PathFrameGrow(base: seq<Node>, trie: seq<Node>, labels: seq<seq<int>>, k: seq<int>, i: nat, node: nat)
    requires PathFrame(base, trie, labels, k) && node < |trie| && i < |k| && labels[node] == k[..i]
    ensures PathFrame(base, WithChild(trie, node, k[i]), labels + [labels[node] + [k[i]]], k)
  {
    assert k[..i] + [k[i]] == k[..i + 1];
  }

  /**
   * `nodes` is `base` with the keyword `k` inserted, ending at node `e`: the
   * word of `e` is `k` and its `exist` gained exactly `|k|`; no other node's
   * `exist` changed, and every added node lies on the path of `k`, with an
   * empty `exist` unless it is `e`.
   */
  ghost predicate Inserted(base: seq<Node>, nodes: seq<Node>, words: seq<seq<int>>, k: seq<int>, e: nat) {
    && |base| <= |nodes| <= |words| && e < |nodes|
    && words[e] == k
    && nodes[e].exist == (if e < |base| then base[e].exist else []) + [|k|]
    && (forall n | 0 <= n < |base| && n != e :: nodes[n].exist == base[n].exist)
    && (forall n | |base| <= n < |nodes| :: words[n] <= k && (n != e ==> nodes[n].exist == []))
  }

  /** Recording the length at the end of the path completes the insertion of `k`. */
  lemma InsertedEnd(base: seq<Node>, trie: seq<Node>, labels: seq<seq<int>>, k: seq<int>, node: nat)
    requires PathFrame(base, trie, labels, k) && node < |trie| && labels[node] == k[..|k|]
    ensures Inserted(base, WithLength(trie, node, |k|), labels, k, node)
  {
    TakeAll(k);
  }

  /** The number of entries of `exist` that node `n` of `base` already had. */
  function Kept(base: seq<Node>, n: nat): nat {
    if n < |base| then |base[n].exist| else 0
  }

  /** `w` is a prefix of one of `added`. */
  ghost predicate PrefixOfSome(w: seq<int>, added: set<seq<int>>) {
    exists k | k in added :: w <= k
  }

  /**
   * `nodes` grew from `base` by inserting the keywords `added`: the `exist` of
   * every old node only had entries appended, every new node lies on the path
   * of an added keyword, and every appended entry is the length of its node's
   * word, which is an added keyword.
   */
  ghost predicate Grown(base: seq<Node>, nodes: seq<Node>, words: seq<seq<int>>, added: set<seq<int>>) {
    && |base| <= |nodes| <= |words|
    && (forall n | 0 <= n < |base| :: base[n].exist <= nodes[n].exist)
    && (forall n | |base| <= n < |nodes| :: PrefixOfSome(words[n], added))
    && (forall n, j | 0 <= n < |nodes| && Kept(base, n) <= j < |nodes[n].exist| ::
          nodes[n].exist[j] == |words[n]| && words[n] in added)
  }

  lemma GrownRefl(base: seq<Node>, words: seq<seq<int>>)
    requires |base| <= |words|
    ensures Grown(base, base, words, {})
  {
  }

  /** One insertion of `k` grows the arena by `k`. */
  lemma InsertedGrown(base: seq<Node>, nodes: seq<Node>, words: seq<seq<int>>, k: seq<int>, e: nat)
    requires Inserted(base, nodes, words, k, e)
    ensures Grown(base, nodes, words, {k})
  {
    forall n | |base| <= n < |nodes|
      ensures PrefixOfSome(words[n], {k})
    {
      assert k in {k};
    }
  }

  /** Two growths in a row are one growth by both sets of keywords. */
  lemma GrownTrans(a: seq<Node>, b: seq<Node>, c: seq<Node>, w1: seq<seq<int>>, w2: seq<seq<int>>, A: set<seq<int>>, B: set<seq<int>>)
    requires Grown(a, b, w1, A) && Grown(b, c, w2, B) && w1 <= w2
    ensures Grown(a, c, w2, A + B)
  {
    forall n | 0 <= n < |a|
      ensures a[n].exist <= c[n].exist
    {
      assert a[n].exist == b[n].exist[..|a[n].exist|];
      assert b[n].exist == c[n].exist[..|b[n].exist|];
    }
    forall n | |a| <= n < |c|
      ensures PrefixOfSome(w2[n], A + B)
    {
      if n < |b| {
        assert PrefixOfSome(w1[n], A);
        var k :| k in A && w1[n] <= k;
        assert w2[n] == w1[n] && k in A + B;
      } else {
        assert PrefixOfSome(w2[n], B);
        var k :| k in B && w2[n] <= k;
        assert k in A + B;
      }
    }
    forall n, j | 0 <= n < |c| && Kept(a, n) <= j < |c[n].exist|
      ensures c[n].exist[j] == |w2[n]| && w2[n] in A + B
    {
      if j < Kept(b, n) {
        assert b[n].exist <= c[n].exist;
        assert c[n].exist[j] == b[n].exist[j];
        assert w2[n] == w1[n];
      }
    }
  }

  /** Everything recording the length at the end of the path achieves, in one place. */
  lemma InsertDone(base: seq<Node>, baseWords: seq<seq<int>>, trie: seq<Node>, labels: seq<seq<int>>,
                   keywords: set<seq<int>>, k: seq<int>, node: nat)
    requires OnPath(base, baseWords, trie, labels, keywords, k, |k|, node) && k != []
    requires PathFrame(base, trie, labels, k)
    ensures TrieValid(WithLength(trie, node, |k|), labels, keywords + {k})
    ensures Extends(base, WithLength(trie, node, |k|)) && baseWords <= labels
    ensures Inserted(base, WithLength(trie, node, |k|), labels, k, node)
    ensures Grown(base, WithLength(trie, node, |k|), labels, {k})
  {
    OnPathEnd(base, baseWords, trie, labels, keywords, k, node);
    InsertedEnd(base, trie, labels, k, node);
    InsertedGrown(base, WithLength(trie, node, |k|), labels, k, node);
  }

  /** A node new to the arena spells a word that was no keyword before: every old keyword is the word of an old node. */
  lemma NewWordUnseen(before: seq<Node>, beforeWords: seq<seq<int>>, beforeKeywords: set<seq<int>>,
                      after: seq<Node>, afterWords: seq<seq<int>>, afterKeywords: set<seq<int>>, n: nat)
    requires TrieValid(before, beforeWords, beforeKeywords) && TrieValid(after, afterWords, afterKeywords)
    requires beforeWords <= afterWords && |before| <= n < |after|
    ensures afterWords[n] !in beforeKeywords
  {
    var w := afterWords[n];
    forall m | 0 <= m < |before|
      ensures beforeWords[m] != w
    {
      assert afterWords[m] == beforeWords[m];
    }
    if InTrie(before, w) {
      FindWord(before, beforeWords, w);
    }
  }

  /** No two nodes spell the same word. */
  ghost predicate WordsApart(words: seq<seq<int>>) {
    forall m, n | 0 <= m < n < |words| :: words[m] != words[n]
  }

  /** In a valid trie each word leads back to its own node, so no two nodes share a word. */
  lemma WordsApartOfValid(nodes: seq<Node>, words: seq<seq<int>>, keywords: set<seq<int>>)
    requires TrieValid(nodes, words, keywords)
    ensures WordsApart(words)
  {
    forall m, n | 0 <= m < n < |words|
      ensures words[m] != words[n]
    {
      assert Find(nodes, words[m]) == Some(m) && Find(nodes, words[n]) == Some(n);
    }
  }
}
