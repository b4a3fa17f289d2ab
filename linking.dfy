/**
 * The steps of Build, stated on values. `shape` is the arena Build starts
 * from (it only ever rewrites `failure` and `exist`, so the transitions stay
 * those of `shape`); `done` is the set of nodes already given their failure
 * link, as in BreadthFirst.
 */
module Linking {
  import opened Trie
  import opened AhoCorasick
  import opened BreadthFirst

  /**
   * Build's progress: the transitions are those of `shape` and the root is
   * untouched; every done node but the root is linked; every other node still
   * has the `exist` it started with.
   */
  ghost predicate Progress(shape: seq<Node>, words: seq<seq<int>>, keywords: set<seq<int>>, nodes: seq<Node>, done: set<nat>) {
    && TrieValid(shape, words, keywords)
    && SameShape(shape, nodes) && nodes[0] == shape[0]
    && (forall n | n in done && 0 < n < |shape| :: LinkedAt(shape, words, keywords, n, nodes[n]))
    && (forall n | 0 <= n < |shape| && n !in done :: nodes[n].exist == shape[n].exist)
  }

  lemma ProgressInit(shape: seq<Node>, words: seq<seq<int>>, keywords: set<seq<int>>)
    requires TrieValid(shape, words, keywords)
    ensures Progress(shape, words, keywords, shape, {0})
  {
  }

  /** A linked node other than the root has a failure link, to the node of the longest proper suffix of its word. */
  lemma LinkOf(shape: seq<Node>, words: seq<seq<int>>, keywords: set<seq<int>>, nodes: seq<Node>, done: set<nat>, f: nat)
    requires Progress(shape, words, keywords, nodes, done) && f in done && 0 < f < |shape|
    ensures nodes[f].failure.Some?
    ensures Find(shape, Suffix(words[f], ProperFailLen(shape, words[f]))) == Some(nodes[f].failure.value)
  {
    assert LinkedAt(shape, words, keywords, f, nodes[f]);
  }

  /**
   * Where the failure-chain search of Build ends decides the new node's
   * failure target: the transition on `a` out of the node `f` it stopped at,
   * or the root when it ran off the root (or started there).
   */
  lemma ChildFailure(shape: seq<Node>, words: seq<seq<int>>, keywords: set<seq<int>>, cur: nat, a: int, fa: Option<nat>)
    requires TrieValid(shape, words, keywords) && cur < |shape| && a in shape[cur].children
    requires fa.Some? ==> ChainInv(shape, words, words[cur], a, |words[cur]|, fa.value) && a in shape[fa.value].children
    requires fa.None? ==> cur == 0 || (ChainInv(shape, words, words[cur], a, |words[cur]|, 0) && a !in shape[0].children)
    ensures var child := shape[cur].children[a];
      var fail := if fa.Some? then shape[fa.value].children[a] else 0;
      && fail < |shape|
      && Find(shape, Suffix(words[child], ProperFailLen(shape, words[child]))) == Some(fail)
  {
    ShapeOkOfValid(shape, words, keywords);
    var child := shape[cur].children[a];
    assert words[child] == words[cur] + [a];
    if fa.Some? {
      FailureFound(shape, words, cur, a, fa.value);
    } else if cur == 0 {
      FailureFromRoot(shape, words, a);
    } else {
      FailureToRoot(shape, words, cur, a);
    }
  }

  lemma FailureFound(shape: seq<Node>, words: seq<seq<int>>, cur: nat, a: int, f: nat)
    requires ShapeOk(shape, words) && cur < |shape| && a in shape[cur].children
    requires ChainInv(shape, words, words[cur], a, |words[cur]|, f) && a in shape[f].children
    ensures var w := words[cur] + [a];
      Find(shape, Suffix(w, ProperFailLen(shape, w))) == Some(shape[f].children[a])
  {
    ChainFound(shape, words, words[cur], a, |words[cur]|, f);
  }

  lemma FailureFromRoot(shape: seq<Node>, words: seq<seq<int>>, a: int)
    requires ShapeOk(shape, words) && a in shape[0].children
    ensures var w := words[0] + [a];
      Find(shape, Suffix(w, ProperFailLen(shape, w))) == Some(0)
  {
    var w := words[0] + [a];
    assert |w| == 1 && ProperFailLen(shape, w) == 0;
    assert Suffix(w, 0) == [];
  }

  lemma FailureToRoot(shape: seq<Node>, words: seq<seq<int>>, cur: nat, a: int)
    requires ShapeOk(shape, words) && cur < |shape|
    requires ChainInv(shape, words, words[cur], a, |words[cur]|, 0) && a !in shape[0].children
    ensures var w := words[cur] + [a];
      Find(shape, Suffix(w, ProperFailLen(shape, w))) == Some(0)
  {
    var w := words[cur] + [a];
    ChainRoot(shape, words, words[cur], a, |words[cur]|);
    assert ProperFailLen(shape, w) == 0;
    assert Suffix(w, 0) == [];
  }

  /**
   * The `exist` of the new node's record followed by the (final) `exist` of
   * its failure target holds, as a set, exactly the lengths of the keywords
   * ending the new node's word.
   */
  lemma ChildExist(shape: seq<Node>, words: seq<seq<int>>, keywords: set<seq<int>>, nodes: seq<Node>, done: set<nat>, child: nat, fail: nat)
    requires Progress(shape, words, keywords, nodes, done)
    requires 0 < child < |shape| && child !in done && fail < |shape| && (fail == 0 || fail in done)
    requires Find(shape, Suffix(words[child], ProperFailLen(shape, words[child]))) == Some(fail)
    ensures SetOf(nodes[child].exist + nodes[fail].exist) == SuffixLens(keywords, words[child])
  {
    var w := words[child];
    NonRootWord(shape, words, keywords, child);
    FindWord(shape, words, Suffix(w, ProperFailLen(shape, w)));
    assert words[fail] == Suffix(w, ProperFailLen(shape, w));
    SuffixLensSplit(shape, words, keywords, w);
    if fail == 0 {
      RootExist(shape, words, keywords);
    }
    assert SetOf(nodes[fail].exist) == SuffixLens(keywords, words[fail]);
    assert Own(keywords, w) <= SetOf(nodes[child].exist) <= SuffixLens(keywords, w);
    assert SetOf(nodes[child].exist + nodes[fail].exist) == SetOf(nodes[child].exist) + SetOf(nodes[fail].exist);
  }

  /** Writing a linked record for a node not yet done, with its transitions unchanged, makes it done. */
  lemma ProgressVisit(shape: seq<Node>, words: seq<seq<int>>, keywords: set<seq<int>>, nodes: seq<Node>, done: set<nat>, child: nat, node: Node)
    requires Progress(shape, words, keywords, nodes, done)
    requires 0 < child < |shape| && child !in done
    requires node.children == shape[child].children && LinkedAt(shape, words, keywords, child, node)
    ensures Progress(shape, words, keywords, nodes[child := node], done + {child})
  {
  }

  /** Once every node is done, the arena is the automaton over the same trie. */
  lemma ProgressDone(shape: seq<Node>, words: seq<seq<int>>, keywords: set<seq<int>>, nodes: seq<Node>, done: set<nat>)
    requires Progress(shape, words, keywords, nodes, done)
    requires forall n | 0 <= n < |shape| :: n in done
    ensures Linked(nodes, words, keywords)
  {
    forall n | 0 <= n < |nodes|
      ensures Find(nodes, words[n]) == Some(n)
    {
      SameShapeFind(shape, nodes, words[n]);
    }
    forall k | k in keywords
      ensures InTrie(nodes, k)
    {
      SameShapeFind(shape, nodes, k);
    }
    forall n | 0 < n < |nodes|
      ensures LinkedAt(nodes, words, keywords, n, nodes[n])
      ensures nodes[n].failure.value < |nodes|
    {
      LinkedTransfer(shape, words, keywords, nodes, n);
    }
    forall n | 0 <= n < |nodes|
      ensures Own(keywords, words[n]) <= SetOf(nodes[n].exist) <= SuffixLens(keywords, words[n])
    {
      if n > 0 {
        assert LinkedAt(shape, words, keywords, n, nodes[n]);
        assert Own(keywords, words[n]) <= SuffixLens(keywords, words[n]) by {
          assert IsSuffix(words[n], words[n]);
        }
      }
    }
  }

  /** LinkedAt depends on the arena only through its transitions. */
  lemma LinkedTransfer(shape: seq<Node>, words: seq<seq<int>>, keywords: set<seq<int>>, nodes: seq<Node>, n: nat)
    requires TrieValid(shape, words, keywords) && SameShape(shape, nodes)
    requires 0 < n < |shape| && LinkedAt(shape, words, keywords, n, nodes[n])
    ensures LinkedAt(nodes, words, keywords, n, nodes[n])
    ensures nodes[n].failure.Some? && nodes[n].failure.value < |nodes|
  {
    var w := words[n];
    if |w| > 0 {
      SameShapeLongest(shape, nodes, w, |w| - 1);
    }
    var v := Suffix(w, ProperFailLen(shape, w));
    SameShapeFind(shape, nodes, v);
    FindWord(shape, words, v);
  }

  /** The failure target found at the end of a search that stopped at a node is no deeper than the searching node. */
  lemma ChildDepth(shape: seq<Node>, words: seq<seq<int>>, keywords: set<seq<int>>, cur: nat, a: int, fa: Option<nat>)
    requires TrieValid(shape, words, keywords) && cur < |shape|
    requires fa.Some? ==> ChainInv(shape, words, words[cur], a, |words[cur]|, fa.value) && a in shape[fa.value].children
    ensures fa.Some? ==> |words[shape[fa.value].children[a]]| <= |words[cur]|
  {
    if fa.Some? {
      assert ChildrenOk(shape, words);
      assert words[shape[fa.value].children[a]] == words[fa.value] + [a];
    }
  }

  /** Distinct transitions out of a node lead to distinct nodes. */
  lemma SiblingsApart(shape: seq<Node>, words: seq<seq<int>>, keywords: set<seq<int>>, cur: nat, a: int)
    requires TrieValid(shape, words, keywords) && cur < |shape| && a in shape[cur].children
    ensures forall b | b in shape[cur].children && b != a :: shape[cur].children[b] != shape[cur].children[a]
  {
    forall b | b in shape[cur].children && b != a
      ensures shape[cur].children[b] != shape[cur].children[a]
    {
      var wa := words[cur] + [a];
      var wb := words[cur] + [b];
      assert wa[|words[cur]|] != wb[|words[cur]|];
    }
  }

  /**
   * The state of Build's loop over the transitions of `cur`: `keys` are
   * those whose targets are still to be linked, and the targets of the
   * others are done and queued.
   */
  ghost predicate Visiting(shape: seq<Node>, words: seq<seq<int>>, keywords: set<seq<int>>, nodes: seq<Node>,
                           queue: seq<nat>, done: set<nat>, cur: nat, level: nat, keys: set<int>) {
    && Frontier(shape, words, queue, done, cur, level) && Progress(shape, words, keywords, nodes, done)
    && keys <= shape[cur].children.Keys
    && (forall b | b in shape[cur].children :: b in keys <==> shape[cur].children[b] !in done)
  }

  /** Taking the head off the queue starts the loop over all its transitions. */
  lemma VisitingInit(shape: seq<Node>, words: seq<seq<int>>, keywords: set<seq<int>>, nodes: seq<Node>, queue: seq<nat>, done: set<nat>)
    requires Waiting(shape, words, queue, done) && Progress(shape, words, keywords, nodes, done) && |queue| > 0
    ensures Visiting(shape, words, keywords, nodes, queue[1..], done, queue[0], |words[queue[0]]|, shape[queue[0]].children.Keys)
  {
    ShapeOkOfValid(shape, words, keywords);
    Pop(shape, words, queue, done);
  }

  /** In the loop's state, the target of a transition still to handle can be linked. */
  lemma VisitingLink(shape: seq<Node>, words: seq<seq<int>>, keywords: set<seq<int>>, nodes: seq<Node>,
                     queue: seq<nat>, done: set<nat>, cur: nat, level: nat, keys: set<int>, a: int)
    requires Visiting(shape, words, keywords, nodes, queue, done, cur, level, keys) && a in keys
    ensures Progress(shape, words, keywords, nodes, done)
    ensures cur in done && cur < |shape| && a in shape[cur].children && shape[cur].children[a] !in done
    ensures a in nodes[cur].children && nodes[cur].children[a] == shape[cur].children[a]
    ensures forall n | 0 <= n < |shape| && |words[n]| <= |words[cur]| :: n in done
  {
  }

  /** Linking the target of one more transition and queueing it keeps the loop's state. */
  lemma VisitingStep(shape: seq<Node>, words: seq<seq<int>>, keywords: set<seq<int>>, nodes: seq<Node>, linked: seq<Node>,
                     queue: seq<nat>, done: set<nat>, cur: nat, level: nat, keys: set<int>, a: int)
    requires Visiting(shape, words, keywords, nodes, queue, done, cur, level, keys) && a in keys
    requires Progress(shape, words, keywords, linked, done + {shape[cur].children[a]})
    ensures Visiting(shape, words, keywords, linked, queue + [shape[cur].children[a]],
                     done + {shape[cur].children[a]}, cur, level, keys - {a})
  {
    ShapeOkOfValid(shape, words, keywords);
    Visit(shape, words, queue, done, cur, level, a);
    SiblingsApart(shape, words, keywords, cur, a);
  }

  /** Once every transition of `cur` is handled, the queue is waiting again. */
  lemma VisitingDone(shape: seq<Node>, words: seq<seq<int>>, keywords: set<seq<int>>, nodes: seq<Node>,
                     queue: seq<nat>, done: set<nat>, cur: nat, level: nat)
    requires Visiting(shape, words, keywords, nodes, queue, done, cur, level, {})
    ensures Waiting(shape, words, queue, done) && Progress(shape, words, keywords, nodes, done)
  {
    ShapeOkOfValid(shape, words, keywords);
    Finish(shape, words, queue, done, cur, level);
  }
}
