/**
 * The breadth-first order in which Build visits the trie, stated on values:
 * the FIFO queue of node indices and the set of nodes whose failure link has
 * been assigned ("done"). Depth is the length of a node's word.
 *
 * The point of this order is that when a node at depth `level` is taken off
 * the queue, every node at depth `level` or less is already done, so the
 * failure chain of its parent and the failure target of its children, all at
 * depth `level` or less, are final.
 */
module BreadthFirst {
  import opened Trie
  import opened AhoCorasick

  /** The trie's edges agree with the words and every node is reached along its own word. */
  ghost predicate ShapeOk(shape: seq<Node>, words: seq<seq<int>>) {
    && |shape| > 0 && ChildrenOk(shape, words) && words[0] == []
    && forall n | 0 <= n < |shape| :: Find(shape, words[n]) == Some(n)
  }

  lemma ShapeOkOfValid(nodes: seq<Node>, words: seq<seq<int>>, keywords: set<seq<int>>)
    requires TrieValid(nodes, words, keywords)
    ensures ShapeOk(nodes, words)
  {
  }

  /** The node indices below `k`. */
  function Indices(k: nat): (r: set<nat>)
    ensures forall n: int :: n in r <==> 0 <= n < k
  {
    if k == 0 then {} else Indices(k - 1) + {k - 1}
  }

  /** Marking more nodes done leaves fewer to do. */
  lemma Fewer(k: nat, done0: set<nat>, done: set<nat>)
    requires done0 <= done && forall n | n in done :: n < k
    ensures Indices(k) - done <= Indices(k) - done0
    ensures done != done0 ==> Indices(k) - done != Indices(k) - done0
  {
    if done != done0 {
      var n :| n in done && n !in done0;
      assert n in Indices(k) - done0;
    }
  }

  /** The queue holds done nodes at depth `level` or `level + 1`, shallower first, each once. */
  ghost predicate Layered(words: seq<seq<int>>, queue: seq<nat>, done: set<nat>, level: nat) {
    && (forall i | 0 <= i < |queue| ::
          queue[i] in done && queue[i] < |words| && level <= |words[queue[i]]| <= level + 1)
    && (forall i, j | 0 <= i < j < |queue| ::
          |words[queue[i]]| <= |words[queue[j]]| && queue[i] != queue[j])
  }

  /**
   * The state while the children of `cur`, at depth `level`, are given their
   * failure links: every node up to `level` is done and none below
   * `level + 1` is; a done node that is neither queued nor `cur` has all its
   * children done; no child of a queued node is done.
   */
  ghost predicate Frontier(shape: seq<Node>, words: seq<seq<int>>, queue: seq<nat>, done: set<nat>, cur: nat, level: nat) {
    && |words| == |shape| && cur < |shape| && |words[cur]| == level && cur in done && cur !in queue
    && (forall n | n in done :: n < |shape| && |words[n]| <= level + 1)
    && (forall n | 0 <= n < |shape| && |words[n]| <= level :: n in done)
    && Layered(words, queue, done, level)
    && (forall n, a | n in done && n !in queue && n != cur && a in shape[n].children ::
          shape[n].children[a] in done)
    && (forall n, a | n in queue && a in shape[n].children :: shape[n].children[a] !in done)
  }

  /**
   * The state between two nodes: if the queue is not empty, the same as
   * Frontier for its head (not yet taken off); if it is, every node is done.
   */
  ghost predicate Waiting(shape: seq<Node>, words: seq<seq<int>>, queue: seq<nat>, done: set<nat>) {
    && |words| == |shape|
    && (forall n | n in done :: n < |shape|)
    && (|queue| == 0 ==> forall n | 0 <= n < |shape| :: n in done)
    && (|queue| > 0 ==>
          && queue[0] < |shape|
          && var level := |words[queue[0]]|;
          && (forall n | n in done :: |words[n]| <= level + 1)
          && (forall n | 0 <= n < |shape| && |words[n]| <= level :: n in done)
          && Layered(words, queue, done, level)
          && (forall n, a | n in done && n !in queue && a in shape[n].children ::
                shape[n].children[a] in done)
          && (forall n, a | n in queue && a in shape[n].children :: shape[n].children[a] !in done))
  }

  /** Build starts with the root queued and done. */
  lemma WaitingInit(shape: seq<Node>, words: seq<seq<int>>)
    requires ShapeOk(shape, words)
    ensures Waiting(shape, words, [0], {0})
  {
    forall n | 0 <= n < |shape| && |words[n]| <= 0
      ensures n in {0}
    {
      assert words[n] == [];
    }
    forall n, a | n in [0] && a in shape[n].children
      ensures shape[n].children[a] !in {0}
    {
    }
  }

  /** Every node but the root hangs off a parent by one edge. */
  lemma ParentOf(shape: seq<Node>, words: seq<seq<int>>, n: nat) returns (p: nat, a: int)
    requires ShapeOk(shape, words) && 0 < n < |shape|
    ensures p < |shape| && a in shape[p].children && shape[p].children[a] == n
    ensures words[n] == words[p] + [a]
  {
    var w := words[n];
    assert Find(shape, w) == Some(n);
    assert w != [];
    var t := w[..|w| - 1];
    a := w[|w| - 1];
    assert w == t + [a];
    FindSnoc(shape, t, a);
    p := Find(shape, t).value;
    FindWord(shape, words, t);
  }

  /** A node has one parent: edges into the same node leave the same node. */
  lemma ParentUnique(shape: seq<Node>, words: seq<seq<int>>, p: nat, a: int, q: nat, b: int)
    requires ShapeOk(shape, words) && p < |shape| && q < |shape|
    requires a in shape[p].children && b in shape[q].children
    requires shape[p].children[a] == shape[q].children[b]
    ensures p == q && a == b
  {
    var c := shape[p].children[a];
    assert words[c] == words[p] + [a] == words[q] + [b];
    assert words[p] == (words[p] + [a])[..|words[p]|];
    assert words[q] == (words[q] + [b])[..|words[q]|];
    assert Find(shape, words[p]) == Some(p);
    assert Find(shape, words[q]) == Some(q);
  }

  /** Taking the head off the queue. */
  lemma Pop(shape: seq<Node>, words: seq<seq<int>>, queue: seq<nat>, done: set<nat>)
    requires ShapeOk(shape, words) && Waiting(shape, words, queue, done) && |queue| > 0
    ensures Frontier(shape, words, queue[1..], done, queue[0], |words[queue[0]]|)
    ensures forall a | a in shape[queue[0]].children :: shape[queue[0]].children[a] !in done
  {
    var level := |words[queue[0]]|;
    var rest := queue[1..];
    assert queue[0] !in rest by {
      forall i | 0 <= i < |rest|
        ensures rest[i] != queue[0]
      {
        assert rest[i] == queue[i + 1];
      }
    }
    assert Layered(words, rest, done, level) by {
      forall i, j | 0 <= i < j < |rest|
        ensures |words[rest[i]]| <= |words[rest[j]]| && rest[i] != rest[j]
      {
        assert rest[i] == queue[i + 1] && rest[j] == queue[j + 1];
      }
    }
    forall n, a | n in done && n !in rest && n != queue[0] && a in shape[n].children
      ensures shape[n].children[a] in done
    {
      assert n !in queue;
    }
    assert queue[0] in queue;
  }

  /** One child of `cur` gets its failure link and joins the back of the queue. */
  lemma Visit(shape: seq<Node>, words: seq<seq<int>>, queue: seq<nat>, done: set<nat>, cur: nat, level: nat, a: int)
    requires ShapeOk(shape, words) && Frontier(shape, words, queue, done, cur, level)
    requires a in shape[cur].children && shape[cur].children[a] !in done
    ensures Frontier(shape, words, queue + [shape[cur].children[a]], done + {shape[cur].children[a]}, cur, level)
  {
    var c := shape[cur].children[a];
    var q := queue + [c];
    var d := done + {c};
    assert words[c] == words[cur] + [a];
    LayeredSnoc(words, queue, done, level, c);
    forall n, b | n in d && n !in q && n != cur && b in shape[n].children
      ensures shape[n].children[b] in d
    {
      assert n !in queue;
    }
    VisitFresh(shape, words, queue, done, cur, level, a);
  }

  /** Appending a node one level deeper than `level`, not queued before, keeps the queue layered. */
  lemma LayeredSnoc(words: seq<seq<int>>, queue: seq<nat>, done: set<nat>, level: nat, c: nat)
    requires Layered(words, queue, done, level) && c < |words| && |words[c]| == level + 1 && c !in queue
    ensures Layered(words, queue + [c], done + {c}, level)
  {
    var q := queue + [c];
    forall i | 0 <= i < |q|
      ensures q[i] in done + {c} && q[i] < |words| && level <= |words[q[i]]| <= level + 1
    {
      if i < |queue| {
        assert q[i] == queue[i];
      }
    }
    forall i, j | 0 <= i < j < |q|
      ensures |words[q[i]]| <= |words[q[j]]| && q[i] != q[j]
    {
      assert q[i] == queue[i];
      if j < |queue| {
        assert q[j] == queue[j];
      }
    }
  }

  /** After the visit no child of a queued node is done: the new node's children are too deep, and the others have another parent. */
  lemma VisitFresh(shape: seq<Node>, words: seq<seq<int>>, queue: seq<nat>, done: set<nat>, cur: nat, level: nat, a: int)
    requires ShapeOk(shape, words) && Frontier(shape, words, queue, done, cur, level)
    requires a in shape[cur].children && shape[cur].children[a] !in done
    ensures forall n, b | n in queue + [shape[cur].children[a]] && b in shape[n].children ::
              shape[n].children[b] !in done + {shape[cur].children[a]}
  {
    var c := shape[cur].children[a];
    assert words[c] == words[cur] + [a];
    forall n, b | n in queue + [c] && b in shape[n].children
      ensures shape[n].children[b] !in done + {c}
    {
      var g := shape[n].children[b];
      if n == c {
        assert words[g] == words[c] + [b];
      } else {
        assert n in queue;
        if g == c {
          ParentUnique(shape, words, n, b, cur, a);
        }
      }
    }
  }

  /**
   * Once all children of `cur` are done, the queue is again in the Waiting
   * state: if its new head is one level deeper, every node of that level
   * hangs off a node of the previous level, all of which have been taken off
   * the queue with their children done.
   */
  lemma Finish(shape: seq<Node>, words: seq<seq<int>>, queue: seq<nat>, done: set<nat>, cur: nat, level: nat)
    requires ShapeOk(shape, words) && Frontier(shape, words, queue, done, cur, level)
    requires forall a | a in shape[cur].children :: shape[cur].children[a] in done
    ensures Waiting(shape, words, queue, done)
  {
    forall n, a | n in done && n !in queue && a in shape[n].children
      ensures shape[n].children[a] in done
    {
    }
    if |queue| == 0 {
      forall n | 0 <= n < |shape|
        ensures n in done
      {
        AllDone(shape, words, done, n);
      }
    } else {
      var head := |words[queue[0]]|;
      forall n | 0 <= n < |shape| && |words[n]| <= head
        ensures n in done
      {
        if |words[n]| > level {
          var p, a := ParentOf(shape, words, n);
          assert p in done;
          assert p !in queue;
        }
      }
    }
  }

  /** A set of nodes holding the root and closed under children holds every node. */
  lemma {:induction false} AllDone(shape: seq<Node>, words: seq<seq<int>>, done: set<nat>, n: nat)
    requires ShapeOk(shape, words) && n < |shape| && 0 in done
    requires forall m, a | m in done && m < |shape| && a in shape[m].children :: shape[m].children[a] in done
    ensures n in done
    decreases |words[n]|
  {
    if n != 0 {
      var p, a := ParentOf(shape, words, n);
      AllDone(shape, words, done, p);
    }
  }
}
