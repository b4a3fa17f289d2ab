/**
 * The keyword processor of keywordprocessor.go: an Aho-Corasick automaton
 * over Unicode code points, built from keywords given as (UTF-8) byte
 * strings, and scanned over a text to report every occurrence of every
 * keyword, overlapping ones included.
 *
 * The trie is an arena of Node records (the root at index 0). Two ghost
 * fields give it meaning: `words[n]` is the string of (folded) code points on
 * the path to node `n`, and `keywords` is the set of folded keywords inserted
 * so far.
 */
module Flashtext {
  import opened Utf8
  import opened Trie
  import opened AhoCorasick
  import opened BreadthFirst
  import opened Insertion
  import opened Linking
  import opened Scanning
  import opened Extraction

  /** The folded code points a keyword adds to the set of keywords: none for the empty string. */
  function Added(caseSensitive: bool, keyword: seq<byte>): set<seq<int>> {
    if |keyword| == 0 then {} else {FoldSeq(caseSensitive, Decode(keyword))}
  }

  /** The folded code points a list of keywords adds. */
  function AddedAll(caseSensitive: bool, list: seq<seq<byte>>): set<seq<int>> {
    if list == [] then {} else AddedAll(caseSensitive, list[..|list| - 1]) + Added(caseSensitive, list[|list| - 1])
  }

  /** How many entries of `list` add the folded keyword `w`: each one appends a length at `w`'s node. */
  function Hits(caseSensitive: bool, list: seq<seq<byte>>, w: seq<int>): nat {
    if list == [] then 0
    else Hits(caseSensitive, list[..|list| - 1], w) + (if w in Added(caseSensitive, list[|list| - 1]) then 1 else 0)
  }

  /** A folded keyword is hit by some entry of a list exactly when the list adds it. */
  lemma {:induction false} HitsAdded(caseSensitive: bool, list: seq<seq<byte>>, w: seq<int>)
    ensures Hits(caseSensitive, list, w) > 0 <==> w in AddedAll(caseSensitive, list)
  {
    if list != [] {
      HitsAdded(caseSensitive, list[..|list| - 1], w);
    }
  }

  /**
   * Build's de-duplication of a merged `exist`: if the list holds a length
   * twice, it is rebuilt from the set of its lengths (in an arbitrary order);
   * otherwise it is kept as it is.
   */
  method Dedup(exist: seq<int>) returns (r: seq<int>)
    ensures SetOf(r) == SetOf(exist) && NoDup(r)
    ensures NoDup(exist) ==> r == exist
  {
    var tmp := SetOf(exist);
    NoDupCard(exist);
    if |tmp| < |exist| {
      r := [];
      var rest := tmp;
      while rest != {}
        invariant SetOf(r) + rest == tmp && SetOf(r) !! rest && NoDup(r)
        decreases rest
      {
        Inhabited(rest);
        var l :| l in rest;
        r := r + [l];
        rest := rest - {l};
      }
    } else {
      r := exist;
    }
  }

  /** A non-empty set has an element. */
  lemma Inhabited(s: set<int>)
    requires s != {}
    ensures exists x :: x in s
  {
    if forall x :: x !in s {
      assert false;
    }
  }

  /**
   * walk's report of the keyword lengths `exist` found at end position `e`:
   * each pair (e - l, e) is handed to `wf` in turn, until `wf` returns false.
   * Returns the pairs handed over and whether `wf` asked to stop.
   */
  method Report(exist: seq<int>, e: int, wf: (int, int) -> bool) returns (pairs: seq<(int, int)>, stop: bool)
    ensures |pairs| <= |exist| && pairs == Pairs(exist[..|pairs|], e)
    ensures !stop ==> pairs == Pairs(exist, e)
    ensures forall k | 0 <= k < |pairs| :: wf(pairs[k].0, pairs[k].1) <==> !(stop && k == |pairs| - 1)
    ensures stop ==> |pairs| > 0
  {
    pairs, stop := [], false;
    for j := 0 to |exist|
      invariant pairs == Pairs(exist[..j], e)
      invariant forall k | 0 <= k < j :: wf(pairs[k].0, pairs[k].1)
    {
      var l := exist[j];
      PairsSnoc([], exist, j, e);
      pairs := pairs + [(e - l, e)];
      if !wf(e - l, e) {
        stop := true;
        return;
      }
    }
    assert exist[..|exist|] == exist;
  }

  /**
   * The arena `nodes` after the first `i` entries of `list` are inserted into
   * `base`: its keywords gained those entries' folded keywords, it grew from
   * `base` by them, and it is `base` itself while every entry so far is empty.
   */
  ghost predicate Grew(caseSensitive: bool, list: seq<seq<byte>>, i: nat,
                       base: seq<Node>, baseWords: seq<seq<int>>, baseKeywords: set<seq<int>>,
                       nodes: seq<Node>, words: seq<seq<int>>, keywords: set<seq<int>>) {
    && i <= |list|
    && keywords == baseKeywords + AddedAll(caseSensitive, list[..i])
    && ((forall j | 0 <= j < i :: |list[j]| == 0) ==> nodes == base)
    && Grown(base, nodes, words, AddedAll(caseSensitive, list[..i]))
    && Extends(base, nodes) && baseWords <= words
  }

  /** Inserting keyword `i` of a list after the first `i` extends the growth by the first `i` to the first `i + 1`. */
  lemma GrowStep(caseSensitive: bool, list: seq<seq<byte>>, i: nat,
                 base: seq<Node>, baseWords: seq<seq<int>>, baseKeywords: set<seq<int>>,
                 before: seq<Node>, beforeWords: seq<seq<int>>, beforeKeywords: set<seq<int>>,
                 after: seq<Node>, afterWords: seq<seq<int>>, afterKeywords: set<seq<int>>)
    requires i < |list|
    requires Grew(caseSensitive, list, i, base, baseWords, baseKeywords, before, beforeWords, beforeKeywords)
    requires afterKeywords == beforeKeywords + Added(caseSensitive, list[i])
    requires Grown(before, after, afterWords, Added(caseSensitive, list[i])) && Extends(before, after) && beforeWords <= afterWords
    requires |list[i]| == 0 ==> after == before
    ensures Grew(caseSensitive, list, i + 1, base, baseWords, baseKeywords, after, afterWords, afterKeywords)
  {
    assert list[..i + 1][..i] == list[..i];
    ExtendsTrans(base, before, after);
    GrownTrans(base, before, after, beforeWords, afterWords, AddedAll(caseSensitive, list[..i]), Added(caseSensitive, list[i]));
  }

  /**
   * Every node of `nodes` has as many `exist` entries as it had in `base`
   * plus one for each entry of `list` whose folded keyword is its word.
   */
  ghost predicate Counted(base: seq<Node>, nodes: seq<Node>, words: seq<seq<int>>, caseSensitive: bool, list: seq<seq<byte>>) {
    && |nodes| <= |words|
    && forall n | 0 <= n < |nodes| :: |nodes[n].exist| == Kept(base, n) + Hits(caseSensitive, list, words[n])
  }

  /** Entry `i` hits `w` once more exactly when it adds `w`. */
  lemma HitsSnoc(caseSensitive: bool, list: seq<seq<byte>>, i: nat, w: seq<int>)
    requires i < |list|
    ensures Hits(caseSensitive, list[..i + 1], w) == Hits(caseSensitive, list[..i], w) + (if w in Added(caseSensitive, list[i]) then 1 else 0)
  {
    assert list[..i + 1][..i] == list[..i];
  }

  /** No entry inserted so far hits the word of a node the next insertion creates. */
  lemma NewNodesUnhit(caseSensitive: bool, prefix: seq<seq<byte>>,
                      before: seq<Node>, beforeWords: seq<seq<int>>, beforeKeywords: set<seq<int>>,
                      after: seq<Node>, afterWords: seq<seq<int>>, afterKeywords: set<seq<int>>)
    requires TrieValid(before, beforeWords, beforeKeywords) && TrieValid(after, afterWords, afterKeywords)
    requires AddedAll(caseSensitive, prefix) <= beforeKeywords && beforeWords <= afterWords
    ensures forall n | |before| <= n < |after| :: Hits(caseSensitive, prefix, afterWords[n]) == 0
  {
    forall n | |before| <= n < |after|
      ensures Hits(caseSensitive, prefix, afterWords[n]) == 0
    {
      NewWordUnseen(before, beforeWords, beforeKeywords, after, afterWords, afterKeywords, n);
      HitsAdded(caseSensitive, prefix, afterWords[n]);
    }
  }

  /** Inserting keyword `i` of a list adds one entry at its node and none elsewhere, extending Counted from `i` entries to `i + 1`. */
  lemma CountStep(caseSensitive: bool, list: seq<seq<byte>>, i: nat, base: seq<Node>, before: seq<Node>, after: seq<Node>,
                  beforeWords: seq<seq<int>>, afterWords: seq<seq<int>>)
    requires i < |list|
    requires |base| <= |before| <= |after| == |afterWords| && beforeWords <= afterWords && WordsApart(afterWords)
    requires Counted(base, before, beforeWords, caseSensitive, list[..i])
    requires forall n | |before| <= n < |after| :: Hits(caseSensitive, list[..i], afterWords[n]) == 0
    requires |list[i]| == 0 ==> after == before
    requires |list[i]| > 0 ==> exists e :: Inserted(before, after, afterWords, FoldSeq(caseSensitive, Decode(list[i])), e)
    ensures Counted(base, after, afterWords, caseSensitive, list[..i + 1])
  {
    if |list[i]| == 0 {
      forall n | 0 <= n < |after|
        ensures |after[n].exist| == Kept(base, n) + Hits(caseSensitive, list[..i + 1], afterWords[n])
      {
        HitsSnoc(caseSensitive, list, i, afterWords[n]);
        assert afterWords[n] == beforeWords[n];
      }
    } else {
      var k := FoldSeq(caseSensitive, Decode(list[i]));
      var e :| Inserted(before, after, afterWords, k, e);
      forall n | 0 <= n < |after|
        ensures |after[n].exist| == Kept(base, n) + Hits(caseSensitive, list[..i + 1], afterWords[n])
      {
        HitsSnoc(caseSensitive, list, i, afterWords[n]);
        assert afterWords[n] == k <==> n == e;
        if n < |before| {
          assert afterWords[n] == beforeWords[n];
        }
      }
    }
  }

  /**
   * The state of AddKeywordsFromList once the first `i` entries of `list` are
   * inserted into the arena `base` (with words `baseWords` and keywords
   * `baseKeywords`): a valid trie whose keywords gained those entries' folded
   * keywords, grown from `base` by them, with one more `exist` entry per hit.
   */
  ghost predicate Loading(caseSensitive: bool, list: seq<seq<byte>>, i: nat,
                          base: seq<Node>, baseWords: seq<seq<int>>, baseKeywords: set<seq<int>>,
                          nodes: seq<Node>, words: seq<seq<int>>, keywords: set<seq<int>>) {
    && TrieValid(nodes, words, keywords)
    && Grew(caseSensitive, list, i, base, baseWords, baseKeywords, nodes, words, keywords)
    && Counted(base, nodes, words, caseSensitive, list[..i])
  }

  /** Before the first entry, the state is the valid trie the list is inserted into. */
  lemma LoadInit(caseSensitive: bool, list: seq<seq<byte>>, nodes: seq<Node>, words: seq<seq<int>>, keywords: set<seq<int>>)
    requires TrieValid(nodes, words, keywords)
    ensures Loading(caseSensitive, list, 0, nodes, words, keywords, nodes, words, keywords)
  {
    assert |list[..0]| == 0;
    ExtendsRefl(nodes);
    GrownRefl(nodes, words);
  }

  /** One insertion, with the effect SetItem promises, carries the state from `i` entries to `i + 1`. */
  lemma LoadStep(caseSensitive: bool, list: seq<seq<byte>>, i: nat,
                 base: seq<Node>, baseWords: seq<seq<int>>, baseKeywords: set<seq<int>>,
                 before: seq<Node>, beforeWords: seq<seq<int>>, beforeKeywords: set<seq<int>>,
                 after: seq<Node>, afterWords: seq<seq<int>>, afterKeywords: set<seq<int>>)
    requires i < |list|
    requires Loading(caseSensitive, list, i, base, baseWords, baseKeywords, before, beforeWords, beforeKeywords)
    requires TrieValid(after, afterWords, afterKeywords)
    requires afterKeywords == beforeKeywords + Added(caseSensitive, list[i])
    requires |list[i]| == 0 ==> after == before
    requires |list[i]| > 0 ==> exists e :: Inserted(before, after, afterWords, FoldSeq(caseSensitive, Decode(list[i])), e)
    requires Grown(before, after, afterWords, Added(caseSensitive, list[i]))
    requires Extends(before, after) && beforeWords <= afterWords
    ensures Loading(caseSensitive, list, i + 1, base, baseWords, baseKeywords, after, afterWords, afterKeywords)
  {
    GrowStep(caseSensitive, list, i, base, baseWords, baseKeywords, before, beforeWords, beforeKeywords, after, afterWords, afterKeywords);
    CountValidStep(caseSensitive, list, i, base, before, beforeWords, beforeKeywords, after, afterWords, afterKeywords);
  }

  /** CountStep between two valid tries, the earlier holding the keywords of the first `i` entries. */
  lemma CountValidStep(caseSensitive: bool, list: seq<seq<byte>>, i: nat, base: seq<Node>,
                       before: seq<Node>, beforeWords: seq<seq<int>>, beforeKeywords: set<seq<int>>,
                       after: seq<Node>, afterWords: seq<seq<int>>, afterKeywords: set<seq<int>>)
    requires i < |list|
    requires TrieValid(before, beforeWords, beforeKeywords) && TrieValid(after, afterWords, afterKeywords)
    requires AddedAll(caseSensitive, list[..i]) <= beforeKeywords
    requires |base| <= |before| && Extends(before, after) && beforeWords <= afterWords
    requires Counted(base, before, beforeWords, caseSensitive, list[..i])
    requires |list[i]| == 0 ==> after == before
    requires |list[i]| > 0 ==> exists e :: Inserted(before, after, afterWords, FoldSeq(caseSensitive, Decode(list[i])), e)
    ensures Counted(base, after, afterWords, caseSensitive, list[..i + 1])
  {
    NewNodesUnhit(caseSensitive, list[..i], before, beforeWords, beforeKeywords, after, afterWords, afterKeywords);
    WordsApartOfValid(after, afterWords, afterKeywords);
    CountStep(caseSensitive, list, i, base, before, after, beforeWords, afterWords);
  }

  class KeywordProcessor {
    var nodes: seq<Node>
    const caseSensitive: bool
    ghost var words: seq<seq<int>>
    ghost var keywords: set<seq<int>>

    /** The trie is well formed; the failure links may be stale. */
    ghost predicate Valid()
      reads this
    {
      TrieValid(nodes, words, keywords)
    }

    /** The automaton is complete: every failure link and every `exist` is as Build leaves them. */
    ghost predicate Built()
      reads this
    {
      Linked(nodes, words, keywords)
    }

    /** A processor with an empty trie; WithCaseSensitive is the `caseSensitive` flag. */
    constructor(caseSensitive: bool)
      ensures this.caseSensitive == caseSensitive
      ensures nodes == [NewNode()] && keywords == {}
      ensures Valid() && Built()
    {
      this.caseSensitive := caseSensitive;
      nodes := [NewNode()];
      words := [[]];
      keywords := {};
    }

    /**
     * Follows the path of the folded code points `runes` from the root,
     * adding each missing transition as a fresh node; returns the arena so
     * extended and the node the path ends at.
     */
    method Path(runes: seq<int>) returns (trie: seq<Node>, ghost labels: seq<seq<int>>, node: nat)
      requires Valid()
      ensures OnPath(nodes, words, trie, labels, keywords, FoldSeq(caseSensitive, runes), |runes|, node)
      ensures PathFrame(nodes, trie, labels, FoldSeq(caseSensitive, runes))
    {
      ghost var k := FoldSeq(caseSensitive, runes);
      trie, labels, node := nodes, words, 0;
      OnPathInit(nodes, words, keywords, k);
      for i := 0 to |runes|
        invariant OnPath(nodes, words, trie, labels, keywords, k, i, node)
        invariant PathFrame(nodes, trie, labels, k)
      {
        var c := Fold(caseSensitive, runes[i]);
        assert c == k[i];
        if c !in trie[node].children {
          OnPathGrow(nodes, words, trie, labels, keywords, k, i, node);
          PathFrameGrow(nodes, trie, labels, k, i, node);
          trie := WithChild(trie, node, c);
          labels := labels + [labels[node] + [c]];
        }
        OnPathDescend(nodes, words, trie, labels, keywords, k, i, node);
        node := trie[node].children[c];
      }
    }

    /**
     * Inserts one keyword: the empty string is ignored; otherwise the path of
     * its folded code points is followed, missing transitions are added, and
     * its length in code points is recorded at the end of the path.
     */
    method SetItem(keyword: seq<byte>)
      requires Valid()
      modifies this
      ensures Valid()
      ensures keywords == old(keywords) + Added(caseSensitive, keyword)
      ensures |keyword| == 0 ==> nodes == old(nodes)
      ensures |keyword| > 0 ==> exists e :: Inserted(old(nodes), nodes, words, FoldSeq(caseSensitive, Decode(keyword)), e)
      ensures Grown(old(nodes), nodes, words, Added(caseSensitive, keyword))
      ensures Extends(old(nodes), nodes) && old(words) <= words
    {
      if |keyword| == 0 {
        ExtendsRefl(nodes);
        GrownRefl(nodes, words);
      } else {
        Insert(Decode(keyword));
      }
    }

    /** The insertion of a non-empty keyword, given as its code points. */
    method Insert(runes: seq<int>)
      requires Valid() && |runes| > 0
      modifies this
      ensures Valid()
      ensures keywords == old(keywords) + {FoldSeq(caseSensitive, runes)}
      ensures exists e :: Inserted(old(nodes), nodes, words, FoldSeq(caseSensitive, runes), e)
      ensures Grown(old(nodes), nodes, words, {FoldSeq(caseSensitive, runes)})
      ensures Extends(old(nodes), nodes) && old(words) <= words
    {
      ghost var k := FoldSeq(caseSensitive, runes);
      var trie, labels, node := Path(runes);
      InsertDone(nodes, words, trie, labels, keywords, k, node);
      nodes := WithLength(trie, node, |runes|);
      words := labels;
      keywords := keywords + {k};
    }

    /**
     * The failure-chain search of Build for the child of `cur` on `a`: the
     * failure links from `cur` are followed until a node with a transition
     * on `a` is found, whose target is the child's failure target; when the
     * chain runs out, the target is the root.
     */
    method FailureTarget(ghost shape: seq<Node>, ghost done: set<nat>, cur: nat, a: int) returns (fail: nat)
      requires Progress(shape, words, keywords, nodes, done)
      requires cur in done && cur < |shape| && a in shape[cur].children
      requires forall n | 0 <= n < |shape| && |words[n]| <= |words[cur]| :: n in done
      ensures fail < |shape| && (fail == 0 || fail in done)
      ensures var child := shape[cur].children[a];
        Find(shape, Suffix(words[child], ProperFailLen(shape, words[child]))) == Some(fail)
    {
      ghost var u := words[cur];
      var faFail := nodes[cur].failure;
      if cur != 0 {
        LinkOf(shape, words, keywords, nodes, done, cur);
        NonRootWord(shape, words, keywords, cur);
        ChainStartBuild(shape, words, cur, a, faFail.value);
      }
      while faFail.Some? && a !in nodes[faFail.value].children
        invariant faFail.Some? ==> ChainInv(shape, words, u, a, |u|, faFail.value) && faFail.value in done
        invariant faFail.None? ==> cur == 0 || (ChainInv(shape, words, u, a, |u|, 0) && a !in shape[0].children)
        decreases if faFail.Some? then |words[faFail.value]| + 1 else 0
      {
        var f := faFail.value;
        faFail := nodes[f].failure;
        if f != 0 {
          LinkOf(shape, words, keywords, nodes, done, f);
          ShapeOkOfValid(shape, words, keywords);
          ChainStep(shape, words, u, a, |u|, f, faFail.value);
        }
      }
      fail := 0;
      if faFail.Some? {
        fail := nodes[faFail.value].children[a];
      }
      ChildFailure(shape, words, keywords, cur, a, faFail);
      ChildDepth(shape, words, keywords, cur, a, faFail);
    }

    /**
     * Gives the child of `cur` on `a` its failure link and its merged,
     * de-duplicated `exist`; no other node changes.
     */
    method LinkChild(ghost shape: seq<Node>, ghost done: set<nat>, cur: nat, a: int)
      requires Progress(shape, words, keywords, nodes, done)
      requires cur in done && cur < |shape| && a in shape[cur].children && shape[cur].children[a] !in done
      requires forall n | 0 <= n < |shape| && |words[n]| <= |words[cur]| :: n in done
      modifies this
      ensures words == old(words) && keywords == old(keywords)
      ensures Progress(shape, words, keywords, nodes, done + {shape[cur].children[a]})
      ensures forall n | 0 <= n < |nodes| && n != shape[cur].children[a] :: nodes[n] == old(nodes)[n]
    {
      var child := nodes[cur].children[a];
      var fail := FailureTarget(shape, done, cur, a);
      var merged := nodes[child].exist + nodes[fail].exist;
      ChildExist(shape, words, keywords, nodes, done, child, fail);
      var exist := Dedup(merged);
      var linked := nodes[child].(failure := Some(fail), exist := exist);
      ProgressVisit(shape, words, keywords, nodes, done, child, linked);
      nodes := nodes[child := linked];
    }

    /**
     * Build's loop over the transitions of `cur`, just taken off the queue:
     * the target of each is queued and linked, in no particular order.
     */
    method LinkChildren(ghost shape: seq<Node>, cur: nat, ghost level: nat, queue: seq<nat>, ghost done: set<nat>)
      returns (queue': seq<nat>, ghost done': set<nat>)
      requires cur < |shape| && Visiting(shape, words, keywords, nodes, queue, done, cur, level, shape[cur].children.Keys)
      modifies this
      ensures words == old(words) && keywords == old(keywords)
      ensures Waiting(shape, words, queue', done') && Progress(shape, words, keywords, nodes, done')
      ensures done <= done' && (done' == done ==> queue' == queue)
    {
      queue', done' := queue, done;
      var keys := nodes[cur].children.Keys;
      while keys != {}
        invariant words == old(words) && keywords == old(keywords)
        invariant Visiting(shape, words, keywords, nodes, queue', done', cur, level, keys)
        invariant done <= done' && (done' == done ==> queue' == queue)
        decreases keys
      {
        Inhabited(keys);
        var a :| a in keys;
        var child := nodes[cur].children[a];
        ghost var before := nodes;
        VisitingLink(shape, words, keywords, nodes, queue', done', cur, level, keys, a);
        LinkChild(shape, done', cur, a);
        VisitingStep(shape, words, keywords, before, nodes, queue', done', cur, level, keys, a);
        queue' := queue' + [child];
        done' := done' + {child};
        keys := keys - {a};
      }
      VisitingDone(shape, words, keywords, nodes, queue', done', cur, level);
    }

    /**
     * Computes every failure link and every merged `exist`, visiting the trie
     * breadth first from the root.
     */
    method Build()
      requires Valid()
      modifies this
      ensures Built()
      ensures words == old(words) && keywords == old(keywords)
      ensures SameShape(old(nodes), nodes)
    {
      ghost var shape := nodes;
      var queue: seq<nat> := [0];
      ghost var done: set<nat> := {0};
      ShapeOkOfValid(shape, words, keywords);
      WaitingInit(shape, words);
      ProgressInit(shape, words, keywords);
      while |queue| > 0
        invariant words == old(words) && keywords == old(keywords) && shape == old(nodes)
        invariant Waiting(shape, words, queue, done) && Progress(shape, words, keywords, nodes, done)
        decreases Indices(|shape|) - done, |queue|
      {
        ghost var done0 := done;
        var cur := queue[0];
        VisitingInit(shape, words, keywords, nodes, queue, done);
        queue, done := LinkChildren(shape, cur, |words[cur]|, queue[1..], done);
        Fewer(|shape|, done0, done);
      }
      ProgressDone(shape, words, keywords, nodes, done);
    }

    /**
     * walk's move on the folded code point `a` from `node`, the node of the
     * longest suffix of the folded text `t` read so far that is in the trie:
     * failure links are followed until a node with a transition on `a`, or
     * the root, is reached, and the transition is taken if there is one. The
     * result is the node of the longest suffix of `t + [a]` in the trie.
     */
    method Next(ghost t: seq<int>, node: nat, a: int) returns (next: nat)
      requires Built() && Current(nodes, words, t, node)
      ensures Current(nodes, words, t + [a], next)
    {
      ChainStartWalk(nodes, words, t, a, node);
      next := node;
      while a !in nodes[next].children && next != 0
        invariant next < |nodes| && ChainInv(nodes, words, t, a, |t| + 1, next)
        decreases |words[next]|
      {
        WalkFall(nodes, words, keywords, t, a, next);
        next := nodes[next].failure.value;
      }
      ghost var f := next;
      if a in nodes[next].children {
        next := nodes[next].children[a];
      }
      Advance(nodes, words, keywords, t, a, f);
    }

    /**
     * Reads code point `i` of `sentence`: moves from the node of the text read
     * so far and reports the keywords ending there to `wf`, until it returns
     * false.
     */
    method Step(sentence: seq<int>, wf: (int, int) -> bool, i: nat, ghost t: seq<int>, node: nat, reported: seq<(int, int)>)
      returns (ghost t': seq<int>, node': nat, reported': seq<(int, int)>, stop: bool)
      requires Built() && i < |sentence|
      requires t == FoldSeq(caseSensitive, sentence[..i]) && Current(nodes, words, t, node)
      requires Found(caseSensitive, keywords, sentence, i, reported)
      requires forall k | 0 <= k < |reported| :: wf(reported[k].0, reported[k].1)
      ensures t' == FoldSeq(caseSensitive, sentence[..i + 1]) && Current(nodes, words, t', node')
      ensures !stop ==> Found(caseSensitive, keywords, sentence, i + 1, reported')
      ensures !stop ==> forall k | 0 <= k < |reported'| :: wf(reported'[k].0, reported'[k].1)
      ensures stop ==> Walked(caseSensitive, keywords, sentence, wf, reported')
    {
      var a := Fold(caseSensitive, sentence[i]);
      node' := Next(t, node, a);
      FoldSnoc(caseSensitive, sentence, i);
      t' := t + [a];
      ReportedAt(nodes, words, keywords, caseSensitive, sentence, i + 1, t', node');
      var pairs;
      pairs, stop := Report(nodes[node'].exist, i + 1, wf);
      reported' := reported + pairs;
      if stop {
        ReportPrefix(caseSensitive, keywords, sentence, i, nodes[node'].exist, reported, |pairs|);
      } else {
        ReportAll(caseSensitive, keywords, sentence, i, nodes[node'].exist, reported);
      }
    }

    /**
     * Scans the code points of `sentence`, reporting each occurrence of a
     * keyword to `wf` as the pair (start, end) of code-point positions, until
     * `wf` returns false. Returns the pairs reported, in order, the one that
     * stopped the scan included.
     */
    method Walk(sentence: seq<int>, wf: (int, int) -> bool) returns (reported: seq<(int, int)>)
      requires Built()
      ensures Walked(caseSensitive, keywords, sentence, wf, reported)
    {
      var node: nat := 0;
      reported := [];
      ghost var t: seq<int> := [];
      CurrentInit(nodes, words, keywords);
      FoundInit(caseSensitive, keywords, sentence);
      for i := 0 to |sentence|
        invariant t == FoldSeq(caseSensitive, sentence[..i]) && Current(nodes, words, t, node)
        invariant Found(caseSensitive, keywords, sentence, i, reported)
        invariant forall k | 0 <= k < |reported| :: wf(reported[k].0, reported[k].1)
      {
        var stop;
        t, node, reported, stop := Step(sentence, wf, i, t, node, reported);
        if stop {
          return;
        }
      }
      WalkEnd(caseSensitive, keywords, sentence, wf, reported);
    }


    /**
     * Finds every occurrence of every keyword in the text `sentence` and
     * returns, in order, the byte span of each and the bytes there.
     */
    method ExtractKeywords(sentence: seq<byte>) returns (matches: seq<Match>)
      requires Built()
      ensures |sentence| == 0 ==> matches == []
      ensures forall m | m in matches :: 0 <= m.start < m.end <= |sentence| && m.text == sentence[m.start..m.end]
      ensures forall m | m in matches :: FoldSeq(caseSensitive, Decode(m.text)) in keywords
      ensures forall s, e | Occurs(caseSensitive, keywords, Decode(sentence), s, e) :: MatchAt(sentence, s, e) in matches
      ensures MatchesOrdered(matches)
      ensures |matches| == |Occurrences(caseSensitive, keywords, Decode(sentence))|
    {
      var runes := Decode(sentence);
      if |runes| == 0 {
        assert Occurrences(caseSensitive, keywords, runes) == {};
        return [];
      }
      var offsets := ByteOffsets(sentence, |runes|);
      var reported := Walk(runes, (start, end) => true);
      forall j | 0 <= j < |reported|
        ensures Occurs(caseSensitive, keywords, runes, reported[j].0, reported[j].1)
      {
        assert reported[j] in reported;
      }
      matches := Collect(sentence, offsets, reported);
      Extracted(caseSensitive, keywords, sentence, reported, matches);
    }

    /** ExtractKeywords on a byte slice: Go's string conversion keeps the bytes as they are. */
    method ExtractKeywordsFromBytes(sentence: seq<byte>) returns (matches: seq<Match>)
      requires Built()
      ensures |sentence| == 0 ==> matches == []
      ensures forall m | m in matches :: 0 <= m.start < m.end <= |sentence| && m.text == sentence[m.start..m.end]
      ensures forall m | m in matches :: FoldSeq(caseSensitive, Decode(m.text)) in keywords
      ensures forall s, e | Occurs(caseSensitive, keywords, Decode(sentence), s, e) :: MatchAt(sentence, s, e) in matches
      ensures MatchesOrdered(matches)
      ensures |matches| == |Occurrences(caseSensitive, keywords, Decode(sentence))|
    {
      matches := ExtractKeywords(sentence);
    }

    /** Inserts one keyword and returns the processor itself, for chaining. */
    method AddKeyWord(keyword: seq<byte>) returns (kp: KeywordProcessor)
      requires Valid()
      modifies this
      ensures kp == this && Valid()
      ensures keywords == old(keywords) + Added(caseSensitive, keyword)
      ensures |keyword| == 0 ==> nodes == old(nodes)
      ensures |keyword| > 0 ==> exists e :: Inserted(old(nodes), nodes, words, FoldSeq(caseSensitive, Decode(keyword)), e)
      ensures Grown(old(nodes), nodes, words, Added(caseSensitive, keyword))
      ensures Extends(old(nodes), nodes) && old(words) <= words
    {
      SetItem(keyword);
      kp := this;
    }

    /** Inserts the keywords of a list in order and returns the processor itself. */
    method AddKeywordsFromList(list: seq<seq<byte>>) returns (kp: KeywordProcessor)
      requires Valid()
      modifies this
      ensures kp == this && Valid()
      ensures keywords == old(keywords) + AddedAll(caseSensitive, list)
      ensures (forall i | 0 <= i < |list| :: |list[i]| == 0) ==> nodes == old(nodes)
      ensures Grown(old(nodes), nodes, words, AddedAll(caseSensitive, list))
      ensures Counted(old(nodes), nodes, words, caseSensitive, list)
      ensures Extends(old(nodes), nodes) && old(words) <= words
    {
      LoadInit(caseSensitive, list, nodes, words, keywords);
      for i := 0 to |list|
        invariant Loading(caseSensitive, list, i, old(nodes), old(words), old(keywords), nodes, words, keywords)
      {
        LoadNext(list, i, old(nodes), old(words), old(keywords));
      }
      assert list[..|list|] == list;
      kp := this;
    }

    /** Inserts keyword `i` of `list`, the ones before it having been inserted into `base`. */
    method LoadNext(list: seq<seq<byte>>, i: nat, ghost base: seq<Node>, ghost baseWords: seq<seq<int>>, ghost baseKeywords: set<seq<int>>)
      requires i < |list|
      requires Loading(caseSensitive, list, i, base, baseWords, baseKeywords, nodes, words, keywords)
      modifies this
      ensures Loading(caseSensitive, list, i + 1, base, baseWords, baseKeywords, nodes, words, keywords)
    {
      ghost var before, beforeWords, beforeKeywords := nodes, words, keywords;
      SetItem(list[i]);
      LoadStep(caseSensitive, list, i, base, baseWords, baseKeywords, before, beforeWords, beforeKeywords, nodes, words, keywords);
    }
  }
}
