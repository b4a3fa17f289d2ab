/**
 * The records of trie.go: a trie node and a reported match.
 *
 * Nodes live in an arena (a sequence indexed by `nat`, the root at index 0),
 * so the child pointers of the Go code are arena indices and the `failure`
 * pointer is an optional index: `None` stands for Go's nil.
 */
module Trie {
  import opened Utf8

  datatype Option<T> = None | Some(value: T)

  /**
   * A trie node: its outgoing transitions by code point, the code-point
   * lengths of the keywords that end here, and its failure link.
   */
  datatype Node = Node(children: map<int, nat>, exist: seq<int>, failure: Option<nat>)

  /** A fresh node: no transitions, no keyword ends here, failure link unset until Build. */
  function NewNode(): (n: Node)
    ensures n.children == map[]
    ensures n.exist == []
    ensures n.failure == None
  {
    Node(map[], [], None)
  }

  /**
   * One reported occurrence: the matched bytes of the original text and
   * their byte span, `end` exclusive.
   */
  datatype Match = Match(text: seq<byte>, start: int, end: int) {

    function MatchString(): (s: seq<byte>)
      ensures s == text
    {
      text
    }

    function Start(): (i: int)
      ensures i == start
    {
      start
    }

    function End(): (i: int)
      ensures i == end
    {
      end
    }
  }
}
