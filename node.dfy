/** One node of the site-name index trie. */
module TrieNode {

  /** Every node has one child slot per lower-case letter 'a' .. 'z'. */
  const Fanout: nat := 26

  class Node {
    /** The letter this node stands for; the root holds "\0". */
    const Char: string
    /** The letters on the way from the root to this node. */
    ghost const Path: string
    /** Child i stands for the letter 'a' + i; null where there is none. */
    var Children: seq<Node?>
    /** True when the path from the root to this node spells an indexed word. */
    var IsEnd: bool

    /** NewNode: a node for `letter` with 26 empty child slots that ends no word. */
    constructor (letter: string, ghost path: string)
      ensures Char == letter && Path == path
      ensures !IsEnd
      ensures |Children| == Fanout
      ensures forall i :: 0 <= i < |Children| ==> Children[i] == null
    {
      Char := letter;
      Path := path;
      Children := seq(Fanout, _ => null);
      IsEnd := false;
    }
  }
}
