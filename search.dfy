/** The site-name index: a 26-way prefix tree of heap nodes over normalised
    words. Insert, SearchWord and Delete first remove every space from the
    word and lower-case it; each letter then selects the child slot
    `letter - 'a'`. Delete only clears the end-of-word mark and never removes
    a node. */
module Search {
  import opened GoStrings
  import opened TrieNode

  /** The form every trie operation works on: the word with all U+0020
      spaces removed, then lower-cased. */
  function Normalize(word: string): (w: string)
    ensures |w| <= |word|
    ensures NoSpace(w)
  {
    var stripped := RemoveSpaces(word);
    assert forall i :: 0 <= i < |stripped| ==> LowerChar(stripped[i]) != ' ';
    ToLower(stripped)
  }

  predicate IsLetter(c: char) {
    'a' <= c <= 'z'
  }

  predicate AllLetters(s: string) {
    forall i :: 0 <= i < |s| ==> IsLetter(s[i])
  }

  /** The child slot a letter selects: `letter - 'a'`. */
  function Index(c: char): (i: nat)
    requires IsLetter(c)
    ensures i < Fanout
  {
    c as int - 'a' as int
  }

  /** The letter child slot `i` stands for. */
  function Letter(i: nat): (c: char)
    requires i < Fanout
    ensures IsLetter(c) && Index(c) == i
  {
    (i + 'a' as int) as char
  }

  lemma LetterOfIndex(c: char)
    requires IsLetter(c)
    ensures Letter(Index(c)) == c
  {
  }

  /** A word made of lower-case letters is its own normal form. */
  lemma {:induction false} NormalizeOfLetters(s: string)
    requires AllLetters(s)
    ensures Normalize(s) == s
  {
    assert NoSpace(s);
    assert RemoveSpaces(s) == s;
    assert ToLower(s) == s;
  }

  /** Normalising twice gives what normalising once gave. */
  lemma {:induction false} NormalizeIdempotent(word: string)
    ensures Normalize(Normalize(word)) == Normalize(word)
  {
    var w := Normalize(word);
    assert RemoveSpaces(w) == w;
    forall i | 0 <= i < |w|
      ensures ToLower(w)[i] == w[i]
    {
      var c := RemoveSpaces(word)[i];
      assert w[i] == LowerChar(c);
    }
  }

  /** Inserting a space anywhere in a word does not change its normal form. */
  lemma {:induction false} NormalizeIgnoresSpace(before: string, after: string)
    ensures Normalize(before + " " + after) == Normalize(before + after)
  {
    var spaced := (before + " ") + after;
    calc {
      RemoveSpaces(spaced);
      { RemoveSpacesOfConcat(before + " ", after); }
      RemoveSpaces(before + " ") + RemoveSpaces(after);
      { RemoveSpacesOfConcat(before, " "); assert RemoveSpaces(" ") == []; }
      RemoveSpaces(before) + RemoveSpaces(after);
      { RemoveSpacesOfConcat(before, after); }
      RemoveSpaces(before + after);
    }
    assert before + " " + after == spaced;
  }

  lemma ToLowerOfConcat(a: string, b: string)
    ensures ToLower(a + b) == ToLower(a) + ToLower(b)
  {
  }

  /** Two words that agree letter by letter up to case have the same normal
      form. */
  lemma {:induction false} NormalizeIgnoresCase(word: string, variant: string)
    requires |word| == |variant|
    requires forall i :: 0 <= i < |word| ==> LowerChar(word[i]) == LowerChar(variant[i])
    ensures Normalize(word) == Normalize(variant)
  {
    if word != [] {
      NormalizeIgnoresCase(word[1..], variant[1..]);
      var head := if word[0] == ' ' then [] else [word[0]];
      var vhead := if variant[0] == ' ' then [] else [variant[0]];
      assert RemoveSpaces(word) == head + RemoveSpaces(word[1..]);
      assert RemoveSpaces(variant) == vhead + RemoveSpaces(variant[1..]);
      ToLowerOfConcat(head, RemoveSpaces(word[1..]));
      ToLowerOfConcat(vhead, RemoveSpaces(variant[1..]));
      assert ToLower(head) == ToLower(vhead);
    }
  }

  /** The paths of a trie are closed under taking prefixes: a node is only
      ever created below an existing one. */
  ghost predicate PrefixClosed(paths: set<string>) {
    forall p, c | p + [c] in paths :: p in paths
  }

  lemma {:induction false} PrefixOfPath(paths: set<string>, s: string, k: nat)
    requires PrefixClosed(paths) && s in paths && k <= |s|
    ensures s[..k] in paths
    decreases |s| - k
  {
    if k < |s| {
      PrefixOfPath(paths, s, k + 1);
      assert s[..k + 1] == s[..k] + [s[k]];
    } else {
      assert s[..k] == s;
    }
  }

  lemma PrefixStep(s: string, i: nat)
    requires i < |s|
    ensures s[..i] + [s[i]] == s[..i + 1]
  {
  }

  /** Once the walk falls off the trie, the whole word is not a path. */
  lemma MissingPrefix(paths: set<string>, s: string, k: nat)
    requires PrefixClosed(paths) && k <= |s| && s[..k] !in paths
    ensures s !in paths
  {
    if s in paths {
      PrefixOfPath(paths, s, k);
    }
  }

  /** The first `n` + 1 prefixes of `s`, from the empty one to `s[..n]`. */
  ghost function Prefixes(s: string, n: nat): set<string>
    requires n <= |s|
  {
    set k | 0 <= k <= n :: s[..k]
  }

  lemma PrefixesStep(s: string, n: nat)
    requires n < |s|
    ensures Prefixes(s, n + 1) == Prefixes(s, n) + {s[..n + 1]}
  {
    forall k | 0 <= k <= n + 1
      ensures s[..k] in Prefixes(s, n) + {s[..n + 1]}
    {
      if k <= n {
        assert s[..k] in Prefixes(s, n);
      }
    }
  }

  /** The Go code computes `byte - 'a'` and indexes `Children` with it, which
      panics for any byte outside 'a' .. 'z'. A walk along `s` reaches
      position i only when `s[..i]` is a path of the trie, so it is free of
      that panic exactly when every position it reaches holds a letter. */
  ghost predicate WalkSafe(s: string, paths: set<string>) {
    forall i | 0 <= i < |s| && s[..i] in paths :: IsLetter(s[i])
  }

  /** The paths form a prefix-closed set of letter strings rooted at the
      empty path, whose node is `root`; each node records its own path and
      holds the last letter of it. */
  ghost predicate Shaped(nodeAt: map<string, Node>, root: Node) {
    && [] in nodeAt && nodeAt[[]] == root && root.Char == "\0"
    && PrefixClosed(nodeAt.Keys)
    && (forall p | p in nodeAt ::
          && AllLetters(p)
          && nodeAt[p].Path == p
          && (p != [] ==> nodeAt[p].Char == [p[|p| - 1]]))
  }

  /** Hanging a node for `letter` below the node at `parent` keeps the shape. */
  lemma ShapedAfterAdd(nodeAt: map<string, Node>, root: Node, parent: string, letter: char, node: Node)
    requires Shaped(nodeAt, root) && parent in nodeAt && IsLetter(letter)
    requires parent + [letter] !in nodeAt
    requires node.Path == parent + [letter] && node.Char == [letter]
    ensures Shaped(nodeAt[parent + [letter] := node], root)
  {
    var child := parent + [letter];
    var m := nodeAt[child := node];
    forall p, c | p + [c] in m
      ensures p in m
    {
      if p + [c] == child {
        assert p == (p + [c])[..|p|] == child[..|parent|] == parent;
      }
    }
  }

  /** `after` holds every path of `before` at the same node, plus the first
      `i` + 1 prefixes of `s`, and nothing else. */
  ghost predicate Grown(before: map<string, Node>, after: map<string, Node>, s: string, i: nat)
    requires i <= |s|
  {
    && after.Keys == before.Keys + Prefixes(s, i)
    && forall p | p in before :: p in after && after[p] == before[p]
  }

  lemma GrownStep(before: map<string, Node>, mid: map<string, Node>, after: map<string, Node>, s: string, i: nat, next: Node)
    requires i < |s| && Grown(before, mid, s, i)
    requires after == mid[s[..i + 1] := next]
    requires s[..i + 1] in mid ==> next == mid[s[..i + 1]]
    ensures Grown(before, after, s, i + 1)
  {
    PrefixesStep(s, i);
  }

  class Trie {
    const RootNode: Node
    /** The normalised words the trie holds. */
    ghost var Words: set<string>
    /** The node the walk from the root along each path reaches. */
    ghost var NodeAt: map<string, Node>
    /** The trie and its nodes. */
    ghost var Repr: set<object>

    ghost predicate Valid()
      reads this, Repr
    {
      this in Repr && Shaped(NodeAt, RootNode) && Owned() && Linked() && Marked()
    }

    ghost predicate Owned()
      reads this`NodeAt, this`Repr
    {
      forall p | p in NodeAt :: NodeAt[p] in Repr
    }

    ghost function Nodes(): set<Node>
      reads this`NodeAt
    {
      set p | p in NodeAt :: NodeAt[p]
    }

    /** Child slot i of the node at path p holds the node at p + [letter i],
        or null when that path does not exist. */
    ghost predicate Linked()
      reads this`NodeAt, Nodes()
    {
      forall p | p in NodeAt ::
        && |NodeAt[p].Children| == Fanout
        && forall i | 0 <= i < Fanout ::
             NodeAt[p].Children[i] == if p + [Letter(i)] in NodeAt then NodeAt[p + [Letter(i)]] else null
    }

    /** The nodes that end a word are exactly those of the words held. */
    ghost predicate Marked()
      reads this`NodeAt, this`Words, Nodes()
    {
      && (forall p | p in NodeAt :: NodeAt[p].IsEnd <==> p in Words)
      && Words <= NodeAt.Keys
    }

    /** NewTrie: a root node that ends no word, so no word is present. */
    constructor ()
      ensures Valid() && fresh(Repr)
      ensures Words == {} && NodeAt.Keys == {[]}
    {
      var root := new Node("\0", []);
      RootNode := root;
      Words := {};
      NodeAt := map[[] := root];
      Repr := {this, root};
    }

    /** Adds the normalised word: creates the missing nodes along its path,
        keeps every existing node where it was, and marks the last node as
        the end of a word. The Go method's error result is always nil. */
    method Insert(word: string)
      requires Valid()
      requires AllLetters(Normalize(word))
      modifies Repr
      ensures Valid() && fresh(Repr - old(Repr))
      ensures Words == old(Words) + {Normalize(word)}
      ensures NodeAt.Keys == old(NodeAt.Keys) + Prefixes(Normalize(word), |Normalize(word)|)
      ensures forall p | p in old(NodeAt) :: NodeAt[p] == old(NodeAt[p])
    {
      var current := RootNode;
      var strippedWord := Normalize(word);
      var i := 0;
      while i < |strippedWord|
        invariant 0 <= i <= |strippedWord|
        invariant Valid() && fresh(Repr - old(Repr))
        invariant strippedWord[..i] in NodeAt && current == NodeAt[strippedWord[..i]]
        invariant Words == old(Words)
        invariant Grown(old(NodeAt), NodeAt, strippedWord, i)
      {
        PrefixStep(strippedWord, i);
        ghost var before := NodeAt;
        current := Descend(current, strippedWord[..i], strippedWord[i]);
        GrownStep(old(NodeAt), before, NodeAt, strippedWord, i, current);
        i := i + 1;
      }
      assert strippedWord[..i] == strippedWord;
      SetEnd(current, strippedWord, true);
    }

    /** `current.IsEnd = end` on the node at path `p`: `p` becomes a word of
        the trie, or stops being one; no node moves. */
    method SetEnd(current: Node, ghost p: string, end: bool)
      requires Valid() && p in NodeAt && current == NodeAt[p]
      modifies this, current
      ensures Valid()
      ensures Words == if end then old(Words) + {p} else old(Words) - {p}
      ensures NodeAt == old(NodeAt) && Repr == old(Repr)
    {
      current.IsEnd := end;
      Words := if end then Words + {p} else Words - {p};
    }

    /** One step of Insert's walk: the child of `current` for `letter`,
        hung there first when the slot is empty. */
    method Descend(current: Node, ghost parent: string, letter: char) returns (next: Node)
      requires Valid() && parent in NodeAt && current == NodeAt[parent] && IsLetter(letter)
      modifies this, current
      ensures Valid() && fresh(Repr - old(Repr))
      ensures Words == old(Words)
      ensures NodeAt == old(NodeAt)[parent + [letter] := next]
      ensures parent + [letter] in old(NodeAt) ==> next == old(NodeAt)[parent + [letter]]
    {
      var index := Index(letter);
      LetterOfIndex(letter);
      if current.Children[index] == null {
        next := AddChild(current, parent, letter);
      } else {
        next := current.Children[index];
      }
    }

    /** `current.Children[index] = NewNode(string(strippedWord[i]))`: hangs a
        fresh node for `letter` in the empty child slot of the node at
        `parent`. */
    method AddChild(current: Node, ghost parent: string, letter: char) returns (node: Node)
      requires Valid() && parent in NodeAt && current == NodeAt[parent] && IsLetter(letter)
      requires current.Children[Index(letter)] == null
      modifies this, current
      ensures Valid() && fresh(node)
      ensures NodeAt == old(NodeAt)[parent + [letter] := node]
      ensures Words == old(Words) && Repr == old(Repr) + {node}
    {
      var child := parent + [letter];
      var index := Index(letter);
      LetterOfIndex(letter);
      assert child !in NodeAt;
      node := new Node([letter], child);
      ShapedAfterAdd(NodeAt, RootNode, parent, letter, node);
      current.Children := current.Children[index := node];
      NodeAt := NodeAt[child := node];
      Repr := Repr + {node};
      assert Owned();
      assert child[..|child| - 1] == parent;
      LinkedAfterAdd(child, node);
      MarkedAfterAdd(child, node);
    }

    /** Child links after AddChild: only one slot of the parent of `child`
        changed, and it now holds the new, childless node for `child`. */
    twostate lemma LinkedAfterAdd(child: string, new node: Node)
      requires old(Linked()) && old(Shaped(NodeAt, RootNode))
      requires child != [] && child[..|child| - 1] in old(NodeAt) && IsLetter(child[|child| - 1])
      requires child !in old(NodeAt)
      requires NodeAt == old(NodeAt)[child := node] && Shaped(NodeAt, RootNode)
      requires |node.Children| == Fanout && forall i :: 0 <= i < Fanout ==> node.Children[i] == null
      requires var parent := child[..|child| - 1];
        NodeAt[parent].Children == old(NodeAt[parent].Children)[Index(child[|child| - 1]) := node]
      requires forall p | p in old(NodeAt) && p != child[..|child| - 1] :: NodeAt[p].Children == old(NodeAt[p].Children)
      ensures Linked()
    {
      var parent, letter := child[..|child| - 1], child[|child| - 1];
      assert child == parent + [letter];
      LetterOfIndex(letter);
      forall p, j | p in NodeAt && 0 <= j < Fanout
        ensures NodeAt[p].Children[j] == if p + [Letter(j)] in NodeAt then NodeAt[p + [Letter(j)]] else null
      {
        if p == child {
          assert child + [Letter(j)] !in NodeAt;
        } else if p + [Letter(j)] == child {
          assert (p + [Letter(j)])[..|p|] == p;
          assert p == parent && Letter(j) == letter;
        }
      }
    }

    /** End marks after AddChild: no old node's mark changed, and the new
        node ends no word. */
    twostate lemma MarkedAfterAdd(child: string, new node: Node)
      requires old(Marked()) && child !in old(NodeAt)
      requires NodeAt == old(NodeAt)[child := node] && Words == old(Words) && !node.IsEnd
      requires forall p | p in old(NodeAt) :: NodeAt[p].IsEnd == old(NodeAt[p].IsEnd)
      ensures Marked()
    {
    }

    /** True exactly when the normalised word is one the trie holds: the
        path alone is not enough, its last node must end a word. */
    method SearchWord(word: string) returns (found: bool)
      requires Valid()
      requires WalkSafe(Normalize(word), NodeAt.Keys)
      ensures found <==> Normalize(word) in Words
    {
      var strippedWord := Normalize(word);
      var current := RootNode;
      var i := 0;
      while i < |strippedWord|
        invariant 0 <= i <= |strippedWord|
        invariant strippedWord[..i] in NodeAt && current == NodeAt[strippedWord[..i]]
      {
        var index := Index(strippedWord[i]);
        LetterOfIndex(strippedWord[i]);
        PrefixStep(strippedWord, i);
        if current.Children[index] == null {
          MissingPrefix(NodeAt.Keys, strippedWord, i + 1);
          return false;
        }
        current := current.Children[index];
        i := i + 1;
      }
      assert strippedWord[..i] == strippedWord;
      return current.IsEnd;
    }

    /** Un-marks the normalised word, leaving every node in place; when its
        path does not exist nothing changes at all. */
    method Delete(word: string)
      requires Valid()
      requires WalkSafe(Normalize(word), NodeAt.Keys)
      modifies Repr
      ensures Valid()
      ensures Words == old(Words) - {Normalize(word)}
      ensures NodeAt == old(NodeAt) && Repr == old(Repr)
      ensures Normalize(word) !in old(NodeAt) ==> unchanged(Repr)
    {
      var strippedWord := Normalize(word);
      var current := RootNode;
      var i := 0;
      while i < |strippedWord|
        invariant 0 <= i <= |strippedWord|
        invariant strippedWord[..i] in NodeAt && current == NodeAt[strippedWord[..i]]
        modifies {}
      {
        var index := Index(strippedWord[i]);
        LetterOfIndex(strippedWord[i]);
        PrefixStep(strippedWord, i);
        if current.Children[index] == null {
          MissingPrefix(NodeAt.Keys, strippedWord, i + 1);
          assert Words - {strippedWord} == Words;
          return;
        }
        current := current.Children[index];
        i := i + 1;
      }
      assert strippedWord[..i] == strippedWord;
      SetEnd(current, strippedWord, false);
    }
  }

  /** NewTrie followed by SearchWord: a fresh trie holds no word, not even
      the empty one. */
  method FreshTrieHoldsNothing(word: string) returns (found: bool)
    requires WalkSafe(Normalize(word), {[]})
    ensures !found
  {
    var t := new Trie();
    found := t.SearchWord(word);
  }

  /** After Insert(word), SearchWord(word) is true. */
  method InsertThenSearch(word: string) returns (found: bool)
    requires AllLetters(Normalize(word))
    ensures found
  {
    var t := new Trie();
    t.Insert(word);
    found := t.SearchWord(word);
  }

  /** A proper prefix of an inserted word has a path but is not found. */
  method PrefixIsNotAWord(word: string, k: nat) returns (found: bool)
    requires AllLetters(Normalize(word)) && k < |Normalize(word)|
    ensures !found
  {
    var t := new Trie();
    t.Insert(word);
    var prefix := Normalize(word)[..k];
    NormalizeOfLetters(prefix);
    found := t.SearchWord(prefix);
  }

  /** Insert(word), Insert(other), Delete(word): word is gone and other is
      still found unless it normalises to the same word. */
  method DeleteThenSearch(word: string, other: string) returns (foundWord: bool, foundOther: bool)
    requires AllLetters(Normalize(word)) && AllLetters(Normalize(other))
    ensures !foundWord
    ensures foundOther <==> Normalize(other) != Normalize(word)
  {
    var t := new Trie();
    t.Insert(word);
    t.Insert(other);
    t.Delete(word);
    foundWord := t.SearchWord(word);
    foundOther := t.SearchWord(other);
  }

  /** A word inserted in one spelling is found in any spelling that differs
      from it only in case. */
  method SearchIgnoresCase(word: string, variant: string) returns (found: bool)
    requires AllLetters(Normalize(word))
    requires |word| == |variant|
    requires forall i :: 0 <= i < |word| ==> LowerChar(word[i]) == LowerChar(variant[i])
    ensures found
  {
    var t := new Trie();
    t.Insert(word);
    NormalizeIgnoresCase(word, variant);
    found := t.SearchWord(variant);
  }
}
