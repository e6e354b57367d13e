/**
 The linked trie of my_trie.h and the two routines that walk it: the Aho-Corasick
 matcher `ac_trie_next` with its helper `trie_goto`, and the lookup `trie_search`.
 Each is proved against the path-level functions of TrieSpec.
 */
module AhoCorasick {
  import opened Common
  import opened TrieSpec

  class TrieNode {
    var leaf: UInt16      // depth of the node if a word ends here, 0 otherwise
    var c: Byte           // label of the edge into this node
    var next: TrieNode?   // next sibling
    var links: TrieNode?  // first child
    var fail: TrieNode?   // failure link

    constructor ()
      ensures leaf == 0 && c == 0 && next == null && links == null && fail == null
    {
      leaf, c, next, links, fail := 0, 0, null, null, null;
    }
  }

  /** Which node stands for which path, in which order siblings are linked, what is stored. */
  datatype Layout = Layout(
    nodes: map<Path, TrieNode>,
    pathOf: map<TrieNode, Path>,
    labels: map<Path, seq<Byte>>,
    words: set<Path>)
  {
    function Paths(): set<Path> { nodes.Keys }

    /** One node for every path of the stored words, one list of distinct labels below each. */
    ghost predicate Sound() {
      && PathsOf(Paths(), words)
      && (forall w :: w in words ==> |w| < 0x1_0000)
      && (forall p :: p in nodes ==> nodes[p] in pathOf && pathOf[nodes[p]] == p)
      && labels.Keys == nodes.Keys
      && (forall p: Path, c: Byte :: p in labels ==> (c in labels[p] <==> p + [c] in nodes))
    }

    /** The i-th child of the node at `p`, null past the last. */
    function Child(p: Path, i: nat): TrieNode?
      requires Sound() && p in nodes
    {
      if i < |labels[p]| then
        assert labels[p][i] in labels[p];
        nodes[p + [labels[p][i]]]
      else null
    }
  }

  class Trie {
    var root: TrieNode
    ghost var layout: Layout

    constructor (root: TrieNode)
      ensures this.root == root && layout == Layout(map[[] := root], map[root := []], map[[] := []], {})
    {
      this.root, layout := root, Layout(map[[] := root], map[root := []], map[[] := []], {});
    }

    ghost predicate LinkAt(p: Path, i: nat)
      requires layout.Sound() && p in layout.nodes && i < |layout.labels[p]|
      reads this, layout.nodes.Values
    {
      var n := layout.Child(p, i);
      n.c == layout.labels[p][i] && n.next == layout.Child(p, i + 1)
    }

    /** The list below `p` links exactly the children of `p`, each under its own label. */
    ghost predicate SiblingsAt(p: Path)
      requires layout.Sound() && p in layout.nodes
      reads this, layout.nodes.Values
    {
      && layout.nodes[p].links == layout.Child(p, 0)
      && forall i {:trigger LinkAt(p, i)} :: 0 <= i < |layout.labels[p]| ==> LinkAt(p, i)
    }

    ghost predicate LeafAt(p: Path)
      requires layout.Sound() && p in layout.nodes
      reads this, layout.nodes.Values
    {
      layout.nodes[p].leaf == if p in layout.words then |p| else 0
    }

    ghost predicate FailAt(p: Path)
      requires layout.Sound() && p in layout.nodes
      reads this, layout.nodes.Values
    {
      p != [] ==> layout.nodes[p].fail == layout.nodes[Fail(layout.Paths(), p)]
    }

    /** What `trie_insert` and `ac_trie_prepare` leave behind. */
    ghost predicate WellFormed()
      reads this, layout.nodes.Values
    {
      && layout.Sound()
      && layout.nodes[[]] == root
      && (forall p {:trigger SiblingsAt(p)} :: p in layout.nodes ==> SiblingsAt(p))
      && (forall p {:trigger LeafAt(p)} :: p in layout.nodes ==> LeafAt(p))
      && (forall p {:trigger FailAt(p)} :: p in layout.nodes ==> FailAt(p))
    }
  }

  // No label in the list below `p`, no such child.
  lemma NoSuchChild(layout: Layout, p: Path, c: Byte)
    requires layout.Sound() && p in layout.nodes
    requires forall i :: 0 <= i < |layout.labels[p]| ==> layout.labels[p][i] != c
    ensures p + [c] !in layout.nodes
  {
    assert c !in layout.labels[p];
  }

  /** Follows the edge labelled `c`; the root leads back to itself when it has no such edge. */
  method TrieGoto(root: TrieNode, node: TrieNode, c: Byte, ghost trie: Trie, ghost p: Path)
    returns (next: TrieNode?)
    requires trie.WellFormed() && root == trie.root
    requires p in trie.layout.nodes && node == trie.layout.nodes[p]
    ensures next == if p + [c] in trie.layout.nodes then trie.layout.nodes[p + [c]]
                    else if p == [] then root
                    else null
  {
    ghost var labels := trie.layout.labels[p];
    ghost var i := 0;
    assert trie.SiblingsAt(p);
    next := node.links;
    while next != null
      invariant i <= |labels| && next == trie.layout.Child(p, i)
      invariant forall j :: 0 <= j < i ==> labels[j] != c
      decreases |labels| - i
    {
      assert trie.LinkAt(p, i);
      if next.c == c {
        return;
      }
      next := next.next;
      i := i + 1;
    }
    NoSuchChild(trie.layout, p, c);
    if root == node {
      return root;
    }
    return null;
  }

  /** The loop of `ac_trie_next`: climb failure links until an edge labelled `c` is found. */
  method FollowFailures(trie: Trie, start: TrieNode, c: Byte, ghost from: Path)
    returns (reached: TrieNode, ghost steps: nat)
    requires trie.WellFormed() && from in trie.layout.nodes && start == trie.layout.nodes[from]
    ensures reached == trie.layout.nodes[Move(trie.layout.Paths(), from, c)]
    ensures steps == FailSteps(trie.layout.Paths(), from, c)
  {
    ghost var paths, p := trie.layout.Paths(), from;
    var root, node := trie.root, start;
    steps := 0;
    var next := TrieGoto(root, node, c, trie, p);
    while next == null
      invariant p in paths && node == trie.layout.nodes[p]
      invariant next == if p + [c] in paths then trie.layout.nodes[p + [c]] else if p == [] then root else null
      invariant Move(paths, p, c) == Move(paths, from, c)
      invariant steps + FailSteps(paths, p, c) == FailSteps(paths, from, c)
      decreases |p|
    {
      assert node.fail == trie.layout.nodes[Fail(paths, p)] by {
        assert trie.FailAt(p);
      }
      node, p, steps := node.fail, Fail(paths, p), steps + 1;
      next := TrieGoto(root, node, c, trie, p);
    }
    reached := next;
  }

  class AcTrieState {
    var trie: Trie
    var node: TrieNode?
    ghost var text: Path   // what has been read since the state was created

    /** The state stands where reading `text` from the root leads; the trie is not touched. */
    ghost predicate Valid()
      reads this, trie
    {
      && trie.layout.Sound()
      && node == trie.layout.nodes[Run(trie.layout.Paths(), text)]
    }

    constructor (trie: Trie)
      requires trie.WellFormed()
      ensures Valid() && this.trie == trie && text == []
    {
      this.trie, node, text := trie, trie.root, [];
    }

    /**
     `ac_trie_next`.  The state moves to the longest suffix of the text that is a path, and
     the result is the length of that path if it is a stored word, 0 otherwise.
     `steps` counts the failure links followed.
     */
    method Next(c: Byte) returns (n: UInt16, ghost steps: nat)
      requires trie.WellFormed() && Valid()
      modifies this
      ensures Valid() && trie == old(trie) && text == old(text) + [c]
      ensures n == Reported(trie.layout.Paths(), trie.layout.words, text)
      ensures TotalFailSteps(trie.layout.Paths(), text) == TotalFailSteps(trie.layout.Paths(), old(text)) + steps
    {
      ghost var layout, text' := trie.layout, text + [c];
      var reached;
      reached, steps := FollowFailures(trie, node, c, Run(layout.Paths(), text));
      OneCall(layout.Paths(), text, c);
      n := reached.leaf;
      assert n == Reported(layout.Paths(), layout.words, text') by {
        assert trie.LeafAt(Run(layout.Paths(), text'));
      }
      node, text := reached, text';
    }
  }

  /** Wherever reading has led, it is the node of the longest suffix that is a path. */
  lemma StateStandsOnLongestSuffix(state: AcTrieState)
    requires state.Valid()
    ensures exists p ::
      && IsLongestSuffix(state.trie.layout.Paths(), state.text, p)
      && p in state.trie.layout.nodes && state.node == state.trie.layout.nodes[p]
  {
    RunIsLongestSuffix(state.trie.layout.Paths(), state.text);
  }

  // What one more byte does to the run.
  lemma OneCall(paths: set<Path>, t: Path, c: Byte)
    requires PrefixClosed(paths)
    ensures Run(paths, t + [c]) == Move(paths, Run(paths, t), c)
    ensures TotalFailSteps(paths, t + [c]) == TotalFailSteps(paths, t) + FailSteps(paths, Run(paths, t), c)
  {
    assert (t + [c])[..|t|] == t;
  }

  /**
   `trie_search`.  It finds exactly the stored words, and a word it finds drives the matcher
   from the root to the very node where the search ended.
   */
  method TrieSearch(trie: Trie, key: Path) returns (found: bool)
    requires trie.WellFormed()
    ensures found <==> key in trie.layout.words && key != []
    ensures found ==>
      && Run(trie.layout.Paths(), key) == key
      && Reported(trie.layout.Paths(), trie.layout.words, key) == |key|
  {
    ghost var paths := trie.layout.Paths();
    var node := trie.root;
    var k := 0;
    while k < |key|
      invariant 0 <= k <= |key|
      invariant key[..k] in paths && node == trie.layout.nodes[key[..k]]
    {
      ghost var p := key[..k];
      ghost var labels := trie.layout.labels[p];
      ghost var i := 0;
      assert trie.SiblingsAt(p);
      assert p + [key[k]] == key[..k + 1];
      if node.links == null {
        NoSuchChild(trie.layout, p, key[k]);
        MissingPrefix(trie.layout, key, k + 1);
        return false;
      }
      node := node.links;
      assert trie.LinkAt(p, 0);
      while key[k] != node.c
        invariant i < |labels| && node == trie.layout.Child(p, i)
        invariant node.c == labels[i] && node.next == trie.layout.Child(p, i + 1)
        invariant forall j :: 0 <= j < i ==> labels[j] != key[k]
        decreases |labels| - i
      {
        if node.next == null {
          NoSuchChild(trie.layout, p, key[k]);
          MissingPrefix(trie.layout, key, k + 1);
          return false;
        }
        node := node.next;
        i := i + 1;
        assert trie.LinkAt(p, i);
      }
      k := k + 1;
    }
    assert key[..k] == key;
    assert trie.LeafAt(key);
    if node.leaf > 0 {
      StoredKeyIsReported(paths, trie.layout.words, key);
    }
    return node.leaf > 0;
  }

  lemma MissingPrefix(layout: Layout, key: Path, n: nat)
    requires layout.Sound() && n <= |key| && key[..n] !in layout.nodes
    ensures key !in layout.words
  {
    if key in layout.nodes {
      EveryPrefixIsPath(layout.Paths(), key, n);
    }
  }
}
