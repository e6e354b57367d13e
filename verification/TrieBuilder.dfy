/**
 A trie for every dictionary.  `trie_insert` and `ac_trie_prepare` are declared in my_trie.h and
 defined elsewhere; this builder is not theirs, it shows that what AhoCorasick asks of a trie can
 be had for any set of words.
 */
module TrieBuilder {
  import opened Common
  import opened TrieSpec
  import opened AhoCorasick

  function Prefixes(words: set<Path>): (paths: set<Path>) {
    {[]} + set w, k | w in words && 0 <= k <= |w| :: w[..k]
  }

  lemma PrefixesArePaths(words: set<Path>)
    ensures PathsOf(Prefixes(words), words)
  {
    var paths := Prefixes(words);
    forall p: Path, c: Byte | p + [c] in paths ensures p in paths {
      var w, k :| w in words && 0 <= k <= |w| && p + [c] == w[..k];
      assert w[..k - 1] == p;
    }
    forall w | w in words ensures w in paths {
      assert w[..|w|] == w;
    }
    forall p | p in paths && p != [] ensures BeginsAWord(words, p) {
      var w, k :| w in words && 0 <= k <= |w| && p == w[..k];
      assert p <= w;
    }
  }

  ghost predicate NoRepeats(labels: seq<Byte>) {
    forall i, j :: 0 <= i < j < |labels| ==> labels[i] != labels[j]
  }

  /** The labels from `from` on of the edges below `p`, in ascending order. */
  function LabelsFrom(paths: set<Path>, p: Path, from: nat): (labels: seq<Byte>)
    requires from <= 256
    ensures forall c: Byte :: c in labels <==> c >= from && p + [c] in paths
    ensures NoRepeats(labels)
    decreases 256 - from
  {
    if from == 256 then []
    else if p + [from] in paths then [from] + LabelsFrom(paths, p, from + 1)
    else LabelsFrom(paths, p, from + 1)
  }

  function IndexOf(labels: seq<Byte>, c: Byte): (i: nat)
    requires c in labels
    ensures i < |labels| && labels[i] == c
  {
    if labels[0] == c then 0 else 1 + IndexOf(labels[1..], c)
  }

  lemma IndexIs(labels: seq<Byte>, i: nat)
    requires NoRepeats(labels) && i < |labels|
    ensures IndexOf(labels, labels[i]) == i
  {
    var k := IndexOf(labels, labels[i]);
  }

  /** A new node for every path. */
  method AllocateNodes(paths: set<Path>) returns (nodes: map<Path, TrieNode>, pathOf: map<TrieNode, Path>)
    ensures nodes.Keys == paths
    ensures forall p :: p in nodes ==> nodes[p] in pathOf && pathOf[nodes[p]] == p
    ensures fresh(nodes.Values)
  {
    nodes, pathOf := map[], map[];
    var rest := paths;
    while rest != {}
      invariant nodes.Keys == paths - rest && rest <= paths
      invariant forall p :: p in nodes ==> fresh(nodes[p]) && nodes[p] in pathOf && pathOf[nodes[p]] == p
      decreases |rest|
    {
      var p :| p in rest;
      var node := new TrieNode();
      nodes, pathOf, rest := nodes[p := node], pathOf[node := p], rest - {p};
    }
  }

  /** What the leaf field is to hold. */
  function Depth(layout: Layout, p: Path): (leaf: UInt16)
    requires layout.Sound()
  {
    if p in layout.words then |p| else 0
  }

  function NextSibling(layout: Layout, p: Path): TrieNode?
    requires layout.Sound() && p in layout.nodes && p != []
  {
    ParentHasLabel(layout, p);
    var q, c := p[..|p| - 1], p[|p| - 1];
    layout.Child(q, IndexOf(layout.labels[q], c) + 1)
  }

  /** Everything that is to stand in the node of `p`. */
  ghost predicate FilledIn(layout: Layout, p: Path)
    requires layout.Sound() && p in layout.nodes
    reads layout.nodes[p]
  {
    var n := layout.nodes[p];
    && n.links == layout.Child(p, 0)
    && n.leaf == Depth(layout, p)
    && (p != [] ==>
         && n.c == p[|p| - 1]
         && n.next == NextSibling(layout, p)
         && n.fail == layout.nodes[Fail(layout.Paths(), p)])
  }

  lemma ParentHasLabel(layout: Layout, p: Path)
    requires layout.Sound() && p in layout.nodes && p != []
    ensures p[..|p| - 1] in layout.labels && p[|p| - 1] in layout.labels[p[..|p| - 1]]
  {
    assert p == p[..|p| - 1] + [p[|p| - 1]];
  }

  method FillIn(layout: Layout, p: Path)
    requires layout.Sound() && p in layout.nodes
    modifies layout.nodes[p]
    ensures FilledIn(layout, p)
  {
    var n := layout.nodes[p];
    SetEnd(n, layout.Child(p, 0), Depth(layout, p));
    if p != [] {
      SetEdge(n, p[|p| - 1], NextSibling(layout, p), layout.nodes[Fail(layout.Paths(), p)]);
    }
  }

  method SetEnd(n: TrieNode, links: TrieNode?, leaf: UInt16)
    modifies n`links, n`leaf
    ensures n.links == links && n.leaf == leaf
  {
    n.links, n.leaf := links, leaf;
  }

  method SetEdge(n: TrieNode, c: Byte, next: TrieNode?, fail: TrieNode)
    modifies n`c, n`next, n`fail
    ensures n.c == c && n.next == next && n.fail == fail
  {
    n.c, n.next, n.fail := c, next, fail;
  }

  lemma FilledLink(trie: Trie, p: Path, i: nat)
    requires trie.layout.Sound() && p in trie.layout.nodes
    requires i < |trie.layout.labels[p]| && NoRepeats(trie.layout.labels[p])
    requires p + [trie.layout.labels[p][i]] in trie.layout.nodes
    requires FilledIn(trie.layout, p + [trie.layout.labels[p][i]])
    ensures trie.LinkAt(p, i)
  {
    var c := trie.layout.labels[p][i];
    var q := p + [c];
    IndexIs(trie.layout.labels[p], i);
    assert q[..|q| - 1] == p && q[|q| - 1] == c;
  }

  /** All nodes filled in, the trie is well-formed. */
  lemma FilledIsWellFormed(trie: Trie)
    requires trie.layout.Sound() && trie.layout.nodes[[]] == trie.root
    requires forall p :: p in trie.layout.labels ==> NoRepeats(trie.layout.labels[p])
    requires forall p :: p in trie.layout.nodes ==> FilledIn(trie.layout, p)
    ensures trie.WellFormed()
  {
    forall p | p in trie.layout.nodes ensures trie.SiblingsAt(p) {
      assert FilledIn(trie.layout, p);
      forall i | 0 <= i < |trie.layout.labels[p]| ensures trie.LinkAt(p, i) {
        assert trie.layout.labels[p][i] in trie.layout.labels[p];
        FilledLink(trie, p, i);
      }
    }
    forall p | p in trie.layout.nodes ensures trie.LeafAt(p) && trie.FailAt(p) {
      assert FilledIn(trie.layout, p);
    }
  }

  function LabelsOf(paths: set<Path>): (labels: map<Path, seq<Byte>>)
    ensures forall p :: p in labels ==> NoRepeats(labels[p])
  {
    map p | p in paths :: LabelsFrom(paths, p, 0)
  }

  lemma SoundLayout(words: set<Path>, nodes: map<Path, TrieNode>, pathOf: map<TrieNode, Path>)
    requires forall w :: w in words ==> |w| < 0x1_0000
    requires nodes.Keys == Prefixes(words)
    requires forall p :: p in nodes ==> nodes[p] in pathOf && pathOf[nodes[p]] == p
    ensures Layout(nodes, pathOf, LabelsOf(Prefixes(words)), words).Sound()
  {
    PrefixesArePaths(words);
  }

  /** Every set of words short enough for a 16-bit length has a well-formed trie. */
  method Build(words: set<Path>) returns (trie: Trie)
    requires forall w :: w in words ==> |w| < 0x1_0000
    ensures fresh(trie) && trie.WellFormed() && trie.layout.words == words
  {
    var nodes, pathOf := AllocateNodes(Prefixes(words));
    SoundLayout(words, nodes, pathOf);
    var layout := Layout(nodes, pathOf, LabelsOf(Prefixes(words)), words);
    trie := new Trie(nodes[[]]);
    trie.layout := layout;
    FillTrie(trie, layout);
  }

  method FillTrie(trie: Trie, layout: Layout)
    requires trie.layout == layout && layout.Sound() && layout.nodes[[]] == trie.root
    requires forall p :: p in layout.labels ==> NoRepeats(layout.labels[p])
    modifies layout.nodes.Values
    ensures trie.layout == layout && trie.WellFormed()
  {
    FillAll(layout);
    FilledIsWellFormed(trie);
  }

  method FillAll(layout: Layout)
    requires layout.Sound()
    modifies layout.nodes.Values
    ensures forall p :: p in layout.nodes ==> FilledIn(layout, p)
  {
    var rest := layout.nodes.Keys;
    while rest != {}
      invariant rest <= layout.nodes.Keys
      invariant forall p :: p in layout.nodes && p !in rest ==> FilledIn(layout, p)
      decreases |rest|
    {
      var p :| p in rest;
      FillIn(layout, p);
      rest := rest - {p};
    }
  }
}
