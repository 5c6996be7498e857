/** The interning tree (`trie` in trans.h), seen through its contract.

    The compressed-trie implementation is not part of this model; what the rest
    of the program relies on is that `trie_strdup` maps each distinct string to
    exactly one node of a given tree, and that `trie_to_static` gives the string
    back. A tree is therefore modelled as the sequence of the strings it holds,
    without repetition; a node is an index into that sequence, and the order of
    the sequence stands for the tree's (fixed but unspecified) traversal order. */
module Interning {
  import opened Results

  /** A node of an interning tree. */
  type Node = nat

  datatype Tree = Tree(texts: seq<string>)

  /** The result of interning: the (possibly grown) tree and the node of the text. */
  datatype Interned = Interned(tree: Tree, node: Node)

  /** Each distinct string is held by exactly one node. */
  predicate Valid(t: Tree) {
    forall i, j | 0 <= i < j < |t.texts| :: t.texts[i] != t.texts[j]
  }

  /** `blank_trie`: a tree holding no string. */
  function Blank(): (t: Tree)
    ensures Valid(t)
    ensures forall s: string :: s !in t.texts
  {
    Tree([])
  }

  /** `trie_to_static`: the full string a node stands for. */
  function Reconstruct(t: Tree, n: Node): string
    requires n < |t.texts|
  {
    t.texts[n]
  }

  /** The node holding `s`, searched from the most recently added one. */
  function Lookup(texts: seq<string>, s: string): (r: Option<Node>)
    ensures r.Some? ==> r.value < |texts| && texts[r.value] == s
    ensures r.None? <==> s !in texts
  {
    if |texts| == 0 then None
    else if texts[|texts| - 1] == s then Some(|texts| - 1)
    else
      assert texts == texts[..|texts| - 1] + [texts[|texts| - 1]];
      Lookup(texts[..|texts| - 1], s)
  }

  /** `trie_strdup`: find the node of `s`, adding one when the tree has none. */
  function Intern(t: Tree, s: string): (r: Interned)
    requires Valid(t)
    ensures Valid(r.tree)
    ensures r.node < |r.tree.texts| && Reconstruct(r.tree, r.node) == s
    ensures t.texts <= r.tree.texts
    ensures s in t.texts ==> r.tree == t
    ensures s !in t.texts ==> r.tree.texts == t.texts + [s]
    ensures forall x :: x in r.tree.texts <==> x in t.texts || x == s
  {
    match Lookup(t.texts, s)
    case Some(n) => Interned(t, n)
    case None => Interned(Tree(t.texts + [s]), |t.texts|)
  }

  /** Interning the same text twice yields the same node, and the second call
      leaves the tree alone. */
  lemma InternIdempotent(t: Tree, s: string)
    requires Valid(t)
    ensures Intern(Intern(t, s).tree, s) == Intern(t, s)
  {
    var r := Intern(t, s);
    var r2 := Intern(r.tree, s);
    assert s in r.tree.texts;
    assert r2.tree == r.tree;
    assert r.tree.texts[r2.node] == s == r.tree.texts[r.node];
  }

  /** Two nodes of a valid tree reconstruct to the same text exactly when they
      are the same node. */
  lemma ReconstructInjective(t: Tree, n: Node, m: Node)
    requires Valid(t) && n < |t.texts| && m < |t.texts|
    ensures Reconstruct(t, n) == Reconstruct(t, m) <==> n == m
  {
    if n < m {
      assert t.texts[n] != t.texts[m];
    } else if m < n {
      assert t.texts[m] != t.texts[n];
    }
  }
}
