/** The read-only view of the generalized suffix tree that the traversal
    consumes. The tree's construction is not part of this model: a tree is an
    immutable value, every node records which input string its incoming edge
    is cut from (stringId, start, end), and a leaf is a node with no children.
    Nodes are addressed by paths of child indices from a given node. */
module SuffixTree {
  import opened Strings

  datatype Node = Node(stringId: nat, start: nat, end: nat, children: seq<Node>)

  /** The tree's strings (as the tree stores them), its terminal character and its root. */
  datatype Tree = Tree(strings: seq<string>, terminal: char, root: Node)

  type Path = seq<nat>

  /** The node's edge can be sliced out of its string and the slice is not
      empty (on an empty slice `label[-1]` raises IndexError). */
  predicate NodeWF(tree: Tree, n: Node) {
    n.stringId < |tree.strings| && n.start <= n.end && n.start < |tree.strings[n.stringId]|
  }

  /** Every node below n, except the root, satisfies NodeWF. */
  predicate SubtreeWF(tree: Tree, n: Node) {
    (n != tree.root ==> NodeWF(tree, n)) &&
    forall i :: 0 <= i < |n.children| ==> SubtreeWF(tree, n.children[i])
  }

  predicate TreeWF(tree: Tree) {
    SubtreeWF(tree, tree.root)
  }

  function Min(a: int, b: int): int { if a <= b then a else b }

  /** `tree._strings[node.string_id][node.start:node.end + 1]`, with Python's
      clamping of the upper bound. */
  function RawLabel(tree: Tree, n: Node): string
    requires NodeWF(tree, n)
  {
    var s := tree.strings[n.stringId];
    s[n.start..Min(n.end + 1, |s|)]
  }

  /** `_edge_label(tree, node)`: empty for the root, otherwise the slice with
      one trailing terminal character dropped. */
  function EdgeLabel(tree: Tree, n: Node): string
    requires n == tree.root || NodeWF(tree, n)
  {
    if n == tree.root then ""
    else
      var raw := RawLabel(tree, n);
      if raw[|raw| - 1] == tree.terminal then raw[..|raw| - 1] else raw
  }

  /** The slice is never empty, holds at most end + 1 - start characters and
      starts the string at `start`. */
  lemma RawLabelSpec(tree: Tree, n: Node)
    requires NodeWF(tree, n)
    ensures 0 < |RawLabel(tree, n)| <= n.end + 1 - n.start
    ensures IsPrefix(RawLabel(tree, n), tree.strings[n.stringId][n.start..])
  {
  }

  /** The root's label is empty; any other node's label is its slice, minus
      one character exactly when the slice ends with the terminal. */
  lemma EdgeLabelSpec(tree: Tree, n: Node)
    requires n == tree.root || NodeWF(tree, n)
    ensures n == tree.root ==> EdgeLabel(tree, n) == ""
    ensures n != tree.root ==>
      var raw := RawLabel(tree, n);
      var r := EdgeLabel(tree, n);
      && IsPrefix(r, raw)
      && (|r| == |raw| || |r| == |raw| - 1)
      && (|r| == |raw| - 1 <==> raw[|raw| - 1] == tree.terminal)
  {
    if n != tree.root {
      RawLabelSpec(tree, n);
    }
  }

  /** Number of nodes in the subtree. */
  function Size(n: Node): (r: nat)
    ensures r >= 1
    decreases n, |n.children| + 1
  {
    1 + ChildSize(n, |n.children|)
  }

  /** Total size of the first k children's subtrees. */
  function ChildSize(n: Node, k: nat): (r: nat)
    requires k <= |n.children|
    ensures r >= k
    decreases n, k
  {
    if k == 0 then 0 else ChildSize(n, k - 1) + Size(n.children[k - 1])
  }

  lemma {:induction false} ChildSmaller(n: Node, i: nat, k: nat)
    requires i < k <= |n.children|
    ensures Size(n.children[i]) <= ChildSize(n, k)
    decreases k
  {
    if i < k - 1 { ChildSmaller(n, i, k - 1); }
  }

  lemma ChildSizeLess(n: Node, i: nat)
    requires i < |n.children|
    ensures Size(n.children[i]) < Size(n)
  {
    ChildSmaller(n, i, |n.children|);
  }

  /** The frequency of a node: the number of leaves of its subtree (a leaf
      counts 1, an internal node the sum over its children). */
  function LeafCount(n: Node): (r: nat)
    ensures r >= 1
    decreases n, |n.children| + 1
  {
    if |n.children| == 0 then 1 else LeafSum(n, |n.children|)
  }

  /** Total leaf count of the first k children. */
  function LeafSum(n: Node, k: nat): (r: nat)
    requires k <= |n.children|
    ensures r >= k
    decreases n, k
  {
    if k == 0 then 0 else LeafSum(n, k - 1) + LeafCount(n.children[k - 1])
  }

  predicate ValidPath(n: Node, q: Path) {
    q == [] || (q[0] < |n.children| && ValidPath(n.children[q[0]], q[1..]))
  }

  /** The node reached from n by following the child indices q. */
  function NodeAt(n: Node, q: Path): Node
    requires ValidPath(n, q)
  {
    if q == [] then n else NodeAt(n.children[q[0]], q[1..])
  }

  /** A node strictly below n is smaller than n, so it is never n itself. */
  lemma {:induction false} NodeAtSmaller(n: Node, q: Path)
    requires ValidPath(n, q)
    ensures Size(NodeAt(n, q)) <= Size(n)
    ensures q != [] ==> Size(NodeAt(n, q)) < Size(n)
  {
    if q != [] {
      NodeAtSmaller(n.children[q[0]], q[1..]);
      ChildSizeLess(n, q[0]);
    }
  }

  /** A child of a well-formed subtree is one too, and its edge label is defined. */
  lemma ChildWF(tree: Tree, n: Node, i: nat)
    requires SubtreeWF(tree, n) && i < |n.children|
    ensures SubtreeWF(tree, n.children[i])
    ensures n.children[i] == tree.root || NodeWF(tree, n.children[i])
  {
  }

  lemma {:induction false} SubtreeWFAt(tree: Tree, n: Node, q: Path)
    requires SubtreeWF(tree, n) && ValidPath(n, q)
    ensures SubtreeWF(tree, NodeAt(n, q))
  {
    if q != [] { SubtreeWFAt(tree, n.children[q[0]], q[1..]); }
  }

  /** The concatenated edge labels from n (included) down to the parent of
      the node at q: the text spelled before that node's own edge. */
  function PathText(tree: Tree, n: Node, q: Path): string
    requires SubtreeWF(tree, n) && ValidPath(n, q)
  {
    if q == [] then "" else EdgeLabel(tree, n) + PathText(tree, n.children[q[0]], q[1..])
  }

  /** q is a proper prefix of q': the node at q is a strict ancestor of the node at q'. */
  predicate ProperPrefix(q: Path, q': Path) {
    |q| < |q'| && q'[..|q|] == q
  }

  /** The text spelled down to a strict descendant d of the node at q holds
      the text down to q followed by q's own label. */
  lemma {:induction false} PathTextGrows(tree: Tree, n: Node, q: Path, d: Path)
    requires SubtreeWF(tree, n) && ValidPath(n, d) && ProperPrefix(q, d)
    ensures ValidPath(n, q) && SubtreeWF(tree, NodeAt(n, q))
    ensures |PathText(tree, n, d)| >= |PathText(tree, n, q)| + |EdgeLabel(tree, NodeAt(n, q))|
  {
    if q != [] {
      assert d[..|q|][0] == d[0];
      assert d[1..][..|q| - 1] == d[..|q|][1..];
      PathTextGrows(tree, n.children[d[0]], q[1..], d[1..]);
    }
  }
}
