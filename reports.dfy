/** What the traversal reports, stated over the whole tree: which nodes are
    yielded (soundness: only non-root nodes passing the yield test, each at
    most once, none an ancestor of another in maximal mode) and which are not
    missed (coverage: outside maximal mode every node passing the test is
    yielded; in maximal mode exactly the nodes passing it with no passing
    node below them). */
module Reports {
  import opened Strings
  import opened SuffixTree
  import opened Traversal

  /** The node at q is the node at q' or one of its ancestors. */
  predicate AncestorOrSelf(q: Path, q': Path) {
    |q| <= |q'| && q'[..|q|] == q
  }

  /** A path reported by child i is reported, with i in front, by the first
      j children of n whenever i < j. */
  lemma {:induction false} WalkChildrenHas(tree: Tree, cfg: Config, n: Node, j: nat, p: string, i: nat, w: Path)
    requires SubtreeWF(tree, n) && i < j <= |n.children|
    requires w in WalkNode(tree, cfg, n.children[i], p)
    ensures [i] + w in WalkChildren(tree, cfg, n, j, p)
    decreases j
  {
    WalkChildrenSplit(tree, cfg, n, j, p);
    var W := WalkNode(tree, cfg, n.children[j - 1], p);
    var B := WalkChildren(tree, cfg, n, j - 1, p);
    if i == j - 1 {
      PrependHas(i, W, w);
      InLeft([i] + w, Prepend(j - 1, W), B);
    } else {
      WalkChildrenHas(tree, cfg, n, j - 1, p, i, w);
      InRight([i] + w, Prepend(j - 1, W), B);
    }
  }

  lemma InLeft(x: Path, A: seq<Path>, B: seq<Path>)
    requires x in A
    ensures x in A + B
  {
  }

  lemma InRight(x: Path, A: seq<Path>, B: seq<Path>)
    requires x in B
    ensures x in A + B
  {
  }

  lemma PrependHas(i: nat, W: seq<Path>, w: Path)
    requires w in W
    ensures [i] + w in Prepend(i, W)
  {
    var k :| 0 <= k < |W| && W[k] == w;
    assert Prepend(i, W)[k] == [i] + w;
  }

  /** Every node below n that passes the yield test is reported itself, or,
      in maximal mode, has a reported descendant. */
  lemma {:induction false} WalkNodeCovers(tree: Tree, cfg: Config, n: Node, p: string, q: Path)
    requires SubtreeWF(tree, n) && ValidPath(n, q) && Emittable(cfg, Entry(tree, n, p, q))
    ensures exists w :: w in WalkNode(tree, cfg, n, p) && AncestorOrSelf(q, w) && (!cfg.onlyMaximal ==> w == q)
    decreases n
  {
    var edge := EdgeLabel(tree, n);
    var below := WalkChildren(tree, cfg, n, |n.children|, p + edge);
    var W := WalkNode(tree, cfg, n, p);
    WalkNodeSplit(tree, cfg, n, p);
    assert W[..|below|] == below;
    if q == [] {
      RootEntry(tree, n, p);
      if cfg.onlyMaximal && |below| > 0 {
        assert W[0] == below[0];
        assert AncestorOrSelf(q, W[0]) && W[0] in W;
      } else {
        assert W[|below|] == [] && W[|below|] in W;
      }
    } else {
      var i := q[0];
      ChildWF(tree, n, i);
      EntryShift(tree, n, p, i, q[1..]);
      assert [i] + q[1..] == q;
      WalkNodeCovers(tree, cfg, n.children[i], p + edge, q[1..]);
      var w :| w in WalkNode(tree, cfg, n.children[i], p + edge) && AncestorOrSelf(q[1..], w)
                && (!cfg.onlyMaximal ==> w == q[1..]);
      WalkChildrenHas(tree, cfg, n, |n.children|, p + edge, i, w);
      LiftCover(q, w, below, W, cfg.onlyMaximal);
    }
  }

  /** A cover of q[1..] found below child q[0] covers q from its parent. */
  lemma LiftCover(q: Path, w: Path, below: seq<Path>, W: seq<Path>, maximal: bool)
    requires |q| > 0 && AncestorOrSelf(q[1..], w) && (!maximal ==> w == q[1..])
    requires [q[0]] + w in below && |below| <= |W| && W[..|below|] == below
    ensures exists v :: v in W && AncestorOrSelf(q, v) && (!maximal ==> v == q)
  {
    var v := [q[0]] + w;
    var k :| 0 <= k < |below| && below[k] == v;
    assert W[k] == W[..|below|][k] && W[k] in W;
    assert v[..|q|] == [q[0]] + w[..|q| - 1];
    assert q == [q[0]] + q[1..];
  }

  /** The root's triple never passes the yield test: its label is empty. */
  lemma RootNotEmittable(tree: Tree, cfg: Config)
    requires TreeWF(tree)
    ensures !Emittable(cfg, Entry(tree, tree.root, "", []))
  {
    RootEntry(tree, tree.root, "");
    EdgeLabelSpec(tree, tree.root);
  }

  /** Soundness of `_iter_substrings`: the k-th yielded triple is the triple
      of the k-th reported node (the labels above it, its own label, its leaf
      count); that node is not the root, no node is reported twice, every
      triple passes the yield test and, in maximal mode, no reported node is
      an ancestor of another. */
  lemma EngineSpecSound(tree: Tree, cfg: Config)
    requires TreeWF(tree)
    ensures
      var Q := Emitted(tree, cfg);
      var Y := EngineSpec(tree, cfg);
      && |Y| == |Q|
      && Distinct(Q)
      && (forall k :: 0 <= k < |Q| ==>
            && ValidPath(tree.root, Q[k]) && Q[k] != []
            && Y[k] == Entry(tree, tree.root, "", Q[k])
            && Emittable(cfg, Y[k]))
      && (cfg.onlyMaximal ==> AncestorFree(Q))
  {
    var Q := Emitted(tree, cfg);
    WalkNodeReports(tree, cfg, tree.root, "");
    WalkNodeDistinct(tree, cfg, tree.root, "");
    RootNotEmittable(tree, cfg);
    if cfg.onlyMaximal {
      WalkNodeAncestorFree(tree, cfg, tree.root, "");
    }
  }

  /** Coverage of `_iter_substrings`: a node passing the yield test is
      reported, or in maximal mode has a reported descendant. */
  lemma EngineSpecCovers(tree: Tree, cfg: Config, q: Path)
    requires TreeWF(tree) && ValidPath(tree.root, q) && Emittable(cfg, Entry(tree, tree.root, "", q))
    ensures exists k :: 0 <= k < |Emitted(tree, cfg)| && AncestorOrSelf(q, Emitted(tree, cfg)[k])
                        && (!cfg.onlyMaximal ==> Emitted(tree, cfg)[k] == q)
  {
    WalkNodeCovers(tree, cfg, tree.root, "", q);
    var w :| w in Emitted(tree, cfg) && AncestorOrSelf(q, w) && (!cfg.onlyMaximal ==> w == q);
    var k :| 0 <= k < |Emitted(tree, cfg)| && Emitted(tree, cfg)[k] == w;
  }

  /** Outside maximal mode a node is reported exactly when it passes the yield test. */
  lemma ReportedIffEmittable(tree: Tree, cfg: Config, q: Path)
    requires TreeWF(tree) && !cfg.onlyMaximal && ValidPath(tree.root, q)
    ensures q in Emitted(tree, cfg) <==> Emittable(cfg, Entry(tree, tree.root, "", q))
  {
    EngineSpecSound(tree, cfg);
    if Emittable(cfg, Entry(tree, tree.root, "", q)) {
      EngineSpecCovers(tree, cfg, q);
    }
  }

  /** In maximal mode a node is reported exactly when it passes the yield
      test and no node strictly below it does. */
  lemma ReportedIffMaximal(tree: Tree, cfg: Config, q: Path)
    requires TreeWF(tree) && cfg.onlyMaximal && ValidPath(tree.root, q)
    ensures q in Emitted(tree, cfg) <==>
      && Emittable(cfg, Entry(tree, tree.root, "", q))
      && forall d :: ValidPath(tree.root, d) && ProperPrefix(q, d) ==> !Emittable(cfg, Entry(tree, tree.root, "", d))
  {
    var Q := Emitted(tree, cfg);
    EngineSpecSound(tree, cfg);
    if q in Q {
      var a :| 0 <= a < |Q| && Q[a] == q;
      forall d | ValidPath(tree.root, d) && ProperPrefix(q, d)
        ensures !Emittable(cfg, Entry(tree, tree.root, "", d))
      {
        if Emittable(cfg, Entry(tree, tree.root, "", d)) {
          EngineSpecCovers(tree, cfg, d);
        }
      }
    } else if Emittable(cfg, Entry(tree, tree.root, "", q)) {
      EngineSpecCovers(tree, cfg, q);
      var b :| 0 <= b < |Q| && AncestorOrSelf(q, Q[b]);
      assert Q[b] != q;
      assert ProperPrefix(q, Q[b]);
    }
  }

  /** Two configurations with the same yield test and the same mode. */
  ghost predicate SameTest(c1: Config, c2: Config) {
    c1.onlyMaximal == c2.onlyMaximal && forall t :: Emittable(c1, t) <==> Emittable(c2, t)
  }

  /** Configurations with the same yield test report the same nodes. */
  lemma {:induction false} SameTestSameWalk(tree: Tree, c1: Config, c2: Config, n: Node, p: string)
    requires SubtreeWF(tree, n) && SameTest(c1, c2)
    ensures WalkNode(tree, c1, n, p) == WalkNode(tree, c2, n, p)
    decreases n, |n.children| + 1
  {
    SameTestSameChildren(tree, c1, c2, n, |n.children|, p + EdgeLabel(tree, n));
  }

  lemma {:induction false} SameTestSameChildren(tree: Tree, c1: Config, c2: Config, n: Node, j: nat, p: string)
    requires SubtreeWF(tree, n) && j <= |n.children| && SameTest(c1, c2)
    ensures WalkChildren(tree, c1, n, j, p) == WalkChildren(tree, c2, n, j, p)
    decreases n, j
  {
    if j > 0 {
      SameTestSameWalk(tree, c1, c2, n.children[j - 1], p);
      SameTestSameChildren(tree, c1, c2, n, j - 1, p);
    }
  }

  /** Configurations with the same yield test give the same traversal output. */
  lemma SameTestSameSpec(tree: Tree, c1: Config, c2: Config)
    requires TreeWF(tree) && SameTest(c1, c2)
    ensures Emitted(tree, c1) == Emitted(tree, c2)
    ensures EngineSpec(tree, c1) == EngineSpec(tree, c2)
  {
    SameTestSameWalk(tree, c1, c2, tree.root, "");
  }
}
