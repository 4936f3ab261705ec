/** The frequency traversal engine (`_iter_substrings`): a post-order walk of
    the suffix tree driven by an explicit stack of frames, with three parallel
    per-depth lists (frequency accumulators, path labels, "a descendant has
    yielded" flags).

    The module has three layers:
    - WalkNode / WalkChildren: the recursive post-order the stack simulates,
      which decides WHICH nodes are reported (as paths from the root), and
      Entry, which says WHAT is reported for a node (its ancestors' labels,
      its own label, its leaf count);
    - Step / Run: one iteration of the loop as a function of the loop state,
      and the whole run;
    - IterSubstrings: the loop itself, proved to produce EngineSpec. */
module Traversal {
  import opened Wrappers
  import opened Strings
  import opened SuffixTree

  /** The thresholds `min_support`, `min_length` and `only_maximal_prefixes`. */
  datatype Config = Config(minSupport: int, minLength: int, onlyMaximal: bool)

  /** A yielded `(text, edge_label, freq)`: the labels above the node, the
      node's own edge label and the node's frequency. */
  datatype Triple = Triple(text: string, edgeLabel: string, freq: int)

  /** The yield test, without the dominance flag. */
  predicate Emittable(cfg: Config, t: Triple) {
    t.freq >= cfg.minSupport && |t.text| + |t.edgeLabel| >= cfg.minLength && t.edgeLabel != ""
  }

  /** What is reported for the node at q below n, when n's ancestors spell p. */
  function Entry(tree: Tree, n: Node, p: string, q: Path): Triple
    requires SubtreeWF(tree, n) && ValidPath(n, q)
  {
    SubtreeWFAt(tree, n, q);
    var m := NodeAt(n, q);
    Triple(p + PathText(tree, n, q), EdgeLabel(tree, m), LeafCount(m))
  }

  lemma EntryShift(tree: Tree, n: Node, p: string, i: nat, q: Path)
    requires SubtreeWF(tree, n) && i < |n.children| && ValidPath(n.children[i], q)
    ensures ValidPath(n, [i] + q)
    ensures Entry(tree, n, p, [i] + q) == Entry(tree, n.children[i], p + EdgeLabel(tree, n), q)
  {
    var q' := [i] + q;
    var c := n.children[i];
    assert q'[0] == i && q'[1..] == q;
    assert NodeAt(n, q') == NodeAt(c, q);
    var e, t := EdgeLabel(tree, n), PathText(tree, c, q);
    assert PathText(tree, n, q') == e + t;
    assert p + (e + t) == (p + e) + t;
  }

  /** Every path of Q with i put in front. */
  function Prepend(i: nat, Q: seq<Path>): (r: seq<Path>)
    ensures |r| == |Q|
    ensures forall k :: 0 <= k < |Q| ==> r[k] == [i] + Q[k]
  {
    seq(|Q|, k requires 0 <= k < |Q| => [i] + Q[k])
  }

  predicate Distinct(Q: seq<Path>) {
    forall a, b :: 0 <= a < b < |Q| ==> Q[a] != Q[b]
  }

  /** No reported node is a strict ancestor of another reported node. */
  predicate AncestorFree(Q: seq<Path>) {
    forall a, b :: 0 <= a < |Q| && 0 <= b < |Q| ==> !ProperPrefix(Q[a], Q[b])
  }

  /** Every path of Q is a path below n. */
  predicate AllValid(n: Node, Q: seq<Path>) {
    forall k :: 0 <= k < |Q| ==> ValidPath(n, Q[k])
  }

  /** A strict ancestor of a path shares its first step. */
  lemma ProperPrefixHead(q: Path, q': Path)
    ensures |q| > 0 && ProperPrefix(q, q') ==> q'[0] == q[0]
  {
    if |q| > 0 && ProperPrefix(q, q') {
      assert q'[..|q|][0] == q'[0];
    }
  }

  /** Prefixing both paths with the same child index keeps ancestry. */
  lemma PrependProperPrefix(i: nat, q: Path, q': Path)
    ensures ProperPrefix([i] + q, [i] + q') <==> ProperPrefix(q, q')
  {
    if |q| < |q'| {
      assert ([i] + q')[..|[i] + q|] == [i] + q'[..|q|];
      if ProperPrefix([i] + q, [i] + q') {
        assert q'[..|q|] == ([i] + q')[..|[i] + q|][1..];
      }
    }
  }

  /** The paths reported, in order, for the subtree of n (relative to n) when
      n's ancestors spell p: its children's reports, last child first (the
      stack pops the last pushed child first), then n itself if its yield test
      passes and, in maximal mode, nothing below it was reported. */
  function WalkNode(tree: Tree, cfg: Config, n: Node, p: string): seq<Path>
    requires SubtreeWF(tree, n)
    decreases n, |n.children| + 1
  {
    var edge := EdgeLabel(tree, n);
    var below := WalkChildren(tree, cfg, n, |n.children|, p + edge);
    var emit := Emittable(cfg, Triple(p, edge, LeafCount(n))) && !(cfg.onlyMaximal && |below| > 0);
    below + (if emit then [[]] else [])
  }

  /** The paths reported for the first j children of n (relative to n), the
      last of them first; p is the text above those children. */
  function WalkChildren(tree: Tree, cfg: Config, n: Node, j: nat, p: string): seq<Path>
    requires SubtreeWF(tree, n) && j <= |n.children|
    decreases n, j
  {
    if j == 0 then []
    else Prepend(j - 1, WalkNode(tree, cfg, n.children[j - 1], p)) + WalkChildren(tree, cfg, n, j - 1, p)
  }

  /** The split of WalkNode into its children's reports and n's own. */
  lemma WalkNodeSplit(tree: Tree, cfg: Config, n: Node, p: string)
    requires SubtreeWF(tree, n)
    ensures
      var below := WalkChildren(tree, cfg, n, |n.children|, p + EdgeLabel(tree, n));
      var emit := Emittable(cfg, Triple(p, EdgeLabel(tree, n), LeafCount(n))) && !(cfg.onlyMaximal && |below| > 0);
      WalkNode(tree, cfg, n, p) == below + (if emit then [[]] else [])
  {
  }

  /** The split of WalkChildren into child j-1's reports and the earlier children's. */
  lemma WalkChildrenSplit(tree: Tree, cfg: Config, n: Node, j: nat, p: string)
    requires SubtreeWF(tree, n) && 0 < j <= |n.children|
    ensures WalkChildren(tree, cfg, n, j, p)
         == Prepend(j - 1, WalkNode(tree, cfg, n.children[j - 1], p)) + WalkChildren(tree, cfg, n, j - 1, p)
  {
  }

  /** Every path of Q names a node below n whose yield test passes, p being
      the text above n. */
  predicate AllReportable(tree: Tree, cfg: Config, n: Node, p: string, Q: seq<Path>)
    requires SubtreeWF(tree, n)
  {
    forall k :: 0 <= k < |Q| ==> ValidPath(n, Q[k]) && Emittable(cfg, Entry(tree, n, p, Q[k]))
  }

  /** Every path of Q starts with a child index below j. */
  predicate HeadsBelow(Q: seq<Path>, j: nat) {
    forall k :: 0 <= k < |Q| ==> |Q[k]| > 0 && Q[k][0] < j
  }

  /** Every path of Q starts with child index i. */
  predicate HeadsAt(Q: seq<Path>, i: nat) {
    forall k :: 0 <= k < |Q| ==> |Q[k]| > 0 && Q[k][0] == i
  }

  /** Every path of Q goes through one of the first j children of n and
      names a node whose yield test passes, p being the text above n's children. */
  predicate ReportsBelow(tree: Tree, cfg: Config, n: Node, j: nat, p: string, Q: seq<Path>)
    requires SubtreeWF(tree, n)
  {
    && HeadsBelow(Q, j)
    && forall k :: 0 <= k < |Q| ==>
      ValidPath(n, Q[k]) && Emittable(cfg, Entry(tree, n.children[Q[k][0]], p, Q[k][1..]))
  }

  /** Every node WalkNode reports passes the yield test. */
  lemma {:induction false} WalkNodeReports(tree: Tree, cfg: Config, n: Node, p: string)
    requires SubtreeWF(tree, n)
    ensures AllReportable(tree, cfg, n, p, WalkNode(tree, cfg, n, p))
    decreases n, |n.children| + 1
  {
    WalkChildrenReports(tree, cfg, n, |n.children|, p + EdgeLabel(tree, n));
    NodeReportsStep(tree, cfg, n, p);
  }

  lemma NodeReportsStep(tree: Tree, cfg: Config, n: Node, p: string)
    requires SubtreeWF(tree, n)
    requires ReportsBelow(tree, cfg, n, |n.children|, p + EdgeLabel(tree, n),
                          WalkChildren(tree, cfg, n, |n.children|, p + EdgeLabel(tree, n)))
    ensures AllReportable(tree, cfg, n, p, WalkNode(tree, cfg, n, p))
  {
    var below := WalkChildren(tree, cfg, n, |n.children|, p + EdgeLabel(tree, n));
    var emit := Emittable(cfg, Triple(p, EdgeLabel(tree, n), LeafCount(n))) && !(cfg.onlyMaximal && |below| > 0);
    WalkNodeSplit(tree, cfg, n, p);
    OwnReportable(tree, cfg, n, p, below, if emit then [[]] else []);
  }

  lemma OwnReportable(tree: Tree, cfg: Config, n: Node, p: string, below: seq<Path>, mine: seq<Path>)
    requires SubtreeWF(tree, n)
    requires ReportsBelow(tree, cfg, n, |n.children|, p + EdgeLabel(tree, n), below)
    requires mine == [] || (mine == [[]] && Emittable(cfg, Triple(p, EdgeLabel(tree, n), LeafCount(n))))
    ensures AllReportable(tree, cfg, n, p, below + mine)
  {
    var W := below + mine;
    forall k | 0 <= k < |W| ensures ValidPath(n, W[k]) && Emittable(cfg, Entry(tree, n, p, W[k])) {
      if k < |below| {
        assert W[k] == below[k];
        ReportedBelow(tree, cfg, n, p, below[k]);
      } else {
        assert W[k] == [];
        RootEntry(tree, n, p);
      }
    }
  }

  /** A path through a child, reported from that child, is reported from n. */
  lemma ReportedBelow(tree: Tree, cfg: Config, n: Node, p: string, q: Path)
    requires SubtreeWF(tree, n) && |q| > 0 && ValidPath(n, q)
    requires Emittable(cfg, Entry(tree, n.children[q[0]], p + EdgeLabel(tree, n), q[1..]))
    ensures Emittable(cfg, Entry(tree, n, p, q))
  {
    EntryShift(tree, n, p, q[0], q[1..]);
    assert [q[0]] + q[1..] == q;
  }

  /** The empty path reports n itself. */
  lemma RootEntry(tree: Tree, n: Node, p: string)
    requires SubtreeWF(tree, n)
    ensures Entry(tree, n, p, []) == Triple(p, EdgeLabel(tree, n), LeafCount(n))
  {
    assert p + "" == p;
  }

  lemma HeadsConcat(A: seq<Path>, B: seq<Path>, j: nat)
    requires 0 < j && HeadsAt(A, j - 1) && HeadsBelow(B, j - 1)
    ensures HeadsBelow(A + B, j)
  {
  }

  /** WalkChildren reports only nodes below the first j children, each
      passing the yield test. */
  lemma {:induction false} WalkChildrenReports(tree: Tree, cfg: Config, n: Node, j: nat, p: string)
    requires SubtreeWF(tree, n) && j <= |n.children|
    ensures ReportsBelow(tree, cfg, n, j, p, WalkChildren(tree, cfg, n, j, p))
    decreases n, j
  {
    if j > 0 {
      WalkNodeReports(tree, cfg, n.children[j - 1], p);
      WalkChildrenReports(tree, cfg, n, j - 1, p);
      ChildrenReportsStep(tree, cfg, n, j, p);
    }
  }

  lemma ChildrenReportsStep(tree: Tree, cfg: Config, n: Node, j: nat, p: string)
    requires SubtreeWF(tree, n) && 0 < j <= |n.children|
    requires ReportsBelow(tree, cfg, n, j - 1, p, WalkChildren(tree, cfg, n, j - 1, p))
    requires AllReportable(tree, cfg, n.children[j - 1], p, WalkNode(tree, cfg, n.children[j - 1], p))
    ensures ReportsBelow(tree, cfg, n, j, p, WalkChildren(tree, cfg, n, j, p))
  {
    WalkChildrenSplit(tree, cfg, n, j, p);
    ReportsJoin(tree, cfg, n, j, p, WalkNode(tree, cfg, n.children[j - 1], p), WalkChildren(tree, cfg, n, j - 1, p));
  }

  lemma ReportsJoin(tree: Tree, cfg: Config, n: Node, j: nat, p: string, W: seq<Path>, rest: seq<Path>)
    requires SubtreeWF(tree, n) && 0 < j <= |n.children|
    requires AllReportable(tree, cfg, n.children[j - 1], p, W)
    requires ReportsBelow(tree, cfg, n, j - 1, p, rest)
    ensures ReportsBelow(tree, cfg, n, j, p, Prepend(j - 1, W) + rest)
  {
    PrependReports(tree, cfg, n, j, p, W);
    ReportsBelowConcat(tree, cfg, n, j, p, Prepend(j - 1, W), rest);
  }

  /** WalkChildren's paths start with a child index below j. */
  lemma {:induction false} WalkChildrenHeads(tree: Tree, cfg: Config, n: Node, j: nat, p: string)
    requires SubtreeWF(tree, n) && j <= |n.children|
    ensures HeadsBelow(WalkChildren(tree, cfg, n, j, p), j)
    decreases j
  {
    if j > 0 {
      WalkChildrenHeads(tree, cfg, n, j - 1, p);
      ChildrenHeadsStep(tree, cfg, n, j, p);
    }
  }

  lemma ChildrenHeadsStep(tree: Tree, cfg: Config, n: Node, j: nat, p: string)
    requires SubtreeWF(tree, n) && 0 < j <= |n.children|
    requires HeadsBelow(WalkChildren(tree, cfg, n, j - 1, p), j - 1)
    ensures HeadsBelow(WalkChildren(tree, cfg, n, j, p), j)
  {
    var W := WalkNode(tree, cfg, n.children[j - 1], p);
    WalkChildrenSplit(tree, cfg, n, j, p);
    HeadsConcat(Prepend(j - 1, W), WalkChildren(tree, cfg, n, j - 1, p), j);
  }

  /** No node is reported twice. */
  lemma {:induction false} WalkNodeDistinct(tree: Tree, cfg: Config, n: Node, p: string)
    requires SubtreeWF(tree, n)
    ensures Distinct(WalkNode(tree, cfg, n, p))
    decreases n, |n.children| + 1
  {
    WalkChildrenDistinct(tree, cfg, n, |n.children|, p + EdgeLabel(tree, n));
    WalkChildrenHeads(tree, cfg, n, |n.children|, p + EdgeLabel(tree, n));
    NodeDistinctStep(tree, cfg, n, p);
  }

  lemma NodeDistinctStep(tree: Tree, cfg: Config, n: Node, p: string)
    requires SubtreeWF(tree, n)
    requires Distinct(WalkChildren(tree, cfg, n, |n.children|, p + EdgeLabel(tree, n)))
    requires HeadsBelow(WalkChildren(tree, cfg, n, |n.children|, p + EdgeLabel(tree, n)), |n.children|)
    ensures Distinct(WalkNode(tree, cfg, n, p))
  {
    var below := WalkChildren(tree, cfg, n, |n.children|, p + EdgeLabel(tree, n));
    var emit := Emittable(cfg, Triple(p, EdgeLabel(tree, n), LeafCount(n))) && !(cfg.onlyMaximal && |below| > 0);
    WalkNodeSplit(tree, cfg, n, p);
    DistinctOwn(below, |n.children|, if emit then [[]] else []);
  }

  lemma DistinctOwn(below: seq<Path>, j: nat, mine: seq<Path>)
    requires Distinct(below) && HeadsBelow(below, j) && (mine == [] || mine == [[]])
    ensures Distinct(below + mine)
  {
    var W := below + mine;
    forall a, b | 0 <= a < b < |W| ensures W[a] != W[b] {
      if b >= |below| { assert |W[a]| > 0 && W[b] == []; }
    }
  }

  lemma {:induction false} WalkChildrenDistinct(tree: Tree, cfg: Config, n: Node, j: nat, p: string)
    requires SubtreeWF(tree, n) && j <= |n.children|
    ensures Distinct(WalkChildren(tree, cfg, n, j, p))
    decreases n, j
  {
    if j > 0 {
      WalkNodeDistinct(tree, cfg, n.children[j - 1], p);
      WalkChildrenDistinct(tree, cfg, n, j - 1, p);
      WalkChildrenHeads(tree, cfg, n, j - 1, p);
      ChildrenDistinctStep(tree, cfg, n, j, p);
    }
  }

  lemma ChildrenDistinctStep(tree: Tree, cfg: Config, n: Node, j: nat, p: string)
    requires SubtreeWF(tree, n) && 0 < j <= |n.children|
    requires Distinct(WalkNode(tree, cfg, n.children[j - 1], p))
    requires Distinct(WalkChildren(tree, cfg, n, j - 1, p))
    requires HeadsBelow(WalkChildren(tree, cfg, n, j - 1, p), j - 1)
    ensures Distinct(WalkChildren(tree, cfg, n, j, p))
  {
    WalkChildrenSplit(tree, cfg, n, j, p);
    DistinctJoin(j, WalkNode(tree, cfg, n.children[j - 1], p), WalkChildren(tree, cfg, n, j - 1, p));
  }

  lemma DistinctJoin(j: nat, W: seq<Path>, rest: seq<Path>)
    requires 0 < j && Distinct(W) && Distinct(rest) && HeadsBelow(rest, j - 1)
    ensures Distinct(Prepend(j - 1, W) + rest)
  {
    var A := Prepend(j - 1, W);
    var C := A + rest;
    forall a, b | 0 <= a < b < |C| ensures C[a] != C[b] {
      if b < |A| {
        assert C[a][1..] == W[a] && C[b][1..] == W[b];
      } else if a < |A| {
        assert C[a][0] == j - 1 && C[b] == rest[b - |A|];
      } else {
        assert C[a] == rest[a - |A|] && C[b] == rest[b - |A|];
      }
    }
  }

  /** In maximal mode no reported node is a strict ancestor of another. */
  lemma {:induction false} WalkNodeAncestorFree(tree: Tree, cfg: Config, n: Node, p: string)
    requires SubtreeWF(tree, n) && cfg.onlyMaximal
    ensures AncestorFree(WalkNode(tree, cfg, n, p))
    decreases n, |n.children| + 1
  {
    WalkChildrenAncestorFree(tree, cfg, n, |n.children|, p + EdgeLabel(tree, n));
    NodeAncestorFreeStep(tree, cfg, n, p);
  }

  lemma NodeAncestorFreeStep(tree: Tree, cfg: Config, n: Node, p: string)
    requires SubtreeWF(tree, n) && cfg.onlyMaximal
    requires AncestorFree(WalkChildren(tree, cfg, n, |n.children|, p + EdgeLabel(tree, n)))
    ensures AncestorFree(WalkNode(tree, cfg, n, p))
  {
    var below := WalkChildren(tree, cfg, n, |n.children|, p + EdgeLabel(tree, n));
    WalkNodeSplit(tree, cfg, n, p);
    var emit := Emittable(cfg, Triple(p, EdgeLabel(tree, n), LeafCount(n))) && !(cfg.onlyMaximal && |below| > 0);
    if emit {
      assert WalkNode(tree, cfg, n, p) == [[]];
    } else {
      assert WalkNode(tree, cfg, n, p) == below;
    }
  }

  lemma {:induction false} WalkChildrenAncestorFree(tree: Tree, cfg: Config, n: Node, j: nat, p: string)
    requires SubtreeWF(tree, n) && j <= |n.children| && cfg.onlyMaximal
    ensures AncestorFree(WalkChildren(tree, cfg, n, j, p))
    decreases n, j
  {
    if j > 0 {
      WalkNodeAncestorFree(tree, cfg, n.children[j - 1], p);
      WalkChildrenAncestorFree(tree, cfg, n, j - 1, p);
      WalkChildrenHeads(tree, cfg, n, j - 1, p);
      ChildrenAncestorFreeStep(tree, cfg, n, j, p);
    }
  }

  lemma ChildrenAncestorFreeStep(tree: Tree, cfg: Config, n: Node, j: nat, p: string)
    requires SubtreeWF(tree, n) && 0 < j <= |n.children|
    requires AncestorFree(WalkNode(tree, cfg, n.children[j - 1], p))
    requires AncestorFree(WalkChildren(tree, cfg, n, j - 1, p))
    requires HeadsBelow(WalkChildren(tree, cfg, n, j - 1, p), j - 1)
    ensures AncestorFree(WalkChildren(tree, cfg, n, j, p))
  {
    WalkChildrenSplit(tree, cfg, n, j, p);
    AncestorFreeJoin(j, WalkNode(tree, cfg, n.children[j - 1], p), WalkChildren(tree, cfg, n, j - 1, p));
  }

  lemma AncestorFreeJoin(j: nat, W: seq<Path>, rest: seq<Path>)
    requires 0 < j && AncestorFree(W) && AncestorFree(rest) && HeadsBelow(rest, j - 1)
    ensures AncestorFree(Prepend(j - 1, W) + rest)
  {
    PrependAncestorFree(j - 1, W);
    AncestorFreeConcat(j, Prepend(j - 1, W), rest);
  }

  lemma PrependReports(tree: Tree, cfg: Config, n: Node, j: nat, p: string, W: seq<Path>)
    requires SubtreeWF(tree, n) && 0 < j <= |n.children|
    requires AllReportable(tree, cfg, n.children[j - 1], p, W)
    ensures ReportsBelow(tree, cfg, n, j, p, Prepend(j - 1, W))
  {
    var A := Prepend(j - 1, W);
    forall k | 0 <= k < |A|
      ensures |A[k]| > 0 && A[k][0] < j
      ensures ValidPath(n, A[k]) && Emittable(cfg, Entry(tree, n.children[A[k][0]], p, A[k][1..]))
    {
      assert A[k][0] == j - 1 && A[k][1..] == W[k];
    }
  }

  lemma ReportsBelowConcat(tree: Tree, cfg: Config, n: Node, j: nat, p: string, A: seq<Path>, B: seq<Path>)
    requires SubtreeWF(tree, n) && 0 < j <= |n.children|
    requires ReportsBelow(tree, cfg, n, j, p, A)
    requires ReportsBelow(tree, cfg, n, j - 1, p, B)
    ensures ReportsBelow(tree, cfg, n, j, p, A + B)
  {
    var C := A + B;
    forall k | 0 <= k < |C|
      ensures |C[k]| > 0 && C[k][0] < j
      ensures ValidPath(n, C[k]) && Emittable(cfg, Entry(tree, n.children[C[k][0]], p, C[k][1..]))
    {
      if k >= |A| { assert C[k] == B[k - |A|]; }
    }
  }

  lemma PrependAncestorFree(i: nat, W: seq<Path>)
    requires AncestorFree(W)
    ensures AncestorFree(Prepend(i, W))
  {
    var A := Prepend(i, W);
    forall a, b | 0 <= a < |A| && 0 <= b < |A| ensures !ProperPrefix(A[a], A[b]) {
      PrependProperPrefix(i, W[a], W[b]);
    }
  }

  /** Reports from child j-1 and from earlier children are never ancestor-related. */
  lemma AncestorFreeConcat(j: nat, A: seq<Path>, B: seq<Path>)
    requires 0 < j && HeadsAt(A, j - 1) && HeadsBelow(B, j - 1)
    requires AncestorFree(A) && AncestorFree(B)
    ensures AncestorFree(A + B)
  {
    var C := A + B;
    forall a, b | 0 <= a < |C| && 0 <= b < |C| ensures !ProperPrefix(C[a], C[b]) {
      if a < |A| && b < |A| {
        assert C[a] == A[a] && C[b] == A[b];
      } else if a >= |A| && b >= |A| {
        assert C[a] == B[a - |A|] && C[b] == B[b - |A|];
      } else {
        ProperPrefixHead(C[a], C[b]);
      }
    }
  }

  /** The nodes the traversal reports, as paths from the root. */
  function Emitted(tree: Tree, cfg: Config): seq<Path>
    requires TreeWF(tree)
  {
    WalkNode(tree, cfg, tree.root, "")
  }

  function Entries(tree: Tree, n: Node, p: string, Q: seq<Path>): seq<Triple>
    requires SubtreeWF(tree, n) && AllValid(n, Q)
  {
    seq(|Q|, i requires 0 <= i < |Q| => Entry(tree, n, p, Q[i]))
  }

  lemma EntriesConcat(tree: Tree, n: Node, p: string, A: seq<Path>, B: seq<Path>)
    requires SubtreeWF(tree, n) && AllValid(n, A) && AllValid(n, B)
    ensures AllValid(n, A + B)
    ensures Entries(tree, n, p, A + B) == Entries(tree, n, p, A) + Entries(tree, n, p, B)
  {
    var C := A + B;
    assert AllValid(n, C) by {
      forall k | 0 <= k < |C| ensures ValidPath(n, C[k]) {
        if k >= |A| { assert C[k] == B[k - |A|]; }
      }
    }
    var lhs, rhs := Entries(tree, n, p, C), Entries(tree, n, p, A) + Entries(tree, n, p, B);
    forall k | 0 <= k < |C| ensures lhs[k] == rhs[k] {
      if k >= |A| { assert C[k] == B[k - |A|]; }
    }
  }

  /** Reports of child i, seen from n, say what they say from the child with
      n's own label appended to the text above. */
  lemma EntriesPrepend(tree: Tree, n: Node, p: string, i: nat, Q: seq<Path>)
    requires SubtreeWF(tree, n) && i < |n.children| && AllValid(n.children[i], Q)
    ensures AllValid(n, Prepend(i, Q))
    ensures Entries(tree, n, p, Prepend(i, Q)) == Entries(tree, n.children[i], p + EdgeLabel(tree, n), Q)
  {
    var P := Prepend(i, Q);
    forall k | 0 <= k < |Q| ensures ValidPath(n, P[k]) && Entry(tree, n, p, P[k]) == Entry(tree, n.children[i], p + EdgeLabel(tree, n), Q[k]) {
      EntryShift(tree, n, p, i, Q[k]);
    }
  }

  /** WalkNode's reports, as triples: its children's, then its own if it
      passes the yield test and, in maximal mode, nothing below was reported. */
  lemma WalkNodeEntries(tree: Tree, cfg: Config, n: Node, p: string)
    requires SubtreeWF(tree, n)
    requires AllValid(n, WalkChildren(tree, cfg, n, |n.children|, p + EdgeLabel(tree, n)))
    ensures AllValid(n, WalkNode(tree, cfg, n, p))
    ensures
      var below := WalkChildren(tree, cfg, n, |n.children|, p + EdgeLabel(tree, n));
      var t := Triple(p, EdgeLabel(tree, n), LeafCount(n));
      var emit := Emittable(cfg, t) && !(cfg.onlyMaximal && |below| > 0);
      Entries(tree, n, p, WalkNode(tree, cfg, n, p)) == Entries(tree, n, p, below) + (if emit then [t] else [])
  {
    var below := WalkChildren(tree, cfg, n, |n.children|, p + EdgeLabel(tree, n));
    var t := Triple(p, EdgeLabel(tree, n), LeafCount(n));
    var emit := Emittable(cfg, t) && !(cfg.onlyMaximal && |below| > 0);
    var mine: seq<Path> := if emit then [[]] else [];
    WalkNodeSplit(tree, cfg, n, p);
    assert Entry(tree, n, p, []) == t;
    assert Entries(tree, n, p, mine) == if emit then [t] else [];
    EntriesConcat(tree, n, p, below, mine);
  }

  /** The triples yielded for the subtree of n, in order, when n's ancestors
      spell p, computed directly: the children's (last child first), then n's
      own triple if it passes the yield test and, in maximal mode, nothing
      below it was yielded. */
  function Yield(tree: Tree, cfg: Config, n: Node, p: string): seq<Triple>
    requires SubtreeWF(tree, n)
    decreases n, |n.children| + 1
  {
    var edge := EdgeLabel(tree, n);
    var below := YieldChildren(tree, cfg, n, |n.children|, p + edge);
    var t := Triple(p, edge, LeafCount(n));
    below + (if Emittable(cfg, t) && !(cfg.onlyMaximal && |below| > 0) then [t] else [])
  }

  /** The triples yielded for the first j children of n, the last of them
      first; p is the text above those children. */
  function YieldChildren(tree: Tree, cfg: Config, n: Node, j: nat, p: string): seq<Triple>
    requires SubtreeWF(tree, n) && j <= |n.children|
    decreases n, j
  {
    if j == 0 then [] else Yield(tree, cfg, n.children[j - 1], p) + YieldChildren(tree, cfg, n, j - 1, p)
  }

  lemma YieldSplit(tree: Tree, cfg: Config, n: Node, p: string)
    requires SubtreeWF(tree, n)
    ensures
      var below := YieldChildren(tree, cfg, n, |n.children|, p + EdgeLabel(tree, n));
      var t := Triple(p, EdgeLabel(tree, n), LeafCount(n));
      Yield(tree, cfg, n, p) == below + (if Emittable(cfg, t) && !(cfg.onlyMaximal && |below| > 0) then [t] else [])
  {
  }

  /** What is yielded is what is reported: one Entry per path of WalkNode. */
  lemma {:induction false} YieldIsEntries(tree: Tree, cfg: Config, n: Node, p: string)
    requires SubtreeWF(tree, n)
    ensures AllValid(n, WalkNode(tree, cfg, n, p))
    ensures Yield(tree, cfg, n, p) == Entries(tree, n, p, WalkNode(tree, cfg, n, p))
    decreases n, |n.children| + 1
  {
    YieldChildrenIsEntries(tree, cfg, n, |n.children|, p);
    YieldNodeStep(tree, cfg, n, p);
  }

  lemma YieldNodeStep(tree: Tree, cfg: Config, n: Node, p: string)
    requires SubtreeWF(tree, n)
    requires AllValid(n, WalkChildren(tree, cfg, n, |n.children|, p + EdgeLabel(tree, n)))
    requires YieldChildren(tree, cfg, n, |n.children|, p + EdgeLabel(tree, n))
          == Entries(tree, n, p, WalkChildren(tree, cfg, n, |n.children|, p + EdgeLabel(tree, n)))
    ensures AllValid(n, WalkNode(tree, cfg, n, p))
    ensures Yield(tree, cfg, n, p) == Entries(tree, n, p, WalkNode(tree, cfg, n, p))
  {
    YieldSplit(tree, cfg, n, p);
    WalkNodeEntries(tree, cfg, n, p);
  }

  lemma {:induction false} YieldChildrenIsEntries(tree: Tree, cfg: Config, n: Node, j: nat, p: string)
    requires SubtreeWF(tree, n) && j <= |n.children|
    ensures AllValid(n, WalkChildren(tree, cfg, n, j, p + EdgeLabel(tree, n)))
    ensures YieldChildren(tree, cfg, n, j, p + EdgeLabel(tree, n))
         == Entries(tree, n, p, WalkChildren(tree, cfg, n, j, p + EdgeLabel(tree, n)))
    decreases n, j
  {
    if j > 0 {
      YieldIsEntries(tree, cfg, n.children[j - 1], p + EdgeLabel(tree, n));
      YieldChildrenIsEntries(tree, cfg, n, j - 1, p);
      YieldChildrenStep(tree, cfg, n, j, p);
    }
  }

  lemma YieldChildrenStep(tree: Tree, cfg: Config, n: Node, j: nat, p: string)
    requires SubtreeWF(tree, n) && 0 < j <= |n.children|
    requires
      var pe := p + EdgeLabel(tree, n);
      var c := n.children[j - 1];
      && AllValid(c, WalkNode(tree, cfg, c, pe))
      && Yield(tree, cfg, c, pe) == Entries(tree, c, pe, WalkNode(tree, cfg, c, pe))
      && AllValid(n, WalkChildren(tree, cfg, n, j - 1, pe))
      && YieldChildren(tree, cfg, n, j - 1, pe) == Entries(tree, n, p, WalkChildren(tree, cfg, n, j - 1, pe))
    ensures AllValid(n, WalkChildren(tree, cfg, n, j, p + EdgeLabel(tree, n)))
    ensures YieldChildren(tree, cfg, n, j, p + EdgeLabel(tree, n))
         == Entries(tree, n, p, WalkChildren(tree, cfg, n, j, p + EdgeLabel(tree, n)))
  {
    var pe := p + EdgeLabel(tree, n);
    var W := WalkNode(tree, cfg, n.children[j - 1], pe);
    WalkChildrenSplit(tree, cfg, n, j, pe);
    EntriesPrepend(tree, n, p, j - 1, W);
    EntriesConcat(tree, n, p, Prepend(j - 1, W), WalkChildren(tree, cfg, n, j - 1, pe));
  }

  /** The triples the traversal yields, in order: one Entry per reported path. */
  function EngineSpec(tree: Tree, cfg: Config): seq<Triple>
    requires TreeWF(tree)
  {
    YieldIsEntries(tree, cfg, tree.root, "");
    Entries(tree, tree.root, "", Emitted(tree, cfg))
  }
}
