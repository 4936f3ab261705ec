/** The older traversal `_find_substrings` of src/freqsubs.py. It is the
    same explicit-stack walk as `_iter_substrings`, except that a frame holds
    no label (the label is recomputed from the node each time a frame is
    popped) and there is no length threshold. Each legacy frame stands for
    the engine frame carrying that recomputed label; with that reading every
    iteration of the legacy loop is an iteration of the engine's loop with a
    length threshold of 0, so the legacy traversal yields EngineSpec for
    that configuration. */
module Legacy {
  import opened Wrappers
  import opened Strings
  import opened SuffixTree
  import opened Traversal
  import opened Engine
  import opened Reports
  import opened Sorting
  import opened Api

  /** A stack entry `(node, level, is_pre_step)`. */
  datatype LegacyFrame = LegacyFrame(node: Node, level: int, pre: bool)

  /** `_find_substrings(tree, min_support, only_dominating_substrings)` has no
      length threshold: a threshold of 0 never rejects anything. */
  function LegacyConfig(minSupport: int, onlyDominating: bool): Config {
    Config(minSupport, 0, onlyDominating)
  }

  predicate LegacyStackWF(tree: Tree, stack: seq<LegacyFrame>) {
    forall i :: 0 <= i < |stack| ==> SubtreeWF(tree, stack[i].node) && Size(stack[i].node) <= Size(tree.root)
  }

  /** The engine frame a legacy frame stands for: its label is what
      `_edge_label(tree, node)` gives when the frame is popped. */
  function Lift(tree: Tree, f: LegacyFrame): Frame
    requires SubtreeWF(tree, f.node)
  {
    Frame(f.node, EdgeLabel(tree, f.node), f.level, f.pre)
  }

  function LiftAll(tree: Tree, stack: seq<LegacyFrame>): (r: seq<Frame>)
    requires LegacyStackWF(tree, stack)
    ensures |r| == |stack| && StackWF(tree, r)
  {
    seq(|stack|, i requires 0 <= i < |stack| => Lift(tree, stack[i]))
  }

  lemma LiftAllConcat(tree: Tree, a: seq<LegacyFrame>, b: seq<LegacyFrame>)
    requires LegacyStackWF(tree, a) && LegacyStackWF(tree, b)
    ensures LegacyStackWF(tree, a + b)
    ensures LiftAll(tree, a + b) == LiftAll(tree, a) + LiftAll(tree, b)
  {
    var c := a + b;
    forall i | 0 <= i < |c| ensures SubtreeWF(tree, c[i].node) && Size(c[i].node) <= Size(tree.root) {
      if i >= |a| { assert c[i] == b[i - |a|]; }
    }
    var l, r := LiftAll(tree, c), LiftAll(tree, a) + LiftAll(tree, b);
    forall i | 0 <= i < |c| ensures l[i] == r[i] {
      if i >= |a| { assert c[i] == b[i - |a|]; }
    }
  }

  lemma LiftAllDropLast(tree: Tree, stack: seq<LegacyFrame>)
    requires stack != [] && LegacyStackWF(tree, stack)
    ensures LegacyStackWF(tree, DropLast(stack))
    ensures LiftAll(tree, DropLast(stack)) == DropLast(LiftAll(tree, stack))
    ensures Lift(tree, Last(stack)) == Last(LiftAll(tree, stack))
  {
    var d := DropLast(stack);
    forall i | 0 <= i < |d| ensures SubtreeWF(tree, d[i].node) && Size(d[i].node) <= Size(tree.root) {
      assert d[i] == stack[i];
    }
  }

  /** `(child, level + 1, True) for child in node.children.values()`, for the first j children. */
  function LegacyChildFrames(n: Node, level: int, j: nat): (r: seq<LegacyFrame>)
    requires j <= |n.children|
    ensures |r| == j
  {
    if j == 0 then [] else LegacyChildFrames(n, level, j - 1) + [LegacyFrame(n.children[j - 1], level, true)]
  }

  /** The legacy children frames stand for the engine's children frames. */
  lemma {:induction false} LiftChildFrames(tree: Tree, n: Node, level: int, j: nat)
    requires SubtreeWF(tree, n) && Size(n) <= Size(tree.root) && j <= |n.children|
    ensures LegacyStackWF(tree, LegacyChildFrames(n, level, j))
    ensures LiftAll(tree, LegacyChildFrames(n, level, j)) == ChildFrames(tree, n, level, j)
  {
    if j > 0 {
      var c := n.children[j - 1];
      LiftChildFrames(tree, n, level, j - 1);
      ChildWF(tree, n, j - 1);
      ChildSizeLess(n, j - 1);
      var one := [LegacyFrame(c, level, true)];
      assert LiftAll(tree, one) == [Frame(c, EdgeLabel(tree, c), level, true)];
      LiftAllConcat(tree, LegacyChildFrames(n, level, j - 1), one);
    }
  }

  /** One iteration of the legacy `while stack:` loop: pop a frame, compute
      its label, then do the pre-step or the post-step. It is an iteration
      of the engine's loop on the lifted stack. */
  method LegacyIterate(tree: Tree, minSupport: int, onlyDominating: bool, stack: seq<LegacyFrame>,
                       freqAcc: seq<int>, pathLabels: seq<string>, childHasYielded: seq<bool>, prevLevel: int)
    returns (stack': seq<LegacyFrame>, freqAcc': seq<int>, pathLabels': seq<string>,
             childHasYielded': seq<bool>, prevLevel': int, yielded: seq<Triple>)
    requires stack != [] && LegacyStackWF(tree, stack)
    requires
      Step(tree, LegacyConfig(minSupport, onlyDominating),
           Machine(LiftAll(tree, stack), freqAcc, pathLabels, childHasYielded, prevLevel)).Some?
    ensures LegacyStackWF(tree, stack')
    ensures
      Step(tree, LegacyConfig(minSupport, onlyDominating),
           Machine(LiftAll(tree, stack), freqAcc, pathLabels, childHasYielded, prevLevel))
      == Some((Machine(LiftAll(tree, stack'), freqAcc', pathLabels', childHasYielded', prevLevel'), yielded))
  {
    LiftAllDropLast(tree, stack);
    var frame := stack[|stack| - 1];
    stack' := stack[..|stack| - 1];
    var edgeLabel := EdgeLabel(tree, frame.node);
    freqAcc', pathLabels', childHasYielded', prevLevel' := freqAcc, pathLabels, childHasYielded, prevLevel;
    yielded := [];
    if frame.pre {
      if frame.node != tree.root {
        var post := [LegacyFrame(frame.node, frame.level, false)];
        assert LiftAll(tree, post) == [Lift(tree, frame).(pre := false)];
        LiftAllConcat(tree, stack', post);
        stack' := stack' + post;
      }
      if |frame.node.children| > 0 {
        var children := LegacyChildFrames(frame.node, frame.level + 1, |frame.node.children|);
        LiftChildFrames(tree, frame.node, frame.level + 1, |frame.node.children|);
        LiftAllConcat(tree, stack', children);
        stack' := stack' + children;
        freqAcc' := freqAcc' + [0];
        pathLabels' := pathLabels' + [edgeLabel];
        childHasYielded' := childHasYielded' + [false];
      }
    } else {
      var freq := 0;
      var dominated := false;
      if frame.level < prevLevel {
        freq := freqAcc'[|freqAcc'| - 1];
        freqAcc' := freqAcc'[..|freqAcc'| - 1];
        pathLabels' := pathLabels'[..|pathLabels'| - 1];
        dominated := childHasYielded'[|childHasYielded'| - 1] && onlyDominating;
        childHasYielded' := childHasYielded'[..|childHasYielded'| - 1];
      } else if |frame.node.children| == 0 {
        freq := 1;
      }
      freqAcc' := freqAcc'[..|freqAcc'| - 1] + [freqAcc'[|freqAcc'| - 1] + freq];
      var text := Join(pathLabels');
      if freq >= minSupport && !dominated && edgeLabel != "" {
        childHasYielded' := AllTrue(|childHasYielded'|);
        yielded := [Triple(text, edgeLabel, freq)];
      }
      prevLevel' := frame.level;
    }
  }

  /** `_find_substrings(tree, min_support, only_dominating_substrings)`: the
      legacy explicit-stack traversal yields exactly EngineSpec with no length
      threshold. */
  method FindSubstringsTraversal(tree: Tree, minSupport: int, onlyDominatingSubstrings: bool)
    returns (out: seq<Triple>)
    requires TreeWF(tree)
    ensures out == EngineSpec(tree, LegacyConfig(minSupport, onlyDominatingSubstrings))
  {
    var cfg := LegacyConfig(minSupport, onlyDominatingSubstrings);
    var stack := [LegacyFrame(tree.root, 0, true)];
    var freqAcc: seq<int> := [];
    var pathLabels: seq<string> := [];
    var childHasYielded: seq<bool> := [];
    var prevLevel := -1;
    out := [];
    EngineRuns(tree, cfg);
    EdgeLabelSpec(tree, tree.root);
    assert LiftAll(tree, stack) == Init(tree).stack;
    while stack != []
      invariant LegacyStackWF(tree, stack)
      invariant Run(tree, cfg, Machine(LiftAll(tree, stack), freqAcc, pathLabels, childHasYielded, prevLevel)).Some?
      invariant out + Run(tree, cfg, Machine(LiftAll(tree, stack), freqAcc, pathLabels, childHasYielded, prevLevel)).value
                == EngineSpec(tree, cfg)
      decreases Measure(LiftAll(tree, stack))
    {
      RunSome(tree, cfg, Machine(LiftAll(tree, stack), freqAcc, pathLabels, childHasYielded, prevLevel));
      var yielded;
      stack, freqAcc, pathLabels, childHasYielded, prevLevel, yielded :=
        LegacyIterate(tree, minSupport, onlyDominatingSubstrings, stack, freqAcc, pathLabels, childHasYielded, prevLevel);
      out := out + yielded;
    }
  }

  /** The pairs of xs whose substring is at least minLength long, in order. */
  function LengthFilter(xs: seq<Counted>, minLength: int): seq<Counted> {
    if xs == [] then []
    else LengthFilter(xs[..|xs| - 1], minLength) + (if |xs[|xs| - 1].text| >= minLength then [xs[|xs| - 1]] else [])
  }

  /** A pair is kept exactly when it is in xs and long enough. */
  lemma {:induction false} LengthFilterSpec(xs: seq<Counted>, minLength: int)
    ensures |LengthFilter(xs, minLength)| <= |xs|
    ensures forall x :: x in LengthFilter(xs, minLength) <==> x in xs && |x.text| >= minLength
  {
    if xs != [] {
      var d := xs[..|xs| - 1];
      LengthFilterSpec(d, minLength);
      assert xs == d + [xs[|xs| - 1]];
    }
  }

  /** `find_frequent_substrings(inputs, min_support, min_length)` of
      src/freqsubs.py: the empty input gives no pairs; otherwise the pairs of
      the dominating traversal, prefix and suffix joined, that are at least
      min_length long. Every pair meets the thresholds. */
  method LegacyFindFrequentSubstrings(inputs: Inputs, minSupport: int, minLength: int, build: seq<string> -> Tree)
    returns (out: seq<Counted>)
    requires !IsEmptyInput(inputs) ==> TreeWF(build(Wrap(inputs)))
    ensures IsEmptyInput(inputs) ==> out == []
    ensures !IsEmptyInput(inputs) ==>
      out == LengthFilter(Joined(EngineSpec(build(Wrap(inputs)), LegacyConfig(minSupport, true))), minLength)
    ensures forall k :: 0 <= k < |out| ==> Frequent(out[k], minSupport, minLength)
  {
    if IsEmptyInput(inputs) {
      return [];
    }
    var tree := build(Wrap(inputs));
    var triples := FindSubstringsTraversal(tree, minSupport, true);
    out := [];
    for k := 0 to |triples|
      invariant out == LengthFilter(Joined(triples[..k]), minLength)
    {
      var t := triples[k];
      var text := t.text + t.edgeLabel;
      assert triples[..k + 1][..k] == triples[..k];
      assert Joined(triples[..k + 1])[..k] == Joined(triples[..k]);
      if |text| >= minLength {
        out := out + [Counted(text, t.freq)];
      }
    }
    assert triples[..|triples|] == triples;
    LegacyThresholds(tree, minSupport, minLength);
  }

  /** Every pair the legacy `find_frequent_substrings` keeps meets both thresholds. */
  lemma LegacyThresholds(tree: Tree, minSupport: int, minLength: int)
    requires TreeWF(tree)
    ensures var out := LengthFilter(Joined(EngineSpec(tree, LegacyConfig(minSupport, true))), minLength);
      forall k :: 0 <= k < |out| ==> Frequent(out[k], minSupport, minLength)
  {
    var J := Joined(EngineSpec(tree, LegacyConfig(minSupport, true)));
    var out := LengthFilter(J, minLength);
    JoinedReports(tree, LegacyConfig(minSupport, true));
    LengthFilterSpec(J, minLength);
    forall k | 0 <= k < |out| ensures Frequent(out[k], minSupport, minLength) {
      assert out[k] in out;
      var j :| 0 <= j < |J| && J[j] == out[k];
    }
  }

  /** `find_substrings(inputs)` of src/freqsubs.py: the empty input gives no
      pairs; otherwise every triple of the legacy traversal is expanded into
      one pair per prefix of its label. */
  method LegacyFindSubstrings(inputs: Inputs, build: seq<string> -> Tree) returns (out: seq<Counted>)
    requires !IsEmptyInput(inputs) ==> TreeWF(build(Wrap(inputs)))
    ensures IsEmptyInput(inputs) ==> out == []
    ensures !IsEmptyInput(inputs) ==> out == Expand(EngineSpec(build(Wrap(inputs)), LegacyConfig(1, false)))
  {
    if IsEmptyInput(inputs) {
      return [];
    }
    var tree := build(Wrap(inputs));
    var triples := FindSubstringsTraversal(tree, 1, false);
    out := [];
    for k := 0 to |triples|
      invariant out == Expand(triples[..k])
    {
      var t := triples[k];
      var ps := Prefixes(t.edgeLabel);
      var m := 0;
      while m < |ps|
        invariant 0 <= m <= |ps|
        invariant out == Expand(triples[..k]) + ExpandOne(t)[..m]
      {
        assert ExpandOne(t)[..m + 1] == ExpandOne(t)[..m] + [Counted(t.text + ps[m], t.freq)];
        out := out + [Counted(t.text + ps[m], t.freq)];
        m := m + 1;
      }
      assert triples[..k + 1][..k] == triples[..k];
      assert ExpandOne(t)[..m] == ExpandOne(t);
    }
    assert triples[..|triples|] == triples;
  }

  /** Without a length threshold the yield test is the one with threshold 1:
      a yielded label is never empty. */
  lemma LegacyTestIsLengthOne(minSupport: int, onlyDominating: bool)
    ensures SameTest(LegacyConfig(minSupport, onlyDominating), Config(minSupport, 1, onlyDominating))
  {
    forall t ensures Emittable(LegacyConfig(minSupport, onlyDominating), t)
                     <==> Emittable(Config(minSupport, 1, onlyDominating), t) {
      if t.edgeLabel != "" { assert |t.edgeLabel| >= 1; }
    }
  }

  /** Both versions of `find_substrings` return the same list. */
  lemma LegacySubstringsAgree(tree: Tree)
    requires TreeWF(tree)
    ensures Expand(EngineSpec(tree, LegacyConfig(1, false))) == Expand(EngineSpec(tree, AllConfig()))
  {
    LegacyTestIsLengthOne(1, false);
    SameTestSameSpec(tree, LegacyConfig(1, false), AllConfig());
  }

  /** Filtering the dominating traversal by length afterwards reports the
      same nodes as putting the length into the yield test: a node below
      another spells a longer string, so a length threshold never changes
      which of two related nodes is the maximal one. */
  lemma LegacyReportsMaximal(tree: Tree, minSupport: int, minLength: int, q: Path)
    requires TreeWF(tree) && ValidPath(tree.root, q)
    ensures (q in Emitted(tree, LegacyConfig(minSupport, true)) && |NodeString(tree, q).text| >= minLength)
            <==> q in Emitted(tree, FrequentConfig(minSupport, minLength))
  {
    var c0, c1 := LegacyConfig(minSupport, true), FrequentConfig(minSupport, minLength);
    ReportedIffMaximal(tree, c0, q);
    ReportedIffMaximal(tree, c1, q);
    var e := Entry(tree, tree.root, "", q);
    if q in Emitted(tree, c1) {
      forall d | ValidPath(tree.root, d) && ProperPrefix(q, d) ensures !Emittable(c0, Entry(tree, tree.root, "", d)) {
        PathTextGrows(tree, tree.root, q, d);
        assert !Emittable(c1, Entry(tree, tree.root, "", d));
      }
    }
  }

  /** The legacy `find_frequent_substrings` returns the same list of pairs,
      in the same order, as the traversal the current version feeds to its
      collector; in particular the same pairs. */
  lemma LegacyFrequentSamePairs(tree: Tree, minSupport: int, minLength: int)
    requires TreeWF(tree)
    ensures LengthFilter(Joined(EngineSpec(tree, LegacyConfig(minSupport, true))), minLength)
            == Joined(EngineSpec(tree, FrequentConfig(minSupport, minLength)))
    ensures forall x :: x in LengthFilter(Joined(EngineSpec(tree, LegacyConfig(minSupport, true))), minLength)
                        <==> x in Joined(EngineSpec(tree, FrequentConfig(minSupport, minLength)))
  {
    var c0, c1 := LegacyConfig(minSupport, true), FrequentConfig(minSupport, minLength);
    YieldIsEntries(tree, c0, tree.root, "");
    YieldIsEntries(tree, c1, tree.root, "");
    FilterYield(tree, minSupport, minLength, tree.root, "");
    JoinedLong(EngineSpec(tree, c0), minLength);
  }

  /** The triples whose text and label together are at least minLength long, in order. */
  function LongTriples(Y: seq<Triple>, minLength: int): seq<Triple> {
    if Y == [] then []
    else LongTriples(Y[..|Y| - 1], minLength)
         + (if |Y[|Y| - 1].text| + |Y[|Y| - 1].edgeLabel| >= minLength then [Y[|Y| - 1]] else [])
  }

  lemma {:induction false} LongTriplesConcat(A: seq<Triple>, B: seq<Triple>, minLength: int)
    ensures LongTriples(A + B, minLength) == LongTriples(A, minLength) + LongTriples(B, minLength)
    decreases |B|
  {
    if B == [] {
      assert A + B == A;
    } else {
      var b := B[..|B| - 1];
      assert (A + B)[..|A + B| - 1] == A + b;
      LongTriplesConcat(A, b, minLength);
    }
  }

  /** A list whose triples are all long enough passes the filter unchanged. */
  lemma {:induction false} LongTriplesAll(Y: seq<Triple>, minLength: int)
    requires forall i :: 0 <= i < |Y| ==> |Y[i].text| + |Y[i].edgeLabel| >= minLength
    ensures LongTriples(Y, minLength) == Y
  {
    if Y != [] {
      var d := Y[..|Y| - 1];
      LongTriplesAll(d, minLength);
      assert d + [Y[|Y| - 1]] == Y;
    }
  }

  /** Filtering joined pairs by length is filtering the triples before joining. */
  lemma {:induction false} JoinedLong(Y: seq<Triple>, minLength: int)
    ensures LengthFilter(Joined(Y), minLength) == Joined(LongTriples(Y, minLength))
  {
    if Y != [] {
      var d, t := Y[..|Y| - 1], Y[|Y| - 1];
      JoinedLong(d, minLength);
      assert Joined(Y) == Joined(d) + [JoinTriple(t)];
      assert Joined(Y)[..|Joined(Y)| - 1] == Joined(d);
      assert |JoinTriple(t).text| == |t.text| + |t.edgeLabel|;
      var L := LongTriples(d, minLength);
      assert LengthFilter(Joined(Y), minLength)
          == Joined(L) + (if |JoinTriple(t).text| >= minLength then [JoinTriple(t)] else []);
      if |t.text| + |t.edgeLabel| >= minLength {
        assert (L + [t])[..|L + [t]| - 1] == L;
        assert Joined(L + [t]) == Joined(L) + [JoinTriple(t)];
      } else {
        assert L + [] == L;
      }
    }
  }

  /** Every triple yielded below text p has a text at least as long as p. */
  lemma {:induction false} YieldTextLong(tree: Tree, cfg: Config, n: Node, p: string)
    requires SubtreeWF(tree, n)
    ensures forall t :: t in Yield(tree, cfg, n, p) ==> |t.text| >= |p|
    decreases n, |n.children| + 1
  {
    YieldChildrenTextLong(tree, cfg, n, |n.children|, p + EdgeLabel(tree, n));
  }

  lemma {:induction false} YieldChildrenTextLong(tree: Tree, cfg: Config, n: Node, j: nat, pe: string)
    requires SubtreeWF(tree, n) && j <= |n.children|
    ensures forall t :: t in YieldChildren(tree, cfg, n, j, pe) ==> |t.text| >= |pe|
    decreases n, j
  {
    if j > 0 {
      YieldTextLong(tree, cfg, n.children[j - 1], pe);
      YieldChildrenTextLong(tree, cfg, n, j - 1, pe);
    }
  }

  /** Filtering the dominating traversal's triples by length yields the
      traversal with the length in its yield test, subtree by subtree. */
  lemma {:induction false} FilterYield(tree: Tree, minSupport: int, minLength: int, n: Node, p: string)
    requires SubtreeWF(tree, n)
    ensures LongTriples(Yield(tree, LegacyConfig(minSupport, true), n, p), minLength)
            == Yield(tree, FrequentConfig(minSupport, minLength), n, p)
    decreases n, |n.children| + 1
  {
    var c0, c1 := LegacyConfig(minSupport, true), FrequentConfig(minSupport, minLength);
    var edge := EdgeLabel(tree, n);
    var pe := p + edge;
    var B0, B1 := YieldChildren(tree, c0, n, |n.children|, pe), YieldChildren(tree, c1, n, |n.children|, pe);
    var t := Triple(p, edge, LeafCount(n));
    FilterYieldChildren(tree, minSupport, minLength, n, |n.children|, pe);
    YieldSplit(tree, c0, n, p);
    YieldSplit(tree, c1, n, p);
    var E0: seq<Triple> := if Emittable(c0, t) && |B0| == 0 then [t] else [];
    LongTriplesConcat(B0, E0, minLength);
    if |p| + |edge| >= minLength {
      YieldChildrenTextLong(tree, c0, n, |n.children|, pe);
      forall i | 0 <= i < |B0| ensures |B0[i].text| + |B0[i].edgeLabel| >= minLength {
        assert B0[i] in B0;
      }
      LongTriplesAll(B0, minLength);
      LongTriplesAll(E0, minLength);
    } else {
      assert LongTriples(E0, minLength) == [];
    }
  }

  lemma {:induction false} FilterYieldChildren(tree: Tree, minSupport: int, minLength: int, n: Node, j: nat, pe: string)
    requires SubtreeWF(tree, n) && j <= |n.children|
    ensures LongTriples(YieldChildren(tree, LegacyConfig(minSupport, true), n, j, pe), minLength)
            == YieldChildren(tree, FrequentConfig(minSupport, minLength), n, j, pe)
    decreases n, j
  {
    if j > 0 {
      var c0, c1 := LegacyConfig(minSupport, true), FrequentConfig(minSupport, minLength);
      var child := n.children[j - 1];
      var A0, R0 := Yield(tree, c0, child, pe), YieldChildren(tree, c0, n, j - 1, pe);
      assert YieldChildren(tree, c0, n, j, pe) == A0 + R0;
      assert YieldChildren(tree, c1, n, j, pe) == Yield(tree, c1, child, pe) + YieldChildren(tree, c1, n, j - 1, pe);
      FilterYield(tree, minSupport, minLength, child, pe);
      FilterYieldChildren(tree, minSupport, minLength, n, j - 1, pe);
      LongTriplesConcat(A0, R0, minLength);
    }
  }

  lemma LegacyPairsAreCurrent(tree: Tree, minSupport: int, minLength: int)
    requires TreeWF(tree)
    ensures forall x :: x in Joined(EngineSpec(tree, LegacyConfig(minSupport, true))) && |x.text| >= minLength
                        ==> x in Joined(EngineSpec(tree, FrequentConfig(minSupport, minLength)))
  {
    var c0, c1 := LegacyConfig(minSupport, true), FrequentConfig(minSupport, minLength);
    var Q0, Q1 := Emitted(tree, c0), Emitted(tree, c1);
    var J0, J1 := Joined(EngineSpec(tree, c0)), Joined(EngineSpec(tree, c1));
    JoinedReports(tree, c0);
    JoinedReports(tree, c1);
    forall x | x in J0 && |x.text| >= minLength ensures x in J1 {
      var k :| 0 <= k < |J0| && J0[k] == x;
      assert Q0[k] in Q0;
      LegacyReportsMaximal(tree, minSupport, minLength, Q0[k]);
      var j :| 0 <= j < |Q1| && Q1[j] == Q0[k];
      assert J1[j] == x;
    }
  }

  lemma CurrentPairsAreLegacy(tree: Tree, minSupport: int, minLength: int)
    requires TreeWF(tree)
    ensures forall x :: x in Joined(EngineSpec(tree, FrequentConfig(minSupport, minLength)))
                        ==> x in Joined(EngineSpec(tree, LegacyConfig(minSupport, true))) && |x.text| >= minLength
  {
    var c0, c1 := LegacyConfig(minSupport, true), FrequentConfig(minSupport, minLength);
    var Q0, Q1 := Emitted(tree, c0), Emitted(tree, c1);
    var J0, J1 := Joined(EngineSpec(tree, c0)), Joined(EngineSpec(tree, c1));
    JoinedReports(tree, c0);
    JoinedReports(tree, c1);
    forall x | x in J1 ensures x in J0 && |x.text| >= minLength {
      var j :| 0 <= j < |J1| && J1[j] == x;
      assert Q1[j] in Q1;
      LegacyReportsMaximal(tree, minSupport, minLength, Q1[j]);
      var k :| 0 <= k < |Q0| && Q0[k] == Q1[j];
      assert J0[k] == x;
    }
  }
}
