/** The public functions of freqsubs/freqsubs.py: `find_frequent_substrings`
    (maximal frequent substrings, by a traversal in maximal mode followed by
    the suffix-dominance collector) and `find_substrings` (every substring
    with its frequency, by expanding each reported node's label into its
    prefixes), plus `_substrings_from_tree`. The suffix tree is built by the
    function `build`, which the caller supplies. */
module FreqSubs {
  import opened Strings
  import opened SuffixTree
  import opened Traversal
  import opened Reports
  import opened Engine
  import opened Sorting
  import opened Collector
  import opened Api

  /** `_substrings_from_tree(inputs, min_support, min_length)`: one pair per
      triple of the maximal-mode traversal, prefix and suffix joined. */
  method SubstringsFromTree(texts: seq<string>, minSupport: int, minLength: int, build: seq<string> -> Tree)
    returns (pairs: seq<Counted>)
    requires TreeWF(build(texts))
    ensures pairs == Joined(EngineSpec(build(texts), FrequentConfig(minSupport, minLength)))
    ensures forall k :: 0 <= k < |pairs| ==> Frequent(pairs[k], minSupport, minLength)
  {
    var tree := build(texts);
    var triples := IterSubstrings(tree, minSupport, minLength, true);
    pairs := [];
    for k := 0 to |triples|
      invariant pairs == Joined(triples[..k])
    {
      assert triples[..k + 1][..k] == triples[..k];
      pairs := pairs + [JoinTriple(triples[k])];
    }
    assert triples[..|triples|] == triples;
    JoinedReports(tree, FrequentConfig(minSupport, minLength));
  }

  /** Every entry of out is an entry of xs. */
  lemma SubMultisetMember(xs: seq<Counted>, out: seq<Counted>, k: nat)
    requires multiset(out) <= multiset(xs) && k < |out|
    ensures exists j :: 0 <= j < |xs| && xs[j] == out[k]
  {
    assert out[k] in multiset(out);
    assert out[k] in multiset(xs);
    assert out[k] in xs;
  }

  /** `find_frequent_substrings(inputs, min_support, min_length)`: the empty
      input gives no pairs; otherwise the collector's result on the
      maximal-mode pairs. Every pair meets the thresholds, the list is sorted
      by reversed substring, and no substring in it ends another. */
  method FindFrequentSubstrings(inputs: Inputs, minSupport: int, minLength: int, build: seq<string> -> Tree)
    returns (out: seq<Counted>)
    requires !IsEmptyInput(inputs) ==> TreeWF(build(Wrap(inputs)))
    ensures IsEmptyInput(inputs) ==> out == []
    ensures !IsEmptyInput(inputs) ==>
      out == CollectAll(Joined(EngineSpec(build(Wrap(inputs)), FrequentConfig(minSupport, minLength))))
    ensures forall k :: 0 <= k < |out| ==> Frequent(out[k], minSupport, minLength)
    ensures Sorted(ByReversedText, out) && SuffixFree(out)
  {
    if IsEmptyInput(inputs) {
      return [];
    }
    var texts := Wrap(inputs);
    var pairs := SubstringsFromTree(texts, minSupport, minLength, build);
    out := CollectMaximalSubstrings(pairs);
    forall k | 0 <= k < |out| ensures Frequent(out[k], minSupport, minLength) {
      SubMultisetMember(pairs, out, k);
    }
  }

  /** Every entry of out is the string of a node the traversal reported. */
  ghost predicate FromReports(tree: Tree, cfg: Config, out: seq<Counted>)
    requires TreeWF(tree)
  {
    forall k :: 0 <= k < |out| ==>
      exists q :: q in Emitted(tree, cfg) && ValidPath(tree.root, q) && out[k] == NodeString(tree, q)
  }

  /** Every pair `find_frequent_substrings` returns on a non-empty input is
      the string of a node reported in maximal mode: a node passing the
      thresholds with no passing node below it. */
  lemma FrequentFromMaximal(tree: Tree, minSupport: int, minLength: int)
    requires TreeWF(tree)
    ensures var cfg := FrequentConfig(minSupport, minLength);
      FromReports(tree, cfg, CollectAll(Joined(EngineSpec(tree, cfg))))
  {
    var cfg := FrequentConfig(minSupport, minLength);
    var J := Joined(EngineSpec(tree, cfg));
    CollectAllContents(J);
    AllDrawnFromReports(tree, cfg, CollectAll(J));
  }

  /** Every entry drawn from the joined pairs is the string of a reported node. */
  lemma AllDrawnFromReports(tree: Tree, cfg: Config, out: seq<Counted>)
    requires TreeWF(tree) && multiset(out) <= multiset(Joined(EngineSpec(tree, cfg)))
    ensures FromReports(tree, cfg, out)
  {
    forall k | 0 <= k < |out|
      ensures exists q :: q in Emitted(tree, cfg) && ValidPath(tree.root, q) && out[k] == NodeString(tree, q)
    {
      DrawnFromReports(tree, cfg, out, k);
    }
  }

  /** An entry drawn from the joined pairs is the string of a reported node. */
  lemma DrawnFromReports(tree: Tree, cfg: Config, out: seq<Counted>, k: nat)
    requires TreeWF(tree) && multiset(out) <= multiset(Joined(EngineSpec(tree, cfg))) && k < |out|
    ensures exists q :: q in Emitted(tree, cfg) && ValidPath(tree.root, q) && out[k] == NodeString(tree, q)
  {
    var Q, J := Emitted(tree, cfg), Joined(EngineSpec(tree, cfg));
    JoinedReports(tree, cfg);
    SubMultisetMember(J, out, k);
    var j :| 0 <= j < |J| && J[j] == out[k];
    assert Q[j] in Q;
  }

  /** The string of every node reported in maximal mode is a suffix of a
      substring `find_frequent_substrings` returns. */
  lemma MaximalDominated(tree: Tree, minSupport: int, minLength: int)
    requires TreeWF(tree)
    ensures var cfg := FrequentConfig(minSupport, minLength);
      var out := CollectAll(Joined(EngineSpec(tree, cfg)));
      forall q :: q in Emitted(tree, cfg) && ValidPath(tree.root, q) ==> Dominated(NodeString(tree, q).text, out)
  {
    var cfg := FrequentConfig(minSupport, minLength);
    var Q, J := Emitted(tree, cfg), Joined(EngineSpec(tree, cfg));
    var out := CollectAll(J);
    JoinedReports(tree, cfg);
    CollectAllDominates(J);
    forall q | q in Q && ValidPath(tree.root, q) ensures Dominated(NodeString(tree, q).text, out) {
      var j :| 0 <= j < |Q| && Q[j] == q;
      assert J[j] == NodeString(tree, q);
    }
  }

  /** `find_substrings(inputs)`: the empty input gives no pairs; otherwise
      every triple of the full traversal is expanded into one pair per
      prefix of its label. */
  method FindSubstrings(inputs: Inputs, build: seq<string> -> Tree) returns (out: seq<Counted>)
    requires !IsEmptyInput(inputs) ==> TreeWF(build(Wrap(inputs)))
    ensures IsEmptyInput(inputs) ==> out == []
    ensures !IsEmptyInput(inputs) ==> out == Expand(EngineSpec(build(Wrap(inputs)), AllConfig()))
  {
    if IsEmptyInput(inputs) {
      return [];
    }
    var texts := Wrap(inputs);
    var tree := build(texts);
    var triples := IterSubstrings(tree, 1, 1, false);
    out := [];
    for k := 0 to |triples|
      invariant out == Expand(triples[..k])
    {
      var t := triples[k];
      var ps := Prefixes(t.edgeLabel);
      var m := 0;
      while m < |ps|
        invariant 0 <= m <= |ps|
        invariant out == Expand(triples[..k]) + ExpandOne(t)[..m]
      {
        assert ExpandOne(t)[..m + 1] == ExpandOne(t)[..m] + [Counted(t.text + ps[m], t.freq)];
        out := out + [Counted(t.text + ps[m], t.freq)];
        m := m + 1;
      }
      assert triples[..k + 1][..k] == triples[..k];
      assert ExpandOne(t)[..m] == ExpandOne(t);
    }
    assert triples[..|triples|] == triples;
  }

  /** What `find_substrings` returns on a non-empty input: exactly the pairs
      `(text through the first m characters of a node's label, leaf count of
      the node)`, over every node and every 0 < m <= len(label); the list is
      as long as the labels of the traversal's triples (one per node) are
      long together, so each node and m contribute one entry. */
  lemma AllSubstrings(tree: Tree)
    requires TreeWF(tree)
    ensures var Y := EngineSpec(tree, AllConfig());
      && |Y| == |Emitted(tree, AllConfig())|
      && |Expand(Y)| == LabelTotal(Y)
      && (forall o :: o in Expand(Y) ==>
            exists q, m :: ValidPath(tree.root, q) && 0 < m <= |Entry(tree, tree.root, "", q).edgeLabel|
                           && o == NodePrefix(tree, q, m))
      && (forall q, m :: ValidPath(tree.root, q) && 0 < m <= |Entry(tree, tree.root, "", q).edgeLabel|
            ==> NodePrefix(tree, q, m) in Expand(Y))
  {
    var cfg := AllConfig();
    var Q, Y := Emitted(tree, cfg), EngineSpec(tree, cfg);
    EngineSpecSound(tree, cfg);
    ExpandSpec(Y);
    forall o | o in Expand(Y)
      ensures exists q, m :: ValidPath(tree.root, q) && 0 < m <= |Entry(tree, tree.root, "", q).edgeLabel|
                             && o == NodePrefix(tree, q, m)
    {
      var k, m :| 0 <= k < |Y| && 0 < m <= |Y[k].edgeLabel| && o == PrefixPair(Y[k], m);
      assert o == NodePrefix(tree, Q[k], m);
    }
    forall q, m | ValidPath(tree.root, q) && 0 < m <= |Entry(tree, tree.root, "", q).edgeLabel|
      ensures NodePrefix(tree, q, m) in Expand(Y)
    {
      ReportedIffEmittable(tree, cfg, q);
      var k :| 0 <= k < |Q| && Q[k] == q;
      assert PrefixPair(Y[k], m) == NodePrefix(tree, q, m);
    }
  }
}
