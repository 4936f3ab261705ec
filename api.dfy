/** What both versions of the public functions share: the input handling of
    `find_substrings` / `find_frequent_substrings` (the empty-input short
    circuit and the wrapping of a single string), `_prefixes` / `prefixes`,
    and the two ways a yielded `(prefix, suffix, freq)` triple becomes
    `(substring, frequency)` pairs. The suffix tree is built by a function
    the caller supplies: its construction is not part of this model. */
module Api {
  import opened Strings
  import opened Sorting
  import opened SuffixTree
  import opened Traversal
  import opened Reports

  /** The `inputs` argument: a single `str` or a list of them. */
  datatype Inputs = Text(s: string) | Texts(ss: seq<string>)

  /** `inputs == '' or inputs == []` */
  predicate IsEmptyInput(inputs: Inputs) {
    inputs == Text("") || inputs == Texts([])
  }

  /** A single string is taken as a list holding just that string. */
  function Wrap(inputs: Inputs): seq<string> {
    match inputs
    case Text(s) => [s]
    case Texts(ss) => ss
  }

  /** An input that passes the empty check gives a non-empty list, and a
      single string that passes it is not empty. */
  lemma WrapSpec(inputs: Inputs)
    ensures !IsEmptyInput(inputs) ==> |Wrap(inputs)| > 0
    ensures !IsEmptyInput(inputs) && inputs.Text? ==> Wrap(inputs)[0] != ""
  {
  }

  /** `_prefixes(s)` / `prefixes(s)`: `s[:1], s[:2], ..., s[:len(s)]`. */
  function Prefixes(s: string): (r: seq<string>)
    ensures |r| == |s|
  {
    seq(|s|, i requires 0 <= i < |s| => s[..i + 1])
  }

  /** The i-th item is the prefix of length i + 1; the items grow strictly,
      each a prefix of the next; the last is s itself; and the items are
      exactly the non-empty prefixes of s. */
  lemma PrefixesSpec(s: string)
    ensures forall i :: 0 <= i < |s| ==> |Prefixes(s)[i]| == i + 1 && IsPrefix(Prefixes(s)[i], s)
    ensures forall i, j :: 0 <= i < j < |s| ==>
      |Prefixes(s)[i]| < |Prefixes(s)[j]| && IsPrefix(Prefixes(s)[i], Prefixes(s)[j])
    ensures |s| > 0 ==> Prefixes(s)[|s| - 1] == s
    ensures forall p :: p in Prefixes(s) <==> p != "" && IsPrefix(p, s)
  {
    var r := Prefixes(s);
    forall i, j | 0 <= i < j < |s| ensures IsPrefix(r[i], r[j]) {
      assert r[j][..i + 1] == s[..i + 1];
    }
    forall p | p != "" && IsPrefix(p, s) ensures p in r {
      assert r[|p| - 1] == p;
    }
  }

  /** The pairs `find_substrings` makes of one triple: `(prefix + s, freq)`
      for every `s` in `_prefixes(suffix)`. */
  function ExpandOne(t: Triple): (r: seq<Counted>)
    ensures |r| == |t.edgeLabel|
  {
    seq(|t.edgeLabel|, i requires 0 <= i < |t.edgeLabel| => Counted(t.text + Prefixes(t.edgeLabel)[i], t.freq))
  }

  /** The pairs of all triples, in order. */
  function Expand(Y: seq<Triple>): seq<Counted> {
    if Y == [] then [] else Expand(Y[..|Y| - 1]) + ExpandOne(Y[|Y| - 1])
  }

  /** Total length of the edge labels. */
  function LabelTotal(Y: seq<Triple>): nat {
    if Y == [] then 0 else LabelTotal(Y[..|Y| - 1]) + |Y[|Y| - 1].edgeLabel|
  }

  /** The pair `find_substrings` makes of triple t and prefix length m. */
  function PrefixPair(t: Triple, m: nat): Counted
    requires 0 < m <= |t.edgeLabel|
  {
    Counted(t.text + t.edgeLabel[..m], t.freq)
  }

  lemma ExpandOneSpec(t: Triple)
    ensures forall m :: 0 < m <= |t.edgeLabel| ==> ExpandOne(t)[m - 1] == PrefixPair(t, m)
  {
    forall m | 0 < m <= |t.edgeLabel| ensures ExpandOne(t)[m - 1] == PrefixPair(t, m) {
      assert Prefixes(t.edgeLabel)[m - 1] == t.edgeLabel[..m];
    }
  }

  /** Expanding gives one pair per prefix length of every label: each pair is
      `(text + label[:m], freq)` of some triple with 0 < m <= len(label),
      and each such pair is there. */
  lemma ExpandSpec(Y: seq<Triple>)
    ensures |Expand(Y)| == LabelTotal(Y)
    ensures forall o :: o in Expand(Y) ==>
      exists k, m :: 0 <= k < |Y| && 0 < m <= |Y[k].edgeLabel| && o == PrefixPair(Y[k], m)
    ensures forall k, m :: 0 <= k < |Y| && 0 < m <= |Y[k].edgeLabel| ==> PrefixPair(Y[k], m) in Expand(Y)
  {
    ExpandLength(Y);
    forall o | o in Expand(Y)
      ensures exists k, m :: 0 <= k < |Y| && 0 < m <= |Y[k].edgeLabel| && o == PrefixPair(Y[k], m)
    {
      ExpandDrawn(Y, o);
    }
    forall k, m | 0 <= k < |Y| && 0 < m <= |Y[k].edgeLabel| ensures PrefixPair(Y[k], m) in Expand(Y) {
      ExpandHas(Y, k, m);
    }
  }

  lemma {:induction false} ExpandLength(Y: seq<Triple>)
    ensures |Expand(Y)| == LabelTotal(Y)
  {
    if Y != [] {
      ExpandLength(Y[..|Y| - 1]);
    }
  }

  /** Every expanded pair comes from some triple and prefix length. */
  lemma {:induction false} ExpandDrawn(Y: seq<Triple>, o: Counted)
    requires o in Expand(Y)
    ensures exists k, m :: 0 <= k < |Y| && 0 < m <= |Y[k].edgeLabel| && o == PrefixPair(Y[k], m)
  {
    var d, t := Y[..|Y| - 1], Y[|Y| - 1];
    if o in Expand(d) {
      ExpandDrawn(d, o);
      var k, m :| 0 <= k < |d| && 0 < m <= |d[k].edgeLabel| && o == PrefixPair(d[k], m);
      assert Y[k] == d[k];
    } else {
      var B := ExpandOne(t);
      assert o in B;
      var i :| 0 <= i < |B| && B[i] == o;
      ExpandOneSpec(t);
      assert o == PrefixPair(Y[|Y| - 1], i + 1);
    }
  }

  /** Every triple and prefix length gives an expanded pair. */
  lemma {:induction false} ExpandHas(Y: seq<Triple>, k: nat, m: nat)
    requires k < |Y| && 0 < m <= |Y[k].edgeLabel|
    ensures PrefixPair(Y[k], m) in Expand(Y)
  {
    var d, t := Y[..|Y| - 1], Y[|Y| - 1];
    assert Expand(Y) == Expand(d) + ExpandOne(t);
    if k < |d| {
      assert Y[k] == d[k];
      ExpandHas(d, k, m);
    } else {
      ExpandOneSpec(t);
      assert ExpandOne(t)[m - 1] == PrefixPair(Y[k], m);
    }
  }

  /** The pair `_substrings_from_tree` makes of one triple: `(prefix + suffix, freq)`. */
  function JoinTriple(t: Triple): Counted {
    Counted(t.text + t.edgeLabel, t.freq)
  }

  /** The pairs of all triples, in order. */
  function Joined(Y: seq<Triple>): (r: seq<Counted>)
    ensures |r| == |Y|
  {
    if Y == [] then [] else Joined(Y[..|Y| - 1]) + [JoinTriple(Y[|Y| - 1])]
  }

  /** The k-th pair joins the k-th triple. */
  lemma {:induction false} JoinedSpec(Y: seq<Triple>)
    ensures forall k :: 0 <= k < |Y| ==> Joined(Y)[k] == Counted(Y[k].text + Y[k].edgeLabel, Y[k].freq)
  {
    if Y != [] {
      var d := Y[..|Y| - 1];
      JoinedSpec(d);
      assert forall k :: 0 <= k < |d| ==> Joined(Y)[k] == Joined(d)[k] && Y[k] == d[k];
    }
  }

  /** The traversal `find_frequent_substrings` asks for. */
  function FrequentConfig(minSupport: int, minLength: int): Config {
    Config(minSupport, minLength, true)
  }

  /** `_iter_substrings(tree)` with its default arguments. */
  function AllConfig(): Config {
    Config(1, 1, false)
  }

  /** A pair that meets the thresholds of `find_frequent_substrings`. */
  predicate Frequent(c: Counted, minSupport: int, minLength: int) {
    c.freq >= minSupport && |c.text| >= minLength && c.text != ""
  }

  /** The pair made of the node at q: the text from the root through its own
      label, and its leaf count. */
  function NodeString(tree: Tree, q: Path): Counted
    requires TreeWF(tree) && ValidPath(tree.root, q)
  {
    JoinTriple(Entry(tree, tree.root, "", q))
  }

  /** The pair made of the node at q and the first m characters of its label. */
  function NodePrefix(tree: Tree, q: Path, m: nat): Counted
    requires TreeWF(tree) && ValidPath(tree.root, q) && 0 < m <= |Entry(tree, tree.root, "", q).edgeLabel|
  {
    PrefixPair(Entry(tree, tree.root, "", q), m)
  }

  /** The k-th joined pair is the string of the k-th reported node, and it
      meets the thresholds the traversal was given. */
  lemma JoinedReports(tree: Tree, cfg: Config)
    requires TreeWF(tree)
    ensures var Q := Emitted(tree, cfg); var J := Joined(EngineSpec(tree, cfg));
      && |J| == |Q|
      && forall k :: 0 <= k < |J| ==>
           ValidPath(tree.root, Q[k]) && J[k] == NodeString(tree, Q[k]) && Frequent(J[k], cfg.minSupport, cfg.minLength)
  {
    EngineSpecSound(tree, cfg);
    JoinedSpec(EngineSpec(tree, cfg));
  }
}
