# frequent-substrings in Dafny

A model of `frequent-substrings`, a library that lists the substrings of one or more texts together with their frequencies. The frequency of a substring is its number of overlapping occurrences. The library reads both off a generalized suffix tree.

The model covers three parts of the repository.

- **freqsubs/freqsubs.py**, the current version.
  - `_iter_substrings` walks the tree in post-order without recursion. It keeps an explicit stack of frames and three per-depth lists (`freq_acc`, `path_labels`, `child_has_yielded`). It yields `(prefix, edge_label, freq)` for each node that passes a support threshold and a length threshold. In "maximal prefixes" mode it also skips any node that has a yielded node below it.
  - `_collect_maximal_substrings` keeps a list sorted by reversed substring. It drops every candidate that is a suffix of another.
  - `find_substrings` and `find_frequent_substrings` wrap the traversal. So do `_substrings_from_tree`, `_prefixes`, `_edge_label` and `_reversed_substring`.
- **src/freqsubs.py**, the earlier version.
  - `_find_substrings` is the same stack traversal with no length threshold. It computes a node's label when the frame is popped.
  - Its `find_frequent_substrings` filters by length after the traversal and has no suffix pass.
- **tests/utils.py**, the brute-force oracles: `count_overlapping`, `find_substrings_slow`, `find_frequent_substrings_slow` and `reversed_string`.

The suffix tree is an immutable input value: `SuffixTree.Tree`.
- Each node records the slice of an input string that labels its incoming edge.
- A leaf is a node without children.
- A node's children are a sequence, in the order `node.children.values()` gives them.
- The public functions take the tree builder as a parameter `build`.

How the traversal is modelled:
- It is a `while` loop over the same five loop variables as the source: `Engine.IterSubstrings`, and `Legacy.FindSubstringsTraversal` for the earlier version.
- One pass of the loop body is the method `Engine.Iterate`. It is proved equal to the function `Engine.Step`.
- The whole run is `Engine.Run`. It is proved equal to the recursive post-order `Traversal.EngineSpec`. That function lists, for every reported node, the text above the node, the node's own label and its leaf count.
- `Reports` characterises which nodes are reported:
  - without maximal mode, exactly the nodes that pass the yield test;
  - in maximal mode, exactly the nodes that pass it and have no passing node below them.

The collector is a `for` loop over a sorted `seq`. It is proved against the function `Collector.CollectAll`. Its invariant is that the list stays sorted by reversed substring and that no kept substring is a suffix of another.

The oracles are stated over plain strings. For example, `Oracles.SlowFrequent` is the set of substrings that meet both thresholds and are not a proper prefix or suffix of another such substring.

## Model

| member | source | states |
|---|---|---|
| Api.WrapSpec | freqsubs/freqsubs.py:24-28 | an input that passes the `'' / []` test is a non-empty list, and a single string that passes it is not empty; src/freqsubs.py:21-25 does the same |
| Api.PrefixesSpec | freqsubs/freqsubs.py:133-135 | `_prefixes(s)` has `len(s)` items. The i-th item is `s[:i+1]`. The items grow strictly, each is a prefix of the next, and the last is `s`. The items are exactly the non-empty prefixes of `s`; `prefixes` in src/freqsubs.py:122-124 is the same function |
| Api.ExpandSpec | freqsubs/freqsubs.py:60-62 | expanding the triples gives one pair per prefix length of every label. Each pair is `(prefix + label[:m], freq)` of some triple with `0 < m <= len(label)`, every such pair occurs, and the length is the total label length |
| Api.JoinedSpec | freqsubs/freqsubs.py:36-37 | the k-th pair is `(prefix + suffix, freq)` of the k-th triple |
| Api.JoinedReports | freqsubs/freqsubs.py:34-37 | the k-th joined pair is the string of the k-th reported node and meets the thresholds |
| SuffixTree.EdgeLabelSpec | freqsubs/freqsubs.py:138-146 | the root's label is `''`. Any other label is a prefix of the slice `strings[id][start:end+1]` and is exactly one character shorter when that slice ends with the terminal character; otherwise it is the whole slice; src/freqsubs.py:127-135 is the same function |
| SuffixTree.RawLabelSpec | freqsubs/freqsubs.py:142 | the slice is non-empty, at most `end + 1 - start` long and a prefix of the string from `start` |
| Engine.IterSubstrings | freqsubs/freqsubs.py:65-130 | the stack loop yields exactly `EngineSpec`: the triples of the reported nodes, in post-order with the last child first |
| Engine.Iterate | freqsubs/freqsubs.py:88-130 | one pass of the loop body (pop, then pre-step or post-step) produces exactly the new loop variables and yield of `Step` |
| Engine.StepLists | freqsubs/freqsubs.py:102-128 | a pass pushes and pops `freq_acc`, `path_labels` and `child_has_yielded` together. It yields at most one triple, and that triple has a non-empty label, `freq >= min_support` and `len(text) + len(label) >= min_length`. After a yield every open `child_has_yielded` flag is set |
| Engine.NodeRun | freqsubs/freqsubs.py:109-118 | running a node's pre-step frame yields that subtree's triples. It then leaves the stack below the frame and adds the node's leaf count exactly once to the parent's `freq_acc` slot. It sets the open flags iff something was yielded, and sets `prev_level` to the node's level |
| Engine.LeafRun | freqsubs/freqsubs.py:115-116 | a leaf's post-step does not take the `level < prev_level` branch and counts 1 |
| Engine.CloseNode | freqsubs/freqsubs.py:111-114 | an internal node's post-step takes the `level < prev_level` branch. It pops its own depth (frequency, label, flag) and is suppressed in maximal mode when its flag is set |
| Engine.EngineRuns | freqsubs/freqsubs.py:71-88 | from the initial stack `[(root, '', 0, True)]` and empty lists, the run never raises and yields `EngineSpec` |
| Traversal.YieldIsEntries | freqsubs/freqsubs.py:109-128 | the recursive post-order yield of a subtree equals one entry (ancestor labels, own label, leaf count) per reported path |
| Reports.EngineSpecSound | freqsubs/freqsubs.py:95-128 | every yielded triple is the entry of a valid non-root node and passes the yield test. No node is reported twice. In maximal mode no reported node is an ancestor of another |
| Reports.EngineSpecCovers | freqsubs/freqsubs.py:121-128 | a node passing the yield test is reported itself or, in maximal mode, has a reported descendant |
| Reports.ReportedIffEmittable | freqsubs/freqsubs.py:121-126 | without maximal mode, a node is reported iff it passes the yield test |
| Reports.ReportedIffMaximal | freqsubs/freqsubs.py:110-127 | in maximal mode, a node is reported iff it passes the yield test and no node strictly below it does |
| Reports.SameTestSameSpec | src/freqsubs.py:115 | two threshold settings with the same yield test report the same nodes and yield the same triples |
| Collector.CollectMaximalSubstrings | freqsubs/freqsubs.py:149-165 | the loop computes `CollectAll`. The result is sorted by reversed substring and suffix-free, every kept entry is an unchanged input entry, and every input substring is a suffix of a kept one |
| Collector.CollectStepSpec | freqsubs/freqsubs.py:156-163 | one iteration (replace, add or drop) keeps the list sorted and suffix-free. It grows the list by at most one, adds only x, keeps the size on a replacement, and leaves x and everything kept before a suffix of something kept |
| Collector.CollectStepContents | freqsubs/freqsubs.py:159-163 | one iteration's size change is 0 or +1, only x is added, and a change of contents other than adding x keeps the size |
| Collector.CollectAllSpec | freqsubs/freqsubs.py:149-165 | the whole loop keeps the list sorted by reversed substring with prefix-free reversed keys. The result is no longer than the input and a sub-multiset of it, and every input substring is a suffix of a kept one |
| Collector.CollectAllContents | freqsubs/freqsubs.py:156-163 | the collected list holds only input entries, each at most as often as in the input |
| Collector.CollectAllDominates | freqsubs/freqsubs.py:153-163 | every input substring ends some collected substring |
| Collector.PrefixFreeIsSuffixFree | freqsubs/freqsubs.py:157-162 | reversed keys being prefix-free is the same as the substrings being suffix-free |
| Collector.ReversedSubstringSpec | freqsubs/freqsubs.py:168-169 | the key has the substring's length and reverses back to the substring |
| Collector.BisectSplits | freqsubs/freqsubs.py:158 | in a list sorted by reversed substring, the keys are sorted and `bisect_key_right(key)` splits them into keys `<= key` and keys `> key` |
| Collector.Neighbours | freqsubs/freqsubs.py:159-162 | in a sorted prefix-free key list, only the left neighbour can be a prefix of the new key. If the right neighbour does not extend the key, nothing to its right does |
| Sorting.BisectKeyRightSpec | freqsubs/freqsubs.py:158 | `bisect_key_right` returns the index i such that every entry before i compares `<=` the key and every entry from i on compares `>` it |
| Sorting.InsertSpec | freqsubs/freqsubs.py:161 | `add` keeps the list sorted |
| Sorting.InsertContents | freqsubs/freqsubs.py:163 | `add` adds exactly x and grows the list by one |
| Sorting.DeleteSpec | freqsubs/freqsubs.py:160 | `del collected[i]` keeps the list sorted |
| Sorting.DeleteContents | freqsubs/freqsubs.py:160 | `del collected[i]` removes exactly that entry |
| Sorting.SortSpec | tests/utils.py:13 | `sorted` returns a sorted permutation of its input, in tuple order or by reversed substring |
| Sorting.KeyLeTotal | tests/utils.py:13 | Python's comparison of `(str, int)` tuples is total |
| Sorting.KeyLeTransitive | tests/utils.py:13 | Python's comparison of `(str, int)` tuples is transitive |
| Strings.ReverseReverse | tests/utils.py:35-36 | `reversed_string` is its own inverse |
| Strings.SuffixIffReversedPrefix | freqsubs/freqsubs.py:159-162 | `a` ends `b` iff reversed `a` starts reversed `b`, which is why the collector's `startswith` on reversed keys tests suffixes |
| FreqSubs.SubstringsFromTree | freqsubs/freqsubs.py:34-37 | the pairs are the joined triples of the maximal-mode traversal, and each meets `freq >= min_support`, `len >= min_length` and non-empty |
| FreqSubs.FindFrequentSubstrings | freqsubs/freqsubs.py:6-31 | the empty input gives `[]`. Otherwise the result is the collector run on the maximal-mode pairs; every pair meets both thresholds, and the list is sorted by reversed substring with no substring ending another |
| FreqSubs.FrequentFromMaximal | freqsubs/freqsubs.py:13-17 | every returned pair is the string and leaf count of a node reported in maximal mode |
| FreqSubs.MaximalDominated | freqsubs/freqsubs.py:13-17 | the string of every node reported in maximal mode is a suffix of a returned substring |
| FreqSubs.FindSubstrings | freqsubs/freqsubs.py:40-62 | the empty input gives `[]`. Otherwise the result is every triple of the full traversal expanded into its prefixes |
| FreqSubs.AllSubstrings | freqsubs/freqsubs.py:59-62 | `find_substrings` returns exactly the pairs (text through the first m characters of a node's label, the node's leaf count), for every non-root node and every `0 < m <= len(label)`; the list is as long as the labels of the emitted nodes together, one triple per node |
| Legacy.FindSubstringsTraversal | src/freqsubs.py:59-119 | the earlier stack loop yields exactly `EngineSpec` with no length threshold |
| Legacy.LegacyIterate | src/freqsubs.py:81-119 | one pass of the earlier loop, which computes the label when the frame is popped, is one `Step` of the current loop on the lifted stack |
| Legacy.LiftChildFrames | src/freqsubs.py:93-95 | the earlier child frames stand for the current child frames, each with its child's `_edge_label` |
| Legacy.LegacyTestIsLengthOne | src/freqsubs.py:115 | without a length threshold, the earlier yield test equals the current one with `min_length = 1`, because a yielded label is never empty |
| Legacy.LegacyFindFrequentSubstrings | src/freqsubs.py:5-31 | the empty input gives `[]`. Otherwise the result is the joined triples of the dominating traversal that are at least `min_length` long, and every pair meets both thresholds |
| Legacy.LegacyThresholds | src/freqsubs.py:12-14 | every pair the earlier `find_frequent_substrings` returns is at least `min_support` frequent and `min_length` long |
| Legacy.LengthFilterSpec | src/freqsubs.py:28-31 | a pair is kept iff it is in the input and at least `min_length` long |
| Legacy.LegacyFindSubstrings | src/freqsubs.py:34-56 | the empty input gives `[]`. Otherwise the result is every triple of the earlier traversal expanded into its prefixes |
| Legacy.LegacySubstringsAgree | src/freqsubs.py:54-56 | both versions of `find_substrings` return the same list |
| Legacy.LegacyReportsMaximal | src/freqsubs.py:28-31 | filtering the dominating traversal by length afterwards reports exactly the nodes that the length threshold inside the yield test reports |
| Legacy.LegacyFrequentSamePairs | src/freqsubs.py:10-31 | the earlier `find_frequent_substrings` returns the same list of pairs, in the same order, as the traversal the current version feeds to its collector (and so the same set) |
| Oracles.Find | tests/utils.py:56 | `text.find(sub, start)` is -1 or the first position at or after `start` where `sub` occurs |
| Oracles.CountOverlapping | tests/utils.py:50-61 | the loop returns `Occurrences(text, sub)` |
| Oracles.OccurrencesArePositions | tests/utils.py:51 | `Occurrences(text, sub)` is the number of positions where `sub` occurs, overlaps allowed |
| Oracles.FindCount | tests/utils.py:55-59 | counting from `start` is one `find` and then counting from the next position, or 0 when `find` gives -1 |
| Oracles.CountExampleBBC | tests/test_freqsubs.py:14 | `count_overlapping('BBC', 'B') == 2` |
| Oracles.CountExampleBanana | tests/test_freqsubs.py:28 | `count_overlapping('banana', 'ana') == 2` |
| Oracles.CountExampleNefer | tests/test_freqsubs.py:49 | `count_overlapping('nefernefernefer', 'e') == 6` |
| Oracles.OccurrencesOfSuffix | tests/utils.py:50-61 | a suffix of a string occurs at least as often as the string |
| Oracles.FindSubstringsSlowSpec | tests/utils.py:39-47 | the pairs are exactly the non-empty slices of `text`, each with its overlapping count, which is at least 1 |
| Oracles.SetToSeq | tests/utils.py:44-47 | iterating over the set gives each member exactly once |
| Oracles.RunPass | tests/utils.py:15-21 | the `zip` loop plus the appended last element computes `Pass` |
| Oracles.PassMembers | tests/utils.py:16-21 | a pass keeps the candidates whose successor does not extend them, and always the last one |
| Oracles.PassIsUnextended | tests/utils.py:13-30 | on a sorted list of distinct candidates, a pass keeps exactly the candidates no other candidate extends (as a prefix after the tuple sort, as a suffix after the reversed sort) and keeps them once each |
| Oracles.FindFrequentSubstringsSlow | tests/utils.py:4-32 | the result holds exactly the members of `SlowFrequent`, once each, sorted by reversed substring |
| Oracles.SlowFrequentThresholds | tests/utils.py:10-12 | every returned pair is a pair of `find_substrings_slow` with `len >= min_length` and `freq >= min_support` |
| Oracles.SlowFrequentInfixFree | tests/utils.py:15-30 | no returned substring is a slice of another returned substring |
| Oracles.SlowFrequentCovers | tests/utils.py:15-30 | every substring meeting both thresholds is a slice of some returned substring |
| Oracles.SlowFrequentEmpty | tests/utils.py:20-30 | the result is empty iff no substring meets both thresholds, and is empty for the empty text |

## Left out

- Suffix tree construction (`SuffixTree(inputs)`, `from .suffix_tree import SuffixTree`) is not part of this model. The tree is the result of a caller-supplied function `build`. `TreeWF` only requires that every non-root edge slices a non-empty piece of its string. It is not proved that the tree is a correct suffix tree. Hence:
  - a node's leaf count is not proved equal to `count_overlapping` of its string;
  - the traversal is not proved equivalent to the brute-force oracles.
- The `sortedcontainers.SortedKeyList` internals are not modelled. The container is a sorted sequence with a `bisect_key_right` function, an insert at the bisection point and a delete at an index.
- Generators and laziness are not modelled: every generator is a returned sequence.
- Python input types beyond `str` and lists of `str` are not modelled, because their behaviour depends on the tree code. Tuples are an example.
- Argument validation is not modelled: the source does none, and the model adds none.
- A node slice whose `start` is past its string's end is excluded by `TreeWF`, because `label[-1]` raises IndexError there.
- `node is root` is node identity in Python. The model uses equality with the root value, which no proper descendant can have: it is strictly smaller.
- The docstrings' complexity claims are not modelled.
- tests/test_freqsubs.py is not modelled as code: it imports `substring_frequencies` and `substring_frequencies_slow`, which src/freqsubs.py does not define. Only its expected counts appear, as the `Oracles.CountExample*` lemmas.
- Oracles.FindSubstringsSlowSpec: `find_substrings_slow` is modelled as a set (`FindSubstringsSlow`). The order of its generator depends on the order of iteration over a Python `set`, which the language leaves unspecified. `find_frequent_substrings_slow` sorts what it takes from it, so its own result does not depend on that order.
- A Python `str` can hold lone surrogate code points (U+D800 to U+DFFF). A Dafny `string` holds only Unicode scalar values, so inputs with lone surrogates are not modelled.
- FreqSubs.FindFrequentSubstrings: the docstring promises that no output substring is part of another.
  - Proved: no output substring ends another (`SuffixFree`).
  - Proved: every output pair is a maximal reported node (`FrequentFromMaximal`).
  - Proved: every reported node ends an output substring (`MaximalDominated`).
  - Not proved for whole strings: the traversal's prefix-freeness. It holds for tree nodes, via `Reports.EngineSpecSound` (no reported node is an ancestor of another). Turning that into a statement about strings needs a correct suffix tree.
- Legacy.LegacyFindFrequentSubstrings: the docstring's "no substring in the output is a prefix of another" is proved only for tree nodes (`Reports.EngineSpecSound`, `AncestorFree`), for the same reason.
- The `IndexError` of an empty `freq_acc` or `stack` pop is modelled as `None`, and `Engine.EngineRuns` proves that it never happens on a well-formed tree.
