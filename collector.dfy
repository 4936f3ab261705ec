/** `_collect_maximal_substrings`: keep only the candidates that are not a
    suffix of another kept candidate. The kept candidates sit in a list
    sorted by reversed substring, so "is a suffix of" becomes "the reversed
    string is a prefix of", and in a sorted list the only entries that can
    be in that relation with a new candidate are its two neighbours around
    the bisection point. The order reasoning is done on the list of keys. */
module Collector {
  import opened Strings
  import opened Sorting

  /** `_reversed_substring(x)`: the sort key of the collector. */
  function ReversedSubstring(x: Counted): string {
    Reverse(x.text)
  }

  /** The key keeps the substring's length and gives the substring back when
      reversed again. */
  lemma ReversedSubstringSpec(x: Counted)
    ensures |ReversedSubstring(x)| == |x.text|
    ensures Reverse(ReversedSubstring(x)) == x.text
  {
    ReverseReverse(x.text);
  }

  /** The keys of a collected list, in list order. */
  function Keys(c: seq<Counted>): (K: seq<string>)
    ensures |K| == |c| && forall j :: 0 <= j < |c| ==> K[j] == ReversedSubstring(c[j])
  {
    seq(|c|, j requires 0 <= j < |c| => ReversedSubstring(c[j]))
  }

  /** No key is a prefix of another (equal keys included). */
  predicate PrefixFree(K: seq<string>) {
    forall a, b :: 0 <= a < |K| && 0 <= b < |K| && a != b ==> !IsPrefix(K[a], K[b])
  }

  predicate LexSorted(K: seq<string>) {
    forall a, b :: 0 <= a < b < |K| ==> LexLe(K[a], K[b])
  }

  /** Key k belongs at position i: the keys before are at most k, the keys
      from i on are above k. */
  predicate SplitAt(K: seq<string>, k: string, i: nat) {
    && i <= |K|
    && (forall j :: 0 <= j < i ==> LexLe(K[j], k))
    && (forall j :: i <= j < |K| ==> LexLe(k, K[j]) && k != K[j])
  }

  /** Neither string is a prefix of the other. */
  predicate Unrelated(a: string, b: string) {
    !IsPrefix(a, b) && !IsPrefix(b, a)
  }

  /** No kept substring is a suffix of another kept substring (equal ones included). */
  predicate SuffixFree(c: seq<Counted>) {
    forall a, b :: 0 <= a < |c| && 0 <= b < |c| && a != b ==> !IsSuffix(c[a].text, c[b].text)
  }

  /** Some kept substring ends with t. */
  predicate Dominated(t: string, c: seq<Counted>) {
    exists y :: y in c && IsSuffix(t, y.text)
  }

  /** One iteration of the `for x in substrings_and_frequencies` loop: replace
      the left neighbour if it is a suffix of x, insert x if it is not a
      suffix of its right neighbour, otherwise drop x. */
  function CollectStep(c: seq<Counted>, x: Counted): seq<Counted> {
    var key := ReversedSubstring(x);
    var i := BisectKeyRight(ByReversedText, c, key, 0);
    if i > 0 && IsPrefix(ReversedSubstring(c[i - 1]), key) then
      Insert(ByReversedText, Delete(c, i - 1), x)
    else if i == |c| || !IsPrefix(key, ReversedSubstring(c[i])) then
      Insert(ByReversedText, c, x)
    else
      c
  }

  /** The collected list after the whole input. */
  function CollectAll(xs: seq<Counted>): seq<Counted> {
    if xs == [] then [] else CollectStep(CollectAll(xs[..|xs| - 1]), xs[|xs| - 1])
  }

  lemma PrefixReflexive(s: string)
    ensures IsPrefix(s, s)
  {
  }

  lemma PrefixLexLeWhen(a: string, b: string)
    ensures IsPrefix(a, b) ==> LexLe(a, b)
  {
    if IsPrefix(a, b) { PrefixLexLe(a, b); }
  }

  lemma LexIntervalWhen(a: string, b: string, c: string)
    ensures LexLe(a, b) && LexLe(b, c) && IsPrefix(a, c) ==> IsPrefix(a, b)
  {
    if LexLe(a, b) && LexLe(b, c) && IsPrefix(a, c) { LexInterval(a, b, c); }
  }

  lemma LexAntisymmetricWhen(a: string, b: string)
    ensures LexLe(a, b) && LexLe(b, a) ==> a == b
  {
    if LexLe(a, b) && LexLe(b, a) { LexAntisymmetric(a, b); }
  }

  lemma PrefixTransitiveWhen(a: string, b: string, c: string)
    ensures IsPrefix(a, b) && IsPrefix(b, c) ==> IsPrefix(a, c)
  {
    if IsPrefix(a, b) && IsPrefix(b, c) { PrefixTransitive(a, b, c); }
  }

  /** Where key k falls in a sorted, prefix-free key list: only the left
      neighbour can be a prefix of k, nothing left of the left neighbour
      extends k, and if the right neighbour does not extend k, nothing to its
      right does. */
  lemma Neighbours(K: seq<string>, k: string, i: nat)
    requires LexSorted(K) && PrefixFree(K) && SplitAt(K, k, i)
    ensures forall j :: 0 <= j < |K| && j != i - 1 ==> !IsPrefix(K[j], k)
    ensures forall j :: 0 <= j < i - 1 ==> !IsPrefix(k, K[j])
    ensures (i == |K| || !IsPrefix(k, K[i])) ==> forall j :: i < j < |K| ==> !IsPrefix(k, K[j])
  {
    forall j | 0 <= j < |K| && j != i - 1 ensures !IsPrefix(K[j], k) {
      PrefixLexLeWhen(K[j], k);
      if j < i - 1 {
        LexIntervalWhen(K[j], K[i - 1], k);
      } else {
        LexAntisymmetricWhen(K[j], k);
      }
    }
    forall j | 0 <= j < i - 1 ensures !IsPrefix(k, K[j]) {
      PrefixLexLeWhen(k, K[j]);
      LexAntisymmetricWhen(K[j], k);
      LexAntisymmetricWhen(K[j], K[i - 1]);
      PrefixReflexive(K[j]);
    }
    if i == |K| || !IsPrefix(k, K[i]) {
      forall j | i < j < |K| ensures !IsPrefix(k, K[j]) {
        LexIntervalWhen(k, K[i], K[j]);
      }
    }
  }

  /** Case "replace": the left neighbour is a prefix of k; every other key is
      unrelated to k. */
  lemma ReplaceUnrelated(K: seq<string>, k: string, i: nat)
    requires LexSorted(K) && PrefixFree(K) && SplitAt(K, k, i)
    requires 0 < i && IsPrefix(K[i - 1], k)
    ensures var D := K[..i - 1] + K[i..]; forall j :: 0 <= j < |D| ==> Unrelated(D[j], k)
  {
    var D := K[..i - 1] + K[i..];
    Neighbours(K, k, i);
    if i < |K| {
      PrefixTransitiveWhen(K[i - 1], k, K[i]);
    }
    forall j | 0 <= j < |D| ensures Unrelated(D[j], k) {
      if j < i - 1 {
        assert D[j] == K[j];
      } else {
        assert D[j] == K[j + 1];
      }
    }
  }

  /** Case "insert": neither neighbour is in the prefix relation with k; no key is. */
  lemma InsertUnrelated(K: seq<string>, k: string, i: nat)
    requires LexSorted(K) && PrefixFree(K) && SplitAt(K, k, i)
    requires !(i > 0 && IsPrefix(K[i - 1], k))
    requires i == |K| || !IsPrefix(k, K[i])
    ensures forall j :: 0 <= j < |K| ==> Unrelated(K[j], k)
  {
    Neighbours(K, k, i);
    if i > 0 {
      PrefixLexLeWhen(k, K[i - 1]);
      LexAntisymmetricWhen(k, K[i - 1]);
      PrefixReflexive(k);
    }
  }

  lemma DeleteKeepsFree(K: seq<string>, i: nat)
    requires PrefixFree(K) && i < |K|
    ensures PrefixFree(K[..i] + K[i + 1..])
  {
    var D := K[..i] + K[i + 1..];
    forall a, b | 0 <= a < |D| && 0 <= b < |D| && a != b ensures !IsPrefix(D[a], D[b]) {
      var a', b' := if a < i then a else a + 1, if b < i then b else b + 1;
      assert D[a] == K[a'] && D[b] == K[b'];
    }
  }

  /** Inserting a key unrelated to every key, anywhere, keeps the list prefix-free. */
  lemma InsertKeepsFree(K: seq<string>, k: string, p: nat)
    requires PrefixFree(K) && p <= |K|
    requires forall j :: 0 <= j < |K| ==> Unrelated(K[j], k)
    ensures PrefixFree(K[..p] + [k] + K[p..])
  {
    var R := K[..p] + [k] + K[p..];
    forall a, b | 0 <= a < |R| && 0 <= b < |R| && a != b ensures !IsPrefix(R[a], R[b]) {
      var a', b' := if a < p then a else a - 1, if b < p then b else b - 1;
      if a == p {
        assert R[a] == k && R[b] == K[b'];
      } else if b == p {
        assert R[b] == k && R[a] == K[a'];
      } else {
        assert R[a] == K[a'] && R[b] == K[b'];
      }
    }
  }

  /** A list sorted by reversed substring has sorted keys, and the bisection
      point of a key splits them. */
  lemma BisectSplits(c: seq<Counted>, k: string)
    requires Sorted(ByReversedText, c)
    ensures LexSorted(Keys(c))
    ensures SplitAt(Keys(c), k, BisectKeyRight(ByReversedText, c, k, 0))
  {
    var K := Keys(c);
    var i := BisectKeyRight(ByReversedText, c, k, 0);
    forall a, b | 0 <= a < b < |K| ensures LexLe(K[a], K[b]) {
      KeyLeLexLe(K[a], 0, K[b], 0);
    }
    BisectKeyRightSpec(ByReversedText, c, k, 0);
    forall j | 0 <= j < i ensures LexLe(K[j], k) {
      KeyLeLexLe(K[j], 0, k, 0);
    }
    forall j | i <= j < |K| ensures LexLe(k, K[j]) && k != K[j] {
      KeyLeTotal(K[j], 0, k, 0);
      KeyLeLexLe(k, 0, K[j], 0);
    }
  }

  lemma KeysDelete(c: seq<Counted>, i: nat)
    requires i < |c|
    ensures Keys(Delete(c, i)) == Keys(c)[..i] + Keys(c)[i + 1..]
  {
    var l, r := Keys(Delete(c, i)), Keys(c)[..i] + Keys(c)[i + 1..];
    forall j | 0 <= j < |l| ensures l[j] == r[j] {
      if j >= i { assert Delete(c, i)[j] == c[j + 1]; }
    }
  }

  /** Insert places x at some position p, and the keys follow. */
  lemma KeysInsert(c: seq<Counted>, x: Counted)
    ensures var p := BisectKeyRight(ByReversedText, c, ReversedSubstring(x), 0);
      Keys(Insert(ByReversedText, c, x)) == Keys(c)[..p] + [ReversedSubstring(x)] + Keys(c)[p..]
  {
    var p := BisectKeyRight(ByReversedText, c, ReversedSubstring(x), 0);
    assert Insert(ByReversedText, c, x) == c[..p] + [x] + c[p..];
    KeysSplice(c, x, p);
  }

  /** Placing x at position p places its key there. */
  lemma KeysSplice(c: seq<Counted>, x: Counted, p: nat)
    requires p <= |c|
    ensures Keys(c[..p] + [x] + c[p..]) == Keys(c)[..p] + [ReversedSubstring(x)] + Keys(c)[p..]
  {
    var l, m := Keys(c[..p] + [x] + c[p..]), Keys(c)[..p] + [ReversedSubstring(x)] + Keys(c)[p..];
    forall j | 0 <= j < |l| ensures l[j] == m[j] {
      SpliceAt(c, x, p, j);
    }
  }

  /** Inserting x, unrelated to every kept key, keeps the keys prefix-free. */
  lemma InsertUnrelatedKeepsFree(d: seq<Counted>, x: Counted)
    requires PrefixFree(Keys(d))
    requires forall j :: 0 <= j < |d| ==> Unrelated(Keys(d)[j], ReversedSubstring(x))
    ensures PrefixFree(Keys(Insert(ByReversedText, d, x)))
  {
    KeysInsert(d, x);
    InsertKeepsFree(Keys(d), ReversedSubstring(x), BisectKeyRight(ByReversedText, d, ReversedSubstring(x), 0));
  }

  /** After dropping the left neighbour in the "replace" branch, the list is
      still prefix-free and every kept key is unrelated to x's. */
  lemma ReplacePrepares(c: seq<Counted>, x: Counted, i: nat)
    requires LexSorted(Keys(c)) && PrefixFree(Keys(c)) && SplitAt(Keys(c), ReversedSubstring(x), i)
    requires 0 < i && IsPrefix(Keys(c)[i - 1], ReversedSubstring(x))
    ensures var d := Delete(c, i - 1);
      && PrefixFree(Keys(d))
      && forall j :: 0 <= j < |d| ==> Unrelated(Keys(d)[j], ReversedSubstring(x))
  {
    var K := Keys(c);
    KeysDelete(c, i - 1);
    assert K[..i - 1] + K[i - 1 + 1..] == K[..i - 1] + K[i..];
    DeleteKeepsFree(K, i - 1);
    ReplaceUnrelated(K, ReversedSubstring(x), i);
  }

  /** The "replace" branch keeps the keys prefix-free. */
  lemma ReplaceKeepsFree(c: seq<Counted>, x: Counted, i: nat)
    requires LexSorted(Keys(c)) && PrefixFree(Keys(c)) && SplitAt(Keys(c), ReversedSubstring(x), i)
    requires 0 < i && IsPrefix(Keys(c)[i - 1], ReversedSubstring(x))
    ensures PrefixFree(Keys(Insert(ByReversedText, Delete(c, i - 1), x)))
  {
    ReplacePrepares(c, x, i);
    InsertUnrelatedKeepsFree(Delete(c, i - 1), x);
  }

  /** The "insert" branch keeps the keys prefix-free. */
  lemma AddKeepsFree(c: seq<Counted>, x: Counted, i: nat)
    requires LexSorted(Keys(c)) && PrefixFree(Keys(c)) && SplitAt(Keys(c), ReversedSubstring(x), i)
    requires !(i > 0 && IsPrefix(Keys(c)[i - 1], ReversedSubstring(x)))
    requires i == |c| || !IsPrefix(ReversedSubstring(x), Keys(c)[i])
    ensures PrefixFree(Keys(Insert(ByReversedText, c, x)))
  {
    InsertUnrelated(Keys(c), ReversedSubstring(x), i);
    InsertUnrelatedKeepsFree(c, x);
  }

  /** One iteration keeps the keys prefix-free. */
  lemma CollectStepFree(c: seq<Counted>, x: Counted)
    requires Sorted(ByReversedText, c) && PrefixFree(Keys(c))
    ensures PrefixFree(Keys(CollectStep(c, x)))
  {
    var key := ReversedSubstring(x);
    var i := BisectKeyRight(ByReversedText, c, key, 0);
    var r := CollectStep(c, x);
    BisectSplits(c, key);
    if i > 0 && IsPrefix(ReversedSubstring(c[i - 1]), key) {
      assert r == Insert(ByReversedText, Delete(c, i - 1), x);
      ReplaceKeepsFree(c, x, i);
    } else if i == |c| || !IsPrefix(key, ReversedSubstring(c[i])) {
      assert r == Insert(ByReversedText, c, x);
      AddKeepsFree(c, x, i);
    } else {
      assert r == c;
    }
  }

  /** One iteration keeps the list sorted by reversed substring. */
  lemma CollectStepSorted(c: seq<Counted>, x: Counted)
    requires Sorted(ByReversedText, c)
    ensures Sorted(ByReversedText, CollectStep(c, x))
  {
    var key := ReversedSubstring(x);
    var i := BisectKeyRight(ByReversedText, c, key, 0);
    var r := CollectStep(c, x);
    if i > 0 && IsPrefix(ReversedSubstring(c[i - 1]), key) {
      assert r == Insert(ByReversedText, Delete(c, i - 1), x);
      DeleteSpec(ByReversedText, c, i - 1);
      InsertSpec(ByReversedText, Delete(c, i - 1), x);
    } else if i == |c| || !IsPrefix(key, ReversedSubstring(c[i])) {
      assert r == Insert(ByReversedText, c, x);
      InsertSpec(ByReversedText, c, x);
    } else {
      assert r == c;
    }
  }

  /** Replacing entry e of c by x, where e is a suffix of x, leaves x and
      everything in c a suffix of something kept. */
  lemma SwapDominates(c: seq<Counted>, d: seq<Counted>, r: seq<Counted>, e: Counted, x: Counted)
    requires multiset(d) + multiset{e} == multiset(c) && multiset(r) == multiset(d) + multiset{x}
    requires IsSuffix(e.text, x.text)
    ensures Dominated(x.text, r) && forall y :: y in c ==> Dominated(y.text, r)
  {
    assert x in multiset(r);
    assert IsSuffix(x.text, x.text);
    forall y | y in c ensures Dominated(y.text, r) {
      assert IsSuffix(y.text, y.text);
      if y == e {
        assert x in r;
      } else {
        assert y in multiset(c);
        assert y in multiset(d);
        assert y in multiset(r);
        assert y in r;
      }
    }
  }

  /** The "replace" branch: the dropped entry is a suffix of x, which is added. */
  lemma ReplaceDominates(c: seq<Counted>, x: Counted, i: nat)
    requires 0 < i <= |c| && IsPrefix(ReversedSubstring(c[i - 1]), ReversedSubstring(x))
    ensures var r := Insert(ByReversedText, Delete(c, i - 1), x);
      Dominated(x.text, r) && forall y :: y in c ==> Dominated(y.text, r)
  {
    var d := Delete(c, i - 1);
    var r := Insert(ByReversedText, d, x);
    DeleteContents(c, i - 1);
    InsertContents(ByReversedText, d, x);
    SuffixIffReversedPrefix(c[i - 1].text, x.text);
    SwapDominates(c, d, r, c[i - 1], x);
  }

  /** The "insert" branch: x joins everything already kept. */
  lemma AddDominates(c: seq<Counted>, x: Counted)
    ensures var r := Insert(ByReversedText, c, x);
      Dominated(x.text, r) && forall y :: y in c ==> Dominated(y.text, r)
  {
    var r := Insert(ByReversedText, c, x);
    InsertContents(ByReversedText, c, x);
    assert x in multiset(r);
    assert IsSuffix(x.text, x.text);
    forall y | y in c ensures Dominated(y.text, r) {
      assert IsSuffix(y.text, y.text);
      assert y in multiset(c);
      assert y in multiset(r);
      assert y in r;
    }
  }

  /** The "drop" branch: x is a suffix of its right neighbour. */
  lemma DropDominates(c: seq<Counted>, x: Counted, i: nat)
    requires i < |c| && IsPrefix(ReversedSubstring(x), ReversedSubstring(c[i]))
    ensures Dominated(x.text, c) && forall y :: y in c ==> Dominated(y.text, c)
  {
    SuffixIffReversedPrefix(x.text, c[i].text);
    assert c[i] in c;
    forall y | y in c ensures Dominated(y.text, c) {
      assert IsSuffix(y.text, y.text);
    }
  }

  /** Multiset algebra of a replacement. */
  lemma SwapMultiset(r: multiset<Counted>, c: multiset<Counted>, d: multiset<Counted>, e: Counted, x: Counted)
    requires d + multiset{e} == c && r == d + multiset{x}
    ensures r <= c + multiset{x}
  {
  }

  /** The "replace" branch keeps the size and only adds x. */
  lemma ReplaceContents(c: seq<Counted>, x: Counted, i: nat)
    requires 0 < i <= |c|
    ensures var r := Insert(ByReversedText, Delete(c, i - 1), x);
      |r| == |c| && multiset(r) <= multiset(c) + multiset{x}
  {
    var d := Delete(c, i - 1);
    var r := Insert(ByReversedText, d, x);
    DeleteContents(c, i - 1);
    InsertContents(ByReversedText, d, x);
    SwapMultiset(multiset(r), multiset(c), multiset(d), c[i - 1], x);
  }

  /** One iteration only ever adds x, and grows the list by at most one;
      a replacement keeps its size. */
  lemma CollectStepContents(c: seq<Counted>, x: Counted)
    ensures var r := CollectStep(c, x);
      && |c| <= |r| <= |c| + 1
      && multiset(r) <= multiset(c) + multiset{x}
      && (multiset(r) == multiset(c) + multiset{x} || |r| == |c|)
  {
    var key := ReversedSubstring(x);
    var i := BisectKeyRight(ByReversedText, c, key, 0);
    var r := CollectStep(c, x);
    if i > 0 && IsPrefix(ReversedSubstring(c[i - 1]), key) {
      assert r == Insert(ByReversedText, Delete(c, i - 1), x);
      ReplaceContents(c, x, i);
    } else if i == |c| || !IsPrefix(key, ReversedSubstring(c[i])) {
      assert r == Insert(ByReversedText, c, x);
      InsertContents(ByReversedText, c, x);
    } else {
      assert r == c;
    }
  }

  /** One iteration leaves x, and every entry kept so far, a suffix of some
      kept entry. */
  lemma CollectStepDominates(c: seq<Counted>, x: Counted)
    ensures var r := CollectStep(c, x);
      Dominated(x.text, r) && forall y :: y in c ==> Dominated(y.text, r)
  {
    var key := ReversedSubstring(x);
    var i := BisectKeyRight(ByReversedText, c, key, 0);
    var r := CollectStep(c, x);
    if i > 0 && IsPrefix(ReversedSubstring(c[i - 1]), key) {
      assert r == Insert(ByReversedText, Delete(c, i - 1), x);
      ReplaceDominates(c, x, i);
    } else if i == |c| || !IsPrefix(key, ReversedSubstring(c[i])) {
      assert r == Insert(ByReversedText, c, x);
      AddDominates(c, x);
    } else {
      assert r == c;
      DropDominates(c, x, i);
    }
  }

  /** Everything CollectAll is promised to keep. */
  predicate Collected(xs: seq<Counted>, r: seq<Counted>) {
    && Sorted(ByReversedText, r) && PrefixFree(Keys(r))
    && |r| <= |xs|
    && multiset(r) <= multiset(xs)
    && forall k :: 0 <= k < |xs| ==> Dominated(xs[k].text, r)
  }

  /** A suffix of something dominated is dominated. */
  lemma DominatedTransitive(t: string, c: seq<Counted>, r: seq<Counted>)
    requires Dominated(t, c) && forall y :: y in c ==> Dominated(y.text, r)
    ensures Dominated(t, r)
  {
    var y :| y in c && IsSuffix(t, y.text);
    var z :| z in r && IsSuffix(y.text, z.text);
    SuffixTransitive(t, y.text, z.text);
  }

  /** Everything one iteration is promised to keep. */
  lemma CollectStepSpec(c: seq<Counted>, x: Counted)
    requires Sorted(ByReversedText, c) && PrefixFree(Keys(c))
    ensures var r := CollectStep(c, x);
      && Sorted(ByReversedText, r) && PrefixFree(Keys(r))
      && |c| <= |r| <= |c| + 1
      && multiset(r) <= multiset(c) + multiset{x}
      && (multiset(r) == multiset(c) + multiset{x} || |r| == |c|)
      && Dominated(x.text, r)
      && forall y :: y in c ==> Dominated(y.text, r)
  {
    CollectStepSorted(c, x);
    CollectStepFree(c, x);
    CollectStepContents(c, x);
    CollectStepDominates(c, x);
  }

  /** Domination carries over from the list before an iteration to the list after it. */
  lemma DominationCarries(xs: seq<Counted>, c: seq<Counted>, r: seq<Counted>)
    requires xs != []
    requires forall k :: 0 <= k < |xs| - 1 ==> Dominated(xs[k].text, c)
    requires forall y :: y in c ==> Dominated(y.text, r)
    requires Dominated(xs[|xs| - 1].text, r)
    ensures forall k :: 0 <= k < |xs| ==> Dominated(xs[k].text, r)
  {
    forall k | 0 <= k < |xs| - 1 ensures Dominated(xs[k].text, r) {
      DominatedTransitive(xs[k].text, c, r);
    }
  }

  /** The collected list stays sorted by reversed substring, with prefix-free keys. */
  lemma {:induction false} CollectAllOrdered(xs: seq<Counted>)
    ensures Sorted(ByReversedText, CollectAll(xs)) && PrefixFree(Keys(CollectAll(xs)))
  {
    if xs != [] {
      var c := CollectAll(xs[..|xs| - 1]);
      assert CollectAll(xs) == CollectStep(c, xs[|xs| - 1]);
      CollectAllOrdered(xs[..|xs| - 1]);
      CollectStepSorted(c, xs[|xs| - 1]);
      CollectStepFree(c, xs[|xs| - 1]);
    }
  }

  /** Multiset algebra of one iteration. */
  lemma SubMultisetStep(r: multiset<Counted>, c: multiset<Counted>, d: multiset<Counted>, x: Counted)
    requires r <= c + multiset{x} && c <= d
    ensures r <= d + multiset{x}
  {
  }

  /** The collected list is no longer than the input and holds only input entries. */
  lemma {:induction false} CollectAllContents(xs: seq<Counted>)
    ensures |CollectAll(xs)| <= |xs| && multiset(CollectAll(xs)) <= multiset(xs)
  {
    if xs != [] {
      var d, x := xs[..|xs| - 1], xs[|xs| - 1];
      var c := CollectAll(d);
      var r := CollectStep(c, x);
      assert CollectAll(xs) == r;
      CollectAllContents(d);
      CollectStepContents(c, x);
      SubMultisetStep(multiset(r), multiset(c), multiset(d), x);
      MultisetSnoc(xs);
    }
  }

  /** Every input substring is a suffix of some collected substring. */
  lemma {:induction false} CollectAllDominates(xs: seq<Counted>)
    ensures forall k :: 0 <= k < |xs| ==> Dominated(xs[k].text, CollectAll(xs))
  {
    if xs != [] {
      var d, x := xs[..|xs| - 1], xs[|xs| - 1];
      var c := CollectAll(d);
      var r := CollectStep(c, x);
      assert CollectAll(xs) == r;
      CollectAllDominates(d);
      CollectStepDominates(c, x);
      assert forall k :: 0 <= k < |xs| - 1 ==> xs[k] == d[k];
      DominationCarries(xs, c, r);
    }
  }

  lemma CollectAllSpec(xs: seq<Counted>)
    ensures Collected(xs, CollectAll(xs))
  {
    CollectAllOrdered(xs);
    CollectAllContents(xs);
    CollectAllDominates(xs);
  }

  /** Keys prefix-free is the same as substrings suffix-free. */
  lemma PrefixFreeIsSuffixFree(c: seq<Counted>)
    ensures PrefixFree(Keys(c)) <==> SuffixFree(c)
  {
    forall a, b | 0 <= a < |c| && 0 <= b < |c| && a != b
      ensures IsSuffix(c[a].text, c[b].text) <==> IsPrefix(Keys(c)[a], Keys(c)[b])
    {
      SuffixIffReversedPrefix(c[a].text, c[b].text);
    }
  }

  lemma CollectAllNext(xs: seq<Counted>, n: nat)
    requires n < |xs|
    ensures CollectAll(xs[..n + 1]) == CollectStep(CollectAll(xs[..n]), xs[n])
  {
    assert xs[..n + 1][..n] == xs[..n];
  }

  /** `_collect_maximal_substrings(substrings_and_frequencies)`: the
      collected list is sorted by reversed substring, no kept substring is a
      suffix of another, every kept entry is an input entry unchanged, and
      every input substring is a suffix of some kept one. */
  method CollectMaximalSubstrings(xs: seq<Counted>) returns (collected: seq<Counted>)
    ensures collected == CollectAll(xs)
    ensures Sorted(ByReversedText, collected) && SuffixFree(collected)
    ensures multiset(collected) <= multiset(xs)
    ensures forall k :: 0 <= k < |xs| ==> Dominated(xs[k].text, collected)
  {
    collected := [];
    for n := 0 to |xs|
      invariant collected == CollectAll(xs[..n])
    {
      var x := xs[n];
      CollectAllNext(xs, n);
      var key := ReversedSubstring(x);
      var i := BisectKeyRight(ByReversedText, collected, key, 0);
      if i > 0 && IsPrefix(ReversedSubstring(collected[i - 1]), key) {
        collected := Delete(collected, i - 1);
        collected := Insert(ByReversedText, collected, x);
      } else if i == |collected| || !IsPrefix(key, ReversedSubstring(collected[i])) {
        collected := Insert(ByReversedText, collected, x);
      }
    }
    assert xs[..|xs|] == xs;
    CollectAllSpec(xs);
    PrefixFreeIsSuffixFree(collected);
  }
}
