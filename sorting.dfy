/** The sorted sequences the finders build: Python's `sorted(...)` of
    `(substring, frequency)` pairs, either in tuple order or by reversed
    substring, and the `SortedKeyList(key=_reversed_substring)` of the
    suffix-dominance collector with its `bisect_key_right`, `add` and `del`.
    A sorted list is a sequence; the container's internal layout is not
    modelled. */
module Sorting {
  import opened Strings

  /** A `(substring, frequency)` pair. */
  datatype Counted = Counted(text: string, freq: int)

  /** Python's tuple order (substring first, then frequency), or the order of
      `key=_reversed_substring`, which compares reversed substrings only. */
  datatype Order = ByTuple | ByReversedText

  /** What the order compares first. */
  function Key(o: Order, x: Counted): string {
    match o
    case ByTuple => x.text
    case ByReversedText => Reverse(x.text)
  }

  /** What the order compares when the keys are equal. */
  function Tie(o: Order, x: Counted): int {
    match o
    case ByTuple => x.freq
    case ByReversedText => 0
  }

  predicate LexLt(a: string, b: string) {
    LexLe(a, b) && a != b
  }

  /** `(k1, t1) <= (k2, t2)` on Python tuples of a str and an int. */
  predicate KeyLe(k1: string, t1: int, k2: string, t2: int) {
    LexLt(k1, k2) || (k1 == k2 && t1 <= t2)
  }

  predicate Le(o: Order, x: Counted, y: Counted) {
    KeyLe(Key(o, x), Tie(o, x), Key(o, y), Tie(o, y))
  }

  /** Python's comparison of those tuples is a total order. */
  lemma KeyLeTotal(k1: string, t1: int, k2: string, t2: int)
    ensures KeyLe(k1, t1, k2, t2) || KeyLe(k2, t2, k1, t1)
  {
    LexTotal(k1, k2);
  }

  lemma KeyLeTransitive(k1: string, t1: int, k2: string, t2: int, k3: string, t3: int)
    requires KeyLe(k1, t1, k2, t2) && KeyLe(k2, t2, k3, t3)
    ensures KeyLe(k1, t1, k3, t3)
  {
    if LexLt(k1, k2) && LexLt(k2, k3) {
      LexTransitive(k1, k2, k3);
      if k1 == k3 { LexAntisymmetric(k1, k2); }
    }
  }

  /** Keys in non-decreasing order of the key alone. */
  lemma KeyLeLexLe(k1: string, t1: int, k2: string, t2: int)
    requires KeyLe(k1, t1, k2, t2)
    ensures LexLe(k1, k2)
  {
    if k1 == k2 { LexReflexive(k1); }
  }

  predicate Sorted(o: Order, s: seq<Counted>) {
    forall i, j :: 0 <= i < j < |s| ==> Le(o, s[i], s[j])
  }

  /** The entry x is at most the given `(key, tie)`. */
  predicate AtMost(o: Order, x: Counted, key: string, tie: int) {
    KeyLe(Key(o, x), Tie(o, x), key, tie)
  }

  /** Which entries of s are at most the given `(key, tie)`. */
  function AtMostFlags(o: Order, s: seq<Counted>, key: string, tie: int): (f: seq<bool>)
    ensures |f| == |s|
  {
    seq(|s|, k requires 0 <= k < |s| => AtMost(o, s[k], key, tie))
  }

  /** `bisect_key_right`: the position after the last entry whose
      `(key, tie)` is at most the given one. */
  function BisectKeyRight(o: Order, s: seq<Counted>, key: string, tie: int): (i: nat)
    ensures i <= |s|
  {
    BisectBelow(AtMostFlags(o, s, key, tie), |s|)
  }

  /** The position after the last set flag among the first n, scanning from
      the right. */
  function BisectBelow(f: seq<bool>, n: nat): (i: nat)
    requires n <= |f|
    ensures i <= n
  {
    if n == 0 then 0
    else if f[n - 1] then n
    else BisectBelow(f, n - 1)
  }

  /** On a sorted list, the entries before the bisection point are at most
      the key and the entries from it on are above it. */
  lemma BisectKeyRightSpec(o: Order, s: seq<Counted>, key: string, tie: int)
    requires Sorted(o, s)
    ensures var i := BisectKeyRight(o, s, key, tie);
      && (forall k :: 0 <= k < i ==> KeyLe(Key(o, s[k]), Tie(o, s[k]), key, tie))
      && (forall k :: i <= k < |s| ==> !KeyLe(Key(o, s[k]), Tie(o, s[k]), key, tie))
  {
    BisectLow(o, s, key, tie);
    BisectHigh(o, s, key, tie);
  }

  lemma BisectLow(o: Order, s: seq<Counted>, key: string, tie: int)
    requires Sorted(o, s)
    ensures forall k :: 0 <= k < BisectKeyRight(o, s, key, tie) ==> AtMost(o, s[k], key, tie)
  {
    var i := BisectKeyRight(o, s, key, tie);
    BisectBelowScan(AtMostFlags(o, s, key, tie), |s|);
    if i > 0 {
      FlagAt(o, s, key, tie, i - 1);
      AllBelow(o, s, key, tie, i);
    }
  }

  /** The flag before the bisection point is set and the flags from it up to
      n are not. */
  lemma {:induction false} BisectBelowScan(f: seq<bool>, n: nat)
    requires n <= |f|
    ensures var i := BisectBelow(f, n);
      && (i > 0 ==> f[i - 1])
      && (forall k :: i <= k < n ==> !f[k])
  {
    if n > 0 && !f[n - 1] {
      BisectBelowScan(f, n - 1);
    }
  }

  lemma FlagAt(o: Order, s: seq<Counted>, key: string, tie: int, k: nat)
    requires k < |s|
    ensures AtMostFlags(o, s, key, tie)[k] == AtMost(o, s[k], key, tie)
  {
  }

  lemma BisectHigh(o: Order, s: seq<Counted>, key: string, tie: int)
    ensures forall k :: BisectKeyRight(o, s, key, tie) <= k < |s| ==> !AtMost(o, s[k], key, tie)
  {
    var f := AtMostFlags(o, s, key, tie);
    var i := BisectKeyRight(o, s, key, tie);
    BisectBelowScan(f, |s|);
    forall k | i <= k < |s| ensures !AtMost(o, s[k], key, tie) {
      FlagAt(o, s, key, tie, k);
    }
  }

  /** When the entry before n is at most the key, so is every entry before it. */
  lemma AllBelow(o: Order, s: seq<Counted>, key: string, tie: int, n: nat)
    requires Sorted(o, s) && 0 < n <= |s|
    requires AtMost(o, s[n - 1], key, tie)
    ensures forall k :: 0 <= k < n ==> AtMost(o, s[k], key, tie)
  {
    forall k | 0 <= k < n - 1 ensures AtMost(o, s[k], key, tie) {
      SortedPair(o, s, k, n - 1);
      AtMostTransitive(o, s[k], s[n - 1], key, tie);
    }
  }

  lemma AtMostTransitive(o: Order, x: Counted, y: Counted, key: string, tie: int)
    requires Le(o, x, y) && AtMost(o, y, key, tie)
    ensures AtMost(o, x, key, tie)
  {
    KeyLeTransitive(Key(o, x), Tie(o, x), Key(o, y), Tie(o, y), key, tie);
  }

  /** `collected.add(x)`: insert after the entries that are not above x. */
  function Insert(o: Order, s: seq<Counted>, x: Counted): seq<Counted> {
    var i := BisectKeyRight(o, s, Key(o, x), Tie(o, x));
    s[..i] + [x] + s[i..]
  }

  /** Inserting adds exactly x. */
  lemma InsertContents(o: Order, s: seq<Counted>, x: Counted)
    ensures multiset(Insert(o, s, x)) == multiset(s) + multiset{x}
    ensures |Insert(o, s, x)| == |s| + 1
  {
    var i := BisectKeyRight(o, s, Key(o, x), Tie(o, x));
    assert s == s[..i] + s[i..];
  }

  /** The entry at j after placing x at position p. */
  lemma SpliceAt(s: seq<Counted>, x: Counted, p: nat, j: nat)
    requires p <= |s| && j <= |s|
    ensures (s[..p] + [x] + s[p..])[j] == if j < p then s[j] else if j == p then x else s[j - 1]
  {
  }

  /** Inserting keeps a list sorted. */
  lemma InsertSpec(o: Order, s: seq<Counted>, x: Counted)
    requires Sorted(o, s)
    ensures Sorted(o, Insert(o, s, x))
  {
    var i := BisectKeyRight(o, s, Key(o, x), Tie(o, x));
    var r := Insert(o, s, x);
    BisectKeyRightSpec(o, s, Key(o, x), Tie(o, x));
    forall a, b | 0 <= a < b < |r| ensures Le(o, r[a], r[b]) {
      if a < i && b == i {
      } else if a == i {
        KeyLeTotal(Key(o, x), Tie(o, x), Key(o, r[b]), Tie(o, r[b]));
      } else if a < i && b > i {
        KeyLeTotal(Key(o, x), Tie(o, x), Key(o, r[b]), Tie(o, r[b]));
        KeyLeTransitive(Key(o, r[a]), Tie(o, r[a]), Key(o, x), Tie(o, x), Key(o, r[b]), Tie(o, r[b]));
      } else {
        var a', b' := if a < i then a else a - 1, if b < i then b else b - 1;
        assert r[a] == s[a'] && r[b] == s[b'];
      }
    }
  }

  /** `del collected[i]` */
  function Delete(s: seq<Counted>, i: nat): seq<Counted>
    requires i < |s|
  {
    s[..i] + s[i + 1..]
  }

  /** Deleting removes exactly the entry at i. */
  lemma DeleteContents(s: seq<Counted>, i: nat)
    requires i < |s|
    ensures multiset(Delete(s, i)) + multiset{s[i]} == multiset(s)
    ensures |Delete(s, i)| == |s| - 1
  {
    assert s == s[..i] + [s[i]] + s[i + 1..];
  }

  /** Deleting keeps a list sorted. */
  lemma DeleteSpec(o: Order, s: seq<Counted>, i: nat)
    requires Sorted(o, s) && i < |s|
    ensures Sorted(o, Delete(s, i))
  {
    var r := Delete(s, i);
    forall a, b | 0 <= a < b < |r| ensures Le(o, r[a], r[b]) {
      DeleteAt(s, i, a);
      DeleteAt(s, i, b);
      SortedPair(o, s, if a < i then a else a + 1, if b < i then b else b + 1);
    }
  }

  /** The entry at a after deleting the one at i. */
  lemma DeleteAt(s: seq<Counted>, i: nat, a: nat)
    requires i < |s| && a < |s| - 1
    ensures Delete(s, i)[a] == s[if a < i then a else a + 1]
  {
  }

  /** Two entries of a sorted list, in order. */
  lemma SortedPair(o: Order, s: seq<Counted>, a: nat, b: nat)
    requires Sorted(o, s) && a < b < |s|
    ensures Le(o, s[a], s[b])
  {
  }

  /** `sorted(xs)` / `sorted(xs, key=...)`: insertion at the bisect-right
      position, which keeps equal entries in input order as Python's stable
      sort does. */
  function Sort(o: Order, xs: seq<Counted>): seq<Counted> {
    if xs == [] then [] else Insert(o, Sort(o, xs[..|xs| - 1]), xs[|xs| - 1])
  }

  /** The result of Sort is sorted and a permutation of its input. */
  lemma {:induction false} SortSpec(o: Order, xs: seq<Counted>)
    ensures Sorted(o, Sort(o, xs))
    ensures multiset(Sort(o, xs)) == multiset(xs)
    ensures |Sort(o, xs)| == |xs|
  {
    if xs != [] {
      var d, x := xs[..|xs| - 1], xs[|xs| - 1];
      SortSpec(o, d);
      InsertSpec(o, Sort(o, d), x);
      InsertContents(o, Sort(o, d), x);
      MultisetSnoc(xs);
    }
  }

  lemma MultisetSnoc(xs: seq<Counted>)
    requires xs != []
    ensures multiset(xs) == multiset(xs[..|xs| - 1]) + multiset{xs[|xs| - 1]}
  {
    assert xs == xs[..|xs| - 1] + [xs[|xs| - 1]];
  }
}
