/** The "obviously correct" reference finders of tests/utils.py:
    `count_overlapping` (a `str.find` loop), `find_substrings_slow` (every
    slice of the text with its overlapping occurrence count) and
    `find_frequent_substrings_slow` (filter by the thresholds, sort, drop
    every candidate that is a prefix of its successor, sort by reversed
    substring, drop every candidate that is a suffix of its successor). */
module Oracles {
  import opened Strings
  import opened Sorting
  import opened Collector

  /** sub occurs in text at position i. */
  predicate OccursAt(text: string, sub: string, i: int) {
    0 <= i && i + |sub| <= |text| && text[i..i + |sub|] == sub
  }

  /** `sub in text`: a is a slice of b. */
  ghost predicate IsInfix(a: string, b: string) {
    exists i :: OccursAt(b, a, i)
  }

  /** `text.find(sub, start)`: the first occurrence at or after start, or -1. */
  function Find(text: string, sub: string, start: nat): (i: int)
    ensures i == -1 || (start <= i && OccursAt(text, sub, i))
    ensures forall j :: start <= j && (i == -1 || j < i) ==> !OccursAt(text, sub, j)
    decreases |text| - start
  {
    if start + |sub| > |text| then -1
    else if OccursAt(text, sub, start) then start
    else Find(text, sub, start + 1)
  }

  /** The number of positions at or after start where sub occurs. */
  function CountFrom(text: string, sub: string, start: nat): nat
    decreases |text| - start
  {
    if start + |sub| > |text| then 0
    else (if OccursAt(text, sub, start) then 1 else 0) + CountFrom(text, sub, start + 1)
  }

  /** The number of overlapping occurrences of sub in text. */
  function Occurrences(text: string, sub: string): nat {
    CountFrom(text, sub, 0)
  }

  /** The positions at or after start where sub occurs. */
  function PositionsFrom(text: string, sub: string, start: nat): set<int> {
    set i | start <= i <= |text| - |sub| && OccursAt(text, sub, i)
  }

  /** Counting from start counts exactly the positions from start on. */
  lemma {:induction false} CountIsPositions(text: string, sub: string, start: nat)
    ensures CountFrom(text, sub, start) == |PositionsFrom(text, sub, start)|
    decreases |text| - start
  {
    if start + |sub| > |text| {
      assert PositionsFrom(text, sub, start) == {};
    } else {
      CountIsPositions(text, sub, start + 1);
      var here: set<int> := if OccursAt(text, sub, start) then {start} else {};
      assert PositionsFrom(text, sub, start) == here + PositionsFrom(text, sub, start + 1);
    }
  }

  /** Occurrences is the number of positions where sub occurs. */
  lemma OccurrencesArePositions(text: string, sub: string)
    ensures Occurrences(text, sub) == |set i | 0 <= i <= |text| - |sub| && OccursAt(text, sub, i)|
  {
    CountIsPositions(text, sub, 0);
    assert PositionsFrom(text, sub, 0) == set i | 0 <= i <= |text| - |sub| && OccursAt(text, sub, i);
  }

  /** Counting from start is one find and then counting after what it found. */
  lemma {:induction false} FindCount(text: string, sub: string, start: nat)
    ensures Find(text, sub, start) == -1 ==> CountFrom(text, sub, start) == 0
    ensures Find(text, sub, start) >= 0 ==>
      CountFrom(text, sub, start) == 1 + CountFrom(text, sub, Find(text, sub, start) + 1)
    decreases |text| - start
  {
    if start + |sub| <= |text| && !OccursAt(text, sub, start) {
      FindCount(text, sub, start + 1);
    }
  }

  /** `count_overlapping(text, sub)` */
  method CountOverlapping(text: string, sub: string) returns (count: nat)
    ensures count == Occurrences(text, sub)
  {
    count := 0;
    var start: nat := 0;
    var i := 0;
    while i >= 0
      invariant start <= |text| + 1
      invariant i >= 0 ==> count + CountFrom(text, sub, start) == Occurrences(text, sub)
      invariant i < 0 ==> count == Occurrences(text, sub)
      decreases if i < 0 then 0 else |text| + 2 - start
    {
      i := Find(text, sub, start);
      FindCount(text, sub, start);
      if i >= 0 {
        count := count + 1;
        start := i + 1;
      }
    }
  }

  /** A one-character slice is that character. */
  lemma SliceOne(text: string, i: nat)
    requires i < |text|
    ensures text[i..i + 1] == [text[i]]
  {
  }

  /** `count_overlapping('BBC', 'B')` is 2. */
  lemma CountExampleBBC()
    ensures Occurrences("BBC", "B") == 2
  {
    assert CountFrom("BBC", "B", 3) == 0;
    assert "BBC"[2] != "B"[0];
    assert CountFrom("BBC", "B", 2) == 0;
    SliceOne("BBC", 1);
    assert OccursAt("BBC", "B", 1);
    assert CountFrom("BBC", "B", 1) == 1;
    SliceOne("BBC", 0);
    assert OccursAt("BBC", "B", 0);
    assert CountFrom("BBC", "B", 0) == 2;
  }

  /** `count_overlapping('banana', 'ana')` is 2: the two occurrences overlap. */
  lemma CountExampleBanana()
    ensures Occurrences("banana", "ana") == 2
  {
    assert CountFrom("banana", "ana", 4) == 0;
    assert OccursAt("banana", "ana", 3);
    assert CountFrom("banana", "ana", 3) == 1;
    assert "banana"[2] != "ana"[0];
    assert CountFrom("banana", "ana", 2) == 1;
    assert OccursAt("banana", "ana", 1);
    assert CountFrom("banana", "ana", 1) == 2;
    assert "banana"[0] != "ana"[0];
    assert CountFrom("banana", "ana", 0) == 2;
  }

  /** Three of the occurrences of 'e' in 'nefernefernefer' are at or after position 8. */
  lemma CountExampleNeferTail()
    ensures CountFrom("nefernefernefer", "e", 8) == 3
  {
    assert CountFrom("nefernefernefer", "e", 15) == 0;
    assert "nefernefernefer"[14] != "e"[0];
    assert CountFrom("nefernefernefer", "e", 14) == 0;
    SliceOne("nefernefernefer", 13);
    assert OccursAt("nefernefernefer", "e", 13);
    assert CountFrom("nefernefernefer", "e", 13) == 1;
    assert "nefernefernefer"[12] != "e"[0];
    assert CountFrom("nefernefernefer", "e", 12) == 1;
    SliceOne("nefernefernefer", 11);
    assert OccursAt("nefernefernefer", "e", 11);
    assert CountFrom("nefernefernefer", "e", 11) == 2;
    assert "nefernefernefer"[10] != "e"[0];
    assert CountFrom("nefernefernefer", "e", 10) == 2;
    assert "nefernefernefer"[9] != "e"[0];
    assert CountFrom("nefernefernefer", "e", 9) == 2;
    SliceOne("nefernefernefer", 8);
    assert OccursAt("nefernefernefer", "e", 8);
    assert CountFrom("nefernefernefer", "e", 8) == 3;
  }

  /** `count_overlapping('nefernefernefer', 'e')` is 6. */
  lemma CountExampleNefer()
    ensures Occurrences("nefernefernefer", "e") == 6
  {
    CountExampleNeferTail();
    assert "nefernefernefer"[7] != "e"[0];
    assert CountFrom("nefernefernefer", "e", 7) == 3;
    SliceOne("nefernefernefer", 6);
    assert OccursAt("nefernefernefer", "e", 6);
    assert CountFrom("nefernefernefer", "e", 6) == 4;
    assert "nefernefernefer"[5] != "e"[0];
    assert CountFrom("nefernefernefer", "e", 5) == 4;
    assert "nefernefernefer"[4] != "e"[0];
    assert CountFrom("nefernefernefer", "e", 4) == 4;
    SliceOne("nefernefernefer", 3);
    assert OccursAt("nefernefernefer", "e", 3);
    assert CountFrom("nefernefernefer", "e", 3) == 5;
    assert "nefernefernefer"[2] != "e"[0];
    assert CountFrom("nefernefernefer", "e", 2) == 5;
    SliceOne("nefernefernefer", 1);
    assert OccursAt("nefernefernefer", "e", 1);
    assert CountFrom("nefernefernefer", "e", 1) == 6;
    assert "nefernefernefer"[0] != "e"[0];
    assert CountFrom("nefernefernefer", "e", 0) == 6;
  }

  /** A position where sub occurs is counted. */
  lemma {:induction false} CountFromPositive(text: string, sub: string, start: nat, i: int)
    requires start <= i && OccursAt(text, sub, i)
    ensures CountFrom(text, sub, start) >= 1
    decreases |text| - start
  {
    if start < i { CountFromPositive(text, sub, start + 1, i); }
  }

  /** Counting from later counts no more. */
  lemma {:induction false} CountFromAntitone(text: string, sub: string, a: nat, b: nat)
    requires a <= b
    ensures CountFrom(text, sub, a) >= CountFrom(text, sub, b)
    decreases b - a
  {
    if a < b {
      CountFromAntitone(text, sub, a + 1, b);
    }
  }

  /** Every occurrence of u is an occurrence of u[i..], shifted by i. */
  lemma {:induction false} CountFromDrop(text: string, u: string, i: nat, start: nat)
    requires i <= |u|
    ensures CountFrom(text, u, start) <= CountFrom(text, u[i..], start + i)
    decreases |text| - start
  {
    if start + |u| <= |text| {
      CountFromDrop(text, u, i, start + 1);
      if OccursAt(text, u, start) {
        assert text[start + i..start + i + |u[i..]|] == text[start..start + |u|][i..];
      }
    }
  }

  /** A suffix of a string occurs at least as often as the string. */
  lemma OccurrencesOfSuffix(text: string, u: string, i: nat)
    requires i <= |u|
    ensures Occurrences(text, u[i..]) >= Occurrences(text, u)
  {
    CountFromDrop(text, u, i, 0);
    CountFromAntitone(text, u[i..], 0, i);
  }

  /** `set(text[i:j] for i in range(len(text)) for j in range(i+1, len(text)+1))` */
  function SubstringSet(text: string): set<string> {
    set i, j | 0 <= i < j <= |text| :: text[i..j]
  }

  /** `find_substrings_slow(text)`: every distinct substring with its count.
      (The generator's order is the set's iteration order, which this model
      leaves unspecified by returning a set.) */
  function FindSubstringsSlow(text: string): set<Counted> {
    set s | s in SubstringSet(text) :: Counted(s, Occurrences(text, s))
  }

  /** The pairs are exactly the non-empty slices of text, each with its
      overlapping occurrence count, which is at least 1. */
  lemma FindSubstringsSlowSpec(text: string)
    ensures forall c :: c in FindSubstringsSlow(text) <==>
      c.text != "" && IsInfix(c.text, text) && c.freq == Occurrences(text, c.text)
    ensures forall c :: c in FindSubstringsSlow(text) ==> c.freq >= 1
  {
    forall c | c in FindSubstringsSlow(text) ensures c.text != "" && IsInfix(c.text, text) && c.freq >= 1 {
      var i, j :| 0 <= i < j <= |text| && c.text == text[i..j];
      assert OccursAt(text, c.text, i);
      CountFromPositive(text, c.text, 0, i);
    }
    forall c: Counted | c.text != "" && IsInfix(c.text, text) && c.freq == Occurrences(text, c.text)
      ensures c in FindSubstringsSlow(text)
    {
      var i :| OccursAt(text, c.text, i);
      assert c.text == text[i..i + |c.text|];
      assert c.text in SubstringSet(text);
    }
  }

  /** Within the set, a substring determines its pair. */
  ghost predicate TextsDetermine(S: set<Counted>) {
    forall a, b :: a in S && b in S && a.text == b.text ==> a == b
  }

  /** The filter of `find_frequent_substrings_slow`: the pairs at least
      min_length long and at least min_support frequent. */
  function Candidates(text: string, minSupport: int, minLength: int): set<Counted> {
    set c | c in FindSubstringsSlow(text) && |c.text| >= minLength && c.freq >= minSupport
  }

  /** What a pass compares a candidate with its successor by:
      `next.startswith(cand)` after the tuple sort, `next.endswith(cand)`
      after the reversed sort. */
  predicate Related(o: Order, a: string, b: string) {
    match o
    case ByTuple => IsPrefix(a, b)
    case ByReversedText => IsSuffix(a, b)
  }

  /** The candidate at k survives its pass: it is the last one, or its
      successor does not extend it. */
  predicate Keep(o: Order, s: seq<Counted>, k: nat)
    requires k < |s|
  {
    k + 1 == |s| || !Related(o, s[k].text, s[k + 1].text)
  }

  /** The survivors among the first n candidates, in order. */
  function Pass(o: Order, s: seq<Counted>, n: nat): seq<Counted>
    requires n <= |s|
  {
    if n == 0 then [] else Pass(o, s, n - 1) + (if Keep(o, s, n - 1) then [s[n - 1]] else [])
  }

  /** The members of S that no other member of S extends. */
  ghost function Unextended(o: Order, S: set<Counted>): set<Counted> {
    set c | c in S && forall d :: d in S && d != c ==> !Related(o, c.text, d.text)
  }

  /** What `find_frequent_substrings_slow` returns, as a set: the candidates
      that are no prefix of another candidate, and of those, the ones that
      are no suffix of another. */
  ghost function SlowFrequent(text: string, minSupport: int, minLength: int): set<Counted> {
    Unextended(ByReversedText, Unextended(ByTuple, Candidates(text, minSupport, minLength)))
  }

  predicate NoDup(s: seq<Counted>) {
    forall a, b :: 0 <= a < b < |s| ==> s[a] != s[b]
  }

  /** No entry twice is the same as every multiplicity at most one. */
  lemma {:induction false} NoDupCounts(s: seq<Counted>)
    ensures NoDup(s) <==> forall x :: multiset(s)[x] <= 1
  {
    if s != [] {
      var d, y := s[..|s| - 1], s[|s| - 1];
      NoDupCounts(d);
      assert s == d + [y];
      assert forall x :: multiset(s)[x] == multiset(d)[x] + (if x == y then 1 else 0);
      if NoDup(s) {
        assert NoDup(d) by {
          forall a, b | 0 <= a < b < |d| ensures d[a] != d[b] { assert d[a] == s[a] && d[b] == s[b]; }
        }
        assert multiset(d)[y] == 0;
      }
      if forall x :: multiset(s)[x] <= 1 {
        assert forall x :: multiset(d)[x] <= 1;
        assert multiset(d)[y] == 0;
        forall a, b | 0 <= a < b < |s| ensures s[a] != s[b] {
          assert s[a] == d[a];
          if b == |s| - 1 { assert d[a] in multiset(d); }
          else { assert s[b] == d[b]; }
        }
      }
    }
  }

  /** A sequence with the multiset of a set holds each of its members once. */
  lemma MultisetOfSet(s: seq<Counted>, S: set<Counted>)
    requires multiset(s) == multiset(S)
    ensures NoDup(s) && forall x :: x in s <==> x in S
  {
    NoDupCounts(s);
    forall x ensures x in s <==> x in S {
      assert x in s <==> x in multiset(s);
    }
  }

  /** A sequence holding the members of a set once each has its multiset. */
  lemma SetOfMultiset(s: seq<Counted>, S: set<Counted>)
    requires NoDup(s) && forall x :: x in s <==> x in S
    ensures multiset(s) == multiset(S)
  {
    NoDupCounts(s);
    forall x ensures multiset(s)[x] == multiset(S)[x] {
      assert x in s <==> x in multiset(s);
    }
  }

  /** The survivors among the first n are the candidates before n that survive. */
  lemma {:induction false} PassMembers(o: Order, s: seq<Counted>, n: nat)
    requires n <= |s|
    ensures forall x :: x in Pass(o, s, n) <==> exists k :: 0 <= k < n && s[k] == x && Keep(o, s, k)
  {
    if n > 0 {
      PassMembers(o, s, n - 1);
    }
  }

  /** A pass keeps a subsequence, so it keeps a sorted list sorted. */
  lemma PassSorted(o: Order, s: seq<Counted>, n: nat)
    requires n <= |s| && Sorted(o, s)
    ensures Sorted(o, Pass(o, s, n))
  {
    var p := Pass(o, s, n);
    forall a, b | 0 <= a < b < |p| ensures Le(o, p[a], p[b]) {
      var ka, kb := PassOrder(o, s, n, a, b);
      SortedPair(o, s, ka, kb);
    }
  }

  /** Two entries of a pass come from candidates in the same order. */
  lemma {:induction false} PassOrder(o: Order, s: seq<Counted>, n: nat, a: nat, b: nat) returns (ka: nat, kb: nat)
    requires n <= |s| && a < b < |Pass(o, s, n)|
    ensures ka < kb < n && s[ka] == Pass(o, s, n)[a] && s[kb] == Pass(o, s, n)[b]
  {
    var p := Pass(o, s, n - 1);
    if b < |p| {
      assert Pass(o, s, n)[a] == p[a] && Pass(o, s, n)[b] == p[b];
      ka, kb := PassOrder(o, s, n - 1, a, b);
    } else {
      assert Pass(o, s, n)[a] == p[a] && Pass(o, s, n)[b] == s[n - 1];
      ka := PassSource(o, s, n - 1, a);
      kb := n - 1;
    }
  }

  /** The entry at i of a pass over the first n candidates is one of them. */
  lemma PassSource(o: Order, s: seq<Counted>, n: nat, i: nat) returns (k: nat)
    requires n <= |s| && i < |Pass(o, s, n)|
    ensures k < n && s[k] == Pass(o, s, n)[i]
  {
    PassMembers(o, s, n);
    assert Pass(o, s, n)[i] in Pass(o, s, n);
    k :| 0 <= k < n && s[k] == Pass(o, s, n)[i] && Keep(o, s, k);
  }

  /** A pass keeps a list without duplicates free of them. */
  lemma {:induction false} PassNoDup(o: Order, s: seq<Counted>, n: nat)
    requires n <= |s| && NoDup(s)
    ensures NoDup(Pass(o, s, n))
  {
    if n > 0 {
      PassNoDup(o, s, n - 1);
      PassMembers(o, s, n - 1);
      var p := Pass(o, s, n - 1);
      if Keep(o, s, n - 1) {
        var r := p + [s[n - 1]];
        forall a, b | 0 <= a < b < |r| ensures r[a] != r[b] {
          if b == |p| {
            assert r[a] in p;
            var k :| 0 <= k < n - 1 && s[k] == r[a] && Keep(o, s, k);
          } else {
            assert r[a] == p[a] && r[b] == p[b];
          }
        }
      }
    }
  }

  /** The relation a pass tests is a prefix test on the sort key. */
  lemma RelatedIsKeyPrefix(o: Order, a: Counted, b: Counted)
    ensures Related(o, a.text, b.text) <==> IsPrefix(Key(o, a), Key(o, b))
  {
    if o == ByReversedText { SuffixIffReversedPrefix(a.text, b.text); }
  }

  /** Equal sort keys mean equal substrings. */
  lemma KeyInjective(o: Order, a: Counted, b: Counted)
    ensures Key(o, a) == Key(o, b) ==> a.text == b.text
  {
    if o == ByReversedText && Key(o, a) == Key(o, b) { ReverseInjective(a.text, b.text); }
  }

  /** In a sorted list of distinct substrings, the successor test of a pass
      decides whether any other candidate extends the one at k: whatever
      extends it sorts right after it, before anything that does not. */
  lemma KeepIffUnextended(o: Order, s: seq<Counted>, S: set<Counted>, k: nat)
    requires Sorted(o, s) && NoDup(s) && (forall x :: x in s <==> x in S) && TextsDetermine(S) && k < |s|
    ensures Keep(o, s, k) <==> forall d :: d in S && d != s[k] ==> !Related(o, s[k].text, d.text)
  {
    if !Keep(o, s, k) {
      assert s[k + 1] in S;
    } else {
      forall d | d in S && d != s[k] ensures !Related(o, s[k].text, d.text) {
        var j :| 0 <= j < |s| && s[j] == d;
        var kk, kj := Key(o, s[k]), Key(o, d);
        RelatedIsKeyPrefix(o, s[k], d);
        KeyInjective(o, s[k], d);
        if IsPrefix(kk, kj) {
          if j < k {
            KeyLeLexLe(kj, Tie(o, d), kk, Tie(o, s[k]));
            PrefixLexLe(kk, kj);
            LexAntisymmetric(kk, kj);
          } else if j > k + 1 {
            var kn := Key(o, s[k + 1]);
            KeyLeLexLe(kk, Tie(o, s[k]), kn, Tie(o, s[k + 1]));
            KeyLeLexLe(kn, Tie(o, s[k + 1]), kj, Tie(o, d));
            LexInterval(kk, kn, kj);
            RelatedIsKeyPrefix(o, s[k], s[k + 1]);
          }
        }
      }
    }
  }

  /** A pass over a sorted list holding the members of S once each keeps
      exactly the members no other member extends. */
  lemma PassIsUnextended(o: Order, s: seq<Counted>, S: set<Counted>)
    requires Sorted(o, s) && multiset(s) == multiset(S) && TextsDetermine(S)
    ensures forall x :: x in Pass(o, s, |s|) <==> x in Unextended(o, S)
    ensures NoDup(Pass(o, s, |s|))
  {
    MultisetOfSet(s, S);
    PassMembers(o, s, |s|);
    PassNoDup(o, s, |s|);
    forall x ensures x in Pass(o, s, |s|) <==> x in Unextended(o, S) {
      if x in S {
        var k :| 0 <= k < |s| && s[k] == x;
        KeepIffUnextended(o, s, S, k);
        if x in Pass(o, s, |s|) {
          var k' :| 0 <= k' < |s| && s[k'] == x && Keep(o, s, k');
          assert k' == k;
        }
      }
    }
  }

  /** The pairs of `find_substrings_slow` are determined by their substring. */
  lemma CandidatesDetermined(text: string, minSupport: int, minLength: int)
    ensures TextsDetermine(Candidates(text, minSupport, minLength))
  {
    FindSubstringsSlowSpec(text);
  }

  /** Iterating over a set: its members in some order, each once. */
  method SetToSeq(S: set<Counted>) returns (xs: seq<Counted>)
    ensures multiset(xs) == multiset(S)
  {
    xs := [];
    var rest := S;
    while rest != {}
      invariant multiset(xs) + multiset(rest) == multiset(S)
      decreases |rest|
    {
      var x :| x in rest;
      xs := xs + [x];
      rest := rest - {x};
    }
  }

  /** One `zip(s[:-1], s[1:])` pass followed by keeping the last element. */
  method RunPass(o: Order, s: seq<Counted>) returns (kept: seq<Counted>)
    ensures kept == Pass(o, s, |s|)
  {
    kept := [];
    var k := 0;
    while k + 1 < |s|
      invariant k <= |s| && (k < |s| || s == [])
      invariant kept == Pass(o, s, k)
    {
      if !Related(o, s[k].text, s[k + 1].text) {
        kept := kept + [s[k]];
      }
      k := k + 1;
    }
    if s != [] {
      kept := kept + [s[|s| - 1]];
    }
  }

  /** `find_frequent_substrings_slow(text, min_support, min_length)`: the
      result holds each member of SlowFrequent exactly once, sorted by
      reversed substring. */
  method FindFrequentSubstringsSlow(text: string, minSupport: int, minLength: int) returns (frequent: seq<Counted>)
    ensures forall x :: x in frequent <==> x in SlowFrequent(text, minSupport, minLength)
    ensures NoDup(frequent)
    ensures Sorted(ByReversedText, frequent)
  {
    var candidates := Candidates(text, minSupport, minLength);
    var xs := SetToSeq(candidates);
    var sorted := Sort(ByTuple, xs);
    var temp := RunPass(ByTuple, sorted);
    ghost var T := Unextended(ByTuple, candidates);
    SortSpec(ByTuple, xs);
    CandidatesDetermined(text, minSupport, minLength);
    PassIsUnextended(ByTuple, sorted, candidates);
    SetOfMultiset(temp, T);
    var temp' := Sort(ByReversedText, temp);
    SortSpec(ByReversedText, temp);
    frequent := RunPass(ByReversedText, temp');
    PassIsUnextended(ByReversedText, temp', T);
    PassSorted(ByReversedText, temp', |temp'|);
  }

  /** Every returned pair is a pair of `find_substrings_slow` that meets both thresholds. */
  lemma SlowFrequentThresholds(text: string, minSupport: int, minLength: int)
    ensures forall c :: c in SlowFrequent(text, minSupport, minLength) ==>
      && c.text != "" && IsInfix(c.text, text) && c.freq == Occurrences(text, c.text)
      && |c.text| >= minLength && c.freq >= minSupport
  {
    FindSubstringsSlowSpec(text);
  }

  /** A candidate that ends where a longer candidate's slice ends, started
      later, is a candidate: it is long enough and occurs at least as often. */
  lemma SuffixCandidate(text: string, minSupport: int, minLength: int, b: Counted, a: string, i: nat)
    requires b in Candidates(text, minSupport, minLength)
    requires i <= |b.text| && |b.text| - i >= |a| && |a| >= minLength && a != ""
    ensures Counted(b.text[i..], Occurrences(text, b.text[i..])) in Candidates(text, minSupport, minLength)
  {
    FindSubstringsSlowSpec(text);
    var v := b.text[i..];
    var p :| OccursAt(text, b.text, p);
    assert text[p + i..p + i + |v|] == text[p..p + |b.text|][i..];
    assert OccursAt(text, v, p + i);
    OccurrencesOfSuffix(text, b.text, i);
  }

  /** No returned substring is a slice of another returned substring. */
  lemma SlowFrequentInfixFree(text: string, minSupport: int, minLength: int)
    ensures forall a, b ::
      a in SlowFrequent(text, minSupport, minLength) && b in SlowFrequent(text, minSupport, minLength) && a != b
      ==> !IsInfix(a.text, b.text)
  {
    var F := SlowFrequent(text, minSupport, minLength);
    forall a, b | a in F && b in F && a != b ensures !IsInfix(a.text, b.text) {
      InfixPair(text, minSupport, minLength, a, b);
    }
  }

  /** One pair of returned substrings: a slice of b that does not reach b's
      end starts a longer candidate, and one that does is a suffix of b. */
  lemma InfixPair(text: string, minSupport: int, minLength: int, a: Counted, b: Counted)
    requires a in SlowFrequent(text, minSupport, minLength) && b in SlowFrequent(text, minSupport, minLength)
    requires a != b
    ensures !IsInfix(a.text, b.text)
  {
    var C := Candidates(text, minSupport, minLength);
    CandidatesDetermined(text, minSupport, minLength);
    if IsInfix(a.text, b.text) {
      var i :| OccursAt(b.text, a.text, i);
      assert a.text != b.text;
      if i + |a.text| < |b.text| {
        SuffixCandidate(text, minSupport, minLength, b, a.text, i);
      }
    }
  }

  /** Related strings of equal length are equal. */
  lemma RelatedSameLength(o: Order, a: string, b: string)
    requires Related(o, a, b) && |a| == |b|
    ensures a == b
  {
  }

  lemma RelatedTransitive(o: Order, a: string, b: string, c: string)
    requires Related(o, a, b) && Related(o, b, c)
    ensures Related(o, a, c)
  {
    if o == ByTuple { PrefixTransitive(a, b, c); } else { SuffixTransitive(a, b, c); }
  }

  /** Every member of S is extended by (or is) a member no other member extends. */
  lemma {:induction false} Climb(o: Order, S: set<Counted>, c: Counted, bound: nat)
    requires c in S && TextsDetermine(S) && forall d :: d in S ==> |d.text| <= bound
    ensures exists u :: u in Unextended(o, S) && Related(o, c.text, u.text)
    decreases bound - |c.text|
  {
    if c in Unextended(o, S) {
      assert Related(o, c.text, c.text);
    } else {
      var d :| d in S && d != c && Related(o, c.text, d.text);
      if |d.text| == |c.text| { RelatedSameLength(o, c.text, d.text); }
      Climb(o, S, d, bound);
      var u :| u in Unextended(o, S) && Related(o, d.text, u.text);
      RelatedTransitive(o, c.text, d.text, u.text);
    }
  }

  /** A candidate is no longer than the text. */
  lemma CandidateLength(text: string, minSupport: int, minLength: int)
    ensures forall d :: d in Candidates(text, minSupport, minLength) ==> |d.text| <= |text|
  {
    FindSubstringsSlowSpec(text);
    forall d | d in Candidates(text, minSupport, minLength) ensures |d.text| <= |text| {
      var p :| OccursAt(text, d.text, p);
    }
  }

  /** A prefix of a suffix of f is a slice of f. */
  lemma PrefixOfSuffix(c: string, u: string, f: string)
    requires IsPrefix(c, u) && IsSuffix(u, f)
    ensures IsInfix(c, f)
  {
    var i := |f| - |u|;
    assert f[i..i + |c|] == f[i..][..|c|];
    assert OccursAt(f, c, i);
  }

  /** The candidate c is a slice of some returned substring: it is a prefix
      of a pass-1 survivor, which is a suffix of a pass-2 survivor. */
  lemma CoverOne(text: string, minSupport: int, minLength: int, c: Counted)
    requires c in Candidates(text, minSupport, minLength)
    ensures exists f :: f in SlowFrequent(text, minSupport, minLength) && IsInfix(c.text, f.text)
  {
    var C := Candidates(text, minSupport, minLength);
    var T := Unextended(ByTuple, C);
    CandidatesDetermined(text, minSupport, minLength);
    CandidateLength(text, minSupport, minLength);
    Climb(ByTuple, C, c, |text|);
    var u :| u in T && IsPrefix(c.text, u.text);
    Climb(ByReversedText, T, u, |text|);
    var f :| f in SlowFrequent(text, minSupport, minLength) && IsSuffix(u.text, f.text);
    PrefixOfSuffix(c.text, u.text, f.text);
  }

  /** Every candidate is a slice of some returned substring. */
  lemma SlowFrequentCovers(text: string, minSupport: int, minLength: int)
    ensures forall c :: c in Candidates(text, minSupport, minLength) ==>
      exists f :: f in SlowFrequent(text, minSupport, minLength) && IsInfix(c.text, f.text)
  {
    forall c | c in Candidates(text, minSupport, minLength)
      ensures exists f :: f in SlowFrequent(text, minSupport, minLength) && IsInfix(c.text, f.text)
    {
      CoverOne(text, minSupport, minLength, c);
    }
  }

  /** The result is empty exactly when no substring meets both thresholds,
      in particular for the empty text. */
  lemma SlowFrequentEmpty(text: string, minSupport: int, minLength: int)
    ensures SlowFrequent(text, minSupport, minLength) == {} <==> Candidates(text, minSupport, minLength) == {}
    ensures text == "" ==> SlowFrequent(text, minSupport, minLength) == {}
  {
    var C := Candidates(text, minSupport, minLength);
    if C != {} {
      var c :| c in C;
      CoverOne(text, minSupport, minLength, c);
    }
    if text == "" {
      assert SubstringSet(text) == {};
    }
  }
}
