/** String helpers shared by the engine, the suffix-dominance index and the
    brute-force oracles: Python's startswith/endswith, s[::-1], ''.join, and
    the code-point lexicographic order that Python uses to compare str. */
module Strings {

  /** `b.startswith(a)` */
  predicate IsPrefix(a: string, b: string) {
    |a| <= |b| && b[..|a|] == a
  }

  /** `b.endswith(a)` */
  predicate IsSuffix(a: string, b: string) {
    |a| <= |b| && b[|b| - |a|..] == a
  }

  /** `s[::-1]` */
  function Reverse(s: string): (r: string)
    ensures |r| == |s|
  {
    if s == [] then [] else Reverse(s[1..]) + [s[0]]
  }

  /** The i-th character of the reversal is the i-th from the end. */
  lemma {:induction false} ReverseAt(s: string)
    ensures forall i :: 0 <= i < |s| ==> Reverse(s)[i] == s[|s| - 1 - i]
  {
    if s != [] {
      ReverseAt(s[1..]);
    }
  }

  /** Reversal is its own inverse. */
  lemma {:induction false} ReverseReverse(s: string)
    ensures Reverse(Reverse(s)) == s
  {
    var r := Reverse(Reverse(s));
    ReverseAt(s);
    ReverseAt(Reverse(s));
    assert |r| == |s|;
    forall i | 0 <= i < |s| ensures r[i] == s[i] {
      assert r[i] == Reverse(s)[|s| - 1 - i];
    }
  }

  /** Reversal is injective. */
  lemma ReverseInjective(a: string, b: string)
    requires Reverse(a) == Reverse(b)
    ensures a == b
  {
    ReverseReverse(a);
    ReverseReverse(b);
  }

  /** Reversal turns "ends with" into "starts with": this is why the
      suffix-dominance index is keyed by reversed strings. */
  lemma SuffixIffReversedPrefix(a: string, b: string)
    ensures IsSuffix(a, b) <==> IsPrefix(Reverse(a), Reverse(b))
  {
    if IsSuffix(a, b) {
      SuffixReversed(a, b);
    }
    if IsPrefix(Reverse(a), Reverse(b)) {
      ReversedPrefix(a, b);
    }
  }

  lemma SuffixReversed(a: string, b: string)
    requires IsSuffix(a, b)
    ensures IsPrefix(Reverse(a), Reverse(b))
  {
    var ra, rb := Reverse(a), Reverse(b);
    ReverseAt(a);
    ReverseAt(b);
    forall i | 0 <= i < |a| ensures rb[i] == ra[i] {
      assert b[|b| - 1 - i] == b[|b| - |a|..][|a| - 1 - i];
    }
    assert rb[..|ra|] == ra;
  }

  lemma ReversedPrefix(a: string, b: string)
    requires IsPrefix(Reverse(a), Reverse(b))
    ensures IsSuffix(a, b)
  {
    var ra, rb := Reverse(a), Reverse(b);
    ReverseAt(a);
    ReverseAt(b);
    forall k | 0 <= k < |a| ensures b[|b| - |a|..][k] == a[k] {
      var i := |a| - 1 - k;
      assert rb[..|ra|][i] == ra[i];
    }
    assert b[|b| - |a|..] == a;
  }

  lemma PrefixTransitive(a: string, b: string, c: string)
    requires IsPrefix(a, b) && IsPrefix(b, c)
    ensures IsPrefix(a, c)
  {
    assert c[..|a|] == c[..|b|][..|a|];
  }

  lemma SuffixTransitive(a: string, b: string, c: string)
    requires IsSuffix(a, b) && IsSuffix(b, c)
    ensures IsSuffix(a, c)
  {
    assert c[|c| - |a|..] == c[|c| - |b|..][|b| - |a|..];
  }

  /** Python's `a <= b` on str: lexicographic by code point, a proper prefix first. */
  predicate LexLe(a: string, b: string) {
    |a| == 0 || (|b| > 0 && (a[0] < b[0] || (a[0] == b[0] && LexLe(a[1..], b[1..]))))
  }

  lemma {:induction false} LexReflexive(a: string)
    ensures LexLe(a, a)
  {
    if |a| > 0 { LexReflexive(a[1..]); }
  }

  lemma {:induction false} LexTotal(a: string, b: string)
    ensures LexLe(a, b) || LexLe(b, a)
  {
    if |a| > 0 && |b| > 0 && a[0] == b[0] { LexTotal(a[1..], b[1..]); }
  }

  lemma {:induction false} LexAntisymmetric(a: string, b: string)
    requires LexLe(a, b) && LexLe(b, a)
    ensures a == b
  {
    if |a| > 0 && |b| > 0 {
      LexAntisymmetric(a[1..], b[1..]);
      assert a == [a[0]] + a[1..] && b == [b[0]] + b[1..];
    }
  }

  lemma {:induction false} LexTransitive(a: string, b: string, c: string)
    requires LexLe(a, b) && LexLe(b, c)
    ensures LexLe(a, c)
  {
    if |a| > 0 && a[0] == b[0] && b[0] == c[0] { LexTransitive(a[1..], b[1..], c[1..]); }
  }

  /** A prefix sorts no later than the string it starts. */
  lemma {:induction false} PrefixLexLe(a: string, b: string)
    requires IsPrefix(a, b)
    ensures LexLe(a, b)
  {
    if |a| > 0 {
      assert b[1..][..|a| - 1] == b[..|a|][1..];
      PrefixLexLe(a[1..], b[1..]);
    }
  }

  /** Everything sorted between a string and one of its extensions extends it too:
      this is why comparing sorted neighbours is enough to find prefixes. */
  lemma {:induction false} LexInterval(a: string, b: string, c: string)
    requires LexLe(a, b) && LexLe(b, c) && IsPrefix(a, c)
    ensures IsPrefix(a, b)
  {
    if |a| > 0 {
      assert c[0] == a[0];
      assert b[0] == a[0];
      assert c[1..][..|a| - 1] == c[..|a|][1..];
      LexInterval(a[1..], b[1..], c[1..]);
      assert b[..|a|] == [b[0]] + b[1..][..|a| - 1];
    }
  }

  /** `''.join(parts)` */
  function Join(parts: seq<string>): string {
    if parts == [] then "" else Join(parts[..|parts| - 1]) + parts[|parts| - 1]
  }
}
