/** `Array.prototype.sort` called without a comparator: elements are compared
    by their string conversions in lexicographic character order, and equal
    strings keep their relative order (the sort is stable). */
module StableSort {

  /** Lexicographic order on strings by character code. */
  predicate StrLt(a: string, b: string)
    decreases |a|
  {
    if |a| == 0 then |b| > 0
    else if |b| == 0 then false
    else if a[0] != b[0] then a[0] < b[0]
    else StrLt(a[1..], b[1..])
  }

  lemma {:induction false} StrLtAsymmetric(a: string, b: string)
    ensures StrLt(a, b) ==> !StrLt(b, a)
    decreases |a|
  {
    if |a| > 0 && |b| > 0 && a[0] == b[0] {
      StrLtAsymmetric(a[1..], b[1..]);
    }
  }

  lemma {:induction false} StrLtIrreflexive(a: string)
    ensures !StrLt(a, a)
    decreases |a|
  {
    if |a| > 0 {
      StrLtIrreflexive(a[1..]);
    }
  }

  /** No element compares below its predecessor. */
  predicate SortedBy<T>(s: seq<T>, key: T -> string) {
    forall i :: 0 < i < |s| ==> !StrLt(key(s[i]), key(s[i - 1]))
  }

  /** Places `x` after every element of the sorted `s` that does not compare
      above it, so that `x` lands behind the elements equal to it. */
  function Insert<T>(s: seq<T>, x: T, key: T -> string): (r: seq<T>)
    requires SortedBy(s, key)
    ensures SortedBy(r, key)
    ensures multiset(r) == multiset(s) + multiset{x}
    ensures |r| == |s| + 1
    ensures r[|r| - 1] == x || (|s| > 0 && r[|r| - 1] == s[|s| - 1])
    ensures (|s| == 0 || !StrLt(key(x), key(s[|s| - 1]))) ==> r == s + [x]
  {
    if |s| == 0 || !StrLt(key(x), key(s[|s| - 1])) then s + [x]
    else
      var init := s[..|s| - 1];
      var last := s[|s| - 1];
      assert s == init + [last];
      var r' := Insert(init, x, key);
      StrLtAsymmetric(key(x), key(last));
      r' + [last]
  }

  /** The stable sort: a permutation of `xs`, ordered by `key`. */
  function SortBy<T>(xs: seq<T>, key: T -> string): (r: seq<T>)
    ensures SortedBy(r, key)
    ensures multiset(r) == multiset(xs)
    ensures |r| == |xs|
  {
    if |xs| == 0 then []
    else
      assert xs == xs[..|xs| - 1] + [xs[|xs| - 1]];
      Insert(SortBy(xs[..|xs| - 1], key), xs[|xs| - 1], key)
  }

  /** When every element converts to the same string, sorting leaves the
      sequence exactly as it was. */
  lemma {:induction false} SortByConstantKey<T>(xs: seq<T>, key: T -> string)
    requires forall i :: 0 <= i < |xs| ==> key(xs[i]) == key(xs[0])
    ensures SortBy(xs, key) == xs
  {
    if |xs| > 0 {
      var init := xs[..|xs| - 1];
      SortByConstantKey(init, key);
      if |init| > 0 {
        StrLtIrreflexive(key(xs[0]));
        assert key(init[|init| - 1]) == key(xs[0]);
      }
      assert init + [xs[|xs| - 1]] == xs;
    }
  }
}
