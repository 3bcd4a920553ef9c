/** The string order behind Kotlin's `sorted()`, `toSortedMap()` and
    `toSortedSet()`, taken character by character over code points, and the
    sorting and de-duplication built on it. */
module Ordering {

  /** `a.compareTo(b) <= 0` for Kotlin strings, compared by code point rather
      than by UTF-16 code unit: character by character, and a proper prefix
      before the longer string. */
  predicate Below(a: string, b: string)
    decreases |a|
  {
    if a == [] then true
    else if b == [] then false
    else if a[0] != b[0] then a[0] < b[0]
    else Below(a[1..], b[1..])
  }

  lemma {:induction false} BelowReflexive(a: string)
    ensures Below(a, a)
  {
    if a != [] {
      BelowReflexive(a[1..]);
    }
  }

  lemma {:induction false} BelowAntisymmetric(a: string, b: string)
    requires Below(a, b) && Below(b, a)
    ensures a == b
  {
    if a != [] && b != [] {
      BelowAntisymmetric(a[1..], b[1..]);
      assert a == [a[0]] + a[1..];
      assert b == [b[0]] + b[1..];
    }
  }

  lemma {:induction false} BelowTransitive(a: string, b: string, c: string)
    requires Below(a, b) && Below(b, c)
    ensures Below(a, c)
  {
    if a != [] && b != [] && c != [] && a[0] == b[0] == c[0] {
      BelowTransitive(a[1..], b[1..], c[1..]);
    }
  }

  lemma {:induction false} BelowTotal(a: string, b: string)
    ensures Below(a, b) || Below(b, a)
  {
    if a != [] && b != [] && a[0] == b[0] {
      BelowTotal(a[1..], b[1..]);
    }
  }

  predicate Sorted(xs: seq<string>) {
    forall i, j | 0 <= i < j < |xs| :: Below(xs[i], xs[j])
  }

  predicate Distinct<T(==)>(xs: seq<T>) {
    forall i, j | 0 <= i < j < |xs| :: xs[i] != xs[j]
  }

  /** Sorted and free of duplicates: what `toSortedSet()` yields. */
  predicate StrictlySorted(xs: seq<string>) {
    Sorted(xs) && Distinct(xs)
  }

  function Insert(x: string, xs: seq<string>): (r: seq<string>)
    requires Sorted(xs)
    ensures Sorted(r)
    ensures multiset(r) == multiset(xs) + multiset{x}
  {
    if xs == [] then [x]
    else if Below(x, xs[0]) then
      InsertFront(x, xs);
      [x] + xs
    else
      var rest := Insert(x, xs[1..]);
      InsertBehind(x, xs, rest);
      [xs[0]] + rest
  }

  lemma InsertFront(x: string, xs: seq<string>)
    requires Sorted(xs) && xs != [] && Below(x, xs[0])
    ensures Sorted([x] + xs) && multiset([x] + xs) == multiset(xs) + multiset{x}
  {
    forall j | 0 <= j < |xs| ensures Below(x, xs[j]) {
      if j > 0 { BelowTransitive(x, xs[0], xs[j]); }
    }
  }

  lemma InsertBehind(x: string, xs: seq<string>, rest: seq<string>)
    requires Sorted(xs) && xs != [] && !Below(x, xs[0])
    requires Sorted(rest) && multiset(rest) == multiset(xs[1..]) + multiset{x}
    ensures Sorted([xs[0]] + rest) && multiset([xs[0]] + rest) == multiset(xs) + multiset{x}
  {
    BelowTotal(x, xs[0]);
    forall j | 0 <= j < |rest| ensures Below(xs[0], rest[j]) {
      assert rest[j] in multiset(rest);
      assert rest[j] == x || rest[j] in multiset(xs[1..]);
    }
    assert xs == [xs[0]] + xs[1..];
  }

  /** Kotlin's `sorted()` on a list of strings, as an insertion sort. */
  function Sort(xs: seq<string>): (r: seq<string>)
    ensures Sorted(r)
    ensures multiset(r) == multiset(xs)
  {
    if xs == [] then []
    else
      assert xs == [xs[0]] + xs[1..];
      Insert(xs[0], Sort(xs[1..]))
  }

  /** A sorted sequence is determined by its elements: whatever order the input
      came in, sorting it gives the same result. */
  lemma {:induction false} SortedUnique(a: seq<string>, b: seq<string>)
    requires Sorted(a) && Sorted(b) && multiset(a) == multiset(b)
    ensures a == b
  {
    if a != [] {
      SortedSameHead(a, b);
      assert a == [a[0]] + a[1..];
      assert b == [b[0]] + b[1..];
      assert multiset(a[1..]) == multiset(a) - multiset{a[0]} by {
        assert multiset(a) == multiset{a[0]} + multiset(a[1..]);
      }
      assert multiset(b[1..]) == multiset(b) - multiset{b[0]} by {
        assert multiset(b) == multiset{b[0]} + multiset(b[1..]);
      }
      SortedUnique(a[1..], b[1..]);
    }
  }

  /** Two sorted sequences with the same elements start with the same one. */
  lemma SortedSameHead(a: seq<string>, b: seq<string>)
    requires Sorted(a) && Sorted(b) && multiset(a) == multiset(b) && a != []
    ensures b != [] && a[0] == b[0]
  {
    assert a[0] in multiset(b);
    assert b[0] in multiset(a);
    var i :| 0 <= i < |a| && a[i] == b[0];
    var j :| 0 <= j < |b| && b[j] == a[0];
    if i > 0 { assert Below(a[0], a[i]); } else { BelowReflexive(a[0]); }
    if j > 0 { assert Below(b[0], b[j]); } else { BelowReflexive(b[0]); }
    BelowAntisymmetric(a[0], b[0]);
  }

  /** Sorting a duplicate-free sequence yields a strictly sorted one with the
      same elements. */
  lemma SortDistinct(xs: seq<string>)
    requires Distinct(xs)
    ensures StrictlySorted(Sort(xs))
    ensures forall x :: x in Sort(xs) <==> x in xs
  {
    var r := Sort(xs);
    forall x ensures x in r <==> x in xs {
      assert x in r <==> x in multiset(r);
      assert x in xs <==> x in multiset(xs);
    }
    forall i, j | 0 <= i < j < |r| ensures r[i] != r[j] {
      if r[i] == r[j] {
        DistinctCount(xs, r[i]);
        TwoOccurrences(r, i, j);
      }
    }
  }

  lemma TwoOccurrences(s: seq<string>, i: nat, j: nat)
    requires i < j < |s| && s[i] == s[j]
    ensures multiset(s)[s[i]] >= 2
  {
    assert s == s[..j] + s[j..];
    assert multiset(s) == multiset(s[..j]) + multiset(s[j..]);
    assert s[i] in multiset(s[..j]);
    assert s[j] == s[j..][0];
    assert s[j] in multiset(s[j..]);
  }

  lemma {:induction false} DistinctCount(xs: seq<string>, x: string)
    requires Distinct(xs)
    ensures multiset(xs)[x] <= 1
  {
    if xs != [] {
      assert xs == [xs[0]] + xs[1..];
      DistinctCount(xs[1..], x);
      if xs[0] == x {
        assert x !in xs[1..];
      }
    }
  }

  /** The first occurrence of each element, in order: a `LinkedHashSet` built from `xs`. */
  function Dedup<T(==)>(xs: seq<T>): (r: seq<T>)
    ensures Distinct(r)
    ensures forall i | 0 <= i < |r| :: r[i] in xs
    ensures forall i | 0 <= i < |xs| :: xs[i] in r
  {
    if xs == [] then []
    else
      var r := Dedup(xs[..|xs| - 1]);
      var last := xs[|xs| - 1];
      assert xs == xs[..|xs| - 1] + [last];
      if last in r then r else r + [last]
  }

  /** `toSortedSet()`: the distinct elements in ascending order. */
  function SortedSet(xs: seq<string>): (r: seq<string>)
    ensures StrictlySorted(r)
    ensures forall x :: x in r <==> x in xs
  {
    var d := Dedup(xs);
    SortDistinct(d);
    forall x ensures x in d <==> x in xs {
      if x in xs { var i :| 0 <= i < |xs| && xs[i] == x; }
    }
    Sort(d)
  }

  /** Two strictly sorted sequences with the same elements are equal. */
  lemma StrictlySortedUnique(a: seq<string>, b: seq<string>)
    requires StrictlySorted(a) && StrictlySorted(b)
    requires forall x :: x in a <==> x in b
    ensures a == b
  {
    DistinctMultiset(a);
    DistinctMultiset(b);
    assert multiset(a) == multiset(b) by {
      forall x ensures multiset(a)[x] == multiset(b)[x] {
        assert x in a <==> x in multiset(a);
        assert x in b <==> x in multiset(b);
      }
    }
    SortedUnique(a, b);
  }

  lemma DistinctMultiset(a: seq<string>)
    requires Distinct(a)
    ensures forall x :: multiset(a)[x] == if x in a then 1 else 0
  {
    forall x ensures multiset(a)[x] == if x in a then 1 else 0 {
      DistinctCount(a, x);
      assert x in a <==> x in multiset(a);
    }
  }

  /** `filterNot { it in exclude }`: the codes not listed in `exclude`, in
      order, compared as raw strings. */
  function Unexcluded(codes: seq<string>, exclude: seq<string>): (r: seq<string>)
    ensures forall c :: c in r <==> c in codes && c !in exclude
    ensures Distinct(codes) ==> Distinct(r)
  {
    if codes == [] then []
    else
      var rest := Unexcluded(codes[1..], exclude);
      assert forall c :: c in codes <==> c == codes[0] || c in codes[1..];
      if codes[0] in exclude then rest
      else
        assert Distinct(codes) ==> codes[0] !in codes[1..];
        [codes[0]] + rest
  }
}
