/**
 * The array operations the components build their lists with:
 * Array.prototype.filter, `includes`, and the "remove if present, else
 * append" toggle written with filter and spread.
 */
module Lists {

  /** Array.prototype.filter: the elements satisfying p, in their original order. */
  function Filter<T(==,!new)>(s: seq<T>, p: T -> bool): (r: seq<T>)
    ensures |r| <= |s|
    ensures forall x :: x in r <==> x in s && p(x)
  {
    if s == [] then [] else (if p(s[0]) then [s[0]] else []) + Filter(s[1..], p)
  }

  /** a is obtained from b by deleting elements: an order-preserving subsequence. */
  predicate IsSubsequence<T(==,!new)>(a: seq<T>, b: seq<T>)
    decreases |b|
  {
    a == [] || (b != [] && ((a[0] == b[0] && IsSubsequence(a[1..], b[1..])) || IsSubsequence(a, b[1..])))
  }

  /** Every list is a subsequence of itself. */
  lemma {:induction false} SubsequenceReflexive<T(!new)>(s: seq<T>)
    ensures IsSubsequence(s, s)
  {
    if s != [] {
      SubsequenceReflexive(s[1..]);
    }
  }

  /** filter keeps the order of what it keeps. */
  lemma {:induction false} FilterSubsequence<T(!new)>(s: seq<T>, p: T -> bool)
    ensures IsSubsequence(Filter(s, p), s)
  {
    if s != [] {
      FilterSubsequence(s[1..], p);
      if p(s[0]) {
        assert Filter(s, p) == [s[0]] + Filter(s[1..], p);
      } else {
        assert Filter(s, p) == Filter(s[1..], p);
      }
    }
  }

  /** filter distributes over concatenation. */
  lemma {:induction false} FilterAppend<T(!new)>(a: seq<T>, b: seq<T>, p: T -> bool)
    ensures Filter(a + b, p) == Filter(a, p) + Filter(b, p)
  {
    if a != [] {
      FilterAppend(a[1..], b, p);
      assert (a + b)[0] == a[0] && (a + b)[1..] == a[1..] + b;
      calc {
        Filter(a + b, p);
        (if p(a[0]) then [a[0]] else []) + Filter(a[1..] + b, p);
        (if p(a[0]) then [a[0]] else []) + (Filter(a[1..], p) + Filter(b, p));
        ((if p(a[0]) then [a[0]] else []) + Filter(a[1..], p)) + Filter(b, p);
        Filter(a, p) + Filter(b, p);
      }
    } else {
      assert a + b == b;
      assert Filter(a, p) == [];
    }
  }

  /** A subsequence is no longer than the sequence it is taken from. */
  lemma {:induction false} SubsequenceLength<T(!new)>(a: seq<T>, b: seq<T>)
    requires IsSubsequence(a, b)
    ensures |a| <= |b|
    decreases |b|
  {
    if a != [] && b != [] {
      if a[0] == b[0] && IsSubsequence(a[1..], b[1..]) {
        SubsequenceLength(a[1..], b[1..]);
      } else {
        SubsequenceLength(a, b[1..]);
      }
    }
  }

  /** filter with a predicate every element satisfies is the identity. */
  lemma {:induction false} FilterKeepsAll<T(!new)>(s: seq<T>, p: T -> bool)
    requires forall x :: x in s ==> p(x)
    ensures Filter(s, p) == s
  {
    if s != [] {
      FilterKeepsAll(s[1..], p);
    }
  }

  /** filter with a predicate no element satisfies is empty. */
  lemma FilterKeepsNone<T(!new)>(s: seq<T>, p: T -> bool)
    requires forall x :: x in s ==> !p(x)
    ensures Filter(s, p) == []
  {
  }

  /** Two predicates that agree on the elements of s filter it alike. */
  lemma {:induction false} FilterAgree<T(!new)>(s: seq<T>, p: T -> bool, q: T -> bool)
    requires forall x :: x in s ==> p(x) == q(x)
    ensures Filter(s, p) == Filter(s, q)
  {
    if s != [] {
      FilterAgree(s[1..], p, q);
    }
  }

  /** The elements of s whose key is k, in their original order. */
  function KeyGroup<T(==,!new)>(s: seq<T>, key: T -> int, k: int): (r: seq<T>)
    ensures forall x :: x in r <==> x in s && key(x) == k
    ensures IsSubsequence(r, s)
  {
    FilterSubsequence(s, x => key(x) == k);
    Filter(s, x => key(x) == k)
  }

  /** The first element counts in its own key group and in no other. */
  lemma KeyGroupCons<T(!new)>(s: seq<T>, key: T -> int, k: int)
    requires s != []
    ensures |KeyGroup(s, key, k)| == |KeyGroup(s[1..], key, k)| + (if key(s[0]) == k then 1 else 0)
  {
    var f := x => key(x) == k;
    assert KeyGroup(s, key, k) == (if f(s[0]) then [s[0]] else []) + KeyGroup(s[1..], key, k);
  }

  /** The sizes of the key groups 0 .. n-1 together. */
  function GroupsTotal<T(==,!new)>(s: seq<T>, key: T -> int, n: nat): nat
  {
    if n == 0 then 0 else GroupsTotal(s, key, n - 1) + |KeyGroup(s, key, n - 1)|
  }

  /** The first element, of key at least 0, adds one to the groups below n iff its key is below n. */
  lemma {:induction false} GroupsTotalCons<T(!new)>(s: seq<T>, key: T -> int, n: nat)
    requires s != [] && 0 <= key(s[0])
    ensures GroupsTotal(s, key, n) == GroupsTotal(s[1..], key, n) + (if key(s[0]) < n then 1 else 0)
  {
    if n > 0 {
      GroupsTotalCons(s, key, n - 1);
      KeyGroupCons(s, key, n - 1);
    }
  }

  /** No elements, empty groups. */
  lemma {:induction false} GroupsTotalNil<T(!new)>(key: T -> int, n: nat)
    ensures GroupsTotal([], key, n) == 0
  {
    if n > 0 {
      GroupsTotalNil(key, n - 1);
    }
  }

  /** When every key lies in 0 .. n-1, the groups 0 .. n-1 hold every element exactly once. */
  lemma {:induction false} GroupsPartition<T(!new)>(s: seq<T>, key: T -> int, n: nat)
    requires forall x :: x in s ==> 0 <= key(x) < n
    ensures GroupsTotal(s, key, n) == |s|
  {
    if s == [] {
      GroupsTotalNil(key, n);
    } else {
      GroupsPartition(s[1..], key, n);
      GroupsTotalCons(s, key, n);
    }
  }

  /** Counting with two disjoint predicates adds up to counting with their union. */
  lemma {:induction false} FilterCountUnion<T(!new)>(s: seq<T>, p: T -> bool, q: T -> bool, u: T -> bool)
    requires forall x :: !(p(x) && q(x))
    requires forall x :: u(x) == (p(x) || q(x))
    ensures |Filter(s, u)| == |Filter(s, p)| + |Filter(s, q)|
  {
    if s != [] {
      FilterCountUnion(s[1..], p, q, u);
    }
  }

  /** No element occurs twice. */
  predicate NoDuplicates<T(==,!new)>(s: seq<T>)
  {
    forall i, j :: 0 <= i < j < |s| ==> s[i] != s[j]
  }

  /**
   * `s.includes(x) ? s.filter(y => y !== x) : [...s, x]`: every copy of a
   * present x is removed, an absent x is appended, and nothing else changes.
   */
  function Toggle<T(==,!new)>(s: seq<T>, x: T): (r: seq<T>)
    ensures x in r <==> x !in s
    ensures forall y :: y != x ==> (y in r <==> y in s)
    ensures x !in s ==> r == s + [x]
    ensures x in s ==> IsSubsequence(r, s) && |r| < |s|
  {
    if x in s then
      FilterSubsequence(s, y => y != x);
      FilterShrinks(s, y => y != x, x);
      Filter(s, y => y != x)
    else s + [x]
  }

  /** Removing an element that is present makes the list strictly shorter. */
  lemma {:induction false} FilterShrinks<T(!new)>(s: seq<T>, p: T -> bool, x: T)
    requires x in s && !p(x)
    ensures |Filter(s, p)| < |s|
  {
    if s[0] != x {
      FilterShrinks(s[1..], p, x);
    }
  }

  /**
   * Toggling twice restores which elements are present; when the element
   * was absent, it restores the list exactly.
   */
  lemma ToggleTwice<T(!new)>(s: seq<T>, x: T)
    ensures forall y :: y in Toggle(Toggle(s, x), x) <==> y in s
    ensures x !in s ==> Toggle(Toggle(s, x), x) == s
  {
    if x !in s {
      FilterAppend(s, [x], y => y != x);
      FilterKeepsAll(s, y => y != x);
    }
  }
}
