/**
 * Array.prototype.sort(comparefn) (ECMA-262 section 23.1.3.30). Since
 * ES2019 the sort must be stable: elements the comparator calls equal keep
 * their relative order. The order is prescribed only for a consistent
 * comparator (section 23.1.3.30.1); here the sort is a stable insertion
 * sort, and sortedness and stability are proved for comparators that are
 * consistent on the elements being sorted.
 */
module Sorting {
  import opened Lists

  /**
   * A consistent comparator on the elements of s: the sign of cmp(a, b) is
   * the opposite of that of cmp(b, a), and "not after" is transitive.
   */
  ghost predicate Consistent<T(!new)>(cmp: (T, T) -> int, s: seq<T>)
  {
    (forall a, b :: a in s && b in s ==> (cmp(a, b) < 0 <==> cmp(b, a) > 0))
    && (forall a, b, c :: a in s && b in s && c in s && cmp(a, b) <= 0 && cmp(b, c) <= 0 ==> cmp(a, c) <= 0)
  }

  /** Every element is "not after" every later one. */
  predicate Sorted<T>(cmp: (T, T) -> int, r: seq<T>)
  {
    forall i, j :: 0 <= i < j < |r| ==> cmp(r[i], r[j]) <= 0
  }

  /** Inserts x after every element that is not after it. */
  function InsertBy<T(==,!new)>(x: T, t: seq<T>, cmp: (T, T) -> int): (r: seq<T>)
    ensures multiset(r) == multiset(t) + multiset{x}
    ensures forall y :: y in r <==> y == x || y in t
  {
    if t == [] then [x]
    else if cmp(x, t[0]) < 0 then [x] + t
    else
      var rest := InsertBy(x, t[1..], cmp);
      assert t == [t[0]] + t[1..];
      [t[0]] + rest
  }

  /** Sorts by inserting each element, in order, into the sorted prefix before it. */
  function SortBy<T(==,!new)>(s: seq<T>, cmp: (T, T) -> int): (r: seq<T>)
    ensures multiset(r) == multiset(s)
    ensures forall y :: y in r <==> y in s
  {
    if s == [] then []
    else
      assert s == s[..|s| - 1] + [s[|s| - 1]];
      InsertBy(s[|s| - 1], SortBy(s[..|s| - 1], cmp), cmp)
  }

  /** Strict and non-strict order chain as for numbers. */
  lemma ConsistentChain<T(!new)>(cmp: (T, T) -> int, s: seq<T>, a: T, b: T, c: T)
    requires Consistent(cmp, s) && a in s && b in s && c in s
    requires cmp(a, b) < 0 && cmp(b, c) <= 0
    ensures cmp(a, c) < 0
  {
  }

  /** Inserting into a sorted list keeps it sorted. */
  lemma {:induction false} InsertSorted<T(!new)>(x: T, t: seq<T>, cmp: (T, T) -> int, s: seq<T>)
    requires Consistent(cmp, s) && x in s && (forall y :: y in t ==> y in s)
    requires Sorted(cmp, t)
    ensures Sorted(cmp, InsertBy(x, t, cmp))
  {
    if t != [] {
      if cmp(x, t[0]) < 0 {
        forall j | 0 <= j < |t|
          ensures cmp(x, t[j]) <= 0
        {
          if j > 0 {
            ConsistentChain(cmp, s, x, t[0], t[j]);
          }
        }
        ConsSorted(cmp, x, t);
      } else {
        InsertSorted(x, t[1..], cmp, s);
        InsertBehindHead(x, t, cmp);
      }
    }
  }

  /** Inserting behind a head that is not after x keeps that head in front, before everything else. */
  lemma InsertBehindHead<T(!new)>(x: T, t: seq<T>, cmp: (T, T) -> int)
    requires t != [] && cmp(x, t[0]) >= 0 && cmp(t[0], x) <= 0
    requires Sorted(cmp, t) && Sorted(cmp, InsertBy(x, t[1..], cmp))
    ensures Sorted(cmp, InsertBy(x, t, cmp))
  {
    var rest := InsertBy(x, t[1..], cmp);
    forall j | 0 <= j < |rest|
      ensures cmp(t[0], rest[j]) <= 0
    {
      assert rest[j] in rest;
      if rest[j] != x {
        var k :| 0 <= k < |t[1..]| && t[1..][k] == rest[j];
        assert t[k + 1] == rest[j];
      }
    }
    ConsSorted(cmp, t[0], rest);
    assert InsertBy(x, t, cmp) == [t[0]] + rest;
  }

  /** An element not after any element of a sorted list can go in front of it. */
  lemma ConsSorted<T>(cmp: (T, T) -> int, a: T, r: seq<T>)
    requires Sorted(cmp, r) && forall j :: 0 <= j < |r| ==> cmp(a, r[j]) <= 0
    ensures Sorted(cmp, [a] + r)
  {
    var c := [a] + r;
    forall i, j | 0 <= i < j < |c|
      ensures cmp(c[i], c[j]) <= 0
    {
      assert c[j] == r[j - 1];
      if i > 0 {
        assert c[i] == r[i - 1];
      }
    }
  }

  /** The result of SortBy is sorted for a comparator consistent on a superset d of its input. */
  lemma {:induction false} SortSorted<T(!new)>(s: seq<T>, cmp: (T, T) -> int, d: seq<T>)
    requires Consistent(cmp, d) && (forall y :: y in s ==> y in d)
    ensures Sorted(cmp, SortBy(s, cmp))
  {
    if s != [] {
      var p := s[..|s| - 1];
      assert s == p + [s[|s| - 1]];
      SortSorted(p, cmp, d);
      InsertSorted(s[|s| - 1], SortBy(p, cmp), cmp, d);
    }
  }

  /** The elements the comparator calls equal to e, in order: `s.filter(y => cmp(y, e) === 0)`. */
  function Equivalents<T(==,!new)>(s: seq<T>, e: T, cmp: (T, T) -> int): seq<T>
  {
    if s == [] then [] else (if cmp(s[0], e) == 0 then [s[0]] else []) + Equivalents(s[1..], e, cmp)
  }

  lemma {:induction false} EquivalentsAppend<T(!new)>(a: seq<T>, b: seq<T>, e: T, cmp: (T, T) -> int)
    ensures Equivalents(a + b, e, cmp) == Equivalents(a, e, cmp) + Equivalents(b, e, cmp)
  {
    if a == [] {
      assert a + b == b;
    } else {
      EquivalentsAppend(a[1..], b, e, cmp);
      assert (a + b)[0] == a[0] && (a + b)[1..] == a[1..] + b;
      var head := if cmp(a[0], e) == 0 then [a[0]] else [];
      assert Equivalents(a + b, e, cmp) == head + Equivalents(a[1..] + b, e, cmp);
      ConcatRegroup(Equivalents(a + b, e, cmp), head, Equivalents(a[1..] + b, e, cmp),
        Equivalents(a[1..], e, cmp), Equivalents(b, e, cmp), Equivalents(a, e, cmp));
    }
  }

  lemma {:induction false} EquivalentsNone<T(!new)>(t: seq<T>, e: T, cmp: (T, T) -> int)
    requires forall y :: y in t ==> cmp(y, e) != 0
    ensures Equivalents(t, e, cmp) == []
  {
    if t != [] {
      EquivalentsNone(t[1..], e, cmp);
    }
  }

  /** Below the head of a sorted list, x has no equal in the list. */
  lemma BelowHeadNoEquals<T(!new)>(x: T, t: seq<T>, e: T, cmp: (T, T) -> int, s: seq<T>)
    requires Consistent(cmp, s) && x in s && e in s && (forall y :: y in t ==> y in s)
    requires Sorted(cmp, t) && t != [] && cmp(x, t[0]) < 0 && cmp(x, e) == 0
    ensures Equivalents(t, e, cmp) == []
  {
    forall y | y in t
      ensures cmp(y, e) != 0
    {
      var k :| 0 <= k < |t| && t[k] == y;
      if k > 0 { assert cmp(t[0], t[k]) <= 0; }
      ConsistentChain(cmp, s, x, t[0], y);
    }
    EquivalentsNone(t, e, cmp);
  }

  /** Inserting x appends it to its own class and leaves the other classes alone. */
  lemma {:induction false} InsertEquivalents<T(!new)>(x: T, t: seq<T>, e: T, cmp: (T, T) -> int, s: seq<T>)
    requires Consistent(cmp, s) && x in s && e in s && (forall y :: y in t ==> y in s)
    requires Sorted(cmp, t)
    ensures Equivalents(InsertBy(x, t, cmp), e, cmp) == Equivalents(t, e, cmp) + (if cmp(x, e) == 0 then [x] else [])
  {
    if t == [] {
      assert InsertBy(x, t, cmp) == [x];
    } else if cmp(x, t[0]) < 0 {
      InsertBeforeHead(x, t, e, cmp, s);
    } else {
      assert Sorted(cmp, t[1..]);
      InsertEquivalents(x, t[1..], e, cmp, s);
      InsertAfterHead(x, t, e, cmp);
    }
  }

  lemma InsertBeforeHead<T(!new)>(x: T, t: seq<T>, e: T, cmp: (T, T) -> int, s: seq<T>)
    requires Consistent(cmp, s) && x in s && e in s && (forall y :: y in t ==> y in s)
    requires Sorted(cmp, t) && t != [] && cmp(x, t[0]) < 0
    ensures Equivalents(InsertBy(x, t, cmp), e, cmp) == Equivalents(t, e, cmp) + (if cmp(x, e) == 0 then [x] else [])
  {
    assert InsertBy(x, t, cmp) == [x] + t;
    EquivalentsAppend([x], t, e, cmp);
    if cmp(x, e) == 0 {
      BelowHeadNoEquals(x, t, e, cmp, s);
    }
  }

  lemma InsertAfterHead<T(!new)>(x: T, t: seq<T>, e: T, cmp: (T, T) -> int)
    requires t != [] && cmp(x, t[0]) >= 0
    requires Equivalents(InsertBy(x, t[1..], cmp), e, cmp) == Equivalents(t[1..], e, cmp) + (if cmp(x, e) == 0 then [x] else [])
    ensures Equivalents(InsertBy(x, t, cmp), e, cmp) == Equivalents(t, e, cmp) + (if cmp(x, e) == 0 then [x] else [])
  {
    InsertAfterHeadSplit(x, t, e, cmp);
    EquivalentsCons(t, e, cmp);
    ConcatRegroup(Equivalents(InsertBy(x, t, cmp), e, cmp), Equivalents([t[0]], e, cmp),
      Equivalents(InsertBy(x, t[1..], cmp), e, cmp), Equivalents(t[1..], e, cmp),
      if cmp(x, e) == 0 then [x] else [], Equivalents(t, e, cmp));
  }

  /** Inserting behind the head keeps the head in front. */
  lemma InsertAfterHeadSplit<T(!new)>(x: T, t: seq<T>, e: T, cmp: (T, T) -> int)
    requires t != [] && cmp(x, t[0]) >= 0
    ensures Equivalents(InsertBy(x, t, cmp), e, cmp) == Equivalents([t[0]], e, cmp) + Equivalents(InsertBy(x, t[1..], cmp), e, cmp)
  {
    assert InsertBy(x, t, cmp) == [t[0]] + InsertBy(x, t[1..], cmp);
    EquivalentsAppend([t[0]], InsertBy(x, t[1..], cmp), e, cmp);
  }

  /** The equal elements of a list are those of its head, then those of its tail. */
  lemma EquivalentsCons<T(!new)>(t: seq<T>, e: T, cmp: (T, T) -> int)
    requires t != []
    ensures Equivalents(t, e, cmp) == Equivalents([t[0]], e, cmp) + Equivalents(t[1..], e, cmp)
  {
    assert t == [t[0]] + t[1..];
    EquivalentsAppend([t[0]], t[1..], e, cmp);
  }

  /** a = h + r and r = u + x with u the tail of c = h + u give a = c + x. */
  lemma ConcatRegroup<T>(a: seq<T>, h: seq<T>, r: seq<T>, u: seq<T>, x: seq<T>, c: seq<T>)
    requires a == h + r && r == u + x && c == h + u
    ensures a == c + x
  {
    assert h + (u + x) == (h + u) + x;
  }

  /**
   * Stability: for every element e, the elements equal to e under cmp appear
   * in the result in the same order as in the input. The comparator need
   * only be consistent on a superset d of the input that holds e.
   */
  lemma {:induction false} SortStable<T(!new)>(s: seq<T>, e: T, cmp: (T, T) -> int, d: seq<T>)
    requires Consistent(cmp, d) && e in d && (forall y :: y in s ==> y in d)
    ensures Equivalents(SortBy(s, cmp), e, cmp) == Equivalents(s, e, cmp)
  {
    if s != [] {
      var p, x := s[..|s| - 1], s[|s| - 1];
      assert s == p + [x];
      SortSorted(p, cmp, d);
      InsertEquivalents(x, SortBy(p, cmp), e, cmp, d);
      SortStable(p, e, cmp, d);
      SortStep(p, x, e, cmp);
    }
  }

  lemma SortStep<T(!new)>(p: seq<T>, x: T, e: T, cmp: (T, T) -> int)
    requires Equivalents(InsertBy(x, SortBy(p, cmp), cmp), e, cmp) == Equivalents(SortBy(p, cmp), e, cmp) + (if cmp(x, e) == 0 then [x] else [])
    requires Equivalents(SortBy(p, cmp), e, cmp) == Equivalents(p, e, cmp)
    ensures Equivalents(SortBy(p + [x], cmp), e, cmp) == Equivalents(p + [x], e, cmp)
  {
    var s := p + [x];
    assert s[..|s| - 1] == p && s[|s| - 1] == x;
    assert SortBy(s, cmp) == InsertBy(x, SortBy(p, cmp), cmp);
    EquivalentsAppend(p, [x], e, cmp);
    assert Equivalents([x], e, cmp) == (if cmp(x, e) == 0 then [x] else []);
  }
}
