/** `Array.prototype.sort` on a copy: a stable sort by a comparison `le`, which says that the first argument may stand
    before the second. */
module Sorting {

  ghost predicate TotalPreorder<T(!new)>(le: (T, T) -> bool) {
    && (forall a, b :: le(a, b) || le(b, a))
    && (forall a, b, c :: le(a, b) && le(b, c) ==> le(a, c))
  }

  /** Puts `x` before the first element that it may stand before. */
  function Insert<T>(x: T, s: seq<T>, le: (T, T) -> bool): (r: seq<T>)
    ensures |r| == |s| + 1
  {
    if s == [] then [x]
    else if le(x, s[0]) then [x] + s
    else [s[0]] + Insert(x, s[1..], le)
  }

  function Sorted<T>(s: seq<T>, le: (T, T) -> bool): (r: seq<T>)
    ensures |r| == |s|
  {
    if s == [] then [] else Insert(s[0], Sorted(s[1..], le), le)
  }

  ghost predicate Ordered<T>(s: seq<T>, le: (T, T) -> bool) {
    forall i, j | 0 <= i < j < |s| :: le(s[i], s[j])
  }

  function Filter<T>(s: seq<T>, p: T -> bool): (r: seq<T>)
    ensures |r| <= |s|
    ensures forall x | x in r :: x in s && p(x)
  {
    if s == [] then [] else (if p(s[0]) then [s[0]] else []) + Filter(s[1..], p)
  }

  lemma {:induction false} InsertElements<T>(x: T, s: seq<T>, le: (T, T) -> bool)
    ensures multiset(Insert(x, s, le)) == multiset(s) + multiset{x}
  {
    if s != [] && !le(x, s[0]) {
      InsertElements(x, s[1..], le);
      assert s == [s[0]] + s[1..];
    }
  }

  /** Sorting keeps the elements. */
  lemma {:induction false} SortedElements<T>(s: seq<T>, le: (T, T) -> bool)
    ensures multiset(Sorted(s, le)) == multiset(s)
  {
    if s != [] {
      SortedElements(s[1..], le);
      InsertElements(s[0], Sorted(s[1..], le), le);
      assert s == [s[0]] + s[1..];
    }
  }

  lemma {:induction false} InsertMembers<T>(x: T, s: seq<T>, le: (T, T) -> bool, y: T)
    ensures y in Insert(x, s, le) <==> y == x || y in s
  {
    if s != [] && !le(x, s[0]) {
      InsertMembers(x, s[1..], le, y);
      assert y in s <==> y == s[0] || y in s[1..];
    }
  }

  lemma {:induction false} OrderedTail<T>(s: seq<T>, le: (T, T) -> bool)
    requires s != [] && Ordered(s, le)
    ensures Ordered(s[1..], le) && forall y | y in s[1..] :: le(s[0], y)
  {
  }

  lemma {:induction false} InsertOrdered<T(!new)>(x: T, s: seq<T>, le: (T, T) -> bool)
    requires TotalPreorder(le) && Ordered(s, le)
    ensures Ordered(Insert(x, s, le), le)
  {
    if s != [] {
      OrderedTail(s, le);
      if le(x, s[0]) {
        forall y | y in s ensures le(x, y) { if y != s[0] { assert y in s[1..]; assert le(s[0], y); } }
      } else {
        InsertOrdered(x, s[1..], le);
        forall y | y in Insert(x, s[1..], le) ensures le(s[0], y) { InsertMembers(x, s[1..], le, y); }
      }
    }
  }

  /** The result is in order. */
  lemma {:induction false} SortedOrdered<T(!new)>(s: seq<T>, le: (T, T) -> bool)
    requires TotalPreorder(le)
    ensures Ordered(Sorted(s, le), le)
  {
    if s != [] {
      SortedOrdered(s[1..], le);
      InsertOrdered(s[0], Sorted(s[1..], le), le);
    }
  }

  lemma {:induction false} SortedMembers<T>(s: seq<T>, le: (T, T) -> bool, y: T)
    ensures y in Sorted(s, le) <==> y in s
  {
    if s != [] {
      SortedMembers(s[1..], le, y);
      InsertMembers(s[0], Sorted(s[1..], le), le, y);
      assert y in s <==> y == s[0] || y in s[1..];
    }
  }

  lemma {:induction false} FilterCons<T>(x: T, s: seq<T>, p: T -> bool)
    ensures Filter([x] + s, p) == if p(x) then [x] + Filter(s, p) else Filter(s, p)
  {
  }

  lemma {:induction false} InsertCons<T>(x: T, y: T, s: seq<T>, le: (T, T) -> bool)
    ensures Insert(x, [y] + s, le) == if le(x, y) then [x] + ([y] + s) else [y] + Insert(x, s, le)
  {
  }

  lemma {:induction false} BeforeFiltered<T(!new)>(x: T, s: seq<T>, le: (T, T) -> bool, p: T -> bool)
    requires TotalPreorder(le) && Ordered(s, le) && s != [] && le(x, s[0])
    ensures Insert(x, Filter(s, p), le) == [x] + Filter(s, p)
  {
    OrderedTail(s, le);
    forall y | y in Filter(s, p) ensures le(x, y) { if y != s[0] { assert y in s[1..]; assert le(s[0], y); } }
  }

  lemma {:induction false} FilterLater<T>(x: T, y: T, rest: seq<T>, le: (T, T) -> bool, p: T -> bool)
    requires !le(x, y) && Filter(Insert(x, rest, le), p) == if p(x) then Insert(x, Filter(rest, p), le)
             else Filter(rest, p)
    ensures Filter(Insert(x, [y] + rest, le), p) == if p(x) then Insert(x, Filter([y] + rest, p), le)
            else Filter([y] + rest, p)
  {
    InsertCons(x, y, rest, le);
    InsertCons(x, y, Filter(rest, p), le);
    FilterCons(y, rest, p);
    FilterCons(y, Insert(x, rest, le), p);
  }

  lemma {:induction false} FilterInsert<T(!new)>(x: T, s: seq<T>, le: (T, T) -> bool, p: T -> bool)
    requires TotalPreorder(le) && Ordered(s, le)
    ensures Filter(Insert(x, s, le), p) == if p(x) then Insert(x, Filter(s, p), le) else Filter(s, p)
  {
    if s == [] {
      FilterCons(x, s, p);
    } else if le(x, s[0]) {
      FilterCons(x, s, p);
      BeforeFiltered(x, s, le, p);
    } else {
      OrderedTail(s, le);
      FilterInsert(x, s[1..], le, p);
      FilterLater(x, s[0], s[1..], le, p);
      assert s == [s[0]] + s[1..];
    }
  }

  /** Stability: sorting commutes with keeping only some elements.  With `p` one class of equals, their order is the
      one they came in; with `p` everything but a few, taking those away before or after sorting is the same. */
  lemma {:induction false} FilterSorted<T(!new)>(s: seq<T>, le: (T, T) -> bool, p: T -> bool)
    requires TotalPreorder(le)
    ensures Filter(Sorted(s, le), p) == Sorted(Filter(s, p), le)
  {
    if s != [] {
      FilterSorted(s[1..], le, p);
      SortedOrdered(s[1..], le);
      FilterInsert(s[0], Sorted(s[1..], le), le, p);
      FilterCons(s[0], s[1..], p);
      assert s == [s[0]] + s[1..];
    }
  }

  /** No two different elements tie. */
  ghost predicate Strict<T(!new)>(s: seq<T>, le: (T, T) -> bool) {
    forall x, y | x in s && y in s && le(x, y) && le(y, x) :: x == y
  }

  lemma {:induction false} SameTails<T>(a: seq<T>, b: seq<T>)
    requires a != [] && b != [] && a[0] == b[0] && multiset(a) == multiset(b)
    ensures multiset(a[1..]) == multiset(b[1..])
  {
    assert a == [a[0]] + a[1..] && b == [b[0]] + b[1..];
    assert multiset(a[1..]) == multiset(a) - multiset{a[0]};
    assert multiset(b[1..]) == multiset(b) - multiset{b[0]};
  }

  lemma {:induction false} SameHeads<T(!new)>(a: seq<T>, b: seq<T>, le: (T, T) -> bool)
    requires TotalPreorder(le) && Ordered(a, le) && Ordered(b, le) && Strict(a, le) && multiset(a) == multiset(b)
             && a != []
    ensures b != [] && a[0] == b[0]
  {
    assert |a| == |multiset(a)| && |b| == |multiset(b)|;
    assert a[0] in multiset(b) && b[0] in multiset(a);
    Least(a, le, b[0]);
    Least(b, le, a[0]);
  }

  /** Without ties there is only one way to be in order. */
  lemma {:induction false} OrderedUnique<T(!new)>(a: seq<T>, b: seq<T>, le: (T, T) -> bool)
    requires TotalPreorder(le) && Ordered(a, le) && Ordered(b, le) && Strict(a, le) && multiset(a) == multiset(b)
    ensures a == b
  {
    if a == [] {
      assert |b| == |multiset(b)|;
    } else {
      SameHeads(a, b, le);
      SameTails(a, b);
      OrderedTail(a, le);
      OrderedTail(b, le);
      OrderedUnique(a[1..], b[1..], le);
      assert a == [a[0]] + a[1..] && b == [b[0]] + b[1..];
    }
  }

  lemma {:induction false} Least<T(!new)>(s: seq<T>, le: (T, T) -> bool, x: T)
    requires TotalPreorder(le) && Ordered(s, le) && x in s
    ensures le(s[0], x)
  {
  }

  /** Sorting does not depend on the order that untied elements came in. */
  lemma {:induction false} SortedPermutation<T(!new)>(a: seq<T>, b: seq<T>, le: (T, T) -> bool)
    requires TotalPreorder(le) && Strict(a, le) && multiset(a) == multiset(b)
    ensures Sorted(a, le) == Sorted(b, le)
  {
    SortedElements(a, le);
    SortedElements(b, le);
    SortedOrdered(a, le);
    SortedOrdered(b, le);
    forall x, y | x in Sorted(a, le) && y in Sorted(a, le) && le(x, y) && le(y, x) ensures x == y {
      SortedMembers(a, le, x);
      SortedMembers(a, le, y);
    }
    OrderedUnique(Sorted(a, le), Sorted(b, le), le);
  }

  lemma {:induction false} FilterMembers<T>(s: seq<T>, p: T -> bool, x: T)
    ensures x in Filter(s, p) <==> x in s && p(x)
  {
    if s != [] {
      FilterMembers(s[1..], p, x);
      assert x in s <==> x == s[0] || x in s[1..];
    }
  }

  lemma {:induction false} FilterCount<T>(s: seq<T>, p: T -> bool, x: T)
    ensures multiset(Filter(s, p))[x] == if p(x) then multiset(s)[x] else 0
  {
    if s != [] {
      FilterCount(s[1..], p, x);
      assert s == [s[0]] + s[1..];
    }
  }

  lemma {:induction false} FilterPermutation<T(!new)>(a: seq<T>, b: seq<T>, p: T -> bool)
    requires multiset(a) == multiset(b)
    ensures multiset(Filter(a, p)) == multiset(Filter(b, p))
  {
    forall x ensures multiset(Filter(a, p))[x] == multiset(Filter(b, p))[x] {
      FilterCount(a, p, x);
      FilterCount(b, p, x);
    }
  }

  lemma {:induction false} FiltersCommute<T>(s: seq<T>, p: T -> bool, q: T -> bool)
    ensures Filter(Filter(s, p), q) == Filter(Filter(s, q), p)
  {
    if s != [] {
      FiltersCommute(s[1..], p, q);
      assert s == [s[0]] + s[1..];
      FilterCons(s[0], s[1..], p);
      FilterCons(s[0], s[1..], q);
      FilterCons(s[0], Filter(s[1..], p), q);
      FilterCons(s[0], Filter(s[1..], q), p);
    }
  }
}
