/** Sorted listings of finite sets, for the places where Go sorts the keys of a map. */
module Sorting {
  import opened Digraph

  ghost predicate StrictOrder<T(!new)>(less: (T, T) -> bool) {
    && (forall x :: !less(x, x))
    && (forall x, y :: x == y || less(x, y) || less(y, x))
    && (forall x, y, z :: less(x, y) && less(y, z) ==> less(x, z))
  }

  ghost predicate Sorted<T>(less: (T, T) -> bool, s: seq<T>) {
    forall i, j :: 0 <= i < j < |s| ==> less(s[i], s[j])
  }

  ghost predicate Lists<T>(less: (T, T) -> bool, s: seq<T>, members: set<T>) {
    Sorted(less, s) && Elems(s) == members
  }

  function Insert<T>(less: (T, T) -> bool, s: seq<T>, x: T): (r: seq<T>)
    ensures |r| == |s| + 1
  {
    if s == [] || less(x, s[0]) then [x] + s else [s[0]] + Insert(less, s[1..], x)
  }

  lemma {:induction false} InsertElems<T>(less: (T, T) -> bool, s: seq<T>, x: T)
    ensures Elems(Insert(less, s, x)) == Elems(s) + {x}
  {
    if !(s == [] || less(x, s[0])) {
      InsertElems(less, s[1..], x);
      assert s == [s[0]] + s[1..];
      ElemsCons(s[0], s[1..]);
      ElemsCons(s[0], Insert(less, s[1..], x));
    } else {
      ElemsCons(x, s);
    }
  }

  lemma ElemsCons<T>(x: T, s: seq<T>)
    ensures Elems([x] + s) == {x} + Elems(s)
  {
  }

  lemma SortedCons<T>(less: (T, T) -> bool, x: T, s: seq<T>)
    requires Sorted(less, s) && forall y <- Elems(s) :: less(x, y)
    ensures Sorted(less, [x] + s)
  {
    var t := [x] + s;
    forall i, j | 0 <= i < j < |t| ensures less(t[i], t[j]) {
      assert t[j] == s[j - 1] && s[j - 1] in Elems(s);
    }
  }

  lemma SortedTail<T>(less: (T, T) -> bool, s: seq<T>)
    requires Sorted(less, s) && s != []
    ensures Sorted(less, s[1..]) && forall y <- Elems(s[1..]) :: less(s[0], y)
  {
    assert forall i :: 0 <= i < |s| - 1 ==> s[1..][i] == s[i + 1];
  }

  lemma {:induction false} InsertSorted<T(!new)>(less: (T, T) -> bool, s: seq<T>, x: T)
    requires StrictOrder(less) && Sorted(less, s) && x !in Elems(s)
    ensures Sorted(less, Insert(less, s, x))
  {
    if s == [] {
    } else {
      SortedTail(less, s);
      assert s == [s[0]] + s[1..] && s[0] in Elems(s);
      ElemsCons(s[0], s[1..]);
      if less(x, s[0]) {
        SortedCons(less, x, s);
      } else {
        InsertSorted(less, s[1..], x);
        InsertElems(less, s[1..], x);
        SortedCons(less, s[0], Insert(less, s[1..], x));
      }
    }
  }

  /** The sorted listing of a set. */
  ghost function SortedList<T(!new)>(less: (T, T) -> bool, members: set<T>): (s: seq<T>)
    requires StrictOrder(less)
    ensures Lists(less, s, members)
    decreases members
  {
    if members == {} then []
    else
      var x :| x in members;
      var rest := SortedList(less, members - {x});
      InsertSorted(less, rest, x);
      InsertElems(less, rest, x);
      assert members - {x} + {x} == members;
      Insert(less, rest, x)
  }

  lemma NonEmptyElems<T>(s: seq<T>)
    ensures s == [] <==> Elems(s) == {}
  {
    if s != [] { assert s[0] in Elems(s); }
  }

  /** There is only one. */
  lemma {:induction false} ListingUnique<T(!new)>(less: (T, T) -> bool, a: seq<T>, b: seq<T>)
    requires StrictOrder(less) && Sorted(less, a) && Sorted(less, b) && Elems(a) == Elems(b)
    ensures a == b
  {
    if a == [] || b == [] {
      NonEmptyElems(a);
      NonEmptyElems(b);
    } else {
      SortedTail(less, a);
      SortedTail(less, b);
      assert a == [a[0]] + a[1..] && b == [b[0]] + b[1..];
      ElemsCons(a[0], a[1..]);
      ElemsCons(b[0], b[1..]);
      SameHead(less, a[0], Elems(a[1..]), b[0], Elems(b[1..]));
      ListingUnique(less, a[1..], b[1..]);
    }
  }

  lemma SameHead<T(!new)>(less: (T, T) -> bool, x: T, s: set<T>, y: T, t: set<T>)
    requires StrictOrder(less) && {x} + s == {y} + t
    requires (forall z <- s :: less(x, z)) && (forall z <- t :: less(y, z))
    ensures x == y && s == t
  {
    assert x in {y} + t && y in {x} + s;
    assert x == y;
    assert x !in s && y !in t;
    assert s == ({x} + s) - {x} && t == ({y} + t) - {y};
  }

  /** Sorting the keys of a map, which Go visits in any order. */
  method SortKeys<T(!new, ==)>(less: (T, T) -> bool, members: set<T>) returns (s: seq<T>)
    requires StrictOrder(less)
    ensures s == SortedList(less, members)
  {
    s := [];
    var left := members;
    while left != {}
      invariant left <= members && Lists(less, s, members - left)
    {
      var x :| x in left;
      InsertSorted(less, s, x);
      InsertElems(less, s, x);
      assert members - left + {x} == members - (left - {x});
      s := Insert(less, s, x);
      left := left - {x};
    }
    assert members - left == members;
    ListingUnique(less, s, SortedList(less, members));
  }

  /** The part of a sequence that satisfies a test, in order. */
  function Filter<T>(test: T -> bool, s: seq<T>): seq<T> {
    if s == [] then []
    else
      var x := s[|s| - 1];
      Filter(test, s[..|s| - 1]) + if test(x) then [x] else []
  }

  lemma {:induction false} FilterSorted<T>(less: (T, T) -> bool, test: T -> bool, s: seq<T>)
    requires Sorted(less, s)
    ensures Sorted(less, Filter(test, s))
    ensures forall x :: x in Filter(test, s) ==> x in s && test(x)
    ensures forall x <- s :: test(x) ==> x in Filter(test, s)
  {
    if s != [] {
      var n := |s| - 1;
      FilterSorted(less, test, s[..n]);
      forall x <- Filter(test, s[..n]) ensures less(x, s[n]) {
        assert x in s[..n];
      }
    }
  }

  /** Filtering a sorted listing gives the sorted listing of the part. */
  lemma FilterOfSorted<T(!new)>(less: (T, T) -> bool, test: T -> bool, members: set<T>, part: set<T>)
    requires StrictOrder(less) && part <= members && forall x <- members :: test(x) <==> x in part
    ensures Filter(test, SortedList(less, members)) == SortedList(less, part)
  {
    var s := SortedList(less, members);
    FilterSorted(less, test, s);
    assert forall x :: x in s <==> x in Elems(s);
    assert Elems(Filter(test, s)) == part;
    ListingUnique(less, Filter(test, s), SortedList(less, part));
  }

  // ----- Byte-wise string order -----

  predicate StringLess(a: string, b: string) {
    b != "" && (a == "" || a[0] < b[0] || (a[0] == b[0] && StringLess(a[1..], b[1..])))
  }

  lemma {:induction false} StringTotal(a: string, b: string)
    ensures !StringLess(a, a) && (a == b || StringLess(a, b) || StringLess(b, a))
  {
    if a != "" {
      StringTotal(a[1..], if b == "" then b else b[1..]);
      assert a == [a[0]] + a[1..];
      if b != "" { assert b == [b[0]] + b[1..]; }
    }
  }

  lemma {:induction false} StringTransitive(a: string, b: string, c: string)
    requires StringLess(a, b) && StringLess(b, c)
    ensures StringLess(a, c)
  {
    if a != "" && a[0] == b[0] == c[0] {
      StringTransitive(a[1..], b[1..], c[1..]);
    }
  }

  lemma StringOrder()
    ensures StrictOrder(StringLess)
  {
    forall a, b ensures !StringLess(a, a) && (a == b || StringLess(a, b) || StringLess(b, a)) {
      StringTotal(a, b);
    }
    forall a, b, c | StringLess(a, b) && StringLess(b, c) ensures StringLess(a, c) {
      StringTransitive(a, b, c);
    }
  }
}
