/** The library sorts, specified: a stable sort by a comparison, and the laws that pin its result down. */
module Sorting {
  type Less<!T> = (T, T) -> bool

  /** Asymmetric, and incomparability is an equivalence: what the library demands of a comparison. */
  ghost predicate WeakOrder<T(!new)>(less: Less<T>) {
    && (forall a, b :: less(a, b) ==> !less(b, a))
    && (forall a, b, c :: less(a, c) ==> less(a, b) || less(b, c))
  }

  /** Insert x in front of everything that is not less than it. */
  function Insert<T>(less: Less<T>, x: T, s: seq<T>): seq<T> {
    if s != [] && less(s[0], x) then [s[0]] + Insert(less, x, s[1..]) else [x] + s
  }

  function StableSort<T>(less: Less<T>, s: seq<T>): seq<T> {
    if s == [] then [] else Insert(less, s[0], StableSort(less, s[1..]))
  }

  ghost predicate Sorted<T(!new)>(less: Less<T>, s: seq<T>) {
    forall i, j :: 0 <= i < j < |s| ==> !less(s[j], s[i])
  }

  /** The elements of s that compare equal to x, in order. */
  function ClassOf<T>(less: Less<T>, x: T, s: seq<T>): seq<T> {
    if s == [] then [] else (if !less(x, s[0]) && !less(s[0], x) then [s[0]] else []) + ClassOf(less, x, s[1..])
  }

  /** r is s rearranged in order, with equal elements left in the order they had. */
  ghost predicate IsStableSortOf<T(!new)>(less: Less<T>, r: seq<T>, s: seq<T>) {
    && Sorted(less, r)
    && multiset(r) == multiset(s)
    && forall x :: ClassOf(less, x, r) == ClassOf(less, x, s)
  }

  lemma {:induction false} InsertBag<T>(less: Less<T>, x: T, s: seq<T>)
    ensures multiset(Insert(less, x, s)) == multiset{x} + multiset(s)
  {
    if s != [] && less(s[0], x) {
      InsertBag(less, x, s[1..]);
      assert s == [s[0]] + s[1..];
    }
  }

  lemma {:induction false} InsertSorted<T(!new)>(less: Less<T>, x: T, s: seq<T>)
    requires WeakOrder(less) && Sorted(less, s)
    ensures Sorted(less, Insert(less, x, s))
  {
    if s != [] && less(s[0], x) {
      var rest := Insert(less, x, s[1..]);
      InsertSorted(less, x, s[1..]);
      InsertBag(less, x, s[1..]);
      forall j | 0 <= j < |rest| ensures !less(rest[j], s[0]) {
        assert rest[j] in multiset(rest);
        assert rest[j] == x || rest[j] in s[1..];
      }
    } else if s != [] {
      forall j | 0 <= j < |s| ensures !less(s[j], x) {
        assert j > 0 ==> !less(s[j], s[0]);
      }
    }
  }

  lemma {:induction false} InsertClass<T(!new)>(less: Less<T>, x: T, s: seq<T>, y: T)
    requires WeakOrder(less) && Sorted(less, s)
    ensures ClassOf(less, y, Insert(less, x, s)) == ClassOf(less, y, [x] + s)
  {
    assert ([x] + s)[1..] == s;
    if s != [] && less(s[0], x) {
      var rest := Insert(less, x, s[1..]);
      InsertClass(less, x, s[1..], y);
      assert ([x] + s[1..])[1..] == s[1..];
      assert ([s[0]] + rest)[1..] == rest;
    }
  }

  lemma {:induction false} SortIsStable<T(!new)>(less: Less<T>, s: seq<T>)
    requires WeakOrder(less)
    ensures IsStableSortOf(less, StableSort(less, s), s)
    ensures |StableSort(less, s)| == |s|
  {
    if s != [] {
      var rest := StableSort(less, s[1..]);
      SortIsStable(less, s[1..]);
      InsertBag(less, s[0], rest);
      InsertSorted(less, s[0], rest);
      assert s == [s[0]] + s[1..];
      forall y ensures ClassOf(less, y, StableSort(less, s)) == ClassOf(less, y, s) {
        InsertClass(less, s[0], rest, y);
        assert ([s[0]] + rest)[1..] == rest;
      }
      assert |multiset(StableSort(less, s))| == |multiset(s)|;
    }
  }

  lemma {:induction false} ClassMember<T(!new)>(less: Less<T>, x: T, s: seq<T>)
    requires WeakOrder(less)
    requires ClassOf(less, x, s) != []
    ensures var y := ClassOf(less, x, s)[0]; y in s && !less(x, y) && !less(y, x)
  {
    if ClassOf(less, x, s) == ClassOf(less, x, s[1..]) { ClassMember(less, x, s[1..]); }
  }

  lemma OwnClass<T(!new)>(less: Less<T>, s: seq<T>)
    requires WeakOrder(less) && s != []
    ensures var c := ClassOf(less, s[0], s); c != [] && c[0] == s[0]
  {}

  /** Order plus stability leaves only one result. */
  lemma {:induction false} StableSortUnique<T(!new)>(less: Less<T>, a: seq<T>, b: seq<T>)
    requires WeakOrder(less) && Sorted(less, a) && Sorted(less, b)
    requires forall x :: ClassOf(less, x, a) == ClassOf(less, x, b)
    ensures a == b
  {
    if a == [] {
      if b != [] {
        OwnClass(less, b);
        assert false;
      }
    } else if b == [] {
      OwnClass(less, a);
      assert false;
    } else {
      OwnClass(less, a);
      OwnClass(less, b);
      ClassMember(less, a[0], b);
      ClassMember(less, b[0], a);
      assert a[0] in b && b[0] in a;
      assert !less(a[0], b[0]) && !less(b[0], a[0]);
      assert ClassOf(less, a[0], b)[0] == b[0];
      assert a[0] == b[0];
      forall x ensures ClassOf(less, x, a[1..]) == ClassOf(less, x, b[1..]) {
        assert ClassOf(less, x, a) == ClassOf(less, x, b);
        var c := if !less(x, a[0]) && !less(a[0], x) then 1 else 0;
        assert ClassOf(less, x, a)[c..] == ClassOf(less, x, a[1..]);
        assert ClassOf(less, x, b)[c..] == ClassOf(less, x, b[1..]);
      }
      StableSortUnique(less, a[1..], b[1..]);
      assert a == [a[0]] + a[1..] && b == [b[0]] + b[1..];
    }
  }

  /** A sequence already in order is its own stable sort. */
  lemma SortOfSorted<T(!new)>(less: Less<T>, s: seq<T>)
    requires WeakOrder(less) && Sorted(less, s)
    ensures StableSort(less, s) == s
  {
    SortIsStable(less, s);
    StableSortUnique(less, StableSort(less, s), s);
  }

  // ---- sorted keys -------------------------------------------------------------------

  function Keys<T>(key: T -> int, s: seq<T>): (r: seq<int>)
    ensures |r| == |s| && forall i :: 0 <= i < |s| ==> r[i] == key(s[i])
  {
    seq(|s|, i requires 0 <= i < |s| => key(s[i]))
  }

  ghost predicate Ascending(s: seq<int>) {
    forall i, j :: 0 <= i < j < |s| ==> s[i] <= s[j]
  }

  lemma {:induction false} InsertKeys<T>(less: Less<T>, key: T -> int, x: T, s: seq<T>)
    ensures multiset(Keys(key, Insert(less, x, s))) == multiset{key(x)} + multiset(Keys(key, s))
  {
    if s != [] && less(s[0], x) {
      var rest := Insert(less, x, s[1..]);
      InsertKeys(less, key, x, s[1..]);
      assert Keys(key, [s[0]] + rest) == [key(s[0])] + Keys(key, rest);
      assert Keys(key, s) == [key(s[0])] + Keys(key, s[1..]);
    } else {
      assert Keys(key, [x] + s) == [key(x)] + Keys(key, s);
    }
  }

  lemma {:induction false} SortKeys<T>(less: Less<T>, key: T -> int, s: seq<T>)
    ensures multiset(Keys(key, StableSort(less, s))) == multiset(Keys(key, s))
  {
    if s != [] {
      SortKeys(less, key, s[1..]);
      InsertKeys(less, key, s[0], StableSort(less, s[1..]));
      assert Keys(key, s) == [key(s[0])] + Keys(key, s[1..]);
    }
  }

  lemma HeadIsMin(a: seq<int>, b: seq<int>)
    requires Ascending(a) && a != [] && b != [] && multiset(a) == multiset(b)
    ensures a[0] <= b[0]
  {
    assert b[0] in multiset(a);
  }

  lemma {:induction false} AscendingUnique(a: seq<int>, b: seq<int>)
    requires Ascending(a) && Ascending(b) && multiset(a) == multiset(b)
    ensures a == b
  {
    assert |multiset(a)| == |a| && |multiset(b)| == |b|;
    if a != [] {
      HeadIsMin(a, b);
      HeadIsMin(b, a);
      assert a == [a[0]] + a[1..] && b == [b[0]] + b[1..];
      assert multiset(a) == multiset{a[0]} + multiset(a[1..]) && multiset(b) == multiset{a[0]} + multiset(b[1..]);
      assert multiset(a[1..]) == multiset(a) - multiset{a[0]} == multiset(b[1..]);
      AscendingUnique(a[1..], b[1..]);
    }
  }

  /** Number of leading elements below t: where a lower-bound search on an ascending sequence stops. */
  function LowerBound(s: seq<int>, t: int): (p: nat)
    ensures p <= |s|
  {
    if s == [] || s[0] >= t then 0 else 1 + LowerBound(s[1..], t)
  }

  lemma {:induction false} LowerBoundSplits(s: seq<int>, t: int)
    requires Ascending(s)
    ensures forall i :: 0 <= i < |s| ==> (i < LowerBound(s, t) <==> s[i] < t)
  {
    if s != [] && s[0] < t {
      LowerBoundSplits(s[1..], t);
      forall i | 0 <= i < |s| ensures i < LowerBound(s, t) <==> s[i] < t {
        assert i > 0 ==> s[i] == s[1..][i - 1];
      }
    }
  }
}
