/** Stable sorting by a key, and when its result does not depend on the order of the input: a sorted list of elements
    that their keys tell apart is determined by the elements, so any two listings of them sort alike. The program sorts
    what it prints, digests or signs by such keys, and relies on this wherever it iterates over sets. */
module Sorting {

  /** The order of keys: any two are comparable, and comparison is transitive. */
  ghost predicate Preorder<T(!new)>(le: (T, T) -> bool) {
    && (forall x, y :: le(x, y) || le(y, x))
    && (forall x, y, z :: le(x, y) && le(y, z) ==> le(x, z))
  }

  /** No two different elements of s have equal keys. */
  ghost predicate Separates<T(!new)>(le: (T, T) -> bool, s: set<T>) {
    forall x, y | x in s && y in s :: le(x, y) && le(y, x) ==> x == y
  }

  ghost predicate Sorted<T(!new)>(xs: seq<T>, le: (T, T) -> bool) {
    forall i, j | 0 <= i < j < |xs| :: le(xs[i], xs[j])
  }

  predicate NoDuplicates<T(==)>(xs: seq<T>) {
    forall i, j | 0 <= i < j < |xs| :: xs[i] != xs[j]
  }

  function Elements<T(==)>(xs: seq<T>): set<T> {
    set x | x in xs
  }

  /** xs lists exactly the elements of s, each once. */
  predicate Enumerates<T(==)>(xs: seq<T>, s: set<T>) {
    NoDuplicates(xs) && Elements(xs) == s
  }

  ghost function Listing<T>(s: set<T>): (xs: seq<T>)
    ensures Enumerates(xs, s)
  {
    if s == {} then [] else
      var x :| x in s;
      var rest := Listing(s - {x});
      assert Elements([x] + rest) == {x} + Elements(rest);
      [x] + rest
  }

  // ----- the sort -----

  function Insert<T>(x: T, xs: seq<T>, le: (T, T) -> bool): seq<T> {
    if xs == [] || le(x, xs[0]) then [x] + xs
    else [xs[0]] + Insert(x, xs[1..], le)
  }

  /** Insertion sort from the back, which keeps elements of equal keys in their order. */
  function Sort<T>(xs: seq<T>, le: (T, T) -> bool): seq<T> {
    if xs == [] then [] else Insert(xs[0], Sort(xs[1..], le), le)
  }

  lemma {:induction false} InsertKeeps<T>(x: T, xs: seq<T>, le: (T, T) -> bool)
    ensures multiset(Insert(x, xs, le)) == multiset{x} + multiset(xs)
  {
    if xs != [] && !le(x, xs[0]) {
      InsertKeeps(x, xs[1..], le);
      assert xs == [xs[0]] + xs[1..];
    }
  }

  lemma {:induction false} SortKeeps<T>(xs: seq<T>, le: (T, T) -> bool)
    ensures multiset(Sort(xs, le)) == multiset(xs)
  {
    if xs != [] {
      SortKeeps(xs[1..], le);
      InsertKeeps(xs[0], Sort(xs[1..], le), le);
      assert xs == [xs[0]] + xs[1..];
    }
  }

  lemma {:induction false} InsertSorted<T(!new)>(x: T, xs: seq<T>, le: (T, T) -> bool)
    requires Preorder(le) && Sorted(xs, le)
    ensures Sorted(Insert(x, xs, le), le)
  {
    if xs != [] && !le(x, xs[0]) {
      var rest := Insert(x, xs[1..], le);
      InsertSorted(x, xs[1..], le);
      InsertKeeps(x, xs[1..], le);
      forall j | 0 <= j < |rest|
        ensures le(xs[0], rest[j])
      {
        assert rest[j] in multiset(rest);
        assert rest[j] == x || rest[j] in xs[1..];
      }
    }
  }

  lemma {:induction false} SortSorted<T(!new)>(xs: seq<T>, le: (T, T) -> bool)
    requires Preorder(le)
    ensures Sorted(Sort(xs, le), le)
  {
    if xs != [] {
      SortSorted(xs[1..], le);
      InsertSorted(xs[0], Sort(xs[1..], le), le);
    }
  }

  lemma SameElements<T>(xs: seq<T>, ys: seq<T>)
    requires multiset(xs) == multiset(ys)
    ensures Elements(xs) == Elements(ys) && |xs| == |ys|
    ensures forall x :: x in xs <==> x in ys
  {
    assert forall x :: x in xs <==> x in multiset(xs);
    assert forall x :: x in ys <==> x in multiset(ys);
    assert |multiset(xs)| == |xs| && |multiset(ys)| == |ys|;
  }

  /** Two sorted lists of the same elements are the same list, when keys tell elements apart. */
  lemma {:induction false} SortedUnique<T(!new)>(xs: seq<T>, ys: seq<T>, le: (T, T) -> bool)
    requires Preorder(le) && Sorted(xs, le) && Sorted(ys, le)
    requires multiset(xs) == multiset(ys) && Separates(le, Elements(xs))
    ensures xs == ys
  {
    hide Preorder, Sorted, Separates, Elements;
    SameElements(xs, ys);
    if xs != [] {
      SameFirst(xs, ys, le);
      SortedTail(xs, le);
      SortedTail(ys, le);
      FewerSeparated(le, Elements(xs[1..]), Elements(xs));
      SortedUnique(xs[1..], ys[1..], le);
      assert xs == [xs[0]] + xs[1..] && ys == [ys[0]] + ys[1..];
    }
  }

  lemma FewerSeparated<T(!new)>(le: (T, T) -> bool, fewer: set<T>, all: set<T>)
    requires Separates(le, all) && fewer <= all
    ensures Separates(le, fewer)
  {
  }

  lemma SortedTail<T(!new)>(xs: seq<T>, le: (T, T) -> bool)
    requires Sorted(xs, le) && xs != []
    ensures Sorted(xs[1..], le) && Elements(xs[1..]) <= Elements(xs)
    ensures multiset(xs[1..]) == multiset(xs) - multiset{xs[0]}
  {
    assert xs == [xs[0]] + xs[1..];
  }

  lemma SameFirst<T(!new)>(xs: seq<T>, ys: seq<T>, le: (T, T) -> bool)
    requires Preorder(le) && Sorted(xs, le) && Sorted(ys, le) && xs != [] && ys != []
    requires (forall x :: x in xs <==> x in ys) && Separates(le, Elements(xs))
    ensures xs[0] == ys[0]
  {
    assert xs[0] in ys && ys[0] in xs;
    assert le(xs[0], ys[0]) && le(ys[0], xs[0]);
  }

  /** Sorting by keys that tell elements apart forgets the order of the input. */
  lemma SortForgetsOrder<T(!new)>(xs: seq<T>, ys: seq<T>, le: (T, T) -> bool)
    requires Preorder(le) && multiset(xs) == multiset(ys) && Separates(le, Elements(xs))
    ensures Sort(xs, le) == Sort(ys, le)
  {
    SortKeeps(xs, le);
    SortKeeps(ys, le);
    SortSorted(xs, le);
    SortSorted(ys, le);
    SameElements(Sort(xs, le), xs);
    SortedUnique(Sort(xs, le), Sort(ys, le), le);
  }

  lemma {:induction false} CountOnce<T>(xs: seq<T>, y: T)
    requires NoDuplicates(xs)
    ensures multiset(xs)[y] == if y in xs then 1 else 0
  {
    if xs != [] {
      CountOnce(xs[1..], y);
      assert xs == [xs[0]] + xs[1..];
      assert xs[0] !in xs[1..];
    }
  }

  lemma {:induction false} CountedOnce<T>(xs: seq<T>)
    requires forall x | x in xs :: multiset(xs)[x] <= 1
    ensures NoDuplicates(xs)
  {
    if xs != [] {
      var rest := xs[1..];
      assert xs == [xs[0]] + rest;
      forall x | x in rest
        ensures multiset(rest)[x] <= 1 && x != xs[0]
      {
        assert multiset(xs)[x] <= 1;
        assert multiset(rest)[x] >= 1;
      }
      CountedOnce(rest);
      forall i, j | 0 <= i < j < |xs|
        ensures xs[i] != xs[j]
      {
        assert xs[j] == rest[j - 1] && rest[j - 1] in rest;
        if i > 0 {
          assert xs[i] == rest[i - 1];
        }
      }
    }
  }

  lemma SortDistinct<T>(xs: seq<T>, le: (T, T) -> bool)
    requires NoDuplicates(xs)
    ensures NoDuplicates(Sort(xs, le))
  {
    SortKeeps(xs, le);
    forall x | x in Sort(xs, le)
      ensures multiset(Sort(xs, le))[x] <= 1
    {
      CountOnce(xs, x);
    }
    CountedOnce(Sort(xs, le));
  }

  lemma EnumerationsMatch<T>(xs: seq<T>, ys: seq<T>)
    requires NoDuplicates(xs) && NoDuplicates(ys) && Elements(xs) == Elements(ys)
    ensures multiset(xs) == multiset(ys)
  {
    forall x
      ensures multiset(xs)[x] == multiset(ys)[x]
    {
      CountOnce(xs, x);
      CountOnce(ys, x);
      assert x in xs <==> x in Elements(xs);
      assert x in ys <==> x in Elements(ys);
    }
  }

  lemma EnumerationsSortAlike<T(!new)>(xs: seq<T>, ys: seq<T>, le: (T, T) -> bool)
    requires Preorder(le) && Separates(le, Elements(xs))
    requires NoDuplicates(xs) && NoDuplicates(ys) && Elements(xs) == Elements(ys)
    ensures Sort(xs, le) == Sort(ys, le)
  {
    EnumerationsMatch(xs, ys);
    SortForgetsOrder(xs, ys, le);
  }

  // ----- the lexicographic order on byte strings and texts -----

  predicate LexLe(a: seq<int>, b: seq<int>) {
    if a == [] then true
    else if b == [] then false
    else if a[0] != b[0] then a[0] < b[0]
    else LexLe(a[1..], b[1..])
  }

  lemma {:induction false} LexTotal(a: seq<int>, b: seq<int>)
    ensures LexLe(a, b) || LexLe(b, a)
    ensures LexLe(a, b) && LexLe(b, a) ==> a == b
  {
    if a != [] && b != [] && a[0] == b[0] {
      LexTotal(a[1..], b[1..]);
      assert a == [a[0]] + a[1..] && b == [b[0]] + b[1..];
    }
  }

  lemma {:induction false} LexTransitive(a: seq<int>, b: seq<int>, c: seq<int>)
    requires LexLe(a, b) && LexLe(b, c)
    ensures LexLe(a, c)
  {
    if a != [] && a[0] == b[0] && b[0] == c[0] {
      LexTransitive(a[1..], b[1..], c[1..]);
    }
  }

  function Codes(s: string): seq<int> {
    seq(|s|, i requires 0 <= i < |s| => s[i] as int)
  }

  lemma CodesInjective(s: string, t: string)
    requires Codes(s) == Codes(t)
    ensures s == t
  {
    assert |s| == |Codes(s)| && |t| == |Codes(t)|;
    forall i | 0 <= i < |s|
      ensures s[i] == t[i]
    {
      assert Codes(s)[i] == Codes(t)[i];
    }
  }

  // ----- the order, position by position -----

  /** Up to a position both are the same, and there the first one ends or has the smaller number. */
  predicate SmallerAt(a: seq<int>, b: seq<int>, k: nat) {
    k <= |a| && k < |b| && a[..k] == b[..k] && (k == |a| || a[k] < b[k])
  }

  ghost predicate LexBefore(a: seq<int>, b: seq<int>) {
    exists k: nat :: SmallerAt(a, b, k)
  }

  predicate TextSmallerAt(s: string, t: string, k: nat) {
    k <= |s| && k < |t| && s[..k] == t[..k] && (k == |s| || s[k] < t[k])
  }

  /** Up to a position both texts are the same, and there the first one ends or has the smaller character. */
  ghost predicate TextBefore(s: string, t: string) {
    exists k: nat :: TextSmallerAt(s, t, k)
  }

  lemma {:induction false} LexLeByPosition(a: seq<int>, b: seq<int>)
    ensures LexLe(a, b) <==> a == b || LexBefore(a, b)
  {
    if a == [] {
      assert b != [] ==> SmallerAt(a, b, 0);
    } else if b == [] {
      assert !LexBefore(a, b);
    } else if a[0] != b[0] {
      assert a[0] < b[0] ==> SmallerAt(a, b, 0);
      forall k: nat | SmallerAt(a, b, k)
        ensures a[0] < b[0]
      {
        assert k > 0 ==> a[..k][0] == b[..k][0];
      }
    } else {
      LexLeByPosition(a[1..], b[1..]);
      assert a == [a[0]] + a[1..] && b == [b[0]] + b[1..];
      if k: nat :| SmallerAt(a[1..], b[1..], k) {
        assert a[..k + 1] == [a[0]] + a[1..][..k] && b[..k + 1] == [b[0]] + b[1..][..k];
        assert SmallerAt(a, b, k + 1);
      }
      if k: nat :| SmallerAt(a, b, k) {
        assert k > 0;
        assert a[1..][..k - 1] == a[..k][1..] && b[1..][..k - 1] == b[..k][1..];
        assert SmallerAt(a[1..], b[1..], k - 1);
      }
    }
  }

  lemma TextByCodes(s: string, t: string)
    ensures LexBefore(Codes(s), Codes(t)) <==> TextBefore(s, t)
  {
    forall k: nat
      ensures SmallerAt(Codes(s), Codes(t), k) <==> TextSmallerAt(s, t, k)
    {
      if k <= |s| && k < |t| {
        if s[..k] == t[..k] {
          assert forall i | 0 <= i < k :: s[i] == s[..k][i] && t[i] == t[..k][i];
          assert Codes(s)[..k] == Codes(t)[..k];
        }
        if Codes(s)[..k] == Codes(t)[..k] {
          forall i | 0 <= i < k
            ensures s[i] == t[i]
          {
            assert Codes(s)[i] == Codes(s)[..k][i] && Codes(t)[i] == Codes(t)[..k][i];
          }
          assert s[..k] == t[..k];
        }
      }
    }
  }
}
