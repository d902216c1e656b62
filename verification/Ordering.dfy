/**
 Three-way comparisons, chained the way the source chains `cmp` with `then_with`,
 and the stable sort that the source takes from its standard library.
 */
module Ordering {

  datatype Ordering = Less | Equal | Greater {
    /** The later comparison decides only when this one is a tie. */
    function Then(other: Ordering): Ordering {
      if Equal? then other else this
    }
  }

  function CompareInt(a: int, b: int): Ordering {
    if a < b then Less else if a == b then Equal else Greater
  }

  /** `false` comes before `true`. */
  function CompareBool(a: bool, b: bool): Ordering {
    if a == b then Equal else if b then Less else Greater
  }

  /** Lexicographic order of strings, by code point. */
  function CompareString(a: string, b: string): Ordering {
    if a == [] && b == [] then Equal
    else if a == [] then Less
    else if b == [] then Greater
    else CompareInt(a[0] as int, b[0] as int).Then(CompareString(a[1..], b[1..]))
  }

  /** Lexicographic order of vectors of numbers. */
  function CompareVector(a: seq<int>, b: seq<int>): Ordering {
    if a == [] && b == [] then Equal
    else if a == [] then Less
    else if b == [] then Greater
    else CompareInt(a[0], b[0]).Then(CompareVector(a[1..], b[1..]))
  }

  function Codes(s: string): (r: seq<int>)
    ensures |r| == |s|
  {
    seq(|s|, i requires 0 <= i < |s| => s[i] as int)
  }

  lemma {:induction false} StringOrderIsVectorOrder(a: string, b: string)
    ensures CompareString(a, b) == CompareVector(Codes(a), Codes(b))
    ensures Codes(a) == Codes(b) <==> a == b
  {
    if a != [] && b != [] {
      StringOrderIsVectorOrder(a[1..], b[1..]);
      assert Codes(a)[1..] == Codes(a[1..]);
      assert Codes(b)[1..] == Codes(b[1..]);
      assert a == [a[0]] + a[1..] && b == [b[0]] + b[1..];
      assert Codes(a) == [Codes(a)[0]] + Codes(a)[1..];
      assert Codes(b) == [Codes(b)[0]] + Codes(b)[1..];
    }
  }

  lemma {:induction false} VectorOrderAntisymmetric(a: seq<int>, b: seq<int>)
    ensures CompareVector(a, b) == Less <==> CompareVector(b, a) == Greater
    ensures CompareVector(a, b) == Greater <==> CompareVector(b, a) == Less
    ensures CompareVector(a, b) == Equal <==> a == b
  {
    if a != [] && b != [] {
      VectorOrderAntisymmetric(a[1..], b[1..]);
      assert a == [a[0]] + a[1..] && b == [b[0]] + b[1..];
    }
  }

  lemma {:induction false} VectorOrderTransitive(a: seq<int>, b: seq<int>, c: seq<int>)
    requires CompareVector(a, b) != Greater && CompareVector(b, c) != Greater
    ensures CompareVector(a, c) != Greater
    ensures CompareVector(a, b) == Less || CompareVector(b, c) == Less ==> CompareVector(a, c) == Less
  {
    if a != [] && b != [] && c != [] && a[0] == b[0] == c[0] {
      VectorOrderTransitive(a[1..], b[1..], c[1..]);
    }
  }

  // ---------------------------------------------------------------- sorting

  ghost predicate TotalPreorder<T(!new)>(le: (T, T) -> bool) {
    && (forall x, y :: le(x, y) || le(y, x))
    && (forall x, y, z :: le(x, y) && le(y, z) ==> le(x, z))
  }

  ghost predicate SortedBy<T(!new)>(s: seq<T>, le: (T, T) -> bool) {
    forall i, j :: 0 <= i < j < |s| ==> le(s[i], s[j])
  }

  function Insert<T>(x: T, s: seq<T>, le: (T, T) -> bool): seq<T> {
    if s == [] || le(x, s[0]) then [x] + s else [s[0]] + Insert(x, s[1..], le)
  }

  /** A stable sort: equal elements keep their relative order. */
  function Sort<T>(s: seq<T>, le: (T, T) -> bool): seq<T> {
    if s == [] then [] else Insert(s[0], Sort(s[1..], le), le)
  }

  lemma {:induction false} InsertPermutes<T>(x: T, s: seq<T>, le: (T, T) -> bool)
    ensures multiset(Insert(x, s, le)) == multiset([x] + s)
  {
    if s != [] && !le(x, s[0]) {
      InsertPermutes(x, s[1..], le);
      assert s == [s[0]] + s[1..];
      assert Insert(x, s, le) == [s[0]] + Insert(x, s[1..], le);
    }
  }

  lemma {:induction false} SortPermutes<T>(s: seq<T>, le: (T, T) -> bool)
    ensures multiset(Sort(s, le)) == multiset(s)
    ensures |Sort(s, le)| == |s|
    ensures forall x :: x in Sort(s, le) <==> x in s
  {
    if s != [] {
      SortPermutes(s[1..], le);
      InsertPermutes(s[0], Sort(s[1..], le), le);
      assert s == [s[0]] + s[1..];
    }
    SameElements(Sort(s, le), s);
  }

  lemma SameElements<T>(a: seq<T>, b: seq<T>)
    requires multiset(a) == multiset(b)
    ensures |a| == |b|
    ensures forall x :: x in a <==> x in b
  {
    assert |a| == |multiset(a)| == |multiset(b)| == |b|;
    forall x ensures x in a <==> x in b {
      assert x in a <==> x in multiset(a);
      assert x in b <==> x in multiset(b);
    }
  }

  lemma {:induction false} InsertSorts<T(!new)>(x: T, s: seq<T>, le: (T, T) -> bool)
    requires TotalPreorder(le) && SortedBy(s, le)
    ensures SortedBy(Insert(x, s, le), le)
  {
    if s != [] {
      if le(x, s[0]) {
        assert forall j :: 0 <= j < |s| ==> le(s[0], s[j]);
      } else {
        InsertSorts(x, s[1..], le);
        var rest := Insert(x, s[1..], le);
        InsertPermutes(x, s[1..], le);
        SameElements(rest, [x] + s[1..]);
        forall j | 0 <= j < |rest| ensures le(s[0], rest[j]) {
          assert rest[j] in [x] + s[1..];
        }
      }
    }
  }

  lemma {:induction false} SortSorts<T(!new)>(s: seq<T>, le: (T, T) -> bool)
    requires TotalPreorder(le)
    ensures SortedBy(Sort(s, le), le)
  {
    if s != [] {
      SortSorts(s[1..], le);
      InsertSorts(s[0], Sort(s[1..], le), le);
    }
  }

  /** No two different elements of `all` tie. */
  ghost predicate Untied<T(!new)>(all: multiset<T>, le: (T, T) -> bool) {
    forall x, y :: x in all && y in all && le(x, y) && le(y, x) ==> x == y
  }

  lemma LeastComesFirst<T(!new)>(a: seq<T>, b: seq<T>, le: (T, T) -> bool)
    requires (forall x :: le(x, x)) && SortedBy(a, le) && SortedBy(b, le) && Untied(multiset(a), le)
    requires multiset(a) == multiset(b) && a != []
    ensures b != [] && a[0] == b[0]
  {
    SameElements(a, b);
    assert a[0] in b && b[0] in a;
    assert le(a[0], b[0]) && le(b[0], a[0]);
    assert a[0] in multiset(a) && b[0] in multiset(a);
  }

  lemma RestOfSorted<T(!new)>(a: seq<T>, le: (T, T) -> bool)
    requires SortedBy(a, le) && Untied(multiset(a), le) && a != []
    ensures SortedBy(a[1..], le) && Untied(multiset(a[1..]), le)
    ensures multiset(a[1..]) == multiset(a) - multiset{a[0]}
  {
    assert a == [a[0]] + a[1..];
    assert forall x :: x in multiset(a[1..]) ==> x in multiset(a);
  }

  /** Two sorted arrangements of the same elements agree when no two distinct elements tie. */
  lemma {:induction false} SortedIsUnique<T(!new)>(a: seq<T>, b: seq<T>, le: (T, T) -> bool)
    requires (forall x :: le(x, x)) && SortedBy(a, le) && SortedBy(b, le) && Untied(multiset(a), le)
    requires multiset(a) == multiset(b)
    ensures a == b
  {
    if a == [] {
      assert |multiset(b)| == 0;
    } else {
      assert b != [] && a[0] == b[0] by {
        LeastComesFirst(a, b, le);
      }
      assert a[1..] == b[1..] by {
        RestOfSorted(a, le);
        RestOfSorted(b, le);
        SortedIsUnique(a[1..], b[1..], le);
      }
      assert a == [a[0]] + a[1..] && b == [b[0]] + b[1..];
    }
  }

  /** A sorted sequence is already what sorting returns. */
  lemma {:induction false} SortKeepsSorted<T(!new)>(s: seq<T>, le: (T, T) -> bool)
    requires SortedBy(s, le)
    ensures Sort(s, le) == s
  {
    if s != [] {
      SortKeepsSorted(s[1..], le);
      assert |s| > 1 ==> le(s[0], s[1..][0]);
    }
  }

  function Map<T, U>(s: seq<T>, f: T -> U): (r: seq<U>)
    ensures |r| == |s|
    ensures forall i :: 0 <= i < |s| ==> r[i] == f(s[i])
  {
    if s == [] then [] else [f(s[0])] + Map(s[1..], f)
  }

  lemma {:induction false} InsertCommutesWithMap<T(!new), U>(
    x: T, s: seq<T>, f: T -> U, le: (T, T) -> bool, le': (U, U) -> bool)
    requires forall a, b :: le'(f(a), f(b)) == le(a, b)
    ensures Insert(f(x), Map(s, f), le') == Map(Insert(x, s, le), f)
  {
    if s != [] {
      if le(x, s[0]) {
        assert ([x] + s)[1..] == s;
      } else {
        InsertCommutesWithMap(x, s[1..], f, le, le');
        assert Map(s, f)[1..] == Map(s[1..], f);
        var r := Insert(x, s[1..], le);
        assert ([s[0]] + r)[1..] == r;
      }
    }
  }

  /** Sorting does not notice a change of the elements that keeps every comparison. */
  lemma {:induction false} SortCommutesWithMap<T(!new), U>(
    s: seq<T>, f: T -> U, le: (T, T) -> bool, le': (U, U) -> bool)
    requires forall a, b :: le'(f(a), f(b)) == le(a, b)
    ensures Sort(Map(s, f), le') == Map(Sort(s, le), f)
  {
    if s != [] {
      SortCommutesWithMap(s[1..], f, le, le');
      assert Map(s, f)[1..] == Map(s[1..], f);
      InsertCommutesWithMap(s[0], Sort(s[1..], le), f, le, le');
    }
  }
}
