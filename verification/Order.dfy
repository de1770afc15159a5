/**
  Go's string order and the library sort, shared by every component that sorts.
  Sorting is modelled by an insertion sort: what the callers rely on is only
  that the result is a sorted permutation, and SortedUnique shows that this
  determines it.
 */
module Order {

  /** Bytewise lexicographic order, Go's < on strings. */
  predicate StringLess(a: string, b: string) {
    if b == [] then false
    else if a == [] then true
    else if a[0] != b[0] then a[0] < b[0]
    else StringLess(a[1..], b[1..])
  }

  /** The strings agree up to k, where a ends or has the smaller character. */
  ghost predicate LessAt(a: string, b: string, k: nat) {
    k <= |a| && k < |b| && a[..k] == b[..k] && (k == |a| || a[k] < b[k])
  }

  /** A string is less exactly when it is a proper prefix or smaller at the first difference. */
  lemma {:induction false} StringLessIff(a: string, b: string)
    ensures StringLess(a, b) <==> exists k: nat :: LessAt(a, b, k)
    decreases |a|
  {
    if a == [] || b == [] {
      if b != [] {
        assert LessAt(a, b, 0);
      }
    } else if a[0] != b[0] {
      if a[0] < b[0] {
        assert LessAt(a, b, 0);
      }
      forall k: nat | LessAt(a, b, k) ensures a[0] < b[0] {
        LessAtHead(a, b, k);
      }
    } else {
      StringLessIff(a[1..], b[1..]);
      if k: nat :| LessAt(a[1..], b[1..], k) {
        assert a[..k + 1] == [a[0]] + a[1..][..k] && b[..k + 1] == [b[0]] + b[1..][..k];
        assert LessAt(a, b, k + 1);
      }
      if k: nat :| LessAt(a, b, k) {
        assert k > 0;
        assert a[1..][..k - 1] == a[..k][1..] && b[1..][..k - 1] == b[..k][1..];
        assert LessAt(a[1..], b[1..], k - 1);
      }
    }
  }

  lemma LessAtHead(a: string, b: string, k: nat)
    requires LessAt(a, b, k) && a != []
    ensures b != [] && if k == 0 then a[0] < b[0] else a[0] == b[0]
  {
    assert k > 0 ==> a[..k][0] == b[..k][0];
  }

  /** The fields before k agree, and field k is less. */
  ghost predicate LessAtField(a: seq<string>, b: seq<string>, k: nat) {
    k < |a| && k < |b| && (forall i :: 0 <= i < k ==> a[i] == b[i]) && StringLess(a[k], b[k])
  }

  /** Field by field: the first fields that differ decide. */
  ghost predicate FieldsLess(a: seq<string>, b: seq<string>) {
    exists k :: LessAtField(a, b, k)
  }

  /** Irreflexive, transitive and connected, on the given elements. */
  ghost predicate StrictTotal<T(!new)>(less: (T, T) -> bool) {
    && (forall x :: !less(x, x))
    && (forall x, y :: less(x, y) || less(y, x) || x == y)
    && (forall x, y, z :: less(x, y) && less(y, z) ==> less(x, z))
  }

  lemma StringLessIrreflexive(a: string)
    ensures !StringLess(a, a)
  {
  }

  lemma {:induction false} StringLessConnected(a: string, b: string)
    ensures StringLess(a, b) || StringLess(b, a) || a == b
  {
    if a != [] && b != [] && a[0] == b[0] {
      StringLessConnected(a[1..], b[1..]);
      assert a == [a[0]] + a[1..] && b == [b[0]] + b[1..];
    }
  }

  lemma {:induction false} StringLessTransitive(a: string, b: string, c: string)
    requires StringLess(a, b) && StringLess(b, c)
    ensures StringLess(a, c)
  {
    if a != [] && a[0] == b[0] == c[0] {
      StringLessTransitive(a[1..], b[1..], c[1..]);
    }
  }

  /** The three laws at once, for orders built from string comparisons. */
  lemma StringOrder(a: string, b: string, c: string)
    ensures !StringLess(a, a)
    ensures StringLess(a, b) || StringLess(b, a) || a == b
    ensures StringLess(a, b) && StringLess(b, c) ==> StringLess(a, c)
  {
    StringLessIrreflexive(a);
    StringLessConnected(a, b);
    if StringLess(a, b) && StringLess(b, c) {
      StringLessTransitive(a, b, c);
    }
  }

  lemma StringLessIsStrictTotal()
    ensures StrictTotal(StringLess)
  {
    forall a ensures !StringLess(a, a) {
      StringLessIrreflexive(a);
    }
    forall a, b ensures StringLess(a, b) || StringLess(b, a) || a == b {
      StringLessConnected(a, b);
    }
    forall a, b, c | StringLess(a, b) && StringLess(b, c) ensures StringLess(a, c) {
      StringLessTransitive(a, b, c);
    }
  }

  /** Strictly increasing. */
  ghost predicate Increasing<T(!new)>(s: seq<T>, less: (T, T) -> bool) {
    forall i, j :: 0 <= i < j < |s| ==> less(s[i], s[j])
  }

  /** No later element is below an earlier one. */
  ghost predicate Sorted<T(!new)>(s: seq<T>, less: (T, T) -> bool) {
    forall i, j :: 0 <= i < j < |s| ==> !less(s[j], s[i])
  }

  function Insert<T>(x: T, s: seq<T>, less: (T, T) -> bool): (r: seq<T>)
    ensures multiset(r) == multiset(s) + multiset{x}
  {
    if s == [] || !less(s[0], x) then [x] + s
    else
      assert s == [s[0]] + s[1..];
      [s[0]] + Insert(x, s[1..], less)
  }

  function Sort<T>(s: seq<T>, less: (T, T) -> bool): (r: seq<T>)
    ensures multiset(r) == multiset(s)
  {
    if s == [] then []
    else
      assert s == [s[0]] + s[1..];
      Insert(s[0], Sort(s[1..], less), less)
  }

  lemma SameElements<T(!new)>(a: seq<T>, b: seq<T>)
    requires multiset(a) == multiset(b)
    ensures |a| == |b|
    ensures forall x :: x in a <==> x in b
  {
    assert |multiset(a)| == |a| && |multiset(b)| == |b|;
    forall x ensures x in a <==> x in b {
      assert x in a <==> x in multiset(a);
      assert x in b <==> x in multiset(b);
    }
  }

  /** Enough to sort by: being not below is transitive. Elements may tie. */
  ghost predicate StrictWeak<T(!new)>(less: (T, T) -> bool) {
    && (forall x, y :: less(x, y) ==> !less(y, x))
    && (forall x, y, z :: !less(x, y) && !less(y, z) ==> !less(x, z))
  }

  lemma TotalIsWeak<T(!new)>(less: (T, T) -> bool)
    requires StrictTotal(less)
    ensures StrictWeak(less)
  {
  }

  lemma {:induction false} InsertSorted<T(!new)>(x: T, s: seq<T>, less: (T, T) -> bool)
    requires StrictWeak(less) && Sorted(s, less)
    ensures Sorted(Insert(x, s, less), less)
    decreases |s|
  {
    if s != [] && less(s[0], x) {
      InsertSorted(x, s[1..], less);
      var tail := Insert(x, s[1..], less);
      SameElements(tail, s[1..] + [x]);
      forall j | 0 <= j < |tail| ensures !less(tail[j], s[0]) {
        assert tail[j] in s[1..] + [x];
      }
    } else if s != [] {
      forall j | 0 <= j < |s| ensures !less(s[j], x) {
      }
    }
  }

  lemma {:induction false} SortSorts<T(!new)>(s: seq<T>, less: (T, T) -> bool)
    requires StrictWeak(less)
    ensures Sorted(Sort(s, less), less)
    decreases |s|
  {
    if s != [] {
      SortSorts(s[1..], less);
      InsertSorted(s[0], Sort(s[1..], less), less);
    }
  }

  ghost predicate Distinct<T(!new)>(s: seq<T>) {
    forall i, j :: 0 <= i < j < |s| ==> s[i] != s[j]
  }

  lemma {:induction false} DistinctMultiset<T(!new)>(s: seq<T>)
    ensures Distinct(s) <==> forall x :: multiset(s)[x] <= 1
    decreases |s|
  {
    if s != [] {
      var tail := s[1..];
      assert s == [s[0]] + tail;
      DistinctMultiset(tail);
      if Distinct(s) {
        assert s[0] !in tail;
      } else {
        if Distinct(tail) {
          assert s[0] in tail;
          assert multiset(s)[s[0]] >= 2;
        } else {
          var x :| multiset(tail)[x] > 1;
          assert multiset(s)[x] > 1;
        }
      }
    }
  }

  /** Sorting distinct elements gives a strictly increasing permutation. */
  lemma SortIncreases<T(!new)>(s: seq<T>, less: (T, T) -> bool)
    requires StrictTotal(less) && Distinct(s)
    ensures Increasing(Sort(s, less), less)
    ensures |Sort(s, less)| == |s|
    ensures forall x :: x in Sort(s, less) <==> x in s
  {
    var r := Sort(s, less);
    TotalIsWeak(less);
    SortSorts(s, less);
    SameElements(r, s);
    DistinctMultiset(s);
    DistinctMultiset(r);
  }

  /** A strictly increasing sequence is determined by its elements. */
  lemma {:induction false} SortedUnique<T(!new)>(a: seq<T>, b: seq<T>, less: (T, T) -> bool)
    requires StrictTotal(less) && Increasing(a, less) && Increasing(b, less)
    requires forall x :: x in a <==> x in b
    ensures a == b
    decreases |a|
  {
    if a == [] {
      assert forall i :: 0 <= i < |b| ==> b[i] in a;
    } else {
      assert a[0] in b && b[0] in a;
      assert a[0] == b[0];
      forall x ensures x in a[1..] <==> x in b[1..] {
        if x in a[1..] { assert x in a; }
        if x in b[1..] { assert x in b; }
      }
      SortedUnique(a[1..], b[1..], less);
      assert a == [a[0]] + a[1..] && b == [b[0]] + b[1..];
    }
  }

  ghost function Enumeration<T(!new)>(s: set<T>): (r: seq<T>)
    ensures Distinct(r)
    ensures forall x :: x in r <==> x in s
  {
    if s == {} then [] else
    var x :| x in s;
    [x] + Enumeration(s - {x})
  }

  /** The strings of a set, in increasing order. */
  ghost function Ascending(s: set<string>): (r: seq<string>)
    ensures Increasing(r, StringLess) && Distinct(r)
    ensures forall x :: x in r <==> x in s
  {
    StringLessIsStrictTotal();
    SortIncreases(Enumeration(s), StringLess);
    Sort(Enumeration(s), StringLess)
  }

  /** Ranging over a Go map visits its keys once each, in any order. */
  method Enumerate<T(==, !new)>(s: set<T>) returns (order: seq<T>)
    ensures Distinct(order)
    ensures forall x :: x in order <==> x in s
  {
    order := [];
    var left := s;
    while left != {}
      invariant left <= s
      invariant Distinct(order)
      invariant forall x :: x in order <==> x in s - left
      decreases |left|
    {
      var x :| x in left;
      assert x !in order;
      order := order + [x];
      left := left - {x};
    }
  }

  /** Collecting the keys of a Go map and sorting them. */
  method SortedKeys(s: set<string>) returns (keys: seq<string>)
    ensures keys == Ascending(s)
    ensures Distinct(keys)
  {
    var order := Enumerate(s);
    keys := Sort(order, StringLess);
    StringLessIsStrictTotal();
    SortIncreases(order, StringLess);
    SortedUnique(keys, Ascending(s), StringLess);
  }
}
