/**
 * `Array.prototype.sort(comparefn)`: a stable in-place sort of an array under
 * an integer-valued comparator. `cmp(a, b) <= 0` lets `a` stay before `b`;
 * a positive value puts `b` first. Stability is required of the sort by
 * ECMA-262 since its 2019 edition.
 */
module StableSort {
  import opened Filtering

  /** `a` may stay before `b`. */
  predicate Before<T>(cmp: (T, T) -> int, a: T, b: T)
  {
    cmp(a, b) <= 0
  }

  /** The comparator is consistent: `Before` is a total preorder. */
  ghost predicate Consistent<T(!new)>(cmp: (T, T) -> int)
  {
    && (forall a, b :: Before(cmp, a, b) || Before(cmp, b, a))
    && (forall a, b, c :: Before(cmp, a, b) && Before(cmp, b, c) ==> Before(cmp, a, c))
  }

  /** No element is ordered strictly before an element to its left. */
  predicate Sorted<T>(s: seq<T>, cmp: (T, T) -> int)
  {
    forall i, j :: 0 <= i < j < |s| ==> cmp(s[i], s[j]) <= 0
  }

  /** The elements that tie with `y`: neither is ordered strictly before the other. */
  function Tie<T>(cmp: (T, T) -> int, y: T): T -> bool
  {
    z => cmp(z, y) <= 0 && cmp(y, z) <= 0
  }

  /** Inserts `x` after the last element of `s` that may precede it. */
  function Insert<T>(s: seq<T>, x: T, cmp: (T, T) -> int): seq<T>
    decreases |s|
  {
    if s == [] then [x]
    else if cmp(s[|s| - 1], x) <= 0 then s + [x]
    else Insert(s[..|s| - 1], x, cmp) + [s[|s| - 1]]
  }

  /** The order `Array.prototype.sort` produces: each element in turn inserted into the sorted prefix. */
  function InsertionSort<T>(s: seq<T>, cmp: (T, T) -> int): seq<T>
    decreases |s|
  {
    if s == [] then [] else Insert(InsertionSort(s[..|s| - 1], cmp), s[|s| - 1], cmp)
  }

  lemma {:induction false} InsertCount<T>(s: seq<T>, x: T, cmp: (T, T) -> int)
    ensures multiset(Insert(s, x, cmp)) == multiset(s) + multiset{x}
    decreases |s|
  {
    if s != [] && cmp(s[|s| - 1], x) > 0 {
      var init, last := s[..|s| - 1], s[|s| - 1];
      InsertCount(init, x, cmp);
      assert s == init + [last];
    }
  }

  /** Sorting permutes its input: nothing is lost, duplicated or invented. */
  lemma {:induction false} SortPermutes<T>(s: seq<T>, cmp: (T, T) -> int)
    ensures multiset(InsertionSort(s, cmp)) == multiset(s)
    ensures |InsertionSort(s, cmp)| == |s|
    decreases |s|
  {
    if s != [] {
      var init, last := s[..|s| - 1], s[|s| - 1];
      SortPermutes(init, cmp);
      InsertCount(InsertionSort(init, cmp), last, cmp);
      assert s == init + [last];
    }
    assert |multiset(InsertionSort(s, cmp))| == |InsertionSort(s, cmp)|;
  }

  lemma {:induction false} InsertSorted<T(!new)>(s: seq<T>, x: T, cmp: (T, T) -> int)
    requires Consistent(cmp)
    requires Sorted(s, cmp)
    ensures Sorted(Insert(s, x, cmp), cmp)
    decreases |s|
  {
    if s == [] {
    } else if cmp(s[|s| - 1], x) <= 0 {
      var r := s + [x];
      forall i, j | 0 <= i < j < |r| ensures cmp(r[i], r[j]) <= 0 {
        if j == |s| && i < |s| - 1 {
          assert Before(cmp, s[i], s[|s| - 1]) && Before(cmp, s[|s| - 1], x);
        }
      }
    } else {
      var init, last := s[..|s| - 1], s[|s| - 1];
      assert Sorted(init, cmp) by {
        forall i, j | 0 <= i < j < |init| ensures cmp(init[i], init[j]) <= 0 {
          assert init[i] == s[i] && init[j] == s[j];
        }
      }
      InsertSorted(init, x, cmp);
      var t := Insert(init, x, cmp);
      InsertCount(init, x, cmp);
      assert Before(cmp, x, last) || Before(cmp, last, x);
      forall i | 0 <= i < |t| ensures cmp(t[i], last) <= 0 {
        assert t[i] in multiset(t);
        if t[i] != x {
          assert t[i] in init;
          var k :| 0 <= k < |init| && init[k] == t[i];
          assert s[k] == t[i];
        }
      }
      var r := t + [last];
      forall i, j | 0 <= i < j < |r| ensures cmp(r[i], r[j]) <= 0 {
        if j < |t| {
          assert r[i] == t[i] && r[j] == t[j];
        }
      }
    }
  }

  /** The sorted order is non-decreasing under the comparator. */
  lemma {:induction false} SortSorted<T(!new)>(s: seq<T>, cmp: (T, T) -> int)
    requires Consistent(cmp)
    ensures Sorted(InsertionSort(s, cmp), cmp)
    decreases |s|
  {
    if s != [] {
      SortSorted(s[..|s| - 1], cmp);
      InsertSorted(InsertionSort(s[..|s| - 1], cmp), s[|s| - 1], cmp);
    }
  }

  /** Two elements that tie with the same `y` may stand in either order. */
  lemma TiesInterchangeable<T(!new)>(cmp: (T, T) -> int, x: T, z: T, y: T)
    requires Consistent(cmp)
    ensures Tie(cmp, y)(x) && Tie(cmp, y)(z) ==> Before(cmp, z, x)
  {
    if Tie(cmp, y)(x) && Tie(cmp, y)(z) {
      assert Before(cmp, z, y) && Before(cmp, y, x);
    }
  }

  lemma FilterSwap<T>(x: T, z: T, p: T -> bool)
    requires !(p(x) && p(z))
    ensures Filter([x], p) + Filter([z], p) == Filter([z], p) + Filter([x], p)
  {
  }

  /** Inserting `x` leaves the relative order of every tie class unchanged and puts `x` after its ties. */
  lemma {:induction false} InsertKeepsTies<T(!new)>(s: seq<T>, x: T, cmp: (T, T) -> int, y: T)
    requires Consistent(cmp)
    ensures Filter(Insert(s, x, cmp), Tie(cmp, y)) == Filter(s, Tie(cmp, y)) + Filter([x], Tie(cmp, y))
    decreases |s|
  {
    var p := Tie(cmp, y);
    if s == [] {
    } else if cmp(s[|s| - 1], x) <= 0 {
      FilterAppend(s, [x], p);
    } else {
      var init, last := s[..|s| - 1], s[|s| - 1];
      InsertKeepsTies(init, x, cmp, y);
      FilterAppend(Insert(init, x, cmp), [last], p);
      FilterAppend(init, [last], p);
      assert s == init + [last];
      TiesInterchangeable(cmp, x, last, y);
      FilterSwap(x, last, p);
      calc {
        Filter(Insert(s, x, cmp), p);
        Filter(Insert(init, x, cmp) + [last], p);
        Filter(init, p) + Filter([x], p) + Filter([last], p);
        Filter(init, p) + (Filter([last], p) + Filter([x], p));
        Filter(s, p) + Filter([x], p);
      }
    }
  }

  /** Stability: elements that compare equal keep their input order. */
  lemma {:induction false} SortStable<T(!new)>(s: seq<T>, cmp: (T, T) -> int, y: T)
    requires Consistent(cmp)
    ensures Filter(InsertionSort(s, cmp), Tie(cmp, y)) == Filter(s, Tie(cmp, y))
    decreases |s|
  {
    if s != [] {
      var init, last := s[..|s| - 1], s[|s| - 1];
      SortStable(init, cmp, y);
      InsertKeepsTies(InsertionSort(init, cmp), last, cmp, y);
      FilterAppend(init, [last], Tie(cmp, y));
      assert s == init + [last];
    }
  }

  lemma HeadIsLeast<T(!new)>(r: seq<T>, cmp: (T, T) -> int, x: T)
    requires Consistent(cmp)
    requires Sorted(r, cmp)
    requires x in r
    ensures cmp(r[0], x) <= 0
  {
    var k :| 0 <= k < |r| && r[k] == x;
    if k == 0 {
      assert Before(cmp, x, x) || Before(cmp, x, x);
    }
  }

  lemma HeadsAgree<T(!new)>(r: seq<T>, q: seq<T>, cmp: (T, T) -> int)
    requires Consistent(cmp)
    requires Sorted(r, cmp) && Sorted(q, cmp)
    requires r != [] && multiset(r) == multiset(q)
    requires Filter(r, Tie(cmp, r[0])) == Filter(q, Tie(cmp, r[0]))
    ensures q != [] && r[0] == q[0]
  {
    assert |multiset(q)| == |q|;
    var a, b := r[0], q[0];
    assert b in multiset(r) && a in multiset(q);
    HeadIsLeast(r, cmp, b);
    HeadIsLeast(q, cmp, a);
    var p := Tie(cmp, a);
    assert Before(cmp, a, a) || Before(cmp, a, a);
    assert p(a) && p(b);
    assert Filter(r, p)[0] == a by {
      assert Filter(r, p) == [a] + Filter(r[1..], p);
    }
    assert Filter(q, p)[0] == b by {
      assert Filter(q, p) == [b] + Filter(q[1..], p);
    }
  }

  lemma TailSorted<T>(r: seq<T>, cmp: (T, T) -> int)
    requires r != [] && Sorted(r, cmp)
    ensures Sorted(r[1..], cmp)
  {
  }

  lemma TailMultiset<T>(r: seq<T>, q: seq<T>)
    requires r != [] && q != [] && r[0] == q[0]
    requires multiset(r) == multiset(q)
    ensures multiset(r[1..]) == multiset(q[1..])
  {
    var a := r[0];
    assert r == [a] + r[1..] && q == [a] + q[1..];
    assert multiset(r[1..]) == multiset(r) - multiset{a};
    assert multiset(q[1..]) == multiset(q) - multiset{a};
  }

  lemma TailFilters<T>(r: seq<T>, q: seq<T>, p: T -> bool)
    requires r != [] && q != [] && r[0] == q[0]
    requires Filter(r, p) == Filter(q, p)
    ensures Filter(r[1..], p) == Filter(q[1..], p)
  {
    var h := if p(r[0]) then [r[0]] else [];
    assert Filter(r[1..], p) == Filter(r, p)[|h|..];
    assert Filter(q[1..], p) == Filter(q, p)[|h|..];
  }

  /** Two sorted arrangements of the same elements that agree on the order within every tie class are equal. */
  lemma {:induction false} StableArrangementUnique<T(!new)>(r: seq<T>, q: seq<T>, cmp: (T, T) -> int)
    requires Consistent(cmp)
    requires Sorted(r, cmp) && Sorted(q, cmp)
    requires multiset(r) == multiset(q)
    requires forall y :: Filter(r, Tie(cmp, y)) == Filter(q, Tie(cmp, y))
    ensures r == q
    decreases |r|
  {
    if r == [] {
      assert |multiset(q)| == |q|;
    } else {
      HeadsAgree(r, q, cmp);
      TailMultiset(r, q);
      TailSorted(r, cmp);
      TailSorted(q, cmp);
      forall y ensures Filter(r[1..], Tie(cmp, y)) == Filter(q[1..], Tie(cmp, y)) {
        TailFilters(r, q, Tie(cmp, y));
      }
      StableArrangementUnique(r[1..], q[1..], cmp);
      assert r == [r[0]] + r[1..] && q == [q[0]] + q[1..];
    }
  }

  /** Any stable sort of `s` yields `InsertionSort(s, cmp)`: the result does not depend on the algorithm. */
  lemma StableSortUnique<T(!new)>(s: seq<T>, r: seq<T>, cmp: (T, T) -> int)
    requires Consistent(cmp)
    requires Sorted(r, cmp)
    requires multiset(r) == multiset(s)
    requires forall y :: Filter(r, Tie(cmp, y)) == Filter(s, Tie(cmp, y))
    ensures r == InsertionSort(s, cmp)
  {
    var q := InsertionSort(s, cmp);
    SortPermutes(s, cmp);
    SortSorted(s, cmp);
    forall y ensures Filter(r, Tie(cmp, y)) == Filter(q, Tie(cmp, y)) {
      SortStable(s, cmp, y);
    }
    StableArrangementUnique(r, q, cmp);
  }

  /** Inserting lands `x` right after the last element that may precede it, past every element that may not. */
  lemma {:induction false} InsertSplit<T>(s: seq<T>, x: T, cmp: (T, T) -> int, j: int)
    requires 0 <= j <= |s|
    requires j == 0 || cmp(s[j - 1], x) <= 0
    requires forall k :: j <= k < |s| ==> cmp(s[k], x) > 0
    ensures Insert(s, x, cmp) == s[..j] + [x] + s[j..]
    decreases |s|
  {
    if j < |s| {
      var init := s[..|s| - 1];
      assert init[..j] == s[..j];
      InsertSplit(init, x, cmp, j);
      assert s[j..] == init[j..] + [s[|s| - 1]];
    } else {
      assert s[..j] == s;
    }
  }

  lemma InsertionSortPrefix<T>(s: seq<T>, cmp: (T, T) -> int, i: int)
    requires 0 <= i < |s|
    ensures InsertionSort(s[..i + 1], cmp) == Insert(InsertionSort(s[..i], cmp), s[i], cmp)
  {
    assert s[..i + 1][..i] == s[..i];
  }

  lemma Placed<T>(b: seq<T>, done: seq<T>, x: T, j: int)
    requires 0 <= j <= |done| && |b| == |done| + 1
    requires forall k :: 0 <= k < j ==> b[k] == done[k]
    requires b[j] == x
    requires forall k :: j < k < |b| ==> b[k] == done[k - 1]
    ensures b == done[..j] + [x] + done[j..]
  {
  }

  /** One step of the sort: moves `a[i]` left past every element of the sorted prefix `a[..i]` it must precede. */
  method InsertLast<T>(a: array<T>, i: int, cmp: (T, T) -> int)
    requires 0 <= i < a.Length
    modifies a
    ensures a[..i + 1] == Insert(old(a[..i]), old(a[i]), cmp)
    ensures forall k :: i < k < a.Length ==> a[k] == old(a[k])
  {
    var x := a[i];
    ghost var done := a[..i];
    var j := i;
    while j > 0 && cmp(a[j - 1], x) > 0
      invariant 0 <= j <= i
      invariant forall k :: 0 <= k < j ==> a[k] == done[k]
      invariant forall k :: j < k <= i ==> a[k] == done[k - 1]
      invariant forall k :: i < k < a.Length ==> a[k] == old(a[k])
      invariant forall k :: j <= k < i ==> cmp(done[k], x) > 0
    {
      a[j] := a[j - 1];
      j := j - 1;
    }
    InsertSplit(done, x, cmp, j);
    a[j] := x;
    Placed(a[..i + 1], done, x, j);
  }

  /** Sorts `a` in place by insertion, shifting larger elements right; equal elements are never swapped. */
  method SortInPlace<T>(a: array<T>, cmp: (T, T) -> int)
    modifies a
    ensures a[..] == InsertionSort(old(a[..]), cmp)
  {
    ghost var orig := a[..];
    var i := 0;
    while i < a.Length
      invariant 0 <= i <= a.Length
      invariant a[..i] == InsertionSort(orig[..i], cmp)
      invariant forall k :: i <= k < a.Length ==> a[k] == orig[k]
    {
      InsertLast(a, i, cmp);
      InsertionSortPrefix(orig, cmp, i);
      i := i + 1;
    }
    assert a[..] == a[..a.Length] && orig == orig[..a.Length];
  }
}
