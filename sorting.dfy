/**
 * `Array.prototype.sort` with a comparator, as DataTables uses it on index
 * arrays. The language guarantees a stable sort (ES2019); the model is the
 * stable insertion sort. When the comparator is consistent (antisymmetric,
 * transitive) and separates distinct elements, the sorted permutation is
 * unique, so any stable or unstable engine gives the same answer.
 */
module Sorting {

  /** Insert `x` after the last element that does not compare above it. */
  function Insert<T>(x: T, s: seq<T>, cmp: (T, T) -> int): (r: seq<T>)
    ensures |r| == |s| + 1
    ensures multiset(r) == multiset(s) + multiset{x}
  {
    if |s| == 0 then [x]
    else if cmp(s[|s| - 1], x) <= 0 then s + [x]
    else
      assert s == s[..|s| - 1] + [s[|s| - 1]];
      Insert(x, s[..|s| - 1], cmp) + [s[|s| - 1]]
  }

  /** The stable sort of `s` under `cmp`. */
  function InsertionSort<T>(s: seq<T>, cmp: (T, T) -> int): (r: seq<T>)
    ensures |r| == |s|
    ensures multiset(r) == multiset(s)
  {
    if |s| == 0 then []
    else
      assert s == s[..|s| - 1] + [s[|s| - 1]];
      Insert(s[|s| - 1], InsertionSort(s[..|s| - 1], cmp), cmp)
  }

  predicate Sorted<T>(s: seq<T>, cmp: (T, T) -> int) {
    forall i, j :: 0 <= i < j < |s| ==> cmp(s[i], s[j]) <= 0
  }

  /** The comparator contract of ECMAScript: the sign flips when the arguments swap. */
  ghost predicate Antisymmetric<T(!new)>(cmp: (T, T) -> int) {
    forall a, b :: cmp(a, b) < 0 <==> cmp(b, a) > 0
  }

  ghost predicate Transitive<T(!new)>(cmp: (T, T) -> int) {
    forall a, b, c :: cmp(a, b) <= 0 && cmp(b, c) <= 0 ==> cmp(a, c) <= 0
  }

  /** Only equal elements compare as ties. */
  ghost predicate Strict<T(!new)>(cmp: (T, T) -> int) {
    forall a, b :: cmp(a, b) == 0 ==> a == b
  }

  ghost predicate Consistent<T(!new)>(cmp: (T, T) -> int) {
    Antisymmetric(cmp) && Transitive(cmp)
  }

  // The same contract, required only of the elements in `d`: a comparator
  // built from table data need only behave on the rows being sorted.

  ghost predicate AntisymmetricOn<T>(cmp: (T, T) -> int, d: set<T>) {
    forall a, b :: a in d && b in d ==> (cmp(a, b) < 0 <==> cmp(b, a) > 0)
  }

  ghost predicate TransitiveOn<T>(cmp: (T, T) -> int, d: set<T>) {
    forall a, b, c :: a in d && b in d && c in d && cmp(a, b) <= 0 && cmp(b, c) <= 0 ==> cmp(a, c) <= 0
  }

  ghost predicate StrictOn<T>(cmp: (T, T) -> int, d: set<T>) {
    forall a, b :: a in d && b in d && cmp(a, b) == 0 ==> a == b
  }

  ghost predicate ConsistentOn<T>(cmp: (T, T) -> int, d: set<T>) {
    AntisymmetricOn(cmp, d) && TransitiveOn(cmp, d)
  }

  lemma AppendSorted<T>(s: seq<T>, x: T, cmp: (T, T) -> int)
    requires Sorted(s, cmp)
    requires forall i :: 0 <= i < |s| ==> cmp(s[i], x) <= 0
    ensures Sorted(s + [x], cmp)
  {
  }

  lemma {:induction false} InsertSorted<T>(x: T, s: seq<T>, cmp: (T, T) -> int, d: set<T>)
    requires Sorted(s, cmp)
    requires ConsistentOn(cmp, d)
    requires x in d && forall i :: 0 <= i < |s| ==> s[i] in d
    ensures Sorted(Insert(x, s, cmp), cmp)
  {
    if |s| > 0 {
      var last := s[|s| - 1];
      var init := s[..|s| - 1];
      if cmp(last, x) <= 0 {
        forall i | 0 <= i < |s| ensures cmp(s[i], x) <= 0 {
          if i < |s| - 1 { assert cmp(s[i], last) <= 0; }
        }
        AppendSorted(s, x, cmp);
      } else {
        InsertSorted(x, init, cmp, d);
        var r := Insert(x, init, cmp);
        assert cmp(x, last) < 0;
        forall k | 0 <= k < |r| ensures cmp(r[k], last) <= 0 {
          var e := r[k];
          assert e in multiset(r);
          if e != x {
            assert e in multiset(init);
            var i :| 0 <= i < |init| && init[i] == e;
            assert cmp(s[i], s[|s| - 1]) <= 0;
          }
        }
        AppendSorted(r, last, cmp);
      }
    }
  }

  lemma {:induction false} InsertionSortSortedOn<T>(s: seq<T>, cmp: (T, T) -> int, d: set<T>)
    requires ConsistentOn(cmp, d)
    requires forall i :: 0 <= i < |s| ==> s[i] in d
    ensures Sorted(InsertionSort(s, cmp), cmp)
  {
    if |s| > 0 {
      InsertionSortSortedOn(s[..|s| - 1], cmp, d);
      var init := InsertionSort(s[..|s| - 1], cmp);
      forall i | 0 <= i < |init| ensures init[i] in d {
        assert init[i] in multiset(s[..|s| - 1]);
      }
      InsertSorted(s[|s| - 1], init, cmp, d);
    }
  }

  lemma InsertionSortSorted<T(!new)>(s: seq<T>, cmp: (T, T) -> int)
    requires Consistent(cmp)
    ensures Sorted(InsertionSort(s, cmp), cmp)
  {
    InsertionSortSortedOn(s, cmp, set i | 0 <= i < |s| :: s[i]);
  }

  lemma HeadsEqual<T>(a: seq<T>, b: seq<T>, cmp: (T, T) -> int, d: set<T>)
    requires |a| > 0 && multiset(a) == multiset(b)
    requires Sorted(a, cmp) && Sorted(b, cmp)
    requires AntisymmetricOn(cmp, d) && StrictOn(cmp, d)
    requires forall i :: 0 <= i < |a| ==> a[i] in d
    ensures |b| > 0 && a[0] == b[0]
  {
    assert a[0] in multiset(b);
    var j :| 0 <= j < |b| && b[j] == a[0];
    assert b[0] in multiset(a);
    var i :| 0 <= i < |a| && a[i] == b[0];
    assert cmp(a[0], a[0]) == 0;
    assert cmp(b[0], b[0]) == 0;
    assert cmp(b[0], a[0]) <= 0;
    assert cmp(a[0], b[0]) <= 0;
  }

  lemma TailsSameMultiset<T>(a: seq<T>, b: seq<T>)
    requires |a| > 0 && |b| > 0 && a[0] == b[0] && multiset(a) == multiset(b)
    ensures multiset(a[1..]) == multiset(b[1..])
  {
    assert a == [a[0]] + a[1..] && b == [b[0]] + b[1..];
    assert multiset(a[1..]) == multiset(a) - multiset{a[0]};
    assert multiset(b[1..]) == multiset(b) - multiset{b[0]};
  }

  /**
   * Two sorted permutations of the same elements coincide when the comparator
   * is antisymmetric and separates distinct elements of `d`.
   */
  lemma {:induction false} SortedUniqueOn<T>(a: seq<T>, b: seq<T>, cmp: (T, T) -> int, d: set<T>)
    requires multiset(a) == multiset(b)
    requires Sorted(a, cmp) && Sorted(b, cmp)
    requires AntisymmetricOn(cmp, d) && StrictOn(cmp, d)
    requires forall i :: 0 <= i < |a| ==> a[i] in d
    ensures a == b
  {
    assert |a| == |multiset(a)| == |multiset(b)| == |b|;
    if |a| > 0 {
      HeadsEqual(a, b, cmp, d);
      TailsSameMultiset(a, b);
      SortedUniqueOn(a[1..], b[1..], cmp, d);
      assert a == [a[0]] + a[1..] && b == [b[0]] + b[1..];
    }
  }

  lemma SortedUnique<T(!new)>(a: seq<T>, b: seq<T>, cmp: (T, T) -> int)
    requires multiset(a) == multiset(b)
    requires Sorted(a, cmp) && Sorted(b, cmp)
    requires Antisymmetric(cmp) && Strict(cmp)
    ensures a == b
  {
    SortedUniqueOn(a, b, cmp, set i | 0 <= i < |a| :: a[i]);
  }

  /** Insertion sort only consults the comparator on the elements it sorts. */
  lemma {:induction false} InsertionSortAgrees<T>(s: seq<T>, c1: (T, T) -> int, c2: (T, T) -> int, d: set<T>)
    requires forall i :: 0 <= i < |s| ==> s[i] in d
    requires forall a, b :: a in d && b in d ==> c1(a, b) == c2(a, b)
    ensures InsertionSort(s, c1) == InsertionSort(s, c2)
  {
    if |s| > 0 {
      InsertionSortAgrees(s[..|s| - 1], c1, c2, d);
      var init := InsertionSort(s[..|s| - 1], c1);
      forall i | 0 <= i < |init| ensures init[i] in d {
        assert init[i] in multiset(s[..|s| - 1]);
      }
      InsertAgrees(s[|s| - 1], init, c1, c2, d);
    }
  }

  lemma {:induction false} InsertAgrees<T>(x: T, s: seq<T>, c1: (T, T) -> int, c2: (T, T) -> int, d: set<T>)
    requires x in d && forall i :: 0 <= i < |s| ==> s[i] in d
    requires forall a, b :: a in d && b in d ==> c1(a, b) == c2(a, b)
    ensures Insert(x, s, c1) == Insert(x, s, c2)
  {
    if |s| > 0 {
      InsertAgrees(x, s[..|s| - 1], c1, c2, d);
    }
  }

  function Reverse<T>(s: seq<T>): (r: seq<T>)
    ensures |r| == |s|
    ensures forall i :: 0 <= i < |s| ==> r[i] == s[|s| - 1 - i]
  {
    if |s| == 0 then [] else Reverse(s[1..]) + [s[0]]
  }

  lemma ReverseMultiset<T(!new)>(s: seq<T>)
    ensures multiset(Reverse(s)) == multiset(s)
  {
    if |s| > 0 {
      assert s == [s[0]] + s[1..];
    }
  }

  /**
   * Sorting under the negated comparator gives the reverse of sorting under
   * the comparator itself.
   */
  lemma NegatedSortReverses<T(!new)>(s: seq<T>, asc: (T, T) -> int, desc: (T, T) -> int)
    requires Consistent(asc) && Strict(asc)
    requires forall a, b :: desc(a, b) == -asc(a, b)
    ensures InsertionSort(s, desc) == Reverse(InsertionSort(s, asc))
  {
    var up := InsertionSort(s, asc);
    InsertionSortSorted(s, asc);
    assert Consistent(desc);
    InsertionSortSorted(s, desc);
    var down := InsertionSort(s, desc);
    var rev := Reverse(up);
    ReverseMultiset(up);
    forall i, j | 0 <= i < j < |rev| ensures desc(rev[i], rev[j]) <= 0 {
      assert asc(up[|up| - 1 - j], up[|up| - 1 - i]) <= 0;
    }
    SortedUnique(down, rev, desc);
  }
}
