/** The two-way merge of q_merge_two and the merge sort of q_sort, as functions on sequences. */
module Merging {
  import opened CStrings
  import opened ListHead
  import opened Sequences
  import opened Ordering

  /** q_merge_two(h1, h2) with h1 = a and h2 = b: the front of a is taken only when its
      string is strictly smaller; on equal strings the front of b goes first. When one
      side runs out the other is appended as it is. */
  function Merged(a: seq<Element>, b: seq<Element>): seq<Element>
    decreases |a| + |b|
  {
    if a == [] then b
    else if b == [] then a
    else if Less(a[0].value, b[0].value) then [a[0]] + Merged(a[1..], b)
    else [b[0]] + Merged(a, b[1..])
  }

  /** r is obtained by shuffling a and b together, each keeping its own order. */
  ghost predicate Interleaving(r: seq<Element>, a: seq<Element>, b: seq<Element>)
    decreases |r|
  {
    if r == [] then a == [] && b == []
    else
      (a != [] && r[0] == a[0] && Interleaving(r[1..], a[1..], b)) ||
      (b != [] && r[0] == b[0] && Interleaving(r[1..], a, b[1..]))
  }

  lemma {:induction false} MergedInterleaves(a: seq<Element>, b: seq<Element>)
    ensures Interleaving(Merged(a, b), a, b)
    decreases |a| + |b|
  {
    if a == [] {
      InterleavingOneSide(b);
    } else if b == [] {
      InterleavingOtherSide(a);
    } else if Less(a[0].value, b[0].value) {
      MergedInterleaves(a[1..], b);
      assert Merged(a, b)[1..] == Merged(a[1..], b);
    } else {
      MergedInterleaves(a, b[1..]);
      assert Merged(a, b)[1..] == Merged(a, b[1..]);
    }
  }

  lemma {:induction false} InterleavingOneSide(b: seq<Element>)
    ensures Interleaving(b, [], b)
  {
    if b != [] {
      InterleavingOneSide(b[1..]);
    }
  }

  lemma {:induction false} InterleavingOtherSide(a: seq<Element>)
    ensures Interleaving(a, a, [])
  {
    if a != [] {
      InterleavingOtherSide(a[1..]);
    }
  }

  /** Nothing is lost or duplicated: the merge is a permutation of a ++ b. */
  lemma {:induction false} MergedPermutes(a: seq<Element>, b: seq<Element>)
    ensures multiset(Merged(a, b)) == multiset(a) + multiset(b)
    ensures |Merged(a, b)| == |a| + |b|
    decreases |a| + |b|
  {
    if a != [] && b != [] {
      if Less(a[0].value, b[0].value) {
        MergedPermutes(a[1..], b);
        assert Merged(a, b) == [a[0]] + Merged(a[1..], b);
        PermutesStep(a[0], Merged(a[1..], b), a[1..], b);
        assert a == [a[0]] + a[1..];
      } else {
        MergedPermutes(a, b[1..]);
        assert Merged(a, b) == [b[0]] + Merged(a, b[1..]);
        PermutesStep(b[0], Merged(a, b[1..]), b[1..], a);
        assert b == [b[0]] + b[1..];
      }
    }
  }

  /** Putting x in front of a permutation of p ++ q gives a permutation of ([x] + p) ++ q. */
  lemma PermutesStep(x: Element, r: seq<Element>, p: seq<Element>, q: seq<Element>)
    requires multiset(r) == multiset(p) + multiset(q) || multiset(r) == multiset(q) + multiset(p)
    requires |r| == |p| + |q|
    ensures multiset([x] + r) == multiset([x] + p) + multiset(q)
    ensures multiset([x] + r) == multiset(q) + multiset([x] + p)
    ensures |[x] + r| == |[x] + p| + |q|
  {
  }

  /** Merging two sorted sequences gives a sorted one. */
  lemma {:induction false} MergedSorted(a: seq<Element>, b: seq<Element>)
    requires Sorted(a) && Sorted(b)
    ensures Sorted(Merged(a, b))
    decreases |a| + |b|
  {
    if a != [] && b != [] {
      if Less(a[0].value, b[0].value) {
        var rest := Merged(a[1..], b);
        assert Merged(a, b) == [a[0]] + rest;
        MergedSorted(a[1..], b);
        MergedFront(a[1..], b);
        if a[1..] != [] {
          assert LessEq(a[0].value, a[1].value);
        }
        LessEqTotalOrder(b[0].value, a[0].value, a[0].value);
        SortedConsFront(a[0], rest);
      } else {
        var rest := Merged(a, b[1..]);
        assert Merged(a, b) == [b[0]] + rest;
        MergedSorted(a, b[1..]);
        MergedFront(a, b[1..]);
        if b[1..] != [] {
          assert LessEq(b[0].value, b[1].value);
        }
        LessEqTotalOrder(a[0].value, b[0].value, b[0].value);
        SortedConsFront(b[0], rest);
      }
    }
  }

  /** The merge starts with the front of one of its inputs. */
  lemma MergedFront(a: seq<Element>, b: seq<Element>)
    ensures Merged(a, b) == [] <==> a == [] && b == []
    ensures Merged(a, b) != [] ==>
      (a != [] && Merged(a, b)[0] == a[0]) || (b != [] && Merged(a, b)[0] == b[0])
  {
  }

  /** A sorted sequence stays sorted when an element no greater than its front is put first. */
  lemma SortedConsFront(x: Element, s: seq<Element>)
    requires Sorted(s) && (s == [] || LessEq(x.value, s[0].value))
    ensures Sorted([x] + s)
  {
    var r := [x] + s;
    forall i, j | 0 <= i < j < |r|
      ensures LessEq(r[i].value, r[j].value)
    {
      if i > 0 {
        assert r[i] == s[i - 1] && r[j] == s[j - 1];
      } else {
        assert r[j] == s[j - 1];
        LessEqTotalOrder(x.value, s[0].value, s[j - 1].value);
      }
    }
  }

  /** The tie-break: when b is sorted, the elements of each string come out with all of b's
      before all of a's, each side in its own order. */
  lemma {:induction false} MergedTiesFavourSecond(a: seq<Element>, b: seq<Element>, v: CString)
    requires Sorted(b)
    ensures WithValue(Merged(a, b), v) == WithValue(b, v) + WithValue(a, v)
    decreases |a| + |b|
  {
    if a == [] {
      assert WithValue(b, v) + [] == WithValue(b, v);
    } else if b == [] {
    } else if Less(a[0].value, b[0].value) {
      MergedTiesFavourSecond(a[1..], b, v);
      if a[0].value == v {
        WithValueAboveNone(a[0], b, v);
      }
      TiesTakeFirst(a, b, v);
    } else {
      SortedTail(b);
      MergedTiesFavourSecond(a, b[1..], v);
      TiesTakeSecond(a, b, v);
    }
  }

  /** One step of MergedTiesFavourSecond where the front of a goes first. */
  lemma TiesTakeFirst(a: seq<Element>, b: seq<Element>, v: CString)
    requires a != [] && Merged(a, b) == [a[0]] + Merged(a[1..], b)
    requires a[0].value == v ==> WithValue(b, v) == []
    requires WithValue(Merged(a[1..], b), v) == WithValue(b, v) + WithValue(a[1..], v)
    ensures WithValue(Merged(a, b), v) == WithValue(b, v) + WithValue(a, v)
  {
    var rest := Merged(a[1..], b);
    var h := if a[0].value == v then [a[0]] else [];
    WithValueCons(a[0], rest, v);
    assert WithValue(a, v) == h + WithValue(a[1..], v) by {
      assert a == [a[0]] + a[1..];
      WithValueCons(a[0], a[1..], v);
    }
    if a[0].value == v {
      assert WithValue(b, v) + WithValue(a[1..], v) == WithValue(a[1..], v);
    } else {
      assert h + WithValue(rest, v) == WithValue(rest, v);
    }
  }

  /** One step of MergedTiesFavourSecond where the front of b goes first. */
  lemma TiesTakeSecond(a: seq<Element>, b: seq<Element>, v: CString)
    requires b != [] && Merged(a, b) == [b[0]] + Merged(a, b[1..])
    requires WithValue(Merged(a, b[1..]), v) == WithValue(b[1..], v) + WithValue(a, v)
    ensures WithValue(Merged(a, b), v) == WithValue(b, v) + WithValue(a, v)
  {
    var rest := Merged(a, b[1..]);
    var h := if b[0].value == v then [b[0]] else [];
    WithValueCons(b[0], rest, v);
    assert WithValue(b, v) == h + WithValue(b[1..], v) by {
      assert b == [b[0]] + b[1..];
      WithValueCons(b[0], b[1..], v);
    }
    AppendAssociates(h, WithValue(b[1..], v), WithValue(a, v));
  }

  /** Nothing in a sorted b holds v when v is strictly below b's front. */
  lemma WithValueAboveNone(x: Element, b: seq<Element>, v: CString)
    requires Sorted(b) && b != [] && Less(x.value, b[0].value) && x.value == v
    ensures WithValue(b, v) == []
  {
    forall i | 0 <= i < |b|
      ensures b[i].value != v
    {
      LessEqTotalOrder(b[0].value, b[i].value, b[i].value);
      LessEqLessTransitive(x.value, b[0].value, b[i].value);
    }
    WithValueNone(b, v);
  }

  /** q_sort's merge sort: the first ceil(n/2) elements form the left part, which is passed
      to the merge as its second argument. */
  function MergeSorted(s: seq<Element>): seq<Element>
    decreases |s|
  {
    if |s| <= 1 then s
    else
      var h := (|s| + 1) / 2;
      Merged(MergeSorted(s[h..]), MergeSorted(s[..h]))
  }

  /** The sort yields a sorted permutation of its input. */
  lemma MergeSortedSortsAndPermutes(s: seq<Element>)
    ensures Sorted(MergeSorted(s))
    ensures multiset(MergeSorted(s)) == multiset(s)
    ensures |MergeSorted(s)| == |s|
  {
    MergeSortedSorts(s);
    MergeSortedPermutes(s);
  }

  lemma {:induction false} MergeSortedSorts(s: seq<Element>)
    ensures Sorted(MergeSorted(s))
    decreases |s|
  {
    if |s| > 1 {
      var h := (|s| + 1) / 2;
      MergeSortedHalves(s, h);
      MergeSortedSorts(s[h..]);
      MergeSortedSorts(s[..h]);
      MergedSorted(MergeSorted(s[h..]), MergeSorted(s[..h]));
    }
  }

  lemma {:induction false} MergeSortedPermutes(s: seq<Element>)
    ensures multiset(MergeSorted(s)) == multiset(s)
    ensures |MergeSorted(s)| == |s|
    decreases |s|
  {
    if |s| > 1 {
      var h := (|s| + 1) / 2;
      var left, right := MergeSorted(s[..h]), MergeSorted(s[h..]);
      MergeSortedHalves(s, h);
      assert multiset(s) == multiset(s[..h]) + multiset(s[h..]) by {
        assert s == s[..h] + s[h..];
      }
      MergeSortedPermutes(s[h..]);
      MergeSortedPermutes(s[..h]);
      MergedPermutes(right, left);
    }
  }

  /** The sort is stable: elements with equal strings keep their input order. */
  lemma {:induction false} MergeSortedStable(s: seq<Element>, v: CString)
    ensures WithValue(MergeSorted(s), v) == WithValue(s, v)
    decreases |s|
  {
    if |s| > 1 {
      var h := (|s| + 1) / 2;
      var left, right := MergeSorted(s[..h]), MergeSorted(s[h..]);
      MergeSortedStable(s[h..], v);
      MergeSortedStable(s[..h], v);
      MergeSortedSorts(s[..h]);
      MergedStable(left, right, s[..h], s[h..], v);
      MergeSortedHalves(s, h);
    }
  }

  /** MergeSorted(s) is the merge of the sorted halves, and the halves make up s. */
  lemma MergeSortedHalves(s: seq<Element>, h: nat)
    requires |s| > 1 && h == (|s| + 1) / 2
    ensures MergeSorted(s) == Merged(MergeSorted(s[h..]), MergeSorted(s[..h]))
    ensures s[..h] + s[h..] == s
  {
    assert s[..h] + s[h..] == s;
    var left, right := s[..h], s[h..];
    assert MergeSorted(s) == Merged(MergeSorted(right), MergeSorted(left));
  }

  /** Merging the sorted halves, the left one second, keeps the per-value order of the
      left half followed by the right half. */
  lemma MergedStable(left: seq<Element>, right: seq<Element>, a: seq<Element>, b: seq<Element>,
                     v: CString)
    requires Sorted(left) && WithValue(left, v) == WithValue(a, v)
    requires WithValue(right, v) == WithValue(b, v)
    ensures WithValue(Merged(right, left), v) == WithValue(a + b, v)
  {
    MergedTiesFavourSecond(right, left, v);
    WithValueAppend(a, b, v);
  }

  /** A sorted input is left exactly as it is, so sorting twice equals sorting once. */
  lemma MergeSortedFixesSorted(s: seq<Element>)
    requires Sorted(s)
    ensures MergeSorted(s) == s
    ensures MergeSorted(MergeSorted(s)) == MergeSorted(s)
  {
    MergeSortedSortsAndPermutes(s);
    forall v: CString
      ensures WithValue(MergeSorted(s), v) == WithValue(s, v)
    {
      MergeSortedStable(s, v);
    }
    SortedUnique(MergeSorted(s), s);
  }

  /** The descending sort (the ascending result reversed) is non-increasing. */
  lemma DescendingSortIsDesc(s: seq<Element>)
    ensures SortedDesc(Reversed(MergeSorted(s)))
    ensures multiset(Reversed(MergeSorted(s))) == multiset(s)
  {
    MergeSortedSortsAndPermutes(s);
    ReversedSortedIsDesc(MergeSorted(s));
    ReversedMultiset(MergeSorted(s));
  }
}
