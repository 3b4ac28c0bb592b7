/** Order on queue contents: sortedness by cmp and the per-value view that makes stability observable. */
module Ordering {
  import opened CStrings
  import opened ListHead
  import opened Sequences

  /** Non-decreasing by cmp. */
  predicate Sorted(s: seq<Element>) {
    forall i, j | 0 <= i < j < |s| :: LessEq(s[i].value, s[j].value)
  }

  /** Strictly increasing by cmp: no string occurs twice. */
  predicate StrictlySorted(s: seq<Element>) {
    forall i, j | 0 <= i < j < |s| :: Less(s[i].value, s[j].value)
  }

  /** Non-increasing by cmp. */
  predicate SortedDesc(s: seq<Element>) {
    forall i, j | 0 <= i < j < |s| :: LessEq(s[j].value, s[i].value)
  }

  /** The elements whose string is v, in their order in s. */
  function WithValue(s: seq<Element>, v: CString): seq<Element> {
    if s == [] then [] else (if s[0].value == v then [s[0]] else []) + WithValue(s[1..], v)
  }

  /** r keeps, for every string, the relative order of the elements holding it in s. */
  ghost predicate SameOrderPerValue(r: seq<Element>, s: seq<Element>) {
    forall v: CString :: WithValue(r, v) == WithValue(s, v)
  }

  lemma {:induction false} WithValueAppend(a: seq<Element>, b: seq<Element>, v: CString)
    ensures WithValue(a + b, v) == WithValue(a, v) + WithValue(b, v)
  {
    if a == [] {
      assert a + b == b;
    } else {
      assert a + b == [a[0]] + (a[1..] + b);
      assert a == [a[0]] + a[1..];
      WithValueCons(a[0], a[1..] + b, v);
      WithValueCons(a[0], a[1..], v);
      WithValueAppend(a[1..], b, v);
      AppendAssociates(if a[0].value == v then [a[0]] else [], WithValue(a[1..], v), WithValue(b, v));
    }
  }

  lemma WithValueCons(x: Element, r: seq<Element>, v: CString)
    ensures WithValue([x] + r, v) == (if x.value == v then [x] else []) + WithValue(r, v)
  {
    assert ([x] + r)[1..] == r;
  }

  /** An element not holding v contributes nothing to the view of v; WithValue holds only v. */
  lemma {:induction false} WithValueNone(s: seq<Element>, v: CString)
    requires forall i | 0 <= i < |s| :: s[i].value != v
    ensures WithValue(s, v) == []
  {
    if s != [] {
      WithValueNone(s[1..], v);
    }
  }

  lemma {:induction false} WithValueMembers(s: seq<Element>, v: CString)
    ensures forall e | e in WithValue(s, v) :: e in s && e.value == v
    ensures forall i | 0 <= i < |s| && s[i].value == v :: WithValue(s, v) != []
  {
    if s != [] {
      WithValueMembers(s[1..], v);
      forall i | 0 <= i < |s| && s[i].value == v
        ensures WithValue(s, v) != []
      {
        if i > 0 {
          assert s[1..][i - 1] == s[i];
        }
      }
    }
  }

  lemma SortedTail(s: seq<Element>)
    requires Sorted(s) && s != []
    ensures Sorted(s[1..])
    ensures forall e | e in s :: LessEq(s[0].value, e.value)
  {
    forall e | e in s
      ensures LessEq(s[0].value, e.value)
    {
      LessEqTotalOrder(s[0].value, e.value, e.value);
    }
  }

  /** Sorted sequences that agree on every per-value view are equal: sortedness and
      stability together determine the result. */
  lemma {:induction false} SortedUnique(x: seq<Element>, y: seq<Element>)
    requires Sorted(x) && Sorted(y) && SameOrderPerValue(x, y)
    ensures x == y
  {
    if x != [] && y == [] {
      WithValueMembers(x, x[0].value);
      assert false;
    } else if x == [] && y != [] {
      WithValueMembers(y, y[0].value);
      assert false;
    } else if x == [] {
    } else {
      var v, w := x[0].value, y[0].value;
      WithValueMembers(x, v);
      WithValueMembers(y, w);
      WithValueMembers(x, w);
      WithValueMembers(y, v);
      assert WithValue(y, v) != [] && WithValue(x, w) != [];
      var ey := WithValue(y, v)[0];
      var ex := WithValue(x, w)[0];
      SortedTail(x);
      SortedTail(y);
      LessEqTotalOrder(v, w, w);
      assert v == w;
      assert x[0] == WithValue(x, v)[0] == WithValue(y, v)[0] == y[0];
      forall u: CString
        ensures WithValue(x[1..], u) == WithValue(y[1..], u)
      {
        var h := if x[0].value == u then [x[0]] else [];
        assert WithValue(x, u) == h + WithValue(x[1..], u);
        assert WithValue(y, u) == h + WithValue(y[1..], u);
        assert WithValue(x, u) == WithValue(y, u);
        assert WithValue(x[1..], u) == WithValue(x, u)[|h|..];
      }
      SortedUnique(x[1..], y[1..]);
      assert x == [x[0]] + x[1..];
      assert y == [y[0]] + y[1..];
    }
  }

  /** Reading a sorted sequence back to front gives a non-increasing one. */
  lemma ReversedSortedIsDesc(s: seq<Element>)
    requires Sorted(s)
    ensures SortedDesc(Reversed(s))
  {
    ReversedLength(s);
    var r := Reversed(s);
    forall i, j | 0 <= i < j < |r|
      ensures LessEq(r[j].value, r[i].value)
    {
      ReversedAt(s, i);
      ReversedAt(s, j);
    }
  }
}
