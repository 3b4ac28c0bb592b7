/** Which elements q_delete_dup, q_ascend and q_descend leave in the queue. */
module Filters {
  import opened CStrings
  import opened ListHead
  import opened Ordering

  // q_delete_dup

  /** The element at i has the same string as the element just before or just after it. */
  predicate HasEqualNeighbour(s: seq<Element>, i: int)
    requires 0 <= i < |s|
  {
    (i + 1 < |s| && s[i].value == s[i + 1].value) || (0 < i && s[i - 1].value == s[i].value)
  }

  /** The elements of s[i..] that q_delete_dup keeps, in order. */
  function DedupedFrom(s: seq<Element>, i: nat): seq<Element>
    requires i <= |s|
    decreases |s| - i
  {
    if i == |s| then []
    else (if HasEqualNeighbour(s, i) then [] else [s[i]]) + DedupedFrom(s, i + 1)
  }

  /** What q_delete_dup leaves: every element whose string equals a neighbour's is removed. */
  function Deduped(s: seq<Element>): seq<Element> {
    DedupedFrom(s, 0)
  }

  /** Some other element of s holds the same string as the one at i. */
  ghost predicate Repeated(s: seq<Element>, i: int)
    requires 0 <= i < |s|
  {
    exists j :: 0 <= j < |s| && j != i && s[j].value == s[i].value
  }

  /** On a sorted queue, having an equal neighbour is the same as having a duplicate
      anywhere: q_delete_dup removes exactly the strings that occur more than once. */
  lemma SortedNeighbourIffRepeated(s: seq<Element>, i: int)
    requires Sorted(s) && 0 <= i < |s|
    ensures HasEqualNeighbour(s, i) <==> Repeated(s, i)
  {
    if Repeated(s, i) {
      var j :| 0 <= j < |s| && j != i && s[j].value == s[i].value;
      if j > i {
        assert LessEq(s[i].value, s[i + 1].value) && LessEq(s[i + 1].value, s[j].value);
        LessEqTotalOrder(s[i].value, s[i + 1].value, s[j].value);
      } else {
        assert LessEq(s[j].value, s[i - 1].value) && LessEq(s[i - 1].value, s[i].value);
        LessEqTotalOrder(s[i - 1].value, s[i].value, s[j].value);
      }
    }
    if HasEqualNeighbour(s, i) {
      if i + 1 < |s| && s[i].value == s[i + 1].value {
        assert s[i + 1].value == s[i].value;
      } else {
        assert s[i - 1].value == s[i].value;
      }
    }
  }

  /** Every survivor comes from s[i..] and has no equal neighbour. */
  lemma {:induction false} DedupedFromOrigin(s: seq<Element>, i: nat)
    requires i <= |s|
    ensures forall e | e in DedupedFrom(s, i) ::
      exists j :: i <= j < |s| && s[j] == e && !HasEqualNeighbour(s, j)
    decreases |s| - i
  {
    if i < |s| {
      DedupedFromOrigin(s, i + 1);
      if !HasEqualNeighbour(s, i) {
        assert DedupedFrom(s, i) == [s[i]] + DedupedFrom(s, i + 1);
      }
    }
  }

  /** Every element of s[i..] without an equal neighbour survives. */
  lemma {:induction false} DedupedFromKeeps(s: seq<Element>, i: nat)
    requires i <= |s|
    ensures forall j | i <= j < |s| && !HasEqualNeighbour(s, j) :: s[j] in DedupedFrom(s, i)
    decreases |s| - i
  {
    if i < |s| {
      DedupedFromKeeps(s, i + 1);
      var h := if HasEqualNeighbour(s, i) then [] else [s[i]];
      assert DedupedFrom(s, i) == h + DedupedFrom(s, i + 1);
    }
  }

  /** q_delete_dup keeps exactly the elements whose string equals neither neighbour's. */
  lemma DedupedKeepsExactly(s: seq<Element>)
    ensures forall e :: e in Deduped(s) <==>
      exists j :: 0 <= j < |s| && s[j] == e && !HasEqualNeighbour(s, j)
  {
    DedupedFromOrigin(s, 0);
    DedupedFromKeeps(s, 0);
  }

  /** On a sorted queue the survivors are strictly increasing: no string is left twice. */
  lemma {:induction false} DedupedStrictlySorted(s: seq<Element>, i: nat)
    requires Sorted(s) && i <= |s|
    ensures StrictlySorted(DedupedFrom(s, i))
    decreases |s| - i
  {
    if i == |s| {
      assert DedupedFrom(s, i) == [];
    } else {
      DedupedStrictlySorted(s, i + 1);
      var rest := DedupedFrom(s, i + 1);
      if !HasEqualNeighbour(s, i) {
        DedupedFrontBelow(s, i);
        StrictlySortedCons(s[i], rest);
        assert DedupedFrom(s, i) == [s[i]] + rest;
      } else {
        assert DedupedFrom(s, i) == rest;
      }
    }
  }

  /** A survivor of a sorted queue is below every later survivor. */
  lemma DedupedFrontBelow(s: seq<Element>, i: nat)
    requires Sorted(s) && i < |s| && !HasEqualNeighbour(s, i)
    ensures forall e | e in DedupedFrom(s, i + 1) :: Less(s[i].value, e.value)
  {
    DedupedFromOrigin(s, i + 1);
    SortedNeighbourIffRepeated(s, i);
    forall e | e in DedupedFrom(s, i + 1)
      ensures Less(s[i].value, e.value)
    {
      var j :| i + 1 <= j < |s| && s[j] == e && !HasEqualNeighbour(s, j);
      LessEqTotalOrder(s[i].value, s[j].value, s[j].value);
    }
  }

  lemma StrictlySortedCons(x: Element, rest: seq<Element>)
    requires StrictlySorted(rest) && forall e | e in rest :: Less(x.value, e.value)
    ensures StrictlySorted([x] + rest)
  {
    var r := [x] + rest;
    forall a, b | 0 <= a < b < |r|
      ensures Less(r[a].value, r[b].value)
    {
      assert r[b] == rest[b - 1];
      if a > 0 {
        assert r[a] == rest[a - 1];
      }
    }
  }

  // q_ascend and q_descend

  /** y, standing to the right of x, makes the filter remove x: for q_ascend when y's string
      is strictly smaller, for q_descend when it is strictly greater. */
  predicate Beats(y: Element, x: Element, ascend: bool) {
    if ascend then Less(y.value, x.value) else Less(x.value, y.value)
  }

  /** Some element to the right of position i beats it. */
  predicate Doomed(s: seq<Element>, i: int, ascend: bool)
    requires 0 <= i < |s|
  {
    exists j :: i < j < |s| && Beats(s[j], s[i], ascend)
  }

  /** What q_ascend (ascend) or q_descend (!ascend) leaves: the elements that nothing to
      their right beats, in their original order. */
  function Kept(s: seq<Element>, ascend: bool): seq<Element> {
    if s == [] then []
    else (if Doomed(s, 0, ascend) then [] else [s[0]]) + Kept(s[1..], ascend)
  }

  /** No element of r beats one before it. */
  predicate Monotone(r: seq<Element>, ascend: bool) {
    forall a, b | 0 <= a < b < |r| :: !Beats(r[b], r[a], ascend)
  }

  /** Reference version in one right-to-left pass: keep the front when the running
      minimum (maximum) of what follows does not beat it. This is the monotonic-stack
      formulation of the same filter. */
  function RunningKept(s: seq<Element>, ascend: bool): seq<Element> {
    if s == [] then []
    else
      var r := RunningKept(s[1..], ascend);
      if r != [] && Beats(r[0], s[0], ascend) then r else [s[0]] + r
  }

  lemma BeatsFacts(x: Element, y: Element, z: Element, ascend: bool)
    ensures !Beats(x, x, ascend)
    ensures Beats(x, y, ascend) ==> !Beats(y, x, ascend)
    ensures !Beats(x, y, ascend) && !Beats(y, z, ascend) ==> !Beats(x, z, ascend)
    ensures Beats(y, x, ascend) && !Beats(y, z, ascend) ==> Beats(z, x, ascend)
  {
    LessEqTotalOrder(x.value, y.value, z.value);
    LessEqTotalOrder(y.value, x.value, z.value);
    LessEqTotalOrder(z.value, y.value, x.value);
    LessEqTotalOrder(x.value, z.value, y.value);
    LessEqTotalOrder(z.value, x.value, y.value);
    LessEqTotalOrder(y.value, z.value, x.value);
    if ascend {
      if Beats(y, x, ascend) && !Beats(y, z, ascend) {
        LessEqLessTransitive(z.value, y.value, x.value);
      }
    } else {
      if Beats(y, x, ascend) && !Beats(y, z, ascend) {
        LessEqLessTransitive(x.value, y.value, z.value);
      }
    }
  }

  /** The front of the running result is an element of s that nothing in s beats. */
  lemma {:induction false} RunningKeptFront(s: seq<Element>, ascend: bool)
    requires s != []
    ensures RunningKept(s, ascend) != []
    ensures RunningKept(s, ascend)[0] in s
    ensures forall j | 0 <= j < |s| :: !Beats(s[j], RunningKept(s, ascend)[0], ascend)
  {
    var r := RunningKept(s[1..], ascend);
    var m := RunningKept(s, ascend)[0];
    if s[1..] != [] {
      RunningKeptFront(s[1..], ascend);
      assert forall j | 1 <= j < |s| :: s[j] == s[1..][j - 1];
    }
    if r != [] && Beats(r[0], s[0], ascend) {
      BeatsFacts(r[0], s[0], s[0], ascend);
      assert m == r[0];
    } else {
      assert m == s[0];
      forall j | 0 <= j < |s|
        ensures !Beats(s[j], m, ascend)
      {
        BeatsFacts(s[j], s[j], s[j], ascend);
        if j > 0 {
          BeatsFacts(s[j], r[0], s[0], ascend);
        }
      }
    }
  }

  /** The filter and its one-pass reference agree on every input. */
  lemma {:induction false} KeptIsRunningKept(s: seq<Element>, ascend: bool)
    ensures Kept(s, ascend) == RunningKept(s, ascend)
  {
    if s != [] {
      KeptIsRunningKept(s[1..], ascend);
      var r := RunningKept(s[1..], ascend);
      if s[1..] == [] {
        assert !Doomed(s, 0, ascend);
      } else {
        RunningKeptFront(s[1..], ascend);
        if Doomed(s, 0, ascend) {
          var j :| 0 < j < |s| && Beats(s[j], s[0], ascend);
          assert s[j] == s[1..][j - 1];
          BeatsFacts(s[0], s[j], r[0], ascend);
        } else if Beats(r[0], s[0], ascend) {
          assert false;
        }
      }
    }
  }

  lemma {:induction false} KeptMembers(s: seq<Element>, ascend: bool)
    ensures forall e | e in Kept(s, ascend) :: e in s
    ensures |Kept(s, ascend)| <= |s|
  {
    if s != [] {
      KeptMembers(s[1..], ascend);
    }
  }

  /** The survivors are monotone: no survivor beats one before it. */
  lemma {:induction false} KeptMonotone(s: seq<Element>, ascend: bool)
    ensures Monotone(Kept(s, ascend), ascend)
  {
    if s != [] {
      KeptMonotone(s[1..], ascend);
      KeptMembers(s[1..], ascend);
      var rest := Kept(s[1..], ascend);
      var r := Kept(s, ascend);
      if !Doomed(s, 0, ascend) {
        forall a, b | 0 <= a < b < |r|
          ensures !Beats(r[b], r[a], ascend)
        {
          if a > 0 {
            assert r[a] == rest[a - 1] && r[b] == rest[b - 1];
          } else {
            assert r[b] in rest;
            var j :| 0 <= j < |s[1..]| && s[1..][j] == r[b];
            assert s[j + 1] == r[b];
          }
        }
      }
    }
  }

  /** q_ascend leaves a non-decreasing queue, q_descend a non-increasing one. */
  lemma KeptSorted(s: seq<Element>)
    ensures Sorted(Kept(s, true))
    ensures SortedDesc(Kept(s, false))
  {
    KeptMonotone(s, true);
    KeptMonotone(s, false);
    var up, down := Kept(s, true), Kept(s, false);
    forall a, b | 0 <= a < b < |up|
      ensures LessEq(up[a].value, up[b].value)
    {
      LessEqTotalOrder(up[a].value, up[b].value, up[b].value);
    }
    forall a, b | 0 <= a < b < |down|
      ensures LessEq(down[b].value, down[a].value)
    {
      LessEqTotalOrder(down[a].value, down[b].value, down[b].value);
    }
  }

  /** The last element is never removed. */
  lemma {:induction false} KeptKeepsLast(s: seq<Element>, ascend: bool)
    requires s != []
    ensures Kept(s, ascend) != []
    ensures Kept(s, ascend)[|Kept(s, ascend)| - 1] == s[|s| - 1]
  {
    if |s| == 1 {
      assert !Doomed(s, 0, ascend);
    } else {
      KeptKeepsLast(s[1..], ascend);
    }
  }
}
