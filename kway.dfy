/** The tournament schedule of q_merge over the contents of the chained queues. */
module KWay {
  import opened ListHead
  import opened Ordering
  import opened Merging

  /** Every element of every queue, counted with multiplicity. */
  function Total(ss: seq<seq<Element>>): multiset<Element> {
    if ss == [] then multiset{} else multiset(ss[0]) + Total(ss[1..])
  }

  /** The queues at position L and beyond are empty. */
  predicate EmptyFrom(ss: seq<seq<Element>>, L: nat) {
    forall i | L <= i < |ss| :: ss[i] == []
  }

  predicate AllSorted(ss: seq<seq<Element>>) {
    forall i | 0 <= i < |ss| :: Sorted(ss[i])
  }

  /** One round over the first L queues, from pair i on: queue i absorbs queue L - 1 - i
      (q_merge_two(front, tail)) while i < L - 1 - i, that is for i < L / 2. */
  function Pass(ss: seq<seq<Element>>, L: nat, i: nat): (r: seq<seq<Element>>)
    requires L <= |ss| && i <= L / 2
    ensures |r| == |ss|
    decreases L / 2 - i
  {
    if i == L / 2 then ss
    else Pass(ss[i := Merged(ss[i], ss[L - 1 - i])][L - 1 - i := []], L, i + 1)
  }

  /** Rounds until one queue is left, the count going from L to ceil(L / 2) each round. */
  function Rounds(ss: seq<seq<Element>>, L: nat): seq<seq<Element>>
    requires 1 <= L <= |ss|
    decreases L
  {
    if L == 1 then ss else Rounds(Pass(ss, L, 0), (L + 1) / 2)
  }

  /** While i < j = L - 1 - i one more pair is merged. */
  lemma PassStep(ss: seq<seq<Element>>, L: nat, i: nat, j: nat)
    requires L <= |ss| && j == L - 1 - i && i < j
    ensures i + 1 <= L / 2
    ensures Pass(ss, L, i) == Pass(ss[i := Merged(ss[i], ss[j])][j := []], L, i + 1)
  {
  }

  /** Once i reaches L - 1 - i the round is over. */
  lemma PassEnd(ss: seq<seq<Element>>, L: nat, i: nat)
    requires L <= |ss| && i <= L / 2 && L - 1 - i <= i
    ensures i == L / 2 && Pass(ss, L, i) == ss
  {
  }

  lemma {:induction false} TotalUpdate(ss: seq<seq<Element>>, i: nat, x: seq<Element>)
    requires i < |ss|
    ensures Total(ss[i := x]) + multiset(ss[i]) == Total(ss) + multiset(x)
  {
    var y := ss[i := x];
    if i > 0 {
      var tail := ss[1..];
      TotalUpdate(tail, i - 1, x);
      assert y[0] == ss[0] && y[1..] == tail[i - 1 := x] && tail[i - 1] == ss[i];
      assert Total(y) == multiset(ss[0]) + Total(tail[i - 1 := x]);
      assert Total(ss) == multiset(ss[0]) + Total(tail);
      calc {
        Total(y) + multiset(ss[i]);
        (multiset(ss[0]) + Total(tail[i - 1 := x])) + multiset(tail[i - 1]);
        multiset(ss[0]) + (Total(tail[i - 1 := x]) + multiset(tail[i - 1]));
        multiset(ss[0]) + (Total(tail) + multiset(x));
        (multiset(ss[0]) + Total(tail)) + multiset(x);
        Total(ss) + multiset(x);
      }
    } else {
      assert y[1..] == ss[1..];
    }
  }

  /** A round neither loses nor duplicates an element. */
  lemma {:induction false} PassTotal(ss: seq<seq<Element>>, L: nat, i: nat)
    requires L <= |ss| && i <= L / 2
    ensures Total(Pass(ss, L, i)) == Total(ss)
    decreases L / 2 - i
  {
    if i < L / 2 {
      var j := L - 1 - i;
      var m := Merged(ss[i], ss[j]);
      var t := ss[i := m];
      var u := t[j := []];
      PassStep(ss, L, i, j);
      PassTotal(u, L, i + 1);
      TotalUpdate(ss, i, m);
      TotalUpdate(t, j, []);
      MergedPermutes(ss[i], ss[j]);
      assert t[j] == ss[j];
      var a, b := multiset(ss[i]), multiset(ss[j]);
      assert Total(t) + a == (Total(ss) + b) + a;
      MultisetCancel(Total(t), Total(ss) + b, a);
      assert Total(u) + b == Total(ss) + b;
      MultisetCancel(Total(u), Total(ss), b);
    }
  }

  lemma MultisetCancel(a: multiset<Element>, c: multiset<Element>, b: multiset<Element>)
    requires a + b == c + b
    ensures a == c
  {
    assert a == (a + b) - b;
    assert c == (c + b) - b;
  }

  /** After a round over L queues, those from ceil(L / 2) on are empty. */
  lemma {:induction false} PassEmpties(ss: seq<seq<Element>>, L: nat, i: nat)
    requires L <= |ss| && i <= L / 2 && EmptyFrom(ss, L - i)
    ensures EmptyFrom(Pass(ss, L, i), (L + 1) / 2)
    decreases L / 2 - i
  {
    if i < L / 2 {
      var j := L - 1 - i;
      PassEmpties(ss[i := Merged(ss[i], ss[j])][j := []], L, i + 1);
    }
  }

  /** A round keeps every queue sorted. */
  lemma {:induction false} PassSorted(ss: seq<seq<Element>>, L: nat, i: nat)
    requires L <= |ss| && i <= L / 2 && AllSorted(ss)
    ensures AllSorted(Pass(ss, L, i))
    decreases L / 2 - i
  {
    if i < L / 2 {
      var j := L - 1 - i;
      MergedSorted(ss[i], ss[j]);
      PassSorted(ss[i := Merged(ss[i], ss[j])][j := []], L, i + 1);
    }
  }

  lemma {:induction false} RoundsGather(ss: seq<seq<Element>>, L: nat)
    requires 1 <= L <= |ss| && EmptyFrom(ss, L)
    ensures EmptyFrom(Rounds(ss, L), 1)
    ensures Total(Rounds(ss, L)) == Total(ss)
    ensures AllSorted(ss) ==> AllSorted(Rounds(ss, L))
    decreases L
  {
    if L > 1 {
      PassEmpties(ss, L, 0);
      PassTotal(ss, L, 0);
      if AllSorted(ss) {
        PassSorted(ss, L, 0);
      }
      RoundsGather(Pass(ss, L, 0), (L + 1) / 2);
    }
  }

  lemma {:induction false} TotalOfFirst(ss: seq<seq<Element>>)
    requires |ss| >= 1 && EmptyFrom(ss, 1)
    ensures Total(ss) == multiset(ss[0])
  {
    if |ss| > 1 {
      TotalOfFirst(ss[1..]);
      assert Total(ss[1..]) == multiset(ss[1]) + Total(ss[2..]);
    } else {
      assert ss[1..] == [];
    }
  }

  /** q_merge's schedule on K >= 1 queues ends with the first queue holding every element,
      sorted when every input was, and every other queue empty. */
  lemma RoundsGatherAll(ss: seq<seq<Element>>)
    requires |ss| >= 1
    ensures var r := Rounds(ss, |ss|);
      |r| == |ss| &&
      multiset(r[0]) == Total(ss) &&
      |r[0]| == |Total(ss)| &&
      EmptyFrom(r, 1) &&
      (AllSorted(ss) ==> Sorted(r[0]))
  {
    RoundsLength(ss, |ss|);
    RoundsGather(ss, |ss|);
    TotalOfFirst(Rounds(ss, |ss|));
  }

  lemma {:induction false} RoundsLength(ss: seq<seq<Element>>, L: nat)
    requires 1 <= L <= |ss|
    ensures |Rounds(ss, L)| == |ss|
    decreases L
  {
    if L > 1 {
      RoundsLength(Pass(ss, L, 0), (L + 1) / 2);
    }
  }
}
