/** Reordering of a sequence as q_reverse, q_reverseK and q_swap perform it. */
module Sequences {

  lemma AppendAssociates<T>(x: seq<T>, y: seq<T>, z: seq<T>)
    ensures (x + y) + z == x + (y + z)
  {
  }

  /** The sequence read back to front. */
  function Reversed<T>(s: seq<T>): seq<T> {
    if s == [] then [] else Reversed(s[1..]) + [s[0]]
  }

  /** Position k of the reversal holds position |s| - 1 - k of the original. */
  lemma {:induction false} ReversedAt<T>(s: seq<T>, k: nat)
    requires k < |s|
    ensures |Reversed(s)| == |s| && Reversed(s)[k] == s[|s| - 1 - k]
  {
    ReversedLength(s);
    if k < |s| - 1 {
      ReversedAt(s[1..], k);
    }
  }

  lemma {:induction false} ReversedLength<T>(s: seq<T>)
    ensures |Reversed(s)| == |s|
  {
    if s != [] {
      ReversedLength(s[1..]);
    }
  }

  /** Reversing twice gives back the original. */
  lemma ReversedTwice<T>(s: seq<T>)
    ensures Reversed(Reversed(s)) == s
  {
    ReversedLength(s);
    ReversedLength(Reversed(s));
    forall k | 0 <= k < |s|
      ensures Reversed(Reversed(s))[k] == s[k]
    {
      ReversedAt(Reversed(s), k);
      ReversedAt(s, |s| - 1 - k);
    }
  }

  /** Reversing a sequence extended at the back puts the new element in front. */
  lemma {:induction false} ReversedSnoc<T>(s: seq<T>, x: T)
    ensures Reversed(s + [x]) == [x] + Reversed(s)
  {
    if s != [] {
      assert (s + [x])[1..] == s[1..] + [x];
      ReversedSnoc(s[1..], x);
    } else {
      assert s + [x] == [x];
    }
  }

  lemma {:induction false} ReversedMultiset<T>(s: seq<T>)
    ensures multiset(Reversed(s)) == multiset(s)
  {
    if s != [] {
      ReversedMultiset(s[1..]);
      assert s == [s[0]] + s[1..];
    }
  }

  /** Every consecutive full block of k elements reversed in place; a trailing block of
      fewer than k elements left as it is. */
  function GroupsReversed<T>(s: seq<T>, k: nat): seq<T>
    requires k >= 1
  {
    if |s| < k then s else Reversed(s[..k]) + GroupsReversed(s[k..], k)
  }

  /** Blocks are independent: a prefix made of whole blocks is treated on its own. */
  lemma {:induction false} GroupsReversedAppend<T>(p: seq<T>, t: seq<T>, k: nat, g: nat)
    requires k >= 1 && |p| == g * k
    ensures GroupsReversed(p + t, k) == GroupsReversed(p, k) + GroupsReversed(t, k)
  {
    if g == 0 {
      assert p + t == t;
    } else {
      assert (p + t)[..k] == p[..k];
      assert (p + t)[k..] == p[k..] + t;
      GroupsReversedAppend(p[k..], t, k, g - 1);
    }
  }

  /** Inside the g-th full block, position t holds the block's position k - 1 - t. */
  lemma GroupsReversedInBlock<T>(s: seq<T>, k: nat, g: nat, t: nat)
    requires k >= 1 && t < k && (g + 1) * k <= |s|
    ensures |GroupsReversed(s, k)| == |s|
    ensures GroupsReversed(s, k)[g * k + t] == s[g * k + k - 1 - t]
  {
    var base := g * k;
    MulStep(g, k);
    GroupsReversedSplit(s, k, g, base);
    GroupsReversedFirstBlock(s[base..], k, t);
    GroupsReversedLength(s, k);
  }

  /** Cut at a block boundary, the two parts are treated on their own. */
  lemma GroupsReversedSplit<T>(s: seq<T>, k: nat, g: nat, base: nat)
    requires k >= 1 && base == g * k <= |s|
    ensures |GroupsReversed(s[..base], k)| == base
    ensures GroupsReversed(s, k) == GroupsReversed(s[..base], k) + GroupsReversed(s[base..], k)
  {
    assert s == s[..base] + s[base..];
    GroupsReversedAppend(s[..base], s[base..], k, g);
    GroupsReversedLength(s[..base], k);
  }

  /** Inside the first block, position t holds position k - 1 - t. */
  lemma GroupsReversedFirstBlock<T>(r: seq<T>, k: nat, t: nat)
    requires 1 <= k <= |r| && t < k
    ensures |GroupsReversed(r, k)| == |r|
    ensures GroupsReversed(r, k)[t] == r[k - 1 - t]
  {
    GroupsReversedLength(r, k);
    ReversedLength(r[..k]);
    ReversedAt(r[..k], t);
  }

  lemma MulStep(g: nat, k: nat)
    ensures (g + 1) * k == g * k + k
  {
  }

  /** Past the last full block every element stays where it is. */
  lemma {:induction false} GroupsReversedTail<T>(s: seq<T>, k: nat, g: nat, i: nat)
    requires k >= 1 && g * k <= i < |s| < (g + 1) * k
    ensures |GroupsReversed(s, k)| == |s|
    ensures GroupsReversed(s, k)[i] == s[i]
  {
    GroupsReversedLength(s, k);
    if g > 0 {
      MulStep(g - 1, k);
      GroupsReversedTail(s[k..], k, g - 1, i - k);
    }
  }

  lemma {:induction false} GroupsReversedLength<T>(s: seq<T>, k: nat)
    requires k >= 1
    ensures |GroupsReversed(s, k)| == |s|
  {
    if |s| >= k {
      ReversedLength(s[..k]);
      GroupsReversedLength(s[k..], k);
    }
  }

  /** Blocks of one element: nothing moves. */
  lemma {:induction false} GroupsOfOne<T>(s: seq<T>)
    ensures GroupsReversed(s, 1) == s
  {
    if s != [] {
      GroupsOfOne(s[1..]);
      assert Reversed(s[..1]) == [s[0]];
    }
  }

  /** Reversing the blocks twice gives back the original. */
  lemma {:induction false} GroupsReversedTwice<T>(s: seq<T>, k: nat)
    requires k >= 1
    ensures GroupsReversed(GroupsReversed(s, k), k) == s
  {
    if |s| >= k {
      var b := Reversed(s[..k]);
      ReversedLength(s[..k]);
      GroupsReversedAppend(b, GroupsReversed(s[k..], k), k, 1);
      assert GroupsReversed(b, k) == Reversed(b) by {
        assert b[..k] == b;
        assert b[k..] == [];
      }
      ReversedTwice(s[..k]);
      GroupsReversedTwice(s[k..], k);
    }
  }

  /** With fewer than k elements there is no full block and nothing moves. */
  lemma GroupsLongerThanInput<T>(s: seq<T>, k: nat)
    requires k > |s|
    ensures GroupsReversed(s, k) == s
  {
  }

  /** q_swap on five elements. */
  lemma SwapExample()
    ensures GroupsReversed([1, 2, 3, 4, 5], 2) == [2, 1, 4, 3, 5]
  {
    assert [1, 2, 3, 4, 5][..2] == [1, 2];
    assert [1, 2, 3, 4, 5][2..][..2] == [3, 4];
  }
}
