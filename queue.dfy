/** The queue operations of queue.c over the list model of ListHead.

    Each list cursor (curr, safe, front, tail, slow, fast, dummy, iter) is
    modelled by the position of its node in the queue's current `elems`; the position
    |elems| stands for the head itself when a walk runs off the end, and -1 for the head
    when it is used as the node to link after. A NULL `struct list_head *` is a null
    `Queue?`, a NULL `char *` is `None`. */
module QueueOps {
  import opened Options
  import opened CStrings
  import opened ListHead
  import opened Sequences
  import opened Ordering
  import opened Merging
  import opened Filters
  import opened KWay

  /** q_new: an empty queue, or NULL when malloc fails (allocOk is false). */
  method New(allocOk: bool) returns (head: Queue?)
    ensures allocOk <==> head != null
    ensures head != null ==> fresh(head) && head.elems == []
  {
    if !allocOk {
      return null;
    }
    head := new Queue();
  }

  /** q_insert_head: fails on a NULL head, a NULL string, or when malloc or strdup fails
      (allocOk is false); otherwise links a fresh node holding a copy of s first. */
  method InsertHead(head: Queue?, s: Option<CString>, allocOk: bool) returns (ok: bool)
    modifies head
    ensures ok <==> head != null && s.Some? && allocOk
    ensures head != null && !ok ==> head.elems == old(head.elems)
    ensures ok ==> |head.elems| == |old(head.elems)| + 1 && head.elems[1..] == old(head.elems)
    ensures ok ==> fresh(head.elems[0]) && head.elems[0].value == s.value
  {
    if head == null || s.None? {
      return false;
    }
    if !allocOk {
      return false;
    }
    var entry := new Element(s.value);
    head.Add(entry);
    return true;
  }

  /** q_insert_tail: as q_insert_head, but the new node is linked last. */
  method InsertTail(head: Queue?, s: Option<CString>, allocOk: bool) returns (ok: bool)
    modifies head
    ensures ok <==> head != null && s.Some? && allocOk
    ensures head != null && !ok ==> head.elems == old(head.elems)
    ensures ok ==> |head.elems| == |old(head.elems)| + 1 && head.elems[..|old(head.elems)|] == old(head.elems)
    ensures ok ==> fresh(head.elems[|old(head.elems)|]) && head.elems[|old(head.elems)|].value == s.value
  {
    if head == null || s.None? {
      return false;
    }
    if !allocOk {
      return false;
    }
    var entry := new Element(s.value);
    head.AddTail(entry);
    return true;
  }

  /** The copy-out shared by q_remove_head and q_remove_tail: when sp is not NULL and bufsize
      is positive, strncpy of bufsize - 1 bytes followed by a NUL at sp[bufsize - 1]. */
  method CopyOut(e: Element, sp: array?<Byte>, bufsize: nat)
    requires sp != null && bufsize > 0 ==> bufsize <= sp.Length
    modifies sp
    ensures sp != null && bufsize > 0 ==>
      sp[..bufsize] == StrncpyBytes(e.value, bufsize - 1) + [0] &&
      StringIn(sp[..bufsize]) == e.value[..if |e.value| < bufsize then |e.value| else bufsize - 1] &&
      sp[bufsize..] == old(sp[bufsize..])
    ensures sp != null && bufsize == 0 ==> sp[..] == old(sp[..])
  {
    if sp != null && bufsize > 0 {
      Strncpy(sp, e.value, bufsize - 1);
      sp[bufsize - 1] := 0;
      assert sp[..bufsize] == sp[..bufsize - 1] + [sp[bufsize - 1]];
      BufferHoldsTruncatedValue(e.value, bufsize);
    }
  }

  /** q_remove_head: NULL for a NULL or empty queue, with nothing changed; otherwise unlinks
      and returns the first node, after copying its string out to sp. */
  method RemoveHead(head: Queue?, sp: array?<Byte>, bufsize: nat) returns (e: Element?)
    requires sp != null && bufsize > 0 ==> bufsize <= sp.Length
    modifies head, sp
    ensures e == null <==> head == null || old(head.elems) == []
    ensures head != null && e == null ==> head.elems == old(head.elems)
    ensures e != null ==> e == old(head.elems[0]) && head.elems == old(head.elems[1..])
    ensures sp != null && e != null && bufsize > 0 ==>
      sp[..bufsize] == StrncpyBytes(e.value, bufsize - 1) + [0] &&
      StringIn(sp[..bufsize]) == e.value[..if |e.value| < bufsize then |e.value| else bufsize - 1] &&
      sp[bufsize..] == old(sp[bufsize..])
    ensures sp != null && (e == null || bufsize == 0) ==> sp[..] == old(sp[..])
  {
    if head == null || head.IsEmpty() {
      return null;
    }
    e := head.elems[0];
    CopyOut(e, sp, bufsize);
    head.Del(0);
  }

  /** q_remove_tail: as q_remove_head, on the last node. */
  method RemoveTail(head: Queue?, sp: array?<Byte>, bufsize: nat) returns (e: Element?)
    requires sp != null && bufsize > 0 ==> bufsize <= sp.Length
    modifies head, sp
    ensures e == null <==> head == null || old(head.elems) == []
    ensures head != null && e == null ==> head.elems == old(head.elems)
    ensures e != null ==>
      e == old(head.elems[|head.elems| - 1]) && head.elems == old(head.elems[..|head.elems| - 1])
    ensures sp != null && e != null && bufsize > 0 ==>
      sp[..bufsize] == StrncpyBytes(e.value, bufsize - 1) + [0] &&
      StringIn(sp[..bufsize]) == e.value[..if |e.value| < bufsize then |e.value| else bufsize - 1] &&
      sp[bufsize..] == old(sp[bufsize..])
    ensures sp != null && (e == null || bufsize == 0) ==> sp[..] == old(sp[..])
  {
    if head == null || head.IsEmpty() {
      return null;
    }
    var last := |head.elems| - 1;
    e := head.elems[last];
    CopyOut(e, sp, bufsize);
    head.Del(last);
  }

  /** Inserting at the head and then removing at the head gives back the string's node and
      leaves the queue as it was. */
  method HeadRoundTrip(head: Queue, s: CString, sp: array?<Byte>, bufsize: nat)
      returns (e: Element?)
    requires sp != null && bufsize > 0 ==> bufsize <= sp.Length
    modifies head, sp
    ensures e != null && e.value == s && head.elems == old(head.elems)
  {
    var ok := InsertHead(head, Some(s), true);
    e := RemoveHead(head, sp, bufsize);
  }

  /** The same at the tail. */
  method TailRoundTrip(head: Queue, s: CString, sp: array?<Byte>, bufsize: nat)
      returns (e: Element?)
    requires sp != null && bufsize > 0 ==> bufsize <= sp.Length
    modifies head, sp
    ensures e != null && e.value == s && head.elems == old(head.elems)
  {
    var ok := InsertTail(head, Some(s), true);
    e := RemoveTail(head, sp, bufsize);
  }

  /** q_size: counts the nodes by walking the list; 0 for NULL. */
  method Size(head: Queue?) returns (n: int)
    ensures n == if head == null then 0 else |head.elems|
  {
    if head == null || head.IsEmpty() {
      return 0;
    }
    n := 0;
    var curr := 0;
    while curr != |head.elems|
      invariant 0 <= curr <= |head.elems| && n == curr
    {
      n := n + 1;
      curr := curr + 1;
    }
  }

  /** q_delete_mid: front and tail walk toward each other until they meet (odd length) or
      cross (even length); the node at tail, at position (n - 1) / 2, is deleted. That is the
      only middle of an odd queue and the first of the two middles of an even one. */
  method DeleteMid(head: Queue?) returns (ok: bool)
    modifies head
    ensures ok <==> head != null && old(head.elems) != []
    ensures head != null && !ok ==> head.elems == old(head.elems)
    ensures ok ==> var s, m := old(head.elems), (|old(head.elems)| - 1) / 2;
      head.elems == s[..m] + s[m + 1..] && |s[..m]| <= |s[m + 1..]| <= |s[..m]| + 1
  {
    if head == null || head.IsEmpty() {
      return false;
    }
    var n := |head.elems|;
    var front, tail := 0, n - 1;
    while front != tail && tail + 1 != front
      invariant 0 <= front <= tail + 1 && tail == n - 1 - front
      decreases tail - front
    {
      front, tail := front + 1, tail - 1;
    }
    head.Del(tail);
    return true;
  }

  /** q_delete_dup: one pass with entry and safe = entry->next. An entry equal to its
      successor is deleted and raises is_dup; an entry that is not, but follows a deleted
      equal one (is_dup), is deleted too and clears is_dup. The queue need not be sorted. */
  method DeleteDup(head: Queue?) returns (ok: bool)
    modifies head
    ensures ok <==> head != null && old(head.elems) != []
    ensures head != null ==> head.elems == if ok then Deduped(old(head.elems)) else old(head.elems)
  {
    if head == null || head.IsEmpty() {
      return false;
    }
    ghost var s := head.elems;
    ghost var i := 0;
    var entry := 0;
    var isDup := false;
    while entry != |head.elems|
      invariant 0 <= i <= |s| && 0 <= entry <= |head.elems|
      invariant head.elems[..entry] + DedupedFrom(s, i) == Deduped(s)
      invariant head.elems[entry..] == s[i..]
      invariant isDup == (0 < i < |s| && s[i - 1].value == s[i].value)
      decreases |head.elems| - entry
    {
      DedupStep(s, i, head.elems, entry, isDup);
      ghost var e := head.elems;
      if entry + 1 != |head.elems| && Cmp(head.elems[entry], head.elems[entry + 1]) == 0 {
        head.Del(entry);
        isDup := true;
        DedupDrops(s, i, e, head.elems, entry);
      } else if isDup {
        head.Del(entry);
        isDup := false;
        DedupDrops(s, i, e, head.elems, entry);
      } else {
        DedupKeeps(s, i, head.elems, entry);
        entry := entry + 1;
      }
      i := i + 1;
    }
    assert head.elems[..entry] == head.elems;
    return true;
  }

  /** What q_delete_dup sees at entry, the node at i of the original queue: entry is
      deleted exactly when its string has an equal neighbour, the next node (safe) or a
      deleted one before it (is_dup). */
  lemma DedupStep(s: seq<Element>, i: nat, e: seq<Element>, entry: nat, isDup: bool)
    requires i < |s| && entry <= |e| && e[entry..] == s[i..]
    requires isDup == (0 < i < |s| && s[i - 1].value == s[i].value)
    ensures entry < |e| && e[entry] == s[i]
    ensures entry + 1 != |e| <==> i + 1 < |s|
    ensures entry + 1 != |e| ==> e[entry + 1] == s[i + 1]
    ensures HasEqualNeighbour(s, i) <==>
      (entry + 1 != |e| && Cmp(e[entry], e[entry + 1]) == 0) || isDup
  {
    assert e[entry..][0] == s[i];
    if entry + 1 != |e| {
      assert e[entry..][1] == s[i + 1];
    }
  }

  /** entry is deleted: the survivors so far stay, and the node after it takes its place. */
  lemma DedupDrops(s: seq<Element>, i: nat, e: seq<Element>, e': seq<Element>, entry: nat)
    requires i < |s| && entry < |e| && e[entry..] == s[i..]
    requires e[..entry] + DedupedFrom(s, i) == Deduped(s)
    requires HasEqualNeighbour(s, i) && e' == e[..entry] + e[entry + 1..]
    ensures entry <= |e'|
    ensures e'[..entry] + DedupedFrom(s, i + 1) == Deduped(s)
    ensures e'[entry..] == s[i + 1..]
  {
    var rest := DedupedFrom(s, i + 1);
    assert DedupedFrom(s, i) == [] + rest == rest;
    assert e'[..entry] == e[..entry];
    assert e'[entry..] == e[entry + 1..];
    assert s[i..][1..] == s[i + 1..];
  }

  /** entry stays: it joins the survivors and the scan moves past it. */
  lemma DedupKeeps(s: seq<Element>, i: nat, e: seq<Element>, entry: nat)
    requires i < |s| && entry < |e| && e[entry..] == s[i..]
    requires e[..entry] + DedupedFrom(s, i) == Deduped(s)
    requires !HasEqualNeighbour(s, i)
    ensures entry + 1 <= |e|
    ensures e[..entry + 1] + DedupedFrom(s, i + 1) == Deduped(s)
    ensures e[entry + 1..] == s[i + 1..]
  {
    var rest := DedupedFrom(s, i + 1);
    assert e[entry] == e[entry..][0] == s[i];
    assert DedupedFrom(s, i) == [s[i]] + rest;
    assert e[..entry + 1] == e[..entry] + [s[i]];
    AppendAssociates(e[..entry], [s[i]], rest);
    assert s[i..][1..] == s[i + 1..];
  }

  /** q_reverse: every node in turn is moved to the front. */
  method Reverse(head: Queue?)
    modifies head
    ensures head != null ==> head.elems == Reversed(old(head.elems))
  {
    if head == null || head.IsEmpty() {
      return;
    }
    ghost var s := head.elems;
    var node := 0;
    while node != |head.elems|
      invariant |head.elems| == |s| && 0 <= node <= |s|
      invariant head.elems == Reversed(s[..node]) + s[node..]
    {
      ghost var e := head.elems;
      head.Move(node, -1);
      ReverseStep(e, head.elems, s, node);
      node := node + 1;
    }
    assert s[..node] == s;
  }

  /** One step of q_reverse: moving the node at position node to the front extends the
      reversed prefix by that node. */
  lemma ReverseStep(e: seq<Element>, e': seq<Element>, s: seq<Element>, node: nat)
    requires node < |s| && |e| == |s| && e == Reversed(s[..node]) + s[node..]
    requires e' == e[..0] + [e[node]] + e[0..node] + e[node + 1..]
    ensures |e'| == |s|
    ensures e' == Reversed(s[..node + 1]) + s[node + 1..]
  {
    ReversedLength(s[..node]);
    assert e[..0] == [];
    assert e[0..node] == Reversed(s[..node]);
    assert e[node] == s[node];
    assert e[node + 1..] == s[node + 1..];
    assert s[..node + 1] == s[..node] + [s[node]];
    ReversedSnoc(s[..node], s[node]);
  }

  /** C's int division, which truncates toward zero. */
  method TruncDiv(a: int, b: int) returns (q: int)
    requires b != 0
    ensures 0 <= a && 0 < b ==> q == Blocks(a, b)
    ensures 0 <= a && b < 0 ==> q <= 0
  {
    var na, nb := if a < 0 then -a else a, if b < 0 then -b else b;
    var m := na / nb;
    assert 0 <= m by {
      DivBounds(na, nb);
    }
    q := if (a < 0) == (b < 0) then m else -m;
    if 0 <= a && 0 < b {
      BlocksIsDiv(a, b);
    }
  }

  lemma DivBounds(n: nat, k: nat)
    requires k >= 1
    ensures 0 <= n / k <= n
  {
  }

  /** The number of whole blocks of k in m. */
  ghost function Blocks(m: int, k: int): nat
    requires k >= 1
    decreases m
  {
    if m < k then 0 else 1 + Blocks(m - k, k)
  }

  /** Blocks agrees with Euclidean division on non-negative numbers. */
  lemma {:induction false} BlocksIsDiv(n: nat, k: nat)
    requires k >= 1
    ensures Blocks(n, k) == n / k
    decreases n
  {
    if n >= k {
      DivSubtract(n, k);
      BlocksIsDiv(n - k, k);
    }
  }

  /** Taking one block of k off n takes one off n / k. */
  lemma DivSubtract(n: int, k: int)
    requires k >= 1 && n >= k
    ensures (n - k) / k == n / k - 1
  {
    var q, r := n / k, n % k;
    var q2, r2 := (n - k) / k, (n - k) % k;
    assert n == k * q + r && 0 <= r < k;
    assert n - k == k * q2 + r2 && 0 <= r2 < k;
    assert k * (q - 1 - q2) == r2 - r;
    MulBounds(q - 1 - q2, k);
  }

  lemma MulBounds(x: int, k: int)
    requires k >= 1
    ensures x >= 1 ==> k * x >= k
    ensures x <= -1 ==> k * x <= -k
  {
  }

  /** q_reverseK: groups_left = q_size(head) / k whole groups are reversed in place, one node
      at a time moved right after dummy, the node before the group; the nodes after the last
      whole group stay as they are. A NULL or empty queue and k == 1 return at once, before
      the division by k; a negative k gives no groups. */
  method ReverseK(head: Queue?, k: int)
    requires head != null && head.elems != [] ==> k != 0
    modifies head
    ensures head != null && k >= 1 ==> head.elems == GroupsReversed(old(head.elems), k)
    ensures head != null && k <= 0 ==> head.elems == old(head.elems)
  {
    if head == null || head.IsEmpty() || k == 1 {
      if head != null && k == 1 {
        GroupsOfOne(head.elems);
      }
      return;
    }
    ghost var s := head.elems;
    ghost var n := |s|;
    var size := Size(head);
    var groupsLeft := TruncDiv(size, k);
    var count := k;
    var curr := 0;
    var dummy := -1;
    // done: the finished groups, each reversed; the current group starts at |done|
    ghost var done: seq<Element> := [];
    while groupsLeft > 0
      invariant k >= 2 || (groupsLeft <= 0 && head.elems == s)
      invariant |done| <= n && head.elems == done + s[|done|..]
      invariant dummy == |done| - 1 && curr + count == |done| + k
      invariant count == k || (count == k - 1 && groupsLeft > 0)
      invariant k >= 2 ==> groupsLeft == Blocks(n - |done|, k) && GroupsDone(done, s, k)
    {
      curr, done := ReverseGroup(head, dummy, curr, count, done, s, k, groupsLeft);
      count := 0;
      groupsLeft := groupsLeft - 1;
      if groupsLeft == 0 {
        break;
      }
      count := k - 1;
      dummy := curr - 1;
      curr := curr + 1;
    }
    if k >= 2 {
      GroupsFinished(s, done, k, groupsLeft);
    }
  }

  /** One pass of q_reverseK's outer loop body up to the counter reset: the group after
      dummy is reversed and joins the finished ones, and one group fewer is left. */
  method ReverseGroup(head: Queue, dummy: int, curr: int, count: int, ghost done: seq<Element>,
                      ghost s: seq<Element>, ghost k: nat, ghost groupsLeft: int)
      returns (next: int, ghost done': seq<Element>)
    requires k >= 2 && |done| == dummy + 1 && curr + count == |done| + k
    requires count == k || count == k - 1
    requires |done| <= |s| && head.elems == done + s[|done|..]
    requires 0 < groupsLeft == Blocks(|s| - |done|, k) && GroupsDone(done, s, k)
    modifies head
    ensures next == |done'| == |done| + k
    ensures head.elems == done' + s[next..]
    ensures groupsLeft - 1 == Blocks(|s| - next, k) && GroupsDone(done', s, k)
  {
    GroupFits(|s| - |done|, k);
    next := MoveGroup(head, dummy, curr, count, done, s, k);
    GroupClosed(s, done, k, groupsLeft, next);
    done' := done + Reversed(s[|done|..next]);
  }

  /** The inner loop of q_reverseK on the group that starts right after dummy, when the
      finished groups done come first and the rest are still in their original order: the
      count nodes from curr on (the whole group, or all but its first node, which is
      already in place) are moved one at a time to right after dummy. Afterwards the group
      is reversed and joins the finished ones, next is the position after it, and one
      group fewer is left. */
  method MoveGroup(head: Queue, dummy: int, curr: int, count: int, ghost done: seq<Element>,
                   ghost s: seq<Element>, ghost k: nat)
      returns (next: int)
    requires k >= 2 && |done| == dummy + 1 && curr + count == |done| + k
    requires count == k || count == k - 1
    requires |done| + k <= |s| && head.elems == done + s[|done|..]
    modifies head
    ensures next == |done| + k
    ensures head.elems == done + Reversed(s[|done|..next]) + s[next..]
  {
    if curr == dummy + 2 {
      assert s[dummy + 1..curr] == [s[dummy + 1]];
    }
    assert s[dummy + 1..] == s[dummy + 1..curr] + s[curr..];
    next := curr;
    var left := count;
    while left > 0
      invariant 0 <= left <= count && next == curr + (count - left)
      invariant |head.elems| == |s|
      invariant head.elems == done + Reversed(s[dummy + 1..next]) + s[next..]
    {
      ghost var e := head.elems;
      head.Move(next, dummy);
      GroupStep(e, head.elems, done, s, dummy, next);
      next := next + 1;
      left := left - 1;
    }
  }

  /** done is what q_reverseK makes of the nodes before |done|: followed by the reversal
      of the groups from there on, it gives the reversal of every group. */
  ghost predicate GroupsDone(done: seq<Element>, s: seq<Element>, k: nat)
    requires k >= 1 && |done| <= |s|
  {
    done + GroupsReversed(s[|done|..], k) == GroupsReversed(s, k)
  }

  /** One step of q_reverseK's inner loop: moving the node at curr right after dummy, the
      node before the group, extends the reversed front of the group by that node. */
  lemma GroupStep(e: seq<Element>, e': seq<Element>, done: seq<Element>, s: seq<Element>,
                  dummy: int, curr: nat)
    requires |done| == dummy + 1 <= curr < |s| && |e| == |s|
    requires e == done + Reversed(s[dummy + 1..curr]) + s[curr..]
    requires e' == e[..dummy + 1] + [e[curr]] + e[dummy + 1..curr] + e[curr + 1..]
    ensures |e'| == |s|
    ensures e' == done + Reversed(s[dummy + 1..curr + 1]) + s[curr + 1..]
  {
    var base := dummy + 1;
    ReversedLength(s[base..curr]);
    assert e[..base] == done;
    assert e[base..curr] == Reversed(s[base..curr]);
    assert e[curr] == s[curr];
    assert e[curr + 1..] == s[curr + 1..];
    assert s[base..curr + 1] == s[base..curr] + [s[curr]];
    ReversedSnoc(s[base..curr], s[curr]);
  }

  /** A group is left exactly when k more nodes follow. */
  lemma GroupFits(m: int, k: nat)
    requires k >= 1
    ensures Blocks(m, k) > 0 <==> m >= k
  {
  }

  /** Closing a group: its k nodes, reversed, join the finished groups, and one group fewer
      is left. */
  lemma GroupClosed(s: seq<Element>, done: seq<Element>, k: nat, groupsLeft: int, next: nat)
    requires k >= 1 && next == |done| + k <= |s|
    requires groupsLeft == Blocks(|s| - |done|, k) && GroupsDone(done, s, k)
    ensures |done + Reversed(s[|done|..next])| == next
    ensures groupsLeft - 1 == Blocks(|s| - next, k)
    ensures GroupsDone(done + Reversed(s[|done|..next]), s, k)
  {
    var rest, block := s[|done|..], s[|done|..next];
    assert rest[..k] == block && rest[k..] == s[next..];
    assert GroupsReversed(rest, k) == Reversed(block) + GroupsReversed(s[next..], k);
    assert Blocks(|s| - |done|, k) == 1 + Blocks(|s| - next, k);
    AppendAssociates(done, Reversed(block), GroupsReversed(s[next..], k));
    ReversedLength(block);
  }

  /** When no whole group is left, the nodes after the finished ones stay as they are. */
  lemma GroupsFinished(s: seq<Element>, done: seq<Element>, k: nat, groupsLeft: int)
    requires k >= 1 && |done| <= |s| && GroupsDone(done, s, k)
    requires groupsLeft == Blocks(|s| - |done|, k) <= 0
    ensures done + s[|done|..] == GroupsReversed(s, k)
  {
    GroupFits(|s| - |done|, k);
  }

  /** q_swap: q_reverseK with k = 2, swapping the nodes of each adjacent pair. */
  method Swap(head: Queue?)
    modifies head
    ensures head != null ==> head.elems == GroupsReversed(old(head.elems), 2)
  {
    ReverseK(head, 2);
  }

  /** q_merge_two: repeatedly moves the smaller first node (h2's on equal strings) to the
      tail of a local result, then what remains of h1, then of h2; the result is spliced into
      h1 and h2 is left empty. */
  method MergeTwo(h1: Queue?, h2: Queue?)
    requires h1 != null && h2 != null ==> h1 != h2
    modifies h1, h2
    ensures h1 != null && h2 != null ==>
      h1.elems == Merged(old(h1.elems), old(h2.elems)) && h2.elems == []
    ensures h1 == null || h2 == null ==>
      (h1 != null ==> h1.elems == old(h1.elems)) && (h2 != null ==> h2.elems == old(h2.elems))
  {
    if h1 == null || h2 == null {
      return;
    }
    ghost var a0, b0 := h1.elems, h2.elems;
    var result := new Queue();
    while !h1.IsEmpty() && !h2.IsEmpty()
      invariant result.elems + Merged(h1.elems, h2.elems) == Merged(a0, b0)
      decreases |h1.elems| + |h2.elems|
    {
      ghost var r, a, b := result.elems, h1.elems, h2.elems;
      if Cmp(h1.elems[0], h2.elems[0]) < 0 {
        h1.MoveTail(0, result);
        TakeFromFirst(r, a, b, result.elems, h1.elems, Merged(a0, b0));
      } else {
        h2.MoveTail(0, result);
        TakeFromSecond(r, a, b, result.elems, h2.elems, Merged(a0, b0));
      }
    }
    while !h1.IsEmpty()
      invariant result.elems + Merged(h1.elems, h2.elems) == Merged(a0, b0)
      invariant h1.elems != [] ==> h2.elems == []
      decreases |h1.elems|
    {
      ghost var r, a, b := result.elems, h1.elems, h2.elems;
      h1.MoveTail(0, result);
      TakeFromFirst(r, a, b, result.elems, h1.elems, Merged(a0, b0));
    }
    while !h2.IsEmpty()
      invariant result.elems + h2.elems == Merged(a0, b0)
      invariant h1.elems == []
      decreases |h2.elems|
    {
      ghost var r, b := result.elems, h2.elems;
      h2.MoveTail(0, result);
      TakeRest(r, b, result.elems, h2.elems, Merged(a0, b0));
    }
    h1.Splice(result);
    h2.Init();
  }

  /** q_sort: a top-down merge sort. slow and fast find the last of the first ceil(n / 2)
      nodes, which are cut off into a local left list; both halves are sorted ascending and
      merged with the right half as h1 and left as h2; a descending sort then reverses. */
  method Sort(head: Queue?, descend: bool)
    modifies head
    ensures head != null && !descend ==> head.elems == MergeSorted(old(head.elems))
    ensures head != null && descend ==> head.elems == Reversed(MergeSorted(old(head.elems)))
    decreases if head == null then 0 else |head.elems|
  {
    if head == null || head.IsEmpty() || head.IsSingular() {
      if head != null && head.elems != [] {
        assert Reversed(head.elems) == Reversed(head.elems[1..]) + [head.elems[0]];
        assert head.elems == [head.elems[0]];
      }
      return;
    }
    ghost var s := head.elems;
    var n := |head.elems|;
    var slow, fast := 0, 1;
    while fast != n && fast + 1 != n
      invariant fast == 2 * slow + 1 && fast <= n
      decreases n - fast
    {
      slow, fast := slow + 1, fast + 2;
    }
    MergeSortedSplit(s, slow, fast);
    var left := new Queue();
    head.CutPosition(left, slow);
    Sort(left, false);
    Sort(head, false);
    MergeTwo(head, left);
    if descend {
      Reverse(head);
    }
  }

  /** When fast stops on the last or the next-to-last node, slow is the last node of the
      left part that MergeSorted splits off. */
  lemma MergeSortedSplit(s: seq<Element>, slow: nat, fast: nat)
    requires |s| > 1 && fast == 2 * slow + 1 && (fast == |s| || fast + 1 == |s|)
    ensures slow < |s| - 1
    ensures MergeSorted(s) == Merged(MergeSorted(s[slow + 1..]), MergeSorted(s[..slow + 1]))
  {
    MergeSortedHalves(s, slow + 1);
  }

  /** The scan shared by q_ascend (ascend) and q_descend (!ascend): each node curr in turn
      is deleted when a node after it beats it; curr then moves on to safe, the node that
      followed it. */
  method RemoveBeaten(head: Queue, ascend: bool)
    modifies head
    ensures head.elems == Kept(old(head.elems), ascend)
  {
    ghost var s := head.elems;
    ghost var i := 0;
    var curr := 0;
    while curr != |head.elems|
      invariant 0 <= i <= |s| && 0 <= curr <= |head.elems|
      invariant head.elems[..curr] + Kept(s[i..], ascend) == Kept(s, ascend)
      invariant head.elems[curr..] == s[i..]
      decreases |head.elems| - curr
    {
      ghost var before := head.elems;
      var deleted := DeleteIfBeaten(head, curr, ascend);
      // safe, the node after curr, is now at curr's position when curr was deleted
      if !deleted {
        ScanKeeps(s, i, head.elems, curr, ascend);
        curr := curr + 1;
      } else {
        ScanDrops(s, i, before, head.elems, curr, ascend);
      }
      i := i + 1;
    }
    assert head.elems[..curr] == head.elems;
  }

  /** The inner loop of q_ascend and q_descend: iter walks the nodes after curr, and curr is
      deleted at the first one that beats it (a strictly smaller string for q_ascend, a
      strictly greater one for q_descend). */
  method DeleteIfBeaten(head: Queue, curr: nat, ascend: bool) returns (deleted: bool)
    requires curr < |head.elems|
    modifies head
    ensures deleted == Doomed(old(head.elems), curr, ascend)
    ensures deleted ==> head.elems == old(head.elems[..curr] + head.elems[curr + 1..])
    ensures !deleted ==> head.elems == old(head.elems)
  {
    ghost var before := head.elems;
    deleted := false;
    var iter := curr + 1;
    while iter != |head.elems|
      invariant curr < iter <= |head.elems| && head.elems == before
      invariant forall p | curr < p < iter :: !Beats(before[p], before[curr], ascend)
      decreases |head.elems| - iter
    {
      var c := Cmp(head.elems[curr], head.elems[iter]);
      StrcmpSwap(head.elems[curr].value, head.elems[iter].value);
      if (if ascend then c > 0 else c < 0) {
        assert Beats(before[iter], before[curr], ascend);
        head.Del(curr);
        deleted := true;
        break;
      }
      iter := iter + 1;
    }
  }

  /** One step of the scan when no node after curr beats it: curr stays and the scan
      moves past it. */
  lemma ScanKeeps(s: seq<Element>, i: nat, e: seq<Element>, curr: nat, ascend: bool)
    requires i < |s| && curr <= |e| && e[curr..] == s[i..]
    requires e[..curr] + Kept(s[i..], ascend) == Kept(s, ascend)
    requires curr < |e| ==> !Doomed(e, curr, ascend)
    ensures curr + 1 <= |e|
    ensures e[..curr + 1] + Kept(s[i + 1..], ascend) == Kept(s, ascend)
    ensures e[curr + 1..] == s[i + 1..]
  {
    KeptStep(s, i, e, curr, ascend);
    assert Kept(s[i..], ascend) == [s[i]] + Kept(s[i + 1..], ascend);
    assert e[..curr + 1] == e[..curr] + [s[i]];
    AppendAssociates(e[..curr], [s[i]], Kept(s[i + 1..], ascend));
  }

  /** One step of the scan when a node after curr beats it: curr is unlinked and the node
      after it takes its position. */
  lemma ScanDrops(s: seq<Element>, i: nat, e: seq<Element>, e': seq<Element>, curr: nat,
                  ascend: bool)
    requires i < |s| && curr <= |e| && e[curr..] == s[i..]
    requires e[..curr] + Kept(s[i..], ascend) == Kept(s, ascend)
    requires curr < |e| && Doomed(e, curr, ascend) && e' == e[..curr] + e[curr + 1..]
    ensures curr <= |e'|
    ensures e'[..curr] + Kept(s[i + 1..], ascend) == Kept(s, ascend)
    ensures e'[curr..] == s[i + 1..]
  {
    KeptStep(s, i, e, curr, ascend);
    var rest := Kept(s[i + 1..], ascend);
    assert Kept(s[i..], ascend) == [] + rest == rest;
    assert e'[..curr] == e[..curr];
    assert e'[curr..] == e[curr + 1..];
  }

  /** The node at i survives exactly when it is not doomed, wherever the scan now finds
      it. */
  lemma KeptStep(s: seq<Element>, i: nat, e: seq<Element>, curr: nat, ascend: bool)
    requires i < |s| && curr <= |e| && e[curr..] == s[i..]
    ensures curr < |e| && e[curr] == s[i]
    ensures e[curr + 1..] == s[i + 1..]
    ensures Kept(s[i..], ascend) ==
      (if Doomed(e, curr, ascend) then [] else [s[i]]) + Kept(s[i + 1..], ascend)
  {
    assert e[curr..][0] == s[i];
    assert s[i..][1..] == s[i + 1..];
    assert forall j | 0 < j < |s[i..]| :: s[i..][j] == e[curr + j];
    if Doomed(e, curr, ascend) {
      var j :| curr < j < |e| && Beats(e[j], e[curr], ascend);
      assert s[i..][j - curr] == e[j];
    }
  }

  /** q_ascend: removes every node that has a strictly smaller string anywhere to its right
      and returns the number of nodes left; 0 for NULL. */
  method Ascend(head: Queue?) returns (n: int)
    modifies head
    ensures head == null ==> n == 0
    ensures head != null ==> head.elems == Kept(old(head.elems), true) && n == |head.elems|
  {
    if head == null || head.IsEmpty() {
      return 0;
    }
    RemoveBeaten(head, true);
    n := Size(head);
  }

  /** q_descend: removes every node that has a strictly greater string anywhere to its right
      and returns the number of nodes left; 0 for NULL. */
  method Descend(head: Queue?) returns (n: int)
    modifies head
    ensures head == null ==> n == 0
    ensures head != null ==> head.elems == Kept(old(head.elems), false) && n == |head.elems|
  {
    if head == null || head.IsEmpty() {
      return 0;
    }
    RemoveBeaten(head, false);
    n := Size(head);
  }

  /** The queues of a chain, in chain order. */
  ghost function Contents(qs: seq<Queue>): seq<seq<Element>>
    reads qs
  {
    seq(|qs|, i requires 0 <= i < |qs| reads qs => qs[i].elems)
  }

  /** The queues qs hold the contents cs, queue by queue. */
  ghost predicate Holds(qs: seq<Queue>, cs: seq<seq<Element>>)
    reads qs
  {
    |cs| == |qs| && forall t | 0 <= t < |qs| :: qs[t].elems == cs[t]
  }

  lemma ContentsHolds(qs: seq<Queue>, cs: seq<seq<Element>>)
    requires Holds(qs, cs)
    ensures Contents(qs) == cs
  {
  }

  /** q_merge: with listsize queues in the chain, rounds pair the queue at front with the one
      at tail, merging the tail queue into the front queue, until listsize is 1; tail is not
      reset between rounds. The first queue then holds every element, sorted if every input
      queue was, and its size is returned; descend is not used. A NULL chain gives 0. */
  method Merge(head: Chain?, descend: bool) returns (n: int)
    requires head != null ==> head.Valid()
    modifies if head == null then [] else head.queues
    ensures head == null ==> n == 0
    ensures head != null ==>
      Contents(head.queues) == Rounds(old(Contents(head.queues)), |head.queues|)
    ensures head != null ==>
      var before, after := old(Contents(head.queues)), Contents(head.queues);
      n == |after[0]| == |Total(before)| && multiset(after[0]) == Total(before) &&
      EmptyFrom(after, 1) && (AllSorted(before) ==> Sorted(after[0]))
  {
    if head == null {
      return 0;
    }
    var qs := head.queues;
    ghost var start := Contents(qs);
    // cur: what the queues hold now
    ghost var cur := start;
    var listsize := 0;
    var node := 0;
    while node != |qs|
      invariant 0 <= node <= |qs| && listsize == node
    {
      listsize := listsize + 1;
      node := node + 1;
    }
    var front := 0;
    var tail := |qs| - 1;
    while listsize > 1
      invariant 1 <= listsize <= |qs| && front == 0 && tail == listsize - 1
      invariant Holds(qs, cur) && Rounds(cur, listsize) == Rounds(start, |qs|)
      decreases listsize
    {
      front, tail, cur := MergeRound(qs, listsize, front, tail, cur);
      HalfUp(listsize);
      listsize := (listsize + 1) / 2;
      front := 0;
    }
    ContentsHolds(qs, cur);
    RoundsGatherAll(start);
    n := Size(qs[0]);
  }

  /** One round of q_merge, its inner loop: i and j (front and tail) walk toward each other
      from both ends of the first listsize queues, and each tail queue is merged into the
      front queue. tail ends at the last queue of the next round. */
  method MergeRound(qs: seq<Queue>, listsize: int, front0: int, tail0: int,
                    ghost cur: seq<seq<Element>>)
      returns (front: int, tail: int, ghost next: seq<seq<Element>>)
    requires 1 < listsize <= |qs| && front0 == 0 && tail0 == listsize - 1
    requires Distinct(qs) && Holds(qs, cur)
    modifies qs
    ensures tail == listsize - 1 - listsize / 2
    ensures Holds(qs, next) && next == Pass(cur, listsize, 0)
  {
    front, tail := front0, tail0;
    next := cur;
    var i := 0;
    var j := listsize - 1;
    while i < j
      invariant 0 <= i <= listsize / 2 && j == listsize - 1 - i
      invariant front == i && tail == j
      invariant Holds(qs, next) && Pass(next, listsize, i) == Pass(cur, listsize, 0)
      decreases j - i
    {
      PassStep(next, listsize, i, j);
      ghost var merged := next[i := Merged(next[i], next[j])][j := []];
      MergeTwo(qs[front], qs[tail]);
      forall t | 0 <= t < |qs|
        ensures qs[t].elems == merged[t]
      {
        if t != i && t != j {
          assert qs[t] != qs[i] && qs[t] != qs[j];
        }
      }
      next := merged;
      front := front + 1;
      i := i + 1;
      tail := tail - 1;
      j := j - 1;
    }
    PassEnd(next, listsize, i);
  }

  /** A round over L queues leaves L - L / 2 of them. */
  lemma HalfUp(L: int)
    ensures (L + 1) / 2 == L - L / 2
  {
  }

  /** q_merge_two takes the front of h1 (a) when its string is strictly smaller or h2 (b)
      is empty: the merged prefix r grows by that node and stays a prefix of the merge. */
  lemma TakeFromFirst(r: seq<Element>, a: seq<Element>, b: seq<Element>, r': seq<Element>,
                      a': seq<Element>, target: seq<Element>)
    requires r + Merged(a, b) == target
    requires a != [] && (b == [] || Cmp(a[0], b[0]) < 0)
    requires r' == r + [a[0]] && a' == a[..0] + a[1..]
    ensures r' + Merged(a', b) == target
  {
    assert a' == a[1..];
    var rest := Merged(a[1..], b);
    assert b != [] ==> Less(a[0].value, b[0].value);
    assert Merged(a, b) == [a[0]] + rest;
    AppendAssociates(r, [a[0]], rest);
  }

  /** Otherwise, on equal strings too, the front of h2 (b) is taken. */
  lemma TakeFromSecond(r: seq<Element>, a: seq<Element>, b: seq<Element>, r': seq<Element>,
                       b': seq<Element>, target: seq<Element>)
    requires r + Merged(a, b) == target
    requires a != [] && b != [] && !(Cmp(a[0], b[0]) < 0)
    requires r' == r + [b[0]] && b' == b[..0] + b[1..]
    ensures r' + Merged(a, b') == target
  {
    assert b' == b[1..];
    var rest := Merged(a, b[1..]);
    assert !Less(a[0].value, b[0].value);
    assert Merged(a, b) == [b[0]] + rest;
    AppendAssociates(r, [b[0]], rest);
  }

  /** Once h1 is empty the rest of h2 is moved over as it is. */
  lemma TakeRest(r: seq<Element>, b: seq<Element>, r': seq<Element>, b': seq<Element>,
                 target: seq<Element>)
    requires r + b == target && b != []
    requires r' == r + [b[0]] && b' == b[..0] + b[1..]
    ensures r' + b' == target
  {
    assert b' == b[1..];
    assert [b[0]] + b[1..] == b;
    AppendAssociates(r, [b[0]], b[1..]);
  }
}
