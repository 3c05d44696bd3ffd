/** Slow and fast pointers over a linked list (Algorithm/LinkedList.cpp:115-153).

    The null that ends a list is treated as a node that leads to itself, so that every list, with a cycle or
    without, is a walk that repeats; `Cyclic` says that it repeats on a real node.
*/
module Floyd {

  class ListNode {
    var val: int
    var next: ListNode?

    constructor (val: int, next: ListNode?)
      ensures this.val == val && this.next == next
    {
      this.val, this.next := val, next;
    }
  }

  /** `nodes` holds the list, and everything its links lead to. */
  ghost predicate Closed(head: ListNode?, nodes: set<ListNode>)
    reads nodes
  {
    && (head != null ==> head in nodes)
    && forall n :: n in nodes && n.next != null ==> n.next in nodes
  }

  /** The node after `k` links, or null once the list has ended. */
  ghost function Nth(head: ListNode?, nodes: set<ListNode>, k: nat): (n: ListNode?)
    requires Closed(head, nodes)
    reads nodes
    ensures n != null ==> n in nodes
  {
    if k == 0 then head
    else
      var p := Nth(head, nodes, k - 1);
      if p == null then null else p.next
  }

  /** The walk comes back to the node it is on after `k` links. */
  ghost predicate OnCycle(head: ListNode?, nodes: set<ListNode>, k: nat)
    requires Closed(head, nodes)
    reads nodes
  {
    Nth(head, nodes, k) != null && exists j :: j > k && Nth(head, nodes, j) == Nth(head, nodes, k)
  }

  ghost predicate Cyclic(head: ListNode?, nodes: set<ListNode>)
    requires Closed(head, nodes)
    reads nodes
  {
    exists k: nat :: OnCycle(head, nodes, k)
  }

  /** The first node of the walk that lies on its cycle. */
  ghost predicate IsEntry(head: ListNode?, nodes: set<ListNode>, n: ListNode?)
    requires Closed(head, nodes)
    reads nodes
  {
    exists k: nat :: Nth(head, nodes, k) == n && OnCycle(head, nodes, k) &&
      forall i: nat :: i < k ==> !OnCycle(head, nodes, i)
  }

  // ---------------------------------------------------------------- walks that repeat

  /** From link `i` on, the walk repeats every `p` links. */
  ghost predicate Period(head: ListNode?, nodes: set<ListNode>, i: nat, p: nat)
    requires Closed(head, nodes)
    reads nodes
  {
    forall k: nat :: k >= i ==> Nth(head, nodes, k) == Nth(head, nodes, k + p)
  }

  lemma {:induction false} Parallel(head: ListNode?, nodes: set<ListNode>, i: nat, j: nat, d: nat)
    requires Closed(head, nodes) && Nth(head, nodes, i) == Nth(head, nodes, j)
    ensures Nth(head, nodes, i + d) == Nth(head, nodes, j + d)
  {
    if d > 0 {
      Parallel(head, nodes, i, j, d - 1);
    }
  }

  lemma RepeatIsPeriod(head: ListNode?, nodes: set<ListNode>, i: nat, j: nat)
    requires Closed(head, nodes) && i < j && Nth(head, nodes, i) == Nth(head, nodes, j)
    ensures Period(head, nodes, i, j - i)
  {
    forall k: nat | k >= i
      ensures Nth(head, nodes, k) == Nth(head, nodes, k + (j - i))
    {
      Parallel(head, nodes, i, j, k - i);
    }
  }

  lemma PeriodsAdd(head: ListNode?, nodes: set<ListNode>, i: nat, p: nat, q: nat)
    requires Closed(head, nodes) && Period(head, nodes, i, p) && Period(head, nodes, i, q)
    ensures Period(head, nodes, i, p + q)
  {
    forall k: nat | k >= i
      ensures Nth(head, nodes, k) == Nth(head, nodes, k + (p + q))
    {
      assert Nth(head, nodes, k) == Nth(head, nodes, k + p);
      assert Nth(head, nodes, k + p) == Nth(head, nodes, k + p + q);
    }
  }

  /** Periods reach as far as one likes, in steps of the first. */
  lemma {:induction false} LongPeriod(head: ListNode?, nodes: set<ListNode>, i: nat, p: nat, bound: nat)
    returns (q: nat)
    requires Closed(head, nodes) && p >= 1 && Period(head, nodes, i, p)
    ensures q >= bound && q >= p && Period(head, nodes, i, q) && (q < bound + p || q == p)
    decreases bound
  {
    if bound <= p {
      q := p;
    } else {
      var r := LongPeriod(head, nodes, i, p, bound - p);
      PeriodsAdd(head, nodes, i, r, p);
      q := r + p;
    }
  }

  lemma {:induction false} NullStays(head: ListNode?, nodes: set<ListNode>, i: nat, k: nat)
    requires Closed(head, nodes) && Nth(head, nodes, i) == null && k >= i
    ensures Nth(head, nodes, k) == null
  {
    if k > i {
      NullStays(head, nodes, i, k - 1);
    }
  }

  /** A walk with a cycle never ends. */
  lemma CycleNeverEnds(head: ListNode?, nodes: set<ListNode>, i: nat, k: nat)
    requires Closed(head, nodes) && OnCycle(head, nodes, i)
    ensures Nth(head, nodes, k) != null
  {
    var j :| j > i && Nth(head, nodes, j) == Nth(head, nodes, i);
    RepeatIsPeriod(head, nodes, i, j);
    var q := LongPeriod(head, nodes, i, j - i, k);
    assert Nth(head, nodes, i) == Nth(head, nodes, i + q);
    if Nth(head, nodes, k) == null {
      NullStays(head, nodes, k, i + q);
    }
  }

  // Among more values than there are nodes, two are equal.

  lemma {:induction false} Pigeonhole<T>(s: seq<T>, values: set<T>) returns (i: nat, j: nat)
    requires |s| > |values| && forall k :: 0 <= k < |s| ==> s[k] in values
    ensures i < j < |s| && s[i] == s[j]
    decreases |values|
  {
    var last := s[|s|-1];
    if k :| 0 <= k < |s| - 1 && s[k] == last {
      return k, |s| - 1;
    }
    var t := s[..|s|-1];
    forall k | 0 <= k < |t|
      ensures t[k] in values - {last}
    {
      assert t[k] == s[k];
    }
    i, j := Pigeonhole(t, values - {last});
  }

  ghost function Prefix(head: ListNode?, nodes: set<ListNode>, n: nat): (s: seq<ListNode?>)
    requires Closed(head, nodes)
    reads nodes
    ensures |s| == n && forall k :: 0 <= k < n ==> s[k] == Nth(head, nodes, k)
  {
    if n == 0 then [] else Prefix(head, nodes, n - 1) + [Nth(head, nodes, n - 1)]
  }

  /** Slow and fast are together after no more links than there are nodes, and one. */
  lemma TheyMeet(head: ListNode?, nodes: set<ListNode>) returns (m: nat)
    requires Closed(head, nodes)
    ensures 1 <= m <= |nodes| + 1 && Nth(head, nodes, m) == Nth(head, nodes, 2 * m)
  {
    var values: set<ListNode?> := nodes;
    var s := Prefix(head, nodes, |nodes| + 2);
    var i, j := Pigeonhole(s, values + {null});
    RepeatIsPeriod(head, nodes, i, j);
    m := LongPeriod(head, nodes, i, j - i, i);
    assert Nth(head, nodes, m) == Nth(head, nodes, m + m);
  }

  /** Once they have met, a node is on the cycle exactly if the walk is back on it after as many links as
      it took them to meet. */
  lemma OnCycleIff(head: ListNode?, nodes: set<ListNode>, m: nat, i: nat)
    requires Closed(head, nodes) && m >= 1 && Nth(head, nodes, m) == Nth(head, nodes, 2 * m) &&
      Nth(head, nodes, m) != null
    ensures OnCycle(head, nodes, i) <==> Nth(head, nodes, i) == Nth(head, nodes, i + m)
  {
    RepeatIsPeriod(head, nodes, m, 2 * m);
    if Nth(head, nodes, i) == Nth(head, nodes, i + m) {
      assert OnCycle(head, nodes, m);
      CycleNeverEnds(head, nodes, m, i);
    }
    if OnCycle(head, nodes, i) {
      var j :| j > i && Nth(head, nodes, j) == Nth(head, nodes, i);
      RepeatIsPeriod(head, nodes, i, j);
      var q := LongPeriod(head, nodes, i, j - i, m);
      assert Nth(head, nodes, i) == Nth(head, nodes, i + q);
      assert Nth(head, nodes, i + q) == Nth(head, nodes, i + q + m);
      assert Nth(head, nodes, i + m) == Nth(head, nodes, (i + m) + q);
      assert i + q + m == (i + m) + q;
    }
  }

  // ---------------------------------------------------------------- the two functions

  /** Slow has gone `k` links, fast twice as many, and they have not met since the start. */
  ghost predicate Chase(head: ListNode?, nodes: set<ListNode>, slow: ListNode?, fast: ListNode?, k: nat)
    requires Closed(head, nodes)
    reads nodes
  {
    && slow == Nth(head, nodes, k) && fast == Nth(head, nodes, 2 * k)
    && forall i: nat :: 1 <= i <= k ==> Nth(head, nodes, i) != Nth(head, nodes, 2 * i)
  }

  /** Two more links for fast and one for slow, both over real nodes. */
  lemma ChaseStep(head: ListNode?, nodes: set<ListNode>, k: nat)
    requires Closed(head, nodes) && Nth(head, nodes, 2 * k) != null && Nth(head, nodes, 2 * k).next != null
    ensures Nth(head, nodes, k) != null && Nth(head, nodes, k + 1) == Nth(head, nodes, k).next &&
      Nth(head, nodes, k + 1) != null
    ensures Nth(head, nodes, 2 * k + 1) == Nth(head, nodes, 2 * k).next
    ensures Nth(head, nodes, 2 * (k + 1)) == Nth(head, nodes, 2 * k + 1).next
  {
    if Nth(head, nodes, k + 1) == null {
      NullStays(head, nodes, k + 1, 2 * k + 1);
    }
    assert 2 * (k + 1) - 1 == 2 * k + 1;
  }

  /** Fast at the end of the list means that there is no cycle. */
  lemma EndMeansAcyclic(head: ListNode?, nodes: set<ListNode>, k: nat)
    requires Closed(head, nodes) && (Nth(head, nodes, k) == null || Nth(head, nodes, k).next == null)
    ensures !Cyclic(head, nodes) && Nth(head, nodes, k + 1) == null
  {
    if i: nat :| OnCycle(head, nodes, i) {
      CycleNeverEnds(head, nodes, i, k + 1);
    }
  }

  /** True exactly if a cycle can be reached; the loop ends on every finite list. */
  method HasCycle(head: ListNode?, ghost nodes: set<ListNode>) returns (r: bool)
    requires Closed(head, nodes)
    ensures r <==> Cyclic(head, nodes)
  {
    var slow, fast := head, head;
    ghost var k: nat := 0;
    ghost var m := TheyMeet(head, nodes);
    while fast != null && fast.next != null
      invariant Chase(head, nodes, slow, fast, k) && k < m
      decreases m - k
    {
      ChaseStep(head, nodes, k);
      slow := slow.next;
      fast := fast.next.next;
      k := k + 1;
      if slow == fast {
        assert OnCycle(head, nodes, k) by {
          assert Nth(head, nodes, 2 * k) == Nth(head, nodes, k);
        }
        return true;
      }
    }
    EndMeansAcyclic(head, nodes, 2 * k);
    return false;
  }

  datatype Outcome = Found(node: ListNode?) | Crash

  /** The first node of the cycle if there is one; null for a list of at most one node; and for a longer
      list that ends, a null dereference. */
  method DetectCycle(head: ListNode?, ghost nodes: set<ListNode>) returns (r: Outcome)
    requires Closed(head, nodes)
    ensures r == Found(null) <==> head == null || head.next == null
    ensures r.Found? && r.node != null <==> Cyclic(head, nodes)
    ensures r.Found? && r.node != null ==> IsEntry(head, nodes, r.node)
  {
    if head == null || head.next == null {
      EndMeansAcyclic(head, nodes, 0);
      return Found(null);
    }
    var fast := Meet(head, nodes);
    r := Approach(head, nodes, fast);
  }

  /** The first loop: where slow and fast met, or else the end of the list. */
  method Meet(head: ListNode?, ghost nodes: set<ListNode>) returns (fast: ListNode?)
    requires Closed(head, nodes) && head != null && head.next != null
    ensures Cyclic(head, nodes) ==> exists m: nat :: Met(head, nodes, fast, m)
    ensures !Cyclic(head, nodes) ==> fast != head && (fast == null || fast.next == null)
  {
    var slow: ListNode? := head;
    fast := head;
    ghost var k: nat := 0;
    ghost var m := TheyMeet(head, nodes);
    while fast != null && fast.next != null
      invariant Chase(head, nodes, slow, fast, k) && k < m
      decreases m - k
    {
      ChaseStep(head, nodes, k);
      slow := slow.next;
      fast := fast.next.next;
      k := k + 1;
      if slow == fast {
        assert Met(head, nodes, fast, k);
        assert OnCycle(head, nodes, k);
        return;
      }
    }
    EndMeansAcyclic(head, nodes, 2 * k);
  }

  ghost predicate Met(head: ListNode?, nodes: set<ListNode>, n: ListNode?, m: nat)
    requires Closed(head, nodes)
    reads nodes
  {
    m >= 1 && n != null && n == Nth(head, nodes, m) && Nth(head, nodes, 2 * m) == n
  }

  /** The second loop: one from the head and one from the meeting point, step by step. */
  method Approach(head: ListNode?, ghost nodes: set<ListNode>, start: ListNode?) returns (r: Outcome)
    requires Closed(head, nodes) && head != null && head.next != null
    requires Cyclic(head, nodes) ==> exists m: nat :: Met(head, nodes, start, m)
    requires !Cyclic(head, nodes) ==> start != head && (start == null || start.next == null)
    ensures Cyclic(head, nodes) ==> r.Found? && r.node != null && IsEntry(head, nodes, r.node)
    ensures !Cyclic(head, nodes) ==> r == Crash
  {
    var slow: ListNode?, fast := head, start;
    ghost var i: nat, m: nat := 0, 0;
    if Cyclic(head, nodes) {
      m :| Met(head, nodes, start, m);
    }
    while slow != fast
      invariant Cyclic(head, nodes) ==> Met(head, nodes, start, m) && i <= m
      invariant Cyclic(head, nodes) ==> slow == Nth(head, nodes, i) && fast == Nth(head, nodes, m + i) && slow != null
      invariant Cyclic(head, nodes) ==> forall j: nat :: j < i ==> !OnCycle(head, nodes, j)
      invariant !Cyclic(head, nodes) ==> slow != fast && i <= 1 && slow == Nth(head, nodes, i) && slow != null
      invariant !Cyclic(head, nodes) ==> fast == null || (i == 0 && fast.next == null)
      decreases m + 1 - i
    {
      if Cyclic(head, nodes) {
        OnCycleIff(head, nodes, m, i);
        CycleNeverEnds(head, nodes, m, i + 1);
        CycleNeverEnds(head, nodes, m, m + i);
      }
      if fast == null {
        return Crash;
      }
      fast := fast.next;
      slow := slow.next;
      i := i + 1;
    }
    OnCycleIff(head, nodes, m, i);
    return Found(slow);
  }
}
