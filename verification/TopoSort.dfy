/** Course scheduling by depth-first search, as in Algorithm/graphy.cpp:58-105.

    The file's globals are the fields of one object.  `FindOrder` clears `onPath` and `visited` but
    neither `hasCycle` nor `postorder`, so its contract says what a call returns from any state; on
    a new object it is the promise of the algorithm: a topological order, or nothing on a cycle.

    The search ends because `Traverse` calls itself only from a vertex that was not visited before.  A vertex
    is appended to `postorder` when its successors have been (`LeaveVertex`); an edge back onto the path
    closes a cycle (`ClosedPath`).
*/
module TopoSort {

  /** A prerequisite (to, from): `from` has to be taken before `to`. */
  type Prerequisite = (nat, nat)
  type Graph = seq<seq<nat>>

  ghost predicate InRange(n: nat, prerequisites: seq<Prerequisite>) {
    forall k :: 0 <= k < |prerequisites| ==> prerequisites[k].0 < n && prerequisites[k].1 < n
  }

  ghost predicate Edge(prerequisites: seq<Prerequisite>, from: nat, to: nat) {
    (to, from) in prerequisites
  }

  /** A closed walk of at least one edge. */
  ghost predicate IsCycle(prerequisites: seq<Prerequisite>, p: seq<nat>) {
    && |p| >= 2 && p[0] == p[|p|-1]
    && forall k :: 1 <= k < |p| ==> Edge(prerequisites, p[k-1], p[k])
  }

  ghost predicate Cyclic(prerequisites: seq<Prerequisite>) {
    exists p :: IsCycle(prerequisites, p)
  }

  ghost predicate IsPermutation(n: nat, order: seq<nat>) {
    && |order| == n
    && (forall k :: 0 <= k < n ==> order[k] < n)
    && (forall j, k :: 0 <= j < k < n ==> order[j] != order[k])
    && (forall x: nat :: x < n ==> x in order)
  }

  /** `order` lists every course once, each one after all its prerequisites. */
  ghost predicate IsSchedule(n: nat, prerequisites: seq<Prerequisite>, order: seq<nat>) {
    && IsPermutation(n, order)
    && forall i, j :: 0 <= i < n && 0 <= j < n && Edge(prerequisites, order[i], order[j]) ==> i < j
  }

  ghost predicate Represents(G: Graph, n: nat, prerequisites: seq<Prerequisite>) {
    && |G| == n
    && forall f, t :: 0 <= f < n ==> (t in G[f] <==> Edge(prerequisites, f, t))
  }

  /** The vertices on the current path, root first, each joined to the next by an edge. */
  ghost predicate IsPath(G: Graph, stack: seq<nat>) {
    && (forall k :: 0 <= k < |stack| ==> stack[k] < |G|)
    && (forall k :: 1 <= k < |stack| ==> stack[k] in G[stack[k-1]])
  }

  /** `done` holds finished vertices once each, and every successor of one precedes it. */
  ghost predicate Finished(G: Graph, done: seq<nat>) {
    && (forall k :: 0 <= k < |done| ==> done[k] < |G|)
    && (forall j, k :: 0 <= j < k < |done| ==> done[j] != done[k])
    && (forall k, t :: 0 <= k < |done| && t in G[done[k]] ==> t in done[..k])
  }

  ghost function Unvisited(visited: seq<bool>): set<nat> {
    set x: nat | x < |visited| && !visited[x]
  }

  /** Following edges only moves to earlier finished vertices. */
  lemma {:induction false} FinishedWalk(G: Graph, prerequisites: seq<Prerequisite>, done: seq<nat>, p: seq<nat>, i: nat)
    returns (j: nat)
    requires Represents(G, |G|, prerequisites) && Finished(G, done)
    requires |p| >= 1 && (forall k :: 1 <= k < |p| ==> Edge(prerequisites, p[k-1], p[k]))
    requires i < |done| && done[i] == p[0]
    ensures j < |done| && done[j] == p[|p|-1] && (|p| >= 2 ==> j < i)
  {
    if |p| == 1 {
      j := i;
    } else {
      assert Edge(prerequisites, p[0], p[1]);
      assert p[1] in done[..i];
      var m :| 0 <= m < i && done[m] == p[1];
      j := FinishedWalk(G, prerequisites, done, p[1..], m);
    }
  }

  /** When every vertex is finished there is no cycle, and the reverse of `done` is a schedule. */
  lemma ScheduleFromFinished(G: Graph, n: nat, prerequisites: seq<Prerequisite>, done: seq<nat>)
    requires Represents(G, n, prerequisites) && InRange(n, prerequisites) && Finished(G, done)
    requires forall x: nat :: x < n ==> x in done
    ensures !Cyclic(prerequisites)
    ensures IsSchedule(n, prerequisites, Reverse(done))
  {
    forall p | IsCycle(prerequisites, p)
      ensures false
    {
      assert Edge(prerequisites, p[0], p[1]);
      assert p[0] < n;
      assert p[0] in done;
      var i :| 0 <= i < |done| && done[i] == p[0];
      var j := FinishedWalk(G, prerequisites, done, p, i);
    }
    LengthOfPermutation(done, n);
    var order := Reverse(done);
    forall x: nat | x < n
      ensures x in order
    {
      assert x in done;
      var i :| 0 <= i < |done| && done[i] == x;
      assert order[n-1-i] == x;
    }
    forall i, j | 0 <= i < n && 0 <= j < n && Edge(prerequisites, order[i], order[j])
      ensures i < j
    {
      var k := n - 1 - i;
      assert done[k] == order[i];
      assert order[j] in done[..k];
    }
  }

  /** The search invariant while no cycle has been met: the visited vertices are the ones on the
      path, whose edges lead from each to the next, and the finished ones in `done`. */
  ghost predicate Searching(G: Graph, onPath: seq<bool>, visited: seq<bool>, done: seq<nat>, stack: seq<nat>) {
    && |onPath| == |visited| == |G|
    && IsPath(G, stack)
    && Finished(G, done)
    && (forall x: nat :: x < |G| ==> (onPath[x] <==> x in stack))
    && (forall x: nat :: x < |G| ==> (visited[x] <==> x in stack || x in done))
    && (forall x :: x in stack ==> x !in done)
  }

  lemma EnterVertex(G: Graph, onPath: seq<bool>, visited: seq<bool>, done: seq<nat>, stack: seq<nat>, i: nat)
    requires Searching(G, onPath, visited, done, stack)
    requires i < |G| && !visited[i] && (stack != [] ==> i in G[stack[|stack|-1]])
    ensures Searching(G, onPath[i := true], visited[i := true], done, stack + [i])
  {
  }

  /** A vertex all of whose successors are finished may be finished next. */
  lemma LeaveVertex(G: Graph, onPath: seq<bool>, visited: seq<bool>, done: seq<nat>, stack: seq<nat>, i: nat)
    requires i < |G| && i !in stack && Searching(G, onPath, visited, done, stack + [i])
    requires forall k :: 0 <= k < |G[i]| ==> G[i][k] in done
    ensures Searching(G, onPath[i := false], visited, done + [i], stack)
  {
    var next, inner := done + [i], stack + [i];
    assert i in inner;
    forall k, t | 0 <= k < |next| && t in G[next[k]]
      ensures t in next[..k]
    {
      assert next[..k] == done[..k];
    }
    assert forall k :: 0 <= k < |stack| ==> inner[k] == stack[k];
    assert forall x :: x in stack ==> x in inner;
  }

  function Reverse(s: seq<nat>): (r: seq<nat>)
    ensures |r| == |s|
    ensures forall k :: 0 <= k < |s| ==> r[k] == s[|s|-1-k]
  {
    seq(|s|, k requires 0 <= k < |s| => s[|s|-1-k])
  }

  lemma {:induction false} LengthOfPermutation(s: seq<nat>, n: nat)
    requires forall k :: 0 <= k < |s| ==> s[k] < n
    requires forall j, k :: 0 <= j < k < |s| ==> s[j] != s[k]
    requires forall x: nat :: x < n ==> x in s
    ensures |s| == n
  {
    if n == 0 {
    } else {
      assert n - 1 in s;
      var i :| 0 <= i < |s| && s[i] == n - 1;
      var t := s[..i] + s[i+1..];
      forall x: nat | x < n - 1
        ensures x in t
      {
        assert x in s;
        var k :| 0 <= k < |s| && s[k] == x;
        assert t[if k < i then k else k - 1] == x;
      }
      LengthOfPermutation(t, n - 1);
    }
  }

  class Scheduler {
    var onPath: seq<bool>
    var visited: seq<bool>
    var hasCycle: bool
    var postorder: seq<nat>

    constructor ()
      ensures !hasCycle && postorder == []
    {
      onPath, visited, hasCycle, postorder := [], [], false, [];
    }

    /** One depth-first visit of `i`, reached from the end of `stack`. */
    method Traverse(G: Graph, i: nat, ghost prerequisites: seq<Prerequisite>, ghost stack: seq<nat>, ghost base: nat)
      requires Represents(G, |G|, prerequisites) && InRange(|G|, prerequisites)
      requires i < |G| && |onPath| == |visited| == |G|
      requires !hasCycle ==> base <= |postorder| && Searching(G, onPath, visited, postorder[base..], stack)
      requires !hasCycle && stack != [] ==> i in G[stack[|stack|-1]]
      modifies this
      decreases Unvisited(visited)
      ensures |onPath| == |visited| == |G|
      ensures forall x: nat :: x < |G| && old(visited)[x] ==> visited[x]
      ensures old(hasCycle) ==> hasCycle && postorder == old(postorder)
      ensures hasCycle ==> old(hasCycle) || Cyclic(prerequisites)
      ensures !hasCycle ==> old(postorder) <= postorder && Searching(G, onPath, visited, postorder[base..], stack)
      ensures !hasCycle ==> i in postorder[base..]
    {
      if onPath[i] {
        if !hasCycle {
          ghost var k :| 0 <= k < |stack| && stack[k] == i;
          ClosedPath(G, prerequisites, stack, k);
        }
        hasCycle := true;
      }
      if visited[i] || hasCycle {
        return;
      }

      EnterVertex(G, onPath, visited, postorder[base..], stack, i);
      visited := visited[i := true];
      onPath := onPath[i := true];
      ghost var inner, seen := stack + [i], visited;
      assert Unvisited(seen) == Unvisited(old(visited)) - {i};

      for c := 0 to |G[i]|
        invariant |onPath| == |visited| == |G|
        invariant forall x: nat :: x < |G| && seen[x] ==> visited[x]
        invariant hasCycle ==> Cyclic(prerequisites)
        invariant !hasCycle ==> old(postorder) <= postorder && Searching(G, onPath, visited, postorder[base..], inner)
        invariant !hasCycle ==> forall k :: 0 <= k < c ==> G[i][k] in postorder[base..]
      {
        assert G[i][c] in G[i];
        assert Edge(prerequisites, i, G[i][c]);
        assert Unvisited(visited) <= Unvisited(seen) && i in Unvisited(old(visited));
        ghost var before := postorder;
        Traverse(G, G[i][c], prerequisites, inner, base);
        assert !hasCycle ==> before[base..] <= postorder[base..];
      }

      if !hasCycle {
        LeaveVertex(G, onPath, visited, postorder[base..], stack, i);
        assert (postorder + [i])[base..] == postorder[base..] + [i];
      }
      postorder := postorder + [i];
      onPath := onPath[i := false];
    }

    method FindOrder(n: nat, prerequisites: seq<Prerequisite>) returns (order: seq<nat>)
      requires InRange(n, prerequisites)
      modifies this
      ensures hasCycle <==> old(hasCycle) || Cyclic(prerequisites)
      ensures hasCycle ==> order == []
      ensures !hasCycle ==> |order| == n + |old(postorder)| && IsSchedule(n, prerequisites, order[..n])
      ensures !hasCycle ==> order[n..] == Reverse(old(postorder))
      ensures !hasCycle ==> postorder == order
    {
      onPath := seq(n, _ => false);
      visited := seq(n, _ => false);
      var G := BuildGraph(n, prerequisites);

      ghost var base := |postorder|;
      for i := 0 to n
        invariant |onPath| == |visited| == n
        invariant hasCycle ==> old(hasCycle) || Cyclic(prerequisites)
        invariant old(hasCycle) ==> hasCycle
        invariant !hasCycle ==> old(postorder) <= postorder && Searching(G, onPath, visited, postorder[base..], [])
        invariant !hasCycle ==> forall x :: 0 <= x < i ==> visited[x]
      {
        Traverse(G, i, prerequisites, [], base);
      }

      if hasCycle {
        return [];
      }
      Conclude(G, n, prerequisites, old(postorder), postorder);
      postorder := Reverse(postorder);
      return postorder;
    }
  }

  /** The edges point from each prerequisite to the courses that need it. */
  method BuildGraph(n: nat, prerequisites: seq<Prerequisite>) returns (G: Graph)
    requires InRange(n, prerequisites)
    ensures Represents(G, n, prerequisites)
  {
    G := seq(n, _ => []);
    for k := 0 to |prerequisites|
      invariant |G| == n
      invariant Represents(G, n, prerequisites[..k])
    {
      var (to, from) := prerequisites[k];
      G := G[from := G[from] + [to]];
      assert prerequisites[..k+1] == prerequisites[..k] + [prerequisites[k]];
    }
    assert prerequisites[..|prerequisites|] == prerequisites;
  }

  lemma Conclude(G: Graph, n: nat, prerequisites: seq<Prerequisite>, earlier: seq<nat>, postorder: seq<nat>)
    requires Represents(G, n, prerequisites) && InRange(n, prerequisites)
    requires earlier <= postorder && Finished(G, postorder[|earlier|..])
    requires forall x: nat :: x < n ==> x in postorder[|earlier|..]
    ensures !Cyclic(prerequisites) && |postorder| == n + |earlier|
    ensures IsSchedule(n, prerequisites, Reverse(postorder)[..n])
    ensures Reverse(postorder)[n..] == Reverse(earlier)
  {
    ScheduleFromFinished(G, n, prerequisites, postorder[|earlier|..]);
    ReverseSplit(postorder, |earlier|);
    assert postorder[..|earlier|] == earlier;
  }

  lemma {:induction false} ReverseSplit(s: seq<nat>, k: nat)
    requires k <= |s|
    ensures Reverse(s)[..|s|-k] == Reverse(s[k..]) && Reverse(s)[|s|-k..] == Reverse(s[..k])
  {
    var r := Reverse(s);
    assert forall j :: 0 <= j < |s| - k ==> r[..|s|-k][j] == Reverse(s[k..])[j];
    assert forall j :: 0 <= j < k ==> r[|s|-k..][j] == Reverse(s[..k])[j];
  }

  lemma ClosedPath(G: Graph, prerequisites: seq<Prerequisite>, stack: seq<nat>, k: nat)
    requires Represents(G, |G|, prerequisites) && IsPath(G, stack)
    requires k < |stack| && stack[k] in G[stack[|stack|-1]]
    ensures Cyclic(prerequisites)
  {
    var p := stack[k..] + [stack[k]];
    forall m | 1 <= m < |p|
      ensures Edge(prerequisites, p[m-1], p[m])
    {
      if m < |p| - 1 {
        assert stack[k+m] in G[stack[k+m-1]];
      }
    }
    assert IsCycle(prerequisites, p);
  }
}
